/** `how_many_states` and `set_states` of main.c: the state table. For every
    time `t` in `0..Tmax` the states of that time form a block; inside a
    block the ordinal is `k1 * N2 + k2`, where `k1` numbers the joint bid
    statuses (one mixed-radix digit per demand) and `k2` numbers the link
    positions of the vehicles (one base-`m` digit per vehicle). */
module StateSpace {
  import opened Base
  import opened Network
  import opened MixedRadix
  import opened Layout
  import opened Entities

  /** Where time `t` stands relative to a demand's booking time `tb`. */
  datatype Regime = Before | Eve | Booking | After

  /** The four branches of how_many_states and set_states: the signed test
      `(int)t <= (int)tb - 2`, then the unsigned `t == tb - 1`, then
      `t == tb`. */
  function RegimeAt(t: nat, tb: nat): Regime
    requires t <= IntMax && tb <= IntMax
  {
    if t + 2 <= tb then Before
    else if t == Pred32(tb) then Eve
    else if t == tb then Booking
    else After
  }

  /** The unsigned `tb - 1` never matters: at `tb == 0` it wraps to
      `UINT_MAX`, which no time reaches, and the regimes are simply "two or
      more steps before", "the step before", "the booking step", "after". */
  lemma RegimeMeaning(t: nat, tb: nat)
    requires t < IntMax && tb <= IntMax
    ensures RegimeAt(t, tb) == Before <==> t + 2 <= tb
    ensures RegimeAt(t, tb) == Eve <==> t + 1 == tb
    ensures RegimeAt(t, tb) == Booking <==> t == tb
    ensures RegimeAt(t, tb) == After <==> tb < t
  {
  }

  /** Number of joint statuses of one demand in a regime: the factor
      `1`, `2`, `VNUMBER + 1` or `2 * VNUMBER + 1`. */
  function Radix(v: nat, reg: Regime): nat
  {
    match reg
    case Before => 1
    case Eve => 2
    case Booking => v + 1
    case After => 2 * v + 1
  }

  /** `v` vehicles all with status `st`. */
  function Uniform(v: nat, st: Status): (col: seq<Status>)
    ensures |col| == v && forall i :: 0 <= i < v ==> col[i] == st
  {
    seq(v, _ => st)
  }

  /** `v` vehicles, all without bid except vehicle `i`, which has `st`. */
  function Single(v: nat, i: nat, st: Status): (col: seq<Status>)
    ensures |col| == v
    ensures forall j :: 0 <= j < v ==> col[j] == (if j == i then st else NoBid)
  {
    seq(v, j => if j == i then st else NoBid)
  }

  /** The statuses of one demand across the fleet for one status digit;
      a digit outside the regime's range is fatal. Before the eve of the
      booking time the digit is not inspected. */
  function DecodeColumn(v: nat, reg: Regime, digit: nat): (r: Result<seq<Status>>)
    ensures r.Ok? ==> |r.value| == v
  {
    match reg
    case Before => Ok(Uniform(v, NoBid))
    case Eve =>
      if digit == 0 then Ok(Uniform(v, NoBid))
      else if digit == 1 then Ok(Uniform(v, Pending))
      else Err(BadDigit)
    case Booking =>
      if digit == 0 then Ok(Uniform(v, NoBid))
      else if digit > v then Err(BadDigit)
      else Ok(Single(v, digit - 1, Reserved))
    case After =>
      if digit == 0 then Ok(Uniform(v, NoBid))
      else if digit > 2 * v then Err(BadDigit)
      else if digit <= v then Ok(Single(v, digit - 1, Reserved))
      else Ok(Single(v, digit - v - 1, Boarded))
  }

  /** At most one vehicle is involved with the demand. */
  predicate AtMostOneActive(col: seq<Status>)
  {
    forall i, j :: 0 <= i < |col| && 0 <= j < |col| && col[i] != NoBid && col[j] != NoBid ==> i == j
  }

  /** The joint statuses of one demand that the state space admits: nothing
      before the eve of the booking time; on the eve, either no vehicle or
      every vehicle holds the bid; at booking time at most one vehicle has
      reserved it; afterwards at most one vehicle has reserved it or carries
      the rider. */
  predicate Admissible(v: nat, reg: Regime, col: seq<Status>)
  {
    && |col| == v
    && match reg
       case Before => forall i :: 0 <= i < v ==> col[i] == NoBid
       case Eve => (forall i :: 0 <= i < v ==> col[i] == NoBid) || (forall i :: 0 <= i < v ==> col[i] == Pending)
       case Booking => AtMostOneActive(col) && forall i :: 0 <= i < v ==> col[i] in {NoBid, Reserved}
       case After => AtMostOneActive(col) && forall i :: 0 <= i < v ==> col[i] in {NoBid, Reserved, Boarded}
  }

  /** Index of the first vehicle involved with the demand, or `|col|`. */
  function FirstActive(col: seq<Status>, from: nat): (i: nat)
    requires from <= |col|
    ensures from <= i <= |col|
    ensures forall j :: from <= j < i ==> col[j] == NoBid
    ensures i < |col| ==> col[i] != NoBid
    decreases |col| - from
  {
    if from == |col| then from
    else if col[from] != NoBid then from
    else FirstActive(col, from + 1)
  }

  /** The status digit of a joint status of one demand: 0 for nobody, 1 for
      a fleet-wide bid, `i + 1` when vehicle `i` holds the reservation and
      `v + 1 + i` when it carries the rider. */
  function ColumnDigit(v: nat, col: seq<Status>): nat
  {
    var i := FirstActive(col, 0);
    if i == |col| then 0
    else match col[i]
      case Pending => 1
      case Reserved => i + 1
      case Boarded => v + 1 + i
      case NoBid => 0
  }

  /** Before the eve every digit decodes to nobody holding a bid; from the
      eve on, decoding fails exactly on a digit outside the regime's range,
      and an in-range digit decodes to an admissible joint status whose
      digit is the one decoded. */
  lemma DecodeColumnSpec(v: nat, reg: Regime, digit: nat)
    requires v >= 1
    ensures DecodeColumn(v, reg, digit).Err? <==> reg != Before && digit >= Radix(v, reg)
    ensures reg == Before ==> Admissible(v, Before, DecodeColumn(v, reg, digit).value)
    ensures digit < Radix(v, reg) ==>
      && Admissible(v, reg, DecodeColumn(v, reg, digit).value)
      && ColumnDigit(v, DecodeColumn(v, reg, digit).value) == digit
  {
    var r := DecodeColumn(v, reg, digit);
    if digit < Radix(v, reg) {
      var col := r.value;
      if digit == 0 || reg == Before {
        assert FirstActive(col, 0) == v;
      } else if reg == Eve {
        assert col[0] == Pending;
        assert FirstActive(col, 0) == 0;
      } else if digit <= v {
        var i := digit - 1;
        assert col[i] == Reserved;
        assert FirstActive(col, 0) == i;
      } else {
        var i := digit - v - 1;
        assert col[i] == Boarded;
        assert FirstActive(col, 0) == i;
      }
    }
  }

  /** Every admissible joint status has an in-range digit that decodes
      back to it. */
  lemma EncodeColumnSpec(v: nat, reg: Regime, col: seq<Status>)
    requires v >= 1 && Admissible(v, reg, col)
    ensures ColumnDigit(v, col) < Radix(v, reg)
    ensures DecodeColumn(v, reg, ColumnDigit(v, col)) == Ok(col)
  {
    var i := FirstActive(col, 0);
    if i == v {
      assert col == Uniform(v, NoBid);
    } else if col[i] == Pending {
      assert reg == Eve;
      assert col == Uniform(v, Pending);
    } else {
      assert col == Single(v, i, col[i]);
    }
  }

  // ---------------------------------------------------------------------
  // Counting.

  /** The status radices of all demands at time `t`. */
  function StatusRadices(cfg: Config, demands: seq<Demand>, t: nat): (rs: seq<nat>)
    requires ValidConfig(cfg) && ValidDemands(demands) && t <= cfg.tmax
    ensures |rs| == |demands|
    ensures forall k :: 0 <= k < |rs| ==> rs[k] == Radix(cfg.vehicles, RegimeAt(t, demands[k].tb))
  {
    seq(|demands|, k requires 0 <= k < |demands| => Radix(cfg.vehicles, RegimeAt(t, demands[k].tb)))
  }

  /** `N1`: the number of joint status vectors at time `t`. */
  function StatusCount(cfg: Config, demands: seq<Demand>, t: nat): nat
    requires ValidConfig(cfg) && ValidDemands(demands) && t <= cfg.tmax
  {
    Prod(StatusRadices(cfg, demands, t))
  }

  /** `N2`: the number of ways to place the vehicles on `m` links. */
  function LinkCount(cfg: Config, m: nat): nat
  {
    Pow(m, cfg.vehicles)
  }

  /** Block sizes of the state table, one per time `0..Tmax`. */
  function Sizes(cfg: Config, demands: seq<Demand>, m: nat): (sizes: seq<nat>)
    requires ValidConfig(cfg) && ValidDemands(demands)
    ensures |sizes| == cfg.tmax + 1
    ensures forall t :: 0 <= t <= cfg.tmax ==> sizes[t] == StatusCount(cfg, demands, t) * LinkCount(cfg, m)
  {
    seq(cfg.tmax + 1, t requires 0 <= t <= cfg.tmax => StatusCount(cfg, demands, t) * LinkCount(cfg, m))
  }

  /** how_many_states: the closed form summed over `t < n`. */
  function CountBelow(cfg: Config, demands: seq<Demand>, m: nat, n: nat): nat
    requires ValidConfig(cfg) && ValidDemands(demands) && n <= cfg.tmax + 1
  {
    if n == 0 then 0
    else CountBelow(cfg, demands, m, n - 1) + StatusCount(cfg, demands, n - 1) * Pow(m, cfg.vehicles)
  }

  function HowManyStates(cfg: Config, demands: seq<Demand>, m: nat): nat
    requires ValidConfig(cfg) && ValidDemands(demands)
  {
    CountBelow(cfg, demands, m, cfg.tmax + 1)
  }

  lemma {:induction false} CountBelowIsOffset(cfg: Config, demands: seq<Demand>, m: nat, n: nat)
    requires ValidConfig(cfg) && ValidDemands(demands) && n <= cfg.tmax + 1
    ensures CountBelow(cfg, demands, m, n) == Offset(Sizes(cfg, demands, m), n)
  {
    var sizes := Sizes(cfg, demands, m);
    if n > 0 {
      CountBelowIsOffset(cfg, demands, m, n - 1);
      OffsetStep(sizes, n - 1);
    }
  }

  /** The closed form is the size of the table the enumeration lays out. */
  lemma HowManyStatesIsSum(cfg: Config, demands: seq<Demand>, m: nat)
    requires ValidConfig(cfg) && ValidDemands(demands)
    ensures HowManyStates(cfg, demands, m) == Sum(Sizes(cfg, demands, m))
  {
    var sizes := Sizes(cfg, demands, m);
    CountBelowIsOffset(cfg, demands, m, cfg.tmax + 1);
    assert sizes[..|sizes|] == sizes;
  }

  // ---------------------------------------------------------------------
  // Decoding one state.

  function Regimes(cfg: Config, demands: seq<Demand>, t: nat): (regs: seq<Regime>)
    requires ValidConfig(cfg) && ValidDemands(demands) && t <= cfg.tmax
    ensures |regs| == |demands|
    ensures forall k :: 0 <= k < |demands| ==> regs[k] == RegimeAt(t, demands[k].tb)
  {
    seq(|demands|, k requires 0 <= k < |demands| => RegimeAt(t, demands[k].tb))
  }

  /** The joint statuses of every demand, in demand order; the first bad
      digit is fatal. */
  function Columns(v: nat, regs: seq<Regime>, digits: seq<nat>): (r: Result<seq<seq<Status>>>)
    requires |regs| == |digits|
    ensures r.Ok? ==> |r.value| == |regs| && forall k :: 0 <= k < |regs| ==> |r.value[k]| == v
  {
    if |regs| == 0 then Ok([])
    else
      var col :- DecodeColumn(v, regs[0], digits[0]);
      var rest :- Columns(v, regs[1..], digits[1..]);
      Ok([col] + rest)
  }

  lemma {:induction false} ColumnsSpec(v: nat, regs: seq<Regime>, digits: seq<nat>)
    requires |regs| == |digits|
    ensures Columns(v, regs, digits).Ok? <==>
      forall k :: 0 <= k < |regs| ==> DecodeColumn(v, regs[k], digits[k]).Ok?
    ensures Columns(v, regs, digits).Ok? ==>
      && |Columns(v, regs, digits).value| == |regs|
      && forall k :: 0 <= k < |regs| ==>
           Columns(v, regs, digits).value[k] == DecodeColumn(v, regs[k], digits[k]).value
  {
    if |regs| > 0 {
      ColumnsSpec(v, regs[1..], digits[1..]);
      if !DecodeColumn(v, regs[0], digits[0]).Ok? {
        assert !(forall k :: 0 <= k < |regs| ==> DecodeColumn(v, regs[k], digits[k]).Ok?);
      } else if Columns(v, regs[1..], digits[1..]).Ok? {
        forall k | 0 <= k < |regs|
          ensures DecodeColumn(v, regs[k], digits[k]).Ok?
        {
          if k > 0 {
            assert regs[1..][k - 1] == regs[k] && digits[1..][k - 1] == digits[k];
          }
        }
      } else {
        var k :| 0 <= k < |regs| - 1 && !DecodeColumn(v, regs[1..][k], digits[1..][k]).Ok?;
        assert !DecodeColumn(v, regs[k + 1], digits[k + 1]).Ok?;
      }
    }
  }

  /** Statuses of demand `k` as seen by every vehicle. */
  function Column(s: State, k: nat): (col: seq<Status>)
    requires forall i :: 0 <= i < |s.vs| ==> k < |s.vs[i].sf|
    ensures |col| == |s.vs|
  {
    seq(|s.vs|, i requires 0 <= i < |s.vs| => s.vs[i].sf[k])
  }

  /** The state with status ordinal `k1` and link ordinal `k2` at time `t`:
      the link digits are checked first, then the status digits; the state
      starts out present. */
  function DecodeState(cfg: Config, demands: seq<Demand>, net: Net, t: nat, k1: nat, k2: nat, id: nat): (r: Result<State>)
    requires ValidConfig(cfg) && ValidDemands(demands) && t <= cfg.tmax
    requires k1 < StatusCount(cfg, demands, t) && k2 < LinkCount(cfg, |net|)
  {
    var v, m := cfg.vehicles, |net|;
    ProdRepeat(m, v);
    BelowProdMeansPositive(k2, Repeat(m, v));
    BelowProdMeansPositive(k1, StatusRadices(cfg, demands, t));
    var links := Decode(k2, Repeat(m, v));
    if exists i | 0 <= i < v :: links[i] >= m then Err(BadDigit)
    else
      var digits := Decode(k1, StatusRadices(cfg, demands, t));
      var cols :- Columns(v, Regimes(cfg, demands, t), digits);
      Ok(State(t, seq(v, i requires 0 <= i < v => VehicleState(links[i], seq(|demands|, k requires 0 <= k < |demands| => cols[k][i]))), true, id))
  }

  /** A state the table contains: well formed, at a time `0..Tmax`, and
      with an admissible joint status for every demand. */
  predicate InStateSpace(cfg: Config, demands: seq<Demand>, net: Net, s: State)
    requires ValidConfig(cfg) && ValidDemands(demands)
  {
    && WellFormed(cfg, net, demands, s)
    && s.t <= cfg.tmax
    && forall k :: 0 <= k < |demands| ==> Admissible(cfg.vehicles, RegimeAt(s.t, demands[k].tb), Column(s, k))
  }

  /** The status digits of a well-formed state. */
  function StatusDigits(cfg: Config, demands: seq<Demand>, net: Net, s: State): (ds: seq<nat>)
    requires WellFormed(cfg, net, demands, s)
    ensures |ds| == |demands|
  {
    seq(|demands|, k requires 0 <= k < |demands| => ColumnDigit(cfg.vehicles, Column(s, k)))
  }

  /** The link digits of a state: the link index of every vehicle. */
  function LinkDigits(s: State): (ds: seq<nat>)
    ensures |ds| == |s.vs|
  {
    seq(|s.vs|, i requires 0 <= i < |s.vs| => s.vs[i].link)
  }

  /** Position of a state in the table: the offset of its time block plus
      `k1 * N2 + k2`. This is the inverse of the enumeration. */
  function StateIndex(cfg: Config, demands: seq<Demand>, net: Net, s: State): nat
    requires ValidConfig(cfg) && ValidDemands(demands)
    requires WellFormed(cfg, net, demands, s) && s.t <= cfg.tmax
  {
    var k1 := Encode(StatusDigits(cfg, demands, net, s), StatusRadices(cfg, demands, s.t));
    var k2 := Encode(LinkDigits(s), Repeat(|net|, cfg.vehicles));
    Offset(Sizes(cfg, demands, |net|), s.t) + Pair(k1, k2, LinkCount(cfg, |net|))
  }

  /** The state at position `j` of the block of time `t`: ordinal
      `j / N2` of the statuses and `j % N2` of the links. */
  function StateInBlock(cfg: Config, demands: seq<Demand>, net: Net, t: nat, j: nat, id: nat): Result<State>
    requires ValidConfig(cfg) && ValidDemands(demands) && t <= cfg.tmax
    requires j < StatusCount(cfg, demands, t) * LinkCount(cfg, |net|)
  {
    var n2 := LinkCount(cfg, |net|);
    BlockSplit(j, StatusCount(cfg, demands, t), n2);
    DecodeState(cfg, demands, net, t, j / n2, j % n2, id)
  }

  /** The `i`-th state of the table, before capacity marking. */
  function StateAt(cfg: Config, demands: seq<Demand>, net: Net, i: nat): Result<State>
    requires ValidConfig(cfg) && ValidDemands(demands)
    requires i < Sum(Sizes(cfg, demands, |net|))
  {
    var loc := Locate(Sizes(cfg, demands, |net|), i);
    StateInBlock(cfg, demands, net, loc.0, loc.1, i)
  }

  /** The nested `t`, `k1`, `k2` loops of set_states: every state of the
      table in order, present and numbered; a bad digit anywhere is fatal. */
  function Enumerate(cfg: Config, demands: seq<Demand>, net: Net): Result<seq<State>>
    requires ValidConfig(cfg) && ValidDemands(demands)
  {
    var n := Sum(Sizes(cfg, demands, |net|));
    if exists i | 0 <= i < n :: StateAt(cfg, demands, net, i).Err? then Err(BadDigit)
    else Ok(seq(n, i requires 0 <= i < n => StateAt(cfg, demands, net, i).value))
  }

  /** Decoding an in-range ordinal pair succeeds and gives a state of the
      space whose digits encode back to the pair. */
  /** The status digits of ordinal `k1` decode, demand by demand, to
      admissible columns that encode back to the same digits. */
  lemma StatusColumns(cfg: Config, demands: seq<Demand>, t: nat, k1: nat)
    requires ValidConfig(cfg) && ValidDemands(demands) && t <= cfg.tmax
    requires k1 < StatusCount(cfg, demands, t)
    ensures Positive(StatusRadices(cfg, demands, t))
    ensures var v, regs := cfg.vehicles, Regimes(cfg, demands, t);
      var digits := Decode(k1, StatusRadices(cfg, demands, t));
      && Columns(v, regs, digits).Ok?
      && forall k :: 0 <= k < |demands| ==>
           && Admissible(v, regs[k], Columns(v, regs, digits).value[k])
           && ColumnDigit(v, Columns(v, regs, digits).value[k]) == digits[k]
  {
    var v, rs, regs := cfg.vehicles, StatusRadices(cfg, demands, t), Regimes(cfg, demands, t);
    DecodeIsDigits(k1, rs);
    var digits := Decode(k1, rs);
    forall k | 0 <= k < |demands|
      ensures DecodeColumn(v, regs[k], digits[k]).Ok?
      ensures Admissible(v, regs[k], DecodeColumn(v, regs[k], digits[k]).value)
      ensures ColumnDigit(v, DecodeColumn(v, regs[k], digits[k]).value) == digits[k]
    {
      DecodeColumnSpec(v, regs[k], digits[k]);
    }
    ColumnsSpec(v, regs, digits);
  }

  lemma DecodeStateSpec(cfg: Config, demands: seq<Demand>, net: Net, t: nat, k1: nat, k2: nat, id: nat)
    requires ValidConfig(cfg) && ValidDemands(demands) && t <= cfg.tmax
    requires k1 < StatusCount(cfg, demands, t) && k2 < LinkCount(cfg, |net|)
    ensures DecodeState(cfg, demands, net, t, k1, k2, id).Ok?
    ensures var s := DecodeState(cfg, demands, net, t, k1, k2, id).value;
      && s.t == t && s.id == id && s.presence
      && InStateSpace(cfg, demands, net, s)
      && Encode(StatusDigits(cfg, demands, net, s), StatusRadices(cfg, demands, t)) == k1
      && Encode(LinkDigits(s), Repeat(|net|, cfg.vehicles)) == k2
  {
    var v, m := cfg.vehicles, |net|;
    var rs := StatusRadices(cfg, demands, t);
    var regs := Regimes(cfg, demands, t);
    ProdRepeat(m, v);
    DecodeIsDigits(k2, Repeat(m, v));
    DecodeIsDigits(k1, rs);
    var links := Decode(k2, Repeat(m, v));
    var digits := Decode(k1, rs);
    assert !exists i | 0 <= i < v :: links[i] >= m;
    StatusColumns(cfg, demands, t, k1);
    var cols := Columns(v, regs, digits).value;
    var s := DecodeState(cfg, demands, net, t, k1, k2, id).value;
    assert s.vs == seq(v, i requires 0 <= i < v => VehicleState(links[i], seq(|demands|, k requires 0 <= k < |demands| => cols[k][i])));
    forall k | 0 <= k < |demands|
      ensures Column(s, k) == cols[k]
    {
    }
    assert StatusDigits(cfg, demands, net, s) == digits;
    assert LinkDigits(s) == links;
    EncodeDecode(k1, rs);
    EncodeDecode(k2, Repeat(m, v));
  }

  /** Every state of the space, with any presence and id, decodes from the
      ordinal pair its digits encode to. */
  lemma EncodeStateSpec(cfg: Config, demands: seq<Demand>, net: Net, s: State, id: nat)
    requires ValidConfig(cfg) && ValidDemands(demands) && InStateSpace(cfg, demands, net, s)
    ensures Encode(StatusDigits(cfg, demands, net, s), StatusRadices(cfg, demands, s.t)) < StatusCount(cfg, demands, s.t)
    ensures Encode(LinkDigits(s), Repeat(|net|, cfg.vehicles)) < LinkCount(cfg, |net|)
    ensures DecodeState(cfg, demands, net, s.t,
                        Encode(StatusDigits(cfg, demands, net, s), StatusRadices(cfg, demands, s.t)),
                        Encode(LinkDigits(s), Repeat(|net|, cfg.vehicles)), id)
            == Ok(s.(presence := true, id := id))
  {
    var v, m, t := cfg.vehicles, |net|, s.t;
    var rs := StatusRadices(cfg, demands, t);
    var regs := Regimes(cfg, demands, t);
    var ds := StatusDigits(cfg, demands, net, s);
    var ls := LinkDigits(s);
    forall k | 0 <= k < |demands|
      ensures ds[k] < rs[k]
      ensures DecodeColumn(v, regs[k], ds[k]) == Ok(Column(s, k))
    {
      EncodeColumnSpec(v, regs[k], Column(s, k));
    }
    assert IsDigits(ds, rs);
    assert IsDigits(ls, Repeat(m, v));
    EncodeBelow(ds, rs);
    EncodeBelow(ls, Repeat(m, v));
    ProdRepeat(m, v);
    DecodeEncode(ds, rs);
    DecodeEncode(ls, Repeat(m, v));
    var k1, k2 := Encode(ds, rs), Encode(ls, Repeat(m, v));
    ColumnsSpec(v, regs, ds);
    var cols := Columns(v, regs, ds).value;
    var r := DecodeState(cfg, demands, net, t, k1, k2, id).value;
    assert r.vs == seq(v, i requires 0 <= i < v => VehicleState(ls[i], seq(|demands|, k requires 0 <= k < |demands| => cols[k][i])));
    forall i | 0 <= i < v
      ensures r.vs[i] == s.vs[i]
    {
      assert r.vs[i].sf == s.vs[i].sf;
    }
    assert r.vs == s.vs;
  }

  /** The `i`-th state of the table is a state of the space with id `i`,
      present, at the time of its block, and `StateIndex` maps it back to
      `i`. */
  lemma StateAtSpec(cfg: Config, demands: seq<Demand>, net: Net, i: nat)
    requires ValidConfig(cfg) && ValidDemands(demands)
    requires i < Sum(Sizes(cfg, demands, |net|))
    ensures StateAt(cfg, demands, net, i).Ok?
    ensures var s := StateAt(cfg, demands, net, i).value;
      && s.id == i && s.presence
      && s.t == Locate(Sizes(cfg, demands, |net|), i).0
      && InStateSpace(cfg, demands, net, s)
      && StateIndex(cfg, demands, net, s) == i
  {
    var (t, j) := Locate(Sizes(cfg, demands, |net|), i);
    var k1, k2 := StateAtUnfold(cfg, demands, net, i, t, j);
    DecodeStateSpec(cfg, demands, net, t, k1, k2, i);
  }

  /** A state of the space sits in the table at `StateIndex`. */
  lemma StateIndexSpec(cfg: Config, demands: seq<Demand>, net: Net, s: State)
    requires ValidConfig(cfg) && ValidDemands(demands) && InStateSpace(cfg, demands, net, s)
    ensures StateIndex(cfg, demands, net, s) < Sum(Sizes(cfg, demands, |net|))
    ensures StateAt(cfg, demands, net, StateIndex(cfg, demands, net, s))
         == Ok(s.(presence := true, id := StateIndex(cfg, demands, net, s)))
  {
    var sizes := Sizes(cfg, demands, |net|);
    var i := StateIndex(cfg, demands, net, s);
    EncodeStateSpec(cfg, demands, net, s, i);
    var n1, n2 := StatusCount(cfg, demands, s.t), LinkCount(cfg, |net|);
    var k1 := Encode(StatusDigits(cfg, demands, net, s), StatusRadices(cfg, demands, s.t));
    var k2 := Encode(LinkDigits(s), Repeat(|net|, cfg.vehicles));
    var j := BlockJoin(k1, k2, n1, n2);
    assert j < sizes[s.t];
    LocateAt(sizes, s.t, j, i);
    var q1, q2 := StateAtUnfold(cfg, demands, net, i, s.t, j);
    BlockUnique(k1, k2, q1, q2, n2);
  }

  lemma StateInBlockUnfold(cfg: Config, demands: seq<Demand>, net: Net, t: nat, j: nat, id: nat)
    returns (k1: nat, k2: nat)
    requires ValidConfig(cfg) && ValidDemands(demands) && t <= cfg.tmax
    requires j < StatusCount(cfg, demands, t) * LinkCount(cfg, |net|)
    ensures k1 < StatusCount(cfg, demands, t) && k2 < LinkCount(cfg, |net|)
    ensures j == k1 * LinkCount(cfg, |net|) + k2
    ensures StateInBlock(cfg, demands, net, t, j, id) == DecodeState(cfg, demands, net, t, k1, k2, id)
  {
    var n2 := LinkCount(cfg, |net|);
    BlockSplit(j, StatusCount(cfg, demands, t), n2);
    DivMod(j, n2);
    k1, k2 := j / n2, j % n2;
  }

  lemma StateAtUnfold(cfg: Config, demands: seq<Demand>, net: Net, i: nat, t: nat, j: nat)
    returns (k1: nat, k2: nat)
    requires ValidConfig(cfg) && ValidDemands(demands)
    requires i < Sum(Sizes(cfg, demands, |net|)) && Locate(Sizes(cfg, demands, |net|), i) == (t, j)
    ensures t <= cfg.tmax && i == Offset(Sizes(cfg, demands, |net|), t) + j
    ensures k1 < StatusCount(cfg, demands, t) && k2 < LinkCount(cfg, |net|)
    ensures j == k1 * LinkCount(cfg, |net|) + k2
    ensures StateAt(cfg, demands, net, i) == DecodeState(cfg, demands, net, t, k1, k2, i)
  {
    k1, k2 := StateInBlockUnfold(cfg, demands, net, t, j, i);
  }

  /** The enumeration never meets a bad digit; it lists `HowManyStates`
      states, the `i`-th with id `i`, all present, all in the space, each
      at its own `StateIndex`, and every state of the space is listed. */
  lemma EnumerateSpec(cfg: Config, demands: seq<Demand>, net: Net)
    requires ValidConfig(cfg) && ValidDemands(demands)
    ensures Enumerate(cfg, demands, net).Ok?
    ensures var states := Enumerate(cfg, demands, net).value;
      && |states| == HowManyStates(cfg, demands, |net|)
      && (forall i :: 0 <= i < |states| ==>
            && states[i].id == i && states[i].presence
            && InStateSpace(cfg, demands, net, states[i])
            && StateIndex(cfg, demands, net, states[i]) == i)
      && (forall s :: InStateSpace(cfg, demands, net, s) ==>
            && StateIndex(cfg, demands, net, s) < |states|
            && states[StateIndex(cfg, demands, net, s)] == s.(presence := true, id := StateIndex(cfg, demands, net, s)))
  {
    var n := Sum(Sizes(cfg, demands, |net|));
    forall i | 0 <= i < n
      ensures StateAt(cfg, demands, net, i).Ok?
    {
      StateAtSpec(cfg, demands, net, i);
    }
    HowManyStatesIsSum(cfg, demands, |net|);
    var states := Enumerate(cfg, demands, net).value;
    forall i | 0 <= i < |states|
      ensures states[i].id == i && states[i].presence
      ensures InStateSpace(cfg, demands, net, states[i])
      ensures StateIndex(cfg, demands, net, states[i]) == i
    {
      StateAtSpec(cfg, demands, net, i);
    }
    forall s | InStateSpace(cfg, demands, net, s)
      ensures StateIndex(cfg, demands, net, s) < |states|
      ensures states[StateIndex(cfg, demands, net, s)] == s.(presence := true, id := StateIndex(cfg, demands, net, s))
    {
      StateIndexSpec(cfg, demands, net, s);
    }
  }

  // ---------------------------------------------------------------------
  // set_states.

  /** `states` is the state table: state `i` has id `i` and is the state
      of the space at `StateIndex` `i`, every state of the space is listed,
      and `presence` says whether every vehicle is within capacity. */
  ghost predicate IsStateTable(cfg: Config, demands: seq<Demand>, net: Net, states: seq<State>)
    requires ValidConfig(cfg) && ValidDemands(demands)
  {
    && (forall i :: 0 <= i < |states| ==>
          && states[i].id == i
          && InStateSpace(cfg, demands, net, states[i])
          && StateIndex(cfg, demands, net, states[i]) == i
          && (states[i].presence <==> WithinCapacity(cfg, states[i])))
    && (forall s :: InStateSpace(cfg, demands, net, s) ==>
          && StateIndex(cfg, demands, net, s) < |states|
          && states[StateIndex(cfg, demands, net, s)]
             == s.(presence := WithinCapacity(cfg, s), id := StateIndex(cfg, demands, net, s)))
  }

  /** Marking capacity on the enumeration gives the state table. */
  lemma MarkedIsStateTable(cfg: Config, demands: seq<Demand>, net: Net, states: seq<State>)
    requires ValidConfig(cfg) && ValidDemands(demands)
    requires Enumerate(cfg, demands, net).Ok?
    requires var raw := Enumerate(cfg, demands, net).value;
      && |states| == |raw|
      && forall x :: 0 <= x < |raw| ==> states[x] == raw[x].(presence := WithinCapacity(cfg, raw[x]))
    ensures IsStateTable(cfg, demands, net, states)
  {
    EnumerateSpec(cfg, demands, net);
    var raw := Enumerate(cfg, demands, net).value;
    forall i | 0 <= i < |states|
      ensures states[i].id == i
      ensures InStateSpace(cfg, demands, net, states[i])
      ensures StateIndex(cfg, demands, net, states[i]) == i
      ensures states[i].presence <==> WithinCapacity(cfg, states[i])
    {
      MarkedRow(cfg, demands, net, raw[i], states[i]);
    }
    forall s | InStateSpace(cfg, demands, net, s)
      ensures StateIndex(cfg, demands, net, s) < |states|
      ensures states[StateIndex(cfg, demands, net, s)]
              == s.(presence := WithinCapacity(cfg, s), id := StateIndex(cfg, demands, net, s))
    {
      var i := StateIndex(cfg, demands, net, s);
      assert raw[i] == s.(presence := true, id := i);
    }
  }

  /** Changing only `presence` keeps a state in the space at its index. */
  lemma MarkedRow(cfg: Config, demands: seq<Demand>, net: Net, raw: State, s: State)
    requires ValidConfig(cfg) && ValidDemands(demands) && InStateSpace(cfg, demands, net, raw)
    requires s == raw.(presence := WithinCapacity(cfg, raw))
    ensures InStateSpace(cfg, demands, net, s)
    ensures StateIndex(cfg, demands, net, s) == StateIndex(cfg, demands, net, raw)
  {
    forall k | 0 <= k < |demands|
      ensures Column(s, k) == Column(raw, k)
    {
    }
    assert StatusDigits(cfg, demands, net, s) == StatusDigits(cfg, demands, net, raw);
    assert LinkDigits(s) == LinkDigits(raw);
  }

  /** set_states: enumerate, check the count against how_many_states, then
      clear `presence` of every state with a vehicle over capacity. */
  method SetStates(cfg: Config, demands: seq<Demand>, net: Net, expected: nat) returns (r: Result<seq<State>>)
    requires ValidConfig(cfg) && ValidDemands(demands)
    ensures r.Ok? <==> expected == HowManyStates(cfg, demands, |net|)
    ensures r.Err? ==> r.fault == CountMismatch
    ensures r.Ok? ==> |r.value| == expected && IsStateTable(cfg, demands, net, r.value)
  {
    EnumerateSpec(cfg, demands, net);
    var raw := Enumerate(cfg, demands, net).value;
    if |raw| != expected {
      return Err(CountMismatch);
    }
    var states := raw;
    var j := 0;
    while j < |raw|
      invariant j <= |raw| && |states| == |raw|
      invariant forall x :: 0 <= x < j ==> states[x] == raw[x].(presence := WithinCapacity(cfg, raw[x]))
      invariant forall x :: j <= x < |raw| ==> states[x] == raw[x]
    {
      var present := CapacityOk(cfg, raw[j]);
      states := states[j := raw[j].(presence := present)];
      j := j + 1;
    }
    MarkedIsStateTable(cfg, demands, net, states);
    r := Ok(states);
  }

  /** The capacity scan of one state: for every vehicle count its riders,
      and stop at the first vehicle with more than `CAPACITY`. */
  method CapacityOk(cfg: Config, s: State) returns (present: bool)
    ensures present <==> WithinCapacity(cfg, s)
  {
    present := true;
    var i := 0;
    while i < |s.vs| && present
      invariant i <= |s.vs|
      invariant present <==> forall x :: 0 <= x < i ==> Riders(s.vs[x].sf) <= cfg.capacity
    {
      var sf := s.vs[i].sf;
      var num := 0;
      var k := 0;
      while k < |sf|
        invariant k <= |sf| && num == Riders(sf[..k])
      {
        assert sf[..k + 1][..k] == sf[..k];
        if sf[k] == Status.Boarded {
          num := num + 1;
        }
        k := k + 1;
      }
      assert sf[..|sf|] == sf;
      if num > cfg.capacity {
        present := false;
      }
      i := i + 1;
    }
  }
}
