/** `how_many_actions` and `set_action` of main.c: the action table. For
    every state, in table order, its actions form a block; inside a block
    the ordinal is `k1 * N2 + k2`, where `k1` numbers the next-link choices
    (one digit per vehicle, radix the out-degree of the node it is heading
    to) and `k2` numbers the acceptance choices (one digit per demand,
    radix `VNUMBER + 1` for a pending bid and 1 otherwise). */
module ActionSpace {
  import opened Base
  import opened Network
  import opened ShortestPath
  import opened MixedRadix
  import opened Layout
  import opened Entities
  import opened Feasibility

  /** Every state of `states` is well formed for a valid fleet. */
  predicate StatesOk(cfg: Config, net: Net, demands: seq<Demand>, states: seq<State>)
  {
    && ValidConfig(cfg)
    && forall j :: 0 <= j < |states| ==> WellFormed(cfg, net, demands, states[j])
  }

  /** The node a vehicle is heading to: the end of its current link. */
  function Heading(net: Net, v: VehicleState): int
    requires v.link < |net|
  {
    net[v.link].d
  }

  /** Radices of the next-link digits: the out-degree per vehicle. */
  function NextRadices(cfg: Config, net: Net, demands: seq<Demand>, s: State): (rs: seq<nat>)
    requires ValidConfig(cfg) && WellFormed(cfg, net, demands, s)
    ensures |rs| == cfg.vehicles
    ensures forall i :: 0 <= i < cfg.vehicles ==> rs[i] == OutDegree(net, Heading(net, s.vs[i]))
  {
    seq(cfg.vehicles, i requires 0 <= i < cfg.vehicles => OutDegree(net, Heading(net, s.vs[i])))
  }

  /** A demand is pending when vehicle 0 holds its bid (the status table
      gives every vehicle the same bid). */
  predicate IsPending(s: State, k: nat)
    requires |s.vs| >= 1 && k < |s.vs[0].sf|
  {
    s.vs[0].sf[k] == Pending
  }

  /** Radices of the acceptance digits. */
  function AcceptRadices(cfg: Config, net: Net, demands: seq<Demand>, s: State): (rs: seq<nat>)
    requires ValidConfig(cfg) && WellFormed(cfg, net, demands, s)
    ensures |rs| == |demands|
    ensures forall k :: 0 <= k < |demands| ==> rs[k] == (if IsPending(s, k) then cfg.vehicles + 1 else 1)
  {
    seq(|demands|, k requires 0 <= k < |demands| => if IsPending(s, k) then cfg.vehicles + 1 else 1)
  }

  /** `N1`, `N2` and their product for one state. */
  function NextCount(cfg: Config, net: Net, demands: seq<Demand>, s: State): nat
    requires ValidConfig(cfg) && WellFormed(cfg, net, demands, s)
  {
    Prod(NextRadices(cfg, net, demands, s))
  }

  function AcceptCount(cfg: Config, net: Net, demands: seq<Demand>, s: State): nat
    requires ValidConfig(cfg) && WellFormed(cfg, net, demands, s)
  {
    Prod(AcceptRadices(cfg, net, demands, s))
  }

  function ActionCount(cfg: Config, net: Net, demands: seq<Demand>, s: State): nat
    requires ValidConfig(cfg) && WellFormed(cfg, net, demands, s)
  {
    NextCount(cfg, net, demands, s) * AcceptCount(cfg, net, demands, s)
  }

  /** Number of pending demands in a status vector. */
  function PendingCount(sf: seq<Status>): nat
  {
    if |sf| == 0 then 0 else (if sf[0] == Pending then 1 else 0) + PendingCount(sf[1..])
  }

  lemma {:induction false} ProdAccept(v: nat, sf: seq<Status>, rs: seq<nat>)
    requires |rs| == |sf|
    requires forall k :: 0 <= k < |sf| ==> rs[k] == (if sf[k] == Pending then v + 1 else 1)
    ensures Prod(rs) == Pow(v + 1, PendingCount(sf))
  {
    if |sf| > 0 {
      ProdAccept(v, sf[1..], rs[1..]);
    }
  }

  /** The acceptance choices of a state number `(V + 1)` to the power of its
      pending demands. */
  lemma AcceptCountClosedForm(cfg: Config, net: Net, demands: seq<Demand>, s: State)
    requires ValidConfig(cfg) && WellFormed(cfg, net, demands, s)
    ensures AcceptCount(cfg, net, demands, s) == Pow(cfg.vehicles + 1, PendingCount(s.vs[0].sf))
  {
    ProdAccept(cfg.vehicles, s.vs[0].sf, AcceptRadices(cfg, net, demands, s));
  }

  /** how_many_actions over the states before `n`. */
  function CountActionsBelow(cfg: Config, net: Net, demands: seq<Demand>, states: seq<State>, n: nat): nat
    requires StatesOk(cfg, net, demands, states) && n <= |states|
  {
    if n == 0 then 0
    else CountActionsBelow(cfg, net, demands, states, n - 1) + ActionCount(cfg, net, demands, states[n - 1])
  }

  function HowManyActions(cfg: Config, net: Net, demands: seq<Demand>, states: seq<State>): nat
    requires StatesOk(cfg, net, demands, states)
  {
    CountActionsBelow(cfg, net, demands, states, |states|)
  }

  /** Block sizes of the action table, one per state. */
  function ActionSizes(cfg: Config, net: Net, demands: seq<Demand>, states: seq<State>): (sizes: seq<nat>)
    requires StatesOk(cfg, net, demands, states)
    ensures |sizes| == |states|
    ensures forall j :: 0 <= j < |states| ==> sizes[j] == ActionCount(cfg, net, demands, states[j])
  {
    seq(|states|, j requires 0 <= j < |states| => ActionCount(cfg, net, demands, states[j]))
  }

  lemma {:induction false} CountActionsIsOffset(cfg: Config, net: Net, demands: seq<Demand>, states: seq<State>, n: nat)
    requires StatesOk(cfg, net, demands, states) && n <= |states|
    ensures CountActionsBelow(cfg, net, demands, states, n) == Offset(ActionSizes(cfg, net, demands, states), n)
  {
    if n > 0 {
      CountActionsIsOffset(cfg, net, demands, states, n - 1);
      OffsetStep(ActionSizes(cfg, net, demands, states), n - 1);
    }
  }

  /** The closed form of how_many_actions is the size of the table
      set_action lays out. */
  lemma HowManyActionsIsSum(cfg: Config, net: Net, demands: seq<Demand>, states: seq<State>)
    requires StatesOk(cfg, net, demands, states)
    ensures HowManyActions(cfg, net, demands, states) == Sum(ActionSizes(cfg, net, demands, states))
  {
    var sizes := ActionSizes(cfg, net, demands, states);
    CountActionsIsOffset(cfg, net, demands, states, |states|);
    assert sizes[..|sizes|] == sizes;
  }

  // ---------------------------------------------------------------------
  // Decoding one action.

  /** The next-link digit is fatal when it exceeds the out-degree. */
  predicate NextBad(net: Net, node: int, digit: nat)
  {
    digit >= OutDegree(net, node)
  }

  /** An acceptance digit is fatal above `V` for a pending demand and when
      non-zero otherwise. */
  predicate AcceptBad(v: nat, pending: bool, digit: nat)
  {
    if pending then digit > v else digit != 0
  }

  /** `x[k]` of vehicle `i` for acceptance digit `digit`: digit `d` in
      `1..V` hands a pending demand to vehicle `d - 1`. */
  predicate AcceptBit(v: nat, pending: bool, digit: nat, i: nat)
  {
    pending && 1 <= digit <= v && i == digit - 1
  }

  /** The action with next-link ordinal `k1` and acceptance ordinal `k2`
      from state `s`: link digits are checked first, then acceptance
      digits. The reward is set later. */
  function DecodeAction(cfg: Config, net: Net, demands: seq<Demand>, s: State, k1: nat, k2: nat, id: nat): (r: Result<Action>)
    requires ValidConfig(cfg) && WellFormed(cfg, net, demands, s)
    requires k1 < NextCount(cfg, net, demands, s) && k2 < AcceptCount(cfg, net, demands, s)
  {
    var v, nk := cfg.vehicles, |demands|;
    var nr, ar := NextRadices(cfg, net, demands, s), AcceptRadices(cfg, net, demands, s);
    BelowProdMeansPositive(k1, nr);
    BelowProdMeansPositive(k2, ar);
    var nd, ad := Decode(k1, nr), Decode(k2, ar);
    if exists i | 0 <= i < v :: NextBad(net, Heading(net, s.vs[i]), nd[i]) then Err(BadDigit)
    else if exists k | 0 <= k < nk :: AcceptBad(v, IsPending(s, k), ad[k]) then Err(BadDigit)
    else
      Ok(Action(s, Moves(cfg, net, demands, s, nd, ad), true, Unset, id))
  }

  /** The moves named by in-range digits. */
  function Moves(cfg: Config, net: Net, demands: seq<Demand>, s: State, nd: seq<nat>, ad: seq<nat>): (va: seq<VehicleAction>)
    requires ValidConfig(cfg) && WellFormed(cfg, net, demands, s)
    requires |nd| == cfg.vehicles && |ad| == |demands|
    requires forall i :: 0 <= i < cfg.vehicles ==> !NextBad(net, Heading(net, s.vs[i]), nd[i])
    ensures |va| == cfg.vehicles
  {
    var v, nk := cfg.vehicles, |demands|;
    seq(v, i requires 0 <= i < v =>
      assert !NextBad(net, Heading(net, s.vs[i]), nd[i]);
      VehicleAction(Successors(net, Heading(net, s.vs[i]))[nd[i]],
                    seq(nk, k requires 0 <= k < nk => AcceptBit(v, IsPending(s, k), ad[k], i))))
  }

  /** The action at position `p` of the block of state `s`: ordinal
      `p / n2` of the next links and `p % n2` of the acceptances. */
  function ActionInState(cfg: Config, net: Net, demands: seq<Demand>, s: State, p: nat, id: nat): Result<Action>
    requires ValidConfig(cfg) && WellFormed(cfg, net, demands, s)
    requires p < ActionCount(cfg, net, demands, s)
  {
    var n2 := AcceptCount(cfg, net, demands, s);
    BlockSplit(p, NextCount(cfg, net, demands, s), n2);
    DecodeAction(cfg, net, demands, s, p / n2, p % n2, id)
  }

  /** The `i`-th action of the table, before presence and reward. */
  function ActionAt(cfg: Config, net: Net, demands: seq<Demand>, states: seq<State>, i: nat): Result<Action>
    requires StatesOk(cfg, net, demands, states)
    requires i < Sum(ActionSizes(cfg, net, demands, states))
  {
    var loc := Locate(ActionSizes(cfg, net, demands, states), i);
    ActionInState(cfg, net, demands, states[loc.0], loc.1, i)
  }

  /** The nested state, `k1`, `k2` loops of set_action. */
  function EnumerateActions(cfg: Config, net: Net, demands: seq<Demand>, states: seq<State>): Result<seq<Action>>
    requires StatesOk(cfg, net, demands, states)
  {
    var n := Sum(ActionSizes(cfg, net, demands, states));
    if exists i | 0 <= i < n :: ActionAt(cfg, net, demands, states, i).Err? then Err(BadDigit)
    else Ok(seq(n, i requires 0 <= i < n => ActionAt(cfg, net, demands, states, i).value))
  }

  /** No demand is accepted by two vehicles. */
  predicate SingleAcceptor(va: seq<VehicleAction>, nk: nat)
    requires forall i :: 0 <= i < |va| ==> |va[i].x| == nk
  {
    forall k, i, i' :: 0 <= k < nk && 0 <= i < |va| && 0 <= i' < |va| && va[i].x[k] && va[i'].x[k] ==> i == i'
  }

  /** What an action of state `s` looks like: one move per vehicle, each
      onto a link leaving the node the vehicle is heading to; a pending
      demand accepted by at most one vehicle, any other by none. */
  predicate ActionOf(cfg: Config, net: Net, demands: seq<Demand>, s: State, va: seq<VehicleAction>)
    requires ValidConfig(cfg) && WellFormed(cfg, net, demands, s)
  {
    && |va| == cfg.vehicles
    && (forall i :: 0 <= i < |va| ==>
          && va[i].next < |net| && net[va[i].next].o == Heading(net, s.vs[i])
          && |va[i].x| == |demands|)
    && SingleAcceptor(va, |demands|)
    && (forall k, i :: 0 <= k < |demands| && 0 <= i < |va| && !IsPending(s, k) ==> !va[i].x[k])
  }

  // ---------------------------------------------------------------------
  // The inverse: the position of an action in the table.

  /** Position of `x` in `s`. */
  function IndexIn(s: seq<nat>, x: nat): (p: nat)
    requires x in s
    ensures p < |s| && s[p] == x
  {
    if s[0] == x then 0 else 1 + IndexIn(s[1..], x)
  }

  /** Digit of acceptance for demand `k` among vehicles `i..`: one plus the
      first accepting vehicle, or 0 when none accepts. */
  function AcceptDigit(va: seq<VehicleAction>, k: nat, i: nat): nat
    requires i <= |va| && forall j :: 0 <= j < |va| ==> k < |va[j].x|
    decreases |va| - i
  {
    if i == |va| then 0 else if va[i].x[k] then i + 1 else AcceptDigit(va, k, i + 1)
  }

  /** The next-link digits of an action: where each vehicle's next link
      stands among the successors of its node. */
  function NextDigits(cfg: Config, net: Net, demands: seq<Demand>, s: State, va: seq<VehicleAction>): (ds: seq<nat>)
    requires ValidConfig(cfg) && WellFormed(cfg, net, demands, s) && ActionOf(cfg, net, demands, s, va)
    ensures |ds| == cfg.vehicles
  {
    seq(cfg.vehicles, i requires 0 <= i < cfg.vehicles => IndexIn(Successors(net, Heading(net, s.vs[i])), va[i].next))
  }

  /** The acceptance digits of an action. */
  function AcceptDigits(cfg: Config, net: Net, demands: seq<Demand>, s: State, va: seq<VehicleAction>): (ds: seq<nat>)
    requires ValidConfig(cfg) && WellFormed(cfg, net, demands, s) && ActionOf(cfg, net, demands, s, va)
    ensures |ds| == |demands|
  {
    seq(|demands|, k requires 0 <= k < |demands| => AcceptDigit(va, k, 0))
  }

  /** Position in the table of action `va` of the `j`-th state. */
  function ActionIndex(cfg: Config, net: Net, demands: seq<Demand>, states: seq<State>, j: nat, va: seq<VehicleAction>): nat
    requires StatesOk(cfg, net, demands, states) && j < |states|
    requires ActionOf(cfg, net, demands, states[j], va)
  {
    var s := states[j];
    var k1 := Encode(NextDigits(cfg, net, demands, s, va), NextRadices(cfg, net, demands, s));
    var k2 := Encode(AcceptDigits(cfg, net, demands, s, va), AcceptRadices(cfg, net, demands, s));
    Offset(ActionSizes(cfg, net, demands, states), j) + Pair(k1, k2, AcceptCount(cfg, net, demands, s))
  }

  lemma {:induction false} AcceptDigitSpec(va: seq<VehicleAction>, k: nat, i: nat)
    requires i <= |va| && forall j :: 0 <= j < |va| ==> k < |va[j].x|
    requires forall j, j' :: 0 <= j < |va| && 0 <= j' < |va| && va[j].x[k] && va[j'].x[k] ==> j == j'
    ensures (forall j :: i <= j < |va| ==> !va[j].x[k]) ==> AcceptDigit(va, k, i) == 0
    ensures forall j :: i <= j < |va| && va[j].x[k] ==> AcceptDigit(va, k, i) == j + 1
    decreases |va| - i
  {
    if i < |va| {
      AcceptDigitSpec(va, k, i + 1);
    }
  }

  /** The next-link digits of an action are in range and name its links. */
  lemma NextDigitsSpec(cfg: Config, net: Net, demands: seq<Demand>, s: State, va: seq<VehicleAction>)
    requires ValidConfig(cfg) && WellFormed(cfg, net, demands, s) && ActionOf(cfg, net, demands, s, va)
    ensures IsDigits(NextDigits(cfg, net, demands, s, va), NextRadices(cfg, net, demands, s))
    ensures forall i :: 0 <= i < cfg.vehicles ==>
      Successors(net, Heading(net, s.vs[i]))[NextDigits(cfg, net, demands, s, va)[i]] == va[i].next
  {
  }

  /** The acceptance digits of an action are legal and name its bits. */
  lemma AcceptDigitsSpec(cfg: Config, net: Net, demands: seq<Demand>, s: State, va: seq<VehicleAction>)
    requires ValidConfig(cfg) && WellFormed(cfg, net, demands, s) && ActionOf(cfg, net, demands, s, va)
    ensures IsDigits(AcceptDigits(cfg, net, demands, s, va), AcceptRadices(cfg, net, demands, s))
    ensures forall k :: 0 <= k < |demands| ==>
      !AcceptBad(cfg.vehicles, IsPending(s, k), AcceptDigits(cfg, net, demands, s, va)[k])
    ensures forall k, i :: 0 <= k < |demands| && 0 <= i < cfg.vehicles ==>
      AcceptBit(cfg.vehicles, IsPending(s, k), AcceptDigits(cfg, net, demands, s, va)[k], i) == va[i].x[k]
  {
    var v := cfg.vehicles;
    var ad, ar := AcceptDigits(cfg, net, demands, s, va), AcceptRadices(cfg, net, demands, s);
    forall k | 0 <= k < |demands|
      ensures !AcceptBad(v, IsPending(s, k), ad[k]) && ad[k] < ar[k]
      ensures forall i :: 0 <= i < v ==> AcceptBit(v, IsPending(s, k), ad[k], i) == va[i].x[k]
    {
      AcceptDigitSpec(va, k, 0);
    }
  }

  /** The moves named by an action's own digits are the action's moves. */
  lemma MovesOfDigits(cfg: Config, net: Net, demands: seq<Demand>, s: State, va: seq<VehicleAction>)
    requires ValidConfig(cfg) && WellFormed(cfg, net, demands, s) && ActionOf(cfg, net, demands, s, va)
    ensures forall i :: 0 <= i < cfg.vehicles ==>
      !NextBad(net, Heading(net, s.vs[i]), NextDigits(cfg, net, demands, s, va)[i])
    ensures Moves(cfg, net, demands, s, NextDigits(cfg, net, demands, s, va), AcceptDigits(cfg, net, demands, s, va)) == va
  {
    NextDigitsSpec(cfg, net, demands, s, va);
    AcceptDigitsSpec(cfg, net, demands, s, va);
    var r := Moves(cfg, net, demands, s, NextDigits(cfg, net, demands, s, va), AcceptDigits(cfg, net, demands, s, va));
    forall i | 0 <= i < cfg.vehicles
      ensures r[i] == va[i]
    {
      assert r[i].x == va[i].x;
    }
  }

  lemma MovesShape(cfg: Config, net: Net, demands: seq<Demand>, s: State, nd: seq<nat>, ad: seq<nat>)
    requires ValidConfig(cfg) && WellFormed(cfg, net, demands, s)
    requires |nd| == cfg.vehicles && |ad| == |demands|
    requires forall i :: 0 <= i < cfg.vehicles ==> !NextBad(net, Heading(net, s.vs[i]), nd[i])
    requires forall k :: 0 <= k < |demands| ==> !AcceptBad(cfg.vehicles, IsPending(s, k), ad[k])
    ensures ActionOf(cfg, net, demands, s, Moves(cfg, net, demands, s, nd, ad))
  {
    var v := cfg.vehicles;
    var va := Moves(cfg, net, demands, s, nd, ad);
    forall i | 0 <= i < v
      ensures va[i].next < |net| && net[va[i].next].o == Heading(net, s.vs[i])
    {
      assert !NextBad(net, Heading(net, s.vs[i]), nd[i]);
    }
  }

  lemma MovesNextDigits(cfg: Config, net: Net, demands: seq<Demand>, s: State, nd: seq<nat>, ad: seq<nat>)
    requires ValidConfig(cfg) && WellFormed(cfg, net, demands, s)
    requires |nd| == cfg.vehicles && |ad| == |demands|
    requires forall i :: 0 <= i < cfg.vehicles ==> !NextBad(net, Heading(net, s.vs[i]), nd[i])
    requires forall k :: 0 <= k < |demands| ==> !AcceptBad(cfg.vehicles, IsPending(s, k), ad[k])
    requires ActionOf(cfg, net, demands, s, Moves(cfg, net, demands, s, nd, ad))
    ensures NextDigits(cfg, net, demands, s, Moves(cfg, net, demands, s, nd, ad)) == nd
  {
    var va := Moves(cfg, net, demands, s, nd, ad);
    var nd' := NextDigits(cfg, net, demands, s, va);
    forall i | 0 <= i < cfg.vehicles
      ensures nd'[i] == nd[i]
    {
      assert !NextBad(net, Heading(net, s.vs[i]), nd[i]);
    }
  }

  lemma MovesAcceptDigits(cfg: Config, net: Net, demands: seq<Demand>, s: State, nd: seq<nat>, ad: seq<nat>)
    requires ValidConfig(cfg) && WellFormed(cfg, net, demands, s)
    requires |nd| == cfg.vehicles && |ad| == |demands|
    requires forall i :: 0 <= i < cfg.vehicles ==> !NextBad(net, Heading(net, s.vs[i]), nd[i])
    requires forall k :: 0 <= k < |demands| ==> !AcceptBad(cfg.vehicles, IsPending(s, k), ad[k])
    requires ActionOf(cfg, net, demands, s, Moves(cfg, net, demands, s, nd, ad))
    ensures AcceptDigits(cfg, net, demands, s, Moves(cfg, net, demands, s, nd, ad)) == ad
  {
    var v := cfg.vehicles;
    var va := Moves(cfg, net, demands, s, nd, ad);
    var ad' := AcceptDigits(cfg, net, demands, s, va);
    forall k | 0 <= k < |demands|
      ensures ad'[k] == ad[k]
    {
      AcceptDigitSpec(va, k, 0);
      assert !AcceptBad(v, IsPending(s, k), ad[k]);
      if IsPending(s, k) && 1 <= ad[k] <= v {
        assert va[ad[k] - 1].x[k];
      }
    }
  }

  /** In-range digits name an action of the state, whose own digits are
      the ones it was built from. */
  lemma MovesSpec(cfg: Config, net: Net, demands: seq<Demand>, s: State, nd: seq<nat>, ad: seq<nat>)
    requires ValidConfig(cfg) && WellFormed(cfg, net, demands, s)
    requires |nd| == cfg.vehicles && |ad| == |demands|
    requires forall i :: 0 <= i < cfg.vehicles ==> !NextBad(net, Heading(net, s.vs[i]), nd[i])
    requires forall k :: 0 <= k < |demands| ==> !AcceptBad(cfg.vehicles, IsPending(s, k), ad[k])
    ensures ActionOf(cfg, net, demands, s, Moves(cfg, net, demands, s, nd, ad))
    ensures NextDigits(cfg, net, demands, s, Moves(cfg, net, demands, s, nd, ad)) == nd
    ensures AcceptDigits(cfg, net, demands, s, Moves(cfg, net, demands, s, nd, ad)) == ad
  {
    MovesShape(cfg, net, demands, s, nd, ad);
    MovesNextDigits(cfg, net, demands, s, nd, ad);
    MovesAcceptDigits(cfg, net, demands, s, nd, ad);
  }

  /** Decoding an in-range pair succeeds and gives an action of the state
      whose digits encode back to the pair. */
  lemma DecodeActionSpec(cfg: Config, net: Net, demands: seq<Demand>, s: State, k1: nat, k2: nat, id: nat)
    requires ValidConfig(cfg) && WellFormed(cfg, net, demands, s)
    requires k1 < NextCount(cfg, net, demands, s) && k2 < AcceptCount(cfg, net, demands, s)
    ensures DecodeAction(cfg, net, demands, s, k1, k2, id).Ok?
    ensures var a := DecodeAction(cfg, net, demands, s, k1, k2, id).value;
      && a.now == s && a.id == id && a.presence && a.reward == Unset
      && ActionOf(cfg, net, demands, s, a.va)
      && Encode(NextDigits(cfg, net, demands, s, a.va), NextRadices(cfg, net, demands, s)) == k1
      && Encode(AcceptDigits(cfg, net, demands, s, a.va), AcceptRadices(cfg, net, demands, s)) == k2
  {
    var nr, ar := NextRadices(cfg, net, demands, s), AcceptRadices(cfg, net, demands, s);
    DecodedInRange(cfg, net, demands, s, k1, k2, id);
    MovesSpec(cfg, net, demands, s, Decode(k1, nr), Decode(k2, ar));
    EncodeDecode(k1, nr);
    EncodeDecode(k2, ar);
  }

  /** The digits of an in-range pair pass both checks of `DecodeAction`. */
  lemma DecodedInRange(cfg: Config, net: Net, demands: seq<Demand>, s: State, k1: nat, k2: nat, id: nat)
    requires ValidConfig(cfg) && WellFormed(cfg, net, demands, s)
    requires k1 < NextCount(cfg, net, demands, s) && k2 < AcceptCount(cfg, net, demands, s)
    ensures Positive(NextRadices(cfg, net, demands, s)) && Positive(AcceptRadices(cfg, net, demands, s))
    ensures var nd := Decode(k1, NextRadices(cfg, net, demands, s));
      forall i :: 0 <= i < cfg.vehicles ==> !NextBad(net, Heading(net, s.vs[i]), nd[i])
    ensures var ad := Decode(k2, AcceptRadices(cfg, net, demands, s));
      forall k :: 0 <= k < |demands| ==> !AcceptBad(cfg.vehicles, IsPending(s, k), ad[k])
    ensures DecodeAction(cfg, net, demands, s, k1, k2, id)
         == Ok(Action(s, Moves(cfg, net, demands, s, Decode(k1, NextRadices(cfg, net, demands, s)),
                               Decode(k2, AcceptRadices(cfg, net, demands, s))), true, Unset, id))
  {
    var nr, ar := NextRadices(cfg, net, demands, s), AcceptRadices(cfg, net, demands, s);
    DecodeIsDigits(k1, nr);
    DecodeIsDigits(k2, ar);
  }

  /** The ordinal pair of an action of `s` is in range. */
  lemma ActionDigitsBelow(cfg: Config, net: Net, demands: seq<Demand>, s: State, va: seq<VehicleAction>)
    requires ValidConfig(cfg) && WellFormed(cfg, net, demands, s) && ActionOf(cfg, net, demands, s, va)
    ensures Encode(NextDigits(cfg, net, demands, s, va), NextRadices(cfg, net, demands, s)) < NextCount(cfg, net, demands, s)
    ensures Encode(AcceptDigits(cfg, net, demands, s, va), AcceptRadices(cfg, net, demands, s)) < AcceptCount(cfg, net, demands, s)
  {
    NextDigitsSpec(cfg, net, demands, s, va);
    AcceptDigitsSpec(cfg, net, demands, s, va);
    EncodeBelow(NextDigits(cfg, net, demands, s, va), NextRadices(cfg, net, demands, s));
    EncodeBelow(AcceptDigits(cfg, net, demands, s, va), AcceptRadices(cfg, net, demands, s));
  }

  /** Decoding the ordinal pair of an action of `s` gives the action back. */
  lemma EncodeActionSpec(cfg: Config, net: Net, demands: seq<Demand>, s: State, va: seq<VehicleAction>, id: nat)
    requires ValidConfig(cfg) && WellFormed(cfg, net, demands, s) && ActionOf(cfg, net, demands, s, va)
    ensures Encode(NextDigits(cfg, net, demands, s, va), NextRadices(cfg, net, demands, s)) < NextCount(cfg, net, demands, s)
    ensures Encode(AcceptDigits(cfg, net, demands, s, va), AcceptRadices(cfg, net, demands, s)) < AcceptCount(cfg, net, demands, s)
    ensures DecodeAction(cfg, net, demands, s,
                         Encode(NextDigits(cfg, net, demands, s, va), NextRadices(cfg, net, demands, s)),
                         Encode(AcceptDigits(cfg, net, demands, s, va), AcceptRadices(cfg, net, demands, s)), id)
            == Ok(Action(s, va, true, Unset, id))
  {
    var nr, ar := NextRadices(cfg, net, demands, s), AcceptRadices(cfg, net, demands, s);
    var nd, ad := NextDigits(cfg, net, demands, s, va), AcceptDigits(cfg, net, demands, s, va);
    NextDigitsSpec(cfg, net, demands, s, va);
    AcceptDigitsSpec(cfg, net, demands, s, va);
    MovesOfDigits(cfg, net, demands, s, va);
    ActionDigitsBelow(cfg, net, demands, s, va);
    DecodeEncode(nd, nr);
    DecodeEncode(ad, ar);
  }


  /** The ordinal pair an action's position inside its block splits into. */
  lemma ActionInStateUnfold(cfg: Config, net: Net, demands: seq<Demand>, s: State, p: nat, id: nat)
    returns (k1: nat, k2: nat)
    requires ValidConfig(cfg) && WellFormed(cfg, net, demands, s)
    requires p < ActionCount(cfg, net, demands, s)
    ensures k1 < NextCount(cfg, net, demands, s) && k2 < AcceptCount(cfg, net, demands, s)
    ensures p == k1 * AcceptCount(cfg, net, demands, s) + k2
    ensures ActionInState(cfg, net, demands, s, p, id) == DecodeAction(cfg, net, demands, s, k1, k2, id)
  {
    var n2 := AcceptCount(cfg, net, demands, s);
    BlockSplit(p, NextCount(cfg, net, demands, s), n2);
    DivMod(p, n2);
    k1, k2 := p / n2, p % n2;
  }

  lemma ActionAtUnfold(cfg: Config, net: Net, demands: seq<Demand>, states: seq<State>, i: nat, j: nat, p: nat)
    returns (k1: nat, k2: nat)
    requires StatesOk(cfg, net, demands, states)
    requires i < Sum(ActionSizes(cfg, net, demands, states))
    requires Locate(ActionSizes(cfg, net, demands, states), i) == (j, p)
    ensures j < |states|
    ensures k1 < NextCount(cfg, net, demands, states[j]) && k2 < AcceptCount(cfg, net, demands, states[j])
    ensures p == k1 * AcceptCount(cfg, net, demands, states[j]) + k2
    ensures ActionAt(cfg, net, demands, states, i) == DecodeAction(cfg, net, demands, states[j], k1, k2, i)
  {
    k1, k2 := ActionInStateUnfold(cfg, net, demands, states[j], p, i);
  }

  /** The `i`-th action of the table belongs to the state of its block, has
      id `i`, and `ActionIndex` maps it back to `i`. */
  lemma ActionAtSpec(cfg: Config, net: Net, demands: seq<Demand>, states: seq<State>, i: nat)
    requires StatesOk(cfg, net, demands, states)
    requires i < Sum(ActionSizes(cfg, net, demands, states))
    ensures ActionAt(cfg, net, demands, states, i).Ok?
    ensures var a := ActionAt(cfg, net, demands, states, i).value;
      var j := Locate(ActionSizes(cfg, net, demands, states), i).0;
      && j < |states| && a.now == states[j]
      && a.id == i && a.presence && a.reward == Unset
      && ActionOf(cfg, net, demands, states[j], a.va)
      && ActionIndex(cfg, net, demands, states, j, a.va) == i
  {
    var sizes := ActionSizes(cfg, net, demands, states);
    var loc := Locate(sizes, i);
    var j, p := loc.0, loc.1;
    var k1, k2 := ActionAtUnfold(cfg, net, demands, states, i, j, p);
    DecodeActionSpec(cfg, net, demands, states[j], k1, k2, i);
    var a := DecodeAction(cfg, net, demands, states[j], k1, k2, i).value;
    ActionIndexUnfold(cfg, net, demands, states, j, a.va, k1, k2);
  }


  lemma ActionIndexUnfold(cfg: Config, net: Net, demands: seq<Demand>, states: seq<State>, j: nat, va: seq<VehicleAction>, k1: nat, k2: nat)
    requires StatesOk(cfg, net, demands, states) && j < |states|
    requires ActionOf(cfg, net, demands, states[j], va)
    requires Encode(NextDigits(cfg, net, demands, states[j], va), NextRadices(cfg, net, demands, states[j])) == k1
    requires Encode(AcceptDigits(cfg, net, demands, states[j], va), AcceptRadices(cfg, net, demands, states[j])) == k2
    ensures ActionIndex(cfg, net, demands, states, j, va)
         == Offset(ActionSizes(cfg, net, demands, states), j) + k1 * AcceptCount(cfg, net, demands, states[j]) + k2
  {
  }

  /** Every action of every state sits in the table at `ActionIndex`. */
  lemma ActionIndexSpec(cfg: Config, net: Net, demands: seq<Demand>, states: seq<State>, j: nat, va: seq<VehicleAction>)
    requires StatesOk(cfg, net, demands, states) && j < |states|
    requires ActionOf(cfg, net, demands, states[j], va)
    ensures ActionIndex(cfg, net, demands, states, j, va) < Sum(ActionSizes(cfg, net, demands, states))
    ensures ActionAt(cfg, net, demands, states, ActionIndex(cfg, net, demands, states, j, va))
         == Ok(Action(states[j], va, true, Unset, ActionIndex(cfg, net, demands, states, j, va)))
  {
    var s := states[j];
    var sizes := ActionSizes(cfg, net, demands, states);
    var i := ActionIndex(cfg, net, demands, states, j, va);
    ActionDigitsBelow(cfg, net, demands, s, va);
    var n1, n2 := NextCount(cfg, net, demands, s), AcceptCount(cfg, net, demands, s);
    var k1 := Encode(NextDigits(cfg, net, demands, s, va), NextRadices(cfg, net, demands, s));
    var k2 := Encode(AcceptDigits(cfg, net, demands, s, va), AcceptRadices(cfg, net, demands, s));
    var p := BlockJoin(k1, k2, n1, n2);
    ActionIndexUnfold(cfg, net, demands, states, j, va, k1, k2);
    assert p < sizes[j];
    LocateAt(sizes, j, p, i);
    var q1, q2 := ActionAtUnfold(cfg, net, demands, states, i, j, p);
    BlockUnique(k1, k2, q1, q2, n2);
    EncodeActionSpec(cfg, net, demands, s, va, i);
  }


  /** The enumeration never meets a bad digit; it lists `HowManyActions`
      actions, the `i`-th with id `i`, present, unrewarded, an action of
      its own state at its own `ActionIndex`; and every action of every
      state is listed. */
  lemma EnumerateActionsSpec(cfg: Config, net: Net, demands: seq<Demand>, states: seq<State>)
    requires StatesOk(cfg, net, demands, states)
    ensures EnumerateActions(cfg, net, demands, states).Ok?
    ensures var acts := EnumerateActions(cfg, net, demands, states).value;
      && |acts| == HowManyActions(cfg, net, demands, states)
      && (forall i :: 0 <= i < |acts| ==>
            && acts[i].id == i && acts[i].presence && acts[i].reward == Unset
            && exists j :: 0 <= j < |states| && acts[i].now == states[j]
                 && ActionOf(cfg, net, demands, states[j], acts[i].va)
                 && ActionIndex(cfg, net, demands, states, j, acts[i].va) == i)
      && (forall j, va :: 0 <= j < |states| && ActionOf(cfg, net, demands, states[j], va) ==>
            && ActionIndex(cfg, net, demands, states, j, va) < |acts|
            && acts[ActionIndex(cfg, net, demands, states, j, va)]
               == Action(states[j], va, true, Unset, ActionIndex(cfg, net, demands, states, j, va)))
  {
    var n := Sum(ActionSizes(cfg, net, demands, states));
    forall i | 0 <= i < n
      ensures ActionAt(cfg, net, demands, states, i).Ok?
    {
      ActionAtSpec(cfg, net, demands, states, i);
    }
    HowManyActionsIsSum(cfg, net, demands, states);
    var acts := EnumerateActions(cfg, net, demands, states).value;
    forall i | 0 <= i < |acts|
      ensures acts[i].id == i && acts[i].presence && acts[i].reward == Unset
      ensures exists j :: 0 <= j < |states| && acts[i].now == states[j]
                 && ActionOf(cfg, net, demands, states[j], acts[i].va)
                 && ActionIndex(cfg, net, demands, states, j, acts[i].va) == i
    {
      ActionAtSpec(cfg, net, demands, states, i);
      var j := Locate(ActionSizes(cfg, net, demands, states), i).0;
      assert acts[i].now == states[j];
    }
    forall j, va | 0 <= j < |states| && ActionOf(cfg, net, demands, states[j], va)
      ensures ActionIndex(cfg, net, demands, states, j, va) < |acts|
      ensures acts[ActionIndex(cfg, net, demands, states, j, va)]
              == Action(states[j], va, true, Unset, ActionIndex(cfg, net, demands, states, j, va))
    {
      ActionIndexSpec(cfg, net, demands, states, j, va);
    }
  }

  // ---------------------------------------------------------------------
  // Presence and immediate reward.

  /** The shape of every action of the table. */
  predicate ActionShape(cfg: Config, net: Net, demands: seq<Demand>, a: Action)
  {
    && ValidConfig(cfg) && WellFormed(cfg, net, demands, a.now)
    && |a.va| == cfg.vehicles
    && forall i :: 0 <= i < |a.va| ==> a.va[i].next < |net| && |a.va[i].x| == |demands|
  }

  /** Whether vehicles `i..` each take a next link their indicator `I`
      keeps; the first vehicle whose next link is masked stops the scan, and
      a missing stay link is fatal. */
  function NextLinksKept(cfg: Config, net: Net, demands: seq<Demand>, a: Action, i: nat): (r: Result<bool>)
    requires |net| <= MaxLinks && ValidDemands(demands) && ActionShape(cfg, net, demands, a)
    requires i <= |a.va|
    ensures r.Err? ==> r.fault == MissingStayLink
    decreases |a.va| - i
  {
    if i == |a.va| then Ok(true)
    else
      var mask :- VehicleMask(net, demands, a.now.vs[i], a.now.t);
      if !mask[a.va[i].next] then Ok(false) else NextLinksKept(cfg, net, demands, a, i + 1)
  }

  /** The hop distance of a demand's trip, between its two stay links. */
  function TripDistance(net: Net, dem: Demand): Dist
    requires |net| <= MaxLinks && HasId(net, StayLinkId(dem.d))
  {
    Distance(net, StayLinkId(dem.o), StayLinkId(dem.d))
  }

  /** The trip distance of every demand: the `dijkstra(link[onum].id,
      link[dnum].id)` of the reward loop, whose lookups yield links
      carrying the stay-link ids. `dijkstra` is pure, so one evaluation per
      demand stands for the one per vehicle and demand. */
  function Trips(net: Net, demands: seq<Demand>): (ds: seq<Dist>)
    requires |net| <= MaxLinks && AllStays(net, demands)
    ensures |ds| == |demands|
  {
    seq(|demands|, k requires 0 <= k < |demands| => TripDistance(net, demands[k]))
  }

  /** The fare term `x * (F0 + F * dijkstra(...))` of one demand. The
      distance of an unreachable trip is not a number (the program would
      multiply `INT_MAX` by `F` in `int`), so accepting one is a fault. */
  function DemandFare(cfg: Config, trip: Dist, accepted: bool): Result<int>
  {
    if !accepted then Ok(0)
    else if trip.Infinite? then Err(UnreachableTrip)
    else Ok(cfg.f0 + cfg.fare * trip.n)
  }

  /** The fares vehicle `x` collects from demands `k..`. */
  function VehicleFares(cfg: Config, trips: seq<Dist>, x: seq<bool>, k: nat): Result<int>
    requires |x| == |trips| && k <= |trips|
    decreases |trips| - k
  {
    if k == |trips| then Ok(0)
    else
      var f :- DemandFare(cfg, trips[k], x[k]);
      var rest :- VehicleFares(cfg, trips, x, k + 1);
      Ok(f + rest)
  }

  /** The reward accumulated over vehicles `i..`: fares minus the cost of
      the next link. */
  function Revenue(cfg: Config, net: Net, trips: seq<Dist>, va: seq<VehicleAction>, i: nat): Result<int>
    requires i <= |va|
    requires forall j :: 0 <= j < |va| ==> va[j].next < |net| && |va[j].x| == |trips|
    decreases |va| - i
  {
    if i == |va| then Ok(0)
    else
      var f :- VehicleFares(cfg, trips, va[i].x, 0);
      var rest :- Revenue(cfg, net, trips, va, i + 1);
      Ok(f - net[va[i].next].c + rest)
  }

  /** The presence and reward pass of set_action for one action. There is
      at least one vehicle, and the first vehicle's indicator already exits
      on a missing stay link, so that fault is decided up front. */
  function Settle(cfg: Config, net: Net, demands: seq<Demand>, a: Action): Result<Action>
    requires |net| <= MaxLinks && ValidDemands(demands) && ActionShape(cfg, net, demands, a)
  {
    if a.now.t == cfg.tmax then Ok(a.(presence := false))
    else if !a.now.presence then Ok(a.(reward := Infeasible))
    else if !AllStays(net, demands) then Err(MissingStayLink)
    else
      var kept :- NextLinksKept(cfg, net, demands, a, 0);
      if !kept then Ok(a.(reward := Infeasible))
      else
        var r :- Revenue(cfg, net, Trips(net, demands), a.va, 0);
        Ok(a.(reward := Earned(r)))
  }

  /** Settle actions `i..` in order; the first fault is fatal. */
  function SettleFrom(cfg: Config, net: Net, demands: seq<Demand>, acts: seq<Action>, i: nat): Result<seq<Action>>
    requires |net| <= MaxLinks && ValidDemands(demands) && i <= |acts|
    requires forall j :: 0 <= j < |acts| ==> ActionShape(cfg, net, demands, acts[j])
    decreases |acts| - i
  {
    if i == |acts| then Ok([])
    else
      var a :- Settle(cfg, net, demands, acts[i]);
      var rest :- SettleFrom(cfg, net, demands, acts, i + 1);
      Ok([a] + rest)
  }

  /** Every enumerated action has the shape settling expects, and there are
      how_many_actions of them. */
  lemma ActionsShaped(cfg: Config, net: Net, demands: seq<Demand>, states: seq<State>)
    requires StatesOk(cfg, net, demands, states)
    ensures EnumerateActions(cfg, net, demands, states).Ok?
    ensures |EnumerateActions(cfg, net, demands, states).value| == HowManyActions(cfg, net, demands, states)
    ensures forall i :: 0 <= i < |EnumerateActions(cfg, net, demands, states).value| ==>
      ActionShape(cfg, net, demands, EnumerateActions(cfg, net, demands, states).value[i])
  {
    EnumerateActionsSpec(cfg, net, demands, states);
    var acts := EnumerateActions(cfg, net, demands, states).value;
    forall i | 0 <= i < |acts|
      ensures ActionShape(cfg, net, demands, acts[i])
    {
      var s :| 0 <= s < |states| && acts[i].now == states[s] && ActionOf(cfg, net, demands, states[s], acts[i].va);
    }
  }

  /** set_action: enumerate, compare the count with `expected` (the value
      of how_many_actions the caller allocated for), then settle. */
  function SetAction(cfg: Config, net: Net, demands: seq<Demand>, states: seq<State>, expected: nat): Result<seq<Action>>
    requires |net| <= MaxLinks && ValidDemands(demands) && StatesOk(cfg, net, demands, states)
  {
    ActionsShaped(cfg, net, demands, states);
    var acts := EnumerateActions(cfg, net, demands, states).value;
    if |acts| != expected then Err(CountMismatch)
    else SettleFrom(cfg, net, demands, acts, 0)
  }

  // ---------------------------------------------------------------------
  // What presence and reward mean.

  /** Every vehicle's next link survives every demand's mask. */
  predicate NextLinksAllowed(net: Net, demands: seq<Demand>, a: Action)
    requires |net| <= MaxLinks && ValidDemands(demands) && AllStays(net, demands)
    requires |a.va| == |a.now.vs|
    requires forall i :: 0 <= i < |a.va| ==>
      a.va[i].next < |net| && a.now.vs[i].link < |net| && |a.now.vs[i].sf| == |demands|
  {
    forall i :: 0 <= i < |a.va| ==> MoveKept(net, demands, a.now.vs[i], a.now.t, a.va[i].next)
  }

  /** One vehicle's step of the scan: its mask fails exactly when a stay
      link is missing, and otherwise keeps its next link exactly when every
      demand does. */
  lemma VehicleMaskAt(cfg: Config, net: Net, demands: seq<Demand>, a: Action, i: nat)
    requires |net| <= MaxLinks && ValidDemands(demands) && ActionShape(cfg, net, demands, a)
    requires i < |a.va|
    ensures VehicleMask(net, demands, a.now.vs[i], a.now.t).Err? <==> !AllStays(net, demands)
    ensures AllStays(net, demands) ==>
      (VehicleMask(net, demands, a.now.vs[i], a.now.t).value[a.va[i].next] <==>
        MoveKept(net, demands, a.now.vs[i], a.now.t, a.va[i].next))
  {
    VehicleMaskSpec(net, demands, a.now.vs[i], a.now.t);
  }

  /** The scan fails exactly when a stay link is missing, and otherwise
      answers whether every vehicle from `i` on takes a kept link. */
  lemma {:induction false} NextLinksKeptSpec(cfg: Config, net: Net, demands: seq<Demand>, a: Action, i: nat)
    requires |net| <= MaxLinks && ValidDemands(demands) && ActionShape(cfg, net, demands, a)
    requires i <= |a.va|
    ensures i < |a.va| ==> (NextLinksKept(cfg, net, demands, a, i).Err? <==> !AllStays(net, demands))
    ensures AllStays(net, demands) ==> NextLinksKept(cfg, net, demands, a, i).Ok?
    ensures AllStays(net, demands) ==>
      (NextLinksKept(cfg, net, demands, a, i).value <==>
        forall j :: i <= j < |a.va| ==> MoveKept(net, demands, a.now.vs[j], a.now.t, a.va[j].next))
    decreases |a.va| - i
  {
    if i < |a.va| {
      VehicleMaskAt(cfg, net, demands, a, i);
      NextLinksKeptSpec(cfg, net, demands, a, i + 1);
      var m := VehicleMask(net, demands, a.now.vs[i], a.now.t);
      if m.Ok? {
        var rest := NextLinksKept(cfg, net, demands, a, i + 1);
        assert NextLinksKept(cfg, net, demands, a, i) == if !m.value[a.va[i].next] then Ok(false) else rest;
      }
    }
  }

  /** The fare of every trip (0 for a trip that cannot be made). */
  function Fares(cfg: Config, trips: seq<Dist>): (fs: seq<int>)
    ensures |fs| == |trips|
  {
    seq(|trips|, k requires 0 <= k < |trips| =>
      match trips[k]
      case Hops(n) => cfg.f0 + cfg.fare * n
      case Infinite => 0)
  }

  /** The sum of `fs[k]` over the `k >= from` with `x[k]`. */
  function DotFrom(x: seq<bool>, fs: seq<int>, from: nat): int
    requires |x| == |fs| && from <= |x|
    decreases |x| - from
  {
    if from == |x| then 0 else (if x[from] then fs[from] else 0) + DotFrom(x, fs, from + 1)
  }

  /** A vehicle's fares fail exactly when it accepts an unreachable trip,
      and otherwise sum the fares of the trips it accepts. */
  lemma {:induction false} VehicleFaresSpec(cfg: Config, trips: seq<Dist>, x: seq<bool>, k: nat)
    requires |x| == |trips| && k <= |trips|
    ensures VehicleFares(cfg, trips, x, k).Err? <==>
      exists k' :: k <= k' < |trips| && x[k'] && trips[k'].Infinite?
    ensures VehicleFares(cfg, trips, x, k).Err? ==> VehicleFares(cfg, trips, x, k).fault == UnreachableTrip
    ensures VehicleFares(cfg, trips, x, k).Ok? ==>
      VehicleFares(cfg, trips, x, k).value == DotFrom(x, Fares(cfg, trips), k)
    decreases |trips| - k
  {
    if k < |trips| {
      VehicleFaresSpec(cfg, trips, x, k + 1);
    }
  }

  /** The sum over vehicles `i..` of their fares. */
  function FaresFrom(va: seq<VehicleAction>, fs: seq<int>, i: nat): int
    requires i <= |va| && forall j :: 0 <= j < |va| ==> |va[j].x| == |fs|
    decreases |va| - i
  {
    if i == |va| then 0 else DotFrom(va[i].x, fs, 0) + FaresFrom(va, fs, i + 1)
  }

  /** The sum over vehicles `i..` of the cost of their next link. */
  function CostFrom(net: Net, va: seq<VehicleAction>, i: nat): int
    requires i <= |va| && forall j :: 0 <= j < |va| ==> va[j].next < |net|
    decreases |va| - i
  {
    if i == |va| then 0 else net[va[i].next].c + CostFrom(net, va, i + 1)
  }

  /** The reward fails exactly when some vehicle accepts an unreachable
      trip, and otherwise is the fares collected minus the next-link
      costs. */
  lemma {:induction false} RevenueSpec(cfg: Config, net: Net, trips: seq<Dist>, va: seq<VehicleAction>, i: nat)
    requires i <= |va|
    requires forall j :: 0 <= j < |va| ==> va[j].next < |net| && |va[j].x| == |trips|
    ensures Revenue(cfg, net, trips, va, i).Err? <==>
      exists j, k :: i <= j < |va| && 0 <= k < |trips| && va[j].x[k] && trips[k].Infinite?
    ensures Revenue(cfg, net, trips, va, i).Err? ==> Revenue(cfg, net, trips, va, i).fault == UnreachableTrip
    ensures Revenue(cfg, net, trips, va, i).Ok? ==>
      Revenue(cfg, net, trips, va, i).value == FaresFrom(va, Fares(cfg, trips), i) - CostFrom(net, va, i)
    decreases |va| - i
  {
    if i < |va| {
      VehicleFaresSpec(cfg, trips, va[i].x, 0);
      RevenueSpec(cfg, net, trips, va, i + 1);
    }
  }

  /** Which demands vehicles `i..` accept. */
  function AcceptedFrom(va: seq<VehicleAction>, nk: nat, i: nat): (acc: seq<bool>)
    requires i <= |va| && forall j :: 0 <= j < |va| ==> |va[j].x| == nk
    ensures |acc| == nk
  {
    seq(nk, k requires 0 <= k < nk => exists j :: i <= j < |va| && va[j].x[k])
  }

  lemma {:induction false} DotUnion(x: seq<bool>, y: seq<bool>, z: seq<bool>, fs: seq<int>, from: nat)
    requires |x| == |y| == |z| == |fs| && from <= |fs|
    requires forall k :: from <= k < |fs| ==> z[k] == (x[k] || y[k]) && !(x[k] && y[k])
    ensures DotFrom(z, fs, from) == DotFrom(x, fs, from) + DotFrom(y, fs, from)
    decreases |fs| - from
  {
    if from < |fs| {
      DotUnion(x, y, z, fs, from + 1);
    }
  }

  lemma {:induction false} DotNone(x: seq<bool>, fs: seq<int>, from: nat)
    requires |x| == |fs| && from <= |fs|
    requires forall k :: from <= k < |fs| ==> !x[k]
    ensures DotFrom(x, fs, from) == 0
    decreases |fs| - from
  {
    if from < |fs| {
      DotNone(x, fs, from + 1);
    }
  }

  /** Vehicle `i` and the vehicles after it accept disjoint sets of
      demands whose union is what vehicles `i..` accept. */
  lemma AcceptedStep(va: seq<VehicleAction>, nk: nat, i: nat)
    requires i < |va| && forall j :: 0 <= j < |va| ==> |va[j].x| == nk
    requires SingleAcceptor(va, nk)
    ensures forall k :: 0 <= k < nk ==>
      && AcceptedFrom(va, nk, i)[k] == (va[i].x[k] || AcceptedFrom(va, nk, i + 1)[k])
      && !(va[i].x[k] && AcceptedFrom(va, nk, i + 1)[k])
  {
    var x, y, z := va[i].x, AcceptedFrom(va, nk, i + 1), AcceptedFrom(va, nk, i);
    forall k | 0 <= k < nk
      ensures z[k] == (x[k] || y[k]) && !(x[k] && y[k])
    {
      if z[k] && !x[k] {
        var j :| i <= j < |va| && va[j].x[k];
        assert j != i;
      }
    }
  }

  /** When no demand has two acceptors, summing fares vehicle by vehicle
      counts every accepted demand exactly once. */
  lemma {:induction false} FaresFromAccepted(va: seq<VehicleAction>, fs: seq<int>, i: nat)
    requires i <= |va| && forall j :: 0 <= j < |va| ==> |va[j].x| == |fs|
    requires SingleAcceptor(va, |fs|)
    ensures FaresFrom(va, fs, i) == DotFrom(AcceptedFrom(va, |fs|, i), fs, 0)
    decreases |va| - i
  {
    var nk := |fs|;
    if i == |va| {
      DotNone(AcceptedFrom(va, nk, i), fs, 0);
    } else {
      FaresFromAccepted(va, fs, i + 1);
      AcceptedStep(va, nk, i);
      DotUnion(va[i].x, AcceptedFrom(va, nk, i + 1), AcceptedFrom(va, nk, i), fs, 0);
    }
  }

  /** Each trip distance is the shortest hop count between the demand's two
      stay links, or `Infinite` when no chain joins them. */
  lemma TripsSpec(net: Net, demands: seq<Demand>, k: nat)
    requires |net| <= MaxLinks && AllStays(net, demands) && k < |demands|
    ensures var o, d := StayLinkId(demands[k].o), StayLinkId(demands[k].d);
      && (Trips(net, demands)[k].Hops? ==>
            IsShortest(net, o, d, Trips(net, demands)[k].n) && Trips(net, demands)[k].n < |net|)
      && (Trips(net, demands)[k].Infinite? ==> NoChain(net, o, d))
  {
    assert HasStays(net, demands[k]);
    DistanceCorrect(net, StayLinkId(demands[k].o), StayLinkId(demands[k].d));
  }

  /** What one action gets from the presence pass: no move at the horizon;
      `-DBL_MAX` from an absent state or when some vehicle's next link is
      masked; a fault when a stay link is missing. */
  lemma SettleGateSpec(cfg: Config, net: Net, demands: seq<Demand>, a: Action)
    requires |net| <= MaxLinks && ValidDemands(demands) && ActionShape(cfg, net, demands, a)
    ensures a.now.t == cfg.tmax ==> Settle(cfg, net, demands, a) == Ok(a.(presence := false))
    ensures a.now.t != cfg.tmax && !a.now.presence ==> Settle(cfg, net, demands, a) == Ok(a.(reward := Infeasible))
    ensures a.now.t != cfg.tmax && a.now.presence && !AllStays(net, demands) ==>
      Settle(cfg, net, demands, a) == Err(MissingStayLink)
    ensures a.now.t != cfg.tmax && a.now.presence && AllStays(net, demands) && !NextLinksAllowed(net, demands, a) ==>
      Settle(cfg, net, demands, a) == Ok(a.(reward := Infeasible))
  {
    if a.now.t != cfg.tmax && a.now.presence {
      NextLinksKeptSpec(cfg, net, demands, a, 0);
    }
  }

  /** Past the presence pass, the action's reward is the revenue. */
  lemma SettleRevenue(cfg: Config, net: Net, demands: seq<Demand>, a: Action)
    requires |net| <= MaxLinks && ValidDemands(demands) && ActionShape(cfg, net, demands, a)
    requires a.now.t != cfg.tmax && a.now.presence && AllStays(net, demands) && NextLinksAllowed(net, demands, a)
    ensures var r := Revenue(cfg, net, Trips(net, demands), a.va, 0);
      Settle(cfg, net, demands, a) == if r.Err? then Err(r.fault) else Ok(a.(reward := Earned(r.value)))
  {
    NextLinksKeptSpec(cfg, net, demands, a, 0);
  }

  /** When every vehicle takes a kept link, settling fails exactly when an
      accepted trip cannot be made. */
  lemma SettleFaultSpec(cfg: Config, net: Net, demands: seq<Demand>, a: Action)
    requires |net| <= MaxLinks && ValidDemands(demands) && ActionShape(cfg, net, demands, a)
    requires a.now.t != cfg.tmax && a.now.presence && AllStays(net, demands) && NextLinksAllowed(net, demands, a)
    ensures Settle(cfg, net, demands, a).Err? <==>
      exists j, k :: 0 <= j < |a.va| && 0 <= k < |demands| && a.va[j].x[k] && Trips(net, demands)[k].Infinite?
    ensures Settle(cfg, net, demands, a).Err? ==> Settle(cfg, net, demands, a).fault == UnreachableTrip
  {
    var trips := Trips(net, demands);
    SettleRevenue(cfg, net, demands, a);
    RevenueSpec(cfg, net, trips, a.va, 0);
  }

  /** The reward of a feasible action: the fares of the trips each vehicle
      accepts, minus the costs of the next links taken. */
  function Earnings(cfg: Config, net: Net, demands: seq<Demand>, va: seq<VehicleAction>): int
    requires |net| <= MaxLinks && AllStays(net, demands)
    requires forall j :: 0 <= j < |va| ==> va[j].next < |net| && |va[j].x| == |demands|
  {
    FaresFrom(va, Fares(cfg, Trips(net, demands)), 0) - CostFrom(net, va, 0)
  }

  /** With one acceptor per demand, the earnings count the fare of each
      accepted demand once. */
  lemma EarningsOnce(cfg: Config, net: Net, demands: seq<Demand>, va: seq<VehicleAction>)
    requires |net| <= MaxLinks && AllStays(net, demands)
    requires forall j :: 0 <= j < |va| ==> va[j].next < |net| && |va[j].x| == |demands|
    requires SingleAcceptor(va, |demands|)
    ensures Earnings(cfg, net, demands, va)
      == DotFrom(AcceptedFrom(va, |demands|, 0), Fares(cfg, Trips(net, demands)), 0) - CostFrom(net, va, 0)
  {
    FaresFromAccepted(va, Fares(cfg, Trips(net, demands)), 0);
  }

  /** Otherwise it earns the fares of the accepted trips minus the
      next-link costs. */
  lemma SettleEarnedSpec(cfg: Config, net: Net, demands: seq<Demand>, a: Action)
    requires |net| <= MaxLinks && ValidDemands(demands) && ActionShape(cfg, net, demands, a)
    requires a.now.t != cfg.tmax && a.now.presence && AllStays(net, demands) && NextLinksAllowed(net, demands, a)
    ensures Settle(cfg, net, demands, a).Ok? ==>
      Settle(cfg, net, demands, a) == Ok(a.(reward := Earned(Earnings(cfg, net, demands, a.va))))
  {
    var trips := Trips(net, demands);
    var r := Revenue(cfg, net, trips, a.va, 0);
    SettleRevenue(cfg, net, demands, a);
    RevenueSpec(cfg, net, trips, a.va, 0);
    if r.Ok? {
      assert r.value == Earnings(cfg, net, demands, a.va);
    }
  }

  /** Settling a list fails exactly when one of its actions does. */
  lemma {:induction false} SettleFromFails(cfg: Config, net: Net, demands: seq<Demand>, acts: seq<Action>, i: nat)
    requires |net| <= MaxLinks && ValidDemands(demands) && i <= |acts|
    requires forall j :: 0 <= j < |acts| ==> ActionShape(cfg, net, demands, acts[j])
    ensures SettleFrom(cfg, net, demands, acts, i).Err? <==>
      exists j :: i <= j < |acts| && Settle(cfg, net, demands, acts[j]).Err?
    decreases |acts| - i
  {
    if i < |acts| {
      SettleFromFails(cfg, net, demands, acts, i + 1);
      if Settle(cfg, net, demands, acts[i]).Ok? {
        if j :| i <= j < |acts| && Settle(cfg, net, demands, acts[j]).Err? {
          assert j != i;
        }
      }
    }
  }

  /** Otherwise it settles each action in place. */
  lemma {:induction false} SettleFromTable(cfg: Config, net: Net, demands: seq<Demand>, acts: seq<Action>, i: nat)
    requires |net| <= MaxLinks && ValidDemands(demands) && i <= |acts|
    requires forall j :: 0 <= j < |acts| ==> ActionShape(cfg, net, demands, acts[j])
    ensures SettleFrom(cfg, net, demands, acts, i).Ok? ==>
      && |SettleFrom(cfg, net, demands, acts, i).value| == |acts| - i
      && forall j :: i <= j < |acts| ==>
           Settle(cfg, net, demands, acts[j]) == Ok(SettleFrom(cfg, net, demands, acts, i).value[j - i])
    decreases |acts| - i
  {
    if i < |acts| {
      SettleFromTable(cfg, net, demands, acts, i + 1);
      var r := Settle(cfg, net, demands, acts[i]);
      var rest := SettleFrom(cfg, net, demands, acts, i + 1);
      if r.Ok? && rest.Ok? {
        assert SettleFrom(cfg, net, demands, acts, i).value == [r.value] + rest.value;
      }
    }
  }

  /** Row `i` of a settled list is action `i` settled. */
  lemma SettledAt(cfg: Config, net: Net, demands: seq<Demand>, acts: seq<Action>, i: nat)
    requires |net| <= MaxLinks && ValidDemands(demands) && i < |acts|
    requires forall j :: 0 <= j < |acts| ==> ActionShape(cfg, net, demands, acts[j])
    ensures SettleFrom(cfg, net, demands, acts, 0).Ok? ==>
      && i < |SettleFrom(cfg, net, demands, acts, 0).value|
      && Settle(cfg, net, demands, acts[i]) == Ok(SettleFrom(cfg, net, demands, acts, 0).value[i])
  {
    SettleFromTable(cfg, net, demands, acts, 0);
  }

  /** set_action: a count other than how_many_actions is fatal. */
  lemma SetActionMismatch(cfg: Config, net: Net, demands: seq<Demand>, states: seq<State>, expected: nat)
    requires |net| <= MaxLinks && ValidDemands(demands) && StatesOk(cfg, net, demands, states)
    ensures expected != HowManyActions(cfg, net, demands, states) ==>
      SetAction(cfg, net, demands, states, expected) == Err(CountMismatch)
  {
    ActionsShaped(cfg, net, demands, states);
  }

  /** With the right count, set_action fails exactly when settling one of
      the enumerated actions does. */
  lemma SetActionFails(cfg: Config, net: Net, demands: seq<Demand>, states: seq<State>)
    requires |net| <= MaxLinks && ValidDemands(demands) && StatesOk(cfg, net, demands, states)
    ensures EnumerateActions(cfg, net, demands, states).Ok?
    ensures forall i :: 0 <= i < |EnumerateActions(cfg, net, demands, states).value| ==>
      ActionShape(cfg, net, demands, EnumerateActions(cfg, net, demands, states).value[i])
    ensures var acts := EnumerateActions(cfg, net, demands, states).value;
      SetAction(cfg, net, demands, states, HowManyActions(cfg, net, demands, states)).Err? <==>
        exists i :: 0 <= i < |acts| && Settle(cfg, net, demands, acts[i]).Err?
  {
    ActionsShaped(cfg, net, demands, states);
    SettleFromFails(cfg, net, demands, EnumerateActions(cfg, net, demands, states).value, 0);
  }

  /** A table set_action returns holds how_many_actions rows, row `i` being
      enumerated action `i` settled. */
  lemma SetActionTable(cfg: Config, net: Net, demands: seq<Demand>, states: seq<State>, expected: nat)
    requires |net| <= MaxLinks && ValidDemands(demands) && StatesOk(cfg, net, demands, states)
    ensures EnumerateActions(cfg, net, demands, states).Ok?
    ensures forall i :: 0 <= i < |EnumerateActions(cfg, net, demands, states).value| ==>
      ActionShape(cfg, net, demands, EnumerateActions(cfg, net, demands, states).value[i])
    ensures SetAction(cfg, net, demands, states, expected).Ok? ==>
      var acts := EnumerateActions(cfg, net, demands, states).value;
      var table := SetAction(cfg, net, demands, states, expected).value;
      && |table| == |acts| == HowManyActions(cfg, net, demands, states)
      && forall i :: 0 <= i < |acts| ==> Settle(cfg, net, demands, acts[i]) == Ok(table[i])
  {
    ActionsShaped(cfg, net, demands, states);
    var acts := EnumerateActions(cfg, net, demands, states).value;
    SettleFromTable(cfg, net, demands, acts, 0);
    var table := SetAction(cfg, net, demands, states, expected);
    if table.Ok? {
      assert |acts| == expected;
      var settled := SettleFrom(cfg, net, demands, acts, 0);
      assert table == settled;
      forall i | 0 <= i < |acts|
        ensures Settle(cfg, net, demands, acts[i]) == Ok(table.value[i])
      {
        SettledAt(cfg, net, demands, acts, i);
      }
    }
  }
}
