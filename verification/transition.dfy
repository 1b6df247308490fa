/** The structural part of `get_state_trans_prob` in main.c: which target
    states an action can lead to at all. The program runs a fixed sequence
    of passes over a target and zeroes the probability at the first pass
    that fails; only the Bernoulli bid factors that follow are left out, so
    `Support` answers whether the entry escapes every zeroing pass. */
module Transition {
  import opened Base
  import opened Network
  import opened Entities
  import opened Feasibility
  import opened ActionSpace

  /** A target state has the fleet's shape. */
  predicate Target(cfg: Config, net: Net, demands: seq<Demand>, a: Action, s: State)
  {
    ActionShape(cfg, net, demands, a) && WellFormed(cfg, net, demands, s)
  }

  /** Every vehicle's target link carries the id of the next link it chose
      (the program compares ids, not positions). */
  predicate SameLinks(cfg: Config, net: Net, demands: seq<Demand>, a: Action, s: State)
    requires Target(cfg, net, demands, a, s)
  {
    forall k :: 0 <= k < |a.va| ==> net[a.va[k].next].id == net[s.vs[k].link].id
  }

  /** Every demand a vehicle accepts is reserved in the target. */
  predicate AcceptedReserved(cfg: Config, net: Net, demands: seq<Demand>, a: Action, s: State)
    requires Target(cfg, net, demands, a, s)
  {
    forall k, l :: 0 <= k < |a.va| && 0 <= l < |demands| && a.va[k].x[l] ==> s.vs[k].sf[l] == Reserved
  }

  /** Every pending demand a vehicle does not accept falls back to no bid. */
  predicate RejectedCleared(cfg: Config, net: Net, demands: seq<Demand>, a: Action, s: State)
    requires Target(cfg, net, demands, a, s)
  {
    forall k, l :: 0 <= k < |a.va| && 0 <= l < |demands| && a.now.vs[k].sf[l] == Pending && !a.va[k].x[l] ==>
      s.vs[k].sf[l] == NoBid
  }

  /** A demand without a bid is neither reserved nor on board in the target. */
  predicate NoNewBookings(cfg: Config, net: Net, demands: seq<Demand>, a: Action, s: State)
    requires Target(cfg, net, demands, a, s)
  {
    forall k, l :: 0 <= k < |a.va| && 0 <= l < |demands| && a.now.vs[k].sf[l] == NoBid ==>
      s.vs[k].sf[l] != Reserved && s.vs[k].sf[l] != Boarded
  }

  /** Whether vehicle `k` breaks one of the four pick-up and drop-off rules
      for demand `l`, with `on` and `dn` the positions of its stay links: a
      reserved demand is picked up when the next link starts where the
      origin stay link ends, and a boarded one is dropped off when the
      current link ends where the destination stay link starts. */
  predicate Violates(cfg: Config, net: Net, demands: seq<Demand>, a: Action, s: State, k: nat, l: nat, on: nat, dn: nat)
    requires Target(cfg, net, demands, a, s) && k < |a.va| && l < |demands| && on < |net| && dn < |net|
  {
    var st, tgt := a.now.vs[k].sf[l], s.vs[k].sf[l];
    var boarding := net[a.va[k].next].o == net[on].d;
    var alighting := net[a.now.vs[k].link].d == net[dn].o;
    || (st == Reserved && boarding && tgt != Boarded)
    || (st == Reserved && !boarding && tgt != Reserved)
    || (st == Boarded && alighting && tgt != NoBid)
    || (st == Boarded && !alighting && tgt != Boarded)
  }

  /** The pick-up and drop-off test of vehicle `k` and demand `l`: look up
      the demand's stay links (fatal when missing), then pass unless a rule
      is broken. */
  function Entry(cfg: Config, net: Net, demands: seq<Demand>, a: Action, s: State, k: nat, l: nat): (r: Result<bool>)
    requires Target(cfg, net, demands, a, s) && k < |a.va| && l < |demands|
    ensures r.Err? <==> !HasStays(net, demands[l])
    ensures r.Err? ==> r.fault == MissingStayLink
  {
    var (on, dn) :- StayLinks(net, demands[l]);
    Ok(!Violates(cfg, net, demands, a, s, k, l, on, dn))
  }

  /** The tests of the pass, one row per vehicle and one column per demand. */
  function Grid(cfg: Config, net: Net, demands: seq<Demand>, a: Action, s: State): (g: seq<seq<Result<bool>>>)
    requires Target(cfg, net, demands, a, s)
    ensures |g| == |a.va| && Rect(g, |demands|)
  {
    seq(|a.va|, k requires 0 <= k < |a.va| =>
      seq(|demands|, l requires 0 <= l < |demands| => Entry(cfg, net, demands, a, s, k, l)))
  }

  /** Every row of `g` has `w` columns. */
  predicate Rect<T>(g: seq<seq<T>>, w: nat)
  {
    forall i :: 0 <= i < |g| ==> |g[i]| == w
  }

  /** The pass over a grid of tests from `(k, l)`, row by row: a fault
      stops the program, a failed test ends the pass with `false`. */
  function Scan(g: seq<seq<Result<bool>>>, w: nat, k: nat, l: nat): Result<bool>
    requires Rect(g, w) && k <= |g| && l <= w
    decreases |g| - k, w - l
  {
    if k == |g| then Ok(true)
    else if l == w then Scan(g, w, k + 1, 0)
    else
      var pass :- g[k][l];
      if !pass then Ok(false) else Scan(g, w, k, l + 1)
  }

  /** Whether the transition from action `a` to state `s` survives every
      zeroing pass, in the program's order: the clock, the links, the
      accepted and the rejected bids, pick-up and drop-off, and finally no
      booking out of nothing. Only present actions get a row. */
  function Support(cfg: Config, net: Net, demands: seq<Demand>, a: Action, s: State): Result<bool>
    requires Target(cfg, net, demands, a, s) && a.presence
  {
    if a.now.t + 1 != s.t then Ok(false)
    else if !SameLinks(cfg, net, demands, a, s) then Ok(false)
    else if !AcceptedReserved(cfg, net, demands, a, s) then Ok(false)
    else if !RejectedCleared(cfg, net, demands, a, s) then Ok(false)
    else
      var ok :- Scan(Grid(cfg, net, demands, a, s), |demands|, 0, 0);
      Ok(ok && NoNewBookings(cfg, net, demands, a, s))
  }

  // ---------------------------------------------------------------------
  // The reference: one small state machine per vehicle and demand.

  /** A vehicle heading onto `next` picks up demand `dem`: the next link
      starts where the origin stay link ends. */
  predicate Boarding(net: Net, dem: Demand, next: nat)
    requires next < |net|
  {
    HasStays(net, dem) && net[next].o == net[StayLinks(net, dem).value.0].d
  }

  /** A vehicle on `link` drops off demand `dem`: its link ends where the
      destination stay link starts. */
  predicate Alighting(net: Net, dem: Demand, link: nat)
    requires link < |net|
  {
    HasStays(net, dem) && net[link].d == net[StayLinks(net, dem).value.1].o
  }

  /** The status moves of one vehicle and one demand: a bid is reserved when
      accepted and dropped otherwise; a reservation turns into a ride when
      boarding and is otherwise kept; a ride ends when alighting and is
      otherwise kept; no bid leads to no bid or a new bid. Only a pending
      demand can be accepted, and an accepted demand must end up reserved. */
  predicate StatusStep(st: Status, x: bool, tgt: Status, boarding: bool, alighting: bool)
  {
    match st
    case NoBid => !x && (tgt == NoBid || tgt == Pending)
    case Pending => tgt == (if x then Reserved else NoBid)
    case Reserved => tgt == (if boarding then Boarded else Reserved) && (x ==> tgt == Reserved)
    case Boarded => !x && tgt == (if alighting then NoBid else Boarded)
  }

  /** The transitions with non-zero probability, stated per entry. */
  predicate Allowed(cfg: Config, net: Net, demands: seq<Demand>, a: Action, s: State)
    requires Target(cfg, net, demands, a, s)
  {
    && s.t == a.now.t + 1
    && SameLinks(cfg, net, demands, a, s)
    && forall k, l :: 0 <= k < |a.va| && 0 <= l < |demands| ==>
         StatusStep(a.now.vs[k].sf[l], a.va[k].x[l], s.vs[k].sf[l],
                    Boarding(net, demands[l], a.va[k].next), Alighting(net, demands[l], a.now.vs[k].link))
  }

  // ---------------------------------------------------------------------
  // The pass over a grid.

  /** No test of `g` is a fault. */
  predicate NoFault(g: seq<seq<Result<bool>>>, w: nat)
    requires Rect(g, w)
  {
    forall i, j :: 0 <= i < |g| && 0 <= j < w ==> g[i][j].Ok?
  }

  /** Every test the pass from `(k, l)` still visits succeeds. */
  predicate PassedFrom(g: seq<seq<Result<bool>>>, w: nat, k: nat, l: nat)
    requires Rect(g, w) && k <= |g| && l <= w
  {
    && (k < |g| ==> forall j :: l <= j < w ==> g[k][j] == Ok(true))
    && (forall i, j :: k < i < |g| && 0 <= j < w ==> g[i][j] == Ok(true))
  }

  /** Without faults, the pass answers whether every remaining test
      succeeds. */
  lemma {:induction false} ScanSpec(g: seq<seq<Result<bool>>>, w: nat, k: nat, l: nat)
    requires Rect(g, w) && k <= |g| && l <= w && NoFault(g, w)
    ensures Scan(g, w, k, l) == Ok(PassedFrom(g, w, k, l))
    decreases |g| - k, w - l
  {
    if k < |g| {
      if l == w {
        ScanSpec(g, w, k + 1, 0);
        assert PassedFrom(g, w, k, l) == PassedFrom(g, w, k + 1, 0);
      } else {
        ScanSpec(g, w, k, l + 1);
        assert g[k][l].Ok?;
        if g[k][l] == Ok(true) && PassedFrom(g, w, k, l + 1) {
          forall j | l <= j < w
            ensures g[k][j] == Ok(true)
          {
            if j != l {
              assert l + 1 <= j;
            }
          }
        }
      }
    }
  }

  /** A pass that succeeds has met no fault in the rest of its row. */
  lemma {:induction false} ScanRow(g: seq<seq<Result<bool>>>, w: nat, k: nat, l: nat)
    requires Rect(g, w) && k < |g| && l <= w
    ensures Scan(g, w, k, l) == Ok(true) ==> forall j :: l <= j < w ==> g[k][j] == Ok(true)
    decreases w - l
  {
    if l < w && g[k][l] == Ok(true) {
      ScanRow(g, w, k, l + 1);
    }
  }

  /** A fault of the pass is the fault of one of its tests. */
  lemma {:induction false} ScanFault(g: seq<seq<Result<bool>>>, w: nat, k: nat, l: nat)
    requires Rect(g, w) && k <= |g| && l <= w
    ensures Scan(g, w, k, l).Err? ==>
      exists i, j :: 0 <= i < |g| && 0 <= j < w && g[i][j] == Err(Scan(g, w, k, l).fault)
    decreases |g| - k, w - l
  {
    if k < |g| {
      if l == w {
        ScanFault(g, w, k + 1, 0);
      } else if g[k][l].Err? {
        assert g[k][l] == Err(Scan(g, w, k, l).fault);
      } else if g[k][l].value {
        ScanFault(g, w, k, l + 1);
      }
    }
  }

  // ---------------------------------------------------------------------
  // The passes agree with the reference.

  /** No pick-up or drop-off rule is broken at `(k, l)`. */
  predicate CleanAt(cfg: Config, net: Net, demands: seq<Demand>, a: Action, s: State, k: nat, l: nat)
    requires Target(cfg, net, demands, a, s) && k < |a.va| && l < |demands| && HasStays(net, demands[l])
  {
    var (on, dn) := StayLinks(net, demands[l]).value;
    !Violates(cfg, net, demands, a, s, k, l, on, dn)
  }

  /** With every stay link present, the grid holds no fault and passes
      exactly when no rule is broken anywhere. */
  lemma GridClean(cfg: Config, net: Net, demands: seq<Demand>, a: Action, s: State)
    requires Target(cfg, net, demands, a, s) && AllStays(net, demands)
    ensures NoFault(Grid(cfg, net, demands, a, s), |demands|)
    ensures PassedFrom(Grid(cfg, net, demands, a, s), |demands|, 0, 0) <==>
      forall k, l :: 0 <= k < |a.va| && 0 <= l < |demands| ==> CleanAt(cfg, net, demands, a, s, k, l)
  {
    var g := Grid(cfg, net, demands, a, s);
    forall k, l | 0 <= k < |a.va| && 0 <= l < |demands|
      ensures g[k][l] == Ok(CleanAt(cfg, net, demands, a, s, k, l))
    {
      assert HasStays(net, demands[l]);
    }
  }

  /** Every pass holds at entry `(k, l)`. */
  predicate PassesAt(cfg: Config, net: Net, demands: seq<Demand>, a: Action, s: State, k: nat, l: nat)
    requires Target(cfg, net, demands, a, s) && k < |a.va| && l < |demands| && HasStays(net, demands[l])
  {
    var st, x, tgt := a.now.vs[k].sf[l], a.va[k].x[l], s.vs[k].sf[l];
    && (x ==> tgt == Reserved)
    && (st == Pending && !x ==> tgt == NoBid)
    && CleanAt(cfg, net, demands, a, s, k, l)
    && (st == NoBid ==> tgt != Reserved && tgt != Boarded)
  }

  /** The per-entry state machine is the conjunction of the passes at that
      entry. */
  lemma EntryStep(cfg: Config, net: Net, demands: seq<Demand>, a: Action, s: State, k: nat, l: nat)
    requires Target(cfg, net, demands, a, s) && k < |a.va| && l < |demands| && HasStays(net, demands[l])
    ensures StatusStep(a.now.vs[k].sf[l], a.va[k].x[l], s.vs[k].sf[l],
              Boarding(net, demands[l], a.va[k].next), Alighting(net, demands[l], a.now.vs[k].link))
      <==> PassesAt(cfg, net, demands, a, s, k, l)
  {
  }

  /** With every stay link present, the four status passes together hold
      exactly when they hold entry by entry. */
  lemma PassesEverywhere(cfg: Config, net: Net, demands: seq<Demand>, a: Action, s: State)
    requires Target(cfg, net, demands, a, s) && AllStays(net, demands)
    ensures (&& AcceptedReserved(cfg, net, demands, a, s)
             && RejectedCleared(cfg, net, demands, a, s)
             && (forall k, l :: 0 <= k < |a.va| && 0 <= l < |demands| ==> CleanAt(cfg, net, demands, a, s, k, l))
             && NoNewBookings(cfg, net, demands, a, s))
      <==> forall k, l :: 0 <= k < |a.va| && 0 <= l < |demands| ==> PassesAt(cfg, net, demands, a, s, k, l)
  {
    if forall k, l :: 0 <= k < |a.va| && 0 <= l < |demands| ==> PassesAt(cfg, net, demands, a, s, k, l) {
      forall k, l | 0 <= k < |a.va| && 0 <= l < |demands|
        ensures a.va[k].x[l] ==> s.vs[k].sf[l] == Reserved
        ensures a.now.vs[k].sf[l] == Pending && !a.va[k].x[l] ==> s.vs[k].sf[l] == NoBid
        ensures CleanAt(cfg, net, demands, a, s, k, l)
        ensures a.now.vs[k].sf[l] == NoBid ==> s.vs[k].sf[l] != Reserved && s.vs[k].sf[l] != Boarded
      {
        assert PassesAt(cfg, net, demands, a, s, k, l);
      }
    }
    if && AcceptedReserved(cfg, net, demands, a, s)
       && RejectedCleared(cfg, net, demands, a, s)
       && (forall k, l :: 0 <= k < |a.va| && 0 <= l < |demands| ==> CleanAt(cfg, net, demands, a, s, k, l))
       && NoNewBookings(cfg, net, demands, a, s)
    {
      forall k, l | 0 <= k < |a.va| && 0 <= l < |demands|
        ensures PassesAt(cfg, net, demands, a, s, k, l)
      {
        assert CleanAt(cfg, net, demands, a, s, k, l);
      }
    }
  }

  /** With every stay link present, the reference holds exactly when all
      the passes do. */
  lemma AllowedPasses(cfg: Config, net: Net, demands: seq<Demand>, a: Action, s: State)
    requires Target(cfg, net, demands, a, s) && AllStays(net, demands)
    ensures Allowed(cfg, net, demands, a, s) <==>
      && s.t == a.now.t + 1
      && SameLinks(cfg, net, demands, a, s)
      && forall k, l :: 0 <= k < |a.va| && 0 <= l < |demands| ==> PassesAt(cfg, net, demands, a, s, k, l)
  {
    forall k, l | 0 <= k < |a.va| && 0 <= l < |demands|
      ensures StatusStep(a.now.vs[k].sf[l], a.va[k].x[l], s.vs[k].sf[l],
                Boarding(net, demands[l], a.va[k].next), Alighting(net, demands[l], a.now.vs[k].link))
        <==> PassesAt(cfg, net, demands, a, s, k, l)
    {
      assert HasStays(net, demands[l]);
      EntryStep(cfg, net, demands, a, s, k, l);
    }
  }

  /** get_state_trans_prob leaves an entry non-zero exactly when every stay
      link exists and the transition is allowed; a missing stay link is the
      only fault. */
  lemma SupportSpec(cfg: Config, net: Net, demands: seq<Demand>, a: Action, s: State)
    requires Target(cfg, net, demands, a, s) && a.presence
    ensures Support(cfg, net, demands, a, s) == Ok(true) <==>
      AllStays(net, demands) && Allowed(cfg, net, demands, a, s)
    ensures Support(cfg, net, demands, a, s).Err? ==>
      !AllStays(net, demands) && Support(cfg, net, demands, a, s).fault == MissingStayLink
  {
    var g := Grid(cfg, net, demands, a, s);
    ScanFault(g, |demands|, 0, 0);
    if AllStays(net, demands) {
      GridClean(cfg, net, demands, a, s);
      ScanSpec(g, |demands|, 0, 0);
      PassesEverywhere(cfg, net, demands, a, s);
      AllowedPasses(cfg, net, demands, a, s);
    } else {
      ScanRow(g, |demands|, 0, 0);
      var l :| 0 <= l < |demands| && !HasStays(net, demands[l]);
      assert g[0][l].Err?;
    }
  }

  /** The only freedom in a transition is new bids: two targets an action
      can reach agree on the clock, on the links, and on every status
      except that of a demand without a bid, which either stays without a
      bid or becomes pending. */
  lemma SupportDetermined(cfg: Config, net: Net, demands: seq<Demand>, a: Action, s1: State, s2: State)
    requires Target(cfg, net, demands, a, s1) && Target(cfg, net, demands, a, s2) && a.presence
    requires Support(cfg, net, demands, a, s1) == Ok(true) && Support(cfg, net, demands, a, s2) == Ok(true)
    ensures s1.t == s2.t == a.now.t + 1
    ensures forall k :: 0 <= k < |a.va| ==> net[s1.vs[k].link].id == net[s2.vs[k].link].id
    ensures forall k, l :: 0 <= k < |a.va| && 0 <= l < |demands| && a.now.vs[k].sf[l] != NoBid ==>
      s1.vs[k].sf[l] == s2.vs[k].sf[l]
    ensures forall k, l :: 0 <= k < |a.va| && 0 <= l < |demands| && a.now.vs[k].sf[l] == NoBid ==>
      !a.va[k].x[l] && (s1.vs[k].sf[l] == NoBid || s1.vs[k].sf[l] == Pending)
  {
    SupportSpec(cfg, net, demands, a, s1);
    SupportSpec(cfg, net, demands, a, s2);
    forall k, l | 0 <= k < |a.va| && 0 <= l < |demands| && a.now.vs[k].sf[l] != NoBid
      ensures s1.vs[k].sf[l] == s2.vs[k].sf[l]
    {
      var board, alight := Boarding(net, demands[l], a.va[k].next), Alighting(net, demands[l], a.now.vs[k].link);
      assert StatusStep(a.now.vs[k].sf[l], a.va[k].x[l], s1.vs[k].sf[l], board, alight);
      assert StatusStep(a.now.vs[k].sf[l], a.va[k].x[l], s2.vs[k].sf[l], board, alight);
    }
  }
}
