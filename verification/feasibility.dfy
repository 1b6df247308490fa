/** The two indicator functions of main.c: `get_I_for_action`, which masks
    the next links a vehicle may take so that every demand it is involved
    with can still meet its deadline, and `get_I`, the time-window
    indicator `II[t]` of the demand-side network. Distances come from
    `Distance`, so an unreachable target fails every deadline. */
module Feasibility {
  import opened Base
  import opened Network
  import opened ShortestPath
  import opened Entities

  /** Both stay links of a demand exist. */
  predicate HasStays(net: Net, dem: Demand)
  {
    HasId(net, StayLinkId(dem.o)) && HasId(net, StayLinkId(dem.d))
  }

  /** Array indices of the stay links of a demand's origin and destination
      (`onum` and `dnum`); either one missing is fatal. */
  function StayLinks(net: Net, dem: Demand): (r: Result<(nat, nat)>)
    ensures r.Err? <==> !HasStays(net, dem)
    ensures r.Err? ==> r.fault == MissingStayLink
    ensures r.Ok? ==> r.value.0 < |net| && net[r.value.0].id == StayLinkId(dem.o)
    ensures r.Ok? ==> r.value.1 < |net| && net[r.value.1].id == StayLinkId(dem.d)
  {
    var on :- LastIndexOf(net, StayLinkId(dem.o));
    var dn :- LastIndexOf(net, StayLinkId(dem.d));
    Ok((on, dn))
  }

  /** `t + a <= limit` with a finite `a`. */
  predicate Fits(t: nat, a: Dist, limit: nat)
  {
    a.Hops? && t + a.n <= limit
  }

  /** `t + a + b <= limit` with finite `a` and `b`. */
  predicate FitsTwo(t: nat, a: Dist, b: Dist, limit: nat)
  {
    a.Hops? && b.Hops? && t + a.n + b.n <= limit
  }

  /** Whether link `i` survives the mask for one demand with status `st`,
      for a vehicle on link `at` at time `t`, given the demand's stay links
      `on` and `dn`. */
  function Keep(net: Net, dem: Demand, st: Status, at: nat, t: nat, i: nat, on: nat, dn: nat): bool
    requires |net| <= MaxLinks && at < |net| && i < |net| && on < |net| && dn < |net|
    requires dem.te <= UintMax
  {
    && net[i].o == net[at].d
    && match st
       case NoBid => true
       case Pending => true
       case Reserved =>
         if net[i].o != net[on].d then
           FitsTwo(t, Distance(net, net[i].id, net[on].id), Distance(net, net[on].id, net[dn].id), dem.te)
         else
           Fits(t, Distance(net, net[i].id, net[dn].id), Pred32(dem.te))
       case Boarded =>
         net[at].d != net[dn].o ==> Fits(t, Distance(net, net[i].id, net[dn].id), Pred32(dem.te))
  }

  /** get_I_for_action: clear `I[i]` for every link the demand rules out. */
  function ForAction(net: Net, mask: seq<bool>, dem: Demand, st: Status, at: nat, t: nat): (r: Result<seq<bool>>)
    requires |net| <= MaxLinks && |mask| == |net| && at < |net| && dem.te <= UintMax
    ensures r.Err? ==> r.fault == MissingStayLink
    ensures r.Ok? ==> |r.value| == |mask|
  {
    var (on, dn) :- StayLinks(net, dem);
    Ok(seq(|mask|, i requires 0 <= i < |mask| => mask[i] && Keep(net, dem, st, at, t, i, on, dn)))
  }

  /** The mask only ever clears, every link it keeps leaves from the node the
      vehicle is heading to, and a missing stay link is the only failure. */
  lemma ForActionSpec(net: Net, mask: seq<bool>, dem: Demand, st: Status, at: nat, t: nat)
    requires |net| <= MaxLinks && |mask| == |net| && at < |net| && dem.te <= UintMax
    ensures ForAction(net, mask, dem, st, at, t).Err? <==> !HasStays(net, dem)
    ensures ForAction(net, mask, dem, st, at, t).Ok? ==>
      forall i :: 0 <= i < |mask| && ForAction(net, mask, dem, st, at, t).value[i] ==>
        mask[i] && net[i].o == net[at].d
  {
  }

  // ---------------------------------------------------------------------
  // What the mask means.

  /** A chain of at most `x` hops from `s` to `g` through `m`. */
  ghost predicate ReachVia(net: Net, s: int, m: int, g: int, x: nat)
  {
    exists a: nat :: a <= x && ReachWithin(net, s, m, a) && ReachWithin(net, m, g, x - a)
  }

  lemma FitsMeaning(net: Net, t: nat, s: int, g: int, limit: nat)
    requires |net| <= MaxLinks && HasId(net, g)
    ensures Fits(t, Distance(net, s, g), limit) <==> t <= limit && ReachWithin(net, s, g, limit - t)
  {
    if t <= limit {
      DistanceWithin(net, s, g, limit - t);
    }
  }

  lemma FitsTwoMeaning(net: Net, t: nat, s: int, m: int, g: int, limit: nat)
    requires |net| <= MaxLinks && HasId(net, m) && HasId(net, g)
    ensures FitsTwo(t, Distance(net, s, m), Distance(net, m, g), limit)
            <==> t <= limit && ReachVia(net, s, m, g, limit - t)
  {
    var d1, d2 := Distance(net, s, m), Distance(net, m, g);
    if FitsTwo(t, d1, d2, limit) {
      var x := limit - t;
      DistanceWithin(net, s, m, d1.n);
      DistanceWithin(net, m, g, x - d1.n);
      assert ReachWithin(net, s, m, d1.n) && ReachWithin(net, m, g, x - d1.n);
    }
    if t <= limit && ReachVia(net, s, m, g, limit - t) {
      var x := limit - t;
      var a: nat :| a <= x && ReachWithin(net, s, m, a) && ReachWithin(net, m, g, x - a);
      DistanceWithin(net, s, m, a);
      DistanceWithin(net, m, g, x - a);
    }
  }

  /** The per-status rules of get_I_for_action in terms of chains: no bid
      or a pending bid only asks that the link leaves from the vehicle's
      node; a reservation asks for a route through the origin (or, when the
      link itself starts at the origin's end, straight to the destination)
      within the deadline; a rider not yet at the destination asks for a
      route to it by `te - 1`. That `te - 1` is unsigned, so at `te == 0`
      it is `UINT_MAX`. The model takes an unreachable destination as
      infinitely far, so there it asks only that the destination be
      reachable; the program compares its `INT_MAX` mark instead. */
  lemma KeepMeaning(net: Net, dem: Demand, st: Status, at: nat, t: nat, i: nat, on: nat, dn: nat)
    requires |net| <= MaxLinks && at < |net| && i < |net| && on < |net| && dn < |net|
    requires dem.te <= IntMax
    ensures st == NoBid || st == Pending || (st == Boarded && net[at].d == net[dn].o) ==>
      (Keep(net, dem, st, at, t, i, on, dn) <==> net[i].o == net[at].d)
    ensures st == Reserved && net[i].o != net[on].d ==>
      (Keep(net, dem, st, at, t, i, on, dn) <==>
        net[i].o == net[at].d && t <= dem.te && ReachVia(net, net[i].id, net[on].id, net[dn].id, dem.te - t))
    ensures st == Reserved && net[i].o == net[on].d ==>
      (Keep(net, dem, st, at, t, i, on, dn) <==>
        net[i].o == net[at].d && t <= Pred32(dem.te)
        && ReachWithin(net, net[i].id, net[dn].id, Pred32(dem.te) - t))
    ensures st == Boarded && net[at].d != net[dn].o ==>
      (Keep(net, dem, st, at, t, i, on, dn) <==>
        net[i].o == net[at].d && t <= Pred32(dem.te)
        && ReachWithin(net, net[i].id, net[dn].id, Pred32(dem.te) - t))
  {
    assert HasId(net, net[on].id) && HasId(net, net[dn].id);
    var adj := net[i].o == net[at].d;
    if st == Reserved && net[i].o != net[on].d {
      assert Keep(net, dem, st, at, t, i, on, dn)
          == (adj && FitsTwo(t, Distance(net, net[i].id, net[on].id), Distance(net, net[on].id, net[dn].id), dem.te));
      FitsTwoMeaning(net, t, net[i].id, net[on].id, net[dn].id, dem.te);
    } else if st == Reserved || st == Boarded {
      FitsMeaning(net, t, net[i].id, net[dn].id, Pred32(dem.te));
    }
  }

  // ---------------------------------------------------------------------
  // The mask of one vehicle over all demands.

  /** Apply get_I_for_action for demands `k..` in order to `mask`. */
  function MaskFrom(net: Net, demands: seq<Demand>, v: VehicleState, t: nat, k: nat, mask: seq<bool>): (r: Result<seq<bool>>)
    requires |net| <= MaxLinks && |mask| == |net| && v.link < |net| && ValidDemands(demands)
    requires k <= |demands| == |v.sf|
    ensures r.Err? ==> r.fault == MissingStayLink
    ensures r.Ok? ==> |r.value| == |net|
    decreases |demands| - k
  {
    if k == |demands| then Ok(mask)
    else
      var next :- ForAction(net, mask, demands[k], v.sf[k], v.link, t);
      MaskFrom(net, demands, v, t, k + 1, next)
  }

  /** The indicator `I` of one vehicle, starting from all ones. */
  function VehicleMask(net: Net, demands: seq<Demand>, v: VehicleState, t: nat): (r: Result<seq<bool>>)
    requires |net| <= MaxLinks && v.link < |net| && ValidDemands(demands) && |demands| == |v.sf|
    ensures r.Err? ==> r.fault == MissingStayLink
    ensures r.Ok? ==> |r.value| == |net|
  {
    MaskFrom(net, demands, v, t, 0, seq(|net|, _ => true))
  }

  /** Every demand has both stay links. */
  predicate AllStays(net: Net, demands: seq<Demand>)
  {
    forall k :: 0 <= k < |demands| ==> HasStays(net, demands[k])
  }

  /** Link `i` survives demand `k` for vehicle `v`. */
  predicate KeptBy(net: Net, demands: seq<Demand>, v: VehicleState, t: nat, k: nat, i: nat)
    requires |net| <= MaxLinks && v.link < |net| && ValidDemands(demands)
    requires k < |demands| == |v.sf| && i < |net| && AllStays(net, demands)
  {
    var on, dn := LastIndexOf(net, StayLinkId(demands[k].o)).value, LastIndexOf(net, StayLinkId(demands[k].d)).value;
    Keep(net, demands[k], v.sf[k], v.link, t, i, on, dn)
  }

  /** Link `i` survives the masks of all demands for vehicle `v`. */
  predicate MoveKept(net: Net, demands: seq<Demand>, v: VehicleState, t: nat, i: nat)
    requires |net| <= MaxLinks && v.link < |net| && ValidDemands(demands)
    requires |demands| == |v.sf| && i < |net| && AllStays(net, demands)
  {
    forall k :: 0 <= k < |demands| ==> KeptBy(net, demands, v, t, k, i)
  }

  /** One demand's mask, once every stay link exists, keeps exactly the
      links `KeptBy` keeps. */
  lemma ForActionKept(net: Net, demands: seq<Demand>, v: VehicleState, t: nat, k: nat, mask: seq<bool>)
    requires |net| <= MaxLinks && |mask| == |net| && v.link < |net| && ValidDemands(demands)
    requires k < |demands| == |v.sf| && AllStays(net, demands)
    ensures ForAction(net, mask, demands[k], v.sf[k], v.link, t).Ok?
    ensures forall i :: 0 <= i < |net| ==>
      (ForAction(net, mask, demands[k], v.sf[k], v.link, t).value[i] <==> mask[i] && KeptBy(net, demands, v, t, k, i))
  {
  }

  /** The fold fails exactly when a demand from `k` on lacks a stay link. */
  lemma {:induction false} MaskFromFails(net: Net, demands: seq<Demand>, v: VehicleState, t: nat, k: nat, mask: seq<bool>)
    requires |net| <= MaxLinks && |mask| == |net| && v.link < |net| && ValidDemands(demands)
    requires k <= |demands| == |v.sf|
    ensures MaskFrom(net, demands, v, t, k, mask).Err? <==>
      exists x :: k <= x < |demands| && !HasStays(net, demands[x])
    decreases |demands| - k
  {
    if k < |demands| {
      var r := ForAction(net, mask, demands[k], v.sf[k], v.link, t);
      ForActionSpec(net, mask, demands[k], v.sf[k], v.link, t);
      if r.Ok? {
        MaskFromFails(net, demands, v, t, k + 1, r.value);
        if x :| k <= x < |demands| && !HasStays(net, demands[x]) {
          assert x != k;
        }
      } else {
        assert !HasStays(net, demands[k]);
      }
    }
  }

  /** With every stay link present, the fold keeps link `i` exactly when
      `mask` does and every demand from `k` on keeps it. */
  lemma {:induction false} MaskFromKept(net: Net, demands: seq<Demand>, v: VehicleState, t: nat, k: nat, mask: seq<bool>)
    requires |net| <= MaxLinks && |mask| == |net| && v.link < |net| && ValidDemands(demands)
    requires k <= |demands| == |v.sf| && AllStays(net, demands)
    ensures MaskFrom(net, demands, v, t, k, mask).Ok?
    ensures forall i :: 0 <= i < |net| ==>
      (MaskFrom(net, demands, v, t, k, mask).value[i] <==>
        mask[i] && forall x :: k <= x < |demands| ==> KeptBy(net, demands, v, t, x, i))
    decreases |demands| - k
  {
    if k < |demands| {
      ForActionKept(net, demands, v, t, k, mask);
      var r := ForAction(net, mask, demands[k], v.sf[k], v.link, t).value;
      MaskFromKept(net, demands, v, t, k + 1, r);
      forall i | 0 <= i < |net|
        ensures MaskFrom(net, demands, v, t, k, mask).value[i] <==>
          mask[i] && forall x :: k <= x < |demands| ==> KeptBy(net, demands, v, t, x, i)
      {
        if mask[i] && forall x :: k + 1 <= x < |demands| ==> KeptBy(net, demands, v, t, x, i) {
          if r[i] {
            assert forall x :: k <= x < |demands| ==> KeptBy(net, demands, v, t, x, i);
          }
        }
      }
    }
  }

  /** The vehicle's indicator fails exactly when some demand lacks a stay
      link; otherwise link `i` is kept exactly when every demand keeps it,
      and with at least one demand every kept link leaves from the node the
      vehicle is heading to. */
  lemma VehicleMaskSpec(net: Net, demands: seq<Demand>, v: VehicleState, t: nat)
    requires |net| <= MaxLinks && v.link < |net| && ValidDemands(demands) && |demands| == |v.sf|
    ensures VehicleMask(net, demands, v, t).Err? <==> !AllStays(net, demands)
    ensures VehicleMask(net, demands, v, t).Ok? ==>
      forall i :: 0 <= i < |net| ==>
        (VehicleMask(net, demands, v, t).value[i] <==> MoveKept(net, demands, v, t, i))
    ensures VehicleMask(net, demands, v, t).Ok? && |demands| > 0 ==>
      forall i :: 0 <= i < |net| && VehicleMask(net, demands, v, t).value[i] ==> net[i].o == net[v.link].d
  {
    MaskFromFails(net, demands, v, t, 0, seq(|net|, _ => true));
    if AllStays(net, demands) {
      MaskFromKept(net, demands, v, t, 0, seq(|net|, _ => true));
    }
    if VehicleMask(net, demands, v, t).Ok? {
      assert AllStays(net, demands);
      forall i | 0 <= i < |net| && VehicleMask(net, demands, v, t).value[i] && |demands| > 0
        ensures net[i].o == net[v.link].d
      {
        assert KeptBy(net, demands, v, t, 0, i);
      }
    }
  }

  // ---------------------------------------------------------------------
  // get_I: the time-window indicator.

  /** `mincost_o + tb - 1 <= t` as written: unsigned, so at `tb == 0` a
      zero `mincost_o` wraps to `UINT_MAX`. */
  predicate OpensAsWritten(mo: Dist, tb: nat, t: nat)
    requires tb <= IntMax
  {
    mo.Hops? && (mo.n + tb + UintMax) % TwoTo32 <= t
  }

  /** `mincost_o + tb - 1 <= t` in signed arithmetic. */
  predicate Opens(mo: Dist, tb: nat, t: nat)
  {
    mo.Hops? && mo.n + tb - 1 <= t
  }

  /** The distances get_I needs for link `i`, or the fault of the first
      `dijkstra` call that fails (only the one toward `demand.d` can). */
  function WindowDistances(net: Net, dem: Demand, i: nat): (r: Result<(Dist, Dist)>)
    requires |net| <= MaxLinks && i < |net|
    ensures r.Err? <==> !HasId(net, dem.d)
    ensures r.Err? ==> r.fault == QueueExhausted
  {
    assert HasId(net, net[i].id);
    if !HasId(net, dem.d) then Err(QueueExhausted)
    else Ok((Distance(net, dem.o, net[i].id), Distance(net, net[i].id, dem.d)))
  }

  /** get_I with its unsigned opening test as written: `II[i][t]` for
      every link `i` and time `0..Tmax`. The distances are those of the
      corrected `Distance`, so an unreachable leg is infinite here. */
  function TimeWindowAsWritten(cfg: Config, net: Net, dem: Demand): Result<seq<seq<bool>>>
    requires |net| <= MaxLinks && ValidDemand(dem)
  {
    if |net| > 0 && !HasId(net, dem.d) then Err(QueueExhausted)
    else Ok(seq(|net|, i requires 0 <= i < |net| =>
      var ds := WindowDistances(net, dem, i).value;
      seq(cfg.tmax + 1, t requires 0 <= t <= cfg.tmax =>
        OpensAsWritten(ds.0, dem.tb, t) && Fits(t, ds.1, dem.te))))
  }

  /** get_I with the opening test in signed arithmetic. */
  function TimeWindow(cfg: Config, net: Net, dem: Demand): Result<seq<seq<bool>>>
    requires |net| <= MaxLinks && ValidDemand(dem)
  {
    if |net| > 0 && !HasId(net, dem.d) then Err(QueueExhausted)
    else Ok(seq(|net|, i requires 0 <= i < |net| =>
      var ds := WindowDistances(net, dem, i).value;
      seq(cfg.tmax + 1, t requires 0 <= t <= cfg.tmax =>
        Opens(ds.0, dem.tb, t) && Fits(t, ds.1, dem.te))))
  }

  /** The entry `II[i][t]` in terms of the two distances of link `i`. */
  lemma TimeWindowAt(cfg: Config, net: Net, dem: Demand, i: nat, t: nat)
    requires |net| <= MaxLinks && ValidDemand(dem) && HasId(net, dem.d)
    requires i < |net| && t <= cfg.tmax
    ensures HasId(net, net[i].id)
    ensures TimeWindow(cfg, net, dem).Ok?
    ensures |TimeWindow(cfg, net, dem).value| == |net|
    ensures |TimeWindow(cfg, net, dem).value[i]| == cfg.tmax + 1
    ensures TimeWindow(cfg, net, dem).value[i][t] ==
      (Opens(Distance(net, dem.o, net[i].id), dem.tb, t) && Fits(t, Distance(net, net[i].id, dem.d), dem.te))
  {
    assert HasId(net, net[i].id);
  }

  /** The window opens at `t` exactly when link `i` is at most
      `t + 1 - tb` hops from the origin. */
  lemma OpensMeaning(net: Net, o: int, g: int, tb: nat, t: nat)
    requires |net| <= MaxLinks && HasId(net, g)
    ensures Opens(Distance(net, o, g), tb, t) <==> tb <= t + 1 && ReachWithin(net, o, g, t + 1 - tb)
  {
    if tb <= t + 1 {
      DistanceWithin(net, o, g, t + 1 - tb);
    }
  }

  /** `II[i][t]` holds exactly when link `i` can be reached from the origin
      by time `t` (leaving at `tb - 1`) and the destination can still be
      reached from it by `te`. */
  lemma TimeWindowMeaning(cfg: Config, net: Net, dem: Demand, i: nat, t: nat)
    requires |net| <= MaxLinks && ValidDemand(dem) && HasId(net, dem.d)
    requires i < |net| && t <= cfg.tmax
    ensures TimeWindow(cfg, net, dem).Ok?
    ensures |TimeWindow(cfg, net, dem).value| == |net|
    ensures |TimeWindow(cfg, net, dem).value[i]| == cfg.tmax + 1
    ensures TimeWindow(cfg, net, dem).value[i][t] <==>
      && dem.tb <= t + 1 && ReachWithin(net, dem.o, net[i].id, t + 1 - dem.tb)
      && t <= dem.te && ReachWithin(net, net[i].id, dem.d, dem.te - t)
  {
    TimeWindowAt(cfg, net, dem, i, t);
    OpensMeaning(net, dem.o, net[i].id, dem.tb, t);
    FitsMeaning(net, t, net[i].id, dem.d, dem.te);
  }

  /** With the opening test as written, the window differs from the signed
      one only at the origin's own link when `tb == 0`, where it is never
      open. */
  lemma AsWrittenWindowDiffers(cfg: Config, net: Net, dem: Demand, i: nat, t: nat)
    requires |net| <= MaxLinks && ValidDemand(dem) && HasId(net, dem.d)
    requires ValidConfig(cfg) && i < |net| && t <= cfg.tmax
    ensures TimeWindowAsWritten(cfg, net, dem).Ok? && TimeWindow(cfg, net, dem).Ok?
    ensures TimeWindowAsWritten(cfg, net, dem).value[i][t] <==>
      TimeWindow(cfg, net, dem).value[i][t] && !(dem.tb == 0 && net[i].id == dem.o)
  {
    TimeWindowAt(cfg, net, dem, i, t);
    TimeWindowAsWrittenAt(cfg, net, dem, i, t);
    DistanceZero(net, dem.o, net[i].id);
    DistanceCorrect(net, dem.o, net[i].id);
    OpensAsWrittenDiffers(Distance(net, dem.o, net[i].id), dem.tb, t);
  }

  /** The entry `II[i][t]` of get_I as written, in terms of the two
      distances of link `i`. */
  lemma TimeWindowAsWrittenAt(cfg: Config, net: Net, dem: Demand, i: nat, t: nat)
    requires |net| <= MaxLinks && ValidDemand(dem) && HasId(net, dem.d)
    requires i < |net| && t <= cfg.tmax
    ensures HasId(net, net[i].id)
    ensures TimeWindowAsWritten(cfg, net, dem).Ok?
    ensures TimeWindowAsWritten(cfg, net, dem).value[i][t] ==
      (OpensAsWritten(Distance(net, dem.o, net[i].id), dem.tb, t) && Fits(t, Distance(net, net[i].id, dem.d), dem.te))
  {
    assert HasId(net, net[i].id);
  }

  /** The unsigned `mincost_o + tb - 1` agrees with the signed one except
      when both terms are zero, where it wraps to `UINT_MAX`. */
  lemma OpensAsWrittenDiffers(mo: Dist, tb: nat, t: nat)
    requires tb <= IntMax && t < IntMax && (mo.Hops? ==> mo.n <= IntMax)
    ensures OpensAsWritten(mo, tb, t) <==> Opens(mo, tb, t) && !(tb == 0 && mo == Hops(0))
  {
    if mo.Hops? {
      var x := mo.n + tb;
      if x >= 1 {
        assert (x + UintMax) % TwoTo32 == x - 1;
      } else {
        assert (x + UintMax) % TwoTo32 == UintMax;
      }
    }
  }

  /** One link whose id is the demand's origin, a window starting at 0. */
  function OriginOnly(): Net
  {
    [Link(10, 1, 2, 0)]
  }

  /** As written, the origin link of a demand with `tb == 0` is closed at
      time 0 although the signed test opens it. */
  lemma AsWrittenClosesOrigin()
    ensures TimeWindowAsWritten(Config(1, 1, 0, 100, 50), OriginOnly(), Demand(1, 10, 10, 0, 5)) == Ok([[false]])
    ensures TimeWindow(Config(1, 1, 0, 100, 50), OriginOnly(), Demand(1, 10, 10, 0, 5)) == Ok([[true]])
  {
    var cfg, net, dem := Config(1, 1, 0, 100, 50), OriginOnly(), Demand(1, 10, 10, 0, 5);
    assert net[0].id == 10;
    assert HasId(net, 10);
    DistanceSelf(net, 10);
    var ds := WindowDistances(net, dem, 0).value;
    assert ds == (Hops(0), Hops(0));
    assert !OpensAsWritten(ds.0, 0, 0);
    assert Opens(ds.0, 0, 0) && Fits(0, ds.1, 5);
    var w, c := TimeWindowAsWritten(cfg, net, dem), TimeWindow(cfg, net, dem);
    assert w.Ok? && |w.value| == 1 && w.value[0] == [false];
    assert w.value == [[false]];
    assert c.Ok? && |c.value| == 1 && c.value[0] == [true];
    assert c.value == [[true]];
  }
}
