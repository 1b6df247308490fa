/** The records of the dispatch model: the compile-time constants, the
    time-windowed demands, and the states and actions of the vehicle fleet. */
module Entities {
  import opened Base
  import opened Network

  /** `VNUMBER`, `CAPACITY`, `Tmax`, `F0` and `F` of main.c, as parameters. */
  datatype Config = Config(vehicles: nat, capacity: nat, tmax: nat, f0: int, fare: int)

  /** The fleet has at least one vehicle, and times are small enough that
      the `(int)` casts and `t + 1` of the program never wrap. */
  predicate ValidConfig(cfg: Config)
  {
    cfg.vehicles >= 1 && cfg.tmax < IntMax
  }

  /** A request: origin and destination nodes of the demand-side network and
      the time window `[tb, te]`, read with `%d` and stored unsigned. */
  datatype Demand = Demand(id: int, o: int, d: int, tb: nat, te: nat)

  predicate ValidDemand(dem: Demand)
  {
    dem.tb <= IntMax && dem.te <= IntMax
  }

  predicate ValidDemands(demands: seq<Demand>)
  {
    forall k :: 0 <= k < |demands| ==> ValidDemand(demands[k])
  }

  /** The bid status `sf` of one demand for one vehicle: 0 no bid (or
      rejected), 1 bid awaiting an answer, 2 reserved on this vehicle,
      3 riding this vehicle. */
  datatype Status = NoBid | Pending | Reserved | Boarded

  /** One vehicle: the index of the service link it is on, and one status
      per demand. */
  datatype VehicleState = VehicleState(link: nat, sf: seq<Status>)

  /** One state of the fleet at time `t`; `id` is its position in the state
      table and `presence` is cleared when a vehicle is over capacity. */
  datatype State = State(t: nat, vs: seq<VehicleState>, presence: bool, id: nat)

  /** One vehicle's move: the index of the next link, and per demand whether
      this vehicle accepts it (`x[k] == 1`). */
  datatype VehicleAction = VehicleAction(next: nat, x: seq<bool>)

  /** The immediate reward of an action: a number, the `-DBL_MAX` mark of an
      infeasible action, or nothing at all for a terminal-time action. */
  datatype Reward = Earned(amount: int) | Infeasible | Unset

  /** One action: the state it is taken from, the moves of all vehicles,
      whether it can be taken, its reward and its position in the table. */
  datatype Action = Action(now: State, va: seq<VehicleAction>, presence: bool, reward: Reward, id: nat)

  /** Every vehicle stands on a link of `net` and carries one status per
      demand. */
  predicate WellFormed(cfg: Config, net: Net, demands: seq<Demand>, s: State)
  {
    && |s.vs| == cfg.vehicles
    && forall i :: 0 <= i < |s.vs| ==> s.vs[i].link < |net| && |s.vs[i].sf| == |demands|
  }

  /** Number of demands riding a vehicle (its status-3 entries). */
  function Riders(sf: seq<Status>): (n: nat)
    ensures n <= |sf|
  {
    if |sf| == 0 then 0
    else Riders(sf[..|sf| - 1]) + (if sf[|sf| - 1] == Status.Boarded then 1 else 0)
  }

  /** `Riders` is the multiplicity of status 3. */
  lemma {:induction false} RidersIsMultiplicity(sf: seq<Status>)
    ensures Riders(sf) == multiset(sf)[Status.Boarded]
  {
    if |sf| > 0 {
      assert sf == sf[..|sf| - 1] + [sf[|sf| - 1]];
      RidersIsMultiplicity(sf[..|sf| - 1]);
    }
  }

  /** No vehicle carries more than `capacity` riders. */
  predicate WithinCapacity(cfg: Config, s: State)
  {
    forall i :: 0 <= i < |s.vs| ==> Riders(s.vs[i].sf) <= cfg.capacity
  }
}
