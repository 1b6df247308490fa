# Dial-a-ride MDP construction, modelled in Dafny

The program (`main.c`) computes a dispatch policy for a small fleet of
demand-responsive vehicles. It lays out a finite Markov decision process
and then solves it. This project models the integer and combinatorial core
of that construction. Every step is a pure function over immutable data.
A fatal `exit()` of the program becomes an `Err(fault)` result.

- **Network** and **ShortestPath**: the link network and `dijkstra`.
  `dijkstra` is a unit-weight shortest path over links. A link can follow
  another when its origin node is the other's destination node. The
  function is modelled twice:
  - `DijkstraAsWritten` follows the code as written, including 32-bit
    overflow.
  - `Dijkstra` is the corrected version the rest of the model uses. It
    answers `Hops(n)` or `Infinite`.
- **MixedRadix** and **Layout**: the numbering scheme behind both tables.
  - MixedRadix covers the mixed-radix digits that `set_states` and
    `set_action` peel off with `/ deno` and `% deno`.
  - Layout covers the blocks of consecutive rows, one block per time step
    or per state.
- **Entities**: the compile-time constants (`VNUMBER`, `CAPACITY`,
  `Tmax`, `F0`, `F`) and the records.
  - The constants live in a `Config` value.
  - The records are demands, vehicle states, states and actions.
  - Each demand status is one of 0 no bid, 1 pending, 2 reserved and
    3 boarded.
- **StateSpace**: `how_many_states` and `set_states`.
  - It gives the per-time regime of each demand and its status digit.
  - It gives the state table, with `presence` cleared for states over
    capacity.
  - The table is a bijection between rows and the states of the space.
- **Feasibility**:
  - `get_I_for_action`, the indicator of next links a vehicle may take
    for one demand.
  - `get_I`, the time-window indicator of the demand-side network. It is
    modelled with its unsigned opening test as written and in its
    corrected signed form.
- **ActionSpace**: `how_many_actions` and `set_action`.
  - The action table is a bijection between rows and (state, action)
    pairs.
  - The second pass gives each row its presence and its immediate reward:
    fares of accepted trips minus next-link costs.
- **Transition**: the structural part of `get_state_trans_prob`. This is
  the sequence of passes that forces a transition probability to zero.
  - The model's answer is `Support`.
  - Its reference is a per-entry status machine, `StatusStep`.

The program's design description differs from the code in two places.

- The design says the reward's trip length is measured on the demand-side
  graph. The code (`main.c:967-980`) calls `dijkstra` on the service
  network `link`. The model follows the code.
- The design says a shortest-path query with no path fails. The code
  returns `INT_MAX`, or a wrapped negative mark, as described under
  Findings. `DijkstraAsWritten` keeps that behaviour. The corrected
  `Dijkstra`, which the rest of the model uses, does neither: it answers
  `Infinite`.

## Model

| member | source | states |
|---|---|---|
| MixedRadix.DecodeIsDigits | main.c:386-400 | every digit peeled off an ordinal below the product of the radices is below its own radix, so the `K2 / deno >= n3` guard never fires |
| MixedRadix.EncodeDecode | main.c:386-400 | the digits extracted by the divide-and-remainder loop recombine to the ordinal they came from |
| MixedRadix.DecodeEncode | main.c:403-481 | every in-range digit vector is produced by exactly its own ordinal, so every combination is enumerated |
| Layout.LocateOffset | main.c:344-364 | a (time step, ordinal within the step) pair has exactly one running index `count`, and locating that index gives the pair back |
| Network.Successors | main.c:768-776 | the links leaving a node: every one of them, each once, in array order (the links `set_action` counts into `N1` and numbers with `count3`) |
| Network.LastIndexOf | main.c:622-633 | the lookup of a link id yields the last link carrying it (the loop keeps overwriting), and fails exactly when no link has the id |
| Feasibility.StayLinks | main.c:620-633 | `onum` and `dnum` are links carrying the ad hoc stay-link ids of the demand's origin and destination; a missing one is fatal |
| ShortestPath.Pick | main.c:576-585 | the scan returns a queued link with the smallest mark, and returns `n` exactly when nothing is queued |
| ShortestPath.Relax | main.c:604-610 | relaxation lowers, to at most the new mark, exactly the links that can follow the popped link, and leaves every other mark alone |
| ShortestPath.DijkstraCorrect | main.c:531-613 | without a link carrying the goal id the queue runs dry (fatal); otherwise the answer is the fewest hops of any chain, below the number of links, or `Infinite` when no chain exists, and the repeat guard never fires |
| ShortestPath.DijkstraWithin | main.c:531-613 | the answer is at most `x` hops exactly when some chain of at most `x` hops reaches the goal |
| ShortestPath.DijkstraSelf | main.c:563-592 | the distance from a link's own id is 0 |
| ShortestPath.DistanceZero | main.c:563-592 | a zero distance means start and goal are the same id |
| ShortestPath.AsWrittenOutcome | main.c:586-600 | as written, the function exits exactly when no link carries the goal id, and the repeat guard never fires |
| ShortestPath.AsWrittenAgreesWhenReachable | main.c:575-613 | as written, whenever the goal is reachable the function returns the same hop count as the corrected one |
| ShortestPath.AsWrittenUnreachableGoal | main.c:576-613 | as written, an existing but unreachable goal comes back as `INT_MAX`, where the corrected function answers `Infinite` |
| ShortestPath.AsWrittenOverflows | main.c:576-613 | as written, an unreachable link taken from the queue at `INT_MAX` relaxes its successor to the wrapped `INT_MAX + 1`, and an unreachable goal behind it comes back as `INT_MIN`, where the corrected function answers `Infinite` |
| Entities.RidersIsMultiplicity | main.c:507-512 | the rider count of a vehicle is the number of its demands with status 3 |
| StateSpace.RegimeMeaning | main.c:306-318 | with signed and unsigned comparisons mixed as in the code, a demand is in exactly one of four regimes: `t <= tb - 2`, `t == tb - 1`, `t == tb`, `t > tb` |
| StateSpace.DecodeColumnSpec | main.c:417-479 | before the eve of booking every digit decodes to all 0; otherwise a digit fails exactly when it reaches the regime's factor (2, `VNUMBER + 1`, `2 VNUMBER + 1`), and an in-range digit decodes to an admissible joint status whose digit is that digit |
| StateSpace.EncodeColumnSpec | main.c:417-479 | every admissible joint status of a demand (all 0, all 1 on the eve of booking, one vehicle 2 or 3 afterwards) has a digit in range that decodes back to it |
| StateSpace.HowManyStatesIsSum | main.c:299-330 | the closed-form count of `how_many_states` is the total size of the per-time blocks that `set_states` lays out |
| StateSpace.DecodeStateSpec | main.c:363-481 | decoding an in-range ordinal pair succeeds and gives a present state of the space at that time whose digits encode back to the pair |
| StateSpace.EncodeStateSpec | main.c:363-481 | every state of the space is the decoding of the ordinal pair its own digits encode to |
| StateSpace.StateAtSpec | main.c:343-495 | row `i` of the table is a present state of the space with id `i` that the index function maps back to `i` |
| StateSpace.StateIndexSpec | main.c:343-495 | every state of the space sits in the table at its index |
| StateSpace.EnumerateSpec | main.c:343-495 | the enumeration has `how_many_states` rows, is numbered in order, contains only states of the space, and contains every one of them |
| StateSpace.MarkedIsStateTable | main.c:504-522 | marking capacity on the enumeration yields a table whose `presence` says exactly whether every vehicle is within capacity, and which keeps every row in place |
| StateSpace.SetStates | main.c:333-528 | `set_states` succeeds exactly when the expected count is `how_many_states`, and then returns the capacity-marked state table |
| StateSpace.CapacityOk | main.c:505-517 | the capacity scan of one state keeps it present exactly when no vehicle carries more than `CAPACITY` riders |
| Feasibility.ForActionSpec | main.c:643-681 | the indicator of one demand only ever clears links, keeps only links leaving the node the vehicle heads to, and fails only on a missing stay link |
| Feasibility.KeepMeaning | main.c:636-681 | per status, a link is kept exactly when it leaves the vehicle's heading node and, for 2 or for 3 while still riding, the deadline can be met: via the origin, or straight to the destination by `te - 1` (unsigned `te - 1`) |
| Feasibility.FitsTwoMeaning | main.c:654-657 | `t + mincost_o + dist(o, d) <= te` holds exactly when a chain through the origin reaches the destination within `te - t` hops |
| Feasibility.MaskFromFails | main.c:950-952 | applying the demands' indicators in turn fails exactly when some demand lacks a stay link |
| Feasibility.MaskFromKept | main.c:946-952 | with every stay link present, a link survives the demands from `k` on exactly when each of them keeps it |
| Feasibility.VehicleMaskSpec | main.c:946-952 | a vehicle's indicator fails exactly when a stay link is missing; otherwise it keeps exactly the links every demand allows, all leaving the heading node |
| Feasibility.TimeWindowAt | main.c:1113-1127 | the corrected `II[i][t]` is the opening test on the distance from the origin and the deadline test on the distance to the destination |
| Feasibility.TimeWindowMeaning | main.c:1108-1131 | the corrected `II[i][t]` is set exactly when link `i` can be reached from the origin within `t + 1 - tb` hops and the destination can be reached from it within `te - t` hops |
| Feasibility.OpensAsWrittenDiffers | main.c:1121 | the unsigned `mincost_o + tb - 1 <= t` agrees with the signed test except when both `mincost_o` and `tb` are 0, where it wraps to `UINT_MAX` |
| Feasibility.AsWrittenWindowDiffers | main.c:1119-1127 | with the unsigned opening test as written, the window differs from the corrected one only at the origin's own link when `tb == 0`, where it is never open |
| Feasibility.AsWrittenClosesOrigin | main.c:1121 | for a one-link network holding the origin and a demand with `tb == 0`, the window as written is closed at time 0 while the corrected one is open |
| ActionSpace.AcceptCountClosedForm | main.c:706-713 | the accept/reject choices of a state number `(VNUMBER + 1)` to the power of its pending demands |
| ActionSpace.HowManyActionsIsSum | main.c:687-750 | the closed-form count of `how_many_actions` is the total size of the per-state blocks that `set_action` lays out |
| ActionSpace.MovesSpec | main.c:824-919 | in-range digits build an action of the state (each next link leaves the heading node, only pending demands accepted, by at most one vehicle), whose own digits are the ones it was built from |
| ActionSpace.DecodeActionSpec | main.c:802-922 | decoding an in-range ordinal pair gives a present, unrewarded action of the state that encodes back to the pair |
| ActionSpace.EncodeActionSpec | main.c:802-922 | every action of a state is the decoding of the ordinal pair its own digits encode to |
| ActionSpace.ActionAtSpec | main.c:763-923 | row `i` of the action table is an action of the state of its block, with id `i`, that the index function maps back to `i` |
| ActionSpace.ActionIndexSpec | main.c:763-923 | every action of every state sits in the action table at its index |
| ActionSpace.EnumerateActionsSpec | main.c:763-930 | the enumeration has `how_many_actions` rows, numbered in order, each an action of some state, and lists every action of every state |
| ActionSpace.NextLinksKeptSpec | main.c:945-962 | the feasibility scan fails exactly when a stay link is missing, and otherwise answers whether every vehicle's next link survives every demand's indicator |
| ActionSpace.TripsSpec | main.c:967-980 | each trip distance of the reward loop is the fewest hops between the demand's two stay links, or `Infinite` when none joins them |
| ActionSpace.VehicleFaresSpec | main.c:966-981 | a vehicle's fares fail exactly when it accepts an unreachable trip, and otherwise are the sum of `F0 + F * hops` over the trips it accepts |
| ActionSpace.RevenueSpec | main.c:964-983 | the reward fails exactly when some vehicle accepts an unreachable trip, and otherwise is all accepted fares minus all next-link costs |
| ActionSpace.FaresFromAccepted | main.c:964-983 | when no demand has two acceptors, summing fares vehicle by vehicle counts each accepted demand exactly once |
| ActionSpace.EarningsOnce | main.c:964-983 | a feasible action earns the fare of each accepted demand once, minus the next-link costs |
| ActionSpace.SettleGateSpec | main.c:935-962 | the final time step clears presence; an action from an infeasible state, or whose next link some indicator forbids, gets the infeasible reward; a missing stay link is fatal |
| ActionSpace.SettleFaultSpec | main.c:964-983 | past the gates, settling fails exactly when an accepted trip is unreachable |
| ActionSpace.SettleEarnedSpec | main.c:964-983 | past the gates, a settled action keeps everything but its reward, which is its earnings |
| ActionSpace.SettleFromFails | main.c:933-985 | the second pass fails exactly when settling one of the actions does |
| ActionSpace.SettleFromTable | main.c:933-985 | a completed second pass settles each action in place |
| ActionSpace.SetActionMismatch | main.c:925-930 | an action count other than `how_many_actions` is fatal |
| ActionSpace.SetActionFails | main.c:753-985 | with the right count, `set_action` fails exactly when one enumerated action cannot be settled |
| ActionSpace.SetActionTable | main.c:753-985 | the table `set_action` returns has `how_many_actions` rows, row `i` being enumerated action `i` settled |
| Transition.Entry | main.c:1523-1563 | the test of one (vehicle, demand) entry fails exactly when the demand lacks a stay link |
| Transition.ScanSpec | main.c:1523-1568 | without faults, the row-major pass over the entries answers whether every remaining test succeeds |
| Transition.ScanFault | main.c:1525-1538 | a fault of the pass is the fault of one of its entries |
| Transition.GridClean | main.c:1518-1572 | with every stay link present, the entries hold no fault and the pass succeeds exactly when no entry breaks a boarding or alighting rule |
| Transition.EntryStep | main.c:1478-1583 | at one entry, the status machine holds exactly when all four passes hold there. The machine: 0 goes to 0 or 1 and is never accepted; 1 goes to 2 if accepted, else to 0; 2 goes to 3 when the next link starts at the origin stay link's end, else stays 2, and an accepted 2 must stay 2; 3 goes to 0 when the vehicle's link ends where the destination stay link starts, else stays 3, and is never accepted |
| Transition.PassesEverywhere | main.c:1478-1583 | with every stay link present, the four status passes hold together exactly when they hold entry by entry |
| Transition.AllowedPasses | main.c:1459-1583 | with every stay link present, the reference holds exactly when the time step, the next links and every entry's passes agree |
| Transition.SupportSpec | main.c:1452-1583 | for a present action, the filter keeps a target state exactly when every stay link exists and the transition is one the status machine allows at time `t + 1` with matching links; its only fault is a missing stay link |
| Transition.SupportDetermined | main.c:1459-1583 | two kept targets of one action agree on time, links and every status the action decides; only a demand with no bid may stay without a bid or become pending |

## Left out

- Loading the network and demand files, `main`, the result files, and all
  output: they are I/O.
- The recursive-logit bid model (`grl_assignment`, `grl`), the bid
  probability factors of `get_state_trans_prob` (`main.c:1587-1601`), the
  three solvers, the first-state distribution and the simulation. They are
  floating-point or random and are outside this core.
- Transition.Support: defined for present actions only. The program
  never fills the rows of absent actions. The target state's own
  `presence` is not consulted, as in the code.
- Transition.SupportSpec: compares next-link and target-link ids, as the
  code does, and not array positions.
- ActionSpace.Settle: decides a missing stay link before looking at the
  vehicles. The program's first vehicle already exits on it, because every
  demand's indicator is applied to it.
- ActionSpace.Trips: computes one distance per demand. `dijkstra` is pure,
  so the program's evaluation once per vehicle and demand gives the same
  values.
- ActionSpace.DemandFare: treats an accepted unreachable trip as a fault
  (`UnreachableTrip`). The program would multiply `INT_MAX` by `F` in
  `int`. An unaccepted unreachable trip contributes 0, although the program
  evaluates that product too.
- ActionSpace.RevenueSpec: uses unbounded integers. Link costs and rewards
  are `double` in the program; integral costs are assumed.
- Feasibility.KeepMeaning: takes an unreachable leg as infinite. The
  program's unsigned sum `t + mincost_o + dijkstra(...)` of two `INT_MAX`
  marks could wrap instead. In particular, at `te == 0` the program keeps
  every adjacent link of a rider, because an `INT_MAX` mark never exceeds
  `UINT_MAX`; the model keeps only those with a route to the destination.
- Feasibility.AsWrittenWindowDiffers: unreachable legs are taken as
  infinite, using distances from the corrected `Dijkstra`. The program's
  `INT_MAX` mark passes its deadline test `t + dist <= te` when
  `te == INT_MAX` and `t == 0`; that entry is not modelled.
- StateSpace.HowManyStatesIsSum: uses unbounded counts. The program's
  `unsigned long long` products could wrap on very large inputs.
- ActionSpace.HowManyActionsIsSum: uses unbounded counts, for the same
  reason.
- Digit bounds, `>` versus `>=`: the model guards a next-link digit with
  `digit >= degree`, where the program writes `K1 / deno > count3`
  (`main.c:870`). The two agree on every digit the enumeration produces,
  because the radix is the degree.
- Demand fields: `tb` and `te` are taken to be at most `INT_MAX`, since the
  program reads them as `int` and casts `tb` to `int`. Link ids and nodes
  are unbounded integers.
- Array sizes: `dijkstra` keeps its marks in arrays of 256 entries, so every
  network of the model has at most 256 links.
- ShortestPath.Pick: does not say which minimal link the scan picks. The
  program picks the last one; only the mark matters to every caller.

## Findings

| source | as written | input that shows it | evidently intended | confidence | as-written member | corrected member |
|---|---|---|---|---|---|---|
| main.c:576-613 | The minimum scan accepts marks equal to `INT_MAX` (`d[i] <= min` with `min = INT_MAX`). An existing but unreachable link can therefore be selected. If it is the goal, `INT_MAX` is returned as its distance. Otherwise its mark is relaxed to `INT_MAX + 1`, which overflows. | links `{id 1: 1→2, id 2: 3→4}`, `dijkstra(1, 2)` returns `INT_MAX`; links `{id 1: 1→2, id 3: 4→5, id 2: 3→4}`, `dijkstra(1, 3)` returns `INT_MIN` | an unreachable goal is answered `Infinite`, never a finite distance | high, not executed | ShortestPath.AsWrittenUnreachableGoal, ShortestPath.AsWrittenOverflows | ShortestPath.DijkstraCorrect |
| main.c:1121 | `mincost_o + demand.tb - 1 <= t` is evaluated in `unsigned`. When both `mincost_o` and `tb` are 0, the left side wraps to `UINT_MAX`, and the demand's own origin link is never open. | one link `{id 10: 1→2}`, demand from 10 to 10 with `tb = 0`, `te = 5`, `Tmax = 0`: `II[0][0]` is 0 | the origin link is open from time 0 when booking starts at 0 (`tb - 1 <= t` in signed arithmetic). The program as a whole cannot reach this input: with `tb = 0`, `main.c:1313` already writes `v[tb - 1]` out of bounds before `get_I` runs at `main.c:1373` | low, not executed | Feasibility.AsWrittenClosesOrigin | Feasibility.TimeWindowMeaning |
