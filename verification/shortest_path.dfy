/** `dijkstra` of main.c: unit-weight shortest paths between links, where a
    link may follow another when its origin is the other's destination.

    Two versions are modelled. `DijkstraAsWritten` is the loop as written,
    including what it does when the goal exists but cannot be reached: it
    either returns the `INT_MAX` mark of the goal as a distance, or relaxes
    from an `INT_MAX` mark, overflowing `d[argmin] + 1`. `Dijkstra` stops as
    soon as the smallest mark is `INT_MAX` and answers `Infinite`; every
    caller of the model uses this one. */
module ShortestPath {
  import opened Base
  import opened Network

  /** Size of the fixed arrays `d[256]` and `Q[256]`. */
  const MaxLinks: nat := 256
  /** Initial value of the repeat guard `past`. */
  const PastInit: int := IntMax / 2

  datatype Dist = Hops(n: nat) | Infinite

  /** Number of links still in the queue `Q`. */
  function Queued(q: seq<bool>): (n: nat)
    ensures n <= |q|
  {
    if |q| == 0 then 0 else (if q[0] then 1 else 0) + Queued(q[1..])
  }

  lemma {:induction false} QueuedClear(q: seq<bool>, u: nat)
    requires u < |q| && q[u]
    ensures Queued(q[u := false]) + 1 == Queued(q)
  {
    if u > 0 {
      assert q[u := false][1..] == q[1..][u - 1 := false];
      QueuedClear(q[1..], u - 1);
    } else {
      assert q[u := false][1..] == q[1..];
    }
  }

  lemma {:induction false} QueuedPositive(q: seq<bool>, u: nat)
    requires u < |q| && q[u]
    ensures Queued(q) >= 1
  {
    if u > 0 {
      QueuedPositive(q[1..], u - 1);
    }
  }

  lemma {:induction false} QueuedAll(n: nat)
    ensures Queued(seq(n, _ => true)) == n
  {
    if n > 0 {
      assert seq(n, _ => true)[1..] == seq(n - 1, _ => true);
      QueuedAll(n - 1);
    }
  }

  /** One step of the minimum scan: `min`/`arg` describe the queued links
      before `i`; the scan keeps the LAST link whose mark is `<= min`. */
  function SelectMin(d: seq<int>, q: seq<bool>, i: nat, min: int, arg: nat): (r: (int, nat))
    requires |d| == |q| && i <= |d|
    requires forall j :: 0 <= j < |d| ==> d[j] <= IntMax
    requires
      || (arg == |d| && min == IntMax && forall j :: 0 <= j < i ==> !q[j])
      || (arg < i && q[arg] && min == d[arg] && forall j :: 0 <= j < i && q[j] ==> min <= d[j])
    ensures r.1 <= |d|
    ensures r.1 == |d| ==> forall j :: 0 <= j < |d| ==> !q[j]
    ensures r.1 < |d| ==> q[r.1] && r.0 == d[r.1]
    ensures r.1 < |d| ==> forall j :: 0 <= j < |d| && q[j] ==> r.0 <= d[j]
    decreases |d| - i
  {
    if i == |d| then (min, arg)
    else if q[i] && d[i] <= min then SelectMin(d, q, i + 1, d[i], i)
    else SelectMin(d, q, i + 1, min, arg)
  }

  /** The scan of one iteration of dijkstra: the queued link with the
      smallest mark, or `|d|` (`argmin == n`) when the queue is empty. */
  function Pick(d: seq<int>, q: seq<bool>): (r: (int, nat))
    requires |d| == |q|
    requires forall j :: 0 <= j < |d| ==> d[j] <= IntMax
    ensures r.1 <= |d|
    ensures r.1 == |d| <==> forall j :: 0 <= j < |d| ==> !q[j]
    ensures r.1 < |d| ==> q[r.1] && r.0 == d[r.1]
    ensures r.1 < |d| ==> forall j :: 0 <= j < |d| && q[j] ==> r.0 <= d[j]
  {
    SelectMin(d, q, 0, IntMax, |d|)
  }

  /** Relaxation from link `u` with candidate mark `nd`: each link that can
      follow `u` takes the smaller of its mark and `nd`. */
  function Relax(net: Net, d: seq<int>, u: nat, nd: int): (r: seq<int>)
    requires |d| == |net| && u < |net|
    ensures |r| == |d|
    ensures forall i :: 0 <= i < |d| ==> r[i] <= d[i] && (r[i] == d[i] || r[i] == nd)
    ensures forall i :: 0 <= i < |d| && net[u].d == net[i].o ==> r[i] <= nd
    ensures forall i :: 0 <= i < |d| && net[u].d != net[i].o ==> r[i] == d[i]
  {
    seq(|d|, i requires 0 <= i < |d| => if net[u].d == net[i].o && d[i] > nd then nd else d[i])
  }

  /** Relaxation keeps marks inside any range holding the candidate. */
  lemma RelaxWithin(net: Net, d: seq<int>, u: nat, nd: int, lo: int, hi: int)
    requires |d| == |net| && u < |net| && lo <= nd <= hi
    requires forall i :: 0 <= i < |d| ==> lo <= d[i] <= hi
    ensures forall i :: 0 <= i < |d| ==> lo <= Relax(net, d, u, nd)[i] <= hi
  {
  }

  /** Initial marks: 0 on every link with id `start`, `INT_MAX` elsewhere. */
  function InitMarks(net: Net, start: int): (d: seq<int>)
    ensures |d| == |net|
    ensures forall i :: 0 <= i < |d| ==> d[i] == (if net[i].id == start then 0 else IntMax)
  {
    seq(|net|, i requires 0 <= i < |net| => if net[i].id == start then 0 else IntMax)
  }

  function AllQueued(n: nat): (q: seq<bool>)
    ensures |q| == n && forall i :: 0 <= i < n ==> q[i]
  {
    seq(n, _ => true)
  }

  // ---------------------------------------------------------------------
  // The loop as written.

  function LoopAsWritten(net: Net, goal: int, d: seq<int>, q: seq<bool>, past: int): Result<int>
    requires |d| == |q| == |net|
    requires forall i :: 0 <= i < |d| ==> IntMin <= d[i] <= IntMax
    decreases Queued(q)
  {
    var (min, u) := Pick(d, q);
    if u == |net| then Err(QueueExhausted)
    else if net[u].id == goal then Ok(min)
    else if u == past then Err(RepeatedNode)
    else
      QueuedClear(q, u);
      LoopAsWritten(net, goal, Relax(net, d, u, Wrap32(d[u] + 1)), q[u := false], u)
  }

  function DijkstraAsWritten(net: Net, start: int, goal: int): Result<int>
    requires |net| <= MaxLinks
  {
    LoopAsWritten(net, goal, InitMarks(net, start), AllQueued(|net|), PastInit)
  }

  // ---------------------------------------------------------------------
  // The loop with an unreachable goal reported as `Infinite`.

  function Loop(net: Net, goal: int, d: seq<int>, q: seq<bool>, past: int): Result<Dist>
    requires |d| == |q| == |net|
    requires forall i :: 0 <= i < |d| ==> 0 <= d[i] <= IntMax
    decreases Queued(q)
  {
    var (min, u) := Pick(d, q);
    if u == |net| then Err(QueueExhausted)
    else if net[u].id == goal then Ok(if min == IntMax then Infinite else Hops(min))
    else if min == IntMax then Ok(Infinite)
    else if u == past then Err(RepeatedNode)
    else
      QueuedClear(q, u);
      Loop(net, goal, Relax(net, d, u, min + 1), q[u := false], u)
  }

  /** Hop count from the link with id `start` to the link with id `goal`.
      A goal id absent from the network exhausts the queue, as in main.c. */
  function Dijkstra(net: Net, start: int, goal: int): Result<Dist>
    requires |net| <= MaxLinks
  {
    if !HasId(net, goal) then Err(QueueExhausted)
    else Loop(net, goal, InitMarks(net, start), AllQueued(|net|), PastInit)
  }

  // ---------------------------------------------------------------------
  // Correctness.

  /** What the loop keeps true between iterations. Finalized links (`!q[p]`)
      carry their exact distance, every finite mark is the length of some
      chain, links that may follow a finalized link are marked at most one
      more, and finalized marks never exceed queued ones. */
  ghost predicate Inv(net: Net, start: int, goal: int, d: seq<int>, q: seq<bool>, past: int)
  {
    && Shape(net, d, q)
    && Bounded(d, q)
    && Sound(net, start, d)
    && StartsAtZero(net, start, d)
    && Settled(net, goal, d, q)
    && Relaxed(net, d, q)
    && Ordered(d, q)
    && (past == PastInit || (0 <= past < |q| && !q[past]))
  }

  ghost predicate Shape(net: Net, d: seq<int>, q: seq<bool>)
  {
    && |d| == |q| == |net| <= MaxLinks
    && (forall i :: 0 <= i < |d| ==> 0 <= d[i] <= IntMax)
  }

  /** A finite mark never exceeds the number of finalized links. */
  ghost predicate Bounded(d: seq<int>, q: seq<bool>)
    requires |d| == |q|
  {
    forall i :: 0 <= i < |d| && d[i] < IntMax ==> d[i] <= |d| - Queued(q)
  }

  ghost predicate Sound(net: Net, start: int, d: seq<int>)
    requires |d| == |net|
  {
    forall i :: 0 <= i < |d| && 0 <= d[i] < IntMax ==> ReachIn(net, start, i, d[i])
  }

  ghost predicate StartsAtZero(net: Net, start: int, d: seq<int>)
    requires |d| == |net|
  {
    forall i :: 0 <= i < |d| && net[i].id == start ==> d[i] == 0
  }

  ghost predicate Settled(net: Net, goal: int, d: seq<int>, q: seq<bool>)
    requires |d| == |q| == |net|
  {
    forall p :: 0 <= p < |d| && !q[p] ==> d[p] < IntMax && net[p].id != goal
  }

  ghost predicate Relaxed(net: Net, d: seq<int>, q: seq<bool>)
    requires |d| == |q| == |net|
  {
    forall p, j :: 0 <= p < |d| && 0 <= j < |d| && !q[p] && net[p].d == net[j].o ==> d[j] <= d[p] + 1
  }

  ghost predicate Ordered(d: seq<int>, q: seq<bool>)
    requires |d| == |q|
  {
    forall p, x :: 0 <= p < |d| && 0 <= x < |d| && !q[p] && q[x] ==> d[p] <= d[x]
  }

  lemma InitInv(net: Net, start: int, goal: int)
    requires |net| <= MaxLinks
    ensures Inv(net, start, goal, InitMarks(net, start), AllQueued(|net|), PastInit)
  {
    QueuedAll(|net|);
    assert AllQueued(|net|) == seq(|net|, _ => true);
  }

  /** A chain that ends at a link either ends at a finalized... or passes
      through a queued link whose mark is at most the chain length. */
  lemma {:induction false} ChainMeetsQueue(net: Net, start: int, goal: int, d: seq<int>, q: seq<bool>, past: int, j: nat, k: nat)
    requires Inv(net, start, goal, d, q, past) && j < |net|
    ensures ReachIn(net, start, j, k) ==>
      || (d[j] <= k && d[j] < IntMax)
      || (exists x :: 0 <= x < |q| && q[x] && d[x] <= k && d[x] < IntMax)
    decreases k
  {
    if k > 0 && ReachIn(net, start, j, k) {
      var p :| 0 <= p < |net| && ReachIn(net, start, p, k - 1) && net[p].d == net[j].o;
      ChainMeetsQueue(net, start, goal, d, q, past, p, k - 1);
      if d[p] <= k - 1 && d[p] < IntMax && q[p] {
        assert q[p] && d[p] <= k && d[p] < IntMax;
      }
    }
  }

  /** Every goal link is still queued, so a chain to one of them meets the
      queue at a finite mark. */
  lemma GoalChainMeetsQueue(net: Net, start: int, goal: int, d: seq<int>, q: seq<bool>, past: int, j: nat, k: nat)
    requires Inv(net, start, goal, d, q, past) && j < |net| && net[j].id == goal
    ensures ReachIn(net, start, j, k) ==>
      exists x :: 0 <= x < |q| && q[x] && d[x] <= k && d[x] < IntMax
  {
    ChainMeetsQueue(net, start, goal, d, q, past, j, k);
    if ReachIn(net, start, j, k) && d[j] <= k && d[j] < IntMax {
      assert q[j];
    }
  }

  /** Finalizing the selected link and relaxing from it keeps `Inv`. */
  lemma PopKeepsInv(net: Net, start: int, goal: int, d: seq<int>, q: seq<bool>, past: int, u: nat)
    requires Inv(net, start, goal, d, q, past)
    requires u < |d| && q[u] && forall x :: 0 <= x < |d| && q[x] ==> d[u] <= d[x]
    requires d[u] < IntMax && net[u].id != goal
    ensures Inv(net, start, goal, Relax(net, d, u, d[u] + 1), q[u := false], u)
  {
    var d', q' := Relax(net, d, u, d[u] + 1), q[u := false];
    QueuedClear(q, u);
    PopBounded(net, d, q, u);
    PopSound(net, start, d, u);
    PopSettled(net, goal, d, q, u);
    PopRelaxed(net, d, q, u);
    PopOrdered(net, d, q, u);
  }

  lemma PopBounded(net: Net, d: seq<int>, q: seq<bool>, u: nat)
    requires Shape(net, d, q) && Bounded(d, q)
    requires u < |d| && q[u] && d[u] < IntMax
    ensures Bounded(Relax(net, d, u, d[u] + 1), q[u := false])
  {
    QueuedClear(q, u);
  }

  lemma PopSound(net: Net, start: int, d: seq<int>, u: nat)
    requires |d| == |net| && u < |d| && 0 <= d[u] < IntMax && Sound(net, start, d)
    ensures Sound(net, start, Relax(net, d, u, d[u] + 1))
  {
    var d' := Relax(net, d, u, d[u] + 1);
    forall i | 0 <= i < |d| && 0 <= d'[i] < IntMax
      ensures ReachIn(net, start, i, d'[i])
    {
      if d'[i] != d[i] {
        ReachStep(net, start, u, i, d[u]);
      }
    }
  }

  lemma PopSettled(net: Net, goal: int, d: seq<int>, q: seq<bool>, u: nat)
    requires |d| == |q| == |net| && u < |d| && d[u] < IntMax && net[u].id != goal
    requires Settled(net, goal, d, q)
    ensures Settled(net, goal, Relax(net, d, u, d[u] + 1), q[u := false])
  {
  }

  lemma PopRelaxed(net: Net, d: seq<int>, q: seq<bool>, u: nat)
    requires Shape(net, d, q) && Relaxed(net, d, q) && Ordered(d, q)
    requires u < |d| && q[u] && d[u] < IntMax
    ensures Relaxed(net, Relax(net, d, u, d[u] + 1), q[u := false])
  {
    var d', q' := Relax(net, d, u, d[u] + 1), q[u := false];
    assert d'[u] == d[u];
    forall p, j | 0 <= p < |d| && 0 <= j < |d| && !q'[p] && net[p].d == net[j].o
      ensures d'[j] <= d'[p] + 1
    {
      if p != u {
        assert d[p] <= d[u];
        assert d'[p] == d[p];
      }
    }
  }

  lemma PopOrdered(net: Net, d: seq<int>, q: seq<bool>, u: nat)
    requires Shape(net, d, q) && Ordered(d, q)
    requires u < |d| && q[u] && d[u] < IntMax
    requires forall x :: 0 <= x < |d| && q[x] ==> d[u] <= d[x]
    ensures Ordered(Relax(net, d, u, d[u] + 1), q[u := false])
  {
    var d', q' := Relax(net, d, u, d[u] + 1), q[u := false];
    assert d'[u] == d[u];
    forall p, x | 0 <= p < |d| && 0 <= x < |d| && !q'[p] && q'[x]
      ensures d'[p] <= d'[x]
    {
      if p != u {
        assert d[p] <= d[u];
        assert d'[p] == d[p];
      }
    }
  }

  /** What a finished loop may answer about `start` and `goal`. */
  ghost predicate Answers(net: Net, start: int, goal: int, r: Result<Dist>)
  {
    && r.Ok?
    && (r.value.Hops? ==> IsShortest(net, start, goal, r.value.n) && r.value.n < |net|)
    && (r.value.Infinite? ==> NoChain(net, start, goal))
  }

  /** When every queued mark is `INT_MAX`, no chain reaches the goal. */
  lemma AllInfiniteMeansNoChain(net: Net, start: int, goal: int, d: seq<int>, q: seq<bool>, past: int)
    requires Inv(net, start, goal, d, q, past)
    requires forall x :: 0 <= x < |q| && q[x] ==> d[x] == IntMax
    ensures NoChain(net, start, goal)
  {
    forall j, k: nat | 0 <= j < |net| && net[j].id == goal
      ensures !ReachIn(net, start, j, k)
    {
      GoalChainMeetsQueue(net, start, goal, d, q, past, j, k);
    }
  }

  /** A selected goal link with a finite mark carries the shortest distance. */
  lemma SelectedGoalIsShortest(net: Net, start: int, goal: int, d: seq<int>, q: seq<bool>, past: int, u: nat)
    requires Inv(net, start, goal, d, q, past)
    requires u < |q| && q[u] && net[u].id == goal && d[u] < IntMax
    requires forall x :: 0 <= x < |q| && q[x] ==> d[u] <= d[x]
    ensures IsShortest(net, start, goal, d[u])
  {
    assert ReachIn(net, start, u, d[u]);
    forall j, k: nat | 0 <= j < |net| && net[j].id == goal && k < d[u]
      ensures !ReachIn(net, start, j, k)
    {
      GoalChainMeetsQueue(net, start, goal, d, q, past, j, k);
    }
  }

  /** One iteration that finalizes a non-goal link `u` with a finite mark. */
  lemma LoopStep(net: Net, goal: int, d: seq<int>, q: seq<bool>, past: int, u: nat)
    requires |d| == |q| == |net|
    requires forall i :: 0 <= i < |d| ==> 0 <= d[i] <= IntMax
    requires u == Pick(d, q).1 && u < |net| && net[u].id != goal && d[u] < IntMax && u != past
    ensures Loop(net, goal, d, q, past) == Loop(net, goal, Relax(net, d, u, d[u] + 1), q[u := false], u)
  {
    assert Pick(d, q) == (d[u], u);
  }

  /** The same iteration of the loop as written, whose `+ 1` cannot wrap
      below `INT_MAX`. */
  lemma LoopStepAsWritten(net: Net, goal: int, d: seq<int>, q: seq<bool>, past: int, u: nat)
    requires |d| == |q| == |net|
    requires forall i :: 0 <= i < |d| ==> 0 <= d[i] <= IntMax
    requires u == Pick(d, q).1 && u < |net| && net[u].id != goal && d[u] < IntMax && u != past
    ensures LoopAsWritten(net, goal, d, q, past)
         == LoopAsWritten(net, goal, Relax(net, d, u, d[u] + 1), q[u := false], u)
  {
    assert Wrap32(d[u] + 1) == d[u] + 1;
  }

  lemma {:induction false} LoopCorrect(net: Net, start: int, goal: int, d: seq<int>, q: seq<bool>, past: int)
    requires Inv(net, start, goal, d, q, past)
    requires exists g :: 0 <= g < |q| && q[g] && net[g].id == goal
    ensures Answers(net, start, goal, Loop(net, goal, d, q, past))
    decreases Queued(q)
  {
    var (min, u) := Pick(d, q);
    assert u < |net|;
    if min == IntMax {
      assert Loop(net, goal, d, q, past) == Ok(Infinite);
      AllInfiniteMeansNoChain(net, start, goal, d, q, past);
    } else if net[u].id == goal {
      assert Loop(net, goal, d, q, past) == Ok(Hops(min));
      SelectedGoalIsShortest(net, start, goal, d, q, past, u);
      QueuedPositive(q, u);
    } else {
      assert u != past;
      var d', q' := Relax(net, d, u, d[u] + 1), q[u := false];
      LoopStep(net, goal, d, q, past, u);
      PopKeepsInv(net, start, goal, d, q, past, u);
      QueuedClear(q, u);
      var g :| 0 <= g < |q| && q[g] && net[g].id == goal;
      assert q'[g];
      LoopCorrect(net, start, goal, d', q', u);
    }
  }

  /** `Dijkstra` fails exactly when no link carries the goal id; otherwise
      it answers the fewest hops, or `Infinite` when no chain reaches the
      goal. The repeat guard never fires. */
  lemma DijkstraCorrect(net: Net, start: int, goal: int)
    requires |net| <= MaxLinks
    ensures !HasId(net, goal) ==> Dijkstra(net, start, goal) == Err(QueueExhausted)
    ensures HasId(net, goal) ==> Answers(net, start, goal, Dijkstra(net, start, goal))
  {
    if HasId(net, goal) {
      InitInv(net, start, goal);
      var g :| 0 <= g < |net| && net[g].id == goal;
      assert AllQueued(|net|)[g];
      LoopCorrect(net, start, goal, InitMarks(net, start), AllQueued(|net|), PastInit);
    }
  }

  /** `dijkstra(s, s)` is 0. */
  lemma DijkstraSelf(net: Net, s: int)
    requires |net| <= MaxLinks && HasId(net, s)
    ensures Dijkstra(net, s, s) == Ok(Hops(0))
  {
    DijkstraCorrect(net, s, s);
    var j :| 0 <= j < |net| && net[j].id == s;
    assert ReachIn(net, s, j, 0);
  }

  /** The answer is within `x` hops exactly when a chain of at most `x`
      hops exists. */
  lemma DijkstraWithin(net: Net, start: int, goal: int, x: nat)
    requires |net| <= MaxLinks && HasId(net, goal)
    ensures Dijkstra(net, start, goal).Ok?
    ensures (Dijkstra(net, start, goal).value.Hops? && Dijkstra(net, start, goal).value.n <= x)
            <==> ReachWithin(net, start, goal, x)
  {
    DijkstraCorrect(net, start, goal);
    var r := Dijkstra(net, start, goal).value;
    if ReachWithin(net, start, goal, x) {
      var j, k: nat :| 0 <= j < |net| && net[j].id == goal && k <= x && ReachIn(net, start, j, k);
      assert r.Hops? && r.n <= k;
    }
  }

  /** The hop count from `start` to an existing `goal`, as every caller in
      the model uses it. The goal is known to exist, so the queue never
      runs dry (`DistanceCorrect`) and the `Err` arm is never taken. */
  function Distance(net: Net, start: int, goal: int): Dist
    requires |net| <= MaxLinks && HasId(net, goal)
  {
    match Dijkstra(net, start, goal)
    case Ok(d) => d
    case Err(_) => Infinite
  }

  /** `Distance` is the answer of `dijkstra`: a shortest hop count below
      the number of links, or `Infinite` when no chain exists. */
  lemma DistanceCorrect(net: Net, start: int, goal: int)
    requires |net| <= MaxLinks && HasId(net, goal)
    ensures Dijkstra(net, start, goal) == Ok(Distance(net, start, goal))
    ensures Distance(net, start, goal).Hops? ==>
      IsShortest(net, start, goal, Distance(net, start, goal).n) && Distance(net, start, goal).n < |net|
    ensures Distance(net, start, goal).Infinite? ==> NoChain(net, start, goal)
  {
    DijkstraCorrect(net, start, goal);
  }

  /** A distance is at most `x` exactly when a chain of at most `x` hops
      exists. */
  lemma DistanceWithin(net: Net, start: int, goal: int, x: nat)
    requires |net| <= MaxLinks && HasId(net, goal)
    ensures (Distance(net, start, goal).Hops? && Distance(net, start, goal).n <= x)
            <==> ReachWithin(net, start, goal, x)
  {
    DijkstraWithin(net, start, goal, x);
  }

  /** The distance from a link's own id is zero. */
  lemma DistanceSelf(net: Net, s: int)
    requires |net| <= MaxLinks && HasId(net, s)
    ensures Distance(net, s, s) == Hops(0)
  {
    DijkstraSelf(net, s);
  }

  /** A zero distance means start and goal are the same id. */
  lemma DistanceZero(net: Net, start: int, goal: int)
    requires |net| <= MaxLinks && HasId(net, goal)
    ensures Distance(net, start, goal) == Hops(0) <==> start == goal
  {
    DistanceCorrect(net, start, goal);
    if start == goal {
      DistanceSelf(net, start);
    }
  }

  // ---------------------------------------------------------------------
  // The loop as written: outcome, agreement, and the unreachable goal.

  lemma {:induction false} LoopAsWrittenOutcome(net: Net, goal: int, d: seq<int>, q: seq<bool>, past: int)
    requires |d| == |q| == |net| <= MaxLinks
    requires forall i :: 0 <= i < |d| ==> IntMin <= d[i] <= IntMax
    requires forall p :: 0 <= p < |q| && !q[p] ==> net[p].id != goal
    requires past == PastInit || (0 <= past < |q| && !q[past])
    ensures LoopAsWritten(net, goal, d, q, past).Err? <==> !HasId(net, goal)
    ensures LoopAsWritten(net, goal, d, q, past) != Err(RepeatedNode)
    decreases Queued(q)
  {
    var (min, u) := Pick(d, q);
    if u == |net| {
      assert LoopAsWritten(net, goal, d, q, past) == Err(QueueExhausted);
      forall p | 0 <= p < |net|
        ensures net[p].id != goal
      {
        assert !q[p];
      }
    } else if net[u].id == goal {
      assert LoopAsWritten(net, goal, d, q, past) == Ok(min);
    } else {
      assert u != past;
      QueuedClear(q, u);
      var d', q' := Relax(net, d, u, Wrap32(d[u] + 1)), q[u := false];
      RelaxWithin(net, d, u, Wrap32(d[u] + 1), IntMin, IntMax);
      assert LoopAsWritten(net, goal, d, q, past) == LoopAsWritten(net, goal, d', q', u);
      LoopAsWrittenOutcome(net, goal, d', q', u);
    }
  }

  /** As written, dijkstra fails (exhausted queue) exactly when no link
      carries the goal id, and the repeat guard never fires. */
  lemma AsWrittenOutcome(net: Net, start: int, goal: int)
    requires |net| <= MaxLinks
    ensures DijkstraAsWritten(net, start, goal).Err? <==> !HasId(net, goal)
    ensures DijkstraAsWritten(net, start, goal) != Err(RepeatedNode)
  {
    LoopAsWrittenOutcome(net, goal, InitMarks(net, start), AllQueued(|net|), PastInit);
  }

  lemma {:induction false} LoopAgrees(net: Net, start: int, goal: int, d: seq<int>, q: seq<bool>, past: int, n: nat)
    requires Inv(net, start, goal, d, q, past)
    requires exists g :: 0 <= g < |q| && q[g] && net[g].id == goal
    requires Loop(net, goal, d, q, past) == Ok(Hops(n))
    ensures LoopAsWritten(net, goal, d, q, past) == Ok(n)
    decreases Queued(q)
  {
    var (min, u) := Pick(d, q);
    assert u < |net|;
    if net[u].id != goal && min < IntMax {
      assert u != past;
      var d', q' := Relax(net, d, u, d[u] + 1), q[u := false];
      LoopStep(net, goal, d, q, past, u);
      LoopStepAsWritten(net, goal, d, q, past, u);
      PopKeepsInv(net, start, goal, d, q, past, u);
      QueuedClear(q, u);
      var g :| 0 <= g < |q| && q[g] && net[g].id == goal;
      assert q'[g];
      LoopAgrees(net, start, goal, d', q', u, n);
    }
  }

  /** Whenever the goal is reachable, the loop as written returns the same
      hop count as `Dijkstra`. */
  lemma AsWrittenAgreesWhenReachable(net: Net, start: int, goal: int, n: nat)
    requires |net| <= MaxLinks
    requires Dijkstra(net, start, goal) == Ok(Hops(n))
    ensures DijkstraAsWritten(net, start, goal) == Ok(n)
  {
    InitInv(net, start, goal);
    var g :| 0 <= g < |net| && net[g].id == goal;
    assert AllQueued(|net|)[g];
    LoopAgrees(net, start, goal, InitMarks(net, start), AllQueued(|net|), PastInit, n);
  }

  /** Two links where the second can never follow the first. */
  function Disconnected(): Net
  {
    [Link(1, 1, 2, 0), Link(2, 3, 4, 0)]
  }

  /** As written, the distance from link 1 to the unreachable link 2 comes
      back as `INT_MAX`, where `Dijkstra` answers `Infinite`. */
  lemma AsWrittenUnreachableGoal()
    ensures DijkstraAsWritten(Disconnected(), 1, 2) == Ok(IntMax)
    ensures Dijkstra(Disconnected(), 1, 2) == Ok(Infinite)
  {
    AsWrittenOnDisconnected();
    UnreachableOnDisconnected();
  }

  /** The two iterations of the loop as written on `Disconnected`. */
  lemma AsWrittenOnDisconnected()
    ensures DijkstraAsWritten(Disconnected(), 1, 2) == Ok(IntMax)
  {
    var net := Disconnected();
    var d0, q0 := InitMarks(net, 1), AllQueued(2);
    assert d0 == [0, IntMax];
    assert q0 == [true, true];
    assert Pick(d0, q0) == (0, 0);
    var d1 := Relax(net, d0, 0, Wrap32(1));
    assert d1 == [0, IntMax];
    assert q0[0 := false] == [false, true];
    assert SelectMin(d1, [false, true], 2, IntMax, 1) == (IntMax, 1);
    assert SelectMin(d1, [false, true], 1, IntMax, 2) == (IntMax, 1);
    assert SelectMin(d1, [false, true], 0, IntMax, 2) == (IntMax, 1);
    assert Pick(d1, [false, true]) == (IntMax, 1);
    assert LoopAsWritten(net, 2, d1, [false, true], 0) == Ok(IntMax);
  }

  /** No chain reaches link 2 of `Disconnected`, so `Dijkstra` answers
      `Infinite`. */
  lemma UnreachableOnDisconnected()
    ensures Dijkstra(Disconnected(), 1, 2) == Ok(Infinite)
  {
    var net := Disconnected();
    DijkstraCorrect(net, 1, 2);
    forall k: nat
      ensures !ReachIn(net, 1, 1, k)
    {
      assert forall p :: 0 <= p < 2 ==> net[p].d != net[1].o;
    }
    assert net[1].id == 2;
  }
  /** Three links: link 0 leads nowhere, link 2 (id 2) feeds link 1 (id 3),
      and nothing reaches link 2 from link 0. */
  function Overflowing(): Net
  {
    [Link(1, 1, 2, 0), Link(3, 4, 5, 0), Link(2, 3, 4, 0)]
  }

  /** The code takes the unreachable link 2 from the queue with mark
      `INT_MAX`, relaxes its successor to the wrapped `INT_MAX + 1`, and
      then reports that negative mark as the distance to id 3; the
      corrected loop answers `Infinite`. */
  lemma AsWrittenOverflows()
    ensures DijkstraAsWritten(Overflowing(), 1, 3) == Ok(IntMin)
    ensures Dijkstra(Overflowing(), 1, 3) == Ok(Infinite)
  {
    var net := Overflowing();
    assert net[1].id == 3;
    OverflowingStart();
    OverflowingFirstPick();
    OverflowingSecondPick();
    OverflowingLastPick();
  }

  /** The initial marks and queue on `Overflowing` from id 1. */
  lemma OverflowingStart()
    ensures InitMarks(Overflowing(), 1) == [0, IntMax, IntMax]
    ensures AllQueued(3) == [true, true, true]
  {
  }

  /** The first iteration takes the start link 0, whose successors are
      none, and leaves links 1 and 2 queued at `INT_MAX`. */
  lemma OverflowingFirstPick()
    ensures LoopAsWritten(Overflowing(), 3, [0, IntMax, IntMax], [true, true, true], PastInit)
         == LoopAsWritten(Overflowing(), 3, [0, IntMax, IntMax], [false, true, true], 0)
    ensures Loop(Overflowing(), 3, [0, IntMax, IntMax], [true, true, true], PastInit)
         == Loop(Overflowing(), 3, [0, IntMax, IntMax], [false, true, true], 0)
  {
    var net, d0, q0 := Overflowing(), [0, IntMax, IntMax], [true, true, true];
    assert SelectMin(d0, q0, 3, 0, 0) == (0, 0);
    assert SelectMin(d0, q0, 2, 0, 0) == (0, 0);
    assert SelectMin(d0, q0, 1, 0, 0) == (0, 0);
    assert SelectMin(d0, q0, 0, IntMax, 3) == (0, 0);
    assert Pick(d0, q0) == (0, 0);
    assert Wrap32(1) == 1;
    var d1 := Relax(net, d0, 0, 1);
    assert forall i :: 0 <= i < 3 ==> d1[i] == d0[i];
    assert d1 == d0;
    assert q0[0 := false] == [false, true, true];
  }

  /** After the first iteration both remaining links are queued at
      `INT_MAX` and the scan takes the last, link 2. */
  lemma OverflowingSecondPick()
    ensures Pick([0, IntMax, IntMax], [false, true, true]) == (IntMax, 2)
    ensures Loop(Overflowing(), 3, [0, IntMax, IntMax], [false, true, true], 0) == Ok(Infinite)
  {
    var d1, q1 := [0, IntMax, IntMax], [false, true, true];
    assert SelectMin(d1, q1, 3, IntMax, 2) == (IntMax, 2);
    assert SelectMin(d1, q1, 2, IntMax, 1) == (IntMax, 2);
    assert SelectMin(d1, q1, 1, IntMax, 3) == (IntMax, 2);
  }

  /** Relaxing from link 2 at the wrapped `INT_MAX + 1` gives link 1 the
      mark `INT_MIN`, which the next scan returns for the goal. */
  lemma OverflowingLastPick()
    ensures LoopAsWritten(Overflowing(), 3, [0, IntMax, IntMax], [false, true, true], 0) == Ok(IntMin)
  {
    var net, d1, q1 := Overflowing(), [0, IntMax, IntMax], [false, true, true];
    OverflowingSecondPick();
    assert Wrap32(IntMax + 1) == IntMin;
    var d2 := Relax(net, d1, 2, IntMin);
    assert d2 == [0, IntMin, IntMax];
    var q2 := q1[2 := false];
    assert q2 == [false, true, false];
    assert SelectMin(d2, q2, 3, IntMin, 1) == (IntMin, 1);
    assert SelectMin(d2, q2, 2, IntMin, 1) == (IntMin, 1);
    assert SelectMin(d2, q2, 1, IntMax, 3) == (IntMin, 1);
    assert Pick(d2, q2) == (IntMin, 1);
    assert LoopAsWritten(net, 3, d2, q2, 2) == Ok(IntMin);
  }
}
