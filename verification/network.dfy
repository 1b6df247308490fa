/** The service network: an array of directed links, nodes implicit in the
    link end points. One link can follow another when its origin is the
    other's destination; shortest paths count such hops. */
module Network {
  import opened Base

  /** A service link (`Network` in main.c): id, origin node, destination
      node and the operating cost `c`, which the loader reads as an integer.
      A link's array index plays the role of its `num` field. */
  datatype Link = Link(id: int, o: int, d: int, c: int)

  type Net = seq<Link>

  predicate HasId(net: Net, id: int)
  {
    exists i :: 0 <= i < |net| && net[i].id == id
  }

  /** Link `j` is the last of a chain of `k + 1` links, each leaving from the
      destination of the one before, whose first link has id `start`. */
  predicate ReachIn(net: Net, start: int, j: nat, k: nat)
    requires j < |net|
    decreases k
  {
    if k == 0 then net[j].id == start
    else exists p :: 0 <= p < |net| && ReachIn(net, start, p, k - 1) && net[p].d == net[j].o
  }

  lemma ReachStep(net: Net, start: int, p: nat, j: nat, k: nat)
    requires p < |net| && j < |net|
    requires ReachIn(net, start, p, k) && net[p].d == net[j].o
    ensures ReachIn(net, start, j, k + 1)
  {
  }

  /** `n` is the fewest hops from a link with id `start` to a link with id
      `goal`. */
  ghost predicate IsShortest(net: Net, start: int, goal: int, n: nat)
  {
    && (exists j :: 0 <= j < |net| && net[j].id == goal && ReachIn(net, start, j, n))
    && (forall j, k: nat :: 0 <= j < |net| && net[j].id == goal && k < n ==> !ReachIn(net, start, j, k))
  }

  /** No chain of any length leads from `start` to `goal`. */
  ghost predicate NoChain(net: Net, start: int, goal: int)
  {
    forall j, k: nat :: 0 <= j < |net| && net[j].id == goal ==> !ReachIn(net, start, j, k)
  }

  /** Some link with id `goal` is reachable from `start` in at most `x` hops. */
  ghost predicate ReachWithin(net: Net, start: int, goal: int, x: nat)
  {
    exists j, k: nat :: 0 <= j < |net| && net[j].id == goal && k <= x && ReachIn(net, start, j, k)
  }

  /** Indices, in array order, of the links leaving node `node`: the links a
      vehicle standing on a link that ends at `node` may take next. */
  function Successors(net: Net, node: int): (s: seq<nat>)
    ensures forall x :: 0 <= x < |s| ==> s[x] < |net| && net[s[x]].o == node
    ensures forall l :: 0 <= l < |net| && net[l].o == node ==> l in s
    ensures forall x, y :: 0 <= x < y < |s| ==> s[x] < s[y]
  {
    SuccessorsFrom(net, node, 0)
  }

  function SuccessorsFrom(net: Net, node: int, from: nat): (s: seq<nat>)
    requires from <= |net|
    ensures forall x :: 0 <= x < |s| ==> from <= s[x] < |net| && net[s[x]].o == node
    ensures forall l :: from <= l < |net| && net[l].o == node ==> l in s
    ensures forall x, y :: 0 <= x < y < |s| ==> s[x] < s[y]
    decreases |net| - from
  {
    if from == |net| then []
    else if net[from].o == node then [from] + SuccessorsFrom(net, node, from + 1)
    else SuccessorsFrom(net, node, from + 1)
  }

  /** Number of links leaving `node`. */
  function OutDegree(net: Net, node: int): nat
  {
    |Successors(net, node)|
  }

  /** The ad hoc id of the stay link of demand node `node`: tens digit
      times 1000 plus units digit times 10, in C's truncating arithmetic. */
  function StayLinkId(node: int): int
  {
    TruncDiv(node, 10) * 1000 + TruncMod(node, 10) * 10
  }

  /** Array index of the LAST link carrying `id` (the lookup loops keep
      overwriting `onum`/`dnum`), or a fault when there is none. */
  function LastIndexOf(net: Net, id: int): (r: Result<nat>)
    ensures r.Err? <==> !HasId(net, id)
    ensures r.Err? ==> r.fault == MissingStayLink
    ensures r.Ok? ==> r.value < |net| && net[r.value].id == id
    ensures r.Ok? ==> forall j :: r.value < j < |net| ==> net[j].id != id
  {
    LastIndexBelow(net, id, |net|)
  }

  function LastIndexBelow(net: Net, id: int, n: nat): (r: Result<nat>)
    requires n <= |net|
    ensures r.Err? <==> forall j :: 0 <= j < n ==> net[j].id != id
    ensures r.Err? ==> r.fault == MissingStayLink
    ensures r.Ok? ==> r.value < n && net[r.value].id == id
    ensures r.Ok? ==> forall j :: r.value < j < n ==> net[j].id != id
  {
    if n == 0 then Err(MissingStayLink)
    else if net[n - 1].id == id then Ok(n - 1)
    else LastIndexBelow(net, id, n - 1)
  }
}
