/**
 * UndirectedGraph: vertices 0 .. size - 1, each edge stored once and
 * threaded into two lists (the edges1 list of its lower endpoint and the
 * edges2 list of its higher one), the degree of every vertex, and the
 * "ordered neighbours" used to count triangles: every edge is given to its
 * endpoint of smaller degree (the lower-numbered one on a tie), and
 * triangles are counted by intersecting ascending neighbour arrays.
 * An edge node is referred to by its position in `edges`, the order in
 * which the nodes were created.
 */
module UndirectedGraphs {

  datatype Edge = Edge(vertex1: nat, vertex2: nat)

  predicate Ascending(s: seq<int>)
  {
    forall i, j :: 0 <= i < j < |s| ==> s[i] <= s[j]
  }

  predicate StrictlyAscending(s: seq<int>)
  {
    forall i, j :: 0 <= i < j < |s| ==> s[i] < s[j]
  }

  // ---------------------------------------------------------------------
  // The two edge lists and the degree

  /** The edge list edges1 of v: the edges whose lower endpoint is v, newest first. */
  function Firsts(edges: seq<Edge>, v: nat): seq<nat>
    decreases |edges|
  {
    if edges == [] then []
    else
      var id := |edges| - 1;
      (if edges[id].vertex1 == v then [id] else []) + Firsts(edges[..id], v)
  }

  /** The edge list edges2 of v: the edges whose higher endpoint is v, newest first. */
  function Seconds(edges: seq<Edge>, v: nat): seq<nat>
    decreases |edges|
  {
    if edges == [] then []
    else
      var id := |edges| - 1;
      (if edges[id].vertex2 == v then [id] else []) + Seconds(edges[..id], v)
  }

  /** The number of edges with v as an endpoint. */
  function Degree(edges: seq<Edge>, v: nat): nat
    decreases |edges|
  {
    if edges == [] then 0
    else
      var e := edges[|edges| - 1];
      Degree(edges[..|edges| - 1], v) + (if e.vertex1 == v || e.vertex2 == v then 1 else 0)
  }

  /** The edges1 list of v names edges whose lower endpoint is v. */
  lemma {:induction false} FirstsIn(edges: seq<Edge>, v: nat)
    ensures forall k :: 0 <= k < |Firsts(edges, v)| ==> Firsts(edges, v)[k] < |edges| && edges[Firsts(edges, v)[k]].vertex1 == v
    decreases |edges|
  {
    if edges != [] {
      FirstsIn(edges[..|edges| - 1], v);
    }
  }

  lemma FirstsSnoc(edges: seq<Edge>, e: Edge, v: nat)
    ensures Firsts(edges + [e], v) == (if e.vertex1 == v then [|edges|] else []) + Firsts(edges, v)
    ensures Seconds(edges + [e], v) == (if e.vertex2 == v then [|edges|] else []) + Seconds(edges, v)
    ensures Degree(edges + [e], v) == Degree(edges, v) + (if e.vertex1 == v || e.vertex2 == v then 1 else 0)
  {
    assert (edges + [e])[..|edges|] == edges;
  }

  /** With no self loops, the degree is the length of the two edge lists together. */
  lemma {:induction false} DegreeLists(edges: seq<Edge>, v: nat)
    requires forall id :: 0 <= id < |edges| ==> edges[id].vertex1 < edges[id].vertex2
    ensures Degree(edges, v) == |Firsts(edges, v)| + |Seconds(edges, v)|
    decreases |edges|
  {
    if edges != [] {
      var init := edges[..|edges| - 1];
      DegreeLists(init, v);
    }
  }

  // ---------------------------------------------------------------------
  // Ordered neighbours

  /** The endpoint an edge is given to: fewer neighbours, the lower index on a tie. */
  function Owner(e: Edge, nn: seq<int>): nat
    requires e.vertex1 < |nn| && e.vertex2 < |nn|
  {
    var v1, v2 := e.vertex1, e.vertex2;
    if nn[v1] < nn[v2] || (nn[v1] == nn[v2] && v1 < v2) then v1 else v2
  }

  /** The endpoint that is not the owner. */
  function Other(e: Edge, nn: seq<int>): nat
    requires e.vertex1 < |nn| && e.vertex2 < |nn|
  {
    if Owner(e, nn) == e.vertex1 then e.vertex2 else e.vertex1
  }

  ghost predicate EdgesIn(edges: seq<Edge>, n: nat)
  {
    forall id :: 0 <= id < |edges| ==> edges[id].vertex1 < edges[id].vertex2 < n
  }

  /** The neighbours the edges ids give to v (an id that names no edge gives none). */
  ghost function Owned(edges: seq<Edge>, nn: seq<int>, ids: seq<nat>, v: nat): multiset<int>
    requires EdgesIn(edges, |nn|)
    decreases |ids|
  {
    if ids == [] then multiset{}
    else
      var id := ids[|ids| - 1];
      Owned(edges, nn, ids[..|ids| - 1], v) +
        (if id < |edges| && Owner(edges[id], nn) == v then multiset{Other(edges[id], nn)} else multiset{})
  }

  /** The order in which populateOrderedNeighbors visits the edges: by lower endpoint, then down its edges1 list. */
  function Visits(edges: seq<Edge>, n: nat): seq<nat>
  {
    if n == 0 then [] else Visits(edges, n - 1) + Firsts(edges, n - 1)
  }

  lemma {:induction false} VisitsIn(edges: seq<Edge>, n: nat)
    ensures forall k :: 0 <= k < |Visits(edges, n)| ==> Visits(edges, n)[k] < |edges|
  {
    if n > 0 {
      VisitsIn(edges, n - 1);
      FirstsIn(edges, n - 1);
    }
  }

  lemma OwnedSnoc(edges: seq<Edge>, nn: seq<int>, ids: seq<nat>, id: nat, v: nat)
    requires EdgesIn(edges, |nn|) && id < |edges|
    ensures var e := edges[id];
      Owned(edges, nn, ids + [id], v) == Owned(edges, nn, ids, v) + (if Owner(e, nn) == v then multiset{Other(e, nn)} else multiset{})
  {
    assert (ids + [id])[..|ids|] == ids;
  }

  /** The lower endpoint of edge id, or -1 when there is no such edge. */
  function Lower(edges: seq<Edge>, id: nat): int
  {
    if id < |edges| then edges[id].vertex1 else -1
  }

  /** The edges1 list of v names each edge with lower endpoint v once, and no other. */
  lemma {:induction false} FirstsCount(edges: seq<Edge>, v: nat, id: nat)
    ensures multiset(Firsts(edges, v))[id] == if Lower(edges, id) == v then 1 else 0
    decreases |edges|
  {
    if edges != [] {
      var init := edges[..|edges| - 1];
      FirstsCount(init, v, id);
      FirstsCountStep(edges, v, id);
    }
  }

  lemma FirstsCountStep(edges: seq<Edge>, v: nat, id: nat)
    requires edges != []
    ensures var last := |edges| - 1;
      && multiset(Firsts(edges, v))[id]
         == multiset(Firsts(edges[..last], v))[id] + (if id == last && edges[last].vertex1 == v then 1 else 0)
      && Lower(edges, id) == if id == last then edges[last].vertex1 else Lower(edges[..last], id)
  {
    var last := |edges| - 1;
    CountConcat(if edges[last].vertex1 == v then [last] else [], Firsts(edges[..last], v), id);
  }

  /** The traversal below n meets each edge with lower endpoint below n once, and no other. */
  lemma {:induction false} VisitsCount(edges: seq<Edge>, n: nat, id: nat)
    ensures multiset(Visits(edges, n))[id] == if 0 <= Lower(edges, id) < n then 1 else 0
  {
    if n > 0 {
      var m: nat := n - 1;
      VisitsCount(edges, m, id);
      FirstsCount(edges, m, id);
      VisitsCountStep(edges, m, id);
    }
  }

  lemma VisitsCountStep(edges: seq<Edge>, m: nat, id: nat)
    ensures multiset(Visits(edges, m + 1))[id] == multiset(Visits(edges, m))[id] + multiset(Firsts(edges, m))[id]
  {
    CountConcat(Visits(edges, m), Firsts(edges, m), id);
  }

  lemma CountConcat<T>(a: seq<T>, b: seq<T>, x: T)
    ensures multiset(a + b)[x] == multiset(a)[x] + multiset(b)[x]
  {
  }

  lemma {:induction false} VisitsLengthSnoc(edges: seq<Edge>, e: Edge, n: nat)
    ensures |Visits(edges + [e], n)| == |Visits(edges, n)| + (if e.vertex1 < n then 1 else 0)
  {
    if n > 0 {
      VisitsLengthSnoc(edges, e, n - 1);
      FirstsSnoc(edges, e, n - 1);
    }
  }

  /** The traversal meets every edge exactly once. */
  lemma {:induction false} VisitsAll(edges: seq<Edge>, n: nat)
    requires forall id :: 0 <= id < |edges| ==> edges[id].vertex1 < n
    ensures |Visits(edges, n)| == |edges|
    ensures forall id: nat :: multiset(Visits(edges, n))[id] == if id < |edges| then 1 else 0
    decreases |edges|
  {
    forall id: nat
      ensures multiset(Visits(edges, n))[id] == if id < |edges| then 1 else 0
    {
      VisitsCount(edges, n, id);
    }
    if edges == [] {
      VisitsEmpty(n);
    } else {
      var init, e := edges[..|edges| - 1], edges[|edges| - 1];
      assert edges == init + [e];
      VisitsAll(init, n);
      VisitsLengthSnoc(init, e, n);
    }
  }

  lemma {:induction false} VisitsEmpty(n: nat)
    ensures Visits([], n) == []
  {
    if n > 0 {
      VisitsEmpty(n - 1);
    }
  }

  /** How many neighbours the edges ids give to the vertices below n together. */
  ghost function OwnedCount(edges: seq<Edge>, nn: seq<int>, ids: seq<nat>, n: nat): nat
    requires EdgesIn(edges, |nn|)
  {
    if n == 0 then 0 else OwnedCount(edges, nn, ids, n - 1) + |Owned(edges, nn, ids, n - 1)|
  }

  lemma {:induction false} OwnedCountSnoc(edges: seq<Edge>, nn: seq<int>, ids: seq<nat>, id: nat, n: nat)
    requires EdgesIn(edges, |nn|) && id < |edges|
    ensures OwnedCount(edges, nn, ids + [id], n) == OwnedCount(edges, nn, ids, n) + (if Owner(edges[id], nn) < n then 1 else 0)
  {
    if n > 0 {
      OwnedCountSnoc(edges, nn, ids, id, n - 1);
      OwnedSnoc(edges, nn, ids, id, n - 1);
    }
  }

  /** Every visited edge gives exactly one neighbour to exactly one vertex. */
  lemma {:induction false} OwnedTotal(edges: seq<Edge>, nn: seq<int>, ids: seq<nat>)
    requires EdgesIn(edges, |nn|) && forall k :: 0 <= k < |ids| ==> ids[k] < |edges|
    ensures OwnedCount(edges, nn, ids, |nn|) == |ids|
    decreases |ids|
  {
    if ids == [] {
      OwnedCountEmpty(edges, nn, |nn|);
    } else {
      var init, id := ids[..|ids| - 1], ids[|ids| - 1];
      assert ids == init + [id];
      OwnedTotal(edges, nn, init);
      OwnedCountSnoc(edges, nn, init, id, |nn|);
    }
  }

  lemma {:induction false} OwnedCountEmpty(edges: seq<Edge>, nn: seq<int>, n: nat)
    requires EdgesIn(edges, |nn|)
    ensures OwnedCount(edges, nn, [], n) == 0
  {
    if n > 0 {
      OwnedCountEmpty(edges, nn, n - 1);
    }
  }

  /** The number of entries of the first n arrays. */
  function Total(s: seq<seq<int>>, n: nat): nat
    requires n <= |s|
  {
    if n == 0 then 0 else Total(s, n - 1) + |s[n - 1]|
  }

  lemma {:induction false} TotalGrows(before: seq<seq<int>>, after: seq<seq<int>>, edges: seq<Edge>, nn: seq<int>, ids: seq<nat>, n: nat)
    requires EdgesIn(edges, |nn|)
    requires n <= |before| == |after| == |nn|
    requires forall v :: 0 <= v < |nn| ==> multiset(after[v]) == multiset(before[v]) + Owned(edges, nn, ids, v)
    ensures Total(after, n) == Total(before, n) + OwnedCount(edges, nn, ids, n)
  {
    if n > 0 {
      TotalGrows(before, after, edges, nn, ids, n - 1);
      assert |multiset(after[n - 1])| == |after[n - 1]| && |multiset(before[n - 1])| == |before[n - 1]|;
    }
  }

  /**
   * Arrays.copyOf to one more entry, x stored in the new last entry, and
   * Arrays.sort, on an ascending array: the sort moves x down past the larger
   * entries, one swap at a time.
   */
  method AppendSorted(s: seq<int>, x: int) returns (r: seq<int>)
    requires Ascending(s)
    ensures Ascending(r) && multiset(r) == multiset(s) + multiset{x}
  {
    var a := new int[|s| + 1](k requires 0 <= k <= |s| => if k < |s| then s[k] else x);
    var j := |s|;
    while j > 0 && a[j - 1] > a[j]
      invariant 0 <= j <= |s|
      invariant forall m :: 0 <= m < j ==> a[m] == s[m]
      invariant a[j] == x
      invariant forall m :: j <= m < |s| ==> a[m + 1] == s[m] && x < s[m]
    {
      a[j - 1], a[j] := a[j], a[j - 1];
      j := j - 1;
    }
    r := a[..];
    InsertAt(s, x, j, r);
  }

  /** r is s with x placed after the entries not above it and before the larger ones. */
  lemma InsertAt(s: seq<int>, x: int, j: nat, r: seq<int>)
    requires Ascending(s) && j <= |s|
    requires j == 0 || s[j - 1] <= x
    requires forall m :: j <= m < |s| ==> x < s[m]
    requires |r| == |s| + 1 && r[j] == x
    requires forall m :: 0 <= m < j ==> r[m] == s[m]
    requires forall m :: j <= m < |s| ==> r[m + 1] == s[m]
    ensures Ascending(r) && multiset(r) == multiset(s) + multiset{x}
  {
    InsertAtAscending(s, x, j, r);
    InsertAtMultiset(s, x, j, r);
  }

  lemma InsertAtMultiset(s: seq<int>, x: int, j: nat, r: seq<int>)
    requires j <= |s| && |r| == |s| + 1 && r[j] == x
    requires forall m :: 0 <= m < j ==> r[m] == s[m]
    requires forall m :: j <= m < |s| ==> r[m + 1] == s[m]
    ensures multiset(r) == multiset(s) + multiset{x}
  {
    var front, back := s[..j], s[j..];
    assert r[..j] == front;
    assert r[j + 1..] == back;
    assert r == front + [x] + back;
    assert s == front + back;
    calc {
      multiset(r);
      multiset(front + [x] + back);
      multiset(front) + multiset{x} + multiset(back);
      multiset(front + back) + multiset{x};
    }
  }

  lemma InsertAtAscending(s: seq<int>, x: int, j: nat, r: seq<int>)
    requires Ascending(s) && j <= |s|
    requires j == 0 || s[j - 1] <= x
    requires forall m :: j <= m < |s| ==> x < s[m]
    requires |r| == |s| + 1 && r[j] == x
    requires forall m :: 0 <= m < j ==> r[m] == s[m]
    requires forall m :: j <= m < |s| ==> r[m + 1] == s[m]
    ensures Ascending(r)
  {
    forall a, b | 0 <= a < b < |r|
      ensures r[a] <= r[b]
    {
      if b < j {
        assert r[a] == s[a] && r[b] == s[b];
      } else if a > j {
        assert r[a] == s[a - 1] && r[b] == s[b - 1];
      } else if a == j {
        assert r[b] == s[b - 1];
      } else if b == j {
        assert r[a] == s[a] <= s[j - 1];
      } else {
        assert r[a] == s[a] && r[b] == s[b - 1];
      }
    }
  }

  predicate NeighboursIn(s: seq<int>, n: nat)
  {
    forall y :: y in s ==> 0 <= y < n
  }

  lemma GrownIn(s: seq<int>, r: seq<int>, x: int, n: nat)
    requires multiset(r) == multiset(s) + multiset{x} && NeighboursIn(s, n) && 0 <= x < n
    ensures NeighboursIn(r, n)
  {
    forall y | y in r
      ensures 0 <= y < n
    {
      assert y in multiset(r);
      assert y in multiset(s) || y == x;
      if y != x {
        assert y in s;
      }
    }
  }

  /** The edge structure: lists and degrees agree with the edge records. */
  ghost predicate WellFormed(n: nat, edges: seq<Edge>, edges1: seq<seq<nat>>, edges2: seq<seq<nat>>, nn: seq<int>)
  {
    |edges1| == n && |edges2| == n && |nn| == n && EdgesIn(edges, n) &&
    (forall v :: 0 <= v < n ==> edges1[v] == Firsts(edges, v) && edges2[v] == Seconds(edges, v)) &&
    (forall v :: 0 <= v < n ==> nn[v] == Degree(edges, v))
  }

  /** Every ordered neighbour array is ascending and holds vertices. */
  predicate OrderedIn(ordered: seq<seq<int>>, n: nat)
  {
    |ordered| == n && forall v :: 0 <= v < n ==> Ascending(ordered[v]) && NeighboursIn(ordered[v], n)
  }

  /** No two edge records join the same two vertices. */
  ghost predicate Simple(edges: seq<Edge>)
  {
    forall a, b :: 0 <= a < b < |edges| ==> edges[a] != edges[b]
  }

  /** A vertex is not given u by edges none of which it owns with u as the other end. */
  lemma {:induction false} OwnedAbsent(edges: seq<Edge>, nn: seq<int>, ids: seq<nat>, v: nat, u: int)
    requires EdgesIn(edges, |nn|) && forall k :: 0 <= k < |ids| ==> ids[k] < |edges|
    requires forall k :: 0 <= k < |ids| ==> Owner(edges[ids[k]], nn) != v || Other(edges[ids[k]], nn) != u
    ensures u !in Owned(edges, nn, ids, v)
    decreases |ids|
  {
    if ids != [] {
      OwnedAbsent(edges, nn, ids[..|ids| - 1], v, u);
    }
  }

  /** Two different edges differ in their owner or in their other endpoint. */
  lemma DifferentEnds(e1: Edge, e2: Edge, nn: seq<int>)
    requires e1.vertex1 < e1.vertex2 < |nn| && e2.vertex1 < e2.vertex2 < |nn| && e1 != e2
    ensures Owner(e1, nn) != Owner(e2, nn) || Other(e1, nn) != Other(e2, nn)
  {
  }

  /** In a simple graph, edges visited at most once give each neighbour at most once. */
  lemma {:induction false} OwnedOnce(edges: seq<Edge>, nn: seq<int>, ids: seq<nat>, v: nat, u: int)
    requires EdgesIn(edges, |nn|) && Simple(edges) && forall k :: 0 <= k < |ids| ==> ids[k] < |edges|
    requires forall id: nat :: multiset(ids)[id] <= 1
    ensures Owned(edges, nn, ids, v)[u] <= 1
    decreases |ids|
  {
    if ids != [] {
      var init, id := ids[..|ids| - 1], ids[|ids| - 1];
      assert ids == init + [id];
      assert forall x: nat :: multiset(init)[x] <= multiset(ids)[x];
      OwnedOnce(edges, nn, init, v, u);
      var e := edges[id];
      if Owner(e, nn) == v && Other(e, nn) == u {
        assert multiset(ids)[id] == multiset(init)[id] + 1;
        assert id !in init;
        forall k | 0 <= k < |init|
          ensures Owner(edges[init[k]], nn) != v || Other(edges[init[k]], nn) != u
        {
          assert init[k] != id;
          DifferentEnds(edges[init[k]], e, nn);
        }
        OwnedAbsent(edges, nn, init, v, u);
      }
    }
  }

  /** An ascending array that holds no value twice is strictly ascending. */
  lemma StrictWhenOnce(s: seq<int>)
    requires Ascending(s) && forall y :: multiset(s)[y] <= 1
    ensures StrictlyAscending(s)
  {
    forall i, j | 0 <= i < j < |s|
      ensures s[i] < s[j]
    {
      assert s == s[..j] + s[j..];
      assert s[i] in s[..j] && s[j] in s[j..];
      assert multiset(s)[s[i]] == multiset(s[..j])[s[i]] + multiset(s[j..])[s[i]];
    }
  }

  /**
   * Filled from empty arrays, the ordered neighbours of a simple graph hold
   * no vertex twice, so they are strictly ascending.
   */
  lemma PopulatedStrict(ordered: seq<seq<int>>, edges: seq<Edge>, nn: seq<int>)
    requires EdgesIn(edges, |nn|) && Simple(edges) && OrderedIn(ordered, |nn|)
    requires forall v :: 0 <= v < |nn| ==> multiset(ordered[v]) == Owned(edges, nn, Visits(edges, |nn|), v)
    ensures forall v :: 0 <= v < |nn| ==> StrictlyAscending(ordered[v])
  {
    VisitsAll(edges, |nn|);
    VisitsIn(edges, |nn|);
    forall v | 0 <= v < |nn|
      ensures StrictlyAscending(ordered[v])
    {
      forall y
        ensures multiset(ordered[v])[y] <= 1
      {
        OwnedOnce(edges, nn, Visits(edges, |nn|), v, y);
      }
      StrictWhenOnce(ordered[v]);
    }
  }

  // ---------------------------------------------------------------------
  // Intersections

  /** How many entries of xs (counted by position) occur in ys. */
  function CommonCount(xs: seq<int>, ys: seq<int>): (c: nat)
    ensures c <= |xs|
    decreases |xs|
  {
    if xs == [] then 0 else CommonCount(xs[..|xs| - 1], ys) + (if xs[|xs| - 1] in ys then 1 else 0)
  }

  /** The values two arrays share. */
  ghost function Common(xs: seq<int>, ys: seq<int>): set<int>
  {
    set x | x in xs && x in ys
  }

  /** On an array without repeats, the count is the size of the intersection. */
  lemma {:induction false} CommonCountDistinct(xs: seq<int>, ys: seq<int>)
    requires StrictlyAscending(xs)
    ensures CommonCount(xs, ys) == |Common(xs, ys)|
    decreases |xs|
  {
    if xs == [] {
      assert Common(xs, ys) == {};
    } else {
      var init, last := xs[..|xs| - 1], xs[|xs| - 1];
      CommonCountDistinct(init, ys);
      assert last !in init by {
        assert forall k :: 0 <= k < |init| ==> init[k] == xs[k] < last;
      }
      CommonSnoc(init, last, ys);
      assert xs == init + [last];
    }
  }

  /** A new value adds itself to the intersection exactly when the other array holds it. */
  lemma CommonSnoc(init: seq<int>, last: int, ys: seq<int>)
    requires last !in init
    ensures |Common(init + [last], ys)| == |Common(init, ys)| + (if last in ys then 1 else 0)
  {
    if last in ys {
      assert Common(init + [last], ys) == Common(init, ys) + {last};
    } else {
      assert Common(init + [last], ys) == Common(init, ys);
    }
  }

  /** Both orders of the arguments give the same intersection. */
  lemma CommonSymmetric(xs: seq<int>, ys: seq<int>)
    requires StrictlyAscending(xs) && StrictlyAscending(ys)
    ensures CommonCount(xs, ys) == CommonCount(ys, xs) == |Common(xs, ys)|
  {
    CommonCountDistinct(xs, ys);
    CommonCountDistinct(ys, xs);
    assert Common(xs, ys) == Common(ys, xs);
  }

  /** One more entry of xs adds one to the count exactly when it occurs in ys. */
  lemma CountNext(xs: seq<int>, i: nat, ys: seq<int>)
    requires i < |xs|
    ensures CommonCount(xs[..i + 1], ys) == CommonCount(xs[..i], ys) + (if xs[i] in ys then 1 else 0)
  {
    assert xs[..i + 1][..i] == xs[..i];
  }

  /** The first branch of intersectionSize: one pass, pos carried from one entry of a to the next. */
  method CountMerging(a: array<int>, b: array<int>) returns (cnt: nat)
    requires Ascending(a[..]) && Ascending(b[..])
    ensures cnt == CommonCount(a[..], b[..])
  {
    cnt := 0;
    var pos := 0;
    for i := 0 to a.Length
      invariant pos <= b.Length
      invariant cnt == CommonCount(a[..i], b[..])
      invariant forall k, m :: 0 <= k < pos && i <= m < a.Length ==> b[k] < a[m]
    {
      ghost var found := false;
      while pos < b.Length && b[pos] <= a[i]
        invariant pos <= b.Length
        invariant forall k :: 0 <= k < pos ==> b[k] < a[i]
      {
        if b[pos] == a[i] {
          cnt := cnt + 1;
          found := true;
          break;
        }
        pos := pos + 1;
      }
      CountNext(a[..], i, b[..]);
      if !found {
        assert forall k :: 0 <= k < b.Length ==> b[k] != a[i] by {
          assert forall k :: pos <= k < b.Length ==> b[pos] <= b[k];
        }
      }
    }
    assert a[..a.Length] == a[..];
  }

  /** The other branch of intersectionSize: for each entry of b, a scan of a from its start. */
  method CountScanning(a: array<int>, b: array<int>) returns (cnt: nat)
    requires Ascending(a[..])
    ensures cnt == CommonCount(b[..], a[..])
  {
    cnt := 0;
    for i := 0 to b.Length
      invariant cnt == CommonCount(b[..i], a[..])
    {
      var pos := 0;
      ghost var found := false;
      while pos < a.Length && a[pos] <= b[i]
        invariant pos <= a.Length
        invariant forall k :: 0 <= k < pos ==> a[k] < b[i]
      {
        if a[pos] == b[i] {
          cnt := cnt + 1;
          found := true;
          break;
        }
        pos := pos + 1;
      }
      CountNext(b[..], i, a[..]);
      if !found {
        assert forall k :: 0 <= k < a.Length ==> a[k] != b[i] by {
          assert forall k :: pos <= k < a.Length ==> a[pos] <= a[k];
        }
      }
    }
    assert b[..b.Length] == b[..];
  }

  /** The sum, over the first j ordered neighbours w of i, of how many ordered neighbours i and w share. */
  ghost function RowSum(ordered: seq<seq<int>>, i: nat, j: nat): nat
    requires OrderedIn(ordered, |ordered|) && i < |ordered| && j <= |ordered[i]|
  {
    if j == 0 then 0
    else
      var w := ordered[i][j - 1];
      assert w in ordered[i];
      RowSum(ordered, i, j - 1) + |Common(ordered[i], ordered[w])|
  }

  /** The same sum over the vertices below n. */
  ghost function CommonSum(ordered: seq<seq<int>>, n: nat): nat
    requires OrderedIn(ordered, |ordered|) && n <= |ordered|
  {
    if n == 0 then 0 else CommonSum(ordered, n - 1) + RowSum(ordered, n - 1, |ordered[n - 1]|)
  }

  lemma Prefixes(a: seq<nat>, t: seq<nat>, k: nat)
    requires k <= |t|
    ensures a + t[..0] == a && a + t[..|t|] == a + t
    ensures k < |t| ==> a + t[..k + 1] == (a + t[..k]) + [t[k]]
  {
    assert t[..0] == [] && t[..|t|] == t;
    if k < |t| {
      assert t[..k + 1] == t[..k] + [t[k]];
    }
  }

  function Min(a: nat, b: nat): nat { if a <= b then a else b }
  function Max(a: nat, b: nat): nat { if a <= b then b else a }

  class UndirectedGraph {
    /** The number of vertices, g.length. */
    var size: nat
    /** Every EdgeNode, in the order the nodes were created. */
    var edges: seq<Edge>
    /** edges1[v]: the list g[v].edges1 (linked by next1), head first. */
    var edges1: seq<seq<nat>>
    /** edges2[v]: the list g[v].edges2 (linked by next2), head first. */
    var edges2: seq<seq<nat>>
    var numNeighbors: seq<int>
    var orderedNeighbors: seq<seq<int>>

    ghost predicate Valid()
      reads this
    {
      WellFormed(size, edges, edges1, edges2, numNeighbors) && OrderedIn(orderedNeighbors, size)
    }

    /** A graph of n vertices and no edges. */
    constructor(n: nat)
      ensures Valid() && size == n && edges == []
      ensures numNeighbors == seq(n, _ => 0) && orderedNeighbors == seq(n, _ => [])
    {
      size := n;
      edges := [];
      edges1 := seq(n, _ => []);
      edges2 := seq(n, _ => []);
      numNeighbors := seq(n, _ => 0);
      orderedNeighbors := seq(n, _ => []);
    }

    /**
     * Adds the edge {v1, v2}: one new node (lower endpoint first), put at
     * the head of the edges1 list of the lower endpoint and of the edges2
     * list of the higher one, and one more neighbour for each endpoint.
     */
    method AddEdge(v1: nat, v2: nat)
      requires Valid() && v1 < size && v2 < size && v1 != v2
      modifies this
      ensures Valid() && size == old(size) && orderedNeighbors == old(orderedNeighbors)
      ensures edges == old(edges) + [Edge(Min(v1, v2), Max(v1, v2))]
      ensures numNeighbors == old(numNeighbors)[v1 := old(numNeighbors)[v1] + 1][v2 := old(numNeighbors)[v2] + 1]
      ensures edges1 == old(edges1)[Min(v1, v2) := [|old(edges)|] + old(edges1)[Min(v1, v2)]]
      ensures edges2 == old(edges2)[Max(v1, v2) := [|old(edges)|] + old(edges2)[Max(v1, v2)]]
      decreases if v1 > v2 then 1 else 0
    {
      if v1 > v2 {
        AddEdge(v2, v1);
      } else {
        var tempE1, tempE2 := edges1[v1], edges2[v2];
        var id := |edges|;
        ghost var before := edges;
        edges := edges + [Edge(v1, v2)];
        numNeighbors := numNeighbors[v1 := numNeighbors[v1] + 1][v2 := numNeighbors[v2] + 1];
        edges1 := edges1[v1 := [id] + tempE1];
        edges2 := edges2[v2 := [id] + tempE2];
        forall v | 0 <= v < size
          ensures edges1[v] == Firsts(edges, v) && edges2[v] == Seconds(edges, v)
          ensures numNeighbors[v] == Degree(edges, v)
        {
          FirstsSnoc(before, Edge(v1, v2), v);
        }
      }
    }

    /** The ordered neighbours now hold, besides those of start, the ones the edges ids give. */
    ghost predicate Gave(start: seq<seq<int>>, ids: seq<nat>)
      reads this
    {
      Valid() && |start| == size &&
      forall v :: 0 <= v < size ==>
        multiset(orderedNeighbors[v]) == multiset(start[v]) + Owned(edges, numNeighbors, ids, v)
    }

    /** One step of populateOrderedNeighbors: the edge id, met on the edges1 list of i. */
    method GiveEdge(ghost start: seq<seq<int>>, ghost ids: seq<nat>, i: nat, id: nat)
      requires Gave(start, ids) && id < |edges| && i < size && edges[id].vertex1 == i
      modifies this
      ensures Gave(start, ids + [id])
      ensures size == old(size) && edges == old(edges) && edges1 == old(edges1) && edges2 == old(edges2)
      ensures numNeighbors == old(numNeighbors)
    {
      var v1 := i;
      var v2 := edges[id].vertex2;
      if numNeighbors[v1] < numNeighbors[v2] || (numNeighbors[v1] == numNeighbors[v2] && v1 < v2) {
        Give(v1, v2);
      } else {
        Give(v2, v1);
      }
      forall v | 0 <= v < size
        ensures multiset(orderedNeighbors[v]) == multiset(start[v]) + Owned(edges, numNeighbors, ids + [id], v)
      {
        OwnedSnoc(edges, numNeighbors, ids, id, v);
      }
    }

    /** Grows the ordered neighbours of v by x, re-sorted. */
    method Give(v: nat, x: nat)
      requires Valid() && v < size && x < size
      modifies this
      ensures Valid()
      ensures size == old(size) && edges == old(edges) && edges1 == old(edges1) && edges2 == old(edges2)
      ensures numNeighbors == old(numNeighbors)
      ensures forall w :: 0 <= w < size ==>
        multiset(orderedNeighbors[w]) == multiset(old(orderedNeighbors)[w]) + (if w == v then multiset{x} else multiset{})
    {
      var grown := AppendSorted(orderedNeighbors[v], x);
      GrownIn(orderedNeighbors[v], grown, x, size);
      orderedNeighbors := orderedNeighbors[v := grown];
    }

    /** The inner loop of populateOrderedNeighbors: every edge on the edges1 list of i, from its head. */
    method GiveList(ghost start: seq<seq<int>>, i: nat)
      requires i < size && Gave(start, Visits(edges, i))
      modifies this
      ensures Gave(start, Visits(edges, i + 1))
      ensures size == old(size) && edges == old(edges) && edges1 == old(edges1) && edges2 == old(edges2)
      ensures numNeighbors == old(numNeighbors)
    {
      ghost var visited := Visits(edges, i);
      var temp := edges1[i];
      FirstsIn(edges, i);
      var k := 0;
      Prefixes(visited, temp, 0);
      while k < |temp|
        invariant k <= |temp|
        invariant Gave(start, visited + temp[..k])
        invariant size == old(size) && edges == old(edges) && edges1 == old(edges1) && edges2 == old(edges2)
        invariant numNeighbors == old(numNeighbors)
      {
        GiveEdge(start, visited + temp[..k], i, temp[k]);
        Prefixes(visited, temp, k);
        k := k + 1;
      }
      Prefixes(visited, temp, k);
    }

    /**
     * Gives every edge to one endpoint's ordered neighbours (see Owner),
     * keeping each array ascending; nothing else changes.
     */
    method PopulateOrderedNeighbors()
      requires Valid()
      modifies this
      ensures Valid()
      ensures size == old(size) && edges == old(edges) && edges1 == old(edges1) && edges2 == old(edges2)
      ensures numNeighbors == old(numNeighbors)
      ensures forall v :: 0 <= v < size ==>
        multiset(orderedNeighbors[v]) == multiset(old(orderedNeighbors)[v]) + Owned(edges, numNeighbors, Visits(edges, size), v)
      ensures Total(orderedNeighbors, size) == Total(old(orderedNeighbors), size) + |edges|
      ensures Simple(edges) && (forall v :: 0 <= v < size ==> old(orderedNeighbors)[v] == []) ==>
        forall v :: 0 <= v < size ==> StrictlyAscending(orderedNeighbors[v])
    {
      ghost var start := orderedNeighbors;
      for i := 0 to size
        invariant Gave(start, Visits(edges, i))
        invariant size == old(size) && edges == old(edges) && edges1 == old(edges1) && edges2 == old(edges2)
        invariant numNeighbors == old(numNeighbors)
      {
        GiveList(start, i);
      }
      VisitsAll(edges, size);
      VisitsIn(edges, size);
      OwnedTotal(edges, numNeighbors, Visits(edges, size));
      TotalGrows(start, orderedNeighbors, edges, numNeighbors, Visits(edges, size), size);
      if Simple(edges) && forall v :: 0 <= v < size ==> start[v] == [] {
        forall v | 0 <= v < size
          ensures multiset(orderedNeighbors[v]) == Owned(edges, numNeighbors, Visits(edges, size), v)
        {
          assert multiset(start[v]) == multiset{};
        }
        PopulatedStrict(orderedNeighbors, edges, numNeighbors);
      }
    }

    /**
     * How many ordered neighbours v1 and v2 share, by a merge over copies
     * of their ascending arrays; nothing is modified.
     */
    method IntersectionSize(v1: nat, v2: nat) returns (intCnt: nat)
      requires Valid() && v1 < size && v2 < size
      ensures intCnt <= |orderedNeighbors[v1]| && intCnt <= |orderedNeighbors[v2]|
      ensures StrictlyAscending(orderedNeighbors[v1]) && StrictlyAscending(orderedNeighbors[v2]) ==>
        intCnt == |Common(orderedNeighbors[v1], orderedNeighbors[v2])|
    {
      var s1, s2 := orderedNeighbors[v1], orderedNeighbors[v2];
      var v1ordered := new int[|s1|](k requires 0 <= k < |s1| => s1[k]);
      var v2ordered := new int[|s2|](k requires 0 <= k < |s2| => s2[k]);
      assert v1ordered[..] == s1 && v2ordered[..] == s2;
      if v1ordered.Length <= v2ordered.Length {
        intCnt := CountMerging(v1ordered, v2ordered);
      } else {
        intCnt := CountScanning(v1ordered, v2ordered);
      }
      if StrictlyAscending(s1) && StrictlyAscending(s2) {
        CommonSymmetric(s1, s2);
      }
    }

    /** The sum, over every vertex i and each of its ordered neighbours w, of the intersection of the two arrays. */
    method CountTriangles() returns (triangles: nat)
      requires Valid()
      ensures (forall v :: 0 <= v < size ==> StrictlyAscending(orderedNeighbors[v])) ==>
        triangles == CommonSum(orderedNeighbors, size)
    {
      ghost var strict := forall v :: 0 <= v < size ==> StrictlyAscending(orderedNeighbors[v]);
      triangles := 0;
      for i := 0 to size
        invariant strict ==> triangles == CommonSum(orderedNeighbors, i)
      {
        var orderedVi := orderedNeighbors[i];
        for j := 0 to |orderedVi|
          invariant strict ==> triangles == CommonSum(orderedNeighbors, i) + RowSum(orderedNeighbors, i, j)
        {
          assert orderedVi[j] in orderedVi;
          var c := IntersectionSize(i, orderedVi[j]);
          triangles := triangles + c;
        }
      }
    }
  }
}
