/**
 * TopologicalSort: a directed graph as a list of named vertices, each with
 * a list of outgoing edges and an indegree counter, sorted by repeatedly
 * emitting the first remaining vertex whose indegree has dropped to 0.
 * The vertex list and the edge lists are sequences; a vertex is referred
 * to by its position in the vertex list, an edge record by the position of
 * its target vertex.
 */
module TopoSort {
  import opened Options

  // ---------------------------------------------------------------------
  // Counting edges

  /** The number of edge records into w whose source is not in done. */
  ghost function Into(edges: seq<seq<nat>>, w: nat, done: set<nat>): nat
    decreases |edges|
  {
    if edges == [] then 0
    else
      var u := |edges| - 1;
      Into(edges[..u], w, done) + (if u in done then 0 else multiset(edges[u])[w])
  }

  /** A vertex added with an empty edge list adds no edges. */
  lemma IntoSnoc(edges: seq<seq<nat>>, w: nat, done: set<nat>)
    ensures Into(edges + [[]], w, done) == Into(edges, w, done)
  {
    assert (edges + [[]])[..|edges|] == edges;
  }

  /** An edge record v1 -> v2 adds one to the count of v2 and nothing elsewhere. */
  lemma {:induction false} IntoAddEdge(edges: seq<seq<nat>>, v1: nat, v2: nat, w: nat)
    requires v1 < |edges|
    ensures Into(edges[v1 := edges[v1] + [v2]], w, {}) == Into(edges, w, {}) + (if w == v2 then 1 else 0)
    decreases |edges|
  {
    var e' := edges[v1 := edges[v1] + [v2]];
    var u := |edges| - 1;
    if v1 < u {
      assert e'[..u] == edges[..u][v1 := edges[..u][v1] + [v2]];
      IntoAddEdge(edges[..u], v1, v2, w);
    } else {
      assert e'[..u] == edges[..u];
    }
  }

  /** Marking t done removes the edges out of t from every count. */
  lemma {:induction false} IntoDone(edges: seq<seq<nat>>, w: nat, done: set<nat>, t: nat)
    requires t < |edges| && t !in done
    ensures Into(edges, w, done + {t}) == Into(edges, w, done) - multiset(edges[t])[w]
    ensures Into(edges, w, done) >= multiset(edges[t])[w]
    decreases |edges|
  {
    var u := |edges| - 1;
    if t < u {
      IntoDone(edges[..u], w, done, t);
      assert edges[..u][t] == edges[t];
    } else {
      IntoSame(edges[..u], w, done, t);
    }
  }

  /** Marking done a vertex beyond the list changes no count. */
  lemma {:induction false} IntoSame(edges: seq<seq<nat>>, w: nat, done: set<nat>, t: nat)
    requires t >= |edges|
    ensures Into(edges, w, done + {t}) == Into(edges, w, done)
    decreases |edges|
  {
    if edges != [] {
      IntoSame(edges[..|edges| - 1], w, done, t);
    }
  }

  /** A count of 0 means that no remaining source has an edge into w. */
  lemma {:induction false} IntoZero(edges: seq<seq<nat>>, w: nat, done: set<nat>, u: nat)
    requires Into(edges, w, done) == 0 && u < |edges| && u !in done
    ensures w !in edges[u]
    decreases |edges|
  {
    var last := |edges| - 1;
    if u < last {
      IntoZero(edges[..last], w, done, u);
      assert edges[..last][u] == edges[u];
    } else {
      assert multiset(edges[u])[w] == 0;
    }
  }

  /** A positive count names a remaining source with an edge into w. */
  lemma {:induction false} IntoPositive(edges: seq<seq<nat>>, w: nat, done: set<nat>) returns (u: nat)
    requires Into(edges, w, done) > 0
    ensures u < |edges| && u !in done && w in edges[u]
    decreases |edges|
  {
    var last := |edges| - 1;
    if last !in done && multiset(edges[last])[w] > 0 {
      u := last;
    } else {
      u := IntoPositive(edges[..last], w, done);
      assert edges[..last][u] == edges[u];
    }
  }

  // ---------------------------------------------------------------------
  // The emitted order

  /** The first position of n in names. */
  ghost function FirstIndex(names: seq<string>, n: string): (i: nat)
    requires n in names
    ensures i < |names| && names[i] == n && n !in names[..i]
  {
    if names[0] == n then 0
    else
      var i := 1 + FirstIndex(names[1..], n);
      assert names[..i] == [names[0]] + names[1..][..i - 1];
      i
  }

  /** The text topoSort builds: each emitted name followed by one blank. */
  function Emitted(names: seq<string>, order: seq<nat>): string
    requires forall k :: 0 <= k < |order| ==> order[k] < |names|
    decreases |order|
  {
    if order == [] then ""
    else Emitted(names, order[..|order| - 1]) + names[order[|order| - 1]] + " "
  }

  predicate Distinct(order: seq<nat>)
  {
    forall p, q :: 0 <= p < q < |order| ==> order[p] != order[q]
  }

  /** Every source of an edge into an emitted vertex is emitted before it. */
  ghost predicate Respects(edges: seq<seq<nat>>, order: seq<nat>)
  {
    forall p, u :: 0 <= p < |order| && 0 <= u < |edges| && order[p] in edges[u] ==> u in order[..p]
  }

  /**
   * String.length(): the number of UTF-16 code units, one for a character
   * up to U+FFFF and two (a surrogate pair) for any character beyond.
   */
  function Utf16Length(s: string): (n: nat)
    ensures |s| <= n <= 2 * |s|
    decreases |s|
  {
    if s == [] then 0 else Utf16Length(s[..|s| - 1]) + (if s[|s| - 1] as int > 0xFFFF then 2 else 1)
  }

  lemma {:induction false} Utf16LengthAppend(a: string, b: string)
    ensures Utf16Length(a + b) == Utf16Length(a) + Utf16Length(b)
    decreases |b|
  {
    if b == [] {
      assert a + b == a;
    } else {
      assert (a + b)[..|a + b| - 1] == a + b[..|b| - 1];
      Utf16LengthAppend(a, b[..|b| - 1]);
    }
  }

  /** A name has length() 1 exactly when it is one character of the Basic Multilingual Plane. */
  lemma Utf16LengthOne(s: string)
    ensures Utf16Length(s) == 1 <==> |s| == 1 && s[0] as int <= 0xFFFF
  {
    if |s| == 1 {
      assert s[..0] == [];
    }
  }

  /** A name of length() 1 per vertex gives a text of length() two per emitted vertex. */
  lemma {:induction false} EmittedLength(names: seq<string>, order: seq<nat>)
    requires forall k :: 0 <= k < |order| ==> order[k] < |names|
    requires forall v :: 0 <= v < |names| ==> Utf16Length(names[v]) == 1
    ensures Utf16Length(Emitted(names, order)) == 2 * |order|
    decreases |order|
  {
    if order != [] {
      var init := order[..|order| - 1];
      EmittedLength(names, init);
      Utf16LengthAppend(Emitted(names, init), names[order[|order| - 1]]);
      Utf16LengthAppend(Emitted(names, init) + names[order[|order| - 1]], " ");
      assert Utf16Length(" ") == 1 by {
        assert " "[..0] == "";
      }
    }
  }

  /**
   * The completeness test of topoSort: when every name has length() 1, the
   * text has length() two per vertex exactly when every vertex was emitted.
   */
  lemma CompleteText(names: seq<string>, order: seq<nat>)
    requires Distinct(order) && forall k :: 0 <= k < |order| ==> order[k] < |names|
    requires forall v :: 0 <= v < |names| ==> Utf16Length(names[v]) == 1
    ensures Utf16Length(Emitted(names, order)) == 2 * |names| <==> forall v :: 0 <= v < |names| ==> v in order
  {
    EmittedLength(names, order);
    DistinctAll(order, |names|);
  }

  /** A one-character name beyond U+FFFF counts two: its text "\U{1F600} " has length() 3. */
  lemma AstralName()
    ensures Utf16Length("\U{1F600}") == 2 && Utf16Length("\U{1F600} ") == 3
  {
    assert "\U{1F600} "[..1] == "\U{1F600}";
    assert "\U{1F600}"[..0] == "";
  }

  /** The vertices of order, as a set. */
  function Elements(order: seq<nat>): (r: set<nat>)
    ensures forall x :: x in r <==> x in order
  {
    set x | x in order
  }

  /** The vertices 0 .. n - 1. */
  function Range(n: nat): (r: set<nat>)
    ensures |r| == n && forall x :: x in r <==> 0 <= x < n
  {
    if n == 0 then {}
    else
      var r := Range(n - 1);
      assert n - 1 !in r;
      r + {n - 1}
  }

  /** A sequence of distinct vertices below n has at most n elements, and n exactly when it holds all of them. */
  lemma DistinctAll(order: seq<nat>, n: nat)
    requires Distinct(order) && forall k :: 0 <= k < |order| ==> order[k] < n
    ensures |order| <= n
    ensures |order| == n <==> forall v :: 0 <= v < n ==> v in order
  {
    var s, all := Elements(order), Range(n);
    assert s <= all;
    DistinctSetSize(order);
    SubsetSize(s, all);
    if |order| == n {
      SubsetEqual(s, all);
      assert forall v :: 0 <= v < n ==> v in all;
    } else if forall v :: 0 <= v < n ==> v in order {
      assert all <= s;
      SubsetSize(all, s);
    }
  }

  /** A sequence without repetitions has as many elements as its set. */
  lemma {:induction false} DistinctSetSize(order: seq<nat>)
    requires Distinct(order)
    ensures |Elements(order)| == |order|
    decreases |order|
  {
    if order != [] {
      var init := order[..|order| - 1];
      var x := order[|order| - 1];
      DistinctSetSize(init);
      assert order == init + [x];
      assert Elements(order) == Elements(init) + {x};
      assert x !in init;
    }
  }

  lemma SubsetEqual(s: set<nat>, all: set<nat>)
    requires s <= all && |s| == |all|
    ensures s == all
  {
    if !(all <= s) {
      var x :| x in all && x !in s;
      assert s <= all - {x};
      SubsetSize(s, all - {x});
    }
  }

  lemma SubsetSize(a: set<nat>, b: set<nat>)
    requires a <= b
    ensures |a| <= |b|
  {
    assert b == a + (b - a);
  }

  // ---------------------------------------------------------------------
  // The graph

  class TopologicalSort {
    /** The vertex names in list order. */
    var names: seq<string>
    /** The targets of each vertex's edge list, in list order. */
    var edges: seq<seq<nat>>
    var indegree: seq<int>
    var numVertices: int

    /** Every list has one entry per vertex and every edge leads to a vertex. */
    ghost predicate Shape()
      reads this
    {
      && |names| == |edges| == |indegree| == numVertices
      && (forall u, k :: 0 <= u < |edges| && 0 <= k < |edges[u]| ==> edges[u][k] < numVertices)
    }

    /** Each indegree counts the edge records into its vertex, duplicates included. */
    ghost predicate Valid()
      reads this
    {
      Shape() && forall w :: 0 <= w < numVertices ==> indegree[w] == Into(edges, w, {})
    }

    /** An empty graph. */
    constructor ()
      ensures Valid() && names == [] && edges == []
    {
      names := [];
      edges := [];
      indegree := [];
      numVertices := 0;
    }

    /** Appends a vertex named s, with no edges and indegree 0, at the end of the vertex list. */
    method AddVertex(s: string)
      requires Valid()
      modifies this
      ensures Valid()
      ensures names == old(names) + [s] && edges == old(edges) + [[]]
      ensures indegree == old(indegree) + [0] && numVertices == old(numVertices) + 1
    {
      forall w | 0 <= w < numVertices + 1
        ensures Into(edges + [[]], w, {}) == if w < numVertices then indegree[w] else 0
      {
        IntoSnoc(edges, w, {});
        if w == numVertices {
          IntoAbsent(edges, w, {});
        }
      }
      names := names + [s];
      edges := edges + [[]];
      indegree := indegree + [0];
      numVertices := numVertices + 1;
    }

    /** The first vertex named n; n must be present. */
    method IndexOf(n: string) returns (i: nat)
      requires Shape() && n in names
      ensures i == FirstIndex(names, n)
    {
      i := 0;
      while names[i] != n
        invariant i < |names| && n !in names[..i] && n in names[i..]
        decreases |names| - i
      {
        assert names[..i + 1] == names[..i] + [names[i]];
        assert names[i..] == [names[i]] + names[i + 1..];
        i := i + 1;
      }
      FirstIndexUnique(names, n, i);
    }

    /**
     * Appends the edge (n1, n2) to the edge list of the first vertex named
     * n1 and raises the indegree of the first vertex named n2 by 1.
     */
    method AddEdge(n1: string, n2: string)
      requires Valid() && n1 in names && n2 in names
      modifies this
      ensures Valid() && names == old(names) && numVertices == old(numVertices)
      ensures var v1, v2 := FirstIndex(names, n1), FirstIndex(names, n2);
        && edges == old(edges)[v1 := old(edges)[v1] + [v2]]
        && indegree == old(indegree)[v2 := old(indegree)[v2] + 1]
    {
      var v1 := IndexOf(n1);
      var v2 := IndexOf(n2);
      ghost var edges', indegree' := edges[v1 := edges[v1] + [v2]], indegree[v2 := indegree[v2] + 1];
      forall w: nat | w < numVertices
        ensures Into(edges', w, {}) == indegree'[w]
      {
        IntoAddEdge(edges, v1, v2, w);
      }
      edges := edges[v1 := edges[v1] + [v2]];
      indegree := indegree[v2 := indegree[v2] + 1];
    }

    /** The vertices in list order, as an array of references; no slot is null. */
    method ToVertexArray() returns (a: array<Option<nat>>)
      requires Shape()
      ensures fresh(a) && a.Length == numVertices
      ensures forall i :: 0 <= i < a.Length ==> a[i] == Some(i)
    {
      a := new Option<nat>[numVertices](_ => None);
      var i := 0;
      while i < numVertices
        invariant 0 <= i <= numVertices
        invariant forall k :: 0 <= k < i ==> a[k] == Some(k)
      {
        a[i] := Some(i);
        i := i + 1;
      }
    }

    /** Slot i holds a vertex whose indegree is currently 0. */
    ghost predicate ZeroSlot(s: seq<Option<nat>>, i: int)
      reads this
    {
      0 <= i < |s| && s[i].Some? && s[i].value < |indegree| && indegree[s[i].value] == 0
    }

    /** The vertex of the first non-null slot with indegree 0, or None when there is none. */
    method Queue(a: array<Option<nat>>) returns (r: Option<nat>)
      requires Shape() && forall i :: 0 <= i < a.Length && a[i].Some? ==> a[i].value < numVertices
      ensures r.None? <==> forall i :: 0 <= i < a.Length ==> !ZeroSlot(a[..], i)
      ensures r.Some? ==> exists i :: ZeroSlot(a[..], i) && a[i] == r && forall k :: 0 <= k < i ==> !ZeroSlot(a[..], k)
    {
      var i := 0;
      while i < a.Length
        invariant 0 <= i <= a.Length
        invariant forall k :: 0 <= k < i ==> !ZeroSlot(a[..], k)
      {
        if a[i] != None && indegree[a[i].value] == 0 {
          assert ZeroSlot(a[..], i);
          return a[i];
        }
        i := i + 1;
      }
      return None;
    }

    /** Lowers by 1 the indegree of the target of each edge out of v (twice for a duplicate edge). */
    method UpdateAdjacentIndegrees(v: nat)
      requires Shape() && v < numVertices
      modifies this
      ensures names == old(names) && edges == old(edges) && numVertices == old(numVertices)
      ensures |indegree| == |old(indegree)|
      ensures forall w :: 0 <= w < |indegree| ==> indegree[w] == old(indegree[w]) - multiset(edges[v])[w]
    {
      var out := edges[v];
      var k := 0;
      while k < |out|
        invariant Shape() && names == old(names) && edges == old(edges) && numVertices == old(numVertices)
        invariant 0 <= k <= |out|
        invariant forall w :: 0 <= w < |indegree| ==> indegree[w] == old(indegree[w]) - multiset(out[..k])[w]
      {
        assert out[..k + 1] == out[..k] + [out[k]];
        indegree := indegree[out[k] := indegree[out[k]] - 1];
        k := k + 1;
      }
      assert out[..k] == out;
    }

    /** A copy of the indegrees in vertex order. */
    method InitIndegrees() returns (a: array<int>)
      requires Shape()
      ensures fresh(a) && a[..] == indegree
    {
      a := new int[numVertices];
      var i := 0;
      while i < numVertices
        invariant 0 <= i <= numVertices
        invariant forall k :: 0 <= k < i ==> a[k] == indegree[k]
      {
        a[i] := indegree[i];
        i := i + 1;
      }
    }

    /** Whether some vertex has indegree 0; without one there is a cycle (or no vertex at all). */
    method CheckInitialZero() returns (b: bool)
      requires Shape()
      ensures b <==> exists v :: 0 <= v < numVertices && indegree[v] == 0
    {
      var init := InitIndegrees();
      var i := 0;
      while i < init.Length
        invariant 0 <= i <= init.Length
        invariant forall k :: 0 <= k < i ==> init[k] != 0
      {
        if init[i] == 0 {
          assert indegree[i] == 0;
          return true;
        }
        i := i + 1;
      }
      return false;
    }

    /**
     * The kernel of the sort: how far the vertices emitted so far (order)
     * have lowered the indegrees and emptied the slots of a.
     */
    ghost predicate Progress(a: seq<Option<nat>>, order: seq<nat>)
      reads this
    {
      && Shape() && |a| == numVertices
      && Distinct(order) && (forall k :: 0 <= k < |order| ==> order[k] < numVertices)
      && (forall i :: 0 <= i < |a| ==> a[i] == if i in order then None else Some(i))
      && (forall w :: 0 <= w < numVertices ==> indegree[w] == Into(edges, w, Elements(order)))
      && Respects(edges, order)
    }

    /**
     * One round of topoSort's loop, the text aside: takes the vertex t of
     * the first slot with indegree 0, lowers the indegrees of its edge
     * targets and nulls its slot.
     */
    method EmitNext(a: array<Option<nat>>, ghost order: seq<nat>) returns (t: nat)
      requires Progress(a[..], order) && exists i :: ZeroSlot(a[..], i)
      modifies this, a
      ensures names == old(names) && edges == old(edges) && numVertices == old(numVertices)
      ensures t < numVertices && t !in order && Progress(a[..], order + [t])
    {
      ghost var i :| ZeroSlot(a[..], i);
      var temp := Queue(a);
      assert ZeroSlot(a[..], i) && 0 <= i < a.Length;
      assert temp.Some?;
      t := temp.value;
      ghost var done := Elements(order);
      EmitRespects(edges, order, t);
      UpdateAdjacentIndegrees(t);
      ClearVertex(a, t);
      forall w: nat | w < numVertices
        ensures indegree[w] == Into(edges, w, done + {t})
      {
        IntoDone(edges, w, done, t);
      }
      assert Elements(order + [t]) == done + {t};
    }

    /**
     * topoSort: None when no vertex starts at indegree 0, or when the text
     * does not have length() two per vertex; otherwise the emitted names, each
     * followed by a blank. order is the sequence of emitted vertices.
     */
    method TopoSort() returns (r: Option<string>, ghost order: seq<nat>)
      requires Valid()
      modifies this
      ensures names == old(names) && edges == old(edges) && numVertices == old(numVertices)
      ensures (forall v :: 0 <= v < numVertices ==> old(indegree[v]) != 0) ==> r.None?
      ensures Distinct(order) && (forall k :: 0 <= k < |order| ==> order[k] < numVertices)
      ensures Respects(edges, order)
      ensures forall w :: 0 <= w < numVertices && w !in order ==>
        exists u :: 0 <= u < numVertices && u !in order && w in edges[u]
      ensures r.Some? <==> (exists v :: 0 <= v < numVertices && old(indegree[v]) == 0) && Utf16Length(Emitted(names, order)) == 2 * numVertices
      ensures r.Some? ==> r.value == Emitted(names, order)
    {
      order := [];
      var start := CheckInitialZero();
      if !start {
        forall w | 0 <= w < numVertices && w !in order
          ensures exists u :: 0 <= u < numVertices && u !in order && w in edges[u]
        {
          var u := IntoPositive(edges, w, {});
        }
        return None, order;
      }
      var vertexNames := ToVertexArray();
      assert Elements(order) == {};
      var topo;
      topo, order := EmitAll(vertexNames);
      Blocked(vertexNames[..], order);
      if Utf16Length(topo) == numVertices * 2 {
        return Some(topo), order;
      }
      return None, order;
    }

    /** The loop of topoSort: emits vertices until no slot holds a vertex of indegree 0. */
    method EmitAll(vertexNames: array<Option<nat>>) returns (topo: string, ghost order: seq<nat>)
      requires Progress(vertexNames[..], [])
      modifies this, vertexNames
      ensures names == old(names) && edges == old(edges) && numVertices == old(numVertices)
      ensures Progress(vertexNames[..], order) && topo == Emitted(names, order)
      ensures forall i :: 0 <= i < vertexNames.Length ==> !ZeroSlot(vertexNames[..], i)
    {
      topo, order := "", [];
      var next := Queue(vertexNames);
      while next.Some?
        invariant Progress(vertexNames[..], order) && topo == Emitted(names, order)
        invariant names == old(names) && edges == old(edges) && numVertices == old(numVertices)
        invariant next.None? <==> forall i :: 0 <= i < vertexNames.Length ==> !ZeroSlot(vertexNames[..], i)
        decreases numVertices - |order|
      {
        var t := EmitNext(vertexNames, order);
        topo := topo + names[t] + " ";
        order := order + [t];
        DistinctAll(order, numVertices);
        next := Queue(vertexNames);
      }
    }

    /** When no slot holds a vertex of indegree 0, every vertex left has an unemitted predecessor. */
    lemma Blocked(a: seq<Option<nat>>, order: seq<nat>)
      requires Progress(a, order) && forall i :: 0 <= i < |a| ==> !ZeroSlot(a, i)
      ensures forall w :: 0 <= w < numVertices && w !in order ==>
        exists u :: 0 <= u < numVertices && u !in order && w in edges[u]
    {
      forall w | 0 <= w < numVertices && w !in order
        ensures exists u :: 0 <= u < numVertices && u !in order && w in edges[u]
      {
        assert !ZeroSlot(a, w);
        var u := Stuck(edges, indegree, a, order, w);
      }
    }
  }

  /** Sets to null every slot of a that holds t. */
  method ClearVertex(a: array<Option<nat>>, t: nat)
    modifies a
    ensures forall i :: 0 <= i < a.Length ==> a[i] == if old(a[i]) == Some(t) then None else old(a[i])
  {
    var i := 0;
    while i < a.Length
      invariant 0 <= i <= a.Length
      invariant forall k :: 0 <= k < i ==> a[k] == if old(a[k]) == Some(t) then None else old(a[k])
      invariant forall k :: i <= k < a.Length ==> a[k] == old(a[k])
    {
      if a[i] == Some(t) {
        a[i] := None;
      }
      i := i + 1;
    }
  }

  /** No edge leads to w, so nothing counts into it. */
  lemma {:induction false} IntoAbsent(edges: seq<seq<nat>>, w: nat, done: set<nat>)
    requires forall u, k :: 0 <= u < |edges| && 0 <= k < |edges[u]| ==> edges[u][k] != w
    ensures Into(edges, w, done) == 0
    decreases |edges|
  {
    if edges != [] {
      var last := |edges| - 1;
      assert w !in edges[last];
      IntoAbsent(edges[..last], w, done);
    }
  }

  lemma FirstIndexUnique(names: seq<string>, n: string, i: nat)
    requires i < |names| && names[i] == n && n !in names[..i]
    ensures i == FirstIndex(names, n)
  {
    var j := FirstIndex(names, n);
    assert forall k :: 0 <= k < i ==> names[..i][k] == names[k];
    assert forall k :: 0 <= k < j ==> names[..j][k] == names[k];
  }

  /** Emitting t, whose remaining indegree is 0, keeps every edge source before its target. */
  lemma EmitRespects(edges: seq<seq<nat>>, order: seq<nat>, t: nat)
    requires Respects(edges, order) && t !in order && Into(edges, t, Elements(order)) == 0
    ensures Respects(edges, order + [t])
  {
    var o := order + [t];
    forall p, u | 0 <= p < |o| && 0 <= u < |edges| && o[p] in edges[u]
      ensures u in o[..p]
    {
      if p < |order| {
        assert o[..p] == order[..p];
      } else {
        assert o[..p] == order;
        if u !in order {
          IntoZero(edges, t, Elements(order), u);
        }
      }
    }
  }

  /** When no slot holds a vertex of indegree 0, each remaining vertex has an edge from a remaining one. */
  lemma Stuck(edges: seq<seq<nat>>, indegree: seq<int>, a: seq<Option<nat>>, order: seq<nat>, w: nat) returns (u: nat)
    requires |a| == |edges| == |indegree| && w < |a| && w !in order
    requires a[w] == Some(w) && indegree[w] != 0
    requires indegree[w] == Into(edges, w, Elements(order))
    ensures u < |edges| && u !in order && w in edges[u]
  {
    u := IntoPositive(edges, w, Elements(order));
  }
}
