/**
 * SortedList: a singly linked list of ints kept in ascending order
 * (duplicates allowed), with sorted insert, remove-all, occurrence count,
 * size, toString and a constructor that merges two lists into fresh nodes.
 * The list is modelled with real Node objects; the ghost spine `Nodes` and
 * the ghost contents `Elems` say which nodes are reachable from `head` and
 * what they hold. Each operation is specified by a function on `Elems`.
 */
module SortedLists {
  import opened DecimalText

  // ---------------------------------------------------------------------
  // Specification on sequences

  predicate Ascending(s: seq<int>)
  {
    forall i, j :: 0 <= i < j < |s| ==> s[i] <= s[j]
  }

  /** Every element of s is at least h. */
  predicate AtLeast(h: int, s: seq<int>)
  {
    forall k :: 0 <= k < |s| ==> h <= s[k]
  }

  lemma AtLeastMultiset(h: int, s: seq<int>, t: seq<int>)
    requires multiset(s) == multiset(t) && AtLeast(h, t)
    ensures AtLeast(h, s)
  {
    forall k | 0 <= k < |s|
      ensures h <= s[k]
    {
      assert s[k] in multiset(t);
    }
  }

  lemma AscendingCons(h: int, r: seq<int>)
    requires Ascending(r) && AtLeast(h, r)
    ensures Ascending([h] + r)
  {
  }

  lemma AscendingTail(s: seq<int>)
    requires Ascending(s) && s != []
    ensures Ascending(s[1..]) && AtLeast(s[0], s[1..])
  {
  }

  /** s with x placed before the first element that is not smaller than x. */
  function InsertSorted(s: seq<int>, x: int): (r: seq<int>)
    ensures |r| == |s| + 1
  {
    if s == [] || x <= s[0] then [x] + s else [s[0]] + InsertSorted(s[1..], x)
  }

  /** Inserting keeps the order and adds exactly one copy of x. */
  lemma {:induction false} InsertSortedSpec(s: seq<int>, x: int)
    requires Ascending(s)
    ensures Ascending(InsertSorted(s, x))
    ensures multiset(InsertSorted(s, x)) == multiset(s) + multiset{x}
  {
    if s == [] || x <= s[0] {
      assert AtLeast(x, s);
      AscendingCons(x, s);
    } else {
      var t := s[1..];
      assert s == [s[0]] + t;
      AscendingTail(s);
      InsertSortedSpec(t, x);
      var r := InsertSorted(t, x);
      assert multiset(r) == multiset(t + [x]);
      assert AtLeast(s[0], t + [x]);
      AtLeastMultiset(s[0], r, t + [x]);
      AscendingCons(s[0], r);
    }
  }

  /** s without any element equal to x, the others in their order. */
  function Without(s: seq<int>, x: int): (r: seq<int>)
    ensures |r| <= |s|
  {
    if s == [] then [] else (if s[0] == x then [] else [s[0]]) + Without(s[1..], x)
  }

  lemma {:induction false} WithoutAppend(a: seq<int>, b: seq<int>, x: int)
    ensures Without(a + b, x) == Without(a, x) + Without(b, x)
  {
    if a != [] {
      assert (a + b)[1..] == a[1..] + b;
      WithoutAppend(a[1..], b, x);
    } else {
      assert a + b == b;
    }
  }

  /** Removing x removes every copy of x and nothing else. */
  lemma {:induction false} WithoutSpec(s: seq<int>, x: int)
    ensures multiset(Without(s, x)) == multiset(s)[x := 0]
    ensures |Without(s, x)| == |s| - multiset(s)[x]
  {
    if s != [] {
      WithoutSpec(s[1..], x);
      assert s == [s[0]] + s[1..];
    }
  }

  /** After removing x, an occurrence count of x finds none. */
  lemma RemoveThenFind(s: seq<int>, x: int)
    ensures multiset(Without(s, x))[x] == 0
    ensures forall y :: y != x ==> multiset(Without(s, x))[y] == multiset(s)[y]
  {
    WithoutSpec(s, x);
  }

  /** Removing from an ascending list leaves it ascending. */
  lemma {:induction false} WithoutAscending(s: seq<int>, x: int)
    requires Ascending(s)
    ensures Ascending(Without(s, x))
  {
    if s != [] {
      WithoutAscending(s[1..], x);
      var r := Without(s[1..], x);
      WithoutSpec(s[1..], x);
      forall k | 0 <= k < |r|
        ensures s[0] <= r[k]
      {
        assert r[k] in multiset(r);
        assert r[k] in multiset(s[1..]);
      }
    }
  }

  /** Removing an element that is not there changes nothing. */
  lemma {:induction false} WithoutAbsent(s: seq<int>, x: int)
    requires x !in s
    ensures Without(s, x) == s
  {
    if s != [] {
      assert s[1..] == s[1..] && x !in s[1..];
      WithoutAbsent(s[1..], x);
    }
  }

  /** The merge of two lists: the smaller head first, ties from the second list. */
  function Merge(a: seq<int>, b: seq<int>): (r: seq<int>)
    ensures |r| == |a| + |b|
    decreases |a| + |b|
  {
    if a == [] then b
    else if b == [] then a
    else if a[0] < b[0] then [a[0]] + Merge(a[1..], b)
    else [b[0]] + Merge(a, b[1..])
  }

  /** Merging holds every element of both lists, in ascending order. */
  lemma {:induction false} MergeSpec(a: seq<int>, b: seq<int>)
    requires Ascending(a) && Ascending(b)
    ensures Ascending(Merge(a, b))
    ensures multiset(Merge(a, b)) == multiset(a) + multiset(b)
    decreases |a| + |b|
  {
    if a != [] && b != [] {
      AscendingTail(a);
      AscendingTail(b);
      if a[0] < b[0] {
        MergeSpec(a[1..], b);
        assert a == [a[0]] + a[1..];
        MergeHead(a[0], a[1..], b, Merge(a[1..], b));
      } else {
        MergeSpec(a, b[1..]);
        assert b == [b[0]] + b[1..];
        MergeHead(b[0], b[1..], a, Merge(a, b[1..]));
        assert multiset(a) + multiset(b[1..]) == multiset(b[1..]) + multiset(a);
      }
    }
  }

  /** The head taken by a merge step is at most everything merged after it. */
  lemma MergeHead(h: int, rest: seq<int>, other: seq<int>, r: seq<int>)
    requires AtLeast(h, rest) && other != [] && h <= other[0] && Ascending(other)
    requires Ascending(r) && multiset(r) == multiset(rest) + multiset(other)
    ensures Ascending([h] + r)
  {
    assert AtLeast(h, rest + other);
    assert multiset(r) == multiset(rest + other);
    AtLeastMultiset(h, r, rest + other);
    AscendingCons(h, r);
  }

  /** A merge step that takes the head a[i] of the first list. */
  lemma MergeTakeFirst(p: seq<int>, a: seq<int>, i: nat, b: seq<int>, j: nat)
    requires i < |a| && j <= |b| && (j == |b| || a[i] < b[j])
    ensures p + Merge(a[i..], b[j..]) == p + [a[i]] + Merge(a[i + 1..], b[j..])
  {
    assert a[i..][1..] == a[i + 1..];
    if j == |b| {
      assert a[i..] == [a[i]] + a[i + 1..];
    }
  }

  /** A merge step that takes the head b[j] of the second list. */
  lemma MergeTakeSecond(p: seq<int>, a: seq<int>, i: nat, b: seq<int>, j: nat)
    requires i <= |a| && j < |b| && (i == |a| || !(a[i] < b[j]))
    ensures p + Merge(a[i..], b[j..]) == p + [b[j]] + Merge(a[i..], b[j + 1..])
  {
    assert b[j..][1..] == b[j + 1..];
    if i == |a| {
      assert b[j..] == [b[j]] + b[j + 1..];
    }
  }

  /** Once one list is used up, the merge of the rests is their concatenation. */
  lemma MergeRest(a: seq<int>, i: nat, b: seq<int>, j: nat)
    requires i <= |a| && j <= |b| && (i == |a| || j == |b|)
    ensures Merge(a[i..], b[j..]) == a[i..] + b[j..]
  {
    if i == |a| {
      assert a[i..] == [];
    } else {
      assert b[j..] == [];
    }
  }

  lemma ConcatAssoc(p: seq<int>, q: seq<int>, r: seq<int>)
    ensures p + (q + r) == p + q + r
  {
  }

  /** Moving the next element of a[i..] behind p. */
  lemma DropStep(p: seq<int>, a: seq<int>, i: nat)
    requires i < |a|
    ensures p + a[i..] == p + [a[i]] + a[i + 1..]
  {
    assert a[i..] == [a[i]] + a[i + 1..];
  }

  lemma AscendingPrefix(p: seq<int>, r: seq<int>)
    requires Ascending(p + r)
    ensures Ascending(p)
  {
    forall k, l | 0 <= k < l < |p|
      ensures p[k] <= p[l]
    {
      assert p[k] == (p + r)[k] && p[l] == (p + r)[l];
    }
  }

  /** The text toString prints: "" when empty, else "[" elements by "," "]". */
  function ListText(s: seq<int>): string
  {
    if s == [] then "" else "[" + Joined(s) + "]"
  }

  /** The printed text determines the list. */
  lemma ListTextInjective(s: seq<int>, t: seq<int>)
    requires ListText(s) == ListText(t)
    ensures s == t
  {
    if s != [] && t != [] {
      var js, jt := Joined(s), Joined(t);
      assert ListText(s)[1..|ListText(s)| - 1] == js;
      assert ListText(t)[1..|ListText(t)| - 1] == jt;
      JoinedInjective(s, t);
    }
  }

  /** A printed list of n >= 1 elements holds n - 1 commas, between "[" and "]". */
  lemma ListTextShape(s: seq<int>)
    requires s != []
    ensures |ListText(s)| >= 3
    ensures ListText(s)[0] == '[' && ListText(s)[|ListText(s)| - 1] == ']'
    ensures Occurrences(ListText(s), ',') == |s| - 1
  {
    JoinedCommas(s);
    OccurrencesAppend("[" + Joined(s), "]", ',');
    OccurrencesAppend("[", Joined(s), ',');
    assert Occurrences("[", ',') == 0 && Occurrences("]", ',') == 0 by {
      assert "["[..0] == "" && "]"[..0] == "";
    }
    assert |Joined(s)| >= 1 by {
      JoinedNonEmpty(s);
    }
  }

  lemma JoinedNonEmpty(s: seq<int>)
    requires s != []
    ensures |Joined(s)| >= 1
  {
  }

  /** The first step of insert's walk: the head is not larger than x. */
  lemma InsertStart(s: seq<int>, x: int)
    requires Ascending(s) && s != [] && s[0] <= x
    ensures InsertSorted(s, x) == s[..1] + InsertSorted(s[1..], x)
  {
    if x == s[0] {
      assert s[1..] == [] || x <= s[1..][0];
      assert s == s[..1] + s[1..];
    }
  }

  /** The walk passes an element smaller than x. */
  lemma InsertSkip(s: seq<int>, i: nat, x: int)
    requires i + 1 < |s| && s[i + 1] < x
    ensures s[..i + 1] + InsertSorted(s[i + 1..], x) == s[..i + 2] + InsertSorted(s[i + 2..], x)
  {
    assert s[i + 1..][1..] == s[i + 2..];
    assert s[..i + 2] == s[..i + 1] + [s[i + 1]];
  }

  /** The walk stops before the first element not smaller than x. */
  lemma InsertHere(s: seq<int>, i: nat, x: int)
    requires i < |s| && (i + 1 == |s| || x <= s[i + 1])
    ensures s[..i + 1] + InsertSorted(s[i + 1..], x) == s[..i + 1] + [x] + s[i + 1..]
  {
  }

  /** x placed between neighbours it fits between keeps a list ascending. */
  lemma AscendingSplice(s: seq<int>, i: nat, x: int)
    requires Ascending(s) && i < |s| && s[i] <= x && (i + 1 == |s| || x <= s[i + 1])
    ensures Ascending(s[..i + 1] + [x] + s[i + 1..])
  {
  }

  /** x below the first element of an ascending list can go in front. */
  lemma AscendingFront(s: seq<int>, x: int)
    requires Ascending(s) && (s == [] || x < s[0])
    ensures Ascending([x] + s)
  {
  }

  /** Extending the text of an unclosed list. */
  /** One more element extends the open text "[a,b" by "," and its text. */
  lemma OpenListStep(s: seq<int>, i: nat)
    requires 1 <= i < |s|
    ensures "[" + Joined(s[..i + 1]) == "[" + Joined(s[..i]) + "," + IntText(s[i])
  {
    TakeSnoc(s, i);
    JoinedSnoc(s[..i], s[i]);
    var j, t := Joined(s[..i]), IntText(s[i]);
    assert "[" + (j + "," + t) == "[" + j + "," + t;
  }

  /** The elements of s with x spliced in after position i. */
  lemma SpliceAt<T>(s: seq<T>, i: nat, x: T, k: nat)
    requires i < |s| && k <= |s|
    ensures var t := s[..i + 1] + [x] + s[i + 1..];
      |t| == |s| + 1 && t[k] == if k <= i then s[k] else if k == i + 1 then x else s[k - 1]
  {
  }

  /** The elements of s without the one at position i + 1. */
  lemma SkipAt<T>(s: seq<T>, i: nat, k: nat)
    requires i + 1 < |s| && k < |s| - 1
    ensures var t := s[..i + 1] + s[i + 2..];
      |t| == |s| - 1 && t[k] == if k <= i then s[k] else s[k + 1]
  {
  }

  lemma AscendingSkip(s: seq<int>, i: nat)
    requires Ascending(s) && i + 1 < |s|
    ensures Ascending(s[..i + 1] + s[i + 2..])
  {
    var t := s[..i + 1] + s[i + 2..];
    forall p, q | 0 <= p < q < |t|
      ensures t[p] <= t[q]
    {
      SkipAt(s, i, p);
      SkipAt(s, i, q);
    }
  }

  /** Dropping an element equal to x does not change what remains without x. */
  lemma WithoutSkip(s: seq<int>, i: nat)
    requires i + 1 < |s|
    ensures Without(s[..i + 1] + s[i + 2..], s[i + 1]) == Without(s, s[i + 1])
  {
    assert s[i + 1..] == [s[i + 1]] + s[i + 2..];
    assert s == s[..i + 1] + s[i + 1..];
    WithoutDrop(s[..i + 1], s[i + 1], s[i + 2..]);
  }

  lemma WithoutDrop(a: seq<int>, x: int, c: seq<int>)
    ensures Without(a + c, x) == Without(a + ([x] + c), x)
  {
    WithoutAppend(a, [x] + c, x);
    WithoutCons(x, c);
    WithoutAppend(a, c, x);
  }

  lemma WithoutCons(x: int, c: seq<int>)
    ensures Without([x] + c, x) == Without(c, x)
  {
    assert ([x] + c)[1..] == c;
  }

  /** With no x up to position i and a larger element next, x is not in the list. */
  lemma RemoveDone(s: seq<int>, i: nat, x: int)
    requires Ascending(s) && i < |s| && x !in s[..i + 1]
    requires i + 1 == |s| || x < s[i + 1]
    ensures x !in s
  {
    forall k | 0 <= k < |s|
      ensures s[k] != x
    {
      if k <= i {
        assert s[k] == s[..i + 1][k];
      }
    }
  }

  lemma TakeSnoc(s: seq<int>, i: int)
    requires 0 <= i < |s|
    ensures s[..i + 1] == s[..i] + [s[i]]
  {
  }

  /** What the as-written merge constructor holds: its contents and its size field. */
  datatype ListState = ListState(elems: seq<int>, size: int)

  /**
   * The merge constructor as written: when s1's head is not smaller, s2's
   * head is copied into the new head but the merge then starts again at
   * s2's head, so that value is copied twice; size is s1.size + s2.size.
   */
  function MergedAsWritten(a: seq<int>, b: seq<int>): (r: ListState)
    requires a != [] && b != []
    ensures r.size == |a| + |b|
    ensures a[0] < b[0] ==> r.elems == Merge(a, b)
  {
    if a[0] < b[0] then ListState([a[0]] + Merge(a[1..], b), |a| + |b|)
    else ListState([b[0]] + Merge(a, b), |a| + |b|)
  }

  /** When s1's head is not smaller, the as-written result has one node more than its size says. */
  lemma MergedAsWrittenDuplicates(a: seq<int>, b: seq<int>)
    requires a != [] && b != [] && a[0] >= b[0]
    requires Ascending(a) && Ascending(b)
    ensures |MergedAsWritten(a, b).elems| == MergedAsWritten(a, b).size + 1
    ensures multiset(MergedAsWritten(a, b).elems) == multiset(a) + multiset(b) + multiset{b[0]}
  {
    MergeSpec(a, b);
  }

  /** Merging [1] with [1] yields [1, 1, 1] with size 2. */
  lemma MergedAsWrittenExample()
    ensures MergedAsWritten([1], [1]) == ListState([1, 1, 1], 2)
  {
    assert Merge([1], [1]) == [1] + Merge([1], []);
  }

  // ---------------------------------------------------------------------
  // The linked list

  class Node {
    var data: int
    var next: Node?

    constructor (d: int, n: Node?)
      ensures data == d && next == n
    {
      data := d;
      next := n;
    }
  }

  /** The node after position i of a spine, null after the last. */
  ghost function NextOf(nodes: seq<Node>, i: int): Node?
    requires 0 <= i < |nodes|
  {
    if i + 1 < |nodes| then nodes[i + 1] else null
  }

  /** temp is the node of s at position i, or null when i is the length. */
  ghost predicate Cursor(s: SortedList, temp: Node?, i: nat)
    reads s
  {
    i <= |s.Nodes| && temp == (if i < |s.Nodes| then s.Nodes[i] else null)
  }

  class SortedList {
    /** First node, null for the empty list. */
    var head: Node?
    /** Number of elements, maintained by insert and remove. */
    var size: int
    /** The nodes reachable from head, in order. */
    ghost var Nodes: seq<Node>
    /** Their data. */
    ghost var Elems: seq<int>
    ghost var Repr: set<object>

    /** Each node of the spine Nodes holds its element of Elems and links to the next. */
    ghost predicate Chain()
      reads this, Repr
    {
      && this in Repr
      && |Nodes| == |Elems|
      && (forall k :: 0 <= k < |Nodes| ==> Nodes[k] in Repr)
      && (forall k :: 0 <= k < |Nodes| ==> Nodes[k].data == Elems[k])
      && (forall k {:trigger Nodes[k].next} :: 0 <= k < |Nodes| ==> Nodes[k].next == NextOf(Nodes, k))
    }

    /** head starts the chain, whose nodes are distinct. */
    ghost predicate Shape()
      reads this, Repr
    {
      && Chain()
      && (forall k, l :: 0 <= k < l < |Nodes| ==> Nodes[k] != Nodes[l])
      && head == (if Nodes == [] then null else Nodes[0])
    }

    /** head starts the chain Nodes, which holds Elems in ascending order. */
    ghost predicate Linked()
      reads this, Repr
    {
      Shape() && Ascending(Elems)
    }

    ghost predicate Valid()
      reads this, Repr
    {
      Linked() && size == |Elems|
    }

    /** An empty list. */
    constructor ()
      ensures Valid() && fresh(Repr)
      ensures Elems == []
    {
      head := null;
      size := 0;
      Nodes := [];
      Elems := [];
      Repr := {this};
    }

    /** The chain is well formed and last is its final node. */
    ghost predicate EndsAt(last: Node)
      reads this, Repr
    {
      Shape() && |Nodes| >= 1 && last == Nodes[|Nodes| - 1]
    }

    /** s is a chain of nodes that shares no object with this list. */
    ghost predicate ApartFrom(s: SortedList)
      reads this, s, s.Repr
    {
      s.Chain() && Repr !! s.Repr
    }

    /**
     * A list of fresh nodes holding the elements of two non-empty lists,
     * merged; neither argument list is changed.
     */
    constructor FromMerge(s1: SortedList, s2: SortedList)
      requires s1.Valid() && s2.Valid() && s1.Elems != [] && s2.Elems != []
      ensures Elems == Merge(s1.Elems, s2.Elems) && size == s1.size + s2.size
      ensures Valid() && fresh(Repr)
    {
      head := null;
      size := s1.size + s2.size;
      Nodes := [];
      Elems := [];
      Repr := {this};
      new;
      MergeInto(s1, s2);
      MergeSpec(s1.Elems, s2.Elems);
    }

    /** Fills this empty list with fresh nodes holding the elements of s1 and s2, merged. */
    method MergeInto(s1: SortedList, s2: SortedList)
      requires Shape() && Nodes == [] && ApartFrom(s1) && ApartFrom(s2) && s1.Nodes != [] && s2.Nodes != []
      requires Cursor(s1, s1.head, 0) && Cursor(s2, s2.head, 0)
      modifies Repr
      ensures Shape() && fresh(Repr - old(Repr)) && unchanged(s1, s2) && size == old(size)
      ensures Elems == Merge(s1.Elems, s2.Elems)
    {
      var first, temp1, temp2, i, j := MergeFirst(s1, s2);
      MergeNodes(s1, s2, first, temp1, temp2, i, j);
    }

    /** Copies the smaller head of s1 and s2 (that of s2 on a tie) into this empty list. */
    method MergeFirst(s1: SortedList, s2: SortedList) returns (first: Node, temp1: Node?, temp2: Node?, ghost i: nat, ghost j: nat)
      requires Shape() && Nodes == [] && ApartFrom(s1) && ApartFrom(s2) && s1.Nodes != [] && s2.Nodes != []
      requires Cursor(s1, s1.head, 0) && Cursor(s2, s2.head, 0)
      modifies this
      ensures EndsAt(first) && fresh(Repr - old(Repr)) && ApartFrom(s1) && ApartFrom(s2) && unchanged(s1, s2)
      ensures Cursor(s1, temp1, i) && Cursor(s2, temp2, j) && size == old(size)
      ensures Elems + Merge(s1.Elems[i..], s2.Elems[j..]) == Merge(s1.Elems, s2.Elems)
    {
      ghost var a, b := s1.Elems, s2.Elems;
      if s1.head.data < s2.head.data {
        MergeTakeFirst([], a, 0, b, 0);
        first, temp1 := CopyFirst(s1.head, s1, s2);
        temp2, i, j := s2.head, 1, 0;
      } else {
        MergeTakeSecond([], a, 0, b, 0);
        first, temp2 := CopyFirst(s2.head, s2, s1);
        temp1, i, j := s1.head, 0, 1;
      }
      assert a[0..] == a && b[0..] == b;
    }

    /**
     * Makes a fresh copy of temp, the first node of s, the only node of
     * this empty list, and returns the node of s after temp.
     */
    method CopyFirst(temp: Node, s: SortedList, other: SortedList) returns (end: Node, next: Node?)
      requires Shape() && Nodes == [] && ApartFrom(s) && ApartFrom(other) && Cursor(s, temp, 0)
      modifies this
      ensures EndsAt(end) && fresh(Repr - old(Repr)) && ApartFrom(s) && ApartFrom(other) && unchanged(s, other)
      ensures Elems == [s.Elems[0]] && size == old(size) && Cursor(s, next, 1)
    {
      next := temp.next;
      end := new Node(temp.data, null);
      head := end;
      Nodes := [end];
      Elems := [end.data];
      Repr := Repr + {end};
    }

    /**
     * Appends fresh copies of the remaining nodes of s1 (from from1, the
     * node at position i0) and of s2 (from from2, at position j0), merged,
     * behind the single node of this list.
     */
    method MergeNodes(s1: SortedList, s2: SortedList, first: Node, from1: Node?, from2: Node?, ghost i0: nat, ghost j0: nat)
      requires EndsAt(first) && ApartFrom(s1) && ApartFrom(s2)
      requires Cursor(s1, from1, i0) && Cursor(s2, from2, j0)
      modifies Repr
      ensures Shape() && fresh(Repr - old(Repr)) && unchanged(s1, s2)
      ensures Elems == old(Elems) + Merge(s1.Elems[i0..], s2.Elems[j0..]) && size == old(size)
    {
      var last: Node, temp1: Node?, temp2: Node?;
      ghost var i: nat, j: nat;
      last, temp1, temp2, i, j := MergeWhileBoth(s1, s2, first, from1, from2, i0, j0);
      CopyBoth(s1, s2, last, temp1, i, temp2, j);
    }

    /**
     * The two closing loops of the merge: copies what is left of s1 (from
     * temp1, at position i), then what is left of s2 (from temp2, at j).
     */
    method CopyBoth(s1: SortedList, s2: SortedList, last: Node, temp1: Node?, ghost i: nat, temp2: Node?, ghost j: nat)
      requires EndsAt(last) && ApartFrom(s1) && ApartFrom(s2)
      requires Cursor(s1, temp1, i) && Cursor(s2, temp2, j)
      modifies Repr
      ensures Shape() && fresh(Repr - old(Repr)) && unchanged(s1, s2)
      ensures Elems == old(Elems) + (s1.Elems[i..] + s2.Elems[j..]) && size == old(size)
    {
      ConcatAssoc(Elems, s1.Elems[i..], s2.Elems[j..]);
      var end := CopyFrom(last, temp1, s1, i, s2);
      end := CopyFrom(end, temp2, s2, j, s1);
    }

    /**
     * The first loop of the merge: while both lists have nodes left, copies
     * the smaller head (the one of s2 on a tie) behind last.
     */
    method MergeWhileBoth(s1: SortedList, s2: SortedList, first: Node, from1: Node?, from2: Node?, ghost i0: nat, ghost j0: nat)
        returns (last: Node, temp1: Node?, temp2: Node?, ghost i: nat, ghost j: nat)
      requires EndsAt(first) && ApartFrom(s1) && ApartFrom(s2)
      requires Cursor(s1, from1, i0) && Cursor(s2, from2, j0)
      modifies Repr
      ensures EndsAt(last) && size == old(size)
      ensures fresh(Repr - old(Repr)) && ApartFrom(s1) && ApartFrom(s2) && unchanged(s1, s2)
      ensures Cursor(s1, temp1, i) && Cursor(s2, temp2, j)
      ensures Elems + (s1.Elems[i..] + s2.Elems[j..]) == old(Elems) + Merge(s1.Elems[i0..], s2.Elems[j0..])
    {
      ghost var t := Elems + Merge(s1.Elems[i0..], s2.Elems[j0..]);
      last, temp1, temp2, i, j := first, from1, from2, i0, j0;
      while temp1 != null && temp2 != null
        invariant EndsAt(last) && size == old(size)
        invariant fresh(Repr - old(Repr)) && ApartFrom(s1) && ApartFrom(s2) && unchanged(s1, s2)
        invariant Cursor(s1, temp1, i) && Cursor(s2, temp2, j)
        invariant Elems + Merge(s1.Elems[i..], s2.Elems[j..]) == t
        decreases |s1.Nodes| - i + |s2.Nodes| - j
      {
        last, temp1, temp2, i, j := MergeStep(s1, s2, last, temp1, temp2, i, j);
      }
      MergeRest(s1.Elems, i, s2.Elems, j);
    }

    /** One step of the merge loop: copies the smaller of the two current nodes (that of s2 on a tie). */
    method MergeStep(s1: SortedList, s2: SortedList, last: Node, temp1: Node, temp2: Node, ghost i: nat, ghost j: nat)
        returns (end: Node, next1: Node?, next2: Node?, ghost i': nat, ghost j': nat)
      requires EndsAt(last) && ApartFrom(s1) && ApartFrom(s2)
      requires Cursor(s1, temp1, i) && Cursor(s2, temp2, j)
      modifies this, last
      ensures EndsAt(end) && size == old(size)
      ensures fresh(Repr - old(Repr)) && ApartFrom(s1) && ApartFrom(s2) && unchanged(s1, s2)
      ensures Cursor(s1, next1, i') && Cursor(s2, next2, j') && i' + j' == i + j + 1
      ensures Elems + Merge(s1.Elems[i'..], s2.Elems[j'..]) == old(Elems) + Merge(s1.Elems[i..], s2.Elems[j..])
    {
      if temp1.data < temp2.data {
        MergeTakeFirst(Elems, s1.Elems, i, s2.Elems, j);
        end, next1 := CopyNode(last, temp1, s1, i, s2);
        next2, i', j' := temp2, i + 1, j;
      } else {
        MergeTakeSecond(Elems, s1.Elems, i, s2.Elems, j);
        end, next2 := CopyNode(last, temp2, s2, j, s1);
        next1, i', j' := temp1, i, j + 1;
      }
    }

    /**
     * Appends fresh copies of the nodes of s from from, its node at
     * position i0, behind last, the final node of this list; neither s nor
     * the other list being merged changes.
     */
    method CopyFrom(last: Node, from: Node?, s: SortedList, ghost i0: nat, other: SortedList) returns (end: Node)
      requires EndsAt(last) && ApartFrom(s) && ApartFrom(other) && Cursor(s, from, i0)
      modifies Repr
      ensures EndsAt(end) && fresh(Repr - old(Repr)) && ApartFrom(s) && ApartFrom(other) && unchanged(s, other)
      ensures Elems == old(Elems) + s.Elems[i0..] && size == old(size)
    {
      ghost var w := Elems + s.Elems[i0..];
      end := last;
      var temp := from;
      ghost var i: nat := i0;
      while temp != null
        invariant EndsAt(end) && size == old(size)
        invariant fresh(Repr - old(Repr)) && ApartFrom(s) && ApartFrom(other) && unchanged(s, other)
        invariant Cursor(s, temp, i)
        invariant Elems + s.Elems[i..] == w
        decreases |s.Nodes| - i
      {
        DropStep(Elems, s.Elems, i);
        end, temp := CopyNode(end, temp, s, i, other);
        i := i + 1;
      }
      assert s.Elems[i..] == [];
    }

    /**
     * Links a fresh copy of temp, the node of s at position i, behind last
     * and returns the node of s after temp; neither s nor the other list
     * being merged changes.
     */
    method CopyNode(last: Node, temp: Node, s: SortedList, ghost i: nat, other: SortedList) returns (end: Node, next: Node?)
      requires EndsAt(last) && ApartFrom(s) && ApartFrom(other) && i < |s.Nodes| && temp == s.Nodes[i]
      modifies this, last
      ensures EndsAt(end) && fresh(Repr - old(Repr)) && ApartFrom(s) && ApartFrom(other) && unchanged(s, other)
      ensures Elems == old(Elems) + [s.Elems[i]] && size == old(size) && Cursor(s, next, i + 1)
    {
      next := temp.next;
      end := Append(last, temp.data);
    }

    /** Links a fresh node holding d behind last, the final node. */
    method Append(last: Node, d: int) returns (n: Node)
      requires EndsAt(last)
      modifies this, last
      ensures EndsAt(n) && fresh(n)
      ensures Nodes == old(Nodes) + [n] && Elems == old(Elems) + [d] && Repr == old(Repr) + {n}
      ensures head == old(head) && size == old(size)
    {
      n := new Node(d, null);
      last.next := n;
      Nodes := Nodes + [n];
      Elems := Elems + [d];
      Repr := Repr + {n};
    }

    /** Inserts item after the elements smaller than it (after an equal head). */
    method Insert(item: int)
      requires Valid()
      modifies Repr
      ensures Valid() && fresh(Repr - old(Repr))
      ensures Elems == InsertSorted(old(Elems), item)
      ensures size == old(size) + 1
    {
      ghost var e := Elems;
      if head == null || head.data > item {
        LinkFront(item);
        return;
      }
      var temp := head;
      ghost var i := 0;
      InsertStart(e, item);
      while temp.next != null && temp.next.data < item
        modifies {}
        invariant 0 <= i < |Nodes| && temp == Nodes[i] && e[i] <= item
        invariant InsertSorted(e, item) == e[..i + 1] + InsertSorted(e[i + 1..], item)
        decreases |Nodes| - i
      {
        assert temp.next == Nodes[i + 1];
        InsertSkip(e, i, item);
        temp := temp.next;
        i := i + 1;
      }
      InsertHere(e, i, item);
      LinkAfter(temp, i, item);
    }

    /** Links a new first node holding item, which is smaller than every element. */
    method LinkFront(item: int)
      requires Valid() && (Elems == [] || item < Elems[0])
      modifies this
      ensures Valid() && fresh(Repr - old(Repr))
      ensures Elems == [item] + old(Elems)
      ensures size == old(size) + 1
    {
      AscendingFront(Elems, item);
      var n := new Node(item, head);
      head := n;
      Nodes := [n] + Nodes;
      Elems := [item] + Elems;
      Repr := Repr + {n};
      size := size + 1;
    }

    /** Links a new node holding item in after temp, the node at position i. */
    method LinkAfter(temp: Node, ghost i: nat, item: int)
      requires Valid() && i < |Nodes| && temp == Nodes[i]
      requires Elems[i] <= item && (i + 1 == |Elems| || item <= Elems[i + 1])
      modifies this, temp
      ensures Valid() && fresh(Repr - old(Repr))
      ensures |Nodes| == old(|Nodes|) + 1 && fresh(Nodes[i + 1])
      ensures Nodes == old(Nodes[..i + 1]) + [Nodes[i + 1]] + old(Nodes[i + 1..])
      ensures Elems == old(Elems[..i + 1]) + [item] + old(Elems[i + 1..])
      ensures size == old(size) + 1
    {
      ghost var ns, e := Nodes, Elems;
      AscendingSplice(e, i, item);
      var n := new Node(item, temp.next);
      temp.next := n;
      Nodes := ns[..i + 1] + [n] + ns[i + 1..];
      Elems := e[..i + 1] + [item] + e[i + 1..];
      Repr := Repr + {n};
      size := size + 1;
      forall k | 0 <= k < |Nodes|
        ensures Nodes[k] in Repr && Nodes[k].data == Elems[k] && Nodes[k].next == NextOf(Nodes, k)
      {
        SpliceAt(ns, i, n, k);
        SpliceAt(e, i, item, k);
        if k + 1 < |Nodes| {
          SpliceAt(ns, i, n, k + 1);
        }
      }
      forall k, l | 0 <= k < l < |Nodes|
        ensures Nodes[k] != Nodes[l]
      {
        SpliceAt(ns, i, n, k);
        SpliceAt(ns, i, n, l);
      }
    }

    /** Removes every element equal to item. */
    method Remove(item: int)
      requires Valid()
      modifies Repr
      ensures Valid() && Repr == old(Repr)
      ensures Elems == Without(old(Elems), item)
      ensures size == old(size) - multiset(old(Elems))[item]
    {
      ghost var e := Elems;
      WithoutSpec(e, item);
      while head != null && head.data == item
        invariant Valid() && Repr == old(Repr)
        invariant Without(Elems, item) == Without(e, item)
        decreases |Elems|
      {
        UnlinkHead();
      }
      if head == null {
        return;
      }
      var temp := head;
      ghost var i := 0;
      while temp.next != null && temp.next.data <= item
        invariant Valid() && Repr == old(Repr)
        invariant 0 <= i < |Nodes| && temp == Nodes[i]
        invariant item !in Elems[..i + 1]
        invariant Without(Elems, item) == Without(e, item)
        decreases |Elems| - i
      {
        if temp.next.data == item {
          UnlinkAfter(temp, i);
        } else {
          TakeSnoc(Elems, i + 1);
          temp := temp.next;
          i := i + 1;
        }
      }
      RemoveDone(Elems, i, item);
      WithoutAbsent(Elems, item);
    }

    /** Unlinks the first node, which holds item. */
    method UnlinkHead()
      requires Valid() && head != null
      modifies this
      ensures Valid() && Repr == old(Repr)
      ensures Nodes == old(Nodes[1..]) && Elems == old(Elems[1..]) && size == old(size) - 1
      ensures Without(Elems, old(Elems[0])) == Without(old(Elems), old(Elems[0]))
    {
      AscendingTail(Elems);
      head := head.next;
      Nodes := Nodes[1..];
      Elems := Elems[1..];
      size := size - 1;
    }

    /** Unlinks the node after temp, the node at position i; it holds item. */
    method UnlinkAfter(temp: Node, ghost i: nat)
      requires Valid() && i + 1 < |Nodes| && temp == Nodes[i]
      modifies this, temp
      ensures Valid() && Repr == old(Repr)
      ensures Nodes == old(Nodes[..i + 1]) + old(Nodes[i + 2..])
      ensures Elems == old(Elems[..i + 1]) + old(Elems[i + 2..]) && size == old(size) - 1
      ensures Nodes[i] == temp && Elems[..i + 1] == old(Elems[..i + 1])
      ensures Without(Elems, old(Elems[i + 1])) == Without(old(Elems), old(Elems[i + 1]))
    {
      ghost var ns, e := Nodes, Elems;
      AscendingSkip(e, i);
      WithoutSkip(e, i);
      temp.next := temp.next.next;
      Nodes := ns[..i + 1] + ns[i + 2..];
      Elems := e[..i + 1] + e[i + 2..];
      size := size - 1;
      forall k | 0 <= k < |Nodes|
        ensures Nodes[k] in Repr && Nodes[k].data == Elems[k] && Nodes[k].next == NextOf(Nodes, k)
      {
        SkipAt(ns, i, k);
        SkipAt(e, i, k);
        if k + 1 < |Nodes| {
          SkipAt(ns, i, k + 1);
        }
      }
      forall k, l | 0 <= k < l < |Nodes|
        ensures Nodes[k] != Nodes[l]
      {
        SkipAt(ns, i, k);
        SkipAt(ns, i, l);
      }
    }

    /** The number of items in the list. */
    method Size() returns (n: int)
      requires Valid()
      ensures n == |Elems|
    {
      n := size;
    }

    /** The number of elements equal to item; the list is not changed. */
    method Find(item: int) returns (count: int)
      requires Valid()
      ensures count == multiset(Elems)[item]
    {
      count := 0;
      var temp := head;
      ghost var i := 0;
      while temp != null
        invariant 0 <= i <= |Nodes|
        invariant temp == if i < |Nodes| then Nodes[i] else null
        invariant count == multiset(Elems[..i])[item]
        decreases |Nodes| - i
      {
        TakeSnoc(Elems, i);
        if item == temp.data {
          count := count + 1;
        }
        temp := temp.next;
        i := i + 1;
      }
      assert Elems[..i] == Elems;
    }

    /** "" for the empty list, otherwise "[" the elements separated by "," "]". */
    method ToString() returns (text: string)
      requires Valid()
      ensures text == ListText(Elems)
    {
      if head == null {
        return "";
      }
      var stringList := "[" + IntText(head.data);
      var temp := head.next;
      ghost var i := 1;
      assert Elems[..1] == [Elems[0]];
      while temp != null
        invariant 1 <= i <= |Nodes|
        invariant temp == if i < |Nodes| then Nodes[i] else null
        invariant stringList == "[" + Joined(Elems[..i])
        decreases |Nodes| - i
      {
        OpenListStep(Elems, i);
        stringList := stringList + "," + IntText(temp.data);
        temp := temp.next;
        i := i + 1;
      }
      assert Elems[..i] == Elems;
      text := stringList + "]";
    }
  }
}
