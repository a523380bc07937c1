/**
 * IntTree: a tree of ints in first-child/next-sibling form, with its four
 * constructors, the recursive preorder, postorder, count and sum, and the
 * queue-based level order. A Java Node reference is a value `Link`: `Null`
 * or a `Node` holding its data, its first child and its next sibling.
 * Parent references are write-only in the source and are not modelled.
 */
module IntTrees {
  import opened DecimalText

  datatype Link = Null | Node(data: int, firstChild: Link, sibling: Link)

  /** The number of nodes reachable from l through children and siblings. */
  function Size(l: Link): nat
  {
    if l.Null? then 0 else 1 + Size(l.firstChild) + Size(l.sibling)
  }

  // ---------------------------------------------------------------------
  // Constructors

  /** IntTree(int d): a one-node tree. */
  function Single(d: int): (t: Link)
    ensures t.Node? && t.sibling == Null && Size(t) == 1
  {
    Node(d, Null, Null)
  }

  /** A chain of childless siblings holding s in order. */
  function Leaves(s: seq<int>): (l: Link)
    ensures Size(l) == |s|
    decreases |s|
  {
    if s == [] then Null else Node(s[0], Null, Leaves(s[1..]))
  }

  /** IntTree(int[] d): d[0] at the root, the other values its children in order. */
  function FromArray(d: seq<int>): (t: Link)
    requires |d| >= 1
    ensures t.Node? && t.data == d[0] && t.sibling == Null && Size(t) == |d|
  {
    Node(d[0], Leaves(d[1..]), Null)
  }

  /**
   * The roots of t threaded into one sibling chain: each root but the last
   * gets the next root as its sibling; the last keeps the sibling it had.
   */
  function Relink(t: seq<Link>): (l: Link)
    requires |t| >= 1 && forall i :: 0 <= i < |t| ==> t[i].Node?
    ensures l.Node? && l.data == t[0].data && l.firstChild == t[0].firstChild
    decreases |t|
  {
    if |t| == 1 then t[0] else Node(t[0].data, t[0].firstChild, Relink(t[1..]))
  }

  /** IntTree(int d, IntTree[] t): root d whose children are the trees of t. */
  function FromChildren(d: int, t: seq<Link>): (r: Link)
    requires |t| >= 1 && forall i :: 0 <= i < |t| ==> t[i].Node?
    ensures r.Node? && r.data == d && r.sibling == Null && r.firstChild.Node? && r.firstChild.data == t[0].data
  {
    Node(d, Relink(t), Null)
  }

  /** IntTree(int d, IntTree c): root d whose first child is the root of c. */
  function WithChild(d: int, c: Link): (r: Link)
    requires c.Node?
    ensures r.Node? && r.data == d && r.firstChild == c && r.sibling == Null
    ensures Size(r) == 1 + Size(c)
  {
    Node(d, c, Null)
  }

  // ---------------------------------------------------------------------
  // Preorder

  /** The preorder of l and of its siblings, as a sequence. */
  function PreSeq(l: Link): (s: seq<int>)
    ensures |s| == Size(l)
  {
    if l.Null? then [] else [l.data] + PreSeq(l.firstChild) + PreSeq(l.sibling)
  }

  /** The helper preorder(Node): every value followed by a comma, so a non-empty text ends in one. */
  function PreorderText(l: Link): (s: string)
    ensures s == "" <==> l.Null?
    ensures s != "" ==> s[|s| - 1] == ','
  {
    if l.Null? then "" else IntText(l.data) + "," + PreorderText(l.firstChild) + PreorderText(l.sibling)
  }

  /** The helper's text is the preorder sequence, each value followed by a comma. */
  lemma {:induction false} PreorderTextSeq(l: Link)
    ensures PreorderText(l) == Terminated(PreSeq(l))
  {
    if l.Node? {
      PreorderTextSeq(l.firstChild);
      PreorderTextSeq(l.sibling);
      var f, g := PreSeq(l.firstChild), PreSeq(l.sibling);
      TerminatedAppend([l.data] + f, g);
      TerminatedAppend([l.data], f);
      assert ([l.data] + f)[1..] == f;
      assert Terminated([l.data]) == IntText(l.data) + "," by {
        assert [l.data][1..] == [];
      }
    }
  }

  /** preorder(): the helper's text without its final comma. */
  function Preorder(root: Link): (s: string)
    requires root.Node?
    ensures s == Joined(PreSeq(root))
  {
    PreorderTextSeq(root);
    TerminatedJoined(PreSeq(root));
    var p := PreorderText(root);
    p[..|p| - 1]
  }

  // ---------------------------------------------------------------------
  // Postorder

  /**
   * The helper postorder(Node) as written: the first child's text, then the
   * siblings' text, then the node itself.
   */
  function PostorderAsWrittenText(l: Link): (s: string)
    ensures s == "" <==> l.Null?
    ensures s != "" ==> s[|s| - 1] == ','
  {
    if l.Null? then "" else PostorderAsWrittenText(l.firstChild) + PostorderAsWrittenText(l.sibling) + IntText(l.data) + ","
  }

  function PostAsWrittenSeq(l: Link): (s: seq<int>)
    ensures |s| == Size(l)
  {
    if l.Null? then [] else PostAsWrittenSeq(l.firstChild) + PostAsWrittenSeq(l.sibling) + [l.data]
  }

  lemma {:induction false} PostorderAsWrittenTextSeq(l: Link)
    ensures PostorderAsWrittenText(l) == Terminated(PostAsWrittenSeq(l))
  {
    if l.Node? {
      PostorderAsWrittenTextSeq(l.firstChild);
      PostorderAsWrittenTextSeq(l.sibling);
      var f, g := PostAsWrittenSeq(l.firstChild), PostAsWrittenSeq(l.sibling);
      TerminatedAppend(f + g, [l.data]);
      TerminatedAppend(f, g);
      assert Terminated([l.data]) == IntText(l.data) + "," by {
        assert [l.data][1..] == [];
      }
    }
  }

  /** postorder() as written. */
  function PostorderAsWritten(root: Link): (s: string)
    requires root.Node?
    ensures s == Joined(PostAsWrittenSeq(root))
  {
    PostorderAsWrittenTextSeq(root);
    TerminatedJoined(PostAsWrittenSeq(root));
    var p := PostorderAsWrittenText(root);
    p[..|p| - 1]
  }

  /** The postorder of l and of its siblings: children before their parent, siblings in order. */
  function PostSeq(l: Link): (s: seq<int>)
    ensures |s| == Size(l)
  {
    if l.Null? then [] else PostSeq(l.firstChild) + [l.data] + PostSeq(l.sibling)
  }

  /**
   * postorder() as intended: the values in postorder, separated by commas.
   * For a root without siblings that is the postorder of each child's whole
   * subtree, children in order, and then the root; it holds the values of
   * the preorder.
   */
  function Postorder(root: Link): (s: string)
    requires root.Node?
    ensures PostSeq(root) != [] && s == Joined(PostSeq(root))
    ensures multiset(PostSeq(root)) == multiset(PreSeq(root))
    ensures root.sibling == Null ==> PostSeq(root) == ForestPost(ChildList(root.firstChild)) + [root.data]
  {
    PostorderPermutation(root);
    PostorderChildren(root.firstChild);
    assert root.sibling == Null ==> PostSeq(root) == PostSeq(root.firstChild) + [root.data];
    Joined(PostSeq(root))
  }

  /** The postorder of the subtree of n: its descendants, then n (n's siblings not included). */
  function SubPost(n: Link): seq<int>
  {
    if n.Null? then [] else PostSeq(n.firstChild) + [n.data]
  }

  /** The postorders of the subtrees in q, one after another. */
  function ForestPost(q: seq<Link>): seq<int>
    decreases |q|
  {
    if q == [] then [] else SubPost(q[0]) + ForestPost(q[1..])
  }

  /** The postorder of a chain of siblings visits each sibling's whole subtree in turn, in order. */
  lemma {:induction false} PostorderChildren(c: Link)
    ensures PostSeq(c) == ForestPost(ChildList(c))
  {
    if c.Node? {
      PostorderChildren(c.sibling);
      assert ChildList(c)[1..] == ChildList(c.sibling);
    }
  }

  /** Both postorders hold the same values as the preorder. */
  lemma {:induction false} PostorderPermutation(l: Link)
    ensures multiset(PostSeq(l)) == multiset(PreSeq(l))
    ensures multiset(PostAsWrittenSeq(l)) == multiset(PreSeq(l))
  {
    if l.Node? {
      PostorderPermutation(l.firstChild);
      PostorderPermutation(l.sibling);
    }
  }

  /** For a root without siblings both postorders end with the root's value. */
  lemma PostorderEndsWithRoot(root: Link)
    requires root.Node? && root.sibling == Null
    ensures PostSeq(root)[|PostSeq(root)| - 1] == root.data
    ensures PostAsWrittenSeq(root)[|PostAsWrittenSeq(root)| - 1] == root.data
  {
    assert PostSeq(root) == PostSeq(root.firstChild) + [root.data];
  }

  /** For the tree 1 with children 2 and 3, the code visits 3, 2, 1; a postorder is 2, 3, 1. */
  lemma PostorderAsWrittenExample()
    ensures PostAsWrittenSeq(FromArray([1, 2, 3])) == [3, 2, 1]
    ensures PostSeq(FromArray([1, 2, 3])) == [2, 3, 1]
  {
    assert [1, 2, 3][1..] == [2, 3] && [2, 3][1..] == [3] && [3][1..] == [];
    var two := Node(2, Null, Node(3, Null, Null));
    assert FromArray([1, 2, 3]) == Node(1, two, Null);
    assert PostAsWrittenSeq(two) == [3, 2];
    assert PostSeq(two) == [2, 3];
  }

  /** The same tree as text: postorder() prints "3,2,1" where "2,3,1" is meant. */
  lemma PostorderAsWrittenText321()
    ensures PostorderAsWritten(FromArray([1, 2, 3])) == "3,2,1"
    ensures Postorder(FromArray([1, 2, 3])) == "2,3,1"
  {
    PostorderAsWrittenExample();
    JoinedDigits(3, 2, 1);
    JoinedDigits(2, 3, 1);
  }

  /** The joined text of three one-digit values. */
  lemma JoinedDigits(x: nat, y: nat, z: nat)
    requires x < 10 && y < 10 && z < 10
    ensures Joined([x, y, z]) == [DigitChar(x), ',', DigitChar(y), ',', DigitChar(z)]
  {
    JoinedSnoc([x], y);
    assert [x] + [y] == [x, y];
    JoinedSnoc([x, y], z);
    assert [x, y] + [z] == [x, y, z];
  }

  // ---------------------------------------------------------------------
  // count and sum

  /** count(d, Node): how many nodes among l and its siblings hold d. */
  function Count(d: int, l: Link): (n: nat)
    ensures n <= Size(l)
  {
    if l.Null? then 0 else Count(d, l.firstChild) + Count(d, l.sibling) + (if l.data == d then 1 else 0)
  }

  /** count(d) is the number of occurrences of d in the preorder. */
  lemma {:induction false} CountPreorder(d: int, l: Link)
    ensures Count(d, l) == multiset(PreSeq(l))[d]
  {
    if l.Node? {
      CountPreorder(d, l.firstChild);
      CountPreorder(d, l.sibling);
    }
  }

  const TwoTo31: int := 0x8000_0000
  const TwoTo32: int := 0x1_0000_0000

  predicate IsInt32(x: int)
  {
    -TwoTo31 <= x < TwoTo31
  }

  /** The Java int that x wraps around to. */
  function Wrap32(x: int): (w: int)
    ensures IsInt32(w)
    ensures IsInt32(x) ==> w == x
  {
    (x + TwoTo31) % TwoTo32 - TwoTo31
  }

  /** Wrapping an operand first does not change the wrapped sum. */
  lemma WrapAdd(a: int, b: int)
    ensures Wrap32(Wrap32(a) + b) == Wrap32(a + b)
  {
    var q := (a + TwoTo31) / TwoTo32;
    assert Wrap32(a) == a - q * TwoTo32;
    ModShift(a + b + TwoTo31, q);
  }

  lemma ModShift(x: int, q: int)
    ensures (x - q * TwoTo32) % TwoTo32 == x % TwoTo32
  {
    var r := x % TwoTo32;
    var k := x / TwoTo32;
    assert x - q * TwoTo32 == (k - q) * TwoTo32 + r;
  }

  /** sum(Node) in Java int arithmetic: data + sum(firstChild), then + sum(sibling). */
  function Sum(l: Link): (s: int)
    ensures IsInt32(s)
  {
    if l.Null? then 0 else Wrap32(Wrap32(l.data + Sum(l.firstChild)) + Sum(l.sibling))
  }

  function SeqSum(s: seq<int>): int
    decreases |s|
  {
    if s == [] then 0 else s[0] + SeqSum(s[1..])
  }

  lemma {:induction false} SeqSumAppend(a: seq<int>, b: seq<int>)
    ensures SeqSum(a + b) == SeqSum(a) + SeqSum(b)
    decreases |a|
  {
    if a != [] {
      assert (a + b)[1..] == a[1..] + b;
      SeqSumAppend(a[1..], b);
    } else {
      assert a + b == b;
    }
  }

  /** sum() is the sum of the preorder, wrapped to a Java int. */
  lemma {:induction false} SumPreorder(l: Link)
    ensures Sum(l) == Wrap32(SeqSum(PreSeq(l)))
  {
    if l.Node? {
      SumPreorder(l.firstChild);
      SumPreorder(l.sibling);
      var f, g := PreSeq(l.firstChild), PreSeq(l.sibling);
      SeqSumAppend([l.data] + f, g);
      SeqSumAppend([l.data], f);
      WrapNode(l.data, SeqSum(f), SeqSum(g));
    }
  }

  /** The two wrapped additions of sum(Node) over wrapped partial sums give the wrapped total. */
  lemma WrapNode(d: int, sf: int, sg: int)
    ensures Wrap32(Wrap32(d + Wrap32(sf)) + Wrap32(sg)) == Wrap32(d + sf + sg)
  {
    calc {
      Wrap32(Wrap32(d + Wrap32(sf)) + Wrap32(sg));
      { WrapAdd(sf, d); }
      Wrap32(Wrap32(d + sf) + Wrap32(sg));
      { WrapAdd(sg, Wrap32(d + sf)); }
      Wrap32(Wrap32(d + sf) + sg);
      { WrapAdd(d + sf, sg); }
      Wrap32(d + sf + sg);
    }
  }

  // ---------------------------------------------------------------------
  // Level order

  /** The children of a node: c, the first child, and its chain of siblings. */
  function ChildList(c: Link): (q: seq<Link>)
    ensures AllNodes(q)
  {
    if c.Null? then [] else [c] + ChildList(c.sibling)
  }

  /** The number of nodes in the subtree of n (its siblings not included). */
  function SubtreeSize(n: Link): nat
  {
    if n.Null? then 1 else 1 + Size(n.firstChild)
  }

  function QueueSize(q: seq<Link>): nat
    decreases |q|
  {
    if q == [] then 0 else SubtreeSize(q[0]) + QueueSize(q[1..])
  }

  lemma {:induction false} QueueSizeAppend(a: seq<Link>, b: seq<Link>)
    ensures QueueSize(a + b) == QueueSize(a) + QueueSize(b)
    decreases |a|
  {
    if a != [] {
      assert (a + b)[1..] == a[1..] + b;
      QueueSizeAppend(a[1..], b);
    } else {
      assert a + b == b;
    }
  }

  lemma {:induction false} ChildListSize(c: Link)
    ensures QueueSize(ChildList(c)) == Size(c)
  {
    if c.Node? {
      ChildListSize(c.sibling);
    }
  }

  /** Enqueuing the children of the front node in place of it makes the queue smaller. */
  lemma QueueStep(q: seq<Link>)
    requires q != [] && q[0].Node?
    ensures QueueSize(q[1..] + ChildList(q[0].firstChild)) < QueueSize(q)
  {
    QueueSizeAppend(q[1..], ChildList(q[0].firstChild));
    ChildListSize(q[0].firstChild);
  }

  /**
   * Breadth-first order of the subtrees in q: the front node, then the
   * rest of the queue with the front node's children behind it.
   */
  function Bfs(q: seq<Link>): seq<int>
    decreases QueueSize(q)
  {
    if q == [] then []
    else if q[0].Null? then Bfs(q[1..])
    else
      QueueStep(q);
      [q[0].data] + Bfs(q[1..] + ChildList(q[0].firstChild))
  }

  /** The values in n and its descendants, in preorder (n's siblings not included). */
  function SubPre(n: Link): seq<int>
  {
    if n.Null? then [] else [n.data] + PreSeq(n.firstChild)
  }

  function ForestValues(q: seq<Link>): multiset<int>
    decreases |q|
  {
    if q == [] then multiset{} else multiset(SubPre(q[0])) + ForestValues(q[1..])
  }

  lemma {:induction false} ForestValuesAppend(a: seq<Link>, b: seq<Link>)
    ensures ForestValues(a + b) == ForestValues(a) + ForestValues(b)
    decreases |a|
  {
    if a != [] {
      assert (a + b)[1..] == a[1..] + b;
      ForestValuesAppend(a[1..], b);
    } else {
      assert a + b == b;
    }
  }

  /** The children of a node hold, between them, the values of the chain from c. */
  lemma {:induction false} ChildListValues(c: Link)
    ensures ForestValues(ChildList(c)) == multiset(PreSeq(c))
  {
    if c.Node? {
      ChildListValues(c.sibling);
      assert ChildList(c)[1..] == ChildList(c.sibling);
    }
  }

  /** Breadth-first order visits every node of the queued subtrees exactly once. */
  lemma {:induction false} BfsValues(q: seq<Link>)
    ensures multiset(Bfs(q)) == ForestValues(q)
    decreases QueueSize(q)
  {
    if q != [] {
      if q[0].Null? {
        BfsValues(q[1..]);
      } else {
        var kids := ChildList(q[0].firstChild);
        QueueStep(q);
        BfsValues(q[1..] + kids);
        ForestValuesAppend(q[1..], kids);
        ChildListValues(q[0].firstChild);
      }
    }
  }

  /** The level order of a tree starts with the root and is a permutation of its preorder. */
  lemma LevelOrderSpec(root: Link)
    requires root.Node? && root.sibling == Null
    ensures Bfs([root]) != [] && Bfs([root])[0] == root.data
    ensures multiset(Bfs([root])) == multiset(PreSeq(root))
  {
    BfsValues([root]);
    assert [root][1..] == [];
    assert PreSeq(root) == SubPre(root) + PreSeq(Null);
  }

  /** levelorder(): the breadth-first order, separated by commas; "" for no root. */
  method LevelOrder(root: Link) returns (level: string)
    ensures root.Null? ==> level == ""
    ensures root.Node? ==> level == Joined(Bfs([root]))
  {
    level := "";
    if root.Null? {
      return level;
    }
    var q := [root];
    ghost var done: seq<int> := [];
    ghost var order := Bfs([root]);
    while |q| > 0
      invariant AllNodes(q)
      invariant level == Terminated(done)
      invariant done + Bfs(q) == order
      decreases QueueSize(q)
    {
      q, done, level := VisitFront(q, done, level);
    }
    BfsTerminated(done, root);
    level := level[..|level| - 1];
  }

  /** One round of the level-order loop: print the front node and queue its children. */
  method VisitFront(q: seq<Link>, ghost done: seq<int>, level: string)
    returns (q': seq<Link>, ghost done': seq<int>, level': string)
    requires q != [] && AllNodes(q) && level == Terminated(done)
    ensures AllNodes(q') && level' == Terminated(done')
    ensures done' + Bfs(q') == done + Bfs(q)
    ensures QueueSize(q') < QueueSize(q)
  {
    QueueStep(q);
    var curr := q[0];
    level' := level + IntText(curr.data) + ",";
    q' := EnqueueChildren(q[1..], curr.firstChild);
    BfsFront(done, q, q');
    AllNodesAppend(q[1..], ChildList(curr.firstChild));
    TerminatedSnoc(done, curr.data);
    done' := done + [curr.data];
  }

  predicate AllNodes(q: seq<Link>)
  {
    forall i :: 0 <= i < |q| ==> q[i].Node?
  }

  lemma AllNodesAppend(a: seq<Link>, b: seq<Link>)
    requires AllNodes(a) && AllNodes(b)
    ensures AllNodes(a + b)
  {
  }

  /** Adds c and its chain of siblings, in order, at the back of the queue q. */
  method EnqueueChildren(q: seq<Link>, c: Link) returns (q': seq<Link>)
    ensures q' == q + ChildList(c)
  {
    q' := q;
    var child := c;
    while child.Node?
      invariant q' + ChildList(child) == q + ChildList(c)
      decreases Size(child)
    {
      ConcatLinkAssoc(q', [child], ChildList(child.sibling));
      q' := q' + [child];
      child := child.sibling;
    }
    assert q' + [] == q';
  }

  lemma TerminatedSnoc(done: seq<int>, x: int)
    ensures Terminated(done + [x]) == Terminated(done) + IntText(x) + ","
  {
    TerminatedAppend(done, [x]);
    assert [x][1..] == [];
  }

  lemma ConcatLinkAssoc(a: seq<Link>, b: seq<Link>, c: seq<Link>)
    ensures a + (b + c) == a + b + c
  {
  }

  /** One round of the level-order loop. */
  lemma BfsFront(done: seq<int>, q: seq<Link>, q': seq<Link>)
    requires q != [] && q[0].Node? && q' == q[1..] + ChildList(q[0].firstChild)
    ensures done + Bfs(q) == done + [q[0].data] + Bfs(q')
  {
  }

  /** When the queue runs empty the text is the terminated level order. */
  lemma BfsTerminated(done: seq<int>, root: Link)
    requires root.Node? && done + Bfs([]) == Bfs([root])
    ensures done != [] && Terminated(done)[..|Terminated(done)| - 1] == Joined(Bfs([root]))
  {
    assert done == Bfs([root]);
    assert [root][1..] == [];
    TerminatedJoined(done);
  }

  // ---------------------------------------------------------------------
  // Properties of constructed trees

  /** A one-node tree sums to d and holds d once. */
  lemma SingleSumCount(d: int)
    requires IsInt32(d)
    ensures Sum(Single(d)) == d && Count(d, Single(d)) == 1
  {
    assert Sum(Single(d)) == Wrap32(Wrap32(d + 0) + 0);
  }

  /** A one-node tree prints d in every order. */
  lemma SingleSpec(d: int)
    ensures Preorder(Single(d)) == IntText(d)
    ensures Postorder(Single(d)) == IntText(d) && PostorderAsWritten(Single(d)) == IntText(d)
    ensures Joined(Bfs([Single(d)])) == IntText(d)
  {
    assert PreSeq(Single(d)) == [d];
    assert PostSeq(Single(d)) == [d];
    assert PostAsWrittenSeq(Single(d)) == [d];
    assert [Single(d)][1..] == [];
    assert Bfs([Single(d)]) == [d] + Bfs([]);
  }

  lemma {:induction false} LeavesPreorder(s: seq<int>)
    ensures PreSeq(Leaves(s)) == s
    decreases |s|
  {
    if s != [] {
      LeavesPreorder(s[1..]);
    }
  }

  /** The children of a chain of leaves are the leaves themselves, each a one-node subtree. */
  lemma {:induction false} LeavesBfs(p: seq<Link>, s: seq<int>)
    requires forall i :: 0 <= i < |p| ==> p[i].Node? && p[i].firstChild == Null
    ensures Bfs(p + ChildList(Leaves(s))) == Values(p) + s
    decreases |p| + |s|
  {
    if p != [] {
      var q := p + ChildList(Leaves(s));
      assert q[1..] == p[1..] + ChildList(Leaves(s));
      assert q[1..] + ChildList(q[0].firstChild) == q[1..];
      LeavesBfs(p[1..], s);
    } else if s != [] {
      var q := ChildList(Leaves(s));
      assert q == [Leaves(s)] + ChildList(Leaves(s[1..]));
      assert p + q == q;
      assert q[1..] + ChildList(q[0].firstChild) == [] + ChildList(Leaves(s[1..]));
      LeavesBfs([], s[1..]);
    } else {
      assert p + ChildList(Leaves(s)) == [];
    }
  }

  function Values(p: seq<Link>): seq<int>
    requires forall i :: 0 <= i < |p| ==> p[i].Node?
    decreases |p|
  {
    if p == [] then [] else [p[0].data] + Values(p[1..])
  }

  /** IntTree(int[] d) lists d in order, in preorder and in level order. */
  lemma FromArraySpec(d: seq<int>)
    requires |d| >= 1
    ensures Preorder(FromArray(d)) == Joined(d)
    ensures Joined(Bfs([FromArray(d)])) == Joined(d)
  {
    FromArrayPreorder(d);
    FromArrayBfs(d);
  }

  lemma FromArrayPreorder(d: seq<int>)
    requires |d| >= 1
    ensures PreSeq(FromArray(d)) == d
  {
    LeavesPreorder(d[1..]);
    assert PreSeq(FromArray(d)) == [d[0]] + d[1..] + [];
    assert d == [d[0]] + d[1..];
  }

  lemma FromArrayBfs(d: seq<int>)
    requires |d| >= 1
    ensures Bfs([FromArray(d)]) == d
  {
    var t := FromArray(d);
    assert [t][1..] == [];
    assert [t][1..] + ChildList(t.firstChild) == [] + ChildList(Leaves(d[1..]));
    LeavesBfs([], d[1..]);
    assert Values([]) == [];
    assert d == [d[0]] + d[1..];
  }

  /** The preorders of the trees of t, one after another. */
  function Preorders(t: seq<Link>): seq<int>
    decreases |t|
  {
    if t == [] then [] else PreSeq(t[0]) + Preorders(t[1..])
  }

  lemma {:induction false} RelinkPreorder(t: seq<Link>)
    requires |t| >= 1 && forall i :: 0 <= i < |t| ==> t[i].Node? && t[i].sibling == Null
    ensures PreSeq(Relink(t)) == Preorders(t)
    decreases |t|
  {
    if |t| == 1 {
      assert t[1..] == [];
      assert Preorders(t) == PreSeq(t[0]) + [];
    } else {
      RelinkPreorder(t[1..]);
      assert PreSeq(t[0]) == [t[0].data] + PreSeq(t[0].firstChild) + [];
    }
  }

  /** IntTree(d, t) prints d, then the preorders of the trees of t in order. */
  lemma FromChildrenSpec(d: int, t: seq<Link>)
    requires |t| >= 1 && forall i :: 0 <= i < |t| ==> t[i].Node? && t[i].sibling == Null
    ensures PreSeq(FromChildren(d, t)) == [d] + Preorders(t)
    ensures Preorder(FromChildren(d, t)) == Joined([d] + Preorders(t))
  {
    RelinkPreorder(t);
    assert PreSeq(FromChildren(d, t)) == [d] + PreSeq(Relink(t)) + [];
  }

  /** The postorders of the trees of t, one after another. */
  function Postorders(t: seq<Link>): seq<int>
    decreases |t|
  {
    if t == [] then [] else PostSeq(t[0]) + Postorders(t[1..])
  }

  lemma {:induction false} RelinkPostorder(t: seq<Link>)
    requires |t| >= 1 && forall i :: 0 <= i < |t| ==> t[i].Node? && t[i].sibling == Null
    ensures PostSeq(Relink(t)) == Postorders(t)
    decreases |t|
  {
    if |t| == 1 {
      assert t[1..] == [];
      assert Postorders(t) == PostSeq(t[0]) + [];
    } else {
      RelinkPostorder(t[1..]);
      assert PostSeq(t[0]) == PostSeq(t[0].firstChild) + [t[0].data] + [];
    }
  }

  /** IntTree(d, t) in postorder: the postorders of the trees of t in order, then d. */
  lemma FromChildrenPostorder(d: int, t: seq<Link>)
    requires |t| >= 1 && forall i :: 0 <= i < |t| ==> t[i].Node? && t[i].sibling == Null
    ensures PostSeq(FromChildren(d, t)) == Postorders(t) + [d]
    ensures Postorder(FromChildren(d, t)) == Joined(Postorders(t) + [d])
  {
    RelinkPostorder(t);
    assert PostSeq(FromChildren(d, t)) == PostSeq(Relink(t)) + [d] + [];
  }

  function Reversed(s: seq<int>): (r: seq<int>)
    ensures |r| == |s|
    decreases |s|
  {
    if s == [] then [] else Reversed(s[1..]) + [s[0]]
  }

  lemma {:induction false} ReversedFirst(s: seq<int>)
    requires s != []
    ensures Reversed(s)[0] == s[|s| - 1]
    decreases |s|
  {
    if |s| >= 2 {
      ReversedFirst(s[1..]);
    }
  }

  lemma {:induction false} LeavesPostorder(s: seq<int>)
    ensures PostSeq(Leaves(s)) == s
    ensures PostAsWrittenSeq(Leaves(s)) == Reversed(s)
    decreases |s|
  {
    if s != [] {
      LeavesPostorder(s[1..]);
      assert PostSeq(Leaves(s)) == [] + [s[0]] + PostSeq(Leaves(s[1..]));
      assert PostAsWrittenSeq(Leaves(s)) == [] + PostAsWrittenSeq(Leaves(s[1..])) + [s[0]];
    }
  }

  /**
   * IntTree(int[] d) in postorder: the intended order lists the children in
   * order and then the root; the code as written lists them in reverse.
   */
  lemma FromArrayPostorder(d: seq<int>)
    requires |d| >= 1
    ensures PostSeq(FromArray(d)) == d[1..] + [d[0]]
    ensures PostAsWrittenSeq(FromArray(d)) == Reversed(d[1..]) + [d[0]]
  {
    LeavesPostorder(d[1..]);
    assert PostSeq(FromArray(d)) == PostSeq(Leaves(d[1..])) + [d[0]] + [];
    assert PostAsWrittenSeq(FromArray(d)) == PostAsWrittenSeq(Leaves(d[1..])) + [] + [d[0]];
  }

  /** postorder() as written differs from the postorder whenever the first and last child differ. */
  lemma PostorderAsWrittenDiffers(d: seq<int>)
    requires |d| >= 3 && d[1] != d[|d| - 1]
    ensures PostAsWrittenSeq(FromArray(d)) != PostSeq(FromArray(d))
  {
    FromArrayPostorder(d);
    ReversedFirst(d[1..]);
    assert PostSeq(FromArray(d))[0] == d[1];
    assert PostAsWrittenSeq(FromArray(d))[0] == d[|d| - 1];
  }

  /** IntTree(d, c) prints d, then the preorder of c. */
  lemma WithChildSpec(d: int, c: Link)
    requires c.Node? && c.sibling == Null
    ensures Preorder(WithChild(d, c)) == Joined([d] + PreSeq(c))
    ensures Count(d, WithChild(d, c)) == Count(d, c) + 1
  {
    assert PreSeq(WithChild(d, c)) == [d] + PreSeq(c) + [];
    assert [d] + PreSeq(c) + [] == [d] + PreSeq(c);
  }
}
