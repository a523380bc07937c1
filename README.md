# Verified model of six coursework data-structure classes

This project models, in Dafny, six Java classes of a collection of
data-structure exercises, and proves what their code and comments promise:

- `SortedList`: a sorted singly linked list of ints with duplicates. Its
  operations are sorted insert, remove-all, occurrence count, size,
  `toString`, and a constructor that copies two lists into one merged list.
  It is modelled with real `Node` objects. A ghost spine (`Nodes`, `Elems`)
  says which nodes are reachable from `head` and what they hold. Module
  `SortedLists`, file `sorted_lists.dfy`.
- `TopologicalSort`: a directed graph held as a vertex list, an edge list per
  vertex and an indegree counter per vertex. It is sorted Kahn-style by
  repeatedly emitting the first remaining vertex of indegree 0. Module
  `TopoSort`, file `topo_sort.dfy`.
- `UndirectedGraph`: each edge node is stored once and threaded into two
  lists. Every edge goes to the "ordered neighbours" of one endpoint.
  Triangles are counted by intersecting ascending arrays. Module
  `UndirectedGraphs`, file `undirected_graph.dfy`.
- `IntTree`: a first-child/next-sibling tree with four constructors,
  recursive preorder, postorder, count and sum, and a queue-based level
  order. Module `IntTrees`, file `int_trees.dfy`.
- `BitOutputStream` and `BitInputStream`: bits are packed into bytes most
  significant bit first, and unpacked again. Module `BitStreams`, file
  `bit_streams.dfy`.

`decimal_text.dfy` (module `DecimalText`) defines the text Java produces
for an `int` in string concatenation, and comma-separated lists of such
texts. `options.dfy` holds an `Option` type.

`SortedList`, `TopologicalSort`, `UndirectedGraph` and the two bit streams
update their fields in place, and each is a Dafny `class` whose methods
change its fields. `IntTree` only builds trees and reads them, so it is a
datatype with functions, and its queue-based level order is a method. Each
method is specified against a function of the fields, and lemmas prove what
the source promises about that function. The data streams are byte
sequences:

- the `DataOutputStream` is the field `out`;
- the `DataInputStream` is the constant `input` plus a read offset.

The model follows the code where the code and its comments disagree:

- `TopologicalSort.addVertex` is documented as keeping the vertex list
  sorted, but it only appends at the tail. The model appends.
- `IntTree.sum` is documented as iterative but is recursive. The model is
  recursive and wraps to 32 bits as Java `int` addition does.
- `IntTree.postorder` does not produce a postorder for a node with two or
  more children. See Findings.
- The merge constructor of `SortedList` copies the head of `s2` twice when
  it is not larger than the head of `s1`. See Findings.

## Model

| member | source | states |
|---|---|---|
| SortedLists.SortedList.constructor | SortedList.java:47-50 | the new list is empty, valid, and made of fresh objects |
| SortedLists.SortedList.Insert | SortedList.java:138-151 | the contents become the sorted insertion of item; size grows by 1; the list stays valid (ascending, size = node count) and only fresh nodes are added |
| SortedLists.InsertSortedSpec | SortedList.java:138-151 | sorted insertion keeps the list ascending and adds exactly one copy of item to its multiset |
| SortedLists.SortedList.Remove | SortedList.java:189-204 | the contents become the old contents without any copy of item, other elements in their old order; size drops by the old occurrence count of item; no node is added |
| SortedLists.WithoutSpec | SortedList.java:189-204 | removing x sets the multiplicity of x to 0, keeps every other multiplicity, and shortens the list by the old count of x |
| SortedLists.RemoveThenFind | SortedList.java:189-204 | after remove(x), x occurs 0 times and every other value as often as before |
| SortedLists.WithoutAscending | SortedList.java:189-204 | removal keeps the list ascending |
| SortedLists.WithoutAbsent | SortedList.java:192-204 | removing a value that is not in the list changes nothing |
| SortedLists.SortedList.Find | SortedList.java:245-258 | returns the number of elements equal to item and changes nothing |
| SortedLists.SortedList.Size | SortedList.java:264-266 | returns the number of reachable nodes |
| SortedLists.SortedList.ToString | SortedList.java:272-290 | "" for the empty list, otherwise "[" then the element texts joined by "," then "]" |
| SortedLists.ListTextInjective | SortedList.java:272-290 | different lists print differently |
| SortedLists.ListTextShape | SortedList.java:272-290 | a printed list of n >= 1 elements starts with "[", ends with "]" and holds n - 1 commas |
| SortedLists.Merge | SortedList.java:109-131 | the merge of two lists (smaller head first, ties from the second) is as long as both together |
| SortedLists.MergeSpec | SortedList.java:109-131 | merging two ascending lists gives an ascending list whose multiset is the union of theirs |
| SortedLists.SortedList.MergeWhileBoth | SortedList.java:110-120 | the first merge loop appends fresh copies of the smaller heads until one list runs out; neither input changes |
| SortedLists.SortedList.CopyFrom | SortedList.java:121-130 | each closing loop appends fresh copies of the rest of one input; neither input changes |
| SortedLists.SortedList.FromMerge | SortedList.java:58-80 | corrected merge constructor: the contents are the merge of both lists, size is s1.size + s2.size, the list is valid and made of fresh objects |
| SortedLists.MergedAsWritten | SortedList.java:67-79 | the constructor as written always sets size to s1.size + s2.size, and gives the merge when s1's head is smaller |
| SortedLists.MergedAsWrittenDuplicates | SortedList.java:73-78 | as written, when s1's head is not smaller, the list holds one node more than size says: s2's head twice |
| SortedLists.MergedAsWrittenExample | SortedList.java:73-78 | as written, merging [1] and [1] gives [1,1,1] with size 2 |
| TopoSort.TopologicalSort.constructor | TopologicalSort.java:51-54 | an empty graph whose indegrees agree with its edges |
| TopoSort.TopologicalSort.AddVertex | TopologicalSort.java:63-74 | appends the vertex at the tail with no edges and indegree 0, numVertices grows by 1, and every indegree still counts the edge records into its vertex |
| TopoSort.IntoSnoc | TopologicalSort.java:63-74 | a vertex with no edges adds no edge into any vertex |
| TopoSort.TopologicalSort.IndexOf | TopologicalSort.java:84-90 | finds the first vertex with the given name |
| TopoSort.TopologicalSort.AddEdge | TopologicalSort.java:83-103 | appends the target to the end of the source's edge list, raises the target's indegree by exactly 1, and keeps every indegree equal to the number of edge records into it |
| TopoSort.IntoAddEdge | TopologicalSort.java:94-102 | one new edge record raises the count into its target by 1 and no other count |
| TopoSort.TopologicalSort.ToVertexArray | TopologicalSort.java:106-114 | an array holding every vertex in list order |
| TopoSort.TopologicalSort.Queue | TopologicalSort.java:123-130 | returns the first non-null slot whose vertex has indegree 0, and none exactly when no such slot exists |
| TopoSort.TopologicalSort.UpdateAdjacentIndegrees | TopologicalSort.java:138-144 | lowers every vertex's indegree by the number of edge records from v to it |
| TopoSort.TopologicalSort.InitIndegrees | TopologicalSort.java:147-155 | a copy of the indegrees in vertex order |
| TopoSort.TopologicalSort.CheckInitialZero | TopologicalSort.java:162-168 | true exactly when some vertex has indegree 0 |
| TopoSort.IntoPositive | TopologicalSort.java:162-168 | a vertex whose count of edges from unemitted sources is positive has an unemitted predecessor |
| TopoSort.ClearVertex | TopologicalSort.java:190-192 | nulls exactly the slots holding the emitted vertex |
| TopoSort.TopologicalSort.EmitNext | TopologicalSort.java:185-193 | one round emits a vertex not emitted before and keeps the indegrees equal to the edges from unemitted sources |
| TopoSort.EmitRespects | TopologicalSort.java:185-193 | emitting an unemitted vertex that no unemitted vertex has an edge to keeps every edge's source ahead of its target |
| TopoSort.Stuck | TopologicalSort.java:185-194 | when the loop stops, every vertex left has an unemitted predecessor |
| TopoSort.TopologicalSort.TopoSort | TopologicalSort.java:177-199 | none when no vertex starts at indegree 0; no vertex is emitted twice; every edge's source is emitted before its target; every vertex left has an unemitted predecessor; the result is present exactly when a vertex started at indegree 0 and the text has `length()` two per vertex, counted in UTF-16 code units as Java counts; it is then the emitted names, each followed by one blank |
| TopoSort.Utf16Length | TopologicalSort.java:195 | `String.length()`: at least one and at most two code units per character |
| TopoSort.Utf16LengthAppend | TopologicalSort.java:187 | the length of a concatenation is the sum of the lengths |
| TopoSort.Utf16LengthOne | TopologicalSort.java:195 | a name has `length()` 1 exactly when it is one character no higher than U+FFFF |
| TopoSort.AstralName | TopologicalSort.java:187-195 | a one-character name beyond U+FFFF has `length()` 2, and its text with the blank has `length()` 3, not 2 |
| TopoSort.EmittedLength | TopologicalSort.java:187 | when every name has `length()` 1, the text has `length()` two per emitted vertex |
| TopoSort.CompleteText | TopologicalSort.java:195-196 | when every name has `length()` 1, the length test passes exactly when every vertex was emitted |
| TopoSort.DistinctAll | TopologicalSort.java:190-195 | distinct emitted vertices number at most n, and exactly n when all were emitted |
| UndirectedGraphs.UndirectedGraph.constructor | UndirectedGraph.java:54-59 | n vertices with empty edge lists, degree 0 and no ordered neighbours |
| UndirectedGraphs.UndirectedGraph.AddEdge | UndirectedGraph.java:62-72 | adds one edge record with the lower endpoint first, whatever the argument order; prepends its id to edges1 of the lower endpoint and edges2 of the higher; raises both degrees by 1; keeps the lists and degrees equal to what the edge records give |
| UndirectedGraphs.FirstsSnoc | UndirectedGraph.java:34-43 | a new edge node joins the head of exactly its endpoints' lists and raises exactly their degrees |
| UndirectedGraphs.DegreeLists | UndirectedGraph.java:22 | numNeighbors equals the length of edges1 plus edges2 |
| UndirectedGraphs.FirstsCount | UndirectedGraph.java:66-68 | the edges1 list of v names each edge whose lower endpoint is v exactly once, and no other |
| UndirectedGraphs.UndirectedGraph.GiveEdge | UndirectedGraph.java:107-118 | one edge goes to the endpoint with fewer neighbours, the lower index on a tie |
| UndirectedGraphs.UndirectedGraph.Give | UndirectedGraph.java:111-117 | the array of v grows by x and stays ascending; nothing else changes |
| UndirectedGraphs.AppendSorted | UndirectedGraph.java:111-113 | appending x to an ascending array and sorting gives an ascending array with one more copy of x |
| UndirectedGraphs.UndirectedGraph.GiveList | UndirectedGraph.java:105-120 | the inner loop hands out every edge on the edges1 list of i |
| UndirectedGraphs.VisitsAll | UndirectedGraph.java:104-120 | the loops visit every edge exactly once |
| UndirectedGraphs.OwnedTotal | UndirectedGraph.java:109-117 | every visited edge goes to exactly one endpoint |
| UndirectedGraphs.UndirectedGraph.PopulateOrderedNeighbors | UndirectedGraph.java:102-122 | every array stays ascending and gains exactly the neighbours whose edges it owns, the lengths grow in total by the number of edges, and on a simple graph starting from empty arrays every array ends strictly ascending |
| UndirectedGraphs.PopulatedStrict | UndirectedGraph.java:102-122 | without duplicate edges, no array holds a neighbour twice |
| UndirectedGraphs.CountMerging | UndirectedGraph.java:137-147 | the single-pass branch counts the entries of the first array that occur in the second |
| UndirectedGraphs.CountScanning | UndirectedGraph.java:148-159 | the rescanning branch counts the entries of the second array that occur in the first |
| UndirectedGraphs.CommonCountDistinct | UndirectedGraph.java:131-161 | when the counted array is strictly ascending, the count is the size of the intersection |
| UndirectedGraphs.CommonSymmetric | UndirectedGraph.java:137-159 | on strictly ascending arrays both branches give the size of the intersection |
| UndirectedGraphs.UndirectedGraph.IntersectionSize | UndirectedGraph.java:131-161 | the count is at most either length, is the size of the intersection when both arrays are strictly ascending, and nothing is changed |
| UndirectedGraphs.UndirectedGraph.CountTriangles | UndirectedGraph.java:164-173 | on strictly ascending arrays, the sum over every vertex i and every ordered neighbour w of i of the size of the intersection of their arrays |
| IntTrees.Single | IntTree.java:35-37 | a single node without siblings |
| IntTrees.FromArray | IntTree.java:45-55 | root d[0] without siblings, holding all of d |
| IntTrees.FromChildren | IntTree.java:64-70 | root d whose first child is the root of t[0] |
| IntTrees.WithChild | IntTree.java:72-75 | root d whose only child chain is c |
| IntTrees.PreorderText | IntTree.java:87-90 | the helper's text is empty exactly for no node, and otherwise ends with a comma, which preorder() drops |
| IntTrees.Preorder | IntTree.java:81-90 | the preorder values joined by commas, the helper's last comma dropped |
| IntTrees.PreorderTextSeq | IntTree.java:87-90 | the helper prints each preorder value followed by a comma |
| IntTrees.PostorderAsWrittenText | IntTree.java:102-105 | the helper's text is empty exactly for no node, and otherwise ends with a comma, which postorder() drops |
| IntTrees.PostorderAsWritten | IntTree.java:96-105 | what postorder() prints as written: first child's text, then siblings' text, then the node |
| IntTrees.PostorderAsWrittenText321 | IntTree.java:102-105 | as written, the tree 1 with children 2, 3 prints "3,2,1"; the intended postorder is "2,3,1" |
| IntTrees.Postorder | IntTree.java:96-105 | the intended postorder, joined by commas: for a root without siblings, each child's whole subtree in postorder, children in order, then the root; it holds the preorder's values |
| IntTrees.PostorderChildren | IntTree.java:96-105 | the postorder of a sibling chain visits each sibling's whole subtree in turn, in order |
| IntTrees.FromChildrenPostorder | IntTree.java:64-70 | the tree built from d and t is, in postorder, the postorders of t[0], t[1], … in order, then d |
| IntTrees.FromArrayPostorder | IntTree.java:45-55 | the tree built from d is, in postorder, d[1..] then d[0]; as written it prints d[1..] reversed, then d[0] |
| IntTrees.PostorderAsWrittenDiffers | IntTree.java:102-105 | for every array of three or more values whose second and last value differ, postorder() as written is not the postorder |
| IntTrees.PostorderPermutation | IntTree.java:96-105 | both postorders are permutations of the preorder |
| IntTrees.PostorderEndsWithRoot | IntTree.java:96-105 | for a root without siblings both postorders end with the root's value |
| IntTrees.VisitFront | IntTree.java:123-129 | one round of the queue loop appends the front node's text and a comma, queues its children behind the rest, keeps the text plus the breadth-first order of the queue unchanged, and shrinks the queue's size |
| IntTrees.LevelOrder | IntTree.java:113-132 | "" for no root, otherwise the breadth-first order joined by commas |
| IntTrees.EnqueueChildren | IntTree.java:125-129 | queues the first child and each of its siblings, in order |
| IntTrees.LevelOrderSpec | IntTree.java:117-132 | level order starts with the root and is a permutation of the preorder |
| IntTrees.BfsValues | IntTree.java:117-132 | breadth-first order visits every node of the queued subtrees exactly once |
| IntTrees.Count | IntTree.java:174-179 | count(d, r) is at most the number of nodes reached from r |
| IntTrees.CountPreorder | IntTree.java:170-179 | count(d) equals the occurrences of d in the preorder |
| IntTrees.Sum | IntTree.java:186-189 | sum(r) wraps each of its two additions to 32 bits and is always a Java `int` |
| IntTrees.SumPreorder | IntTree.java:182-189 | sum() is the preorder sum wrapped to 32 bits |
| IntTrees.SingleSpec | IntTree.java:35-37 | a one-node tree prints d in preorder, postorder and level order |
| IntTrees.SingleSumCount | IntTree.java:35-37 | a one-node tree's sum is d and it holds d once |
| IntTrees.FromArraySpec | IntTree.java:45-55 | preorder and level order both list d in order |
| IntTrees.FromChildrenSpec | IntTree.java:64-70 | preorder is d followed by the preorders of t[0], t[1], … |
| IntTrees.WithChildSpec | IntTree.java:72-75 | preorder is d followed by the preorder of c, and d is counted once more |
| BitStreams.BitOutputStream.constructor | BitOutputStream.java:16-20 | nothing written, bitCount = 0, byteVal = 0 |
| BitStreams.BitOutputStream.WriteBit | BitOutputStream.java:27-45 | '1' adds 2^(7 - bitCount) to byteVal and any other char adds nothing; the eighth bit emits byteVal and resets both fields; the state stays consistent with the bits written |
| BitStreams.OpenStateBounds | BitOutputStream.java:27-45 | between calls byteVal is a byte whose low 8 - bitCount bits are zero |
| BitStreams.BitOutputStream.Close | BitOutputStream.java:47-55 | the partial byte is emitted only when bitCount != 0; all bytes out are then the packing of every bit written |
| BitStreams.Pack | BitOutputStream.java:27-55 | n bits give (n + 7) / 8 bytes |
| BitStreams.ByteOfPadded | BitOutputStream.java:50-51 | a partial byte is its bits followed by zero padding |
| BitStreams.BitInputStream.constructor | BitInputStream.java:13-22 | nothing read, no byte loaded, and bitSeq all zeros as `new int[8]` makes it |
| BitStreams.BitInputStream.ReadBit | BitInputStream.java:24-42 | a byte is loaded exactly when bitCount % 8 == 0; afterwards 1 <= bitCount <= 8 and the result is bitSeq[bitCount - 1]; while the input lasts, the k-th result is the k-th unpacked bit |
| BitStreams.BitInputStream.CreateBitSeq | BitInputStream.java:44-50 | bitSeq holds the 8 binary digits of bVal, most significant first |
| BitStreams.BitSeqValue | BitInputStream.java:44-50 | the bits in bitSeq, weighted 2^(7 - i), sum to the byte |
| BitStreams.UnpackAt | BitInputStream.java:24-50 | bit k of the input is digit 7 - k % 8 of byte k / 8 |
| BitStreams.RoundTrip | BitOutputStream.java:27-55 | unpacking the packed bits gives them back followed by zero padding |
| BitStreams.ReadBackWritten | BitInputStream.java:24-41 | every written bit reads back at its position, and every padding bit reads as 0 |

## Left out

- The `main` drivers, console output and file parsing are I/O, and so is `UndirectedGraph.printNeighbors`.
- `IntTree.path` is not modelled. It depends on Java string splitting, and despite its comment it does not use parent references.
- IntTree parent references are never read by the modelled operations, so they are not modelled. The in-place relinking of argument trees by the constructors is modelled as building new values. Sharing between the argument trees and the result is therefore not captured.
- TopologicalSort's vertex and edge lists are sequences in the model. Walking to the tail to append is modelled as appending. The vertex array holds positions, not references.
- TopoSort.TopologicalSort.TopoSort: the indegrees left behind after a sort are only characterised through the loop's invariant, not in the ensures.
- TopoSort.TopologicalSort.TopoSort: the cycle found when the sort stops early is stated locally: every vertex left has an unemitted predecessor. It is not stated as a cycle.
- UndirectedGraph's `Vertex` and `EdgeNode` objects are parallel sequences indexed by vertex. An edge node is its position in `edges`.
- `Arrays.copyOf` followed by `Arrays.sort` is modelled by inserting the appended element into the ascending array. The result is the same.
- UndirectedGraphs.UndirectedGraph.AddEdge: requires v1 != v2. That is the precondition written at UndirectedGraph.java:35; a self-loop is not modelled.
- UndirectedGraphs.UndirectedGraph.CountTriangles: its value is pinned down only when every array is strictly ascending. That holds after populating a simple graph. For other inputs the model states only the per-call bound of IntersectionSize.
- UndirectedGraphs.UndirectedGraph.CountTriangles: the comment's claim that the sum is the number of triangles in the graph is not proved.
- Java `int` overflow of the counters is not modelled: `size`, `numVertices`, indegrees, `numNeighbors`, `intCnt` and `triangles` are unbounded. `IntTree.sum` is the exception; the model wraps it to 32 bits.
- `Math.pow(2, n)` is a double in the source. It is exact for 0 <= n <= 7, and the model uses the integer power of two.
- In `BitInputStream`, a read at end of input throws. The source catches the exception, only prints it, and returns the stale bits of `bitSeq`, or zeros when no byte was ever loaded; the model does the same without printing. `BitInputStream.close` and `BitOutputStream`'s exception handling are I/O left out.
- BitStreams.BitOutputStream.WriteBit: requires the stream to be open. The source would throw on a closed `DataOutputStream` and print the exception.
- IntTrees.FromArray: requires a non-empty array. On an empty array the source throws at IntTree.java:47 when it reads `d[0]`; the exception is not modelled.
- IntTrees.FromChildren: requires at least one tree. On an empty array the source throws at IntTree.java:65 when it reads `t[0]`; the exception is not modelled.
- UndirectedGraphs.UndirectedGraph.constructor: takes the size as a `nat`. A negative size makes the source throw `NegativeArraySizeException` at UndirectedGraph.java:55; that case is not modelled.
- UndirectedGraphs.UndirectedGraph.AddEdge: requires both endpoints to be vertices, as the comment at UndirectedGraph.java:50 says. An endpoint out of range makes the source throw at lines 66-67; that case is not modelled.
- IntTrees.Preorder and IntTrees.Postorder: require a root. Every constructor makes one, and on an empty tree the source's `substring` would throw.
- The generic `Comparable` element type of SortedList is modelled as `int`.

## Findings

| source | as written | input that shows it | evidently intended | confidence | as-written member | corrected member |
|---|---|---|---|---|---|---|
| SortedList.java:73-76 | when s1's head is not smaller, s2's head is copied into the new head but `temp2` stays at `s2.head`, so that value is copied again | s1 = [1], s2 = [1] gives [1,1,1] with size 2 | `temp2 = s2.head.next`, giving the merge [1,1] with size 2 | not executed | SortedLists.MergedAsWrittenDuplicates | SortedLists.SortedList.FromMerge |
| IntTree.java:102-105 | the helper prints the first child's text, then the siblings' text, then the node, so a node's later siblings come before its earlier siblings | the tree 1 with children 2, 3 prints "3,2,1" | children, then the node, then its siblings: "2,3,1" | not executed | IntTrees.PostorderAsWrittenDiffers | IntTrees.Postorder |
