# Havarti collections, sorts and graphs in Dafny

This project models the algorithmic core of the Havarti C# library and proves
properties of the model. The core is:

- **The red-black tree with lazy deletion** (`RedBlackTrees`, over node values in
  `RbNodes`).
  - Insert walks down by comparison. It adds a Red leaf, or adds nothing when a node
    on the path holds the value.
  - It then repairs with CheckNode: recolouring by the uncle, the four rotations and
    FixChildColors. Finally it paints the root Black.
  - DeleteNode only tombstones a node. SoftDelete moves one node from NodeCount to
    DeletedNodesCount.
  - Once `DeletedNodesCount >= NodeCount / 2`, CleanupTree collects the live values
    breadth-first and inserts them, in that order, into an empty tree.
- **The unbalanced binary search tree** (`BinaryTrees`).
  - Add sends ties to the left, so duplicates are kept.
  - Find and Contains walk down by comparison. FindMostLeft and FindMostRight follow
    one side.
  - Remove has three cases: a leaf, a node with one child, and a node with two
    children. The last copies the in-order predecessor and removes that.
  - There are in-order, pre-order and post-order traversals.
- **The two priority queues** (`PriorityQueues`).
  - One keeps a sorted list, inserting before the first item that is not less than the
    new one.
  - The other sits on a `BinaryTree` and takes the leftmost (Lowest mode) or rightmost
    (Highest mode) value.
- **The eight in-place comparison sorts** (`BubbleSort`, `InsertionSort`,
  `SelectionSort`, `ShellSort`, `HeapSort`, `MergeSort`, `QuickSort`, `EvilSort`),
  sharing the vocabulary in `SortSpec`.
- **The graph** (`Graphs`) and its two searches (`GraphExtensions`).
  - The graph is a vertex table keyed by id plus a list of edges.
  - GetNeighbors follows a Directed or an Undirected rule.
  - DepthFirstSearch uses a stack and BreathFirstSearch a queue. Both work on a copy
    of the vertex ids that each visit removes from.

## How the model is built

Each source file becomes one module, except RedBlackTree.cs, whose node values and lemmas are in `RbNodes` and whose class is in `RedBlackTrees`. The element type `T` of the collections and
sorts is `int`, and `CompareTo` is integer comparison.

**Sorts.** Each sort works on an `array<int>` in place. Its loops become `while`
loops with invariants. Each `Sort` is proved to permute its input. All but HeapSort are
proved to leave it sorted, QuickSort only when the list is not empty.
HeapSort.Sort is proved equal to a function on sequences, HeapSortSeq, that follows its
loops. HeapSort.UnsortedExample shows that it does not always sort (see Findings), and
HeapSort.CorrectedSort is the repaired routine, proved to sort.

- `SortSpec.SortedPermutationsAreEqual` shows that a sorted permutation is unique.
  So each sort proved sorted yields exactly the reference result the tests compare
  against.
- HeapSort and MergeSort are also tied to functions on sequences that follow their
  loops and recursion step by step, and those functions carry the proofs. QuickSort's
  recursive Sorting is specified by the relation `SortsSegment`: the segment ends sorted
  and permuted, and nothing outside it changes.

**Trees.** A tree's linked nodes are a datatype value held in the object's `root`
field.

- A node reference is the path of Left/Right steps from the root.
- Writing a child, a colour or a flag through a reference replaces the subtree at
  that path (`Put`).
- A node's Parent is the path without its last step.

**Failures.** Where the source throws (a `NullReferenceException`, an
`InvalidOperationException`, an `ArgumentOutOfRangeException`), the model returns a
failure outcome. The state it leaves is stated exactly, except for
RedBlackTree.Insert on a tree that is not red-black, where only the stored values and
the counters are stated. The cases are:

- BinaryTree.Remove of a root with one child dereferences the null Parent. Root has
  already moved and Count is not decremented, so `count` may exceed the node count
  afterwards.
- BinaryTree.Remove of a root without children while Count is not 1, which can only
  happen after such a failure, dereferences the null Parent too. The tree is unchanged.
- RedBlackTree.Insert of a value equal to a node on its path runs CheckNode on that
  node. When it is a Red node without children and its uncle is not Red, CheckNode
  reads the colour of its null Right child. With a Red uncle it only recolours. On a
  red-black tree that read comes before any write, so a failed Insert leaves the tree
  and both counters as they were.
- Graph.RemoveVertex removes from `Edges` while enumerating a lazy filter over it.
  It fails after the first removal.
- Graph.AddVertex of an id that is already taken.
- Graph.RemoveVertex of an unknown id: the vertex lookup gives null, and removing
  null from the vertex table reads its Id. Vertices and edges are unchanged.
- QuickSort.Sort on an empty list reads index 0.

## Model

| member | source | states |
|---|---|---|
| SortSpec.SortedPermutationsAreEqual | Cheesebaron.Havarti.Test/SortTest.cs:51-147 | two sorted permutations of one multiset are the same list, so a sorted permutation equals the framework sort's output the tests compare with |
| SortSpec.AdjacentSortedIffSorted | Cheesebaron.Havarti/Sort/EvilSort.cs:86-92 | the neighbour test IsSorted performs holds exactly when every pair of positions is in order |
| SortSpec.ShortPermutationIsIdentity | Cheesebaron.Havarti/Sort/InsertionSort.cs:40 | a permutation of a list of length zero or one is that list |
| SortSpec.Swap | Cheesebaron.Havarti/Sort/BubbleSort.cs:40-42 | the three-assignment exchange swaps the two positions and leaves every other position alone |
| SortSpec.SwapPermutes | Cheesebaron.Havarti/Sort/BubbleSort.cs:40-42 | an exchange is a permutation |
| BubbleSort.Sort | Cheesebaron.Havarti/Sort/BubbleSort.cs:31-45 | after Count passes the array is sorted and a permutation of the input; a list of length 0 or 1 is unchanged |
| BubbleSort.Pass | Cheesebaron.Havarti/Sort/BubbleSort.cs:35-43 | when the positions from m on hold the largest values in order, one pass extends that sorted, bounding tail to start at m - 1, and permutes |
| BubbleSort.Step | Cheesebaron.Havarti/Sort/BubbleSort.cs:37-42 | one compare-and-swap keeps the pass invariant (the running maximum sits at j, the tail stays sorted) and the multiset |
| BubbleSort.CompareSwap | Cheesebaron.Havarti/Sort/BubbleSort.cs:37-42 | the pair is swapped exactly when values[j] > values[j + 1]; otherwise the array is unchanged |
| BubbleSort.SwapStep | Cheesebaron.Havarti/Sort/BubbleSort.cs:37-42 | a swap happens only inside the unfinished prefix and carries the running maximum to j + 1 |
| BubbleSort.KeepStep | Cheesebaron.Havarti/Sort/BubbleSort.cs:37 | without a swap the running maximum is values[j + 1] |
| BubbleSort.PassEnd | Cheesebaron.Havarti/Sort/BubbleSort.cs:35-43 | at the end of a pass the maximum of the prefix sits at m - 1, so the sorted tail grows by one |
| InsertionSort.Sort | Cheesebaron.Havarti/Sort/InsertionSort.cs:38-53 | the array ends sorted and a permutation of the input; a list of length 0 or 1 is unchanged |
| InsertionSort.Place | Cheesebaron.Havarti/Sort/InsertionSort.cs:42-51 | temp = values[i] lands at j with every element of the old [j..i - 1] greater than it and values[j - 1] <= temp; that block moves up one and nothing else changes |
| InsertionSort.Step | Cheesebaron.Havarti/Sort/InsertionSort.cs:40-52 | one outer step keeps the prefix [0..i] a sorted permutation of the original prefix and the suffix untouched |
| InsertionSort.InsertedSorted | Cheesebaron.Havarti/Sort/InsertionSort.cs:45-51 | inserting temp after the last element not greater than it keeps the prefix sorted |
| InsertionSort.InsertedPermutes | Cheesebaron.Havarti/Sort/InsertionSort.cs:45-51 | the shift and drop permute the prefix and the whole list |
| InsertionSort.PrefixDone | Cheesebaron.Havarti/Sort/InsertionSort.cs:40 | once the prefix covers the list, the list is a sorted permutation |
| SelectionSort.Sort | Cheesebaron.Havarti/Sort/SelectionSort.cs:31-53 | the array ends sorted and a permutation of the input; a list of length 0 or 1 is unchanged |
| SelectionSort.FindMin | Cheesebaron.Havarti/Sort/SelectionSort.cs:37-43 | min is the first index holding the minimum of values[i..]: no later value is smaller and every earlier one in the range is greater |
| SelectionSort.Exchange | Cheesebaron.Havarti/Sort/SelectionSort.cs:46-51 | at most one swap, none when min == i |
| SelectionSort.SwapSelects | Cheesebaron.Havarti/Sort/SelectionSort.cs:34-52 | moving the minimum of the rest to i keeps the prefix sorted and no larger than anything after it |
| SelectionSort.SelectedDone | Cheesebaron.Havarti/Sort/SelectionSort.cs:34 | when only the last position is left the list is sorted |
| ShellSort.NextGap | Cheesebaron.Havarti/Sort/ShellSort.cs:54-59 | a positive gap strictly decreases and reaches 0 only from 1 |
| ShellSort.Passes | Cheesebaron.Havarti/Sort/ShellSort.cs:38-60 | the gaps of the passes: none for a gap <= 0, otherwise strictly decreasing positive gaps from the start gap down to 1 |
| ShellSort.DefaultPasses | Cheesebaron.Havarti/Sort/ShellSort.cs:36 | with the default gap 3 the passes are 3 then 1 |
| ShellSort.GapOneIsSorted | Cheesebaron.Havarti/Sort/ShellSort.cs:45 | a list in order at gap 1 is sorted |
| ShellSort.Sort | Cheesebaron.Havarti/Sort/ShellSort.cs:36-61 | a start gap <= 0 leaves the array unchanged; any positive start gap ends sorted; always a permutation |
| ShellSort.GapPass | Cheesebaron.Havarti/Sort/ShellSort.cs:40-52 | after a pass with gap g, values[k - g] <= values[k] for every k >= g, and the pass permutes |
| ShellSort.GapInsert | Cheesebaron.Havarti/Sort/ShellSort.cs:42-51 | one index's gapped insertion extends the gap order to index i and permutes |
| ShellSort.ShiftRun | Cheesebaron.Havarti/Sort/ShellSort.cs:45-49 | the shifting loop stops at a slot j whose gap predecessor is not greater than temp, keeping the hole invariant and the multiset with temp in the hole |
| ShellSort.Shift | Cheesebaron.Havarti/Sort/ShellSort.cs:47-48 | one shift moves values[j - gap] up into the hole and keeps the hole invariant |
| ShellSort.HoleStep | Cheesebaron.Havarti/Sort/ShellSort.cs:45-48 | moving a larger value up one gap moves the hole down one gap |
| ShellSort.HoleClose | Cheesebaron.Havarti/Sort/ShellSort.cs:51 | dropping temp into the hole gives gap order up to index i |
| ShellSort.Drop | Cheesebaron.Havarti/Sort/ShellSort.cs:51 | values[j] = temp writes only index j |
| HeapSort.MaxChild | Cheesebaron.Havarti/Sort/HeapSort.cs:46-52 | the child compared with root is 2r or 2r + 1, within bottom, and the larger of the two (2r + 1 on a tie) |
| HeapSort.SiftDown | Cheesebaron.Havarti/Sort/HeapSort.cs:40-64 | the loop with root and done leaves the array equal to SiftDownSeq of the old array |
| HeapSort.SiftDownPermutes | Cheesebaron.Havarti/Sort/HeapSort.cs:40-63 | SiftDown permutes and writes no index outside [root..bottom] |
| HeapSort.SiftDownRestores | Cheesebaron.Havarti/Sort/HeapSort.cs:44-63 | sifting from the one out-of-place position restores parent order (parent k / 2 of k >= 1) below top |
| HeapSort.SwapKeepsSift | Cheesebaron.Havarti/Sort/HeapSort.cs:54-59 | swapping root with its larger child moves the out-of-place position down to that child |
| HeapSort.RootIsMax | Cheesebaron.Havarti/Sort/HeapSort.cs:44-52 | with children 2r and 2r + 1, a heap over [0..bottom] holds its maximum at 0 |
| HeapSort.BuildHeapIsHeap | Cheesebaron.Havarti/Sort/HeapSort.cs:28-29 | the build loop from i turns a list that is a heap below i + 1 into a heap |
| HeapSort.LeavesAreHeaps | Cheesebaron.Havarti/Sort/HeapSort.cs:28 | no position after (Count - 1) / 2 has a child |
| HeapSort.BuildHeapPermutes | Cheesebaron.Havarti/Sort/HeapSort.cs:28-29 | the build loop permutes |
| HeapSort.ExtractPermutes | Cheesebaron.Havarti/Sort/HeapSort.cs:31-37 | the extraction loop permutes, puts the root at i, and never writes positions after i afterwards |
| HeapSort.SwapRootToEnd | Cheesebaron.Havarti/Sort/HeapSort.cs:33-35 | moving the root of the heap to i extends the sorted, bounding tail from i |
| HeapSort.ExtractStep | Cheesebaron.Havarti/Sort/HeapSort.cs:31-37 | one extraction step keeps a heap over [0..i - 1] below a sorted, bounding tail |
| HeapSort.SiftKeepsTail | Cheesebaron.Havarti/Sort/HeapSort.cs:36 | the sift over [0..i - 1] keeps the sorted tail from i and its bound |
| HeapSort.ExtractSorts | Cheesebaron.Havarti/Sort/HeapSort.cs:31-37 | from a heap, the extraction loop sorts |
| HeapSort.HeapSortPermutes | Cheesebaron.Havarti/Sort/HeapSort.cs:26-38 | the routine as written and the corrected one both permute, whatever the input |
| HeapSort.Build | Cheesebaron.Havarti/Sort/HeapSort.cs:28-29 | the first loop leaves BuildHeap of the old array |
| HeapSort.BuildStep | Cheesebaron.Havarti/Sort/HeapSort.cs:29 | one iteration of the first loop advances BuildHeap by one position |
| HeapSort.ExtractAll | Cheesebaron.Havarti/Sort/HeapSort.cs:31-37 | the second loop leaves Extract of the old array |
| HeapSort.ExtractStepInPlace | Cheesebaron.Havarti/Sort/HeapSort.cs:33-36 | one iteration of the second loop advances Extract by one position |
| HeapSort.Sort | Cheesebaron.Havarti/Sort/HeapSort.cs:26-38 | Sort as written: the array becomes HeapSortSeq of the input, a permutation of it |
| HeapSort.UnsortedExample | Cheesebaron.Havarti/Sort/HeapSort.cs:28 | Sort as written turns [5, 4, 3, 2, 9] into the unsorted [2, 3, 4, 9, 5] |
| HeapSort.CorrectedSorts | Cheesebaron.Havarti/Sort/HeapSort.cs:26-38 | with the build loop starting at (Count - 1) / 2 the routine sorts every list |
| HeapSort.CorrectedSort | Cheesebaron.Havarti/Sort/HeapSort.cs:26-38 | the corrected in-place routine leaves a sorted permutation of the input |
| MergeSort.MergeSeq | Cheesebaron.Havarti/Sort/MergeSort.cs:66-78 | the merge of two runs has the length of both |
| MergeSort.MergePermutes | Cheesebaron.Havarti/Sort/MergeSort.cs:66-78 | a merge holds each element of both runs as often as they do |
| MergeSort.MergeHead | Cheesebaron.Havarti/Sort/MergeSort.cs:68-71 | the first element of a merge is the head of one of the runs |
| MergeSort.MergeSorted | Cheesebaron.Havarti/Sort/MergeSort.cs:66-78 | merging two sorted runs gives a sorted list |
| MergeSort.Merge | Cheesebaron.Havarti/Sort/MergeSort.cs:59-85 | the runs [left..mid - 1] and [mid..right] are replaced by their merge; no index outside [left..right] changes |
| MergeSort.MergeIntoTemp | Cheesebaron.Havarti/Sort/MergeSort.cs:61-78 | the three loops fill temp[left..right] with the merge of the two runs |
| MergeSort.MergeAtIsMergeSeq | Cheesebaron.Havarti/Sort/MergeSort.cs:66-78 | the index-driven merge of the loops is the merge of the two runs as lists |
| MergeSort.MergeRuns | Cheesebaron.Havarti/Sort/MergeSort.cs:66-72 | the first loop fills temp with a prefix of the merge and stops when one run is used up |
| MergeSort.TakeSmaller | Cheesebaron.Havarti/Sort/MergeSort.cs:68-71 | one step takes the left head when it is not greater than the right head, otherwise the right head |
| MergeSort.CopyLeftRun | Cheesebaron.Havarti/Sort/MergeSort.cs:74-75 | the second loop copies what is left of the left run |
| MergeSort.CopyRightRun | Cheesebaron.Havarti/Sort/MergeSort.cs:77-78 | the third loop copies what is left of the right run |
| MergeSort.CopyBack | Cheesebaron.Havarti/Sort/MergeSort.cs:80-84 | the copy-back loop writes temp[left..right] into values and no other index |
| MergeSort.MergeSortSeq | Cheesebaron.Havarti/Sort/MergeSort.cs:40-49 | the recursion on lists keeps the length |
| MergeSort.MergeSortSeqSorted | Cheesebaron.Havarti/Sort/MergeSort.cs:40-49 | the recursion sorts |
| MergeSort.MergeSortSeqPermutes | Cheesebaron.Havarti/Sort/MergeSort.cs:40-49 | the recursion neither loses nor adds an element |
| MergeSort.MSort | Cheesebaron.Havarti/Sort/MergeSort.cs:40-49 | the array becomes SortedSegment of the old array: only [left..right] changes, a segment of length <= 1 not at all |
| MergeSort.MergeHalves | Cheesebaron.Havarti/Sort/MergeSort.cs:48 | merging the two sorted halves completes SortedSegment for the whole segment |
| MergeSort.SortedSegmentSorts | Cheesebaron.Havarti/Sort/MergeSort.cs:40-49 | SortedSegment replaces the segment by the recursion's sorted list and keeps everything outside it |
| MergeSort.Sort | Cheesebaron.Havarti/Sort/MergeSort.cs:27-30 | the array becomes MergeSortSeq of the input: sorted and a permutation |
| QuickSort.Sort | Cheesebaron.Havarti/Sort/QuickSort.cs:31-34 | fails exactly on an empty list, changing nothing; otherwise leaves a sorted permutation |
| QuickSort.Sorting | Cheesebaron.Havarti/Sort/QuickSort.cs:36-66 | sorts [left..right] in place and changes no index outside it |
| QuickSort.Partition | Cheesebaron.Havarti/Sort/QuickSort.cs:38-58 | the pivot is the middle element; after the loop j < i, [left..j] is <= pivot and [i..right] is >= pivot, the segment is permuted in place and nothing outside changes |
| QuickSort.ScanUp | Cheesebaron.Havarti/Sort/QuickSort.cs:43-44 | the upward scan stops at the first value >= pivot, before the known stopper, so it never leaves the segment |
| QuickSort.ScanDown | Cheesebaron.Havarti/Sort/QuickSort.cs:46-47 | the downward scan stops at the last value <= pivot, after the known stopper |
| QuickSort.PartitionStart | Cheesebaron.Havarti/Sort/QuickSort.cs:38-39 | the loop starts with the pivot position as stopper for both scans |
| QuickSort.NoSwap | Cheesebaron.Havarti/Sort/QuickSort.cs:49 | crossed scans end the loop with the invariant kept |
| QuickSort.Swapped | Cheesebaron.Havarti/Sort/QuickSort.cs:52-57 | the swap and the two steps keep the invariant, each swapped position becoming the other scan's stopper |
| QuickSort.ScanningDone | Cheesebaron.Havarti/Sort/QuickSort.cs:41-58 | when the loop ends the segment is partitioned around the pivot |
| QuickSort.Combine | Cheesebaron.Havarti/Sort/QuickSort.cs:61-65 | sorting [left..j] and then [i..right] of a partitioned segment sorts the segment |
| EvilSort.Sort | Cheesebaron.Havarti/Sort/EvilSort.cs:40-43 | although first and result are the same list, Sort leaves a sorted permutation of the input |
| EvilSort.RecSort | Cheesebaron.Havarti/Sort/EvilSort.cs:45-78 | when second is sorted result ends as the sorted arrangement of first and second; when it is not, result is never written |
| EvilSort.TryPositions | Cheesebaron.Havarti/Sort/EvilSort.cs:56-75 | the j loop for one i keeps the multiset of first and second and either leaves result alone or leaves it sorted with those elements |
| EvilSort.Without | Cheesebaron.Havarti/Sort/EvilSort.cs:61-65 | t1 is first with index i removed |
| EvilSort.InsertAt | Cheesebaron.Havarti/Sort/EvilSort.cs:67-72 | t2 is second with first[i] inserted at j |
| EvilSort.IsSorted | Cheesebaron.Havarti/Sort/EvilSort.cs:86-92 | true exactly when the list is sorted |
| EvilSort.SplitPermutes | Cheesebaron.Havarti/Sort/EvilSort.cs:58-74 | moving first[i] into second keeps the multiset of the two lists |
| EvilSort.InsertPosBounds | Cheesebaron.Havarti/Sort/EvilSort.cs:56 | some j among 0..Count puts x after every smaller element and before the rest |
| EvilSort.InsertAtPosSorted | Cheesebaron.Havarti/Sort/EvilSort.cs:56-74 | inserting at that j keeps a sorted second sorted, so some branch succeeds |
| EvilSort.InsertKeepsUnsorted | Cheesebaron.Havarti/Sort/EvilSort.cs:67-72 | an unsorted second stays unsorted after any insertion, so such a branch never writes result |
| BinaryTrees.SizeCounts | Cheesebaron.Havarti/Collections/BinaryTree.cs:61 | the node count of a tree is the size of its multiset of values |
| BinaryTrees.InsertElements | Cheesebaron.Havarti/Collections/BinaryTree.cs:105-147 | Add adds exactly one copy of the value and one node |
| BinaryTrees.InsertBst | Cheesebaron.Havarti/Collections/BinaryTree.cs:117-145 | sending values <= a node left and larger ones right keeps left <= node < right |
| BinaryTrees.PutElements | Cheesebaron.Havarti/Collections/BinaryTree.cs:24-25 | rewriting the subtree at a node swaps its values for the new subtree's |
| BinaryTrees.PutBst | Cheesebaron.Havarti/Collections/BinaryTree.cs:24-25 | replacing a subtree by a search tree drawn from its values keeps search order |
| BinaryTrees.FindPathFinds | Cheesebaron.Havarti/Collections/BinaryTree.cs:248-266 | a found node lies on the search path and holds the value |
| BinaryTrees.FindPathComplete | Cheesebaron.Havarti/Collections/BinaryTree.cs:248-266 | in a search tree Find finds a node exactly when the value is stored |
| BinaryTrees.MostLeftIsMinimum | Cheesebaron.Havarti/Collections/BinaryTree.cs:276-289 | following Left ends at a node without Left holding the minimum |
| BinaryTrees.MostRightIsMaximum | Cheesebaron.Havarti/Collections/BinaryTree.cs:291-304 | following Right ends at a node without Right holding the maximum |
| BinaryTrees.RemoveMaxElements | Cheesebaron.Havarti/Collections/BinaryTree.cs:228-238 | removing the rightmost node of a subtree removes one copy of its value |
| BinaryTrees.RemoveMaxBst | Cheesebaron.Havarti/Collections/BinaryTree.cs:228-238 | removing the rightmost node keeps search order |
| BinaryTrees.SpliceFacts | Cheesebaron.Havarti/Collections/BinaryTree.cs:174-224 | putting the only child (or nothing) in place of a node keeps search order, removes one node and one copy of its value |
| BinaryTrees.CopyPredecessor | Cheesebaron.Havarti/Collections/BinaryTree.cs:227-238 | copying the predecessor's value into a two-child node keeps search order, and the predecessor is the rightmost node of the left subtree |
| BinaryTrees.PredecessorRemoved | Cheesebaron.Havarti/Collections/BinaryTree.cs:236-238 | copying the predecessor and removing it removes one copy of the node's value |
| BinaryTrees.TraversalsVisitAll | Cheesebaron.Havarti/Collections/BinaryTree.cs:341-468 | each of the three traversals lists every stored value as often as it is stored |
| BinaryTrees.InOrderSorted | Cheesebaron.Havarti/Collections/BinaryTree.cs:341-349 | the in-order traversal of a search tree is ascending |
| BinaryTrees.RootPosition | Cheesebaron.Havarti/Collections/BinaryTree.cs:401-468 | the pre-order traversal (code at 461-468) starts with the root and the post-order one (401-409) ends with it |
| BinaryTrees.FindMostLeft | Cheesebaron.Havarti/Collections/BinaryTree.cs:276-289 | the loop returns the leftmost node, which holds the minimum of a search tree |
| BinaryTrees.FindMostRight | Cheesebaron.Havarti/Collections/BinaryTree.cs:291-304 | the loop returns the rightmost node, which holds the maximum of a search tree |
| BinaryTrees.FindPredecessor | Cheesebaron.Havarti/Collections/BinaryTree.cs:228-234 | the loop reaches the rightmost node of the left subtree |
| BinaryTrees.BinaryTree.constructor | Cheesebaron.Havarti/Collections/BinaryTree.cs:84-89 | an empty tree, Count 0, in-order traversal |
| BinaryTrees.BinaryTree.Add | Cheesebaron.Havarti/Collections/BinaryTree.cs:95-147 | the tree gains exactly one copy of the value, Count grows by one, search order is kept |
| BinaryTrees.BinaryTree.Find | Cheesebaron.Havarti/Collections/BinaryTree.cs:248-266 | returns the first node on the search path holding the value, or none; in a search tree a node is found exactly when the value is stored |
| BinaryTrees.BinaryTree.Contains | Cheesebaron.Havarti/Collections/BinaryTree.cs:271-274 | holds exactly when Find finds a node, so exactly when the value was added |
| BinaryTrees.BinaryTree.LeftMost | Cheesebaron.Havarti/Collections/BinaryTree.cs:71-74 | none on an empty tree, otherwise the leftmost node, holding the minimum |
| BinaryTrees.BinaryTree.RightMost | Cheesebaron.Havarti/Collections/BinaryTree.cs:79-82 | none on an empty tree, otherwise the rightmost node, holding the maximum |
| BinaryTrees.BinaryTree.Enumerate | Cheesebaron.Havarti/Collections/BinaryTree.cs:306-317 | yields the traversal the TraversalOrder selects, which lists every value; in-order on a search tree it is ascending |
| BinaryTrees.BinaryTree.Remove | Cheesebaron.Havarti/Collections/BinaryTree.cs:152-157 | an absent value gives false and changes nothing; otherwise one copy of the value goes and Count drops by one, or, for a root with at most one child, the failure with Count unchanged and Root already replaced by its child (a childless root stays) |
| BinaryTrees.BinaryTree.RemoveNode | Cheesebaron.Havarti/Collections/BinaryTree.cs:162-243 | Count 1 empties the tree; a leaf or one-child node is spliced out with Count one less; a one-child root fails with Root already moved; search order is always kept |
| BinaryTrees.BinaryTree.ReplaceByPredecessor | Cheesebaron.Havarti/Collections/BinaryTree.cs:225-240 | a two-child node takes its predecessor's value and the predecessor is removed: one copy of the value goes, search order is kept |
| PriorityQueues.InsertPosition | Cheesebaron.Havarti/Collections/PriorityQueue.cs:35-40 | the scan stops before the first item that is not less than the new one |
| PriorityQueues.InsertedContents | Cheesebaron.Havarti/Collections/PriorityQueue.cs:42-47 | the item is inserted at that position and the other items keep their order |
| PriorityQueues.InsertedMultiset | Cheesebaron.Havarti/Collections/PriorityQueue.cs:27-48 | the list gains exactly the item |
| PriorityQueues.InsertedKeepsOrder | Cheesebaron.Havarti/Collections/PriorityQueue.cs:27-48 | a sorted list stays sorted |
| PriorityQueues.LinkedListQueue.constructor | Cheesebaron.Havarti/Collections/PriorityQueue.cs:22-25 | an empty list |
| PriorityQueues.LinkedListQueue.IsEmptyMeansNoItems | Cheesebaron.Havarti/Collections/PriorityQueue.cs:63-66 | IsEmpty holds exactly when the list has no items |
| PriorityQueues.LinkedListQueue.Enqueue | Cheesebaron.Havarti/Collections/PriorityQueue.cs:27-48 | the list becomes the old list with the item before the first item not less than it; one item more, sorted order kept |
| PriorityQueues.LinkedListQueue.Dequeue | Cheesebaron.Havarti/Collections/PriorityQueue.cs:50-56 | returns the first item, the smallest, and removes only it |
| PriorityQueues.LinkedListQueue.Peek | Cheesebaron.Havarti/Collections/PriorityQueue.cs:58-61 | returns the first item, the smallest, without changing the list |
| PriorityQueues.Front | Cheesebaron.Havarti/Collections/PriorityQueue.cs:139-149 | the value of the leftmost node in Lowest mode or the rightmost in Highest mode: a stored value, the minimum or the maximum of a search tree |
| PriorityQueues.TreeQueue.constructor | Cheesebaron.Havarti/Collections/PriorityQueue.cs:98-102 | an empty tree in Lowest mode |
| PriorityQueues.TreeQueue.EmptyCountMeansEmptyTree | Cheesebaron.Havarti/Collections/PriorityQueue.cs:151-154 | IsEmpty (Count == 0) means the tree holds nothing |
| PriorityQueues.TreeQueue.Enqueue | Cheesebaron.Havarti/Collections/PriorityQueue.cs:108-111 | the tree gains one copy of the item and Count grows by one |
| PriorityQueues.TreeQueue.Peek | Cheesebaron.Havarti/Collections/PriorityQueue.cs:139-149 | returns what Front gives for the mode |
| PriorityQueues.TreeQueue.Dequeue | Cheesebaron.Havarti/Collections/PriorityQueue.cs:117-133 | returns what Peek would and removes one node holding it, or takes the tree's root failure, leaving the tree as BinaryTree.Remove states |
| PriorityQueues.DequeueAfterOneTwo | Cheesebaron.Havarti/Collections/PriorityQueue.cs:117-133 | after enqueueing 1 and 2, the Lowest-mode front 1 sits at the root, which has one child: Dequeue then hits the failing case of BinaryTree.Remove |
| RbNodes.LiveKeysAreKeys | Cheesebaron.Havarti/Collections/RedBlackTree.cs:30 | the live values are among the stored values |
| RbNodes.ParentDirection | Cheesebaron.Havarti/Collections/RedBlackTree.cs:32-40 | in search order, the answer is Right exactly for a node in its Parent's Left field, and Left for a Right child or the root |
| RbNodes.GetSiblingNode | Cheesebaron.Havarti/Collections/RedBlackTree.cs:316-326 | none without a Parent; otherwise, in search order, the node in the Parent's other child field, if any |
| RbNodes.FindPathFinds | Cheesebaron.Havarti/Collections/RedBlackTree.cs:195-212 | the comparison walk stops at a node holding the value |
| RbNodes.FindPathComplete | Cheesebaron.Havarti/Collections/RedBlackTree.cs:195-212 | in search order the walk stops at a node exactly when the value is stored |
| RbNodes.LiveAt | Cheesebaron.Havarti/Collections/RedBlackTree.cs:117 | in search order, a node's value is live exactly when that node is not tombstoned |
| RbNodes.TombstoneEffect | Cheesebaron.Havarti/Collections/RedBlackTree.cs:215-220 | tombstoning keeps every node and the search order and takes exactly its value out of the live values |
| RbNodes.TombstoneRedBlack | Cheesebaron.Havarti/Collections/RedBlackTree.cs:218 | tombstoning keeps the red-black invariants |
| RbNodes.BstInsertEffect | Cheesebaron.Havarti/Collections/RedBlackTree.cs:144-183 | the walk adds the value as one live node exactly when no node holds it, and otherwise changes nothing; search order is kept |
| RbNodes.InOrderFacts | Cheesebaron.Havarti/Collections/RedBlackTree.cs:476-491 | in-order enumeration lists every node's value, tombstoned ones included, once each, ascending |
| RbNodes.MostLeft | Cheesebaron.Havarti/Collections/RedBlackTree.cs:77-81 | following Left ends at a node without Left holding the minimum, tombstoned or not |
| RbNodes.MostRight | Cheesebaron.Havarti/Collections/RedBlackTree.cs:92-96 | following Right ends at a node without Right holding the maximum, tombstoned or not |
| RbNodes.ChildrenSize | Cheesebaron.Havarti/Collections/RedBlackTree.cs:240-244 | the children enqueued after a node hold all its other nodes |
| RbNodes.LevelOrderStep | Cheesebaron.Havarti/Collections/RedBlackTree.cs:236-249 | one dequeue keeps the collected list on course and shrinks the queued nodes, so the walk ends |
| RbNodes.LevelOrderLiveKeys | Cheesebaron.Havarti/Collections/RedBlackTree.cs:236-249 | the walk collects exactly the live values of the queued trees |
| RbNodes.LevelOrderDistinct | Cheesebaron.Havarti/Collections/RedBlackTree.cs:236-249 | over trees with disjoint values the walk lists no value twice |
| RbNodes.WalkFacts | Cheesebaron.Havarti/Collections/RedBlackTree.cs:230-249 | a walk from an ordered root lists each live value exactly once |
| RbNodes.RotatedLeftInOrder | Cheesebaron.Havarti/Collections/RedBlackTree.cs:349-361 | the rotation that promotes the Right child keeps the in-order sequence |
| RbNodes.RotatedLeftKeys | Cheesebaron.Havarti/Collections/RedBlackTree.cs:349-361 | it keeps the stored values, the live values and the node count |
| RbNodes.RotatedLeftOrdered | Cheesebaron.Havarti/Collections/RedBlackTree.cs:349-361 | it keeps search order |
| RbNodes.RotatedRightInOrder | Cheesebaron.Havarti/Collections/RedBlackTree.cs:373-385 | the rotation that promotes the Left child keeps the in-order sequence |
| RbNodes.RotatedRightKeys | Cheesebaron.Havarti/Collections/RedBlackTree.cs:373-385 | it keeps the stored values, the live values and the node count |
| RbNodes.RotatedRightOrdered | Cheesebaron.Havarti/Collections/RedBlackTree.cs:373-385 | it keeps search order |
| RbNodes.RecoloredKeeps | Cheesebaron.Havarti/Collections/RedBlackTree.cs:271-273 | the red-uncle recolouring keeps values and order |
| RbNodes.FixedColorsKeeps | Cheesebaron.Havarti/Collections/RedBlackTree.cs:328-342 | FixChildColors keeps values and order |
| RbNodes.PaintKeeps | Cheesebaron.Havarti/Collections/RedBlackTree.cs:186 | painting the root Black keeps values and order |
| RbNodes.InsertRepairing | Cheesebaron.Havarti/Collections/RedBlackTree.cs:148-157 | a Red leaf hung under a node of a red-black tree leaves at most one Red-Red pair, at that node |
| RbNodes.PlaceLeaf | Cheesebaron.Havarti/Collections/RedBlackTree.cs:150-157 | a new value's Red leaf adds exactly that value as one live node, keeps search order, and leaves a red-black tree in repair state at the Parent |
| RbNodes.MeetEqual | Cheesebaron.Havarti/Collections/RedBlackTree.cs:146-185 | an equal value on the path adds nothing and hands CheckNode a tree already in repair state |
| RbNodes.RepairDone | Cheesebaron.Havarti/Collections/RedBlackTree.cs:262-266 | CheckNode stops on a Black node, and on a Red one without Red children: nothing is left to repair |
| RbNodes.NoCrash | Cheesebaron.Havarti/Collections/RedBlackTree.cs:284-301 | a Red node in repair state that is not a childless Red node and whose Left child is not Red has a Right child, so the read of `current.Right.Color` at 301 succeeds there |
| RbNodes.RecolorRepairs | Cheesebaron.Havarti/Collections/RedBlackTree.cs:268-280 | the red-uncle step fixes the pair and moves the repair up to the grandparent |
| RbNodes.InnerLeftRepairs | Cheesebaron.Havarti/Collections/RedBlackTree.cs:344-365 | RotateRightChildRightParent keeps the repair at the same place, now a Left-Left case |
| RbNodes.InnerRightRepairs | Cheesebaron.Havarti/Collections/RedBlackTree.cs:367-390 | RotateLeftChildLeftParent keeps the repair at the same place, now a Right-Right case |
| RbNodes.OuterLeftRepairs | Cheesebaron.Havarti/Collections/RedBlackTree.cs:392-431 | RotateLeftChildRightParent with FixChildColors fixes the pair and moves the repair above the old Parent |
| RbNodes.OuterRightRepairs | Cheesebaron.Havarti/Collections/RedBlackTree.cs:433-474 | RotateRightChildLeftParent with FixChildColors does the mirror |
| RbNodes.PaintRoot | Cheesebaron.Havarti/Collections/RedBlackTree.cs:186 | once repaired, painting the root Black gives a red-black tree |
| RbNodes.SizeIsKeys | Cheesebaron.Havarti/Collections/RedBlackTree.cs:66-67 | in search order each node holds a different value, so the counts' sum is the number of values |
| RbNodes.ContainsMeaning | Cheesebaron.Havarti/Collections/RedBlackTree.cs:100-123 | in search order the walk ends on a live node exactly for the live values |
| RedBlackTrees.Half | Cheesebaron.Havarti/Collections/RedBlackTree.cs:223 | integer division by two rounding toward zero, for negative counts too |
| RedBlackTrees.RedBlackTree.constructor | Cheesebaron.Havarti/Collections/RedBlackTree.cs:65-67 | an empty tree with both counters 0 |
| RedBlackTrees.RedBlackTree.Insert | Cheesebaron.Havarti/Collections/RedBlackTree.cs:125-142 | the stored values gain the value and it is live if it was not stored; NodeCount grows by one exactly when it was not stored; on a red-black tree a success leaves it red-black, a new value always succeeds, and a failure leaves the tree unchanged |
| RedBlackTrees.RedBlackTree.InsertBelow | Cheesebaron.Havarti/Collections/RedBlackTree.cs:144-183 | the recursive walk from a node: what Insert states, from that node down |
| RedBlackTrees.RedBlackTree.Settle | Cheesebaron.Havarti/Collections/RedBlackTree.cs:146-186 | the walk's last step: hang the Red leaf or meet the equal value, then repair and paint the root; on a red-black tree a failure leaves the tree unchanged |
| RedBlackTrees.RedBlackTree.FixUp | Cheesebaron.Havarti/Collections/RedBlackTree.cs:185-186 | CheckNode then Root Black: from a repair state the tree is red-black, and it fails only where a Red node without children is reached, and then the tree is unchanged |
| RedBlackTrees.RedBlackTree.CheckNode | Cheesebaron.Havarti/Collections/RedBlackTree.cs:260-314 | nothing on null or a Black node; from a repair state the result is repaired, and failure happens only on a Red node without children and leaves the tree unchanged |
| RedBlackTrees.RedBlackTree.Recolor | Cheesebaron.Havarti/Collections/RedBlackTree.cs:268-281 | the uncle and node turn Black and the Parent Red; continuing at the grandparent repairs the tree |
| RedBlackTrees.RedBlackTree.RotateRightChildRightParent | Cheesebaron.Havarti/Collections/RedBlackTree.cs:344-365 | keeps the nodes and counters; with a Red Right child under a Red node the tree ends repaired |
| RedBlackTrees.RedBlackTree.RotateLeftChildLeftParent | Cheesebaron.Havarti/Collections/RedBlackTree.cs:367-390 | at the root nothing happens; with a Red Left child under a Red node the tree ends repaired |
| RedBlackTrees.RedBlackTree.RotateLeftChildRightParent | Cheesebaron.Havarti/Collections/RedBlackTree.cs:392-431 | keeps the nodes and counters; when the Parent was Root, the promoted node becomes Root and the tree is the rotated, recoloured old tree; from a repair state with a non-Red uncle the tree ends repaired |
| RedBlackTrees.RedBlackTree.RotateRightChildLeftParent | Cheesebaron.Havarti/Collections/RedBlackTree.cs:433-474 | the mirror: at the root nothing happens; when the Parent was Root the promoted node becomes Root as above; from a repair state with a non-Red uncle the tree ends repaired |
| RedBlackTrees.RedBlackTree.Replace | Cheesebaron.Havarti/Collections/RedBlackTree.cs:410-424 | the promoted node becomes Root or goes into the grandparent field chosen by comparing values |
| RedBlackTrees.RedBlackTree.FixChildColors | Cheesebaron.Havarti/Collections/RedBlackTree.cs:328-342 | the node at the path changes exactly as FixedColors says and nothing else |
| RedBlackTrees.RedBlackTree.Contains | Cheesebaron.Havarti/Collections/RedBlackTree.cs:100-123 | false on an empty tree or after falling off; on an equal node, whether it is not tombstoned; so exactly the live values |
| RedBlackTrees.RedBlackTree.DeleteNode | Cheesebaron.Havarti/Collections/RedBlackTree.cs:189-213 | an absent value changes nothing; otherwise the first node holding it is tombstoned (again, if it already was) and its value is no longer live; red-black is kept |
| RedBlackTrees.RedBlackTree.SoftDelete | Cheesebaron.Havarti/Collections/RedBlackTree.cs:215-225 | sets IsDeleted, one more deleted and one less live; rebuilds exactly when DeletedNodesCount >= NodeCount / 2 after the update |
| RedBlackTrees.RedBlackTree.CleanupTree | Cheesebaron.Havarti/Collections/RedBlackTree.cs:227-258 | the rebuilt tree holds exactly the old live values, none tombstoned, DeletedNodesCount 0, NodeCount the number of values, and is red-black |
| RedBlackTrees.RedBlackTree.Reinsert | Cheesebaron.Havarti/Collections/RedBlackTree.cs:256-257 | inserting a value not yet held into the rebuilt tree adds it and keeps it red-black and free of tombstones |
| RedBlackTrees.RedBlackTree.LiveInLevelOrder | Cheesebaron.Havarti/Collections/RedBlackTree.cs:230-249 | the queue walk collects the live values breadth-first, each once |
| RedBlackTrees.RedBlackTree.LeftMostNode | Cheesebaron.Havarti/Collections/RedBlackTree.cs:70-83 | fails on an empty tree; otherwise the node reached by following Left, holding the minimum |
| RedBlackTrees.RedBlackTree.RightMostNode | Cheesebaron.Havarti/Collections/RedBlackTree.cs:85-98 | fails on an empty tree; otherwise the node reached by following Right, holding the maximum |
| RedBlackTrees.RedBlackTree.Enumeration | Cheesebaron.Havarti/Collections/RedBlackTree.cs:493-496 | fails on an empty tree; otherwise every stored value once, ascending |
| Graphs.NeighborsSnoc | Cheesebaron.Havarti/Graphs/Graph.cs:107-123 | each edge appends its contribution in edge order |
| Graphs.NeighborsMembership | Cheesebaron.Havarti/Graphs/Graph.cs:103-126 | w is a neighbour of v exactly when some edge links them under the graph's rule |
| Graphs.DirectedNeighborsBound | Cheesebaron.Havarti/Graphs/Graph.cs:111-114 | in a directed graph each edge contributes at most one neighbour |
| Graphs.UndirectedPairTwice | Cheesebaron.Havarti/Graphs/Graph.cs:71-74 | one undirected AddEdge between distinct vertices makes each end a neighbour of the other twice |
| Graphs.RemoveFirstEffect | Cheesebaron.Havarti/Graphs/Graph.cs:88-92 | removing a present edge drops exactly its first copy; removing an absent one changes nothing |
| Graphs.WithoutIncidentKeeps | Cheesebaron.Havarti/Graphs/Graph.cs:52-55 | the intended removal keeps exactly the edges that do not touch the vertex |
| Graphs.Graph.constructor | Cheesebaron.Havarti/Graphs/Graph.cs:28-33 | the given type, no vertices, no edges |
| Graphs.Graph.AddVertex | Cheesebaron.Havarti/Graphs/Graph.cs:39-46 | fails exactly when the id is taken; otherwise adds the vertex under its id; edges unchanged |
| Graphs.Graph.RemoveVertex | Cheesebaron.Havarti/Graphs/Graph.cs:48-58 | as written: an unknown id throws (MissingVertex) and changes nothing; a vertex without incident edges is removed; with an incident edge the first one is removed and the enumeration fails |
| Graphs.Graph.RemoveVertexIntended | Cheesebaron.Havarti/Graphs/Graph.cs:48-58 | as intended: every incident edge and then the vertex are removed, the other edges keep their order |
| Graphs.Graph.AddEdge | Cheesebaron.Havarti/Graphs/Graph.cs:64-76 | appends one edge when Directed, or the edge and its reverse with the same label and cost when Undirected |
| Graphs.Graph.RemoveEdge | Cheesebaron.Havarti/Graphs/Graph.cs:88-92 | drops the first occurrence of the edge, if any |
| Graphs.Graph.GetNeighbors | Cheesebaron.Havarti/Graphs/Graph.cs:103-126 | the neighbour list in edge order; it contains w exactly when some edge links v to w |
| GraphExtensions.FreshProperties | Cheesebaron.Havarti/Graphs/GraphExtensions.cs:44 | the filter on the unvisited set lets each unvisited neighbour through exactly once |
| GraphExtensions.TakeUnvisited | Cheesebaron.Havarti/Graphs/GraphExtensions.cs:44-45 | the foreach over the filtered neighbours returns those let through and removes them from the unvisited set |
| GraphExtensions.SearchTreeReachable | Cheesebaron.Havarti/Graphs/GraphExtensions.cs:39-47 | each vertex a search emits is reachable from its first vertex |
| GraphExtensions.LevelsNondecreasing | Cheesebaron.Havarti/Graphs/GraphExtensions.cs:64-71 | in a breadth-first search tree, depth never decreases along the emitted order |
| GraphExtensions.DfsStep | Cheesebaron.Havarti/Graphs/GraphExtensions.cs:42-45 | popping a vertex, emitting it and pushing its fresh neighbours keeps the search invariant: distinct, reachable through recorded parents, pushed ids taken out of the unvisited set |
| GraphExtensions.BfsStep | Cheesebaron.Havarti/Graphs/GraphExtensions.cs:66-69 | dequeue, emit and enqueue the fresh neighbours keeps the breadth-first invariant |
| GraphExtensions.DepthFirstSearch | Cheesebaron.Havarti/Graphs/GraphExtensions.cs:31-48 | the result starts with the start id, repeats no id, lists only vertex ids after the start, and is a search tree of the graph |
| GraphExtensions.BreathFirstSearch | Cheesebaron.Havarti/Graphs/GraphExtensions.cs:55-72 | the same, and the search tree is breadth-first (depth non-decreasing along the result) |

## Findings

| source | as written | input that shows it | evidently intended | confidence | as-written member | corrected member |
|---|---|---|---|---|---|---|
| Cheesebaron.Havarti/Sort/HeapSort.cs:28 | the build loop starts at `Count / 2 - 1`; with children `2r` and `2r + 1`, the node `(Count - 1) / 2` is a parent that is never sifted when Count is odd | `[5, 4, 3, 2, 9]` comes out as `[2, 3, 4, 9, 5]` | start the build loop at the last parent, `(Count - 1) / 2`, so the routine sorts | high (not executed) | HeapSort.UnsortedExample | HeapSort.CorrectedSorts |
| Cheesebaron.Havarti/Graphs/Graph.cs:52-55 | `Edges.Remove` runs inside a `foreach` over a lazy `Where` on `Edges`, so the enumeration is invalidated by the first removal | a vertex with one incident edge: that edge is removed and the next `MoveNext` throws, and the vertex stays | drop every incident edge, then the vertex | high (not executed) | Graphs.Graph.RemoveVertex | Graphs.Graph.RemoveVertexIntended |

## Left out

- Generic `T` and `IComparable`: elements are `int`, and `CompareTo` is integer comparison. The string lists the tests also sort are not modelled.
- Integer width: `int` is unbounded. Count and index overflow past 2^31 - 1 are not modelled.
- Parent pointers: they are not stored. A node's Parent is its path without the last step, so rewiring Parent fields is implied by the new tree value rather than modelled field by field.
- Node identity: a node is named by its path. Removing or adding a foreign node (`BinaryTree.Remove(Node)` with a node of another tree, or `Add(Node)` with a preset Parent) is not modelled; Add takes a value and starts at the root.
- Enumerator plumbing: `IEnumerator` Reset, Dispose and Current, the queue field MoveNext drains, and `yield` laziness. Traversals are sequences.
- BinaryTrees.BinaryTree.Enumerate: the TraversalOrder setter is not modelled, so the order is whatever the field holds; PriorityQueues.TreeQueue likewise leaves the Mode setter out.
- PriorityQueues.LinkedListQueue.Dequeue: requires a non-empty list; on an empty list the source dereferences a null `First`, which is not modelled. So does PriorityQueues.LinkedListQueue.Peek.
- PriorityQueues.TreeQueue.Dequeue: requires a non-empty tree; on an empty tree the source reads `Data` of a null LeftMost or RightMost. So does PriorityQueues.TreeQueue.Peek.
- RedBlackTrees.RedBlackTree.CleanupTree: requires a non-empty root, which is all its one caller can pass, since SoftDelete has just tombstoned a node; the source would enqueue a null Root otherwise.
- RedBlackTrees.RedBlackTree.Insert: a crash inside the fix-up on an equal value is modelled as `ok` false; the exception itself is not. The unchanged tree after a failure is stated only when the tree was red-black beforehand.
- RedBlackTrees.RedBlackTree.RotateRightChildRightParent: its `IsRoot` guard cannot fire, since ParentDirection is Right only below a Parent, so the model has no branch for it.
- RedBlackTrees.RedBlackTree.RotateLeftChildRightParent: the same holds for its `IsRoot` guard (RedBlackTree.cs:395-396), so the model has no branch for it either.
- GraphExtensions.BreathFirstSearch: proves that search-tree depth never decreases along the result, which is weaker than non-decreasing shortest hop distance from the start.
- GraphExtensions.DepthFirstSearch: completeness (every reachable vertex id is listed) is not proved for either search.
- MergeSort.Merge: stability is not modelled, because equal `int` values cannot be told apart; the same holds for BubbleSort.Sort and InsertionSort.Sort.
- Edges are compared by value, not by reference: two distinct Edge objects with equal fields count as the same edge for RemoveEdge.
- Vertices are represented by their id, label and the table keyed by id; Cost, Visited, Previous, Data and Clone of a vertex are not modelled.
- `WidestPath` and `GetEdgeCost`: floating point with infinities and a foreign `MaxBy`.
- `BogoSort`: random shuffling in an unbounded loop.
- `PrintSubTree` and `ToString`: diagnostic text.
- `List<T>` modified during `foreach`: the sorts work on arrays, so the `foreach` of BubbleSort.Sort is a counted loop.
