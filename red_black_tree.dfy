/** RedBlackTree: a search tree of integers whose insertions rebalance by
    recolouring and rotating, whose deletions only tombstone a node, and
    which rebuilds itself from its live values once at least half as many
    nodes are tombstoned as are live. The nodes are the values of `RbNodes`;
    the object holds the root and the two counters. Where the source throws
    (a null Right child read during the fix-up), a method returns `ok`
    false, and where a property throws on an empty tree, it returns None. */
module RedBlackTrees {
  import opened Common
  import opened RbNodes

  /** C#'s `/` on int rounds toward zero (Dafny's rounds down for negative
      dividends). */
  function Half(n: int): (h: int)
    ensures n >= 0 ==> 0 <= n - 2 * h <= 1
    ensures n < 0 ==> -1 <= n - 2 * h <= 0
  {
    if n >= 0 then n / 2 else -((-n) / 2)
  }

  /** The nodes on the way down from `t` always stepping `d`. */
  function Spine(t: RBTree, d: Dir): nat {
    if t.Leaf? then 0 else 1 + Spine(Child(t, d), d)
  }

  /** How far the inner rotations can still go at a node: the length of its
      spine away from the side it hangs on. */
  function Measure(t: RBTree, o: Option<seq<Dir>>): nat {
    if o.None? || |o.value| == 0 then 0 else Spine(At(t, o.value), Opposite(Last(o.value)))
  }

  function Rank(o: Option<seq<Dir>>): nat {
    if o.None? then 0 else |o.value|
  }

  class RedBlackTree {
    var root: RBTree
    var nodeCount: int
    var deletedNodesCount: int

    /** The nodes are in strict search order, and each is counted once, as
        live (NodeCount) or as deleted (DeletedNodesCount). */
    ghost predicate Valid()
      reads this
    {
      Ordered(root) && nodeCount + deletedNodesCount == Size(root) && deletedNodesCount >= 0
    }

    constructor ()
      ensures root == Leaf && nodeCount == 0 && deletedNodesCount == 0
      ensures Valid() && RedBlack(root)
    {
      root := Leaf;
      nodeCount := 0;
      deletedNodesCount := 0;
    }

    predicate IsEmpty()
      reads this
    {
      root.Leaf?
    }

    /** Insert: a Black root when the tree is empty, otherwise the
        comparison walk from the root. An equal value changes no node, so a
        tombstoned value stays tombstoned. Inserting a new value into a
        red-black tree never fails and keeps it red-black. */
    method Insert(value: int) returns (ok: bool)
      requires Valid()
      modifies this
      ensures Valid()
      ensures Keys(root) == old(Keys(root)) + {value}
      ensures LiveKeys(root) == old(LiveKeys(root)) + (if value in old(Keys(root)) then {} else {value})
      ensures nodeCount == old(nodeCount) + (if value in old(Keys(root)) then 0 else 1)
      ensures deletedNodesCount == old(deletedNodesCount)
      ensures old(RedBlack(root)) ==> (ok ==> RedBlack(root)) && (value !in old(Keys(root)) ==> ok)
      ensures old(RedBlack(root)) && !ok ==> root == old(root)
    {
      if root.Leaf? {
        root := RBNode(Leaf, Black, value, false, Leaf);
        nodeCount := nodeCount + 1;
        ok := true;
      } else {
        ok := InsertBelow(value, []);
      }
    }

    /** Insert(value, current): walk Left on a smaller value and Right on a
        greater one; hang a Red leaf where the walk falls off the tree; then
        CheckNode on the node reached and paint the root Black. `p` is on
        the value's search path. */
    method InsertBelow(value: int, p: seq<Dir>) returns (ok: bool)
      requires Valid() && Reaches(root, p) && At(root, p).RBNode?
      requires Put(root, p, BstInsert(At(root, p), value)) == BstInsert(root, value)
      modifies this
      decreases Size(At(root, p))
      ensures Valid()
      ensures Keys(root) == old(Keys(root)) + {value}
      ensures LiveKeys(root) == old(LiveKeys(root)) + (if value in old(Keys(root)) then {} else {value})
      ensures nodeCount == old(nodeCount) + (if value in old(Keys(root)) then 0 else 1)
      ensures deletedNodesCount == old(deletedNodesCount)
      ensures old(RedBlack(root)) ==> (ok ==> RedBlack(root)) && (value !in old(Keys(root)) ==> ok)
      ensures old(RedBlack(root)) && !ok ==> root == old(root)
    {
      var c := At(root, p);
      if value != c.data {
        var d := if value < c.data then L else R;
        if Child(c, d).RBNode? {
          BstInsertStep(root, p, value);
          BstInsertEffect(root, value);
          ok := InsertBelow(value, p + [d]);
          return;
        }
      }
      ok := Settle(value, p);
    }

    /** Where the walk of Insert(value, current) ends: under a node whose
        next slot is empty a Red leaf is hung, at an equal node nothing is
        added; then the fix-up runs from that node. */
    method Settle(value: int, p: seq<Dir>) returns (ok: bool)
      requires Valid() && Reaches(root, p) && At(root, p).RBNode?
      requires Put(root, p, BstInsert(At(root, p), value)) == BstInsert(root, value)
      requires value != At(root, p).data ==>
                 Child(At(root, p), if value < At(root, p).data then L else R).Leaf?
      modifies this
      ensures Valid()
      ensures Keys(root) == old(Keys(root)) + {value}
      ensures LiveKeys(root) == old(LiveKeys(root)) + (if value in old(Keys(root)) then {} else {value})
      ensures nodeCount == old(nodeCount) + (if value in old(Keys(root)) then 0 else 1)
      ensures deletedNodesCount == old(deletedNodesCount)
      ensures old(RedBlack(root)) ==> (ok ==> RedBlack(root)) && (value !in old(Keys(root)) ==> ok)
      ensures old(RedBlack(root)) && !ok ==> root == old(root)
    {
      var c := At(root, p);
      if value != c.data {
        var d := if value < c.data then L else R;
        PlaceLeaf(root, p, d, value);
        root := Put(root, p + [d], RBNode(Leaf, Red, value, false, Leaf));
        nodeCount := nodeCount + 1;
      } else {
        MeetEqual(root, p, value);
      }
      ok := FixUp(p);
    }

    /** CheckNode on the node the walk ended at, then Root painted Black. */
    method FixUp(p: seq<Dir>) returns (ok: bool)
      requires Valid() && Reaches(root, p) && At(root, p).RBNode?
      modifies this
      ensures Valid() && SameNodes(old(root), root)
      ensures nodeCount == old(nodeCount) && deletedNodesCount == old(deletedNodesCount)
      ensures old(Repairing(root, p)) ==> (ok ==> RedBlack(root)) && (old(NotRedLeaf(root, p)) ==> ok)
      ensures old(Repairing(root, p)) && !ok ==> root == old(root)
    {
      ok := CheckNode(Some(p));
      if ok {
        ColoringSameNodes(root);
        root := Paint(root, Black);
      }
    }

    /** CheckNode: nothing for a null or non-Red node; with a Red uncle,
        recolour and continue at the grandparent unless that holds the
        root's value; otherwise rotate by the side of the Red child and the
        ParentDirection. `ok` is false where the source reads the colour of
        a null Right child. */
    method CheckNode(o: Option<seq<Dir>>) returns (ok: bool)
      requires Valid()
      requires o.Some? ==> Reaches(root, o.value) && At(root, o.value).RBNode?
      modifies this
      decreases Rank(o), Measure(root, o), 2
      ensures Valid() && SameNodes(old(root), root)
      ensures nodeCount == old(nodeCount) && deletedNodesCount == old(deletedNodesCount)
      ensures o.None? || !IsRed(old(At(root, o.value))) ==> ok && root == old(root)
      ensures o.Some? && old(Repairing(root, o.value)) ==>
                (ok ==> Repaired(root)) && (old(NotRedLeaf(root, o.value)) ==> ok)
      ensures o.Some? && old(Repairing(root, o.value)) && !ok ==> root == old(root)
    {
      if o.None? {
        return true;
      }
      var p := o.value;
      var c := At(root, p);
      if c.color != Red {
        if Repairing(root, p) {
          RepairDone(root, p);
        }
        return true;
      }
      var uncle := GetSiblingNode(root, p);
      if uncle.Some? && At(root, uncle.value).color == Red {
        ok := Recolor(p);
      } else if c.left.RBNode? && c.left.color == Red {
        if ParentDirection(root, p) == Right {
          ok := RotateLeftChildRightParent(p);
        } else {
          ok := RotateLeftChildLeftParent(p);
        }
      } else if c.right.Leaf? {
        NoCrash(root, p);
        ok := false;
      } else if c.right.color == Red {
        if ParentDirection(root, p) == Right {
          ok := RotateRightChildRightParent(p);
        } else {
          ok := RotateRightChildLeftParent(p);
        }
      } else {
        if Repairing(root, p) {
          RepairDone(root, p);
        }
        ok := true;
      }
    }

    /** CheckNode's red-uncle branch: the uncle and the node turn Black and
        the Parent Red; CheckNode continues at the grandparent when there is
        one and it does not hold the root's value. */
    method Recolor(p: seq<Dir>) returns (ok: bool)
      requires Valid() && |p| > 0 && Reaches(root, p) && At(root, p).RBNode?
      requires IsRed(At(root, p)) && IsRed(At(root, Sibling(p)))
      modifies this
      decreases |p|, Measure(root, Some(p)), 1
      ensures Valid() && SameNodes(old(root), root)
      ensures nodeCount == old(nodeCount) && deletedNodesCount == old(deletedNodesCount)
      ensures old(Repairing(root, p)) ==> ok && Repaired(root)
    {
      var pp := Up(p);
      ParentStep(root, p);
      var g := At(root, pp);
      ghost var t0 := root;
      ColoringSameNodes(g);
      PutSameNodes(root, pp, Recolored(g));
      if Repairing(root, p) {
        RecolorRepairs(root, p);
      }
      root := Put(root, pp, Recolored(g));
      if |pp| > 0 {
        PutBelowParent(t0, pp, Recolored(g));
        if At(root, Up(pp)).data != root.data {
          ok := CheckNode(Some(Up(pp)));
        } else {
          RootDataOnlyAtRoot(root, Up(pp));
          if Repairing(t0, p) {
            RepairDone(root, Up(pp));
          }
          ok := true;
        }
      } else {
        ok := true;
      }
    }
  
    /** RotateRightChildRightParent, at a Left child (ParentDirection
        Right) whose Right child is Red: that child takes the node's place
        in the Parent's Left field, with the node as its Left and its old
        Left as the node's Right; then CheckNode on it. (The source's
        IsRoot guard cannot fire: ParentDirection is Right only below a
        Parent.) */
    method RotateRightChildRightParent(p: seq<Dir>) returns (ok: bool)
      requires Valid() && Reaches(root, p) && At(root, p).RBNode? && At(root, p).right.RBNode?
      requires ParentDirection(root, p) == Right
      modifies this
      decreases |p|, Measure(root, Some(p)), 1
      ensures Valid() && SameNodes(old(root), root)
      ensures nodeCount == old(nodeCount) && deletedNodesCount == old(deletedNodesCount)
      ensures old(Repairing(root, p) && IsRed(At(root, p)) && IsRed(At(root, p).right)) ==> ok && Repaired(root)
    {
      var c := At(root, p);
      ParentStep(root, p);
      assert Up(p) + [L] == p;
      if Repairing(root, p) && IsRed(c) && IsRed(c.right) {
        InnerLeftRepairs(root, p);
      }
      RotationSameNodes(c);
      PutSameNodes(root, p, RotatedLeft(c));
      AtPut(root, p, RotatedLeft(c));
      assert Spine(RotatedLeft(c), R) < Spine(c, R) by {
        assert Spine(c, R) == 1 + Spine(c.right, R) == 2 + Spine(c.right.right, R);
      }
      root := Put(root, Up(p) + [L], RotatedLeft(c));
      ok := CheckNode(Some(p));
    }

    /** RotateLeftChildLeftParent, at a Right child (ParentDirection Left)
        whose Left child is Red: the mirror, through the Parent's Right
        field. Nothing at the root. */
    method RotateLeftChildLeftParent(p: seq<Dir>) returns (ok: bool)
      requires Valid() && Reaches(root, p) && At(root, p).RBNode? && At(root, p).left.RBNode?
      requires ParentDirection(root, p) == Left
      modifies this
      decreases |p|, Measure(root, Some(p)), 1
      ensures Valid() && SameNodes(old(root), root)
      ensures nodeCount == old(nodeCount) && deletedNodesCount == old(deletedNodesCount)
      ensures IsRoot(p) ==> ok && root == old(root)
      ensures old(Repairing(root, p) && IsRed(At(root, p)) && IsRed(At(root, p).left)) ==> ok && Repaired(root)
    {
      if IsRoot(p) {
        return true;
      }
      var c := At(root, p);
      ParentStep(root, p);
      assert Up(p) + [R] == p;
      if Repairing(root, p) && IsRed(c) && IsRed(c.left) {
        InnerRightRepairs(root, p);
      }
      RotationSameNodes(c);
      PutSameNodes(root, p, RotatedRight(c));
      AtPut(root, p, RotatedRight(c));
      assert Spine(RotatedRight(c), L) < Spine(c, L) by {
        assert Spine(c, L) == 1 + Spine(c.left, L) == 2 + Spine(c.left.left, L);
      }
      root := Put(root, Up(p) + [R], RotatedRight(c));
      ok := CheckNode(Some(p));
    }

    /** RotateLeftChildRightParent, at a Left child whose Left child is Red:
        the node takes its Parent's place (the Parent's Left becomes the
        node's old Right, the node's Right becomes the Parent), hooked under
        the grandparent by comparing values, or as the Root; then
        FixChildColors on the node and CheckNode on its new Parent. (The
        source's guard against the root cannot fire: ParentDirection is
        Right only below a Parent.) */
    method RotateLeftChildRightParent(p: seq<Dir>) returns (ok: bool)
      requires Valid() && Reaches(root, p) && At(root, p).RBNode? && At(root, p).left.RBNode?
      requires ParentDirection(root, p) == Right
      modifies this
      decreases |p|, Measure(root, Some(p)), 1
      ensures Valid() && SameNodes(old(root), root)
      ensures nodeCount == old(nodeCount) && deletedNodesCount == old(deletedNodesCount)
      ensures |p| == 1 ==> root == FixedColors(RotatedRight(old(root)))
      ensures old(Repairing(root, p) && IsRed(At(root, p)) && IsRed(At(root, p).left) && !IsRed(At(root, Sibling(p)))) ==>
                ok && Repaired(root)
    {
      var c := At(root, p);
      var pp := Up(p);
      LastStep(root, p);
      var g := At(root, pp);
      ghost var t0 := root;
      ghost var fixes := Repairing(root, p) && IsRed(c) && IsRed(c.left) && !IsRed(At(root, Sibling(p)));
      if fixes {
        OuterLeftRepairs(root, p);
      }
      RotationSameNodes(g);
      PutSameNodes(root, pp, RotatedRight(g));
      if |pp| > 0 {
        ParentStep(root, pp);
        AboveParent(root, pp, p);
      }
      Replace(pp, c.data, RotatedRight(g));
      AtPut(t0, pp, RotatedRight(g));
      FixChildColors(pp);
      PutTwice(t0, pp, RotatedRight(g), FixedColors(RotatedRight(g)));
      if |pp| == 0 {
        ok := CheckNode(None);
      } else {
        PutBelowParent(t0, pp, FixedColors(RotatedRight(g)));
        ok := CheckNode(Some(Up(pp)));
      }
    }

    /** RotateRightChildLeftParent, at a Right child whose Right child is
        Red: the mirror. Nothing at the root. */
    method RotateRightChildLeftParent(p: seq<Dir>) returns (ok: bool)
      requires Valid() && Reaches(root, p) && At(root, p).RBNode? && At(root, p).right.RBNode?
      requires ParentDirection(root, p) == Left
      modifies this
      decreases |p|, Measure(root, Some(p)), 1
      ensures Valid() && SameNodes(old(root), root)
      ensures nodeCount == old(nodeCount) && deletedNodesCount == old(deletedNodesCount)
      ensures IsRoot(p) ==> ok && root == old(root)
      ensures |p| == 1 ==> root == FixedColors(RotatedLeft(old(root)))
      ensures old(|p| > 0 && Repairing(root, p) && IsRed(At(root, p)) && IsRed(At(root, p).right) && !IsRed(At(root, Sibling(p)))) ==>
                ok && Repaired(root)
    {
      if IsRoot(p) {
        return true;
      }
      var c := At(root, p);
      var pp := Up(p);
      LastStep(root, p);
      var g := At(root, pp);
      ghost var t0 := root;
      ghost var fixes := Repairing(root, p) && IsRed(c) && IsRed(c.right) && !IsRed(At(root, Sibling(p)));
      if fixes {
        OuterRightRepairs(root, p);
      }
      RotationSameNodes(g);
      PutSameNodes(root, pp, RotatedLeft(g));
      if |pp| > 0 {
        ParentStep(root, pp);
        AboveParent(root, pp, p);
      }
      Replace(pp, c.data, RotatedLeft(g));
      AtPut(t0, pp, RotatedLeft(g));
      FixChildColors(pp);
      PutTwice(t0, pp, RotatedLeft(g), FixedColors(RotatedLeft(g)));
      if |pp| == 0 {
        ok := CheckNode(None);
      } else {
        PutBelowParent(t0, pp, FixedColors(RotatedLeft(g)));
        ok := CheckNode(Some(Up(pp)));
      }
    }

    /** Where an outer rotation hooks the promoted node in: as the Root when
        the old Parent had no Parent, else into the grandparent's Left or
        Right field, chosen by comparing the grandparent's value with `v`. */
    method Replace(pp: seq<Dir>, v: int, n: RBTree)
      requires Reaches(root, pp)
      requires |pp| > 0 ==> Reaches(root, Up(pp)) && At(root, Up(pp)).RBNode? &&
                             Up(pp) + [if At(root, Up(pp)).data > v then L else R] == pp
      modifies this
      ensures root == Put(old(root), pp, n)
      ensures nodeCount == old(nodeCount) && deletedNodesCount == old(deletedNodesCount)
    {
      if |pp| == 0 {
        root := n;
      } else {
        var tp := Up(pp);
        var side := if At(root, tp).data > v then L else R;
        root := Put(root, tp + [side], n);
      }
    }

    /** FixChildColors: a Red node with a Black Left child swaps colours
        with it; failing that, with a Black Right child. */
    method FixChildColors(q: seq<Dir>)
      requires Valid() && Reaches(root, q) && At(root, q).RBNode?
      modifies this
      ensures root == Put(old(root), q, FixedColors(old(At(root, q))))
      ensures Valid() && SameNodes(old(root), root)
      ensures nodeCount == old(nodeCount) && deletedNodesCount == old(deletedNodesCount)
    {
      var n := At(root, q);
      ColoringSameNodes(n);
      PutSameNodes(root, q, FixedColors(n));
      PutAt(root, q);
      if n.color != Red {
        return;
      }
      if n.left.RBNode? && n.left.color == Black {
        root := Put(root, q, n.(left := n.left.(color := Red), color := Black));
      } else if n.right.RBNode? && n.right.color == Black {
        root := Put(root, q, n.(right := n.right.(color := Red), color := Black));
      }
    }
  
    /** Contains: false on an empty tree; otherwise the comparison walk from
        the root, answering on an equal value whether that node is not
        tombstoned, and false once the walk falls off the tree. */
    method Contains(value: int) returns (b: bool)
      ensures b <==> FoundLive(root, value)
      ensures Valid() ==> (b <==> value in LiveKeys(root))
    {
      if root.Leaf? {
        return false;
      }
      var current := root;
      ghost var p: seq<Dir> := [];
      GraftNothing(FindPath(root, value));
      while current.RBNode?
        invariant Reaches(root, p) && At(root, p) == current
        invariant FindPath(root, value) == Graft(p, FindPath(current, value))
        decreases Size(current)
      {
        DeepAt(root, p, [if value < current.data then L else R]);
        if value < current.data {
          GraftUnder(p, L, FindPath(current.left, value));
          current, p := current.left, p + [L];
        } else if value > current.data {
          GraftUnder(p, R, FindPath(current.right, value));
          current, p := current.right, p + [R];
        } else {
          assert p + [] == p;
          b := !current.deleted;
          break;
        }
      }
      if current.Leaf? {
        b := false;
      }
      if Valid() {
        ContainsMeaning(root, value);
      }
    }

    /** DeleteNode: nothing on an empty tree; otherwise the comparison walk
        from the root, tombstoning the first node holding the value. A node
        already tombstoned is counted again. */
    method DeleteNode(value: int)
      requires Valid()
      modifies this
      ensures Valid()
      ensures LiveKeys(root) == old(LiveKeys(root)) - {value}
      ensures old(RedBlack(root)) ==> RedBlack(root)
      ensures value !in old(Keys(root)) ==>
                root == old(root) && nodeCount == old(nodeCount) && deletedNodesCount == old(deletedNodesCount)
      ensures value in old(Keys(root)) && old(deletedNodesCount) + 1 < Half(old(nodeCount) - 1) ==>
                Keys(root) == old(Keys(root)) &&
                nodeCount == old(nodeCount) - 1 && deletedNodesCount == old(deletedNodesCount) + 1
      ensures value in old(Keys(root)) && old(deletedNodesCount) + 1 >= Half(old(nodeCount) - 1) ==>
                Keys(root) == LiveKeys(root) && nodeCount == |LiveKeys(root)| && deletedNodesCount == 0 &&
                RedBlack(root)
    {
      FindPathFinds(root, value);
      FindPathComplete(root, value);
      LiveKeysAreKeys(root);
      if root.Leaf? {
        return;
      }
      var current := root;
      var p: seq<Dir> := [];
      GraftNothing(FindPath(root, value));
      while current.RBNode?
        invariant root == old(root) && nodeCount == old(nodeCount) && deletedNodesCount == old(deletedNodesCount)
        invariant Reaches(root, p) && At(root, p) == current
        invariant FindPath(root, value) == Graft(p, FindPath(current, value))
        decreases Size(current)
      {
        DeepAt(root, p, [if value < current.data then L else R]);
        if value < current.data {
          GraftUnder(p, L, FindPath(current.left, value));
          current, p := current.left, p + [L];
        } else if value > current.data {
          GraftUnder(p, R, FindPath(current.right, value));
          current, p := current.right, p + [R];
        } else {
          assert p + [] == p;
          SoftDelete(p);
          break;
        }
      }
    }

    /** SoftDelete: set the node's IsDeleted flag, count it as deleted
        rather than live, and rebuild the tree once DeletedNodesCount
        reaches half of NodeCount (rounded toward zero). */
    method SoftDelete(p: seq<Dir>)
      requires Valid() && Reaches(root, p) && At(root, p).RBNode?
      modifies this
      ensures Valid()
      ensures LiveKeys(root) == old(LiveKeys(root)) - {old(At(root, p)).data}
      ensures old(RedBlack(root)) ==> RedBlack(root)
      ensures old(deletedNodesCount) + 1 < Half(old(nodeCount) - 1) ==>
                root == Put(old(root), p, Tombstoned(old(At(root, p)))) && Keys(root) == old(Keys(root)) &&
                nodeCount == old(nodeCount) - 1 && deletedNodesCount == old(deletedNodesCount) + 1
      ensures old(deletedNodesCount) + 1 >= Half(old(nodeCount) - 1) ==>
                Keys(root) == LiveKeys(root) && nodeCount == |LiveKeys(root)| && deletedNodesCount == 0 &&
                RedBlack(root)
    {
      var n := At(root, p);
      TombstoneEffect(root, p);
      if RedBlack(root) {
        TombstoneRedBlack(root, p);
      }
      if |p| > 0 {
        PutKeepsTop(root, p, Tombstoned(n));
      }
      root := Put(root, p, Tombstoned(n));
      deletedNodesCount := deletedNodesCount + 1;
      nodeCount := nodeCount - 1;
      if deletedNodesCount >= Half(nodeCount) {
        CleanupTree();
      }
    }

    /** CleanupTree: a breadth-first walk from the root collecting the
        values of the nodes that are not tombstoned, then an empty tree
        into which those values are inserted in the order collected. The
        values are distinct, so no insertion fails, and the rebuilt tree
        holds exactly the live values, none tombstoned, and is red-black. */
    method CleanupTree()
      requires Valid() && root.RBNode?
      modifies this
      ensures Valid() && RedBlack(root)
      ensures Keys(root) == old(LiveKeys(root)) && LiveKeys(root) == Keys(root)
      ensures nodeCount == |Keys(root)| && deletedNodesCount == 0
    {
      var validNodes := LiveInLevelOrder(root);
      ghost var live := LiveKeys(root);
      root := Leaf;
      nodeCount := 0;
      deletedNodesCount := 0;
      var i := 0;
      while i < |validNodes|
        invariant 0 <= i <= |validNodes|
        invariant Valid() && RedBlack(root) && deletedNodesCount == 0
        invariant forall x :: x in Keys(root) <==> x in validNodes[..i]
        invariant LiveKeys(root) == Keys(root)
      {
        var v := validNodes[i];
        DistinctStep(validNodes, i);
        Reinsert(v);
        i := i + 1;
      }
      assert validNodes[..i] == validNodes;
      assert Keys(root) == live by {
        forall x ensures x in Keys(root) <==> x in live {
          assert x in validNodes[..i] <==> x in validNodes;
        }
      }
      SizeIsKeys(root);
    }

    /** One insertion of CleanupTree's second half: a value not yet in the
        rebuilt tree goes in without failing and live. */
    method Reinsert(v: int)
      requires Valid() && RedBlack(root) && deletedNodesCount == 0 && LiveKeys(root) == Keys(root)
      requires v !in Keys(root)
      modifies this
      ensures Valid() && RedBlack(root) && deletedNodesCount == 0 && LiveKeys(root) == Keys(root)
      ensures Keys(root) == old(Keys(root)) + {v}
    {
      var ok := Insert(v);
      assert ok;
    }

    /** The first half of CleanupTree: a breadth-first walk from `t` with a
        queue, enqueuing each dequeued node's non-null children, Left first,
        and collecting the values of the nodes that are not tombstoned. */
    static method LiveInLevelOrder(t: RBTree) returns (validNodes: seq<int>)
      requires t.RBNode?
      ensures validNodes == LevelOrderLive([t])
      ensures Ordered(t) ==> Distinct(validNodes) && forall x :: x in validNodes <==> x in LiveKeys(t)
    {
      validNodes := [];
      var nodeQueue: seq<RBTree> := [t];
      while |nodeQueue| > 0
        invariant forall i :: 0 <= i < |nodeQueue| ==> nodeQueue[i].RBNode?
        invariant validNodes + LevelOrderLive(nodeQueue) == LevelOrderLive([t])
        decreases QueueSize(nodeQueue), |nodeQueue|
      {
        var current := nodeQueue[0];
        ghost var rest, done := nodeQueue[1..], validNodes;
        LevelOrderStep(validNodes, nodeQueue, LevelOrderLive([t]));
        nodeQueue := nodeQueue[1..];
        if current.left.RBNode? {
          nodeQueue := nodeQueue + [current.left];
        }
        if current.right.RBNode? {
          nodeQueue := nodeQueue + [current.right];
        }
        assert nodeQueue == rest + Children(current);
        if !current.deleted {
          validNodes := validNodes + [current.data];
        }
        assert validNodes == done + (if current.deleted then [] else [current.data]);
      }
      assert validNodes + [] == validNodes;
      assert Ordered(t) ==> Distinct(LevelOrderLive([t])) && forall x :: x in LevelOrderLive([t]) <==> x in LiveKeys(t) by {
        if Ordered(t) {
          WalkFacts(t);
        }
      }
    }

    /** LeftMostNode: follow Left from the root; None (the source throws)
        when the tree is empty. */
    method LeftMostNode() returns (n: Option<RBTree>)
      ensures n.None? <==> root.Leaf?
      ensures n.Some? ==> n.value == MostLeft(root)
      ensures n.Some? && Ordered(root) ==> forall k :: k in Keys(root) ==> n.value.data <= k
    {
      if root.Leaf? {
        return None;
      }
      var node := root;
      while node.left.RBNode?
        invariant node.RBNode? && MostLeft(node) == MostLeft(root)
        decreases Size(node)
      {
        node := node.left;
      }
      return Some(node);
    }

    /** RightMostNode: follow Right from the root; None (the source throws)
        when the tree is empty. */
    method RightMostNode() returns (n: Option<RBTree>)
      ensures n.None? <==> root.Leaf?
      ensures n.Some? ==> n.value == MostRight(root)
      ensures n.Some? && Ordered(root) ==> forall k :: k in Keys(root) ==> k <= n.value.data
    {
      if root.Leaf? {
        return None;
      }
      var node := root;
      while node.right.RBNode?
        invariant node.RBNode? && MostRight(node) == MostRight(root)
        decreases Size(node)
      {
        node := node.right;
      }
      return Some(node);
    }

    /** GetEnumerator: the in-order traversal from the root, which lists
        tombstoned values too; None (the traversal dereferences a null Root)
        when the tree is empty. */
    function Enumeration(): (r: Option<seq<int>>)
      reads this
      ensures r.None? <==> root.Leaf?
      ensures r.Some? && Ordered(root) ==> forall k :: k in r.value <==> k in Keys(root)
      ensures r.Some? && Ordered(root) ==> forall i, j :: 0 <= i < j < |r.value| ==> r.value[i] < r.value[j]
    {
      if root.Leaf? then None
      else
        assert Ordered(root) ==> (forall k :: k in InOrder(root) <==> k in Keys(root)) &&
                                 forall i, j :: 0 <= i < j < |InOrder(root)| ==> InOrder(root)[i] < InOrder(root)[j] by {
          if Ordered(root) {
            InOrderFacts(root);
          }
        }
        Some(InOrder(root))
    }
  }
}
