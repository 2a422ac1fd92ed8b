/** The nodes of RedBlackTree as values. A subtree is an `RBTree` (`Leaf`
    is a null reference); a node reference is the path of child steps from
    the root to it, its Parent is the path without the last step, and writing
    a Left or Right field (or Root) replaces the subtree at a path. The
    colouring invariants the class name promises, and how each step of the
    insertion fix-up affects them, are stated here on values. */
module RbNodes {
  import opened Common

  datatype Color = Red | Black

  /** What a node's ParentDirection property answers. */
  datatype NodeDirection = Left | Right

  datatype RBTree = Leaf | RBNode(left: RBTree, color: Color, data: int, deleted: bool, right: RBTree)

  /** The values of all nodes, tombstoned ones included. */
  function Keys(t: RBTree): set<int> {
    match t
    case Leaf => {}
    case RBNode(l, _, d, _, r) => Keys(l) + {d} + Keys(r)
  }

  /** The values of the nodes whose IsDeleted flag is not set. */
  function LiveKeys(t: RBTree): set<int> {
    match t
    case Leaf => {}
    case RBNode(l, _, d, del, r) => LiveKeys(l) + (if del then {} else {d}) + LiveKeys(r)
  }

  function Size(t: RBTree): nat {
    match t
    case Leaf => 0
    case RBNode(l, _, _, _, r) => Size(l) + 1 + Size(r)
  }

  /** Strict search order: Insert never stores a value that compares equal
      to a node on its path, so each value is held by one node. */
  predicate Ordered(t: RBTree) {
    match t
    case Leaf => true
    case RBNode(l, _, d, _, r) =>
      Ordered(l) && Ordered(r) &&
      (forall k :: k in Keys(l) ==> k < d) && (forall k :: k in Keys(r) ==> d < k)
  }

  lemma {:induction false} LiveKeysAreKeys(t: RBTree)
    ensures LiveKeys(t) <= Keys(t)
  {
    if t.RBNode? {
      LiveKeysAreKeys(t.left);
      LiveKeysAreKeys(t.right);
    }
  }

  // ---------------------------------------------------------------------
  // Node references as paths

  function Child(t: RBTree, d: Dir): RBTree
    requires t.RBNode?
  {
    if d == L then t.left else t.right
  }

  function Opposite(d: Dir): Dir {
    if d == L then R else L
  }

  // The path functions and lemmas below (At, Reaches, Put, DeepAt, DeepPut,
  // AtPut, PutTwice, PutSize), and FindPath, InOrder, MostLeft and MostRight
  // further down, follow their BinaryTrees counterparts over `Tree`; they are
  // restated here because a red-black node also carries a colour and a flag.

  /** The subtree a path reaches (Leaf once it falls off the tree). */
  function At(t: RBTree, p: seq<Dir>): RBTree
    decreases |p|
  {
    if |p| == 0 then t
    else if t.Leaf? then Leaf
    else At(Child(t, p[0]), p[1..])
  }

  /** Every step of the path leaves from a node (the last may land on Leaf). */
  predicate Reaches(t: RBTree, p: seq<Dir>)
    decreases |p|
  {
    |p| == 0 || (t.RBNode? && Reaches(Child(t, p[0]), p[1..]))
  }

  /** `t` with the subtree at `p` replaced by `s`. */
  function Put(t: RBTree, p: seq<Dir>, s: RBTree): RBTree
    decreases |p|
  {
    if |p| == 0 then s
    else if t.Leaf? then Leaf
    else if p[0] == L then t.(left := Put(t.left, p[1..], s))
    else t.(right := Put(t.right, p[1..], s))
  }

  /** A node's Parent. */
  function Up(p: seq<Dir>): seq<Dir>
    requires |p| > 0
  {
    p[..|p| - 1]
  }

  function Last(p: seq<Dir>): Dir
    requires |p| > 0
  {
    p[|p| - 1]
  }

  /** The other child of a node's Parent. */
  function Sibling(p: seq<Dir>): seq<Dir>
    requires |p| > 0
  {
    Up(p) + [Opposite(Last(p))]
  }

  /** A node's IsRoot property. */
  predicate IsRoot(p: seq<Dir>) {
    |p| == 0
  }

  lemma {:induction false} DeepAt(t: RBTree, p: seq<Dir>, q: seq<Dir>)
    ensures At(t, p + q) == At(At(t, p), q)
    ensures Reaches(t, p + q) <==> Reaches(t, p) && Reaches(At(t, p), q)
    decreases |p|
  {
    if |p| == 0 {
      assert p + q == q;
    } else {
      assert (p + q)[0] == p[0] && (p + q)[1..] == p[1..] + q;
      if t.RBNode? {
        DeepAt(Child(t, p[0]), p[1..], q);
      }
    }
  }

  lemma {:induction false} DeepPut(t: RBTree, p: seq<Dir>, q: seq<Dir>, s: RBTree)
    requires Reaches(t, p)
    ensures Put(t, p + q, s) == Put(t, p, Put(At(t, p), q, s))
    decreases |p|
  {
    if |p| == 0 {
      assert p + q == q;
    } else {
      assert (p + q)[0] == p[0] && (p + q)[1..] == p[1..] + q;
      DeepPut(Child(t, p[0]), p[1..], q, s);
    }
  }

  lemma {:induction false} AtPut(t: RBTree, p: seq<Dir>, s: RBTree)
    requires Reaches(t, p)
    ensures Reaches(Put(t, p, s), p) && At(Put(t, p, s), p) == s
    decreases |p|
  {
    if |p| > 0 {
      AtPut(Child(t, p[0]), p[1..], s);
    }
  }

  lemma {:induction false} PutTwice(t: RBTree, p: seq<Dir>, a: RBTree, b: RBTree)
    requires Reaches(t, p)
    ensures Put(Put(t, p, a), p, b) == Put(t, p, b)
    decreases |p|
  {
    if |p| > 0 {
      PutTwice(Child(t, p[0]), p[1..], a, b);
    }
  }

  lemma {:induction false} PutAt(t: RBTree, p: seq<Dir>)
    requires Reaches(t, p)
    ensures Put(t, p, At(t, p)) == t
    decreases |p|
  {
    if |p| > 0 {
      PutAt(Child(t, p[0]), p[1..]);
    }
  }

  /** Writing below a node leaves the node's own fields alone. */
  lemma PutKeepsTop(t: RBTree, p: seq<Dir>, s: RBTree)
    requires Reaches(t, p) && |p| > 0
    ensures Put(t, p, s).RBNode? && Put(t, p, s).color == t.color
    ensures Put(t, p, s).data == t.data && Put(t, p, s).deleted == t.deleted
  {
  }

  /** A node's Parent is a node. */
  lemma ParentStep(t: RBTree, p: seq<Dir>)
    requires Reaches(t, p) && |p| > 0
    ensures p == Up(p) + [Last(p)]
    ensures Reaches(t, Up(p)) && At(t, Up(p)).RBNode?
  {
    assert p == Up(p) + [Last(p)];
    DeepAt(t, Up(p), [Last(p)]);
  }

  /** The last step of a path, seen from the node's Parent. */
  lemma LastStep(t: RBTree, p: seq<Dir>)
    requires Reaches(t, p) && |p| > 0
    ensures p == Up(p) + [Last(p)]
    ensures Reaches(t, Up(p)) && At(t, Up(p)).RBNode?
    ensures At(t, p) == Child(At(t, Up(p)), Last(p))
    ensures Reaches(t, Sibling(p)) && At(t, Sibling(p)) == Child(At(t, Up(p)), Opposite(Last(p)))
  {
    var q, d := Up(p), Last(p);
    assert p == q + [d];
    DeepAt(t, q, [d]);
    DeepAt(t, q, [Opposite(d)]);
    assert [d][1..] == [] && [Opposite(d)][1..] == [];
  }

  /** Writing at a node leaves the fields of its Parent alone. */
  lemma PutBelowParent(t: RBTree, p: seq<Dir>, s: RBTree)
    requires Reaches(t, p) && |p| > 0
    ensures Reaches(Put(t, p, s), Up(p)) && At(Put(t, p, s), Up(p)).RBNode? && At(t, Up(p)).RBNode?
    ensures At(Put(t, p, s), Up(p)).color == At(t, Up(p)).color
    ensures At(Put(t, p, s), Up(p)).data == At(t, Up(p)).data
  {
    LastStep(t, p);
    DeepPut(t, Up(p), [Last(p)], s);
    AtPut(t, Up(p), Put(At(t, Up(p)), [Last(p)], s));
  }

  // ---------------------------------------------------------------------
  // Search order along paths

  lemma {:induction false} AtFacts(t: RBTree, p: seq<Dir>)
    requires Reaches(t, p)
    ensures Keys(At(t, p)) <= Keys(t)
    ensures Ordered(t) ==> Ordered(At(t, p))
    decreases |p|
  {
    if |p| > 0 {
      AtFacts(Child(t, p[0]), p[1..]);
    }
  }

  /** Below a node, the first step decides on which side of its value a
      descendant's value lies. */
  lemma SideByData(t: RBTree, p: seq<Dir>, q: seq<Dir>)
    requires Reaches(t, p + q) && |q| > 0 && At(t, p + q).RBNode?
    ensures Reaches(t, p) && At(t, p).RBNode?
    ensures Ordered(t) ==> (At(t, p + q).data < At(t, p).data <==> q[0] == L)
    ensures Ordered(t) ==> At(t, p + q).data != At(t, p).data
  {
    DeepAt(t, p, q);
    var n := At(t, p);
    AtFacts(t, p);
    var c := Child(n, q[0]);
    assert At(n, q) == At(c, q[1..]);
    AtFacts(c, q[1..]);
    assert At(c, q[1..]).data in Keys(At(c, q[1..]));
  }

  /** From a grandparent, the node's value tells which child holds its
      Parent (the outer rotations hook the node in by this comparison). */
  lemma AboveParent(t: RBTree, pp: seq<Dir>, p: seq<Dir>)
    requires Ordered(t) && Reaches(t, p) && |p| > 0 && At(t, p).RBNode? && pp == Up(p) && |pp| > 0
    ensures Reaches(t, Up(pp)) && At(t, Up(pp)).RBNode?
    ensures Up(pp) + [if At(t, Up(pp)).data > At(t, p).data then L else R] == pp
  {
    var q := [Last(pp), Last(p)];
    assert p == Up(pp) + q;
    SideByData(t, Up(pp), q);
  }

  /** Only the root holds the root's value. */
  lemma RootDataOnlyAtRoot(t: RBTree, q: seq<Dir>)
    requires Ordered(t) && Reaches(t, q) && At(t, q).RBNode?
    ensures At(t, q).data == t.data <==> |q| == 0
  {
    if |q| > 0 {
      assert [] + q == q;
      SideByData(t, [], q);
    }
  }

  /** Replacing a subtree by one with the same values keeps the values
      and, when the replacement is ordered, the order. */
  lemma {:induction false} PutKeys(t: RBTree, p: seq<Dir>, s: RBTree)
    requires Reaches(t, p) && Keys(s) == Keys(At(t, p))
    ensures Keys(Put(t, p, s)) == Keys(t)
    ensures Ordered(t) && Ordered(s) ==> Ordered(Put(t, p, s))
    decreases |p|
  {
    if |p| > 0 {
      PutKeys(Child(t, p[0]), p[1..], s);
    }
  }

  /** Replacing a subtree by one with the same live values keeps the live
      values. */
  lemma {:induction false} PutLive(t: RBTree, p: seq<Dir>, s: RBTree)
    requires Reaches(t, p) && LiveKeys(s) == LiveKeys(At(t, p))
    ensures LiveKeys(Put(t, p, s)) == LiveKeys(t)
    decreases |p|
  {
    if |p| > 0 {
      PutLive(Child(t, p[0]), p[1..], s);
    }
  }

  /** Both of the above. */
  lemma PutKeeps(t: RBTree, p: seq<Dir>, s: RBTree)
    requires Reaches(t, p)
    requires Keys(s) == Keys(At(t, p)) && LiveKeys(s) == LiveKeys(At(t, p))
    ensures Keys(Put(t, p, s)) == Keys(t) && LiveKeys(Put(t, p, s)) == LiveKeys(t)
    ensures Ordered(t) && Ordered(s) ==> Ordered(Put(t, p, s))
  {
    PutKeys(t, p, s);
    PutLive(t, p, s);
  }

  lemma {:induction false} PutSize(t: RBTree, p: seq<Dir>, s: RBTree)
    requires Reaches(t, p)
    ensures Size(Put(t, p, s)) == Size(t) - Size(At(t, p)) + Size(s)
    decreases |p|
  {
    if |p| > 0 {
      PutSize(Child(t, p[0]), p[1..], s);
    }
  }

  /** ParentDirection: Left when there is no Parent or the node's value is
      greater than its Parent's, Right otherwise. In an ordered tree a
      greater value means a right child, so the answer names the opposite
      of the slot the node occupies. */
  function ParentDirection(t: RBTree, p: seq<Dir>): (d: NodeDirection)
    requires Reaches(t, p) && At(t, p).RBNode?
    ensures Ordered(t) ==> (d == Right <==> |p| > 0 && Last(p) == L)
  {
    if |p| == 0 then Left
    else
      LastStep(t, p);
      SideByData(t, Up(p), [Last(p)]);
      if At(t, p).data > At(t, Up(p)).data then Left else Right
  }

  /** GetSiblingNode: null without a Parent; otherwise the Parent's Right
      when the Parent's Left holds the node's value, else the Parent's Left
      (null when that field is). In an ordered tree this is the other child. */
  function GetSiblingNode(t: RBTree, p: seq<Dir>): (u: Option<seq<Dir>>)
    requires Reaches(t, p) && At(t, p).RBNode?
    ensures u.Some? ==> |p| > 0 && Reaches(t, u.value) && At(t, u.value).RBNode?
    ensures Ordered(t) && |p| > 0 ==>
              u == if At(t, Sibling(p)).RBNode? then Some(Sibling(p)) else None
  {
    if |p| == 0 then None
    else
      LastStep(t, p);
      var g := At(t, Up(p));
      assert Up(p) + [L] == (if Last(p) == L then p else Sibling(p));
      assert Up(p) + [R] == (if Last(p) == R then p else Sibling(p));
      AtFacts(t, Up(p));
      if g.left.RBNode? && g.left.data == At(t, p).data then
        if g.right.RBNode? then Some(Up(p) + [R]) else None
      else if g.left.RBNode? then Some(Up(p) + [L]) else None
  }

  // ---------------------------------------------------------------------
  // Searching, inserting, tombstoning, enumerating

  /** The path the comparison walk of Contains and DeleteNode stops at:
      left on -1, right on 1, the node itself on a match. */
  function FindPath(t: RBTree, v: int): Option<seq<Dir>> {
    match t
    case Leaf => None
    case RBNode(l, _, d, _, r) =>
      if v < d then Under(L, FindPath(l, v))
      else if v > d then Under(R, FindPath(r, v))
      else Some([])
  }

  /** A found path leads to a node holding the value. */
  lemma {:induction false} FindPathFinds(t: RBTree, v: int)
    ensures FindPath(t, v).Some? ==>
              Reaches(t, FindPath(t, v).value) && At(t, FindPath(t, v).value).RBNode? &&
              At(t, FindPath(t, v).value).data == v
  {
    if t.RBNode? && v != t.data {
      var d := if v < t.data then L else R;
      FindPathFinds(Child(t, d), v);
      if FindPath(Child(t, d), v).Some? {
        var q := FindPath(Child(t, d), v).value;
        assert ([d] + q)[0] == d && ([d] + q)[1..] == q;
      }
    }
  }

  /** In an ordered tree the walk finds exactly the values that are held. */
  lemma {:induction false} FindPathComplete(t: RBTree, v: int)
    requires Ordered(t)
    ensures FindPath(t, v).Some? <==> v in Keys(t)
  {
    if t.RBNode? && v != t.data {
      FindPathComplete(if v < t.data then t.left else t.right, v);
    }
  }

  /** In an ordered tree a node's value is live exactly when the node is
      not tombstoned. */
  lemma {:induction false} LiveAt(t: RBTree, p: seq<Dir>)
    requires Ordered(t) && Reaches(t, p) && At(t, p).RBNode?
    ensures At(t, p).data in LiveKeys(t) <==> !At(t, p).deleted
    decreases |p|
  {
    LiveKeysAreKeys(t.left);
    LiveKeysAreKeys(t.right);
    if |p| > 0 {
      var c := Child(t, p[0]);
      LiveAt(c, p[1..]);
      AtFacts(c, p[1..]);
      assert At(c, p[1..]).data in Keys(At(c, p[1..]));
    }
  }

  /** SoftDelete's change to a node: its IsDeleted flag is set. */
  function Tombstoned(n: RBTree): RBTree {
    if n.Leaf? then Leaf else n.(deleted := true)
  }

  /** Tombstoning a node keeps every node and the order and takes its value
      out of the live values. */
  lemma TombstoneEffect(t: RBTree, p: seq<Dir>)
    requires Ordered(t) && Reaches(t, p) && At(t, p).RBNode?
    ensures Keys(Put(t, p, Tombstoned(At(t, p)))) == Keys(t)
    ensures LiveKeys(Put(t, p, Tombstoned(At(t, p)))) == LiveKeys(t) - {At(t, p).data}
    ensures Ordered(Put(t, p, Tombstoned(At(t, p))))
    ensures Size(Put(t, p, Tombstoned(At(t, p)))) == Size(t)
  {
    var n := At(t, p);
    AtFacts(t, p);
    PutKeys(t, p, Tombstoned(n));
    PutSize(t, p, Tombstoned(n));
    TombstoneLive(t, p);
  }

  lemma {:induction false} TombstoneLive(t: RBTree, p: seq<Dir>)
    requires Ordered(t) && Reaches(t, p) && At(t, p).RBNode?
    ensures LiveKeys(Put(t, p, Tombstoned(At(t, p)))) == LiveKeys(t) - {At(t, p).data}
    decreases |p|
  {
    var n := At(t, p);
    LiveKeysAreKeys(t.left);
    LiveKeysAreKeys(t.right);
    if |p| > 0 {
      var c := Child(t, p[0]);
      TombstoneLive(c, p[1..]);
      AtFacts(c, p[1..]);
      assert n.data in Keys(At(c, p[1..]));
    }
  }

  /** Where Insert(value, current) puts a value, before the fix-up: a
      comparison walk that stops at an equal node (adding nothing) or adds a
      Red leaf where it falls off the tree. */
  function BstInsert(t: RBTree, v: int): RBTree {
    match t
    case Leaf => RBNode(Leaf, Red, v, false, Leaf)
    case RBNode(l, _, d, _, r) =>
      if v < d then t.(left := BstInsert(l, v))
      else if v > d then t.(right := BstInsert(r, v))
      else t
  }

  /** The placement adds the value as a live node exactly when no node holds
      it, and keeps the order. */
  lemma {:induction false} BstInsertEffect(t: RBTree, v: int)
    requires Ordered(t)
    ensures Ordered(BstInsert(t, v))
    ensures Keys(BstInsert(t, v)) == Keys(t) + {v}
    ensures v in Keys(t) ==> BstInsert(t, v) == t
    ensures v !in Keys(t) ==>
              LiveKeys(BstInsert(t, v)) == LiveKeys(t) + {v} && Size(BstInsert(t, v)) == Size(t) + 1
  {
    if t.RBNode? && v != t.data {
      BstInsertEffect(if v < t.data then t.left else t.right, v);
    }
  }

  /** InOrderTraversal: left subtree, the node, right subtree, for every
      node, tombstoned or not. */
  function InOrder(t: RBTree): seq<int> {
    match t
    case Leaf => []
    case RBNode(l, _, d, _, r) => InOrder(l) + [d] + InOrder(r)
  }

  /** In an ordered tree the traversal lists every held value once, in
      strictly increasing order. */
  lemma {:induction false} InOrderFacts(t: RBTree)
    requires Ordered(t)
    ensures forall k :: k in InOrder(t) <==> k in Keys(t)
    ensures forall i, j :: 0 <= i < j < |InOrder(t)| ==> InOrder(t)[i] < InOrder(t)[j]
  {
    if t.RBNode? {
      InOrderFacts(t.left);
      InOrderFacts(t.right);
      var s, a, b := InOrder(t), InOrder(t.left), InOrder(t.right);
      forall i, j | 0 <= i < j < |s| ensures s[i] < s[j] {
        if j < |a| {
          assert s[i] == a[i] && s[j] == a[j];
        } else if i > |a| {
          assert s[i] == b[i - |a| - 1] && s[j] == b[j - |a| - 1];
        } else if i == |a| {
          assert s[j] == b[j - |a| - 1] && s[j] in b;
        } else if j == |a| {
          assert s[i] == a[i] && s[i] in a;
        } else {
          assert s[i] == a[i] && s[i] in a;
          assert s[j] == b[j - |a| - 1] && s[j] in b;
        }
      }
    }
  }

  /** The leftmost node: follow Left from the root. */
  function MostLeft(t: RBTree): (n: RBTree)
    requires t.RBNode?
    ensures n.RBNode? && n.left.Leaf? && n.data in Keys(t)
    ensures Ordered(t) ==> forall k :: k in Keys(t) ==> n.data <= k
  {
    if t.left.Leaf? then t else MostLeft(t.left)
  }

  /** The rightmost node: follow Right from the root. */
  function MostRight(t: RBTree): (n: RBTree)
    requires t.RBNode?
    ensures n.RBNode? && n.right.Leaf? && n.data in Keys(t)
    ensures Ordered(t) ==> forall k :: k in Keys(t) ==> k <= n.data
  {
    if t.right.Leaf? then t else MostRight(t.right)
  }

  // ---------------------------------------------------------------------
  // CleanupTree's breadth-first walk

  function QueueSize(q: seq<RBTree>): nat {
    if |q| == 0 then 0 else Size(q[0]) + QueueSize(q[1..])
  }

  lemma {:induction false} QueueSizeConcat(a: seq<RBTree>, b: seq<RBTree>)
    ensures QueueSize(a + b) == QueueSize(a) + QueueSize(b)
    decreases |a|
  {
    if |a| == 0 {
      assert a + b == b;
    } else {
      assert (a + b)[0] == a[0] && (a + b)[1..] == a[1..] + b;
      QueueSizeConcat(a[1..], b);
    }
  }

  /** What the walk enqueues after dequeuing a node: its non-null
      children, Left first. */
  function Children(n: RBTree): seq<RBTree>
    requires n.RBNode?
  {
    (if n.left.RBNode? then [n.left] else []) + (if n.right.RBNode? then [n.right] else [])
  }

  lemma ChildrenSize(n: RBTree)
    requires n.RBNode?
    ensures QueueSize(Children(n)) == Size(n) - 1
  {
    var a := if n.left.RBNode? then [n.left] else [];
    var b := if n.right.RBNode? then [n.right] else [];
    QueueSizeConcat(a, b);
  }

  /** The values the walk collects from the queue `q`: each dequeued node
      that is not tombstoned, in breadth-first order. */
  function LevelOrderLive(q: seq<RBTree>): seq<int>
    decreases QueueSize(q), |q|
  {
    if |q| == 0 then []
    else if q[0].Leaf? then LevelOrderLive(q[1..])
    else
      QueueSizeConcat(q[1..], Children(q[0]));
      ChildrenSize(q[0]);
      (if q[0].deleted then [] else [q[0].data]) + LevelOrderLive(q[1..] + Children(q[0]))
  }

  /** One step of the walk: dequeue a node, enqueue its children, and
      collect its value unless it is tombstoned; what is collected so far
      followed by what the queue still yields stays the same. */
  lemma LevelOrderStep(done: seq<int>, q: seq<RBTree>, whole: seq<int>)
    requires |q| > 0 && q[0].RBNode? && done + LevelOrderLive(q) == whole
    ensures QueueSize(q[1..] + Children(q[0])) < QueueSize(q)
    ensures (done + (if q[0].deleted then [] else [q[0].data])) + LevelOrderLive(q[1..] + Children(q[0])) == whole
  {
    QueueSizeConcat(q[1..], Children(q[0]));
    ChildrenSize(q[0]);
  }

  /** The live values of all the trees in a queue. */
  function LiveOf(q: seq<RBTree>): set<int> {
    if |q| == 0 then {} else LiveKeys(q[0]) + LiveOf(q[1..])
  }

  lemma {:induction false} LiveOfConcat(a: seq<RBTree>, b: seq<RBTree>)
    ensures LiveOf(a + b) == LiveOf(a) + LiveOf(b)
    decreases |a|
  {
    if |a| == 0 {
      assert a + b == b;
    } else {
      assert (a + b)[0] == a[0] && (a + b)[1..] == a[1..] + b;
      LiveOfConcat(a[1..], b);
    }
  }

  lemma ChildrenLive(n: RBTree)
    requires n.RBNode?
    ensures LiveOf(Children(n)) == LiveKeys(n.left) + LiveKeys(n.right)
  {
    var a := if n.left.RBNode? then [n.left] else [];
    var b := if n.right.RBNode? then [n.right] else [];
    LiveOfConcat(a, b);
  }

  /** The walk collects exactly the live values of the queued trees. */
  lemma {:induction false} LevelOrderLiveKeys(q: seq<RBTree>)
    ensures forall x :: x in LevelOrderLive(q) <==> x in LiveOf(q)
    decreases QueueSize(q), |q|
  {
    if |q| > 0 {
      if q[0].Leaf? {
        LevelOrderLiveKeys(q[1..]);
      } else {
        QueueSizeConcat(q[1..], Children(q[0]));
        ChildrenSize(q[0]);
        LevelOrderLiveKeys(q[1..] + Children(q[0]));
        LiveOfConcat(q[1..], Children(q[0]));
        ChildrenLive(q[0]);
      }
    }
  }

  // ---------------------------------------------------------------------
  // Colouring

  predicate IsRed(t: RBTree) {
    t.RBNode? && t.color == Red
  }

  function Paint(t: RBTree, c: Color): RBTree {
    if t.Leaf? then Leaf else t.(color := c)
  }

  /** Recolouring a node changes nothing else about it. */
  lemma PaintKeeps(t: RBTree, c: Color)
    ensures Keys(Paint(t, c)) == Keys(t) && LiveKeys(Paint(t, c)) == LiveKeys(t)
    ensures Ordered(Paint(t, c)) == Ordered(t)
  {
  }

  /** No Red node has a Red child. */
  ghost predicate NoRedRed(t: RBTree) {
    match t
    case Leaf => true
    case RBNode(l, c, _, _, r) => (c == Red ==> !IsRed(l) && !IsRed(r)) && NoRedRed(l) && NoRedRed(r)
  }

  /** The Black nodes on the leftmost way down (on every way down, when
      Balanced); a null reference counts as none. */
  ghost function BlackHeight(t: RBTree): nat {
    match t
    case Leaf => 0
    case RBNode(l, c, _, _, _) => BlackHeight(l) + (if c == Black then 1 else 0)
  }

  /** Every way down from a node to a null reference passes the same number
      of Black nodes. */
  ghost predicate Balanced(t: RBTree) {
    match t
    case Leaf => true
    case RBNode(l, _, _, _, r) => Balanced(l) && Balanced(r) && BlackHeight(l) == BlackHeight(r)
  }

  /** The red-black invariants, with a Black (or absent) root. */
  ghost predicate RedBlack(t: RBTree) {
    Balanced(t) && NoRedRed(t) && !IsRed(t)
  }

  lemma {:induction false} CleanFacts(t: RBTree, q: seq<Dir>)
    requires NoRedRed(t) && Reaches(t, q)
    ensures NoRedRed(At(t, q))
    ensures |q| > 0 && IsRed(At(t, q)) ==> !IsRed(At(t, Up(q)))
    decreases |q|
  {
    if |q| > 0 {
      CleanFacts(Child(t, q[0]), q[1..]);
      LastStep(t, q);
      CleanFacts(t, Up(q));
    }
  }

  lemma {:induction false} BalancedAt(t: RBTree, q: seq<Dir>)
    requires Balanced(t) && Reaches(t, q)
    ensures Balanced(At(t, q))
    decreases |q|
  {
    if |q| > 0 {
      BalancedAt(Child(t, q[0]), q[1..]);
    }
  }

  /** Replacing a subtree by one of the same black height keeps the tree
      Balanced. */
  lemma {:induction false} PutBalanced(t: RBTree, q: seq<Dir>, s: RBTree)
    requires Reaches(t, q) && Balanced(t) && Balanced(s) && BlackHeight(s) == BlackHeight(At(t, q))
    ensures Balanced(Put(t, q, s)) && BlackHeight(Put(t, q, s)) == BlackHeight(t)
    decreases |q|
  {
    if |q| > 0 {
      PutBalanced(Child(t, q[0]), q[1..], s);
    }
  }

  /** Replacing a subtree by a clean one keeps the tree clean, provided the
      new top is Red only where the old one was, or below a non-Red parent. */
  lemma {:induction false} PutClean(t: RBTree, q: seq<Dir>, s1: RBTree, s2: RBTree)
    requires Reaches(t, q) && NoRedRed(Put(t, q, s1)) && NoRedRed(s2)
    requires IsRed(s2) ==> IsRed(s1) || (|q| > 0 && !IsRed(At(t, Up(q))))
    ensures NoRedRed(Put(t, q, s2))
    decreases |q|
  {
    if |q| > 0 {
      var c, rest := Child(t, q[0]), q[1..];
      if |rest| > 0 {
        assert Up(q) == [q[0]] + Up(rest);
        assert At(t, Up(q)) == At(c, Up(rest));
        PutClean(c, rest, s1, s2);
        PutKeepsTop(c, rest, s1);
        PutKeepsTop(c, rest, s2);
      } else {
        assert Up(q) == [] && At(t, Up(q)) == t;
        assert Put(c, rest, s1) == s1 && Put(c, rest, s2) == s2;
      }
    }
  }

  // ---------------------------------------------------------------------
  // The rewiring and recolouring steps of the fix-up

  /** RotateRightChildRightParent and RotateRightChildLeftParent: the
      node's Right child takes its place, with the node as its Left and its
      old Left as the node's Right. */
  function RotatedLeft(c: RBTree): RBTree
    requires c.RBNode? && c.right.RBNode?
  {
    c.right.(left := c.(right := c.right.left))
  }

  /** RotateLeftChildLeftParent and RotateLeftChildRightParent: the mirror. */
  function RotatedRight(c: RBTree): RBTree
    requires c.RBNode? && c.left.RBNode?
  {
    c.left.(right := c.(left := c.left.right))
  }

  /** A rotation keeps the in-order sequence of values. */
  lemma RotatedLeftInOrder(c: RBTree)
    requires c.RBNode? && c.right.RBNode?
    ensures InOrder(RotatedLeft(c)) == InOrder(c)
  {
    var y := c.right;
    assert InOrder(c.right) == InOrder(y.left) + [y.data] + InOrder(y.right);
    assert InOrder(c.(right := y.left)) == InOrder(c.left) + [c.data] + InOrder(y.left);
    Regroup(InOrder(c.left), c.data, InOrder(y.left), y.data, InOrder(y.right));
  }

  /** A rotation keeps the nodes. */
  lemma RotatedLeftKeys(c: RBTree)
    requires c.RBNode? && c.right.RBNode?
    ensures Keys(RotatedLeft(c)) == Keys(c) && LiveKeys(RotatedLeft(c)) == LiveKeys(c)
    ensures Size(RotatedLeft(c)) == Size(c)
  {
  }

  /** A rotation keeps the search order. */
  lemma RotatedLeftOrdered(c: RBTree)
    requires c.RBNode? && c.right.RBNode? && Ordered(c)
    ensures Ordered(RotatedLeft(c))
  {
    var y := c.right;
    var x' := c.(right := y.left);
    assert y.data in Keys(c.right);
    forall k | k in Keys(y.left) ensures c.data < k < y.data {
      assert k in Keys(c.right);
    }
    assert Ordered(x');
    assert Keys(x') == Keys(c.left) + {c.data} + Keys(y.left);
    forall k | k in Keys(x') ensures k < y.data {
      if k in Keys(c.left) {
        assert k < c.data;
      }
    }
  }

  lemma RotatedRightInOrder(c: RBTree)
    requires c.RBNode? && c.left.RBNode?
    ensures InOrder(RotatedRight(c)) == InOrder(c)
  {
    var x := c.left;
    assert InOrder(c.left) == InOrder(x.left) + [x.data] + InOrder(x.right);
    assert InOrder(c.(left := x.right)) == InOrder(x.right) + [c.data] + InOrder(c.right);
    Regroup(InOrder(x.left), x.data, InOrder(x.right), c.data, InOrder(c.right));
  }

  /** The two groupings of a rotated in-order sequence agree. */
  lemma Regroup(a: seq<int>, x: int, b: seq<int>, y: int, e: seq<int>)
    ensures (a + [x] + b) + [y] + e == a + [x] + (b + [y] + e)
  {
  }

  lemma RotatedRightKeys(c: RBTree)
    requires c.RBNode? && c.left.RBNode?
    ensures Keys(RotatedRight(c)) == Keys(c) && LiveKeys(RotatedRight(c)) == LiveKeys(c)
    ensures Size(RotatedRight(c)) == Size(c)
  {
  }

  lemma RotatedRightOrdered(c: RBTree)
    requires c.RBNode? && c.left.RBNode? && Ordered(c)
    ensures Ordered(RotatedRight(c))
  {
    var x := c.left;
    var y' := c.(left := x.right);
    assert x.data in Keys(c.left);
    forall k | k in Keys(x.right) ensures x.data < k < c.data {
      assert k in Keys(c.left);
    }
    assert Ordered(y');
    assert Keys(y') == Keys(x.right) + {c.data} + Keys(c.right);
    forall k | k in Keys(y') ensures x.data < k {
      if k in Keys(c.right) {
        assert c.data < k;
      }
    }
  }

  /** The red-uncle step: both children of the Parent turn Black and the
      Parent turns Red. */
  function Recolored(g: RBTree): RBTree
    requires g.RBNode?
  {
    g.(left := Paint(g.left, Black), color := Red, right := Paint(g.right, Black))
  }

  /** FixChildColors: a Red node with a Black Left child swaps colours with
      it; failing that, with a Black Right child. */
  function FixedColors(n: RBTree): RBTree
    requires n.RBNode?
  {
    if n.color != Red then n
    else if n.left.RBNode? && n.left.color == Black then n.(left := n.left.(color := Red), color := Black)
    else if n.right.RBNode? && n.right.color == Black then n.(right := n.right.(color := Red), color := Black)
    else n
  }

  lemma RecoloredKeeps(n: RBTree)
    requires n.RBNode?
    ensures Keys(Recolored(n)) == Keys(n) && LiveKeys(Recolored(n)) == LiveKeys(n)
    ensures Ordered(n) ==> Ordered(Recolored(n))
  {
    PaintKeeps(n.left, Black);
    PaintKeeps(n.right, Black);
  }

  lemma FixedColorsKeeps(n: RBTree)
    requires n.RBNode?
    ensures Keys(FixedColors(n)) == Keys(n) && LiveKeys(FixedColors(n)) == LiveKeys(n)
    ensures Ordered(n) ==> Ordered(FixedColors(n))
  {
    if n.color == Red && n.left.RBNode? && n.left.color == Black {
      assert Keys(n.left.(color := Red)) == Keys(n.left);
    } else if n.color == Red && n.right.RBNode? && n.right.color == Black {
      assert Keys(n.right.(color := Red)) == Keys(n.right);
    }
  }

  /** Writing one step below a node replaces that child field. */
  lemma PutOne(n: RBTree, d: Dir, s: RBTree)
    requires n.RBNode?
    ensures Put(n, [d], s) == if d == L then n.(left := s) else n.(right := s)
  {
    assert [d][1..] == [];
  }

  // ---------------------------------------------------------------------
  // The insertion fix-up, step by step

  /** The state in which Insert calls CheckNode on the node at `p`: the
      tree is Balanced under a Black root, it would have no Red node with a
      Red child were the node at `p` Black, and if that node is Red it is
      not the root, its Parent is not Red and it has at most one Red child. */
  ghost predicate Repairing(t: RBTree, p: seq<Dir>) {
    Reaches(t, p) && At(t, p).RBNode? && t.RBNode? && t.color == Black && Balanced(t) &&
    NoRedRed(Put(t, p, Paint(At(t, p), Black))) &&
    (IsRed(At(t, p)) ==>
       |p| > 0 && !IsRed(At(t, Up(p))) && !(IsRed(At(t, p).left) && IsRed(At(t, p).right)))
  }

  /** A Red node under repair has a child (the fix-up reads the Right child
      of a Red node whose Left child is not Red). */
  ghost predicate NotRedLeaf(t: RBTree, p: seq<Dir>) {
    IsRed(At(t, p)) ==> At(t, p).left.RBNode? || At(t, p).right.RBNode?
  }

  /** What the fix-up leaves behind: Balanced, and free of Red-Red pairs
      once the root is painted Black, which Insert does last. */
  ghost predicate Repaired(t: RBTree) {
    Balanced(t) && NoRedRed(Paint(t, Black))
  }

  /** A freshly placed Red leaf puts its Parent under repair. */
  lemma InsertRepairing(t: RBTree, p: seq<Dir>, d: Dir, v: int)
    requires RedBlack(t) && Reaches(t, p) && At(t, p).RBNode? && Child(At(t, p), d).Leaf?
    ensures Reaches(t, p + [d])
    ensures var t1 := Put(t, p + [d], RBNode(Leaf, Red, v, false, Leaf));
            Repairing(t1, p) && NotRedLeaf(t1, p)
  {
    var n, leaf := At(t, p), RBNode(Leaf, Red, v, false, Leaf);
    var n1 := Put(n, [d], leaf);
    PutOne(n, d, leaf);
    DeepPut(t, p, [d], leaf);
    DeepAt(t, p, [d]);
    BalancedAt(t, p);
    CleanFacts(t, p);
    PutBalanced(t, p, n1);
    PutAt(t, p);
    AtPut(t, p, n1);
    PutTwice(t, p, n1, Paint(n1, Black));
    PutClean(t, p, n, Paint(n1, Black));
    if |p| > 0 {
      PutBelowParent(t, p, n1);
      PutKeepsTop(t, p, n1);
    }
  }

  /** CheckNode stops on a Black node, and on a Red one without Red
      children: the tree is then already clean. */
  lemma RepairDone(t: RBTree, p: seq<Dir>)
    requires Repairing(t, p)
    requires IsRed(At(t, p)) ==> !IsRed(At(t, p).left) && !IsRed(At(t, p).right)
    ensures NoRedRed(t) && Repaired(t)
  {
    var n := At(t, p);
    PutAt(t, p);
    if IsRed(n) {
      AtPut(t, p, Paint(n, Black));
      CleanFacts(Put(t, p, Paint(n, Black)), p);
      PutClean(t, p, Paint(n, Black), n);
    } else {
      assert Paint(n, Black) == n;
    }
    assert Paint(t, Black) == t;
  }

  /** A Red node under repair whose Left child is not Red has a Right
      child, by the black-height balance. */
  lemma NoCrash(t: RBTree, p: seq<Dir>)
    requires Reaches(t, p) && At(t, p).RBNode?
    ensures Repairing(t, p) && NotRedLeaf(t, p) && IsRed(At(t, p)) && !IsRed(At(t, p).left) ==>
              At(t, p).right.RBNode?
  {
    if Repairing(t, p) {
      BalancedAt(t, p);
    }
  }

  /** The Parent's side of LiftRepair. */
  lemma LiftLocal(qn: RBTree, e: Dir, s1: RBTree, s2: RBTree)
    requires qn.RBNode? && NoRedRed(Put(qn, [e], s1)) && !IsRed(s1) && NoRedRed(s2) && s2.RBNode?
    ensures Put(qn, [e], s2).RBNode? && Put(qn, [e], s2).color == Put(qn, [e], s1).color
    ensures NoRedRed(Paint(Put(qn, [e], s2), Black))
    ensures IsRed(Put(qn, [e], s2)) ==> !(IsRed(Put(qn, [e], s2).left) && IsRed(Put(qn, [e], s2).right))
    ensures Put(qn, [e], s2).left.RBNode? || Put(qn, [e], s2).right.RBNode?
  {
    PutOne(qn, e, s1);
    PutOne(qn, e, s2);
  }

  /** The tree's side of LiftRepair: a node rewritten with its colour
      kept, clean once painted Black, is under repair. */
  lemma LiftTop(t: RBTree, a: seq<Dir>, q1: RBTree, q2: RBTree, t2: RBTree)
    requires Reaches(t, a) && t.RBNode? && t.color == Black && t2 == Put(t, a, q2)
    requires NoRedRed(Put(t, a, q1)) && q1.RBNode? && q2.RBNode? && q2.color == q1.color
    requires |a| == 0 ==> q1.color == Black
    requires NoRedRed(Paint(q2, Black)) && (IsRed(q2) ==> !(IsRed(q2.left) && IsRed(q2.right)))
    requires q2.left.RBNode? || q2.right.RBNode?
    requires Balanced(t2)
    ensures Repairing(t2, a) && NotRedLeaf(t2, a)
  {
    assert Reaches(t2, a) && At(t2, a) == q2 by {
      AtPut(t, a, q2);
    }
    assert NoRedRed(Put(t2, a, Paint(q2, Black))) by {
      PutTwice(t, a, q2, Paint(q2, Black));
      PutClean(t, a, q1, Paint(q2, Black));
    }
    assert t2.RBNode? && t2.color == Black by {
      if |a| > 0 {
        PutKeepsTop(t, a, q2);
      }
    }
    assert IsRed(q2) ==> |a| > 0 && !IsRed(At(t2, Up(a))) by {
      if IsRed(q2) {
        var t1 := Put(t, a, q1);
        AtPut(t, a, q1);
        CleanFacts(t1, a);
        PutBelowParent(t, a, q1);
        PutBelowParent(t, a, q2);
      }
    }
  }

  /** Writing at a node is writing one of its Parent's child fields. */
  lemma PutViaParent(t: RBTree, r: seq<Dir>, s: RBTree)
    requires Reaches(t, r) && |r| > 0
    ensures Reaches(t, Up(r)) && At(t, Up(r)).RBNode?
    ensures Put(t, r, s) == Put(t, Up(r), Put(At(t, Up(r)), [Last(r)], s))
  {
    ParentStep(t, r);
    DeepPut(t, Up(r), [Last(r)], s);
  }

  /** Whenever a clean Black subtree at `r` is replaced by a clean subtree
      of the same black height, the Parent of `r` is under repair. */
  lemma LiftRepair(t: RBTree, r: seq<Dir>, s1: RBTree, s2: RBTree)
    requires Reaches(t, r) && |r| > 0 && t.RBNode? && t.color == Black
    requires NoRedRed(Put(t, r, s1)) && !IsRed(s1)
    requires NoRedRed(s2) && s2.RBNode? && Balanced(Put(t, r, s2))
    ensures Repairing(Put(t, r, s2), Up(r)) && NotRedLeaf(Put(t, r, s2), Up(r))
  {
    var a, e := Up(r), Last(r);
    var qn := At(t, a);
    var q1, q2 := Put(qn, [e], s1), Put(qn, [e], s2);
    assert Reaches(t, a) && qn.RBNode? && Put(t, r, s1) == Put(t, a, q1) && Put(t, r, s2) == Put(t, a, q2) by {
      PutViaParent(t, r, s1);
      PutViaParent(t, r, s2);
    }
    assert NoRedRed(q1) by {
      AtPut(t, a, q1);
      CleanFacts(Put(t, a, q1), a);
    }
    LiftLocal(qn, e, s1, s2);
    assert q1.color == qn.color && (|a| == 0 ==> qn == t) by {
      PutOne(qn, e, s1);
    }
    LiftTop(t, a, q1, q2, Put(t, r, s2));
  }

  /** A Red node under repair, seen from its Parent: the Parent is a
      Black, Balanced node that would be clean were the node Black. */
  lemma ParentView(t: RBTree, p: seq<Dir>)
    requires Repairing(t, p) && IsRed(At(t, p))
    ensures |p| > 0 && Reaches(t, Up(p)) && At(t, Up(p)).RBNode? && At(t, Up(p)).color == Black
    ensures At(t, p) == Child(At(t, Up(p)), Last(p))
    ensures Reaches(t, Sibling(p)) && At(t, Sibling(p)) == Child(At(t, Up(p)), Opposite(Last(p)))
    ensures Balanced(At(t, Up(p)))
    ensures NoRedRed(Put(At(t, Up(p)), [Last(p)], Paint(At(t, p), Black)))
  {
    var pp, d := Up(p), Last(p);
    LastStep(t, p);
    var g, c := At(t, pp), At(t, p);
    var g1 := Put(g, [d], Paint(c, Black));
    assert Put(t, p, Paint(c, Black)) == Put(t, pp, g1) by {
      PutViaParent(t, p, Paint(c, Black));
    }
    assert NoRedRed(g1) by {
      AtPut(t, pp, g1);
      CleanFacts(Put(t, pp, g1), pp);
    }
    BalancedAt(t, pp);
  }

  /** Replacing the Parent of a Red node under repair by a clean subtree of
      the same black height moves the repair up to the grandparent, or
      finishes it when the Parent was the root. */
  lemma ReplaceParent(t: RBTree, p: seq<Dir>, n: RBTree)
    requires Repairing(t, p) && IsRed(At(t, p)) && |p| > 0 && Reaches(t, Up(p))
    requires n.RBNode? && NoRedRed(n) && Balanced(n) && BlackHeight(n) == BlackHeight(At(t, Up(p)))
    ensures |Up(p)| == 0 ==> Repaired(Put(t, Up(p), n))
    ensures |Up(p)| > 0 ==> Repairing(Put(t, Up(p), n), Up(Up(p))) && NotRedLeaf(Put(t, Up(p), n), Up(Up(p)))
  {
    var pp, d := Up(p), Last(p);
    var g, c := At(t, pp), At(t, p);
    var g1 := Put(g, [d], Paint(c, Black));
    ParentView(t, p);
    assert Put(t, p, Paint(c, Black)) == Put(t, pp, g1) && !IsRed(g1) by {
      PutViaParent(t, p, Paint(c, Black));
      PutOne(g, d, Paint(c, Black));
    }
    PutBalanced(t, pp, n);
    if |pp| > 0 {
      LiftRepair(t, pp, g1, n);
    }
  }

  /** The Parent recoloured: Red over two Black children, same black height. */
  lemma RecolorLocal(g: RBTree, d: Dir)
    requires g.RBNode? && g.color == Black && Balanced(g) && IsRed(g.left) && IsRed(g.right)
    requires NoRedRed(Put(g, [d], Paint(Child(g, d), Black)))
    ensures NoRedRed(Recolored(g)) && Balanced(Recolored(g)) && BlackHeight(Recolored(g)) == BlackHeight(g)
  {
    PutOne(g, d, Paint(Child(g, d), Black));
  }

  /** CheckNode's red-uncle step: the Parent turns Red over two Black
      children, and the repair moves to the grandparent. */
  lemma RecolorRepairs(t: RBTree, p: seq<Dir>)
    requires |p| > 0 && Repairing(t, p) && IsRed(At(t, p)) && IsRed(At(t, Sibling(p)))
    ensures Reaches(t, Up(p)) && At(t, Up(p)).RBNode?
    ensures |Up(p)| == 0 ==> Repaired(Put(t, Up(p), Recolored(At(t, Up(p)))))
    ensures |Up(p)| > 0 ==>
              Repairing(Put(t, Up(p), Recolored(At(t, Up(p)))), Up(Up(p))) &&
              NotRedLeaf(Put(t, Up(p), Recolored(At(t, Up(p)))), Up(Up(p)))
  {
    ParentView(t, p);
    var g := At(t, Up(p));
    assert IsRed(g.left) && IsRed(g.right);
    RecolorLocal(g, Last(p));
    ReplaceParent(t, p, Recolored(g));
  }

  /** Replacing a Red node under repair by a subtree of the same black
      height that is clean once painted Black, is Red, has a child and has
      at most one Red child, keeps the repair at the same place. */
  lemma RepairInPlace(t: RBTree, p: seq<Dir>, m: RBTree)
    requires Repairing(t, p) && IsRed(At(t, p))
    requires IsRed(m) && NoRedRed(Paint(m, Black)) && !(IsRed(m.left) && IsRed(m.right))
    requires m.left.RBNode? || m.right.RBNode?
    requires Balanced(m) && BlackHeight(m) == BlackHeight(At(t, p))
    ensures Repairing(Put(t, p, m), p) && NotRedLeaf(Put(t, p, m), p)
  {
    var c := At(t, p);
    var t2 := Put(t, p, m);
    assert Reaches(t2, p) && At(t2, p) == m by {
      AtPut(t, p, m);
    }
    assert NoRedRed(Put(t2, p, Paint(m, Black))) by {
      PutTwice(t, p, m, Paint(m, Black));
      PutClean(t, p, Paint(c, Black), Paint(m, Black));
    }
    assert Balanced(t2) by {
      BalancedAt(t, p);
      PutBalanced(t, p, m);
    }
    assert t2.RBNode? && t2.color == Black && !IsRed(At(t2, Up(p))) by {
      PutKeepsTop(t, p, m);
      PutBelowParent(t, p, m);
    }
  }

  /** RotateRightChildRightParent's rotation at a Red node whose Right child
      is Red turns it into a Red node whose Left child is Red. */
  lemma InnerLeftLocal(c: RBTree)
    requires c.RBNode? && c.color == Red && !IsRed(c.left) && IsRed(c.right)
    requires Balanced(c) && NoRedRed(Paint(c, Black))
    ensures IsRed(RotatedLeft(c)) && IsRed(RotatedLeft(c).left) && !IsRed(RotatedLeft(c).right)
    ensures Balanced(RotatedLeft(c)) && BlackHeight(RotatedLeft(c)) == BlackHeight(c)
    ensures NoRedRed(Paint(RotatedLeft(c), Black))
  {
  }

  /** RotateLeftChildLeftParent's rotation: the mirror. */
  lemma InnerRightLocal(c: RBTree)
    requires c.RBNode? && c.color == Red && IsRed(c.left) && !IsRed(c.right)
    requires Balanced(c) && NoRedRed(Paint(c, Black))
    ensures IsRed(RotatedRight(c)) && IsRed(RotatedRight(c).right) && !IsRed(RotatedRight(c).left)
    ensures Balanced(RotatedRight(c)) && BlackHeight(RotatedRight(c)) == BlackHeight(c)
    ensures NoRedRed(Paint(RotatedRight(c), Black))
  {
  }

  /** The inner rotations keep the repair at the same place, now with the
      two Red nodes on the outside. */
  lemma InnerLeftRepairs(t: RBTree, p: seq<Dir>)
    requires Repairing(t, p) && IsRed(At(t, p)) && IsRed(At(t, p).right)
    ensures Repairing(Put(t, p, RotatedLeft(At(t, p))), p) && NotRedLeaf(Put(t, p, RotatedLeft(At(t, p))), p)
  {
    var c := At(t, p);
    assert NoRedRed(Paint(c, Black)) by {
      AtPut(t, p, Paint(c, Black));
      CleanFacts(Put(t, p, Paint(c, Black)), p);
    }
    BalancedAt(t, p);
    InnerLeftLocal(c);
    RepairInPlace(t, p, RotatedLeft(c));
  }

  lemma InnerRightRepairs(t: RBTree, p: seq<Dir>)
    requires Repairing(t, p) && IsRed(At(t, p)) && IsRed(At(t, p).left)
    ensures Repairing(Put(t, p, RotatedRight(At(t, p))), p) && NotRedLeaf(Put(t, p, RotatedRight(At(t, p))), p)
  {
    var c := At(t, p);
    assert NoRedRed(Paint(c, Black)) by {
      AtPut(t, p, Paint(c, Black));
      CleanFacts(Put(t, p, Paint(c, Black)), p);
    }
    BalancedAt(t, p);
    InnerRightLocal(c);
    RepairInPlace(t, p, RotatedRight(c));
  }

  /** RotateLeftChildRightParent on a Black Parent whose Left child and
      Left grandchild are Red: after the rotation and FixChildColors the
      subtree is clean with a Black top and the same black height. */
  lemma OuterLeftLocal(g: RBTree)
    requires g.RBNode? && g.color == Black && Balanced(g) && IsRed(g.left) && !IsRed(g.right)
    requires IsRed(g.left.left) && !IsRed(g.left.right)
    requires NoRedRed(Put(g, [L], Paint(g.left, Black)))
    ensures g.left.RBNode? && FixedColors(RotatedRight(g)).RBNode?
    ensures NoRedRed(FixedColors(RotatedRight(g))) && Balanced(FixedColors(RotatedRight(g)))
    ensures BlackHeight(FixedColors(RotatedRight(g))) == BlackHeight(g)
  {
    PutOne(g, L, Paint(g.left, Black));
  }

  /** RotateRightChildLeftParent: the mirror. */
  lemma OuterRightLocal(g: RBTree)
    requires g.RBNode? && g.color == Black && Balanced(g) && IsRed(g.right) && !IsRed(g.left)
    requires IsRed(g.right.right) && !IsRed(g.right.left)
    requires NoRedRed(Put(g, [R], Paint(g.right, Black)))
    ensures g.right.RBNode? && FixedColors(RotatedLeft(g)).RBNode?
    ensures NoRedRed(FixedColors(RotatedLeft(g))) && Balanced(FixedColors(RotatedLeft(g)))
    ensures BlackHeight(FixedColors(RotatedLeft(g))) == BlackHeight(g)
  {
    PutOne(g, R, Paint(g.right, Black));
  }

  /** The outer rotations move the repair up to the grandparent, or finish
      it when the Parent was the root. */
  lemma OuterLeftRepairs(t: RBTree, p: seq<Dir>)
    requires |p| > 0 && Last(p) == L
    requires Repairing(t, p) && IsRed(At(t, p)) && IsRed(At(t, p).left) && !IsRed(At(t, Sibling(p)))
    ensures Reaches(t, Up(p)) && At(t, Up(p)).RBNode? && At(t, Up(p)).left.RBNode?
    ensures |Up(p)| == 0 ==> Repaired(Put(t, Up(p), FixedColors(RotatedRight(At(t, Up(p))))))
    ensures |Up(p)| > 0 ==>
              Repairing(Put(t, Up(p), FixedColors(RotatedRight(At(t, Up(p))))), Up(Up(p))) &&
              NotRedLeaf(Put(t, Up(p), FixedColors(RotatedRight(At(t, Up(p))))), Up(Up(p)))
  {
    ParentView(t, p);
    var g := At(t, Up(p));
    OuterLeftLocal(g);
    ReplaceParent(t, p, FixedColors(RotatedRight(g)));
  }

  lemma OuterRightRepairs(t: RBTree, p: seq<Dir>)
    requires |p| > 0 && Last(p) == R
    requires Repairing(t, p) && IsRed(At(t, p)) && IsRed(At(t, p).right) && !IsRed(At(t, Sibling(p)))
    ensures Reaches(t, Up(p)) && At(t, Up(p)).RBNode? && At(t, Up(p)).right.RBNode?
    ensures |Up(p)| == 0 ==> Repaired(Put(t, Up(p), FixedColors(RotatedLeft(At(t, Up(p))))))
    ensures |Up(p)| > 0 ==>
              Repairing(Put(t, Up(p), FixedColors(RotatedLeft(At(t, Up(p))))), Up(Up(p))) &&
              NotRedLeaf(Put(t, Up(p), FixedColors(RotatedLeft(At(t, Up(p))))), Up(Up(p)))
  {
    ParentView(t, p);
    var g := At(t, Up(p));
    OuterRightLocal(g);
    ReplaceParent(t, p, FixedColors(RotatedLeft(g)));
  }

  /** Insert(value, current) on an equal value calls CheckNode on that
      node: in a red-black tree it is under repair already. */
  lemma RepairingFromClean(t: RBTree, q: seq<Dir>)
    requires RedBlack(t) && Reaches(t, q) && At(t, q).RBNode?
    ensures Repairing(t, q)
  {
    var n := At(t, q);
    CleanFacts(t, q);
    PutAt(t, q);
    PutClean(t, q, n, Paint(n, Black));
  }

  /** Insert's last step, painting the root Black, completes the repair. */
  lemma PaintRoot(t: RBTree)
    requires Repaired(t)
    ensures RedBlack(Paint(t, Black))
  {
  }

  // ---------------------------------------------------------------------
  // The steps keep the nodes

  /** `b` holds the same nodes as `a`, and is in search order when `a` is. */
  ghost predicate SameNodes(a: RBTree, b: RBTree) {
    Keys(b) == Keys(a) && LiveKeys(b) == LiveKeys(a) && Size(b) == Size(a) && (Ordered(a) ==> Ordered(b))
  }

  lemma PutSameNodes(t: RBTree, p: seq<Dir>, s: RBTree)
    requires Reaches(t, p) && SameNodes(At(t, p), s)
    ensures SameNodes(t, Put(t, p, s))
  {
    AtFacts(t, p);
    PutKeeps(t, p, s);
    PutSize(t, p, s);
  }

  /** Each recolouring the fix-up applies to a subtree keeps its nodes and
      their order. */
  lemma ColoringSameNodes(n: RBTree)
    requires n.RBNode?
    ensures SameNodes(n, Recolored(n)) && SameNodes(n, FixedColors(n)) && SameNodes(n, Paint(n, Black))
  {
    RecoloredKeeps(n);
    FixedColorsKeeps(n);
    PaintKeeps(n, Black);
  }

  /** So does each rotation. */
  lemma RotationSameNodes(n: RBTree)
    requires n.RBNode?
    ensures n.right.RBNode? ==> SameNodes(n, RotatedLeft(n))
    ensures n.left.RBNode? ==> SameNodes(n, RotatedRight(n))
  {
    if n.right.RBNode? {
      RotatedLeftKeys(n);
      if Ordered(n) {
        RotatedLeftOrdered(n);
      }
    }
    if n.left.RBNode? {
      RotatedRightKeys(n);
      if Ordered(n) {
        RotatedRightOrdered(n);
      }
    }
  }

  /** One step of Insert(value, current) down the comparison walk keeps the
      current node on the value's search path. */
  lemma BstInsertStep(t: RBTree, p: seq<Dir>, v: int)
    requires Reaches(t, p) && At(t, p).RBNode? && v != At(t, p).data
    ensures var d := if v < At(t, p).data then L else R;
            Reaches(t, p + [d]) && At(t, p + [d]) == Child(At(t, p), d) &&
            Put(t, p + [d], BstInsert(At(t, p + [d]), v)) == Put(t, p, BstInsert(At(t, p), v))
  {
    var c := At(t, p);
    var d := if v < c.data then L else R;
    DeepAt(t, p, [d]);
    assert [d][1..] == [];
    DeepPut(t, p, [d], BstInsert(Child(c, d), v));
    PutOne(c, d, BstInsert(Child(c, d), v));
  }

  // ---------------------------------------------------------------------
  // The walk lists each live value once

  /** In an ordered tree every node holds a different value. */
  lemma {:induction false} SizeIsKeys(t: RBTree)
    requires Ordered(t)
    ensures |Keys(t)| == Size(t)
  {
    if t.RBNode? {
      SizeIsKeys(t.left);
      SizeIsKeys(t.right);
      assert Keys(t.left) !! Keys(t.right) by {
        forall k | k in Keys(t.left) ensures k !in Keys(t.right) {
        }
      }
      assert t.data !in Keys(t.left) + Keys(t.right);
    }
  }

  /** The values of all the trees in a queue, tombstoned ones included. */
  function KeysOf(q: seq<RBTree>): set<int> {
    if |q| == 0 then {} else Keys(q[0]) + KeysOf(q[1..])
  }

  lemma {:induction false} KeysOfConcat(a: seq<RBTree>, b: seq<RBTree>)
    ensures KeysOf(a + b) == KeysOf(a) + KeysOf(b)
    decreases |a|
  {
    if |a| == 0 {
      assert a + b == b;
    } else {
      assert (a + b)[0] == a[0] && (a + b)[1..] == a[1..] + b;
      KeysOfConcat(a[1..], b);
    }
  }

  lemma {:induction false} KeysOfHas(q: seq<RBTree>, i: int)
    requires 0 <= i < |q|
    ensures Keys(q[i]) <= KeysOf(q)
    decreases i
  {
    if i > 0 {
      KeysOfHas(q[1..], i - 1);
    }
  }

  lemma {:induction false} LiveOfKeysOf(q: seq<RBTree>)
    ensures LiveOf(q) <= KeysOf(q)
    decreases |q|
  {
    if |q| > 0 {
      LiveKeysAreKeys(q[0]);
      LiveOfKeysOf(q[1..]);
    }
  }

  /** The trees of a queue are each in order and hold pairwise disjoint
      values. */
  ghost predicate DisjointQueue(q: seq<RBTree>) {
    (forall i :: 0 <= i < |q| ==> Ordered(q[i])) &&
    (forall i, j :: 0 <= i < j < |q| ==> Keys(q[i]) !! Keys(q[j]))
  }

  ghost predicate Distinct(s: seq<int>) {
    forall i, j :: 0 <= i < j < |s| ==> s[i] != s[j]
  }

  /** An element of a list without repeats is not among those before it. */
  lemma DistinctStep(s: seq<int>, i: int)
    requires Distinct(s) && 0 <= i < |s|
    ensures s[i] !in s[..i] && s[..i + 1] == s[..i] + [s[i]]
  {
    forall k | 0 <= k < i
      ensures s[..i][k] != s[i]
    {
      assert s[..i][k] == s[k];
    }
  }

  lemma DisjointAppend(a: seq<RBTree>, b: seq<RBTree>)
    requires DisjointQueue(a) && DisjointQueue(b) && KeysOf(a) !! KeysOf(b)
    ensures DisjointQueue(a + b)
  {
    var c := a + b;
    forall i, j | 0 <= i < j < |c| ensures Keys(c[i]) !! Keys(c[j]) {
      if j < |a| {
        assert c[i] == a[i] && c[j] == a[j];
      } else if i >= |a| {
        assert c[i] == b[i - |a|] && c[j] == b[j - |a|];
      } else {
        assert c[i] == a[i] && c[j] == b[j - |a|];
        KeysOfHas(a, i);
        KeysOfHas(b, j - |a|);
      }
    }
  }

  lemma ChildrenDisjoint(n: RBTree)
    requires n.RBNode? && Ordered(n)
    ensures DisjointQueue(Children(n)) && KeysOf(Children(n)) == Keys(n.left) + Keys(n.right)
  {
    var a := if n.left.RBNode? then [n.left] else [];
    var b := if n.right.RBNode? then [n.right] else [];
    KeysOfConcat(a, b);
    assert Keys(n.left) !! Keys(n.right) by {
      forall k | k in Keys(n.left) ensures k !in Keys(n.right) {
      }
    }
    DisjointAppend(a, b);
  }

  /** After dequeuing a node and enqueuing its children the queue is still
      disjoint, and the node's value is in none of its trees. */
  lemma DisjointStep(q: seq<RBTree>)
    requires |q| > 0 && q[0].RBNode? && DisjointQueue(q)
    ensures DisjointQueue(q[1..] + Children(q[0]))
    ensures q[0].data !in KeysOf(q[1..] + Children(q[0]))
  {
    var n, rest := q[0], q[1..];
    ChildrenDisjoint(n);
    KeysOfConcat(rest, Children(n));
    assert KeysOf(rest) !! Keys(n) by {
      forall k | k in KeysOf(rest) ensures k !in Keys(n) {
        KeysOfClaim(rest, k);
        var i :| 0 <= i < |rest| && k in Keys(rest[i]);
        assert rest[i] == q[i + 1];
      }
    }
    assert DisjointQueue(rest) by {
      forall i, j | 0 <= i < j < |rest| ensures Keys(rest[i]) !! Keys(rest[j]) {
        assert rest[i] == q[i + 1] && rest[j] == q[j + 1];
      }
    }
    DisjointAppend(rest, Children(n));
  }

  /** A value of a queue's trees is in one of them. */
  lemma {:induction false} KeysOfClaim(q: seq<RBTree>, k: int)
    requires k in KeysOf(q)
    ensures exists i :: 0 <= i < |q| && k in Keys(q[i])
    decreases |q|
  {
    if k !in Keys(q[0]) {
      KeysOfClaim(q[1..], k);
      var i :| 0 <= i < |q[1..]| && k in Keys(q[1..][i]);
      assert q[1..][i] == q[i + 1];
    }
  }

  /** The walk over a disjoint queue lists no value twice. */
  lemma {:induction false} LevelOrderDistinct(q: seq<RBTree>)
    requires DisjointQueue(q)
    ensures Distinct(LevelOrderLive(q))
    decreases QueueSize(q), |q|
  {
    if |q| > 0 {
      if q[0].Leaf? {
        assert DisjointQueue(q[1..]) by {
          forall i, j | 0 <= i < j < |q[1..]| ensures Keys(q[1..][i]) !! Keys(q[1..][j]) {
            assert q[1..][i] == q[i + 1] && q[1..][j] == q[j + 1];
          }
        }
        LevelOrderDistinct(q[1..]);
      } else {
        var q' := q[1..] + Children(q[0]);
        QueueSizeConcat(q[1..], Children(q[0]));
        ChildrenSize(q[0]);
        DisjointStep(q);
        LevelOrderDistinct(q');
        LevelOrderLiveKeys(q');
        LiveOfKeysOf(q');
        var s := LevelOrderLive(q');
        assert q[0].data !in s;
        var r := (if q[0].deleted then [] else [q[0].data]) + s;
        forall i, j | 0 <= i < j < |r| ensures r[i] != r[j] {
          if !q[0].deleted && i == 0 {
            assert r[j] == s[j - 1] && r[j] in s;
          } else if !q[0].deleted {
            assert r[i] == s[i - 1] && r[j] == s[j - 1];
          } else {
            assert r[i] == s[i] && r[j] == s[j];
          }
        }
      }
    }
  }

  /** The walk started at an ordered root lists each live value exactly once. */
  lemma WalkFacts(t: RBTree)
    requires Ordered(t)
    ensures Distinct(LevelOrderLive([t]))
    ensures forall x :: x in LevelOrderLive([t]) <==> x in LiveKeys(t)
  {
    assert [t][1..] == [] && LiveOf([t]) == LiveKeys(t);
    assert DisjointQueue([t]);
    LevelOrderDistinct([t]);
    LevelOrderLiveKeys([t]);
  }

  /** Insert(value, current) falling off the tree: the Red leaf it hangs
      is what BstInsert adds, a new value, and it puts its Parent under
      repair. */
  lemma PlaceLeaf(t: RBTree, p: seq<Dir>, d: Dir, v: int)
    requires Ordered(t) && Reaches(t, p) && At(t, p).RBNode? && v != At(t, p).data
    requires d == (if v < At(t, p).data then L else R) && Child(At(t, p), d).Leaf?
    requires Put(t, p, BstInsert(At(t, p), v)) == BstInsert(t, v)
    ensures Reaches(t, p + [d])
    ensures var t1 := Put(t, p + [d], RBNode(Leaf, Red, v, false, Leaf));
            v !in Keys(t) && Ordered(t1) && Keys(t1) == Keys(t) + {v} &&
            LiveKeys(t1) == LiveKeys(t) + {v} && Size(t1) == Size(t) + 1 &&
            Reaches(t1, p) && At(t1, p).RBNode? &&
            (RedBlack(t) ==> Repairing(t1, p) && NotRedLeaf(t1, p))
  {
    var c := At(t, p);
    BstInsertStep(t, p, v);
    BstInsertEffect(t, v);
    assert v !in Keys(t) by {
      AtPut(t, p, BstInsert(c, v));
      assert BstInsert(c, v) != c;
    }
    var leaf := RBNode(Leaf, Red, v, false, Leaf);
    assert p + [d] != [] && Up(p + [d]) == p;
    PutBelowParent(t, p + [d], leaf);
    if RedBlack(t) {
      InsertRepairing(t, p, d, v);
    }
  }

  /** Insert(value, current) meeting an equal value: nothing is added, and
      in a red-black tree the node is under repair. */
  lemma MeetEqual(t: RBTree, p: seq<Dir>, v: int)
    requires Ordered(t) && Reaches(t, p) && At(t, p).RBNode? && v == At(t, p).data
    ensures v in Keys(t) && BstInsert(t, v) == t
    ensures RedBlack(t) ==> Repairing(t, p)
  {
    AtFacts(t, p);
    BstInsertEffect(t, v);
    if RedBlack(t) {
      RepairingFromClean(t, p);
    }
  }

  /** The comparison walk stops at a node that is not tombstoned. */
  predicate FoundLive(t: RBTree, v: int) {
    FindPath(t, v).Some? && At(t, FindPath(t, v).value).RBNode? && !At(t, FindPath(t, v).value).deleted
  }

  /** In an ordered tree the comparison walk finds a live node exactly for
      the live values. */
  lemma ContainsMeaning(t: RBTree, v: int)
    requires Ordered(t)
    ensures FoundLive(t, v) <==> v in LiveKeys(t)
  {
    FindPathFinds(t, v);
    FindPathComplete(t, v);
    LiveKeysAreKeys(t);
    if FindPath(t, v).Some? {
      LiveAt(t, FindPath(t, v).value);
    }
  }

  /** Tombstoning a node changes no colour and no link, so a red-black
      tree stays one. */
  lemma TombstoneRedBlack(t: RBTree, p: seq<Dir>)
    requires RedBlack(t) && Reaches(t, p) && At(t, p).RBNode?
    ensures RedBlack(Put(t, p, Tombstoned(At(t, p))))
  {
    var n := At(t, p);
    BalancedAt(t, p);
    PutBalanced(t, p, Tombstoned(n));
    CleanFacts(t, p);
    PutAt(t, p);
    PutClean(t, p, n, Tombstoned(n));
    if |p| > 0 {
      PutKeepsTop(t, p, Tombstoned(n));
    }
  }
}
