/** BinaryTree: an unbalanced binary search tree that keeps duplicates
    (a value that compares equal goes left), with a node count, in-, pre- and
    post-order enumeration, and removal by the three classic cases.

    The linked nodes are modelled as a `Tree` value owned by the class; a
    node reference is modelled as the path of child steps from the root to
    it, and writing a parent's Left or Right field (or Root) as replacing the
    subtree at that path. */
module BinaryTrees {
  import opened Common
  import opened SortSpec

  datatype Tree = Nil | Node(left: Tree, data: int, right: Tree)

  function Elements(t: Tree): multiset<int> {
    match t
    case Nil => multiset{}
    case Node(l, d, r) => Elements(l) + multiset{d} + Elements(r)
  }

  function Size(t: Tree): nat {
    match t
    case Nil => 0
    case Node(l, _, r) => Size(l) + 1 + Size(r)
  }

  lemma {:induction false} SizeCounts(t: Tree)
    ensures Size(t) == |Elements(t)|
  {
    if t.Node? {
      SizeCounts(t.left);
      SizeCounts(t.right);
    }
  }

  /** The ordering Add establishes: everything left of a node compares at
      most equal to it, everything right of it compares greater. */
  predicate Bst(t: Tree) {
    match t
    case Nil => true
    case Node(l, d, r) =>
      Bst(l) && Bst(r) &&
      (forall x :: x in Elements(l) ==> x <= d) &&
      (forall x :: x in Elements(r) ==> d < x)
  }

  // ---------------------------------------------------------------------
  // Node positions as paths of child steps

  function Child(t: Tree, d: Dir): Tree
    requires t.Node?
  {
    if d == L then t.left else t.right
  }

  /** The subtree a path reaches (Nil once it falls off the tree). */
  function At(t: Tree, p: seq<Dir>): Tree
    decreases |p|
  {
    if |p| == 0 then t
    else if t.Nil? then Nil
    else At(Child(t, p[0]), p[1..])
  }

  /** Every step of the path leaves from a node (the last may land on Nil). */
  predicate Reaches(t: Tree, p: seq<Dir>)
    decreases |p|
  {
    |p| == 0 || (t.Node? && Reaches(Child(t, p[0]), p[1..]))
  }

  /** `t` with the subtree at `p` replaced by `s`: what assigning the
      parent's Left or Right field (or Root, for the empty path) does. */
  function Put(t: Tree, p: seq<Dir>, s: Tree): Tree
    decreases |p|
  {
    if |p| == 0 then s
    else if t.Nil? then Nil
    else if p[0] == L then Node(Put(t.left, p[1..], s), t.data, t.right)
    else Node(t.left, t.data, Put(t.right, p[1..], s))
  }

  lemma {:induction false} PutElements(t: Tree, p: seq<Dir>, s: Tree)
    requires Reaches(t, p)
    ensures Elements(At(t, p)) <= Elements(t)
    ensures Elements(Put(t, p, s)) == Elements(t) - Elements(At(t, p)) + Elements(s)
    decreases |p|
  {
    if |p| > 0 {
      var c := Child(t, p[0]);
      PutElements(c, p[1..], s);
      if p[0] == L {
        ShiftLeft(Elements(c), multiset{t.data}, Elements(t.right), Elements(At(c, p[1..])), Elements(s));
      } else {
        ShiftRight(Elements(t.left), multiset{t.data}, Elements(c), Elements(At(c, p[1..])), Elements(s));
      }
    }
  }

  /** Multiset bookkeeping for replacing part of the left operand. */
  lemma ShiftLeft<T>(a: multiset<T>, m: multiset<T>, b: multiset<T>, x: multiset<T>, y: multiset<T>)
    requires x <= a
    ensures x <= a + m + b
    ensures (a - x + y) + m + b == (a + m + b) - x + y
  {
  }

  /** Multiset bookkeeping for replacing part of the right operand. */
  lemma ShiftRight<T>(a: multiset<T>, m: multiset<T>, b: multiset<T>, x: multiset<T>, y: multiset<T>)
    requires x <= b
    ensures x <= a + m + b
    ensures a + m + (b - x + y) == (a + m + b) - x + y
  {
  }

  lemma TakeOut<T>(a: multiset<T>, m: multiset<T>, b: multiset<T>, x: multiset<T>)
    requires x <= b
    ensures a + m + (b - x) == (a + m + b) - x
  {
  }

  /** One step down from a node. */
  lemma OneStep(t: Tree, d: Dir, x: Tree)
    requires t.Node?
    ensures Reaches(t, [d]) && At(t, [d]) == Child(t, d)
    ensures Put(t, [d], x) == if d == L then Node(x, t.data, t.right) else Node(t.left, t.data, x)
  {
    assert [d][1..] == [];
  }

  /** Below a leaf every path falls off the tree. */
  lemma LeafPaths(t: Tree, p: seq<Dir>)
    requires t.Node? && t.left == Nil && t.right == Nil
    ensures |p| > 0 ==> At(t, p) == Nil
  {
    if |p| > 1 {
      assert At(t, p) == At(Nil, p[1..]);
    }
  }

  lemma {:induction false} AtBst(t: Tree, p: seq<Dir>)
    requires Bst(t)
    ensures Bst(At(t, p))
    decreases |p|
  {
    if |p| > 0 && t.Node? {
      AtBst(Child(t, p[0]), p[1..]);
    }
  }

  lemma {:induction false} PutSize(t: Tree, p: seq<Dir>, s: Tree)
    requires Reaches(t, p)
    ensures Size(Put(t, p, s)) == Size(t) - Size(At(t, p)) + Size(s)
    decreases |p|
  {
    if |p| > 0 {
      PutSize(Child(t, p[0]), p[1..], s);
    }
  }

  /** Replacing a subtree by a search tree whose values all occur in it
      keeps the whole a search tree. */
  lemma {:induction false} PutBst(t: Tree, p: seq<Dir>, s: Tree)
    requires Bst(t) && Reaches(t, p) && Bst(s)
    requires forall x :: x in Elements(s) ==> x in Elements(At(t, p))
    ensures Bst(Put(t, p, s))
    decreases |p|
  {
    if |p| > 0 {
      var c, q := Child(t, p[0]), p[1..];
      assert At(t, p) == At(c, q);
      PutBst(c, q, s);
      PutElements(c, q, s);
      var e := Elements(Put(c, q, s));
      assert forall x :: x in e ==> x in Elements(c);
      if p[0] == L {
        assert Put(t, p, s) == Node(Put(c, q, s), t.data, t.right);
      } else {
        assert Put(t, p, s) == Node(t.left, t.data, Put(c, q, s));
      }
    }
  }

  lemma {:induction false} AtPut(t: Tree, p: seq<Dir>, s: Tree)
    requires Reaches(t, p)
    ensures Reaches(Put(t, p, s), p) && At(Put(t, p, s), p) == s
    decreases |p|
  {
    if |p| > 0 {
      AtPut(Child(t, p[0]), p[1..], s);
    }
  }

  lemma {:induction false} PutTwice(t: Tree, p: seq<Dir>, a: Tree, b: Tree)
    requires Reaches(t, p)
    ensures Put(Put(t, p, a), p, b) == Put(t, p, b)
    decreases |p|
  {
    if |p| > 0 {
      PutTwice(Child(t, p[0]), p[1..], a, b);
    }
  }

  /** Following `p` and then `q` is following `p + q`. */
  lemma {:induction false} DeepAt(t: Tree, p: seq<Dir>, q: seq<Dir>)
    requires Reaches(t, p)
    ensures At(t, p + q) == At(At(t, p), q)
    ensures Reaches(t, p + q) <==> Reaches(At(t, p), q)
    decreases |p|
  {
    if |p| == 0 {
      assert p + q == q;
    } else {
      assert (p + q)[0] == p[0] && (p + q)[1..] == p[1..] + q;
      DeepAt(Child(t, p[0]), p[1..], q);
    }
  }

  /** Writing at `p + q` is writing, at `p`, the subtree there written at `q`. */
  lemma {:induction false} DeepPut(t: Tree, p: seq<Dir>, q: seq<Dir>, x: Tree)
    requires Reaches(t, p)
    ensures Put(t, p + q, x) == Put(t, p, Put(At(t, p), q, x))
    decreases |p|
  {
    if |p| == 0 {
      assert p + q == q;
    } else {
      assert (p + q)[0] == p[0] && (p + q)[1..] == p[1..] + q;
      DeepPut(Child(t, p[0]), p[1..], q, x);
    }
  }

  /** Writing at `p` and then deeper below `p` is one write at `p`. */
  lemma PutBelow(t: Tree, p: seq<Dir>, s: Tree, q: seq<Dir>, x: Tree)
    requires Reaches(t, p)
    ensures Put(Put(t, p, s), p + q, x) == Put(t, p, Put(s, q, x))
  {
    AtPut(t, p, s);
    DeepPut(Put(t, p, s), p, q, x);
    PutTwice(t, p, s, Put(s, q, x));
  }

  // ---------------------------------------------------------------------
  // Add

  /** Where Add puts a value: down the left when it compares at most equal,
      down the right otherwise, as a new leaf. */
  function Insert(t: Tree, v: int): Tree {
    match t
    case Nil => Node(Nil, v, Nil)
    case Node(l, d, r) => if v <= d then Node(Insert(l, v), d, r) else Node(l, d, Insert(r, v))
  }

  /** Add stores one more copy of the value, duplicates included. */
  lemma {:induction false} InsertElements(t: Tree, v: int)
    ensures Elements(Insert(t, v)) == Elements(t) + multiset{v}
    ensures Size(Insert(t, v)) == Size(t) + 1
  {
    if t.Node? {
      InsertElements(t.left, v);
      InsertElements(t.right, v);
    }
  }

  /** Add keeps left <= node < right. */
  lemma {:induction false} InsertBst(t: Tree, v: int)
    requires Bst(t)
    ensures Bst(Insert(t, v))
  {
    if t.Node? {
      if v <= t.data {
        InsertElements(t.left, v);
        InsertBst(t.left, v);
        assert forall x :: x in Elements(Insert(t.left, v)) ==> x <= t.data;
      } else {
        InsertElements(t.right, v);
        InsertBst(t.right, v);
        assert forall x :: x in Elements(Insert(t.right, v)) ==> t.data < x;
      }
    }
  }

  // ---------------------------------------------------------------------
  // Find

  /** The first node on the search path of `v` that compares equal to it. */
  function FindPath(t: Tree, v: int): Option<seq<Dir>> {
    match t
    case Nil => None
    case Node(l, d, r) =>
      if v == d then Some([])
      else if v < d then Under(L, FindPath(l, v))
      else Under(R, FindPath(r, v))
  }

  /** What Find returns is a node holding the value. */
  lemma {:induction false} FindPathFinds(t: Tree, v: int)
    ensures FindPath(t, v).Some? ==>
              var p := FindPath(t, v).value;
              Reaches(t, p) && At(t, p).Node? && At(t, p).data == v
  {
    if t.Node? && v != t.data {
      var d := if v < t.data then L else R;
      FindPathFinds(Child(t, d), v);
      var o := FindPath(Child(t, d), v);
      if o.Some? {
        assert ([d] + o.value)[0] == d && ([d] + o.value)[1..] == o.value;
      }
    }
  }

  /** In a search tree Find succeeds exactly for the stored values. */
  lemma {:induction false} FindPathComplete(t: Tree, v: int)
    requires Bst(t)
    ensures FindPath(t, v).Some? <==> v in Elements(t)
  {
    if t.Node? {
      FindPathComplete(t.left, v);
      FindPathComplete(t.right, v);
    }
  }

  // ---------------------------------------------------------------------
  // Extremes

  function MostLeft(t: Tree): (r: Tree)
    requires t.Node?
    ensures r.Node? && r.left == Nil
  {
    if t.left == Nil then t else MostLeft(t.left)
  }

  function MostRight(t: Tree): (r: Tree)
    requires t.Node?
    ensures r.Node? && r.right == Nil
  {
    if t.right == Nil then t else MostRight(t.right)
  }

  /** The node FindMostLeft stops at holds the least value and has no left
      child. */
  lemma {:induction false} MostLeftIsMinimum(t: Tree)
    requires t.Node?
    ensures MostLeft(t).data in Elements(t)
    ensures Bst(t) ==> forall x :: x in Elements(t) ==> MostLeft(t).data <= x
  {
    if t.left != Nil {
      MostLeftIsMinimum(t.left);
      if Bst(t) {
        forall x | x in Elements(t) ensures MostLeft(t).data <= x {
          if x in Elements(t.right) || x == t.data {
            assert MostLeft(t).data in Elements(t.left);
          }
        }
      }
    }
  }

  /** The node FindMostRight stops at holds the greatest value and has no
      right child. */
  lemma {:induction false} MostRightIsMaximum(t: Tree)
    requires t.Node?
    ensures MostRight(t).data in Elements(t)
    ensures Bst(t) ==> forall x :: x in Elements(t) ==> x <= MostRight(t).data
  {
    if t.right != Nil {
      MostRightIsMaximum(t.right);
    }
  }

  /** The path from `t` to its rightmost node. */
  function RightPath(t: Tree): seq<Dir>
    requires t.Node?
  {
    if t.right == Nil then [] else [R] + RightPath(t.right)
  }

  /** `t` without its rightmost node, whose left child takes its place. */
  function RemoveMax(t: Tree): Tree
    requires t.Node?
  {
    if t.right == Nil then t.left else Node(t.left, t.data, RemoveMax(t.right))
  }

  lemma {:induction false} RightPathFacts(t: Tree)
    requires t.Node?
    ensures Reaches(t, RightPath(t)) && At(t, RightPath(t)) == MostRight(t)
    ensures Put(t, RightPath(t), MostRight(t).left) == RemoveMax(t)
  {
    if t.right != Nil {
      RightPathFacts(t.right);
      var p := RightPath(t);
      assert p[0] == R && p[1..] == RightPath(t.right);
    }
  }

  lemma {:induction false} RemoveMaxElements(t: Tree)
    requires t.Node?
    ensures Elements(RemoveMax(t)) == Elements(t) - multiset{MostRight(t).data}
  {
    if t.right != Nil {
      RemoveMaxElements(t.right);
      MostRightIsMaximum(t.right);
      var x := multiset{MostRight(t.right).data};
      assert Elements(RemoveMax(t)) == Elements(t.left) + multiset{t.data} + Elements(RemoveMax(t.right));
      TakeOut(Elements(t.left), multiset{t.data}, Elements(t.right), x);
    }
  }

  lemma {:induction false} RemoveMaxBst(t: Tree)
    requires t.Node? && Bst(t)
    ensures Bst(RemoveMax(t))
  {
    if t.right != Nil {
      RemoveMaxBst(t.right);
      RemoveMaxElements(t.right);
      forall x | x in Elements(RemoveMax(t.right)) ensures t.data < x {
        assert x in Elements(t.right);
      }
    }
  }

  /** Multiset bookkeeping for taking out a node's own value. */
  lemma Cancel<T>(e: multiset<T>, a: multiset<T>, x: multiset<T>)
    requires a + x <= e
    ensures e - (a + x) + a == e - x
  {
  }

  /** Multiset bookkeeping for putting back a subtree less one value. */
  lemma Reduce<T>(e: multiset<T>, a: multiset<T>, x: multiset<T>)
    requires a <= e && x <= a
    ensures e - a + (a - x) == e - x
  {
  }

  /** Removing a node with at most one child below its parent, by putting
      the child in its slot, removes exactly its value and keeps the order. */
  lemma SpliceFacts(t: Tree, p: seq<Dir>)
    requires Bst(t) && Reaches(t, p) && At(t, p).Node? && AtMostOneChild(At(t, p))
    ensures Bst(Put(t, p, Spliced(At(t, p))))
    ensures Size(Put(t, p, Spliced(At(t, p)))) == Size(t) - 1
    ensures Elements(Put(t, p, Spliced(At(t, p)))) == Elements(t) - multiset{At(t, p).data}
  {
    var n := At(t, p);
    AtBst(t, p);
    PutBst(t, p, Spliced(n));
    PutSize(t, p, Spliced(n));
    PutElements(t, p, Spliced(n));
    SplicedNode(n);
    Cancel(Elements(t), Elements(Spliced(n)), multiset{n.data});
  }

  /** The child that takes a node's slot holds all of its values but its own. */
  lemma SplicedNode(n: Tree)
    requires n.Node? && AtMostOneChild(n)
    ensures Elements(n) == Elements(Spliced(n)) + multiset{n.data}
    ensures Size(Spliced(n)) == Size(n) - 1
  {
    if n.left != Nil {
      assert n.right == Nil;
      assert Elements(n) == Elements(n.left) + multiset{n.data} + multiset{};
    } else {
      assert Elements(n) == multiset{} + multiset{n.data} + Elements(n.right);
    }
  }

  /** A Count of one with the node at `p` present: `p` is the root, and
      the root is the whole tree. */
  lemma OnlyNode(t: Tree, p: seq<Dir>)
    requires Reaches(t, p) && At(t, p).Node? && Size(t) <= 1
    ensures p == [] && Elements(t) == multiset{t.data}
  {
    PutSize(t, p, Nil);
    LeafPaths(t, p);
  }

  /** The first half of a two-child removal: the predecessor's value is
      copied into the node. The tree stays ordered and the same size, and
      the predecessor is still where the path leads. */
  lemma CopyPredecessor(t: Tree, p: seq<Dir>, rs: seq<Dir>)
    requires Bst(t) && Reaches(t, p) && At(t, p).Node? && !AtMostOneChild(At(t, p))
    requires rs == RightPath(At(t, p).left)
    ensures var n := At(t, p);
            var t1 := Put(t, p, Node(n.left, MostRight(n.left).data, n.right));
            Bst(t1) && Size(t1) == Size(t) && Size(t) >= 3 &&
            Reaches(t1, p + ([L] + rs)) && At(t1, p + ([L] + rs)) == MostRight(n.left)
  {
    var n := At(t, p);
    var c := Node(n.left, MostRight(n.left).data, n.right);
    AtBst(t, p);
    CopiedNode(n);
    PutBst(t, p, c);
    PutSize(t, p, c);
    PutSize(t, p, Nil);
    PredecessorPath(t, p, c, rs);
  }

  /** The node with its predecessor's value copied in is still ordered, the
      same size, and holds no new value. */
  lemma CopiedNode(n: Tree)
    requires Bst(n) && n.Node? && n.left.Node?
    ensures var c := Node(n.left, MostRight(n.left).data, n.right);
            Bst(c) && Size(c) == Size(n) && forall x :: x in Elements(c) ==> x in Elements(n)
  {
    MostRightIsMaximum(n.left);
  }

  /** After the copy the predecessor is still at the end of the right spine
      of the node's left subtree. */
  lemma PredecessorPath(t: Tree, p: seq<Dir>, c: Tree, rs: seq<Dir>)
    requires Reaches(t, p) && c.Node? && c.left.Node? && rs == RightPath(c.left)
    ensures Reaches(Put(t, p, c), p + ([L] + rs)) && At(Put(t, p, c), p + ([L] + rs)) == MostRight(c.left)
  {
    RightPathFacts(c.left);
    AtPut(t, p, c);
    var q := [L] + rs;
    assert q[0] == L && q[1..] == rs;
    DeepAt(Put(t, p, c), p, q);
  }

  /** The second half: removing the predecessor (which has no right child)
      leaves the node holding the predecessor's value over the left subtree
      without its rightmost node, and the node's old value is gone. */
  lemma RemovePredecessor(t: Tree, p: seq<Dir>, n: Tree, rs: seq<Dir>)
    requires Reaches(t, p) && n == At(t, p) && n.Node? && n.left.Node?
    requires rs == RightPath(n.left)
    ensures Put(Put(t, p, Node(n.left, MostRight(n.left).data, n.right)), p + ([L] + rs),
                Spliced(MostRight(n.left))) ==
            Put(t, p, Node(RemoveMax(n.left), MostRight(n.left).data, n.right))
  {
    var l, m := n.left, MostRight(n.left);
    var c := Node(l, m.data, n.right);
    var q := [L] + rs;
    assert q[0] == L && q[1..] == rs;
    RightPathFacts(l);
    PutBelow(t, p, c, q, m.left);
    assert Put(c, q, m.left) == Node(RemoveMax(l), m.data, n.right);
  }

  /** What the two halves leave: the tree without the node's old value. */
  lemma PredecessorRemoved(t: Tree, p: seq<Dir>, n: Tree)
    requires Reaches(t, p) && n == At(t, p) && n.Node? && n.left.Node?
    ensures Elements(Put(t, p, Node(RemoveMax(n.left), MostRight(n.left).data, n.right))) ==
            Elements(t) - multiset{n.data}
  {
    var s := Node(RemoveMax(n.left), MostRight(n.left).data, n.right);
    PredecessorElements(n);
    PutElements(t, p, s);
    assert n.data in Elements(n);
    Reduce(Elements(t), Elements(n), multiset{n.data});
  }

  lemma PredecessorElements(n: Tree)
    requires n.Node? && n.left.Node?
    ensures Elements(Node(RemoveMax(n.left), MostRight(n.left).data, n.right)) ==
            Elements(n) - multiset{n.data}
  {
    var l, m := n.left, MostRight(n.left).data;
    MostRightIsMaximum(l);
    RemoveMaxElements(l);
    var el, er := Elements(l), Elements(n.right);
    assert (el - multiset{m}) + multiset{m} == el;
    assert (el + multiset{n.data} + er) - multiset{n.data} == el + er;
  }

  /** What replaces a node with at most one child: its left child if it has
      one, else its right child (Nil for a leaf). */
  function Spliced(n: Tree): Tree
    requires n.Node?
  {
    if n.left != Nil then n.left else n.right
  }

  predicate AtMostOneChild(n: Tree)
    requires n.Node?
  {
    n.left == Nil || n.right == Nil
  }

  // ---------------------------------------------------------------------
  // Traversals: the order VisitNode enqueues the nodes in

  function InOrder(t: Tree): seq<int> {
    match t
    case Nil => []
    case Node(l, d, r) => InOrder(l) + [d] + InOrder(r)
  }

  function PreOrder(t: Tree): seq<int> {
    match t
    case Nil => []
    case Node(l, d, r) => [d] + PreOrder(l) + PreOrder(r)
  }

  function PostOrder(t: Tree): seq<int> {
    match t
    case Nil => []
    case Node(l, d, r) => PostOrder(l) + PostOrder(r) + [d]
  }

  /** Each traversal visits every stored value exactly once. */
  lemma TraversalsVisitAll(t: Tree)
    ensures multiset(InOrder(t)) == Elements(t)
    ensures multiset(PreOrder(t)) == Elements(t)
    ensures multiset(PostOrder(t)) == Elements(t)
  {
    InOrderVisitsAll(t);
    PreOrderVisitsAll(t);
    PostOrderVisitsAll(t);
  }

  lemma {:induction false} InOrderVisitsAll(t: Tree)
    ensures multiset(InOrder(t)) == Elements(t)
  {
    if t.Node? {
      InOrderVisitsAll(t.left);
      InOrderVisitsAll(t.right);
    }
  }

  lemma {:induction false} PreOrderVisitsAll(t: Tree)
    ensures multiset(PreOrder(t)) == Elements(t)
  {
    if t.Node? {
      PreOrderVisitsAll(t.left);
      PreOrderVisitsAll(t.right);
    }
  }

  lemma {:induction false} PostOrderVisitsAll(t: Tree)
    ensures multiset(PostOrder(t)) == Elements(t)
  {
    if t.Node? {
      PostOrderVisitsAll(t.left);
      PostOrderVisitsAll(t.right);
    }
  }

  /** In-order enumeration of a search tree is ascending. */
  lemma {:induction false} InOrderSorted(t: Tree)
    requires Bst(t)
    ensures Sorted(InOrder(t))
  {
    if t.Node? {
      InOrderSorted(t.left);
      InOrderSorted(t.right);
      TraversalsVisitAll(t.left);
      TraversalsVisitAll(t.right);
      var a, b := InOrder(t.left), InOrder(t.right);
      forall x | x in a ensures x <= t.data {
        assert x in multiset(a);
      }
      forall y | y in b ensures t.data < y {
        assert y in multiset(b);
      }
      SortedJoin(a, t.data, b);
    }
  }

  /** Two sorted runs with a pivot between them join into a sorted sequence. */
  lemma SortedJoin(a: seq<int>, d: int, b: seq<int>)
    requires Sorted(a) && Sorted(b)
    requires forall x :: x in a ==> x <= d
    requires forall y :: y in b ==> d < y
    ensures Sorted(a + [d] + b)
  {
    var s := a + [d] + b;
    forall i, j | 0 <= i < j < |s| ensures s[i] <= s[j] {
      if j < |a| {
        assert s[i] == a[i] && s[j] == a[j];
      } else if i > |a| {
        assert s[i] == b[i - |a| - 1] && s[j] == b[j - |a| - 1];
      } else {
        if i < |a| {
          assert s[i] == a[i] && a[i] in a;
        }
        if j > |a| {
          assert s[j] == b[j - |a| - 1] && b[j - |a| - 1] in b;
        }
      }
    }
  }

  /** Pre-order starts at the root, post-order ends there. */
  lemma RootPosition(t: Tree)
    requires t.Node?
    ensures PreOrder(t)[0] == t.data
    ensures PostOrder(t)[|PostOrder(t)| - 1] == t.data
  {
  }

  datatype TraversalMode = InOrderMode | PostOrderMode | PreOrderMode

  datatype Outcome = Removed | NotFound | NullDereference

  /** FindMostLeft: follow Left from a node until there is none. */
  method FindMostLeft(start: Tree) returns (n: Tree)
    requires start.Node?
    ensures n == MostLeft(start)
    ensures n.Node? && n.left == Nil && n.data in Elements(start)
    ensures Bst(start) ==> forall x :: x in Elements(start) ==> n.data <= x
  {
    n := start;
    while n.left != Nil
      invariant n.Node? && MostLeft(n) == MostLeft(start)
      decreases Size(n)
    {
      n := n.left;
    }
    MostLeftIsMinimum(start);
  }

  /** FindMostRight: follow Right from a node until there is none. */
  method FindMostRight(start: Tree) returns (n: Tree)
    requires start.Node?
    ensures n == MostRight(start)
    ensures n.Node? && n.right == Nil && n.data in Elements(start)
    ensures Bst(start) ==> forall x :: x in Elements(start) ==> x <= n.data
  {
    n := start;
    while n.right != Nil
      invariant n.Node? && MostRight(n) == MostRight(start)
      decreases Size(n)
    {
      n := n.right;
    }
    MostRightIsMaximum(start);
  }

  /** The loop of the two-children case: from the left child follow Right
      to the in-order predecessor, also returning the path taken. */
  method FindPredecessor(n: Tree) returns (rs: seq<Dir>, pred: Tree)
    requires n.Node? && n.left.Node?
    ensures rs == RightPath(n.left) && pred == MostRight(n.left)
    ensures Reaches(n.left, rs) && At(n.left, rs) == pred
  {
    rs := [];
    pred := n.left;
    while pred.right != Nil
      invariant pred.Node? && MostRight(pred) == MostRight(n.left)
      invariant RightPath(n.left) == rs + RightPath(pred)
      decreases Size(pred)
    {
      assert RightPath(pred) == [R] + RightPath(pred.right);
      rs := rs + [R];
      pred := pred.right;
    }
    assert RightPath(pred) == [] && rs + [] == rs;
    RightPathFacts(n.left);
  }

  class BinaryTree {
    var root: Tree
    var count: int
    var traversalOrder: TraversalMode

    /** Add keeps the order; Count is at least the number of nodes (it is
        exactly that until a removal fails half-way, see RemoveNode). */
    ghost predicate Valid()
      reads this
    {
      Bst(root) && count >= Size(root)
    }

    constructor ()
      ensures root == Nil && count == 0 && traversalOrder == InOrderMode
      ensures Valid()
    {
      root := Nil;
      count := 0;
      traversalOrder := InOrderMode;
    }

    /** Add: walks down from the root (left on a value that compares at most
        equal, right otherwise) and hangs a new leaf in the first empty slot;
        Count goes up by one. */
    method Add(v: int)
      modifies this
      ensures root == Insert(old(root), v) && count == old(count) + 1
      ensures traversalOrder == old(traversalOrder)
      ensures Elements(root) == old(Elements(root)) + multiset{v}
      ensures old(Valid()) ==> Valid()
    {
      InsertElements(root, v);
      if Bst(root) {
        InsertBst(root, v);
      }
      if root == Nil {
        root := Node(Nil, v, Nil);
        count := count + 1;
        return;
      }
      ghost var t := root;
      var cur := root;
      var path: seq<Dir> := [];
      while true
        invariant root == t && Reaches(t, path) && At(t, path) == cur && cur.Node?
        invariant count == old(count) && traversalOrder == old(traversalOrder)
        invariant Put(t, path, Insert(cur, v)) == Insert(t, v)
        decreases Size(cur)
      {
        var d := if v <= cur.data then L else R;
        DeepAt(t, path, [d]);
        DeepPut(t, path, [d], Insert(Child(cur, d), v));
        OneStep(cur, d, Insert(Child(cur, d), v));
        if Child(cur, d) == Nil {
          root := Put(root, path + [d], Node(Nil, v, Nil));
          count := count + 1;
          return;
        }
        cur := Child(cur, d);
        path := path + [d];
      }
    }

    /** Find: the first node on the search path that compares equal, as its
        path from the root; None for null. */
    method Find(v: int) returns (r: Option<seq<Dir>>)
      ensures r == FindPath(root, v)
      ensures r.Some? ==> Reaches(root, r.value) && At(root, r.value).Node? && At(root, r.value).data == v
      ensures Bst(root) ==> (r.Some? <==> v in Elements(root))
    {
      FindPathFinds(root, v);
      if Bst(root) {
        FindPathComplete(root, v);
      }
      var it := root;
      var path: seq<Dir> := [];
      if FindPath(root, v).Some? {
        assert [] + FindPath(root, v).value == FindPath(root, v).value;
      }
      while it.Node?
        invariant Reaches(root, path) && At(root, path) == it
        invariant FindPath(root, v) == Graft(path, FindPath(it, v))
        decreases Size(it)
      {
        if v == it.data {
          assert path + [] == path;
          return Some(path);
        }
        var d := if v < it.data then L else R;
        DeepAt(root, path, [d]);
        OneStep(it, d, Nil);
        GraftUnder(path, d, FindPath(Child(it, d), v));
        it := Child(it, d);
        path := path + [d];
      }
      return None;
    }

    method Contains(v: int) returns (b: bool)
      ensures b <==> FindPath(root, v).Some?
      ensures Bst(root) ==> (b <==> v in Elements(root))
    {
      var r := Find(v);
      b := r.Some?;
    }

    /** LeftMost: None on an empty tree, otherwise the node FindMostLeft
        reaches from the root, holding the least value. */
    method LeftMost() returns (r: Option<Tree>)
      ensures r.None? <==> root == Nil
      ensures r.Some? ==> r.value.Node? && r.value == MostLeft(root) && r.value.data in Elements(root)
      ensures r.Some? && Bst(root) ==> forall x :: x in Elements(root) ==> r.value.data <= x
    {
      if root == Nil {
        return None;
      }
      var n := FindMostLeft(root);
      return Some(n);
    }

    /** RightMost: None on an empty tree, otherwise the node FindMostRight
        reaches from the root, holding the greatest value. */
    method RightMost() returns (r: Option<Tree>)
      ensures r.None? <==> root == Nil
      ensures r.Some? ==> r.value.Node? && r.value == MostRight(root) && r.value.data in Elements(root)
      ensures r.Some? && Bst(root) ==> forall x :: x in Elements(root) ==> x <= r.value.data
    {
      if root == Nil {
        return None;
      }
      var n := FindMostRight(root);
      return Some(n);
    }

    /** GetEnumerator: the values in the order the selected traversal
        enqueues their nodes. */
    method Enumerate() returns (s: seq<int>)
      ensures traversalOrder == InOrderMode ==> s == InOrder(root)
      ensures traversalOrder == PostOrderMode ==> s == PostOrder(root)
      ensures traversalOrder == PreOrderMode ==> s == PreOrder(root)
      ensures multiset(s) == Elements(root)
      ensures traversalOrder == InOrderMode && Bst(root) ==> Sorted(s)
    {
      TraversalsVisitAll(root);
      match traversalOrder {
        case PostOrderMode => s := PostOrder(root);
        case PreOrderMode => s := PreOrder(root);
        case InOrderMode =>
          s := InOrder(root);
          if Bst(root) {
            InOrderSorted(root);
          }
      }
    }

    /** Remove(value): Find, then remove that node; NotFound for null. */
    method Remove(v: int) returns (r: Outcome)
      requires Valid()
      modifies this
      ensures Valid() && traversalOrder == old(traversalOrder)
      ensures r == NotFound <==> v !in old(Elements(root))
      ensures r == NotFound ==> root == old(root) && count == old(count)
      ensures r == Removed ==> Elements(root) == old(Elements(root)) - multiset{v} && count == old(count) - 1
      ensures r == NullDereference ==>
                old(root).Node? && old(root).data == v && AtMostOneChild(old(root)) && count == old(count) &&
                root == (if old(root).left == Nil && old(root).right == Nil then old(root) else Spliced(old(root)))
    {
      var p := Find(v);
      if p.None? {
        return NotFound;
      }
      r := RemoveNode(p.value);
    }

    /** Remove(node), with the node given by its path. A Count of one empties
        the tree. A node with at most one child is replaced in its parent's
        slot by its child (or by null for a leaf); when that node is the root
        the code reaches for the missing parent and throws: a leaf root is
        left in place, a one-child root has already been replaced by its
        child, and Count is not decremented in either case. A node with two
        children takes the value of its in-order predecessor (the rightmost
        node of its left subtree), which is then removed. */
    method RemoveNode(p: seq<Dir>) returns (r: Outcome)
      requires Valid() && Reaches(root, p) && At(root, p).Node?
      modifies this
      ensures Valid() && traversalOrder == old(traversalOrder) && r != NotFound
      ensures var n := At(old(root), p);
        if old(count) == 1 then
          r == Removed && root == Nil && count == 0
        else if AtMostOneChild(n) && |p| > 0 then
          r == Removed && root == Put(old(root), p, Spliced(n)) && count == old(count) - 1
        else if AtMostOneChild(n) then
          r == NullDereference && count == old(count) &&
          root == (if n.left == Nil && n.right == Nil then old(root) else Spliced(n))
        else
          r == Removed && count == old(count) - 1 &&
          root == Put(old(root), p, Node(RemoveMax(n.left), MostRight(n.left).data, n.right))
      ensures r == Removed ==>
                Elements(root) == old(Elements(root)) - multiset{At(old(root), p).data}
      decreases if AtMostOneChild(At(root, p)) then 0 else 2
    {
      var n := At(root, p);
      if count == 1 {
        OnlyNode(root, p);
        root := Nil;
        count := count - 1;
        return Removed;
      }
      if AtMostOneChild(n) {
        if |p| == 0 {
          if n.left != Nil || n.right != Nil {
            root := Spliced(n);
          }
          return NullDereference;
        }
        SpliceFacts(root, p);
        root := Put(root, p, Spliced(n));
        count := count - 1;
        return Removed;
      }
      r := ReplaceByPredecessor(p);
    }

    /** The two-children case of RemoveNode: the in-order predecessor's
        value is copied into the node and the predecessor node is removed. */
    method ReplaceByPredecessor(p: seq<Dir>) returns (r: Outcome)
      requires Valid() && Reaches(root, p) && At(root, p).Node? && !AtMostOneChild(At(root, p))
      modifies this
      ensures Valid() && traversalOrder == old(traversalOrder)
      ensures var n := At(old(root), p);
        r == Removed && count == old(count) - 1 &&
        root == Put(old(root), p, Node(RemoveMax(n.left), MostRight(n.left).data, n.right))
      ensures Elements(root) == old(Elements(root)) - multiset{At(old(root), p).data}
      decreases 1
    {
      var n := At(root, p);
      ghost var t := root;
      var rs, pred := FindPredecessor(n);
      // The predecessor's Data is copied into the node: the tree stays
      // ordered, with that value now held twice.
      CopyPredecessor(t, p, rs);
      root := Put(root, p, Node(n.left, pred.data, n.right));
      ghost var t1 := root;
      var q := p + ([L] + rs);
      assert Valid() && Reaches(root, q) && At(root, q) == pred;
      assert count != 1 && AtMostOneChild(pred) && |q| > 0;
      r := RemoveNode(q);
      assert r == Removed && root == Put(t1, q, Spliced(pred)) && count == old(count) - 1;
      RemovePredecessor(t, p, n, rs);
      PredecessorRemoved(t, p, n);
    }
  }
}
