/** The two priority queues: one keeps a linked list in non-decreasing order
    by inserting each item in place, the other stores its items in a
    BinaryTree and serves the leftmost (Lowest mode) or rightmost (Highest
    mode) value. */
module PriorityQueues {
  import opened Common
  import opened SortSpec
  import opened BinaryTrees

  /** Where the linked-list Enqueue puts `x`: before the first element that
      is not less than it (so ahead of equal items), or at the end. */
  function InsertPosition(s: seq<int>, x: int): (k: nat)
    ensures k <= |s|
    ensures forall i :: 0 <= i < k ==> s[i] < x
    ensures k < |s| ==> x <= s[k]
  {
    if |s| == 0 || x <= s[0] then 0 else 1 + InsertPosition(s[1..], x)
  }

  /** The list after Enqueue. */
  function Inserted(s: seq<int>, x: int): seq<int> {
    var k := InsertPosition(s, x);
    s[..k] + [x] + s[k..]
  }

  /** Enqueue adds exactly the item, at its insert position. */
  lemma InsertedContents(s: seq<int>, x: int)
    ensures var k, r := InsertPosition(s, x), Inserted(s, x);
            |r| == |s| + 1 && r[k] == x &&
            (forall j :: 0 <= j < k ==> r[j] == s[j]) &&
            (forall j :: k < j < |r| ==> r[j] == s[j - 1])
  {
  }

  /** Enqueue adds one copy of the item and loses nothing. */
  lemma InsertedMultiset(s: seq<int>, x: int)
    ensures multiset(Inserted(s, x)) == multiset(s) + multiset{x}
  {
    var k := InsertPosition(s, x);
    assert s == s[..k] + s[k..];
  }

  /** Enqueue keeps the list in non-decreasing order. */
  lemma InsertedKeepsOrder(s: seq<int>, x: int)
    requires Sorted(s)
    ensures Sorted(Inserted(s, x))
  {
    var k := InsertPosition(s, x);
    var r := Inserted(s, x);
    InsertedContents(s, x);
    forall i, j | 0 <= i < j < |r| ensures r[i] <= r[j] {
      if j < k {
        assert r[i] == s[i] && r[j] == s[j];
      } else if i > k {
        assert r[i] == s[i - 1] && r[j] == s[j - 1];
      } else if i == k {
        assert r[j] == s[j - 1] && s[k] <= s[j - 1];
      } else {
        assert r[i] == s[i];
      }
    }
  }

  class LinkedListQueue {
    var items: seq<int>

    ghost predicate Valid()
      reads this
    {
      Sorted(items)
    }

    constructor ()
      ensures items == [] && Valid()
    {
      items := [];
    }

    predicate IsEmpty()
      reads this
    {
      |items| == 0
    }

    /** IsEmpty holds exactly when no item is queued. */
    lemma IsEmptyMeansNoItems()
      ensures IsEmpty() <==> multiset(items) == multiset{}
    {
      if !IsEmpty() {
        assert items[0] in multiset(items);
      }
    }

    /** Enqueue: AddFirst on an empty list; otherwise scan from First past
        the elements less than the item and add it before the element the
        scan stops at, or AddLast when it runs off the end. */
    method Enqueue(item: int)
      modifies this
      ensures items == Inserted(old(items), item)
      ensures multiset(items) == multiset(old(items)) + multiset{item}
      ensures old(Valid()) ==> Valid()
    {
      if Valid() {
        InsertedKeepsOrder(items, item);
      }
      InsertedMultiset(items, item);
      if |items| == 0 {
        items := [item];
        return;
      }
      var i := 0;
      while i < |items| && items[i] < item
        invariant 0 <= i <= |items|
        invariant forall k :: 0 <= k < i ==> items[k] < item
        invariant i <= InsertPosition(items, item)
      {
        i := i + 1;
      }
      if i == |items| {
        assert items[..i] == items && items[i..] == [];
        items := items + [item];
      } else {
        items := items[..i] + [item] + items[i..];
      }
    }

    /** Dequeue: the First value, which is removed. */
    method Dequeue() returns (value: int)
      requires |items| > 0
      modifies this
      ensures value == old(items)[0] && items == old(items)[1..]
      ensures multiset(items) == multiset(old(items)) - multiset{value}
      ensures old(Valid()) ==> Valid() && forall x :: x in old(items) ==> value <= x
    {
      value := items[0];
      assert items == [items[0]] + items[1..];
      if Valid() {
        Tail(items);
        forall x | x in items ensures value <= x {
          MinimumIsHead(items, x);
        }
      }
      items := items[1..];
    }

    /** Peek: the First value, nothing changes. */
    method Peek() returns (value: int)
      requires |items| > 0
      ensures value == items[0]
      ensures Valid() ==> forall x :: x in items ==> value <= x
    {
      value := items[0];
      if Valid() {
        forall x | x in items ensures value <= x {
          MinimumIsHead(items, x);
        }
      }
    }
  }

  datatype PriorityMode = Lowest | Highest

  /** The value the tree-backed queue serves: LeftMost's in Lowest mode,
      RightMost's in Highest mode. */
  function Front(t: Tree, mode: PriorityMode): (v: int)
    requires t.Node?
    ensures v in Elements(t)
    ensures Bst(t) && mode == Lowest ==> forall x :: x in Elements(t) ==> v <= x
    ensures Bst(t) && mode == Highest ==> forall x :: x in Elements(t) ==> x <= v
  {
    MostLeftIsMinimum(t);
    MostRightIsMaximum(t);
    match mode
    case Lowest => MostLeft(t).data
    case Highest => MostRight(t).data
  }

  class TreeQueue {
    const items: BinaryTree
    var mode: PriorityMode

    ghost predicate Valid()
      reads this, items
    {
      items.Valid()
    }

    constructor ()
      ensures fresh(items) && items.root == Nil && items.count == 0 && mode == Lowest
      ensures Valid()
    {
      items := new BinaryTree();
      mode := Lowest;
    }

    /** IsEmpty: Count is zero. */
    predicate IsEmpty()
      reads this, items
    {
      items.count == 0
    }

    /** An empty count means an empty tree (the converse fails once a
        removal has thrown half-way, see BinaryTree.RemoveNode). */
    lemma EmptyCountMeansEmptyTree()
      requires Valid()
      ensures IsEmpty() ==> items.root == Nil && Elements(items.root) == multiset{}
    {
    }

    /** Enqueue: Add to the tree. */
    method Enqueue(item: int)
      modifies items
      ensures items.root == Insert(old(items.root), item) && items.count == old(items.count) + 1
      ensures Elements(items.root) == old(Elements(items.root)) + multiset{item}
      ensures old(Valid()) ==> Valid()
    {
      items.Add(item);
    }

    /** Peek: the Data of LeftMost or RightMost, by mode; the tree must be
        non-empty, as those are null otherwise. */
    method Peek() returns (value: int)
      requires items.root.Node?
      ensures value == Front(items.root, mode)
    {
      match mode {
        case Highest =>
          var n := items.RightMost();
          value := n.value.data;
        case Lowest =>
          var n := items.LeftMost();
          value := n.value.data;
      }
    }

    /** Dequeue: Peek, then Remove(value) from the tree. Remove finds the
        first node holding the value on its search path; when that is a root
        with at most one child (while Count is not one) the removal throws,
        so dequeuing the lowest of 1 then 2 fails. */
    method Dequeue() returns (value: int, r: Outcome)
      requires Valid() && items.root.Node?
      modifies items
      ensures value == Front(old(items.root), mode)
      ensures r != NotFound && Valid()
      ensures r == Removed ==>
                Elements(items.root) == old(Elements(items.root)) - multiset{value} &&
                items.count == old(items.count) - 1
      ensures r == NullDereference ==>
                old(items.root).data == value && AtMostOneChild(old(items.root)) &&
                items.count == old(items.count) &&
                items.root == (if old(items.root).left == Nil && old(items.root).right == Nil then old(items.root)
                               else Spliced(old(items.root)))
    {
      value := Peek();
      r := items.Remove(value);
    }
  }

  /** Enqueue 1 then 2 and dequeue in Lowest mode: the lowest value sits at
      the root, which has one child, so the removal takes the throwing path. */
  lemma DequeueAfterOneTwo()
    ensures var t := Insert(Insert(Nil, 1), 2);
            Front(t, Lowest) == 1 && FindPath(t, 1) == Some([]) && AtMostOneChild(t) &&
            t.right != Nil
  {
  }
}
