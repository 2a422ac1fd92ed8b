/** DepthFirstSearch and BreathFirstSearch over a Graph. Both work on a copy
    of the vertex ids ("unvisited"), take the start vertex out of it, and emit
    a neighbour only when taking it out of that copy succeeds; they differ in
    the stack or queue that holds the vertices still to emit. */
module GraphExtensions {
  import opened Graphs

  predicate Distinct(s: seq<string>) {
    forall i, j :: 0 <= i < j < |s| ==> s[i] != s[j]
  }

  // Sequence identities stated for any element type: proved once, without
  // the solver looking inside the (string) elements.

  lemma Assoc<T>(a: seq<T>, b: seq<T>, c: seq<T>)
    ensures (a + b) + c == a + (b + c)
  {
  }

  lemma HeadTail<T>(s: seq<T>)
    requires |s| > 0
    ensures s == [s[0]] + s[1..]
  {
  }

  lemma InitLast<T>(s: seq<T>)
    requires |s| > 0
    ensures s == s[..|s| - 1] + [s[|s| - 1]]
  {
  }

  lemma RightUnit<T>(s: seq<T>, e: seq<T>)
    requires |e| == 0
    ensures s + e == s
  {
  }

  /** The neighbours the filter `Where(unvisited.Remove)` lets through, in
      order: each one whose id is still in the set, which it then leaves. */
  function Fresh(ns: seq<string>, unvisited: set<string>): seq<string> {
    if |ns| == 0 then []
    else if ns[0] in unvisited then [ns[0]] + Fresh(ns[1..], unvisited - {ns[0]})
    else Fresh(ns[1..], unvisited)
  }

  /** The filter lets each unvisited neighbour through exactly once, and
      nothing else. */
  lemma {:induction false} FreshProperties(ns: seq<string>, unvisited: set<string>)
    ensures Distinct(Fresh(ns, unvisited))
    ensures forall x :: x in Fresh(ns, unvisited) <==> x in ns && x in unvisited
    decreases |ns|
  {
    if |ns| > 0 {
      var x := ns[0];
      HeadTail(ns);
      if x in unvisited {
        FreshProperties(ns[1..], unvisited - {x});
        var r := Fresh(ns[1..], unvisited - {x});
        assert Fresh(ns, unvisited) == [x] + r;
        forall y | y in ns && y in unvisited ensures y in Fresh(ns, unvisited) {
          if y != x {
            assert y in ns[1..];
          }
        }
      } else {
        FreshProperties(ns[1..], unvisited);
      }
    }
  }

  /** The `foreach` over the filtered neighbours: returns those let through
      and what is left of the unvisited set. */
  method TakeUnvisited(ns: seq<string>, unvisited: set<string>) returns (taken: seq<string>, rest: set<string>)
    ensures taken == Fresh(ns, unvisited)
    ensures forall x :: x in rest <==> x in unvisited && x !in taken
    ensures |rest| == |unvisited| - |taken|
  {
    taken := [];
    rest := unvisited;
    var i := 0;
    while i < |ns|
      invariant 0 <= i <= |ns|
      invariant taken + Fresh(ns[i..], rest) == Fresh(ns, unvisited)
      invariant forall x :: x in rest <==> x in unvisited && x !in taken
      invariant |rest| == |unvisited| - |taken|
    {
      assert ns[i..][1..] == ns[i + 1..];
      if ns[i] in rest {
        taken := taken + [ns[i]];
        rest := rest - {ns[i]};
      }
      i := i + 1;
    }
    assert ns[i..] == [];
  }

  /** `n` copies of the position `v` (the emitting position recorded for
      each vertex a step adds). */
  function Repeat(n: nat, v: nat): (r: seq<nat>)
    ensures |r| == n && forall i :: 0 <= i < n ==> r[i] == v
  {
    if n == 0 then [] else Repeat(n - 1, v) + [v]
  }

  /** Every position after the first points at an earlier one it is a
      neighbour of: the vertex whose expansion emitted it. */
  ghost predicate SearchTree(es: seq<Edge>, kind: GraphType, order: seq<string>, parent: seq<nat>) {
    |parent| == |order| &&
    forall k :: 0 < k < |order| ==> parent[k] < k && order[k] in Neighbors(es, kind, order[parent[k]])
  }

  /** A breadth-first search tree: the emitting positions never go back. */
  ghost predicate LevelTree(es: seq<Edge>, kind: GraphType, order: seq<string>, parent: seq<nat>) {
    SearchTree(es, kind, order, parent) &&
    forall i, j :: 0 < i < j < |order| ==> parent[i] <= parent[j]
  }

  /** A walk: each vertex is a neighbour of the one before it. */
  ghost predicate IsWalk(es: seq<Edge>, kind: GraphType, p: seq<string>) {
    |p| > 0 && forall i :: 0 <= i < |p| - 1 ==> p[i + 1] in Neighbors(es, kind, p[i])
  }

  ghost predicate Reachable(es: seq<Edge>, kind: GraphType, from: string, to: string) {
    exists p :: IsWalk(es, kind, p) && p[0] == from && p[|p| - 1] == to
  }

  /** The depth of position `k` in the search tree. */
  ghost function Depth(es: seq<Edge>, kind: GraphType, order: seq<string>, parent: seq<nat>, k: nat): nat
    requires SearchTree(es, kind, order, parent) && k < |order|
  {
    if k == 0 then 0 else Depth(es, kind, order, parent, parent[k]) + 1
  }

  /** The tree path to position `k` is a walk from the first position, one
      vertex longer than its depth. */
  lemma {:induction false} WalkTo(es: seq<Edge>, kind: GraphType, order: seq<string>, parent: seq<nat>, k: nat)
    returns (p: seq<string>)
    requires SearchTree(es, kind, order, parent) && k < |order|
    ensures IsWalk(es, kind, p) && p[0] == order[0] && p[|p| - 1] == order[k]
    ensures |p| == Depth(es, kind, order, parent, k) + 1
    decreases k
  {
    if k == 0 {
      p := [order[0]];
    } else {
      var q := WalkTo(es, kind, order, parent, parent[k]);
      p := q + [order[k]];
      forall i | 0 <= i < |p| - 1 ensures p[i + 1] in Neighbors(es, kind, p[i]) {
        if i < |q| - 1 {
          assert p[i] == q[i] && p[i + 1] == q[i + 1];
        }
      }
    }
  }

  /** Everything a search emits is reachable from its first vertex. */
  lemma SearchTreeReachable(es: seq<Edge>, kind: GraphType, order: seq<string>, parent: seq<nat>)
    requires SearchTree(es, kind, order, parent)
    ensures forall k :: 0 <= k < |order| ==> Reachable(es, kind, order[0], order[k])
  {
    forall k | 0 <= k < |order| ensures Reachable(es, kind, order[0], order[k]) {
      var p := WalkTo(es, kind, order, parent, k);
    }
  }

  /** In a breadth-first tree depth never decreases along the emitted order. */
  lemma {:induction false} LevelsNondecreasing(es: seq<Edge>, kind: GraphType, order: seq<string>, parent: seq<nat>, i: nat, j: nat)
    requires LevelTree(es, kind, order, parent) && i <= j < |order|
    ensures Depth(es, kind, order, parent, i) <= Depth(es, kind, order, parent, j)
    decreases j
  {
    if 0 < i < j {
      LevelsNondecreasing(es, kind, order, parent, parent[i], parent[j]);
    }
  }

  /** A concatenation has no repeats exactly when neither part has and they
      share nothing. */
  lemma DistinctConcat(a: seq<string>, b: seq<string>)
    ensures Distinct(a + b) <==> Distinct(a) && Distinct(b) && forall x :: x in a ==> x !in b
  {
    if Distinct(a) && Distinct(b) && forall x :: x in a ==> x !in b {
      forall i, j | 0 <= i < j < |a + b| ensures (a + b)[i] != (a + b)[j] {
        if j < |a| {
          assert (a + b)[i] == a[i] && (a + b)[j] == a[j];
        } else if i < |a| {
          assert (a + b)[i] == a[i] && (a + b)[j] == b[j - |a|];
          assert a[i] in a;
        } else {
          assert (a + b)[i] == b[i - |a|] && (a + b)[j] == b[j - |a|];
        }
      }
    }
    if Distinct(a + b) {
      forall i, j | 0 <= i < j < |a| ensures a[i] != a[j] {
        assert a[i] == (a + b)[i] && a[j] == (a + b)[j];
      }
      forall i, j | 0 <= i < j < |b| ensures b[i] != b[j] {
        assert b[i] == (a + b)[|a| + i] && b[j] == (a + b)[|a| + j];
      }
      forall i, j | 0 <= i < |a| && 0 <= j < |b| ensures a[i] != b[j] {
        assert a[i] == (a + b)[i] && b[j] == (a + b)[|a| + j];
      }
    }
  }

  /** Moving the top of the stack to the end of the output keeps the two
      free of repeats. */
  lemma DistinctMove(result: seq<string>, rest: seq<string>, top: string)
    requires Distinct(result + (rest + [top]))
    ensures Distinct((result + [top]) + rest)
  {
    DistinctConcat(result, rest + [top]);
    DistinctConcat(rest, [top]);
    DistinctConcat(result, [top]);
    DistinctConcat(result + [top], rest);
  }

  /** Appending a vertex that is a neighbour of an earlier one extends a
      search tree. */
  lemma TreeExtend(es: seq<Edge>, kind: GraphType, order: seq<string>, parent: seq<nat>, x: string, p: nat)
    requires SearchTree(es, kind, order, parent)
    requires |order| > 0 ==> p < |order| && x in Neighbors(es, kind, order[p])
    ensures SearchTree(es, kind, order + [x], parent + [p])
  {
    var o, q := order + [x], parent + [p];
    forall k | 0 < k < |o| ensures q[k] < k && o[k] in Neighbors(es, kind, o[q[k]]) {
      if k < |order| {
        assert q[k] == parent[k] && o[k] == order[k] && o[parent[k]] == order[parent[k]];
      } else {
        assert q[k] == p && o[p] == order[p];
      }
    }
  }

  /** Enqueueing neighbours of the vertex at position `h`, the latest emitting
      position, extends a breadth-first tree. */
  lemma EnqueueStep(es: seq<Edge>, kind: GraphType, all: seq<string>, parent: seq<nat>, h: nat, taken: seq<string>)
    requires LevelTree(es, kind, all, parent) && h < |all|
    requires forall k :: 0 < k < |parent| ==> parent[k] <= h
    requires forall x :: x in taken ==> x in Neighbors(es, kind, all[h])
    ensures LevelTree(es, kind, all + taken, parent + Repeat(|taken|, h))
  {
    var o, q := all + taken, parent + Repeat(|taken|, h);
    forall k | 0 < k < |o| ensures q[k] < k && o[k] in Neighbors(es, kind, o[q[k]]) {
      if k < |all| {
        assert q[k] == parent[k] && o[k] == all[k] && o[parent[k]] == all[parent[k]];
      } else {
        assert q[k] == h && o[h] == all[h] && o[k] == taken[k - |all|];
      }
    }
    forall i, j | 0 < i < j < |o| ensures q[i] <= q[j] {
      if j < |all| {
        assert q[i] == parent[i] && q[j] == parent[j];
      } else if i < |all| {
        assert q[i] == parent[i];
      }
    }
  }

  /** The unvisited set is every vertex id except the start and the ones
      already emitted or waiting. */
  ghost predicate UnvisitedRest(vs: set<string>, start: string, seen: seq<string>, unvisited: set<string>) {
    forall x :: x in unvisited <==> x in vs && x != start && x !in seen
  }

  /** Every vertex emitted or waiting, other than the start, is a vertex id. */
  ghost predicate FromTable(vs: set<string>, start: string, seen: seq<string>) {
    forall x :: x in seen && x != start ==> x in vs
  }

  /** Each stacked vertex is a neighbour of the emitted vertex `sp` records. */
  ghost predicate StackLinks(es: seq<Edge>, kind: GraphType, result: seq<string>, stack: seq<string>, sp: seq<nat>) {
    |sp| == |stack| &&
    (|result| > 0 ==> forall k :: 0 <= k < |stack| ==>
       sp[k] < |result| && stack[k] in Neighbors(es, kind, result[sp[k]]))
  }

  /** What holds between iterations of the stack loop: output and stack
      hold no repeats, the unvisited set is every other vertex id, the output
      forms a search tree, and each stacked vertex is a neighbour of an
      emitted one. */
  ghost predicate DfsState(es: seq<Edge>, kind: GraphType, vs: set<string>, start: string,
                           result: seq<string>, stack: seq<string>, unvisited: set<string>,
                           rp: seq<nat>, sp: seq<nat>) {
    (|result| == 0 ==> stack == [start]) && (|result| > 0 ==> result[0] == start) &&
    Distinct(result + stack) &&
    UnvisitedRest(vs, start, result + stack, unvisited) &&
    FromTable(vs, start, result + stack) &&
    SearchTree(es, kind, result, rp) && StackLinks(es, kind, result, stack, sp)
  }

  /** Taking fresh neighbours out of the unvisited set and adding them to the
      vertices emitted or waiting keeps the bookkeeping of the unvisited set,
      of the table membership and of repeats. */
  lemma SeenStep(vs: set<string>, start: string, seen: seq<string>, unvisited: set<string>,
                 ns: seq<string>, taken: seq<string>, rest: set<string>)
    requires Distinct(seen) && UnvisitedRest(vs, start, seen, unvisited) && FromTable(vs, start, seen)
    requires taken == Fresh(ns, unvisited)
    requires forall x :: x in rest <==> x in unvisited && x !in taken
    ensures Distinct(seen + taken) && UnvisitedRest(vs, start, seen + taken, rest) &&
            FromTable(vs, start, seen + taken)
  {
    FreshProperties(ns, unvisited);
    DistinctConcat(seen, taken);
  }

  /** Popping the top into the output and pushing neighbours of it keeps the
      stacked vertices linked to emitted ones. */
  lemma StackLinksStep(es: seq<Edge>, kind: GraphType, result: seq<string>, below: seq<string>, top: string,
                       sp: seq<nat>, taken: seq<string>)
    requires StackLinks(es, kind, result, below + [top], sp)
    requires |result| == 0 ==> |below| == 0
    requires forall x :: x in taken ==> x in Neighbors(es, kind, top)
    ensures StackLinks(es, kind, result + [top], below + taken, sp[..|below|] + Repeat(|taken|, |result|))
  {
    var n := |below|;
    var result', stack' := result + [top], below + taken;
    var sp' := sp[..n] + Repeat(|taken|, |result|);
    forall k | 0 <= k < |stack'|
      ensures sp'[k] < |result'| && stack'[k] in Neighbors(es, kind, result'[sp'[k]])
    {
      if k < n {
        BelowLink(es, kind, result, below, top, sp, taken, k);
      } else {
        TakenLink(es, kind, result, below, top, sp, taken, k);
      }
    }
  }

  /** A vertex left on the stack keeps the link it had. */
  lemma BelowLink(es: seq<Edge>, kind: GraphType, result: seq<string>, below: seq<string>, top: string,
                  sp: seq<nat>, taken: seq<string>, k: int)
    requires StackLinks(es, kind, result, below + [top], sp)
    requires 0 <= k < |below| && |result| > 0
    ensures (sp[..|below|] + Repeat(|taken|, |result|))[k] < |result + [top]|
    ensures (below + taken)[k] in Neighbors(es, kind, (result + [top])[(sp[..|below|] + Repeat(|taken|, |result|))[k]])
  {
    var i := sp[k];
    assert (below + [top])[k] == below[k] == (below + taken)[k];
    assert (sp[..|below|] + Repeat(|taken|, |result|))[k] == i;
    assert (result + [top])[i] == result[i];
  }

  /** A vertex pushed now is linked to the vertex just emitted. */
  lemma TakenLink(es: seq<Edge>, kind: GraphType, result: seq<string>, below: seq<string>, top: string,
                  sp: seq<nat>, taken: seq<string>, k: int)
    requires |below| <= k < |below| + |taken| && |below| <= |sp|
    requires forall x :: x in taken ==> x in Neighbors(es, kind, top)
    ensures (sp[..|below|] + Repeat(|taken|, |result|))[k] < |result + [top]|
    ensures (below + taken)[k] in Neighbors(es, kind, (result + [top])[(sp[..|below|] + Repeat(|taken|, |result|))[k]])
  {
    var n := |below|;
    assert (below + taken)[k] == taken[k - n];
    assert (sp[..n] + Repeat(|taken|, |result|))[k] == |result|;
    assert (result + [top])[|result|] == top;
  }

  /** One iteration of the stack loop: pop, emit, push the fresh neighbours. */
  lemma DfsStep(es: seq<Edge>, kind: GraphType, vs: set<string>, start: string,
                result: seq<string>, stack: seq<string>, unvisited: set<string>,
                rp: seq<nat>, sp: seq<nat>, taken: seq<string>, rest: set<string>)
    requires DfsState(es, kind, vs, start, result, stack, unvisited, rp, sp) && |stack| > 0
    requires taken == Fresh(Neighbors(es, kind, stack[|stack| - 1]), unvisited)
    requires forall x :: x in rest <==> x in unvisited && x !in taken
    ensures DfsState(es, kind, vs, start, result + [stack[|stack| - 1]],
                     stack[..|stack| - 1] + taken, rest,
                     rp + [sp[|sp| - 1]], sp[..|sp| - 1] + Repeat(|taken|, |result|))
  {
    var n := |stack| - 1;
    var top, below := stack[n], stack[..n];
    InitLast(stack);
    var result' := result + [top];
    TreeExtend(es, kind, result, rp, top, sp[n]);
    DistinctMove(result, below, top);
    assert forall x :: x in result + stack <==> x in result' + below;
    assert UnvisitedRest(vs, start, result' + below, unvisited);
    assert FromTable(vs, start, result' + below);
    SeenStep(vs, start, result' + below, unvisited, Neighbors(es, kind, top), taken, rest);
    Assoc(result', below, taken);
    FreshProperties(Neighbors(es, kind, top), unvisited);
    StackLinksStep(es, kind, result, below, top, sp, taken);
  }

  /** What holds between iterations of the queue loop: emitted-or-queued
      vertices hold no repeats and form a breadth-first tree whose emitting
      positions are all already emitted, and the unvisited set is every
      other vertex id. */
  ghost predicate BfsState(es: seq<Edge>, kind: GraphType, vs: set<string>, start: string,
                           result: seq<string>, queue: seq<string>, unvisited: set<string>,
                           parent: seq<nat>) {
    |result + queue| > 0 && (result + queue)[0] == start && Distinct(result + queue) &&
    UnvisitedRest(vs, start, result + queue, unvisited) &&
    FromTable(vs, start, result + queue) &&
    LevelTree(es, kind, result + queue, parent) &&
    (forall k :: 0 < k < |parent| ==> parent[k] < |result|)
  }

  /** One iteration of the queue loop: dequeue, emit, enqueue the fresh
      neighbours. */
  lemma BfsStep(es: seq<Edge>, kind: GraphType, vs: set<string>, start: string,
                result: seq<string>, queue: seq<string>, unvisited: set<string>,
                parent: seq<nat>, taken: seq<string>, rest: set<string>)
    requires BfsState(es, kind, vs, start, result, queue, unvisited, parent) && |queue| > 0
    requires taken == Fresh(Neighbors(es, kind, queue[0]), unvisited)
    requires forall x :: x in rest <==> x in unvisited && x !in taken
    ensures BfsState(es, kind, vs, start, result + [queue[0]], queue[1..] + taken, rest,
                     parent + Repeat(|taken|, |result|))
  {
    var all := result + queue;
    var head := queue[0];
    assert all[|result|] == head;
    HeadTail(queue);
    Assoc(result, [head], queue[1..]);
    Assoc(result + [head], queue[1..], taken);
    var result', queue' := result + [head], queue[1..] + taken;
    var parent' := parent + Repeat(|taken|, |result|);
    assert result' + queue' == all + taken;
    SeenStep(vs, start, all, unvisited, Neighbors(es, kind, head), taken, rest);
    FreshProperties(Neighbors(es, kind, head), unvisited);
    EnqueueStep(es, kind, all, parent, |result|, taken);
    forall k | 0 < k < |parent'| ensures parent'[k] < |result'| {
      if k < |parent| {
        assert parent'[k] == parent[k];
      }
    }
  }

  /** When the stack is empty the output is the search's result. */
  lemma DfsDone(es: seq<Edge>, kind: GraphType, vs: set<string>, start: string,
                result: seq<string>, stack: seq<string>, unvisited: set<string>,
                rp: seq<nat>, sp: seq<nat>)
    requires DfsState(es, kind, vs, start, result, stack, unvisited, rp, sp) && |stack| == 0
    ensures |result| > 0 && result[0] == start && Distinct(result)
    ensures forall k :: 0 < k < |result| ==> result[k] in vs
    ensures SearchTree(es, kind, result, rp)
  {
    RightUnit(result, stack);
    forall k | 0 < k < |result| ensures result[k] in vs {
      assert result[k] in result && result[k] != result[0];
    }
  }

  /** When the queue is empty everything emitted or queued has been emitted. */
  lemma BfsDone(es: seq<Edge>, kind: GraphType, vs: set<string>, start: string,
                result: seq<string>, queue: seq<string>, unvisited: set<string>, parent: seq<nat>)
    requires BfsState(es, kind, vs, start, result, queue, unvisited, parent) && |queue| == 0
    ensures |result| > 0 && result[0] == start && Distinct(result)
    ensures forall k :: 0 < k < |result| ==> result[k] in vs
    ensures LevelTree(es, kind, result, parent)
  {
    RightUnit(result, queue);
    forall k | 0 < k < |result| ensures result[k] in vs {
      assert result[k] in result && result[k] != result[0];
    }
  }

  /** The stack-driven search. The stack's top is the end of the sequence;
      each popped vertex is emitted and its fresh neighbours are pushed in
      neighbour order. */
  method DepthFirstSearch(g: Graph, start: string) returns (result: seq<string>)
    ensures |result| > 0 && result[0] == start
    ensures Distinct(result)
    ensures forall k :: 0 < k < |result| ==> result[k] in g.vertices
    ensures exists parent :: SearchTree(g.edges, g.kind, result, parent)
  {
    result := [];
    ghost var rp: seq<nat> := [];
    var unvisited := g.vertices.Keys - {start};
    var stack := [start];
    ghost var sp: seq<nat> := [0];
    while |stack| > 0
      invariant DfsState(g.edges, g.kind, g.vertices.Keys, start, result, stack, unvisited, rp, sp)
      decreases |unvisited|, |stack|
    {
      var top := stack[|stack| - 1];
      var neighbors := g.GetNeighbors(top);
      var taken, rest := TakeUnvisited(neighbors, unvisited);
      DfsStep(g.edges, g.kind, g.vertices.Keys, start, result, stack, unvisited, rp, sp, taken, rest);
      rp, sp := rp + [sp[|sp| - 1]], sp[..|sp| - 1] + Repeat(|taken|, |result|);
      result, stack, unvisited := result + [top], stack[..|stack| - 1] + taken, rest;
    }
    DfsDone(g.edges, g.kind, g.vertices.Keys, start, result, stack, unvisited, rp, sp);
  }

  /** The queue-driven search: the head of the queue is emitted and its fresh
      neighbours are enqueued in neighbour order. */
  method BreathFirstSearch(g: Graph, start: string) returns (result: seq<string>)
    ensures |result| > 0 && result[0] == start
    ensures Distinct(result)
    ensures forall k :: 0 < k < |result| ==> result[k] in g.vertices
    ensures exists parent :: LevelTree(g.edges, g.kind, result, parent)
  {
    result := [];
    var unvisited := g.vertices.Keys - {start};
    var queue := [start];
    ghost var parent: seq<nat> := [0];
    while |queue| > 0
      invariant BfsState(g.edges, g.kind, g.vertices.Keys, start, result, queue, unvisited, parent)
      decreases |unvisited|, |queue|
    {
      var head := queue[0];
      var neighbors := g.GetNeighbors(head);
      var taken, rest := TakeUnvisited(neighbors, unvisited);
      BfsStep(g.edges, g.kind, g.vertices.Keys, start, result, queue, unvisited, parent, taken, rest);
      parent := parent + Repeat(|taken|, |result|);
      result, queue, unvisited := result + [head], queue[1..] + taken, rest;
    }
    BfsDone(g.edges, g.kind, g.vertices.Keys, start, result, queue, unvisited, parent);
  }
}
