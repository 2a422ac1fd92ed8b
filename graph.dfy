/** The Graph class: a vertex table keyed by id and a list of edges, read
    either as directed arcs or as undirected links. Vertices are identified by
    their Id (the source compares vertex references; the model compares ids),
    and edge costs are carried as an uninterpreted real. */
module Graphs {

  datatype GraphType = Directed | Undirected

  /** The fields of a vertex the model keeps. */
  datatype Vertex = Vertex(id: string, caption: string)

  /** An edge; `caption` is its Label. */
  datatype Edge = Edge(caption: string, from: string, to: string, cost: real)

  /** `e` makes `w` a neighbour of `v` under the neighbour rule of `kind`. */
  predicate Links(e: Edge, kind: GraphType, v: string, w: string) {
    (e.from == v && e.to == w) || (kind == Undirected && e.to == v && e.from == w)
  }

  /** `e` has `id` as one of its ends. */
  predicate Incident(e: Edge, id: string) {
    e.from == id || e.to == id
  }

  /** The neighbours one edge contributes to `v`, in the order GetNeighbors
      adds them: the far end of an outgoing edge, then (undirected only) the
      near end of an incoming one. */
  function Contribution(e: Edge, kind: GraphType, v: string): seq<string> {
    match kind
    case Directed => if e.from == v then [e.to] else []
    case Undirected =>
      (if e.from == v then [e.to] else []) + (if e.to == v then [e.from] else [])
  }

  /** The neighbour list of `v`: each edge's contribution, in edge order. */
  function Neighbors(es: seq<Edge>, kind: GraphType, v: string): seq<string> {
    if |es| == 0 then []
    else Neighbors(es[..|es| - 1], kind, v) + Contribution(es[|es| - 1], kind, v)
  }

  /** Appending one edge appends its contribution. */
  lemma NeighborsSnoc(es: seq<Edge>, e: Edge, kind: GraphType, v: string)
    ensures Neighbors(es + [e], kind, v) == Neighbors(es, kind, v) + Contribution(e, kind, v)
  {
    assert (es + [e])[..|es|] == es;
  }

  /** `w` is a neighbour of `v` exactly when some edge links them. */
  lemma {:induction false} NeighborsMembership(es: seq<Edge>, kind: GraphType, v: string, w: string)
    ensures w in Neighbors(es, kind, v) <==> exists i :: 0 <= i < |es| && Links(es[i], kind, v, w)
    decreases |es|
  {
    if es != [] {
      var n := |es| - 1;
      NeighborsMembership(es[..n], kind, v, w);
      var e := es[n];
      assert w in Contribution(e, kind, v) <==> Links(e, kind, v, w);
      if w in Neighbors(es, kind, v) {
        if w in Neighbors(es[..n], kind, v) {
          var i :| 0 <= i < n && Links(es[..n][i], kind, v, w);
          assert es[i] == es[..n][i];
        }
      } else {
        forall i | 0 <= i < |es| ensures !Links(es[i], kind, v, w) {
          if i < n {
            assert es[i] == es[..n][i];
          }
        }
      }
    }
  }

  /** In a directed graph an edge contributes at most its far end, so the
      neighbour list is never longer than the edge list. */
  lemma {:induction false} DirectedNeighborsBound(es: seq<Edge>, v: string)
    ensures |Neighbors(es, Directed, v)| <= |es|
    decreases |es|
  {
    if es != [] {
      DirectedNeighborsBound(es[..|es| - 1], v);
    }
  }

  /** One undirected edge between distinct ends makes each end a neighbour
      of the other twice: once through each of the two stored edges. */
  lemma UndirectedPairTwice(es: seq<Edge>, e: Edge, f: Edge)
    requires e.from != e.to && f == Edge(e.caption, e.to, e.from, e.cost)
    ensures Neighbors(es + [e, f], Undirected, e.from) == Neighbors(es, Undirected, e.from) + [e.to, e.to]
    ensures Neighbors(es + [e, f], Undirected, e.to) == Neighbors(es, Undirected, e.to) + [e.from, e.from]
  {
    assert es + [e, f] == (es + [e]) + [f];
    NeighborsSnoc(es + [e], f, Undirected, e.from);
    NeighborsSnoc(es, e, Undirected, e.from);
    NeighborsSnoc(es + [e], f, Undirected, e.to);
    NeighborsSnoc(es, e, Undirected, e.to);
  }

  /** What List.Remove does to a list of edges: drop the first occurrence. */
  function RemoveFirst(es: seq<Edge>, e: Edge): seq<Edge> {
    if es == [] then []
    else if es[0] == e then es[1..]
    else [es[0]] + RemoveFirst(es[1..], e)
  }

  /** Removing an edge that is present drops exactly one copy of it; removing
      one that is absent changes nothing. */
  lemma {:induction false} RemoveFirstEffect(es: seq<Edge>, e: Edge)
    ensures e in es ==> |RemoveFirst(es, e)| == |es| - 1 &&
                        multiset(RemoveFirst(es, e)) == multiset(es) - multiset{e}
    ensures e !in es ==> RemoveFirst(es, e) == es
  {
    if es != [] && es[0] != e {
      RemoveFirstEffect(es[1..], e);
      assert es == [es[0]] + es[1..];
    } else if es != [] {
      assert es == [es[0]] + es[1..];
    }
  }

  /** The edges that do not touch `id`, in order (what RemoveVertex was
      written to leave behind). */
  function WithoutIncident(es: seq<Edge>, id: string): seq<Edge> {
    if es == [] then []
    else (if Incident(es[0], id) then [] else [es[0]]) + WithoutIncident(es[1..], id)
  }

  /** WithoutIncident keeps exactly the edges that do not touch `id`. */
  lemma {:induction false} WithoutIncidentKeeps(es: seq<Edge>, id: string, e: Edge)
    ensures e in WithoutIncident(es, id) <==> e in es && !Incident(e, id)
  {
    if es != [] {
      WithoutIncidentKeeps(es[1..], id, e);
      assert es == [es[0]] + es[1..];
    }
  }

  class Graph {
    var vertices: map<string, Vertex>
    var edges: seq<Edge>
    const kind: GraphType

    constructor (kind: GraphType)
      ensures this.kind == kind && vertices == map[] && edges == []
    {
      this.kind := kind;
      vertices := map[];
      edges := [];
    }

    /** Fails (ArgumentOutOfRangeException) when the id is taken; otherwise
        adds the vertex under its id. */
    method AddVertex(v: Vertex) returns (ok: bool)
      modifies this
      ensures ok <==> v.id !in old(vertices)
      ensures ok ==> vertices == old(vertices)[v.id := v]
      ensures !ok ==> vertices == old(vertices)
      ensures edges == old(edges)
    {
      if v.id in vertices {
        return false;
      }
      vertices := vertices[v.id := v];
      return true;
    }

    /** The vertex lookup yields null for an unknown id, and removing null
        from the vertex table dereferences it: MissingVertex. Otherwise the
        first edge touching the vertex is removed while the lazy filter over
        the edge list is still enumerating it, and the next step of that
        enumeration throws: ModifiedDuringEnumeration. Only a vertex without
        edges is removed. */
    method RemoveVertex(id: string) returns (r: RemoveOutcome)
      modifies this
      ensures r.Removed? <==> id in old(vertices) && forall e :: e in old(edges) ==> !Incident(e, id)
      ensures r.Removed? ==> vertices == old(vertices) - {id} && edges == old(edges)
      ensures r.MissingVertex? <==> id !in old(vertices)
      ensures r.MissingVertex? ==> vertices == old(vertices) && edges == old(edges)
      ensures r.ModifiedDuringEnumeration? ==>
                r.at < |old(edges)| && Incident(old(edges)[r.at], id) &&
                (forall k :: 0 <= k < r.at ==> !Incident(old(edges)[k], id)) &&
                edges == old(edges)[..r.at] + old(edges)[r.at + 1..] &&
                vertices == old(vertices)
    {
      if id !in vertices {
        return MissingVertex;
      }
      var i := 0;
      while i < |edges|
        invariant 0 <= i <= |edges|
        invariant forall k :: 0 <= k < i ==> !Incident(edges[k], id)
      {
        if Incident(edges[i], id) {
          edges := edges[..i] + edges[i + 1..];
          return ModifiedDuringEnumeration(i);
        }
        i := i + 1;
      }
      vertices := vertices - {id};
      return Removed;
    }

    /** What RemoveVertex was written to do: drop every edge touching the
        vertex, then the vertex. */
    method RemoveVertexIntended(id: string) returns (ok: bool)
      modifies this
      ensures ok <==> id in old(vertices)
      ensures ok ==> vertices == old(vertices) - {id} && edges == WithoutIncident(old(edges), id)
      ensures !ok ==> vertices == old(vertices) && edges == old(edges)
      ensures ok ==> forall e :: e in edges ==> !Incident(e, id)
    {
      if id !in vertices {
        return false;
      }
      var kept: seq<Edge> := [];
      var i := 0;
      while i < |edges|
        invariant 0 <= i <= |edges|
        invariant kept + WithoutIncident(edges[i..], id) == WithoutIncident(edges, id)
      {
        assert edges[i..] == [edges[i]] + edges[i + 1..];
        if !Incident(edges[i], id) {
          kept := kept + [edges[i]];
        }
        i := i + 1;
      }
      assert edges[i..] == [];
      forall e | e in kept ensures !Incident(e, id) {
        WithoutIncidentKeeps(edges, id, e);
      }
      edges := kept;
      vertices := vertices - {id};
      return true;
    }

    /** Appends one edge (Directed) or the edge and its reverse with the same
        label and cost (Undirected). */
    method AddEdge(from: Vertex, to: Vertex, caption: string, cost: real)
      modifies this
      ensures kind == Directed ==> edges == old(edges) + [Edge(caption, from.id, to.id, cost)]
      ensures kind == Undirected ==>
                edges == old(edges) + [Edge(caption, from.id, to.id, cost), Edge(caption, to.id, from.id, cost)]
      ensures vertices == old(vertices)
    {
      match kind
      case Directed =>
        edges := edges + [Edge(caption, from.id, to.id, cost)];
      case Undirected =>
        edges := edges + [Edge(caption, from.id, to.id, cost)];
        edges := edges + [Edge(caption, to.id, from.id, cost)];
    }

    /** List.Remove: drops the first occurrence of the edge, if any. */
    method RemoveEdge(e: Edge)
      modifies this
      ensures edges == RemoveFirst(old(edges), e)
      ensures vertices == old(vertices)
    {
      var i := 0;
      while i < |edges| && edges[i] != e
        invariant 0 <= i <= |edges|
        invariant forall k :: 0 <= k < i ==> edges[k] != e
        invariant RemoveFirst(edges, e) == edges[..i] + RemoveFirst(edges[i..], e)
      {
        assert edges[i..] == [edges[i]] + edges[i + 1..];
        assert edges[..i + 1] == edges[..i] + [edges[i]];
        i := i + 1;
      }
      if i < |edges| {
        edges := edges[..i] + edges[i + 1..];
      } else {
        assert edges[i..] == [];
        assert edges[..i] == edges;
      }
    }

    /** The neighbours of the vertex with id `v`, in edge order, by the rule
        of the graph's kind. */
    method GetNeighbors(v: string) returns (ns: seq<string>)
      ensures ns == Neighbors(edges, kind, v)
      ensures forall w :: w in ns <==> exists i :: 0 <= i < |edges| && Links(edges[i], kind, v, w)
    {
      ns := [];
      var i := 0;
      while i < |edges|
        invariant 0 <= i <= |edges|
        invariant ns == Neighbors(edges[..i], kind, v)
      {
        var edge := edges[i];
        assert edges[..i + 1][..i] == edges[..i];
        match kind {
          case Directed =>
            if edge.from == v {
              ns := ns + [edge.to];
            }
          case Undirected =>
            if edge.from == v {
              ns := ns + [edge.to];
            }
            if edge.to == v {
              ns := ns + [edge.from];
            }
        }
        i := i + 1;
      }
      assert edges[..i] == edges;
      forall w ensures w in ns <==> exists i :: 0 <= i < |edges| && Links(edges[i], kind, v, w) {
        NeighborsMembership(edges, kind, v, w);
      }
    }
  }

  datatype RemoveOutcome = Removed | MissingVertex | ModifiedDuringEnumeration(at: nat)
}
