/**
 The graph container: nodes, edges and the graph that stores them in two maps.
 A node is identified by its integer id; an edge by the ordered pair of its
 endpoints' ids. Every generator reaches a graph only through `AddNodo` and
 `AddArista`, so the invariant `Valid` below is what all of them keep.
 */
module Grafos {

  /** A vertex; its identity is its id. */
  datatype Nodo = Nodo(id: int) {

    /** Node equality compares ids. */
    predicate Equals(other: Nodo) {
      id == other.id
    }
  }

  /** A node is nothing but its id, so node equality is value equality. */
  lemma NodoEqualsIffSame(a: Nodo, b: Nodo)
    ensures a.Equals(b) <==> a == b
  {
  }

  /** The ordered pair of endpoint ids that keys an edge. */
  type AristaId = (int, int)

  /** An edge from `u` to `v`. */
  datatype Arista = Arista(u: Nodo, v: Nodo) {

    /** The key under which the graph stores this edge: (source id, target id). */
    function Id(): AristaId
    {
      (u.id, v.id)
    }

    /** Edge equality compares both endpoints by node equality. */
    predicate Equals(other: Arista) {
      u.Equals(other.u) && v.Equals(other.v)
    }
  }

  /** The key `k` read in the other direction. */
  function Reverso(k: AristaId): AristaId
  {
    (k.1, k.0)
  }

  /** Two keys name the same link of a graph: the same ordered pair, or, when the
      graph is undirected, the same pair in either order. */
  predicate MismoEnlace(dirigido: bool, a: AristaId, b: AristaId) {
    a == b || (!dirigido && a == Reverso(b))
  }

  /** Edges are equal exactly when their keys are equal, and an edge is
      nothing but its key: two edges with one key are the same edge. */
  lemma AristaEqualsIffSameId(a: Arista, b: Arista)
    ensures a.Equals(b) <==> a.Id() == b.Id()
    ensures a.Id() == b.Id() <==> a == b
  {
  }

  /** Reading a key the other way twice gives it back; only a self-loop reads
      the same both ways; and naming the same link is an equivalence, so the
      duplicate test does not depend on which of two keys is stored. */
  lemma ReversoEnlace(dirigido: bool, a: AristaId, b: AristaId, c: AristaId)
    ensures Reverso(Reverso(a)) == a
    ensures Reverso(a) == a <==> a.0 == a.1
    ensures MismoEnlace(dirigido, a, a)
    ensures MismoEnlace(dirigido, a, b) ==> MismoEnlace(dirigido, b, a)
    ensures MismoEnlace(dirigido, a, b) && MismoEnlace(dirigido, b, c) ==> MismoEnlace(dirigido, a, c)
  {
  }

  /** The nodes 0, 1, ..., n-1, each under its own id. */
  function NodosHasta(n: int): map<int, Nodo>
  {
    map i | 0 <= i < n :: Nodo(i)
  }

  /** Adding node n to the nodes below n gives the nodes below n + 1. */
  lemma NodosHastaSiguiente(n: int)
    requires n >= 0
    ensures NodosHasta(n + 1) == NodosHasta(n)[n := Nodo(n)]
    ensures n !in NodosHasta(n)
  {
  }

  class Grafo {
    /** True for a directed graph; fixed at creation. */
    const dirigido: bool
    /** The nodes, keyed by id. */
    var V: map<int, Nodo>
    /** The edges, keyed by their ordered pair of endpoint ids. */
    var E: map<AristaId, Arista>

    /** Every node and edge sits under its own id, and an undirected graph never
        holds both orientations of a pair of distinct nodes. */
    ghost predicate Valid()
      reads this
    {
      && (forall i | i in V :: V[i].id == i)
      && (forall k | k in E :: E[k].Id() == k)
      && (!dirigido ==> forall u, v | (u, v) in E && u != v :: (v, u) !in E)
    }

    /** Every edge joins two nodes of the graph (the graph does not check it;
        the generators establish it). */
    ghost predicate Cerrado()
      reads this
    {
      forall k | k in E :: k.0 in V && k.1 in V
    }

    /** No stored edge is a self-loop. */
    ghost predicate SinLazos()
      reads this
    {
      forall k | k in E :: k.0 != k.1
    }

    constructor (dirigido: bool)
      ensures Valid()
      ensures this.dirigido == dirigido && V == map[] && E == map[]
    {
      this.dirigido := dirigido;
      V := map[];
      E := map[];
    }

    /** The duplicate test: some stored key names the same link as `k`. */
    function GetArista(k: AristaId): (r: bool)
      reads this
      ensures r <==> exists e | e in E :: MismoEnlace(dirigido, e, k)
    {
      if dirigido then k in E
      else k in E || Reverso(k) in E
    }

    /** In an undirected graph the duplicate test does not depend on orientation. */
    lemma GetAristaSimetrica(k: AristaId)
      requires !dirigido
      ensures GetArista(k) == GetArista(Reverso(k))
    {
    }

    /** Upsert of a node under its id. */
    method AddNodo(nodo: Nodo)
      requires Valid()
      modifies this
      ensures Valid()
      ensures V == old(V)[nodo.id := nodo] && E == old(E)
      ensures nodo.id !in old(V) ==> |V| == |old(V)| + 1
    {
      V := V[nodo.id := nodo];
    }

    /** The admission gate: an edge whose link is already stored is rejected and
        nothing changes; otherwise it is stored under its exact key. Either way
        its link is stored afterwards, so repeating the call returns false. */
    method AddArista(a: Arista) returns (agregada: bool)
      requires Valid()
      modifies this
      ensures Valid()
      ensures agregada <==> !old(GetArista(a.Id()))
      ensures agregada ==> a.Id() !in old(E) && E == old(E)[a.Id() := a] && |E| == |old(E)| + 1
      ensures !agregada ==> E == old(E)
      ensures V == old(V)
      ensures GetArista(a.Id())
    {
      if GetArista(a.Id()) {
        return false;
      }
      E := E[a.Id() := a];
      return true;
    }
  }
}
