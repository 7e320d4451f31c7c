/**
 The pair sweep shared by several generators: every ordered pair (u, v) of
 nodes 0 .. n-1 is offered once, row by row (u ascending, and within row u the
 targets in the order the generator lists them), and an offered pair that the
 generator admits is passed to `AddArista`. Which keys end up stored is a
 function of the admission predicate alone: a directed graph keeps every
 admitted pair; an undirected one keeps an admitted pair unless its reverse
 came earlier (in an earlier row) and was admitted too.
 */
module BarridoPares {
  import opened Grafos

  /** Whether the admitted pair (a, b) is still stored at the end of a sweep. */
  predicate Sobrevive(dirigido: bool, admite: (int, int) -> bool, a: int, b: int) {
    admite(a, b) && (dirigido || a <= b || !admite(b, a))
  }

  /** The keys stored once rows below `u`, and the targets `hechos` of row `u`,
      have been offered. */
  ghost function ClavesBarrido(dirigido: bool, admite: (int, int) -> bool, n: int, u: int, hechos: set<int>): set<AristaId> {
    set a, b | 0 <= a < n && 0 <= b < n && Sobrevive(dirigido, admite, a, b)
                 && (a < u || (a == u && b in hechos)) :: (a, b)
  }

  lemma EnClavesBarrido(dirigido: bool, admite: (int, int) -> bool, n: int, u: int, hechos: set<int>, p: AristaId)
    ensures p in ClavesBarrido(dirigido, admite, n, u, hechos)
            <==> && 0 <= p.0 < n && 0 <= p.1 < n && Sobrevive(dirigido, admite, p.0, p.1)
                 && (p.0 < u || (p.0 == u && p.1 in hechos))
  {
    if 0 <= p.0 < n && 0 <= p.1 < n && Sobrevive(dirigido, admite, p.0, p.1) && (p.0 < u || (p.0 == u && p.1 in hechos)) {
      assert p == (p.0, p.1);
    }
  }

  /** Offering the admitted pair (u, t): the duplicate test fires exactly when
      the pair does not survive, and otherwise storing it yields the keys with
      `t` added to the offered targets. */
  lemma IntentoBarrido(dirigido: bool, admite: (int, int) -> bool, E: map<AristaId, Arista>, n: int, u: int, hechos: set<int>, t: int, a: Arista)
    requires E.Keys == ClavesBarrido(dirigido, admite, n, u, hechos)
    requires 0 <= u < n && 0 <= t < n && t !in hechos && admite(u, t) && a.Id() == (u, t)
    ensures ((u, t) in E || (!dirigido && (t, u) in E)) <==> !Sobrevive(dirigido, admite, u, t)
    ensures Sobrevive(dirigido, admite, u, t) ==>
              (u, t) !in E && E[(u, t) := a].Keys == ClavesBarrido(dirigido, admite, n, u, hechos + {t})
    ensures !Sobrevive(dirigido, admite, u, t) ==> E.Keys == ClavesBarrido(dirigido, admite, n, u, hechos + {t})
  {
    EnClavesBarrido(dirigido, admite, n, u, hechos, (u, t));
    EnClavesBarrido(dirigido, admite, n, u, hechos, (t, u));
    forall p
      ensures p in ClavesBarrido(dirigido, admite, n, u, hechos + {t})
              <==> p in ClavesBarrido(dirigido, admite, n, u, hechos) || (p == (u, t) && Sobrevive(dirigido, admite, u, t))
    {
      EnClavesBarrido(dirigido, admite, n, u, hechos, p);
      EnClavesBarrido(dirigido, admite, n, u, hechos + {t}, p);
    }
  }

  /** Passing over a pair the generator does not admit changes nothing. */
  lemma SaltoBarrido(dirigido: bool, admite: (int, int) -> bool, n: int, u: int, hechos: set<int>, t: int)
    requires !admite(u, t)
    ensures ClavesBarrido(dirigido, admite, n, u, hechos) == ClavesBarrido(dirigido, admite, n, u, hechos + {t})
  {
    forall p
      ensures p in ClavesBarrido(dirigido, admite, n, u, hechos) <==> p in ClavesBarrido(dirigido, admite, n, u, hechos + {t})
    {
      EnClavesBarrido(dirigido, admite, n, u, hechos, p);
      EnClavesBarrido(dirigido, admite, n, u, hechos + {t}, p);
    }
  }

  /** A row whose every target has been offered is finished. */
  lemma CierreBarrido(dirigido: bool, admite: (int, int) -> bool, n: int, u: int, hechos: set<int>)
    requires forall b | 0 <= b < n :: b in hechos
    ensures ClavesBarrido(dirigido, admite, n, u, hechos) == ClavesBarrido(dirigido, admite, n, u + 1, {})
  {
    forall p
      ensures p in ClavesBarrido(dirigido, admite, n, u, hechos) <==> p in ClavesBarrido(dirigido, admite, n, u + 1, {})
    {
      EnClavesBarrido(dirigido, admite, n, u, hechos, p);
      EnClavesBarrido(dirigido, admite, n, u + 1, {}, p);
    }
  }

  /** Before the sweep nothing is stored. */
  lemma InicioBarrido(dirigido: bool, admite: (int, int) -> bool, n: int)
    ensures ClavesBarrido(dirigido, admite, n, 0, {}) == {}
  {
    forall p | p in ClavesBarrido(dirigido, admite, n, 0, {})
      ensures false
    {
      EnClavesBarrido(dirigido, admite, n, 0, {}, p);
    }
  }

  /** The stored keys of a finished sweep are the surviving pairs. */
  lemma FinBarrido(dirigido: bool, admite: (int, int) -> bool, n: int, a: int, b: int)
    ensures (a, b) in ClavesBarrido(dirigido, admite, n, n, {})
            <==> 0 <= a < n && 0 <= b < n && Sobrevive(dirigido, admite, a, b)
  {
    EnClavesBarrido(dirigido, admite, n, n, {}, (a, b));
  }

  /** In an undirected sweep, of two distinct nodes whose pairs are both
      admitted exactly one orientation survives, the one from the lower node. */
  lemma UnaOrientacion(admite: (int, int) -> bool, a: int, b: int)
    requires a < b && admite(a, b) && admite(b, a)
    ensures Sobrevive(false, admite, a, b) && !Sobrevive(false, admite, b, a)
  {
  }

  /** One call `g.add_arista(Arista(nodos[u], nodos[t]))` of a sweep, for an
      admitted pair: it stores (u, t) exactly when the pair survives. */
  method OfrecerPar(g: Grafo, ghost admite: (int, int) -> bool, n: int, u: int, ghost hechos: set<int>, t: int)
    requires g.Valid() && g.V == NodosHasta(n)
    requires g.E.Keys == ClavesBarrido(g.dirigido, admite, n, u, hechos)
    requires 0 <= u < n && 0 <= t < n && t !in hechos && admite(u, t)
    modifies g
    ensures g.Valid() && g.V == old(g.V)
    ensures g.E.Keys == ClavesBarrido(g.dirigido, admite, n, u, hechos + {t})
  {
    var nodos := g.V;
    IntentoBarrido(g.dirigido, admite, g.E, n, u, hechos, t, Arista(nodos[u], nodos[t]));
    var agregada := g.AddArista(Arista(nodos[u], nodos[t]));
  }

  /** The nodes 0 .. n-1, added in order: the first loop of every generator. */
  method AgregarNodos(g: Grafo, n: int)
    requires g.Valid() && g.V == map[] && n >= 0
    modifies g
    ensures g.Valid() && g.V == NodosHasta(n) && |g.V| == n && g.E == old(g.E)
  {
    var nodo := 0;
    while nodo < n
      invariant 0 <= nodo <= n
      invariant g.Valid() && g.V == NodosHasta(nodo) && |g.V| == nodo && g.E == old(g.E)
    {
      NodosHastaSiguiente(nodo);
      g.AddNodo(Nodo(nodo));
      nodo := nodo + 1;
    }
  }
}
