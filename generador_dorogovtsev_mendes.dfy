/**
 The Dorogovtsev–Mendes generator: a triangle on nodes 0, 1, 2 (every ordered
 pair of distinct seed nodes is offered), then each further node is joined to
 both ends of an existing edge chosen at random. The choice is left open (any
 stored key may be chosen), and the keys chosen are returned.
 */
module GeneradorDorogovtsevMendes {
  import opened Grafos
  import opened BarridoPares

  /** The seed sweep offers every pair of distinct nodes. */
  ghost function Distintos(): (int, int) -> bool {
    (a: int, b: int) => a != b
  }

  /** The seed keys: the triangle once when undirected, in both directions
      when directed. */
  function Triangulo(dirigido: bool): set<AristaId> {
    if dirigido then {(0, 1), (0, 2), (1, 0), (1, 2), (2, 0), (2, 1)}
    else {(0, 1), (0, 2), (1, 2)}
  }

  /** The seed sweep stores exactly the triangle: 3 keys, or 6 when directed. */
  lemma ClavesSemilla(dirigido: bool)
    ensures ClavesBarrido(dirigido, Distintos(), 3, 3, {}) == Triangulo(dirigido)
    ensures |Triangulo(dirigido)| == if dirigido then 6 else 3
  {
    forall p
      ensures p in ClavesBarrido(dirigido, Distintos(), 3, 3, {}) <==> p in Triangulo(dirigido)
    {
      FinBarrido(dirigido, Distintos(), 3, p.0, p.1);
      assert p == (p.0, p.1);
    }
  }

  /** The seed of grafoDorogovtsevMendes: nodes 0, 1, 2 and the triangle. */
  method SemillaDM(g: Grafo)
    requires g.Valid() && g.V == map[] && g.E == map[]
    modifies g
    ensures g.Valid() && g.V == NodosHasta(3) && |g.V| == 3
    ensures g.E.Keys == Triangulo(g.dirigido)
  {
    AgregarNodos(g, 3);
    ghost var admite := Distintos();
    InicioBarrido(g.dirigido, admite, 3);
    var u := 0;
    while u < 3
      invariant 0 <= u <= 3
      invariant g.Valid() && g.V == NodosHasta(3) && |g.V| == 3
      invariant g.E.Keys == ClavesBarrido(g.dirigido, admite, 3, u, {})
    {
      var v := 0;
      ghost var hechos: set<int> := {};
      while v < 3
        invariant 0 <= v <= 3
        invariant g.Valid() && g.V == NodosHasta(3) && |g.V| == 3
        invariant forall b :: b in hechos <==> 0 <= b < v
        invariant g.E.Keys == ClavesBarrido(g.dirigido, admite, 3, u, hechos)
      {
        if u != v {
          OfrecerPar(g, admite, 3, u, hechos, v);
        } else {
          SaltoBarrido(g.dirigido, admite, 3, u, hechos, v);
        }
        hechos := hechos + {v};
        v := v + 1;
      }
      CierreBarrido(g.dirigido, admite, 3, u, hechos);
      u := u + 1;
    }
    ClavesSemilla(g.dirigido);
  }

  /** Every stored key joins two distinct nodes below `hasta`. */
  ghost predicate AristasBajo(K: set<AristaId>, hasta: int) {
    forall k | k in K :: 0 <= k.0 < hasta && 0 <= k.1 < hasta && k.0 != k.1
  }

  /** Every stored key joins two distinct nodes, starts at or below `nodo`
      and ends below it: the keys of the growth step for node `nodo`. */
  ghost predicate ClavesHacia(K: set<AristaId>, nodo: int) {
    forall k | k in K :: 0 <= k.0 <= nodo && 0 <= k.1 < nodo && k.0 != k.1
  }

  /** One `add_arista` from the new node `nodo` to x: no key ends at `nodo` and
      (nodo, x) is not stored, so neither orientation of the link is stored
      and it is added. */
  method UnirExtremo(g: Grafo, nodo: int, x: int)
    requires g.Valid() && nodo in g.V && x in g.V
    requires 0 <= x < nodo && ClavesHacia(g.E.Keys, nodo) && (nodo, x) !in g.E.Keys
    modifies g
    ensures g.Valid() && g.V == old(g.V)
    ensures g.E.Keys == old(g.E.Keys) + {(nodo, x)}
    ensures |g.E| == old(|g.E|) + 1
  {
    var nodos := g.V;
    var agregada := g.AddArista(Arista(nodos[nodo], nodos[x]));
  }

  /** The keys before, between and after the two links of node `nodo` to u
      and v: each link is new when it is made, and the result joins distinct
      nodes below `nodo + 1`. */
  lemma UnirNodoClaves(K: set<AristaId>, nodo: int, u: int, v: int)
    requires AristasBajo(K, nodo) && 0 <= u < nodo && 0 <= v < nodo && u != v
    ensures ClavesHacia(K, nodo) && (nodo, u) !in K
    ensures ClavesHacia(K + {(nodo, u)}, nodo) && (nodo, v) !in K + {(nodo, u)}
    ensures AristasBajo(K + {(nodo, u)} + {(nodo, v)}, nodo + 1)
  {
  }

  /** The new node `nodo`, which no stored key touches, joined to both ends of
      the chosen key (u, v): both edges are new, so exactly two are stored. */
  method UnirNodo(g: Grafo, nodo: int, u: int, v: int)
    requires g.Valid() && nodo in g.V && u in g.V && v in g.V
    requires AristasBajo(g.E.Keys, nodo) && 0 <= u < nodo && 0 <= v < nodo && u != v
    modifies g
    ensures g.Valid() && g.V == old(g.V)
    ensures g.E.Keys == old(g.E.Keys) + {(nodo, u)} + {(nodo, v)}
    ensures |g.E| == old(|g.E|) + 2
    ensures AristasBajo(g.E.Keys, nodo + 1)
  {
    UnirNodoClaves(g.E.Keys, nodo, u, v);
    UnirExtremo(g, nodo, u);
    UnirExtremo(g, nodo, v);
  }

  /** Node i + 3 is joined to both ends of the key `elegidas[i]`, a stored key
      between nodes below it. */
  ghost predicate Elecciones(K: set<AristaId>, elegidas: seq<AristaId>) {
    forall i | 0 <= i < |elegidas| ::
      && elegidas[i] in K && elegidas[i].0 < i + 3 && elegidas[i].1 < i + 3
      && (i + 3, elegidas[i].0) in K && (i + 3, elegidas[i].1) in K
  }

  /** Keys are only ever added, so earlier choices stay valid, and the new
      choice k for node `nodo` is recorded after them. */
  lemma EleccionesTras(K0: set<AristaId>, K1: set<AristaId>, elegidas: seq<AristaId>, k: AristaId)
    requires Elecciones(K0, elegidas) && K0 <= K1
    requires k in K0 && k.0 < |elegidas| + 3 && k.1 < |elegidas| + 3
    requires (|elegidas| + 3, k.0) in K1 && (|elegidas| + 3, k.1) in K1
    ensures Elecciones(K1, elegidas + [k])
  {
    var s := elegidas + [k];
    forall i | 0 <= i < |s|
      ensures s[i] in K1 && s[i].0 < i + 3 && s[i].1 < i + 3
      ensures (i + 3, s[i].0) in K1 && (i + 3, s[i].1) in K1
    {
      if i < |elegidas| {
        assert s[i] == elegidas[i];
      }
    }
  }

  /** The state after the nodes below `nodo` are in place: the triangle is
      kept, every key joins distinct nodes below `nodo`, 3 + 2(nodo - 3) keys
      are stored (twice the triangle when directed), and the choices so far
      are recorded. */
  ghost predicate EstadoDM(g: Grafo, nodo: int, elegidas: seq<AristaId>)
    reads g
  {
    && g.Valid() && g.V == NodosHasta(nodo) && |g.V| == nodo
    && AristasBajo(g.E.Keys, nodo)
    && Triangulo(g.dirigido) <= g.E.Keys
    && |g.E| == (if g.dirigido then 6 else 3) + 2 * (nodo - 3)
    && |elegidas| == nodo - 3
    && Elecciones(g.E.Keys, elegidas)
  }

  /** One pass of the growth loop: node `nodo` is added, an existing key is
      chosen, and the node is joined to both of its ends. */
  method CrecerDM(g: Grafo, nodo: int, elegidas0: seq<AristaId>) returns (elegidas: seq<AristaId>)
    requires nodo >= 3 && EstadoDM(g, nodo, elegidas0)
    modifies g
    ensures EstadoDM(g, nodo + 1, elegidas)
    ensures |elegidas| == |elegidas0| + 1 && elegidas[..|elegidas0|] == elegidas0
  {
    NodosHastaSiguiente(nodo);
    g.AddNodo(Nodo(nodo));
    assert (0, 1) in g.E;
    var k :| k in g.E;
    var u, v := k.0, k.1;
    ghost var antes := g.E.Keys;
    UnirNodo(g, nodo, u, v);
    EleccionesTras(antes, g.E.Keys, elegidas0, k);
    elegidas := elegidas0 + [k];
  }

  /** grafoDorogovtsevMendes: n nodes; 2n - 3 edges undirected, 2n directed. */
  method GrafoDorogovtsevMendes(n: int, dirigido: bool) returns (g: Grafo, elegidas: seq<AristaId>)
    requires n >= 3
    ensures g.Valid() && g.dirigido == dirigido && g.V == NodosHasta(n) && |g.V| == n
    ensures g.Cerrado() && g.SinLazos()
    ensures Triangulo(dirigido) <= g.E.Keys
    ensures |g.E| == if dirigido then 2 * n else 2 * n - 3
    ensures |elegidas| == n - 3
    ensures Elecciones(g.E.Keys, elegidas)
  {
    g := new Grafo(dirigido);
    SemillaDM(g);
    ClavesSemilla(dirigido);
    elegidas := [];
    var nodo := 3;
    while nodo < n
      invariant 3 <= nodo <= n && g.dirigido == dirigido
      invariant EstadoDM(g, nodo, elegidas)
    {
      elegidas := CrecerDM(g, nodo, elegidas);
      nodo := nodo + 1;
    }
  }
}
