/**
 The Barabási–Albert generator: every node is offered every node in turn, and
 the pair is linked when neither end has reached degree d, a self-loop is
 allowed if it is one, and the draw is at most 1 - deg(v)/d. The counters
 `nodos_deg` record the degree of each node. The draws are an oracle `sorteo`,
 one value per pair, since each pair draws at most once.
 */
module GeneradorBarabasiAlbert {
  import opened Grafos
  import opened BarridoPares

  /** The stored keys that touch node x. */
  ghost function Incidentes(K: set<AristaId>, x: int): set<AristaId> {
    set k | k in K && (k.0 == x || k.1 == x)
  }

  /** Each node's counter is the number of stored keys that touch it (a
      self-loop counts once), and none exceeds d. */
  ghost predicate GradosCorrectos(grados: map<int, int>, K: set<AristaId>, n: int, d: int) {
    forall x | 0 <= x < n :: x in grados && grados[x] == |Incidentes(K, x)| && grados[x] <= d
  }

  /** Storing a new key (a, b) adds it to the keys touching a and b and to no
      other node's. */
  lemma IncidentesTras(K: set<AristaId>, a: int, b: int, x: int)
    requires (a, b) !in K
    ensures |Incidentes(K + {(a, b)}, x)| == |Incidentes(K, x)| + (if x == a || x == b then 1 else 0)
  {
    if x == a || x == b {
      assert Incidentes(K + {(a, b)}, x) == Incidentes(K, x) + {(a, b)};
    } else {
      assert Incidentes(K + {(a, b)}, x) == Incidentes(K, x);
    }
  }

  /** The counter update after a stored key (nodo, v): the source always, the
      target too unless it is the same node, keeps every counter exact and
      within d. */
  lemma GradosTras(grados: map<int, int>, K: set<AristaId>, n: int, d: int, nodo: int, v: int)
    requires GradosCorrectos(grados, K, n, d)
    requires 0 <= nodo < n && 0 <= v < n && (nodo, v) !in K
    requires grados[nodo] < d && grados[v] < d
    ensures var g1 := grados[nodo := grados[nodo] + 1];
            var g2 := if nodo != v then g1[v := g1[v] + 1] else g1;
            GradosCorrectos(g2, K + {(nodo, v)}, n, d)
  {
    forall x | 0 <= x < n
      ensures |Incidentes(K + {(nodo, v)}, x)| == |Incidentes(K, x)| + (if x == nodo || x == v then 1 else 0)
    {
      IncidentesTras(K, nodo, v, x);
    }
  }

  /** Every stored key joins two nodes below n, and is a self-loop only when
      self-loops are allowed. */
  ghost predicate ClavesBA(K: set<AristaId>, n: int, auto: bool) {
    forall k | k in K :: 0 <= k.0 < n && 0 <= k.1 < n && (auto || k.0 != k.1)
  }

  /** Storing a new admissible key (nodo, v) keeps the keys admissible. */
  lemma ClavesBATras(K: set<AristaId>, n: int, auto: bool, nodo: int, v: int)
    requires ClavesBA(K, n, auto) && 0 <= nodo < n && 0 <= v < n && (auto || nodo != v)
    ensures ClavesBA(K + {(nodo, v)}, n, auto)
  {
  }

  /** Node a's offer of b was refused, judged on the counters `grados`: a was
      full, b was full, it is a forbidden self-loop, the draw exceeded
      1 - deg(b)/d, or the graph is undirected and already holds (b, a). */
  ghost predicate Rechazado(grados: map<int, int>, K: set<AristaId>, d: int, dirigido: bool,
                            auto: bool, sorteo: (int, int) -> real, a: int, b: int) {
    && d > 0 && a in grados && b in grados
    && (|| grados[a] == d || grados[b] == d || (a == b && !auto)
        || sorteo(a, b) > 1.0 - (grados[b] as real) / (d as real)
        || (!dirigido && (b, a) in K))
  }

  /** Key j is offered before key k: pairs are offered row by row, source
      first, then target. */
  predicate Anterior(j: AristaId, k: AristaId) {
    j.0 < k.0 || (j.0 == k.0 && j.1 < k.1)
  }

  /** The keys of K offered before k: when k was stored, exactly these were. */
  ghost function Previas(K: set<AristaId>, k: AristaId): set<AristaId> {
    set j | j in K && Anterior(j, k)
  }

  /** Node a's offer of b was refused when it was made, judged on the keys
      of K offered before (a, b), which were exactly the keys stored then: a
      was full, b was full, it is a forbidden self-loop, the draw exceeded
      1 - deg(b)/d, or the graph is undirected and already held (b, a). */
  ghost predicate RechazadoAlOfrecer(K: set<AristaId>, d: int, dirigido: bool, auto: bool,
                                     sorteo: (int, int) -> real, a: int, b: int) {
    var P := Previas(K, (a, b));
    && d > 0
    && (|| |Incidentes(P, a)| == d || |Incidentes(P, b)| == d || (a == b && !auto)
        || sorteo(a, b) > 1.0 - (|Incidentes(P, b)| as real) / (d as real)
        || (!dirigido && (b, a) in P))
  }

  /** Every pair offered so far (all of the rows before `nodo`, and row `nodo`
      below `v`) is stored or was refused when it was offered. */
  ghost predicate Cubiertos(K: set<AristaId>, n: int, d: int, dirigido: bool,
                            auto: bool, sorteo: (int, int) -> real, nodo: int, v: int) {
    forall a, b | 0 <= a < n && 0 <= b < n && (a < nodo || (a == nodo && b < v)) ::
      (a, b) in K || RechazadoAlOfrecer(K, d, dirigido, auto, sorteo, a, b)
  }

  /** Every key of K is offered before (nodo, v). */
  ghost predicate Antes(K: set<AristaId>, nodo: int, v: int) {
    forall j | j in K :: Anterior(j, (nodo, v))
  }

  /** Passing over (nodo, v) keeps every stored key before the next offer,
      and before the next row. */
  lemma AntesSiguiente(K: set<AristaId>, nodo: int, v: int)
    requires Antes(K, nodo, v)
    ensures Antes(K, nodo, v + 1) && Antes(K, nodo + 1, 0)
  {
  }

  /** The keys added to K0 all start at `nodo`. */
  ghost predicate SoloDesde(K0: set<AristaId>, K: set<AristaId>, nodo: int) {
    K0 <= K && forall k | k in K && k !in K0 :: k.0 == nodo
  }

  /** Adding (nodo, v), or nothing, keeps the added keys starting at `nodo`. */
  lemma SoloDesdeTras(K0: set<AristaId>, K: set<AristaId>, K1: set<AristaId>, nodo: int, v: int)
    requires SoloDesde(K0, K, nodo) && (K1 == K || K1 == K + {(nodo, v)})
    ensures SoloDesde(K0, K1, nodo)
  {
  }

  /** Every stored key (a, b) was admitted by its draw: `umbral[k]` is b's
      counter when k was stored (its keys among those stored earlier), it and
      a's counter were then below d, and the draw is at most 1 - umbral[k]/d. */
  ghost predicate Umbrales(umbral: map<AristaId, int>, K: set<AristaId>, d: int, sorteo: (int, int) -> real) {
    forall k | k in K ::
      && k in umbral && umbral[k] == |Incidentes(Previas(K, k), k.1)| && umbral[k] < d
      && |Incidentes(Previas(K, k), k.0)| < d
      && sorteo(k.0, k.1) <= 1.0 - (umbral[k] as real) / (d as real)
  }

  /** Storing (nodo, v), offered after every stored key, leaves the earlier
      keys' predecessors alone, and its own predecessors are all the keys
      stored so far: recording v's counter then keeps `Umbrales`. */
  lemma UmbralesTras(umbral: map<AristaId, int>, K: set<AristaId>, d: int, sorteo: (int, int) -> real, nodo: int, v: int)
    requires Umbrales(umbral, K, d, sorteo) && Antes(K, nodo, v) && (nodo, v) !in K
    requires |Incidentes(K, nodo)| < d && |Incidentes(K, v)| < d
    requires sorteo(nodo, v) <= 1.0 - (|Incidentes(K, v)| as real) / (d as real)
    ensures Umbrales(umbral[(nodo, v) := |Incidentes(K, v)|], K + {(nodo, v)}, d, sorteo)
  {
    var K1 := K + {(nodo, v)};
    var u1 := umbral[(nodo, v) := |Incidentes(K, v)|];
    forall k | k in K1
      ensures k in u1 && u1[k] == |Incidentes(Previas(K1, k), k.1)| && u1[k] < d
      ensures |Incidentes(Previas(K1, k), k.0)| < d
      ensures sorteo(k.0, k.1) <= 1.0 - (u1[k] as real) / (d as real)
    {
      if k == (nodo, v) {
        assert Previas(K1, k) == K;
      } else {
        assert Previas(K1, k) == Previas(K, k);
      }
    }
  }

  /** No counter below n goes down. */
  ghost predicate Crece(grados0: map<int, int>, grados: map<int, int>, n: int) {
    forall x | 0 <= x < n :: x in grados0 && x in grados && grados0[x] <= grados[x]
  }

  /** A larger counter gives a smaller admission bound. */
  lemma CocienteMonotono(x: int, y: int, d: int)
    requires x <= y && d > 0
    ensures (x as real) / (d as real) <= (y as real) / (d as real)
  {
    assert (y as real) / (d as real) - (x as real) / (d as real) == ((y - x) as real) / (d as real);
  }

  /** With the keys stored so far all offered before (nodo, v), a refusal
      judged on the current counters is a refusal at offer time. */
  lemma RechazoAhora(grados: map<int, int>, K: set<AristaId>, n: int, d: int, dirigido: bool,
                     auto: bool, sorteo: (int, int) -> real, nodo: int, v: int)
    requires 0 <= nodo < n && 0 <= v < n && GradosCorrectos(grados, K, n, d) && Antes(K, nodo, v)
    requires Rechazado(grados, K, d, dirigido, auto, sorteo, nodo, v)
    ensures RechazadoAlOfrecer(K, d, dirigido, auto, sorteo, nodo, v)
  {
    assert Previas(K, (nodo, v)) == K;
  }

  /** Storing (nodo, v) does not change what was stored before any earlier
      offer, so every refusal so far stays a refusal. */
  lemma CubiertosTras(K: set<AristaId>, n: int, d: int, dirigido: bool, auto: bool,
                      sorteo: (int, int) -> real, nodo: int, v: int)
    requires Cubiertos(K, n, d, dirigido, auto, sorteo, nodo, v)
    ensures Cubiertos(K + {(nodo, v)}, n, d, dirigido, auto, sorteo, nodo, v)
  {
    var K1 := K + {(nodo, v)};
    forall a, b | 0 <= a < n && 0 <= b < n && (a < nodo || (a == nodo && b < v)) && (a, b) !in K1
      ensures RechazadoAlOfrecer(K1, d, dirigido, auto, sorteo, a, b)
    {
      assert Previas(K1, (a, b)) == Previas(K, (a, b));
    }
  }

  /** The pair (nodo, v) is stored or refused, so row `nodo` is covered up to
      v + 1. */
  lemma ExtenderCubiertos(K: set<AristaId>, n: int, d: int, dirigido: bool,
                          auto: bool, sorteo: (int, int) -> real, nodo: int, v: int)
    requires Cubiertos(K, n, d, dirigido, auto, sorteo, nodo, v)
    requires (nodo, v) in K || RechazadoAlOfrecer(K, d, dirigido, auto, sorteo, nodo, v)
    ensures Cubiertos(K, n, d, dirigido, auto, sorteo, nodo, v + 1)
  {
  }

  /** Row `nodo` ends when every v was offered or when `nodo` is full (the
      `break`): then every pair of the row is stored or refused, the ones
      after the `break` because `nodo` was already full. */
  lemma CierreFilaBA(grados: map<int, int>, K: set<AristaId>, n: int, d: int, dirigido: bool,
                     auto: bool, sorteo: (int, int) -> real, nodo: int, v: int)
    requires 0 <= nodo < n && 0 <= v <= n && d > 0 && GradosCorrectos(grados, K, n, d)
    requires Antes(K, nodo, v) && Cubiertos(K, n, d, dirigido, auto, sorteo, nodo, v)
    requires v == n || grados[nodo] == d
    ensures Cubiertos(K, n, d, dirigido, auto, sorteo, nodo + 1, 0)
  {
    forall b | v <= b < n
      ensures RechazadoAlOfrecer(K, d, dirigido, auto, sorteo, nodo, b)
    {
      assert Previas(K, (nodo, b)) == K;
    }
  }

  /** A refusal at offer time is also a refusal on the final counters, which
      only grew since. */
  lemma RechazoFinal(grados: map<int, int>, K: set<AristaId>, n: int, d: int, dirigido: bool,
                     auto: bool, sorteo: (int, int) -> real, a: int, b: int)
    requires 0 <= a < n && 0 <= b < n && GradosCorrectos(grados, K, n, d)
    requires RechazadoAlOfrecer(K, d, dirigido, auto, sorteo, a, b)
    ensures Rechazado(grados, K, d, dirigido, auto, sorteo, a, b)
  {
    var P := Previas(K, (a, b));
    CardinalSubconjunto(Incidentes(P, a), Incidentes(K, a));
    CardinalSubconjunto(Incidentes(P, b), Incidentes(K, b));
    CocienteMonotono(|Incidentes(P, b)|, grados[b], d);
  }

  /** A subset is no larger than the set holding it. */
  lemma {:induction false} CardinalSubconjunto(A: set<AristaId>, B: set<AristaId>)
    requires A <= B
    ensures |A| <= |B|
    decreases |A|
  {
    if A != {} {
      var x :| x in A;
      CardinalSubconjunto(A - {x}, B - {x});
    }
  }

  /** grafoBarabasiAlbert: returns the graph and the final counters, and as a
      record of the admissions, the target's counter when each key was stored. */
  method GrafoBarabasiAlbert(n: int, d: int, dirigido: bool, auto: bool, sorteo: (int, int) -> real)
    returns (g: Grafo, grados: map<int, int>, ghost umbral: map<AristaId, int>)
    requires n >= 1 && d >= 2
    ensures g.Valid() && g.dirigido == dirigido && g.V == NodosHasta(n) && |g.V| == n
    ensures GradosCorrectos(grados, g.E.Keys, n, d)
    ensures forall x | 0 <= x < n :: |Incidentes(g.E.Keys, x)| <= d
    ensures g.Cerrado() && (!auto ==> g.SinLazos())
    ensures Umbrales(umbral, g.E.Keys, d, sorteo)
    ensures forall a, b | 0 <= a < n && 0 <= b < n ::
              (a, b) in g.E || RechazadoAlOfrecer(g.E.Keys, d, dirigido, auto, sorteo, a, b)
    ensures forall a, b | 0 <= a < n && 0 <= b < n ::
              (a, b) in g.E || Rechazado(grados, g.E.Keys, d, dirigido, auto, sorteo, a, b)
  {
    g := new Grafo(dirigido);
    grados := NodosBA(g, n);
    umbral := map[];
    InicioBA(grados, n, d, dirigido, auto, sorteo);
    var nodo := 0;
    while nodo < n
      invariant 0 <= nodo <= n
      invariant g.Valid() && g.dirigido == dirigido && g.V == NodosHasta(n) && |g.V| == n
      invariant GradosCorrectos(grados, g.E.Keys, n, d)
      invariant ClavesBA(g.E.Keys, n, auto)
      invariant Umbrales(umbral, g.E.Keys, d, sorteo) && Antes(g.E.Keys, nodo, 0)
      invariant Cubiertos(g.E.Keys, n, d, dirigido, auto, sorteo, nodo, 0)
    {
      grados, umbral := FilaBA(g, n, d, auto, sorteo, grados, umbral, nodo);
      nodo := nodo + 1;
    }
    FinBA(grados, g.E.Keys, n, d, dirigido, auto, sorteo);
  }

  /** Counter 0 for each of the nodes 0 .. n-1. */
  function Ceros(n: int): map<int, int> {
    map x | x in NodosHasta(n) :: 0
  }

  /** Adding node n's counter to those below n gives those below n + 1. */
  lemma CerosSiguiente(n: int)
    requires n >= 0
    ensures Ceros(n + 1) == Ceros(n)[n := 0]
  {
    NodosHastaSiguiente(n);
  }

  /** The node loop: nodes 0 .. n-1 are added, each with counter 0. */
  method NodosBA(g: Grafo, n: int) returns (grados: map<int, int>)
    requires g.Valid() && g.V == map[] && g.E == map[] && n >= 0
    modifies g
    ensures g.Valid() && g.V == NodosHasta(n) && |g.V| == n && g.E == map[]
    ensures grados == Ceros(n)
  {
    grados := map[];
    var nodo := 0;
    while nodo < n
      invariant 0 <= nodo <= n
      invariant g.Valid() && g.V == NodosHasta(nodo) && |g.V| == nodo && g.E == map[]
      invariant grados == Ceros(nodo)
    {
      NodosHastaSiguiente(nodo);
      CerosSiguiente(nodo);
      g.AddNodo(Nodo(nodo));
      grados := grados[nodo := 0];
      nodo := nodo + 1;
    }
  }

  /** Before any edge: zero counters are exact, and nothing has been stored
      or offered. */
  lemma InicioBA(grados: map<int, int>, n: int, d: int, dirigido: bool, auto: bool, sorteo: (int, int) -> real)
    requires d >= 0 && grados == Ceros(n)
    ensures GradosCorrectos(grados, {}, n, d) && ClavesBA({}, n, auto)
    ensures Umbrales(map[], {}, d, sorteo) && Antes({}, 0, 0)
    ensures Cubiertos({}, n, d, dirigido, auto, sorteo, 0, 0)
  {
    forall x | 0 <= x < n
      ensures |Incidentes({}, x)| == 0
    {
      assert Incidentes({}, x) == {};
    }
  }

  /** After the last row every pair has been offered: it is stored, or it
      was refused when offered and so also on the final counters. */
  lemma FinBA(grados: map<int, int>, K: set<AristaId>, n: int, d: int, dirigido: bool, auto: bool, sorteo: (int, int) -> real)
    requires GradosCorrectos(grados, K, n, d) && Cubiertos(K, n, d, dirigido, auto, sorteo, n, 0)
    ensures forall a, b | 0 <= a < n && 0 <= b < n :: (a, b) in K || RechazadoAlOfrecer(K, d, dirigido, auto, sorteo, a, b)
    ensures forall a, b | 0 <= a < n && 0 <= b < n :: (a, b) in K || Rechazado(grados, K, d, dirigido, auto, sorteo, a, b)
  {
    forall a, b | 0 <= a < n && 0 <= b < n && (a, b) !in K
      ensures Rechazado(grados, K, d, dirigido, auto, sorteo, a, b)
    {
      RechazoFinal(grados, K, n, d, dirigido, auto, sorteo, a, b);
    }
  }

  /** The inner loop for node `nodo`: every v is offered until `nodo` is full;
      each pair of the row ends up stored or refused. */
  method FilaBA(g: Grafo, n: int, d: int, auto: bool, sorteo: (int, int) -> real, grados0: map<int, int>,
                ghost umbral0: map<AristaId, int>, nodo: int)
    returns (grados: map<int, int>, ghost umbral: map<AristaId, int>)
    requires 0 <= nodo < n && d >= 2
    requires g.Valid() && g.V == NodosHasta(n)
    requires GradosCorrectos(grados0, g.E.Keys, n, d)
    requires ClavesBA(g.E.Keys, n, auto)
    requires Umbrales(umbral0, g.E.Keys, d, sorteo) && Antes(g.E.Keys, nodo, 0)
    requires Cubiertos(g.E.Keys, n, d, g.dirigido, auto, sorteo, nodo, 0)
    modifies g
    ensures g.Valid() && g.V == old(g.V)
    ensures GradosCorrectos(grados, g.E.Keys, n, d)
    ensures ClavesBA(g.E.Keys, n, auto)
    ensures Umbrales(umbral, g.E.Keys, d, sorteo) && Antes(g.E.Keys, nodo + 1, 0)
    ensures SoloDesde(old(g.E.Keys), g.E.Keys, nodo)
    ensures Cubiertos(g.E.Keys, n, d, g.dirigido, auto, sorteo, nodo + 1, 0)
  {
    grados := grados0;
    umbral := umbral0;
    var v := 0;
    while v < n
      invariant 0 <= v <= n
      invariant g.Valid() && g.V == NodosHasta(n)
      invariant GradosCorrectos(grados, g.E.Keys, n, d)
      invariant ClavesBA(g.E.Keys, n, auto)
      invariant Umbrales(umbral, g.E.Keys, d, sorteo) && Antes(g.E.Keys, nodo, v)
      invariant SoloDesde(old(g.E.Keys), g.E.Keys, nodo)
      invariant Cubiertos(g.E.Keys, n, d, g.dirigido, auto, sorteo, nodo, v)
    {
      if grados[nodo] == d {
        break;
      }
      grados, umbral := OfrecerBA(g, n, d, auto, sorteo, grados, umbral, old(g.E.Keys), nodo, v);
      v := v + 1;
    }
    CierreFilaBA(grados, g.E.Keys, n, d, g.dirigido, auto, sorteo, nodo, v);
    AntesSiguiente(g.E.Keys, nodo, v);
  }

  /** One pass of the inner loop once `nodo` is not full: a full target or a
      forbidden self-loop is passed over, otherwise the draw decides whether
      the link is attempted. Afterwards (nodo, v) is stored or refused. */
  method OfrecerBA(g: Grafo, n: int, d: int, auto: bool, sorteo: (int, int) -> real, grados0: map<int, int>,
                   ghost umbral0: map<AristaId, int>, ghost K0: set<AristaId>, nodo: int, v: int)
    returns (grados: map<int, int>, ghost umbral: map<AristaId, int>)
    requires 0 <= nodo < n && 0 <= v < n && d >= 2
    requires g.Valid() && g.V == NodosHasta(n)
    requires GradosCorrectos(grados0, g.E.Keys, n, d) && grados0[nodo] < d
    requires ClavesBA(g.E.Keys, n, auto)
    requires Umbrales(umbral0, g.E.Keys, d, sorteo) && Antes(g.E.Keys, nodo, v)
    requires SoloDesde(K0, g.E.Keys, nodo)
    requires Cubiertos(g.E.Keys, n, d, g.dirigido, auto, sorteo, nodo, v)
    modifies g
    ensures g.Valid() && g.V == old(g.V)
    ensures GradosCorrectos(grados, g.E.Keys, n, d)
    ensures ClavesBA(g.E.Keys, n, auto)
    ensures Umbrales(umbral, g.E.Keys, d, sorteo) && Antes(g.E.Keys, nodo, v + 1)
    ensures g.E.Keys == old(g.E.Keys) || g.E.Keys == old(g.E.Keys) + {(nodo, v)}
    ensures SoloDesde(K0, g.E.Keys, nodo)
    ensures Cubiertos(g.E.Keys, n, d, g.dirigido, auto, sorteo, nodo, v + 1)
  {
    grados := grados0;
    umbral := umbral0;
    if grados[v] == d {
      RechazoAhora(grados, g.E.Keys, n, d, g.dirigido, auto, sorteo, nodo, v);
      ExtenderCubiertos(g.E.Keys, n, d, g.dirigido, auto, sorteo, nodo, v);
      AntesSiguiente(g.E.Keys, nodo, v);
      return;
    }
    var p := sorteo(nodo, v);
    var equalNodes := v == nodo;
    if equalNodes && !auto {
      RechazoAhora(grados, g.E.Keys, n, d, g.dirigido, auto, sorteo, nodo, v);
      ExtenderCubiertos(g.E.Keys, n, d, g.dirigido, auto, sorteo, nodo, v);
      AntesSiguiente(g.E.Keys, nodo, v);
      return;
    }
    ghost var antes := g.E.Keys;
    if p <= 1.0 - (grados[v] as real) / (d as real) {
      grados, umbral := EnlazarBA(g, n, d, auto, sorteo, grados, umbral, nodo, v);
    } else {
      RechazoAhora(grados, g.E.Keys, n, d, g.dirigido, auto, sorteo, nodo, v);
      ExtenderCubiertos(g.E.Keys, n, d, g.dirigido, auto, sorteo, nodo, v);
      AntesSiguiente(g.E.Keys, nodo, v);
    }
    SoloDesdeTras(K0, antes, g.E.Keys, nodo, v);
  }

  /** `add_arista` of an admitted pair (nodo, v), both below degree d; when the
      link is new the counters of both ends (of the node once, for a
      self-loop) go up by one and the target's old counter is recorded.
      Either way the link is stored afterwards and no refusal so far is
      undone. */
  method EnlazarBA(g: Grafo, n: int, d: int, auto: bool, sorteo: (int, int) -> real, grados0: map<int, int>,
                   ghost umbral0: map<AristaId, int>, nodo: int, v: int)
    returns (grados: map<int, int>, ghost umbral: map<AristaId, int>)
    requires 0 <= nodo < n && 0 <= v < n && (auto || nodo != v)
    requires g.Valid() && g.V == NodosHasta(n)
    requires GradosCorrectos(grados0, g.E.Keys, n, d) && grados0[nodo] < d && grados0[v] < d
    requires ClavesBA(g.E.Keys, n, auto)
    requires Umbrales(umbral0, g.E.Keys, d, sorteo) && Antes(g.E.Keys, nodo, v)
    requires sorteo(nodo, v) <= 1.0 - (grados0[v] as real) / (d as real)
    requires Cubiertos(g.E.Keys, n, d, g.dirigido, auto, sorteo, nodo, v)
    modifies g
    ensures g.Valid() && g.V == old(g.V)
    ensures GradosCorrectos(grados, g.E.Keys, n, d)
    ensures ClavesBA(g.E.Keys, n, auto)
    ensures Umbrales(umbral, g.E.Keys, d, sorteo) && Antes(g.E.Keys, nodo, v + 1)
    ensures || ((nodo, v) !in old(g.E.Keys) && g.E.Keys == old(g.E.Keys) + {(nodo, v)}
                && umbral == umbral0[(nodo, v) := grados0[v]])
            || (g.E.Keys == old(g.E.Keys) && umbral == umbral0 && grados == grados0)
    ensures Crece(grados0, grados, n)
    ensures (nodo, v) in g.E.Keys || (!g.dirigido && (v, nodo) in g.E.Keys)
    ensures Cubiertos(g.E.Keys, n, d, g.dirigido, auto, sorteo, nodo, v + 1)
  {
    ghost var antes := g.E.Keys;
    var agregada := AgregarBA(g, n, auto, nodo, v);
    grados := grados0;
    umbral := umbral0;
    if agregada {
      UmbralesTras(umbral0, antes, d, sorteo, nodo, v);
      CubiertosTras(antes, n, d, g.dirigido, auto, sorteo, nodo, v);
      grados := SumarGrados(grados, antes, n, d, nodo, v);
      umbral := umbral0[(nodo, v) := grados0[v]];
    } else {
      RechazoAhora(grados, antes, n, d, g.dirigido, auto, sorteo, nodo, v);
    }
    ExtenderCubiertos(g.E.Keys, n, d, g.dirigido, auto, sorteo, nodo, v);
  }

  /** The `add_arista` call itself: it stores (nodo, v) exactly when the link
      is new; afterwards the link is stored either way. */
  method AgregarBA(g: Grafo, n: int, auto: bool, nodo: int, v: int) returns (agregada: bool)
    requires 0 <= nodo < n && 0 <= v < n && (auto || nodo != v)
    requires g.Valid() && g.V == NodosHasta(n) && ClavesBA(g.E.Keys, n, auto)
    modifies g
    ensures g.Valid() && g.V == old(g.V) && ClavesBA(g.E.Keys, n, auto)
    ensures agregada ==> (nodo, v) !in old(g.E.Keys) && g.E.Keys == old(g.E.Keys) + {(nodo, v)}
    ensures !agregada ==> g.E.Keys == old(g.E.Keys)
    ensures (nodo, v) in g.E.Keys || (!g.dirigido && (v, nodo) in g.E.Keys)
  {
    var nodos := g.V;
    ClavesBATras(g.E.Keys, n, auto, nodo, v);
    agregada := g.AddArista(Arista(nodos[nodo], nodos[v]));
  }

  /** The counter update after a new key (nodo, v): the source's counter goes
      up by one, and the target's too unless it is the same node. */
  method SumarGrados(grados0: map<int, int>, ghost K: set<AristaId>, n: int, d: int, nodo: int, v: int)
    returns (grados: map<int, int>)
    requires GradosCorrectos(grados0, K, n, d)
    requires 0 <= nodo < n && 0 <= v < n && (nodo, v) !in K
    requires grados0[nodo] < d && grados0[v] < d
    ensures GradosCorrectos(grados, K + {(nodo, v)}, n, d)
    ensures Crece(grados0, grados, n)
  {
    GradosTras(grados0, K, n, d, nodo, v);
    grados := grados0[nodo := grados0[nodo] + 1];
    if nodo != v {
      grados := grados[v := grados[v] + 1];
    }
  }
}
