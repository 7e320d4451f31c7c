/**
 The Gilbert generator: every ordered pair of nodes (distinct unless self-loops
 are allowed) draws a number, and the pair is offered to the graph when the draw
 is at most `p`. The draws are an oracle `sorteo`, one value per pair, since
 each pair draws exactly once.
 */
module GeneradorGilbert {
  import opened Grafos
  import opened BarridoPares

  /** The pair (a, b) is generated as a candidate and its draw admits it. */
  predicate AdmiteGilbert(auto: bool, p: real, sorteo: (int, int) -> real, a: int, b: int) {
    (auto || a != b) && sorteo(a, b) <= p
  }

  /** The admission test of a Gilbert sweep, as a predicate on pairs. */
  ghost function AdmisionGilbert(auto: bool, p: real, sorteo: (int, int) -> real): (int, int) -> bool {
    (a: int, b: int) => AdmiteGilbert(auto, p, sorteo, a, b)
  }

  /** grafoGilbert: the stored keys are the admitted candidates, and in an
      undirected graph an admitted pair is dropped when its reverse was admitted
      from an earlier row. */
  method GrafoGilbert(n: int, p: real, dirigido: bool, auto: bool, sorteo: (int, int) -> real) returns (g: Grafo)
    requires n >= 1 && 0.0 <= p <= 1.0
    ensures g.Valid() && g.dirigido == dirigido && g.V == NodosHasta(n) && |g.V| == n
    ensures g.E.Keys == ClavesBarrido(dirigido, AdmisionGilbert(auto, p, sorteo), n, n, {})
    ensures forall a, b :: (a, b) in g.E <==>
              && 0 <= a < n && 0 <= b < n && AdmiteGilbert(auto, p, sorteo, a, b)
              && (dirigido || a <= b || !AdmiteGilbert(auto, p, sorteo, b, a))
  {
    g := new Grafo(dirigido);
    AgregarNodos(g, n);
    var nodos := g.V;
    ghost var admite := AdmisionGilbert(auto, p, sorteo);
    InicioBarrido(dirigido, admite, n);

    var u := 0;
    while u < n
      invariant 0 <= u <= n
      invariant g.Valid() && g.dirigido == dirigido && g.V == NodosHasta(n) && |g.V| == n
      invariant g.E.Keys == ClavesBarrido(dirigido, admite, n, u, {})
    {
      var v := 0;
      ghost var hechos: set<int> := {};
      while v < n
        invariant 0 <= v <= n
        invariant g.Valid() && g.dirigido == dirigido && g.V == NodosHasta(n) && |g.V| == n
        invariant forall b :: b in hechos <==> 0 <= b < v
        invariant g.E.Keys == ClavesBarrido(dirigido, admite, n, u, hechos)
      {
        if auto || u != v {
          var addProb := sorteo(u, v);
          if addProb <= p {
            OfrecerPar(g, admite, n, u, hechos, v);
          } else {
            SaltoBarrido(dirigido, admite, n, u, hechos, v);
          }
        } else {
          SaltoBarrido(dirigido, admite, n, u, hechos, v);
        }
        hechos := hechos + {v};
        v := v + 1;
      }
      CierreBarrido(dirigido, admite, n, u, hechos);
      u := u + 1;
    }

    forall a, b
      ensures (a, b) in g.E <==>
                && 0 <= a < n && 0 <= b < n && AdmiteGilbert(auto, p, sorteo, a, b)
                && (dirigido || a <= b || !AdmiteGilbert(auto, p, sorteo, b, a))
    {
      FinBarrido(dirigido, admite, n, a, b);
    }
  }

  /** The pairs (a, b) with 0 <= a < b < n. */
  ghost function ParesCrecientes(n: int): set<AristaId> {
    set a, b | 0 <= a < b < n :: (a, b)
  }

  /** The pairs (a, c) with 0 <= a < k. */
  ghost function Columna(c: int, k: int): set<AristaId> {
    set a | 0 <= a < k :: (a, c)
  }

  lemma {:induction false} CardColumna(c: int, k: nat)
    ensures |Columna(c, k)| == k
  {
    if k > 0 {
      CardColumna(c, k - 1);
      assert Columna(c, k) == Columna(c, k - 1) + {(k - 1, c)};
    }
  }

  /** The increasing pairs below n are those below n - 1 and column n - 1. */
  lemma ParesCrecientesPaso(n: int)
    requires n > 0
    ensures ParesCrecientes(n) == ParesCrecientes(n - 1) + Columna(n - 1, n - 1)
    ensures ParesCrecientes(n - 1) !! Columna(n - 1, n - 1)
  {
    forall q | q in ParesCrecientes(n)
      ensures q in ParesCrecientes(n - 1) + Columna(n - 1, n - 1)
    {
      if q.1 < n - 1 {
        assert q in ParesCrecientes(n - 1);
      } else {
        assert q in Columna(n - 1, n - 1);
      }
    }
  }

  /** There are n(n-1)/2 increasing pairs below n. */
  lemma {:induction false} CardParesCrecientes(n: nat)
    ensures 2 * |ParesCrecientes(n)| == n * (n - 1)
  {
    if n > 0 {
      CardParesCrecientes(n - 1);
      CardColumna(n - 1, n - 1);
      ParesCrecientesPaso(n);
      assert n * (n - 1) == (n - 1) * (n - 2) + 2 * (n - 1);
    }
  }

  /** When every draw admits, an undirected sweep without self-loops yields
      the complete graph: exactly the increasing pairs, n(n-1)/2 of them. */
  lemma GilbertCompleto(n: nat, p: real, sorteo: (int, int) -> real)
    requires forall a, b | 0 <= a < n && 0 <= b < n :: sorteo(a, b) <= p
    ensures ClavesBarrido(false, AdmisionGilbert(false, p, sorteo), n, n, {}) == ParesCrecientes(n)
    ensures 2 * |ClavesBarrido(false, AdmisionGilbert(false, p, sorteo), n, n, {})| == n * (n - 1)
  {
    var admite := AdmisionGilbert(false, p, sorteo);
    forall q
      ensures q in ClavesBarrido(false, admite, n, n, {}) <==> q in ParesCrecientes(n)
    {
      var a, b := q.0, q.1;
      assert q == (a, b);
      FinBarrido(false, admite, n, a, b);
      if 0 <= a < b < n {
        assert (a, b) in ParesCrecientes(n);
      }
    }
    CardParesCrecientes(n);
  }
}
