/**
 The deterministic grid generator: an m-column, n-row grid whose node
 `row * m + col` is wired to its left, right, upper and lower neighbours.
 */
module GeneradorMalla {
  import opened Grafos
  import opened Aritmetica
  import opened BarridoPares

  /** `a` and `b` are neighbours in a grid of `total` nodes with `m` columns:
      left or right in the same row, or up or down in the same column. */
  predicate Adyacentes(m: int, total: int, a: int, b: int)
    requires m > 0
  {
    && 0 <= a < total && 0 <= b < total
    && ((b == a + 1 && a % m != m - 1) || (b == a - 1 && a % m != 0) || b == a + m || b == a - m)
  }

  /** The keys a finished grid holds: every adjacency, in both orders when the
      graph is directed and once, from the lower index, when it is not. */
  predicate EnlaceMalla(dirigido: bool, m: int, total: int, p: AristaId)
    requires m > 0
  {
    Adyacentes(m, total, p.0, p.1) && (dirigido || p.0 < p.1)
  }

  /** Adjacency is symmetric. */
  lemma AdyacentesSimetrica(m: int, total: int, a: int, b: int)
    requires m > 0 && Adyacentes(m, total, a, b)
    ensures Adyacentes(m, total, b, a)
  {
    if b == a + 1 && a % m != m - 1 {
      ModSucc(a, m);
    } else if b == a - 1 && a % m != 0 {
      ModPred(a, m);
    }
  }

  /** Every stored key joins two distinct grid nodes that are horizontal
      neighbours (ids one apart, same row) or vertical ones (ids m apart, same
      column). */
  lemma EnlaceMallaForma(dirigido: bool, m: int, total: int, p: AristaId)
    requires m >= 2 && EnlaceMalla(dirigido, m, total, p)
    ensures p.0 != p.1 && 0 <= p.0 < total && 0 <= p.1 < total
    ensures || ((p.1 == p.0 + 1 || p.1 == p.0 - 1) && p.0 / m == p.1 / m)
            || ((p.1 == p.0 + m || p.1 == p.0 - m) && p.0 % m == p.1 % m)
  {
    var a, b := p.0, p.1;
    if b == a + 1 && a % m != m - 1 {
      ModSucc(a, m);
    } else if b == a - 1 && a % m != 0 {
      ModPred(a, m);
    } else if b == a + m {
      ModFila(a, m);
    } else {
      ModFila(b, m);
    }
  }

  /** The keys stored once the nodes before `k`, and the targets `hechos` of
      node `k`, have been tried. */
  ghost function ClavesMalla(dirigido: bool, m: int, total: int, k: int, hechos: set<int>): set<AristaId>
    requires m > 0
  {
    set a, b | 0 <= a < total && 0 <= b < total && EnlaceMalla(dirigido, m, total, (a, b))
                 && (a < k || (a == k && b in hechos)) :: (a, b)
  }

  lemma EnClavesMalla(dirigido: bool, m: int, total: int, k: int, hechos: set<int>, p: AristaId)
    requires m > 0
    ensures p in ClavesMalla(dirigido, m, total, k, hechos)
            <==> EnlaceMalla(dirigido, m, total, p) && (p.0 < k || (p.0 == k && p.1 in hechos))
  {
    if EnlaceMalla(dirigido, m, total, p) && (p.0 < k || (p.0 == k && p.1 in hechos)) {
      assert p == (p.0, p.1);
    }
  }

  /** The keys of the finished grid whose source is node `a`. */
  ghost function SalidasMalla(dirigido: bool, m: int, total: int, a: int): set<AristaId>
    requires m > 0
  {
    (if EnlaceMalla(dirigido, m, total, (a, a + 1)) then {(a, a + 1)} else {})
    + (if EnlaceMalla(dirigido, m, total, (a, a - 1)) then {(a, a - 1)} else {})
    + (if EnlaceMalla(dirigido, m, total, (a, a + m)) then {(a, a + m)} else {})
    + (if EnlaceMalla(dirigido, m, total, (a, a - m)) then {(a, a - m)} else {})
  }

  /** How many keys of the finished grid have source `a`. */
  function Salientes(dirigido: bool, m: int, total: int, a: int): nat
    requires m > 0
  {
    (if EnlaceMalla(dirigido, m, total, (a, a + 1)) then 1 else 0)
    + (if EnlaceMalla(dirigido, m, total, (a, a - 1)) then 1 else 0)
    + (if EnlaceMalla(dirigido, m, total, (a, a + m)) then 1 else 0)
    + (if EnlaceMalla(dirigido, m, total, (a, a - m)) then 1 else 0)
  }

  /** The number of keys of the finished grid whose source is below `k`. */
  function CuentaMalla(dirigido: bool, m: int, total: int, k: int): nat
    requires m > 0
  {
    if k <= 0 then 0
    else CuentaMalla(dirigido, m, total, k - 1) + Salientes(dirigido, m, total, k - 1)
  }

  /** Up to four keys from `a` to distinct targets, each kept when its flag
      holds: as many keys as flags that hold. */
  lemma CardCuatro(a: int, m: int, c1: bool, c2: bool, c3: bool, c4: bool)
    requires m >= 2
    ensures |(if c1 then {(a, a + 1)} else {}) + (if c2 then {(a, a - 1)} else {})
             + (if c3 then {(a, a + m)} else {}) + (if c4 then {(a, a - m)} else {})|
            == (if c1 then 1 else 0) + (if c2 then 1 else 0) + (if c3 then 1 else 0) + (if c4 then 1 else 0)
  {
    var s1: set<AristaId> := if c1 then {(a, a + 1)} else {};
    var s2 := s1 + (if c2 then {(a, a - 1)} else {});
    var s3 := s2 + (if c3 then {(a, a + m)} else {});
    assert (a, a - 1) !in s1;
    assert (a, a + m) !in s2;
    assert (a, a - m) !in s3;
  }

  /** Node `a`'s keys are its four neighbours' keys, which are distinct since m >= 2. */
  lemma CardSalidas(dirigido: bool, m: int, total: int, a: int)
    requires m >= 2
    ensures |SalidasMalla(dirigido, m, total, a)| == Salientes(dirigido, m, total, a)
  {
    CardCuatro(a, m, EnlaceMalla(dirigido, m, total, (a, a + 1)), EnlaceMalla(dirigido, m, total, (a, a - 1)),
               EnlaceMalla(dirigido, m, total, (a, a + m)), EnlaceMalla(dirigido, m, total, (a, a - m)));
  }

  /** The keys with source below `k + 1` are those below `k` and node `k`'s own. */
  lemma ClavesSiguiente(dirigido: bool, m: int, total: int, k: int)
    requires m >= 2
    ensures ClavesMalla(dirigido, m, total, k + 1, {})
            == ClavesMalla(dirigido, m, total, k, {}) + SalidasMalla(dirigido, m, total, k)
    ensures ClavesMalla(dirigido, m, total, k, {}) !! SalidasMalla(dirigido, m, total, k)
  {
    forall p
      ensures p in ClavesMalla(dirigido, m, total, k + 1, {})
              <==> p in ClavesMalla(dirigido, m, total, k, {}) || p in SalidasMalla(dirigido, m, total, k)
      ensures p in ClavesMalla(dirigido, m, total, k, {}) ==> p !in SalidasMalla(dirigido, m, total, k)
    {
      EnClavesMalla(dirigido, m, total, k + 1, {}, p);
      EnClavesMalla(dirigido, m, total, k, {}, p);
    }
  }

  /** No key has a source below 0. */
  lemma ClavesMallaVacia(dirigido: bool, m: int, total: int, k: int)
    requires m >= 2 && k <= 0
    ensures ClavesMalla(dirigido, m, total, k, {}) == {}
  {
    forall p | p in ClavesMalla(dirigido, m, total, k, {})
      ensures false
    {
      EnClavesMalla(dirigido, m, total, k, {}, p);
    }
  }

  /** Node `k` adds `Salientes` keys to those with a source below it. */
  lemma ClavesPaso(dirigido: bool, m: int, total: int, k: int)
    requires m >= 2
    ensures |ClavesMalla(dirigido, m, total, k + 1, {})| == |ClavesMalla(dirigido, m, total, k, {})| + Salientes(dirigido, m, total, k)
  {
    var antes := ClavesMalla(dirigido, m, total, k, {});
    var propias := SalidasMalla(dirigido, m, total, k);
    ClavesSiguiente(dirigido, m, total, k);
    CardSalidas(dirigido, m, total, k);
    assert |antes + propias| == |antes| + |propias| by {
      assert antes * propias == {};
    }
  }

  /** The grid stores, from the nodes below `k`, exactly `CuentaMalla` keys. */
  lemma {:induction false} CardClavesMalla(dirigido: bool, m: int, total: int, k: int)
    requires m >= 2
    ensures |ClavesMalla(dirigido, m, total, k, {})| == CuentaMalla(dirigido, m, total, k)
  {
    if k <= 0 {
      ClavesMallaVacia(dirigido, m, total, k);
    } else {
      CardClavesMalla(dirigido, m, total, k - 1);
      ClavesPaso(dirigido, m, total, k - 1);
    }
  }

  /** One attempt from node `k` to its neighbour `t`: the duplicate test fails
      exactly when (k, t) is a key of the finished grid, and the stored keys
      afterwards are those with `t` added to the tried targets. */
  lemma IntentoMalla(dirigido: bool, E: map<AristaId, Arista>, m: int, total: int, k: int, hechos: set<int>, t: int, a: Arista)
    requires m >= 2 && E.Keys == ClavesMalla(dirigido, m, total, k, hechos)
    requires Adyacentes(m, total, k, t) && t !in hechos && a.Id() == (k, t)
    ensures ((k, t) in E || (!dirigido && (t, k) in E)) <==> !EnlaceMalla(dirigido, m, total, (k, t))
    ensures EnlaceMalla(dirigido, m, total, (k, t)) ==>
              (k, t) !in E && E[(k, t) := a].Keys == ClavesMalla(dirigido, m, total, k, hechos + {t})
    ensures !EnlaceMalla(dirigido, m, total, (k, t)) ==> E.Keys == ClavesMalla(dirigido, m, total, k, hechos + {t})
  {
    AdyacentesSimetrica(m, total, k, t);
    EnClavesMalla(dirigido, m, total, k, hechos, (k, t));
    EnClavesMalla(dirigido, m, total, k, hechos, (t, k));
    forall p
      ensures p in ClavesMalla(dirigido, m, total, k, hechos + {t})
              <==> p in ClavesMalla(dirigido, m, total, k, hechos) || (p == (k, t) && EnlaceMalla(dirigido, m, total, p))
    {
      EnClavesMalla(dirigido, m, total, k, hechos, p);
      EnClavesMalla(dirigido, m, total, k, hechos + {t}, p);
    }
  }

  /** Once every neighbour of node `k` has been tried, node `k` is done. */
  lemma CierreMalla(dirigido: bool, m: int, total: int, k: int, hechos: set<int>)
    requires m >= 2
    requires Adyacentes(m, total, k, k - 1) ==> k - 1 in hechos
    requires Adyacentes(m, total, k, k + 1) ==> k + 1 in hechos
    requires Adyacentes(m, total, k, k - m) ==> k - m in hechos
    requires Adyacentes(m, total, k, k + m) ==> k + m in hechos
    ensures ClavesMalla(dirigido, m, total, k, hechos) == ClavesMalla(dirigido, m, total, k + 1, {})
  {
    forall p
      ensures p in ClavesMalla(dirigido, m, total, k, hechos) <==> p in ClavesMalla(dirigido, m, total, k + 1, {})
    {
      EnClavesMalla(dirigido, m, total, k, hechos, p);
      EnClavesMalla(dirigido, m, total, k + 1, {}, p);
    }
  }

  /** The keys stored from node q * m + c (column c of row q), by direction:
      right, down, and, when directed, left and up. */
  function SalientesFila(dirigido: bool, m: int, n: int, q: int, c: int): nat {
    (if c != m - 1 then 1 else 0) + (if q < n - 1 then 1 else 0)
    + (if dirigido then (if c != 0 then 1 else 0) + (if q >= 1 then 1 else 0) else 0)
  }

  /** Where node b + c sits in the grid when b = q * m starts row q: column c,
      inside the grid, with a node below it unless q is the last row and one
      above it unless q is the first. */
  lemma PosicionFila(m: int, n: int, total: int, q: int, b: int, c: int)
    requires m >= 2 && 0 <= q < n && 0 <= c < m && b == q * m && total == m * n
    ensures (b + c) % m == c && 0 <= b + c < total
    ensures c < m - 1 ==> b + c + 1 < total
    ensures b + c + m < total <==> q < n - 1
    ensures b + c - m >= 0 <==> q >= 1
  {
    Fila(q, m, c);
    assert (n - q) * m == total - b;
    MulMonotona(n - q, m);
    if q < n - 1 {
      assert (n - q - 1) * m == total - b - m;
      MulMonotona(n - q - 1, m);
    }
    if q >= 1 {
      assert (q - 1) * m == b - m;
      if q >= 2 {
        MulMonotona(q - 1, m);
      }
    }
  }

  lemma SalientesEn(dirigido: bool, m: int, n: int, total: int, q: int, b: int, c: int)
    requires m >= 2 && 0 <= q < n && 0 <= c < m && b == q * m && total == m * n
    ensures Salientes(dirigido, m, total, b + c) == SalientesFila(dirigido, m, n, q, c)
  {
    PosicionFila(m, n, total, q, b, c);
  }

  /** The keys stored from the first c nodes of row q. */
  function FilaParcial(dirigido: bool, m: int, n: int, q: int, c: nat): nat {
    if c == 0 then 0 else FilaParcial(dirigido, m, n, q, c - 1) + SalientesFila(dirigido, m, n, q, c - 1)
  }

  /** The count over a prefix of row q, whose first node is b. */
  lemma {:induction false} CuentaFila(dirigido: bool, m: int, n: int, total: int, q: int, b: int, c: nat)
    requires m >= 2 && 0 <= q < n && c <= m && b == q * m && total == m * n
    ensures CuentaMalla(dirigido, m, total, b + c) == CuentaMalla(dirigido, m, total, b) + FilaParcial(dirigido, m, n, q, c)
  {
    if c > 0 {
      CuentaFila(dirigido, m, n, total, q, b, c - 1);
      SalientesEn(dirigido, m, n, total, q, b, c - 1);
      assert CuentaMalla(dirigido, m, total, b + c)
             == CuentaMalla(dirigido, m, total, b + c - 1) + Salientes(dirigido, m, total, b + c - 1);
    }
  }

  /** A whole row q stores m - 1 horizontal and, above the last row, m vertical
      links; a directed grid stores as many again leftward and, below the first
      row, upward. */
  lemma {:induction false} FilaEntera(dirigido: bool, m: int, n: int, q: int, c: nat)
    requires m >= 2 && c <= m
    ensures FilaParcial(dirigido, m, n, q, c)
            == (if c == m then m - 1 else c) + (if q < n - 1 then c else 0)
               + (if dirigido then (if c == 0 then 0 else c - 1) + (if q >= 1 then c else 0) else 0)
  {
    if c > 0 {
      FilaEntera(dirigido, m, n, q, c - 1);
    }
  }

  /** The keys a whole row q stores. */
  function FilaTotal(dirigido: bool, m: int, n: int, q: int): int {
    (m - 1) + (if q < n - 1 then m else 0) + (if dirigido then (m - 1) + (if q >= 1 then m else 0) else 0)
  }

  /** The keys the first q rows store. */
  function FilasCompletas(dirigido: bool, m: int, n: int, q: nat): int {
    if q == 0 then 0 else FilasCompletas(dirigido, m, n, q - 1) + FilaTotal(dirigido, m, n, q - 1)
  }

  /** The count up to node b, the first node of row q. */
  lemma {:induction false} CuentaFilas(dirigido: bool, m: int, n: int, total: int, q: nat, b: int)
    requires m >= 2 && n >= 2 && q <= n && b == q * m && total == m * n
    ensures CuentaMalla(dirigido, m, total, b) == FilasCompletas(dirigido, m, n, q)
  {
    if q > 0 {
      MulPred(q, m);
      CuentaFilas(dirigido, m, n, total, q - 1, b - m);
      CuentaFilasPaso(dirigido, m, n, total, q, b);
    }
  }

  /** Row q - 1, whose first node is b - m, adds its whole count. */
  lemma CuentaFilasPaso(dirigido: bool, m: int, n: int, total: int, q: nat, b: int)
    requires m >= 2 && n >= 2 && 1 <= q <= n && b - m == (q - 1) * m && total == m * n
    requires CuentaMalla(dirigido, m, total, b - m) == FilasCompletas(dirigido, m, n, q - 1)
    ensures CuentaMalla(dirigido, m, total, b) == FilasCompletas(dirigido, m, n, q)
  {
    CuentaFila(dirigido, m, n, total, q - 1, b - m, m);
    FilaEntera(dirigido, m, n, q - 1, m);
  }

  /** Every row but the last stores 2m - 1 keys undirected (m - 1 fewer in
      the first row when directed). */
  lemma {:induction false} SumaFilas(dirigido: bool, m: int, n: int, q: nat, s: int)
    requires m >= 2 && 1 <= q <= n - 1 && s == q * (2 * m - 1)
    ensures FilasCompletas(dirigido, m, n, q) == if dirigido then 2 * s - m else s
  {
    if q > 1 {
      assert s - (2 * m - 1) == (q - 1) * (2 * m - 1);
      SumaFilas(dirigido, m, n, q - 1, s - (2 * m - 1));
    }
  }

  /** An undirected m-by-n grid has 2mn - m - n links; a directed one stores
      each of them in both directions. */
  lemma CuentaMallaTotal(dirigido: bool, m: int, n: int)
    requires m >= 2 && n >= 2
    ensures CuentaMalla(dirigido, m, m * n, m * n) == if dirigido then 2 * (2 * m * n - m - n) else 2 * m * n - m - n
  {
    var total := m * n;
    var s := (n - 1) * (2 * m - 1);
    ConteoMalla(m, n, total, s);
    CuentaFilas(dirigido, m, n, total, n, total);
    SumaFilas(dirigido, m, n, n - 1, s);
    assert FilasCompletas(dirigido, m, n, n) == FilasCompletas(dirigido, m, n, n - 1) + FilaTotal(dirigido, m, n, n - 1);
  }

  /** The arithmetic behind the grid's link count. */
  lemma ConteoMalla(m: int, n: int, total: int, s: int)
    requires total == m * n && s == (n - 1) * (2 * m - 1)
    ensures total == n * m && s + m - 1 == 2 * m * n - m - n
  {
    assert s == 2 * (m * n) - n - 2 * m + 1;
  }

  /** One call `g.add_arista(Arista(nodos[k], nodos[t]))` of the grid
      generator, from node `k` to its neighbour `t`: it stores (k, t) exactly
      when that is a key of the finished grid. */
  method ConectarMalla(g: Grafo, m: int, total: int, k: int, ghost hechos: set<int>, t: int)
    requires m >= 2 && g.Valid() && g.V == NodosHasta(total)
    requires g.E.Keys == ClavesMalla(g.dirigido, m, total, k, hechos)
    requires Adyacentes(m, total, k, t) && t !in hechos
    modifies g
    ensures g.Valid() && g.V == old(g.V)
    ensures g.E.Keys == ClavesMalla(g.dirigido, m, total, k, hechos + {t})
  {
    var nodos := g.V;
    IntentoMalla(g.dirigido, g.E, m, total, k, hechos, t, Arista(nodos[k], nodos[t]));
    var agregada := g.AddArista(Arista(nodos[k], nodos[t]));
  }

  /** Nodes `k` have been tried for every k below `hasta`; the graph holds the
      nodes of the grid and exactly the keys those nodes contribute. */
  ghost predicate MallaEnCurso(g: Grafo, m: int, total: int, hasta: int)
    reads g
    requires m > 0
  {
    && g.Valid() && g.V == NodosHasta(total)
    && g.E.Keys == ClavesMalla(g.dirigido, m, total, hasta, {})
  }

  /** Node `k` is finished once its neighbours among `ts` have been tried:
      every grid neighbour of `k` is in `ts`. */
  predicate VecinosCubiertos(m: int, total: int, k: int, ts: set<int>)
    requires m > 0
  {
    && (Adyacentes(m, total, k, k - 1) ==> k - 1 in ts)
    && (Adyacentes(m, total, k, k + 1) ==> k + 1 in ts)
    && (Adyacentes(m, total, k, k - m) ==> k - m in ts)
    && (Adyacentes(m, total, k, k + m) ==> k + m in ts)
  }

  /** A node of the grid with two neighbours, tried in the order t1, t2. */
  method MallaNodo2(g: Grafo, m: int, total: int, k: int, t1: int, t2: int)
    requires m >= 2 && MallaEnCurso(g, m, total, k)
    requires Adyacentes(m, total, k, t1) && Adyacentes(m, total, k, t2) && t1 != t2
    requires VecinosCubiertos(m, total, k, {t1, t2})
    modifies g
    ensures MallaEnCurso(g, m, total, k + 1)
  {
    ConectarMalla(g, m, total, k, {}, t1);
    ConectarMalla(g, m, total, k, {t1}, t2);
    assert {t1} + {t2} == {t1, t2};
    CierreMalla(g.dirigido, m, total, k, {t1, t2});
  }

  /** A node of the grid with three neighbours, tried in the order t1, t2, t3. */
  method MallaNodo3(g: Grafo, m: int, total: int, k: int, t1: int, t2: int, t3: int)
    requires m >= 2 && MallaEnCurso(g, m, total, k)
    requires Adyacentes(m, total, k, t1) && Adyacentes(m, total, k, t2) && Adyacentes(m, total, k, t3)
    requires t1 != t2 && t1 != t3 && t2 != t3
    requires VecinosCubiertos(m, total, k, {t1, t2, t3})
    modifies g
    ensures MallaEnCurso(g, m, total, k + 1)
  {
    ConectarMalla(g, m, total, k, {}, t1);
    ConectarMalla(g, m, total, k, {t1}, t2);
    assert {t1} + {t2} == {t1, t2};
    ConectarMalla(g, m, total, k, {t1, t2}, t3);
    assert {t1, t2} + {t3} == {t1, t2, t3};
    CierreMalla(g.dirigido, m, total, k, {t1, t2, t3});
  }

  /** A node of the grid with four neighbours, tried in the order t1 .. t4. */
  method MallaNodo4(g: Grafo, m: int, total: int, k: int, t1: int, t2: int, t3: int, t4: int)
    requires m >= 2 && MallaEnCurso(g, m, total, k)
    requires Adyacentes(m, total, k, t1) && Adyacentes(m, total, k, t2)
    requires Adyacentes(m, total, k, t3) && Adyacentes(m, total, k, t4)
    requires t1 != t2 && t1 != t3 && t1 != t4 && t2 != t3 && t2 != t4 && t3 != t4
    requires VecinosCubiertos(m, total, k, {t1, t2, t3, t4})
    modifies g
    ensures MallaEnCurso(g, m, total, k + 1)
  {
    ConectarMalla(g, m, total, k, {}, t1);
    ConectarMalla(g, m, total, k, {t1}, t2);
    assert {t1} + {t2} == {t1, t2};
    ConectarMalla(g, m, total, k, {t1, t2}, t3);
    assert {t1, t2} + {t3} == {t1, t2, t3};
    ConectarMalla(g, m, total, k, {t1, t2, t3}, t4);
    assert {t1, t2, t3} + {t4} == {t1, t2, t3, t4};
    CierreMalla(g.dirigido, m, total, k, {t1, t2, t3, t4});
  }

  /** The first row of grafoMalla: node 0, nodes 1 .. m - 2, node m - 1. */
  method MallaPrimeraFila(g: Grafo, m: int, n: int, total: int)
    requires m >= 2 && n >= 2 && total == m * n
    requires MallaEnCurso(g, m, total, 0)
    modifies g
    ensures MallaEnCurso(g, m, total, m)
  {
    PosicionFila(m, n, total, 0, 0, 0);
    MallaNodo2(g, m, total, 0, 1, m);
    var node := 1;
    while node < m - 1
      invariant 1 <= node <= m - 1
      invariant MallaEnCurso(g, m, total, node)
    {
      PosicionFila(m, n, total, 0, 0, node);
      MallaNodo3(g, m, total, node, node - 1, node + 1, node + m);
      node := node + 1;
    }
    PosicionFila(m, n, total, 0, 0, m - 1);
    MallaNodo2(g, m, total, m - 1, m - 2, m - 1 + m);
  }

  /** Rows 1 .. n - 2 of grafoMalla: up and down, then right, left or both by
      the column. */
  method MallaFilasInteriores(g: Grafo, m: int, n: int, total: int)
    requires m >= 2 && n >= 2 && total == m * n
    requires m <= total - m
    requires MallaEnCurso(g, m, total, m)
    modifies g
    ensures MallaEnCurso(g, m, total, total - m)
  {
    var lastCol := m - 1;
    var node := m;
    while node < total - m
      invariant m <= node <= total - m
      invariant MallaEnCurso(g, m, total, node)
    {
      var col := node % m;
      if col == 0 {
        MallaNodo3(g, m, total, node, node - m, node + m, node + 1);
      } else if col == lastCol {
        MallaNodo3(g, m, total, node, node - m, node + m, node - 1);
      } else {
        MallaNodo4(g, m, total, node, node - m, node + m, node + 1, node - 1);
      }
      node := node + 1;
    }
  }

  /** The last row of grafoMalla: its first node, the middle ones, its last. */
  method MallaUltimaFila(g: Grafo, m: int, n: int, total: int)
    requires m >= 2 && n >= 2 && total == m * n
    requires total - m == (n - 1) * m
    requires MallaEnCurso(g, m, total, total - m)
    modifies g
    ensures MallaEnCurso(g, m, total, total)
  {
    var col0 := total - m;
    var col1 := col0 + 1;
    var lastNode := total - 1;
    PosicionFila(m, n, total, n - 1, col0, 0);
    MallaNodo2(g, m, total, col0, col1, col0 - m);
    var node := col1;
    while node < lastNode
      invariant col1 <= node <= lastNode
      invariant MallaEnCurso(g, m, total, node)
    {
      PosicionFila(m, n, total, n - 1, col0, node - col0);
      MallaNodo3(g, m, total, node, node - 1, node + 1, node - m);
      node := node + 1;
    }
    PosicionFila(m, n, total, n - 1, col0, m - 1);
    MallaNodo2(g, m, total, lastNode, lastNode - m, lastNode - 1);
  }

  /** The finished grid: its keys are exactly the grid links, each between
      two distinct nodes, and there are 2mn - m - n of them (twice as many when
      directed). */
  lemma PropiedadesMalla(dirigido: bool, m: int, n: int)
    requires m >= 2 && n >= 2
    ensures var claves := ClavesMalla(dirigido, m, m * n, m * n, {});
            && (forall p :: p in claves <==> EnlaceMalla(dirigido, m, m * n, p))
            && (forall p | p in claves :: 0 <= p.0 < m * n && 0 <= p.1 < m * n && p.0 != p.1)
            && |claves| == if dirigido then 2 * (2 * m * n - m - n) else 2 * m * n - m - n
  {
    var total := m * n;
    CardClavesMalla(dirigido, m, total, total);
    CuentaMallaTotal(dirigido, m, n);
    forall p
      ensures p in ClavesMalla(dirigido, m, total, total, {}) <==> EnlaceMalla(dirigido, m, total, p)
      ensures p in ClavesMalla(dirigido, m, total, total, {}) ==> 0 <= p.0 < total && 0 <= p.1 < total && p.0 != p.1
    {
      EnClavesMalla(dirigido, m, total, total, {}, p);
      if EnlaceMalla(dirigido, m, total, p) {
        EnlaceMallaForma(dirigido, m, total, p);
      }
    }
  }

  /** grafoMalla: the m-column, n-row grid. */
  method GrafoMalla(m: int, n: int, dirigido: bool) returns (g: Grafo)
    requires m >= 2 && n >= 2
    ensures g.Valid() && g.dirigido == dirigido
    ensures g.V == NodosHasta(m * n) && |g.V| == m * n
    ensures forall p :: p in g.E <==> EnlaceMalla(dirigido, m, m * n, p)
    ensures |g.E| == if dirigido then 2 * (2 * m * n - m - n) else 2 * m * n - m - n
    ensures g.Cerrado() && g.SinLazos()
  {
    var total := m * n;
    g := new Grafo(dirigido);
    AgregarNodos(g, total);

    assert total - m == (n - 1) * m;
    MulMonotona(n - 1, m);
    MallaPrimeraFila(g, m, n, total);
    MallaFilasInteriores(g, m, n, total);
    MallaUltimaFila(g, m, n, total);

    PropiedadesMalla(dirigido, m, n);
    assert |g.E| == |g.E.Keys|;
  }
}
