/**
 The simple geographic generator: every node gets a point of the unit square,
 each coordinate rounded to three decimals, and a node is joined to every other
 node within distance r (and to itself when self-loops are allowed, with no
 distance test). Coordinates are kept as integer thousandths, the values the
 rounding can produce, and distances are compared exactly as reals.
 */
module GeneradorGeografico {
  import opened Grafos
  import opened BarridoPares

  /** A point of the unit square in thousandths. */
  type Punto = (int, int)

  function Cuadrado(x: real): real
  {
    x * x
  }

  /** The squared distance between two points given in thousandths. */
  function Distancia2(c: Punto, d: Punto): real
  {
    Cuadrado((c.0 - d.0) as real / 1000.0) + Cuadrado((c.1 - d.1) as real / 1000.0)
  }

  /** Distance does not depend on the order of the points. */
  lemma Distancia2Simetrica(c: Punto, d: Punto)
    ensures Distancia2(c, d) == Distancia2(d, c)
  {
    assert (c.0 - d.0) as real / 1000.0 == -((d.0 - c.0) as real / 1000.0);
    assert (c.1 - d.1) as real / 1000.0 == -((d.1 - c.1) as real / 1000.0);
  }

  /** The pair (a, b) is offered: a self-loop when self-loops are allowed, or
      two distinct nodes within squared distance r2. */
  predicate AdmiteGeo(auto: bool, coords: map<int, Punto>, r2: real, a: int, b: int) {
    if a == b then auto
    else a in coords && b in coords && Distancia2(coords[a], coords[b]) <= r2
  }

  /** The admission test of a geographic sweep, as a predicate on pairs. */
  ghost function AdmisionGeo(auto: bool, coords: map<int, Punto>, r2: real): (int, int) -> bool {
    (a: int, b: int) => AdmiteGeo(auto, coords, r2, a, b)
  }

  /** grafoGeografico, with the rounded draws of node i given as `sorteos[i]`. */
  method GrafoGeografico(n: int, r: real, dirigido: bool, auto: bool, sorteos: seq<Punto>)
    returns (g: Grafo, coords: map<int, Punto>)
    requires n >= 1 && 0.0 <= r <= 1.0
    requires |sorteos| == n
    requires forall i | 0 <= i < n :: 0 <= sorteos[i].0 <= 1000 && 0 <= sorteos[i].1 <= 1000
    ensures g.Valid() && g.dirigido == dirigido && g.V == NodosHasta(n) && |g.V| == n
    ensures forall i :: i in coords <==> 0 <= i < n
    ensures forall i | 0 <= i < n :: coords[i] == sorteos[i]
    ensures g.E.Keys == ClavesBarrido(dirigido, AdmisionGeo(auto, coords, r * r), n, n, {})
    ensures auto ==> forall u | 0 <= u < n :: (u, u) in g.E
    ensures !auto ==> g.SinLazos()
    ensures forall a, b | (a, b) in g.E && a != b :: 0 <= a < n && 0 <= b < n && Distancia2(coords[a], coords[b]) <= r * r
  {
    g := new Grafo(dirigido);
    coords := NodosGeo(g, n, sorteos);
    var r2 := r * r;
    AristasGeo(g, n, auto, coords, r2);
    PropiedadesGeo(dirigido, n, auto, coords, r2);
  }

  /** The points of nodes 0 .. n-1, node i at `sorteos[i]`. */
  function Coordenadas(sorteos: seq<Punto>, n: int): map<int, Punto>
    requires n <= |sorteos|
  {
    map i | 0 <= i < n :: sorteos[i]
  }

  /** Placing node n after nodes 0 .. n-1. */
  lemma CoordenadasSiguiente(sorteos: seq<Punto>, n: int)
    requires 0 <= n < |sorteos|
    ensures Coordenadas(sorteos, n + 1) == Coordenadas(sorteos, n)[n := sorteos[n]]
  {
  }

  /** The node loop: node i is added and placed at `sorteos[i]`. */
  method NodosGeo(g: Grafo, n: int, sorteos: seq<Punto>) returns (coords: map<int, Punto>)
    requires g.Valid() && g.V == map[] && g.E == map[] && 0 <= n <= |sorteos|
    modifies g
    ensures g.Valid() && g.V == NodosHasta(n) && |g.V| == n && g.E == map[]
    ensures coords == Coordenadas(sorteos, n)
  {
    coords := map[];
    var nodo := 0;
    while nodo < n
      invariant 0 <= nodo <= n
      invariant g.Valid() && g.V == NodosHasta(nodo) && |g.V| == nodo && g.E == map[]
      invariant coords == Coordenadas(sorteos, nodo)
    {
      NodosHastaSiguiente(nodo);
      g.AddNodo(Nodo(nodo));
      var punto := sorteos[nodo];
      CoordenadasSiguiente(sorteos, nodo);
      coords := coords[nodo := punto];
      nodo := nodo + 1;
    }
  }

  /** The edge loop: for each node u, its self-loop when allowed, then every
      other node v within squared distance r2. */
  method AristasGeo(g: Grafo, n: int, auto: bool, coords: map<int, Punto>, r2: real)
    requires n >= 0 && g.Valid() && g.V == NodosHasta(n) && g.E == map[]
    requires forall i :: i in coords <==> 0 <= i < n
    modifies g
    ensures g.Valid() && g.V == old(g.V)
    ensures g.E.Keys == ClavesBarrido(g.dirigido, AdmisionGeo(auto, coords, r2), n, n, {})
  {
    ghost var admite := AdmisionGeo(auto, coords, r2);
    InicioBarrido(g.dirigido, admite, n);
    var u := 0;
    while u < n
      invariant 0 <= u <= n
      invariant g.Valid() && g.V == NodosHasta(n)
      invariant g.E.Keys == ClavesBarrido(g.dirigido, admite, n, u, {})
    {
      FilaGeo(g, n, auto, coords, r2, u);
      u := u + 1;
    }
  }

  /** One pass of the outer loop, for node u. */
  method FilaGeo(g: Grafo, n: int, auto: bool, coords: map<int, Punto>, r2: real, u: int)
    requires 0 <= u < n
    requires g.Valid() && g.V == NodosHasta(n)
    requires forall i :: i in coords <==> 0 <= i < n
    requires g.E.Keys == ClavesBarrido(g.dirigido, AdmisionGeo(auto, coords, r2), n, u, {})
    modifies g
    ensures g.Valid() && g.V == old(g.V)
    ensures g.E.Keys == ClavesBarrido(g.dirigido, AdmisionGeo(auto, coords, r2), n, u + 1, {})
  {
    ghost var admite := AdmisionGeo(auto, coords, r2);
    ghost var hechos: set<int> := {};
    if auto {
      OfrecerPar(g, admite, n, u, hechos, u);
    } else {
      SaltoBarrido(g.dirigido, admite, n, u, hechos, u);
    }
    hechos := hechos + {u};
    var v := 0;
    while v < n
      invariant 0 <= v <= n
      invariant g.Valid() && g.V == NodosHasta(n)
      invariant forall b :: b in hechos <==> 0 <= b < v || b == u
      invariant g.E.Keys == ClavesBarrido(g.dirigido, admite, n, u, hechos)
    {
      if u != v {
        var dist := Distancia2(coords[u], coords[v]);
        if dist <= r2 {
          OfrecerPar(g, admite, n, u, hechos, v);
        } else {
          SaltoBarrido(g.dirigido, admite, n, u, hechos, v);
        }
        hechos := hechos + {v};
      }
      v := v + 1;
    }
    CierreBarrido(g.dirigido, admite, n, u, hechos);
  }

  /** What a finished geographic sweep stores: every self-loop when they are
      allowed and none otherwise, and only pairs of distinct nodes within
      squared distance r2. */
  lemma PropiedadesGeo(dirigido: bool, n: int, auto: bool, coords: map<int, Punto>, r2: real)
    requires forall i :: i in coords <==> 0 <= i < n
    ensures var claves := ClavesBarrido(dirigido, AdmisionGeo(auto, coords, r2), n, n, {});
            && (auto ==> forall u | 0 <= u < n :: (u, u) in claves)
            && (!auto ==> forall k | k in claves :: k.0 != k.1)
            && (forall a, b | (a, b) in claves && a != b :: 0 <= a < n && 0 <= b < n && Distancia2(coords[a], coords[b]) <= r2)
  {
    var admite := AdmisionGeo(auto, coords, r2);
    var claves := ClavesBarrido(dirigido, admite, n, n, {});
    forall u | auto && 0 <= u < n
      ensures (u, u) in claves
    {
      FinBarrido(dirigido, admite, n, u, u);
    }
    forall k | k in claves
      ensures !auto ==> k.0 != k.1
      ensures k.0 != k.1 ==> 0 <= k.0 < n && 0 <= k.1 < n && Distancia2(coords[k.0], coords[k.1]) <= r2
    {
      EnClavesBarrido(dirigido, admite, n, n, {}, k);
    }
  }

  /** In an undirected geographic graph two distinct nodes are linked, in one
      orientation or the other, exactly when they lie within distance r. */
  lemma GeograficoSimetrico(n: int, r2: real, auto: bool, coords: map<int, Punto>, a: int, b: int)
    requires 0 <= a < n && 0 <= b < n && a != b && a in coords && b in coords
    ensures var claves := ClavesBarrido(false, AdmisionGeo(auto, coords, r2), n, n, {});
            ((a, b) in claves || (b, a) in claves) <==> Distancia2(coords[a], coords[b]) <= r2
  {
    var admite := AdmisionGeo(auto, coords, r2);
    FinBarrido(false, admite, n, a, b);
    FinBarrido(false, admite, n, b, a);
    Distancia2Simetrica(coords[a], coords[b]);
  }
}
