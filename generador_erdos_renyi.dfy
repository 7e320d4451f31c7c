/**
 The Erdős–Rényi generator: m times, pairs of nodes are drawn until one is
 accepted (a self-loop is redrawn unless self-loops are allowed, and a pair the
 graph already links is refused by `AddArista`). The draws are the finite
 oracle `sorteos`, consumed in order; running out of draws ends the run early
 with `completo` false, which bounds a retry loop the program leaves unbounded.
 */
module GeneradorErdosRenyi {
  import opened Grafos
  import opened BarridoPares

  /** The keys accepted from the draws `s`, taken in order: a draw is skipped
      when it is a forbidden self-loop or its link is already stored. */
  ghost function AdmitidosER(dirigido: bool, auto: bool, s: seq<AristaId>, i: int): set<AristaId>
    requires i <= |s|
  {
    if i <= 0 then {}
    else
      var previos := AdmitidosER(dirigido, auto, s, i - 1);
      var d := s[i - 1];
      if (d.0 == d.1 && !auto) || d in previos || (!dirigido && Reverso(d) in previos) then previos
      else previos + {d}
  }

  /** Every key accepted from the first i draws is one of them, and none is a
      self-loop unless self-loops are allowed. */
  lemma {:induction false} AdmitidosEnSorteos(dirigido: bool, auto: bool, s: seq<AristaId>, i: int)
    requires i <= |s|
    ensures forall k | k in AdmitidosER(dirigido, auto, s, i) :: (exists j | 0 <= j < i :: s[j] == k) && (auto || k.0 != k.1)
  {
    if i > 0 {
      AdmitidosEnSorteos(dirigido, auto, s, i - 1);
    }
  }

  /** An undirected run never accepts both orientations of a pair. */
  lemma {:induction false} AdmitidosUnaOrientacion(auto: bool, s: seq<AristaId>, i: int)
    requires i <= |s|
    ensures forall k | k in AdmitidosER(false, auto, s, i) && k.0 != k.1 :: Reverso(k) !in AdmitidosER(false, auto, s, i)
  {
    if i > 0 {
      AdmitidosUnaOrientacion(auto, s, i - 1);
    }
  }

  /** One call `g.add_arista(Arista(nodos[u], nodos[v]))` for draw `i`, which
      is not a forbidden self-loop: the stored keys follow the accepted draws. */
  method ProbarSorteo(g: Grafo, n: int, auto: bool, sorteos: seq<AristaId>, i: nat) returns (agregada: bool)
    requires g.Valid() && g.V == NodosHasta(n) && i < |sorteos|
    requires 0 <= sorteos[i].0 < n && 0 <= sorteos[i].1 < n && (auto || sorteos[i].0 != sorteos[i].1)
    requires g.E.Keys == AdmitidosER(g.dirigido, auto, sorteos, i)
    modifies g
    ensures g.Valid() && g.V == old(g.V)
    ensures g.E.Keys == AdmitidosER(g.dirigido, auto, sorteos, i + 1)
    ensures |g.E| == old(|g.E|) + (if agregada then 1 else 0)
  {
    var nodos := g.V;
    var u, v := sorteos[i].0, sorteos[i].1;
    agregada := g.AddArista(Arista(nodos[u], nodos[v]));
  }

  /** A self-loop draw, when self-loops are not allowed, is redrawn and leaves
      the accepted keys as they were. */
  lemma SaltoLazo(dirigido: bool, auto: bool, s: seq<AristaId>, i: int)
    requires 0 <= i < |s| && s[i].0 == s[i].1 && !auto
    ensures AdmitidosER(dirigido, auto, s, i + 1) == AdmitidosER(dirigido, auto, s, i)
  {
  }

  /** One iteration of the `while True` loop on draw `i`: a forbidden
      self-loop is redrawn, any other pair is offered to `add_arista`. */
  method IntentarSorteo(g: Grafo, n: int, auto: bool, sorteos: seq<AristaId>, i: nat) returns (agregada: bool)
    requires g.Valid() && g.V == NodosHasta(n) && i < |sorteos|
    requires 0 <= sorteos[i].0 < n && 0 <= sorteos[i].1 < n
    requires g.E.Keys == AdmitidosER(g.dirigido, auto, sorteos, i)
    modifies g
    ensures g.Valid() && g.V == old(g.V)
    ensures g.E.Keys == AdmitidosER(g.dirigido, auto, sorteos, i + 1)
    ensures |g.E| == old(|g.E|) + (if agregada then 1 else 0)
  {
    var u, v := sorteos[i].0, sorteos[i].1;
    if u == v && !auto {
      SaltoLazo(g.dirigido, auto, sorteos, i);
      agregada := false;
    } else {
      agregada := ProbarSorteo(g, n, auto, sorteos, i);
    }
  }

  /** One pass of the `while True` loop: draws are taken from `sorteos[usados0..]`
      until one is accepted, or until they run out. */
  method AceptarUna(g: Grafo, n: int, auto: bool, sorteos: seq<AristaId>, usados0: nat)
    returns (aceptada: bool, usados: nat)
    requires g.Valid() && g.V == NodosHasta(n) && usados0 <= |sorteos|
    requires forall i | 0 <= i < |sorteos| :: 0 <= sorteos[i].0 < n && 0 <= sorteos[i].1 < n
    requires g.E.Keys == AdmitidosER(g.dirigido, auto, sorteos, usados0)
    modifies g
    ensures g.Valid() && g.V == old(g.V)
    ensures usados0 <= usados <= |sorteos|
    ensures g.E.Keys == AdmitidosER(g.dirigido, auto, sorteos, usados)
    ensures aceptada ==> |g.E| == old(|g.E|) + 1
    ensures !aceptada ==> usados == |sorteos| && |g.E| == old(|g.E|)
  {
    usados := usados0;
    aceptada := false;
    while !aceptada && usados < |sorteos|
      invariant usados0 <= usados <= |sorteos|
      invariant g.Valid() && g.V == old(g.V)
      invariant g.E.Keys == AdmitidosER(g.dirigido, auto, sorteos, usados)
      invariant |g.E| == old(|g.E|) + (if aceptada then 1 else 0)
      decreases |sorteos| - usados
    {
      aceptada := IntentarSorteo(g, n, auto, sorteos, usados);
      usados := usados + 1;
    }
  }

  /** The draw loop of grafoErdosRenyi on graph `g`, which holds nodes 0 .. n-1
      and no edge: m edges, each accepted by one pass of the retry loop. */
  method AristasErdosRenyi(g: Grafo, n: int, m: int, auto: bool, sorteos: seq<AristaId>)
    returns (completo: bool, usados: nat)
    requires g.Valid() && g.V == NodosHasta(n) && g.E == map[] && m >= 0
    requires forall i | 0 <= i < |sorteos| :: 0 <= sorteos[i].0 < n && 0 <= sorteos[i].1 < n
    modifies g
    ensures g.Valid() && g.V == old(g.V)
    ensures usados <= |sorteos|
    ensures g.E.Keys == AdmitidosER(g.dirigido, auto, sorteos, usados)
    ensures completo <==> |g.E| == m
    ensures !completo ==> usados == |sorteos| && |g.E| < m
  {
    usados := 0;
    var arista := 0;
    while arista < m
      invariant 0 <= arista <= m && usados <= |sorteos|
      invariant g.Valid() && g.V == old(g.V)
      invariant g.E.Keys == AdmitidosER(g.dirigido, auto, sorteos, usados)
      invariant |g.E| == arista
    {
      var aceptada;
      aceptada, usados := AceptarUna(g, n, auto, sorteos, usados);
      if !aceptada {
        return false, usados;
      }
      arista := arista + 1;
    }
    completo := true;
  }

  /** grafoErdosRenyi as written: the graph is created without passing
      `dirigido`, so it is undirected whatever the caller asks for. */
  method GrafoErdosRenyi(n: int, m: int, dirigido: bool, auto: bool, sorteos: seq<AristaId>)
    returns (g: Grafo, completo: bool, usados: nat)
    requires n >= 1 && m >= n - 1
    requires forall i | 0 <= i < |sorteos| :: 0 <= sorteos[i].0 < n && 0 <= sorteos[i].1 < n
    ensures g.Valid() && !g.dirigido && g.V == NodosHasta(n) && |g.V| == n
    ensures usados <= |sorteos|
    ensures g.E.Keys == AdmitidosER(false, auto, sorteos, usados)
    ensures completo <==> |g.E| == m
    ensures !completo ==> usados == |sorteos|
    ensures g.Cerrado() && (!auto ==> g.SinLazos())
  {
    g := new Grafo(false);
    AgregarNodos(g, n);
    completo, usados := AristasErdosRenyi(g, n, m, auto, sorteos);
    AdmitidosEnSorteos(false, auto, sorteos, usados);
  }

  /** grafoErdosRenyi with `dirigido` passed to the graph. */
  method GrafoErdosRenyiCorregido(n: int, m: int, dirigido: bool, auto: bool, sorteos: seq<AristaId>)
    returns (g: Grafo, completo: bool, usados: nat)
    requires n >= 1 && m >= n - 1
    requires forall i | 0 <= i < |sorteos| :: 0 <= sorteos[i].0 < n && 0 <= sorteos[i].1 < n
    ensures g.Valid() && g.dirigido == dirigido && g.V == NodosHasta(n) && |g.V| == n
    ensures usados <= |sorteos|
    ensures g.E.Keys == AdmitidosER(dirigido, auto, sorteos, usados)
    ensures completo <==> |g.E| == m
    ensures !completo ==> usados == |sorteos|
    ensures g.Cerrado() && (!auto ==> g.SinLazos())
  {
    g := new Grafo(dirigido);
    AgregarNodos(g, n);
    completo, usados := AristasErdosRenyi(g, n, m, auto, sorteos);
    AdmitidosEnSorteos(dirigido, auto, sorteos, usados);
  }

  /** As written, asking for a directed graph on two nodes with two edges and
      no self-loops can never complete: whatever the draws, at most one edge is
      accepted, so the program's retry loop runs forever. */
  lemma DosNodosNoDirigido(s: seq<AristaId>, i: int)
    requires 0 <= i <= |s|
    requires forall j | 0 <= j < |s| :: 0 <= s[j].0 < 2 && 0 <= s[j].1 < 2
    ensures |AdmitidosER(false, false, s, i)| <= 1
  {
    var a := AdmitidosER(false, false, s, i);
    DosNodosClaves(s, i);
    AdmitidosUnaOrientacion(false, s, i);
    if (0, 1) in a {
      assert Reverso((0, 1)) !in a;
      assert a == {(0, 1)};
    } else if (1, 0) in a {
      assert a == {(1, 0)};
    } else {
      assert a == {};
    }
  }

  /** On two nodes without self-loops only (0, 1) and (1, 0) can be accepted. */
  lemma DosNodosClaves(s: seq<AristaId>, i: int)
    requires 0 <= i <= |s|
    requires forall j | 0 <= j < |s| :: 0 <= s[j].0 < 2 && 0 <= s[j].1 < 2
    ensures forall k | k in AdmitidosER(false, false, s, i) :: k == (0, 1) || k == (1, 0)
  {
    AdmitidosEnSorteos(false, false, s, i);
    forall k | k in AdmitidosER(false, false, s, i)
      ensures k == (0, 1) || k == (1, 0)
    {
      var j :| 0 <= j < i && s[j] == k;
    }
  }

  /** With `dirigido` passed on, the same request completes from the two draws
      (0, 1), (1, 0). */
  lemma DosNodosDirigido()
    ensures |AdmitidosER(true, false, [(0, 1), (1, 0)], 2)| == 2
  {
    var s := [(0, 1), (1, 0)];
    assert AdmitidosER(true, false, s, 1) == {(0, 1)};
  }
}
