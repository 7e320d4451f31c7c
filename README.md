# Graph generators, modelled in Dafny

This project models the graph-construction engine of `Untitled2.py`. It has three parts:

- **The graph container.** A `Grafo` holds its nodes in a map `V` from id to `Nodo` and its edges in a map `E`. Each edge is keyed by the ordered pair `(u.id, v.id)`.
  - `add_nodo` upserts a node.
  - `get_arista` is the duplicate test. A directed graph checks the exact key. An undirected graph checks both orientations.
  - `add_arista` is the only way an edge gets in. It rejects an edge whose link is already stored, and otherwise stores the edge under its own key.
- **The deterministic grid generator `grafoMalla`.**
- **Five randomised generators:** Erdős–Rényi, Gilbert, simple geographic, Barabási–Albert and Dorogovtsev–Mendes.

The graph is a Dafny `class` with two `map` fields. Every generator is a method that builds its graph through `AddNodo` and `AddArista`, with the loops of the original.

The random draws are parameters, so every property holds for every outcome of the draws:

- Erdős–Rényi takes the finite sequence of drawn pairs.
- Gilbert and Barabási–Albert take a function from candidate pair to drawn number. Each pair draws at most once, so this loses nothing.
- The geographic generator takes each node's rounded coordinates as integer thousandths.
- Dorogovtsev–Mendes picks the edge with a nondeterministic choice (`:|`) among the stored keys, and returns the keys it chose.

Parameters the original rejects (a message on standard error, then `exit(-1)`) become preconditions.

Files:

- `grafo.dfy`: module `Grafos`, the nodes, edges and graph.
- `barrido_pares.dfy`: module `BarridoPares`, the node loop and the pair sweep shared by Gilbert, the geographic generator and the Dorogovtsev–Mendes seed. It characterises the keys that such a sweep stores, given the generator's admission test.
- `aritmetica.dfy`: Euclidean division facts for grid positions.
- One file per generator.

## Model

| member | source | states |
|---|---|---|
| Grafos.NodoEqualsIffSame | Untitled2.py:27-40 | Node equality, which compares ids, is exactly equality of nodes. |
| Grafos.AristaEqualsIffSameId | Untitled2.py:85-100 | Two edges are equal (both endpoints equal as nodes) exactly when their keys (source id, target id) are equal, and two edges with the same key are the same edge. |
| Grafos.ReversoEnlace | Untitled2.py:207-211 | Reading a key the other way twice gives it back, and only a self-loop reads the same both ways. "Names the same link", which the duplicate test checks, is reflexive, symmetric and transitive in both directed and undirected graphs. |
| Grafos.Grafo.constructor | Untitled2.py:145-150 | A new graph has no nodes and no edges, keeps its `dirigido` flag and satisfies the invariant. |
| Grafos.Grafo.GetArista | Untitled2.py:207-211 | The duplicate test is true exactly when some stored key names the same link. Directed, that is the same ordered pair. Undirected, it is the pair in either order. |
| Grafos.Grafo.GetAristaSimetrica | Untitled2.py:209-211 | In an undirected graph the duplicate test gives the same answer for (u, v) and (v, u). |
| Grafos.Grafo.AddNodo | Untitled2.py:175 | Upsert: `V` maps the node's id to the node; `E` is unchanged; a new id adds one node; the invariant is kept. |
| Grafos.Grafo.AddArista | Untitled2.py:189-193 | Returns true exactly when the duplicate test was false. Then `E` gains exactly the edge's key, and its size grows by one. Otherwise `E` is unchanged. `V` never changes. The link is stored afterwards, so a repeated call returns false. The invariant is kept: every entry sits under its own key, and an undirected graph never holds both orientations of a pair. |
| BarridoPares.AgregarNodos | Untitled2.py:410-412 | The node loop leaves exactly the nodes 0 .. n-1, each under its own id, and leaves `E` unchanged. |
| BarridoPares.OfrecerPar | Untitled2.py:422-425 | Offering an admitted pair (u, t) of the sweep stores exactly the keys of the sweep with `t` done. |
| BarridoPares.IntentoBarrido | Untitled2.py:189-193 | In a sweep, the duplicate test refuses an admitted pair exactly when the pair does not survive. A directed pair always survives. An undirected pair fails to survive when its reverse was admitted in an earlier row. |
| BarridoPares.SaltoBarrido | Untitled2.py:424 | Passing over a pair the generator does not admit changes no key. |
| BarridoPares.FinBarrido | Untitled2.py:416-425 | After the whole sweep, (a, b) is stored exactly when both ids are below n, the pair is admitted, and the graph is directed, or a <= b, or (b, a) is not admitted. |
| BarridoPares.UnaOrientacion | Untitled2.py:207-211 | An undirected sweep never stores both orientations of a pair of distinct nodes. |
| GeneradorGilbert.GrafoGilbert | Untitled2.py:394-427 | n nodes. Edge (a, b) is stored exactly when a, b < n, the pair is a candidate (a != b unless self-loops are allowed), its draw is <= p, and the pair survives as in `FinBarrido`. |
| GeneradorGilbert.CardParesCrecientes | Untitled2.py:419 | There are n(n-1)/2 pairs a < b below n. |
| GeneradorGilbert.GilbertCompleto | Untitled2.py:419-425 | If every draw admits, an undirected Gilbert graph without self-loops stores exactly the pairs a < b: n(n-1)/2 edges. |
| GeneradorGeografico.Distancia2Simetrica | Untitled2.py:465 | The squared distance does not depend on the order of the points. |
| GeneradorGeografico.NodosGeo | Untitled2.py:450-454 | The node loop adds nodes 0 .. n-1 and places node i at its draw. |
| GeneradorGeografico.FilaGeo | Untitled2.py:458-467 | One outer pass for node u offers its self-loop only when allowed, then every other node within distance r. The keys are those of the sweep up to row u + 1. |
| GeneradorGeografico.AristasGeo | Untitled2.py:457-467 | The edge loop stores exactly the keys of the sweep whose admission test is: self-loop when allowed, or squared distance <= r squared. |
| GeneradorGeografico.PropiedadesGeo | Untitled2.py:457-467 | With self-loops allowed, every node has its self-loop. Otherwise there is none. Every other stored pair is within squared distance r squared. |
| GeneradorGeografico.GeograficoSimetrico | Untitled2.py:464-467 | Undirected: distinct nodes are linked, in one orientation or the other, exactly when they lie within distance r. |
| GeneradorGeografico.GrafoGeografico | Untitled2.py:429-469 | n nodes with their coordinates. The stored keys are those of the distance sweep. Self-loops are present exactly when allowed. Every other edge is within distance r. |
| GeneradorErdosRenyi.AdmitidosEnSorteos | Untitled2.py:384-390 | Every accepted key is one of the draws, and none is a self-loop unless self-loops are allowed. |
| GeneradorErdosRenyi.AdmitidosUnaOrientacion | Untitled2.py:207-211 | An undirected run never accepts both orientations of a pair. |
| GeneradorErdosRenyi.SaltoLazo | Untitled2.py:387-388 | A forbidden self-loop draw is redrawn and accepts nothing. |
| GeneradorErdosRenyi.ProbarSorteo | Untitled2.py:389 | The `add_arista` call for one draw: the stored keys follow the accepted draws, and the size grows by one exactly when it returns true. |
| GeneradorErdosRenyi.IntentarSorteo | Untitled2.py:385-389 | One iteration of the retry loop on one draw: a forbidden self-loop is redrawn and any other pair is offered to `add_arista`. Either way the stored keys become the keys accepted from one more draw, and the size grows by one exactly when the call returns true. |
| GeneradorErdosRenyi.AceptarUna | Untitled2.py:384-390 | One pass of the retry loop accepts exactly one new edge, or uses up every draw and adds none. |
| GeneradorErdosRenyi.AristasErdosRenyi | Untitled2.py:383-390 | The edge loop ends complete exactly when m edges are stored. Otherwise every draw is used and fewer than m are stored. The keys are the accepted draws. |
| GeneradorErdosRenyi.GrafoErdosRenyi | Untitled2.py:361-392 | As written: n nodes, an undirected graph whatever `dirigido` says, the accepted draws as keys, m edges when complete, and no self-loops unless allowed. |
| GeneradorErdosRenyi.DosNodosNoDirigido | Untitled2.py:374 | As written, on two nodes without self-loops at most one edge is ever accepted, so a request for two edges never completes. |
| GeneradorErdosRenyi.GrafoErdosRenyiCorregido | Untitled2.py:374 | With `dirigido` passed to the graph: the same guarantees, with the requested direction. |
| GeneradorErdosRenyi.DosNodosDirigido | Untitled2.py:374 | With `dirigido` passed on, the draws (0, 1), (1, 0) complete the directed two-edge request. |
| GeneradorBarabasiAlbert.IncidentesTras | Untitled2.py:506-508 | Storing a new key (a, b) adds one to the count of keys touching a and b (once for a self-loop), and to no other node's count. |
| GeneradorBarabasiAlbert.GradosTras | Untitled2.py:505-508 | After a new edge, incrementing the source's counter, and the target's unless it is the same node, keeps every counter equal to the node's incident-key count and at most d. |
| GeneradorBarabasiAlbert.SumarGrados | Untitled2.py:506-508 | The counter update after a new edge keeps the counters exact and within d. |
| GeneradorBarabasiAlbert.AgregarBA | Untitled2.py:505 | The `add_arista` call stores (nodo, v) exactly when it returns true; otherwise the keys are unchanged. Either way the link is stored afterwards: (nodo, v), or (v, nodo) when undirected. |
| GeneradorBarabasiAlbert.UmbralesTras | Untitled2.py:496-505 | Pairs are offered row by row, so when (nodo, v) is stored every stored key comes before it. Storing it with v's counter as its record keeps, for every stored key (a, b), that the record is b's count of incident keys among the keys before (a, b), that this count and a's were both below d, and that the draw is at most 1 - record/d. |
| GeneradorBarabasiAlbert.RechazoAhora | Untitled2.py:496-504 | When every stored key was offered before (nodo, v), a refusal on the current counters is a refusal at offer time: the keys stored before (nodo, v) are exactly the current keys. |
| GeneradorBarabasiAlbert.CubiertosTras | Untitled2.py:505-508 | Storing (nodo, v) does not change the keys stored before any pair offered earlier, so every refusal at offer time so far stays one. |
| GeneradorBarabasiAlbert.CierreFilaBA | Untitled2.py:495-498 | A row ends when every v was offered or when the source is full (the `break`). Either way every pair of the row is stored or was refused at offer time; the pairs after the `break` because the source was already full. |
| GeneradorBarabasiAlbert.RechazoFinal | Untitled2.py:496-508 | Counters only grow: a pair refused at offer time is also refused on the final counters. |
| GeneradorBarabasiAlbert.FinBA | Untitled2.py:493-508 | After the last row every pair of nodes is stored, or was refused at offer time and so also on the final counters. |
| GeneradorBarabasiAlbert.EnlazarBA | Untitled2.py:505-508 | An admitted draw (both ends below d, draw <= 1 - deg(v)/d) attempts the link. Either exactly (nodo, v) is added, which was not stored before, and v's counter before the update is recorded; or the keys, counters and records are unchanged. The link is stored afterwards either way. Counters stay exact and within d and never decrease, the admission records stay exact, and every pair offered up to and including (nodo, v) is stored or was refused at offer time. |
| GeneradorBarabasiAlbert.OfrecerBA | Untitled2.py:499-508 | One pass of the inner loop when the source is not full, in the source's order: a full target and a forbidden self-loop are passed over, and otherwise the draw decides whether the link is attempted. The keys are unchanged or gain exactly (nodo, v). Afterwards (nodo, v) is stored or was refused at offer time. Only keys from `nodo` are added, and counters and admission records stay exact. |
| GeneradorBarabasiAlbert.FilaBA | Untitled2.py:495-508 | The inner loop for one node, with its `break`. Keys are only added, and every added key starts at `nodo`. Counters stay exact and within d, keys stay in range with no self-loop unless allowed, and the admission records stay exact. Every pair (nodo, v) ends up stored or was refused at offer time. |
| GeneradorBarabasiAlbert.NodosBA | Untitled2.py:489-491 | The node loop adds nodes 0 .. n-1, each with counter 0, and no edge. |
| GeneradorBarabasiAlbert.GrafoBarabasiAlbert | Untitled2.py:471-510 | n nodes. Each final counter is the number of stored keys touching its node, and no node has more than d. No self-loops unless allowed. Every stored key (a, b) was admitted by the rule of line 505 at the moment it was offered: `umbral[(a, b)]` is b's number of incident keys among the keys stored before (a, b), it and a's such number are below d, and the draw of (a, b) is at most 1 - umbral/d. Every pair (a, b) of nodes not stored was refused when it was offered, judged on the keys stored before it in the row-by-row order: a or b had d incident keys, it is a forbidden self-loop, its draw exceeds 1 - deg(b)/d with that degree, or the graph is undirected and (b, a) was already stored. It is then also refused on the final counters. |
| GeneradorDorogovtsevMendes.ClavesSemilla | Untitled2.py:533-535 | The seed sweep stores exactly the triangle on 0, 1, 2: 3 keys undirected, all 6 ordered pairs directed. |
| GeneradorDorogovtsevMendes.SemillaDM | Untitled2.py:531-535 | The seed creates nodes 0, 1, 2 and exactly the triangle's keys. |
| GeneradorDorogovtsevMendes.UnirExtremo | Untitled2.py:541 | Linking the fresh node to an older node always stores a new key. |
| GeneradorDorogovtsevMendes.UnirNodoClaves | Untitled2.py:539-542 | Neither link of a fresh node is already stored when it is made. Afterwards, every key still joins distinct nodes. |
| GeneradorDorogovtsevMendes.UnirNodo | Untitled2.py:541-542 | The fresh node joined to both ends of the chosen key adds exactly two keys. |
| GeneradorDorogovtsevMendes.EleccionesTras | Untitled2.py:540-542 | Earlier choices stay recorded as keys are only added, and the new choice is recorded after them. |
| GeneradorDorogovtsevMendes.CrecerDM | Untitled2.py:538-542 | One growth step adds a node and two edges, and keeps the triangle, distinct endpoints below the node count and the record of choices. |
| GeneradorDorogovtsevMendes.GrafoDorogovtsevMendes | Untitled2.py:513-544 | n nodes and no self-loops. The triangle is kept. There are 2n - 3 edges undirected and 2n directed. Node x >= 3 is joined to both ends of the stored key it chose, whose endpoints are older nodes. |
| GeneradorMalla.AdyacentesSimetrica | Untitled2.py:334-344 | Grid adjacency is symmetric. |
| GeneradorMalla.EnlaceMallaForma | Untitled2.py:322-357 | Every grid link joins distinct nodes in range, either horizontal neighbours (ids differ by 1, same row) or vertical neighbours (ids differ by m, same column). |
| GeneradorMalla.IntentoMalla | Untitled2.py:189-193 | In the grid, the duplicate test refuses a neighbour exactly when the link is not one the finished grid stores from that node. The grid then stores it from the lower-numbered end when undirected, and from both ends when directed. |
| GeneradorMalla.CierreMalla | Untitled2.py:322-357 | Once a node has tried all its neighbours, the stored keys are those of all nodes up to and including it. |
| GeneradorMalla.CardSalidas | Untitled2.py:336-344 | The keys a node stores are as many as its count of stored neighbour links: its four neighbours give four distinct keys. |
| GeneradorMalla.CardClavesMalla | Untitled2.py:322-357 | The number of keys stored from nodes below k is the running sum of per-node counts. |
| GeneradorMalla.PosicionFila | Untitled2.py:335 | Node row * m + col is in column col and in range. It has a node below unless it is in the last row, and a node above unless it is in the first row. |
| GeneradorMalla.FilaEntera | Untitled2.py:326-329 | A whole row stores m - 1 horizontal links and, above the last row, m vertical ones. A directed grid stores as many again leftward, and upward below the first row. |
| GeneradorMalla.CuentaFila | Untitled2.py:326-329 | The per-node count over a prefix of a row equals the row formula. |
| GeneradorMalla.CuentaFilas | Untitled2.py:322-357 | The count up to the start of row q is the sum of the whole-row counts. |
| GeneradorMalla.SumaFilas | Untitled2.py:322-344 | The rows before the last store 2m - 1 keys each undirected; directed, twice that minus m. |
| GeneradorMalla.CuentaMallaTotal | Untitled2.py:322-357 | An undirected m-by-n grid stores 2mn - m - n keys; a directed one twice as many. |
| GeneradorMalla.ConectarMalla | Untitled2.py:324 | One `add_arista` from a node to a neighbour stores exactly the grid keys with that neighbour done. |
| GeneradorMalla.MallaNodo2 | Untitled2.py:324-325 | A corner node's two calls leave exactly the grid keys of nodes up to it. |
| GeneradorMalla.MallaNodo3 | Untitled2.py:326-329 | An edge node's three calls leave exactly the grid keys of nodes up to it. |
| GeneradorMalla.MallaNodo4 | Untitled2.py:336-344 | An interior node's four calls leave exactly the grid keys of nodes up to it. |
| GeneradorMalla.MallaPrimeraFila | Untitled2.py:322-331 | The first row's calls leave exactly the grid keys of row 0. |
| GeneradorMalla.MallaFilasInteriores | Untitled2.py:333-344 | The interior rows' calls, with their column cases, leave exactly the grid keys of all rows before the last. |
| GeneradorMalla.MallaUltimaFila | Untitled2.py:346-357 | The last row's calls leave exactly the keys of the whole grid. |
| GeneradorMalla.PropiedadesMalla | Untitled2.py:322-357 | The finished grid's keys are exactly the grid links, each between distinct nodes in range, and their number is 2mn - m - n (twice that directed). |
| GeneradorMalla.GrafoMalla | Untitled2.py:300-359 | m * n nodes. An edge is stored exactly when it is a grid link (see `EnlaceMallaForma`). There are no self-loops and no endpoints outside the grid. There are 2mn - m - n edges undirected and 2(2mn - m - n) directed. |

## Left out

- The graph's `to_graphviz` export, the `main` driver, the `__repr__` methods, the graph id strings (including `int(p*100)`), and the unused `attrs`/`attr` dictionaries. These are I/O and rendering, and no construction step reads them.
- Rejected parameters print to standard error and exit. They are preconditions here.
- The probability distributions of `random.random`, `randrange` and `choice`. Every draw is a parameter, and nothing is claimed about how likely an edge is.
- Floating point:
  - Geographic coordinates are the rounded values, as integer thousandths. The distance test and the Barabási–Albert threshold `1 - deg/d` are computed exactly in reals, not in binary floating point.
- The Erdős–Rényi retry loop:
  - GeneradorErdosRenyi.GrafoErdosRenyi: the original's retry loop is unbounded. The model consumes a finite sequence of draws, and when they run out it stops with `completo` false instead of looping on. So "m edges on return" holds only when `completo` is true.
  - The original also never stops when m exceeds the number of links that can be drawn. One example is n = 1 and m = 1 without self-loops. The model reports this the same way, as an incomplete run.
- Dorogovtsev–Mendes: the `def` line of `grafoDorogovtsevMendes` is commented out at Untitled2.py:512. Lines 513-544 are modelled as the body of `grafoDorogovtsevMendes(n, dirigido=False)`.
- GeneradorBarabasiAlbert.GrafoBarabasiAlbert: admission and refusal are both stated at offer time, on the keys stored before each pair. No separate lemma proves that these conditions admit only one key set, and no closed-form function computes it.
- Dict iteration order: Python iterates `V` in insertion order, 0 .. n-1. The loops here iterate the ids in that order directly.

## Findings

| source | as written | input that shows it | evidently intended | confidence | as-written member | corrected member |
|---|---|---|---|---|---|---|
| Untitled2.py:374 | `grafoErdosRenyi` creates its graph without passing `dirigido`, so the graph is always undirected. Each pair can then be stored in only one orientation. | n = 2, m = 2, dirigido = True, auto = False. At most one of (0, 1), (1, 0) is ever accepted, so the retry loop never ends. | The graph is created with `dirigido=dirigido`, as every other generator does. The same request then completes from the draws (0, 1), (1, 0). | not executed | GeneradorErdosRenyi.DosNodosNoDirigido | GeneradorErdosRenyi.GrafoErdosRenyiCorregido |
