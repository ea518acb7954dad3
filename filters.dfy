/**
 * The graph transforms of the evolution viewer: keeping the edges among a
 * set of players, keeping the edges of at least a given weight, and keeping
 * the best-connected vertices. Each builds a fresh map and drops the
 * vertices whose row ends up empty.
 */
module Filters {
  import opened Graphs
  import opened Collections

  // ------------------------------------------------------------- players

  /** The entries of a row whose neighbour is one of the players. */
  function RowAmong(row: map<string, int>, players: set<string>): map<string, int>
  {
    map b | b in row && b in players :: row[b]
  }

  /** The rows filterByPlayers has kept once it has gone through the players of done. */
  function AmongOver(g: Graph, players: set<string>, done: set<string>): Graph
  {
    map a | a in done && a in g && RowAmong(g[a], players) != map[] :: RowAmong(g[a], players)
  }

  /** What filterByPlayers returns. */
  function PlayersFiltered(g: Graph, players: set<string>): Graph
  {
    AmongOver(g, players, players)
  }

  lemma AmongOverStep(g: Graph, players: set<string>, done: set<string>, a: string)
    ensures AmongOver(g, players, done + {a})
            == if a in g && RowAmong(g[a], players) != map[]
               then AmongOver(g, players, done)[a := RowAmong(g[a], players)]
               else AmongOver(g, players, done)
  {
  }

  /** The inner loop of filterByPlayers: the entries of one row leading to a player. */
  method KeepAmong(row: map<string, int>, players: set<string>) returns (edges: map<string, int>)
    ensures edges == RowAmong(row, players)
  {
    edges := map[];
    var rest := row.Keys;
    while rest != {}
      invariant rest <= row.Keys
      invariant edges == map b | b in row.Keys - rest && b in players :: row[b]
      decreases rest
    {
      var b := Choose(rest);
      if b in players {
        edges := edges[b := row[b]];
      }
      rest := rest - {b};
    }
  }

  /** filterByPlayers: for each player the graph knows, the entries leading
      to other players; a player left without any is dropped. */
  method FilterByPlayers(g: Graph, players: set<string>) returns (filtered: Graph)
    ensures filtered == PlayersFiltered(g, players)
  {
    filtered := map[];
    var rest := players;
    while rest != {}
      invariant rest <= players
      invariant filtered == AmongOver(g, players, players - rest)
      decreases rest
    {
      var player := Choose(rest);
      if player in g {
        var edges := KeepAmong(g[player], players);
        if edges != map[] {
          filtered := filtered[player := edges];
        }
      }
      AmongOverStep(g, players, players - rest, player);
      assert players - (rest - {player}) == (players - rest) + {player};
      rest := rest - {player};
    }
    assert players - rest == players;
  }

  /** The filtered graph has exactly the entries of g between two players,
      with their weights, and a vertex exactly when it keeps an entry. */
  lemma PlayersFilteredEdges(g: Graph, players: set<string>, a: string, b: string)
    ensures Edge(PlayersFiltered(g, players), a, b) <==> Edge(g, a, b) && a in players && b in players
    ensures Edge(PlayersFiltered(g, players), a, b) ==> PlayersFiltered(g, players)[a][b] == g[a][b]
    ensures a in PlayersFiltered(g, players) <==>
              a in players && a in g && exists c :: c in g[a] && c in players
  {
    var f := PlayersFiltered(g, players);
    if a in players && a in g && exists c :: c in g[a] && c in players {
      var c :| c in g[a] && c in players;
      assert c in RowAmong(g[a], players);
    }
  }

  /** Keeping the same players twice keeps what keeping them once does. */
  lemma PlayersFilteredIdempotent(g: Graph, players: set<string>)
    ensures PlayersFiltered(PlayersFiltered(g, players), players) == PlayersFiltered(g, players)
  {
    var f := PlayersFiltered(g, players);
    var ff := PlayersFiltered(f, players);
    forall a | a in f ensures a in ff && ff[a] == f[a] {
      assert RowAmong(f[a], players) == f[a];
    }
  }

  /** The filter keeps the mirror of every entry it keeps. */
  lemma PlayersFilteredSymmetric(g: Graph, players: set<string>)
    requires Symmetric(g)
    ensures Symmetric(PlayersFiltered(g, players))
  {
    var f := PlayersFiltered(g, players);
    forall a, b | Edge(f, a, b) ensures Edge(f, b, a) && f[b][a] == f[a][b] {
      PlayersFilteredEdges(g, players, a, b);
      assert Edge(g, b, a);
      PlayersFilteredEdges(g, players, b, a);
    }
  }

  /** No vertex of the filtered graph lies outside the players. */
  lemma PlayersFilteredKeys(g: Graph, players: set<string>)
    ensures PlayersFiltered(g, players).Keys <= players
    ensures |PlayersFiltered(g, players)| <= |players|
  {
    var k := PlayersFiltered(g, players).Keys;
    SubsetCard(k, players);
  }

  // -------------------------------------------------------------- weight

  /** The entries of a row of weight at least w. */
  function RowAtLeast(row: map<string, int>, w: int): map<string, int>
  {
    map b | b in row && row[b] >= w :: row[b]
  }

  /** The rows filterByMinWeight has kept once it has gone through the vertices of done. */
  function HeavyOver(g: Graph, w: int, done: set<string>): Graph
  {
    map a | a in done && a in g && RowAtLeast(g[a], w) != map[] :: RowAtLeast(g[a], w)
  }

  /** What filterByMinWeight returns. */
  function WeightFiltered(g: Graph, w: int): Graph
  {
    HeavyOver(g, w, g.Keys)
  }

  lemma HeavyOverStep(g: Graph, w: int, done: set<string>, a: string)
    requires a in g
    ensures HeavyOver(g, w, done + {a})
            == if RowAtLeast(g[a], w) != map[] then HeavyOver(g, w, done)[a := RowAtLeast(g[a], w)]
               else HeavyOver(g, w, done)
  {
  }

  /** The inner loop of filterByMinWeight over one row. */
  method KeepAtLeast(row: map<string, int>, minW: int) returns (edges: map<string, int>)
    ensures edges == RowAtLeast(row, minW)
  {
    edges := map[];
    var rest := row.Keys;
    while rest != {}
      invariant rest <= row.Keys
      invariant edges == map b | b in row.Keys - rest && row[b] >= minW :: row[b]
      decreases rest
    {
      var b := Choose(rest);
      if row[b] >= minW {
        edges := edges[b := row[b]];
      }
      rest := rest - {b};
    }
  }

  /** filterByMinWeight: every row cut down to its entries of weight at
      least minW; a row left empty is dropped. */
  method FilterByMinWeight(g: Graph, minW: int) returns (filtered: Graph)
    ensures filtered == WeightFiltered(g, minW)
  {
    filtered := map[];
    var rest := g.Keys;
    while rest != {}
      invariant rest <= g.Keys
      invariant filtered == HeavyOver(g, minW, g.Keys - rest)
      decreases rest
    {
      var a := Choose(rest);
      var edges := KeepAtLeast(g[a], minW);
      if edges != map[] {
        filtered := filtered[a := edges];
      }
      HeavyOverStep(g, minW, g.Keys - rest, a);
      assert g.Keys - (rest - {a}) == (g.Keys - rest) + {a};
      rest := rest - {a};
    }
    assert g.Keys - rest == g.Keys;
  }

  /** The filtered graph has exactly the entries of g of weight at least w,
      with their weights, and a vertex exactly when it keeps an entry. */
  lemma WeightFilteredEdges(g: Graph, w: int, a: string, b: string)
    ensures Edge(WeightFiltered(g, w), a, b) <==> Edge(g, a, b) && g[a][b] >= w
    ensures Edge(WeightFiltered(g, w), a, b) ==> WeightFiltered(g, w)[a][b] == g[a][b]
    ensures a in WeightFiltered(g, w) <==> a in g && exists c :: c in g[a] && g[a][c] >= w
  {
    if a in g && exists c :: c in g[a] && g[a][c] >= w {
      var c :| c in g[a] && g[a][c] >= w;
      assert c in RowAtLeast(g[a], w);
    }
  }

  lemma WeightFilteredIdempotent(g: Graph, w: int)
    ensures WeightFiltered(WeightFiltered(g, w), w) == WeightFiltered(g, w)
  {
    var f := WeightFiltered(g, w);
    var ff := WeightFiltered(f, w);
    forall a | a in f ensures a in ff && ff[a] == f[a] {
      assert RowAtLeast(f[a], w) == f[a];
    }
  }

  lemma WeightFilteredSymmetric(g: Graph, w: int)
    requires Symmetric(g)
    ensures Symmetric(WeightFiltered(g, w))
  {
    var f := WeightFiltered(g, w);
    forall a, b | Edge(f, a, b) ensures Edge(f, b, a) && f[b][a] == f[a][b] {
      WeightFilteredEdges(g, w, a, b);
      assert Edge(g, b, a);
      WeightFilteredEdges(g, w, b, a);
    }
  }

  /** With weights of at least 1 and no empty rows, threshold 1 changes
      nothing: the viewer's skipping the filter at minWeight 1 loses nothing. */
  lemma WeightFilteredOne(g: Graph)
    requires Positive(g) && NoEmptyRows(g)
    ensures WeightFiltered(g, 1) == g
  {
    var f := WeightFiltered(g, 1);
    forall a | a in g ensures a in f && f[a] == g[a] {
      var b :| b in g[a];
      assert Edge(g, a, b);
      assert b in RowAtLeast(g[a], 1);
      assert RowAtLeast(g[a], 1) == g[a];
    }
  }

  /** Neither filter leaves an empty row. */
  lemma FilteredNoEmptyRows(g: Graph, players: set<string>, w: int)
    ensures NoEmptyRows(PlayersFiltered(g, players))
    ensures NoEmptyRows(WeightFiltered(g, w))
  {
  }

  // ----------------------------------------------------------------- top

  function Min(a: int, b: int): int { if a < b then a else b }

  /** top holds min(maxN, |g|) of g's vertices, and none left out has a
      larger degree than one kept: what sorting by degree, descending, and
      keeping the first maxN selects, whichever way ties fall. */
  predicate TopCut(g: Graph, maxN: int, top: set<string>)
  {
    && top <= g.Keys
    && |top| == Min(maxN, |g|)
    && forall v, u | v in top && u in g.Keys - top :: |g[u]| <= |g[v]|
  }

  /** A vertex of largest degree among the candidates. */
  method MaxDegreeIn(g: Graph, candidates: set<string>) returns (v: string)
    requires candidates != {} && candidates <= g.Keys
    ensures v in candidates && forall u | u in candidates :: |g[u]| <= |g[v]|
  {
    v := Choose(candidates);
    var rest := candidates - {v};
    while rest != {}
      invariant rest <= candidates && v in candidates
      invariant forall u | u in candidates - rest :: |g[u]| <= |g[v]|
      decreases rest
    {
      var u := Choose(rest);
      if |g[u]| > |g[v]| {
        v := u;
      }
      rest := rest - {u};
    }
  }

  /** The players the sorted, limited stream selects. */
  method SelectTop(g: Graph, maxN: int) returns (top: set<string>)
    requires maxN >= 0
    ensures TopCut(g, maxN, top)
  {
    top := {};
    var rest := g.Keys;
    while |top| < maxN && rest != {}
      invariant top + rest == g.Keys && top * rest == {}
      invariant |top| <= maxN && |top| + |rest| == |g|
      invariant forall v, u | v in top && u in rest :: |g[u]| <= |g[v]|
      decreases rest
    {
      var v := MaxDegreeIn(g, rest);
      top := top + {v};
      rest := rest - {v};
    }
    assert g.Keys - top == rest;
  }

  /** When maxN reaches the vertex count, the cut takes every vertex. */
  lemma TopCutAll(g: Graph, maxN: int, top: set<string>)
    requires TopCut(g, maxN, top) && maxN >= |g|
    ensures top == g.Keys
  {
    if top != g.Keys {
      var x :| x in g.Keys - top;
      SubsetCard(top, g.Keys - {x});
    }
  }

  /** A row whose targets are all players is kept whole. */
  lemma RowAmongAll(row: map<string, int>, players: set<string>)
    requires row.Keys <= players
    ensures RowAmong(row, players) == row
  {
  }

  /** Every target of an entry is itself a vertex. */
  predicate ClosedRows(g: Graph)
  {
    forall a | a in g :: g[a].Keys <= g.Keys
  }

  /** A symmetric graph has closed rows: each target has the mirror entry. */
  lemma SymmetricClosed(g: Graph)
    requires Symmetric(g)
    ensures ClosedRows(g)
  {
    forall a, b | a in g && b in g[a] ensures b in g {
      assert Edge(g, a, b);
    }
  }

  /** Keeping a set of players that holds every vertex and every target
      keeps each non-empty row as it is. */
  lemma RowsAllKept(g: Graph, players: set<string>)
    requires forall a | a in g :: a in players && g[a].Keys <= players && |g[a]| > 0
    ensures forall a | a in g :: a in PlayersFiltered(g, players) && PlayersFiltered(g, players)[a] == g[a]
  {
    forall a | a in g ensures a in PlayersFiltered(g, players) && PlayersFiltered(g, players)[a] == g[a] {
      RowAmongAll(g[a], players);
      assert g[a] != map[] by { assert |g[a]| > 0; }
    }
  }

  /** On a graph with closed rows and no empty row, keeping all its
      vertices keeps the whole graph. */
  lemma PlayersFilteredAll(g: Graph)
    requires ClosedRows(g) && NoEmptyRows(g)
    ensures PlayersFiltered(g, g.Keys) == g
  {
    var players := g.Keys;
    RowsAllKept(g, players);
    PlayersFilteredKeys(g, players);
    SameGraph(PlayersFiltered(g, players), g);
  }

  /** Two graphs with the same vertices and the same rows are equal. */
  lemma SameGraph(f: Graph, g: Graph)
    requires forall a | a in f :: a in g
    requires forall a | a in g :: a in f && f[a] == g[a]
    ensures f == g
  {
  }

  /** With room for every vertex, the top-maxN subgraph of a symmetric
      graph without empty rows is the graph itself. */
  lemma TopAll(g: Graph, maxN: int, top: set<string>)
    requires TopCut(g, maxN, top) && maxN >= |g|
    requires Symmetric(g) && NoEmptyRows(g)
    ensures PlayersFiltered(g, top) == g
  {
    TopCutAll(g, maxN, top);
    SymmetricClosed(g);
    PlayersFilteredAll(g);
  }

  /** limited is the subgraph among some top-maxN cut of g's vertices. */
  ghost predicate TopSubgraph(g: Graph, maxN: int, limited: Graph)
  {
    exists top :: TopCut(g, maxN, top) && limited == PlayersFiltered(g, top)
  }

  /** limitToTopNodes: the subgraph among the maxN best-connected vertices. */
  method LimitToTopNodes(g: Graph, maxN: int) returns (limited: Graph)
    requires maxN >= 0
    ensures TopSubgraph(g, maxN, limited)
    ensures |limited| <= maxN
    ensures maxN >= |g| && Symmetric(g) && NoEmptyRows(g) ==> limited == g
  {
    var top := SelectTop(g, maxN);
    limited := FilterByPlayers(g, top);
    PlayersFilteredKeys(g, top);
    assert TopSubgraph(g, maxN, limited);
    if maxN >= |g| && Symmetric(g) && NoEmptyRows(g) {
      TopAll(g, maxN, top);
    }
  }
}
