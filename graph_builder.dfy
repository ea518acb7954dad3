/**
 * The original, season-blind co-play graph: every roster file adds one to
 * the weight between each two of its players, in both directions, and
 * registers players it has not seen with a placeholder record.
 */
module CoPlay {
  import opened Wrappers
  import opened JavaStrings
  import opened Players
  import opened EdgeKeys
  import opened Graphs
  import opened Collections
  import opened Temporal
  import opened Rows

  // ---------------------------------------------------------------- rows

  /** The name a row contributes: the second comma-separated part, trimmed,
      or None when the row has fewer than two parts or that part is blank. */
  function BasicRowName(line: string): (r: Option<string>)
    ensures r.Some? ==> r.value != "" && IsTrimmed(r.value)
  {
    var parts := Split(line, ",");
    if |parts| < 2 then None
    else
      var name := Trim(parts[1]);
      if name == "" then None else Some(name)
  }

  /** The per-row results, in file order. */
  function BasicRowNames(rows: seq<string>): (r: seq<Option<string>>)
    ensures |r| == |rows|
  {
    if |rows| == 0 then [] else BasicRowNames(rows[..|rows| - 1]) + [BasicRowName(rows[|rows| - 1])]
  }

  /** The names among the results, in order, repeats kept. */
  function Present(ns: seq<Option<string>>): seq<string>
  {
    if |ns| == 0 then []
    else
      var init := Present(ns[..|ns| - 1]);
      match ns[|ns| - 1]
      case None => init
      case Some(name) => init + [name]
  }

  /** The list of names the row loop builds. */
  function RowNameList(rows: seq<string>): seq<string> { Present(BasicRowNames(rows)) }

  /** The record registered for a player first seen by this builder. */
  function BasicPlayer(name: string): Player
  {
    Player(-1, name, "N/A", "N/A", -1, "N/A", "N/A", "N/A", "N/A", "N/A", "N/A", "N/A")
  }

  /** putIfAbsent of a placeholder record for each name, in order. */
  function RegisterAbsent(players: map<string, Player>, names: seq<string>): map<string, Player>
  {
    if |names| == 0 then players
    else
      var init := RegisterAbsent(players, names[..|names| - 1]);
      var name := names[|names| - 1];
      if name in init then init else init[name := BasicPlayer(name)]
  }

  /** The first record registered for a player stays: a known player keeps
      its record, and a new one gets the placeholder. */
  lemma {:induction false} FirstWriteWins(players: map<string, Player>, names: seq<string>, x: string)
    ensures x in RegisterAbsent(players, names) <==> x in players || x in names
    ensures x in players ==> RegisterAbsent(players, names)[x] == players[x]
    ensures x !in players && x in names ==> RegisterAbsent(players, names)[x] == BasicPlayer(x)
  {
    if |names| > 0 {
      var init := names[..|names| - 1];
      FirstWriteWins(players, init, x);
      assert names == init + [names[|names| - 1]];
      assert x in names <==> x in init || x == names[|names| - 1];
    }
  }

  lemma {:induction false} BasicRowNamesAt(rows: seq<string>, i: int)
    requires 0 <= i < |rows|
    ensures BasicRowNames(rows)[i] == BasicRowName(rows[i])
  {
    if i < |rows| - 1 {
      BasicRowNamesAt(rows[..|rows| - 1], i);
    }
  }

  lemma {:induction false} PresentMembers(ns: seq<Option<string>>, x: string)
    ensures x in Present(ns) <==> exists i :: 0 <= i < |ns| && ns[i] == Some(x)
  {
    if |ns| > 0 {
      var init := ns[..|ns| - 1];
      PresentMembers(init, x);
      if exists i :: 0 <= i < |init| && init[i] == Some(x) {
        var i :| 0 <= i < |init| && init[i] == Some(x);
        assert ns[i] == init[i];
      }
      if exists i :: 0 <= i < |ns| && ns[i] == Some(x) {
        var i :| 0 <= i < |ns| && ns[i] == Some(x);
        if i < |init| { assert init[i] == ns[i]; }
      }
    }
  }

  /** A name is on the list exactly when some row gives it. */
  lemma RowNameListMembers(rows: seq<string>, x: string)
    ensures x in RowNameList(rows) <==> exists i :: 0 <= i < |rows| && BasicRowName(rows[i]) == Some(x)
  {
    PresentMembers(BasicRowNames(rows), x);
    forall i | 0 <= i < |rows| ensures BasicRowNames(rows)[i] == BasicRowName(rows[i]) {
      BasicRowNamesAt(rows, i);
    }
  }

  lemma RowNameListSnoc(rows: seq<string>, line: string)
    ensures RowNameList(rows + [line])
            == RowNameList(rows) + (if BasicRowName(line).Some? then [BasicRowName(line).value] else [])
  {
    var r := rows + [line];
    assert r[..|r| - 1] == rows;
    var ns := BasicRowNames(r);
    assert ns[..|ns| - 1] == BasicRowNames(rows);
  }

  lemma RegisterAbsentSnoc(players: map<string, Player>, names: seq<string>, name: string)
    ensures RegisterAbsent(players, names + [name])
            == var p := RegisterAbsent(players, names); if name in p then p else p[name := BasicPlayer(name)]
  {
    var r := names + [name];
    assert r[..|r| - 1] == names;
  }

  // --------------------------------------------------------------- edges

  /** addEdge: computeIfAbsent(a).merge(b, 1, sum), one more for a -> b. */
  function WithEdge(g: Graph, a: string, b: string): Graph
  {
    Put(g, a, b, W(g, a, b) + 1)
  }

  /** The two addEdge calls the pair loop makes for one pair. */
  function WithPair(g: Graph, a: string, b: string): Graph
  {
    WithEdge(WithEdge(g, a, b), b, a)
  }

  /** The graph after WithPair for each pair of ks, in order. */
  function WithPairs(g: Graph, ks: seq<EdgePair>): Graph
  {
    if |ks| == 0 then g else WithPair(WithPairs(g, ks[..|ks| - 1]), ks[|ks| - 1].0, ks[|ks| - 1].1)
  }

  /** addEdge adds one to a -> b, creating it at 1, and changes no other entry. */
  lemma WithEdgeWeights(g: Graph, a: string, b: string, x: string, y: string)
    ensures Edge(WithEdge(g, a, b), x, y) <==> Edge(g, x, y) || (x, y) == (a, b)
    ensures W(WithEdge(g, a, b), x, y) == W(g, x, y) + (if (x, y) == (a, b) then 1 else 0)
    ensures WithEdge(g, a, b).Keys == g.Keys + {a}
  {
  }

  /** One pair adds one to each of its two directions (two to a self-loop). */
  lemma WithPairWeights(g: Graph, a: string, b: string, x: string, y: string)
    ensures Edge(WithPair(g, a, b), x, y) <==> Edge(g, x, y) || (x, y) == (a, b) || (x, y) == (b, a)
    ensures W(WithPair(g, a, b), x, y)
            == W(g, x, y) + (if (x, y) == (a, b) then 1 else 0) + (if (x, y) == (b, a) then 1 else 0)
  {
    WithEdgeWeights(g, a, b, x, y);
    WithEdgeWeights(WithEdge(g, a, b), b, a, x, y);
  }

  /** Which of the two addEdge calls comes first does not matter. */
  lemma WithPairSwap(g: Graph, a: string, b: string)
    ensures WithPair(g, a, b) == WithPair(g, b, a)
  {
    var g1, g2 := WithPair(g, a, b), WithPair(g, b, a);
    forall x, y ensures (Edge(g1, x, y) <==> Edge(g2, x, y)) && W(g1, x, y) == W(g2, x, y) {
      WithPairWeights(g, a, b, x, y);
      WithPairWeights(g, b, a, x, y);
    }
    WithEdgeWeights(g, a, b, a, a);
    WithEdgeWeights(WithEdge(g, a, b), b, a, a, a);
    WithEdgeWeights(g, b, a, a, a);
    WithEdgeWeights(WithEdge(g, b, a), a, b, a, a);
    assert g1.Keys == g2.Keys;
    GraphExt(g1, g2);
  }

  lemma WithPairsSnoc(g: Graph, ks: seq<EdgePair>, k: EdgePair)
    ensures WithPairs(g, ks + [k]) == WithPair(WithPairs(g, ks), k.0, k.1)
  {
    var r := ks + [k];
    assert r[..|r| - 1] == ks;
  }

  /** Adding the canonical pair of a and b is adding a and b, either way round. */
  lemma WithPairsCanonSnoc(g: Graph, ks: seq<EdgePair>, a: string, b: string)
    ensures WithPairs(g, ks + [Canon(a, b)]) == WithPair(WithPairs(g, ks), a, b)
  {
    WithPairsSnoc(g, ks, Canon(a, b));
    WithPairSwap(WithPairs(g, ks), a, b);
  }

  /** Adding two runs of pairs is adding the first, then the second. */
  lemma {:induction false} WithPairsAppend(g: Graph, ks: seq<EdgePair>, ls: seq<EdgePair>)
    ensures WithPairs(g, ks + ls) == WithPairs(WithPairs(g, ks), ls)
    decreases |ls|
  {
    if |ls| == 0 {
      assert ks + ls == ks;
    } else {
      var init, last := ls[..|ls| - 1], ls[|ls| - 1];
      WithPairsAppend(g, ks, init);
      assert ks + ls == (ks + init) + [last];
      WithPairsSnoc(g, ks + init, last);
    }
  }

  /** One step of the inner pair loop: the two addEdge calls for
      list[i] and list[j] add the next pair of the walk. */
  lemma RowWalkStep(g0: Graph, list: seq<string>, i: int, j: int, next: int, prev: Graph, mid: Graph, g: Graph)
    requires 0 <= i < j < |list| && next == j + 1
    requires prev == WithPairs(g0, RowWalk(list, i, j))
    requires mid == WithEdge(prev, list[i], list[j]) && g == WithEdge(mid, list[j], list[i])
    ensures g == WithPairs(g0, RowWalk(list, i, next))
  {
    WithPairsCanonSnoc(g0, RowWalk(list, i, j), list[i], list[j]);
    assert RowWalk(list, i, j + 1) == RowWalk(list, i, j) + [Canon(list[i], list[j])];
  }

  /** One step of the outer pair loop: the inner loop for list[i] adds the
      next row of the walk. */
  lemma RowsWalkStep(g0: Graph, list: seq<string>, i: int, next: int, prev: Graph, g: Graph)
    requires 0 <= i < |list| && next == i + 1
    requires prev == WithPairs(g0, RowsWalk(list, i))
    requires g == WithPairs(prev, RowWalk(list, i, |list|))
    ensures g == WithPairs(g0, RowsWalk(list, next))
  {
    WithPairsAppend(g0, RowsWalk(list, i), RowWalk(list, i, |list|));
    assert RowsWalk(list, i + 1) == RowsWalk(list, i) + RowWalk(list, i, |list|);
  }

  /** WithPair keeps the map symmetric. */
  lemma WithPairSymmetric(g: Graph, a: string, b: string)
    requires Symmetric(g)
    ensures Symmetric(WithPair(g, a, b))
  {
    var h := WithPair(g, a, b);
    forall x, y | Edge(h, x, y) ensures Edge(h, y, x) && h[y][x] == h[x][y] {
      WithPairWeights(g, a, b, x, y);
      WithPairWeights(g, a, b, y, x);
    }
  }

  /** However many pairs are added, the adjacency map stays symmetric. */
  lemma {:induction false} WithPairsSymmetric(g: Graph, ks: seq<EdgePair>)
    requires Symmetric(g)
    ensures Symmetric(WithPairs(g, ks))
  {
    if |ks| > 0 {
      WithPairsSymmetric(g, ks[..|ks| - 1]);
      WithPairSymmetric(WithPairs(g, ks[..|ks| - 1]), ks[|ks| - 1].0, ks[|ks| - 1].1);
    }
  }

  /** How many times the pairs of ks reach x -> y, either way round. */
  function Hits(ks: seq<EdgePair>, x: string, y: string): nat
  {
    if |ks| == 0 then 0
    else
      var k := ks[|ks| - 1];
      Hits(ks[..|ks| - 1], x, y) + (if k == (x, y) then 1 else 0) + (if k == (y, x) then 1 else 0)
  }

  /** Each weight grows by the number of times the pairs reach it. */
  lemma {:induction false} WithPairsWeights(g: Graph, ks: seq<EdgePair>, x: string, y: string)
    ensures W(WithPairs(g, ks), x, y) == W(g, x, y) + Hits(ks, x, y)
    ensures Edge(WithPairs(g, ks), x, y) <==> Edge(g, x, y) || Hits(ks, x, y) > 0
  {
    if |ks| > 0 {
      var init, k := ks[..|ks| - 1], ks[|ks| - 1];
      WithPairsWeights(g, init, x, y);
      WithPairWeights(WithPairs(g, init), k.0, k.1, x, y);
    }
  }

  /** An ordered pair reaches two different names, either way round,
      exactly when it is their canonical pair. */
  lemma CanonHit(k: EdgePair, x: string, y: string)
    requires Less(k.0, k.1) && x != y
    ensures (k == (x, y) || k == (y, x)) <==> Canon(x, y) == k
  {
    CanonOfOrdered(k);
    CanonSymmetric(x, y);
  }

  /** Distinct pairs in strict order reach two different names at most once. */
  lemma {:induction false} HitsOfDistinct(ks: seq<EdgePair>, x: string, y: string)
    requires Distinct(ks) && forall k | k in ks :: Less(k.0, k.1)
    requires x != y
    ensures Hits(ks, x, y) == if Canon(x, y) in Elems(ks) then 1 else 0
  {
    if |ks| > 0 {
      var init, k := ks[..|ks| - 1], ks[|ks| - 1];
      assert ks == init + [k];
      assert Distinct(init) && forall q | q in init :: q in ks;
      HitsOfDistinct(init, x, y);
      ElemsSnoc(init, k);
      assert k !in init;
      assert k in ks;
      CanonHit(k, x, y);
      LessAsymmetric(k.0, k.1);
    }
  }

  /** A roster of distinct names adds exactly one to each direction of each
      of its pairs (n(n-1)/2 pairs by Temporal.PairsOfCard), and nothing
      elsewhere: in particular no self-loop. */
  lemma RosterPairsWeights(g: Graph, list: seq<string>, names: set<string>, x: string, y: string)
    requires Distinct(list) && forall z :: z in list <==> z in names
    ensures W(WithPairs(g, RowsWalk(list, |list|)), x, y)
            == W(g, x, y) + (if x in names && y in names && x != y then 1 else 0)
  {
    var w := RowsWalk(list, |list|);
    RowsWalkDistinct(list, |list|);
    DoneAll(list, names);
    assert Elems(w) == PairsOf(names);
    forall k | k in w ensures Less(k.0, k.1) {
      assert k in Elems(w);
    }
    WithPairsWeights(g, w, x, y);
    if x == y {
      assert Hits(w, x, y) == 0 by { NoSelfPairs(w, x); }
    } else {
      HitsOfDistinct(w, x, y);
      PairsOfMember(names, x, y);
    }
  }

  /** Pairs in strict order never reach a self-loop. */
  lemma {:induction false} NoSelfPairs(ks: seq<EdgePair>, x: string)
    requires forall k | k in ks :: Less(k.0, k.1)
    ensures Hits(ks, x, x) == 0
  {
    if |ks| > 0 {
      var init, k := ks[..|ks| - 1], ks[|ks| - 1];
      assert forall q | q in init :: q in ks;
      NoSelfPairs(init, x);
      assert k in ks;
      LessIrreflexive(k.0);
    }
  }

  /** A name listed twice in one file gives its player a self-loop of
      weight 2. */
  lemma RepeatedNameSelfLoop()
    ensures W(WithPairs(map[], RowsWalk(["A", "A"], 2)), "A", "A") == 2
  {
    var list := ["A", "A"];
    LessIrreflexive("A");
    assert RowWalk(list, 1, 2) == [];
    assert RowWalk(list, 0, 2) == [("A", "A")];
    assert RowsWalk(list, 2) == [("A", "A")];
    WithPairsWeights(map[], [("A", "A")], "A", "A");
    assert [("A", "A")][..0] == [];
  }

  // ------------------------------------------------------------- edge ids

  /** The "-" keys countEdges collects. */
  function EdgeIds(g: Graph): set<string>
  {
    set a, b | a in g && b in g[a] :: CreateEdgeId(a, b)
  }

  /** The keys of the entries leaving the vertices xs. */
  function IdsFrom(g: Graph, xs: set<string>): set<string>
  {
    set a, b | a in xs && a in g && b in g[a] :: CreateEdgeId(a, b)
  }

  /** The keys of the entries a -> b for b in bs. */
  function RowIds(g: Graph, a: string, bs: set<string>): set<string>
    requires a in g
  {
    set b | b in bs && b in g[a] :: CreateEdgeId(a, b)
  }

  lemma IdsFromStep(g: Graph, rest: set<string>, a: string)
    requires a in rest && rest <= g.Keys
    ensures IdsFrom(g, g.Keys - (rest - {a})) == IdsFrom(g, g.Keys - rest) + RowIds(g, a, g[a].Keys)
  {
    assert g.Keys - (rest - {a}) == (g.Keys - rest) + {a};
  }

  lemma RowIdsStep(g: Graph, a: string, row: set<string>, b: string)
    requires a in g && b in row && row <= g[a].Keys
    ensures RowIds(g, a, g[a].Keys - (row - {b})) == RowIds(g, a, g[a].Keys - row) + {CreateEdgeId(a, b)}
  {
    assert g[a].Keys - (row - {b}) == (g[a].Keys - row) + {b};
  }

  /** Two different pairs can share a "-" key: ("A-B", "C") and ("A", "B-C"). */
  lemma EdgeIdsUndercount()
    ensures var g: Graph := map["A-B" := map["C" := 1], "C" := map["A-B" := 1],
                                "A" := map["B-C" := 1], "B-C" := map["A" := 1]];
            |EdgeIds(g)| == 1 && |UndirectedPairs(g)| == 2
  {
    var g: Graph := map["A-B" := map["C" := 1], "C" := map["A-B" := 1],
                        "A" := map["B-C" := 1], "B-C" := map["A" := 1]];
    CreateEdgeIdCollides();
    CanonSymmetric("A-B", "C");
    CanonSymmetric("A", "B-C");
    assert CreateEdgeId("C", "A-B") == "A-B-C" && CreateEdgeId("B-C", "A") == "A-B-C";
    assert EdgeIds(g) == {"A-B-C"};
    assert UndirectedPairs(g) == {("A-B", "C"), ("A", "B-C")};
  }

  /** No name in the graph holds a '-'. */
  predicate DashFree(g: Graph)
  {
    forall a | a in g :: '-' !in a && forall b | b in g[a] :: '-' !in b
  }

  /** The names of each undirected pair are names of the graph's entries. */
  lemma UndirectedPairsNamed(g: Graph, k: EdgePair)
    requires DashFree(g) && k in UndirectedPairs(g)
    ensures '-' !in k.0 && '-' !in k.1
  {
    var a, b :| a in g && b in g[a] && k == Canon(a, b);
  }

  /** Without '-' in any name the keys and the pairs are as many. */
  lemma EdgeIdsExact(g: Graph)
    requires DashFree(g)
    ensures |EdgeIds(g)| == |UndirectedPairs(g)|
  {
    var ps := UndirectedPairs(g);
    forall k1, k2 | k1 in ps && k2 in ps && Joined(k1, "-") == Joined(k2, "-") ensures k1 == k2 {
      UndirectedPairsNamed(g, k1);
      UndirectedPairsNamed(g, k2);
      assert "-" == ['-'];
      JoinedInjective(k1, k2, '-');
    }
    assert EdgeIds(g) == set k | k in ps :: Joined(k, "-");
    InjectiveImageCard(ps);
  }

  lemma {:induction false} InjectiveImageCard(ps: set<EdgePair>)
    requires forall k1, k2 | k1 in ps && k2 in ps && Joined(k1, "-") == Joined(k2, "-") :: k1 == k2
    ensures |set k | k in ps :: Joined(k, "-")| == |ps|
    decreases |ps|
  {
    if ps != {} {
      var k := Pick(ps);
      var rest := ps - {k};
      InjectiveImageCard(rest);
      assert (set q | q in ps :: Joined(q, "-")) == (set q | q in rest :: Joined(q, "-")) + {Joined(k, "-")};
      assert Joined(k, "-") !in (set q | q in rest :: Joined(q, "-"));
    }
  }

  // ---------------------------------------------------------------- state

  /** The builder's player registry and weighted adjacency map. */
  class GraphBuilder {
    var players: map<string, Player>
    var edges: Graph

    constructor ()
      ensures players == map[] && edges == map[]
    {
      players, edges := map[], map[];
    }

    /** addEdge. */
    method AddEdge(a: string, b: string)
      modifies this`edges
      ensures edges == WithEdge(old(edges), a, b)
    {
      var row := if a in edges then edges[a] else map[];
      var w := if b in row then row[b] + 1 else 1;
      edges := edges[a := row[b := w]];
    }

    /** processTeamFile over the lines read before the reader stopped
        (readFailed: it stopped on an IOException). Players seen are
        registered even when the read fails; the pairs are added only after
        a complete read. */
    method ProcessTeamFile(lines: seq<string>, readFailed: bool)
      modifies this
      ensures players == RegisterAbsent(old(players), RowNameList(Body(lines)))
      ensures readFailed ==> edges == old(edges)
      ensures !readFailed ==>
                var list := RowNameList(Body(lines));
                edges == WithPairs(old(edges), RowsWalk(list, |list|))
    {
      var playerNames := ReadNames(lines);
      if readFailed {
        return;
      }
      AddRosterPairs(playerNames);
    }

    /** The row loop: the header is skipped, every other row with a name
        adds it to the list and registers it if it is new. */
    method ReadNames(lines: seq<string>) returns (playerNames: seq<string>)
      modifies this`players
      ensures playerNames == RowNameList(Body(lines))
      ensures players == RegisterAbsent(old(players), playerNames)
    {
      playerNames := [];
      var isHeader := true;
      var i := 0;
      while i < |lines|
        invariant 0 <= i <= |lines|
        invariant isHeader <==> i == 0
        invariant playerNames == RowNameList(Body(lines[..i]))
        invariant players == RegisterAbsent(old(players), playerNames)
      {
        var line := lines[i];
        var next := i + 1;
        BodyStep(lines, i, next);
        if isHeader {
          isHeader := false;
        } else {
          RowNameListSnoc(Body(lines[..i]), line);
          var parts := Split(line, ",");
          if |parts| >= 2 {
            var name := Trim(parts[1]);
            if name != "" {
              RegisterAbsentSnoc(old(players), playerNames, name);
              playerNames := playerNames + [name];
              if name !in players {
                players := players[name := BasicPlayer(name)];
              }
            }
          }
        }
        i := next;
      }
      assert lines[..i] == lines;
    }

    /** The nested pair loop: addEdge both ways for each pair i < j. */
    method AddRosterPairs(list: seq<string>)
      modifies this`edges
      ensures edges == WithPairs(old(edges), RowsWalk(list, |list|))
    {
      var i := 0;
      while i < |list|
        invariant 0 <= i <= |list|
        invariant edges == WithPairs(old(edges), RowsWalk(list, i))
      {
        ghost var prev := edges;
        AddPairsFrom(list, i);
        var next := i + 1;
        RowsWalkStep(old(edges), list, i, next, prev, edges);
        i := next;
      }
    }

    /** The inner loop of the pair loop: list[i] with each later name. */
    method AddPairsFrom(list: seq<string>, i: int)
      requires 0 <= i < |list|
      modifies this`edges
      ensures edges == WithPairs(old(edges), RowWalk(list, i, |list|))
    {
      var j := i + 1;
      while j < |list|
        invariant i < j <= |list|
        invariant edges == WithPairs(old(edges), RowWalk(list, i, j))
      {
        ghost var prev := edges;
        AddEdge(list[i], list[j]);
        ghost var mid := edges;
        AddEdge(list[j], list[i]);
        var next := j + 1;
        RowWalkStep(old(edges), list, i, j, next, prev, mid, edges);
        j := next;
      }
    }

    /** countEdges as written: the number of distinct "-" keys. */
    method CountEdges() returns (count: nat)
      ensures count == |EdgeIds(edges)|
    {
      var uniqueEdges: set<string> := {};
      var rest := edges.Keys;
      while rest != {}
        invariant rest <= edges.Keys
        invariant uniqueEdges == IdsFrom(edges, edges.Keys - rest)
        decreases rest
      {
        var a := Choose(rest);
        var row := edges[a].Keys;
        ghost var before := uniqueEdges;
        while row != {}
          invariant row <= edges[a].Keys
          invariant uniqueEdges == before + RowIds(edges, a, edges[a].Keys - row)
          decreases row
        {
          var b := Choose(row);
          uniqueEdges := uniqueEdges + {CreateEdgeId(a, b)};
          RowIdsStep(edges, a, row, b);
          row := row - {b};
        }
        assert edges[a].Keys - row == edges[a].Keys;
        IdsFromStep(edges, rest, a);
        rest := rest - {a};
      }
      assert edges.Keys - rest == edges.Keys;
      assert IdsFrom(edges, edges.Keys) == EdgeIds(edges);
      count := |uniqueEdges|;
    }

    /** The most-connected scan of printSummary: the first vertex met with
        strictly more teammates than all before it, so None when every row
        is empty. */
    method MostConnected() returns (mostConnected: Option<string>, maxConnections: int)
      ensures mostConnected.None? <==> forall v | v in edges :: |edges[v]| == 0
      ensures mostConnected.None? ==> maxConnections == 0
      ensures mostConnected.Some? ==>
                mostConnected.value in edges && maxConnections == |edges[mostConnected.value]|
                && forall v | v in edges :: |edges[v]| <= maxConnections
    {
      mostConnected, maxConnections := None, 0;
      var rest := edges.Keys;
      while rest != {}
        invariant rest <= edges.Keys
        invariant mostConnected.None? <==> forall v | v in edges.Keys - rest :: |edges[v]| == 0
        invariant mostConnected.None? ==> maxConnections == 0
        invariant mostConnected.Some? ==>
                    mostConnected.value in edges && maxConnections == |edges[mostConnected.value]|
        invariant forall v | v in edges.Keys - rest :: |edges[v]| <= maxConnections
        decreases rest
      {
        var v := Choose(rest);
        var connections := |edges[v]|;
        if connections > maxConnections {
          maxConnections := connections;
          mostConnected := Some(v);
        }
        rest := rest - {v};
      }
    }
  }
}
