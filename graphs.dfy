/**
 * Weighted adjacency maps (player -> teammate -> weight), the shape every
 * graph of the core has, with the unique-edge count and the most-connected
 * query the temporal builder runs on them.
 */
module Graphs {
  import opened Wrappers
  import opened JavaStrings
  import opened EdgeKeys

  type Graph = map<string, map<string, int>>

  predicate Edge(g: Graph, a: string, b: string) { a in g && b in g[a] }

  /** The weight of a -> b, 0 when there is no such entry. */
  function W(g: Graph, a: string, b: string): int { if Edge(g, a, b) then g[a][b] else 0 }

  /** Every entry has its mirror, with the same weight. */
  ghost predicate Symmetric(g: Graph)
  {
    forall a, b | Edge(g, a, b) :: Edge(g, b, a) && g[b][a] == g[a][b]
  }

  predicate NoSelfLoops(g: Graph) { forall a | a in g :: a !in g[a] }

  ghost predicate Positive(g: Graph) { forall a, b | Edge(g, a, b) :: g[a][b] >= 1 }

  predicate NoEmptyRows(g: Graph) { forall a | a in g :: |g[a]| > 0 }

  /** The directed entries a -> b of the map. */
  function Entries(g: Graph): set<EdgePair>
  {
    set a, b | a in g && b in g[a] :: (a, b)
  }

  /** The distinct canonical pairs among the entries. */
  function UndirectedPairs(g: Graph): set<EdgePair>
  {
    set a, b | a in g && b in g[a] :: Canon(a, b)
  }

  /** The canonical pairs of the entries leaving the vertices xs. */
  function PairsFrom(g: Graph, xs: set<string>): set<EdgePair>
  {
    set a, b | a in xs && a in g && b in g[a] :: Canon(a, b)
  }

  /** The canonical pairs of the entries a -> b for b in bs. */
  function RowPairs(g: Graph, a: string, bs: set<string>): set<EdgePair>
    requires a in g
  {
    set b | b in bs && b in g[a] :: Canon(a, b)
  }

  lemma PairsFromStep(g: Graph, rest: set<string>, a: string)
    requires a in rest && rest <= g.Keys
    ensures PairsFrom(g, g.Keys - (rest - {a})) == PairsFrom(g, g.Keys - rest) + RowPairs(g, a, g[a].Keys)
  {
    assert g.Keys - (rest - {a}) == (g.Keys - rest) + {a};
  }

  lemma RowPairsStep(g: Graph, a: string, row: set<string>, b: string)
    requires a in g && b in row && row <= g[a].Keys
    ensures RowPairs(g, a, g[a].Keys - (row - {b})) == RowPairs(g, a, g[a].Keys - row) + {Canon(a, b)}
  {
    assert g[a].Keys - (row - {b}) == (g[a].Keys - row) + {b};
  }

  /** The inner loop of countEdges over one adjacency row. */
  method CountRow(g: Graph, a: string, counted0: set<EdgePair>, count0: nat)
    returns (counted: set<EdgePair>, count: nat)
    requires a in g && count0 == |counted0|
    ensures counted == counted0 + RowPairs(g, a, g[a].Keys) && count == |counted|
  {
    counted, count := counted0, count0;
    var row := g[a].Keys;
    while row != {}
      invariant row <= g[a].Keys
      invariant counted == counted0 + RowPairs(g, a, g[a].Keys - row)
      invariant count == |counted|
      decreases row
    {
      var b :| b in row;
      var key := Canon(a, b);
      if key !in counted {
        counted := counted + {key};
        count := count + 1;
      }
      RowPairsStep(g, a, row, b);
      row := row - {b};
    }
    assert g[a].Keys - row == g[a].Keys;
  }

  /** countEdges: every entry's canonical key goes into a set, and the
      counter grows when the key is new. */
  method CountEdges(g: Graph) returns (count: nat)
    ensures count == |UndirectedPairs(g)|
  {
    var counted: set<EdgePair> := {};
    count := 0;
    var rest := g.Keys;
    while rest != {}
      invariant rest <= g.Keys
      invariant counted == PairsFrom(g, g.Keys - rest)
      invariant count == |counted|
      decreases rest
    {
      var a :| a in rest;
      counted, count := CountRow(g, a, counted, count);
      PairsFromStep(g, rest, a);
      rest := rest - {a};
    }
    assert g.Keys - rest == g.Keys;
    assert PairsFrom(g, g.Keys) == UndirectedPairs(g);
  }

  /** Swapping both names of every pair keeps the number of pairs. */
  lemma {:induction false} SwapCard(s: set<EdgePair>)
    ensures |set e | e in s :: (e.1, e.0)| == |s|
    decreases |s|
  {
    if s != {} {
      var x :| x in s;
      var rest := s - {x};
      SwapCard(rest);
      assert (set e | e in s :: (e.1, e.0)) == (set e | e in rest :: (e.1, e.0)) + {(x.1, x.0)};
      assert (x.1, x.0) !in (set e | e in rest :: (e.1, e.0));
    }
  }

  function LowEntries(g: Graph): set<EdgePair> { set e | e in Entries(g) && Less(e.0, e.1) }

  function HighEntries(g: Graph): set<EdgePair> { set e | e in Entries(g) && Less(e.1, e.0) }

  lemma EntriesSplit(g: Graph)
    requires NoSelfLoops(g)
    ensures Entries(g) == LowEntries(g) + HighEntries(g)
    ensures LowEntries(g) * HighEntries(g) == {}
  {
    forall e | e in Entries(g) ensures e in LowEntries(g) || e in HighEntries(g) {
      LessTotal(e.0, e.1);
    }
    forall e | e in LowEntries(g) ensures e !in HighEntries(g) { LessAsymmetric(e.0, e.1); }
  }

  lemma PairsAreLowEntries(g: Graph)
    requires Symmetric(g) && NoSelfLoops(g)
    ensures UndirectedPairs(g) == LowEntries(g)
  {
    forall a, b | a in g && b in g[a] ensures Canon(a, b) in LowEntries(g) {
      assert Edge(g, a, b);
      CanonStrict(a, b);
    }
    forall e | e in LowEntries(g) ensures e in UndirectedPairs(g) {
      CanonOfOrdered(e);
    }
  }

  lemma HighEntriesSwapped(g: Graph)
    requires Symmetric(g)
    ensures HighEntries(g) == set e | e in LowEntries(g) :: (e.1, e.0)
  {
    forall e | e in HighEntries(g) ensures e in set e | e in LowEntries(g) :: (e.1, e.0) {
      assert Edge(g, e.0, e.1);
      assert (e.1, e.0) in LowEntries(g);
    }
    forall e | e in LowEntries(g) ensures (e.1, e.0) in HighEntries(g) {
      assert Edge(g, e.0, e.1);
    }
  }

  /** On a symmetric map without self-loops every pair shows up as two
      entries, so the unique-edge count is half the number of entries. */
  lemma CountHalvesEntries(g: Graph)
    requires Symmetric(g) && NoSelfLoops(g)
    ensures 2 * |UndirectedPairs(g)| == |Entries(g)|
  {
    EntriesSplit(g);
    PairsAreLowEntries(g);
    HighEntriesSwapped(g);
    SwapCard(LowEntries(g));
  }

  /** getMostConnectedPlayer: the stream maximum by degree, null for an empty map. */
  method MostConnectedPlayer(g: Graph) returns (r: Option<string>)
    ensures r.None? <==> |g| == 0
    ensures r.Some? ==> r.value in g && forall v | v in g :: |g[v]| <= |g[r.value]|
  {
    r := None;
    var rest := g.Keys;
    while rest != {}
      invariant rest <= g.Keys
      invariant r.None? <==> rest == g.Keys
      invariant r.Some? ==> r.value in g && forall v | v in g.Keys - rest :: |g[v]| <= |g[r.value]|
      decreases rest
    {
      var v :| v in rest;
      if r.None? || |g[v]| > |g[r.value]| {
        r := Some(v);
      }
      rest := rest - {v};
    }
    assert |g| == |g.Keys|;
  }
}
