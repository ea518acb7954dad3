/**
 * The temporal builder's state as values, and the graphs and player sets
 * its queries derive from it: the per-pair season counts, the season
 * snapshot and the cumulative graph, the rosters and the churn sets.
 */
module Temporal {
  import opened JavaStrings
  import opened EdgeKeys
  import opened Graphs
  import opened Collections

  // ------------------------------------------------------------ edge store

  /** season -> number of roster files of that season listing both players. */
  type SeasonCounts = map<int, int>

  /** For each canonical pair, its season counts. */
  type EdgeStore = map<EdgePair, SeasonCounts>

  function Count(store: EdgeStore, k: EdgePair, s: int): int
  {
    if k in store && s in store[k] then store[k][s] else 0
  }

  /** Keys in strict canonical order; every pair has a season, every count is at least 1. */
  ghost predicate StoreValid(store: EdgeStore)
  {
    && (forall k | k in store :: Less(k.0, k.1) && |store[k]| > 0)
    && (forall k, s | k in store && s in store[k] :: store[k][s] >= 1)
  }

  /** The store after computeIfAbsent(k).merge(s, 1, Integer::sum). */
  function Increment(store: EdgeStore, k: EdgePair, s: int): EdgeStore
  {
    store[k := (if k in store then store[k] else map[])[s := Count(store, k, s) + 1]]
  }

  /** One increment adds 1 to exactly one count and keeps every other. */
  lemma IncrementCount(store: EdgeStore, k: EdgePair, s: int)
    ensures Increment(store, k, s).Keys == store.Keys + {k}
    ensures forall k', s' :: Count(Increment(store, k, s), k', s')
                             == Count(store, k', s') + (if k' == k && s' == s then 1 else 0)
    ensures (if k in store then store[k].Keys else {}) + {s} == Increment(store, k, s)[k].Keys
  {
  }

  // ------------------------------------------------------------ projection

  /** The endpoints of the pairs. */
  function Verts(pw: map<EdgePair, int>): set<string>
  {
    (set k | k in pw :: k.0) + (set k | k in pw :: k.1)
  }

  /** The other endpoints of the pairs that touch a. */
  function Nbrs(pw: map<EdgePair, int>, a: string): set<string>
  {
    (set k | k in pw && k.0 == a :: k.1) + (set k | k in pw && k.1 == a :: k.0)
  }

  function PairWeight(pw: map<EdgePair, int>, a: string, b: string): int
  {
    if (a, b) in pw then pw[(a, b)] else if (b, a) in pw then pw[(b, a)] else 0
  }

  /** The adjacency map both snapshot and cumulative build: each weighted
      pair is put in both directions. */
  function Project(pw: map<EdgePair, int>): Graph
  {
    map a | a in Verts(pw) :: map b | b in Nbrs(pw, a) :: PairWeight(pw, a, b)
  }

  ghost predicate Ordered(pw: map<EdgePair, int>) { forall k | k in pw :: Less(k.0, k.1) }

  lemma ProjectEdge(pw: map<EdgePair, int>, a: string, b: string)
    ensures Edge(Project(pw), a, b) <==> (a, b) in pw || (b, a) in pw
    ensures Edge(Project(pw), a, b) ==> Project(pw)[a][b] == PairWeight(pw, a, b)
  {
    if (a, b) in pw {
      assert a in Verts(pw) && b in Nbrs(pw, a);
    } else if (b, a) in pw {
      assert a in Verts(pw) && b in Nbrs(pw, a);
    }
  }

  lemma ProjectSymmetric(pw: map<EdgePair, int>)
    requires Ordered(pw)
    ensures Symmetric(Project(pw))
  {
    var g := Project(pw);
    forall a, b | Edge(g, a, b) ensures Edge(g, b, a) && g[b][a] == g[a][b] {
      ProjectEdge(pw, a, b);
      ProjectEdge(pw, b, a);
      if (a, b) in pw && (b, a) in pw { LessAsymmetric(a, b); }
    }
  }

  lemma VertHasNeighbour(pw: map<EdgePair, int>, a: string)
    requires a in Verts(pw)
    ensures Nbrs(pw, a) != {}
  {
    if a in (set k | k in pw :: k.0) {
      var k :| k in pw && k.0 == a;
      assert k.1 in Nbrs(pw, a);
    } else {
      var k :| k in pw && k.1 == a;
      assert k.0 in Nbrs(pw, a);
    }
  }

  lemma ProjectRows(pw: map<EdgePair, int>)
    requires Ordered(pw)
    ensures NoSelfLoops(Project(pw)) && NoEmptyRows(Project(pw))
    ensures Project(pw).Keys == Verts(pw)
  {
    var g := Project(pw);
    forall a | a in g ensures a !in g[a] {
      LessIrreflexive(a);
    }
    forall a | a in g ensures |g[a]| > 0 {
      VertHasNeighbour(pw, a);
      assert g[a].Keys == Nbrs(pw, a);
    }
  }

  lemma ProjectPairs(pw: map<EdgePair, int>)
    requires Ordered(pw)
    ensures UndirectedPairs(Project(pw)) == pw.Keys
  {
    var g := Project(pw);
    forall k | k in UndirectedPairs(g) ensures k in pw {
      var a, b :| a in g && b in g[a] && k == Canon(a, b);
      ProjectEdge(pw, a, b);
      if (a, b) in pw { CanonOfOrdered((a, b)); } else { CanonOfOrdered((b, a)); CanonSymmetric(a, b); }
    }
    forall k | k in pw ensures k in UndirectedPairs(g) {
      ProjectEdge(pw, k.0, k.1);
      CanonOfOrdered(k);
    }
  }

  /** Over ordered pairs the projection is symmetric, loop-free, and has no empty row;
      its canonical pairs are exactly the weighted ones. */
  lemma ProjectShape(pw: map<EdgePair, int>)
    requires Ordered(pw)
    ensures Symmetric(Project(pw)) && NoSelfLoops(Project(pw)) && NoEmptyRows(Project(pw))
    ensures Project(pw).Keys == Verts(pw)
    ensures UndirectedPairs(Project(pw)) == pw.Keys
  {
    ProjectSymmetric(pw);
    ProjectRows(pw);
    ProjectPairs(pw);
  }

  /** The weight of a -> b in the projection is the canonical pair's weight. */
  lemma ProjectWeight(pw: map<EdgePair, int>, a: string, b: string)
    requires Ordered(pw)
    ensures W(Project(pw), a, b) == (if Canon(a, b) in pw then pw[Canon(a, b)] else 0)
  {
    ProjectEdge(pw, a, b);
    if (a, b) in pw {
      CanonOfOrdered((a, b));
    } else if (b, a) in pw {
      CanonOfOrdered((b, a));
      CanonSymmetric(a, b);
    }
  }

  /** computeIfAbsent(a, k -> new HashMap<>()).put(b, w). */
  function Put(g: Graph, a: string, b: string, w: int): Graph
  {
    g[a := (if a in g then g[a] else map[])[b := w]]
  }

  /** Two maps with the same vertices, rows and weights are equal. */
  lemma GraphExt(g1: Graph, g2: Graph)
    requires g1.Keys == g2.Keys
    requires forall a, b | a in g1 :: b in g1[a] <==> b in g2[a]
    requires forall a, b | Edge(g1, a, b) :: g1[a][b] == g2[a][b]
    ensures g1 == g2
  {
    forall a | a in g1 ensures g1[a] == g2[a] {
      assert g1[a].Keys == g2[a].Keys;
    }
  }

  /** After putting x -> y and y -> x, exactly those two entries are new or changed. */
  lemma PutBoth(g: Graph, x: string, y: string, w: int, a: string, b: string)
    ensures Edge(Put(Put(g, x, y, w), y, x, w), a, b) <==> (a, b) == (x, y) || (a, b) == (y, x) || Edge(g, a, b)
    ensures W(Put(Put(g, x, y, w), y, x, w), a, b) == if (a, b) == (x, y) || (a, b) == (y, x) then w else W(g, a, b)
  {
  }

  lemma PutBothKeys(g: Graph, x: string, y: string, w: int)
    ensures Put(Put(g, x, y, w), y, x, w).Keys == g.Keys + {x, y}
  {
  }

  lemma ProjectAddAt(pw: map<EdgePair, int>, k: EdgePair, w: int, a: string, b: string)
    requires Ordered(pw) && Less(k.0, k.1) && k !in pw
    ensures Edge(Project(pw[k := w]), a, b) <==> Edge(Put(Put(Project(pw), k.0, k.1, w), k.1, k.0, w), a, b)
    ensures W(Project(pw[k := w]), a, b) == W(Put(Put(Project(pw), k.0, k.1, w), k.1, k.0, w), a, b)
  {
    var pw' := pw[k := w];
    assert Ordered(pw');
    ProjectEdge(pw', a, b);
    ProjectEdge(pw, a, b);
    ProjectWeight(pw', a, b);
    ProjectWeight(pw, a, b);
    PutBoth(Project(pw), k.0, k.1, w, a, b);
    CanonOfOrdered(k);
    assert Canon(a, b) == (a, b) || Canon(a, b) == (b, a);
  }

  lemma VertsAdd(pw: map<EdgePair, int>, k: EdgePair, w: int)
    ensures Verts(pw[k := w]) == Verts(pw) + {k.0, k.1}
  {
    var pw' := pw[k := w];
    forall v | v in Verts(pw') ensures v in Verts(pw) + {k.0, k.1} {
      if v in (set j | j in pw' :: j.0) {
        var j :| j in pw' && j.0 == v;
        if j != k { assert v in (set j | j in pw :: j.0); }
      } else {
        var j :| j in pw' && j.1 == v;
        if j != k { assert v in (set j | j in pw :: j.1); }
      }
    }
    forall v | v in Verts(pw) + {k.0, k.1} ensures v in Verts(pw') {
      if v == k.0 {
        assert v in (set j | j in pw' :: j.0);
      } else if v == k.1 {
        assert v in (set j | j in pw' :: j.1);
      } else if v in (set j | j in pw :: j.0) {
        var j :| j in pw && j.0 == v;
        assert v in (set j | j in pw' :: j.0);
      } else {
        var j :| j in pw && j.1 == v;
        assert v in (set j | j in pw' :: j.1);
      }
    }
  }

  /** Projecting one more pair puts it into the map in both directions. */
  lemma ProjectAdd(pw: map<EdgePair, int>, k: EdgePair, w: int)
    requires Ordered(pw) && Less(k.0, k.1) && k !in pw
    ensures Ordered(pw[k := w])
    ensures Project(pw[k := w]) == Put(Put(Project(pw), k.0, k.1, w), k.1, k.0, w)
  {
    var pw' := pw[k := w];
    var g1 := Project(pw');
    var g2 := Put(Put(Project(pw), k.0, k.1, w), k.1, k.0, w);
    ProjectRows(pw);
    ProjectRows(pw');
    VertsAdd(pw, k, w);
    PutBothKeys(Project(pw), k.0, k.1, w);
    assert g1.Keys == g2.Keys;
    forall a, b | a in g1 ensures b in g1[a] <==> b in g2[a] {
      ProjectAddAt(pw, k, w, a, b);
    }
    forall a, b | Edge(g1, a, b) ensures g1[a][b] == g2[a][b] {
      ProjectAddAt(pw, k, w, a, b);
    }
    GraphExt(g1, g2);
  }

  /** e is e0 with one count of season s added for each pair of ps. */
  ghost predicate Added(e0: EdgeStore, e: EdgeStore, ps: set<EdgePair>, s: int)
  {
    && e.Keys == e0.Keys + ps
    && forall k, y :: Count(e, k, y) == Count(e0, k, y) + (if y == s && k in ps then 1 else 0)
  }

  lemma AddedNone(e: EdgeStore, s: int)
    ensures Added(e, e, {}, s)
  {
  }

  lemma AddedStep(e0: EdgeStore, e: EdgeStore, ps: set<EdgePair>, s: int, c: EdgePair)
    requires Added(e0, e, ps, s) && c !in ps
    ensures Added(e0, Increment(e, c, s), ps + {c}, s)
  {
    IncrementCount(e, c, s);
  }

  /** The season counts of the incremented pair. */
  lemma IncrementedRow(store: EdgeStore, k: EdgePair, s: int)
    requires StoreValid(store)
    ensures Increment(store, k, s)[k].Keys == (if k in store then store[k].Keys else {}) + {s}
    ensures forall y | y in Increment(store, k, s)[k] :: Increment(store, k, s)[k][y] >= 1
  {
    var old_ := if k in store then store[k] else map[];
    var row := old_[s := Count(store, k, s) + 1];
    assert Increment(store, k, s)[k] == row;
    forall y | y in row ensures row[y] >= 1 {
      if y != s { assert y in store[k]; }
    }
  }

  /** An increment of a strictly ordered pair keeps the store valid. */
  lemma IncrementValid(store: EdgeStore, k: EdgePair, s: int)
    requires StoreValid(store) && Less(k.0, k.1)
    ensures StoreValid(Increment(store, k, s))
  {
    var e := Increment(store, k, s);
    IncrementedRow(store, k, s);
    forall k' | k' in e ensures Less(k'.0, k'.1) && |e[k']| > 0 {
      if k' != k { assert e[k'] == store[k']; }
    }
    forall k', y | k' in e && y in e[k'] ensures e[k'][y] >= 1 {
      if k' != k { assert e[k'] == store[k']; }
    }
  }

  /** An increment in a known season keeps every recorded season known. */
  lemma IncrementCovered(store: EdgeStore, k: EdgePair, s: int, seasons: set<int>)
    requires SeasonsCovered(store, seasons) && s in seasons
    ensures SeasonsCovered(Increment(store, k, s), seasons)
  {
    var e := Increment(store, k, s);
    forall k', y | k' in e && y in e[k'] ensures y in seasons {
      if k' != k { assert e[k'] == store[k']; }
    }
  }

  // --------------------------------------------------------------- snapshot

  /** The pairs recorded in season s, with that season's count. */
  function SeasonWeights(store: EdgeStore, s: int): map<EdgePair, int>
  {
    map k | k in store && s in store[k] :: store[k][s]
  }

  /** getSeasonSnapshot(s). */
  function Snapshot(store: EdgeStore, s: int): Graph { Project(SeasonWeights(store, s)) }

  /** a -> b is in the snapshot exactly when the pair has a count for s, and
      carries that count; the snapshot is symmetric and its unique edges are
      the pairs recorded in s. */
  lemma SnapshotEntries(store: EdgeStore, s: int, a: string, b: string)
    requires StoreValid(store)
    ensures Edge(Snapshot(store, s), a, b) <==> Count(store, Canon(a, b), s) > 0
    ensures W(Snapshot(store, s), a, b) == Count(store, Canon(a, b), s)
  {
    var pw := SeasonWeights(store, s);
    ProjectWeight(pw, a, b);
    ProjectEdge(pw, a, b);
    if Canon(a, b) in pw {
      assert Canon(a, b) == (a, b) || Canon(a, b) == (b, a);
    }
  }

  lemma SnapshotShape(store: EdgeStore, s: int)
    requires StoreValid(store)
    ensures Symmetric(Snapshot(store, s)) && NoSelfLoops(Snapshot(store, s))
    ensures NoEmptyRows(Snapshot(store, s)) && Positive(Snapshot(store, s))
    ensures UndirectedPairs(Snapshot(store, s)) == set k | k in store && s in store[k]
  {
    var pw := SeasonWeights(store, s);
    ProjectShape(pw);
    forall a, b | Edge(Snapshot(store, s), a, b) ensures Snapshot(store, s)[a][b] >= 1 {
      SnapshotEntries(store, s, a, b);
    }
  }

  // ------------------------------------------------------------- cumulative

  /** The sum of the counts of the seasons ys. */
  ghost function SumOver(c: SeasonCounts, ys: set<int>): int
    requires ys <= c.Keys
    decreases ys
  {
    if ys == {} then 0 else var y := Pick(ys); c[y] + SumOver(c, ys - {y})
  }

  lemma {:induction false} SumOverRemove(c: SeasonCounts, ys: set<int>, y: int)
    requires y in ys && ys <= c.Keys
    ensures SumOver(c, ys) == c[y] + SumOver(c, ys - {y})
    decreases ys
  {
    var x := Pick(ys);
    if x != y {
      SumOverRemove(c, ys - {x}, y);
      SumOverRemove(c, ys - {y}, x);
      assert ys - {x} - {y} == ys - {y} - {x};
    }
  }

  /** With non-negative counts a larger set of seasons sums to at least as much;
      with counts of at least 1 a non-empty set sums to at least 1. */
  lemma {:induction false} SumOverMonotone(c: SeasonCounts, xs: set<int>, ys: set<int>)
    requires xs <= ys <= c.Keys
    requires forall y | y in c :: c[y] >= 1
    ensures SumOver(c, xs) <= SumOver(c, ys)
    ensures ys != {} ==> SumOver(c, ys) >= 1
    decreases ys
  {
    if ys != {} {
      var y := Pick(ys);
      SumOverRemove(c, ys, y);
      if y in xs {
        SumOverRemove(c, xs, y);
        SumOverMonotone(c, xs - {y}, ys - {y});
      } else {
        SumOverMonotone(c, xs, ys - {y});
      }
    }
  }

  /** The stream sum of the counts of the seasons up to u. */
  ghost function SeasonTotal(c: SeasonCounts, u: int): int
  {
    SumOver(c, set y | y in c && y <= u)
  }

  /** A pair's total over the seasons up to u (0 for an unknown pair). */
  ghost function Total(store: EdgeStore, k: EdgePair, u: int): int
  {
    if k in store then SeasonTotal(store[k], u) else 0
  }

  /** The pairs with a positive total up to u, weighted by that total. */
  ghost function CumulativeWeights(store: EdgeStore, u: int): map<EdgePair, int>
  {
    map k | k in store && SeasonTotal(store[k], u) > 0 :: SeasonTotal(store[k], u)
  }

  /** getCumulativeGraph(u). */
  ghost function Cumulative(store: EdgeStore, u: int): Graph
  {
    Project(CumulativeWeights(store, u))
  }

  /** The weight of a -> b in the cumulative graph is the pair's total up to u. */
  lemma CumulativeWeight(store: EdgeStore, u: int, a: string, b: string)
    requires StoreValid(store)
    ensures W(Cumulative(store, u), a, b) == Total(store, Canon(a, b), u)
    ensures Edge(Cumulative(store, u), a, b) <==> exists y :: y <= u && Count(store, Canon(a, b), y) > 0
  {
    var pw := CumulativeWeights(store, u);
    var k := Canon(a, b);
    ProjectWeight(pw, a, b);
    ProjectEdge(pw, a, b);
    if k in store {
      var ys := set y | y in store[k] && y <= u;
      SumOverMonotone(store[k], {}, ys);
      if SeasonTotal(store[k], u) > 0 {
        var y := Pick(ys);
        assert Count(store, k, y) > 0;
      }
      if exists y :: y <= u && Count(store, k, y) > 0 {
        var y :| y <= u && Count(store, k, y) > 0;
        assert y in ys;
      }
    }
    assert k == (a, b) || k == (b, a);
  }

  lemma CumulativeShape(store: EdgeStore, u: int)
    requires StoreValid(store)
    ensures Symmetric(Cumulative(store, u)) && NoSelfLoops(Cumulative(store, u))
    ensures NoEmptyRows(Cumulative(store, u))
  {
    ProjectShape(CumulativeWeights(store, u));
  }

  /** The cumulative graph only grows: every weight is non-decreasing in u. */
  lemma CumulativeMonotone(store: EdgeStore, u: int, v: int, a: string, b: string)
    requires StoreValid(store) && u <= v
    ensures W(Cumulative(store, u), a, b) <= W(Cumulative(store, v), a, b)
  {
    CumulativeWeight(store, u, a, b);
    CumulativeWeight(store, v, a, b);
    var k := Canon(a, b);
    if k in store {
      SumOverMonotone(store[k], set y | y in store[k] && y <= u, set y | y in store[k] && y <= v);
    }
  }

  /** A season's total adds that season's count to the previous season's total. */
  lemma SeasonTotalStep(c: SeasonCounts, u: int)
    ensures SeasonTotal(c, u) == SeasonTotal(c, u - 1) + (if u in c then c[u] else 0)
  {
    var ys := set y | y in c && y <= u;
    if u in c {
      SumOverRemove(c, ys, u);
      assert ys - {u} == set y | y in c && y <= u - 1;
    } else {
      assert ys == set y | y in c && y <= u - 1;
    }
  }

  /** The cumulative graph of u adds the snapshot of u to that of u - 1. */
  lemma CumulativeStep(store: EdgeStore, u: int, a: string, b: string)
    requires StoreValid(store)
    ensures W(Cumulative(store, u), a, b) == W(Cumulative(store, u - 1), a, b) + W(Snapshot(store, u), a, b)
  {
    CumulativeWeight(store, u, a, b);
    CumulativeWeight(store, u - 1, a, b);
    SnapshotEntries(store, u, a, b);
    var k := Canon(a, b);
    if k in store {
      SeasonTotalStep(store[k], u);
    }
  }

  // ------------------------------------------- building the graphs pair by pair

  /** The store cut down to the pairs ks. */
  function Restrict(store: EdgeStore, ks: set<EdgePair>): EdgeStore
  {
    map k | k in store && k in ks :: store[k]
  }

  lemma RestrictValid(store: EdgeStore, ks: set<EdgePair>)
    requires StoreValid(store)
    ensures StoreValid(Restrict(store, ks))
  {
  }

  lemma RestrictAll(store: EdgeStore)
    ensures Restrict(store, store.Keys) == store
  {
  }

  lemma RestrictNone(store: EdgeStore)
    ensures Restrict(store, {}) == map[]
  {
  }

  lemma ProjectEmpty()
    ensures Project(map[]) == map[]
  {
    assert Verts(map[]) == {};
  }

  /** One more pair of the store enters the snapshot in both directions when it has a count for s. */
  lemma SnapshotAddKey(store: EdgeStore, ks: set<EdgePair>, k: EdgePair, s: int)
    requires StoreValid(store) && k in store && k !in ks
    ensures Snapshot(Restrict(store, ks + {k}), s)
            == if s in store[k] then Put(Put(Snapshot(Restrict(store, ks), s), k.0, k.1, store[k][s]), k.1, k.0, store[k][s])
               else Snapshot(Restrict(store, ks), s)
  {
    var pw := SeasonWeights(Restrict(store, ks), s);
    var pw' := SeasonWeights(Restrict(store, ks + {k}), s);
    assert Ordered(pw);
    if s in store[k] {
      assert pw' == pw[k := store[k][s]];
      ProjectAdd(pw, k, store[k][s]);
    } else {
      assert pw' == pw;
    }
  }

  lemma CumulativeWeightsAdd(store: EdgeStore, ks: set<EdgePair>, k: EdgePair, u: int)
    requires k in store && k !in ks
    ensures var t := SeasonTotal(store[k], u);
            CumulativeWeights(Restrict(store, ks + {k}), u)
            == if t > 0 then CumulativeWeights(Restrict(store, ks), u)[k := t] else CumulativeWeights(Restrict(store, ks), u)
  {
    var r, r' := Restrict(store, ks), Restrict(store, ks + {k});
    assert r' == r[k := store[k]];
    assert forall j | j in r :: r[j] == store[j];
  }

  /** One more pair of the store enters the cumulative graph when its total up to u is positive. */
  lemma CumulativeAddKey(store: EdgeStore, ks: set<EdgePair>, k: EdgePair, u: int)
    requires StoreValid(store) && k in store && k !in ks
    ensures var t := SeasonTotal(store[k], u);
            Cumulative(Restrict(store, ks + {k}), u)
            == if t > 0 then Put(Put(Cumulative(Restrict(store, ks), u), k.0, k.1, t), k.1, k.0, t)
               else Cumulative(Restrict(store, ks), u)
  {
    var t := SeasonTotal(store[k], u);
    var pw := CumulativeWeights(Restrict(store, ks), u);
    var pw' := CumulativeWeights(Restrict(store, ks + {k}), u);
    assert Ordered(pw);
    CumulativeWeightsAdd(store, ks, k, u);
    if t > 0 {
      ProjectAdd(pw, k, t);
    }
  }

  // ------------------------------------------------------------- full graph

  ghost function SetMax(s: set<int>): (m: int)
    requires s != {}
    ensures m in s && forall x | x in s :: x <= m
    decreases s
  {
    var x := Pick(s);
    if s - {x} == {} then assert s == {x}; x
    else
      var rest := SetMax(s - {x});
      assert forall y | y in s :: y == x || y in s - {x};
      if x > rest then x else rest
  }

  /** Every season some pair was recorded in is one of the known seasons. */
  ghost predicate SeasonsCovered(store: EdgeStore, seasons: set<int>)
  {
    forall k, y | k in store && y in store[k] :: y in seasons
  }

  /** getFullGraph: empty without seasons, else the cumulative graph of the last one. */
  ghost function FullGraph(store: EdgeStore, seasons: set<int>): Graph
  {
    if seasons == {} then map[] else Cumulative(store, SetMax(seasons))
  }

  /** The full graph weighs every pair by the sum of all its counts, and it is
      empty exactly when no pair was ever recorded. */
  lemma FullGraphWeights(store: EdgeStore, seasons: set<int>, a: string, b: string)
    requires StoreValid(store) && SeasonsCovered(store, seasons)
    ensures W(FullGraph(store, seasons), a, b)
            == (if Canon(a, b) in store then SumOver(store[Canon(a, b)], store[Canon(a, b)].Keys) else 0)
  {
    var k := Canon(a, b);
    if k in store {
      assert store[k] != map[];
      var y := Pick(store[k].Keys);
      assert y in seasons;
    }
    if seasons != {} {
      var m := SetMax(seasons);
      CumulativeWeight(store, m, a, b);
      if k in store {
        forall y | y in store[k] ensures y <= m { assert y in seasons; }
        assert (set y | y in store[k] && y <= m) == store[k].Keys;
      }
    }
  }

  lemma FullGraphEmpty(store: EdgeStore, seasons: set<int>)
    requires StoreValid(store) && SeasonsCovered(store, seasons)
    ensures FullGraph(store, seasons) == map[] <==> store == map[]
  {
    if store != map[] {
      var k :| k in store;
      assert store[k] != map[];
      var y := Pick(store[k].Keys);
      FullGraphWeights(store, seasons, k.0, k.1);
      CanonOfOrdered(k);
      SumOverMonotone(store[k], {}, store[k].Keys);
    } else if seasons != {} {
      assert CumulativeWeights(store, SetMax(seasons)) == map[];
      assert Verts(map[]) == {};
    }
  }

  // ------------------------------------------------------ rosters and churn

  /** (team, season) -> names on that team-season's roster. */
  type Rosters = map<(string, int), set<string>>

  /** The string key teamName + "_" + season the rosters are filed under. */
  function RosterKey(team: string, season: int): (r: string)
    ensures EndsWith(r, "_" + IntToString(season)) && |team| < |r| && r[..|team|] == team
  {
    team + "_" + IntToString(season)
  }

  /** getPlayersInSeason's test key.endsWith("_" + s) holds exactly for the
      keys of season s. */
  lemma RosterKeySuffix(team: string, y: int, s: int)
    ensures EndsWith(RosterKey(team, y), "_" + IntToString(s)) <==> y == s
  {
    var t, u := IntToString(y), IntToString(s);
    var key := RosterKey(team, y);
    var suf := "_" + u;
    IntToStringChars(y);
    IntToStringChars(s);
    assert key[|team|] == '_';
    assert forall j :: |team| < j < |key| ==> key[j] == t[j - |team| - 1];
    assert forall j :: |team| < j < |key| ==> key[j] != '_';
    assert forall i :: 1 <= i < |suf| ==> suf[i] != '_';
    if EndsWith(key, suf) {
      var base := |key| - |suf|;
      assert key[base..][0] == '_';
      assert key[base] == '_';
      assert base <= |team|;
      assert key[base..][|team| - base] == key[|team|];
      assert |team| - base == 0;
      assert key[|team| + 1..] == t;
      assert suf[1..] == u;
      assert key[base..][1..] == key[|team| + 1..];
      IntToStringInjective(y, s);
    }
  }

  /** The season part holds no '_', so the string key determines team and
      season, whatever the team name holds. */
  lemma RosterKeyInjective(t1: string, y1: int, t2: string, y2: int)
    requires RosterKey(t1, y1) == RosterKey(t2, y2)
    ensures t1 == t2 && y1 == y2
  {
    var key := RosterKey(t1, y1);
    IntToStringChars(y1);
    IntToStringChars(y2);
    assert forall j :: |t1| < j < |key| ==> key[j] == IntToString(y1)[j - |t1| - 1];
    assert forall j :: |t2| < j < |key| ==> key[j] == IntToString(y2)[j - |t2| - 1];
    assert forall j :: |t1| < j < |key| ==> key[j] != '_';
    assert forall j :: |t2| < j < |key| ==> key[j] != '_';
    assert key[|t1|] == '_' && key[|t2|] == '_';
    assert |t1| == |t2|;
    assert t1 == key[..|t1|] == t2;
    assert IntToString(y1) == key[|t1| + 1..] == IntToString(y2);
    IntToStringInjective(y1, y2);
  }

  /** getPlayersInSeason(s): the union of the rosters of season s. */
  function Active(rosters: Rosters, s: int): set<string>
  {
    set k, p | k in rosters && k.1 == s && p in rosters[k] :: p
  }

  /** The players of the season-s rosters among the keys ks. */
  function ActiveIn(rosters: Rosters, ks: set<(string, int)>, s: int): set<string>
  {
    set k, p | k in rosters && k in ks && k.1 == s && p in rosters[k] :: p
  }

  lemma ActiveInStep(rosters: Rosters, ks: set<(string, int)>, k: (string, int), s: int)
    requires k in rosters
    ensures ActiveIn(rosters, ks + {k}, s) == ActiveIn(rosters, ks, s) + (if k.1 == s then rosters[k] else {})
  {
  }

  lemma ActiveInAll(rosters: Rosters, s: int)
    ensures ActiveIn(rosters, rosters.Keys, s) == Active(rosters, s)
    ensures ActiveIn(rosters, {}, s) == {}
  {
  }

  function NewPlayers(rosters: Rosters, s: int): set<string> { Active(rosters, s) - Active(rosters, s - 1) }

  function DepartedPlayers(rosters: Rosters, s: int): set<string> { Active(rosters, s) - Active(rosters, s + 1) }

  /** When every roster's season is known, nobody plays in the season
      before the first known one or after the last, so everyone active in
      the first season is new and everyone active in the last departs. */
  lemma ChurnAtEnds(rosters: Rosters, seasons: set<int>, s: int)
    requires forall k | k in rosters :: k.1 in seasons
    requires s in seasons
    ensures (forall t | t in seasons :: s <= t) ==> NewPlayers(rosters, s) == Active(rosters, s)
    ensures (forall t | t in seasons :: t <= s) ==> DepartedPlayers(rosters, s) == Active(rosters, s)
  {
    if forall t | t in seasons :: s <= t {
      forall k | k in rosters ensures k.1 != s - 1 {
        assert k.1 in seasons;
      }
      assert Active(rosters, s - 1) == {};
    }
    if forall t | t in seasons :: t <= s {
      forall k | k in rosters ensures k.1 != s + 1 {
        assert k.1 in seasons;
      }
      assert Active(rosters, s + 1) == {};
    }
  }

  /** getPlayersForTeam: the roster, or the empty set for an unknown team-season. */
  function PlayersForTeam(rosters: Rosters, team: string, s: int): set<string>
  {
    if (team, s) in rosters then rosters[(team, s)] else {}
  }

  /** The new and the departed players of s are active in s, and split the
      active set with those who stay from s - 1 (resp. to s + 1). */
  lemma ChurnSizes(rosters: Rosters, s: int)
    ensures NewPlayers(rosters, s) <= Active(rosters, s)
    ensures DepartedPlayers(rosters, s) <= Active(rosters, s)
    ensures |NewPlayers(rosters, s)| + |Active(rosters, s) * Active(rosters, s - 1)| == |Active(rosters, s)|
    ensures |DepartedPlayers(rosters, s)| + |Active(rosters, s) * Active(rosters, s + 1)| == |Active(rosters, s)|
  {
    var a := Active(rosters, s);
    var p := Active(rosters, s - 1);
    var n := Active(rosters, s + 1);
    assert a == (a - p) + (a * p) && (a - p) * (a * p) == {};
    assert a == (a - n) + (a * n) && (a - n) * (a * n) == {};
  }

  /** A roster of a team-season belongs to the active set of its season. */
  lemma TeamInSeason(rosters: Rosters, team: string, s: int)
    ensures PlayersForTeam(rosters, team, s) <= Active(rosters, s)
  {
  }

  /** Replacing the roster of (team, s) changes only season s, where the
      old roster's players give way to the new one's. */
  lemma ActiveAfterReplace(rosters: Rosters, team: string, s: int, names: set<string>, y: int)
    ensures y != s ==> Active(rosters[(team, s) := names], y) == Active(rosters, y)
    ensures y == s ==> Active(rosters[(team, s) := names], y)
                       == Active(map k | k in rosters && k != (team, s) :: rosters[k], s) + names
  {
    var r := rosters[(team, s) := names];
    var others := map k | k in rosters && k != (team, s) :: rosters[k];
    forall p | p in Active(r, y) ensures p in (if y == s then Active(others, s) + names else Active(rosters, y)) {
      var k :| k in r && k.1 == y && p in r[k];
      if k != (team, s) { assert k in others; }
    }
    forall p | p in (if y == s then Active(others, s) + names else Active(rosters, y)) ensures p in Active(r, y) {
      if y != s {
        var k :| k in rosters && k.1 == y && p in rosters[k];
        assert k != (team, s) && r[k] == rosters[k];
      } else if p in names {
        assert (team, s) in r;
      } else {
        var k :| k in others && k.1 == s && p in others[k];
        assert k in r && r[k] == others[k];
      }
    }
  }

  // ------------------------------------------------------ roster pair sets

  /** The unordered pairs of distinct names of a roster. */
  function PairsOf(names: set<string>): set<EdgePair>
  {
    set a, b | a in names && b in names && Less(a, b) :: (a, b)
  }

  function PairsWith(x: string, names: set<string>): set<EdgePair>
  {
    set y | y in names :: Canon(x, y)
  }

  lemma {:induction false} PairsWithCard(x: string, names: set<string>)
    requires x !in names
    ensures |PairsWith(x, names)| == |names|
    decreases names
  {
    if names != {} {
      var y :| y in names;
      var rest := names - {y};
      PairsWithCard(x, rest);
      assert PairsWith(x, names) == PairsWith(x, rest) + {Canon(x, y)};
      forall z | z in rest ensures Canon(x, z) != Canon(x, y) {}
      assert Canon(x, y) !in PairsWith(x, rest);
    }
  }

  lemma PairsOfSplit(x: string, names: set<string>)
    requires x in names
    ensures PairsOf(names) == PairsOf(names - {x}) + PairsWith(x, names - {x})
    ensures PairsOf(names - {x}) * PairsWith(x, names - {x}) == {}
  {
    var rest := names - {x};
    forall k | k in PairsOf(names) ensures k in PairsOf(rest) + PairsWith(x, rest) {
      if k.0 == x { CanonOfOrdered(k); assert k == Canon(x, k.1); }
      else if k.1 == x { CanonOfOrdered(k); assert k == Canon(x, k.0); }
    }
    forall y | y in rest ensures Canon(x, y) in PairsOf(names) {
      CanonStrict(x, y);
    }
  }

  lemma PairCountStep(n: int)
    ensures (n - 1) * (n - 2) + 2 * (n - 1) == n * (n - 1)
  {
    calc {
      (n - 1) * (n - 2) + 2 * (n - 1);
      (n - 1) * (n - 2 + 2);
      (n - 1) * n;
    }
  }

  /** A roster of n distinct names has n(n-1)/2 unordered pairs. */
  lemma {:induction false} PairsOfCard(names: set<string>)
    ensures 2 * |PairsOf(names)| == |names| * (|names| - 1)
    decreases names
  {
    if |names| != 0 {
      var x :| x in names;
      var rest := names - {x};
      var n := |names|;
      PairsOfSplit(x, names);
      PairsOfCard(rest);
      PairsWithCard(x, rest);
      assert |rest| == n - 1;
      assert |PairsOf(names)| == |PairsOf(rest)| + (n - 1);
      assert 2 * |PairsOf(rest)| == (n - 1) * (n - 2);
      PairCountStep(n);
    } else {
      assert PairsOf(names) == {};
    }
  }

  /** Two distinct roster names make exactly one of the roster's pairs. */
  lemma PairsOfMember(names: set<string>, a: string, b: string)
    ensures Canon(a, b) in PairsOf(names) <==> a in names && b in names && a != b
  {
    if a != b { CanonStrict(a, b); }
    if Canon(a, b) in PairsOf(names) { LessIrreflexive(a); }
  }

  /** Filing a roster adds one to the season's weight of every pair of its
      distinct players and changes no other weight of any season. */
  lemma AddedSnapshot(e0: EdgeStore, e: EdgeStore, names: set<string>, s: int, y: int, a: string, b: string)
    requires StoreValid(e0) && StoreValid(e) && Added(e0, e, PairsOf(names), s)
    ensures W(Snapshot(e, y), a, b)
            == W(Snapshot(e0, y), a, b) + (if y == s && a in names && b in names && a != b then 1 else 0)
  {
    SnapshotEntries(e, y, a, b);
    SnapshotEntries(e0, y, a, b);
    PairsOfMember(names, a, b);
  }

  // ------------------------------------------ the pair loop over a roster list

  /** The pairs (list[a], list[b]), a < b, that the nested loop has visited
      when it is at (i, j). */
  function DonePairs(list: seq<string>, i: int, j: int): set<EdgePair>
  {
    set a, b | 0 <= a < b < |list| && (a < i || (a == i && b < j)) :: Canon(list[a], list[b])
  }

  lemma DoneStart(list: seq<string>)
    ensures DonePairs(list, 0, 1) == {}
  {
  }

  lemma DoneStep(list: seq<string>, i: int, j: int)
    requires 0 <= i && i + 1 < j <= |list|
    ensures DonePairs(list, i, j) == DonePairs(list, i, j - 1) + {Canon(list[i], list[j - 1])}
  {
  }

  lemma DoneNext(list: seq<string>, i: int)
    requires 0 < i <= |list|
    ensures DonePairs(list, i - 1, |list|) == DonePairs(list, i, i + 1)
  {
  }

  /** In a list without repeats, no pair is visited twice. */
  lemma DoneFresh(list: seq<string>, i: int, j: int)
    requires Distinct(list) && 0 <= i < j < |list|
    ensures Canon(list[i], list[j]) !in DonePairs(list, i, j)
  {
    forall a, b | 0 <= a < b < |list| && (a < i || (a == i && b < j))
      ensures Canon(list[a], list[b]) != Canon(list[i], list[j])
    {
      assert Canon(list[a], list[b]) in {(list[a], list[b]), (list[b], list[a])};
      assert Canon(list[i], list[j]) in {(list[i], list[j]), (list[j], list[i])};
      assert !(a == i && b == j) && !(a == j && b == i);
    }
  }

  /** The whole nested loop over a list of the roster visits exactly its pairs. */
  lemma DoneAll(list: seq<string>, names: set<string>)
    requires Distinct(list) && forall x :: x in list <==> x in names
    ensures DonePairs(list, |list|, |list| + 1) == PairsOf(names)
  {
    var done := DonePairs(list, |list|, |list| + 1);
    forall a, b | 0 <= a < b < |list| ensures Canon(list[a], list[b]) in PairsOf(names) {
      CanonStrict(list[a], list[b]);
    }
    forall k | k in PairsOf(names) ensures k in done {
      var x, y := k.0, k.1;
      assert x in names && y in names && Less(x, y);
      var a :| 0 <= a < |list| && list[a] == x;
      var b :| 0 <= b < |list| && list[b] == y;
      LessIrreflexive(x);
      CanonOfOrdered(k);
      if a < b {
        assert Canon(list[a], list[b]) == k;
      } else {
        assert Canon(list[b], list[a]) == k;
      }
    }
  }

  /** The pairs the inner loop visits for list[i] before reaching j, in order. */
  function RowWalk(list: seq<string>, i: int, j: int): seq<EdgePair>
    requires 0 <= i < |list| && i < j <= |list|
    decreases j
  {
    if j == i + 1 then [] else RowWalk(list, i, j - 1) + [Canon(list[i], list[j - 1])]
  }

  /** The pairs the outer loop visits before reaching i, in order. */
  function RowsWalk(list: seq<string>, i: int): seq<EdgePair>
    requires 0 <= i <= |list|
    decreases i
  {
    if i == 0 then [] else RowsWalk(list, i - 1) + RowWalk(list, i - 1, |list|)
  }

  /** The store after one increment of season s for each pair of ks, in order. */
  function IncrementAll(e: EdgeStore, ks: seq<EdgePair>, s: int): EdgeStore
    decreases |ks|
  {
    if |ks| == 0 then e else Increment(IncrementAll(e, ks[..|ks| - 1], s), ks[|ks| - 1], s)
  }

  lemma IncrementAllSnoc(e: EdgeStore, ks: seq<EdgePair>, k: EdgePair, s: int)
    ensures IncrementAll(e, ks + [k], s) == Increment(IncrementAll(e, ks, s), k, s)
  {
    assert (ks + [k])[..|ks|] == ks;
  }

  /** One step of the inner pair loop: the pair (list[i], list[j]) extends the walk. */
  lemma IncrementWalkStep(e0: EdgeStore, list: seq<string>, i: int, j: int, next: int, s: int,
                          prev: EdgeStore, e: EdgeStore)
    requires 0 <= i < j < |list| && next == j + 1
    requires prev == IncrementAll(e0, RowsWalk(list, i) + RowWalk(list, i, j), s)
    requires e == Increment(prev, Canon(list[i], list[j]), s)
    ensures e == IncrementAll(e0, RowsWalk(list, i) + RowWalk(list, i, next), s)
  {
    IncrementAllSnoc(e0, RowsWalk(list, i) + RowWalk(list, i, j), Canon(list[i], list[j]), s);
    assert RowsWalk(list, i) + RowWalk(list, i, next)
           == (RowsWalk(list, i) + RowWalk(list, i, j)) + [Canon(list[i], list[j])];
  }

  /** One step of the outer pair loop: the finished row of list[i] extends the walk. */
  lemma IncrementRowsStep(e0: EdgeStore, list: seq<string>, i: int, next: int, s: int, e: EdgeStore)
    requires 0 <= i < |list| && next == i + 1
    requires e == IncrementAll(e0, RowsWalk(list, i) + RowWalk(list, i, |list|), s)
    ensures e == IncrementAll(e0, RowsWalk(list, next), s)
  {
    assert RowsWalk(list, next) == RowsWalk(list, i) + RowWalk(list, i, |list|);
  }

  /** A walk without repeats adds one count of season s to each of its pairs. */
  lemma {:induction false} IncrementAllAdded(e0: EdgeStore, ks: seq<EdgePair>, s: int)
    requires Distinct(ks)
    ensures Added(e0, IncrementAll(e0, ks, s), Elems(ks), s)
    decreases |ks|
  {
    if |ks| == 0 {
      AddedNone(e0, s);
      assert Elems(ks) == {};
    } else {
      var init, last := ks[..|ks| - 1], ks[|ks| - 1];
      assert Distinct(init);
      IncrementAllAdded(e0, init, s);
      assert last !in Elems(init);
      AddedStep(e0, IncrementAll(e0, init, s), Elems(init), s, last);
      assert ks == init + [last];
      ElemsSnoc(init, last);
    }
  }

  /** Increments of strictly ordered pairs in a known season keep the store
      well formed and its seasons known. */
  lemma {:induction false} IncrementAllValid(e0: EdgeStore, ks: seq<EdgePair>, s: int, seasons: set<int>)
    requires StoreValid(e0) && SeasonsCovered(e0, seasons) && s in seasons
    requires forall k | k in ks :: Less(k.0, k.1)
    ensures StoreValid(IncrementAll(e0, ks, s)) && SeasonsCovered(IncrementAll(e0, ks, s), seasons)
    decreases |ks|
  {
    if |ks| > 0 {
      var init, last := ks[..|ks| - 1], ks[|ks| - 1];
      assert forall k | k in init :: k in ks;
      IncrementAllValid(e0, init, s, seasons);
      IncrementValid(IncrementAll(e0, init, s), last, s);
      IncrementCovered(IncrementAll(e0, init, s), last, s, seasons);
    }
  }

  /** The inner loop over list[i] visits new pairs only, and after it has
      reached j it has visited exactly DonePairs(list, i, j). */
  lemma {:induction false} RowWalkDistinct(list: seq<string>, i: int, j: int)
    requires Distinct(list) && 0 <= i < |list| && i < j <= |list|
    requires Distinct(RowsWalk(list, i)) && Elems(RowsWalk(list, i)) == DonePairs(list, i, i + 1)
    ensures var w := RowsWalk(list, i) + RowWalk(list, i, j);
            Distinct(w) && Elems(w) == DonePairs(list, i, j)
    decreases j
  {
    if j == i + 1 {
      assert RowsWalk(list, i) + RowWalk(list, i, j) == RowsWalk(list, i);
    } else {
      RowWalkDistinct(list, i, j - 1);
      var w := RowsWalk(list, i) + RowWalk(list, i, j - 1);
      var k := Canon(list[i], list[j - 1]);
      assert RowsWalk(list, i) + RowWalk(list, i, j) == w + [k];
      DoneFresh(list, i, j - 1);
      DistinctSnoc(w, k);
      ElemsSnoc(w, k);
      DoneStep(list, i, j);
    }
  }

  lemma {:induction false} RowsWalkDistinct(list: seq<string>, i: int)
    requires Distinct(list) && 0 <= i <= |list|
    ensures Distinct(RowsWalk(list, i)) && Elems(RowsWalk(list, i)) == DonePairs(list, i, i + 1)
    decreases i
  {
    if i == 0 {
      DoneStart(list);
    } else {
      RowsWalkDistinct(list, i - 1);
      RowWalkDistinct(list, i - 1, |list|);
      DoneNext(list, i);
    }
  }

  /** Walking every pair of a list of the roster adds one count of season s
      to each pair of the roster's distinct players and to nothing else. */
  lemma RosterPairsAdded(e0: EdgeStore, list: seq<string>, names: set<string>, s: int, seasons: set<int>)
    requires Distinct(list) && (forall x :: x in list <==> x in names) && s in seasons
    requires StoreValid(e0) && SeasonsCovered(e0, seasons)
    ensures var e := IncrementAll(e0, RowsWalk(list, |list|), s);
            Added(e0, e, PairsOf(names), s) && StoreValid(e) && SeasonsCovered(e, seasons)
  {
    var w := RowsWalk(list, |list|);
    RowsWalkDistinct(list, |list|);
    DoneAll(list, names);
    assert Elems(w) == PairsOf(names);
    IncrementAllAdded(e0, w, s);
    forall k | k in w ensures Less(k.0, k.1) {
      assert k in Elems(w);
    }
    IncrementAllValid(e0, w, s, seasons);
  }
}
