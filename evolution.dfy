/**
 * The temporal graph builder: it reads team-season roster files one by one,
 * keeps every player's latest record, every team-season roster and, for
 * each pair of teammates, how many roster files of each season list them
 * together; its queries turn that store into season snapshots, cumulative
 * graphs, churn sets and per-season statistics.
 */
module Evolution {
  import opened Wrappers
  import opened JavaStrings
  import opened Players
  import opened Csv
  import opened EdgeKeys
  import opened Graphs
  import opened Temporal
  import opened TeamFiles
  import opened Rows
  import opened Collections

  /** One line of the evolution table. */
  datatype SeasonStats = SeasonStats(
    season: int,
    nodesInSeason: int,
    edgesInSeason: int,
    cumulativeNodes: int,
    cumulativeEdges: int,
    newPlayers: int,
    departedPlayers: int)

  /** The statistics of season s over a store and its rosters. */
  ghost function StatsFor(edges: EdgeStore, rosters: Rosters, s: int): SeasonStats
  {
    SeasonStats(
      s,
      |Snapshot(edges, s)|, |UndirectedPairs(Snapshot(edges, s))|,
      |Cumulative(edges, s)|, |UndirectedPairs(Cumulative(edges, s))|,
      |NewPlayers(rosters, s)|, |DepartedPlayers(rosters, s)|)
  }

  /** A season's edge count is the number of pairs recorded in it, half the
      number of its adjacency entries. */
  lemma StatsCountPairs(edges: EdgeStore, rosters: Rosters, s: int)
    requires StoreValid(edges)
    ensures StatsFor(edges, rosters, s).edgesInSeason == |set k | k in edges && s in edges[k]|
    ensures 2 * StatsFor(edges, rosters, s).edgesInSeason == |Entries(Snapshot(edges, s))|
  {
    SnapshotShape(edges, s);
    CountHalvesEntries(Snapshot(edges, s));
  }

  /** A season's node count is that of the players of the pairs recorded in it. */
  lemma StatsCountNodes(edges: EdgeStore, rosters: Rosters, s: int)
    requires StoreValid(edges)
    ensures StatsFor(edges, rosters, s).nodesInSeason
            == |(set k | k in edges && s in edges[k] :: k.0) + (set k | k in edges && s in edges[k] :: k.1)|
  {
    var pw := SeasonWeights(edges, s);
    ProjectRows(pw);
    assert (set k | k in pw :: k.0) == (set k | k in edges && s in edges[k] :: k.0);
    assert (set k | k in pw :: k.1) == (set k | k in edges && s in edges[k] :: k.1);
  }

  /** The store is well formed, every season it records and every roster
      key's team and season are known, and each player is filed under its
      own name. */
  ghost predicate Consistent(players: map<string, Player>, rosters: Rosters, edges: EdgeStore,
                             seasons: set<int>, teams: set<string>)
  {
    && StoreValid(edges)
    && SeasonsCovered(edges, seasons)
    && (forall k | k in rosters :: k.0 in teams && k.1 in seasons)
    && (forall x | x in players :: players[x].name == x)
  }

  /** Knowing one more team and season, with players filed under their names, keeps the state consistent. */
  lemma KnownFileConsistent(players: map<string, Player>, players': map<string, Player>, rosters: Rosters,
                            edges: EdgeStore, seasons: set<int>, teams: set<string>, team: string, season: int)
    requires Consistent(players, rosters, edges, seasons, teams)
    requires forall x | x in players' :: players'[x].name == x
    ensures Consistent(players', rosters, edges, seasons + {season}, teams + {team})
  {
  }

  /** Filing a roster of a known team-season, with a store still well formed, keeps the state consistent. */
  lemma RosterFiledConsistent(players: map<string, Player>, rosters: Rosters, edges: EdgeStore, edges': EdgeStore,
                              seasons: set<int>, teams: set<string>, team: string, season: int, names: set<string>)
    requires Consistent(players, rosters, edges, seasons, teams) && team in teams && season in seasons
    requires StoreValid(edges') && SeasonsCovered(edges', seasons)
    ensures Consistent(players, rosters[(team, season) := names], edges', seasons, teams)
  {
  }

  /** Lines made one per season of an ascending listing of the seasons are
      as many as the seasons, ascending, and cover each season. */
  lemma StatsInOrder(order: seq<int>, seasons: set<int>, stats: seq<SeasonStats>)
    requires Increasing(order) && forall x :: x in order <==> x in seasons
    requires |stats| == |order| && forall j | 0 <= j < |order| :: stats[j].season == order[j]
    ensures |stats| == |seasons|
    ensures forall i, j :: 0 <= i < j < |stats| ==> stats[i].season < stats[j].season
    ensures forall s :: s in seasons <==> exists i :: 0 <= i < |stats| && stats[i].season == s
  {
    IncreasingDistinct(order);
    DistinctCard(order, seasons);
    forall s | s in seasons ensures exists i :: 0 <= i < |stats| && stats[i].season == s {
      var i :| 0 <= i < |order| && order[i] == s;
      assert stats[i].season == s;
    }
  }

  /** The builder's state. By their (team, season) pair the rosters are
      filed exactly as under the string key RosterKey(team, season), which
      names at most one pair (Temporal.RosterKeyInjective). */
  class EvolutionGraphBuilder {
    var players: map<string, Player>
    var rosters: Rosters
    var edges: EdgeStore
    var seasons: set<int>
    var teams: set<string>

    ghost predicate Valid()
      reads this
    {
      Consistent(players, rosters, edges, seasons, teams)
    }

    constructor ()
      ensures Valid()
      ensures players == map[] && rosters == map[] && edges == map[]
      ensures seasons == {} && teams == {}
    {
      players, rosters, edges := map[], map[], map[];
      seasons, teams := {}, {};
    }

    /** addTemporalEdge: one more count of the season for the pair. */
    method AddTemporalEdge(a: string, b: string, season: int)
      modifies this`edges
      ensures edges == Increment(old(edges), Canon(a, b), season)
    {
      var key := Canon(a, b);
      var counts := if key in edges then edges[key] else map[];
      var c := if season in counts then counts[season] else 0;
      edges := edges[key := counts[season := c + 1]];
    }

    /** processTeamFile on a file named fileName. The lines are those read
        before the reader stopped, and readFailed says whether it stopped on
        an I/O error. A name that does not match changes nothing. Otherwise
        the team and the season become known at once. The rows register
        their players even when the read fails. Only a complete read files
        the roster and adds one count of the season for every pair of its
        distinct players. */
    method ProcessTeamFile(fileName: string, lines: seq<string>, readFailed: bool)
      requires Valid()
      modifies this
      ensures Valid()
      ensures ParseTeamFileName(fileName).None? ==>
                players == old(players) && rosters == old(rosters) && edges == old(edges)
                && seasons == old(seasons) && teams == old(teams)
      ensures ParseTeamFileName(fileName).Some? ==>
                var ts := ParseTeamFileName(fileName).value;
                var names := RosterNames(Body(lines));
                && teams == old(teams) + {ts.team} && seasons == old(seasons) + {ts.season}
                && players == RegisterRows(old(players), Body(lines))
                && (readFailed ==> rosters == old(rosters) && edges == old(edges))
                && (!readFailed ==>
                      rosters == old(rosters)[(ts.team, ts.season) := names]
                      && Added(old(edges), edges, PairsOf(names), ts.season))
    {
      var parsed := ParseTeamFileName(fileName);
      if parsed.None? {
        return;
      }
      var team, season := parsed.value.team, parsed.value.season;
      var names := ReadTeamSeason(team, season, lines);
      if readFailed {
        return;
      }
      ghost var e0 := edges;
      FileRoster(team, season, names);
      assert Added(e0, edges, PairsOf(names), season);
    }

    /** The part of processTeamFile that runs whether or not the read
        completes: the team and the season are noted and every full row
        (re)registers its player. */
    method ReadTeamSeason(team: string, season: int, lines: seq<string>) returns (names: set<string>)
      requires Valid()
      modifies this`teams, this`seasons, this`players
      ensures Valid() && team in teams && season in seasons
      ensures names == RosterNames(Body(lines))
      ensures teams == old(teams) + {team} && seasons == old(seasons) + {season}
      ensures players == RegisterRows(old(players), Body(lines))
    {
      teams := teams + {team};
      seasons := seasons + {season};
      names := ReadRows(lines);
      RegisterRowsNames(old(players), Body(lines));
      KnownFileConsistent(old(players), players, rosters, edges, old(seasons), old(teams), team, season);
    }

    /** The end of a complete read: the roster of the team-season is
        replaced and every pair of its players gains a count of the season. */
    method FileRoster(team: string, season: int, names: set<string>)
      requires Valid() && team in teams && season in seasons
      modifies this`rosters, this`edges
      ensures Valid()
      ensures rosters == old(rosters)[(team, season) := names]
      ensures Added(old(edges), edges, PairsOf(names), season)
    {
      var list := ToList(names);
      RosterPairsAdded(edges, list, names, season, seasons);
      AddRosterPairs(list, season);
      RosterFiledConsistent(players, rosters, old(edges), edges, seasons, teams, team, season, names);
      rosters := rosters[(team, season) := names];
    }

    /** The row loop of processTeamFile: the header is skipped, every row's
        name joins the roster and every full row (re)registers its player. */
    method ReadRows(lines: seq<string>) returns (names: set<string>)
      modifies this`players
      ensures names == RosterNames(Body(lines))
      ensures players == RegisterRows(old(players), Body(lines))
    {
      names := {};
      var isHeader := true;
      var i := 0;
      while i < |lines|
        invariant 0 <= i <= |lines|
        invariant isHeader <==> i == 0
        invariant names == RosterNames(Body(lines[..i]))
        invariant players == RegisterRows(old(players), Body(lines[..i]))
      {
        var line := lines[i];
        var next := i + 1;
        BodyStep(lines, i, next);
        if isHeader {
          isHeader := false;
        } else {
          RosterNamesSnoc(Body(lines[..i]), line);
          RegisterRowsSnoc(old(players), Body(lines[..i]), line);
          var parts := ParseCSVLine(line);
          RowNameOf(line, parts);
          if |parts| >= 2 {
            var name := Trim(parts[1]);
            if name != "" && name != "N/A" {
              names := names + {name};
              if |parts| >= 12 {
                players := players[name := PlayerFromParts(parts)];
              }
            }
          }
        }
        i := next;
      }
      assert lines[..i] == lines;
    }

    /** The nested pair loop of processTeamFile over the roster list: one
        addTemporalEdge for each pair (list[i], list[j]), i < j. */
    method AddRosterPairs(list: seq<string>, season: int)
      modifies this`edges
      ensures edges == IncrementAll(old(edges), RowsWalk(list, |list|), season)
    {
      var i := 0;
      while i < |list|
        invariant 0 <= i <= |list|
        invariant edges == IncrementAll(old(edges), RowsWalk(list, i), season)
      {
        var j := i + 1;
        assert RowsWalk(list, i) + RowWalk(list, i, j) == RowsWalk(list, i);
        while j < |list|
          invariant i < j <= |list|
          invariant edges == IncrementAll(old(edges), RowsWalk(list, i) + RowWalk(list, i, j), season)
        {
          ghost var prev := edges;
          AddTemporalEdge(list[i], list[j], season);
          var next := j + 1;
          IncrementWalkStep(old(edges), list, i, j, next, season, prev, edges);
          j := next;
        }
        var next := i + 1;
        IncrementRowsStep(old(edges), list, i, next, season, edges);
        i := next;
      }
    }

    /** getSeasonSnapshot: the pairs with a count for the season, in both
        directions, weighted by that count. */
    method GetSeasonSnapshot(season: int) returns (snapshot: Graph)
      requires Valid()
      ensures snapshot == Snapshot(edges, season)
    {
      snapshot := map[];
      var rest := edges.Keys;
      ghost var done: set<EdgePair> := {};
      RestrictNone(edges);
      ProjectEmpty();
      assert SeasonWeights(map[], season) == map[];
      while rest != {}
        invariant done + rest == edges.Keys && done !! rest
        invariant snapshot == Snapshot(Restrict(edges, done), season)
        decreases rest
      {
        var k := Choose(rest);
        var counts := edges[k];
        SnapshotAddKey(edges, done, k, season);
        if season in counts {
          var w := counts[season];
          var row0 := if k.0 in snapshot then snapshot[k.0] else map[];
          snapshot := snapshot[k.0 := row0[k.1 := w]];
          var row1 := if k.1 in snapshot then snapshot[k.1] else map[];
          snapshot := snapshot[k.1 := row1[k.0 := w]];
        }
        done := done + {k};
        rest := rest - {k};
      }
      RestrictAll(edges);
    }

    /** The stream sum of the counts of the seasons up to upTo. */
    static method SumUpTo(counts: SeasonCounts, upTo: int) returns (total: int)
      ensures total == SeasonTotal(counts, upTo)
    {
      total := 0;
      var rest := counts.Keys;
      while rest != {}
        invariant rest <= counts.Keys
        invariant total + SumOver(counts, set y | y in rest && y <= upTo) == SeasonTotal(counts, upTo)
        decreases rest
      {
        var y := Choose(rest);
        var later := set x | x in rest - {y} && x <= upTo;
        if y <= upTo {
          SumOverRemove(counts, (set x | x in rest && x <= upTo), y);
          assert (set x | x in rest && x <= upTo) - {y} == later;
          total := total + counts[y];
        } else {
          assert (set x | x in rest && x <= upTo) == later;
        }
        rest := rest - {y};
      }
      assert (set x | x in rest && x <= upTo) == {};
    }

    /** getCumulativeGraph: the pairs with a positive total over the seasons
        up to upTo, in both directions, weighted by that total. */
    method GetCumulativeGraph(upTo: int) returns (cumulative: Graph)
      requires Valid()
      ensures cumulative == Cumulative(edges, upTo)
    {
      cumulative := map[];
      var rest := edges.Keys;
      ghost var done: set<EdgePair> := {};
      RestrictNone(edges);
      ProjectEmpty();
      assert CumulativeWeights(map[], upTo) == map[];
      while rest != {}
        invariant done + rest == edges.Keys && done !! rest
        invariant cumulative == Cumulative(Restrict(edges, done), upTo)
        decreases rest
      {
        var k := Choose(rest);
        var total := SumUpTo(edges[k], upTo);
        CumulativeAddKey(edges, done, k, upTo);
        if total > 0 {
          var row0 := if k.0 in cumulative then cumulative[k.0] else map[];
          cumulative := cumulative[k.0 := row0[k.1 := total]];
          var row1 := if k.1 in cumulative then cumulative[k.1] else map[];
          cumulative := cumulative[k.1 := row1[k.0 := total]];
        }
        done := done + {k};
        rest := rest - {k};
      }
      RestrictAll(edges);
    }

    /** getFullGraph: empty without seasons, else the cumulative graph of the
        last season. */
    method GetFullGraph() returns (full: Graph)
      requires Valid()
      ensures full == FullGraph(edges, seasons)
      ensures full == map[] <==> edges == map[]
    {
      FullGraphEmpty(edges, seasons);
      if seasons == {} {
        return map[];
      }
      var last := MaxOf(seasons);
      assert last == SetMax(seasons);
      full := GetCumulativeGraph(last);
    }

    /** getPlayersInSeason: the union of the rosters whose key ends in
        "_" + season. */
    method GetPlayersInSeason(season: int) returns (active: set<string>)
      ensures active == Active(rosters, season)
    {
      active := {};
      var rest := rosters.Keys;
      var suffix := "_" + IntToString(season);
      ActiveInAll(rosters, season);
      while rest != {}
        invariant rest <= rosters.Keys
        invariant active == ActiveIn(rosters, rosters.Keys - rest, season)
        decreases rest
      {
        var k := Choose(rest);
        RosterKeySuffix(k.0, k.1, season);
        ActiveInStep(rosters, rosters.Keys - rest, k, season);
        if EndsWith(RosterKey(k.0, k.1), suffix) {
          active := active + rosters[k];
        }
        assert rosters.Keys - (rest - {k}) == (rosters.Keys - rest) + {k};
        rest := rest - {k};
      }
      assert rosters.Keys - rest == rosters.Keys;
    }

    /** getNewPlayers: the players of the season who played in none of the
        previous season's rosters. */
    method GetNewPlayers(season: int) returns (joined: set<string>)
      ensures joined == NewPlayers(rosters, season)
      ensures forall p :: p in joined <==> p in Active(rosters, season) && p !in Active(rosters, season - 1)
      ensures Valid() && season in seasons && (forall t | t in seasons :: season <= t) ==>
                joined == Active(rosters, season)
    {
      if Valid() && season in seasons {
        ChurnAtEnds(rosters, seasons, season);
      }
      var current := GetPlayersInSeason(season);
      var previous := GetPlayersInSeason(season - 1);
      joined := set p | p in current && p !in previous;
    }

    /** getDepartedPlayers: the players of the season who play in none of
        the next season's rosters. */
    method GetDepartedPlayers(season: int) returns (departed: set<string>)
      ensures departed == DepartedPlayers(rosters, season)
      ensures forall p :: p in departed <==> p in Active(rosters, season) && p !in Active(rosters, season + 1)
      ensures Valid() && season in seasons && (forall t | t in seasons :: t <= season) ==>
                departed == Active(rosters, season)
    {
      if Valid() && season in seasons {
        ChurnAtEnds(rosters, seasons, season);
      }
      var current := GetPlayersInSeason(season);
      var next := GetPlayersInSeason(season + 1);
      departed := set p | p in current && p !in next;
    }

    /** getPlayersForTeam: the team-season's roster, empty when there is none. */
    method GetPlayersForTeam(team: string, season: int) returns (names: set<string>)
      ensures names == PlayersForTeam(rosters, team, season)
      ensures names <= Active(rosters, season)
      ensures (team, season) !in rosters ==> names == {}
    {
      TeamInSeason(rosters, team, season);
      names := if (team, season) in rosters then rosters[(team, season)] else {};
    }

    /** The body of getEvolutionStats' loop for one season. */
    method GetStats(s: int) returns (st: SeasonStats)
      requires Valid()
      ensures st == StatsFor(edges, rosters, s)
    {
      var snapshot := GetSeasonSnapshot(s);
      var cumulative := GetCumulativeGraph(s);
      var edgesInSeason := CountEdges(snapshot);
      var cumulativeEdges := CountEdges(cumulative);
      var joined := GetNewPlayers(s);
      var left := GetDepartedPlayers(s);
      st := SeasonStats(s, |snapshot|, edgesInSeason, |cumulative|, cumulativeEdges, |joined|, |left|);
    }

    /** getEvolutionStats: one line per known season, in ascending order. */
    method GetEvolutionStats() returns (stats: seq<SeasonStats>)
      requires Valid()
      ensures |stats| == |seasons|
      ensures forall i, j :: 0 <= i < j < |stats| ==> stats[i].season < stats[j].season
      ensures forall s :: s in seasons <==> exists i :: 0 <= i < |stats| && stats[i].season == s
      ensures forall i | 0 <= i < |stats| :: stats[i] == StatsFor(edges, rosters, stats[i].season)
    {
      var order := Ascending(seasons);
      stats := StatsOf(order);
      StatsInOrder(order, seasons, stats);
    }

    /** The loop of getEvolutionStats: one line per season of the list, in
        its order. */
    method StatsOf(order: seq<int>) returns (stats: seq<SeasonStats>)
      requires Valid()
      ensures |stats| == |order|
      ensures forall j | 0 <= j < |order| :: stats[j].season == order[j]
      ensures forall j | 0 <= j < |order| :: stats[j] == StatsFor(edges, rosters, order[j])
    {
      stats := [];
      var i := 0;
      while i < |order|
        invariant 0 <= i <= |order|
        invariant |stats| == i
        invariant forall j | 0 <= j < i :: stats[j].season == order[j]
        invariant forall j | 0 <= j < i :: stats[j] == StatsFor(edges, rosters, order[j])
      {
        var st := GetStats(order[i]);
        stats := stats + [st];
        i := i + 1;
      }
    }
  }
}
