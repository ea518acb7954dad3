/**
 * The state and the graph pipeline of the evolution viewer: the season it
 * shows, the filter settings its controls write, the season navigation,
 * the filtered graph it draws for a season, and the short labels it puts
 * on vertices.
 */
module Visualizer {
  import opened Wrappers
  import opened JavaStrings
  import opened Graphs
  import opened Temporal
  import opened Collections
  import opened Filters
  import opened Evolution

  /** The team-filter entry that selects no team. */
  const AllTeams: string := "All Teams"

  // ------------------------------------------------------------ pipeline

  /** The graph the pipeline starts from. */
  ghost function BaseGraph(edges: EdgeStore, cumulative: bool, season: int): Graph
  {
    if cumulative then Cumulative(edges, season) else Snapshot(edges, season)
  }

  /** The team stage: only when a team is selected. */
  function TeamStage(g: Graph, selectedTeam: string, teamPlayers: set<string>): Graph
  {
    if selectedTeam != AllTeams then PlayersFiltered(g, teamPlayers) else g
  }

  /** The weight stage: only when the threshold is above 1. */
  function WeightStage(g: Graph, minWeight: int): Graph
  {
    if minWeight > 1 then WeightFiltered(g, minWeight) else g
  }

  /** The size stage: when g has more than maxN vertices, r is the subgraph
      among some maxN best-connected of them; otherwise r is g. */
  ghost predicate SizeStage(g: Graph, maxN: int, r: Graph)
  {
    if |g| > maxN then exists top :: TopCut(g, maxN, top) && r == PlayersFiltered(g, top) else r == g
  }

  /** Every entry of h is an entry of g, with the same weight. */
  ghost predicate SubgraphOf(h: Graph, g: Graph)
  {
    forall a, b | Edge(h, a, b) :: Edge(g, a, b) && h[a][b] == g[a][b]
  }

  lemma PlayersFilteredSubgraph(g: Graph, players: set<string>)
    ensures SubgraphOf(PlayersFiltered(g, players), g)
  {
    forall a, b | Edge(PlayersFiltered(g, players), a, b)
      ensures Edge(g, a, b) && PlayersFiltered(g, players)[a][b] == g[a][b]
    {
      PlayersFilteredEdges(g, players, a, b);
    }
  }

  lemma WeightFilteredSubgraph(g: Graph, w: int)
    ensures SubgraphOf(WeightFiltered(g, w), g)
  {
    forall a, b | Edge(WeightFiltered(g, w), a, b) ensures Edge(g, a, b) && WeightFiltered(g, w)[a][b] == g[a][b] {
      WeightFilteredEdges(g, w, a, b);
    }
  }

  /** Each stage keeps a symmetric graph symmetric and only removes entries:
      what the viewer draws is a symmetric part of its base graph, with the
      base graph's weights, every one of them at least the threshold when
      the weight stage ran, and at most maxN vertices. */
  lemma StagesShape(base: Graph, selectedTeam: string, teamPlayers: set<string>, minWeight: int, maxN: int, r: Graph)
    requires Symmetric(base)
    requires SizeStage(WeightStage(TeamStage(base, selectedTeam, teamPlayers), minWeight), maxN, r)
    ensures Symmetric(r) && SubgraphOf(r, base)
    ensures minWeight > 1 ==> forall a, b | Edge(r, a, b) :: r[a][b] >= minWeight
    ensures maxN >= 0 ==> |r| <= maxN
  {
    var t := TeamStage(base, selectedTeam, teamPlayers);
    if selectedTeam != AllTeams {
      PlayersFilteredSymmetric(base, teamPlayers);
      PlayersFilteredSubgraph(base, teamPlayers);
    }
    assert Symmetric(t) && SubgraphOf(t, base);
    var m := WeightStage(t, minWeight);
    if minWeight > 1 {
      WeightFilteredSymmetric(t, minWeight);
      WeightFilteredSubgraph(t, minWeight);
      forall a, b | Edge(m, a, b) ensures m[a][b] >= minWeight {
        WeightFilteredEdges(t, minWeight, a, b);
      }
    }
    assert Symmetric(m) && SubgraphOf(m, base);
    if |m| > maxN {
      var top :| TopCut(m, maxN, top) && r == PlayersFiltered(m, top);
      PlayersFilteredSymmetric(m, top);
      PlayersFilteredSubgraph(m, top);
      PlayersFilteredKeys(m, top);
    }
  }

  /** The stages of getFilteredGraph after the base graph. */
  method FilterStages(base: Graph, selectedTeam: string, teamPlayers: set<string>, minWeight: int, maxN: int)
    returns (graphData: Graph)
    requires maxN >= 0
    ensures SizeStage(WeightStage(TeamStage(base, selectedTeam, teamPlayers), minWeight), maxN, graphData)
  {
    graphData := base;
    if selectedTeam != AllTeams {
      graphData := FilterByPlayers(graphData, teamPlayers);
    }
    if minWeight > 1 {
      graphData := FilterByMinWeight(graphData, minWeight);
    }
    if |graphData| > maxN {
      graphData := LimitToTopNodes(graphData, maxN);
    }
  }

  // ------------------------------------------------------------- seasons

  /** List.indexOf: the first position of s, or -1. */
  function IndexOfSeason(xs: seq<int>, s: int): (r: int)
    ensures -1 <= r < |xs|
    ensures r == -1 <==> s !in xs
    ensures r >= 0 ==> xs[r] == s && forall j | 0 <= j < r :: xs[j] != s
  {
    if |xs| == 0 then -1
    else if xs[0] == s then 0
    else
      var r := IndexOfSeason(xs[1..], s);
      if r < 0 then -1 else r + 1
  }

  // ---------------------------------------------------------------- names

  /** shortenName: "F. Last" for a name of two or more space-separated
      parts, otherwise the name itself, cut to twelve chars and "..." when
      longer than fifteen. None stands for the exception charAt(0) raises
      when the first part is empty (a name that starts with a space). */
  function ShortenName(fullName: string): (r: Option<string>)
    ensures r.None? <==> |Split(fullName, " ")| >= 2 && Split(fullName, " ")[0] == ""
    ensures |Split(fullName, " ")| < 2 ==> r.Some? && |r.value| <= 15
    ensures |Split(fullName, " ")| < 2 ==>
              r == Some(if |fullName| > 15 then fullName[..12] + "..." else fullName)
  {
    var parts := Split(fullName, " ");
    if |parts| >= 2 then
      if |parts[0]| == 0 then None else Some([parts[0][0]] + ". " + parts[|parts| - 1])
    else if |fullName| > 15 then Some(fullName[..12] + "...")
    else Some(fullName)
  }

  /** A name without a space is kept, or cut when longer than fifteen chars. */
  lemma ShortenOneWord(name: string)
    requires ' ' !in name
    ensures ShortenName(name) == Some(if |name| > 15 then name[..12] + "..." else name)
  {
    ContainsChar(name, ' ');
    assert [' '] == " ";
  }

  /** Words joined by single spaces, "Jan Van Persie" or "Jan Van Persie "
      alike, become the first word's initial, ". " and the last word
      ("J. Persie"). */
  lemma ShortenWords(ws: seq<string>, trail: string)
    requires |ws| >= 2 && Words(ws) && (trail == "" || trail == " ")
    ensures ShortenName(JoinSpaces(ws) + trail) == Some([ws[0][0]] + ". " + ws[|ws| - 1])
  {
    var name := JoinSpaces(ws) + trail;
    SplitJoin(ws, trail);
    ShortenParts(name, ws);
  }

  /** A name that splits into two or more parts, the first non-empty, keeps
      the first part's initial and the last part. */
  lemma ShortenParts(name: string, parts: seq<string>)
    requires Split(name, " ") == parts && |parts| >= 2 && parts[0] != ""
    ensures ShortenName(name) == Some([parts[0][0]] + ". " + parts[|parts| - 1])
  {
  }

  /** One word and a trailing space ("Bob ") splits into one part, so the
      whole name, space included, is kept or cut. */
  lemma ShortenTrailingSpace(w: string)
    requires w != "" && ' ' !in w
    ensures ShortenName(w + " ") == Some(if |w| + 1 > 15 then (w + " ")[..12] + "..." else w + " ")
  {
    SplitJoin([w], " ");
    assert JoinSpaces([w]) == w;
  }

  /** A name starting with a space makes shortenName throw. */
  lemma ShortenLeadingSpace(last: string)
    requires last != "" && ' ' !in last
    ensures ShortenName(" " + last) == None
  {
    var s := " " + last;
    var p := " ";
    assert OccursAt(s, p, 0) by { assert s[0..1] == p; }
    IndexOfFirst(s, p, 0);
    assert s[1..] == last;
    ContainsChar(last, ' ');
    assert [' '] == p;
    assert SplitPieces(last, p) == [last];
    assert SplitPieces(s, p) == ["", last];
  }

  // ---------------------------------------------------------------- state

  /** The viewer's state: the data it draws from, its season list (the
      builder's seasons, ascending, as copied at start), the season shown,
      and the settings of its team, weight, size and cumulative controls. */
  class EvolutionVisualizer {
    const builder: EvolutionGraphBuilder
    const seasons: seq<int>
    var currentSeason: int
    var selectedTeam: string
    var minWeight: int
    var maxNodeCount: int
    var cumulative: bool

    /** The seasons are ascending; the season shown is one of them when
        there are any; the spinners keep the settings in their ranges. */
    ghost predicate Valid()
      reads this
    {
      && Increasing(seasons)
      && (|seasons| > 0 ==> currentSeason in seasons)
      && 1 <= minWeight <= 20
      && 10 <= maxNodeCount <= 500
    }

    constructor (b: EvolutionGraphBuilder)
      ensures Valid()
      ensures builder == b
      ensures forall s :: s in seasons <==> s in b.seasons
      ensures currentSeason == if |seasons| > 0 then seasons[0] else 0
      ensures selectedTeam == AllTeams && minWeight == 1 && maxNodeCount == 100 && cumulative
    {
      var order := Ascending(b.seasons);
      builder := b;
      seasons := order;
      currentSeason := if |order| > 0 then order[0] else 0;
      selectedTeam := AllTeams;
      minWeight := 1;
      maxNodeCount := 100;
      cumulative := true;
    }

    /** The season slider: the season at the slider's position. */
    method SelectSeasonAt(index: int)
      requires Valid() && 0 <= index < |seasons|
      modifies this`currentSeason
      ensures Valid() && currentSeason == seasons[index]
    {
      currentSeason := seasons[index];
    }

    /** The team box: any entry, "All Teams" included. */
    method SelectTeam(team: string)
      requires Valid()
      modifies this`selectedTeam
      ensures Valid() && selectedTeam == team
    {
      selectedTeam := team;
    }

    /** The weight spinner, which holds values from 1 to 20. */
    method SetMinWeight(w: int)
      requires Valid() && 1 <= w <= 20
      modifies this`minWeight
      ensures Valid() && minWeight == w
    {
      minWeight := w;
    }

    /** The size spinner, which holds values from 10 to 500. */
    method SetMaxNodeCount(n: int)
      requires Valid() && 10 <= n <= 500
      modifies this`maxNodeCount
      ensures Valid() && maxNodeCount == n
    {
      maxNodeCount := n;
    }

    /** The cumulative check box. */
    method SetCumulative(on: bool)
      requires Valid()
      modifies this`cumulative
      ensures Valid() && cumulative == on
    {
      cumulative := on;
    }

    /** navigateSeason: move by direction along the season list when the
        new position exists; otherwise stay. */
    method NavigateSeason(direction: int)
      requires Valid()
      modifies this`currentSeason
      ensures Valid()
      ensures var i := IndexOfSeason(seasons, old(currentSeason)) + direction;
              if 0 <= i < |seasons| then currentSeason == seasons[i] else currentSeason == old(currentSeason)
    {
      var currentIndex := IndexOfSeason(seasons, currentSeason);
      var newIndex := currentIndex + direction;
      if newIndex >= 0 && newIndex < |seasons| {
        currentSeason := seasons[newIndex];
      }
    }

    /** getFilteredGraph: the base graph of the season, then the team,
        weight and size stages, each only when its setting asks for it. */
    method GetFilteredGraph(season: int) returns (graphData: Graph)
      requires Valid() && builder.Valid()
      ensures SizeStage(WeightStage(TeamStage(BaseGraph(builder.edges, cumulative, season), selectedTeam,
                                              PlayersForTeam(builder.rosters, selectedTeam, season)),
                                    minWeight),
                        maxNodeCount, graphData)
      ensures Symmetric(graphData) && SubgraphOf(graphData, BaseGraph(builder.edges, cumulative, season))
      ensures |graphData| <= maxNodeCount
      ensures minWeight > 1 ==> forall a, b | Edge(graphData, a, b) :: graphData[a][b] >= minWeight
    {
      var base;
      if cumulative {
        base := builder.GetCumulativeGraph(season);
        CumulativeShape(builder.edges, season);
      } else {
        base := builder.GetSeasonSnapshot(season);
        SnapshotShape(builder.edges, season);
      }
      var teamPlayers := {};
      if selectedTeam != AllTeams {
        teamPlayers := builder.GetPlayersForTeam(selectedTeam, season);
      }
      graphData := FilterStages(base, selectedTeam, teamPlayers, minWeight, maxNodeCount);
      StagesShape(base, selectedTeam, teamPlayers, minWeight, maxNodeCount, graphData);
    }
  }
}
