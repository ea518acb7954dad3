# Football co-play graphs, modelled in Dafny

The system reads one CSV roster per team and season from files named
`<Team>_<Season>.csv`. Each row describes one player. From these rosters it
builds a co-play graph: two players are joined when they were on the same
roster.

Two builders do this:

- **The temporal builder** (`EvolutionGraphBuilder`) does the following:
  - It keeps, for every unordered pair of players, a count per season.
  - It keeps the roster of every (team, season), the player registry, and the
    sets of known seasons and teams.
  - From this store it derives the graph of one season, the cumulative graph
    up to a season, the full graph, the players who joined or left, and the
    per-season statistics.
- **The older builder** (`GraphBuilder`) keeps a plain weighted adjacency map.
  It registers the first record seen under each name.

The viewer (`EvolutionVisualizer`) holds the season list, the current season
and the filter settings: team, minimum weight, node limit, and cumulative or
not. It draws the graph after three filters:

- keep the edges among a team's players;
- drop the edges lighter than the threshold;
- keep the best-connected vertices.

The scraper side is modelled only in two places:

- the way it writes roster rows, escaping values for CSV;
- the name it gives each file.

## How the model is laid out

- `java_strings.dfy`: the `String` routines the code relies on. These are
  `trim`, `indexOf`, `contains`, `replace`, `split`, `compareTo`,
  `Integer.toString` and `Integer.parseInt`.
- `csv.dfy`: the quote-aware line splitter; `escapeCSV`; the row and header
  layout; `parseIntSafe`; and rebuilding a `Player` from its fields.
- `team_files.dfy`: the file-name pattern and the name the scraper writes.
- `edge_keys.dfy`: the temporal edge key `a|||b`, its parser, and the viewer's
  edge id `a-b`.
- `graphs.dfy`: weighted adjacency maps, counting undirected edges, and the
  most-connected scan.
- `temporal.dfy`: the edge store and the snapshot, cumulative and full graphs
  as functions of it. It also covers rosters, player churn, and the pairs of a
  roster.
- `rows.dfy`: what one file's rows contribute to the temporal builder.
- `evolution.dfy`: the `EvolutionGraphBuilder` class and its statistics.
- `filters.dfy`: the three graph transforms of the viewer.
- `visualizer.dfy`: the `EvolutionVisualizer` class: its state, its setters,
  season navigation and the filter pipeline.
- `graph_builder.dfy`: the older `GraphBuilder` class.
- `players.dfy`, `wrappers.dfy`, `seqs.dfy`, `collections.dfy`: the player
  record, `Option`, and small facts about sequences and sets.

How the model represents the source:

- **I/O:** reading a file becomes the sequence of lines read, plus a flag that
  says whether the read stopped on an `IOException`.
- **Null and exceptions:** a null argument becomes `Option`. An exception the
  code would throw becomes `None`.
- **Classes:** each class with state is a Dafny `class` with the same fields.
  Its methods are proved against functions of those fields.
- **The edge store:** it is keyed by the ordered pair of names that
  `createEdgeKey` encodes. Finding F1 below shows why the string key itself
  cannot serve as the store's key.
- **The roster map:** it is keyed by (team, season) and not by the string
  `team + "_" + season`. `Temporal.RosterKeySuffix` and
  `Temporal.RosterKeyInjective` show the two agree for the lookups the code
  makes: a key ends in `"_" + s` exactly when its season is `s`, and the
  string key is injective.

## Model

| member | source | states |
|---|---|---|
| JavaStrings.Less | src/main/java/graph/EvolutionGraphBuilder.java:153 | compareTo(a, b) < 0: a is a proper prefix of b or the first differing character of a is smaller; a name is never less than itself |
| JavaStrings.IndexOf | src/main/java/graph/EvolutionGraphBuilder.java:159 | the position of the first occurrence of the separator, or -1 exactly when it does not occur |
| JavaStrings.Split | src/main/java/graph/EvolutionGraphBuilder.java:159 | a string without the separator splits into itself alone; otherwise the pieces cut at each occurrence, left to right, with no empty piece left at the end |
| JavaStrings.SplitFree | src/main/java/graph/EvolutionGraphBuilder.java:159 | no piece split returns holds the separator |
| JavaStrings.ParseInt | src/main/java/graph/EvolutionGraphBuilder.java:83 | a value is read only from non-empty text and lies in the 32-bit range; ParseIntRoundTrip and Csv.ParseIntOfIntChars pin which value |
| JavaStrings.IntToString | src/main/java/graph/EvolutionGraphBuilder.java:89 | the decimal text of a season is non-empty and starts with '-' exactly when the number is negative |
| JavaStrings.TrimStart | src/main/java/graph/EvolutionGraphBuilder.java:353 | a suffix of the input: exactly the leading characters at or below a space are removed |
| JavaStrings.TrimEnd | src/main/java/graph/EvolutionGraphBuilder.java:353 | a prefix of the input: exactly the trailing characters at or below a space are removed |
| JavaStrings.Trim | src/main/java/graph/EvolutionGraphBuilder.java:353 | the result neither starts nor ends with a character at or below a space, and is no longer than the input |
| JavaStrings.TrimSlice | src/main/java/graph/EvolutionGraphBuilder.java:353 | trim keeps the input between its leading and trailing runs of characters at or below a space, and every character in those runs is one |
| JavaStrings.TrimTrimmed | src/main/java/graph/EvolutionGraphBuilder.java:104 | a string already trimmed is unchanged, so trimming twice is trimming once |
| JavaStrings.ParseIntRoundTrip | src/main/java/graph/EvolutionGraphBuilder.java:369 | the decimal text of any 32-bit integer is read back as that integer |
| JavaStrings.IntToStringInjective | src/main/java/graph/EvolutionGraphBuilder.java:232 | different seasons have different decimal texts |
| JavaStrings.SplitPiecesJoin | src/main/java/graph/EvolutionVisualizer.java:393 | cutting space-joined words, with or without one trailing space, gives the words back, plus one empty piece for the trailing space |
| JavaStrings.SplitJoin | src/main/java/graph/EvolutionVisualizer.java:393 | split(" ") of non-empty, space-free words joined by single spaces, with or without one trailing space, returns exactly those words |
| JavaStrings.LessTotal | src/main/java/graph/EvolutionGraphBuilder.java:153 | any two different names are ordered one way or the other |
| JavaStrings.LessTransitive | src/main/java/graph/EvolutionGraphBuilder.java:153 | the lexicographic order of names is transitive |
| JavaStrings.LessAsymmetric | src/main/java/graph/EvolutionGraphBuilder.java:153 | no two names are each less than the other |
| Csv.ParseCSVLine | src/main/java/graph/EvolutionGraphBuilder.java:344-362 | the character loop produces the fields of the quote-aware splitting fold |
| Csv.FieldCount | src/main/java/graph/EvolutionGraphBuilder.java:344-362 | a line splits into one field more than it has commas outside quotes |
| Csv.FieldsClean | src/main/java/graph/EvolutionGraphBuilder.java:344-362 | every field comes out trimmed and free of quote characters |
| Csv.EscapeCSV | src/main/java/FootBallTeamsGraphs.java:167-173 | null gives the empty text; a value without comma or quote is unchanged; any other becomes a quote, the value with every quote doubled, and a quote |
| Csv.ReplaceQuotesDoubled | src/main/java/FootBallTeamsGraphs.java:170 | replacing every quote by two quotes is the same as doubling the quotes one character at a time |
| Csv.EscapeRoundTrip | src/main/java/FootBallTeamsGraphs.java:167-173 | splitting an escaped value gives one field: the value with its quotes dropped and trimmed |
| Csv.EscapeRoundTripPlain | src/main/java/FootBallTeamsGraphs.java:167-173 | a trimmed value without quotes is read back unchanged after escaping |
| Csv.JoinedRoundTrip | src/main/java/FootBallTeamsGraphs.java:140-153 | a comma-joined row of escaped values splits back into exactly those values, each unquoted |
| Csv.CsvRow | src/main/java/FootBallTeamsGraphs.java:140-153 | no contract of its own: the twelve fields in header order, each escaped, joined by commas; Csv.RowHasTwelveFields and Csv.RowRoundTrip state what reading it back gives |
| Csv.CsvRowEscapesValues | src/main/java/FootBallTeamsGraphs.java:141-152 | writing the numeric cells unescaped is the same as escaping all twelve cells |
| Csv.RowHasTwelveFields | src/main/java/FootBallTeamsGraphs.java:140-153 | every written row has eleven unquoted commas and splits into twelve fields |
| Csv.HeaderColumns | src/main/java/FootBallTeamsGraphs.java:137 | the header line splits into the twelve column names |
| Csv.KeepIntChars | src/main/java/graph/EvolutionGraphBuilder.java:369 | every kept character is a digit or '-' taken from the input, and text made only of them is unchanged |
| Csv.KeepIntCharsAppend | src/main/java/graph/EvolutionGraphBuilder.java:369 | the filter works character by character: the kept text of a concatenation is the concatenation of the kept texts |
| Csv.KeepIntCharsOne | src/main/java/graph/EvolutionGraphBuilder.java:369 | a single character is kept exactly when it is a digit or '-' |
| Csv.KeepIntCharsNone | src/main/java/graph/EvolutionGraphBuilder.java:369 | text with no digit and no '-' keeps nothing |
| Csv.ParseIntOfIntChars | src/main/java/graph/EvolutionGraphBuilder.java:369 | on digits and '-' alone, Integer.parseInt accepts exactly an optional leading '-' followed by digits whose value fits 32 bits |
| Csv.ParseIntSafe | src/main/java/graph/EvolutionGraphBuilder.java:364-373 | -1 for empty text, "N/A" and "-"; otherwise the value of the kept digits and '-' when they form an optional '-' and digits fitting 32 bits, and -1 when they do not; any result lies in the 32-bit range |
| Csv.ParseIntSafeSurrounded | src/main/java/graph/EvolutionGraphBuilder.java:364-373 | a number with text around it that holds no digit and no '-', such as "#10" or "-7 cm", reads as that number |
| Csv.ParseIntSafeOverflow | src/main/java/graph/EvolutionGraphBuilder.java:364-373 | the decimal text of a number above 2^31 - 1 reads as -1 |
| Csv.ParseIntSafeInnerMinus | src/main/java/graph/EvolutionGraphBuilder.java:364-373 | "1-2" keeps a '-' after a digit and reads as -1 |
| Csv.ParseIntSafeDoubleMinus | src/main/java/graph/EvolutionGraphBuilder.java:364-373 | "--5" reads as -1 |
| Csv.ParseIntSafeRoundTrip | src/main/java/graph/EvolutionGraphBuilder.java:364-373 | any 32-bit integer written in decimal is read back as itself |
| Csv.PlayerFromParts | src/main/java/graph/EvolutionGraphBuilder.java:110-124 | the record's name is the trimmed second field, and its number and age lie in the 32-bit range |
| Csv.RowRoundTrip | src/main/java/FootBallTeamsGraphs.java:140-153 | a player whose number and age fit 32 bits and whose text fields are trimmed and hold no quote or line break is written as a row that splits into its twelve values and is rebuilt as that same player |
| TeamFiles.MatchTeamSeason | src/main/java/graph/EvolutionGraphBuilder.java:74-80 | a match is a non-empty team part without line terminators, "_" and exactly four digits ending the name |
| TeamFiles.MatchComplete | src/main/java/graph/EvolutionGraphBuilder.java:74-80 | every name of that shape matches, with the team part and the digits as its two groups, so only other names are refused |
| TeamFiles.ParseTeamFileName | src/main/java/graph/EvolutionGraphBuilder.java:71-83 | a name parses exactly when, without ".csv", it matches; the team is the first group with each '_' turned into a space, the season the value of the four digits, in 0..9999 |
| TeamFiles.OnlyExtension | src/main/java/graph/EvolutionGraphBuilder.java:71 | on a name the scraper writes, removing ".csv" removes only the extension |
| TeamFiles.TeamFileName | src/main/java/FootBallTeamsGraphs.java:114 | the name ends with ".csv"; it starts with the team, each space turned into '_', and is five characters longer than team plus season text |
| TeamFiles.FileNameRoundTrip | src/main/java/FootBallTeamsGraphs.java:114 | the file the scraper names for a team (with no '_', line break or ".csv" in it) and a four-digit season parses back to that team and season |
| TeamFiles.FileNameLongSeason | src/main/java/graph/EvolutionGraphBuilder.java:74 | a five-digit season such as "Arsenal_20201.csv" is refused |
| TeamFiles.FileNameNoTeam | src/main/java/graph/EvolutionGraphBuilder.java:74 | a name with no team part, "_2020.csv", is refused |
| EdgeKeys.Canon | src/main/java/graph/EvolutionGraphBuilder.java:152-156 | the key pair is the two names in either order, never lexically descending |
| EdgeKeys.CanonSymmetric | src/main/java/graph/EvolutionGraphBuilder.java:152-156 | both orders of two names give the same pair |
| EdgeKeys.CreateEdgeKeySymmetric | src/main/java/graph/EvolutionGraphBuilder.java:152-156 | createEdgeKey(a, b) equals createEdgeKey(b, a) |
| EdgeKeys.ParseCreateEdgeKey | src/main/java/graph/EvolutionGraphBuilder.java:152-160 | for names the separator cannot confuse, parsing the key gives [smaller, larger] |
| EdgeKeys.CreateEdgeKey | src/main/java/graph/EvolutionGraphBuilder.java:152-156 | the key is the two names around "\|\|\|", the one compareTo does not put after the other first |
| EdgeKeys.ParseEdgeKey | src/main/java/graph/EvolutionGraphBuilder.java:158-160 | no piece of a parsed key holds "\|\|\|" |
| EdgeKeys.CreateEdgeKeyInjective | src/main/java/graph/EvolutionGraphBuilder.java:152-160 | for names the separator cannot confuse, two equal keys come from the same pair |
| EdgeKeys.CreateEdgeId | src/main/java/graph/EvolutionVisualizer.java:388-390 | the id is the two names around "-", the one compareTo does not put after the other first |
| EdgeKeys.JoinedInjective | src/main/java/graph/GraphBuilder.java:123 | with a one-character separator that neither name holds, such as the '-' of countEdges for hyphen-free names, the joined string determines the pair |
| EdgeKeys.ParseEdgeKeySplitsWrongly | src/main/java/graph/EvolutionGraphBuilder.java:152-160 | the names "A|" and "B" give the key "A||||B", which parses as ["A", "\|B"], the key of a different pair |
| EdgeKeys.CreateEdgeIdSymmetric | src/main/java/graph/EvolutionVisualizer.java:388-390 | the viewer's edge id does not depend on the order of the names |
| EdgeKeys.CreateEdgeIdCollides | src/main/java/graph/EvolutionVisualizer.java:388-390 | ("A-B", "C") and ("A", "B-C") get the same edge id |
| Graphs.CountEdges | src/main/java/graph/EvolutionGraphBuilder.java:288-303 | the count is the number of distinct unordered pairs among the graph's entries |
| Graphs.PairsAreLowEntries | src/main/java/graph/EvolutionGraphBuilder.java:288-303 | in a symmetric, loop-free graph the unordered pairs correspond one to one to the entries whose first name is the smaller |
| Graphs.CountHalvesEntries | src/main/java/graph/EvolutionGraphBuilder.java:288-303 | in a symmetric, loop-free graph twice the edge count is the number of entries, so each edge is counted once |
| Graphs.MostConnectedPlayer | src/main/java/graph/EvolutionGraphBuilder.java:305-310 | None exactly for the empty graph; otherwise a vertex of the graph whose degree no vertex exceeds |
| Temporal.IncrementCount | src/main/java/graph/EvolutionGraphBuilder.java:145-150 | exactly the count of that pair and season goes up by one; every other count is unchanged |
| Temporal.SnapshotEntries | src/main/java/graph/EvolutionGraphBuilder.java:171-189 | a season's graph has an entry a→b exactly when the pair has a positive count that season, with that count as weight |
| Temporal.SnapshotShape | src/main/java/graph/EvolutionGraphBuilder.java:171-189 | a season's graph is symmetric, loop-free, positive and has no empty rows |
| Temporal.CumulativeWeight | src/main/java/graph/EvolutionGraphBuilder.java:199-219 | the cumulative weight of a pair is the sum of its counts over the seasons up to the given one |
| Temporal.CumulativeShape | src/main/java/graph/EvolutionGraphBuilder.java:199-219 | the cumulative graph is symmetric, loop-free, positive and has no empty rows |
| Temporal.CumulativeMonotone | src/main/java/graph/EvolutionGraphBuilder.java:199-219 | a cumulative weight never decreases as the season grows |
| Temporal.CumulativeStep | src/main/java/graph/EvolutionGraphBuilder.java:199-219 | the cumulative weight up to u is the weight up to u - 1 plus the weight of season u |
| Temporal.FullGraphWeights | src/main/java/graph/EvolutionGraphBuilder.java:221-226 | with every season known, the full graph's weight of a pair is the sum of all its counts |
| Temporal.FullGraphEmpty | src/main/java/graph/EvolutionGraphBuilder.java:221-226 | the full graph is empty exactly when no pair has been recorded |
| Temporal.RosterKey | src/main/java/graph/EvolutionGraphBuilder.java:89 | the key starts with the team name and ends with "_" + the season's decimal text |
| Temporal.RosterKeySuffix | src/main/java/graph/EvolutionGraphBuilder.java:232 | a roster key ends with "_" + s exactly when its season is s |
| Temporal.RosterKeyInjective | src/main/java/graph/EvolutionGraphBuilder.java:259 | different (team, season) pairs give different roster keys |
| Temporal.ChurnSizes | src/main/java/graph/EvolutionGraphBuilder.java:240-256 | the joiners and the leavers of a season are within its active players; the joiners number its players less those also active the season before, the leavers those less the ones active the season after |
| Temporal.ChurnAtEnds | src/main/java/graph/EvolutionGraphBuilder.java:240-256 | when every roster season is known, all players active in the first known season are new and all active in the last known season depart |
| Temporal.TeamInSeason | src/main/java/graph/EvolutionGraphBuilder.java:258-261 | a team's roster for a season is part of that season's active players |
| Temporal.ActiveAfterReplace | src/main/java/graph/EvolutionGraphBuilder.java:133 | replacing one roster changes only its season's active players: the other rosters' players plus the new roster |
| Temporal.PairsOfCard | src/main/java/graph/EvolutionGraphBuilder.java:136-141 | n distinct players give n(n-1)/2 unordered pairs |
| Temporal.PairsOfMember | src/main/java/graph/EvolutionGraphBuilder.java:136-141 | a pair belongs to the roster's pairs exactly when it holds two different players of the roster |
| Temporal.AddedSnapshot | src/main/java/graph/EvolutionGraphBuilder.java:133-150 | after a file the season's graph gains weight one for each new pair; every other season's graph is unchanged |
| Temporal.RosterPairsAdded | src/main/java/graph/EvolutionGraphBuilder.java:136-141 | walking the roster list i < j adds one count for every pair of distinct players and for nothing else |
| Rows.RowName | src/main/java/graph/EvolutionGraphBuilder.java:101-107 | a row names a player only by a trimmed name that is neither empty nor "N/A" |
| Rows.RosterNamesMembers | src/main/java/graph/EvolutionGraphBuilder.java:95-107 | a name is on the roster exactly when some row after the header names it |
| Rows.RegisterRowsUntouched | src/main/java/graph/EvolutionGraphBuilder.java:110-126 | a name that no full row carries keeps its old record, or stays absent |
| Rows.RegisterRowsLastWins | src/main/java/graph/EvolutionGraphBuilder.java:110-126 | the last full row naming a player decides that player's record |
| Rows.RegisterRowsNames | src/main/java/graph/EvolutionGraphBuilder.java:110-126 | every record is filed under its own name |
| Evolution.StatsCountPairs | src/main/java/graph/EvolutionGraphBuilder.java:272 | a season's edge count is the number of pairs recorded in that season, and half the number of its adjacency entries |
| Evolution.StatsCountNodes | src/main/java/graph/EvolutionGraphBuilder.java:271 | a season's node count is the number of players appearing in some pair recorded in that season |
| Evolution.StatsInOrder | src/main/java/graph/EvolutionGraphBuilder.java:264-286 | the statistics list holds each known season once, in ascending order |
| Evolution.EvolutionGraphBuilder.constructor | src/main/java/graph/EvolutionGraphBuilder.java:23-36 | every map and set starts empty |
| Evolution.EvolutionGraphBuilder.AddTemporalEdge | src/main/java/graph/EvolutionGraphBuilder.java:145-150 | the store becomes the old store with one more count of the season for the pair |
| Evolution.EvolutionGraphBuilder.ProcessTeamFile | src/main/java/graph/EvolutionGraphBuilder.java:70-142 | covered in detail below the table |
| Evolution.EvolutionGraphBuilder.ReadRows | src/main/java/graph/EvolutionGraphBuilder.java:91-127 | the row loop returns the roster names and re-registers the records of the rows |
| Evolution.EvolutionGraphBuilder.FileRoster | src/main/java/graph/EvolutionGraphBuilder.java:133-141 | the roster of the team-season is replaced, and every pair of its players gains exactly one count of the season |
| Evolution.EvolutionGraphBuilder.AddRosterPairs | src/main/java/graph/EvolutionGraphBuilder.java:136-141 | the double loop adds one count of the season for each unordered pair of the list |
| Evolution.EvolutionGraphBuilder.GetSeasonSnapshot | src/main/java/graph/EvolutionGraphBuilder.java:171-189 | the result is the season's graph of the store |
| Evolution.EvolutionGraphBuilder.SumUpTo | src/main/java/graph/EvolutionGraphBuilder.java:205-208 | the loop returns the sum of a pair's counts over every season at or before upToSeason |
| Evolution.EvolutionGraphBuilder.ReadTeamSeason | src/main/java/graph/EvolutionGraphBuilder.java:85-128 | team and season are noted, every full row (re)registers its player and the names of the rows are returned, whatever the read's outcome |
| Evolution.EvolutionGraphBuilder.GetCumulativeGraph | src/main/java/graph/EvolutionGraphBuilder.java:199-219 | the result is the cumulative graph of the store up to the season |
| Evolution.EvolutionGraphBuilder.GetFullGraph | src/main/java/graph/EvolutionGraphBuilder.java:221-226 | the result is the cumulative graph up to the last known season; it is empty exactly when the store is |
| Evolution.EvolutionGraphBuilder.GetPlayersInSeason | src/main/java/graph/EvolutionGraphBuilder.java:228-238 | the result is the union of the rosters filed for the season |
| Evolution.EvolutionGraphBuilder.GetNewPlayers | src/main/java/graph/EvolutionGraphBuilder.java:240-247 | p is returned exactly when p is active in the season and was not active in the one before; in the first known season every active player is new |
| Evolution.EvolutionGraphBuilder.GetDepartedPlayers | src/main/java/graph/EvolutionGraphBuilder.java:249-256 | p is returned exactly when p is active in the season and is not active in the one after; in the last known season every active player departs |
| Evolution.EvolutionGraphBuilder.GetPlayersForTeam | src/main/java/graph/EvolutionGraphBuilder.java:258-261 | the filed roster, which lies within the season's active players; empty when none was filed |
| Evolution.EvolutionGraphBuilder.GetStats | src/main/java/graph/EvolutionGraphBuilder.java:267-282 | the season's players, node count and edge count, as the store defines them |
| Evolution.EvolutionGraphBuilder.StatsOf | src/main/java/graph/EvolutionGraphBuilder.java:264-286 | for a list of seasons, one entry per season in list order, each equal to that season's statistics |
| Evolution.EvolutionGraphBuilder.GetEvolutionStats | src/main/java/graph/EvolutionGraphBuilder.java:264-286 | one entry per known season, seasons ascending, each equal to that season's statistics |
| Filters.KeepAmong | src/main/java/graph/EvolutionVisualizer.java:341-346 | the row's entries whose neighbour is one of the players |
| Filters.FilterByPlayers | src/main/java/graph/EvolutionVisualizer.java:335-354 | the loop computes the player-filtered graph |
| Filters.PlayersFilteredEdges | src/main/java/graph/EvolutionVisualizer.java:335-354 | an entry a→b is kept exactly when both ends are players, with its weight; a vertex stays exactly when it keeps an entry |
| Filters.PlayersFilteredIdempotent | src/main/java/graph/EvolutionVisualizer.java:335-354 | filtering twice by the same players equals filtering once |
| Filters.PlayersFilteredSymmetric | src/main/java/graph/EvolutionVisualizer.java:335-354 | a symmetric graph stays symmetric |
| Filters.PlayersFilteredKeys | src/main/java/graph/EvolutionVisualizer.java:335-354 | the result's vertices are among the players, so there are at most as many of them |
| Filters.KeepAtLeast | src/main/java/graph/EvolutionVisualizer.java:361-366 | the row's entries whose weight is at least the threshold |
| Filters.FilterByMinWeight | src/main/java/graph/EvolutionVisualizer.java:356-373 | the loop computes the weight-filtered graph |
| Filters.WeightFilteredEdges | src/main/java/graph/EvolutionVisualizer.java:356-373 | an entry is kept exactly when its weight reaches the threshold, with its weight; a vertex stays exactly when it keeps an entry |
| Filters.WeightFilteredIdempotent | src/main/java/graph/EvolutionVisualizer.java:356-373 | filtering twice by the same threshold equals filtering once |
| Filters.WeightFilteredSymmetric | src/main/java/graph/EvolutionVisualizer.java:356-373 | a symmetric graph stays symmetric |
| Filters.WeightFilteredOne | src/main/java/graph/EvolutionVisualizer.java:323-325 | on a positive graph without empty rows, threshold 1 keeps everything, so skipping that filter loses nothing |
| Filters.FilteredNoEmptyRows | src/main/java/graph/EvolutionVisualizer.java:347-349 | neither filter leaves a vertex with no entries |
| Filters.MaxDegreeIn | src/main/java/graph/EvolutionVisualizer.java:378-379 | a candidate whose degree no candidate exceeds |
| Filters.SelectTop | src/main/java/graph/EvolutionVisualizer.java:376-382 | min(maxN, \|g\|) vertices, none of them less connected than any vertex left out |
| Filters.TopCutAll | src/main/java/graph/EvolutionVisualizer.java:375-382 | when maxN reaches the vertex count the top set is every vertex |
| Filters.SymmetricClosed | src/main/java/graph/EvolutionVisualizer.java:375-386 | in a symmetric graph every target of an entry is itself a vertex |
| Filters.RowsAllKept | src/main/java/graph/EvolutionVisualizer.java:335-354 | keeping players that include every vertex and every target keeps each non-empty row whole |
| Filters.PlayersFilteredAll | src/main/java/graph/EvolutionVisualizer.java:335-354 | keeping all the vertices of a graph with closed rows and no empty row returns the graph |
| Filters.TopAll | src/main/java/graph/EvolutionVisualizer.java:375-386 | with room for every vertex, the top subgraph of a symmetric graph without empty rows is the graph |
| Filters.LimitToTopNodes | src/main/java/graph/EvolutionVisualizer.java:375-386 | the subgraph among such a top set, so with at most maxN vertices; the graph itself when maxN reaches its size, it is symmetric and no row is empty |
| Visualizer.PlayersFilteredSubgraph | src/main/java/graph/EvolutionVisualizer.java:335-354 | the player filter only removes entries, keeping their weights |
| Visualizer.WeightFilteredSubgraph | src/main/java/graph/EvolutionVisualizer.java:356-373 | the weight filter only removes entries, keeping their weights |
| Visualizer.StagesShape | src/main/java/graph/EvolutionVisualizer.java:307-333 | the pipeline keeps a symmetric graph symmetric and within the base; it respects the threshold above 1 and the node limit |
| Visualizer.FilterStages | src/main/java/graph/EvolutionVisualizer.java:316-330 | the result is what the team, weight and size stages give in turn |
| Visualizer.IndexOfSeason | src/main/java/graph/EvolutionVisualizer.java:199 | -1 exactly when the season is absent; otherwise its first position |
| Visualizer.ShortenName | src/main/java/graph/EvolutionVisualizer.java:392-398 | fails exactly when the name has two parts or more and the first is empty; with fewer than two parts, the name itself, or its first 12 characters and "..." when longer than 15 |
| Visualizer.ShortenOneWord | src/main/java/graph/EvolutionVisualizer.java:397 | a name without spaces is kept, or cut to 12 characters and "..." when longer than 15 |
| Visualizer.ShortenWords | src/main/java/graph/EvolutionVisualizer.java:392-396 | two or more words joined by single spaces, with or without a trailing space, become the first word's initial, ". " and the last word ("Jan Van Persie" gives "J. Persie") |
| Visualizer.ShortenTrailingSpace | src/main/java/graph/EvolutionVisualizer.java:393-397 | one word and a trailing space, such as "Bob ", is one part, so the name is kept, space included, or cut |
| Visualizer.ShortenLeadingSpace | src/main/java/graph/EvolutionVisualizer.java:395 | a name starting with a space makes the method fail |
| Visualizer.EvolutionVisualizer.constructor | src/main/java/graph/EvolutionVisualizer.java:30-58 | the builder's seasons, ascending; the first of them as the current season (0 if none); all teams; weight 1; 100 nodes; cumulative |
| Visualizer.EvolutionVisualizer.SelectSeasonAt | src/main/java/graph/EvolutionVisualizer.java:109-114 | the current season becomes the season at the slider's position |
| Visualizer.EvolutionVisualizer.SelectTeam | src/main/java/graph/EvolutionVisualizer.java:132-135 | the selected team becomes the chosen entry |
| Visualizer.EvolutionVisualizer.SetMinWeight | src/main/java/graph/EvolutionVisualizer.java:140-144 | the threshold becomes the spinner value, 1 to 20 |
| Visualizer.EvolutionVisualizer.SetMaxNodeCount | src/main/java/graph/EvolutionVisualizer.java:149-153 | the node limit becomes the spinner value, 10 to 500 |
| Visualizer.EvolutionVisualizer.SetCumulative | src/main/java/graph/EvolutionVisualizer.java:160 | the cumulative flag follows the checkbox |
| Visualizer.EvolutionVisualizer.NavigateSeason | src/main/java/graph/EvolutionVisualizer.java:198-207 | moves to the neighbouring season when the index stays in range; otherwise changes nothing |
| Visualizer.EvolutionVisualizer.GetFilteredGraph | src/main/java/graph/EvolutionVisualizer.java:307-333 | the staged pipeline on the chosen base graph: symmetric, within the base, at most maxNodeCount vertices, every weight at least minWeight when that is above 1 |
| CoPlay.BasicRowName | src/main/java/graph/GraphBuilder.java:81-85 | a row names a player when it has two comma pieces or more and its trimmed second piece is not empty |
| CoPlay.RowNameListMembers | src/main/java/graph/GraphBuilder.java:75-87 | a name is in the list exactly when some row after the header names it, in row order |
| CoPlay.FirstWriteWins | src/main/java/graph/GraphBuilder.java:90-92 | the first record registered under a name is kept |
| CoPlay.WithEdgeWeights | src/main/java/graph/GraphBuilder.java:111-114 | exactly the entry a→b gains one |
| CoPlay.WithPairWeights | src/main/java/graph/GraphBuilder.java:102-103 | both directions of the pair gain one, and nothing else changes |
| CoPlay.WithPairSwap | src/main/java/graph/GraphBuilder.java:102-103 | adding the pair either way round gives the same graph |
| CoPlay.WithPairSymmetric | src/main/java/graph/GraphBuilder.java:102-103 | adding a pair keeps a symmetric graph symmetric |
| CoPlay.WithPairsSymmetric | src/main/java/graph/GraphBuilder.java:100-105 | the pair loop keeps a symmetric graph symmetric |
| CoPlay.WithPairsWeights | src/main/java/graph/GraphBuilder.java:100-105 | each weight grows by the number of times its pair is walked |
| CoPlay.RosterPairsWeights | src/main/java/graph/GraphBuilder.java:100-105 | for a roster without repeated names, each pair of distinct players gains exactly one in each direction |
| CoPlay.NoSelfPairs | src/main/java/graph/GraphBuilder.java:100-105 | a roster without repeated names adds no self-loop |
| CoPlay.RepeatedNameSelfLoop | src/main/java/graph/GraphBuilder.java:87-105 | a roster listing "A" twice gives "A" a self-loop of weight 2 |
| CoPlay.EdgeIdsUndercount | src/main/java/graph/GraphBuilder.java:119-128 | a graph with two undirected pairs whose names contain '-' is counted as one edge |
| CoPlay.EdgeIdsExact | src/main/java/graph/GraphBuilder.java:119-128 | when no name contains '-', the counted ids are exactly as many as the undirected pairs |
| CoPlay.GraphBuilder.constructor | src/main/java/graph/GraphBuilder.java:25-32 | empty player and adjacency maps |
| CoPlay.GraphBuilder.AddEdge | src/main/java/graph/GraphBuilder.java:111-114 | the adjacency becomes the old one with a→b raised by one |
| CoPlay.GraphBuilder.ProcessTeamFile | src/main/java/graph/GraphBuilder.java:68-106 | the rows register their names first-write-wins even on a failed read; a complete read adds every i < j pair of the name list |
| CoPlay.GraphBuilder.ReadNames | src/main/java/graph/GraphBuilder.java:71-93 | the name list of the rows after the header, with their records put if absent |
| CoPlay.GraphBuilder.AddRosterPairs | src/main/java/graph/GraphBuilder.java:100-105 | the double loop adds every i < j pair of the list in both directions |
| CoPlay.GraphBuilder.AddPairsFrom | src/main/java/graph/GraphBuilder.java:101-104 | the inner loop adds the pairs of one name with every later name |
| CoPlay.GraphBuilder.CountEdges | src/main/java/graph/GraphBuilder.java:119-128 | the count of distinct "a-b" ids over the adjacency, not of pairs (see F2) |
| CoPlay.GraphBuilder.MostConnected | src/main/java/graph/GraphBuilder.java:138-146 | None exactly when every row is empty; otherwise a vertex whose degree no vertex exceeds, with that degree |

`Evolution.EvolutionGraphBuilder.ProcessTeamFile` states the following:

- A file name that does not match changes nothing.
- Otherwise the team and the season become known at once, and the rows
  register their records even when the read fails.
- A failed read leaves the rosters and the counts unchanged.
- A complete read files the roster and adds one count of the season for every
  pair of its players.

## Left out

- **File I/O:** listing the folder, opening files and reading lines are not
  modelled. The lines read and a read-failed flag are parameters instead.
  `loadFromFolder` and `loadAndBuildFromFolder` are loops over such calls.
- **UI and other classes:** `GraphVisualizer`, the Swing and GraphStream views
  of `EvolutionVisualizer`, its styling and its animation thread, are left
  out. So are `EvolutionExporter` and `PlayerScraper`'s network scraping.
  They are user interface, rendering, timing and HTTP.
- **Printing:** `printEvolutionSummary` and `printSummary` are not modelled.
  Only the scan for the most-connected player is.
- **downloadAllTeamData:** only the file name it builds and the CSV it writes
  are modelled.
- **Java int:** weights and counts are unbounded integers. Java's 32-bit
  overflow on more than 2^31 counts is not modelled. `parseIntSafe` does keep
  to the 32-bit range.
- **HashMap order:** iteration order is a nondeterministic choice. Results are
  specified independently of it. Where the code's result depends on it (the
  tie among equally connected players), the contract admits any of the tied
  players.
- Graphs.CountEdges: counts the distinct unordered name pairs. The code's
  countEdges counts distinct createEdgeKey strings, which merge ("A|", "B")
  with ("A", "|B"). The model keys edges by the pair, the corrected half of
  finding F1.
- Filters.LimitToTopNodes: the stream's sort order among equal degrees is not
  fixed. The contract says which vertex sets can come out: any top set
  allowed by the degree order.
- **Setters:** the spinner ranges 1..20 and 10..500 are preconditions of the
  setters, because the spinners never deliver other values.
- **Full graph:** the full graph is empty exactly when no pair was recorded,
  not when no season is known. A season whose files hold no pair gives an
  empty graph although the season is known. `Temporal.FullGraphEmpty` states
  what the code does.
- **Edges:** the temporal store is keyed by the ordered name pair that the
  "|||" key encodes. This is the corrected half of finding F1.
- **Rosters:** the roster map is keyed by (team, season). Its string form is
  covered by `Temporal.RosterKeySuffix` and `Temporal.RosterKeyInjective`.
- **Unicode:** a Dafny `char` is a Unicode scalar value, while a Java `String`
  is a sequence of UTF-16 code units. For names inside the Basic Multilingual
  Plane the two agree. For a name with a character outside it they differ:
  `compareTo` compares code units, so Java puts "\uFFFF" after a
  supplementary character while `JavaStrings.Less` puts it before; and
  `shortenName`'s `charAt(0)`, `length() > 15` and `substring(0, 12)` count and
  cut code units, so Java may keep half a surrogate pair where the model keeps
  whole characters and counts fewer of them. `trim` and `split` only look at
  characters at or below a space and at ASCII separators, so they agree.
- **Exceptions:** an exception inside `shortenName` is modelled as `None`. A
  null passed to `escapeCSV` is modelled as `None`.
- **Quotes inside values:** `parseCSVLine` drops every quote character. It
  does not undo the doubling that `escapeCSV` applies, so a value containing a
  quote is read back without it. `Csv.EscapeRoundTrip` states this exactly.
- **Line breaks inside values:** the reader works on lines already split, so
  the row round trip is stated for values without '\n' or '\r'.

## Findings

| source | as written | input that shows it | evidently intended | confidence | as-written member | corrected member |
|---|---|---|---|---|---|---|
| src/main/java/graph/EvolutionGraphBuilder.java:152-160 | the edge key joins the two names with "\|\|\|" and is split on the first "\|\|\|" | names "A\|" and "B": the key "A\|\|\|\|B" parses to ["A", "\|B"], and ("A", "\|B") has that same key | the key identifies its pair and parses back to it | not executed | EdgeKeys.ParseEdgeKeySplitsWrongly | Evolution.EvolutionGraphBuilder.AddTemporalEdge |
| src/main/java/graph/GraphBuilder.java:119-128 | countEdges counts distinct "a-b" strings | the pairs ("A-B", "C") and ("A", "B-C") both give "A-B-C", so two edges count as one | the number of undirected edges | not executed | CoPlay.EdgeIdsUndercount | Graphs.CountEdges |

About F1, the edge key:

- The corrected store keys each pair by the ordered pair `EdgeKeys.Canon`.
- `Temporal.SnapshotEntries` and `Graphs.CountEdges` are proved on that store.
- `EdgeKeys.ParseCreateEdgeKey` names the inputs for which the string key
  would have been enough.

About F2, the edge count:

- `Graphs.CountEdges` counts the distinct unordered pairs.
- `Graphs.CountHalvesEntries` shows that each edge is counted exactly once.
- `CoPlay.EdgeIdsExact` shows the code agrees when no name contains '-'.
