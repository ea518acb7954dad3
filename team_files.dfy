/**
 * Team-season file names: the name the downloader gives a roster file
 * ("Bayern Munich", 2020 -> "Bayern_Munich_2020.csv") and the match the
 * temporal builder runs on it, "(.+)_(\d{4})$" against the name with every
 * ".csv" removed.
 */
module TeamFiles {
  import opened Wrappers
  import opened JavaStrings

  datatype TeamSeason = TeamSeason(team: string, season: int)

  /** The characters '.' does not match in a java.util.regex pattern. */
  predicate IsLineTerminator(c: char)
  {
    c == '\n' || c == '\r' || c == '\U{85}' || c == '\U{2028}' || c == '\U{2029}'
  }

  predicate NoLineTerminator(s: string) { forall i :: 0 <= i < |s| ==> !IsLineTerminator(s[i]) }

  /** getName().replace(".csv", ""). */
  function StripCsv(fileName: string): string { ReplaceAll(fileName, ".csv", "") }

  /** Matcher.matches() of "(.+)_(\d{4})$": the two groups, or None. The
      second group is the last four characters; the first is everything
      before the '_' in front of them, at least one character, none a line
      terminator. */
  function MatchTeamSeason(base: string): (r: Option<(string, string)>)
    ensures r.Some? ==> base == r.value.0 + "_" + r.value.1
    ensures r.Some? ==> |r.value.0| > 0 && NoLineTerminator(r.value.0)
    ensures r.Some? ==> |r.value.1| == 4 && AllDigits(r.value.1)
  {
    var n := |base|;
    if n >= 6 && base[n - 5] == '_' && AllDigits(base[n - 4..]) && NoLineTerminator(base[..n - 5]) then
      assert base == base[..n - 5] + "_" + base[n - 4..];
      Some((base[..n - 5], base[n - 4..]))
    else None
  }

  /** base splits as the pattern's groups: a non-empty team part without
      line terminators, "_", and four digits. */
  predicate MatchesAs(base: string, team: string, digits: string)
  {
    && base == team + "_" + digits
    && |team| > 0 && NoLineTerminator(team)
    && |digits| == 4 && AllDigits(digits)
  }

  /** Every split of that shape is found, so matches() fails only on names
      that have none, and the groups are those of the split. */
  lemma MatchComplete(base: string, team: string, digits: string)
    requires MatchesAs(base, team, digits)
    ensures MatchTeamSeason(base) == Some((team, digits))
  {
    var n := |base|;
    assert n == |team| + 5;
    assert base[..n - 5] == team;
    assert base[n - 5] == '_';
    assert base[n - 4..] == digits;
  }

  /** The team name (each '_' read back as a space) and the season of a
      roster file, or None when the builder skips the file. */
  function ParseTeamFileName(fileName: string): (r: Option<TeamSeason>)
    ensures r.Some? <==> MatchTeamSeason(StripCsv(fileName)).Some?
    ensures r.Some? ==>
              var g := MatchTeamSeason(StripCsv(fileName)).value;
              && |r.value.team| == |g.0|
              && (forall i :: 0 <= i < |g.0| ==> r.value.team[i] == if g.0[i] == '_' then ' ' else g.0[i])
              && r.value.season == DigitsValue(g.1)
    ensures r.Some? ==> '_' !in r.value.team && |r.value.team| > 0
    ensures r.Some? ==> 0 <= r.value.season <= 9999
  {
    match MatchTeamSeason(StripCsv(fileName))
    case None => None
    case Some((g1, g2)) =>
      ReplaceAllChar(g1, '_', ' ');
      assert forall i :: 0 <= i < |g1| ==> ReplaceAll(g1, "_", " ")[i] != '_';
      FourDigitsBound(g2);
      Some(TeamSeason(ReplaceAll(g1, "_", " "), DigitsValue(g2)))
  }

  lemma FourDigitsBound(d: string)
    requires |d| == 4 && AllDigits(d)
    ensures DigitsValue(d) <= 9999
  {
    var d1, d2, d3 := d[..1], d[..2], d[..3];
    assert d1[..0] == [] && d2[..1] == d1 && d3[..2] == d2 && d[..3] == d3;
    assert DigitsValue(d1) <= 9;
    assert DigitsValue(d2) <= 99;
    assert DigitsValue(d3) <= 999;
  }

  /** FootBallTeamsGraphs' file name: spaces to '_', then "_" + season + ".csv". */
  function TeamFileName(team: string, season: int): (r: string)
    ensures |r| == |team| + |IntToString(season)| + 5 && r[|r| - 4..] == ".csv"
    ensures forall i :: 0 <= i < |team| ==> r[i] == (if team[i] == ' ' then '_' else team[i])
  {
    ReplaceAllChar(team, ' ', '_');
    ReplaceAll(team, " ", "_") + "_" + IntToString(season) + ".csv"
  }

  /** The names the reader gives back as written: not empty, no '_', no line
      terminator, no ".csv" inside, and a four-digit season. */
  predicate RoundTrips(team: string, season: int)
  {
    && |team| > 0 && '_' !in team && NoLineTerminator(team)
    && !Contains(team, ".csv") && 1000 <= season <= 9999
  }

  /** Changing spaces to '_' keeps the positions of every other character. */
  lemma Underscored(team: string)
    ensures |ReplaceAll(team, " ", "_")| == |team|
    ensures forall i :: 0 <= i < |team| ==>
              ReplaceAll(team, " ", "_")[i] == (if team[i] == ' ' then '_' else team[i])
  {
    ReplaceAllChar(team, ' ', '_');
  }

  /** Changing spaces to '_' cannot create a ".csv". */
  lemma UnderscoredNoCsv(team: string)
    requires !Contains(team, ".csv")
    ensures forall i :: !OccursAt(ReplaceAll(team, " ", "_"), ".csv", i)
  {
    UnderscoredCsv(team);
  }

  /** Every ".csv" after the change was already a ".csv" before it. */
  lemma UnderscoredCsv(team: string)
    ensures forall i :: OccursAt(ReplaceAll(team, " ", "_"), ".csv", i) ==> OccursAt(team, ".csv", i)
  {
    var t := ReplaceAll(team, " ", "_");
    var p := ".csv";
    Underscored(team);
    forall i | OccursAt(t, p, i) ensures OccursAt(team, p, i) {
      forall k | 0 <= k < 4 ensures team[i..i + 4][k] == p[k] {
        assert t[i..i + 4][k] == t[i + k] == p[k];
      }
    }
  }

  /** Behind a '_' and four digits, the only ".csv" is the last one. */
  lemma CsvOnlyAtEnd(t: string, d: string)
    requires forall i :: !OccursAt(t, ".csv", i)
    requires |d| == 4 && AllDigits(d)
    ensures forall i | 0 <= i < |t| + 5 :: !OccursAt(t + "_" + d + ".csv", ".csv", i)
  {
    var p := ".csv";
    var s := t + "_" + d + p;
    assert forall j :: |t| < j < |t| + 5 ==> s[j] == d[j - |t| - 1];
    forall i | 0 <= i < |t| + 5 ensures !OccursAt(s, p, i) {
      if i > |t| {
        assert s[i..i + 4][0] == s[i];
      } else if i + 4 > |t| {
        assert s[i..i + 4][|t| - i] == s[|t|] == '_';
      } else {
        assert !OccursAt(t, p, i);
        assert s[i..i + 4] == t[i..i + 4];
      }
    }
  }

  /** The only ".csv" in a written file name is its extension. */
  lemma OnlyExtension(team: string, season: int)
    requires RoundTrips(team, season)
    ensures StripCsv(TeamFileName(team, season))
            == ReplaceAll(team, " ", "_") + "_" + IntToString(season)
  {
    var t := ReplaceAll(team, " ", "_");
    var d := IntToString(season);
    var x := t + "_" + d;
    var p := ".csv";
    UnderscoredNoCsv(team);
    NatToStringFourDigits(season);
    CsvOnlyAtEnd(t, d);
    assert |x| == |t| + 5;
    ReplaceAllPrefix(x, p, p, "");
    assert ReplaceAll(p, p, "") == "";
    assert x + "" == x;
  }

  /** Writing a roster file name and reading it back gives the team and the
      season. */
  lemma FileNameRoundTrip(team: string, season: int)
    requires RoundTrips(team, season)
    ensures ParseTeamFileName(TeamFileName(team, season)) == Some(TeamSeason(team, season))
  {
    var t := ReplaceAll(team, " ", "_");
    var d := IntToString(season);
    var x := t + "_" + d;
    OnlyExtension(team, season);
    Underscored(team);
    NatToStringFourDigits(season);
    NatToStringRoundTrip(season);
    assert x[..|x| - 5] == t && x[|x| - 4..] == d;
    assert NoLineTerminator(t);
    assert MatchTeamSeason(x) == Some((t, d));
    ReplaceAllChar(t, '_', ' ');
    assert ReplaceAll(t, "_", " ") == team;
  }

  /** Without a '.', only the extension is removed. */
  lemma StripCsvPlain(x: string)
    requires '.' !in x
    ensures StripCsv(x + ".csv") == x
  {
    var p := ".csv";
    forall i | 0 <= i < |x| ensures !OccursAt(x + p, p, i) {
      assert (x + p)[i..i + 4][0] == (x + p)[i] == x[i];
    }
    ReplaceAllPrefix(x, p, p, "");
    assert ReplaceAll(p, p, "") == "";
    assert x + "" == x;
  }

  /** A five-digit season does not match, so the builder skips the file. */
  lemma FileNameLongSeason()
    ensures ParseTeamFileName("Arsenal_20201.csv") == None
  {
    StripCsvPlain("Arsenal_20201");
    assert "Arsenal_20201" + ".csv" == "Arsenal_20201.csv";
  }

  /** The team group may not be empty. */
  lemma FileNameNoTeam()
    ensures ParseTeamFileName("_2020.csv") == None
  {
    StripCsvPlain("_2020");
    assert "_2020" + ".csv" == "_2020.csv";
  }
}
