/**
 * The roster file codec: the quoted-CSV line splitter and the safe integer
 * parser of the temporal builder, the field escaper and row layout of the
 * downloader, and the decoding of a split row into a Player.
 */
module Csv {
  import opened Wrappers
  import opened JavaStrings
  import opened Players
  import Seqs

  // ------------------------------------------------------- line splitter

  /** The splitter's loop state: finished fields, the field being read, and
      whether the scan is inside double quotes. */
  datatype ScanState = ScanState(fields: seq<string>, current: string, inQuotes: bool)

  const Start := ScanState([], "", false)

  /** One character of the splitter's loop: a quote toggles the flag and is
      dropped, an unquoted comma closes the (trimmed) field, anything else is
      appended. */
  function Step(st: ScanState, c: char): ScanState
  {
    if c == '"' then st.(inQuotes := !st.inQuotes)
    else if c == ',' && !st.inQuotes then ScanState(st.fields + [Trim(st.current)], "", false)
    else st.(current := st.current + [c])
  }

  /** The loop state after reading all of s. */
  function Scan(st: ScanState, s: string): ScanState
    decreases |s|
  {
    if |s| == 0 then st else Step(Scan(st, s[..|s| - 1]), s[|s| - 1])
  }

  lemma {:induction false} ScanConcat(st: ScanState, x: string, y: string)
    ensures Scan(st, x + y) == Scan(Scan(st, x), y)
    decreases |y|
  {
    if |y| == 0 {
      assert x + y == x;
    } else {
      assert (x + y)[..|x + y| - 1] == x + y[..|y| - 1];
      ScanConcat(st, x, y[..|y| - 1]);
    }
  }

  /** What parseCSVLine returns for a line. */
  function ParseFields(line: string): seq<string>
  {
    var st := Scan(Start, line);
    st.fields + [Trim(st.current)]
  }

  /** parseCSVLine: the char loop with its StringBuilder and quote flag. */
  method ParseCSVLine(line: string) returns (parts: seq<string>)
    ensures parts == ParseFields(line)
  {
    var fields: seq<string> := [];
    var current := "";
    var inQuotes := false;
    var i := 0;
    while i < |line|
      invariant 0 <= i <= |line|
      invariant Scan(Start, line[..i]) == ScanState(fields, current, inQuotes)
    {
      var c := line[i];
      if c == '"' {
        inQuotes := !inQuotes;
      } else if c == ',' && !inQuotes {
        fields := fields + [Trim(current)];
        current := "";
      } else {
        current := current + [c];
      }
      assert line[..i + 1][..i] == line[..i];
      i := i + 1;
    }
    assert line[..i] == line;
    parts := fields + [Trim(current)];
  }

  /** Number of double quotes in s. */
  function QuoteCount(s: string): nat
  {
    if |s| == 0 then 0 else QuoteCount(s[..|s| - 1]) + (if s[|s| - 1] == '"' then 1 else 0)
  }

  /** Number of commas in s preceded by an even number of double quotes. */
  function UnquotedCommas(s: string): nat
  {
    if |s| == 0 then 0
    else UnquotedCommas(s[..|s| - 1])
         + (if s[|s| - 1] == ',' && QuoteCount(s[..|s| - 1]) % 2 == 0 then 1 else 0)
  }

  lemma {:induction false} ScanQuoteParity(s: string)
    ensures Scan(Start, s).inQuotes <==> QuoteCount(s) % 2 == 1
  {
    if |s| > 0 {
      var init := s[..|s| - 1];
      ScanQuoteParity(init);
      if s[|s| - 1] == '"' {
        FlipParity(QuoteCount(init));
      }
    }
  }

  lemma FlipParity(q: nat)
    ensures q % 2 == 1 <==> (q + 1) % 2 == 0
  {
  }

  lemma {:induction false} ScanCounts(s: string)
    ensures |Scan(Start, s).fields| == UnquotedCommas(s)
  {
    if |s| > 0 {
      var init := s[..|s| - 1];
      ScanCounts(init);
      ScanQuoteParity(init);
      var st := Scan(Start, init);
      assert Scan(Start, s) == Step(st, s[|s| - 1]);
      assert |Step(st, s[|s| - 1]).fields|
             == |st.fields| + (if s[|s| - 1] == ',' && !st.inQuotes then 1 else 0);
    }
  }

  /** A line splits into one more field than it has commas outside quotes. */
  lemma FieldCount(line: string)
    ensures |ParseFields(line)| == UnquotedCommas(line) + 1
  {
    ScanCounts(line);
  }

  ghost predicate CleanState(st: ScanState) {
    && '"' !in st.current
    && forall i :: 0 <= i < |st.fields| ==> '"' !in st.fields[i] && IsTrimmed(st.fields[i])
  }

  lemma {:induction false} ScanClean(s: string)
    ensures CleanState(Scan(Start, s))
  {
    if |s| > 0 {
      var st := Scan(Start, s[..|s| - 1]);
      ScanClean(s[..|s| - 1]);
      assert Scan(Start, s) == Step(st, s[|s| - 1]);
      StepClean(st, s[|s| - 1]);
    }
  }

  /** One character keeps the fields and the current text clean. */
  lemma StepClean(st: ScanState, c: char)
    requires CleanState(st)
    ensures CleanState(Step(st, c))
  {
    if c == ',' && !st.inQuotes {
      var f := Trim(st.current);
      assert '"' !in f by {
        TrimChars(st.current);
      }
      var fs := st.fields + [f];
      forall i | 0 <= i < |fs| ensures '"' !in fs[i] && IsTrimmed(fs[i]) {
        if i < |st.fields| {
          assert fs[i] == st.fields[i];
        }
      }
    }
  }

  /** Every field comes out trimmed and without quote characters. */
  lemma FieldsClean(line: string)
    ensures forall i :: 0 <= i < |ParseFields(line)| ==>
              '"' !in ParseFields(line)[i] && IsTrimmed(ParseFields(line)[i])
  {
    ScanClean(line);
    TrimChars(Scan(Start, line).current);
  }

  // ------------------------------------------------------------- escaper

  /** v with every double quote written twice, char by char. */
  function Doubled(v: string): (r: string)
    ensures |r| >= |v|
  {
    if |v| == 0 then "" else (if v[0] == '"' then "\"\"" else [v[0]]) + Doubled(v[1..])
  }

  /** replace("\"", "\"\"") doubles every quote and keeps every other char. */
  lemma {:induction false} ReplaceQuotesDoubled(v: string)
    ensures ReplaceAll(v, "\"", "\"\"") == Doubled(v)
    decreases |v|
  {
    if |v| > 0 {
      ReplaceQuotesDoubled(v[1..]);
      assert v[..1] == [v[0]];
    }
  }

  /** escapeCSV: null becomes empty; a value holding a comma or a quote is
      wrapped in quotes with each inner quote doubled; others are unchanged. */
  function EscapeCSV(value: Option<string>): (r: string)
    ensures value.None? ==> r == ""
    ensures value.Some? && ',' !in value.value && '"' !in value.value ==> r == value.value
    ensures value.Some? && (',' in value.value || '"' in value.value) ==>
              r == "\"" + Doubled(value.value) + "\""
  {
    match value
    case None => ""
    case Some(v) =>
      ContainsChar(v, ',');
      ContainsChar(v, '"');
      ReplaceQuotesDoubled(v);
      if Contains(v, ",") || Contains(v, "\"") then "\"" + ReplaceAll(v, "\"", "\"\"") + "\""
      else v
  }

  /** v with its double quotes removed. */
  function RemoveQuotes(v: string): (r: string)
    ensures '"' !in r
  {
    if |v| == 0 then "" else (if v[0] == '"' then "" else [v[0]]) + RemoveQuotes(v[1..])
  }

  /** What the splitter gives back for a field the escaper wrote. */
  function Unquote(v: string): string { Trim(RemoveQuotes(v)) }

  lemma {:induction false} ScanPlain(st: ScanState, v: string)
    requires '"' !in v && ',' !in v
    ensures Scan(st, v) == st.(current := st.current + v)
    decreases |v|
  {
    if |v| > 0 {
      ScanPlain(st, v[..|v| - 1]);
      assert v[..|v| - 1] + [v[|v| - 1]] == v;
    }
  }

  /** Inside quotes, the doubled-quote text adds just the unquoted chars. */
  lemma {:induction false} ScanDoubled(st: ScanState, v: string)
    requires st.inQuotes
    ensures Scan(st, ReplaceAll(v, "\"", "\"\"")) == st.(current := st.current + RemoveQuotes(v))
    decreases |v|
  {
    if |v| == 0 {
      assert st.current + "" == st.current;
    } else {
      var rest := ReplaceAll(v[1..], "\"", "\"\"");
      var st1 := if v[0] == '"' then st else st.(current := st.current + [v[0]]);
      if v[0] == '"' {
        assert v[..1] == "\"";
        assert ReplaceAll(v, "\"", "\"\"") == "\"\"" + rest;
        assert Scan(st, "\"\"") == st by {
          assert "\"\""[..1] == "\"";
          assert ("\""[..0]) == "";
        }
        ScanConcat(st, "\"\"", rest);
      } else {
        assert v[..1] != "\"";
        assert ReplaceAll(v, "\"", "\"\"") == [v[0]] + rest;
        assert Scan(st, [v[0]]) == st1 by { assert [v[0]][..0] == ""; }
        ScanConcat(st, [v[0]], rest);
      }
      ScanDoubled(st1, v[1..]);
      var head := if v[0] == '"' then "" else [v[0]];
      assert RemoveQuotes(v) == head + RemoveQuotes(v[1..]);
      assert st1.current == st.current + head;
      assert (st.current + head) + RemoveQuotes(v[1..]) == st.current + (head + RemoveQuotes(v[1..]));
    }
  }

  /** Outside quotes, an escaped value adds its unquoted chars to the field. */
  lemma ScanEscaped(st: ScanState, v: string)
    requires !st.inQuotes
    ensures Scan(st, EscapeCSV(Some(v))) == st.(current := st.current + RemoveQuotes(v))
  {
    if ',' in v || '"' in v {
      var d := ReplaceAll(v, "\"", "\"\"");
      assert EscapeCSV(Some(v)) == ("\"" + d) + "\"";
      ScanConcat(st, "\"" + d, "\"");
      ScanConcat(st, "\"", d);
      assert Scan(st, "\"") == st.(inQuotes := true) by { assert "\""[..0] == ""; }
      ScanDoubled(st.(inQuotes := true), d[..0] + v[..0] + v);
      assert d[..0] + v[..0] + v == v;
      assert Scan(st.(inQuotes := false).(current := st.current + RemoveQuotes(v)).(inQuotes := true), "\"")
             == st.(current := st.current + RemoveQuotes(v)) by { assert "\""[..0] == ""; }
    } else {
      ScanPlain(st, v);
      RemoveQuotesAbsent(v);
    }
  }

  lemma {:induction false} RemoveQuotesAbsent(v: string)
    requires '"' !in v
    ensures RemoveQuotes(v) == v
  {
    if |v| > 0 {
      assert v == [v[0]] + v[1..];
      RemoveQuotesAbsent(v[1..]);
    }
  }

  /** The splitter reads an escaped value back as the value without quotes,
      trimmed. */
  lemma EscapeRoundTrip(v: string)
    ensures ParseFields(EscapeCSV(Some(v))) == [Unquote(v)]
  {
    var st := Scan(Start, EscapeCSV(Some(v)));
    ScanEscaped(Start, v);
    assert "" + RemoveQuotes(v) == RemoveQuotes(v);
    assert st == ScanState([], RemoveQuotes(v), false);
    assert ParseFields(EscapeCSV(Some(v))) == st.fields + [Trim(st.current)];
  }

  /** A value with no quote and no surrounding blanks comes back unchanged. */
  lemma EscapeRoundTripPlain(v: string)
    requires '"' !in v && IsTrimmed(v)
    ensures ParseFields(EscapeCSV(Some(v))) == [v]
  {
    EscapeRoundTrip(v);
    RemoveQuotesAbsent(v);
    TrimTrimmed(v);
  }

  // ---------------------------------------------------------- row layout

  /** Cells joined by commas. */
  function JoinCsv(cells: seq<string>): string
    decreases |cells|
  {
    if |cells| == 0 then ""
    else if |cells| == 1 then cells[0]
    else JoinCsv(cells[..|cells| - 1]) + "," + cells[|cells| - 1]
  }

  function EscapeAll(vals: seq<string>): (r: seq<string>)
    ensures |r| == |vals|
  {
    if |vals| == 0 then [] else EscapeAll(vals[..|vals| - 1]) + [EscapeCSV(Some(vals[|vals| - 1]))]
  }

  lemma {:induction false} EscapeAllAt(vals: seq<string>, i: nat)
    requires i < |vals|
    ensures EscapeAll(vals)[i] == EscapeCSV(Some(vals[i]))
  {
    if i < |vals| - 1 { EscapeAllAt(vals[..|vals| - 1], i); }
  }

  /** Escaping a list part by part is escaping it whole. */
  lemma {:induction false} EscapeAllAppend(a: seq<string>, b: seq<string>)
    ensures EscapeAll(a + b) == EscapeAll(a) + EscapeAll(b)
    decreases |b|
  {
    if |b| > 0 {
      var ab := a + b;
      assert ab[..|ab| - 1] == a + b[..|b| - 1];
      EscapeAllAppend(a, b[..|b| - 1]);
    } else {
      assert a + b == a;
    }
  }

  function UnquoteAll(vals: seq<string>): (r: seq<string>)
    ensures |r| == |vals|
  {
    if |vals| == 0 then [] else UnquoteAll(vals[..|vals| - 1]) + [Unquote(vals[|vals| - 1])]
  }

  lemma {:induction false} UnquoteAllAt(vals: seq<string>, i: nat)
    requires i < |vals|
    ensures UnquoteAll(vals)[i] == Unquote(vals[i])
  {
    if i < |vals| - 1 { UnquoteAllAt(vals[..|vals| - 1], i); }
  }

  lemma {:induction false} ScanJoined(vals: seq<string>)
    requires |vals| > 0
    ensures Scan(Start, JoinCsv(EscapeAll(vals)))
            == ScanState(UnquoteAll(vals[..|vals| - 1]), RemoveQuotes(vals[|vals| - 1]), false)
  {
    var n := |vals|;
    if n == 1 {
      ScanEscaped(Start, vals[0]);
      assert "" + RemoveQuotes(vals[0]) == RemoveQuotes(vals[0]);
      assert JoinCsv(EscapeAll(vals)) == EscapeCSV(Some(vals[0]));
    } else {
      var init := vals[..n - 1];
      var cells := EscapeAll(vals);
      assert cells[..n - 1] == EscapeAll(init) && cells[n - 1] == EscapeCSV(Some(vals[n - 1]));
      var prefix := JoinCsv(EscapeAll(init));
      var last := EscapeCSV(Some(vals[n - 1]));
      assert JoinCsv(cells) == prefix + "," + last;
      ScanJoined(init);
      var st := Scan(Start, prefix);
      assert st == ScanState(UnquoteAll(init[..n - 2]), RemoveQuotes(init[n - 2]), false);
      ScanConcat(Start, prefix + ",", last);
      ScanConcat(Start, prefix, ",");
      var st2 := ScanState(st.fields + [Trim(st.current)], "", false);
      assert Scan(st, ",") == st2 by {
        assert ","[..0] == "";
      }
      ScanEscaped(st2, vals[n - 1]);
      assert "" + RemoveQuotes(vals[n - 1]) == RemoveQuotes(vals[n - 1]);
      Seqs.InitLast(init);
      assert UnquoteAll(init) == UnquoteAll(init[..n - 2]) + [Unquote(init[n - 2])];
      assert st2.fields == UnquoteAll(init);
      assert vals[..n - 1] == init;
    }
  }

  /** A row of escaped values splits back into the values, unquoted. */
  lemma JoinedRoundTrip(vals: seq<string>)
    requires |vals| > 0
    ensures ParseFields(JoinCsv(EscapeAll(vals))) == UnquoteAll(vals)
  {
    ScanJoined(vals);
    Seqs.InitLast(vals);
  }

  /** A value the splitter reads back as written and that stays on its
      line: no quote, no surrounding blanks, no line break. */
  predicate Clean(v: string) { '"' !in v && IsTrimmed(v) && '\n' !in v && '\r' !in v }

  lemma UnquoteClean(v: string)
    requires Clean(v)
    ensures Unquote(v) == v
  {
    RemoveQuotesAbsent(v);
    TrimTrimmed(v);
  }

  lemma {:induction false} UnquoteAllClean(vals: seq<string>)
    requires forall i :: 0 <= i < |vals| ==> Clean(vals[i])
    ensures UnquoteAll(vals) == vals
  {
    if |vals| > 0 {
      UnquoteAllClean(vals[..|vals| - 1]);
      UnquoteClean(vals[|vals| - 1]);
      Seqs.InitLast(vals);
    }
  }

  lemma {:induction false} EscapeAllPlain(vals: seq<string>)
    requires forall i :: 0 <= i < |vals| ==> ',' !in vals[i] && '"' !in vals[i]
    ensures EscapeAll(vals) == vals
  {
    if |vals| > 0 {
      EscapeAllPlain(vals[..|vals| - 1]);
      Seqs.InitLast(vals);
    }
  }

  /** The column names of the header line saveToCSV writes first. */
  const Columns: seq<string> :=
    ["Number", "Name", "Position", "DateOfBirth", "Age", "Nationality",
     "CurrentClub", "Height", "Foot", "Joined", "SignedFrom", "MarketValue"]

  /** The header line: the column names separated by commas. */
  const Header: string := JoinCsv(Columns)

  /** The values saveToCSV writes for one player, one per column, before escaping. */
  function RowValues(p: Player): (r: seq<string>)
    ensures |r| == |Columns|
  {
    [IntToString(p.number), p.name, p.position, p.dateOfBirth, IntToString(p.age),
     p.nationality, p.currentClub, p.height, p.foot, p.joined, p.signedFrom, p.marketValue]
  }

  /** The text attributes written between the shirt number and the age. */
  function LeadingText(p: Player): seq<string> { [p.name, p.position, p.dateOfBirth] }

  /** The text attributes written after the age. */
  function TrailingText(p: Player): seq<string>
  {
    [p.nationality, p.currentClub, p.height, p.foot, p.joined, p.signedFrom, p.marketValue]
  }

  /** The cells of one data row: the numbers as written, every text attribute escaped. */
  function RowCells(p: Player): seq<string>
  {
    [IntToString(p.number)] + EscapeAll(LeadingText(p)) + [IntToString(p.age)] + EscapeAll(TrailingText(p))
  }

  /** One data row of saveToCSV. */
  function CsvRow(p: Player): string { JoinCsv(RowCells(p)) }

  lemma IntCellUnchanged(n: int)
    ensures EscapeCSV(Some(IntToString(n))) == IntToString(n)
    ensures Clean(IntToString(n))
  {
    var s := IntToString(n);
    IntToStringChars(n);
    assert ',' !in s && '"' !in s;
  }

  /** Writing the numbers unescaped is the same as escaping every value. */
  lemma CsvRowEscapesValues(p: Player)
    ensures RowCells(p) == EscapeAll(RowValues(p))
  {
    IntCellUnchanged(p.number);
    IntCellUnchanged(p.age);
    var n, g := [IntToString(p.number)], [IntToString(p.age)];
    var lead, trail := LeadingText(p), TrailingText(p);
    assert RowValues(p) == n + lead + g + trail;
    EscapeAllAppend(n + lead + g, trail);
    EscapeAllAppend(n + lead, g);
    EscapeAllAppend(n, lead);
    assert EscapeAll(n) == n && EscapeAll(g) == g by {
      assert n[..0] == [] && g[..0] == [];
    }
  }

  /** Every row, whatever its values, splits into exactly the twelve columns,
      separated by eleven commas outside quotes. */
  lemma RowHasTwelveFields(p: Player)
    ensures |ParseFields(CsvRow(p))| == |Columns| == 12
    ensures UnquotedCommas(CsvRow(p)) == 11
  {
    CsvRowEscapesValues(p);
    JoinedRoundTrip(RowValues(p));
    FieldCount(CsvRow(p));
  }

  /** The splitter reads the header back as the column names. */
  /** A non-empty word of ASCII letters is written as it is. */
  lemma LettersClean(v: string)
    requires |v| > 0 && forall k :: 0 <= k < |v| ==> 'A' <= v[k] <= 'z'
    ensures ',' !in v && Clean(v)
  {
  }

  lemma HeaderColumns()
    ensures ParseFields(Header) == Columns
  {
    var c := Columns;
    forall i | 0 <= i < |c| ensures ',' !in c[i] && Clean(c[i]) {
      LettersClean(c[i]);
    }
    EscapeAllPlain(c);
    UnquoteAllClean(c);
    JoinedRoundTrip(c);
  }

  // ------------------------------------------------------- safe integers

  predicate IsIntChar(c: char) { IsDigit(c) || c == '-' }

  /** value.replaceAll("[^0-9-]", ""): keeps the ASCII digits and minus signs. */
  function KeepIntChars(s: string): (r: string)
    ensures forall k :: 0 <= k < |r| ==> IsIntChar(r[k]) && r[k] in s
    ensures (forall k :: 0 <= k < |s| ==> IsIntChar(s[k])) ==> r == s
  {
    if |s| == 0 then ""
    else KeepIntChars(s[..|s| - 1]) + (if IsIntChar(s[|s| - 1]) then [s[|s| - 1]] else [])
  }

  /** KeepIntChars filters char by char: it distributes over concatenation. */
  lemma {:induction false} KeepIntCharsAppend(a: string, b: string)
    ensures KeepIntChars(a + b) == KeepIntChars(a) + KeepIntChars(b)
    decreases |b|
  {
    if |b| == 0 {
      assert a + b == a;
    } else {
      var b' := b[..|b| - 1];
      assert (a + b)[..|a + b| - 1] == a + b' && (a + b)[|a + b| - 1] == b[|b| - 1];
      KeepIntCharsAppend(a, b');
    }
  }

  /** One char is kept exactly when it is a digit or '-'. */
  lemma KeepIntCharsOne(c: char)
    ensures KeepIntChars([c]) == if IsIntChar(c) then [c] else []
  {
    assert [c][..0] == "";
  }

  /** The texts Integer.parseInt accepts among those made of digits and '-':
      an optional leading '-' and then at least one digit. */
  predicate SignedDigits(k: string)
  {
    if |k| > 0 && k[0] == '-' then |k| > 1 && AllDigits(k[1..]) else |k| > 0 && AllDigits(k)
  }

  function SignedValue(k: string): int
    requires SignedDigits(k)
  {
    if k[0] == '-' then -(DigitsValue(k[1..]) as int) else DigitsValue(k)
  }

  /** On digits and '-' only, Integer.parseInt accepts exactly the signed
      digit strings whose value fits 32 bits. */
  lemma ParseIntOfIntChars(k: string)
    requires forall i :: 0 <= i < |k| ==> IsIntChar(k[i])
    ensures ParseInt(k) == if SignedDigits(k) && IntMin <= SignedValue(k) <= IntMax then Some(SignedValue(k)) else None
  {
    if |k| > 0 {
      assert k[0] != '+';
    }
  }

  /** parseIntSafe: -1 for "N/A", "-", the empty string, and whatever
      Integer.parseInt rejects after the non-numeric chars are dropped;
      otherwise the value of the kept digits and sign. */
  function ParseIntSafe(value: string): (r: int)
    ensures IntMin <= r <= IntMax
    ensures value == "N/A" || value == "-" || value == "" ==> r == -1
    ensures (forall k :: 0 <= k < |value| ==> !IsDigit(value[k])) ==> r == -1
    ensures value != "N/A" && value != "-" && value != "" ==>
              var k := KeepIntChars(value);
              r == if SignedDigits(k) && IntMin <= SignedValue(k) <= IntMax then SignedValue(k) else -1
  {
    if value == "N/A" || value == "-" || value == "" then -1
    else
      var kept := KeepIntChars(value);
      ParseIntOfIntChars(kept);
      match ParseInt(kept)
      case Some(v) =>
        assert IsDigit(kept[|kept| - 1]) && kept[|kept| - 1] in value;
        v
      case None => -1
  }

  /** A minus sign inside the digits makes the kept text unparseable. */
  lemma ParseIntSafeInnerMinus()
    ensures ParseIntSafe("1-2") == -1
  {
    var v := "1-2";
    assert KeepIntChars(v) == v by {
      assert forall k :: 0 <= k < |v| ==> IsIntChar(v[k]);
    }
    assert !SignedDigits(v) by {
      assert v[0] != '-' && !IsDigit(v[1]);
    }
    ParseIntSafeOfKept(v, v);
  }

  /** So does a doubled sign. */
  lemma ParseIntSafeDoubleMinus()
    ensures ParseIntSafe("--5") == -1
  {
    var v := "--5";
    assert KeepIntChars(v) == v by {
      assert forall k :: 0 <= k < |v| ==> IsIntChar(v[k]);
    }
    assert !SignedDigits(v) by {
      assert v[0] == '-' && !IsDigit(v[1..][0]);
    }
    ParseIntSafeOfKept(v, v);
  }

  /** parseIntSafe on a value once its kept text is known. */
  lemma ParseIntSafeOfKept(value: string, k: string)
    requires value != "N/A" && value != "-" && value != "" && KeepIntChars(value) == k
    ensures ParseIntSafe(value) == if SignedDigits(k) && IntMin <= SignedValue(k) <= IntMax then SignedValue(k) else -1
  {
  }

  /** Digits whose value exceeds 32 bits give -1. */
  lemma ParseIntSafeOverflow(n: nat)
    requires n > IntMax
    ensures ParseIntSafe(NatToString(n)) == -1
  {
    var k := NatToString(n);
    assert KeepIntChars(k) == k;
    NatToStringRoundTrip(n);
    assert IsDigit(k[0]);
    assert k != "N/A" && k != "-";
    ParseIntSafeOfKept(k, k);
  }

  /** A text with no digit and no '-' is dropped entirely. */
  lemma {:induction false} KeepIntCharsNone(s: string)
    requires forall i :: 0 <= i < |s| ==> !IsIntChar(s[i])
    ensures KeepIntChars(s) == ""
  {
    if |s| > 0 {
      KeepIntCharsNone(s[..|s| - 1]);
    }
  }

  /** Chars other than digits and '-' around t leave just t. */
  lemma KeepIntCharsAround(pre: string, t: string, post: string)
    requires forall i :: 0 <= i < |pre| ==> !IsIntChar(pre[i])
    requires forall i :: 0 <= i < |t| ==> IsIntChar(t[i])
    requires forall i :: 0 <= i < |post| ==> !IsIntChar(post[i])
    ensures KeepIntChars(pre + t + post) == t
  {
    assert KeepIntChars(pre + t) == t by {
      KeepIntCharsNone(pre);
      KeepIntCharsAppend(pre, t);
      assert "" + t == t;
    }
    assert KeepIntChars(pre + t + post) == t by {
      KeepIntCharsNone(post);
      KeepIntCharsAppend(pre + t, post);
      assert t + "" == t;
    }
  }

  /** A 32-bit number with other chars (no digit, no '-') before and after
      it is read as that number: "#10" gives 10 and "-7 cm" gives -7. */
  lemma ParseIntSafeSurrounded(pre: string, n: int, post: string)
    requires IntMin <= n <= IntMax
    requires forall i :: 0 <= i < |pre| ==> !IsIntChar(pre[i])
    requires forall i :: 0 <= i < |post| ==> !IsIntChar(post[i])
    ensures ParseIntSafe(pre + IntToString(n) + post) == n
  {
    var t := IntToString(n);
    var value := pre + t + post;
    IntToStringChars(n);
    KeepIntCharsAround(pre, t, post);
    assert value != "N/A" && value != "-" && value != "" by {
      assert value[|pre| + |t| - 1] == t[|t| - 1];
      assert IsDigit(t[|t| - 1]);
      assert !IsDigit('N') && !IsDigit('/') && !IsDigit('A') && !IsDigit('-');
    }
    ParseIntRoundTrip(n);
    ParseIntOfIntChars(t);
    ParseIntSafeOfKept(value, t);
  }

  /** The numbers saveToCSV writes are read back as the same numbers. */
  lemma ParseIntSafeRoundTrip(n: int)
    requires IntMin <= n <= IntMax
    ensures ParseIntSafe(IntToString(n)) == n
  {
    var s := IntToString(n);
    assert KeepIntChars(s) == s;
    ParseIntRoundTrip(n);
    assert s != "N/A" && s != "-";
  }

  // ------------------------------------------------------ record decoding

  /** The Player built from a split row of at least twelve fields. */
  function PlayerFromParts(parts: seq<string>): (p: Player)
    requires |parts| >= 12
    ensures p.name == Trim(parts[1])
    ensures IntMin <= p.number <= IntMax && IntMin <= p.age <= IntMax
  {
    Player(ParseIntSafe(parts[0]), Trim(parts[1]), parts[2], parts[3], ParseIntSafe(parts[4]),
           parts[5], parts[6], parts[7], parts[8], parts[9], parts[10], parts[11])
  }

  /** A player whose text survives the codec: 32-bit numbers, clean text. */
  predicate WellFormed(p: Player)
  {
    && IntMin <= p.number <= IntMax && IntMin <= p.age <= IntMax
    && Clean(p.name) && Clean(p.position) && Clean(p.dateOfBirth) && Clean(p.nationality)
    && Clean(p.currentClub) && Clean(p.height) && Clean(p.foot) && Clean(p.joined)
    && Clean(p.signedFrom) && Clean(p.marketValue)
  }

  /** Writing a well-formed player as a row and decoding the split row gives
      the same player back. */
  lemma RowRoundTrip(p: Player)
    requires WellFormed(p)
    ensures ParseFields(CsvRow(p)) == RowValues(p)
    ensures PlayerFromParts(ParseFields(CsvRow(p))) == p
  {
    var vals := RowValues(p);
    CsvRowEscapesValues(p);
    JoinedRoundTrip(vals);
    IntCellUnchanged(p.number);
    IntCellUnchanged(p.age);
    var u := UnquoteAll(vals);
    UnquoteAllAt(vals, 0); UnquoteAllAt(vals, 1); UnquoteAllAt(vals, 2); UnquoteAllAt(vals, 3);
    UnquoteAllAt(vals, 4); UnquoteAllAt(vals, 5); UnquoteAllAt(vals, 6); UnquoteAllAt(vals, 7);
    UnquoteAllAt(vals, 8); UnquoteAllAt(vals, 9); UnquoteAllAt(vals, 10); UnquoteAllAt(vals, 11);
    UnquoteClean(p.name); UnquoteClean(p.position); UnquoteClean(p.dateOfBirth);
    UnquoteClean(p.nationality); UnquoteClean(p.currentClub); UnquoteClean(p.height);
    UnquoteClean(p.foot); UnquoteClean(p.joined); UnquoteClean(p.signedFrom);
    UnquoteClean(p.marketValue); UnquoteClean(IntToString(p.number));
    UnquoteClean(IntToString(p.age));
    Seqs.Equal12(u, vals);
    ParseIntSafeRoundTrip(p.number);
    ParseIntSafeRoundTrip(p.age);
    TrimTrimmed(p.name);
  }
}
