/**
 * What one roster file contributes to the temporal builder, row by row:
 * the header is skipped, a row names a player when its second field,
 * trimmed, is neither empty nor "N/A", and a row of at least twelve fields
 * also (re)registers that player's record.
 */
module Rows {
  import opened Wrappers
  import opened JavaStrings
  import opened Players
  import opened Csv

  /** The lines after the header line. */
  function Body(lines: seq<string>): seq<string>
  {
    if |lines| == 0 then [] else lines[1..]
  }

  /** The player a row names, or None when the row is skipped. */
  function RowName(line: string): (r: Option<string>)
    ensures r.Some? ==> r.value != "" && r.value != "N/A" && IsTrimmed(r.value)
  {
    var parts := ParseFields(line);
    if |parts| < 2 then None
    else
      var name := Trim(parts[1]);
      if name == "" || name == "N/A" then None else Some(name)
  }

  /** The row both names a player and carries a full record. */
  predicate Registers(line: string)
  {
    RowName(line).Some? && |ParseFields(line)| >= 12
  }

  /** The row's (name, record) when it registers a player. */
  function RowEntry(line: string): (r: Option<(string, Player)>)
    ensures r.Some? ==> Registers(line) && r.value.0 == RowName(line).value
  {
    if Registers(line) then Some((RowName(line).value, PlayerFromParts(ParseFields(line)))) else None
  }

  /** The per-row results, in file order. */
  function RowNames(rows: seq<string>): (r: seq<Option<string>>)
    ensures |r| == |rows|
  {
    if |rows| == 0 then [] else RowNames(rows[..|rows| - 1]) + [RowName(rows[|rows| - 1])]
  }

  function RowEntries(rows: seq<string>): (r: seq<Option<(string, Player)>>)
    ensures |r| == |rows|
  {
    if |rows| == 0 then [] else RowEntries(rows[..|rows| - 1]) + [RowEntry(rows[|rows| - 1])]
  }

  lemma {:induction false} RowNamesAt(rows: seq<string>, i: int)
    requires 0 <= i < |rows|
    ensures RowNames(rows)[i] == RowName(rows[i])
  {
    if i < |rows| - 1 {
      RowNamesAt(rows[..|rows| - 1], i);
    }
  }

  lemma {:induction false} RowEntriesAt(rows: seq<string>, i: int)
    requires 0 <= i < |rows|
    ensures RowEntries(rows)[i] == RowEntry(rows[i])
  {
    if i < |rows| - 1 {
      RowEntriesAt(rows[..|rows| - 1], i);
    }
  }

  /** The names among the results, as the roster set collects them. */
  function Collect(ns: seq<Option<string>>): set<string>
  {
    if |ns| == 0 then {}
    else
      var init := Collect(ns[..|ns| - 1]);
      match ns[|ns| - 1]
      case None => init
      case Some(name) => init + {name}
  }

  /** The player map after the entries, each put under its name in order. */
  function PutAll(players: map<string, Player>, es: seq<Option<(string, Player)>>): map<string, Player>
  {
    if |es| == 0 then players
    else
      var init := PutAll(players, es[..|es| - 1]);
      match es[|es| - 1]
      case None => init
      case Some(e) => init[e.0 := e.1]
  }

  function RosterNames(rows: seq<string>): set<string> { Collect(RowNames(rows)) }

  function RegisterRows(players: map<string, Player>, rows: seq<string>): map<string, Player>
  {
    PutAll(players, RowEntries(rows))
  }

  lemma {:induction false} CollectMembers(ns: seq<Option<string>>, x: string)
    ensures x in Collect(ns) <==> exists i :: 0 <= i < |ns| && ns[i] == Some(x)
  {
    if |ns| > 0 {
      var init := ns[..|ns| - 1];
      CollectMembers(init, x);
      if exists i :: 0 <= i < |init| && init[i] == Some(x) {
        var i :| 0 <= i < |init| && init[i] == Some(x);
        assert ns[i] == init[i];
      }
      if exists i :: 0 <= i < |ns| && ns[i] == Some(x) {
        var i :| 0 <= i < |ns| && ns[i] == Some(x);
        if i < |init| { assert init[i] == ns[i]; }
      }
    }
  }

  lemma {:induction false} PutAllUntouched(players: map<string, Player>, es: seq<Option<(string, Player)>>, x: string)
    requires forall i :: 0 <= i < |es| && es[i].Some? ==> es[i].value.0 != x
    ensures x in PutAll(players, es) <==> x in players
    ensures x in players ==> PutAll(players, es)[x] == players[x]
  {
    if |es| > 0 {
      var init := es[..|es| - 1];
      assert forall i :: 0 <= i < |init| ==> init[i] == es[i];
      PutAllUntouched(players, init, x);
    }
  }

  lemma {:induction false} PutAllLastWins(players: map<string, Player>, es: seq<Option<(string, Player)>>, j: int)
    requires 0 <= j < |es| && es[j].Some?
    requires forall i :: j < i < |es| && es[i].Some? ==> es[i].value.0 != es[j].value.0
    ensures es[j].value.0 in PutAll(players, es)
    ensures PutAll(players, es)[es[j].value.0] == es[j].value.1
  {
    var init := es[..|es| - 1];
    if j < |es| - 1 {
      assert forall i :: 0 <= i < |init| ==> init[i] == es[i];
      PutAllLastWins(players, init, j);
    }
  }

  /** A name is on the roster exactly when some row names it. */
  lemma RosterNamesMembers(rows: seq<string>, x: string)
    ensures x in RosterNames(rows) <==> exists i :: 0 <= i < |rows| && RowName(rows[i]) == Some(x)
  {
    CollectMembers(RowNames(rows), x);
    forall i | 0 <= i < |rows| ensures RowNames(rows)[i] == RowName(rows[i]) {
      RowNamesAt(rows, i);
    }
  }

  /** A name no full row registers keeps its old entry (or stays absent). */
  lemma RegisterRowsUntouched(players: map<string, Player>, rows: seq<string>, x: string)
    requires forall i :: 0 <= i < |rows| && Registers(rows[i]) ==> RowName(rows[i]).value != x
    ensures x in RegisterRows(players, rows) <==> x in players
    ensures x in players ==> RegisterRows(players, rows)[x] == players[x]
  {
    forall i | 0 <= i < |rows| ensures RowEntries(rows)[i] == RowEntry(rows[i]) {
      RowEntriesAt(rows, i);
    }
    PutAllUntouched(players, RowEntries(rows), x);
  }

  /** The last full row naming a player decides its record. */
  lemma RegisterRowsLastWins(players: map<string, Player>, rows: seq<string>, j: int)
    requires 0 <= j < |rows| && Registers(rows[j])
    requires forall i :: j < i < |rows| && Registers(rows[i]) ==> RowName(rows[i]) != RowName(rows[j])
    ensures RowName(rows[j]).value in RegisterRows(players, rows)
    ensures RegisterRows(players, rows)[RowName(rows[j]).value] == PlayerFromParts(ParseFields(rows[j]))
  {
    forall i | 0 <= i < |rows| ensures RowEntries(rows)[i] == RowEntry(rows[i]) {
      RowEntriesAt(rows, i);
    }
    PutAllLastWins(players, RowEntries(rows), j);
  }

  /** Every record registered from the rows is filed under its own name. */
  lemma {:induction false} PutAllNames(players: map<string, Player>, es: seq<Option<(string, Player)>>)
    requires forall x | x in players :: players[x].name == x
    requires forall i :: 0 <= i < |es| && es[i].Some? ==> es[i].value.1.name == es[i].value.0
    ensures forall x | x in PutAll(players, es) :: PutAll(players, es)[x].name == x
  {
    if |es| > 0 {
      var init := es[..|es| - 1];
      assert forall i :: 0 <= i < |init| ==> init[i] == es[i];
      PutAllNames(players, init);
    }
  }

  lemma RegisterRowsNames(players: map<string, Player>, rows: seq<string>)
    requires forall x | x in players :: players[x].name == x
    ensures forall x | x in RegisterRows(players, rows) :: RegisterRows(players, rows)[x].name == x
  {
    forall i | 0 <= i < |rows| ensures RowEntries(rows)[i] == RowEntry(rows[i]) {
      RowEntriesAt(rows, i);
    }
    PutAllNames(players, RowEntries(rows));
  }

  /** One more row adds its name, if it names one. */
  lemma RosterNamesSnoc(rows: seq<string>, line: string)
    ensures RosterNames(rows + [line])
            == RosterNames(rows) + (if RowName(line).Some? then {RowName(line).value} else {})
  {
    var r := rows + [line];
    assert r[..|r| - 1] == rows;
    var ns := RowNames(r);
    assert ns[..|ns| - 1] == RowNames(rows);
  }

  lemma RowEntriesSnoc(rows: seq<string>, line: string)
    ensures RowEntries(rows + [line]) == RowEntries(rows) + [RowEntry(line)]
  {
    var r := rows + [line];
    assert r[..|r| - 1] == rows;
  }

  lemma PutAllSnoc(players: map<string, Player>, es: seq<Option<(string, Player)>>, e: Option<(string, Player)>)
    ensures PutAll(players, es + [e]) == if e.Some? then PutAll(players, es)[e.value.0 := e.value.1] else PutAll(players, es)
  {
    var r := es + [e];
    assert r[..|r| - 1] == es;
  }

  /** One more row puts its record, if it carries a full one. */
  lemma RegisterRowsSnoc(players: map<string, Player>, rows: seq<string>, line: string)
    ensures RegisterRows(players, rows + [line])
            == if Registers(line) then RegisterRows(players, rows)[RowName(line).value := PlayerFromParts(ParseFields(line))]
               else RegisterRows(players, rows)
  {
    RowEntriesSnoc(rows, line);
    PutAllSnoc(players, RowEntries(rows), RowEntry(line));
  }

  /** The lines after the header among the first next = i + 1 lines. */
  lemma BodyStep(lines: seq<string>, i: int, next: int)
    requires 0 <= i < |lines| && next == i + 1
    ensures Body(lines[..next]) == if i == 0 then [] else Body(lines[..i]) + [lines[i]]
  {
    if i > 0 {
      assert Body(lines[..next]) == lines[1..next];
      assert Body(lines[..i]) == lines[1..i];
      assert lines[1..next] == lines[1..i] + [lines[i]];
    }
  }

  /** What the row loop tests, on the split row. */
  lemma RowNameOf(line: string, parts: seq<string>)
    requires parts == ParseFields(line)
    ensures |parts| < 2 ==> RowName(line) == None
    ensures |parts| >= 2 && (Trim(parts[1]) == "" || Trim(parts[1]) == "N/A") ==> RowName(line) == None
    ensures |parts| >= 2 && Trim(parts[1]) != "" && Trim(parts[1]) != "N/A" ==> RowName(line) == Some(Trim(parts[1]))
    ensures Registers(line) <==> RowName(line).Some? && |parts| >= 12
  {
  }
}
