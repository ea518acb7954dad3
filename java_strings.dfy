/**
 * The java.lang.String and java.lang.Integer behaviours the core relies on,
 * written out over seq<char>: trim, compareTo, indexOf, replace, split,
 * Integer.toString and Integer.parseInt.
 */
module JavaStrings {
  import opened Wrappers

  // ---------------------------------------------------------------- trim

  /** String.trim() strips every char whose code is at most U+0020. */
  predicate IsTrimmable(c: char) { c <= ' ' }

  /** Neither the first nor the last char is trimmable. */
  predicate IsTrimmed(s: string) {
    |s| == 0 || (!IsTrimmable(s[0]) && !IsTrimmable(s[|s| - 1]))
  }

  function TrimStart(s: string): (r: string)
    ensures |r| <= |s| && r == s[|s| - |r|..]
    ensures |r| == 0 || !IsTrimmable(r[0])
    ensures forall i :: 0 <= i < |s| - |r| ==> IsTrimmable(s[i])
  {
    if |s| > 0 && IsTrimmable(s[0]) then TrimStart(s[1..]) else s
  }

  function TrimEnd(s: string): (r: string)
    ensures |r| <= |s| && r == s[..|r|]
    ensures |r| == 0 || !IsTrimmable(r[|r| - 1])
    ensures forall i :: |r| <= i < |s| ==> IsTrimmable(s[i])
  {
    if |s| > 0 && IsTrimmable(s[|s| - 1]) then TrimEnd(s[..|s| - 1]) else s
  }

  /** The number of leading trimmable chars of s. */
  function Lead(s: string): (n: nat)
    ensures n <= |s|
  {
    |s| - |TrimStart(s)|
  }

  /** String.trim(). TrimSlice states exactly which slice of s it is. */
  function Trim(s: string): (r: string)
    ensures IsTrimmed(r) && |r| <= |s|
  {
    var e := TrimEnd(s);
    var r := TrimStart(e);
    assert |r| > 0 ==> r[|r| - 1] == e[|e| - 1];
    r
  }

  /** trim() returns the slice of s that starts after its leading trimmable
      chars and leaves only trimmable chars after it. */
  lemma TrimSlice(s: string)
    ensures Lead(s) + |Trim(s)| <= |s|
    ensures forall k :: 0 <= k < |Trim(s)| ==> Trim(s)[k] == s[Lead(s) + k]
    ensures forall k :: 0 <= k < Lead(s) ==> IsTrimmable(s[k])
    ensures forall k :: Lead(s) + |Trim(s)| <= k < |s| ==> IsTrimmable(s[k])
  {
    TrimBothEnds(s);
  }

  lemma TrimBothEnds(s: string)
    ensures Lead(s) + |TrimStart(TrimEnd(s))| <= |s|
    ensures forall k :: 0 <= k < |TrimStart(TrimEnd(s))| ==> TrimStart(TrimEnd(s))[k] == s[Lead(s) + k]
    ensures forall k :: Lead(s) + |TrimStart(TrimEnd(s))| <= k < |s| ==> IsTrimmable(s[k])
  {
    if |TrimStart(TrimEnd(s))| > 0 {
      TrimKeepsMiddle(s);
    }
  }

  /** When something is left, the trimmed string is the input from Lead(s)
      on, up to where TrimEnd stopped. */
  lemma TrimKeepsMiddle(s: string)
    requires |TrimStart(TrimEnd(s))| > 0
    ensures Lead(s) + |TrimStart(TrimEnd(s))| == |TrimEnd(s)|
    ensures forall k :: 0 <= k < |TrimStart(TrimEnd(s))| ==> TrimStart(TrimEnd(s))[k] == s[Lead(s) + k]
  {
    var e := TrimEnd(s);
    var r := TrimStart(e);
    var t := s[|e|..];
    CutAt(s, |e|);
    TrimStartAppend(e, t);
    TrimEndSlice(s, e, r);
  }

  lemma CutAt(s: string, n: nat)
    requires n <= |s|
    ensures s == s[..n] + s[n..]
  {
  }

  lemma TrimEndSlice(s: string, e: string, r: string)
    requires |e| <= |s| && e == s[..|e|] && |r| > 0 && r == TrimStart(e)
    requires TrimStart(s) == r + s[|e|..]
    ensures forall k :: 0 <= k < |r| ==> r[k] == s[Lead(s) + k]
  {
    assert Lead(s) == |e| - |r|;
    assert r == e[|e| - |r|..];
  }

  /** Text appended after a non-trimmable char is kept by TrimStart. */
  lemma {:induction false} TrimStartAppend(e: string, t: string)
    requires |TrimStart(e)| > 0
    ensures TrimStart(e + t) == TrimStart(e) + t
    decreases |e|
  {
    if IsTrimmable(e[0]) {
      assert (e + t)[1..] == e[1..] + t;
      TrimStartAppend(e[1..], t);
    }
  }

  /** Trimming a trimmed string changes nothing; in particular trim is idempotent. */
  lemma TrimTrimmed(s: string)
    requires IsTrimmed(s)
    ensures Trim(s) == s
  {
  }

  /** Trim keeps a contiguous part of s: every char it returns is one of s's. */
  lemma TrimChars(s: string)
    ensures forall k :: 0 <= k < |Trim(s)| ==> Trim(s)[k] in s
  {
    var e := TrimEnd(s);
    var r := TrimStart(e);
    forall k | 0 <= k < |r| ensures r[k] in s {
      var j := |e| - |r| + k;
      assert r[k] == e[j];
      assert e[j] == s[j];
    }
  }

  /** Trim yields the empty string exactly for all-blank input. */
  lemma TrimEmpty(s: string)
    ensures |Trim(s)| == 0 <==> forall k :: 0 <= k < |s| ==> IsTrimmable(s[k])
  {
  }

  // ----------------------------------------------------------- compareTo

  /** s.compareTo(t) < 0: the first differing char decides; a proper prefix is smaller. */
  predicate Less(s: string, t: string)
    ensures Less(s, t) ==> s != t
  {
    if |s| == 0 || |t| == 0 then |s| == 0 && |t| > 0
    else if s[0] != t[0] then s[0] < t[0]
    else Less(s[1..], t[1..])
  }

  lemma {:induction false} LessIrreflexive(s: string)
    ensures !Less(s, s)
  {
    if |s| > 0 { LessIrreflexive(s[1..]); }
  }

  lemma {:induction false} LessAsymmetric(s: string, t: string)
    requires Less(s, t)
    ensures !Less(t, s)
  {
    if |s| > 0 && |t| > 0 && s[0] == t[0] { LessAsymmetric(s[1..], t[1..]); }
  }

  lemma {:induction false} LessTotal(s: string, t: string)
    requires s != t
    ensures Less(s, t) || Less(t, s)
  {
    if |s| > 0 && |t| > 0 && s[0] == t[0] {
      assert s == [s[0]] + s[1..] && t == [t[0]] + t[1..];
      LessTotal(s[1..], t[1..]);
    }
  }

  lemma {:induction false} LessTransitive(s: string, t: string, u: string)
    requires Less(s, t) && Less(t, u)
    ensures Less(s, u)
  {
    if |s| > 0 && |t| > 0 && |u| > 0 && s[0] == t[0] && t[0] == u[0] {
      LessTransitive(s[1..], t[1..], u[1..]);
    }
  }

  // ------------------------------------------------------ decimal numbers

  predicate IsDigit(c: char) { '0' <= c <= '9' }

  predicate AllDigits(s: string) { forall i :: 0 <= i < |s| ==> IsDigit(s[i]) }

  function DigitValue(c: char): (d: nat)
    requires IsDigit(c)
    ensures d < 10
  {
    c as int - '0' as int
  }

  function DigitChar(d: nat): (c: char)
    requires d < 10
    ensures IsDigit(c) && DigitValue(c) == d
  {
    (d + '0' as int) as char
  }

  /** Integer.toString of a non-negative value: decimal digits, no leading zero. */
  function NatToString(n: nat): (r: string)
    ensures |r| > 0 && AllDigits(r)
    ensures |r| > 1 ==> r[0] != '0'
  {
    if n < 10 then [DigitChar(n)] else NatToString(n / 10) + [DigitChar(n % 10)]
  }

  /** The value of a string of decimal digits. */
  function DigitsValue(s: string): nat
    requires AllDigits(s)
  {
    if |s| == 0 then 0 else DigitsValue(s[..|s| - 1]) * 10 + DigitValue(s[|s| - 1])
  }

  lemma {:induction false} NatToStringRoundTrip(n: nat)
    ensures DigitsValue(NatToString(n)) == n
  {
    if n >= 10 {
      NatToStringRoundTrip(n / 10);
      var r := NatToString(n);
      assert r[..|r| - 1] == NatToString(n / 10);
    }
  }

  lemma NatToStringFourDigits(n: nat)
    requires 1000 <= n <= 9999
    ensures |NatToString(n)| == 4
  {
    assert |NatToString(n / 1000)| == 1;
    assert |NatToString(n / 100)| == 2;
    assert |NatToString(n / 10)| == 3;
  }

  /** Integer.toString. */
  function IntToString(n: int): (r: string)
    ensures |r| > 0 && (r[0] == '-' <==> n < 0)
  {
    if n < 0 then "-" + NatToString(-n) else NatToString(n)
  }

  /** Integer.toString writes only digits after an optional leading minus sign. */
  lemma IntToStringChars(n: int)
    ensures forall i :: 0 <= i < |IntToString(n)| ==>
              IsDigit(IntToString(n)[i]) || (i == 0 && IntToString(n)[i] == '-')
  {
  }

  lemma IntToStringInjective(a: int, b: int)
    requires IntToString(a) == IntToString(b)
    ensures a == b
  {
    NatToStringRoundTrip(if a < 0 then -a else a);
    NatToStringRoundTrip(if b < 0 then -b else b);
    if a < 0 {
      assert IntToString(a)[1..] == NatToString(-a);
      assert IntToString(b)[1..] == NatToString(-b);
    }
  }

  const IntMin: int := -0x8000_0000
  const IntMax: int := 0x7fff_ffff

  /** Integer.parseInt over ASCII digits: an optional sign and at least one
      digit, within 32 bits; None where Java throws NumberFormatException. */
  function ParseInt(s: string): (r: Option<int>)
    ensures r.Some? ==> IntMin <= r.value <= IntMax
    ensures r.Some? ==> |s| > 0
  {
    if |s| == 0 then None
    else
      var neg := s[0] == '-';
      var digits := if s[0] == '-' || s[0] == '+' then s[1..] else s;
      if |digits| == 0 || !AllDigits(digits) then None
      else
        var d: int := DigitsValue(digits);
        var v := if neg then -d else d;
        if IntMin <= v <= IntMax then Some(v) else None
  }

  lemma ParseIntRoundTrip(n: int)
    requires IntMin <= n <= IntMax
    ensures ParseInt(IntToString(n)) == Some(n)
  {
    var s := IntToString(n);
    var m: nat := if n < 0 then -n else n;
    var digits := NatToString(m);
    NatToStringRoundTrip(m);
    if n < 0 {
      assert s == "-" + digits;
      assert s[1..] == digits;
    } else {
      assert s == digits;
      assert s[0] != '-' && s[0] != '+';
    }
  }

  // ------------------------------------------------- indexOf and friends

  /** p occurs in s starting at index i. */
  predicate OccursAt(s: string, p: string, i: int) {
    0 <= i && i + |p| <= |s| && s[i..i + |p|] == p
  }

  lemma OccursAtTail(s: string, p: string, i: int)
    requires |s| > 0 && 0 <= i
    ensures OccursAt(s[1..], p, i) <==> OccursAt(s, p, i + 1)
  {
    if 0 <= i && i + |p| <= |s| - 1 { assert s[1..][i..i + |p|] == s[i + 1..i + 1 + |p|]; }
  }

  /** s.indexOf(p): the first index where p occurs, or -1. */
  function IndexOf(s: string, p: string): (r: int)
    requires |p| > 0
    ensures r == -1 || OccursAt(s, p, r)
    ensures r == -1 ==> forall i :: !OccursAt(s, p, i)
    ensures forall i :: 0 <= i < r ==> !OccursAt(s, p, i)
    decreases |s|
  {
    if |s| < |p| then -1
    else if s[..|p|] == p then 0
    else
      var r := IndexOf(s[1..], p);
      IndexOfTail(s, p, r);
      if r < 0 then -1 else r + 1
  }

  /** The first occurrence in s[1..], shifted by one, is the first in s
      when p does not start s. */
  lemma IndexOfTail(s: string, p: string, r: int)
    requires |p| > 0 && |s| >= |p| && s[..|p|] != p
    requires r == -1 || OccursAt(s[1..], p, r)
    requires r == -1 ==> forall i :: !OccursAt(s[1..], p, i)
    requires forall i :: 0 <= i < r ==> !OccursAt(s[1..], p, i)
    ensures r == -1 ==> forall i :: !OccursAt(s, p, i)
    ensures r != -1 ==> OccursAt(s, p, r + 1) && forall i :: 0 <= i < r + 1 ==> !OccursAt(s, p, i)
  {
    assert !OccursAt(s, p, 0);
    forall i | 0 < i
      ensures OccursAt(s, p, i) <==> OccursAt(s[1..], p, i - 1)
    {
      OccursAtTail(s, p, i - 1);
    }
  }

  /** s.contains(p). */
  predicate Contains(s: string, p: string)
    requires |p| > 0
  {
    IndexOf(s, p) >= 0
  }

  /** IndexOf is the first occurrence: pinned down by any occurrence with none before it. */
  lemma IndexOfFirst(s: string, p: string, k: int)
    requires |p| > 0 && OccursAt(s, p, k)
    requires forall i :: 0 <= i < k ==> !OccursAt(s, p, i)
    ensures IndexOf(s, p) == k
  {
  }

  lemma ContainsChar(s: string, c: char)
    ensures Contains(s, [c]) <==> c in s
  {
    if c in s {
      var k :| 0 <= k < |s| && s[k] == c;
      assert s[k..k + 1] == [c];
      assert OccursAt(s, [c], k);
    }
    if Contains(s, [c]) {
      var r := IndexOf(s, [c]);
      assert s[r..r + 1][0] == s[r];
    }
  }

  predicate StartsWith(s: string, p: string) { |p| <= |s| && s[..|p|] == p }

  predicate EndsWith(s: string, p: string) { |p| <= |s| && s[|s| - |p|..] == p }

  /** s.replace(p, r) for a literal target: every occurrence, scanned left to
      right without overlap, is replaced. */
  function ReplaceAll(s: string, p: string, r: string): string
    requires |p| > 0
    decreases |s|
  {
    if |s| < |p| then s
    else if s[..|p|] == p then r + ReplaceAll(s[|p|..], p, r)
    else [s[0]] + ReplaceAll(s[1..], p, r)
  }

  /** With a one-char target and replacement, replace works char by char. */
  lemma {:induction false} ReplaceAllChar(s: string, a: char, b: char)
    ensures |ReplaceAll(s, [a], [b])| == |s|
    ensures forall i :: 0 <= i < |s| ==>
              ReplaceAll(s, [a], [b])[i] == (if s[i] == a then b else s[i])
    decreases |s|
  {
    if |s| > 0 {
      ReplaceAllChar(s[1..], a, b);
      assert s[..1] == [s[0]];
    }
  }

  /** A replace whose target does not occur leaves the string as it was. */
  lemma {:induction false} ReplaceAllAbsent(s: string, p: string, r: string)
    requires |p| > 0 && forall i :: !OccursAt(s, p, i)
    ensures ReplaceAll(s, p, r) == s
    decreases |s|
  {
    if |s| >= |p| {
      assert !OccursAt(s, p, 0);
      forall i ensures !OccursAt(s[1..], p, i) { if i >= 0 { OccursAtTail(s, p, i); } }
      ReplaceAllAbsent(s[1..], p, r);
    }
  }

  /** No occurrence of p starts inside x: replacing in x + y keeps x as it is. */
  lemma {:induction false} ReplaceAllPrefix(x: string, y: string, p: string, r: string)
    requires |p| > 0
    requires forall i :: 0 <= i < |x| ==> !OccursAt(x + y, p, i)
    ensures ReplaceAll(x + y, p, r) == x + ReplaceAll(y, p, r)
    decreases |x|
  {
    if |x| > 0 {
      var s := x + y;
      if |s| < |p| {
        assert ReplaceAll(s, p, r) == s;
        assert ReplaceAll(y, p, r) == y;
      } else {
        assert !OccursAt(s, p, 0);
        assert s[..|p|] != p;
        assert ReplaceAll(s, p, r) == [s[0]] + ReplaceAll(s[1..], p, r);
        assert s[1..] == x[1..] + y;
        forall i | 0 <= i < |x| - 1 ensures !OccursAt(x[1..] + y, p, i) {
          OccursAtTail(s, p, i);
        }
        ReplaceAllPrefix(x[1..], y, p, r);
        assert [s[0]] + (x[1..] + ReplaceAll(y, p, r)) == x + ReplaceAll(y, p, r);
      }
    } else {
      assert x + y == y;
    }
  }

  // ---------------------------------------------------------------- split

  /** The pieces between successive occurrences of sep, left to right. */
  function SplitPieces(s: string, sep: string): (r: seq<string>)
    requires |sep| > 0
    ensures |r| > 0
    decreases |s|
  {
    var i := IndexOf(s, sep);
    if i < 0 then [s] else [s[..i]] + SplitPieces(s[i + |sep|..], sep)
  }

  function DropTrailingEmpty(xs: seq<string>): (r: seq<string>)
    ensures |r| <= |xs| && r == xs[..|r|]
    ensures |r| == 0 || r[|r| - 1] != ""
  {
    if |xs| > 0 && xs[|xs| - 1] == "" then DropTrailingEmpty(xs[..|xs| - 1]) else xs
  }

  /** A prefix that stops before the first occurrence of p holds no p. */
  lemma PrefixFree(s: string, p: string, i: int)
    requires |p| > 0 && 0 <= i <= |s|
    requires forall j :: 0 <= j < i ==> !OccursAt(s, p, j)
    ensures !Contains(s[..i], p)
  {
    var t := s[..i];
    var j := IndexOf(t, p);
    if j >= 0 {
      assert t[j..j + |p|] == s[j..j + |p|];
      assert OccursAt(s, p, j);
    }
  }

  /** No piece holds the separator. */
  lemma {:induction false} SplitPiecesFree(s: string, sep: string)
    requires |sep| > 0
    ensures forall k :: 0 <= k < |SplitPieces(s, sep)| ==> !Contains(SplitPieces(s, sep)[k], sep)
    decreases |s|
  {
    var i := IndexOf(s, sep);
    if i < 0 {
      assert SplitPieces(s, sep) == [s];
    } else {
      PrefixFree(s, sep, i);
      SplitPiecesFree(s[i + |sep|..], sep);
      assert SplitPieces(s, sep) == [s[..i]] + SplitPieces(s[i + |sep|..], sep);
    }
  }

  /** No piece split returns holds the separator. */
  lemma SplitFree(s: string, sep: string)
    requires |sep| > 0
    ensures forall k :: 0 <= k < |Split(s, sep)| ==> !Contains(Split(s, sep)[k], sep)
  {
    if IndexOf(s, sep) >= 0 {
      SplitPiecesFree(s, sep);
      var xs := SplitPieces(s, sep);
      var r := DropTrailingEmpty(xs);
      forall k | 0 <= k < |r| ensures !Contains(r[k], sep) {
        assert r[k] == xs[k];
      }
    }
  }

  /** s.split(sep) for a literal separator (limit 0): the whole string when sep
      does not occur, otherwise the pieces with trailing empty ones removed. */
  function Split(s: string, sep: string): (r: seq<string>)
    requires |sep| > 0
    ensures IndexOf(s, sep) < 0 ==> r == [s]
    ensures |r| == 0 || r[|r| - 1] != "" || IndexOf(s, sep) < 0
  {
    if IndexOf(s, sep) < 0 then [s] else DropTrailingEmpty(SplitPieces(s, sep))
  }

  /** Words joined by single spaces. */
  function JoinSpaces(ws: seq<string>): (r: string)
    requires |ws| > 0
    ensures |r| >= |ws[0]| && r[..|ws[0]|] == ws[0]
  {
    if |ws| == 1 then ws[0] else ws[0] + " " + JoinSpaces(ws[1..])
  }

  /** Words that split(" ") can hand back: non-empty and without a space. */
  predicate Words(ws: seq<string>)
  {
    forall i :: 0 <= i < |ws| ==> ws[i] != "" && ' ' !in ws[i]
  }

  /** The first space of w + " " + rest is the one right after w. */
  lemma FirstSpace(w: string, rest: string)
    requires ' ' !in w
    ensures IndexOf(w + " " + rest, " ") == |w|
  {
    var s := w + " " + rest;
    assert OccursAt(s, " ", |w|) by { assert s[|w|..|w| + 1] == " "; }
    forall i | 0 <= i < |w| ensures !OccursAt(s, " ", i) {
      assert s[i..i + 1] == [w[i]];
    }
    IndexOfFirst(s, " ", |w|);
  }

  /** A word, with or without one space after it, cuts into the word and,
      for the space, one empty piece. */
  lemma SplitPiecesWord(w: string, trail: string)
    requires w != "" && ' ' !in w && (trail == "" || trail == " ")
    ensures SplitPieces(w + trail, " ") == [w] + (if trail == "" then [] else [""])
  {
    if trail == "" {
      assert w + trail == w;
      ContainsChar(w, ' ');
      assert [' '] == " ";
    } else {
      var s := w + " " + "";
      assert w + trail == s;
      FirstSpace(w, "");
      assert s[..|w|] == w && s[|w| + 1..] == "";
    }
  }

  /** The first cut of w + " " + rest is w, and the rest is cut after it. */
  lemma SplitPiecesCons(w: string, rest: string)
    requires ' ' !in w
    ensures SplitPieces(w + " " + rest, " ") == [w] + SplitPieces(rest, " ")
  {
    var s := w + " " + rest;
    FirstSpace(w, rest);
    assert s[..|w|] == w && s[|w| + 1..] == rest;
  }

  /** Cutting words joined by single spaces, with or without one more space
      after them, gives the words back, plus an empty last piece for that
      trailing space. */
  lemma {:induction false} SplitPiecesJoin(ws: seq<string>, trail: string)
    requires |ws| > 0 && Words(ws) && (trail == "" || trail == " ")
    ensures SplitPieces(JoinSpaces(ws) + trail, " ") == ws + (if trail == "" then [] else [""])
    decreases |ws|
  {
    if |ws| == 1 {
      assert JoinSpaces(ws) == ws[0];
      SplitPiecesWord(ws[0], trail);
    } else {
      var rest := JoinSpaces(ws[1..]) + trail;
      assert JoinSpaces(ws) + trail == ws[0] + " " + rest;
      SplitPiecesCons(ws[0], rest);
      SplitPiecesJoin(ws[1..], trail);
      assert ws == [ws[0]] + ws[1..];
    }
  }

  /** Dropping trailing empty pieces after a non-empty last piece, with or
      without one empty piece after it, leaves the pieces up to it. */
  lemma DropAfterWord(xs: seq<string>, trail: string)
    requires |xs| > 0 && xs[|xs| - 1] != ""
    ensures DropTrailingEmpty(xs + (if trail == "" then [] else [""])) == xs
  {
    if trail != "" {
      assert (xs + [""])[..|xs|] == xs;
    } else {
      assert xs + [] == xs;
    }
  }

  /** A space follows the first word whenever another word or a trailing
      space comes after it. */
  lemma JoinHasSpace(ws: seq<string>, trail: string)
    requires |ws| > 0 && ' ' !in ws[0] && (|ws| > 1 || trail == " ")
    ensures IndexOf(JoinSpaces(ws) + trail, " ") == |ws[0]|
  {
    var rest := if |ws| == 1 then "" else JoinSpaces(ws[1..]) + trail;
    assert JoinSpaces(ws) + trail == ws[0] + " " + rest;
    FirstSpace(ws[0], rest);
  }

  /** A single word holds no space. */
  lemma WordHasNoSpace(w: string)
    requires ' ' !in w
    ensures IndexOf(w, " ") < 0
  {
    ContainsChar(w, ' ');
    assert [' '] == " ";
  }

  /** split(" ") of words joined by single spaces, with or without one
      trailing space, returns exactly the words. */
  lemma SplitJoin(ws: seq<string>, trail: string)
    requires |ws| > 0 && Words(ws) && (trail == "" || trail == " ")
    ensures Split(JoinSpaces(ws) + trail, " ") == ws
  {
    SplitPiecesJoin(ws, trail);
    if |ws| == 1 && trail == "" {
      assert JoinSpaces(ws) + trail == ws[0];
      WordHasNoSpace(ws[0]);
    } else {
      JoinHasSpace(ws, trail);
      DropAfterWord(ws, trail);
    }
  }


}
