/**
 * Edge identifiers: the canonical order of two player names, the joined
 * string keys the temporal builder ("|||") and the visualizer and the old
 * builder ("-") make of that order, and the split that reads a "|||" key
 * back into its two names.
 */
module EdgeKeys {
  import opened JavaStrings

  /** An unordered pair of players, stored smaller name first. */
  type EdgePair = (string, string)

  /** The order createEdgeKey and createEdgeId put two names in: a first
      exactly when a.compareTo(b) < 0. */
  function Canon(a: string, b: string): (k: EdgePair)
    ensures k == (a, b) || k == (b, a)
    ensures !Less(k.1, k.0)
  {
    if Less(a, b) then LessAsymmetric(a, b); (a, b) else (b, a)
  }

  /** Both argument orders give the same canonical pair. */
  lemma CanonSymmetric(a: string, b: string)
    ensures Canon(a, b) == Canon(b, a)
  {
    if a != b {
      LessTotal(a, b);
      if Less(a, b) { LessAsymmetric(a, b); } else { LessAsymmetric(b, a); }
    }
  }

  /** A pair already in strict order is its own canonical form. */
  lemma CanonOfOrdered(k: EdgePair)
    requires Less(k.0, k.1)
    ensures Canon(k.0, k.1) == k && Canon(k.1, k.0) == k
  {
    LessAsymmetric(k.0, k.1);
  }

  /** The canonical pair of two distinct names is in strict order. */
  lemma CanonStrict(a: string, b: string)
    requires a != b
    ensures Less(Canon(a, b).0, Canon(a, b).1)
  {
    LessTotal(a, b);
  }

  /** The two names of a pair written around a separator. */
  function Joined(k: EdgePair, sep: string): string { k.0 + sep + k.1 }

  const KeySeparator: string := "|||"

  /** createEdgeKey of the temporal builder. */
  function CreateEdgeKey(a: string, b: string): (r: string)
    ensures (r == a + KeySeparator + b && !Less(b, a)) || (r == b + KeySeparator + a && !Less(a, b))
  {
    Joined(Canon(a, b), KeySeparator)
  }

  /** parseEdgeKey: split on the literal "|||". */
  function ParseEdgeKey(key: string): (r: seq<string>)
    ensures forall i :: 0 <= i < |r| ==> !Contains(r[i], KeySeparator)
  {
    SplitFree(key, KeySeparator);
    Split(key, KeySeparator)
  }

  /** createEdgeId of the visualizer (the old builder's countEdges makes the same key). */
  function CreateEdgeId(a: string, b: string): (r: string)
    ensures (r == a + "-" + b && !Less(b, a)) || (r == b + "-" + a && !Less(a, b))
  {
    Joined(Canon(a, b), "-")
  }

  lemma CreateEdgeKeySymmetric(a: string, b: string)
    ensures CreateEdgeKey(a, b) == CreateEdgeKey(b, a)
  {
    CanonSymmetric(a, b);
  }

  lemma CreateEdgeIdSymmetric(a: string, b: string)
    ensures CreateEdgeId(a, b) == CreateEdgeId(b, a)
  {
    CanonSymmetric(a, b);
  }

  /** The names for which the "|||" key reads back: neither holds "|||",
      the smaller does not end in '|', and the larger is not empty. */
  predicate KeySafe(k: EdgePair)
  {
    && !Contains(k.0, KeySeparator)
    && !Contains(k.1, KeySeparator)
    && (|k.0| == 0 || k.0[|k.0| - 1] != '|')
    && |k.1| > 0
  }

  /** For safe names parseEdgeKey(createEdgeKey(a, b)) is [min, max]. */
  lemma ParseCreateEdgeKey(a: string, b: string)
    requires KeySafe(Canon(a, b))
    ensures ParseEdgeKey(CreateEdgeKey(a, b)) == [Canon(a, b).0, Canon(a, b).1]
  {
    var k := Canon(a, b);
    SplitSafe(k.0, k.1);
  }

  /** A safe pair joined by "|||" splits back into its two names. */
  lemma SplitSafe(lo: string, hi: string)
    requires KeySafe((lo, hi))
    ensures Split(lo + KeySeparator + hi, KeySeparator) == [lo, hi]
  {
    var s := lo + KeySeparator + hi;
    assert s[|lo|..|lo| + 3] == KeySeparator;
    NoEarlySeparator(lo, hi);
    IndexOfFirst(s, KeySeparator, |lo|);
    assert s[|lo| + 3..] == hi;
    assert SplitPieces(hi, KeySeparator) == [hi];
    assert SplitPieces(s, KeySeparator) == [s[..|lo|]] + SplitPieces(hi, KeySeparator);
    assert s[..|lo|] == lo;
    assert DropTrailingEmpty([lo, hi]) == [lo, hi];
  }

  /** In a safe key no "|||" starts inside the smaller name. */
  lemma NoEarlySeparator(lo: string, hi: string)
    requires KeySafe((lo, hi))
    ensures forall i :: 0 <= i < |lo| ==> !OccursAt(lo + KeySeparator + hi, KeySeparator, i)
  {
    var s := lo + KeySeparator + hi;
    forall i | 0 <= i < |lo| ensures !OccursAt(s, KeySeparator, i) {
      assert s[|lo| - 1] == lo[|lo| - 1];
      if i + 3 <= |lo| {
        assert s[i..i + 3] == lo[i..i + 3];
        assert !OccursAt(lo, KeySeparator, i);
      } else if i + 3 <= |s| {
        assert s[i..i + 3][|lo| - 1 - i] == s[|lo| - 1];
      }
    }
  }

  /** For safe pairs, different pairs give different "|||" keys: parsing
      the key gives back its pair. */
  lemma CreateEdgeKeyInjective(a: string, b: string, c: string, d: string)
    requires KeySafe(Canon(a, b)) && KeySafe(Canon(c, d))
    requires CreateEdgeKey(a, b) == CreateEdgeKey(c, d)
    ensures Canon(a, b) == Canon(c, d)
  {
    ParseCreateEdgeKey(a, b);
    ParseCreateEdgeKey(c, d);
  }

  /** With a separator char that no name holds, the joined key determines the pair. */
  lemma JoinedInjective(k1: EdgePair, k2: EdgePair, c: char)
    requires c !in k1.0 && c !in k1.1 && c !in k2.0 && c !in k2.1
    requires Joined(k1, [c]) == Joined(k2, [c])
    ensures k1 == k2
  {
    var s := Joined(k1, [c]);
    assert s[|k1.0|] == c && forall j :: 0 <= j < |k1.0| ==> s[j] == k1.0[j];
    assert s[|k2.0|] == c && forall j :: 0 <= j < |k2.0| ==> s[j] == k2.0[j];
    assert |k1.0| == |k2.0|;
    assert k1.0 == s[..|k1.0|] == k2.0;
    assert k1.1 == s[|k1.0| + 1..] == k2.1;
  }

  // --------------------------------------------------------- findings

  /** As written, a name ending in '|' breaks the key apart in the wrong place. */
  lemma ParseEdgeKeySplitsWrongly()
    ensures CreateEdgeKey("A|", "B") == "A||||B"
    ensures ParseEdgeKey(CreateEdgeKey("A|", "B")) == ["A", "|B"]
    ensures CreateEdgeKey("A", "|B") == CreateEdgeKey("A|", "B")
  {
    var s := "A||||B";
    assert Canon("A|", "B") == ("A|", "B");
    assert CreateEdgeKey("A|", "B") == s;
    assert Canon("A", "|B") == ("A", "|B");
    assert s[1..4] == KeySeparator;
    assert s[0..3][2] == '|' && s[0..3][0] == 'A';
    IndexOfFirst(s, KeySeparator, 1);
    assert s[4..] == "|B";
    assert SplitPieces("|B", KeySeparator) == ["|B"];
    assert SplitPieces(s, KeySeparator) == [s[..1]] + SplitPieces("|B", KeySeparator);
    assert s[..1] == "A";
  }

  /** As written, the "-" edge id gives two different pairs the same id. */
  lemma CreateEdgeIdCollides()
    ensures Canon("A-B", "C") == ("A-B", "C") && Canon("A", "B-C") == ("A", "B-C")
    ensures CreateEdgeId("A-B", "C") == CreateEdgeId("A", "B-C") == "A-B-C"
  {
  }
}
