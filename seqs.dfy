/** Small facts about sequences, proved once in a context of their own. */
module Seqs {
  lemma InitLast<T>(s: seq<T>)
    requires |s| > 0
    ensures s[..|s| - 1] + [s[|s| - 1]] == s
  {
  }

  lemma PrefixOfPrefix<T>(s: seq<T>, i: nat, j: nat)
    requires i <= j <= |s|
    ensures s[..j][..i] == s[..i]
  {
  }

  /** Two twelve-element sequences that agree at every index are equal. */
  lemma Equal12<T>(a: seq<T>, b: seq<T>)
    requires |a| == |b| == 12
    requires a[0] == b[0] && a[1] == b[1] && a[2] == b[2] && a[3] == b[3]
    requires a[4] == b[4] && a[5] == b[5] && a[6] == b[6] && a[7] == b[7]
    requires a[8] == b[8] && a[9] == b[9] && a[10] == b[10] && a[11] == b[11]
    ensures a == b
  {
    forall i | 0 <= i < 12 ensures a[i] == b[i] {
      if i < 4 {
        assert i == 0 || i == 1 || i == 2 || i == 3;
      } else if i < 8 {
        assert i == 4 || i == 5 || i == 6 || i == 7;
      } else {
        assert i == 8 || i == 9 || i == 10 || i == 11;
      }
    }
  }
}
