/** Drawing the questions of one session from the bank: shuffle the bank in
    place, then keep a prefix. The random comparator of the shuffle is replaced
    by a permutation that the caller supplies. */
module Sampling {

  function Min(a: int, b: int): int
  {
    if a <= b then a else b
  }

  /** `perm` lists every position 0 .. n-1 exactly once. */
  predicate IsPermutation(perm: seq<nat>, n: nat)
  {
    && |perm| == n
    && (forall i :: 0 <= i < n ==> perm[i] < n)
    && (forall i, j :: 0 <= i < j < n ==> perm[i] != perm[j])
    && (forall v :: 0 <= v < n ==> v in perm)
  }

  /** The bank after the shuffle: entry i is the bank's entry at position perm[i]. */
  function Shuffled<T>(s: seq<T>, perm: seq<nat>): seq<T>
    requires IsPermutation(perm, |s|)
  {
    seq(|s|, i requires 0 <= i < |s| => s[perm[i]])
  }

  /** The first n entries of the shuffled bank, or all of them when the bank is
      shorter than n. */
  function Sample<T>(s: seq<T>, perm: seq<nat>, n: nat): (r: seq<T>)
    requires IsPermutation(perm, |s|)
    ensures |r| == Min(n, |s|)
    ensures forall i :: 0 <= i < |r| ==> r[i] == s[perm[i]]
  {
    Shuffled(s, perm)[..Min(n, |s|)]
  }

  /** Removing the position that holds the largest index from a permutation
      leaves a permutation of the smaller range. */
  lemma DropLast(perm: seq<nat>, n: nat, j: nat)
    requires n > 0 && IsPermutation(perm, n)
    requires j < n && perm[j] == n - 1
    ensures IsPermutation(perm[..j] + perm[j + 1..], n - 1)
  {
    var p := perm[..j] + perm[j + 1..];
    assert forall i :: 0 <= i < n - 1 ==> p[i] == perm[if i < j then i else i + 1];
    forall v | 0 <= v < n - 1 ensures v in p {
      assert v in perm;
      var i :| 0 <= i < n && perm[i] == v;
      assert p[if i < j then i else i - 1] == v;
    }
  }

  /** The shuffled bank is the shuffle of the bank without its last entry, with
      that entry inserted at the position that draws it. */
  lemma InsertAt<T>(s: seq<T>, perm: seq<nat>, j: nat)
    requires |s| > 0 && IsPermutation(perm, |s|)
    requires j < |s| && perm[j] == |s| - 1
    ensures IsPermutation(perm[..j] + perm[j + 1..], |s| - 1)
    ensures var t' := Shuffled(s[..|s| - 1], perm[..j] + perm[j + 1..]);
            Shuffled(s, perm) == t'[..j] + [s[|s| - 1]] + t'[j..]
  {
    var n := |s|;
    var p := perm[..j] + perm[j + 1..];
    DropLast(perm, n, j);
    var t, t' := Shuffled(s, perm), Shuffled(s[..n - 1], p);
    var u := t'[..j] + [s[n - 1]] + t'[j..];
    assert |u| == n;
    forall i | 0 <= i < n ensures t[i] == u[i] {
      if i < j {
        assert u[i] == t'[i] && p[i] == perm[i];
      } else if i > j {
        assert u[i] == t'[i - 1] && p[i - 1] == perm[i];
      }
    }
  }

  /** The position a permutation draws `v` from. */
  lemma PositionOf(perm: seq<nat>, n: nat, v: nat) returns (j: nat)
    requires IsPermutation(perm, n) && v < n
    ensures j < n && perm[j] == v
  {
    assert v in perm;
    j :| 0 <= j < n && perm[j] == v;
  }

  /** Inserting the same element into two sequences with equal multisets keeps
      their multisets equal. */
  lemma InsertKeepsMultiset<T>(t: seq<T>, t': seq<T>, s: seq<T>, s': seq<T>, j: nat, x: T)
    requires j <= |t'| && t == t'[..j] + [x] + t'[j..]
    requires s == s' + [x] && multiset(t') == multiset(s')
    ensures multiset(t) == multiset(s)
  {
    assert t' == t'[..j] + t'[j..];
  }

  /** Shuffling keeps every question and adds none: the shuffled bank is a
      permutation of the bank. */
  lemma {:induction false} ShufflePreservesMultiset<T>(s: seq<T>, perm: seq<nat>)
    requires IsPermutation(perm, |s|)
    ensures multiset(Shuffled(s, perm)) == multiset(s)
    decreases |s|
  {
    var n := |s|;
    if n > 0 {
      var j := PositionOf(perm, n, n - 1);
      var s' := s[..n - 1];
      var p := perm[..j] + perm[j + 1..];
      InsertAt(s, perm, j);
      ShufflePreservesMultiset(s', p);
      assert s == s' + [s[n - 1]];
      InsertKeepsMultiset(Shuffled(s, perm), Shuffled(s', p), s, s', j, s[n - 1]);
    }
  }

  /** The sample has min(n, |bank|) questions, each taken from its own position
      of the shuffled bank, so no bank entry is drawn twice. */
  lemma SampleWithoutReplacement<T>(s: seq<T>, perm: seq<nat>, n: nat)
    requires IsPermutation(perm, |s|)
    ensures |Sample(s, perm, n)| == Min(n, |s|)
    ensures forall i :: 0 <= i < |Sample(s, perm, n)| ==> Sample(s, perm, n)[i] == s[perm[i]]
    ensures multiset(Sample(s, perm, n)) <= multiset(s)
  {
    var t := Shuffled(s, perm);
    var k := Min(n, |s|);
    ShufflePreservesMultiset(s, perm);
    assert t == t[..k] + t[k..];
  }

  /** selectRandomQuestions: shuffles `all` in place, in the order `perm` gives,
      and returns the first `numQuestions` entries. */
  method SelectRandomQuestions<T>(all: array<T>, numQuestions: nat, perm: seq<nat>) returns (sample: seq<T>)
    requires IsPermutation(perm, all.Length)
    modifies all
    ensures all[..] == Shuffled(old(all[..]), perm)
    ensures sample == Sample(old(all[..]), perm, numQuestions)
  {
    var before := all[..];
    forall i | 0 <= i < all.Length {
      all[i] := before[perm[i]];
    }
    sample := all[..Min(numQuestions, all.Length)];
  }
}
