/** The completion test of a multi-select question: when the keys a learner has
    picked count as "all correct answers chosen". */
module Grading {

  /** The short label of one answer option ("a", "b", ...). */
  type Key = string

  /** The set of elements of a sequence. */
  function Elems<T>(s: seq<T>): set<T>
  {
    set x | x in s
  }

  /** No element occurs twice. */
  predicate Distinct<T(==)>(s: seq<T>)
  {
    forall i, j :: 0 <= i < j < |s| ==> s[i] != s[j]
  }

  /** The test run after each correct pick: as many keys picked as the question
      lists as correct, and every picked key among the correct ones. When it
      holds, no correct key is listed twice and every one of them is picked. */
  predicate IsComplete(selected: set<Key>, correct: seq<Key>)
    ensures IsComplete(selected, correct) ==> Distinct(correct) && selected == Elems(correct)
  {
    var picksCorrect := forall a :: a in selected ==> a in correct;
    ElemsCard(correct);
    SubsetCard(selected * Elems(correct), Elems(correct));
    assert picksCorrect ==> selected * Elems(correct) == selected;
    |selected| == |correct| && picksCorrect
  }

  /** A sequence has at most as many distinct elements as entries, and exactly
      as many when no entry repeats. */
  lemma {:induction false} ElemsCard<T>(s: seq<T>)
    ensures |Elems(s)| <= |s|
    ensures |Elems(s)| == |s| <==> Distinct(s)
  {
    if s != [] {
      var t := s[1..];
      ElemsCard(t);
      assert Elems(s) == {s[0]} + Elems(t);
      if s[0] in t {
        assert Elems(s) == Elems(t);
        assert !Distinct(s) by {
          var k :| 0 <= k < |t| && t[k] == s[0];
          assert s[0] == s[k + 1];
        }
      } else {
        assert |Elems(s)| == |Elems(t)| + 1;
        if Distinct(t) {
          forall i, j | 0 <= i < j < |s| ensures s[i] != s[j] {
            if i == 0 {
              assert s[j] == t[j - 1];
            } else {
              assert s[i] == t[i - 1] && s[j] == t[j - 1];
            }
          }
        } else {
          var i, j :| 0 <= i < j < |t| && t[i] == t[j];
          assert s[i + 1] == s[j + 1];
        }
      }
    }
  }

  /** A subset is no larger than its superset, and a subset of the same size is
      the whole superset. */
  lemma {:induction false} SubsetCard<T>(a: set<T>, b: set<T>)
    requires a <= b
    ensures |a| <= |b|
    ensures |a| == |b| ==> a == b
    decreases |b|
  {
    if b != {} {
      var x :| x in b;
      SubsetCard(a - {x}, b - {x});
      if x in a {
        assert a == (a - {x}) + {x};
      } else {
        assert a - {x} == a;
      }
    }
  }

  /** The completion test holds exactly when the question's correct keys are
      pairwise distinct and the picked keys are precisely those keys: the test
      is set equality only for a question that lists no key twice, and a
      question that lists a key twice can never be completed. */
  lemma CompleteIff(selected: set<Key>, correct: seq<Key>)
    ensures IsComplete(selected, correct) <==> Distinct(correct) && selected == Elems(correct)
  {
    ElemsCard(correct);
    if selected <= Elems(correct) {
      SubsetCard(selected, Elems(correct));
    }
  }
}
