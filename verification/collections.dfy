/** Small facts about sequences viewed as collections. */
module Collections {

  /** The elements of a sequence, forgetting order and repetition. */
  function SetOf<T>(s: seq<T>): set<T>
  {
    set x | x in s
  }

  /** No element occurs twice. */
  predicate Distinct<T(==)>(s: seq<T>)
  {
    forall i, j | 0 <= i < j < |s| :: s[i] != s[j]
  }

  /** A sequence never has more distinct elements than positions. */
  lemma {:induction false} SetOfBound<T>(s: seq<T>)
    ensures |SetOf(s)| <= |s|
  {
    if |s| > 0 {
      SetOfBound(s[1..]);
      assert SetOf(s) == {s[0]} + SetOf(s[1..]);
    }
  }

  /** A sequence is free of repetitions exactly when its set of elements is
      as large as the sequence itself. */
  lemma {:induction false} DistinctCardinality<T>(s: seq<T>)
    ensures Distinct(s) <==> |SetOf(s)| == |s|
  {
    if |s| == 0 {
      assert SetOf(s) == {};
    } else {
      var t := s[1..];
      DistinctCardinality(t);
      SetOfBound(t);
      assert SetOf(s) == {s[0]} + SetOf(t);
      if s[0] in t {
        var k :| 0 <= k < |t| && t[k] == s[0];
        assert s[k + 1] == s[0];
        assert SetOf(s) == SetOf(t);
      } else {
        assert |SetOf(s)| == |SetOf(t)| + 1;
        if Distinct(t) {
          forall i, j | 0 <= i < j < |s| ensures s[i] != s[j] {
            if i > 0 {
              assert s[i] == t[i - 1] && s[j] == t[j - 1];
            } else {
              assert s[j] in t;
            }
          }
        } else {
          var i, j :| 0 <= i < j < |t| && t[i] == t[j];
          assert s[i + 1] == s[j + 1];
        }
      }
    }
  }
}
