/** Ordinal string order and the sort used for the report keys.

    Strings are compared character by character on their code values; the
    first differing character decides, and a proper prefix sorts first. */
module Ordinal {
  import opened Collections

  predicate Less(a: string, b: string)
    decreases |a|
  {
    if |a| == 0 then |b| > 0
    else if |b| == 0 then false
    else if a[0] != b[0] then a[0] < b[0]
    else Less(a[1..], b[1..])
  }

  lemma {:induction false} LessIrreflexive(a: string)
    ensures !Less(a, a)
  {
    if |a| > 0 {
      LessIrreflexive(a[1..]);
    }
  }

  lemma {:induction false} LessAsymmetric(a: string, b: string)
    requires Less(a, b)
    ensures !Less(b, a)
  {
    if |a| > 0 && |b| > 0 && a[0] == b[0] {
      LessAsymmetric(a[1..], b[1..]);
    }
  }

  lemma {:induction false} LessTransitive(a: string, b: string, c: string)
    requires Less(a, b) && Less(b, c)
    ensures Less(a, c)
  {
    if |a| > 0 && a[0] == b[0] && b[0] == c[0] {
      LessTransitive(a[1..], b[1..], c[1..]);
    }
  }

  /** Any two distinct strings are ordered one way or the other. */
  lemma {:induction false} LessTotal(a: string, b: string)
    ensures a == b || Less(a, b) || Less(b, a)
  {
    if |a| > 0 && |b| > 0 && a[0] == b[0] {
      LessTotal(a[1..], b[1..]);
      if a[1..] == b[1..] {
        assert a == [a[0]] + a[1..];
        assert b == [b[0]] + b[1..];
      }
    }
  }

  /** The non-strict order "not after" is transitive. */
  lemma NotAfterTransitive(a: string, b: string, c: string)
    requires !Less(b, a) && !Less(c, b)
    ensures !Less(c, a)
  {
    LessTotal(a, b);
    LessTotal(b, c);
    if a != b && b != c {
      LessTransitive(a, b, c);
    }
    if Less(a, c) {
      LessAsymmetric(a, c);
    } else {
      LessIrreflexive(a);
    }
  }

  /** No later element sorts before an earlier one. */
  predicate Sorted(s: seq<string>)
  {
    forall i, j | 0 <= i < j < |s| :: !Less(s[j], s[i])
  }

  /** Every element sorts strictly before every later one. */
  predicate StrictlyAscending(s: seq<string>)
  {
    forall i, j | 0 <= i < j < |s| :: Less(s[i], s[j])
  }

  /** Places x into a sorted sequence. */
  function Insert(x: string, s: seq<string>): (r: seq<string>)
    requires Sorted(s)
    ensures Sorted(r)
    ensures multiset(r) == multiset(s) + multiset{x}
  {
    if |s| == 0 then [x]
    else if !Less(s[0], x) then
      assert Sorted([x] + s) by {
        var r := [x] + s;
        forall i, j | 0 <= i < j < |r| ensures !Less(r[j], r[i]) {
          if i == 0 {
            if j > 1 {
              NotAfterTransitive(x, s[0], s[j - 1]);
            }
          } else {
            assert r[i] == s[i - 1] && r[j] == s[j - 1];
          }
        }
      }
      [x] + s
    else
      var rest := Insert(x, s[1..]);
      assert s == [s[0]] + s[1..];
      assert Sorted([s[0]] + rest) by {
        forall j | 0 <= j < |rest| ensures !Less(rest[j], s[0]) {
          assert rest[j] in multiset(rest);
          if rest[j] == x {
            LessAsymmetric(s[0], x);
          } else {
            assert rest[j] in multiset(s[1..]);
            var k :| 0 <= k < |s[1..]| && s[1..][k] == rest[j];
            assert s[k + 1] == rest[j];
          }
        }
      }
      [s[0]] + rest
  }

  /** Sorts a sequence of strings into ordinal order (insertion sort). */
  function SortStrings(s: seq<string>): (r: seq<string>)
    ensures Sorted(r)
    ensures multiset(r) == multiset(s)
  {
    if |s| == 0 then []
    else
      assert s == [s[0]] + s[1..];
      Insert(s[0], SortStrings(s[1..]))
  }

  /** A sorted sequence without repetitions is strictly ascending. */
  lemma SortedDistinctIsStrict(s: seq<string>)
    requires Sorted(s) && Distinct(s)
    ensures StrictlyAscending(s)
  {
    forall i, j | 0 <= i < j < |s| ensures Less(s[i], s[j]) {
      LessTotal(s[i], s[j]);
    }
  }

  /** Sorting keeps the elements and adds no repetitions: a repetition-free
      input comes out strictly ascending, holding the same elements. */
  lemma SortDistinct(s: seq<string>)
    requires Distinct(s)
    ensures StrictlyAscending(SortStrings(s))
    ensures SetOf(SortStrings(s)) == SetOf(s)
    ensures |SortStrings(s)| == |s|
  {
    var r := SortStrings(s);
    assert |r| == |multiset(r)| == |multiset(s)| == |s|;
    forall x ensures x in r <==> x in s {
      assert x in r <==> x in multiset(r);
      assert x in s <==> x in multiset(s);
    }
    assert SetOf(r) == SetOf(s);
    DistinctCardinality(s);
    DistinctCardinality(r);
    SortedDistinctIsStrict(r);
  }

  /** A strictly ascending sequence has no repetitions. */
  lemma StrictlyAscendingDistinct(s: seq<string>)
    requires StrictlyAscending(s)
    ensures Distinct(s)
  {
    forall i, j | 0 <= i < j < |s| ensures s[i] != s[j] {
      LessIrreflexive(s[i]);
    }
  }

  /** The strictly ascending arrangement of a set of strings is unique. */
  lemma {:induction false} AscendingUnique(s: seq<string>, t: seq<string>)
    requires StrictlyAscending(s) && StrictlyAscending(t)
    requires SetOf(s) == SetOf(t)
    ensures s == t
  {
    StrictlyAscendingDistinct(s);
    StrictlyAscendingDistinct(t);
    DistinctCardinality(s);
    DistinctCardinality(t);
    if |s| > 0 {
      assert s[0] in SetOf(t);
      assert t[0] in SetOf(s);
      if s[0] != t[0] {
        var i :| 0 <= i < |s| && s[i] == t[0];
        var j :| 0 <= j < |t| && t[j] == s[0];
        assert Less(s[0], t[0]) by {
          assert i > 0;
        }
        assert Less(t[0], s[0]) by {
          assert j > 0;
        }
        LessAsymmetric(s[0], t[0]);
      }
      assert SetOf(s[1..]) == SetOf(t[1..]) by {
        forall x ensures x in SetOf(s[1..]) <==> x in SetOf(t[1..]) {
          if x in s[1..] {
            var i :| 1 <= i < |s| && s[i] == x;
            LessIrreflexive(s[0]);
            assert x != s[0];
            assert x in SetOf(t);
          }
          if x in t[1..] {
            var j :| 1 <= j < |t| && t[j] == x;
            LessIrreflexive(t[0]);
            assert x != t[0];
            assert x in SetOf(s);
          }
        }
      }
      AscendingUnique(s[1..], t[1..]);
      assert s == [s[0]] + s[1..];
      assert t == [t[0]] + t[1..];
    }
  }
}
