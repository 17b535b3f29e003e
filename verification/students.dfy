/**
 Facts about the `students` array of a course: it is kept free of duplicates
 by checking membership before each append.
 */
module Students {

  /** No element occurs twice. */
  predicate Distinct<T(==)>(s: seq<T>) {
    forall i, j :: 0 <= i < j < |s| ==> s[i] != s[j]
  }

  /** How many times `x` occurs in `s`. */
  function Occurrences<T(==)>(s: seq<T>, x: T): nat {
    if s == [] then 0
    else (if s[0] == x then 1 else 0) + Occurrences(s[1..], x)
  }

  /** Appending `y` adds one occurrence of `y` and none of anything else. */
  lemma {:induction false} OccurrencesAppend<T>(s: seq<T>, y: T, x: T)
    ensures Occurrences(s + [y], x) == Occurrences(s, x) + (if x == y then 1 else 0)
  {
    if s != [] {
      assert (s + [y])[1..] == s[1..] + [y];
      OccurrencesAppend(s[1..], y, x);
    }
  }

  /** An element occurs in `s` exactly when it has a positive count there. */
  lemma {:induction false} OccurrencesPositive<T>(s: seq<T>, x: T)
    ensures x in s <==> Occurrences(s, x) > 0
  {
    if s != [] {
      OccurrencesPositive(s[1..], x);
      assert x in s <==> s[0] == x || x in s[1..];
    }
  }

  /** Appending keeps a sequence duplicate-free exactly when the new element is absent. */
  lemma DistinctAppend<T>(s: seq<T>, x: T)
    ensures Distinct(s + [x]) <==> Distinct(s) && x !in s
  {
    var t := s + [x];
    if Distinct(t) {
      forall i, j | 0 <= i < j < |s| ensures s[i] != s[j] {
        assert t[i] == s[i] && t[j] == s[j];
      }
      forall i | 0 <= i < |s| ensures s[i] != x {
        assert t[i] == s[i] && t[|s|] == x;
      }
    }
  }

  /** In a duplicate-free sequence every element occurs at most once. */
  lemma {:induction false} DistinctAtMostOnce<T>(s: seq<T>, x: T)
    requires Distinct(s)
    ensures Occurrences(s, x) <= 1
  {
    if s != [] {
      assert Distinct(s[1..]) by {
        forall i, j | 0 <= i < j < |s[1..]| ensures s[1..][i] != s[1..][j] {
          assert s[1..][i] == s[i + 1] && s[1..][j] == s[j + 1];
        }
      }
      DistinctAtMostOnce(s[1..], x);
      if s[0] == x {
        OccurrencesPositive(s[1..], x);
        assert x !in s[1..] by {
          forall k | 0 <= k < |s[1..]| ensures s[1..][k] != x {
            assert s[1..][k] == s[k + 1];
          }
        }
      }
    }
  }

  /** A sequence in which nothing occurs twice is duplicate-free. */
  lemma AtMostOnceDistinct<T>(s: seq<T>)
    requires forall x :: Occurrences(s, x) <= 1
    ensures Distinct(s)
  {
    forall i, j | 0 <= i < j < |s| ensures s[i] != s[j] {
      if s[i] == s[j] {
        TwoPositionsTwice(s, i, j);
      }
    }
  }

  /** An element found at two distinct positions occurs at least twice. */
  lemma {:induction false} TwoPositionsTwice<T>(s: seq<T>, i: nat, j: nat)
    requires i < j < |s| && s[i] == s[j]
    ensures Occurrences(s, s[i]) >= 2
  {
    if i == 0 {
      assert s[1..][j - 1] == s[j];
      OccurrencesPositive(s[1..], s[j]);
    } else {
      assert s[1..][i - 1] == s[i] && s[1..][j - 1] == s[j];
      TwoPositionsTwice(s[1..], i - 1, j - 1);
    }
  }
}
