/**
 Candidate strings: the characters still possible in one box, and the string
 operations the solver applies to them.
 */
module Candidates {

  /** The digits a box may hold, in the order every rule scans them. */
  const Digits: string := "123456789"

  /**
   `a` is obtained from `b` by deleting candidates: it is no longer and holds
   no character `b` does not hold. All reduction rules keep every box within
   its earlier candidates.
   */
  predicate Within(a: string, b: string)
  {
    |a| <= |b| && forall c :: c in a ==> c in b
  }

  /** A solved box can only keep its digit or lose it. */
  lemma WithinSingleton(a: string, c: char)
    requires Within(a, [c])
    ensures a == [] || a == [c]
  {
    if |a| == 1 {
      assert a[0] in a;
    }
  }

  lemma WithinTransitive(a: string, b: string, c: string)
    requires Within(a, b) && Within(b, c)
    ensures Within(a, c)
  {
  }

  /**
   Python's `s.replace(pat, '')`: scan left to right and delete every
   non-overlapping occurrence of `pat`. An empty pattern leaves `s` unchanged.
   */
  function Replace(s: string, pat: string): (r: string)
    decreases |s|
    ensures Within(r, s)
    ensures |pat| == 0 ==> r == s
    ensures |pat| == 1 ==> forall c :: c in r <==> c in s && c != pat[0]
  {
    if |pat| == 0 || |s| < |pat| then s
    else if s[..|pat|] == pat then
      assert s == s[..|pat|] + s[|pat|..];
      Replace(s[|pat|..], pat)
    else
      assert s == [s[0]] + s[1..];
      [s[0]] + Replace(s[1..], pat)
  }

  predicate Distinct<T(==)>(s: seq<T>)
  {
    forall i, j :: 0 <= i < j < |s| ==> s[i] != s[j]
  }

  /** A sequence without repetitions has as many distinct elements as it has entries. */
  lemma {:induction false} DistinctCard<T>(s: seq<T>)
    requires Distinct(s)
    ensures |set x | x in s| == |s|
  {
    if s != [] {
      DistinctCard(s[1..]);
      assert (set x | x in s) == (set x | x in s[1..]) + {s[0]};
      assert s[0] !in s[1..];
    } else {
      assert (set x | x in s) == {};
    }
  }

  /** A sequence with a repetition has fewer distinct elements than entries. */
  lemma {:induction false} RepeatedCard<T>(s: seq<T>, i: int, j: int)
    requires 0 <= i < j < |s| && s[i] == s[j]
    ensures |set x | x in s| < |s|
  {
    if i == 0 {
      SetCardBound(s[1..]);
      assert (set x | x in s) == (set x | x in s[1..]);
    } else {
      RepeatedCard(s[1..], i - 1, j - 1);
      assert (set x | x in s) <= (set x | x in s[1..]) + {s[0]};
      SubsetCard(set x | x in s, (set x | x in s[1..]) + {s[0]});
    }
  }

  lemma {:induction false} SetCardBound<T>(s: seq<T>)
    ensures |set x | x in s| <= |s|
  {
    if s == [] {
      assert (set x | x in s) == {};
    } else {
      SetCardBound(s[1..]);
      assert (set x | x in s) == (set x | x in s[1..]) + {s[0]};
    }
  }

  lemma SubsetCard<T>(a: set<T>, b: set<T>)
    requires a <= b
    ensures |a| <= |b|
  {
    assert b == a + (b - a);
  }

  /**
   Nine distinct entries drawn from a set of nine values use every value:
   a distinct sequence inside a set of its own size covers the set.
   */
  lemma Pigeonhole<T>(s: seq<T>, full: set<T>)
    requires Distinct(s)
    requires forall i :: 0 <= i < |s| ==> s[i] in full
    requires |full| == |s|
    ensures forall x :: x in full ==> x in s
  {
    var seen := set x | x in s;
    DistinctCard(s);
    forall x | x in full
      ensures x in s
    {
      if x !in s {
        assert seen <= full - {x};
        SubsetCard(seen, full - {x});
      }
    }
  }

  lemma DigitsDistinct()
    ensures Distinct(Digits)
    ensures |set c | c in Digits| == 9
  {
    assert Digits[0] == '1' && Digits[1] == '2' && Digits[2] == '3' && Digits[3] == '4' && Digits[4] == '5';
    assert Digits[5] == '6' && Digits[6] == '7' && Digits[7] == '8' && Digits[8] == '9';
    DistinctCard(Digits);
  }
}
