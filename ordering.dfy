/**
  Python's ordering of `str` values (code-point lexicographic) and `sorted()`
  on a list of distinct sample ids.
 */
module Ordering {

  /** `a < b` on Python strings. */
  predicate StrLt(a: string, b: string)
    decreases |a|
  {
    if |a| == 0 then |b| > 0
    else if |b| == 0 then false
    else if a[0] != b[0] then a[0] < b[0]
    else StrLt(a[1..], b[1..])
  }

  /** `a <= b` on Python strings. */
  predicate StrLe(a: string, b: string)
  {
    a == b || StrLt(a, b)
  }

  lemma {:induction false} StrLtIrreflexive(a: string)
    ensures !StrLt(a, a)
    decreases |a|
  {
    if |a| > 0 {
      StrLtIrreflexive(a[1..]);
    }
  }

  lemma {:induction false} StrLtAsymmetric(a: string, b: string)
    requires StrLt(a, b)
    ensures !StrLt(b, a)
    decreases |a|
  {
    if |a| > 0 && |b| > 0 && a[0] == b[0] {
      StrLtAsymmetric(a[1..], b[1..]);
    }
  }

  lemma {:induction false} StrLtTransitive(a: string, b: string, c: string)
    requires StrLt(a, b) && StrLt(b, c)
    ensures StrLt(a, c)
    decreases |a|
  {
    if |a| > 0 && a[0] == b[0] && b[0] == c[0] {
      StrLtTransitive(a[1..], b[1..], c[1..]);
    }
  }

  lemma {:induction false} StrLtTotal(a: string, b: string)
    ensures a == b || StrLt(a, b) || StrLt(b, a)
    decreases |a|
  {
    if |a| > 0 && |b| > 0 && a[0] == b[0] {
      StrLtTotal(a[1..], b[1..]);
      if a[1..] == b[1..] {
        assert a == [a[0]] + a[1..] && b == [b[0]] + b[1..];
      }
    }
  }

  predicate StrictlySorted(s: seq<string>)
  {
    forall i, j :: 0 <= i < j < |s| ==> StrLt(s[i], s[j])
  }

  /** Places `x` before the first element of `s` that exceeds it. */
  function Insert(x: string, s: seq<string>): seq<string>
  {
    if |s| == 0 then [x]
    else if StrLt(x, s[0]) then [x] + s
    else [s[0]] + Insert(x, s[1..])
  }

  lemma {:induction false} InsertElements(x: string, s: seq<string>)
    ensures multiset(Insert(x, s)) == multiset(s) + multiset{x}
  {
    if |s| > 0 && !StrLt(x, s[0]) {
      InsertElements(x, s[1..]);
      assert s == [s[0]] + s[1..];
    }
  }

  lemma {:induction false} InsertSorted(x: string, s: seq<string>)
    requires StrictlySorted(s) && x !in s
    ensures StrictlySorted(Insert(x, s))
  {
    if |s| == 0 {
    } else if StrLt(x, s[0]) {
      forall j | 0 < j < |s| ensures StrLt(x, s[j]) {
        StrLtTransitive(x, s[0], s[j]);
      }
    } else {
      StrLtTotal(x, s[0]);
      assert s == [s[0]] + s[1..];
      InsertSorted(x, s[1..]);
      InsertElements(x, s[1..]);
      var t := Insert(x, s[1..]);
      forall y | y in t ensures StrLt(s[0], y) {
        assert y in multiset(t);
        if y != x {
          assert y in multiset(s[1..]);
        }
      }
    }
  }

  /** `sorted()` of distinct strings. */
  function SortStrings(s: seq<string>): seq<string>
  {
    if |s| == 0 then [] else Insert(s[0], SortStrings(s[1..]))
  }

  /** Sorting distinct ids yields them strictly increasing, each exactly once. */
  lemma {:induction false} SortStringsCorrect(s: seq<string>)
    requires forall i, j :: 0 <= i < j < |s| ==> s[i] != s[j]
    ensures StrictlySorted(SortStrings(s))
    ensures multiset(SortStrings(s)) == multiset(s)
  {
    if |s| > 0 {
      SortStringsCorrect(s[1..]);
      var t := SortStrings(s[1..]);
      assert s == [s[0]] + s[1..];
      assert s[0] !in t by {
        assert s[0] !in multiset(s[1..]);
      }
      InsertElements(s[0], t);
      InsertSorted(s[0], t);
    }
  }

  lemma {:induction false} SortedPositionsAgree(s: seq<string>, i: nat, j: nat)
    requires StrictlySorted(s) && i < |s| && j < |s|
    ensures s[i] == s[j] <==> i == j
    ensures StrLe(s[i], s[j]) <==> i <= j
  {
    if i < j {
      StrLtAsymmetric(s[i], s[j]);
      StrLtIrreflexive(s[i]);
    } else if j < i {
      StrLtAsymmetric(s[j], s[i]);
      StrLtIrreflexive(s[j]);
    }
  }
}
