/**
  The repertoire table as the engine sees it: a sequence of rows, each one a
  clonotype observation of one sample, plus the per-sample counting functions
  and the boolean-mask selection that pandas' `df[mask]` performs.
 */
module Rows {

  /** One cell of an identity column: pandas' missing value, or a string. */
  datatype Cell = Null | Text(text: string)

  /** A read fraction as floating-point division yields it: `0 / 0` is NaN. */
  datatype Fraction = Finite(value: real) | NaN

  /** One clonotype observation. `cells` holds the identity columns
      (`CDR3nt`, `VGene`, `CDR3nt_A`, ...) by column name; `fraction` is the
      row's cell of the input's own `fractionOfReads` column, NaN where it is
      missing, and is read only when the table has that column. */
  datatype Row = Row(sampleId: string, readCount: nat, cells: map<string, Cell>, fraction: Fraction)

  /** `count / total` in real arithmetic, NaN for the empty total. */
  function Divide(count: nat, total: nat): (f: Fraction)
    ensures total > 0 ==> f == Finite(count as real / total as real)
    ensures total == 0 ==> f == NaN
  {
    if total == 0 then NaN else Finite(count as real / total as real)
  }

  /** The sample ids occurring in `s`. */
  function SampleIds(s: seq<Row>): set<string>
  {
    set r | r in s :: r.sampleId
  }

  /** Number of rows of sample `sid`. */
  function CountOf(s: seq<Row>, sid: string): nat
  {
    if |s| == 0 then 0
    else CountOf(s[..|s| - 1], sid) + (if s[|s| - 1].sampleId == sid then 1 else 0)
  }

  /** Total reads of sample `sid` (pandas' `groupby('sampleId')['numberOfreads'].sum()`). */
  function ReadsOf(s: seq<Row>, sid: string): nat
  {
    if |s| == 0 then 0
    else ReadsOf(s[..|s| - 1], sid) + (if s[|s| - 1].sampleId == sid then s[|s| - 1].readCount else 0)
  }

  function Sum(c: seq<nat>): nat
  {
    if |c| == 0 then 0 else Sum(c[..|c| - 1]) + c[|c| - 1]
  }

  /** The read-count column of `s`. */
  function ReadCounts(s: seq<Row>): (c: seq<nat>)
    ensures |c| == |s| && forall i :: 0 <= i < |s| ==> c[i] == s[i].readCount
  {
    seq(|s|, i requires 0 <= i < |s| => s[i].readCount)
  }

  /** The elements of `s` whose mask entry is true, in their original order (`df[mask]`). */
  function Masked<T>(s: seq<T>, mask: seq<bool>): (r: seq<T>)
    requires |mask| == |s|
    ensures |r| <= |s|
  {
    if |s| == 0 then []
    else Masked(s[..|s| - 1], mask[..|s| - 1]) + (if mask[|s| - 1] then [s[|s| - 1]] else [])
  }

  /** The positions at which `mask` is true, in increasing order. */
  function TrueIndices(mask: seq<bool>): (idx: seq<nat>)
    ensures forall k :: 0 <= k < |idx| ==> idx[k] < |mask|
  {
    if |mask| == 0 then []
    else TrueIndices(mask[..|mask| - 1]) + (if mask[|mask| - 1] then [|mask| - 1] else [])
  }

  /** The rows of sample `sid`, in their original order. */
  function OfSample(s: seq<Row>, sid: string): (r: seq<Row>)
    ensures forall x :: x in r ==> x in s && x.sampleId == sid
  {
    if |s| == 0 then []
    else OfSample(s[..|s| - 1], sid) + (if s[|s| - 1].sampleId == sid then [s[|s| - 1]] else [])
  }

  /** The distinct sample ids in order of first appearance (`df['sampleId'].unique()`). */
  function UniqueIds(s: seq<Row>): (u: seq<string>)
    ensures forall x :: x in u <==> x in SampleIds(s)
  {
    if |s| == 0 then []
    else
      var u := UniqueIds(s[..|s| - 1]);
      assert forall r :: r in s <==> r in s[..|s| - 1] || r == s[|s| - 1];
      if s[|s| - 1].sampleId in u then u else u + [s[|s| - 1].sampleId]
  }

  predicate Distinct<T(==)>(s: seq<T>)
  {
    forall i, j :: 0 <= i < j < |s| ==> s[i] != s[j]
  }

  /** The head of a sequence without repeats is not in its tail, which has no repeats either. */
  lemma DistinctTail<T>(s: seq<T>, x: T)
    requires Distinct(s) && |s| > 0
    ensures Distinct(s[1..]) && s[0] !in s[1..]
    ensures x in s <==> x == s[0] || x in s[1..]
  {
    assert s == [s[0]] + s[1..];
    forall j | 0 <= j < |s[1..]| ensures s[1..][j] != s[0] {
      assert s[1..][j] == s[j + 1];
    }
  }

  lemma {:induction false} UniqueIdsDistinct(s: seq<Row>)
    ensures Distinct(UniqueIds(s))
  {
    if |s| > 0 {
      UniqueIdsDistinct(s[..|s| - 1]);
    }
  }

  lemma {:induction false} TrueIndicesExact(mask: seq<bool>, i: nat)
    requires i < |mask|
    ensures i in TrueIndices(mask) <==> mask[i]
  {
    var n := |mask| - 1;
    if i < n {
      TrueIndicesExact(mask[..n], i);
    } else {
      TrueIndicesBelow(mask[..n], n);
    }
  }

  lemma {:induction false} TrueIndicesBelow(mask: seq<bool>, bound: nat)
    requires |mask| <= bound
    ensures bound !in TrueIndices(mask)
  {
  }

  lemma {:induction false} TrueIndicesIncreasing(mask: seq<bool>)
    ensures forall a, b :: 0 <= a < b < |TrueIndices(mask)| ==> TrueIndices(mask)[a] < TrueIndices(mask)[b]
  {
    if |mask| > 0 {
      TrueIndicesIncreasing(mask[..|mask| - 1]);
    }
  }

  /** `df[mask]` picks, in order, exactly the rows at the true positions of the mask. */
  lemma {:induction false} MaskedAtTrueIndices<T>(s: seq<T>, mask: seq<bool>)
    requires |mask| == |s|
    ensures |Masked(s, mask)| == |TrueIndices(mask)|
    ensures forall k :: 0 <= k < |Masked(s, mask)| ==> Masked(s, mask)[k] == s[TrueIndices(mask)[k]]
  {
    if |s| > 0 {
      var n := |s| - 1;
      MaskedAtTrueIndices(s[..n], mask[..n]);
    }
  }

  /** A selection takes each element of `s` at most as often as `s` holds it. */
  lemma {:induction false} MaskedSubMultiset<T>(s: seq<T>, mask: seq<bool>)
    requires |mask| == |s|
    ensures multiset(Masked(s, mask)) <= multiset(s)
  {
    if |s| > 0 {
      var n := |s| - 1;
      var p := s[..n];
      var r := Masked(p, mask[..n]);
      var last: seq<T> := if mask[n] then [s[n]] else [];
      MaskedSubMultiset(p, mask[..n]);
      assert Masked(s, mask) == r + last;
      assert multiset(Masked(s, mask)) == multiset(r) + multiset(last);
      SnocParts(s);
      assert multiset(s) == multiset(p) + multiset([s[n]]);
      assert multiset(last) <= multiset([s[n]]);
    }
  }

  /** An element at a position the mask drops occurs less often in the selection than in `s`. */
  lemma {:induction false} MaskedDropped<T>(s: seq<T>, mask: seq<bool>, j: nat)
    requires |mask| == |s| && j < |s| && !mask[j]
    ensures multiset(Masked(s, mask))[s[j]] < multiset(s)[s[j]]
  {
    var n := |s| - 1;
    var p := s[..n];
    var r := Masked(p, mask[..n]);
    var last: seq<T> := if mask[n] then [s[n]] else [];
    assert Masked(s, mask) == r + last;
    assert multiset(Masked(s, mask)) == multiset(r) + multiset(last);
    SnocParts(s);
    assert multiset(s) == multiset(p) + multiset([s[n]]);
    if j == n {
      MaskedSubMultiset(p, mask[..n]);
      assert last == [];
    } else {
      assert p[j] == s[j] && mask[..n][j] == mask[j];
      MaskedDropped(p, mask[..n], j);
      assert multiset(last) <= multiset([s[n]]);
    }
  }

  lemma {:induction false} MaskedMember<T>(s: seq<T>, mask: seq<bool>, x: T)
    requires |mask| == |s|
    ensures x in Masked(s, mask) <==> exists i :: 0 <= i < |s| && mask[i] && s[i] == x
  {
    if |s| > 0 {
      var n := |s| - 1;
      MaskedMember(s[..n], mask[..n], x);
      if x in Masked(s[..n], mask[..n]) {
        var i :| 0 <= i < n && mask[..n][i] && s[..n][i] == x;
        assert mask[i] && s[i] == x;
      }
      if exists i :: 0 <= i < |s| && mask[i] && s[i] == x {
        var i :| 0 <= i < |s| && mask[i] && s[i] == x;
        if i < n {
          assert mask[..n][i] && s[..n][i] == x;
        }
      }
    }
  }

  /** A non-empty sequence is its front followed by its last element. */
  lemma SnocParts<T>(s: seq<T>)
    requires |s| > 0
    ensures s[..|s| - 1] + [s[|s| - 1]] == s
  {
  }

  lemma {:induction false} OfSampleOwnAt(s: seq<Row>, sid: string)
    requires forall i :: 0 <= i < |s| ==> s[i].sampleId == sid
    ensures OfSample(s, sid) == s
  {
    if |s| > 0 {
      var n := |s| - 1;
      var p := s[..n];
      assert forall i :: 0 <= i < |p| ==> p[i].sampleId == sid by {
        forall i | 0 <= i < |p| ensures p[i].sampleId == sid {
          assert p[i] == s[i];
        }
      }
      OfSampleOwnAt(p, sid);
      assert OfSample(s, sid) == OfSample(p, sid) + [s[n]];
      SnocParts(s);
    }
  }

  /** A table holding only rows of `sid` is its own selection for `sid`. */
  lemma OfSampleOwn(s: seq<Row>, sid: string)
    requires forall r :: r in s ==> r.sampleId == sid
    ensures OfSample(s, sid) == s
  {
    forall i | 0 <= i < |s| ensures s[i].sampleId == sid {
      assert s[i] in s;
    }
    OfSampleOwnAt(s, sid);
  }

  /** Counting rows of one sample is monotone along prefixes. */
  lemma {:induction false} CountOfMonotone(s: seq<Row>, a: nat, b: nat, sid: string)
    requires a <= b <= |s|
    ensures CountOf(s[..a], sid) <= CountOf(s[..b], sid)
  {
    if a < b {
      CountOfMonotone(s, a, b - 1, sid);
      assert s[..b][..b - 1] == s[..b - 1];
    }
  }

  /** Summing reads of one sample is monotone along prefixes. */
  lemma {:induction false} ReadsOfMonotone(s: seq<Row>, a: nat, b: nat, sid: string)
    requires a <= b <= |s|
    ensures ReadsOf(s[..a], sid) <= ReadsOf(s[..b], sid)
  {
    if a < b {
      ReadsOfMonotone(s, a, b - 1, sid);
      assert s[..b][..b - 1] == s[..b - 1];
    }
  }

  /** One more row of the prefix adds its reads to its own sample. */
  lemma ReadsOfStep(s: seq<Row>, j: nat, sid: string)
    requires j < |s|
    ensures ReadsOf(s[..j + 1], sid) == ReadsOf(s[..j], sid) + (if s[j].sampleId == sid then s[j].readCount else 0)
  {
    assert s[..j + 1][..j] == s[..j];
  }

  lemma {:induction false} OfSampleAppend(a: seq<Row>, b: seq<Row>, sid: string)
    ensures OfSample(a + b, sid) == OfSample(a, sid) + OfSample(b, sid)
  {
    if |b| > 0 {
      var n := |b| - 1;
      assert (a + b)[..|a + b| - 1] == a + b[..n];
      OfSampleAppend(a, b[..n], sid);
    } else {
      assert a + b == a;
    }
  }

  lemma {:induction false} ReadsOfAppend(a: seq<Row>, b: seq<Row>, sid: string)
    ensures ReadsOf(a + b, sid) == ReadsOf(a, sid) + ReadsOf(b, sid)
  {
    if |b| > 0 {
      var n := |b| - 1;
      assert (a + b)[..|a + b| - 1] == a + b[..n];
      ReadsOfAppend(a, b[..n], sid);
    } else {
      assert a + b == a;
    }
  }

  lemma {:induction false} CountOfAppend(a: seq<Row>, b: seq<Row>, sid: string)
    ensures CountOf(a + b, sid) == CountOf(a, sid) + CountOf(b, sid)
  {
    if |b| > 0 {
      var n := |b| - 1;
      assert (a + b)[..|a + b| - 1] == a + b[..n];
      CountOfAppend(a, b[..n], sid);
    } else {
      assert a + b == a;
    }
  }

  lemma ReadCountsSnoc(p: seq<Row>, x: Row)
    ensures Sum(ReadCounts(p + [x])) == Sum(ReadCounts(p)) + x.readCount
  {
    var q := p + [x];
    assert ReadCounts(q)[..|q| - 1] == ReadCounts(p);
  }

  /** A sample's total is the sum of the read counts of its own rows. */
  lemma {:induction false} ReadsOfSample(s: seq<Row>, sid: string)
    ensures ReadsOf(s, sid) == Sum(ReadCounts(OfSample(s, sid)))
  {
    if |s| > 0 {
      var n := |s| - 1;
      var p := OfSample(s[..n], sid);
      ReadsOfSample(s[..n], sid);
      if s[n].sampleId == sid {
        assert OfSample(s, sid) == p + [s[n]];
        ReadCountsSnoc(p, s[n]);
      } else {
        assert OfSample(s, sid) == p;
      }
    }
  }

  lemma {:induction false} CountOfSample(s: seq<Row>, sid: string)
    ensures CountOf(s, sid) == |OfSample(s, sid)|
  {
    if |s| > 0 {
      CountOfSample(s[..|s| - 1], sid);
    }
  }

  /** Rows of other samples do not count towards `sid`. */
  lemma {:induction false} ReadsOfOtherSample(s: seq<Row>, sid: string)
    requires forall r :: r in s ==> r.sampleId != sid
    ensures ReadsOf(s, sid) == 0 && OfSample(s, sid) == []
  {
    if |s| > 0 {
      ReadsOfOtherSample(s[..|s| - 1], sid);
    }
  }
}
