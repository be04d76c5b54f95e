/**
  Per-configuration read downsampling (software/src/main.py, downsample_df):
  none, top(n), cumtop(n) and hypergeometric resampling, followed by the
  per-sample read fractions.
 */
module Downsampling {
  import opened Common
  import opened Rows

  /** The `downsampling` object of a metric configuration, holding only the
      keys its type reads; absent keys are `None`. Structural equality stands
      for equality of the sorted JSON dump for configs with no other keys and
      integer numbers. */
  datatype DownsamplingConfig =
    | NoDownsampling
    | Top(count: Option<nat>)
    | CumTop(percent: Option<int>)
    | Hypergeometric(valueChooser: Option<string>, n: Option<int>)
    | UnsupportedType(kind: string)

  /** A downsampled table; `fractions` is the computed `fractionOfReads` column,
      absent when the table was passed through unchanged (its rows then carry the
      input's own column, if any). */
  datatype Downsampled = Downsampled(rows: seq<Row>, fractions: Option<seq<Fraction>>)

  /** The fraction column, when present, has one entry per row. */
  predicate WellFormed(ds: Downsampled)
  {
    ds.fractions.Some? ==> |ds.fractions.value| == |ds.rows|
  }

  const DefaultTopN := 1000
  const DefaultCumTopPercent := 50
  const DefaultFixedReads := 1000

  // ---------- Sorting by read count ----------

  predicate Descending(s: seq<Row>)
  {
    forall i, j :: 0 <= i < j < |s| ==> s[j].readCount <= s[i].readCount
  }

  function InsertByReads(x: Row, s: seq<Row>): seq<Row>
  {
    if |s| == 0 then [x]
    else if s[0].readCount <= x.readCount then [x] + s
    else [s[0]] + InsertByReads(x, s[1..])
  }

  /** `sort_values('numberOfreads', ascending=False)`; ties keep their input order. */
  function SortByReadsDesc(s: seq<Row>): seq<Row>
  {
    if |s| == 0 then [] else InsertByReads(s[0], SortByReadsDesc(s[1..]))
  }

  lemma {:induction false} InsertByReadsElements(x: Row, s: seq<Row>)
    ensures multiset(InsertByReads(x, s)) == multiset(s) + multiset{x}
    ensures forall sid :: CountOf(InsertByReads(x, s), sid) == CountOf([x] + s, sid)
    ensures forall sid :: ReadsOf(InsertByReads(x, s), sid) == ReadsOf([x] + s, sid)
  {
    if |s| > 0 && s[0].readCount > x.readCount {
      InsertByReadsElements(x, s[1..]);
      assert s == [s[0]] + s[1..];
      forall sid ensures CountOf(InsertByReads(x, s), sid) == CountOf([x] + s, sid)
                   && ReadsOf(InsertByReads(x, s), sid) == ReadsOf([x] + s, sid) {
        CountOfAppend([s[0]], InsertByReads(x, s[1..]), sid);
        CountOfAppend([x], s[1..], sid);
        CountOfAppend([s[0]], [x] + s[1..], sid);
        CountOfAppend([x], s, sid);
        CountOfAppend([s[0]], s[1..], sid);
        ReadsOfAppend([s[0]], InsertByReads(x, s[1..]), sid);
        ReadsOfAppend([x], s[1..], sid);
        ReadsOfAppend([s[0]], [x] + s[1..], sid);
        ReadsOfAppend([x], s, sid);
        ReadsOfAppend([s[0]], s[1..], sid);
      }
    }
  }

  lemma {:induction false} InsertByReadsDescending(x: Row, s: seq<Row>)
    requires Descending(s)
    ensures Descending(InsertByReads(x, s))
  {
    if |s| > 0 && s[0].readCount > x.readCount {
      InsertByReadsDescending(x, s[1..]);
      InsertByReadsElements(x, s[1..]);
      var t := InsertByReads(x, s[1..]);
      forall y | y in t ensures y.readCount <= s[0].readCount {
        assert y in multiset(t);
        if y != x {
          assert y in multiset(s[1..]);
        }
      }
    }
  }

  /** The sort is a descending permutation that keeps every sample's row count and total. */
  lemma {:induction false} SortByReadsDescCorrect(s: seq<Row>)
    ensures Descending(SortByReadsDesc(s))
    ensures multiset(SortByReadsDesc(s)) == multiset(s)
    ensures forall sid :: CountOf(SortByReadsDesc(s), sid) == CountOf(s, sid)
    ensures forall sid :: ReadsOf(SortByReadsDesc(s), sid) == ReadsOf(s, sid)
  {
    if |s| > 0 {
      var t := SortByReadsDesc(s[1..]);
      SortByReadsDescCorrect(s[1..]);
      InsertByReadsDescending(s[0], t);
      InsertByReadsElements(s[0], t);
      assert s == [s[0]] + s[1..];
      forall sid ensures CountOf(SortByReadsDesc(s), sid) == CountOf(s, sid)
                   && ReadsOf(SortByReadsDesc(s), sid) == ReadsOf(s, sid) {
        CountOfAppend([s[0]], t, sid);
        CountOfAppend([s[0]], s[1..], sid);
        ReadsOfAppend([s[0]], t, sid);
        ReadsOfAppend([s[0]], s[1..], sid);
      }
    }
  }

  lemma {:induction false} MaskedDescending(s: seq<Row>, m: seq<bool>)
    requires |m| == |s| && Descending(s)
    ensures Descending(Masked(s, m))
  {
    if |s| > 0 {
      var n := |s| - 1;
      MaskedDescending(s[..n], m[..n]);
      forall y | y in Masked(s[..n], m[..n]) ensures s[n].readCount <= y.readCount {
        MaskedMember(s[..n], m[..n], y);
      }
    }
  }

  // ---------- top(n) ----------

  /** `groupby('sampleId').head(n)`: a row survives when fewer than `n` earlier rows share its sample. */
  function TopMask(s: seq<Row>, n: nat): (m: seq<bool>)
    ensures |m| == |s|
    ensures forall i :: 0 <= i < |s| ==> (m[i] <==> CountOf(s[..i], s[i].sampleId) < n)
  {
    seq(|s|, i requires 0 <= i < |s| => CountOf(s[..i], s[i].sampleId) < n)
  }

  function TopRows(rows: seq<Row>, n: nat): seq<Row>
  {
    var s := SortByReadsDesc(rows);
    Masked(s, TopMask(s, n))
  }

  lemma {:induction false} TopMaskCount(s: seq<Row>, n: nat, sid: string)
    ensures CountOf(Masked(s, TopMask(s, n)), sid) == if CountOf(s, sid) < n then CountOf(s, sid) else n
  {
    if |s| > 0 {
      var k := |s| - 1;
      assert TopMask(s, n)[..k] == TopMask(s[..k], n) by {
        forall i | 0 <= i < k ensures TopMask(s, n)[i] == TopMask(s[..k], n)[i] {
          assert s[..k][..i] == s[..i];
        }
      }
      TopMaskCount(s[..k], n, sid);
      CountOfAppend(Masked(s[..k], TopMask(s[..k], n)), if TopMask(s, n)[k] then [s[k]] else [], sid);
    }
  }

  /** top(n) leaves, per sample, n rows or all of them when the sample has fewer. */
  lemma TopKeepsAtMostN(rows: seq<Row>, n: nat, sid: string)
    ensures CountOf(TopRows(rows, n), sid) == if CountOf(rows, sid) < n then CountOf(rows, sid) else n
  {
    SortByReadsDescCorrect(rows);
    TopMaskCount(SortByReadsDesc(rows), n, sid);
  }

  /** Earlier rows of the same sample in a descending order are the ones with at least as many reads. */
  lemma EarlierInSample(s: seq<Row>, i: nat, j: nat)
    requires Descending(s) && i < |s| && j < |s| && s[j].sampleId == s[i].sampleId
    requires s[j].readCount > s[i].readCount
    ensures CountOf(s[..j], s[i].sampleId) < CountOf(s[..i], s[i].sampleId)
    ensures ReadsOf(s[..j + 1], s[i].sampleId) <= ReadsOf(s[..i + 1], s[i].sampleId)
  {
    var sid := s[i].sampleId;
    assert j < i;
    assert s[..j + 1][..j] == s[..j];
    CountOfMonotone(s, j + 1, i, sid);
    ReadsOfMonotone(s, j + 1, i + 1, sid);
  }

  /** Whoever has more reads than a retained row of its sample is retained too. */
  ghost predicate KeepsHigher(rows: seq<Row>, kept: seq<Row>)
  {
    forall x, y :: x in kept && y in rows && y.sampleId == x.sampleId && y.readCount > x.readCount ==> y in kept
  }

  /** top(n) keeps input rows only, each sample's highest-read ones, sorted by descending reads. */
  lemma TopKeepsHighest(rows: seq<Row>, n: nat)
    ensures multiset(TopRows(rows, n)) <= multiset(rows)
    ensures KeepsHigher(rows, TopRows(rows, n))
    ensures Descending(TopRows(rows, n))
  {
    var s := SortByReadsDesc(rows);
    var m := TopMask(s, n);
    SortByReadsDescCorrect(rows);
    MaskedDescending(s, m);
    MaskedSubMultiset(s, m);
    forall x, y | x in Masked(s, m) && y in rows && y.sampleId == x.sampleId && y.readCount > x.readCount
      ensures y in Masked(s, m)
    {
      MaskedMember(s, m, x);
      var i :| 0 <= i < |s| && m[i] && s[i] == x;
      assert y in multiset(s);
      var j :| 0 <= j < |s| && s[j] == y;
      EarlierInSample(s, i, j);
      MaskedMember(s, m, y);
    }
  }

  // ---------- cumtop(n) ----------

  /** `cumsum <= total * (n / 100)`, over integers; `whole` supplies the per-sample totals. */
  function CumTopMask(s: seq<Row>, n: int, whole: seq<Row>): (m: seq<bool>)
    ensures |m| == |s|
    ensures forall i {:trigger m[i]} :: 0 <= i < |s| ==>
      (m[i] <==> 100 * ReadsOf(s[..i + 1], s[i].sampleId) <= n * ReadsOf(whole, s[i].sampleId))
  {
    seq(|s|, i requires 0 <= i < |s| => 100 * ReadsOf(s[..i + 1], s[i].sampleId) <= n * ReadsOf(whole, s[i].sampleId))
  }

  function CumTopRows(rows: seq<Row>, n: int): seq<Row>
  {
    var s := SortByReadsDesc(rows);
    Masked(s, CumTopMask(s, n, s))
  }

  /** The cumulative mask of a front is the front of the mask. */
  lemma CumTopMaskFront(s: seq<Row>, n: int, whole: seq<Row>)
    requires |s| > 0
    ensures CumTopMask(s, n, whole)[..|s| - 1] == CumTopMask(s[..|s| - 1], n, whole)
  {
    var k := |s| - 1;
    forall i | 0 <= i < k ensures CumTopMask(s, n, whole)[i] == CumTopMask(s[..k], n, whole)[i] {
      assert s[..k][..i + 1] == s[..i + 1];
    }
  }

  /** The last row's mask entry compares the whole sequence's running sum. */
  lemma CumTopMaskLast(s: seq<Row>, n: int, whole: seq<Row>)
    requires |s| > 0
    ensures var x := s[|s| - 1];
            CumTopMask(s, n, whole)[|s| - 1] <==> 100 * ReadsOf(s, x.sampleId) <= n * ReadsOf(whole, x.sampleId)
  {
    assert s[..|s|] == s;
  }

  lemma {:induction false} CumTopMaskBound(s: seq<Row>, n: int, whole: seq<Row>, sid: string)
    requires n >= 0
    ensures var kept := ReadsOf(Masked(s, CumTopMask(s, n, whole)), sid);
            && 100 * kept <= n * ReadsOf(whole, sid)
            && (100 * ReadsOf(s, sid) <= n * ReadsOf(whole, sid) ==> kept == ReadsOf(s, sid))
  {
    if |s| > 0 {
      var k := |s| - 1;
      var m := CumTopMask(s, n, whole);
      var bound := n * ReadsOf(whole, sid);
      CumTopMaskFront(s, n, whole);
      CumTopMaskBound(s[..k], n, whole, sid);
      MaskedTotalsSnoc(s, m, sid);
      CumTopMaskLast(s, n, whole);
      var own := s[k].sampleId == sid;
      var before := ReadsOf(Masked(s[..k], m[..k]), sid);
      assert 100 * before <= bound;
      if 100 * ReadsOf(s, sid) <= bound {
        assert 100 * ReadsOf(s[..k], sid) <= bound;
        assert before == ReadsOf(s[..k], sid);
        assert own ==> m[k];
        assert ReadsOf(Masked(s, m), sid) == ReadsOf(s, sid);
      }
    }
  }

  /** cumtop(n) retains at most n percent of each sample's reads. */
  lemma CumTopWithinPercent(rows: seq<Row>, n: int, sid: string)
    requires n >= 0
    ensures 100 * ReadsOf(CumTopRows(rows, n), sid) <= n * ReadsOf(rows, sid)
  {
    var s := SortByReadsDesc(rows);
    SortByReadsDescCorrect(rows);
    CumTopMaskBound(s, n, s, sid);
  }

  /** Appending a row that may be kept adds its count and reads to its own sample only. */
  lemma TotalsSnoc(r: seq<Row>, x: Row, keep: bool, sid: string)
    ensures CountOf(r + (if keep then [x] else []), sid) == CountOf(r, sid) + (if keep && x.sampleId == sid then 1 else 0)
    ensures ReadsOf(r + (if keep then [x] else []), sid) == ReadsOf(r, sid) + (if keep && x.sampleId == sid then x.readCount else 0)
  {
    if keep {
      assert (r + [x])[..|r|] == r;
    } else {
      assert r + [] == r;
    }
  }

  /** A mask that, within sample `sid`, never keeps a row after dropping one. */
  predicate DropsSuffix(s: seq<Row>, m: seq<bool>, sid: string)
    requires |m| == |s|
  {
    forall i, j {:trigger m[i], m[j]} :: 0 <= i < j < |s| && s[i].sampleId == sid && s[j].sampleId == sid && !m[i] ==> !m[j]
  }

  lemma DropsSuffixFront(s: seq<Row>, m: seq<bool>, sid: string)
    requires |m| == |s| > 0 && DropsSuffix(s, m, sid)
    ensures DropsSuffix(s[..|s| - 1], m[..|s| - 1], sid)
  {
    var k := |s| - 1;
    forall i, j | 0 <= i < j < k && s[..k][i].sampleId == sid && s[..k][j].sampleId == sid && !m[..k][i]
      ensures !m[..k][j]
    {
      assert s[..k][i] == s[i] && s[..k][j] == s[j];
    }
  }

  /** One row more: the selection of `s` is the selection of its front plus, if kept, its last row. */
  lemma MaskedTotalsSnoc(s: seq<Row>, m: seq<bool>, sid: string)
    requires |m| == |s| > 0
    ensures var k := |s| - 1;
            var r := Masked(s[..k], m[..k]);
            var own := s[k].sampleId == sid;
            && CountOf(Masked(s, m), sid) == CountOf(r, sid) + (if m[k] && own then 1 else 0)
            && ReadsOf(Masked(s, m), sid) == ReadsOf(r, sid) + (if m[k] && own then s[k].readCount else 0)
            && CountOf(s, sid) == CountOf(s[..k], sid) + (if own then 1 else 0)
            && ReadsOf(s, sid) == ReadsOf(s[..k], sid) + (if own then s[k].readCount else 0)
  {
    var k := |s| - 1;
    assert Masked(s, m) == Masked(s[..k], m[..k]) + (if m[k] then [s[k]] else []);
    TotalsSnoc(Masked(s[..k], m[..k]), s[k], m[k], sid);
  }

  /** Such a mask keeps the rows of `sid` before its first dropped one: either it keeps all of them, or
      there is a dropped row `s[j]` and exactly the reads of `sid` before it are kept. */
  lemma {:induction false} FirstDrop(s: seq<Row>, m: seq<bool>, sid: string)
    requires |m| == |s| && DropsSuffix(s, m, sid)
    ensures CountOf(Masked(s, m), sid) <= CountOf(s, sid)
    ensures CountOf(Masked(s, m), sid) == CountOf(s, sid) ==> ReadsOf(Masked(s, m), sid) == ReadsOf(s, sid)
    ensures CountOf(Masked(s, m), sid) < CountOf(s, sid) ==>
              exists j :: 0 <= j < |s| && s[j].sampleId == sid && !m[j] && ReadsOf(Masked(s, m), sid) == ReadsOf(s[..j], sid)
  {
    if |s| > 0 {
      var k := |s| - 1;
      var p := s[..k];
      var r := Masked(p, m[..k]);
      DropsSuffixFront(s, m, sid);
      FirstDrop(p, m[..k], sid);
      MaskedTotalsSnoc(s, m, sid);
      var own := s[k].sampleId == sid;
      var kept := Masked(s, m);
      if CountOf(r, sid) < CountOf(p, sid) {
        var j :| 0 <= j < |p| && p[j].sampleId == sid && !m[..k][j] && ReadsOf(r, sid) == ReadsOf(p[..j], sid);
        FirstDropLater(s, m, sid, j);
        assert CountOf(kept, sid) < CountOf(s, sid);
        assert 0 <= j < |s| && s[j].sampleId == sid && !m[j] && ReadsOf(kept, sid) == ReadsOf(s[..j], sid);
      } else if own && !m[k] {
        assert CountOf(kept, sid) < CountOf(s, sid);
        assert 0 <= k < |s| && s[k].sampleId == sid && !m[k] && ReadsOf(kept, sid) == ReadsOf(s[..k], sid);
      } else {
        assert CountOf(kept, sid) == CountOf(s, sid) && ReadsOf(kept, sid) == ReadsOf(s, sid);
      }
    }
  }

  /** When the front already dropped a row `s[j]` of `sid`, the last row adds nothing for `sid`. */
  lemma FirstDropLater(s: seq<Row>, m: seq<bool>, sid: string, j: nat)
    requires |m| == |s| && DropsSuffix(s, m, sid) && j < |s| - 1
    requires s[j].sampleId == sid && !m[j]
    ensures var k := |s| - 1;
            ReadsOf(Masked(s, m), sid) == ReadsOf(Masked(s[..k], m[..k]), sid)
            && CountOf(Masked(s, m), sid) == CountOf(Masked(s[..k], m[..k]), sid)
            && s[..k][j] == s[j] && s[..k][..j] == s[..j] && !m[..k][j]
  {
    var k := |s| - 1;
    MaskedTotalsSnoc(s, m, sid);
    assert s[k].sampleId == sid ==> !m[k];
  }

  /** The running sum of a sample only grows, so once a row of it overshoots, every later one does. */
  lemma CumTopDropsSuffix(s: seq<Row>, n: int, whole: seq<Row>, sid: string)
    ensures DropsSuffix(s, CumTopMask(s, n, whole), sid)
  {
    var m := CumTopMask(s, n, whole);
    forall i, j | 0 <= i < j < |s| && s[i].sampleId == sid && s[j].sampleId == sid && !m[i]
      ensures !m[j]
    {
      CumTopDropsLater(s, n, whole, i, j);
    }
  }

  lemma CumTopDropsLater(s: seq<Row>, n: int, whole: seq<Row>, i: nat, j: nat)
    requires i < j < |s| && s[j].sampleId == s[i].sampleId && !CumTopMask(s, n, whole)[i]
    ensures !CumTopMask(s, n, whole)[j]
  {
    var sid := s[i].sampleId;
    var bound := n * ReadsOf(whole, sid);
    assert 100 * ReadsOf(s[..i + 1], sid) > bound;
    ReadsOfMonotone(s, i + 1, j + 1, sid);
    assert 100 * ReadsOf(s[..j + 1], sid) > bound;
  }

  /** cumtop(n) keeps the longest prefix within the bound: if a sample loses rows, one of its dropped
      rows alone would take the retained reads past n percent of the sample's total; if it loses none,
      it keeps all its reads. */
  lemma CumTopKeepsLongestPrefix(rows: seq<Row>, n: int, sid: string)
    ensures CountOf(CumTopRows(rows, n), sid) < CountOf(rows, sid) ==>
              exists y :: y in multiset(rows) - multiset(CumTopRows(rows, n)) && y.sampleId == sid
                            && 100 * (ReadsOf(CumTopRows(rows, n), sid) + y.readCount) > n * ReadsOf(rows, sid)
    ensures CountOf(CumTopRows(rows, n), sid) == CountOf(rows, sid) ==>
              ReadsOf(CumTopRows(rows, n), sid) == ReadsOf(rows, sid)
  {
    SortByReadsDescCorrect(rows);
    CumTopOvershoot(SortByReadsDesc(rows), n, sid);
  }

  /** `CumTopKeepsLongestPrefix` for a table already in read order. */
  lemma CumTopOvershoot(s: seq<Row>, n: int, sid: string)
    ensures var kept := Masked(s, CumTopMask(s, n, s));
            CountOf(kept, sid) < CountOf(s, sid) ==>
              exists y :: y in multiset(s) - multiset(kept) && y.sampleId == sid
                            && 100 * (ReadsOf(kept, sid) + y.readCount) > n * ReadsOf(s, sid)
    ensures var kept := Masked(s, CumTopMask(s, n, s));
            CountOf(kept, sid) == CountOf(s, sid) ==> ReadsOf(kept, sid) == ReadsOf(s, sid)
  {
    var m := CumTopMask(s, n, s);
    CumTopDropsSuffix(s, n, s, sid);
    FirstDrop(s, m, sid);
    if CountOf(Masked(s, m), sid) < CountOf(s, sid) {
      var j :| 0 <= j < |s| && s[j].sampleId == sid && !m[j] && ReadsOf(Masked(s, m), sid) == ReadsOf(s[..j], sid);
      CumTopOvershootAt(s, n, j);
    }
  }

  /** The row at a dropped position is missing from the selection and overshoots on top of its predecessors. */
  lemma CumTopOvershootAt(s: seq<Row>, n: int, j: nat)
    requires j < |s| && !CumTopMask(s, n, s)[j]
    ensures var kept := Masked(s, CumTopMask(s, n, s));
            && s[j] in multiset(s) - multiset(kept)
            && 100 * (ReadsOf(s[..j], s[j].sampleId) + s[j].readCount) > n * ReadsOf(s, s[j].sampleId)
  {
    var m := CumTopMask(s, n, s);
    ReadsOfStep(s, j, s[j].sampleId);
    MaskedDropped(s, m, j);
  }

  /** cumtop(n) retains input rows only, a descending prefix of each sample's rows. */
  lemma CumTopKeepsHighest(rows: seq<Row>, n: int)
    ensures multiset(CumTopRows(rows, n)) <= multiset(rows)
    ensures KeepsHigher(rows, CumTopRows(rows, n))
    ensures Descending(CumTopRows(rows, n))
  {
    var s := SortByReadsDesc(rows);
    var m := CumTopMask(s, n, s);
    SortByReadsDescCorrect(rows);
    MaskedDescending(s, m);
    MaskedSubMultiset(s, m);
    forall x, y | x in Masked(s, m) && y in rows && y.sampleId == x.sampleId && y.readCount > x.readCount
      ensures y in Masked(s, m)
    {
      MaskedMember(s, m, x);
      var i :| 0 <= i < |s| && m[i] && s[i] == x;
      assert y in multiset(s);
      var j :| 0 <= j < |s| && s[j] == y;
      CumTopKeepsEarlier(s, n, i, j);
      MaskedMember(s, m, y);
    }
  }

  /** In read order, a row of the same sample with more reads than a kept row is kept too. */
  lemma CumTopKeepsEarlier(s: seq<Row>, n: int, i: nat, j: nat)
    requires Descending(s) && i < |s| && j < |s| && s[j].sampleId == s[i].sampleId
    requires s[j].readCount > s[i].readCount && CumTopMask(s, n, s)[i]
    ensures CumTopMask(s, n, s)[j]
  {
    EarlierInSample(s, i, j);
  }

  // ---------- hypergeometric ----------

  /** The seeded multivariate hypergeometric generator: its `k`-th call draws
      `size` reads without replacement from the clonotype counts `counts`. */
  type Draw = (nat, seq<nat>, nat) -> seq<nat>

  /** What a draw of `size` reads from `counts` must satisfy. */
  predicate IsDraw(counts: seq<nat>, size: nat, d: seq<nat>)
  {
    |d| == |counts| && (forall i :: 0 <= i < |d| ==> d[i] <= counts[i]) && Sum(d) == size
  }

  ghost predicate DrawSound(draw: Draw)
  {
    forall k: nat, c: seq<nat>, size: nat :: size <= Sum(c) ==> IsDraw(c, size, draw(k, c, size))
  }

  /** One draw meeting the contract: take from the last clonotype first. */
  function GreedyDraw(c: seq<nat>, size: nat): seq<nat>
  {
    if |c| == 0 then []
    else
      var last := if c[|c| - 1] <= size then c[|c| - 1] else size;
      GreedyDraw(c[..|c| - 1], size - last) + [last]
  }

  /** A draw extended by one clonotype, taking at most its count. */
  lemma DrawSnoc(c: seq<nat>, x: nat, size: nat, d: seq<nat>, y: nat)
    requires IsDraw(c, size, d) && y <= x
    ensures IsDraw(c + [x], size + y, d + [y])
  {
    assert (c + [x])[..|c|] == c;
    assert (d + [y])[..|d|] == d;
    forall i | 0 <= i < |d| + 1 ensures (d + [y])[i] <= (c + [x])[i] {
      if i < |d| {
        assert (d + [y])[i] == d[i] && (c + [x])[i] == c[i];
      }
    }
  }

  lemma {:induction false} GreedyDrawIsDraw(c: seq<nat>, size: nat)
    requires size <= Sum(c)
    ensures IsDraw(c, size, GreedyDraw(c, size))
  {
    if |c| > 0 {
      var n := |c| - 1;
      var last := if c[n] <= size then c[n] else size;
      var front := GreedyDraw(c[..n], size - last);
      assert Sum(c) == Sum(c[..n]) + c[n];
      GreedyDrawIsDraw(c[..n], size - last);
      assert GreedyDraw(c, size) == front + [last];
      DrawSnoc(c[..n], c[n], size - last, front, last);
      assert c[..n] + [c[n]] == c;
    }
  }

  /** The greedy draw as a generator that ignores how many draws came before. */
  function GreedyGenerator(k: nat, c: seq<nat>, size: nat): seq<nat>
  {
    GreedyDraw(c, size)
  }

  /** The draw contract can be met. */
  lemma DrawSoundSatisfiable()
    ensures DrawSound(GreedyGenerator)
  {
    forall k: nat, c: seq<nat>, size: nat | size <= Sum(c)
      ensures IsDraw(c, size, GreedyGenerator(k, c, size))
    {
      GreedyDrawIsDraw(c, size);
    }
  }

  /** `sample_df['numberOfreads'] = counts`. */
  function WithCounts(sample: seq<Row>, c: seq<nat>): (r: seq<Row>)
    ensures |r| == |sample|
  {
    seq(|sample|, i requires 0 <= i < |sample| =>
      sample[i].(readCount := if i < |c| then c[i] else sample[i].readCount))
  }

  /** The per-sample loop over `ids` once `k` draws have been made. */
  function HyperFrom(rows: seq<Row>, ids: seq<string>, size: nat, draw: Draw, k: nat): seq<Row>
    decreases |ids|
  {
    if |ids| == 0 then []
    else
      var sample := OfSample(rows, ids[0]);
      var counts := ReadCounts(sample);
      if Sum(counts) > size then WithCounts(sample, draw(k, counts, size)) + HyperFrom(rows, ids[1..], size, draw, k + 1)
      else sample + HyperFrom(rows, ids[1..], size, draw, k)
  }

  /** Per-sample totals, one per distinct sample id. */
  function Totals(rows: seq<Row>): (t: seq<nat>)
    ensures |t| == |UniqueIds(rows)|
  {
    var ids := UniqueIds(rows);
    seq(|ids|, j requires 0 <= j < |ids| => ReadsOf(rows, ids[j]))
  }

  function MinOf(s: seq<nat>): nat
    requires |s| > 0
  {
    if |s| == 1 then s[0]
    else var m := MinOf(s[..|s| - 1]); if s[|s| - 1] < m then s[|s| - 1] else m
  }

  function MaxOf(s: seq<nat>): nat
    requires |s| > 0
  {
    if |s| == 1 then s[0]
    else var m := MaxOf(s[..|s| - 1]); if s[|s| - 1] > m then s[|s| - 1] else m
  }

  /** The smallest element exceeding `threshold`, if any. */
  function MinAbove(s: seq<nat>, threshold: real): Option<nat>
  {
    if |s| == 0 then None
    else
      var m := MinAbove(s[..|s| - 1], threshold);
      var x := s[|s| - 1];
      if x as real <= threshold then m
      else if m.Some? && m.value <= x then m
      else Some(x)
  }

  predicate KnownChooser(chooser: string)
  {
    chooser == "auto" || chooser == "fixed" || chooser == "min" || chooser == "max"
  }

  /** `min_reads` for the chooser; `q20` is the 20th percentile of the totals
      (numpy's interpolation is not modelled). The empty table never gets here. */
  function ChooseMinReads(totals: seq<nat>, chooser: string, n: Option<int>, q20: real): Result<int>
    requires |totals| > 0
  {
    if chooser == "auto" then
      Ok(match MinAbove(totals, 0.5 * q20) case Some(v) => v case None => 0)
    else if chooser == "fixed" then Ok(n.GetOr(DefaultFixedReads))
    else if chooser == "min" then Ok(MinOf(totals))
    else if chooser == "max" then Ok(MaxOf(totals))
    else Err(UnsupportedValueChooser(chooser))
  }

  /** The hypergeometric branch up to the concatenation of the per-sample tables. */
  function HyperRows(rows: seq<Row>, chooser: string, n: Option<int>, q20: real, draw: Draw): Result<seq<Row>>
  {
    if !KnownChooser(chooser) then Err(UnsupportedValueChooser(chooser))
    else if |rows| == 0 then Err(NothingToConcatenate)
    else
      var size :- ChooseMinReads(Totals(rows), chooser, n, q20);
      if size < 0 then Err(NegativeSampleSize(size))
      else Ok(HyperFrom(rows, UniqueIds(rows), size, draw, 0))
  }

  lemma {:induction false} MinOfIsLeast(s: seq<nat>)
    requires |s| > 0
    ensures MinOf(s) in s && forall t :: t in s ==> MinOf(s) <= t
  {
    if |s| > 1 {
      MinOfIsLeast(s[..|s| - 1]);
      assert s == s[..|s| - 1] + [s[|s| - 1]];
    }
  }

  lemma {:induction false} MaxOfIsGreatest(s: seq<nat>)
    requires |s| > 0
    ensures MaxOf(s) in s && forall t :: t in s ==> t <= MaxOf(s)
  {
    if |s| > 1 {
      MaxOfIsGreatest(s[..|s| - 1]);
      assert s == s[..|s| - 1] + [s[|s| - 1]];
    }
  }

  lemma {:induction false} MinAboveIsLeastAbove(s: seq<nat>, threshold: real)
    ensures MinAbove(s, threshold).None? <==> forall t :: t in s ==> t as real <= threshold
    ensures MinAbove(s, threshold).Some? ==>
      var m := MinAbove(s, threshold).value;
      m in s && m as real > threshold && forall t :: t in s && t as real > threshold ==> m <= t
  {
    if |s| > 0 {
      var n := |s| - 1;
      var p := s[..n];
      MinAboveIsLeastAbove(p, threshold);
      assert forall t :: t in s <==> t in p || t == s[n] by {
        assert s == p + [s[n]];
      }
      if s[n] as real > threshold {
        assert MinAbove(s, threshold).Some?;
        assert !(forall t :: t in s ==> t as real <= threshold) by {
          assert s[n] in s;
        }
      }
    }
  }

  /** What each chooser picks as the target depth `min_reads`. */
  lemma ChooseMinReadsMeaning(totals: seq<nat>, chooser: string, n: Option<int>, q20: real)
    requires |totals| > 0
    ensures var r := ChooseMinReads(totals, chooser, n, q20);
      && (r.Err? <==> !KnownChooser(chooser))
      && (chooser == "fixed" ==> r.value == if n.Some? then n.value else 1000)
      && (chooser == "min" ==> r.value in totals && forall t :: t in totals ==> r.value <= t)
      && (chooser == "max" ==> r.value in totals && forall t :: t in totals ==> t <= r.value)
      && (chooser == "auto" && (forall t :: t in totals ==> t as real <= 0.5 * q20) ==> r.value == 0)
      && (chooser == "auto" && (exists t :: t in totals && t as real > 0.5 * q20) ==>
            && r.value in totals && r.value as real > 0.5 * q20
            && forall t :: t in totals && t as real > 0.5 * q20 ==> r.value <= t)
  {
    MinOfIsLeast(totals);
    MaxOfIsGreatest(totals);
    MinAboveIsLeastAbove(totals, 0.5 * q20);
  }

  /** The resampled rows of one sample, given the generator's state `k`. */
  function Resampled(rows: seq<Row>, sid: string, size: nat, draw: Draw, k: nat): seq<Row>
  {
    var sample := OfSample(rows, sid);
    var counts := ReadCounts(sample);
    if Sum(counts) > size then WithCounts(sample, draw(k, counts, size)) else sample
  }

  /** Every row a resampled sample holds belongs to that sample. */
  lemma ResampledOwn(rows: seq<Row>, id: string, size: nat, draw: Draw, k: nat)
    ensures forall r :: r in Resampled(rows, id, size, draw, k) ==> r.sampleId == id
  {
    var sample := OfSample(rows, id);
    var part := Resampled(rows, id, size, draw, k);
    forall r | r in part ensures r.sampleId == id {
      var i :| 0 <= i < |part| && part[i] == r;
      assert part[i].sampleId == sample[i].sampleId;
      assert sample[i] in sample;
    }
  }

  lemma ResampledOfSample(rows: seq<Row>, id: string, size: nat, draw: Draw, k: nat, sid: string)
    ensures OfSample(Resampled(rows, id, size, draw, k), sid) == if id == sid then Resampled(rows, id, size, draw, k) else []
  {
    ResampledOwn(rows, id, size, draw, k);
    if id == sid {
      OfSampleOwn(Resampled(rows, id, size, draw, k), sid);
    } else {
      ReadsOfOtherSample(Resampled(rows, id, size, draw, k), sid);
    }
  }

  /** The generator's state when the loop over `ids` reaches sample `sid`. */
  function DrawsBefore(rows: seq<Row>, ids: seq<string>, sid: string, size: nat, k: nat): nat
    decreases |ids|
  {
    if |ids| == 0 || ids[0] == sid then k
    else DrawsBefore(rows, ids[1..], sid, size, DrawsAfter(rows, ids[0], size, k))
  }

  lemma {:induction false} HyperFromOfSample(rows: seq<Row>, ids: seq<string>, size: nat, draw: Draw, k: nat, sid: string)
    requires Distinct(ids)
    ensures sid !in ids ==> OfSample(HyperFrom(rows, ids, size, draw, k), sid) == []
    ensures sid in ids ==> OfSample(HyperFrom(rows, ids, size, draw, k), sid) == Resampled(rows, sid, size, draw, DrawsBefore(rows, ids, sid, size, k))
    decreases |ids|
  {
    if |ids| > 0 {
      HyperFromStep(rows, ids, size, draw, k);
      var part := Resampled(rows, ids[0], size, draw, k);
      var k1 := DrawsAfter(rows, ids[0], size, k);
      var rest := HyperFrom(rows, ids[1..], size, draw, k1);
      DistinctTail(ids, sid);
      HyperFromOfSample(rows, ids[1..], size, draw, k1, sid);
      OfSampleAppend(part, rest, sid);
      ResampledOfSample(rows, ids[0], size, draw, k, sid);
    }
  }

  lemma ReadCountsWithCounts(sample: seq<Row>, d: seq<nat>)
    requires |d| == |sample|
    ensures ReadCounts(WithCounts(sample, d)) == d
  {
  }

  /** One sample's resampling, whatever the generator's state. */
  lemma ResampledMeaning(rows: seq<Row>, sid: string, size: nat, draw: Draw, k: nat)
    requires DrawSound(draw)
    ensures var before := OfSample(rows, sid);
            var after := Resampled(rows, sid, size, draw, k);
            && (ReadsOf(rows, sid) <= size ==> after == before)
            && (ReadsOf(rows, sid) > size ==>
                  && |after| == |before|
                  && (forall i :: 0 <= i < |after| ==>
                        after[i] == before[i].(readCount := after[i].readCount) && after[i].readCount <= before[i].readCount)
                  && Sum(ReadCounts(after)) == size)
  {
    var before := OfSample(rows, sid);
    var counts := ReadCounts(before);
    ReadsOfSample(rows, sid);
    if ReadsOf(rows, sid) > size {
      var d := draw(k, counts, size);
      assert IsDraw(counts, size, d);
      ReadCountsWithCounts(before, d);
    }
  }

  /** Hypergeometric resampling leaves a sample at or below `size` untouched;
      a larger one keeps its rows in order, with no count increased, totalling `size`. */
  lemma HypergeometricPerSample(rows: seq<Row>, size: nat, draw: Draw, sid: string)
    requires DrawSound(draw) && sid in SampleIds(rows)
    ensures var out := HyperFrom(rows, UniqueIds(rows), size, draw, 0);
            var before := OfSample(rows, sid);
            var after := OfSample(out, sid);
            && (ReadsOf(rows, sid) <= size ==> after == before)
            && (ReadsOf(rows, sid) > size ==>
                  && |after| == |before|
                  && (forall i :: 0 <= i < |after| ==>
                        after[i] == before[i].(readCount := after[i].readCount) && after[i].readCount <= before[i].readCount)
                  && ReadsOf(out, sid) == size)
  {
    var ids := UniqueIds(rows);
    var out := HyperFrom(rows, ids, size, draw, 0);
    UniqueIdsDistinct(rows);
    HyperFromOfSample(rows, ids, size, draw, 0, sid);
    ResampledMeaning(rows, sid, size, draw, DrawsBefore(rows, ids, sid, size, 0));
    ReadsOfSample(out, sid);
  }

  // ---------- fractions and dispatch ----------

  /** `fractionOfReads`: each row's reads over its sample's retained total. */
  function WithFractions(s: seq<Row>): Downsampled
  {
    Downsampled(s, Some(seq(|s|, i requires 0 <= i < |s| => Divide(s[i].readCount, ReadsOf(s, s[i].sampleId)))))
  }

  /** The sum of the finite fractions of sample `sid`. */
  function FractionTotal(s: seq<Row>, f: seq<Fraction>, sid: string): real
    requires |f| == |s|
  {
    if |s| == 0 then 0.0
    else
      var n := |s| - 1;
      FractionTotal(s[..n], f[..n], sid) + (if s[n].sampleId == sid && f[n].Finite? then f[n].value else 0.0)
  }

  lemma DivideAdd(a: real, b: real, t: real)
    requires t > 0.0
    ensures a / t + b / t == (a + b) / t
  {
  }

  lemma {:induction false} FractionTotalPrefix(s: seq<Row>, f: seq<Fraction>, sid: string, k: nat, t: nat)
    requires |f| == |s| && k <= |s| && t > 0
    requires forall i :: 0 <= i < |s| && s[i].sampleId == sid ==> f[i] == Finite(s[i].readCount as real / t as real)
    ensures FractionTotal(s[..k], f[..k], sid) == ReadsOf(s[..k], sid) as real / t as real
  {
    if k > 0 {
      FractionTotalPrefix(s, f, sid, k - 1, t);
      assert s[..k][..k - 1] == s[..k - 1] && f[..k][..k - 1] == f[..k - 1];
      var a := ReadsOf(s[..k - 1], sid) as real;
      if s[k - 1].sampleId == sid {
        DivideAdd(a, s[k - 1].readCount as real, t as real);
      }
    }
  }

  /** After any resampling branch, a sample's fractions add up to one when it kept any reads. */
  lemma FractionsSumToOne(s: seq<Row>, sid: string)
    requires ReadsOf(s, sid) > 0
    ensures FractionTotal(s, WithFractions(s).fractions.value, sid) == 1.0
  {
    var t := ReadsOf(s, sid);
    var f := WithFractions(s).fractions.value;
    forall i | 0 <= i < |s| && s[i].sampleId == sid
      ensures f[i] == Finite(s[i].readCount as real / t as real)
    {
      assert f[i] == Divide(s[i].readCount, t);
    }
    assert |f| == |s|;
    FractionTotalPrefix(s, f, sid, |s|, t);
    assert s[..|s|] == s && f[..|s|] == f;
    var tr := t as real;
    assert FractionTotal(s, f, sid) == tr / tr;
    DivideSelf(tr);
  }

  lemma DivideSelf(x: real)
    requires x > 0.0
    ensures x / x == 1.0
  {
  }

  /** `downsample_df`. */
  function Downsample(rows: seq<Row>, config: DownsamplingConfig, q20: real, draw: Draw): Result<Downsampled>
  {
    match config
    case NoDownsampling => Ok(Downsampled(rows, None))
    case Top(n) => Ok(WithFractions(TopRows(rows, n.GetOr(DefaultTopN))))
    case CumTop(n) => Ok(WithFractions(CumTopRows(rows, n.GetOr(DefaultCumTopPercent))))
    case Hypergeometric(chooser, n) =>
      var s :- HyperRows(rows, chooser.GetOr("auto"), n, q20, draw);
      Ok(WithFractions(s))
    case UnsupportedType(_) => Err(UnsupportedDownsampling)
  }

  lemma DownsampleWellFormed(rows: seq<Row>, config: DownsamplingConfig, q20: real, draw: Draw)
    ensures var r := Downsample(rows, config, q20, draw); r.Ok? ==> WellFormed(r.value)
  {
  }

  /** `none` passes the table through without a fraction column and an unknown type is an error;
      every other branch adds one fraction per row, and each sample that kept reads has fractions adding up to one. */
  lemma DownsampleFractions(rows: seq<Row>, config: DownsamplingConfig, q20: real, draw: Draw)
    ensures var r := Downsample(rows, config, q20, draw);
            && (config.NoDownsampling? ==> r == Ok(Downsampled(rows, None)))
            && (config.UnsupportedType? ==> r == Err(UnsupportedDownsampling))
            && (r.Ok? && !config.NoDownsampling? ==>
                  && r.value.fractions.Some? && |r.value.fractions.value| == |r.value.rows|
                  && forall sid :: ReadsOf(r.value.rows, sid) > 0 ==> FractionTotal(r.value.rows, r.value.fractions.value, sid) == 1.0)
  {
    var r := Downsample(rows, config, q20, draw);
    if r.Ok? && !config.NoDownsampling? {
      var out := r.value.rows;
      assert r.value == WithFractions(out);
      forall sid | ReadsOf(out, sid) > 0
        ensures FractionTotal(out, WithFractions(out).fractions.value, sid) == 1.0
      {
        FractionsSumToOne(out, sid);
      }
    }
  }

  function Flatten(parts: seq<seq<Row>>): seq<Row>
  {
    if |parts| == 0 then [] else Flatten(parts[..|parts| - 1]) + parts[|parts| - 1]
  }

  /** `downsample_df`, step by step: reassign the table, then add the fractions. */
  method DownsampleDf(rows: seq<Row>, config: DownsamplingConfig, q20: real, draw: Draw)
    returns (r: Result<Downsampled>)
    ensures r == Downsample(rows, config, q20, draw)
  {
    if config.NoDownsampling? {
      return Ok(Downsampled(rows, None));
    }
    var df := rows;
    match config {
      case Top(n) =>
        df := SortByReadsDesc(df);
        df := Masked(df, TopMask(df, n.GetOr(DefaultTopN)));
      case CumTop(n) =>
        var percent := n.GetOr(DefaultCumTopPercent);
        df := SortByReadsDesc(df);
        var cumsum := seq(|df|, i requires 0 <= i < |df| => ReadsOf(df[..i + 1], df[i].sampleId));
        var total := seq(|df|, i requires 0 <= i < |df| => ReadsOf(df, df[i].sampleId));
        var keep := seq(|df|, i requires 0 <= i < |df| => 100 * cumsum[i] <= percent * total[i]);
        assert keep == CumTopMask(df, percent, df);
        df := Masked(df, keep);
      case Hypergeometric(chooserOpt, n) =>
        var chooser := chooserOpt.GetOr("auto");
        if !KnownChooser(chooser) {
          return Err(UnsupportedValueChooser(chooser));
        }
        if |df| == 0 {
          return Err(NothingToConcatenate);
        }
        var chosen := ChooseMinReads(Totals(df), chooser, n, q20);
        assert chosen.Ok?;
        var size := chosen.value;
        if size < 0 {
          return Err(NegativeSampleSize(size));
        }
        var sampled := DrawPerSample(df, size, draw);
        df := sampled;
      case UnsupportedType(_) =>
        return Err(UnsupportedDownsampling);
    }
    r := Ok(WithFractions(df));
  }

  /** The generator state after the sample `sid`: one draw more when it is resampled. */
  function DrawsAfter(rows: seq<Row>, sid: string, size: nat, k: nat): nat
  {
    if Sum(ReadCounts(OfSample(rows, sid))) > size then k + 1 else k
  }

  /** One step of the per-sample loop. */
  lemma HyperFromStep(df: seq<Row>, ids: seq<string>, size: nat, draw: Draw, k: nat)
    requires |ids| > 0
    ensures HyperFrom(df, ids, size, draw, k)
         == Resampled(df, ids[0], size, draw, k) + HyperFrom(df, ids[1..], size, draw, DrawsAfter(df, ids[0], size, k))
  {
  }

  lemma FlattenSnoc(parts: seq<seq<Row>>, x: seq<Row>)
    ensures Flatten(parts + [x]) == Flatten(parts) + x
  {
    assert (parts + [x])[..|parts|] == parts;
  }

  lemma FlattenStep(parts: seq<seq<Row>>, x: seq<Row>, rest: seq<Row>, whole: seq<Row>)
    requires whole == x + rest
    ensures Flatten(parts + [x]) + rest == Flatten(parts) + whole
  {
    FlattenSnoc(parts, x);
    assert Flatten(parts) + (x + rest) == (Flatten(parts) + x) + rest;
  }

  /** Appending the next resampled sample keeps the loop invariant of `DrawPerSample`. */
  lemma DrawLoopStep(df: seq<Row>, ids: seq<string>, j: nat, size: nat, draw: Draw, k: nat, parts: seq<seq<Row>>)
    requires j < |ids|
    ensures Flatten(parts + [Resampled(df, ids[j], size, draw, k)]) + HyperFrom(df, ids[j + 1..], size, draw, DrawsAfter(df, ids[j], size, k))
         == Flatten(parts) + HyperFrom(df, ids[j..], size, draw, k)
  {
    var tail := ids[j..];
    assert tail[0] == ids[j];
    assert tail[1..] == ids[j + 1..];
    HyperFromStep(df, tail, size, draw, k);
    FlattenStep(parts, Resampled(df, ids[j], size, draw, k), HyperFrom(df, ids[j + 1..], size, draw, DrawsAfter(df, ids[j], size, k)),
                HyperFrom(df, tail, size, draw, k));
  }

  /** The body of the per-sample loop: resample one sample if it has more than `size` reads. */
  method ResampleSample(df: seq<Row>, sid: string, size: nat, draw: Draw, k: nat) returns (sample: seq<Row>, k': nat)
    ensures sample == Resampled(df, sid, size, draw, k) && k' == DrawsAfter(df, sid, size, k)
  {
    sample := OfSample(df, sid);
    var counts := ReadCounts(sample);
    k' := k;
    if Sum(counts) > size {
      var sampledCounts := draw(k, counts, size);
      sample := WithCounts(sample, sampledCounts);
      k' := k + 1;
    }
  }

  /** The loop over `df['sampleId'].unique()` that resamples each sample above `size`. */
  method DrawPerSample(df: seq<Row>, size: nat, draw: Draw) returns (out: seq<Row>)
    ensures out == HyperFrom(df, UniqueIds(df), size, draw, 0)
  {
    var ids := UniqueIds(df);
    var downsampled: seq<seq<Row>> := [];
    var k: nat := 0;
    var j := 0;
    while j < |ids|
      invariant 0 <= j <= |ids|
      invariant Flatten(downsampled) + HyperFrom(df, ids[j..], size, draw, k) == HyperFrom(df, ids, size, draw, 0)
    {
      var sample, k' := ResampleSample(df, ids[j], size, draw, k);
      DrawLoopStep(df, ids, j, size, draw, k, downsampled);
      downsampled := downsampled + [sample];
      k := k';
      j := j + 1;
    }
    assert ids[j..] == [];
    out := Flatten(downsampled);
  }
}
