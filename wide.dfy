/**
  Step 3 and the driver of compute_metrics_wide (software/src/main.py): the
  `results` dictionary over all ordered pairs of sorted sample ids, filled group
  after group, and the loop over the groups that downsamples each distinct
  downsampling configuration once.
 */
module Wide {
  import opened Common
  import opened Rows
  import opened Ordering
  import opened Downsampling
  import opened Aggregation
  import opened Metric
  import opened Pairwise

  /** The metric columns of one output row, by column name. */
  type Columns = map<string, Value>

  /** The `results` dictionary: its keys in insertion order and, per key, the metric columns
      (the `sample1` and `sample2` columns of a row are its key). */
  datatype Results = Results(order: seq<Pair>, entries: map<Pair, Columns>)

  const NoResults := Results([], map[])

  // ---------- the ordered pairs (`product(sample_ids, repeat=2)`) ----------

  /** The pairs with first sample `a`, in the order of `ids`. */
  function PairsWith(a: string, ids: seq<string>): (r: seq<Pair>)
    ensures |r| == |ids| && forall k :: 0 <= k < |ids| ==> r[k] == (a, ids[k])
  {
    seq(|ids|, k requires 0 <= k < |ids| => (a, ids[k]))
  }

  function ProductOf(firsts: seq<string>, ids: seq<string>): seq<Pair>
  {
    if |firsts| == 0 then [] else ProductOf(firsts[..|firsts| - 1], ids) + PairsWith(firsts[|firsts| - 1], ids)
  }

  /** All ordered pairs of `ids`, row by row. */
  function Product(ids: seq<string>): seq<Pair>
  {
    ProductOf(ids, ids)
  }

  /** `a * w` as repeated addition, so that the row arithmetic below stays linear for the solver. */
  function Mul(a: nat, w: nat): nat
  {
    if a == 0 then 0 else Mul(a - 1, w) + w
  }

  lemma {:induction false} MulIsProduct(a: nat, w: nat)
    ensures Mul(a, w) == a * w
  {
    if a > 0 {
      MulIsProduct(a - 1, w);
    }
  }

  /** Row `a`, column `b` of an `n`-row, `w`-column table lies inside it. */
  lemma {:induction false} MulBound(a: nat, b: nat, n: nat, w: nat)
    requires a < n && b < w
    ensures Mul(a, w) + b < Mul(n, w)
  {
    if a + 1 < n {
      MulBound(a, b, n - 1, w);
    }
  }

  lemma {:induction false} ProductOfLength(firsts: seq<string>, ids: seq<string>)
    ensures |ProductOf(firsts, ids)| == Mul(|firsts|, |ids|)
  {
    if |firsts| > 0 {
      ProductOfLength(firsts[..|firsts| - 1], ids);
    }
  }

  /** Pair number `a * N + b` of the product is (firsts[a], ids[b]). */
  lemma {:induction false} ProductOfAt(firsts: seq<string>, ids: seq<string>, a: nat, b: nat)
    requires a < |firsts| && b < |ids|
    ensures Mul(a, |ids|) + b < |ProductOf(firsts, ids)|
    ensures ProductOf(firsts, ids)[Mul(a, |ids|) + b] == (firsts[a], ids[b])
  {
    var n := |firsts| - 1;
    var w := |ids|;
    var before := ProductOf(firsts[..n], ids);
    ProductOfLength(firsts[..n], ids);
    ProductOfLength(firsts, ids);
    MulBound(a, b, |firsts|, w);
    if a < n {
      ProductOfAt(firsts[..n], ids, a, b);
      assert firsts[..n][a] == firsts[a];
    } else {
      assert Mul(a, w) + b == |before| + b;
    }
  }

  /** Every pair of the product is the pair at some pair of positions, and conversely. */
  lemma {:induction false} ProductOfMember(firsts: seq<string>, ids: seq<string>, p: Pair)
    ensures p in ProductOf(firsts, ids) <==> p.0 in firsts && p.1 in ids
  {
    if |firsts| > 0 {
      var n := |firsts| - 1;
      ProductOfMember(firsts[..n], ids, p);
      assert firsts == firsts[..n] + [firsts[n]];
      if p.0 == firsts[n] && p.1 in ids {
        var k :| 0 <= k < |ids| && ids[k] == p.1;
        assert PairsWith(firsts[n], ids)[k] == p;
      }
    }
  }

  /** The product of distinct ids repeats no pair. */
  lemma {:induction false} ProductOfDistinct(firsts: seq<string>, ids: seq<string>)
    requires Distinct(firsts) && Distinct(ids)
    ensures Distinct(ProductOf(firsts, ids))
  {
    if |firsts| > 0 {
      var n := |firsts| - 1;
      var before := ProductOf(firsts[..n], ids);
      var last := PairsWith(firsts[n], ids);
      ProductOfDistinct(firsts[..n], ids);
      var s := before + last;
      forall i, j | 0 <= i < j < |s| ensures s[i] != s[j] {
        if i < |before| && j >= |before| {
          ProductOfMember(firsts[..n], ids, s[i]);
          assert s[i].0 != firsts[n];
        }
      }
    }
  }

  /** The output rows are every ordered pair of sample ids exactly once: `N * N` distinct rows. */
  lemma ProductShape(ids: seq<string>)
    requires Distinct(ids)
    ensures |Product(ids)| == |ids| * |ids| && Distinct(Product(ids))
    ensures forall p :: p in Product(ids) <==> p.0 in ids && p.1 in ids
  {
    ProductOfLength(ids, ids);
    MulIsProduct(|ids|, |ids|);
    ProductPairs(ids);
  }

  /** Position `a * n + b`: row `a`, column `b` of a table `n` wide. */
  function RowIndex(a: nat, b: nat, n: nat): nat
  {
    a * n + b
  }

  /** Row-major order: row `a * N + b` of the product is (ids[a], ids[b]). */
  lemma ProductAt(ids: seq<string>, a: nat, b: nat)
    requires a < |ids| && b < |ids|
    ensures RowIndex(a, b, |ids|) < |Product(ids)| && Product(ids)[RowIndex(a, b, |ids|)] == (ids[a], ids[b])
  {
    ProductOfAt(ids, ids, a, b);
    MulIsProduct(a, |ids|);
  }

  /** The part of `ProductShape` about membership: the rows are distinct and are the pairs of ids. */
  lemma ProductPairs(ids: seq<string>)
    requires Distinct(ids)
    ensures Distinct(Product(ids))
    ensures forall p :: p in Product(ids) <==> p.0 in ids && p.1 in ids
  {
    ProductOfDistinct(ids, ids);
    forall p ensures p in Product(ids) <==> p.0 in ids && p.1 in ids {
      ProductOfMember(ids, ids, p);
    }
  }

  // ---------- step 3: populate results ----------

  /** `metric_values[metric].get((s1, s2), 0.0)`. */
  function Lookup(mv: Table, metric: string, p: Pair): Value
  {
    if metric in mv && p in mv[metric] then mv[metric][p] else Exact(0.0)
  }

  /** The columns of one group written into one row, in metric order. */
  function WriteColumns(row: Columns, p: Pair, mv: Table, metrics: seq<string>, intersection: string): Columns
  {
    if |metrics| == 0 then row
    else
      var n := |metrics| - 1;
      WriteColumns(row, p, mv, metrics[..n], intersection)[ColumnName(metrics[n], intersection) := Lookup(mv, metrics[n], p)]
  }

  /** One pair of step 3: the row is created on first sight, then the group's columns are written. */
  function PopulatePair(res: Results, p: Pair, mv: Table, metrics: seq<string>, intersection: string): Results
  {
    Results(if p in res.entries then res.order else res.order + [p], res.entries[p := WriteColumns(RowOf(res, p), p, mv, metrics, intersection)])
  }

  /** The row of `p` so far, the empty one when `p` has none yet. */
  function RowOf(res: Results, p: Pair): Columns
  {
    if p in res.entries then res.entries[p] else map[]
  }

  function Populate(res: Results, pairs: seq<Pair>, mv: Table, metrics: seq<string>, intersection: string): Results
  {
    if |pairs| == 0 then res
    else
      var n := |pairs| - 1;
      PopulatePair(Populate(res, pairs[..n], mv, metrics, intersection), pairs[n], mv, metrics, intersection)
  }

  /** Step 3 of one group, the loop over the output pairs and the group's metrics. */
  method PopulateResults(res: Results, pairs: seq<Pair>, mv: Table, metrics: seq<string>, intersection: string)
    returns (out: Results)
    ensures out == Populate(res, pairs, mv, metrics, intersection)
  {
    out := res;
    var k := 0;
    while k < |pairs|
      invariant 0 <= k <= |pairs|
      invariant out == Populate(res, pairs[..k], mv, metrics, intersection)
    {
      var key := pairs[k];
      var order := out.order;
      var row: Columns := map[];
      if key in out.entries {
        row := out.entries[key];
      } else {
        order := order + [key];
      }
      ghost var row0 := row;
      var t := 0;
      while t < |metrics|
        invariant 0 <= t <= |metrics|
        invariant row == WriteColumns(row0, key, mv, metrics[..t], intersection)
      {
        row := row[ColumnName(metrics[t], intersection) := Lookup(mv, metrics[t], key)];
        assert metrics[..t + 1][..t] == metrics[..t];
        t := t + 1;
      }
      assert metrics[..t] == metrics;
      out := Results(order, out.entries[key := row]);
      assert pairs[..k + 1][..k] == pairs[..k];
      k := k + 1;
    }
    assert pairs[..k] == pairs;
  }

  /** A metric's column name identifies the metric. */
  lemma ColumnNameInjective(m1: string, m2: string, intersection: string)
    requires ColumnName(m1, intersection) == ColumnName(m2, intersection)
    ensures m1 == m2
  {
    assert |m1| == |m2|;
    assert ColumnName(m1, intersection)[..|m1|] == m1;
    assert ColumnName(m2, intersection)[..|m2|] == m2;
  }

  function ColumnsOf(metrics: seq<string>, intersection: string): set<string>
  {
    set m | m in metrics :: ColumnName(m, intersection)
  }

  /** Writing a group's columns adds exactly its column names, sets each of them to the metric's
      value on the pair, and leaves every other column as it was. */
  lemma {:induction false} WriteColumnsMeaning(row: Columns, p: Pair, mv: Table, metrics: seq<string>, intersection: string)
    ensures var w := WriteColumns(row, p, mv, metrics, intersection);
            && w.Keys == row.Keys + ColumnsOf(metrics, intersection)
            && (forall m :: m in metrics ==> w[ColumnName(m, intersection)] == Lookup(mv, m, p))
            && (forall c :: c in row && c !in ColumnsOf(metrics, intersection) ==> w[c] == row[c])
  {
    if |metrics| > 0 {
      var n := |metrics| - 1;
      var front := metrics[..n];
      WriteColumnsMeaning(row, p, mv, front, intersection);
      assert metrics == front + [metrics[n]];
      assert ColumnsOf(metrics, intersection) == ColumnsOf(front, intersection) + {ColumnName(metrics[n], intersection)};
      var w := WriteColumns(row, p, mv, metrics, intersection);
      forall m | m in metrics ensures w[ColumnName(m, intersection)] == Lookup(mv, m, p) {
        if m != metrics[n] {
          if ColumnName(m, intersection) == ColumnName(metrics[n], intersection) {
            ColumnNameInjective(m, metrics[n], intersection);
          }
          assert m in front;
        }
      }
    }
  }

  /** The written columns depend on the pair only through the values looked up for it. */
  lemma {:induction false} WriteColumnsSameValues(row: Columns, p: Pair, q: Pair, mv: Table, metrics: seq<string>, intersection: string)
    requires forall m :: m in metrics ==> Lookup(mv, m, p) == Lookup(mv, m, q)
    ensures WriteColumns(row, p, mv, metrics, intersection) == WriteColumns(row, q, mv, metrics, intersection)
  {
    if |metrics| > 0 {
      var n := |metrics| - 1;
      assert metrics[n] in metrics;
      assert forall m :: m in metrics[..n] ==> m in metrics;
      WriteColumnsSameValues(row, p, q, mv, metrics[..n], intersection);
    }
  }

  /** Populating adds a row for each listed pair and keeps the others. */
  lemma {:induction false} PopulateKeys(res: Results, pairs: seq<Pair>, mv: Table, metrics: seq<string>, intersection: string)
    ensures Populate(res, pairs, mv, metrics, intersection).entries.Keys == res.entries.Keys + (set p | p in pairs)
  {
    if |pairs| > 0 {
      var n := |pairs| - 1;
      PopulateKeys(res, pairs[..n], mv, metrics, intersection);
      assert pairs == pairs[..n] + [pairs[n]];
    }
  }

  /** Populating visits each listed pair once: its row gets the group's columns, other rows stay. */
  lemma {:induction false} PopulateEntries(res: Results, pairs: seq<Pair>, mv: Table, metrics: seq<string>, intersection: string)
    requires Distinct(pairs)
    ensures var out := Populate(res, pairs, mv, metrics, intersection);
            && (forall p :: p in pairs ==> p in out.entries && out.entries[p] == WriteColumns(RowOf(res, p), p, mv, metrics, intersection))
            && (forall p :: p in res.entries && p !in pairs ==> p in out.entries && out.entries[p] == res.entries[p])
  {
    if |pairs| > 0 {
      var n := |pairs| - 1;
      var front := pairs[..n];
      var q := pairs[n];
      assert Distinct(front);
      PopulateEntries(res, front, mv, metrics, intersection);
      PopulateKeys(res, front, mv, metrics, intersection);
      assert pairs == front + [q];
      assert q !in front;
      var mid := Populate(res, front, mv, metrics, intersection);
      var out := Populate(res, pairs, mv, metrics, intersection);
      assert RowOf(mid, q) == RowOf(res, q);
      assert out.entries == mid.entries[q := WriteColumns(RowOf(res, q), q, mv, metrics, intersection)];
      forall p | p in pairs
        ensures p in out.entries && out.entries[p] == WriteColumns(RowOf(res, p), p, mv, metrics, intersection)
      {
        if p != q {
          assert p in front;
        }
      }
      forall p | p in res.entries && p !in pairs
        ensures p in out.entries && out.entries[p] == res.entries[p]
      {
        assert p !in front;
      }
    }
  }

  /** Populating fresh pairs appends them, in order, to the row order. */
  lemma {:induction false} PopulateOrderFresh(res: Results, pairs: seq<Pair>, mv: Table, metrics: seq<string>, intersection: string)
    requires Distinct(pairs) && forall p :: p in pairs ==> p !in res.entries
    ensures Populate(res, pairs, mv, metrics, intersection).order == res.order + pairs
  {
    if |pairs| > 0 {
      var n := |pairs| - 1;
      var front := pairs[..n];
      var q := pairs[n];
      assert Distinct(front);
      assert forall p :: p in front ==> p in pairs;
      PopulateOrderFresh(res, front, mv, metrics, intersection);
      PopulateKeys(res, front, mv, metrics, intersection);
      assert pairs == front + [q];
      assert q !in front;
      var mid := Populate(res, front, mv, metrics, intersection);
      assert q !in mid.entries;
      assert mid.order + [q] == res.order + pairs;
    }
  }

  /** Populating pairs that all have rows keeps the row order. */
  lemma {:induction false} PopulateOrderKnown(res: Results, pairs: seq<Pair>, mv: Table, metrics: seq<string>, intersection: string)
    requires forall p :: p in pairs ==> p in res.entries
    ensures Populate(res, pairs, mv, metrics, intersection).order == res.order
  {
    if |pairs| > 0 {
      var n := |pairs| - 1;
      var front := pairs[..n];
      assert forall p :: p in front ==> p in pairs;
      PopulateOrderKnown(res, front, mv, metrics, intersection);
      PopulateKeysGrow(res, front, mv, metrics, intersection);
      assert pairs[n] in pairs;
    }
  }

  lemma {:induction false} PopulateKeysGrow(res: Results, pairs: seq<Pair>, mv: Table, metrics: seq<string>, intersection: string)
    ensures res.entries.Keys <= Populate(res, pairs, mv, metrics, intersection).entries.Keys
  {
    if |pairs| > 0 {
      PopulateKeysGrow(res, pairs[..|pairs| - 1], mv, metrics, intersection);
    }
  }

  function Mirror(p: Pair): Pair
  {
    (p.1, p.0)
  }

  /** Every stored pair has its mirror, with the same value. */
  predicate MirroredTable(mv: Table)
  {
    forall m, p :: m in mv && p in mv[m] ==> Mirror(p) in mv[m] && mv[m][Mirror(p)] == mv[m][p]
  }

  /** Every row has its mirrored row, with the same columns and values. */
  predicate MirroredResults(res: Results)
  {
    forall p :: p in res.entries ==> Mirror(p) in res.entries && res.entries[Mirror(p)] == res.entries[p]
  }

  /** The value stored for a pair is the one stored for its mirror: the metric is computed on the pair in
      sorted order whichever order is asked for. */
  lemma PairMetricMirror(maps: map<string, CloneMap>, m: string, a: string, b: string)
    requires a in maps && b in maps && !KindOf(m).Unknown?
    ensures PairMetric(maps, m, a, b) == PairMetric(maps, m, b, a)
  {
    if a != b {
      StrLtTotal(a, b);
      if StrLt(a, b) {
        StrLtAsymmetric(a, b);
      } else {
        StrLtAsymmetric(b, a);
      }
    }
  }

  lemma ExpectedMirrored(ids: seq<string>, maps: map<string, CloneMap>, metrics: seq<string>)
    requires Covers(maps, ids)
    ensures MirroredTable(Expected(ids, maps, metrics))
  {
    var e := Expected(ids, maps, metrics);
    forall m, p | m in e && p in e[m] ensures Mirror(p) in e[m] && e[m][Mirror(p)] == e[m][p] {
      assert p.0 in ids && p.1 in ids;
      assert Mirror(p) in AllPairs(ids);
      PairMetricMirror(maps, m, p.0, p.1);
    }
  }

  /** What one group computes: downsampling, clone maps and the group table all succeed, and the table
      holds, for each metric of the group, `compute_metric` on each pair of sample ids in sorted order. */
  lemma GroupValuesMeaning(rows: seq<Row>, columns: set<string>, singleCell: bool, q20: real, draw: Draw, ids: seq<string>, g: Group)
    ensures var r := GroupValues(rows, columns, singleCell, q20, draw, ids, g);
            var ds := Downsample(rows, g.downsampling, q20, draw);
            r.Ok? ==>
              && ds.Ok? && WellFormed(ds.value)
              && CloneMaps(ds.value, columns, g.intersection, singleCell, ids).Ok?
              && Covers(CloneMaps(ds.value, columns, g.intersection, singleCell, ids).value, ids)
              && GroupTable(ids, CloneMaps(ds.value, columns, g.intersection, singleCell, ids).value, g.metrics) == r
              && r.value == Expected(ids, CloneMaps(ds.value, columns, g.intersection, singleCell, ids).value, g.metrics)
  {
    var ds := Downsample(rows, g.downsampling, q20, draw);
    DownsampleWellFormed(rows, g.downsampling, q20, draw);
    if ds.Ok? {
      CloneMapsMeaning(ds.value, columns, g.intersection, singleCell, ids);
    }
  }

  lemma GroupValuesMirrored(rows: seq<Row>, columns: set<string>, singleCell: bool, q20: real, draw: Draw, ids: seq<string>, g: Group)
    requires GroupValues(rows, columns, singleCell, q20, draw, ids, g).Ok?
    ensures MirroredTable(GroupValues(rows, columns, singleCell, q20, draw, ids, g).value)
  {
    GroupValuesMeaning(rows, columns, singleCell, q20, draw, ids, g);
    var ds := Downsample(rows, g.downsampling, q20, draw).value;
    ExpectedMirrored(ids, CloneMaps(ds, columns, g.intersection, singleCell, ids).value, g.metrics);
  }

  lemma LookupMirror(mv: Table, m: string, p: Pair)
    requires MirroredTable(mv)
    ensures Lookup(mv, m, p) == Lookup(mv, m, Mirror(p))
  {
    if m in mv && Mirror(p) in mv[m] {
      assert Mirror(Mirror(p)) == p;
    }
  }

  /** Populating every ordered pair with a mirrored table keeps the results mirrored. */
  lemma PopulateMirrored(res: Results, ids: seq<string>, mv: Table, metrics: seq<string>, intersection: string)
    requires Distinct(ids) && MirroredResults(res) && MirroredTable(mv)
    ensures MirroredResults(Populate(res, Product(ids), mv, metrics, intersection))
  {
    var pairs := Product(ids);
    ProductPairs(ids);
    PopulateKeys(res, pairs, mv, metrics, intersection);
    PopulateEntries(res, pairs, mv, metrics, intersection);
    var out := Populate(res, pairs, mv, metrics, intersection);
    forall p | p in out.entries ensures Mirror(p) in out.entries && out.entries[Mirror(p)] == out.entries[p] {
      if p in pairs {
        assert Mirror(p) in pairs;
        assert RowOf(res, p) == RowOf(res, Mirror(p)) by {
          if Mirror(p) in res.entries {
            assert Mirror(Mirror(p)) == p;
          }
        }
        forall m | m in metrics ensures Lookup(mv, m, p) == Lookup(mv, m, Mirror(p)) {
          LookupMirror(mv, m, p);
        }
        WriteColumnsSameValues(RowOf(res, p), p, Mirror(p), mv, metrics, intersection);
      } else {
        assert Mirror(p) !in pairs;
      }
    }
  }

  /** The rows are all ordered pairs in row-major order and every row has the same columns `cols`. */
  predicate Shaped(res: Results, ids: seq<string>, cols: set<string>)
  {
    && res.order == Product(ids)
    && res.entries.Keys == (set p | p in Product(ids))
    && forall p :: p in res.entries ==> res.entries[p].Keys == cols
  }

  /** Populating every ordered pair leaves the rows all ordered pairs, in row-major order. */
  lemma PopulateRows(res: Results, ids: seq<string>, mv: Table, metrics: seq<string>, intersection: string, cols: set<string>)
    requires Distinct(ids) && (Shaped(res, ids, cols) || res == NoResults)
    ensures var out := Populate(res, Product(ids), mv, metrics, intersection);
            && out.order == Product(ids)
            && out.entries.Keys == (set p | p in Product(ids))
  {
    var pairs := Product(ids);
    ProductPairs(ids);
    PopulateKeys(res, pairs, mv, metrics, intersection);
    if res == NoResults {
      PopulateOrderFresh(res, pairs, mv, metrics, intersection);
    } else {
      PopulateOrderKnown(res, pairs, mv, metrics, intersection);
    }
  }

  /** Each populated row gains the group's columns, with the table's values, and keeps its other columns. */
  lemma PopulateRowValues(res: Results, pairs: seq<Pair>, mv: Table, metrics: seq<string>, intersection: string)
    requires Distinct(pairs)
    ensures var out := Populate(res, pairs, mv, metrics, intersection);
            forall p :: p in pairs ==>
              && p in out.entries
              && out.entries[p].Keys == RowOf(res, p).Keys + ColumnsOf(metrics, intersection)
              && (forall m :: m in metrics ==> out.entries[p][ColumnName(m, intersection)] == Lookup(mv, m, p))
              && (forall c :: c in RowOf(res, p) && c !in ColumnsOf(metrics, intersection) ==> out.entries[p][c] == RowOf(res, p)[c])
  {
    PopulateEntries(res, pairs, mv, metrics, intersection);
    var out := Populate(res, pairs, mv, metrics, intersection);
    forall p | p in pairs
      ensures && p in out.entries
              && out.entries[p].Keys == RowOf(res, p).Keys + ColumnsOf(metrics, intersection)
              && (forall m :: m in metrics ==> out.entries[p][ColumnName(m, intersection)] == Lookup(mv, m, p))
              && (forall c :: c in RowOf(res, p) && c !in ColumnsOf(metrics, intersection) ==> out.entries[p][c] == RowOf(res, p)[c])
    {
      WriteColumnsMeaning(RowOf(res, p), p, mv, metrics, intersection);
    }
  }

  /** Populating shaped results keeps the rows and adds the group's columns to every row; its own
      columns get the table's values and all other columns keep theirs (so a later group writing the same
      column wins). */
  lemma PopulateShaped(res: Results, ids: seq<string>, mv: Table, metrics: seq<string>, intersection: string, cols: set<string>)
    requires Distinct(ids) && (Shaped(res, ids, cols) || (res == NoResults && cols == {}))
    ensures var out := Populate(res, Product(ids), mv, metrics, intersection);
            && Shaped(out, ids, cols + ColumnsOf(metrics, intersection))
            && (forall p, m :: p in out.entries && m in metrics ==>
                  out.entries[p][ColumnName(m, intersection)] == Lookup(mv, m, p))
            && (forall p, c :: p in res.entries && c in res.entries[p] && c !in ColumnsOf(metrics, intersection) ==>
                  out.entries[p][c] == res.entries[p][c])
  {
    var pairs := Product(ids);
    ProductPairs(ids);
    PopulateRows(res, ids, mv, metrics, intersection, cols);
    PopulateRowValues(res, pairs, mv, metrics, intersection);
    var out := Populate(res, pairs, mv, metrics, intersection);
    assert forall p :: p in out.entries ==> p in pairs;
    assert forall p :: p in res.entries ==> p in pairs;
    assert forall p :: p in pairs ==> RowOf(res, p).Keys == cols;
  }

  /** The column names of a list of groups. */
  function GroupColumns(groups: seq<Group>): set<string>
  {
    set g, m | g in groups && m in g.metrics :: ColumnName(m, g.intersection)
  }

  // ---------- the groups ----------

  /** `sorted(df['sampleId'].unique())`. */
  function SortedIds(rows: seq<Row>): seq<string>
  {
    SortStrings(UniqueIds(rows))
  }

  /** The sorted ids are strictly increasing and are exactly the sample ids of the table. */
  lemma SortedIdsCorrect(rows: seq<Row>)
    ensures StrictlySorted(SortedIds(rows)) && Distinct(SortedIds(rows))
    ensures forall sid :: sid in SortedIds(rows) <==> sid in SampleIds(rows)
  {
    UniqueIdsDistinct(rows);
    SortStringsCorrect(UniqueIds(rows));
    var s := SortedIds(rows);
    forall sid ensures sid in s <==> sid in SampleIds(rows) {
      assert sid in s <==> sid in multiset(s);
      assert sid in UniqueIds(rows) <==> sid in multiset(UniqueIds(rows));
    }
    forall i, j | 0 <= i < j < |s| ensures s[i] != s[j] {
      SortedPositionsAgree(s, i, j);
    }
  }

  /** One group: downsample, build the clone maps, compute `metric_values`. */
  function GroupValues(rows: seq<Row>, columns: set<string>, singleCell: bool, q20: real, draw: Draw, ids: seq<string>, g: Group)
    : Result<Table>
  {
    var ds :- Downsample(rows, g.downsampling, q20, draw);
    DownsampleWellFormed(rows, g.downsampling, q20, draw);
    var maps :- CloneMaps(ds, columns, g.intersection, singleCell, ids);
    CloneMapsCover(ds, columns, g.intersection, singleCell, ids);
    GroupTable(ids, maps, g.metrics)
  }

  /** One iteration of the group loop: the group's `metric_values` written into the results. */
  function AddGroup(rows: seq<Row>, columns: set<string>, singleCell: bool, q20: real, draw: Draw, ids: seq<string>,
                    res: Results, g: Group): Result<Results>
  {
    var mv :- GroupValues(rows, columns, singleCell, q20, draw, ids, g);
    Ok(Populate(res, Product(ids), mv, g.metrics, g.intersection))
  }

  /** The group loop from `res` on: the groups in order, the first failing one ending the computation. */
  function RunGroups(rows: seq<Row>, columns: set<string>, singleCell: bool, q20: real, draw: Draw, ids: seq<string>,
                     res: Results, groups: seq<Group>): Result<Results>
    decreases |groups|
  {
    if |groups| == 0 then Ok(res)
    else
      var next :- AddGroup(rows, columns, singleCell, q20, draw, ids, res, groups[0]);
      RunGroups(rows, columns, singleCell, q20, draw, ids, next, groups[1..])
  }

  /** `compute_metrics_wide` on a row table and a list of metric configurations. */
  function MetricsWide(rows: seq<Row>, configs: seq<MetricConfig>, columns: set<string>, singleCell: bool, q20: real, draw: Draw)
    : Result<Results>
  {
    RunGroups(rows, columns, singleCell, q20, draw, SortedIds(rows), NoResults, Groups(configs))
  }

  /** The tables of the groups, in order, or the error of the first failing group. */
  function Tables(rows: seq<Row>, columns: set<string>, singleCell: bool, q20: real, draw: Draw, ids: seq<string>,
                  groups: seq<Group>): (r: Result<seq<Table>>)
    ensures r.Ok? ==> |r.value| == |groups|
    decreases |groups|
  {
    if |groups| == 0 then Ok([])
    else
      var t :- GroupValues(rows, columns, singleCell, q20, draw, ids, groups[0]);
      var rest :- Tables(rows, columns, singleCell, q20, draw, ids, groups[1..]);
      Ok([t] + rest)
  }

  /** Step 3 of every group in turn, each with its table. */
  function Fold(res: Results, ids: seq<string>, groups: seq<Group>, tables: seq<Table>): Results
    requires |tables| == |groups|
    decreases |groups|
  {
    if |groups| == 0 then res
    else Fold(Populate(res, Product(ids), tables[0], groups[0].metrics, groups[0].intersection), ids, groups[1..], tables[1..])
  }

  /** A group's table depends only on the group, not on the results so far, so the group loop succeeds
      exactly when every group's table does, and then is step 3 of each group in turn on those tables. */
  lemma {:induction false} RunGroupsFold(rows: seq<Row>, columns: set<string>, singleCell: bool, q20: real, draw: Draw,
                                         ids: seq<string>, res: Results, groups: seq<Group>)
    ensures var r := RunGroups(rows, columns, singleCell, q20, draw, ids, res, groups);
            var t := Tables(rows, columns, singleCell, q20, draw, ids, groups);
            && (r.Ok? <==> t.Ok?)
            && (r.Ok? ==> r.value == Fold(res, ids, groups, t.value))
    decreases |groups|
  {
    if |groups| > 0 {
      var g := GroupValues(rows, columns, singleCell, q20, draw, ids, groups[0]);
      if g.Ok? {
        var next := Populate(res, Product(ids), g.value, groups[0].metrics, groups[0].intersection);
        RunGroupsFold(rows, columns, singleCell, q20, draw, ids, next, groups[1..]);
      }
    }
  }

  /** Entry `k` of the tables is the table of group `k`. */
  lemma {:induction false} TablesAt(rows: seq<Row>, columns: set<string>, singleCell: bool, q20: real, draw: Draw,
                                    ids: seq<string>, groups: seq<Group>, k: nat)
    requires Tables(rows, columns, singleCell, q20, draw, ids, groups).Ok? && k < |groups|
    ensures GroupValues(rows, columns, singleCell, q20, draw, ids, groups[k])
         == Ok(Tables(rows, columns, singleCell, q20, draw, ids, groups).value[k])
    decreases |groups|
  {
    TablesCons(rows, columns, singleCell, q20, draw, ids, groups);
    if k > 0 {
      TablesAt(rows, columns, singleCell, q20, draw, ids, groups[1..], k - 1);
      assert groups[1..][k - 1] == groups[k];
    }
  }

  /** Successful tables start with the first group's table, followed by the tables of the rest. */
  lemma TablesCons(rows: seq<Row>, columns: set<string>, singleCell: bool, q20: real, draw: Draw,
                   ids: seq<string>, groups: seq<Group>)
    requires Tables(rows, columns, singleCell, q20, draw, ids, groups).Ok? && |groups| > 0
    ensures var ts := Tables(rows, columns, singleCell, q20, draw, ids, groups).value;
            var rest := Tables(rows, columns, singleCell, q20, draw, ids, groups[1..]);
            && GroupValues(rows, columns, singleCell, q20, draw, ids, groups[0]) == Ok(ts[0])
            && rest.Ok? && ts == [ts[0]] + rest.value
  {
  }

  /** The group loop on shaped results: the rows stay all ordered pairs, every row gains the columns of
      every group. */
  lemma {:induction false} FoldShaped(res: Results, ids: seq<string>, groups: seq<Group>, tables: seq<Table>, cols: set<string>)
    requires |tables| == |groups|
    requires Distinct(ids) && (Shaped(res, ids, cols) || (res == NoResults && cols == {} && |groups| > 0))
    ensures Shaped(Fold(res, ids, groups, tables), ids, cols + GroupColumns(groups))
    decreases |groups|
  {
    if |groups| > 0 {
      var g := groups[0];
      assert GroupColumns(groups) == ColumnsOf(g.metrics, g.intersection) + GroupColumns(groups[1..]) by {
        assert groups == [g] + groups[1..];
      }
      PopulateShaped(res, ids, tables[0], g.metrics, g.intersection, cols);
      var next := Populate(res, Product(ids), tables[0], g.metrics, g.intersection);
      FoldShaped(next, ids, groups[1..], tables[1..], cols + ColumnsOf(g.metrics, g.intersection));
    }
  }

  /** A column no later group writes keeps its value to the end. */
  lemma {:induction false} FoldKeep(res: Results, ids: seq<string>, groups: seq<Group>, tables: seq<Table>, cols: set<string>,
                                    p: Pair, col: string)
    requires |tables| == |groups|
    requires Distinct(ids) && Shaped(res, ids, cols)
    requires p in res.entries && col in res.entries[p]
    requires forall j :: 0 <= j < |groups| ==> col !in ColumnsOf(groups[j].metrics, groups[j].intersection)
    ensures var out := Fold(res, ids, groups, tables);
            p in out.entries && col in out.entries[p] && out.entries[p][col] == res.entries[p][col]
    decreases |groups|
  {
    if |groups| > 0 {
      var g := groups[0];
      PopulateShaped(res, ids, tables[0], g.metrics, g.intersection, cols);
      assert col !in ColumnsOf(groups[0].metrics, groups[0].intersection);
      var next := Populate(res, Product(ids), tables[0], g.metrics, g.intersection);
      forall j | 0 <= j < |groups[1..]| ensures col !in ColumnsOf(groups[1..][j].metrics, groups[1..][j].intersection) {
        assert groups[1..][j] == groups[j + 1];
      }
      FoldKeep(next, ids, groups[1..], tables[1..], cols + ColumnsOf(g.metrics, g.intersection), p, col);
    }
  }

  /** A column holds, in every row, the value its last writing group's table has for that row's pair. */
  lemma {:induction false} FoldColumn(res: Results, ids: seq<string>, groups: seq<Group>, tables: seq<Table>, cols: set<string>,
                                      k: nat, m: string, p: Pair)
    requires |tables| == |groups|
    requires Distinct(ids) && (Shaped(res, ids, cols) || (res == NoResults && cols == {}))
    requires k < |groups| && m in groups[k].metrics && p.0 in ids && p.1 in ids
    requires forall j :: k < j < |groups| ==> ColumnName(m, groups[k].intersection) !in ColumnsOf(groups[j].metrics, groups[j].intersection)
    ensures var out := Fold(res, ids, groups, tables);
            var col := ColumnName(m, groups[k].intersection);
            p in out.entries && col in out.entries[p] && out.entries[p][col] == Lookup(tables[k], m, p)
    decreases |groups|
  {
    var g := groups[0];
    PopulateShaped(res, ids, tables[0], g.metrics, g.intersection, cols);
    var next := Populate(res, Product(ids), tables[0], g.metrics, g.intersection);
    var cols' := cols + ColumnsOf(g.metrics, g.intersection);
    if k == 0 {
      var col := ColumnName(m, g.intersection);
      ProductPairs(ids);
      assert p in next.entries;
      assert col in ColumnsOf(g.metrics, g.intersection);
      forall j | 0 <= j < |groups[1..]| ensures col !in ColumnsOf(groups[1..][j].metrics, groups[1..][j].intersection) {
        assert groups[1..][j] == groups[j + 1];
      }
      FoldKeep(next, ids, groups[1..], tables[1..], cols', p, col);
    } else {
      assert groups[1..][k - 1] == groups[k];
      forall j | k - 1 < j < |groups[1..]|
        ensures ColumnName(m, groups[1..][k - 1].intersection) !in ColumnsOf(groups[1..][j].metrics, groups[1..][j].intersection)
      {
        assert groups[1..][j] == groups[j + 1];
      }
      FoldColumn(next, ids, groups[1..], tables[1..], cols', k - 1, m, p);
    }
  }

  /** The value for (s2, s1) is the value for (s1, s2) when every table is mirrored. */
  lemma {:induction false} FoldMirrored(res: Results, ids: seq<string>, groups: seq<Group>, tables: seq<Table>)
    requires |tables| == |groups|
    requires Distinct(ids) && MirroredResults(res) && forall j :: 0 <= j < |tables| ==> MirroredTable(tables[j])
    ensures MirroredResults(Fold(res, ids, groups, tables))
    decreases |groups|
  {
    if |groups| > 0 {
      PopulateMirrored(res, ids, tables[0], groups[0].metrics, groups[0].intersection);
      var next := Populate(res, Product(ids), tables[0], groups[0].metrics, groups[0].intersection);
      forall j | 0 <= j < |tables[1..]| ensures MirroredTable(tables[1..][j]) {
        assert tables[1..][j] == tables[j + 1];
      }
      FoldMirrored(next, ids, groups[1..], tables[1..]);
    }
  }

  function DownsamplingKeys(configs: seq<MetricConfig>): set<DownsamplingConfig>
  {
    set c | c in configs :: c.downsampling
  }

  /** The groups carry exactly the downsampling configurations of the configuration list. */
  lemma GroupsDownsamplings(configs: seq<MetricConfig>)
    ensures (set g | g in Groups(configs) :: g.downsampling) == DownsamplingKeys(configs)
  {
    var gs := Groups(configs);
    GroupsCover(configs);
    GroupsFromConfigs(configs);
    forall d | d in DownsamplingKeys(configs) ensures d in (set g | g in gs :: g.downsampling) {
      var c :| c in configs && c.downsampling == d;
      var i :| 0 <= i < |gs| && SameKey(gs[i], c);
    }
    forall d | d in (set g | g in gs :: g.downsampling) ensures d in DownsamplingKeys(configs) {
      var g :| g in gs && g.downsampling == d;
      var c :| c in configs && SameKey(g, c);
    }
  }

  lemma RunGroupsStep(rows: seq<Row>, columns: set<string>, singleCell: bool, q20: real, draw: Draw, ids: seq<string>,
                      res: Results, groups: seq<Group>, k: nat)
    requires k < |groups|
    ensures var step := AddGroup(rows, columns, singleCell, q20, draw, ids, res, groups[k]);
      RunGroups(rows, columns, singleCell, q20, draw, ids, res, groups[k..])
      == if step.Err? then Err(step.error) else RunGroups(rows, columns, singleCell, q20, draw, ids, step.value, groups[k + 1..])
  {
    assert groups[k..][0] == groups[k];
    assert groups[k..][1..] == groups[k + 1..];
  }

  lemma DownsamplingsStep(groups: seq<Group>, k: nat, keys: set<DownsamplingConfig>)
    requires k < |groups| && keys == set g | g in groups[..k] :: g.downsampling
    ensures (set g | g in groups[..k + 1] :: g.downsampling) == keys + {groups[k].downsampling}
    ensures |keys + {groups[k].downsampling}| == |keys| + if groups[k].downsampling in keys then 0 else 1
  {
    assert groups[..k + 1] == groups[..k] + [groups[k]];
    if groups[k].downsampling in keys {
      assert keys + {groups[k].downsampling} == keys;
    }
  }

  /** The downsampled tables computed so far, by downsampling configuration. */
  ghost predicate CacheValid(rows: seq<Row>, q20: real, draw: Draw, cache: map<DownsamplingConfig, Downsampled>)
  {
    forall d :: d in cache ==> Downsample(rows, d, q20, draw) == Ok(cache[d])
  }

  /** The body of the group loop: the downsampled table comes from the cache when this downsampling
      configuration was seen before, and is computed (`calls == 1`) and cached otherwise. */
  method RunGroup(rows: seq<Row>, columns: set<string>, singleCell: bool, q20: real, draw: Draw, ids: seq<string>,
                  pairs: seq<Pair>, res: Results, g: Group, cache: map<DownsamplingConfig, Downsampled>)
    returns (r: Result<Results>, cache': map<DownsamplingConfig, Downsampled>, ghost calls: nat)
    requires StrictlySorted(ids) && pairs == Product(ids) && CacheValid(rows, q20, draw, cache)
    ensures r == AddGroup(rows, columns, singleCell, q20, draw, ids, res, g)
    ensures CacheValid(rows, q20, draw, cache')
    ensures r.Ok? ==> cache'.Keys == cache.Keys + {g.downsampling}
    ensures r.Ok? ==> calls == if g.downsampling in cache then 0 else 1
  {
    cache', calls := cache, 0;
    var ds: Downsampled;
    if g.downsampling in cache {
      ds := cache[g.downsampling];
    } else {
      var d := DownsampleDf(rows, g.downsampling, q20, draw);
      if d.Err? {
        return Err(d.error), cache', calls;
      }
      ds := d.value;
      cache' := cache[g.downsampling := ds];
      calls := 1;
    }
    DownsampleWellFormed(rows, g.downsampling, q20, draw);
    var maps := CloneMaps(ds, columns, g.intersection, singleCell, ids);
    if maps.Err? {
      return Err(maps.error), cache', calls;
    }
    CloneMapsMeaning(ds, columns, g.intersection, singleCell, ids);
    var mv := MetricValues(ids, maps.value, g.metrics);
    if mv.Err? {
      return Err(mv.error), cache', calls;
    }
    var out := PopulateResults(res, pairs, mv.value, g.metrics, g.intersection);
    return Ok(out), cache', calls;
  }

  /** The loop over the groups, with the downsampling cache; `downsamplings` counts the calls to
      `downsample_df`. */
  method RunAllGroups(rows: seq<Row>, columns: set<string>, singleCell: bool, q20: real, draw: Draw, ids: seq<string>,
                      pairs: seq<Pair>, groups: seq<Group>)
    returns (r: Result<Results>, ghost downsamplings: nat)
    requires StrictlySorted(ids) && pairs == Product(ids)
    ensures r == RunGroups(rows, columns, singleCell, q20, draw, ids, NoResults, groups)
    ensures r.Ok? ==> downsamplings == |set g | g in groups :: g.downsampling|
  {
    var cache: map<DownsamplingConfig, Downsampled> := map[];
    var res := NoResults;
    downsamplings := 0;
    var k := 0;
    while k < |groups|
      invariant 0 <= k <= |groups|
      invariant RunGroups(rows, columns, singleCell, q20, draw, ids, res, groups[k..])
             == RunGroups(rows, columns, singleCell, q20, draw, ids, NoResults, groups)
      invariant CacheValid(rows, q20, draw, cache)
      invariant cache.Keys == set g | g in groups[..k] :: g.downsampling
      invariant downsamplings == |cache.Keys|
    {
      var step;
      ghost var calls;
      RunGroupsStep(rows, columns, singleCell, q20, draw, ids, res, groups, k);
      DownsamplingsStep(groups, k, cache.Keys);
      step, cache, calls := RunGroup(rows, columns, singleCell, q20, draw, ids, pairs, res, groups[k], cache);
      if step.Err? {
        return Err(step.error), downsamplings;
      }
      res := step.value;
      downsamplings := downsamplings + calls;
      k := k + 1;
    }
    assert groups[..k] == groups;
    return Ok(res), downsamplings;
  }

  /** `compute_metrics_wide`: group the configurations, then per group downsample (once per distinct
      downsampling configuration, through the cache), build the clone maps, compute `metric_values`
      and populate the results. `downsamplings` counts the calls to `downsample_df`. */
  method ComputeMetricsWide(rows: seq<Row>, configs: seq<MetricConfig>, columns: set<string>, singleCell: bool, q20: real, draw: Draw)
    returns (r: Result<Results>, ghost downsamplings: nat)
    ensures r == MetricsWide(rows, configs, columns, singleCell, q20, draw)
    ensures r.Ok? ==> downsamplings == |DownsamplingKeys(configs)|
  {
    var ids := SortStrings(UniqueIds(rows));
    SortedIdsCorrect(rows);
    var groups := GroupConfigs(configs);
    r, downsamplings := RunAllGroups(rows, columns, singleCell, q20, draw, ids, Product(ids), groups);
    GroupsDownsamplings(configs);
  }

  // ---------- what compute_metrics_wide returns ----------

  /** The wide column of every configuration. */
  function ConfigColumns(configs: seq<MetricConfig>): set<string>
  {
    set c | c in configs :: ColumnName(c.metric, c.intersection)
  }

  /** The groups write exactly the configurations' columns. */
  lemma GroupColumnsConfigs(configs: seq<MetricConfig>)
    ensures GroupColumns(Groups(configs)) == ConfigColumns(configs)
  {
    var gs := Groups(configs);
    GroupsCover(configs);
    GroupsMetrics(configs);
    forall x | x in GroupColumns(gs) ensures x in ConfigColumns(configs) {
      var g, m :| g in gs && m in g.metrics && x == ColumnName(m, g.intersection);
      var i :| 0 <= i < |gs| && gs[i] == g;
      MetricsForMember(configs, g.intersection, g.downsampling, m);
      var c :| c in configs && c.metric == m && c.intersection == g.intersection && c.downsampling == g.downsampling;
    }
    forall x | x in ConfigColumns(configs) ensures x in GroupColumns(gs) {
      var c :| c in configs && x == ColumnName(c.metric, c.intersection);
      var i :| 0 <= i < |gs| && SameKey(gs[i], c);
      MetricsForMember(configs, gs[i].intersection, gs[i].downsampling, c.metric);
      assert gs[i] in gs && c.metric in gs[i].metrics;
    }
  }

  /** With no configurations the result is empty; otherwise its rows are all ordered pairs of the sorted
      sample ids, row-major, and every row holds exactly one column per configuration's metric and
      intersection type. */
  lemma WideShape(rows: seq<Row>, configs: seq<MetricConfig>, columns: set<string>, singleCell: bool, q20: real, draw: Draw)
    ensures var r := MetricsWide(rows, configs, columns, singleCell, q20, draw);
            r.Ok? ==>
              && (|configs| == 0 ==> r.value == NoResults)
              && (|configs| > 0 ==> Shaped(r.value, SortedIds(rows), ConfigColumns(configs)))
  {
    SortedIdsCorrect(rows);
    GroupsCover(configs);
    if |configs| > 0 {
      var ids, gs := SortedIds(rows), Groups(configs);
      RunGroupsFold(rows, columns, singleCell, q20, draw, ids, NoResults, gs);
      var t := Tables(rows, columns, singleCell, q20, draw, ids, gs);
      if t.Ok? {
        FoldShaped(NoResults, ids, gs, t.value, {});
      }
      GroupColumnsConfigs(configs);
      assert {} + GroupColumns(Groups(configs)) == ConfigColumns(configs);
    }
  }

  /** Shaped results have `N * N` rows, one per pair of ids. */
  lemma ShapedRows(res: Results, ids: seq<string>, cols: set<string>)
    requires Distinct(ids) && Shaped(res, ids, cols)
    ensures |res.order| == |ids| * |ids|
    ensures forall p :: p in res.entries <==> p.0 in ids && p.1 in ids
  {
    ProductShape(ids);
    forall p ensures p in res.entries <==> p.0 in ids && p.1 in ids {
      assert p in res.entries <==> p in Product(ids);
    }
  }

  /** `N * N` rows for `N` samples, one row per pair of sample ids. */
  lemma WideRows(rows: seq<Row>, configs: seq<MetricConfig>, columns: set<string>, singleCell: bool, q20: real, draw: Draw)
    requires |configs| > 0
    ensures var r := MetricsWide(rows, configs, columns, singleCell, q20, draw);
            var n := |SortedIds(rows)|;
            r.Ok? ==>
              && |r.value.order| == n * n
              && (forall p :: p in r.value.entries <==> p.0 in SampleIds(rows) && p.1 in SampleIds(rows))
  {
    var r := MetricsWide(rows, configs, columns, singleCell, q20, draw);
    if r.Ok? {
      WideShape(rows, configs, columns, singleCell, q20, draw);
      SortedIdsCorrect(rows);
      ShapedRows(r.value, SortedIds(rows), ConfigColumns(configs));
    }
  }

  /** Shaped results are in row-major order: row `a * N + b` is (ids[a], ids[b]). */
  lemma ShapedAt(res: Results, ids: seq<string>, cols: set<string>, a: nat, b: nat)
    requires Shaped(res, ids, cols) && a < |ids| && b < |ids|
    ensures RowIndex(a, b, |ids|) < |res.order| && res.order[RowIndex(a, b, |ids|)] == (ids[a], ids[b])
  {
    ProductAt(ids, a, b);
  }

  /** Rows in row-major order of the sorted sample ids: row `a * N + b` is (ids[a], ids[b]). */
  lemma WideRowAt(rows: seq<Row>, configs: seq<MetricConfig>, columns: set<string>, singleCell: bool, q20: real, draw: Draw,
                  a: nat, b: nat)
    requires |configs| > 0 && a < |SortedIds(rows)| && b < |SortedIds(rows)|
    ensures var r := MetricsWide(rows, configs, columns, singleCell, q20, draw);
            var ids := SortedIds(rows);
            r.Ok? ==> RowIndex(a, b, |ids|) < |r.value.order| && r.value.order[RowIndex(a, b, |ids|)] == (ids[a], ids[b])
  {
    var r := MetricsWide(rows, configs, columns, singleCell, q20, draw);
    if r.Ok? {
      WideShape(rows, configs, columns, singleCell, q20, draw);
      ShapedAt(r.value, SortedIds(rows), ConfigColumns(configs), a, b);
    }
  }

  /** The value for (s2, s1) is that for (s1, s2), in every column. */
  lemma WideMirrored(rows: seq<Row>, configs: seq<MetricConfig>, columns: set<string>, singleCell: bool, q20: real, draw: Draw)
    ensures var r := MetricsWide(rows, configs, columns, singleCell, q20, draw);
            r.Ok? ==> MirroredResults(r.value)
  {
    SortedIdsCorrect(rows);
    var ids, gs := SortedIds(rows), Groups(configs);
    RunGroupsFold(rows, columns, singleCell, q20, draw, ids, NoResults, gs);
    var t := Tables(rows, columns, singleCell, q20, draw, ids, gs);
    if t.Ok? {
      forall j | 0 <= j < |t.value| ensures MirroredTable(t.value[j]) {
        TablesAt(rows, columns, singleCell, q20, draw, ids, gs, j);
        GroupValuesMirrored(rows, columns, singleCell, q20, draw, ids, gs[j]);
      }
      FoldMirrored(NoResults, ids, gs, t.value);
    }
  }

  /** A group's `metric_values` entry for one of its metrics and a pair of sample ids is `compute_metric`
      on that pair in sorted order, over the clone maps of the group's downsampled table. */
  lemma GroupValuesLookup(rows: seq<Row>, columns: set<string>, singleCell: bool, q20: real, draw: Draw, ids: seq<string>,
                          g: Group, m: string, p: Pair)
    requires GroupValues(rows, columns, singleCell, q20, draw, ids, g).Ok?
    requires m in g.metrics && p.0 in ids && p.1 in ids
    ensures var ds := Downsample(rows, g.downsampling, q20, draw);
            && ds.Ok? && WellFormed(ds.value)
            && CloneMaps(ds.value, columns, g.intersection, singleCell, ids).Ok?
            && var maps := CloneMaps(ds.value, columns, g.intersection, singleCell, ids).value;
               && p.0 in maps && p.1 in maps && !KindOf(m).Unknown?
               && Lookup(GroupValues(rows, columns, singleCell, q20, draw, ids, g).value, m, p) == PairMetric(maps, m, p.0, p.1)
  {
    GroupValuesMeaning(rows, columns, singleCell, q20, draw, ids, g);
    var ds := Downsample(rows, g.downsampling, q20, draw).value;
    var maps := CloneMaps(ds, columns, g.intersection, singleCell, ids).value;
    assert p.0 in maps && p.1 in maps by {
      var a :| 0 <= a < |ids| && ids[a] == p.0;
      var b :| 0 <= b < |ids| && ids[b] == p.1;
    }
    assert |ids| > 0;
    assert p in AllPairs(ids);
  }

  /** The value in a row's column: for the last group (k) writing the column "metric intersection",
      `compute_metric` of that metric on the row's pair, in sorted order, over that group's clone maps.
      A later group with the same metric and intersection type but another downsampling overwrites the
      column. */
  lemma WideValue(rows: seq<Row>, configs: seq<MetricConfig>, columns: set<string>, singleCell: bool, q20: real, draw: Draw,
                  k: nat, m: string, p: Pair)
    requires k < |Groups(configs)| && m in Groups(configs)[k].metrics
    requires var gs := Groups(configs);
             forall j :: k < j < |gs| ==> ColumnName(m, gs[k].intersection) !in ColumnsOf(gs[j].metrics, gs[j].intersection)
    ensures var r := MetricsWide(rows, configs, columns, singleCell, q20, draw);
            var g := Groups(configs)[k];
            var ids := SortedIds(rows);
            var ds := Downsample(rows, g.downsampling, q20, draw);
            r.Ok? && p in r.value.entries ==>
              && ds.Ok? && WellFormed(ds.value)
              && CloneMaps(ds.value, columns, g.intersection, singleCell, ids).Ok?
              && var maps := CloneMaps(ds.value, columns, g.intersection, singleCell, ids).value;
                 && p.0 in maps && p.1 in maps && !KindOf(m).Unknown?
                 && ColumnName(m, g.intersection) in r.value.entries[p]
                 && r.value.entries[p][ColumnName(m, g.intersection)] == PairMetric(maps, m, p.0, p.1)
  {
    var r := MetricsWide(rows, configs, columns, singleCell, q20, draw);
    var ids := SortedIds(rows);
    var g := Groups(configs)[k];
    if r.Ok? && p in r.value.entries {
      SortedIdsCorrect(rows);
      WideShape(rows, configs, columns, singleCell, q20, draw);
      ProductPairs(ids);
      assert p.0 in ids && p.1 in ids;
      var gs := Groups(configs);
      RunGroupsFold(rows, columns, singleCell, q20, draw, ids, NoResults, gs);
      var t := Tables(rows, columns, singleCell, q20, draw, ids, gs).value;
      FoldColumn(NoResults, ids, gs, t, {}, k, m, p);
      TablesAt(rows, columns, singleCell, q20, draw, ids, gs, k);
      GroupValuesLookup(rows, columns, singleCell, q20, draw, ids, g, m, p);
    }
  }

  // ---------- the unique output ----------

  function UniqueMask(order: seq<Pair>): (m: seq<bool>)
    ensures |m| == |order| && forall i :: 0 <= i < |order| ==> m[i] == StrLe(order[i].0, order[i].1)
  {
    seq(|order|, i requires 0 <= i < |order| => StrLe(order[i].0, order[i].1))
  }

  /** `wide_result_df[wide_result_df['sample1'] <= wide_result_df['sample2']]`. */
  function UniquePairs(res: Results): Results
  {
    Results(Masked(res.order, UniqueMask(res.order)), map p | p in res.entries && StrLe(p.0, p.1) :: res.entries[p])
  }

  /** The unique output keeps, in their order, exactly the rows whose first sample id is not after the second. */
  lemma UniquePairsMeaning(res: Results)
    ensures var u := UniquePairs(res);
            && (forall p :: p in u.order <==> p in res.order && StrLe(p.0, p.1))
            && |u.order| == |TrueIndices(UniqueMask(res.order))|
            && (forall k :: 0 <= k < |u.order| ==> u.order[k] == res.order[TrueIndices(UniqueMask(res.order))[k]])
            && (forall a, b :: 0 <= a < b < |TrueIndices(UniqueMask(res.order))| ==>
                  TrueIndices(UniqueMask(res.order))[a] < TrueIndices(UniqueMask(res.order))[b])
            && (forall p :: p in u.entries <==> p in res.entries && StrLe(p.0, p.1))
  {
    var m := UniqueMask(res.order);
    forall p ensures p in Masked(res.order, m) <==> p in res.order && StrLe(p.0, p.1) {
      MaskedMember(res.order, m, p);
    }
    MaskedAtTrueIndices(res.order, m);
    TrueIndicesIncreasing(m);
  }

  /** Nothing is lost: with mirrored results, every row or its mirror, holding the same values, is in the
      unique output. */
  lemma UniqueKeepsOnePerPair(res: Results)
    requires MirroredResults(res)
    ensures var u := UniquePairs(res);
            forall p :: p in res.entries ==>
              || (p in u.entries && u.entries[p] == res.entries[p])
              || (Mirror(p) in u.entries && u.entries[Mirror(p)] == res.entries[p])
  {
    forall p | p in res.entries
      ensures StrLe(p.0, p.1) || StrLe(Mirror(p).0, Mirror(p).1)
    {
      StrLtTotal(p.0, p.1);
    }
  }

  /** In the unique output of `compute_metrics_wide`, the pair (ids[a], ids[b]) of sorted sample ids is kept
      exactly when a <= b, and its row is kept unchanged. */
  lemma WideUnique(rows: seq<Row>, configs: seq<MetricConfig>, columns: set<string>, singleCell: bool, q20: real, draw: Draw,
                   a: nat, b: nat)
    requires |configs| > 0 && a < |SortedIds(rows)| && b < |SortedIds(rows)|
    ensures var r := MetricsWide(rows, configs, columns, singleCell, q20, draw);
            var ids := SortedIds(rows);
            var p := (ids[a], ids[b]);
            r.Ok? ==>
              && (p in UniquePairs(r.value).entries <==> a <= b)
              && (a <= b ==> p in r.value.entries && UniquePairs(r.value).entries[p] == r.value.entries[p])
  {
    var r := MetricsWide(rows, configs, columns, singleCell, q20, draw);
    var ids := SortedIds(rows);
    if r.Ok? {
      WideRows(rows, configs, columns, singleCell, q20, draw);
      SortedIdsCorrect(rows);
      SortedPositionsAgree(ids, a, b);
      assert ids[a] in SampleIds(rows) && ids[b] in SampleIds(rows);
    }
  }
}
