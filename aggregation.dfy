/**
  Per-sample clone maps of a downsampled table under one intersection type
  (software/src/main.py, compute_metrics_wide, step 1): every row gets its
  clone key, and each sample maps its keys to their read fractions.
 */
module Aggregation {
  import opened Common
  import opened Rows
  import opened Downsampling
  import opened CloneKey
  import opened Metric

  /** The `cloneKey` column: the key of every row, or the first row's error. */
  function RowKeys(columns: set<string>, rows: seq<Row>, intersection: string, singleCell: bool): (r: Result<seq<string>>)
    ensures r.Ok? <==> forall i :: 0 <= i < |rows| ==> MakeCloneKey(columns, rows[i], intersection, singleCell).Ok?
    ensures r.Ok? ==>
              && |r.value| == |rows|
              && forall i :: 0 <= i < |rows| ==> r.value[i] == MakeCloneKey(columns, rows[i], intersection, singleCell).value
    ensures r.Err? ==>
              exists i ::
                && 0 <= i < |rows| && MakeCloneKey(columns, rows[i], intersection, singleCell) == Err(r.error)
                && forall j :: 0 <= j < i ==> MakeCloneKey(columns, rows[j], intersection, singleCell).Ok?
  {
    if |rows| == 0 then Ok([])
    else
      var k :- MakeCloneKey(columns, rows[0], intersection, singleCell);
      var rest :- RowKeys(columns, rows[1..], intersection, singleCell);
      Ok([k] + rest)
  }

  /** `g.set_index('cloneKey')['cloneFraction'].to_dict()` for the rows of sample `sid`:
      a key seen twice keeps the fraction of its last row. */
  function SampleCloneMap(rows: seq<Row>, keys: seq<string>, fractions: seq<Fraction>, sid: string): CloneMap
    requires |keys| == |rows| && |fractions| == |rows|
  {
    if |rows| == 0 then map[]
    else
      var n := |rows| - 1;
      var m := SampleCloneMap(rows[..n], keys[..n], fractions[..n], sid);
      if rows[n].sampleId == sid then m[keys[n] := fractions[n]] else m
  }

  const FractionColumnName := "fractionOfReads"

  /** The `fractionOfReads` column that step 1 selects: the one downsampling computed or, when `none`
      passed the table through, the input's own column if the table has one. */
  function FractionColumn(ds: Downsampled, columns: set<string>): (r: Result<seq<Fraction>>)
    requires WellFormed(ds)
    ensures r.Err? <==> ds.fractions.None? && FractionColumnName !in columns
    ensures r.Err? ==> r.error == MissingColumn(FractionColumnName)
    ensures r.Ok? ==> |r.value| == |ds.rows|
    ensures ds.fractions.Some? ==> r == Ok(ds.fractions.value)
    ensures r.Ok? && ds.fractions.None? ==> forall i :: 0 <= i < |ds.rows| ==> r.value[i] == ds.rows[i].fraction
  {
    if ds.fractions.Some? then Ok(ds.fractions.value)
    else if FractionColumnName in columns then Ok(seq(|ds.rows|, i requires 0 <= i < |ds.rows| => ds.rows[i].fraction))
    else Err(MissingColumn(FractionColumnName))
  }

  /** The clone map of every sample of the table and of every listed sample (empty when it has no rows). */
  function CloneMaps(ds: Downsampled, columns: set<string>, intersection: string, singleCell: bool, ids: seq<string>)
    : Result<map<string, CloneMap>>
    requires WellFormed(ds)
  {
    var keys :- RowKeys(columns, ds.rows, intersection, singleCell);
    var fr :- FractionColumn(ds, columns);
    Ok(map sid | sid in SampleIds(ds.rows) + (set i | i in ids) :: SampleCloneMap(ds.rows, keys, fr, sid))
  }

  /** A sample's clone set is the set of keys of its rows. */
  lemma {:induction false} SampleCloneMapKeys(rows: seq<Row>, keys: seq<string>, fractions: seq<Fraction>, sid: string)
    requires |keys| == |rows| && |fractions| == |rows|
    ensures SampleCloneMap(rows, keys, fractions, sid).Keys ==
              set i | 0 <= i < |rows| && rows[i].sampleId == sid :: keys[i]
  {
    if |rows| > 0 {
      var n := |rows| - 1;
      SampleCloneMapKeys(rows[..n], keys[..n], fractions[..n], sid);
      var before := set i | 0 <= i < n && rows[..n][i].sampleId == sid :: keys[..n][i];
      assert before == set i | 0 <= i < n && rows[i].sampleId == sid :: keys[i];
    }
  }

  /** The fraction under a key is the one of the last row of the sample carrying that key. */
  lemma {:induction false} SampleCloneMapLastWins(rows: seq<Row>, keys: seq<string>, fractions: seq<Fraction>, sid: string, i: nat)
    requires |keys| == |rows| && |fractions| == |rows|
    requires i < |rows| && rows[i].sampleId == sid
    requires forall j :: i < j < |rows| && rows[j].sampleId == sid ==> keys[j] != keys[i]
    ensures keys[i] in SampleCloneMap(rows, keys, fractions, sid)
    ensures SampleCloneMap(rows, keys, fractions, sid)[keys[i]] == fractions[i]
  {
    var n := |rows| - 1;
    if i < n {
      SampleCloneMapLastWins(rows[..n], keys[..n], fractions[..n], sid, i);
    }
  }

  /** A sample without rows has the empty clone map. */
  lemma {:induction false} SampleCloneMapAbsent(rows: seq<Row>, keys: seq<string>, fractions: seq<Fraction>, sid: string)
    requires |keys| == |rows| && |fractions| == |rows|
    requires sid !in SampleIds(rows)
    ensures SampleCloneMap(rows, keys, fractions, sid) == map[]
  {
    if |rows| > 0 {
      var n := |rows| - 1;
      assert rows[n] in rows;
      assert SampleIds(rows[..n]) <= SampleIds(rows) by {
        forall r | r in rows[..n] ensures r in rows { }
      }
      SampleCloneMapAbsent(rows[..n], keys[..n], fractions[..n], sid);
    }
  }

  /** Every listed sample gets a clone map. */
  lemma CloneMapsCover(ds: Downsampled, columns: set<string>, intersection: string, singleCell: bool, ids: seq<string>)
    requires WellFormed(ds)
    ensures var r := CloneMaps(ds, columns, intersection, singleCell, ids);
            r.Ok? ==> forall i :: 0 <= i < |ids| ==> ids[i] in r.value
  {
  }

  /** Building the clone maps fails on the first row whose key fails; otherwise it fails only for a table
      that has no `fractionOfReads` column, neither computed nor from the input. On success every listed
      sample has a clone map, the empty one when it has no rows, and every other sample's map holds
      exactly the keys of its rows. */
  lemma CloneMapsMeaning(ds: Downsampled, columns: set<string>, intersection: string, singleCell: bool, ids: seq<string>)
    requires WellFormed(ds)
    ensures var r := CloneMaps(ds, columns, intersection, singleCell, ids);
            var keys := RowKeys(columns, ds.rows, intersection, singleCell);
            && (keys.Err? ==> r == Err(keys.error))
            && (keys.Ok? && ds.fractions.None? && FractionColumnName !in columns ==> r == Err(MissingColumn(FractionColumnName)))
            && (keys.Ok? && (ds.fractions.Some? || FractionColumnName in columns) ==>
                  && r.Ok?
                  && (forall sid :: sid in ids ==> sid in r.value)
                  && (forall sid :: sid in ids && sid !in SampleIds(ds.rows) ==> r.value[sid] == map[])
                  && (forall sid :: sid in r.value ==>
                        r.value[sid].Keys == set i | 0 <= i < |ds.rows| && ds.rows[i].sampleId == sid :: keys.value[i]))
  {
    var keys := RowKeys(columns, ds.rows, intersection, singleCell);
    var fc := FractionColumn(ds, columns);
    if keys.Ok? && fc.Ok? {
      var fr := fc.value;
      forall sid | sid in ids && sid !in SampleIds(ds.rows)
        ensures SampleCloneMap(ds.rows, keys.value, fr, sid) == map[]
      {
        SampleCloneMapAbsent(ds.rows, keys.value, fr, sid);
      }
      forall sid | sid in SampleIds(ds.rows) + (set i | i in ids)
        ensures SampleCloneMap(ds.rows, keys.value, fr, sid).Keys ==
                  set i | 0 <= i < |ds.rows| && ds.rows[i].sampleId == sid :: keys.value[i]
      {
        SampleCloneMapKeys(ds.rows, keys.value, fr, sid);
      }
    }
  }

  /** The fraction a sample's clone map holds under the key of its last row with that key: the computed
      fraction after downsampling, or that row's own `fractionOfReads` cell when `none` passed the input
      through. */
  lemma CloneMapsFraction(ds: Downsampled, columns: set<string>, intersection: string, singleCell: bool, ids: seq<string>, i: nat)
    requires WellFormed(ds) && i < |ds.rows|
    requires ds.fractions.Some? || FractionColumnName in columns
    requires RowKeys(columns, ds.rows, intersection, singleCell).Ok?
    requires var keys := RowKeys(columns, ds.rows, intersection, singleCell).value;
             forall j :: i < j < |ds.rows| && ds.rows[j].sampleId == ds.rows[i].sampleId ==> keys[j] != keys[i]
    ensures var r := CloneMaps(ds, columns, intersection, singleCell, ids);
            var keys := RowKeys(columns, ds.rows, intersection, singleCell).value;
            var sid := ds.rows[i].sampleId;
            && r.Ok? && sid in r.value && keys[i] in r.value[sid]
            && r.value[sid][keys[i]] == if ds.fractions.Some? then ds.fractions.value[i] else ds.rows[i].fraction
  {
    var keys := RowKeys(columns, ds.rows, intersection, singleCell).value;
    var fr := FractionColumn(ds, columns).value;
    var sid := ds.rows[i].sampleId;
    assert ds.rows[i] in ds.rows;
    SampleCloneMapLastWins(ds.rows, keys, fr, sid, i);
  }
}
