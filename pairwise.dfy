/**
  The wide metric table (software/src/main.py, compute_metrics_wide): metric
  configurations are grouped by intersection type and downsampling, each group
  downsamples once, builds its clone maps once and scores every unordered pair
  of samples once; the rows are all ordered pairs of the sorted sample ids.
 */
module Pairwise {
  import opened Common
  import opened Rows
  import opened Ordering
  import opened Downsampling
  import opened CloneKey
  import opened Metric
  import opened Aggregation

  /** One entry of the JSON configuration list. */
  datatype MetricConfig = MetricConfig(metric: string, intersection: string, downsampling: DownsamplingConfig)

  /** The metrics sharing an intersection type and a downsampling configuration, in configuration order. */
  datatype Group = Group(intersection: string, downsampling: DownsamplingConfig, metrics: seq<string>)

  type Pair = (string, string)

  /** For each metric of a group, its value on each ordered pair of sample ids. */
  type Table = map<string, map<Pair, Value>>

  /** The wide column a metric fills: `f"{type} {intersection}"`. */
  function ColumnName(metric: string, intersection: string): string
  {
    metric + " " + intersection
  }

  // ---------- grouping (`metrics_by_config`) ----------

  predicate SameKey(g: Group, c: MetricConfig)
  {
    g.intersection == c.intersection && g.downsampling == c.downsampling
  }

  /** The position of the group of `c`, if it has one. */
  function FindGroup(groups: seq<Group>, c: MetricConfig): (r: Option<nat>)
    ensures r.Some? ==> r.value < |groups| && SameKey(groups[r.value], c)
    ensures r.None? ==> forall i :: 0 <= i < |groups| ==> !SameKey(groups[i], c)
  {
    if |groups| == 0 then None
    else if SameKey(groups[|groups| - 1], c) then Some(|groups| - 1)
    else FindGroup(groups[..|groups| - 1], c)
  }

  /** `metrics_by_config[config_key].append(...)` on a dictionary that keeps insertion order. */
  function AddConfig(groups: seq<Group>, c: MetricConfig): seq<Group>
  {
    match FindGroup(groups, c)
    case Some(i) => groups[i := groups[i].(metrics := groups[i].metrics + [c.metric])]
    case None => groups + [Group(c.intersection, c.downsampling, [c.metric])]
  }

  function Groups(configs: seq<MetricConfig>): seq<Group>
  {
    if |configs| == 0 then [] else AddConfig(Groups(configs[..|configs| - 1]), configs[|configs| - 1])
  }

  /** The grouping loop at the head of `compute_metrics_wide`. */
  method GroupConfigs(configs: seq<MetricConfig>) returns (groups: seq<Group>)
    ensures groups == Groups(configs)
  {
    groups := [];
    var k := 0;
    while k < |configs|
      invariant 0 <= k <= |configs|
      invariant groups == Groups(configs[..k])
    {
      var c := configs[k];
      var found := FindGroup(groups, c);
      if found.Some? {
        var i := found.value;
        groups := groups[i := groups[i].(metrics := groups[i].metrics + [c.metric])];
      } else {
        groups := groups + [Group(c.intersection, c.downsampling, [c.metric])];
      }
      assert configs[..k + 1][..k] == configs[..k];
      k := k + 1;
    }
    assert configs[..k] == configs;
  }

  /** The metric names of the configurations with the given key, in order. */
  function MetricsFor(configs: seq<MetricConfig>, intersection: string, downsampling: DownsamplingConfig): seq<string>
  {
    if |configs| == 0 then []
    else
      var n := |configs| - 1;
      var c := configs[n];
      MetricsFor(configs[..n], intersection, downsampling)
        + (if c.intersection == intersection && c.downsampling == downsampling then [c.metric] else [])
  }

  /** A metric is listed for a key exactly when some configuration with that key names it. */
  lemma {:induction false} MetricsForMember(configs: seq<MetricConfig>, intersection: string, downsampling: DownsamplingConfig, m: string)
    ensures m in MetricsFor(configs, intersection, downsampling)
            <==> exists c :: c in configs && c.metric == m && c.intersection == intersection && c.downsampling == downsampling
  {
    if |configs| > 0 {
      var n := |configs| - 1;
      var front := configs[..n];
      MetricsForMember(front, intersection, downsampling, m);
      assert configs == front + [configs[n]];
      if exists c :: c in configs && c.metric == m && c.intersection == intersection && c.downsampling == downsampling {
        var c :| c in configs && c.metric == m && c.intersection == intersection && c.downsampling == downsampling;
        if c != configs[n] {
          assert c in front;
        }
      }
    }
  }

  predicate KeysDistinct(groups: seq<Group>)
  {
    forall i, j :: 0 <= i < j < |groups| ==>
      !(groups[i].intersection == groups[j].intersection && groups[i].downsampling == groups[j].downsampling)
  }

  /** No two groups share a key. */
  lemma {:induction false} GroupsDistinct(configs: seq<MetricConfig>)
    ensures KeysDistinct(Groups(configs))
  {
    if |configs| > 0 {
      var n := |configs| - 1;
      GroupsDistinct(configs[..n]);
      var before := Groups(configs[..n]);
      var gs := Groups(configs);
      match FindGroup(before, configs[n])
      case Some(k) =>
        assert forall i :: 0 <= i < |gs| ==> SameKey(gs[i], MetricConfig("", before[i].intersection, before[i].downsampling));
      case None =>
        assert gs == before + [Group(configs[n].intersection, configs[n].downsampling, [configs[n].metric])];
    }
  }

  /** Adding a configuration keeps every group's key and appends a group only for a new key. */
  lemma AddConfigKeys(groups: seq<Group>, c: MetricConfig)
    ensures var gs := AddConfig(groups, c);
            && |groups| <= |gs| <= |groups| + 1
            && (forall i :: 0 <= i < |groups| ==>
                  gs[i].intersection == groups[i].intersection && gs[i].downsampling == groups[i].downsampling)
            && (exists i :: 0 <= i < |gs| && SameKey(gs[i], c))
            && (|gs| == |groups| + 1 ==> SameKey(gs[|groups|], c))
  {
    match FindGroup(groups, c)
    case Some(k) =>
      assert SameKey(AddConfig(groups, c)[k], c);
    case None =>
      assert SameKey(AddConfig(groups, c)[|groups|], c);
  }

  /** There is a group exactly when there is a configuration, and every configuration has its group. */
  lemma {:induction false} GroupsCover(configs: seq<MetricConfig>)
    ensures var gs := Groups(configs);
            && (|gs| == 0 <==> |configs| == 0)
            && forall c :: c in configs ==> exists i :: 0 <= i < |gs| && SameKey(gs[i], c)
  {
    if |configs| > 0 {
      var n := |configs| - 1;
      var p, c := configs[..n], configs[n];
      GroupsCover(p);
      var before := Groups(p);
      var gs := Groups(configs);
      AddConfigKeys(before, c);
      assert gs == AddConfig(before, c);
      forall d | d in configs ensures exists i :: 0 <= i < |gs| && SameKey(gs[i], d) {
        if d != c {
          assert d in p;
          var i :| 0 <= i < |before| && SameKey(before[i], d);
          assert SameKey(gs[i], d);
        }
      }
    }
  }

  /** Every group's key is that of some configuration. */
  lemma {:induction false} GroupsFromConfigs(configs: seq<MetricConfig>)
    ensures forall g :: g in Groups(configs) ==> exists c :: c in configs && SameKey(g, c)
  {
    if |configs| > 0 {
      var n := |configs| - 1;
      var p, c := configs[..n], configs[n];
      GroupsFromConfigs(p);
      var before := Groups(p);
      var gs := Groups(configs);
      AddConfigKeys(before, c);
      assert gs == AddConfig(before, c);
      forall g | g in gs ensures exists d :: d in configs && SameKey(g, d) {
        var i :| 0 <= i < |gs| && gs[i] == g;
        if i < |before| {
          assert before[i] in before;
          var d :| d in p && SameKey(before[i], d);
          assert d in configs && SameKey(g, d);
        } else {
          assert c in configs && SameKey(g, c);
        }
      }
    }
  }

  /** Each group lists exactly the metrics of the configurations with its key, in configuration order. */
  lemma {:induction false} GroupsMetrics(configs: seq<MetricConfig>)
    ensures var gs := Groups(configs);
            forall i :: 0 <= i < |gs| ==> gs[i].metrics == MetricsFor(configs, gs[i].intersection, gs[i].downsampling)
  {
    if |configs| > 0 {
      var n := |configs| - 1;
      var p, c := configs[..n], configs[n];
      GroupsMetrics(p);
      GroupsDistinct(p);
      var before := Groups(p);
      var gs := Groups(configs);
      forall j | 0 <= j < |gs| ensures gs[j].metrics == MetricsFor(configs, gs[j].intersection, gs[j].downsampling) {
        GroupStep(p, c, j);
      }
    }
  }

  lemma GroupStep(p: seq<MetricConfig>, c: MetricConfig, j: nat)
    requires var before := Groups(p);
             && KeysDistinct(before)
             && forall i :: 0 <= i < |before| ==> before[i].metrics == MetricsFor(p, before[i].intersection, before[i].downsampling)
    requires j < |AddConfig(Groups(p), c)|
    ensures var g := AddConfig(Groups(p), c)[j]; g.metrics == MetricsFor(p + [c], g.intersection, g.downsampling)
  {
    var before := Groups(p);
    var gs := AddConfig(before, c);
    var g := gs[j];
    assert (p + [c])[..|p|] == p;
    assert MetricsFor(p + [c], g.intersection, g.downsampling)
        == MetricsFor(p, g.intersection, g.downsampling) + (if SameKey(g, c) then [c.metric] else []);
    match FindGroup(before, c)
    case Some(i) =>
      if j != i {
        assert g == before[j];
        assert !SameKey(g, c);
      }
    case None =>
      if j == |before| {
        GroupsCover(p);
        forall d | d in p ensures !SameKey(g, d) {
          var k :| 0 <= k < |before| && SameKey(before[k], d);
          assert !SameKey(before[k], c);
        }
        MetricsForNone(p, g);
      }
  }

  lemma {:induction false} MetricsForNone(configs: seq<MetricConfig>, g: Group)
    requires forall c :: c in configs ==> !SameKey(g, c)
    ensures MetricsFor(configs, g.intersection, g.downsampling) == []
  {
    if |configs| > 0 {
      assert configs[|configs| - 1] in configs;
      MetricsForNone(configs[..|configs| - 1], g);
    }
  }

  // ---------- step 2: one value per metric and unordered pair ----------

  /** The first unknown metric name, if any. */
  function FirstUnknown(metrics: seq<string>): (r: Option<string>)
    ensures r.None? <==> forall m :: m in metrics ==> !KindOf(m).Unknown?
    ensures r.Some? ==> exists t :: 0 <= t < |metrics| && metrics[t] == r.value && KindOf(r.value).Unknown? &&
                          forall u :: 0 <= u < t ==> !KindOf(metrics[u]).Unknown?
  {
    if |metrics| == 0 then None
    else if KindOf(metrics[0]).Unknown? then Some(metrics[0])
    else
      var r := FirstUnknown(metrics[1..]);
      assert forall m :: m in metrics ==> m == metrics[0] || m in metrics[1..];
      if r.Some? then
        assert exists t :: 0 <= t < |metrics| - 1 && metrics[1..][t] == r.value && KindOf(r.value).Unknown? &&
                           forall u :: 0 <= u < t ==> !KindOf(metrics[1..][u]).Unknown?;
        var t :| 0 <= t < |metrics| - 1 && metrics[1..][t] == r.value && KindOf(r.value).Unknown? &&
                 forall u :: 0 <= u < t ==> !KindOf(metrics[1..][u]).Unknown?;
        assert metrics[t + 1] == r.value;
        assert forall u :: 0 < u < t + 1 ==> metrics[u] == metrics[1..][u - 1];
        r
      else r
  }

  lemma FirstUnknownAt(metrics: seq<string>, t: nat)
    requires t < |metrics| && KindOf(metrics[t]).Unknown?
    requires forall u :: 0 <= u < t ==> !KindOf(metrics[u]).Unknown?
    ensures FirstUnknown(metrics) == Some(metrics[t])
  {
    var r := FirstUnknown(metrics);
    assert r.Some? by {
      assert metrics[t] in metrics;
    }
    var t' :| 0 <= t' < |metrics| && metrics[t'] == r.value && KindOf(r.value).Unknown? &&
              forall u :: 0 <= u < t' ==> !KindOf(metrics[u]).Unknown?;
    if t' < t {
    } else if t < t' {
    }
  }

  predicate Covers(maps: map<string, CloneMap>, ids: seq<string>)
  {
    forall i :: 0 <= i < |ids| ==> ids[i] in maps
  }

  function AllPairs(ids: seq<string>): set<Pair>
  {
    set a, b | a in ids && b in ids :: (a, b)
  }

  /** The value stored for the ordered pair (a, b): the metric is computed once, on the pair in sorted order. */
  function PairMetric(maps: map<string, CloneMap>, m: string, a: string, b: string): Value
    requires a in maps && b in maps && !KindOf(m).Unknown?
  {
    if StrLe(a, b) then
      KnownMetricOk(a, b, maps[a], maps[b], m);
      ComputeMetric(a, b, maps[a], maps[b], m).value
    else
      KnownMetricOk(b, a, maps[b], maps[a], m);
      ComputeMetric(b, a, maps[b], maps[a], m).value
  }

  /** What step 2 stores for a group: for each metric, its value on every ordered pair of sample ids
      (an unknown metric gets no value). */
  function Expected(ids: seq<string>, maps: map<string, CloneMap>, metrics: seq<string>): Table
    requires Covers(maps, ids)
  {
    map m | m in metrics :: map p | p in AllPairs(ids) && !KindOf(m).Unknown? :: PairMetric(maps, m, p.0, p.1)
  }

  /** `metric_values` of one group, or the error of its first failing metric. An unknown metric name always
      fails on the first pair, a self pair, so the error is that of the first unknown name. */
  function GroupTable(ids: seq<string>, maps: map<string, CloneMap>, metrics: seq<string>): Result<Table>
    requires Covers(maps, ids)
  {
    if |ids| > 0 && FirstUnknown(metrics).Some? then Err(UnsupportedMetric(FirstUnknown(metrics).value))
    else Ok(Expected(ids, maps, metrics))
  }

  /** The pairs (ids[a], ids[b]) with a <= b, taken row by row up to row `i`, column `j`. */
  predicate Before(a: nat, b: nat, i: nat, j: nat)
  {
    a < i || (a == i && b < j)
  }

  function Names(metrics: seq<string>): set<string>
  {
    set m | m in metrics
  }

  /** Every stored value is the one `e` holds. */
  ghost predicate Sound(mv: Table, e: Table)
  {
    forall m, p :: m in mv && p in mv[m] ==> m in e && p in e[m] && mv[m][p] == e[m][p]
  }

  /** Every metric has an entry for the pairs visited before (i, j), in both orders. */
  ghost predicate Visited(ids: seq<string>, metrics: seq<string>, mv: Table, i: nat, j: nat)
    requires forall m :: m in metrics ==> m in mv
  {
    forall m, a, b :: m in metrics && 0 <= a <= b < |ids| && Before(a, b, i, j) ==>
      (ids[a], ids[b]) in mv[m] && (ids[b], ids[a]) in mv[m]
  }

  /** `e` holds, for metric `metrics[t]` on the pair (ids[i], ids[j]) and on its mirror, what
      `compute_metric` yields on (ids[i], ids[j]). */
  ghost predicate Agrees(e: Table, ids: seq<string>, maps: map<string, CloneMap>, metrics: seq<string>, i: nat, j: nat, t: nat)
    requires Covers(maps, ids) && i < |ids| && j < |ids| && t < |metrics|
  {
    var m, s1, s2 := metrics[t], ids[i], ids[j];
    var v := ComputeMetric(s1, s2, maps[s1], maps[s2], m);
    && m in e
    && (!KindOf(m).Unknown? ==>
          && v.Ok? && (s1, s2) in e[m] && (s2, s1) in e[m]
          && e[m][(s1, s2)] == v.value && e[m][(s2, s1)] == v.value)
  }

  /** On a pair in sorted order, the value step 2 computes is the one the expected table holds for
      both orders of the pair. */
  lemma ExpectedAgrees(ids: seq<string>, maps: map<string, CloneMap>, metrics: seq<string>, i: nat, j: nat, t: nat)
    requires Covers(maps, ids) && StrictlySorted(ids) && i <= j < |ids| && t < |metrics|
    ensures Agrees(Expected(ids, maps, metrics), ids, maps, metrics, i, j, t)
  {
    var e := Expected(ids, maps, metrics);
    var m, s1, s2 := metrics[t], ids[i], ids[j];
    assert m in metrics;
    if !KindOf(m).Unknown? {
      SortedPositionsAgree(ids, i, j);
      SortedPositionsAgree(ids, j, i);
      KnownMetricOk(s1, s2, maps[s1], maps[s2], m);
      assert (s1, s2) in AllPairs(ids) && (s2, s1) in AllPairs(ids);
      assert e[m][(s1, s2)] == PairMetric(maps, m, s1, s2);
      assert e[m][(s2, s1)] == PairMetric(maps, m, s2, s1);
    }
  }

  /** `metric_values[metric][(s1, s2)] = val`, and the mirrored entry for distinct samples. */
  function Store(mv: Table, metric: string, s1: string, s2: string, v: Value): (r: Table)
    requires metric in mv
    ensures r.Keys == mv.Keys
  {
    var m1 := mv[metric := mv[metric][(s1, s2) := v]];
    if s1 != s2 then m1[metric := m1[metric][(s2, s1) := v]] else m1
  }

  lemma StoreSound(mv: Table, e: Table, metric: string, s1: string, s2: string, v: Value)
    requires Sound(mv, e) && metric in mv && metric in e
    requires (s1, s2) in e[metric] && (s2, s1) in e[metric] && e[metric][(s1, s2)] == v && e[metric][(s2, s1)] == v
    ensures Sound(Store(mv, metric, s1, s2, v), e)
  {
  }

  lemma StoreVisited(ids: seq<string>, metrics: seq<string>, mv: Table, metric: string, s1: string, s2: string, v: Value, i: nat, j: nat)
    requires mv.Keys == Names(metrics) && metric in mv && Visited(ids, metrics, mv, i, j)
    ensures var r := Store(mv, metric, s1, s2, v);
            && r.Keys == Names(metrics)
            && Visited(ids, metrics, r, i, j)
            && (s1, s2) in r[metric] && (s2, s1) in r[metric]
            && (forall u :: 0 <= u < |metrics| && (s1, s2) in mv[metrics[u]] && (s2, s1) in mv[metrics[u]] ==>
                  (s1, s2) in r[metrics[u]] && (s2, s1) in r[metrics[u]])
  {
  }

  lemma VisitedNext(ids: seq<string>, metrics: seq<string>, mv: Table, i: nat, j: nat)
    requires mv.Keys == Names(metrics) && Visited(ids, metrics, mv, i, j) && i <= j < |ids|
    requires Scored(ids, metrics, mv, i, j, |metrics|)
    ensures Visited(ids, metrics, mv, i, j + 1)
    ensures FirstUnknown(metrics).None?
  {
    forall m | m in metrics ensures (ids[i], ids[j]) in mv[m] && (ids[j], ids[i]) in mv[m] && !KindOf(m).Unknown? {
      var u :| 0 <= u < |metrics| && metrics[u] == m;
    }
    forall m, a, b | m in metrics && 0 <= a <= b < |ids| && Before(a, b, i, j + 1)
      ensures (ids[a], ids[b]) in mv[m] && (ids[b], ids[a]) in mv[m]
    {
      if !Before(a, b, i, j) {
        assert a == i && b == j;
      }
    }
  }

  /** The first `t` metrics are known and have entries for (ids[i], ids[j]) in both orders. */
  ghost predicate Scored(ids: seq<string>, metrics: seq<string>, mv: Table, i: nat, j: nat, t: nat)
    requires forall m :: m in metrics ==> m in mv
    requires i < |ids| && j < |ids| && t <= |metrics|
  {
    forall u :: 0 <= u < t ==>
      !KindOf(metrics[u]).Unknown? && (ids[i], ids[j]) in mv[metrics[u]] && (ids[j], ids[i]) in mv[metrics[u]]
  }

  /** One metric of the group on the pair (ids[i], ids[j]): its value stored under both orders of the
      pair, or the error of an unknown metric, which can only come on the first pair. */
  method ScoreMetric(ids: seq<string>, maps: map<string, CloneMap>, metrics: seq<string>, ghost e: Table, mv: Table, i: nat, j: nat, t: nat)
    returns (r: Result<Table>)
    requires Covers(maps, ids) && i <= j < |ids| && t < |metrics| && Agrees(e, ids, maps, metrics, i, j, t)
    requires mv.Keys == Names(metrics) && Sound(mv, e) && Visited(ids, metrics, mv, i, j)
    requires i > 0 || j > 0 ==> FirstUnknown(metrics).None?
    requires Scored(ids, metrics, mv, i, j, t)
    ensures r.Ok? ==>
              && r.value.Keys == Names(metrics)
              && Sound(r.value, e) && Visited(ids, metrics, r.value, i, j) && Scored(ids, metrics, r.value, i, j, t + 1)
    ensures r.Err? ==> i == 0 && j == 0 && FirstUnknown(metrics) == Some(metrics[t]) && r.error == UnsupportedMetric(metrics[t])
  {
    var metric, s1, s2 := metrics[t], ids[i], ids[j];
    var val := ComputeMetric(s1, s2, maps[s1], maps[s2], metric);
    if val.Err? {
      KnownMetricOk(s1, s2, maps[s1], maps[s2], metric);
      FirstUnknownAt(metrics, t);
      return Err(val.error);
    }
    assert !KindOf(metric).Unknown? by {
      SelfPair(s1, maps[s1], maps[s2], metric);
      assert metric in metrics;
    }
    StoreSound(mv, e, metric, s1, s2, val.value);
    StoreVisited(ids, metrics, mv, metric, s1, s2, val.value, i, j);
    return Ok(Store(mv, metric, s1, s2, val.value));
  }

  /** Step 2 for one pair: every metric of the group, stored under both orders of the pair. */
  method ScorePair(ids: seq<string>, maps: map<string, CloneMap>, metrics: seq<string>, ghost e: Table, mv0: Table, i: nat, j: nat)
    returns (r: Result<Table>)
    requires Covers(maps, ids) && i <= j < |ids|
    requires forall t :: 0 <= t < |metrics| ==> Agrees(e, ids, maps, metrics, i, j, t)
    requires mv0.Keys == Names(metrics) && Sound(mv0, e) && Visited(ids, metrics, mv0, i, j)
    requires i > 0 || j > 0 ==> FirstUnknown(metrics).None?
    ensures r.Ok? ==>
              && r.value.Keys == Names(metrics)
              && Sound(r.value, e) && Visited(ids, metrics, r.value, i, j + 1)
              && FirstUnknown(metrics).None?
    ensures r.Err? ==> i == 0 && j == 0 && FirstUnknown(metrics).Some? && r == Err(UnsupportedMetric(FirstUnknown(metrics).value))
  {
    var s1, s2 := ids[i], ids[j];
    var mv := mv0;
    var t := 0;
    while t < |metrics|
      invariant 0 <= t <= |metrics|
      invariant mv.Keys == Names(metrics) && Sound(mv, e) && Visited(ids, metrics, mv, i, j)
      invariant Scored(ids, metrics, mv, i, j, t)
    {
      var step := ScoreMetric(ids, maps, metrics, e, mv, i, j, t);
      if step.Err? {
        return Err(step.error);
      }
      mv := step.value;
      t := t + 1;
    }
    VisitedNext(ids, metrics, mv, i, j);
    return Ok(mv);
  }

  /** The expected table has an entry per metric name, and only pairs of sample ids. */
  lemma ExpectedShape(ids: seq<string>, maps: map<string, CloneMap>, metrics: seq<string>)
    requires Covers(maps, ids)
    ensures var e := Expected(ids, maps, metrics);
            && e.Keys == Names(metrics)
            && forall m, p :: m in e && p in e[m] ==> p in AllPairs(ids)
  {
  }

  /** After the last row every pair is visited: a table whose values are right and which has every pair
      of a table `e` holding only pairs of sample ids is `e`. */
  lemma SoundComplete(ids: seq<string>, metrics: seq<string>, mv: Table, e: Table)
    requires e.Keys == Names(metrics) && forall m, p :: m in e && p in e[m] ==> p in AllPairs(ids)
    requires mv.Keys == Names(metrics) && Sound(mv, e) && Visited(ids, metrics, mv, |ids|, |ids|)
    ensures mv == e
  {
    forall m | m in mv ensures mv[m] == e[m] {
      assert m in metrics;
      forall p | p in e[m] ensures p in mv[m] {
        assert p in AllPairs(ids);
        var a :| 0 <= a < |ids| && ids[a] == p.0;
        var b :| 0 <= b < |ids| && ids[b] == p.1;
        if a <= b {
          assert Before(a, b, |ids|, |ids|);
        } else {
          assert Before(b, a, |ids|, |ids|);
        }
      }
      assert mv[m].Keys == e[m].Keys;
    }
  }

  /** Finishing row `i` of the pair triangle. */
  lemma VisitedRow(ids: seq<string>, metrics: seq<string>, mv: Table, i: nat)
    requires (forall m :: m in metrics ==> m in mv) && i < |ids| && Visited(ids, metrics, mv, i, |ids|)
    ensures Visited(ids, metrics, mv, i + 1, i + 1)
  {
    forall m, a, b | m in metrics && 0 <= a <= b < |ids| && Before(a, b, i + 1, i + 1)
      ensures (ids[a], ids[b]) in mv[m] && (ids[b], ids[a]) in mv[m]
    {
      assert Before(a, b, i, |ids|);
    }
  }

  /** Step 2 of one group: `metric_values`, filled over the unordered pairs (`combinations_with_replacement`). */
  method MetricValues(ids: seq<string>, maps: map<string, CloneMap>, metrics: seq<string>) returns (r: Result<Table>)
    requires Covers(maps, ids) && StrictlySorted(ids)
    ensures r == GroupTable(ids, maps, metrics)
  {
    ghost var e := Expected(ids, maps, metrics);
    var mv: Table := map m | m in metrics :: map[];
    var i := 0;
    while i < |ids|
      invariant i <= |ids| && mv.Keys == Names(metrics) && Sound(mv, e) && Visited(ids, metrics, mv, i, i)
      invariant i > 0 ==> FirstUnknown(metrics).None?
    {
      var j := i;
      while j < |ids|
        invariant i <= j <= |ids| && mv.Keys == Names(metrics) && Sound(mv, e) && Visited(ids, metrics, mv, i, j)
        invariant i > 0 || j > 0 ==> FirstUnknown(metrics).None?
      {
        forall t | 0 <= t < |metrics| ensures Agrees(e, ids, maps, metrics, i, j, t) {
          ExpectedAgrees(ids, maps, metrics, i, j, t);
        }
        var step := ScorePair(ids, maps, metrics, e, mv, i, j);
        if step.Err? {
          return step;
        }
        mv := step.value;
        j := j + 1;
      }
      VisitedRow(ids, metrics, mv, i);
      i := i + 1;
    }
    ExpectedShape(ids, maps, metrics);
    SoundComplete(ids, metrics, mv, e);
    return Ok(mv);
  }
}
