/**
  One overlap metric between two samples' clone maps
  (software/src/main.py, compute_metric). A clone map sends each clone key
  of a sample to its read fraction; the clone set is its key set.
 */
module Metric {
  import opened Common
  import opened Rows

  type CloneMap = map<string, Fraction>

  /**
    A metric value. Ratios of counts and the constants 0 and 1 are exact;
    the square-root and regression metrics are kept as the fractions they are
    computed from, restricted to the shared clones:
    F1 is sqrt(sum(x) * sum(y)), F2 is the sum over k of sqrt(x[k] * y[k]),
    Pearson is the correlation coefficient of the points (x[k], y[k]).
   */
  datatype Value =
    | Exact(r: real)
    | Count(n: nat)
    | F1Value(x: CloneMap, y: CloneMap)
    | F2Value(x: CloneMap, y: CloneMap)
    | PearsonValue(x: CloneMap, y: CloneMap)

  /** The metric names the engine knows; any other name is kept for its error message. */
  datatype MetricKind = F1 | F2 | Jaccard | Correlation | D | SharedClonotypes | Unknown(name: string)

  function KindOf(metric: string): (k: MetricKind)
    ensures k.Unknown? ==> k.name == metric
  {
    if metric == "F1" then F1
    else if metric == "F2" then F2
    else if metric == "jaccard" then Jaccard
    else if metric == "correlation" then Correlation
    else if metric == "D" then D
    else if metric == "sharedClonotypes" then SharedClonotypes
    else Unknown(metric)
  }

  /** `c` restricted to the keys in `keys`. */
  function Restrict(c: CloneMap, keys: set<string>): (m: CloneMap)
    ensures m.Keys == c.Keys * keys
    ensures forall k :: k in m ==> m[k] == c[k]
  {
    map k | k in c.Keys * keys :: c[k]
  }

  /** Floating-point `==`: NaN equals nothing, itself included. */
  predicate FEq(a: Fraction, b: Fraction)
  {
    a.Finite? && b.Finite? && a.value == b.value
  }

  /** `np.all(f == f[0])`: every value equals the first, which fails as soon as one is NaN. */
  predicate Constant(f: CloneMap)
  {
    forall j, k :: j in f && k in f ==> FEq(f[j], f[k])
  }

  /** `np.all(f1 == f2)` over the shared keys. */
  predicate Agree(x: CloneMap, y: CloneMap, keys: set<string>)
    requires keys <= x.Keys && keys <= y.Keys
  {
    forall k :: k in keys ==> FEq(x[k], y[k])
  }

  /** The correlation branch: with at most one shared clone, or one side constant, the regression is
      skipped and the score is 1 exactly when the fractions agree clone by clone. */
  function CorrelationOf(x: CloneMap, y: CloneMap): Value
    requires x.Keys == y.Keys
  {
    if |x.Keys| <= 1 || Constant(x) || Constant(y) then
      Exact(if Agree(x, y, x.Keys) then 1.0 else 0.0)
    else PearsonValue(x, y)
  }

  /** `compute_metric`: the self-pair and the empty overlap are decided before the metric name is looked at. */
  function ComputeMetric(s1: string, s2: string, c1: CloneMap, c2: CloneMap, metric: string): Result<Value>
  {
    if s1 == s2 then
      match KindOf(metric)
      case SharedClonotypes => Ok(Count(|c1.Keys|))
      case Unknown(name) => Err(UnsupportedMetric(name))
      case _ => Ok(Exact(1.0))
    else if c1.Keys * c2.Keys == {} then Ok(Exact(0.0))
    else Overlap(c1, c2, metric)
  }

  /** The metric of two distinct samples sharing at least one clone. */
  function Overlap(c1: CloneMap, c2: CloneMap, metric: string): Result<Value>
    requires c1.Keys * c2.Keys != {}
  {
    var shared := c1.Keys * c2.Keys;
    var x := Restrict(c1, shared);
    var y := Restrict(c2, shared);
    match KindOf(metric)
    case F1 => Ok(F1Value(x, y))
    case F2 => Ok(F2Value(x, y))
    case Jaccard => Ok(Exact(|shared| as real / |c1.Keys + c2.Keys| as real))
    case D => Ok(Exact(|shared| as real / (|c1.Keys| * |c2.Keys|) as real))
    case Correlation => Ok(CorrelationOf(x, y))
    case SharedClonotypes => Ok(Count(|shared|))
    case Unknown(name) => Err(UnsupportedMetric(name))
  }

  /** The value with the roles of the two samples exchanged. */
  function Swap(v: Value): Value
  {
    match v
    case F1Value(x, y) => F1Value(y, x)
    case F2Value(x, y) => F2Value(y, x)
    case PearsonValue(x, y) => PearsonValue(y, x)
    case _ => v
  }

  /** A sample compared with itself: 1 for the ratio metrics, its clone count for sharedClonotypes. */
  lemma SelfPair(s: string, c1: CloneMap, c2: CloneMap, metric: string)
    ensures var k := KindOf(metric);
            var v := ComputeMetric(s, s, c1, c2, metric);
            && (k.SharedClonotypes? ==> v == Ok(Count(|c1.Keys|)))
            && (k.Unknown? ==> v == Err(UnsupportedMetric(metric)))
            && (!k.SharedClonotypes? && !k.Unknown? ==> v == Ok(Exact(1.0)))
  {
  }

  /** Only an unknown metric name can fail, and it fails with its own name. */
  lemma KnownMetricOk(s1: string, s2: string, c1: CloneMap, c2: CloneMap, metric: string)
    ensures ComputeMetric(s1, s2, c1, c2, metric).Err? ==>
              KindOf(metric).Unknown? && ComputeMetric(s1, s2, c1, c2, metric).error == UnsupportedMetric(metric)
  {
  }

  /** Two distinct samples without a common clone score 0 under every metric name, unknown ones included. */
  lemma NoSharedClones(s1: string, s2: string, c1: CloneMap, c2: CloneMap, metric: string)
    requires s1 != s2 && c1.Keys !! c2.Keys
    ensures ComputeMetric(s1, s2, c1, c2, metric) == Ok(Exact(0.0))
  {
    assert c1.Keys * c2.Keys == {};
  }

  /** An unknown metric name fails exactly when it is reached: on a self pair or on overlapping samples. */
  lemma UnknownMetric(s1: string, s2: string, c1: CloneMap, c2: CloneMap, metric: string)
    requires KindOf(metric).Unknown?
    ensures ComputeMetric(s1, s2, c1, c2, metric).Err? <==> s1 == s2 || c1.Keys * c2.Keys != {}
    ensures ComputeMetric(s1, s2, c1, c2, metric).Err? ==> ComputeMetric(s1, s2, c1, c2, metric).error == UnsupportedMetric(metric)
  {
  }

  /** Exchanging the samples exchanges the two sides of every value and changes nothing else. */
  lemma MetricSymmetric(s1: string, s2: string, c1: CloneMap, c2: CloneMap, metric: string)
    requires s1 != s2
    ensures var a := ComputeMetric(s1, s2, c1, c2, metric);
            var b := ComputeMetric(s2, s1, c2, c1, metric);
            a.Ok? == b.Ok? && (a.Ok? ==> b.value == Swap(a.value)) && (a.Err? ==> a == b)
  {
    assert c2.Keys * c1.Keys == c1.Keys * c2.Keys;
    if c1.Keys * c2.Keys != {} {
      OverlapSymmetric(c1, c2, metric);
    }
  }

  lemma OverlapSymmetric(c1: CloneMap, c2: CloneMap, metric: string)
    requires c1.Keys * c2.Keys != {}
    ensures c2.Keys * c1.Keys != {}
    ensures var a := Overlap(c1, c2, metric);
            var b := Overlap(c2, c1, metric);
            a.Ok? == b.Ok? && (a.Ok? ==> b.value == Swap(a.value)) && (a.Err? ==> a == b)
  {
    var shared := c1.Keys * c2.Keys;
    assert c2.Keys * c1.Keys == shared;
    var x := Restrict(c1, shared);
    var y := Restrict(c2, shared);
    assert Overlap(c2, c1, metric) == match KindOf(metric)
      case F1 => Ok(F1Value(y, x))
      case F2 => Ok(F2Value(y, x))
      case Jaccard => Ok(Exact(|shared| as real / |c2.Keys + c1.Keys| as real))
      case D => Ok(Exact(|shared| as real / (|c2.Keys| * |c1.Keys|) as real))
      case Correlation => Ok(CorrelationOf(y, x))
      case SharedClonotypes => Ok(Count(|shared|))
      case Unknown(name) => Err(UnsupportedMetric(name));
    assert c2.Keys + c1.Keys == c1.Keys + c2.Keys;
    assert |c2.Keys| * |c1.Keys| == |c1.Keys| * |c2.Keys|;
    CorrelationSymmetric(x, y);
  }

  lemma CorrelationSymmetric(x: CloneMap, y: CloneMap)
    requires x.Keys == y.Keys
    ensures CorrelationOf(y, x) == Swap(CorrelationOf(x, y))
  {
    assert Agree(x, y, x.Keys) <==> Agree(y, x, y.Keys);
  }

  lemma {:induction false} IntersectionWithinUnion(a: set<string>, b: set<string>)
    ensures |a * b| <= |a + b|
    ensures |a * b| <= |a| && |a * b| <= |b|
  {
    assert a * b <= a + b;
    assert a * b <= a && a * b <= b;
    SubsetCard(a * b, a + b);
    SubsetCard(a * b, a);
    SubsetCard(a * b, b);
  }

  lemma {:induction false} SubsetCard(a: set<string>, b: set<string>)
    requires a <= b
    ensures |a| <= |b|
  {
    assert b == a + (b - a);
  }

  /** |A ∪ B| <= |A| |B| once the sets overlap. */
  lemma {:induction false} UnionWithinProduct(a: set<string>, b: set<string>)
    requires a * b != {}
    ensures |a + b| <= |a| * |b|
  {
    assert |a + b| == |a| + |b| - |a * b|;
    assert |a * b| >= 1 by {
      var k :| k in a * b;
      SubsetCard({k}, a * b);
    }
    SubsetCard(a * b, a);
    SubsetCard(a * b, b);
    assert (|a| - 1) * (|b| - 1) >= 0;
  }

  /** For overlapping samples, jaccard and D lie in (0, 1], D never exceeds jaccard,
      and sharedClonotypes is at most the smaller clone count. */
  lemma RatioBounds(s1: string, s2: string, c1: CloneMap, c2: CloneMap)
    requires s1 != s2 && c1.Keys * c2.Keys != {}
    ensures var j := ComputeMetric(s1, s2, c1, c2, "jaccard").value;
            var d := ComputeMetric(s1, s2, c1, c2, "D").value;
            var n := ComputeMetric(s1, s2, c1, c2, "sharedClonotypes").value;
            && j.Exact? && 0.0 < j.r <= 1.0
            && d.Exact? && 0.0 < d.r <= 1.0
            && d.r <= j.r
            && n.Count? && 0 < n.n <= |c1.Keys| && n.n <= |c2.Keys|
  {
    var a, b := c1.Keys, c2.Keys;
    var s := a * b;
    IntersectionWithinUnion(a, b);
    UnionWithinProduct(a, b);
    assert |s| > 0 by {
      var k :| k in s;
    }
    var sr := |s| as real;
    var ur := |a + b| as real;
    var pr := (|a| * |b|) as real;
    assert 0.0 < sr <= ur <= pr;
    RatioOrder(sr, ur, pr);
  }

  lemma RatioOrder(s: real, u: real, p: real)
    requires 0.0 < s <= u <= p
    ensures 0.0 < s / p <= s / u <= 1.0 && 0.0 < s / u
  {
    assert s / u <= u / u;
    assert s / p <= s / u by {
      assert s / p * p == s && s / u * u == s;
    }
  }

  /** When the guard applies, correlation is 1 if the shared fractions agree pairwise and 0 otherwise;
      identical finite fractions therefore always score 1 under the guard. */
  lemma CorrelationGuard(s1: string, s2: string, c1: CloneMap, c2: CloneMap)
    requires s1 != s2 && c1.Keys * c2.Keys != {}
    ensures var shared := c1.Keys * c2.Keys;
            var x := Restrict(c1, shared);
            var y := Restrict(c2, shared);
            var v := ComputeMetric(s1, s2, c1, c2, "correlation").value;
            && (|shared| <= 1 || Constant(x) || Constant(y) ==>
                  v == Exact(if forall k :: k in shared ==> FEq(c1[k], c2[k]) then 1.0 else 0.0))
            && (!(|shared| <= 1 || Constant(x) || Constant(y)) ==> v == PearsonValue(x, y))
  {
  }

  /** A shared clone whose fraction is NaN on one side never scores 1: the guard compares it unequal. */
  lemma CorrelationWithNaN(s1: string, s2: string, c1: CloneMap, c2: CloneMap, k: string)
    requires s1 != s2 && k in c1 && k in c2 && c1[k] == NaN
    ensures var v := ComputeMetric(s1, s2, c1, c2, "correlation").value;
            v == Exact(0.0) || v.PearsonValue?
  {
    var shared := c1.Keys * c2.Keys;
    assert k in shared;
    var x := Restrict(c1, shared);
    var y := Restrict(c2, shared);
    assert !Constant(x) by {
      assert !FEq(x[k], x[k]);
    }
    assert !Agree(x, y, x.Keys) by {
      assert !FEq(x[k], y[k]);
    }
  }

  /** A single shared clone never enters the regression: the score is 1 when its fractions
      are equal and finite, 0 otherwise. */
  lemma SingleSharedClone(s1: string, s2: string, c1: CloneMap, c2: CloneMap, k: string)
    requires s1 != s2 && c1.Keys * c2.Keys == {k}
    ensures ComputeMetric(s1, s2, c1, c2, "correlation") == Ok(Exact(if FEq(c1[k], c2[k]) then 1.0 else 0.0))
  {
    assert k in c1.Keys * c2.Keys;
    var x := Restrict(c1, {k});
    var y := Restrict(c2, {k});
    assert Agree(x, y, {k}) <==> FEq(c1[k], c2[k]);
  }

  /** Two distinct samples with the same clone set: jaccard is 1 and D is one over the clone count. */
  lemma SameCloneSet(s1: string, s2: string, c1: CloneMap, c2: CloneMap)
    requires s1 != s2 && c1.Keys == c2.Keys && c1.Keys != {}
    ensures ComputeMetric(s1, s2, c1, c2, "jaccard") == Ok(Exact(1.0))
    ensures ComputeMetric(s1, s2, c1, c2, "D") == Ok(Exact(1.0 / |c1.Keys| as real))
    ensures ComputeMetric(s1, s2, c1, c2, "sharedClonotypes") == Ok(Count(|c1.Keys|))
  {
    var a := c1.Keys;
    assert a * a == a && a + a == a;
    assert |a| > 0 by {
      var k :| k in a;
    }
    OverSquare(|a|);
  }

  lemma OverSquare(k: nat)
    requires k > 0
    ensures (k as real) / (k as real) == 1.0
    ensures (k as real) / ((k * k) as real) == 1.0 / (k as real)
  {
    var n := k as real;
    assert (k * k) as real == n * n;
  }
}
