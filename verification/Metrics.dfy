/**
 Metrics: the Pareto frontier over (quality, cost, speed) and the running averages of a metrics
 record with merging.
 */
module Metrics {
  import opened Counts
  import opened RealFacts
  import opened Sequences

  // ---- Pareto frontier ---------------------------------------------------------------------

  /** Quality and speed are better when higher, cost when lower. */
  datatype Point = Point(quality: real, cost: real, speed: real)

  predicate Dominates(a: Point, b: Point) {
    && a.quality >= b.quality && a.cost <= b.cost && a.speed >= b.speed
    && (a.quality > b.quality || a.cost < b.cost || a.speed > b.speed)
  }

  /** One point dominates another when it is another one and in no respect worse. */
  lemma DominatesExactly(a: Point, b: Point)
    ensures Dominates(a, b) <==> a != b && a.quality >= b.quality && a.cost <= b.cost && a.speed >= b.speed
  {}

  ghost predicate Dominated(points: seq<Point>, i: nat)
    requires i < |points|
  {
    exists j :: 0 <= j < |points| && Dominates(points[j], points[i])
  }

  /** The undominated indices below `n`, ascending. */
  ghost function Frontier(points: seq<Point>, n: nat): seq<nat>
    requires n <= |points|
  {
    if n == 0 then []
    else Frontier(points, n - 1) + if Dominated(points, n - 1) then [] else [n - 1]
  }

  method ComputeParetoFrontier(points: seq<Point>) returns (frontier: seq<nat>)
    ensures frontier == Frontier(points, |points|)
  {
    frontier := [];
    var n := |points|;
    var i := 0;
    while i < n
      invariant 0 <= i <= n && frontier == Frontier(points, i)
    {
      var isPareto := true;
      var j := 0;
      while j < n
        invariant 0 <= j <= n && isPareto
        invariant forall k :: 0 <= k < j ==> !Dominates(points[k], points[i])
      {
        if i != j && Dominates(points[j], points[i]) {
          isPareto := false;
          break;
        }
        j := j + 1;
      }
      if isPareto {
        frontier := frontier + [i];
      }
      i := i + 1;
    }
  }

  lemma {:induction false} FrontierMembers(points: seq<Point>, n: nat)
    requires n <= |points|
    ensures forall i: nat :: i in Frontier(points, n) <==> i < n && !Dominated(points, i)
    ensures forall a, b :: 0 <= a < b < |Frontier(points, n)| ==> Frontier(points, n)[a] < Frontier(points, n)[b]
  {
    if n > 0 {
      FrontierMembers(points, n - 1);
      var f := Frontier(points, n - 1);
      assert forall a :: 0 <= a < |f| ==> f[a] in f;
    }
  }

  ghost function Dominators(points: seq<Point>, i: nat): set<nat>
    requires i < |points|
  {
    set j: nat | j < |points| && Dominates(points[j], points[i])
  }

  lemma FewerDominators(a: set<nat>, b: set<nat>, k: nat)
    requires a <= b && k in b && k !in a
    ensures |a| < |b|
  {
    assert b == a + (b - a);
    assert |b| == |a| + |b - a|;
    assert b - a != {};
  }

  /** Every point off the frontier is dominated by one on it; so the frontier of a non-empty list is
      not empty. */
  lemma {:induction false} OmittedIsDominatedByReturned(points: seq<Point>, i: nat) returns (j: nat)
    requires i < |points| && Dominated(points, i)
    ensures j < |points| && j in Frontier(points, |points|) && Dominates(points[j], points[i])
    decreases |Dominators(points, i)|
  {
    FrontierMembers(points, |points|);
    var k: nat :| k < |points| && Dominates(points[k], points[i]);
    if Dominated(points, k) {
      assert Dominators(points, k) <= Dominators(points, i);
      assert k in Dominators(points, i) - Dominators(points, k);
      FewerDominators(Dominators(points, k), Dominators(points, i), k);
      j := OmittedIsDominatedByReturned(points, k);
    } else {
      j := k;
    }
  }

  lemma FrontierIsNotEmpty(points: seq<Point>)
    requires points != []
    ensures Frontier(points, |points|) != []
  {
    FrontierMembers(points, |points|);
    if Dominated(points, 0) {
      var j := OmittedIsDominatedByReturned(points, 0);
    } else {
      assert 0 in Frontier(points, |points|);
    }
  }

  /** The method of a frontier point object compares costs the other way round. */
  predicate PointDominates(a: Point, b: Point) {
    && a.quality >= b.quality && a.cost >= b.cost && a.speed >= b.speed
    && (a.quality > b.quality || a.cost > b.cost || a.speed > b.speed)
  }

  function NegateCost(p: Point): Point { p.(cost := -p.cost) }

  /** Its answer agrees with the frontier's test when costs are negated first; on raw costs the two
      agree exactly when neither holds or the costs are equal. */
  lemma PointDominatesAgreesExactly(a: Point, b: Point)
    ensures PointDominates(NegateCost(a), NegateCost(b)) <==> Dominates(a, b)
    ensures (PointDominates(a, b) <==> Dominates(a, b)) <==>
              a.cost == b.cost || !(a.quality >= b.quality && a.speed >= b.speed)
  {}

  // ---- Running averages --------------------------------------------------------------------

  datatype Result = Result(verdict: string, quality: real, cost: real, time: real, tokens: real)

  datatype Averages = Averages(quality: real, cost: real, time: real, tokens: real)

  /** Field-wise totals of a history. */
  function Totals(history: seq<Result>): Averages {
    if history == [] then Averages(0.0, 0.0, 0.0, 0.0)
    else
      var t, r := Totals(Init(history)), Last(history);
      Averages(t.quality + r.quality, t.cost + r.cost, t.time + r.time, t.tokens + r.tokens)
  }

  function Count(history: seq<Result>, verdict: string): nat {
    if history == [] then 0 else Count(Init(history), verdict) + if Last(history).verdict == verdict then 1 else 0
  }

  function Qualities(history: seq<Result>): seq<real> {
    seq(|history|, i requires 0 <= i < |history| => history[i].quality)
  }

  function Costs(history: seq<Result>): seq<real> {
    seq(|history|, i requires 0 <= i < |history| => history[i].cost)
  }

  function Times(history: seq<Result>): seq<real> {
    seq(|history|, i requires 0 <= i < |history| => history[i].time)
  }

  function TokenCounts(history: seq<Result>): seq<real> {
    seq(|history|, i requires 0 <= i < |history| => history[i].tokens)
  }

  function Verdicts(history: seq<Result>): seq<string> {
    seq(|history|, i requires 0 <= i < |history| => history[i].verdict)
  }

  /** Each total is the sum of its own field. */
  lemma {:induction false} TotalsAreSums(history: seq<Result>)
    ensures Totals(history) == Averages(Sum(Qualities(history)), Sum(Costs(history)), Sum(Times(history)),
                                        Sum(TokenCounts(history)))
  {
    if history != [] {
      var init := Init(history);
      TotalsAreSums(init);
      assert Init(Qualities(history)) == Qualities(init) && Init(Costs(history)) == Costs(init);
      assert Init(Times(history)) == Times(init) && Init(TokenCounts(history)) == TokenCounts(init);
    }
  }

  lemma {:induction false} CountIsMultiplicity(history: seq<Result>, verdict: string)
    ensures Count(history, verdict) == multiset(Verdicts(history))[verdict]
  {
    if history != [] {
      CountIsMultiplicity(Init(history), verdict);
      assert Verdicts(history) == Verdicts(Init(history)) + [Last(history).verdict];
    }
  }

  function Plus(t: Averages, u: Averages): Averages {
    Averages(t.quality + u.quality, t.cost + u.cost, t.time + u.time, t.tokens + u.tokens)
  }

  lemma {:induction false} HistoriesAdd(a: seq<Result>, b: seq<Result>)
    ensures Totals(a + b) == Plus(Totals(a), Totals(b))
    ensures forall v :: Count(a + b, v) == Count(a, v) + Count(b, v)
    decreases |b|
  {
    if b == [] {
      assert a + b == a;
    } else {
      HistoriesAdd(a, Init(b));
      assert Init(a + b) == a + Init(b);
    }
  }

  /** The mean of n values with average a followed by m values with average b. */
  function Blend(a: real, n: nat, b: real, m: nat): real
    requires n + m > 0
  {
    (n as real * a + m as real * b) / (n + m) as real
  }

  /** `average` is the mean of values with the given total; it is zero when there are none. */
  predicate IsMean(average: real, total: real, n: nat) {
    average * n as real == total && (n == 0 ==> average == 0.0)
  }

  lemma BlendIsMean(a: real, t: real, n: nat, b: real, u: real, m: nat)
    requires n + m > 0 && IsMean(a, t, n) && IsMean(b, u, m)
    ensures IsMean(Blend(a, n, b, m), t + u, n + m)
  {
    assert n as real * a == t && m as real * b == u;
  }

  /** The running mean after the n-th value. */
  function Running(average: real, n: nat, x: real): real
    requires n > 0
  {
    ((n - 1) as real * average + x) / n as real
  }

  lemma RunningIsMean(a: real, t: real, n: nat, x: real)
    requires IsMean(a, t, n)
    ensures IsMean(Running(a, n + 1, x), t + x, n + 1)
  {
    assert n as real * a == t;
  }

  /** The four averages are the means of the four totals. */
  predicate AreMeans(a: Averages, t: Averages, n: nat) {
    && IsMean(a.quality, t.quality, n) && IsMean(a.cost, t.cost, n)
    && IsMean(a.time, t.time, n) && IsMean(a.tokens, t.tokens, n)
  }

  function BlendAll(a: Averages, n: nat, b: Averages, m: nat): Averages
    requires n + m > 0
  {
    Averages(Blend(a.quality, n, b.quality, m), Blend(a.cost, n, b.cost, m),
             Blend(a.time, n, b.time, m), Blend(a.tokens, n, b.tokens, m))
  }

  lemma BlendAllAreMeans(a: Averages, t: Averages, n: nat, b: Averages, u: Averages, m: nat)
    requires n + m > 0 && AreMeans(a, t, n) && AreMeans(b, u, m)
    ensures AreMeans(BlendAll(a, n, b, m), Plus(t, u), n + m)
  {
    BlendIsMean(a.quality, t.quality, n, b.quality, u.quality, m);
    BlendIsMean(a.cost, t.cost, n, b.cost, u.cost, m);
    BlendIsMean(a.time, t.time, n, b.time, u.time, m);
    BlendIsMean(a.tokens, t.tokens, n, b.tokens, u.tokens, m);
  }

  function Added(a: Counts, b: Counts): (r: Counts)
    ensures forall k :: Get(r, k) == Get(a, k) + Get(b, k)
  {
    map k | k in a.Keys + b.Keys :: Get(a, k) + Get(b, k)
  }

  class AutobenchMetrics {
    var totalRuns: nat
    var distribution: Counts
    var averages: Averages
    ghost var history: seq<Result>

    /** The averages are the true means of the whole history and the counts its verdict counts. */
    ghost predicate Valid()
      reads this
    {
      && totalRuns == |history|
      && AreMeans(averages, Totals(history), totalRuns)
      && (forall v :: Get(distribution, v) == Count(history, v))
    }

    constructor ()
      ensures Valid() && history == []
    {
      totalRuns, distribution, averages, history := 0, map[], Averages(0.0, 0.0, 0.0, 0.0), [];
    }

    /** What that says of every field of the results and of every verdict. */
    lemma AveragesAreTrue(verdict: string)
      requires Valid()
      ensures AreMeans(averages, Averages(Sum(Qualities(history)), Sum(Costs(history)), Sum(Times(history)),
                                          Sum(TokenCounts(history))), |history|)
      ensures Get(distribution, verdict) == multiset(Verdicts(history))[verdict]
    {
      TotalsAreSums(history);
      CountIsMultiplicity(history, verdict);
    }

    method Record(r: Result)
      requires Valid()
      modifies this
      ensures Valid() && history == old(history) + [r]
    {
      ghost var t := Totals(history);
      RunningIsMean(averages.quality, t.quality, totalRuns, r.quality);
      RunningIsMean(averages.cost, t.cost, totalRuns, r.cost);
      RunningIsMean(averages.time, t.time, totalRuns, r.time);
      RunningIsMean(averages.tokens, t.tokens, totalRuns, r.tokens);
      totalRuns := totalRuns + 1;
      distribution := distribution[r.verdict := Get(distribution, r.verdict) + 1];
      var n, a := totalRuns, averages;
      averages := Averages(Running(a.quality, n, r.quality), Running(a.cost, n, r.cost),
                           Running(a.time, n, r.time), Running(a.tokens, n, r.tokens));
      history := history + [r];
      assert Init(history) == old(history);
    }

    /** Updated averages and counts that fit the longer history make the object valid again. */
    ghost method Extend(more: seq<Result>)
      requires totalRuns == |history| + |more|
      requires AreMeans(averages, Plus(Totals(history), Totals(more)), totalRuns)
      requires forall v :: Get(distribution, v) == Count(history, v) + Count(more, v)
      modifies this`history
      ensures Valid() && history == old(history) + more
    {
      HistoriesAdd(history, more);
      history := history + more;
    }

    /** Merging is as if the other object's results had been recorded here one by one, also when an
        object is merged into itself. */
    method Merge(other: AutobenchMetrics)
      requires Valid() && other.Valid()
      modifies this
      ensures Valid() && history == old(history) + old(other.history)
    {
      if other.totalRuns == 0 {
        assert history + other.history == history;
        return;
      }
      BlendAllAreMeans(averages, Totals(history), totalRuns, other.averages, Totals(other.history), other.totalRuns);
      distribution := Added(distribution, other.distribution);
      averages := BlendAll(averages, totalRuns, other.averages, other.totalRuns);
      totalRuns := totalRuns + other.totalRuns;
      Extend(other.history);
    }
  }
}
