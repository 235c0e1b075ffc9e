/**
 Aggregation of judge votes: the insertion-ordered verdict counts, the consensus with its
 tie-breaking, and the dissent ratio.
 */
module Votes {
  import opened Options
  import opened RealFacts
  import opened Sequences

  datatype Verdict = CE | RE | TLE | MLE | WA | OK | VF | RV | RD | RT

  datatype Vote = Vote(slot: nat, verdict: Verdict, score: real, cost: real, time: real)

  /** One item of an insertion-ordered dictionary of counts. */
  datatype Entry = Entry(verdict: Verdict, count: nat)

  /** Where a key stands in the dictionary, or its length when the key is absent. */
  function KeyIndex(d: seq<Entry>, v: Verdict): (k: nat)
    ensures k <= |d| && (k < |d| ==> d[k].verdict == v)
    ensures forall i :: 0 <= i < k ==> d[i].verdict != v
  {
    if d == [] || d[0].verdict == v then 0 else 1 + KeyIndex(d[1..], v)
  }

  /** `d[v] = d.get(v, 0) + 1` on an insertion-ordered dictionary. */
  function Bump(d: seq<Entry>, v: Verdict): seq<Entry> {
    var k := KeyIndex(d, v);
    if k < |d| then d[k := Entry(v, d[k].count + 1)] else d + [Entry(v, 1)]
  }

  function Distribution(votes: seq<Vote>): seq<Entry> {
    if votes == [] then [] else Bump(Distribution(Init(votes)), Last(votes).verdict)
  }

  /** The first entry among those of largest count. */
  function FirstLargest(d: seq<Entry>): Entry
    requires d != []
  {
    if |d| == 1 then d[0]
    else
      var best := FirstLargest(Init(d));
      if Last(d).count > best.count then Last(d) else best
  }

  // ---- Meaning of the counts ---------------------------------------------------------------

  ghost predicate DistinctKeys(d: seq<Entry>) {
    forall i, j :: 0 <= i < j < |d| ==> d[i].verdict != d[j].verdict
  }

  function Count(votes: seq<Vote>, v: Verdict): nat {
    if votes == [] then 0 else Count(Init(votes), v) + if Last(votes).verdict == v then 1 else 0
  }

  lemma BumpEffect(d: seq<Entry>, v: Verdict)
    requires DistinctKeys(d)
    ensures DistinctKeys(Bump(d, v)) && Bump(d, v) != []
    ensures forall i :: 0 <= i < |d| ==> Bump(d, v)[i].verdict == d[i].verdict
    ensures forall w :: KeyIndex(d, w) < |d| || w == v ==> KeyIndex(Bump(d, v), w) < |Bump(d, v)|
  {
    var e, k := Bump(d, v), KeyIndex(d, v);
    assert e[k].verdict == v;
    forall w | KeyIndex(d, w) < |d| ensures KeyIndex(e, w) < |e| {
      assert e[KeyIndex(d, w)].verdict == w;
    }
  }

  /** The dictionary holds each occurring verdict once, with its number of votes. */
  lemma {:induction false} DistributionCounts(votes: seq<Vote>)
    ensures var d := Distribution(votes);
            && DistinctKeys(d) && (d == [] <==> votes == [])
            && (forall i :: 0 <= i < |d| ==> d[i].count == Count(votes, d[i].verdict) > 0)
            && (forall v :: Count(votes, v) > 0 ==> KeyIndex(d, v) < |d|)
    decreases |votes|
  {
    if votes != [] {
      var d, v := Distribution(Init(votes)), Last(votes).verdict;
      DistributionCounts(Init(votes));
      BumpEffect(d, v);
      assert KeyIndex(d, v) == |d| ==> Count(Init(votes), v) == 0;
      var e := Distribution(votes);
      forall i | 0 <= i < |e| ensures e[i].count == Count(votes, e[i].verdict) > 0 {
        assert i < |d| && i != KeyIndex(d, v) ==> d[i].verdict != v;
      }
    }
  }

  function Consensus(votes: seq<Vote>): Verdict
    requires votes != []
  {
    DistributionCounts(votes);
    FirstLargest(Distribution(votes)).verdict
  }

  /** Position of the first vote for `v`, or the number of votes if there is none. */
  function FirstAt(votes: seq<Vote>, v: Verdict): (i: nat)
    ensures i <= |votes|
  {
    if votes == [] then 0
    else
      var i := FirstAt(Init(votes), v);
      if i < |votes| - 1 then i else if Last(votes).verdict == v then |votes| - 1 else |votes|
  }

  function Total(d: seq<Entry>): nat {
    if d == [] then 0 else Total(Init(d)) + Last(d).count
  }

  lemma {:induction false} AbsentIsNowhere(votes: seq<Vote>, v: Verdict)
    ensures Count(votes, v) == 0 <==> FirstAt(votes, v) == |votes|
    decreases |votes|
  {
    if votes != [] {
      AbsentIsNowhere(Init(votes), v);
    }
  }

  /** Its keys stand in the order of first occurrence. */
  lemma {:induction false} DistributionOrder(votes: seq<Vote>)
    ensures var d := Distribution(votes);
            && (forall i :: 0 <= i < |d| ==> FirstAt(votes, d[i].verdict) < |votes|)
            && (forall i, j :: 0 <= i < j < |d| ==> FirstAt(votes, d[i].verdict) < FirstAt(votes, d[j].verdict))
    decreases |votes|
  {
    if votes != [] {
      var d, v := Distribution(Init(votes)), Last(votes).verdict;
      DistributionOrder(Init(votes));
      DistributionCounts(Init(votes));
      AbsentIsNowhere(Init(votes), v);
      var e := Distribution(votes);
      forall i | 0 <= i < |d| ensures FirstAt(votes, e[i].verdict) == FirstAt(Init(votes), d[i].verdict) {}
    }
  }

  lemma {:induction false} TotalOfUpdate(d: seq<Entry>, k: nat, e: Entry)
    requires k < |d|
    ensures Total(d[k := e]) == Total(d) - d[k].count + e.count
    decreases |d|
  {
    var init := Init(d);
    if k < |d| - 1 {
      assert Init(d[k := e]) == init[k := e];
      TotalOfUpdate(init, k, e);
    } else {
      assert Init(d[k := e]) == init;
    }
  }

  /** The counts add up to the number of votes. */
  lemma {:induction false} DistributionTotal(votes: seq<Vote>)
    ensures Total(Distribution(votes)) == |votes|
    decreases |votes|
  {
    if votes != [] {
      var d, v := Distribution(Init(votes)), Last(votes).verdict;
      DistributionTotal(Init(votes));
      var k := KeyIndex(d, v);
      if k < |d| {
        TotalOfUpdate(d, k, Entry(v, d[k].count + 1));
      } else {
        assert Bump(d, v)[..|d|] == d;
      }
    }
  }

  lemma {:induction false} FirstLargestWins(d: seq<Entry>) returns (k: nat)
    requires d != []
    ensures k < |d| && d[k] == FirstLargest(d)
    ensures forall i :: 0 <= i < |d| ==> d[i].count <= d[k].count
    ensures forall i :: 0 <= i < k ==> d[i].count < d[k].count
    decreases |d|
  {
    if |d| == 1 {
      k := 0;
    } else {
      k := FirstLargestWins(Init(d));
      if Last(d).count > FirstLargest(Init(d)).count {
        k := |d| - 1;
      }
    }
  }

  /** The consensus has the most votes; among equals it is the one voted for first. */
  lemma ConsensusIsFirstMajority(votes: seq<Vote>)
    requires votes != []
    ensures var c := Consensus(votes);
            && Count(votes, c) > 0
            && (forall v :: Count(votes, v) <= Count(votes, c))
            && (forall v :: v != c && Count(votes, v) == Count(votes, c) ==> FirstAt(votes, c) < FirstAt(votes, v))
  {
    DistributionCounts(votes);
    DistributionOrder(votes);
    var d, c := Distribution(votes), Consensus(votes);
    var k := FirstLargestWins(d);
    forall v
      ensures Count(votes, v) <= Count(votes, c)
      ensures v != c && Count(votes, v) == Count(votes, c) ==> FirstAt(votes, c) < FirstAt(votes, v)
    {
      if Count(votes, v) > 0 {
        var i := KeyIndex(d, v);
        assert d[i].count == Count(votes, v);
      }
    }
  }

  // ---- Dependence on the order of votes ----------------------------------------------------

  lemma {:induction false} CountSplits(a: seq<Vote>, b: seq<Vote>, v: Verdict)
    ensures Count(a + b, v) == Count(a, v) + Count(b, v)
    decreases |b|
  {
    if b == [] {
      assert a + b == a;
    } else {
      CountSplits(a, Init(b), v);
      assert Init(a + b) == a + Init(b);
    }
  }

  lemma RemoveAt(b: seq<Vote>, k: nat, v: Verdict)
    requires k < |b|
    ensures Count(b, v) == Count(b[..k] + b[k + 1..], v) + if b[k].verdict == v then 1 else 0
  {
    var x := b[k];
    assert b == b[..k] + [x] + b[k + 1..];
    CountSplits(b[..k], b[k + 1..], v);
    CountSplits(b[..k] + [x], b[k + 1..], v);
    CountSplits(b[..k], [x], v);
    assert Init([x]) == [];
  }

  lemma WithoutOne<T>(b: seq<T>, k: nat)
    requires k < |b|
    ensures multiset(b[..k] + b[k + 1..]) == multiset(b) - multiset{b[k]}
  {
    assert b == b[..k] + [b[k]] + b[k + 1..];
  }

  /** The last vote taken off one order of the votes, and off another where it stands there. */
  lemma TakeOff(a: seq<Vote>, b: seq<Vote>) returns (k: nat)
    requires multiset(a) == multiset(b) && a != []
    ensures k < |b| && b[k] == Last(a) && multiset(Init(a)) == multiset(b[..k] + b[k + 1..])
  {
    var x := Last(a);
    assert x in multiset(a);
    k :| 0 <= k < |b| && b[k] == x;
    WithoutOne(b, k);
    WithoutOne(a, |a| - 1);
    assert Init(a) == a[..|a| - 1] + a[|a|..];
  }

  lemma {:induction false} CountIgnoresOrder(a: seq<Vote>, b: seq<Vote>, v: Verdict)
    requires multiset(a) == multiset(b)
    ensures Count(a, v) == Count(b, v)
    decreases |a|
  {
    if a == [] {
      assert |multiset(b)| == 0;
      assert b == [];
    } else {
      var k := TakeOff(a, b);
      RemoveAt(b, k, v);
      CountIgnoresOrder(Init(a), b[..k] + b[k + 1..], v);
    }
  }

  ghost predicate UniqueMajority(votes: seq<Vote>)
    requires votes != []
  {
    forall v :: v != Consensus(votes) ==> Count(votes, v) < Count(votes, Consensus(votes))
  }

  lemma {:induction false} FirstAtIsThere(votes: seq<Vote>, v: Verdict)
    ensures FirstAt(votes, v) < |votes| ==> votes[FirstAt(votes, v)].verdict == v
    decreases |votes|
  {
    if votes != [] {
      FirstAtIsThere(Init(votes), v);
    }
  }

  lemma {:induction false} HeadIsFirst(votes: seq<Vote>, v: Verdict)
    requires votes != [] && votes[0].verdict == v
    ensures FirstAt(votes, v) == 0
    decreases |votes|
  {
    if |votes| > 1 {
      HeadIsFirst(Init(votes), v);
    }
  }

  lemma MoveToFront(votes: seq<Vote>, v: Verdict) returns (other: seq<Vote>)
    requires Count(votes, v) > 0
    ensures other != [] && multiset(other) == multiset(votes) && FirstAt(other, v) == 0
  {
    AbsentIsNowhere(votes, v);
    var k := FirstAt(votes, v);
    FirstAtIsThere(votes, v);
    other := [votes[k]] + votes[..k] + votes[k + 1..];
    assert votes == votes[..k] + [votes[k]] + votes[k + 1..];
    HeadIsFirst(other, v);
  }

  /** Every reordering of the votes has the same consensus exactly when no other verdict ties. */
  lemma OrderMattersExactlyOnTies(votes: seq<Vote>)
    requires votes != []
    ensures UniqueMajority(votes) <==>
            forall other: seq<Vote> :: multiset(other) == multiset(votes) && other != [] ==>
              Consensus(other) == Consensus(votes)
  {
    var c := Consensus(votes);
    if UniqueMajority(votes) {
      forall other: seq<Vote> | multiset(other) == multiset(votes) && other != []
        ensures Consensus(other) == c
      {
        ConsensusIsFirstMajority(other);
        CountIgnoresOrder(votes, other, c);
        CountIgnoresOrder(votes, other, Consensus(other));
      }
    } else {
      ConsensusIsFirstMajority(votes);
      var v :| v != c && Count(votes, v) >= Count(votes, c);
      var other := MoveToFront(votes, v);
      ConsensusIsFirstMajority(other);
      CountIgnoresOrder(votes, other, v);
      CountIgnoresOrder(votes, other, Consensus(other));
    }
  }

  // ---- Dissent -----------------------------------------------------------------------------

  function Dissent(votes: seq<Vote>): real {
    if votes == [] then 0.0
    else
      var ratio := 1.0 - Count(votes, Consensus(votes)) as real / |votes| as real;
      if ratio > 0.0 then ratio else 0.0
  }

  lemma {:induction false} CountAtMostAll(votes: seq<Vote>, v: Verdict)
    ensures Count(votes, v) <= |votes|
    ensures Count(votes, v) == |votes| <==> forall i :: 0 <= i < |votes| ==> votes[i].verdict == v
    decreases |votes|
  {
    if votes != [] {
      CountAtMostAll(Init(votes), v);
    }
  }

  lemma {:induction false} TotalAtMost(d: seq<Entry>, bound: nat)
    requires forall i :: 0 <= i < |d| ==> d[i].count <= bound
    ensures Total(d) <= |d| * bound
    decreases |d|
  {
    if d != [] {
      TotalAtMost(Init(d), bound);
    }
  }

  lemma ShareAtLeast(k: nat, part: nat, whole: nat)
    requires k > 0 && whole > 0 && whole <= k * part
    ensures part as real / whole as real >= 1.0 / k as real
  {
    assert (k * part) as real == k as real * part as real;
    QuotientAtLeast(part as real, whole as real, k as real);
  }

  lemma Unanimity(votes: seq<Vote>)
    requires votes != []
    ensures Count(votes, Consensus(votes)) == |votes| <==>
              forall i, j :: 0 <= i < |votes| && 0 <= j < |votes| ==> votes[i].verdict == votes[j].verdict
  {
    ConsensusIsFirstMajority(votes);
    CountAtMostAll(votes, Consensus(votes));
    CountAtMostAll(votes, votes[0].verdict);
  }

  /** Dissent is zero exactly for unanimous votes and at most 1 - 1/k for k distinct verdicts. */
  lemma DissentBounds(votes: seq<Vote>)
    requires votes != []
    ensures var k := |Distribution(votes)|; k > 0 && 0.0 <= Dissent(votes) <= 1.0 - 1.0 / k as real
    ensures Dissent(votes) == 0.0 <==>
              forall i, j :: 0 <= i < |votes| && 0 <= j < |votes| ==> votes[i].verdict == votes[j].verdict
  {
    var d, c := Distribution(votes), Consensus(votes);
    DistributionCounts(votes);
    DistributionTotal(votes);
    ConsensusIsFirstMajority(votes);
    TotalAtMost(d, Count(votes, c));
    CountAtMostAll(votes, c);
    Portion(Count(votes, c), |votes|);
    ShareAtLeast(|d|, Count(votes, c), |votes|);
    Unanimity(votes);
  }

  /** The votes for any other verdict. */
  function Against(votes: seq<Vote>, v: Verdict): seq<Vote> {
    if votes == [] then []
    else Against(Init(votes), v) + if Last(votes).verdict != v then [Last(votes)] else []
  }

  lemma {:induction false} ForAndAgainst(votes: seq<Vote>, v: Verdict)
    ensures |Against(votes, v)| + Count(votes, v) == |votes|
  {
    if votes != [] {
      ForAndAgainst(Init(votes), v);
    }
  }

  /** Dissent is the share of the votes that are not for the consensus. */
  lemma DissentIsShareAgainst(votes: seq<Vote>)
    requires votes != []
    ensures Dissent(votes) == |Against(votes, Consensus(votes))| as real / |votes| as real
  {
    var c := Consensus(votes);
    ForAndAgainst(votes, c);
    RestOfShare(Count(votes, c), |Against(votes, c)|, |votes|, Dissent(votes));
  }

  // ---- The loops ---------------------------------------------------------------------------

  function Scores(votes: seq<Vote>): seq<real> { seq(|votes|, i requires 0 <= i < |votes| => votes[i].score) }
  function Costs(votes: seq<Vote>): seq<real> { seq(|votes|, i requires 0 <= i < |votes| => votes[i].cost) }
  function Times(votes: seq<Vote>): seq<real> { seq(|votes|, i requires 0 <= i < |votes| => votes[i].time) }

  datatype Summary = Summary(verdict: Verdict, score: real, cost: real, time: real)

  function Aggregate(votes: seq<Vote>): Summary {
    if votes == [] then Summary(OK, 0.0, 0.5, 0.5)
    else
      Summary(Consensus(votes), Sum(Scores(votes)) / |votes| as real,
              Sum(Costs(votes)) / |votes| as real, Sum(Times(votes)) / |votes| as real)
  }

  // ---- What the means are ------------------------------------------------------------------

  function TotalScore(votes: seq<Vote>): real {
    if votes == [] then 0.0 else TotalScore(Init(votes)) + Last(votes).score
  }

  function TotalCost(votes: seq<Vote>): real {
    if votes == [] then 0.0 else TotalCost(Init(votes)) + Last(votes).cost
  }

  function TotalTime(votes: seq<Vote>): real {
    if votes == [] then 0.0 else TotalTime(Init(votes)) + Last(votes).time
  }

  predicate IsMean(mean: real, total: real, n: nat) {
    mean * n as real == total
  }

  /** The consensus is a verdict with most votes, the first of these to be voted for; each mean times
      the number of votes is the total of that field.  Without votes the defaults hold. */
  ghost predicate Summarises(s: Summary, votes: seq<Vote>) {
    if votes == [] then
      s.verdict == OK && s.score == 0.0 && s.cost == 0.5 && s.time == 0.5
    else
      && Count(votes, s.verdict) > 0
      && (forall v :: Count(votes, v) <= Count(votes, s.verdict))
      && (forall v :: v != s.verdict && Count(votes, v) == Count(votes, s.verdict) ==>
            FirstAt(votes, s.verdict) < FirstAt(votes, v))
      && IsMean(s.score, TotalScore(votes), |votes|)
      && IsMean(s.cost, TotalCost(votes), |votes|)
      && IsMean(s.time, TotalTime(votes), |votes|)
  }

  lemma {:induction false} TotalsAreSums(votes: seq<Vote>)
    ensures TotalScore(votes) == Sum(Scores(votes))
    ensures TotalCost(votes) == Sum(Costs(votes))
    ensures TotalTime(votes) == Sum(Times(votes))
  {
    if votes != [] {
      TotalsAreSums(Init(votes));
      assert Init(Scores(votes)) == Scores(Init(votes));
      assert Init(Costs(votes)) == Costs(Init(votes));
      assert Init(Times(votes)) == Times(Init(votes));
    }
  }

  lemma QuotientIsMean(total: real, n: nat)
    requires n > 0
    ensures IsMean(total / n as real, total, n)
  {}

  lemma AggregateSummarises(votes: seq<Vote>)
    ensures Summarises(Aggregate(votes), votes)
  {
    if votes != [] {
      TotalsAreSums(votes);
      ConsensusIsFirstMajority(votes);
      QuotientIsMean(TotalScore(votes), |votes|);
      QuotientIsMean(TotalCost(votes), |votes|);
      QuotientIsMean(TotalTime(votes), |votes|);
    }
  }

  /** A sum of numbers that are all at least `x`: it is `x` as many times exactly when all are `x`. */
  lemma {:induction false} SumAtLeast(xs: seq<real>, x: real)
    requires forall i :: 0 <= i < |xs| ==> x <= xs[i]
    ensures Repeated(x, |xs|) <= Sum(xs)
    ensures Repeated(x, |xs|) == Sum(xs) <==> forall i :: 0 <= i < |xs| ==> xs[i] == x
    decreases |xs|
  {
    if xs != [] {
      SumAtLeast(Init(xs), x);
    }
  }

  lemma {:induction false} SumAtMost(xs: seq<real>, x: real)
    requires forall i :: 0 <= i < |xs| ==> xs[i] <= x
    ensures Sum(xs) <= Repeated(x, |xs|)
    ensures Sum(xs) == Repeated(x, |xs|) <==> forall i :: 0 <= i < |xs| ==> xs[i] == x
    decreases |xs|
  {
    if xs != [] {
      SumAtMost(Init(xs), x);
    }
  }

  /** A mean lies between any bounds of the values and meets one exactly when all values do. */
  lemma MeanBetween(mean: real, xs: seq<real>, lo: real, hi: real)
    requires xs != [] && Repeated(mean, |xs|) == Sum(xs)
    requires forall i :: 0 <= i < |xs| ==> lo <= xs[i] <= hi
    ensures lo <= mean <= hi
    ensures mean == lo <==> forall i :: 0 <= i < |xs| ==> xs[i] == lo
    ensures mean == hi <==> forall i :: 0 <= i < |xs| ==> xs[i] == hi
  {
    SumAtLeast(xs, lo);
    SumAtMost(xs, hi);
    RepeatedCompare(lo, mean, |xs|);
    RepeatedCompare(mean, hi, |xs|);
  }

  /** So for the three means of a summary, each with the values of its own field. */
  lemma MeanScoreBetween(s: Summary, votes: seq<Vote>, lo: real, hi: real)
    requires votes != [] && Summarises(s, votes)
    requires forall i :: 0 <= i < |votes| ==> lo <= votes[i].score <= hi
    ensures lo <= s.score <= hi
    ensures s.score == lo <==> forall i :: 0 <= i < |votes| ==> votes[i].score == lo
    ensures s.score == hi <==> forall i :: 0 <= i < |votes| ==> votes[i].score == hi
  {
    TotalsAreSums(votes);
    RepeatedIsProduct(s.score, |votes|);
    MeanBetween(s.score, Scores(votes), lo, hi);
    assert forall i :: 0 <= i < |votes| ==> Scores(votes)[i] == votes[i].score;
  }

  lemma MeanCostBetween(s: Summary, votes: seq<Vote>, lo: real, hi: real)
    requires votes != [] && Summarises(s, votes)
    requires forall i :: 0 <= i < |votes| ==> lo <= votes[i].cost <= hi
    ensures lo <= s.cost <= hi
    ensures s.cost == lo <==> forall i :: 0 <= i < |votes| ==> votes[i].cost == lo
    ensures s.cost == hi <==> forall i :: 0 <= i < |votes| ==> votes[i].cost == hi
  {
    TotalsAreSums(votes);
    RepeatedIsProduct(s.cost, |votes|);
    MeanBetween(s.cost, Costs(votes), lo, hi);
    assert forall i :: 0 <= i < |votes| ==> Costs(votes)[i] == votes[i].cost;
  }

  lemma MeanTimeBetween(s: Summary, votes: seq<Vote>, lo: real, hi: real)
    requires votes != [] && Summarises(s, votes)
    requires forall i :: 0 <= i < |votes| ==> lo <= votes[i].time <= hi
    ensures lo <= s.time <= hi
    ensures s.time == lo <==> forall i :: 0 <= i < |votes| ==> votes[i].time == lo
    ensures s.time == hi <==> forall i :: 0 <= i < |votes| ==> votes[i].time == hi
  {
    TotalsAreSums(votes);
    RepeatedIsProduct(s.time, |votes|);
    MeanBetween(s.time, Times(votes), lo, hi);
    assert forall i :: 0 <= i < |votes| ==> Times(votes)[i] == votes[i].time;
  }

  lemma {:induction false} TotalsSplit(a: seq<Vote>, b: seq<Vote>)
    ensures TotalScore(a + b) == TotalScore(a) + TotalScore(b)
    ensures TotalCost(a + b) == TotalCost(a) + TotalCost(b)
    ensures TotalTime(a + b) == TotalTime(a) + TotalTime(b)
    decreases |b|
  {
    if b == [] {
      assert a + b == a;
    } else {
      TotalsSplit(a, Init(b));
      assert Init(a + b) == a + Init(b);
    }
  }

  lemma RemoveFromTotals(b: seq<Vote>, k: nat)
    requires k < |b|
    ensures var rest := b[..k] + b[k + 1..];
            && TotalScore(b) == TotalScore(rest) + b[k].score
            && TotalCost(b) == TotalCost(rest) + b[k].cost
            && TotalTime(b) == TotalTime(rest) + b[k].time
  {
    var x := b[k];
    assert b == b[..k] + [x] + b[k + 1..];
    TotalsSplit(b[..k] + [x], b[k + 1..]);
    TotalsSplit(b[..k], [x]);
    TotalsSplit(b[..k], b[k + 1..]);
    assert Init([x]) == [];
  }

  lemma {:induction false} TotalsIgnoreOrder(a: seq<Vote>, b: seq<Vote>)
    requires multiset(a) == multiset(b)
    ensures |a| == |b|
    ensures TotalScore(a) == TotalScore(b) && TotalCost(a) == TotalCost(b) && TotalTime(a) == TotalTime(b)
    decreases |a|
  {
    if a == [] {
      assert |multiset(b)| == 0;
      assert b == [];
    } else {
      var k := TakeOff(a, b);
      RemoveFromTotals(b, k);
      TotalsIgnoreOrder(Init(a), b[..k] + b[k + 1..]);
    }
  }

  lemma SameTotalSameMean(a: real, b: real, total: real, n: nat)
    requires n > 0 && IsMean(a, total, n) && IsMean(b, total, n)
    ensures a == b
  {
    RepeatedIsProduct(a, n);
    RepeatedIsProduct(b, n);
    RepeatedCompare(a, b, n);
  }

  /** The means do not depend on the order of the votes. */
  lemma MeansIgnoreOrder(s: Summary, votes: seq<Vote>, s': Summary, votes': seq<Vote>)
    requires Summarises(s, votes) && Summarises(s', votes') && multiset(votes) == multiset(votes')
    ensures s.score == s'.score && s.cost == s'.cost && s.time == s'.time
  {
    TotalsIgnoreOrder(votes, votes');
    if votes != [] {
      SameTotalSameMean(s.score, s'.score, TotalScore(votes), |votes|);
      SameTotalSameMean(s.cost, s'.cost, TotalCost(votes), |votes|);
      SameTotalSameMean(s.time, s'.time, TotalTime(votes), |votes|);
    }
  }

  /** One vote is summarised by its own fields. */
  lemma OneVoteIsItself(s: Summary, v: Vote)
    requires Summarises(s, [v])
    ensures s == Summary(v.verdict, v.score, v.cost, v.time)
  {
    assert Init([v]) == [] && Last([v]) == v;
    assert Count([v], s.verdict) == if v.verdict == s.verdict then 1 else 0;
    assert TotalScore([v]) == v.score && TotalCost([v]) == v.cost && TotalTime([v]) == v.time;
  }

  method CountVerdicts(votes: seq<Vote>) returns (d: seq<Entry>)
    ensures d == Distribution(votes)
  {
    d := [];
    var i := 0;
    while i < |votes|
      invariant 0 <= i <= |votes|
      invariant d == Distribution(votes[..i])
    {
      assert Init(votes[..i + 1]) == votes[..i];
      d := Bump(d, votes[i].verdict);
      i := i + 1;
    }
    assert votes[..i] == votes;
  }

  /** The first entry with the largest count. */
  method MostCommon(counts: seq<Entry>) returns (best: Entry)
    requires counts != []
    ensures best == FirstLargest(counts)
  {
    best := counts[0];
    var i := 1;
    assert counts[..1] == [counts[0]];
    while i < |counts|
      invariant 1 <= i <= |counts|
      invariant best == FirstLargest(counts[..i])
    {
      assert Init(counts[..i + 1]) == counts[..i];
      if counts[i].count > best.count {
        best := counts[i];
      }
      i := i + 1;
    }
    assert counts[..i] == counts;
  }

  method AggregateVotes(votes: seq<Vote>) returns (s: Summary)
    ensures s == Aggregate(votes) && Summarises(s, votes)
  {
    AggregateSummarises(votes);
    if votes == [] {
      return Summary(OK, 0.0, 0.5, 0.5);
    }
    var counts := CountVerdicts(votes);
    DistributionCounts(votes);
    var best := MostCommon(counts);
    var n := |votes| as real;
    s := Summary(best.verdict, Sum(Scores(votes)) / n, Sum(Costs(votes)) / n, Sum(Times(votes)) / n);
  }
}
