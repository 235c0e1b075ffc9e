/**
 Predictions about verdict counts: clipping to feasible deltas, live refutation while cases
 arrive, and compaction of duplicates.
 */
module PredictionContract {
  import opened Counts
  import opened Options
  import opened Sequences

  /** A predicted delta as it came from the model; `Garbage` is what `int()` rejects. */
  datatype Delta = Whole(n: int) | Garbage

  /** One item of the predicted changes, in dictionary order. */
  datatype Change = Change(verdict: string, delta: Delta)

  datatype Prediction = Prediction(scoreDelta: real, changes: seq<Change>, confidence: real, rationale: string,
                                   active: bool, parentId: Option<string>, factFingerprint: Option<string>,
                                   predictionId: string)

  // ---- The two bounds ----------------------------------------------------------------------

  const Z_SCORE := 1.645

  /** All that matters of the square root here. */
  ghost predicate RootOfZero(root: real -> real) {
    root(0.0) == 0.0
  }

  function PriorRate(prior: nat): real {
    prior as real / (if prior >= 1 then prior else 1) as real
  }

  function NonNegative(x: real): real { if x > 0.0 then x else 0.0 }

  function Ceiling(x: real): int { -((-x).Floor) }

  function MaxAchievable(actual: nat, prior: nat, remaining: nat, root: real -> real): int {
    if remaining <= 0 then actual - prior
    else
      var rate := PriorRate(prior);
      var expectedNew := remaining as real * rate;
      var deviation := root(NonNegative(remaining as real * rate * (1.0 - rate)));
      actual + (expectedNew + Z_SCORE * deviation).Floor - prior
  }

  function MinAchievable(actual: nat, prior: nat, remaining: nat, root: real -> real): int {
    if remaining <= 0 then actual - prior
    else
      var rate := PriorRate(prior);
      var nonRate := 1.0 - rate;
      var expectedNon := remaining as real * nonRate;
      var deviation := root(NonNegative(remaining as real * nonRate * rate));
      actual - Ceiling(expectedNon - Z_SCORE * deviation) - prior
  }

  /** The prior rate is always 0 or 1, so the deviation vanishes and both bounds are whole numbers. */
  lemma BoundsInClosedForm(actual: nat, prior: nat, remaining: nat, root: real -> real)
    requires RootOfZero(root)
    ensures MaxAchievable(actual, prior, remaining, root)
         == if prior == 0 then actual else actual + remaining - prior
    ensures MinAchievable(actual, prior, remaining, root)
         == if prior == 0 then actual - remaining else actual - prior
  {
    var rate := PriorRate(prior);
    assert rate == if prior == 0 then 0.0 else 1.0;
    assert rate * (1.0 - rate) == 0.0;
    assert remaining as real * rate * (1.0 - rate) == 0.0;
    assert remaining as real * (1.0 - rate) * rate == 0.0;
  }

  /** The test applied to one predicted delta; zero is not an assertion. */
  predicate Refutes(delta: int, actual: nat, prior: nat, remaining: nat, root: real -> real) {
    || (delta > 0 && delta > MaxAchievable(actual, prior, remaining, root))
    || (delta < 0 && delta < MinAchievable(actual, prior, remaining, root))
  }

  // ---- What can still happen ---------------------------------------------------------------

  function Count(cases: seq<string>, verdict: string): nat {
    if cases == [] then 0
    else Count(Init(cases), verdict) + if Last(cases) == verdict then 1 else 0
  }

  /** The actual delta goes at least as far as predicted, in the predicted direction. */
  predicate Meets(delta: int, actual: int) {
    (delta > 0 ==> actual >= delta) && (delta < 0 ==> actual <= delta)
  }

  /** Some assignment of verdicts to the remaining cases meets the prediction. */
  ghost predicate Achievable(verdict: string, delta: int, actual: nat, prior: nat, remaining: nat) {
    exists cases: seq<string> :: |cases| == remaining && Meets(delta, actual + Count(cases, verdict) - prior)
  }

  lemma {:induction false} CountAtMostLength(cases: seq<string>, verdict: string)
    ensures Count(cases, verdict) <= |cases|
  {
    if cases != [] {
      CountAtMostLength(Init(cases), verdict);
    }
  }

  /** Every count up to the number of cases is possible. */
  lemma {:induction false} AnyCountIsPossible(verdict: string, remaining: nat, hits: nat) returns (cases: seq<string>)
    requires hits <= remaining
    ensures |cases| == remaining && Count(cases, verdict) == hits
  {
    if remaining == 0 {
      cases := [];
    } else if hits > 0 {
      var init := AnyCountIsPossible(verdict, remaining - 1, hits - 1);
      cases := init + [verdict];
      assert cases[..remaining - 1] == init;
    } else {
      var init := AnyCountIsPossible(verdict, remaining - 1, 0);
      var other := verdict + "x";
      cases := init + [other];
      assert cases[..remaining - 1] == init && |other| != |verdict|;
    }
  }

  lemma AchievableExactly(verdict: string, delta: int, actual: nat, prior: nat, remaining: nat)
    requires delta != 0
    ensures Achievable(verdict, delta, actual, prior, remaining)
       <==> Meets(delta, if delta > 0 then actual + remaining - prior else actual - prior)
  {
    var best := if delta > 0 then remaining else 0;
    var witness' := AnyCountIsPossible(verdict, remaining, best);
    forall cases: seq<string> | |cases| == remaining
      ensures Meets(delta, actual + Count(cases, verdict) - prior) ==> Meets(delta, actual + best - prior)
    {
      CountAtMostLength(cases, verdict);
    }
    assert Count(witness', verdict) == best;
  }

  /** A rise from baseline zero beyond the count so far that the remaining cases can still supply. */
  predicate TooEarly(delta: int, actual: nat, prior: nat, remaining: nat) {
    prior == 0 && actual < delta <= actual + remaining
  }

  /** A fall below a baseline of zero, which can never happen, of a size the bound lets pass. */
  predicate Missed(delta: int, actual: nat, prior: nat, remaining: nat) {
    prior == 0 && actual - remaining <= delta < 0
  }

  /** A delta that is out of reach and is recognised as such. */
  predicate Hopeless(delta: int, actual: nat, prior: nat, remaining: nat) {
    || (delta > 0 && delta > actual + remaining - prior)
    || (delta < 0 && delta < actual - if prior == 0 then remaining else prior)
  }

  /** The test and what can still happen agree except in exactly two situations, both with baseline
      zero: it refutes too early, or it misses a fall that cannot happen. */
  lemma RefutesExactly(verdict: string, delta: int, actual: nat, prior: nat, remaining: nat, root: real -> real)
    requires RootOfZero(root) && delta != 0
    ensures var refuted, lost := Refutes(delta, actual, prior, remaining, root),
                                 !Achievable(verdict, delta, actual, prior, remaining);
            && (refuted && !lost <==> TooEarly(delta, actual, prior, remaining))
            && (!refuted && lost <==> Missed(delta, actual, prior, remaining))
            && (refuted && lost <==> Hopeless(delta, actual, prior, remaining))
            && ((refuted <==> lost) <==>
                  !TooEarly(delta, actual, prior, remaining) && !Missed(delta, actual, prior, remaining))
  {
    BoundsInClosedForm(actual, prior, remaining, root);
    AchievableExactly(verdict, delta, actual, prior, remaining);
  }

  /** With no case left the test is exact: it refutes iff the actual delta falls short. */
  lemma FinalRefutationExactly(delta: int, actual: nat, prior: nat, root: real -> real)
    requires RootOfZero(root) && delta != 0
    ensures Refutes(delta, actual, prior, 0, root) <==> !Meets(delta, actual - prior)
  {
    BoundsInClosedForm(actual, prior, 0, root);
  }

  /** The next case lifts a refutation in exactly one situation, again with baseline zero. */
  lemma RefutationLiftedExactly(verdict: string, delta: int, actual: nat, prior: nat, remaining: nat, next: string,
                                root: real -> real)
    requires RootOfZero(root) && remaining >= 1
    requires Refutes(delta, actual, prior, remaining, root)
    ensures !Refutes(delta, actual + Count([next], verdict), prior, remaining - 1, root)
       <==> prior == 0 && delta == actual + 1 && next == verdict
  {
    BoundsInClosedForm(actual, prior, remaining, root);
    assert [next][..0] == [];
    var actual' := actual + Count([next], verdict);
    BoundsInClosedForm(actual', prior, remaining - 1, root);
  }

  lemma {:induction false} CountAdds(a: seq<string>, b: seq<string>, verdict: string)
    ensures Count(a + b, verdict) == Count(a, verdict) + Count(b, verdict)
    decreases |b|
  {
    if b == [] {
      assert a + b == a;
    } else {
      var init := Init(b);
      CountAdds(a, init, verdict);
      assert Init(a + b) == a + init;
    }
  }

  /** Outside that situation a refutation is permanent: it survives every continuation. */
  lemma RefutationIsPermanent(verdict: string, delta: int, actual: nat, prior: nat, arrived: seq<string>,
                              remaining: nat, root: real -> real)
    requires RootOfZero(root) && |arrived| <= remaining
    requires delta < 0 || prior >= 1
    requires Refutes(delta, actual, prior, remaining, root)
    ensures Refutes(delta, actual + Count(arrived, verdict), prior, remaining - |arrived|, root)
  {
    CountAtMostLength(arrived, verdict);
    BoundsInClosedForm(actual, prior, remaining, root);
    BoundsInClosedForm(actual + Count(arrived, verdict), prior, remaining - |arrived|, root);
  }

  // ---- The refutation loop -----------------------------------------------------------------

  predicate RefutesChange(c: Change, actuals: Counts, prior: Counts, remaining: nat, root: real -> real) {
    c.delta.Whole? && Refutes(c.delta.n, Get(actuals, c.verdict), Get(prior, c.verdict), remaining, root)
  }

  function RefutedVerdicts(changes: seq<Change>, actuals: Counts, prior: Counts, remaining: nat,
                           root: real -> real): (r: seq<string>)
    ensures r != [] <==> exists i :: 0 <= i < |changes| && RefutesChange(changes[i], actuals, prior, remaining, root)
  {
    if changes == [] then []
    else
      var init, last := Init(changes), Last(changes);
      assert changes == init + [last];
      RefutedVerdicts(init, actuals, prior, remaining, root)
      + if RefutesChange(last, actuals, prior, remaining, root) then [last.verdict] else []
  }

  /** Some asserted delta has become unachievable. */
  ghost predicate Fails(changes: seq<Change>, actuals: Counts, prior: Counts, remaining: nat) {
    exists i :: 0 <= i < |changes| && changes[i].delta.Whole? && changes[i].delta.n != 0 &&
      !Achievable(changes[i].verdict, changes[i].delta.n, Get(actuals, changes[i].verdict),
                  Get(prior, changes[i].verdict), remaining)
  }

  /** Some delta is in the given one of the three situations above. */
  predicate Any(changes: seq<Change>, actuals: Counts, prior: Counts, remaining: nat,
                situation: (int, nat, nat, nat) -> bool)
  {
    exists i :: 0 <= i < |changes| && changes[i].delta.Whole? &&
      situation(changes[i].delta.n, Get(actuals, changes[i].verdict), Get(prior, changes[i].verdict), remaining)
  }

  /** A prediction is judged rightly when one of its deltas is recognised as hopeless, or when it
      contains both kinds of misjudgement or neither. */
  predicate JudgedRightly(changes: seq<Change>, actuals: Counts, prior: Counts, remaining: nat) {
    || Any(changes, actuals, prior, remaining, Hopeless)
    || (Any(changes, actuals, prior, remaining, TooEarly) <==> Any(changes, actuals, prior, remaining, Missed))
  }

  /** The refutation and the fact that some delta has become unachievable coincide if and only if
      the prediction is judged rightly. */
  lemma LiveRefutationExactly(changes: seq<Change>, actuals: Counts, prior: Counts, remaining: nat, root: real -> real)
    requires RootOfZero(root)
    ensures var refuted, fails := RefutedVerdicts(changes, actuals, prior, remaining, root) != [],
                                  Fails(changes, actuals, prior, remaining);
            (refuted <==> fails) <==> JudgedRightly(changes, actuals, prior, remaining)
  {
    forall i | 0 <= i < |changes| && changes[i].delta.Whole? && changes[i].delta.n != 0
      ensures var d, a, p := changes[i].delta.n, Get(actuals, changes[i].verdict), Get(prior, changes[i].verdict);
              && (Refutes(d, a, p, remaining, root) <==> Hopeless(d, a, p, remaining) || TooEarly(d, a, p, remaining))
              && (Achievable(changes[i].verdict, d, a, p, remaining) <==>
                    !Hopeless(d, a, p, remaining) && !Missed(d, a, p, remaining))
    {
      var c := changes[i];
      RefutesExactly(c.verdict, c.delta.n, Get(actuals, c.verdict), Get(prior, c.verdict), remaining, root);
    }
    assert RefutedVerdicts(changes, actuals, prior, remaining, root) != [] <==>
      Any(changes, actuals, prior, remaining, Hopeless) || Any(changes, actuals, prior, remaining, TooEarly);
    assert Fails(changes, actuals, prior, remaining) <==>
      Any(changes, actuals, prior, remaining, Hopeless) || Any(changes, actuals, prior, remaining, Missed);
  }

  datatype Status = Status(isRefuted: bool, reasons: seq<string>, remaining: nat, confidenceAtRefute: Option<real>)

  /** The test as the loop performs it on one item. */
  method Judge(c: Change, actuals: Counts, prior: Counts, remaining: nat, root: real -> real) returns (refuted: bool)
    ensures refuted <==> RefutesChange(c, actuals, prior, remaining, root)
  {
    if c.delta.Garbage? || c.delta.n == 0 {
      return false;
    }
    var actual, base := Get(actuals, c.verdict), Get(prior, c.verdict);
    if c.delta.n > 0 {
      refuted := c.delta.n > MaxAchievable(actual, base, remaining, root);
    } else {
      refuted := c.delta.n < MinAchievable(actual, base, remaining, root);
    }
  }

  method CollectReasons(changes: seq<Change>, actuals: Counts, prior: Counts, remaining: nat, root: real -> real)
    returns (reasons: seq<string>)
    ensures reasons == RefutedVerdicts(changes, actuals, prior, remaining, root)
  {
    reasons := [];
    var i := 0;
    while i < |changes|
      invariant 0 <= i <= |changes|
      invariant reasons == RefutedVerdicts(changes[..i], actuals, prior, remaining, root)
    {
      assert changes[..i + 1][..i] == changes[..i];
      var refuted := Judge(changes[i], actuals, prior, remaining, root);
      if refuted {
        reasons := reasons + [changes[i].verdict];
      }
      i := i + 1;
    }
    assert changes[..i] == changes;
  }

  method RefuteLive(prediction: Prediction, actuals: Counts, remainingCases: int, prior: Counts, root: real -> real)
    returns (status: Status)
    ensures status.remaining == if remainingCases > 0 then remainingCases else 0
    ensures status.reasons == RefutedVerdicts(prediction.changes, actuals, prior, status.remaining, root)
    ensures status.isRefuted <==>
              exists i :: 0 <= i < |prediction.changes| &&
                RefutesChange(prediction.changes[i], actuals, prior, status.remaining, root)
    ensures status.confidenceAtRefute == if status.isRefuted then Some(prediction.confidence) else None
    ensures RootOfZero(root) ==>
              ((status.isRefuted <==> Fails(prediction.changes, actuals, prior, status.remaining)) <==>
                 JudgedRightly(prediction.changes, actuals, prior, status.remaining))
  {
    var changes := prediction.changes;
    var remaining := if remainingCases > 0 then remainingCases else 0;
    var reasons := CollectReasons(changes, actuals, prior, remaining, root);
    var isRefuted := reasons != [];
    if RootOfZero(root) {
      LiveRefutationExactly(changes, actuals, prior, remaining, root);
    }
    status := Status(isRefuted, reasons, remaining, if isRefuted then Some(prediction.confidence) else None);
  }

  /** A refuted prediction cannot come true: no outcome of the remaining cases meets all of its
      deltas, unless a rise of a baseline-zero verdict is among them. */
  lemma RefutedPredictionFails(changes: seq<Change>, actuals: Counts, prior: Counts, remaining: nat,
                               root: real -> real, outcome: seq<string>)
    requires RootOfZero(root) && |outcome| == remaining
    requires RefutedVerdicts(changes, actuals, prior, remaining, root) != []
    requires forall i :: 0 <= i < |changes| && changes[i].delta.Whole? && changes[i].delta.n > 0 ==>
               Get(prior, changes[i].verdict) >= 1
    ensures exists i :: 0 <= i < |changes| && changes[i].delta.Whole?
              && !Meets(changes[i].delta.n, Get(actuals, changes[i].verdict) + Count(outcome, changes[i].verdict)
                                            - Get(prior, changes[i].verdict))
  {
    var i :| 0 <= i < |changes| && RefutesChange(changes[i], actuals, prior, remaining, root);
    var c := changes[i];
    RefutesExactly(c.verdict, c.delta.n, Get(actuals, c.verdict), Get(prior, c.verdict), remaining, root);
    assert !Achievable(c.verdict, c.delta.n, Get(actuals, c.verdict), Get(prior, c.verdict), remaining);
  }

  // ---- Clipping ----------------------------------------------------------------------------

  function Distance(a: int, b: int): nat { if a <= b then b - a else a - b }

  function ClipDelta(delta: int, prior: nat, cases: nat): (r: int)
    ensures 0 - prior <= r <= cases - prior
    ensures forall d :: 0 - prior <= d <= cases - prior ==> Distance(r, delta) <= Distance(d, delta)
    ensures r == delta <==> 0 - prior <= delta <= cases - prior
  {
    if delta > cases - prior then cases - prior
    else if delta < 0 - prior then 0 - prior
    else delta
  }

  /** Unparseable entries are dropped, all others clipped, in order. */
  function ClipChanges(changes: seq<Change>, prior: Counts, cases: nat): seq<Change> {
    if changes == [] then []
    else
      var c := Last(changes);
      ClipChanges(Init(changes), prior, cases)
      + match c.delta
        case Whole(n) => [Change(c.verdict, Whole(ClipDelta(n, Get(prior, c.verdict), cases)))]
        case Garbage => []
  }

  predicate Feasible(c: Change, prior: Counts, cases: nat) {
    c.delta.Whole? && 0 - Get(prior, c.verdict) <= c.delta.n <= cases - Get(prior, c.verdict)
  }

  /** The verdicts of the entries that are not feasible, in order. */
  function Infeasible(changes: seq<Change>, prior: Counts, cases: nat): seq<string> {
    if changes == [] then []
    else
      Infeasible(Init(changes), prior, cases)
      + if Feasible(Last(changes), prior, cases) then [] else [Last(changes).verdict]
  }

  lemma InfeasibleNext(changes: seq<Change>, i: nat, prior: Counts, cases: nat)
    requires i < |changes|
    ensures Infeasible(changes[..i + 1], prior, cases)
         == Infeasible(changes[..i], prior, cases)
            + if Feasible(changes[i], prior, cases) then [] else [changes[i].verdict]
  {
    assert changes[..i + 1][..i] == changes[..i];
  }

  /** Clips one delta and says whether that changed it. */
  method ClipOne(delta: int, base: int, cases: int) returns (kept: int, reason: bool)
    requires base >= 0 && cases >= 0
    ensures kept == ClipDelta(delta, base, cases)
    ensures reason <==> kept != delta
  {
    var max, min := cases - base, -base;
    if delta > max {
      kept, reason := max, true;
    } else if delta < min {
      kept, reason := min, true;
    } else {
      kept, reason := delta, false;
    }
  }

  lemma ClipNext(changes: seq<Change>, i: nat, prior: Counts, cases: nat)
    requires i < |changes|
    ensures changes[..i + 1] == changes[..i] + [changes[i]]
    ensures ClipChanges(changes[..i + 1], prior, cases) == ClipChanges(changes[..i], prior, cases)
      + match changes[i].delta
        case Whole(n) => [Change(changes[i].verdict, Whole(ClipDelta(n, Get(prior, changes[i].verdict), cases)))]
        case Garbage => []
  {
    assert changes[..i + 1][..i] == changes[..i];
  }

  lemma SnocEquals<T>(a: seq<T>, x: T, b: seq<T>, y: T)
    ensures a + [x] == b + [y] <==> a == b && x == y
  {
    if a + [x] == b + [y] {
      assert (a + [x])[..|a|] == a && (b + [y])[..|b|] == b && |a + [x]| == |b + [y]|;
      assert (a + [x])[|a|] == x;
    }
  }

  method ClipAll(changes: seq<Change>, prior: Counts, cases: nat) returns (out: seq<Change>, reasons: seq<string>)
    ensures out == ClipChanges(changes, prior, cases)
    ensures reasons == Infeasible(changes, prior, cases)
    ensures reasons == [] <==> out == changes
  {
    out, reasons := [], [];
    var i := 0;
    while i < |changes|
      invariant 0 <= i <= |changes|
      invariant out == ClipChanges(changes[..i], prior, cases)
      invariant |out| <= i
      invariant reasons == Infeasible(changes[..i], prior, cases)
      invariant reasons == [] <==> out == changes[..i]
    {
      var c := changes[i];
      InfeasibleNext(changes, i, prior, cases);
      ClipNext(changes, i, prior, cases);
      match c.delta {
        case Garbage =>
          reasons := reasons + [c.verdict];
        case Whole(d) =>
          var kept, reason := ClipOne(d, Get(prior, c.verdict), cases);
          if reason {
            reasons := reasons + [c.verdict];
          }
          SnocEquals(out, Change(c.verdict, Whole(kept)), changes[..i], c);
          out := out + [Change(c.verdict, Whole(kept))];
      }
      i := i + 1;
    }
    assert changes[..i] == changes;
  }

  method ClipPrediction(prediction: Prediction, prior: Counts, numCases: int)
    returns (clipped: Prediction, reasons: seq<string>)
    ensures var n := if numCases > 0 then numCases else 0;
            && clipped == prediction.(changes := ClipChanges(prediction.changes, prior, n))
            && reasons == Infeasible(prediction.changes, prior, n)
    ensures reasons == [] <==> clipped == prediction
  {
    var changes := prediction.changes;
    if changes == [] {
      return prediction, [];
    }
    var n := if numCases > 0 then numCases else 0;
    var out;
    out, reasons := ClipAll(changes, prior, n);
    clipped := Prediction(prediction.scoreDelta, out, prediction.confidence, prediction.rationale,
                          prediction.active, prediction.parentId, prediction.factFingerprint, prediction.predictionId);
  }

  lemma {:induction false} ClippedIsFeasible(changes: seq<Change>, prior: Counts, cases: nat)
    ensures forall i :: 0 <= i < |ClipChanges(changes, prior, cases)| ==>
              Feasible(ClipChanges(changes, prior, cases)[i], prior, cases)
  {
    if changes != [] {
      ClippedIsFeasible(Init(changes), prior, cases);
    }
  }

  lemma {:induction false} FeasibleIsUnchanged(changes: seq<Change>, prior: Counts, cases: nat)
    requires forall i :: 0 <= i < |changes| ==> Feasible(changes[i], prior, cases)
    ensures ClipChanges(changes, prior, cases) == changes
  {
    if changes != [] {
      FeasibleIsUnchanged(Init(changes), prior, cases);
      assert changes == Init(changes) + [Last(changes)];
    }
  }

  lemma ClippingTwiceIsClippingOnce(changes: seq<Change>, prior: Counts, cases: nat)
    ensures ClipChanges(ClipChanges(changes, prior, cases), prior, cases) == ClipChanges(changes, prior, cases)
  {
    ClippedIsFeasible(changes, prior, cases);
    FeasibleIsUnchanged(ClipChanges(changes, prior, cases), prior, cases);
  }

  /** A delta is feasible exactly when some outcome of all the cases produces it. */
  lemma FeasibleMeansAttainable(verdict: string, delta: int, prior: nat, cases: nat)
    ensures 0 - prior <= delta <= cases - prior
       <==> exists outcome: seq<string> :: |outcome| == cases && Count(outcome, verdict) - prior == delta
  {
    forall outcome: seq<string> | |outcome| == cases ensures Count(outcome, verdict) <= cases {
      CountAtMostLength(outcome, verdict);
    }
    if 0 - prior <= delta <= cases - prior {
      var outcome := AnyCountIsPossible(verdict, cases, prior + delta);
    }
  }

  /** Before the first case, a clipped prediction is refuted exactly when it still predicts a rise
      of a verdict with baseline zero. */
  lemma ClippedMeetsRefutation(changes: seq<Change>, prior: Counts, cases: nat, root: real -> real)
    requires RootOfZero(root)
    ensures RefutedVerdicts(ClipChanges(changes, prior, cases), map[], prior, cases, root) != []
       <==> exists c :: && c in ClipChanges(changes, prior, cases) && c.delta.Whole? && c.delta.n > 0
                        && Get(prior, c.verdict) == 0
  {
    var clipped := ClipChanges(changes, prior, cases);
    ClippedIsFeasible(changes, prior, cases);
    forall i | 0 <= i < |clipped|
      ensures RefutesChange(clipped[i], map[], prior, cases, root)
         <==> clipped[i].delta.n > 0 && Get(prior, clipped[i].verdict) == 0
    {
      assert Feasible(clipped[i], prior, cases);
      BoundsInClosedForm(0, Get(prior, clipped[i].verdict), cases, root);
    }
  }

  // ---- Compaction --------------------------------------------------------------------------

  datatype Lifecycle = Current | Duplicate

  class StoredPrediction {
    const id: string
    const confidence: real
    const factFingerprint: Option<string>
    /** The hash of the normalised content. */
    const computedFingerprint: string
    var active: bool
    var lifecycle: Lifecycle

    function Fingerprint(): string {
      if factFingerprint.Some? then factFingerprint.value else computedFingerprint
    }

    constructor (id: string, confidence: real, factFingerprint: Option<string>, computedFingerprint: string)
      ensures this.id == id && this.confidence == confidence && active && lifecycle == Current
      ensures this.factFingerprint == factFingerprint && this.computedFingerprint == computedFingerprint
    {
      this.id, this.confidence := id, confidence;
      this.factFingerprint, this.computedFingerprint := factFingerprint, computedFingerprint;
      active, lifecycle := true, Current;
    }
  }

  function Insert(p: StoredPrediction, ranked: seq<StoredPrediction>): seq<StoredPrediction> {
    if ranked == [] || p.confidence >= ranked[0].confidence then [p] + ranked
    else [ranked[0]] + Insert(p, ranked[1..])
  }

  /** Stable sort by falling confidence. */
  function Ranked(ps: seq<StoredPrediction>): seq<StoredPrediction> {
    if ps == [] then [] else Insert(ps[0], Ranked(ps[1..]))
  }

  ghost predicate Falling(ps: seq<StoredPrediction>) {
    ps == [] || (Falling(ps[1..]) && forall q :: q in ps[1..] ==> q.confidence <= ps[0].confidence)
  }

  lemma {:induction false} InsertKeepsRanking(p: StoredPrediction, ranked: seq<StoredPrediction>)
    requires Falling(ranked)
    ensures Falling(Insert(p, ranked)) && multiset(Insert(p, ranked)) == multiset(ranked) + multiset{p}
    ensures forall q :: q in Insert(p, ranked) <==> q == p || q in ranked
    decreases |ranked|
  {
    if ranked == [] || p.confidence >= ranked[0].confidence {
      assert ([p] + ranked)[1..] == ranked;
      assert ranked != [] ==> ranked == [ranked[0]] + ranked[1..];
    } else {
      InsertKeepsRanking(p, ranked[1..]);
      assert ranked == [ranked[0]] + ranked[1..];
      assert Insert(p, ranked)[1..] == Insert(p, ranked[1..]);
    }
  }

  lemma {:induction false} RankedIsSorted(ps: seq<StoredPrediction>)
    ensures Falling(Ranked(ps)) && multiset(Ranked(ps)) == multiset(ps)
    ensures forall p :: p in Ranked(ps) <==> p in ps
    decreases |ps|
  {
    if ps != [] {
      var p, rest := ps[0], ps[1..];
      RankedIsSorted(rest);
      InsertKeepsRanking(p, Ranked(rest));
      assert ps == [p] + rest;
      assert multiset(Ranked(ps)) == multiset(rest) + multiset{p};
    }
  }

  lemma {:induction false} LastIsLowest(ps: seq<StoredPrediction>, p: StoredPrediction)
    requires Falling(ps + [p])
    ensures Falling(ps) && forall q :: q in ps ==> p.confidence <= q.confidence
    decreases |ps|
  {
    if ps != [] {
      assert (ps + [p])[1..] == ps[1..] + [p];
      LastIsLowest(ps[1..], p);
      assert p in ps[1..] + [p];
      assert forall q :: q in ps[1..] ==> q in ps[1..] + [p];
    }
  }

  ghost function Prints(ps: seq<StoredPrediction>): set<string> {
    set p | p in ps :: p.Fingerprint()
  }

  lemma SamePrints(a: seq<StoredPrediction>, b: seq<StoredPrediction>)
    requires forall p :: p in a <==> p in b
    ensures Prints(a) == Prints(b)
  {}

  /** The first prediction of every fingerprint, in order; with `first` false, all the others. */
  ghost function Pick(ps: seq<StoredPrediction>, first: bool): seq<StoredPrediction> {
    if ps == [] then []
    else
      var init, p := Init(ps), Last(ps);
      Pick(init, first) + if (p.Fingerprint() !in Prints(init)) == first then [p] else []
  }

  lemma {:induction false} PicksPartition(ps: seq<StoredPrediction>)
    ensures multiset(Pick(ps, true)) + multiset(Pick(ps, false)) == multiset(ps)
    decreases |ps|
  {
    if ps != [] {
      assert ps == Init(ps) + [Last(ps)];
      PicksPartition(Init(ps));
    }
  }

  lemma {:induction false} PicksCoverPrints(ps: seq<StoredPrediction>)
    ensures forall q :: q in Pick(ps, true) ==> q in ps
    ensures Prints(Pick(ps, true)) == Prints(ps)
    decreases |ps|
  {
    if ps != [] {
      var init, p := Init(ps), Last(ps);
      assert ps == init + [p];
      PicksCoverPrints(init);
      assert Prints(ps) == Prints(init) + {p.Fingerprint()};
      assert Prints(Pick(init, true) + [p]) == Prints(Pick(init, true)) + {p.Fingerprint()};
    }
  }

  lemma {:induction false} PicksAreDistinct(ps: seq<StoredPrediction>)
    ensures forall i, j :: 0 <= i < j < |Pick(ps, true)| ==>
              Pick(ps, true)[i].Fingerprint() != Pick(ps, true)[j].Fingerprint()
    decreases |ps|
  {
    if ps != [] {
      var init := Init(ps);
      PicksAreDistinct(init);
      PicksCoverPrints(init);
      assert forall i :: 0 <= i < |Pick(init, true)| ==> Pick(init, true)[i].Fingerprint() in Prints(Pick(init, true));
    }
  }

  lemma {:induction false} PicksAreBest(ps: seq<StoredPrediction>)
    requires Falling(ps)
    ensures forall p, q :: p in ps && q in Pick(ps, true) && q.Fingerprint() == p.Fingerprint() ==>
              p.confidence <= q.confidence
    decreases |ps|
  {
    if ps != [] {
      var init, last := Init(ps), Last(ps);
      assert ps == init + [last];
      LastIsLowest(init, last);
      PicksAreBest(init);
      PicksCoverPrints(init);
      assert forall p :: p in ps <==> p in init || p == last;
      if last.Fingerprint() !in Prints(init) {
        assert forall p :: p in init ==> p.Fingerprint() != last.Fingerprint();
      }
    }
  }

  function Ids(ps: seq<StoredPrediction>): seq<string> {
    seq(|ps|, i requires 0 <= i < |ps| => ps[i].id)
  }

  /** The predictions of one fingerprint and one confidence, in order. */
  ghost function Among(ps: seq<StoredPrediction>, mark: string, confidence: real): seq<StoredPrediction> {
    if ps == [] then []
    else
      Among(Init(ps), mark, confidence)
      + if Last(ps).Fingerprint() == mark && Last(ps).confidence == confidence then [Last(ps)] else []
  }

  ghost function AloneAmong(p: StoredPrediction, mark: string, confidence: real): seq<StoredPrediction> {
    if p.Fingerprint() == mark && p.confidence == confidence then [p] else []
  }

  lemma {:induction false} AmongOfFront(p: StoredPrediction, ps: seq<StoredPrediction>, mark: string,
                                        confidence: real)
    ensures Among([p] + ps, mark, confidence) == AloneAmong(p, mark, confidence) + Among(ps, mark, confidence)
    decreases |ps|
  {
    if ps == [] {
      assert [p] + ps == [p] && Init([p]) == [];
    } else {
      AmongOfFront(p, Init(ps), mark, confidence);
      assert Init([p] + ps) == [p] + Init(ps) && Last([p] + ps) == Last(ps);
    }
  }

  lemma HigherComesFirst(p: StoredPrediction, first: StoredPrediction, inserted: seq<StoredPrediction>,
                         rest: seq<StoredPrediction>, mark: string, confidence: real)
    requires p.confidence < first.confidence
    requires Among(inserted, mark, confidence) == AloneAmong(p, mark, confidence) + Among(rest, mark, confidence)
    ensures Among([first] + inserted, mark, confidence)
         == AloneAmong(p, mark, confidence) + Among([first] + rest, mark, confidence)
  {
    AmongOfFront(first, inserted, mark, confidence);
    AmongOfFront(first, rest, mark, confidence);
    var one, other, tail := AloneAmong(p, mark, confidence), AloneAmong(first, mark, confidence),
                            Among(rest, mark, confidence);
    assert one == [] || other == [];
    assert other + (one + tail) == one + (other + tail);
  }

  lemma {:induction false} InsertIsStable(p: StoredPrediction, ranked: seq<StoredPrediction>, mark: string,
                                          confidence: real)
    ensures Among(Insert(p, ranked), mark, confidence)
         == AloneAmong(p, mark, confidence) + Among(ranked, mark, confidence)
    decreases |ranked|
  {
    if ranked == [] || p.confidence >= ranked[0].confidence {
      AmongOfFront(p, ranked, mark, confidence);
    } else {
      var first, rest := ranked[0], ranked[1..];
      InsertIsStable(p, rest, mark, confidence);
      HigherComesFirst(p, first, Insert(p, rest), rest, mark, confidence);
      assert ranked == [first] + rest;
    }
  }

  /** The ranking is stable: predictions of equal confidence keep their order. */
  lemma {:induction false} RankedIsStable(ps: seq<StoredPrediction>, mark: string, confidence: real)
    ensures Among(Ranked(ps), mark, confidence) == Among(ps, mark, confidence)
    decreases |ps|
  {
    if ps != [] {
      var p, rest := ps[0], ps[1..];
      RankedIsStable(rest, mark, confidence);
      InsertIsStable(p, Ranked(rest), mark, confidence);
      AmongOfFront(p, rest, mark, confidence);
      assert ps == [p] + rest;
    }
  }

  lemma {:induction false} NoneAmong(ps: seq<StoredPrediction>, mark: string, confidence: real)
    ensures mark !in Prints(ps) ==> Among(ps, mark, confidence) == []
    decreases |ps|
  {
    if ps != [] {
      NoneAmong(Init(ps), mark, confidence);
      assert ps == Init(ps) + [Last(ps)];
    }
  }

  lemma {:induction false} PicksComeFirst(ps: seq<StoredPrediction>)
    ensures forall q :: q in Pick(ps, true) ==>
              Among(ps, q.Fingerprint(), q.confidence) != [] && Among(ps, q.Fingerprint(), q.confidence)[0] == q
    decreases |ps|
  {
    if ps != [] {
      PicksComeFirst(Init(ps));
      NoneAmong(Init(ps), Last(ps).Fingerprint(), Last(ps).confidence);
    }
  }

  /** Each kept prediction is the first, in input order, of those with its fingerprint and confidence. */
  ghost predicate FirstOfBest(kept: seq<StoredPrediction>, predictions: seq<StoredPrediction>) {
    forall q :: q in kept ==>
      && Among(predictions, q.Fingerprint(), q.confidence) != []
      && Among(predictions, q.Fingerprint(), q.confidence)[0] == q
  }

  /** What compaction promises, for the picks of the ranked list. */
  lemma CompactionFacts(predictions: seq<StoredPrediction>)
    ensures var kept, dropped := Pick(Ranked(predictions), true), Pick(Ranked(predictions), false);
            && multiset(kept) + multiset(dropped) == multiset(predictions)
            && (forall i, j :: 0 <= i < j < |kept| ==> kept[i].Fingerprint() != kept[j].Fingerprint())
            && Prints(kept) == Prints(predictions)
            && (forall p, q :: p in predictions && q in kept && q.Fingerprint() == p.Fingerprint() ==>
                  p.confidence <= q.confidence)
            && FirstOfBest(kept, predictions)
  {
    var ranked := Ranked(predictions);
    PicksComeFirst(ranked);
    forall q | q in Pick(ranked, true)
      ensures Among(predictions, q.Fingerprint(), q.confidence) != []
           && Among(predictions, q.Fingerprint(), q.confidence)[0] == q
    {
      RankedIsStable(predictions, q.Fingerprint(), q.confidence);
    }
    RankedIsSorted(predictions);
    PicksPartition(ranked);
    PicksCoverPrints(ranked);
    PicksAreDistinct(ranked);
    PicksAreBest(ranked);
    SamePrints(ranked, predictions);
  }

  /** The dropped predictions are inactive duplicates. */
  ghost predicate AllMarked(dropped: seq<StoredPrediction>)
    reads dropped
  {
    forall p :: p in dropped ==> !p.active && p.lifecycle == Duplicate
  }

  /** All others are as they were. */
  twostate predicate OthersUntouched(predictions: seq<StoredPrediction>, dropped: seq<StoredPrediction>)
    reads predictions
  {
    forall p :: p in predictions && p !in dropped ==> p.active == old(p.active) && p.lifecycle == old(p.lifecycle)
  }

  /** Marks one more prediction, which is no earlier one unless that is marked already. */
  method Deactivate(pred: StoredPrediction, ghost ranked: seq<StoredPrediction>, ghost dropped: seq<StoredPrediction>)
    requires pred in ranked && AllMarked(dropped)
    modifies pred
    ensures AllMarked(dropped + [pred]) && OthersUntouched(ranked, dropped + [pred])
  {
    pred.active := false;
    pred.lifecycle := Duplicate;
  }

  lemma PickNext(ps: seq<StoredPrediction>, i: nat)
    requires i < |ps|
    ensures var before, more := ps[..i], ps[..i + 1];
            && Prints(more) == Prints(before) + {ps[i].Fingerprint()}
            && (forall first :: Pick(more, first) == Pick(before, first)
                  + if (ps[i].Fingerprint() !in Prints(before)) == first then [ps[i]] else [])
  {
    assert ps[..i + 1] == ps[..i] + [ps[i]];
  }

  /** The loop over the ranked predictions. */
  method MarkRepeats(ranked: seq<StoredPrediction>)
    returns (retained: seq<string>, superseded: seq<string>)
    modifies ranked
    ensures retained == Ids(Pick(ranked, true)) && superseded == Ids(Pick(ranked, false))
    ensures AllMarked(Pick(ranked, false)) && OthersUntouched(ranked, Pick(ranked, false))
  {
    var seen: set<string> := {};
    retained, superseded := [], [];
    var i := 0;
    while i < |ranked|
      invariant 0 <= i <= |ranked|
      invariant retained == Ids(Pick(ranked[..i], true)) && superseded == Ids(Pick(ranked[..i], false))
      invariant seen == Prints(ranked[..i])
      invariant AllMarked(Pick(ranked[..i], false)) && OthersUntouched(ranked, Pick(ranked[..i], false))
    {
      var pred := ranked[i];
      PickNext(ranked, i);
      var f := pred.Fingerprint();
      if f !in seen {
        seen, retained := seen + {f}, retained + [pred.id];
      } else {
        superseded := superseded + [pred.id];
        Deactivate(pred, ranked, Pick(ranked[..i], false));
      }
      i := i + 1;
    }
    assert ranked[..i] == ranked;
  }

  /** Keeps one prediction per fingerprint, one of highest confidence, and deactivates the rest. */
  method Compact(predictions: seq<StoredPrediction>)
    returns (retained: seq<string>, superseded: seq<string>,
             ghost kept: seq<StoredPrediction>, ghost dropped: seq<StoredPrediction>)
    modifies predictions
    ensures retained == Ids(kept) && superseded == Ids(dropped)
    ensures multiset(kept) + multiset(dropped) == multiset(predictions)
    ensures forall i, j :: 0 <= i < j < |kept| ==> kept[i].Fingerprint() != kept[j].Fingerprint()
    ensures Prints(kept) == Prints(predictions)
    ensures forall p, q :: p in predictions && q in kept && q.Fingerprint() == p.Fingerprint() ==>
              p.confidence <= q.confidence
    ensures FirstOfBest(kept, predictions)
    ensures forall p :: p in dropped ==> !p.active && p.lifecycle == Duplicate
    ensures forall p :: p in predictions && p !in dropped ==>
              p.active == old(p.active) && p.lifecycle == old(p.lifecycle)
  {
    var ranked := Ranked(predictions);
    RankedIsSorted(predictions);
    forall i | 0 <= i < |ranked| ensures ranked[i] in predictions {
      assert ranked[i] in multiset(predictions);
    }
    retained, superseded := MarkRepeats(ranked);
    kept, dropped := Pick(ranked, true), Pick(ranked, false);
    CompactionFacts(predictions);
  }
}
