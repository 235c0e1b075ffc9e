/**
 When one outcome of the remaining cases can meet all deltas of a prediction.  Live refutation judges
 each delta by itself; here the rises compete for the same cases.
 */
module JointOutcomes {
  import opened Counts
  import opened Options
  import opened PredictionContract
  import opened Sequences

  function SoFar(c: Change, actuals: Counts, prior: Counts): int {
    Get(actuals, c.verdict) - Get(prior, c.verdict)
  }

  /** How many more cases a predicted rise needs. */
  function Shortfall(c: Change, actuals: Counts, prior: Counts): nat {
    if c.delta.Whole? && c.delta.n > 0 && c.delta.n > SoFar(c, actuals, prior) then
      c.delta.n - SoFar(c, actuals, prior)
    else 0
  }

  function Needed(changes: seq<Change>, actuals: Counts, prior: Counts): nat {
    if changes == [] then 0
    else Needed(Init(changes), actuals, prior) + Shortfall(Last(changes), actuals, prior)
  }

  predicate FallsHold(changes: seq<Change>, actuals: Counts, prior: Counts) {
    forall i :: 0 <= i < |changes| && changes[i].delta.Whole? && changes[i].delta.n < 0 ==>
      SoFar(changes[i], actuals, prior) <= changes[i].delta.n
  }

  /** The verdicts are the keys of a dictionary. */
  predicate DistinctVerdicts(changes: seq<Change>) {
    forall i, j :: 0 <= i < j < |changes| ==> changes[i].verdict != changes[j].verdict
  }

  predicate MeetsAll(changes: seq<Change>, actuals: Counts, prior: Counts, outcome: seq<string>) {
    forall i :: 0 <= i < |changes| && changes[i].delta.Whole? ==>
      Meets(changes[i].delta.n, SoFar(changes[i], actuals, prior) + Count(outcome, changes[i].verdict))
  }

  ghost predicate JointlyAchievable(changes: seq<Change>, actuals: Counts, prior: Counts, remaining: nat) {
    exists outcome: seq<string> :: |outcome| == remaining && MeetsAll(changes, actuals, prior, outcome)
  }

  // ---- Outcomes compete for cases ----------------------------------------------------------

  function Without(cases: seq<string>, verdict: string): seq<string> {
    if cases == [] then []
    else if Last(cases) == verdict then Without(Init(cases), verdict)
    else Without(Init(cases), verdict) + [Last(cases)]
  }

  lemma {:induction false} WithoutCounts(cases: seq<string>, verdict: string)
    ensures |Without(cases, verdict)| + Count(cases, verdict) == |cases|
    ensures forall w :: w != verdict ==> Count(Without(cases, verdict), w) == Count(cases, w)
  {
    if cases != [] {
      var init, last := Without(Init(cases), verdict), Last(cases);
      WithoutCounts(Init(cases), verdict);
      assert Init(init + [last]) == init && Last(init + [last]) == last;
    }
  }

  /** An outcome that meets all deltas has enough cases for all shortfalls together. */
  lemma {:induction false} NeededAtMost(changes: seq<Change>, actuals: Counts, prior: Counts, outcome: seq<string>)
    requires DistinctVerdicts(changes) && MeetsAll(changes, actuals, prior, outcome)
    ensures Needed(changes, actuals, prior) <= |outcome|
    decreases |changes|
  {
    if changes != [] {
      var init, c := Init(changes), Last(changes);
      var rest := Without(outcome, c.verdict);
      WithoutCounts(outcome, c.verdict);
      forall i | 0 <= i < |init| ensures init[i] == changes[i] && init[i].verdict != c.verdict {}
      assert MeetsAll(init, actuals, prior, rest);
      NeededAtMost(init, actuals, prior, rest);
      assert Shortfall(c, actuals, prior) <= Count(outcome, c.verdict);
    }
  }

  // ---- An outcome that meets everything ----------------------------------------------------

  function Repeat(verdict: string, k: nat): (cases: seq<string>)
    ensures |cases| == k
  {
    seq(k, _ => verdict)
  }

  lemma {:induction false} CountRepeat(verdict: string, k: nat, w: string)
    ensures Count(Repeat(verdict, k), w) == if w == verdict then k else 0
  {
    if k > 0 {
      CountRepeat(verdict, k - 1, w);
      assert Init(Repeat(verdict, k)) == Repeat(verdict, k - 1);
    }
  }

  /** Exactly the cases that the shortfalls need. */
  function Filling(changes: seq<Change>, actuals: Counts, prior: Counts): (cases: seq<string>)
    ensures |cases| == Needed(changes, actuals, prior)
  {
    if changes == [] then []
    else
      Filling(Init(changes), actuals, prior) + Repeat(Last(changes).verdict, Shortfall(Last(changes), actuals, prior))
  }

  lemma {:induction false} CountFilling(changes: seq<Change>, actuals: Counts, prior: Counts)
    requires DistinctVerdicts(changes)
    ensures forall i :: 0 <= i < |changes| ==>
              Count(Filling(changes, actuals, prior), changes[i].verdict) == Shortfall(changes[i], actuals, prior)
    ensures forall w :: (forall i :: 0 <= i < |changes| ==> changes[i].verdict != w) ==>
              Count(Filling(changes, actuals, prior), w) == 0
    decreases |changes|
  {
    if changes != [] {
      var init, c := Init(changes), Last(changes);
      var k := Shortfall(c, actuals, prior);
      CountFilling(init, actuals, prior);
      assert forall i :: 0 <= i < |init| ==> init[i] == changes[i];
      forall w
        ensures Count(Filling(changes, actuals, prior), w)
             == Count(Filling(init, actuals, prior), w) + if w == c.verdict then k else 0
      {
        CountAdds(Filling(init, actuals, prior), Repeat(c.verdict, k), w);
        CountRepeat(c.verdict, k, w);
      }
    }
  }

  /** A verdict that no change speaks of. */
  function Unnamed(changes: seq<Change>): (w: string)
    ensures forall i :: 0 <= i < |changes| ==> |changes[i].verdict| < |w|
  {
    if changes == [] then ""
    else
      var w := Unnamed(Init(changes));
      assert forall i :: 0 <= i < |changes| - 1 ==> Init(changes)[i] == changes[i];
      w + Last(changes).verdict + "x"
  }

  lemma FillingMeetsAll(changes: seq<Change>, actuals: Counts, prior: Counts, remaining: nat)
    requires DistinctVerdicts(changes) && FallsHold(changes, actuals, prior)
    requires Needed(changes, actuals, prior) <= remaining
    ensures JointlyAchievable(changes, actuals, prior, remaining)
  {
    var w, k := Unnamed(changes), remaining - Needed(changes, actuals, prior);
    var outcome := Filling(changes, actuals, prior) + Repeat(w, k);
    CountFilling(changes, actuals, prior);
    forall i | 0 <= i < |changes|
      ensures Count(outcome, changes[i].verdict) == Shortfall(changes[i], actuals, prior)
    {
      CountAdds(Filling(changes, actuals, prior), Repeat(w, k), changes[i].verdict);
      CountRepeat(w, k, changes[i].verdict);
    }
    assert MeetsAll(changes, actuals, prior, outcome);
  }

  // ---- The exact condition -----------------------------------------------------------------

  /** One outcome meets all deltas exactly when every fall holds already and the remaining cases
      suffice for the shortfalls of all rises together. */
  lemma JointlyAchievableExactly(changes: seq<Change>, actuals: Counts, prior: Counts, remaining: nat)
    requires DistinctVerdicts(changes)
    ensures JointlyAchievable(changes, actuals, prior, remaining) <==>
              FallsHold(changes, actuals, prior) && Needed(changes, actuals, prior) <= remaining
  {
    if JointlyAchievable(changes, actuals, prior, remaining) {
      var outcome: seq<string> :| |outcome| == remaining && MeetsAll(changes, actuals, prior, outcome);
      NeededAtMost(changes, actuals, prior, outcome);
    }
    if FallsHold(changes, actuals, prior) && Needed(changes, actuals, prior) <= remaining {
      FillingMeetsAll(changes, actuals, prior, remaining);
    }
  }

  /** Judged one by one, every delta is achievable exactly when every fall holds and no single rise
      needs more than the remaining cases. */
  lemma NoneFailsExactly(changes: seq<Change>, actuals: Counts, prior: Counts, remaining: nat)
    ensures !Fails(changes, actuals, prior, remaining) <==>
              && FallsHold(changes, actuals, prior)
              && forall i :: 0 <= i < |changes| ==> Shortfall(changes[i], actuals, prior) <= remaining
  {
    forall i | 0 <= i < |changes| && changes[i].delta.Whole? && changes[i].delta.n != 0
      ensures Achievable(changes[i].verdict, changes[i].delta.n, Get(actuals, changes[i].verdict),
                         Get(prior, changes[i].verdict), remaining)
         <==> if changes[i].delta.n < 0 then SoFar(changes[i], actuals, prior) <= changes[i].delta.n
              else Shortfall(changes[i], actuals, prior) <= remaining
    {
      AchievableExactly(changes[i].verdict, changes[i].delta.n, Get(actuals, changes[i].verdict),
                        Get(prior, changes[i].verdict), remaining);
    }
  }

  /** So a prediction can only fail as a whole, with every delta achievable by itself, when the rises
      together need more than the remaining cases and each alone does not. */
  lemma FailsOnlyTogetherExactly(changes: seq<Change>, actuals: Counts, prior: Counts, remaining: nat)
    requires DistinctVerdicts(changes)
    ensures !Fails(changes, actuals, prior, remaining) && !JointlyAchievable(changes, actuals, prior, remaining) <==>
              && FallsHold(changes, actuals, prior)
              && (forall i :: 0 <= i < |changes| ==> Shortfall(changes[i], actuals, prior) <= remaining)
              && Needed(changes, actuals, prior) > remaining
  {
    JointlyAchievableExactly(changes, actuals, prior, remaining);
    NoneFailsExactly(changes, actuals, prior, remaining);
  }

  /** Two rises that each need all remaining cases are not refuted, yet cannot both come true. */
  lemma CompetingRisesAreNotRefuted(v: string, w: string, counts: Counts, remaining: nat, root: real -> real)
    requires RootOfZero(root) && v != w && remaining >= 1 && Get(counts, v) >= 1 && Get(counts, w) >= 1
    ensures var changes := [Change(v, Whole(remaining)), Change(w, Whole(remaining))];
            && RefutedVerdicts(changes, counts, counts, remaining, root) == []
            && !JointlyAchievable(changes, counts, counts, remaining)
  {
    var changes := [Change(v, Whole(remaining)), Change(w, Whole(remaining))];
    BoundsInClosedForm(Get(counts, v), Get(counts, v), remaining, root);
    BoundsInClosedForm(Get(counts, w), Get(counts, w), remaining, root);
    assert !RefutesChange(changes[0], counts, counts, remaining, root);
    assert !RefutesChange(changes[1], counts, counts, remaining, root);
    assert Init(changes) == [changes[0]] && Init([changes[0]]) == [];
    JointlyAchievableExactly(changes, counts, counts, remaining);
  }
}
