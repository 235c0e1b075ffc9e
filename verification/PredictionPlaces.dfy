/**
 Which entries of a prediction the loops of refutation and clipping pick, told by their places.
 */
module PredictionPlaces {
  import opened Counts
  import opened PredictionContract
  import opened Sequences

  ghost predicate Ascending(places: seq<nat>, bound: nat) {
    && (forall j :: 0 <= j < |places| ==> places[j] < bound)
    && forall j, k :: 0 <= j < k < |places| ==> places[j] < places[k]
  }

  /** One more place, or one more entry that is passed over. */
  lemma AscendingGrows(places: seq<nat>, bound: nat)
    requires Ascending(places, bound)
    ensures Ascending(places, bound + 1) && Ascending(places + [bound], bound + 1)
    ensures forall i: nat :: i in places + [bound] <==> i in places || i == bound
    ensures bound !in places
  {}

  /** The reasons are the refuted entries, each once, in order. */
  lemma {:induction false} ReasonsExactly(changes: seq<Change>, actuals: Counts, prior: Counts, remaining: nat,
                                          root: real -> real) returns (places: seq<nat>)
    ensures Ascending(places, |changes|)
    ensures forall i: nat :: i < |changes| ==>
              (i in places <==> RefutesChange(changes[i], actuals, prior, remaining, root))
    ensures var reasons := RefutedVerdicts(changes, actuals, prior, remaining, root);
            && |reasons| == |places|
            && forall j :: 0 <= j < |places| ==> reasons[j] == changes[places[j]].verdict
  {
    places := [];
    if changes != [] {
      var init := Init(changes);
      places := ReasonsExactly(init, actuals, prior, remaining, root);
      AscendingGrows(places, |changes| - 1);
      if RefutesChange(Last(changes), actuals, prior, remaining, root) {
        places := places + [|changes| - 1];
      }
    }
  }

  /** The nearest feasible value to a delta. */
  ghost predicate IsNearest(kept: int, delta: int, prior: nat, cases: nat) {
    && 0 - prior <= kept <= cases - prior
    && forall d :: 0 - prior <= d <= cases - prior ==> Distance(kept, delta) <= Distance(d, delta)
  }

  ghost predicate IsClipOf(kept: Change, c: Change, prior: Counts, cases: nat) {
    && kept.verdict == c.verdict && kept.delta.Whole? && c.delta.Whole?
    && IsNearest(kept.delta.n, c.delta.n, Get(prior, c.verdict), cases)
  }

  /** What clipping keeps are the parseable entries, each once, in order, under their own verdicts and
      with the nearest feasible delta. */
  lemma {:induction false} ClipExactly(changes: seq<Change>, prior: Counts, cases: nat) returns (places: seq<nat>)
    ensures Ascending(places, |changes|)
    ensures forall i: nat :: i < |changes| ==> (i in places <==> changes[i].delta.Whole?)
    ensures var kept := ClipChanges(changes, prior, cases);
            && |kept| == |places|
            && forall j :: 0 <= j < |places| ==> IsClipOf(kept[j], changes[places[j]], prior, cases)
  {
    places := [];
    if changes != [] {
      var init := Init(changes);
      places := ClipExactly(init, prior, cases);
      AscendingGrows(places, |changes| - 1);
      if Last(changes).delta.Whole? {
        places := places + [|changes| - 1];
      }
    }
  }

  /** The reasons for clipping are the entries that were not feasible, each once, in order. */
  lemma {:induction false} InfeasibleExactly(changes: seq<Change>, prior: Counts, cases: nat)
    returns (places: seq<nat>)
    ensures Ascending(places, |changes|)
    ensures forall i: nat :: i < |changes| ==> (i in places <==> !Feasible(changes[i], prior, cases))
    ensures var reasons := Infeasible(changes, prior, cases);
            && |reasons| == |places|
            && forall j :: 0 <= j < |places| ==> reasons[j] == changes[places[j]].verdict
  {
    places := [];
    if changes != [] {
      var init := Init(changes);
      places := InfeasibleExactly(init, prior, cases);
      AscendingGrows(places, |changes| - 1);
      if !Feasible(Last(changes), prior, cases) {
        places := places + [|changes| - 1];
      }
    }
  }
}
