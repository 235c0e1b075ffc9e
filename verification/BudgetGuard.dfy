/**
 The budget guards: a sliding-window request-rate guard over a deque that is pruned lazily, a
 dollar and wall-time guard, and the composite of both.
 */
module BudgetGuard {
  import opened Clocks
  import opened Options
  import opened RateWindow
  import opened Sequences

  const THRESHOLDS := [0.5, 0.8, 1.0]

  datatype Action = Warning | Halt

  datatype RateEvent = RateEvent(threshold: real, action: Action, count: nat, fraction: real, delay: real)

  /** The clock readings that go into one event. */
  datatype Readings = Readings(count: real, fraction: real, pruned: real, delay: real)

  /** The event that tells the truth about the log at these readings. */
  function EventAt(log: seq<Entry>, window: real, cap: nat, threshold: real, action: Action, r: Readings)
    : (e: RateEvent)
    requires cap >= 1
    ensures e.threshold == threshold && e.action == action
    ensures e.count == InWindow(log, window, r.count)
    ensures e.fraction * cap as real == InWindow(log, window, r.fraction) as real
    ensures e.delay == WakeDelay(Live(Requests(log), r.pruned - window), r.delay, window, cap)
  {
    RateEvent(threshold, action, InWindow(log, window, r.count),
              InWindow(log, window, r.fraction) as real / cap as real,
              WakeDelay(Live(Requests(log), r.pruned - window), r.delay, window, cap))
  }

  /** The event announces its threshold, and its figures are true of the log between two times. */
  ghost predicate IsAnnouncement(log: seq<Entry>, window: real, cap: nat, e: RateEvent, from: real, to: real)
    requires cap >= 1
  {
    && e.threshold in THRESHOLDS
    && exists r: Readings ::
         && from <= r.count <= r.fraction <= r.pruned <= r.delay <= to
         && e == EventAt(log, window, cap, e.threshold, if e.threshold >= 1.0 then Halt else Warning, r)
  }

  /** Between two times nothing but such events was emitted. */
  ghost predicate AddsAnnouncements(log: seq<Entry>, window: real, cap: nat, before: seq<RateEvent>,
                                    after: seq<RateEvent>, from: real, to: real)
    requires cap >= 1
  {
    before <= after
    && forall i :: |before| <= i < |after| ==> IsAnnouncement(log, window, cap, after[i], from, to)
  }

  lemma ReadingsTell(log: seq<Entry>, window: real, cap: nat, t: real, r: Readings, from: real, to: real)
    requires cap >= 1 && t in THRESHOLDS && from <= r.count <= r.fraction <= r.pruned <= r.delay <= to
    ensures IsAnnouncement(log, window, cap,
                           EventAt(log, window, cap, t, if t >= 1.0 then Halt else Warning, r), from, to)
  {}

  lemma OneMoreAnnouncement(log: seq<Entry>, window: real, cap: nat, before: seq<RateEvent>, events: seq<RateEvent>,
                            after: seq<RateEvent>, from: real, mid: real, to: real)
    requires cap >= 1 && from <= mid <= to
    requires AddsAnnouncements(log, window, cap, before, events, from, mid)
    requires after == events
          || (after != [] && after == events + [Last(after)] && IsAnnouncement(log, window, cap, Last(after), mid, to))
    ensures AddsAnnouncements(log, window, cap, before, after, from, to)
  {
    forall i | |before| <= i < |after| ensures IsAnnouncement(log, window, cap, after[i], from, to) {
      var e := after[i];
      var r: Readings :|
        && (if i < |events| then from else mid) <= r.count <= r.fraction <= r.pruned <= r.delay
        && r.delay <= (if i < |events| then mid else to)
        && e == EventAt(log, window, cap, e.threshold, if e.threshold >= 1.0 then Halt else Warning, r);
    }
  }

  /** How many events were emitted for a threshold. */
  function Occurrences(events: seq<RateEvent>, threshold: real): nat {
    if events == [] then 0
    else Occurrences(Init(events), threshold) + if Last(events).threshold == threshold then 1 else 0
  }

  lemma AnnouncedOnce(events: seq<RateEvent>, e: RateEvent)
    ensures forall t: real :: Occurrences(events + [e], t) == Occurrences(events, t) + if e.threshold == t then 1 else 0
  {
    assert Init(events + [e]) == events;
  }

  /** Python's `int` on a float: truncation towards zero. */
  function Truncate(x: real): int {
    if x >= 0.0 then x.Floor else -((-x).Floor)
  }

  lemma ScaledDown(m: int, share: real)
    requires 0.0 <= share <= 1.0
    ensures var scaled := m as real * share;
            && (m >= 0 ==> 0 <= Truncate(scaled) <= m)
            && (m >= 0 ==> Truncate(scaled) as real <= scaled < (Truncate(scaled) + 1) as real)
            && (m <= 0 ==> Truncate(scaled) <= 0)
            && (share == 1.0 ==> Truncate(scaled) == m)
            && (share == 0.0 ==> Truncate(scaled) == 0)
  {
    var x, rest := m as real, 1.0 - share;
    assert x * share + x * rest == x * (share + rest) == x;
    if m >= 0 {
      assert x * share >= 0.0 && x * rest >= 0.0;
    } else {
      assert -x * share >= 0.0 && x * share == -(-x * share);
    }
  }

  function EffectiveMax(maxRequests: int, safetyMargin: real): (cap: nat)
    ensures 1 <= cap && (maxRequests >= 1 ==> cap <= maxRequests) && (maxRequests < 1 ==> cap == 1)
    ensures safetyMargin <= 0.0 && maxRequests >= 1 ==> cap == maxRequests
    ensures safetyMargin >= 1.0 ==> cap == 1
    ensures 0.0 <= safetyMargin <= 1.0 && maxRequests >= 0 ==>
              var scaled := maxRequests as real * (1.0 - safetyMargin);
              (cap as real <= scaled || cap == 1) && scaled < (cap + 1) as real
  {
    var margin := if safetyMargin < 0.0 then 0.0 else if safetyMargin > 1.0 then 1.0 else safetyMargin;
    var allowed := Truncate(maxRequests as real * (1.0 - margin));
    ScaledDown(maxRequests, 1.0 - margin);
    if allowed < 1 then 1 else allowed
  }

  /** The defaults: 15000 requests less a margin of five per cent. */
  lemma UsualCap()
    ensures EffectiveMax(15000, 0.05) == 14250
  {}

  /** Whether a count has reached a fraction of the cap. */
  predicate Reached(count: nat, cap: nat, threshold: real)
    requires cap >= 1
  {
    count as real / cap as real >= threshold
  }

  lemma ReachedExactly(count: nat, cap: nat, t: real)
    requires cap >= 1
    ensures Reached(count, cap, t) <==> count as real >= t * cap as real
  {
    var share := count as real / cap as real;
    assert share * cap as real == count as real;
    assert (share - t) * cap as real == count as real - t * cap as real;
    if share >= t {
      assert (share - t) * cap as real >= 0.0;
    } else {
      assert (t - share) * cap as real > 0.0;
    }
  }

  /** The ones among the first `k` thresholds that a count has reached. */
  function Due(count: nat, cap: nat, k: nat): set<real>
    requires cap >= 1 && k <= |THRESHOLDS|
  {
    if k == 0 then {}
    else Due(count, cap, k - 1) + if Reached(count, cap, THRESHOLDS[k - 1]) then {THRESHOLDS[k - 1]} else {}
  }

  /** Due is what has reached 50, 80 or 100 per cent of the cap. */
  lemma DueExactly(count: nat, cap: nat, t: real)
    requires cap >= 1
    ensures t in Due(count, cap, |THRESHOLDS|) <==>
              (t == 0.5 || t == 0.8 || t == 1.0) && count as real >= t * cap as real
  {
    ReachedExactly(count, cap, t);
    assert THRESHOLDS[0] == 0.5 && THRESHOLDS[1] == 0.8 && THRESHOLDS[2] == 1.0;
    assert Due(count, cap, 3) == Due(count, cap, 2) + if Reached(count, cap, 1.0) then {1.0} else {};
    assert Due(count, cap, 2) == Due(count, cap, 1) + if Reached(count, cap, 0.8) then {0.8} else {};
    assert Due(count, cap, 1) == Due(count, cap, 0) + if Reached(count, cap, 0.5) then {0.5} else {};
  }

  class RateBudgetGuard {
    const window: real
    const effectiveMax: nat
    const clock: Clock
    var timestamps: seq<real>
    var thresholdsFired: set<real>
    var halted: bool
    var emitted: seq<RateEvent>

    /** Every request and every check so far, and the cutoff of the latest pruning. */
    ghost var log: seq<Entry>
    ghost var cutoff: real

    /** Each threshold is announced at most once, apart from the one event of a halt. */
    ghost predicate EventsMatch()
      reads this`emitted, this`thresholdsFired, this`halted
    {
      && (forall t :: t in thresholdsFired ==> t in THRESHOLDS)
      && (forall t: real :: Occurrences(emitted, t)
            == (if t in thresholdsFired then 1 else 0) + (if halted && t == 1.0 then 1 else 0))
    }

    /** The deque is exactly the recorded history later than the last cutoff. */
    ghost predicate Valid()
      reads this, clock
    {
      && effectiveMax >= 1
      && Chronological(log)
      && (forall i :: 0 <= i < |log| ==> log[i].at <= clock.now)
      && cutoff <= clock.now - window
      && timestamps == Live(Requests(log), cutoff)
      && Truthful(log, window, effectiveMax)
      && EventsMatch()
    }

    constructor (maxRequests: int, window: real, safetyMargin: real, clock: Clock)
      ensures Valid() && log == [] && emitted == [] && thresholdsFired == {} && !halted
      ensures this.window == window && this.clock == clock
      ensures effectiveMax == EffectiveMax(maxRequests, safetyMargin)
    {
      this.window, this.clock := window, clock;
      effectiveMax := EffectiveMax(maxRequests, safetyMargin);
      timestamps, thresholdsFired, halted, emitted := [], {}, false, [];
      log, cutoff := [], clock.now - window;
    }

    method Prune()
      requires Sorted(timestamps)
      modifies this`timestamps, this`cutoff, clock
      ensures old(clock.now) <= clock.now
      ensures cutoff == clock.now - window
      ensures timestamps == Live(old(timestamps), cutoff)
    {
      var t := clock.Read();
      var expired := t - window;
      cutoff := expired;
      while timestamps != [] && timestamps[0] <= expired
        modifies this`timestamps
        invariant Sorted(timestamps)
        invariant Live(timestamps, expired) == Live(old(timestamps), expired)
        decreases |timestamps|
      {
        DropFront(timestamps, expired);
        timestamps := timestamps[1..];
      }
      AllLive(timestamps, cutoff);
    }

    method CurrentCount() returns (count: nat)
      requires Valid()
      modifies this`timestamps, this`cutoff, clock
      ensures Valid() && old(clock.now) <= clock.now && cutoff == clock.now - window
      ensures count == |timestamps| == InWindow(log, window, clock.now)
    {
      DequeIsSorted(log, cutoff, clock.now);
      Prune();
      LiveAgain(Requests(log), old(cutoff), cutoff);
      count := |timestamps|;
    }

    method PushAndPrune() returns (ghost at: real)
      requires Sorted(timestamps) && forall i :: 0 <= i < |timestamps| ==> timestamps[i] <= clock.now
      modifies this`timestamps, this`cutoff, clock
      ensures old(clock.now) <= at <= clock.now && cutoff == clock.now - window
      ensures timestamps == Live(old(timestamps) + [at], cutoff)
    {
      var now := clock.Read();
      at := now;
      timestamps := timestamps + [now];
      Prune();
    }

    /** The deque part of recording a request. */
    method AppendNow() returns (ghost at: real)
      requires Valid()
      modifies this`timestamps, this`cutoff, this`log, clock
      ensures Valid() && old(clock.now) <= at <= clock.now
      ensures log == old(log) + [Requested(at)]
    {
      DequeIsSorted(log, cutoff, clock.now);
      at := PushAndPrune();
      RecordRefines(log, old(cutoff), at, cutoff);
      LogExtends(log, Requested(at), window, effectiveMax);
      log := log + [Requested(at)];
    }

    method FractionUsed() returns (fraction: real, ghost count: nat)
      requires Valid()
      modifies this`timestamps, this`cutoff, clock
      ensures Valid() && old(clock.now) <= clock.now && cutoff == clock.now - window
      ensures count == InWindow(log, window, clock.now)
      ensures fraction == count as real / effectiveMax as real
    {
      var n := CurrentCount();
      count := n;
      fraction := n as real / effectiveMax as real;
    }

    /** What the delay promises to any client, and to a gated one. */
    lemma DelayIsExact(pruned: real, delay: real)
      requires Valid() && pruned <= clock.now
      requires forall i :: 0 <= i < |log| ==> log[i].at <= pruned
      requires delay == WakeDelay(Live(Requests(log), pruned - window), clock.now, window, effectiveMax)
      ensures InWindow(log, window, clock.now + delay) < effectiveMax <==>
                WakesInTime(Live(Requests(log), pruned - window), clock.now, window, effectiveMax)
      ensures Gated(log) ==> forall t :: t >= clock.now ==>
                (InWindow(log, window, t) < effectiveMax <==> t >= clock.now + delay)
    {
      WakeUpOfLogExactly(log, window, effectiveMax, pruned, clock.now, clock.now + delay);
      if Gated(log) {
        forall t | t >= clock.now
          ensures InWindow(log, window, t) < effectiveMax <==> t >= clock.now + delay
        {
          WakeUpIsExactWhenGated(log, window, effectiveMax, pruned, clock.now, t);
        }
      }
    }

    /** The time until the oldest request leaves the window; that frees a slot exactly when the delay
        is computed from the entry that has to leave, or from one as old.  For a gated client it is exact: with no
        further request, a check at a later time says yes from `clock.now + delay` on, not before. */
    method TimeUntilAvailable() returns (delay: real, ghost pruned: real)
      requires Valid()
      modifies this`timestamps, this`cutoff, clock
      ensures Valid() && old(clock.now) <= pruned <= clock.now
      ensures delay == WakeDelay(Live(Requests(log), pruned - window), clock.now, window, effectiveMax)
      ensures InWindow(log, window, clock.now + delay) < effectiveMax <==>
                WakesInTime(Live(Requests(log), pruned - window), clock.now, window, effectiveMax)
      ensures Gated(log) ==> forall t :: t >= clock.now ==>
                (InWindow(log, window, t) < effectiveMax <==> t >= clock.now + delay)
    {
      var count := CurrentCount();
      pruned := clock.now;
      delay := 0.0;
      if count >= effectiveMax && timestamps != [] {
        var oldest := timestamps[0];
        var t := clock.Read();
        var remaining := window - (t - oldest);
        delay := if remaining > 0.0 then remaining else 0.0;
      }
      DelayIsExact(pruned, delay);
    }

    method CountAndFraction() returns (count: nat, fraction: real, ghost countAt: real)
      requires Valid()
      modifies this`timestamps, this`cutoff, clock
      ensures Valid() && old(clock.now) <= countAt <= clock.now
      ensures count == InWindow(log, window, countAt)
      ensures fraction == InWindow(log, window, clock.now) as real / effectiveMax as real
    {
      count := CurrentCount();
      countAt := clock.now;
      ghost var seen;
      fraction, seen := FractionUsed();
    }

    /** The figures of an event, each true of the log at its own clock reading. */
    method Figures() returns (count: nat, fraction: real, delay: real, ghost r: Readings)
      requires Valid()
      modifies this`timestamps, this`cutoff, clock
      ensures Valid() && old(clock.now) <= r.count <= r.fraction <= r.pruned <= r.delay == clock.now
      ensures count == InWindow(log, window, r.count)
      ensures fraction == InWindow(log, window, r.fraction) as real / effectiveMax as real
      ensures delay == WakeDelay(Live(Requests(log), r.pruned - window), r.delay, window, effectiveMax)
    {
      ghost var countAt, prunedAt;
      count, fraction, countAt := CountAndFraction();
      ghost var fractionAt := clock.now;
      delay, prunedAt := TimeUntilAvailable();
      r := Readings(countAt, fractionAt, prunedAt, clock.now);
    }

    /** Emits one event with true figures. */
    method EmitRate(threshold: real, action: Action) returns (ghost r: Readings)
      requires Valid()
      modifies this`timestamps, this`cutoff, this`emitted, clock
      ensures old(clock.now) <= r.count <= r.fraction <= r.pruned <= r.delay == clock.now
      ensures emitted == old(emitted) + [EventAt(log, window, effectiveMax, threshold, action, r)]
      ensures cutoff <= clock.now - window && timestamps == Live(Requests(log), cutoff)
    {
      var count, fraction, delay;
      count, fraction, delay, r := Figures();
      emitted := emitted + [RateEvent(threshold, action, count, fraction, delay)];
    }

    method Announce(t: real) returns (ghost r: Readings)
      requires Valid() && t in THRESHOLDS && t !in thresholdsFired
      modifies this`timestamps, this`cutoff, this`emitted, this`thresholdsFired, clock
      ensures Valid() && old(clock.now) <= clock.now
      ensures thresholdsFired == old(thresholdsFired) + {t}
      ensures old(clock.now) <= r.count <= r.fraction <= r.pruned <= r.delay == clock.now
      ensures var action := if t >= 1.0 then Halt else Warning;
              emitted == old(emitted) + [EventAt(log, window, effectiveMax, t, action, r)]
    {
      var inReason := CurrentCount();
      r := EmitRate(t, if t >= 1.0 then Halt else Warning);
      AnnouncedOnce(old(emitted), Last(emitted));
      thresholdsFired := thresholdsFired + {t};
    }

    /** Announces a threshold that is reached and has not been announced before. */
    method Consider(t: real, fraction: real, ghost count: nat)
      requires Valid() && t in THRESHOLDS && fraction == count as real / effectiveMax as real
      modifies this`timestamps, this`cutoff, this`emitted, this`thresholdsFired, clock
      ensures Valid() && old(clock.now) <= clock.now
      ensures thresholdsFired == old(thresholdsFired) + if Reached(count, effectiveMax, t) then {t} else {}
      ensures if Reached(count, effectiveMax, t) && t !in old(thresholdsFired) then
                && emitted != [] && emitted == old(emitted) + [Last(emitted)] && Last(emitted).threshold == t
                && IsAnnouncement(log, window, effectiveMax, Last(emitted), old(clock.now), clock.now)
              else
                emitted == old(emitted)
    {
      if fraction >= t && t !in thresholdsFired {
        ghost var before := clock.now;
        ghost var r := Announce(t);
        ReadingsTell(log, window, effectiveMax, t, r, before, clock.now);
      }
    }

    /** The same within the loop over the thresholds. */
    method ConsiderNext(t: real, fraction: real, ghost count: nat, ghost before: seq<RateEvent>, ghost from: real)
      requires Valid() && t in THRESHOLDS && fraction == count as real / effectiveMax as real && from <= clock.now
      requires AddsAnnouncements(log, window, effectiveMax, before, emitted, from, clock.now)
      modifies this`timestamps, this`cutoff, this`emitted, this`thresholdsFired, clock
      ensures Valid() && old(clock.now) <= clock.now
      ensures thresholdsFired == old(thresholdsFired) + if Reached(count, effectiveMax, t) then {t} else {}
      ensures AddsAnnouncements(log, window, effectiveMax, before, emitted, from, clock.now)
    {
      ghost var events, now := emitted, clock.now;
      Consider(t, fraction, count);
      OneMoreAnnouncement(log, window, effectiveMax, before, events, emitted, from, now, clock.now);
    }

    method AnnounceDue(fraction: real, ghost count: nat)
      requires Valid() && fraction == count as real / effectiveMax as real
      modifies this`timestamps, this`cutoff, this`emitted, this`thresholdsFired, clock
      ensures Valid() && old(clock.now) <= clock.now
      ensures thresholdsFired == old(thresholdsFired) + Due(count, effectiveMax, |THRESHOLDS|)
      ensures AddsAnnouncements(log, window, effectiveMax, old(emitted), emitted, old(clock.now), clock.now)
    {
      ghost var before, from := emitted, clock.now;
      var i := 0;
      while i < |THRESHOLDS|
        invariant 0 <= i <= |THRESHOLDS|
        invariant Valid() && from <= clock.now
        invariant thresholdsFired == old(thresholdsFired) + Due(count, effectiveMax, i)
        invariant AddsAnnouncements(log, window, effectiveMax, before, emitted, from, clock.now)
      {
        ConsiderNext(THRESHOLDS[i], fraction, count, before, from);
        i := i + 1;
      }
    }

    /** Announces every threshold that the count in the window ending at `seenAt` has reached. */
    method MaybeEmitThreshold() returns (ghost seenAt: real, ghost seen: nat)
      requires Valid()
      modifies this`timestamps, this`cutoff, this`emitted, this`thresholdsFired, clock
      ensures Valid() && old(clock.now) <= seenAt <= clock.now
      ensures seen == InWindow(log, window, seenAt)
      ensures thresholdsFired == old(thresholdsFired) + Due(seen, effectiveMax, |THRESHOLDS|)
      ensures AddsAnnouncements(log, window, effectiveMax, old(emitted), emitted, seenAt, clock.now)
    {
      var fraction, count := FractionUsed();
      seenAt, seen := clock.now, count;
      AnnounceDue(fraction, seen);
    }

    method RecordRequest() returns (ghost at: real, ghost seenAt: real, ghost seen: nat)
      requires Valid()
      modifies this, clock
      ensures Valid() && old(clock.now) <= at <= clock.now
      ensures log == old(log) + [Requested(at)]
      ensures thresholdsFired == old(thresholdsFired) + Due(seen, effectiveMax, |THRESHOLDS|)
      ensures halted == old(halted)
      ensures AddsAnnouncements(log, window, effectiveMax, old(emitted), emitted, seenAt, clock.now)
      ensures at <= seenAt && seen == InWindow(log, window, seenAt)
    {
      at := AppendNow();
      seenAt, seen := MaybeEmitThreshold();
    }

    /** Every answered check goes into the log. */
    ghost method LogCheck(ok: bool)
      requires Valid() && (ok <==> InWindow(log, window, clock.now) < effectiveMax)
      modifies this`log
      ensures Valid() && log == old(log) + [Checked(clock.now, ok)]
    {
      LogExtends(log, Checked(clock.now, ok), window, effectiveMax);
      RequestsExtend(log, Checked(clock.now, ok));
      log := log + [Checked(clock.now, ok)];
    }

    /** Says yes exactly when fewer than the cap are in the window ending now. */
    method Check() returns (ok: bool, count: nat)
      requires Valid()
      modifies this`timestamps, this`cutoff, this`log, clock
      ensures Valid() && old(clock.now) <= clock.now
      ensures log == old(log) + [Checked(clock.now, ok)]
      ensures ok <==> InWindow(old(log), window, clock.now) < effectiveMax
    {
      count := CurrentCount();
      ok := count < effectiveMax;
      LogCheck(ok);
    }

    /** Emits the halt event the first time only; the exception it ends with is left to the caller. */
    method HaltNow() returns (ghost r: Readings)
      requires Valid()
      modifies this, clock
      ensures Valid() && halted && log == old(log) && old(clock.now) <= clock.now
      ensures old(halted) ==> emitted == old(emitted)
      ensures old(clock.now) <= r.count <= r.fraction <= r.pruned <= r.delay == clock.now
      ensures !old(halted) ==> emitted == old(emitted) + [EventAt(log, window, effectiveMax, 1.0, Halt, r)]
      ensures thresholdsFired == old(thresholdsFired)
    {
      r := Readings(clock.now, clock.now, clock.now, clock.now);
      if !halted {
        r := EmitRate(1.0, Halt);
        AnnouncedOnce(old(emitted), Last(emitted));
        halted := true;
      }
    }

    /** The promise of the guard: as long as the client asks before each request, no window of the
        configured length, sampled or not, contains more than the effective cap. */
    lemma GatedClientIsCapped(t: real)
      requires Valid() && Gated(log)
      ensures CountIn(Requests(log), t - window, t) <= effectiveMax
    {
      EveryWindowIsCapped(log, window, effectiveMax, t);
    }
  }

  // ---- Dollar and wall-time guard ----------------------------------------------------------

  class CostBudgetGuard {
    const maxCost: real
    const maxWallTime: real
    const clock: Clock
    const startTime: real
    var cost: real
    ghost var charges: seq<real>

    ghost predicate Valid()
      reads this
    {
      cost == Sum(charges) && forall i :: 0 <= i < |charges| ==> charges[i] >= 0.0
    }

    constructor (maxCost: real, maxWallTime: real, clock: Clock)
      ensures Valid() && charges == [] && this.clock == clock && startTime == clock.now
      ensures this.maxCost == maxCost && this.maxWallTime == maxWallTime
    {
      this.maxCost, this.maxWallTime, this.clock := maxCost, maxWallTime, clock;
      startTime, cost, charges := clock.now, 0.0, [];
    }

    /** The charges have used up the dollar cap; a cap of zero or less switches this off. */
    ghost predicate CapReached()
      reads this
    {
      maxCost > 0.0 && Sum(charges) >= maxCost
    }

    /** Missing and negative amounts are ignored. */
    method RecordCost(usd: Option<real>)
      requires Valid()
      modifies this
      ensures Valid()
      ensures charges == if usd.Some? && usd.value >= 0.0 then old(charges) + [usd.value] else old(charges)
    {
      if usd.None? || usd.value < 0.0 {
        return;
      }
      cost := cost + usd.value;
      charges := charges + [usd.value];
      assert Init(charges) == old(charges);
    }

    /** The dollar cap first, then the wall time. */
    method Check() returns (ok: bool)
      requires Valid()
      modifies clock
      ensures old(clock.now) <= clock.now
      ensures CapReached() ==> clock.now == old(clock.now)
      ensures ok <==> !CapReached() && clock.now - startTime < maxWallTime
    {
      if maxCost > 0.0 && cost >= maxCost {
        return false;
      }
      var t := clock.Read();
      if t - startTime >= maxWallTime {
        return false;
      }
      return true;
    }
  }

  // ---- Both guards together ----------------------------------------------------------------

  datatype Violation = RateCap | CostOrWallCap

  class CompositeBudgetGuard {
    const costGuard: CostBudgetGuard
    const rateGuard: RateBudgetGuard

    ghost predicate Valid()
      reads this, costGuard, rateGuard, rateGuard.clock
    {
      costGuard.Valid() && rateGuard.Valid()
    }

    constructor (costGuard: CostBudgetGuard, rateGuard: RateBudgetGuard)
      requires costGuard.Valid() && rateGuard.Valid()
      ensures Valid() && this.costGuard == costGuard && this.rateGuard == rateGuard
    {
      this.costGuard, this.rateGuard := costGuard, rateGuard;
    }

    method RecordRequest(usd: Option<real>) returns (ghost at: real)
      requires Valid()
      modifies rateGuard, rateGuard.clock, costGuard
      ensures Valid()
      ensures rateGuard.log == old(rateGuard.log) + [Requested(at)]
      ensures old(Gated(rateGuard.log) && Permit(rateGuard.log)) ==> Gated(rateGuard.log)
      ensures costGuard.charges == if usd.Some? && usd.value >= 0.0 then old(costGuard.charges) + [usd.value]
                                   else old(costGuard.charges)
    {
      ghost var seenAt, seen;
      at, seenAt, seen := rateGuard.RecordRequest();
      GatedExtends(old(rateGuard.log), Requested(at));
      costGuard.RecordCost(usd);
    }

    /** The rate guard is asked first and wins; a yes is always a yes of the rate guard, so clients
        gated by the composite are gated for the rate guard as well. */
    method Check() returns (violation: Option<Violation>, ghost rateOk: bool, ghost rateAt: real)
      requires Valid()
      modifies rateGuard, rateGuard.clock, costGuard.clock
      ensures Valid()
      ensures rateGuard.log == old(rateGuard.log) + [Checked(rateAt, rateOk)]
      ensures violation == Some(RateCap) <==> !rateOk
      ensures violation == None ==> Permit(rateGuard.log)
      ensures old(Gated(rateGuard.log)) ==> Gated(rateGuard.log)
      ensures rateOk ==>
                (violation == None <==>
                   !costGuard.CapReached() && costGuard.clock.now - costGuard.startTime < costGuard.maxWallTime)
      ensures rateOk && violation != None ==> violation == Some(CostOrWallCap)
    {
      var ok, count := rateGuard.Check();
      rateOk, rateAt := ok, rateGuard.clock.now;
      GatedExtends(old(rateGuard.log), Checked(rateAt, rateOk));
      if !ok {
        return Some(RateCap), rateOk, rateAt;
      }
      ok := costGuard.Check();
      if !ok {
        return Some(CostOrWallCap), rateOk, rateAt;
      }
      return None, rateOk, rateAt;
    }
  }
}
