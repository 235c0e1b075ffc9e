/**
 Sliding-window request logs: what the request-rate guard promises about every window, proved on
 the complete history of requests and checks.
 */
module RateWindow {
  import opened Sequences

  /** What a client of the guard does, with the clock reading at which it happens. */
  datatype Entry = Checked(at: real, ok: bool) | Requested(at: real)

  /** The request times of a log, in order. */
  function Requests(log: seq<Entry>): seq<real> {
    if log == [] then []
    else Requests(Init(log)) + if Last(log).Requested? then [Last(log).at] else []
  }

  ghost predicate Sorted(s: seq<real>) {
    forall i, j :: 0 <= i < j < |s| ==> s[i] <= s[j]
  }

  ghost predicate Chronological(log: seq<Entry>) {
    forall i, j :: 0 <= i < j < |log| ==> log[i].at <= log[j].at
  }

  /** The times later than the cutoff. */
  function Live(h: seq<real>, cutoff: real): seq<real> {
    if h == [] then []
    else Live(Init(h), cutoff) + if Last(h) > cutoff then [Last(h)] else []
  }

  /** How many requests of the log a check at time `t` finds in its window. */
  function InWindow(log: seq<Entry>, window: real, t: real): nat {
    |Live(Requests(log), t - window)|
  }

  /** How many times lie in the half-open interval (lo, hi]. */
  function CountIn(h: seq<real>, lo: real, hi: real): nat {
    if h == [] then 0
    else CountIn(Init(h), lo, hi) + if lo < Last(h) <= hi then 1 else 0
  }

  /** A check answers truthfully when it says whether fewer than `cap` requests are in its window. */
  ghost predicate Truthful(log: seq<Entry>, window: real, cap: nat)
    decreases |log|
  {
    log == [] ||
    (Truthful(Init(log), window, cap) &&
     (Last(log).Checked? ==>
        (Last(log).ok <==> |Live(Requests(Init(log)), Last(log).at - window)| < cap)))
  }

  /** Some check said yes since the last request. */
  predicate Permit(log: seq<Entry>)
    decreases |log|
  {
    log != [] && Last(log).Checked? && (Last(log).ok || Permit(Init(log)))
  }

  /** Every request was preceded by a positive check with no other request in between. */
  predicate Gated(log: seq<Entry>)
    decreases |log|
  {
    log == [] || (Gated(Init(log)) && (Last(log).Requested? ==> Permit(Init(log))))
  }

  /** A check never breaks the discipline, and a request keeps it when a check has just said yes. */
  lemma GatedExtends(log: seq<Entry>, e: Entry)
    ensures Gated(log + [e]) <==> Gated(log) && (e.Requested? ==> Permit(log))
    ensures Permit(log + [e]) <==> e.Checked? && (e.ok || Permit(log))
  {
    assert Init(log + [e]) == log;
  }

  lemma LogExtends(log: seq<Entry>, e: Entry, window: real, cap: nat)
    requires Chronological(log) && Truthful(log, window, cap)
    requires forall i :: 0 <= i < |log| ==> log[i].at <= e.at
    requires e.Checked? ==> (e.ok <==> |Live(Requests(log), e.at - window)| < cap)
    ensures Chronological(log + [e]) && Truthful(log + [e], window, cap)
  {
    assert Init(log + [e]) == log;
  }

  lemma RequestsExtend(log: seq<Entry>, e: Entry)
    ensures e.Checked? ==> Requests(log + [e]) == Requests(log)
    ensures e.Requested? ==> Requests(log + [e]) == Requests(log) + [e.at]
  {
    assert Init(log + [e]) == log;
  }

  // ---- Facts about live requests -----------------------------------------------------------

  lemma LiveAppend(h: seq<real>, t: real, c: real)
    ensures Live(h + [t], c) == Live(h, c) + if t > c then [t] else []
  {
    assert Init(h + [t]) == h;
  }

  lemma {:induction false} LiveShrinks(h: seq<real>, c: real, c': real)
    requires c <= c'
    ensures |Live(h, c')| <= |Live(h, c)|
  {
    if h != [] {
      LiveShrinks(Init(h), c, c');
    }
  }

  /** Pruning twice is pruning with the later cutoff. */
  lemma {:induction false} LiveAgain(h: seq<real>, c: real, c': real)
    requires c <= c'
    ensures Live(Live(h, c), c') == Live(h, c')
  {
    if h != [] {
      LiveAgain(Init(h), c, c');
      if Last(h) > c {
        LiveAppend(Live(Init(h), c), Last(h), c');
      } else {
        assert Live(h, c) == Live(Init(h), c);
      }
    }
  }

  lemma {:induction false} CountAtMostLive(h: seq<real>, lo: real, hi: real)
    ensures CountIn(h, lo, hi) <= |Live(h, lo)|
    ensures (forall i :: 0 <= i < |h| ==> h[i] <= hi) ==> CountIn(h, lo, hi) == |Live(h, lo)|
  {
    if h != [] {
      CountAtMostLive(Init(h), lo, hi);
    }
  }

  /** Dropping expired entries from the front of a sorted deque keeps exactly the live ones. */
  lemma {:induction false} DropFront(s: seq<real>, c: real)
    requires s != [] && s[0] <= c
    ensures Live(s, c) == Live(s[1..], c)
    decreases |s|
  {
    if |s| > 1 {
      DropFront(Init(s), c);
      assert Init(s)[1..] == Init(s[1..]);
    }
  }

  lemma {:induction false} AllLive(s: seq<real>, c: real)
    requires forall i :: 0 <= i < |s| ==> s[i] > c
    ensures Live(s, c) == s
    decreases |s|
  {
    if s != [] {
      var init, last := Init(s), Last(s);
      assert s == init + [last];
      AllLive(init, c);
      LiveAppend(init, last, c);
    }
  }

  lemma {:induction false} LiveSorted(h: seq<real>, c: real)
    requires Sorted(h)
    ensures Sorted(Live(h, c))
    ensures forall i :: 0 <= i < |Live(h, c)| ==> h != [] && c < Live(h, c)[i] <= Last(h)
  {
    if h != [] {
      LiveSorted(Init(h), c);
    }
  }

  lemma {:induction false} RequestsInOrder(log: seq<Entry>, now: real)
    requires Chronological(log) && forall i :: 0 <= i < |log| ==> log[i].at <= now
    ensures Sorted(Requests(log))
    ensures forall i :: 0 <= i < |Requests(log)| ==> Requests(log)[i] <= now
  {
    if log != [] {
      RequestsInOrder(Init(log), Last(log).at);
    }
  }

  lemma DequeIsSorted(log: seq<Entry>, cutoff: real, now: real)
    requires Chronological(log) && forall i :: 0 <= i < |log| ==> log[i].at <= now
    ensures var live := Live(Requests(log), cutoff);
            Sorted(live) && forall i :: 0 <= i < |live| ==> live[i] <= now
  {
    RequestsInOrder(log, now);
    LiveSorted(Requests(log), cutoff);
  }

  /** Appending a request to the deque and pruning it refines appending it to the history. */
  lemma RecordRefines(log: seq<Entry>, cutoff: real, now: real, cutoff': real)
    requires cutoff <= cutoff'
    ensures Live(Live(Requests(log), cutoff) + [now], cutoff')
         == Live(Requests(log + [Requested(now)]), cutoff')
  {
    var h := Requests(log);
    RequestsExtend(log, Requested(now));
    LiveAppend(h, now, cutoff');
    LiveAppend(Live(h, cutoff), now, cutoff');
    LiveAgain(h, cutoff, cutoff');
  }

  // ---- Safety of every window --------------------------------------------------------------

  lemma {:induction false} PermitMeansRoom(log: seq<Entry>, window: real, cap: nat)
    requires Chronological(log) && Truthful(log, window, cap) && Permit(log)
    ensures |Live(Requests(log), Last(log).at - window)| < cap
    decreases |log|
  {
    assert Requests(log) == Requests(Init(log));
    if !Last(log).ok {
      PermitMeansRoom(Init(log), window, cap);
      LiveShrinks(Requests(Init(log)), Last(Init(log)).at - window, Last(log).at - window);
    }
  }

  /** In a gated run no window of the given length, wherever it ends, ever holds more than `cap`
      requests; the windows need not be ones the guard sampled. */
  lemma {:induction false} EveryWindowIsCapped(log: seq<Entry>, window: real, cap: nat, t: real)
    requires Chronological(log) && Truthful(log, window, cap) && Gated(log)
    ensures CountIn(Requests(log), t - window, t) <= cap
    decreases |log|
  {
    if log != [] {
      var before, n := Init(log), Last(log).at;
      EveryWindowIsCapped(before, window, cap, t);
      if Last(log).Requested? {
        assert Init(Requests(log)) == Requests(before);
        if t - window < n <= t {
          var c := Last(before).at;
          PermitMeansRoom(before, window, cap);
          LiveShrinks(Requests(before), c - window, t - window);
          CountAtMostLive(Requests(before), t - window, t);
        }
      } else {
        assert Requests(log) == Requests(before);
      }
    }
  }

  /** The gate is needed: one more request without a check overfills a full window. */
  lemma UngatedOverfills(log: seq<Entry>, window: real, cap: nat, now: real)
    requires window > 0.0
    requires Chronological(log) && forall i :: 0 <= i < |log| ==> log[i].at <= now
    requires |Live(Requests(log), now - window)| == cap
    ensures CountIn(Requests(log + [Requested(now)]), now - window, now) == cap + 1
  {
    var log' := log + [Requested(now)];
    assert Init(log') == log;
    assert Init(Requests(log')) == Requests(log);
    RequestsInOrder(log, now);
    CountAtMostLive(Requests(log), now - window, now);
  }

  // ---- Waking up ---------------------------------------------------------------------------

  /** Seconds until the oldest live request leaves the window, seen at time `at`. */
  function WakeDelay(live: seq<real>, at: real, window: real, cap: nat): (delay: real)
    ensures delay >= 0.0
  {
    if |live| < cap || live == [] then 0.0
    else var remaining := window - (at - live[0]); if remaining > 0.0 then remaining else 0.0
  }

  lemma {:induction false} NothingLive(s: seq<real>, c: real)
    requires forall i :: 0 <= i < |s| ==> s[i] <= c
    ensures Live(s, c) == []
  {
    if s != [] {
      NothingLive(Init(s), c);
    }
  }

  lemma {:induction false} LiveCountExactly(s: seq<real>, c: real, k: nat)
    requires Sorted(s) && 0 < k <= |s|
    ensures |Live(s, c)| < k <==> s[|s| - k] <= c
    decreases |s|
  {
    var init := Init(s);
    if Last(s) <= c {
      if init != [] {
        NothingLive(init, c);
      }
      assert s[|s| - k] <= Last(s);
    } else if k > 1 {
      LiveCountExactly(init, c, k - 1);
      assert init[|init| - (k - 1)] == s[|s| - k];
    }
  }

  /** The entry whose expiry frees a slot is the oldest one, or as old, or has expired already; or no
      expiry is needed. */
  predicate WakesInTime(live: seq<real>, at: real, window: real, cap: nat)
    requires cap > 0
  {
    |live| < cap || live[|live| - cap] == live[0] || live[|live| - cap] <= at - window
  }

  lemma {:induction false} LiveAtMostAll(s: seq<real>, c: real)
    ensures |Live(s, c)| <= |s|
  {
    if s != [] {
      LiveAtMostAll(Init(s), c);
    }
  }

  /** After the announced delay a slot is free exactly when that is so: the delay is computed from
      the oldest entry. */
  lemma WakeUpExactly(live: seq<real>, at: real, window: real, cap: nat)
    requires Sorted(live) && cap > 0
    ensures |Live(live, at + WakeDelay(live, at, window, cap) - window)| < cap <==> WakesInTime(live, at, window, cap)
  {
    var cutoff := at + WakeDelay(live, at, window, cap) - window;
    if |live| < cap {
      LiveAtMostAll(live, cutoff);
    } else {
      LiveCountExactly(live, cutoff, cap);
    }
  }

  lemma PrunedCountsAlike(h: seq<real>, c: real, c': real, live: seq<real>)
    requires c <= c' && live == Live(h, c)
    ensures |Live(h, c')| == |Live(live, c')|
  {
    LiveAgain(h, c, c');
  }

  /** The same for a whole log, pruned at one clock reading and delayed from a later one. */
  lemma WakeUpOfLogExactly(log: seq<Entry>, window: real, cap: nat, pruned: real, at: real, t: real)
    requires cap > 0 && pruned <= at
    requires Chronological(log) && forall i :: 0 <= i < |log| ==> log[i].at <= pruned
    requires t == at + WakeDelay(Live(Requests(log), pruned - window), at, window, cap)
    ensures InWindow(log, window, t) < cap <==> WakesInTime(Live(Requests(log), pruned - window), at, window, cap)
  {
    var live := Live(Requests(log), pruned - window);
    assert |Live(live, t - window)| < cap <==> WakesInTime(live, at, window, cap) by {
      DequeIsSorted(log, pruned - window, pruned);
      WakeUpExactly(live, at, window, cap);
    }
    PrunedCountsAlike(Requests(log), pruned - window, t - window, live);
  }

  /** The delay can be too short once the cap was overrun. */
  lemma OverrunWakesTooEarly()
    ensures var live := [0.0, 1.0]; var d := WakeDelay(live, 1.0, 10.0, 1);
            d == 9.0 && |Live(live, 1.0 + d - 10.0)| == 1 && !WakesInTime(live, 1.0, 10.0, 1)
  {
    assert Init([0.0, 1.0]) == [0.0];
    assert Live([0.0], 0.0) == [];
  }

  lemma GatedDequeIsCapped(log: seq<Entry>, window: real, cap: nat, pruned: real)
    requires Chronological(log) && Truthful(log, window, cap) && Gated(log)
    requires forall i :: 0 <= i < |log| ==> log[i].at <= pruned
    ensures |Live(Requests(log), pruned - window)| <= cap && Sorted(Live(Requests(log), pruned - window))
  {
    var h := Requests(log);
    RequestsInOrder(log, pruned);
    LiveSorted(h, pruned - window);
    EveryWindowIsCapped(log, window, cap, pruned);
    CountAtMostLive(h, pruned - window, pruned);
  }

  lemma CappedWakeUp(live: seq<real>, at: real, window: real, cap: nat, t: real)
    requires Sorted(live) && 0 < cap && |live| <= cap && at <= t
    ensures |Live(live, t - window)| < cap <==> t >= at + WakeDelay(live, at, window, cap)
  {
    LiveAtMostAll(live, t - window);
    if |live| == cap {
      LiveCountExactly(live, t - window, cap);
    }
  }

  /** In a gated run the delay is exact: with no further request, a check at a later time `t` says
      yes precisely from `at + delay` on. */
  lemma WakeUpIsExactWhenGated(log: seq<Entry>, window: real, cap: nat, pruned: real, at: real, t: real)
    requires 0 < cap && pruned <= at <= t
    requires Chronological(log) && Truthful(log, window, cap) && Gated(log)
    requires forall i :: 0 <= i < |log| ==> log[i].at <= pruned
    ensures var live := Live(Requests(log), pruned - window);
            && |live| <= cap
            && (InWindow(log, window, t) < cap <==> t >= at + WakeDelay(live, at, window, cap))
  {
    var live := Live(Requests(log), pruned - window);
    GatedDequeIsCapped(log, window, cap, pruned);
    PrunedCountsAlike(Requests(log), pruned - window, t - window, live);
    CappedWakeUp(live, at, window, cap, t);
  }
}
