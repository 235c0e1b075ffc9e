/**
 The judge pool: one thread per anonymous slot, votes written to a shared dictionary under a lock,
 then aggregated in slot order.  Every schedule that lets all threads finish gives the votes of a
 sequential evaluation.
 */
module JudgePool {
  import opened Options
  import opened Sequences
  import opened Votes

  /** What an answer has under the name of a number; `float()` rejects some values. */
  datatype Figure = Missing | Unreadable | Number(value: real)

  /** What calling a judge produces: an exception, something that is not a dictionary, or an answer,
      whose verdict is `None` if it is missing or unknown. */
  datatype Reply =
    | Raises
    | NotADictionary
    | Answer(verdict: Option<Verdict>, score: Figure, cost: Figure, time: Figure)

  type Judges = nat -> Reply

  /** The wrapper around each slot of a pool: replies that are not dictionaries become a default answer. */
  function Anonymous(judges: Judges): Judges {
    (slot: nat) =>
      if judges(slot).NotADictionary? then Answer(Some(OK), Number(0.0), Number(0.0), Number(0.0)) else judges(slot)
  }

  function Read(figure: Figure): Option<real> {
    match figure
    case Missing => Some(0.5)
    case Unreadable => None
    case Number(x) => Some(x)
  }

  /** Asking the judge of one slot. */
  function SlotVote(judges: Judges, slot: nat): Option<Vote> {
    match judges(slot)
    case Raises => None
    case NotADictionary => None
    case Answer(verdict, score, cost, time) =>
      match (Read(score), Read(cost), Read(time))
      case (Some(s), Some(c), Some(t)) => Some(Vote(slot, if verdict.Some? then verdict.value else OK, s, c, t))
      case _ => None
  }

  /** A number in a vote: the one of the answer, or a half where the answer has none. */
  ghost predicate Carries(figure: Figure, x: real) {
    figure == Number(x) || (figure == Missing && x == 0.5)
  }

  /** The vote says what the judge of its slot answered. */
  ghost predicate Reports(v: Vote, reply: Reply) {
    && reply.Answer?
    && (reply.verdict == Some(v.verdict) || (reply.verdict == None && v.verdict == OK))
    && Carries(reply.score, v.score) && Carries(reply.cost, v.cost) && Carries(reply.time, v.time)
  }

  /** A slot votes exactly when its judge answers with readable numbers, and then reports the answer. */
  lemma SlotVoteExactly(judges: Judges, slot: nat)
    ensures forall v :: SlotVote(judges, slot) == Some(v) <==> v.slot == slot && Reports(v, judges(slot))
    ensures SlotVote(judges, slot) == None <==>
              var r := judges(slot);
              !r.Answer? || r.score.Unreadable? || r.cost.Unreadable? || r.time.Unreadable?
  {}

  /** In a pool a reply that is not a dictionary votes OK with zeros; all others vote as they do alone. */
  lemma AnonymousExactly(judges: Judges, slot: nat)
    ensures SlotVote(Anonymous(judges), slot)
         == if judges(slot) == NotADictionary then Some(Vote(slot, OK, 0.0, 0.0, 0.0)) else SlotVote(judges, slot)
  {}

  // ---- Sequential evaluation ---------------------------------------------------------------

  /** The votes of the first `n` slots, in slot order. */
  function VotesOf(judges: Judges, n: nat): seq<Vote> {
    if n == 0 then []
    else VotesOf(judges, n - 1) + match SlotVote(judges, n - 1) case Some(v) => [v] case None => []
  }

  /** The votes are those of the slots below `n` that vote, once each and in the order of the slots. */
  lemma {:induction false} VotesExactly(judges: Judges, n: nat)
    ensures forall v :: v in VotesOf(judges, n) <==> v.slot < n && Reports(v, judges(v.slot))
    ensures forall i, j :: 0 <= i < j < |VotesOf(judges, n)| ==> VotesOf(judges, n)[i].slot < VotesOf(judges, n)[j].slot
  {
    if n > 0 {
      VotesExactly(judges, n - 1);
      SlotVoteExactly(judges, n - 1);
    }
  }

  method Evaluate(judges: Judges, n: nat) returns (s: Summary, votes: seq<Vote>)
    ensures votes == VotesOf(judges, n) && s == Aggregate(votes) && Summarises(s, votes)
  {
    votes := [];
    var i := 0;
    while i < n
      invariant 0 <= i <= n && votes == VotesOf(judges, i)
    {
      var vote := SlotVote(judges, i);
      if vote.Some? {
        votes := votes + [vote.value];
      }
      i := i + 1;
    }
    if votes == [] {
      return Summary(OK, 0.0, 0.5, 0.5), [];
    }
    s := AggregateVotes(votes);
  }

  // ---- The threads -------------------------------------------------------------------------

  /** Where a worker thread stands: before its judge call, with a vote and wanting the lock, holding
      the lock before and after the write, done. */
  datatype Thread = Calling | Wanting(vote: Vote) | Writing(vote: Vote) | Releasing | Done

  datatype Pool = Pool(threads: seq<Thread>, holder: Option<nat>, votesBySlot: map<nat, Vote>)

  function Start(n: nat): Pool {
    Pool(seq(n, _ => Calling), None, map[])
  }

  predicate Enabled(p: Pool, i: nat) {
    i < |p.threads| && !p.threads[i].Done? && (p.threads[i].Wanting? ==> p.holder.None?)
  }

  function Step(judges: Judges, p: Pool, i: nat): Pool
    requires Enabled(p, i)
  {
    match p.threads[i]
    case Calling =>
      (match SlotVote(judges, i)
       case None => p.(threads := p.threads[i := Done])
       case Some(v) => p.(threads := p.threads[i := Wanting(v)]))
    case Wanting(v) => p.(threads := p.threads[i := Writing(v)], holder := Some(i))
    case Writing(v) => p.(threads := p.threads[i := Releasing], votesBySlot := p.votesBySlot[i := v])
    case Releasing => p.(threads := p.threads[i := Done], holder := None)
  }

  /** The pool after a schedule; choosing a thread that cannot move wastes the turn. */
  function Exec(judges: Judges, n: nat, schedule: seq<nat>): Pool {
    if schedule == [] then Start(n)
    else
      var p := Exec(judges, n, Init(schedule));
      if Enabled(p, Last(schedule)) then Step(judges, p, Last(schedule)) else p
  }

  predicate AllDone(p: Pool) {
    forall i :: 0 <= i < |p.threads| ==> p.threads[i].Done?
  }

  predicate InsideLock(t: Thread) { t.Writing? || t.Releasing? }

  /** The slot's thread, the lock and the dictionary agree. */
  ghost predicate SlotAgrees(judges: Judges, p: Pool, i: nat)
    requires i < |p.threads|
  {
    var t := p.threads[i];
    && (InsideLock(t) <==> p.holder == Some(i))
    && (t.Wanting? || t.Writing? ==> SlotVote(judges, i) == Some(t.vote))
    && (t.Calling? || t.Wanting? || t.Writing? ==> i !in p.votesBySlot)
    && (t.Releasing? ==> SlotVote(judges, i).Some?)
    && (t.Releasing? || t.Done? ==>
          (i in p.votesBySlot <==> SlotVote(judges, i).Some?))
    && (i in p.votesBySlot ==> SlotVote(judges, i) == Some(p.votesBySlot[i]))
  }

  ghost predicate Agrees(judges: Judges, p: Pool, n: nat) {
    && |p.threads| == n
    && (forall i :: 0 <= i < n ==> SlotAgrees(judges, p, i))
    && (p.holder.Some? ==> p.holder.value < n)
    && (forall i :: i in p.votesBySlot ==> i < n)
  }

  lemma StepAgrees(judges: Judges, p: Pool, n: nat, i: nat)
    requires Agrees(judges, p, n) && Enabled(p, i)
    ensures Agrees(judges, Step(judges, p, i), n)
  {
    var q := Step(judges, p, i);
    assert SlotAgrees(judges, p, i);
    forall j | 0 <= j < n ensures SlotAgrees(judges, q, j) {
      assert SlotAgrees(judges, p, j);
    }
  }

  /** Every step of every schedule keeps the pool consistent. */
  lemma {:induction false} ExecAgrees(judges: Judges, n: nat, schedule: seq<nat>)
    ensures Agrees(judges, Exec(judges, n, schedule), n)
    decreases |schedule|
  {
    if schedule != [] {
      ExecAgrees(judges, n, Init(schedule));
      var p := Exec(judges, n, Init(schedule));
      if Enabled(p, Last(schedule)) {
        StepAgrees(judges, p, n, Last(schedule));
      }
    }
  }

  /** At most one thread is between acquiring and releasing the lock. */
  lemma MutualExclusion(judges: Judges, n: nat, schedule: seq<nat>, i: nat, j: nat)
    requires i < n && j < n
    requires |Exec(judges, n, schedule).threads| == n
    requires InsideLock(Exec(judges, n, schedule).threads[i]) && InsideLock(Exec(judges, n, schedule).threads[j])
    ensures i == j
  {
    ExecAgrees(judges, n, schedule);
    assert SlotAgrees(judges, Exec(judges, n, schedule), i) && SlotAgrees(judges, Exec(judges, n, schedule), j);
  }

  // ---- Progress ----------------------------------------------------------------------------

  function Remaining(t: Thread): nat {
    match t case Calling => 4 case Wanting(_) => 3 case Writing(_) => 2 case Releasing => 1 case Done => 0
  }

  function Work(threads: seq<Thread>): nat {
    if threads == [] then 0 else Work(Init(threads)) + Remaining(Last(threads))
  }

  lemma {:induction false} WorkOfUpdate(threads: seq<Thread>, i: nat, t: Thread)
    requires i < |threads|
    ensures Work(threads[i := t]) == Work(threads) - Remaining(threads[i]) + Remaining(t)
    decreases |threads|
  {
    if i < |threads| - 1 {
      assert Init(threads[i := t]) == Init(threads)[i := t];
      WorkOfUpdate(Init(threads), i, t);
    } else {
      assert Init(threads[i := t]) == Init(threads);
    }
  }

  lemma {:induction false} SomeWorkLeft(threads: seq<Thread>)
    ensures Work(threads) == 0 <==> forall i :: 0 <= i < |threads| ==> threads[i].Done?
    ensures Work(threads) <= 4 * |threads|
    decreases |threads|
  {
    if threads != [] {
      SomeWorkLeft(Init(threads));
    }
  }

  lemma StepUsesUpWork(judges: Judges, p: Pool, i: nat)
    requires Enabled(p, i)
    ensures Work(Step(judges, p, i).threads) < Work(p.threads)
  {
    WorkOfUpdate(p.threads, i, Step(judges, p, i).threads[i]);
  }

  /** No reachable pool is stuck, and each move uses up work, of which there is at most 4 per slot:
      every schedule that keeps choosing threads that can move ends with all of them done. */
  lemma NeverStuck(judges: Judges, n: nat, schedule: seq<nat>)
    ensures var p := Exec(judges, n, schedule);
            && Work(p.threads) <= 4 * n
            && (AllDone(p) || exists i: nat :: Enabled(p, i))
            && (forall i: nat :: Enabled(p, i) ==> Work(Step(judges, p, i).threads) < Work(p.threads))
  {
    ExecAgrees(judges, n, schedule);
    var p := Exec(judges, n, schedule);
    SomeWorkLeft(p.threads);
    if !AllDone(p) {
      var i :| 0 <= i < n && !p.threads[i].Done?;
      if p.holder.Some? {
        assert SlotAgrees(judges, p, p.holder.value);
        assert Enabled(p, p.holder.value);
      } else {
        assert Enabled(p, i);
      }
    }
    forall i: nat | Enabled(p, i) ensures Work(Step(judges, p, i).threads) < Work(p.threads) {
      StepUsesUpWork(judges, p, i);
    }
  }

  // ---- Schedule independence ---------------------------------------------------------------

  /** `[votes_by_slot[i] for i in sorted(votes_by_slot)]`, for slots below `n`. */
  function InSlotOrder(votesBySlot: map<nat, Vote>, n: nat): seq<Vote> {
    if n == 0 then []
    else InSlotOrder(votesBySlot, n - 1) + if n - 1 in votesBySlot then [votesBySlot[n - 1]] else []
  }

  lemma {:induction false} CompleteDictionary(judges: Judges, votesBySlot: map<nat, Vote>, n: nat)
    requires forall i: nat :: i < n ==> (i in votesBySlot <==> SlotVote(judges, i).Some?)
    requires forall i: nat :: i < n && i in votesBySlot ==> SlotVote(judges, i) == Some(votesBySlot[i])
    ensures InSlotOrder(votesBySlot, n) == VotesOf(judges, n)
  {
    if n > 0 {
      CompleteDictionary(judges, votesBySlot, n - 1);
    }
  }

  /** Whatever the interleaving, once all threads are done the ordered votes are those of the
      sequential evaluation, so summary, distribution and dissent are too. */
  lemma ScheduleDoesNotMatter(judges: Judges, n: nat, schedule: seq<nat>)
    requires AllDone(Exec(judges, n, schedule))
    ensures InSlotOrder(Exec(judges, n, schedule).votesBySlot, n) == VotesOf(judges, n)
  {
    ExecAgrees(judges, n, schedule);
    var p := Exec(judges, n, schedule);
    forall i: nat | i < n
      ensures i in p.votesBySlot <==> SlotVote(judges, i).Some?
      ensures i in p.votesBySlot ==> SlotVote(judges, i) == Some(p.votesBySlot[i])
    {
      assert SlotAgrees(judges, p, i);
    }
    CompleteDictionary(judges, p.votesBySlot, n);
  }

  datatype PoolResult = PoolResult(summary: Summary, distribution: seq<Entry>, dissent: real, votes: seq<Vote>)

  /** What the pool computes from the dictionary after the join. */
  method SummarisePool(votesBySlot: map<nat, Vote>, n: nat) returns (r: PoolResult)
    ensures r.votes == InSlotOrder(votesBySlot, n)
    ensures r.summary == Aggregate(r.votes) && r.distribution == Distribution(r.votes)
    ensures Summarises(r.summary, r.votes)
    ensures r.dissent == Dissent(r.votes)
  {
    var votes: seq<Vote> := [];
    var i := 0;
    while i < n
      invariant 0 <= i <= n && votes == InSlotOrder(votesBySlot, i)
    {
      if i in votesBySlot {
        votes := votes + [votesBySlot[i]];
      }
      i := i + 1;
    }
    var summary := AggregateVotes(votes);
    var distribution := CountVerdicts(votes);
    var dissent := 0.0;
    if |votes| > 0 {
      DistributionCounts(votes);
      ConsensusIsFirstMajority(votes);
      var k := KeyIndex(distribution, summary.verdict);
      var consensusCount := if k < |distribution| then distribution[k].count else 0;
      var ratio := 1.0 - consensusCount as real / |votes| as real;
      dissent := if ratio > 0.0 then ratio else 0.0;
    }
    r := PoolResult(summary, distribution, dissent, votes);
  }

  /** A run of the pool under an arbitrary scheduler that ends when every thread is done. */
  method ScoreWithPool(judges: Judges, n: nat) returns (r: PoolResult)
    ensures r.votes == VotesOf(Anonymous(judges), n) && Summarises(r.summary, r.votes)
    ensures r.summary == Aggregate(r.votes) && r.distribution == Distribution(r.votes) && r.dissent == Dissent(r.votes)
  {
    var anonymous := Anonymous(judges);
    var p := Start(n);
    ghost var schedule: seq<nat> := [];
    while !AllDone(p)
      invariant p == Exec(anonymous, n, schedule)
      decreases Work(p.threads)
    {
      NeverStuck(anonymous, n, schedule);
      var i: nat :| i < |p.threads| && Enabled(p, i);
      assert Init(schedule + [i]) == schedule;
      schedule := schedule + [i];
      p := Step(anonymous, p, i);
    }
    ScheduleDoesNotMatter(anonymous, n, schedule);
    r := SummarisePool(p.votesBySlot, n);
  }
}
