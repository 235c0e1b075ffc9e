/**
 The pool of micro-VMs: pre-warming, acquisition with on-demand and last-ditch creation, release
 with replacement of sick VMs.  Creation, health and time are arbitrary.
 */
module VmPool {
  import opened Clocks
  import opened Options
  import opened Sequences

  const FIRST_GUEST_CID := 3

  /** `id` is the counter that makes up the VM's name. */
  datatype Vm = Vm(id: nat, cid: nat)

  /** `stopped` holds the ids of the VMs that were deleted and no longer run.  `issued` (all VMs whose
      creation succeeded) and `late` (acquires that passed their deadline) are history. */
  datatype State = State(available: seq<Vm>, acquired: map<nat, Vm>, counter: nat, stopped: set<nat>,
                         issued: seq<Vm>, late: nat)

  /** What happens to a pool; `started` says whether creating a VM succeeded. */
  datatype Event =
    | Prewarm(started: bool)
    | TakeAvailable
    | CreateOnDemand(started: bool)
    | CreateLate(started: bool)
    | ReleaseHealthy(vm: Vm)
    | ReleaseSick(vm: Vm, started: bool)
    | Shutdown

  const EMPTY := State([], map[], 0, {}, [], 0)

  function NewVm(s: State): Vm {
    Vm(s.counter + 1, FIRST_GUEST_CID + s.counter + 1)
  }

  /** Creation uses up a number even when it fails. */
  function Create(s: State, started: bool): State {
    s.(counter := s.counter + 1, issued := if started then s.issued + [NewVm(s)] else s.issued)
  }

  /** A new VM goes into the pool, if it starts. */
  function CreateAndOffer(s: State, started: bool): State {
    Create(s, started).(available := if started then s.available + [NewVm(s)] else s.available)
  }

  /** A VM is no longer held and is deleted. */
  function Delete(s: State, vm: Vm): State {
    s.(acquired := s.acquired - {vm.id}, stopped := s.stopped + {vm.id})
  }

  function Ids(vms: seq<Vm>): set<nat> {
    set vm | vm in vms :: vm.id
  }

  /** The ids in the books of the pool. */
  function TrackedIds(available: seq<Vm>, acquired: map<nat, Vm>): set<nat> {
    Ids(available) + acquired.Keys
  }

  function Apply(s: State, e: Event): State
    requires e.TakeAvailable? ==> s.available != []
  {
    match e
    case Prewarm(started) => CreateAndOffer(s, started)
    case TakeAvailable =>
      var vm := Last(s.available);
      s.(available := Init(s.available), acquired := s.acquired[vm.id := vm])
    case CreateOnDemand(started) =>
      Create(s, started).(acquired := if started then s.acquired[NewVm(s).id := NewVm(s)] else s.acquired)
    case CreateLate(started) =>
      Create(s, started).(acquired := if started then s.acquired[NewVm(s).id := NewVm(s)] else s.acquired,
                          late := s.late + 1)
    case ReleaseHealthy(vm) =>
      s.(acquired := s.acquired - {vm.id}, available := s.available + [vm])
    case ReleaseSick(vm, started) => CreateAndOffer(Delete(s, vm), started)
    case Shutdown =>
      s.(available := [], acquired := map[], stopped := s.stopped + TrackedIds(s.available, s.acquired))
  }

  predicate Holds(s: State, vm: Vm) {
    vm.id in s.acquired && s.acquired[vm.id] == vm
  }

  /** When the pool lets an event happen, and its clients release only what they hold. */
  predicate Allowed(s: State, e: Event, size: nat) {
    match e
    case Prewarm(_) => s.acquired == map[] && s.late == 0 && |s.available| < size
    case TakeAvailable => s.available != []
    case CreateOnDemand(_) => s.available == [] && |s.acquired| < size
    case CreateLate(_) => true
    case ReleaseHealthy(vm) => Holds(s, vm)
    case ReleaseSick(vm, _) => Holds(s, vm)
    case Shutdown => true
  }

  ghost predicate Run(s: State, events: seq<Event>, t: State, size: nat)
    decreases |events|
  {
    if events == [] then s == t
    else Allowed(s, events[0], size) && Run(Apply(s, events[0]), events[1..], t, size)
  }

  // ---- The invariant -----------------------------------------------------------------------

  ghost predicate Distinct(vms: seq<Vm>) {
    forall i, j :: 0 <= i < j < |vms| ==> vms[i].id != vms[j].id
  }

  /** Ids and CIDs of everything ever started: in the used range, paired, strictly increasing. */
  ghost predicate IssuedInOrder(issued: seq<Vm>, counter: nat) {
    && (forall vm :: vm in issued ==> 1 <= vm.id <= counter && vm.cid == FIRST_GUEST_CID + vm.id)
    && (forall i, j :: 0 <= i < j < |issued| ==> issued[i].id < issued[j].id)
  }

  ghost predicate Separate(available: seq<Vm>, acquired: map<nat, Vm>, issued: seq<Vm>) {
    && Distinct(available)
    && (forall vm :: vm in available ==> vm.id !in acquired && vm in issued)
    && (forall k :: k in acquired ==> acquired[k].id == k && acquired[k] in issued)
  }

  /** Every VM ever started is either tracked or stopped, never both. */
  ghost predicate Accounted(issued: seq<Vm>, counter: nat, tracked: set<nat>, stopped: set<nat>) {
    && (forall vm :: vm in issued ==> (vm.id in stopped <==> vm.id !in tracked))
    && (forall id :: id in stopped ==> id <= counter)
  }

  ghost predicate Invariant(s: State, size: nat) {
    && IssuedInOrder(s.issued, s.counter)
    && Separate(s.available, s.acquired, s.issued)
    && Accounted(s.issued, s.counter, TrackedIds(s.available, s.acquired), s.stopped)
    && |s.available| + |s.acquired| <= size + s.late
  }

  lemma RemoveOne(m: map<nat, Vm>, k: nat)
    requires k in m
    ensures |m - {k}| == |m| - 1
  {
    assert (m - {k}).Keys == m.Keys - {k};
    assert |m.Keys - {k}| == |m.Keys| - 1;
    assert |m| == |m.Keys| && |m - {k}| == |(m - {k}).Keys|;
  }

  predicate Untracked(available: seq<Vm>, acquired: map<nat, Vm>, id: nat) {
    id !in acquired && forall vm :: vm in available ==> vm.id != id
  }

  /** A started VM has a new number, is recorded, and is accounted for once it is tracked. */
  lemma CreateKeepsBooks(s: State, started: bool)
    requires IssuedInOrder(s.issued, s.counter) && Separate(s.available, s.acquired, s.issued)
    requires Accounted(s.issued, s.counter, TrackedIds(s.available, s.acquired), s.stopped)
    ensures var t, tracked := Create(s, started), TrackedIds(s.available, s.acquired);
            && IssuedInOrder(t.issued, t.counter) && Separate(s.available, s.acquired, t.issued)
            && Untracked(s.available, s.acquired, NewVm(s).id)
            && Accounted(t.issued, t.counter, if started then tracked + {NewVm(s).id} else tracked, s.stopped)
            && (started ==> NewVm(s) in t.issued)
  {}

  /** How the tracked ids change when a VM is held, offered or dropped. */
  lemma TrackedChanges(available: seq<Vm>, acquired: map<nat, Vm>, vm: Vm)
    ensures Untracked(available, acquired, vm.id) <==> vm.id !in TrackedIds(available, acquired)
    ensures TrackedIds(available, acquired[vm.id := vm]) == TrackedIds(available, acquired) + {vm.id}
    ensures TrackedIds(available + [vm], acquired) == TrackedIds(available, acquired) + {vm.id}
    ensures (forall w :: w in available ==> w.id != vm.id) ==>
              TrackedIds(available, acquired - {vm.id}) == TrackedIds(available, acquired) - {vm.id}
  {}

  /** Moving a VM from the held to the available ones leaves the tracked ids alone. */
  lemma TrackedMoves(available: seq<Vm>, acquired: map<nat, Vm>, vm: Vm)
    requires vm.id in acquired
    ensures TrackedIds(available + [vm], acquired - {vm.id}) == TrackedIds(available, acquired)
  {}

  lemma HoldKeepsSeparate(available: seq<Vm>, acquired: map<nat, Vm>, issued: seq<Vm>, vm: Vm)
    requires Separate(available, acquired, issued) && vm in issued && Untracked(available, acquired, vm.id)
    ensures Separate(available, acquired[vm.id := vm], issued)
    ensures |acquired[vm.id := vm]| == |acquired| + 1
  {
    assert acquired[vm.id := vm].Keys == acquired.Keys + {vm.id};
  }

  lemma OfferKeepsSeparate(available: seq<Vm>, acquired: map<nat, Vm>, issued: seq<Vm>, vm: Vm)
    requires Separate(available, acquired, issued) && vm in issued && Untracked(available, acquired, vm.id)
    ensures Separate(available + [vm], acquired, issued)
  {
    var more := available + [vm];
    forall i, j | 0 <= i < j < |more| ensures more[i].id != more[j].id {
      assert more[i] in available;
    }
  }

  lemma DropKeepsSeparate(available: seq<Vm>, acquired: map<nat, Vm>, issued: seq<Vm>, id: nat)
    requires Separate(available, acquired, issued) && id in acquired
    ensures Separate(available, acquired - {id}, issued) && Untracked(available, acquired - {id}, id)
    ensures |acquired - {id}| == |acquired| - 1
  {
    RemoveOne(acquired, id);
  }

  lemma WithdrawKeepsSeparate(available: seq<Vm>, acquired: map<nat, Vm>, issued: seq<Vm>)
    requires Separate(available, acquired, issued) && available != []
    ensures var rest, vm := Init(available), Last(available);
            && available == rest + [vm] && vm in issued
            && Separate(rest, acquired, issued) && Untracked(rest, acquired, vm.id)
  {
    var rest, vm := Init(available), Last(available);
    assert vm in available;
    forall w | w in rest ensures w in available && w.id != vm.id {
      var i :| 0 <= i < |rest| && rest[i] == w;
      assert available[i] == w;
    }
  }

  lemma TakeKeepsInvariant(s: State, size: nat)
    requires Invariant(s, size) && s.available != []
    ensures Invariant(Apply(s, TakeAvailable), size)
    ensures Last(s.available).id !in s.acquired
  {
    var rest, vm := Init(s.available), Last(s.available);
    WithdrawKeepsSeparate(s.available, s.acquired, s.issued);
    HoldKeepsSeparate(rest, s.acquired, s.issued, vm);
    TrackedChanges(rest, s.acquired, vm);
  }

  lemma AcquireNewKeepsInvariant(s: State, e: Event, size: nat)
    requires Invariant(s, size) && (e.CreateOnDemand? || e.CreateLate?) && Allowed(s, e, size)
    ensures Invariant(Apply(s, e), size)
  {
    CreateKeepsBooks(s, e.started);
    if e.started {
      HoldKeepsSeparate(s.available, s.acquired, Create(s, true).issued, NewVm(s));
      TrackedChanges(s.available, s.acquired, NewVm(s));
    }
  }

  lemma CreateAndOfferKeepsInvariant(s: State, started: bool, size: nat)
    requires Invariant(s, size) && (started ==> |s.available| + |s.acquired| < size + s.late)
    ensures Invariant(CreateAndOffer(s, started), size)
  {
    CreateKeepsBooks(s, started);
    if started {
      OfferKeepsSeparate(s.available, s.acquired, Create(s, true).issued, NewVm(s));
      TrackedChanges(s.available, s.acquired, NewVm(s));
    }
  }

  lemma StoppingIsAccounted(issued: seq<Vm>, counter: nat, tracked: set<nat>, stopped: set<nat>, vm: Vm)
    requires Accounted(issued, counter, tracked, stopped) && vm.id <= counter
    ensures Accounted(issued, counter, tracked - {vm.id}, stopped + {vm.id})
  {}

  lemma DeleteKeepsInvariant(s: State, vm: Vm, size: nat)
    requires Invariant(s, size) && Holds(s, vm)
    ensures Invariant(Delete(s, vm), size)
    ensures |s.available| + |Delete(s, vm).acquired| < size + s.late
  {
    DropKeepsSeparate(s.available, s.acquired, s.issued, vm.id);
    TrackedChanges(s.available, s.acquired, vm);
    StoppingIsAccounted(s.issued, s.counter, TrackedIds(s.available, s.acquired), s.stopped, vm);
  }

  lemma ReleaseHealthyKeepsInvariant(s: State, vm: Vm, size: nat)
    requires Invariant(s, size) && Holds(s, vm)
    ensures Invariant(Apply(s, ReleaseHealthy(vm)), size)
  {
    DropKeepsSeparate(s.available, s.acquired, s.issued, vm.id);
    OfferKeepsSeparate(s.available, s.acquired - {vm.id}, s.issued, vm);
    TrackedMoves(s.available, s.acquired, vm);
  }

  lemma AllStoppedIsAccounted(issued: seq<Vm>, counter: nat, tracked: set<nat>, stopped: set<nat>)
    requires Accounted(issued, counter, tracked, stopped) && forall id :: id in tracked ==> id <= counter
    ensures Accounted(issued, counter, {}, stopped + tracked)
  {}

  lemma ShutdownKeepsInvariant(s: State, size: nat)
    requires Invariant(s, size)
    ensures Invariant(Apply(s, Shutdown), size)
  {
    forall id | id in TrackedIds(s.available, s.acquired) ensures id <= s.counter {
      if id in s.acquired {
        assert s.acquired[id] in s.issued;
      } else {
        var vm :| vm in s.available && vm.id == id;
        assert vm in s.issued;
      }
    }
    AllStoppedIsAccounted(s.issued, s.counter, TrackedIds(s.available, s.acquired), s.stopped);
    assert TrackedIds([], map[]) == {};
  }

  lemma StepKeepsInvariant(s: State, e: Event, size: nat)
    requires Invariant(s, size) && Allowed(s, e, size)
    ensures Invariant(Apply(s, e), size)
  {
    match e {
      case Prewarm(started) => CreateAndOfferKeepsInvariant(s, started, size);
      case TakeAvailable => TakeKeepsInvariant(s, size);
      case CreateOnDemand(_) => AcquireNewKeepsInvariant(s, e, size);
      case CreateLate(_) => AcquireNewKeepsInvariant(s, e, size);
      case ReleaseHealthy(vm) => ReleaseHealthyKeepsInvariant(s, vm, size);
      case ReleaseSick(vm, started) =>
        DeleteKeepsInvariant(s, vm, size);
        CreateAndOfferKeepsInvariant(Delete(s, vm), started, size);
      case Shutdown => ShutdownKeepsInvariant(s, size);
    }
  }

  /** Over every run in which clients release only what they hold: available and held VMs are
      disjoint and duplicate-free, all ids and CIDs ever issued differ, every VM started is either
      tracked or stopped, and no more than the pool size plus the late acquires are tracked. */
  lemma {:induction false} EveryRunKeepsInvariant(s: State, events: seq<Event>, t: State, size: nat)
    requires Invariant(s, size) && Run(s, events, t, size)
    ensures Invariant(t, size)
    decreases |events|
  {
    if events != [] {
      StepKeepsInvariant(s, events[0], size);
      EveryRunKeepsInvariant(Apply(s, events[0]), events[1..], t, size);
    }
  }

  lemma {:induction false} RunExtends(s: State, events: seq<Event>, t: State, e: Event, size: nat)
    requires Run(s, events, t, size) && Allowed(t, e, size)
    ensures Run(s, events + [e], Apply(t, e), size)
    decreases |events|
  {
    if events == [] {
      assert [e][1..] == [];
    } else {
      RunExtends(Apply(s, events[0]), events[1..], t, e, size);
      assert (events + [e])[1..] == events[1..] + [e];
    }
  }

  lemma NothingHappens(s: State, size: nat)
    ensures Run(s, [], s, size)
  {}

  /** What a release does: a VM that still runs and responds returns, any other is replaced. */
  function ReleaseOf(s: State, vm: Vm, responds: bool, started: bool): Event {
    if vm.id !in s.stopped && responds then ReleaseHealthy(vm) else ReleaseSick(vm, started)
  }

  lemma IdsAreUnique(issued: seq<Vm>, counter: nat, vm: Vm, other: Vm)
    requires IssuedInOrder(issued, counter) && vm in issued && other in issued && vm.id == other.id
    ensures vm == other
  {}

  /** A VM of this pool that is not held is either available or stopped. */
  lemma UnheldIsAvailableOrStopped(s: State, vm: Vm, size: nat)
    requires Invariant(s, size) && vm in s.issued && !Holds(s, vm)
    ensures vm.id !in s.acquired
    ensures vm in s.available <==> vm.id !in s.stopped
  {
    if vm.id in s.acquired {
      IdsAreUnique(s.issued, s.counter, vm, s.acquired[vm.id]);
    }
    forall w | w in s.available && w.id == vm.id ensures w == vm {
      IdsAreUnique(s.issued, s.counter, vm, w);
    }
  }

  lemma OfferedTwice(available: seq<Vm>, vm: Vm)
    requires vm in available
    ensures !Distinct(available + [vm])
  {
    var i :| 0 <= i < |available| && available[i] == vm;
    assert (available + [vm])[i] == vm && (available + [vm])[|available|] == vm;
  }

  /** What goes wrong in the release of a VM that is not held. */
  ghost predicate Breaks(s: State, vm: Vm, responds: bool, started: bool) {
    var t := Apply(s, ReleaseOf(s, vm, responds, started));
    if vm in s.available then
      if responds then !Distinct(t.available) else vm in t.available && vm.id in t.stopped
    else
      t == CreateAndOffer(s, started)
  }

  lemma UnheldEffect(s: State, vm: Vm, responds: bool, started: bool)
    requires vm.id !in s.acquired && (vm in s.available <==> vm.id !in s.stopped)
    ensures Breaks(s, vm, responds, started)
  {
    assert s.acquired - {vm.id} == s.acquired;
    if vm in s.available {
      OfferedTwice(s.available, vm);
    } else {
      assert s.stopped + {vm.id} == s.stopped;
    }
  }

  /** Releasing a VM that is not held: an available one that responds is offered twice, one that
      does not is stopped and still offered, and a stopped one is replaced once more. */
  lemma UnheldReleaseBreaks(s: State, vm: Vm, responds: bool, started: bool, size: nat)
    requires Invariant(s, size) && vm in s.issued && !Holds(s, vm)
    ensures Breaks(s, vm, responds, started)
  {
    UnheldIsAvailableOrStopped(s, vm, size);
    UnheldEffect(s, vm, responds, started);
  }

  /** Releasing a VM of this pool keeps the invariant exactly when the VM is held, or has been
      stopped and the replacement it is given once more, if any, still fits. */
  lemma ReleaseExactly(s: State, vm: Vm, responds: bool, started: bool, size: nat)
    requires Invariant(s, size) && vm in s.issued
    ensures Invariant(Apply(s, ReleaseOf(s, vm, responds, started)), size) <==>
              || Holds(s, vm)
              || (vm.id in s.stopped && (started ==> |s.available| + |s.acquired| < size + s.late))
  {
    var e := ReleaseOf(s, vm, responds, started);
    if Holds(s, vm) {
      StepKeepsInvariant(s, e, size);
    } else {
      UnheldReleaseBreaks(s, vm, responds, started, size);
      if vm.id in s.stopped && (started ==> |s.available| + |s.acquired| < size + s.late) {
        CreateAndOfferKeepsInvariant(s, started, size);
      }
    }
  }

  /** After a double release of a VM that responds, two clients get it. */
  lemma DoubleReleaseHandsOutTwice(s: State, vm: Vm, started: bool, size: nat)
    requires Invariant(s, size) && Holds(s, vm)
    ensures var once := Apply(s, ReleaseOf(s, vm, true, started));
            var twice := Apply(once, ReleaseOf(once, vm, true, started));
            var first := Apply(twice, TakeAvailable);
            && Holds(first, vm) && first.available != [] && Last(first.available) == vm
            && Holds(Apply(first, TakeAvailable), vm)
  {}

  /** Such a state is one event away from the empty pool. */
  lemma FirstVmIsHeld(size: nat)
    requires size >= 1
    ensures Run(EMPTY, [CreateOnDemand(true)], Apply(EMPTY, CreateOnDemand(true)), size)
    ensures Holds(Apply(EMPTY, CreateOnDemand(true)), Vm(1, 4))
    ensures Invariant(Apply(EMPTY, CreateOnDemand(true)), size)
  {
    assert Invariant(EMPTY, size);
    StepKeepsInvariant(EMPTY, CreateOnDemand(true), size);
    assert [CreateOnDemand(true)][1..] == [];
  }

  /** The states of a pool whose clients release only what they hold. */
  ghost predicate Reached(s: State, size: nat) {
    exists events :: Run(EMPTY, events, s, size)
  }

  lemma ReachedIsInvariant(s: State, size: nat)
    requires Reached(s, size)
    ensures Invariant(s, size)
  {
    var events :| Run(EMPTY, events, s, size);
    assert Invariant(EMPTY, size);
    EveryRunKeepsInvariant(EMPTY, events, s, size);
  }

  lemma ReachedGoesOn(s: State, e: Event, size: nat)
    requires Reached(s, size) && Allowed(s, e, size)
    ensures Reached(Apply(s, e), size)
  {
    var events :| Run(EMPTY, events, s, size);
    RunExtends(EMPTY, events, s, e, size);
  }

  /** Nothing or one event leads from one state to the other. */
  predicate Leads(s: State, happened: Option<Event>, t: State, size: nat) {
    match happened
    case None => t == s
    case Some(e) => Allowed(s, e, size) && t == Apply(s, e)
  }

  function Extended(events: seq<Event>, happened: Option<Event>): seq<Event> {
    if happened.Some? then events + [happened.value] else events
  }

  lemma RunLeadsOn(s: State, events: seq<Event>, t: State, happened: Option<Event>, u: State, size: nat)
    requires Run(s, events, t, size) && Leads(t, happened, u, size)
    ensures Run(s, Extended(events, happened), u, size)
  {
    if happened.Some? {
      RunExtends(s, events, t, happened.value, size);
    }
  }

  /** The VM that comes next, from the pool or from a creation, is held by nobody. */
  lemma NextIsFree(s: State, size: nat)
    requires Reached(s, size)
    ensures s.available != [] ==> Last(s.available).id !in s.acquired
    ensures NewVm(s).id !in s.acquired
  {
    ReachedIsInvariant(s, size);
    CreateKeepsBooks(s, true);
    if s.available != [] {
      TakeKeepsInvariant(s, size);
    }
  }

  /** Nothing but failed creations on demand. */
  function Failures(k: nat): (events: seq<Event>)
    ensures |events| == k
  {
    seq(k, _ => CreateOnDemand(false))
  }

  /** What happens in `turns` turns of a tenth of a second without an available VM: a creation each, as
      long as fewer VMs than the size are held.  It ends with the first one that succeeds, or with one
      more creation once the time is out. */
  predicate WaitedInVain(events: seq<Event>, success: bool, turns: nat, tries: bool, waited: real, timeout: real) {
    if events != [] && Last(events) == CreateOnDemand(true) then
      success && tries && turns > 0 && events == Failures(turns - 1) + [CreateOnDemand(true)]
      && waited >= 0.1 * (turns - 1) as real
    else
      events == Failures(if tries then turns else 0) + [CreateLate(success)]
      && waited >= timeout && waited >= 0.1 * turns as real
  }

  // ---- The pool object ---------------------------------------------------------------------

  lemma SleepMakesProgress(deadline: real, earlier: real, now: real)
    requires earlier < deadline && earlier + 0.1 <= now
    ensures ((deadline - now) / 0.1).Floor + (if now < deadline then 1 else 0)
          < ((deadline - earlier) / 0.1).Floor + 1
    ensures ((deadline - earlier) / 0.1).Floor >= 0
  {
    assert (deadline - earlier) / 0.1 == 10.0 * (deadline - earlier);
    assert (deadline - now) / 0.1 == 10.0 * (deadline - now);
  }

  class FirecrackerPool {
    const size: int
    const hasKvm: bool
    const clock: Clock
    var available: seq<Vm>
    var acquired: map<nat, Vm>
    var counter: nat
    var stopped: set<nat>
    ghost var issued: seq<Vm>
    ghost var late: nat

    ghost function View(): State
      reads this
    {
      State(available, acquired, counter, stopped, issued, late)
    }

    ghost function Size(): nat {
      if size > 0 then size else 0
    }

    /** Allowed events lead from the empty pool here; so the invariant holds. */
    ghost predicate Valid()
      reads this
    {
      Reached(View(), Size())
    }

    /** Boots a VM under the next number, or fails. */
    method CreateVm() returns (vm: Option<Vm>)
      modifies this`counter, this`issued
      ensures View() == Create(old(View()), vm.Some?)
      ensures vm.Some? ==> vm.value == NewVm(old(View())) == Vm(counter, 3 + counter)
    {
      counter := counter + 1;
      var boots: bool := *;
      if !boots {
        return None;
      }
      var fresh' := Vm(counter, FIRST_GUEST_CID + counter);
      issued := issued + [fresh'];
      return Some(fresh');
    }

    constructor (size: int, hasKvm: bool, clock: Clock)
      ensures Valid() && acquired == map[] && late == 0
      ensures this.size == size && this.hasKvm == hasKvm && this.clock == clock
      ensures !hasKvm ==> View() == EMPTY
      ensures hasKvm ==> counter == Size() && available == issued
    {
      this.size, this.hasKvm, this.clock := size, hasKvm, clock;
      available, acquired, counter := [], map[], 0;
      stopped, issued, late := {}, [], 0;
      new;
      NothingHappens(EMPTY, Size());
      if !hasKvm {
        return;
      }
      var n := 0;
      while n < size
        invariant Valid() && acquired == map[] && late == 0
        invariant |available| <= n == counter && available == issued
        invariant n == 0 || n <= size
      {
        ghost var before := View();
        var vm := CreateVm();
        if vm.Some? {
          available := available + [vm.value];
        }
        ReachedGoesOn(before, Prewarm(vm.Some?), Size());
        assert View() == Apply(before, Prewarm(vm.Some?));
        n := n + 1;
      }
    }

    method TakeLast() returns (vm: Vm)
      requires Valid() && available != []
      modifies this`available, this`acquired
      ensures View() == Apply(old(View()), TakeAvailable) && vm == Last(old(available))
      ensures Holds(View(), vm) && vm.id !in old(acquired)
    {
      NextIsFree(View(), Size());
      vm := Last(available);
      available, acquired := Init(available), acquired[vm.id := vm];
    }

    method CreateAndHold() returns (vm: Option<Vm>)
      requires Valid()
      modifies this`counter, this`issued, this`acquired
      ensures View() == Create(old(View()), vm.Some?).(acquired := acquired)
      ensures acquired == if vm.Some? then old(acquired)[vm.value.id := vm.value] else old(acquired)
      ensures vm.Some? ==> vm.value == NewVm(old(View())) && vm.value.id !in old(acquired)
    {
      NextIsFree(View(), Size());
      vm := CreateVm();
      if vm.Some? {
        acquired := acquired[vm.value.id := vm.value];
      }
    }

    /** One turn of waiting: an available VM, else a creation as long as fewer than `size` are held. */
    method Attempt() returns (vm: Option<Vm>, ghost happened: Option<Event>)
      requires Valid()
      modifies this`available, this`acquired, this`counter, this`issued
      ensures Valid() && Leads(old(View()), happened, View(), Size())
      ensures vm.Some? ==> Holds(View(), vm.value) && vm.value.id !in old(acquired)
      ensures vm.None? ==> acquired == old(acquired) && available == old(available)
      ensures old(available) != [] ==> vm == Some(Last(old(available))) && happened == Some(TakeAvailable)
      ensures old(available) == [] && |old(acquired)| < size ==> happened == Some(CreateOnDemand(vm.Some?))
      ensures old(available) == [] && |old(acquired)| >= size ==> vm.None? && happened.None?
    {
      ghost var before := View();
      happened := None;
      if available != [] {
        var taken := TakeLast();
        ReachedGoesOn(before, TakeAvailable, Size());
        return Some(taken), Some(TakeAvailable);
      }
      vm := None;
      if |acquired| < size {
        vm := CreateAndHold();
        happened := Some(CreateOnDemand(vm.Some?));
        ReachedGoesOn(before, happened.value, Size());
      }
    }

    /** One more creation past the deadline, whatever the size. */
    method LastDitch() returns (vm: Option<Vm>, ghost happened: Option<Event>)
      requires Valid()
      modifies this`acquired, this`counter, this`issued, this`late
      ensures Valid() && Leads(old(View()), happened, View(), Size())
      ensures vm.Some? ==> Holds(View(), vm.value) && vm.value.id !in old(acquired)
      ensures vm.None? ==> acquired == old(acquired)
      ensures late == old(late) + 1 && happened == Some(CreateLate(vm.Some?))
    {
      ghost var before := View();
      vm := CreateAndHold();
      late := late + 1;
      happened := Some(CreateLate(vm.Some?));
      ReachedGoesOn(before, happened.value, Size());
    }

    /** The waiting loop: ends with a VM, or without one once the deadline has passed. */
    method Wait(deadline: real, ghost start: real, ghost tries: bool)
      returns (vm: Option<Vm>, ghost events: seq<Event>, ghost look: real, ghost turns: nat)
      requires Valid() && start <= clock.now && (tries <==> available == [] && |acquired| < size)
      modifies this`available, this`acquired, this`counter, this`issued, clock
      ensures Valid() && Run(old(View()), events, View(), Size())
      ensures vm.Some? ==> Holds(View(), vm.value) && vm.value.id !in old(acquired)
      ensures old(clock.now) <= look <= clock.now && (turns > 0 <==> look < deadline)
      ensures turns > 0 && old(available) != [] ==> vm == Some(Last(old(available))) && events == [TakeAvailable]
      ensures vm.Some? && old(available) == [] ==>
                tries && turns > 0 && events == Failures(turns - 1) + [CreateOnDemand(true)]
                && clock.now - start >= 0.1 * (turns - 1) as real
      ensures vm.Some? ==> turns > 0
      ensures vm.None? ==>
                && acquired == old(acquired) && available == old(available)
                && events == Failures(if tries then turns else 0)
                && clock.now >= deadline && clock.now - start >= 0.1 * turns as real
    {
      events, turns, vm := [], 0, None;
      NothingHappens(View(), Size());
      var now := clock.Read();
      look := now;
      ghost var happened;
      while now < deadline
        invariant Valid() && Run(old(View()), events, View(), Size()) && vm.None?
        invariant look <= now <= clock.now && (turns == 0 ==> now == look) && (turns > 0 ==> look < deadline)
        invariant acquired == old(acquired) && available == old(available)
        invariant turns > 0 ==> available == []
        invariant events == Failures(if tries then turns else 0)
        invariant now - start >= 0.1 * turns as real
        decreases ((deadline - now) / 0.1).Floor + (if now < deadline then 1 else 0)
      {
        ghost var before := View();
        vm, happened := Attempt();
        RunLeadsOn(old(View()), events, before, happened, View(), Size());
        events := Extended(events, happened);
        turns := turns + 1;
        if vm.Some? {
          return;
        }
        ghost var earlier := now;
        clock.Sleep(0.1);
        now := clock.Read();
        SleepMakesProgress(deadline, earlier, now);
      }
    }

    /** Takes a VM, or fails when there is no KVM or the last creation fails.  `start` and `look` are
        the clock readings that fix the deadline and decide about the first turn of waiting, `turns` is
        the number of turns; the events are what happened on the way. */
    method Acquire(timeout: real)
      returns (vm: Option<Vm>, ghost events: seq<Event>, ghost start: real, ghost look: real, ghost turns: nat)
      requires Valid()
      modifies this, clock
      ensures Valid() && Run(old(View()), events, View(), Size())
      ensures vm.Some? ==> Holds(View(), vm.value) && vm.value.id !in old(acquired)
      ensures vm.None? ==> acquired == old(acquired) && available == old(available)
      ensures !hasKvm ==> vm.None? && View() == old(View())
      ensures hasKvm ==> old(clock.now) <= start <= look <= clock.now && (turns > 0 <==> look < start + timeout)
      ensures hasKvm && turns > 0 && old(available) != [] ==>
                vm == Some(Last(old(available))) && events == [TakeAvailable]
      ensures hasKvm && (turns == 0 || old(available) == []) ==>
                WaitedInVain(events, vm.Some?, turns, old(available) == [] && |old(acquired)| < size,
                             clock.now - start, timeout)
      ensures late == old(late) + if events != [] && Last(events).CreateLate? then 1 else 0
    {
      events, start, look, turns := [], clock.now, clock.now, 0;
      NothingHappens(View(), Size());
      if !hasKvm {
        return None, events, start, look, turns;
      }
      ghost var tries := available == [] && |acquired| < size;
      var now := clock.Read();
      start := now;
      var deadline := now + timeout;
      vm, events, look, turns := Wait(deadline, start, tries);
      if vm.Some? {
        return;
      }
      ghost var before, happened := View(), None;
      vm, happened := LastDitch();
      RunLeadsOn(old(View()), events, before, happened, View(), Size());
      events := Extended(events, happened);
    }

    /** Deletes a VM and offers a new one instead, if that boots. */
    method Replace(vm: Vm) returns (replaced: bool)
      modifies this`available, this`counter, this`stopped, this`issued
      ensures View() == CreateAndOffer(old(View()).(stopped := old(stopped) + {vm.id}), replaced)
      ensures counter == old(counter) + 1 && stopped == old(stopped) + {vm.id}
      ensures available == old(available) + if replaced then [Vm(counter, 3 + counter)] else []
    {
      stopped := stopped + {vm.id};
      var made := CreateVm();
      replaced := made.Some?;
      if replaced {
        available := available + [made.value];
      }
    }

    /** Gives a VM back; `responds` is what its health check would say. */
    method Release(vm: Vm, responds: bool) returns (ghost replaced: bool)
      modifies this
      ensures !hasKvm ==> View() == old(View()).(acquired := old(acquired) - {vm.id})
      ensures acquired == old(acquired) - {vm.id}
      ensures hasKvm ==> View() == Apply(old(View()), ReleaseOf(old(View()), vm, responds, replaced))
      ensures hasKvm && old(vm.id !in stopped) && responds ==>
                available == old(available) + [vm] && counter == old(counter) && stopped == old(stopped)
      ensures hasKvm && !(old(vm.id !in stopped) && responds) ==>
                && counter == old(counter) + 1 && stopped == old(stopped) + {vm.id}
                && available == old(available) + if replaced then [Vm(counter, 3 + counter)] else []
      ensures old(Valid()) && hasKvm && Holds(old(View()), vm) ==> Valid()
    {
      ghost var before := View();
      acquired := acquired - {vm.id};
      replaced := false;
      if !hasKvm {
        return;
      }
      if vm.id !in stopped && responds {
        available := available + [vm];
      } else {
        replaced := Replace(vm);
      }
      assert View() == Apply(before, ReleaseOf(before, vm, responds, replaced));
      if Reached(before, Size()) && Holds(before, vm) {
        ReachedGoesOn(before, ReleaseOf(before, vm, responds, replaced), Size());
      }
    }

    method ShutDown()
      requires Valid()
      modifies this
      ensures Valid() && View() == Apply(old(View()), Shutdown)
      ensures available == [] && acquired == map[] && stopped == old(stopped + TrackedIds(available, acquired))
    {
      ReachedGoesOn(View(), Shutdown, Size());
      stopped := stopped + TrackedIds(available, acquired);
      available, acquired := [], map[];
    }
  }
}
