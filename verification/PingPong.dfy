/**
 The ping-pong loop of the compute-shader executor: each step reads one buffer, writes the other,
 and swaps the two.
 */
module PingPong {
  import opened IntFacts
  import opened Options

  type State = seq<real>

  /** What the shader writes at an index, given both buffers; an index it does not write keeps the
      content of the output buffer. */
  type Kernel = (State, State, nat) -> real

  function Dispatch(kernel: Kernel, input: State, output: State): (next: State)
    requires |input| == |output|
    ensures |next| == |output|
  {
    seq(|output|, i requires 0 <= i < |output| => kernel(input, output, i))
  }

  /** Current and other buffer after `k` steps. */
  function Buffers(kernel: Kernel, initial: State, k: nat): (b: (State, State))
    ensures |b.0| == |b.1| == |initial|
  {
    if k == 0 then (initial, initial)
    else
      var (current, other) := Buffers(kernel, initial, k - 1);
      (Dispatch(kernel, current, other), current)
  }

  method WriteOutput(kernel: Kernel, input: array<real>, output: array<real>)
    requires input != output && input.Length == output.Length
    modifies output
    ensures output[..] == Dispatch(kernel, old(input[..]), old(output[..]))
  {
    var before, after := input[..], output[..];
    var i := 0;
    while i < output.Length
      invariant 0 <= i <= output.Length
      invariant forall j :: 0 <= j < i ==> output[j] == kernel(before, after, j)
    {
      output[i] := kernel(before, after, i);
      i := i + 1;
    }
  }

  lemma NextQuotient(s: nat, r: nat)
    requires r > 0
    ensures (s + 1) / r == s / r + (if (s + 1) % r == 0 then 1 else 0)
    ensures (s + 1) % r == 0 ==> (s / r + 1) * r == s + 1
  {
    var q, m := s / r, s % r;
    assert s == q * r + m;
    if m + 1 == r {
      assert s + 1 == (q + 1) * r;
      DivisionIs(s + 1, r, q + 1, 0);
    } else {
      DivisionIs(s + 1, r, q, m + 1);
    }
  }

  /** Runs the kernel `nSteps` times; with a positive period, a snapshot is taken whenever it divides
      the number of completed steps. */
  method RunPingPong(kernel: Kernel, initial: State, nSteps: int, readbackEvery: int)
    returns (output: State, snapshots: seq<State>)
    ensures nSteps <= 0 ==> output == initial && snapshots == []
    ensures nSteps > 0 ==> output == Buffers(kernel, initial, nSteps).0
    ensures readbackEvery <= 0 ==> snapshots == []
    ensures readbackEvery > 0 && nSteps > 0 ==> |snapshots| == nSteps / readbackEvery
    ensures readbackEvery > 0 && nSteps > 0 ==> forall k :: 0 <= k < |snapshots| ==>
              snapshots[k] == Buffers(kernel, initial, (k + 1) * readbackEvery).0
  {
    var n := |initial|;
    var bufA := new real[n](i requires 0 <= i < n => initial[i]);
    var bufB := new real[n](i requires 0 <= i < n => initial[i]);
    assert bufA[..] == initial && bufB[..] == initial;
    snapshots := [];
    var step := 0;
    while step < nSteps
      invariant 0 <= step && (step <= nSteps || step == 0)
      invariant bufA != bufB && bufA.Length == bufB.Length == n && fresh(bufA) && fresh(bufB)
      invariant (bufA[..], bufB[..]) == Buffers(kernel, initial, step)
      invariant readbackEvery <= 0 ==> snapshots == []
      invariant readbackEvery > 0 ==> |snapshots| == step / readbackEvery
      invariant readbackEvery > 0 ==> forall k :: 0 <= k < |snapshots| ==>
                  snapshots[k] == Buffers(kernel, initial, (k + 1) * readbackEvery).0
    {
      WriteOutput(kernel, bufA, bufB);
      bufA, bufB := bufB, bufA;
      if readbackEvery > 0 {
        NextQuotient(step, readbackEvery);
        if (step + 1) % readbackEvery == 0 {
          snapshots := snapshots + [bufA[..]];
        }
      }
      step := step + 1;
    }
    output := bufA[..];
  }

  // ---- Refinement --------------------------------------------------------------------------

  ghost predicate Overwrites(kernel: Kernel) {
    forall input: State, o1: State, o2: State, i: nat :: kernel(input, o1, i) == kernel(input, o2, i)
  }

  function Iterate(kernel: Kernel, initial: State, k: nat): (s: State)
    ensures |s| == |initial|
  {
    if k == 0 then initial
    else var s := Iterate(kernel, initial, k - 1); Dispatch(kernel, s, s)
  }

  ghost predicate RefinesIteration(kernel: Kernel, initial: State, n: nat) {
    forall k :: 0 <= k <= n ==> Buffers(kernel, initial, k).0 == Iterate(kernel, initial, k)
  }

  /** The content that step `k + 1` finds in its output buffer does not show in what it leaves there. */
  predicate StaleHidden(kernel: Kernel, initial: State, k: nat) {
    k > 0 ==>
      var current, before := Iterate(kernel, initial, k), Iterate(kernel, initial, k - 1);
      Dispatch(kernel, current, before) == Dispatch(kernel, current, current)
  }

  lemma BuffersHoldLastTwo(kernel: Kernel, initial: State, k: nat)
    requires RefinesIteration(kernel, initial, k)
    ensures Buffers(kernel, initial, k).0 == Iterate(kernel, initial, k)
    ensures Buffers(kernel, initial, k).1 == if k == 0 then initial else Iterate(kernel, initial, k - 1)
  {
    if k > 0 {
      assert Buffers(kernel, initial, k).1 == Buffers(kernel, initial, k - 1).0;
    }
  }

  /** The loop refines plain iteration up to step `n` exactly when stale content stays hidden at
      every step before. */
  lemma {:induction false} RefinesIterationExactly(kernel: Kernel, initial: State, n: nat)
    ensures RefinesIteration(kernel, initial, n) <==> forall k :: 0 <= k < n ==> StaleHidden(kernel, initial, k)
  {
    if n > 0 {
      RefinesIterationExactly(kernel, initial, n - 1);
      if RefinesIteration(kernel, initial, n - 1) {
        BuffersHoldLastTwo(kernel, initial, n - 1);
        assert Buffers(kernel, initial, n).0 == Iterate(kernel, initial, n) <==> StaleHidden(kernel, initial, n - 1);
      }
      assert RefinesIteration(kernel, initial, n) <==>
        RefinesIteration(kernel, initial, n - 1) && Buffers(kernel, initial, n).0 == Iterate(kernel, initial, n);
    }
  }

  /** A kernel that overwrites its whole output refines plain iteration. */
  lemma OverwritingKernelIterates(kernel: Kernel, initial: State, k: nat)
    requires Overwrites(kernel)
    ensures Buffers(kernel, initial, k).0 == Iterate(kernel, initial, k)
  {
    forall j | 0 <= j < k ensures StaleHidden(kernel, initial, j) {
      if j > 0 {
        var current, before := Iterate(kernel, initial, j), Iterate(kernel, initial, j - 1);
        assert Dispatch(kernel, current, before) == Dispatch(kernel, current, current);
      }
    }
    RefinesIterationExactly(kernel, initial, k);
  }

  /** What a shader writes at an index, or nothing. */
  type Writes = (State, nat) -> Option<real>

  function KernelOf(writes: Writes): Kernel {
    (input: State, output: State, i: nat) =>
      match writes(input, i)
      case Some(x) => x
      case None => if i < |output| then output[i] else 0.0
  }

  /** Every index that step `k + 1` leaves unwritten was left unchanged by step `k`. */
  predicate UnwrittenUnchanged(writes: Writes, initial: State, k: nat) {
    k > 0 ==>
      var current, before := Iterate(KernelOf(writes), initial, k), Iterate(KernelOf(writes), initial, k - 1);
      forall i :: 0 <= i < |initial| && writes(current, i).None? ==> current[i] == before[i]
  }

  lemma UnwrittenHidesExactly(writes: Writes, initial: State, k: nat)
    ensures StaleHidden(KernelOf(writes), initial, k) <==> UnwrittenUnchanged(writes, initial, k)
  {
    if k > 0 {
      var kernel := KernelOf(writes);
      var current, before := Iterate(kernel, initial, k), Iterate(kernel, initial, k - 1);
      var a, b := Dispatch(kernel, current, before), Dispatch(kernel, current, current);
      assert a == b <==> forall i :: 0 <= i < |initial| ==> a[i] == b[i];
      forall i | 0 <= i < |initial|
        ensures a[i] == b[i] <==> (writes(current, i).None? ==> current[i] == before[i])
      {
        assert a[i] == kernel(current, before, i) && b[i] == kernel(current, current, i);
      }
    }
  }

  /** Such a shader refines plain iteration exactly when this holds at every step before. */
  lemma PartialKernelIteratesExactly(writes: Writes, initial: State, n: nat)
    ensures RefinesIteration(KernelOf(writes), initial, n) <==>
              forall k :: 0 <= k < n ==> UnwrittenUnchanged(writes, initial, k)
  {
    RefinesIterationExactly(KernelOf(writes), initial, n);
    forall k | 0 <= k < n
      ensures StaleHidden(KernelOf(writes), initial, k) <==> UnwrittenUnchanged(writes, initial, k)
    {
      UnwrittenHidesExactly(writes, initial, k);
    }
  }

  /** An index the kernel never writes keeps its initial value in every state read back. */
  lemma {:induction false} UnwrittenIndexKeepsInitial(kernel: Kernel, initial: State, k: nat, i: nat)
    requires i < |initial|
    requires forall input: State, o: State :: i < |o| ==> kernel(input, o, i) == o[i]
    ensures Buffers(kernel, initial, k).0[i] == initial[i] == Buffers(kernel, initial, k).1[i]
  {
    if k > 0 {
      UnwrittenIndexKeepsInitial(kernel, initial, k - 1, i);
    }
  }

  /** Flips positive values and skips the others. */
  function FlipPositive(input: State, i: nat): Option<real> {
    if i < |input| && input[i] > 0.0 then Some(-1.0) else None
  }

  /** A shader that skips a write can bring back the state before the last. */
  lemma PartialKernelAlternates()
    ensures var kernel := KernelOf(FlipPositive);
            Buffers(kernel, [1.0], 1).0 == [-1.0] && Buffers(kernel, [1.0], 2).0 == [1.0]
            && Iterate(kernel, [1.0], 2) == [-1.0]
  {
    var kernel := KernelOf(FlipPositive);
    var a: State, b: State := [1.0], [-1.0];
    assert FlipPositive(a, 0) == Some(-1.0) && FlipPositive(b, 0) == None;
    assert kernel(a, a, 0) == -1.0 && kernel(b, a, 0) == 1.0 && kernel(b, b, 0) == -1.0;
    assert Dispatch(kernel, a, a) == b && Dispatch(kernel, b, a) == a && Dispatch(kernel, b, b) == b;
    assert Buffers(kernel, a, 1) == (b, a);
    assert Buffers(kernel, a, 2) == (a, b);
    assert Iterate(kernel, a, 1) == b;
  }
}
