/** The readiness probes of gce/gcemanager.go (ProbeVmRunning, ProbeVmStopped,
    ProbeDiskCreation). Each loop iteration first compares the time elapsed
    since the probe started with its timeout and gives up (sending false)
    when it is strictly greater; otherwise it reads the resource, keeps
    polling on a read error or another status, and sends true on the target
    status. Real time is replaced by a trace: the elapsed time at the top of
    each iteration and what the read in that iteration would return. */
module GceProbe {

  /** One second of Go's time.Duration, in nanoseconds. */
  const Second: nat := 1_000_000_000

  const VmRunningTimeout: nat := 180 * Second
  const VmStoppingTimeout: nat := 180 * Second
  const DiskCreationTimeout: nat := 180 * Second

  /** What one read (GetVm or GetDisk) returns: an error, or the resource's status. */
  datatype Observation = ReadFailed | Observed(status: string)

  /** One loop iteration: elapsed time at its top, and the read it would make. */
  datatype Tick = Tick(elapsed: nat, observation: Observation)

  /** The value sent on the observer channel and the iteration that sent it,
      or Pending when the trace ends before the loop sends anything. */
  datatype Emission = Emitted(value: bool, iteration: nat) | Pending

  /** The deadline check at the top of an iteration fires. */
  predicate Expired(timeout: nat, t: Tick)
  {
    t.elapsed > timeout
  }

  /** The read succeeded and reported the target status. */
  predicate Reached(target: string, t: Tick)
  {
    t.observation == Observed(target)
  }

  /** The iteration ends in `continue`: within the deadline, and either the read
      failed or the status is not the target. */
  predicate KeepsPolling(timeout: nat, target: string, t: Tick)
  {
    !Expired(timeout, t) && !Reached(target, t)
  }

  /** Iteration `i` is the first that does not continue, so the loop ends there. */
  ghost predicate Decides(timeout: nat, target: string, trace: seq<Tick>, i: nat)
  {
    && i < |trace|
    && !KeepsPolling(timeout, target, trace[i])
    && forall j :: 0 <= j < i ==> KeepsPolling(timeout, target, trace[j])
  }

  /** The probe loop, shared by the three probes. */
  function Watch(timeout: nat, target: string, trace: seq<Tick>): (e: Emission)
    ensures e.Emitted? ==> Decides(timeout, target, trace, e.iteration)
    ensures e.Emitted? ==> (e.value <==> !Expired(timeout, trace[e.iteration]))
    ensures e.Emitted? && e.value ==> Reached(target, trace[e.iteration])
    ensures e.Pending? <==> forall j :: 0 <= j < |trace| ==> KeepsPolling(timeout, target, trace[j])
  {
    if trace == [] then Pending
    else if Expired(timeout, trace[0]) then Emitted(false, 0)
    else if Reached(target, trace[0]) then Emitted(true, 0)
    else
      match Watch(timeout, target, trace[1..])
      case Pending => Pending
      case Emitted(v, i) =>
        assert forall j :: 1 <= j <= i ==> trace[j] == trace[1..][j - 1];
        Emitted(v, i + 1)
  }

  /** At most one iteration decides, so a probe sends at most one value. */
  lemma DecidesUnique(timeout: nat, target: string, trace: seq<Tick>, i: nat, k: nat)
    requires Decides(timeout, target, trace, i) && Decides(timeout, target, trace, k)
    ensures i == k
  {
  }

  /** A probe sends true exactly when some iteration reads the target status
      before the deadline and no earlier iteration ended the loop. */
  lemma WatchReadyIff(timeout: nat, target: string, trace: seq<Tick>)
    ensures Watch(timeout, target, trace).Emitted? && Watch(timeout, target, trace).value
      <==> exists i: nat :: Decides(timeout, target, trace, i) && !Expired(timeout, trace[i])
  {
    var e := Watch(timeout, target, trace);
    if i: nat :| Decides(timeout, target, trace, i) && !Expired(timeout, trace[i]) {
      if e.Emitted? {
        DecidesUnique(timeout, target, trace, i, e.iteration);
      }
    }
  }

  /** A probe sends false exactly when the deadline check fires in an
      iteration that no earlier iteration preempted. */
  lemma WatchTimedOutIff(timeout: nat, target: string, trace: seq<Tick>)
    ensures Watch(timeout, target, trace).Emitted? && !Watch(timeout, target, trace).value
      <==> exists i: nat :: Decides(timeout, target, trace, i) && Expired(timeout, trace[i])
  {
    var e := Watch(timeout, target, trace);
    if i: nat :| Decides(timeout, target, trace, i) && Expired(timeout, trace[i]) {
      if e.Emitted? {
        DecidesUnique(timeout, target, trace, i, e.iteration);
      }
    }
  }

  /** Once a probe has sent its value, later iterations of the trace are never
      looked at: extending the trace does not change what is sent. */
  lemma {:induction false} WatchStable(timeout: nat, target: string, trace: seq<Tick>, more: seq<Tick>)
    requires Watch(timeout, target, trace).Emitted?
    ensures Watch(timeout, target, trace + more) == Watch(timeout, target, trace)
    decreases |trace|
  {
    assert (trace + more)[0] == trace[0];
    if KeepsPolling(timeout, target, trace[0]) {
      assert (trace + more)[1..] == trace[1..] + more;
      WatchStable(timeout, target, trace[1..], more);
    }
  }

  /** A failed read never ends the loop: within the deadline it is skipped. */
  lemma ReadFailureKeepsPolling(timeout: nat, target: string, elapsed: nat, rest: seq<Tick>)
    requires elapsed <= timeout
    ensures var e := Watch(timeout, target, [Tick(elapsed, ReadFailed)] + rest);
      match Watch(timeout, target, rest)
      case Pending => e.Pending?
      case Emitted(v, i) => e == Emitted(v, i + 1)
  {
    assert ([Tick(elapsed, ReadFailed)] + rest)[1..] == rest;
  }

  /** The deadline is strict: reading the target status at exactly the
      timeout still counts as ready. */
  lemma ReadyAtTheDeadline(timeout: nat, target: string, rest: seq<Tick>)
    ensures Watch(timeout, target, [Tick(timeout, Observed(target))] + rest) == Emitted(true, 0)
  {
  }

  /** A trace that passes the deadline makes the probe send something. */
  lemma DeadlineForcesEmission(timeout: nat, target: string, trace: seq<Tick>, i: nat)
    requires i < |trace| && Expired(timeout, trace[i])
    ensures Watch(timeout, target, trace).Emitted?
  {
    assert !KeepsPolling(timeout, target, trace[i]);
  }

  /** ProbeVmRunning: waits for status RUNNING for at most 180 seconds. */
  function ProbeVmRunning(trace: seq<Tick>): (e: Emission)
    ensures e.Emitted? ==> e.iteration < |trace|
    ensures e.Emitted? && e.value ==> trace[e.iteration].observation == Observed("RUNNING")
    ensures e.Emitted? && !e.value ==> trace[e.iteration].elapsed > 180 * Second
    ensures e.Emitted? ==> forall j :: 0 <= j < e.iteration ==>
      trace[j].elapsed <= 180 * Second && trace[j].observation != Observed("RUNNING")
    ensures e.Emitted? ==> (e.value <==> trace[e.iteration].elapsed <= 180 * Second)
    ensures e.Pending? <==> forall j :: 0 <= j < |trace| ==>
      trace[j].elapsed <= 180 * Second && trace[j].observation != Observed("RUNNING")
  {
    Watch(VmRunningTimeout, "RUNNING", trace)
  }

  /** ProbeVmStopped: waits for status TERMINATED for at most 180 seconds. */
  function ProbeVmStopped(trace: seq<Tick>): (e: Emission)
    ensures e.Emitted? ==> e.iteration < |trace|
    ensures e.Emitted? && e.value ==> trace[e.iteration].observation == Observed("TERMINATED")
    ensures e.Emitted? && !e.value ==> trace[e.iteration].elapsed > 180 * Second
    ensures e.Emitted? ==> forall j :: 0 <= j < e.iteration ==>
      trace[j].elapsed <= 180 * Second && trace[j].observation != Observed("TERMINATED")
    ensures e.Emitted? ==> (e.value <==> trace[e.iteration].elapsed <= 180 * Second)
    ensures e.Pending? <==> forall j :: 0 <= j < |trace| ==>
      trace[j].elapsed <= 180 * Second && trace[j].observation != Observed("TERMINATED")
  {
    Watch(VmStoppingTimeout, "TERMINATED", trace)
  }

  /** ProbeDiskCreation: waits for status READY for at most 180 seconds. */
  function ProbeDiskCreation(trace: seq<Tick>): (e: Emission)
    ensures e.Emitted? ==> e.iteration < |trace|
    ensures e.Emitted? && e.value ==> trace[e.iteration].observation == Observed("READY")
    ensures e.Emitted? && !e.value ==> trace[e.iteration].elapsed > 180 * Second
    ensures e.Emitted? ==> forall j :: 0 <= j < e.iteration ==>
      trace[j].elapsed <= 180 * Second && trace[j].observation != Observed("READY")
    ensures e.Emitted? ==> (e.value <==> trace[e.iteration].elapsed <= 180 * Second)
    ensures e.Pending? <==> forall j :: 0 <= j < |trace| ==>
      trace[j].elapsed <= 180 * Second && trace[j].observation != Observed("READY")
  {
    Watch(DiskCreationTimeout, "READY", trace)
  }

  /** A disk that is not found twice and then READY is reported ready on the
      third iteration. */
  lemma DiskReadyOnThirdRead()
    ensures ProbeDiskCreation([Tick(0, ReadFailed), Tick(10 * Second, ReadFailed),
                               Tick(20 * Second, Observed("READY"))]) == Emitted(true, 2)
  {
    var ready := [Tick(20 * Second, Observed("READY"))];
    assert Watch(DiskCreationTimeout, "READY", ready) == Emitted(true, 0);
    ReadFailureKeepsPolling(DiskCreationTimeout, "READY", 10 * Second, ready);
    var second := [Tick(10 * Second, ReadFailed)] + ready;
    ReadFailureKeepsPolling(DiskCreationTimeout, "READY", 0, second);
    assert [Tick(0, ReadFailed)] + second
      == [Tick(0, ReadFailed), Tick(10 * Second, ReadFailed), Tick(20 * Second, Observed("READY"))];
  }
}
