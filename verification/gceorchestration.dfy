/** The mutate-then-wait operations of gce/gcemanager.go. NewVm and NewDisk
    insert a resource, then block on a readiness probe; StopVm and StartVm
    issue their request, then block on a caller-supplied VmConditionChecker.
    API outcomes and checker results are inputs; the probes run on traces. */
module GceOrchestration {
  import opened Base
  import opened GceTypes
  import opened GceProbe

  /** Insert, then wait for the probe: an insert error is returned at once and
      no probe is started; otherwise the probe's value decides. */
  function AwaitProbe(insert: Option<ApiError>, probe: Emission): (r: Completion<Option<Error>>)
    ensures insert.Some? ==> r == Returned(Some(ApiFailure(insert.value)))
    ensures insert.None? ==> (r.Blocked? <==> probe.Pending?)
    ensures insert.None? && probe.Emitted? ==> (r.value.None? <==> probe.value)
    ensures insert.None? && probe.Emitted? && !probe.value ==> r.value == Some(Timeout)
  {
    if insert.Some? then Returned(Some(ApiFailure(insert.value)))
    else
      match probe
      case Pending => Blocked
      case Emitted(done, _) => if done then Returned(None) else Returned(Some(Timeout))
  }

  /** The probe sends true, false, or nothing, according to the first deciding
      iteration of its trace. */
  lemma ProbeOutcomes(timeout: nat, target: string, trace: seq<Tick>)
    ensures var e := Watch(timeout, target, trace);
      && (e.Emitted? && e.value <==> exists i: nat :: Decides(timeout, target, trace, i) && !Expired(timeout, trace[i]))
      && (e.Emitted? && !e.value <==> exists i: nat :: Decides(timeout, target, trace, i) && Expired(timeout, trace[i]))
  {
    WatchReadyIff(timeout, target, trace);
    WatchTimedOutIff(timeout, target, trace);
  }

  /** NewVm: nil exactly when the insert succeeded and the VM was seen RUNNING
      within 180 seconds; a timeout error when the deadline passed first. */
  function NewVm(insert: Option<ApiError>, trace: seq<Tick>): (r: Completion<Option<Error>>)
    ensures insert.Some? ==> r == Returned(Some(ApiFailure(insert.value)))
    ensures r == Returned(None) <==>
      insert.None? && exists i: nat :: Decides(VmRunningTimeout, "RUNNING", trace, i) && !Expired(VmRunningTimeout, trace[i])
    ensures r == Returned(Some(Timeout)) <==>
      insert.None? && exists i: nat :: Decides(VmRunningTimeout, "RUNNING", trace, i) && Expired(VmRunningTimeout, trace[i])
    ensures r.Blocked? <==>
      insert.None? && forall j :: 0 <= j < |trace| ==> KeepsPolling(VmRunningTimeout, "RUNNING", trace[j])
  {
    ProbeOutcomes(VmRunningTimeout, "RUNNING", trace);
    AwaitProbe(insert, ProbeVmRunning(trace))
  }

  /** NewDisk: nil exactly when the insert succeeded and the disk was seen
      READY within 180 seconds; a timeout error when the deadline passed first. */
  function NewDisk(insert: Option<ApiError>, trace: seq<Tick>): (r: Completion<Option<Error>>)
    ensures insert.Some? ==> r == Returned(Some(ApiFailure(insert.value)))
    ensures r == Returned(None) <==>
      insert.None? && exists i: nat :: Decides(DiskCreationTimeout, "READY", trace, i) && !Expired(DiskCreationTimeout, trace[i])
    ensures r == Returned(Some(Timeout)) <==>
      insert.None? && exists i: nat :: Decides(DiskCreationTimeout, "READY", trace, i) && Expired(DiskCreationTimeout, trace[i])
    ensures r.Blocked? <==>
      insert.None? && forall j :: 0 <= j < |trace| ==> KeepsPolling(DiskCreationTimeout, "READY", trace[j])
  {
    ProbeOutcomes(DiskCreationTimeout, "READY", trace);
    AwaitProbe(insert, ProbeDiskCreation(trace))
  }

  /** What a VmConditionChecker returns: `(pass, err)`. */
  datatype CheckResult = CheckResult(pass: bool, err: Option<Error>)

  /** What StopVm and StartVm return: `(*compute.Operation, error)`. */
  datatype OpResult = OpResult(op: Option<Operation>, err: Option<Error>)

  /** Issue the request, then consult the checker: a request error is returned
      at once without consulting it; otherwise the operation is returned when
      vcc passes, and vcc's error (possibly nil) when not. */
  function MutateThenVerify(request: Result<Operation, ApiError>, vcc: Completion<CheckResult>): (r: Completion<OpResult>)
    ensures request.Err? ==> r == Returned(OpResult(None, Some(ApiFailure(request.error))))
    ensures request.Ok? ==> (r.Blocked? <==> vcc.Blocked?)
    ensures request.Ok? && vcc.Returned? ==> (r.value.op.Some? <==> vcc.value.pass)
    ensures request.Ok? && vcc.Returned? && vcc.value.pass ==> r.value == OpResult(Some(request.value), None)
    ensures request.Ok? && vcc.Returned? && !vcc.value.pass ==> r.value == OpResult(None, vcc.value.err)
  {
    match request
    case Err(e) => Returned(OpResult(None, Some(ApiFailure(e))))
    case Ok(op) =>
      match vcc
      case Blocked => Blocked
      case Returned(CheckResult(pass, err)) =>
        if pass then Returned(OpResult(Some(op), None)) else Returned(OpResult(None, err))
  }

  /** StopVm: the Stop operation exactly when the request succeeded and the
      checker passed. */
  function StopVm(stop: Result<Operation, ApiError>, vcc: Completion<CheckResult>): (r: Completion<OpResult>)
    ensures stop.Err? ==> r == Returned(OpResult(None, Some(ApiFailure(stop.error))))
    ensures r.Returned? && r.value.op.Some? <==> stop.Ok? && vcc.Returned? && vcc.value.pass
    ensures r.Returned? && r.value.op.Some? ==> r.value == OpResult(Some(stop.value), None)
    ensures r.Returned? && stop.Ok? && r.value.op.None? ==> vcc.Returned? && r.value.err == vcc.value.err
    ensures stop.Ok? ==> (r.Blocked? <==> vcc.Blocked?)
  {
    MutateThenVerify(stop, vcc)
  }

  /** StartVm: the Start operation exactly when the request succeeded and the
      checker passed. */
  function StartVm(start: Result<Operation, ApiError>, vcc: Completion<CheckResult>): (r: Completion<OpResult>)
    ensures start.Err? ==> r == Returned(OpResult(None, Some(ApiFailure(start.error))))
    ensures r.Returned? && r.value.op.Some? <==> start.Ok? && vcc.Returned? && vcc.value.pass
    ensures r.Returned? && r.value.op.Some? ==> r.value == OpResult(Some(start.value), None)
    ensures r.Returned? && start.Ok? && r.value.op.None? ==> vcc.Returned? && r.value.err == vcc.value.err
    ensures start.Ok? ==> (r.Blocked? <==> vcc.Blocked?)
  {
    MutateThenVerify(start, vcc)
  }

  /** A checker that fails without an error makes StopVm return neither an
      operation nor an error. */
  lemma CheckerFailureWithoutError(op: Operation)
    ensures StopVm(Ok(op), Returned(CheckResult(false, None))) == Returned(OpResult(None, None))
    ensures StartVm(Ok(op), Returned(CheckResult(false, None))) == Returned(OpResult(None, None))
  {
  }

  /** The checkers of the package's test: block on a probe, pass when it sends
      true, and fail with an error when it sends false. */
  function ProbeChecker(probe: Emission): (c: Completion<CheckResult>)
    ensures c.Blocked? <==> probe.Pending?
    ensures c.Returned? ==> (c.value.pass <==> probe.value)
    ensures c.Returned? ==> (c.value.err.None? <==> c.value.pass)
  {
    match probe
    case Pending => Blocked
    case Emitted(done, _) => if done then Returned(CheckResult(true, None)) else Returned(CheckResult(false, Some(NotReady)))
  }

  /** StopVm with the stopped-VM checker returns the operation exactly when
      the VM was seen TERMINATED within 180 seconds. */
  lemma StopVmWithProbe(op: Operation, trace: seq<Tick>)
    ensures StopVm(Ok(op), ProbeChecker(ProbeVmStopped(trace))) == Returned(OpResult(Some(op), None))
      <==> exists i: nat :: Decides(VmStoppingTimeout, "TERMINATED", trace, i) && !Expired(VmStoppingTimeout, trace[i])
  {
    ProbeOutcomes(VmStoppingTimeout, "TERMINATED", trace);
  }

  /** StartVm with the running-VM checker returns the operation exactly when
      the VM was seen RUNNING within 180 seconds. */
  lemma StartVmWithProbe(op: Operation, trace: seq<Tick>)
    ensures StartVm(Ok(op), ProbeChecker(ProbeVmRunning(trace))) == Returned(OpResult(Some(op), None))
      <==> exists i: nat :: Decides(VmRunningTimeout, "RUNNING", trace, i) && !Expired(VmRunningTimeout, trace[i])
  {
    ProbeOutcomes(VmRunningTimeout, "RUNNING", trace);
  }
}
