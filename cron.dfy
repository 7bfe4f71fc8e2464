/** The scheduler's periodic check: which scheduled flows fire in the current
    minute, and the payload queued for each. Instants are integers counting
    nanoseconds from Go's zero time, so truncation to the minute is rounding
    down to a multiple of a minute. Cron parsing and the schedule's next fire
    time belong to a library and are parameters. */
module Cron {
  import opened Common
  import SchedulerHandlers

  /** time.Minute in nanoseconds. */
  const Minute: int := 60_000_000_000

  /** now.Truncate(time.Minute): the start of the minute holding t. */
  function Truncate(t: int): (r: int)
    ensures r <= t < r + Minute
    ensures r % Minute == 0
  {
    t - t % Minute
  }

  /** Truncation picks the one minute boundary within a minute below t. */
  lemma TruncateOfWindow(m: int, t: int)
    requires m * Minute <= t < m * Minute + Minute
    ensures Truncate(t) == m * Minute
  {
    var r := Truncate(t);
    var k := r / Minute;
    assert r == k * Minute;
  }

  /** The cron library as seen by the scheduler: a parser that may refuse an
      expression, and the first fire time strictly after an instant. */
  datatype CronLib<!S> = CronLib(parse: string -> Option<S>, next: (S, int) -> int)

  /** shouldRunNow: a parse failure never runs; otherwise the schedule runs
      when its next fire after the previous minute lies in the current minute. */
  function ShouldRunNow<S>(lib: CronLib<S>, expr: string, now: int): (r: bool)
    ensures lib.parse(expr).None? ==> !r
    ensures lib.parse(expr).Some? ==>
      (r <==> Truncate(now) <= lib.next(lib.parse(expr).value, Truncate(now) - Minute) < Truncate(now) + Minute)
  {
    match lib.parse(expr)
    case None => false
    case Some(schedule) =>
      var currentMinute := Truncate(now);
      var lastMinute := currentMinute - Minute;
      var nextRun := lib.next(schedule, lastMinute);
      nextRun == currentMinute || (nextRun > currentMinute && nextRun < currentMinute + Minute)
  }

  /** Only the minute of `now` matters: two instants within one minute get
      the same answer, so a flow is not fired twice by checks in one minute. */
  lemma SameMinuteSameAnswer<S>(lib: CronLib<S>, expr: string, m: int, t1: int, t2: int)
    requires m * Minute <= t1 < m * Minute + Minute
    requires m * Minute <= t2 < m * Minute + Minute
    ensures ShouldRunNow(lib, expr, t1) == ShouldRunNow(lib, expr, t2)
  {
    TruncateOfWindow(m, t1);
    TruncateOfWindow(m, t2);
  }

  /** ValidateCronExpression: valid exactly when the parser accepts. */
  function ValidateCronExpression<S>(lib: CronLib<S>, expr: string): (valid: bool)
    ensures valid <==> lib.parse(expr).Some?
  {
    lib.parse(expr).Some?
  }

  /** An expression the validator refuses is never run, at any instant. */
  lemma RejectedNeverRuns<S>(lib: CronLib<S>, expr: string, now: int)
    requires !ValidateCronExpression(lib, expr)
    ensures !ShouldRunNow(lib, expr, now)
  {
  }

  /** A row of the scheduled-flows query. */
  datatype ScheduledFlow = ScheduledFlow(
    id: int, slug: string, name: string, cronSchedule: NullString, namespaceUuid: string)

  datatype Namespace = Namespace(name: string, uuid: string)

  datatype TriggerType = TriggerManual | TriggerScheduled

  /** The queued flow execution: flow metadata, inputs and actions, the
      input values, where to start, and who and what started it. */
  datatype Payload = Payload(
    flowDbId: int, flowId: string, flowName: string, namespaceName: string,
    inputs: seq<string>, actions: seq<SchedulerHandlers.Action>,
    input: map<string, string>, startingActionIdx: int, execId: string,
    namespaceId: string, trigger: TriggerType, userUuid: string)

  /** The system user that scheduled runs are attributed to. */
  const SystemUser: string := "00000000-0000-0000-0000-000000000000"

  /** The scheduler's collaborators: the cron library, the namespace lookup,
      the fresh execution id drawn for the i-th flow, and whether the queue
      accepts a payload. */
  datatype Env<!S> = Env(
    lib: CronLib<S>,
    lookupNamespace: string -> Option<Namespace>,
    newExecId: nat -> string,
    queueAccepts: Payload -> bool)

  /** The minimal payload: the flow is loaded again when it runs, so actions
      and inputs are empty and execution starts at the first action. */
  function ScheduledPayload(flow: ScheduledFlow, ns: Namespace, execId: string): (p: Payload)
    ensures p.startingActionIdx == 0 && p.actions == [] && p.inputs == [] && p.input == map[]
    ensures p.trigger == TriggerScheduled && p.userUuid == SystemUser
    ensures p.namespaceName == ns.name && p.namespaceId == ns.uuid && p.execId == execId
    ensures p.flowDbId == flow.id && p.flowId == flow.slug && p.flowName == flow.name
  {
    Payload(flow.id, flow.slug, flow.name, ns.name, [], [], map[], 0, execId, ns.uuid,
            TriggerScheduled, SystemUser)
  }

  datatype TaskOutcome = NamespaceError | QueueError | Queued(payload: Payload)

  /** createImmediateTaskFromFlow for the i-th flow. */
  function CreateImmediateTask<S>(env: Env<S>, flow: ScheduledFlow, i: nat): (r: TaskOutcome)
    ensures env.lookupNamespace(flow.namespaceUuid).None? <==> r.NamespaceError?
    ensures r.Queued? ==>
      && env.lookupNamespace(flow.namespaceUuid).Some?
      && r.payload == ScheduledPayload(flow, env.lookupNamespace(flow.namespaceUuid).value, env.newExecId(i))
      && env.queueAccepts(r.payload)
    ensures r.QueueError? ==> !env.queueAccepts(ScheduledPayload(flow, env.lookupNamespace(flow.namespaceUuid).value, env.newExecId(i)))
  {
    match env.lookupNamespace(flow.namespaceUuid)
    case None => NamespaceError
    case Some(ns) =>
      var payload := ScheduledPayload(flow, ns, env.newExecId(i));
      if env.queueAccepts(payload) then Queued(payload) else QueueError
  }

  /** A flow is due when it has a non-empty schedule that runs this minute. */
  predicate Due<S>(lib: CronLib<S>, flow: ScheduledFlow, now: int)
  {
    flow.cronSchedule.valid && flow.cronSchedule.str != "" && ShouldRunNow(lib, flow.cronSchedule.str, now)
  }

  /** The positions below n of the due flows, in order. */
  function DueIndices<S>(lib: CronLib<S>, flows: seq<ScheduledFlow>, now: int, n: nat): seq<nat>
    requires n <= |flows|
  {
    if n == 0 then []
    else DueIndices(lib, flows, now, n - 1) + (if Due(lib, flows[n - 1], now) then [n - 1] else [])
  }

  /** The payloads queued for the flows below n, in order. */
  function QueuedPayloads<S>(env: Env<S>, flows: seq<ScheduledFlow>, now: int, n: nat): seq<Payload>
    requires n <= |flows|
  {
    if n == 0 then []
    else
      var outcome := CreateImmediateTask(env, flows[n - 1], n - 1);
      QueuedPayloads(env, flows, now, n - 1)
        + (if Due(env.lib, flows[n - 1], now) && outcome.Queued? then [outcome.payload] else [])
  }

  /** Exactly the due flows are tried, whatever happened to the others. */
  lemma {:induction false} DueIndicesExact<S>(lib: CronLib<S>, flows: seq<ScheduledFlow>, now: int, n: nat, i: nat)
    requires n <= |flows|
    ensures i in DueIndices(lib, flows, now, n) <==> i < n && Due(lib, flows[i], now)
  {
    if n > 0 {
      DueIndicesExact(lib, flows, now, n - 1, i);
    }
  }

  /** Every queued payload is the scheduled payload of a due flow whose
      namespace was found, built with that namespace and the execution id
      drawn for it, and accepted by the queue. */
  lemma {:induction false} QueuedAreScheduled<S>(env: Env<S>, flows: seq<ScheduledFlow>, now: int, n: nat)
    requires n <= |flows|
    ensures forall p :: p in QueuedPayloads(env, flows, now, n) ==>
      exists i :: 0 <= i < n && Due(env.lib, flows[i], now) && QueuedFor(env, flows[i], i, p)
  {
    if n > 0 {
      QueuedAreScheduled(env, flows, now, n - 1);
      var outcome := CreateImmediateTask(env, flows[n - 1], n - 1);
      if Due(env.lib, flows[n - 1], now) && outcome.Queued? {
        assert QueuedFor(env, flows[n - 1], n - 1, outcome.payload);
      }
    }
  }

  /** p is the payload queued for the i-th flow: its scheduled payload with
      the namespace the lookup found, accepted by the queue. */
  ghost predicate QueuedFor<S>(env: Env<S>, flow: ScheduledFlow, i: nat, p: Payload)
  {
    && env.lookupNamespace(flow.namespaceUuid).Some?
    && p == ScheduledPayload(flow, env.lookupNamespace(flow.namespaceUuid).value, env.newExecId(i))
    && env.queueAccepts(p)
  }

  datatype CheckResult = StoreError | Checked(tried: seq<nat>, queued: seq<Payload>)

  /** checkPeriodicTasks: when the flow list cannot be fetched, an error and
      nothing queued; otherwise every due flow is tried in order, a failure
      for one is logged and does not stop the rest, and the check succeeds. */
  method CheckPeriodicTasks<S>(env: Env<S>, fetched: Option<seq<ScheduledFlow>>, now: int) returns (r: CheckResult)
    ensures fetched.None? <==> r.StoreError?
    ensures fetched.Some? ==>
      && r.tried == DueIndices(env.lib, fetched.value, now, |fetched.value|)
      && r.queued == QueuedPayloads(env, fetched.value, now, |fetched.value|)
  {
    if fetched.None? {
      return StoreError;
    }
    var flows := fetched.value;
    var tried: seq<nat> := [];
    var queued: seq<Payload> := [];
    var i := 0;
    while i < |flows|
      invariant 0 <= i <= |flows|
      invariant tried == DueIndices(env.lib, flows, now, i)
      invariant queued == QueuedPayloads(env, flows, now, i)
    {
      var flow := flows[i];
      if !flow.cronSchedule.valid || flow.cronSchedule.str == "" {
        i := i + 1;
        continue;
      }
      if ShouldRunNow(env.lib, flow.cronSchedule.str, now) {
        tried := tried + [i];
        var outcome := CreateImmediateTask(env, flow, i);
        if outcome.Queued? {
          queued := queued + [outcome.payload];
        }
      }
      i := i + 1;
    }
    r := Checked(tried, queued);
  }
}
