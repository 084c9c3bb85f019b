/** Function wrappers: `once` and `memoize` as objects holding the state
    their closures capture, `asyncQueue` as a FIFO state machine driven by
    its two events (a task is scheduled, the running task settles), and the
    pure `pipe`, `identity` and `tap`.

    The wrapped function is not modelled: each call receives `outcome`, what
    `fn` would return (`Success`) or throw (`Failure`) if invoked now, and
    reports through `invoked` whether it was invoked. */
module Functions {
  import opened Wrappers
  import opened Values

  type Outcome = Result<Value, Error>

  /* ---------- once ---------- */

  /** The closure state of `once(fn)`. */
  class Once {
    var executed: bool
    var result: Value

    constructor ()
      ensures !executed && result == Undefined
    {
      executed := false;
      result := Undefined;
    }

    /** A call of the wrapper: after a completed call, the stored result
        without invoking `fn`; otherwise `fn` is invoked, and only when it
        returns is its value stored and `executed` set, so a throw leaves the
        wrapper to try again. */
    method Call(outcome: Outcome) returns (r: Outcome, invoked: bool)
      modifies this
      ensures invoked <==> !old(executed)
      ensures old(executed) ==> r == Success(old(result)) && executed && result == old(result)
      ensures !old(executed) ==> r == outcome
      ensures !old(executed) && outcome.Success? ==> executed && result == outcome.value
      ensures !old(executed) && outcome.Failure? ==> !executed && result == old(result)
    {
      if executed {
        return Success(result), false;
      }
      invoked := true;
      r := outcome;
      if outcome.Failure? {
        return;
      }
      result := outcome.value;
      executed := true;
    }
  }

  /** The value of the first call of `fn` that returned, if any did. */
  function FirstSuccess(outcomes: seq<Outcome>): (v: Option<Value>)
    ensures v.None? <==> forall k :: 0 <= k < |outcomes| ==> outcomes[k].Failure?
    ensures v.Some? ==>
      exists k :: 0 <= k < |outcomes| && outcomes[k] == Success(v.value) &&
                  forall j :: 0 <= j < k ==> outcomes[j].Failure?
  {
    if |outcomes| == 0 then None
    else
      var init := outcomes[..|outcomes| - 1];
      var v := FirstSuccess(init);
      assert forall j :: 0 <= j < |init| ==> init[j] == outcomes[j];
      if v.Some? then v
      else if outcomes[|outcomes| - 1].Success? then Some(outcomes[|outcomes| - 1].value)
      else None
  }

  /** What a call of the `once` wrapper answers after the calls whose `fn`
      outcomes are `before`, when `fn` would now give `outcome`. */
  function OnceReply(before: seq<Outcome>, outcome: Outcome): Outcome {
    match FirstSuccess(before)
    case Some(v) => Success(v)
    case None => outcome
  }

  /** Calls a fresh `once` wrapper once per outcome; the replies and the
      invocations of `fn` follow `OnceReply` and `FirstSuccess`. */
  method CallOnceRepeatedly(outcomes: seq<Outcome>) returns (replies: seq<Outcome>, invoked: seq<bool>)
    ensures |replies| == |outcomes| == |invoked|
    ensures forall i :: 0 <= i < |outcomes| ==> replies[i] == OnceReply(outcomes[..i], outcomes[i])
    ensures forall i :: 0 <= i < |outcomes| ==> (invoked[i] <==> FirstSuccess(outcomes[..i]).None?)
  {
    var wrapper := new Once();
    replies, invoked := [], [];
    var i := 0;
    while i < |outcomes|
      invariant 0 <= i <= |outcomes| && |replies| == i == |invoked|
      invariant wrapper.executed <==> FirstSuccess(outcomes[..i]).Some?
      invariant wrapper.executed ==> FirstSuccess(outcomes[..i]) == Some(wrapper.result)
      invariant forall k :: 0 <= k < i ==> replies[k] == OnceReply(outcomes[..k], outcomes[k])
      invariant forall k :: 0 <= k < i ==> (invoked[k] <==> FirstSuccess(outcomes[..k]).None?)
    {
      assert outcomes[..i + 1][..i] == outcomes[..i];
      var r, inv := wrapper.Call(outcomes[i]);
      assert r == OnceReply(outcomes[..i], outcomes[i]);
      assert inv <==> FirstSuccess(outcomes[..i]).None?;
      ghost var replies0, invoked0 := replies, invoked;
      replies, invoked := replies + [r], invoked + [inv];
      forall k | 0 <= k < i + 1
        ensures replies[k] == OnceReply(outcomes[..k], outcomes[k])
        ensures invoked[k] <==> FirstSuccess(outcomes[..k]).None?
      {
        if k < i {
          assert replies[k] == replies0[k] && invoked[k] == invoked0[k];
        }
      }
      i := i + 1;
    }
  }

  /** Once a call of `fn` has returned, every later call of the wrapper
      answers that value and does not invoke `fn`. */
  lemma {:induction false} OnceSettles(outcomes: seq<Outcome>, i: nat, j: nat)
    requires i < j <= |outcomes|
    requires FirstSuccess(outcomes[..i]).None? && outcomes[i].Success?
    ensures FirstSuccess(outcomes[..j]) == Some(outcomes[i].value)
    decreases j
  {
    if j == i + 1 {
      assert outcomes[..j][..i] == outcomes[..i];
    } else {
      OnceSettles(outcomes, i, j - 1);
      assert outcomes[..j][..j - 1] == outcomes[..j - 1];
    }
  }

  /** The wrapper invokes `fn` exactly as long as every earlier invocation
      threw: a throwing call is retried. */
  lemma OnceRetriesAfterThrow(outcomes: seq<Outcome>, i: nat)
    requires i < |outcomes|
    requires forall k :: 0 <= k < i ==> outcomes[k].Failure?
    ensures OnceReply(outcomes[..i], outcomes[i]) == outcomes[i]
  {
    assert forall k :: 0 <= k < i ==> outcomes[..i][k] == outcomes[k];
  }

  /* ---------- memoize ---------- */

  /** The closure state of `memoize(fn)`: the cache keyed by the first
      argument. */
  class Memoized {
    var cache: map<Value, Value>

    constructor ()
      ensures cache == map[]
    {
      cache := map[];
    }

    /** A call with first argument `param` and further arguments `rest`: a
        cache hit answers the stored value without invoking `fn`; a miss
        invokes `fn` and, when it returns, stores its value under `param`
        alone. Nothing is ever removed. */
    method Call(param: Value, rest: seq<Value>, outcome: Outcome) returns (r: Outcome, invoked: bool)
      modifies this
      ensures param in old(cache) ==> r == Success(old(cache)[param]) && !invoked && cache == old(cache)
      ensures param !in old(cache) ==> invoked && r == outcome
      ensures param !in old(cache) && outcome.Success? ==> cache == old(cache)[param := outcome.value]
      ensures param !in old(cache) && outcome.Failure? ==> cache == old(cache)
    {
      if param in cache {
        return Success(cache[param]), false;
      }
      invoked := true;
      r := outcome;
      if outcome.Failure? {
        return;
      }
      cache := cache[param := outcome.value];
    }
  }

  /** A call of a memoized function: its first argument and what `fn` would
      give if invoked. */
  type MemoCall = (Value, Outcome)

  /** The cache after a sequence of calls. */
  function CacheAfter(calls: seq<MemoCall>): map<Value, Value> {
    if |calls| == 0 then map[]
    else
      var cache := CacheAfter(calls[..|calls| - 1]);
      var (param, outcome) := calls[|calls| - 1];
      if param in cache then cache
      else if outcome.Success? then cache[param := outcome.value]
      else cache
  }

  /** What a call answers with the given cache. */
  function MemoReply(cache: map<Value, Value>, call: MemoCall): Outcome {
    if call.0 in cache then Success(cache[call.0]) else call.1
  }

  /** Calls a fresh memoized function once per element of `calls`. */
  method CallMemoizedRepeatedly(calls: seq<MemoCall>) returns (replies: seq<Outcome>, invoked: seq<bool>)
    ensures |replies| == |calls| == |invoked|
    ensures forall i :: 0 <= i < |calls| ==> replies[i] == MemoReply(CacheAfter(calls[..i]), calls[i])
    ensures forall i :: 0 <= i < |calls| ==> (invoked[i] <==> calls[i].0 !in CacheAfter(calls[..i]))
  {
    var memo := new Memoized();
    replies, invoked := [], [];
    var i := 0;
    while i < |calls|
      invariant 0 <= i <= |calls| && |replies| == i == |invoked|
      invariant memo.cache == CacheAfter(calls[..i])
      invariant forall k :: 0 <= k < i ==> replies[k] == MemoReply(CacheAfter(calls[..k]), calls[k])
      invariant forall k :: 0 <= k < i ==> (invoked[k] <==> calls[k].0 !in CacheAfter(calls[..k]))
    {
      assert calls[..i + 1][..i] == calls[..i];
      var r, inv := memo.Call(calls[i].0, [], calls[i].1);
      assert r == MemoReply(CacheAfter(calls[..i]), calls[i]);
      ghost var replies0, invoked0 := replies, invoked;
      replies, invoked := replies + [r], invoked + [inv];
      forall k | 0 <= k < i + 1
        ensures replies[k] == MemoReply(CacheAfter(calls[..k]), calls[k])
        ensures invoked[k] <==> calls[k].0 !in CacheAfter(calls[..k])
      {
        if k < i {
          assert replies[k] == replies0[k] && invoked[k] == invoked0[k];
        }
      }
      i := i + 1;
    }
  }

  /** The cache only grows: an entry, once stored, stays with its value. */
  lemma {:induction false} CacheNeverEvicts(calls: seq<MemoCall>, i: nat, j: nat)
    requires i <= j <= |calls|
    ensures forall p :: p in CacheAfter(calls[..i]) ==>
      p in CacheAfter(calls[..j]) && CacheAfter(calls[..j])[p] == CacheAfter(calls[..i])[p]
    decreases j
  {
    if i < j {
      CacheNeverEvicts(calls, i, j - 1);
      assert calls[..j][..j - 1] == calls[..j - 1];
    }
  }

  /** The cache holds exactly the first arguments of calls whose `fn`
      returned. */
  lemma {:induction false} CacheKeys(calls: seq<MemoCall>, p: Value)
    ensures p in CacheAfter(calls) <==> exists k :: 0 <= k < |calls| && calls[k].0 == p && calls[k].1.Success?
    decreases |calls|
  {
    if |calls| > 0 {
      var init := calls[..|calls| - 1];
      CacheKeys(init, p);
      assert forall k :: 0 <= k < |init| ==> init[k] == calls[k];
    }
  }

  /** Two calls with the same first argument that both answered a value
      answered the same value, whatever the other arguments were. */
  lemma MemoConsistent(calls: seq<MemoCall>, i: nat, j: nat)
    requires i < j < |calls| && calls[i].0 == calls[j].0
    requires MemoReply(CacheAfter(calls[..i]), calls[i]).Success?
    ensures MemoReply(CacheAfter(calls[..j]), calls[j]) == MemoReply(CacheAfter(calls[..i]), calls[i])
  {
    assert calls[..i + 1][..i] == calls[..i];
    CacheNeverEvicts(calls, i + 1, j);
  }

  /* ---------- asyncQueue ---------- */

  /** A scheduled callback, named by its caller. */
  type TaskId = nat

  /** How a callback's promise settled. */
  datatype Settlement = Resolved(value: Value) | Rejected(reason: Value)

  /** The closure state of `asyncQueue()`: the waiting tasks and whether
      one is being processed. */
  datatype QueueState = QueueState(tasks: seq<TaskId>, processing: bool)

  /** `processNext`: shift the head task and start it, or, with nothing
      waiting, stop processing. The second component is the task started. */
  function ProcessNext(q: QueueState): (r: (QueueState, Option<TaskId>))
    ensures r.1.Some? <==> |q.tasks| > 0
    ensures r.1.Some? ==> [r.1.value] + r.0.tasks == q.tasks && r.0.processing
    ensures r.1.None? ==> r.0 == QueueState([], false)
  {
    if |q.tasks| == 0 then (QueueState(q.tasks, false), None)
    else (QueueState(q.tasks[1..], true), Some(q.tasks[0]))
  }

  /** `schedule`: push the task at the tail, and start processing only when
      nothing is being processed. */
  function ScheduleStep(q: QueueState, id: TaskId): (r: (QueueState, Option<TaskId>))
    ensures r.1.Some? <==> !q.processing
    ensures q.processing ==> r.0 == QueueState(q.tasks + [id], true)
  {
    var pushed := q.(tasks := q.tasks + [id]);
    if !q.processing then ProcessNext(pushed) else (pushed, None)
  }

  /** The two events the queue reacts to. */
  datatype Event = Scheduled(id: TaskId) | Settled(outcome: Settlement)

  /** Everything that happened: the queue's state, the task now running,
      the tasks in the order they were started, and each settlement with
      the task whose promise receives it. */
  datatype QueueRun = QueueRun(
    state: QueueState,
    running: Option<TaskId>,
    started: seq<TaskId>,
    delivered: seq<(TaskId, Settlement)>)

  function OptionSeq(o: Option<TaskId>): seq<TaskId> {
    if o.Some? then [o.value] else []
  }

  /** How one event changes a run; `None` when a settlement arrives while
      no task is running, which cannot happen. */
  function Step(r: QueueRun, e: Event): Option<QueueRun> {
    match e
    case Scheduled(id) =>
      var (q, s) := ScheduleStep(r.state, id);
      Some(QueueRun(q, if s.Some? then s else r.running, r.started + OptionSeq(s), r.delivered))
    case Settled(outcome) =>
      if r.running.None? then None
      else
        var (q, s) := ProcessNext(r.state);
        Some(QueueRun(q, s, r.started + OptionSeq(s), r.delivered + [(r.running.value, outcome)]))
  }

  /** Replays a sequence of events from a fresh queue. */
  function Replay(events: seq<Event>): Option<QueueRun> {
    if |events| == 0 then Some(QueueRun(QueueState([], false), None, [], []))
    else
      match Replay(events[..|events| - 1])
      case None => None
      case Some(r) => Step(r, events[|events| - 1])
  }

  /** The ids of the scheduled tasks, in scheduling order. */
  function Submitted(events: seq<Event>): seq<TaskId> {
    if |events| == 0 then []
    else
      var last := events[|events| - 1];
      Submitted(events[..|events| - 1]) + (if last.Scheduled? then [last.id] else [])
  }

  /** The queue's invariant over any run: tasks start in the order they were
      scheduled (those started, then those waiting, are the scheduled ones);
      `processing` holds exactly while a task is running, and that task is
      the latest started; when not processing nothing waits; and the tasks
      settle in the order they started, each settlement going to the task
      that was running, so every started task but the running one has
      settled: at most one runs at a time. */
  lemma {:induction false} QueueInvariant(events: seq<Event>)
    requires Replay(events).Some?
    ensures RunInvariant(Replay(events).value, Submitted(events))
    decreases |events|
  {
    if |events| > 0 {
      var init, last := events[..|events| - 1], events[|events| - 1];
      QueueInvariant(init);
      StepKeepsInvariant(Replay(init).value, last, Submitted(init));
    }
  }

  /** The invariant, for a run whose scheduled tasks are `submitted`. */
  predicate RunInvariant(r: QueueRun, submitted: seq<TaskId>) {
    && r.started + r.state.tasks == submitted
    && (r.state.processing <==> r.running.Some?)
    && (!r.state.processing ==> r.state.tasks == [])
    && (r.running.Some? ==> |r.started| > 0 && r.running.value == r.started[|r.started| - 1])
    && |r.delivered| + (if r.running.Some? then 1 else 0) == |r.started|
    && forall k :: 0 <= k < |r.delivered| ==> r.delivered[k].0 == r.started[k]
  }

  /** Each event keeps the invariant. */
  lemma StepKeepsInvariant(r: QueueRun, e: Event, submitted: seq<TaskId>)
    requires RunInvariant(r, submitted)
    requires Step(r, e).Some?
    ensures RunInvariant(Step(r, e).value, submitted + (if e.Scheduled? then [e.id] else []))
  {
    var r' := Step(r, e).value;
    if e.Scheduled? {
      assert r'.started + r'.state.tasks == r.started + OptionSeq(ScheduleStep(r.state, e.id).1) + r'.state.tasks;
    } else {
      assert submitted + [] == submitted;
      assert r'.delivered[..|r.delivered|] == r.delivered;
    }
  }

  /** Scheduling starts the new task at once exactly when the queue is idle,
      and then it is the task just scheduled. */
  lemma ScheduleStartsWhenIdle(events: seq<Event>, id: TaskId)
    requires Replay(events).Some?
    ensures Replay(events + [Scheduled(id)]).Some?
    ensures var before := Replay(events).value;
      var after := Replay(events + [Scheduled(id)]).value;
      && (|after.started| > |before.started| <==> !before.state.processing)
      && (!before.state.processing ==> after.running == Some(id))
  {
    QueueInvariant(events);
    assert (events + [Scheduled(id)])[..|events|] == events;
  }

  /** A settlement, resolved or rejected alike, goes to the running task
      alone and then starts the next waiting task (`finally`). */
  lemma SettleStartsNext(events: seq<Event>, outcome: Settlement)
    requires Replay(events).Some? && Replay(events).value.running.Some?
    ensures Replay(events + [Settled(outcome)]).Some?
    ensures var before := Replay(events).value;
      var after := Replay(events + [Settled(outcome)]).value;
      && after.delivered == before.delivered + [(before.running.value, outcome)]
      && (before.state.tasks != [] ==> after.running == Some(before.state.tasks[0]))
      && (before.state.tasks == [] ==> !after.state.processing)
  {
    assert (events + [Settled(outcome)])[..|events|] == events;
  }

  /** The queue object returned by `asyncQueue()`. `tasks` and `processing`
      are its closure variables; the ghost fields record the run. */
  class AsyncQueue {
    var tasks: seq<TaskId>
    var processing: bool
    ghost var events: seq<Event>
    ghost var running: Option<TaskId>
    ghost var started: seq<TaskId>
    ghost var delivered: seq<(TaskId, Settlement)>

    ghost predicate Valid()
      reads this
    {
      Replay(events) == Some(QueueRun(QueueState(tasks, processing), running, started, delivered))
    }

    constructor ()
      ensures Valid() && events == [] && tasks == [] && !processing
    {
      tasks, processing := [], false;
      events, running, started, delivered := [], None, [], [];
    }

    /** `processNext`. */
    method ProcessNextTask() returns (next: Option<TaskId>)
      modifies this
      ensures (QueueState(tasks, processing), next) == ProcessNext(QueueState(old(tasks), old(processing)))
      ensures events == old(events) && started == old(started) + OptionSeq(next)
      ensures running == next && delivered == old(delivered)
    {
      if |tasks| == 0 {
        processing := false;
        next := None;
      } else {
        next := Some(tasks[0]);
        tasks := tasks[1..];
        processing := true;
        started := started + [next.value];
      }
      running := next;
    }

    /** `schedule(callback)` for the task `id`: push it, and process the
        next task unless one is being processed. */
    method Schedule(id: TaskId) returns (startedNow: Option<TaskId>)
      requires Valid()
      modifies this
      ensures Valid() && events == old(events) + [Scheduled(id)]
      ensures (QueueState(tasks, processing), startedNow) == ScheduleStep(QueueState(old(tasks), old(processing)), id)
    {
      ghost var oldEvents := events;
      QueueInvariant(events);
      ghost var before := QueueState(tasks, processing);
      ghost var run := QueueRun(before, running, started, delivered);
      tasks := tasks + [id];
      if !processing {
        startedNow := ProcessNextTask();
        assert (QueueState(tasks, processing), startedNow) == ProcessNext(QueueState(before.tasks + [id], false));
      } else {
        startedNow := None;
      }
      assert (QueueState(tasks, processing), startedNow) == ScheduleStep(before, id);
      events := events + [Scheduled(id)];
      assert events[..|events| - 1] == oldEvents;
      assert started == run.started + OptionSeq(startedNow);
      assert running == if startedNow.Some? then startedNow else run.running;
      assert Replay(events) == Some(QueueRun(ScheduleStep(before, id).0,
        if startedNow.Some? then startedNow else run.running, run.started + OptionSeq(startedNow), run.delivered));
    }

    /** The running task's promise settles: the outcome goes to that task's
        own promise, and `finally` processes the next task. */
    method Settle(outcome: Settlement) returns (startedNext: Option<TaskId>)
      requires Valid() && processing
      modifies this
      ensures Valid() && events == old(events) + [Settled(outcome)]
      ensures (QueueState(tasks, processing), startedNext) == ProcessNext(QueueState(old(tasks), old(processing)))
    {
      ghost var oldEvents := events;
      QueueInvariant(events);
      delivered := delivered + [(running.value, outcome)];
      startedNext := ProcessNextTask();
      events := events + [Settled(outcome)];
      assert events[..|events| - 1] == oldEvents;
    }
  }

  /** Three callbacks scheduled together run one after another in order; the
      second one's rejection reaches only its own promise and the third still
      starts. Answers the tasks in the order they started, and whether the
      queue is idle at the end. */
  method ThreeTasks() returns (started: seq<TaskId>, idle: bool)
    ensures started == [1, 2, 3] && idle
  {
    var q := new AsyncQueue();
    var s1 := q.Schedule(1);
    var s2 := q.Schedule(2);
    var s3 := q.Schedule(3);
    assert s1 == Some(1) && s2 == None && s3 == None;
    assert q.tasks == [2, 3];
    var n1 := q.Settle(Resolved(Str("a")));
    assert n1 == Some(2);
    var n2 := q.Settle(Rejected(Str("b")));
    assert n2 == Some(3);
    var n3 := q.Settle(Resolved(Str("c")));
    assert n3 == None && !q.processing;
    assert q.delivered == [(1, Resolved(Str("a"))), (2, Rejected(Str("b"))), (3, Resolved(Str("c")))];
    started := OptionSeq(s1) + OptionSeq(s2) + OptionSeq(s3) + OptionSeq(n1) + OptionSeq(n2) + OptionSeq(n3);
    idle := !q.processing;
  }

  /* ---------- pipe, identity, tap ---------- */

  /** `pipe(input)`: `then` applies a function and pipes its result on,
      `value` hands the current input back. */
  datatype Pipe<T> = Pipe(input: T) {
    function Then<U>(fn: T -> U): (p: Pipe<U>)
      ensures p.Value() == fn(input)
    {
      Pipe(fn(input))
    }

    function Value(): (v: T)
      ensures v == input
    {
      input
    }
  }

  /** A chain of `then` calls composes the functions in order. */
  lemma PipeComposes<A, B, C>(x: A, f: A -> B, g: B -> C)
    ensures Pipe(x).Then(f).Then(g).Value() == g(f(x))
    ensures Pipe(x).Value() == x
  {
  }

  /** `identity(value)`. */
  function Identity<T>(value: T): (r: T)
    ensures r == value
  {
    value
  }

  /** `tap(value, fn)`: `fn` is called for its effect only; the value comes
      back unchanged whatever `fn` returns. */
  function Tap<T>(value: T, fn: T -> Value): (r: T)
    ensures r == value
  {
    var _ := fn(value);
    value
  }
}
