/** The aggregators' event watchers: one tick reads the `TaskRequestGenerated`
    logs from a stored block onwards, runs an aggregation round for each
    request while operators are registered, submits the result and moves the
    stored block on. The two Rust aggregators share one tick; the TypeScript
    aggregator's differs. Aggregation rounds and submissions are oracles. */
module EventWatcher {
  import opened Wrappers
  import opened Tasks
  import opened Folds

  /** A log returned by the filter query. */
  datatype Log = Log(
    /** `topic0` is the `TaskRequestGenerated` signature hash. */
    isTaskRequest: bool,
    /** The decoded task value; `None` when `log_decode` fails. */
    decoded: Option<U256>,
    /** `log.block_number`; `None` for a pending log. */
    blockNumber: Option<nat>)

  /** A task-request log that decodes and carries a block number. */
  predicate Complete(l: Log) {
    l.decoded.Some? && l.blockNumber.Some?
  }

  function TaskOf(l: Log): Task {
    Task(l.decoded.GetOr(0))
  }

  /** The block to resume from once a request is handled. */
  function NextBlock(l: Log): nat {
    l.blockNumber.GetOr(0) + 1
  }

  function IsTaskRequest(l: Log): bool {
    l.isTaskRequest
  }

  datatype TickError = LogQueryFailed | DecodeFailed | AggregationFailed

  /** How a Rust tick ends. */
  datatype TickOutcome =
    /** `?` returned early after submitting `submitted`; nothing is
        written. */
    | Aborted(error: TickError, submitted: seq<Task>)
    /** `expect("Invalid block number")` panicked after submitting
        `submitted`. */
    | Panicked(submitted: seq<Task>)
    /** The tick wrote `checkpoint` to the block-number store, after
        submitting `submitted` in this order. */
    | Written(checkpoint: nat, submitted: seq<Task>)

  /** The Rust log loop from the log at hand onwards: `best` is
      `new_last_checked_block` so far, `submitted` the submissions so far.
      Submission results are logged and ignored, so they are not inputs. */
  function Scan(logs: seq<Log>, hasOperators: bool, aggregateOk: Log -> bool, best: nat, submitted: seq<Task>): (r: TickOutcome)
    ensures r.Written? ==> r.checkpoint >= best
    ensures r.Written? && !hasOperators ==> r.checkpoint == best && r.submitted == submitted
    decreases |logs|
  {
    if |logs| == 0 then Written(best, submitted)
    else
      var l := logs[0];
      if !l.isTaskRequest then Scan(logs[1..], hasOperators, aggregateOk, best, submitted)
      else if l.decoded.None? then Aborted(DecodeFailed, submitted)
      else if l.blockNumber.None? then Panicked(submitted)
      else if !hasOperators then Scan(logs[1..], hasOperators, aggregateOk, best, submitted)
      else if !aggregateOk(l) then Aborted(AggregationFailed, submitted)
      else
        var next := if NextBlock(l) > best then NextBlock(l) else best;
        Scan(logs[1..], hasOperators, aggregateOk, next, submitted + [TaskOf(l)])
  }

  /** `watch_for_task_events`: `start` is the block number the service
      loaded when it was built; the log query may fail. */
  function Tick(start: nat, hasOperators: bool, logs: Result<seq<Log>, TickError>, aggregateOk: Log -> bool): (r: TickOutcome)
    ensures logs.Err? ==> r == Aborted(LogQueryFailed, [])
    ensures r.Written? <==> logs.Ok? && AllHandled(logs.value, hasOperators, aggregateOk)
    ensures r.Written? ==> r.checkpoint >= start
    ensures r.Written? && hasOperators ==> r.submitted == Requests(logs.value)
    ensures r.Written? && !hasOperators ==> r == Written(start, [])
  {
    match logs
    case Err(_) => Aborted(LogQueryFailed, [])
    case Ok(ls) =>
      ScanWrites(ls, hasOperators, aggregateOk, start, []);
      ScanSubmits(ls, aggregateOk, start, []);
      assert [] + Requests(ls) == Requests(ls);
      Scan(ls, hasOperators, aggregateOk, start, [])
  }

  /** Every task request can be handled: it decodes, has a block number and,
      with operators registered, its round succeeds. */
  predicate AllHandled(logs: seq<Log>, hasOperators: bool, aggregateOk: Log -> bool) {
    forall i :: 0 <= i < |logs| && logs[i].isTaskRequest ==>
      Complete(logs[i]) && (hasOperators ==> aggregateOk(logs[i]))
  }

  /** The first task request that cannot be handled stops the scan: a
      decode failure or a failed round returns early and a missing block
      number panics, in each case after every earlier request was
      submitted. */
  lemma {:induction false} ScanFirstUnhandled(logs: seq<Log>, hasOperators: bool, aggregateOk: Log -> bool, best: nat, submitted: seq<Task>, i: nat)
    requires i < |logs| && logs[i].isTaskRequest
    requires !(Complete(logs[i]) && (hasOperators ==> aggregateOk(logs[i])))
    requires AllHandled(logs[..i], hasOperators, aggregateOk)
    ensures
      var sub := if hasOperators then submitted + Requests(logs[..i]) else submitted;
      Scan(logs, hasOperators, aggregateOk, best, submitted)
        == if logs[i].decoded.None? then Aborted(DecodeFailed, sub)
           else if logs[i].blockNumber.None? then Panicked(sub)
           else Aborted(AggregationFailed, sub)
    decreases i
  {
    var l, rest := logs[0], logs[1..];
    if i == 0 {
      assert logs[..0] == [];
      assert submitted + [] == submitted;
    } else {
      assert logs[..i] == [l] + rest[..i - 1];
      assert logs[..i][0] == l;
      assert l.isTaskRequest ==> Complete(l) && (hasOperators ==> aggregateOk(l));
      assert Requests(logs[..i]) == (if l.isTaskRequest then [TaskOf(l)] else []) + Requests(rest[..i - 1]);
      var next := if NextBlock(l) > best then NextBlock(l) else best;
      if l.isTaskRequest && hasOperators {
        ScanFirstUnhandled(rest, hasOperators, aggregateOk, next, submitted + [TaskOf(l)], i - 1);
        assert (submitted + [TaskOf(l)]) + Requests(rest[..i - 1]) == submitted + ([TaskOf(l)] + Requests(rest[..i - 1]));
      } else {
        ScanFirstUnhandled(rest, hasOperators, aggregateOk, best, submitted, i - 1);
        if hasOperators {
          assert Requests(logs[..i]) == Requests(rest[..i - 1]);
        }
      }
    }
  }

  /** A tick writes exactly when every task request is handled. */
  lemma {:induction false} ScanWrites(logs: seq<Log>, hasOperators: bool, aggregateOk: Log -> bool, best: nat, submitted: seq<Task>)
    ensures Scan(logs, hasOperators, aggregateOk, best, submitted).Written? <==> AllHandled(logs, hasOperators, aggregateOk)
    decreases |logs|
  {
    if |logs| > 0 {
      var l, rest := logs[0], logs[1..];
      assert forall i :: 0 <= i < |rest| ==> rest[i] == logs[i + 1];
      var next := if NextBlock(l) > best then NextBlock(l) else best;
      if l.isTaskRequest && hasOperators {
        ScanWrites(rest, hasOperators, aggregateOk, next, submitted + [TaskOf(l)]);
      } else {
        ScanWrites(rest, hasOperators, aggregateOk, best, submitted);
      }
    }
  }

  /** The written block is at least every handled request's block plus one. */
  lemma {:induction false} ScanUpperBound(logs: seq<Log>, aggregateOk: Log -> bool, best: nat, submitted: seq<Task>)
    ensures
      var r := Scan(logs, true, aggregateOk, best, submitted);
      r.Written? ==> forall i :: 0 <= i < |logs| && logs[i].isTaskRequest ==> NextBlock(logs[i]) <= r.checkpoint
    decreases |logs|
  {
    if |logs| > 0 {
      var l, rest := logs[0], logs[1..];
      assert forall i :: 0 <= i < |rest| ==> rest[i] == logs[i + 1];
      var next := if NextBlock(l) > best then NextBlock(l) else best;
      if l.isTaskRequest {
        ScanUpperBound(rest, aggregateOk, next, submitted + [TaskOf(l)]);
      } else {
        ScanUpperBound(rest, aggregateOk, best, submitted);
      }
    }
  }

  /** The written block is the starting one or some handled request's block
      plus one. */
  lemma {:induction false} ScanAttained(logs: seq<Log>, hasOperators: bool, aggregateOk: Log -> bool, best: nat, submitted: seq<Task>)
    ensures
      var r := Scan(logs, hasOperators, aggregateOk, best, submitted);
      r.Written? ==> r.checkpoint == best || exists i :: 0 <= i < |logs| && logs[i].isTaskRequest && r.checkpoint == NextBlock(logs[i])
    decreases |logs|
  {
    if |logs| > 0 {
      var l, rest := logs[0], logs[1..];
      var next := if NextBlock(l) > best then NextBlock(l) else best;
      var b := if l.isTaskRequest && hasOperators then next else best;
      var sub := if l.isTaskRequest && hasOperators then submitted + [TaskOf(l)] else submitted;
      ScanAttained(rest, hasOperators, aggregateOk, b, sub);
      var r := Scan(logs, hasOperators, aggregateOk, best, submitted);
      if r.Written? && r.checkpoint != best && r.checkpoint != b {
        var i :| 0 <= i < |rest| && rest[i].isTaskRequest && r.checkpoint == NextBlock(rest[i]);
        assert logs[i + 1] == rest[i];
      }
    }
  }

  /** Reference definition: the tasks carried by task-request logs, in log
      order. */
  function Requests(logs: seq<Log>): seq<Task> {
    if |logs| == 0 then []
    else if logs[0].isTaskRequest then [TaskOf(logs[0])] + Requests(logs[1..])
    else Requests(logs[1..])
  }

  /** With operators registered, every task request is submitted, in log
      order. */
  lemma {:induction false} ScanSubmits(logs: seq<Log>, aggregateOk: Log -> bool, best: nat, submitted: seq<Task>)
    ensures
      var r := Scan(logs, true, aggregateOk, best, submitted);
      r.Written? ==> r.submitted == submitted + Requests(logs)
    decreases |logs|
  {
    if |logs| > 0 {
      var l, rest := logs[0], logs[1..];
      var next := if NextBlock(l) > best then NextBlock(l) else best;
      if l.isTaskRequest {
        ScanSubmits(rest, aggregateOk, next, submitted + [TaskOf(l)]);
        assert (submitted + [TaskOf(l)]) + Requests(rest) == submitted + ([TaskOf(l)] + Requests(rest));
      } else {
        ScanSubmits(rest, aggregateOk, best, submitted);
      }
    } else {
      assert submitted + [] == submitted;
    }
  }

  /** The Rust tick's checkpoint, stated on a whole tick: it is never below
      the loaded block, and it is the maximum over the loaded block and the
      handled requests' blocks plus one; every request was submitted. */
  lemma TickCheckpoint(start: nat, hasOperators: bool, logs: seq<Log>, aggregateOk: Log -> bool)
    requires AllHandled(logs, hasOperators, aggregateOk)
    ensures Tick(start, hasOperators, Ok(logs), aggregateOk).Written?
    ensures
      var cp := Tick(start, hasOperators, Ok(logs), aggregateOk).checkpoint;
      && cp >= start
      && (hasOperators ==> forall i :: 0 <= i < |logs| && logs[i].isTaskRequest ==> NextBlock(logs[i]) <= cp)
      && (cp == start || exists i :: 0 <= i < |logs| && logs[i].isTaskRequest && cp == NextBlock(logs[i]))
    ensures hasOperators ==> Tick(start, hasOperators, Ok(logs), aggregateOk).submitted == Requests(logs)
  {
    ScanWrites(logs, hasOperators, aggregateOk, start, []);
    ScanAttained(logs, hasOperators, aggregateOk, start, []);
    if hasOperators {
      ScanUpperBound(logs, aggregateOk, start, []);
      ScanSubmits(logs, aggregateOk, start, []);
      assert [] + Requests(logs) == Requests(logs);
    }
  }

  /** A failed round anywhere aborts the tick before the write. When it is
      the first request that cannot be handled, every earlier request has
      already been submitted; since nothing is written, the next tick
      submits them again. */
  lemma AggregationFailureSkipsWrite(start: nat, logs: seq<Log>, aggregateOk: Log -> bool, i: nat)
    requires i < |logs| && logs[i].isTaskRequest && Complete(logs[i]) && !aggregateOk(logs[i])
    ensures !Tick(start, true, Ok(logs), aggregateOk).Written?
    ensures AllHandled(logs[..i], true, aggregateOk) ==>
      Tick(start, true, Ok(logs), aggregateOk) == Aborted(AggregationFailed, Requests(logs[..i]))
  {
    ScanWrites(logs, true, aggregateOk, start, []);
    if AllHandled(logs[..i], true, aggregateOk) {
      ScanFirstUnhandled(logs, true, aggregateOk, start, [], i);
      assert [] + Requests(logs[..i]) == Requests(logs[..i]);
    }
  }

  /** Without operators the loaded block is written back and no request is
      sent, however many requests the logs hold. */
  lemma NoOperatorsNoAdvance(start: nat, logs: seq<Log>, aggregateOk: Log -> bool)
    requires forall i :: 0 <= i < |logs| && logs[i].isTaskRequest ==> Complete(logs[i])
    ensures Tick(start, false, Ok(logs), aggregateOk) == Written(start, [])
  {
    ScanWrites(logs, false, aggregateOk, start, []);
  }

  /** The Rust service: the block it scans from, fixed when it is built,
      the block-number store, and whether the spawned watcher task is still
      running. A panic inside a tick ends that task for good. */
  datatype Service = Service(blockNumber: nat, stored: nat, running: bool)

  /** One heartbeat of the Rust service: the store takes a written
      checkpoint, a returned error is only logged, a panic stops the watcher,
      and a stopped watcher does nothing. */
  function ServiceTick(s: Service, hasOperators: bool, logs: Result<seq<Log>, TickError>, aggregateOk: Log -> bool): (r: Service)
    ensures r.blockNumber == s.blockNumber
    ensures !s.running ==> r == s
    ensures r.running <==> s.running && !Tick(s.blockNumber, hasOperators, logs, aggregateOk).Panicked?
    ensures r.stored != s.stored ==> s.running && Tick(s.blockNumber, hasOperators, logs, aggregateOk).Written?
  {
    if !s.running then s
    else
      match Tick(s.blockNumber, hasOperators, logs, aggregateOk)
      case Written(cp, _) => s.(stored := cp)
      case Panicked(_) => s.(running := false)
      case Aborted(_, _) => s
  }

  /** Because the scan start never moves, a second tick that sees the same
      logs, and whose rounds turn out as in the first, submits the same
      requests again and writes the same block. */
  lemma SecondTickResubmits(s: Service, hasOperators: bool, logs: Result<seq<Log>, TickError>, aggregateOk: Log -> bool)
    ensures
      var s1 := ServiceTick(s, hasOperators, logs, aggregateOk);
      && Tick(s1.blockNumber, hasOperators, logs, aggregateOk) == Tick(s.blockNumber, hasOperators, logs, aggregateOk)
      && ServiceTick(s1, hasOperators, logs, aggregateOk) == s1
  {
  }

  /** The inputs of one heartbeat: whether operators are registered, and the
      log query's outcome. */
  datatype Beat = Beat(hasOperators: bool, logs: Result<seq<Log>, TickError>)

  /** The service after a run of heartbeats. */
  function ServiceRun(s: Service, beats: seq<Beat>, aggregateOk: Log -> bool): (r: Service)
    ensures r.blockNumber == s.blockNumber
    ensures r.running ==> s.running
    decreases |beats|
  {
    if |beats| == 0 then s
    else ServiceRun(ServiceTick(s, beats[0].hasOperators, beats[0].logs, aggregateOk), beats[1..], aggregateOk)
  }

  /** A log that is a task request and decodes but has no block number
      panics the first tick that reaches it, and from then on no heartbeat
      changes anything: the store keeps its block and nothing is submitted. */
  lemma {:induction false} PanicStopsWatcher(s: Service, hasOperators: bool, logs: seq<Log>, aggregateOk: Log -> bool, i: nat, later: seq<Beat>)
    requires s.running
    requires i < |logs| && logs[i].isTaskRequest && logs[i].decoded.Some? && logs[i].blockNumber.None?
    requires AllHandled(logs[..i], hasOperators, aggregateOk)
    ensures Tick(s.blockNumber, hasOperators, Ok(logs), aggregateOk).Panicked?
    ensures ServiceRun(ServiceTick(s, hasOperators, Ok(logs), aggregateOk), later, aggregateOk)
         == s.(running := false)
  {
    ScanFirstUnhandled(logs, hasOperators, aggregateOk, s.blockNumber, [], i);
    StoppedStays(s.(running := false), later, aggregateOk);
  }

  /** A stopped watcher stays as it is, whatever the heartbeats. */
  lemma {:induction false} StoppedStays(s: Service, beats: seq<Beat>, aggregateOk: Log -> bool)
    requires !s.running
    ensures ServiceRun(s, beats, aggregateOk) == s
    decreases |beats|
  {
    if |beats| > 0 {
      StoppedStays(ServiceTick(s, beats[0].hasOperators, beats[0].logs, aggregateOk), beats[1..], aggregateOk);
    }
  }

  // ---------------------------------------------------------------------
  // TypeScript

  /** A `TaskRequestGenerated` event as the TypeScript watcher reads it. */
  datatype TsEvent = TsEvent(task: Task, blockNumber: nat)

  /** `watchForTaskEvents`, up to the per-event callbacks: the stored block
      is read afresh (an unreadable store reads as 0) and the events are
      queried from it. With no operator registered no callback runs; with
      some, each event is handled on its own. The result lists, in event
      order, the blocks written by callbacks whose round and submission
      both succeeded. `None` stands for a tick whose event query rejected. */
  function TsTick(stored: Option<nat>, hasOperators: bool, events: nat -> Result<seq<TsEvent>, TickError>,
                  aggregateOk: TsEvent -> bool, submitOk: TsEvent -> bool): (r: Option<seq<nat>>)
    ensures events(stored.GetOr(0)).Err? <==> r.None?
    ensures r.Some? && !hasOperators ==> r.value == []
  {
    var from := stored.GetOr(0);
    match events(from)
    case Err(_) => None
    case Ok(evs) => if hasOperators then Some(TsWrites(evs, aggregateOk, submitOk)) else Some([])
  }

  /** The per-event callbacks: `blockNumber + 1` is written only after the
      round and the submission both resolved. */
  function TsWrites(evs: seq<TsEvent>, aggregateOk: TsEvent -> bool, submitOk: TsEvent -> bool): (r: seq<nat>)
    ensures |r| <= |evs|
    ensures |r| == |evs| <==> forall i :: 0 <= i < |evs| ==> aggregateOk(evs[i]) && submitOk(evs[i])
    ensures forall b :: b in r <==>
      exists i :: 0 <= i < |evs| && aggregateOk(evs[i]) && submitOk(evs[i]) && b == evs[i].blockNumber + 1
  {
    if |evs| == 0 then []
    else
      var init, ev := evs[..|evs| - 1], evs[|evs| - 1];
      assert evs == init + [ev];
      assert forall i :: 0 <= i < |init| ==> init[i] == evs[i];
      var w := TsWrites(init, aggregateOk, submitOk);
      if aggregateOk(ev) && submitOk(ev) then w + [ev.blockNumber + 1] else w
  }

  /** Whether a tick leaves a rejected promise that nothing handles. The
      interval calls `watchForTaskEvents` without a `catch`, so a rejected
      event query rejects the tick; the callbacks `forEach` starts are never
      awaited, so a failed round or submission rejects its callback's
      promise. (A failed block-number write is caught and only logged.)
      Inside a round, `filter` calls its async predicate once per reply and
      drops the promise it returns, so a predicate that throws leaves a
      rejection behind even when the round itself goes on and succeeds;
      `filterRejects(ev)` says whether that happens in the round of `ev`
      (`TsAggregation.PredicateRejects` over that round's replies).
      Neither entry point installs an `unhandledRejection` handler, so under
      Node's default (since version 15) such a rejection ends the process:
      no later tick runs. */
  function TsEndsProcess(stored: Option<nat>, hasOperators: bool, events: nat -> Result<seq<TsEvent>, TickError>,
                         aggregateOk: TsEvent -> bool, submitOk: TsEvent -> bool, filterRejects: TsEvent -> bool): (r: bool)
    ensures TsTick(stored, hasOperators, events, aggregateOk, submitOk).None? ==> r
    ensures TsTick(stored, hasOperators, events, aggregateOk, submitOk).Some? ==>
      var evs := events(stored.GetOr(0)).value;
      (r <==> hasOperators && (|TsTick(stored, hasOperators, events, aggregateOk, submitOk).value| < |evs|
                               || exists i :: 0 <= i < |evs| && filterRejects(evs[i])))
  {
    match events(stored.GetOr(0))
    case Err(_) => true
    case Ok(evs) =>
      hasOperators && exists i :: 0 <= i < |evs| && (filterRejects(evs[i]) || !(aggregateOk(evs[i]) && submitOk(evs[i])))
  }

  /** Unlike the Rust tick, a failed submission writes nothing for its
      event, and a failed round does not stop the other events' callbacks
      from writing theirs. This is local to the tick only: the failure ends
      the process (see `TsFailureEndsProcess`), so the writes that land are
      those whose callbacks finish first, and no later tick runs. */
  lemma TsFailureIsLocal(evs: seq<TsEvent>, aggregateOk: TsEvent -> bool, submitOk: TsEvent -> bool, i: nat, j: nat)
    requires i < |evs| && j < |evs|
    requires !submitOk(evs[i]) || !aggregateOk(evs[i])
    requires aggregateOk(evs[j]) && submitOk(evs[j])
    ensures evs[j].blockNumber + 1 in TsWrites(evs, aggregateOk, submitOk)
    ensures (forall k :: 0 <= k < |evs| && evs[k].blockNumber == evs[i].blockNumber ==> k == i)
        ==> evs[i].blockNumber + 1 !in TsWrites(evs, aggregateOk, submitOk)
  {
  }

  /** One failed round or submission, or one rejecting filter predicate,
      with operators registered, ends the process; a tick whose callbacks
      all succeed and whose predicates all resolve does not, and neither
      does a tick without operators, which starts no callback. */
  lemma TsFailureEndsProcess(stored: Option<nat>, events: nat -> Result<seq<TsEvent>, TickError>,
                             aggregateOk: TsEvent -> bool, submitOk: TsEvent -> bool, filterRejects: TsEvent -> bool, i: nat)
    requires events(stored.GetOr(0)).Ok?
    ensures var evs := events(stored.GetOr(0)).value;
      i < |evs| && !(aggregateOk(evs[i]) && submitOk(evs[i]))
      ==> TsEndsProcess(stored, true, events, aggregateOk, submitOk, filterRejects)
    ensures var evs := events(stored.GetOr(0)).value;
      i < |evs| && filterRejects(evs[i]) ==> TsEndsProcess(stored, true, events, aggregateOk, submitOk, filterRejects)
    ensures var evs := events(stored.GetOr(0)).value;
      (forall k :: 0 <= k < |evs| ==> aggregateOk(evs[k]) && submitOk(evs[k]) && !filterRejects(evs[k]))
      ==> !TsEndsProcess(stored, true, events, aggregateOk, submitOk, filterRejects)
    ensures !TsEndsProcess(stored, false, events, aggregateOk, submitOk, filterRejects)
  {
  }
}
