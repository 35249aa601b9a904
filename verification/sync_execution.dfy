/**
  `executeSync` as a sequence of event transitions of its transient
  process: output chunks, the timeout timer, `close` and `error`. The
  call's own state (a `completed` flag, the two stream accumulators) lets
  only the first terminal event settle the call; output chunks are never
  guarded and keep reaching the session's buffer in the registry.
 */
module SyncExecution {
  import opened Results
  import opened OutputFilter
  import opened OutputBuffer
  import opened ConsoleManager

  /** One event delivered while a synchronous command runs. */
  datatype SyncEvent =
    | OutputChunk(chunk: string, isError: bool, timestamp: string)
    | TimerFired
    | ProcessClosed(code: Option<int>)
    | ProcessError(message: string)

  predicate IsTerminal(ev: SyncEvent) {
    !ev.OutputChunk?
  }

  /** The state local to one call: the settled outcome (if any) and the two streams. */
  datatype SyncState = SyncState(
    settled: Option<Result<SyncResult, Error>>,
    stdout: string,
    stderr: string)

  /** The state of a call before any event. */
  const Fresh: SyncState := SyncState(None, "", "")

  /** What a terminal event settles the call with, given the output accumulated so far. */
  function Settlement(ev: SyncEvent, stdout: string, stderr: string, timeoutMs: int, pattern: string, compile: string -> Regex): (r: Result<SyncResult, Error>)
    requires IsTerminal(ev)
    ensures r.Ok? <==> ev.ProcessClosed?
    ensures ev.TimerFired? ==> r == Err(ExecutionTimedOut(timeoutMs))
    ensures ev.ProcessError? ==> r == Err(ExecutionFailed(ev.message))
    ensures r.Ok? ==>
      && r.value.exitCode == ev.code.GetOr(0)
      && Streams(r.value.stdout, r.value.stderr) == ApplyOutputFilter(stdout, stderr, pattern, compile)
  {
    match ev
    case TimerFired => Err(ExecutionTimedOut(timeoutMs))
    case ProcessClosed(code) =>
      var filtered := ApplyOutputFilter(stdout, stderr, pattern, compile);
      Ok(SyncResult(filtered.stdout, filtered.stderr, code.GetOr(0)))
    case ProcessError(message) => Err(ExecutionFailed(message))
  }

  /**
    One event on the call's own state: a chunk is appended to its stream
    and never settles; a terminal event settles an unsettled call from the
    output seen so far and leaves a settled one alone.
   */
  function Step(st: SyncState, ev: SyncEvent, timeoutMs: int, pattern: string, compile: string -> Regex): (r: SyncState)
    ensures ev.OutputChunk? ==> r.settled == st.settled
    ensures ev.OutputChunk? && ev.isError ==> r.stderr == st.stderr + ev.chunk && r.stdout == st.stdout
    ensures ev.OutputChunk? && !ev.isError ==> r.stdout == st.stdout + ev.chunk && r.stderr == st.stderr
    ensures IsTerminal(ev) ==> r.stdout == st.stdout && r.stderr == st.stderr
    ensures st.settled.Some? ==> r.settled == st.settled
    ensures st.settled.None? && IsTerminal(ev) ==> r.settled == Some(Settlement(ev, st.stdout, st.stderr, timeoutMs, pattern, compile))
  {
    match ev
    case OutputChunk(chunk, isError, _) =>
      if isError then st.(stderr := st.stderr + chunk) else st.(stdout := st.stdout + chunk)
    case _ =>
      if st.settled.Some? then st
      else st.(settled := Some(Settlement(ev, st.stdout, st.stderr, timeoutMs, pattern, compile)))
  }

  /** A left fold over events, defined on prefixes. */
  function Fold<S, E>(st: S, events: seq<E>, step: (S, E) -> S): S
    decreases |events|
  {
    if |events| == 0 then st
    else step(Fold(st, events[..|events| - 1], step), events[|events| - 1])
  }

  /** Folding a concatenation is folding the second part from where the first left off. */
  lemma {:induction false} FoldAppend<S, E>(st: S, a: seq<E>, b: seq<E>, step: (S, E) -> S)
    ensures Fold(st, a + b, step) == Fold(Fold(st, a, step), b, step)
    decreases |b|
  {
    if |b| == 0 {
      assert a + b == a;
    } else {
      assert (a + b)[..|a + b| - 1] == a + b[..|b| - 1];
      assert (a + b)[|a + b| - 1] == b[|b| - 1];
      FoldAppend(st, a, b[..|b| - 1], step);
    }
  }

  /** The state after a sequence of events. */
  function Run(st: SyncState, events: seq<SyncEvent>, timeoutMs: int, pattern: string, compile: string -> Regex): SyncState {
    Fold(st, events, (s, ev) => Step(s, ev, timeoutMs, pattern, compile))
  }

  /** Once settled, a call stays settled with the same outcome whatever follows. */
  lemma {:induction false} SettledStays(st: SyncState, events: seq<SyncEvent>, timeoutMs: int, pattern: string, compile: string -> Regex)
    requires st.settled.Some?
    ensures Run(st, events, timeoutMs, pattern, compile).settled == st.settled
    decreases |events|
  {
    if |events| > 0 {
      SettledStays(st, events[..|events| - 1], timeoutMs, pattern, compile);
    }
  }

  /** Output chunks alone never settle the call. */
  lemma {:induction false} ChunksDoNotSettle(st: SyncState, events: seq<SyncEvent>, timeoutMs: int, pattern: string, compile: string -> Regex)
    requires forall j :: 0 <= j < |events| ==> !IsTerminal(events[j])
    ensures Run(st, events, timeoutMs, pattern, compile).settled == st.settled
    decreases |events|
  {
    if |events| > 0 {
      ChunksDoNotSettle(st, events[..|events| - 1], timeoutMs, pattern, compile);
    }
  }

  /**
    Settle once: the first terminal event decides the outcome from the
    output seen before it, and nothing after it changes that outcome.
   */
  lemma FirstTerminalDecides(st: SyncState, pre: seq<SyncEvent>, ev: SyncEvent, post: seq<SyncEvent>, timeoutMs: int, pattern: string, compile: string -> Regex)
    requires st.settled.None?
    requires forall j :: 0 <= j < |pre| ==> !IsTerminal(pre[j])
    requires IsTerminal(ev)
    ensures var before := Run(st, pre, timeoutMs, pattern, compile);
      Run(st, pre + [ev] + post, timeoutMs, pattern, compile).settled
        == Some(Settlement(ev, before.stdout, before.stderr, timeoutMs, pattern, compile))
  {
    ChunksDoNotSettle(st, pre, timeoutMs, pattern, compile);
    var step := (s, e) => Step(s, e, timeoutMs, pattern, compile);
    FoldAppend(st, pre, [ev], step);
    FoldAppend(st, pre + [ev], post, step);
    var before := Run(st, pre, timeoutMs, pattern, compile);
    assert [ev][..0] == [];
    assert Run(before, [ev], timeoutMs, pattern, compile) == Step(before, ev, timeoutMs, pattern, compile);
    SettledStays(Run(st, pre + [ev], timeoutMs, pattern, compile), post, timeoutMs, pattern, compile);
  }

  /** Terminal events never touch the streams: output keeps being accumulated after the call settles. */
  lemma {:induction false} OutputIgnoresSettlement(st: SyncState, events: seq<SyncEvent>, timeoutMs: int, pattern: string, compile: string -> Regex)
    ensures var all := Run(st, events, timeoutMs, pattern, compile);
      var chunks := Run(st, Select(events, (ev: SyncEvent) => !IsTerminal(ev)), timeoutMs, pattern, compile);
      all.stdout == chunks.stdout && all.stderr == chunks.stderr
    decreases |events|
  {
    if |events| > 0 {
      var init := events[..|events| - 1];
      OutputIgnoresSettlement(st, init, timeoutMs, pattern, compile);
    }
  }

  // ---------------------------------------------------------------------
  // The call against the registry

  /** The registry together with the state of one running call. */
  datatype Live = Live(manager: Manager, call: SyncState)

  /**
    One event of the call started on session `id`, as its handler runs: a
    chunk reaches the session's buffer (a no-op once the session is gone)
    whether or not the call has settled; a terminal event only settles the
    call and never touches the registry. Other transitions of the registry
    may run between two events.
   */
  function OnSyncEvent(l: Live, id: string, ev: SyncEvent, timeoutMs: int, pattern: string, compile: string -> Regex): (r: Live)
    ensures r.call == Step(l.call, ev, timeoutMs, pattern, compile)
    ensures ev.OutputChunk? ==> r.manager == RecordOutput(l.manager, id, ev.chunk, ev.isError, ev.timestamp)
    ensures IsTerminal(ev) ==> r.manager == l.manager
  {
    var manager := if ev.OutputChunk? then RecordOutput(l.manager, id, ev.chunk, ev.isError, ev.timestamp) else l.manager;
    Live(manager, Step(l.call, ev, timeoutMs, pattern, compile))
  }

  /** The events delivered one after the other with nothing in between. */
  function RunLive(l: Live, id: string, events: seq<SyncEvent>, timeoutMs: int, pattern: string, compile: string -> Regex): Live {
    Fold(l, events, (s, ev) => OnSyncEvent(s, id, ev, timeoutMs, pattern, compile))
  }

  /** The buffer after the chunks among `events` have been added to it, in order. */
  function BufferAfter(buffer: seq<string>, events: seq<SyncEvent>): seq<string>
    decreases |events|
  {
    if |events| == 0 then buffer
    else
      var b := BufferAfter(buffer, events[..|events| - 1]);
      var ev := events[|events| - 1];
      if ev.OutputChunk? then AddToOutputBuffer(b, ev.chunk, ev.isError, ev.timestamp) else b
  }

  /** Against the registry, the call's own state evolves exactly as in isolation. */
  lemma {:induction false} RunLiveCall(l: Live, id: string, events: seq<SyncEvent>, timeoutMs: int, pattern: string, compile: string -> Regex)
    ensures RunLive(l, id, events, timeoutMs, pattern, compile).call == Run(l.call, events, timeoutMs, pattern, compile)
    decreases |events|
  {
    if |events| > 0 {
      RunLiveCall(l, id, events[..|events| - 1], timeoutMs, pattern, compile);
    }
  }

  /**
    The events change the registry only in session `id`'s buffer, which
    receives every chunk in order; the invariant is kept.
   */
  lemma {:induction false} RunLiveFrame(l: Live, id: string, events: seq<SyncEvent>, timeoutMs: int, pattern: string, compile: string -> Regex)
    ensures var m := l.manager;
      var m' := RunLive(l, id, events, timeoutMs, pattern, compile).manager;
      && m'.consolesByName == m.consolesByName && m'.asyncExecutions == m.asyncExecutions
      && m'.consoles.Keys == m.consoles.Keys
      && (forall other :: other in m.consoles && other != id ==> m'.consoles[other] == m.consoles[other])
      && (id in m.consoles ==>
            m'.consoles[id] == m.consoles[id].(outputBuffer := BufferAfter(m.consoles[id].outputBuffer, events)))
      && (id !in m.consoles ==> m' == m)
      && (ValidManager(m) ==> ValidManager(m'))
    decreases |events|
  {
    if |events| > 0 {
      var init := events[..|events| - 1];
      var ev := events[|events| - 1];
      RunLiveFrame(l, id, init, timeoutMs, pattern, compile);
      var before := RunLive(l, id, init, timeoutMs, pattern, compile);
      assert RunLive(l, id, events, timeoutMs, pattern, compile) == OnSyncEvent(before, id, ev, timeoutMs, pattern, compile);
      if ev.OutputChunk? && ValidManager(l.manager) {
        RecordOutputPreservesValid(before.manager, id, ev.chunk, ev.isError, ev.timestamp);
      }
    }
  }

  /** The outcome of `executeSync` once the given events have been delivered: the registry and the settlement, if any. */
  datatype SyncRun = SyncRun(manager: Manager, settled: Option<Result<SyncResult, Error>>)

  /**
    `executeSync`: fails at once on an unknown or inactive session;
    otherwise delivers the events in order, with nothing interleaved, and
    reports how (and whether) the call settled. The registry changes only
    in the session's buffer, which receives every chunk.
   */
  function ExecuteSync(m: Manager, key: string, timeoutMs: int, pattern: string, compile: string -> Regex, events: seq<SyncEvent>): (r: Result<SyncRun, Error>)
    ensures GetSession(m, key).Err? ==> r == Err(GetSession(m, key).error)
    ensures GetSession(m, key).Ok? && !GetSession(m, key).value.isActive ==> r == Err(ConsoleInactive(key))
    ensures GetSession(m, key).Ok? && GetSession(m, key).value.isActive ==> r.Ok?
    ensures r.Ok? ==>
      var id := ResolveConsoleId(m, key).value;
      var m' := r.value.manager;
      && id in m.consoles
      && r.value.settled == Run(Fresh, events, timeoutMs, pattern, compile).settled
      && (r.value.settled.Some? <==> HasTerminal(events))
      && m'.consolesByName == m.consolesByName && m'.asyncExecutions == m.asyncExecutions
      && m'.consoles.Keys == m.consoles.Keys
      && (forall other :: other in m.consoles && other != id ==> m'.consoles[other] == m.consoles[other])
      && m'.consoles[id] == m.consoles[id].(outputBuffer := BufferAfter(m.consoles[id].outputBuffer, events))
      && (ValidManager(m) ==> ValidManager(m'))
  {
    match GetSession(m, key)
    case Err(e) => Err(e)
    case Ok(s) =>
      if !s.isActive then Err(ConsoleInactive(key))
      else
        var id := ResolveConsoleId(m, key).value;
        var start := Live(m, Fresh);
        RunLiveCall(start, id, events, timeoutMs, pattern, compile);
        RunLiveFrame(start, id, events, timeoutMs, pattern, compile);
        SettledIffTerminal(Fresh, events, timeoutMs, pattern, compile);
        var final := RunLive(start, id, events, timeoutMs, pattern, compile);
        Ok(SyncRun(final.manager, final.call.settled))
  }

  /**
    The answer of `executeSync` is decided by the first terminal event: the
    filtered output of the chunks before it on `close`, the timeout on the
    timer, the failure on `error`; chunks after it only reach the buffer.
   */
  lemma ExecuteSyncFirstTerminal(
    m: Manager, key: string, timeoutMs: int, pattern: string, compile: string -> Regex,
    pre: seq<SyncEvent>, ev: SyncEvent, post: seq<SyncEvent>)
    requires GetSession(m, key).Ok? && GetSession(m, key).value.isActive
    requires forall j :: 0 <= j < |pre| ==> !IsTerminal(pre[j])
    requires IsTerminal(ev)
    ensures var before := Run(Fresh, pre, timeoutMs, pattern, compile);
      ExecuteSync(m, key, timeoutMs, pattern, compile, pre + [ev] + post).value.settled
        == Some(Settlement(ev, before.stdout, before.stderr, timeoutMs, pattern, compile))
  {
    FirstTerminalDecides(Fresh, pre, ev, post, timeoutMs, pattern, compile);
  }

  /** Some event in the sequence is terminal. */
  predicate HasTerminal(events: seq<SyncEvent>) {
    exists j :: 0 <= j < |events| && IsTerminal(events[j])
  }

  lemma HasTerminalSnoc(events: seq<SyncEvent>)
    requires |events| > 0
    ensures HasTerminal(events) <==> HasTerminal(events[..|events| - 1]) || IsTerminal(events[|events| - 1])
  {
    var init := events[..|events| - 1];
    if HasTerminal(init) {
      var j :| 0 <= j < |init| && IsTerminal(init[j]);
      assert IsTerminal(events[j]);
    }
    if HasTerminal(events) {
      var j :| 0 <= j < |events| && IsTerminal(events[j]);
      if j < |init| {
        assert IsTerminal(init[j]);
      }
    }
  }

  /** From an unsettled state, the run is settled exactly when some event was terminal. */
  lemma {:induction false} SettledIffTerminal(st: SyncState, events: seq<SyncEvent>, timeoutMs: int, pattern: string, compile: string -> Regex)
    requires st.settled.None?
    ensures Run(st, events, timeoutMs, pattern, compile).settled.Some? <==> HasTerminal(events)
    decreases |events|
  {
    if |events| > 0 {
      var init := events[..|events| - 1];
      var last := events[|events| - 1];
      SettledIffTerminal(st, init, timeoutMs, pattern, compile);
      HasTerminalSnoc(events);
      var before := Run(st, init, timeoutMs, pattern, compile);
      assert Run(st, events, timeoutMs, pattern, compile) == Step(before, last, timeoutMs, pattern, compile);
    }
  }
}
