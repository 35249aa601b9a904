/**
  Asynchronous execution rows: a row is inserted as running, grows with
  streamed output, and is rewritten by the transient process's `close`
  and `error` handlers. Neither handler looks at the current status.
 */
module Executions {
  import opened Results
  import opened OutputFilter

  datatype ExecStatus = Running | Completed | Failed

  /** One row of a session's execution table; times are clock readings. */
  datatype AsyncExecution = AsyncExecution(
    id: string,
    command: string,
    status: ExecStatus,
    stdout: string,
    stderr: string,
    exitCode: Option<int>,
    error: Option<string>,
    startTime: int,
    endTime: Option<int>)

  /** A session's execution table, keyed by execution id. */
  type ExecutionTable = map<string, AsyncExecution>

  /** The row `executeAsync` inserts before spawning anything. */
  function NewExecution(id: string, command: string, now: int): (e: AsyncExecution)
    ensures e.id == id && e.command == command && e.startTime == now
    ensures e.status == Running && e.stdout == "" && e.stderr == ""
    ensures e.exitCode.None? && e.error.None? && e.endTime.None?
  {
    AsyncExecution(id, command, Running, "", "", None, None, now, None)
  }

  /** A chunk from the transient process's stdout or stderr. */
  function OnExecutionData(e: AsyncExecution, chunk: string, isError: bool): (e': AsyncExecution)
    ensures isError ==> e' == e.(stderr := e.stderr + chunk)
    ensures !isError ==> e' == e.(stdout := e.stdout + chunk)
  {
    if isError then e.(stderr := e.stderr + chunk) else e.(stdout := e.stdout + chunk)
  }

  /**
    The `close` handler: completed, exit code `code ?? 0`, end time set and
    both streams replaced by their filtered form. The error field is left
    as it was.
   */
  function OnExecutionClose(e: AsyncExecution, code: Option<int>, now: int, pattern: string, compile: string -> Regex): (e': AsyncExecution)
    ensures e'.status == Completed && e'.exitCode == Some(code.GetOr(0)) && e'.endTime == Some(now)
    ensures var f := ApplyOutputFilter(e.stdout, e.stderr, pattern, compile); e'.stdout == f.stdout && e'.stderr == f.stderr
    ensures e'.id == e.id && e'.command == e.command && e'.startTime == e.startTime && e'.error == e.error
  {
    var filtered := ApplyOutputFilter(e.stdout, e.stderr, pattern, compile);
    e.(status := Completed, exitCode := Some(code.GetOr(0)), endTime := Some(now),
       stdout := filtered.stdout, stderr := filtered.stderr)
  }

  /** The `error` handler: failed, error message and end time set, output kept. */
  function OnExecutionError(e: AsyncExecution, message: string, now: int): (e': AsyncExecution)
    ensures e'.status == Failed && e'.error == Some(message) && e'.endTime == Some(now)
    ensures e'.id == e.id && e'.command == e.command && e'.startTime == e.startTime
    ensures e'.stdout == e.stdout && e'.stderr == e.stderr && e'.exitCode == e.exitCode
  {
    e.(status := Failed, error := Some(message), endTime := Some(now))
  }

  /**
    Status is not monotonic in the code: a `close` after an `error` turns a
    failed row into a completed one that still carries the error, and an
    `error` after a `close` turns a completed row into a failed one that
    still carries the exit code.
   */
  lemma StatusNotMonotonic(e: AsyncExecution, message: string, code: Option<int>, t1: int, t2: int, pattern: string, compile: string -> Regex)
    ensures var e' := OnExecutionClose(OnExecutionError(e, message, t1), code, t2, pattern, compile);
      e'.status == Completed && e'.error == Some(message) && e'.exitCode.Some?
    ensures var e' := OnExecutionError(OnExecutionClose(e, code, t1, pattern, compile), message, t2);
      e'.status == Failed && e'.error == Some(message) && e'.exitCode == Some(code.GetOr(0))
  {
  }

  /** The ids among `ids` whose rows are still running. */
  function RunningAmong(table: ExecutionTable, ids: set<string>): set<string> {
    set id | id in ids && id in table && table[id].status == Running
  }

  /** The ids of the rows still running. */
  function RunningIds(table: ExecutionTable): set<string> {
    RunningAmong(table, table.Keys)
  }

  /**
    `getRunningExecutionsCount` on one table: counts the running rows by
    visiting every row once.
   */
  method CountRunning(table: ExecutionTable) returns (n: nat)
    ensures n == |RunningIds(table)|
  {
    n := 0;
    var remaining := table.Keys;
    ghost var seen: set<string> := {};
    while remaining != {}
      invariant remaining !! seen && remaining + seen == table.Keys
      invariant n == |RunningAmong(table, seen)|
      decreases remaining
    {
      var id :| id in remaining;
      RunningAmongGrows(table, seen, id);
      if table[id].status == Running {
        n := n + 1;
      }
      remaining := remaining - {id};
      seen := seen + {id};
    }
  }

  /** Visiting one more row adds it to the running ones exactly when it is running. */
  lemma RunningAmongGrows(table: ExecutionTable, seen: set<string>, id: string)
    requires id in table && id !in seen
    ensures id !in RunningAmong(table, seen)
    ensures table[id].status == Running ==> RunningAmong(table, seen + {id}) == RunningAmong(table, seen) + {id}
    ensures table[id].status != Running ==> RunningAmong(table, seen + {id}) == RunningAmong(table, seen)
  {
  }

  /** Inserting a fresh running row adds exactly that id to the running set. */
  lemma InsertRunningCounts(table: ExecutionTable, id: string, command: string, now: int)
    requires id !in table
    ensures RunningIds(table[id := NewExecution(id, command, now)]) == RunningIds(table) + {id}
    ensures |RunningIds(table[id := NewExecution(id, command, now)])| == |RunningIds(table)| + 1
  {
    var t' := table[id := NewExecution(id, command, now)];
    assert RunningIds(t') == RunningIds(table) + {id};
  }

  /** A terminal handler on a running row removes exactly that id from the running set. */
  lemma TerminalEventUncounts(table: ExecutionTable, id: string, e': AsyncExecution)
    requires id in table && table[id].status == Running && e'.status != Running
    ensures RunningIds(table[id := e']) == RunningIds(table) - {id}
    ensures |RunningIds(table[id := e'])| == |RunningIds(table)| - 1
  {
    assert RunningIds(table[id := e']) == RunningIds(table) - {id};
  }
}
