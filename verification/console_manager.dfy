/**
  The console manager's bookkeeping as a pure state machine: the id to
  session map, the secondary name index, the per-session execution
  tables, and the transitions that create, exit, close, run on and read
  sessions. Process spawning, signals and timers are outside the model;
  their outcomes arrive as parameters and events.
 */
module ConsoleManager {
  import opened Results
  import opened Strings
  import opened OutputFilter
  import opened OutputBuffer
  import opened Executions
  import opened Shell

  /** One console session; a name of "" means the session is unnamed. */
  datatype Session = Session(
    id: string,
    name: string,
    shell: string,
    workingDir: string,
    createdAt: int,
    isActive: bool,
    environment: map<string, string>,
    outputBuffer: seq<string>)

  /** The registry: sessions by id, the name index, and execution tables by session id. */
  datatype Manager = Manager(
    consoles: map<string, Session>,
    consolesByName: map<string, string>,
    asyncExecutions: map<string, ExecutionTable>)

  /** A freshly constructed manager. */
  const Empty: Manager := Manager(map[], map[], map[])

  /** The failures the operations throw. */
  datatype Error =
    | NameConflict(name: string)
    | CreateFailed(reason: string)  // thrown as "Failed to create console: " followed by the reason
    | ConsoleNotFound(key: string)
    | ConsoleInactive(key: string)
    | ExecutionNotFound(executionId: string, key: string)
    | ExecutionTimedOut(timeoutMs: int)
    | ExecutionFailed(message: string)
    | ExecutionTableMissing(consoleId: string)

  /** How the long-lived shell's spawn went: confirmed, not confirmed within 5 s, or an `error` event. */
  datatype SpawnOutcome = Spawned | SpawnTimedOut | SpawnError(message: string)

  const SpawnTimeoutMessage: string := "Console process failed to start within timeout"

  /** The facts about the host `createConsole` reads: platform, environment and current directory. */
  datatype Host = Host(platform: string, env: map<string, string>, cwd: string)

  /** Every name-index entry points to a registered, active session carrying that name. */
  predicate NameIndexSound(m: Manager) {
    forall n :: n in m.consolesByName ==>
      && n != ""
      && m.consolesByName[n] in m.consoles
      && m.consoles[m.consolesByName[n]].name == n
      && m.consoles[m.consolesByName[n]].isActive
  }

  /** The registry invariant every transition keeps. */
  predicate ValidManager(m: Manager) {
    && (forall id :: id in m.consoles ==>
          id != "" && m.consoles[id].id == id && |m.consoles[id].outputBuffer| <= MaxBufferSize)
    && m.consoles.Keys == m.asyncExecutions.Keys
    && NameIndexSound(m)
  }

  lemma EmptyValid()
    ensures ValidManager(Empty)
  {
  }

  // ---------------------------------------------------------------------
  // Lookup

  /** `resolveConsoleId`: an id match wins; only then is the name index consulted. */
  function ResolveConsoleId(m: Manager, key: string): (r: Result<string, Error>)
    ensures key in m.consoles ==> r == Ok(key)
    ensures key !in m.consoles ==>
      (r.Ok? <==> key in m.consolesByName && m.consolesByName[key] != "")
    ensures r.Ok? && key !in m.consoles ==> r.value == m.consolesByName[key]
    ensures r.Err? ==> r.error == ConsoleNotFound(key)
  {
    if key in m.consoles then Ok(key)
    else if key in m.consolesByName && m.consolesByName[key] != "" then Ok(m.consolesByName[key])
    else Err(ConsoleNotFound(key))
  }

  /** On a valid registry resolution always lands on a registered session that has `key` as id or name. */
  lemma ResolveLandsOnSession(m: Manager, key: string)
    requires ValidManager(m)
    ensures ResolveConsoleId(m, key).Ok? ==>
      var id := ResolveConsoleId(m, key).value;
      id in m.consoles && (id == key || (m.consoles[id].name == key && m.consoles[id].isActive))
    ensures ResolveConsoleId(m, key).Err? <==> key !in m.consoles && key !in m.consolesByName
  {
  }

  /** An id that is also another session's name still resolves to its own session. */
  lemma IdTakesPriority(m: Manager, a: string, b: string)
    requires ValidManager(m)
    requires a in m.consoles && b in m.consoles && a != b && m.consoles[b].name == a
    ensures ResolveConsoleId(m, a) == Ok(a)
  {
  }

  /** `getConsoleSession`: resolution followed by a lookup that can itself fail. */
  function GetSession(m: Manager, key: string): (r: Result<Session, Error>)
    ensures r.Ok? ==> (
      && ResolveConsoleId(m, key).Ok? && ResolveConsoleId(m, key).value in m.consoles
      && r.value == m.consoles[ResolveConsoleId(m, key).value])
    ensures r.Err? ==>
      || (ResolveConsoleId(m, key).Err? && r.error == ConsoleNotFound(key))
      || (ResolveConsoleId(m, key).Ok? && r.error == ConsoleNotFound(ResolveConsoleId(m, key).value))
    ensures ValidManager(m) ==> (r.Ok? <==> ResolveConsoleId(m, key).Ok?)
  {
    match ResolveConsoleId(m, key)
    case Err(e) => Err(e)
    case Ok(id) => if id in m.consoles then Ok(m.consoles[id]) else Err(ConsoleNotFound(id))
  }

  // ---------------------------------------------------------------------
  // Create, exit, close

  /** The result of a successful `createConsole`: the new registry and the new session. */
  datatype Created = Created(manager: Manager, session: Session)

  /**
    `createConsole`: a non-empty name already in the index is rejected
    before anything is spawned; a failed spawn leaves the registry alone;
    otherwise the session is registered under `id`, under its name when it
    has one, and gets an empty execution table.
   */
  function CreateConsole(
    m: Manager, host: Host, id: string, shell: string, workingDir: string,
    environment: map<string, string>, name: string, now: int, spawn: SpawnOutcome): (r: Result<Created, Error>)
    ensures name != "" && name in m.consolesByName ==> r == Err(NameConflict(name))
    ensures r.Ok? <==> !(name != "" && name in m.consolesByName) && spawn.Spawned?
    ensures !(name != "" && name in m.consolesByName) && spawn.SpawnTimedOut? ==> r == Err(CreateFailed(SpawnTimeoutMessage))
    ensures !(name != "" && name in m.consolesByName) && spawn.SpawnError? ==> r == Err(CreateFailed(spawn.message))
    ensures r.Ok? ==>
      var s := r.value.session;
      && s.id == id && s.name == name && s.isActive && s.outputBuffer == [] && s.createdAt == now
      && s.environment == environment
      && s.shell == (if shell != "" then shell else DefaultShell(host.platform, host.env))
      && s.workingDir == (if workingDir != "" then workingDir else host.cwd)
      && r.value.manager.consoles == m.consoles[id := s]
      && r.value.manager.asyncExecutions == m.asyncExecutions[id := map[]]
      && r.value.manager.consolesByName == (if name != "" then m.consolesByName[name := id] else m.consolesByName)
  {
    if name != "" && name in m.consolesByName then Err(NameConflict(name))
    else
      var selectedShell := if shell != "" then shell else DefaultShell(host.platform, host.env);
      var selectedDir := if workingDir != "" then workingDir else host.cwd;
      match spawn
      case SpawnTimedOut => Err(CreateFailed(SpawnTimeoutMessage))
      case SpawnError(message) => Err(CreateFailed(message))
      case Spawned =>
        var s := Session(id, name, selectedShell, selectedDir, now, true, environment, []);
        var byName := if name != "" then m.consolesByName[name := id] else m.consolesByName;
        Ok(Created(Manager(m.consoles[id := s], byName, m.asyncExecutions[id := map[]]), s))
  }

  /** Registration with a fresh id keeps the registry valid. */
  lemma CreatePreservesValid(
    m: Manager, host: Host, id: string, shell: string, workingDir: string,
    environment: map<string, string>, name: string, now: int, spawn: SpawnOutcome)
    requires ValidManager(m) && id != "" && id !in m.consoles
    ensures var r := CreateConsole(m, host, id, shell, workingDir, environment, name, now, spawn);
      r.Ok? ==> ValidManager(r.value.manager)
  {
    var r := CreateConsole(m, host, id, shell, workingDir, environment, name, now, spawn);
    if r.Ok? {
      var m' := r.value.manager;
      forall n | n in m'.consolesByName
        ensures n != "" && m'.consolesByName[n] in m'.consoles
          && m'.consoles[m'.consolesByName[n]].name == n && m'.consoles[m'.consolesByName[n]].isActive
      {
        if n != name {
          assert m.consolesByName[n] != id;
        }
      }
    }
  }

  /** While `name` is indexed, creating it again fails whatever the spawn would do. */
  lemma SecondCreateConflicts(
    m: Manager, host: Host, id: string, id2: string, environment: map<string, string>,
    name: string, t1: int, t2: int, spawn2: SpawnOutcome)
    requires name != ""
    requires CreateConsole(m, host, id, "", "", environment, name, t1, Spawned).Ok?
    ensures var m1 := CreateConsole(m, host, id, "", "", environment, name, t1, Spawned).value.manager;
      CreateConsole(m1, host, id2, "", "", environment, name, t2, spawn2) == Err(NameConflict(name))
  {
  }

  /**
    The exit handler of a session's shell process: the session, if still
    registered, becomes inactive, and the name it was created with is
    deleted from the index without checking whom that entry points to.
   */
  function OnConsoleExit(m: Manager, id: string, name: string): (m': Manager)
    ensures m'.consoles.Keys == m.consoles.Keys && m'.asyncExecutions == m.asyncExecutions
    ensures id in m.consoles ==> m'.consoles[id] == m.consoles[id].(isActive := false)
    ensures forall other :: other in m.consoles && other != id ==> m'.consoles[other] == m.consoles[other]
    ensures name != "" ==> name !in m'.consolesByName
    ensures forall n :: n in m.consolesByName && n != name ==> n in m'.consolesByName && m'.consolesByName[n] == m.consolesByName[n]
    ensures m'.consolesByName.Keys <= m.consolesByName.Keys
  {
    var consoles := if id in m.consoles then m.consoles[id := m.consoles[id].(isActive := false)] else m.consoles;
    var byName := if name != "" then m.consolesByName - {name} else m.consolesByName;
    Manager(consoles, byName, m.asyncExecutions)
  }

  /** An exit event for a session carrying the name it was created with keeps the registry valid. */
  lemma ExitPreservesValid(m: Manager, id: string, name: string)
    requires ValidManager(m)
    requires id in m.consoles ==> m.consoles[id].name == name
    ensures ValidManager(OnConsoleExit(m, id, name))
  {
    var m' := OnConsoleExit(m, id, name);
    forall x | x in m'.consoles
      ensures x != "" && m'.consoles[x].id == x && |m'.consoles[x].outputBuffer| <= MaxBufferSize
    {
      assert m'.consoles[x].outputBuffer == m.consoles[x].outputBuffer;
    }
    forall n | n in m'.consolesByName
      ensures n != "" && m'.consolesByName[n] in m'.consoles
      ensures m'.consoles[m'.consolesByName[n]].name == n && m'.consoles[m'.consolesByName[n]].isActive
    {
      assert n in m.consolesByName && n != name;
    }
  }

  /**
    `closeConsole`: resolve the session, then delete the name carried by
    the session (whoever the index entry now points to), its id entry and
    its execution table. Signals sent to the process are outside the model.
   */
  function CloseConsole(m: Manager, key: string): (r: Result<Manager, Error>)
    ensures r.Ok? <==> GetSession(m, key).Ok?
    ensures r.Err? ==> r.error == GetSession(m, key).error
    ensures key in m.consoles ==> r.Ok?
    ensures r.Ok? ==>
      var s := GetSession(m, key).value;
      && r.value.consoles == m.consoles - {s.id}
      && r.value.asyncExecutions == m.asyncExecutions - {s.id}
      && r.value.consolesByName == (if s.name != "" then m.consolesByName - {s.name} else m.consolesByName)
  {
    match GetSession(m, key)
    case Err(e) => Err(e)
    case Ok(s) =>
      var byName := if s.name != "" then m.consolesByName - {s.name} else m.consolesByName;
      Ok(Manager(m.consoles - {s.id}, byName, m.asyncExecutions - {s.id}))
  }

  /** Closing keeps the registry valid, removes exactly one id, and leaves every other session as it was. */
  lemma ClosePreservesValid(m: Manager, key: string)
    requires ValidManager(m)
    ensures var r := CloseConsole(m, key);
      r.Ok? ==>
        var id := ResolveConsoleId(m, key).value;
        && ValidManager(r.value)
        && id !in r.value.consoles && id !in r.value.asyncExecutions
        && (forall other :: other in m.consoles && other != id ==>
              other in r.value.consoles && r.value.consoles[other] == m.consoles[other])
  {
    var r := CloseConsole(m, key);
    if r.Ok? {
      var s := GetSession(m, key).value;
      var m' := r.value;
      forall n | n in m'.consolesByName
        ensures m'.consolesByName[n] in m'.consoles
      {
        assert n != s.name;
        assert m.consolesByName[n] != s.id;
      }
    }
  }

  /** After a close, the session is gone: its id no longer answers a status query. */
  lemma CloseThenStatusNotFound(m: Manager, id: string)
    requires ValidManager(m) && id in m.consoles && id !in m.consolesByName
    ensures CloseConsole(m, id).Ok?
    ensures GetConsoleStatus(CloseConsole(m, id).value, id) == Err(ConsoleNotFound(id))
  {
  }

  /** The same through a name: closing by name succeeds and the name no longer resolves. */
  lemma CloseByNameThenStatusNotFound(m: Manager, name: string)
    requires ValidManager(m) && name in m.consolesByName && name !in m.consoles
    ensures CloseConsole(m, name).Ok?
    ensures GetConsoleStatus(CloseConsole(m, name).value, name) == Err(ConsoleNotFound(name))
  {
    ClosePreservesValid(m, name);
  }

  /** Closing the owner of a name releases it: the name can be created again. */
  lemma CloseReleasesName(
    m: Manager, host: Host, id: string, id2: string, environment: map<string, string>,
    name: string, t1: int, t2: int)
    requires ValidManager(m) && id !in m.consoles && name != "" && name !in m.consolesByName
    ensures var m1 := CreateConsole(m, host, id, "", "", environment, name, t1, Spawned).value.manager;
      && CloseConsole(m1, id).Ok?
      && CreateConsole(CloseConsole(m1, id).value, host, id2, "", "", environment, name, t2, Spawned).Ok?
  {
  }

  /**
    The name index is sound but not complete: session A named `name` exits,
    B is created under the same name, then closing A erases B's entry, so B
    is active and named `name` but `name` no longer resolves.
   */
  lemma NameIndexIncomplete(
    m: Manager, host: Host, a: string, b: string, environment: map<string, string>,
    name: string, t1: int, t2: int)
    requires a != b && a !in m.consoles && b !in m.consoles
    requires name != "" && name !in m.consolesByName && name !in m.consoles && name != b
    ensures
      var m1 := CreateConsole(m, host, a, "", "", environment, name, t1, Spawned).value.manager;
      var m2 := OnConsoleExit(m1, a, name);
      var m3 := CreateConsole(m2, host, b, "", "", environment, name, t2, Spawned).value.manager;
      && CloseConsole(m3, a).Ok?
      && var m4 := CloseConsole(m3, a).value;
      && b in m4.consoles && m4.consoles[b].isActive && m4.consoles[b].name == name
      && name !in m4.consolesByName
      && ResolveConsoleId(m4, name) == Err(ConsoleNotFound(name))
  {
    var r1 := CreateConsole(m, host, a, "", "", environment, name, t1, Spawned);
    assert r1.Ok?;
    var m1 := r1.value.manager;
    var m2 := OnConsoleExit(m1, a, name);
    assert name !in m2.consolesByName && a in m2.consoles && m2.consoles[a].name == name;
    var r3 := CreateConsole(m2, host, b, "", "", environment, name, t2, Spawned);
    assert r3.Ok?;
    var m3 := r3.value.manager;
    assert a in m3.consoles && m3.consoles[a].id == a && name !in m3.consoles.Keys - {a};
    CloseStaleOwner(m3, a, b, name);
  }

  /**
    Names are not unique: after the sequence of `NameIndexIncomplete` the
    name is free again, so a third session can take it while the second is
    still active under the same name.
   */
  lemma TwoActiveSameName(
    m: Manager, host: Host, a: string, b: string, c: string, environment: map<string, string>,
    name: string, t1: int, t2: int, t3: int)
    requires a != b && a != c && b != c && a !in m.consoles && b !in m.consoles && c !in m.consoles
    requires name != "" && name !in m.consolesByName && name !in m.consoles && name != b && name != c
    ensures
      var m1 := CreateConsole(m, host, a, "", "", environment, name, t1, Spawned).value.manager;
      var m2 := OnConsoleExit(m1, a, name);
      var m3 := CreateConsole(m2, host, b, "", "", environment, name, t2, Spawned).value.manager;
      var m4 := CloseConsole(m3, a).value;
      && CreateConsole(m4, host, c, "", "", environment, name, t3, Spawned).Ok?
      && var m5 := CreateConsole(m4, host, c, "", "", environment, name, t3, Spawned).value.manager;
      && b in m5.consoles && m5.consoles[b].isActive && m5.consoles[b].name == name
      && c in m5.consoles && m5.consoles[c].isActive && m5.consoles[c].name == name
  {
    NameIndexIncomplete(m, host, a, b, environment, name, t1, t2);
  }

  /** Closing an exited session drops its name from the index even when a newer session now owns that name. */
  lemma CloseStaleOwner(m: Manager, a: string, b: string, name: string)
    requires a in m.consoles && m.consoles[a].id == a && m.consoles[a].name == name && name != ""
    requires b in m.consoles && b != a && m.consoles[b].isActive && m.consoles[b].name == name
    requires name !in m.consoles.Keys - {a}
    ensures CloseConsole(m, a).Ok?
    ensures var m' := CloseConsole(m, a).value;
      && b in m'.consoles && m'.consoles[b] == m.consoles[b]
      && name !in m'.consolesByName
      && ResolveConsoleId(m', name) == Err(ConsoleNotFound(name))
  {
    assert ResolveConsoleId(m, a) == Ok(a);
    assert GetSession(m, a) == Ok(m.consoles[a]);
    var m' := CloseConsole(m, a).value;
    assert m'.consoles == m.consoles - {a};
    assert m'.consolesByName == m.consolesByName - {name};
  }

  /**
    `cleanup`: closes every registered session one after another; a close
    that fails would be logged and skipped, but none can fail because every
    id it visits is still registered.
   */
  method CloseAll(m: Manager) returns (m': Manager)
    requires ValidManager(m)
    ensures ValidManager(m')
    ensures m'.consoles == map[] && m'.consolesByName == map[]
    ensures m'.asyncExecutions == m.asyncExecutions - m.consoles.Keys
  {
    m' := m;
    var ids := m.consoles.Keys;
    while ids != {}
      invariant ValidManager(m')
      invariant ids <= m.consoles.Keys && m'.consoles.Keys == ids
      invariant forall id :: id in ids ==> m'.consoles[id] == m.consoles[id]
      invariant m'.asyncExecutions == m.asyncExecutions - (m.consoles.Keys - ids)
      decreases ids
    {
      var id :| id in ids;
      ClosePreservesValid(m', id);
      var r := CloseConsole(m', id);
      m' := r.value;
      assert m.consoles.Keys - (ids - {id}) == (m.consoles.Keys - ids) + {id};
      ids := ids - {id};
    }
    assert forall n :: n !in m'.consolesByName;
  }

  // ---------------------------------------------------------------------
  // The output buffer of a session

  /** A streamed chunk reaching a session's buffer, if the session is still registered. */
  function RecordOutput(m: Manager, id: string, chunk: string, isError: bool, timestamp: string): (m': Manager)
    ensures m'.consoles.Keys == m.consoles.Keys
    ensures m'.consolesByName == m.consolesByName && m'.asyncExecutions == m.asyncExecutions
    ensures id in m.consoles ==>
      m'.consoles[id] == m.consoles[id].(outputBuffer := AddToOutputBuffer(m.consoles[id].outputBuffer, chunk, isError, timestamp))
    ensures forall other :: other in m.consoles && other != id ==> m'.consoles[other] == m.consoles[other]
  {
    if id in m.consoles then
      var s := m.consoles[id];
      m.(consoles := m.consoles[id := s.(outputBuffer := AddToOutputBuffer(s.outputBuffer, chunk, isError, timestamp))])
    else m
  }

  /** Output never pushes a buffer past its capacity. */
  lemma RecordOutputPreservesValid(m: Manager, id: string, chunk: string, isError: bool, timestamp: string)
    requires ValidManager(m)
    ensures ValidManager(RecordOutput(m, id, chunk, isError, timestamp))
  {
    var m' := RecordOutput(m, id, chunk, isError, timestamp);
    forall x | x in m'.consoles
      ensures x != "" && m'.consoles[x].id == x && |m'.consoles[x].outputBuffer| <= MaxBufferSize
    {
      if x == id {
        var s := m.consoles[id];
        assert |AddToOutputBuffer(s.outputBuffer, chunk, isError, timestamp)| <= MaxBufferSize;
      }
    }
    forall n | n in m'.consolesByName
      ensures n != "" && m'.consolesByName[n] in m'.consoles
      ensures m'.consoles[m'.consolesByName[n]].name == n && m'.consoles[m'.consolesByName[n]].isActive
    {
      assert m'.consoles[m'.consolesByName[n]].name == m.consoles[m.consolesByName[n]].name;
    }
  }

  /**
    `getConsoleOutput`: fails on an unknown or inactive session; otherwise
    reads a copy of the buffer (tail, then line selection).
   */
  function GetConsoleOutput(m: Manager, key: string, lines: int, pattern: string, compile: string -> Regex): (r: Result<ConsoleOutput, Error>)
    ensures GetSession(m, key).Err? ==> r == Err(GetSession(m, key).error)
    ensures GetSession(m, key).Ok? && !GetSession(m, key).value.isActive ==> r == Err(ConsoleInactive(key))
    ensures r.Ok? ==>
      var buffer := GetSession(m, key).value.outputBuffer;
      && GetSession(m, key).value.isActive
      && r.value.totalLines == |buffer|
      && (lines > 0 && pattern == "" ==> r.value.output == Last(buffer, lines))
      && r.value == ReadOutput(buffer, lines, pattern, compile)
  {
    match GetSession(m, key)
    case Err(e) => Err(e)
    case Ok(s) =>
      if !s.isActive then Err(ConsoleInactive(key))
      else Ok(ReadOutput(s.outputBuffer, lines, pattern, compile))
  }

  /** `clearConsoleOutput`: empties the buffer of the resolved session, active or not, and touches nothing else. */
  function ClearConsoleOutput(m: Manager, key: string): (r: Result<Manager, Error>)
    ensures r.Ok? <==> GetSession(m, key).Ok?
    ensures r.Ok? ==>
      var id := ResolveConsoleId(m, key).value;
      && r.value.consolesByName == m.consolesByName && r.value.asyncExecutions == m.asyncExecutions
      && r.value.consoles == m.consoles[id := m.consoles[id].(outputBuffer := [])]
  {
    match GetSession(m, key)
    case Err(e) => Err(e)
    case Ok(s) =>
      var id := ResolveConsoleId(m, key).value;
      Ok(m.(consoles := m.consoles[id := s.(outputBuffer := [])]))
  }

  /** Clearing keeps the registry valid and leaves other sessions' buffers alone. */
  lemma ClearPreservesValid(m: Manager, key: string)
    requires ValidManager(m)
    ensures var r := ClearConsoleOutput(m, key);
      r.Ok? ==> (
        && ValidManager(r.value)
        && r.value.consoles.Keys == m.consoles.Keys
        && (forall other :: other in m.consoles && other != ResolveConsoleId(m, key).value ==>
              r.value.consoles[other] == m.consoles[other]))
  {
    var r := ClearConsoleOutput(m, key);
    if r.Ok? {
      var m' := r.value;
      forall n | n in m'.consolesByName
        ensures m'.consoles[m'.consolesByName[n]].name == n && m'.consoles[m'.consolesByName[n]].isActive
      {
        assert m'.consoles[m'.consolesByName[n]].name == m.consoles[m.consolesByName[n]].name;
      }
    }
  }

  // ---------------------------------------------------------------------
  // Asynchronous executions

  /** The result delivered for a finished command. */
  datatype SyncResult = SyncResult(stdout: string, stderr: string, exitCode: int)

  /** What the single subscriber hears about an asynchronous execution. */
  datatype Notification =
    | ExecutionCompletedEvent(consoleId: string, executionId: string, command: string, result: SyncResult)
    | ExecutionFailedEvent(consoleId: string, executionId: string, command: string, error: string)

  /** `executeAsync` up to its return: the registry with the new running row, and the execution id. */
  datatype Started = Started(manager: Manager, executionId: string)

  /**
    `executeAsync`: fails on an unknown or inactive session; otherwise
    inserts a running row under `executionId` and returns at once.
   */
  function ExecuteAsync(m: Manager, key: string, command: string, executionId: string, now: int): (r: Result<Started, Error>)
    ensures GetSession(m, key).Err? ==> r == Err(GetSession(m, key).error)
    ensures GetSession(m, key).Ok? && !GetSession(m, key).value.isActive ==> r == Err(ConsoleInactive(key))
    ensures ValidManager(m) && GetSession(m, key).Ok? && GetSession(m, key).value.isActive ==> r.Ok?
    ensures r.Ok? ==>
      var id := GetSession(m, key).value.id;
      && r.value.executionId == executionId
      && id in m.asyncExecutions
      && r.value.manager == m.(asyncExecutions := m.asyncExecutions[id := m.asyncExecutions[id][executionId := NewExecution(executionId, command, now)]])
  {
    match GetSession(m, key)
    case Err(e) => Err(e)
    case Ok(s) =>
      if !s.isActive then Err(ConsoleInactive(key))
      else if s.id !in m.asyncExecutions then Err(ExecutionTableMissing(s.id))
      else
        var table := m.asyncExecutions[s.id][executionId := NewExecution(executionId, command, now)];
        Ok(Started(m.(asyncExecutions := m.asyncExecutions[s.id := table]), executionId))
  }

  /** A started execution is visible as running: the session's running count grows by one. */
  lemma ExecuteAsyncCountsRunning(m: Manager, key: string, command: string, executionId: string, now: int)
    requires ValidManager(m)
    requires ExecuteAsync(m, key, command, executionId, now).Ok?
    requires executionId !in m.asyncExecutions[ResolveConsoleId(m, key).value]
    ensures var id := ResolveConsoleId(m, key).value;
      var m' := ExecuteAsync(m, key, command, executionId, now).value.manager;
      && ValidManager(m')
      && RunningExecutionsCount(m', id) == RunningExecutionsCount(m, id) + 1
  {
    var id := ResolveConsoleId(m, key).value;
    InsertRunningCounts(m.asyncExecutions[id], executionId, command, now);
  }

  /** The execution table of `consoleId` is registered and holds the row `executionId`. */
  predicate Registered(m: Manager, consoleId: string, executionId: string) {
    consoleId in m.asyncExecutions && executionId in m.asyncExecutions[consoleId]
  }

  /**
    The row object a handler closure of `executeAsync` holds. While its
    console is open it is the object the table stores; once `closeConsole`
    has dropped the table it is a detached object, `captured`, that the
    caller threads from one handler to the next.
   */
  function LiveRow(m: Manager, consoleId: string, executionId: string, captured: AsyncExecution): AsyncExecution {
    if Registered(m, consoleId, executionId) then m.asyncExecutions[consoleId][executionId] else captured
  }

  /** Only the row `executionId` of the table `consoleId` may differ: every table and every other row stays. */
  predicate RowFrame(m: Manager, m': Manager, consoleId: string, executionId: string) {
    && m'.asyncExecutions.Keys == m.asyncExecutions.Keys
    && (forall c :: c in m.asyncExecutions && c != consoleId ==> m'.asyncExecutions[c] == m.asyncExecutions[c])
    && (consoleId in m.asyncExecutions ==>
          && m'.asyncExecutions[consoleId].Keys == m.asyncExecutions[consoleId].Keys
          && forall x :: x in m.asyncExecutions[consoleId] && x != executionId ==>
               m'.asyncExecutions[consoleId][x] == m.asyncExecutions[consoleId][x])
  }

  /** A handler's mutation of its row, seen through the table only while the row is registered. */
  function StoreRow(m: Manager, consoleId: string, executionId: string, row: AsyncExecution): (m': Manager)
    ensures m'.consoles == m.consoles && m'.consolesByName == m.consolesByName
    ensures RowFrame(m, m', consoleId, executionId)
    ensures Registered(m, consoleId, executionId) ==>
      Registered(m', consoleId, executionId) && m'.asyncExecutions[consoleId][executionId] == row
    ensures !Registered(m, consoleId, executionId) ==> m' == m
  {
    if Registered(m, consoleId, executionId) then
      m.(asyncExecutions := m.asyncExecutions[consoleId := m.asyncExecutions[consoleId][executionId := row]])
    else m
  }

  /** Storing a row leaves the registry valid. */
  lemma StoreRowPreservesValid(m: Manager, consoleId: string, executionId: string, row: AsyncExecution)
    requires ValidManager(m)
    ensures ValidManager(StoreRow(m, consoleId, executionId, row))
  {
  }

  /** What a handler of `executeAsync` leaves: the registry, its own row object, and the notification it sent. */
  datatype Handled = Handled(manager: Manager, row: AsyncExecution, notification: Option<Notification>)

  /**
    A `data` chunk of an asynchronous command: appended to the stream of
    the handler's row, and recorded in the session's buffer. Nothing is
    sent to the subscriber.
   */
  function OnAsyncData(
    m: Manager, consoleId: string, executionId: string, captured: AsyncExecution,
    chunk: string, isError: bool, timestamp: string): (r: Handled)
    ensures var e := LiveRow(m, consoleId, executionId, captured);
      && r.row.(stdout := e.stdout, stderr := e.stderr) == e
      && r.row.stdout == (if isError then e.stdout else e.stdout + chunk)
      && r.row.stderr == (if isError then e.stderr + chunk else e.stderr)
    ensures r.notification.None?
    ensures RowFrame(m, r.manager, consoleId, executionId)
    ensures Registered(m, consoleId, executionId) ==>
      Registered(r.manager, consoleId, executionId) && r.manager.asyncExecutions[consoleId][executionId] == r.row
    ensures !Registered(m, consoleId, executionId) ==> r.manager.asyncExecutions == m.asyncExecutions
    ensures r.manager.consolesByName == m.consolesByName && r.manager.consoles.Keys == m.consoles.Keys
    ensures consoleId in m.consoles ==>
      r.manager.consoles[consoleId] == m.consoles[consoleId].(outputBuffer := AddToOutputBuffer(m.consoles[consoleId].outputBuffer, chunk, isError, timestamp))
    ensures forall other :: other in m.consoles && other != consoleId ==> r.manager.consoles[other] == m.consoles[other]
  {
    var row := OnExecutionData(LiveRow(m, consoleId, executionId, captured), chunk, isError);
    Handled(RecordOutput(StoreRow(m, consoleId, executionId, row), consoleId, chunk, isError, timestamp), row, None)
  }

  /** A chunk keeps the registry valid. */
  lemma AsyncDataPreservesValid(
    m: Manager, consoleId: string, executionId: string, captured: AsyncExecution,
    chunk: string, isError: bool, timestamp: string)
    requires ValidManager(m)
    ensures ValidManager(OnAsyncData(m, consoleId, executionId, captured, chunk, isError, timestamp).manager)
  {
    var row := OnExecutionData(LiveRow(m, consoleId, executionId, captured), chunk, isError);
    StoreRowPreservesValid(m, consoleId, executionId, row);
    RecordOutputPreservesValid(StoreRow(m, consoleId, executionId, row), consoleId, chunk, isError, timestamp);
  }

  /**
    The `close` handler of an asynchronous command: the handler's row
    becomes completed with exit code `code ?? 0` and its filtered streams,
    and the subscriber, if any, hears the filtered result. The registry
    changes only in that row, and not at all once the console is closed.
   */
  function OnAsyncClose(
    m: Manager, consoleId: string, executionId: string, captured: AsyncExecution, code: Option<int>, now: int,
    pattern: string, compile: string -> Regex, subscribed: bool): (r: Handled)
    ensures var e := LiveRow(m, consoleId, executionId, captured);
      var f := ApplyOutputFilter(e.stdout, e.stderr, pattern, compile);
      && r.row.status == Completed && r.row.exitCode == Some(code.GetOr(0)) && r.row.endTime == Some(now)
      && r.row.stdout == f.stdout && r.row.stderr == f.stderr
      && r.row.id == e.id && r.row.command == e.command && r.row.startTime == e.startTime && r.row.error == e.error
      && (subscribed <==> r.notification.Some?)
      && (subscribed ==>
            r.notification.value == ExecutionCompletedEvent(consoleId, executionId, e.command, SyncResult(f.stdout, f.stderr, code.GetOr(0))))
    ensures r.manager.consoles == m.consoles && r.manager.consolesByName == m.consolesByName
    ensures RowFrame(m, r.manager, consoleId, executionId)
    ensures Registered(m, consoleId, executionId) ==>
      Registered(r.manager, consoleId, executionId) && r.manager.asyncExecutions[consoleId][executionId] == r.row
    ensures !Registered(m, consoleId, executionId) ==> r.manager == m
  {
    var e := LiveRow(m, consoleId, executionId, captured);
    var row := OnExecutionClose(e, code, now, pattern, compile);
    var note := if subscribed then Some(ExecutionCompletedEvent(consoleId, executionId, e.command, SyncResult(row.stdout, row.stderr, code.GetOr(0)))) else None;
    Handled(StoreRow(m, consoleId, executionId, row), row, note)
  }

  /**
    The `error` handler of an asynchronous command: the handler's row
    becomes failed with the message and an end time, keeping its output
    and exit code, and the subscriber, if any, hears the message.
   */
  function OnAsyncError(
    m: Manager, consoleId: string, executionId: string, captured: AsyncExecution,
    message: string, now: int, subscribed: bool): (r: Handled)
    ensures var e := LiveRow(m, consoleId, executionId, captured);
      && r.row == e.(status := Failed, error := Some(message), endTime := Some(now))
      && r.row.stdout == e.stdout && r.row.stderr == e.stderr && r.row.exitCode == e.exitCode
      && (subscribed <==> r.notification.Some?)
      && (subscribed ==> r.notification.value == ExecutionFailedEvent(consoleId, executionId, e.command, message))
    ensures r.manager.consoles == m.consoles && r.manager.consolesByName == m.consolesByName
    ensures RowFrame(m, r.manager, consoleId, executionId)
    ensures Registered(m, consoleId, executionId) ==>
      Registered(r.manager, consoleId, executionId) && r.manager.asyncExecutions[consoleId][executionId] == r.row
    ensures !Registered(m, consoleId, executionId) ==> r.manager == m
  {
    var e := LiveRow(m, consoleId, executionId, captured);
    var row := OnExecutionError(e, message, now);
    Handled(StoreRow(m, consoleId, executionId, row), row, if subscribed then Some(ExecutionFailedEvent(consoleId, executionId, e.command, message)) else None)
  }

  /** The terminal handlers keep the registry valid. */
  lemma AsyncSettlePreservesValid(
    m: Manager, consoleId: string, executionId: string, captured: AsyncExecution, code: Option<int>, message: string,
    now: int, pattern: string, compile: string -> Regex, subscribed: bool)
    requires ValidManager(m)
    ensures ValidManager(OnAsyncClose(m, consoleId, executionId, captured, code, now, pattern, compile, subscribed).manager)
    ensures ValidManager(OnAsyncError(m, consoleId, executionId, captured, message, now, subscribed).manager)
  {
    var e := LiveRow(m, consoleId, executionId, captured);
    StoreRowPreservesValid(m, consoleId, executionId, OnExecutionClose(e, code, now, pattern, compile));
    StoreRowPreservesValid(m, consoleId, executionId, OnExecutionError(e, message, now));
  }

  /**
    Closing a console does not silence its running commands: a later
    `close` event still notifies the subscriber with the filtered output of
    the detached row, and leaves the registry as the close left it.
   */
  lemma NotifiesAfterConsoleClosed(
    m: Manager, executionId: string, captured: AsyncExecution, code: Option<int>, now: int,
    key: string, pattern: string, compile: string -> Regex)
    requires ValidManager(m) && CloseConsole(m, key).Ok?
    ensures var consoleId := ResolveConsoleId(m, key).value;
      var m' := CloseConsole(m, key).value;
      var r := OnAsyncClose(m', consoleId, executionId, captured, code, now, pattern, compile, true);
      var f := ApplyOutputFilter(captured.stdout, captured.stderr, pattern, compile);
      && r.manager == m'
      && r.notification == Some(ExecutionCompletedEvent(consoleId, executionId, captured.command, SyncResult(f.stdout, f.stderr, code.GetOr(0))))
  {
    ClosePreservesValid(m, key);
  }

  /**
    An `error` followed by a `close` on the same command sends two
    notifications, failed then completed, and leaves the row completed
    but still carrying the error, whether or not the console is open.
   */
  lemma ErrorThenCloseNotifiesTwice(
    m: Manager, consoleId: string, executionId: string, captured: AsyncExecution, message: string, code: Option<int>,
    t1: int, t2: int, pattern: string, compile: string -> Regex)
    ensures var h1 := OnAsyncError(m, consoleId, executionId, captured, message, t1, true);
      var h2 := OnAsyncClose(h1.manager, consoleId, executionId, h1.row, code, t2, pattern, compile, true);
      && h1.notification.Some? && h1.notification.value.ExecutionFailedEvent?
      && h2.notification.Some? && h2.notification.value.ExecutionCompletedEvent?
      && h2.row.status == Completed && h2.row.error == Some(message)
      && (Registered(m, consoleId, executionId) ==> h2.manager.asyncExecutions[consoleId][executionId] == h2.row)
  {
  }

  /**
    `getAsyncResult`: a copy of the stored row; a non-empty pattern filters
    the copy's stored (possibly already filtered) output, and nothing is
    written back.
   */
  function GetAsyncResult(m: Manager, key: string, executionId: string, pattern: string, compile: string -> Regex): (r: Result<AsyncExecution, Error>)
    ensures ResolveConsoleId(m, key).Err? ==> r == Err(ConsoleNotFound(key))
    ensures ResolveConsoleId(m, key).Ok? && ResolveConsoleId(m, key).value !in m.asyncExecutions ==>
      r == Err(ConsoleNotFound(key))
    ensures
      && ResolveConsoleId(m, key).Ok? && ResolveConsoleId(m, key).value in m.asyncExecutions
      && executionId !in m.asyncExecutions[ResolveConsoleId(m, key).value]
      ==> r == Err(ExecutionNotFound(executionId, key))
    ensures r.Ok? <==>
      ResolveConsoleId(m, key).Ok? && ResolveConsoleId(m, key).value in m.asyncExecutions
      && executionId in m.asyncExecutions[ResolveConsoleId(m, key).value]
    ensures r.Ok? ==>
      var stored := m.asyncExecutions[ResolveConsoleId(m, key).value][executionId];
      && r.value.(stdout := stored.stdout, stderr := stored.stderr) == stored
      && (pattern == "" ==> r.value == stored)
      && (pattern != "" ==> Streams(r.value.stdout, r.value.stderr) == ApplyOutputFilter(stored.stdout, stored.stderr, pattern, compile))
  {
    match ResolveConsoleId(m, key)
    case Err(e) => Err(e)
    case Ok(id) =>
      if id !in m.asyncExecutions then Err(ConsoleNotFound(key))
      else if executionId !in m.asyncExecutions[id] then Err(ExecutionNotFound(executionId, key))
      else
        var stored := m.asyncExecutions[id][executionId];
        if pattern != "" then
          var filtered := ApplyOutputFilter(stored.stdout, stored.stderr, pattern, compile);
          Ok(stored.(stdout := filtered.stdout, stderr := filtered.stderr))
        else Ok(stored)
  }

  /**
    Filters compose: a row completed under pattern P and read back under Q
    shows Q applied to P's output, not Q applied to the raw output.
   */
  lemma QueryFilterComposes(
    m: Manager, consoleId: string, executionId: string, captured: AsyncExecution, code: Option<int>, now: int,
    p: string, q: string, compile: string -> Regex)
    requires consoleId in m.consoles && Registered(m, consoleId, executionId)
    requires q != ""
    ensures var m' := OnAsyncClose(m, consoleId, executionId, captured, code, now, p, compile, false).manager;
      var raw := m.asyncExecutions[consoleId][executionId];
      var once := ApplyOutputFilter(raw.stdout, raw.stderr, p, compile);
      && GetAsyncResult(m', consoleId, executionId, q, compile).Ok?
      && var got := GetAsyncResult(m', consoleId, executionId, q, compile).value;
      Streams(got.stdout, got.stderr) == ApplyOutputFilter(once.stdout, once.stderr, q, compile)
  {
  }

  /**
    `getRunningExecutionsCount` as a function of the registry: 0 for an
    unknown console, otherwise the number of rows whose status is running,
    which is 0 exactly when no row is running.
   */
  function RunningExecutionsCount(m: Manager, consoleId: string): (r: nat)
    ensures consoleId !in m.asyncExecutions ==> r == 0
    ensures consoleId in m.asyncExecutions ==>
      r == |set x | x in m.asyncExecutions[consoleId] && m.asyncExecutions[consoleId][x].status == Running|
    ensures r == 0 <==>
      consoleId !in m.asyncExecutions
      || forall x :: x in m.asyncExecutions[consoleId] ==> m.asyncExecutions[consoleId][x].status != Running
  {
    if consoleId in m.asyncExecutions then
      var table := m.asyncExecutions[consoleId];
      assert RunningIds(table) == set x | x in table && table[x].status == Running;
      assert forall x :: x in table && table[x].status == Running ==> x in RunningIds(table);
      |RunningIds(table)|
    else 0
  }

  /** `getRunningExecutionsCount` as the code computes it, by visiting the rows. */
  method CountRunningExecutions(m: Manager, consoleId: string) returns (n: nat)
    ensures consoleId !in m.asyncExecutions ==> n == 0
    ensures n == RunningExecutionsCount(m, consoleId)
  {
    if consoleId !in m.asyncExecutions {
      return 0;
    }
    n := CountRunning(m.asyncExecutions[consoleId]);
  }

  /** The answer of `getConsoleStatus`. */
  datatype ConsoleStatus = ConsoleStatus(
    id: string, name: string, shell: string, workingDir: string, createdAt: int,
    isActive: bool, runningExecutions: nat)

  /** `getConsoleStatus`: the resolved session's fields and its running count. */
  function GetConsoleStatus(m: Manager, key: string): (r: Result<ConsoleStatus, Error>)
    ensures r.Ok? <==> GetSession(m, key).Ok?
    ensures r.Ok? ==>
      var s := GetSession(m, key).value;
      r.value == ConsoleStatus(s.id, s.name, s.shell, s.workingDir, s.createdAt, s.isActive, RunningExecutionsCount(m, s.id))
  {
    match GetSession(m, key)
    case Err(e) => Err(e)
    case Ok(s) => Ok(ConsoleStatus(s.id, s.name, s.shell, s.workingDir, s.createdAt, s.isActive, RunningExecutionsCount(m, s.id)))
  }
}
