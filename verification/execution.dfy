/** Dispatch and execution: the executor loads the named target through the
    command cache and hands it to the IPC command, job or command executor
    by kind; each executor has its own policy for turning exceptions into
    error content. Exceptions are values of `Throwable`, and a Java method
    that returns or throws is a `Result<_, Throwable>`. */
module Execution {

  import opened Wrappers
  import Resolution

  /** The exceptions the executors tell apart. */
  datatype Throwable =
    | RuntimeFailure(id: nat)             // any other RuntimeException
    | IllegalArgument(message: string)
    | IllegalState(message: string)
    | NullPointer(message: string)
    | IpcExecutionFailure(id: nat)        // IpcCommandExecutionException (checked)
    | CheckedFailure(id: nat)             // any other checked Exception
    | CommandFailure(cause: Throwable)    // CommandException wrapping its cause (checked)
    | Fatal(id: nat)                      // an Error: not an Exception at all

  predicate IsRuntime(t: Throwable) {
    t.RuntimeFailure? || t.IllegalArgument? || t.IllegalState? || t.NullPointer?
  }

  predicate IsException(t: Throwable) {
    !t.Fatal?
  }

  /** Content a call produces. `ErrorContent.create(e)` keeps the exception. */
  datatype Content =
    | Produced(id: nat)
    | JsonContent(result: nat)
    | ErrorContent(cause: Throwable)

  type SessionId = nat

  /** What the executors see of a call: the header's aliased name and the
      attached HTTP request, with the session it is attached to, if any. */
  datatype CallView = CallView(aliasedName: Option<string>, request: Option<RequestView>)
  datatype RequestView = RequestView(session: Option<SessionId>)

  const NOT_ATTACHED: string := "Not yet attached to a session"

  /** `getHttpSession`: the attached session; before attachment the
      request throws. */
  function GetHttpSession(request: RequestView): (r: Result<SessionId, Throwable>)
    ensures r.Ok? <==> request.session.Some?
    ensures r.Ok? ==> r.value == request.session.value
    ensures r.Err? ==> r.error == IllegalState(NOT_ATTACHED)
  {
    match request.session
    case None => Err(IllegalState(NOT_ATTACHED))
    case Some(s) => Ok(s)
  }

  /** One run of `Job.process`: the contents it passed to `setContent`, in
      order (`None` for null), and what it threw at the end, if anything. */
  datatype JobRun = JobRun(writes: seq<Option<Content>>, thrown: Option<Throwable>)

  /** A job, given the call and the session handed to it (the server and the
      trailing null argument are the same on every invocation). */
  type Job = (CallView, Option<SessionId>) -> JobRun

  type Command = CallView -> Result<Content, Throwable>

  // ---------------------------------------------------------------------
  // The response sink shared by LegacyJobExecutor and JobCommand.

  datatype Sink = Sink(content: Option<Content>)

  function SetContent(s: Sink, c: Option<Content>): (r: Sink)
    ensures r.content == c
  {
    Sink(c)
  }

  predicate HasContent(s: Sink) {
    s.content.Some?
  }

  /** The sink after a job's writes, starting empty. */
  function Replay(writes: seq<Option<Content>>): Sink
  {
    if writes == [] then Sink(None)
    else SetContent(Replay(writes[..|writes| - 1]), writes[|writes| - 1])
  }

  /** The last `setContent` wins; without any, the sink has no content. */
  lemma {:induction false} ReplayLastWins(writes: seq<Option<Content>>)
    ensures writes == [] ==> !HasContent(Replay(writes))
    ensures writes != [] ==> Replay(writes).content == writes[|writes| - 1]
    ensures HasContent(Replay(writes)) <==> writes != [] && writes[|writes| - 1].Some?
  {
    if writes != [] {
      var _ := SetContent(Replay(writes[..|writes| - 1]), writes[|writes| - 1]);
    }
  }

  // ---------------------------------------------------------------------
  // LegacyJobExecutor.

  /** `LegacyJobExecutor.execute`: the session is fetched before the `try`,
      so a missing request or an unattached session escapes; everything
      else becomes error content. */
  function JobExecute(job: Job, call: CallView): (r: Result<Content, Throwable>)
    ensures call.request.None? ==> r.Err? && r.error.NullPointer?
    ensures call.request.Some? && call.request.value.session.None? ==>
      r == Err(IllegalState(NOT_ATTACHED))
    ensures call.request.Some? && call.request.value.session.Some? ==>
      var run := job(call, Some(call.request.value.session.value));
      && (run.thrown.Some? && IsException(run.thrown.value) ==>
            r == Ok(ErrorContent(run.thrown.value)))
      && (run.thrown.Some? && !IsException(run.thrown.value) ==>
            r == Err(run.thrown.value))
      && (run.thrown.None? && (run.writes == [] || run.writes[|run.writes| - 1].None?) ==>
            r == Ok(ErrorContent(IllegalState("No content set"))))
      && (run.thrown.None? && run.writes != [] && run.writes[|run.writes| - 1].Some? ==>
            r == Ok(run.writes[|run.writes| - 1].value))
  {
    match call.request
    case None => Err(NullPointer("request"))
    case Some(request) =>
      match GetHttpSession(request)
      case Err(t) => Err(t)
      case Ok(session) =>
        var run := job(call, Some(session));
        var sink := Replay(run.writes);
        ReplayLastWins(run.writes);
        if run.thrown.Some? then
          if IsException(run.thrown.value) then Ok(ErrorContent(run.thrown.value))
          else Err(run.thrown.value)
        else if !HasContent(sink) then Ok(ErrorContent(IllegalState("No content set")))
        else Ok(sink.content.value)
  }

  // ---------------------------------------------------------------------
  // JobCommand and LegacyCommandExecutor.

  datatype Server = Server(id: nat)

  /** A constructed `JobCommand`: both of its fields are non-null. */
  datatype JobCommand = JobCommand(server: Server, job: Job)

  /** The `JobCommand` constructor checks the server first, then the job. */
  function NewJobCommand(server: Option<Server>, job: Option<Job>): (r: Result<JobCommand, Throwable>)
    ensures r.Ok? <==> server.Some? && job.Some?
    ensures server.None? ==> r == Err(NullPointer("Server"))
    ensures server.Some? && job.None? ==> r == Err(NullPointer("Job"))
    ensures r.Ok? ==> r.value.server == server.value
  {
    if server.None? then Err(NullPointer("Server"))
    else if job.None? then Err(NullPointer("Job"))
    else Ok(JobCommand(server.value, job.value))
  }

  /** `JobCommand.execute`: a null request hands the job a null session;
      runtime exceptions and errors pass through, checked exceptions are
      wrapped in `CommandException`, and a job that sets no content fails. */
  function JobCommandExecute(jc: JobCommand, call: CallView): (r: Result<Content, Throwable>)
    ensures call.request.Some? && call.request.value.session.None? ==>
      r == Err(IllegalState(NOT_ATTACHED))
    ensures call.request.None? || call.request.value.session.Some? ==>
      var session := if call.request.None? then None else Some(call.request.value.session.value);
      var run := jc.job(call, session);
      && (run.thrown.Some? && IsException(run.thrown.value) && !IsRuntime(run.thrown.value) ==>
            r == Err(CommandFailure(run.thrown.value)))
      && (run.thrown.Some? && (IsRuntime(run.thrown.value) || !IsException(run.thrown.value)) ==>
            r == Err(run.thrown.value))
      && (run.thrown.None? && (run.writes == [] || run.writes[|run.writes| - 1].None?) ==>
            r == Err(IllegalState("No content set")))
      && (run.thrown.None? && run.writes != [] && run.writes[|run.writes| - 1].Some? ==>
            r == Ok(run.writes[|run.writes| - 1].value))
  {
    var session: Result<Option<SessionId>, Throwable> :=
      match call.request
      case None => Ok(None)
      case Some(request) =>
        (match GetHttpSession(request)
         case Err(t) => Err(t)
         case Ok(s) => Ok(Some(s)));
    match session
    case Err(t) => Err(t)
    case Ok(s) =>
      var run := jc.job(call, s);
      var sink := Replay(run.writes);
      ReplayLastWins(run.writes);
      if run.thrown.Some? then
        if IsRuntime(run.thrown.value) || !IsException(run.thrown.value) then Err(run.thrown.value)
        else Err(CommandFailure(run.thrown.value))
      else if !HasContent(sink) then Err(IllegalState("No content set"))
      else Ok(sink.content.value)
  }

  /** `LegacyCommandExecutor.execute`: a `CommandException` becomes error
      content for that same exception; anything else is the command's own
      outcome, unchanged. */
  function CommandExecute(command: Command, call: CallView): (r: Result<Content, Throwable>)
    ensures command(call).Err? && command(call).error.CommandFailure? ==>
      r == Ok(ErrorContent(command(call).error))
    ensures !(command(call).Err? && command(call).error.CommandFailure?) ==> r == command(call)
    ensures r.Err? ==> !r.error.CommandFailure?
  {
    var outcome := command(call);
    if outcome.Err? && outcome.error.CommandFailure? then Ok(ErrorContent(outcome.error))
    else outcome
  }

  // ---------------------------------------------------------------------
  // LegacyExecutor.

  /** What the loaded instance is an instance of. */
  datatype Kinds = Kinds(ipcCommand: bool, job: bool, command: bool)

  /** The registry the executor dispatches into: aliases and class table for
      the command cache, and per class the kinds and the behaviour of the
      injector's instance, and that instance's `toString()`. */
  datatype Registry = Registry(
    aliases: seq<Resolution.Alias>,
    table: Resolution.ClassTable,
    kinds: string -> Kinds,
    ipc: (string, CallView) -> Result<nat, Throwable>,
    jobs: string -> Job,
    commands: string -> Command,
    rendered: string -> string)

  /** `ClassNotFoundException.toString()` before the missing class's name. */
  const CLASS_NOT_FOUND: string := "java.lang.ClassNotFoundException: "

  /** The exception the command cache throws for a load error: the null
      check's `NullPointerException`, or an `IllegalArgumentException`
      wrapping the `ClassNotFoundException`, whose message is the cause's
      `toString()`. */
  function LoadFailure(e: Resolution.LoadError): (t: Throwable)
    ensures IsRuntime(t)
    ensures e.NullName? <==> t.NullPointer?
    ensures e.NullName? ==> t.message == "AliasedName"
    ensures e.UnknownClass? ==>
      t.IllegalArgument? && |t.message| >= |CLASS_NOT_FOUND|
      && t.message[..|CLASS_NOT_FOUND|] == CLASS_NOT_FOUND
      && t.message[|CLASS_NOT_FOUND|..] == e.name
  {
    match e
    case NullName => NullPointer("AliasedName")
    case UnknownClass(name) => IllegalArgument(CLASS_NOT_FOUND + name)
  }

  /** The executor's `catch` clauses: runtime exceptions and
      `IpcCommandExecutionException` become error content. */
  function Catch(outcome: Result<Content, Throwable>): (r: Result<Content, Throwable>)
    ensures outcome.Ok? ==> r == outcome
    ensures outcome.Err? ==>
      if IsRuntime(outcome.error) || outcome.error.IpcExecutionFailure?
      then r == Ok(ErrorContent(outcome.error)) else r == outcome
  {
    if outcome.Err? && (IsRuntime(outcome.error) || outcome.error.IpcExecutionFailure?)
    then Ok(ErrorContent(outcome.error))
    else outcome
  }

  /** The kind dispatch inside the `try`, checked in the order IPC command,
      job, command. */
  function Dispatch(reg: Registry, c: string, call: CallView): Result<Content, Throwable>
  {
    var k := reg.kinds(c);
    if k.ipcCommand then
      match reg.ipc(c, call)
      case Ok(result) => Ok(JsonContent(result))
      case Err(t) => Err(t)
    else if k.job then JobExecute(reg.jobs(c), call)
    else if k.command then CommandExecute(reg.commands(c), call)
    else Err(IllegalArgument("Unknown class " + reg.rendered(c)))
  }

  /** `LegacyExecutor.execute`. */
  function Execute(reg: Registry, call: CallView): (r: Result<Content, Throwable>)
    ensures r.Err? ==> !IsRuntime(r.error) && !r.error.IpcExecutionFailure?
    ensures Resolution.CacheLoad(reg.aliases, reg.table, call.aliasedName).Err? ==>
      r == Ok(ErrorContent(LoadFailure(Resolution.CacheLoad(reg.aliases, reg.table, call.aliasedName).error)))
  {
    match Resolution.CacheLoad(reg.aliases, reg.table, call.aliasedName)
    case Err(e) => Ok(ErrorContent(LoadFailure(e)))
    case Ok(c) => Catch(Dispatch(reg, c, call))
  }

  /** The dispatch order, stated per kind: an IPC command wins over a job,
      which wins over a command; an instance of none is an error. */
  lemma DispatchOrder(reg: Registry, call: CallView, c: string)
    requires Resolution.CacheLoad(reg.aliases, reg.table, call.aliasedName) == Ok(c)
    ensures reg.kinds(c).ipcCommand ==>
      Execute(reg, call) == Catch(if reg.ipc(c, call).Ok? then Ok(JsonContent(reg.ipc(c, call).value))
                                  else Err(reg.ipc(c, call).error))
    ensures !reg.kinds(c).ipcCommand && reg.kinds(c).job ==>
      Execute(reg, call) == Catch(JobExecute(reg.jobs(c), call))
    ensures !reg.kinds(c).ipcCommand && !reg.kinds(c).job && reg.kinds(c).command ==>
      Execute(reg, call) == Catch(CommandExecute(reg.commands(c), call))
    ensures reg.kinds(c) == Kinds(false, false, false) ==>
      Execute(reg, call) == Ok(ErrorContent(IllegalArgument("Unknown class " + reg.rendered(c))))
  {
  }

  /** A job run directly by the job executor and the same job adapted by
      `JobCommand` and run by the command executor end, behind the
      executor's `catch`, with the same content, and with error content in
      the same cases; they differ only in that a checked exception is
      reported wrapped in `CommandException` on the command path. */
  lemma {:induction false} JobPathsAgree(job: Job, server: Server, call: CallView)
    requires call.request.Some?
    ensures
      var viaJob := Catch(JobExecute(job, call));
      var viaCommand := Catch(CommandExecute(c => JobCommandExecute(JobCommand(server, job), c), call));
      var session := call.request.value.session;
      if session.Some? && job(call, Some(session.value)).thrown.Some?
         && IsException(job(call, Some(session.value)).thrown.value)
         && !IsRuntime(job(call, Some(session.value)).thrown.value)
      then
        var t := job(call, Some(session.value)).thrown.value;
        viaJob == Ok(ErrorContent(t)) && viaCommand == Ok(ErrorContent(CommandFailure(t)))
      else viaJob == viaCommand
  {
    var request := call.request.value;
    if request.session.Some? {
      var run := job(call, Some(request.session.value));
      ReplayLastWins(run.writes);
    }
  }
}
