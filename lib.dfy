/** The launcher of src/lib.rs: `start_tmux` names the session after the
    last component of the chosen path, asks tmux whether a server runs and
    whether the session exists, reads `$TMUX`, and issues the commands the
    decision table selects; `switch_sessions` jumps to an existing session.
    The tmux queries of this revision (`tmux::status`, `tmux::has_session`)
    are not part of this model: their answers are inputs, a query that could
    not be run is `Failed`, and the run is returned as the list of queries
    and commands it issues together with its result. */
module Lib {
  import opened RustText
  import opened Session

  /** The answer of a tmux query, or the error raised by running it. */
  datatype Reply<T> = Replied(value: T) | Failed

  datatype Error =
    | NoSessionName   // "Failed to get session_name from filepath."
    | QueryError      // the error of `tmux::status` or `tmux::has_session`

  datatype Trace = Trace(steps: seq<Step>, result: Result<(), Error>)

  /** The `match (tmux_running, tmux_env)` of `start_tmux`, with its nested
      conditionals, once both queries have answered. */
  function Decide(running: bool, inTmux: bool, exists_: bool, name: string, path: string): (steps: seq<Step>)
    ensures steps == ExecAll(Commands(Resolve(running, inTmux, exists_), name, path))
  {
    match (running, inTmux)
    case (false, false) => [Exec(NewSession(name, path))]
    case (true, false) =>
      if exists_ then [Exec(Attach(name))] else [Exec(NewSession(name, path))]
    case (true, true) =>
      if exists_ then [Exec(SwitchClient(name))]
      else [Exec(NewSessionDetached(name, path)), Exec(SwitchClient(name))]
    case (false, true) => []
  }

  /** `start_tmux(path)`: the queries and commands issued and the result. */
  function StartTmux(path: string, status: Reply<bool>, tmuxEnv: bool, hasSession: Reply<bool>): (t: Trace)
    ensures FileName(path).None? <==> t == Trace([], Err(NoSessionName))
    ensures t.result.Ok? <==> FileName(path).Some? && status.Replied? && hasSession.Replied?
    ensures t.result.Ok? ==>
      t.steps == [QueryRunning, QueryHasSession(FileName(path).value)] +
                 ExecAll(Commands(Resolve(status.value, tmuxEnv, hasSession.value), FileName(path).value, path))
    ensures t.result.Err? ==> CommandsOf(t.steps) == []
  {
    match FileName(path)
    case None => Trace([], Err(NoSessionName))
    case Some(name) =>
      match status
      case Failed => Trace([QueryRunning], Err(QueryError))
      case Replied(running) =>
        match hasSession
        case Failed => Trace([QueryRunning, QueryHasSession(name)], Err(QueryError))
        case Replied(exists_) =>
          var steps := Decide(running, tmuxEnv, exists_, name, path);
          CommandsOfAppend([QueryRunning, QueryHasSession(name)], steps);
          Trace([QueryRunning, QueryHasSession(name)] + steps, Ok(()))
  }

  /** Not running and outside tmux: one `new-session`, whatever the
      session query answered. */
  lemma StartOutsideWithoutServer(path: string, tmuxEnv: bool, exists_: bool)
    requires FileName(path).Some? && !tmuxEnv
    ensures CommandsOf(StartTmux(path, Replied(false), tmuxEnv, Replied(exists_)).steps) ==
            [NewSession(FileName(path).value, path)]
  {
  }

  /** Not running but `$TMUX` set: no command at all, and the result is Ok. */
  lemma StartInconsistentEnvironment(path: string, exists_: bool)
    requires FileName(path).Some?
    ensures var t := StartTmux(path, Replied(false), true, Replied(exists_));
      t.result.Ok? && CommandsOf(t.steps) == []
  {
  }

  /** The session query is issued on every run that gets past the status
      query, even when its answer cannot matter (no server running). */
  lemma StartAlwaysQueriesSession(path: string, running: bool, tmuxEnv: bool, hasSession: Reply<bool>)
    requires FileName(path).Some?
    ensures QueryHasSession(FileName(path).value) in StartTmux(path, Replied(running), tmuxEnv, hasSession).steps
  {
  }

  /** `switch_sessions(name)`: switch the client inside tmux, attach outside. */
  function SwitchSessions(name: string, tmuxEnv: bool): (cs: seq<Command>)
    ensures |cs| == 1 && cs[0].Argv()[2] == name
    ensures cs[0].SwitchClient? <==> tmuxEnv
    ensures cs[0].Foreground() <==> !tmuxEnv
  {
    if tmuxEnv then [SwitchClient(name)] else [Attach(name)]
  }
}
