/** The session-reconciliation table shared by both revisions of the tmux
    launcher: three facts about the environment (is a tmux server running,
    is `$TMUX` set, does the target session exist) select one of five
    actions, and each action is a fixed list of tmux invocations.  The table
    is written here as one exhaustive match on the three facts; the nested
    conditionals of src/lib.rs and src/tmux.rs are proved against it. */
module Session {

  datatype Action =
    | CreateForeground
    | AttachForeground
    | CreateDetachedThenSwitch
    | SwitchForeground
    | NoOp

  /** The decision table: all eight combinations of the three facts. */
  function Resolve(running: bool, inTmux: bool, exists_: bool): Action {
    match (running, inTmux, exists_)
    case (false, false, _) => CreateForeground
    case (true, false, false) => CreateForeground
    case (true, false, true) => AttachForeground
    case (true, true, true) => SwitchForeground
    case (true, true, false) => CreateDetachedThenSwitch
    case (false, true, _) => NoOp
  }

  /** A tmux invocation that changes which session the user sees. */
  datatype Command =
    | NewSession(name: string, path: string)
    | NewSessionDetached(name: string, path: string)
    | Attach(name: string)
    | SwitchClient(name: string)
  {
    /** The argument vector passed to the `tmux` executable. */
    function Argv(): (argv: seq<string>)
      ensures |argv| >= 3 && argv[|argv| - 1] == (if NewSession? || NewSessionDetached? then path else name)
    {
      match this
      case NewSession(n, p) => ["new-session", "-s", n, "-c", p]
      case NewSessionDetached(n, p) => ["new-session", "-ds", n, "-c", p]
      case Attach(n) => ["attach", "-t", n]
      case SwitchClient(n) => ["switch-client", "-t", n]
    }

    /** Runs in the foreground of the current terminal, which nests a
        client when issued from inside tmux. */
    predicate Foreground() {
      NewSession? || Attach?
    }
  }

  /** What each action issues, in order. */
  function Commands(a: Action, name: string, path: string): (cs: seq<Command>)
    ensures a == NoOp <==> cs == []
    ensures forall k :: 0 <= k < |cs| ==> cs[k].Argv()[2] == name
  {
    match a
    case CreateForeground => [NewSession(name, path)]
    case AttachForeground => [Attach(name)]
    case CreateDetachedThenSwitch => [NewSessionDetached(name, path), SwitchClient(name)]
    case SwitchForeground => [SwitchClient(name)]
    case NoOp => []
  }

  /** Inside tmux no foreground command is ever issued, and outside tmux
      nothing is switched: the table never nests a client. */
  lemma NeverNests(running: bool, inTmux: bool, exists_: bool, name: string, path: string)
    ensures forall k :: 0 <= k < |Commands(Resolve(running, inTmux, exists_), name, path)| ==>
      var c := Commands(Resolve(running, inTmux, exists_), name, path)[k];
      (inTmux ==> !c.Foreground()) && (!inTmux ==> c.Foreground())
  {
  }

  /** A step of a launcher run: a query to tmux or a command. */
  datatype Step =
    | QueryRunning
    | QueryHasSession(name: string)
    | Exec(command: Command)

  /** The commands of a list of steps, queries dropped. */
  function CommandsOf(steps: seq<Step>): (cs: seq<Command>)
    ensures |cs| <= |steps|
  {
    if steps == [] then []
    else (if steps[0].Exec? then [steps[0].command] else []) + CommandsOf(steps[1..])
  }

  /** The steps that issue `cs` in order. */
  function ExecAll(cs: seq<Command>): (steps: seq<Step>)
    ensures CommandsOf(steps) == cs
    ensures |steps| == |cs|
  {
    if cs == [] then [] else
      var steps := [Exec(cs[0])] + ExecAll(cs[1..]);
      assert steps[1..] == ExecAll(cs[1..]);
      steps
  }

  lemma {:induction false} CommandsOfAppend(a: seq<Step>, b: seq<Step>)
    ensures CommandsOf(a + b) == CommandsOf(a) + CommandsOf(b)
    decreases |a|
  {
    if a == [] {
      assert a + b == b;
    } else {
      assert (a + b)[0] == a[0] && (a + b)[1..] == a[1..] + b;
      CommandsOfAppend(a[1..], b);
    }
  }
}
