/** The tmux wrapper of src/tmux.rs: `run` launches or joins the session for
    a directory, `sessions` lists the names of the running sessions from
    the output of `tmux ls`, and `Tmux::is_running` decides from the output
    of `pgrep tmux` whether a server runs.  The subprocesses themselves are
    not modelled: what they report is an input, and a subprocess that could
    not be spawned is `Failed`. */
module Tmux {
  import opened RustText
  import opened Session

  /** What `Command::output` reports: the spawn error, or the output. */
  datatype Reply<T> = Replied(value: T) | Failed

  /** Exit status and standard output of a finished process. */
  datatype ProcessOutput = ProcessOutput(success: bool, stdout: seq<U8>)

  /** `Tmux::is_running`: `pgrep tmux` exited successfully and its output,
      decoded lossily, is not empty. */
  function IsRunning(pgrep: ProcessOutput): bool {
    if pgrep.success then DecodeLossy(pgrep.stdout) != [] else false
  }

  datatype Panic =
    | NoFileName     // `file_name().unwrap()` on a path without one
    | Unreachable    // the `unreachable!()` arm of `run`

  datatype End = Done | IoError | Panicked(reason: Panic)

  datatype Trace = Trace(steps: seq<Step>, end: End)

  /** `run(path)`: the queries and commands issued, and how it ends.
      `pgrep` is the output of `pgrep tmux`, `tmuxEnv` whether `$TMUX` is
      set, `hasSession` the exit status of `tmux has-session`. */
  function Run(path: string, pgrep: Reply<ProcessOutput>, tmuxEnv: bool, hasSession: Reply<bool>): (t: Trace)
    ensures FileName(path).None? <==> t == Trace([], Panicked(NoFileName))
  {
    match FileName(path)
    case None => Trace([], Panicked(NoFileName))
    case Some(basename) => Launch(basename, path, pgrep, tmuxEnv, hasSession)
  }

  /** The part of `run` after the basename of `path` is known. */
  function Launch(basename: string, path: string, pgrep: Reply<ProcessOutput>, tmuxEnv: bool, hasSession: Reply<bool>): (t: Trace)
    ensures t.steps != [] && t.steps[0] == QueryRunning
  {
    match pgrep
    case Failed => Trace([QueryRunning], IoError)
    case Replied(out) =>
      match (IsRunning(out), tmuxEnv)
      case (false, false) => Trace([QueryRunning, Exec(NewSession(basename, path))], Done)
      case (true, false) =>
        (match hasSession
         case Failed => Trace([QueryRunning, QueryHasSession(basename)], IoError)
         case Replied(exists_) =>
           if exists_ then Trace([QueryRunning, QueryHasSession(basename), Exec(Attach(basename))], Done)
           else Trace([QueryRunning, QueryHasSession(basename), Exec(NewSession(basename, path))], Done))
      case (true, true) =>
        (match hasSession
         case Failed => Trace([QueryRunning, QueryHasSession(basename)], IoError)
         case Replied(exists_) =>
           if exists_ then Trace([QueryRunning, QueryHasSession(basename), Exec(SwitchClient(basename))], Done)
           else Trace([QueryRunning, QueryHasSession(basename),
                       Exec(NewSessionDetached(basename, path)), Exec(SwitchClient(basename))], Done))
      case _ => Trace([QueryRunning], Panicked(Unreachable))
  }

  /** `run` follows the decision table: with a file name and both queries
      answered it issues exactly the table's commands, except that a set
      `$TMUX` without a running server reaches `unreachable!()`.  The session
      is named after the basename and rooted at the full path. */
  lemma RunFollowsTable(path: string, pgrep: ProcessOutput, tmuxEnv: bool, exists_: bool)
    requires FileName(path).Some?
    ensures var t := Run(path, Replied(pgrep), tmuxEnv, Replied(exists_));
      var running := IsRunning(pgrep);
      var name := FileName(path).value;
      if !running && tmuxEnv then t == Trace([QueryRunning], Panicked(Unreachable))
      else t.end == Done &&
           CommandsOf(t.steps) == Commands(Resolve(running, tmuxEnv, exists_), name, path)
  {
    LaunchFollowsTable(FileName(path).value, path, pgrep, tmuxEnv, exists_);
  }

  lemma LaunchFollowsTable(name: string, path: string, pgrep: ProcessOutput, tmuxEnv: bool, exists_: bool)
    ensures var t := Launch(name, path, Replied(pgrep), tmuxEnv, Replied(exists_));
      var running := IsRunning(pgrep);
      if !running && tmuxEnv then t == Trace([QueryRunning], Panicked(Unreachable))
      else t.end == Done &&
           CommandsOf(t.steps) == Commands(Resolve(running, tmuxEnv, exists_), name, path)
  {
    var t := Launch(name, path, Replied(pgrep), tmuxEnv, Replied(exists_));
    var running := IsRunning(pgrep);
    var cs := Commands(Resolve(running, tmuxEnv, exists_), name, path);
    if running {
      var queries := [QueryRunning, QueryHasSession(name)];
      assert t.steps == queries + ExecAll(cs);
      CommandsOfAppend(queries, ExecAll(cs));
    } else if !tmuxEnv {
      var queries := [QueryRunning];
      assert t.steps == queries + ExecAll(cs);
      CommandsOfAppend(queries, ExecAll(cs));
    }
  }

  /** `tmux has-session` is queried exactly when the server runs. */
  lemma RunQueriesSessionOnlyWhenRunning(path: string, pgrep: ProcessOutput, tmuxEnv: bool, hasSession: Reply<bool>)
    requires FileName(path).Some?
    ensures var t := Run(path, Replied(pgrep), tmuxEnv, hasSession);
      (exists k :: 0 <= k < |t.steps| && t.steps[k].QueryHasSession?) <==> IsRunning(pgrep)
  {
    var t := Run(path, Replied(pgrep), tmuxEnv, hasSession);
    if IsRunning(pgrep) {
      assert t.steps[1].QueryHasSession?;
    }
  }

  /** `is_running` is true exactly when `pgrep` succeeded and printed at
      least one byte: the lossy decoding of a non-empty output is never
      empty, whatever the bytes are. */
  lemma IsRunningIff(pgrep: ProcessOutput)
    ensures IsRunning(pgrep) <==> pgrep.success && pgrep.stdout != []
  {
  }

  // ---------------------------------------------------------------------
  // Listing sessions

  /** Why `sessions` panics on a line. */
  datatype LinePanic = NoSpace | NoColon

  /** The name on one line of `tmux ls`: the text before the first space,
      without its trailing ':'. */
  function SessionName(line: string): Result<string, LinePanic> {
    match SplitOnce(line, ' ')
    case None => Err(NoSpace)
    case Some((word, _)) =>
      match StripSuffix(word, ':')
      case None => Err(NoColon)
      case Some(name) => Ok(name)
  }

  /** A line has a name exactly when it has a space and its first word
      ends in ':'; then the line is the name, ": " and the rest. */
  lemma SessionNameOfLine(line: string)
    ensures SessionName(line).Err? <==> (' ' !in line || StripSuffix(SplitOnce(line, ' ').value.0, ':').None?)
    ensures SessionName(line).Ok? ==> exists rest :: line == SessionName(line).value + ": " + rest
    ensures SessionName(line).Ok? ==> ' ' !in SessionName(line).value
  {
    if SessionName(line).Ok? {
      var (word, rest) := SplitOnce(line, ' ').value;
      assert line == SessionName(line).value + ": " + rest;
    }
  }

  /** A session whose name holds a space makes its line of the listing
      panic: the first word is the part of the name before the space, and
      it has no trailing ':' unless the name has one there. */
  lemma NameWithSpacePanics(first: string, second: string, description: string)
    requires ' ' !in first && (first == [] || first[|first| - 1] != ':')
    ensures SessionName(ListingLine(first + [' '] + second, description)) == Err(NoColon)
  {
    var rest := second + ": " + description;
    assert ListingLine(first + [' '] + second, description) == first + [' '] + rest;
    SplitOnceAtFirst(first, rest, ' ');
  }

  /** The names of all lines, in order, or the panic of the first line
      that has none. */
  function SessionNames(lines: seq<string>): (r: Result<seq<string>, LinePanic>)
    ensures r.Ok? ==> |r.value| == |lines|
    decreases |lines|
  {
    if lines == [] then Ok([])
    else match SessionName(lines[0])
      case Err(p) => Err(p)
      case Ok(name) =>
        match SessionNames(lines[1..])
        case Err(p) => Err(p)
        case Ok(names) => Ok([name] + names)
  }

  /** The names succeed exactly when every line has one, and are then the
      lines' names in order. */
  lemma {:induction false} SessionNamesPerLine(lines: seq<string>)
    ensures SessionNames(lines).Ok? <==> forall k :: 0 <= k < |lines| ==> SessionName(lines[k]).Ok?
    ensures SessionNames(lines).Ok? ==>
      forall k :: 0 <= k < |lines| ==> SessionNames(lines).value[k] == SessionName(lines[k]).value
    decreases |lines|
  {
    if lines != [] {
      var tail := lines[1..];
      SessionNamesPerLine(tail);
      var first := SessionName(lines[0]);
      var rest := SessionNames(tail);
      if first.Err? {
        assert SessionNames(lines).Err?;
      } else if rest.Err? {
        var k :| 0 <= k < |tail| && SessionName(tail[k]).Err?;
        assert lines[k + 1] == tail[k];
        assert SessionNames(lines).Err?;
      } else {
        var names := SessionNames(lines).value;
        assert names == [first.value] + rest.value;
        forall k | 0 <= k < |lines|
          ensures SessionName(lines[k]).Ok? && names[k] == SessionName(lines[k]).value
        {
          if k > 0 {
            assert lines[k] == tail[k - 1];
          }
        }
      }
    }
  }

  /** `sessions()` on the text `tmux ls` printed. */
  function Sessions(stdout: string): Result<seq<string>, LinePanic> {
    SessionNames(Lines(stdout))
  }

  /** A line as `tmux ls` prints it: "<name>: <description>". */
  function ListingLine(name: string, description: string): string {
    name + ": " + description
  }

  /** One line of the listing is a plain line whose name is the session's. */
  lemma ListingLineName(name: string, description: string)
    requires ' ' !in name && '\n' !in name
    requires '\n' !in description && '\r' !in description
    ensures PlainLine(ListingLine(name, description))
    ensures SessionName(ListingLine(name, description)) == Ok(name)
  {
    var l := ListingLine(name, description);
    assert l == name + [':'] + [' '] + description;
    assert l[|l| - 1] != '\r' by {
      if description == [] { assert l[|l| - 1] == ' '; }
      else { assert l[|l| - 1] == description[|description| - 1]; }
    }
    SplitOnceAtFirst(name + [':'], description, ' ');
  }

  /** `sessions()` recovers the session names from a listing, one per line
      and in order, whatever each description says. */
  lemma {:induction false} SessionsOfListing(names: seq<string>, descriptions: seq<string>)
    requires |names| == |descriptions|
    requires forall k :: 0 <= k < |names| ==> ' ' !in names[k] && '\n' !in names[k]
    requires forall k :: 0 <= k < |descriptions| ==>
      '\n' !in descriptions[k] && '\r' !in descriptions[k]
    ensures Sessions(Join(seq(|names|, k requires 0 <= k < |names| => ListingLine(names[k], descriptions[k])), "\n")) == Ok(names)
  {
    var lines := seq(|names|, k requires 0 <= k < |names| => ListingLine(names[k], descriptions[k]));
    forall k | 0 <= k < |lines| ensures PlainLine(lines[k]) && SessionName(lines[k]) == Ok(names[k]) {
      ListingLineName(names[k], descriptions[k]);
    }
    LinesOfJoin(lines);
    SessionNamesPerLine(lines);
    var r := Sessions(Join(lines, "\n"));
    assert r.value == names;
  }
}
