/** The two revisions of the launcher, `start_tmux` in src/lib.rs and `run`
    in src/tmux.rs, side by side: where they agree and the two places where
    they do not. */
module Revisions {
  import opened RustText
  import opened Session
  import Lib
  import Tmux

  /** Given the same facts, both revisions issue the same commands, except
      when `$TMUX` is set and no server runs: src/lib.rs then does nothing
      and succeeds, src/tmux.rs reaches `unreachable!()`. */
  lemma {:induction false} SameCommandsExceptInconsistentEnvironment(
    path: string, pgrep: Tmux.ProcessOutput, tmuxEnv: bool, exists_: bool)
    requires FileName(path).Some?
    ensures var running := Tmux.IsRunning(pgrep);
      var l := Lib.StartTmux(path, Lib.Replied(running), tmuxEnv, Lib.Replied(exists_));
      var t := Tmux.Run(path, Tmux.Replied(pgrep), tmuxEnv, Tmux.Replied(exists_));
      if !running && tmuxEnv then
        l.result.Ok? && CommandsOf(l.steps) == [] && t.end == Tmux.Panicked(Tmux.Unreachable)
      else
        l.result.Ok? && t.end == Tmux.Done && CommandsOf(l.steps) == CommandsOf(t.steps)
  {
    var running := Tmux.IsRunning(pgrep);
    var name := FileName(path).value;
    var cs := Commands(Resolve(running, tmuxEnv, exists_), name, path);
    CommandsOfAppend([QueryRunning, QueryHasSession(name)], ExecAll(cs));
    Tmux.RunFollowsTable(path, pgrep, tmuxEnv, exists_);
  }

  /** Without a server and outside tmux, src/tmux.rs never asks whether the
      session exists and creates it; src/lib.rs asks anyway, so a failing
      `has-session` query aborts it before any command. */
  lemma {:induction false} FailedSessionQueryWithoutServer(path: string, pgrep: Tmux.ProcessOutput)
    requires FileName(path).Some? && !Tmux.IsRunning(pgrep)
    ensures var l := Lib.StartTmux(path, Lib.Replied(false), false, Lib.Failed);
      l.result == Err(Lib.QueryError) && CommandsOf(l.steps) == []
    ensures var t := Tmux.Run(path, Tmux.Replied(pgrep), false, Tmux.Failed);
      t.end == Tmux.Done && CommandsOf(t.steps) == [NewSession(FileName(path).value, path)]
  {
    var name := FileName(path).value;
    var t := Tmux.Run(path, Tmux.Replied(pgrep), false, Tmux.Failed);
    assert t.steps == [QueryRunning] + [Exec(NewSession(name, path))];
    CommandsOfAppend([QueryRunning], [Exec(NewSession(name, path))]);
  }
}
