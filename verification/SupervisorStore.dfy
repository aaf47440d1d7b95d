/** What the supervisor does to the record directory as a whole: which changes it ever makes, and
    what a crash between any two of them leaves to the next supervisor
    (src/agent_keepalive/claude_supervisor.py:82-84, 326-333, 391-410). */
module SupervisorStore {
  import opened Prelude
  import opened TargetPaths
  import opened RecordStore
  import opened SupervisorSpec

  const ALL := "all"

  function SupervisorFile(): string {
    FileName(CLAUDE, ALL)
  }

  predicate ManagedClaude(r: KeeperRecord) {
    r.provider == CLAUDE && r.metadata.managedBySupervisor
  }

  ghost predicate IsSessionFile(cfg: Config, f: string) {
    exists k :: ValidKey(cfg, k) && f == SessionFile(cfg, k)
  }

  lemma SupervisorFileIsNotASession(cfg: Config, k: Key)
    requires ConfigOk(cfg) && ValidKey(cfg, k)
    ensures SessionFile(cfg, k) != SupervisorFile()
  {
    SessionFileIsNotOther(cfg.host, CLAUDE, k.root, k.id, ALL);
  }

  /** The changes a supervisor makes: it saves managed records in session files and its own record
      under `all`; it deletes session files, its own record, and records a former supervisor left. */
  ghost predicate OpOk(cfg: Config, initial: Files, op: StoreOp) {
    match op
    case Put(r) =>
      || (IsSessionFile(cfg, FileOf(r)) && ManagedClaude(r))
      || (FileOf(r) == SupervisorFile() && !r.metadata.managedBySupervisor)
    case Delete(f) =>
      || IsSessionFile(cfg, f)
      || f == SupervisorFile()
      || (f in initial && ManagedClaude(initial[f]))
  }

  ghost predicate LogOk(cfg: Config, initial: Files, log: seq<StoreOp>) {
    forall op | op in log :: OpOk(cfg, initial, op)
  }

  /** Records that a supervisor manages are in session files of this one. */
  ghost predicate ManagedInSessionFiles(cfg: Config, files: Files) {
    forall f | f in files && ManagedClaude(files[f]) :: IsSessionFile(cfg, f)
  }

  lemma LogGrows(cfg: Config, initial: Files, log: seq<StoreOp>, op: StoreOp)
    requires LogOk(cfg, initial, log) && OpOk(cfg, initial, op)
    ensures LogOk(cfg, initial, log + [op])
  {
  }

  /** A change of the supervisor's own file does not matter to the others. */
  lemma OwnFileIsUnmanaged(cfg: Config, files: Files, files': Files)
    requires ManagedInSessionFiles(cfg, files) && SameElsewhere(files, files', SupervisorFile())
    requires SupervisorFile() in files' ==> !ManagedClaude(files'[SupervisorFile()])
    ensures ManagedInSessionFiles(cfg, files')
  {
    forall f | f in files' && ManagedClaude(files'[f]) ensures IsSessionFile(cfg, f) {
      assert Get(files', f) == Get(files, f);
    }
  }

  /** A directory that a supervisor may leave behind, having started from `initial`. */
  ghost predicate Aftermath(cfg: Config, initial: Files, files: Files) {
    && (forall f | f in files && f != SupervisorFile() ::
          (IsSessionFile(cfg, f) && ManagedClaude(files[f])) || (f in initial && files[f] == initial[f]))
    && (forall f | f in initial && !ManagedClaude(initial[f]) && f != SupervisorFile() && !IsSessionFile(cfg, f) ::
          f in files && files[f] == initial[f])
  }

  lemma {:induction false} ReplayLeavesAftermath(cfg: Config, initial: Files, log: seq<StoreOp>)
    requires LogOk(cfg, initial, log)
    ensures Aftermath(cfg, initial, Replay(initial, log))
  {
    if log != [] {
      var n := |log| - 1;
      ReplayLeavesAftermath(cfg, initial, log[..n]);
      assert OpOk(cfg, initial, log[n]);
    }
  }

  /** Whenever the process dies, between any two changes, the next supervisor's constructor leaves
      no record of it except its own: what survives are records that were there before and that no
      supervisor managed, and outside the session files all of those do. */
  lemma CrashThenRestart(cfg: Config, initial: Files, log: seq<StoreOp>, n: nat)
    requires LogOk(cfg, initial, log) && n <= |log|
    ensures var restarted := Cleaned(Replay(initial, log[..n]));
            && (forall f | f in restarted :: !ManagedClaude(restarted[f]))
            && (forall f | f in restarted && f != SupervisorFile() ::
                  f in initial && !ManagedClaude(initial[f]) && restarted[f] == initial[f])
            && (forall f | f in initial && !ManagedClaude(initial[f])
                           && f != SupervisorFile() && !IsSessionFile(cfg, f) ::
                  f in restarted && restarted[f] == initial[f])
  {
    ReplayLeavesAftermath(cfg, initial, log[..n]);
  }
}
