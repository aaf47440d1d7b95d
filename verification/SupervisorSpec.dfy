/** What one tick of the Claude discovery supervisor does, seen from a single session
    (src/agent_keepalive/claude_supervisor.py:171-274, 305-410). The class in
    DiscoverySupervisor.dfy is proved to do this to every session at once. */
module SupervisorSpec {
  import opened Prelude
  import opened ClaudeProvider
  import opened TargetPaths
  import opened RecordStore

  datatype Config = Config(
    roots: seq<string>,
    cwd: Option<string>,
    discoveryInterval: real,
    disappearanceGrace: real,
    terminalGrace: real,
    host: Host)

  /** Configured roots are distinct, and so are their digests. */
  ghost predicate ConfigOk(cfg: Config) {
    && (forall i, j | 0 <= i < j < |cfg.roots| :: cfg.roots[i] != cfg.roots[j])
    && (forall r | r in cfg.roots :: HexDigest(cfg.host.fingerprint(r)))
    && (forall r, s | r in cfg.roots && s in cfg.roots ::
          cfg.host.fingerprint(r) == cfg.host.fingerprint(s) ==> r == s)
  }

  /** `dict.fromkeys`: every root once, in the order of its first occurrence. */
  function UniqueRoots(roots: seq<string>): (r: seq<string>)
    ensures forall i, j | 0 <= i < j < |r| :: r[i] != r[j]
    ensures forall x :: x in r <==> x in roots
    ensures roots != [] ==> r != []
  {
    if roots == [] then []
    else
      var n := |roots| - 1;
      var init := UniqueRoots(roots[..n]);
      assert roots == roots[..n] + [roots[n]];
      if roots[n] in init then init else init + [roots[n]]
  }

  datatype Key = Key(root: string, id: string)

  predicate ValidKey(cfg: Config, k: Key) {
    k.root in cfg.roots && Hex8(k.id)
  }

  function TargetOf(cfg: Config, k: Key): string {
    SessionTargetId(cfg.host, k.root, k.id)
  }

  function SessionFile(cfg: Config, k: Key): string {
    FileName(CLAUDE, TargetOf(cfg, k))
  }

  lemma DistinctFiles(cfg: Config, k: Key, j: Key)
    requires ConfigOk(cfg) && ValidKey(cfg, k) && ValidKey(cfg, j)
    requires k != j
    ensures SessionFile(cfg, k) != SessionFile(cfg, j)
  {
    if SessionFile(cfg, k) == SessionFile(cfg, j) {
      SessionFilesAreDistinct(cfg.host, CLAUDE, k.root, k.id, j.root, j.id);
    }
  }

  // ---- state ----------------------------------------------------------------------------

  /** The tuples a lifecycle remembers: ten components after a snapshot, six after the session
      was marked as disappeared (so the two are never equal). */
  datatype Signature =
    | Seen(status: string, loaded: Option<bool>, blocked: bool, terminal: bool, lastActivityAt: Option<string>,
           stateOutcome: JobOutcome, displayName: string, sessionId: Option<string>, cwd: string,
           liveStatus: Option<string>)
    | Vanished(lastActivityAt: Option<string>)

  datatype Lifecycle = Lifecycle(
    missingSince: Option<real>,
    terminalSince: Option<real>,
    signature: Option<Signature>)

  const NEW_LIFECYCLE := Lifecycle(None, None, None)

  /** What the supervisor keeps about one root. */
  datatype RootState = RootState(
    lastDiscoveryAt: Option<real>,
    entries: map<string, Payload>,
    result: Option<Discovery>)
  {
    predicate Authoritative() {
      result.Some? && result.value.Authoritative()
    }
  }

  const NEW_ROOT := RootState(None, map[], None)

  /** What the supervisor and the store keep about one session. */
  datatype KeyState = KeyState(
    life: Option<Lifecycle>,
    retired: bool,
    record: Option<KeeperRecord>)

  /** What the environment answers during one tick: the clock, the discovery command if it is run,
      the names of the directories under `jobs`, and the job files. */
  datatype Obs = Obs(
    now: real,
    discover: string -> Discovery,
    listing: string -> seq<string>,
    job: Key -> JobState)

  // ---- discovery ------------------------------------------------------------------------

  /** The cache built from a list of entries: the last entry of an id wins. */
  function EntriesById(entries: seq<Payload>): (m: map<string, Payload>)
    ensures forall id | id in m :: Hex8(id)
  {
    if entries == [] then map[]
    else
      var e := entries[|entries| - 1];
      var m := EntriesById(entries[..|entries| - 1]);
      if EntryId(e).Some? then m[EntryId(e).value := e] else m
  }

  predicate DiscoveryDue(cfg: Config, d: RootState, now: real) {
    d.lastDiscoveryAt.None? || now - d.lastDiscoveryAt.value >= cfg.discoveryInterval
  }

  function Refresh(cfg: Config, d: RootState, now: real, result: Discovery): RootState {
    if !DiscoveryDue(cfg, d, now) then d
    else RootState(Some(now),
                   if result.Authoritative() then EntriesById(result.entries) else d.entries,
                   Some(result))
  }

  function LocalJobIds(names: seq<string>): set<string> {
    set n | n in names && ShortSessionId(n).Some? :: ShortSessionId(n).value
  }

  // ---- one session ----------------------------------------------------------------------

  function EntryCwd(cfg: Config, root: string, live: Option<Payload>, job: JobState): string {
    var raw := OrElse(OrElse(ValueAsStr(job.payload, "cwd"), ValueAsStr(live, "cwd")), Some(""));
    var fallback := cfg.cwd.GetOr(root);
    if raw.value != "" then cfg.host.resolvePath(raw.value).GetOr(fallback) else fallback
  }

  function SnapshotOf(cfg: Config, d: RootState, obs: Obs, k: Key): Snapshot {
    var job := obs.job(k);
    var live := Get(d.entries, k.id);
    SnapshotFromSources(cfg.host, k.id, EntryCwd(cfg, k.root, live, job), job, live)
  }

  function Iso(host: Host, t: Option<Time>): Option<string> {
    if t.Some? then Some(host.isoformat(t.value)) else None
  }

  function OutcomeName(o: JobOutcome): string {
    match o case Ok => "ok" case Invalid => "invalid" case Missing => "missing"
  }

  /** The record of session `k` brought up to a snapshot (without the event counter). */
  function Updated(cfg: Config, k: Key, base: KeeperRecord, snap: Snapshot, outcome: JobOutcome): KeeperRecord {
    base.(
      keeperStatus := "observed",
      displayName := snap.displayName,
      targetStatus := snap.status,
      loaded := snap.loaded,
      blocked := snap.blocked,
      terminal := snap.terminal,
      lastActivityAt := Iso(cfg.host, snap.lastActivityAt),
      lastEventAt := Iso(cfg.host, snap.lastEventAt),
      idleSince := Iso(cfg.host, snap.idleSince),
      metadata := Metadata(true, k.root, cfg.host.fingerprint(k.root), OutcomeName(outcome),
                           snap.sessionId, snap.cwd, snap.liveStatus, snap.liveEntryAvailable, None))
  }

  function SignatureOf(cfg: Config, snap: Snapshot, outcome: JobOutcome): Signature {
    Seen(snap.status, snap.loaded, snap.blocked, snap.terminal, Iso(cfg.host, snap.lastActivityAt), outcome,
         snap.displayName, snap.sessionId, snap.cwd, snap.liveStatus)
  }

  /** `_write_snapshot_record`. With `always` the record is saved whether or not the signature
      changed: the simple store the real one has to agree with. */
  function WriteSnapshot(cfg: Config, always: bool, k: Key, life: Lifecycle, record: Option<KeeperRecord>,
                         snap: Snapshot, outcome: JobOutcome): KeyState
  {
    var signature := SignatureOf(cfg, snap, outcome);
    var changed := life.signature != Some(signature);
    var base := record.GetOr(NewRecord(CLAUDE, TargetOf(cfg, k), snap.displayName));
    var updated := Updated(cfg, k, base, snap, outcome);
    var counted := if changed then updated.(eventCount := updated.eventCount + 1) else updated;
    KeyState(Some(life.(signature := Some(signature))),
             false,
             if record.None? || changed || always then Some(counted) else record)
  }

  function Vanish(cfg: Config, k: Key, r: KeeperRecord): KeeperRecord {
    r.(
      keeperStatus := "observed",
      targetStatus := "disappeared",
      loaded := Some(false),
      blocked := false,
      terminal := false,
      eventCount := r.eventCount + 1,
      metadata := r.metadata.(managedBySupervisor := true, sourceRoot := k.root,
      disappearanceGrace := Some(cfg.disappearanceGrace)))
  }

  /** `_write_disappeared_record`. */
  function Disappeared(cfg: Config, k: Key, s: KeyState): KeyState
    requires s.life.Some?
  {
    if s.record.None? then s
    else s.(life := Some(s.life.value.(signature := Some(Vanished(s.record.value.lastActivityAt)))),
            record := Some(Vanish(cfg, k, s.record.value)))
  }

  /** Everything one pass over a session looks at. */
  datatype Sight = Sight(
    now: real,
    listed: bool,
    cached: bool,
    authoritative: bool,
    outcome: JobOutcome,
    snap: Snapshot)
  {
    /** Neither a job file nor a cached discovery entry. */
    predicate Absent() {
      outcome == Missing && !cached
    }
  }

  /** What the pass over `k` sees, `d` being its root after the discovery of this tick. */
  function SightOf(cfg: Config, d: RootState, obs: Obs, k: Key): Sight {
    Sight(obs.now, k.id in LocalJobIds(obs.listing(k.root)), k.id in d.entries, d.Authoritative(),
          obs.job(k).outcome, SnapshotOf(cfg, d, obs, k))
  }

  predicate Candidate(w: Sight, s: KeyState) {
    w.listed || w.cached || s.life.Some?
  }

  /** The loop body for a session that is absent. */
  function StepAbsent(cfg: Config, w: Sight, k: Key, s: KeyState): KeyState {
    var life := s.life.GetOr(NEW_LIFECYCLE);
    if !w.authoritative then s.(life := Some(life))
    else if life.missingSince.None? then 
      Disappeared(cfg, k, s.(life := Some(life.(missingSince := Some(w.now)))))
    else if w.now - life.missingSince.value >= cfg.disappearanceGrace then KeyState(None, s.retired, None)
    else s.(life := Some(life))
  }

  /** The loop body for a session that is present. */
  function StepPresent(cfg: Config, always: bool, w: Sight, k: Key, s: KeyState): KeyState {
    var life := s.life.GetOr(NEW_LIFECYCLE).(missingSince := None);
    if s.retired && w.snap.terminal then s.(life := None)
    else if !w.snap.terminal then
      WriteSnapshot(cfg, always, k, life.(terminalSince := None), s.record, w.snap, w.outcome)
    else if life.terminalSince.None? then
      WriteSnapshot(cfg, always, k, life.(terminalSince := Some(w.now)), s.record, w.snap, w.outcome)
    else if w.now - life.terminalSince.value >= cfg.terminalGrace then KeyState(None, true, None)
    else WriteSnapshot(cfg, always, k, life, s.record, w.snap, w.outcome)
  }

  /** One pass of the loop body of `_refresh_root_records`, for a session that is no candidate too. */
  function StepKey(cfg: Config, always: bool, w: Sight, k: Key, s: KeyState): KeyState {
    if !Candidate(w, s) then s
    else if w.Absent() then StepAbsent(cfg, w, k, s)
    else StepPresent(cfg, always, w, k, s)
  }

  /** One tick for one session, from the state `d` of its root after this tick's discovery. */
  function TickKey(cfg: Config, d: RootState, obs: Obs, k: Key, s: KeyState): KeyState {
    StepKey(cfg, false, SightOf(cfg, d, obs, k), k, s)
  }

  /** Which sessions a tick looks at; the others stay as they are. */
  lemma CandidateIff(cfg: Config, d: RootState, obs: Obs, k: Key, s: KeyState)
    ensures Candidate(SightOf(cfg, d, obs, k), s)
            <==> k.id in LocalJobIds(obs.listing(k.root)) || k.id in d.entries || s.life.Some?
    ensures !Candidate(SightOf(cfg, d, obs, k), s) ==> TickKey(cfg, d, obs, k, s) == s
  {
  }

  // ---- runs -----------------------------------------------------------------------------

  /** The constructor's cleanup: records of a previous supervisor are dropped. */
  ghost function Cleaned(files: Files): Files {
    map f | f in files && !(files[f].provider == CLAUDE && files[f].metadata.managedBySupervisor) :: files[f]
  }

  /** A root after a history of ticks. */
  ghost function RootAfter(cfg: Config, root: string, os: seq<Obs>): RootState {
    if os == [] then NEW_ROOT
    else
      var o := os[|os| - 1];
      Refresh(cfg, RootAfter(cfg, root, os[..|os| - 1]), o.now, o.discover(root))
  }

  /** What the passes over `k` see during a history. */
  ghost function Sights(cfg: Config, k: Key, os: seq<Obs>): (ws: seq<Sight>)
    ensures |ws| == |os|
  {
    if os == [] then []
    else Sights(cfg, k, os[..|os| - 1]) + [SightOf(cfg, RootAfter(cfg, k.root, os), os[|os| - 1], k)]
  }

  lemma {:induction false} SightAt(cfg: Config, k: Key, os: seq<Obs>, j: nat)
    requires j < |os|
    ensures Sights(cfg, k, os)[j] == SightOf(cfg, RootAfter(cfg, k.root, os[..j + 1]), os[j], k)
  {
    if j == |os| - 1 {
      assert os[..j + 1] == os;
    } else {
      SightAt(cfg, k, os[..|os| - 1], j);
      assert os[..|os| - 1][..j + 1] == os[..j + 1];
    }
  }

  /** A session after the first `n` passes, when the store held `start` for it at the beginning. */
  ghost function KeyAt(cfg: Config, always: bool, k: Key, start: Option<KeeperRecord>, ws: seq<Sight>, n: nat): KeyState
    requires n <= |ws|
  {
    if n == 0 then KeyState(None, false, start)
    else StepKey(cfg, always, ws[n - 1], k, KeyAt(cfg, always, k, start, ws, n - 1))
  }

  /** The session record that a constructor finds and keeps. */
  ghost function StartOf(cfg: Config, k: Key, files: Files): Option<KeeperRecord> {
    Get(Cleaned(files), SessionFile(cfg, k))
  }

  lemma {:induction false} KeyAtPrefix(cfg: Config, always: bool, k: Key, start: Option<KeeperRecord>,
                                       ws: seq<Sight>, more: seq<Sight>, n: nat)
    requires n <= |ws|
    ensures KeyAt(cfg, always, k, start, ws + more, n) == KeyAt(cfg, always, k, start, ws, n)
  {
    if n > 0 {
      KeyAtPrefix(cfg, always, k, start, ws, more, n - 1);
    }
  }

  lemma KeyAtAppend(cfg: Config, k: Key, start: Option<KeeperRecord>, ws: seq<Sight>, w: Sight)
    ensures KeyAt(cfg, false, k, start, ws + [w], |ws| + 1)
         == StepKey(cfg, false, w, k, KeyAt(cfg, false, k, start, ws, |ws|))
  {
    KeyAtPrefix(cfg, false, k, start, ws, [w], |ws|);
  }

  /** A session after a history of ticks. */
  ghost function KeyAfter(cfg: Config, k: Key, files: Files, os: seq<Obs>): KeyState {
    KeyAt(cfg, false, k, StartOf(cfg, k, files), Sights(cfg, k, os), |os|)
  }

  lemma HistoryStart(cfg: Config, k: Key, files: Files)
    ensures KeyAfter(cfg, k, files, []) == KeyState(None, false, Get(Cleaned(files), SessionFile(cfg, k)))
  {
  }

  /** One more tick is one more refresh of the root and one more pass over the session. */
  lemma HistoryStep(cfg: Config, k: Key, files: Files, os: seq<Obs>, o: Obs)
    ensures RootAfter(cfg, k.root, os + [o]) == Refresh(cfg, RootAfter(cfg, k.root, os), o.now, o.discover(k.root))
    ensures KeyAfter(cfg, k, files, os + [o])
         == TickKey(cfg, RootAfter(cfg, k.root, os + [o]), o, k, KeyAfter(cfg, k, files, os))
  {
    assert (os + [o])[..|os|] == os;
    var w := SightOf(cfg, RootAfter(cfg, k.root, os + [o]), o, k);
    KeyAtAppend(cfg, k, StartOf(cfg, k, files), Sights(cfg, k, os), w);
  }
}
