/** The promises of the supervisor, said of what it is given: the job files, what the discovery command
    printed and when, the clock and the job directories (src/agent_keepalive/claude_supervisor.py:171-389,
    src/agent_keepalive/providers/claude.py:241-310). */
module SupervisorPayloads {
  import opened Prelude
  import opened ClaudeProvider
  import opened ClaudePayloads
  import opened TargetPaths
  import opened RecordStore
  import opened SupervisorSpec
  import opened SupervisorRuns
  import opened SupervisorDiscovery

  // ---- what a tick is given ------------------------------------------------------------------------

  /** The entry of the session in the last discovery that succeeded. */
  ghost function EntryAt(cfg: Config, k: Key, os: seq<Obs>, j: nat): Option<Payload>
    requires j < |os|
  {
    var last := LastSuccess(cfg, k.root, os, j + 1);
    if last.None? then None else Get(EntriesById(os[last.value].discover(k.root).entries), k.id)
  }

  /** The last discovery succeeded. */
  ghost predicate TrustedAt(cfg: Config, k: Key, os: seq<Obs>, j: nat)
    requires j < |os|
  {
    var last := LastCall(cfg, k.root, os, j + 1);
    last.Some? && os[last.value].discover(k.root).outcome in {Success, Empty}
  }

  /** There is a job file, or an entry. */
  ghost predicate PresentAt(cfg: Config, k: Key, os: seq<Obs>, j: nat)
    requires j < |os|
  {
    os[j].job(k).outcome in {Ok, Invalid} || EntryAt(cfg, k, os, j).Some?
  }

  /** There is a job directory of the session. */
  predicate InDirectory(k: Key, os: seq<Obs>, j: nat)
    requires j < |os|
  {
    exists name | name in os[j].listing(k.root) :: ShortSessionId(name) == Some(k.id)
  }

  /** Present, and in a place where the supervisor looks. */
  ghost predicate SeenAt(cfg: Config, k: Key, os: seq<Obs>, j: nat)
    requires j < |os|
  {
    PresentAt(cfg, k, os, j) && (InDirectory(k, os, j) || EntryAt(cfg, k, os, j).Some?)
  }

  lemma SeenIsPresent(cfg: Config, k: Key, os: seq<Obs>)
    requires os != [] && SeenAt(cfg, k, os, |os| - 1)
    ensures PresentAt(cfg, k, os, |os| - 1)
  {
  }

  ghost predicate OverAt(cfg: Config, k: Key, os: seq<Obs>, j: nat)
    requires j < |os|
  {
    Over(os[j].job(k), EntryAt(cfg, k, os, j))
  }

  /** A job file that is read is usable or not, and only a usable one has a payload. */
  ghost predicate JobsAreRead(k: Key, os: seq<Obs>) {
    forall j | 0 <= j < |os| :: os[j].job(k).WellFormed()
  }

  lemma EntryIsCached(cfg: Config, k: Key, os: seq<Obs>, j: nat)
    requires j < |os|
    ensures Get(RootAfter(cfg, k.root, os[..j + 1]).entries, k.id) == EntryAt(cfg, k, os, j)
  {
    hide RootAfter, EntriesById, LastSuccess;
    CacheAgreesWithHistory(cfg, k.root, os, j + 1);
  }

  lemma DirectoryIsListed(k: Key, os: seq<Obs>, j: nat)
    requires j < |os|
    ensures k.id in LocalJobIds(os[j].listing(k.root)) <==> InDirectory(k, os, j)
  {
  }

  /** What the pass over a session sees. */
  lemma SightShows(cfg: Config, k: Key, os: seq<Obs>, j: nat)
    requires j < |os|
    ensures var w := Sights(cfg, k, os)[j];
            && w == SightOf(cfg, RootAfter(cfg, k.root, os[..j + 1]), os[j], k)
            && w.now == os[j].now && w.outcome == os[j].job(k).outcome
            && (w.listed <==> InDirectory(k, os, j))
            && (w.cached <==> EntryAt(cfg, k, os, j).Some?)
            && (w.authoritative <==> TrustedAt(cfg, k, os, j))
            && (w.Absent() <==> !PresentAt(cfg, k, os, j))
  {
    hide RootAfter, EntryAt, SnapshotOf, LocalJobIds, InDirectory, Sights, LastCall;
    SightAt(cfg, k, os, j);
    EntryIsCached(cfg, k, os, j);
    DirectoryIsListed(k, os, j);
    CalledIff(cfg, k.root, os, j);
  }

  lemma SightIsOver(cfg: Config, k: Key, os: seq<Obs>, j: nat)
    requires j < |os| && os[j].job(k).WellFormed() && PresentAt(cfg, k, os, j)
    ensures Sights(cfg, k, os)[j].snap.terminal <==> OverAt(cfg, k, os, j)
  {
    hide RootAfter, EntryAt, SnapshotFromSources, EntryCwd, Sights, LastCall, Over;
    SightShows(cfg, k, os, j);
    EntryIsCached(cfg, k, os, j);
    var job, live := os[j].job(k), EntryAt(cfg, k, os, j);
    OverIff(cfg.host, k.id, EntryCwd(cfg, k.root, live, job), job, live);
  }

  // ---- what a tick stores ------------------------------------------------------------------------------

  /** The directory: what the job file names, or else the entry, resolved if that is possible. */
  predicate CwdShown(cfg: Config, root: string, job: JobState, live: Option<Payload>, cwd: string) {
    var fallback := cfg.cwd.GetOr(root);
    cwd == if HasText(job.payload, "cwd") then cfg.host.resolvePath(job.payload.value["cwd"].s).GetOr(fallback)
           else if HasText(live, "cwd") then cfg.host.resolvePath(live.value["cwd"].s).GetOr(fallback)
           else fallback
  }

  lemma EntryCwdIs(cfg: Config, root: string, live: Option<Payload>, job: JobState)
    ensures CwdShown(cfg, root, job, live, EntryCwd(cfg, root, live, job))
  {
  }

  /** The record says of the session what its job file and its entry say. */
  predicate RecordShows(cfg: Config, k: Key, job: JobState, live: Option<Payload>, r: KeeperRecord) {
    && r.keeperStatus == "observed"
    && StatusShown(job, live, r.targetStatus)
    && r.loaded == (if job.outcome == Ok || live.Some? then Some(!Over(job, live)) else None)
    && (r.blocked <==> r.targetStatus == "blocked")
    && (r.terminal <==> Over(job, live))
    && r.lastActivityAt
       == (match UpdateTime(cfg.host, job) case None => None case Some(t) => Some(cfg.host.isoformat(t)))
    && r.lastEventAt == r.lastActivityAt
    && r.idleSince == (if AtWork(job, live) then None else r.lastActivityAt)
    && IdShown(job, live, r.metadata.sessionId)
    && r.displayName == (if r.metadata.sessionId.GetOr("") != "" then r.metadata.sessionId.value else k.id)
    && CwdShown(cfg, k.root, job, live, r.metadata.cwd)
    && (r.metadata.liveStatus.Some? <==> HasString(live, "status"))
    && (r.metadata.liveStatus.Some? ==> Says(live, "status", r.metadata.liveStatus.value))
    && r.metadata.managedBySupervisor && r.metadata.sourceRoot == k.root
    && r.metadata.rootFingerprint == cfg.host.fingerprint(k.root)
    && r.metadata.stateOutcome
       == (match job.outcome case Ok => "ok" case Invalid => "invalid" case Missing => "missing")
    && r.metadata.disappearanceGrace.None?
  }

  lemma DescribedMeansShown(cfg: Config, k: Key, job: JobState, live: Option<Payload>, r: KeeperRecord)
    requires job.WellFormed() && (job.Present() || live.Some?)
    requires var snap := SnapshotFromSources(cfg.host, k.id, EntryCwd(cfg, k.root, live, job), job, live);
             Describes(cfg, k, SignatureOf(cfg, snap, job.outcome), r)
    ensures RecordShows(cfg, k, job, live, r)
  {
    hide SnapshotFromSources, EntryCwd, StatusShown, AtWork, Over, IdShown, UpdateTime, CwdShown, HasString, Says;
    var cwd := EntryCwd(cfg, k.root, live, job);
    EntryCwdIs(cfg, k.root, live, job);
    FieldsAre(cfg.host, k.id, cwd, job, live);
    StatusIs(cfg.host, k.id, cwd, job, live);
    OverIff(cfg.host, k.id, cwd, job, live);
  }

  /** Every tick that finds a session stores what its job file and its last discovered entry say of it,
      whether or not anything was written, unless the session is retired; and it is not when it is not
      over. A session is found if it is known already, listed, or discovered. */
  lemma TickStores(cfg: Config, k: Key, files: Files, os: seq<Obs>)
    requires WellFiled(files) && os != [] && JobsAreRead(k, os)
    requires var n := |os| - 1;
             && PresentAt(cfg, k, os, n)
             && (SeenAt(cfg, k, os, n) || KeyAfter(cfg, k, files, os[..n]).life.Some?)
    ensures var n, s := |os| - 1, KeyAfter(cfg, k, files, os);
            && (s.record.Some? <==> !s.retired)
            && (s.retired ==> OverAt(cfg, k, os, n))
            && (s.record.Some? ==>
                  FileOf(s.record.value) == SessionFile(cfg, k)
                  && RecordShows(cfg, k, os[n].job(k), EntryAt(cfg, k, os, n), s.record.value))
            && (!OverAt(cfg, k, os, n) ==>
                  s.life.Some? && s.life.value.missingSince.None? && s.life.value.terminalSince.None?)
  {
    hide RootAfter, EntryAt, Sights, LastCall, LastSuccess, Over, StepKey, Describes, KeyAt, StartOf, InDirectory,
         SnapshotFromSources, EntryCwd, RecordShows, FileOf, SessionFile, StartOk, AllDerived, KeyInv;
    var n := |os| - 1;
    var start, ws := StartOf(cfg, k, files), Sights(cfg, k, os);
    var job, live := os[n].job(k), EntryAt(cfg, k, os, n);
    assert os[..n + 1] == os;
    CleanedStoreIsOk(cfg, k, files);
    SightsAreDerived(cfg, k, os);
    SightShows(cfg, k, os, n);
    SightIsOver(cfg, k, os, n);
    EntryIsCached(cfg, k, os, n);
    BeforeLast(cfg, k, files, os);
    assert FoundAt(cfg, k, start, ws, n);
    SightingIsShown(cfg, k, start, ws, n);
    InvariantHolds(cfg, false, k, start, ws, n + 1);
    FiledRight(cfg, k, KeyAfter(cfg, k, files, os));
    if KeyAfter(cfg, k, files, os).record.Some? {
      DescribedMeansShown(cfg, k, job, live, KeyAfter(cfg, k, files, os).record.value);
    }
  }

  lemma FiledRight(cfg: Config, k: Key, s: KeyState)
    requires KeyInv(cfg, k, s)
    ensures s.record.Some? ==> FileOf(s.record.value) == SessionFile(cfg, k)
  {
  }

  lemma BeforeLast(cfg: Config, k: Key, files: Files, os: seq<Obs>)
    requires os != []
    ensures var n := |os| - 1;
            KeyAfter(cfg, k, files, os[..n]) == KeyAt(cfg, false, k, StartOf(cfg, k, files), Sights(cfg, k, os), n)
  {
    hide SightOf, StepKey;
    Earlier(cfg, k, files, os, |os| - 1);
  }

  /** The state after the first `j` ticks of a history. */
  lemma {:induction false} Earlier(cfg: Config, k: Key, files: Files, os: seq<Obs>, j: nat)
    requires j <= |os|
    ensures KeyAfter(cfg, k, files, os[..j]) == KeyAt(cfg, false, k, StartOf(cfg, k, files), Sights(cfg, k, os), j)
    ensures Sights(cfg, k, os)[..j] == Sights(cfg, k, os[..j])
  {
    hide SightOf, StepKey, KeyAt;
    SightsPrefix(cfg, k, os, j);
    var ws := Sights(cfg, k, os);
    KeyAtPrefix(cfg, false, k, StartOf(cfg, k, files), ws[..j], ws[j..], j);
    assert ws[..j] + ws[j..] == ws;
  }

  lemma {:induction false} SightsPrefix(cfg: Config, k: Key, os: seq<Obs>, j: nat)
    requires j <= |os|
    ensures Sights(cfg, k, os)[..j] == Sights(cfg, k, os[..j])
  {
    hide SightOf;
    if j == |os| {
      assert os[..j] == os;
    } else {
      var m := |os| - 1;
      SightsPrefix(cfg, k, os[..m], j);
      assert os[..m][..j] == os[..j];
      assert Sights(cfg, k, os)[..j] == Sights(cfg, k, os[..m])[..j];
    }
  }

  // ---- what a removal needs ------------------------------------------------------------------------------

  /** Neither job file nor entry for a disappearance grace period that began and ended with a trusted
      discovery. */
  ghost predicate AbsenceProven(cfg: Config, k: Key, os: seq<Obs>, n: nat)
    requires n < |os|
  {
    exists i: nat | i < n :: AbsentFrom(cfg, k, os, i, n) && os[n].now - os[i].now >= cfg.disappearanceGrace
  }

  ghost predicate AbsentFrom(cfg: Config, k: Key, os: seq<Obs>, i: nat, n: nat)
    requires i < n < |os|
  {
    && TrustedAt(cfg, k, os, i) && TrustedAt(cfg, k, os, n)
    && forall j | i <= j <= n :: !PresentAt(cfg, k, os, j)
  }

  /** Over at both ends of a terminal grace period, and not seen otherwise in between. */
  ghost predicate EndProven(cfg: Config, k: Key, os: seq<Obs>, n: nat)
    requires n < |os|
  {
    exists i: nat | i < n :: OverFrom(cfg, k, os, i, n) && os[n].now - os[i].now >= cfg.terminalGrace
  }

  ghost predicate OverFrom(cfg: Config, k: Key, os: seq<Obs>, i: nat, n: nat)
    requires i < n < |os|
  {
    && PresentAt(cfg, k, os, i) && OverAt(cfg, k, os, i) && PresentAt(cfg, k, os, n) && OverAt(cfg, k, os, n)
    && forall j | i <= j <= n && SeenAt(cfg, k, os, j) :: OverAt(cfg, k, os, j)
  }

  lemma EvidenceOfAbsence(cfg: Config, k: Key, os: seq<Obs>, n: nat)
    requires n < |os|
    ensures DisappearanceEvidence(cfg, Sights(cfg, k, os), n) <==> AbsenceProven(cfg, k, os, n)
  {
    hide Sights, PresentAt, TrustedAt, SightOf, InDirectory, EntryAt, RootAfter;
    var ws := Sights(cfg, k, os);
    forall j: nat | j < |os| ensures Same(cfg, k, os, j) {
      SightShows(cfg, k, os, j);
    }
    forall i: nat | i < n ensures AbsentSince(ws, i, n) <==> AbsentFrom(cfg, k, os, i, n) {
      AbsenceTranslates(cfg, k, os, i, n);
    }
    if DisappearanceEvidence(cfg, ws, n) {
      var i: nat :| i < n && ws[n].now - ws[i].now >= cfg.disappearanceGrace && AbsentSince(ws, i, n);
      assert Same(cfg, k, os, i) && Same(cfg, k, os, n);
      assert AbsentFrom(cfg, k, os, i, n);
    }
    if AbsenceProven(cfg, k, os, n) {
      var i: nat :| i < n && AbsentFrom(cfg, k, os, i, n) && os[n].now - os[i].now >= cfg.disappearanceGrace;
      assert Same(cfg, k, os, i) && Same(cfg, k, os, n);
      assert AbsentSince(ws, i, n);
    }
  }

  ghost predicate Same(cfg: Config, k: Key, os: seq<Obs>, j: nat)
    requires j < |os|
  {
    var w := Sights(cfg, k, os)[j];
    && w.now == os[j].now && (w.authoritative <==> TrustedAt(cfg, k, os, j))
    && (w.Absent() <==> !PresentAt(cfg, k, os, j))
  }

  lemma AbsenceTranslates(cfg: Config, k: Key, os: seq<Obs>, i: nat, n: nat)
    requires i < n < |os| && forall j: nat | j < |os| :: Same(cfg, k, os, j)
    ensures AbsentSince(Sights(cfg, k, os), i, n) <==> AbsentFrom(cfg, k, os, i, n)
  {
    hide Sights, PresentAt, TrustedAt;
    var ws := Sights(cfg, k, os);
    assert Same(cfg, k, os, i) && Same(cfg, k, os, n);
    forall j: nat | i <= j <= n ensures ws[j].Absent() <==> !PresentAt(cfg, k, os, j) {
      assert Same(cfg, k, os, j);
    }
  }

  lemma EvidenceOfEnd(cfg: Config, k: Key, start: Option<KeeperRecord>, os: seq<Obs>, n: nat)
    requires n < |os| && JobsAreRead(k, os)
    requires TerminalEvidence(cfg, k, start, Sights(cfg, k, os), n)
    ensures EndProven(cfg, k, os, n)
  {
    hide Sights, SightOf, InDirectory, EntryAt, RootAfter, KeyAt, LastCall, Over;
    var ws := Sights(cfg, k, os);
    var i: nat :| i < n && ws[n].now - ws[i].now >= cfg.terminalGrace && TerminalSince(cfg, k, start, ws, i, n);
    SightShows(cfg, k, os, i);
    SightShows(cfg, k, os, n);
    SightIsOver(cfg, k, os, i);
    SightIsOver(cfg, k, os, n);
    forall j | i <= j <= n && SeenAt(cfg, k, os, j) ensures OverAt(cfg, k, os, j) {
      SightShows(cfg, k, os, j);
      SightIsOver(cfg, k, os, j);
      assert !NonTerminalAt(cfg, k, start, ws, j);
    }
    assert OverFrom(cfg, k, os, i, n);
  }

  /** A tick takes a record away only if the session was absent, or over, for a grace period, by what job
      files, discoveries and the clock said. */
  lemma RemovalIsJustified(cfg: Config, k: Key, files: Files, os: seq<Obs>, o: Obs)
    requires JobsAreRead(k, os + [o])
    requires KeyAfter(cfg, k, files, os).record.Some? && KeyAfter(cfg, k, files, os + [o]).record.None?
    ensures AbsenceProven(cfg, k, os + [o], |os|) || EndProven(cfg, k, os + [o], |os|)
  {
    hide KeyAfter, Sights, AbsenceProven, EndProven, DisappearanceEvidence, TerminalEvidence, StartOf;
    TickRemovesOnlyWithEvidence(cfg, k, files, os, o);
    if Sights(cfg, k, os + [o])[|os|].Absent() {
      EvidenceOfAbsence(cfg, k, os + [o], |os|);
    } else {
      EvidenceOfEnd(cfg, k, StartOf(cfg, k, files), os + [o], |os|);
    }
  }

  // ---- what takes a record away ----------------------------------------------------------------------------

  lemma ClockIsMonotone(cfg: Config, k: Key, os: seq<Obs>)
    requires MonotoneClock(os)
    ensures Monotone(Sights(cfg, k, os))
  {
    hide Sights, SightOf;
    forall j: nat | j < |os| ensures Sights(cfg, k, os)[j].now == os[j].now {
      SightShows(cfg, k, os, j);
    }
  }

  /** A known session without job file and entry for a disappearance grace period, by the word of trusted
      discoveries at both ends, has no record. */
  lemma AbsenceRemoves(cfg: Config, k: Key, files: Files, os: seq<Obs>, i: nat)
    requires MonotoneClock(os) && i < |os| - 1 && KeyAfter(cfg, k, files, os[..i]).life.Some?
    requires AbsentFrom(cfg, k, os, i, |os| - 1) && os[|os| - 1].now - os[i].now >= cfg.disappearanceGrace
    ensures KeyAfter(cfg, k, files, os).record.None?
  {
    hide Sights, PresentAt, TrustedAt, SightOf, KeyAt, StartOf, RootAfter;
    var n, ws := |os| - 1, Sights(cfg, k, os);
    ClockIsMonotone(cfg, k, os);
    Earlier(cfg, k, files, os, i);
    forall j: nat | j < |os| ensures Same(cfg, k, os, j) {
      SightShows(cfg, k, os, j);
    }
    AbsenceTranslates(cfg, k, os, i, n);
    assert Same(cfg, k, os, i) && Same(cfg, k, os, n);
    AbsentSessionIsRemoved(cfg, k, StartOf(cfg, k, files), ws, i, n);
  }

  /** A session seen over at both ends of a terminal grace period, and neither present otherwise nor
      provably absent in between, is retired and has no record. */
  lemma EndRetires(cfg: Config, k: Key, files: Files, os: seq<Obs>, i: nat)
    requires WellFiled(files) && MonotoneClock(os) && i < |os| - 1 && JobsAreRead(k, os)
    requires SeenAt(cfg, k, os, i) && SeenAt(cfg, k, os, |os| - 1)
    requires forall j | i <= j < |os| && PresentAt(cfg, k, os, j) :: OverAt(cfg, k, os, j)
    requires forall j | i < j < |os| - 1 :: !AbsenceProven(cfg, k, os, j)
    requires os[|os| - 1].now - os[i].now >= cfg.terminalGrace
    ensures KeyAfter(cfg, k, files, os).retired && KeyAfter(cfg, k, files, os).record.None?
  {
    hide Sights, SightOf, KeyAt, StartOf, RootAfter, AbsenceProven, DisappearanceEvidence, EntryAt, InDirectory, Over,
         LastCall, StartOk, AllDerived, MonotoneClock, Monotone;
    var n, start, ws := |os| - 1, StartOf(cfg, k, files), Sights(cfg, k, os);
    ClockIsMonotone(cfg, k, os);
    CleanedStoreIsOk(cfg, k, files);
    SightsAreDerived(cfg, k, os);
    forall j: nat | i <= j <= n
      ensures ws[j].now == os[j].now && !NonTerminalAt(cfg, k, start, ws, j)
      ensures SeenAt(cfg, k, os, j) ==> TerminalAt(cfg, k, start, ws, j)
    {
      SightShows(cfg, k, os, j);
      if PresentAt(cfg, k, os, j) {
        SightIsOver(cfg, k, os, j);
      }
    }
    forall j | i < j < n ensures !DisappearanceEvidence(cfg, ws, j) {
      EvidenceOfAbsence(cfg, k, os, j);
    }
    assert TerminalSince(cfg, k, start, ws, i, n);
    TerminalSessionIsRetired(cfg, k, start, ws, i, n);
  }

  /** A retired session has no record as long as it is not present in another state. */
  lemma RetirementLasts(cfg: Config, k: Key, files: Files, os: seq<Obs>, m: nat)
    requires WellFiled(files) && m <= |os| && JobsAreRead(k, os) && KeyAfter(cfg, k, files, os[..m]).retired
    requires forall j | m <= j < |os| && PresentAt(cfg, k, os, j) :: OverAt(cfg, k, os, j)
    ensures KeyAfter(cfg, k, files, os).retired && KeyAfter(cfg, k, files, os).record.None?
  {
    hide Sights, SightOf, KeyAt, StartOf, RootAfter, EntryAt, InDirectory, Over, LastCall, StartOk, AllDerived;
    var start, ws := StartOf(cfg, k, files), Sights(cfg, k, os);
    CleanedStoreIsOk(cfg, k, files);
    SightsAreDerived(cfg, k, os);
    Earlier(cfg, k, files, os, m);
    forall j: nat | m <= j < |os| ensures !NonTerminalAt(cfg, k, start, ws, j) {
      SightShows(cfg, k, os, j);
      if PresentAt(cfg, k, os, j) {
        SightIsOver(cfg, k, os, j);
      }
    }
    RetiredStaysHidden(cfg, k, start, ws, m, |os|);
  }
}
