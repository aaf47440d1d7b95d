/** What holds of one session over every run of the supervisor: whatever the discovery command,
    the job files and the clock answer, tick after tick. `ws` is what the passes over the session
    see, one element a tick; `start` is what the store held for it at the beginning. */
module SupervisorRuns {
  import opened Prelude
  import opened ClaudeProvider
  import opened TargetPaths
  import opened RecordStore
  import opened SupervisorSpec

  // ---- the signature and the record ------------------------------------------------------

  /** A remembered signature describes the stored record completely, up to the flag
      `live_entry_available`, which no signature mentions. */
  ghost predicate Describes(cfg: Config, k: Key, sig: Signature, r: KeeperRecord) {
    && r.keeperStatus == "observed"
    && r.metadata.managedBySupervisor
    && r.metadata.sourceRoot == k.root
    && r.lastActivityAt == sig.lastActivityAt
    && match sig
       case Vanished(_) =>
         && r.targetStatus == "disappeared" && r.loaded == Some(false) && !r.blocked && !r.terminal
         && r.metadata.disappearanceGrace == Some(cfg.disappearanceGrace)
       case Seen(status, loaded, blocked, terminal, activity, outcome, name, sessionId, cwd, liveStatus) =>
         && r.targetStatus == status && r.loaded == loaded && r.blocked == blocked && r.terminal == terminal
         && r.lastEventAt == activity
         && r.idleSince == (if status == "active" then None else activity)
         && r.displayName == name
         && r.metadata == Metadata(true, k.root, cfg.host.fingerprint(k.root), OutcomeName(outcome), sessionId, cwd,
                                   liveStatus, r.metadata.liveEntryAvailable, None)
  }

  /** A managed record has a lifecycle, and a retired session has no record. */
  ghost predicate Accounted(s: KeyState) {
    && (s.record.Some? && s.record.value.metadata.managedBySupervisor ==> s.life.Some?)
    && (s.retired ==> s.record.None?)
  }

  /** What every tick keeps: the record is accounted for, a signature is only remembered together with
      the record it describes, that of a missing session says that it has disappeared, and a record
      stays in the file of its session. */
  ghost predicate KeyInv(cfg: Config, k: Key, s: KeyState) {
    && Accounted(s)
    && (s.life.Some? && s.life.value.signature.Some? ==>
          s.record.Some? && Describes(cfg, k, s.life.value.signature.value, s.record.value))
    && (s.life.Some? && s.life.value.missingSince.Some? && s.record.Some? ==>
          s.life.value.signature.Some? && s.life.value.signature.value.Vanished?)
    && (s.record.Some? ==> FileOf(s.record.value) == SessionFile(cfg, k) && s.record.value.provider == CLAUDE)
  }

  /** What a store can hold for a session when a supervisor starts. */
  ghost predicate StartOk(cfg: Config, k: Key, start: Option<KeeperRecord>) {
    KeyInv(cfg, k, KeyState(None, false, start))
  }

  lemma CleanedStoreIsOk(cfg: Config, k: Key, files: Files)
    requires WellFiled(files)
    ensures StartOk(cfg, k, StartOf(cfg, k, files))
  {
    if SessionFile(cfg, k) in files {
      ProviderOfFile(files, TargetOf(cfg, k));
    }
  }

  /** The part of a snapshot that no signature mentions follows from the part that it mentions. */
  ghost predicate Derived(snap: Snapshot) {
    && snap.lastEventAt == snap.lastActivityAt
    && snap.idleSince == if snap.status == "active" then None else snap.lastActivityAt
  }

  ghost predicate AllDerived(ws: seq<Sight>) {
    forall j | 0 <= j < |ws| :: Derived(ws[j].snap)
  }

  lemma SnapshotIsDerived(cfg: Config, d: RootState, obs: Obs, k: Key)
    ensures Derived(SnapshotOf(cfg, d, obs, k))
  {
  }

  lemma SightsAreDerived(cfg: Config, k: Key, os: seq<Obs>)
    ensures AllDerived(Sights(cfg, k, os))
  {
    forall j | 0 <= j < |os| ensures Derived(Sights(cfg, k, os)[j].snap) {
      SightAt(cfg, k, os, j);
      SnapshotIsDerived(cfg, RootAfter(cfg, k.root, os[..j + 1]), os[j], k);
    }
  }

  lemma WriteDescribes(cfg: Config, always: bool, k: Key, life: Lifecycle, record: Option<KeeperRecord>,
                       snap: Snapshot, outcome: JobOutcome)
    requires Derived(snap) && life.missingSince.None?
    requires life.signature.Some? ==> record.Some? && Describes(cfg, k, life.signature.value, record.value)
    requires record.Some? ==> FileOf(record.value) == SessionFile(cfg, k) && record.value.provider == CLAUDE
    ensures var s := WriteSnapshot(cfg, always, k, life, record, snap, outcome);
            && KeyInv(cfg, k, s) && s.record.Some?
            && Describes(cfg, k, SignatureOf(cfg, snap, outcome), s.record.value)
  {
  }

  lemma PresentKeepsInvariant(cfg: Config, always: bool, w: Sight, k: Key, s: KeyState)
    requires KeyInv(cfg, k, s) && Derived(w.snap)
    ensures var s' := StepPresent(cfg, always, w, k, s);
            && KeyInv(cfg, k, s')
            && (s'.record.Some? == !s'.retired)
            && (s'.record.Some? ==> Describes(cfg, k, SignatureOf(cfg, w.snap, w.outcome), s'.record.value))
  {
    var life := s.life.GetOr(NEW_LIFECYCLE).(missingSince := None);
    WriteDescribes(cfg, always, k, life, s.record, w.snap, w.outcome);
    WriteDescribes(cfg, always, k, life.(terminalSince := None), s.record, w.snap, w.outcome);
    WriteDescribes(cfg, always, k, life.(terminalSince := Some(w.now)), s.record, w.snap, w.outcome);
  }

  lemma StepKeepsInvariant(cfg: Config, always: bool, w: Sight, k: Key, s: KeyState)
    requires KeyInv(cfg, k, s) && Derived(w.snap)
    ensures KeyInv(cfg, k, StepKey(cfg, always, w, k, s))
  {
    PresentKeepsInvariant(cfg, always, w, k, s);
  }

  lemma {:induction false} InvariantHolds(cfg: Config, always: bool, k: Key, start: Option<KeeperRecord>,
                                          ws: seq<Sight>, n: nat)
    requires StartOk(cfg, k, start) && AllDerived(ws) && n <= |ws|
    ensures KeyInv(cfg, k, KeyAt(cfg, always, k, start, ws, n))
  {
    hide StepKey, Describes, Derived;
    if n > 0 {
      InvariantHolds(cfg, always, k, start, ws, n - 1);
      StepKeepsInvariant(cfg, always, ws[n - 1], k, KeyAt(cfg, always, k, start, ws, n - 1));
    }
  }

  // ---- write on change refines write always ----------------------------------------------

  ghost predicate SameRecord(a: Option<KeeperRecord>, b: Option<KeeperRecord>) {
    a.Some? == b.Some? &&
    (a.Some? ==> a.value == b.value.(metadata :=
                 b.value.metadata.(liveEntryAvailable := a.value.metadata.liveEntryAvailable)))
  }

  ghost predicate Agree(s: KeyState, t: KeyState) {
    s.life == t.life && s.retired == t.retired && SameRecord(s.record, t.record)
  }

  lemma WriteRefines(cfg: Config, k: Key, life: Lifecycle, r: Option<KeeperRecord>, q: Option<KeeperRecord>,
                     snap: Snapshot, outcome: JobOutcome)
    requires Derived(snap) && SameRecord(r, q)
    requires life.signature.Some? ==> r.Some? && Describes(cfg, k, life.signature.value, r.value)
    ensures Agree(WriteSnapshot(cfg, false, k, life, r, snap, outcome),
                  WriteSnapshot(cfg, true, k, life, q, snap, outcome))
  {
  }

  lemma DisappearanceRefines(cfg: Config, k: Key, s: KeyState, t: KeyState)
    requires Agree(s, t) && s.life.Some?
    ensures Agree(Disappeared(cfg, k, s), Disappeared(cfg, k, t))
  {
  }

  lemma AbsentRefines(cfg: Config, w: Sight, k: Key, s: KeyState, t: KeyState)
    requires Agree(s, t)
    ensures Agree(StepAbsent(cfg, w, k, s), StepAbsent(cfg, w, k, t))
  {
    hide Disappeared, SameRecord;
    var life := Some(s.life.GetOr(NEW_LIFECYCLE).(missingSince := Some(w.now)));
    NothingRefines();
    DisappearanceRefines(cfg, k, s.(life := life), t.(life := life));
  }

  lemma NothingRefines()
    ensures SameRecord(None, None)
  {
  }

  lemma StepRefines(cfg: Config, w: Sight, k: Key, s: KeyState, t: KeyState)
    requires KeyInv(cfg, k, s) && Derived(w.snap) && Agree(s, t)
    ensures Agree(StepKey(cfg, false, w, k, s), StepKey(cfg, true, w, k, t))
  {
    hide WriteSnapshot, StepAbsent;
    AbsentRefines(cfg, w, k, s, t);
    var life := s.life.GetOr(NEW_LIFECYCLE).(missingSince := None);
    WriteRefines(cfg, k, life, s.record, t.record, w.snap, w.outcome);
    WriteRefines(cfg, k, life.(terminalSince := None), s.record, t.record, w.snap, w.outcome);
    WriteRefines(cfg, k, life.(terminalSince := Some(w.now)), s.record, t.record, w.snap, w.outcome);
  }

  /** After every tick of every run the store that is written only on a change of signature holds
      the same records, in every field but `live_entry_available`, as a store that is written on
      every observation; and both supervisors remember the same. */
  lemma {:induction false} WriteOnChangeRefinesWriteAlways(cfg: Config, k: Key, start: Option<KeeperRecord>,
                                                           ws: seq<Sight>, n: nat)
    requires StartOk(cfg, k, start) && AllDerived(ws) && n <= |ws|
    ensures Agree(KeyAt(cfg, false, k, start, ws, n), KeyAt(cfg, true, k, start, ws, n))
  {
    hide StepKey, KeyInv, Describes, Derived;
    if n > 0 {
      WriteOnChangeRefinesWriteAlways(cfg, k, start, ws, n - 1);
      InvariantHolds(cfg, false, k, start, ws, n - 1);
      StepRefines(cfg, ws[n - 1], k, KeyAt(cfg, false, k, start, ws, n - 1), KeyAt(cfg, true, k, start, ws, n - 1));
    }
  }

  // ---- vocabulary of histories ------------------------------------------------------------

  /** The session was looked at and found at tick `j`. */
  ghost predicate FoundAt(cfg: Config, k: Key, start: Option<KeeperRecord>, ws: seq<Sight>, j: nat)
    requires j < |ws|
  {
    Candidate(ws[j], KeyAt(cfg, false, k, start, ws, j)) && !ws[j].Absent()
  }

  ghost predicate TerminalAt(cfg: Config, k: Key, start: Option<KeeperRecord>, ws: seq<Sight>, j: nat)
    requires j < |ws|
  {
    FoundAt(cfg, k, start, ws, j) && ws[j].snap.terminal
  }

  ghost predicate NonTerminalAt(cfg: Config, k: Key, start: Option<KeeperRecord>, ws: seq<Sight>, j: nat)
    requires j < |ws|
  {
    FoundAt(cfg, k, start, ws, j) && !ws[j].snap.terminal
  }

  /** The clock does not run backwards. */
  ghost predicate Monotone(ws: seq<Sight>) {
    forall i, j | 0 <= i <= j < |ws| :: ws[i].now <= ws[j].now
  }

  /** Absent at every tick from `i` to `n`, with a successful discovery behind both ends. */
  ghost predicate AbsentSince(ws: seq<Sight>, i: nat, n: nat)
    requires i < |ws| && n < |ws|
  {
    && i <= n && ws[i].authoritative && ws[n].authoritative
    && forall j | i <= j <= n :: ws[j].Absent()
  }

  /** The session had been absent, by the word of a successful discovery, for a grace period. */
  ghost predicate DisappearanceEvidence(cfg: Config, ws: seq<Sight>, n: nat)
    requires n < |ws|
  {
    exists i: nat | i < n :: ws[n].now - ws[i].now >= cfg.disappearanceGrace && AbsentSince(ws, i, n)
  }

  /** Terminal at both ends and never found in another state in between. */
  ghost predicate TerminalSince(cfg: Config, k: Key, start: Option<KeeperRecord>, ws: seq<Sight>, i: nat, n: nat)
    requires i < |ws| && n < |ws|
  {
    && i <= n && TerminalAt(cfg, k, start, ws, i) && TerminalAt(cfg, k, start, ws, n)
    && forall j | i <= j <= n :: !NonTerminalAt(cfg, k, start, ws, j)
  }

  ghost predicate TerminalEvidence(cfg: Config, k: Key, start: Option<KeeperRecord>, ws: seq<Sight>, n: nat)
    requires n < |ws|
  {
    exists i: nat | i < n :: ws[n].now - ws[i].now >= cfg.terminalGrace && TerminalSince(cfg, k, start, ws, i, n)
  }

  // ---- the two timers ---------------------------------------------------------------------

  /** A timer that only a start sets and that a break clears was started at some earlier tick, at
      the time it shows, with no break since. */
  lemma {:induction false} TimerWitness(timer: seq<Option<real>>, starts: seq<bool>, breaks: seq<bool>,
                                        now: seq<real>, n: nat)
    returns (i: nat)
    requires n < |timer| == |now| + 1 == |starts| + 1 == |breaks| + 1
    requires timer[0].None? && timer[n].Some?
    requires forall j | 0 <= j < |now| && timer[j + 1].Some? ::
               !breaks[j] && (timer[j] == timer[j + 1] || (starts[j] && timer[j + 1] == Some(now[j])))
    ensures i < n && starts[i] && Some(now[i]) == timer[n] && forall j | i <= j < n :: !breaks[j]
  {
    if timer[n - 1] == timer[n] {
      i := TimerWitness(timer, starts, breaks, now, n - 1);
    } else {
      i := n - 1;
    }
  }

  ghost function LifeAt(cfg: Config, k: Key, start: Option<KeeperRecord>, ws: seq<Sight>, n: nat): Lifecycle
    requires n <= |ws|
  {
    KeyAt(cfg, false, k, start, ws, n).life.GetOr(NEW_LIFECYCLE)
  }

  lemma MissingSinceStep(cfg: Config, w: Sight, k: Key, s: KeyState)
    requires StepKey(cfg, false, w, k, s).life.GetOr(NEW_LIFECYCLE).missingSince.Some?
    ensures w.Absent() || !Candidate(w, s)
    ensures var before, after := s.life.GetOr(NEW_LIFECYCLE), StepKey(cfg, false, w, k, s).life.GetOr(NEW_LIFECYCLE);
            before.missingSince == after.missingSince ||
            (w.authoritative && w.Absent() && after.missingSince == Some(w.now))
  {
  }

  lemma MissingSinceWitness(cfg: Config, k: Key, start: Option<KeeperRecord>, ws: seq<Sight>, n: nat) returns (i: nat)
    requires n <= |ws| && LifeAt(cfg, k, start, ws, n).missingSince.Some?
    ensures i < n && Some(ws[i].now) == LifeAt(cfg, k, start, ws, n).missingSince
    ensures ws[i].authoritative && forall j | i <= j < n :: ws[j].Absent()
  {
    hide StepKey;
    var timer := seq(|ws| + 1, j requires 0 <= j <= |ws| => LifeAt(cfg, k, start, ws, j).missingSince);
    var starts := seq(|ws|, j requires 0 <= j < |ws| => ws[j].authoritative && ws[j].Absent());
    var breaks := seq(|ws|, j requires 0 <= j < |ws| => !ws[j].Absent());
    var now := seq(|ws|, j requires 0 <= j < |ws| => ws[j].now);
    forall j | 0 <= j < |ws| && timer[j + 1].Some?
      ensures !breaks[j] && (timer[j] == timer[j + 1] || (starts[j] && timer[j + 1] == Some(now[j])))
    {
      MissingSinceStep(cfg, ws[j], k, KeyAt(cfg, false, k, start, ws, j));
    }
    i := TimerWitness(timer, starts, breaks, now, n);
    assert forall j | i <= j < n :: breaks[j] == !ws[j].Absent();
  }

  lemma TerminalSinceStep(cfg: Config, w: Sight, k: Key, s: KeyState)
    requires StepKey(cfg, false, w, k, s).life.GetOr(NEW_LIFECYCLE).terminalSince.Some?
    ensures !Candidate(w, s) || w.Absent() || w.snap.terminal
    ensures var before, after := s.life.GetOr(NEW_LIFECYCLE), StepKey(cfg, false, w, k, s).life.GetOr(NEW_LIFECYCLE);
            before.terminalSince == after.terminalSince ||
            (Candidate(w, s) && !w.Absent() && w.snap.terminal && after.terminalSince == Some(w.now))
  {
  }

  lemma TerminalSinceWitness(cfg: Config, k: Key, start: Option<KeeperRecord>, ws: seq<Sight>, n: nat) returns (i: nat)
    requires n <= |ws| && LifeAt(cfg, k, start, ws, n).terminalSince.Some?
    ensures i < n && Some(ws[i].now) == LifeAt(cfg, k, start, ws, n).terminalSince
    ensures TerminalAt(cfg, k, start, ws, i) && forall j | i <= j < n :: !NonTerminalAt(cfg, k, start, ws, j)
  {
    hide StepKey;
    var timer := seq(|ws| + 1, j requires 0 <= j <= |ws| => LifeAt(cfg, k, start, ws, j).terminalSince);
    var starts := seq(|ws|, j requires 0 <= j < |ws| => TerminalAt(cfg, k, start, ws, j));
    var breaks := seq(|ws|, j requires 0 <= j < |ws| => NonTerminalAt(cfg, k, start, ws, j));
    var now := seq(|ws|, j requires 0 <= j < |ws| => ws[j].now);
    forall j | 0 <= j < |ws| && timer[j + 1].Some?
      ensures !breaks[j] && (timer[j] == timer[j + 1] || (starts[j] && timer[j + 1] == Some(now[j])))
    {
      TerminalSinceStep(cfg, ws[j], k, KeyAt(cfg, false, k, start, ws, j));
    }
    i := TimerWitness(timer, starts, breaks, now, n);
    assert forall j | i <= j < n :: breaks[j] == NonTerminalAt(cfg, k, start, ws, j);
  }

  // ---- removal needs evidence ---------------------------------------------------------------

  lemma GoneMeansExpired(cfg: Config, w: Sight, k: Key, s: KeyState)
    requires s.record.Some? && StepKey(cfg, false, w, k, s).record.None?
    ensures Candidate(w, s)
    ensures var life := s.life.GetOr(NEW_LIFECYCLE);
            if w.Absent() then
              w.authoritative && life.missingSince.Some? && w.now - life.missingSince.value >= cfg.disappearanceGrace
            else
              w.snap.terminal && life.terminalSince.Some? && w.now - life.terminalSince.value >= cfg.terminalGrace
  {
  }

  /** Safety of removal, over whole runs: a record is taken away only with evidence. Either the
      session was absent for a grace period that began and ended under an authoritative discovery,
      or it was terminal for a grace period with nothing else seen in between. In particular a
      failed or malformed discovery never removes anything. */
  lemma RemovalNeedsEvidence(cfg: Config, k: Key, start: Option<KeeperRecord>, ws: seq<Sight>, n: nat)
    requires n < |ws|
    requires KeyAt(cfg, false, k, start, ws, n).record.Some?
    requires KeyAt(cfg, false, k, start, ws, n + 1).record.None?
    ensures if ws[n].Absent() then DisappearanceEvidence(cfg, ws, n) else TerminalEvidence(cfg, k, start, ws, n)
  {
    hide StepKey;
    GoneMeansExpired(cfg, ws[n], k, KeyAt(cfg, false, k, start, ws, n));
    if ws[n].Absent() {
      var i := MissingSinceWitness(cfg, k, start, ws, n);
      assert AbsentSince(ws, i, n);
    } else {
      var i := TerminalSinceWitness(cfg, k, start, ws, n);
      assert TerminalSince(cfg, k, start, ws, i, n);
    }
  }

  /** Ticks whose last discovery failed or was malformed neither mark nor remove an absent session,
      however many they are: its record and its timers stay as they are. */
  lemma {:induction false} FailedDiscoveriesProveNothing(cfg: Config, k: Key, start: Option<KeeperRecord>,
                                                         ws: seq<Sight>, m: nat, n: nat)
    requires m <= n <= |ws| && forall j | m <= j < n :: ws[j].Absent() && !ws[j].authoritative
    ensures var s, s' := KeyAt(cfg, false, k, start, ws, m), KeyAt(cfg, false, k, start, ws, n);
            && s'.record == s.record && s'.retired == s.retired
            && LifeAt(cfg, k, start, ws, n) == LifeAt(cfg, k, start, ws, m)
            && (s.life.Some? ==> s'.life.Some?)
  {
    if m < n {
      FailedDiscoveriesProveNothing(cfg, k, start, ws, m, n - 1);
    }
  }

  /** As long as a session counts as missing its record says that it has disappeared; and it only
      does since a tick at which it was absent under an authoritative discovery. */
  lemma {:induction false} MissingIsShown(cfg: Config, k: Key, start: Option<KeeperRecord>, ws: seq<Sight>, n: nat)
    requires StartOk(cfg, k, start) && AllDerived(ws) && n <= |ws|
    requires LifeAt(cfg, k, start, ws, n).missingSince.Some?
    ensures var r := KeyAt(cfg, false, k, start, ws, n).record;
            r.Some? ==> r.value.targetStatus == "disappeared" && r.value.loaded == Some(false)
    ensures exists i: nat :: i < n && Some(ws[i].now) == LifeAt(cfg, k, start, ws, n).missingSince
                             && ws[i].authoritative && forall j | i <= j < n :: ws[j].Absent()
  {
    InvariantHolds(cfg, false, k, start, ws, n);
    var i := MissingSinceWitness(cfg, k, start, ws, n);
  }

  /** What a record says about a session apart from its state. */
  ghost predicate SameIdentity(r: KeeperRecord, q: KeeperRecord) {
    && FileOf(r) == FileOf(q) && r.displayName == q.displayName
    && r.lastActivityAt == q.lastActivityAt && r.lastEventAt == q.lastEventAt && r.idleSince == q.idleSince
    && r.metadata.sessionId == q.metadata.sessionId && r.metadata.cwd == q.metadata.cwd
    && r.metadata.liveStatus == q.metadata.liveStatus && r.metadata.stateOutcome == q.metadata.stateOutcome
    && r.metadata.rootFingerprint == q.metadata.rootFingerprint
  }

  /** While a session is absent its record, as long as it is there, keeps saying who the session was. */
  lemma {:induction false} AbsenceKeepsIdentity(cfg: Config, k: Key, start: Option<KeeperRecord>,
                                                ws: seq<Sight>, m: nat, n: nat)
    requires m <= n <= |ws| && forall j | m <= j < n :: ws[j].Absent()
    requires KeyAt(cfg, false, k, start, ws, n).record.Some?
    ensures KeyAt(cfg, false, k, start, ws, m).record.Some?
    ensures SameIdentity(KeyAt(cfg, false, k, start, ws, n).record.value,
                         KeyAt(cfg, false, k, start, ws, m).record.value)
  {
    if m < n {
      AbsenceKeepsIdentity(cfg, k, start, ws, m, n - 1);
    }
  }

  /** At how many of the ticks from `m` to `n` the record changed. */
  ghost function Changes(cfg: Config, k: Key, start: Option<KeeperRecord>, ws: seq<Sight>, m: nat, n: nat): nat
    requires m <= n <= |ws|
  {
    if m == n then 0
    else
      var r, q := KeyAt(cfg, false, k, start, ws, n - 1).record, KeyAt(cfg, false, k, start, ws, n).record;
      Changes(cfg, k, start, ws, m, n - 1) + if r != q then 1 else 0
  }

  lemma WriteIsCounted(cfg: Config, k: Key, life: Lifecycle, record: Option<KeeperRecord>, snap: Snapshot,
                       outcome: JobOutcome)
    requires life.signature.Some? ==> record.Some?
    ensures var q := WriteSnapshot(cfg, false, k, life, record, snap, outcome).record;
            && q.Some?
            && q.value.eventCount ==
               if record.None? then 1 else record.value.eventCount + (if record.value != q.value then 1 else 0)
  {
  }

  lemma ChangeIsCounted(cfg: Config, w: Sight, k: Key, s: KeyState)
    requires KeyInv(cfg, k, s) && StepKey(cfg, false, w, k, s).record.Some?
    ensures var r, q := s.record, StepKey(cfg, false, w, k, s).record.value;
            q.eventCount == if r.None? then 1 else r.value.eventCount + (if r.value != q then 1 else 0)
  {
    hide WriteSnapshot, Describes;
    var life := s.life.GetOr(NEW_LIFECYCLE).(missingSince := None);
    WriteIsCounted(cfg, k, life, s.record, w.snap, w.outcome);
    WriteIsCounted(cfg, k, life.(terminalSince := None), s.record, w.snap, w.outcome);
    WriteIsCounted(cfg, k, life.(terminalSince := Some(w.now)), s.record, w.snap, w.outcome);
  }

  /** The event counter of a record counts its changes: it starts at 1 when the record is made, and as long
      as the record is there it grows by one with each of them. */
  lemma {:induction false} ChangesAreCounted(cfg: Config, k: Key, start: Option<KeeperRecord>,
                                             ws: seq<Sight>, m: nat, n: nat)
    requires StartOk(cfg, k, start) && AllDerived(ws)
    requires m <= n <= |ws| && forall j | m <= j <= n :: KeyAt(cfg, false, k, start, ws, j).record.Some?
    ensures KeyAt(cfg, false, k, start, ws, n).record.value.eventCount
         == KeyAt(cfg, false, k, start, ws, m).record.value.eventCount + Changes(cfg, k, start, ws, m, n)
    ensures m > 0 && KeyAt(cfg, false, k, start, ws, m - 1).record.None? ==>
              KeyAt(cfg, false, k, start, ws, m).record.value.eventCount == 1
  {
    hide StepKey, KeyInv;
    assert KeyAt(cfg, false, k, start, ws, m).record.Some? && KeyAt(cfg, false, k, start, ws, n).record.Some?;
    if m > 0 {
      InvariantHolds(cfg, false, k, start, ws, m - 1);
      ChangeIsCounted(cfg, ws[m - 1], k, KeyAt(cfg, false, k, start, ws, m - 1));
    }
    if m < n {
      ChangesAreCounted(cfg, k, start, ws, m, n - 1);
      InvariantHolds(cfg, false, k, start, ws, n - 1);
      ChangeIsCounted(cfg, ws[n - 1], k, KeyAt(cfg, false, k, start, ws, n - 1));
    }
  }

  // ---- removal does happen ------------------------------------------------------------------

  /** No record left to remove, or a removal that is under way since `t` at the latest. */
  ghost predicate MissingBy(s: KeyState, t: real) {
    || s.record.None?
    || (s.life.Some? && s.life.value.missingSince.Some? && s.life.value.missingSince.value <= t)
  }

  lemma {:induction false} StillMissing(cfg: Config, k: Key, start: Option<KeeperRecord>,
                                        ws: seq<Sight>, i: nat, n: nat)
    requires i < n <= |ws| && Monotone(ws)
    requires KeyAt(cfg, false, k, start, ws, i).life.Some?
    requires ws[i].authoritative && forall j | i <= j < n :: ws[j].Absent()
    ensures MissingBy(KeyAt(cfg, false, k, start, ws, n), ws[i].now)
  {
    if n == i + 1 {
      if LifeAt(cfg, k, start, ws, i).missingSince.Some? {
        var w := MissingSinceWitness(cfg, k, start, ws, i);
      }
    } else {
      StillMissing(cfg, k, start, ws, i, n - 1);
    }
  }

  /** The other half for absent sessions: once a known session has been absent for the grace period
      and the discovery is authoritative at both ends, its record is gone. */
  lemma AbsentSessionIsRemoved(cfg: Config, k: Key, start: Option<KeeperRecord>, ws: seq<Sight>, i: nat, n: nat)
    requires i < n < |ws| && Monotone(ws)
    requires KeyAt(cfg, false, k, start, ws, i).life.Some?
    requires AbsentSince(ws, i, n) && ws[n].now - ws[i].now >= cfg.disappearanceGrace
    ensures KeyAt(cfg, false, k, start, ws, n + 1).record.None?
  {
    StillMissing(cfg, k, start, ws, i, n);
  }

  /** Retired, or on the way there since `t` at the latest. */
  ghost predicate TerminalBy(s: KeyState, t: real) {
    || s.retired
    || (s.life.Some? && s.life.value.terminalSince.Some? && s.life.value.terminalSince.value <= t)
  }

  /** Neither forgotten nor unknown. */
  ghost predicate Followed(s: KeyState) {
    s.life.Some? || s.retired
  }

  lemma TerminalStep(cfg: Config, w: Sight, k: Key, s: KeyState, t: real)
    requires TerminalBy(s, t) && !(Candidate(w, s) && !w.Absent() && !w.snap.terminal)
    requires Followed(StepKey(cfg, false, w, k, s))
    ensures TerminalBy(StepKey(cfg, false, w, k, s), t)
  {
    hide WriteSnapshot;
    TerminalWrite(cfg, w, k, s);
  }

  lemma TerminalWrite(cfg: Config, w: Sight, k: Key, s: KeyState)
    ensures forall life: Lifecycle :: WriteSnapshot(cfg, false, k, life, s.record, w.snap, w.outcome).life
                                      == Some(life.(signature := Some(SignatureOf(cfg, w.snap, w.outcome))))
  {
  }

  lemma {:induction false} StillTerminal(cfg: Config, k: Key, start: Option<KeeperRecord>,
                                         ws: seq<Sight>, i: nat, n: nat)
    requires i < n <= |ws| && Monotone(ws) && TerminalAt(cfg, k, start, ws, i)
    requires forall j | i <= j < n :: !NonTerminalAt(cfg, k, start, ws, j)
    requires forall j | i < j <= n :: Followed(KeyAt(cfg, false, k, start, ws, j))
    ensures TerminalBy(KeyAt(cfg, false, k, start, ws, n), ws[i].now)
  {
    if n == i + 1 {
      if LifeAt(cfg, k, start, ws, i).terminalSince.Some? {
        var w := TerminalSinceWitness(cfg, k, start, ws, i);
      }
    } else {
      hide StepKey;
      StillTerminal(cfg, k, start, ws, i, n - 1);
      assert !NonTerminalAt(cfg, k, start, ws, n - 1) && Followed(KeyAt(cfg, false, k, start, ws, n));
      TerminalStep(cfg, ws[n - 1], k, KeyAt(cfg, false, k, start, ws, n - 1), ws[i].now);
    }
  }

  lemma LostByAbsence(cfg: Config, w: Sight, k: Key, s: KeyState)
    requires Followed(s) && !Followed(StepKey(cfg, false, w, k, s))
    ensures w.Absent() && w.authoritative
    ensures var since := s.life.GetOr(NEW_LIFECYCLE).missingSince;
            since.Some? && w.now - since.value >= cfg.disappearanceGrace
  {
    hide WriteSnapshot;
    TerminalWrite(cfg, w, k, s);
  }

  /** Without evidence that it disappeared a session that was found is followed. */
  lemma {:induction false} StillFollowed(cfg: Config, k: Key, start: Option<KeeperRecord>,
                                         ws: seq<Sight>, i: nat, n: nat)
    requires i < n <= |ws| && FoundAt(cfg, k, start, ws, i)
    requires forall j | i < j < n :: !DisappearanceEvidence(cfg, ws, j)
    ensures Followed(KeyAt(cfg, false, k, start, ws, n))
  {
    hide StepKey;
    var s, w := KeyAt(cfg, false, k, start, ws, n - 1), ws[n - 1];
    if n == i + 1 {
      FoundIsFollowed(cfg, w, k, s);
    } else {
      StillFollowed(cfg, k, start, ws, i, n - 1);
      if !Followed(StepKey(cfg, false, w, k, s)) {
        LostByAbsence(cfg, w, k, s);
        var m := MissingSinceWitness(cfg, k, start, ws, n - 1);
        EvidenceFrom(cfg, ws, m, n - 1);
        assert false;
      }
    }
  }

  lemma EvidenceFrom(cfg: Config, ws: seq<Sight>, m: nat, n: nat)
    requires m < n < |ws| && AbsentSince(ws, m, n) && ws[n].now - ws[m].now >= cfg.disappearanceGrace
    ensures DisappearanceEvidence(cfg, ws, n)
  {
  }

  lemma FoundIsFollowed(cfg: Config, w: Sight, k: Key, s: KeyState)
    requires Candidate(w, s) && !w.Absent()
    ensures Followed(StepKey(cfg, false, w, k, s))
  {
  }

  /** The other half for terminal sessions: found terminal at both ends of a grace period, never in
      another state in between and at no tick in between absent for a disappearance grace period, a session
      is retired and has no record. It may have been absent at any of the ticks in between. */
  lemma TerminalSessionIsRetired(cfg: Config, k: Key, start: Option<KeeperRecord>, ws: seq<Sight>, i: nat, n: nat)
    requires StartOk(cfg, k, start) && AllDerived(ws) && Monotone(ws)
    requires i < n < |ws| && TerminalSince(cfg, k, start, ws, i, n)
    requires forall j | i < j < n :: !DisappearanceEvidence(cfg, ws, j)
    requires ws[n].now - ws[i].now >= cfg.terminalGrace
    ensures var s := KeyAt(cfg, false, k, start, ws, n + 1);
            s.retired && s.record.None?
  {
    forall j | i < j <= n ensures Followed(KeyAt(cfg, false, k, start, ws, j)) {
      StillFollowed(cfg, k, start, ws, i, j);
    }
    StillTerminal(cfg, k, start, ws, i, n);
    InvariantHolds(cfg, false, k, start, ws, n);
  }

  // ---- retirement -----------------------------------------------------------------------------

  lemma RetirementStep(cfg: Config, w: Sight, k: Key, s: KeyState)
    requires !s.retired && StepKey(cfg, false, w, k, s).retired
    ensures Candidate(w, s) && !w.Absent() && w.snap.terminal
    ensures var since := s.life.GetOr(NEW_LIFECYCLE).terminalSince;
            since.Some? && w.now - since.value >= cfg.terminalGrace
    ensures StepKey(cfg, false, w, k, s).record.None?
  {
  }

  /** A session is only retired with evidence of a terminal grace period, and loses its record. */
  lemma RetirementNeedsEvidence(cfg: Config, k: Key, start: Option<KeeperRecord>, ws: seq<Sight>, n: nat)
    requires n < |ws|
    requires !KeyAt(cfg, false, k, start, ws, n).retired && KeyAt(cfg, false, k, start, ws, n + 1).retired
    ensures TerminalEvidence(cfg, k, start, ws, n)
    ensures KeyAt(cfg, false, k, start, ws, n + 1).record.None?
  {
    hide StepKey;
    RetirementStep(cfg, ws[n], k, KeyAt(cfg, false, k, start, ws, n));
    var i := TerminalSinceWitness(cfg, k, start, ws, n);
    assert TerminalSince(cfg, k, start, ws, i, n);
  }

  /** A retired session is not re-admitted by an unchanged file: it has no record at any later tick
      up to the first one at which it is found in a non-terminal state. */
  lemma {:induction false} RetiredStaysHidden(cfg: Config, k: Key, start: Option<KeeperRecord>,
                                              ws: seq<Sight>, m: nat, n: nat)
    requires StartOk(cfg, k, start) && AllDerived(ws) && m <= n <= |ws|
    requires KeyAt(cfg, false, k, start, ws, m).retired
    requires forall j | m <= j < n :: !NonTerminalAt(cfg, k, start, ws, j)
    ensures KeyAt(cfg, false, k, start, ws, n).retired && KeyAt(cfg, false, k, start, ws, n).record.None?
  {
    InvariantHolds(cfg, false, k, start, ws, n);
    if m < n {
      RetiredStaysHidden(cfg, k, start, ws, m, n - 1);
      assert !NonTerminalAt(cfg, k, start, ws, n - 1);
    }
  }

  /** Every sighting shows on the same tick: the stored record describes this tick's snapshot,
      unless the session is retired. A non-terminal sighting ends a retirement, so it always shows. */
  lemma SightingIsShown(cfg: Config, k: Key, start: Option<KeeperRecord>, ws: seq<Sight>, n: nat)
    requires StartOk(cfg, k, start) && AllDerived(ws)
    requires n < |ws| && FoundAt(cfg, k, start, ws, n)
    ensures var s' := KeyAt(cfg, false, k, start, ws, n + 1);
            && s'.record.Some? == !s'.retired
            && (!ws[n].snap.terminal ==>
                  !s'.retired && s'.life.Some? && s'.life.value.missingSince.None? && s'.life.value.terminalSince.None?)
            && (!s'.retired ==> Describes(cfg, k, SignatureOf(cfg, ws[n].snap, ws[n].outcome), s'.record.value))
  {
    InvariantHolds(cfg, false, k, start, ws, n);
    PresentKeepsInvariant(cfg, false, ws[n], k, KeyAt(cfg, false, k, start, ws, n));
  }

  // ---- the one field that can be stale ---------------------------------------------------------

  ghost function SigAt(cfg: Config, ws: seq<Sight>, j: nat): Signature
    requires j < |ws|
  {
    SignatureOf(cfg, ws[j].snap, ws[j].outcome)
  }

  /** From `i` to `n` every sighting has the signature that the one at `n` has, and no successful
      discovery says meanwhile that the session is gone. */
  ghost predicate Unbroken(cfg: Config, k: Key, start: Option<KeeperRecord>, ws: seq<Sight>, i: nat, n: nat)
    requires i <= n < |ws|
  {
    FoundAt(cfg, k, start, ws, i) && forall j | i <= j <= n :: Continues(cfg, k, start, ws, j, SigAt(cfg, ws, n))
  }

  ghost predicate Continues(cfg: Config, k: Key, start: Option<KeeperRecord>, ws: seq<Sight>, j: nat, sig: Signature)
    requires j < |ws|
  {
    (FoundAt(cfg, k, start, ws, j) ==> SigAt(cfg, ws, j) == sig) && (ws[j].Absent() ==> !ws[j].authoritative)
  }

  /** The first sighting of the unbroken series that ends at `n`. */
  ghost function FirstOfSeries(cfg: Config, k: Key, start: Option<KeeperRecord>,
                               ws: seq<Sight>, n: nat, from: nat): (i: nat)
    requires from <= n < |ws| && FoundAt(cfg, k, start, ws, n)
    requires forall h | 0 <= h < from :: !Unbroken(cfg, k, start, ws, h, n)
    ensures i <= n && Unbroken(cfg, k, start, ws, i, n)
    ensures forall h | 0 <= h < i :: !Unbroken(cfg, k, start, ws, h, n)
    decreases n - from
  {
    if from == n || Unbroken(cfg, k, start, ws, from, n) then from else FirstOfSeries(cfg, k, start, ws, n, from + 1)
  }

  lemma SignatureStep(cfg: Config, w: Sight, k: Key, s: KeyState, sig: Signature)
    requires KeyInv(cfg, k, s) && sig.Seen?
    requires StepKey(cfg, false, w, k, s).life.GetOr(NEW_LIFECYCLE).signature == Some(sig)
    ensures if Candidate(w, s) && !w.Absent() then sig == SignatureOf(cfg, w.snap, w.outcome)
            else s.life.GetOr(NEW_LIFECYCLE).signature == Some(sig) && (w.Absent() ==> !w.authoritative)
  {
  }

  /** A remembered signature is that of a sighting, and the series of sightings with it is unbroken. */
  lemma {:induction false} SignatureWitness(cfg: Config, k: Key, start: Option<KeeperRecord>,
                                            ws: seq<Sight>, n: nat, sig: Signature)
    returns (h: nat)
    requires StartOk(cfg, k, start) && AllDerived(ws) && n <= |ws| && sig.Seen?
    requires LifeAt(cfg, k, start, ws, n).signature == Some(sig)
    ensures h < n && FoundAt(cfg, k, start, ws, h) && forall j | h <= j < n :: Continues(cfg, k, start, ws, j, sig)
  {
    hide StepKey, KeyInv;
    var s := KeyAt(cfg, false, k, start, ws, n - 1);
    InvariantHolds(cfg, false, k, start, ws, n - 1);
    SignatureStep(cfg, ws[n - 1], k, s, sig);
    if FoundAt(cfg, k, start, ws, n - 1) {
      h := n - 1;
    } else {
      h := SignatureWitness(cfg, k, start, ws, n - 1, sig);
    }
  }

  /** The record as the save at the beginning of the series left it. */
  ghost predicate KeptSince(s: KeyState, sig: Signature, flag: bool) {
    || (s.retired && sig.Seen? && sig.terminal)
    || (s.life.Some? && s.life.value.signature == Some(sig) && s.record.Some?
        && s.record.value.metadata.liveEntryAvailable == flag)
  }

  lemma SeriesStart(cfg: Config, w: Sight, k: Key, s: KeyState)
    requires KeyInv(cfg, k, s) && Derived(w.snap) && Candidate(w, s) && !w.Absent()
    requires s.life.GetOr(NEW_LIFECYCLE).signature != Some(SignatureOf(cfg, w.snap, w.outcome))
    ensures KeptSince(StepKey(cfg, false, w, k, s), SignatureOf(cfg, w.snap, w.outcome), w.snap.liveEntryAvailable)
  {
  }

  lemma SeriesStep(cfg: Config, w: Sight, k: Key, s: KeyState, sig: Signature, flag: bool)
    requires KeyInv(cfg, k, s) && Derived(w.snap) && KeptSince(s, sig, flag) && sig.Seen?
    requires Candidate(w, s) && !w.Absent() ==> SignatureOf(cfg, w.snap, w.outcome) == sig
    requires w.Absent() ==> !w.authoritative
    ensures KeptSince(StepKey(cfg, false, w, k, s), sig, flag)
  {
  }

  lemma {:induction false} SeriesKeepsFlag(cfg: Config, k: Key, start: Option<KeeperRecord>,
                                           ws: seq<Sight>, i: nat, n: nat, sig: Signature)
    requires StartOk(cfg, k, start) && AllDerived(ws) && i < n <= |ws|
    requires FoundAt(cfg, k, start, ws, i) && sig == SigAt(cfg, ws, i)
    requires LifeAt(cfg, k, start, ws, i).signature != Some(sig)
    requires forall j | i <= j < n :: Continues(cfg, k, start, ws, j, sig)
    ensures KeptSince(KeyAt(cfg, false, k, start, ws, n), sig, ws[i].snap.liveEntryAvailable)
  {
    hide StepKey, KeyInv, KeptSince;
    var s := KeyAt(cfg, false, k, start, ws, n - 1);
    InvariantHolds(cfg, false, k, start, ws, n - 1);
    if n == i + 1 {
      SeriesStart(cfg, ws[i], k, s);
    } else {
      SeriesKeepsFlag(cfg, k, start, ws, i, n - 1, sig);
      assert Continues(cfg, k, start, ws, n - 1, sig);
      SeriesStep(cfg, ws[n - 1], k, s, sig, ws[i].snap.liveEntryAvailable);
    }
  }

  lemma LongerSeries(cfg: Config, k: Key, start: Option<KeeperRecord>, ws: seq<Sight>, h: nat, i: nat, n: nat)
    requires h <= i <= n < |ws| && FoundAt(cfg, k, start, ws, h) && Unbroken(cfg, k, start, ws, i, n)
    requires forall j | h <= j < i :: Continues(cfg, k, start, ws, j, SigAt(cfg, ws, n))
    ensures Unbroken(cfg, k, start, ws, h, n)
  {
  }

  /** What `live_entry_available` says after a sighting, in every run: what it was at the first
      sighting of the unbroken series that this one belongs to, because that one was saved and no later
      one was. */
  lemma LiveFlagIsOfFirstSighting(cfg: Config, k: Key, start: Option<KeeperRecord>, ws: seq<Sight>, n: nat)
    requires StartOk(cfg, k, start) && AllDerived(ws) && n < |ws| && FoundAt(cfg, k, start, ws, n)
    requires KeyAt(cfg, false, k, start, ws, n + 1).record.Some?
    ensures var i := FirstOfSeries(cfg, k, start, ws, n, 0);
            KeyAt(cfg, false, k, start, ws, n + 1).record.value.metadata.liveEntryAvailable
            == ws[i].snap.liveEntryAvailable
  {
    hide StepKey, KeyInv, KeyAt;
    var i, sig := FirstOfSeries(cfg, k, start, ws, n, 0), SigAt(cfg, ws, n);
    assert Continues(cfg, k, start, ws, i, sig);
    if LifeAt(cfg, k, start, ws, i).signature == Some(sig) {
      var h := SignatureWitness(cfg, k, start, ws, i, sig);
      LongerSeries(cfg, k, start, ws, h, i, n);
      assert false;
    }
    SeriesKeepsFlag(cfg, k, start, ws, i, n + 1, sig);
    InvariantHolds(cfg, false, k, start, ws, n + 1);
    assert KeyInv(cfg, k, KeyAt(cfg, false, k, start, ws, n + 1));
    RetiredHasNoRecord(cfg, k, KeyAt(cfg, false, k, start, ws, n + 1));
  }

  lemma RetiredHasNoRecord(cfg: Config, k: Key, s: KeyState)
    requires KeyInv(cfg, k, s) && s.record.Some?
    ensures !s.retired
  {
  }

  /** Exactly when a history leaves the flag of a session that its last tick found current: when the
      cache held an entry for the session at the first sighting of the series just if it holds one now. */
  lemma LiveFlagIsCurrentIff(cfg: Config, k: Key, files: Files, os: seq<Obs>)
    requires WellFiled(files) && os != []
    requires FoundAt(cfg, k, StartOf(cfg, k, files), Sights(cfg, k, os), |os| - 1)
    requires KeyAfter(cfg, k, files, os).record.Some?
    ensures var i := FirstOfSeries(cfg, k, StartOf(cfg, k, files), Sights(cfg, k, os), |os| - 1, 0);
            KeyAfter(cfg, k, files, os).record.value.metadata.liveEntryAvailable
            == (k.id in RootAfter(cfg, k.root, os).entries)
            <==> (k.id in RootAfter(cfg, k.root, os[..i + 1]).entries <==> k.id in RootAfter(cfg, k.root, os).entries)
  {
    hide StepKey, KeyAt, FirstOfSeries, RootAfter, FoundAt, StartOk, AllDerived, Sights, SightOf, StartOf;
    var start, ws, n := StartOf(cfg, k, files), Sights(cfg, k, os), |os| - 1;
    CleanedStoreIsOk(cfg, k, files);
    SightsAreDerived(cfg, k, os);
    LiveFlagIsOfFirstSighting(cfg, k, start, ws, n);
    var i := FirstOfSeries(cfg, k, start, ws, n, 0);
    SightAt(cfg, k, os, i);
    FlagOfSight(cfg, RootAfter(cfg, k.root, os[..i + 1]), os[i], k);
  }

  lemma FlagOfSight(cfg: Config, d: RootState, o: Obs, k: Key)
    ensures SightOf(cfg, d, o, k).snap.liveEntryAvailable == (k.id in d.entries)
  {
  }

  /** The directory an entry names does not matter: the job names one, or the entry none, or none that
      can be resolved, or the one that is taken without it. */
  predicate CwdIsIgnored(cfg: Config, root: string, entry: Payload, job: JobState) {
    var named := ValueAsStr(Some(entry), "cwd").GetOr("");
    || ValueAsStr(job.payload, "cwd").GetOr("") != ""
    || named == ""
    || cfg.host.resolvePath(named).None?
    || cfg.host.resolvePath(named).value == cfg.cwd.GetOr(root)
  }

  lemma CwdIsIgnoredIff(cfg: Config, root: string, entry: Payload, job: JobState)
    ensures EntryCwd(cfg, root, Some(entry), job) == EntryCwd(cfg, root, None, job)
            <==> CwdIsIgnored(cfg, root, entry, job)
  {
  }

  /** And exactly when the disappearance of an entry from the cache, or its appearance, does not end a
      series: the job file is readable, and the entry adds no status, no other session id and no other
      directory to what it says. */
  lemma SignatureIgnoresEntryIff(cfg: Config, with: RootState, without: RootState, o: Obs, u: Obs, k: Key)
    requires o.job(k) == u.job(k) && o.job(k).WellFormed() && o.job(k).Present()
    requires k.id in with.entries && k.id !in without.entries
    ensures var job, entry := o.job(k), with.entries[k.id];
            SignatureOf(cfg, SnapshotOf(cfg, with, o, k), job.outcome)
            == SignatureOf(cfg, SnapshotOf(cfg, without, u, k), job.outcome)
            <==> && job.outcome == Ok
                 && ValueAsStr(Some(entry), "status").None?
                 && OrElse(ValueAsStr(Some(entry), "sessionId"), ValueAsStr(job.payload, "sessionId"))
                    == ValueAsStr(job.payload, "sessionId")
                 && CwdIsIgnored(cfg, k.root, entry, job)
  {
    hide EntryCwd, CwdIsIgnored;
    CwdIsIgnoredIff(cfg, k.root, with.entries[k.id], o.job(k));
  }

  /** An idle job that the discovery lists, by its short id alone, the first time only. */
  ghost function FadingHistory(cfg: Config, k: Key): seq<Obs> {
    var job := JobState(Ok, Some(map["state" := JStr("idle"), "short_id" := JStr(k.id)]));
    var entry: Payload := map["shortSessionId" := JStr(k.id)];
    [Obs(0.0, _ => Discovery(Success, [entry]), _ => [k.id], _ => job),
     Obs(cfg.discoveryInterval, _ => Discovery(Empty, []), _ => [k.id], _ => job)]
  }

  lemma FadingRoots(cfg: Config, k: Key)
    requires Hex8(k.id)
    ensures var os := FadingHistory(cfg, k);
            && RootAfter(cfg, k.root, os[..1]).entries == map[k.id := map["shortSessionId" := JStr(k.id)]]
            && RootAfter(cfg, k.root, os).entries == map[]
  {
    var os := FadingHistory(cfg, k);
    var entry: Payload := map["shortSessionId" := JStr(k.id)];
    assert os[..1][..0] == [];
    assert EntryId(entry) == Some(k.id);
    assert EntriesById([entry][..0]) == map[];
    assert RootAfter(cfg, k.root, os[..1]) == Refresh(cfg, NEW_ROOT, 0.0, Discovery(Success, [entry]));
    assert EntriesById([]) == map[];
    assert RootAfter(cfg, k.root, os)
        == Refresh(cfg, RootAfter(cfg, k.root, os[..1]), cfg.discoveryInterval, Discovery(Empty, []));
  }

  /** A sighting that nothing but the entry tells apart from the one before. */
  ghost predicate OnlyEntryFades(cfg: Config, v: Sight, w: Sight) {
    && v.listed && w.listed && !v.Absent() && !w.Absent() && !v.snap.terminal && !w.snap.terminal
    && SignatureOf(cfg, v.snap, v.outcome) == SignatureOf(cfg, w.snap, w.outcome)
    && v.snap.liveEntryAvailable && !w.snap.liveEntryAvailable
  }

  lemma FadingSights(cfg: Config, k: Key)
    requires Hex8(k.id)
    ensures var ws := Sights(cfg, k, FadingHistory(cfg, k));
            |ws| == 2 && OnlyEntryFades(cfg, ws[0], ws[1])
  {
    hide RootAfter, Sights, SnapshotFromSources, EntryCwd, StatusFromPayload, SignatureOf;
    var os := FadingHistory(cfg, k);
    FadingRoots(cfg, k);
    SightAt(cfg, k, os, 0);
    SightAt(cfg, k, os, 1);
    assert os[..2] == os;
    var d, e := RootAfter(cfg, k.root, os[..1]), RootAfter(cfg, k.root, os);
    FadingPair(cfg, d, e, os[0], os[1], k);
  }

  lemma FadingPair(cfg: Config, d: RootState, e: RootState, o: Obs, u: Obs, k: Key)
    requires Hex8(k.id) && o == FadingHistory(cfg, k)[0] && u == FadingHistory(cfg, k)[1]
    requires d.entries == map[k.id := map["shortSessionId" := JStr(k.id)]] && e.entries == map[]
    ensures OnlyEntryFades(cfg, SightOf(cfg, d, o, k), SightOf(cfg, e, u, k))
  {
    hide EntryCwd, StatusFromPayload, SignatureOf;
    assert k.id in o.listing(k.root) && k.id in u.listing(k.root);
    assert LocalJobIds([k.id]) == {k.id};
    SignatureIgnoresEntryIff(cfg, d, e, o, u, k);
    TerminalIff(cfg.host, k.id, EntryCwd(cfg, k.root, None, u.job(k)), u.job(k), None);
    var entry := Some(d.entries[k.id]);
    TerminalIff(cfg.host, k.id, EntryCwd(cfg, k.root, entry, o.job(k)), o.job(k), entry);
    assert "idle" !in TERMINAL_STATES;
  }

  lemma TwoSightings(cfg: Config, k: Key, ws: seq<Sight>)
    requires |ws| == 2 && OnlyEntryFades(cfg, ws[0], ws[1])
    ensures var lazy, naive := KeyAt(cfg, false, k, None, ws, 2), KeyAt(cfg, true, k, None, ws, 2);
            && lazy.record.Some? && lazy.record.value.metadata.liveEntryAvailable
            && naive.record.Some? && !naive.record.value.metadata.liveEntryAvailable
  {
    hide SignatureOf;
    assert KeyAt(cfg, false, k, None, ws, 1) == StepKey(cfg, false, ws[0], k, KeyState(None, false, None));
    assert KeyAt(cfg, true, k, None, ws, 1) == StepKey(cfg, true, ws[0], k, KeyState(None, false, None));
  }

  /** So the flag can be stale: after this history the stored record says that a discovery entry is
      available, the cache holds none, and the naive store says so. */
  lemma LiveFlagCanBeStale(cfg: Config, k: Key)
    requires Hex8(k.id)
    ensures var os := FadingHistory(cfg, k);
            var lazy, naive := KeyAfter(cfg, k, map[], os), KeyAt(cfg, true, k, None, Sights(cfg, k, os), 2);
            && lazy.record.Some? && lazy.record.value.metadata.liveEntryAvailable
            && k.id !in RootAfter(cfg, k.root, os).entries
            && naive.record.Some? && !naive.record.value.metadata.liveEntryAvailable
  {
    hide RootAfter, Sights, OnlyEntryFades, KeyAt;
    FadingRoots(cfg, k);
    FadingSights(cfg, k);
    assert StartOf(cfg, k, map[]) == None;
    TwoSightings(cfg, k, Sights(cfg, k, FadingHistory(cfg, k)));
  }

  // ---- the same, said of histories of observations ----------------------------------------------

  /** A tick takes a session's record away only with the evidence of its whole history. */
  lemma TickRemovesOnlyWithEvidence(cfg: Config, k: Key, files: Files, os: seq<Obs>, o: Obs)
    requires KeyAfter(cfg, k, files, os).record.Some? && KeyAfter(cfg, k, files, os + [o]).record.None?
    ensures var ws, n := Sights(cfg, k, os + [o]), |os|;
            if ws[n].Absent() then DisappearanceEvidence(cfg, ws, n)
            else TerminalEvidence(cfg, k, StartOf(cfg, k, files), ws, n)
  {
    hide StepKey, SightOf, StartOf;
    assert (os + [o])[..|os|] == os;
    var ws, start := Sights(cfg, k, os), StartOf(cfg, k, files);
    var w := SightOf(cfg, RootAfter(cfg, k.root, os + [o]), o, k);
    assert Sights(cfg, k, os + [o]) == ws + [w];
    KeyAtPrefix(cfg, false, k, start, ws, [w], |os|);
    RemovalNeedsEvidence(cfg, k, start, ws + [w], |os|);
  }

  // ---- independence ---------------------------------------------------------------------------

  /** Two histories look the same from a root and one of its sessions. */
  ghost predicate AgreeOn(os: seq<Obs>, us: seq<Obs>, k: Key) {
    && |os| == |us|
    && forall i | 0 <= i < |os| ::
         && os[i].now == us[i].now
         && os[i].discover(k.root) == us[i].discover(k.root)
         && os[i].listing(k.root) == us[i].listing(k.root)
         && os[i].job(k) == us[i].job(k)
  }

  lemma SightIgnoresOthers(cfg: Config, roots: seq<string>, d: RootState, o: Obs, u: Obs, k: Key)
    requires o.now == u.now && o.listing(k.root) == u.listing(k.root) && o.job(k) == u.job(k)
    ensures SightOf(cfg, d, o, k) == SightOf(cfg.(roots := roots), d, u, k)
  {
  }

  lemma {:induction false} SightsIgnoreOthers(cfg: Config, roots: seq<string>, k: Key, os: seq<Obs>, us: seq<Obs>)
    requires AgreeOn(os, us, k)
    ensures RootAfter(cfg, k.root, os) == RootAfter(cfg.(roots := roots), k.root, us)
    ensures Sights(cfg, k, os) == Sights(cfg.(roots := roots), k, us)
  {
    var n := |os| - 1;
    if os != [] {
      SightsIgnoreOthers(cfg, roots, k, os[..n], us[..n]);
      SightIgnoresOthers(cfg, roots, RootAfter(cfg, k.root, os), os[n], us[n], k);
    }
  }

  lemma StepIgnoresRootList(cfg: Config, roots: seq<string>, w: Sight, k: Key, s: KeyState)
    ensures StepKey(cfg, false, w, k, s) == StepKey(cfg.(roots := roots), false, w, k, s)
  {
  }

  lemma {:induction false} RootListIsNotRead(cfg: Config, roots: seq<string>, k: Key, start: Option<KeeperRecord>,
                                             ws: seq<Sight>, n: nat)
    requires n <= |ws|
    ensures KeyAt(cfg, false, k, start, ws, n) == KeyAt(cfg.(roots := roots), false, k, start, ws, n)
  {
    if n > 0 {
      RootListIsNotRead(cfg, roots, k, start, ws, n - 1);
      StepIgnoresRootList(cfg, roots, ws[n - 1], k, KeyAt(cfg, false, k, start, ws, n - 1));
    }
  }

  /** What is stored and remembered about a session depends on nothing but the observations of its
      own root and job: a supervisor of any other list of roots, seeing the same of this root and
      anything of the others, has the same state of the session. */
  lemma NoInterference(cfg: Config, roots: seq<string>, k: Key, files: Files, os: seq<Obs>, us: seq<Obs>)
    requires AgreeOn(os, us, k)
    ensures KeyAfter(cfg, k, files, os) == KeyAfter(cfg.(roots := roots), k, files, us)
  {
    SightsIgnoreOthers(cfg, roots, k, os, us);
    RootListIsNotRead(cfg, roots, k, StartOf(cfg, k, files), Sights(cfg, k, os), |os|);
  }
}
