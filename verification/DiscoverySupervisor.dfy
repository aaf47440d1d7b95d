/** The Claude discovery supervisor (src/agent_keepalive/claude_supervisor.py). Every method is proved
    against the per-session specification, so that the state of the object after any number of ticks
    is the one the theorems of SupervisorRuns.dfy and SupervisorDiscovery.dfy are about. */
module DiscoverySupervisor {
  import opened Prelude
  import opened ClaudeProvider
  import opened ClaudePayloads
  import opened TargetPaths
  import opened RecordStore
  import opened SupervisorSpec
  import opened SupervisorRuns
  import opened SupervisorPayloads
  import opened SupervisorStore

  function KeyView(sessions: map<Key, Lifecycle>, retired: set<Key>, files: Files, cfg: Config, k: Key): KeyState {
    KeyState(Get(sessions, k), k in retired, Get(files, SessionFile(cfg, k)))
  }

  /** Some session is neither missing nor terminal. */
  predicate AnyActive(sessions: map<Key, Lifecycle>) {
    exists k | k in sessions :: sessions[k].missingSince.None? && sessions[k].terminalSince.None?
  }

  /** What becomes of a present session before its record is written, and whether it is to be. */
  function Admission(cfg: Config, now: real, terminal: bool, s: KeyState): (bool, KeyState)
    requires s.life.Some?
  {
    var life := s.life.value.(missingSince := None);
    var expired := life.terminalSince.Some? && now - life.terminalSince.value >= cfg.terminalGrace;
    if terminal && s.retired then (false, s.(life := None))
    else if terminal && expired then (false, KeyState(None, true, None))
    else
      var since := if !terminal then None else if life.terminalSince.None? then Some(now) else life.terminalSince;
      (true, KeyState(Some(life.(terminalSince := since)), false, s.record))
  }

  /** A session seen for the first time is treated as one with a new lifecycle. */
  lemma StepWithLifecycle(cfg: Config, w: Sight, k: Key, s: KeyState)
    requires Candidate(w, s)
    ensures var t := s.(life := Some(s.life.GetOr(NEW_LIFECYCLE)));
            StepKey(cfg, false, w, k, s)
            == if w.Absent() then StepAbsent(cfg, w, k, t) else StepPresent(cfg, false, w, k, t)
  {
    hide WriteSnapshot, Disappeared;
  }

  /** The files without those of the managed ones among the first `n` records. */
  ghost function Without(files: Files, stale: seq<KeeperRecord>, n: nat): Files
    requires n <= |stale|
  {
    if n == 0 then files
    else
      var earlier := Without(files, stale, n - 1);
      if stale[n - 1].metadata.managedBySupervisor then earlier - {FileOf(stale[n - 1])} else earlier
  }

  lemma {:induction false} WithoutHolds(files: Files, stale: seq<KeeperRecord>, n: nat, f: string)
    requires n <= |stale|
    ensures Get(Without(files, stale, n), f)
         == if exists i | 0 <= i < n :: FileOf(stale[i]) == f && stale[i].metadata.managedBySupervisor then None
            else Get(files, f)
  {
    hide FileOf;
    if n > 0 {
      WithoutHolds(files, stale, n - 1, f);
    }
  }

  /** The records of the provider. */
  ghost predicate Listed(files: Files, stale: seq<KeeperRecord>) {
    forall r :: r in stale <==> Get(files, FileOf(r)) == Some(r) && r.provider == CLAUDE
  }

  lemma CleanedAt(files: Files, stale: seq<KeeperRecord>, f: string)
    requires WellFiled(files) && Listed(files, stale)
    ensures Get(Without(files, stale, |stale|), f) == Get(Cleaned(files), f)
  {
    hide Without, FileName;
    WithoutHolds(files, stale, |stale|, f);
    if f in files && files[f].provider == CLAUDE {
      assert f == FileOf(files[f]) && files[f] in stale;
    }
    forall i | 0 <= i < |stale| && FileOf(stale[i]) == f
      ensures Get(files, f) == Some(stale[i]) && stale[i].provider == CLAUDE
    {
      assert stale[i] in stale;
    }
  }

  lemma WithoutIsCleaned(files: Files, stale: seq<KeeperRecord>)
    requires WellFiled(files) && Listed(files, stale)
    ensures Without(files, stale, |stale|) == Cleaned(files)
  {
    hide Without, Cleaned, Listed, WellFiled;
    var without, cleaned := Without(files, stale, |stale|), Cleaned(files);
    forall f ensures Get(without, f) == Get(cleaned, f) {
      CleanedAt(files, stale, f);
    }
    SameFiles(without, cleaned);
  }

  lemma SameFiles(a: Files, b: Files)
    requires forall f :: Get(a, f) == Get(b, f)
    ensures a == b
  {
    forall f ensures f in a <==> f in b {
      assert Get(a, f) == Get(b, f);
    }
    forall f | f in a ensures a[f] == b[f] {
      assert Get(a, f) == Get(b, f);
    }
  }

  /** What the constructor keeps holds no managed record. */
  lemma CleanedIsAccounted(cfg: Config, k: Key, files: Files)
    requires WellFiled(files)
    ensures Accounted(KeyState(None, false, Get(Cleaned(files), SessionFile(cfg, k))))
  {
    CleanedStoreIsOk(cfg, k, files);
  }

  /** It holds all the others. */
  lemma CleanedIs(files: Files)
    ensures forall f :: f in Cleaned(files) <==> f in files && !ManagedClaude(files[f])
  {
  }

  lemma CleanedIsUnmanaged(cfg: Config, files: Files)
    ensures ManagedInSessionFiles(cfg, Cleaned(files))
  {
  }

  /** What creating a supervisor comes to. */
  datatype Creation = NoRoots | CreationRaised | Created(supervisor: ClaudeDiscoverySupervisor)

  class ClaudeDiscoverySupervisor {
    const cfg: Config
    const store: StateStore
    var lastDiscoveryAt: map<string, real>
    var discoveryEntries: map<string, map<string, Payload>>
    var discoveryResults: map<string, Discovery>
    var sessions: map<Key, Lifecycle>
    var retiredTerminal: set<Key>
    var record: KeeperRecord
    ghost var history: seq<Obs>

    ghost function RootView(root: string): RootState
      reads `lastDiscoveryAt, `discoveryEntries, `discoveryResults
    {
      RootState(Get(lastDiscoveryAt, root), Get(discoveryEntries, root).GetOr(map[]), Get(discoveryResults, root))
    }

    ghost function View(k: Key): KeyState
      reads `sessions, `retiredTerminal, store
    {
      KeyView(sessions, retiredTerminal, store.files, cfg, k)
    }

    /** The record directory holds what a supervisor may put there. */
    ghost predicate StoreOk()
      reads store
    {
      && store.Valid()
      && LogOk(cfg, store.initial, store.log)
      && ManagedInSessionFiles(cfg, store.files)
    }

    ghost predicate CachesOk()
      reads `discoveryEntries
    {
      && (forall r | r in cfg.roots :: r in discoveryEntries)
      && (forall r, id | r in discoveryEntries && id in discoveryEntries[r] :: Hex8(id))
    }

    /** Every managed record is of a session in `sessions`, and no retired session has a record. */
    ghost predicate AllAccounted()
      reads `sessions, `retiredTerminal, store
    {
      && (forall k | k in sessions :: ValidKey(cfg, k))
      && (forall k | ValidKey(cfg, k) :: Accounted(View(k)))
    }

    /** What holds at every point of a tick, also of one that an exception cuts short: every call that
        can raise is made in such a state, and returns to one. */
    ghost predicate Sound()
      reads this, store
    {
      && ConfigOk(cfg) && StoreOk() && CachesOk() && AllAccounted()
      && record.provider == CLAUDE && record.targetId == ALL && !record.metadata.managedBySupervisor
    }

    /** Between ticks every root and every session is where its history has put it. */
    ghost predicate Valid()
      reads this, store
    {
      && Sound()
      && (forall r | r in cfg.roots :: RootView(r) == RootAfter(cfg, r, history))
      && (forall k | ValidKey(cfg, k) :: View(k) == KeyAfter(cfg, k, store.initial, history))
    }

    // ---- the start --------------------------------------------------------------------------

    constructor (cfg: Config, existing: Files)
      requires ConfigOk(cfg) && WellFiled(existing)
      ensures this.cfg == cfg && fresh(store) && store.initial == existing && store.Valid() && store.log == []
      ensures Blank()
    {
      this.cfg := cfg;
      store := new StateStore(existing);
      lastDiscoveryAt, discoveryResults, sessions, retiredTerminal := map[], map[], map[], {};
      discoveryEntries := map r | r in cfg.roots :: map[];
      record := NewRecord(CLAUDE, ALL, "Claude discovery supervisor").(targetStatus := "idle", loaded := Some(true));
      history := [];
    }

    /** Nothing has been seen yet. */
    ghost predicate Blank()
      reads this
    {
      && lastDiscoveryAt == map[] && discoveryResults == map[] && sessions == map[] && retiredTerminal == {}
      && discoveryEntries == (map r | r in cfg.roots :: map[]) && history == []
      && record.provider == CLAUDE && record.targetId == ALL && !record.metadata.managedBySupervisor
    }

    /** Creating a supervisor for roots as they were given: repeated ones count once, none at all is an
        error, and the records of a former supervisor are dropped. */
    static method Create(given: Config, existing: Files) returns (r: Creation)
      requires WellFiled(existing) && ConfigOk(given.(roots := UniqueRoots(given.roots)))
      ensures r.NoRoots? <==> given.roots == []
      ensures r.Created? ==>
                && fresh(r.supervisor) && r.supervisor.Valid() && r.supervisor.history == []
                && r.supervisor.cfg == given.(roots := UniqueRoots(given.roots))
                && r.supervisor.store.initial == existing && r.supervisor.store.files == Cleaned(existing)
                && forall f :: f in r.supervisor.store.files <==> f in existing && !ManagedClaude(existing[f])
    {
      CleanedIs(existing);
      hide ConfigOk, WellFiled, KeyAfter, SessionFile, Cleaned;
      if given.roots == [] {
        return NoRoots;
      }
      var supervisor := new ClaudeDiscoverySupervisor(given.(roots := UniqueRoots(given.roots)), existing);
      var removed := supervisor.RemoveStale();
      return if removed.Done? then Created(supervisor) else CreationRaised;
    }

    /** The constructor's cleanup. */
    method RemoveStale() returns (c: Completion)
      requires ConfigOk(cfg) && store.Valid() && store.log == [] && Blank()
      modifies store
      ensures c.Done? ==> Valid() && store.files == Cleaned(old(store.files))
    {
      hide KeyAfter, SessionFile, Cleaned, ConfigOk, LogOk;
      :- RemoveManaged();
      CleanedIsUnmanaged(cfg, store.initial);
      forall k | ValidKey(cfg, k)
        ensures View(k) == KeyAfter(cfg, k, store.initial, []) && Accounted(View(k))
      {
        HistoryStart(cfg, k, store.initial);
        CleanedIsAccounted(cfg, k, store.initial);
      }
      return Done;
    }

    /** The loop over the records of a former supervisor. */
    method RemoveManaged() returns (c: Completion)
      requires store.Valid() && store.log == []
      modifies store
      ensures store.Valid() && LogOk(cfg, store.initial, store.log)
      ensures c.Done? ==> store.files == Cleaned(old(store.files))
    {
      hide IsSessionFile, FileName, Cleaned;
      ghost var before := store.files;
      var stale :- store.List(CLAUDE);
      for i := 0 to |stale|
        invariant store.Valid() && LogOk(cfg, store.initial, store.log)
        invariant store.files == Without(before, stale, i)
      {
        assert stale[i] in stale;
        if stale[i].metadata.managedBySupervisor {
          assert Get(store.initial, FileOf(stale[i])) == Some(stale[i]) && ManagedClaude(stale[i]);
          :- store.Remove(stale[i].provider, stale[i].targetId);
        }
      }
      WithoutIsCleaned(before, stale);
      return Done;
    }

    // ---- discovery --------------------------------------------------------------------------

    method RefreshDiscoveryIfDue(root: string, now: real, result: Discovery) returns (c: Completion)
      requires Sound() && root in cfg.roots
      modifies `lastDiscoveryAt, `discoveryEntries, `discoveryResults
      ensures Sound()
      ensures c.Done? ==> RootView(root) == Refresh(cfg, old(RootView(root)), now, result)
      ensures forall r | r != root :: RootView(r) == old(RootView(r))
    {
      hide SessionFile, StoreOk, AllAccounted, ConfigOk, EntryId;
      if root in lastDiscoveryAt && now - lastDiscoveryAt[root] < cfg.discoveryInterval {
        return Done;
      }
      lastDiscoveryAt := lastDiscoveryAt[root := now];
      var raises: bool := *;
      if raises {
        return Raised;
      }
      discoveryResults := discoveryResults[root := result];
      if result.Authoritative() {
        var entries := IndexEntries(result.entries);
        discoveryEntries := discoveryEntries[root := entries];
      }
      return Done;
    }

    static method IndexEntries(listed: seq<Payload>) returns (entries: map<string, Payload>)
      ensures entries == EntriesById(listed)
    {
      entries := map[];
      for i := 0 to |listed|
        invariant entries == EntriesById(listed[..i])
      {
        assert listed[..i + 1][..i] == listed[..i];
        var shortId := EntryId(listed[i]);
        if shortId.Some? {
          entries := entries[shortId.value := listed[i]];
        }
      }
      assert listed[..|listed|] == listed;
    }

    static method ListJobIds(names: seq<string>) returns (ids: set<string>)
      ensures ids == LocalJobIds(names)
    {
      ids := {};
      for i := 0 to |names|
        invariant ids == LocalJobIds(names[..i])
      {
        assert names[..i + 1] == names[..i] + [names[i]];
        var shortId := ShortSessionId(names[i]);
        if shortId.Some? {
          ids := ids + {shortId.value};
        }
      }
      assert names[..|names|] == names;
    }

    // ---- changing one session -----------------------------------------------------------------

    /** No other session's state or file has changed. */
    twostate predicate OnlyTouches(k: Key)
      reads this, store
    {
      && SameElsewhere(old(sessions), sessions, k)
      && (forall j | j != k :: j in retiredTerminal <==> j in old(retiredTerminal))
      && SameElsewhere(old(store.files), store.files, SessionFile(cfg, k))
    }

    twostate lemma OthersAsBefore(k: Key)
      requires ConfigOk(cfg) && ValidKey(cfg, k) && OnlyTouches(k)
      ensures forall j | ValidKey(cfg, j) && j != k :: View(j) == old(View(j))
    {
      hide SessionFile, ConfigOk;
      forall j | ValidKey(cfg, j) && j != k ensures View(j) == old(View(j)) {
        DistinctFiles(cfg, j, k);
      }
    }

    twostate lemma StillAccounted(k: Key)
      requires ConfigOk(cfg) && ValidKey(cfg, k) && OnlyTouches(k)
      requires old(AllAccounted()) && Accounted(View(k))
      ensures AllAccounted()
    {
      hide ConfigOk, Accounted, SessionFile, View;
      OthersAsBefore(k);
      forall j | j in sessions ensures ValidKey(cfg, j) {
        assert j != k ==> Get(sessions, j) == Get(old(sessions), j);
      }
    }

    lemma IsAccounted(k: Key)
      requires AllAccounted() && ValidKey(cfg, k)
      ensures Accounted(View(k))
    {
    }

    /** `_sessions[key] = lifecycle`, also where the code changes the lifecycle it holds. */
    method Remember(k: Key, lifecycle: Lifecycle)
      requires Sound() && ValidKey(cfg, k)
      modifies `sessions
      ensures Sound() && sessions == old(sessions)[k := lifecycle]
    {
      hide SessionFile, StoreOk, CachesOk, ConfigOk, AllAccounted;
      IsAccounted(k);
      sessions := sessions[k := lifecycle];
      StillAccounted(k);
    }

    /** `_sessions.pop(key, None)`, for a session without a managed record. */
    method Forget(k: Key)
      requires Sound() && ValidKey(cfg, k) && View(k).record.None?
      modifies `sessions
      ensures Sound() && sessions == old(sessions) - {k}
    {
      hide SessionFile, StoreOk, CachesOk, ConfigOk, AllAccounted;
      IsAccounted(k);
      sessions := sessions - {k};
      StillAccounted(k);
    }

    method Retire(k: Key)
      requires Sound() && ValidKey(cfg, k) && View(k).record.None?
      modifies `retiredTerminal
      ensures Sound() && retiredTerminal == old(retiredTerminal) + {k}
    {
      hide SessionFile, StoreOk, CachesOk, ConfigOk, AllAccounted;
      IsAccounted(k);
      retiredTerminal := retiredTerminal + {k};
      StillAccounted(k);
    }

    method Readmit(k: Key)
      requires Sound() && ValidKey(cfg, k)
      modifies `retiredTerminal
      ensures Sound() && retiredTerminal == old(retiredTerminal) - {k}
    {
      hide SessionFile, StoreOk, CachesOk, ConfigOk, AllAccounted;
      IsAccounted(k);
      retiredTerminal := retiredTerminal - {k};
      StillAccounted(k);
    }

    method SaveSession(k: Key, keeper: KeeperRecord) returns (c: Completion)
      requires Sound() && ValidKey(cfg, k) && k in sessions && k !in retiredTerminal
      requires FileOf(keeper) == SessionFile(cfg, k) && ManagedClaude(keeper)
      modifies store
      ensures Sound()
      ensures store.files == if c.Done? then old(store.files)[SessionFile(cfg, k) := keeper] else old(store.files)
    {
      hide SessionFile, CachesOk, ConfigOk, AllAccounted;
      IsAccounted(k);
      c := store.Save(keeper);
      StillAccounted(k);
    }

    method DeleteSession(k: Key) returns (c: Completion)
      requires Sound() && ValidKey(cfg, k)
      modifies store
      ensures Sound()
      ensures store.files == if c.Done? then old(store.files) - {SessionFile(cfg, k)} else old(store.files)
    {
      hide CachesOk, ConfigOk, AllAccounted, TargetOf;
      IsAccounted(k);
      c := store.Remove(CLAUDE, TargetOf(cfg, k));
      StillAccounted(k);
    }

    method LoadSession(k: Key) returns (c: Completion, r: Option<KeeperRecord>)
      requires Sound() && ValidKey(cfg, k)
      ensures c.Done? ==> r == View(k).record
      ensures c.Done? && r.Some? ==> FileOf(r.value) == SessionFile(cfg, k) && r.value.provider == CLAUDE
    {
      hide CachesOk, ConfigOk, AllAccounted, TargetOf;
      c, r := store.Load(CLAUDE, TargetOf(cfg, k));
      if c.Done? && r.Some? {
        ProviderOfFile(store.files, TargetOf(cfg, k));
      }
    }

    // ---- one session in one tick ----------------------------------------------------------------

    method WriteSnapshotRecord(k: Key, snap: Snapshot, outcome: JobOutcome) returns (c: Completion)
      requires Sound() && ValidKey(cfg, k) && k in sessions && k !in retiredTerminal
      modifies `sessions, store
      ensures Sound() && OnlyTouches(k)
      ensures c.Done? ==>
                View(k) == WriteSnapshot(cfg, false, k, old(sessions[k]), old(View(k)).record, snap, outcome)
    {
      hide SessionFile, WriteSnapshot, StoreOk, CachesOk, ConfigOk, AllAccounted;
      var lifecycle := sessions[k];
      var existing :- LoadSession(k);
      var keeper := existing.GetOr(NewRecord(CLAUDE, TargetOf(cfg, k), snap.displayName));
      keeper := Updated(cfg, k, keeper, snap, outcome);
      var signature := SignatureOf(cfg, snap, outcome);
      var changed := Some(signature) != lifecycle.signature;
      Remember(k, lifecycle.(signature := Some(signature)));
      if changed {
        keeper := keeper.(eventCount := keeper.eventCount + 1);
      }
      WriteSnapshotParts(cfg, k, lifecycle, existing, snap, outcome, keeper);
      if existing.None? || changed {
        :- SaveSession(k, keeper);
      }
      return Done;
    }

    method WriteDisappearedRecord(k: Key) returns (c: Completion)
      requires Sound() && ValidKey(cfg, k) && k in sessions
      modifies `sessions, store
      ensures Sound() && OnlyTouches(k)
      ensures c.Done? ==> View(k) == Disappeared(cfg, k, old(View(k)))
    {
      hide SessionFile, StoreOk, CachesOk, ConfigOk, AllAccounted;
      var loaded :- LoadSession(k);
      if loaded.None? {
        return Done;
      }
      var keeper := loaded.value;
      IsAccounted(k);
      Remember(k, sessions[k].(signature := Some(Vanished(keeper.lastActivityAt))));
      :- SaveSession(k, Vanish(cfg, k, keeper));
      return Done;
    }

    method RemoveLifecycle(k: Key, terminal: bool) returns (c: Completion)
      requires Sound() && ValidKey(cfg, k)
      modifies `sessions, `retiredTerminal, store
      ensures Sound() && OnlyTouches(k)
      ensures c.Done? ==> View(k) == KeyState(None, terminal || old(View(k)).retired, None)
    {
      hide SessionFile, StoreOk, CachesOk, ConfigOk, AllAccounted;
      :- DeleteSession(k);
      Forget(k);
      if terminal {
        Retire(k);
      }
      return Done;
    }

    /** The part of the loop body for a session that is absent from both sources. */
    method RefreshAbsent(key: Key, now: real, authoritative: bool, ghost w: Sight) returns (c: Completion)
      requires Sound() && ValidKey(cfg, key) && key in sessions
      requires w.now == now && w.authoritative == authoritative
      modifies `sessions, `retiredTerminal, store
      ensures Sound() && OnlyTouches(key)
      ensures c.Done? ==> View(key) == StepAbsent(cfg, w, key, old(View(key)))
    {
      hide SessionFile, StoreOk, CachesOk, ConfigOk, AllAccounted;
      if !authoritative {
        return Done;
      }
      var lifecycle := sessions[key];
      if lifecycle.missingSince.None? {
        Remember(key, lifecycle.(missingSince := Some(now)));
        :- WriteDisappearedRecord(key);
      } else if now - lifecycle.missingSince.value >= cfg.disappearanceGrace {
        :- RemoveLifecycle(key, false);
      }
      return Done;
    }

    /** A present session is not missing; unless it is retired or its grace period is over, its
        record is to be written. */
    method AdmitPresent(key: Key, now: real, terminal: bool) returns (c: Completion, write: bool)
      requires Sound() && ValidKey(cfg, key) && key in sessions
      modifies `sessions, `retiredTerminal, store
      ensures Sound() && OnlyTouches(key)
      ensures c.Done? ==> (write, View(key)) == Admission(cfg, now, terminal, old(View(key)))
    {
      hide SessionFile, StoreOk, CachesOk, ConfigOk, AllAccounted;
      write := false;
      IsAccounted(key);
      var lifecycle := sessions[key].(missingSince := None);
      Remember(key, lifecycle);
      if key in retiredTerminal {
        if terminal {
          Forget(key);
          return Done, false;
        }
        Readmit(key);
      }
      if terminal {
        if lifecycle.terminalSince.None? {
          Remember(key, lifecycle.(terminalSince := Some(now)));
        } else if now - lifecycle.terminalSince.value >= cfg.terminalGrace {
          :- RemoveLifecycle(key, true);
          return Done, false;
        }
      } else {
        Remember(key, lifecycle.(terminalSince := None));
      }
      return Done, true;
    }

    /** The part of the loop body for a session that is present. */
    method RefreshPresent(key: Key, now: real, snapshot: Snapshot, outcome: JobOutcome, ghost w: Sight)
      returns (c: Completion)
      requires Sound() && ValidKey(cfg, key) && key in sessions
      requires w.now == now && w.snap == snapshot && w.outcome == outcome
      modifies `sessions, `retiredTerminal, store
      ensures Sound() && OnlyTouches(key)
      ensures c.Done? ==> View(key) == StepPresent(cfg, false, w, key, old(View(key)))
    {
      hide SessionFile, WriteSnapshot, StoreOk, CachesOk, ConfigOk, AllAccounted;
      var write :- AdmitPresent(key, now, snapshot.terminal);
      if write {
        :- WriteSnapshotRecord(key, snapshot, outcome);
      }
      return Done;
    }

    /** The body of the loop over the candidates. */
    method RefreshSession(root: string, shortId: string, obs: Obs) returns (c: Completion)
      requires Sound() && ValidKey(cfg, Key(root, shortId))
      requires Candidate(SightOf(cfg, RootView(root), obs, Key(root, shortId)), View(Key(root, shortId)))
      modifies `sessions, `retiredTerminal, store
      ensures Sound() && OnlyTouches(Key(root, shortId))
      ensures c.Done? ==>
                var k := Key(root, shortId);
                View(k) == TickKey(cfg, RootView(root), obs, k, old(View(k)))
    {
      hide SessionFile, StoreOk, AllAccounted, ConfigOk, SnapshotFromSources, EntryCwd, LocalJobIds, StepPresent,
           StepAbsent;
      var key := Key(root, shortId);
      ghost var w := SightOf(cfg, RootView(root), obs, key);
      CandidateIff(cfg, RootView(root), obs, key, View(key));
      StepWithLifecycle(cfg, w, key, View(key));
      if key !in sessions {
        Remember(key, NEW_LIFECYCLE);
      }
      var raises: bool := *;
      if raises {
        return Raised;
      }
      var job := obs.job(key);
      var live := Get(discoveryEntries[root], shortId);
      if !job.Present() && live.None? {
        var authoritative := root in discoveryResults && discoveryResults[root].Authoritative();
        :- RefreshAbsent(key, obs.now, authoritative, w);
      } else {
        var snapshot := SnapshotFromSources(cfg.host, shortId, EntryCwd(cfg, root, live, job), job, live);
        :- RefreshPresent(key, obs.now, snapshot, job.outcome, w);
      }
      return Done;
    }

    /** The same with the frame said per session: this one is brought to `target`, no other is touched. */
    method RefreshOne(root: string, shortId: string, obs: Obs, ghost d: RootState, ghost target: KeyState)
      returns (c: Completion)
      requires Sound() && ValidKey(cfg, Key(root, shortId)) && RootView(root) == d
      requires Candidate(SightOf(cfg, d, obs, Key(root, shortId)), View(Key(root, shortId)))
      requires target == TickKey(cfg, d, obs, Key(root, shortId), View(Key(root, shortId)))
      modifies `sessions, `retiredTerminal, store
      ensures Sound() && RootView(root) == d
      ensures c.Done? ==>
                forall k | ValidKey(cfg, k) :: View(k) == if k == Key(root, shortId) then target else old(View(k))
    {
      hide StoreOk, CachesOk, ConfigOk, AllAccounted, TickKey, View, OnlyTouches, Candidate, SightOf;
      c := RefreshSession(root, shortId, obs);
      OthersAsBefore(Key(root, shortId));
    }

    /** The ids to look at: local job directories, cached entries and sessions already known. */
    method CandidateIds(root: string, obs: Obs) returns (candidates: set<string>)
      requires Sound() && root in cfg.roots
      ensures forall id | id in candidates :: Hex8(id)
      ensures forall k: Key | k.root == root ::
                k.id in candidates <==> Candidate(SightOf(cfg, RootView(root), obs, k), View(k))
    {
      hide StoreOk, ConfigOk, SightOf, Candidate, Accounted;
      var localIds := ListJobIds(obs.listing(root));
      var known := set k | k in sessions && k.root == root :: k.id;
      candidates := localIds + discoveryEntries[root].Keys + known;
      forall k: Key | k.root == root
        ensures k.id in candidates <==> Candidate(SightOf(cfg, RootView(root), obs, k), View(k))
      {
        assert k.id in known ==> k == Key(root, k.id);
        CandidateIff(cfg, RootView(root), obs, k, View(k));
      }
    }

    /** The loop over the candidates, in any order; `targets` is where it takes them. */
    method RefreshCandidates(root: string, candidates: set<string>, obs: Obs, ghost d: RootState,
                             ghost targets: map<string, KeyState>)
      returns (c: Completion)
      requires Sound() && root in cfg.roots && RootView(root) == d && targets.Keys == candidates
      requires forall id | id in candidates ::
                 && Hex8(id) && Candidate(SightOf(cfg, d, obs, Key(root, id)), View(Key(root, id)))
                 && targets[id] == TickKey(cfg, d, obs, Key(root, id), View(Key(root, id)))
      modifies `sessions, `retiredTerminal, store
      ensures Sound() && RootView(root) == d
      ensures c.Done? ==>
                forall k | ValidKey(cfg, k) ::
                  View(k) == if k.root == root && k.id in candidates then targets[k.id] else old(View(k))
    {
      hide KeyAfter, RootAfter, TickKey, SessionFile, Sound, View, RootView, Candidate, SightOf;
      var done := {};
      while done != candidates
        invariant Sound() && RootView(root) == d && done <= candidates
        invariant forall k | ValidKey(cfg, k) ::
                    View(k) == if k.root == root && k.id in done then targets[k.id] else old(View(k))
        decreases candidates - done
      {
        var shortId :| shortId in candidates && shortId !in done;
        assert View(Key(root, shortId)) == old(View(Key(root, shortId)));
        :- RefreshOne(root, shortId, obs, d, targets[shortId]);
        done := done + {shortId};
      }
      return Done;
    }

    method RefreshRootRecords(root: string, obs: Obs) returns (c: Completion)
      requires Sound() && root in cfg.roots
      modifies `sessions, `retiredTerminal, store
      ensures Sound()
      ensures c.Done? ==>
                forall k | ValidKey(cfg, k) ::
                  View(k) == if k.root == root then TickKey(cfg, RootView(root), obs, k, old(View(k)))
                             else old(View(k))
    {
      hide TickKey, Candidate, SightOf, SessionFile, Sound, View, RootView;
      var candidates := CandidateIds(root, obs);
      ghost var d := RootView(root);
      ghost var targets := map id | id in candidates :: TickKey(cfg, d, obs, Key(root, id), View(Key(root, id)));
      :- RefreshCandidates(root, candidates, obs, d, targets);
      forall k | ValidKey(cfg, k) && k.root == root
        ensures View(k) == TickKey(cfg, RootView(root), obs, k, old(View(k)))
      {
        CandidateIff(cfg, d, obs, k, old(View(k)));
      }
      return Done;
    }

    // ---- a whole tick -----------------------------------------------------------------------------

    /** Both halves of a tick for one root, which lengthens its history by this observation. */
    method RefreshRoot(root: string, obs: Obs, ghost os: seq<Obs>) returns (c: Completion)
      requires Sound() && root in cfg.roots && RootView(root) == RootAfter(cfg, root, os)
      requires forall k | ValidKey(cfg, k) && k.root == root :: View(k) == KeyAfter(cfg, k, store.initial, os)
      modifies `lastDiscoveryAt, `discoveryEntries, `discoveryResults, `sessions, `retiredTerminal, store
      ensures Sound()
      ensures c.Done? ==>
                && RootView(root) == RootAfter(cfg, root, os + [obs])
                && (forall r | r != root :: RootView(r) == old(RootView(r)))
                && forall k | ValidKey(cfg, k) ::
                     View(k) == if k.root == root then KeyAfter(cfg, k, store.initial, os + [obs]) else old(View(k))
    {
      hide TickKey, Refresh, SessionFile, Sound, KeyView, KeyAfter, RootAfter;
      :- RefreshDiscoveryIfDue(root, obs.now, obs.discover(root));
      :- RefreshRootRecords(root, obs);
      HistoryStep(cfg, Key(root, ""), store.initial, os, obs);
      forall k | ValidKey(cfg, k) && k.root == root ensures View(k) == KeyAfter(cfg, k, store.initial, os + [obs]) {
        HistoryStep(cfg, k, store.initial, os, obs);
      }
      return Done;
    }

    /** The roots in `done` have made the step from `os` to `more`, the others are still there. */
    ghost predicate Between(os: seq<Obs>, more: seq<Obs>, done: set<string>)
      reads this, store
    {
      && (forall r | r in cfg.roots :: RootView(r) == RootAfter(cfg, r, if r in done then more else os))
      && (forall k | ValidKey(cfg, k) ::
            View(k) == KeyAfter(cfg, k, store.initial, if k.root in done then more else os))
    }

    /** The next root makes its step. */
    method RefreshNext(root: string, obs: Obs, ghost os: seq<Obs>, ghost done: set<string>) returns (c: Completion)
      requires Sound() && root in cfg.roots && root !in done && Between(os, os + [obs], done)
      modifies `lastDiscoveryAt, `discoveryEntries, `discoveryResults, `sessions, `retiredTerminal, store
      ensures Sound()
      ensures c.Done? ==> Between(os, os + [obs], done + {root})
    {
      hide Sound, KeyAfter, RootAfter, View, RootView, SessionFile;
      :- RefreshRoot(root, obs, os);
      return Done;
    }

    lemma NewRoot(i: nat)
      requires Sound() && i < |cfg.roots|
      ensures cfg.roots[i] !in cfg.roots[..i] && cfg.roots[..i + 1] == cfg.roots[..i] + [cfg.roots[i]]
    {
      hide StoreOk, CachesOk, AllAccounted;
    }

    method RefreshAllRoots(obs: Obs) returns (c: Completion)
      requires Valid()
      modifies `lastDiscoveryAt, `discoveryEntries, `discoveryResults, `sessions, `retiredTerminal, store
      ensures Sound()
      ensures c.Done? ==> Between(history, history + [obs], set r | r in cfg.roots)
    {
      hide KeyAfter, RootAfter, View, RootView, SessionFile, Sound;
      ghost var done := {};
      assert Between(history, history + [obs], {});
      hide Between;
      for i := 0 to |cfg.roots|
        invariant Sound() && Between(history, history + [obs], done)
        invariant done == set r | r in cfg.roots[..i]
      {
        NewRoot(i);
        :- RefreshNext(cfg.roots[i], obs, history, done);
        done := done + {cfg.roots[i]};
      }
      assert cfg.roots[..|cfg.roots|] == cfg.roots;
      return Done;
    }

    /** `_persist_supervisor`: only the supervisor's own file changes. */
    method PersistSupervisor() returns (c: Completion)
      requires Sound()
      modifies store
      ensures Sound()
      ensures store.files == if c.Done? then old(store.files)[SupervisorFile() := record] else old(store.files)
      ensures forall k | ValidKey(cfg, k) :: View(k) == old(View(k))
    {
      hide ConfigOk, CachesOk, AllAccounted, LogOk, ManagedInSessionFiles, IsSessionFile, FileName;
      c := store.Save(record);
      if c.Done? {
        LogGrows(cfg, store.initial, old(store.log), Put(record));
        OwnFileIsUnmanaged(cfg, old(store.files), store.files);
      }
      OwnFileOnly();
    }

    /** Only the supervisor's own file has changed. */
    twostate lemma OwnFileOnly()
      requires ConfigOk(cfg) && SameElsewhere(old(store.files), store.files, SupervisorFile())
      requires unchanged(`sessions) && unchanged(`retiredTerminal)
      ensures forall k | ValidKey(cfg, k) :: View(k) == old(View(k))
      ensures old(AllAccounted()) ==> AllAccounted()
    {
      hide ConfigOk, SessionFile, SupervisorFile, Accounted;
      forall k | ValidKey(cfg, k) ensures View(k) == old(View(k)) {
        SupervisorFileIsNotASession(cfg, k);
      }
    }

    /** One tick: the history of every root and every session grows by this observation, whatever the
        others do, and the supervisor's record says whether any session is active. */
    method Tick(obs: Obs) returns (c: Completion)
      requires Valid()
      modifies this, store
      ensures Sound()
      ensures c.Done? ==>
                && Valid() && history == old(history) + [obs]
                && Get(store.files, SupervisorFile()) == Some(record)
                && record.targetStatus == if AnyActive(sessions) then "active" else "idle"
    {
      hide KeyAfter, RootAfter, View, RootView, SessionFile, ConfigOk, StoreOk, CachesOk, AllAccounted;
      :- RefreshAllRoots(obs);
      assert forall r | r in cfg.roots :: r in set r | r in cfg.roots;
      record := record.(targetStatus := if AnyActive(sessions) then "active" else "idle");
      :- PersistSupervisor();
      history := history + [obs];
      return Done;
    }

    /** After a tick the store says of every session that the tick found what its job file and its entry
        say, unless the session is retired, which it is not if it is not over; and then the supervisor
        counts it as active. */
    lemma StoredAndReported(k: Key)
      requires Valid() && ValidKey(cfg, k) && history != [] && JobsAreRead(k, history)
      requires SeenAt(cfg, k, history, |history| - 1)
      ensures var n, r := |history| - 1, Get(store.files, SessionFile(cfg, k));
              && (r.Some? <==> k !in retiredTerminal)
              && (r.Some? ==> RecordShows(cfg, k, history[n].job(k), EntryAt(cfg, k, history, n), r.value))
              && (!OverAt(cfg, k, history, n) ==> r.Some? && AnyActive(sessions))
    {
      hide Sound, SeenAt, EntryAt, RecordShows, KeyAfter, RootAfter, SessionFile, FileOf, OverAt;
      assert store.Valid() by { SoundStore(); }
      assert View(k) == KeyAfter(cfg, k, store.initial, history);
      SeenIsPresent(cfg, k, history);
      TickStores(cfg, k, store.initial, history);
      if !OverAt(cfg, k, history, |history| - 1) {
        assert k in sessions;
      }
    }

    lemma SoundStore()
      requires Sound()
      ensures store.Valid()
    {
    }

    // ---- the end of a run ---------------------------------------------------------------------------

    /** Every managed record belongs to a session the supervisor still knows. */
    lemma ManagedMeansKnown()
      requires Sound()
      ensures forall f | f in store.files && ManagedClaude(store.files[f]) ::
                exists k :: k in sessions && f == SessionFile(cfg, k)
    {
      hide ConfigOk, CachesOk, SessionFile;
      forall f | f in store.files && ManagedClaude(store.files[f])
        ensures exists k :: k in sessions && f == SessionFile(cfg, k)
      {
        var k :| ValidKey(cfg, k) && f == SessionFile(cfg, k);
        assert Accounted(View(k));
      }
    }

    /** The files of the sessions in `todo` are the only ones with managed records, and only session
        files have changed since `before`. */
    ghost predicate LeftToRemove(before: Files, todo: set<Key>)
      reads this, store
    {
      && (forall f | f in store.files && ManagedClaude(store.files[f]) ::
            exists k :: k in todo && f == SessionFile(cfg, k))
      && (forall f | !IsSessionFile(cfg, f) :: Get(store.files, f) == Get(before, f))
    }

    method RemoveOne(k: Key, ghost before: Files, ghost todo: set<Key>) returns (c: Completion)
      requires Sound() && k in sessions && LeftToRemove(before, todo)
      modifies store
      ensures Sound()
      ensures LeftToRemove(before, if c.Done? then todo - {k} else todo)
    {
      hide ConfigOk, CachesOk, StoreOk, SessionFile;
      c := DeleteSession(k);
      assert IsSessionFile(cfg, SessionFile(cfg, k));
    }

    /** `_remove_session_records`: no managed record is left, and files that are not of sessions stay
        as they are. A tick may have been cut short before it. */
    method RemoveSessionRecords() returns (c: Completion)
      requires Sound()
      modifies `sessions, store
      ensures Sound()
      ensures c.Done? ==> sessions == map[] && forall f | f in store.files :: !ManagedClaude(store.files[f])
      ensures forall f | !IsSessionFile(cfg, f) :: Get(store.files, f) == Get(old(store.files), f)
    {
      hide SessionFile, IsSessionFile, ConfigOk, StoreOk, CachesOk;
      ManagedMeansKnown();
      var todo := sessions.Keys;
      while todo != {}
        invariant Sound() && todo <= sessions.Keys && LeftToRemove(old(store.files), todo)
        decreases todo
      {
        var k :| k in todo;
        :- RemoveOne(k, old(store.files), todo);
        todo := todo - {k};
      }
      ForgetAll();
      return Done;
    }

    /** `_sessions.clear()`. */
    method ForgetAll()
      requires Sound() && forall f | f in store.files :: !ManagedClaude(store.files[f])
      modifies `sessions
      ensures Sound() && sessions == map[]
    {
      hide ConfigOk, CachesOk;
      ghost var before := sessions;
      forall k | ValidKey(cfg, k) ensures !(View(k).record.Some? && View(k).record.value.metadata.managedBySupervisor) {
        assert Accounted(View(k));
        if SessionFile(cfg, k) in store.files {
          ProviderOfFile(store.files, TargetOf(cfg, k));
        }
      }
      sessions := map[];
    }

    /** What an orderly end leaves of the record directory: only what was there before and no supervisor
        managed, and all of that outside the session files; of its own record nothing unless it failed. */
    ghost predicate CleanedUp(failed: bool)
      reads store
    {
      && (forall f | f in store.files :: !ManagedClaude(store.files[f]))
      && (forall f | f in store.files && f != SupervisorFile() ::
            f in store.initial && store.files[f] == store.initial[f])
      && (forall f | f in store.initial && !ManagedClaude(store.initial[f])
                     && f != SupervisorFile() && !IsSessionFile(cfg, f) ::
            f in store.files && store.files[f] == store.initial[f])
      && (!failed ==> SupervisorFile() !in store.files)
    }

    /** The `finally` part of `run`, from wherever the ticks have come to. */
    method Shutdown() returns (c: Completion)
      requires Sound()
      modifies `sessions, store
      ensures Sound()
      ensures c.Done? ==> sessions == map[] && CleanedUp(record.keeperStatus == "error")
    {
      hide SessionFile, ConfigOk, CachesOk;
      :- RemoveSessionRecords();
      if record.keeperStatus != "error" {
        :- RemoveOwnRecord();
      }
      ReplayLeavesAftermath(cfg, store.initial, store.log);
      return Done;
    }

    method RemoveOwnRecord() returns (c: Completion)
      requires Sound()
      modifies store
      ensures Sound()
      ensures store.files == if c.Done? then old(store.files) - {SupervisorFile()} else old(store.files)
    {
      hide ConfigOk, CachesOk, AllAccounted, LogOk, ManagedInSessionFiles, IsSessionFile, FileName;
      c := store.Remove(CLAUDE, ALL);
      if c.Done? {
        LogGrows(cfg, store.initial, old(store.log), Delete(SupervisorFile()));
        OwnFileIsUnmanaged(cfg, old(store.files), store.files);
      }
      OwnFileOnly();
    }

    /** The `try` part of `run`: ticks until a signal arrives, or something raises. */
    method RunTicks(observations: seq<Obs>) returns (c: Completion)
      requires Valid()
      modifies this, store
      ensures Sound()
      ensures c.Done? ==> Valid() && history == old(history) + observations
    {
      hide Valid, Sound;
      ValidIsSound();
      var preflightRaises: bool := *;
      if preflightRaises {
        return Raised;
      }
      :- Announce();
      for i := 0 to |observations|
        invariant Valid() && history == old(history) + observations[..i]
      {
        :- Tick(observations[i]);
        var waitRaises: bool := *;
        if waitRaises {
          ValidIsSound();
          return Raised;
        }
        assert observations[..i + 1] == observations[..i] + [observations[i]];
      }
      assert observations[..|observations|] == observations;
      ValidIsSound();
      return Done;
    }

    /** The record says that the supervisor is attached. */
    method Announce() returns (c: Completion)
      requires Valid()
      modifies `record, store
      ensures Sound() && (c.Done? ==> Valid())
    {
      hide KeyAfter, RootAfter, View, RootView, Sound;
      assert Sound() by { ValidIsSound(); }
      SetKeeperStatus("attached");
      :- PersistSupervisor();
      return Done;
    }

    lemma ValidIsSound()
      requires Valid()
      ensures Sound()
    {
    }

    method SetKeeperStatus(status: string)
      requires Sound()
      modifies `record
      ensures Sound() && record == old(record).(keeperStatus := status)
    {
      hide ConfigOk, StoreOk, CachesOk, AllAccounted;
      record := record.(keeperStatus := status);
    }

    /** `run`, from its `try` on: wherever it breaks, inside a tick or between two, the cleanup leaves no
        session record behind, unless an exception stops the cleanup itself. */
    method Run(observations: seq<Obs>) returns (failed: bool, cleanup: Completion)
      requires Valid()
      modifies this, store
      ensures Sound()
      ensures cleanup.Done? ==> sessions == map[] && CleanedUp(failed)
    {
      hide Sound, Valid;
      var ticks := RunTicks(observations);
      if ticks.Done? {
        SetKeeperStatus("stopping");
        ticks := PersistSupervisor();
      }
      failed := ticks.Raised?;
      if failed {
        SetKeeperStatus("error");
        var _ := PersistSupervisor();
      }
      cleanup := Shutdown();
    }
  }

  /** The parts of `WriteSnapshot`, for a record `keeper` that was updated and counted. */
  lemma WriteSnapshotParts(cfg: Config, k: Key, life: Lifecycle, existing: Option<KeeperRecord>, snap: Snapshot,
                           outcome: JobOutcome, keeper: KeeperRecord)
    requires var base := existing.GetOr(NewRecord(CLAUDE, TargetOf(cfg, k), snap.displayName));
             var updated := Updated(cfg, k, base, snap, outcome);
             keeper == if Some(SignatureOf(cfg, snap, outcome)) != life.signature
                       then updated.(eventCount := updated.eventCount + 1) else updated
    requires existing.Some? ==> FileOf(existing.value) == SessionFile(cfg, k) && existing.value.provider == CLAUDE
    ensures FileOf(keeper) == SessionFile(cfg, k) && ManagedClaude(keeper)
    ensures WriteSnapshot(cfg, false, k, life, existing, snap, outcome)
         == KeyState(Some(life.(signature := Some(SignatureOf(cfg, snap, outcome)))), false,
                     if existing.None? || Some(SignatureOf(cfg, snap, outcome)) != life.signature then Some(keeper)
                     else existing)
  {
  }
}
