/** Keeper records and the directory that holds them, one file per provider and target
    (src/agent_keepalive/state.py:18-166). A write is atomic. */
module RecordStore {
  import opened Prelude
  import opened TargetPaths

  /** The part of `provider_metadata` that observers of session records read. */
  datatype Metadata = Metadata(
    managedBySupervisor: bool,
    sourceRoot: string,
    rootFingerprint: string,
    stateOutcome: string,
    sessionId: Option<string>,
    cwd: string,
    liveStatus: Option<string>,
    liveEntryAvailable: bool,
    disappearanceGrace: Option<real>)

  datatype KeeperRecord = KeeperRecord(
    provider: string,
    targetId: string,
    displayName: string,
    lastActivityAt: Option<string>,
    lastEventAt: Option<string>,
    idleSince: Option<string>,
    targetStatus: string,
    loaded: Option<bool>,
    blocked: bool,
    terminal: bool,
    keeperStatus: string,
    eventCount: nat,
    metadata: Metadata)

  const NO_METADATA := Metadata(false, "", "", "", None, "", None, false, None)

  /** `KeeperRecord.new`, without the fields that only carry the clock and the process. */
  function NewRecord(provider: string, targetId: string, displayName: string): KeeperRecord {
    KeeperRecord(provider, targetId, displayName, None, None, None, "unknown", None, false, false,
                 "starting", 0, NO_METADATA)
  }

  function FileOf(r: KeeperRecord): string {
    FileName(r.provider, r.targetId)
  }

  type Files = map<string, KeeperRecord>

  const CLAUDE := "claude"
  const CODEX := "codex"

  /** Every file holds a record of one of the two providers that belongs under that name. */
  ghost predicate WellFiled(files: Files) {
    forall f | f in files :: f == FileOf(files[f]) && files[f].provider in {CLAUDE, CODEX}
  }

  /** The first letters of a file name tell the provider of the record in it. */
  lemma ProviderOfFile(files: Files, targetId: string)
    requires WellFiled(files) && FileName(CLAUDE, targetId) in files
    ensures files[FileName(CLAUDE, targetId)].provider == CLAUDE
  {
    var f := FileName(CLAUDE, targetId);
    assert f[1] == 'l';
    assert FileOf(files[f])[1] == files[f].provider[1];
  }

  /** One atomic change of the directory. */
  datatype StoreOp = Put(record: KeeperRecord) | Delete(file: string)

  ghost function Apply(files: Files, op: StoreOp): Files {
    match op
    case Put(r) => files[FileOf(r) := r]
    case Delete(f) => files - {f}
  }

  /** The directory after a sequence of changes: what a process that dies there leaves behind. */
  ghost function Replay(files: Files, ops: seq<StoreOp>): Files {
    if ops == [] then files else Apply(Replay(files, ops[..|ops| - 1]), ops[|ops| - 1])
  }

  lemma ReplayStep(files: Files, ops: seq<StoreOp>, op: StoreOp)
    ensures Replay(files, ops + [op]) == Apply(Replay(files, ops), op)
  {
    assert (ops + [op])[..|ops|] == ops;
  }

  class StateStore {
    var files: Files
    ghost const initial: Files
    ghost var log: seq<StoreOp>

    ghost predicate Valid()
      reads this
    {
      WellFiled(files) && WellFiled(initial) && files == Replay(initial, log)
    }

    constructor (existing: Files)
      requires WellFiled(existing)
      ensures Valid() && files == existing && initial == existing && log == []
    {
      files := existing;
      initial := existing;
      log := [];
    }

    method Save(record: KeeperRecord) returns (c: Completion)
      requires Valid() && record.provider in {CLAUDE, CODEX}
      modifies this
      ensures Valid()
      ensures c.Done? ==> files == old(files)[FileOf(record) := record] && log == old(log) + [Put(record)]
      ensures c.Raised? ==> files == old(files) && log == old(log)
    {
      var raises: bool := *;
      if raises {
        return Raised;
      }
      ReplayStep(initial, log, Put(record));
      files := files[FileOf(record) := record];
      log := log + [Put(record)];
      return Done;
    }

    method Load(provider: string, targetId: string) returns (c: Completion, r: Option<KeeperRecord>)
      ensures c.Done? ==> r == Get(files, FileName(provider, targetId))
    {
      var raises: bool := *;
      var path := FileName(provider, targetId);
      if path !in files {
        return Done, None;
      }
      return if raises then Raised else Done, Some(files[path]);
    }

    method Remove(provider: string, targetId: string) returns (c: Completion)
      requires Valid()
      modifies this
      ensures Valid()
      ensures c.Done? ==>
                && files == old(files) - {FileName(provider, targetId)}
                && log == old(log) + [Delete(FileName(provider, targetId))]
      ensures c.Raised? ==> files == old(files) && log == old(log)
    {
      var raises: bool := *;
      if raises {
        return Raised;
      }
      var path := FileName(provider, targetId);
      ReplayStep(initial, log, Delete(path));
      files := files - {path};
      log := log + [Delete(path)];
      return Done;
    }

    /** `list`: the records of one provider, one per file, the files in some order. */
    method List(provider: string) returns (c: Completion, records: seq<KeeperRecord>)
      requires Valid()
      ensures c.Done? ==> forall r :: r in records <==> Get(files, FileOf(r)) == Some(r) && r.provider == provider
      ensures c.Done? ==> forall i, j | 0 <= i < j < |records| :: FileOf(records[i]) != FileOf(records[j])
    {
      hide FileName;
      records := [];
      var left := files.Keys;
      while left != {}
        invariant left <= files.Keys
        invariant forall r :: r in records <==>
                              Get(files, FileOf(r)) == Some(r) && FileOf(r) !in left && r.provider == provider
        invariant forall i, j | 0 <= i < j < |records| :: FileOf(records[i]) != FileOf(records[j])
        decreases |left|
      {
        var raises: bool := *;
        if raises {
          return Raised, records;
        }
        var path :| path in left;
        assert path == FileOf(files[path]) && files[path] !in records;
        left := left - {path};
        if files[path].provider == provider {
          records := records + [files[path]];
        }
      }
      return Done, records;
    }
  }
}
