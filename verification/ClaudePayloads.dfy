/** What the snapshot of a session says, in terms of the job file and the discovery entry as they were
    read (src/agent_keepalive/providers/claude.py:241-310, 456-500, 525-561). The names of the states are
    written out here once more, so that nothing rests on the functions that compute the snapshot. */
module ClaudePayloads {
  import opened Prelude
  import opened ClaudeProvider

  const FINAL_NAMES: set<string> := {"done", "failed", "error", "stopped", "cancelled"}
  const BUSY_NAMES: set<string> := {"active", "running", "working", "in_progress", "busy"}

  // ---- reading a payload --------------------------------------------------------------------------

  /** The payload has this string under the key. */
  predicate Says(p: Option<Payload>, key: string, v: string) {
    p.Some? && key in p.value && p.value[key] == JStr(v)
  }

  predicate SaysOneOf(p: Option<Payload>, key: string, vs: set<string>) {
    exists v | v in vs :: Says(p, key, v)
  }

  /** There is a string under the key, and it is not empty. */
  predicate HasString(p: Option<Payload>, key: string) {
    p.Some? && key in p.value && p.value[key].JStr?
  }

  predicate HasText(p: Option<Payload>, key: string) {
    HasString(p, key) && p.value[key] != JStr("")
  }

  /** Tasks are in flight. */
  predicate HasTasks(p: Option<Payload>) {
    && p.Some? && "inFlight" in p.value && p.value["inFlight"].JObj?
    && "tasks" in p.value["inFlight"].fields && p.value["inFlight"].fields["tasks"].JNum?
    && p.value["inFlight"].fields["tasks"].n > 0.0
  }

  /** The session is at work, by its job file or by its entry. */
  predicate AtWork(job: JobState, live: Option<Payload>) {
    && job.outcome == Ok
    && !SaysOneOf(job.payload, "state", FINAL_NAMES) && !Says(job.payload, "state", "blocked")
    && (HasTasks(job.payload) || SaysOneOf(live, "status", BUSY_NAMES) || SaysOneOf(job.payload, "state", BUSY_NAMES))
  }

  /** The session is over. */
  predicate Over(job: JobState, live: Option<Payload>) {
    && job.outcome == Ok
    && (|| SaysOneOf(job.payload, "state", FINAL_NAMES)
        || (!HasText(job.payload, "state") && !HasTasks(job.payload) && SaysOneOf(live, "status", FINAL_NAMES)))
  }

  /** The job file names this state, or names none and the entry names it. */
  predicate Named(job: JobState, live: Option<Payload>, v: string) {
    v != "" && (Says(job.payload, "state", v) || (!HasText(job.payload, "state") && Says(live, "status", v)))
  }

  /** What a status has to be. */
  predicate StatusShown(job: JobState, live: Option<Payload>, status: string) {
    match job.outcome
    case Invalid => status == "state_invalid"
    case Missing => status == "state_missing"
    case Ok =>
      if AtWork(job, live) then status == "active"
      else if HasText(job.payload, "state") then Says(job.payload, "state", status)
      else if HasText(live, "status") then Says(live, "status", status)
      else status == "unknown"
  }

  // ---- the snapshot ---------------------------------------------------------------------------------

  lemma ReadString(p: Option<Payload>, key: string)
    ensures ValueAsStr(p, key) == if HasString(p, key) then Some(p.value[key].s) else None
  {
  }

  lemma TasksAreRead(p: Option<Payload>)
    ensures InFlightTasks(p) > 0.0 <==> HasTasks(p)
  {
  }

  lemma NamesAreListed(p: Option<Payload>, key: string)
    ensures SaysOneOf(p, key, FINAL_NAMES) <==> HasString(p, key) && p.value[key].s in TERMINAL_STATES
    ensures SaysOneOf(p, key, BUSY_NAMES) <==> HasString(p, key) && p.value[key].s in ACTIVE_STATES
  {
    if HasString(p, key) {
      assert Says(p, key, p.value[key].s);
    }
  }

  lemma NamesAreApart()
    ensures "" !in FINAL_NAMES && "" !in BUSY_NAMES && "blocked" !in BUSY_NAMES && "unknown" !in FINAL_NAMES
    ensures "active" in BUSY_NAMES && FINAL_NAMES !! BUSY_NAMES
    ensures "blocked" !in FINAL_NAMES && "active" !in FINAL_NAMES
    ensures "state_invalid" !in FINAL_NAMES + BUSY_NAMES && "state_missing" !in FINAL_NAMES + BUSY_NAMES
  {
  }

  lemma StatusFromPayloadIs(job: JobState, live: Option<Payload>)
    requires job.outcome == Ok
    ensures StatusShown(job, live, StatusFromPayload(job.payload, live))
  {
    hide HasTasks, InFlightTasks, TERMINAL_STATES, ACTIVE_STATES, FINAL_NAMES, BUSY_NAMES, SaysOneOf, ValueAsStr;
    ReadString(job.payload, "state");
    ReadString(live, "status");
    NamesAreListed(job.payload, "state");
    NamesAreListed(live, "status");
    NamesAreApart();
    TasksAreRead(job.payload);
    EmptyIsNoName();
  }

  lemma EmptyIsNoName()
    ensures "" !in TERMINAL_STATES && "" !in ACTIVE_STATES
  {
  }

  /** The status of a present session, whatever its payloads hold; and exactly when it is "active",
      "blocked", "state_invalid" or "state_missing". */
  lemma StatusIs(host: Host, shortId: string, cwd: string, job: JobState, live: Option<Payload>)
    requires job.WellFormed() && (job.Present() || live.Some?)
    ensures var status := SnapshotFromSources(host, shortId, cwd, job, live).status;
            && StatusShown(job, live, status)
            && (status == "active" <==> AtWork(job, live))
            && (status == "blocked" <==> job.outcome == Ok && !AtWork(job, live) && Named(job, live, "blocked"))
            && (status == "state_invalid" <==>
                  || job.outcome == Invalid
                  || (job.outcome == Ok && !AtWork(job, live) && Named(job, live, "state_invalid")))
            && (status == "state_missing" <==>
                  || job.outcome == Missing
                  || (job.outcome == Ok && !AtWork(job, live) && Named(job, live, "state_missing")))
  {
    hide StatusFromPayload, HasTasks;
    if job.outcome == Ok {
      StatusFromPayloadIs(job, live);
      ShownIsNamed(job, live, StatusFromPayload(job.payload, live));
    }
  }

  /** A status other than "active" and "unknown" is a name that a payload gives. */
  lemma ShownIsNamed(job: JobState, live: Option<Payload>, status: string)
    requires job.outcome == Ok && StatusShown(job, live, status)
    ensures !AtWork(job, live) && status != "unknown" ==> Named(job, live, status)
    ensures forall v | !AtWork(job, live) && Named(job, live, v) :: v == status
    ensures status == "active" ==> AtWork(job, live)
  {
    hide HasTasks, FINAL_NAMES, BUSY_NAMES;
    NamesAreApart();
    if status == "active" && !AtWork(job, live) {
      OneString(job.payload, "state", "active");
      OneString(live, "status", "active");
      assert false;
    }
  }

  /** There is one string under a key. */
  lemma OneString(p: Option<Payload>, key: string, v: string)
    ensures Says(p, key, v) ==> forall w | Says(p, key, w) :: w == v
    ensures Says(p, key, v) && v in BUSY_NAMES ==> SaysOneOf(p, key, BUSY_NAMES) && !SaysOneOf(p, key, FINAL_NAMES)
    ensures !HasText(p, key) ==> !SaysOneOf(p, key, FINAL_NAMES) && !Says(p, key, "blocked")
  {
    NamesAreApart();
  }

  /** Exactly when a present session is terminal. */
  lemma OverIff(host: Host, shortId: string, cwd: string, job: JobState, live: Option<Payload>)
    requires job.WellFormed() && (job.Present() || live.Some?)
    ensures SnapshotFromSources(host, shortId, cwd, job, live).terminal <==> Over(job, live)
  {
    hide SnapshotFromSources, HasTasks, InFlightTasks, TERMINAL_STATES, SaysOneOf, ValueAsStr;
    TerminalIff(host, shortId, cwd, job, live);
    ReadString(job.payload, "state");
    ReadString(live, "status");
    NamesAreListed(job.payload, "state");
    NamesAreListed(live, "status");
    TasksAreRead(job.payload);
    EmptyIsNoName();
  }

  // ---- the other fields -------------------------------------------------------------------------------

  /** The session id: the one of the entry, if it names one, or else that of the job file. */
  predicate IdShown(job: JobState, live: Option<Payload>, id: Option<string>) {
    if HasText(live, "sessionId") then id.Some? && Says(live, "sessionId", id.value)
    else if HasString(job.payload, "sessionId") then id.Some? && Says(job.payload, "sessionId", id.value)
    else id.None?
  }

  /** The time of the last activity: that of the last update of the job file. */
  function UpdateTime(host: Host, job: JobState): Option<Time> {
    if HasString(job.payload, "updatedAt") then host.parseTimestamp(job.payload.value["updatedAt"].s) else None
  }

  lemma FieldsAre(host: Host, shortId: string, cwd: string, job: JobState, live: Option<Payload>)
    requires job.WellFormed() && (job.Present() || live.Some?)
    ensures var snap := SnapshotFromSources(host, shortId, cwd, job, live);
            && snap.loaded == (if job.outcome == Ok || live.Some? then Some(!Over(job, live)) else None)
            && (snap.blocked <==> snap.status == "blocked")
            && IdShown(job, live, snap.sessionId)
            && snap.displayName == (if snap.sessionId.GetOr("") != "" then snap.sessionId.value else shortId)
            && snap.lastActivityAt == UpdateTime(host, job)
            && snap.lastEventAt == snap.lastActivityAt
            && snap.idleSince == (if AtWork(job, live) then None else snap.lastActivityAt)
            && snap.cwd == cwd
            && (snap.liveStatus.Some? <==> HasString(live, "status"))
            && (snap.liveStatus.Some? ==> Says(live, "status", snap.liveStatus.value))
            && snap.liveEntryAvailable == live.Some?
  {
    hide StatusFromPayload, Over, AtWork, TERMINAL_STATES;
    OverIff(host, shortId, cwd, job, live);
    StatusIs(host, shortId, cwd, job, live);
  }

  // ---- entries and job files ----------------------------------------------------------------------------

  /** The id of an entry is that of the first key among the three that holds a non-empty string. */
  lemma EntryIdIs(entry: Payload)
    ensures var p := Some(entry);
            EntryId(entry) ==
            if HasText(p, "shortSessionId") then ShortSessionId(entry["shortSessionId"].s)
            else if HasText(p, "daemonShort") then ShortSessionId(entry["daemonShort"].s)
            else if HasText(p, "sessionId") then ShortSessionId(entry["sessionId"].s)
            else None
  {
    assert !MatchesUuid("") && !Hex8("");
    hide ShortSessionId;
    EmptyHasNoId();
  }

  lemma EmptyHasNoId()
    ensures ShortSessionId("") == None
  {
    assert !MatchesUuid("") && !Hex8("");
  }

  /** A key with a value that is neither a string nor null. */
  predicate Mistyped(p: Payload, key: string) {
    key in p && p[key] != JNull && !p[key].JStr?
  }

  /** What makes a parsed job file unusable. */
  predicate Malformed(host: Host, p: Payload) {
    || Mistyped(p, "state") || Mistyped(p, "updatedAt") || Mistyped(p, "sessionId") || Mistyped(p, "cwd")
    || (HasString(Some(p), "updatedAt") && host.parseTimestamp(p["updatedAt"].s).None?)
    || (HasString(Some(p), "cwd") && '\0' in p["cwd"].s)
    || ("inFlight" in p && p["inFlight"] != JNull &&
        (!p["inFlight"].JObj? || ("tasks" in p["inFlight"].fields && !p["inFlight"].fields["tasks"].JNum?)))
  }

  /** Exactly when a job file is usable: at most a mebibyte, a JSON object, and nothing in it malformed. */
  lemma JobIsUsableIff(host: Host, file: JobFile, shortId: string)
    ensures ReadJobState(host, file, shortId).outcome == Ok <==>
            && file.Sized? && file.bytes <= 1048576 && file.chars <= 1048576
            && file.parsed.Some? && file.parsed.value.JObj? && !Malformed(host, file.parsed.value.fields)
  {
  }

  /** The groups of a text that matches. */
  lemma UuidGroups(value: string)
    requires MatchesUuid(value)
    ensures IsUuidOf(value, value[..8])
  {
    var a, b, c, d, e := value[..8], value[9..13], value[14..18], value[19..23], value[24..36];
    var rest, uuid := b + c + d + e, a + "-" + b + "-" + c + "-" + d + "-" + e;
    forall i | 0 <= i < 24 ensures Hex(rest[i]) {
      var k := if i < 4 then 9 + i else if i < 8 then 10 + i else if i < 12 then 11 + i else 12 + i;
      assert rest[i] == value[k];
    }
    assert value[8] == value[13] == value[18] == value[23] == '-';
    assert value[..36] == uuid;
    assert |value| == 37 ==> value == value[..36] + "\n";
    assert |value| == 36 ==> value == value[..36];
    assert IsUuid(value, a, b, c, d, e);
  }

  lemma MatchIsLonger(value: string)
    ensures MatchesUuid(value) ==> |value| > 8 && AllHex(value[..8])
  {
  }

  /** An id is found in a text exactly if it is eight hexadecimal digits, or five groups of eight, four,
      four, four and twelve of them, with dashes between, and perhaps a line end. */
  lemma ShortSessionIdIff(value: string, id: string)
    ensures ShortSessionId(value) == Some(id) <==> AllHex(id) && |id| == 8 && (value == id || IsUuidOf(value, id))
  {
    MatchIsLonger(value);
    hide MatchesUuid, IsUuid;
    if ShortSessionId(value) == Some(id) && value != id {
      UuidGroups(value);
    } else if AllHex(id) && |id| == 8 && IsUuidOf(value, id) {
      var b, c, d, e :| IsUuid(value, id, b, c, d, e);
      UuidMatches(value, id, b, c, d, e);
    }
  }

  predicate IsUuid(value: string, a: string, b: string, c: string, d: string, e: string) {
    && AllHex(b + c + d + e) && |b| == 4 && |c| == 4 && |d| == 4 && |e| == 12
    && (value == a + "-" + b + "-" + c + "-" + d + "-" + e || value == a + "-" + b + "-" + c + "-" + d + "-" + e + "\n")
  }

  ghost predicate IsUuidOf(value: string, a: string) {
    exists b, c, d, e :: IsUuid(value, a, b, c, d, e)
  }

  lemma UuidMatches(value: string, a: string, b: string, c: string, d: string, e: string)
    requires AllHex(a) && |a| == 8 && IsUuid(value, a, b, c, d, e)
    ensures MatchesUuid(value) && value[..8] == a
  {
    var rest := b + c + d + e;
    forall i | 0 <= i < 36
      ensures if i == 8 || i == 13 || i == 18 || i == 23 then value[i] == '-' else Hex(value[i])
    {
      assert i < 8 ==> value[i] == a[i];
      assert 8 < i < 13 ==> value[i] == rest[i - 9];
      assert 13 < i < 18 ==> value[i] == rest[i - 10];
      assert 18 < i < 23 ==> value[i] == rest[i - 11];
      assert 23 < i ==> value[i] == rest[i - 12];
    }
  }
}
