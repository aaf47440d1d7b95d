/** The observations the Claude supervisor works on: how a discovery run and a job file are
    classified, how a session id is recognised, and how both become one normalized snapshot
    (src/agent_keepalive/providers/claude.py). */
module ClaudeProvider {
  import opened Prelude

  datatype Json =
    | JNull
    | JBool(b: bool)
    | JNum(n: real)
    | JStr(s: string)
    | JArr(items: seq<Json>)
    | JObj(fields: map<string, Json>)

  type Payload = map<string, Json>
  type Time = int

  /** Library functions the code calls and whose results are taken as given. */
  datatype Host = Host(
    parseTimestamp: string -> Option<Time>,
    isoformat: Time -> string,
    resolvePath: string -> Option<string>,
    fingerprint: string -> string)

  const TERMINAL_STATES: set<string> := {"done", "failed", "error", "stopped", "cancelled"}
  const ACTIVE_STATES: set<string> := {"active", "running", "working", "in_progress", "busy"}
  const MAX_JOB_STATE_BYTES := 1024 * 1024

  function ValueAsStr(payload: Option<Payload>, key: string): Option<string> {
    if payload.Some? && key in payload.value && payload.value[key].JStr?
    then Some(payload.value[key].s) else None
  }

  // ---- session ids ----------------------------------------------------------------------

  predicate Hex(c: char) {
    '0' <= c <= '9' || 'a' <= c <= 'f' || 'A' <= c <= 'F'
  }

  predicate AllHex(s: string) {
    forall i | 0 <= i < |s| :: Hex(s[i])
  }

  predicate Hex8(s: string) {
    |s| == 8 && AllHex(s)
  }

  /** UUID_RE.match: the anchor `$` also accepts one trailing newline. */
  predicate MatchesUuid(s: string) {
    && (|s| == 36 || (|s| == 37 && s[36] == '\n'))
    && forall i | 0 <= i < 36 ::
         if i == 8 || i == 13 || i == 18 || i == 23 then s[i] == '-' else Hex(s[i])
  }

  function ShortSessionId(value: string): (r: Option<string>)
    ensures r.Some? ==> Hex8(r.value) && r.value <= value
    ensures r.Some? <==> MatchesUuid(value) || Hex8(value)
  {
    if MatchesUuid(value) then
      assert forall i | 0 <= i < 8 :: value[..8][i] == value[i];
      Some(value[..8])
    else if Hex8(value) then Some(value)
    else None
  }

  // ---- discovery ------------------------------------------------------------------------

  datatype DiscoveryOutcome = Success | Empty | Failure | InvalidJson

  datatype Discovery = Discovery(outcome: DiscoveryOutcome, entries: seq<Payload>) {
    predicate Authoritative() {
      outcome == Success || outcome == Empty
    }
  }

  predicate TypedAsStringOrAbsent(entry: Payload, key: string) {
    key in entry ==> entry[key].JNull? || entry[key].JStr?
  }

  predicate DiscoveryEntryIsValid(entry: Payload) {
    var identity := OrElse(ValueAsStr(Some(entry), "shortSessionId"),
                           OrElse(ValueAsStr(Some(entry), "daemonShort"),
                                  ValueAsStr(Some(entry), "sessionId")));
    && identity.Some?
    && ShortSessionId(identity.value).Some?
    && TypedAsStringOrAbsent(entry, "cwd")
    && TypedAsStringOrAbsent(entry, "status")
    && '\0' !in ValueAsStr(Some(entry), "cwd").GetOr("")
  }

  /** The id under which the supervisor caches an entry (claude_supervisor.py:185-196). */
  function EntryId(entry: Payload): Option<string> {
    var sessionId := ValueAsStr(Some(entry), "sessionId").GetOr("");
    var candidate := OrElse(ValueAsStr(Some(entry), "shortSessionId"),
                            OrElse(ValueAsStr(Some(entry), "daemonShort"), Some(sessionId)));
    ShortSessionId(candidate.value)
  }

  /** Validation and id extraction agree: a valid entry always has an id, and an entry that has an id
      can only be invalid because `cwd` or `status` is something else than a string or null, or because
      `cwd` holds a null character. */
  lemma ValidationAgreesWithExtraction(entry: Payload)
    ensures DiscoveryEntryIsValid(entry) <==>
            && EntryId(entry).Some?
            && ("cwd" !in entry || entry["cwd"] == JNull || (entry["cwd"].JStr? && '\0' !in entry["cwd"].s))
            && ("status" !in entry || entry["status"] == JNull || entry["status"].JStr?)
  {
    assert !MatchesUuid("") && !Hex8("");
  }

  /** What running `claude agents --json` can come back with. */
  datatype CliRun =
    | TimedOut
    | NotStarted
    | Undecodable
    | Exited(code: int, stdout: Stdout)
  datatype Stdout = Blank | NotJson | Parsed(value: Json)

  function ObjectEntries(items: seq<Json>): (r: Option<seq<Payload>>)
    ensures r.Some? <==> forall j | j in items :: j.JObj?
    ensures r.Some? ==> |r.value| == |items| && forall i | 0 <= i < |items| :: items[i] == JObj(r.value[i])
  {
    if items == [] then Some([])
    else
      var rest := ObjectEntries(items[1..]);
      if items[0].JObj? && rest.Some? then Some([items[0].fields] + rest.value)
      else
        assert forall j | j in items :: j == items[0] || j in items[1..];
        None
  }

  function DiscoverClaude(run: CliRun): Discovery {
    match run
    case TimedOut => Discovery(Failure, [])
    case NotStarted => Discovery(Failure, [])
    case Undecodable => Discovery(InvalidJson, [])
    case Exited(code, stdout) =>
      if code != 0 then Discovery(Failure, [])
      else if stdout.NotJson? then Discovery(InvalidJson, [])
      else
        var value := if stdout.Blank? then JArr([]) else stdout.value;
        if !value.JArr? then Discovery(InvalidJson, [])
        else
          var entries := ObjectEntries(value.items);
          if entries.None? then Discovery(InvalidJson, [])
          else if exists e | e in entries.value :: !DiscoveryEntryIsValid(e) then Discovery(InvalidJson, [])
          else Discovery(if entries.value == [] then Empty else Success, entries.value)
  }

  /** What a printed array comes to. */
  lemma ArrayIsDiscovered(items: seq<Json>)
    ensures var d := DiscoverClaude(Exited(0, Parsed(JArr(items))));
            && (d.Authoritative() <==> forall j | j in items :: j.JObj? && DiscoveryEntryIsValid(j.fields))
            && (d.outcome == Empty <==> d.Authoritative() && d.entries == [])
            && (!d.Authoritative() ==> d.entries == [] && d.outcome == InvalidJson)
            && (d.Authoritative() ==>
                  |d.entries| == |items| && forall i | 0 <= i < |items| :: items[i] == JObj(d.entries[i]))
  {
    hide ObjectEntries, DiscoveryEntryIsValid;
    var entries := ObjectEntries(items);
    if entries.Some? {
      assert forall i | 0 <= i < |items| :: items[i] in items && entries.value[i] in entries.value;
      assert forall e | e in entries.value :: JObj(e) in items;
    }
  }

  lemma ValidEntriesHaveIds(items: seq<Json>, entries: seq<Payload>)
    requires |entries| == |items| && forall i | 0 <= i < |items| :: items[i] == JObj(entries[i])
    requires forall j | j in items :: j.JObj? && DiscoveryEntryIsValid(j.fields)
    ensures forall e | e in entries :: EntryId(e).Some?
  {
    forall e | e in entries ensures EntryId(e).Some? {
      var i :| 0 <= i < |entries| && entries[i] == e;
      assert items[i] in items;
      ValidationAgreesWithExtraction(e);
    }
  }

  /** A discovery is authoritative exactly when the command exited with 0 and printed nothing or
      an array of valid entries; then its entries are the printed objects, in order. */
  lemma AuthoritativeIff(run: CliRun)
    ensures var d := DiscoverClaude(run);
            && (d.Authoritative() <==>
                && run.Exited? && run.code == 0
                && (run.stdout.Blank? ||
                    (run.stdout.Parsed? && run.stdout.value.JArr? &&
                     forall j | j in run.stdout.value.items :: j.JObj? && DiscoveryEntryIsValid(j.fields))))
            && (d.outcome == Empty <==> d.Authoritative() && d.entries == [])
            && (!d.Authoritative() || run.stdout.Blank? ==> d.entries == [])
            && (d.Authoritative() && run.stdout.Parsed? ==>
                |d.entries| == |run.stdout.value.items| &&
                forall i | 0 <= i < |d.entries| :: run.stdout.value.items[i] == JObj(d.entries[i]))
            && (forall e | e in d.entries :: EntryId(e).Some?)
            && (d.outcome == Failure <==> run.TimedOut? || run.NotStarted? || (run.Exited? && run.code != 0))
  {
    hide ObjectEntries, DiscoveryEntryIsValid, EntryId;
    if run.Exited? && run.code == 0 && run.stdout.Parsed? && run.stdout.value.JArr? {
      ArrayIsDiscovered(run.stdout.value.items);
      if DiscoverClaude(run).Authoritative() {
        ValidEntriesHaveIds(run.stdout.value.items, DiscoverClaude(run).entries);
      }
    } else {
      NothingToCollect();
    }
  }

  lemma NothingToCollect()
    ensures ObjectEntries([]) == Some([])
  {
  }

  // ---- job files ------------------------------------------------------------------------

  datatype JobOutcome = Ok | Invalid | Missing
  datatype JobState = JobState(outcome: JobOutcome, payload: Option<Payload>) {
    /** An "ok" result carries its payload and the other two carry none. */
    predicate WellFormed() {
      outcome == Ok <==> payload.Some?
    }

    predicate Present() {
      outcome == Ok || outcome == Invalid
    }
  }

  /** What reading `jobs/<id>/state.json` can come back with. */
  datatype JobFile =
    | NotFound
    | Unreadable
    | Sized(bytes: nat, chars: nat, parsed: Option<Json>)

  predicate JobPayloadIsValid(host: Host, p: Payload) {
    && TypedAsStringOrAbsent(p, "state")
    && TypedAsStringOrAbsent(p, "updatedAt")
    && TypedAsStringOrAbsent(p, "sessionId")
    && TypedAsStringOrAbsent(p, "cwd")
    && ("updatedAt" in p && p["updatedAt"].JStr? ==> host.parseTimestamp(p["updatedAt"].s).Some?)
    && ("inFlight" in p && !p["inFlight"].JNull? ==>
          && p["inFlight"].JObj?
          && ("tasks" in p["inFlight"].fields ==> p["inFlight"].fields["tasks"].JNum?))
    && ("cwd" in p && p["cwd"].JStr? ==> '\0' !in p["cwd"].s)
  }

  function ReadJobState(host: Host, file: JobFile, shortId: string): (r: JobState)
    ensures r.WellFormed()
    ensures r.outcome == Missing <==> file.NotFound?
    ensures r.outcome == Ok <==>
            && file.Sized? && file.bytes <= MAX_JOB_STATE_BYTES && file.chars <= MAX_JOB_STATE_BYTES
            && file.parsed.Some? && file.parsed.value.JObj? && JobPayloadIsValid(host, file.parsed.value.fields)
    ensures r.outcome == Ok ==> r.payload == Some(file.parsed.value.fields["short_id" := JStr(shortId)])
  {
    match file
    case NotFound => JobState(Missing, None)
    case Unreadable => JobState(Invalid, None)
    case Sized(bytes, chars, parsed) =>
      if bytes > MAX_JOB_STATE_BYTES || chars > MAX_JOB_STATE_BYTES then JobState(Invalid, None)
      else if parsed.None? || !parsed.value.JObj? then JobState(Invalid, None)
      else if !JobPayloadIsValid(host, parsed.value.fields) then JobState(Invalid, None)
      else JobState(Ok, Some(parsed.value.fields["short_id" := JStr(shortId)]))
  }

  function InFlightTasks(state: Option<Payload>): real {
    if state.None? || "inFlight" !in state.value || !state.value["inFlight"].JObj? then 0.0
    else
      var inFlight := state.value["inFlight"].fields;
      if "tasks" in inFlight && inFlight["tasks"].JNum? then inFlight["tasks"].n else 0.0
  }

  // ---- snapshots ------------------------------------------------------------------------

  function StatusFromPayload(state: Option<Payload>, live: Option<Payload>): string {
    var stateName := ValueAsStr(state, "state");
    var liveStatus := ValueAsStr(live, "status");
    if stateName.Some? && (stateName.value in TERMINAL_STATES || stateName.value == "blocked") then stateName.value
    else if InFlightTasks(state) > 0.0 then "active"
    else if liveStatus.Some? && liveStatus.value in ACTIVE_STATES then "active"
    else if stateName.Some? && stateName.value in ACTIVE_STATES then "active"
    else OrElse(OrElse(stateName, liveStatus), Some("unknown")).value
  }

  datatype Snapshot = Snapshot(
    status: string,
    loaded: Option<bool>,
    blocked: bool,
    terminal: bool,
    lastActivityAt: Option<Time>,
    lastEventAt: Option<Time>,
    idleSince: Option<Time>,
    displayName: string,
    sessionId: Option<string>,
    cwd: string,
    liveStatus: Option<string>,
    liveEntryAvailable: bool)

  function SnapshotFromSources(host: Host, shortId: string, cwd: string, job: JobState, live: Option<Payload>): Snapshot
  {
    var state := job.payload;
    var sessionId := OrElse(ValueAsStr(live, "sessionId"), ValueAsStr(state, "sessionId"));
    var status :=
      if job.outcome == Invalid then "state_invalid"
      else if job.outcome == Missing && live.Some? then "state_missing"
      else StatusFromPayload(state, live);
    var updatedAt := ValueAsStr(state, "updatedAt");
    var activity := if updatedAt.Some? then host.parseTimestamp(updatedAt.value) else None;
    var terminal := status in TERMINAL_STATES;
    Snapshot(status,
             if state.Some? || live.Some? then Some(!terminal) else None,
             status == "blocked",
             terminal,
             activity,
             activity,
             if status == "active" then None else activity,
             OrElse(sessionId, Some(shortId)).value,
             sessionId,
             cwd,
             ValueAsStr(live, "status"),
             live.Some?)
  }

  /** Exactly when a present session is shown as terminal: its job file is readable and either
      names a terminal state, or names none, has nothing in flight, and the discovery entry names
      a terminal one. A malformed or absent job file is never terminal. */
  lemma TerminalIff(host: Host, shortId: string, cwd: string, job: JobState, live: Option<Payload>)
    requires job.WellFormed()
    requires job.Present() || live.Some?
    ensures var stateName := ValueAsStr(job.payload, "state");
            var liveStatus := ValueAsStr(live, "status");
            SnapshotFromSources(host, shortId, cwd, job, live).terminal <==>
            && job.outcome == Ok
            && (|| (stateName.Some? && stateName.value in TERMINAL_STATES)
                || (&& stateName.GetOr("") == ""
                    && !(InFlightTasks(job.payload) > 0.0)
                    && liveStatus.Some? && liveStatus.value in TERMINAL_STATES))
  {
    assert "active" !in TERMINAL_STATES && "unknown" !in TERMINAL_STATES && "" !in TERMINAL_STATES;
    assert "state_invalid" !in TERMINAL_STATES && "state_missing" !in TERMINAL_STATES;
    assert TERMINAL_STATES !! ACTIVE_STATES;
    assert "blocked" !in TERMINAL_STATES;
  }
}
