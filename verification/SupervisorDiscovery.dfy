/** The discovery side of the supervisor over whole runs: what the cache of entries holds, and how
    often the discovery command is run (src/agent_keepalive/claude_supervisor.py:156-197). */
module SupervisorDiscovery {
  import opened Prelude
  import opened ClaudeProvider
  import opened SupervisorSpec

  // ---- the cache ------------------------------------------------------------------------

  /** `entries[i]` is the last entry with its id. */
  ghost predicate LastOfItsId(entries: seq<Payload>, i: nat, id: string) {
    && i < |entries| && EntryId(entries[i]) == Some(id)
    && forall j | i < j < |entries| :: EntryId(entries[j]) != Some(id)
  }

  /** Where the cached entry of an id comes from. */
  ghost function OriginOf(entries: seq<Payload>, id: string): (i: nat)
    requires id in EntriesById(entries)
    ensures LastOfItsId(entries, i, id) && EntriesById(entries)[id] == entries[i]
  {
    var n := |entries| - 1;
    if EntryId(entries[n]) == Some(id) then n else OriginOf(entries[..n], id)
  }

  /** The cache maps exactly the ids that occur, each to its last entry. */
  lemma {:induction false} CacheHoldsLastEntries(entries: seq<Payload>, id: string)
    ensures id in EntriesById(entries) <==> exists i: nat :: LastOfItsId(entries, i, id)
    ensures forall i: nat | LastOfItsId(entries, i, id) :: EntriesById(entries)[id] == entries[i]
  {
    if id in EntriesById(entries) {
      assert LastOfItsId(entries, OriginOf(entries, id), id);
    }
    forall i: nat | LastOfItsId(entries, i, id)
      ensures id in EntriesById(entries) && EntriesById(entries)[id] == entries[i]
    {
      var n := |entries| - 1;
      if i < n {
        assert LastOfItsId(entries[..n], i, id);
        CacheHoldsLastEntries(entries[..n], id);
      }
    }
  }

  lemma {:induction false} EveryIdHasALast(entries: seq<Payload>, j: nat, id: string) returns (i: nat)
    requires j < |entries| && EntryId(entries[j]) == Some(id)
    ensures LastOfItsId(entries, i, id)
    decreases |entries| - j
  {
    if LastOfItsId(entries, j, id) {
      i := j;
    } else {
      var m :| j < m < |entries| && EntryId(entries[m]) == Some(id);
      i := EveryIdHasALast(entries, m, id);
    }
  }

  /** `items[j]` is the last object printed with this id. */
  ghost predicate LastPrinted(items: seq<Json>, j: nat, id: string) {
    && j < |items| && PrintedWithId(items[j], id)
    && forall h | j < h < |items| :: !PrintedWithId(items[h], id)
  }

  predicate PrintedWithId(item: Json, id: string) {
    item.JObj? && EntryId(item.fields) == Some(id)
  }

  lemma LastPrintedIsLast(items: seq<Json>, entries: seq<Payload>, j: nat, id: string)
    requires |items| == |entries| && forall i | 0 <= i < |entries| :: items[i] == JObj(entries[i])
    ensures LastPrinted(items, j, id) <==> LastOfItsId(entries, j, id)
  {
    if j < |items| {
      assert forall h | j <= h < |items| :: PrintedWithId(items[h], id) <==> EntryId(entries[h]) == Some(id);
    }
  }

  /** Nothing that a validated discovery printed is dropped: every printed object has an id, the cache
      holds exactly the ids printed, and under each the last object printed with it. */
  lemma ValidatedEntriesAreCached(run: CliRun, id: string)
    requires DiscoverClaude(run).Authoritative() && run.stdout.Parsed?
    ensures run.stdout.value.JArr?
    ensures var items, cache := run.stdout.value.items, EntriesById(DiscoverClaude(run).entries);
            && (forall item | item in items :: item.JObj? && EntryId(item.fields).Some?)
            && (id in cache <==> exists item | item in items :: PrintedWithId(item, id))
            && (id in cache <==> exists j: nat :: LastPrinted(items, j, id))
            && (forall j: nat | LastPrinted(items, j, id) ::
                  Get(cache, id).Some? && items[j] == JObj(Get(cache, id).value))
  {
    hide DiscoverClaude, EntriesById, EntryId, LastOfItsId, LastPrinted;
    AuthoritativeIff(run);
    var items, entries := run.stdout.value.items, DiscoverClaude(run).entries;
    forall item | item in items ensures item.JObj? && EntryId(item.fields).Some? {
      var i :| 0 <= i < |items| && items[i] == item;
      assert entries[i] in entries;
    }
    CacheHoldsLastEntries(entries, id);
    forall j: nat ensures LastPrinted(items, j, id) <==> LastOfItsId(entries, j, id) {
      LastPrintedIsLast(items, entries, j, id);
    }
    if item :| item in items && PrintedWithId(item, id) {
      var i :| 0 <= i < |items| && items[i] == item;
      var last := EveryIdHasALast(entries, i, id);
    }
    if j: nat :| LastPrinted(items, j, id) {
      LastPrintedIsPrinted(items, j, id);
    }
    forall j: nat | LastPrinted(items, j, id) ensures j < |items| && id in EntriesById(entries) {
      LastPrintedIsPrinted(items, j, id);
    }
  }

  lemma LastPrintedIsPrinted(items: seq<Json>, j: nat, id: string)
    requires LastPrinted(items, j, id)
    ensures j < |items| && items[j] in items && PrintedWithId(items[j], id)
  {
  }

  // ---- the cache and the history ----------------------------------------------------------

  ghost predicate CalledAt(cfg: Config, root: string, os: seq<Obs>, j: nat)
    requires j < |os|
  {
    DiscoveryDue(cfg, RootAfter(cfg, root, os[..j]), os[j].now)
  }

  ghost predicate SuccessAt(cfg: Config, root: string, os: seq<Obs>, j: nat)
    requires j < |os|
  {
    CalledAt(cfg, root, os, j) && os[j].discover(root).Authoritative()
  }

  /** The last tick at which the root was discovered successfully, if there is one. */
  ghost function LastSuccess(cfg: Config, root: string, os: seq<Obs>, n: nat): (r: Option<nat>)
    requires n <= |os|
    ensures r.Some? ==> r.value < n && SuccessAt(cfg, root, os, r.value)
                        && forall j | r.value < j < n :: !SuccessAt(cfg, root, os, j)
    ensures r.None? ==> forall j | 0 <= j < n :: !SuccessAt(cfg, root, os, j)
  {
    if n == 0 then None
    else if SuccessAt(cfg, root, os, n - 1) then Some(n - 1)
    else LastSuccess(cfg, root, os, n - 1)
  }

  /** At every point of every run the cached entries are those of the most recent successful
      discovery, and none before the first: failures leave the cache alone. */
  lemma {:induction false} CacheAgreesWithHistory(cfg: Config, root: string, os: seq<Obs>, n: nat)
    requires n <= |os|
    ensures var last := LastSuccess(cfg, root, os, n);
            RootAfter(cfg, root, os[..n]).entries ==
            if last.Some? then EntriesById(os[last.value].discover(root).entries) else map[]
  {
    if n > 0 {
      CacheAgreesWithHistory(cfg, root, os, n - 1);
      assert os[..n][..n - 1] == os[..n - 1];
    }
  }

  /** The last tick before `n` at which the root's discovery command was run, if there is one. */
  ghost function LastCall(cfg: Config, root: string, os: seq<Obs>, n: nat): (r: Option<nat>)
    requires n <= |os|
    ensures r.Some? ==> r.value < n && CalledAt(cfg, root, os, r.value)
                        && forall j | r.value < j < n :: !CalledAt(cfg, root, os, j)
    ensures r.None? ==> forall j | 0 <= j < n :: !CalledAt(cfg, root, os, j)
  {
    if n == 0 then None
    else if CalledAt(cfg, root, os, n - 1) then Some(n - 1)
    else LastCall(cfg, root, os, n - 1)
  }

  /** What is remembered of the last call, at every point of every run. */
  lemma {:induction false} LastCallIsRemembered(cfg: Config, root: string, os: seq<Obs>, n: nat)
    requires n <= |os|
    ensures var d, last := RootAfter(cfg, root, os[..n]), LastCall(cfg, root, os, n);
            && d.lastDiscoveryAt == (if last.Some? then Some(os[last.value].now) else None)
            && d.result == (if last.Some? then Some(os[last.value].discover(root)) else None)
  {
    hide EntriesById;
    if n > 0 {
      LastCallIsRemembered(cfg, root, os, n - 1);
      assert os[..n][..n - 1] == os[..n - 1];
    }
  }

  /** The command is run at the first tick, and then whenever the interval has passed since it was run
      last; and the supervisor trusts the absence of a session just if the last run succeeded. */
  lemma CalledIff(cfg: Config, root: string, os: seq<Obs>, j: nat)
    requires j < |os|
    ensures var last := LastCall(cfg, root, os, j);
            CalledAt(cfg, root, os, j) <==> last.None? || os[j].now - os[last.value].now >= cfg.discoveryInterval
    ensures var last := LastCall(cfg, root, os, j + 1);
            RootAfter(cfg, root, os[..j + 1]).Authoritative()
            <==> last.Some? && os[last.value].discover(root).outcome in {Success, Empty}
  {
    LastCallIsRemembered(cfg, root, os, j);
    LastCallIsRemembered(cfg, root, os, j + 1);
  }

  // ---- the rate of calls ------------------------------------------------------------------

  /** The times at which the discovery command is run for a root. */
  ghost function Calls(cfg: Config, root: string, os: seq<Obs>): seq<real> {
    if os == [] then []
    else
      var n := |os| - 1;
      var earlier := Calls(cfg, root, os[..n]);
      if DiscoveryDue(cfg, RootAfter(cfg, root, os[..n]), os[n].now) then earlier + [os[n].now] else earlier
  }

  lemma OneIntervalMore(n: nat, interval: real, first: real, last: real, now: real)
    requires n > 0 && (n - 1) as real * interval <= last - first && interval <= now - last
    ensures n as real * interval <= now - first
  {
    assert n as real * interval == (n - 1) as real * interval + interval;
  }

  /** Calls are at least one interval apart, whatever the clock does; and after every tick the last
      one is less than one interval old. */
  lemma {:induction false} CallsAreSpaced(cfg: Config, root: string, os: seq<Obs>)
    ensures var calls := Calls(cfg, root, os);
            && RootAfter(cfg, root, os).lastDiscoveryAt == (if calls == [] then None else Some(calls[|calls| - 1]))
            && (os != [] ==> calls != [] && calls[0] == os[0].now)
            && (calls != [] ==> (|calls| - 1) as real * cfg.discoveryInterval <= calls[|calls| - 1] - calls[0])
            && (os != [] && cfg.discoveryInterval > 0.0 ==>
                  os[|os| - 1].now - calls[|calls| - 1] < cfg.discoveryInterval)
  {
    hide EntriesById;
    if os != [] {
      var n := |os| - 1;
      CallsAreSpaced(cfg, root, os[..n]);
      var earlier := Calls(cfg, root, os[..n]);
      if DiscoveryDue(cfg, RootAfter(cfg, root, os[..n]), os[n].now) && earlier != [] {
        OneIntervalMore(|earlier|, cfg.discoveryInterval, earlier[0], earlier[|earlier| - 1], os[n].now);
      }
    }
  }

  ghost predicate MonotoneClock(os: seq<Obs>) {
    forall i, j | 0 <= i <= j < |os| :: os[i].now <= os[j].now
  }

  lemma {:induction false} LastCallIsPast(cfg: Config, root: string, os: seq<Obs>)
    requires MonotoneClock(os) && os != []
    ensures Calls(cfg, root, os) != [] && Calls(cfg, root, os)[|Calls(cfg, root, os)| - 1] <= os[|os| - 1].now
  {
    if |os| > 1 {
      LastCallIsPast(cfg, root, os[..|os| - 1]);
    } else {
      assert os[..0] == [];
    }
  }

  lemma FloorBound(count: nat, interval: real, elapsed: real)
    requires interval > 0.0 && count >= 1 && (count - 1) as real * interval <= elapsed
    ensures count <= (elapsed / interval).Floor + 1
  {
    assert (count - 1) as real <= elapsed / interval;
  }

  /** One root is discovered at most once per started interval of the elapsed time. */
  lemma CallsOfARootAreBounded(cfg: Config, root: string, os: seq<Obs>)
    requires MonotoneClock(os) && os != [] && cfg.discoveryInterval > 0.0
    ensures |Calls(cfg, root, os)| <= ((os[|os| - 1].now - os[0].now) / cfg.discoveryInterval).Floor + 1
  {
    hide Calls, RootAfter, MonotoneClock;
    CallsAreSpaced(cfg, root, os);
    LastCallIsPast(cfg, root, os);
    FloorBound(|Calls(cfg, root, os)|, cfg.discoveryInterval, os[|os| - 1].now - os[0].now);
  }

  ghost function TotalCalls(cfg: Config, roots: seq<string>, os: seq<Obs>): nat {
    if roots == [] then 0 else |Calls(cfg, roots[0], os)| + TotalCalls(cfg, roots[1..], os)
  }

  /** The discovery work grows with roots and elapsed intervals, whatever the number of sessions. */
  lemma {:induction false} TotalCallsAreBounded(cfg: Config, roots: seq<string>, os: seq<Obs>)
    requires MonotoneClock(os) && os != [] && cfg.discoveryInterval > 0.0
    ensures TotalCalls(cfg, roots, os)
         <= |roots| * (((os[|os| - 1].now - os[0].now) / cfg.discoveryInterval).Floor + 1)
  {
    if roots != [] {
      CallsOfARootAreBounded(cfg, roots[0], os);
      TotalCallsAreBounded(cfg, roots[1..], os);
      var bound := ((os[|os| - 1].now - os[0].now) / cfg.discoveryInterval).Floor + 1;
      assert |roots| * bound == bound + (|roots| - 1) * bound;
    }
  }
}
