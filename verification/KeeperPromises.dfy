/** What the keeper of a Codex thread promises, said of the notifications it receives, of signals and of
    the clock (src/agent_keepalive/runner.py:79-146, src/agent_keepalive/activity.py:60-179). */
module KeeperPromises {
  import opened Prelude
  import opened Activity
  import opened KeeperLoop

  // ---- what a turn brings -------------------------------------------------------------------------

  /** A notification of this name about the thread. */
  predicate Brings(turn: Turn, id: string, name: string) {
    && turn.event.Arrived? && turn.event.m.rpcMethod == Some(name) && turn.event.m.params.Some?
    && var params := turn.event.m.params.value;
       params.threadId == Some(id) || (params.threadId == None && params.innerThreadId == Some(id))
  }

  predicate BringsStatus(turn: Turn, id: string, status: string) {
    Brings(turn, id, "thread/status/changed") && turn.event.m.params.value.statusType == Some(status)
  }

  /** The thread starts to work. */
  predicate StartsWork(turn: Turn, id: string) {
    Brings(turn, id, "turn/started") || Brings(turn, id, "item/started") || BringsStatus(turn, id, "active")
  }

  /** The thread gets another status. */
  predicate StopsWork(turn: Turn, id: string) {
    Brings(turn, id, "thread/status/changed") &&
    turn.event.m.params.value.statusType.Some? && turn.event.m.params.value.statusType.value !in {"", "active"}
  }

  predicate Unloads(turn: Turn, id: string) {
    Brings(turn, id, "thread/closed") || BringsStatus(turn, id, "notLoaded")
  }

  /** The turn brings a sign of activity. */
  predicate BringsActivity(turn: Turn, id: string) {
    && turn.event.Arrived? && turn.event.m.rpcMethod.Some?
    && var name := turn.event.m.rpcMethod.value;
       && Brings(turn, id, name)
       && ("turn/" <= name || "item/" <= name || "hook/" <= name || "process/" <= name || "command/exec/" <= name)
  }

  /** Nothing that the turn brings changes the status. */
  predicate LeavesStatus(turn: Turn, id: string) {
    !StartsWork(turn, id) && !StopsWork(turn, id) && !Brings(turn, id, "thread/closed")
  }

  lemma NamesOfStatus()
    ensures HintsActive("turn/started") && HintsActive("item/started")
    ensures !IsIgnored("turn/started") && !IsIgnored("item/started")
    ensures !IsIgnored("thread/status/changed") && !IsIgnored("thread/closed")
    ensures forall name :: HintsActive(name) ==> name == "turn/started" || name == "item/started"
  {
    assert "turn/started"[1] == 'u' && "item/started"[0] == 'i';
    assert "thread/status/changed"[7] == 's' && "thread/closed"[7] == 'c' && "thread/tokenUsage/updated"[7] == 't';
    assert "thread/status/changed"[0] == "thread/closed"[0] == 't';
    assert "remoteControl/status/changed"[0] == 'r' && "mcpServer/startupStatus/updated"[0] == 'm';
    assert "thread/tokenUsage/updated"[1] == 'h';
  }

  /** The status and the time the thread counts as idle from, after a turn. */
  lemma TurnEffect(t: Tracker, turn: Turn)
    ensures var u, id := Observe(t, turn), t.threadId;
            && u.threadId == id
            && (StartsWork(turn, id) ==> u.status == "active")
            && (StopsWork(turn, id) ==> u.status == turn.event.m.params.value.statusType.value
                                        && u.idleSince == u.lastActivityAt && u.idleSince.Some?)
            && (Brings(turn, id, "thread/closed") ==> u.status == "notLoaded")
            && (LeavesStatus(turn, id) ==> u.status == t.status && u.idleSince == t.idleSince)
  {
    hide HintsActive, IsIgnored, IsMeaningful;
    NamesOfStatus();
    assert "turn/started"[1] == 'u' && "item/started"[0] == 'i' && "thread/closed"[7] == 'c';
    assert "thread/status/changed"[7] == 's' && "thread/status/changed"[1] == 'h' && "thread/closed"[1] == 'h';
  }

  const OF_NO_INTEREST: set<string> :=
    {"thread/tokenUsage/updated", "remoteControl/status/changed", "mcpServer/startupStatus/updated"}

  /** What the tracker notes of a notification: nothing if it is about another thread or of no interest, and
      otherwise its name, its time and one event more; and the time counts as the last activity if it is
      about a turn, an item, a hook, a process or a command. */
  lemma EventIsNoted(t: Tracker, turn: Turn, name: string)
    requires turn.event.Arrived? && turn.event.m.rpcMethod == Some(name)
    ensures var u := Observe(t, turn);
            if !Brings(turn, t.threadId, name) || name in OF_NO_INTEREST then u == t
            else
              && u.eventCount == t.eventCount + 1
              && u.lastEventAt == Some(turn.observedAt) && u.lastMethod == Some(name)
              && (BringsActivity(turn, t.threadId) ==> u.lastActivityAt == Some(turn.observedAt))
  {
    hide IsMeaningful;
    NamesDiffer(name);
    MeaningfulIs(name);
  }

  lemma MeaningfulIs(name: string)
    ensures IsMeaningful(name) <==> "turn/" <= name || "item/" <= name || "hook/" <= name || "process/" <= name
                                    || "command/exec/" <= name
  {
  }

  /** What the tracker makes of a status: a thread that becomes active is at work from now on; one that stops
      is idle since now; and one that was inactive already, since its last activity. */
  lemma StatusIsNoted(t: Tracker, turn: Turn, status: string)
    requires BringsStatus(turn, t.threadId, status) && status != ""
    ensures var u := Observe(t, turn);
            && u.status == status && u.loaded == Some(status != "notLoaded")
            && (status == "active" ==>
                  && u.idleSince == None
                  && u.lastActivityAt == (if t.status == "active" then t.lastActivityAt else Some(turn.observedAt)))
            && (status != "active" ==>
                  && u.idleSince == u.lastActivityAt
                  && u.lastActivityAt == (if t.status == "active" || t.lastActivityAt == None then Some(turn.observedAt)
                                          else t.lastActivityAt))
  {
    hide HintsActive, IsIgnored, IsMeaningful;
    NamesOfStatus();
  }

  /** A thread that starts a turn or an item is at work from now on; one that is closed is no longer
      loaded, and idle at least since now. */
  lemma WorkIsNoted(t: Tracker, turn: Turn)
    ensures var u, id := Observe(t, turn), t.threadId;
            && (Brings(turn, id, "turn/started") || Brings(turn, id, "item/started") ==>
                  u.status == "active" && u.loaded == Some(true) && u.idleSince == None
                  && u.lastActivityAt == Some(turn.observedAt))
            && (Brings(turn, id, "thread/closed") ==>
                  u.status == "notLoaded" && u.loaded == Some(false) && u.lastActivityAt == t.lastActivityAt
                  && u.idleSince == (if t.idleSince == None then Some(turn.observedAt) else t.idleSince))
  {
    hide HintsActive, IsIgnored, IsMeaningful;
    NamesOfStatus();
    assert "turn/started"[1] == 'u' && "item/started"[0] == 'i' && "thread/closed"[1] == 'h';
    assert "thread/closed"[7] == 'c' && "thread/status/changed"[7] == 's' && "thread/status/changed"[1] == 'h';
  }

  lemma {:induction false} SameThread(start: Tracker, turns: seq<Turn>, n: nat)
    requires n <= |turns|
    ensures TrackerAt(start, turns, n).threadId == start.threadId
  {
    hide Observe;
    if n > 0 {
      SameThread(start, turns, n - 1);
      TurnEffect(TrackerAt(start, turns, n - 1), turns[n - 1]);
    }
  }

  /** The effect of turn `j` on a run. */
  lemma RunEffect(start: Tracker, turns: seq<Turn>, j: nat)
    requires j < |turns|
    ensures var t, u, id := TrackerAt(start, turns, j), TrackerAt(start, turns, j + 1), start.threadId;
            && (StartsWork(turns[j], id) ==> u.status == "active")
            && (StopsWork(turns[j], id) ==> u.status == turns[j].event.m.params.value.statusType.value
                                            && u.idleSince == u.lastActivityAt && u.idleSince.Some?)
            && (Brings(turns[j], id, "thread/closed") ==> u.status == "notLoaded")
            && (LeavesStatus(turns[j], id) ==> u.status == t.status && u.idleSince == t.idleSince)
  {
    hide Observe, StartsWork, StopsWork, LeavesStatus;
    SameThread(start, turns, j);
    TurnEffect(TrackerAt(start, turns, j), turns[j]);
  }

  // ---- it does not leave a thread at work ---------------------------------------------------------

  /** The turn at which an active thread stopped to be. */
  lemma {:induction false} StopWitness(start: Tracker, turns: seq<Turn>, i: nat, n: nat) returns (j: nat)
    requires i <= n <= |turns|
    requires TrackerAt(start, turns, i).status == "active" && TrackerAt(start, turns, n).status != "active"
    requires forall h | 0 < h <= n :: TrackerAt(start, turns, h).status != "notLoaded"
    ensures i <= j < n && TrackerAt(start, turns, j).status == "active" && StopsWork(turns[j], start.threadId)
    decreases n
  {
    hide TrackerAt, StartsWork, StopsWork, Brings;
    RunEffect(start, turns, n - 1);
    if TrackerAt(start, turns, n - 1).status == "active" {
      j := n - 1;
    } else {
      j := StopWitness(start, turns, i, n - 1);
    }
  }

  /** A turn before the end brought another status, a whole timeout before the decision. */
  ghost predicate StoppedLongAgo(turns: seq<Turn>, id: string, timeout: int, i: nat, n: nat)
    requires 0 < n <= |turns|
  {
    exists j: nat :: i <= j < n && StopsWork(turns[j], id)
                     && turns[n - 1].decidedAt - turns[j].observedAt >= timeout as real
  }

  /** The thread as the keeper finds it when it attaches. */
  function AttachedTo(id: string, info: ThreadInfo, at: real): Tracker {
    NoteThread(NewTracker(id), info, at)
  }

  lemma AttachedIs(id: string, info: ThreadInfo, at: real)
    ensures var t := AttachedTo(id, info, at);
            && t.threadId == id
            && (if info.statusType.GetOr("") == "" then t.status == "unknown" else Some(t.status) == info.statusType)
            && (info.statusType.GetOr("") !in {"", "active"} ==>
                  t.idleSince == (if info.updatedAt.Some? then info.updatedAt else Some(at)))
            && (t.lastActivityAt.Some? ==> t.lastActivityAt == Some(at) || t.lastActivityAt == info.updatedAt)
  {
  }

  /** When the keeper leaves because the idle timeout was reached, every turn or item that the thread was
      heard to start, and every change of its status to active, was followed by a change to another
      status a whole timeout before. The same holds of a thread that was active at first. */
  lemma WorkIsRespected(id: string, info: ThreadInfo, at: real, turns: seq<Turn>, timeout: int, n: nat)
    requires Monotone(turns)
    requires EndsWith(AttachedTo(id, info, at), turns, timeout, Exit(IdleTimeoutReached, n))
    ensures 0 < n <= |turns|
    ensures forall i: nat | i < n && StartsWork(turns[i], id) :: StoppedLongAgo(turns, id, timeout, i + 1, n)
    ensures info.statusType == Some("active") ==> StoppedLongAgo(turns, id, timeout, 0, n)
  {
    hide TrackerAt, GoesOn, EndsWith, Verdict, ShouldDetach, Monotone, NoteThread, StartsWork, StopsWork, AttachedTo;
    var start := AttachedTo(id, info, at);
    AttachedIs(id, info, at);
    IdleEnding(start, turns, timeout, n);
    DetachIsSafe(start, turns, timeout, n);
    forall i: nat | i < n && StartsWork(turns[i], id) ensures StoppedLongAgo(turns, id, timeout, i + 1, n) {
      RunEffect(start, turns, i);
      var j := StopWitness(start, turns, i + 1, n);
    }
    if info.statusType == Some("active") {
      NoTurnsYet(start, turns, timeout);
      var j := StopWitness(start, turns, 0, n);
    }
  }

  // ---- it does leave an idle thread -----------------------------------------------------------------

  /** Nothing the tracker remembers lies after `time`. */
  ghost predicate PastBy(t: Tracker, time: real) {
    t.lastActivityAt.Some? ==> t.lastActivityAt.value <= time
  }

  lemma PastStep(t: Tracker, turn: Turn, time: real)
    requires PastBy(t, time) && time <= turn.observedAt
    ensures PastBy(Observe(t, turn), turn.observedAt)
  {
    hide HintsActive, IsIgnored, IsMeaningful;
  }

  lemma {:induction false} NothingAhead(start: Tracker, turns: seq<Turn>, at: real, n: nat)
    requires Monotone(turns) && n < |turns| && PastBy(start, at) && at <= turns[0].observedAt
    ensures PastBy(TrackerAt(start, turns, n + 1), turns[n].observedAt)
  {
    hide Observe, Monotone, PastBy;
    if n == 0 {
      assert TrackerAt(start, turns, 0) == start;
      PastStep(start, turns[0], at);
    } else {
      NothingAhead(start, turns, at, n - 1);
      EarlierTurn(turns, n - 1, n);
      PastStep(TrackerAt(start, turns, n), turns[n], turns[n - 1].observedAt);
    }
  }

  /** Not active, and idle since `since` at the latest. */
  ghost predicate IdleBy(t: Tracker, since: real) {
    t.status != "active" && t.idleSince.Some? && t.idleSince.value <= since
  }

  lemma {:induction false} StaysIdle(start: Tracker, turns: seq<Turn>, m: nat, n: nat, since: real)
    requires m <= n <= |turns| && IdleBy(TrackerAt(start, turns, m), since)
    requires forall h | m <= h < n :: LeavesStatus(turns[h], start.threadId)
    ensures IdleBy(TrackerAt(start, turns, n), since)
    decreases n
  {
    hide Observe, LeavesStatus;
    if m < n {
      StaysIdle(start, turns, m, n - 1, since);
      RunEffect(start, turns, n - 1);
    }
  }

  /** The run is over by turn `n`. */
  ghost predicate OverBy(start: Tracker, turns: seq<Turn>, timeout: int, n: nat) {
    forall ending | EndsWith(start, turns, timeout, ending) :: ending.Exit? && ending.turns <= n
  }

  lemma IdleMeansOver(start: Tracker, turns: seq<Turn>, timeout: int, n: nat, since: real)
    requires 0 < n <= |turns| && IdleBy(TrackerAt(start, turns, n), since)
    requires turns[n - 1].decidedAt - since >= timeout as real
    ensures OverBy(start, turns, timeout, n)
  {
    hide Observe;
    assert Verdict(TrackerAt(start, turns, n - 1), turns[n - 1], timeout).Some?;
    hide Verdict, TrackerAt;
    forall ending | EndsWith(start, turns, timeout, ending) ensures ending.Exit? && ending.turns <= n {
      assert !GoesOn(start, turns, timeout, n);
    }
  }

  /** The keeper does leave: if the thread got a status other than active, and for a whole timeout nothing
      was heard that changes it, the run is over, whatever else was heard. */
  lemma IdleThreadIsLeft(id: string, info: ThreadInfo, at: real, turns: seq<Turn>, timeout: int, j: nat, n: nat)
    requires Monotone(turns) && j < n <= |turns| && at <= turns[0].observedAt
    requires info.updatedAt.Some? ==> info.updatedAt.value <= at
    requires StopsWork(turns[j], id) && forall h | j < h < n :: LeavesStatus(turns[h], id)
    requires turns[n - 1].decidedAt - turns[j].observedAt >= timeout as real
    ensures OverBy(AttachedTo(id, info, at), turns, timeout, n)
  {
    hide TrackerAt, Monotone, AttachedTo, StartsWork, LeavesStatus, OverBy;
    var start := AttachedTo(id, info, at);
    AttachedIs(id, info, at);
    RunEffect(start, turns, j);
    NothingAhead(start, turns, at, j);
    StaysIdle(start, turns, j + 1, n, turns[j].observedAt);
    IdleMeansOver(start, turns, timeout, n, turns[j].observedAt);
  }

  /** The same of a thread that was not active when the keeper attached to it. */
  lemma IdleFromTheStart(id: string, info: ThreadInfo, at: real, turns: seq<Turn>, timeout: int, n: nat)
    requires 0 < n <= |turns| && (info.updatedAt.Some? ==> info.updatedAt.value <= at)
    requires info.statusType.GetOr("") !in {"", "active"} && forall h | 0 <= h < n :: LeavesStatus(turns[h], id)
    requires turns[n - 1].decidedAt - at >= timeout as real
    ensures OverBy(AttachedTo(id, info, at), turns, timeout, n)
  {
    hide AttachedTo, LeavesStatus, OverBy;
    var start := AttachedTo(id, info, at);
    AttachedIs(id, info, at);
    NoTurnsYet(start, turns, timeout);
    StaysIdle(start, turns, 0, n, at);
    IdleMeansOver(start, turns, timeout, n, at);
  }

  // ---- a thread whose status is not known ------------------------------------------------------------

  lemma ActivityStep(t: Tracker, turn: Turn)
    requires LeavesStatus(turn, t.threadId)
    ensures Observe(t, turn).lastActivityAt
         == if BringsActivity(turn, t.threadId) then Some(turn.observedAt) else t.lastActivityAt
  {
    hide HintsActive, IsIgnored, IsMeaningful;
    NamesOfStatus();
    if turn.event.Arrived? && turn.event.m.rpcMethod.Some? {
      NamesDiffer(turn.event.m.rpcMethod.value);
      MeaningfulIs(turn.event.m.rpcMethod.value);
    }
  }

  /** The last sign of activity in the first `n` turns, or the one that was known before. */
  function LastSign(known: Option<real>, turns: seq<Turn>, id: string, n: nat): Option<real>
    requires n <= |turns|
  {
    if n == 0 then known
    else if BringsActivity(turns[n - 1], id) then Some(turns[n - 1].observedAt)
    else LastSign(known, turns, id, n - 1)
  }

  lemma {:induction false} LastSignIs(known: Option<real>, turns: seq<Turn>, id: string, i: nat, n: nat)
    requires i < n <= |turns| && BringsActivity(turns[i], id)
    requires forall h | i < h < n :: !BringsActivity(turns[h], id)
    ensures LastSign(known, turns, id, n) == Some(turns[i].observedAt)
    decreases n
  {
    hide BringsActivity;
    if i < n - 1 {
      LastSignIs(known, turns, id, i, n - 1);
    }
  }

  /** What the tracker knows of a thread without a status. */
  ghost predicate Unknown(t: Tracker, id: string, last: Option<real>) {
    t.threadId == id && t.status == "unknown" && t.idleSince == None && t.lastActivityAt == last
  }

  lemma UnknownStep(t: Tracker, turn: Turn, last: Option<real>)
    requires Unknown(t, t.threadId, last) && LeavesStatus(turn, t.threadId)
    ensures Unknown(Observe(t, turn), t.threadId,
                    if BringsActivity(turn, t.threadId) then Some(turn.observedAt) else last)
  {
    hide Observe, LeavesStatus, BringsActivity;
    TurnEffect(t, turn);
    ActivityStep(t, turn);
  }

  lemma {:induction false} UnknownFrom(id: string, info: ThreadInfo, at: real, turns: seq<Turn>, n: nat)
    requires n <= |turns| && info.statusType.GetOr("") == ""
    requires forall h | 0 <= h < n :: LeavesStatus(turns[h], id)
    ensures Unknown(TrackerAt(AttachedTo(id, info, at), turns, n), id, LastSign(info.updatedAt, turns, id, n))
  {
    hide Observe, LeavesStatus, BringsActivity, AttachedTo;
    var start := AttachedTo(id, info, at);
    AttachedUnknown(id, info, at);
    if n > 0 {
      UnknownFrom(id, info, at, turns, n - 1);
      var t := TrackerAt(start, turns, n - 1);
      UnknownStep(t, turns[n - 1], t.lastActivityAt);
    }
  }

  lemma AttachedUnknown(id: string, info: ThreadInfo, at: real)
    requires info.statusType.GetOr("") == ""
    ensures var t := AttachedTo(id, info, at);
            t.threadId == id && t.status == "unknown" && t.idleSince == None && t.lastActivityAt == info.updatedAt
  {
  }

  /** As long as no status is known the keeper leaves a timeout after the last sign of activity, if there was
      one, and not before: after turn `i` brought the last one, it goes on at turn `n` just if no timeout has
      passed since. */
  lemma UnknownThreadIsLeftIff(id: string, info: ThreadInfo, at: real, turns: seq<Turn>, timeout: int, i: nat, n: nat)
    requires i <= n < |turns| && info.statusType.GetOr("") == ""
    requires forall h | 0 <= h <= n :: LeavesStatus(turns[h], id)
    requires BringsActivity(turns[i], id) && forall h | i < h <= n :: !BringsActivity(turns[h], id)
    requires !turns[n].signalled && !turns[n].event.ConnectionClosed?
    ensures Verdict(TrackerAt(AttachedTo(id, info, at), turns, n), turns[n], timeout)
         == if turns[n].decidedAt - turns[i].observedAt >= timeout as real then Some(IdleTimeoutReached) else None
  {
    hide Observe, LeavesStatus, BringsActivity, AttachedTo;
    UnknownFrom(id, info, at, turns, n + 1);
    LastSignIs(info.updatedAt, turns, id, i, n + 1);
    assert TrackerAt(AttachedTo(id, info, at), turns, n + 1)
        == Observe(TrackerAt(AttachedTo(id, info, at), turns, n), turns[n]);
  }

  // ---- why it ends ------------------------------------------------------------------------------------

  lemma GoingOnMeansNothing(start: Tracker, turns: seq<Turn>, timeout: int, n: nat)
    requires n <= |turns| && GoesOn(start, turns, timeout, n)
    ensures forall i: nat | i < n ::
              !turns[i].signalled && !turns[i].event.ConnectionClosed? && !Unloads(turns[i], start.threadId)
    ensures n > 0 ==> TrackerAt(start, turns, n).status != "notLoaded"
  {
    forall i: nat | i < n
      ensures !turns[i].signalled && !turns[i].event.ConnectionClosed? && !Unloads(turns[i], start.threadId)
      ensures TrackerAt(start, turns, i + 1).status != "notLoaded"
    {
      hide Observe;
      RunEffect(start, turns, i);
      assert Verdict(TrackerAt(start, turns, i), turns[i], timeout).None?;
    }
  }

  /** Why a run ends: it ends at the first turn with a signal, with a broken connection or at which the
      thread is unloaded, if not for the timeout; a signal comes before all else, and a run that says that
      the target has ended has heard so, or found it unloaded. */
  lemma EndingIsExplained(id: string, info: ThreadInfo, at: real, turns: seq<Turn>, timeout: int,
                          reason: Reason, n: nat)
    requires EndsWith(AttachedTo(id, info, at), turns, timeout, Exit(reason, n))
    ensures 0 < n <= |turns|
    ensures forall i: nat | i < n - 1 ::
              !turns[i].signalled && !turns[i].event.ConnectionClosed? && !Unloads(turns[i], id)
    ensures var last := turns[n - 1];
            && (reason == Signalled <==> last.signalled)
            && (reason == Broken <==> !last.signalled && last.event.ConnectionClosed?)
            && (reason == TargetTerminal ==> Unloads(last, id) || (n == 1 && info.statusType == Some("notLoaded")))
            && (Unloads(last, id) ==> reason in {Signalled, TargetTerminal})
  {
    hide AttachedTo, Observe, GoesOn, TrackerAt;
    var start := AttachedTo(id, info, at);
    AttachedIs(id, info, at);
    EndingParts(start, turns, timeout, reason, n);
    GoingOnMeansNothing(start, turns, timeout, n - 1);
    RunEffect(start, turns, n - 1);
    NoTurnsYet(start, turns, timeout);
  }

  lemma EndingParts(start: Tracker, turns: seq<Turn>, timeout: int, reason: Reason, n: nat)
    requires EndsWith(start, turns, timeout, Exit(reason, n))
    ensures 0 < n <= |turns| && GoesOn(start, turns, timeout, n - 1)
    ensures TrackerAt(start, turns, n) == Observe(TrackerAt(start, turns, n - 1), turns[n - 1])
  {
    hide Observe, GoesOn;
  }
}
