/** The keeper's loop around the activity tracker of a Codex thread
    (src/agent_keepalive/runner.py:50-146, src/agent_keepalive/providers/codex.py:95-129). */
module KeeperLoop {
  import opened Prelude
  import opened Activity

  /** What one turn of the loop meets: a signal before it, the outcome of waiting for a notification
      and the time of that, and the time at which the decision to detach is made. */
  datatype Event = Quiet | Arrived(m: Notification) | ConnectionClosed
  datatype Turn = Turn(signalled: bool, event: Event, observedAt: real, decidedAt: real)

  datatype Reason = Signalled | Broken | TargetTerminal | IdleTimeoutReached

  /** How a run ends: with a reason after so many turns, or not yet. */
  datatype Ending = Running | Exit(reason: Reason, turns: nat)

  function Observe(t: Tracker, turn: Turn): Tracker {
    if turn.event.Arrived? then NoteNotification(t, turn.event.m, turn.observedAt) else t
  }

  /** One turn: the reason to end with it, if there is one. */
  function Verdict(t: Tracker, turn: Turn, timeout: int): Option<Reason> {
    if turn.signalled then Some(Signalled)
    else if turn.event.ConnectionClosed? then Some(Broken)
    else if Observe(t, turn).status == NOT_LOADED then Some(TargetTerminal)
    else if SnapshotShouldDetach(Observe(t, turn), timeout, turn.decidedAt) then Some(IdleTimeoutReached)
    else None
  }

  /** The tracker after the first `n` turns. */
  ghost function TrackerAt(start: Tracker, turns: seq<Turn>, n: nat): Tracker
    requires n <= |turns|
  {
    if n == 0 then start else Observe(TrackerAt(start, turns, n - 1), turns[n - 1])
  }

  /** No reason to end in the first `n` turns. */
  ghost predicate GoesOn(start: Tracker, turns: seq<Turn>, timeout: int, n: nat)
    requires n <= |turns|
  {
    forall i | 0 <= i < n :: Verdict(TrackerAt(start, turns, i), turns[i], timeout).None?
  }

  /** What a run that starts with `start` comes to: it ends at the first turn with a reason to. */
  ghost predicate EndsWith(start: Tracker, turns: seq<Turn>, timeout: int, ending: Ending) {
    match ending
    case Running => GoesOn(start, turns, timeout, |turns|)
    case Exit(reason, n) =>
      && 0 < n <= |turns| && GoesOn(start, turns, timeout, n - 1)
      && Verdict(TrackerAt(start, turns, n - 1), turns[n - 1], timeout) == Some(reason)
  }

  lemma TurnStep(start: Tracker, turns: seq<Turn>, timeout: int, i: nat)
    requires i < |turns| && GoesOn(start, turns, timeout, i)
    ensures TrackerAt(start, turns, i + 1) == Observe(TrackerAt(start, turns, i), turns[i])
    ensures var v := Verdict(TrackerAt(start, turns, i), turns[i], timeout);
            if v.None? then GoesOn(start, turns, timeout, i + 1)
            else EndsWith(start, turns, timeout, Exit(v.value, i + 1))
  {
    hide Verdict, Observe;
  }

  lemma NoTurnsYet(start: Tracker, turns: seq<Turn>, timeout: int)
    ensures TrackerAt(start, turns, 0) == start && GoesOn(start, turns, timeout, 0)
  {
  }

  lemma RunsOn(start: Tracker, turns: seq<Turn>, timeout: int)
    requires GoesOn(start, turns, timeout, |turns|)
    ensures EndsWith(start, turns, timeout, Running)
  {
  }

  class Keeper {
    const timeout: int
    const tracker: ThreadActivityTracker
    var stopReason: Option<Reason>
    var recordStored: bool
    var detached: bool

    constructor (threadId: string, timeout: int)
      ensures fresh(tracker) && tracker.View() == NewTracker(threadId) && this.timeout == timeout
      ensures recordStored && !detached && stopReason == None
    {
      this.timeout := timeout;
      tracker := new ThreadActivityTracker(threadId);
      stopReason, recordStored, detached := None, true, false;
    }

    /** `run`, once attached to a thread: the turns are what the loop meets, and the run is over when
        it has a reason to be. The record is removed unless the run broke, and the thread is
        unsubscribed from when the keeper leaves it of its own or on a signal. */
    method Run(thread: ThreadInfo, attachedAt: real, turns: seq<Turn>) returns (ending: Ending)
      modifies this, tracker
      ensures var start := NoteThread(old(tracker.View()), thread, attachedAt);
              EndsWith(start, turns, timeout, ending)
      ensures ending.Exit? ==>
                && stopReason == (if ending.reason == Broken then None else Some(ending.reason))
                && recordStored == (ending.reason == Broken)
                && detached == (ending.reason == Signalled || ending.reason == IdleTimeoutReached)
    {
      hide NoteThread, NoteNotification, TrackerAt, GoesOn, EndsWith, SnapshotShouldDetach;
      tracker.NoteThreadSnapshot(thread, attachedAt);
      recordStored, detached, stopReason := true, false, None;
      ghost var start := tracker.View();
      var i := 0;
      NoTurnsYet(start, turns, timeout);
      while i < |turns|
        invariant 0 <= i <= |turns| && tracker.View() == TrackerAt(start, turns, i)
        invariant GoesOn(start, turns, timeout, i)
        invariant recordStored && !detached && stopReason == None
      {
        var turn := turns[i];
        TurnStep(start, turns, timeout, i);
        if turn.signalled {
          Leave(Signalled);
          return Exit(Signalled, i + 1);
        }
        if turn.event.ConnectionClosed? {
          return Exit(Broken, i + 1);
        }
        if turn.event.Arrived? {
          var _ := tracker.Note(turn.event.m, turn.observedAt);
        }
        if tracker.status == NOT_LOADED {
          stopReason, recordStored := Some(TargetTerminal), false;
          return Exit(TargetTerminal, i + 1);
        }
        if SnapshotShouldDetach(tracker.View(), timeout, turn.decidedAt) {
          Leave(IdleTimeoutReached);
          return Exit(IdleTimeoutReached, i + 1);
        }
        i := i + 1;
      }
      RunsOn(start, turns, timeout);
      return Running;
    }

    /** `_graceful_detach`, and the removal of the record at the end. */
    method Leave(reason: Reason)
      modifies `stopReason, `detached, `recordStored
      ensures stopReason == Some(reason) && detached && !recordStored
    {
      stopReason := Some(reason);
      detached := true;
      recordStored := false;
    }
  }

  // ---- detach safety ------------------------------------------------------------------------------

  /** The clock does not run backwards. */
  ghost predicate Monotone(turns: seq<Turn>) {
    && (forall i | 0 <= i < |turns| :: turns[i].observedAt <= turns[i].decidedAt)
    && (forall i, j | 0 <= i < j < |turns| :: turns[i].decidedAt <= turns[j].observedAt)
  }

  /** Both times of the tracker are at or after `bound`. */
  ghost predicate TimesFrom(t: Tracker, bound: real) {
    t.idleSince.Some? && t.lastActivityAt.Some? && bound <= t.idleSince.value && bound <= t.lastActivityAt.value
  }

  /** While the thread is not active, both of its times are at or after the end of every time it was:
      the turn that observed the first status after it. */
  ghost predicate ActivityIsPast(start: Tracker, turns: seq<Turn>, n: nat)
    requires n <= |turns|
  {
    var t := TrackerAt(start, turns, n);
    t.status != ACTIVE ==>
      forall i | 0 <= i < n && TrackerAt(start, turns, i).status == ACTIVE ::
        TimesFrom(t, turns[i].observedAt)
  }

  /** One event, seen from a bound on the end of all activity so far. */
  lemma ObserveKeepsBound(t: Tracker, turn: Turn, bound: real)
    requires bound <= turn.observedAt
    requires Observe(t, turn).status != ACTIVE && Observe(t, turn).status != NOT_LOADED && t.status != NOT_LOADED
    requires t.status != ACTIVE ==> TimesFrom(t, bound)
    ensures TimesFrom(Observe(t, turn), bound)
  {
  }

  lemma EarlierTurn(turns: seq<Turn>, i: nat, n: nat)
    requires Monotone(turns) && i <= n < |turns|
    ensures turns[i].observedAt <= turns[n].observedAt
  {
    assert i < n ==> turns[i].decidedAt <= turns[n].observedAt;
  }

  lemma {:induction false} ActivityStaysPast(start: Tracker, turns: seq<Turn>, n: nat)
    requires Monotone(turns) && n <= |turns|
    requires forall i | 0 < i <= n :: TrackerAt(start, turns, i).status != NOT_LOADED
    ensures ActivityIsPast(start, turns, n)
  {
    hide Observe, Monotone, TimesFrom;
    if n > 0 {
      ActivityStaysPast(start, turns, n - 1);
      var t, turn := TrackerAt(start, turns, n - 1), turns[n - 1];
      var u := TrackerAt(start, turns, n);
      if u.status != ACTIVE {
        forall i | 0 <= i < n && TrackerAt(start, turns, i).status == ACTIVE ensures TimesFrom(u, turns[i].observedAt) {
          EarlierTurn(turns, i, n - 1);
          ObserveKeepsBound(t, turn, turns[i].observedAt);
        }
      }
    }
  }

  lemma GoingOnMeansLoaded(start: Tracker, turns: seq<Turn>, timeout: int, n: nat)
    requires n <= |turns| && GoesOn(start, turns, timeout, n)
    ensures forall i | 0 < i <= n :: TrackerAt(start, turns, i).status != NOT_LOADED
  {
    forall i | 0 < i <= n ensures TrackerAt(start, turns, i).status != NOT_LOADED {
      assert Verdict(TrackerAt(start, turns, i - 1), turns[i - 1], timeout).None?;
    }
  }

  lemma IdleEnding(start: Tracker, turns: seq<Turn>, timeout: int, n: nat)
    requires EndsWith(start, turns, timeout, Exit(IdleTimeoutReached, n))
    ensures 0 < n <= |turns|
    ensures forall i | 0 < i <= n :: TrackerAt(start, turns, i).status != NOT_LOADED
    ensures TrackerAt(start, turns, n).status != ACTIVE
    ensures ShouldDetach(TrackerAt(start, turns, n), timeout, turns[n - 1].decidedAt)
  {
    hide Observe;
    GoingOnMeansLoaded(start, turns, timeout, n - 1);
  }

  lemma LongAgo(t: Tracker, timeout: int, now: real, bound: real)
    requires ShouldDetach(t, timeout, now) && t.idleSince.Some? && bound <= t.idleSince.value
    ensures now - bound >= timeout as real
  {
  }

  /** Detach safety of keeper and tracker together: when a run ends because the idle timeout was
      reached, the thread is neither active nor unloaded, and whenever it was tracked as active before,
      the turn that observed the next status lies a whole timeout back. */
  lemma DetachIsSafe(start: Tracker, turns: seq<Turn>, timeout: int, n: nat)
    requires Monotone(turns) && EndsWith(start, turns, timeout, Exit(IdleTimeoutReached, n))
    ensures var t := TrackerAt(start, turns, n);
            && t.status != ACTIVE && t.status != NOT_LOADED
            && ShouldDetach(t, timeout, turns[n - 1].decidedAt)
            && forall i | 0 <= i < n && TrackerAt(start, turns, i).status == ACTIVE ::
                 turns[n - 1].decidedAt - turns[i].observedAt >= timeout as real
  {
    hide TrackerAt, GoesOn, Verdict, ShouldDetach, Monotone;
    IdleEnding(start, turns, timeout, n);
    ActivityStaysPast(start, turns, n);
    var t := TrackerAt(start, turns, n);
    forall i | 0 <= i < n && TrackerAt(start, turns, i).status == ACTIVE
      ensures turns[n - 1].decidedAt - turns[i].observedAt >= timeout as real
    {
      LongAgo(t, timeout, turns[n - 1].decidedAt, turns[i].observedAt);
    }
  }

  // ---- why the loop has to stop ---------------------------------------------------------------------

  function Named(t: Tracker, name: string, statusType: Option<string>): Notification {
    Notification(Some(name), Some(Params(Some(t.threadId), None, statusType)))
  }

  /** The tracker alone is not safe: a thread that was active until it was closed at time 100, and
      becomes idle at 101, is due to be detached at once, with any timeout up to 101 seconds. */
  lemma TrackerAloneIsNotSafe(id: string, timeout: int)
    requires 0 <= timeout <= 101
    ensures var t0 := NewTracker(id);
            var t1 := NoteNotification(t0, Named(t0, "turn/started", None), 0.0);
            var t2 := NoteNotification(t1, Named(t0, "thread/closed", None), 100.0);
            var t3 := NoteNotification(t2, Named(t0, "thread/status/changed", Some("idle")), 101.0);
            && t1.status == ACTIVE && t2.status == NOT_LOADED && t2.idleSince == Some(100.0)
            && t3.idleSince == Some(0.0) && ShouldDetach(t3, timeout, 101.0)
  {
    var t0 := NewTracker(id);
    var t1 := NoteNotification(t0, Named(t0, "turn/started", None), 0.0);
    assert t1 == t0.(eventCount := 1, lastEventAt := Some(0.0), lastMethod := Some("turn/started"), status := ACTIVE,
                     loaded := Some(true), lastActivityAt := Some(0.0));
    var t2 := NoteNotification(t1, Named(t0, "thread/closed", None), 100.0);
    assert t2.lastActivityAt == Some(0.0) && t2.status == NOT_LOADED;
  }

  /** A notification and the time at which it is noted. */
  datatype Stamped = Stamped(m: Notification, at: real)

  /** The tracker after the first `n` notifications. */
  ghost function TrackedAt(t: Tracker, ms: seq<Stamped>, n: nat): (r: Tracker)
    requires n <= |ms|
    ensures r.threadId == t.threadId
  {
    if n == 0 then t else NoteNotification(TrackedAt(t, ms, n - 1), ms[n - 1].m, ms[n - 1].at)
  }

  predicate Closes(m: Notification, id: string) {
    IsAbout(m, id) && m.rpcMethod.value == "thread/closed"
  }

  predicate ChangesStatus(m: Notification, id: string) {
    IsAbout(m, id) && m.rpcMethod.value == "thread/status/changed" && m.params.value.statusType.GetOr("") != ""
  }

  predicate CountsAsActivity(m: Notification, id: string) {
    IsAbout(m, id) && IsMeaningful(m.rpcMethod.value)
  }

  ghost predicate IdleFrom(t: Tracker, bound: real) {
    t.idleSince.Some? && bound <= t.idleSince.value
  }

  /** The last sign of activity came before `bound`. */
  predicate Behind(last: Option<real>, bound: real) {
    last.Some? && last.value < bound
  }

  /** Closed in the middle of an activity, of which only the last sign is remembered. */
  ghost predicate Stale(t: Tracker, bound: real, last: Option<real>) {
    t.status == NOT_LOADED && IdleFrom(t, bound) && t.lastActivityAt == last
  }

  lemma LeavingActivity(t: Tracker, m: Notification, at: real)
    requires t.status == ACTIVE && t.idleSince.None? && NoteNotification(t, m, at).status != ACTIVE
    ensures var u := NoteNotification(t, m, at);
            if Closes(m, t.threadId) then Stale(u, at, t.lastActivityAt) else TimesFrom(u, at)
  {
  }

  lemma MeaningfulStart(name: string)
    ensures IsMeaningful(name) ==> |name| > 1 && name[0] != 'r' && name[0] != 'm' && (name[0] == 't' ==> name[1] == 'u')
  {
    assert "turn/" <= name ==> name[1] == 'u';
    assert "item/" <= name ==> name[0] == 'i';
    assert "hook/" <= name ==> name[0] == 'h';
    assert "process/" <= name ==> name[0] == 'p';
    assert "command/exec/" <= name ==> name[0] == 'c';
  }

  lemma NamesDiffer(name: string)
    ensures IsMeaningful(name) ==> name != "thread/status/changed" && name != "thread/closed" && !IsIgnored(name)
  {
    hide IsMeaningful;
    MeaningfulStart(name);
    assert IsIgnored(name) ==> name[0] == 'r' || name[0] == 'm' || name[1] == 'h';
  }

  lemma SafeStep(t: Tracker, m: Notification, at: real, bound: real)
    requires bound <= at && TimesFrom(t, bound) && NoteNotification(t, m, at).status != ACTIVE
    ensures TimesFrom(NoteNotification(t, m, at), bound)
  {
  }

  lemma StaleStep(t: Tracker, m: Notification, at: real, bound: real, last: Option<real>)
    requires bound <= at && Stale(t, bound, last) && NoteNotification(t, m, at).status != ACTIVE
    ensures var u := NoteNotification(t, m, at);
            if CountsAsActivity(m, t.threadId) then TimesFrom(u, bound)
            else if ChangesStatus(m, t.threadId) then
              if Behind(last, bound) then !IdleFrom(u, bound) else TimesFrom(u, bound)
            else Stale(u, bound, last)
    ensures ChangesStatus(m, t.threadId) ==> !CountsAsActivity(m, t.threadId)
  {
    hide IsMeaningful;
    if m.rpcMethod.Some? {
      NamesDiffer(m.rpcMethod.value);
    }
  }

  /** Times do not run backwards, the thread is active at first, and never after the first notification. */
  ghost predicate EndOfActivity(t: Tracker, ms: seq<Stamped>) {
    && ms != [] && t.status == ACTIVE
    && (forall i, j | 0 <= i <= j < |ms| :: ms[i].at <= ms[j].at)
    && forall i | 0 < i <= |ms| :: TrackedAt(t, ms, i).status != ACTIVE
  }

  /** The way in which the tracker forgets the end of an activity: a close in the middle of it, whose last
      sign of activity came earlier, and then a change of status with no activity in between. */
  ghost predicate ForgetsAt(t: Tracker, ms: seq<Stamped>, j: nat)
    requires j < |ms|
  {
    && j > 0 && Closes(ms[0].m, t.threadId) && Behind(t.lastActivityAt, ms[0].at)
    && ChangesStatus(ms[j].m, t.threadId)
    && forall h | 0 < h < j :: !CountsAsActivity(ms[h].m, t.threadId)
  }

  /** Whatever is noted, an active thread has no time from which it counts as idle. */
  lemma {:induction false} ActiveMeansNotIdle(t: Tracker, ms: seq<Stamped>, n: nat)
    requires n <= |ms| && (t.status == ACTIVE ==> t.idleSince.None?)
    ensures var u := TrackedAt(t, ms, n); u.status == ACTIVE ==> u.idleSince.None?
  {
    if n > 0 {
      ActiveMeansNotIdle(t, ms, n - 1);
    }
  }

  lemma {:induction false} ForgettingShows(t: Tracker, ms: seq<Stamped>, j: nat, n: nat)
    requires t.idleSince.None? && EndOfActivity(t, ms) && j < |ms| && ForgetsAt(t, ms, j) && 0 < n <= j + 1
    ensures || (n <= j && Stale(TrackedAt(t, ms, n), ms[0].at, t.lastActivityAt))
            || exists i :: 0 < i <= n && !IdleFrom(TrackedAt(t, ms, i), ms[0].at)
  {
    hide NoteNotification, CountsAsActivity, ChangesStatus, Closes, Stale, IdleFrom;
    assert TrackedAt(t, ms, n).status != ACTIVE;
    if n == 1 {
      assert TrackedAt(t, ms, 0) == t;
      LeavingActivity(t, ms[0].m, ms[0].at);
    } else {
      ForgettingShows(t, ms, j, n - 1);
      var v, m := TrackedAt(t, ms, n - 1), ms[n - 1];
      if n - 1 <= j && Stale(v, ms[0].at, t.lastActivityAt) {
        StaleStep(v, m.m, m.at, ms[0].at, t.lastActivityAt);
        assert n - 1 < j ==> !CountsAsActivity(ms[n - 1].m, t.threadId);
      }
    }
  }

  lemma {:induction false} NothingForgotten(t: Tracker, ms: seq<Stamped>, n: nat)
    requires t.idleSince.None? && EndOfActivity(t, ms) && 0 < n <= |ms|
    requires forall j | 0 <= j < |ms| :: !ForgetsAt(t, ms, j)
    ensures var u, bound := TrackedAt(t, ms, n), ms[0].at;
            || TimesFrom(u, bound)
            || (Stale(u, bound, t.lastActivityAt) && Closes(ms[0].m, t.threadId)
                && forall h | 0 < h < n :: !CountsAsActivity(ms[h].m, t.threadId))
  {
    hide NoteNotification, CountsAsActivity, ChangesStatus, Closes, Stale, TimesFrom;
    assert TrackedAt(t, ms, n).status != ACTIVE;
    if n == 1 {
      assert TrackedAt(t, ms, 0) == t;
      LeavingActivity(t, ms[0].m, ms[0].at);
    } else {
      NothingForgotten(t, ms, n - 1);
      var v, m := TrackedAt(t, ms, n - 1), ms[n - 1];
      assert !ForgetsAt(t, ms, n - 1);
      if TimesFrom(v, ms[0].at) {
        SafeStep(v, m.m, m.at, ms[0].at);
      } else {
        StaleStep(v, m.m, m.at, ms[0].at, t.lastActivityAt);
      }
    }
  }

  lemma BoundSurvivesFrom(t: Tracker, ms: seq<Stamped>)
    requires t.idleSince.None? && EndOfActivity(t, ms)
    ensures (forall i | 0 < i <= |ms| :: IdleFrom(TrackedAt(t, ms, i), ms[0].at))
            <==> forall j | 0 <= j < |ms| :: !ForgetsAt(t, ms, j)
  {
    assert ms != [];
    hide TrackedAt, ForgetsAt, EndOfActivity;
    if j :| 0 <= j < |ms| && ForgetsAt(t, ms, j) {
      ForgettingShows(t, ms, j, j + 1);
    } else {
      forall i | 0 < i <= |ms| ensures IdleFrom(TrackedAt(t, ms, i), ms[0].at) {
        NothingForgotten(t, ms, i);
      }
    }
  }

  /** The tracker of an attached thread after some notifications. */
  ghost function Attached(id: string, info: ThreadInfo, at: real, earlier: seq<Stamped>): Tracker {
    TrackedAt(NoteThread(NewTracker(id), info, at), earlier, |earlier|)
  }

  /** In every run of the tracker, over any notifications after which the thread stays inactive, exactly
      when the tracker alone keeps the end of the activity in sight: unless it forgets it in the way that
      ForgetsAt describes. */
  lemma BoundSurvivesIff(id: string, info: ThreadInfo, at: real, earlier: seq<Stamped>, ms: seq<Stamped>)
    requires EndOfActivity(Attached(id, info, at, earlier), ms)
    ensures var t := Attached(id, info, at, earlier);
            (forall i | 0 < i <= |ms| :: IdleFrom(TrackedAt(t, ms, i), ms[0].at))
            <==> forall j | 0 <= j < |ms| :: !ForgetsAt(t, ms, j)
  {
    hide TrackedAt, ForgetsAt, IdleFrom;
    ActiveMeansNotIdle(NoteThread(NewTracker(id), info, at), earlier, |earlier|);
    BoundSurvivesFrom(Attached(id, info, at, earlier), ms);
  }
}
