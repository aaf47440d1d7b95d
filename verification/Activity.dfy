/** The activity of one Codex thread, as its notifications tell it
    (src/agent_keepalive/activity.py, src/agent_keepalive/providers/codex.py:152-167,
    src/agent_keepalive/providers/base.py:74-82). */
module Activity {
  import opened Prelude

  const ACTIVE := "active"
  const NOT_LOADED := "notLoaded"
  const UNKNOWN := "unknown"

  /** What the tracker reads of a thread description. */
  datatype ThreadInfo = ThreadInfo(name: Option<string>, updatedAt: Option<real>, statusType: Option<string>)

  /** What the tracker reads of a notification. */
  datatype Params = Params(threadId: Option<string>, innerThreadId: Option<string>, statusType: Option<string>)
  datatype Notification = Notification(rpcMethod: Option<string>, params: Option<Params>)

  datatype Tracker = Tracker(
    threadId: string,
    threadName: Option<string>,
    status: string,
    loaded: Option<bool>,
    lastActivityAt: Option<real>,
    lastEventAt: Option<real>,
    idleSince: Option<real>,
    lastMethod: Option<string>,
    eventCount: nat)

  function NewTracker(threadId: string): Tracker {
    Tracker(threadId, None, UNKNOWN, None, None, None, None, None, 0)
  }

  function ExtractThreadId(m: Notification): Option<string> {
    if m.params.None? then None
    else if m.params.value.threadId.Some? then m.params.value.threadId
    else m.params.value.innerThreadId
  }

  predicate IsIgnored(name: string) {
    || name == "thread/tokenUsage/updated"
    || name == "remoteControl/status/changed"
    || name == "mcpServer/startupStatus/updated"
  }

  predicate HintsActive(name: string) {
    name == "turn/started" || name == "item/started"
  }

  predicate IsMeaningful(name: string) {
    "turn/" <= name || "item/" <= name || "hook/" <= name || "process/" <= name || "command/exec/" <= name
  }

  /** `_apply_status`. Its two last branches do the same, so where the status comes from is no matter. */
  function ApplyStatus(t: Tracker, statusType: string, at: real): Tracker {
    var u := t.(status := statusType, loaded := Some(statusType != NOT_LOADED));
    if statusType == ACTIVE then
      u.(idleSince := None, lastActivityAt := if t.status != ACTIVE then Some(at) else t.lastActivityAt)
    else
      var activity := if t.status == ACTIVE || t.lastActivityAt.None? then Some(at) else t.lastActivityAt;
      u.(lastActivityAt := activity, idleSince := activity)
  }

  function NoteThread(t: Tracker, info: ThreadInfo, at: real): Tracker {
    var u := t.(threadName := if info.name.Some? then info.name else t.threadName,
                lastActivityAt := if info.updatedAt.Some? then info.updatedAt else t.lastActivityAt);
    if info.statusType.GetOr("") == "" then u else ApplyStatus(u, info.statusType.value, at)
  }

  function NoteMethod(t: Tracker, name: string, statusType: Option<string>, at: real): Tracker {
    if IsIgnored(name) then t
    else
      var u := t.(eventCount := t.eventCount + 1, lastEventAt := Some(at), lastMethod := Some(name));
      if name == "thread/status/changed" then
        if statusType.GetOr("") == "" then u else ApplyStatus(u, statusType.value, at)
      else if name == "thread/closed" then
        u.(loaded := Some(false), status := NOT_LOADED,
           idleSince := if t.idleSince.None? then Some(at) else t.idleSince)
      else if HintsActive(name) then
        u.(status := ACTIVE, loaded := Some(true), idleSince := None, lastActivityAt := Some(at))
      else if IsMeaningful(name) then u.(lastActivityAt := Some(at))
      else u
  }

  /** Is the notification about this thread, and does it name a method? */
  predicate IsAbout(m: Notification, id: string) {
    ExtractThreadId(m) == Some(id) && m.rpcMethod.Some?
  }

  function NoteNotification(t: Tracker, m: Notification, at: real): Tracker {
    if !IsAbout(m, t.threadId) then t else NoteMethod(t, m.rpcMethod.value, m.params.value.statusType, at)
  }

  function Reference(t: Tracker): Option<real> {
    if t.idleSince.Some? then t.idleSince else t.lastActivityAt
  }

  predicate ShouldDetach(t: Tracker, timeout: int, now: real) {
    t.status != ACTIVE && Reference(t).Some? && now - Reference(t).value >= timeout as real
  }

  /** `should_detach` on a snapshot of the tracker, which is terminal when the thread is not loaded. */
  predicate SnapshotShouldDetach(t: Tracker, timeout: int, now: real) {
    if t.status == ACTIVE then false
    else if t.status == NOT_LOADED then true
    else Reference(t).Some? && now - Reference(t).value >= timeout as real
  }

  class ThreadActivityTracker {
    const threadId: string
    var threadName: Option<string>
    var status: string
    var loaded: Option<bool>
    var lastActivityAt: Option<real>
    var lastEventAt: Option<real>
    var idleSince: Option<real>
    var lastNotificationMethod: Option<string>
    var eventCount: nat

    function View(): Tracker
      reads this
    {
      Tracker(threadId, threadName, status, loaded, lastActivityAt, lastEventAt, idleSince,
              lastNotificationMethod, eventCount)
    }

    constructor (threadId: string)
      ensures View() == NewTracker(threadId)
    {
      this.threadId := threadId;
      threadName, status, loaded, lastActivityAt := None, UNKNOWN, None, None;
      lastEventAt, idleSince, lastNotificationMethod, eventCount := None, None, None, 0;
    }

    method SetStatus(statusType: string, observedAt: real)
      modifies this
      ensures View() == ApplyStatus(old(View()), statusType, observedAt)
    {
      var previous := status;
      status := statusType;
      loaded := Some(statusType != NOT_LOADED);
      if statusType == ACTIVE {
        idleSince := None;
        if previous != ACTIVE {
          lastActivityAt := Some(observedAt);
        }
        return;
      }
      if previous == ACTIVE {
        lastActivityAt := Some(observedAt);
      }
      if lastActivityAt.None? {
        lastActivityAt := Some(observedAt);
      }
      idleSince := lastActivityAt;
    }

    method NoteThreadSnapshot(thread: ThreadInfo, observedAt: real)
      modifies this
      ensures View() == NoteThread(old(View()), thread, observedAt)
    {
      if thread.name.Some? {
        threadName := thread.name;
      }
      if thread.updatedAt.Some? {
        lastActivityAt := thread.updatedAt;
      }
      if thread.statusType.Some? && thread.statusType.value != "" {
        SetStatus(thread.statusType.value, observedAt);
      }
    }

    method Note(message: Notification, observedAt: real) returns (concerned: bool)
      modifies this
      ensures View() == NoteNotification(old(View()), message, observedAt)
      ensures concerned == IsAbout(message, threadId)
    {
      if ExtractThreadId(message) != Some(threadId) {
        return false;
      }
      if message.rpcMethod.None? {
        return false;
      }
      var name := message.rpcMethod.value;
      if IsIgnored(name) {
        return true;
      }
      eventCount := eventCount + 1;
      lastEventAt := Some(observedAt);
      lastNotificationMethod := Some(name);
      if name == "thread/status/changed" {
        var statusType := message.params.value.statusType;
        if statusType.Some? && statusType.value != "" {
          SetStatus(statusType.value, observedAt);
        }
      } else if name == "thread/closed" {
        loaded := Some(false);
        status := NOT_LOADED;
        if idleSince.None? {
          idleSince := Some(observedAt);
        }
      } else if HintsActive(name) {
        status := ACTIVE;
        loaded := Some(true);
        idleSince := None;
        lastActivityAt := Some(observedAt);
      } else if IsMeaningful(name) {
        lastActivityAt := Some(observedAt);
      }
      return true;
    }
  }
}
