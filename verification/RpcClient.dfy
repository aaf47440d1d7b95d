/** The JSON-RPC client object (src/agent_keepalive/rpc.py). Its small methods are the atomic sections of
    `request`, of the reader loop and of `_fail_pending`; whatever the order in which the threads call
    them, the object is where the protocol of RpcProtocol.dfy puts it. `Request` and `FailPending` are
    made of them, with any steps of the other threads in between. */
module RpcClient {
  import opened Prelude
  import opened RpcProtocol
  import opened RpcRuns

  class JsonRpcClient {
    var nextRequestId: int
    var pending: map<int, Call>
    var closedError: bool
    var notifications: seq<Note>
    /** Where the threads are, with the response queues of the calls. */
    var calls: map<Call, CallState>
    var reader: Reader
    ghost var past: seq<Action>

    /** The object is in the state that its past leads to. */
    ghost predicate Valid()
      reads this
    {
      Runs(past) && Shows(After(past))
    }

    ghost predicate Shows(s: State)
      reads this
    {
      && nextRequestId == s.nextId && pending == s.pending && closedError == s.closed
      && notifications == s.notes && calls == s.calls && reader == s.reader
    }

    /** The thread or the reader is at the point from which it can take the action. */
    ghost predicate Ready(a: Action)
      requires Valid()
      reads this
    {
      Enabled(After(past), a)
    }

    function At(c: Call): CallState
      reads this
    {
      if c in calls then calls[c] else FRESH
    }

    constructor ()
      ensures Valid() && past == []
    {
      nextRequestId, pending, closedError, notifications := 1, map[], false, [];
      calls, reader, past := map[], Listening, [];
      new;
      EmptyRun();
    }

    ghost method Record(a: Action)
      requires Runs(past) && Enabled(After(past), a) && Shows(Step(After(past), a))
      modifies `past
      ensures Valid() && past == old(past) + [a]
    {
      hide Runs, After, Step;
      RunStep(past, a);
      past := past + [a];
    }

    // ---- `request` ----------------------------------------------------------------------------

    method CheckOpen(c: Call) returns (refused: bool)
      requires Valid() && At(c).phase == Idle
      modifies `calls, `past
      ensures Valid() && past == old(past) + [Check(c)] && refused == closedError
      ensures At(c).phase == if refused then Finished(Refused) else Checked
    {
      hide Runs, After;
      refused := closedError;
      calls := calls[c := At(c).(phase := if refused then Finished(Refused) else Checked)];
      Record(Check(c));
    }

    method ReadRequestId(c: Call) returns (id: int)
      requires Valid() && At(c).phase == Checked
      modifies `calls, `past
      ensures Valid() && past == old(past) + [ReadNextId(c)] && id == nextRequestId
      ensures At(c).phase == ReadId && At(c).id == Some(id)
    {
      hide Runs, After;
      id := nextRequestId;
      calls := calls[c := At(c).(phase := ReadId, id := Some(id))];
      Record(ReadNextId(c));
    }

    /** The first half of the increment. */
    method LoadRequestId(c: Call) returns (value: int)
      requires Valid() && At(c).phase == ReadId
      modifies `calls, `past
      ensures Valid() && past == old(past) + [LoadNextId(c)] && value == nextRequestId
      ensures At(c) == old(At(c)).(phase := Loaded(value))
    {
      hide Runs, After;
      value := nextRequestId;
      calls := calls[c := At(c).(phase := Loaded(value))];
      Record(LoadNextId(c));
    }

    /** The second half: what other calls stored meanwhile is lost. */
    method StoreRequestId(c: Call, value: int)
      requires Valid() && At(c).phase == Loaded(value)
      modifies `nextRequestId, `calls, `past
      ensures Valid() && past == old(past) + [StoreNextId(c)] && nextRequestId == value + 1
      ensures At(c) == old(At(c)).(phase := Allocated)
    {
      hide Runs, After;
      nextRequestId := value + 1;
      calls := calls[c := At(c).(phase := Allocated)];
      Record(StoreNextId(c));
    }

    method RegisterCall(c: Call, id: int)
      requires Valid() && At(c).phase == Allocated && At(c).id == Some(id)
      modifies `pending, `calls, `past
      ensures Valid() && past == old(past) + [Register(c)] && pending == old(pending)[id := c]
      ensures At(c) == old(At(c)).(phase := Registered)
    {
      hide Runs, After;
      pending := pending[id := c];
      calls := calls[c := At(c).(phase := Registered)];
      Record(Register(c));
    }

    method SendRequest(c: Call, ok: bool)
      requires Valid() && At(c).phase == Registered
      modifies `calls, `past
      ensures Valid() && past == old(past) + [Send(c, ok)]
      ensures At(c) == old(At(c)).(phase := if ok then Waiting else Finished(SendFailed))
    {
      hide Runs, After;
      calls := calls[c := At(c).(phase := if ok then Waiting else Finished(SendFailed))];
      Record(Send(c, ok));
    }

    /** `response_queue.get(timeout=…)`, when an item is there. */
    method TakeReply(c: Call) returns (item: Item)
      requires Valid() && At(c).phase == Waiting && At(c).queue != []
      modifies `calls, `past
      ensures Valid() && past == old(past) + [Take(c)] && At(c).phase == Finished(Answered(item))
    {
      hide Runs, After;
      item := At(c).queue[0];
      calls := calls[c := At(c).(phase := Finished(Answered(item)), queue := At(c).queue[1..])];
      Record(Take(c));
    }

    /** `response_queue.get(timeout=…)`, when it raises. */
    method TimeOut(c: Call)
      requires Valid() && At(c).phase == Waiting && At(c).queue == []
      modifies `calls, `past
      ensures Valid() && past == old(past) + [GiveUp(c)] && At(c) == old(At(c)).(phase := GivingUp)
    {
      hide Runs, After;
      calls := calls[c := At(c).(phase := GivingUp)];
      Record(GiveUp(c));
    }

    method ForgetCall(c: Call, id: int)
      requires Valid() && At(c).phase == GivingUp && At(c).id == Some(id)
      modifies `pending, `calls, `past
      ensures Valid() && past == old(past) + [Forget(c)] && pending == old(pending) - {id}
      ensures At(c).phase == Finished(TimedOut)
    {
      hide Runs, After;
      pending := pending - {id};
      calls := calls[c := At(c).(phase := Finished(TimedOut))];
      Record(Forget(c));
    }

    // ---- the reader ------------------------------------------------------------------------------

    /** `_dispatch_message`, up to the release of the lock. */
    method DispatchMessage(m: Message)
      requires Valid() && reader == Listening
      modifies `pending, `notifications, `reader, `past
      ensures Valid() && past == old(past) + [Receive(m)]
    {
      hide Runs, After;
      if m.id != NoId && (m.result.Some? || m.error.Some?) {
        if m.id == BadId {
          reader := Failing;
        } else {
          var requestId := m.id.k;
          if requestId in pending {
            var call := pending[requestId];
            pending := pending - {requestId};
            reader := Delivering(call, if m.result.Some? then ResultItem(m.result.value) else ErrorItem(m.error.value));
          }
        }
      } else {
        notifications := notifications + [Inbound(m)];
      }
      Record(Receive(m));
    }

    /** `response_queue.put`, which never blocks. */
    method PutReplyItem()
      requires Valid() && reader.Delivering?
      modifies `calls, `reader, `past
      ensures Valid() && past == old(past) + [PutReply]
    {
      AtMostOneItem(past, reader.call);
      hide Runs, After;
      calls := calls[reader.call := Put(At(reader.call), reader.item)];
      reader := Listening;
      Record(PutReply);
    }

    method ReaderRaises()
      requires Valid() && reader == Listening
      modifies `reader, `past
      ensures Valid() && past == old(past) + [Raise]
    {
      hide Runs, After;
      reader := Failing;
      Record(Raise);
    }

    method PublishClosedError()
      requires Valid() && reader == Failing
      modifies `closedError, `reader, `past
      ensures Valid() && past == old(past) + [PublishError] && closedError
    {
      hide Runs, After;
      closedError := true;
      reader := Published;
      Record(PublishError);
    }

    /** `_fail_pending`, the swap under the lock. */
    method SwapTable()
      requires Valid() && reader == Published
      modifies `pending, `reader, `past
      ensures Valid() && past == old(past) + [SwapPending]
      ensures pending == map[] && reader == Closing(Holders(old(pending)))
    {
      hide Runs, After;
      reader := Closing(Holders(pending));
      pending := map[];
      Record(SwapPending);
    }

    /** `response_queue.put(("closed", exc))`, which never blocks. */
    method PutClosedItem(c: Call)
      requires Valid() && reader.Closing? && c in reader.todo
      modifies `calls, `reader, `past
      ensures Valid() && past == old(past) + [PutClosed(c)]
      ensures reader == Closing(old(reader).todo - {c})
      ensures At(c) == Put(old(At(c)), ClosedItem) && forall d: Call | d != c :: At(d) == old(At(d))
    {
      AtMostOneItem(past, c);
      hide Runs, After;
      calls := calls[c := Put(At(c), ClosedItem)];
      reader := Closing(reader.todo - {c});
      Record(PutClosed(c));
    }

    method NotifyConnectionClosed()
      requires Valid() && reader == Closing({})
      modifies `notifications, `reader, `past
      ensures Valid() && past == old(past) + [NotifyClosed] && notifications == old(notifications) + [ConnectionClosed]
    {
      hide Runs, After;
      notifications := notifications + [ConnectionClosed];
      reader := Failed;
      Record(NotifyClosed);
    }

    method ReaderStops()
      requires Valid() && reader == Listening
      modifies `reader, `past
      ensures Valid() && past == old(past) + [StopReading]
    {
      hide Runs, After;
      reader := Stopped;
      Record(StopReading);
    }

    // ---- threads among each other -------------------------------------------------------------------

    /** Whether the action can be taken now, as the threads themselves can tell. */
    predicate CanTake(a: Action)
      reads this
    {
      Enabled(State(nextRequestId, pending, calls, reader, closedError, notifications, [], [], {}, {}, false), a)
    }

    lemma CanTakeIsReady(a: Action)
      requires Valid()
      ensures CanTake(a) <==> Ready(a)
    {
      hide Runs, After;
    }

    /** Whichever thread is to make the action makes it. */
    method Perform(a: Action)
      requires Valid() && Ready(a)
      modifies this
      ensures Valid() && past == old(past) + [a]
    {
      hide Runs, After;
      if OfCaller(a) {
        PerformCaller(a);
      } else {
        PerformReader(a);
      }
    }

    method PerformCaller(a: Action)
      requires Valid() && Ready(a) && OfCaller(a)
      modifies this
      ensures Valid() && past == old(past) + [a]
    {
      hide Runs, After;
      if a.Register? || a.Forget? {
        CallHasId(past, a);
      }
      match a {
        case Check(c) => var _ := CheckOpen(c);
        case ReadNextId(c) => var _ := ReadRequestId(c);
        case LoadNextId(c) => var _ := LoadRequestId(c);
        case StoreNextId(c) => StoreRequestId(c, At(c).phase.value);
        case Register(c) => RegisterCall(c, At(c).id.value);
        case Send(c, ok) => SendRequest(c, ok);
        case Take(c) => var _ := TakeReply(c);
        case GiveUp(c) => TimeOut(c);
        case Forget(c) => ForgetCall(c, At(c).id.value);
      }
    }

    method PerformReader(a: Action)
      requires Valid() && Ready(a) && !OfCaller(a)
      modifies this
      ensures Valid() && past == old(past) + [a]
    {
      hide Runs, After;
      match a {
        case Receive(m) => DispatchMessage(m);
        case PutReply => PutReplyItem();
        case Raise => ReaderRaises();
        case PublishError => PublishClosedError();
        case SwapPending => SwapTable();
        case PutClosed(c) => PutClosedItem(c);
        case NotifyClosed => NotifyConnectionClosed();
        case StopReading => ReaderStops();
      }
    }

    /** The threads make the given actions, as far as they can. */
    method PerformAll(acts: seq<Action>) returns (ghost made: seq<Action>)
      requires Valid()
      modifies this
      ensures Valid() && past == old(past) + made && forall a | a in made :: a in acts
    {
      hide Valid, Ready, CanTake;
      made := [];
      for i := 0 to |acts|
        invariant Valid() && past == old(past) + made && forall a | a in made :: a in acts
      {
        CanTakeIsReady(acts[i]);
        if CanTake(acts[i]) {
          Perform(acts[i]);
          made := made + [acts[i]];
        }
      }
    }

    /** What others do between two steps of call `c`: `c` stays where it is, but may be given an item. */
    method Others(c: Call, acts: seq<Action>)
      requires Valid() && NoneOf(acts, c)
      modifies this
      ensures Valid() && old(past) <= past
      ensures At(c).phase == old(At(c)).phase && At(c).id == old(At(c)).id
      ensures old(closedError) ==> closedError
    {
      hide Runs, After, ActionOf;
      var made := PerformAll(acts);
      OthersKeepCall(old(past), made, c);
    }

    /** What has brought about the end of a call: an item came with exactly one message, which had the id
        of the call, or with the closing; a call that timed out has left nothing in the table. */
    ghost predicate Explained(c: Call, outcome: Outcome)
      requires Valid()
      reads this
    {
      match outcome
      case Answered(item) =>
        if item == ClosedItem then c in After(past).swapped else exists i: nat :: AnsweredBy(After(past), c, item, i)
      case TimedOut => c !in Holders(pending)
      case Refused => closedError
      case SendFailed => true
    }

    lemma OutcomeIsExplained(c: Call, outcome: Outcome)
      requires Valid() && At(c).phase == Finished(outcome) && (outcome == Refused ==> closedError)
      ensures Explained(c, outcome)
    {
      hide Runs, After, AnsweredBy, Holders;
      if outcome.Answered? {
        AnswersAreCorrelated(past, c, outcome.item);
      } else if outcome == TimedOut {
        TimedOutIsForgotten(past, c);
      }
    }

    /** `request`, with any steps of the other threads in between: `others[i]` is what they do before its
        step `i`, and `others[6]` what they do while it waits for the response. If the error was published
        before, it is refused. */
    method Request(c: Call, sent: bool, others: seq<seq<Action>>) returns (outcome: Outcome)
      requires Valid() && At(c).phase == Idle && |others| == 8 && forall acts | acts in others :: NoneOf(acts, c)
      modifies this
      ensures Valid() && old(past) <= past && At(c).phase == Finished(outcome) && Explained(c, outcome)
      ensures old(closedError) ==> outcome == Refused
      ensures outcome == SendFailed ==> !sent
    {
      hide Runs, After, NoneOf, Shows, Explained;
      Others(c, others[0]);
      var refused := CheckOpen(c);
      if refused {
        OutcomeIsExplained(c, Refused);
        return Refused;
      }
      var id := Allocate(c, others[1], others[2], others[3]);
      Submit(c, id, sent, others[4], others[5]);
      outcome := SendFailed;
      if sent {
        outcome := Await(c, id, others[6], others[7]);
      }
      OutcomeIsExplained(c, outcome);
    }

    /** `_allocate_request_id`. */
    method Allocate(c: Call, first: seq<Action>, second: seq<Action>, third: seq<Action>) returns (id: int)
      requires Valid() && At(c).phase == Checked && NoneOf(first, c) && NoneOf(second, c) && NoneOf(third, c)
      modifies this
      ensures Valid() && old(past) <= past && At(c).phase == Allocated && At(c).id == Some(id)
    {
      hide Runs, After, NoneOf, Shows;
      Others(c, first);
      id := ReadRequestId(c);
      Others(c, second);
      var value := LoadRequestId(c);
      Others(c, third);
      StoreRequestId(c, value);
    }

    /** Entering the call in the table and sending it. */
    method Submit(c: Call, id: int, sent: bool, first: seq<Action>, second: seq<Action>)
      requires Valid() && At(c).phase == Allocated && At(c).id == Some(id)
      requires NoneOf(first, c) && NoneOf(second, c)
      modifies this
      ensures Valid() && old(past) <= past && At(c).id == Some(id)
      ensures At(c).phase == if sent then Waiting else Finished(SendFailed)
    {
      hide Runs, After, NoneOf, Shows;
      Others(c, first);
      RegisterCall(c, id);
      Others(c, second);
      SendRequest(c, sent);
    }

    /** Waiting for the response, and what follows. */
    method Await(c: Call, id: int, meanwhile: seq<Action>, after: seq<Action>) returns (outcome: Outcome)
      requires Valid() && At(c).phase == Waiting && At(c).id == Some(id)
      requires NoneOf(meanwhile, c) && NoneOf(after, c)
      modifies this
      ensures Valid() && old(past) <= past && At(c).phase == Finished(outcome)
      ensures outcome == TimedOut || outcome.Answered?
    {
      hide Runs, After, NoneOf, Shows;
      Others(c, meanwhile);
      if At(c).queue != [] {
        var item := TakeReply(c);
        return Answered(item);
      }
      TimeOut(c);
      Others(c, after);
      ForgetCall(c, id);
      return TimedOut;
    }

    /** `_fail_pending`: the swap under the lock, then a closed item for every call that was pending, in
        any order, with any steps of the calling threads before each put; no put blocks. */
    method FailPending(callers: seq<seq<Action>>)
      requires Valid() && reader == Published && forall acts | acts in callers :: AllOfCallers(acts)
      modifies this
      ensures Valid() && old(past) + [SwapPending] <= past && reader == Closing({})
      ensures forall c | c in Holders(old(pending)) :: At(c).puts == [ClosedItem]
      ensures forall c: Call | c !in Holders(old(pending)) :: At(c).puts == old(At(c)).puts
    {
      hide Runs, After, Holders, AllOfCallers;
      ghost var failing := Holders(pending);
      SwapTable();
      var todo := reader.todo;
      var i := 0;
      while todo != {}
        invariant Valid() && old(past) + [SwapPending] <= past && reader == Closing(todo) && todo <= failing
        invariant forall c: Call | c !in failing :: At(c).puts == old(At(c)).puts
        invariant forall c | c in failing && c !in todo :: At(c).puts == [ClosedItem]
        decreases todo
      {
        if i < |callers| {
          CallersMeanwhile(callers[i]);
          i := i + 1;
        }
        var c :| c in todo;
        NothingPutYet(past, c);
        PutClosedItem(c);
        todo := todo - {c};
      }
    }

    method CallersMeanwhile(acts: seq<Action>)
      requires Valid() && AllOfCallers(acts)
      modifies this
      ensures Valid() && old(past) <= past && reader == old(reader)
      ensures forall c: Call :: At(c).puts == old(At(c)).puts
    {
      hide Runs, After, OfCaller;
      var made := PerformAll(acts);
      CallersKeepPuts(old(past), made, 0);
      forall c: Call ensures At(c).puts == old(At(c)).puts {
        CallersKeepPuts(old(past), made, c);
      }
    }
  }

  lemma NothingPutYet(acts: seq<Action>, c: Call)
    requires Runs(acts) && After(acts).reader.Closing? && c in After(acts).reader.todo
    ensures After(acts).At(c).puts == []
  {
    InvHolds(acts);
  }

  /** A caller that registers or forgets its call has an id. */
  lemma CallHasId(acts: seq<Action>, a: Action)
    requires Runs(acts) && Enabled(After(acts), a) && (a.Register? || a.Forget?)
    ensures After(acts).At(a.c).id.Some?
  {
    InvHolds(acts);
    assert a.c in After(acts).calls && CallOk(After(acts).calls[a.c]);
  }
}
