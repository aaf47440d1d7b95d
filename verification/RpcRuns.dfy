/** What every interleaving of the JSON-RPC client keeps: at most one item per response queue,
    answers only to the call with the id of the response, an account of every inbound message, and
    the order of things when the connection closes. */
module RpcRuns {
  import opened Prelude
  import opened RpcProtocol

  // ---- the invariant ---------------------------------------------------------------------------

  predicate InTable(p: Phase) {
    p in {Registered, Waiting, GivingUp, Finished(SendFailed)}
  }

  /** One call on its own. */
  ghost predicate CallOk(cs: CallState) {
    && |cs.puts| <= 1
    && (cs.queue == cs.puts || cs.queue == [])
    && (cs.phase in {Idle, Checked, Finished(Refused)} ==> cs.id.None?)
    && (cs.phase !in {Idle, Checked, Finished(Refused)} ==> cs.id.Some?)
    && (cs.phase in {Idle, Checked, Allocated, Finished(Refused)} || InAllocation(cs.phase) ==> cs.puts == [])
    && (cs.phase in {Registered, Waiting} ==> cs.queue == cs.puts)
    && (cs.phase.Finished? && cs.phase.outcome.Answered? ==> cs.puts == [cs.phase.outcome.item])
  }

  ghost predicate CallsOk(s: State) {
    forall c | c in s.calls :: CallOk(s.calls[c])
  }

  /** A pending call has put nothing yet, and is pending under its own id only. */
  ghost predicate PendingOk(s: State) {
    forall k | k in s.pending ::
      s.pending[k] in s.calls && s.At(s.pending[k]).id == Some(k) && s.At(s.pending[k]).puts == []
      && InTable(s.At(s.pending[k]).phase)
  }

  /** A call whose queue the reader is about to put into: out of the table, nothing put yet. */
  ghost predicate AboutToGet(s: State, c: Call) {
    c in s.calls && WasInTable(s.At(c)) && c !in Holders(s.pending)
  }

  /** Registered at some time, nothing put yet. */
  ghost predicate WasInTable(cs: CallState) {
    cs.puts == [] && cs.id.Some? && (InTable(cs.phase) || cs.phase == Finished(TimedOut))
  }

  ghost predicate ReaderOk(s: State) {
    && (s.reader.Delivering? ==> AboutToGet(s, s.reader.call))
    && (s.reader.Closing? ==> forall c | c in s.reader.todo :: AboutToGet(s, c))
  }

  ghost predicate Tables(s: State) {
    CallsOk(s) && PendingOk(s) && ReaderOk(s)
  }

  predicate OfCaller(a: Action) {
    || a.Check? || a.ReadNextId? || a.LoadNextId? || a.StoreNextId? || a.Register?
    || a.Send? || a.Take? || a.GiveUp? || a.Forget?
  }

  lemma OneCallChanges(s: State, a: Action)
    requires Enabled(s, a) && OfCaller(a)
    ensures Step(s, a).calls == s.calls[a.c := Step(s, a).At(a.c)]
  {
  }

  lemma CallStaysOk(s: State, a: Action)
    requires OfCaller(a) && Enabled(s, a) && CallOk(s.At(a.c))
    ensures CallOk(Step(s, a).At(a.c))
  {
  }

  lemma CallerKeepsCalls(s: State, a: Action)
    requires Tables(s) && Enabled(s, a) && OfCaller(a)
    ensures CallsOk(Step(s, a))
  {
    hide Step, Enabled, OfCaller, PendingOk, ReaderOk;
    OneCallChanges(s, a);
    CallStaysOk(s, a);
  }

  lemma CallerKeepsPending(s: State, a: Action)
    requires Tables(s) && Enabled(s, a) && OfCaller(a)
    ensures PendingOk(Step(s, a))
  {
  }

  /** What a caller's action leaves alone. */
  lemma CallerFrame(s: State, a: Action)
    requires Tables(s) && Enabled(s, a) && OfCaller(a)
    ensures var t := Step(s, a);
            && t == s.(calls := t.calls, pending := t.pending, nextId := t.nextId, overlap := t.overlap)
            && t.calls == s.calls[a.c := t.At(a.c)]
            && t.At(a.c).puts == s.At(a.c).puts
            && (s.At(a.c).id.Some? ==> t.At(a.c).id == s.At(a.c).id)
            && (WasInTable(s.At(a.c)) ==> WasInTable(t.At(a.c)))
  {
  }

  lemma CallerFramePending(s: State, a: Action)
    requires Tables(s) && Enabled(s, a) && OfCaller(a)
    ensures forall c | c in Holders(Step(s, a).pending) && c !in Holders(s.pending) ::
              c == a.c && !WasInTable(s.At(c)) && !s.At(c).phase.Finished? && !InTable(s.At(c).phase)
  {
  }

  lemma CallerKeepsReader(s: State, a: Action)
    requires Tables(s) && Enabled(s, a) && OfCaller(a)
    ensures ReaderOk(Step(s, a))
  {
    hide Step, Enabled, WasInTable, InTable, CallsOk, PendingOk, Holders;
    CallerFrame(s, a);
    CallerFramePending(s, a);
  }

  lemma DispatchKeepsTables(s: State, m: Message)
    requires Tables(s) && s.reader == Listening
    ensures Tables(Dispatch(s, m))
  {
    hide CallsOk, CallOk, WasInTable, InTable;
    var t := Dispatch(s, m);
    assert t.calls == s.calls && CallsOk(t) by { SameCalls(s, t); }
    assert PendingOk(t);
    if t.reader.Delivering? {
      TakenFromTable(s, m.id.k);
    }
  }

  lemma SameCalls(s: State, t: State)
    requires CallsOk(s) && t.calls == s.calls
    ensures CallsOk(t)
  {
  }

  /** A call that has left the table is about to get its item. */
  lemma TakenFromTable(s: State, k: int)
    requires PendingOk(s) && k in s.pending
    ensures s.pending[k] in s.calls && WasInTable(s.At(s.pending[k]))
    ensures s.pending[k] !in Holders(s.pending - {k})
  {
    var c, rest := s.pending[k], s.pending - {k};
    forall j | j in rest ensures rest[j] != c {
      assert s.At(s.pending[j]).id == Some(j);
    }
  }

  lemma ReaderKeepsTables(s: State, a: Action)
    requires Tables(s) && Enabled(s, a) && !OfCaller(a)
    ensures Tables(Step(s, a))
  {
    if a.Receive? {
      DispatchKeepsTables(s, a.m);
    } else if a.SwapPending? {
      forall c | c in Step(s, a).reader.todo ensures AboutToGet(Step(s, a), c) {
        var k :| k in s.pending && s.pending[k] == c;
      }
    }
  }

  // ---- the account of inbound messages -----------------------------------------------------------

  /** What the messages so far have delivered to a call. */
  ghost function DeliveredTo(inbox: seq<Message>, fates: seq<Fate>, c: Call): seq<Item>
    requires |inbox| == |fates|
    requires forall i | 0 <= i < |fates| && fates[i].Delivered? :: inbox[i].IsResponse()
  {
    if inbox == [] then []
    else
      var n := |inbox| - 1;
      DeliveredTo(inbox[..n], fates[..n], c) + if fates[n] == Delivered(c) then [inbox[n].Reply()] else []
  }

  /** The messages that are no responses, as notifications in order of arrival. */
  ghost function NotesOf(inbox: seq<Message>): seq<Note> {
    if inbox == [] then []
    else
      var n := |inbox| - 1;
      var m := inbox[n];
      NotesOf(inbox[..n]) + if m.id == NoId || (m.result.None? && m.error.None?) then [Inbound(m)] else []
  }

  ghost predicate FateOk(s: State, m: Message, f: Fate) {
    match f
    case Queued => !m.IsResponse()
    case Broke => m.IsResponse() && m.id == BadId
    case Dropped => m.IsResponse() && m.id.IntId?
    case Delivered(c) => m.IsResponse() && m.id.IntId? && s.At(c).id == Some(m.id.k)
  }

  ghost predicate FatesOk(s: State) {
    && |s.inbox| == |s.fates|
    && forall i | 0 <= i < |s.inbox| :: FateOk(s, s.inbox[i], s.fates[i])
  }

  ghost function InFlight(s: State, c: Call): seq<Item> {
    if s.reader.Delivering? && s.reader.call == c then [s.reader.item] else []
  }

  ghost function ClosedPart(s: State, c: Call): seq<Item> {
    if c in s.swapped && !(s.reader.Closing? && c in s.reader.todo) then [ClosedItem] else []
  }

  /** Everything ever put into a response queue, and what is about to be, is accounted for: it is what
      the messages delivered to that call, and one closed item if the call was pending at the swap. */
  ghost predicate BalancedFor(s: State, c: Call)
    requires FatesOk(s)
  {
    s.At(c).puts + InFlight(s, c) == DeliveredTo(s.inbox, s.fates, c) + ClosedPart(s, c)
  }

  ghost predicate Ledger(s: State) {
    && FatesOk(s)
    && (forall c: Call :: BalancedFor(s, c))
    && s.notes == NotesOf(s.inbox) + (if s.reader == Failed then [ConnectionClosed] else [])
    && (s.reader.Closing? ==> s.reader.todo <= s.swapped)
    && (!(s.reader.Closing? || s.reader.Failed?) ==> s.swapped == {})
  }

  lemma CallerKeepsLedger(s: State, a: Action)
    requires Tables(s) && Ledger(s) && Enabled(s, a) && OfCaller(a)
    ensures Ledger(Step(s, a))
  {
    hide Step, Enabled, DeliveredTo, NotesOf, Tables;
    CallerFrame(s, a);
    var t := Step(s, a);
    assert t.inbox == s.inbox && t.fates == s.fates && t.reader == s.reader;
    assert t.swapped == s.swapped && t.notes == s.notes;
    forall i | 0 <= i < |s.inbox| ensures FateOk(t, s.inbox[i], s.fates[i]) {
      assert FateOk(s, s.inbox[i], s.fates[i]);
    }
    forall c: Call ensures BalancedFor(t, c) {
      assert BalancedFor(s, c);
      assert t.At(c).puts == s.At(c).puts;
    }
  }

  lemma AccountStep(inbox: seq<Message>, fates: seq<Fate>, m: Message, f: Fate, c: Call)
    requires |inbox| == |fates|
    requires forall i | 0 <= i < |fates| && fates[i].Delivered? :: inbox[i].IsResponse()
    requires f.Delivered? ==> m.IsResponse()
    ensures DeliveredTo(inbox + [m], fates + [f], c)
         == DeliveredTo(inbox, fates, c) + if f == Delivered(c) then [m.Reply()] else []
    ensures NotesOf(inbox + [m]) == NotesOf(inbox) + if m.IsResponse() then [] else [Inbound(m)]
  {
    assert (inbox + [m])[..|inbox|] == inbox && (fates + [f])[..|fates|] == fates;
  }

  /** The fate of a message when the table is `pending`. */
  function FateOf(pending: map<int, Call>, m: Message): Fate {
    if m.id == NoId || (m.result.None? && m.error.None?) then Queued
    else if m.id == BadId then Broke
    else if m.id.k in pending then Delivered(pending[m.id.k])
    else Dropped
  }

  /** What dispatching changes, said in terms of the fate of the message. */
  lemma DispatchIs(s: State, m: Message)
    requires s.reader == Listening
    ensures var f := FateOf(s.pending, m);
            Dispatch(s, m) == s.(inbox := s.inbox + [m], fates := s.fates + [f],
                                 notes := if f == Queued then s.notes + [Inbound(m)] else s.notes,
                                 pending := if f.Delivered? then s.pending - {m.id.k} else s.pending,
                                 reader := if f == Broke then Failing
                                           else if f.Delivered? then Delivering(f.call, m.Reply()) else Listening)
  {
  }

  lemma FateIsOk(s: State, m: Message)
    requires PendingOk(s)
    ensures FateOk(s, m, FateOf(s.pending, m))
  {
  }

  lemma DispatchKeepsFates(s: State, m: Message)
    requires Tables(s) && FatesOk(s) && s.reader == Listening
    ensures FatesOk(Dispatch(s, m))
  {
    hide Dispatch, FateOf, FateOk, PendingOk, CallsOk, ReaderOk;
    DispatchIs(s, m);
    FateIsOk(s, m);
    var t := Dispatch(s, m);
    forall i | 0 <= i < |t.inbox| ensures FateOk(t, t.inbox[i], t.fates[i]) {
      if i < |s.inbox| {
        assert FateOk(s, s.inbox[i], s.fates[i]);
      }
      SameFate(s, t, t.inbox[i], t.fates[i]);
    }
  }

  lemma SameFate(s: State, t: State, m: Message, f: Fate)
    requires FateOk(s, m, f) && t.calls == s.calls
    ensures FateOk(t, m, f)
  {
  }

  lemma DispatchBalances(s: State, m: Message, c: Call)
    requires Tables(s) && Ledger(s) && s.reader == Listening && FatesOk(Dispatch(s, m))
    ensures BalancedFor(Dispatch(s, m), c)
  {
    hide Dispatch, NotesOf, FateOf, PendingOk, CallsOk, ReaderOk;
    DispatchIs(s, m);
    FateIsOk(s, m);
    assert BalancedFor(s, c);
    var t, f := Dispatch(s, m), FateOf(s.pending, m);
    forall i | 0 <= i < |s.fates| && s.fates[i].Delivered? ensures s.inbox[i].IsResponse() {
      assert FateOk(s, s.inbox[i], s.fates[i]);
    }
    AccountStep(s.inbox, s.fates, m, f, c);
    var before := DeliveredTo(s.inbox, s.fates, c);
    assert s.At(c).puts == before by {
      assert s.At(c).puts + [] == s.At(c).puts && before + [] == before;
    }
    var more := if f == Delivered(c) then [m.Reply()] else [];
    assert InFlight(t, c) == more && ClosedPart(t, c) == [];
    assert (before + more) + [] == before + more;
  }

  lemma DispatchKeepsLedger(s: State, m: Message)
    requires Tables(s) && Ledger(s) && s.reader == Listening
    ensures Ledger(Dispatch(s, m))
  {
    hide Dispatch, DeliveredTo, FateOf, PendingOk, CallsOk, ReaderOk;
    DispatchKeepsFates(s, m);
    DispatchIs(s, m);
    assert FateOf(s.pending, m) == Queued <==> !m.IsResponse() by { FateIsOk(s, m); }
    forall c: Call ensures BalancedFor(Dispatch(s, m), c) {
      DispatchBalances(s, m, c);
    }
    assert (s.inbox + [m])[..|s.inbox|] == s.inbox;
  }

  lemma PutKeepsLedger(s: State, a: Action)
    requires Tables(s) && Ledger(s) && Enabled(s, a) && (a.PutReply? || a.PutClosed?)
    ensures Ledger(Step(s, a))
  {
    var t := Step(s, a);
    forall i | 0 <= i < |s.inbox| ensures FateOk(t, s.inbox[i], s.fates[i]) {
      assert FateOk(s, s.inbox[i], s.fates[i]);
    }
    forall c: Call ensures BalancedFor(t, c) {
      assert BalancedFor(s, c);
    }
  }

  lemma ReaderKeepsLedger(s: State, a: Action)
    requires Tables(s) && Ledger(s) && Enabled(s, a) && !OfCaller(a)
    ensures Ledger(Step(s, a))
  {
    if a.Receive? {
      DispatchKeepsLedger(s, a.m);
    } else if a.PutReply? || a.PutClosed? {
      PutKeepsLedger(s, a);
    } else {
      var t := Step(s, a);
      forall i | 0 <= i < |s.inbox| ensures FateOk(t, s.inbox[i], s.fates[i]) {
        assert FateOk(s, s.inbox[i], s.fates[i]);
      }
      forall c: Call ensures BalancedFor(t, c) {
        assert BalancedFor(s, c);
      }
    }
  }

  // ---- request ids --------------------------------------------------------------------------------

  ghost predicate DistinctIds(s: State) {
    forall c, d | c in s.calls && d in s.calls && c != d && s.calls[c].id.Some? :: s.calls[c].id != s.calls[d].id
  }

  /** Without overlap: ids in use lie below the next one, except that of the one call between reading
      it and storing the next; and a call that can still be answered is pending under its id. */
  ghost predicate IdsFresh(s: State) {
    && (forall c | c in s.calls && s.calls[c].id.Some? ::
          if InAllocation(s.calls[c].phase) then s.calls[c].id == Some(s.nextId) else s.calls[c].id.value < s.nextId)
    && (forall c | c in s.calls && s.calls[c].phase.Loaded? :: s.calls[c].phase.value == s.nextId)
    && (forall c, d | c in s.calls && d in s.calls
                      && InAllocation(s.calls[c].phase) && InAllocation(s.calls[d].phase) :: c == d)
  }

  ghost predicate IdsOk(s: State) {
    && (DistinctIds(s) <==> !s.overlap)
    && (!s.overlap ==> IdsFresh(s))
  }

  predicate SameAllocation(cs: CallState, ct: CallState) {
    ct.id == cs.id && (InAllocation(cs.phase) || InAllocation(ct.phase) ==> ct.phase == cs.phase)
  }

  /** Nothing that concerns ids has changed. */
  ghost predicate SameIds(s: State, t: State) {
    && t.nextId == s.nextId && t.overlap == s.overlap
    && forall c: Call :: SameAllocation(s.At(c), t.At(c))
  }

  lemma SameIdsAreOk(s: State, t: State)
    requires IdsOk(s) && SameIds(s, t) && s.calls.Keys <= t.calls.Keys
    ensures IdsOk(t)
  {
    forall c | c in t.calls ensures SameAllocation(s.At(c), t.calls[c]) {
      assert SameAllocation(s.At(c), t.At(c));
    }
    if !DistinctIds(s) {
      var c, d :| c in s.calls && d in s.calls && c != d && s.calls[c].id.Some? && s.calls[c].id == s.calls[d].id;
      assert t.calls[c].id == t.calls[d].id;
    }
  }

  lemma ReadKeepsIds(s: State, c: Call)
    requires Tables(s) && IdsOk(s) && Enabled(s, ReadNextId(c))
    ensures IdsOk(Step(s, ReadNextId(c)))
  {
    var t := Step(s, ReadNextId(c));
    assert c in s.calls && s.calls[c].id.None?;
    forall d | d != c ensures t.At(d) == s.At(d) {}
    if s.overlap {
      var a, b :| a in s.calls && b in s.calls && a != b && s.calls[a].id.Some? && s.calls[a].id == s.calls[b].id;
      assert t.calls[a].id == t.calls[b].id;
    } else if Allocating(s) {
      var d :| d in s.calls && InAllocation(s.calls[d].phase);
      assert t.calls[c].id == t.calls[d].id;
    }
  }

  lemma LoadKeepsIds(s: State, c: Call)
    requires Tables(s) && IdsOk(s) && Enabled(s, LoadNextId(c))
    ensures IdsOk(Step(s, LoadNextId(c)))
  {
    var t := Step(s, LoadNextId(c));
    assert forall d | d in s.calls :: t.calls[d].id == s.calls[d].id;
    if s.overlap {
      var a, b :| a in s.calls && b in s.calls && a != b && s.calls[a].id.Some? && s.calls[a].id == s.calls[b].id;
      assert t.calls[a].id == t.calls[b].id;
    }
  }

  lemma StoreKeepsDistinct(s: State, c: Call)
    requires Enabled(s, StoreNextId(c))
    ensures DistinctIds(Step(s, StoreNextId(c))) <==> DistinctIds(s)
  {
    var t := Step(s, StoreNextId(c));
    assert t.calls.Keys == s.calls.Keys;
    assert forall d | d in s.calls :: t.calls[d].id == s.calls[d].id;
    if !DistinctIds(s) {
      var a, b :| a in s.calls && b in s.calls && a != b && s.calls[a].id.Some? && s.calls[a].id == s.calls[b].id;
      assert t.calls[a].id == t.calls[b].id;
    }
  }

  lemma StoreKeepsIds(s: State, c: Call)
    requires Tables(s) && IdsOk(s) && Enabled(s, StoreNextId(c))
    ensures IdsOk(Step(s, StoreNextId(c)))
  {
    hide DistinctIds, PendingOk, ReaderOk;
    StoreKeepsDistinct(s, c);
  }

  lemma StepKeepsIds(s: State, a: Action)
    requires Tables(s) && IdsOk(s) && Enabled(s, a)
    ensures IdsOk(Step(s, a))
  {
    if a.ReadNextId? {
      ReadKeepsIds(s, a.c);
    } else if a.LoadNextId? {
      LoadKeepsIds(s, a.c);
    } else if a.StoreNextId? {
      StoreKeepsIds(s, a.c);
    } else {
      OthersKeepIds(s, a);
      SameIdsAreOk(s, Step(s, a));
    }
  }

  lemma OthersKeepIds(s: State, a: Action)
    requires Tables(s) && Enabled(s, a) && !a.ReadNextId? && !a.LoadNextId? && !a.StoreNextId?
    ensures SameIds(s, Step(s, a)) && s.calls.Keys <= Step(s, a).calls.Keys
  {
    if OfCaller(a) {
      CallerKeepsIds(s, a);
    } else {
      hide Tables, CallOk, Holders, Begun;
    }
  }

  lemma CallerAllocation(s: State, a: Action)
    requires CallsOk(s) && Enabled(s, a) && OfCaller(a) && !a.ReadNextId? && !a.LoadNextId? && !a.StoreNextId?
    ensures SameAllocation(s.At(a.c), Step(s, a).At(a.c))
    ensures Step(s, a).nextId == s.nextId && Step(s, a).overlap == s.overlap
  {
    hide Step, Enabled;
    assert CallOk(s.At(a.c));
    CallerKeepsAllocation(s, a);
    CallerKeepsCounter(s, a);
  }

  lemma CallerKeepsAllocation(s: State, a: Action)
    requires OfCaller(a) && Enabled(s, a) && CallOk(s.At(a.c))
    requires !a.ReadNextId? && !a.LoadNextId? && !a.StoreNextId?
    ensures SameAllocation(s.At(a.c), Step(s, a).At(a.c))
  {
  }

  lemma CallerKeepsCounter(s: State, a: Action)
    requires Enabled(s, a) && OfCaller(a) && !a.ReadNextId? && !a.LoadNextId? && !a.StoreNextId?
    ensures Step(s, a).nextId == s.nextId && Step(s, a).overlap == s.overlap
  {
  }

  lemma CallerKeepsIds(s: State, a: Action)
    requires Tables(s) && Enabled(s, a) && OfCaller(a) && !a.ReadNextId? && !a.LoadNextId? && !a.StoreNextId?
    ensures SameIds(s, Step(s, a)) && s.calls.Keys <= Step(s, a).calls.Keys
  {
    hide Step, Enabled, OfCaller, PendingOk, ReaderOk, CallsOk, WasInTable;
    CallerFrame(s, a);
    CallerAllocation(s, a);
  }

  // ---- no reply is lost ------------------------------------------------------------------------------

  predicate SwappedAlready(s: State) {
    s.reader.Closing? || s.reader.Failed?
  }

  /** A registered call that has had no answer yet. */
  predicate Unanswered(s: State, c: Call) {
    && c in s.calls && s.calls[c].phase in {Registered, Waiting, GivingUp} && s.calls[c].puts == []
    && !(s.reader.Delivering? && s.reader.call == c)
  }

  /** Without overlap, and before the swap, every such call is pending under its id. */
  ghost predicate PendingComplete(s: State) {
    !s.overlap && !SwappedAlready(s) ==>
      forall c: Call | Unanswered(s, c) :: Get(s.pending, s.At(c).id.GetOr(0)) == Some(c)
  }

  /** What a caller's action does to the table. */
  lemma CallerTable(s: State, a: Action)
    requires Enabled(s, a) && OfCaller(a)
    ensures var t := Step(s, a);
            && t.reader == s.reader
            && t.pending == (if a.Register? then s.pending[s.At(a.c).id.GetOr(0) := a.c]
                             else if a.Forget? then s.pending - {s.At(a.c).id.GetOr(0)} else s.pending)
            && (a.Register? ==> s.At(a.c).phase == Allocated)
            && (a.Forget? ==> s.At(a.c).phase == GivingUp && t.At(a.c).phase.Finished?)
            && (t.At(a.c).phase in {Registered, Waiting, GivingUp} ==>
                  a.Register? || s.At(a.c).phase in {Registered, Waiting, GivingUp})
            && (s.overlap ==> t.overlap)
  {
  }

  lemma CallerKeepsComplete(s: State, a: Action)
    requires Tables(s) && IdsOk(s) && PendingComplete(s) && Enabled(s, a) && OfCaller(a)
    ensures PendingComplete(Step(s, a))
  {
    hide Step, Enabled, PendingOk, ReaderOk, IdsFresh, OfCaller;
    CallerFrame(s, a);
    CallerTable(s, a);
    var t := Step(s, a);
    if !t.overlap && !SwappedAlready(t) {
      forall c: Call | Unanswered(t, c) ensures Get(t.pending, t.At(c).id.GetOr(0)) == Some(c) {
        if !(a.Register? && a.c == c) {
          assert Unanswered(s, c);
        }
        if a.Register? || a.Forget? {
          assert a.c in s.calls && s.calls[a.c].id.Some?;
        }
      }
    }
  }

  lemma ReaderKeepsComplete(s: State, a: Action)
    requires Tables(s) && IdsOk(s) && PendingComplete(s) && Enabled(s, a) && !OfCaller(a)
    ensures PendingComplete(Step(s, a))
  {
    var t := Step(s, a);
    if !t.overlap && !SwappedAlready(t) {
      forall c: Call | Unanswered(t, c) ensures Get(t.pending, t.At(c).id.GetOr(0)) == Some(c) {
        assert Unanswered(s, c);
      }
    }
  }

  // ---- closing --------------------------------------------------------------------------------------

  /** When the error is published no further call begins, and what the swap took stays out of the table. */
  ghost predicate CloseOk(s: State) {
    && (s.closed <==> s.reader.Published? || SwappedAlready(s))
    && (s.closed ==> Begun(s) <= s.begun)
    && (forall c | c in s.swapped ::
          && c in s.calls && (InTable(s.calls[c].phase) || s.calls[c].phase.Finished?) && s.calls[c].id.Some?
          && c !in Holders(s.pending))
  }

  lemma CallerKeepsClose(s: State, a: Action)
    requires Tables(s) && CloseOk(s) && Enabled(s, a) && OfCaller(a)
    ensures CloseOk(Step(s, a))
  {
    hide CallsOk, PendingOk, ReaderOk, Holders;
    CallerFrame(s, a);
    CallerFramePending(s, a);
  }

  lemma ReaderKeepsClose(s: State, a: Action)
    requires Tables(s) && Ledger(s) && CloseOk(s) && Enabled(s, a) && !OfCaller(a)
    ensures CloseOk(Step(s, a))
  {
    if a.SwapPending? {
      forall c | c in Holders(s.pending) ensures c in s.calls && InTable(s.calls[c].phase) && s.calls[c].id.Some? {
        var k :| k in s.pending && s.pending[k] == c;
      }
    }
  }

  // ---- every run ------------------------------------------------------------------------------------

  ghost predicate Inv(s: State) {
    Tables(s) && Ledger(s) && IdsOk(s) && PendingComplete(s) && CloseOk(s)
  }

  lemma InitialIsOk()
    ensures Inv(INITIAL)
  {
    forall c: Call ensures BalancedFor(INITIAL, c) {
    }
  }

  lemma StepKeepsInv(s: State, a: Action)
    requires Inv(s) && Enabled(s, a)
    ensures Inv(Step(s, a))
  {
    hide Step, Enabled, OfCaller, Tables, Ledger, IdsOk, PendingComplete, CloseOk;
    StepKeepsIds(s, a);
    if OfCaller(a) {
      CallerKeepsTables(s, a);
      CallerKeepsLedger(s, a);
      CallerKeepsComplete(s, a);
      CallerKeepsClose(s, a);
    } else {
      ReaderKeepsTables(s, a);
      ReaderKeepsLedger(s, a);
      ReaderKeepsComplete(s, a);
      ReaderKeepsClose(s, a);
    }
  }

  lemma CallerKeepsTables(s: State, a: Action)
    requires Tables(s) && Enabled(s, a) && OfCaller(a)
    ensures Tables(Step(s, a))
  {
    CallerKeepsCalls(s, a);
    CallerKeepsPending(s, a);
    CallerKeepsReader(s, a);
  }

  lemma {:induction false} InvHolds(acts: seq<Action>)
    requires Runs(acts)
    ensures Inv(After(acts))
    decreases |acts|
  {
    hide Inv, Step, Enabled;
    if acts == [] {
      InitialIsOk();
    } else {
      var n := |acts| - 1;
      InvHolds(acts[..n]);
      StepKeepsInv(After(acts[..n]), acts[n]);
    }
  }

  lemma RunStep(acts: seq<Action>, a: Action)
    requires Runs(acts) && Enabled(After(acts), a)
    ensures Runs(acts + [a]) && After(acts + [a]) == Step(After(acts), a)
  {
    assert (acts + [a])[..|acts|] == acts;
  }

  /** At most one item ever goes into a response queue, so a put never blocks the reader. */
  lemma AtMostOneItem(acts: seq<Action>, c: Call)
    requires Runs(acts)
    ensures var s := After(acts);
            && |s.At(c).puts| <= 1
            && (s.reader.Delivering? ==> Enabled(s, PutReply))
            && (s.reader.Closing? && c in s.reader.todo ==> Enabled(s, PutClosed(c)))
  {
    InvHolds(acts);
    var s := After(acts);
    assert c in s.calls ==> CallOk(s.calls[c]);
  }

  lemma {:induction false} DeliveryWitness(inbox: seq<Message>, fates: seq<Fate>, c: Call) returns (i: nat)
    requires |inbox| == |fates|
    requires forall i | 0 <= i < |fates| && fates[i].Delivered? :: inbox[i].IsResponse()
    requires |DeliveredTo(inbox, fates, c)| == 1
    ensures i < |inbox| && fates[i] == Delivered(c) && DeliveredTo(inbox, fates, c) == [inbox[i].Reply()]
    ensures forall j | 0 <= j < |fates| && fates[j] == Delivered(c) :: j == i
  {
    var n := |inbox| - 1;
    if fates[n] == Delivered(c) {
      i := n;
      assert DeliveredTo(inbox[..n], fates[..n], c) == [];
      forall j | 0 <= j < n ensures fates[j] != Delivered(c) {
        NoDelivery(inbox[..n], fates[..n], c, j);
        assert fates[..n][j] == fates[j];
      }
    } else {
      i := DeliveryWitness(inbox[..n], fates[..n], c);
      assert forall j | 0 <= j < n :: fates[..n][j] == fates[j];
    }
  }

  lemma {:induction false} NoDelivery(inbox: seq<Message>, fates: seq<Fate>, c: Call, j: nat)
    requires |inbox| == |fates| && j < |fates|
    requires forall i | 0 <= i < |fates| && fates[i].Delivered? :: inbox[i].IsResponse()
    requires DeliveredTo(inbox, fates, c) == []
    ensures fates[j] != Delivered(c)
  {
    var n := |inbox| - 1;
    if j < n {
      NoDelivery(inbox[..n], fates[..n], c, j);
    }
  }

  /** The message holds this item: a result, or an error and no result. */
  predicate Carries(m: Message, item: Item) {
    match item
    case ResultItem(payload) => m.result == Some(payload)
    case ErrorItem(payload) => m.result == None && m.error == Some(payload)
    case ClosedItem => false
  }

  lemma ReplyIsCarried(m: Message, item: Item)
    requires m.IsResponse()
    ensures Carries(m, item) <==> item == m.Reply()
  {
  }

  /** Inbound message `i`, a response with the id of `c`, is the only one delivered to `c`. */
  ghost predicate AnsweredBy(s: State, c: Call, item: Item, i: nat) {
    && |s.inbox| == |s.fates| && i < |s.inbox| && s.fates[i] == Delivered(c)
    && Carries(s.inbox[i], item) && s.inbox[i].id.IntId? && s.At(c).id == Some(s.inbox[i].id.k)
    && forall j | 0 <= j < |s.fates| && s.fates[j] == Delivered(c) :: j == i
  }

  lemma GivenMeansAnswered(s: State, c: Call, item: Item)
    requires FatesOk(s)
    requires forall i | 0 <= i < |s.fates| && s.fates[i].Delivered? :: s.inbox[i].IsResponse()
    requires DeliveredTo(s.inbox, s.fates, c) == [item]
    ensures exists i: nat :: AnsweredBy(s, c, item, i)
  {
    hide DeliveredTo;
    var i := DeliveryWitness(s.inbox, s.fates, c);
    assert FateOk(s, s.inbox[i], s.fates[i]);
    assert s.inbox[i].Reply() == [s.inbox[i].Reply()][0] == item;
    ReplyIsCarried(s.inbox[i], item);
    assert AnsweredBy(s, c, item, i);
  }

  /** A call that returned an item was given it by exactly one inbound response, and that one bore the
      id of the call; or the item is the closed one, and the call was pending when the reader failed. */
  lemma AnswersAreCorrelated(acts: seq<Action>, c: Call, item: Item)
    requires Runs(acts) && After(acts).At(c).phase == Finished(Answered(item))
    ensures var s := After(acts);
            if item == ClosedItem then c in s.swapped else exists i: nat :: AnsweredBy(s, c, item, i)
  {
    InvHolds(acts);
    AnswerIsAccountedFor(After(acts), c, item);
  }

  lemma AnswerIsAccountedFor(s: State, c: Call, item: Item)
    requires Tables(s) && Ledger(s) && s.At(c).phase == Finished(Answered(item))
    ensures if item == ClosedItem then c in s.swapped else exists i: nat :: AnsweredBy(s, c, item, i)
  {
    hide DeliveredTo, NotesOf, PendingOk;
    assert CallOk(s.calls[c]);
    assert BalancedFor(s, c);
    forall i | 0 <= i < |s.fates| && s.fates[i].Delivered? ensures s.inbox[i].IsResponse() {
      assert FateOk(s, s.inbox[i], s.fates[i]);
    }
    var given := DeliveredTo(s.inbox, s.fates, c);
    assert s.At(c).puts == [item] && InFlight(s, c) == [];
    assert [item] + [] == given + ClosedPart(s, c);
    OneItem(given, ClosedPart(s, c), item);
    if given == [item] {
      GivenMeansAnswered(s, c, item);
      DeliveredIsNoClosing(s, c);
    }
  }

  lemma OneItem(a: seq<Item>, b: seq<Item>, item: Item)
    requires a + b == [item] + []
    ensures (a == [item] && b == []) || (a == [] && b == [item])
  {
    assert |a| + |b| == 1;
    if a == [] {
      assert a + b == b;
    } else {
      assert a + b == a;
    }
  }

  /** No message delivers the closed item. */
  lemma {:induction false} RepliesAreNotClosing(inbox: seq<Message>, fates: seq<Fate>, c: Call)
    requires |inbox| == |fates|
    requires forall i | 0 <= i < |fates| && fates[i].Delivered? :: inbox[i].IsResponse()
    ensures ClosedItem !in DeliveredTo(inbox, fates, c)
  {
    if inbox != [] {
      RepliesAreNotClosing(inbox[..|inbox| - 1], fates[..|inbox| - 1], c);
    }
  }

  lemma DeliveredIsNoClosing(s: State, c: Call)
    requires FatesOk(s)
    requires forall i | 0 <= i < |s.fates| && s.fates[i].Delivered? :: s.inbox[i].IsResponse()
    ensures DeliveredTo(s.inbox, s.fates, c) != [ClosedItem]
  {
    RepliesAreNotClosing(s.inbox, s.fates, c);
    assert ClosedItem in [ClosedItem];
  }

  /** Request ids are distinct exactly when no two allocations overlapped. */
  lemma IdsAreDistinctIff(acts: seq<Action>)
    requires Runs(acts)
    ensures DistinctIds(After(acts)) <==> !After(acts).overlap
  {
    InvHolds(acts);
  }

  lemma ReceiveDecides(s: State, m: Message)
    requires Enabled(s, Receive(m)) && |s.inbox| == |s.fates|
    ensures var t, f := Step(s, Receive(m)), FateOf(s.pending, m);
            && t.inbox == s.inbox + [m] && t.fates == s.fates + [f]
            && (f.Delivered? <==> t.reader.Delivering?)
            && (f.Delivered? ==> t.reader.call == f.call && Carries(m, t.reader.item))
  {
  }

  lemma LedgerHolds(s: State)
    requires Inv(s)
    ensures |s.inbox| == |s.fates|
  {
  }

  /** Without overlap no reply is lost: a response that arrives while the call with its id waits for
      one is delivered to that call. */
  lemma NoReplyIsLost(acts: seq<Action>, m: Message, c: Call)
    requires Runs(acts) && After(acts).reader == Listening && !After(acts).overlap
    requires m.id.IntId? && (m.result.Some? || m.error.Some?) && After(acts).At(c).id == Some(m.id.k)
    requires After(acts).At(c).phase in {Registered, Waiting, GivingUp} && After(acts).At(c).puts == []
    ensures Runs(acts + [Receive(m)])
    ensures var reader := After(acts + [Receive(m)]).reader;
            reader.Delivering? && reader.call == c && Carries(m, reader.item)
  {
    hide Inv, Step, Enabled, Carries;
    InvHolds(acts);
    RunStep(acts, Receive(m));
    PendingUnderItsId(After(acts), c, m.id.k);
    LedgerHolds(After(acts));
    ReceiveDecides(After(acts), m);
  }

  lemma PendingUnderItsId(s: State, c: Call, k: int)
    requires Inv(s) && !s.overlap && s.reader == Listening
    requires s.At(c).id == Some(k) && s.At(c).phase in {Registered, Waiting, GivingUp} && s.At(c).puts == []
    ensures Get(s.pending, k) == Some(c)
  {
    hide Tables, Ledger, IdsOk, CloseOk;
    assert Unanswered(s, c);
  }

  /** Routing conserves messages: the notifications are the messages that are no responses, in order
      of arrival; a response was delivered to the call with its id, or dropped, or broke the reader (see
      FateIsDecidedOnArrival for which); and what a call was ever given is what the messages delivered to it
      and the closing added. */
  lemma RoutingConserves(acts: seq<Action>, c: Call)
    requires Runs(acts)
    ensures var s := After(acts);
            && FatesOk(s) && BalancedFor(s, c)
            && s.notes == NotesOf(s.inbox) + if s.reader == Failed then [ConnectionClosed] else []
  {
    InvHolds(acts);
  }

  lemma FatesGrow(s: State, a: Action)
    requires Enabled(s, a)
    ensures s.inbox <= Step(s, a).inbox && s.fates <= Step(s, a).fates
  {
    hide Begun, Holders, Allocating, FateOf;
    if a.Receive? {
      DispatchIs(s, a.m);
    }
  }

  lemma {:induction false} FatesStay(acts: seq<Action>, n: nat)
    requires Runs(acts) && n <= |acts| && Runs(acts[..n])
    ensures After(acts[..n]).inbox <= After(acts).inbox && After(acts[..n]).fates <= After(acts).fates
    decreases |acts|
  {
    hide Step, Enabled;
    if n < |acts| {
      var m := |acts| - 1;
      assert acts[..m][..n] == acts[..n];
      FatesStay(acts[..m], n);
      FatesGrow(After(acts[..m]), acts[m]);
    } else {
      assert acts[..n] == acts;
    }
  }

  /** What becomes of a message is decided by the table at its arrival, and for good: in particular a
      response is dropped just if no call is pending under its id at that moment, and otherwise its result
      or error is what the reader is about to put into the queue of that call. */
  lemma FateIsDecidedOnArrival(acts: seq<Action>, n: nat, m: Message)
    requires Runs(acts) && n < |acts| && acts[n] == Receive(m)
    ensures Runs(acts[..n])
    ensures var i, s := |After(acts[..n]).inbox|, After(acts);
            && i < |s.inbox| && i < |s.fates|
            && s.inbox[i] == m && s.fates[i] == FateOf(After(acts[..n]).pending, m)
    ensures Runs(acts[..n + 1])
    ensures var f, reader := FateOf(After(acts[..n]).pending, m), After(acts[..n + 1]).reader;
            && (f.Delivered? <==> reader.Delivering?)
            && (f.Delivered? ==> reader.call == f.call && Carries(m, reader.item))
  {
    hide Enabled, Inv, Step, FateOf;
    RunsPrefix(acts, n);
    RunsPrefix(acts, n + 1);
    assert acts[..n + 1][..n] == acts[..n];
    InvHolds(acts[..n]);
    LedgerHolds(After(acts[..n]));
    ReceiveDecides(After(acts[..n]), m);
    FatesStay(acts, n + 1);
  }

  // ---- close semantics ------------------------------------------------------------------------------

  lemma SwapIsFinal(s: State, a: Action)
    requires Inv(s) && Enabled(s, a) && SwappedAlready(s)
    ensures SwappedAlready(Step(s, a)) && Step(s, a).swapped == s.swapped && Step(s, a).closed
  {
    hide Tables, Ledger, IdsOk, PendingComplete;
  }

  lemma {:induction false} SwapStays(acts: seq<Action>, n: nat)
    requires Runs(acts) && n <= |acts| && Runs(acts[..n]) && SwappedAlready(After(acts[..n]))
    ensures SwappedAlready(After(acts)) && After(acts).swapped == After(acts[..n]).swapped
    decreases |acts|
  {
    hide Step, Enabled, Inv;
    if n < |acts| {
      var m := |acts| - 1;
      assert acts[..m][..n] == acts[..n];
      SwapStays(acts[..m], n);
      InvHolds(acts[..m]);
      SwapIsFinal(After(acts[..m]), acts[m]);
    } else {
      assert acts[..n] == acts;
    }
  }

  lemma {:induction false} RunsPrefix(acts: seq<Action>, n: nat)
    requires Runs(acts) && n <= |acts|
    ensures Runs(acts[..n])
    decreases |acts|
  {
    if n < |acts| {
      RunsPrefix(acts[..|acts| - 1], n);
      assert acts[..|acts| - 1][..n] == acts[..n];
    } else {
      assert acts[..n] == acts;
    }
  }

  /** What the end of the reader leaves, of one state. */
  lemma ClosedState(s: State, c: Call)
    requires Inv(s) && s.reader == Failed
    ensures c in s.swapped ==> s.At(c).puts == [ClosedItem]
    ensures s.notes == NotesOf(s.inbox) + [ConnectionClosed]
    ensures c in Holders(s.pending) ==> c in s.begun && c !in s.swapped
  {
    hide IdsOk, PendingComplete, DeliveredTo, NotesOf;
    assert BalancedFor(s, c);
    if c in s.swapped {
      assert CallOk(s.calls[c]);
      assert s.At(c).puts + [] == s.At(c).puts;
      assert |DeliveredTo(s.inbox, s.fates, c)| == 0;
    }
    if c in Holders(s.pending) {
      var k :| k in s.pending && s.pending[k] == c;
      assert c in Begun(s);
    }
  }

  /** Closing, over whole runs: every call that was pending at the swap has been given exactly one
      item, the closed one, by the time the reader has ended; one closing notification has been queued,
      and it is the last; and the calls that are in the table after all had begun before the error
      was published. */
  lemma ClosingIsComplete(acts: seq<Action>, n: nat, c: Call)
    requires Runs(acts) && n < |acts| && acts[n] == SwapPending && After(acts).reader == Failed
    ensures Runs(acts[..n])
    ensures c in Holders(After(acts[..n]).pending) ==> After(acts).At(c).puts == [ClosedItem]
    ensures After(acts).notes == NotesOf(After(acts).inbox) + [ConnectionClosed]
    ensures c in Holders(After(acts).pending) ==> c in After(acts).begun && c !in Holders(After(acts[..n]).pending)
  {
    hide Inv, NotesOf, Begun, Enabled;
    RunsPrefix(acts, n);
    RunsPrefix(acts, n + 1);
    assert acts[..n + 1][..n] == acts[..n];
    SwapStays(acts, n + 1);
    InvHolds(acts);
    var s := After(acts);
    assert s.swapped == Holders(After(acts[..n]).pending);
    ClosedState(s, c);
  }

  lemma StaysClosed(s: State, a: Action)
    requires Enabled(s, a) && s.closed
    ensures Step(s, a).closed
    ensures forall c: Call | s.At(c).phase in {Idle, Finished(Refused)} ::
              Step(s, a).At(c).phase in {Idle, Finished(Refused)}
  {
  }

  /** A request begun after the error is published is refused at once: it never gets further. */
  lemma {:induction false} LateCallsAreRefused(acts: seq<Action>, n: nat, c: Call)
    requires Runs(acts) && n <= |acts| && Runs(acts[..n])
    requires After(acts[..n]).closed && After(acts[..n]).At(c).phase == Idle
    ensures After(acts).closed && After(acts).At(c).phase in {Idle, Finished(Refused)}
    decreases |acts|
  {
    hide Step, Enabled, Inv;
    if n < |acts| {
      var m := |acts| - 1;
      assert acts[..m][..n] == acts[..n];
      LateCallsAreRefused(acts[..m], n, c);
      StaysClosed(After(acts[..m]), acts[m]);
    } else {
      assert acts[..n] == acts;
    }
  }

  // ---- what overlapping allocations can do --------------------------------------------------------------

  /** Waiting or given up, with nothing put into its queue, and neither in the table nor in the hands of
      the reader. */
  ghost predicate Orphan(s: State, c: Call) {
    && c in s.calls && s.calls[c].phase in {Waiting, GivingUp, Finished(TimedOut)}
    && s.calls[c].queue == [] && s.calls[c].puts == []
    && c !in Holders(s.pending)
    && !(s.reader.Delivering? && s.reader.call == c)
    && !(s.reader.Closing? && c in s.reader.todo)
  }

  lemma CallerKeepsOrphan(s: State, a: Action, c: Call)
    requires Tables(s) && Orphan(s, c) && Enabled(s, a) && OfCaller(a)
    ensures Orphan(Step(s, a), c)
  {
    hide CallsOk, PendingOk, ReaderOk, Holders;
    CallerFrame(s, a);
    CallerFramePending(s, a);
  }

  lemma ReaderKeepsOrphan(s: State, a: Action, c: Call)
    requires Orphan(s, c) && Enabled(s, a) && !OfCaller(a)
    ensures Orphan(Step(s, a), c)
  {
  }

  /** In every continuation such a call gets no item: all it can do is time out. */
  lemma {:induction false} OrphanStays(acts: seq<Action>, n: nat, c: Call)
    requires Runs(acts) && n <= |acts| && Runs(acts[..n]) && Orphan(After(acts[..n]), c)
    ensures Orphan(After(acts), c)
    decreases |acts|
  {
    hide Step, Enabled, Inv, Orphan, OfCaller;
    if n < |acts| {
      var m := |acts| - 1;
      assert acts[..m][..n] == acts[..n];
      OrphanStays(acts[..m], n, c);
      InvHolds(acts[..m]);
      if OfCaller(acts[m]) {
        assert Tables(After(acts[..m])) by { TablesHold(After(acts[..m])); }
        CallerKeepsOrphan(After(acts[..m]), acts[m], c);
      } else {
        ReaderKeepsOrphan(After(acts[..m]), acts[m], c);
      }
    } else {
      assert acts[..n] == acts;
    }
  }

  lemma TablesHold(s: State)
    requires Inv(s)
    ensures Tables(s)
  {
  }

  /** Two calls that read the next id before either has stored the one after it; one of the increments is
      lost, too. Then both register and send. */
  const ALLOCATE: seq<Action> :=
    [Check(0), Check(1), ReadNextId(0), ReadNextId(1), LoadNextId(0), LoadNextId(1), StoreNextId(0), StoreNextId(1)]
  const REGISTER: seq<Action> := [Register(0), Register(1), Send(0, true), Send(1, true)]

  ghost function Both(p: Phase, id: Option<int>): map<Call, CallState> {
    map[0 := CallState(p, id, [], []), 1 := CallState(p, id, [], [])]
  }

  lemma RunTwo(acts: seq<Action>, a: Action, b: Action, t: State)
    requires Runs(acts) && Enabled(After(acts), a) && Enabled(Step(After(acts), a), b)
    requires Step(Step(After(acts), a), b) == t
    ensures Runs(acts + [a, b]) && After(acts + [a, b]) == t
  {
    hide Step, Enabled;
    RunStep(acts, a);
    RunStep(acts + [a], b);
    assert (acts + [a]) + [b] == acts + [a, b];
  }

  lemma EmptyRun()
    ensures Runs([]) && After([]) == INITIAL
  {
  }

  lemma BothRead(acts: seq<Action>)
    requires Runs(acts) && After(acts) == INITIAL.(calls := Both(Checked, None))
    ensures var more := acts + [ReadNextId(0), ReadNextId(1)];
            Runs(more) && After(more) == INITIAL.(calls := Both(ReadId, Some(1)), overlap := true)
  {
    hide Runs, After;
    var reading := Step(After(acts), ReadNextId(0));
    assert reading.calls[0].phase == ReadId;
    RunTwo(acts, ReadNextId(0), ReadNextId(1), INITIAL.(calls := Both(ReadId, Some(1)), overlap := true));
  }

  lemma BothLoaded(acts: seq<Action>)
    requires Runs(acts) && After(acts) == INITIAL.(calls := Both(ReadId, Some(1)), overlap := true)
    ensures var more := acts + [LoadNextId(0), LoadNextId(1)];
            Runs(more) && After(more) == INITIAL.(calls := Both(Loaded(1), Some(1)), overlap := true)
  {
    hide Runs, After;
    RunTwo(acts, LoadNextId(0), LoadNextId(1), INITIAL.(calls := Both(Loaded(1), Some(1)), overlap := true));
  }

  lemma BothStored(acts: seq<Action>)
    requires Runs(acts) && After(acts) == INITIAL.(calls := Both(Loaded(1), Some(1)), overlap := true)
    ensures var more := acts + [StoreNextId(0), StoreNextId(1)];
            Runs(more) && After(more) == INITIAL.(nextId := 2, calls := Both(Allocated, Some(1)), overlap := true)
  {
    hide Runs, After;
    RunTwo(acts, StoreNextId(0), StoreNextId(1),
           INITIAL.(nextId := 2, calls := Both(Allocated, Some(1)), overlap := true));
  }

  lemma CollidingIds()
    ensures Runs(ALLOCATE)
    ensures After(ALLOCATE) == INITIAL.(nextId := 2, calls := Both(Allocated, Some(1)), overlap := true)
  {
    hide Runs, After, Both;
    var two := [Check(0), Check(1)];
    BothChecked();
    BothRead(two);
    var four := two + [ReadNextId(0), ReadNextId(1)];
    BothLoaded(four);
    var six := four + [LoadNextId(0), LoadNextId(1)];
    BothStored(six);
    assert six + [StoreNextId(0), StoreNextId(1)] == ALLOCATE;
  }

  lemma BothChecked()
    ensures Runs([Check(0), Check(1)]) && After([Check(0), Check(1)]) == INITIAL.(calls := Both(Checked, None))
  {
    hide Runs, After;
    EmptyRun();
    RunTwo([], Check(0), Check(1), INITIAL.(calls := Both(Checked, None)));
    assert [] + [Check(0), Check(1)] == [Check(0), Check(1)];
  }

  ghost function Collided(): State {
    INITIAL.(nextId := 2, calls := Both(Waiting, Some(1)), overlap := true, pending := map[1 := 1])
  }

  lemma CollidingCalls()
    ensures Runs(ALLOCATE + REGISTER) && After(ALLOCATE + REGISTER) == Collided()
  {
    hide Runs, After;
    CollidingIds();
    var acts := ALLOCATE + [Register(0), Register(1)];
    BothRegistered(ALLOCATE);
    BothSent(acts);
    assert acts + [Send(0, true), Send(1, true)] == ALLOCATE + REGISTER;
  }

  lemma BothRegistered(acts: seq<Action>)
    requires Runs(acts) && After(acts) == INITIAL.(nextId := 2, calls := Both(Allocated, Some(1)), overlap := true)
    ensures Runs(acts + [Register(0), Register(1)])
    ensures After(acts + [Register(0), Register(1)]) == Collided().(calls := Both(Registered, Some(1)))
  {
    hide Runs, After;
    RunTwo(acts, Register(0), Register(1), Collided().(calls := Both(Registered, Some(1))));
  }

  lemma BothSent(acts: seq<Action>)
    requires Runs(acts) && After(acts) == Collided().(calls := Both(Registered, Some(1)))
    ensures Runs(acts + [Send(0, true), Send(1, true)]) && After(acts + [Send(0, true), Send(1, true)]) == Collided()
  {
    hide Runs, After;
    RunTwo(acts, Send(0, true), Send(1, true), Collided());
  }

  /** Both calls then wait with the same id, the second alone is pending under it, and a response with
      that id goes to the second. The first never gets an item, whatever happens afterwards. */
  lemma OverlapLosesAReply(m: Message, more: seq<Action>)
    requires m.IsResponse() && m.id == IntId(1)
    requires Runs(ALLOCATE + REGISTER + [Receive(m)] + more)
    ensures var acts := ALLOCATE + REGISTER + [Receive(m)];
            && Runs(acts)
            && After(acts).At(0).phase == Waiting && After(acts).At(1).phase == Waiting
            && After(acts).reader == Delivering(1, m.Reply())
            && Orphan(After(acts + more), 0)
  {
    hide Runs, After;
    OneIsOrphaned(m);
    var acts := ALLOCATE + REGISTER + [Receive(m)];
    assert (acts + more)[..|acts|] == acts;
    OrphanStays(acts + more, |acts|, 0);
  }

  lemma OneIsOrphaned(m: Message)
    requires m.IsResponse() && m.id == IntId(1)
    ensures var acts := ALLOCATE + REGISTER + [Receive(m)];
            && Runs(acts)
            && After(acts).At(0).phase == Waiting && After(acts).At(1).phase == Waiting
            && After(acts).reader == Delivering(1, m.Reply())
            && Orphan(After(acts), 0)
  {
    hide Runs, After;
    CollidingCalls();
    RunStep(ALLOCATE + REGISTER, Receive(m));
  }

  // ---- one call among others ------------------------------------------------------------------------

  predicate ActionOf(a: Action, c: Call) {
    OfCaller(a) && a.c == c
  }

  /** What happens between two steps of a call, or between two puts of the reader. */
  predicate NoneOf(acts: seq<Action>, c: Call) {
    forall a | a in acts :: !ActionOf(a, c)
  }

  predicate AllOfCallers(acts: seq<Action>) {
    forall a | a in acts :: OfCaller(a)
  }

  lemma OtherCallerStep(s: State, a: Action, c: Call)
    requires Enabled(s, a) && OfCaller(a) && a.c != c
    ensures Step(s, a).At(c) == s.At(c) && Step(s, a).closed == s.closed
  {
  }

  lemma ReaderStep(s: State, a: Action, c: Call)
    requires Enabled(s, a) && !OfCaller(a)
    ensures Step(s, a).At(c).phase == s.At(c).phase && Step(s, a).At(c).id == s.At(c).id
    ensures s.At(c).queue <= Step(s, a).At(c).queue
    ensures s.closed ==> Step(s, a).closed
  {
  }

  lemma OthersStep(s: State, a: Action, c: Call)
    requires Enabled(s, a) && !ActionOf(a, c)
    ensures Step(s, a).At(c).phase == s.At(c).phase && Step(s, a).At(c).id == s.At(c).id
    ensures s.At(c).queue <= Step(s, a).At(c).queue
    ensures s.closed ==> Step(s, a).closed
  {
    hide Step, Enabled, OfCaller;
    if OfCaller(a) {
      OtherCallerStep(s, a, c);
    } else {
      ReaderStep(s, a, c);
    }
  }

  /** A call stays where it is while others make their steps. */
  lemma {:induction false} OthersKeepCall(acts: seq<Action>, more: seq<Action>, c: Call)
    requires Runs(acts + more) && Runs(acts) && NoneOf(more, c)
    ensures After(acts + more).At(c).phase == After(acts).At(c).phase
    ensures After(acts + more).At(c).id == After(acts).At(c).id
    ensures After(acts).At(c).queue <= After(acts + more).At(c).queue
    ensures After(acts).closed ==> After(acts + more).closed
    decreases |more|
  {
    hide Step, Enabled, ActionOf;
    if more == [] {
      assert acts + more == acts;
    } else {
      var n, all := |more| - 1, acts + more;
      assert all[..|all| - 1] == acts + more[..n] && all[|all| - 1] == more[n];
      assert more[n] in more;
      OthersKeepCall(acts, more[..n], c);
      OthersStep(After(acts + more[..n]), more[n], c);
    }
  }

  lemma CallersStep(s: State, a: Action, c: Call)
    requires Enabled(s, a) && OfCaller(a)
    ensures Step(s, a).reader == s.reader && Step(s, a).At(c).puts == s.At(c).puts
  {
  }

  /** The callers alone put nothing, and leave the reader where it is. */
  lemma {:induction false} CallersKeepPuts(acts: seq<Action>, more: seq<Action>, c: Call)
    requires Runs(acts + more) && Runs(acts) && AllOfCallers(more)
    ensures After(acts + more).reader == After(acts).reader
    ensures After(acts + more).At(c).puts == After(acts).At(c).puts
    decreases |more|
  {
    hide Step, Enabled, OfCaller;
    if more == [] {
      assert acts + more == acts;
    } else {
      var n, all := |more| - 1, acts + more;
      assert all[..|all| - 1] == acts + more[..n] && all[|all| - 1] == more[n];
      assert more[n] in more;
      CallersKeepPuts(acts, more[..n], c);
      CallersStep(After(acts + more[..n]), more[n], c);
    }
  }

  /** A call gives up only if it has been given nothing. */
  lemma GivingUpMeansNothingCame(acts: seq<Action>, c: Call)
    requires Runs(acts) && Enabled(After(acts), GiveUp(c))
    ensures After(acts).At(c).puts == []
  {
    InvHolds(acts);
    assert CallOk(After(acts).calls[c]);
  }

  /** A call that has timed out has left no entry in the table. */
  lemma TimedOutIsForgotten(acts: seq<Action>, c: Call)
    requires Runs(acts) && After(acts).At(c).phase == Finished(TimedOut)
    ensures c !in Holders(After(acts).pending)
  {
    InvHolds(acts);
  }
}
