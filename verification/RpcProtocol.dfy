/** The JSON-RPC client as interleaved atomic steps: any number of calling threads, one reader thread
    (src/agent_keepalive/rpc.py:41-64, 85-137; section 5 of the JSON-RPC 2.0 specification). The
    class in RpcClient.dfy is proved to make these steps. */
module RpcProtocol {
  import opened Prelude

  type Call = nat

  /** `int(message["id"])`: absent, a number, or something that raises. */
  datatype IdField = NoId | IntId(k: int) | BadId

  datatype Message = Message(id: IdField, result: Option<string>, error: Option<string>, body: string) {
    predicate IsResponse() {
      id != NoId && (result.Some? || error.Some?)
    }

    /** What a response puts into the queue of its caller: a result wins over an error. */
    function Reply(): Item
      requires IsResponse()
    {
      if result.Some? then ResultItem(result.value) else ErrorItem(error.value)
    }
  }

  datatype Item = ResultItem(payload: string) | ErrorItem(payload: string) | ClosedItem

  datatype Outcome =
    | Refused
    | SendFailed
    | TimedOut
    | Answered(item: Item)

  /** Where a thread is inside `request`. */
  datatype Phase =
    | Idle
    | Checked
    | ReadId
    | Loaded(value: int)
    | Allocated
    | Registered
    | Waiting
    | GivingUp
    | Finished(outcome: Outcome)

  /** One call: its request id once it has one, its response queue, and everything ever put there. */
  datatype CallState = CallState(phase: Phase, id: Option<int>, queue: seq<Item>, puts: seq<Item>)

  const FRESH := CallState(Idle, None, [], [])

  datatype Reader =
    | Listening
    | Delivering(call: Call, item: Item)
    | Failing
    | Published
    | Closing(todo: set<Call>)
    | Failed
    | Stopped

  /** What is put into the notification queue. */
  datatype Note = Inbound(m: Message) | ConnectionClosed

  /** What became of an inbound message. */
  datatype Fate = Queued | Delivered(call: Call) | Dropped | Broke

  /** The shared state, and below the line what is only remembered to speak about the past: the
      inbound messages with their fates, the calls under way when the error was published, the calls
      pending at the swap, and whether two id allocations ever overlapped. */
  datatype State = State(
    nextId: int,
    pending: map<int, Call>,
    calls: map<Call, CallState>,
    reader: Reader,
    closed: bool,
    notes: seq<Note>,
    // history
    inbox: seq<Message>,
    fates: seq<Fate>,
    begun: set<Call>,
    swapped: set<Call>,
    overlap: bool)
  {
    function At(c: Call): CallState {
      if c in calls then calls[c] else FRESH
    }

    function With(c: Call, cs: CallState): State {
      this.(calls := calls[c := cs])
    }

    function To(c: Call, p: Phase): State {
      With(c, At(c).(phase := p))
    }
  }

  const INITIAL := State(1, map[], map[], Listening, false, [], [], [], {}, {}, false)

  datatype Action =
    // a caller
    | Check(c: Call)
    | ReadNextId(c: Call)
    | LoadNextId(c: Call)
    | StoreNextId(c: Call)
    | Register(c: Call)
    | Send(c: Call, ok: bool)
    | Take(c: Call)
    | GiveUp(c: Call)
    | Forget(c: Call)
    // the reader
    | Receive(m: Message)
    | PutReply
    | Raise
    | PublishError
    | SwapPending
    | PutClosed(c: Call)
    | NotifyClosed
    | StopReading

  predicate Enabled(s: State, a: Action) {
    match a
    case Check(c) => s.At(c).phase == Idle
    case ReadNextId(c) => s.At(c).phase == Checked
    case LoadNextId(c) => s.At(c).phase == ReadId
    case StoreNextId(c) => s.At(c).phase.Loaded?
    case Register(c) => s.At(c).phase == Allocated
    case Send(c, _) => s.At(c).phase == Registered
    case Take(c) => s.At(c).phase == Waiting && s.At(c).queue != []
    case GiveUp(c) => s.At(c).phase == Waiting && s.At(c).queue == []
    case Forget(c) => s.At(c).phase == GivingUp
    case Receive(_) => s.reader == Listening
    // a put into a queue of size 1 blocks while the queue is full
    case PutReply => s.reader.Delivering? && s.At(s.reader.call).queue == []
    case Raise => s.reader == Listening
    case PublishError => s.reader == Failing
    case SwapPending => s.reader == Published
    case PutClosed(c) => s.reader.Closing? && c in s.reader.todo && s.At(c).queue == []
    case NotifyClosed => s.reader == Closing({})
    case StopReading => s.reader == Listening
  }

  /** `pending.values()` */
  function Holders(pending: map<int, Call>): set<Call> {
    set k | k in pending :: pending[k]
  }

  function Put(cs: CallState, item: Item): CallState {
    cs.(queue := cs.queue + [item], puts := cs.puts + [item])
  }

  /** `_dispatch_message`, up to the release of the lock. */
  function Dispatch(s: State, m: Message): State {
    var t := s.(inbox := s.inbox + [m]);
    if !m.IsResponse() then t.(notes := s.notes + [Inbound(m)], fates := s.fates + [Queued])
    else if m.id == BadId then t.(reader := Failing, fates := s.fates + [Broke])
    else if m.id.k !in s.pending then t.(fates := s.fates + [Dropped])
    else t.(pending := s.pending - {m.id.k}, reader := Delivering(s.pending[m.id.k], m.Reply()),
            fates := s.fates + [Delivered(s.pending[m.id.k])])
  }

  /** Between reading the id of a call and storing the next one: the increment loads the counter again
      and stores it, and no lock makes that one step. */
  predicate InAllocation(p: Phase) {
    p == ReadId || p.Loaded?
  }

  predicate Allocating(s: State) {
    exists c | c in s.calls :: InAllocation(s.calls[c].phase)
  }

  /** The calls that have passed the closed check. */
  function Begun(s: State): set<Call> {
    set c | c in s.calls && s.calls[c].phase != Idle && s.calls[c].phase != Finished(Refused)
  }

  function Step(s: State, a: Action): State
    requires Enabled(s, a)
  {
    match a
    case Check(c) => s.To(c, if s.closed then Finished(Refused) else Checked)
    case ReadNextId(c) =>
      s.With(c, s.At(c).(phase := ReadId, id := Some(s.nextId))).(overlap := s.overlap || Allocating(s))
    case LoadNextId(c) => s.To(c, Loaded(s.nextId))
    case StoreNextId(c) => s.To(c, Allocated).(nextId := s.At(c).phase.value + 1)
    case Register(c) => s.To(c, Registered).(pending := s.pending[s.At(c).id.GetOr(0) := c])
    case Send(c, ok) => s.To(c, if ok then Waiting else Finished(SendFailed))
    case Take(c) => s.With(c, s.At(c).(phase := Finished(Answered(s.At(c).queue[0])), queue := s.At(c).queue[1..]))
    case GiveUp(c) => s.To(c, GivingUp)
    case Forget(c) => s.To(c, Finished(TimedOut)).(pending := s.pending - {s.At(c).id.GetOr(0)})
    case Receive(m) => Dispatch(s, m)
    case PutReply => s.With(s.reader.call, Put(s.At(s.reader.call), s.reader.item)).(reader := Listening)
    case Raise => s.(reader := Failing)
    case PublishError => s.(closed := true, reader := Published, begun := Begun(s))
    case SwapPending => s.(pending := map[], reader := Closing(Holders(s.pending)), swapped := Holders(s.pending))
    case PutClosed(c) => s.With(c, Put(s.At(c), ClosedItem)).(reader := Closing(s.reader.todo - {c}))
    case NotifyClosed => s.(notes := s.notes + [ConnectionClosed], reader := Failed)
    case StopReading => s.(reader := Stopped)
  }

  /** `acts` is a possible interleaving, and `After` is where it leads. */
  ghost predicate Runs(acts: seq<Action>)
    decreases |acts|, 0
  {
    acts == [] || (Runs(acts[..|acts| - 1]) && Enabled(After(acts[..|acts| - 1]), acts[|acts| - 1]))
  }

  ghost function After(acts: seq<Action>): State
    requires Runs(acts)
    decreases |acts|, 1
  {
    if acts == [] then INITIAL else Step(After(acts[..|acts| - 1]), acts[|acts| - 1])
  }
}
