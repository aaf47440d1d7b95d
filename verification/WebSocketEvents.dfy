/** Events: messages put together from fragments, pings answered on the way
    (src/agent_keepalive/ws.py:76-114; sections 5.4, 5.5.2 and 5.5.3 of RFC 6455). */
module WebSocketEvents {
  import opened Prelude
  import opened WebSocketFrames
  import opened WebSocketReader

  const CONTINUATION: Byte := 0x0
  const TEXT: Byte := 0x1
  const CLOSE: Byte := 0x8
  const PING: Byte := 0x9
  const PONG: Byte := 0xA

  datatype WsEvent = TextEvent(data: Bytes) | PongEvent(data: Bytes) | CloseEvent(data: Bytes)

  datatype EventResult = AnEvent(event: WsEvent) | NoEvent | EventRaised(error: WsError)

  /** What a call of `recv_event` comes to: its result, the payloads of the pongs it sent, in order,
      and what is left of the network. */
  datatype Outcome = Outcome(result: EventResult, pongs: seq<Bytes>, net: Net) {
    function After(pong: Bytes): Outcome {
      this.(pongs := [pong] + pongs)
    }
  }

  /** `recv_event`, at the top of its outer loop. */
  function PullEvent(net: Net): Outcome
    decreases |net.script|, 0
  {
    PullFrameProgress(net);
    var (r, net') := PullFrame(net);
    match r
    case NoFrame => Outcome(NoEvent, [], net')
    case FrameRaised(e) => Outcome(EventRaised(e), [], net')
    case AFrame(f) =>
      if f.opcode == CLOSE then Outcome(AnEvent(CloseEvent(f.payload)), [], net')
      else if f.opcode == PING then PullEvent(net').After(f.payload)
      else if f.opcode == PONG then Outcome(AnEvent(PongEvent(f.payload)), [], net')
      else if f.opcode != CONTINUATION && f.opcode != TEXT then PullEvent(net')
      else PullMessage(f.opcode, f.payload, f.finished, net')
  }

  /** The inner loop: a message that began with `opcode` and has `data` so far. The final bit of every
      frame read there counts, that of a ping too. */
  function PullMessage(opcode: Byte, data: Bytes, finished: bool, net: Net): Outcome
    decreases |net.script|, 1
  {
    if finished then
      if opcode != TEXT then PullEvent(net) else Outcome(AnEvent(TextEvent(data)), [], net)
    else
      PullFrameProgress(net);
      var (r, net') := PullFrame(net);
      match r
      case NoFrame => Outcome(EventRaised(ClosedByPeer), [], net')
      case FrameRaised(e) => Outcome(EventRaised(e), [], net')
      case AFrame(f) =>
        if f.opcode == PING then PullMessage(opcode, data, f.finished, net').After(f.payload)
        else if f.opcode == CLOSE then Outcome(AnEvent(CloseEvent(f.payload)), [], net')
        else if f.opcode != CONTINUATION then Outcome(EventRaised(BadContinuation), [], net')
        else PullMessage(opcode, data + f.payload, f.finished, net')
  }

  /** One turn of the outer loop, by the frame that was read. */
  lemma EventTurn(net: Net)
    ensures var (r, net') := PullFrame(net);
            match r
            case NoFrame => PullEvent(net) == Outcome(NoEvent, [], net')
            case FrameRaised(e) => PullEvent(net) == Outcome(EventRaised(e), [], net')
            case AFrame(f) =>
              && (f.opcode == CLOSE ==> PullEvent(net) == Outcome(AnEvent(CloseEvent(f.payload)), [], net'))
              && (f.opcode == PING ==> PullEvent(net) == PullEvent(net').After(f.payload))
              && (f.opcode == PONG ==> PullEvent(net) == Outcome(AnEvent(PongEvent(f.payload)), [], net'))
              && (f.opcode !in {CLOSE, PING, PONG, CONTINUATION, TEXT} ==> PullEvent(net) == PullEvent(net'))
              && (f.opcode in {CONTINUATION, TEXT} ==>
                  PullEvent(net) == PullMessage(f.opcode, f.payload, f.finished, net'))
  {
  }

  /** One turn of the inner loop. */
  lemma MessageTurn(opcode: Byte, data: Bytes, net: Net)
    ensures var (r, net') := PullFrame(net);
            var o := PullMessage(opcode, data, false, net);
            match r
            case NoFrame => o == Outcome(EventRaised(ClosedByPeer), [], net')
            case FrameRaised(e) => o == Outcome(EventRaised(e), [], net')
            case AFrame(f) =>
              && (f.opcode == PING ==> o == PullMessage(opcode, data, f.finished, net').After(f.payload))
              && (f.opcode == CLOSE ==> o == Outcome(AnEvent(CloseEvent(f.payload)), [], net'))
              && (f.opcode !in {PING, CLOSE, CONTINUATION} ==> o == Outcome(EventRaised(BadContinuation), [], net'))
              && (f.opcode == CONTINUATION ==> o == PullMessage(opcode, data + f.payload, f.finished, net'))
  {
  }

  /** A finished message: a text is an event, anything else is dropped. */
  lemma MessageEnd(opcode: Byte, data: Bytes, net: Net)
    ensures PullMessage(opcode, data, true, net)
         == if opcode == TEXT then Outcome(AnEvent(TextEvent(data)), [], net) else PullEvent(net)
  {
  }

  // ---- the same on a list of frames ----------------------------------------------------------------

  /** What a list of frames begins with: the next event, if they hold one, the pings answered before
      it, and the frames after it; or they break the code's rules before they hold one. */
  datatype Next = Next(event: Option<WsEvent>, pongs: seq<Bytes>, later: seq<Frame>, broken: bool := false) {
    function After(pong: Bytes): Next {
      this.(pongs := [pong] + pongs)
    }
  }

  function NextEvent(fs: seq<Frame>): Next
    decreases |fs|, 0
  {
    if fs == [] then Next(None, [], [])
    else
      var f, more := fs[0], fs[1..];
      if f.opcode == CLOSE then Next(Some(CloseEvent(f.payload)), [], more)
      else if f.opcode == PING then NextEvent(more).After(f.payload)
      else if f.opcode == PONG then Next(Some(PongEvent(f.payload)), [], more)
      else if f.opcode != CONTINUATION && f.opcode != TEXT then NextEvent(more)
      else NextMessage(f.opcode, f.payload, f.finished, more)
  }

  function NextMessage(opcode: Byte, data: Bytes, finished: bool, fs: seq<Frame>): Next
    decreases |fs|, 1
  {
    if finished then
      if opcode != TEXT then NextEvent(fs) else Next(Some(TextEvent(data)), [], fs)
    else if fs == [] then Next(None, [], [])
    else
      var f, more := fs[0], fs[1..];
      if f.opcode == PING then NextMessage(opcode, data, f.finished, more).After(f.payload)
      else if f.opcode == CLOSE then Next(Some(CloseEvent(f.payload)), [], more)
      else if f.opcode != CONTINUATION then Next(None, [], [], true)
      else NextMessage(opcode, data + f.payload, f.finished, more)
  }

  lemma {:induction false} NextEventShrinks(fs: seq<Frame>)
    ensures NextEvent(fs).event.Some? ==> |NextEvent(fs).later| < |fs|
    decreases |fs|, 0
  {
    if fs != [] {
      NextEventShrinks(fs[1..]);
      NextMessageShrinks(fs[0].opcode, fs[0].payload, fs[0].finished, fs[1..]);
    }
  }

  lemma {:induction false} NextMessageShrinks(opcode: Byte, data: Bytes, finished: bool, fs: seq<Frame>)
    ensures var n := NextMessage(opcode, data, finished, fs); n.event.Some? ==> |n.later| <= |fs|
    decreases |fs|, 1
  {
    if finished {
      NextEventShrinks(fs);
    } else if fs != [] {
      NextMessageShrinks(opcode, data, fs[0].finished, fs[1..]);
      NextMessageShrinks(opcode, data + fs[0].payload, fs[0].finished, fs[1..]);
    }
  }

  /** All events of a list of frames, and all pongs it is answered with. */
  function EventsOf(fs: seq<Frame>): (seq<WsEvent>, seq<Bytes>)
    decreases |fs|
  {
    var n := NextEvent(fs);
    if n.event.None? then ([], n.pongs)
    else
      NextEventShrinks(fs);
      var (events, pongs) := EventsOf(n.later);
      ([n.event.value] + events, n.pongs + pongs)
  }

  // ---- schedule independence of events --------------------------------------------------------------

  lemma {:induction false} PullEventProgress(net: Net)
    ensures var o := PullEvent(net);
            && |o.net.script| <= |net.script|
            && (o.result.AnEvent? ==> |o.net.script| < |net.script|)
            && (o.result.NoEvent? && net.script != [] ==> |o.net.script| < |net.script|)
    decreases |net.script|, 0
  {
    PullFrameProgress(net);
    var (r, net') := PullFrame(net);
    if r.AFrame? {
      PullEventProgress(net');
      PullMessageProgress(r.frame.opcode, r.frame.payload, r.frame.finished, net');
    }
  }

  lemma {:induction false} PullMessageProgress(opcode: Byte, data: Bytes, finished: bool, net: Net)
    ensures |PullMessage(opcode, data, finished, net).net.script| <= |net.script|
    decreases |net.script|, 1
  {
    if finished {
      PullEventProgress(net);
    } else {
      PullFrameProgress(net);
      var (r, net') := PullFrame(net);
      if r.AFrame? {
        PullMessageProgress(opcode, data, r.frame.finished, net');
        PullMessageProgress(opcode, data + r.frame.payload, r.frame.finished, net');
      }
    }
  }

  /** How the outcome of a call relates to the frames of the whole stream, `n` being what they begin
      with. */
  ghost predicate Faithful(o: Outcome, n: Next) {
    match o.result
    case AnEvent(e) =>
      n.event == Some(e) && n.pongs == o.pongs && n.later == DecodeAll(o.net.rest) && Plain(o.net.rest)
    case NoEvent =>
      var m := NextEvent(DecodeAll(o.net.rest));
      && n.event == m.event && n.pongs == o.pongs + m.pongs && n.later == m.later && n.broken == m.broken
      && Plain(o.net.rest)
    case EventRaised(e) => o.pongs <= n.pongs && (e == BadContinuation ==> n.broken && n.pongs == o.pongs)
  }

  lemma {:induction false} PullErrors(size: nat, buffer: Bytes, net: Net)
    ensures var r := PullExact(size, buffer, net).0; r.PullRaised? ==> r.error != BadContinuation
    decreases |net.script|
  {
    if |buffer| < size {
      hide Recv;
      RecvReadsPrefix(net, size - |buffer|);
      var (got, net') := Recv(net, size - |buffer|);
      if got.Chunk? && got.data != [] {
        PullErrors(size, buffer + got.data, net');
      }
    }
  }

  lemma BodyErrors(first: Byte, masked: bool, length: nat, net: Net)
    ensures var r := PullBody(first, masked, length, net).0; r.FrameRaised? ==> r.error != BadContinuation
  {
    hide PullExact;
    PullErrors(4, [], net);
    var net2 := if masked then PullExact(4, [], net).1 else net;
    PullErrors(length, [], net2);
  }

  lemma FrameErrors(net: Net)
    ensures var r := PullFrame(net).0; r.FrameRaised? ==> r.error != BadContinuation
  {
    hide PullExact, PullBody;
    PullExactReadsPrefix(2, [], net);
    PullErrors(2, [], net);
    var (head, net1) := PullExact(2, [], net);
    if head.Got? {
      var short := Low7(head.data[1]);
      if ExtendedSize(short) == 0 {
        BodyErrors(head.data[0], HighBit(head.data[1]), short, net1);
      } else {
        PullErrors(ExtendedSize(short), [], net1);
        var (ext, net2) := PullExact(ExtendedSize(short), [], net1);
        if ext.Got? {
          BodyErrors(head.data[0], HighBit(head.data[1]), Unpack(ext.data), net2);
        }
      }
    }
  }

  lemma AfterIsFaithful(o: Outcome, n: Next, pong: Bytes)
    requires Faithful(o, n)
    ensures Faithful(o.After(pong), n.After(pong))
  {
    if o.result.NoEvent? {
      var m := NextEvent(DecodeAll(o.net.rest));
      assert [pong] + (o.pongs + m.pongs) == ([pong] + o.pongs) + m.pongs;
    }
  }

  lemma {:induction false} PullEventIsFaithful(net: Net)
    requires Plain(net.rest)
    ensures Faithful(PullEvent(net), NextEvent(DecodeAll(net.rest)))
    decreases |net.script|, 0
  {
    hide PullFrame, Plain, DecodeAll;
    PullFrameProgress(net);
    FrameStep(net);
    FrameErrors(net);
    var (r, net') := PullFrame(net);
    var fs := DecodeAll(net.rest);
    match r {
      case NoFrame =>
        assert [] + NextEvent(fs).pongs == NextEvent(fs).pongs;
      case FrameRaised(_) =>
      case AFrame(f) =>
        assert fs[0] == f && fs[1..] == DecodeAll(net'.rest);
        PullEventIsFaithful(net');
        if f.opcode == PING {
          AfterIsFaithful(PullEvent(net'), NextEvent(fs[1..]), f.payload);
        }
        PullMessageIsFaithful(f.opcode, f.payload, f.finished, net');
    }
  }

  lemma {:induction false} PullMessageIsFaithful(opcode: Byte, data: Bytes, finished: bool, net: Net)
    requires Plain(net.rest)
    ensures Faithful(PullMessage(opcode, data, finished, net), NextMessage(opcode, data, finished, DecodeAll(net.rest)))
    decreases |net.script|, 1
  {
    hide PullFrame, Plain, DecodeAll;
    if finished {
      PullEventIsFaithful(net);
    } else {
      PullFrameProgress(net);
      FrameStep(net);
      FrameErrors(net);
      var (r, net') := PullFrame(net);
      var fs := DecodeAll(net.rest);
      if r.AFrame? {
        var f := r.frame;
        assert fs[0] == f && fs[1..] == DecodeAll(net'.rest);
        PullMessageIsFaithful(opcode, data, f.finished, net');
        if f.opcode == PING {
          AfterIsFaithful(PullMessage(opcode, data, f.finished, net'), NextMessage(opcode, data, f.finished, fs[1..]),
                          f.payload);
        }
        PullMessageIsFaithful(opcode, data + f.payload, f.finished, net');
      }
    }
  }

  /** The events that repeated calls of `recv_event` return, all the pongs they send, what they leave of
      the network, and whether the last of them raised. */
  datatype EventRun = EventRun(events: seq<WsEvent>, pongs: seq<Bytes>, net: Net, raised: bool) {
    function After(o: Outcome): EventRun {
      this.(events := if o.result.AnEvent? then [o.result.event] + events else events, pongs := o.pongs + pongs)
    }
  }

  function ReadEvents(net: Net): EventRun
    decreases |net.script|
  {
    PullEventProgress(net);
    var o := PullEvent(net);
    if o.result.EventRaised? || |o.net.script| == |net.script| then EventRun([], o.pongs, o.net, o.result.EventRaised?)
    else ReadEvents(o.net).After(o)
  }

  lemma EventsOfUnfold(fs: seq<Frame>, n: Next, m: Next)
    requires n == NextEvent(fs) && n.event == m.event && n.later == m.later && n.event.Some?
    ensures |n.later| < |fs|
    ensures EventsOf(fs).0 == [n.event.value] + EventsOf(n.later).0
    ensures EventsOf(fs).1 == n.pongs + EventsOf(n.later).1
  {
    NextEventShrinks(fs);
  }

  lemma EventsAfterPings(fs: seq<Frame>, tail: seq<Frame>, pings: seq<Bytes>)
    requires var n := NextEvent(tail); NextEvent(fs) == n.(pongs := pings + n.pongs)
    ensures EventsOf(fs).0 == EventsOf(tail).0 && EventsOf(fs).1 == pings + EventsOf(tail).1
  {
    hide NextEvent;
    var n := NextEvent(tail);
    if n.event.Some? {
      EventsOfUnfold(fs, NextEvent(fs), n);
      EventsOfUnfold(tail, n, n);
      assert (pings + n.pongs) + EventsOf(n.later).1 == pings + (n.pongs + EventsOf(n.later).1);
    }
  }

  /** `fs` begins with these events, answered by these pongs, and goes on with the frames `more`. */
  ghost predicate Splits(fs: seq<Frame>, events: seq<WsEvent>, pongs: seq<Bytes>, more: seq<Frame>) {
    EventsOf(fs).0 == events + EventsOf(more).0 && EventsOf(fs).1 == pongs + EventsOf(more).1
  }

  /** What a single call comes to, in these terms. */
  lemma CallSplits(net: Net)
    requires Plain(net.rest)
    ensures var o, fs := PullEvent(net), DecodeAll(net.rest);
            && (o.result.AnEvent? ==> Splits(fs, [o.result.event], o.pongs, DecodeAll(o.net.rest)))
            && (o.result.NoEvent? ==> Splits(fs, [], o.pongs, DecodeAll(o.net.rest)))
            && (!o.result.EventRaised? ==> Plain(o.net.rest))
            && (o.result.EventRaised? ==> o.pongs <= EventsOf(fs).1)
  {
    hide PullEvent, NextEvent, DecodeAll, Plain;
    PullEventIsFaithful(net);
    var o, fs := PullEvent(net), DecodeAll(net.rest);
    var n := NextEvent(fs);
    if o.result.AnEvent? {
      EventsOfUnfold(fs, n, n);
    } else if o.result.NoEvent? {
      EventsAfterPings(fs, DecodeAll(o.net.rest), o.pongs);
      assert [] + EventsOf(DecodeAll(o.net.rest)).0 == EventsOf(DecodeAll(o.net.rest)).0;
    } else if n.event.Some? {
      EventsOfUnfold(fs, n, n);
    }
  }

  lemma SplitsOnce(fs: seq<Frame>, a: seq<WsEvent>, p: seq<Bytes>, gs: seq<Frame>, b: seq<WsEvent>, q: seq<Bytes>)
    requires Splits(fs, a, p, gs) && b <= EventsOf(gs).0 && q <= EventsOf(gs).1
    ensures a + b <= EventsOf(fs).0 && p + q <= EventsOf(fs).1
  {
  }

  lemma SplitsTwice(fs: seq<Frame>, a: seq<WsEvent>, p: seq<Bytes>, gs: seq<Frame>, b: seq<WsEvent>, q: seq<Bytes>,
                    hs: seq<Frame>)
    requires Splits(fs, a, p, gs) && Splits(gs, b, q, hs)
    ensures Splits(fs, a + b, p + q, hs)
  {
    assert a + (b + EventsOf(hs).0) == (a + b) + EventsOf(hs).0;
    assert p + (q + EventsOf(hs).1) == (p + q) + EventsOf(hs).1;
  }

  /** Schedule independence of events: under any chunking, timeouts and end of stream, the events
      returned and the pongs sent are prefixes of those of the stream read at once; and as long as no
      call raised, the others are all still to come. A timeout between two messages changes nothing; one
      while a message is being collected raises. */
  lemma {:induction false} EventsAreAPrefix(net: Net)
    requires Plain(net.rest)
    ensures var run, fs := ReadEvents(net), DecodeAll(net.rest);
            && run.events <= EventsOf(fs).0 && run.pongs <= EventsOf(fs).1
            && (!run.raised ==> Splits(fs, run.events, run.pongs, DecodeAll(run.net.rest)) && Plain(run.net.rest))
    decreases |net.script|
  {
    hide PullEvent, EventsOf, DecodeAll, Plain, Splits;
    PullEventProgress(net);
    CallSplits(net);
    var o, fs := PullEvent(net), DecodeAll(net.rest);
    if !o.result.EventRaised? {
      var gs := DecodeAll(o.net.rest);
      var events := if o.result.AnEvent? then [o.result.event] else [];
      if |o.net.script| == |net.script| {
        SplitsOnce(fs, events, o.pongs, gs, [], []);
        assert o.pongs + [] == o.pongs;
      } else {
        EventsAreAPrefix(o.net);
        var run := ReadEvents(o.net);
        SplitsOnce(fs, events, o.pongs, gs, run.events, run.pongs);
        if !run.raised {
          SplitsTwice(fs, events, o.pongs, gs, run.events, run.pongs, DecodeAll(run.net.rest));
        }
        assert [] + run.events == run.events;
      }
    }
  }

  /** What a single frame is, between two messages, by its opcode (section 5.2): a text, a close and a pong
      are events, a ping is answered, and everything else that is complete is skipped. */
  lemma FrameMeans(f: Frame, tail: seq<Frame>)
    ensures var n := NextEvent([f] + tail);
            && (f.opcode == 1 && f.finished ==> n == Next(Some(TextEvent(f.payload)), [], tail))
            && (f.opcode == 8 ==> n == Next(Some(CloseEvent(f.payload)), [], tail))
            && (f.opcode == 9 ==> n == NextEvent(tail).(pongs := [f.payload] + NextEvent(tail).pongs))
            && (f.opcode == 10 ==> n == Next(Some(PongEvent(f.payload)), [], tail))
            && (f.opcode !in {0, 1, 8, 9, 10} || (f.opcode == 0 && f.finished) ==> n == NextEvent(tail))
  {
    assert ([f] + tail)[1..] == tail;
  }

  /** When nothing has come, the call returns nothing: neither a timeout nor the end of the stream between
      two messages raises, and no byte is gone. */
  lemma QuietIsNothing(net: Net)
    requires net.script == [] || net.script[0].Silence? || net.script[0].Eof? || net.rest == []
    ensures var later := net.(script := if net.script == [] then [] else net.script[1..]);
            PullFrame(net) == (NoFrame, later) && PullEvent(net) == Outcome(NoEvent, [], later)
  {
    var later := net.(script := if net.script == [] then [] else net.script[1..]);
    assert Recv(net, 2).1 == later;
    assert PullExact(2, [], net) == (Nothing, later);
    hide PullFrame;
    EventTurn(net);
    QuietFrame(net, later);
  }

  lemma QuietFrame(net: Net, later: Net)
    requires PullExact(2, [], net) == (Nothing, later)
    ensures PullFrame(net) == (NoFrame, later)
  {
    hide PullExact;
  }

  // ---- reassembly ---------------------------------------------------------------------------------

  /** What may come between the first and the last frame of a fragmented message: section 5.4 allows
      control frames there. */
  datatype Piece = Fragment(data: Bytes) | PingFrame(data: Bytes) | PongFrame(data: Bytes) | CloseFrame(data: Bytes)

  function FrameOf(p: Piece): Frame {
    match p
    case Fragment(data) => Frame(0x0, data, false)
    case PingFrame(data) => Frame(0x9, data, true)
    case PongFrame(data) => Frame(0xA, data, true)
    case CloseFrame(data) => Frame(0x8, data, true)
  }

  function PieceFrames(pieces: seq<Piece>): seq<Frame> {
    if pieces == [] then [] else [FrameOf(pieces[0])] + PieceFrames(pieces[1..])
  }

  /** Does the piece end the call when it comes between two messages? */
  predicate Ends(p: Piece) {
    p.PongFrame? || p.CloseFrame?
  }

  /** There is a pong or a close among the pieces. */
  predicate Interrupted(pieces: seq<Piece>) {
    exists p | p in pieces :: Ends(p)
  }

  predicate OnlyFragments(pieces: seq<Piece>) {
    forall p | p in pieces :: p.Fragment?
  }

  /** How many fragments come before the first control frame. */
  function LeadingFragments(pieces: seq<Piece>): (n: nat)
    ensures n <= |pieces| && OnlyFragments(pieces[..n]) && (n < |pieces| ==> !pieces[n].Fragment?)
    ensures n == |pieces| <==> OnlyFragments(pieces)
  {
    if pieces == [] || !pieces[0].Fragment? then 0
    else
      var n := 1 + LeadingFragments(pieces[1..]);
      assert pieces[..n] == [pieces[0]] + pieces[1..][..n - 1];
      assert pieces == [pieces[0]] + pieces[1..];
      n
  }

  /** A message of the given opcode, cut into two or more fragments with control frames in between. */
  function MessageFrames(opcode: Byte, first: Bytes, pieces: seq<Piece>, last: Bytes): seq<Frame> {
    [Frame(opcode, first, false)] + Ending(pieces, last)
  }

  /** A message after its first frame. */
  function Ending(pieces: seq<Piece>, last: Bytes): seq<Frame> {
    PieceFrames(pieces) + [Frame(0x0, last, true)]
  }

  function Joined(pieces: seq<Piece>): Bytes {
    if pieces == [] then [] else (if pieces[0].Fragment? then pieces[0].data else []) + Joined(pieces[1..])
  }

  function PingsOf(pieces: seq<Piece>): seq<Bytes> {
    if pieces == [] then []
    else if pieces[0].PingFrame? then [pieces[0].data] + PingsOf(pieces[1..])
    else PingsOf(pieces[1..])
  }

  lemma EndingUnfolds(pieces: seq<Piece>, last: Bytes, tail: seq<Frame>)
    ensures pieces != [] ==> Ending(pieces, last) + tail == [FrameOf(pieces[0])] + (Ending(pieces[1..], last) + tail)
    ensures pieces == [] ==> Ending(pieces, last) + tail == [Frame(0x0, last, true)] + tail
  {
  }

  /** Fragments are collected up to the first control frame. */
  lemma {:induction false} FragmentsAreJoined(opcode: Byte, data: Bytes, pieces: seq<Piece>, n: nat,
                                              last: Bytes, tail: seq<Frame>)
    requires n <= |pieces| && OnlyFragments(pieces[..n])
    ensures NextMessage(opcode, data, false, Ending(pieces, last) + tail)
         == NextMessage(opcode, data + Joined(pieces[..n]), false, Ending(pieces[n..], last) + tail)
    decreases n
  {
    if n == 0 {
      assert data + Joined(pieces[..0]) == data && pieces[0..] == pieces;
    } else {
      hide Ending;
      EndingUnfolds(pieces, last, tail);
      var p := pieces[0];
      assert p == pieces[..n][0] && pieces[..n][1..] == pieces[1..][..n - 1] && pieces[1..][n - 1..] == pieces[n..];
      forall q | q in pieces[1..][..n - 1] ensures q.Fragment? {
        assert q in pieces[..n][1..];
      }
      FragmentsAreJoined(opcode, data + p.data, pieces[1..], n - 1, last, tail);
      assert (data + p.data) + Joined(pieces[1..][..n - 1]) == data + Joined(pieces[..n]);
    }
  }

  /** A text of fragments alone is one event with all its bytes in order. */
  lemma WholeText(first: Bytes, pieces: seq<Piece>, last: Bytes, tail: seq<Frame>)
    requires OnlyFragments(pieces)
    ensures NextEvent(MessageFrames(0x1, first, pieces, last) + tail)
         == Next(Some(TextEvent(first + Joined(pieces) + last)), [], tail)
  {
    var fs, n := MessageFrames(0x1, first, pieces, last) + tail, |pieces|;
    assert fs[0] == Frame(0x1, first, false) && fs[1..] == Ending(pieces, last) + tail;
    assert pieces[..n] == pieces && pieces[n..] == [];
    FragmentsAreJoined(TEXT, first, pieces, n, last, tail);
    EndingUnfolds([], last, tail);
  }

  /** A ping among the fragments of a text is answered, and cuts the text off: its final bit is taken for
      that of the message. What comes after it stays in the stream. */
  lemma PingCutsText(first: Bytes, pieces: seq<Piece>, last: Bytes, tail: seq<Frame>)
    requires LeadingFragments(pieces) < |pieces| && pieces[LeadingFragments(pieces)].PingFrame?
    ensures var n := LeadingFragments(pieces);
            NextEvent(MessageFrames(0x1, first, pieces, last) + tail)
            == Next(Some(TextEvent(first + Joined(pieces[..n]))), [pieces[n].data],
                    Ending(pieces[n + 1..], last) + tail)
  {
    var fs, n := MessageFrames(0x1, first, pieces, last) + tail, LeadingFragments(pieces);
    assert fs[0] == Frame(0x1, first, false) && fs[1..] == Ending(pieces, last) + tail;
    FragmentsAreJoined(TEXT, first, pieces, n, last, tail);
    EndingUnfolds(pieces[n..], last, tail);
    assert pieces[n..][1..] == pieces[n + 1..];
    assert [pieces[n].data] + [] == [pieces[n].data];
  }

  /** A pong among the fragments raises. */
  lemma PongBreaksText(first: Bytes, pieces: seq<Piece>, last: Bytes, tail: seq<Frame>)
    requires LeadingFragments(pieces) < |pieces| && pieces[LeadingFragments(pieces)].PongFrame?
    ensures NextEvent(MessageFrames(0x1, first, pieces, last) + tail) == Next(None, [], [], true)
  {
    var fs, n := MessageFrames(0x1, first, pieces, last) + tail, LeadingFragments(pieces);
    assert fs[0] == Frame(0x1, first, false) && fs[1..] == Ending(pieces, last) + tail;
    FragmentsAreJoined(TEXT, first, pieces, n, last, tail);
    EndingUnfolds(pieces[n..], last, tail);
  }

  /** A close among the fragments is the event, and the text so far is lost. */
  lemma CloseEndsText(first: Bytes, pieces: seq<Piece>, last: Bytes, tail: seq<Frame>)
    requires LeadingFragments(pieces) < |pieces| && pieces[LeadingFragments(pieces)].CloseFrame?
    ensures var n := LeadingFragments(pieces);
            NextEvent(MessageFrames(0x1, first, pieces, last) + tail)
            == Next(Some(CloseEvent(pieces[n].data)), [], Ending(pieces[n + 1..], last) + tail)
  {
    var fs, n := MessageFrames(0x1, first, pieces, last) + tail, LeadingFragments(pieces);
    assert fs[0] == Frame(0x1, first, false) && fs[1..] == Ending(pieces, last) + tail;
    FragmentsAreJoined(TEXT, first, pieces, n, last, tail);
    EndingUnfolds(pieces[n..], last, tail);
    assert pieces[n..][1..] == pieces[n + 1..];
  }

  /** Section 5.4 allows control frames among the fragments of a message. The code does not: a text is
      one event with all its bytes, and the stream stands right after it, exactly when there are none. */
  lemma TextIsReassembledIff(first: Bytes, pieces: seq<Piece>, last: Bytes, tail: seq<Frame>)
    ensures var n := NextEvent(MessageFrames(0x1, first, pieces, last) + tail);
            n.event == Some(TextEvent(first + Joined(pieces) + last)) && n.later == tail <==> OnlyFragments(pieces)
  {
    var n := LeadingFragments(pieces);
    if n == |pieces| {
      WholeText(first, pieces, last, tail);
    } else if pieces[n].PingFrame? {
      PingCutsText(first, pieces, last, tail);
      assert |Ending(pieces[n + 1..], last) + tail| > |tail|;
    } else if pieces[n].PongFrame? {
      PongBreaksText(first, pieces, last, tail);
    } else {
      CloseEndsText(first, pieces, last, tail);
    }
  }

  /** The end of a message whose beginning is not being collected as a text: it is dropped, and its
      pings are answered. `inside` tells whether the inner loop is collecting it. */
  lemma {:induction false} EndingIsDropped(inside: bool, data: Bytes, pieces: seq<Piece>, last: Bytes, tail: seq<Frame>)
    requires !Interrupted(pieces)
    ensures var n := NextEvent(tail);
            DropFrom(inside, data, Ending(pieces, last) + tail) == n.(pongs := PingsOf(pieces) + n.pongs)
    decreases |pieces|
  {
    hide Ending;
    var n := NextEvent(tail);
    EndingUnfolds(pieces, last, tail);
    if pieces == [] {
      DropLast(inside, data, last, tail);
      assert PingsOf(pieces) + n.pongs == n.pongs;
    } else {
      hide DropFrom, NextEvent, Interrupted;
      var p, more := pieces[0], pieces[1..];
      NotEndedFirst(pieces);
      var collected := if inside then data + p.data else p.data;
      EndingIsDropped(p.Fragment?, collected, more, last, tail);
      DropPiece(inside, data, p, Ending(more, last) + tail);
      if p.PingFrame? {
        assert [p.data] + (PingsOf(more) + n.pongs) == PingsOf(pieces) + n.pongs;
      }
    }
  }

  /** What follows is dropped, from between two messages or from inside one that is no text. */
  function DropFrom(inside: bool, data: Bytes, fs: seq<Frame>): Next {
    if inside then NextMessage(CONTINUATION, data, false, fs) else NextEvent(fs)
  }

  lemma NotEndedFirst(pieces: seq<Piece>)
    requires !Interrupted(pieces) && pieces != []
    ensures !Ends(pieces[0]) && !Interrupted(pieces[1..])
  {
    assert pieces[0] in pieces;
  }

  lemma DropLast(inside: bool, data: Bytes, last: Bytes, tail: seq<Frame>)
    ensures DropFrom(inside, data, [Frame(0x0, last, true)] + tail) == NextEvent(tail)
  {
    var fs := [Frame(0x0, last, true)] + tail;
    assert fs[0] == Frame(0x0, last, true) && fs[1..] == tail;
    var whole := if inside then data + last else last;
    EndIsDropped(whole, tail);
    assert DropFrom(inside, data, fs) == NextMessage(CONTINUATION, whole, true, tail);
  }

  lemma EndIsDropped(data: Bytes, tail: seq<Frame>)
    ensures NextMessage(CONTINUATION, data, true, tail) == NextEvent(tail)
  {
  }

  lemma DropPiece(inside: bool, data: Bytes, p: Piece, fs: seq<Frame>)
    requires !Ends(p)
    ensures var rest := DropFrom(p.Fragment?, if inside then data + p.data else p.data, fs);
            DropFrom(inside, data, [FrameOf(p)] + fs) == if p.PingFrame? then rest.After(p.data) else rest
  {
    var all := [FrameOf(p)] + fs;
    assert all[0] == FrameOf(p) && all[1..] == fs;
    if inside && p.PingFrame? {
      assert NextMessage(CONTINUATION, data, false, all) == NextMessage(CONTINUATION, data, true, fs).After(p.data);
      EndIsDropped(data, fs);
    } else if inside {
      assert NextMessage(CONTINUATION, data, false, all) == NextMessage(CONTINUATION, data + p.data, false, fs);
    } else if p.Fragment? {
      assert NextEvent(all) == NextMessage(CONTINUATION, p.data, false, fs);
    }
  }

  lemma {:induction false} PingsFrom(pieces: seq<Piece>, n: nat)
    requires n < |pieces| && OnlyFragments(pieces[..n]) && pieces[n].PingFrame?
    ensures PingsOf(pieces) == [pieces[n].data] + PingsOf(pieces[n + 1..])
    decreases n
  {
    if n > 0 {
      var more := pieces[1..];
      assert pieces[0] == pieces[..n][0] && pieces[0] in pieces[..n];
      forall p | p in more[..n - 1] ensures p.Fragment? {
        assert p in pieces[..n];
      }
      PingsFrom(more, n - 1);
      assert more[n..] == pieces[n + 1..];
    }
  }

  lemma FirstControlIsPing(pieces: seq<Piece>)
    requires !Interrupted(pieces) && !OnlyFragments(pieces)
    ensures var n := LeadingFragments(pieces);
            n < |pieces| && pieces[n].PingFrame? && !Interrupted(pieces[n + 1..])
  {
    var n := LeadingFragments(pieces);
    assert pieces[n] in pieces;
    assert forall p | p in pieces[n + 1..] :: p in pieces;
  }

  /** So the rest of a text that a ping has cut is lost: the events are the text up to the first ping
      and those after the message, and all pings are answered. */
  lemma RestOfTextIsLost(first: Bytes, pieces: seq<Piece>, last: Bytes, tail: seq<Frame>)
    requires !Interrupted(pieces) && !OnlyFragments(pieces)
    ensures var fs := MessageFrames(0x1, first, pieces, last) + tail;
            && EventsOf(fs).0 == [TextEvent(first + Joined(pieces[..LeadingFragments(pieces)]))] + EventsOf(tail).0
            && EventsOf(fs).1 == PingsOf(pieces) + EventsOf(tail).1
  {
    hide MessageFrames, Ending, NextEvent, EventsOf, Joined, PingsOf, Interrupted, OnlyFragments;
    var fs, n := MessageFrames(0x1, first, pieces, last) + tail, LeadingFragments(pieces);
    FirstControlIsPing(pieces);
    PingCutsText(first, pieces, last, tail);
    EndingIsDropped(false, [], pieces[n + 1..], last, tail);
    PingsFrom(pieces, n);
    EventsOfUnfold(fs, NextEvent(fs), NextEvent(fs));
    var rest, pings := Ending(pieces[n + 1..], last) + tail, PingsOf(pieces[n + 1..]);
    EventsAfterPings(rest, tail, pings);
    assert [pieces[n].data] + (pings + EventsOf(tail).1) == ([pieces[n].data] + pings) + EventsOf(tail).1;
  }

  // ---- messages that are skipped ---------------------------------------------------------------------

  /** The message disturbs no event after it, and its pings are answered. */
  ghost predicate Skipped(first: Bytes, pieces: seq<Piece>, last: Bytes, tail: seq<Frame>) {
    var n := NextEvent(tail);
    NextEvent(MessageFrames(0x2, first, pieces, last) + tail) == n.(pongs := PingsOf(pieces) + n.pongs)
  }

  /** Is the code between two messages after these pieces? At first it is, and again after each ping. */
  predicate Between(pieces: seq<Piece>) {
    pieces == [] || pieces[|pieces| - 1].PingFrame?
  }

  /** What a pong or a close does after the pieces `before`, which hold none: a close is an event; a pong is
      one between two messages, and raises inside one. */
  function Ended(before: seq<Piece>, between: bool, p: Piece, later: seq<Frame>): Next
    requires Ends(p)
  {
    if p.CloseFrame? then Next(Some(CloseEvent(p.data)), PingsOf(before), later)
    else if between then Next(Some(PongEvent(p.data)), PingsOf(before), later)
    else Next(None, PingsOf(before), [], true)
  }

  lemma {:induction false} EndAmongPieces(inside: bool, data: Bytes, pieces: seq<Piece>, n: nat,
                                          last: Bytes, tail: seq<Frame>)
    requires n < |pieces| && Ends(pieces[n]) && !Interrupted(pieces[..n])
    ensures DropFrom(inside, data, Ending(pieces, last) + tail)
         == Ended(pieces[..n], Between(pieces[..n]) && !(inside && n == 0), pieces[n],
                  Ending(pieces[n + 1..], last) + tail)
    decreases n
  {
    hide Ending;
    EndingUnfolds(pieces, last, tail);
    if n > 0 {
      hide DropFrom, Interrupted;
      var p, more := pieces[0], pieces[1..];
      assert pieces[..n][0] == p && pieces[..n][1..] == more[..n - 1] && more[n..] == pieces[n + 1..];
      NotEndedFirst(pieces[..n]);
      EndAmongPieces(p.Fragment?, if inside then data + p.data else p.data, more, n - 1, last, tail);
      DropPiece(inside, data, p, Ending(more, last) + tail);
      assert n > 1 ==> more[..n - 1][n - 2] == pieces[..n][n - 1];
    }
  }

  /** What the first pong or close inside a binary message does. */
  lemma EndInsideBinary(first: Bytes, pieces: seq<Piece>, n: nat, last: Bytes, tail: seq<Frame>)
    requires n < |pieces| && Ends(pieces[n]) && !Interrupted(pieces[..n])
    ensures NextEvent(MessageFrames(0x2, first, pieces, last) + tail)
         == Ended(pieces[..n], Between(pieces[..n]), pieces[n], Ending(pieces[n + 1..], last) + tail)
  {
    var fs := MessageFrames(0x2, first, pieces, last) + tail;
    assert fs[1..] == Ending(pieces, last) + tail;
    EndAmongPieces(false, [], pieces, n, last, tail);
  }

  function FirstEnd(pieces: seq<Piece>): (n: nat)
    requires Interrupted(pieces)
    ensures n < |pieces| && Ends(pieces[n]) && !Interrupted(pieces[..n])
  {
    if Ends(pieces[0]) then 0
    else
      var n := 1 + FirstEnd(pieces[1..]);
      assert pieces[..n] == [pieces[0]] + pieces[1..][..n - 1];
      n
  }

  /** A fragmented binary message is skipped whole, whatever comes after it, exactly when there is no
      pong and no close among its fragments. */
  lemma BinaryIsSkippedIff(first: Bytes, pieces: seq<Piece>, last: Bytes)
    ensures (forall tail :: Skipped(first, pieces, last, tail)) <==> !Interrupted(pieces)
  {
    if Interrupted(pieces) {
      var n, tail := FirstEnd(pieces), [Frame(0x8, [], true)];
      EndInsideBinary(first, pieces, n, last, tail);
      assert NextEvent(tail) == Next(Some(CloseEvent([])), [], tail[1..]);
      assert |Ending(pieces[n + 1..], last) + tail| > 0;
      assert !Skipped(first, pieces, last, tail);
    } else {
      forall tail ensures Skipped(first, pieces, last, tail) {
        var fs := MessageFrames(0x2, first, pieces, last) + tail;
        assert fs[0] == Frame(0x2, first, false) && fs[1..] == Ending(pieces, last) + tail;
        EndingIsDropped(false, [], pieces, last, tail);
      }
    }
  }

  // ---- a network that keeps delivering ---------------------------------------------------------------

  /** The call has come to what the frames begin with. */
  ghost predicate Arrives(o: Outcome, n: Next) {
    && o.pongs == n.pongs && Patient(o.net)
    && (n.event.Some? ==> o.result == AnEvent(n.event.value) && DecodeAll(o.net.rest) == n.later)
    && (n.broken ==> o.result == EventRaised(BadContinuation))
  }

  /** When the bytes keep coming, a call of `recv_event` returns the next event of the stream, or raises
      if the frames break its rules. */
  lemma {:induction false} PatientEvent(net: Net)
    requires Patient(net) && (NextEvent(DecodeAll(net.rest)).event.Some? || NextEvent(DecodeAll(net.rest)).broken)
    ensures Arrives(PullEvent(net), NextEvent(DecodeAll(net.rest)))
    decreases |net.script|, 0
  {
    hide PullFrame, Patient, FirstFrame;
    PullFrameProgress(net);
    PatientFrame(net);
    var (r, net') := PullFrame(net);
    var fs := DecodeAll(net.rest);
    var f := r.frame;
    assert fs[0] == f && fs[1..] == DecodeAll(net'.rest);
    if f.opcode == PING || (f.opcode !in {CLOSE, PONG, CONTINUATION, TEXT}) {
      PatientEvent(net');
    } else if f.opcode == CONTINUATION || f.opcode == TEXT {
      PatientMessage(f.opcode, f.payload, f.finished, net');
    }
  }

  lemma {:induction false} PatientMessage(opcode: Byte, data: Bytes, finished: bool, net: Net)
    requires Patient(net)
    requires var n := NextMessage(opcode, data, finished, DecodeAll(net.rest)); n.event.Some? || n.broken
    ensures Arrives(PullMessage(opcode, data, finished, net), NextMessage(opcode, data, finished, DecodeAll(net.rest)))
    decreases |net.script|, 1
  {
    hide PullFrame, Patient, FirstFrame;
    if finished {
      if opcode != TEXT {
        PatientEvent(net);
      }
    } else {
      PullFrameProgress(net);
      PatientFrame(net);
      var (r, net') := PullFrame(net);
      var fs := DecodeAll(net.rest);
      var f := r.frame;
      assert fs[0] == f && fs[1..] == DecodeAll(net'.rest);
      if f.opcode == PING {
        PatientMessage(opcode, data, f.finished, net');
      } else if f.opcode == CONTINUATION {
        PatientMessage(opcode, data + f.payload, f.finished, net');
      }
    }
  }

  /** What a call is to come to when it meets a fragmented text: the whole text, or what the first control
      frame among the fragments makes of it, with nothing but the frames read gone from the stream. */
  ghost predicate TextOutcome(o: Outcome, first: Bytes, pieces: seq<Piece>, last: Bytes, tail: seq<Frame>) {
    var n := LeadingFragments(pieces);
    if n == |pieces| then
      && o.result == AnEvent(TextEvent(first + Joined(pieces) + last))
      && o.pongs == [] && DecodeAll(o.net.rest) == tail
    else
      match pieces[n]
      case PingFrame(data) =>
        && o.result == AnEvent(TextEvent(first + Joined(pieces[..n])))
        && o.pongs == [data] && DecodeAll(o.net.rest) == Ending(pieces[n + 1..], last) + tail
      case CloseFrame(data) =>
        && o.result == AnEvent(CloseEvent(data))
        && o.pongs == [] && DecodeAll(o.net.rest) == Ending(pieces[n + 1..], last) + tail
      case _ => o.result == EventRaised(BadContinuation) && o.pongs == []
  }

  /** Reassembly under any chunks: a fragmented text is returned as one event by one call, up to the first
      control frame if that is a ping; a pong raises, and a close is returned instead. */
  lemma TextMessageArrives(net: Net, first: Bytes, pieces: seq<Piece>, last: Bytes, tail: seq<Frame>)
    requires Patient(net) && DecodeAll(net.rest) == MessageFrames(0x1, first, pieces, last) + tail
    ensures TextOutcome(PullEvent(net), first, pieces, last, tail) && Patient(PullEvent(net).net)
  {
    hide PullEvent, NextEvent, DecodeAll, MessageFrames, Ending, Patient;
    var n := LeadingFragments(pieces);
    if n == |pieces| {
      WholeText(first, pieces, last, tail);
    } else if pieces[n].PingFrame? {
      PingCutsText(first, pieces, last, tail);
    } else if pieces[n].PongFrame? {
      PongBreaksText(first, pieces, last, tail);
    } else {
      CloseEndsText(first, pieces, last, tail);
    }
    PatientEvent(net);
  }
}
