/** The client side of a WebSocket connection (src/agent_keepalive/ws.py). Its methods are proved
    against the functions of WebSocketReader.dfy and WebSocketEvents.dfy; what they send is what the
    encoder of WebSocketFrames.dfy makes of it. */
module WebSocketClient {
  import opened Prelude
  import opened WebSocketFrames
  import opened WebSocketReader
  import opened WebSocketEvents

  /** `b"".join(parts)` */
  function Concat(parts: seq<Bytes>): Bytes {
    if parts == [] then [] else Concat(parts[..|parts| - 1]) + parts[|parts| - 1]
  }

  lemma NoPongsYet(o: Outcome)
    ensures WithPongs([], o) == o
    ensures PongFrames([]) == []
  {
    assert [] + o.pongs == o.pongs;
  }

  lemma ConcatAppend(parts: seq<Bytes>, last: Bytes)
    ensures Concat(parts + [last]) == Concat(parts) + last
  {
    assert (parts + [last])[..|parts|] == parts;
  }

  /** The answers to pings, as frames. */
  function PongFrames(payloads: seq<Bytes>): seq<Frame> {
    if payloads == [] then []
    else PongFrames(payloads[..|payloads| - 1]) + [Frame(0xA, payloads[|payloads| - 1], true)]
  }

  function WithPongs(earlier: seq<Bytes>, o: Outcome): Outcome {
    o.(pongs := earlier + o.pongs)
  }

  lemma OnePongMore(earlier: seq<Bytes>, pong: Bytes, o: Outcome)
    ensures WithPongs(earlier, o.After(pong)) == WithPongs(earlier + [pong], o)
    ensures PongFrames(earlier + [pong]) == PongFrames(earlier) + [Frame(0xA, pong, true)]
  {
    assert earlier + ([pong] + o.pongs) == (earlier + [pong]) + o.pongs;
    assert (earlier + [pong])[..|earlier|] == earlier;
  }

  lemma {:induction false} PongsAppend(a: seq<Bytes>, b: seq<Bytes>, o: Outcome)
    ensures PongFrames(a + b) == PongFrames(a) + PongFrames(b)
    ensures WithPongs(a, WithPongs(b, o)) == WithPongs(a + b, o)
    decreases |b|
  {
    assert a + (b + o.pongs) == (a + b) + o.pongs;
    if b == [] {
      assert a + b == a;
    } else {
      var n := |b| - 1;
      PongsAppend(a, b[..n], o);
      assert (a + b)[..|a + b| - 1] == a + b[..n];
    }
  }

  class UnixWebSocket {
    var connected: bool
    var rest: Bytes
    var script: seq<NetEvent>
    var wire: Bytes
    ghost var sent: seq<Sent>

    /** The network as this object sees it. */
    ghost function View(): Net
      reads this
    {
      Net(rest, script)
    }

    /** The bytes on the wire are the encodings of the frames sent. */
    ghost predicate Valid()
      reads this
    {
      AllValid(sent) && wire == EncodeAll(sent)
    }

    constructor (net: Net)
      ensures Valid() && connected && View() == net && sent == []
    {
      connected, rest, script, wire, sent := true, net.rest, net.script, [], [];
    }

    /** The peer decodes exactly the frames that were sent. */
    lemma PeerDecodesWhatWasSent()
      requires Valid()
      ensures DecodeAll(wire) == Frames(sent)
    {
      StreamRoundTrip(sent);
    }

    /** `close`: a close frame goes out, and the connection is given up. */
    method Close()
      requires Valid()
      modifies `connected, `wire, `sent
      ensures Valid() && !connected
      ensures Frames(sent) == if old(connected) then Frames(old(sent)) + [Frame(0x8, [], true)] else Frames(old(sent))
    {
      if !connected {
        return;
      }
      var _ := SendFrame(CLOSE, []);
      connected := false;
    }

    method SendFrame(opcode: Byte, payload: Bytes) returns (ok: bool)
      requires Valid() && opcode < 16 && |payload| < 0x1_0000_0000_0000_0000
      modifies `wire, `sent
      ensures Valid() && ok == connected
      ensures Frames(sent) == if ok then Frames(old(sent)) + [Frame(opcode, payload, true)] else Frames(old(sent))
      ensures old(wire) <= wire && (!ok ==> wire == old(wire))
      ensures ok ==> exists mask :: ClientBytes(wire[|old(wire)|..], opcode, payload, mask)
    {
      if !connected {
        return false;
      }
      var k0: Byte, k1: Byte, k2: Byte, k3: Byte := *, *, *, *;
      var mask := [k0, k1, k2, k3];
      var maskedPayload := Masked(payload, mask);
      var header := [SetHighBit(opcode)];
      var payloadLength := |payload|;
      if payloadLength < 126 {
        header := header + [SetHighBit(payloadLength)];
      } else if payloadLength < 0x1_0000 {
        header := header + [SetHighBit(126)];
        header := header + Pack(payloadLength, 2);
      } else {
        header := header + [SetHighBit(127)];
        header := header + Pack(payloadLength, 8);
      }
      header := header + mask;
      wire := wire + (header + maskedPayload);
      ghost var f := Sent(opcode, payload, mask);
      assert header == [SetHighBit(opcode)] + LengthField(payloadLength, true) + mask;
      assert (sent + [f])[..|sent|] == sent;
      sent := sent + [f];
      EncodedBytes(f);
      assert wire[|old(wire)|..] == Encode(f);
      return true;
    }

    /** `sock.recv`. */
    method SocketRecv(size: nat) returns (r: Received)
      requires size > 0
      modifies `rest, `script
      ensures (r, View()) == Recv(old(View()), size)
    {
      if script == [] {
        return RecvTimeout;
      }
      var event := script[0];
      script := script[1..];
      if event.Silence? || (event.Deliver? && rest == []) {
        return RecvTimeout;
      }
      if event.Eof? {
        return Chunk([]);
      }
      var k := Min(Min(if event.n == 0 then 1 else event.n, size), |rest|);
      r := Chunk(rest[..k]);
      rest := rest[k..];
    }

    method RecvExact(size: nat) returns (r: Pulled)
      modifies `rest, `script
      ensures !connected ==> r == PullRaised(NotConnected) && View() == old(View())
      ensures connected ==> (r, View()) == PullExact(size, [], old(View()))
    {
      if !connected {
        return PullRaised(NotConnected);
      }
      if size == 0 {
        return Got([]);
      }
      var buffer := [];
      while |buffer| < size
        invariant PullExact(size, [], old(View())) == PullExact(size, buffer, View())
        decreases |script|, size - |buffer|
      {
        RecvReadsPrefix(View(), size - |buffer|);
        var chunk := SocketRecv(size - |buffer|);
        if chunk.RecvTimeout? {
          if buffer == [] {
            return Nothing;
          }
          return PullRaised(TimedOut);
        }
        if chunk.data == [] {
          if buffer == [] {
            return Nothing;
          }
          return PullRaised(ClosedByPeer);
        }
        buffer := buffer + chunk.data;
      }
      return Got(buffer);
    }

    method RecvFrame() returns (r: FrameResult)
      modifies `rest, `script
      ensures !connected ==> r == FrameRaised(NotConnected) && View() == old(View())
      ensures connected ==> (r, View()) == PullFrame(old(View()))
    {
      PullExactReadsPrefix(2, [], View());
      var firstTwo := RecvExact(2);
      if firstTwo.PullRaised? {
        return FrameRaised(firstTwo.error);
      }
      if firstTwo.Nothing? {
        return NoFrame;
      }
      var first, second := firstTwo.data[0], firstTwo.data[1];
      var finished := HighBit(first);
      var opcode := Low4(first);
      var masked := HighBit(second);
      var payloadLength: nat := Low7(second);
      if payloadLength == 126 || payloadLength == 127 {
        var extended := RecvExact(ExtendedSize(payloadLength));
        if extended.PullRaised? {
          return FrameRaised(extended.error);
        }
        if extended.Nothing? {
          return FrameRaised(ClosedByPeer);
        }
        payloadLength := Unpack(extended.data);
      }
      ghost var body := View();
      var maskingKey := [];
      if masked {
        var key := RecvExact(4);
        if key.PullRaised? {
          return FrameRaised(key.error);
        }
        if key.Got? {
          maskingKey := key.data;
        }
      }
      var payload := RecvExact(payloadLength);
      if payload.PullRaised? {
        return FrameRaised(payload.error);
      }
      if payload.Nothing? {
        return FrameRaised(ClosedByPeer);
      }
      var data := payload.data;
      if masked && data != [] {
        if maskingKey == [] {
          return FrameRaised(EmptyKey);
        }
        data := Masked(data, maskingKey);
      }
      return AFrame(Frame(opcode, data, finished));
    }

    /** The inner loop of `recv_event`: the fragments after the first, until the message is finished
        or the call is over. */
    method RecvFragments(opcode: Byte, first: Bytes, wasFinished: bool)
      returns (done: Option<EventResult>, messageParts: seq<Bytes>, ghost answered: seq<Bytes>)
      requires Valid() && connected
      modifies `rest, `script, `wire, `sent
      ensures Valid() && |script| <= old(|script|)
      ensures Frames(sent) == Frames(old(sent)) + PongFrames(answered)
      ensures PullMessage(opcode, first, wasFinished, old(View()))
           == WithPongs(answered, if done.Some? then Outcome(done.value, [], View())
                                  else PullMessage(opcode, Concat(messageParts), true, View()))
    {
      hide PullFrame, PullEvent, PullMessage, PongFrames, Frames, AllValid, EncodeAll;
      var finished := wasFinished;
      messageParts, answered := [first], [];
      assert Concat([first]) == first by { ConcatAppend([], first); assert [] + [first] == [first]; }
      NoPongsYet(PullMessage(opcode, first, finished, View()));
      while !finished
        invariant Valid() && |script| <= old(|script|)
        invariant Frames(sent) == Frames(old(sent)) + PongFrames(answered)
        invariant PullMessage(opcode, first, wasFinished, old(View()))
               == WithPongs(answered, PullMessage(opcode, Concat(messageParts), finished, View()))
        decreases |script|, !finished
      {
        PullFrameProgress(View());
        PayloadIsBounded(View());
        assert answered + [] == answered;
        ghost var data := Concat(messageParts);
        MessageTurn(opcode, data, View());
        var next := RecvFrame();
        if next.NoFrame? {
          return Some(EventRaised(ClosedByPeer)), messageParts, answered;
        }
        if next.FrameRaised? {
          return Some(EventRaised(next.error)), messageParts, answered;
        }
        var payload := next.frame.payload;
        finished := next.frame.finished;
        if next.frame.opcode == PING {
          var _ := SendFrame(PONG, payload);
          OnePongMore(answered, payload, PullMessage(opcode, data, finished, View()));
          answered := answered + [payload];
          continue;
        }
        if next.frame.opcode == CLOSE {
          return Some(AnEvent(CloseEvent(payload))), messageParts, answered;
        }
        if next.frame.opcode != CONTINUATION {
          return Some(EventRaised(BadContinuation)), messageParts, answered;
        }
        ConcatAppend(messageParts, payload);
        messageParts := messageParts + [payload];
      }
      return None, messageParts, answered;
    }

    /** `recv_event`: its result and what it leaves of the network are those of `PullEvent`, and it
        has sent one pong for each ping it met, with the same payload, in order. */
    method RecvEvent() returns (r: EventResult)
      requires Valid()
      modifies `rest, `script, `wire, `sent
      ensures Valid()
      ensures !connected ==> r == EventRaised(NotConnected) && View() == old(View()) && sent == old(sent)
      ensures connected ==>
                var o := PullEvent(old(View()));
                r == o.result && View() == o.net && Frames(sent) == Frames(old(sent)) + PongFrames(o.pongs)
    {
      hide PullFrame, PullEvent, PullMessage, PongFrames, Frames, AllValid, EncodeAll;
      if !connected {
        return EventRaised(NotConnected);
      }
      ghost var pongs := [];
      NoPongsYet(PullEvent(View()));
      while true
        invariant Valid() && PullEvent(old(View())) == WithPongs(pongs, PullEvent(View()))
        invariant Frames(sent) == Frames(old(sent)) + PongFrames(pongs)
        decreases |script|
      {
        PullFrameProgress(View());
        EventTurn(View());
        PayloadIsBounded(View());
        assert pongs + [] == pongs;
        var frame := RecvFrame();
        if frame.NoFrame? {
          return NoEvent;
        }
        if frame.FrameRaised? {
          return EventRaised(frame.error);
        }
        var Frame(opcode, payload, finished) := frame.frame;
        if opcode == CLOSE {
          return AnEvent(CloseEvent(payload));
        }
        if opcode == PING {
          var _ := SendFrame(PONG, payload);
          OnePongMore(pongs, payload, PullEvent(View()));
          pongs := pongs + [payload];
          continue;
        }
        if opcode == PONG {
          return AnEvent(PongEvent(payload));
        }
        if opcode != CONTINUATION && opcode != TEXT {
          continue;
        }
        var done, messageParts, answered := RecvFragments(opcode, payload, finished);
        ghost var end := if done.Some? then Outcome(done.value, [], View())
                         else PullMessage(opcode, Concat(messageParts), true, View());
        PongsAppend(pongs, answered, end);
        pongs := pongs + answered;
        assert pongs + [] == pongs;
        if done.Some? {
          return done.value;
        }
        MessageEnd(opcode, Concat(messageParts), View());
        if opcode != TEXT {
          continue;
        }
        return AnEvent(TextEvent(Concat(messageParts)));
      }
    }
  }
}
