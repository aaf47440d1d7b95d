/** The other end of the connection: a server, which sends unmasked frames and may fragment its messages
    (sections 5.1, 5.2 and 5.4 of RFC 6455). The theorems about reading, said of the bytes it sends. */
module WebSocketPeer {
  import opened Prelude
  import opened WebSocketFrames
  import opened WebSocketReader
  import opened WebSocketEvents

  predicate Sendable(f: Frame) {
    f.opcode < 16 && |f.payload| < 0x1_0000_0000_0000_0000
  }

  predicate AllSendable(fs: seq<Frame>) {
    forall f | f in fs :: Sendable(f)
  }

  /** A frame as a server sends it. */
  function ServerEncode(f: Frame): Bytes {
    [MarkedIf(f.finished, f.opcode)] + LengthField(|f.payload|, false) + f.payload
  }

  function ServerStream(fs: seq<Frame>): Bytes {
    if fs == [] then [] else ServerEncode(fs[0]) + ServerStream(fs[1..])
  }

  /** The bytes of a frame as a server has to send it (section 5.2): its opcode, under the final bit, the
      length of the payload, and the payload as it is. */
  ghost predicate ServerBytes(s: Bytes, f: Frame) {
    var n := |f.payload|;
    var h := if n < 126 then 2 else if n < 65536 then 4 else 10;
    HeaderBytes(s, f.opcode + (if f.finished then 128 else 0), n, false, h) && s[h..] == f.payload
  }

  lemma ServerEncodesRight(f: Frame)
    requires Sendable(f)
    ensures ServerBytes(ServerEncode(f), f)
  {
    HeaderIsWritten(MarkedIf(f.finished, f.opcode), |f.payload|, false, f.payload);
  }

  lemma FirstByteIsRead(f: Frame)
    requires Sendable(f)
    ensures var b := MarkedIf(f.finished, f.opcode); Low4(b) == f.opcode && HighBit(b) == f.finished
  {
  }

  /** What a server sends is decoded to the frame, and is not masked. */
  lemma ServerFrameIsDecoded(f: Frame, tail: Bytes)
    requires Sendable(f)
    ensures var s := ServerEncode(f) + tail;
            && FrameComplete(s) && !MaskedEmpty(s) && FirstFrame(s) == f && s[FrameSize(s)..] == tail
  {
    hide LengthField, DeclaredLength, ShortLength, FirstFrame, MarkedIf, Low4, HighBit;
    var s, n := ServerEncode(f) + tail, |f.payload|;
    var body, first := f.payload + tail, MarkedIf(f.finished, f.opcode);
    assert s == [first] + LengthField(n, false) + body;
    LengthFieldIsRead(first, n, false, body);
    FirstFrameFromBody(s);
    FirstByteIsRead(f);
    assert s[1 + |LengthField(n, false)|..] == body;
    assert body[..n] == f.payload && body[n..] == tail;
  }

  /** Every sequence of frames comes back from the bytes a server makes of it; no schedule can upset its
      reading, and it breaks off nowhere. */
  lemma {:induction false} ServerStreamIsDecoded(fs: seq<Frame>)
    requires AllSendable(fs)
    ensures var s := ServerStream(fs); DecodeAll(s) == fs && Plain(s) && EndsOnABoundary(s)
  {
    hide ServerEncode, FirstFrame, FrameSize, FrameComplete, MaskedEmpty;
    if fs == [] {
      NothingIsDecoded();
    } else {
      assert fs[0] in fs && AllSendable(fs[1..]);
      ServerStreamIsDecoded(fs[1..]);
      ServerFrameIsDecoded(fs[0], ServerStream(fs[1..]));
      assert fs == [fs[0]] + fs[1..];
    }
  }

  lemma NothingIsDecoded()
    ensures DecodeAll([]) == [] && Plain([]) && EndsOnABoundary([])
  {
  }

  /** What a server sends is read back exactly and with nothing left over, whatever the chunks; and with
      any timeouts and any end, as long as no call raised, no frame is lost. */
  lemma ServerFramesAreRead(fs: seq<Frame>, script: seq<NetEvent>)
    requires AllSendable(fs)
    ensures var net := Net(ServerStream(fs), script);
            var run := ReadFrames(net);
            && (Patient(net) ==> run.frames == fs && run.net.rest == [] && !run.raised)
            && (!run.raised ==> run.frames + DecodeAll(run.net.rest) == fs)
            && run.frames <= fs
  {
    hide ReadFrames, ServerStream, DecodeAll, Plain, EndsOnABoundary, Patient;
    var net := Net(ServerStream(fs), script);
    ServerStreamIsDecoded(fs);
    FramesAreAPrefix(net);
    if Patient(net) {
      PatientFrames(net);
    }
  }

  /** The same of events: under any chunks, timeouts and end, the events and pongs are a beginning of those
      of the frames sent, and as long as no call raised the others are still to come. */
  lemma ServerEventsAreRead(fs: seq<Frame>, script: seq<NetEvent>)
    requires AllSendable(fs)
    ensures var run := ReadEvents(Net(ServerStream(fs), script));
            && run.events <= EventsOf(fs).0 && run.pongs <= EventsOf(fs).1
            && (!run.raised ==> Splits(fs, run.events, run.pongs, DecodeAll(run.net.rest)))
  {
    hide ReadEvents, ServerStream, DecodeAll, Plain, EndsOnABoundary;
    ServerStreamIsDecoded(fs);
    EventsAreAPrefix(Net(ServerStream(fs), script));
  }

  /** A fragmented text from the bytes a server sends: whatever the chunks, one call of `recv_event` returns
      what the first control frame among the fragments leaves of it, and all of it exactly when there is
      none. */
  lemma TextFromTheServer(first: Bytes, pieces: seq<Piece>, last: Bytes, tail: seq<Frame>, script: seq<NetEvent>)
    requires AllSendable(MessageFrames(0x1, first, pieces, last) + tail)
    requires Patient(Net(ServerStream(MessageFrames(0x1, first, pieces, last) + tail), script))
    ensures var o := PullEvent(Net(ServerStream(MessageFrames(0x1, first, pieces, last) + tail), script));
            && TextOutcome(o, first, pieces, last, tail)
            && (o.result == AnEvent(TextEvent(first + Joined(pieces) + last)) && DecodeAll(o.net.rest) == tail
                <==> OnlyFragments(pieces))
  {
    hide ServerStream, PullEvent, MessageFrames, DecodeAll, Plain, EndsOnABoundary, Patient;
    var fs := MessageFrames(0x1, first, pieces, last) + tail;
    ServerStreamIsDecoded(fs);
    TextMessageArrives(Net(ServerStream(fs), script), first, pieces, last, tail);
    EndingIsLonger(pieces, last, tail);
  }

  lemma EndingIsLonger(pieces: seq<Piece>, last: Bytes, tail: seq<Frame>)
    ensures forall n | 0 <= n <= |pieces| :: Ending(pieces[n..], last) + tail != tail
  {
    forall n | 0 <= n <= |pieces| ensures Ending(pieces[n..], last) + tail != tail {
      assert |Ending(pieces[n..], last) + tail| > |tail|;
    }
  }
}
