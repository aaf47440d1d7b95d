/** Reading frames from a socket that may deliver any chunks, time out and end at any point
    (src/agent_keepalive/ws.py:148-179, 197-214). */
module WebSocketReader {
  import opened Prelude
  import opened WebSocketFrames

  /** What the network does on one `recv`: hand over at most `n` bytes (at least one if there is
      one), let it time out, or report the end of the stream. */
  datatype NetEvent = Deliver(n: nat) | Silence | Eof

  /** The bytes that `recv` has not handed over yet, and what it is going to do; a network whose
      script is over stays silent. */
  datatype Net = Net(rest: Bytes, script: seq<NetEvent>)

  datatype WsError = NotConnected | TimedOut | ClosedByPeer | EmptyKey | BadContinuation

  datatype Received = Chunk(data: Bytes) | RecvTimeout

  function Min(a: nat, b: nat): nat { if a < b then a else b }

  /** `sock.recv(size)`. */
  function Recv(net: Net, size: nat): (r: (Received, Net))
    requires size > 0
  {
    if net.script == [] then (RecvTimeout, net)
    else
      var later := net.(script := net.script[1..]);
      match net.script[0]
      case Silence => (RecvTimeout, later)
      case Eof => (Chunk([]), later)
      case Deliver(n) =>
        if net.rest == [] then (RecvTimeout, later)
        else
          var k := Min(Min(if n == 0 then 1 else n, size), |net.rest|);
          (Chunk(net.rest[..k]), later.(rest := net.rest[k..]))
  }

  datatype Pulled = Got(data: Bytes) | Nothing | PullRaised(error: WsError)

  /** `_recv_exact`, with `buffer` already read. */
  function PullExact(size: nat, buffer: Bytes, net: Net): (r: (Pulled, Net))
    decreases |net.script|
  {
    if |buffer| >= size then (Got(buffer), net)
    else
      var (got, net') := Recv(net, size - |buffer|);
      if got.RecvTimeout? then (if buffer == [] then Nothing else PullRaised(TimedOut), net')
      else if got.data == [] then (if buffer == [] then Nothing else PullRaised(ClosedByPeer), net')
      else PullExact(size, buffer + got.data, net')
  }

  /** Reading a first chunk and then the rest reads it all. */
  lemma ChunkByChunk(buffer: Bytes, rest: Bytes, k: nat, m: nat)
    requires k <= m <= |rest|
    ensures (buffer + rest[..k]) + rest[k..][..m - k] == buffer + rest[..m]
    ensures rest[k..][m - k..] == rest[m..]
  {
    assert rest[..m] == rest[..k] + rest[k..][..m - k];
    DropOfDrop(rest, k, m - k);
  }

  lemma RecvReadsPrefix(net: Net, size: nat)
    requires size > 0
    ensures var (got, net') := Recv(net, size);
            && |net'.script| <= |net.script| && (net.script != [] ==> |net'.script| < |net.script|)
            && (got.RecvTimeout? || got.data == [] ==> net'.rest == net.rest)
            && (got.Chunk? && got.data != [] ==>
                && |got.data| <= size && |got.data| <= |net.rest|
                && got.data == net.rest[..|got.data|] && net'.rest == net.rest[|got.data|..]
                && |net'.script| < |net.script|)
  {
  }

  /** Bytes are handed over in order and none is lost: what was read is a prefix of the stream, and
      a result of nothing has consumed nothing. */
  lemma {:induction false} PullExactReadsPrefix(size: nat, buffer: Bytes, net: Net)
    requires |buffer| <= size
    ensures var (r, net') := PullExact(size, buffer, net);
            && |net'.script| <= |net.script|
            && (r.Got? ==>
                && |net.rest| >= size - |buffer|
                && r.data == buffer + net.rest[..size - |buffer|] && net'.rest == net.rest[size - |buffer|..]
                && (|buffer| < size ==> |net'.script| < |net.script|))
            && (r.Nothing? ==>
                && buffer == [] && size > 0 && net'.rest == net.rest
                && (net.script != [] ==> |net'.script| < |net.script|))
    decreases |net.script|
  {
    var m := size - |buffer|;
    if m > 0 {
      hide Recv;
      RecvReadsPrefix(net, m);
      var (got, net') := Recv(net, m);
      if got.Chunk? && got.data != [] {
        PullExactReadsPrefix(size, buffer + got.data, net');
        var k := |got.data|;
        if PullExact(size, buffer + got.data, net').0.Got? {
          ChunkByChunk(buffer, net.rest, k, m);
        }
      }
    } else {
      assert buffer + net.rest[..0] == buffer;
    }
  }

  datatype FrameResult = AFrame(frame: Frame) | NoFrame | FrameRaised(error: WsError)

  /** `_recv_frame`, after header and length: the masking key, if any, and the payload. */
  function PullBody(first: Byte, masked: bool, length: nat, net: Net): (FrameResult, Net) {
    var (key, net2) := if masked then PullExact(4, [], net) else (Got([]), net);
    if key.PullRaised? then (FrameRaised(key.error), net2)
    else
      var maskingKey := if key.Got? then key.data else [];
      var (payload, net3) := PullExact(length, [], net2);
      if payload.PullRaised? then (FrameRaised(payload.error), net3)
      else if payload.Nothing? then (FrameRaised(ClosedByPeer), net3)
      else if masked && payload.data != [] && maskingKey == [] then (FrameRaised(EmptyKey), net3)
      else
        var data := if masked && payload.data != [] then Masked(payload.data, maskingKey) else payload.data;
        (AFrame(Frame(Low4(first), data, HighBit(first))), net3)
  }

  /** `_recv_frame`. */
  function PullFrame(net: Net): (FrameResult, Net) {
    var (head, net1) := PullExact(2, [], net);
    if head.PullRaised? then (FrameRaised(head.error), net1)
    else if head.Nothing? then (NoFrame, net1)
    else
      assert |head.data| == 2 by { PullExactReadsPrefix(2, [], net); }
      var short := Low7(head.data[1]);
      if ExtendedSize(short) == 0 then PullBody(head.data[0], HighBit(head.data[1]), short, net1)
      else
        var (ext, net2) := PullExact(ExtendedSize(short), [], net1);
        if ext.PullRaised? then (FrameRaised(ext.error), net2)
        else if ext.Nothing? then (FrameRaised(ClosedByPeer), net2)
        else PullBody(head.data[0], HighBit(head.data[1]), Unpack(ext.data), net2)
  }

  // ---- one frame ---------------------------------------------------------------------------------

  /** A masked frame that declares an empty payload: the one kind of frame whose reading can be
      upset by a timeout, because a key that does not come is taken for an empty one. */
  predicate MaskedEmpty(s: Bytes) {
    HeaderComplete(s) && MaskBit(s) && DeclaredLength(s) == 0
  }

  lemma UnmaskedBodyIsDecoded(first: Byte, length: nat, net: Net)
    ensures var (r, net') := PullBody(first, false, length, net);
            r.AFrame? ==> |net.rest| >= length && net'.rest == net.rest[length..]
                          && r.frame == BodyFrame(first, false, length, net.rest)
  {
    PullExactReadsPrefix(length, [], net);
    var (payload, net2) := PullExact(length, [], net);
    if payload.Got? {
      assert payload.data == net.rest[..length] && net2.rest == net.rest[length..];
      assert PullBody(first, false, length, net) == (AFrame(Frame(Low4(first), payload.data, HighBit(first))), net2);
    }
  }

  lemma MaskedBodyIsDecoded(first: Byte, length: nat, net: Net)
    requires length > 0
    ensures var (r, net') := PullBody(first, true, length, net);
            r.AFrame? ==> |net.rest| >= 4 + length && net'.rest == net.rest[4 + length..]
                          && r.frame == BodyFrame(first, true, length, net.rest)
  {
    PullExactReadsPrefix(4, [], net);
    var (key, net2) := PullExact(4, [], net);
    PullExactReadsPrefix(length, [], net2);
    var (payload, net3) := PullExact(length, [], net2);
    if payload.Got? {
      assert |payload.data| == length;
      if key.Got? {
        assert key.data == net.rest[..4];
        assert payload.data == net.rest[4..][..length] == net.rest[4..4 + length];
        assert net3.rest == net.rest[4..][length..] == net.rest[4 + length..];
      }
    }
  }

  lemma BodyShrinksScript(first: Byte, masked: bool, length: nat, net: Net)
    ensures |PullBody(first, masked, length, net).1.script| <= |net.script|
    ensures !PullBody(first, masked, length, net).0.NoFrame?
  {
    if masked {
      PullExactReadsPrefix(4, [], net);
    }
    var net2 := if masked then PullExact(4, [], net).1 else net;
    PullExactReadsPrefix(length, [], net2);
  }

  /** Reading a frame uses up the script, and a result of no frame has consumed no byte. */
  lemma PullFrameProgress(net: Net)
    ensures var (r, net') := PullFrame(net);
            && |net'.script| <= |net.script|
            && (r.AFrame? ==> |net'.script| < |net.script|)
            && (r.NoFrame? ==> net'.rest == net.rest && (net.script != [] ==> |net'.script| < |net.script|))
  {
    PullExactReadsPrefix(2, [], net);
    var (head, net1) := PullExact(2, [], net);
    if head.Got? {
      var short := Low7(head.data[1]);
      if ExtendedSize(short) == 0 {
        BodyShrinksScript(head.data[0], HighBit(head.data[1]), short, net1);
      } else {
        PullExactReadsPrefix(ExtendedSize(short), [], net1);
        var (ext, net2) := PullExact(ExtendedSize(short), [], net1);
        if ext.Got? {
          BodyShrinksScript(head.data[0], HighBit(head.data[1]), Unpack(ext.data), net2);
        }
      }
    }
  }

  /** Schedule independence of one frame: a frame that is returned, under any chunking, timeouts and
      end of stream, is the first frame of the stream read at once, and exactly its bytes are gone. */
  lemma FrameIsDecoded(net: Net)
    requires !MaskedEmpty(net.rest)
    ensures var (r, net') := PullFrame(net);
            r.AFrame? ==> FrameComplete(net.rest) && r.frame == FirstFrame(net.rest)
                          && net'.rest == net.rest[FrameSize(net.rest)..]
  {
    hide PullExact, PullBody, FirstFrame, DeclaredLength;
    var s := net.rest;
    PullExactReadsPrefix(2, [], net);
    var (head, net1) := PullExact(2, [], net);
    if head.Got? {
      assert head.data == s[..2];
      var e := ExtendedSize(Low7(head.data[1]));
      if e == 0 {
        DeclaredLengthIs(s);
        FrameFromBody(s, net1, ShortLength(s));
      } else {
        PullExactReadsPrefix(e, [], net1);
        var (ext, net2) := PullExact(e, [], net1);
        if ext.Got? {
          SliceOfDrop(s, 2, 0, e);
          DropOfDrop(s, 2, e);
          assert ext.data == s[2..2 + e];
          DeclaredLengthIs(s);
          FrameFromBody(s, net2, DeclaredLength(s));
        }
      }
    }
  }

  lemma FrameFromBody(s: Bytes, net: Net, length: nat)
    requires HeaderComplete(s) && !MaskedEmpty(s) && length == DeclaredLength(s)
    requires net.rest == s[2 + ExtendedSize(ShortLength(s))..]
    ensures var (r, net') := PullBody(s[0], HighBit(s[1]), length, net);
            r.AFrame? ==> FrameComplete(s) && r.frame == FirstFrame(s) && net'.rest == s[FrameSize(s)..]
  {
    hide PullBody, BodyFrame, FirstFrame;
    FirstFrameFromBody(s);
    if HighBit(s[1]) {
      MaskedBodyIsDecoded(s[0], length, net);
    } else {
      UnmaskedBodyIsDecoded(s[0], length, net);
    }
  }

  lemma PullLength(size: nat, net: Net)
    ensures var r := PullExact(size, [], net).0; r.Got? ==> |r.data| == size
  {
    hide PullExact;
    PullExactReadsPrefix(size, [], net);
  }

  lemma OpcodeBound(b: Byte)
    ensures Low4(b) < 16
  {
  }

  lemma BodyHasDeclaredLength(first: Byte, masked: bool, length: nat, net: Net)
    ensures var r := PullBody(first, masked, length, net).0;
            r.AFrame? ==> |r.frame.payload| == length && r.frame.opcode < 16
  {
    hide PullExact, Masked, HighBit, Low4;
    PullLength(length, if masked then PullExact(4, [], net).1 else net);
    OpcodeBound(first);
  }

  /** A payload is never longer than the 64-bit length field can say. */
  lemma PayloadIsBounded(net: Net)
    ensures var r := PullFrame(net).0;
            r.AFrame? ==> |r.frame.payload| < 0x1_0000_0000_0000_0000 && r.frame.opcode < 16
  {
    hide PullExact, PullBody;
    PullExactReadsPrefix(2, [], net);
    var (head, net1) := PullExact(2, [], net);
    if head.Got? {
      var short := Low7(head.data[1]);
      var e := ExtendedSize(short);
      if e == 0 {
        BodyHasDeclaredLength(head.data[0], HighBit(head.data[1]), short, net1);
      } else {
        PullExactReadsPrefix(e, [], net1);
        var (ext, net2) := PullExact(e, [], net1);
        if ext.Got? {
          UnpackBound(ext.data);
          PowersUsed();
          BodyHasDeclaredLength(head.data[0], HighBit(head.data[1]), Unpack(ext.data), net2);
        }
      }
    }
  }

  // ---- when it fails -----------------------------------------------------------------------------

  /** A network that hands over `n` bytes one by one and is silent once. */
  function OneByOne(n: nat): (script: seq<NetEvent>)
    ensures |script| == n + 1
    ensures forall i | 0 <= i < n :: script[i] == Deliver(1)
    ensures script[n] == Silence
  {
    seq(n, _ => Deliver(1)) + [Silence]
  }

  lemma {:induction false} PullOneByOne(size: nat, buffer: Bytes, net: Net, m: nat)
    requires |buffer| <= size && |net.rest| >= size - |buffer| && m >= size - |buffer|
    requires net.script == OneByOne(m)
    ensures PullExact(size, buffer, net)
         == (Got(buffer + net.rest[..size - |buffer|]),
             Net(net.rest[size - |buffer|..], OneByOne(m - (size - |buffer|))))
    decreases m
  {
    hide OneByOne;
    var k := size - |buffer|;
    if k > 0 {
      assert net.script[1..] == OneByOne(m - 1) by { OneByOneTail(m); }
      var next := Net(net.rest[1..], OneByOne(m - 1));
      assert Recv(net, k) == (Chunk(net.rest[..1]), next);
      PullOneByOne(size, buffer + net.rest[..1], next, m - 1);
      DropOfDrop(net.rest, 1, k - 1);
      assert (buffer + net.rest[..1]) + next.rest[..k - 1] == buffer + net.rest[..k];
    } else {
      assert buffer + net.rest[..0] == buffer;
    }
  }

  lemma OneByOneTail(m: nat)
    requires m > 0
    ensures OneByOne(m)[1..] == OneByOne(m - 1)
  {
  }

  /** When the key of a masked empty frame is late, the frame is returned without its key, which is
      left in the stream and will be read as the next header. */
  lemma LateKeyIsLeftBehind(s: Bytes)
    requires MaskedEmpty(s)
    ensures var h := 2 + ExtendedSize(ShortLength(s));
            PullFrame(Net(s, OneByOne(h))) == (AFrame(Frame(Low4(s[0]), [], HighBit(s[0]))), Net(s[h..], []))
  {
    hide OneByOne, Unpack, DeclaredLength, Masked;
    DeclaredLengthIs(s);
    var e := ExtendedSize(ShortLength(s));
    var net := Net(s, OneByOne(2 + e));
    PullOneByOne(2, [], net, 2 + e);
    var head := s[..2];
    assert [] + s[..2] == head;
    var net1 := Net(s[2..], OneByOne(e));
    assert PullExact(2, [], net) == (Got(head), net1);
    var net2 := Net(s[2 + e..], OneByOne(0));
    if e != 0 {
      PullOneByOne(e, [], net1, e);
      assert [] + s[2..][..e] == s[2..2 + e];
      assert s[2..][e..] == s[2 + e..];
      assert PullExact(e, [], net1) == (Got(s[2..2 + e]), net2);
    }
    assert OneByOne(0) == [Silence] && net2.script[1..] == [];
    var net3 := Net(s[2 + e..], []);
    assert Recv(net2, 4) == (RecvTimeout, net3);
    assert PullExact(4, [], net2) == (Nothing, net3);
    assert PullExact(0, [], net3) == (Got([]), net3);
    assert PullBody(s[0], true, 0, net2) == (AFrame(Frame(Low4(s[0]), [], HighBit(s[0]))), net3);
  }

  ghost predicate ReadsAsDecoded(s: Bytes, script: seq<NetEvent>) {
    var (r, net') := PullFrame(Net(s, script));
    r.AFrame? ==> FrameComplete(s) && r.frame == FirstFrame(s) && net'.rest == s[FrameSize(s)..]
  }

  /** Exactly which streams are read independently of the schedule: all those that do not start with
      a masked frame of declared length 0. */
  lemma ScheduleIndependentIff(s: Bytes)
    ensures (forall script :: ReadsAsDecoded(s, script)) <==> !MaskedEmpty(s)
  {
    if MaskedEmpty(s) {
      LateKeyIsLeftBehind(s);
      assert !ReadsAsDecoded(s, OneByOne(2 + ExtendedSize(ShortLength(s))));
    } else {
      forall script ensures ReadsAsDecoded(s, script) {
        FrameIsDecoded(Net(s, script));
      }
    }
  }

  // ---- streams of frames ---------------------------------------------------------------------------

  /** No frame of the stream is masked and empty; in particular every stream of unmasked frames. */
  predicate Plain(s: Bytes)
    decreases |s|
  {
    !MaskedEmpty(s) && (FrameComplete(s) ==> Plain(s[FrameSize(s)..]))
  }

  /** The frames that repeated calls of `_recv_frame` return, what they leave of the network, and
      whether the last of them raised. */
  datatype FrameRun = FrameRun(frames: seq<Frame>, net: Net, raised: bool) {
    function After(r: FrameResult): FrameRun {
      if r.AFrame? then this.(frames := [r.frame] + frames) else this
    }
  }

  function ReadFrames(net: Net): FrameRun
    decreases |net.script|
  {
    PullFrameProgress(net);
    var (r, net') := PullFrame(net);
    if r.FrameRaised? || |net'.script| == |net.script| then FrameRun([], net', r.FrameRaised?)
    else ReadFrames(net').After(r)
  }

  lemma FrameStep(net: Net)
    requires Plain(net.rest)
    ensures var (r, net') := PullFrame(net);
            && (r.AFrame? ==> DecodeAll(net.rest) == [r.frame] + DecodeAll(net'.rest) && Plain(net'.rest))
            && (r.NoFrame? ==> net'.rest == net.rest)
  {
    PullFrameProgress(net);
    FrameIsDecoded(net);
  }

  /** Schedule independence of a whole stream: under any chunking, timeouts and end of stream the
      frames read are a prefix of the frames of the stream read at once; and as long as no call raised,
      the others are all still in the stream. */
  lemma {:induction false} FramesAreAPrefix(net: Net)
    requires Plain(net.rest)
    ensures var run := ReadFrames(net);
            && run.frames <= DecodeAll(net.rest)
            && (!run.raised ==> run.frames + DecodeAll(run.net.rest) == DecodeAll(net.rest) && Plain(run.net.rest))
    decreases |net.script|
  {
    hide PullFrame, Plain, DecodeAll;
    PullFrameProgress(net);
    FrameStep(net);
    var (r, net') := PullFrame(net);
    if r.FrameRaised? {
    } else if |net'.script| == |net.script| {
      assert [] + DecodeAll(net'.rest) == DecodeAll(net'.rest);
    } else {
      FramesAreAPrefix(net');
      var run := ReadFrames(net');
      if r.AFrame? {
        assert ([r.frame] + run.frames) + DecodeAll(run.net.rest) == [r.frame] + (run.frames + DecodeAll(run.net.rest));
      }
    }
  }

  // ---- a network that keeps delivering ---------------------------------------------------------------

  /** Chunks of any size, no timeout and no end before the bytes are through. */
  predicate Patient(net: Net) {
    && (forall i | 0 <= i < |net.script| :: net.script[i].Deliver?)
    && |net.script| >= |net.rest|
  }

  lemma {:induction false} PatientPull(size: nat, buffer: Bytes, net: Net)
    requires |buffer| <= size && Patient(net) && |net.rest| >= size - |buffer|
    ensures var (r, net') := PullExact(size, buffer, net);
            && r.Got? && Patient(net')
            && r.data == buffer + net.rest[..size - |buffer|] && net'.rest == net.rest[size - |buffer|..]
    decreases |net.script|
  {
    PullExactReadsPrefix(size, buffer, net);
    if |buffer| < size {
      var (got, net') := Recv(net, size - |buffer|);
      PatientPull(size, buffer + got.data, net');
    }
  }

  lemma PatientBody(first: Byte, masked: bool, length: nat, net: Net)
    requires Patient(net) && |net.rest| >= (if masked then 4 else 0) + length
    ensures var (r, net') := PullBody(first, masked, length, net);
            && r == AFrame(BodyFrame(first, masked, length, net.rest)) && Patient(net')
            && net'.rest == net.rest[(if masked then 4 else 0) + length..]
  {
    hide PullExact, XorByte;
    if masked {
      PatientPull(4, [], net);
      var net2 := PullExact(4, [], net).1;
      PatientPull(length, [], net2);
      SliceOfDrop(net.rest, 4, 0, length);
      DropOfDrop(net.rest, 4, length);
      assert PullExact(4, [], net).0.data == net.rest[..4];
      assert PullExact(length, [], net2).0.data == net.rest[4..4 + length];
      if length == 0 {
        assert Masked(net.rest[4..4], net.rest[..4]) == [];
      }
    } else {
      PatientPull(length, [], net);
      assert PullExact(length, [], net).0.data == net.rest[..length];
    }
  }

  /** Every frame that is complete in the stream is read, masked or not. */
  lemma PatientFrame(net: Net)
    requires Patient(net) && FrameComplete(net.rest)
    ensures var (r, net') := PullFrame(net);
            r == AFrame(FirstFrame(net.rest)) && net'.rest == net.rest[FrameSize(net.rest)..] && Patient(net')
  {
    hide PullExact, PullBody, FirstFrame, BodyFrame, DeclaredLength, Unpack, Patient, HighBit, Low4, Low7;
    var s := net.rest;
    PatientPull(2, [], net);
    var (head, net1) := PullExact(2, [], net);
    assert head.data == s[..2];
    var e := ExtendedSize(ShortLength(s));
    FirstFrameFromBody(s);
    DeclaredLengthIs(s);
    if e == 0 {
      PatientBody(s[0], HighBit(s[1]), DeclaredLength(s), net1);
    } else {
      PatientPull(e, [], net1);
      var (ext, net2) := PullExact(e, [], net1);
      SliceOfDrop(s, 2, 0, e);
      DropOfDrop(s, 2, e);
      assert ext.data == s[2..2 + e];
      PatientBody(s[0], HighBit(s[1]), DeclaredLength(s), net2);
    }
  }

  lemma {:induction false} PatientFrames(net: Net)
    requires Patient(net) && EndsOnABoundary(net.rest)
    ensures var run := ReadFrames(net); run.frames == DecodeAll(net.rest) && run.net.rest == [] && !run.raised
    decreases |net.script|
  {
    PullFrameProgress(net);
    if net.rest != [] {
      PatientFrame(net);
      PatientFrames(PullFrame(net).1);
    } else if net.script != [] {
      var next := net.(script := net.script[1..]);
      assert Recv(net, 2) == (RecvTimeout, next);
      assert PullFrame(net) == (NoFrame, next);
      PatientFrames(next);
    }
  }

  /** The stream consists of complete frames. */
  predicate EndsOnABoundary(s: Bytes)
    decreases |s|
  {
    s == [] || (FrameComplete(s) && EndsOnABoundary(s[FrameSize(s)..]))
  }

  lemma {:induction false} EncodedEndsOnABoundary(fs: seq<Sent>, tail: Bytes)
    requires AllValid(fs) && EndsOnABoundary(tail)
    ensures EndsOnABoundary(EncodeAll(fs) + tail)
  {
    hide Encode, FrameSize, FrameComplete, FirstFrame;
    if fs == [] {
      assert EncodeAll(fs) + tail == tail;
    } else {
      var f, init := fs[|fs| - 1], fs[..|fs| - 1];
      assert f in fs;
      EncodeThenDecode(f, tail);
      EncodedEndsOnABoundary(init, Encode(f) + tail);
      assert EncodeAll(fs) + tail == EncodeAll(init) + (Encode(f) + tail);
    }
  }

  /** Frame round trip over the wire: any frames the encoder sent are read back exactly, in order and
      with nothing left over, whatever the chunks in which the bytes arrive. */
  lemma WireRoundTrip(fs: seq<Sent>, script: seq<NetEvent>)
    requires AllValid(fs) && Patient(Net(EncodeAll(fs), script))
    ensures var run := ReadFrames(Net(EncodeAll(fs), script));
            run.frames == Frames(fs) && run.net.rest == [] && !run.raised
  {
    EncodedEndsOnABoundary(fs, []);
    assert EncodeAll(fs) + [] == EncodeAll(fs);
    PatientFrames(Net(EncodeAll(fs), script));
    StreamRoundTrip(fs);
  }
}
