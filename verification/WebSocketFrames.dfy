/** Frames of the WebSocket protocol as bytes: the encoder of `_send_frame` and a decoder that sees
    the whole stream at once (src/agent_keepalive/ws.py:128-179; sections 5.2 and 5.3 of RFC 6455). */
module WebSocketFrames {
  import opened Prelude

  type Byte = n: nat | n < 256
  type Bytes = seq<Byte>

  // The bit operations of the code on one byte, in arithmetic.

  /** `b & 0x80 != 0` */
  predicate HighBit(b: Byte) { b >= 128 }

  /** `b & 0x7F` */
  function Low7(b: Byte): Byte { b % 128 }

  /** `b & 0x0F` */
  function Low4(b: Byte): Byte { b % 16 }

  /** `0x80 | b` */
  function SetHighBit(b: Byte): Byte { if b < 128 then b + 128 else b }

  /** `a ^ b`, bit by bit. */
  function Xor(a: nat, b: nat): nat
    decreases a + b
  {
    if a == 0 && b == 0 then 0 else 2 * Xor(a / 2, b / 2) + (a % 2 + b % 2) % 2
  }

  function Pow2(m: nat): nat {
    if m == 0 then 1 else 2 * Pow2(m - 1)
  }

  lemma {:induction false} XorBound(a: nat, b: nat, m: nat)
    requires a < Pow2(m) && b < Pow2(m)
    ensures Xor(a, b) < Pow2(m)
  {
    if m > 0 {
      XorBound(a / 2, b / 2, m - 1);
    }
  }

  function XorByte(a: Byte, b: Byte): Byte {
    assert Pow2(8) == 256 by { assert Pow2(4) == 16 && Pow2(6) == 64; }
    XorBound(a, b, 8);
    Xor(a, b)
  }

  /** Bit `i` of a number, the lowest one being bit 0. */
  function Bit(n: nat, i: nat): nat {
    PowerIsPositive(i);
    n / Pow2(i) % 2
  }

  lemma {:induction false} PowerIsPositive(i: nat)
    ensures Pow2(i) > 0
  {
    if i > 0 {
      PowerIsPositive(i - 1);
    }
  }

  lemma HalfThenRest(n: nat, p: nat)
    requires p > 0
    ensures n / (2 * p) == n / 2 / p
  {
    var q, r := n / (2 * p), n % (2 * p);
    assert n == q * (2 * p) + r;
    assert n / 2 == q * p + r / 2 by {
      assert n == 2 * (q * p) + r;
    }
    assert r / 2 < p;
    UniqueQuotient(n / 2, p, q, r / 2);
  }

  lemma UniqueQuotient(n: nat, p: nat, q: nat, r: nat)
    requires n == q * p + r && r < p
    ensures n / p == q
  {
    var d := n / p - q;
    assert n == (n / p) * p + n % p;
    assert d * p == r - n % p;
    if d != 0 {
      MultipleIsFar(d, p);
    }
  }

  lemma MultipleIsFar(d: int, p: int)
    requires d != 0 && p > 0
    ensures d * p >= p || d * p <= 0 - p
  {
    if d > 0 {
      ProductIsAtLeast(d, p);
    } else {
      ProductIsAtLeast(0 - d, p);
      assert d * p == 0 - (0 - d) * p;
    }
  }

  lemma {:induction false} ProductIsAtLeast(d: int, p: int)
    requires d >= 1 && p > 0
    ensures d * p >= p
    decreases d
  {
    if d > 1 {
      ProductIsAtLeast(d - 1, p);
    }
  }

  lemma HigherBit(n: nat, i: nat)
    requires i > 0
    ensures Bit(n, i) == Bit(n / 2, i - 1)
  {
    PowerIsPositive(i - 1);
    HalfThenRest(n, Pow2(i - 1));
  }

  lemma {:induction false} XorBit(a: nat, b: nat, i: nat)
    ensures Bit(Xor(a, b), i) == (Bit(a, i) + Bit(b, i)) % 2
    decreases i
  {
    hide Bit, Xor;
    XorHalves(a, b);
    if i == 0 {
      LowestBit(a);
      LowestBit(b);
      LowestBit(Xor(a, b));
    } else {
      HigherBit(Xor(a, b), i);
      HigherBit(a, i);
      HigherBit(b, i);
      XorBit(a / 2, b / 2, i - 1);
    }
  }

  lemma LowestBit(n: nat)
    ensures Bit(n, 0) == n % 2
  {
  }

  lemma XorHalves(a: nat, b: nat)
    ensures Xor(a, b) / 2 == Xor(a / 2, b / 2) && Xor(a, b) % 2 == (a % 2 + b % 2) % 2
  {
    hide Xor;
    XorStep(a / 2, a % 2, b / 2, b % 2);
    assert a == 2 * (a / 2) + a % 2 && b == 2 * (b / 2) + b % 2;
  }

  datatype Frame = Frame(opcode: Byte, payload: Bytes, finished: bool)

  /** A frame as the client sends it: unfragmented and masked. */
  datatype Sent = Sent(opcode: Byte, payload: Bytes, mask: Bytes) {
    ghost predicate Valid() {
      opcode < 16 && |mask| == 4 && |payload| < 0x1_0000_0000_0000_0000
    }

    function AsFrame(): Frame {
      Frame(opcode, payload, true)
    }
  }

  // ---- numbers in network byte order -------------------------------------------------------

  function Pow256(k: nat): (r: nat)
    ensures r > 0
  {
    if k == 0 then 1 else 256 * Pow256(k - 1)
  }

  /** `struct.pack` with "!H" and "!Q". */
  function Pack(n: nat, k: nat): (s: Bytes)
    ensures |s| == k
  {
    if k == 0 then [] else Pack(n / 256, k - 1) + [n % 256]
  }

  function Unpack(s: Bytes): (n: nat)
  {
    if s == [] then 0 else 256 * Unpack(s[..|s| - 1]) + s[|s| - 1]
  }

  lemma {:induction false} PackRoundTrip(n: nat, k: nat)
    requires n < Pow256(k)
    ensures Unpack(Pack(n, k)) == n
  {
    if k > 0 {
      PackRoundTrip(n / 256, k - 1);
      assert Pack(n, k)[..k - 1] == Pack(n / 256, k - 1);
    }
  }

  lemma PowersUsed()
    ensures Pow256(2) == 0x1_0000 && Pow256(8) == 0x1_0000_0000_0000_0000
  {
    assert Pow256(4) == 0x1_0000_0000;
    assert Pow256(6) == 0x1_0000_0000_0000;
  }

  // ---- masking -------------------------------------------------------------------------------

  function Masked(payload: Bytes, key: Bytes): (r: Bytes)
    requires |key| > 0
    ensures |r| == |payload|
  {
    seq(|payload|, i requires 0 <= i < |payload| => XorByte(payload[i], key[i % |key|]))
  }

  lemma XorStep(x: nat, p: nat, y: nat, q: nat)
    requires p < 2 && q < 2
    ensures Xor(2 * x + p, 2 * y + q) == 2 * Xor(x, y) + (p + q) % 2
  {
    assert (2 * x + p) / 2 == x && (2 * y + q) / 2 == y;
  }

  lemma XorBits(x: nat, p: nat, y: nat, q: nat)
    requires p < 2 && q < 2 && Xor(Xor(x, y), y) == x
    ensures Xor(Xor(2 * x + p, 2 * y + q), 2 * y + q) == 2 * x + p
  {
    hide Xor;
    XorStep(x, p, y, q);
    var r := (p + q) % 2;
    XorStep(Xor(x, y), r, y, q);
    BitTwice(p, q);
  }

  lemma {:induction false} XorTwice(a: nat, b: nat)
    ensures Xor(Xor(a, b), b) == a
    decreases a + b
  {
    if a == 0 && b == 0 {
    } else {
      hide Xor;
      var x, p, y, q := a / 2, a % 2, b / 2, b % 2;
      XorTwice(x, y);
      XorBits(x, p, y, q);
    }
  }

  lemma BitTwice(p: nat, q: nat)
    requires p < 2 && q < 2
    ensures ((p + q) % 2 + q) % 2 == p
  {
    if q == 1 && p == 1 {
      assert (p + q) % 2 == 0;
    }
  }

  /** Masking undoes itself (section 5.3). */
  lemma MaskTwice(payload: Bytes, key: Bytes)
    requires |key| > 0
    ensures Masked(Masked(payload, key), key) == payload
  {
    forall i | 0 <= i < |payload| ensures Masked(Masked(payload, key), key)[i] == payload[i] {
      XorTwice(payload[i], key[i % |key|]);
    }
  }

  // ---- the encoder -----------------------------------------------------------------------------

  /** The second byte, with the mask bit, and the extended length. */
  function LengthField(n: nat, masked: bool): Bytes
  {
    if n < 126 then [MarkedIf(masked, n)]
    else if n < 0x1_0000 then [MarkedIf(masked, 126)] + Pack(n, 2)
    else [MarkedIf(masked, 127)] + Pack(n, 8)
  }

  function MarkedIf(on: bool, b: Byte): Byte {
    if on then SetHighBit(b) else b
  }

  function Encode(f: Sent): Bytes
    requires f.mask != []
  {
    [SetHighBit(f.opcode)] + LengthField(|f.payload|, true) + f.mask + Masked(f.payload, f.mask)
  }

  function EncodeAll(fs: seq<Sent>): Bytes
    requires forall f | f in fs :: f.mask != []
  {
    if fs == [] then [] else EncodeAll(fs[..|fs| - 1]) + Encode(fs[|fs| - 1])
  }

  // ---- the decoder, on a whole stream ------------------------------------------------------------

  predicate MaskBit(s: Bytes)
    requires |s| >= 2
  {
    HighBit(s[1])
  }

  /** The seven low bits of the second byte. */
  function ShortLength(s: Bytes): nat
    requires |s| >= 2
  {
    Low7(s[1])
  }

  function ExtendedSize(short: nat): nat {
    if short == 126 then 2 else if short == 127 then 8 else 0
  }

  /** First byte, second byte and extended length are all there. */
  predicate HeaderComplete(s: Bytes) {
    |s| >= 2 && |s| >= 2 + ExtendedSize(ShortLength(s))
  }

  function DeclaredLength(s: Bytes): nat
    requires HeaderComplete(s)
  {
    var e := ExtendedSize(ShortLength(s));
    if e == 0 then ShortLength(s) else Unpack(s[2..2 + e])
  }

  function KeySize(s: Bytes): nat
    requires |s| >= 2
  {
    if MaskBit(s) then 4 else 0
  }

  /** How many bytes the first frame of a stream takes. */
  function FrameSize(s: Bytes): nat
    requires HeaderComplete(s)
  {
    2 + ExtendedSize(ShortLength(s)) + KeySize(s) + DeclaredLength(s)
  }

  predicate FrameComplete(s: Bytes) {
    HeaderComplete(s) && |s| >= FrameSize(s)
  }

  /** The first frame of a stream that holds all of it. */
  function FirstFrame(s: Bytes): Frame
    requires FrameComplete(s)
  {
    var k := 2 + ExtendedSize(ShortLength(s));
    var p := k + KeySize(s);
    var body := s[p..FrameSize(s)];
    Frame(Low4(s[0]), if MaskBit(s) then Masked(body, s[k..p]) else body, HighBit(s[0]))
  }

  /** All the frames of a stream, up to the first that is cut off. */
  function DecodeAll(s: Bytes): seq<Frame>
    decreases |s|
  {
    if !FrameComplete(s) then [] else [FirstFrame(s)] + DecodeAll(s[FrameSize(s)..])
  }

  /** What the bytes after header and length decode to. */
  function BodyFrame(first: Byte, masked: bool, length: nat, s: Bytes): Frame
    requires |s| >= (if masked then 4 else 0) + length
  {
    Frame(Low4(first), if masked then Masked(s[4..4 + length], s[..4]) else s[..length], HighBit(first))
  }

  /** The first frame of a stream, from the bytes after its header and length. */
  lemma FirstFrameFromBody(s: Bytes)
    requires HeaderComplete(s)
    ensures var h, k, n := 2 + ExtendedSize(ShortLength(s)), KeySize(s), DeclaredLength(s);
            && (FrameComplete(s) <==> |s[h..]| >= k + n)
            && (FrameComplete(s) ==>
                FirstFrame(s) == BodyFrame(s[0], HighBit(s[1]), n, s[h..]) && s[FrameSize(s)..] == s[h..][k + n..])
  {
    hide Masked, Unpack, DeclaredLength;
    var h, k, n := 2 + ExtendedSize(ShortLength(s)), KeySize(s), DeclaredLength(s);
    if |s| >= h + k + n {
      SliceOfDrop(s, h, k, k + n);
      SliceOfDrop(s, h, 0, k);
      SliceOfDrop(s, h, 0, n);
      DropOfDrop(s, h, k + n);
    }
  }

  lemma DeclaredLengthIs(s: Bytes)
    requires HeaderComplete(s)
    ensures ExtendedSize(ShortLength(s)) == 0 ==> DeclaredLength(s) == ShortLength(s)
    ensures ExtendedSize(ShortLength(s)) != 0 ==> DeclaredLength(s) == Unpack(s[2..2 + ExtendedSize(ShortLength(s))])
  {
  }

  // ---- the round trip --------------------------------------------------------------------------

  lemma MarkIsRead(on: bool, b: Byte)
    requires b < 128
    ensures HighBit(MarkedIf(on, b)) == on && Low7(MarkedIf(on, b)) == b
  {
  }

  /** A header with an extended length of `k` bytes, which is none for short lengths. */
  lemma HeaderIsRead(first: Byte, short: Byte, masked: bool, n: nat, tail: Bytes)
    requires short < 128
    requires ExtendedSize(short) == 0 ==> n == short
    requires n < Pow256(ExtendedSize(short)) || ExtendedSize(short) == 0
    ensures var k := ExtendedSize(short);
            var s := [first, MarkedIf(masked, short)] + (if k == 0 then [] else Pack(n, k)) + tail;
            && HeaderComplete(s) && MaskBit(s) == masked && DeclaredLength(s) == n
            && ExtendedSize(ShortLength(s)) == k
  {
    hide Pack, Unpack, Pow256, HighBit, Low7, MarkedIf;
    MarkIsRead(masked, short);
    var k := ExtendedSize(short);
    var s := [first, MarkedIf(masked, short)] + (if k == 0 then [] else Pack(n, k)) + tail;
    if k != 0 {
      PackRoundTrip(n, k);
      assert s[2..2 + k] == Pack(n, k);
    }
  }

  /** A stream that starts with a length field declares that length, masked or not. */
  lemma LengthFieldIsRead(first: Byte, n: nat, masked: bool, tail: Bytes)
    requires n < 0x1_0000_0000_0000_0000
    ensures var s := [first] + LengthField(n, masked) + tail;
            && HeaderComplete(s) && MaskBit(s) == masked && DeclaredLength(s) == n
            && 2 + ExtendedSize(ShortLength(s)) == 1 + |LengthField(n, masked)|
  {
    hide Pack, Pow256, HighBit, Low7, MarkedIf, DeclaredLength, MaskBit, HeaderComplete, ShortLength;
    PowersUsed();
    var short := if n < 126 then n else if n < 0x1_0000 then 126 else 127;
    var k := ExtendedSize(short);
    HeaderIsRead(first, short, masked, n, tail);
    assert [first] + LengthField(n, masked) + tail
        == [first, MarkedIf(masked, short)] + (if k == 0 then [] else Pack(n, k)) + tail;
  }

  lemma {:induction false} PackAt(n: nat, k: nat, i: nat)
    requires i < k
    ensures Pack(n, k)[i] == n / Pow256(k - 1 - i) % 256
  {
    if i < k - 1 {
      PackAt(n / 256, k - 1, i);
      NestedDivision(n, 256, Pow256(k - 2 - i));
    }
  }

  lemma NestedDivision(n: nat, m: nat, p: nat)
    requires m > 0 && p > 0
    ensures m * p > 0 && n / (m * p) == n / m / p
  {
    var q, r := n / m / p, n / m % p;
    assert m * p > 0;
    assert n == (q * p + r) * m + n % m;
    assert (q * p + r) * m == q * (m * p) + r * m;
    assert r * m + n % m < m * p by {
      assert r * m <= (p - 1) * m;
      assert (p - 1) * m == m * p - m;
    }
    UniqueQuotient(n, m * p, q, r * m + n % m);
  }

  // ---- the bytes themselves ----------------------------------------------------------------------

  /** `x` is `a ^ b`: every bit is the sum of theirs. */
  ghost predicate IsXor(x: Byte, a: Byte, b: Byte) {
    forall i: nat | i < 8 :: Bit(x, i) == (Bit(a, i) + Bit(b, i)) % 2
  }

  /** The bytes start with the first two of a frame and its length, in network byte order and the shortest
      form: `first` is the first byte, and 128 is added to the second one under a mask. */
  ghost predicate HeaderBytes(s: Bytes, first: nat, n: nat, masked: bool, h: nat) {
    var mark := if masked then 128 else 0;
    && h == (if n < 126 then 2 else if n < 65536 then 4 else 10) && |s| >= h
    && s[0] == first
    && (n < 126 ==> s[1] == mark + n)
    && (126 <= n < 65536 ==> s[1] == mark + 126 && s[2] == n / 256 % 256 && s[3] == n % 256)
    && (65536 <= n ==> s[1] == mark + 127 && forall i | 2 <= i < 10 :: s[i] == n / Pow256(9 - i) % 256)
  }

  /** The bytes are a frame as a client has to send it (sections 5.2 and 5.3): final, with this opcode, the
      length of the payload, the mask, and each byte of the payload under the byte of the mask that its
      position selects. */
  ghost predicate ClientBytes(s: Bytes, opcode: Byte, payload: Bytes, mask: Bytes) {
    var n := |payload|;
    var h := if n < 126 then 2 else if n < 65536 then 4 else 10;
    && |mask| == 4 && |s| == h + 4 + n && HeaderBytes(s, 128 + opcode, n, true, h)
    && (forall i | 0 <= i < 4 :: s[h + i] == mask[i])
    && forall i | 0 <= i < n :: IsXor(s[h + 4 + i], payload[i], mask[i % 4])
  }

  lemma MaskedByte(payload: Bytes, mask: Bytes, i: nat)
    requires |mask| == 4 && i < |payload|
    ensures IsXor(Masked(payload, mask)[i], payload[i], mask[i % 4])
  {
    hide Bit, Xor;
    forall b: nat | b < 8
      ensures Bit(Masked(payload, mask)[i], b) == (Bit(payload[i], b) + Bit(mask[i % 4], b)) % 2
    {
      XorBit(payload[i], mask[i % 4], b);
    }
  }

  lemma HeaderIsWritten(first: Byte, n: nat, masked: bool, tail: Bytes)
    requires n < 0x1_0000_0000_0000_0000
    ensures HeaderBytes([first] + LengthField(n, masked) + tail, first, n, masked, 1 + |LengthField(n, masked)|)
  {
    hide Pack;
    if n < 126 {
    } else if n < 65536 {
      PackAt(n, 2, 0);
      PackAt(n, 2, 1);
      assert Pow256(0) == 1 && Pow256(1) == 256;
    } else {
      forall i: nat | i < 8 ensures Pack(n, 8)[i] == n / Pow256(7 - i) % 256 {
        PackAt(n, 8, i);
      }
    }
  }

  /** What the encoder makes of a frame are such bytes. */
  lemma EncodedBytes(f: Sent)
    requires f.Valid()
    ensures ClientBytes(Encode(f), f.opcode, f.payload, f.mask)
  {
    hide LengthField, Masked, IsXor, Pow256;
    var n, s := |f.payload|, Encode(f);
    var field, body := LengthField(n, true), Masked(f.payload, f.mask);
    assert s == [SetHighBit(f.opcode)] + field + (f.mask + body);
    HeaderIsWritten(SetHighBit(f.opcode), n, true, f.mask + body);
    var h := 1 + |field|;
    assert HeaderBytes(s, 128 + f.opcode, n, true, h);
    assert s[h..] == f.mask + body;
    forall i | 0 <= i < 4 ensures s[h + i] == f.mask[i] {
      assert s[h..][i] == f.mask[i];
    }
    forall i | 0 <= i < n ensures IsXor(s[h + 4 + i], f.payload[i], f.mask[i % 4]) {
      assert s[h..][4 + i] == body[i];
      MaskedByte(f.payload, f.mask, i);
    }
  }

  /** Decoding what was encoded gives the frame back, whatever follows it in the stream. */
  lemma EncodeThenDecode(f: Sent, tail: Bytes)
    requires f.Valid()
    ensures var s := Encode(f) + tail;
            FrameComplete(s) && FirstFrame(s) == f.AsFrame() && s[FrameSize(s)..] == tail
  {
    hide LengthField, DeclaredLength, ShortLength, FirstFrame, XorByte;
    var n := |f.payload|;
    var s := Encode(f) + tail;
    var body := f.mask + Masked(f.payload, f.mask) + tail;
    assert s == [SetHighBit(f.opcode)] + LengthField(n, true) + body;
    LengthFieldIsRead(SetHighBit(f.opcode), n, true, body);
    FirstFrameFromBody(s);
    assert s[1 + |LengthField(n, true)|..] == body;
    BodyOfEncoded(f, tail);
  }

  lemma BodyOfEncoded(f: Sent, tail: Bytes)
    requires f.Valid()
    ensures var body := f.mask + Masked(f.payload, f.mask) + tail;
            && BodyFrame(SetHighBit(f.opcode), true, |f.payload|, body) == f.AsFrame()
            && body[4 + |f.payload|..] == tail
  {
    hide XorByte;
    var body := f.mask + Masked(f.payload, f.mask) + tail;
    assert body[..4] == f.mask;
    assert body[4..4 + |f.payload|] == Masked(f.payload, f.mask);
    MaskTwice(f.payload, f.mask);
  }

  ghost predicate AllValid(fs: seq<Sent>) {
    forall f | f in fs :: f.Valid()
  }

  function Frames(fs: seq<Sent>): (r: seq<Frame>)
    ensures |r| == |fs|
  {
    if fs == [] then [] else Frames(fs[..|fs| - 1]) + [fs[|fs| - 1].AsFrame()]
  }

  /** Decoding is a morphism on streams whose first part is whole encoded frames. */
  lemma {:induction false} DecodeAllEncoded(fs: seq<Sent>, tail: Bytes)
    requires AllValid(fs)
    ensures DecodeAll(EncodeAll(fs) + tail) == Frames(fs) + DecodeAll(tail)
  {
    hide Encode, FirstFrame, FrameSize, FrameComplete;
    if fs == [] {
      assert EncodeAll(fs) + tail == tail;
    } else {
      var f, init := fs[|fs| - 1], fs[..|fs| - 1];
      assert f in fs;
      DecodeAllEncoded(init, Encode(f) + tail);
      EncodeThenDecode(f, tail);
      assert EncodeAll(fs) + tail == EncodeAll(init) + (Encode(f) + tail);
    }
  }

  /** Frame round trip on streams: every sequence of frames comes back as it was sent. */
  lemma StreamRoundTrip(fs: seq<Sent>)
    requires AllValid(fs)
    ensures DecodeAll(EncodeAll(fs)) == Frames(fs)
  {
    DecodeAllEncoded(fs, []);
    assert EncodeAll(fs) + [] == EncodeAll(fs);
    assert DecodeAll([]) == [];
  }

  // ---- the shortest form -------------------------------------------------------------------------

  lemma {:induction false} UnpackBound(s: Bytes)
    ensures Unpack(s) < Pow256(|s|)
  {
    if s != [] {
      UnpackBound(s[..|s| - 1]);
    }
  }

  /** The encoder always picks the shortest of the three length forms (section 5.2): no masked byte
      string that decodes to the same frame is shorter. */
  lemma EncodingIsShortest(f: Sent, s: Bytes)
    requires f.Valid()
    requires FrameComplete(s) && FrameSize(s) == |s| && MaskBit(s) && FirstFrame(s) == f.AsFrame()
    ensures |Encode(f)| <= |s|
  {
    var n := |f.payload|;
    assert DeclaredLength(s) == n;
    PowersUsed();
    if ExtendedSize(ShortLength(s)) == 2 {
      UnpackBound(s[2..4]);
    }
  }
}
