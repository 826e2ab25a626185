/**
 WebSocket frames as sections 5.2 and 5.3 of RFC 6455 define them: the layout of a frame, its decoder,
 and the round trip between the two.
 */
module WebSocketFrame {
  import opened Bits
  import opened Common
  import opened NetworkOrder

  type Key = k: seq<Byte> | |k| == 4 witness [0, 0, 0, 0]

  datatype Frame = Frame(fin: bool, rsv: nat, opcode: nat, key: Option<Key>, payload: seq<Byte>) {
    ghost predicate Valid() { rsv < 8 && opcode < 16 && |payload| < 0x8000_0000_0000_0000 }
  }

  // ---------------------------------------------------------------------------
  // Section 5.2: opcodes
  // ---------------------------------------------------------------------------

  datatype Meaning = Continuation | TextData | BinaryData | ConnectionClose | Ping | Pong | Reserved

  function MeaningOf(opcode: nat): Meaning {
    match opcode
    case 0 => Continuation
    case 1 => TextData
    case 2 => BinaryData
    case 8 => ConnectionClose
    case 9 => Ping
    case 10 => Pong
    case _ => Reserved
  }

  /** The frame starts a message of its own: section 5.6. */
  predicate StartsMessage(opcode: nat) { MeaningOf(opcode) in {TextData, BinaryData} }

  // ---------------------------------------------------------------------------
  // Section 5.3: masking
  // ---------------------------------------------------------------------------

  function Masked(s: seq<Byte>, key: Key): (r: seq<Byte>)
    ensures |r| == |s|
  {
    seq(|s|, i requires 0 <= i < |s| => XorByte(s[i], key[i % 4]))
  }

  lemma MaskTwice(s: seq<Byte>, key: Key)
    ensures Masked(Masked(s, key), key) == s
  {
    forall i | 0 <= i < |s|
      ensures Masked(Masked(s, key), key)[i] == s[i]
    {
      XorInvolution(s[i], key[i % 4]);
    }
  }

  // ---------------------------------------------------------------------------
  // Section 5.2: the layout of a frame
  // ---------------------------------------------------------------------------

  /** The length in its shortest form: 7 bits, or 7 + 16, or 7 + 64. */
  function LengthCode(n: nat): (code: nat)
    ensures code < 128
  {
    if n <= 125 then n else if n <= 0xFFFF then 126 else 127
  }

  function LengthBytes(n: nat): seq<Byte> {
    if n <= 125 then [] else if n <= 0xFFFF then BigEndian(n, 2) else BigEndian(n, 8)
  }

  function KeyBytes(key: Option<Key>): seq<Byte> { if key.Some? then key.value else [] }

  function MaskedBy(payload: seq<Byte>, key: Option<Key>): (r: seq<Byte>)
    ensures |r| == |payload|
  {
    if key.Some? then Masked(payload, key.value) else payload
  }

  function FirstByte(fin: bool, rsv: nat, opcode: nat): Byte
    requires rsv < 8 && opcode < 16
  {
    (if fin then 128 else 0) + rsv * 16 + opcode
  }

  function SecondByte(masked: bool, code: nat): Byte
    requires code < 128
  {
    (if masked then 128 else 0) + code
  }

  ghost function HeaderBytes(f: Frame): seq<Byte>
    requires f.Valid()
  {
    var n := |f.payload|;
    [FirstByte(f.fin, f.rsv, f.opcode), SecondByte(f.key.Some?, LengthCode(n))] + LengthBytes(n) + KeyBytes(f.key)
  }

  ghost function FrameBytes(f: Frame): seq<Byte>
    requires f.Valid()
  {
    HeaderBytes(f) + MaskedBy(f.payload, f.key)
  }

  // ---------------------------------------------------------------------------
  // Section 5.2: the decoder
  // ---------------------------------------------------------------------------

  /** The number of bytes of the extended length for a 7-bit length code. */
  function ExtraLength(code: nat): nat { if code == 126 then 2 else if code == 127 then 8 else 0 }

  /** The fields of a header: where the key starts, and the length of the payload. */
  datatype Layout = Layout(code: nat, keyAt: nat, length: nat)

  /** The layout of the frame at the start of `s`, if enough of it is there. */
  function LayoutOf(s: seq<Byte>): Option<Layout> {
    if |s| < 2 then None
    else
      var code := s[1] % 128;
      var keyAt := 2 + ExtraLength(code);
      if |s| < keyAt then None
      else Some(Layout(code, keyAt, if code <= 125 then code else FromBigEndian(s[2..keyAt])))
  }

  /** The frame at the start of `s` and the number of its bytes, if all of it is there. */
  function ParseFrame(s: seq<Byte>): Option<(Frame, nat)> {
    var layout := LayoutOf(s);
    if layout == None then None
    else
      var Layout(_, keyAt, length) := layout.value;
      var masked := 128 <= s[1];
      var start := if masked then keyAt + 4 else keyAt;
      if |s| < start + length then None
      else
        var key: Option<Key> := if masked then Some(s[keyAt..keyAt + 4]) else None;
        Some((Frame(128 <= s[0], s[0] / 16 % 8, s[0] % 16, key, MaskedBy(s[start..start + length], key)), start + length))
  }

  lemma FirstByteFields(fin: bool, rsv: nat, opcode: nat)
    requires rsv < 8 && opcode < 16
    ensures
      var b := FirstByte(fin, rsv, opcode);
      (128 <= b <==> fin) && b / 16 % 8 == rsv && b % 16 == opcode
  {
  }

  lemma LengthRoundTrip(n: nat, s: seq<Byte>, b0: Byte, masked: bool, rest: seq<Byte>)
    requires n < 0x8000_0000_0000_0000
    requires s == [b0, SecondByte(masked, LengthCode(n))] + LengthBytes(n) + rest
    ensures LayoutOf(s) == Some(Layout(LengthCode(n), 2 + |LengthBytes(n)|, n))
    ensures (128 <= s[1] <==> masked) && s[0] == b0
  {
    hide BigEndian, FromBigEndian;
    var code := LengthCode(n);
    assert s[1] == SecondByte(masked, code) && s[1] % 128 == code;
    var keyAt := 2 + ExtraLength(code);
    assert |LengthBytes(n)| == ExtraLength(code);
    assert s[2..keyAt] == LengthBytes(n);
    Powers();
    if 125 < n {
      BigEndianRoundTrip(n, ExtraLength(code));
    }
  }

  /** Decoding the bytes of a frame, whatever follows them, gives the frame and exactly its bytes. */
  lemma FrameRoundTrip(f: Frame, rest: seq<Byte>)
    requires f.Valid()
    ensures ParseFrame(FrameBytes(f) + rest) == Some((f, |FrameBytes(f)|))
  {
    hide LengthBytes, LengthCode, LayoutOf, Masked;
    var s, n := FrameBytes(f) + rest, |f.payload|;
    var code, extra, key := LengthCode(n), LengthBytes(n), KeyBytes(f.key);
    var body := MaskedBy(f.payload, f.key);
    var first := FirstByte(f.fin, f.rsv, f.opcode);
    assert s == [first, SecondByte(f.key.Some?, code)] + extra + (key + body + rest);
    LengthRoundTrip(n, s, first, f.key.Some?, key + body + rest);
    FirstByteFields(f.fin, f.rsv, f.opcode);
    var keyAt := 2 + |extra|;
    var start := keyAt + |key|;
    assert s[keyAt..start] == key;
    assert s[start..start + n] == body;
    if f.key.Some? {
      MaskTwice(f.payload, f.key.value);
    }
  }

  // ---------------------------------------------------------------------------
  // The examples of section 5.7 of RFC 6455
  // ---------------------------------------------------------------------------

  const HELLO: seq<Byte> := [0x48, 0x65, 0x6c, 0x6c, 0x6f]

  /** A single-frame unmasked text message. */
  lemma PublishedText()
    ensures FrameBytes(Frame(true, 0, 1, None, HELLO)) == [0x81, 0x05, 0x48, 0x65, 0x6c, 0x6c, 0x6f]
  {
  }

  /** The same message masked. */
  lemma PublishedMaskedText()
    ensures
      FrameBytes(Frame(true, 0, 1, Some([0x37, 0xfa, 0x21, 0x3d]), HELLO))
      == [0x81, 0x85, 0x37, 0xfa, 0x21, 0x3d, 0x7f, 0x9f, 0x4d, 0x51, 0x58]
  {
    var key: Key := [0x37, 0xfa, 0x21, 0x3d];
    HelloMasked(key);
    hide Masked;
    assert FrameBytes(Frame(true, 0, 1, Some(key), HELLO)) == [0x81, 0x85] + [] + key + Masked(HELLO, key);
  }

  lemma HelloMasked(key: Key)
    requires key == [0x37, 0xfa, 0x21, 0x3d]
    ensures Masked(HELLO, key) == [0x7f, 0x9f, 0x4d, 0x51, 0x58]
  {
    hide Xor, XorByte;
    FirstDigits();
    LastDigits();
    ByteXor(0x48, 0x37, 4, 8, 3, 7, 7, 0xf);
    ByteXor(0x65, 0xfa, 6, 5, 0xf, 0xa, 9, 0xf);
    ByteXor(0x6c, 0x21, 6, 0xc, 2, 1, 4, 0xd);
    ByteXor(0x6c, 0x3d, 6, 0xc, 3, 0xd, 5, 1);
    ByteXor(0x6f, 0x37, 6, 0xf, 3, 7, 5, 8);
    var m := Masked(HELLO, key);
    assert m[0] == 0x7f && m[1] == 0x9f && m[2] == 0x4d && m[3] == 0x51 && m[4] == 0x58;
  }

  lemma FirstDigits()
    ensures Xor(4, 3) == 7 && Xor(6, 0xf) == 9 && Xor(6, 2) == 4 && Xor(6, 3) == 5
  {
  }

  lemma LastDigits()
    ensures Xor(8, 7) == 0xf && Xor(5, 0xa) == 0xf && Xor(0xc, 1) == 0xd && Xor(0xc, 0xd) == 1 && Xor(0xf, 7) == 8
  {
  }

  /** Exclusive or of two bytes by their hexadecimal digits. */
  lemma ByteXor(x: Byte, y: Byte, a: nat, b: nat, c: nat, d: nat, p: nat, q: nat)
    requires a < 16 && b < 16 && c < 16 && d < 16 && x == 16 * a + b && y == 16 * c + d
    requires Xor(a, c) == p && Xor(b, d) == q
    ensures XorByte(x, y) == 16 * p + q
  {
    hide And, Xor;
    BitwiseDigit(a, c, b, d);
  }

  /** The headers of 256 bytes and of 64 KiB of binary data in a single unmasked frame. */
  lemma PublishedLengths(x: seq<Byte>, y: seq<Byte>)
    requires |x| == 256 && |y| == 65536
    ensures HeaderBytes(Frame(true, 0, 2, None, x)) == [0x82, 0x7e, 0x01, 0x00]
    ensures HeaderBytes(Frame(true, 0, 2, None, y)) == [0x82, 0x7f, 0, 0, 0, 0, 0, 1, 0, 0]
  {
    hide BigEndian;
    BigEndian2(256);
    BigEndian8(65536);
  }
}
