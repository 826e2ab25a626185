/**
 The WebSocket layer of core/websocket.cpp and core/websocket.hpp. Reads and writes may be split in any
 way: a `Socket` answers each call with a number of bytes of its own choice.

 `Receive` says what `receive_cmd` makes of the bytes that come in, whatever they are.
 */
module WebSocket {
  import opened Bits
  import opened Common
  import opened NetworkOrder
  import opened Sockets
  import opened WebSocketFrame

  const READ_STR_LEN: nat := 131072
  const SEND_BUF_LEN: nat := 131072
  const LARGEST_PAYLOAD: nat := 131016
  const READ_LIMIT: nat := 16384
  const HEADER_SIZE: nat := 8

  // ---------------------------------------------------------------------------
  // Receiving, on values
  // ---------------------------------------------------------------------------

  datatype Received = Got(payload: seq<Byte>, used: nat) | Closed | Rejected

  /** `be64toh` into a signed 64-bit number. */
  function Signed64(n: nat): int
    requires n < TWO_64
  {
    if n < 0x8000_0000_0000_0000 then n else n - TWO_64
  }

  /** The payload size that `read_header` computes. */
  function PayloadSize(layout: Layout): int
    requires layout.length < TWO_64
  {
    if layout.code == 127 then Signed64(layout.length) else layout.length
  }

  lemma LayoutLength(s: seq<Byte>)
    requires LayoutOf(s).Some?
    ensures LayoutOf(s).value.length < TWO_64 && LayoutOf(s).value.keyAt in [2, 4, 10]
  {
    var code := s[1] % 128;
    var keyAt := 2 + ExtraLength(code);
    Powers();
    FromBigEndianBound(s[2..keyAt]);
  }

  /**
   What one call of `receive_cmd` makes of the input: six bytes, the rest of a longer header, the size
   test, the payload, and the test that the total is not exactly 16384.
   */
  ghost function Receive(s: seq<Byte>): Received {
    if |s| < 6 then Closed
    else if MeaningOf(s[0] % 16) == ConnectionClose then Closed
    else if !StartsMessage(s[0] % 16) then Rejected
    else if LayoutOf(s) == None || |s| < LayoutOf(s).value.keyAt + 4 then Closed
    else
      LayoutLength(s);
      var size, start := PayloadSize(LayoutOf(s).value), LayoutOf(s).value.keyAt + 4;
      if size > LARGEST_PAYLOAD || size <= 0 then Rejected
      else if |s| < start + size then Closed
      else if start + size == READ_LIMIT then Rejected
      else Got(Masked(s[start..start + size], s[start - 4..start]), start + size)
  }

  /** What is received is unmasked with the key before it. */
  lemma GotIs(s: seq<Byte>)
    requires Receive(s).Got?
    ensures
      var out := Receive(s);
      && LayoutOf(s).Some? && LayoutOf(s).value.length < TWO_64 && out.used <= |s|
      && var start, size := LayoutOf(s).value.keyAt + 4, PayloadSize(LayoutOf(s).value);
      && 0 < size && out.used == start + size && out.payload == Masked(s[start..start + size], s[start - 4..start])
  {
    hide LayoutOf, PayloadSize, Masked;
    LayoutLength(s);
  }

  /** Text and binary frames that the code has room for. */
  ghost predicate Acceptable(f: Frame) {
    f.key.Some? && StartsMessage(f.opcode) && 0 < |f.payload| <= LARGEST_PAYLOAD
  }

  /**
   On input whose mask bit is set, the code yields a payload exactly when the input starts with a
   complete frame that it has room for and whose size is not 16384 bytes, and it is that frame's payload.
   */
  lemma ReceivesExactlyFrames(s: seq<Byte>, payload: seq<Byte>, used: nat)
    requires 2 <= |s| && 128 <= s[1]
    ensures
      Receive(s) == Got(payload, used) <==>
        && ParseFrame(s).Some?
        && ParseFrame(s).value.0.payload == payload && ParseFrame(s).value.1 == used
        && Acceptable(ParseFrame(s).value.0) && used != READ_LIMIT
  {
    hide Masked, LayoutOf;
    if LayoutOf(s).Some? {
      LayoutLength(s);
    }
    LayoutCode(s);
  }

  lemma LayoutCode(s: seq<Byte>)
    ensures LayoutOf(s).Some? ==>
              var l := LayoutOf(s).value;
              l.code == s[1] % 128 && l.keyAt == 2 + ExtraLength(l.code) <= |s| && (l.code <= 125 ==> l.length == l.code)
  {
  }

  /** A whole frame that starts a message is not taken for the end of the connection. */
  lemma WholeIsNotClosed(s: seq<Byte>)
    requires ParseFrame(s).Some? && 128 <= s[1] && Acceptable(ParseFrame(s).value.0)
    ensures !Receive(s).Closed?
  {
    hide Masked, LayoutOf;
    LayoutLength(s);
    LayoutCode(s);
  }

  /** A masked text or binary frame is received, whatever follows it, and is rejected if it has exactly 16384 bytes. */
  lemma ReceivesFrame(f: Frame, rest: seq<Byte>)
    requires f.Valid() && Acceptable(f)
    ensures
      var n := |FrameBytes(f)|;
      Receive(FrameBytes(f) + rest) == if n != READ_LIMIT then Got(f.payload, n) else Rejected
  {
    hide Receive, ParseFrame, LengthBytes;
    FrameRoundTrip(f, rest);
    MaskBit(f, rest);
    WholeIsNotClosed(FrameBytes(f) + rest);
    var r := Receive(FrameBytes(f) + rest);
    if r.Got? {
      ReceivesExactlyFrames(FrameBytes(f) + rest, r.payload, r.used);
    }
    ReceivesExactlyFrames(FrameBytes(f) + rest, f.payload, |FrameBytes(f)|);
  }

  /** By the first byte alone: what may be received, what closes, and what is rejected. */
  lemma FirstByteDecides(s: seq<Byte>)
    requires 6 <= |s| && 128 <= s[1]
    ensures Receive(s).Got? ==> s[0] % 16 == 1 || s[0] % 16 == 2
    ensures s[0] % 16 == 8 ==> Receive(s) == Closed
    ensures s[0] % 16 != 1 && s[0] % 16 != 2 && s[0] % 16 != 8 ==> Receive(s) == Rejected
  {
    hide LayoutOf, PayloadSize, Masked;
  }

  /** Which frames the code has room for, by numbers. */
  lemma AcceptableExactly(f: Frame)
    ensures Acceptable(f) <==> f.key.Some? && (f.opcode == 1 || f.opcode == 2) && 0 < |f.payload| <= 131016
  {
  }

  /** Among acceptable frames exactly those with a payload of 16376 bytes are refused. */
  lemma RefusedSize(f: Frame)
    requires f.Valid() && Acceptable(f)
    ensures |FrameBytes(f)| == READ_LIMIT <==> |f.payload| == 16376
  {
    hide BigEndian, Masked;
  }

  lemma SameLayout(s: seq<Byte>, u: seq<Byte>)
    requires 2 <= |s| && |u| == |s| && u[1] % 128 == s[1] % 128 && u[2..] == s[2..]
    ensures LayoutOf(u) == LayoutOf(s)
  {
    var keyAt := 2 + ExtraLength(s[1] % 128);
    if keyAt <= |s| {
      assert u[2..keyAt] == u[2..][..keyAt - 2] && s[2..keyAt] == s[2..][..keyAt - 2];
    }
  }

  /** The mask bit is not looked at: a frame is unmasked with the four bytes after its length in any case. */
  lemma MaskBitIsIgnored(s: seq<Byte>)
    requires 2 <= |s| && s[1] < 128
    ensures Receive(s) == Receive(s[1 := s[1] + 128])
  {
    hide LayoutOf, PayloadSize, Masked;
    var u := s[1 := s[1] + 128];
    SameLayout(s, u);
    LayoutCode(s);
    if 6 <= |s| && LayoutOf(s).Some? {
      LayoutLength(s);
      var size, start := PayloadSize(LayoutOf(s).value), LayoutOf(s).value.keyAt + 4;
      if 0 < size && start + size <= |s| {
        assert u[start..start + size] == s[start..start + size] && u[start - 4..start] == s[start - 4..start];
      }
    }
  }

  lemma CutLayout(s: seq<Byte>, n: nat)
    requires n <= |s| && LayoutOf(s).Some?
    ensures LayoutOf(s[..n]) == if n < LayoutOf(s).value.keyAt then None else LayoutOf(s)
  {
    var keyAt := 2 + ExtraLength(s[1] % 128);
    if keyAt <= n {
      assert s[..n][2..keyAt] == s[2..keyAt];
    }
  }

  lemma CutCloses(s: seq<Byte>, n: nat)
    requires LayoutOf(s).Some? && LayoutOf(s).value.length < TWO_64 && n <= |s| && StartsMessage(s[0] % 16)
    requires
      var size := PayloadSize(LayoutOf(s).value);
      0 < size <= LARGEST_PAYLOAD && n < LayoutOf(s).value.keyAt + 4 + size
    ensures Receive(s[..n]) == Closed
  {
    hide LayoutOf, PayloadSize, Masked;
    CutLayout(s, n);
    if 0 < n {
      assert s[..n][0] == s[0];
    }
  }

  /** Every proper beginning of a frame that the code has room for ends with the connection closed. */
  lemma CutFrameCloses(f: Frame, n: nat)
    requires f.Valid() && Acceptable(f) && n < |FrameBytes(f)|
    ensures Receive(FrameBytes(f)[..n]) == Closed
  {
    hide Receive, LayoutOf, LengthBytes, Masked, FrameBytes;
    var s := FrameBytes(f);
    assert s + [] == s;
    FrameRoundTrip(f, []);
    MaskBit(f, []);
    LayoutLength(s);
    LayoutCode(s);
    CutCloses(s, n);
  }

  lemma MaskBit(f: Frame, rest: seq<Byte>)
    requires f.Valid() && f.key.Some?
    ensures 2 <= |FrameBytes(f) + rest| && 128 <= (FrameBytes(f) + rest)[1]
  {
    hide LengthBytes, Masked;
  }

  // ---------------------------------------------------------------------------
  // The code: receiving
  // ---------------------------------------------------------------------------

  class Command {
    const header: array<Byte>
    const payload: array<Byte>

    constructor ()
      ensures header.Length == HEADER_SIZE && payload.Length == READ_STR_LEN
      ensures fresh(header) && fresh(payload)
    {
      header := new Byte[8](_ => 0);
      payload := new Byte[131072](_ => 0);
    }
  }

  class Connection {
    const sock: Socket
    const readStr: array<Byte>
    const sendBuf: array<Byte>
    var readStrLen: nat
    var connectionClosed: bool
    // The frame header.
    var headerSize: nat
    var maskOffset: nat
    var payloadSize: int
    var fin: bool
    var masked: bool
    var opcode: nat

    ghost predicate Valid()
      reads this
    {
      && readStr.Length == READ_STR_LEN && sendBuf.Length == SEND_BUF_LEN && readStr != sendBuf
      && readStrLen <= READ_STR_LEN && maskOffset <= 10
    }

    constructor (sock: Socket)
      ensures Valid() && this.sock == sock && !connectionClosed
      ensures fresh(readStr) && fresh(sendBuf)
    {
      this.sock := sock;
      readStr := new Byte[131072](_ => 0);
      sendBuf := new Byte[131072](_ => 0);
      readStrLen, connectionClosed := 0, false;
      headerSize, maskOffset, payloadSize, fin, masked, opcode := 0, 0, 0, false, false, 0;
    }

    /** The bytes read for the current frame, followed by those still to come, are `s`. */
    ghost predicate Holds(s: seq<Byte>)
      reads this, readStr, sock
    {
      && Valid() && readStrLen <= |s|
      && readStr[..readStrLen] == s[..readStrLen] && sock.input == s[readStrLen..]
    }

    lemma HeldSlice(s: seq<Byte>, lo: nat, hi: nat)
      requires Holds(s) && lo <= hi <= readStrLen
      ensures readStr[lo..hi] == s[lo..hi]
    {
      forall k | lo <= k < hi
        ensures readStr[k] == s[k]
      {
        assert readStr[..readStrLen][k] == s[..readStrLen][k];
      }
    }

    /** `read_n_bytes`, for any way in which the reads are split. */
    method ReadNBytes(bytes: int, ghost s: seq<Byte>) returns (r: int)
      requires Holds(s) && (readStrLen + bytes <= READ_STR_LEN || readStrLen == |s|)
      modifies this`readStrLen, this`connectionClosed, readStr, sock`input
      ensures Holds(s)
      ensures bytes <= 0 ==> r == 0 && readStrLen == old(readStrLen) && connectionClosed == old(connectionClosed)
      ensures 0 < bytes && old(readStrLen) + bytes <= |s| ==>
                && readStrLen == old(readStrLen) + bytes && connectionClosed == old(connectionClosed)
                && r == if readStrLen == READ_LIMIT then -1 else 0
      ensures 0 < bytes && |s| < old(readStrLen) + bytes ==> r == 1 && connectionClosed && readStrLen == |s|
    {
      var remaining, expected := bytes, bytes;
      while 0 < expected
        invariant Holds(s) && remaining == expected <= bytes && connectionClosed == old(connectionClosed)
        invariant readStrLen == old(readStrLen) + bytes - remaining && (0 < bytes ==> 0 <= remaining)
        invariant bytes <= 0 ==> expected == bytes
        invariant 0 < bytes && expected == 0 ==> readStrLen != READ_LIMIT
      {
        var bytesRead: int := -1;
        while 0 < remaining
          invariant Holds(s) && 0 <= remaining == expected <= bytes && connectionClosed == old(connectionClosed)
          invariant readStrLen == old(readStrLen) + bytes - remaining && bytesRead != 0
          invariant old(readStrLen) + bytes <= READ_STR_LEN || readStrLen == |s|
        {
          bytesRead := ReadSome(remaining, s);
          if bytesRead == 0 {
            break;
          }
          remaining := remaining - bytesRead;
          expected := expected - bytesRead;
        }
        if bytesRead == 0 {
          connectionClosed := true;
          return 1;
        }
        if readStrLen == READ_LIMIT {
          return -1;
        }
      }
      return 0;
    }

    /** One `read` into the buffer. */
    method ReadSome(remaining: nat, ghost s: seq<Byte>) returns (n: nat)
      requires Holds(s) && 0 < remaining && (readStrLen + remaining <= READ_STR_LEN || readStrLen == |s|)
      modifies this`readStrLen, readStr, sock`input
      ensures Holds(s) && n <= remaining && readStrLen == old(readStrLen) + n
      ensures n == 0 <==> old(readStrLen) == |s|
    {
      var data := sock.Read(remaining);
      assert data == s[readStrLen..][..|data|] && sock.input == s[readStrLen..][|data|..];
      assert s[..readStrLen + |data|] == s[..readStrLen] + data;
      assert s[readStrLen..][|data|..] == s[readStrLen + |data|..];
      forall i | 0 <= i < |data| {
        readStr[readStrLen + i] := data[i];
      }
      assert readStr[..readStrLen + |data|] == readStr[..readStrLen] + data;
      readStrLen := readStrLen + |data|;
      n := |data|;
    }

    /** `check_opcode`: frames that start a message go on, the close ends the connection, all others are errors. */
    method CheckOpcode(code: nat) returns (r: int)
      ensures -1 <= r <= 1
      ensures r == 0 <==> StartsMessage(code)
      ensures r == 1 <==> MeaningOf(code) == ConnectionClose
    {
      match code {
        case 0 => return -1;
        case 1 =>
        case 2 =>
        case 8 => return 1;
        case 9 => return -1;
        case 10 => return -1;
        case _ => return -1;
      }
      return 0;
    }

    /** The header fields are those of the frame at the start of `s`. */
    ghost predicate HeaderOf(s: seq<Byte>)
      reads this
    {
      && LayoutOf(s).Some? && LayoutOf(s).value.length < TWO_64
      && maskOffset == LayoutOf(s).value.keyAt && headerSize == maskOffset + 4 && maskOffset <= 10
      && payloadSize == PayloadSize(LayoutOf(s).value)
    }

    /** `read_header`. A close in the middle of the header also gives zero. */
    method ReadHeader(ghost s: seq<Byte>) returns (r: int)
      requires Holds(s) && readStrLen == 0 && !connectionClosed
      modifies this, readStr, sock`input
      ensures Holds(s)
      ensures connectionClosed && r == 0 ==> readStrLen == |s|
      ensures |s| < 6 ==> r == 0 && connectionClosed
      ensures 6 <= |s| && MeaningOf(s[0] % 16) == ConnectionClose ==> r == 1 && connectionClosed
      ensures 6 <= |s| && MeaningOf(s[0] % 16) != ConnectionClose && !StartsMessage(s[0] % 16) ==> r == -1
      ensures 6 <= |s| && StartsMessage(s[0] % 16) ==>
                if LayoutOf(s) == None || |s| < LayoutOf(s).value.keyAt + 4 then r == 0 && connectionClosed
                else
                  && HeaderOf(s) && readStrLen == headerSize && !connectionClosed
                  && r == if LARGEST_PAYLOAD < payloadSize then -1 else 0
    {
      hide LayoutOf, PayloadSize;
      var err := ReadNBytes(6, s);
      if err < 0 {
        return -1;
      }
      if connectionClosed {
        return 0;
      }
      HeldSlice(s, 0, 2);
      assert readStr[0] == readStr[0..2][0] && readStr[1] == readStr[0..2][1];
      fin := 128 <= readStr[0];
      masked := 128 <= readStr[1];
      var streamSize := readStr[1] % 128;
      opcode := readStr[0] % 16;
      var opcodeErr := CheckOpcode(opcode);
      if opcodeErr < 0 {
        return -1;
      } else if opcodeErr == 1 {
        connectionClosed := true;
        return opcodeErr;
      }
      r := ReadLength(streamSize, s);
    }

    /** The rest of `read_header`, after the first six bytes: the length in its short or its long form. */
    method ReadLength(streamSize: nat, ghost s: seq<Byte>) returns (r: int)
      requires Holds(s) && readStrLen == 6 && !connectionClosed && streamSize == s[1] % 128
      modifies this, readStr, sock`input
      ensures Holds(s) && (connectionClosed && r == 0 ==> readStrLen == |s|)
      ensures
        if LayoutOf(s) == None || |s| < LayoutOf(s).value.keyAt + 4 then r == 0 && connectionClosed
        else
          && HeaderOf(s) && readStrLen == headerSize && !connectionClosed
          && r == if LARGEST_PAYLOAD < payloadSize then -1 else 0
    {
      hide FromBigEndian, Signed64;
      if streamSize <= 125 {
        headerSize, payloadSize, maskOffset := 6, streamSize, 2;
      } else {
        var extra := if streamSize == 126 then 2 else 8;
        var err := ReadNBytes(extra, s);
        if err < 0 {
          return -1;
        }
        if connectionClosed {
          return 0;
        }
        LayoutLength(s);
        HeldSlice(s, 2, 2 + extra);
        headerSize, maskOffset := 6 + extra, 2 + extra;
        var length := FromBigEndian(readStr[2..2 + extra]);
        payloadSize := if streamSize == 127 then Signed64(length) else length;
      }
      if LARGEST_PAYLOAD < payloadSize {
        return -1;
      }
      return 0;
    }

    /** `reset_read_buff`. */
    method ResetReadBuff()
      requires Valid()
      modifies this`readStrLen, readStr
      ensures Valid() && readStrLen == 0
      ensures forall i | 0 <= i < READ_STR_LEN :: readStr[i] == if i < old(readStrLen) then 0 else old(readStr[i])
    {
      forall i | 0 <= i < readStrLen {
        readStr[i] := 0;
      }
      readStrLen := 0;
    }

    /** `read_stream`. */
    method ReadStream() returns (r: int)
      requires Valid() && !connectionClosed
      modifies this, readStr, sock`input
      ensures Valid() && (r == 0 ==> payloadSize <= LARGEST_PAYLOAD)
      ensures
        var s := old(sock.input);
        match Receive(s)
        case Got(payload, used) =>
          && r == 0 && !connectionClosed && HeaderOf(s) && 0 < payloadSize && used == headerSize + payloadSize
          && readStrLen == used && Holds(s)
        case Closed => connectionClosed && r <= 1 && (r == 0 ==> payloadSize <= 0)
        case Rejected => r < 0 || (r == 0 && readStrLen < headerSize + 1)
    {
      ghost var s := sock.input;
      ResetReadBuff();
      assert s[0..] == s;
      var err := ReadHeader(s);
      if err < 0 {
        return -1;
      }
      if err == 1 {
        return err;
      }
      r := ReadNBytes(payloadSize, s);
      if r < 0 {
        return -1;
      }
    }

    ghost predicate Apart(cmd: Command)
      reads this
    {
      && cmd.header.Length == HEADER_SIZE && cmd.payload.Length == READ_STR_LEN && cmd.header != cmd.payload
      && readStr !in {cmd.header, cmd.payload} && sendBuf !in {cmd.header, cmd.payload}
    }

    /** `decode_raw_stream_cmd`: the unmasked bytes, the first eight into the header. */
    method DecodeRawStreamCmd(cmd: Command) returns (r: int)
      requires Valid() && Apart(cmd) && payloadSize <= LARGEST_PAYLOAD
      modifies cmd.header, cmd.payload
      ensures r < 0 <==> readStrLen < headerSize + 1
      ensures
        var start := maskOffset + 4;
        0 <= r ==>
          && (forall i | 0 <= i < 8 :: cmd.header[i] == XorByte(readStr[start + i], readStr[maskOffset + i % 4]))
          && (forall i | 8 <= i < payloadSize ::
                cmd.payload[i - 8] == XorByte(readStr[start + i], readStr[maskOffset + i % 4]))
    {
      if readStrLen < headerSize + 1 {
        return -1;
      }
      DecodeHeader(cmd);
      DecodePayload(cmd);
      return 0;
    }

    method DecodeHeader(cmd: Command)
      requires Valid() && Apart(cmd)
      modifies cmd.header
      ensures forall i | 0 <= i < 8 ::
                cmd.header[i] == XorByte(readStr[maskOffset + 4 + i], readStr[maskOffset + i % 4])
    {
      hide XorByte;
      var start := maskOffset + 4;
      for i := 0 to 8
        invariant forall k | 0 <= k < i :: cmd.header[k] == XorByte(readStr[start + k], readStr[maskOffset + k % 4])
      {
        cmd.header[i] := XorByte(readStr[start + i], readStr[maskOffset + i % 4]);
      }
    }

    method DecodePayload(cmd: Command)
      requires Valid() && Apart(cmd) && payloadSize <= LARGEST_PAYLOAD
      modifies cmd.payload
      ensures forall i | 8 <= i < payloadSize ::
                cmd.payload[i - 8] == XorByte(readStr[maskOffset + 4 + i], readStr[maskOffset + i % 4])
    {
      hide XorByte;
      var start := maskOffset + 4;
      var i := 8;
      while i < payloadSize
        invariant 8 <= i
        invariant forall k | 8 <= k < i && k < payloadSize ::
                    cmd.payload[k - 8] == XorByte(readStr[start + k], readStr[maskOffset + k % 4])
      {
        cmd.payload[i - 8] := XorByte(readStr[start + i], readStr[maskOffset + i % 4]);
        i := i + 1;
      }
    }

    /** The command holds `payload`: its first bytes in the header, the others in the payload buffer. */
    ghost predicate Filled(cmd: Command, payload: seq<Byte>)
      reads this, cmd, cmd.header, cmd.payload
    {
      && Apart(cmd) && |payload| <= LARGEST_PAYLOAD
      && (forall i | 0 <= i < |payload| && i < 8 :: cmd.header[i] == payload[i])
      && (forall i | 8 <= i < |payload| :: cmd.payload[i - 8] == payload[i])
    }

    /** `receive_cmd`, for every input and for every split of it into reads. */
    method ReceiveCmd(cmd: Command) returns (r: int)
      requires Valid() && Apart(cmd)
      modifies this, readStr, sock`input, cmd.header, cmd.payload
      ensures Valid() && Apart(cmd)
      ensures old(connectionClosed) ==> r == 0 && connectionClosed && sock.input == old(sock.input)
      ensures
        var s := old(sock.input);
        !old(connectionClosed) ==>
          match Receive(s)
          case Got(payload, used) =>
            && r == |payload| == payloadSize && !connectionClosed
            && used <= |s| && sock.input == s[used..] && Filled(cmd, payload)
          case Closed => connectionClosed && r <= 0
          case Rejected => r == -1
    {
      hide Receive, LayoutOf, PayloadSize, Masked;
      if connectionClosed {
        return 0;
      }
      ghost var s := sock.input;
      var err := ReadStream();
      if err < 0 {
        return -1;
      } else if err == 1 {
        return 0;
      }
      var d := DecodeRawStreamCmd(cmd);
      if d < 0 {
        return -1;
      }
      ghost var out := Receive(s);
      if out.Got? {
        GotIs(s);
        FilledByDecoding(cmd, s, out.payload);
      }
      return payloadSize;
    }

    lemma FilledByDecoding(cmd: Command, s: seq<Byte>, payload: seq<Byte>)
      requires Apart(cmd) && Holds(s) && HeaderOf(s) && 0 < payloadSize <= LARGEST_PAYLOAD
      requires readStrLen == headerSize + payloadSize
      requires payload == Masked(s[headerSize..headerSize + payloadSize], s[maskOffset..headerSize])
      requires forall i | 0 <= i < 8 :: cmd.header[i] == XorByte(readStr[headerSize + i], readStr[maskOffset + i % 4])
      requires forall i | 8 <= i < payloadSize ::
                 cmd.payload[i - 8] == XorByte(readStr[headerSize + i], readStr[maskOffset + i % 4])
      ensures Filled(cmd, payload)
    {
      forall i | 0 <= i < payloadSize
        ensures payload[i] == XorByte(readStr[headerSize + i], readStr[maskOffset + i % 4])
      {
        assert readStr[..readStrLen][headerSize + i] == s[headerSize + i];
        assert readStr[..readStrLen][maskOffset + i % 4] == s[maskOffset + i % 4];
      }
    }

    /** Calls of `receive_cmd` on a sequence of frames: one frame for each call, in order. */
    method ReceiveFrames(fs: seq<Frame>, rest: seq<Byte>) returns (payloads: seq<seq<Byte>>)
      requires Valid() && !connectionClosed && GoodFrames(fs) && sock.input == StreamOf(fs) + rest
      modifies this, readStr, sock`input
      ensures Valid() && !connectionClosed && sock.input == rest
      ensures |payloads| == |fs| && forall i | 0 <= i < |fs| :: payloads[i] == fs[i].payload
    {
      hide Receive, FrameBytes, StreamOf;
      payloads := [];
      var cmd := new Command();
      assert fs[0..] == fs;
      for n := 0 to |fs|
        invariant Valid() && Apart(cmd) && fresh(cmd.header) && fresh(cmd.payload) && !connectionClosed
        invariant sock.input == StreamOf(fs[n..]) + rest
        invariant |payloads| == n && forall i | 0 <= i < n :: payloads[i] == fs[i].payload
      {
        ghost var s, after := sock.input, StreamOf(fs[n + 1..]) + rest;
        StreamStep(fs, n, rest);
        ghost var first := FrameBytes(fs[n]);
        assert (first + after)[|first|..] == after;
        ReceivesFrame(fs[n], after);
        var size := ReceiveCmd(cmd);
        var payload := cmd.header[..] + cmd.payload[..size - 8];
        assert payload == fs[n].payload;
        payloads := payloads + [payload];
      }
      StreamEnds(rest);
      assert fs[|fs|..] == [];
    }

    // -------------------------------------------------------------------------
    // Sending
    // -------------------------------------------------------------------------

    /** `set_send_header`. */
    method SetSendHeader(dataLen: nat, format: Byte) returns (offset: nat)
      requires Valid() && dataLen + 10 <= SEND_BUF_LEN
      modifies sendBuf
      ensures offset == 2 + |LengthBytes(dataLen)|
      ensures sendBuf[..offset] == [format, LengthCode(dataLen)] + LengthBytes(dataLen)
    {
      forall i | 0 <= i < 10 + dataLen {
        sendBuf[i] := 0;
      }
      sendBuf[0] := format;
      if dataLen <= 125 {
        sendBuf[1] := dataLen;
        return 2;
      } else if dataLen <= 0xFFFF {
        sendBuf[1] := 126;
        sendBuf[2] := dataLen / 0x100 % 256;
        sendBuf[3] := dataLen % 256;
        BigEndian2(dataLen);
        return 4;
      } else {
        sendBuf[1] := 127;
        ghost var start := sendBuf[..2];
        SetLongLength(dataLen);
        assert sendBuf[..2] == start && sendBuf[..10] == sendBuf[..2] + sendBuf[2..10];
        return 10;
      }
    }

    /** The length in eight bytes, most significant first. */
    method SetLongLength(dataLen: nat)
      requires Valid()
      modifies sendBuf
      ensures sendBuf[2..10] == BigEndian(dataLen, 8) && sendBuf[..2] == old(sendBuf[..2])
    {
      hide BigEndian;
      BigEndian8(dataLen);
      sendBuf[2] := dataLen / 0x100_0000_0000_0000 % 256;
      sendBuf[3] := dataLen / 0x1_0000_0000_0000 % 256;
      sendBuf[4] := dataLen / 0x100_0000_0000 % 256;
      sendBuf[5] := dataLen / 0x1_0000_0000 % 256;
      sendBuf[6] := dataLen / 0x100_0000 % 256;
      sendBuf[7] := dataLen / 0x1_0000 % 256;
      sendBuf[8] := dataLen / 0x100 % 256;
      sendBuf[9] := dataLen % 256;
    }

    /** `send_request` on the first `len` bytes of the send buffer, for any way in which the writes are split. */
    method SendRequest(len: nat) returns (r: int, ghost chunks: seq<nat>)
      requires Valid() && 0 < len <= SEND_BUF_LEN
      modifies this`connectionClosed, sock`output
      ensures old(connectionClosed) ==> r == 0 && chunks == []
      ensures Total(chunks) <= len && sock.output == old(sock.output) + sendBuf[..Total(chunks)]
      ensures Partial(chunks, len, r)
      ensures -1 <= r && connectionClosed == (old(connectionClosed) || r < 0)
    {
      chunks := [];
      if connectionClosed {
        return 0, chunks;
      }
      var bytesSend: int, remaining: nat, offset: nat := 0, len, 0;
      while 0 < remaining
        invariant remaining + offset == len && offset == Total(chunks) && (forall i | 0 <= i < |chunks| :: 0 < chunks[i])
        invariant if chunks == [] then bytesSend == 0 else bytesSend == chunks[|chunks| - 1]
        invariant sock.output == old(sock.output) + sendBuf[..offset]
        invariant connectionClosed == old(connectionClosed)
      {
        bytesSend := sock.Write(sendBuf[offset..offset + remaining]);
        if bytesSend <= 0 {
          break;
        }
        assert sendBuf[..offset] + sendBuf[offset..offset + remaining][..bytesSend] == sendBuf[..offset + bytesSend];
        chunks := chunks + [bytesSend];
        offset := offset + bytesSend;
        remaining := remaining - bytesSend;
      }
      LastIsTotal(chunks);
      if bytesSend < 0 {
        connectionClosed := true;
        return -1, chunks;
      }
      return bytesSend, chunks;
    }

    /** `WebSocket::send`: the wire gets a final, unmasked binary frame, or a prefix of it when writing stops. */
    method Send(data: seq<Byte>) returns (r: int, ghost chunks: seq<nat>)
      requires Valid()
      modifies this`connectionClosed, sock`output, sendBuf
      ensures Valid()
      ensures
        if old(connectionClosed) then r == 0 && sock.output == old(sock.output)
        else if 131062 < |data| then r == -1 && sock.output == old(sock.output)
        else
          var bytes := FrameBytes(BinaryFrame(data));
          && Total(chunks) <= |bytes| && sock.output == old(sock.output) + bytes[..Total(chunks)]
          && Partial(chunks, |bytes|, r) && (r < 0 <==> connectionClosed)
    {
      chunks := [];
      if connectionClosed {
        return 0, chunks;
      }
      if SEND_BUF_LEN < |data| + 10 {
        return -1, chunks;
      }
      hide LengthBytes, LengthCode;
      LengthBytesBound(|data|);
      var offset := SetSendHeader(|data|, 130);
      ghost var header := sendBuf[..offset];
      forall i | 0 <= i < |data| {
        sendBuf[offset + i] := data[i];
      }
      assert sendBuf[..offset + |data|] == header + data;
      assert FrameBytes(BinaryFrame(data)) == header + data by {
        BinaryHeader(data);
      }
      r, chunks := SendRequest(offset + |data|);
      assert sendBuf[..Total(chunks)] == sendBuf[..offset + |data|][..Total(chunks)];
    }

    /** `exit`: a close frame. */
    method Exit() returns (r: int, ghost chunks: seq<nat>)
      requires Valid()
      modifies this`connectionClosed, sock`output, sendBuf
      ensures
        var bytes := FrameBytes(Frame(true, 0, 8, None, []));
        && Total(chunks) <= |bytes| && sock.output == old(sock.output) + bytes[..Total(chunks)]
        && Partial(chunks, |bytes|, r)
    {
      var offset := SetSendHeader(0, 136);
      r, chunks := SendRequest(offset);
      ghost var bytes := FrameBytes(Frame(true, 0, 8, None, []));
      assert bytes == [136, 0];
      assert sendBuf[..Total(chunks)] == sendBuf[..2][..Total(chunks)];
    }
  }

  ghost function Total(chunks: seq<nat>): nat {
    if chunks == [] then 0 else Total(chunks[..|chunks| - 1]) + chunks[|chunks| - 1]
  }

  /** The chunks accepted of `len` bytes, and the result: the last chunk when all was written. */
  ghost predicate Partial(chunks: seq<nat>, len: nat, r: int) {
    && (forall i | 0 <= i < |chunks| :: 0 < chunks[i])
    && (0 < r <==> Total(chunks) == len)
    && (0 < r ==> chunks != [] && r == chunks[|chunks| - 1] && (r == len <==> |chunks| == 1))
  }

  /** The last of several chunks is less than their sum. */
  lemma LastIsTotal(chunks: seq<nat>)
    requires forall i | 0 <= i < |chunks| :: 0 < chunks[i]
    ensures chunks != [] ==> (chunks[|chunks| - 1] == Total(chunks) <==> |chunks| == 1)
  {
    if 2 <= |chunks| {
      var init := chunks[..|chunks| - 1];
      assert Total(init) == Total(init[..|init| - 1]) + init[|init| - 1];
    }
  }

  ghost function BinaryFrame(data: seq<Byte>): Frame { Frame(true, 0, 2, None, data) }

  /** The frame on the wire decodes to its payload, whatever follows it. */
  lemma SentFrameDecodes(data: seq<Byte>, rest: seq<Byte>)
    requires |data| + 10 <= SEND_BUF_LEN
    ensures
      var bytes := FrameBytes(BinaryFrame(data));
      ParseFrame(bytes + rest) == Some((BinaryFrame(data), |bytes|))
  {
    FrameRoundTrip(BinaryFrame(data), rest);
  }

  lemma BinaryHeader(data: seq<Byte>)
    requires |data| + 10 <= SEND_BUF_LEN
    ensures FrameBytes(BinaryFrame(data)) == [130, LengthCode(|data|)] + LengthBytes(|data|) + data
  {
    hide LengthCode, LengthBytes;
  }

  lemma LengthBytesBound(n: nat)
    ensures 2 + |LengthBytes(n)| <= 10
  {
  }

  /** Masked text and binary frames with at least a command header, and not of the refused size. */
  ghost predicate GoodFrames(fs: seq<Frame>) {
    forall i | 0 <= i < |fs| ::
      fs[i].Valid() && Acceptable(fs[i]) && HEADER_SIZE <= |fs[i].payload| && |FrameBytes(fs[i])| != READ_LIMIT
  }

  lemma StreamStep(fs: seq<Frame>, n: nat, rest: seq<Byte>)
    requires n < |fs| && GoodFrames(fs)
    ensures StreamOf(fs[n..]) + rest == FrameBytes(fs[n]) + (StreamOf(fs[n + 1..]) + rest)
  {
    hide FrameBytes;
    assert fs[n..][0] == fs[n] && fs[n..][1..] == fs[n + 1..];
  }

  lemma StreamEnds(rest: seq<Byte>)
    ensures StreamOf([]) + rest == rest
  {
  }

  ghost function StreamOf(fs: seq<Frame>): seq<Byte>
    requires GoodFrames(fs)
  {
    if fs == [] then [] else FrameBytes(fs[0]) + StreamOf(fs[1..])
  }
}
