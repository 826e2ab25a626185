/**
 A command on its whole way: written by the serializer, carried by a byte stream or in a masked WebSocket
 frame, and read with the packs that devgen computes for the types of its arguments.
 */
module WireTrip {
  import opened Bits
  import opened Common
  import opened Sockets
  import opened Wire
  import opened WireOutcome
  import opened WireReader
  import opened WireWriter
  import Ws = WebSocket
  import Rfc = WebSocketFrame

  // ---------------------------------------------------------------------------
  // Runs of scalars
  // ---------------------------------------------------------------------------

  lemma NoScalars()
    ensures RequiredSize([]) == 0
  {
  }

  lemma {:induction false} RequiredSizeSnoc(ts: seq<Scalar>, t: Scalar)
    ensures RequiredSize(ts + [t]) == RequiredSize(ts) + Size(t)
    decreases |ts|
  {
    if ts == [] {
      assert ([] + [t])[1..] == [];
    } else {
      assert (ts + [t])[1..] == ts[1..] + [t];
      RequiredSizeSnoc(ts[1..], t);
    }
  }

  /** The packs of `ts` keep the scalars `pending` together with those that follow. */
  lemma {:induction false} PendingIsPacked(pending: seq<Scalar>, ts: seq<Type>) returns (i: nat)
    requires pending != []
    ensures
      var packs := Packs(pending, ts);
      i < |packs| && packs[i].Scalars? && RequiredSize(pending) <= PackSize(packs[i])
    decreases |ts|
  {
    hide RequiredSize, Size;
    i := 0;
    if ts != [] && ts[0].ScalarType? {
      RequiredSizeSnoc(pending, ts[0].t);
      i := PendingIsPacked(pending + [ts[0].t], ts[1..]);
    }
  }

  ghost predicate ScalarsFit(packs: seq<Pack>) {
    forall i | 0 <= i < |packs| :: packs[i].Scalars? ==> PackSize(packs[i]) <= SCALAR_PACK_LEN
  }

  /** The runs of scalars fit the writer's pack exactly when the reader's packs of scalars do. */
  lemma {:induction false} RunsFitExactly(pending: seq<Scalar>, args: seq<Value>)
    requires RequiredSize(pending) <= SCALAR_PACK_LEN
    ensures RunsFit(RequiredSize(pending), args) <==> ScalarsFit(Packs(pending, TypesOf(args)))
    decreases |args|
  {
    hide RequiredSize, Size, PackSize;
    if args == [] {
      PackSizeOfScalars(pending);
    } else {
      var a, rest := args[0], args[1..];
      assert args == [a] + rest;
      TypesOfCons(a, rest);
      if a.Number? {
        RequiredSizeSnoc(pending, a.t);
        if RequiredSize(pending + [a.t]) <= SCALAR_PACK_LEN {
          RunsFitExactly(pending + [a.t], rest);
        } else {
          var i := PendingIsPacked(pending + [a.t], TypesOf(rest));
          PackSizeOfScalars(pending);
        }
      } else {
        NoScalars();
        PackSizeOfScalars(pending);
        RunsFitExactly([], rest);
        FitParts(Flush(pending), Single(TypeOf(a)), Packs([], TypesOf(rest)));
      }
    }
  }

  lemma PackSizeOfScalars(ts: seq<Scalar>)
    ensures PackSize(Scalars(ts)) == RequiredSize(ts)
  {
  }

  lemma FitParts(ps: seq<Pack>, p: Pack, qs: seq<Pack>)
    requires !p.Scalars?
    ensures ScalarsFit(ps + [p] + qs) <==> ScalarsFit(ps) && ScalarsFit(qs)
  {
    hide PackSize;
    var all := ps + [p] + qs;
    if ScalarsFit(all) {
      assert forall i | 0 <= i < |ps| :: ps[i] == all[i];
      assert forall i | 0 <= i < |qs| :: qs[i] == all[|ps| + 1 + i];
    }
  }

  /** The pack holds 128 doubles; the next one is written past its end. */
  lemma TooManyScalars(args: seq<Value>)
    requires forall i | 0 <= i < |args| :: args[i].Number? && args[i].t == F64
    ensures RunsFit(0, args) <==> |args| <= 128
  {
    DoublesFit(args, 0);
  }

  lemma {:induction false} DoublesFit(args: seq<Value>, used: nat)
    requires used <= SCALAR_PACK_LEN && forall i | 0 <= i < |args| :: args[i].Number? && args[i].t == F64
    ensures RunsFit(used, args) <==> used + 8 * |args| <= SCALAR_PACK_LEN
    decreases |args|
  {
    if args != [] && used + 8 <= SCALAR_PACK_LEN {
      DoublesFit(args[1..], used + 8);
    }
  }

  // ---------------------------------------------------------------------------
  // The byte stream
  // ---------------------------------------------------------------------------

  lemma PacksCount(packs: seq<Pack>, values: seq<Value>)
    requires ScalarsFit(packs)
    ensures CountsFit(packs, values) <==> ValuesFit(values)
  {
    hide PackSize, ValuesFit;
  }

  lemma GoodIsWithin(args: seq<Value>)
    requires GoodArgs(args)
    ensures forall i | 0 <= i < |args| :: Within(args[i], LENGTH_LIMIT)
  {
    hide InRange;
  }

  /** What the stream reader makes of a command and what follows it. */
  lemma StreamRoundTrip(classId: nat, funcId: nat, args: seq<Value>, rest: seq<Byte>)
    requires classId < 0x1_0000 && funcId < 0x1_0000 && GoodArgs(args) && RunsFit(0, args)
    ensures
      var s := CommandBytes(classId, funcId, args) + rest;
      var r := PacksOutcome(Stream, Packs([], TypesOf(args)), s[8..]);
      && HeaderIds(s) == (classId, funcId)
      && r == (if ValuesFit(args) then Got(args, |EncodeArgs(args)|) else Refused)
      && s[8 + |EncodeArgs(args)|..] == rest
  {
    hide GoodArg, EncodeArgs, ReadPacks, Packs, HeaderIds, RunsFit, ScalarsFit, CountsFit, ValuesFit, Within, PacksOutcome;
    var s := CommandBytes(classId, funcId, args) + rest;
    var packs := Packs([], TypesOf(args));
    GoodIsWithin(args);
    CommandRoundTrip(classId, funcId, args, rest, LENGTH_LIMIT);
    NoScalars();
    RunsFitExactly([], args);
    StreamReads(packs, s[8..]);
    PacksCount(packs, args);
  }

  lemma OneText(bytes: seq<Byte>)
    ensures AllOfType([Text(bytes)]) && RunsFit(0, [Text(bytes)]) && CutAll([Text(bytes)]) == [Cut(Text(bytes))]
    ensures ValuesFit([Text(bytes)]) <==> 0 <= Int32(|bytes|)
  {
    var args := [Text(bytes)];
    assert args[1..] == [] && args[0] == Text(bytes);
  }

  /** A string of 2^32 bytes is written as an empty one, which is what the reader gets. */
  lemma LongTextIsLost(classId: nat, funcId: nat, rest: seq<Byte>)
    requires classId < 0x1_0000 && funcId < 0x1_0000
    ensures
      var a, none := Text(seq(0x1_0000_0000, _ => 65)), Text([]);
      && CutAll([a]) == [none] && GoodArgs([none])
      && PacksOutcome(Stream, Packs([], TypesOf([a])), (CommandBytes(classId, funcId, [none]) + rest)[8..]).Got?
      && PacksOutcome(Stream, Packs([], TypesOf([a])), (CommandBytes(classId, funcId, [none]) + rest)[8..]).values == [none]
  {
    hide PacksOutcome, Packs, RunsFit, ValuesFit, EncodeArgs;
    var a, none := Text(seq(0x1_0000_0000, _ => 65)), Text([]);
    OneText(a.bytes);
    OneText([]);
    CutAllIsGood([a]);
    assert Cut(a) == none;
    StreamRoundTrip(classId, funcId, [none], rest);
  }

  /** A string of 2^31 bytes is written whole and is whole in the stream, and the reader still fails. */
  lemma LongTextIsRefused(classId: nat, funcId: nat, rest: seq<Byte>)
    requires classId < 0x1_0000 && funcId < 0x1_0000
    ensures
      var a := Text(seq(0x8000_0000, _ => 65));
      && CutAll([a]) == [a] && GoodArgs([a])
      && var s := (CommandBytes(classId, funcId, [a]) + rest)[8..];
      && PacksOutcome(Stream, Packs([], TypesOf([a])), s) == Refused && WholePacks(Packs([], TypesOf([a])), s)
  {
    hide PacksOutcome, Packs, RunsFit, ValuesFit, EncodeArgs, WholePacks;
    var a := Text(seq(0x8000_0000, _ => 65));
    OneText(a.bytes);
    CutAllIsGood([a]);
    assert Cut(a) == a;
    StreamRoundTrip(classId, funcId, [a], rest);
    GoesOnExactly(Packs([], TypesOf([a])), (CommandBytes(classId, funcId, [a]) + rest)[8..]);
  }

  /**
   A command through a byte stream, for all arguments. The writer stays in its pack exactly when the runs
   of scalars fit. Then the reader fails exactly when the size of a container is negative as a 32-bit
   number; otherwise the arguments arrive, containers cut to their size modulo 2^32, and the stream stands
   after the command.
   */
  method OverTcp(ser: DynamicSerializer, sock: Socket, classId: nat, funcId: nat, args: seq<Value>, rest: seq<Byte>)
    returns (inside: bool, ok: bool, ids: (int, int), got: seq<Value>)
    requires ser.Valid() && classId < 0x1_0000 && funcId < 0x1_0000 && AllOfType(args)
    modifies ser, ser.scalData, sock
    ensures inside <==> RunsFit(0, args)
    ensures inside ==> ids == (classId, funcId) && (ok <==> ValuesFit(CutAll(args)))
    ensures inside && ok ==> got == CutAll(args) && sock.input == rest
    ensures inside && GoodArgs(args) && ok ==> got == args
  {
    hide EncodeArgs, RunsFit, Packs, HeaderIds, GoodArg, OfType, Cut, ValuesFit, PacksOutcome;
    ok, ids, got := false, (0, 0), [];
    inside := ser.BuildCommand(classId, funcId, args);
    if inside {
      ghost var cut := CutAll(args);
      CutAllIsGood(args);
      CutRunsFit(0, args);
      StreamRoundTrip(classId, funcId, cut, rest);
      sock.input := ser.buffer + rest;
      var packs, _ := BuildArgsPacks(TypesOf(args));
      var session := new TcpSession(sock);
      ok, ids, got := session.ReadCommand(packs);
    }
  }

  lemma {:induction false} CutRunsFit(used: nat, args: seq<Value>)
    ensures RunsFit(used, CutAll(args)) <==> RunsFit(used, args)
    decreases |args|
  {
    if args != [] {
      assert CutAll(args)[1..] == CutAll(args[1..]);
      CutRunsFit(if args[0].Number? then used + Size(args[0].t) else 0, args[1..]);
    }
  }

  // ---------------------------------------------------------------------------
  // The WebSocket
  // ---------------------------------------------------------------------------

  ghost function CommandFrame(key: Rfc.Key, classId: nat, funcId: nat, args: seq<Value>): Rfc.Frame
    requires GoodArgs(args)
  {
    Rfc.Frame(true, 0, 2, Some(key), CommandBytes(classId, funcId, args))
  }

  lemma {:induction false} ShortIsWithin(args: seq<Value>, i: nat, limit: nat)
    requires GoodArgs(args) && i < |args| && |EncodeArgs(args)| <= limit
    ensures Within(args[i], limit)
    decreases |args|
  {
    hide EncodeArg, Within, GoodArg;
    if 0 < i {
      ShortIsWithin(args[1..], i - 1, limit);
    } else {
      EncodedIsWithin(args[0], limit);
    }
  }

  lemma EncodedIsWithin(a: Value, limit: nat)
    requires GoodArg(a) && |EncodeArg(a)| <= limit
    ensures Within(a, limit)
  {
    hide RawBytes, InRange;
  }

  /** What the buffer reader makes of a command and of the old bytes after it. */
  lemma BufferRoundTrip(classId: nat, funcId: nat, args: seq<Value>, stale: seq<Byte>)
    requires classId < 0x1_0000 && funcId < 0x1_0000 && GoodArgs(args) && |EncodeArgs(args)| <= BUFFER_LIMIT
    ensures
      var s := CommandBytes(classId, funcId, args) + stale;
      && HeaderIds(s) == (classId, funcId)
      && PacksOutcome(Buffer, Packs([], TypesOf(args)), s[8..]) == Got(args, |EncodeArgs(args)|)
  {
    hide GoodArg, EncodeArgs, ReadPacks, Packs, HeaderIds, Within, PacksOutcome;
    forall i | 0 <= i < |args|
      ensures Within(args[i], BUFFER_LIMIT)
    {
      ShortIsWithin(args, i, BUFFER_LIMIT);
    }
    CommandRoundTrip(classId, funcId, args, stale, BUFFER_LIMIT);
    BufferReads(Packs([], TypesOf(args)), (CommandBytes(classId, funcId, args) + stale)[8..]);
  }

  /**
   A command in a masked binary frame that is not too large. It is refused exactly when it has 16376 bytes;
   otherwise it arrives as it was, the frame's bytes are used up, and nothing depends on what the payload
   buffer held before.
   */
  method OverWebSocket(
    ws: Ws.Connection, cmd: Ws.Command, ts: seq<Type>,
    ghost key: Rfc.Key, ghost classId: nat, ghost funcId: nat, ghost args: seq<Value>, ghost rest: seq<Byte>)
    returns (r: int, ids: (int, int), got: Outcome)
    requires classId < 0x1_0000 && funcId < 0x1_0000 && GoodArgs(args) && ts == TypesOf(args)
    requires |CommandBytes(classId, funcId, args)| <= Ws.LARGEST_PAYLOAD
    requires ws.Valid() && !ws.connectionClosed && ws.Apart(cmd)
    requires ws.sock.input == Rfc.FrameBytes(CommandFrame(key, classId, funcId, args)) + rest
    modifies ws, ws.readStr, ws.sock, cmd.header, cmd.payload
    ensures
      var bytes := CommandBytes(classId, funcId, args);
      if |bytes| == 16376 then r == -1
      else
        && r == |bytes| && ids == (classId, funcId) && got == Got(args, |bytes| - 8)
        && ids.0 == bytes[4] as int * 256 + bytes[5] as int && ids.1 == bytes[6] as int * 256 + bytes[7] as int
        && ws.sock.input == rest && !ws.connectionClosed
  {
    hide EncodeArgs, Packs, HeaderIds, GoodArg, PacksOutcome, InsidePacks, Ws.Receive, Rfc.FrameBytes;
    ghost var bytes := CommandBytes(classId, funcId, args);
    ghost var frame := CommandFrame(key, classId, funcId, args);
    Ws.ReceivesFrame(frame, rest);
    Ws.RefusedSize(frame);
    ids, got := (0, 0), Refused;
    r := ws.ReceiveCmd(cmd);
    if 0 <= r {
      ghost var first := Rfc.FrameBytes(frame);
      assert (first + rest)[|first|..] == rest;
      var header := cmd.header[..];
      ids := HeaderIds(header);
      var packs, _ := BuildArgsPacks(ts);
      ghost var stale := cmd.payload[r - 8..];
      BufferHolds(ws, cmd, bytes);
      BufferRoundTrip(classId, funcId, args, stale);
      SameIds(bytes + stale);
      IdsAreAt(bytes + stale);
      var buffer := new CommandBuffer(cmd.payload, 0);
      got := buffer.ReadArgs(packs);
    }
  }

  /** The command buffers hold the bytes of the command, and old bytes after them. */
  lemma BufferHolds(ws: Ws.Connection, cmd: Ws.Command, bytes: seq<Byte>)
    requires 8 <= |bytes| && ws.Filled(cmd, bytes)
    ensures
      var all := bytes + cmd.payload[|bytes| - 8..];
      cmd.header[..] == all[..8] && cmd.payload[0..] == all[8..]
  {
  }
}
