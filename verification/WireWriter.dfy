/**
 `DynamicSerializer` (core/serializer_deserializer.hpp): scalars are collected in a pack of 1024 bytes,
 which goes to the buffer before every container and at the end of the command.
 */
module WireWriter {
  import opened Bits
  import opened NetworkOrder
  import opened Wire

  const SCALAR_PACK_LEN: nat := 1024

  /** Each run of adjacent scalars fits in the pack, of which `used` bytes are taken. */
  ghost predicate RunsFit(used: nat, args: seq<Value>)
    decreases |args|
  {
    if args == [] then true
    else if args[0].Number? then
      used + Size(args[0].t) <= SCALAR_PACK_LEN && RunsFit(used + Size(args[0].t), args[1..])
    else RunsFit(0, args[1..])
  }

  /** `append<uint16_t>`. */
  method Append16(buff: array<Byte>, at: nat, value: nat)
    requires at + 2 <= buff.Length && value < 0x1_0000
    modifies buff
    ensures buff[at..at + 2] == BigEndian(value, 2) && buff[..at] == old(buff[..at])
    ensures buff[at + 2..] == old(buff[at + 2..])
  {
    BigEndian2(value);
    buff[at] := value / 0x100 % 256;
    buff[at + 1] := value % 256;
  }

  /** `append<uint32_t>`. */
  method Append32(buff: array<Byte>, at: nat, value: nat)
    requires at + 4 <= buff.Length && value < TWO_32
    modifies buff
    ensures buff[at..at + 4] == BigEndian(value, 4) && buff[..at] == old(buff[..at])
    ensures buff[at + 4..] == old(buff[at + 4..])
  {
    BigEndian4(value);
    buff[at] := value / 0x100_0000 % 256;
    buff[at + 1] := value / 0x1_0000 % 256;
    buff[at + 2] := value / 0x100 % 256;
    buff[at + 3] := value % 256;
  }

  /** `append<uint64_t>`: its two halves. */
  method Append64(buff: array<Byte>, at: nat, value: nat)
    requires at + 8 <= buff.Length && value < TWO_64
    modifies buff
    ensures buff[at..at + 8] == BigEndian(value, 8) && buff[..at] == old(buff[..at])
    ensures buff[at + 8..] == old(buff[at + 8..])
  {
    hide BigEndian;
    BigEndianHalves(value);
    Append32(buff, at, value / 0x1_0000_0000);
    ghost var high := buff[..at + 4];
    Append32(buff, at + 4, value % 0x1_0000_0000);
    assert buff[at..at + 4] == high[at..] && buff[..at] == high[..at];
    assert buff[at..at + 8] == buff[at..at + 4] + buff[at + 4..at + 8];
  }

  lemma BigEndianHalves(n: nat)
    requires n < TWO_64
    ensures BigEndian(n, 8) == BigEndian(n / 0x1_0000_0000, 4) + BigEndian(n % 0x1_0000_0000, 4)
  {
    hide BigEndian;
    var h, l := n / 0x1_0000_0000, n % 0x1_0000_0000;
    BigEndianSplit(h, l, 4);
    assert n == h * 0x1_0000_0000 + l;
  }

  lemma LastByte(h: nat, q: nat, l: nat)
    ensures
      var n := h * (q * 256) + l;
      n / 256 == h * q + l / 256 && n % 256 == l % 256
  {
    var n := h * (q * 256) + l;
    assert h * (q * 256) == 256 * (h * q);
    assert n == 256 * (h * q + l / 256) + l % 256;
  }

  lemma {:induction false} BigEndianSplit(h: nat, l: nat, k: nat)
    requires k <= 4 && l < Power256(k)
    ensures BigEndian(h * Power256(k) + l, 4 + k) == BigEndian(h, 4) + BigEndian(l, k)
    decreases k
  {
    var p := Power256(k);
    if k == 0 {
      assert BigEndian(h, 4) + [] == BigEndian(h, 4);
    } else {
      var q := Power256(k - 1);
      var n := h * p + l;
      LastByte(h, q, l);
      BigEndianSplit(h, l / 256, k - 1);
      hide Power256;
      assert BigEndian(n, 4 + k) == BigEndian(n / 256, 4 + (k - 1)) + [n % 256];
    }
  }

  class DynamicSerializer {
    const scalData: array<Byte>
    var scalSize: nat
    var buffer: seq<Byte>

    ghost predicate Valid()
      reads this
    {
      scalData.Length == SCALAR_PACK_LEN && scalSize <= SCALAR_PACK_LEN
    }

    ghost function Pending(): seq<Byte>
      reads this, scalData
      requires Valid()
    {
      scalData[..scalSize]
    }

    constructor ()
      ensures Valid() && fresh(scalData)
    {
      scalData := new Byte[1024](_ => 0);
      scalSize, buffer := 0, [];
    }

    /** `append` of a scalar to the pack. The code has no test for its end: `inside` says that it stays in it. */
    method AppendScalar(t: Scalar, v: int) returns (inside: bool)
      requires Valid() && InRange(t, v)
      modifies this`scalSize, scalData
      ensures Valid() && (inside <==> old(scalSize) + Size(t) <= SCALAR_PACK_LEN)
      ensures inside ==> scalSize == old(scalSize) + Size(t) && Pending() == old(Pending()) + EncodeScalar(t, v)
    {
      if SCALAR_PACK_LEN < scalSize + Size(t) {
        return false;
      }
      inside := true;
      hide BigEndian, InRange, Pattern, Size;
      PatternRoundTrip(t, v);
      var bits := Pattern(t, v);
      AppendBytes(bits, Size(t));
      ghost var n := scalSize + Size(t);
      assert scalData[..n] == scalData[..scalSize] + scalData[scalSize..n];
      scalSize := scalSize + Size(t);
    }

    /** `append` for a type of one, two, four or eight bytes. */
    method AppendBytes(bits: nat, size: nat)
      requires Valid() && size in {1, 2, 4, 8} && bits < Power256(size) && scalSize + size <= SCALAR_PACK_LEN
      modifies scalData
      ensures scalData[scalSize..scalSize + size] == BigEndian(bits, size)
      ensures scalData[..scalSize] == old(scalData[..scalSize])
    {
      hide BigEndian;
      Powers();
      if size == 1 {
        OneByte(bits);
        scalData[scalSize] := bits;
      } else if size == 2 {
        Append16(scalData, scalSize, bits);
      } else if size == 4 {
        Append32(scalData, scalSize, bits);
      } else {
        Append64(scalData, scalSize, bits);
      }
    }

    /** `dump_scalar_pack`. */
    method DumpScalarPack()
      requires Valid()
      modifies this
      ensures Valid() && scalSize == 0 && buffer == old(buffer + Pending())
    {
      if 0 < scalSize {
        buffer := buffer + scalData[..scalSize];
        scalSize := 0;
      }
    }

    /** `dump_container_to_buffer` and `dump_array_to_buffer`. */
    method DumpContainer(a: Value)
      requires !a.Number? && OfType(a)
      modifies this`buffer
      ensures GoodArg(Cut(a)) && buffer == old(buffer) + EncodeArg(Cut(a))
    {
      hide BigEndian, RawBytes;
      CutIsGood(a);
      match a {
        case Vector(t, es) =>
          var nBytes := |es| * Size(t) % 0x1_0000_0000;
          buffer := buffer + BigEndian(nBytes, 4);
          CutLength(|es|, Size(t));
          if 0 < nBytes {
            var raw := Memory(t, es);
            RawPrefix(t, es, nBytes / Size(t));
            buffer := buffer + raw[..nBytes];
          }
        case Text(bytes) =>
          var nBytes := |bytes| % 0x1_0000_0000;
          buffer := buffer + BigEndian(nBytes, 4);
          if 0 < nBytes {
            buffer := buffer + bytes[..nBytes];
          }
        case Array(t, es) =>
          var raw := Memory(t, es);
          buffer := buffer + raw;
      }
    }

    /** The memory of a container, seen as bytes. */
    method Memory(t: Scalar, es: seq<int>) returns (raw: seq<Byte>)
      requires AllInRange(t, es)
      ensures raw == RawBytes(t, es)
    {
      hide InRange, RawBytes, ElementBytes;
      raw := [];
      RawNothing(t);
      assert es[..0] == [];
      for i := 0 to |es|
        invariant raw == RawBytes(t, es[..i])
      {
        RawBytesSnoc(t, es, i);
        var x := Element(t, es[i]);
        raw := raw + x;
      }
      assert es[..|es|] == es;
    }

    method Element(t: Scalar, e: int) returns (x: seq<Byte>)
      requires InRange(t, e)
      ensures x == ElementBytes(t, e)
    {
      PatternRoundTrip(t, e);
      return LittleEndian(Pattern(t, e), Size(t));
    }

    /** `command_serializer`: one argument, then the others. */
    method CommandSerializer(args: seq<Value>) returns (inside: bool)
      requires Valid() && AllOfType(args)
      modifies this, scalData
      ensures Valid() && (inside <==> RunsFit(old(scalSize), args))
      ensures inside ==>
                && GoodArgs(CutAll(args))
                && buffer + Pending() == old(buffer + Pending()) + EncodeArgs(CutAll(args))
      decreases |args|
    {
      hide EncodeArgs, GoodArg, OfType, Cut;
      if args == [] {
        NothingEncoded();
        assert CutAll(args) == [];
        return true;
      }
      ghost var before := buffer + Pending();
      inside := SerializeOne(args[0]);
      if inside {
        ghost var between := buffer + Pending();
        inside := CommandSerializer(args[1..]);
        if inside {
          EncodeCutCons(args);
          ghost var x, y := EncodeArg(Cut(args[0])), EncodeArgs(CutAll(args[1..]));
          assert before + x + y == before + (x + y);
        }
      }
    }

    /** A scalar goes to the pack; a container goes to the buffer after the pack. */
    method SerializeOne(a: Value) returns (inside: bool)
      requires Valid() && OfType(a)
      modifies this, scalData
      ensures Valid()
      ensures inside <==> (a.Number? ==> old(scalSize) + Size(a.t) <= SCALAR_PACK_LEN)
      ensures inside ==> scalSize == if a.Number? then old(scalSize) + Size(a.t) else 0
      ensures inside ==>
                GoodArg(Cut(a)) && buffer + Pending() == old(buffer + Pending()) + EncodeArg(Cut(a))
    {
      hide EncodeScalar, InRange, RawBytes, BigEndian;
      ghost var before, pending := buffer, Pending();
      if a.Number? {
        inside := AppendScalar(a.t, a.v);
        if inside {
          assert before + (pending + EncodeScalar(a.t, a.v)) == before + pending + EncodeScalar(a.t, a.v);
        }
      } else {
        DumpScalarPack();
        DumpContainer(a);
        assert Pending() == [];
        inside := true;
      }
    }

    /**
     `build_command`: whatever the buffer and the pack held before, the buffer becomes the header followed
     by the plain concatenation of the arguments' encodings, containers cut to their size modulo 2^32.
     The writes stay in the pack exactly when every run of scalars fits.
     */
    method BuildCommand(classId: nat, funcId: nat, args: seq<Value>) returns (inside: bool)
      requires Valid() && classId < 0x1_0000 && funcId < 0x1_0000 && AllOfType(args)
      modifies this, scalData
      ensures Valid() && (inside <==> RunsFit(0, args))
      ensures inside ==> GoodArgs(CutAll(args)) && buffer == CommandBytes(classId, funcId, CutAll(args))
      ensures inside ==>
                && 8 <= |buffer| && buffer[..4] == [0, 0, 0, 0]
                && buffer[4] as int * 256 + buffer[5] as int == classId
                && buffer[6] as int * 256 + buffer[7] as int == funcId
    {
      hide BigEndian, EncodeArgs, RunsFit, GoodArg, OfType, Cut;
      HeaderIsAt(classId, funcId);
      buffer := [0, 0, 0, 0] + BigEndian(classId, 2) + BigEndian(funcId, 2);
      if args != [] {
        scalSize := 0;
        assert buffer + Pending() == buffer;
        inside := CommandSerializer(args);
        if inside {
          DumpScalarPack();
        }
      } else {
        NothingEncoded();
        RunsFitNothing(0);
        assert buffer + [] == buffer && CutAll(args) == [];
        inside := true;
      }
    }
  }

  lemma RunsFitNothing(used: nat)
    ensures RunsFit(used, [])
  {
  }

  lemma EncodeCutCons(args: seq<Value>)
    requires args != [] && GoodArgs(CutAll(args[1..])) && GoodArg(Cut(args[0]))
    ensures GoodArgs(CutAll(args))
    ensures EncodeArgs(CutAll(args)) == EncodeArg(Cut(args[0])) + EncodeArgs(CutAll(args[1..]))
  {
    hide GoodArg, Cut, EncodeArg;
    var cut := CutAll(args);
    assert cut[1..] == CutAll(args[1..]) && cut[0] == Cut(args[0]);
    assert cut == [cut[0]] + cut[1..];
  }

  lemma RawBytesSnoc(t: Scalar, es: seq<int>, i: nat)
    requires i < |es| && AllInRange(t, es)
    ensures RawBytes(t, es[..i + 1]) == RawBytes(t, es[..i]) + ElementBytes(t, es[i])
  {
    hide InRange, ElementBytes, RawBytes;
    RawBytesAppend(t, es[..i], es[i]);
    assert es[..i] + [es[i]] == es[..i + 1];
  }

  lemma {:induction false} RawBytesAppend(t: Scalar, es: seq<int>, e: int)
    requires AllInRange(t, es) && InRange(t, e)
    ensures RawBytes(t, es + [e]) == RawBytes(t, es) + ElementBytes(t, e)
    decreases |es|
  {
    hide InRange, ElementBytes, RawBytes;
    var all := es + [e];
    RawCons(t, all);
    RawNothing(t);
    if es == [] {
      assert all[1..] == [] && all[0] == e;
    } else {
      assert all[0] == es[0] && all[1..] == es[1..] + [e];
      RawCons(t, es);
      RawBytesAppend(t, es[1..], e);
    }
  }

  lemma OneByte(b: nat)
    requires b < 256
    ensures BigEndian(b, 1) == [b]
  {
    var k := 1;
    assert BigEndian(b, k) == BigEndian(b / 256, k - 1) + [b % 256];
  }
}
