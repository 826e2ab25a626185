/**
 The readers of command arguments: `build_args_packs` of scripts/devgen.py, which chooses the packs, and
 the two transports that read them: a byte stream (`Session<TCP>`) and a buffer with a cursor (`Buffer`,
 used by `Session<WEBSOCK>`).
 */
module WireReader {
  import opened Bits
  import opened Common
  import opened NetworkOrder
  import opened Sockets
  import opened Wire
  import opened WireOutcome

  /** `build_args_packs`. */
  method BuildArgsPacks(ts: seq<Type>) returns (packs: seq<Pack>, hasVector: bool)
    ensures packs == Packs([], ts)
    ensures hasVector <==> exists i | 0 <= i < |ts| :: IsDynamic(ts[i])
  {
    hide Packs, IsDynamic;
    packs, hasVector := [], false;
    var argsList: seq<Scalar> := [];
    assert ts[0..] == ts && [] + Packs([], ts) == Packs([], ts);
    for i := 0 to |ts|
      invariant packs + Packs(argsList, ts[i..]) == Packs([], ts)
      invariant hasVector <==> exists k | 0 <= k < i :: IsDynamic(ts[k])
    {
      var arg := ts[i];
      Packing(packs, argsList, ts[i..]);
      assert ts[i..][1..] == ts[i + 1..];
      if arg.ArrayType? || IsDynamic(arg) {
        hasVector := hasVector || IsDynamic(arg);
        if 0 < |argsList| {
          packs := packs + [Scalars(argsList)];
          argsList := [];
        }
        packs := packs + [Single(arg)];
      } else {
        NotDynamic(arg);
        argsList := argsList + [arg.t];
      }
    }
    assert ts[|ts|..] == [];
    PackingEnds(argsList);
    if 0 < |argsList| {
      packs := packs + [Scalars(argsList)];
    }
  }

  /** `is_std_vector` or `is_std_string`. */
  predicate IsDynamic(t: Type) { t.VectorType? || t.StringType? }

  lemma NotDynamic(t: Type)
    requires !t.ArrayType? && !IsDynamic(t)
    ensures t.ScalarType?
  {
  }

  /** One turn of the loop on the packs so far. */
  lemma Packing(packs: seq<Pack>, argsList: seq<Scalar>, ts: seq<Type>)
    requires ts != []
    ensures ts[0].ScalarType? ==> packs + Packs(argsList, ts) == packs + Packs(argsList + [ts[0].t], ts[1..])
    ensures !ts[0].ScalarType? ==>
              var flushed := if argsList == [] then packs else packs + [Scalars(argsList)];
              packs + Packs(argsList, ts) == (flushed + [Single(ts[0])]) + Packs([], ts[1..])
    ensures IsDynamic(ts[0]) || ts[0].ArrayType? ==> !ts[0].ScalarType?
  {
  }

  lemma PackingEnds(argsList: seq<Scalar>)
    ensures Packs(argsList, []) == if argsList == [] then [] else [Scalars(argsList)]
  {
  }

  // ---------------------------------------------------------------------------
  // The byte stream
  // ---------------------------------------------------------------------------

  /** Memory that nobody has written. */
  method Uninitialised(n: nat) returns (memory: seq<Byte>)
    ensures |memory| == n
  {
    memory := [];
    while |memory| < n
      invariant |memory| <= n
    {
      var b: Byte := *;
      memory := memory + [b];
    }
  }

  class TcpSession {
    const sock: Socket

    constructor (sock: Socket)
      ensures this.sock == sock
    {
      this.sock := sock;
    }

    /**
     `rcv_n_bytes` into a buffer of `n` bytes, for any way in which the reads are split. When the stream
     ends first the result is zero, and part of the buffer is as it was.
     */
    method RcvNBytes(n: nat) returns (r: int, data: seq<Byte>)
      modifies sock`input
      ensures |data| == n
      ensures
        var s := old(sock.input);
        if n <= |s| then r == Int32(n) && data == s[..n] && sock.input == s[n..]
        else r == 0 && data[..|s|] == s && sock.input == []
    {
      ghost var s := sock.input;
      data := [];
      while |data| < n
        invariant |data| <= n && data + sock.input == s
        decreases n - |data|
      {
        var more := sock.Read(n - |data|);
        if more == [] {
          var rest := Uninitialised(n - |data|);
          assert data + [] == data;
          return 0, data + rest;
        }
        assert data + (more + sock.input) == (data + more) + sock.input;
        data := data + more;
      }
      assert data == s[..n] && sock.input == s[n..];
      return Int32(n), data;
    }

    /** `get_pack_length`. */
    method GetPackLength() returns (length: int)
      modifies sock`input
      ensures
        var s := old(sock.input);
        if 4 <= |s| then length == LengthAt(s) && sock.input == s[4..] else 0 <= length && sock.input == []
    {
      var err, data := RcvNBytes(4);
      if err < 0 {
        return -1;
      }
      length := FromBigEndian(data);
    }

    /** What reading a pack from the stream `s` gives. A stream that ended is not noticed. */
    ghost predicate Reads(p: Pack, s: seq<Byte>, ok: bool, vs: seq<Value>)
      reads sock
    {
      match PackOutcome(Stream, p, s)
      case Got(values, used) => ok && vs == values && sock.input == s[used..]
      case Refused => !ok
      case Beyond => ok && sock.input == []
    }

    /** `deserialize`. */
    method ReadScalars(ts: seq<Scalar>) returns (ok: bool, vs: seq<Value>)
      modifies sock`input
      ensures Reads(Scalars(ts), old(sock.input), ok, vs)
    {
      hide Deserialize;
      var n := RequiredSize(ts);
      ghost var s := sock.input;
      var err, data := RcvNBytes(n);
      if n <= |s| {
        DeserializePrefix(ts, s, n);
      }
      return 0 <= err, Deserialize(ts, data, 0);
    }

    /** `recv` of an array. */
    method RecvArray(t: Scalar, n: nat) returns (ok: bool, vs: seq<Value>)
      modifies sock`input
      ensures Reads(Single(ArrayType(t, n)), old(sock.input), ok, vs)
    {
      hide OfRaw;
      ghost var s := sock.input;
      var size := n * Size(t);
      var err, data := RcvNBytes(size);
      if size <= |s| {
        assert data == s[0..size];
      }
      return 0 <= err, [Array(t, OfRaw(t, data, n))];
    }

    /** `recv` of a string. */
    method RecvString() returns (ok: bool, vs: seq<Value>)
      modifies sock`input
      ensures Reads(Single(StringType), old(sock.input), ok, vs)
    {
      hide FromBigEndian;
      ghost var s := sock.input;
      var length := GetPackLength();
      if length < 0 {
        return false, [];
      }
      var err, data := RcvNBytes(length);
      if 4 <= |s| {
        LengthBound(s);
        if 4 + length <= |s| {
          SliceAfter(s, 4, length);
        }
      }
      return 0 <= err, [Text(data)];
    }

    /** `recv` of a vector. */
    method RecvVector(t: Scalar) returns (ok: bool, vs: seq<Value>)
      modifies sock`input
      ensures Reads(Single(VectorType(t)), old(sock.input), ok, vs)
    {
      hide FromBigEndian, OfRaw, Int32;
      ghost var s := sock.input;
      assert 0 <= Int32(0) by { IntOfZero(); }
      var length := GetPackLength();
      // The division is unsigned, so that the test for a negative length which follows it never holds.
      var count := (if length < 0 then length + TWO_64 else length) / Size(t);
      var size := count * Size(t);
      var err, data := RcvNBytes(size);
      if 4 <= |s| {
        LengthBound(s);
        if 4 + size <= |s| {
          SliceAfter(s, 4, size);
          assert data == s[4..4 + size];
        }
      }
      return 0 <= err, [Vector(t, OfRaw(t, data, count))];
    }

    /** One pack of the parser that devgen generates. */
    method ReadOne(p: Pack) returns (ok: bool, vs: seq<Value>)
      modifies sock`input
      ensures Reads(p, old(sock.input), ok, vs)
    {
      hide ReadElements, Deserialize;
      match p {
        case Scalars(ts) => ok, vs := ReadScalars(ts);
        case Single(ArrayType(t, n)) => ok, vs := RecvArray(t, n);
        case Single(StringType) => ok, vs := RecvString();
        case Single(VectorType(t)) => ok, vs := RecvVector(t);
        case Single(ScalarType(t)) => ok, vs := ReadScalars([t]);
      }
    }

    /**
     A command read from the stream: the header, then the packs. The result does not depend on how the
     reads are split; a stream that ends after the header is not noticed.
     */
    method ReadCommand(packs: seq<Pack>) returns (ok: bool, ids: (int, int), args: seq<Value>)
      modifies sock`input
      ensures
        var s := old(sock.input);
        if |s| < 8 then !ok && sock.input == []
        else
          && ids == HeaderIds(s) == (s[4] as int * 256 + s[5] as int, s[6] as int * 256 + s[7] as int)
          && match PacksOutcome(Stream, packs, s[8..])
             case Got(values, used) => ok && args == values && sock.input == s[8 + used..]
             case Refused => !ok
             case Beyond => ok && sock.input == []
    {
      hide PacksOutcome, HeaderIds;
      ghost var s := sock.input;
      args := [];
      var err, header := RcvNBytes(8);
      ids := HeaderIds(header);
      if err <= 0 {
        return false, ids, [];
      }
      SameIds(s);
      IdsAreAt(s);
      ok, args := ReadArgs(packs);
      ghost var r := PacksOutcome(Stream, packs, s[8..]);
      if r.Got? {
        SliceAfter(s, 8, r.used);
      }
    }

    /** The packs of a command, read from the stream. */
    method ReadArgs(packs: seq<Pack>) returns (ok: bool, args: seq<Value>)
      modifies sock`input
      ensures
        var s := old(sock.input);
        match PacksOutcome(Stream, packs, s)
        case Got(values, used) => ok && args == values && sock.input == s[used..]
        case Refused => !ok
        case Beyond => ok && sock.input == []
      ensures PacksOutcome(Stream, packs, old(sock.input)).Beyond? <==> !WholePacks(packs, old(sock.input))
      ensures !ok <==> NegativePack(packs, old(sock.input))
    {
      hide PackOutcome, PacksOutcome, Onward, WholePacks, NegativePack;
      GoesOnExactly(packs, sock.input);
      ghost var s := sock.input;
      ghost var used: nat := 0;
      OnwardStart(Stream, packs, s);
      args := [];
      assert s[0..] == s;
      ghost var ended := false;
      for i := 0 to |packs|
        invariant ended ==> sock.input == [] && PacksOutcome(Stream, packs, s) == Beyond
        invariant !ended ==> used <= |s| && sock.input == s[used..] && Onward(Stream, packs, i, s, used, args)
      {
        if !ended {
          OnwardStep(Stream, packs, i, s, used, args);
        } else {
          EndedStays(packs[i]);
        }
        ghost var first := PackOutcome(Stream, packs[i], sock.input);
        var ok1, vs := ReadOne(packs[i]);
        if !ok1 {
          return false, args;
        }
        args := args + vs;
        if first.Got? {
          used := used + first.used;
        } else {
          ended := true;
        }
      }
      ok := true;
      if !ended {
        OnwardEnd(Stream, packs, s, used, args);
      }
    }
  }

  lemma IntOfZero()
    ensures Int32(0) == 0
  {
  }

  /** On a stream that has ended nothing is refused, and nothing is left. */
  lemma EndedStays(p: Pack)
    ensures !PackOutcome(Stream, p, []).Refused?
  {
    hide Deserialize, OfRaw;
  }

  lemma SameIds(s: seq<Byte>)
    requires 8 <= |s|
    ensures HeaderIds(s[..8]) == HeaderIds(s)
  {
    hide DecodeScalar;
    assert s[..8][4..6] == s[4..6] && s[..8][6..8] == s[6..8];
  }

  lemma SliceAfter(s: seq<Byte>, skip: nat, n: nat)
    requires skip + n <= |s|
    ensures s[skip..][..n] == s[skip..skip + n] && s[skip..][n..] == s[skip + n..]
  {
  }

  lemma SliceOfRest(s: seq<Byte>, skip: nat, lo: nat, hi: nat)
    requires lo <= hi && skip + hi <= |s|
    ensures s[skip..][lo..hi] == s[skip + lo..skip + hi]
  {
  }

  /** A pack of scalars needs no more than its own bytes. */
  lemma {:induction false} DeserializeSame(ts: seq<Scalar>, x: seq<Byte>, y: seq<Byte>, position: nat)
    requires position + RequiredSize(ts) <= |x| && x <= y
    ensures Deserialize(ts, x, position) == Deserialize(ts, y, position)
    decreases |ts|
  {
    hide DecodeScalar;
    if ts != [] {
      var next := position + Size(ts[0]);
      assert x[position..next] == y[position..next];
      DeserializeSame(ts[1..], x, y, next);
    }
  }

  lemma DeserializePrefix(ts: seq<Scalar>, s: seq<Byte>, n: nat)
    requires n == RequiredSize(ts) <= |s|
    ensures Deserialize(ts, s[..n], 0) == Deserialize(ts, s, 0)
  {
    DeserializeSame(ts, s[..n], s, 0);
  }

  // ---------------------------------------------------------------------------
  // The buffer with a cursor
  // ---------------------------------------------------------------------------

  /** The code has no test for the end of the buffer: the tests that return `Beyond` stand for its reads past it. */
  class CommandBuffer {
    const data: array<Byte>
    var position: nat

    ghost predicate Valid()
      reads this
    {
      position <= data.Length
    }

    constructor (data: array<Byte>, position: nat)
      requires position <= data.Length
      ensures Valid() && this.data == data && this.position == position
    {
      this.data, this.position := data, position;
    }

    /** The outcome of reading a pack at the cursor, and the cursor after it. */
    twostate predicate Reads(p: Pack, r: Outcome)
      reads this, data
      requires old(Valid())
    {
      && Valid() && r == PackOutcome(Buffer, p, old(data[position..]))
      && (r.Got? ==> position == old(position) + r.used)
    }

    /** `Buffer::deserialize`. */
    method DeserializePack(ts: seq<Scalar>) returns (r: Outcome)
      requires Valid()
      modifies this
      ensures Reads(Scalars(ts), r)
    {
      hide Deserialize;
      if data.Length < position + RequiredSize(ts) {
        return Beyond;
      }
      r := Got(Deserialize(ts, data[position..], 0), RequiredSize(ts));
      position := position + RequiredSize(ts);
    }

    /** `Buffer::extract_array`. */
    method ExtractArray(t: Scalar, n: nat) returns (r: Outcome)
      requires Valid()
      modifies this
      ensures Reads(Single(ArrayType(t, n)), r)
    {
      hide OfRaw;
      var end := position + n * Size(t);
      if data.Length < end {
        return Beyond;
      }
      SliceOfRest(data[..], position, 0, n * Size(t));
      assert data[position..end] == data[position..][0..n * Size(t)];
      r := Got([Array(t, OfRaw(t, data[position..end], n))], n * Size(t));
      position := end;
    }

    /** The length before a string or a vector. */
    method Length() returns (length: Option<nat>)
      requires Valid()
      modifies this
      ensures Valid()
      ensures length == if data.Length < old(position) + 4 then None else Some(LengthAt(old(data[position..])))
      ensures length.Some? ==> position == old(position) + 4
    {
      if data.Length < position + 4 {
        return None;
      }
      assert data[position..position + 4] == data[position..][..4];
      length := Some(FromBigEndian(data[position..position + 4]));
      position := position + 4;
    }

    /** `recv` of a string, with `Buffer::to_string`. */
    method RecvString() returns (r: Outcome)
      requires Valid()
      modifies this
      ensures Reads(Single(StringType), r)
    {
      hide FromBigEndian;
      ghost var s := data[position..];
      var n := Length();
      if n == None {
        return Beyond;
      }
      LengthBound(s);
      var length := n.value;
      if BUFFER_LIMIT < length {
        return Refused;
      }
      if data.Length < position + length {
        return Beyond;
      }
      SliceOfRest(data[..], position - 4, 4, 4 + length);
      assert data[position..position + length] == s[4..4 + length];
      r := Got([Text(data[position..position + length])], 4 + length);
      position := position + length;
    }

    /** `recv` of a vector, with `Buffer::to_vector`. */
    method RecvVector(t: Scalar) returns (r: Outcome)
      requires Valid()
      modifies this
      ensures Reads(Single(VectorType(t)), r)
    {
      hide FromBigEndian, OfRaw;
      ghost var s := data[position..];
      var n := Length();
      if n == None {
        return Beyond;
      }
      LengthBound(s);
      if BUFFER_LIMIT < n.value {
        return Refused;
      }
      var count := n.value / Size(t);
      var size := count * Size(t);
      if data.Length < position + size {
        return Beyond;
      }
      SliceOfRest(data[..], position - 4, 4, 4 + size);
      assert data[position..position + size] == s[4..4 + size];
      r := Got([Vector(t, OfRaw(t, data[position..position + size], count))], 4 + size);
      position := position + size;
    }

    method ReadOne(p: Pack) returns (r: Outcome)
      requires Valid()
      modifies this
      ensures Reads(p, r)
    {
      hide ReadElements, Deserialize, FromBigEndian;
      match p {
        case Scalars(ts) => r := DeserializePack(ts);
        case Single(ArrayType(t, n)) => r := ExtractArray(t, n);
        case Single(StringType) => r := RecvString();
        case Single(VectorType(t)) => r := RecvVector(t);
        case Single(ScalarType(t)) => r := DeserializePack([t]);
      }
    }

    /**
     The packs of a command, read from the buffer up to the first one whose length is refused. The reads
     stay in the buffer exactly when each pack before that is there.
     */
    method ReadArgs(packs: seq<Pack>) returns (r: Outcome)
      requires Valid()
      modifies this
      ensures Valid() && r == PacksOutcome(Buffer, packs, old(data[position..]))
      ensures r.Got? ==> position == old(position) + r.used
      ensures r.Beyond? <==> !InsidePacks(packs, old(data[position..]))
    {
      hide PackOutcome, PacksOutcome, Onward, InsidePacks;
      ghost var s := data[position..];
      StaysInsideExactly(packs, s);
      OnwardStart(Buffer, packs, s);
      var args: seq<Value>, used: nat := [], 0;
      assert s[0..] == s;
      for i := 0 to |packs|
        invariant Valid() && position == old(position) + used && Onward(Buffer, packs, i, s, used, args)
      {
        SliceAfter(data[..], old(position), used);
        OnwardStep(Buffer, packs, i, s, used, args);
        var first := ReadOne(packs[i]);
        if !first.Got? {
          return first;
        }
        args, used := args + first.values, used + first.used;
      }
      OnwardEnd(Buffer, packs, s, used, args);
      return Got(args, used);
    }
  }
}
