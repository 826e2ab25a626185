/**
 The wire format of commands (core/serializer_deserializer.hpp, core/commands.hpp) and the argument packs
 of scripts/devgen.py, on values. A C++ parameter pack is a sequence of types or of values; floating-point
 numbers are their bit patterns. Scalars travel in network byte order, the elements of containers as they
 are in the memory of a little-endian machine.
 */
module Wire {
  import opened Bits
  import opened Common
  import opened NetworkOrder

  datatype Scalar = U8 | I8 | U16 | I16 | U32 | I32 | U64 | I64 | F32 | F64 | Bool

  datatype Type = ScalarType(t: Scalar) | VectorType(t: Scalar) | StringType | ArrayType(t: Scalar, n: nat)

  datatype Value =
    | Number(t: Scalar, v: int)
    | Vector(t: Scalar, elements: seq<int>)
    | Text(bytes: seq<Byte>)
    | Array(t: Scalar, elements: seq<int>)

  /** `size_of`. */
  function Size(t: Scalar): (n: nat)
    ensures n in {1, 2, 4, 8}
  {
    match t
    case U8 => 1 case I8 => 1 case Bool => 1
    case U16 => 2 case I16 => 2
    case U32 => 4 case I32 => 4 case F32 => 4
    case U64 => 8 case I64 => 8 case F64 => 8
  }

  predicate Signed(t: Scalar) { t in {I8, I16, I32, I64} }

  /** The values of a type: two's complement for signed integers, bit patterns for floats. */
  ghost predicate InRange(t: Scalar, v: int) {
    if t == Bool then v == 0 || v == 1
    else if Signed(t) then 0 <= 2 * v + Power256(Size(t)) && 2 * v < Power256(Size(t))
    else 0 <= v < Power256(Size(t))
  }

  /** The bits of a value as an unsigned number. */
  function Pattern(t: Scalar, v: int): int { if v < 0 then v + Power256(Size(t)) else v }

  function OfPattern(t: Scalar, b: nat): int {
    if t == Bool then (if b == 1 then 1 else 0)
    else if Signed(t) && Power256(Size(t)) <= 2 * b then b - Power256(Size(t))
    else b
  }

  lemma PatternRoundTrip(t: Scalar, v: int)
    requires InRange(t, v)
    ensures 0 <= Pattern(t, v) < Power256(Size(t)) && OfPattern(t, Pattern(t, v)) == v
  {
    Powers();
  }

  // ---------------------------------------------------------------------------
  // Encoding
  // ---------------------------------------------------------------------------

  ghost function EncodeScalar(t: Scalar, v: int): (s: seq<Byte>)
    requires InRange(t, v)
    ensures |s| == Size(t)
  {
    PatternRoundTrip(t, v);
    BigEndian(Pattern(t, v), Size(t))
  }

  ghost predicate AllInRange(t: Scalar, es: seq<int>) { forall i | 0 <= i < |es| :: InRange(t, es[i]) }

  ghost function ElementBytes(t: Scalar, e: int): (s: seq<Byte>)
    requires InRange(t, e)
    ensures |s| == Size(t)
  {
    PatternRoundTrip(t, e);
    LittleEndian(Pattern(t, e), Size(t))
  }

  /** The memory of a container's elements. */
  ghost function RawBytes(t: Scalar, es: seq<int>): (s: seq<Byte>)
    requires AllInRange(t, es)
    ensures |s| == |es| * Size(t)
  {
    if es == [] then []
    else
      CountStep(|es|, Size(t));
      ElementBytes(t, es[0]) + RawBytes(t, es[1..])
  }

  /** The largest length that four bytes hold. */
  const LENGTH_LIMIT: nat := 0xffff_ffff

  /** Values in range, and containers whose length the four bytes before them hold. */
  ghost predicate GoodArg(a: Value) {
    match a
    case Number(t, v) => InRange(t, v)
    case Vector(t, es) => AllInRange(t, es) && |es| * Size(t) <= LENGTH_LIMIT
    case Text(bytes) => |bytes| <= LENGTH_LIMIT
    case Array(t, es) => AllInRange(t, es)
  }

  /** Values in range, of any length. */
  ghost predicate OfType(a: Value) {
    match a
    case Number(t, v) => InRange(t, v)
    case Vector(t, es) => AllInRange(t, es)
    case Text(_) => true
    case Array(t, es) => AllInRange(t, es)
  }

  ghost predicate AllOfType(args: seq<Value>) { forall i | 0 <= i < |args| :: OfType(args[i]) }

  /** What is left of a container when its size is taken modulo 2^32, as `n_bytes` is. */
  ghost function Cut(a: Value): Value {
    match a
    case Vector(t, es) =>
      CutLength(|es|, Size(t));
      Vector(t, es[..|es| * Size(t) % 0x1_0000_0000 / Size(t)])
    case Text(bytes) => Text(bytes[..|bytes| % 0x1_0000_0000])
    case _ => a
  }

  ghost function CutAll(args: seq<Value>): (cut: seq<Value>)
    ensures |cut| == |args|
  {
    seq(|args|, i requires 0 <= i < |args| => Cut(args[i]))
  }

  lemma CutLength(count: nat, size: nat)
    requires size in {1, 2, 4, 8}
    ensures
      var n := count * size % 0x1_0000_0000;
      n / size * size == n && n / size <= count && (n / size == count <==> count * size < 0x1_0000_0000)
  {
    if size == 1 {
    } else if size == 2 {
      CutBy(count, 2, 0x8000_0000);
    } else if size == 4 {
      CutBy(count, 4, 0x4000_0000);
    } else {
      CutBy(count, 8, 0x2000_0000);
    }
  }

  /** The remainder of a multiple of `size`, when `size` times `m` is 2^32. */
  lemma CutBy(count: nat, size: nat, m: nat)
    requires 0 < size && 0 < m && size * m == 0x1_0000_0000
    ensures count * size % 0x1_0000_0000 == count % m * size
    ensures count % m * size / size == count % m
    ensures count % m <= count && (count % m == count <==> count * size < 0x1_0000_0000)
  {
    CutRemainder(count, size, m);
    LessTimes(count, m, size);
    TimesOver(count % m, size);
    WholeExactly(count, m);
  }

  lemma CutRemainder(count: nat, size: nat, m: nat)
    requires 0 < size && 0 < m && size * m == 0x1_0000_0000
    ensures count * size % 0x1_0000_0000 == count % m * size
  {
    var q, r := count / m, count % m;
    LessTimes(r, m, size);
    Regrouped(count, q, m, r, size, 0x1_0000_0000);
    RemainderIs(count * size, q, r * size);
  }

  lemma Regrouped(count: nat, q: nat, m: nat, r: nat, size: nat, n: nat)
    requires size * m == n && count == q * m + r
    ensures count * size == q * n + r * size
  {
    assert (q * m + r) * size == q * (size * m) + r * size;
  }

  lemma LessTimes(x: nat, y: nat, size: nat)
    requires 0 < size
    ensures x < y <==> x * size < y * size
  {
  }

  lemma TimesOver(r: nat, size: nat)
    requires 0 < size
    ensures r * size / size == r
  {
    QuotientIs(r * size, r, size, 0);
  }

  lemma WholeExactly(count: nat, m: nat)
    requires 0 < m
    ensures count % m <= count && (count % m == count <==> count < m)
  {
  }

  lemma RemainderIs(x: nat, q: nat, r: nat)
    requires r < 0x1_0000_0000 && x == q * 0x1_0000_0000 + r
    ensures x % 0x1_0000_0000 == r
  {
  }

  /** A cut argument has the type of the whole one, and is the whole one exactly when its size fits four bytes. */
  lemma CutIsGood(a: Value)
    requires OfType(a)
    ensures GoodArg(Cut(a)) && TypeOf(Cut(a)) == TypeOf(a)
    ensures Cut(a) == a <==> GoodArg(a)
  {
    hide InRange;
    if a.Vector? {
      CutLength(|a.elements|, Size(a.t));
    }
  }

  lemma CutAllIsGood(args: seq<Value>)
    requires AllOfType(args)
    ensures GoodArgs(CutAll(args)) && TypesOf(CutAll(args)) == TypesOf(args)
    ensures CutAll(args) == args <==> GoodArgs(args)
  {
    hide GoodArg, OfType, Cut, TypeOf;
    forall i | 0 <= i < |args|
      ensures GoodArg(CutAll(args)[i]) && TypeOf(CutAll(args)[i]) == TypeOf(args[i])
      ensures CutAll(args)[i] == args[i] <==> GoodArg(args[i])
    {
      CutIsGood(args[i]);
    }
    if GoodArgs(args) {
      assert forall i | 0 <= i < |args| :: CutAll(args)[i] == args[i];
    }
  }

  lemma RawCons(t: Scalar, es: seq<int>)
    requires AllInRange(t, es) && es != []
    ensures RawBytes(t, es) == ElementBytes(t, es[0]) + RawBytes(t, es[1..])
  {
    hide ElementBytes, InRange, Size;
  }

  lemma RawNothing(t: Scalar)
    ensures RawBytes(t, []) == []
  {
  }

  lemma {:induction false} RawPrefix(t: Scalar, es: seq<int>, k: nat)
    requires AllInRange(t, es) && k <= |es|
    ensures k * Size(t) <= |es| * Size(t) && RawBytes(t, es)[..k * Size(t)] == RawBytes(t, es[..k])
    decreases k
  {
    hide ElementBytes, InRange, Size, RawBytes;
    if k == 0 {
      RawNothing(t);
      assert es[..k] == [];
    } else {
      RawPrefix(t, es[1..], k - 1);
      CountStep(k, Size(t));
      CountStep(|es|, Size(t));
      assert es[..k][0] == es[0] && es[..k][1..] == es[1..][..k - 1];
      RawCons(t, es);
      RawCons(t, es[..k]);
      PrefixOfSum(ElementBytes(t, es[0]), RawBytes(t, es[1..]), (k - 1) * Size(t));
    }
  }

  lemma PrefixOfSum(x: seq<Byte>, y: seq<Byte>, k: nat)
    requires k <= |y|
    ensures (x + y)[..|x| + k] == x + y[..k]
  {
  }

  ghost predicate GoodArgs(args: seq<Value>) { forall i | 0 <= i < |args| :: GoodArg(args[i]) }

  ghost function EncodeArg(a: Value): seq<Byte>
    requires GoodArg(a)
  {
    match a
    case Number(t, v) => EncodeScalar(t, v)
    case Vector(t, es) => BigEndian(|es| * Size(t), 4) + RawBytes(t, es)
    case Text(bytes) => BigEndian(|bytes|, 4) + bytes
    case Array(t, es) => RawBytes(t, es)
  }

  /** The simple form of a command's payload: each argument's own encoding, one after the other. */
  ghost function EncodeArgs(args: seq<Value>): seq<Byte>
    requires GoodArgs(args)
  {
    if args == [] then [] else EncodeArg(args[0]) + EncodeArgs(args[1..])
  }

  function TypeOf(a: Value): Type {
    match a
    case Number(t, _) => ScalarType(t)
    case Vector(t, _) => VectorType(t)
    case Text(_) => StringType
    case Array(t, es) => ArrayType(t, |es|)
  }

  function TypesOf(args: seq<Value>): (ts: seq<Type>)
    ensures |ts| == |args|
  {
    seq(|args|, i requires 0 <= i < |args| => TypeOf(args[i]))
  }

  // ---------------------------------------------------------------------------
  // Packs
  // ---------------------------------------------------------------------------

  datatype Pack = Scalars(ts: seq<Scalar>) | Single(t: Type)

  function Flush(pending: seq<Scalar>): seq<Pack> { if pending == [] then [] else [Scalars(pending)] }

  /** `build_args_packs` from a point where the scalars `pending` have not been packed yet. */
  function Packs(pending: seq<Scalar>, ts: seq<Type>): seq<Pack>
    decreases |ts|
  {
    if ts == [] then Flush(pending)
    else if ts[0].ScalarType? then Packs(pending + [ts[0].t], ts[1..])
    else Flush(pending) + [Single(ts[0])] + Packs([], ts[1..])
  }

  function TypesOfPack(p: Pack): seq<Type> {
    match p
    case Scalars(ts) => seq(|ts|, i requires 0 <= i < |ts| => ScalarType(ts[i]))
    case Single(t) => [t]
  }

  function Flatten(ps: seq<Pack>): seq<Type> {
    if ps == [] then [] else TypesOfPack(ps[0]) + Flatten(ps[1..])
  }

  /** Scalars are packed together as far as possible, and no pack is empty. */
  ghost predicate Maximal(ps: seq<Pack>) {
    && (forall i | 0 <= i < |ps| :: ps[i].Scalars? ==> ps[i].ts != [])
    && (forall i | 0 <= i < |ps| - 1 :: ps[i].Scalars? ==> ps[i + 1].Single?)
    && (forall i | 0 <= i < |ps| :: ps[i].Single? ==> !ps[i].t.ScalarType?)
  }

  lemma FlattenAppend(ps: seq<Pack>, qs: seq<Pack>)
    ensures Flatten(ps + qs) == Flatten(ps) + Flatten(qs)
  {
    if ps == [] {
      assert ps + qs == qs;
    } else {
      assert (ps + qs)[1..] == ps[1..] + qs;
      FlattenAppend(ps[1..], qs);
    }
  }

  /** The packs hold exactly the argument types, in order, with adjacent scalars together. */
  lemma {:induction false} PacksAreTheTypes(pending: seq<Scalar>, ts: seq<Type>)
    ensures Flatten(Packs(pending, ts)) == TypesOfPack(Scalars(pending)) + ts
    ensures Maximal(Packs(pending, ts))
    decreases |ts|
  {
    hide Flatten;
    FlattenFlush(pending);
    if ts == [] {
    } else if ts[0].ScalarType? {
      PacksAreTheTypes(pending + [ts[0].t], ts[1..]);
      assert TypesOfPack(Scalars(pending + [ts[0].t])) + ts[1..] == TypesOfPack(Scalars(pending)) + ts;
    } else {
      PacksAreTheTypes([], ts[1..]);
      FlattenAppend(Flush(pending), [Single(ts[0])] + Packs([], ts[1..]));
      FlattenSingle(ts[0], Packs([], ts[1..]));
      assert Flush(pending) + [Single(ts[0])] + Packs([], ts[1..]) == Flush(pending) + ([Single(ts[0])] + Packs([], ts[1..]));
      assert TypesOfPack(Scalars([])) == [];
      assert ts == [ts[0]] + ts[1..];
    }
  }

  lemma FlattenFlush(pending: seq<Scalar>)
    ensures Flatten(Flush(pending)) == TypesOfPack(Scalars(pending))
  {
    assert Flatten([]) == [];
    if pending != [] {
      assert [Scalars(pending)][1..] == [];
    }
  }

  lemma FlattenSingle(t: Type, ps: seq<Pack>)
    ensures Flatten([Single(t)] + ps) == [t] + Flatten(ps)
  {
    assert ([Single(t)] + ps)[1..] == ps;
  }

  // ---------------------------------------------------------------------------
  // Decoding
  // ---------------------------------------------------------------------------

  function DecodeScalar(t: Scalar, s: seq<Byte>): int { OfPattern(t, FromBigEndian(s)) }

  /** `required_buffer_size`. */
  function RequiredSize(ts: seq<Scalar>): nat {
    if ts == [] then 0 else Size(ts[0]) + RequiredSize(ts[1..])
  }

  /** `detail::deserialize`: each scalar at its position in the buffer. */
  function Deserialize(ts: seq<Scalar>, s: seq<Byte>, position: nat): seq<Value>
    requires position + RequiredSize(ts) <= |s|
    decreases |ts|
  {
    if ts == [] then []
    else
      var next := position + Size(ts[0]);
      [Number(ts[0], DecodeScalar(ts[0], s[position..next]))] + Deserialize(ts[1..], s, next)
  }

  /** The elements of a container in memory. */
  function OfRaw(t: Scalar, s: seq<Byte>, count: nat): (es: seq<int>)
    requires count * Size(t) <= |s|
    ensures |es| == count
    decreases count
  {
    if count == 0 then []
    else
      CountStep(count, Size(t));
      [OfPattern(t, FromLittleEndian(s[..Size(t)]))] + OfRaw(t, s[Size(t)..], count - 1)
  }

  lemma CountStep(count: nat, size: nat)
    requires 0 < count
    ensures count * size == size + (count - 1) * size
  {
  }

  /** A container of `count` elements at the start of `s`, after its `skip` bytes of length. */
  function ReadElements(s: seq<Byte>, skip: nat, t: Scalar, count: nat): Option<(seq<int>, nat)> {
    var end := skip + count * Size(t);
    if |s| < end then None else Some((OfRaw(t, s[skip..end], count), end))
  }

  /** The values of a pack at the start of `s`, and the bytes read; containers of more than `limit` bytes fail. */
  function ReadPack(p: Pack, s: seq<Byte>, limit: nat): (r: Option<(seq<Value>, nat)>)
    ensures r.Some? ==> r.value.1 <= |s|
  {
    match p
    case Scalars(ts) =>
      if |s| < RequiredSize(ts) then None else Some((Deserialize(ts, s, 0), RequiredSize(ts)))
    case Single(ArrayType(t, n)) =>
      var r := ReadElements(s, 0, t, n);
      if r == None then None else Some(([Array(t, r.value.0)], r.value.1))
    case Single(StringType) =>
      if |s| < 4 then None
      else
        var n := FromBigEndian(s[..4]);
        if limit < n || |s| < 4 + n then None else Some(([Text(s[4..4 + n])], 4 + n))
    case Single(VectorType(t)) =>
      if |s| < 4 then None
      else
        var n := FromBigEndian(s[..4]);
        var r := ReadElements(s, 4, t, n / Size(t));
        if limit < n || r == None then None else Some(([Vector(t, r.value.0)], r.value.1))
    case Single(ScalarType(t)) =>
      if |s| < RequiredSize([t]) then None else Some((Deserialize([t], s, 0), RequiredSize([t])))
  }

  function ReadPacks(ps: seq<Pack>, s: seq<Byte>, limit: nat): Option<(seq<Value>, nat)>
    decreases |ps|
  {
    if ps == [] then Some(([], 0))
    else
      var first := ReadPack(ps[0], s, limit);
      if first == None || |s| < first.value.1 then None
      else
        var rest := ReadPacks(ps[1..], s[first.value.1..], limit);
        if rest == None then None else Some((first.value.0 + rest.value.0, first.value.1 + rest.value.1))
  }

  // ---------------------------------------------------------------------------
  // The round trip
  // ---------------------------------------------------------------------------

  lemma ScalarRoundTrip(t: Scalar, v: int)
    requires InRange(t, v)
    ensures DecodeScalar(t, EncodeScalar(t, v)) == v
  {
    PatternRoundTrip(t, v);
    BigEndianRoundTrip(Pattern(t, v), Size(t));
  }

  lemma ElementRoundTrip(t: Scalar, e: int)
    requires InRange(t, e)
    ensures OfPattern(t, FromLittleEndian(ElementBytes(t, e))) == e
  {
    PatternRoundTrip(t, e);
    LittleEndianRoundTrip(Pattern(t, e), Size(t));
  }

  lemma {:induction false} RawRoundTrip(t: Scalar, es: seq<int>)
    requires AllInRange(t, es)
    ensures OfRaw(t, RawBytes(t, es), |es|) == es
    decreases |es|
  {
    hide ElementBytes, FromLittleEndian, OfPattern, InRange, Size;
    if es != [] {
      ElementRoundTrip(t, es[0]);
      RawRoundTrip(t, es[1..]);
      var s := RawBytes(t, es);
      assert s[..Size(t)] == ElementBytes(t, es[0]) && s[Size(t)..] == RawBytes(t, es[1..]);
    }
  }

  lemma {:induction false} EncodeArgsAppend(xs: seq<Value>, ys: seq<Value>)
    requires GoodArgs(xs) && GoodArgs(ys)
    ensures GoodArgs(xs + ys) && EncodeArgs(xs + ys) == EncodeArgs(xs) + EncodeArgs(ys)
    decreases |xs|
  {
    hide EncodeArg, GoodArg;
    if xs == [] {
      assert xs + ys == ys;
    } else {
      assert (xs + ys)[1..] == xs[1..] + ys && (xs + ys)[0] == xs[0];
      EncodeArgsAppend(xs[1..], ys);
    }
  }

  ghost predicate AllNumbers(vs: seq<Value>) {
    forall i | 0 <= i < |vs| :: vs[i].Number? && InRange(vs[i].t, vs[i].v)
  }

  function ScalarsOf(vs: seq<Value>): (ts: seq<Scalar>)
    requires forall i | 0 <= i < |vs| :: vs[i].Number?
    ensures |ts| == |vs|
  {
    seq(|vs|, i requires 0 <= i < |vs| => vs[i].t)
  }

  /** Scalars written one after the other are read back by their positions. */
  lemma {:induction false} DeserializeRoundTrip(vs: seq<Value>, before: seq<Byte>, after: seq<Byte>)
    requires AllNumbers(vs)
    ensures GoodArgs(vs) && RequiredSize(ScalarsOf(vs)) == |EncodeArgs(vs)|
    ensures Deserialize(ScalarsOf(vs), before + EncodeArgs(vs) + after, |before|) == vs
    decreases |vs|
  {
    hide EncodeArgs, Deserialize, RequiredSize, InRange, ScalarsOf, GoodArg;
    NumbersAreGood(vs);
    if vs == [] {
      DeserializeNothing(before + EncodeArgs(vs) + after, |before|);
      NothingEncoded();
    } else {
      var v, rest := vs[0], vs[1..];
      assert vs == [v] + rest;
      NumberEncoded(v, rest);
      var x, y := EncodeScalar(v.t, v.v), EncodeArgs(rest);
      assert before + (x + y) + after == before + x + (y + after) == (before + x) + y + after;
      DeserializeRoundTrip(rest, before + x, after);
      DeserializeCons(v.t, ScalarsOf(rest), before, x, y + after);
      ScalarRoundTrip(v.t, v.v);
    }
  }

  lemma DeserializeNothing(s: seq<Byte>, position: nat)
    requires position <= |s|
    ensures RequiredSize([]) == 0 && Deserialize([], s, position) == []
  {
  }

  lemma NumberEncoded(v: Value, rest: seq<Value>)
    requires v.Number? && InRange(v.t, v.v) && AllNumbers(rest)
    ensures GoodArgs([v] + rest) && GoodArgs(rest) && AllNumbers([v] + rest)
    ensures EncodeArgs([v] + rest) == EncodeScalar(v.t, v.v) + EncodeArgs(rest)
    ensures ScalarsOf([v] + rest) == [v.t] + ScalarsOf(rest)
  {
    hide EncodeScalar, InRange;
    assert ([v] + rest)[1..] == rest;
  }

  lemma DeserializeCons(t: Scalar, ts: seq<Scalar>, before: seq<Byte>, x: seq<Byte>, tail: seq<Byte>)
    requires |x| == Size(t) && RequiredSize(ts) <= |tail|
    ensures RequiredSize([t] + ts) == Size(t) + RequiredSize(ts)
    ensures Deserialize([t] + ts, before + x + tail, |before|) ==
            [Number(t, DecodeScalar(t, x))] + Deserialize(ts, before + x + tail, |before + x|)
  {
    hide DecodeScalar, Size, Deserialize, RequiredSize;
    var all, s := [t] + ts, before + x + tail;
    assert all[0] == t && all[1..] == ts;
    assert s[|before|..|before| + |x|] == x;
    DeserializeStep(all, s, |before|);
  }

  lemma DeserializeStep(ts: seq<Scalar>, s: seq<Byte>, position: nat)
    requires ts != [] && position + Size(ts[0]) + RequiredSize(ts[1..]) <= |s|
    ensures RequiredSize(ts) == Size(ts[0]) + RequiredSize(ts[1..])
    ensures
      var next := position + Size(ts[0]);
      Deserialize(ts, s, position) ==
      [Number(ts[0], DecodeScalar(ts[0], s[position..next]))] + Deserialize(ts[1..], s, next)
  {
    hide DecodeScalar, Size;
  }

  ghost predicate Within(a: Value, limit: nat) {
    match a
    case Vector(t, es) => |es| * Size(t) <= limit
    case Text(bytes) => |bytes| <= limit
    case _ => true
  }

  lemma LengthField(n: nat, rest: seq<Byte>)
    requires n <= LENGTH_LIMIT
    ensures FromBigEndian((BigEndian(n, 4) + rest)[..4]) == n
  {
    hide BigEndian, FromBigEndian;
    Powers();
    BigEndianRoundTrip(n, 4);
    assert (BigEndian(n, 4) + rest)[..4] == BigEndian(n, 4);
  }

  lemma ElementsRoundTrip(prefix: seq<Byte>, t: Scalar, es: seq<int>, rest: seq<Byte>)
    requires AllInRange(t, es)
    ensures ReadElements(prefix + RawBytes(t, es) + rest, |prefix|, t, |es|) == Some((es, |prefix| + |es| * Size(t)))
  {
    hide RawBytes, OfRaw;
    var raw := RawBytes(t, es);
    RawRoundTrip(t, es);
    assert (prefix + raw + rest)[|prefix|..|prefix| + |raw|] == raw;
  }

  lemma ContainerRoundTrip(a: Value, rest: seq<Byte>, limit: nat)
    requires GoodArg(a) && !a.Number? && Within(a, limit)
    ensures ReadPack(Single(TypeOf(a)), EncodeArg(a) + rest, limit) == Some(([a], |EncodeArg(a)|))
  {
    hide BigEndian, FromBigEndian, ReadElements, RawBytes;
    match a
    case Vector(t, es) =>
      var n := |es| * Size(t);
      var prefix := BigEndian(n, 4);
      LengthField(n, RawBytes(t, es) + rest);
      assert EncodeArg(a) + rest == prefix + (RawBytes(t, es) + rest) == prefix + RawBytes(t, es) + rest;
      ElementsRoundTrip(prefix, t, es, rest);
      CountOf(|es|, Size(t));
    case Text(bytes) =>
      LengthField(|bytes|, bytes + rest);
      assert EncodeArg(a) + rest == BigEndian(|bytes|, 4) + (bytes + rest);
    case Array(t, es) =>
      assert EncodeArg(a) + rest == [] + RawBytes(t, es) + rest;
      ElementsRoundTrip([], t, es, rest);
  }

  lemma CountOf(count: nat, size: nat)
    requires size in {1, 2, 4, 8}
    ensures count * size / size == count
  {
  }

  lemma ReadCons(p: Pack, ps: seq<Pack>, x: seq<Byte>, y: seq<Byte>, limit: nat)
    requires ReadPack(p, x + y, limit).Some? && ReadPack(p, x + y, limit).value.1 == |x|
    requires ReadPacks(ps, y, limit).Some?
    ensures
      var first, rest := ReadPack(p, x + y, limit).value, ReadPacks(ps, y, limit).value;
      ReadPacks([p] + ps, x + y, limit) == Some((first.0 + rest.0, |x| + rest.1))
  {
    hide ReadPack;
    assert ([p] + ps)[1..] == ps && (x + y)[|x|..] == y;
  }

  lemma ReadFlush(pending: seq<Value>, ps: seq<Pack>, y: seq<Byte>, limit: nat)
    requires AllNumbers(pending) && ReadPacks(ps, y, limit).Some?
    ensures GoodArgs(pending)
    ensures
      var x, rest := EncodeArgs(pending), ReadPacks(ps, y, limit).value;
      ReadPacks(Flush(ScalarsOf(pending)) + ps, x + y, limit) == Some((pending + rest.0, |x| + rest.1))
  {
    hide ReadPacks, ReadPack, EncodeArgs, InRange, ScalarsOf;
    NumbersAreGood(pending);
    if pending == [] {
      NothingEncoded();
      assert [] + ps == ps && [] + y == y;
      assert [] + ReadPacks(ps, y, limit).value.0 == ReadPacks(ps, y, limit).value.0;
    } else {
      ScalarsRoundTrip(pending, y, limit);
      ReadCons(Scalars(ScalarsOf(pending)), ps, EncodeArgs(pending), y, limit);
    }
  }

  lemma NothingEncoded()
    ensures EncodeArgs([]) == [] && ScalarsOf([]) == []
  {
  }

  lemma ScalarsRoundTrip(vs: seq<Value>, y: seq<Byte>, limit: nat)
    requires AllNumbers(vs)
    ensures GoodArgs(vs)
    ensures ReadPack(Scalars(ScalarsOf(vs)), EncodeArgs(vs) + y, limit) == Some((vs, |EncodeArgs(vs)|))
  {
    hide Deserialize, RequiredSize, EncodeArgs, InRange, ScalarsOf;
    DeserializeRoundTrip(vs, [], y);
    var x := EncodeArgs(vs);
    assert [] + x + y == x + y;
  }

  /** From its plain encoding, the packs give back an argument list of which `pending` waits to be packed. */
  ghost predicate ReadsBack(pending: seq<Value>, args: seq<Value>, after: seq<Byte>, limit: nat)
    requires AllNumbers(pending) && GoodArgs(args)
  {
    && GoodArgs(pending)
    && var x := EncodeArgs(pending) + EncodeArgs(args);
    && ReadPacks(Packs(ScalarsOf(pending), TypesOf(args)), x + after, limit) == Some((pending + args, |x|))
  }

  lemma NumberStep(pending: seq<Value>, a: Value, rest: seq<Value>, after: seq<Byte>, limit: nat)
    requires AllNumbers(pending) && a.Number? && InRange(a.t, a.v) && GoodArgs(rest) && GoodArgs([a] + rest)
    requires ReadsBack(pending + [a], rest, after, limit)
    ensures ReadsBack(pending, [a] + rest, after, limit)
  {
    hide ReadPacks, EncodeArgs, GoodArg, InRange, Flush;
    NumbersAreGood(pending);
    EncodeOne(a);
    EncodeArgsAppend(pending, [a]);
    EncodeArgsAppend([a], rest);
    assert ScalarsOf(pending + [a]) == ScalarsOf(pending) + [a.t];
    TypesOfCons(a, rest);
    var x, y, z := EncodeArgs(pending), EncodeArgs([a]), EncodeArgs(rest);
    assert (x + y) + z == x + (y + z);
    assert pending + [a] + rest == pending + ([a] + rest);
  }

  lemma ContainerStep(pending: seq<Value>, a: Value, rest: seq<Value>, after: seq<Byte>, limit: nat)
    requires AllNumbers(pending) && !a.Number? && GoodArg(a) && Within(a, limit) && GoodArgs(rest) && GoodArgs([a] + rest)
    requires ReadsBack([], rest, after, limit)
    ensures ReadsBack(pending, [a] + rest, after, limit)
  {
    hide ReadPacks, ReadPack, EncodeArgs, EncodeArg, GoodArg, InRange, Flush, Within, ScalarsOf;
    NumbersAreGood(pending);
    NothingEncoded();
    EncodeOne(a);
    EncodeArgsAppend([a], rest);
    TypesOfCons(a, rest);
    var x, y, z := EncodeArgs(pending), EncodeArg(a), EncodeArgs(rest);
    var first, qs := Single(TypeOf(a)), Packs([], TypesOf(rest));
    assert [] + z == z && [] + rest == rest;
    ContainerRoundTrip(a, z + after, limit);
    ReadCons(first, qs, y, z + after, limit);
    ReadFlush(pending, [first] + qs, y + (z + after), limit);
    var ps := Flush(ScalarsOf(pending));
    assert ps + [first] + qs == ps + ([first] + qs);
    assert x + (y + z) + after == x + (y + (z + after));
  }

  lemma TypesOfCons(a: Value, rest: seq<Value>)
    ensures TypesOf([a] + rest) == [TypeOf(a)] + TypesOf(rest)
    ensures ([TypeOf(a)] + TypesOf(rest))[1..] == TypesOf(rest)
  {
  }

  /** The packs of the argument types read back every argument list from its plain encoding. */
  lemma {:induction false} PacksRoundTrip(pending: seq<Value>, args: seq<Value>, after: seq<Byte>, limit: nat)
    requires AllNumbers(pending) && GoodArgs(args) && forall i | 0 <= i < |args| :: Within(args[i], limit)
    ensures ReadsBack(pending, args, after, limit)
    decreases |args|
  {
    hide EncodeArgs, GoodArg, InRange, Within, ReadsBack;
    if args == [] {
      NothingLeft(pending, after, limit);
    } else {
      var a, rest := args[0], args[1..];
      assert args == [a] + rest;
      if a.Number? {
        GoodNumber(a);
        PacksRoundTrip(pending + [a], rest, after, limit);
        NumberStep(pending, a, rest, after, limit);
      } else {
        PacksRoundTrip([], rest, after, limit);
        ContainerStep(pending, a, rest, after, limit);
      }
    }
  }

  lemma NothingLeft(pending: seq<Value>, after: seq<Byte>, limit: nat)
    requires AllNumbers(pending)
    ensures ReadsBack(pending, [], after, limit)
  {
    hide ReadPacks, EncodeArgs, GoodArg, InRange, Flush;
    NothingEncoded();
    ReadNothing(after, limit);
    ReadFlush(pending, [], after, limit);
    var ps, x := Flush(ScalarsOf(pending)), EncodeArgs(pending);
    assert ps + [] == ps && x + [] == x && pending + [] == pending;
  }

  lemma ReadNothing(s: seq<Byte>, limit: nat)
    ensures ReadPacks([], s, limit) == Some(([], 0))
  {
  }

  lemma NumbersAreGood(vs: seq<Value>)
    requires AllNumbers(vs)
    ensures GoodArgs(vs)
  {
  }

  lemma GoodNumber(a: Value)
    requires a.Number? && GoodArg(a)
    ensures InRange(a.t, a.v)
  {
  }

  lemma EncodeOne(a: Value)
    requires GoodArg(a)
    ensures GoodArgs([a]) && EncodeArgs([a]) == EncodeArg(a)
  {
    assert [a][1..] == [];
  }

  // ---------------------------------------------------------------------------
  // Commands
  // ---------------------------------------------------------------------------

  /** The header: four reserved bytes, the class or device id, and the function or operation id. */
  ghost function Header(classId: nat, funcId: nat): (s: seq<Byte>)
    ensures |s| == 8
  {
    [0, 0, 0, 0] + BigEndian(classId, 2) + BigEndian(funcId, 2)
  }

  /** The bytes of a command in their simple form. */
  ghost function CommandBytes(classId: nat, funcId: nat, args: seq<Value>): seq<Byte>
    requires GoodArgs(args)
  {
    Header(classId, funcId) + EncodeArgs(args)
  }

  /** The two identifiers in a header, after its reserved bytes. */
  function HeaderIds(s: seq<Byte>): (int, int)
    requires 8 <= |s|
  {
    (DecodeScalar(U16, s[4..6]), DecodeScalar(U16, s[6..8]))
  }

  lemma HeaderRoundTrip(classId: nat, funcId: nat, rest: seq<Byte>)
    requires classId < 0x1_0000 && funcId < 0x1_0000
    ensures HeaderIds(Header(classId, funcId) + rest) == (classId, funcId)
  {
    hide BigEndian, FromBigEndian;
    var s := Header(classId, funcId) + rest;
    Powers();
    BigEndianRoundTrip(classId, 2);
    BigEndianRoundTrip(funcId, 2);
    assert s[4..6] == BigEndian(classId, 2) && s[6..8] == BigEndian(funcId, 2);
  }

  /** Which id is where: the class or device in bytes 4 and 5, the function or operation in bytes 6 and 7. */
  lemma IdsAreAt(s: seq<Byte>)
    requires 8 <= |s|
    ensures HeaderIds(s) == (s[4] as int * 256 + s[5] as int, s[6] as int * 256 + s[7] as int)
  {
    TwoBytes(s[4..6]);
    TwoBytes(s[6..8]);
    hide FromBigEndian;
  }

  lemma TwoBytes(x: seq<Byte>)
    requires |x| == 2
    ensures FromBigEndian(x) == x[0] as int * 256 + x[1] as int
  {
    assert x[..1] == [x[0]] && [x[0]][..0] == [];
    assert FromBigEndian([x[0]]) == x[0];
  }

  lemma HeaderIsAt(classId: nat, funcId: nat)
    requires classId < 0x1_0000 && funcId < 0x1_0000
    ensures
      var h := Header(classId, funcId);
      && h[..4] == [0, 0, 0, 0]
      && h[4] as int * 256 + h[5] as int == classId && h[6] as int * 256 + h[7] as int == funcId
  {
    hide BigEndian;
    BigEndian2(classId);
    BigEndian2(funcId);
  }

  /**
   A command read with the packs that devgen computes for its argument types: the identifiers and the
   arguments come back, and exactly the bytes of the command are used.
   */
  lemma CommandRoundTrip(classId: nat, funcId: nat, args: seq<Value>, after: seq<Byte>, limit: nat)
    requires classId < 0x1_0000 && funcId < 0x1_0000
    requires GoodArgs(args) && forall i | 0 <= i < |args| :: Within(args[i], limit)
    ensures
      var s := CommandBytes(classId, funcId, args) + after;
      && HeaderIds(s) == (classId, funcId)
      && ReadPacks(Packs([], TypesOf(args)), s[8..], limit) == Some((args, |EncodeArgs(args)|))
      && s[8 + |EncodeArgs(args)|..] == after
  {
    hide ReadPacks, EncodeArgs, Packs, HeaderIds, Header;
    var h, x := Header(classId, funcId), EncodeArgs(args);
    NothingEncoded();
    PacksRoundTrip([], args, after, limit);
    HeaderRoundTrip(classId, funcId, x + after);
    assert h + x + after == h + (x + after);
    assert (h + (x + after))[8..] == x + after && [] + x == x && [] + args == args;
  }

  // ---------------------------------------------------------------------------
  // The required buffer size
  // ---------------------------------------------------------------------------

  /** What `print_req_buff_size` adds up; it is used when no argument is a vector or a string. */
  function PackSize(p: Pack): nat {
    match p
    case Scalars(ts) => RequiredSize(ts)
    case Single(ArrayType(t, n)) => n * Size(t)
    case Single(_) => 0
  }

  function BufferSize(ps: seq<Pack>): nat {
    if ps == [] then 0 else PackSize(ps[0]) + BufferSize(ps[1..])
  }

  ghost predicate HasVector(ps: seq<Pack>) {
    exists i | 0 <= i < |ps| :: ps[i].Single? && (ps[i].t.VectorType? || ps[i].t.StringType?)
  }

  /** Without vectors and strings the packs read exactly the computed buffer size, whatever the values. */
  lemma {:induction false} BufferSizeIsExact(ps: seq<Pack>, s: seq<Byte>, limit: nat)
    requires !HasVector(ps) && Maximal(ps)
    ensures ReadPacks(ps, s, limit).Some? <==> BufferSize(ps) <= |s|
    ensures ReadPacks(ps, s, limit).Some? ==> ReadPacks(ps, s, limit).value.1 == BufferSize(ps)
    decreases |ps|
  {
    hide Deserialize, OfRaw, RequiredSize;
    if ps != [] {
      var n := PackSize(ps[0]);
      assert !(ps[0].Single? && (ps[0].t.VectorType? || ps[0].t.StringType?));
      assert ReadPack(ps[0], s, limit).Some? <==> n <= |s|;
      if n <= |s| {
        assert Maximal(ps[1..]);
        assert !HasVector(ps[1..]);
        BufferSizeIsExact(ps[1..], s[n..], limit);
      }
    }
  }
}
