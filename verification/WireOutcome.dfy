/**
 What the two readers of command arguments make of the bytes they are given, whatever these are. Neither
 reader looks at how many bytes there are: `Session<TCP>` goes on when the stream has ended, and the buffer
 of `Session<WEBSOCK>` is read past its end. `Beyond` is this outcome.
 */
module WireOutcome {
  import opened Bits
  import opened Common
  import opened NetworkOrder
  import opened Wire

  datatype Transport = Stream | Buffer

  /** The values and the bytes used; or a negative result; or bytes that are not there are taken as values. */
  datatype Outcome = Got(values: seq<Value>, used: nat) | Refused | Beyond

  /** `CMD_PAYLOAD_BUFFER_LEN`. */
  const BUFFER_LIMIT: nat := 131072

  /** A count of bytes returned as a 32-bit integer. */
  function Int32(n: nat): int {
    var m := n % 0x1_0000_0000;
    if m < 0x8000_0000 then m else m - 0x1_0000_0000
  }

  predicate Dynamic(p: Pack) { p.Single? && (p.t.StringType? || p.t.VectorType?) }

  function LengthAt(s: seq<Byte>): nat
    requires 4 <= |s|
  {
    FromBigEndian(s[..4])
  }

  /** The length test of the buffer reader. */
  predicate RefusedAt(p: Pack, s: seq<Byte>) { Dynamic(p) && 4 <= |s| && BUFFER_LIMIT < LengthAt(s) }

  /** The bytes that the last read of a pack counts. */
  function Counted(p: Pack, used: nat): nat { if Dynamic(p) && 4 <= used then used - 4 else used }

  function PackOutcome(tr: Transport, p: Pack, s: seq<Byte>): (r: Outcome)
    ensures r.Got? ==> r.used <= |s|
  {
    if tr.Buffer? && RefusedAt(p, s) then Refused
    else
      match ReadPack(p, s, LENGTH_LIMIT)
      case None => Beyond
      case Some((values, used)) =>
        if tr.Stream? && Int32(Counted(p, used)) < 0 then Refused else Got(values, used)
  }

  function Prepend(values: seq<Value>, used: nat, r: Outcome): Outcome {
    if r.Got? then Got(values + r.values, used + r.used) else r
  }

  /** The packs of a command one after the other, up to the first that gives no values. */
  function PacksOutcome(tr: Transport, packs: seq<Pack>, s: seq<Byte>): (r: Outcome)
    ensures r.Got? ==> r.used <= |s|
    decreases |packs|
  {
    if packs == [] then Got([], 0)
    else
      var first := PackOutcome(tr, packs[0], s);
      if !first.Got? then first
      else Prepend(first.values, first.used, PacksOutcome(tr, packs[1..], s[first.used..]))
  }

  // ---------------------------------------------------------------------------
  // When the buffer reader stays in its buffer
  // ---------------------------------------------------------------------------

  /** The bytes that a pack takes, as the data says. */
  function SizeAt(p: Pack, s: seq<Byte>): nat
    requires Dynamic(p) ==> 4 <= |s|
  {
    match p
    case Scalars(ts) => RequiredSize(ts)
    case Single(ArrayType(t, n)) => n * Size(t)
    case Single(StringType) => 4 + LengthAt(s)
    case Single(VectorType(t)) => 4 + LengthAt(s) / Size(t) * Size(t)
    case Single(ScalarType(t)) => Size(t)
  }

  /** A pack is there, or its length is refused. */
  predicate Inside(p: Pack, s: seq<Byte>) {
    (Dynamic(p) ==> 4 <= |s|) && (RefusedAt(p, s) || SizeAt(p, s) <= |s|)
  }

  /** Every pack, up to the first that is refused, is there when its turn comes. */
  predicate InsidePacks(packs: seq<Pack>, s: seq<Byte>)
    decreases |packs|
  {
    packs == [] || (
      && Inside(packs[0], s)
      && (RefusedAt(packs[0], s) || InsidePacks(packs[1..], s[SizeAt(packs[0], s)..]))
    )
  }

  lemma LengthBound(s: seq<Byte>)
    requires 4 <= |s|
    ensures LengthAt(s) <= LENGTH_LIMIT
  {
    hide FromBigEndian;
    Powers();
    FromBigEndianBound(s[..4]);
  }

  lemma PackStaysInside(p: Pack, s: seq<Byte>)
    ensures
      var r := PackOutcome(Buffer, p, s);
      && (r.Beyond? <==> !Inside(p, s)) && (r.Refused? <==> RefusedAt(p, s))
      && (r.Got? ==> r.used == SizeAt(p, s))
  {
    hide FromBigEndian, Deserialize, OfRaw;
    if Dynamic(p) && 4 <= |s| {
      LengthBound(s);
    }
    if p.Single? && p.t.ScalarType? {
      assert RequiredSize([p.t.t]) == Size(p.t.t) + RequiredSize([]);
    }
  }

  /** For every payload and every list of packs: the reads stay in the buffer exactly when `InsidePacks` holds. */
  lemma {:induction false} StaysInsideExactly(packs: seq<Pack>, s: seq<Byte>)
    ensures PacksOutcome(Buffer, packs, s).Beyond? <==> !InsidePacks(packs, s)
    decreases |packs|
  {
    hide PackOutcome, Inside, RefusedAt, SizeAt;
    if packs != [] {
      var first := PackOutcome(Buffer, packs[0], s);
      PackStaysInside(packs[0], s);
      if first.Got? {
        StaysInsideExactly(packs[1..], s[first.used..]);
      }
    }
  }

  /** A full buffer that starts with the length 131072 of a string passes the test, and is read past its end. */
  lemma FullLengthLeadsBeyond(s: seq<Byte>)
    requires |s| == BUFFER_LIMIT && s[..4] == [0, 2, 0, 0]
    ensures PacksOutcome(Buffer, [Single(StringType)], s) == Beyond
  {
    assert LengthAt(s) == BUFFER_LIMIT by {
      var x := s[..4];
      assert x[..3] == [0, 2, 0] && [0, 2, 0][..2] == [0, 2] && [0, 2][..1] == [0];
      assert FromBigEndian([0, 2]) == 2;
      assert FromBigEndian([0, 2, 0]) == 512;
    }
    StaysInsideExactly([Single(StringType)], s);
  }

  // ---------------------------------------------------------------------------
  // The readers and the plain reading of packs
  // ---------------------------------------------------------------------------

  lemma UnlimitedPack(p: Pack, s: seq<Byte>)
    ensures
      ReadPack(p, s, BUFFER_LIMIT) == if RefusedAt(p, s) then None else ReadPack(p, s, LENGTH_LIMIT)
  {
    hide FromBigEndian, ReadElements, Deserialize;
    if Dynamic(p) && 4 <= |s| {
      LengthBound(s);
    }
  }

  /** The buffer reader gives exactly the values that reading with its limit gives. */
  lemma {:induction false} BufferReads(packs: seq<Pack>, s: seq<Byte>)
    ensures
      var r := PacksOutcome(Buffer, packs, s);
      ReadPacks(packs, s, BUFFER_LIMIT) == if r.Got? then Some((r.values, r.used)) else None
    decreases |packs|
  {
    hide ReadPack, RefusedAt;
    if packs != [] {
      var first := PackOutcome(Buffer, packs[0], s);
      UnlimitedPack(packs[0], s);
      if first.Got? {
        BufferReads(packs[1..], s[first.used..]);
      }
    }
  }

  /** The size of a container's memory. */
  function Bytes(a: Value): nat {
    match a
    case Number(t, _) => Size(t)
    case Vector(t, es) => |es| * Size(t)
    case Text(bytes) => |bytes|
    case Array(t, es) => |es| * Size(t)
  }

  /** The counts of the stream reader are not negative. */
  ghost predicate CountsFit(packs: seq<Pack>, values: seq<Value>) {
    && (forall i | 0 <= i < |packs| :: packs[i].Scalars? ==> 0 <= Int32(PackSize(packs[i])))
    && ValuesFit(values)
  }

  ghost predicate ValuesFit(values: seq<Value>) {
    forall i | 0 <= i < |values| :: !values[i].Number? ==> 0 <= Int32(Bytes(values[i]))
  }

  lemma ValuesFitAppend(xs: seq<Value>, ys: seq<Value>)
    ensures ValuesFit(xs + ys) <==> ValuesFit(xs) && ValuesFit(ys)
  {
    forall i | 0 <= i < |ys| && ValuesFit(xs + ys)
      ensures !ys[i].Number? ==> 0 <= Int32(Bytes(ys[i]))
    {
      assert (xs + ys)[|xs| + i] == ys[i];
    }
    forall i | 0 <= i < |xs| && ValuesFit(xs + ys)
      ensures !xs[i].Number? ==> 0 <= Int32(Bytes(xs[i]))
    {
      assert (xs + ys)[i] == xs[i];
    }
  }

  /** What one pack of the stream counts is the size of what it gives. */
  lemma CountOfPack(p: Pack, s: seq<Byte>)
    requires ReadPack(p, s, LENGTH_LIMIT).Some?
    ensures
      var (values, used) := ReadPack(p, s, LENGTH_LIMIT).value;
      0 <= Int32(Counted(p, used)) <==> CountsFit([p], values)
  {
    hide FromBigEndian, OfRaw, Deserialize;
    assert [p][0] == p;
    var (values, used) := ReadPack(p, s, LENGTH_LIMIT).value;
    match p
    case Scalars(ts) => DeserializeNumbers(ts, s, 0);
    case Single(ScalarType(t)) =>
      DeserializeNumbers([t], s, 0);
      assert RequiredSize([t]) == Size(t) + RequiredSize([]);
    case Single(ArrayType(t, n)) => assert values[0] == values[|values| - 1] && Bytes(values[0]) == used;
    case Single(StringType) => assert Bytes(values[0]) == used - 4;
    case Single(VectorType(t)) => assert Bytes(values[0]) == used - 4;
  }

  lemma {:induction false} DeserializeNumbers(ts: seq<Scalar>, s: seq<Byte>, position: nat)
    requires position + RequiredSize(ts) <= |s|
    ensures forall v | v in Deserialize(ts, s, position) :: v.Number?
    decreases |ts|
  {
    hide DecodeScalar;
    if ts != [] {
      DeserializeNumbers(ts[1..], s, position + Size(ts[0]));
    }
  }

  /**
   The stream reader gives the values that are there unless a count is negative, and then it fails; bytes
   that are missing never give values.
   */
  lemma {:induction false} StreamReads(packs: seq<Pack>, s: seq<Byte>)
    ensures
      var r := PacksOutcome(Stream, packs, s);
      match ReadPacks(packs, s, LENGTH_LIMIT)
      case None => !r.Got?
      case Some((values, used)) => r == if CountsFit(packs, values) then Got(values, used) else Refused
    decreases |packs|
  {
    hide ReadPack, Counted, PackSize, ValuesFit, Int32;
    if packs == [] {
      NothingFits();
    } else {
      var p := packs[0];
      var first := ReadPack(p, s, LENGTH_LIMIT);
      if first.Some? {
        CountOfPack(p, s);
        var (values, used) := first.value;
        StreamReads(packs[1..], s[used..]);
        var rest := ReadPacks(packs[1..], s[used..], LENGTH_LIMIT);
        if rest.Some? {
          CountsFitCons(p, packs[1..], values, rest.value.0);
          assert [p] + packs[1..] == packs;
        }
      }
    }
  }

  lemma NothingFits()
    ensures CountsFit([], [])
  {
  }

  lemma CountsFitCons(p: Pack, ps: seq<Pack>, xs: seq<Value>, ys: seq<Value>)
    ensures CountsFit([p] + ps, xs + ys) <==> CountsFit([p], xs) && CountsFit(ps, ys)
  {
    hide PackSize, ValuesFit, Int32;
    ValuesFitAppend(xs, ys);
    forall i | 0 <= i < |ps| && CountsFit([p] + ps, xs + ys)
      ensures ps[i].Scalars? ==> 0 <= Int32(PackSize(ps[i]))
    {
      assert ([p] + ps)[i + 1] == ps[i];
    }
    if CountsFit([p] + ps, xs + ys) {
      assert ([p] + ps)[0] == p;
    }
  }

  // ---------------------------------------------------------------------------
  // When the stream reader goes on with what never came
  // ---------------------------------------------------------------------------

  /** A pack is wholly in the stream. */
  predicate Whole(p: Pack, s: seq<Byte>) { (Dynamic(p) ==> 4 <= |s|) && SizeAt(p, s) <= |s| }

  /** The bytes of its last read are counted as a negative 32-bit number. */
  predicate NegativeAt(p: Pack, s: seq<Byte>)
    requires Whole(p, s)
  {
    Int32(SizeAt(p, s) - if Dynamic(p) then 4 else 0) < 0
  }

  /** Every pack, up to the first whose count is negative, is wholly in the stream. */
  predicate WholePacks(packs: seq<Pack>, s: seq<Byte>)
    decreases |packs|
  {
    packs == [] || (
      && Whole(packs[0], s)
      && (NegativeAt(packs[0], s) || WholePacks(packs[1..], s[SizeAt(packs[0], s)..]))
    )
  }

  /** Some pack has a negative count, and all packs up to it are wholly in the stream. */
  predicate NegativePack(packs: seq<Pack>, s: seq<Byte>)
    decreases |packs|
  {
    packs != [] && Whole(packs[0], s) &&
    (NegativeAt(packs[0], s) || NegativePack(packs[1..], s[SizeAt(packs[0], s)..]))
  }

  lemma PackIsWhole(p: Pack, s: seq<Byte>)
    ensures
      var r := PackOutcome(Stream, p, s);
      && (r.Beyond? <==> !Whole(p, s)) && (r.Refused? <==> Whole(p, s) && NegativeAt(p, s))
      && (r.Got? ==> r.used == SizeAt(p, s))
  {
    hide FromBigEndian, Deserialize, OfRaw, Int32;
    if Dynamic(p) && 4 <= |s| {
      LengthBound(s);
    }
    if p.Single? && p.t.ScalarType? {
      assert RequiredSize([p.t.t]) == Size(p.t.t) + RequiredSize([]);
    }
  }

  /**
   For every stream and every list of packs: the reader goes on with values that never came exactly when a
   pack, before any whose count is negative, is not wholly there; it fails exactly when a count is negative.
   */
  lemma {:induction false} GoesOnExactly(packs: seq<Pack>, s: seq<Byte>)
    ensures PacksOutcome(Stream, packs, s).Beyond? <==> !WholePacks(packs, s)
    ensures PacksOutcome(Stream, packs, s).Refused? <==> NegativePack(packs, s)
    decreases |packs|
  {
    hide PackOutcome, Whole, NegativeAt, SizeAt;
    if packs != [] {
      var first := PackOutcome(Stream, packs[0], s);
      PackIsWhole(packs[0], s);
      if first.Got? {
        GoesOnExactly(packs[1..], s[first.used..]);
      }
    }
  }

  // ---------------------------------------------------------------------------
  // The two transports
  // ---------------------------------------------------------------------------

  lemma PackAgrees(p: Pack, s: seq<Byte>)
    requires |s| <= BUFFER_LIMIT
    ensures !PackOutcome(Stream, p, s).Refused?
    ensures PackOutcome(Stream, p, s).Got? ==> PackOutcome(Buffer, p, s) == PackOutcome(Stream, p, s)
    ensures PackOutcome(Buffer, p, s).Got? ==> PackOutcome(Stream, p, s) == PackOutcome(Buffer, p, s)
  {
    hide FromBigEndian, Deserialize, OfRaw;
    if Dynamic(p) && 4 <= |s| {
      LengthBound(s);
    }
    if p.Single? && p.t.VectorType? && 4 <= |s| {
      Rest(LengthAt(s), Size(p.t.t));
    }
  }

  lemma Rest(n: nat, size: nat)
    requires size in {1, 2, 4, 8}
    ensures n < n / size * size + size
  {
  }

  /** On the same bytes, as many as the buffer holds, the two readers give values together, and the same ones. */
  lemma {:induction false} TransportsAgree(packs: seq<Pack>, s: seq<Byte>)
    requires |s| <= BUFFER_LIMIT
    ensures !PacksOutcome(Stream, packs, s).Refused?
    ensures PacksOutcome(Stream, packs, s).Got? <==> PacksOutcome(Buffer, packs, s).Got?
    ensures PacksOutcome(Stream, packs, s).Got? ==> PacksOutcome(Stream, packs, s) == PacksOutcome(Buffer, packs, s)
    decreases |packs|
  {
    hide PackOutcome;
    if packs != [] {
      var first := PackOutcome(Stream, packs[0], s);
      PackAgrees(packs[0], s);
      if first.Got? {
        TransportsAgree(packs[1..], s[first.used..]);
      }
    }
  }

  /** A stream that ends after the header of a command: its reader goes on with values that never came. */
  lemma EndedStreamGoesOn()
    ensures PacksOutcome(Stream, [Scalars([U32])], []) == Beyond
  {
  }

  // ---------------------------------------------------------------------------
  // The loop over the packs
  // ---------------------------------------------------------------------------

  /** After `i` packs: what they gave is `values`, they used `used` bytes, and the outcome is that of the others. */
  ghost predicate Onward(tr: Transport, packs: seq<Pack>, i: nat, s: seq<Byte>, used: nat, values: seq<Value>) {
    && i <= |packs| && used <= |s|
    && PacksOutcome(tr, packs, s) == Prepend(values, used, PacksOutcome(tr, packs[i..], s[used..]))
  }

  lemma OnwardStart(tr: Transport, packs: seq<Pack>, s: seq<Byte>)
    ensures Onward(tr, packs, 0, s, 0, [])
  {
    hide PacksOutcome;
    assert packs[0..] == packs && s[0..] == s;
    var r := PacksOutcome(tr, packs, s);
    assert r.Got? ==> [] + r.values == r.values;
  }

  lemma OnwardStep(tr: Transport, packs: seq<Pack>, i: nat, s: seq<Byte>, used: nat, values: seq<Value>)
    requires i < |packs| && Onward(tr, packs, i, s, used, values)
    ensures
      match PackOutcome(tr, packs[i], s[used..])
      case Got(vs, n) =>
        && used + n <= |s| && s[used..][n..] == s[used + n..]
        && Onward(tr, packs, i + 1, s, used + n, values + vs)
      case r => PacksOutcome(tr, packs, s) == r
  {
    hide PackOutcome;
    var ps := packs[i..];
    assert ps[0] == packs[i] && ps[1..] == packs[i + 1..];
    var first := PackOutcome(tr, packs[i], s[used..]);
    if first.Got? {
      assert s[used..][first.used..] == s[used + first.used..];
      var rest := PacksOutcome(tr, packs[i + 1..], s[used + first.used..]);
      if rest.Got? {
        assert values + (first.values + rest.values) == values + first.values + rest.values;
      }
    }
  }

  lemma OnwardEnd(tr: Transport, packs: seq<Pack>, s: seq<Byte>, used: nat, values: seq<Value>)
    requires Onward(tr, packs, |packs|, s, used, values)
    ensures PacksOutcome(tr, packs, s) == Got(values, used)
  {
    assert packs[|packs|..] == [] && values + [] == values;
  }
}
