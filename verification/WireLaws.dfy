/** Which byte is where in the encoding of each type, said by division and not by the encoders. */
module WireLaws {
  import opened Bits
  import opened NetworkOrder
  import opened Wire

  // ---------------------------------------------------------------------------
  // One number
  // ---------------------------------------------------------------------------

  lemma {:induction false} QuotientOfQuotient(x: int, k: nat)
    ensures x / 256 / Power256(k) == x / Power256(k + 1)
  {
    var p := Power256(k);
    var q, r := x / 256 / p, x / 256 % p;
    var a := x % 256;
    assert x == 256 * (x / 256) + a && x / 256 == q * p + r;
    assert x == 256 * (q * p + r) + a;
    assert 256 * (q * p) == q * (p * 256) by { Regroup(q, p); }
    assert 0 <= 256 * r + a < p * 256;
    QuotientIs(x, q, p * 256, 256 * r + a);
  }

  lemma Regroup(q: int, p: nat)
    ensures 256 * (q * p) == q * (p * 256)
  {
  }

  lemma {:induction false} BigEndianDigit(x: nat, n: nat, i: nat)
    requires i < n
    ensures BigEndian(x, n)[i] == x / Power256(n - 1 - i) % 256
  {
    if i < n - 1 {
      BigEndianDigit(x / 256, n - 1, i);
      QuotientOfQuotient(x, n - 2 - i);
    }
  }

  lemma {:induction false} LittleEndianDigit(x: nat, n: nat, i: nat)
    requires i < n
    ensures LittleEndian(x, n)[i] == x / Power256(i) % 256
  {
    if i > 0 {
      LittleEndianDigit(x / 256, n - 1, i - 1);
      QuotientOfQuotient(x, i - 1);
    }
  }

  lemma {:induction false} PowerSplits(n: nat, k: nat)
    requires k < n
    ensures Power256(n) == Power256(n - 1 - k) * 256 * Power256(k)
    decreases k
  {
    if k > 0 {
      PowerSplits(n - 1, k - 1);
      MoveFactor(Power256(n - 1 - k), Power256(k - 1));
    }
  }

  lemma MoveFactor(a: nat, b: nat)
    ensures a * 256 * b * 256 == a * 256 * (b * 256)
  {
  }

  /** Adding a power of 256 does not change the digits below it. */
  lemma DigitOfSum(v: int, n: nat, k: nat)
    requires k < n
    ensures (v + Power256(n)) / Power256(k) % 256 == v / Power256(k) % 256
  {
    hide Power256;
    PowerSplits(n, k);
    DigitAbove(v, Power256(n - 1 - k), Power256(k));
  }

  lemma DigitAbove(v: int, a: nat, p: nat)
    requires 0 < p
    ensures (v + a * 256 * p) / p % 256 == v / p % 256
  {
    var q, r := v / p, v % p;
    Distribute(q, a * 256, p);
    QuotientIs(v + a * 256 * p, q + a * 256, p, r);
  }

  lemma Distribute(q: int, m: int, p: int)
    ensures (q + m) * p == q * p + m * p
  {
  }

  lemma PatternDigit(t: Scalar, v: int, k: nat)
    requires k < Size(t)
    ensures Pattern(t, v) / Power256(k) % 256 == v / Power256(k) % 256
  {
    hide Power256;
    if v < 0 {
      DigitOfSum(v, Size(t), k);
    }
  }

  /** A scalar of every type: its size, and its bytes, the most significant first, in two's complement. */
  lemma ScalarOnWire(t: Scalar, v: int)
    requires InRange(t, v)
    ensures
      var s := EncodeScalar(t, v);
      && |s| == (if t in {U8, I8, Bool} then 1 else if t in {U16, I16} then 2 else if t in {U32, I32, F32} then 4 else 8)
      && forall i | 0 <= i < |s| :: s[i] == v / Power256(|s| - 1 - i) % 256
  {
    hide BigEndian, Power256, Pattern;
    var s := EncodeScalar(t, v);
    forall i | 0 <= i < |s|
      ensures s[i] == v / Power256(|s| - 1 - i) % 256
    {
      ScalarByte(t, v, i);
    }
  }

  lemma ScalarByte(t: Scalar, v: int, i: nat)
    requires InRange(t, v) && i < Size(t)
    ensures EncodeScalar(t, v)[i] == v / Power256(Size(t) - 1 - i) % 256
  {
    hide BigEndian, Power256, Pattern, Size;
    PatternRoundTrip(t, v);
    BigEndianDigit(Pattern(t, v), Size(t), i);
    PatternDigit(t, v, Size(t) - 1 - i);
  }

  lemma ElementByte(t: Scalar, v: int, j: nat)
    requires InRange(t, v) && j < Size(t)
    ensures ElementBytes(t, v)[j] == v / Power256(j) % 256
  {
    hide LittleEndian, Power256, Pattern, Size;
    PatternRoundTrip(t, v);
    LittleEndianDigit(Pattern(t, v), Size(t), j);
    PatternDigit(t, v, j);
  }

  /** A received byte is `true` exactly when it is 1. */
  lemma BoolOnWire(b: Byte)
    ensures DecodeScalar(Bool, [b]) == if b == 1 then 1 else 0
  {
    var s: seq<Byte> := [b];
    assert s[..0] == [] && FromBigEndian([]) == 0;
    assert FromBigEndian(s) == FromBigEndian(s[..0]) * 256 + b;
  }

  // ---------------------------------------------------------------------------
  // Containers
  // ---------------------------------------------------------------------------

  /** Elements lie side by side, each with its least significant byte first. */
  lemma {:induction false} ElementOnWire(t: Scalar, es: seq<int>, i: nat, j: nat)
    requires AllInRange(t, es) && i < |es| && j < Size(t)
    ensures i * Size(t) + j < |es| * Size(t) && RawBytes(t, es)[i * Size(t) + j] == es[i] / Power256(j) % 256
    decreases i
  {
    hide ElementBytes, InRange, Size, RawBytes, Power256;
    RawCons(t, es);
    CountStep(|es|, Size(t));
    if i == 0 {
      ElementByte(t, es[0], j);
      assert |es[1..]| * Size(t) >= 0;
    } else {
      ElementOnWire(t, es[1..], i - 1, j);
      CountStep(i, Size(t));
    }
  }

  /** A vector or a string is the number of its bytes, not of its elements, in four bytes and then its memory. */
  lemma ContainerOnWire(a: Value)
    requires GoodArg(a) && (a.Vector? || a.Text?)
    ensures
      var s := EncodeArg(a);
      var n := if a.Vector? then |a.elements| * Size(a.t) else |a.bytes|;
      && |s| == 4 + n
      && s[0] as int * 0x100_0000 + s[1] as int * 0x1_0000 + s[2] as int * 0x100 + s[3] as int == n
      && s[4..] == if a.Vector? then RawBytes(a.t, a.elements) else a.bytes
  {
    hide BigEndian, RawBytes, Size, InRange;
    var n := if a.Vector? then |a.elements| * Size(a.t) else |a.bytes|;
    BigEndian4(n);
    FourDigits(n);
  }

  lemma FourDigits(n: nat)
    requires n <= LENGTH_LIMIT
    ensures n / 0x100_0000 % 256 * 0x100_0000 + n / 0x1_0000 % 256 * 0x1_0000 + n / 0x100 % 256 * 0x100 + n % 256 == n
  {
    assert n / 0x1_0000 == n / 0x100 / 256 && n / 0x100_0000 == n / 0x1_0000 / 256;
  }
}
