/**
 What pins the functions of `Fips180` apart from their own text: laws that do not repeat them, and values that
 the standard and its examples publish.
 */
module Fips180Laws {
  import opened Bits
  import opened NetworkOrder
  import opened Fips180

  // ---------------------------------------------------------------------------
  // Rotations
  // ---------------------------------------------------------------------------

  function Turns(x: Word, n: nat): Word { if n == 0 then x else Rotl1(Turns(x, n - 1)) }

  lemma Rotl1Is(x: Word)
    ensures Rotl1(x) == x % 0x8000_0000 * 2 + x / 0x8000_0000
  {
    hide Or;
    var top := x / 0x8000_0000;
    assert x * 2 % 0x1_0000_0000 == x % 0x8000_0000 * 2;
    assert Power2(1) == 2;
    OrIsSum(x % 0x8000_0000, top, 1);
  }

  /** After `n` turns the word has its low bits above its `n` high bits. */
  lemma {:induction false} TurnsAre(x: Word, n: nat)
    requires n <= 32
    ensures Turns(x, n) == x % Power2(32 - n) * Power2(n) + x / Power2(32 - n)
    decreases n
  {
    hide Rotl1;
    PowersOfTwo();
    if n == 0 {
      assert Power2(0) == 1;
    } else {
      TurnsAre(x, n - 1);
      var p, k := Power2(32 - n), Power2(n - 1);
      assert Power2(32 - (n - 1)) == 2 * p && Power2(n) == 2 * k;
      PowerSum(32 - n, n - 1);
      assert Power2(31) == 0x8000_0000 by { assert Power2(32) == 2 * Power2(31); }
      Rotl1Is(Turns(x, n - 1));
      hide Power2, Turns;
      OneTurn(x, p, k);
    }
  }

  lemma OneTurn(x: Word, p: nat, k: nat)
    requires 0 < p && 0 < k && p * k == 0x8000_0000
    ensures
      var y := x % (2 * p) * k + x / (2 * p);
      y % 0x8000_0000 * 2 + y / 0x8000_0000 == x % p * (2 * k) + x / p
  {
    var h, s := x / p, x % p;
    var q, b := h / 2, h % 2;
    ProductSplit(x, p, h, s, q, b);
    QuotientIsUnique(x, 2 * p, q, b * p + s);
    QuotientIsUnique(x, p, h, s);
    FewerThan(x, p, k, q, b * p + s);
    TurnedBit(p, k, q, b, s);
  }

  lemma ProductSplit(x: nat, p: nat, h: nat, s: nat, q: nat, b: nat)
    requires x == h * p + s && s < p && h == 2 * q + b && b < 2
    ensures x == q * (2 * p) + (b * p + s) && b * p + s < 2 * p
  {
    assert (2 * q + b) * p == q * (2 * p) + b * p;
    assert b == 0 || b == 1;
  }

  lemma FewerThan(x: Word, p: nat, k: nat, q: nat, r: nat)
    requires 0 < p && p * k == 0x8000_0000 && x == q * (2 * p) + r
    ensures q < k
  {
    assert k * (2 * p) == 0x1_0000_0000;
    Monotone(k, q, 2 * p);
  }

  lemma Monotone(k: nat, q: nat, m: nat)
    ensures k <= q ==> k * m <= q * m
  {
  }

  lemma TurnedBit(p: nat, k: nat, q: nat, b: nat, s: nat)
    requires p * k == 0x8000_0000 && s < p && q < k && b < 2
    ensures
      var y := (b * p + s) * k + q;
      y % 0x8000_0000 * 2 + y / 0x8000_0000 == s * (2 * k) + (2 * q + b)
  {
    Expand(b, p, s, k);
    BelowProduct(s, p, k, q);
    TurnedSum(b, s * k, q);
    Twice(s, k);
  }

  lemma Expand(b: nat, p: nat, s: nat, k: nat)
    ensures (b * p + s) * k == b * (p * k) + s * k
  {
  }

  lemma BelowProduct(s: nat, p: nat, k: nat, q: nat)
    requires s < p && q < k
    ensures s * k + q < p * k
  {
    Monotone(s + 1, p, k);
  }

  lemma Twice(s: nat, k: nat)
    ensures s * (2 * k) == 2 * (s * k)
  {
  }

  lemma TurnedSum(b: nat, c: nat, q: nat)
    requires b < 2 && c + q < 0x8000_0000
    ensures
      var y := b * 0x8000_0000 + c + q;
      y % 0x8000_0000 * 2 + y / 0x8000_0000 == 2 * c + (2 * q + b)
  {
    HighAndLow(b, c + q);
  }

  lemma HighAndLow(b: nat, low: nat)
    requires b < 2 && low < 0x8000_0000
    ensures (b * 0x8000_0000 + low) % 0x8000_0000 == low && (b * 0x8000_0000 + low) / 0x8000_0000 == b
  {
  }

  lemma QuotientIsUnique(x: nat, m: nat, q: nat, r: nat)
    requires r < m && x == q * m + r
    ensures x / m == q && x % m == r
  {
    DivisionIsUnique(x, m, q, r);
    QuotientIs(x, q, m, r);
  }

  /** The three rotations are one, five and thirty turns to the left. */
  lemma RotationsTurn(x: Word)
    ensures Rotl1(x) == Turns(x, 1) && Rotl5(x) == Turns(x, 5) && Rotl30(x) == Turns(x, 30)
  {
    hide Rotl1, Rotl5, Rotl30, Turns;
    OneTurnOnly(x);
    FiveTurns(x);
    ThirtyTurns(x);
  }

  lemma FiveTurns(x: Word)
    ensures Rotl5(x) == Turns(x, 5)
  {
    hide Or, Power2, Turns;
    SmallPowers();
    TurnsAre(x, 5);
    var q, r := x / 0x800_0000, x % 0x800_0000;
    assert x * 0x20 == q * 0x1_0000_0000 + r * 0x20;
    assert x * 0x20 % 0x1_0000_0000 == r * 0x20;
    OrIsSum(r, q, 5);
  }

  lemma ThirtyTurns(x: Word)
    ensures Rotl30(x) == Turns(x, 30)
  {
    hide Or, Power2, Turns;
    SmallPowers();
    TurnsAre(x, 30);
    var q, r := x / 4, x % 4;
    assert x * 0x4000_0000 == q * 0x1_0000_0000 + r * 0x4000_0000;
    assert x * 0x4000_0000 % 0x1_0000_0000 == r * 0x4000_0000;
    OrIsSum(r, q, 30);
  }

  lemma OneTurnOnly(x: Word)
    ensures Turns(x, 1) == Rotl1(x)
  {
    hide Rotl1;
  }

  lemma SmallPowers()
    ensures Power2(2) == 4 && Power2(5) == 0x20 && Power2(27) == 0x800_0000 && Power2(30) == 0x4000_0000
  {
    PowersOfTwo();
    assert Power2(32) == 2 * Power2(31) && Power2(31) == 2 * Power2(30);
    assert Power2(30) == 2 * Power2(29) && Power2(29) == 2 * Power2(28) && Power2(28) == 2 * Power2(27);
  }

  // ---------------------------------------------------------------------------
  // Rounds
  // ---------------------------------------------------------------------------

  /** A register travels: the old `a` is in `b`, and then, rotated once by 30, in `c`, `d` and `e`. */
  lemma RegistersTravel(r: Registers, f: seq<Word>, k: seq<Word>, w: seq<Word>)
    requires |f| == |k| == |w| == 4
    ensures
      var r1 := Round(r, f[0], k[0], w[0]);
      var r2 := Round(r1, f[1], k[1], w[1]);
      var r3 := Round(r2, f[2], k[2], w[2]);
      var r4 := Round(r3, f[3], k[3], w[3]);
      r1.b == r.a && r2.c == Turns(r.a, 30) && r3.d == Turns(r.a, 30) && r4.e == Turns(r.a, 30)
  {
    hide Rotl5, Rotl30, AddWord, Turns;
    RotationsTurn(r.a);
  }

  /** The new `a` is the sum of five words, and each of them counts once. */
  lemma NewRegister(r: Registers, f: Word, k: Word, w: Word)
    ensures Round(r, f, k, w).a == (Turns(r.a, 5) + f + r.e + w + k) % 0x1_0000_0000
  {
    hide Rotl5, Turns, AddWord;
    RotationsTurn(r.a);
    var x := Rotl5(r.a);
    assert x % 0x1_0000_0000 == x;
    Plus(x, f);
    Plus(x + f, r.e);
    Plus(x + f + r.e, w);
    Plus(x + f + r.e + w, k);
  }

  lemma Plus(n: nat, y: Word)
    ensures AddWord(n % 0x1_0000_0000, y) == (n + y) % 0x1_0000_0000
  {
  }

  /** Section 4.2.1: the constants are the square roots of 2, 3, 5 and 10, times 2^30, rounded down. */
  lemma ConstantsAreRoots(t: nat)
    requires t < 80
    ensures
      var n := if t < 20 then 2 else if t < 40 then 3 else if t < 60 then 5 else 10;
      K(t) * K(t) <= n * 0x1000_0000_0000_0000 < (K(t) + 1) * (K(t) + 1)
  {
  }

  /** Section 4.1.1: which function is used in which rounds. */
  lemma FunctionsByRound(t: nat, x: Word, y: Word, z: Word)
    requires t < 80
    ensures t <= 19 ==> F(t, x, y, z) == Ch(x, y, z)
    ensures 40 <= t <= 59 ==> F(t, x, y, z) == Maj(x, y, z)
    ensures 20 <= t <= 39 || 60 <= t ==> F(t, x, y, z) == Parity(x, y, z)
  {
    hide Ch, Parity, Maj;
  }

  /** Bit by bit: `x` chooses between `y` and `z`; the sum of the three; at least two of the three. */
  lemma FunctionsBitByBit(x: Word, y: Word, z: Word, k: nat)
    requires k < 32
    ensures Bit(Ch(x, y, z), k) == if Bit(x, k) == 1 then Bit(y, k) else Bit(z, k)
    ensures Bit(Parity(x, y, z), k) == (Bit(x, k) + Bit(y, k) + Bit(z, k)) % 2
    ensures Bit(Maj(x, y, z), k) == if 2 <= Bit(x, k) + Bit(y, k) + Bit(z, k) then 1 else 0
  {
    hide Ch, Parity, Maj, Bit;
    ChoiceBit(x, y, z, k);
    ParityBit(x, y, z, k);
    MajorityBit(x, y, z, k);
  }

  lemma ChoiceBit(x: Word, y: Word, z: Word, k: nat)
    requires k < 32
    ensures Bit(Ch(x, y, z), k) == if Bit(x, k) == 1 then Bit(y, k) else Bit(z, k)
  {
    hide And, Xor, Bit, NotWord;
    var nx := NotWord(x);
    NotWordBits(x, k);
    IsBit(x, k);
    IsBit(y, k);
    IsBit(z, k);
    BitwiseBits(x, y, k);
    BitwiseBits(nx, z, k);
    BitwiseBits(And(x, y), And(nx, z), k);
  }

  lemma NotWordBits(x: Word, k: nat)
    requires k < 32
    ensures Bit(NotWord(x), k) == 1 - Bit(x, k)
  {
    hide Bit;
    PowersOfTwo();
    NotBits(x, 32, k);
  }

  lemma ParityBit(x: Word, y: Word, z: Word, k: nat)
    ensures Bit(Parity(x, y, z), k) == (Bit(x, k) + Bit(y, k) + Bit(z, k)) % 2
  {
    hide And, Xor, Bit;
    BitwiseBits(x, y, k);
    BitwiseBits(Xor(x, y), z, k);
  }

  lemma MajorityBit(x: Word, y: Word, z: Word, k: nat)
    ensures Bit(Maj(x, y, z), k) == if 2 <= Bit(x, k) + Bit(y, k) + Bit(z, k) then 1 else 0
  {
    hide And, Xor, Bit;
    IsBit(x, k);
    IsBit(y, k);
    IsBit(z, k);
    BitwiseBits(x, y, k);
    BitwiseBits(x, z, k);
    BitwiseBits(y, z, k);
    BitwiseBits(And(x, y), And(x, z), k);
    BitwiseBits(Xor(And(x, y), And(x, z)), And(y, z), k);
  }

  lemma {:induction false} IsBit(x: nat, k: nat)
    ensures Bit(x, k) in {0, 1}
    decreases k
  {
    if 0 < k {
      IsBit(x / 2, k - 1);
    }
  }

  lemma {:induction false} NotBits(x: nat, n: nat, k: nat)
    requires x < Power2(n) && k < n
    ensures Bit(Power2(n) - 1 - x, k) == 1 - Bit(x, k)
    decreases k
  {
    var nx := Power2(n) - 1 - x;
    assert Power2(n) == 2 * Power2(n - 1);
    assert nx / 2 == Power2(n - 1) - 1 - x / 2 && nx % 2 == 1 - x % 2;
    if 0 < k {
      NotBits(x / 2, n - 1, k - 1);
    }
  }

  // ---------------------------------------------------------------------------
  // Words and blocks
  // ---------------------------------------------------------------------------

  /** The block whose word `j` alone is not zero. */
  function Unit(j: nat): (block: seq<Word>)
    ensures |block| == 16
  {
    seq(16, i => if i == j then 1 else 0)
  }

  /** The first word of the recurrence depends on the words 0, 2, 8 and 13, rotated once, and on no others. */
  lemma ScheduleOffsets(j: nat)
    requires j < 16
    ensures W(Unit(j), 16) == if j == 0 || j == 2 || j == 8 || j == 13 then 2 else 0
  {
    hide Xor, Rotl1;
    var b := Unit(j);
    assert W(b, 16) == NextWord(b[13], b[8], b[2], b[0]);
    XorOfBits();
    RotlOfBits();
  }

  lemma XorOfBits()
    ensures Xor(0, 0) == 0 && Xor(0, 1) == 1 && Xor(1, 0) == 1
  {
  }

  lemma RotlOfBits()
    ensures Rotl1(0) == 0 && Rotl1(1) == 2
  {
    Rotl1Is(0);
    Rotl1Is(1);
  }

  /** Later words repeat the recurrence. */
  lemma ScheduleShifts(block: seq<Word>, t: nat)
    requires |block| == 16
    ensures W(block, t + 16) == W(Window(block, t), 16)
  {
    hide NextWord;
    var b := Window(block, t);
    assert W(b, 16) == NextWord(b[13], b[8], b[2], b[0]);
  }

  /** Sixteen words of the schedule in a row. */
  function Window(block: seq<Word>, t: nat): (b: seq<Word>)
    requires |block| == 16
    ensures |b| == 16 && forall i | 0 <= i < 16 :: b[i] == W(block, t + i)
  {
    seq<Word>(16, i requires 0 <= i < 16 => W(block, t + i))
  }

  /** Section 5.3.1: the bytes of the first four words count up and down, in the order of a little-endian machine. */
  lemma InitialBytes()
    ensures
      var h := INITIAL_HASH;
      && BigEndian(h.a, 4) == [0x67, 0x45, 0x23, 0x01] && BigEndian(h.b, 4) == [0xef, 0xcd, 0xab, 0x89]
      && h.c == NotWord(h.a) && h.d == NotWord(h.b) && BigEndian(h.e, 4) == [0xc3, 0xd2, 0xe1, 0xf0]
  {
    hide BigEndian;
    var h := INITIAL_HASH;
    BigEndian4(h.a);
    BigEndian4(h.b);
    BigEndian4(h.e);
  }

  lemma RegistersAdd(x: Registers, y: Registers)
    ensures
      var z := AddRegisters(x, y);
      && z.a == (x.a + y.a) % 0x1_0000_0000 && z.b == (x.b + y.b) % 0x1_0000_0000 && z.c == (x.c + y.c) % 0x1_0000_0000
      && z.d == (x.d + y.d) % 0x1_0000_0000 && z.e == (x.e + y.e) % 0x1_0000_0000
  {
  }

  /** Byte `i` of a digest is byte `i % 4`, most significant first, of register `i / 4`. */
  lemma DigestInOrder()
    ensures
      DigestBytes(Registers(0x00010203, 0x04050607, 0x08090a0b, 0x0c0d0e0f, 0x10111213))
      == [0, 1, 2, 3, 4, 5, 6, 7, 8, 9, 10, 11, 12, 13, 14, 15, 16, 17, 18, 19]
  {
    hide BigEndian;
    WordBytes(0, 1, 2, 3);
    WordBytes(4, 5, 6, 7);
    WordBytes(8, 9, 10, 11);
    WordBytes(12, 13, 14, 15);
    WordBytes(16, 17, 18, 19);
  }

  lemma WordBytes(a: Byte, b: Byte, c: Byte, d: Byte)
    ensures BigEndian(a * 0x100_0000 + b * 0x1_0000 + c * 0x100 + d, 4) == [a, b, c, d]
  {
    hide BigEndian;
    var n := a * 0x100_0000 + b * 0x1_0000 + c * 0x100 + d;
    BigEndian4(n);
    assert n / 0x100 == a * 0x1_0000 + b * 0x100 + c;
    assert n / 0x1_0000 == a * 0x100 + b;
    assert n / 0x100_0000 == a;
  }

  // ---------------------------------------------------------------------------
  // The published example: the one-block message "abc"
  // ---------------------------------------------------------------------------

  const ABC: seq<Byte> := [97, 98, 99]

  lemma AbcPadded()
    ensures Pad(ABC) == ABC + [0x80] + Zeros(52) + [0, 0, 0, 0, 0, 0, 0, 24]
  {
    hide BigEndian, Zeros;
    BigEndian8(24);
    assert ZeroCount(3) == 52;
  }

  lemma AbcWords()
    ensures |Pad(ABC)| == 64
    ensures
      var words := BlockWords(Pad(ABC));
      words[0] == 0x61626380 && words[15] == 0x18 && forall i | 0 < i < 15 :: words[i] == 0
  {
    AbcPadded();
    var s := Pad(ABC);
    assert s[0] == 97 && s[1] == 98 && s[2] == 99 && s[3] == 0x80 && s[63] == 24;
    assert forall k | 4 <= k < 63 :: s[k] == 0;
    hide Pad;
    var words := BlockWords(s);
    forall i | 0 < i < 15
      ensures words[i] == 0
    {
      assert s[4 * i] == 0 && s[4 * i + 1] == 0 && s[4 * i + 2] == 0 && s[4 * i + 3] == 0;
    }
  }

  const INITIAL_B: seq<nat> := [0xe, 0xf, 0xc, 0xd, 0xa, 0xb, 8, 9]
  const INITIAL_C: seq<nat> := [9, 8, 0xb, 0xa, 0xd, 0xc, 0xf, 0xe]
  const INITIAL_D: seq<nat> := [1, 0, 3, 2, 5, 4, 7, 6]
  const EIGHTS: seq<nat> := [8, 8, 8, 8, 8, 8, 8, 8]

  lemma FirstChoice()
    ensures Ch(0xefcdab89, 0x98badcfe, 0x10325476) == 0x98badcfe
  {
    hide And, Xor, Number16;
    EightDigits(INITIAL_B);
    EightDigits(INITIAL_C);
    EightDigits(INITIAL_D);
    EightDigits(EIGHTS);
    Chosen();
    NotChosen();
    Together();
  }

  lemma Chosen()
    ensures And(Number16(INITIAL_B), Number16(INITIAL_C)) == Number16(EIGHTS)
  {
    AndOfDigits();
    hide And, Xor, Number16;
    BitwiseDigits(INITIAL_B, INITIAL_C);
    assert seq(8, i requires 0 <= i < 8 => And(INITIAL_B[i], INITIAL_C[i])) == EIGHTS;
  }

  lemma NotChosen()
    ensures And(Number16(INITIAL_D), Number16(INITIAL_D)) == Number16(INITIAL_D)
  {
    forall i | 0 <= i < 8
      ensures And(INITIAL_D[i], INITIAL_D[i]) == INITIAL_D[i]
    {
      AndItself(INITIAL_D[i]);
    }
    hide And, Xor, Number16;
    BitwiseDigits(INITIAL_D, INITIAL_D);
    assert seq(8, i requires 0 <= i < 8 => And(INITIAL_D[i], INITIAL_D[i])) == INITIAL_D;
  }

  lemma {:induction false} AndItself(x: nat)
    ensures And(x, x) == x
  {
    if 0 < x {
      AndItself(x / 2);
    }
  }

  lemma Together()
    ensures Xor(Number16(EIGHTS), Number16(INITIAL_D)) == Number16(INITIAL_C)
  {
    XorOfDigits();
    hide And, Xor, Number16;
    BitwiseDigits(EIGHTS, INITIAL_D);
    assert seq(8, i requires 0 <= i < 8 => Xor(EIGHTS[i], INITIAL_D[i])) == INITIAL_C;
  }

  lemma EightDigits(ds: seq<nat>)
    requires |ds| == 8
    ensures Number16(ds) ==
            ds[0] * 0x1000_0000 + ds[1] * 0x100_0000 + ds[2] * 0x10_0000 + ds[3] * 0x1_0000
            + ds[4] * 0x1000 + ds[5] * 0x100 + ds[6] * 0x10 + ds[7]
  {
    var low, k := ds[..4], 4;
    FourDigits(low);
    assert ds[..7][..6][..5][..4] == low;
    assert Number16(ds[..5]) == 16 * Number16(ds[..4]) + ds[4] by { assert ds[..5][..4] == ds[..4]; }
    assert Number16(ds[..6]) == 16 * Number16(ds[..5]) + ds[5] by { assert ds[..6][..5] == ds[..5]; }
    assert Number16(ds[..7]) == 16 * Number16(ds[..6]) + ds[6] by { assert ds[..7][..6] == ds[..6]; }
  }

  lemma FourDigits(ds: seq<nat>)
    requires |ds| == 4
    ensures Number16(ds) == ds[0] * 0x1000 + ds[1] * 0x100 + ds[2] * 0x10 + ds[3]
  {
    assert Number16(ds[..1]) == ds[0] by { assert ds[..1][..0] == []; }
    assert Number16(ds[..2]) == 16 * Number16(ds[..1]) + ds[1] by { assert ds[..2][..1] == ds[..1]; }
    assert Number16(ds[..3]) == 16 * Number16(ds[..2]) + ds[2] by { assert ds[..3][..2] == ds[..2]; }
  }

  lemma AndOfDigits()
    ensures And(0xe, 9) == 8 && And(0xf, 8) == 8 && And(0xc, 0xb) == 8 && And(0xd, 0xa) == 8
    ensures And(0xa, 0xd) == 8 && And(0xb, 0xc) == 8 && And(8, 0xf) == 8 && And(9, 0xe) == 8
  {
    AndOfEights();
    hide And;
    BitwiseDigitLow(0xe, 9);
    BitwiseDigitLow(0xf, 8);
    BitwiseDigitLow(0xc, 0xb);
    BitwiseDigitLow(0xd, 0xa);
    BitwiseDigitLow(0xa, 0xd);
    BitwiseDigitLow(0xb, 0xc);
    BitwiseDigitLow(8, 0xf);
    BitwiseDigitLow(9, 0xe);
  }

  lemma AndOfEights()
    ensures And(6, 1) == 0 && And(7, 0) == 0 && And(4, 3) == 0 && And(5, 2) == 0
    ensures And(2, 5) == 0 && And(3, 4) == 0 && And(0, 7) == 0 && And(1, 6) == 0
  {
  }

  /** The bit of value eight, and the three below it. */
  lemma BitwiseDigitLow(x: nat, y: nat)
    requires 8 <= x < 16 && 8 <= y < 16
    ensures And(x, y) == 8 + And(x - 8, y - 8)
  {
    hide And;
    HalfAnd(x, y);
    HalfAnd(x - 8, y - 8);
    assert (x - 8) / 2 == x / 2 - 4 && (y - 8) / 2 == y / 2 - 4;
    BitOfFour(x / 2, y / 2);
  }

  lemma BitOfFour(x: nat, y: nat)
    requires 4 <= x < 8 && 4 <= y < 8
    ensures And(x, y) == 4 + And(x - 4, y - 4)
  {
    hide And;
    HalfAnd(x, y);
    HalfAnd(x - 4, y - 4);
    assert (x - 4) / 2 == x / 2 - 2 && (y - 4) / 2 == y / 2 - 2;
    BitOfTwo(x / 2, y / 2);
  }

  lemma BitOfTwo(x: nat, y: nat)
    requires 2 <= x < 4 && 2 <= y < 4
    ensures And(x, y) == 2 + And(x - 2, y - 2)
  {
    hide And;
    HalfAnd(x, y);
    HalfAnd(x - 2, y - 2);
    assert x / 2 == 1 && y / 2 == 1 && (x - 2) / 2 == 0 && (y - 2) / 2 == 0;
    AndOfOne();
  }

  lemma AndOfOne()
    ensures And(1, 1) == 1 && And(0, 0) == 0
  {
  }

  lemma XorOfDigits()
    ensures Xor(8, 0) == 8 && Xor(8, 1) == 9 && Xor(8, 2) == 0xa && Xor(8, 3) == 0xb
    ensures Xor(8, 4) == 0xc && Xor(8, 5) == 0xd && Xor(8, 6) == 0xe && Xor(8, 7) == 0xf
  {
    LowXor();
    HighXor();
  }

  lemma LowXor()
    ensures Xor(8, 0) == 8 && Xor(8, 1) == 9 && Xor(8, 2) == 0xa && Xor(8, 3) == 0xb
  {
  }

  lemma HighXor()
    ensures Xor(8, 4) == 0xc && Xor(8, 5) == 0xd && Xor(8, 6) == 0xe && Xor(8, 7) == 0xf
  {
  }

  /** The registers after round 0 of the message "abc". */
  lemma AbcFirstRound()
    ensures |Pad(ABC)| == 64
    ensures
      Rounds(BlockWords(Pad(ABC)), INITIAL_HASH, 1)
      == Registers(0x0116fc33, 0x67452301, 0x7bf36ae2, 0x98badcfe, 0x10325476)
  {
    AbcWords();
    hide Pad, BlockWords, Ch, Rotl5, Rotl30;
    var block := BlockWords(Pad(ABC));
    FirstChoice();
    FirstRotations();
    assert Rounds(block, INITIAL_HASH, 0) == INITIAL_HASH;
    assert W(block, 0) == 0x61626380;
  }

  lemma FirstRotations()
    ensures Rotl5(0x67452301) == 0xe8a4602c && Rotl30(0xefcdab89) == 0x7bf36ae2
  {
    hide Or, Power2, Turns;
    RotationsTurn(0x67452301);
    RotationsTurn(0xefcdab89);
    SmallPowers();
    TurnsAre(0x67452301, 5);
    TurnsAre(0xefcdab89, 30);
  }

  /** The compression is eighty rounds from the chaining value, added to it. */
  lemma EightyRounds(h: Registers, bytes: Block, n: nat)
    requires n == 80
    ensures Compress(h, bytes) == AddRegisters(h, Rounds(BlockWords(bytes), h, n))
  {
    hide Rounds, BlockWords;
  }
}
