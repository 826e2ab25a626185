/**
 Bytes and 32-bit words as bounded integers, and the bitwise operations on them by recursion on
 binary digits. Shifts and masks by constants are written as division, remainder and product.
 */
module Bits {

  type Byte = x: int | 0 <= x < 256

  type Word = x: int | 0 <= x < TWO_32

  const TWO_32: nat := 0x1_0000_0000

  const TWO_64: nat := 0x1_0000_0000_0000_0000

  function And(x: nat, y: nat): nat {
    if x == 0 || y == 0 then 0 else 2 * And(x / 2, y / 2) + (if x % 2 == 1 && y % 2 == 1 then 1 else 0)
  }

  function Or(x: nat, y: nat): nat
    decreases x + y
  {
    if x == 0 && y == 0 then 0 else 2 * Or(x / 2, y / 2) + (if x % 2 == 1 || y % 2 == 1 then 1 else 0)
  }

  function Xor(x: nat, y: nat): nat
    decreases x + y
  {
    if x == 0 && y == 0 then 0 else 2 * Xor(x / 2, y / 2) + (if x % 2 != y % 2 then 1 else 0)
  }

  function Power2(n: nat): (p: nat)
    ensures 0 < p
  {
    if n == 0 then 1 else 2 * Power2(n - 1)
  }

  lemma PowersOfTwo()
    ensures Power2(8) == 256 && Power2(32) == TWO_32
  {
    assert Power2(4) == 16;
    assert Power2(8) == 256;
    assert Power2(12) == 4096;
    assert Power2(16) == 65536;
    assert Power2(20) == 1048576;
    assert Power2(24) == 16777216;
    assert Power2(28) == 268435456;
  }

  /** The bitwise operations of two numbers of at most `n` bits have at most `n` bits. */
  lemma {:induction false} BitwiseBounds(x: nat, y: nat, n: nat)
    requires x < Power2(n) && y < Power2(n)
    ensures And(x, y) < Power2(n) && Or(x, y) < Power2(n) && Xor(x, y) < Power2(n)
    decreases n
  {
    if n > 0 {
      BitwiseBounds(x / 2, y / 2, n - 1);
    }
  }

  function AndWord(x: Word, y: Word): Word {
    PowersOfTwo(); BitwiseBounds(x, y, 32);
    And(x, y)
  }

  function OrWord(x: Word, y: Word): Word {
    PowersOfTwo(); BitwiseBounds(x, y, 32);
    Or(x, y)
  }

  function XorWord(x: Word, y: Word): Word {
    PowersOfTwo(); BitwiseBounds(x, y, 32);
    Xor(x, y)
  }

  function NotWord(x: Word): Word { TWO_32 - 1 - x }

  function AddWord(x: Word, y: Word): Word { (x + y) % 0x1_0000_0000 }

  function XorByte(x: Byte, y: Byte): Byte {
    PowersOfTwo(); BitwiseBounds(x, y, 8);
    Xor(x, y)
  }

  /** Exclusive or with the same operand twice is the identity. */
  lemma {:induction false} XorInvolution(x: nat, y: nat)
    ensures Xor(Xor(x, y), y) == x
    decreases x + y
  {
    if x == 0 && y == 0 {
    } else {
      XorInvolution(x / 2, y / 2);
      var z := Xor(x, y);
      assert z / 2 == Xor(x / 2, y / 2) && z % 2 == (if x % 2 != y % 2 then 1 else 0);
    }
  }

  /** With the bits of `y` taken where `x` is set and those of `z` elsewhere, "or" and "exclusive or" agree. */
  lemma {:induction false} ChooseOrIsXor(x: nat, y: nat, z: nat, n: nat)
    requires x < Power2(n) && y < Power2(n) && z < Power2(n)
    ensures
      var nx := Power2(n) - 1 - x;
      Or(And(x, y), And(nx, z)) == Xor(And(x, y), And(nx, z))
    decreases n
  {
    if n > 0 {
      ChooseOrIsXor(x / 2, y / 2, z / 2, n - 1);
      var nx := Power2(n) - 1 - x;
      assert nx / 2 == Power2(n - 1) - 1 - x / 2 && nx % 2 == 1 - x % 2;
      HalfAnd(x, y);
      HalfAnd(nx, z);
      HalfOr(And(x, y), And(nx, z));
      HalfXor(And(x, y), And(nx, z));
    }
  }

  /** The majority of three bits: "or" and "exclusive or" of the pairwise conjunctions agree. */
  lemma {:induction false} MajorityOrIsXor(x: nat, y: nat, z: nat)
    ensures Or(Or(And(x, y), And(x, z)), And(y, z)) == Xor(Xor(And(x, y), And(x, z)), And(y, z))
    decreases x + y + z
  {
    if x + y + z > 0 {
      MajorityOrIsXor(x / 2, y / 2, z / 2);
      var p, q, r := And(x, y), And(x, z), And(y, z);
      HalfAnd(x, y);
      HalfAnd(x, z);
      HalfAnd(y, z);
      HalfOr(p, q);
      HalfXor(p, q);
      HalfOr(Or(p, q), r);
      HalfXor(Xor(p, q), r);
    }
  }

  lemma HalfAnd(x: nat, y: nat)
    ensures And(x, y) / 2 == And(x / 2, y / 2) && And(x, y) % 2 == (if x % 2 == 1 && y % 2 == 1 then 1 else 0)
  {
  }

  lemma HalfOr(x: nat, y: nat)
    ensures Or(x, y) / 2 == Or(x / 2, y / 2) && Or(x, y) % 2 == (if x % 2 == 1 || y % 2 == 1 then 1 else 0)
  {
  }

  lemma HalfXor(x: nat, y: nat)
    ensures Xor(x, y) / 2 == Xor(x / 2, y / 2) && Xor(x, y) % 2 == (if x % 2 != y % 2 then 1 else 0)
  {
  }

  // ---------------------------------------------------------------------------
  // Bits side by side
  // ---------------------------------------------------------------------------

  /** Bits that do not meet: "or" is the sum. */
  lemma {:induction false} OrIsSum(x: nat, y: nat, k: nat)
    requires y < Power2(k)
    ensures Or(x * Power2(k), y) == x * Power2(k) + y
    decreases k
  {
    if k == 0 {
      OrNothing(x);
    } else {
      var p := Power2(k - 1);
      assert x * Power2(k) == 2 * (x * p);
      HalfOr(x * Power2(k), y);
      OrIsSum(x, y / 2, k - 1);
    }
  }

  lemma OrNothing(x: nat)
    ensures Or(x, 0) == x
  {
  }

  /** A mask of the low bits is a remainder. */
  lemma {:induction false} LowBits(x: nat, k: nat)
    ensures And(x, Power2(k) - 1) == x % Power2(k)
    decreases k
  {
    if k == 0 {
      assert And(x, 0) == 0;
    } else {
      var p := Power2(k - 1);
      HalfAnd(x, 2 * p - 1);
      LowBits(x / 2, k - 1);
      TwiceRemainder(x, p);
    }
  }

  lemma TwiceRemainder(x: nat, p: nat)
    requires 0 < p
    ensures x % (2 * p) == 2 * (x / 2 % p) + x % 2 && (2 * p - 1) / 2 == p - 1
  {
    var h := x / 2;
    var q, r := h / p, h % p;
    assert h == q * p + r;
    assert x == 2 * (q * p + r) + x % 2 == q * (2 * p) + (2 * r + x % 2);
    DivisionIsUnique(x, 2 * p, q, 2 * r + x % 2);
  }

  lemma DivisionIsUnique(x: nat, m: nat, q: nat, r: nat)
    requires r < m && x == q * m + r
    ensures x % m == r
  {
    var a, b := x / m, x % m;
    assert (a - q) * m == r - b;
    SmallMultiple(a - q, m);
  }

  lemma QuotientIs(x: int, q: int, d: nat, r: nat)
    requires r < d && x == q * d + r
    ensures x / d == q
  {
    var a, b := x / d, x % d;
    assert (a - q) * d == r - b;
    SmallMultiple(a - q, d);
  }

  lemma SmallMultiple(d: int, m: int)
    requires -m < d * m < m
    ensures d == 0
  {
  }

  lemma TwiceProduct(x: nat, y: nat)
    ensures x * (2 * y) == 2 * (x * y)
  {
  }

  lemma {:induction false} PowerSum(m: nat, n: nat)
    ensures Power2(m + n) == Power2(m) * Power2(n)
    decreases n
  {
    if 0 < n {
      PowerSum(m, n - 1);
      assert Power2(m + n) == 2 * Power2(m + (n - 1)) && Power2(n) == 2 * Power2(n - 1);
      hide Power2;
      TwiceProduct(Power2(m), Power2(n - 1));
    }
  }

  // ---------------------------------------------------------------------------
  // Bit by bit
  // ---------------------------------------------------------------------------

  function Bit(x: nat, k: nat): nat { if k == 0 then x % 2 else Bit(x / 2, k - 1) }

  /** Each bit of a result depends on the two bits in its place, and on nothing else. */
  lemma {:induction false} BitwiseBits(x: nat, y: nat, k: nat)
    ensures Bit(And(x, y), k) == Bit(x, k) * Bit(y, k)
    ensures Bit(Or(x, y), k) == if Bit(x, k) + Bit(y, k) == 0 then 0 else 1
    ensures Bit(Xor(x, y), k) == (Bit(x, k) + Bit(y, k)) % 2
    decreases k
  {
    HalfAnd(x, y);
    HalfOr(x, y);
    HalfXor(x, y);
    if 0 < k {
      hide And, Or, Xor;
      BitwiseBits(x / 2, y / 2, k - 1);
    }
  }

  /** A number by its hexadecimal digits, most significant first. */
  function Number16(ds: seq<nat>): nat { if ds == [] then 0 else 16 * Number16(ds[..|ds| - 1]) + ds[|ds| - 1] }

  lemma BitwiseDigit(x: nat, y: nat, a: nat, b: nat)
    requires a < 16 && b < 16
    ensures And(16 * x + a, 16 * y + b) == 16 * And(x, y) + And(a, b) && And(a, b) < 16
    ensures Xor(16 * x + a, 16 * y + b) == 16 * Xor(x, y) + Xor(a, b) && Xor(a, b) < 16
  {
    hide And, Xor;
    var (p, q) := (a / 4, b / 4);
    assert 16 * x + a == 4 * (4 * x + p) + a % 4 && 16 * y + b == 4 * (4 * y + q) + b % 4;
    BitwisePair(4 * x + p, 4 * y + q, a % 4, b % 4);
    BitwisePair(x, y, p, q);
    BitwisePair(p, q, a % 4, b % 4);
    assert a == 4 * p + a % 4 && b == 4 * q + b % 4;
  }

  lemma BitwisePair(x: nat, y: nat, a: nat, b: nat)
    requires a < 4 && b < 4
    ensures And(4 * x + a, 4 * y + b) == 4 * And(x, y) + And(a, b) && And(a, b) < 4
    ensures Xor(4 * x + a, 4 * y + b) == 4 * Xor(x, y) + Xor(a, b) && Xor(a, b) < 4
  {
    hide And, Xor;
    var (p, q) := (a / 2, b / 2);
    assert 4 * x + a == 2 * (2 * x + p) + a % 2 && 4 * y + b == 2 * (2 * y + q) + b % 2;
    BitwiseShift(2 * x + p, 2 * y + q, a % 2, b % 2);
    BitwiseShift(x, y, p, q);
    BitwiseShift(p, q, a % 2, b % 2);
    BitwiseShift(0, 0, p, q);
    assert a == 2 * p + a % 2 && b == 2 * q + b % 2;
  }

  lemma BitwiseShift(x: nat, y: nat, a: nat, b: nat)
    requires a < 2 && b < 2
    ensures And(2 * x + a, 2 * y + b) == 2 * And(x, y) + a * b
    ensures Xor(2 * x + a, 2 * y + b) == 2 * Xor(x, y) + (a + b) % 2
    ensures And(0, 0) == 0 && Xor(0, 0) == 0
  {
  }

  /** The bitwise operations work digit by digit. */
  lemma {:induction false} BitwiseDigits(xs: seq<nat>, ys: seq<nat>)
    requires |xs| == |ys| && forall i | 0 <= i < |xs| :: xs[i] < 16 && ys[i] < 16
    ensures And(Number16(xs), Number16(ys)) == Number16(seq(|xs|, i requires 0 <= i < |xs| => And(xs[i], ys[i])))
    ensures Xor(Number16(xs), Number16(ys)) == Number16(seq(|xs|, i requires 0 <= i < |xs| => Xor(xs[i], ys[i])))
    decreases |xs|
  {
    BitwiseShift(0, 0, 0, 0);
    hide And, Xor;
    if xs != [] {
      var n := |xs| - 1;
      BitwiseDigits(xs[..n], ys[..n]);
      BitwiseDigit(Number16(xs[..n]), Number16(ys[..n]), xs[n], ys[n]);
      var ands := seq(|xs|, i requires 0 <= i < |xs| => And(xs[i], ys[i]));
      var xors := seq(|xs|, i requires 0 <= i < |xs| => Xor(xs[i], ys[i]));
      assert ands[..n] == seq(n, i requires 0 <= i < n => And(xs[..n][i], ys[..n][i]));
      assert xors[..n] == seq(n, i requires 0 <= i < n => Xor(xs[..n][i], ys[..n][i]));
    }
  }
}
