/**
 The characters of a JSON text, and `string2double` of core/gason.cpp over exact real numbers.
 A text is the bytes of a NUL-terminated buffer.
 */
module JsonNumber {
  import opened Bits

  const MINUS: Byte := 45
  const PLUS: Byte := 43
  const DOT: Byte := 46
  const ZERO: Byte := 48
  const NINE: Byte := 57

  ghost predicate Terminated(t: seq<Byte>) { 0 < |t| && t[|t| - 1] == 0 }

  predicate IsDigit(c: Byte) { ZERO <= c <= NINE }

  /** The end of the digits that start at `i`. */
  ghost function DigitsEnd(t: seq<Byte>, i: nat): (j: nat)
    requires Terminated(t) && i < |t|
    ensures i <= j < |t| && !IsDigit(t[j]) && forall k | i <= k < j :: IsDigit(t[k])
    decreases |t| - i
  {
    if IsDigit(t[i]) then DigitsEnd(t, i + 1) else i
  }

  /** The decimal number that a sequence of digits writes. */
  ghost function DigitsValue(ds: seq<Byte>): nat
    requires forall k | 0 <= k < |ds| :: IsDigit(ds[k])
  {
    if ds == [] then 0
    else
      assert IsDigit(ds[|ds| - 1]);
      10 * DigitsValue(ds[..|ds| - 1]) + (ds[|ds| - 1] - ZERO)
  }

  /** The fraction that digits write after the point, the first of them worth a tenth of `unit`. */
  ghost function FractionValue(ds: seq<Byte>, unit: real): real {
    if ds == [] then 0.0
    else (ds[0] - ZERO) as real * (unit * 0.1) + FractionValue(ds[1..], unit * 0.1)
  }

  /** A product, named so that a proof can leave it unopened. */
  function Times(x: real, y: real): real { x * y }

  ghost function RealPow(b: real, n: nat): real {
    if n == 0 then 1.0 else b * RealPow(b, n - 1)
  }

  /** The fraction at `i`, if a point is there: its value and its end. */
  ghost function FractionAt(t: seq<Byte>, i: nat): (r: (real, nat))
    requires Terminated(t) && i < |t|
    ensures i <= r.1 < |t|
  {
    if t[i] == DOT then
      var e := DigitsEnd(t, i + 1);
      (FractionValue(t[i + 1..e], 1.0), e)
    else (0.0, i)
  }

  /** The exponent at `i`, if there is one: ten or a tenth, to which power, and its end. */
  ghost function ExponentAt(t: seq<Byte>, i: nat): (r: (real, nat, nat))
    requires Terminated(t) && i < |t|
    ensures i <= r.2 < |t| && (r.0 == 10.0 || r.0 == 0.1)
  {
    if t[i] == 101 || t[i] == 69 then
      var signed := t[i + 1] == PLUS || t[i + 1] == MINUS;
      var s := if signed then i + 2 else i + 1;
      var e := DigitsEnd(t, s);
      (if t[i + 1] == MINUS then 0.1 else 10.0, DigitsValue(t[s..e]), e)
    else (10.0, 0, i)
  }

  /** The number at `i` before its exponent: its signed value and its end. */
  ghost function MantissaAt(t: seq<Byte>, i: nat): (r: (real, nat))
    requires Terminated(t) && i < |t|
    ensures i <= r.1 < |t|
  {
    var s := if t[i] == MINUS then i + 1 else i;
    var e := DigitsEnd(t, s);
    var (fraction, f) := FractionAt(t, e);
    var magnitude := DigitsValue(t[s..e]) as real + fraction;
    (if t[i] == MINUS then -magnitude else magnitude, f)
  }

  /** The number that the text writes at `i`: its exact value and its end. */
  ghost function WrittenAt(t: seq<Byte>, i: nat): (r: (real, nat))
    requires Terminated(t) && i < |t|
    ensures i <= r.1 < |t|
  {
    var (mantissa, f) := MantissaAt(t, i);
    var (base, exponent, end) := ExponentAt(t, f);
    (Times(mantissa, RealPow(base, exponent)), end)
  }

  /** The number that the code reads at `i`, with the exponent in a 32-bit counter. */
  ghost function NumberAt(t: seq<Byte>, i: nat): (r: (real, nat))
    requires Terminated(t) && i < |t|
    ensures i <= r.1 < |t|
  {
    var (mantissa, f) := MantissaAt(t, i);
    var (base, exponent, end) := ExponentAt(t, f);
    (Times(mantissa, RealPow(base, exponent % 0x1_0000_0000)), end)
  }

  /** The exponent at `i` fits its counter, or it does not matter. */
  ghost predicate ExponentFits(t: seq<Byte>, i: nat)
    requires Terminated(t) && i < |t|
  {
    var (mantissa, f) := MantissaAt(t, i);
    mantissa == 0.0 || ExponentAt(t, f).1 < TWO_32
  }

  // ---------------------------------------------------------------------------
  // Facts
  // ---------------------------------------------------------------------------

  lemma {:induction false} DigitsEndIs(t: seq<Byte>, i: nat, j: nat)
    requires Terminated(t) && i <= j < |t| && !IsDigit(t[j]) && forall k | i <= k < j :: IsDigit(t[k])
    ensures DigitsEnd(t, i) == j
    decreases j - i
  {
    if i < j {
      DigitsEndIs(t, i + 1, j);
    }
  }

  lemma DigitsValueSnoc(t: seq<Byte>, s: nat, j: nat)
    requires s <= j < |t| && forall k | s <= k <= j :: IsDigit(t[k])
    ensures DigitsValue(t[s..j + 1]) == 10 * DigitsValue(t[s..j]) + (t[j] - ZERO)
  {
    assert t[s..j + 1][..j - s] == t[s..j];
  }

  lemma {:induction false} RealPowSquare(b: real, n: nat)
    ensures RealPow(b, 2 * n) == RealPow(b * b, n)
  {
    if n > 0 {
      RealPowSquare(b, n - 1);
      var p := RealPow(b, 2 * (n - 1));
      assert RealPow(b, 2 * n - 1) == b * p;
      assert b * (b * p) == (b * b) * p;
    }
  }

  /** One turn of the square-and-multiply loop. */
  lemma RealPowHalf(power: real, b: real, e: nat)
    requires 0 < e
    ensures
      var next := if e % 2 == 1 then power * b else power;
      next * RealPow(b * b, e / 2) == power * RealPow(b, e)
  {
    RealPowSquare(b, e / 2);
    if e % 2 == 1 {
      assert e == 2 * (e / 2) + 1;
      var p := RealPow(b, e - 1);
      assert (power * b) * p == power * (b * p);
    }
  }

  /** Powers of ten and of a tenth are positive, and no two are equal. */
  lemma {:induction false} PowersDiffer(b: real, m: nat, n: nat)
    requires (b == 10.0 || b == 0.1) && m < n
    ensures 0.0 < RealPow(b, m) && 0.0 < RealPow(b, n)
    ensures if b == 10.0 then RealPow(b, m) < RealPow(b, n) else RealPow(b, n) < RealPow(b, m)
    decreases n
  {
    if m + 1 < n {
      PowersDiffer(b, m, n - 1);
    } else if 0 < m {
      PowersDiffer(b, m - 1, m);
    }
  }

  lemma TimesZero(x: real, y: real)
    ensures Times(0.0, x) == Times(0.0, y)
  {
  }

  lemma ProductsDiffer(a: real, x: real, y: real)
    requires a != 0.0 && x != y
    ensures Times(a, x) != Times(a, y)
  {
    assert a * (x - y) == a * x - a * y;
  }

  /** The code reads the number that is written exactly when the exponent fits, or the mantissa is zero. */
  lemma ReadsWrittenExactly(t: seq<Byte>, i: nat)
    requires Terminated(t) && i < |t|
    ensures NumberAt(t, i) == WrittenAt(t, i) <==> ExponentFits(t, i)
  {
    hide MantissaAt, ExponentAt, RealPow, Times;
    var (mantissa, f) := MantissaAt(t, i);
    var (base, exponent, end) := ExponentAt(t, f);
    var reduced := exponent % 0x1_0000_0000;
    if reduced != exponent {
      assert reduced < exponent;
      PowersDiffer(base, reduced, exponent);
      TimesZero(RealPow(base, reduced), RealPow(base, exponent));
      if mantissa != 0.0 {
        ProductsDiffer(mantissa, RealPow(base, reduced), RealPow(base, exponent));
      }
    }
  }

  /** The text "1e4294967296" is read as 1. */
  lemma LargeExponentIsLost()
    ensures
      var t := [49, 101, 52, 50, 57, 52, 57, 54, 55, 50, 57, 54, 0];
      NumberAt(t, 0) == (1.0, 12) && WrittenAt(t, 0) != (1.0, 12)
  {
    OneToThe([49, 101, 52, 50, 57, 52, 57, 54, 55, 50, 57, 54, 0]);
  }

  lemma OneToThe(t: seq<Byte>)
    requires Terminated(t) && |t| == 13 && t[0] == 49 && t[1] == 101
    requires t[2..12] == [52, 50, 57, 52, 57, 54, 55, 50, 57, 54]
    ensures NumberAt(t, 0) == (1.0, 12) && WrittenAt(t, 0) != (1.0, 12)
  {
    OneBefore(t);
    TenDigitsAfter(t);
    ReadsWrittenExactly(t, 0);
    hide MantissaAt, ExponentAt;
    assert RealPow(10.0, 4294967296 % 0x1_0000_0000) == 1.0;
  }

  lemma OneBefore(t: seq<Byte>)
    requires Terminated(t) && 2 < |t| && t[0] == 49 && t[1] == 101
    ensures MantissaAt(t, 0) == (1.0, 1)
  {
    DigitsEndIs(t, 0, 1);
    hide DigitsEnd;
    assert t[0..1] == [49];
    assert DigitsValue([49]) == 1;
  }

  lemma TenDigitsAfter(t: seq<Byte>)
    requires Terminated(t) && |t| == 13 && t[1] == 101
    requires t[2..12] == [52, 50, 57, 52, 57, 54, 55, 50, 57, 54]
    ensures ExponentAt(t, 1) == (10.0, 4294967296, 12)
  {
    TenDigits(t[2..12]);
    forall k | 2 <= k < 12
      ensures IsDigit(t[k])
    {
      assert t[k] == t[2..12][k - 2];
    }
    DigitsEndIs(t, 2, 12);
    hide DigitsEnd, DigitsValue;
    assert t[2] == t[2..12][0];
  }

  function DigitOf(c: Byte): int { c - ZERO }

  lemma FiveDigits(ds: seq<Byte>, at: nat)
    requires at + 5 <= |ds| && forall k | 0 <= k < |ds| :: IsDigit(ds[k])
    ensures DigitsValue(ds[0..at + 5]) ==
            100000 * DigitsValue(ds[0..at]) + 10000 * DigitOf(ds[at]) + 1000 * DigitOf(ds[at + 1])
            + 100 * DigitOf(ds[at + 2]) + 10 * DigitOf(ds[at + 3]) + DigitOf(ds[at + 4])
  {
    hide DigitsValue;
    DigitsValueSnoc(ds, 0, at);
    DigitsValueSnoc(ds, 0, at + 1);
    DigitsValueSnoc(ds, 0, at + 2);
    DigitsValueSnoc(ds, 0, at + 3);
    DigitsValueSnoc(ds, 0, at + 4);
  }

  lemma TenDigits(ds: seq<Byte>)
    requires ds == [52, 50, 57, 52, 57, 54, 55, 50, 57, 54]
    ensures DigitsValue(ds) == 4294967296
  {
    assert DigitsValue(ds[0..0]) == 0;
    hide DigitsValue;
    FiveDigits(ds, 0);
    FiveDigits(ds, 5);
    assert ds[0..10] == ds;
  }

  lemma {:induction false} FractionSnoc(ds: seq<Byte>, d: Byte, unit: real)
    ensures FractionValue(ds + [d], unit) ==
            FractionValue(ds, unit) + Times((d - ZERO) as real, Times(unit, RealPow(0.1, |ds| + 1)))
    decreases |ds|
  {
    if ds == [] {
      assert [d][1..] == [] && ds + [d] == [d];
      assert RealPow(0.1, 1) == 0.1;
    } else {
      assert (ds + [d])[0] == ds[0] && (ds + [d])[1..] == ds[1..] + [d];
      FractionSnoc(ds[1..], d, unit * 0.1);
      var p := RealPow(0.1, |ds|);
      assert unit * 0.1 * p == unit * (0.1 * p);
    }
  }

  lemma {:induction false} TenthPower(n: nat)
    ensures Times(RealPow(0.1, n), RealPow(10.0, n)) == 1.0
  {
    if n > 0 {
      TenthPower(n - 1);
      var x, y := RealPow(0.1, n - 1), RealPow(10.0, n - 1);
      assert (0.1 * x) * (10.0 * y) == x * y;
    }
  }

  /** Digits after the point are worth their decimal value, scaled down by ten to the power `n`. */
  ghost predicate Scaled(ds: seq<Byte>, unit: real, n: nat)
    requires forall k | 0 <= k < |ds| :: IsDigit(ds[k])
  {
    Times(FractionValue(ds, unit), RealPow(10.0, n)) == Times(unit, DigitsValue(ds) as real)
  }

  /** The value of a fraction is that of its digits, scaled down by ten to their number. */
  lemma {:induction false} FractionIsScaled(ds: seq<Byte>, unit: real)
    requires forall k | 0 <= k < |ds| :: IsDigit(ds[k])
    ensures Scaled(ds, unit, |ds|)
    decreases |ds|
  {
    if ds != [] {
      var n := |ds| - 1;
      FractionIsScaled(ds[..n], unit);
      hide Scaled;
      assert ds == ds[..n] + [ds[n]];
      ScaledSnoc(ds[..n], ds[n], unit, n);
    }
  }

  lemma ScaledSnoc(ds: seq<Byte>, d: Byte, unit: real, n: nat)
    requires (forall k | 0 <= k < |ds| :: IsDigit(ds[k])) && IsDigit(d) && Scaled(ds, unit, |ds|) && n == |ds|
    ensures forall k | 0 <= k < |ds + [d]| :: IsDigit((ds + [d])[k])
    ensures Scaled(ds + [d], unit, n + 1)
  {
    var all := ds + [d];
    assert all[..|ds|] == ds;
    FractionSnoc(ds, d, unit);
    TenthPower(|ds| + 1);
    assert DigitsValue(all) == 10 * DigitsValue(ds) + (d - ZERO);
    assert RealPow(10.0, |ds| + 1) == 10.0 * RealPow(10.0, |ds|);
    hide FractionValue, DigitsValue, RealPow, Times;
    ScaledStep(FractionValue(ds, unit), (d - ZERO) as real, unit, RealPow(0.1, |ds| + 1), RealPow(10.0, |ds|),
               DigitsValue(ds) as real, FractionValue(all, unit), RealPow(10.0, |ds| + 1), DigitsValue(all) as real);
  }

  lemma ScaledStep(f: real, d: real, unit: real, tenth: real, ten: real, v: real, f': real, ten': real, v': real)
    requires Times(f, ten) == Times(unit, v) && Times(tenth, ten') == 1.0
    requires f' == f + Times(d, Times(unit, tenth)) && ten' == 10.0 * ten && v' == 10.0 * v + d
    ensures Times(f', ten') == Times(unit, v')
  {
    assert f * ten' == 10.0 * (unit * v);
    assert d * (unit * tenth) * ten' == d * unit * (tenth * ten');
    assert f' * ten' == f * ten' + d * (unit * tenth) * ten';
    assert unit * v' == 10.0 * (unit * v) + unit * d;
  }

  // ---------------------------------------------------------------------------
  // The code
  // ---------------------------------------------------------------------------

  method StringToDouble(text: array<Byte>, start: nat) returns (value: real, end: nat)
    requires Terminated(text[..]) && start < text.Length
    ensures (value, end) == NumberAt(text[..], start)
    ensures (value, end) == WrittenAt(text[..], start) <==> ExponentFits(text[..], start)
  {
    hide FractionAt, ExponentAt, DigitsEnd, DigitsValue, RealPow, WrittenAt, ExponentFits;
    ReadsWrittenExactly(text[..], start);
    var ch := text[start];
    var s := start;
    if ch == MINUS {
      s := s + 1;
    }
    var result;
    result, s := ReadInteger(text, s);
    var fraction;
    fraction, s := ReadFraction(text, s, result);
    var power;
    power, s := ReadPower(text, s);
    value := fraction * power;
    ghost var first := if ch == MINUS then start + 1 else start;
    ghost var e := DigitsEnd(text[..], first);
    assert fraction == DigitsValue(text[..][first..e]) as real + FractionAt(text[..], e).0;
    assert MantissaAt(text[..], start) == (if ch == MINUS then -fraction else fraction, FractionAt(text[..], e).1);
    ghost var x := ExponentAt(text[..], FractionAt(text[..], e).1);
    assert power == RealPow(x.0, x.1 % 0x1_0000_0000) && s == x.2;
    assert fraction * power == Times(fraction, power) && -(fraction * power) == Times(-fraction, power);
    hide MantissaAt, Times;
    if ch == MINUS {
      value := -value;
    }
    end := s;
  }

  method ReadInteger(text: array<Byte>, start: nat) returns (result: real, s: nat)
    requires Terminated(text[..]) && start < text.Length
    ensures s == DigitsEnd(text[..], start) && result == DigitsValue(text[..][start..s]) as real
  {
    ghost var t := text[..];
    s, result := start, 0.0;
    assert t[start..start] == [];
    while IsDigit(text[s])
      invariant start <= s < text.Length && forall k | start <= k < s :: IsDigit(t[k])
      invariant result == DigitsValue(t[start..s]) as real
      decreases text.Length - s
    {
      DigitsValueSnoc(t, start, s);
      result := result * 10.0 + (text[s] - ZERO) as real;
      s := s + 1;
    }
    DigitsEndIs(t, start, s);
  }

  method ReadFraction(text: array<Byte>, start: nat, integer: real) returns (result: real, s: nat)
    requires Terminated(text[..]) && start < text.Length
    ensures s == FractionAt(text[..], start).1 && result == integer + FractionAt(text[..], start).0
  {
    ghost var t := text[..];
    s, result := start, integer;
    if text[s] == DOT {
      s := s + 1;
      ghost var e := DigitsEnd(t, s);
      var fraction := 1.0;
      while IsDigit(text[s])
        invariant start < s <= e
        invariant result + FractionValue(t[s..e], fraction) == integer + FractionValue(t[start + 1..e], 1.0)
        decreases text.Length - s
      {
        assert t[s..e][1..] == t[s + 1..e];
        fraction := fraction * 0.1;
        result := result + (text[s] - ZERO) as real * fraction;
        s := s + 1;
      }
    }
  }

  method ReadPower(text: array<Byte>, start: nat) returns (power: real, s: nat)
    requires Terminated(text[..]) && start < text.Length
    ensures
      var (base, exponent, end) := ExponentAt(text[..], start);
      power == RealPow(base, exponent % 0x1_0000_0000) && s == end
  {
    ghost var t := text[..];
    hide DigitsEnd, DigitsValue, RealPow;
    s, power := start, 1.0;
    if text[s] == 101 || text[s] == 69 {
      s := s + 1;
      var base := 10.0;
      if text[s] == PLUS {
        s := s + 1;
      } else if text[s] == MINUS {
        s := s + 1;
        base := 0.1;
      }
      var exponent;
      exponent, s := ReadExponent(text, s);
      power := Power(base, exponent);
    }
  }

  /** Square and multiply. */
  method Power(base0: real, exponent0: nat) returns (power: real)
    ensures power == RealPow(base0, exponent0)
  {
    var base, exponent := base0, exponent0;
    power := 1.0;
    while exponent != 0
      invariant power * RealPow(base, exponent) == RealPow(base0, exponent0)
    {
      RealPowHalf(power, base, exponent);
      if exponent % 2 == 1 {
        power := power * base;
      }
      exponent := exponent / 2;
      base := base * base;
    }
  }

  lemma WrappedStep(v: nat, d: nat)
    ensures (v % 0x1_0000_0000 * 10 + d) % 0x1_0000_0000 == (10 * v + d) % 0x1_0000_0000
  {
    var q := v / 0x1_0000_0000;
    assert 10 * v + d == v % 0x1_0000_0000 * 10 + d + 0x1_0000_0000 * (10 * q);
  }

  /** The exponent digits in a 32-bit unsigned counter, which wraps. */
  method ReadExponent(text: array<Byte>, start: nat) returns (exponent: nat, s: nat)
    requires Terminated(text[..]) && start < text.Length
    ensures s == DigitsEnd(text[..], start)
    ensures exponent == DigitsValue(text[..][start..s]) % 0x1_0000_0000
  {
    ghost var t := text[..];
    s, exponent := start, 0;
    assert t[start..start] == [];
    while IsDigit(text[s])
      invariant start <= s < text.Length && forall k | start <= k < s :: IsDigit(t[k])
      invariant exponent == DigitsValue(t[start..s]) % 0x1_0000_0000
      decreases text.Length - s
    {
      DigitsValueSnoc(t, start, s);
      WrappedStep(DigitsValue(t[start..s]), text[s] - ZERO);
      hide DigitsValue, DigitsEnd;
      exponent := (exponent * 10 + (text[s] - ZERO)) % 0x1_0000_0000;
      s := s + 1;
    }
    DigitsEndIs(t, start, s);
  }
}
