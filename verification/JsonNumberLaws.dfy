/**
 What the numbers of `JsonNumber` mean, for every text that the grammar of numbers allows: whole numbers only,
 with the fraction and the exponent multiplied out.
 */
module JsonNumberLaws {
  import opened Bits
  import opened JsonNumber
  import opened JsonPrint

  function Pow10(n: nat): nat { if n == 0 then 1 else 10 * Pow10(n - 1) }

  predicate AllDigits(ds: seq<Byte>) { forall k | 0 <= k < |ds| :: 48 <= ds[k] <= 57 }

  /** The characters of a number: sign, digits, and, after a point, more digits. */
  function Characters(neg: bool, ds: seq<Byte>, point: bool, fs: seq<Byte>): seq<Byte> {
    (if neg then [45] else []) + (ds + (if point then [46] + fs else []))
  }

  /** The number that all the digits write together, with the sign. */
  ghost function Whole(neg: bool, ds: seq<Byte>, fs: seq<Byte>): int
    requires AllDigits(ds) && AllDigits(fs)
  {
    var n: int := DigitsValue(ds + fs);
    if neg then -n else n
  }

  // ---------------------------------------------------------------------------
  // Digits
  // ---------------------------------------------------------------------------

  lemma {:induction false} DigitsTogether(ds: seq<Byte>, fs: seq<Byte>)
    requires AllDigits(ds) && AllDigits(fs)
    ensures DigitsValue(ds + fs) == DigitsValue(ds) * Pow10(|fs|) + DigitsValue(fs)
    decreases |fs|
  {
    hide DigitsValue;
    NoDigits();
    if fs == [] {
      assert ds + fs == ds;
    } else {
      var n := |fs| - 1;
      DigitsTogether(ds, fs[..n]);
      NextDigit(ds + fs[..n], fs[n]);
      NextDigit(fs[..n], fs[n]);
      assert (ds + fs[..n]) + [fs[n]] == ds + fs && fs[..n] + [fs[n]] == fs;
      Tenfold(DigitsValue(ds), Pow10(n));
    }
  }

  lemma NoDigits()
    ensures DigitsValue([]) == 0
  {
  }

  lemma NextDigit(ds: seq<Byte>, c: Byte)
    requires AllDigits(ds) && 48 <= c <= 57
    ensures AllDigits(ds + [c]) && DigitsValue(ds + [c]) == 10 * DigitsValue(ds) + (c as int - 48)
  {
    assert (ds + [c])[..|ds|] == ds;
  }

  lemma Tenfold(d: nat, p: nat)
    ensures d * (10 * p) == 10 * (d * p)
  {
  }

  lemma {:induction false} PowersAgree(n: nat)
    ensures RealPow(10.0, n) == Pow10(n) as real
  {
    if 0 < n {
      PowersAgree(n - 1);
    }
  }

  // ---------------------------------------------------------------------------
  // Before the exponent
  // ---------------------------------------------------------------------------

  lemma DigitsStand(t: seq<Byte>, s: nat, ds: seq<Byte>)
    requires Terminated(t) && At(t, s, ds) && AllDigits(ds) && s + |ds| < |t| && !(48 <= t[s + |ds|] <= 57)
    ensures DigitsEnd(t, s) == s + |ds| && t[s..s + |ds|] == ds
  {
    forall k | s <= k < s + |ds|
      ensures IsDigit(t[k])
    {
      AtIndex(t, s, ds, k - s);
    }
    DigitsEndIs(t, s, s + |ds|);
  }

  lemma FractionStands(t: seq<Byte>, s: nat, point: bool, fs: seq<Byte>)
    requires Terminated(t) && AllDigits(fs) && (!point ==> fs == [])
    requires
      var x := if point then [46] + fs else [];
      At(t, s, x) && s + |x| < |t| && !(48 <= t[s + |x|] <= 57) && t[s + |x|] != 46
    ensures FractionAt(t, s) == (FractionValue(fs, 1.0), s + if point then 1 + |fs| else 0)
  {
    hide FractionValue, At;
    if point {
      AtSplit(t, s, [46], fs);
      AtIndex(t, s, [46], 0);
      DigitsStand(t, s + 1, fs);
    } else {
      NoFraction();
    }
  }

  lemma NoFraction()
    ensures FractionValue([], 1.0) == 0.0
  {
  }

  /** Times ten to the number of fraction digits, the number before the exponent is the whole of its digits. */
  lemma MantissaIsScaled(t: seq<Byte>, i: nat, neg: bool, ds: seq<Byte>, point: bool, fs: seq<Byte>, end: nat)
    requires Terminated(t) && AllDigits(ds) && AllDigits(fs) && (!point ==> fs == [])
    requires At(t, i, Characters(neg, ds, point, fs)) && end == i + |Characters(neg, ds, point, fs)| < |t|
    requires !(48 <= t[end] <= 57) && t[end] != 46 && (!neg && ds == [] && !point ==> t[end] != 45)
    ensures MantissaAt(t, i).1 == end
    ensures Times(MantissaAt(t, i).0, Pow10(|fs|) as real) == Whole(neg, ds, fs) as real
  {
    hide MantissaAt, DigitsValue, FractionValue, Times, Pow10, At;
    MantissaStands(t, i, neg, ds, point, fs, end);
    FractionIsScaled(fs, 1.0);
    PowersAgree(|fs|);
    DigitsTogether(ds, fs);
    ScaledWhole(neg, DigitsValue(ds), FractionValue(fs, 1.0), Pow10(|fs|), DigitsValue(fs));
  }

  lemma MantissaStands(t: seq<Byte>, i: nat, neg: bool, ds: seq<Byte>, point: bool, fs: seq<Byte>, end: nat)
    requires Terminated(t) && AllDigits(ds) && AllDigits(fs) && (!point ==> fs == [])
    requires At(t, i, Characters(neg, ds, point, fs)) && end == i + |Characters(neg, ds, point, fs)| < |t|
    requires !(48 <= t[end] <= 57) && t[end] != 46 && (!neg && ds == [] && !point ==> t[end] != 45)
    ensures
      var m := DigitsValue(ds) as real + FractionValue(fs, 1.0);
      MantissaAt(t, i) == (if neg then -m else m, end)
  {
    hide FractionAt, DigitsEnd, DigitsValue, FractionValue, At;
    var tail := if point then [46] + fs else [];
    var s := if neg then i + 1 else i;
    FirstCharacter(t, i, neg, ds, point, fs, end);
    AtSplit(t, s, ds, tail);
    AfterDigits(t, s + |ds|, tail, end);
    DigitsStand(t, s, ds);
    FractionStands(t, s + |ds|, point, fs);
  }

  lemma FirstCharacter(t: seq<Byte>, i: nat, neg: bool, ds: seq<Byte>, point: bool, fs: seq<Byte>, end: nat)
    requires AllDigits(ds) && At(t, i, Characters(neg, ds, point, fs))
    requires end == i + |Characters(neg, ds, point, fs)| < |t| && (!neg && ds == [] && !point ==> t[end] != 45)
    ensures t[i] == MINUS <==> neg
    ensures At(t, if neg then i + 1 else i, ds + if point then [46] + fs else [])
  {
    var rest := ds + if point then [46] + fs else [];
    if neg {
      AtSplit(t, i, [45], rest);
      AtIndex(t, i, [45], 0);
    } else {
      assert [] + rest == rest;
      if rest != [] {
        AtIndex(t, i, rest, 0);
      }
    }
  }

  lemma AfterDigits(t: seq<Byte>, s: nat, tail: seq<Byte>, end: nat)
    requires At(t, s, tail) && end == s + |tail| < |t| && !(48 <= t[end] <= 57) && t[end] != 46
    requires tail == [] || tail[0] == 46
    ensures s < |t| && !(48 <= t[s] <= 57)
  {
    if tail != [] {
      AtIndex(t, s, tail, 0);
    }
  }

  lemma ScaledWhole(neg: bool, d: nat, f: real, p: nat, v: nat)
    requires Times(f, p as real) == Times(1.0, v as real)
    ensures
      var m, n := d as real + f, d * p + v;
      Times(if neg then -m else m, p as real) == (if neg then -n else n) as real
  {
    assert (d * p) as real == d as real * p as real;
  }

  // ---------------------------------------------------------------------------
  // The exponent
  // ---------------------------------------------------------------------------

  /** A number without an exponent, before a delimiter. */
  lemma PlainDecimal(t: seq<Byte>, i: nat, neg: bool, ds: seq<Byte>, point: bool, fs: seq<Byte>, end: nat)
    requires Terminated(t) && AllDigits(ds) && AllDigits(fs) && (!point ==> fs == [])
    requires At(t, i, Characters(neg, ds, point, fs)) && end == i + |Characters(neg, ds, point, fs)| < |t|
    requires t[end] in {0, 9, 10, 11, 12, 13, 32, 44, 58, 93, 125}
    ensures NumberAt(t, i).1 == end
    ensures NumberAt(t, i).0 * Pow10(|fs|) as real == Whole(neg, ds, fs) as real
  {
    hide MantissaAt, Whole, Pow10;
    MantissaIsScaled(t, i, neg, ds, point, fs, end);
    assert RealPow(10.0, 0) == 1.0;
    hide RealPow;
    assert ExponentAt(t, end) == (10.0, 0, end);
    assert Times(MantissaAt(t, i).0, 1.0) == MantissaAt(t, i).0;
  }

  lemma ExponentStands(t: seq<Byte>, s: nat, mark: Byte, sign: seq<Byte>, xs: seq<Byte>)
    requires Terminated(t) && AllDigits(xs) && xs != [] && (mark == 101 || mark == 69)
    requires sign == [] || sign == [43] || sign == [45]
    requires At(t, s, [mark] + (sign + xs)) && s + 1 + |sign| + |xs| < |t| && !(48 <= t[s + 1 + |sign| + |xs|] <= 57)
    ensures t[s] == mark
    ensures ExponentAt(t, s) ==
            (if sign == [45] then 0.1 else 10.0, DigitsValue(xs), s + 1 + |sign| + |xs|)
  {
    hide DigitsEnd, DigitsValue, At, ExponentAt;
    AtSplit(t, s, [mark], sign + xs);
    AtIndex(t, s, [mark], 0);
    AtSplit(t, s + 1, sign, xs);
    var at := s + 1 + |sign|;
    SignStands(t, s + 1, sign, xs);
    DigitsStand(t, at, xs);
    ExponentIs(t, s, xs, at);
  }

  lemma SignStands(t: seq<Byte>, s: nat, sign: seq<Byte>, xs: seq<Byte>)
    requires AllDigits(xs) && xs != [] && (sign == [] || sign == [43] || sign == [45])
    requires At(t, s, sign) && At(t, s + |sign|, xs)
    ensures s < |t| && (t[s] == 43 <==> sign == [43]) && (t[s] == 45 <==> sign == [45])
  {
    AtIndex(t, s + |sign|, xs, 0);
    if sign != [] {
      AtIndex(t, s, sign, 0);
      assert sign == [sign[0]];
    }
  }

  lemma ExponentIs(t: seq<Byte>, s: nat, xs: seq<Byte>, at: nat)
    requires Terminated(t) && AllDigits(xs) && at + |xs| < |t| && s + 1 <= at <= s + 2 && (t[s] == 101 || t[s] == 69)
    requires if at == s + 2 then t[s + 1] == 43 || t[s + 1] == 45 else t[s + 1] != 43 && t[s + 1] != 45
    requires DigitsEnd(t, at) == at + |xs| && t[at..at + |xs|] == xs
    ensures ExponentAt(t, s) == (if t[s + 1] == 45 then 0.1 else 10.0, DigitsValue(xs), at + |xs|)
  {
    hide DigitsEnd, DigitsValue;
  }

  /** A text [-]digits[.digits](e|E)[+|-]digits at `i`, before a character that is no digit. */
  ghost predicate DecimalAt(
    t: seq<Byte>, i: nat, neg: bool, ds: seq<Byte>, point: bool, fs: seq<Byte>,
    mark: Byte, sign: seq<Byte>, xs: seq<Byte>, end: nat)
  {
    && AllDigits(ds) && AllDigits(fs) && (!point ==> fs == [])
    && (mark == 101 || mark == 69) && (sign == [] || sign == [43] || sign == [45]) && AllDigits(xs) && xs != []
    && var x := Characters(neg, ds, point, fs) + ([mark] + (sign + xs));
    At(t, i, x) && end == i + |x| < |t| && !(48 <= t[end] <= 57)
  }

  /** `v` times ten to the fraction digits is the whole times ten to `n`, or, after a minus sign, divided by it. */
  ghost predicate Scaled(v: real, neg: bool, ds: seq<Byte>, fs: seq<Byte>, sign: seq<Byte>, n: nat)
    requires AllDigits(ds) && AllDigits(fs)
  {
    && (sign != [45] ==> v * Pow10(|fs|) as real == Whole(neg, ds, fs) as real * Pow10(n) as real)
    && (sign == [45] ==> v * Pow10(|fs|) as real * Pow10(n) as real == Whole(neg, ds, fs) as real)
  }

  /**
   A number with an exponent, for every such text: multiplied by ten to the number of fraction digits it is the
   whole of its digits, times ten to the exponent; or, after a minus sign, that multiplied by ten to the exponent.
   The number that is read has the exponent of a 32-bit counter, the number that is written the whole one.
   */
  lemma DecimalWithExponent(
    t: seq<Byte>, i: nat, neg: bool, ds: seq<Byte>, point: bool, fs: seq<Byte>,
    mark: Byte, sign: seq<Byte>, xs: seq<Byte>, end: nat)
    requires Terminated(t) && DecimalAt(t, i, neg, ds, point, fs, mark, sign, xs, end)
    ensures NumberAt(t, i).1 == end && Scaled(NumberAt(t, i).0, neg, ds, fs, sign, DigitsValue(xs) % 0x1_0000_0000)
    ensures WrittenAt(t, i).1 == end && Scaled(WrittenAt(t, i).0, neg, ds, fs, sign, DigitsValue(xs))
  {
    hide At, MantissaAt, ExponentAt, Whole, Pow10, DigitsValue, RealPow, Times, Scaled;
    var c := Characters(neg, ds, point, fs);
    var base := if sign == [45] then 0.1 else 10.0;
    AtSplit(t, i, c, [mark] + (sign + xs));
    ExponentStands(t, i + |c|, mark, sign, xs);
    MantissaIsScaled(t, i, neg, ds, point, fs, i + |c|);
    ScaledBy(MantissaAt(t, i).0, neg, ds, fs, sign, DigitsValue(xs), base);
    ScaledBy(MantissaAt(t, i).0, neg, ds, fs, sign, DigitsValue(xs) % 0x1_0000_0000, base);
  }

  lemma ScaledBy(m: real, neg: bool, ds: seq<Byte>, fs: seq<Byte>, sign: seq<Byte>, n: nat, base: real)
    requires AllDigits(ds) && AllDigits(fs) && base == if sign == [45] then 0.1 else 10.0
    requires Times(m, Pow10(|fs|) as real) == Whole(neg, ds, fs) as real
    ensures Scaled(Times(m, RealPow(base, n)), neg, ds, fs, sign, n)
  {
    hide Whole, Pow10, RealPow;
    PowersAgree(n);
    TenthPower(n);
    var k, w := Pow10(|fs|) as real, Whole(neg, ds, fs) as real;
    if sign == [45] {
      ScaledDown(m, k, w, RealPow(0.1, n), Pow10(n) as real);
    } else {
      ScaledUp(m, k, w, RealPow(10.0, n));
    }
  }

  lemma ScaledUp(m: real, k: real, w: real, p: real)
    requires Times(m, k) == w
    ensures Times(m, p) * k == w * p
  {
    assert m * p * k == m * k * p;
  }

  lemma ScaledDown(m: real, k: real, w: real, tenth: real, p: real)
    requires Times(m, k) == w && Times(tenth, p) == 1.0
    ensures Times(m, tenth) * k * p == w
  {
    assert m * tenth * k * p == (m * k) * (tenth * p);
  }

  /** The text "1e-2" is read as a hundredth. */
  lemma MinusInExponent(t: seq<Byte>)
    requires t == [49, 101, 45, 50, 0]
    ensures NumberAt(t, 0) == (0.01, 4)
  {
    SmallText(t, 101, 45);
    Hundred();
    hide NumberAt, Pow10, DigitsValue, At;
    DecimalWithExponent(t, 0, false, [49], false, [], 101, [45], [50], 4);
  }

  /** The text "1E+2" is read as a hundred. */
  lemma PlusInExponent(t: seq<Byte>)
    requires t == [49, 69, 43, 50, 0]
    ensures NumberAt(t, 0) == (100.0, 4)
  {
    SmallText(t, 69, 43);
    Hundred();
    hide NumberAt, Pow10, DigitsValue, At;
    DecimalWithExponent(t, 0, false, [49], false, [], 69, [43], [50], 4);
  }

  lemma Hundred()
    ensures Pow10(2) == 100 && Pow10(0) == 1 && DigitsValue([50]) == 2 && Whole(false, [49], []) == 1
  {
    OneDigit(50);
    OneDigit(49);
    assert [49] + [] == [49];
  }

  lemma SmallText(t: seq<Byte>, mark: Byte, sign: Byte)
    requires t == [49, mark, sign, 50, 0]
    ensures At(t, 0, Characters(false, [49], false, []) + ([mark] + ([sign] + [50])))
    ensures Terminated(t) && |Characters(false, [49], false, []) + ([mark] + ([sign] + [50]))| == 4
  {
    assert [] + ([49] + []) == [49];
    assert t[0..4] == [49] + ([mark] + ([sign] + [50]));
  }

  lemma OneDigit(c: Byte)
    requires 48 <= c <= 57
    ensures DigitsValue([c]) == c - 48
  {
    assert [c][..0] == [];
  }
}
