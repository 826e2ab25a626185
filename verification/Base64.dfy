/**
 Base64 (core/crypto/base64.cpp). `Encode` is section 4 of RFC 4648: 24-bit groups of three bytes cut
 into four 6-bit digits, the last group padded. `EncodeBytes` and `DecodeText` are the code, with group
 arrays that fill up one element at a time and a tail case. Characters are bytes.
 */
module Base64 {
  import opened Bits

  const PAD: Byte := 61

  /** The alphabet: A-Z, a-z, 0-9, '+', '/'. */
  function Letter(v: nat): Byte
    requires v < 64
  {
    if v < 26 then 65 + v else if v < 52 then 71 + v else if v < 62 then v - 4 else if v == 62 then 43 else 47
  }

  predicate IsBase64(c: Byte) { 65 <= c <= 90 || 97 <= c <= 122 || 48 <= c <= 57 || c == 43 || c == 47 }

  /** `base64_chars.find`, cut to a byte: 255 when the character is not in the alphabet. */
  function Find(c: Byte): (v: Byte)
    ensures IsBase64(c) <==> v < 64
    ensures v < 64 ==> Letter(v) == c
  {
    if 65 <= c <= 90 then c - 65 else if 97 <= c <= 122 then c - 71 else if 48 <= c <= 57 then c + 4
    else if c == 43 then 62 else if c == 47 then 63 else 255
  }

  lemma FindLetter(v: nat)
    requires v < 64
    ensures Find(Letter(v)) == v && IsBase64(Letter(v))
  {
  }

  // ---------------------------------------------------------------------------
  // RFC 4648
  // ---------------------------------------------------------------------------

  function Number24(b0: int, b1: int, b2: int): (n: nat)
    requires 0 <= b0 < 256 && 0 <= b1 < 256 && 0 <= b2 < 256
    ensures n < 0x100_0000
  {
    b0 * 0x1_0000 + b1 * 0x100 + b2
  }

  /** The four digits of a 24-bit group, most significant first. */
  function Digits(n: nat): (ds: seq<nat>)
    requires n < 0x100_0000
    ensures |ds| == 4 && forall k | 0 <= k < 4 :: ds[k] < 64
  {
    [n / 0x4_0000, n / 0x1000 % 64, n / 64 % 64, n % 64]
  }

  function GroupLetters(b0: Byte, b1: Byte, b2: Byte): (cs: seq<Byte>)
    ensures |cs| == 4
  {
    var ds := Digits(Number24(b0, b1, b2));
    [Letter(ds[0]), Letter(ds[1]), Letter(ds[2]), Letter(ds[3])]
  }

  function Encode(x: seq<Byte>): seq<Byte> {
    if x == [] then []
    else if |x| == 1 then GroupLetters(x[0], 0, 0)[..2] + [PAD, PAD]
    else if |x| == 2 then GroupLetters(x[0], x[1], 0)[..3] + [PAD]
    else GroupLetters(x[0], x[1], x[2]) + Encode(x[3..])
  }

  // The bytes that adjacent digits share.
  function Byte0(d0: int, d1: int): Byte { (d0 * 4 + d1 % 64 / 16) % 256 }

  function Byte1(d1: int, d2: int): Byte { (d1 % 16 * 16 + d2 % 64 / 4) % 256 }

  function Byte2(d2: int, d3: int): Byte { (d2 % 4 * 64 + d3) % 256 }

  /** The three bytes of four digits. */
  function GroupBytes(d0: Byte, d1: Byte, d2: Byte, d3: Byte): (bs: seq<Byte>)
    ensures |bs| == 3
  {
    [Byte0(d0, d1), Byte1(d1, d2), Byte2(d2, d3)]
  }

  /** The part of a text that the decoder reads: up to the first character outside the alphabet. */
  function Readable(s: seq<Byte>): (r: seq<Byte>)
    ensures forall c | c in r :: IsBase64(c)
  {
    if s == [] || !IsBase64(s[0]) then [] else [s[0]] + Readable(s[1..])
  }

  /** Groups of four; a tail of `i` characters gives `i - 1` bytes, its missing digits being 255. */
  function DecodeGroups(cs: seq<Byte>): seq<Byte> {
    if |cs| < 4 then DecodeTail(cs)
    else GroupBytes(Find(cs[0]), Find(cs[1]), Find(cs[2]), Find(cs[3])) + DecodeGroups(cs[4..])
  }

  function DecodeTail(cs: seq<Byte>): seq<Byte>
    requires |cs| < 4
  {
    if |cs| <= 1 then []
    else if |cs| == 2 then GroupBytes(Find(cs[0]), Find(cs[1]), 255, 255)[..1]
    else GroupBytes(Find(cs[0]), Find(cs[1]), Find(cs[2]), 255)[..2]
  }

  function Decode(s: seq<Byte>): seq<Byte> { DecodeGroups(Readable(s)) }

  /** The decoder reads the longest prefix in the alphabet. */
  lemma {:induction false} ReadableIsLongest(s: seq<Byte>)
    ensures
      var n := |Readable(s)|;
      n <= |s| && Readable(s) == s[..n] && (n < |s| ==> !IsBase64(s[n]))
  {
    if s != [] && IsBase64(s[0]) {
      ReadableIsLongest(s[1..]);
    }
  }

  /** A byte across two digits: the low bits of the first one, and then the high bits of the next. */
  function Straddling(r: nat, d: nat, e: nat): nat {
    if r == 0 then d * 4 + e / 16 else if r == 1 then d % 16 * 16 + e / 4 else d % 4 * 64 + e
  }

  lemma FirstStraddles(d: Byte, e: Byte)
    requires d < 64 && e < 64
    ensures Byte0(d, e) == Straddling(0, d, e)
  {
  }

  lemma SecondStraddles(d: Byte, e: Byte)
    requires d < 64 && e < 64
    ensures Byte1(d, e) == Straddling(1, d, e)
  {
  }

  lemma ThirdStraddles(d: Byte, e: Byte)
    requires d < 64 && e < 64
    ensures Byte2(d, e) == Straddling(2, d, e)
  {
  }

  lemma GroupStraddles(a: Byte, b: Byte, c: Byte, d: Byte)
    requires a < 64 && b < 64
    ensures
      var bs := GroupBytes(a, b, c, d);
      && bs[0] == Straddling(0, a, b)
      && (c < 64 ==> bs[1] == Straddling(1, b, c))
      && (c < 64 && d < 64 ==> bs[2] == Straddling(2, c, d))
  {
    hide Byte0, Byte1, Byte2, Straddling;
    FirstStraddles(a, b);
    if c < 64 {
      SecondStraddles(b, c);
      if d < 64 {
        ThirdStraddles(c, d);
      }
    }
  }

  lemma GroupOf(k: nat)
    requires 3 <= k
    ensures (k - 3) % 3 == k % 3 && (k - 3) / 3 * 4 + (k - 3) % 3 + 4 == k / 3 * 4 + k % 3
  {
  }

  /** Letters decode to as many bytes as they have bits for, each made of the two letters that it lies in. */
  lemma {:induction false} DecodedBytes(cs: seq<Byte>)
    requires forall i | 0 <= i < |cs| :: Find(cs[i]) < 64
    ensures
      var x := DecodeGroups(cs);
      && |x| == |cs| * 6 / 8
      && forall k | 0 <= k < |x| ::
           var i := k / 3 * 4 + k % 3;
           i + 1 < |cs| && x[k] == Straddling(k % 3, Find(cs[i]), Find(cs[i + 1]))
    decreases |cs|
  {
    hide Find, GroupBytes, Straddling;
    var x := DecodeGroups(cs);
    if 2 <= |cs| {
      var c := if |cs| == 2 then 255 else Find(cs[2]);
      var d := if |cs| <= 3 then 255 else Find(cs[3]);
      GroupStraddles(Find(cs[0]), Find(cs[1]), c, d);
    }
    if 4 <= |cs| {
      DecodedBytes(cs[4..]);
      forall k | 3 <= k < |x|
        ensures
          var i := k / 3 * 4 + k % 3;
          i + 1 < |cs| && x[k] == Straddling(k % 3, Find(cs[i]), Find(cs[i + 1]))
      {
        assert x[k] == DecodeGroups(cs[4..])[k - 3];
        GroupOf(k);
      }
    }
  }

  // ---------------------------------------------------------------------------
  // Lengths, padding and the round trip
  // ---------------------------------------------------------------------------

  /** Four characters for each group, the last one padded to a whole group, and no other padding. */
  lemma {:induction false} EncodedShape(x: seq<Byte>)
    ensures
      var s := Encode(x);
      var pads := (3 - |x| % 3) % 3;
      && |s| == 4 * ((|x| + 2) / 3)
      && forall k | 0 <= k < |s| :: if k < |s| - pads then IsBase64(s[k]) else s[k] == PAD
    decreases |x|
  {
    hide GroupLetters;
    if 3 <= |x| {
      EncodedShape(x[3..]);
      GroupIsBase64(x[0], x[1], x[2]);
    } else if |x| == 1 {
      GroupIsBase64(x[0], 0, 0);
    } else if |x| == 2 {
      GroupIsBase64(x[0], x[1], 0);
    }
  }

  lemma GroupIsBase64(b0: Byte, b1: Byte, b2: Byte)
    ensures forall k | 0 <= k < 4 :: IsBase64(GroupLetters(b0, b1, b2)[k])
  {
    hide Letter, Find, IsBase64;
    var ds := Digits(Number24(b0, b1, b2));
    FindLetter(ds[0]);
    FindLetter(ds[1]);
    FindLetter(ds[2]);
    FindLetter(ds[3]);
  }

  lemma DigitsOfNumber(n: nat, d0: nat, d1: nat, d2: nat, d3: nat)
    requires d0 < 64 && d1 < 64 && d2 < 64 && d3 < 64
    requires n == d0 * 0x4_0000 + d1 * 0x1000 + d2 * 64 + d3
    ensures n < 0x100_0000 && Digits(n) == [d0, d1, d2, d3]
  {
    assert n / 0x4_0000 == d0;
    assert n / 0x1000 == d0 * 64 + d1;
    assert n / 64 == d0 * 4096 + d1 * 64 + d2;
    assert (d0 * 64 + d1) % 64 == d1;
    assert (d0 * 4096 + d1 * 64 + d2) % 64 == d2;
  }

  /** The digits of a group in terms of its bytes, as the code computes them. */
  lemma DigitsOfBytes(b0: Byte, b1: Byte, b2: Byte)
    ensures Digits(Number24(b0, b1, b2)) == [b0 / 4, b0 % 4 * 16 + b1 / 16, b1 % 16 * 4 + b2 / 64, b2 % 64]
  {
    hide Digits;
    var d1, d2 := b0 % 4 * 16 + b1 / 16, b1 % 16 * 4 + b2 / 64;
    assert b0 == b0 / 4 * 4 + b0 % 4 && b1 == b1 / 16 * 16 + b1 % 16 && b2 == b2 / 64 * 64 + b2 % 64;
    DigitsOfNumber(Number24(b0, b1, b2), b0 / 4, d1, d2, b2 % 64);
  }

  /** Joining what `b / m` and `b % m` were put into gives the byte `b` back. */
  lemma FirstByte(b0: Byte, b1: Byte)
    ensures Byte0(b0 / 4, b0 % 4 * 16 + b1 / 16) == b0
  {
    var d1 := b0 % 4 * 16 + b1 / 16;
    assert d1 / 16 == b0 % 4 && d1 < 64;
    assert d1 % 64 == d1;
  }

  lemma SecondByte(b0: Byte, b1: Byte, b2: Byte)
    ensures Byte1(b0 % 4 * 16 + b1 / 16, b1 % 16 * 4 + b2 / 64) == b1
  {
    var d1, d2 := b0 % 4 * 16 + b1 / 16, b1 % 16 * 4 + b2 / 64;
    assert d1 % 16 == b1 / 16;
    assert d2 / 4 == b1 % 16 && d2 < 64;
    assert d2 % 64 == d2;
  }

  lemma ThirdByte(b1: Byte, b2: Byte)
    ensures Byte2(b1 % 16 * 4 + b2 / 64, b2 % 64) == b2
  {
    var d2 := b1 % 16 * 4 + b2 / 64;
    assert d2 % 4 == b2 / 64;
  }

  lemma GroupRoundTrip(b0: Byte, b1: Byte, b2: Byte, d2: Byte, d3: Byte)
    ensures
      var ds := Digits(Number24(b0, b1, b2));
      && GroupBytes(ds[0], ds[1], d2, d3)[0] == b0
      && GroupBytes(ds[0], ds[1], ds[2], d3)[1] == b1
      && GroupBytes(ds[0], ds[1], ds[2], ds[3]) == [b0, b1, b2]
  {
    hide Digits, Byte0, Byte1, Byte2;
    DigitsOfBytes(b0, b1, b2);
    FirstByte(b0, b1);
    SecondByte(b0, b1, b2);
    ThirdByte(b1, b2);
  }

  lemma ReadableAppend(cs: seq<Byte>, rest: seq<Byte>)
    requires forall k | 0 <= k < |cs| :: IsBase64(cs[k])
    ensures Readable(cs + rest) == cs + Readable(rest)
    decreases |cs|
  {
    if cs == [] {
      assert cs + rest == rest;
    } else {
      assert (cs + rest)[1..] == cs[1..] + rest;
      ReadableAppend(cs[1..], rest);
    }
  }

  lemma FindGroup(b0: Byte, b1: Byte, b2: Byte)
    ensures
      var g, ds := GroupLetters(b0, b1, b2), Digits(Number24(b0, b1, b2));
      Find(g[0]) == ds[0] && Find(g[1]) == ds[1] && Find(g[2]) == ds[2] && Find(g[3]) == ds[3]
  {
    hide Letter, Find;
    var ds := Digits(Number24(b0, b1, b2));
    FindLetter(ds[0]);
    FindLetter(ds[1]);
    FindLetter(ds[2]);
    FindLetter(ds[3]);
  }

  /** Decoding an encoded byte string gives it back. */
  lemma {:induction false} RoundTrip(x: seq<Byte>)
    ensures Decode(Encode(x)) == x
    decreases |x|
  {
    hide GroupLetters, GroupBytes, Find, Digits, IsBase64;
    if 3 <= |x| {
      var g := GroupLetters(x[0], x[1], x[2]);
      GroupIsBase64(x[0], x[1], x[2]);
      ReadableAppend(g, Encode(x[3..]));
      FindGroup(x[0], x[1], x[2]);
      GroupRoundTrip(x[0], x[1], x[2], 0, 0);
      RoundTrip(x[3..]);
      assert (g + Readable(Encode(x[3..])))[4..] == Readable(Encode(x[3..]));
      assert x == [x[0], x[1], x[2]] + x[3..];
    } else if 0 < |x| {
      TailRoundTrip(x);
    }
  }

  lemma TailRoundTrip(x: seq<Byte>)
    requires 1 <= |x| <= 2
    ensures Decode(Encode(x)) == x
  {
    hide GroupLetters, GroupBytes, Find, Digits, Readable, IsBase64;
    var b1: Byte := if |x| == 1 then 0 else x[1];
    var g := GroupLetters(x[0], b1, 0);
    var cs, pads := g[..|x| + 1], if |x| == 1 then [PAD, PAD] else [PAD];
    GroupIsBase64(x[0], b1, 0);
    FindGroup(x[0], b1, 0);
    var d2: Byte := if |x| == 1 then 255 else Digits(Number24(x[0], b1, 0))[2];
    GroupRoundTrip(x[0], b1, 0, d2, 255);
    ReadableAppend(cs, pads);
    PadsAreNotRead(pads);
    assert Encode(x) == cs + pads && cs + [] == cs;
  }

  lemma PadsAreNotRead(pads: seq<Byte>)
    requires pads != [] && pads[0] == PAD
    ensures Readable(pads) == []
  {
  }

  // ---------------------------------------------------------------------------
  // The code
  // ---------------------------------------------------------------------------

  /** `char_array_4` from `char_array_3`. */
  method CutGroup(a3: array<Byte>, a4: array<Byte>)
    requires a3.Length == 3 && a4.Length == 4 && a3 != a4
    modifies a4
    ensures a4[..] == Digits(Number24(a3[0], a3[1], a3[2]))
  {
    DigitsOfBytes(a3[0], a3[1], a3[2]);
    a4[0] := a3[0] / 4;
    a4[1] := a3[0] % 4 * 16 + a3[1] / 16;
    a4[2] := a3[1] % 16 * 4 + a3[2] / 64;
    a4[3] := a3[2] % 64;
    assert a4[..] == [a4[0], a4[1], a4[2], a4[3]];
  }

  method EncodeBytes(x: seq<Byte>) returns (ret: seq<Byte>)
    ensures ret == Encode(x)
  {
    hide Digits, Letter, Encode;
    ret := [];
    var a3, a4 := new Byte[3], new Byte[4];
    var i := 0;
    assert [] + x[0..] == x;
    for n := 0 to |x|
      invariant 0 <= i < 3 && i <= n
      invariant ret + Encode(a3[..i] + x[n..]) == Encode(x)
    {
      ghost var rest := a3[..i] + x[n..];
      a3[i] := x[n];
      i := i + 1;
      assert a3[..i] + x[n + 1..] == rest;
      if i == 3 {
        CutGroup(a3, a4);
        assert a3[..3] == a3[..];
        EncodeGroup(a3[..], x[n + 1..]);
        ret := ret + [Letter(a4[0]), Letter(a4[1]), Letter(a4[2]), Letter(a4[3])];
        i := 0;
        assert a3[..0] + x[n + 1..] == x[n + 1..];
      }
    }
    assert a3[..i] + x[|x|..] == a3[..i];
    EncodeNothing();
    if i != 0 {
      var tail := EncodeTail(a3, a4, i);
      ret := ret + tail;
    }
  }

  lemma EncodeNothing()
    ensures Encode([]) == []
  {
  }

  lemma EncodeGroup(g: seq<Byte>, rest: seq<Byte>)
    requires |g| == 3
    ensures Encode(g + rest) == GroupLetters(g[0], g[1], g[2]) + Encode(rest)
  {
    assert (g + rest)[3..] == rest;
  }

  /** The tail case: the missing bytes are zero, and the missing letters are padding. */
  method EncodeTail(a3: array<Byte>, a4: array<Byte>, i: nat) returns (ret: seq<Byte>)
    requires a3.Length == 3 && a4.Length == 4 && a3 != a4 && 1 <= i <= 2
    modifies a3, a4
    ensures ret == Encode(old(a3[..i]))
  {
    hide Digits, Letter;
    ghost var tail := a3[..i];
    for j := i to 3
      invariant a3[..i] == tail && forall k | i <= k < j :: a3[k] == 0
    {
      a3[j] := 0;
    }
    CutGroup(a3, a4);
    ret := [];
    for j := 0 to i + 1
      invariant |ret| == j && forall k | 0 <= k < j :: ret[k] == Letter(a4[k])
    {
      ret := ret + [Letter(a4[j])];
    }
    var k := i;
    while k < 3
      invariant i <= k <= 3 && |ret| == k + 1 && forall l | 0 <= l <= i :: ret[l] == Letter(a4[l])
      invariant forall l | i < l < |ret| :: ret[l] == PAD
    {
      ret := ret + [PAD];
      k := k + 1;
    }
    assert tail[0] == a3[0] && (i == 2 ==> tail[1] == a3[1]);
  }

  /** `char_array_3` from the characters in `char_array_4`. */
  method JoinGroup(a4: array<Byte>, a3: array<Byte>)
    requires a3.Length == 3 && a4.Length == 4 && a3 != a4
    modifies a3, a4
    ensures a3[..] == old(GroupBytes(Find(a4[0]), Find(a4[1]), Find(a4[2]), Find(a4[3])))
  {
    hide Find;
    ghost var c := a4[..];
    for j := 0 to 4
      invariant forall k | 0 <= k < 4 :: a4[k] == if k < j then Find(c[k]) else c[k]
    {
      a4[j] := Find(a4[j]);
    }
    var d0: int, d1: int, d2: int, d3: int := a4[0], a4[1], a4[2], a4[3];
    hide Byte0, Byte1, Byte2;
    a3[0] := Byte0(d0, d1);
    a3[1] := Byte1(d1, d2);
    a3[2] := Byte2(d2, d3);
    assert a3[..] == [a3[0], a3[1], a3[2]];
  }

  method DecodeText(s: seq<Byte>) returns (ret: seq<Byte>)
    ensures ret == Decode(s)
  {
    hide Find, GroupBytes, IsBase64, DecodeGroups, Readable;
    ret := [];
    var a3, a4 := new Byte[3], new Byte[4];
    var i, n := 0, 0;
    assert s[0..] == s && [] + Readable(s) == Readable(s);
    while n < |s| && s[n] != PAD && IsBase64(s[n])
      invariant 0 <= i < 4 && n <= |s|
      invariant ret + DecodeGroups(a4[..i] + Readable(s[n..])) == Decode(s)
    {
      ghost var rest := a4[..i] + Readable(s[n..]);
      GoesOnReading(s, n);
      a4[i] := s[n];
      n := n + 1;
      i := i + 1;
      assert a4[..i] + Readable(s[n..]) == rest;
      if i == 4 {
        assert a4[..4] == a4[..];
        DecodeGroup(a4[..], Readable(s[n..]));
        JoinGroup(a4, a3);
        ret := ret + a3[..];
        i := 0;
        assert a4[..0] + Readable(s[n..]) == Readable(s[n..]);
      }
    }
    assert Readable(s[n..]) == [] by {
      StopsReading(s, n);
    }
    assert a4[..i] + [] == a4[..i];
    DecodeNothing();
    if i != 0 {
      var tail := DecodeRest(a4, a3, i);
      ret := ret + tail;
    }
  }

  /** The tail case of the decoder. */
  method DecodeRest(a4: array<Byte>, a3: array<Byte>, i: nat) returns (ret: seq<Byte>)
    requires a3.Length == 3 && a4.Length == 4 && a3 != a4 && 1 <= i < 4
    modifies a3, a4
    ensures ret == DecodeGroups(old(a4[..i]))
  {
    hide Find, GroupBytes;
    ghost var tail := a4[..i];
    for j := i to 4
      invariant a4[..i] == tail && forall k | i <= k < j :: a4[k] == 0
    {
      a4[j] := 0;
    }
    TailGroup(tail, a4[..]);
    JoinGroup(a4, a3);
    ret := a3[..i - 1];
  }

  lemma DecodeNothing()
    ensures DecodeGroups([]) == []
  {
  }

  lemma DecodeGroup(g: seq<Byte>, rest: seq<Byte>)
    requires |g| == 4
    ensures DecodeGroups(g + rest) == GroupBytes(Find(g[0]), Find(g[1]), Find(g[2]), Find(g[3])) + DecodeGroups(rest)
  {
    assert (g + rest)[4..] == rest;
  }

  lemma GoesOnReading(s: seq<Byte>, n: nat)
    requires n < |s| && IsBase64(s[n])
    ensures Readable(s[n..]) == [s[n]] + Readable(s[n + 1..])
  {
    hide IsBase64;
    assert s[n..][1..] == s[n + 1..];
  }

  lemma StopsReading(s: seq<Byte>, n: nat)
    requires n <= |s| && (n == |s| || s[n] == PAD || !IsBase64(s[n]))
    ensures Readable(s[n..]) == []
  {
  }

  /** The tail filled up with zeros: `find` gives 255 for each of them. */
  lemma TailGroup(tail: seq<Byte>, a4: seq<Byte>)
    requires 1 <= |tail| < 4 == |a4| && a4[..|tail|] == tail && forall k | |tail| <= k < 4 :: a4[k] == 0
    ensures DecodeGroups(tail) == GroupBytes(Find(a4[0]), Find(a4[1]), Find(a4[2]), Find(a4[3]))[..|tail| - 1]
  {
    assert forall k | 0 <= k < |tail| :: a4[k] == a4[..|tail|][k];
    assert Find(0) == 255;
    GroupPrefix(Find(a4[0]), Find(a4[1]), Find(a4[2]), Find(a4[3]));
  }

  /** A byte of a group depends only on its two digits. */
  lemma GroupPrefix(d0: Byte, d1: Byte, d2: Byte, d3: Byte)
    ensures GroupBytes(d0, d1, d2, d3)[..1] == GroupBytes(d0, d1, 255, 255)[..1]
    ensures GroupBytes(d0, d1, d2, d3)[..2] == GroupBytes(d0, d1, d2, 255)[..2]
  {
  }

  // ---------------------------------------------------------------------------
  // The alphabet and the examples of section 10 of RFC 4648
  // ---------------------------------------------------------------------------

  /** The three runs of the alphabet count up, and start at 'A', 'a' and '0'; the last two are '+' and '/'. */
  lemma AlphabetInOrder(v: nat)
    requires v < 63
    ensures v != 25 && v != 51 && v != 61 && v != 62 ==> Letter(v + 1) as int == Letter(v) as int + 1
    ensures Letter(0) == 65 && Letter(26) == 97 && Letter(52) == 48 && Letter(62) == 43 && Letter(63) == 47
  {
  }

  /** "f", "fo" and "foo" are "Zg==", "Zm8=" and "Zm9v". */
  lemma PublishedEncodings()
    ensures Encode([102]) == [90, 103, 61, 61]
    ensures Encode([102, 111]) == [90, 109, 56, 61]
    ensures Encode([102, 111, 111]) == [90, 109, 57, 118]
  {
    EncodeNothing();
    assert [102, 111, 111] + [] == [102, 111, 111];
    EncodeGroup([102, 111, 111], []);
  }
}
