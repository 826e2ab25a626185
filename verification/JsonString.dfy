/**
 String literals of core/gason.cpp: escapes are resolved in place, over the text being read, with a
 write cursor `it` behind the read cursor `s`. `Scan` is the pure unescape; `ReadString` is the code.
 */
module JsonString {
  import opened Bits
  import opened Common
  import opened JsonNumber

  const QUOTE: Byte := 34
  const BACKSLASH: Byte := 92
  const LETTER_U: Byte := 117

  predicate IsXDigit(c: Byte) { 48 <= c <= 57 || 65 <= c <= 70 || 97 <= c <= 102 }

  function Char2Int(c: Byte): (n: nat)
    requires IsXDigit(c)
    ensures n < 16
  {
    if c <= 57 then c - 48 else if c <= 70 then c - 55 else c - 87
  }

  predicate IsSimpleEscape(c: Byte) { c in [92, 34, 47, 98, 102, 110, 114, 116] }

  /** The byte that a backslash and `c` stand for: b, f, n, r and t are control characters. */
  function SimpleEscape(c: Byte): Byte
    requires IsSimpleEscape(c)
  {
    if c == 98 then 8 else if c == 102 then 12 else if c == 110 then 10 else if c == 114 then 13
    else if c == 116 then 9 else c
  }

  /** The one, two or three bytes of a 16-bit code unit. */
  function Utf8(c: nat): (bytes: seq<Byte>)
    requires c < 0x1_0000
    ensures 1 <= |bytes| <= 3
  {
    if c < 0x80 then [c]
    else if c < 0x800 then [0xC0 + c / 64, 0x80 + c % 64]
    else [0xE0 + c / 4096, 0x80 + c / 64 % 64, 0x80 + c % 64]
  }

  /** The number that one, two or three bytes stand for: 7, 5 + 6 or 4 + 6 + 6 bits after their markers. */
  function FromUtf8(bytes: seq<Byte>): (c: int)
    requires 1 <= |bytes| <= 3
  {
    match |bytes|
    case 1 => bytes[0]
    case 2 => (bytes[0] as int - 0xC0) * 64 + (bytes[1] as int - 0x80)
    case _ => (bytes[0] as int - 0xE0) * 4096 + (bytes[1] as int - 0x80) * 64 + (bytes[2] as int - 0x80)
  }

  /** The marker bits of the lead byte and of the bytes that follow it. */
  predicate WellMarked(bytes: seq<Byte>)
    requires 1 <= |bytes| <= 3
  {
    && (|bytes| == 1 ==> bytes[0] < 0x80)
    && (|bytes| == 2 ==> 0xC0 <= bytes[0] < 0xE0)
    && (|bytes| == 3 ==> 0xE0 <= bytes[0] < 0xF0)
    && forall i | 1 <= i < |bytes| :: 0x80 <= bytes[i] < 0xC0
  }

  /** A code unit comes back from its bytes, which are its shortest form and carry the right markers. */
  lemma Utf8RoundTrip(c: nat)
    requires c < 0x1_0000
    ensures WellMarked(Utf8(c)) && FromUtf8(Utf8(c)) == c
    ensures |Utf8(c)| == if c < 0x80 then 1 else if c < 0x800 then 2 else 3
  {
    var q := c / 64;
    assert c == q * 64 + c % 64;
    assert c / 4096 == q / 64 && q == q / 64 * 64 + q % 64;
  }

  lemma Utf8IsInjective(c: nat, d: nat)
    requires c < 0x1_0000 && d < 0x1_0000 && Utf8(c) == Utf8(d)
    ensures c == d
  {
    Utf8RoundTrip(c);
    Utf8RoundTrip(d);
  }

  predicate IsControl(c: Byte) { c < 32 || c == 127 }

  /** What the read cursor sees: bytes to write for `width` characters, the closing quote, or a stop. */
  datatype Unit = Bytes(bytes: seq<Byte>, width: nat) | Closing | EndOfText | BadUnit

  predicate FourHex(t: seq<Byte>, s: nat)
    requires s < |t|
  {
    s + 4 <= |t| && IsXDigit(t[s]) && IsXDigit(t[s + 1]) && IsXDigit(t[s + 2]) && IsXDigit(t[s + 3])
  }

  function HexValue(t: seq<Byte>, s: nat): (c: nat)
    requires s < |t| && FourHex(t, s)
    ensures c < 0x1_0000
  {
    ((Char2Int(t[s]) * 16 + Char2Int(t[s + 1])) * 16 + Char2Int(t[s + 2])) * 16 + Char2Int(t[s + 3])
  }

  ghost function UnitAt(t: seq<Byte>, s: nat): (u: Unit)
    requires Terminated(t) && s < |t|
    ensures u.Bytes? ==> 1 <= |u.bytes| <= u.width && s + u.width < |t|
    ensures u.Closing? ==> s + 1 < |t|
  {
    var c := t[s];
    if c == 0 then EndOfText
    else if c == BACKSLASH then
      var e := t[s + 1];
      if IsSimpleEscape(e) then Bytes([SimpleEscape(e)], 2)
      else if e == LETTER_U && FourHex(t, s + 2) then Bytes(Utf8(HexValue(t, s + 2)), 6)
      else BadUnit
    else if IsControl(c) then BadUnit
    else if c == QUOTE then Closing
    else Bytes([c], 1)
  }

  /** The bytes of a literal and the index after it; a text that ends first leaves it unclosed. */
  datatype Literal = Closed(bytes: seq<Byte>, next: nat) | Unclosed(bytes: seq<Byte>, next: nat) | Invalid

  function Prepend(xs: seq<Byte>, l: Literal): Literal {
    match l
    case Closed(ys, n) => Closed(xs + ys, n)
    case Unclosed(ys, n) => Unclosed(xs + ys, n)
    case Invalid => Invalid
  }

  ghost function Scan(t: seq<Byte>, s: nat): (l: Literal)
    requires Terminated(t) && s < |t|
    ensures l.Closed? ==> s + |l.bytes| < l.next < |t|
    ensures l.Unclosed? ==> s + |l.bytes| <= l.next < |t| && t[l.next] == 0
    decreases |t| - s
  {
    match UnitAt(t, s)
    case Bytes(bytes, width) => Prepend(bytes, Scan(t, s + width))
    case Closing => Closed([], s + 1)
    case EndOfText => Unclosed([], s)
    case BadUnit => Invalid
  }

  lemma PrependTwice(xs: seq<Byte>, ys: seq<Byte>, l: Literal)
    ensures Prepend(xs, Prepend(ys, l)) == Prepend(xs + ys, l)
  {
    match l
    case Closed(zs, _) => assert xs + (ys + zs) == xs + ys + zs;
    case Unclosed(zs, _) => assert xs + (ys + zs) == xs + ys + zs;
    case Invalid =>
  }

  // ---------------------------------------------------------------------------
  // The code
  // ---------------------------------------------------------------------------

  /** What the in-place loop keeps: bytes written, bytes skipped, and a text unchanged on both sides. */
  ghost predicate InPlace(text: seq<Byte>, t: seq<Byte>, start: nat, it: nat, s: nat, out: seq<Byte>)
    requires Terminated(t) && start < |t|
  {
    && |text| == |t| && start <= it <= s < |t|
    && text[..start] == t[..start] && text[start..it] == out && text[it..] == t[it..]
    && Scan(t, start) == Prepend(out, Scan(t, s))
  }

  /** The step of the loop: the bytes of one unit are written and both cursors move. */
  lemma InPlaceStep(
    text: seq<Byte>, t: seq<Byte>, start: nat, it: nat, s: nat, out: seq<Byte>, text': seq<Byte>)
    requires Terminated(t) && start < |t| && InPlace(text, t, start, it, s, out)
    requires UnitAt(t, s).Bytes?
    requires
      var bytes := UnitAt(t, s).bytes;
      |text'| == |t| && text' == text[..it] + bytes + text[it + |bytes|..]
    ensures
      var u := UnitAt(t, s);
      InPlace(text', t, start, it + |u.bytes|, s + u.width, out + u.bytes)
  {
    hide UnitAt;
    var u := UnitAt(t, s);
    PrependTwice(out, u.bytes, Scan(t, s + u.width));
    var n := it + |u.bytes|;
    assert text'[n..] == text[n..];
    assert text[n..] == text[it..][|u.bytes|..];
    assert t[n..] == t[it..][|u.bytes|..];
    assert text'[..start] == text[..start];
    assert text'[start..n] == text[start..it] + u.bytes;
  }

  lemma UnitAtSuffix(text: seq<Byte>, t: seq<Byte>, s: nat)
    requires Terminated(text) && Terminated(t) && |text| == |t| && s < |t| && text[s..] == t[s..]
    ensures UnitAt(text, s) == UnitAt(t, s)
  {
    assert forall k | s <= k < |t| :: text[k] == text[s..][k - s] && t[k] == t[s..][k - s];
    assert forall k | s <= k < |t| :: text[k] == t[k];
  }

  datatype Status = More | AtQuote | Failed

  /** The four digits after a backslash and `u`. */
  method ReadHex(text: array<Byte>, start: nat) returns (ok: bool, c: nat)
    requires Terminated(text[..]) && start < text.Length
    ensures ok == FourHex(text[..], start)
    ensures ok ==> c == HexValue(text[..], start) && start + 4 < text.Length
  {
    c := 0;
    var s := start;
    for i := 0 to 4
      invariant s == start + i < text.Length
      invariant forall k | start <= k < s :: IsXDigit(text[k])
      invariant i == 1 ==> c == Char2Int(text[start])
      invariant i == 2 ==> c == Char2Int(text[start]) * 16 + Char2Int(text[start + 1])
      invariant i == 3 ==> c == (Char2Int(text[start]) * 16 + Char2Int(text[start + 1])) * 16 + Char2Int(text[start + 2])
      invariant i == 4 ==> FourHex(text[..], start) && c == HexValue(text[..], start)
      invariant i == 0 ==> c == 0
    {
      if !IsXDigit(text[s]) {
        return false, c;
      }
      c := c * 16 + Char2Int(text[s]);
      s := s + 1;
    }
    return true, c;
  }

  method WriteUtf8(text: array<Byte>, it: nat, c: nat) returns (it': nat)
    requires c < 0x1_0000 && it + 3 <= text.Length
    modifies text
    ensures it' + 1 == it + |Utf8(c)| && text[..] == Splice(old(text[..]), it, Utf8(c))
  {
    it' := it;
    if c < 0x80 {
      text[it'] := c;
    } else if c < 0x800 {
      text[it'] := 0xC0 + c / 64;
      it' := it' + 1;
      text[it'] := 0x80 + c % 64;
    } else {
      text[it'] := 0xE0 + c / 4096;
      it' := it' + 1;
      text[it'] := 0x80 + c / 64 % 64;
      it' := it' + 1;
      text[it'] := 0x80 + c % 64;
    }
  }

  /** A unit after a backslash. */
  method ReadEscape(text: array<Byte>, it: nat, s: nat, ghost t: seq<Byte>) returns (ok: bool, it': nat, s': nat)
    requires Terminated(t) && |t| == text.Length && it <= s < |t| && t[s] == BACKSLASH && text[..] == t[it := t[s]]
    modifies text
    ensures
      match UnitAt(t, s)
      case Bytes(bytes, width) =>
        ok && it' == it + |bytes| && s' == s + width && text[..] == Splice(t, it, bytes)
      case BadUnit => !ok && text[..] == t[it := t[s]]
      case _ => false
  {
    hide Utf8, HexValue, FourHex, SimpleEscape;
    s' := s + 1;
    assert forall k | s < k < |t| :: text[..][k] == t[k];
    var c := text[s'];
    if IsSimpleEscape(c) {
      text[it] := SimpleEscape(c);
      assert text[..] == Splice(t, it, [SimpleEscape(c)]);
      return true, it + 1, s' + 1;
    }
    if c != LETTER_U {
      return false, it, s';
    }
    var hex, u := ReadHex(text, s' + 1);
    HexSame(text[..], t, s' + 1);
    if !hex {
      return false, it, s';
    }
    it' := WriteUtf8(text, it, u);
    assert text[..] == Splice(t, it, Utf8(u));
    return true, it' + 1, s' + 5;
  }

  /** One turn of the loop over the literal. */
  method ReadUnit(text: array<Byte>, it: nat, s: nat) returns (status: Status, it': nat, s': nat)
    requires Terminated(text[..]) && it <= s < text.Length && text[s] != 0
    modifies text
    ensures
      var t := old(text[..]);
      match UnitAt(t, s)
      case Bytes(bytes, width) =>
        status == More && it' == it + |bytes| && s' == s + width && text[..] == Splice(t, it, bytes)
      case Closing => status == AtQuote && it' == it && s' == s + 1 && text[..] == t[it := 0]
      case EndOfText => false
      case BadUnit => status == Failed && text[..] == t[it := t[s]]
  {
    hide Utf8, HexValue, FourHex;
    ghost var t := text[..];
    var c := text[s];
    text[it] := c;
    assert text[..] == t[it := t[s]];
    if c == BACKSLASH {
      var ok;
      ok, it', s' := ReadEscape(text, it, s, t);
      return if ok then More else Failed, it', s';
    }
    if IsControl(c) {
      return Failed, it, s;
    }
    if c == QUOTE {
      text[it] := 0;
      assert text[..] == t[it := 0];
      return AtQuote, it, s + 1;
    }
    assert text[..] == Splice(t, it, [c]);
    return More, it + 1, s + 1;
  }

  lemma HexSame(text: seq<Byte>, t: seq<Byte>, s: nat)
    requires |text| == |t| && s < |t| && forall k | s <= k < |t| :: text[k] == t[k]
    ensures FourHex(text, s) == FourHex(t, s)
    ensures FourHex(t, s) ==> HexValue(text, s) == HexValue(t, s)
  {
  }

  /** What reading the literal at `start` of the text `t` leaves: its bytes in place, and the text outside as it was. */
  ghost predicate Left(x: seq<Byte>, t: seq<Byte>, start: nat, l: Literal)
    requires Terminated(t) && start < |t|
  {
    && |x| == |t| && x[..start] == t[..start]
    && match Scan(t, start)
       case Closed(bytes, next) =>
         && l == Closed(bytes, next)
         && x[next..] == t[next..]
         && x[start..start + |bytes|] == bytes && x[start + |bytes|] == 0
       case Unclosed(bytes, next) =>
         && x[next..] == t[next..]
         && l == Unclosed(bytes + t[start + |bytes|..next], next)
         && x[start..next] == l.bytes
       case Invalid => l == Invalid
  }

  lemma LeftFailed(text: seq<Byte>, t: seq<Byte>, start: nat, it: nat, s: nat, out: seq<Byte>)
    requires Terminated(t) && start < |t| && InPlace(text, t, start, it, s, out) && UnitAt(t, s).BadUnit?
    ensures |text| == |t| && it <= s < |t| && Left(text[it := text[s]], t, start, Invalid)
  {
    InPlaceFails(text, t, start, it, s, out);
  }

  lemma LeftClosed(text: seq<Byte>, t: seq<Byte>, start: nat, it: nat, s: nat, out: seq<Byte>)
    requires Terminated(t) && start < |t| && InPlace(text, t, start, it, s, out) && UnitAt(t, s).Closing?
    ensures |text| == |t| && start <= it <= s < |t|
    ensures
      var x := text[it := 0];
      Left(x, t, start, Closed(x[start..it], s + 1))
  {
    hide Scan;
    InPlaceCloses(text, t, start, it, s, out);
  }

  lemma LeftUnclosed(text: seq<Byte>, t: seq<Byte>, start: nat, it: nat, s: nat, out: seq<Byte>)
    requires Terminated(t) && start < |t| && InPlace(text, t, start, it, s, out) && text[s] == 0
    ensures start <= s < |text| && Left(text, t, start, Unclosed(text[start..s], s))
  {
    hide Scan;
    InPlaceEnds(text, t, start, it, s, out);
  }

  /**
   The literal whose first character is at `start`. A closed literal leaves its bytes and a NUL where
   it was, and changes nothing before it nor from its end on.
   */
  method ReadString(text: array<Byte>, start: nat) returns (l: Literal)
    requires Terminated(text[..]) && start < text.Length
    modifies text
    ensures Left(text[..], old(text[..]), start, l)
  {
    hide UnitAt, Scan, InPlace, Left;
    ghost var t := text[..];
    ghost var out: seq<Byte> := [];
    InPlaceStart(t, start);
    var it, s := start, start;
    while text[s] != 0
      invariant start <= it <= s < text.Length && InPlace(text[..], t, start, it, s, out)
      decreases text.Length - s
    {
      ghost var before, unit := text[..], UnitAt(t, s);
      InPlaceSuffix(before, t, start, it, s, out);
      var status, it', s' := ReadUnit(text, it, s);
      if status == Failed {
        LeftFailed(before, t, start, it, s, out);
        return Invalid;
      }
      if status == AtQuote {
        LeftClosed(before, t, start, it, s, out);
        return Closed(text[start..it], s');
      }
      InPlaceStep(before, t, start, it, s, out, text[..]);
      out, it, s := out + unit.bytes, it', s';
    }
    LeftUnclosed(text[..], t, start, it, s, out);
    return Unclosed(text[start..s], s);
  }

  lemma InPlaceStart(t: seq<Byte>, start: nat)
    requires Terminated(t) && start < |t|
    ensures InPlace(t, t, start, start, start, [])
  {
    hide Scan, UnitAt;
    assert Prepend([], Scan(t, start)) == Scan(t, start);
  }

  lemma InPlaceSuffix(text: seq<Byte>, t: seq<Byte>, start: nat, it: nat, s: nat, out: seq<Byte>)
    requires Terminated(t) && start < |t| && InPlace(text, t, start, it, s, out)
    ensures Terminated(text) && UnitAt(text, s) == UnitAt(t, s)
  {
    hide Scan, UnitAt;
    assert forall k | it <= k < |t| :: text[k] == text[it..][k - it] && t[k] == t[it..][k - it];
    UnitAtSuffix(text, t, s);
  }

  lemma InPlaceFails(text: seq<Byte>, t: seq<Byte>, start: nat, it: nat, s: nat, out: seq<Byte>)
    requires Terminated(t) && start < |t| && InPlace(text, t, start, it, s, out) && UnitAt(t, s).BadUnit?
    ensures |text| == |t| && Scan(t, start) == Invalid && text[it := text[s]][..start] == t[..start]
  {
    assert text[it := text[s]][..start] == text[..start];
  }

  lemma InPlaceCloses(text: seq<Byte>, t: seq<Byte>, start: nat, it: nat, s: nat, out: seq<Byte>)
    requires Terminated(t) && start < |t| && InPlace(text, t, start, it, s, out) && UnitAt(t, s).Closing?
    ensures Scan(t, start) == Closed(out, s + 1) && start + |out| == it && |text| == |t|
    ensures
      var text' := text[it := 0];
      text'[..start] == t[..start] && text'[start..it] == out && text'[s + 1..] == t[s + 1..]
  {
    var text' := text[it := 0];
    assert text'[..start] == text[..start] && text'[start..it] == text[start..it];
    assert text'[s + 1..] == text[it..][s + 1 - it..] && t[s + 1..] == t[it..][s + 1 - it..];
  }

  lemma InPlaceEnds(text: seq<Byte>, t: seq<Byte>, start: nat, it: nat, s: nat, out: seq<Byte>)
    requires Terminated(t) && start < |t| && InPlace(text, t, start, it, s, out) && text[s] == 0
    ensures Scan(t, start) == Unclosed(out, s) && start + |out| == it
    ensures text[start..s] == out + t[it..s] && text[s..] == t[s..] && text[..start] == t[..start]
  {
    assert text[it..][s - it] == t[it..][s - it];
    assert text[start..s] == text[start..it] + text[it..s];
    assert text[it..s] == text[it..][..s - it] && t[it..s] == t[it..][..s - it];
    assert text[s..] == text[it..][s - it..] && t[s..] == t[it..][s - it..];
  }
}
