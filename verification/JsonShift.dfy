/**
 A parse depends only on the characters from where it stands, and not on how many came before; and white space
 before a token changes nothing but the place where the parse ends.
 */
module JsonShift {
  import opened Bits
  import opened JsonMachine
  import opened JsonNumber
  import opened JsonString
  import opened JsonText

  // ---------------------------------------------------------------------------
  // The same text, some characters later
  // ---------------------------------------------------------------------------

  lemma Shifted(p: seq<Byte>, t: seq<Byte>)
    requires Terminated(t)
    ensures Terminated(p + t) && forall k | 0 <= k < |t| :: (p + t)[|p| + k] == t[k]
  {
  }

  lemma SliceShift(p: seq<Byte>, t: seq<Byte>, i: nat, j: nat)
    requires i <= j <= |t|
    ensures (p + t)[|p| + i..|p| + j] == t[i..j]
  {
  }

  lemma {:induction false} SkipSpaceShift(p: seq<Byte>, t: seq<Byte>, i: nat)
    requires Terminated(t) && i < |t|
    ensures Terminated(p + t) && SkipSpace(p + t, |p| + i) == |p| + SkipSpace(t, i)
    decreases |t| - i
  {
    Shifted(p, t);
    if IsSpace(t[i]) {
      SkipSpaceShift(p, t, i + 1);
    }
  }

  lemma {:induction false} CommentEndShift(p: seq<Byte>, t: seq<Byte>, i: nat)
    requires Terminated(t)
    ensures CommentEnd(p + t, |p| + i) == |p| + CommentEnd(t, i)
    decreases |t| - i
  {
    Shifted(p, t);
    if i < |t| && t[i] != NEWLINE {
      CommentEndShift(p, t, i + 1);
    }
  }

  lemma {:induction false} DigitsEndShift(p: seq<Byte>, t: seq<Byte>, i: nat)
    requires Terminated(t) && i < |t|
    ensures Terminated(p + t) && DigitsEnd(p + t, |p| + i) == |p| + DigitsEnd(t, i)
    decreases |t| - i
  {
    Shifted(p, t);
    if IsDigit(t[i]) {
      DigitsEndShift(p, t, i + 1);
    }
  }

  lemma FractionShift(p: seq<Byte>, t: seq<Byte>, i: nat)
    requires Terminated(t) && i < |t|
    ensures Terminated(p + t) && FractionAt(p + t, |p| + i) == (FractionAt(t, i).0, |p| + FractionAt(t, i).1)
  {
    hide DigitsEnd, FractionValue;
    Shifted(p, t);
    if t[i] == DOT {
      DigitsEndShift(p, t, i + 1);
      SliceShift(p, t, i + 1, DigitsEnd(t, i + 1));
    }
  }

  lemma ExponentShift(p: seq<Byte>, t: seq<Byte>, i: nat)
    requires Terminated(t) && i < |t|
    ensures
      var (b, x, e) := ExponentAt(t, i);
      Terminated(p + t) && ExponentAt(p + t, |p| + i) == (b, x, |p| + e)
  {
    hide DigitsEnd, DigitsValue;
    Shifted(p, t);
    if t[i] == 101 || t[i] == 69 {
      var s := if t[i + 1] == PLUS || t[i + 1] == MINUS then i + 2 else i + 1;
      DigitsEndShift(p, t, s);
      SliceShift(p, t, s, DigitsEnd(t, s));
    }
  }

  lemma NumberShift(p: seq<Byte>, t: seq<Byte>, i: nat)
    requires Terminated(t) && i < |t|
    ensures Terminated(p + t) && NumberAt(p + t, |p| + i) == (NumberAt(t, i).0, |p| + NumberAt(t, i).1)
  {
    hide ExponentAt, MantissaAt;
    MantissaShift(p, t, i);
    ExponentShift(p, t, MantissaAt(t, i).1);
  }

  lemma MantissaShift(p: seq<Byte>, t: seq<Byte>, i: nat)
    requires Terminated(t) && i < |t|
    ensures Terminated(p + t) && MantissaAt(p + t, |p| + i) == (MantissaAt(t, i).0, |p| + MantissaAt(t, i).1)
  {
    hide DigitsEnd, DigitsValue, FractionAt;
    Shifted(p, t);
    var s := if t[i] == MINUS then i + 1 else i;
    var e := DigitsEnd(t, s);
    DigitsEndShift(p, t, s);
    SliceShift(p, t, s, e);
    FractionShift(p, t, e);
  }

  lemma UnitShift(p: seq<Byte>, t: seq<Byte>, s: nat)
    requires Terminated(t) && s < |t|
    ensures Terminated(p + t) && UnitAt(p + t, |p| + s) == UnitAt(t, s)
  {
    hide Utf8, SimpleEscape;
    Shifted(p, t);
  }

  function Later(l: Literal, n: nat): Literal {
    match l
    case Closed(bytes, next) => Closed(bytes, n + next)
    case Unclosed(bytes, next) => Unclosed(bytes, n + next)
    case Invalid => Invalid
  }

  lemma {:induction false} ScanShift(p: seq<Byte>, t: seq<Byte>, s: nat)
    requires Terminated(t) && s < |t|
    ensures Terminated(p + t) && Scan(p + t, |p| + s) == Later(Scan(t, s), |p|)
    decreases |t| - s
  {
    hide UnitAt;
    UnitShift(p, t, s);
    var u := UnitAt(t, s);
    if u.Bytes? {
      ScanShift(p, t, s + u.width);
    }
  }

  lemma WordShift(p: seq<Byte>, t: seq<Byte>, i: nat, w: seq<Byte>)
    requires Terminated(t)
    ensures WordAt(p + t, |p| + i, w) == WordAt(t, i, w)
  {
    Shifted(p, t);
    if i + |w| < |t| {
      SliceShift(p, t, i, i + |w|);
    }
  }

  function LaterLexeme(x: Lexeme, n: nat): Lexeme {
    match x
    case Lexed(token, next) => Lexed(token, n + next)
    case Skipped(next) => Skipped(n + next)
    case _ => x
  }

  lemma StringShift(p: seq<Byte>, t: seq<Byte>, j: nat)
    requires Terminated(t) && j + 1 < |t|
    ensures Terminated(p + t) && StringToken(p + t, |p| + j) == LaterLexeme(StringToken(t, j), |p|)
  {
    hide Scan;
    Shifted(p, t);
    ScanShift(p, t, j + 1);
    var l := Scan(t, j + 1);
    if l.Unclosed? {
      SliceShift(p, t, j + 1 + |l.bytes|, l.next);
    }
  }

  lemma TokenShift(p: seq<Byte>, t: seq<Byte>, j: nat)
    requires Terminated(t) && j < |t|
    ensures Terminated(p + t) && TokenAt(p + t, |p| + j) == LaterLexeme(TokenAt(t, j), |p|)
  {
    hide NumberAt, StringToken, CommentEnd, WordAt;
    Shifted(p, t);
    var c := t[j];
    if c == HASH {
      CommentEndShift(p, t, j + 2);
    } else if c == MINUS || IsDigit(c) {
      NumberShift(p, t, j);
    } else if c == QUOTE {
      StringShift(p, t, j);
    } else if c == 116 {
      WordShift(p, t, j + 1, RUE);
    } else if c == 102 {
      WordShift(p, t, j + 1, ALSE);
    } else if c == 110 {
      WordShift(p, t, j + 1, ULL);
    }
  }

  lemma NextShift(p: seq<Byte>, t: seq<Byte>, i: nat)
    requires Terminated(t) && i <= |t|
    ensures Terminated(p + t) && Next(p + t, |p| + i) == LaterLexeme(Next(t, i), |p|)
  {
    hide TokenAt;
    Shifted(p, t);
    if i < |t| && t[i] != 0 {
      SkipSpaceShift(p, t, i);
      TokenShift(p, t, SkipSpace(t, i));
    }
  }

  function LaterParsed(r: Parsed, n: nat): Parsed { if r.Value? then Value(r.v, n + r.end) else r }

  /** Parsing goes on in the same way whatever came before. */
  lemma {:induction false} ParseShift(p: seq<Byte>, t: seq<Byte>, i: nat, m: State)
    requires Terminated(t) && i <= |t| && m.Running? && Valid(m)
    ensures Terminated(p + t) && ParseFrom(p + t, |p| + i, m) == LaterParsed(ParseFrom(t, i, m), |p|)
    decreases |t| - i
  {
    hide Next, Step;
    NextShift(p, t, i);
    match Next(t, i)
    case Lexed(token, next) =>
      BadIsRejected(m, token);
      if Step(m, token).Running? {
        ParseShift(p, t, next, Step(m, token));
      }
    case Skipped(next) => ParseShift(p, t, next, m);
    case _ =>
  }

  // ---------------------------------------------------------------------------
  // White space
  // ---------------------------------------------------------------------------

  /** Blanks, tabs, newlines, vertical tabs, form feeds and carriage returns. */
  predicate AllWhite(w: seq<Byte>) { forall i | 0 <= i < |w| :: w[i] in {9, 10, 11, 12, 13, 32} }

  lemma SkipOne(c: Byte, u: seq<Byte>)
    requires Terminated(u) && IsSpace(c)
    ensures Terminated([c] + u) && SkipSpace([c] + u, 0) == 1 + SkipSpace(u, 0)
  {
    var s := [c] + u;
    Shifted([c], u);
    SkipSpaceShift([c], u, 0);
    assert SkipSpace(s, 0) == SkipSpace(s, 1);
  }

  lemma {:induction false} SkipWhite(w: seq<Byte>, t: seq<Byte>)
    requires Terminated(t) && AllWhite(w)
    ensures Terminated(w + t) && SkipSpace(w + t, 0) == |w| + SkipSpace(t, 0)
    decreases |w|
  {
    hide SkipSpace;
    if w == [] {
      assert w + t == t;
    } else {
      SkipWhite(w[1..], t);
      SkipOne(w[0], w[1..] + t);
      assert w + t == [w[0]] + (w[1..] + t);
    }
  }

  lemma NextIs(t: seq<Byte>)
    requires Terminated(t) && t[0] != 0
    ensures Next(t, 0) == TokenAt(t, SkipSpace(t, 0))
  {
    hide TokenAt, SkipSpace;
  }

  lemma WhiteBefore(w: seq<Byte>, t: seq<Byte>, u: seq<Byte>)
    requires Terminated(t) && AllWhite(w) && t[0] != 0 && u == w + t
    ensures Terminated(u) && Next(u, 0) == LaterLexeme(Next(t, 0), |w|)
  {
    hide TokenAt, SkipSpace, Next, LaterLexeme;
    SkipWhite(w, t);
    TokenShift(w, t, SkipSpace(t, 0));
    NextIs(t);
    assert u[0] == if w == [] then t[0] else w[0];
    NextIs(u);
  }

  /** Where the next tokens of two texts are the same but for their place, so is the parse. */
  lemma SameNext(p: seq<Byte>, t: seq<Byte>, u: seq<Byte>, m: State)
    requires Terminated(t) && u == p + t && Terminated(u) && m.Running? && Valid(m)
    requires Next(u, 0) == LaterLexeme(Next(t, 0), |p|)
    ensures ParseFrom(u, 0, m) == LaterParsed(ParseFrom(t, 0, m), |p|)
  {
    hide Next, Step;
    match Next(t, 0)
    case Lexed(token, next) =>
      BadIsRejected(m, token);
      if Step(m, token).Running? {
        ParseShift(p, t, next, Step(m, token));
      }
    case Skipped(next) => ParseShift(p, t, next, m);
    case _ =>
  }

  lemma WhiteParsed(w: seq<Byte>, t: seq<Byte>, u: seq<Byte>, m: State)
    requires Terminated(t) && AllWhite(w) && t[0] != 0 && m.Running? && Valid(m) && u == w + t
    ensures Terminated(u) && ParseFrom(u, 0, m) == LaterParsed(ParseFrom(t, 0, m), |w|)
  {
    hide ParseFrom, Next, AllWhite, Valid;
    WhiteBefore(w, t, u);
    SameNext(w, t, u, m);
  }

  lemma ParsedLater(p: seq<Byte>, t: seq<Byte>, u: seq<Byte>, m: State)
    requires Terminated(t) && m.Running? && Valid(m) && u == p + t
    ensures Terminated(u) && ParseFrom(u, |p|, m) == LaterParsed(ParseFrom(t, 0, m), |p|)
  {
    hide ParseFrom, Valid;
    ParseShift(p, t, 0, m);
  }

  /**
   Wherever the loop stands, white space before what is still to be read changes nothing but the place where
   the parse ends, unless nothing is left to be read.
   */
  lemma WhiteSpaceIsSkipped(p: seq<Byte>, w: seq<Byte>, t: seq<Byte>, m: State)
    requires Terminated(t) && AllWhite(w) && t[0] != 0 && m.Running? && Valid(m)
    ensures Terminated(p + t) && Terminated(p + (w + t))
    ensures ParseFrom(p + (w + t), |p|, m) == LaterParsed(ParseFrom(p + t, |p|, m), |w|)
  {
    hide ParseFrom, AllWhite, Valid;
    WhiteParsed(w, t, w + t, m);
    ParsedLater(p, t, p + t, m);
    ParsedLater(p, w + t, p + (w + t), m);
  }

  // ---------------------------------------------------------------------------
  // Comments
  // ---------------------------------------------------------------------------

  lemma {:induction false} CommentEndsAt(t: seq<Byte>, i: nat, e: nat)
    requires i <= e < |t| && t[e] == 10 && forall k | i <= k < e :: t[k] != 10
    ensures CommentEnd(t, i) == e
    decreases e - i
  {
    if i < e {
      CommentEndsAt(t, i + 1, e);
    }
  }

  /**
   A number sign and what follows on its line are skipped: the parse goes on at the newline. The one character
   after the sign is not looked at, even if it is a newline.
   */
  lemma CommentIsSkipped(p: seq<Byte>, t: seq<Byte>, m: State)
    requires Terminated(t) && t[0] == 10 && 2 <= |p| && p[0] == 35 && (forall k | 2 <= k < |p| :: p[k] != 10)
    requires m.Running? && Valid(m)
    ensures Terminated(p + t) && ParseFrom(p + t, 0, m) == LaterParsed(ParseFrom(t, 0, m), |p|)
  {
    var u := p + t;
    CommentSkipped(p, t, u);
    ParsedLater(p, t, u, m);
  }

  lemma CommentSkipped(p: seq<Byte>, t: seq<Byte>, u: seq<Byte>)
    requires Terminated(t) && t[0] == 10 && 2 <= |p| && p[0] == 35 && (forall k | 2 <= k < |p| :: p[k] != 10)
    requires u == p + t
    ensures Terminated(u) && Next(u, 0) == Skipped(|p|)
  {
    hide CommentEnd;
    CommentEndsAt(u, 2, |p|);
  }
}
