/**
 `jsonParse` of core/gason.cpp on characters. `Next` is one turn of its loop on values, `ParseFrom` the
 whole loop; `JsonParser.JsonParse` is the code, which reads and rewrites the text in place.
 */
module JsonText {
  import opened Bits
  import opened JsonMachine
  import opened JsonNumber
  import opened JsonString

  const HASH: Byte := 35
  const COMMA: Byte := 44
  const COLON: Byte := 58
  const NEWLINE: Byte := 10

  predicate IsSpace(c: Byte) { c == 32 || 9 <= c <= 13 }

  predicate IsDelim(c: Byte) { c == COMMA || c == COLON || c == 93 || c == 125 || IsSpace(c) || c == 0 }

  function OpenChar(tag: Tag): Byte { if tag == ArrayTag then 91 else 123 }

  function CloseChar(tag: Tag): Byte { if tag == ArrayTag then 93 else 125 }

  // "true", "false" and "null" after their first letter.
  const RUE: seq<Byte> := [114, 117, 101]
  const ALSE: seq<Byte> := [97, 108, 115, 101]
  const ULL: seq<Byte> := [117, 108, 108]

  // ---------------------------------------------------------------------------
  // One turn of the loop
  // ---------------------------------------------------------------------------

  /** `Overrun` says that the loop reads past the end of the buffer. */
  datatype Lexeme = Lexed(token: Token, next: nat) | Skipped(next: nat) | AtEnd | Overrun

  ghost function SkipSpace(t: seq<Byte>, i: nat): (j: nat)
    requires Terminated(t) && i < |t|
    ensures i <= j < |t| && !IsSpace(t[j]) && forall k | i <= k < j :: IsSpace(t[k])
    decreases |t| - i
  {
    if IsSpace(t[i]) then SkipSpace(t, i + 1) else i
  }

  /** The first newline from `i` on, or the length of the text. */
  ghost function CommentEnd(t: seq<Byte>, i: nat): (j: nat)
    ensures j < |t| ==> i <= j && t[j] == NEWLINE
    decreases |t| - i
  {
    if |t| <= i then |t| else if t[i] == NEWLINE then i else CommentEnd(t, i + 1)
  }

  ghost predicate WordAt(t: seq<Byte>, i: nat, w: seq<Byte>) {
    i + |w| < |t| && t[i..i + |w|] == w && IsDelim(t[i + |w|])
  }

  ghost function WordToken(t: seq<Byte>, j: nat, w: seq<Byte>, atom: Atom): (r: Lexeme)
    requires j < |t|
    ensures r.Lexed? && j < r.next && (!r.token.Bad? ==> r.next < |t|)
  {
    if WordAt(t, j + 1, w) then Lexed(Scalar(atom), j + 1 + |w|) else Lexed(Bad(BAD_IDENTIFIER), j + 1)
  }

  ghost function NumberToken(t: seq<Byte>, j: nat): (r: Lexeme)
    requires Terminated(t) && j < |t| && (t[j] == MINUS || IsDigit(t[j]))
    ensures r.Lexed? && j < r.next <= |t|
  {
    if t[j] == MINUS && !IsDigit(t[j + 1]) && t[j + 1] != DOT then Lexed(Bad(BAD_NUMBER), j + 1)
    else
      NumberAdvances(t, j);
      var (v, e) := NumberAt(t, j);
      if IsDelim(t[e]) then Lexed(Scalar(Number(v)), e) else Lexed(Bad(BAD_NUMBER), j + 1)
  }

  lemma NumberAdvances(t: seq<Byte>, j: nat)
    requires Terminated(t) && j < |t| && (t[j] == MINUS || IsDigit(t[j]))
    ensures j < NumberAt(t, j).1
  {
    hide FractionAt, ExponentAt;
  }

  /** The bytes that a literal's pointer shows: an unclosed one runs on to the end of the text. */
  ghost function StringToken(t: seq<Byte>, j: nat): (r: Lexeme)
    requires Terminated(t) && j + 1 < |t|
    ensures r.Lexed? && j < r.next <= |t|
  {
    match Scan(t, j + 1)
    case Closed(bytes, next) =>
      if IsDelim(t[next]) then Lexed(Scalar(String(bytes)), next) else Lexed(Bad(BAD_STRING), j + 1)
    case Unclosed(bytes, next) => Lexed(Scalar(String(bytes + t[j + 1 + |bytes|..next])), next)
    case Invalid => Lexed(Bad(BAD_STRING), j + 1)
  }

  ghost function TokenAt(t: seq<Byte>, j: nat): (r: Lexeme)
    requires Terminated(t) && j < |t|
    ensures !r.AtEnd?
    ensures r.Lexed? ==> j < r.next && (r.token.Bad? || r.next <= |t|)
    ensures r.Skipped? ==> j < r.next <= |t|
  {
    var c := t[j];
    if c == HASH then
      var e := CommentEnd(t, j + 2);
      if e < |t| then Skipped(e) else Overrun
    else if c == MINUS || IsDigit(c) then NumberToken(t, j)
    else if c == QUOTE then StringToken(t, j)
    else if c == 116 then WordToken(t, j, RUE, True)
    else if c == 102 then WordToken(t, j, ALSE, False)
    else if c == 110 then WordToken(t, j, ULL, Null)
    else if c == 93 then Lexed(Close(ArrayTag), j + 1)
    else if c == 125 then Lexed(Close(ObjectTag), j + 1)
    else if c == 91 then Lexed(Open(ArrayTag), j + 1)
    else if c == 123 then Lexed(Open(ObjectTag), j + 1)
    else if c == COLON then Lexed(Colon, j + 1)
    else if c == COMMA then Lexed(Comma, j + 1)
    else if c == 0 then Skipped(j + 1)
    else Lexed(Bad(UNEXPECTED_CHARACTER), j + 1)
  }

  ghost function Next(t: seq<Byte>, i: nat): (r: Lexeme)
    requires Terminated(t) && i <= |t|
    ensures r.Lexed? ==> i < r.next && (r.token.Bad? || r.next <= |t|)
    ensures r.Skipped? ==> i < r.next <= |t|
  {
    if i == |t| then Overrun else if t[i] == 0 then AtEnd else TokenAt(t, SkipSpace(t, i))
  }

  // ---------------------------------------------------------------------------
  // The whole loop
  // ---------------------------------------------------------------------------

  datatype Parsed = Value(v: Json, end: nat) | ParseError(error: Errno) | RunsPast

  ghost function ParseFrom(t: seq<Byte>, i: nat, m: State): Parsed
    requires Terminated(t) && i <= |t| && m.Running? && Valid(m)
    decreases |t| - i
  {
    match Next(t, i)
    case Lexed(token, next) =>
      (match Step(m, token)
       case Done(v) => Value(v, next)
       case Failed(e) => ParseError(e)
       case Running(_, _) => ParseFrom(t, next, Step(m, token)))
    case Skipped(next) => ParseFrom(t, next, m)
    case AtEnd => ParseError(BREAKING_BAD)
    case Overrun => RunsPast
  }

  /** Reading from `i` gives exactly the tokens `ts`, the last of which ends at `j`. */
  ghost predicate LexesTo(t: seq<Byte>, i: nat, ts: seq<Token>, j: nat)
    requires Terminated(t) && i <= |t|
    decreases |t| - i
  {
    if ts == [] then i == j
    else
      match Next(t, i)
      case Lexed(token, next) => token == ts[0] && !token.Bad? && LexesTo(t, next, ts[1..], j)
      case Skipped(next) => LexesTo(t, next, ts, j)
      case AtEnd => false
      case Overrun => false
  }

  lemma {:induction false} LexesToAppend(t: seq<Byte>, i: nat, xs: seq<Token>, j: nat, ys: seq<Token>, k: nat)
    requires Terminated(t) && i <= |t| && j <= |t| && LexesTo(t, i, xs, j) && LexesTo(t, j, ys, k)
    ensures LexesTo(t, i, xs + ys, k)
    decreases |t| - i
  {
    hide Next;
    if xs == [] {
      assert xs + ys == ys;
    } else {
      assert (xs + ys)[0] == xs[0] && (xs + ys)[1..] == xs[1..] + ys;
      match Next(t, i)
      case Lexed(_, next) => LexesToAppend(t, next, xs[1..], j, ys, k);
      case Skipped(next) => LexesToAppend(t, next, xs, j, ys, k);
    }
  }

  /** A parse that returns a value has read tokens that the machine accepts. */
  lemma {:induction false} ParsedIsLexed(t: seq<Byte>, i: nat, m: State, used: nat) returns (ts: seq<Token>)
    requires Terminated(t) && i <= |t| && m.Running? && Valid(m)
    ensures
      var r := ParseFrom(t, i, m);
      r.Value? ==> LexesTo(t, i, ts, r.end) && Run(m, ts, used) == Ok(r.v, used + |ts|)
    decreases |t| - i
  {
    hide Next, Step;
    ts := [];
    match Next(t, i)
    case Lexed(token, next) =>
      var m' := Step(m, token);
      BadIsRejected(m, token);
      if m'.Running? {
        var rest := ParsedIsLexed(t, next, m', used + 1);
        ts := [token] + rest;
        RunStep(m, token, rest, used);
        assert ts[1..] == rest;
      } else {
        ts := [token];
        RunStep(m, token, [], used);
        assert [token] + [] == [token];
      }
    case Skipped(next) =>
      ts := ParsedIsLexed(t, next, m, used);
      RunNeedsTokens(m, used);
    case AtEnd =>
    case Overrun =>
  }

  lemma BadIsRejected(m: State, token: Token)
    requires m.Running? && Valid(m)
    ensures token.Bad? ==> Step(m, token).Failed?
  {
  }

  lemma RunNeedsTokens(m: State, used: nat)
    requires m.Running? && Valid(m)
    ensures Run(m, [], used).Error?
  {
  }

  lemma {:induction false} LexedIsParsed(t: seq<Byte>, i: nat, m: State, ts: seq<Token>, end: nat, v: Json, used: nat)
    requires Terminated(t) && i <= |t| && m.Running? && Valid(m)
    requires LexesTo(t, i, ts, end) && Run(m, ts, used) == Ok(v, used + |ts|)
    ensures ParseFrom(t, i, m) == Value(v, end)
    decreases |t| - i
  {
    hide Next, Step;
    if ts != [] {
      match Next(t, i)
      case Lexed(token, next) =>
        var m' := Step(m, token);
        assert [token] + ts[1..] == ts;
        RunStep(m, token, ts[1..], used);
        if m'.Running? {
          LexedIsParsed(t, next, m', ts[1..], end, v, used + 1);
        } else {
          assert Run(m', ts[1..], used + 1) == Ok(v, used + 1);
        }
      case Skipped(next) => LexedIsParsed(t, next, m, ts, end, v, used);
    }
  }

  /** `jsonParse` returns a value exactly when the text, read up to `end`, is tokens that derive it. */
  lemma ParsesExactlyDerivedTexts(t: seq<Byte>, v: Json, end: nat)
    requires Terminated(t)
    ensures ParseFrom(t, 0, START) == Value(v, end) <==> exists ts :: LexesTo(t, 0, ts, end) && Derives(ts, v)
  {
    hide ParseFrom, LexesTo, Derives, Run;
    if ParseFrom(t, 0, START) == Value(v, end) {
      var ts := ParsedIsLexed(t, 0, START, 0);
      AcceptsExactlyDerivations(ts, v, |ts|);
      assert ts[..|ts|] == ts;
    }
    forall ts | LexesTo(t, 0, ts, end) && Derives(ts, v)
      ensures ParseFrom(t, 0, START) == Value(v, end)
    {
      assert ts[..|ts|] == ts;
      AcceptsExactlyDerivations(ts, v, |ts|);
      LexedIsParsed(t, 0, START, ts, end, v, 0);
    }
  }

  // ---------------------------------------------------------------------------
  // Staying inside the buffer
  // ---------------------------------------------------------------------------

  /** From `i` on there is only white space, NULs and comments, and what ends the buffer is not seen as its end. */
  ghost predicate BlankTail(t: seq<Byte>, i: nat)
    requires Terminated(t) && i <= |t|
    decreases |t| - i
  {
    i == |t| || (
      && t[i] != 0
      && var k := SkipSpace(t, i);
      if t[k] == 0 then BlankTail(t, k + 1)
      else t[k] == HASH && (CommentEnd(t, k + 2) < |t| ==> BlankTail(t, CommentEnd(t, k + 2)))
    )
  }

  /** The machine wants more after every one of the tokens. */
  ghost predicate Pending(m: State, ts: seq<Token>)
    requires m.Running? ==> Valid(m)
    decreases |ts|
  {
    m.Running? && (ts != [] ==> Pending(Step(m, ts[0]), ts[1..]))
  }

  lemma BlankStep(t: seq<Byte>, i: nat)
    requires Terminated(t) && i <= |t|
    ensures BlankTail(t, i) <==> Next(t, i).Overrun? || (Next(t, i).Skipped? && BlankTail(t, Next(t, i).next))
  {
    hide NumberToken, StringToken, WordToken;
  }

  lemma {:induction false} PastIsBlank(t: seq<Byte>, i: nat, m: State) returns (ts: seq<Token>, j: nat)
    requires Terminated(t) && i <= |t| && m.Running? && Valid(m) && ParseFrom(t, i, m).RunsPast?
    ensures j <= |t| && LexesTo(t, i, ts, j) && Pending(m, ts) && BlankTail(t, j)
    decreases |t| - i
  {
    hide Next, Step, BlankTail;
    ts, j := [], i;
    BlankStep(t, i);
    match Next(t, i)
    case Lexed(token, next) =>
      BadIsRejected(m, token);
      var rest;
      rest, j := PastIsBlank(t, next, Step(m, token));
      ts := [token] + rest;
      assert ts[1..] == rest;
    case Skipped(next) =>
      ts, j := PastIsBlank(t, next, m);
      if ts == [] {
        j := i;
      }
    case Overrun =>
  }

  lemma {:induction false} BlankIsPast(t: seq<Byte>, i: nat, m: State, ts: seq<Token>, j: nat)
    requires Terminated(t) && i <= |t| && j <= |t| && m.Running? && Valid(m)
    requires LexesTo(t, i, ts, j) && Pending(m, ts) && BlankTail(t, j)
    ensures ParseFrom(t, i, m).RunsPast?
    decreases |t| - i
  {
    hide Next, Step, BlankTail;
    BlankStep(t, i);
    match Next(t, i)
    case Lexed(token, next) => BlankIsPast(t, next, Step(m, token), ts[1..], j);
    case Skipped(next) => BlankIsPast(t, next, m, ts, if ts == [] then next else j);
    case Overrun =>
  }

  /** The parse leaves the buffer exactly when only blanks remain while the machine still wants tokens. */
  lemma RunsPastExactly(t: seq<Byte>)
    requires Terminated(t)
    ensures
      ParseFrom(t, 0, START).RunsPast? <==>
      exists ts, j :: 0 <= j <= |t| && LexesTo(t, 0, ts, j) && Pending(START, ts) && BlankTail(t, j)
  {
    hide ParseFrom, LexesTo, Pending, BlankTail;
    if ParseFrom(t, 0, START).RunsPast? {
      var ts, j := PastIsBlank(t, 0, START);
    }
    forall ts, j | 0 <= j <= |t| && LexesTo(t, 0, ts, j) && Pending(START, ts) && BlankTail(t, j)
      ensures ParseFrom(t, 0, START).RunsPast?
    {
      BlankIsPast(t, 0, START, ts, j);
    }
  }

  /** No comment, no NUL before the last byte, and no white space just before it. */
  ghost predicate Tidy(t: seq<Byte>) {
    && Terminated(t)
    && (forall k | 0 <= k < |t| - 1 :: t[k] != 0 && t[k] != HASH)
    && (2 <= |t| ==> !IsSpace(t[|t| - 2]))
  }

  lemma NextStaysInside(t: seq<Byte>, i: nat)
    requires Tidy(t) && i < |t|
    ensures !Next(t, i).Overrun? && !Next(t, i).Skipped?
    ensures Next(t, i).Lexed? && !Next(t, i).token.Bad? ==> Next(t, i).next < |t|
  {
    hide NumberAt, Scan, WordAt;
    if t[i] != 0 {
      var j := SkipSpace(t, i);
      assert i < j ==> IsSpace(t[j - 1]);
      assert j < |t| - 1;
    }
  }

  /** A check before the call that is enough: on a tidy text the parse stops inside the buffer, with a value or not. */
  lemma {:induction false} TidyStaysInside(t: seq<Byte>, i: nat, m: State)
    requires Tidy(t) && i < |t| && m.Running? && Valid(m)
    ensures !ParseFrom(t, i, m).RunsPast?
    decreases |t| - i
  {
    hide Next, Step;
    NextStaysInside(t, i);
    match Next(t, i)
    case Lexed(token, next) =>
      BadIsRejected(m, token);
      if Step(m, token).Running? {
        TidyStaysInside(t, next, Step(m, token));
      }
    case AtEnd =>
  }

  /** White space with nothing after it, or a comment without a newline, does lead past the buffer. */
  lemma UntidyRunsPast()
    ensures ParseFrom([32, 0], 0, START).RunsPast?
    ensures ParseFrom([HASH, 0], 0, START).RunsPast?
  {
    var t: seq<Byte> := [32, 0];
    assert SkipSpace(t, 1) == 1;
    assert SkipSpace(t, 0) == 1;
    assert Next(t, 0) == Skipped(2);
    assert Next(t, 2).Overrun?;
    assert Next([HASH, 0], 0).Overrun?;
  }

  // ---------------------------------------------------------------------------
  // Literals without a closing quote
  // ---------------------------------------------------------------------------

  /** The token from `i` on is a literal that the text ends before it closes. */
  ghost predicate UnclosedAt(t: seq<Byte>, i: nat)
    requires Terminated(t) && i < |t|
  {
    var j := SkipSpace(t, i);
    t[j] == QUOTE && Scan(t, j + 1).Unclosed?
  }

  /** A literal that is not closed is taken as a string: accepted exactly when it is outside all containers. */
  lemma UnclosedExactly(t: seq<Byte>, i: nat, m: State)
    requires Terminated(t) && i < |t| && t[i] != 0 && UnclosedAt(t, i) && m.Running? && Valid(m)
    ensures
      var r := ParseFrom(t, i, m);
      if m.stack == [] then r.Value? && r.v.Atomic? && r.v.atom.String? && t[r.end] == 0
      else r == ParseError(BREAKING_BAD)
  {
    hide Scan;
    var x := Next(t, i);
    assert x == StringToken(t, SkipSpace(t, i));
    assert t[x.next] == 0 && Next(t, x.next) == AtEnd;
    if m.stack != [] {
      var m' := Step(m, x.token);
      assert m'.Running?;
      assert ParseFrom(t, x.next, m') == ParseError(BREAKING_BAD);
    }
  }

  /** A quote and one letter are a text that is accepted. */
  lemma UnclosedIsAccepted()
    ensures ParseFrom([QUOTE, 97, 0], 0, START) == Value(Atomic(String([97])), 2)
  {
    var t: seq<Byte> := [QUOTE, 97, 0];
    assert UnitAt(t, 2) == EndOfText;
    assert Scan(t, 2) == Unclosed([], 2);
    assert UnitAt(t, 1) == Bytes([97], 1);
    assert Scan(t, 1) == Unclosed([97], 2);
    assert [97] + t[2..2] == [97];
    assert Next(t, 0) == Lexed(Scalar(String([97])), 2);
  }
}
