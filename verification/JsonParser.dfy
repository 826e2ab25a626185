/**
 The code of `jsonParse` (core/gason.cpp): the text read and rewritten in place, and the values built on the
 heap by `JsonStack`. `ShowValue` is a caller that goes through a value with `JsonIterator`.
 */
module JsonParser {
  import opened Bits
  import opened Common
  import opened JsonClip
  import opened JsonHeap
  import opened JsonList
  import opened JsonMachine
  import opened JsonMemory
  import opened JsonNumber
  import opened JsonStack
  import opened JsonString
  import opened JsonText

  // ---------------------------------------------------------------------------
  // Reading depends only on what is not yet read
  // ---------------------------------------------------------------------------

  ghost predicate SameFrom(x: seq<Byte>, t: seq<Byte>, i: nat) {
    |x| == |t| && forall k | i <= k < |t| :: x[k] == t[k]
  }

  lemma {:induction false} SkipSpaceSame(x: seq<Byte>, t: seq<Byte>, i: nat)
    requires Terminated(x) && Terminated(t) && i < |t| && SameFrom(x, t, i)
    ensures SkipSpace(x, i) == SkipSpace(t, i)
    decreases |t| - i
  {
    if IsSpace(t[i]) {
      SkipSpaceSame(x, t, i + 1);
    }
  }

  lemma {:induction false} CommentEndSame(x: seq<Byte>, t: seq<Byte>, i: nat)
    requires SameFrom(x, t, i)
    ensures CommentEnd(x, i) == CommentEnd(t, i)
    decreases |t| - i
  {
    if i < |t| {
      CommentEndSame(x, t, i + 1);
    }
  }

  lemma {:induction false} ScanSame(x: seq<Byte>, t: seq<Byte>, i: nat)
    requires Terminated(x) && Terminated(t) && i < |t| && SameFrom(x, t, i)
    ensures Scan(x, i) == Scan(t, i)
    decreases |t| - i
  {
    hide UnitAt;
    UnitAtSuffix(x, t, i);
    match UnitAt(t, i)
    case Bytes(_, width) => ScanSame(x, t, i + width);
    case Closing =>
    case EndOfText =>
    case BadUnit =>
  }

  lemma NumberAtSame(x: seq<Byte>, t: seq<Byte>, i: nat)
    requires Terminated(x) && Terminated(t) && i < |t| && SameFrom(x, t, i)
    ensures NumberAt(x, i) == NumberAt(t, i)
  {
    hide DigitsEnd, DigitsValue, FractionAt, ExponentAt;
    var s := if t[i] == MINUS then i + 1 else i;
    var e := DigitsEnd(t, s);
    DigitsEndIs(x, s, e);
    assert x[s..e] == t[s..e];
    FractionAtSame(x, t, e);
    ExponentAtSame(x, t, FractionAt(t, e).1);
    assert NumberAt(x, i).0 == NumberAt(t, i).0;
    assert NumberAt(x, i).1 == NumberAt(t, i).1;
  }

  lemma FractionAtSame(x: seq<Byte>, t: seq<Byte>, i: nat)
    requires Terminated(x) && Terminated(t) && i < |t| && SameFrom(x, t, i)
    ensures FractionAt(x, i) == FractionAt(t, i)
  {
    hide DigitsEnd, FractionValue;
    if t[i] == DOT {
      var e := DigitsEnd(t, i + 1);
      DigitsEndIs(x, i + 1, e);
      assert x[i + 1..e] == t[i + 1..e];
    }
  }

  lemma ExponentAtSame(x: seq<Byte>, t: seq<Byte>, i: nat)
    requires Terminated(x) && Terminated(t) && i < |t| && SameFrom(x, t, i)
    ensures ExponentAt(x, i) == ExponentAt(t, i)
  {
    hide DigitsEnd, DigitsValue, RealPow;
    if t[i] == 101 || t[i] == 69 {
      var signed := t[i + 1] == PLUS || t[i + 1] == MINUS;
      var s := if signed then i + 2 else i + 1;
      var e := DigitsEnd(t, s);
      DigitsEndIs(x, s, e);
      assert x[s..e] == t[s..e];
    }
  }

  lemma TokenAtSame(x: seq<Byte>, t: seq<Byte>, j: nat)
    requires Terminated(x) && Terminated(t) && j < |t| && SameFrom(x, t, j)
    ensures TokenAt(x, j) == TokenAt(t, j)
  {
    hide NumberAt, Scan, CommentEnd;
    var c := t[j];
    if c == HASH {
      CommentEndSame(x, t, j + 2);
    } else if c == MINUS || IsDigit(c) {
      NumberAtSame(x, t, j);
    } else if c == QUOTE {
      ScanSame(x, t, j + 1);
      StringTokenSame(x, t, j);
    } else if c == 116 {
      WordSame(x, t, j + 1, RUE);
    } else if c == 102 {
      WordSame(x, t, j + 1, ALSE);
    } else if c == 110 {
      WordSame(x, t, j + 1, ULL);
    }
  }

  lemma WordSame(x: seq<Byte>, t: seq<Byte>, i: nat, w: seq<Byte>)
    requires SameFrom(x, t, i)
    ensures WordAt(x, i, w) == WordAt(t, i, w)
  {
    if i + |w| < |t| {
      assert x[i..i + |w|] == t[i..i + |w|];
    }
  }

  lemma StringTokenSame(x: seq<Byte>, t: seq<Byte>, j: nat)
    requires Terminated(x) && Terminated(t) && j + 1 < |t| && SameFrom(x, t, j) && Scan(x, j + 1) == Scan(t, j + 1)
    ensures StringToken(x, j) == StringToken(t, j)
  {
    hide Scan;
    var l := Scan(t, j + 1);
    if l.Unclosed? {
      var s := j + 1 + |l.bytes|;
      assert x[s..l.next] == t[s..l.next];
    }
  }

  // ---------------------------------------------------------------------------
  // The loop
  // ---------------------------------------------------------------------------

  /** The bytes `b` and a NUL stand at index `at`: what a C string pointer to `at` shows. */
  ghost predicate Shows(x: seq<Byte>, at: nat, b: Text) {
    at + |b| < |x| && x[at..at + |b|] == b && x[at + |b|] == 0
  }

  method ReadToken(text: array<Byte>, j: nat) returns (x: Lexeme)
    requires Terminated(text[..]) && j < text.Length
    modifies text
    ensures x == TokenAt(old(text[..]), j)
    ensures text[..j] == old(text[..j])
    ensures (x.Lexed? && !x.token.Bad?) || x.Skipped? ==>
              Terminated(text[..]) && SameFrom(text[..], old(text[..]), x.next)
    ensures x.Lexed? && x.token.Scalar? && x.token.atom.String? ==>
              Shows(text[..], j + 1, x.token.atom.s) && j + 1 + |x.token.atom.s| <= x.next
  {
    hide NumberAt, Scan;
    var c := text[j];
    if c == HASH {
      var s := j + 2;
      while s < text.Length && text[s] != NEWLINE
        invariant j + 2 <= s && CommentEnd(text[..], j + 2) == CommentEnd(text[..], s)
      {
        s := s + 1;
      }
      return if s < text.Length then Skipped(s) else Overrun;
    } else if c == MINUS && !IsDigit(text[j + 1]) && text[j + 1] != DOT {
      return Lexed(Bad(BAD_NUMBER), j + 1);
    } else if c == MINUS || IsDigit(c) {
      NumberAdvances(text[..], j);
      var v, e := StringToDouble(text, j);
      return if IsDelim(text[e]) then Lexed(Scalar(Number(v)), e) else Lexed(Bad(BAD_NUMBER), j + 1);
    } else if c == QUOTE {
      x := ReadStringToken(text, j);
    } else if c == 116 {
      x := ReadWord(text, j, RUE, True);
    } else if c == 102 {
      x := ReadWord(text, j, ALSE, False);
    } else if c == 110 {
      x := ReadWord(text, j, ULL, Null);
    } else if c == 93 || c == 125 {
      return Lexed(Close(if c == 93 then ArrayTag else ObjectTag), j + 1);
    } else if c == 91 || c == 123 {
      return Lexed(Open(if c == 91 then ArrayTag else ObjectTag), j + 1);
    } else if c == COLON {
      return Lexed(Colon, j + 1);
    } else if c == COMMA {
      return Lexed(Comma, j + 1);
    } else if c == 0 {
      return Skipped(j + 1);
    } else {
      return Lexed(Bad(UNEXPECTED_CHARACTER), j + 1);
    }
  }

  method ReadWord(text: array<Byte>, j: nat, w: seq<Byte>, a: Atom) returns (x: Lexeme)
    requires Terminated(text[..]) && j + 1 < text.Length && forall k | 0 <= k < |w| :: w[k] != 0
    ensures x == WordToken(text[..], j, w, a)
  {
    for i := 0 to |w|
      invariant j + 1 + i < text.Length && text[j + 1..j + 1 + i] == w[..i]
    {
      if text[j + 1 + i] != w[i] {
        WordMismatch(text[..], j + 1, w, i);
        return Lexed(Bad(BAD_IDENTIFIER), j + 1);
      }
    }
    var e := j + 1 + |w|;
    if !IsDelim(text[e]) {
      return Lexed(Bad(BAD_IDENTIFIER), j + 1);
    }
    return Lexed(Scalar(a), e);
  }

  lemma WordMismatch(t: seq<Byte>, i: nat, w: seq<Byte>, k: nat)
    requires k < |w| && i + k < |t| && t[i + k] != w[k]
    ensures !WordAt(t, i, w)
  {
    if i + |w| < |t| {
      assert t[i..i + |w|][k] == t[i + k];
    }
  }

  lemma SameRest(x: seq<Byte>, t: seq<Byte>, n: nat)
    requires |x| == |t| && n <= |t| && x[n..] == t[n..]
    ensures SameFrom(x, t, n)
  {
    forall k | n <= k < |t|
      ensures x[k] == t[k]
    {
      assert x[k] == x[n..][k - n] && t[k] == t[n..][k - n];
    }
  }

  method ReadStringToken(text: array<Byte>, j: nat) returns (x: Lexeme)
    requires Terminated(text[..]) && j + 1 < text.Length
    modifies text
    ensures x == StringToken(old(text[..]), j)
    ensures text[..j] == old(text[..j])
    ensures !x.token.Bad? ==> Terminated(text[..]) && SameFrom(text[..], old(text[..]), x.next)
    ensures x.token.Scalar? && x.token.atom.String? ==>
              Shows(text[..], j + 1, x.token.atom.s) && j + 1 + |x.token.atom.s| <= x.next
  {
    hide Scan;
    ghost var t := text[..];
    var l := ReadString(text, j + 1);
    assert text[..j] == text[..j + 1][..j] && t[..j] == t[..j + 1][..j];
    if l.Invalid? {
      return Lexed(Bad(BAD_STRING), j + 1);
    }
    SameRest(text[..], t, l.next);
    assert text[..][l.next..] == text[l.next..];
    if !IsDelim(text[l.next]) {
      return Lexed(Bad(BAD_STRING), j + 1);
    }
    return Lexed(Scalar(String(l.bytes)), l.next);
  }

  /** The strings read so far are still where their pointers show them. */
  ghost predicate AllShown(x: seq<Byte>, shown: map<nat, Text>) { forall at | at in shown :: Shows(x, at, shown[at]) }

  ghost predicate AllBefore(shown: map<nat, Text>, s: nat) { forall at | at in shown :: at + |shown[at]| <= s }

  ghost predicate IsString(x: Lexeme) { x.Lexed? && x.token.Scalar? && x.token.atom.String? }

  /** The loop up to the `switch`: the end of the text, white space, and the characters of a token. */
  method NextToken(text: array<Byte>, s: nat) returns (x: Lexeme, at: nat)
    requires Terminated(text[..]) && s <= text.Length
    modifies text
    ensures x == Next(old(text[..]), s)
    ensures text[..s] == old(text[..s])
    ensures s < text.Length && old(text[s]) == 0 ==> text[..] == old(text[..])
    ensures (x.Lexed? && !x.token.Bad?) || x.Skipped? ==>
              Terminated(text[..]) && SameFrom(text[..], old(text[..]), x.next)
    ensures IsString(x) ==> s < at && Shows(text[..], at, x.token.atom.s) && at + |x.token.atom.s| <= x.next
  {
    hide TokenAt;
    at := 0;
    if s == text.Length {
      return Overrun, at;
    }
    if text[s] == 0 {
      return AtEnd, at;
    }
    ghost var t := text[..];
    var j := s;
    while IsSpace(text[j])
      invariant s <= j < text.Length && SkipSpace(t, s) == SkipSpace(t, j)
      decreases text.Length - j
    {
      j := j + 1;
    }
    x := ReadToken(text, j);
    at := j + 1;
    assert text[..s] == text[..j][..s] && t[..s] == t[..j][..s];
  }

  /** What `jsonParse` returns, and the value it stores. */
  datatype Result = Found(o: Item, end: nat) | NotParsed(error: Errno) | PastBuffer

  /** The result, the heap and the text `x` are those of the pure parse `want`. */
  ghost predicate Yields(want: Parsed, r: Result, stack: Stack, x: seq<Byte>)
    reads stack, stack.tags, stack.keys, stack.lists, stack.lists.tails, stack.lists.Nodes()
  {
    match want
    case Value(v, end) => r.Found? && r.end == end && stack.Holds(r.o, v) && AllShown(x, stack.shown)
    case ParseError(e) => r == NotParsed(e)
    case RunsPast => r == PastBuffer
  }

  /** What every turn of the loop keeps: the text `t` is still there from `s` on, and all strings are shown. */
  ghost predicate Going(x: seq<Byte>, shown: map<nat, Text>, s: nat, t: seq<Byte>) {
    s <= |x| && Terminated(x) && SameFrom(x, t, s) && AllShown(x, shown) && AllBefore(shown, s)
  }

  /** A token that has been read goes to the stack; a string is shown at `at`. */
  method TakeToken(x: seq<Byte>, stack: Stack, memory: Memory, token: Token, at: nat, next: nat)
    returns (r: Option<Result>)
    requires stack.Valid() && stack.Settled(memory) && AllShown(x, stack.shown)
    requires token.Scalar? && token.atom.String? ==> at in stack.shown && stack.shown[at] == token.atom.s
    modifies stack`separator, stack.tags, stack.keys, stack.lists, stack.lists.tails, stack.lists.Nodes()
    modifies memory, memory.allocator, memory.Zones()
    ensures stack.OnlyNewNodes() && stack.Settled(memory) && memory.OnlyNewZones()
    ensures memory.failures != old(memory.failures) ==> r == Some(NotParsed(ALLOCATION_FAILURE))
    ensures
      memory.failures == old(memory.failures) ==>
        match Step(old(stack.Machine()), token)
        case Running(s, sep) => r == None && stack.Valid() && stack.Machine() == Running(s, sep)
        case Done(v) => r.Some? && Yields(Value(v, next), r.value, stack, x)
        case Failed(e) => r.Some? && Yields(ParseError(e), r.value, stack, x)
  {
    hide Step, AllShown, Stack.Ready, Stack.Frames, Stack.Holds, Stack.Settled;
    var verdict := stack.Accept(token, at, memory);
    match verdict {
      case Continue => r := None;
      case Return(o) => r := Some(Found(o, next));
      case Reject(e) => r := Some(NotParsed(e));
    }
  }

  /** One turn of the loop: nothing but a result, or a text and a stack on which the parse goes on. */
  method Turn(text: array<Byte>, stack: Stack, memory: Memory, s: nat, ghost t: seq<Byte>)
    returns (r: Option<Result>, next: nat)
    requires Terminated(t) && Going(text[..], stack.shown, s, t) && stack.Valid() && stack.Settled(memory)
    modifies text
    modifies stack, stack.tags, stack.keys, stack.lists, stack.lists.tails, stack.lists.Nodes()
    modifies memory, memory.allocator, memory.Zones()
    ensures stack.OnlyNewNodes() && stack.Settled(memory) && memory.OnlyNewZones()
    ensures memory.failures != old(memory.failures) ==> r == Some(NotParsed(ALLOCATION_FAILURE))
    ensures memory.failures == old(memory.failures) && r.Some? ==>
              Yields(ParseFrom(t, s, old(stack.Machine())), r.value, stack, text[..])
    ensures r == None ==> s < next && Going(text[..], stack.shown, next, t) && stack.Valid()
    ensures r == None ==> ParseFrom(t, next, stack.Machine()) == ParseFrom(t, s, old(stack.Machine()))
  {
    hide Next, Step, Going, AllShown, Stack.Ready, Stack.Frames, Stack.Holds, Housed, Memory.Valid, Yields;
    ghost var m := stack.Machine();
    var x, at := NextShown(text, stack, s, t);
    YieldsEnd(stack, text[..]);
    if x.AtEnd? {
      return Some(NotParsed(BREAKING_BAD)), s;
    }
    if x.Overrun? {
      return Some(PastBuffer), s;
    }
    next := x.next;
    if x.Skipped? {
      return None, next;
    }
    BadIsRejected(m, x.token);
    r := TakeToken(text[..], stack, memory, x.token, at, next);
  }

  /** The next token; a string that is read is shown where it stands. */
  method NextShown(text: array<Byte>, stack: Stack, s: nat, ghost t: seq<Byte>) returns (x: Lexeme, at: nat)
    requires Terminated(t) && Going(text[..], stack.shown, s, t) && stack.Valid()
    modifies text, stack`shown
    ensures x == Next(t, s) && stack.Valid() && stack.Machine() == old(stack.Machine())
    ensures AllShown(text[..], stack.shown)
    ensures (x.Lexed? && !x.token.Bad?) || x.Skipped? ==> Going(text[..], stack.shown, x.next, t)
    ensures IsString(x) ==> at in stack.shown && stack.shown[at] == x.token.atom.s
  {
    hide Next, Shows, AllShown, AllBefore, Stack.Ready, Stack.Frames;
    ghost var before := text[..];
    ghost var o: object := text;
    assert o != stack.tags && o != stack.keys && o != stack.lists.tails;
    assert o != stack && o != stack.lists && forall n | n in stack.lists.Nodes() :: o != n;
    NextSame(before, t, s);
    x, at := NextToken(text, s);
    KeepsShown(before, text[..], stack.shown, s);
    if IsString(x) {
      NewString(text[..], stack.shown, s, at, x.token.atom.s, x.next);
      stack.Show(at, x.token.atom.s);
    } else if x.Lexed? || x.Skipped? {
      StillBefore(stack.shown, s, x.next);
    }
  }

  lemma YieldsEnd(stack: Stack, x: seq<Byte>)
    ensures Yields(ParseError(BREAKING_BAD), NotParsed(BREAKING_BAD), stack, x) && Yields(RunsPast, PastBuffer, stack, x)
  {
  }

  /**
   `jsonParse`, for every text. Unless an allocation fails, it gives a value exactly when the pure parse of
   the original text does; the value on the heap stands for the parsed tree, each of its pointers shows the
   bytes of its string, and each of its nodes lives in a block of the allocator that is its own.
   */
  method JsonParse(text: array<Byte>, memory: Memory) returns (r: Result, stack: Stack)
    requires Terminated(text[..]) && memory.Valid()
    modifies text, memory, memory.allocator, memory.Zones()
    ensures stack.Settled(memory)
    ensures
      if memory.failures == old(memory.failures)
      then Yields(ParseFrom(old(text[..]), 0, START), r, stack, text[..])
      else r == NotParsed(ALLOCATION_FAILURE)
  {
    hide ParseFrom, Yields, Stack.Ready, Stack.Frames, Terminated, Housed, Memory.Valid;
    ghost var t := text[..];
    stack := new Stack();
    var s := 0;
    NothingShown(text[..]);
    NothingHoused(memory.blocks);
    while true
      invariant Going(text[..], stack.shown, s, t) && stack.Valid() && stack.Settled(memory)
      invariant forall z | z in memory.Zones() :: z in old(memory.Zones()) || fresh(z)
      invariant memory.failures == old(memory.failures)
      invariant fresh(stack) && fresh(stack.tags) && fresh(stack.keys) && fresh(stack.lists) && fresh(stack.lists.tails)
      invariant forall n | n in stack.lists.Nodes() :: fresh(n)
      invariant ParseFrom(t, 0, START) == ParseFrom(t, s, stack.Machine())
      decreases text.Length - s
    {
      var result, next := Turn(text, stack, memory, s, t);
      if result.Some? {
        return result.value, stack;
      }
      s := next;
    }
  }

  lemma NextSame(x: seq<Byte>, t: seq<Byte>, s: nat)
    requires Terminated(x) && Terminated(t) && s <= |t| && SameFrom(x, t, s)
    ensures Next(x, s) == Next(t, s)
  {
    hide TokenAt;
    if s < |t| && t[s] != 0 {
      SkipSpaceSame(x, t, s);
      TokenAtSame(x, t, SkipSpace(t, s));
    }
  }

  lemma NothingShown(x: seq<Byte>)
    requires Terminated(x)
    ensures Going(x, map[], 0, x)
  {
  }

  lemma StillBefore(shown: map<nat, Text>, s: nat, next: nat)
    requires AllBefore(shown, s) && s <= next
    ensures AllBefore(shown, next)
  {
  }

  lemma NewString(x: seq<Byte>, shown: map<nat, Text>, s: nat, at: nat, b: Text, next: nat)
    requires AllShown(x, shown) && AllBefore(shown, s) && s < at && Shows(x, at, b) && at + |b| <= next
    ensures at !in shown && AllShown(x, shown[at := b]) && AllBefore(shown[at := b], next)
  {
  }

  lemma KeepsShown(x: seq<Byte>, y: seq<Byte>, shown: map<nat, Text>, s: nat)
    requires |x| == |y| && s <= |x| && x[..s] == y[..s] && (s < |x| && x[s] == 0 ==> x == y)
    requires AllShown(x, shown) && AllBefore(shown, s)
    ensures AllShown(y, shown)
  {
    forall at | at in shown
      ensures Shows(y, at, shown[at])
    {
      var b := shown[at];
      assert Shows(x, at, b);
      if at + |b| < s {
        assert x[at..at + |b|] == x[..s][at..at + |b|] && y[at..at + |b|] == y[..s][at..at + |b|];
        assert x[..s][at + |b|] == y[..s][at + |b|];
      }
    }
  }

  // ---------------------------------------------------------------------------
  // Going through a value
  // ---------------------------------------------------------------------------

  /** The C string at a pointer. */
  method ReadCString(text: array<Byte>, at: nat, ghost b: Text) returns (s: Text)
    requires Shows(text[..], at, b)
    ensures s == UpToNul(b)
  {
    s := [];
    assert b[0..] == b;
    while text[at + |s|] != 0
      invariant |s| <= |b| && s + UpToNul(b[|s|..]) == UpToNul(b)
      decreases |b| - |s|
    {
      ghost var k := |s|;
      assert k < |b| && text[at + k] == text[..][at..at + |b|][k];
      assert b[k..][0] == b[k] && b[k..][1..] == b[k + 1..];
      s := s + [text[at + |s|]];
    }
    if |s| < |b| {
      assert text[at + |s|] == text[..][at..at + |b|][|s|];
    }
  }

  method ReadKey(text: array<Byte>, key: Option<nat>, ghost w: World) returns (s: Option<Text>)
    requires GoodKey(w, key) && AllShown(text[..], w.shown)
    ensures s == ClipKey(KeyOf(w, key))
  {
    if key == None {
      return None;
    }
    var b := ReadCString(text, key.value, w.shown[key.value]);
    s := Some(b);
  }

  lemma ListValue(w: World, lo: nat, tag: Tag, head: ListNode<Entry>)
    requires Good(w, lo, ListItem(tag, head))
    ensures
      var id := head.home;
      && lo <= id < w.top && id in w.closed && id in w.heap && w.heap[id] != [] && w.heap[id][0].node == head
      && GoodCells(w, id + 1, w.heap[id])
      && TreeOf(w, lo, ListItem(tag, head)) == Container(tag, NodesOf(w, id + 1, w.heap[id]))
  {
  }

  lemma NodesLength(w: World, lo: nat, cells: seq<Cell<Entry>>)
    ensures |NodesOf(w, lo, cells)| == |cells|
  {
  }

  lemma CellValue(w: World, lo: nat, cells: seq<Cell<Entry>>, i: nat)
    requires GoodCells(w, lo, cells) && i < |cells|
    ensures
      var e := cells[i].value;
      && GoodKey(w, e.key) && Good(w, lo, e.value)
      && NodesOf(w, lo, cells)[i] == Node(KeyOf(w, e.key), TreeOf(w, lo, e.value))
  {
    hide Good, TreeOf, KeyOf;
  }

  /**
   A walk through a value with `JsonIterator`, container by container: it ends, and reads the tree that the
   value stands for, strings and keys as C strings.
   */
  method ShowValue(text: array<Byte>, lists: Lists<Entry>, o: Item, ghost w: World, ghost lo: nat) returns (v: Json)
    requires lists.Valid() && Covers(w, lists) && Good(w, lo, o) && AllShown(text[..], w.shown)
    ensures v == Clip(TreeOf(w, lo, o))
    decreases Room(w, lo), 0
  {
    match o {
      case PlainItem(a) => v := Atomic(a);
      case StringItem(at) =>
        ShownAt(text[..], w, at);
        var s := ReadCString(text, at, w.shown[at]);
        v := Atomic(String(s));
      case ListItem(tag, head) =>
        if head == null {
          return Container(tag, []);
        }
        hide Good, TreeOf, NodesOf, GoodCells, AllShown, Clip, Lists.Valid;
        ListValue(w, lo, tag, head);
        ghost var cells := w.heap[head.home];
        var nodes := ShowList(text, lists, head, w);
        v := Container(tag, nodes);
        ClipContainer(tag, NodesOf(w, head.home + 1, cells), nodes);
    }
  }

  /** The nodes of a closed container, one after the other. */
  method Entries(lists: Lists<Entry>, head: ListNode<Entry>, ghost w: World) returns (entries: seq<Entry>)
    requires lists.Valid() && Covers(w, lists) && head.home in w.closed && head.home in w.heap
    requires w.heap[head.home] != [] && w.heap[head.home][0].node == head
    ensures
      var cells := w.heap[head.home];
      |entries| == |cells| && forall i | 0 <= i < |cells| :: entries[i] == cells[i].value
  {
    hide Lists.Valid;
    assert head == lists.lists[head.home][0];
    entries := lists.Walk(head, head.home);
  }

  method ShowList(text: array<Byte>, lists: Lists<Entry>, head: ListNode<Entry>, ghost w: World) returns (nodes: seq<Node>)
    requires lists.Valid() && Covers(w, lists) && AllShown(text[..], w.shown)
    requires
      var id := head.home;
      && id < w.top && id in w.closed && id in w.heap && w.heap[id] != [] && w.heap[id][0].node == head
      && GoodCells(w, id + 1, w.heap[id])
    ensures
      var all := NodesOf(w, head.home + 1, w.heap[head.home]);
      |nodes| == |all| && forall i | 0 <= i < |all| :: nodes[i] == ClipNode(all[i])
    decreases Room(w, head.home + 1), 3
  {
    hide Good, TreeOf, NodesOf, GoodCells, AllShown, Clip;
    var entries := Entries(lists, head, w);
    nodes := ShowEntries(text, lists, entries, w, head.home + 1, w.heap[head.home]);
  }

  method ShowEntries(
    text: array<Byte>, lists: Lists<Entry>, entries: seq<Entry>, ghost w: World, ghost lo: nat,
    ghost cells: seq<Cell<Entry>>)
    returns (nodes: seq<Node>)
    requires lists.Valid() && Covers(w, lists) && AllShown(text[..], w.shown) && GoodCells(w, lo, cells)
    requires |entries| == |cells| && forall i | 0 <= i < |cells| :: entries[i] == cells[i].value
    ensures
      var all := NodesOf(w, lo, cells);
      |nodes| == |all| && forall i | 0 <= i < |all| :: nodes[i] == ClipNode(all[i])
    decreases Room(w, lo), 2
  {
    hide Good, TreeOf, NodesOf, GoodCells, AllShown, Clip;
    NodesLength(w, lo, cells);
    nodes := [];
    while |nodes| < |entries|
      invariant |nodes| <= |entries| && forall k | 0 <= k < |nodes| :: nodes[k] == ClipNode(NodesOf(w, lo, cells)[k])
      decreases |entries| - |nodes|
    {
      CellValue(w, lo, cells, |nodes|);
      var node := ShowEntry(text, lists, entries[|nodes|], w, lo);
      nodes := nodes + [node];
    }
  }

  method ShowEntry(text: array<Byte>, lists: Lists<Entry>, e: Entry, ghost w: World, ghost lo: nat) returns (node: Node)
    requires lists.Valid() && Covers(w, lists) && AllShown(text[..], w.shown)
    requires GoodKey(w, e.key) && Good(w, lo, e.value)
    ensures node == ClipNode(Node(KeyOf(w, e.key), TreeOf(w, lo, e.value)))
    decreases Room(w, lo), 1
  {
    hide Good, TreeOf, AllShown, Clip, ClipKey, KeyOf, GoodKey;
    var value := ShowValue(text, lists, e.value, w, lo);
    var key := ReadKey(text, e.key, w);
    node := Node(key, value);
  }

  lemma ShownAt(x: seq<Byte>, w: World, at: nat)
    requires AllShown(x, w.shown) && at in w.shown
    ensures Shows(x, at, w.shown[at])
  {
  }

  /**
   Parsing a text and going through the value that is returned gives, unless an allocation fails, the parsed
   tree as C strings show it: the tree itself exactly when no literal that is read has the escape of 0.
   */
  method ParseAndShow(text: array<Byte>, memory: Memory) returns (r: Parsed)
    requires Terminated(text[..]) && memory.Valid()
    modifies text, memory, memory.allocator, memory.Zones()
    ensures memory.failures != old(memory.failures) ==> r == ParseError(ALLOCATION_FAILURE)
    ensures memory.failures == old(memory.failures) ==>
              var want := ParseFrom(old(text[..]), 0, START);
              && r == ClipParsed(want)
              && (want.Value? ==> (r == want <==> !ReadsEscapedNul(old(text[..]), 0, want.end)))
  {
    hide ParseFrom, Clip, AllShown, Stack.Holds, ReadsEscapedNul, Stack.Settled, Memory.Valid;
    SeenWholeExactly(text[..]);
    var result, stack := JsonParse(text, memory);
    match result {
      case NotParsed(e) => r := ParseError(e);
      case PastBuffer => r := RunsPast;
      case Found(o, end) =>
        ghost var w, lo := stack.HeldTree(o, ParseFrom(old(text[..]), 0, START).v);
        var v := ShowValue(text, stack.lists, o, w, lo);
        r := Value(v, end);
    }
  }
}
