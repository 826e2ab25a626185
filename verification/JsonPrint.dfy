/**
 Printing a tree as a JSON text, and the round trip through `jsonParse`: integers, escaped strings,
 literals, arrays and objects.
 */
module JsonPrint {
  import opened Bits
  import opened Common
  import opened JsonMachine
  import opened JsonNumber
  import opened JsonString
  import opened JsonText

  // ---------------------------------------------------------------------------
  // The printer
  // ---------------------------------------------------------------------------

  function HexDigit(n: nat): (c: Byte)
    requires n < 16
    ensures IsXDigit(c) && Char2Int(c) == n
  {
    if n < 10 then 48 + n else 87 + n
  }

  /** A quote and a backslash get a backslash, a control character its four hexadecimal digits. */
  function EscapeByte(c: Byte): (e: seq<Byte>)
    ensures 0 < |e|
  {
    if c == QUOTE || c == BACKSLASH then [BACKSLASH, c]
    else if IsControl(c) then [BACKSLASH, LETTER_U, ZERO, ZERO, HexDigit(c / 16), HexDigit(c % 16)]
    else [c]
  }

  function Escape(bytes: seq<Byte>): seq<Byte> {
    if bytes == [] then [] else EscapeByte(bytes[0]) + Escape(bytes[1..])
  }

  function PrintString(bytes: seq<Byte>): seq<Byte> { [QUOTE] + Escape(bytes) + [QUOTE] }

  function PrintNat(n: nat): (ds: seq<Byte>)
    ensures 0 < |ds| && forall k | 0 <= k < |ds| :: IsDigit(ds[k])
  {
    if n < 10 then [ZERO + n] else PrintNat(n / 10) + [ZERO + n % 10]
  }

  function PrintInt(n: int): seq<Byte> { if n < 0 then [MINUS] + PrintNat(-n) else PrintNat(n) }

  function PrintAtom(a: Atom): seq<Byte> {
    match a
    case Number(n) => PrintInt(n.Floor)
    case String(s) => PrintString(s)
    case True => [116] + RUE
    case False => [102] + ALSE
    case Null => [110] + ULL
  }

  function Print(v: Json): seq<Byte> {
    match v
    case Atomic(a) => PrintAtom(a)
    case Container(tag, nodes) => [OpenChar(tag)] + PrintNodes(nodes, false) + [CloseChar(tag)]
  }

  /** The entries of a container, with a comma between them, and one after the last if `comma`. */
  function PrintNodes(nodes: seq<Node>, comma: bool): seq<Byte> {
    if nodes == [] then []
    else PrintNodes(nodes[..|nodes| - 1], true) + PrintNode(nodes[|nodes| - 1], comma)
  }

  function PrintNode(n: Node, comma: bool): seq<Byte> {
    PrintKey(n.key) + Print(n.value) + (if comma then [COMMA] else [])
  }

  function PrintKey(key: Option<Text>): seq<Byte> {
    if key.Some? then PrintString(key.value) + [COLON] else []
  }

  /** Numbers are integers, and exactly the entries of objects have keys. */
  ghost predicate Printable(v: Json) {
    match v
    case Atomic(a) => a.Number? ==> a.n == a.n.Floor as real
    case Container(tag, nodes) => forall n | n in nodes :: (n.key.Some? <==> tag == ObjectTag) && Printable(n.value)
  }

  function JsonDepth(v: Json): nat {
    match v
    case Atomic(_) => 0
    case Container(_, nodes) => 1 + NodesDepth(nodes)
  }

  function NodesDepth(nodes: seq<Node>): nat {
    if nodes == [] then 0 else Max(NodesDepth(nodes[..|nodes| - 1]), NodeDepth(nodes[|nodes| - 1]))
  }

  function NodeDepth(n: Node): nat { JsonDepth(n.value) }

  // ---------------------------------------------------------------------------
  // The derivation of a printed tree
  // ---------------------------------------------------------------------------

  ghost function Derivation(v: Json): Syntax {
    match v
    case Atomic(a) => Leaf(a)
    case Container(tag, nodes) => Group(tag, DerivationNodes(nodes, false))
  }

  ghost function DerivationNodes(nodes: seq<Node>, comma: bool): seq<Part> {
    if nodes == [] then []
    else DerivationNodes(nodes[..|nodes| - 1], true) + [DerivationNode(nodes[|nodes| - 1], comma)]
  }

  ghost function DerivationNode(n: Node, comma: bool): Part {
    Part(n.key, n.key.Some?, Derivation(n.value), comma)
  }

  lemma {:induction false} DerivationIsOf(v: Json)
    requires Printable(v)
    ensures
      var d := Derivation(v);
      Grammatical(d) && Tree(d) == v && Depth(d) == JsonDepth(v)
    decreases v, 1
  {
    match v
    case Atomic(_) =>
    case Container(tag, nodes) => DerivationNodesAreOf(tag, nodes, false);
  }

  lemma {:induction false} DerivationNodesAreOf(tag: Tag, nodes: seq<Node>, comma: bool)
    requires forall n | n in nodes :: (n.key.Some? <==> tag == ObjectTag) && Printable(n.value)
    ensures
      var parts := DerivationNodes(nodes, comma);
      GrammaticalParts(tag, parts) && TreeParts(parts) == nodes && DepthParts(parts) == NodesDepth(nodes)
    decreases nodes, 0
  {
    hide Printable, DerivationNode, DerivationNodes, TreeParts, DepthParts, Grammatical, PrintNodes;
    if nodes == [] {
      NothingPrinted(comma);
      EmptyParts(tag);
    } else {
      var init, last := nodes[..|nodes| - 1], nodes[|nodes| - 1];
      var parts, p := DerivationNodes(init, true), DerivationNode(last, comma);
      DerivationNodesAreOf(tag, init, true);
      DerivationNodeIsOf(tag, last, comma);
      NodesPrinted(nodes, comma);
      PartsSnoc(parts, p);
      assert nodes == init + [last];
    }
  }

  lemma {:induction false} DerivationNodeIsOf(tag: Tag, n: Node, comma: bool)
    requires (n.key.Some? <==> tag == ObjectTag) && Printable(n.value)
    ensures
      var p := DerivationNode(n, comma);
      HasKey(tag, p.key, p.colon) && Grammatical(p.value) && TreePart(p) == n && DepthPart(p) == NodeDepth(n)
    decreases n, 2
  {
    DerivationIsOf(n.value);
  }

  // ---------------------------------------------------------------------------
  // Reading what was printed
  // ---------------------------------------------------------------------------

  /** The text `x` stands at index `i` of `t`. */
  ghost predicate At(t: seq<Byte>, i: nat, x: seq<Byte>) { i + |x| <= |t| && t[i..i + |x|] == x }

  lemma AtSplit(t: seq<Byte>, i: nat, x: seq<Byte>, y: seq<Byte>)
    requires At(t, i, x + y)
    ensures At(t, i, x) && At(t, i + |x|, y)
  {
    assert t[i..i + |x|] == t[i..i + |x + y|][..|x|];
    assert t[i + |x|..i + |x| + |y|] == t[i..i + |x + y|][|x|..];
  }

  lemma AtIndex(t: seq<Byte>, i: nat, x: seq<Byte>, k: nat)
    requires At(t, i, x) && k < |x|
    ensures t[i + k] == x[k]
  {
    assert t[i..i + |x|][k] == x[k];
  }

  lemma UnitOfEscape(t: seq<Byte>, s: nat, c: Byte)
    requires Terminated(t) && At(t, s, EscapeByte(c)) && s + |EscapeByte(c)| < |t|
    ensures UnitAt(t, s) == Bytes([c], |EscapeByte(c)|)
  {
    var e := EscapeByte(c);
    AtIndex(t, s, e, 0);
    if |e| > 1 {
      AtIndex(t, s, e, 1);
      if |e| > 2 {
        AtIndex(t, s, e, 2);
        AtIndex(t, s, e, 3);
        AtIndex(t, s, e, 4);
        AtIndex(t, s, e, 5);
        assert FourHex(t, s + 2) && HexValue(t, s + 2) == c;
      }
    }
  }

  lemma {:induction false} ScanOfEscape(t: seq<Byte>, s: nat, bytes: seq<Byte>)
    requires Terminated(t) && At(t, s, Escape(bytes) + [QUOTE]) && s + |Escape(bytes)| + 1 < |t|
    ensures Scan(t, s) == Closed(bytes, s + |Escape(bytes)| + 1)
    decreases |bytes|
  {
    hide UnitAt, EscapeByte;
    if bytes == [] {
      AtIndex(t, s, [QUOTE], 0);
      assert Escape(bytes) + [QUOTE] == [QUOTE];
      QuoteCloses(t, s);
    } else {
      var e, rest := EscapeByte(bytes[0]), Escape(bytes[1..]) + [QUOTE];
      assert Escape(bytes) + [QUOTE] == e + rest;
      AtSplit(t, s, e, rest);
      UnitOfEscape(t, s, bytes[0]);
      ScanOfEscape(t, s + |e|, bytes[1..]);
      assert bytes == [bytes[0]] + bytes[1..];
    }
  }

  lemma QuoteCloses(t: seq<Byte>, s: nat)
    requires Terminated(t) && s < |t| && t[s] == QUOTE
    ensures UnitAt(t, s) == Closing
  {
  }

  lemma {:induction false} PrintNatValue(n: nat)
    ensures DigitsValue(PrintNat(n)) == n
  {
    if n < 10 {
      assert PrintNat(n)[..0] == [];
    } else {
      PrintNatValue(n / 10);
      assert PrintNat(n)[..|PrintNat(n)| - 1] == PrintNat(n / 10);
    }
  }

  /** An integer before a delimiter reads back as itself. */
  lemma NumberOfInt(t: seq<Byte>, i: nat, n: int)
    requires Terminated(t) && At(t, i, PrintInt(n))
    requires i + |PrintInt(n)| < |t| && IsDelim(t[i + |PrintInt(n)|])
    ensures NumberAt(t, i) == (n as real, i + |PrintInt(n)|)
    ensures t[i] == MINUS ==> IsDigit(t[i + 1])
    ensures t[i] == MINUS || IsDigit(t[i])
  {
    hide PrintNat, DigitsValue, NumberAt, IsDelim, At;
    if n < 0 {
      PrintNatValue(-n);
      SignedDigits(t, i, PrintNat(-n));
    } else {
      PrintNatValue(n);
      UnsignedDigits(t, i, PrintNat(n));
    }
  }

  lemma DigitsAreThere(t: seq<Byte>, s: nat, ds: seq<Byte>)
    requires At(t, s, ds) && ds != [] && forall k | 0 <= k < |ds| :: IsDigit(ds[k])
    ensures t[s..s + |ds|] == ds && forall k | s <= k < s + |ds| :: IsDigit(t[k])
  {
    forall k | s <= k < s + |ds|
      ensures IsDigit(t[k])
    {
      AtIndex(t, s, ds, k - s);
    }
  }

  lemma UnsignedDigits(t: seq<Byte>, i: nat, ds: seq<Byte>)
    requires Terminated(t) && At(t, i, ds) && ds != [] && forall k | 0 <= k < |ds| :: IsDigit(ds[k])
    requires i + |ds| < |t| && IsDelim(t[i + |ds|])
    ensures NumberAt(t, i) == (DigitsValue(ds) as real, i + |ds|) && IsDigit(t[i])
  {
    hide NumberAt, DigitsValue, IsDelim, At;
    DigitsAreThere(t, i, ds);
    assert t[i] != MINUS;
    PlainNumber(t, i, i + |ds|);
  }

  lemma SignedDigits(t: seq<Byte>, i: nat, ds: seq<Byte>)
    requires Terminated(t) && At(t, i, [MINUS] + ds) && ds != [] && forall k | 0 <= k < |ds| :: IsDigit(ds[k])
    requires i + 1 + |ds| < |t| && IsDelim(t[i + 1 + |ds|])
    ensures NumberAt(t, i) == (-(DigitsValue(ds) as real), i + 1 + |ds|) && t[i] == MINUS && IsDigit(t[i + 1])
  {
    hide NumberAt, DigitsValue, IsDelim, At;
    AtSplit(t, i, [MINUS], ds);
    AtIndex(t, i, [MINUS], 0);
    DigitsAreThere(t, i + 1, ds);
    PlainNumber(t, i, i + 1 + |ds|);
  }

  /** Digits before a delimiter, after a sign or not. */
  lemma PlainNumber(t: seq<Byte>, i: nat, e: nat)
    requires Terminated(t) && i < e < |t| && IsDelim(t[e])
    requires forall k | (if t[i] == MINUS then i + 1 else i) <= k < e :: IsDigit(t[k])
    ensures
      var v := DigitsValue(t[(if t[i] == MINUS then i + 1 else i)..e]) as real;
      NumberAt(t, i) == (if t[i] == MINUS then -v else v, e)
  {
    var s := if t[i] == MINUS then i + 1 else i;
    DigitsEndIs(t, s, e);
    assert RealPow(10.0, 0) == 1.0;
    hide DigitsEnd, DigitsValue, RealPow, FractionValue;
    assert MantissaAt(t, i).1 == e;
    assert ExponentAt(t, e) == (10.0, 0, e);
  }

  lemma LexOne(t: seq<Byte>, i: nat, token: Token, next: nat)
    requires Terminated(t) && i < |t| && !IsSpace(t[i]) && t[i] != 0
    requires TokenAt(t, i) == Lexed(token, next) && !token.Bad?
    ensures LexesTo(t, i, [token], next)
  {
    hide TokenAt;
    assert SkipSpace(t, i) == i;
    assert [token][1..] == [];
  }

  lemma LexNumber(t: seq<Byte>, i: nat, n: real)
    requires Terminated(t) && n == n.Floor as real && At(t, i, PrintInt(n.Floor))
    requires i + |PrintInt(n.Floor)| < |t| && IsDelim(t[i + |PrintInt(n.Floor)|])
    ensures LexesTo(t, i, [Scalar(Number(n))], i + |PrintInt(n.Floor)|)
  {
    hide NumberAt, PrintInt, LexesTo, At;
    NumberOfInt(t, i, n.Floor);
    LexOne(t, i, Scalar(Number(n)), i + |PrintInt(n.Floor)|);
  }

  lemma LexAtom(t: seq<Byte>, i: nat, a: Atom)
    requires Terminated(t) && At(t, i, PrintAtom(a)) && (a.Number? ==> a.n == a.n.Floor as real)
    requires i + |PrintAtom(a)| < |t| && IsDelim(t[i + |PrintAtom(a)|])
    ensures LexesTo(t, i, [Scalar(a)], i + |PrintAtom(a)|)
  {
    hide LexesTo, IsDelim, PrintInt, PrintString, At;
    match a {
      case Number(n) => LexNumber(t, i, n);
      case String(s) => LexString(t, i, s);
      case True => LexWord(t, i, 116, RUE, True);
      case False => LexWord(t, i, 102, ALSE, False);
      case Null => LexWord(t, i, 110, ULL, Null);
    }
  }

  lemma LexString(t: seq<Byte>, i: nat, s: seq<Byte>)
    requires Terminated(t) && At(t, i, PrintString(s))
    requires i + |PrintString(s)| < |t| && IsDelim(t[i + |PrintString(s)|])
    ensures LexesTo(t, i, [Scalar(String(s))], i + |PrintString(s)|)
  {
    hide Scan, Escape, LexesTo;
    assert PrintString(s) == [QUOTE] + (Escape(s) + [QUOTE]);
    AtSplit(t, i, [QUOTE], Escape(s) + [QUOTE]);
    AtIndex(t, i, [QUOTE], 0);
    ScanOfEscape(t, i + 1, s);
    LexOne(t, i, Scalar(String(s)), i + |PrintString(s)|);
  }

  lemma LexWord(t: seq<Byte>, i: nat, c: Byte, w: seq<Byte>, a: Atom)
    requires Terminated(t) && At(t, i, [c] + w) && i + 1 + |w| < |t| && IsDelim(t[i + 1 + |w|])
    requires (c, w, a) in [(116, RUE, True), (102, ALSE, False), (110, ULL, Null)]
    ensures LexesTo(t, i, [Scalar(a)], i + 1 + |w|)
  {
    hide LexesTo;
    AtSplit(t, i, [c], w);
    AtIndex(t, i, [c], 0);
    LexOne(t, i, Scalar(a), i + 1 + |w|);
  }

  lemma LexNothing(t: seq<Byte>, i: nat)
    requires Terminated(t) && i <= |t|
    ensures LexesTo(t, i, [], i)
  {
  }

  lemma LexPunctuation(t: seq<Byte>, i: nat, c: Byte, token: Token)
    requires Terminated(t) && At(t, i, [c])
    requires
      || (exists tag :: c == OpenChar(tag) && token == Open(tag))
      || (exists tag :: c == CloseChar(tag) && token == Close(tag))
      || (c, token) in [(COLON, Colon), (COMMA, Comma)]
    ensures LexesTo(t, i, [token], i + 1)
  {
    hide LexesTo;
    AtIndex(t, i, [c], 0);
    LexOne(t, i, token, i + 1);
  }

  /** A printed value before a delimiter lexes to the tokens of its derivation. */
  lemma {:induction false} LexValue(t: seq<Byte>, i: nat, v: Json)
    requires Terminated(t) && Printable(v) && At(t, i, Print(v))
    requires i + |Print(v)| < |t| && IsDelim(t[i + |Print(v)|])
    ensures LexesTo(t, i, Yield(Derivation(v)), i + |Print(v)|)
    decreases v, 1
  {
    hide LexesTo, IsDelim, At, PrintAtom, PrintNodes, DerivationNodes, YieldParts;
    match v
    case Atomic(a) => LexAtom(t, i, a);
    case Container(tag, nodes) =>
      var inside := PrintNodes(nodes, false);
      var end := i + 1 + |inside|;
      assert Print(v) == [OpenChar(tag)] + (inside + [CloseChar(tag)]);
      AtSplit(t, i, [OpenChar(tag)], inside + [CloseChar(tag)]);
      AtSplit(t, i + 1, inside, [CloseChar(tag)]);
      LexPunctuation(t, i, OpenChar(tag), Open(tag));
      LexPunctuation(t, end, CloseChar(tag), Close(tag));
      AtIndex(t, end, [CloseChar(tag)], 0);
      CloseCharIsDelim(tag);
      LexNodes(t, i + 1, tag, nodes, false);
      var parts := DerivationNodes(nodes, false);
      LexesToAppend(t, i, [Open(tag)], i + 1, YieldParts(parts), end);
      LexesToAppend(t, i, [Open(tag)] + YieldParts(parts), end, [Close(tag)], end + 1);
  }

  lemma CloseCharIsDelim(tag: Tag)
    ensures IsDelim(CloseChar(tag)) && IsDelim(COMMA) && IsDelim(COLON)
  {
  }

  lemma NothingPrinted(comma: bool)
    ensures PrintNodes([], comma) == [] && DerivationNodes([], comma) == []
  {
  }

  lemma NodesPrinted(nodes: seq<Node>, comma: bool)
    requires nodes != []
    ensures
      var init, last := nodes[..|nodes| - 1], nodes[|nodes| - 1];
      && PrintNodes(nodes, comma) == PrintNodes(init, true) + PrintNode(last, comma)
      && DerivationNodes(nodes, comma) == DerivationNodes(init, true) + [DerivationNode(last, comma)]
  {
    hide PrintNode, DerivationNode;
  }

  lemma {:induction false} LexNodes(t: seq<Byte>, i: nat, tag: Tag, nodes: seq<Node>, comma: bool)
    requires Terminated(t) && forall n | n in nodes :: (n.key.Some? <==> tag == ObjectTag) && Printable(n.value)
    requires At(t, i, PrintNodes(nodes, comma)) && i + |PrintNodes(nodes, comma)| < |t|
    requires comma || IsDelim(t[i + |PrintNodes(nodes, comma)|])
    ensures LexesTo(t, i, YieldParts(DerivationNodes(nodes, comma)), i + |PrintNodes(nodes, comma)|)
    decreases nodes, 0
  {
    hide IsDelim, At, LexesTo, Printable, PrintNode, DerivationNode, YieldParts, YieldPart, PrintNodes, DerivationNodes;
    if nodes == [] {
      NothingPrinted(comma);
      EmptyParts(tag);
      LexNothing(t, i);
    } else {
      NodesPrinted(nodes, comma);
      var init, last := nodes[..|nodes| - 1], nodes[|nodes| - 1];
      var x, y := PrintNodes(init, true), PrintNode(last, comma);
      AtSplit(t, i, x, y);
      LexNodes(t, i, tag, init, true);
      LexNode(t, i + |x|, last, comma);
      var parts, p := DerivationNodes(init, true), DerivationNode(last, comma);
      PartsSnoc(parts, p);
      LexesToAppend(t, i, YieldParts(parts), i + |x|, YieldPart(p), i + |x| + |y|);
    }
  }

  lemma {:induction false} LexNode(t: seq<Byte>, i: nat, n: Node, comma: bool)
    requires Terminated(t) && Printable(n.value)
    requires At(t, i, PrintNode(n, comma)) && i + |PrintNode(n, comma)| < |t|
    requires comma || IsDelim(t[i + |PrintNode(n, comma)|])
    ensures LexesTo(t, i, YieldPart(DerivationNode(n, comma)), i + |PrintNode(n, comma)|)
    decreases n, 2
  {
    hide IsDelim, Printable, PrintKey, YieldKey, At, Print, Derivation, Yield, LexesTo;
    var k, x, y := PrintKey(n.key), Print(n.value), if comma then [COMMA] else [];
    AtSplit(t, i, k + x, y);
    AtSplit(t, i, k, x);
    var mid := i + |k|;
    var end := mid + |x|;
    LexKey(t, i, n.key);
    if comma {
      AtIndex(t, end, y, 0);
      CloseCharIsDelim(ArrayTag);
      LexPunctuation(t, end, COMMA, Comma);
    } else {
      LexNothing(t, end);
    }
    LexValue(t, mid, n.value);
    var p := DerivationNode(n, comma);
    LexesToAppend(t, i, YieldKey(p.key, p.colon), mid, Yield(p.value), end);
    LexesToAppend(t, i, YieldKey(p.key, p.colon) + Yield(p.value), end, YieldIf(comma, Comma), end + |y|);
  }

  lemma LexKey(t: seq<Byte>, i: nat, key: Option<Text>)
    requires Terminated(t) && At(t, i, PrintKey(key)) && i + |PrintKey(key)| < |t|
    ensures LexesTo(t, i, YieldKey(key, key.Some?), i + |PrintKey(key)|)
  {
    hide LexesTo, At, PrintString;
    if key == None {
      assert YieldKey(key, false) == [];
      LexNothing(t, i);
    } else {
      var x := PrintString(key.value);
      AtSplit(t, i, x, [COLON]);
      AtIndex(t, i + |x|, [COLON], 0);
      LexString(t, i, key.value);
      LexPunctuation(t, i + |x|, COLON, Colon);
      LexesToAppend(t, i, [Scalar(String(key.value))], i + |x|, [Colon], i + |x| + 1);
    }
  }

  /** Parsing a printed tree of at most 32 levels gives the tree back and stops at the end of its text. */
  lemma RoundTrip(v: Json)
    requires Printable(v) && JsonDepth(v) <= STACK_SIZE
    ensures ParseFrom(Print(v) + [0], 0, START) == Value(v, |Print(v)|)
  {
    hide ParseFrom, LexesTo, Print, Printable, Yield, Grammatical, Depth, Tree, JsonDepth, Derivation;
    var t := Print(v) + [0];
    assert t[0..|Print(v)|] == Print(v);
    LexValue(t, 0, v);
    DerivationIsOf(v);
    assert Derives(Yield(Derivation(v)), v);
    ParsesExactlyDerivedTexts(t, v, |Print(v)|);
  }
}
