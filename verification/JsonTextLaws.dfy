/**
 What small texts mean to `jsonParse`, by the codes of their characters: escapes, hexadecimal digits, UTF-8
 bytes, a small document and the text of every error.
 */
module JsonTextLaws {
  import opened Bits
  import opened Common
  import opened JsonMachine
  import opened JsonNumber
  import opened JsonPrint
  import opened JsonString
  import opened JsonText

  // ---------------------------------------------------------------------------
  // Escapes
  // ---------------------------------------------------------------------------

  /** The eight letters that may follow a backslash alone, each with the byte it stands for. */
  const ESCAPES: seq<(Byte, Byte)> :=
    [(34, 34), (92, 92), (47, 47), (98, 8), (102, 12), (110, 10), (114, 13), (116, 9)]

  /** In any text, a backslash and one of these letters is one unit of that byte; any other but `u` is an error. */
  lemma EscapesStand(t: seq<Byte>, s: nat)
    requires Terminated(t) && s + 1 < |t| && t[s] == 92
    ensures forall i | 0 <= i < |ESCAPES| && t[s + 1] == ESCAPES[i].0 :: UnitAt(t, s) == Bytes([ESCAPES[i].1], 2)
    ensures (forall i | 0 <= i < |ESCAPES| :: t[s + 1] != ESCAPES[i].0) && t[s + 1] != 117 ==> UnitAt(t, s) == BadUnit
  {
    var c := t[s + 1];
    assert ESCAPES[0].0 == 34 && ESCAPES[1].0 == 92 && ESCAPES[2].0 == 47 && ESCAPES[3].0 == 98;
    assert ESCAPES[4].0 == 102 && ESCAPES[5].0 == 110 && ESCAPES[6].0 == 114 && ESCAPES[7].0 == 116;
  }

  /** A hexadecimal digit: 0 to 9, and a to f or A to F. */
  function HexLetter(v: nat, upper: bool): Byte
    requires v < 16
  {
    if v < 10 then 48 + v else if upper then 65 + (v - 10) else 97 + (v - 10)
  }

  function HexLetters(c: nat, upper: bool): (h: seq<Byte>)
    requires c < 0x1_0000
    ensures |h| == 4
  {
    [HexLetter(c / 4096, upper), HexLetter(c / 256 % 16, upper),
     HexLetter(c / 16 % 16, upper), HexLetter(c % 16, upper)]
  }

  lemma HexLetterStands(v: nat, upper: bool)
    requires v < 16
    ensures IsXDigit(HexLetter(v, upper)) && Char2Int(HexLetter(v, upper)) == v
  {
  }

  lemma HexLettersStand(c: nat, upper: bool, t: seq<Byte>, s: nat)
    requires c < 0x1_0000 && s + 4 <= |t| && t[s..s + 4] == HexLetters(c, upper)
    ensures FourHex(t, s) && HexValue(t, s) == c
  {
    hide HexLetter, Char2Int;
    var h := HexLetters(c, upper);
    HexLetterStands(c / 4096, upper);
    HexLetterStands(c / 256 % 16, upper);
    HexLetterStands(c / 16 % 16, upper);
    HexLetterStands(c % 16, upper);
    assert t[s] == t[s..s + 4][0] && t[s + 1] == t[s..s + 4][1];
    assert t[s + 2] == t[s..s + 4][2] && t[s + 3] == t[s..s + 4][3];
    assert c / 16 == c / 256 * 16 + c / 16 % 16 && c / 256 == c / 4096 * 16 + c / 256 % 16;
  }

  /** Four hexadecimal digits, of either case, after a backslash and `u` are the UTF-8 bytes of their number. */
  lemma HexEscapeStands(t: seq<Byte>, s: nat, c: nat, upper: bool)
    requires Terminated(t) && c < 0x1_0000 && s + 6 < |t|
    requires t[s] == 92 && t[s + 1] == 117 && t[s + 2..s + 6] == HexLetters(c, upper)
    ensures UnitAt(t, s) == Bytes(Utf8(c), 6)
  {
    hide HexLetters, HexValue, Utf8;
    HexLettersStand(c, upper, t, s + 2);
  }

  /** The first example of section 7 of RFC 3629: a Latin letter, "not identical to" and a Greek letter. */
  lemma PublishedUtf8()
    ensures Utf8(0x41) == [0x41]
    ensures Utf8(0x2262) == [0xE2, 0x89, 0xA2]
    ensures Utf8(0x391) == [0xCE, 0x91]
  {
  }

  /** Any character but a quote, a backslash and the end stands for itself, unless it is a control character. */
  lemma PlainCharacters(t: seq<Byte>, s: nat)
    requires Terminated(t) && s < |t| && t[s] != 0 && t[s] != 34 && t[s] != 92
    ensures if 32 <= t[s] && t[s] != 127 then UnitAt(t, s) == Bytes([t[s]], 1) else UnitAt(t, s) == BadUnit
  {
  }

  /** A comma, a colon, a closing bracket, white space or the end: what may follow a word, a number or a string. */
  predicate MayFollow(c: Byte) { c in {44, 58, 93, 125, 9, 10, 11, 12, 13, 32, 0} }

  /** The word "true" is a token exactly when one of these follows. */
  lemma WordEndsExactly(t: seq<Byte>, j: nat)
    requires Terminated(t) && j + 4 < |t| && t[j..j + 4] == [116, 114, 117, 101]
    ensures
      TokenAt(t, j) == if MayFollow(t[j + 4]) then Lexed(Scalar(True), j + 4) else Lexed(Bad(BAD_IDENTIFIER), j + 1)
  {
    assert t[j] == t[j..j + 4][0];
    assert t[j + 1..j + 4] == t[j..j + 4][1..];
  }

  /** A closed literal is a token exactly when one of these follows. */
  lemma StringEndsExactly(t: seq<Byte>, j: nat)
    requires Terminated(t) && j + 1 < |t| && t[j] == 34 && Scan(t, j + 1).Closed?
    ensures
      var l := Scan(t, j + 1);
      TokenAt(t, j)
      == if MayFollow(t[l.next]) then Lexed(Scalar(String(l.bytes)), l.next) else Lexed(Bad(BAD_STRING), j + 1)
  {
    hide Scan;
  }

  /** A number that starts with a digit is a token exactly when one of these follows. */
  lemma NumberEndsExactly(t: seq<Byte>, j: nat)
    requires Terminated(t) && j < |t| && 48 <= t[j] <= 57
    ensures
      var (v, e) := NumberAt(t, j);
      TokenAt(t, j) == if MayFollow(t[e]) then Lexed(Scalar(Number(v)), e) else Lexed(Bad(BAD_NUMBER), j + 1)
  {
    hide NumberAt;
  }

  // ---------------------------------------------------------------------------
  // A small document
  // ---------------------------------------------------------------------------

  // The characters "a": and true,false,null,-12 and {"a":[true,false,null,-12]}.
  const KEY: seq<Byte> := [34, 97, 34, 58]
  const LIST: seq<Byte> := [116, 114, 117, 101, 44, 102, 97, 108, 115, 101, 44, 110, 117, 108, 108, 44, 45, 49, 50]
  const DOCUMENT: seq<Byte> := [123] + KEY + [91] + LIST + [93] + [125]

  const ENTRIES: seq<Node> :=
    [Node(None, Atomic(True)), Node(None, Atomic(False)), Node(None, Atomic(Null)), Node(None, Atomic(Number(-12.0)))]

  const TREE: Json := Container(ObjectTag, [Node(Some([97]), Container(ArrayTag, ENTRIES))])

  lemma PrintedSnoc(nodes: seq<Node>, n: Node, comma: bool)
    ensures PrintNodes(nodes + [n], comma) == PrintNodes(nodes, true) + PrintNode(n, comma)
  {
    assert (nodes + [n])[..|nodes|] == nodes;
  }

  lemma AtomsPrinted()
    ensures PrintNode(ENTRIES[0], true) == [116, 114, 117, 101, 44]
    ensures PrintNode(ENTRIES[1], true) == [102, 97, 108, 115, 101, 44]
    ensures PrintNode(ENTRIES[2], true) == [110, 117, 108, 108, 44]
    ensures PrintNode(ENTRIES[3], false) == [45, 49, 50]
  {
    assert (-12.0).Floor == -12;
    assert PrintNat(12) == PrintNat(1) + [50] && PrintNat(1) == [49];
  }

  lemma EntriesPrinted()
    ensures PrintNodes(ENTRIES, false) == LIST
  {
    hide PrintNodes, PrintNode;
    AtomsPrinted();
    PrintedSnoc([], ENTRIES[0], true);
    PrintedSnoc(ENTRIES[..1], ENTRIES[1], true);
    PrintedSnoc(ENTRIES[..2], ENTRIES[2], true);
    PrintedSnoc(ENTRIES[..3], ENTRIES[3], false);
    NothingPrinted(true);
    assert [] + [ENTRIES[0]] == ENTRIES[..1] && ENTRIES[..1] + [ENTRIES[1]] == ENTRIES[..2];
    assert ENTRIES[..2] + [ENTRIES[2]] == ENTRIES[..3] && ENTRIES[..3] + [ENTRIES[3]] == ENTRIES;
  }

  lemma KeyPrinted()
    ensures PrintKey(Some([97])) == KEY
  {
    var key: seq<Byte> := [97];
    assert key[1..] == [] && Escape([]) == [];
    assert Escape(key) == EscapeByte(97) + Escape([]);
    assert PrintString(key) == [34] + EscapeByte(97) + [34];
    assert PrintKey(Some(key)) == PrintString(key) + [58];
  }

  lemma ArrayPrinted()
    ensures Print(Container(ArrayTag, ENTRIES)) == [91] + LIST + [93]
  {
    hide PrintNodes, LIST;
    EntriesPrinted();
  }

  lemma NodePrinted(node: Node)
    requires node == Node(Some([97]), Container(ArrayTag, ENTRIES))
    ensures PrintNodes([node], false) == KEY + ([91] + LIST + [93])
  {
    hide PrintNodes, PrintKey, Print, LIST, KEY;
    ArrayPrinted();
    KeyPrinted();
    NothingPrinted(true);
    PrintedSnoc([], node, false);
    assert [] + [node] == [node];
    assert PrintNode(node, false) == PrintKey(node.key) + Print(node.value);
  }

  lemma TreePrinted()
    ensures Print(TREE) == DOCUMENT
  {
    hide PrintNodes, LIST, KEY;
    NodePrinted(TREE.nodes[0]);
  }

  lemma DepthSnoc(nodes: seq<Node>, n: Node)
    ensures NodesDepth(nodes + [n]) == Max(NodesDepth(nodes), NodeDepth(n))
  {
    assert (nodes + [n])[..|nodes|] == nodes;
  }

  lemma {:induction false} FlatDepth(nodes: seq<Node>)
    requires forall n | n in nodes :: n.value.Atomic?
    ensures NodesDepth(nodes) == 0
  {
    if nodes != [] {
      var init, last := nodes[..|nodes| - 1], nodes[|nodes| - 1];
      FlatDepth(init);
      assert last in nodes && NodeDepth(last) == 0;
      DepthSnoc(init, last);
      assert init + [last] == nodes;
    }
  }

  lemma TreeFits()
    ensures Printable(TREE) && JsonDepth(TREE) == 2
  {
    assert (-12.0).Floor == -12;
    hide NodesDepth;
    FlatDepth(ENTRIES);
    FlatDepth([]);
    DepthSnoc([], Node(Some([97]), Container(ArrayTag, ENTRIES)));
    assert [] + [Node(Some([97]), Container(ArrayTag, ENTRIES))] == TREE.nodes;
  }

  /** A small document, character by character, and its tree. */
  lemma SmallDocument()
    ensures ParseFrom(DOCUMENT + [0], 0, START) == Value(TREE, 27)
  {
    hide ParseFrom, Print, Printable, JsonDepth;
    TreePrinted();
    TreeFits();
    RoundTrip(TREE);
  }

  // ---------------------------------------------------------------------------
  // Errors
  // ---------------------------------------------------------------------------

  /** A text whose first token stops the machine. */
  lemma StopsAtOnce(t: seq<Byte>, i: nat, m: State)
    requires Terminated(t) && i <= |t| && m.Running? && Valid(m)
    requires Next(t, i).Lexed? && Step(m, Next(t, i).token).Failed?
    ensures ParseFrom(t, i, m) == ParseError(Step(m, Next(t, i).token).error)
  {
  }

  /** A minus sign, an unknown escape, a word cut short, a question mark. */
  lemma BadTokens()
    ensures ParseFrom([45, 0], 0, START) == ParseError(BAD_NUMBER)
    ensures ParseFrom([34, 92, 120, 0], 0, START) == ParseError(BAD_STRING)
    ensures ParseFrom([116, 114, 117, 0], 0, START) == ParseError(BAD_IDENTIFIER)
    ensures ParseFrom([63, 0], 0, START) == ParseError(UNEXPECTED_CHARACTER)
  {
    hide ParseFrom;
    var minus: seq<Byte> := [45, 0];
    assert Next(minus, 0) == Lexed(Bad(BAD_NUMBER), 1);
    StopsAtOnce(minus, 0, START);
    var escape: seq<Byte> := [34, 92, 120, 0];
    assert UnitAt(escape, 1) == BadUnit;
    assert Next(escape, 0) == Lexed(Bad(BAD_STRING), 1);
    StopsAtOnce(escape, 0, START);
    var word: seq<Byte> := [116, 114, 117, 0];
    assert Next(word, 0) == Lexed(Bad(BAD_IDENTIFIER), 1);
    StopsAtOnce(word, 0, START);
    var mark: seq<Byte> := [63, 0];
    assert Next(mark, 0) == Lexed(Bad(UNEXPECTED_CHARACTER), 1);
    StopsAtOnce(mark, 0, START);
  }

  /** A closing bracket or a comma outside all containers, and no text at all. */
  lemma BadStarts()
    ensures ParseFrom([93, 0], 0, START) == ParseError(STACK_UNDERFLOW)
    ensures ParseFrom([125, 0], 0, START) == ParseError(STACK_UNDERFLOW)
    ensures ParseFrom([44, 0], 0, START) == ParseError(UNEXPECTED_CHARACTER)
    ensures ParseFrom([58, 0], 0, START) == ParseError(UNEXPECTED_CHARACTER)
    ensures ParseFrom([0], 0, START) == ParseError(BREAKING_BAD)
  {
  }

  /** The machine after one opening bracket. */
  lemma AfterOpening(t: seq<Byte>, tag: Tag)
    requires Terminated(t) && 2 <= |t| && t[0] == if tag == ArrayTag then 91 else 123
    ensures ParseFrom(t, 0, START) == ParseFrom(t, 1, Running([Frame(tag, None, [])], true))
  {
    hide Next, Step;
    OpeningIs(t, tag);
  }

  lemma OpeningIs(t: seq<Byte>, tag: Tag)
    requires Terminated(t) && 2 <= |t| && t[0] == if tag == ArrayTag then 91 else 123
    ensures Next(t, 0) == Lexed(Open(tag), 1)
    ensures Step(START, Open(tag)) == Running([Frame(tag, None, [])], true)
  {
    assert [] + [Frame(tag, None, [])] == [Frame(tag, None, [])];
  }

  /** The wrong bracket, a comma before an entry, a key that is no string, a key without a value. */
  lemma BadContainers()
    ensures ParseFrom([91, 125, 0], 0, START) == ParseError(MISMATCH_BRACKET)
    ensures ParseFrom([123, 93, 0], 0, START) == ParseError(MISMATCH_BRACKET)
    ensures ParseFrom([91, 44, 0], 0, START) == ParseError(UNEXPECTED_CHARACTER)
    ensures ParseFrom([123, 116, 114, 117, 101, 0], 0, START) == ParseError(UNQUOTED_KEY)
    ensures ParseFrom([123, 34, 34, 125, 0], 0, START) == ParseError(UNEXPECTED_CHARACTER)
  {
    hide ParseFrom;
    var inArray, inObject := Running([Frame(ArrayTag, None, [])], true), Running([Frame(ObjectTag, None, [])], true);
    var brace: seq<Byte> := [91, 125, 0];
    AfterOpening(brace, ArrayTag);
    StopsAtOnce(brace, 1, inArray);
    var bracket: seq<Byte> := [123, 93, 0];
    AfterOpening(bracket, ObjectTag);
    StopsAtOnce(bracket, 1, inObject);
    var comma: seq<Byte> := [91, 44, 0];
    AfterOpening(comma, ArrayTag);
    StopsAtOnce(comma, 1, inArray);
    BadKeys();
  }

  lemma BadKeys()
    ensures ParseFrom([123, 116, 114, 117, 101, 0], 0, START) == ParseError(UNQUOTED_KEY)
    ensures ParseFrom([123, 34, 34, 125, 0], 0, START) == ParseError(UNEXPECTED_CHARACTER)
  {
    hide ParseFrom;
    var inObject := Running([Frame(ObjectTag, None, [])], true);
    var word: seq<Byte> := [123, 116, 114, 117, 101, 0];
    AfterOpening(word, ObjectTag);
    assert Next(word, 1) == Lexed(Scalar(True), 5);
    StopsAtOnce(word, 1, inObject);
    var key: seq<Byte> := [123, 34, 34, 125, 0];
    AfterOpening(key, ObjectTag);
    KeyWithoutValue(key);
  }

  lemma KeyTokens(t: seq<Byte>)
    requires t == [123, 34, 34, 125, 0]
    ensures Next(t, 1) == Lexed(Scalar(String([])), 3) && Next(t, 3) == Lexed(Close(ObjectTag), 4)
  {
    assert UnitAt(t, 2) == Closing;
    assert Scan(t, 2) == Closed([], 3);
  }

  lemma KeySteps()
    ensures
      var m := Running([Frame(ObjectTag, Some([]), [])], false);
      && Step(Running([Frame(ObjectTag, None, [])], true), Scalar(String([]))) == m
      && Step(m, Close(ObjectTag)) == State.Failed(UNEXPECTED_CHARACTER)
  {
    assert [] + [Frame(ObjectTag, Some([]), [])] == [Frame(ObjectTag, Some([]), [])];
  }

  lemma KeyWithoutValue(t: seq<Byte>)
    requires t == [123, 34, 34, 125, 0]
    ensures ParseFrom(t, 1, Running([Frame(ObjectTag, None, [])], true)) == ParseError(UNEXPECTED_CHARACTER)
  {
    hide Next, Step;
    KeyTokens(t);
    KeySteps();
    StopsAtOnce(t, 3, Running([Frame(ObjectTag, Some([]), [])], false));
  }

  // ---------------------------------------------------------------------------
  // Nesting
  // ---------------------------------------------------------------------------

  lemma {:induction false} NestedFrom(t: seq<Byte>, n: nat, k: nat, m: State)
    requires |t| == n + 1 && t[n] == 0 && forall i | 0 <= i < n :: t[i] == 91
    requires k <= n && k <= 32 && m.Running? && |m.stack| == k && m.separator
    ensures Terminated(t) && ParseFrom(t, k, m) == ParseError(if n <= 32 then BREAKING_BAD else STACK_OVERFLOW)
    decreases n - k
  {
    if k < n {
      assert Next(t, k) == Lexed(Open(ArrayTag), k + 1);
      if k < 32 {
        NestedFrom(t, n, k + 1, Step(m, Open(ArrayTag)));
      }
    }
  }

  /** Up to 32 opening brackets leave the text incomplete; one more is an overflow. */
  lemma ThirtyTwoLevels(n: nat)
    ensures
      ParseFrom(seq<Byte>(n, _ => 91) + [0], 0, START) == ParseError(if n <= 32 then BREAKING_BAD else STACK_OVERFLOW)
  {
    NestedFrom(seq<Byte>(n, _ => 91) + [0], n, 0, START);
  }
}
