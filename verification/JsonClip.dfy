/**
 C strings end at their first NUL, and the escape of the character 0 puts one into a string. This module says
 what a reader of C strings sees of a parsed tree, and from which texts it sees the whole tree.
 */
module JsonClip {
  import opened Bits
  import opened Common
  import opened JsonMachine
  import opened JsonNumber
  import opened JsonString
  import opened JsonText

  // ---------------------------------------------------------------------------
  // Trees
  // ---------------------------------------------------------------------------

  /** What a C string shows of its bytes. */
  function UpToNul(b: Text): Text { if b == [] || b[0] == 0 then [] else [b[0]] + UpToNul(b[1..]) }

  /** A tree with each string and key as a C string shows it. */
  function Clip(v: Json): Json {
    match v
    case Atomic(a) => if a.String? then Atomic(String(UpToNul(a.s))) else v
    case Container(tag, nodes) =>
      Container(tag, seq(|nodes|, i requires 0 <= i < |nodes| => ClipNode(nodes[i])))
  }

  function ClipKey(key: Option<Text>): Option<Text> { if key.Some? then Some(UpToNul(key.value)) else None }

  function ClipNode(n: Node): Node { Node(ClipKey(n.key), Clip(n.value)) }

  ghost predicate NoNul(b: Text) { forall i | 0 <= i < |b| :: b[i] != 0 }

  ghost predicate PlainKey(key: Option<Text>) { key.Some? ==> NoNul(key.value) }

  /** No string or key of the tree has a NUL in it. */
  ghost predicate Plain(v: Json) {
    match v
    case Atomic(a) => a.String? ==> NoNul(a.s)
    case Container(_, nodes) => forall n | n in nodes :: PlainKey(n.key) && Plain(n.value)
  }

  lemma {:induction false} UpToNulExactly(b: Text)
    ensures UpToNul(b) == b <==> NoNul(b)
    decreases |b|
  {
    if b != [] {
      UpToNulExactly(b[1..]);
      assert b == [b[0]] + b[1..];
      if UpToNul(b) == b {
        assert b[0] != 0;
        assert UpToNul(b)[1..] == UpToNul(b[1..]);
        assert forall i | 0 < i < |b| :: b[i] == b[1..][i - 1];
      }
    }
  }

  /** C strings show the whole tree exactly when no string or key has a NUL in it. */
  lemma {:induction false} ClipExactly(v: Json)
    ensures Clip(v) == v <==> Plain(v)
    decreases v
  {
    match v
    case Atomic(a) =>
      if a.String? {
        UpToNulExactly(a.s);
      }
    case Container(tag, nodes) =>
      var clipped := Clip(v).nodes;
      assert forall i | 0 <= i < |nodes| :: clipped[i] == ClipNode(nodes[i]);
      forall n | n in nodes
        ensures ClipNode(n) == n <==> PlainKey(n.key) && Plain(n.value)
      {
        ClipExactly(n.value);
        if n.key.Some? {
          UpToNulExactly(n.key.value);
        }
      }
      hide Clip, Plain, UpToNul, PlainKey;
      if forall n | n in nodes :: ClipNode(n) == n {
        assert clipped == nodes;
      } else {
        var n :| n in nodes && ClipNode(n) != n;
        var i :| 0 <= i < |nodes| && nodes[i] == n;
        assert clipped[i] != nodes[i];
      }
  }

  lemma ClipContainer(tag: Tag, nodes: seq<Node>, clipped: seq<Node>)
    requires |clipped| == |nodes| && forall i | 0 <= i < |nodes| :: clipped[i] == ClipNode(nodes[i])
    ensures Clip(Container(tag, nodes)) == Container(tag, clipped)
  {
    hide ClipNode;
    assert Clip(Container(tag, nodes)).nodes == clipped;
  }

  function ClipParsed(r: Parsed): Parsed { if r.Value? then Value(Clip(r.v), r.end) else r }

  // ---------------------------------------------------------------------------
  // Literals
  // ---------------------------------------------------------------------------

  /** Backslash, `u` and four times the digit zero. */
  const ESCAPED_NUL: seq<Byte> := [92, 117, 48, 48, 48, 48]

  ghost predicate EscapedNulAt(t: seq<Byte>, s: nat) { s + 6 <= |t| && t[s..s + 6] == ESCAPED_NUL }

  ghost predicate IsEscapedNul(t: seq<Byte>, s: nat)
    requires Terminated(t) && s < |t|
  {
    UnitAt(t, s) == Bytes([0], 6)
  }

  /** A unit gives a NUL exactly when it is the escape of 0. */
  lemma UnitNul(t: seq<Byte>, s: nat)
    requires Terminated(t) && s < |t| && UnitAt(t, s).Bytes?
    ensures NoNul(UnitAt(t, s).bytes) <==> !IsEscapedNul(t, s)
  {
    hide FourHex, HexValue;
    var u := UnitAt(t, s);
    if !NoNul(u.bytes) {
      var i :| 0 <= i < |u.bytes| && u.bytes[i] == 0;
    } else {
      assert u.bytes[0] != 0;
    }
  }

  /** The escape of 0 is those six characters. */
  lemma EscapedNulIs(t: seq<Byte>, s: nat)
    requires Terminated(t) && s < |t|
    ensures IsEscapedNul(t, s) <==> EscapedNulAt(t, s)
  {
    if IsEscapedNul(t, s) {
      assert t[s] == 92 && t[s + 1] == 117 && FourHex(t, s + 2) && HexValue(t, s + 2) == 0;
      assert t[s + 2] == 48 && t[s + 3] == 48 && t[s + 4] == 48 && t[s + 5] == 48;
      assert t[s..s + 6] == ESCAPED_NUL;
    }
    if EscapedNulAt(t, s) {
      var x := t[s..s + 6];
      assert t[s] == x[0] && t[s + 1] == x[1] && t[s + 2] == x[2];
      assert t[s + 3] == x[3] && t[s + 4] == x[4] && t[s + 5] == x[5];
      assert HexValue(t, s + 2) == 0;
    }
  }

  /** Some unit of the literal whose first character is at `s` is the escape of 0. */
  ghost predicate LiteralEscapesNul(t: seq<Byte>, s: nat)
    requires Terminated(t) && s < |t|
    decreases |t| - s
  {
    var u := UnitAt(t, s);
    u.Bytes? && (IsEscapedNul(t, s) || LiteralEscapesNul(t, s + u.width))
  }

  /** The characters of a unit are no NULs. */
  lemma UnitCharacters(t: seq<Byte>, s: nat, k: nat)
    requires Terminated(t) && s < |t| && UnitAt(t, s).Bytes? && s <= k < s + UnitAt(t, s).width
    ensures t[k] != 0
  {
    hide Utf8, HexValue, SimpleEscape;
  }

  /** The bytes of a literal have no NUL exactly when no unit of it is the escape of 0; its characters have none. */
  lemma {:induction false} LiteralNul(t: seq<Byte>, s: nat)
    requires Terminated(t) && s < |t| && !Scan(t, s).Invalid?
    ensures NoNul(Scan(t, s).bytes) <==> !LiteralEscapesNul(t, s)
    ensures Scan(t, s).Unclosed? ==> forall k | s <= k < Scan(t, s).next :: t[k] != 0
    decreases |t| - s
  {
    hide UnitAt, IsEscapedNul;
    var u := UnitAt(t, s);
    if u.Bytes? {
      LiteralNul(t, s + u.width);
      UnitNul(t, s);
      NoNulAppend(u.bytes, Scan(t, s + u.width).bytes);
      forall k | s <= k < s + u.width
        ensures t[k] != 0
      {
        UnitCharacters(t, s, k);
      }
    }
  }

  lemma NoNulAppend(x: Text, y: Text)
    ensures NoNul(x + y) <==> NoNul(x) && NoNul(y)
  {
    if NoNul(x + y) {
      assert forall i | 0 <= i < |x| :: x[i] == (x + y)[i];
      assert forall i | 0 <= i < |y| :: y[i] == (x + y)[|x| + i];
    }
  }

  ghost predicate PlainToken(token: Token) { token.Scalar? && token.atom.String? ==> NoNul(token.atom.s) }

  /** The token at `i` is a string of whose literal some unit is the escape of 0. */
  ghost predicate TokenEscapesNul(t: seq<Byte>, i: nat)
    requires Terminated(t) && i < |t|
  {
    var j := SkipSpace(t, i);
    t[j] == QUOTE && LiteralEscapesNul(t, j + 1)
  }

  /** A token that is read is plain exactly when it is not such a string. */
  lemma TokenNul(t: seq<Byte>, i: nat)
    requires Terminated(t) && i < |t| && Next(t, i).Lexed? && !Next(t, i).token.Bad?
    ensures PlainToken(Next(t, i).token) <==> !TokenEscapesNul(t, i)
  {
    hide Scan, LiteralEscapesNul, NumberAt, WordAt, NoNul;
    var j := SkipSpace(t, i);
    if t[j] == QUOTE {
      StringNul(t, j);
    }
  }

  lemma StringNul(t: seq<Byte>, j: nat)
    requires Terminated(t) && j + 1 < |t| && !StringToken(t, j).token.Bad?
    ensures PlainToken(StringToken(t, j).token) <==> !LiteralEscapesNul(t, j + 1)
  {
    hide Scan, LiteralEscapesNul;
    LiteralNul(t, j + 1);
    var l := Scan(t, j + 1);
    if l.Unclosed? {
      NoNulAppend(l.bytes, t[j + 1 + |l.bytes|..l.next]);
    }
  }

  // ---------------------------------------------------------------------------
  // Parsed texts
  // ---------------------------------------------------------------------------

  ghost predicate PlainNodes(nodes: seq<Node>) { forall n | n in nodes :: PlainKey(n.key) && Plain(n.value) }

  ghost predicate PlainFrame(f: Frame) { PlainKey(f.key) && PlainNodes(f.nodes) }

  ghost predicate PlainStack(stack: seq<Frame>) { forall i | 0 <= i < |stack| :: PlainFrame(stack[i]) }

  /** Only objects have a pending key. */
  ghost predicate Keyed(stack: seq<Frame>) {
    forall i | 0 <= i < |stack| :: stack[i].key.Some? ==> stack[i].tag == ObjectTag
  }

  /** What the machine holds is plain. */
  ghost predicate PlainState(m: State) {
    match m
    case Running(stack, _) => PlainStack(stack)
    case Done(v) => Plain(v)
    case Failed(_) => true
  }

  lemma StackSnoc(stack: seq<Frame>, f: Frame)
    ensures PlainStack(stack + [f]) <==> PlainStack(stack) && PlainFrame(f)
    ensures Keyed(stack + [f]) <==> Keyed(stack) && (f.key.Some? ==> f.tag == ObjectTag)
  {
    hide PlainFrame;
    var all := stack + [f];
    assert all[|stack|] == f && forall i | 0 <= i < |stack| :: all[i] == stack[i];
  }

  lemma NodesSnoc(nodes: seq<Node>, n: Node)
    ensures PlainNodes(nodes + [n]) <==> PlainNodes(nodes) && PlainKey(n.key) && Plain(n.value)
  {
    hide PlainKey, Plain;
    var all := nodes + [n];
    assert all[|nodes|] == n && forall i | 0 <= i < |nodes| :: all[i] == nodes[i];
  }

  lemma ContainerNul(tag: Tag, nodes: seq<Node>)
    ensures Plain(Container(tag, nodes)) <==> PlainNodes(nodes)
  {
  }

  lemma AtomNul(a: Atom)
    ensures Plain(Atomic(a)) <==> (a.String? ==> NoNul(a.s))
  {
  }

  /** A value that arrives loses no string: what the machine holds is plain exactly when all of it was. */
  lemma ArriveNul(stack: seq<Frame>, v: Json)
    requires |stack| <= STACK_SIZE && Keyed(stack)
    ensures
      var r := Arrive(stack, v);
      && (!r.Failed? ==> (PlainState(r) <==> PlainStack(stack) && Plain(v)))
      && (r.Running? ==> Keyed(r.stack))
  {
    hide Plain, PlainKey, PlainNodes, PlainStack, Keyed;
    NoFrames();
    if stack != [] {
      var low, f, r := Below(stack), Top(stack), Arrive(stack, v);
      assert low + [f] == stack;
      StackSnoc(low, f);
      if r.Running? {
        var f' := Top(r.stack);
        assert r.stack == low + [f'];
        StackSnoc(low, f');
        NodesSnoc(f.nodes, Node(f.key, v));
        NoKey();
        if v.Atomic? {
          AtomNul(v.atom);
        }
        if f.tag == ObjectTag && f.key == None {
          KeyNul(v.atom.s);
        }
      }
    }
  }

  lemma NoFrames()
    ensures PlainStack([]) && Keyed([]) && PlainNodes([])
  {
  }

  lemma NoKey()
    ensures PlainKey(None)
  {
  }

  lemma KeyNul(s: Text)
    ensures PlainKey(Some(s)) <==> NoNul(s)
  {
  }

  /** A step loses no string. */
  lemma StepNul(m: State, token: Token)
    requires m.Running? && Valid(m) && Keyed(m.stack)
    ensures
      var r := Step(m, token);
      && (!r.Failed? ==> (PlainState(r) <==> PlainState(m) && PlainToken(token)))
      && (r.Running? ==> Keyed(r.stack))
  {
    hide Arrive, Plain, PlainKey, PlainNodes, PlainStack, Keyed;
    match token
    case Scalar(a) =>
      ArriveNul(m.stack, Atomic(a));
      AtomNul(a);
    case Open(tag) =>
      StackSnoc(m.stack, Frame(tag, None, []));
      NoFrames();
      NoKey();
    case Close(tag) =>
      if m.stack != [] {
        var low, f := Below(m.stack), Top(m.stack);
        assert low + [f] == m.stack;
        StackSnoc(low, f);
        NoKey();
        ContainerNul(tag, f.nodes);
        ArriveNul(low, Container(tag, f.nodes));
      }
    case _ =>
  }

  /** Some literal that is read from `i` up to `end` has a unit that is the escape of 0. */
  ghost predicate ReadsEscapedNul(t: seq<Byte>, i: nat, end: nat)
    requires Terminated(t) && i <= |t|
    decreases |t| - i
  {
    i < end && i < |t| &&
    match Next(t, i)
    case Lexed(token, next) => TokenEscapesNul(t, i) || (next <= |t| && ReadsEscapedNul(t, next, end))
    case Skipped(next) => ReadsEscapedNul(t, next, end)
    case _ => false
  }

  /** The tree of a text that parses is plain exactly when no literal that is read has the escape of 0. */
  lemma {:induction false} ParsedNul(t: seq<Byte>, i: nat, m: State)
    requires Terminated(t) && i <= |t| && m.Running? && Valid(m) && Keyed(m.stack) && ParseFrom(t, i, m).Value?
    ensures
      var r := ParseFrom(t, i, m);
      i < r.end && (Plain(r.v) <==> PlainState(m) && !ReadsEscapedNul(t, i, r.end))
    decreases |t| - i
  {
    hide Next, Step, Plain, PlainState, Keyed, TokenEscapesNul, PlainToken;
    match Next(t, i)
    case Lexed(token, next) =>
      BadIsRejected(m, token);
      TokenNul(t, i);
      StepNul(m, token);
      DoneNul(Step(m, token));
      if Step(m, token).Running? {
        ParsedNul(t, next, Step(m, token));
      }
    case Skipped(next) => ParsedNul(t, next, m);
  }

  lemma DoneNul(m: State)
    ensures m.Done? ==> (PlainState(m) <==> Plain(m.v))
  {
  }

  /**
   For every text that parses to a value: a reader of C strings sees that value exactly when no unit of a
   literal that is read is the escape of 0.
   */
  lemma SeenWholeExactly(t: seq<Byte>)
    requires Terminated(t)
    ensures
      var r := ParseFrom(t, 0, START);
      r.Value? ==> (ClipParsed(r) == r <==> !ReadsEscapedNul(t, 0, r.end))
  {
    hide ParseFrom, Clip, Plain, ReadsEscapedNul;
    var r := ParseFrom(t, 0, START);
    if r.Value? {
      NoFrames();
      ParsedNul(t, 0, START);
      ClipExactly(r.v);
    }
  }

  ghost predicate HasEscapedNul(t: seq<Byte>) { exists s: nat :: EscapedNulAt(t, s) }

  lemma {:induction false} LiteralIsInText(t: seq<Byte>, s: nat)
    requires Terminated(t) && s < |t| && LiteralEscapesNul(t, s)
    ensures HasEscapedNul(t)
    decreases |t| - s
  {
    hide UnitAt, IsEscapedNul;
    if IsEscapedNul(t, s) {
      EscapedNulIs(t, s);
    } else {
      LiteralIsInText(t, s + UnitAt(t, s).width);
    }
  }

  lemma {:induction false} ReadIsInText(t: seq<Byte>, i: nat, end: nat)
    requires Terminated(t) && i <= |t| && ReadsEscapedNul(t, i, end)
    ensures HasEscapedNul(t)
    decreases |t| - i
  {
    hide Next, LiteralEscapesNul, HasEscapedNul;
    match Next(t, i)
    case Lexed(token, next) =>
      if TokenEscapesNul(t, i) {
        LiteralIsInText(t, SkipSpace(t, i) + 1);
      } else {
        ReadIsInText(t, next, end);
      }
    case Skipped(next) => ReadIsInText(t, next, end);
  }

  /** A check before the call that is enough: without those six characters the whole value is seen. */
  lemma WithoutEscapedNul(t: seq<Byte>)
    requires Terminated(t) && !HasEscapedNul(t)
    ensures ClipParsed(ParseFrom(t, 0, START)) == ParseFrom(t, 0, START)
  {
    hide ParseFrom, Clip, ReadsEscapedNul, HasEscapedNul;
    SeenWholeExactly(t);
    var r := ParseFrom(t, 0, START);
    if r.Value? && ReadsEscapedNul(t, 0, r.end) {
      ReadIsInText(t, 0, r.end);
    }
  }

  /** The text of a string that is only the escape of 0: parsed as one NUL, seen as nothing. */
  lemma EscapedNulIsCut()
    ensures
      var r := ParseFrom([34] + ESCAPED_NUL + [34, 0], 0, START);
      r == Value(Atomic(String([0])), 8) && ClipParsed(r) == Value(Atomic(String([])), 8)
  {
    var t := [34] + ESCAPED_NUL + [34, 0];
    assert t[1..7] == ESCAPED_NUL;
    EscapedNulIs(t, 1);
    assert UnitAt(t, 7) == Closing;
    assert Scan(t, 7) == Closed([], 8);
    assert Scan(t, 1) == Closed([0], 8);
    assert Next(t, 0) == Lexed(Scalar(String([0])), 8);
  }
}
