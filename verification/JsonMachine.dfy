/**
 The pushdown machine of `jsonParse` (core/gason.cpp) over tokens, and the grammar it accepts.

   value     := number | string | true | false | null | '[' entry* ']' | '{' entry* '}'
   entry     := value ','?                  in an array
   entry     := string ':'? value ','?      in an object

 Commas and colons are optional because the machine tests `separator` only when one of them arrives.
 `Step` and `Run` are the machine on values; `JsonStack.Stack` is the code with its arrays of 32 levels.
 */
module JsonMachine {
  import opened Bits
  import opened Common

  const STACK_SIZE: nat := 32

  datatype Tag = ArrayTag | ObjectTag

  /** The bytes that a string of the document points to. */
  type Text = seq<Byte>

  datatype Atom = Number(n: real) | String(s: Text) | True | False | Null

  datatype Json = Atomic(atom: Atom) | Container(tag: Tag, nodes: seq<Node>)

  datatype Node = Node(key: Option<Text>, value: Json)

  datatype Errno =
    | BAD_NUMBER
    | BAD_STRING
    | BAD_IDENTIFIER
    | STACK_OVERFLOW
    | STACK_UNDERFLOW
    | MISMATCH_BRACKET
    | UNEXPECTED_CHARACTER
    | UNQUOTED_KEY
    | BREAKING_BAD
    | ALLOCATION_FAILURE

  datatype Token =
    | Scalar(atom: Atom)
    | Open(tag: Tag)
    | Close(tag: Tag)
    | Colon
    | Comma
    | Bad(error: Errno)

  // ---------------------------------------------------------------------------
  // The machine on values
  // ---------------------------------------------------------------------------

  /** One level of the stack: `tags[i]`, `keys[i]` and the list held by `tails[i]`. */
  datatype Frame = Frame(tag: Tag, key: Option<Text>, nodes: seq<Node>)

  datatype State =
    | Running(stack: seq<Frame>, separator: bool)
    | Done(v: Json)
    | Failed(error: Errno)

  datatype Outcome = Ok(v: Json, used: nat) | Error(error: Errno)

  const START: State := Running([], true)

  /** Outside every container, `separator` is true, so that ':' and ',' never look at an empty stack. */
  predicate Valid(m: State) {
    m.Running? ==> |m.stack| <= STACK_SIZE && (m.stack == [] ==> m.separator)
  }

  function Top(stack: seq<Frame>): Frame
    requires stack != []
  {
    stack[|stack| - 1]
  }

  function Below(stack: seq<Frame>): seq<Frame>
    requires stack != []
  {
    stack[..|stack| - 1]
  }

  /** A complete value `v` arrives. */
  function Arrive(stack: seq<Frame>, v: Json): (m: State)
    requires |stack| <= STACK_SIZE
    ensures Valid(m)
  {
    if stack == [] then Done(v)
    else
      var f := Top(stack);
      if f.tag == ObjectTag && f.key == None then
        if v.Atomic? && v.atom.String? then Running(Below(stack) + [f.(key := Some(v.atom.s))], false)
        else Failed(UNQUOTED_KEY)
      else
        Running(Below(stack) + [Frame(f.tag, None, f.nodes + [Node(f.key, v)])], false)
  }

  function Step(m: State, t: Token): (r: State)
    requires m.Running? && Valid(m)
    ensures Valid(r)
  {
    match t
    case Scalar(a) => Arrive(m.stack, Atomic(a))
    case Open(tag) =>
      if |m.stack| == STACK_SIZE then Failed(STACK_OVERFLOW)
      else Running(m.stack + [Frame(tag, None, [])], true)
    case Close(tag) =>
      if m.stack == [] then Failed(STACK_UNDERFLOW)
      else if Top(m.stack).tag != tag then Failed(MISMATCH_BRACKET)
      else if tag == ObjectTag && Top(m.stack).key != None then Failed(UNEXPECTED_CHARACTER)
      else Arrive(Below(m.stack), Container(tag, Top(m.stack).nodes))
    case Colon =>
      if m.separator || Top(m.stack).key == None then Failed(UNEXPECTED_CHARACTER) else m.(separator := true)
    case Comma =>
      if m.separator || Top(m.stack).key != None then Failed(UNEXPECTED_CHARACTER) else m.(separator := true)
    case Bad(e) => Failed(e)
  }

  /** The machine on a token sequence, of which it has used `used` tokens before. */
  function Run(m: State, ts: seq<Token>, used: nat): Outcome
    requires Valid(m)
    decreases |ts|
  {
    match m
    case Done(v) => Ok(v, used)
    case Failed(e) => Error(e)
    case Running(_, _) => if ts == [] then Error(BREAKING_BAD) else Run(Step(m, ts[0]), ts[1..], used + 1)
  }

  // ---------------------------------------------------------------------------
  // The grammar
  // ---------------------------------------------------------------------------

  /** A derivation: a value with a record of which optional separators are present. */
  datatype Syntax = Leaf(atom: Atom) | Group(tag: Tag, parts: seq<Part>)

  datatype Part = Part(key: Option<Text>, colon: bool, value: Syntax, comma: bool)

  ghost predicate Grammatical(d: Syntax) {
    match d
    case Leaf(_) => true
    case Group(tag, parts) => forall p | p in parts :: HasKey(tag, p.key, p.colon) && Grammatical(p.value)
  }

  /** Exactly the entries of an object have a key, and a colon can only follow a key. */
  predicate HasKey(tag: Tag, key: Option<Text>, colon: bool) {
    (key.Some? <==> tag == ObjectTag) && (colon ==> key.Some?)
  }

  function Yield(d: Syntax): (ts: seq<Token>)
    ensures 0 < |ts|
  {
    match d
    case Leaf(a) => [Scalar(a)]
    case Group(tag, parts) => [Open(tag)] + YieldParts(parts) + [Close(tag)]
  }

  function YieldParts(parts: seq<Part>): seq<Token> {
    if parts == [] then []
    else YieldParts(parts[..|parts| - 1]) + YieldPart(parts[|parts| - 1])
  }

  function YieldPart(p: Part): seq<Token> {
    YieldKey(p.key, p.colon) + Yield(p.value) + YieldIf(p.comma, Comma)
  }

  function YieldKey(key: Option<Text>, colon: bool): seq<Token> {
    (if key.Some? then [Scalar(String(key.value))] else []) + YieldIf(colon, Colon)
  }

  function YieldIf(present: bool, t: Token): seq<Token> {
    if present then [t] else []
  }

  function Tree(d: Syntax): Json {
    match d
    case Leaf(a) => Atomic(a)
    case Group(tag, parts) => Container(tag, TreeParts(parts))
  }

  function TreeParts(parts: seq<Part>): (nodes: seq<Node>)
    ensures |nodes| == |parts|
  {
    if parts == [] then []
    else TreeParts(parts[..|parts| - 1]) + [TreePart(parts[|parts| - 1])]
  }

  function TreePart(p: Part): Node { Node(p.key, Tree(p.value)) }

  function Depth(d: Syntax): nat {
    match d
    case Leaf(_) => 0
    case Group(_, parts) => 1 + DepthParts(parts)
  }

  function DepthParts(parts: seq<Part>): nat {
    if parts == [] then 0
    else Max(DepthParts(parts[..|parts| - 1]), DepthPart(parts[|parts| - 1]))
  }

  function DepthPart(p: Part): nat { Depth(p.value) }

  /** The tokens `ts` derive the value `v` with at most 32 levels of nesting. */
  ghost predicate Derives(ts: seq<Token>, v: Json) {
    exists d :: Grammatical(d) && Depth(d) <= STACK_SIZE && Yield(d) == ts && Tree(d) == v
  }

  // ---------------------------------------------------------------------------
  // Completeness: the machine follows every derivation
  // ---------------------------------------------------------------------------

  lemma RunStep(m: State, t: Token, rest: seq<Token>, used: nat)
    requires Valid(m) && m.Running?
    ensures Run(m, [t] + rest, used) == Run(Step(m, t), rest, used + 1)
  {
    assert ([t] + rest)[1..] == rest;
  }

  /** On a derivation the machine does what the arrival of the derived value does. */
  lemma {:induction false} RunValue(d: Syntax, stack: seq<Frame>, sep: bool, rest: seq<Token>, used: nat)
    requires Grammatical(d) && |stack| + Depth(d) <= STACK_SIZE && Valid(Running(stack, sep))
    ensures Run(Running(stack, sep), Yield(d) + rest, used) == Run(Arrive(stack, Tree(d)), rest, used + |Yield(d)|)
    decreases d, 2
  {
    hide Run;
    var m := Running(stack, sep);
    match d
    case Leaf(a) =>
      RunStep(m, Scalar(a), rest, used);
    case Group(tag, parts) =>
      var f := Frame(tag, None, []);
      var inside := YieldParts(parts);
      var tail := [Close(tag)] + rest;
      assert Yield(d) + rest == [Open(tag)] + (inside + tail);
      RunStep(m, Open(tag), inside + tail, used);
      RunParts(tag, parts, stack, true, tail, used + 1);
      var sep' := if parts == [] then true else parts[|parts| - 1].comma;
      RunStep(Running(stack + [Frame(tag, None, TreeParts(parts))], sep'), Close(tag), rest, used + 1 + |inside|);
      assert Below(stack + [Frame(tag, None, TreeParts(parts))]) == stack;
  }

  lemma {:induction false} RunParts(
    tag: Tag, parts: seq<Part>, stack: seq<Frame>, sep: bool, rest: seq<Token>, used: nat)
    requires |stack| + 1 + DepthParts(parts) <= STACK_SIZE
    requires forall p | p in parts :: HasKey(tag, p.key, p.colon) && Grammatical(p.value)
    ensures
      var after := if parts == [] then sep else parts[|parts| - 1].comma;
      Run(Running(stack + [Frame(tag, None, [])], sep), YieldParts(parts) + rest, used)
      == Run(Running(stack + [Frame(tag, None, TreeParts(parts))], after), rest, used + |YieldParts(parts)|)
    decreases parts, 1
  {
    hide Run, Grammatical, HasKey, YieldPart, Depth, Tree;
    if parts == [] {
      assert YieldParts(parts) + rest == rest;
    } else {
      var init, p := parts[..|parts| - 1], parts[|parts| - 1];
      var ys, y := YieldParts(init), YieldPart(p);
      assert (ys + y) + rest == ys + (y + rest);
      RunParts(tag, init, stack, sep, YieldPart(p) + rest, used);
      var sep' := if init == [] then sep else init[|init| - 1].comma;
      RunPart(tag, p, stack, TreeParts(init), sep', rest, used + |YieldParts(init)|);
    }
  }

  lemma {:induction false} RunPart(
    tag: Tag, p: Part, stack: seq<Frame>, nodes: seq<Node>, sep: bool, rest: seq<Token>, used: nat)
    requires |stack| + 1 + Depth(p.value) <= STACK_SIZE
    requires HasKey(tag, p.key, p.colon) && Grammatical(p.value)
    ensures
      Run(Running(stack + [Frame(tag, None, nodes)], sep), YieldPart(p) + rest, used)
      == Run(Running(stack + [Frame(tag, None, nodes + [Node(p.key, Tree(p.value))])], p.comma),
             rest, used + |YieldPart(p)|)
    decreases p, 3
  {
    hide Run, Yield, Tree, Depth;
    var tail := YieldIf(p.comma, Comma) + rest;
    var mid := Yield(p.value) + tail;
    assert YieldPart(p) + rest == YieldKey(p.key, p.colon) + mid;
    RunKey(tag, p.key, p.colon, stack, nodes, sep, mid, used);
    var used1 := used + |YieldKey(p.key, p.colon)|;
    var sep1 := if p.key.Some? then p.colon else sep;
    RunValue(p.value, stack + [Frame(tag, p.key, nodes)], sep1, tail, used1);
    var full := stack + [Frame(tag, None, nodes + [Node(p.key, Tree(p.value))])];
    assert Below(stack + [Frame(tag, p.key, nodes)]) == stack;
    if p.comma {
      RunStep(Running(full, false), Comma, rest, used1 + |Yield(p.value)|);
    } else {
      assert tail == rest;
    }
  }

  lemma RunKey(
    tag: Tag, key: Option<Text>, colon: bool, stack: seq<Frame>, nodes: seq<Node>, sep: bool,
    rest: seq<Token>, used: nat)
    requires |stack| + 1 <= STACK_SIZE && HasKey(tag, key, colon)
    ensures
      Run(Running(stack + [Frame(tag, None, nodes)], sep), YieldKey(key, colon) + rest, used)
      == Run(Running(stack + [Frame(tag, key, nodes)], if key.Some? then colon else sep),
             rest, used + |YieldKey(key, colon)|)
  {
    hide Run;
    if key.Some? {
      var tail := YieldIf(colon, Colon) + rest;
      assert YieldKey(key, colon) + rest == [Scalar(String(key.value))] + tail;
      RunStep(Running(stack + [Frame(tag, None, nodes)], sep), Scalar(String(key.value)), tail, used);
      assert Below(stack + [Frame(tag, None, nodes)]) == stack;
      if colon {
        RunStep(Running(stack + [Frame(tag, key, nodes)], false), Colon, rest, used + 1);
      } else {
        assert tail == rest;
      }
    } else {
      assert YieldKey(key, colon) + rest == rest;
    }
  }

  // ---------------------------------------------------------------------------
  // Soundness: a run is a derivation in the making
  // ---------------------------------------------------------------------------

  /** A container that is still open: its entries so far, and the key that waits for a value. */
  datatype Level = Level(tag: Tag, parts: seq<Part>, key: Option<Text>, colon: bool)

  ghost predicate GrammaticalParts(tag: Tag, parts: seq<Part>) {
    forall p | p in parts :: HasKey(tag, p.key, p.colon) && Grammatical(p.value)
  }

  ghost function YieldLevel(l: Level): seq<Token> {
    [Open(l.tag)] + YieldParts(l.parts) + YieldKey(l.key, l.colon)
  }

  ghost function YieldLevels(ls: seq<Level>): seq<Token> {
    if ls == [] then [] else YieldLevels(ls[..|ls| - 1]) + YieldLevel(ls[|ls| - 1])
  }

  ghost predicate MatchesFrame(l: Level, f: Frame, height: nat) {
    && f == Frame(l.tag, l.key, TreeParts(l.parts))
    && (l.key.Some? ==> l.tag == ObjectTag) && (l.colon ==> l.key.Some?)
    && GrammaticalParts(l.tag, l.parts)
    && height + DepthParts(l.parts) <= STACK_SIZE
  }

  ghost predicate MatchesStack(ls: seq<Level>, stack: seq<Frame>) {
    |ls| == |stack| && forall i | 0 <= i < |ls| :: MatchesFrame(ls[i], stack[i], i + 1)
  }

  /** When `separator` is false the innermost level ends with a value or a key without its separator. */
  ghost predicate Matches(ls: seq<Level>, m: State)
    requires m.Running?
  {
    && MatchesStack(ls, m.stack)
    && (ls != [] && !m.separator ==>
          var l := ls[|ls| - 1];
          if l.key.Some? then !l.colon else l.parts != [] && !l.parts[|l.parts| - 1].comma)
  }

  lemma YieldLevelsSnoc(ls: seq<Level>, l: Level)
    ensures YieldLevels(ls + [l]) == YieldLevels(ls) + YieldLevel(l)
  {
    assert (ls + [l])[..|ls|] == ls;
  }

  lemma PartsSnoc(parts: seq<Part>, p: Part)
    ensures YieldParts(parts + [p]) == YieldParts(parts) + YieldPart(p)
    ensures TreeParts(parts + [p]) == TreeParts(parts) + [TreePart(p)]
    ensures DepthParts(parts + [p]) == Max(DepthParts(parts), DepthPart(p))
  {
    assert (parts + [p])[..|parts|] == parts;
  }

  /** The innermost level after a derivation `d` of the value that arrives. */
  ghost function Extend(l: Level, d: Syntax): Level {
    if l.tag == ObjectTag && l.key == None then
      l.(key := if d.Leaf? && d.atom.String? then Some(d.atom.s) else None)
    else
      Level(l.tag, l.parts + [Part(l.key, l.colon, d, false)], None, false)
  }

  /** The frame after the arrival of `v`. */
  function ExtendFrame(f: Frame, v: Json): Frame {
    if f.tag == ObjectTag && f.key == None then
      f.(key := if v.Atomic? && v.atom.String? then Some(v.atom.s) else None)
    else Frame(f.tag, None, f.nodes + [Node(f.key, v)])
  }

  ghost predicate AwaitsKey(l: Level) { l.tag == ObjectTag && l.key == None }

  lemma ExtendYields(l: Level, d: Syntax)
    requires (l.key.Some? ==> l.tag == ObjectTag) && (l.colon ==> l.key.Some?)
    requires AwaitsKey(l) ==> d.Leaf? && d.atom.String?
    ensures YieldLevel(Extend(l, d)) == YieldLevel(l) + Yield(d)
  {
    hide YieldParts;
    if !AwaitsKey(l) {
      hide Yield;
      var p := Part(l.key, l.colon, d, false);
      PartsSnoc(l.parts, p);
      assert YieldPart(p) == YieldKey(l.key, l.colon) + Yield(d);
      assert YieldLevel(Extend(l, d)) == YieldLevel(l) + Yield(d);
    }
  }

  lemma ExtendMatches(l: Level, d: Syntax, f: Frame, height: nat)
    requires MatchesFrame(l, f, height) && Grammatical(d) && height + Depth(d) <= STACK_SIZE
    ensures MatchesFrame(Extend(l, d), ExtendFrame(f, Tree(d)), height)
  {
    if !AwaitsKey(l) {
      hide Grammatical, Tree, Depth, YieldParts, TreeParts, DepthParts;
      var p := Part(l.key, l.colon, d, false);
      PartsSnoc(l.parts, p);
      assert TreePart(p) == Node(l.key, Tree(d));
      assert GrammaticalParts(l.tag, l.parts + [p]);
    }
  }

  /** A value that arrives extends the innermost frame, unless it would be a key that is not a string. */
  lemma ArriveIs(stack: seq<Frame>, v: Json)
    requires |stack| <= STACK_SIZE
    ensures
      var r := Arrive(stack, v);
      && (r.Done? <==> stack == []) && (r.Done? ==> r.v == v)
      && (r.Running? ==>
            && r.stack == Below(stack) + [ExtendFrame(Top(stack), v)] && !r.separator
            && (Top(stack).tag == ObjectTag && Top(stack).key == None ==> v.Atomic? && v.atom.String?))
  {
  }

  lemma KeyIsString(l: Level, f: Frame, d: Syntax)
    requires f.tag == l.tag && f.key == l.key
    requires f.tag == ObjectTag && f.key == None ==> Tree(d).Atomic? && Tree(d).atom.String?
    ensures AwaitsKey(l) ==> d.Leaf? && d.atom.String?
  {
  }

  lemma ExtendEnds(l: Level, d: Syntax)
    requires (l.colon ==> l.key.Some?) && (AwaitsKey(l) ==> d.Leaf? && d.atom.String?)
    ensures
      var l' := Extend(l, d);
      if l'.key.Some? then !l'.colon else l'.parts != [] && !l'.parts[|l'.parts| - 1].comma
  {
  }

  lemma ArriveSound(ls: seq<Level>, stack: seq<Frame>, d: Syntax) returns (ls': seq<Level>)
    requires MatchesStack(ls, stack) && Grammatical(d) && |stack| + Depth(d) <= STACK_SIZE
    ensures
      var r := Arrive(stack, Tree(d));
      && (r.Running? ==> Matches(ls', r) && YieldLevels(ls') == YieldLevels(ls) + Yield(d))
      && (r.Done? ==> ls == [] && r.v == Tree(d))
  {
    hide Grammatical, Yield, Depth, YieldLevel, YieldLevels, MatchesFrame, Arrive, Tree, Extend, ExtendFrame, AwaitsKey;
    ls' := [];
    var r := Arrive(stack, Tree(d));
    ArriveIs(stack, Tree(d));
    if r.Running? {
      var low, l, f := ls[..|ls| - 1], ls[|ls| - 1], Top(stack);
      assert MatchesFrame(l, f, |stack|);
      MatchedLevel(l, f, |stack|);
      KeyIsString(l, f, d);
      ExtendYields(l, d);
      ExtendMatches(l, d, f, |stack|);
      ExtendEnds(l, d);
      ls' := low + [Extend(l, d)];
      YieldLevelsSnoc(low, l);
      YieldLevelsSnoc(low, Extend(l, d));
      assert low + [l] == ls;
    }
  }

  lemma MatchedLevel(l: Level, f: Frame, height: nat)
    requires MatchesFrame(l, f, height)
    ensures f.tag == l.tag && f.key == l.key && f.nodes == TreeParts(l.parts)
    ensures (l.key.Some? ==> l.tag == ObjectTag) && (l.colon ==> l.key.Some?)
    ensures GrammaticalParts(l.tag, l.parts) && height + DepthParts(l.parts) <= STACK_SIZE
  {
  }

  ghost predicate Extends(ls: seq<Level>, m: State, t: Token, ls': seq<Level>, d: Syntax)
    requires m.Running? && Valid(m)
  {
    var r := Step(m, t);
    && (r.Running? ==> Matches(ls', r) && YieldLevels(ls') == YieldLevels(ls) + [t])
    && (r.Done? ==> Grammatical(d) && Depth(d) <= STACK_SIZE && Yield(d) == YieldLevels(ls) + [t] && Tree(d) == r.v)
  }

  /** One step extends the derivation by the token it consumes. */
  lemma StepSound(ls: seq<Level>, m: State, t: Token) returns (ls': seq<Level>, d: Syntax)
    requires m.Running? && Valid(m) && Matches(ls, m)
    ensures Extends(ls, m, t, ls', d)
  {
    ls', d := [], Leaf(Null);
    if t.Close? {
      ls', d := CloseSound(ls, m, t);
    } else if t.Scalar? {
      d := Leaf(t.atom);
      ls' := ArriveSound(ls, m.stack, d);
    } else if !Step(m, t).Failed? {
      hide Grammatical, Yield, Depth, Tree;
      ls' := SeparatorSound(ls, m, t);
    }
  }

  lemma CloseSound(ls: seq<Level>, m: State, t: Token) returns (ls': seq<Level>, d: Syntax)
    requires m.Running? && Valid(m) && Matches(ls, m) && t.Close?
    ensures Extends(ls, m, t, ls', d)
  {
    hide MatchesFrame, Arrive, YieldParts, TreeParts, DepthParts, Matches;
    ls', d := [], Leaf(Null);
    if !Step(m, t).Failed? {
      assert MatchesStack(ls, m.stack) by { MatchesHasStack(ls, m); }
      var low, l := ls[..|ls| - 1], ls[|ls| - 1];
      MatchedLevel(l, Top(m.stack), |m.stack|);
      d := Group(t.tag, l.parts);
      assert YieldLevel(l) + [t] == Yield(d);
      ls' := ArriveSound(low, Below(m.stack), d);
      assert YieldLevels(ls) == YieldLevels(low) + YieldLevel(l);
    }
  }

  lemma MatchesHasStack(ls: seq<Level>, m: State)
    requires m.Running? && Matches(ls, m)
    ensures MatchesStack(ls, m.stack)
  {
  }

  lemma EmptyLevel(tag: Tag, height: nat)
    requires height <= STACK_SIZE
    ensures
      var l := Level(tag, [], None, false);
      YieldLevel(l) == [Open(tag)] && MatchesFrame(l, Frame(tag, None, []), height)
  {
    hide YieldParts, TreeParts, DepthParts, GrammaticalParts;
    EmptyParts(tag);
  }

  lemma SeparatorSound(ls: seq<Level>, m: State, t: Token) returns (ls': seq<Level>)
    requires m.Running? && Valid(m) && Matches(ls, m) && (t.Open? || t.Colon? || t.Comma?)
    requires Step(m, t).Running?
    ensures Matches(ls', Step(m, t)) && YieldLevels(ls') == YieldLevels(ls) + [t]
  {
    hide YieldLevel, YieldLevels, MatchesFrame;
    if t.Open? {
      var l := Level(t.tag, [], None, false);
      EmptyLevel(t.tag, |m.stack| + 1);
      ls' := ls + [l];
      YieldLevelsSnoc(ls, l);
    } else {
      var low, l, f := ls[..|ls| - 1], ls[|ls| - 1], Top(m.stack);
      assert MatchesFrame(l, f, |m.stack|);
      MatchedLevel(l, f, |m.stack|);
      var l' := l.(colon := true);
      if t.Comma? {
        l' := CommaLevel(l);
      } else {
        ColonLevel(l);
      }
      assert MatchesFrame(l', f, |m.stack|);
      ls' := low + [l'];
      YieldLevelsSnoc(low, l);
      YieldLevelsSnoc(low, l');
      assert low + [l] == ls;
    }
  }

  lemma EmptyParts(tag: Tag)
    ensures YieldParts([]) == [] && TreeParts([]) == [] && DepthParts([]) == 0 && GrammaticalParts(tag, [])
  {
  }

  lemma CommaLevel(l: Level) returns (l': Level)
    requires l.key == None && !l.colon && l.parts != [] && !l.parts[|l.parts| - 1].comma
    ensures YieldLevel(l') == YieldLevel(l) + [Comma]
    ensures forall f, h :: MatchesFrame(l, f, h) ==> MatchesFrame(l', f, h)
    ensures l'.key == None
  {
    hide YieldPart, TreePart, DepthPart, Grammatical, YieldParts, TreeParts, DepthParts;
    var init, p := l.parts[..|l.parts| - 1], l.parts[|l.parts| - 1];
    var p' := p.(comma := true);
    l' := l.(parts := init + [p']);
    assert init + [p] == l.parts;
    PartsSnoc(init, p);
    PartsSnoc(init, p');
    CommaPart(p);
  }

  lemma CommaPart(p: Part)
    requires !p.comma
    ensures
      var p' := p.(comma := true);
      YieldPart(p') == YieldPart(p) + [Comma] && TreePart(p') == TreePart(p) && DepthPart(p') == DepthPart(p)
  {
    hide Yield, Tree, Depth, YieldKey;
  }

  lemma ColonLevel(l: Level)
    requires l.key.Some? && !l.colon
    ensures YieldLevel(l.(colon := true)) == YieldLevel(l) + [Colon]
    ensures forall f, h :: MatchesFrame(l, f, h) ==> MatchesFrame(l.(colon := true), f, h)
  {
    hide YieldParts, TreeParts, DepthParts, GrammaticalParts;
  }

  lemma {:induction false} RunSound(ls: seq<Level>, m: State, ts: seq<Token>, used: nat) returns (d: Syntax)
    requires m.Running? && Valid(m) && Matches(ls, m)
    ensures
      var r := Run(m, ts, used);
      r.Ok? ==>
        && used < r.used <= used + |ts|
        && Grammatical(d) && Depth(d) <= STACK_SIZE && Tree(d) == r.v
        && Yield(d) == YieldLevels(ls) + ts[..r.used - used]
    decreases |ts|
  {
    hide Step, Matches, Grammatical, Depth, Tree, Yield, YieldLevels;
    d := Leaf(Null);
    if ts != [] {
      var ls', d0 := StepSound(ls, m, ts[0]);
      var m' := Step(m, ts[0]);
      if m'.Done? {
        d := d0;
        assert ts[..1] == [ts[0]];
      } else if m'.Running? {
        d := RunSound(ls', m', ts[1..], used + 1);
        var r := Run(m, ts, used);
        if r.Ok? {
          assert [ts[0]] + ts[1..][..r.used - used - 1] == ts[..r.used - used];
        }
      }
    }
  }

  lemma AcceptedIsDerived(ts: seq<Token>, v: Json, k: nat)
    requires Run(START, ts, 0) == Ok(v, k)
    ensures k <= |ts| && Derives(ts[..k], v)
  {
    hide Run, Grammatical, Yield, Tree, Depth;
    var d := RunSound([], START, ts, 0);
    assert Yield(d) == ts[..k];
  }

  lemma DerivedIsAccepted(ts: seq<Token>, v: Json, k: nat)
    requires k <= |ts| && Derives(ts[..k], v)
    ensures Run(START, ts, 0) == Ok(v, k)
  {
    hide Grammatical, Yield, Tree, Depth;
    var d :| Grammatical(d) && Depth(d) <= STACK_SIZE && Yield(d) == ts[..k] && Tree(d) == v;
    assert Yield(d) + ts[k..] == ts;
    RunValue(d, [], true, ts[k..], 0);
  }

  /** The machine accepts a value after `k` tokens exactly when those tokens derive it. */
  lemma AcceptsExactlyDerivations(ts: seq<Token>, v: Json, k: nat)
    ensures Run(START, ts, 0) == Ok(v, k) <==> k <= |ts| && Derives(ts[..k], v)
  {
    hide Run, Derives;
    if Run(START, ts, 0) == Ok(v, k) {
      AcceptedIsDerived(ts, v, k);
    }
    if k <= |ts| && Derives(ts[..k], v) {
      DerivedIsAccepted(ts, v, k);
    }
  }
}
