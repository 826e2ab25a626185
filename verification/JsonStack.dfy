/**
 The stack of `jsonParse` (core/gason.cpp) on the heap: 32 levels in arrays, strings and keys as pointers
 into the text, and containers as linked lists. Each token changes it as the machine of `JsonMachine` does.
 */
module JsonStack {
  import opened Bits
  import opened Common
  import opened JsonHeap
  import opened JsonList
  import opened JsonMachine
  import opened JsonMemory
  import Alloc = JsonAllocator

  datatype Verdict = Continue | Return(o: Item) | Reject(error: Errno)

  /** The world is that of the lists on the heap. */
  ghost predicate Covers(w: World, lists: Lists<Entry>)
    reads lists, lists.Nodes()
  {
    w.heap == lists.Cells() && w.closed == lists.Cells().Keys - (set id | id in lists.open)
  }

  class Stack {
    const lists: Lists<Entry>
    const tags: array<Tag>
    const keys: array<Option<nat>>
    var separator: bool
    ghost var shown: map<nat, Text>

    ghost predicate Shape()
      reads this, lists
    {
      tags.Length == 32 && keys.Length == 32 && -1 <= lists.pos < 32 && |lists.open| == lists.pos + 1
    }

    ghost function Picture(): Picture
      reads this, tags, keys, lists, lists.Nodes()
      requires Shape()
    {
      var n := lists.pos + 1;
      JsonHeap.Picture(lists.Cells(), lists.open, tags[..n], keys[..n], shown, lists.limit)
    }

    /** The heap is in order, whether or not `separator` has been set. */
    ghost predicate Ready()
      reads this, tags, keys, lists, lists.tails, lists.Nodes()
    {
      Shape() && lists.Valid() && GoodPicture(Picture())
    }

    ghost predicate Valid()
      reads this, tags, keys, lists, lists.tails, lists.Nodes()
    {
      Ready() && (lists.pos == -1 ==> separator)
    }

    ghost function Frames(): (stack: seq<Frame>)
      reads this, tags, keys, lists, lists.tails, lists.Nodes()
      requires Ready()
      ensures |stack| == lists.pos + 1
    {
      FramesOf(Picture())
    }

    ghost function Machine(): (m: State)
      reads this, tags, keys, lists, lists.tails, lists.Nodes()
      requires Valid()
      ensures m.Running? && JsonMachine.Valid(m)
    {
      Running(Frames(), separator)
    }

    /** The value stands for `v`, and may be stored in the innermost list. */
    ghost predicate Holds(o: Item, v: Json)
      reads this, tags, keys, lists, lists.tails, lists.Nodes()
    {
      Ready() && Good(WorldOf(Picture()), Floor(Picture()), o) && TreeOf(WorldOf(Picture()), Floor(Picture()), o) == v
    }

    constructor ()
      ensures Valid() && Machine() == START && shown == map[] && lists.Cells() == map[]
      ensures fresh(tags) && fresh(keys) && fresh(lists) && fresh(lists.tails) && lists.Nodes() == {}
    {
      lists := new Lists();
      tags := new Tag[32](_ => ArrayTag);
      keys := new Option<nat>[32](_ => None);
      separator, shown := true, map[];
      new;
      NothingOpen(Picture());
    }

    /** The verdict and the new state are those of the machine's next state `m`. */
    ghost predicate Follows(m: State, verdict: Verdict)
      reads this, tags, keys, lists, lists.tails, lists.Nodes()
    {
      match m
      case Running(stack, sep) => verdict == Continue && Valid() && Machine() == Running(stack, sep)
      case Done(v) => verdict.Return? && lists.pos == -1 && Holds(verdict.o, v)
      case Failed(e) => verdict == Reject(e)
    }

    twostate predicate OnlyNewNodes()
      reads this, lists
    {
      old(lists.Nodes()) <= lists.Nodes() && forall n | n in lists.Nodes() && n !in old(lists.Nodes()) :: fresh(n)
    }

    /** Every node lives in a block of its own. */
    ghost predicate Settled(memory: Memory)
      reads lists, lists.Nodes(), memory, memory.allocator, memory.allocator.nodes
    {
      memory.Valid() && Housed(lists.Cells(), memory.blocks)
    }

    /** The verdict is that of the machine's next state `m`, unless `malloc` has failed. */
    ghost predicate Obeys(m: State, verdict: Verdict, failed: bool)
      reads this, tags, keys, lists, lists.tails, lists.Nodes()
    {
      if failed then verdict == Reject(ALLOCATION_FAILURE) else Follows(m, verdict)
    }

    lemma Bounds()
      requires Ready()
      ensures tags.Length == 32 && keys.Length == 32 && -1 <= lists.pos < 32
    {
    }

    /** What a value refers to, and where the numbers of its lists start. */
    lemma HeldTree(o: Item, v: Json) returns (w: World, lo: nat)
      requires Holds(o, v)
      ensures lists.Valid() && Covers(w, lists) && w.shown == shown && Good(w, lo, o) && TreeOf(w, lo, o) == v
    {
      w, lo := WorldOf(Picture()), Floor(Picture());
    }

    method SetSeparator(value: bool)
      requires Ready()
      modifies this`separator
      ensures separator == value && Ready() && Frames() == old(Frames()) && Picture() == old(Picture())
      ensures lists.Cells() == old(lists.Cells())
    {
      ghost var p := Picture();
      hide GoodPicture, FramesOf;
      separator := value;
      assert lists.Cells() == p.heap;
      assert Picture() == p;
    }

    /** An opening bracket. */
    method Push(tag: Tag, ghost blocks: seq<Alloc.Block>) returns (verdict: Verdict)
      requires Valid() && Housed(lists.Cells(), blocks)
      modifies this`separator, tags, keys, lists, lists.tails
      ensures Follows(Step(old(Machine()), Open(tag)), verdict)
      ensures lists.Nodes() == old(lists.Nodes()) && Housed(lists.Cells(), blocks)
    {
      hide Ready, Frames, Housed;
      Bounds();
      if lists.pos + 1 == 32 {
        return Reject(STACK_OVERFLOW);
      }
      OpenTop(tag, blocks);
      SetSeparator(true);
      return Continue;
    }

    method OpenTop(tag: Tag, ghost blocks: seq<Alloc.Block>)
      requires Ready() && lists.pos < 31 && Housed(lists.Cells(), blocks)
      modifies tags, keys, lists, lists.tails
      ensures Ready() && lists.Nodes() == old(lists.Nodes()) && lists.pos == old(lists.pos) + 1
      ensures Frames() == old(Frames()) + [Frame(tag, None, [])] && Housed(lists.Cells(), blocks)
    {
      hide GoodPicture, Levels, FramesOf, Housed;
      ghost var p := Picture();
      var id := OpenLevel(tag);
      OpenKeeps(p, tag, id);
      HousedOpened(p.heap, blocks, id);
    }

    method OpenLevel(tag: Tag) returns (ghost id: nat)
      requires Shape() && lists.Valid() && lists.pos < 31
      modifies tags, keys, lists, lists.tails
      ensures Shape() && lists.Valid() && lists.Nodes() == old(lists.Nodes()) && lists.pos == old(lists.pos) + 1
      ensures id == old(lists.limit) && id !in old(lists.Cells()) && Picture() == Opened(old(Picture()), tag, id)
    {
      ghost var p := Picture();
      hide Lists.Valid;
      id := lists.Open();
      SetLevel(tag);
      assert tags[..lists.pos + 1] == p.tags + [tag] && keys[..lists.pos + 1] == p.keys + [None];
    }

    /** The innermost level gets a tag, and no key. */
    method SetLevel(tag: Tag)
      requires Shape() && 0 <= lists.pos && lists.Valid()
      modifies tags, keys
      ensures lists.Valid() && lists.Cells() == old(lists.Cells())
      ensures tags[..] == old(tags[..])[lists.pos := tag] && keys[..] == old(keys[..])[lists.pos := None]
    {
      tags[lists.pos] := tag;
      keys[lists.pos] := None;
    }

    /** A closing bracket. */
    method Pop(tag: Tag, memory: Memory) returns (verdict: Verdict)
      requires Valid() && Settled(memory)
      modifies this`separator, keys, lists, lists.tails, lists.Nodes()
      modifies memory, memory.allocator, memory.Zones()
      ensures Obeys(Step(old(Machine()), Close(tag)), verdict, memory.failures != old(memory.failures))
      ensures OnlyNewNodes() && Settled(memory) && memory.OnlyNewZones()
    {
      hide Ready, Frames, Arrive, Housed, Memory.Valid, Follows;
      Bounds();
      if lists.pos == -1 || tags[lists.pos] != tag || (tag == ObjectTag && keys[lists.pos] != None) {
        verdict := RejectClose(tag);
        return;
      }
      TopLevel();
      var head, v := CloseTop(tag);
      verdict := Store(ListItem(tag, head), v, memory);
    }

    /** The three errors of a closing bracket. */
    method RejectClose(tag: Tag) returns (verdict: Verdict)
      requires Valid()
      requires lists.pos == -1 || tags[lists.pos] != tag || (tag == ObjectTag && keys[lists.pos] != None)
      ensures Follows(Step(old(Machine()), Close(tag)), verdict)
    {
      hide Ready, Frames, Arrive;
      Bounds();
      if lists.pos == -1 {
        return Reject(STACK_UNDERFLOW);
      }
      TopLevel();
      if tags[lists.pos] != tag {
        return Reject(MISMATCH_BRACKET);
      }
      return Reject(UNEXPECTED_CHARACTER);
    }

    /** `listToValue` on the innermost list. */
    method CloseTop(tag: Tag) returns (head: ListNode?<Entry>, ghost v: Json)
      requires Ready() && 0 <= lists.pos && tags[lists.pos] == tag
      modifies lists, lists.Nodes()
      ensures Ready() && Frames() == old(Below(Frames())) && lists.Nodes() == old(lists.Nodes())
      ensures lists.Cells() == old(lists.Cells())
      ensures v == Container(tag, old(Top(Frames()).nodes)) && Holds(ListItem(tag, head), v)
    {
      hide GoodPicture, Levels, FramesOf, WorldOf, Good, TreeOf, Floor, Popped;
      ghost var p := Picture();
      v := Container(tag, Top(Frames()).nodes);
      TopTag(p);
      head := CloseLevel();
      PopKeeps(p, head);
    }

    method CloseLevel() returns (head: ListNode?<Entry>)
      requires Shape() && lists.Valid() && 0 <= lists.pos && Levels(Picture())
      modifies lists, lists.Nodes()
      ensures Shape() && lists.Valid() && lists.Nodes() == old(lists.Nodes()) && lists.Cells() == old(lists.Cells())
      ensures Picture() == Popped(old(Picture()))
      ensures
        var id := old(lists.open[lists.pos]);
        var cells := old(lists.Cells())[id];
        head == (if cells == [] then null else cells[0].node) && (head != null ==> head.home == id)
    {
      hide Levels;
      ghost var p := Picture();
      ghost var id;
      head, id := lists.Close();
      assert tags[..lists.pos + 1] == p.tags[..lists.pos + 1] && keys[..lists.pos + 1] == p.keys[..lists.pos + 1];
    }

    /** A complete value arrives, which stands for `v`. */
    method Store(o: Item, ghost v: Json, memory: Memory) returns (verdict: Verdict)
      requires Holds(o, v) && Settled(memory)
      modifies this`separator, keys, lists, lists.tails, lists.Nodes()
      modifies memory, memory.allocator, memory.Zones()
      ensures Obeys(Arrive(old(Frames()), v), verdict, memory.failures != old(memory.failures))
      ensures OnlyNewNodes() && Settled(memory) && memory.OnlyNewZones()
    {
      hide Ready, Frames, Good, TreeOf, Housed, Memory.Valid;
      Bounds();
      HeldValue(o, v);
      if 0 <= lists.pos {
        TopLevel();
      }
      SetSeparator(false);
      if lists.pos == -1 {
        return Return(o);
      }
      if tags[lists.pos] == ObjectTag && keys[lists.pos] == None {
        if !o.StringItem? {
          return Reject(UNQUOTED_KEY);
        }
        SetKey(o.at);
        return Continue;
      }
      var ok := StoreNode(o, v, memory);
      return if ok then Continue else Reject(ALLOCATION_FAILURE);
    }

    /** A node for the value: memory, and then the end of the innermost list. */
    method StoreNode(o: Item, ghost v: Json, memory: Memory) returns (ok: bool)
      requires Holds(o, v) && 0 <= lists.pos && Settled(memory)
      modifies keys, lists, lists.tails, lists.Nodes()
      modifies memory, memory.allocator, memory.Zones()
      ensures ok <==> memory.failures == old(memory.failures)
      ensures !ok ==> lists.Cells() == old(lists.Cells()) && memory.blocks == old(memory.blocks)
      ensures OnlyNewNodes() && Settled(memory) && memory.OnlyNewZones()
      ensures
        var f := old(Top(Frames()));
        ok ==> Ready() && Frames() == old(Below(Frames())) + [Frame(f.tag, None, f.nodes + [Node(f.key, v)])]
    {
      hide Ready, Frames, Holds, Housed, Memory.Valid;
      HeldBounds(o, v);
      var e := Entry(keys[lists.pos], o);
      var p := Reserve(e, v, memory);
      if p == None {
        return false;
      }
      AppendNode(e, v, memory.blocks[..|memory.blocks| - 1], memory.blocks[|memory.blocks| - 1]);
      assert memory.blocks[..|memory.blocks| - 1] + [memory.blocks[|memory.blocks| - 1]] == memory.blocks;
      return true;
    }

    lemma HeldBounds(o: Item, v: Json)
      requires Holds(o, v)
      ensures tags.Length == 32 && keys.Length == 32 && -1 <= lists.pos < 32 && Ready()
    {
    }

    /** Memory for a node; the stack is as it was. */
    method Reserve(e: Entry, ghost v: Json, memory: Memory) returns (p: Option<nat>)
      requires Holds(e.value, v) && Settled(memory)
      modifies memory, memory.allocator, memory.Zones()
      ensures memory.Valid() && memory.OnlyNewZones() && Holds(e.value, v)
      ensures Frames() == old(Frames()) && lists.Cells() == old(lists.Cells()) && lists.Nodes() == old(lists.Nodes())
      ensures p == None ==> memory.blocks == old(memory.blocks) && memory.failures == old(memory.failures) + 1
      ensures p.Some? ==>
                && memory.failures == old(memory.failures) && |memory.blocks| == |old(memory.blocks)| + 1
                && memory.blocks[..|old(memory.blocks)|] == old(memory.blocks)
                && memory.blocks[|old(memory.blocks)|].size == NodeSize(e)
    {
      hide Good, TreeOf, Housed, Memory.Valid, GoodPicture, FramesOf;
      ghost var picture := Picture();
      Sizes(e);
      p := memory.Take(NodeSize(e));
      assert lists.Cells() == picture.heap;
      assert Picture() == picture;
    }

    /** The innermost level is the top of the stack. */
    lemma TopLevel()
      requires Ready() && 0 <= lists.pos
      ensures
        var f, pos := Top(Frames()), lists.pos;
        && 0 <= pos < 32 && f.tag == tags[pos] && (f.key == None <==> keys[pos] == None)
        && (tags[pos] == ArrayTag ==> keys[pos] == None)
    {
      hide WorldOf, NodesOf, GoodCells;
      assert GoodLevel(Picture(), lists.pos);
    }

    lemma HeldValue(o: Item, v: Json)
      requires Holds(o, v)
      ensures o.StringItem? <==> v.Atomic? && v.atom.String?
      ensures o.StringItem? ==> o.at in shown && v.atom.s == shown[o.at]
    {
    }

    method SetKey(at: nat)
      requires Ready() && 0 <= lists.pos && tags[lists.pos] == ObjectTag && at in shown
      modifies keys
      ensures Ready() && Frames() == old(Below(Frames()) + [Top(Frames()).(key := Some(shown[at]))])
    {
      ghost var p := Picture();
      assert TextAt(WorldOf(p), at) == shown[at];
      hide GoodPicture, Levels, FramesOf, WorldOf, Good, TreeOf, Floor;
      KeyKeeps(p, at);
      keys[lists.pos] := Some(at);
      assert Picture() == Keyed(p, at);
    }

    /** `insertAfter` a new node; in an object it takes the pending key. */
    method AppendNode(e: Entry, ghost v: Json, ghost blocks: seq<Alloc.Block>, ghost b: Alloc.Block)
      requires Holds(e.value, v) && 0 <= lists.pos && e.key == keys[lists.pos]
      requires Housed(lists.Cells(), blocks) && b.size == NodeSize(e)
      modifies keys, lists, lists.tails, lists.Nodes()
      ensures Ready() && OnlyNewNodes() && Housed(lists.Cells(), blocks + [b])
      ensures
        var f := old(Top(Frames()));
        Frames() == old(Below(Frames())) + [Frame(f.tag, None, f.nodes + [Node(f.key, v)])]
    {
      hide GoodPicture, Levels, FramesOf, WorldOf, Good, TreeOf, Floor, Housed;
      ghost var p := Picture();
      var node := AppendLevel(e, |blocks|);
      StoreKeeps(p, node, e.value);
      HousedSnoc(p.heap, blocks, p.open[|p.open| - 1], Cell(node, e), b);
    }

    method AppendLevel(e: Entry, ghost block: nat) returns (node: ListNode<Entry>)
      requires Shape() && lists.Valid() && 0 <= lists.pos && Levels(Picture()) && e.key == keys[lists.pos]
      modifies keys, lists, lists.tails, lists.Nodes()
      ensures Shape() && lists.Valid() && fresh(node) && lists.Nodes() == old(lists.Nodes()) + {node}
      ensures node.block == block && Picture() == Stored(old(Picture()), node, e.value)
    {
      hide Levels;
      ghost var p := Picture();
      ghost var last, id := lists.pos, lists.open[lists.pos];
      hide Lists.Valid;
      assert p.open[|p.open| - 1] == id && p.keys[last] == keys[last];
      node := lists.Append(e, block);
      assert lists.pos == last && lists.Cells() == p.heap[id := p.heap[id] + [Cell(node, e)]];
      ClearKey();
      assert keys[..last + 1] == p.keys[last := None];
    }

    method ClearKey()
      requires Shape() && 0 <= lists.pos && lists.Valid()
      modifies keys
      ensures lists.Valid() && lists.Cells() == old(lists.Cells()) && keys[..] == old(keys[..])[lists.pos := None]
    {
      keys[lists.pos] := None;
    }

    /** A colon or a comma. */
    method Separate(t: Token) returns (verdict: Verdict)
      requires Valid() && (t.Colon? || t.Comma?)
      modifies this`separator
      ensures Follows(Step(old(Machine()), t), verdict)
    {
      hide Ready, Frames;
      Bounds();
      if 0 <= lists.pos {
        TopLevel();
      }
      if separator || (if t.Colon? then keys[lists.pos] == None else keys[lists.pos] != None) {
        return Reject(UNEXPECTED_CHARACTER);
      }
      SetSeparator(true);
      return Continue;
    }

    /** The `switch` on a token and, when a value is complete, what follows it. A string is at `at`. */
    method Accept(t: Token, at: nat, memory: Memory) returns (verdict: Verdict)
      requires Valid() && Settled(memory)
      requires t.Scalar? && t.atom.String? ==> at in shown && shown[at] == t.atom.s
      modifies this`separator, tags, keys, lists, lists.tails, lists.Nodes()
      modifies memory, memory.allocator, memory.Zones()
      ensures Obeys(Step(old(Machine()), t), verdict, memory.failures != old(memory.failures))
      ensures OnlyNewNodes() && Settled(memory) && memory.OnlyNewZones()
    {
      hide Ready, Frames, Arrive, Follows, Housed, Memory.Valid;
      match t {
        case Scalar(a) =>
          HoldsAtom(a, at);
          verdict := Store(if a.String? then StringItem(at) else PlainItem(a), Atomic(a), memory);
        case Close(tag) => verdict := Pop(tag, memory);
        case Open(tag) => verdict := Push(tag, memory.blocks);
        case Colon => verdict := Separate(t);
        case Comma => verdict := Separate(t);
        case Bad(e) => verdict := RejectToken(e);
      }
    }

    method RejectToken(e: Errno) returns (verdict: Verdict)
      ensures Follows(Failed(e), verdict)
    {
      return Reject(e);
    }

    lemma Sizes(e: Entry)
      ensures Alloc.Representable(NodeSize(e)) && Alloc.Round8(NodeSize(e)) == NodeSize(e)
    {
    }

    lemma HoldsAtom(a: Atom, at: nat)
      requires Ready() && (a.String? ==> at in shown && shown[at] == a.s)
      ensures Holds(if a.String? then StringItem(at) else PlainItem(a), Atomic(a))
    {
    }

    /** A new string stands in the text at `at`. */
    ghost method Show(at: nat, b: Text)
      requires Valid() && at !in shown
      modifies this`shown
      ensures Valid() && Machine() == old(Machine()) && shown == old(shown)[at := b]
    {
      hide GoodPicture, Levels, FramesOf, WorldOf, Good, TreeOf, Floor;
      var p := Picture();
      ShowKeeps(p, at, b);
      shown := shown[at := b];
      assert Picture() == Shown(p, at, b);
    }
  }
}
