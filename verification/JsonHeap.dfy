/**
 The values of core/gason.hpp on the heap, and the trees they stand for. A value is a plain atom, a pointer
 into the text, or a container with the first node of its list.

 A list is named by the number its nodes carry; the lists inside a container open after it, and so have
 larger numbers. `World` is what values refer to: the lists, which of them are closed, and the strings that
 the text shows.
 */
module JsonHeap {
  import opened Bits
  import opened Common
  import opened JsonList
  import opened JsonMachine
  import Alloc = JsonAllocator

  /** `JsonValue`. */
  datatype Item = PlainItem(atom: Atom) | StringItem(at: nat) | ListItem(tag: Tag, head: ListNode?<Entry>)

  /** What a `JsonNode` holds: a key, in an object, and a value. */
  datatype Entry = Entry(key: Option<nat>, value: Item)

  type Heap = map<nat, seq<Cell<Entry>>>

  datatype World = World(heap: Heap, closed: set<nat>, shown: map<nat, Text>, top: nat)

  // ---------------------------------------------------------------------------
  // The tree that a value stands for
  // ---------------------------------------------------------------------------

  ghost function Room(w: World, lo: nat): nat { if lo <= w.top then w.top - lo else 0 }

  /** The value refers to closed lists numbered from `lo` on, and to strings that are shown. */
  ghost predicate Good(w: World, lo: nat, o: Item)
    decreases Room(w, lo), 0
  {
    match o
    case PlainItem(a) => !a.String?
    case StringItem(at) => at in w.shown
    case ListItem(_, head) =>
      head != null ==>
        && lo <= head.home < w.top && head.home in w.closed && head.home in w.heap
        && w.heap[head.home] != [] && w.heap[head.home][0].node == head
        && GoodCells(w, head.home + 1, w.heap[head.home])
  }

  ghost predicate GoodCells(w: World, lo: nat, cells: seq<Cell<Entry>>)
    decreases Room(w, lo), 1
  {
    forall i | 0 <= i < |cells| :: GoodKey(w, cells[i].value.key) && Good(w, lo, cells[i].value.value)
  }

  ghost predicate GoodKey(w: World, key: Option<nat>) { key.Some? ==> key.value in w.shown }

  ghost function TextAt(w: World, at: nat): Text { if at in w.shown then w.shown[at] else [] }

  ghost function KeyOf(w: World, key: Option<nat>): Option<Text> {
    if key.Some? then Some(TextAt(w, key.value)) else None
  }

  ghost function TreeOf(w: World, lo: nat, o: Item): Json
    decreases Room(w, lo), 0
  {
    match o
    case PlainItem(a) => Atomic(a)
    case StringItem(at) => Atomic(String(TextAt(w, at)))
    case ListItem(tag, head) =>
      if head != null && lo <= head.home < w.top && head.home in w.heap
      then Container(tag, NodesOf(w, head.home + 1, w.heap[head.home]))
      else Container(tag, [])
  }

  ghost function NodesOf(w: World, lo: nat, cells: seq<Cell<Entry>>): (nodes: seq<Node>)
    ensures |nodes| == |cells|
    decreases Room(w, lo), 2
  {
    seq(|cells|, i requires 0 <= i < |cells| => NodeOf(w, lo, cells[i].value.key, cells[i].value.value))
  }

  ghost function NodeOf(w: World, lo: nat, key: Option<nat>, o: Item): Node
    decreases Room(w, lo), 1
  {
    Node(KeyOf(w, key), TreeOf(w, lo, o))
  }

  // ---------------------------------------------------------------------------
  // Values do not change when the world grows
  // ---------------------------------------------------------------------------

  /** What is closed stays as it is, and what is shown stays shown. */
  ghost predicate Grows(w: World, w': World) {
    && w.closed <= w'.closed && w.top <= w'.top
    && (forall id | id in w.closed && id in w.heap :: id in w'.heap && w'.heap[id] == w.heap[id])
    && (forall at | at in w.shown :: at in w'.shown && w'.shown[at] == w.shown[at])
  }

  lemma {:induction false} TreeStays(w: World, w': World, lo: nat, lo': nat, o: Item)
    requires Grows(w, w') && Good(w, lo, o) && lo' <= lo
    ensures Good(w', lo', o) && TreeOf(w', lo', o) == TreeOf(w, lo, o)
    decreases Room(w, lo), 0
  {
    if o.ListItem? && o.head != null {
      var id := o.head.home;
      NodesStay(w, w', id + 1, id + 1, w.heap[id]);
    }
  }

  lemma {:induction false} NodesStay(w: World, w': World, lo: nat, lo': nat, cells: seq<Cell<Entry>>)
    requires Grows(w, w') && GoodCells(w, lo, cells) && lo' <= lo
    ensures GoodCells(w', lo', cells) && NodesOf(w', lo', cells) == NodesOf(w, lo, cells)
    decreases Room(w, lo), 1
  {
    hide TreeOf, Good;
    forall i | 0 <= i < |cells|
      ensures GoodKey(w', cells[i].value.key) && Good(w', lo', cells[i].value.value)
      ensures NodesOf(w', lo', cells)[i] == NodesOf(w, lo, cells)[i]
    {
      assert GoodKey(w, cells[i].value.key);
      TreeStays(w, w', lo, lo', cells[i].value.value);
    }
  }

  // ---------------------------------------------------------------------------
  // The open containers
  // ---------------------------------------------------------------------------

  /** The heap and the levels of the stack: the number of each open list, its tag and its pending key. */
  datatype Picture = Picture(
    heap: Heap, open: seq<nat>, tags: seq<Tag>, keys: seq<Option<nat>>, shown: map<nat, Text>, top: nat)

  ghost function WorldOf(p: Picture): World {
    World(p.heap, p.heap.Keys - (set id | id in p.open), p.shown, p.top)
  }

  /** Values that arrive refer only to lists that opened after the innermost open one. */
  ghost function Floor(p: Picture): nat { if p.open == [] then 0 else p.open[|p.open| - 1] + 1 }

  ghost predicate Levels(p: Picture) {
    && |p.tags| == |p.open| == |p.keys| <= STACK_SIZE
    && (forall l | 0 <= l < |p.open| :: p.open[l] in p.heap && p.open[l] < p.top)
    && (forall k, l | 0 <= k < l < |p.open| :: p.open[k] < p.open[l])
  }

  ghost predicate GoodLevel(p: Picture, l: nat)
    requires Levels(p) && l < |p.open|
  {
    && GoodKey(WorldOf(p), p.keys[l]) && (p.tags[l] == ArrayTag ==> p.keys[l] == None)
    && GoodCells(WorldOf(p), p.open[l] + 1, p.heap[p.open[l]])
  }

  ghost predicate GoodPicture(p: Picture): (good: bool)
    ensures good ==> Levels(p)
  {
    Levels(p) && forall l | 0 <= l < |p.open| :: GoodLevel(p, l)
  }

  ghost function FrameOf(p: Picture, l: nat): Frame
    requires Levels(p) && l < |p.open|
  {
    Frame(p.tags[l], KeyOf(WorldOf(p), p.keys[l]), NodesOf(WorldOf(p), p.open[l] + 1, p.heap[p.open[l]]))
  }

  ghost function FramesOf(p: Picture): (stack: seq<Frame>)
    requires Levels(p)
    ensures |stack| == |p.open|
  {
    seq(|p.open|, l requires 0 <= l < |p.open| => FrameOf(p, l))
  }

  /** A level that stays as it is stands for the same frame in a world that grows. */
  lemma LevelStays(p: Picture, p': Picture, l: nat)
    requires GoodPicture(p) && Levels(p') && Grows(WorldOf(p), WorldOf(p')) && l < |p.open| && l < |p'.open|
    requires p'.open[l] == p.open[l] && p'.tags[l] == p.tags[l] && p'.keys[l] == p.keys[l]
    requires p'.heap[p.open[l]] == p.heap[p.open[l]]
    ensures GoodLevel(p', l) && FrameOf(p', l) == FrameOf(p, l)
  {
    hide GoodCells, NodesOf, Grows, WorldOf;
    assert GoodLevel(p, l);
    KeyStays(WorldOf(p), WorldOf(p'), p.keys[l]);
    var id := p.open[l];
    NodesStay(WorldOf(p), WorldOf(p'), id + 1, id + 1, p.heap[id]);
  }

  lemma KeyStays(w: World, w': World, key: Option<nat>)
    requires Grows(w, w') && GoodKey(w, key)
    ensures GoodKey(w', key) && KeyOf(w', key) == KeyOf(w, key)
  {
  }

  /** The picture after a container opens. */
  ghost function Opened(p: Picture, tag: Tag, id: nat): Picture {
    Picture(p.heap[id := []], p.open + [id], p.tags + [tag], p.keys + [None], p.shown, id + 1)
  }

  lemma OpenKeeps(p: Picture, tag: Tag, id: nat)
    requires GoodPicture(p) && |p.open| < STACK_SIZE && p.top <= id && id !in p.heap
    ensures
      var p' := Opened(p, tag, id);
      GoodPicture(p') && FramesOf(p') == FramesOf(p) + [Frame(tag, None, [])]
  {
    var p' := Opened(p, tag, id);
    assert WorldOf(p').closed == WorldOf(p).closed;
    assert Grows(WorldOf(p), WorldOf(p'));
    assert Levels(p');
    hide Grows, WorldOf, Levels, Good;
    forall l | 0 <= l < |p.open|
      ensures GoodLevel(p', l) && FrameOf(p', l) == FrameOf(p, l)
    {
      OldLevel(p, id, l);
      LevelStays(p, p', l);
    }
    assert FrameOf(p', |p.open|) == Frame(tag, None, []);
    assert GoodLevel(p', |p.open|);
  }

  lemma OldLevel(p: Picture, id: nat, l: nat)
    requires Levels(p) && l < |p.open| && id !in p.heap
    ensures p.open[l] in p.heap && p.open[l] != id
  {
  }

  /** The picture after a string has become a key. */
  ghost function Keyed(p: Picture, at: nat): Picture
    requires p.keys != []
  {
    p.(keys := p.keys[|p.keys| - 1 := Some(at)])
  }

  lemma KeyKeeps(p: Picture, at: nat)
    requires GoodPicture(p) && p.open != [] && p.tags[|p.tags| - 1] == ObjectTag && at in p.shown
    ensures
      var p' := Keyed(p, at);
      && GoodPicture(p')
      && FramesOf(p') == Below(FramesOf(p)) + [Top(FramesOf(p)).(key := Some(TextAt(WorldOf(p), at)))]
  {
    var p', last := Keyed(p, at), |p.open| - 1;
    assert WorldOf(p') == WorldOf(p);
    GrowsToItself(WorldOf(p));
    hide Grows, Good, NodesOf;
    forall l | 0 <= l < last
      ensures GoodLevel(p', l) && FrameOf(p', l) == FrameOf(p, l)
    {
      LevelStays(p, p', l);
    }
    assert GoodLevel(p, last);
  }

  lemma GrowsToItself(w: World)
    ensures Grows(w, w)
  {
  }

  /** The picture after a value has been appended to the innermost list, under the pending key. */
  ghost function Stored(p: Picture, node: ListNode<Entry>, o: Item): Picture
    requires Levels(p) && p.open != []
  {
    var last := |p.open| - 1;
    var id := p.open[last];
    p.(heap := p.heap[id := p.heap[id] + [Cell(node, Entry(p.keys[last], o))]], keys := p.keys[last := None])
  }

  lemma CellsSnoc(w: World, lo: nat, cells: seq<Cell<Entry>>, c: Cell<Entry>)
    requires GoodCells(w, lo, cells) && GoodKey(w, c.value.key) && Good(w, lo, c.value.value)
    ensures GoodCells(w, lo, cells + [c])
    ensures NodesOf(w, lo, cells + [c]) == NodesOf(w, lo, cells) + [NodeOf(w, lo, c.value.key, c.value.value)]
  {
    hide Good, GoodKey, NodeOf;
  }

  lemma StoredGrows(p: Picture, node: ListNode<Entry>, o: Item)
    requires Levels(p) && p.open != []
    ensures Levels(Stored(p, node, o)) && Grows(WorldOf(p), WorldOf(Stored(p, node, o)))
  {
  }

  /** The innermost level after a value has been stored there. */
  lemma StoredLevel(p: Picture, node: ListNode<Entry>, o: Item)
    requires GoodPicture(p) && p.open != [] && Good(WorldOf(p), Floor(p), o) && Levels(Stored(p, node, o))
    ensures
      var p', last := Stored(p, node, o), |p.open| - 1;
      var f := FrameOf(p, last);
      && GoodLevel(p', last)
      && FrameOf(p', last) == Frame(f.tag, None, f.nodes + [Node(f.key, TreeOf(WorldOf(p), Floor(p), o))])
  {
    var p', last := Stored(p, node, o), |p.open| - 1;
    var w, w', id := WorldOf(p), WorldOf(p'), p.open[last];
    StoredGrows(p, node, o);
    assert GoodLevel(p, last);
    hide Grows, WorldOf, Good, GoodCells, NodesOf, TreeOf, GoodPicture;
    NodesStay(w, w', id + 1, id + 1, p.heap[id]);
    TreeStays(w, w', Floor(p), id + 1, o);
    KeyStays(w, w', p.keys[last]);
    CellsSnoc(w', id + 1, p.heap[id], Cell(node, Entry(p.keys[last], o)));
  }

  lemma StoreKeeps(p: Picture, node: ListNode<Entry>, o: Item)
    requires GoodPicture(p) && p.open != [] && Good(WorldOf(p), Floor(p), o)
    ensures
      var p', f := Stored(p, node, o), Top(FramesOf(p));
      && GoodPicture(p')
      && FramesOf(p') ==
         Below(FramesOf(p)) + [Frame(f.tag, None, f.nodes + [Node(f.key, TreeOf(WorldOf(p), Floor(p), o))])]
  {
    var p', last := Stored(p, node, o), |p.open| - 1;
    StoredGrows(p, node, o);
    StoredLevel(p, node, o);
    hide Grows, WorldOf, GoodLevel, FrameOf, Good, TreeOf;
    forall l | 0 <= l < last
      ensures GoodLevel(p', l) && FrameOf(p', l) == FrameOf(p, l)
    {
      LevelStays(p, p', l);
    }
    assert Top(FramesOf(p)) == FrameOf(p, last);
  }

  lemma TopTag(p: Picture)
    requires Levels(p) && p.open != []
    ensures Top(FramesOf(p)).tag == p.tags[|p.tags| - 1]
  {
  }

  /** The picture after the innermost list has been closed. */
  ghost function Popped(p: Picture): Picture
    requires Levels(p) && p.open != []
  {
    var n := |p.open| - 1;
    p.(open := p.open[..n], tags := p.tags[..n], keys := p.keys[..n])
  }

  lemma PoppedGrows(p: Picture)
    requires Levels(p) && p.open != []
    ensures Levels(Popped(p)) && Grows(WorldOf(p), WorldOf(Popped(p)))
    ensures p.open[|p.open| - 1] in WorldOf(Popped(p)).closed && Floor(Popped(p)) <= p.open[|p.open| - 1]
  {
    var n := |p.open| - 1;
    assert forall l | 0 <= l < n :: p.open[..n][l] == p.open[l];
  }

  /** Closing the innermost list gives a value that stands for the container of its nodes. */
  lemma PopKeeps(p: Picture, head: ListNode?<Entry>)
    requires GoodPicture(p) && p.open != []
    requires
      var cells := p.heap[p.open[|p.open| - 1]];
      head == (if cells == [] then null else cells[0].node) && (head != null ==> head.home == p.open[|p.open| - 1])
    ensures
      var p', f := Popped(p), Top(FramesOf(p));
      && GoodPicture(p') && FramesOf(p') == Below(FramesOf(p))
      && Good(WorldOf(p'), Floor(p'), ListItem(f.tag, head))
      && TreeOf(WorldOf(p'), Floor(p'), ListItem(f.tag, head)) == Container(f.tag, f.nodes)
  {
    var p', last := Popped(p), |p.open| - 1;
    var id := p.open[last];
    PoppedGrows(p);
    assert GoodLevel(p, last);
    assert Top(FramesOf(p)) == FrameOf(p, last);
    ClosedValue(p, WorldOf(p'), Floor(p'), head);
    hide Grows, WorldOf, GoodLevel, FrameOf, Good, TreeOf;
    forall l | 0 <= l < last
      ensures GoodLevel(p', l) && FrameOf(p', l) == FrameOf(p, l)
    {
      LevelStays(p, p', l);
    }
  }

  lemma ClosedValue(p: Picture, w': World, lo: nat, head: ListNode?<Entry>)
    requires GoodPicture(p) && p.open != [] && Grows(WorldOf(p), w') && w'.heap == p.heap
    requires p.open[|p.open| - 1] in w'.closed && lo <= p.open[|p.open| - 1] < w'.top
    requires
      var cells := p.heap[p.open[|p.open| - 1]];
      head == (if cells == [] then null else cells[0].node) && (head != null ==> head.home == p.open[|p.open| - 1])
    ensures
      var f := FrameOf(p, |p.open| - 1);
      && Good(w', lo, ListItem(f.tag, head))
      && TreeOf(w', lo, ListItem(f.tag, head)) == Container(f.tag, f.nodes)
  {
    var last := |p.open| - 1;
    var id := p.open[last];
    assert GoodLevel(p, last);
    hide Grows, WorldOf, GoodPicture, GoodCells, NodesOf;
    NodesStay(WorldOf(p), w', id + 1, id + 1, p.heap[id]);
    EmptyNodes(WorldOf(p), id + 1, p.heap[id]);
  }

  lemma EmptyNodes(w: World, lo: nat, cells: seq<Cell<Entry>>)
    ensures cells == [] ==> NodesOf(w, lo, cells) == []
  {
  }

  /** The picture after a new string is shown. */
  ghost function Shown(p: Picture, at: nat, b: Text): Picture { p.(shown := p.shown[at := b]) }

  lemma ShowKeeps(p: Picture, at: nat, b: Text)
    requires GoodPicture(p) && at !in p.shown
    ensures GoodPicture(Shown(p, at, b)) && FramesOf(Shown(p, at, b)) == FramesOf(p)
  {
    var p' := Shown(p, at, b);
    assert Grows(WorldOf(p), WorldOf(p')) && Levels(p');
    hide Grows, WorldOf, GoodLevel, FrameOf;
    forall l | 0 <= l < |p.open|
      ensures GoodLevel(p', l) && FrameOf(p', l) == FrameOf(p, l)
    {
      LevelStays(p, p', l);
    }
  }

  /** At the start nothing is open. */
  lemma NothingOpen(p: Picture)
    requires p.open == [] && p.tags == [] && p.keys == []
    ensures GoodPicture(p) && FramesOf(p) == []
  {
  }

  // ---------------------------------------------------------------------------
  // The memory of the nodes
  // ---------------------------------------------------------------------------

  /** A node of an array has no room for a key. */
  function NodeSize(e: Entry): nat { if e.key.Some? then 24 else 16 }

  ghost predicate HasCell(heap: Heap, id: nat, i: nat) { id in heap && i < |heap[id]| }

  /** The node lives in a block of its size. */
  ghost predicate HousedCell(heap: Heap, blocks: seq<Alloc.Block>, id: nat, i: nat)
    requires HasCell(heap, id, i)
  {
    var cell := heap[id][i];
    cell.node.block < |blocks| && blocks[cell.node.block].size == NodeSize(cell.value)
  }

  /** Every node lives in a block of its size, and no two in the same one. */
  ghost predicate Housed(heap: Heap, blocks: seq<Alloc.Block>) {
    && (forall id: nat, i: nat | HasCell(heap, id, i) :: HousedCell(heap, blocks, id, i))
    && (forall id: nat, i: nat, jd: nat, j: nat | HasCell(heap, id, i) && HasCell(heap, jd, j) && (id, i) != (jd, j) ::
          heap[id][i].node.block != heap[jd][j].node.block)
  }

  lemma HousedOpened(heap: Heap, blocks: seq<Alloc.Block>, id: nat)
    requires Housed(heap, blocks) && id !in heap
    ensures Housed(heap[id := []], blocks)
  {
    var heap' := heap[id := []];
    forall jd: nat, j: nat | HasCell(heap', jd, j)
      ensures HasCell(heap, jd, j) && HousedCell(heap', blocks, jd, j)
    {
      assert HasCell(heap, jd, j) && HousedCell(heap, blocks, jd, j);
    }
  }

  /** A new node in a new block of its size. */
  lemma HousedSnoc(heap: Heap, blocks: seq<Alloc.Block>, id: nat, cell: Cell<Entry>, b: Alloc.Block)
    requires Housed(heap, blocks) && id in heap && cell.node.block == |blocks| && b.size == NodeSize(cell.value)
    ensures Housed(heap[id := heap[id] + [cell]], blocks + [b])
  {
    var heap', blocks', n := heap[id := heap[id] + [cell]], blocks + [b], |heap[id]|;
    forall jd: nat, j: nat | HasCell(heap', jd, j)
      ensures HousedCell(heap', blocks', jd, j)
      ensures if (jd, j) == (id, n) then heap'[jd][j] == cell else HasCell(heap, jd, j) && heap'[jd][j] == heap[jd][j]
    {
      if (jd, j) != (id, n) {
        assert HasCell(heap, jd, j) && HousedCell(heap, blocks, jd, j);
      }
    }
    forall jd: nat, j: nat, kd: nat, k: nat | HasCell(heap', jd, j) && HasCell(heap', kd, k) && (jd, j) != (kd, k)
      ensures heap'[jd][j].node.block != heap'[kd][k].node.block
    {
      if (jd, j) == (id, n) {
        assert HousedCell(heap, blocks, kd, k);
      } else if (kd, k) == (id, n) {
        assert HousedCell(heap, blocks, jd, j);
      } else {
        assert HasCell(heap, jd, j) && HasCell(heap, kd, k);
      }
    }
  }

  lemma NothingHoused(blocks: seq<Alloc.Block>)
    ensures Housed(map[], blocks)
  {
  }

  /** More blocks, of a parse to come or of others, change nothing. */
  lemma HousedGrows(heap: Heap, blocks: seq<Alloc.Block>, more: seq<Alloc.Block>)
    requires Housed(heap, blocks)
    ensures Housed(heap, blocks + more)
  {
    forall id: nat, i: nat | HasCell(heap, id, i)
      ensures HousedCell(heap, blocks + more, id, i)
    {
      assert HousedCell(heap, blocks, id, i);
    }
  }

  /** Housed in blocks that are apart, the memory of any two nodes is apart. */
  lemma NodesAreApart(heap: Heap, s: Alloc.State, id: nat, i: nat, jd: nat, j: nat)
    requires Alloc.Inv(s) && Housed(heap, s.blocks)
    requires HasCell(heap, id, i) && HasCell(heap, jd, j) && (id, i) != (jd, j)
    ensures
      var b, c := heap[id][i].node.block, heap[jd][j].node.block;
      && b < |s.blocks| && c < |s.blocks|
      && Alloc.Apart(s.blocks[b].at, NodeSize(heap[id][i].value), s.blocks[c].at, NodeSize(heap[jd][j].value))
      && s.blocks[b].at % 8 == 0
  {
    assert HousedCell(heap, s.blocks, id, i) && HousedCell(heap, s.blocks, jd, j);
    var b, c := heap[id][i].node.block, heap[jd][j].node.block;
    hide Housed;
    assert Alloc.Placed(s.blocks[b], s.zones);
    assert b < c || c < b;
  }
}
