/**
 The zone allocator of core/gason.cpp. A zone is a region of memory with a header of two words; the
 list of zones is the sequence of its elements, head first. `malloc` is outside the model: each call of
 `allocate` comes with the address that `malloc` would return, or none.
 */
module JsonAllocator {
  import opened Bits
  import opened Common

  const ZONE_SIZE: nat := 4096
  const HEADER: nat := 16

  datatype Zone = Zone(base: nat, capacity: nat, used: nat)

  datatype Block = Block(at: nat, size: nat)

  /** The zones, and the blocks handed out so far. */
  datatype State = State(zones: seq<Zone>, blocks: seq<Block>)

  const EMPTY: State := State([], [])

  /** `(size + 7) & ~7` on 64-bit sizes. */
  function Round8(size: nat): nat { (size + 7) % 0x1_0000_0000_0000_0000 / 8 * 8 }

  function AllocSize(size: nat): nat { (HEADER + Round8(size)) % 0x1_0000_0000_0000_0000 }

  function Capacity(size: nat): nat {
    if AllocSize(size) <= ZONE_SIZE then ZONE_SIZE else AllocSize(size)
  }

  predicate FitsHead(zones: seq<Zone>, size: nat) {
    zones != [] && (zones[0].used + Round8(size)) % 0x1_0000_0000_0000_0000 <= ZONE_SIZE
  }

  /** One call: the new zones and the pointer returned. */
  function Allocate(zones: seq<Zone>, size: nat, malloc: Option<nat>): (seq<Zone>, Option<nat>) {
    var r := Round8(size);
    if FitsHead(zones, size) then
      var head := zones[0];
      ([head.(used := (head.used + r) % 0x1_0000_0000_0000_0000)] + zones[1..], Some(head.base + head.used))
    else if malloc == None then (zones, None)
    else
      var zone := Zone(malloc.value, Capacity(size), AllocSize(size));
      var zones' :=
        if AllocSize(size) <= ZONE_SIZE || zones == [] then [zone] + zones
        else [zones[0], zone] + zones[1..];
      (zones', Some(malloc.value + HEADER))
  }

  function Step(s: State, size: nat, malloc: Option<nat>): State {
    var (zones, p) := Allocate(s.zones, size, malloc);
    State(zones, if p == None then s.blocks else s.blocks + [Block(p.value, Round8(size))])
  }

  // ---------------------------------------------------------------------------
  // What every call keeps
  // ---------------------------------------------------------------------------

  ghost predicate Apart(a: nat, m: nat, b: nat, n: nat) { a + m <= b || b + n <= a }

  /** Zones are apart, aligned and no fuller than they are large. */
  ghost predicate GoodZones(zones: seq<Zone>) {
    && (forall i | 0 <= i < |zones| :: GoodZone(zones[i]))
    && (forall i, j | 0 <= i < j < |zones| ::
          Apart(zones[i].base, zones[i].capacity, zones[j].base, zones[j].capacity))
  }

  ghost predicate GoodZone(z: Zone) {
    && z.base % 8 == 0 && z.used % 8 == 0
    && HEADER <= z.used <= z.capacity && ZONE_SIZE <= z.capacity <= LARGEST
  }

  ghost predicate Inside(b: Block, z: Zone) {
    z.base + HEADER <= b.at && b.at + b.size <= z.base + z.used
  }

  ghost predicate Placed(b: Block, zones: seq<Zone>) {
    b.at % 8 == 0 && exists i | 0 <= i < |zones| :: Inside(b, zones[i])
  }

  ghost predicate GoodBlocks(s: State) {
    && (forall k | 0 <= k < |s.blocks| :: Placed(s.blocks[k], s.zones))
    && (forall k, l | 0 <= k < l < |s.blocks| ::
          Apart(s.blocks[k].at, s.blocks[k].size, s.blocks[l].at, s.blocks[l].size))
  }

  ghost predicate Inv(s: State) { GoodZones(s.zones) && GoodBlocks(s) }

  /** The largest object that `malloc` can return. */
  const LARGEST: nat := 0x7fff_ffff_ffff_ffff

  /** `malloc` returns aligned memory apart from all that it returned before, and of no size above its limit. */
  ghost predicate Honest(zones: seq<Zone>, size: nat, malloc: Option<nat>) {
    malloc.Some? ==>
      && malloc.value % 8 == 0 && Capacity(size) <= LARGEST
      && forall i | 0 <= i < |zones| :: Apart(zones[i].base, zones[i].capacity, malloc.value, Capacity(size))
  }

  /** No 64-bit sum of the call wraps. */
  predicate NoWrap(zones: seq<Zone>, size: nat) {
    && size + 7 < TWO_64
    && (if FitsHead(zones, size) then zones[0].used else HEADER) + Round8(size) < TWO_64
  }

  /** The call returns a pointer. */
  predicate Returns(zones: seq<Zone>, size: nat, malloc: Option<nat>) { FitsHead(zones, size) || malloc.Some? }

  /** The call returns no pointer, or none of its sums wraps. */
  predicate Sound(zones: seq<Zone>, size: nat, malloc: Option<nat>) {
    Returns(zones, size, malloc) ==> NoWrap(zones, size)
  }

  /** Sizes for which the 64-bit sums of the code cannot wrap, whatever the zones. */
  predicate Representable(size: nat) { size <= LARGEST - 7 - HEADER }

  lemma Rounding(size: nat)
    requires Representable(size)
    ensures size <= Round8(size) < size + 8 && Round8(size) % 8 == 0
    ensures AllocSize(size) == HEADER + Round8(size) && AllocSize(size) % 8 == 0
  {
  }

  ghost function Grown(zones: seq<Zone>, r: nat): seq<Zone>
    requires zones != []
  {
    zones[0 := zones[0].(used := zones[0].used + r)]
  }

  /** The zones after the insertion of a new one, at the head or behind it. */
  ghost function Inserted(zones: seq<Zone>, at: nat, z: Zone): seq<Zone>
    requires at <= |zones|
  {
    zones[..at] + [z] + zones[at..]
  }

  /** What one call does when its sums do not wrap. */
  lemma StepIs(s: State, size: nat, malloc: Option<nat>)
    requires GoodZones(s.zones) && Representable(size)
    ensures
      var r, s' := Round8(size), Step(s, size, malloc);
      if FitsHead(s.zones, size) then
        var head := s.zones[0];
        head.used + r <= head.capacity && s' == State(Grown(s.zones, r), s.blocks + [Block(head.base + head.used, r)])
      else if malloc == None then s' == s
      else
        var at := if HEADER + r <= ZONE_SIZE || s.zones == [] then 0 else 1;
        var z := Zone(malloc.value, if HEADER + r <= ZONE_SIZE then ZONE_SIZE else HEADER + r, HEADER + r);
        s' == State(Inserted(s.zones, at, z), s.blocks + [Block(z.base + HEADER, r)])
  {
    Rounding(size);
    hide Round8, AllocSize;
    if s.zones != [] {
      HeadFits(s.zones, Round8(size));
    }
  }

  lemma HeadFits(zones: seq<Zone>, r: nat)
    requires GoodZones(zones) && zones != [] && r <= LARGEST
    ensures
      var sum := zones[0].used + r;
      sum % 0x1_0000_0000_0000_0000 == sum && (sum <= ZONE_SIZE ==> sum <= zones[0].capacity)
  {
    assert GoodZone(zones[0]);
  }

  lemma GrowKeeps(s: State, r: nat)
    requires Inv(s) && s.zones != [] && r % 8 == 0 && s.zones[0].used + r <= s.zones[0].capacity
    ensures Inv(State(Grown(s.zones, r), s.blocks + [Block(s.zones[0].base + s.zones[0].used, r)]))
  {
    var head, zones := s.zones[0], Grown(s.zones, r);
    var b := Block(head.base + head.used, r);
    GrownZones(s.zones, r);
    assert Inside(b, zones[0]);
    forall k | 0 <= k < |s.blocks|
      ensures Placed(s.blocks[k], zones) && Apart(s.blocks[k].at, s.blocks[k].size, b.at, b.size)
    {
      GrownBlock(s.zones, s.blocks[k], r);
    }
  }

  lemma GrownZones(zones: seq<Zone>, r: nat)
    requires GoodZones(zones) && zones != [] && r % 8 == 0 && zones[0].used + r <= zones[0].capacity
    ensures GoodZones(Grown(zones, r)) && (zones[0].base + zones[0].used) % 8 == 0
  {
    assert GoodZone(zones[0]);
  }

  lemma GrownBlock(zones: seq<Zone>, b: Block, r: nat)
    requires GoodZones(zones) && zones != [] && zones[0].used + r <= zones[0].capacity && Placed(b, zones)
    ensures Placed(b, Grown(zones, r)) && Apart(b.at, b.size, zones[0].base + zones[0].used, r)
  {
    var i :| 0 <= i < |zones| && Inside(b, zones[i]);
    assert Inside(b, Grown(zones, r)[i]);
    assert GoodZone(zones[i]) && GoodZone(zones[0]);
  }

  lemma InsertKeeps(s: State, at: nat, z: Zone, r: nat)
    requires Inv(s) && at <= |s.zones| && GoodZone(z) && z.used == HEADER + r && r % 8 == 0
    requires forall i | 0 <= i < |s.zones| :: Apart(s.zones[i].base, s.zones[i].capacity, z.base, z.capacity)
    ensures Inv(State(Inserted(s.zones, at, z), s.blocks + [Block(z.base + HEADER, r)]))
  {
    var zones, b := Inserted(s.zones, at, z), Block(z.base + HEADER, r);
    InsertedZones(s.zones, at, z);
    assert Inside(b, zones[at]);
    forall k | 0 <= k < |s.blocks|
      ensures Placed(s.blocks[k], zones) && Apart(s.blocks[k].at, s.blocks[k].size, b.at, b.size)
    {
      InsertedBlock(s.zones, at, z, s.blocks[k], r);
    }
  }

  lemma InsertedZones(zones: seq<Zone>, at: nat, z: Zone)
    requires GoodZones(zones) && at <= |zones| && GoodZone(z)
    requires forall i | 0 <= i < |zones| :: Apart(zones[i].base, zones[i].capacity, z.base, z.capacity)
    ensures GoodZones(Inserted(zones, at, z))
  {
    hide GoodZone;
    var r := Inserted(zones, at, z);
    assert forall i | 0 <= i < |r| :: r[i] == if i < at then zones[i] else if i == at then z else zones[i - 1];
  }

  lemma InsertedBlock(zones: seq<Zone>, at: nat, z: Zone, b: Block, r: nat)
    requires GoodZones(zones) && at <= |zones| && HEADER + r <= z.capacity && Placed(b, zones)
    requires forall i | 0 <= i < |zones| :: Apart(zones[i].base, zones[i].capacity, z.base, z.capacity)
    ensures Placed(b, Inserted(zones, at, z)) && Apart(b.at, b.size, z.base + HEADER, r)
  {
    var i :| 0 <= i < |zones| && Inside(b, zones[i]);
    var j := if i < at then i else i + 1;
    assert Inside(b, Inserted(zones, at, z)[j]);
    assert GoodZone(zones[i]);
  }

  /** Memory that is there has a size that can be represented. */
  lemma NoWrapIsRepresentable(zones: seq<Zone>, size: nat, malloc: Option<nat>)
    requires Honest(zones, size, malloc) && Returns(zones, size, malloc) && NoWrap(zones, size)
    ensures Representable(size)
  {
    var r := Round8(size);
    assert size <= r < size + 8 && r % 8 == 0;
    hide Round8;
    if !FitsHead(zones, size) {
      assert Capacity(size) >= HEADER + r;
      assert HEADER + r <= LARGEST - 7;
    }
  }

  /** Every call keeps all blocks aligned, inside their zones after the header, and apart, unless a sum wraps. */
  lemma StepKeeps(s: State, size: nat, malloc: Option<nat>)
    requires Inv(s) && Sound(s.zones, size, malloc) && Honest(s.zones, size, malloc)
    ensures Inv(Step(s, size, malloc))
  {
    hide Inv, Step, Round8, AllocSize, NoWrap, Representable;
    if !Returns(s.zones, size, malloc) {
      NothingReturned(s, size, malloc);
      return;
    }
    assert GoodZones(s.zones) by { InvZones(s); }
    NoWrapIsRepresentable(s.zones, size, malloc);
    Rounding(size);
    StepIs(s, size, malloc);
    var r := Round8(size);
    if FitsHead(s.zones, size) {
      GrowKeeps(s, r);
    } else {
      var at := if HEADER + r <= ZONE_SIZE || s.zones == [] then 0 else 1;
      InsertKeeps(s, at, Zone(malloc.value, Capacity(size), HEADER + r), r);
    }
  }

  lemma NothingReturned(s: State, size: nat, malloc: Option<nat>)
    requires !Returns(s.zones, size, malloc)
    ensures Step(s, size, malloc) == s
  {
  }

  lemma InvZones(s: State)
    requires Inv(s)
    ensures GoodZones(s.zones)
  {
  }

  lemma InvBlocks(s: State)
    requires Inv(s)
    ensures forall k | 0 <= k < |s.blocks| :: Placed(s.blocks[k], s.zones)
  {
  }

  datatype Call = Call(size: nat, malloc: Option<nat>)

  ghost function Calls(s: State, calls: seq<Call>): State
    decreases |calls|
  {
    if calls == [] then s else Calls(Step(s, calls[0].size, calls[0].malloc), calls[1..])
  }

  /** Sizes of 64 bits, and a `malloc` that keeps to its contract at each call. */
  ghost predicate HonestCalls(s: State, calls: seq<Call>)
    decreases |calls|
  {
    calls != [] ==>
      && calls[0].size < TWO_64 && Honest(s.zones, calls[0].size, calls[0].malloc)
      && HonestCalls(Step(s, calls[0].size, calls[0].malloc), calls[1..])
  }

  /** No call that returns a pointer lets a sum wrap. */
  ghost predicate SoundCalls(s: State, calls: seq<Call>)
    decreases |calls|
  {
    calls != [] ==>
      && Sound(s.zones, calls[0].size, calls[0].malloc)
      && SoundCalls(Step(s, calls[0].size, calls[0].malloc), calls[1..])
  }

  /** Every block returned is large enough, and after every call all blocks are aligned, in their zones and apart. */
  ghost predicate ServedCalls(s: State, calls: seq<Call>)
    decreases |calls|
  {
    calls != [] ==>
      && Served(s, calls[0].size, calls[0].malloc)
      && ServedCalls(Step(s, calls[0].size, calls[0].malloc), calls[1..])
  }

  ghost predicate Served(s: State, size: nat, malloc: Option<nat>) {
    (Returns(s.zones, size, malloc) ==> size <= Round8(size)) && Inv(Step(s, size, malloc))
  }

  /** Over every sequence of calls: aligned blocks, each inside its zone, pairwise apart. */
  lemma {:induction false} CallsKeep(s: State, calls: seq<Call>)
    requires Inv(s) && HonestCalls(s, calls) && SoundCalls(s, calls)
    ensures Inv(Calls(s, calls))
    decreases |calls|
  {
    hide Inv, Step, Honest, Sound;
    if calls != [] {
      StepKeeps(s, calls[0].size, calls[0].malloc);
      CallsKeep(Step(s, calls[0].size, calls[0].malloc), calls[1..]);
    }
  }

  /** The first calls can be any. */
  lemma EmptyIsGood()
    ensures Inv(EMPTY)
  {
  }

  /**
   A size that is not representable can wrap: after one block of 24 bytes a request for 2^64 - 8 bytes
   "fits" the head zone and gives back the last word of the first block.
   */
  lemma WrapOverlaps()
    ensures
      var size := 0xffff_ffff_ffff_fff8;
      var zones := Allocate([], 24, Some(4096)).0;
      && !NoWrap(zones, size)
      && Allocate(zones, size, None).1 == Some(4096 + 40)
      && Allocate(Allocate(zones, size, None).0, 8, None).1 == Some(4096 + 32)
  {
  }

  lemma HugeIsNotPlaced(b: Block, zones: seq<Zone>)
    requires GoodZones(zones) && LARGEST < b.size
    ensures !Placed(b, zones)
  {
    forall i | 0 <= i < |zones|
      ensures !Inside(b, zones[i])
    {
      assert GoodZone(zones[i]);
    }
  }

  lemma NewestBlock(s: State, size: nat, malloc: Option<nat>)
    requires Returns(s.zones, size, malloc)
    ensures
      var blocks := Step(s, size, malloc).blocks;
      blocks != [] && blocks[|blocks| - 1].size == Round8(size)
  {
    hide Round8, AllocSize;
  }

  /** A block whose size made a sum wrap is too small, or larger than any zone. */
  lemma WrappedSize(zones: seq<Zone>, size: nat)
    requires GoodZones(zones) && size < TWO_64 && !NoWrap(zones, size)
    ensures Round8(size) < size || LARGEST < Round8(size)
  {
    if size + 7 < TWO_64 {
      hide Round8;
      assert FitsHead(zones, size) ==> GoodZone(zones[0]);
    }
  }

  lemma RoundingUp(size: nat)
    requires size + 7 < TWO_64
    ensures size <= Round8(size)
  {
  }

  /** A call serves its caller exactly when it returns no pointer or none of its sums wraps. */
  lemma ServedExactly(s: State, size: nat, malloc: Option<nat>)
    requires Inv(s) && size < TWO_64 && Honest(s.zones, size, malloc)
    ensures Served(s, size, malloc) <==> Sound(s.zones, size, malloc)
  {
    hide Inv, Step, Round8, Honest, FitsHead;
    if Sound(s.zones, size, malloc) {
      StepKeeps(s, size, malloc);
      if Returns(s.zones, size, malloc) {
        RoundingUp(size);
      }
    } else if Inv(Step(s, size, malloc)) {
      var s' := Step(s, size, malloc);
      InvZones(s);
      WrappedSize(s.zones, size);
      NewestBlock(s, size, malloc);
      InvZones(s');
      InvBlocks(s');
      var b := s'.blocks[|s'.blocks| - 1];
      if LARGEST < b.size {
        HugeIsNotPlaced(b, s'.zones);
      }
    }
  }

  /** Over every sequence of calls: every caller is served exactly when no call that returns a pointer wraps. */
  lemma {:induction false} CallsServedExactly(s: State, calls: seq<Call>)
    requires Inv(s) && HonestCalls(s, calls)
    ensures ServedCalls(s, calls) <==> SoundCalls(s, calls)
    decreases |calls|
  {
    hide Inv, Step, Honest, Sound;
    if calls != [] {
      ServedExactly(s, calls[0].size, calls[0].malloc);
      if Served(s, calls[0].size, calls[0].malloc) {
        CallsServedExactly(Step(s, calls[0].size, calls[0].malloc), calls[1..]);
      }
    }
  }

  // ---------------------------------------------------------------------------
  // The code
  // ---------------------------------------------------------------------------

  /** A zone in memory: its region, the two words of its header, and whether it is still allocated. */
  class ZoneNode {
    const base: nat
    const capacity: nat
    var next: ZoneNode?
    var used: nat
    var live: bool

    constructor (base: nat, capacity: nat, used: nat)
      ensures this.base == base && this.capacity == capacity && this.used == used && live && next == null
    {
      this.base, this.capacity, this.used := base, capacity, used;
      next, live := null, true;
    }

    ghost function Value(): Zone
      reads this
    {
      Zone(base, capacity, used)
    }

    /** `free`: the zone must be allocated, and what its header held is gone. */
    method Free()
      requires live
      modifies this
      ensures !live
    {
      next, used, live := null, 0, false;
    }
  }

  class Allocator {
    var head: ZoneNode?
    ghost var nodes: seq<ZoneNode>

    /** The zones linked from `head` are `nodes`: allocated, each once, the last one without a successor. */
    ghost predicate Valid()
      reads this, nodes
    {
      head == First(nodes) && Chained(nodes) && Distinct(nodes)
    }

    ghost function Zones(): (zones: seq<Zone>)
      reads this, nodes
      ensures |zones| == |nodes|
    {
      Values(nodes)
    }

    constructor ()
      ensures Valid() && Zones() == []
    {
      head, nodes := null, [];
    }

    lemma ValidHead()
      requires Valid()
      ensures (head == null <==> nodes == []) && (head != null ==> head == nodes[0] && Zones()[0] == head.Value())
    {
    }

    /** `allocate`: in the head zone, in a new head zone, or in a new zone behind the head. */
    method AllocateBlock(size: nat, malloc: Option<nat>) returns (p: Option<nat>)
      requires Valid()
      modifies this, nodes
      ensures Valid() && (Zones(), p) == Allocate(old(Zones()), size, malloc)
      ensures forall n | n in nodes :: n in old(nodes) || fresh(n)
    {
      hide Round8, AllocSize, Valid;
      ValidHead();
      var rounded := Round8(size);
      if head != null && (head.used + rounded) % 0x1_0000_0000_0000_0000 <= ZONE_SIZE {
        p := Some(head.base + head.used);
        SetUsed((head.used + rounded) % 0x1_0000_0000_0000_0000);
        return;
      }
      var allocSize := AllocSize(size);
      if malloc == None {
        return None;
      }
      var zone := new ZoneNode(malloc.value, if allocSize <= ZONE_SIZE then ZONE_SIZE else allocSize, allocSize);
      if allocSize <= ZONE_SIZE || head == null {
        LinkFirst(zone);
      } else {
        LinkSecond(zone);
      }
      return Some(zone.base + HEADER);
    }

    method SetUsed(used: nat)
      requires Valid() && head != null
      modifies head
      ensures Valid() && Zones() == old([Zones()[0].(used := used)] + Zones()[1..])
    {
      head.used := used;
    }

    method LinkFirst(zone: ZoneNode)
      requires Valid() && zone !in nodes && zone.live
      modifies this, zone
      ensures Valid() && nodes == [zone] + old(nodes) && Zones() == [old(zone.Value())] + old(Zones())
    {
      hide Chained, Distinct, Values;
      zone.next := head;
      head := zone;
      FirstChained(nodes, zone);
      nodes := [zone] + nodes;
    }

    method LinkSecond(zone: ZoneNode)
      requires Valid() && head != null && zone !in nodes && zone.live
      modifies this, zone, head
      ensures Valid() && nodes == old([nodes[0], zone] + nodes[1..])
      ensures Zones() == old([Zones()[0], zone.Value()] + Zones()[1..])
    {
      ghost var rest := nodes[1..];
      TailChained(nodes);
      TwoFirst(nodes[0], zone, rest);
      TwoFirst(Zones()[0], zone.Value(), Zones()[1..]);
      hide Chained, Distinct, Values;
      zone.next := head.next;
      head.next := zone;
      LinkedSecond(head, zone, rest);
      nodes := [head] + ([zone] + rest);
    }

    /**
     `deallocate` reads the successor before it frees a zone. It ends, frees no zone that is not allocated,
     and so each zone exactly once.
     */
    method Deallocate() returns (freed: seq<ZoneNode>)
      requires Valid()
      modifies this, nodes
      ensures Valid() && Zones() == []
      ensures freed == old(nodes) && forall n | n in old(nodes) :: !n.live
    {
      ghost var all := nodes;
      freed := [];
      hide Chained, Distinct, FreedUpTo;
      FreedNothing(all);
      while head != null
        invariant |freed| <= |all| && freed == all[..|freed|] && head == From(all, |freed|)
        invariant Distinct(all) && FreedUpTo(all, |freed|)
        decreases |all| - |freed|
      {
        assert all[..|freed|] + [all[|freed|]] == all[..|freed| + 1];
        freed := freed + [head];
        FreeHead(all, |freed| - 1);
      }
      nodes := [];
      AllFreed(all);
      NoZones();
    }

    /** Frees the first zone that is left, after reading what comes next. */
    method FreeHead(ghost all: seq<ZoneNode>, ghost k: nat)
      requires k < |all| && head == all[k] && Distinct(all) && FreedUpTo(all, k)
      modifies this`head, head
      ensures head == From(all, k + 1) && FreedUpTo(all, k + 1)
    {
      var next := head.next;
      head.Free();
      head := next;
    }
  }

  ghost function From(all: seq<ZoneNode>, k: nat): ZoneNode? { if k < |all| then all[k] else null }

  /** The first `k` zones are freed; the others are allocated, and linked. */
  ghost predicate FreedUpTo(all: seq<ZoneNode>, k: nat)
    reads all
  {
    forall i | 0 <= i < |all| :: if i < k then !all[i].live else all[i].live && all[i].next == Successor(all, i)
  }

  lemma FreedNothing(all: seq<ZoneNode>)
    requires Chained(all)
    ensures FreedUpTo(all, 0)
  {
  }

  lemma NoZones()
    ensures Chained([]) && Distinct([]) && Values([]) == []
  {
  }

  lemma AllFreed(all: seq<ZoneNode>)
    requires FreedUpTo(all, |all|)
    ensures forall n | n in all :: !n.live
  {
  }

  ghost function First(nodes: seq<ZoneNode>): ZoneNode? { if nodes == [] then null else nodes[0] }

  ghost predicate Chained(nodes: seq<ZoneNode>)
    reads nodes
  {
    forall i | 0 <= i < |nodes| :: nodes[i].live && nodes[i].next == Successor(nodes, i)
  }

  ghost predicate Distinct(nodes: seq<ZoneNode>) { forall i, j | 0 <= i < j < |nodes| :: nodes[i] != nodes[j] }

  ghost function Values(nodes: seq<ZoneNode>): (zones: seq<Zone>)
    reads nodes
    ensures |zones| == |nodes|
  {
    seq(|nodes|, i requires 0 <= i < |nodes| reads nodes => nodes[i].Value())
  }

  lemma TwoFirst<T>(a: T, b: T, rest: seq<T>)
    ensures [a, b] + rest == [a] + ([b] + rest)
  {
  }

  lemma LinkedSecond(first: ZoneNode, zone: ZoneNode, rest: seq<ZoneNode>)
    requires Chained(rest) && Distinct(rest) && first !in rest && zone !in rest && first != zone
    requires first.live && first.next == zone && zone.live && zone.next == First(rest)
    ensures
      var all := [first] + ([zone] + rest);
      Chained(all) && Distinct(all) && Values(all) == [first.Value()] + ([zone.Value()] + Values(rest))
  {
    hide Chained, Distinct, Values;
    FirstChained(rest, zone);
    FirstChained([zone] + rest, first);
  }

  /** A chain without its first zone. */
  lemma TailChained(nodes: seq<ZoneNode>)
    requires Chained(nodes) && Distinct(nodes) && nodes != []
    ensures Chained(nodes[1..]) && Distinct(nodes[1..]) && nodes[0] !in nodes[1..]
    ensures nodes[0].live && nodes[0].next == First(nodes[1..])
    ensures Values(nodes)[0] == nodes[0].Value() && Values(nodes[1..]) == Values(nodes)[1..]
  {
    var rest := nodes[1..];
    forall i | 0 <= i < |rest|
      ensures rest[i].live && rest[i].next == Successor(rest, i)
    {
      assert rest[i] == nodes[i + 1];
    }
  }

  /** A zone in front of a chain. */
  lemma FirstChained(nodes: seq<ZoneNode>, zone: ZoneNode)
    requires Chained(nodes) && Distinct(nodes) && zone !in nodes && zone.live && zone.next == First(nodes)
    ensures Chained([zone] + nodes) && Distinct([zone] + nodes)
    ensures Values([zone] + nodes) == [zone.Value()] + Values(nodes)
  {
    var all := [zone] + nodes;
    forall i | 0 < i < |all|
      ensures all[i].live && all[i].next == Successor(all, i)
    {
      assert all[i] == nodes[i - 1];
    }
  }

  ghost function Successor(nodes: seq<ZoneNode>, i: nat): ZoneNode?
    requires i < |nodes|
  {
    if i + 1 < |nodes| then nodes[i + 1] else null
  }
}
