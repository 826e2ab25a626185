/**
 The allocator that a parse is given, with the system's `malloc` behind it. `malloc` may fail at any call; what
 it returns is aligned and apart from all that it returned before.
 */
module JsonMemory {
  import opened Common
  import opened JsonAllocator

  class Memory {
    const allocator: Allocator
    // The system: what is above `brk` is free.
    var brk: nat
    ghost var blocks: seq<Block>
    ghost var failures: nat

    ghost predicate Valid()
      reads this, allocator, allocator.nodes
    {
      allocator.Valid() && Inv(State(allocator.Zones(), blocks)) && Under(allocator.Zones(), brk) && brk % 8 == 0
    }

    ghost function Zones(): set<ZoneNode>
      reads allocator
    {
      set z | z in allocator.nodes
    }

    twostate predicate OnlyNewZones()
      reads allocator
    {
      forall z | z in Zones() :: z in old(Zones()) || fresh(z)
    }

    constructor ()
      ensures Valid() && blocks == [] && failures == 0 && fresh(allocator) && allocator.nodes == []
    {
      allocator := new Allocator();
      brk, blocks, failures := 0, [], 0;
      new;
      EmptyIsGood();
    }

    /** The system's `malloc`, for a zone of the size that `allocate` asks for. */
    method Malloc(size: nat) returns (m: Option<nat>)
      requires Valid()
      modifies this`brk
      ensures Valid() && Honest(allocator.Zones(), size, m)
      ensures m.Some? ==> m.value + Capacity(size) <= brk
    {
      hide Inv, Allocator.Valid;
      var refuse: bool := *;
      if refuse || LARGEST < Capacity(size) {
        return None;
      }
      var gap: int := *;
      if gap < 0 {
        return None;
      }
      var at: nat := brk + 8 * gap;
      RoundedUp(at + Capacity(size));
      AboveIsHonest(allocator.Zones(), size, at, brk);
      hide Honest, Under, Capacity, Allocator.Valid;
      brk := (at + Capacity(size) + 7) / 8 * 8;
      return Some(at);
    }

    /** `allocate`: a block apart from all others, or no block when `malloc` has failed. */
    method Take(size: nat) returns (p: Option<nat>)
      requires Valid() && Representable(size)
      modifies this, allocator, Zones()
      ensures Valid() && OnlyNewZones()
      ensures p == None ==> blocks == old(blocks) && failures == old(failures) + 1
      ensures p == None ==> allocator.Zones() == old(allocator.Zones())
      ensures p.Some? ==> blocks == old(blocks) + [Block(p.value, Round8(size))] && failures == old(failures)
    {
      hide Inv, Honest, Capacity, Round8, Allocate, Allocator.Valid;
      var m := Malloc(size);
      ghost var zones := allocator.Zones();
      AlwaysSound(State(zones, blocks), size, m);
      StepKeeps(State(zones, blocks), size, m);
      StillUnder(zones, size, m, brk);
      StepIsAllocate(State(zones, blocks), size, m);
      NothingTaken(zones, size, m);
      p := allocator.AllocateBlock(size, m);
      if p == None {
        failures := failures + 1;
      } else {
        blocks := blocks + [Block(p.value, Round8(size))];
      }
    }
  }

  /** Memory above all zones is apart from them. */
  lemma AboveIsHonest(zones: seq<Zone>, size: nat, at: nat, brk: nat)
    requires Under(zones, brk) && brk <= at && at % 8 == 0 && Capacity(size) <= LARGEST
    ensures Honest(zones, size, Some(at)) && forall brk': nat | at + Capacity(size) <= brk' :: Under(zones, brk')
  {
    hide Capacity;
  }

  lemma RoundedUp(n: nat)
    ensures n <= (n + 7) / 8 * 8 && (n + 7) / 8 * 8 % 8 == 0
  {
  }

  /** All zones lie below an address. */
  ghost predicate Under(zones: seq<Zone>, brk: nat) {
    forall i | 0 <= i < |zones| :: zones[i].base + zones[i].capacity <= brk
  }

  lemma AlwaysSound(s: State, size: nat, m: Option<nat>)
    requires Inv(s) && Representable(size)
    ensures Sound(s.zones, size, m)
  {
    InvZones(s);
    Rounding(size);
    hide Round8;
    if s.zones != [] {
      HeadFits(s.zones, Round8(size));
    }
  }

  lemma NothingTaken(zones: seq<Zone>, size: nat, m: Option<nat>)
    ensures Allocate(zones, size, m).1 == None ==> Allocate(zones, size, m).0 == zones
  {
  }

  lemma StepIsAllocate(s: State, size: nat, m: Option<nat>)
    ensures
      var (zones, p) := Allocate(s.zones, size, m);
      Step(s, size, m) == State(zones, if p == None then s.blocks else s.blocks + [Block(p.value, Round8(size))])
  {
  }

  lemma StillUnder(zones: seq<Zone>, size: nat, m: Option<nat>, brk: nat)
    requires Under(zones, brk) && (m.Some? ==> m.value + Capacity(size) <= brk)
    ensures Under(Allocate(zones, size, m).0, brk)
  {
    hide Round8, Capacity;
  }
}
