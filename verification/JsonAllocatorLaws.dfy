/** Where the zone allocator puts the blocks of a sequence of calls, by sums of sizes rounded up to eight bytes. */
module JsonAllocatorLaws {
  import opened Bits
  import opened Common
  import opened JsonAllocator

  /** The size rounded up to whole words of eight bytes. */
  function Words8(size: nat): nat { 8 * ((size + 7) / 8) }

  function Packed(calls: seq<Call>): nat
    decreases |calls|
  {
    if calls == [] then 0 else Words8(calls[0].size) + Packed(calls[1..])
  }

  lemma RoundIs(size: nat)
    requires Words8(size) <= 4096
    ensures Round8(size) == Words8(size)
  {
  }

  lemma HeadStep(s: State, c: Call)
    requires s.zones != [] && s.zones[0].used + Words8(c.size) <= 4096
    ensures
      var z := s.zones[0];
      Step(s, c.size, c.malloc)
      == State([z.(used := z.used + Words8(c.size))] + s.zones[1..],
               s.blocks + [Block(z.base + z.used, Words8(c.size))])
  {
    hide Round8, Words8;
    RoundIs(c.size);
  }

  /** Calls that fit the head zone take it up side by side, without asking for memory. */
  lemma {:induction false} HeadInARow(s: State, calls: seq<Call>)
    requires s.zones != [] && s.zones[0].used + Packed(calls) <= 4096
    ensures
      var r, z := Calls(s, calls), s.zones[0];
      && r.zones == [z.(used := z.used + Packed(calls))] + s.zones[1..]
      && |r.blocks| == |s.blocks| + |calls| && r.blocks[..|s.blocks|] == s.blocks
      && forall i | 0 <= i < |calls| ::
           r.blocks[|s.blocks| + i] == Block(z.base + z.used + Packed(calls[..i]), Words8(calls[i].size))
    decreases |calls|
  {
    hide Step, Words8;
    var z := s.zones[0];
    if calls != [] {
      HeadStep(s, calls[0]);
      var s1, rest := Step(s, calls[0].size, calls[0].malloc), calls[1..];
      HeadInARow(s1, rest);
      var r := Calls(s, calls);
      assert s1.blocks[..|s.blocks|] == s.blocks;
      forall i | 0 <= i < |calls|
        ensures r.blocks[|s.blocks| + i] == Block(z.base + z.used + Packed(calls[..i]), Words8(calls[i].size))
      {
        if i == 0 {
          assert calls[..0] == [];
          assert r.blocks[..|s1.blocks|][|s.blocks|] == s1.blocks[|s.blocks|];
        } else {
          assert calls[..i][0] == calls[0] && calls[..i][1..] == rest[..i - 1];
          assert r.blocks[|s1.blocks| + (i - 1)] == r.blocks[|s.blocks| + i];
        }
      }
    }
  }

  lemma FirstStep(c: Call, base: nat)
    requires c.malloc == Some(base) && 16 + Words8(c.size) <= 4096
    ensures
      Step(EMPTY, c.size, c.malloc)
      == State([Zone(base, 4096, 16 + Words8(c.size))], [Block(base + 16, Words8(c.size))])
  {
    hide Round8, Words8;
    RoundIs(c.size);
  }

  /** Up to 4080 bytes in all, the blocks of a new allocator are side by side in one zone of 4096 bytes. */
  lemma {:induction false} SmallCallsInARow(calls: seq<Call>, base: nat)
    requires calls != [] && calls[0].malloc == Some(base) && Packed(calls) <= 4080
    ensures
      var r := Calls(EMPTY, calls);
      && r.zones == [Zone(base, 4096, 16 + Packed(calls))]
      && |r.blocks| == |calls|
      && forall i | 0 <= i < |calls| :: r.blocks[i] == Block(base + 16 + Packed(calls[..i]), Words8(calls[i].size))
  {
    hide Step, Words8, Calls;
    FirstStep(calls[0], base);
    var s1, rest := Step(EMPTY, calls[0].size, calls[0].malloc), calls[1..];
    HeadInARow(s1, rest);
    var r := Calls(s1, rest);
    assert Calls(EMPTY, calls) == r by { CallsCons(EMPTY, calls); }
    forall i | 0 <= i < |calls|
      ensures r.blocks[i] == Block(base + 16 + Packed(calls[..i]), Words8(calls[i].size))
    {
      if i == 0 {
        assert calls[..0] == [];
        assert r.blocks[..1][0] == s1.blocks[0];
      } else {
        assert calls[..i][0] == calls[0] && calls[..i][1..] == rest[..i - 1];
        assert r.blocks[1 + (i - 1)] == r.blocks[i];
      }
    }
  }

  lemma {:induction false} CallsCons(s: State, calls: seq<Call>)
    requires calls != []
    ensures Calls(s, calls) == Calls(Step(s, calls[0].size, calls[0].malloc), calls[1..])
  {
  }

  /** A block above 4080 bytes gets a zone of its own, and the next small one still comes from the head zone. */
  lemma LargeCallKeepsHead(s: State, large: nat, base: nat, small: Call)
    requires s.zones != [] && 16 <= s.zones[0].used && s.zones[0].used + Words8(small.size) <= 4096
    requires 4080 < large && Representable(large)
    ensures
      var s1 := Step(s, large, Some(base));
      var s2 := Step(s1, small.size, small.malloc);
      && s1.zones == [s.zones[0], Zone(base, 16 + Words8(large), 16 + Words8(large))] + s.zones[1..]
      && s2.blocks == s.blocks
                      + [Block(base + 16, Words8(large)),
                         Block(s.zones[0].base + s.zones[0].used, Words8(small.size))]
  {
    LargeStep(s, large, base);
    hide Step, Words8;
    HeadStep(Step(s, large, Some(base)), small);
  }

  lemma LargeStep(s: State, large: nat, base: nat)
    requires s.zones != [] && 16 <= s.zones[0].used <= 4096 && 4080 < large && Representable(large)
    ensures
      Step(s, large, Some(base))
      == State([s.zones[0], Zone(base, 16 + Words8(large), 16 + Words8(large))] + s.zones[1..],
               s.blocks + [Block(base + 16, Words8(large))])
  {
    LargeRound(large);
    hide Round8, Words8;
  }

  lemma LargeRound(large: nat)
    requires 4080 < large && Representable(large)
    ensures Round8(large) == Words8(large) && AllocSize(large) == 16 + Words8(large) && 4080 < Words8(large)
    ensures Words8(large) < 0x8000_0000_0000_0000
  {
  }
}
