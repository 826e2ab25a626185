/**
 The streaming SHA-1 of core/crypto/sha1.cpp: a context with a reused 64-byte buffer, an 8-bit fill
 counter, a 64-bit length counter that wraps, and a circular schedule of sixteen words.

 `Snapshot` is the value of a context. `Put` is the byte-at-a-time form (PUTBYTE and PUTPAD of the
 source); the block copies of `Absorb` and the bulk zeroing of `Pad` are proved equal to it.
 */
module Sha1 {
  import opened Bits
  import opened Common
  import opened Fips180
  import opened NetworkOrder

  datatype Snapshot<H> = Snapshot(h: H, m: Block, count: nat, c: nat) {
    ghost predicate Valid() { count < 64 && c < TWO_64 }
  }

  // ---------------------------------------------------------------------------
  // The byte-at-a-time form, for a compression function `f`
  // ---------------------------------------------------------------------------

  /** One byte into the buffer; `counted` tells PUTBYTE (true) from PUTPAD (false). */
  ghost function Put<H>(f: (H, Block) -> H, s: Snapshot<H>, x: Byte, counted: bool): (r: Snapshot<H>)
    requires s.Valid()
    ensures r.Valid()
  {
    var c := Counted(s.c, 1, counted);
    var m := s.m[s.count := x];
    if s.count + 1 == 64 then Snapshot(f(s.h, m), Zeros(64), 0, c)
    else Snapshot(s.h, m, s.count + 1, c)
  }

  /** The 64-bit length counter after `n` more bytes. */
  ghost function Counted(c: nat, n: nat, counted: bool): (r: nat)
    ensures c < TWO_64 ==> r < TWO_64
  {
    if counted then (c + 8 * n) % 0x1_0000_0000_0000_0000 else c
  }

  ghost function PutAll<H>(f: (H, Block) -> H, s: Snapshot<H>, xs: seq<Byte>, counted: bool): (r: Snapshot<H>)
    requires s.Valid()
    ensures r.Valid()
    decreases |xs|
  {
    if xs == [] then s else PutAll(f, Put(f, s, xs[0], counted), xs[1..], counted)
  }

  /** Feeding `xs` and then `ys` leaves exactly the context that feeding `xs + ys` leaves. */
  lemma {:induction false} SplitIndependent<H>(
    f: (H, Block) -> H, s: Snapshot<H>, xs: seq<Byte>, ys: seq<Byte>, counted: bool)
    requires s.Valid()
    ensures PutAll(f, PutAll(f, s, xs, counted), ys, counted) == PutAll(f, s, xs + ys, counted)
    decreases |xs|
  {
    if xs == [] {
      assert xs + ys == ys;
    } else {
      assert (xs + ys)[0] == xs[0] && (xs + ys)[1..] == xs[1..] + ys;
      SplitIndependent(f, Put(f, s, xs[0], counted), xs[1..], ys, counted);
    }
  }

  lemma CountedStep(c: nat, n: nat, counted: bool)
    ensures Counted(Counted(c, 1, counted), n, counted) == Counted(c, n + 1, counted)
  {
    if counted {
      var q, r := (c + 8) / 0x1_0000_0000_0000_0000, (c + 8) % 0x1_0000_0000_0000_0000;
      assert c + 8 * (n + 1) == (r + 8 * n) + 0x1_0000_0000_0000_0000 * q;
      Wraps(r + 8 * n, q);
    }
  }

  lemma Wraps(x: nat, q: nat)
    ensures (x + 0x1_0000_0000_0000_0000 * q) % 0x1_0000_0000_0000_0000 == x % 0x1_0000_0000_0000_0000
  {
  }

  lemma NothingCounted(c: nat, counted: bool)
    requires c < TWO_64
    ensures Counted(c, 0, counted) == c
  {
  }

  lemma SpliceStep<T>(m: seq<T>, at: nat, xs: seq<T>)
    requires 0 < |xs| && at + |xs| <= |m|
    ensures Splice(m, at, xs) == Splice(m[at := xs[0]], at + 1, xs[1..])
  {
  }

  lemma SpliceOne<T>(m: seq<T>, at: nat, xs: seq<T>)
    requires |xs| == 1 && at < |m|
    ensures Splice(m, at, xs) == m[at := xs[0]]
  {
  }

  /** The context after copying a chunk that fits, with one compression when it fills the buffer. */
  ghost function Copied<H>(f: (H, Block) -> H, s: Snapshot<H>, xs: seq<Byte>, counted: bool): (r: Snapshot<H>)
    requires s.Valid() && s.count + |xs| <= 64
    ensures r.Valid() && r.count == (s.count + |xs|) % 64
  {
    var m := Splice(s.m, s.count, xs);
    var c := Counted(s.c, |xs|, counted);
    if s.count + |xs| == 64 then Snapshot(f(s.h, m), Zeros(64), 0, c)
    else Snapshot(s.h, m, s.count + |xs|, c)
  }

  lemma CopiedStep<H>(f: (H, Block) -> H, s: Snapshot<H>, xs: seq<Byte>, counted: bool)
    requires s.Valid() && s.count + |xs| <= 64 && 2 <= |xs|
    ensures
      var p := Put(f, s, xs[0], counted);
      p.count + |xs[1..]| <= 64 && Copied(f, s, xs, counted) == Copied(f, p, xs[1..], counted)
  {
    hide Counted, Zeros, Splice;
    SpliceStep(s.m, s.count, xs);
    CountedStep(s.c, |xs| - 1, counted);
  }

  lemma {:induction false} PutChunk<H>(f: (H, Block) -> H, s: Snapshot<H>, xs: seq<Byte>, counted: bool)
    requires s.Valid() && s.count + |xs| <= 64
    ensures PutAll(f, s, xs, counted) == Copied(f, s, xs, counted)
    decreases |xs|
  {
    hide Counted, Zeros;
    if xs == [] {
      NothingCounted(s.c, counted);
      assert Splice(s.m, s.count, xs) == s.m;
    } else {
      var p := Put(f, s, xs[0], counted);
      if |xs| == 1 {
        SpliceOne(s.m, s.count, xs);
        assert PutAll(f, p, xs[1..], counted) == p;
      } else {
        CopiedStep(f, s, xs, counted);
        PutChunk(f, p, xs[1..], counted);
        hide Copied, Put;
      }
    }
  }

  lemma {:induction false} PutAllCounts<H>(f: (H, Block) -> H, s: Snapshot<H>, xs: seq<Byte>, counted: bool)
    requires s.Valid()
    ensures PutAll(f, s, xs, counted).c == Counted(s.c, |xs|, counted)
    ensures PutAll(f, s, xs, counted).count == (s.count + |xs|) % 64
    decreases |xs|
  {
    if xs != [] {
      PutAllCounts(f, Put(f, s, xs[0], counted), xs[1..], counted);
      CountedStep(s.c, |xs| - 1, counted);
    }
  }

  /** What the buffer and the hash words mean: whole blocks are hashed, the rest is pending. */
  lemma {:induction false} PutAllHashesBlocks<H>(
    f: (H, Block) -> H, s: Snapshot<H>, xs: seq<Byte>, counted: bool)
    requires s.Valid()
    ensures
      var all := s.m[..s.count] + xs;
      var r := PutAll(f, s, xs, counted);
      r.h == HashBlocks(f, s.h, all) && r.m[..r.count] == Rest(all)
    decreases |xs|
  {
    hide Counted, Zeros;
    var all := s.m[..s.count] + xs;
    if xs == [] {
      assert all == s.m[..s.count];
    } else {
      var p := Put(f, s, xs[0], counted);
      PutAllHashesBlocks(f, p, xs[1..], counted);
      var rest := p.m[..p.count] + xs[1..];
      if s.count + 1 == 64 {
        assert s.m[s.count := xs[0]] == all[..64] && rest == all[64..];
      } else {
        assert rest == all;
      }
    }
  }

  /** The buffer is zero from the fill level on. */
  ghost predicate ZeroTail<H>(s: Snapshot<H>) { forall k | s.count <= k < 64 :: s.m[k] == 0 }

  lemma {:induction false} PutAllKeepsZeroTail<H>(f: (H, Block) -> H, s: Snapshot<H>, xs: seq<Byte>, counted: bool)
    requires s.Valid() && ZeroTail(s)
    ensures ZeroTail(PutAll(f, s, xs, counted))
    decreases |xs|
  {
    hide Counted;
    if xs != [] {
      PutAllKeepsZeroTail(f, Put(f, s, xs[0], counted), xs[1..], counted);
    }
  }

  ghost function Fresh<H>(h: H): (s: Snapshot<H>)
    ensures s.Valid()
  {
    Snapshot(h, Zeros(64), 0, 0)
  }

  lemma PaddingOfRemainder(length: nat, bits: nat)
    ensures PaddingWith(length % 64, bits) == PaddingWith(length, bits)
  {
    hide BigEndian;
    assert ZeroCount(length % 64) == ZeroCount(length);
  }

  /** Padding the pending bytes after a message hashes the message with the padding of section 5.1.1. */
  lemma PaddedMessageHash<H>(f: (H, Block) -> H, h: H, message: seq<Byte>)
    ensures
      var s := PutAll(f, Fresh(h), message, true);
      PutAll(f, s, PaddingWith(s.count, s.c), false).h
      == HashBlocks(f, h, message + PaddingWith(|message|, Counted(0, |message|, true)))
  {
    hide PutAll, HashBlocks, PaddingWith, Counted, Zeros, Rest;
    var s := PutAll(f, Fresh(h), message, true);
    PutAllCounts(f, Fresh(h), message, true);
    PutAllHashesBlocks(f, Fresh(h), message, true);
    assert Fresh(h).m[..0] + message == message;
    PaddingOfRemainder(|message|, s.c);
    var padding := PaddingWith(s.count, s.c);
    PutAllHashesBlocks(f, s, padding, false);
    HashBlocksAppend(f, h, message, padding);
  }

  // ---------------------------------------------------------------------------
  // The logical functions of the source
  // ---------------------------------------------------------------------------

  function F0(b: Word, c: Word, d: Word): (r: Word)
    ensures r == Ch(b, c, d)
  {
    PowersOfTwo();
    ChooseOrIsXor(b, c, d, 32);
    OrWord(AndWord(b, c), AndWord(NotWord(b), d))
  }

  function F1(b: Word, c: Word, d: Word): (r: Word)
    ensures r == Parity(b, c, d)
  {
    XorWord(XorWord(b, c), d)
  }

  function F2(b: Word, c: Word, d: Word): (r: Word)
    ensures r == Maj(b, c, d)
  {
    MajorityOrIsXor(b, c, d);
    OrWord(OrWord(AndWord(b, c), AndWord(b, d)), AndWord(c, d))
  }

  /** The same macro as F1, for the last twenty rounds. */
  function F3(b: Word, c: Word, d: Word): (r: Word)
    ensures r == Parity(b, c, d)
  {
    XorWord(XorWord(b, c), d)
  }

  /** `_K` of the source, indexed by `t / 20`. */
  const K_TABLE: seq<Word> := [0x5a827999, 0x6ed9eba1, 0x8f1bbcdc, 0xca62c1d6]

  /** The assignments of one round of the source are a round of section 6.1.2. */
  lemma RoundIs(x: Registers, f: Word, t: nat, w: Word)
    requires t < 80
    ensures
      var tmp := AddWord(AddWord(AddWord(AddWord(Rotl5(x.a), f), x.e), w), K_TABLE[t / 20]);
      Round(x, f, K(t), w) == Registers(tmp, x.a, Rotl30(x.b), x.c, x.d)
  {
    hide Rotl5, Rotl30, AddWord;
  }

  function LittleEndianWord(b0: Byte, b1: Byte, b2: Byte, b3: Byte): Word {
    b0 + b1 * 0x100 + b2 * 0x1_0000 + b3 * 0x100_0000
  }

  lemma EndianSwap(b0: Byte, b1: Byte, b2: Byte, b3: Byte)
    ensures LittleEndianWord(b3, b2, b1, b0) == BigEndianWord(b0, b1, b2, b3)
  {
  }

  lemma WordOfBlock(bytes: Block, i: nat)
    requires i < 16
    ensures BlockWords(bytes)[i] == BigEndianWord(bytes[4 * i], bytes[4 * i + 1], bytes[4 * i + 2], bytes[4 * i + 3])
  {
  }

  /** Where the byte swap of a little-endian machine takes byte `i` from. */
  function SwapSource(i: nat): (j: nat)
    ensures i < 64 ==> j < 64
  {
    4 * (i / 4) + 3 - i % 4
  }

  ghost predicate Swapped(x: seq<Byte>, t: Block) {
    |x| == 64 && forall k | 0 <= k < 64 :: x[k] == t[SwapSource(k)]
  }

  lemma SwapSourceInWord(i: nat)
    ensures SwapSource(4 * i) == 4 * i + 3 && SwapSource(4 * i + 1) == 4 * i + 2
    ensures SwapSource(4 * i + 2) == 4 * i + 1 && SwapSource(4 * i + 3) == 4 * i
  {
  }

  // ---------------------------------------------------------------------------
  // The circular schedule
  // ---------------------------------------------------------------------------

  /** The index of the schedule word that slot `j` holds before round `t`: the newest one congruent to `j`. */
  ghost function Held(t: nat, j: nat): (k: nat)
    requires j < 16
  {
    var newest := if t < 16 then 15 else t - 1;
    newest - (newest - j) % 16
  }

  lemma HeldBefore(t: nat, back: nat)
    requires 16 <= t && 1 <= back <= 16
    ensures Held(t, (t - back) % 16) == t - back
  {
  }

  lemma SmallRest(q: int, r: int)
    requires 0 <= r < 32
    ensures (16 * q + r) % 16 == if r < 16 then r else r - 16
  {
  }

  lemma HeldAfter(t: nat, j: nat)
    requires j < 16
    ensures Held(t + 1, j) == if 16 <= t && j == t % 16 then t else Held(t, j)
  {
    if 16 <= t {
      var q, r := (t - j) / 16, (t - j) % 16;
      assert t == 16 * q + (r + j);
      SmallRest(q, r + j);
      if r == 0 {
        assert t - 1 - j == 16 * (q - 1) + 15;
        SmallRest(q - 1, 15);
      } else {
        assert t - 1 - j == 16 * q + (r - 1);
        SmallRest(q, r - 1);
      }
    }
  }

  ghost predicate HoldsWindow(w: seq<Word>, block: seq<Word>, t: nat)
    requires |block| == 16
  {
    |w| == 16 && forall j: nat | j < 16 :: w[j] == W(block, Held(t, j))
  }

  lemma WindowStart(block: seq<Word>)
    requires |block| == 16
    ensures HoldsWindow(block, block, 0)
  {
    assert forall j: nat | j < 16 :: Held(0, j) == j;
  }

  /** The slot `k` places on from that of round `t`, as `(s + k) & 0x0f` in the source. */
  function Slot(t: nat, k: nat): (j: nat)
    ensures j < 16
  {
    (t % 16 + k) % 16
  }

  lemma SlotBefore(t: nat, back: nat)
    requires 16 <= t && back <= 16
    ensures Slot(t, 16 - back) == (t - back) % 16
  {
    var q, x := t / 16 - 1, t % 16 + 16 - back;
    assert t - back == x + 16 * q;
    assert (x + 16 * q) % 16 == x % 16;
  }

  lemma HeldWord(w: seq<Word>, block: seq<Word>, t: nat, back: nat)
    requires |block| == 16 && 16 <= t && 1 <= back <= 16 && HoldsWindow(w, block, t)
    ensures w[Slot(t, 16 - back)] == W(block, t - back)
  {
    hide W, Slot;
    SlotBefore(t, back);
    HeldBefore(t, back);
  }

  lemma ScheduleStep(block: seq<Word>, t: nat)
    requires |block| == 16 && 16 <= t
    ensures W(block, t) == NextWord(W(block, t - 3), W(block, t - 8), W(block, t - 14), W(block, t - 16))
  {
  }

  /** The slot update of the source computes the next word of the 80-word recurrence. */
  lemma NextSlot(w: seq<Word>, block: seq<Word>, t: nat)
    requires |block| == 16 && 16 <= t && HoldsWindow(w, block, t)
    ensures NextWord(w[Slot(t, 13)], w[Slot(t, 8)], w[Slot(t, 2)], w[Slot(t, 0)]) == W(block, t)
  {
    hide NextWord, HoldsWindow, W, Slot;
    ScheduleStep(block, t);
    HeldWord(w, block, t, 3);
    HeldWord(w, block, t, 8);
    HeldWord(w, block, t, 14);
    HeldWord(w, block, t, 16);
  }

  lemma WindowAdvances(w: seq<Word>, block: seq<Word>, t: nat)
    requires |block| == 16 && 16 <= t && HoldsWindow(w, block, t)
    ensures HoldsWindow(w[t % 16 := W(block, t)], block, t + 1)
  {
    hide W;
    var w' := w[t % 16 := W(block, t)];
    forall j: nat | j < 16
      ensures w'[j] == W(block, Held(t + 1, j))
    {
      HeldAfter(t, j);
    }
  }

  lemma WindowStays(w: seq<Word>, block: seq<Word>, t: nat)
    requires |block| == 16 && t < 16 && HoldsWindow(w, block, t)
    ensures w[t] == W(block, t) && HoldsWindow(w, block, t + 1)
  {
    assert Held(t, t) == t;
    forall j: nat | j < 16
      ensures Held(t + 1, j) == Held(t, j)
    {
      HeldAfter(t, j);
    }
  }

  class Context {
    const h: array<Word>
    const m: array<Byte>
    var count: nat
    var c: nat

    ghost predicate Valid()
      reads this, h, m
    {
      h.Length == 5 && m.Length == 64 && count < 64 && c < TWO_64
    }

    ghost function Hash(): Registers
      reads this, h
      requires h.Length == 5
    {
      Registers(h[0], h[1], h[2], h[3], h[4])
    }

    ghost function Value(): (s: Snapshot<Registers>)
      reads this, h, m
      requires Valid()
      ensures s.Valid()
    {
      Snapshot(Hash(), m[..], count, c)
    }

    /** `sha1_init`. */
    constructor ()
      ensures Valid() && fresh(h) && fresh(m)
      ensures Value() == Fresh(INITIAL_HASH)
    {
      h := new Word[] [0x67452301, 0xefcdab89, 0x98badcfe, 0x10325476, 0xc3d2e1f0];
      m := new Byte[64](_ => 0);
      count, c := 0, 0;
    }

    /** The byte swap of `sha1_step` on a little-endian machine, and the buffer seen as words. */
    method LoadWords() returns (w: array<Word>)
      requires Valid()
      modifies m
      ensures fresh(w) && w.Length == 16
      ensures w[..] == BlockWords(old(m[..]))
    {
      hide BlockWords, BigEndianWord, LittleEndianWord, SwapSource, Swapped;
      ghost var t := m[..];
      ghost var words := BlockWords(t);
      SwapBytes();
      w := new Word[16];
      ghost var x := m[..];
      for i := 0 to 16
        invariant m[..] == x && forall j | 0 <= j < i :: w[j] == words[j]
      {
        var word := LoadWord(i, t);
        w[i] := word;
      }
    }

    method SwapBytes()
      requires Valid()
      modifies m
      ensures Swapped(m[..], old(m[..]))
    {
      var t := m[..];
      hide SwapSource;
      forall i | 0 <= i < 64 {
        m[i] := t[SwapSource(i)];
      }
    }

    /** Word `i` of the swapped buffer, as a little-endian machine reads it. */
    method LoadWord(i: nat, ghost t: Block) returns (word: Word)
      requires Valid() && i < 16 && Swapped(m[..], t)
      ensures word == BlockWords(t)[i]
    {
      hide LittleEndianWord, BigEndianWord, SwapSource, BlockWords;
      SwapSourceInWord(i);
      WordOfBlock(t, i);
      EndianSwap(t[4 * i], t[4 * i + 1], t[4 * i + 2], t[4 * i + 3]);
      ghost var x := m[..];
      assert x[4 * i] == t[4 * i + 3] && x[4 * i + 1] == t[4 * i + 2];
      assert x[4 * i + 2] == t[4 * i + 1] && x[4 * i + 3] == t[4 * i];
      return LittleEndianWord(m[4 * i], m[4 * i + 1], m[4 * i + 2], m[4 * i + 3]);
    }

    method AdvanceSlot(w: array<Word>, t: nat, ghost block: seq<Word>)
      requires w.Length == 16 && |block| == 16 && 16 <= t
      requires HoldsWindow(w[..], block, t)
      modifies w
      ensures w[t % 16] == W(block, t) && HoldsWindow(w[..], block, t + 1)
    {
      hide W, HoldsWindow, Rotl1, XorWord;
      var s := Slot(t, 0);
      NextSlot(w[..], block, t);
      WindowAdvances(w[..], block, t);
      ghost var before := w[..];
      w[s] := Rotl1(XorWord(XorWord(XorWord(w[Slot(t, 13)], w[Slot(t, 8)]), w[Slot(t, 2)]), w[s]));
      assert w[..] == before[s := w[s]];
    }

    /** `sha1_step`: the circular schedule computes the compression of section 6.1.2. */
    method Step()
      requires Valid()
      modifies h, m
      ensures Valid()
      ensures Value() == old(Snapshot(Compress(Hash(), m[..]), Zeros(64), count, c))
    {
      hide BlockWords, Round, W, K, F0, F1, F2, Ch, Parity, Maj, HoldsWindow, Rotl5, Rotl30, AddWord;
      ghost var block := BlockWords(m[..]);
      WindowStart(block);
      var w := LoadWords();
      ghost var r := Hash();
      var a, b, c, d, e, tmp := h[0], h[1], h[2], h[3], h[4], 0;
      for t := 0 to 20
        invariant h.Length == 5 && Hash() == r && fresh(w) && w.Length == 16 && HoldsWindow(w[..], block, t)
        invariant Registers(a, b, c, d, e) == Rounds(block, r, t)
      {
        if t >= 16 {
          AdvanceSlot(w, t, block);
        } else {
          WindowStays(w[..], block, t);
        }
        tmp := AddWord(AddWord(AddWord(AddWord(Rotl5(a), F0(b, c, d)), e), w[t % 16]), K_TABLE[t / 20]);
        RoundIs(Registers(a, b, c, d, e), F0(b, c, d), t, w[t % 16]);
        e, d, c, b, a := d, c, Rotl30(b), a, tmp;
      }
      for t := 20 to 40
        invariant h.Length == 5 && Hash() == r && fresh(w) && w.Length == 16 && HoldsWindow(w[..], block, t)
        invariant Registers(a, b, c, d, e) == Rounds(block, r, t)
      {
        AdvanceSlot(w, t, block);
        tmp := AddWord(AddWord(AddWord(AddWord(Rotl5(a), F1(b, c, d)), e), w[t % 16]), K_TABLE[t / 20]);
        RoundIs(Registers(a, b, c, d, e), F1(b, c, d), t, w[t % 16]);
        e, d, c, b, a := d, c, Rotl30(b), a, tmp;
      }
      for t := 40 to 60
        invariant h.Length == 5 && Hash() == r && fresh(w) && w.Length == 16 && HoldsWindow(w[..], block, t)
        invariant Registers(a, b, c, d, e) == Rounds(block, r, t)
      {
        AdvanceSlot(w, t, block);
        tmp := AddWord(AddWord(AddWord(AddWord(Rotl5(a), F2(b, c, d)), e), w[t % 16]), K_TABLE[t / 20]);
        RoundIs(Registers(a, b, c, d, e), F2(b, c, d), t, w[t % 16]);
        e, d, c, b, a := d, c, Rotl30(b), a, tmp;
      }
      for t := 60 to 80
        invariant h.Length == 5 && Hash() == r && fresh(w) && w.Length == 16 && HoldsWindow(w[..], block, t)
        invariant Registers(a, b, c, d, e) == Rounds(block, r, t)
      {
        AdvanceSlot(w, t, block);
        tmp := AddWord(AddWord(AddWord(AddWord(Rotl5(a), F3(b, c, d)), e), w[t % 16]), K_TABLE[t / 20]);
        RoundIs(Registers(a, b, c, d, e), F3(b, c, d), t, w[t % 16]);
        e, d, c, b, a := d, c, Rotl30(b), a, tmp;
      }
      h[0] := AddWord(h[0], a);
      h[1] := AddWord(h[1], b);
      h[2] := AddWord(h[2], c);
      h[3] := AddWord(h[3], d);
      h[4] := AddWord(h[4], e);
      forall i | 0 <= i < 64 {
        m[i] := 0;
      }
      assert m[..] == Zeros(64);
    }

    /** `sha1_loop`: copying in chunks is feeding the bytes one at a time. */
    method Absorb(input: seq<Byte>)
      requires Valid()
      modifies this, h, m
      ensures Valid()
      ensures Value() == PutAll(Compress, old(Value()), input, true)
    {
      hide Compress, PutAll, Put, Copied;
      var off := 0;
      assert input[0..] == input;
      while off < |input|
        invariant Valid() && off <= |input|
        invariant PutAll(Compress, Value(), input[off..], true) == PutAll(Compress, old(Value()), input, true)
      {
        var gaplen := 64 - count % 64;
        var copysiz := if gaplen < |input| - off then gaplen else |input| - off;
        ghost var chunk := input[off..off + copysiz];
        PutChunk(Compress, Value(), chunk, true);
        SplitIndependent(Compress, Value(), chunk, input[off + copysiz..], true);
        assert input[off..] == chunk + input[off + copysiz..];
        CopyIn(input, off, copysiz);
        off := off + copysiz;
      }
      assert input[off..] == [];
      PutNothing(Compress, Value(), true);
    }

    /** One turn of the loop of `sha1_loop`. */
    method CopyIn(input: seq<Byte>, off: nat, copysiz: nat)
      requires Valid() && off + copysiz <= |input| && 0 < copysiz && count + copysiz <= 64
      modifies this, h, m
      ensures Valid()
      ensures Value() == Copied(Compress, old(Value()), input[off..off + copysiz], true)
    {
      hide Compress, Splice;
      CopyBytes(count % 64, input, off, copysiz);
      count := (count + copysiz) % 256;
      count := count % 64;
      c := (c + copysiz * 8) % 0x1_0000_0000_0000_0000;
      if count % 64 == 0 {
        Step();
      }
    }

    method CopyBytes(gapstart: nat, input: seq<Byte>, off: nat, copysiz: nat)
      requires Valid() && off + copysiz <= |input| && gapstart + copysiz <= 64
      modifies m
      ensures m[..] == Splice(old(m[..]), gapstart, input[off..off + copysiz])
    {
      forall i | 0 <= i < copysiz {
        m[gapstart + i] := input[off + i];
      }
    }

    /** PUTPAD. */
    method PutPad(x: Byte)
      requires Valid()
      modifies this, h, m
      ensures Valid() && c == old(c) && count == (old(count) + 1) % 64
      ensures Value() == Put(Compress, old(Value()), x, false)
    {
      hide Compress;
      ghost var before := m[..];
      m[count % 64] := x;
      assert m[..] == before[count := x];
      count := (count + 1) % 256;
      count := count % 64;
      if count % 64 == 0 {
        Step();
      }
    }

    method ZeroBytes(padstart: nat, n: nat)
      requires Valid() && padstart + n <= 64
      modifies m
      ensures m[..] == Splice(old(m[..]), padstart, Zeros(n))
    {
      forall i | padstart <= i < padstart + n {
        m[i] := 0;
      }
    }

    /** Zeros that leave room in the buffer. */
    method ZeroFill(n: nat)
      requires Valid() && count + n < 64
      modifies this`count, m
      ensures Valid() && c == old(c)
      ensures Value() == Copied(Compress, old(Value()), Zeros(n), false)
    {
      hide Compress, Splice;
      ZeroBytes(count % 64, n);
      count := (count + n) % 256;
      count := count % 64;
    }

    /** Zeros up to the end of the buffer, which is then compressed. */
    method ZeroFillBlock(padlen: nat)
      requires Valid() && count + padlen == 64
      modifies this`count, h, m
      ensures Valid() && c == old(c)
      ensures Value() == Copied(Compress, old(Value()), Zeros(padlen), false)
    {
      hide Compress, Splice;
      ZeroBytes(count % 64, padlen);
      count := (count + padlen) % 256;
      count := count % 64;
      Step();
    }

    /** `sha1_pad`: the one or two blocks of the tail are the padding bytes fed one at a time. */
    method Pad()
      requires Valid()
      modifies this, h, m
      ensures Valid()
      ensures Value() == PutAll(Compress, old(Value()), PaddingWith(old(count), old(c)), false)
    {
      hide Compress, PutAll, Put, Copied, BigEndian, Zeros, ZeroCount;
      ghost var s := Value();
      PutOne(Compress, s, 0x80, false);
      PutPad(0x80);
      PadZeros(s);
      PutLength(s, [0x80] + Zeros(ZeroCount(s.count)));
    }

    /** The zeros after the byte 0x80, in one or two blocks. */
    method PadZeros(ghost s: Snapshot<Registers>)
      requires Valid() && s.Valid() && count == (s.count + 1) % 64 && c == s.c
      requires Value() == PutAll(Compress, s, [0x80], false)
      modifies this, h, m
      ensures Valid() && c == old(c)
      ensures Value() == PutAll(Compress, s, [0x80] + Zeros(ZeroCount(s.count)), false)
    {
      hide Compress, PutAll, Put, Copied, Zeros, ZeroCount;
      ghost var first := 0;
      NoZeros();
      assert [0x80] + Zeros(0) == [0x80];
      var padlen := 64 - count % 64;
      if padlen < 8 {
        first := padlen;
        FedZeros(Compress, s, 0, Value(), padlen);
        ZeroFillBlock(padlen);
        padlen := 64 - count % 64;
      }
      FedZeros(Compress, s, first, Value(), padlen - 8);
      ZeroFill(padlen - 8);
      TailZeros(s.count);
    }

    /** The eight PUTPADs of the length, most significant byte first. */
    method PutLength(ghost s: Snapshot<Registers>, ghost fed: seq<Byte>)
      requires Valid() && s.Valid() && Value() == PutAll(Compress, s, fed, false)
      modifies this, h, m
      ensures Valid()
      ensures Value() == PutAll(Compress, s, fed + BigEndian(old(c), 8), false)
    {
      hide Compress, PutAll, Put, BigEndian, LittleEndian;
      var memory := LittleEndian(c, 8);
      ghost var field := BigEndian(c, 8);
      assert fed + field[..0] == fed;
      for i := 0 to 8
        invariant Valid() && c == old(c)
        invariant Value() == PutAll(Compress, s, fed + field[..i], false)
      {
        PutOne(Compress, Value(), field[i], false);
        SplitIndependent(Compress, s, fed + field[..i], [field[i]], false);
        assert fed + field[..i] + [field[i]] == fed + field[..i + 1];
        ReversedMemory(c, 8, i);
        PutPad(memory[7 - i]);
      }
      assert field[..8] == field;
    }

    /** `sha1_result`: the hash words as bytes, each word most significant byte first. */
    method Result() returns (digest: seq<Byte>)
      requires Valid()
      modifies this, h, m
      ensures Valid()
      ensures
        var s := PutAll(Compress, old(Value()), PaddingWith(old(count), old(c)), false);
        digest == DigestBytes(s.h)
    {
      hide Compress, PutAll;
      Pad();
      ghost var hash := Hash();
      digest := [];
      for i := 0 to 5
        invariant Valid() && Hash() == hash
        invariant digest == DigestBytes(hash)[..4 * i]
      {
        DigestPart(hash, i);
        hide DigestBytes, BigEndian, LittleEndian;
        var memory := LittleEndian(h[i], 4);
        MemoryOfWord(h[i]);
        digest := digest + [memory[3], memory[2], memory[1], memory[0]];
      }
    }
  }

  lemma MemoryOfWord(x: Word)
    ensures
      var memory := LittleEndian(x, 4);
      [memory[3], memory[2], memory[1], memory[0]] == BigEndian(x, 4)
  {
    hide BigEndian, LittleEndian;
    var memory := LittleEndian(x, 4);
    forall i: nat | i < 4
      ensures [memory[3], memory[2], memory[1], memory[0]][i] == BigEndian(x, 4)[i]
    {
      ReversedMemory(x, 4, i);
    }
  }

  lemma DigestPart(h: Registers, i: nat)
    requires i < 5
    ensures DigestBytes(h)[..4 * i] + BigEndian([h.a, h.b, h.c, h.d, h.e][i], 4) == DigestBytes(h)[..4 * (i + 1)]
  {
    hide BigEndian;
    match i
    case 0 | 1 | 2 | 3 | 4 =>
  }

  /** The zeros that one or two tail blocks need are those of section 5.1.1. */
  lemma TailZeros(count: nat)
    requires count < 64
    ensures
      var used := (count + 1) % 64;
      ZeroCount(count) == if 64 - used < 8 then (64 - used) + 56 else 56 - used
  {
  }

  lemma PutNothing<H>(f: (H, Block) -> H, s: Snapshot<H>, counted: bool)
    requires s.Valid()
    ensures PutAll(f, s, [], counted) == s
  {
  }

  lemma NoZeros()
    ensures Zeros(0) == []
  {
  }

  lemma PutOne<H>(f: (H, Block) -> H, s: Snapshot<H>, x: Byte, counted: bool)
    requires s.Valid()
    ensures PutAll(f, s, [x], counted) == Put(f, s, x, counted)
  {
    assert [x][1..] == [];
  }

  /** Zeros that fit in the buffer extend those fed after the byte 0x80. */
  lemma FedZeros<H>(f: (H, Block) -> H, s: Snapshot<H>, k: nat, now: Snapshot<H>, n: nat)
    requires s.Valid() && now.Valid() && now.count + n <= 64
    requires now == PutAll(f, s, [0x80] + Zeros(k), false)
    ensures PutAll(f, s, [0x80] + Zeros(k + n), false) == Copied(f, now, Zeros(n), false)
  {
    hide PutAll, Copied;
    PutChunk(f, now, Zeros(n), false);
    SplitIndependent(f, s, [0x80] + Zeros(k), Zeros(n), false);
    assert [0x80] + Zeros(k) + Zeros(n) == [0x80] + Zeros(k + n);
  }

  /** `SHA1` of the source, for every message: the length field holds the bit length modulo 2^64. */
  method Hash(message: seq<Byte>) returns (digest: seq<Byte>)
    ensures digest == DigestBytes(HashBlocks(Compress, INITIAL_HASH,
                                             message + PaddingWith(|message|, Counted(0, |message|, true))))
    ensures 8 * |message| < TWO_64 ==> digest == Digest(message)
  {
    hide Compress, PutAll, PaddingWith, HashBlocks;
    PaddedMessageHash(Compress, INITIAL_HASH, message);
    var ctx := new Context();
    ctx.Absorb(message);
    digest := ctx.Result();
  }
}
