/**
 SHA-1 as sections 4.1.1, 4.2.1, 5.1.1, 5.2.1, 5.3.1, 6.1.1 and 6.1.2 of FIPS 180-4 define it:
 pure functions over words and byte strings, with no buffer, no counter and no circular schedule.
 */
module Fips180 {

  import opened Bits
  import opened NetworkOrder

  datatype Registers = Registers(a: Word, b: Word, c: Word, d: Word, e: Word)

  type Block = b: seq<Byte> | |b| == 64 witness Zeros(64)

  const INITIAL_HASH: Registers :=
    Registers(0x67452301, 0xefcdab89, 0x98badcfe, 0x10325476, 0xc3d2e1f0)

  // Section 3.2: the circular left shifts that the algorithm uses.
  function Rotl1(x: Word): Word { OrWord(x * 2 % 0x1_0000_0000, x / 0x8000_0000) }

  function Rotl5(x: Word): Word { OrWord(x * 0x20 % 0x1_0000_0000, x / 0x800_0000) }

  function Rotl30(x: Word): Word { OrWord(x * 0x4000_0000 % 0x1_0000_0000, x / 4) }

  // Section 4.1.1.
  function Ch(x: Word, y: Word, z: Word): Word { XorWord(AndWord(x, y), AndWord(NotWord(x), z)) }

  function Parity(x: Word, y: Word, z: Word): Word { XorWord(XorWord(x, y), z) }

  function Maj(x: Word, y: Word, z: Word): Word {
    XorWord(XorWord(AndWord(x, y), AndWord(x, z)), AndWord(y, z))
  }

  function F(t: nat, x: Word, y: Word, z: Word): Word {
    if t < 20 then Ch(x, y, z) else if t < 40 then Parity(x, y, z) else if t < 60 then Maj(x, y, z) else Parity(x, y, z)
  }

  // Section 4.2.1.
  function K(t: nat): Word {
    if t < 20 then 0x5a827999 else if t < 40 then 0x6ed9eba1 else if t < 60 then 0x8f1bbcdc else 0xca62c1d6
  }

  function NextWord(w3: Word, w8: Word, w14: Word, w16: Word): Word {
    Rotl1(XorWord(XorWord(XorWord(w3, w8), w14), w16))
  }

  /** The message schedule of section 6.1.2, step 1: the word `W_t` of a block of sixteen words. */
  function W(block: seq<Word>, t: nat): Word
    requires |block| == 16
  {
    if t < 16 then block[t]
    else NextWord(W(block, t - 3), W(block, t - 8), W(block, t - 14), W(block, t - 16))
  }

  /** One round, section 6.1.2, step 3, for the value `f` of the round's logical function. */
  function Round(r: Registers, f: Word, k: Word, w: Word): Registers {
    Registers(AddWord(AddWord(AddWord(AddWord(Rotl5(r.a), f), r.e), w), k), r.a, Rotl30(r.b), r.c, r.d)
  }

  /** The registers after the first `t` rounds. */
  function Rounds(block: seq<Word>, r: Registers, t: nat): Registers
    requires |block| == 16
  {
    if t == 0 then r
    else
      var p := Rounds(block, r, t - 1);
      Round(p, F(t - 1, p.b, p.c, p.d), K(t - 1), W(block, t - 1))
  }

  /** The eighty rounds of section 6.1.2, counted as five for each word of the block. */
  function RoundCount(block: seq<Word>): nat { 5 * |block| }

  function AddRegisters(x: Registers, y: Registers): Registers {
    Registers(AddWord(x.a, y.a), AddWord(x.b, y.b), AddWord(x.c, y.c), AddWord(x.d, y.d), AddWord(x.e, y.e))
  }

  // Section 5.2.1: a block is sixteen big-endian words.
  function BigEndianWord(b0: Byte, b1: Byte, b2: Byte, b3: Byte): Word {
    b0 * 0x100_0000 + b1 * 0x1_0000 + b2 * 0x100 + b3
  }

  function BlockWords(bytes: Block): (ws: seq<Word>)
    ensures |ws| == 16
  {
    seq(16, i requires 0 <= i < 16 => BigEndianWord(bytes[4 * i], bytes[4 * i + 1], bytes[4 * i + 2], bytes[4 * i + 3]))
  }

  /** Section 6.1.2: the next intermediate hash value. */
  function Compress(h: Registers, bytes: Block): Registers {
    var block := BlockWords(bytes);
    AddRegisters(h, Rounds(block, h, RoundCount(block)))
  }

  /** The chaining of section 6.1.2 over the whole blocks of `bytes`, for a compression function `f`. */
  function HashBlocks<H>(f: (H, Block) -> H, h: H, bytes: seq<Byte>): H
    decreases |bytes|
  {
    if |bytes| < 64 then h else HashBlocks(f, f(h, bytes[..64]), bytes[64..])
  }

  /** The bytes after the whole blocks. */
  function Rest(bytes: seq<Byte>): (r: seq<Byte>)
    ensures |r| == |bytes| % 64
    decreases |bytes|
  {
    if |bytes| < 64 then bytes else Rest(bytes[64..])
  }

  /** Hashing may stop anywhere and go on with the bytes that were left over. */
  lemma {:induction false} HashBlocksAppend<H>(f: (H, Block) -> H, h: H, x: seq<Byte>, y: seq<Byte>)
    ensures HashBlocks(f, h, x + y) == HashBlocks(f, HashBlocks(f, h, x), Rest(x) + y)
    decreases |x|
  {
    if 64 <= |x| {
      assert (x + y)[..64] == x[..64] && (x + y)[64..] == x[64..] + y;
      HashBlocksAppend(f, f(h, x[..64]), x[64..], y);
    }
  }

  // Section 5.1.1, counted in bytes: a one bit, zeros, and the 64-bit length.

  function Zeros(n: nat): (z: seq<Byte>)
    ensures |z| == n
  {
    seq(n, _ => 0)
  }

  /** The number of zero bytes between the byte 0x80 and the length field. */
  function ZeroCount(length: nat): nat { (119 - length % 64) % 64 }

  /** `ZeroCount` is the smallest solution of the congruence that section 5.1.1 gives for `k`. */
  lemma ZeroCountIsSmallest(length: nat, k: nat)
    ensures (length + 1 + ZeroCount(length)) % 64 == 56
    ensures (length + 1 + k) % 64 == 56 ==> ZeroCount(length) <= k
  {
  }

  function PaddingWith(length: nat, bits: nat): (p: seq<Byte>)
    ensures (length + |p|) % 64 == 0
  {
    [0x80] + Zeros(ZeroCount(length)) + BigEndian(bits, 8)
  }

  function Pad(message: seq<Byte>): seq<Byte> {
    message + PaddingWith(|message|, 8 * |message|)
  }

  /** A padded message is a whole number of blocks, so that `HashBlocks` leaves no byte of it out. */
  lemma PadIsWholeBlocks(message: seq<Byte>)
    ensures Rest(Pad(message)) == [] && message <= Pad(message)
  {
    hide BigEndian;
    assert |Pad(message)| % 64 == 0;
  }

  function DigestBytes(h: Registers): (bytes: seq<Byte>)
    ensures |bytes| == 20
  {
    BigEndian(h.a, 4) + BigEndian(h.b, 4) + BigEndian(h.c, 4) + BigEndian(h.d, 4) + BigEndian(h.e, 4)
  }

  /** The digest of a message of fewer than 2^64 bits. */
  function Digest(message: seq<Byte>): seq<Byte>
    requires 8 * |message| < TWO_64
  {
    DigestBytes(HashBlocks(Compress, INITIAL_HASH, Pad(message)))
  }
}
