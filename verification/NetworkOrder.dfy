/** Numbers as bytes in network byte order, and as bytes in the memory of a little-endian machine. */
module NetworkOrder {
  import opened Bits

  /** The `n` low-order bytes of a number, most significant first. */
  function BigEndian(x: nat, n: nat): (s: seq<Byte>)
    ensures |s| == n
  {
    if n == 0 then [] else BigEndian(x / 256, n - 1) + [x % 256]
  }

  function FromBigEndian(s: seq<Byte>): nat {
    if s == [] then 0 else FromBigEndian(s[..|s| - 1]) * 256 + s[|s| - 1]
  }

  function Power256(n: nat): (p: nat)
    ensures 0 < p
  {
    if n == 0 then 1 else Power256(n - 1) * 256
  }

  lemma {:induction false} BigEndianRoundTrip(x: nat, n: nat)
    requires x < Power256(n)
    ensures FromBigEndian(BigEndian(x, n)) == x
  {
    if n > 0 {
      BigEndianRoundTrip(x / 256, n - 1);
    }
  }

  lemma {:induction false} FromBigEndianBound(s: seq<Byte>)
    ensures FromBigEndian(s) < Power256(|s|)
  {
    if s != [] {
      FromBigEndianBound(s[..|s| - 1]);
    }
  }

  lemma Powers()
    ensures Power256(1) == 256 && Power256(2) == 0x1_0000 && Power256(4) == TWO_32 && Power256(8) == TWO_64
  {
    assert Power256(4) == 0x1_0000_0000;
    assert Power256(6) == 0x1_0000_0000_0000;
  }

  lemma BigEndian2(n: nat)
    ensures BigEndian(n, 2) == [n / 0x100 % 256, n % 256]
  {
    var k := 2;
    assert BigEndian(n, k) == BigEndian(n / 256, k - 1) + [n % 256];
    assert BigEndian(n / 256, k - 1) == [n / 256 % 256];
  }

  lemma BigEndianAdds(n: nat, k: nat)
    ensures BigEndian(n, k + 2) == BigEndian(n / 0x1_0000, k) + [n / 0x100 % 256, n % 256]
  {
    assert n / 256 / 256 == n / 0x1_0000;
    assert BigEndian(n, k + 2) == BigEndian(n / 256, k + 1) + [n % 256];
    assert BigEndian(n / 256, k + 1) == BigEndian(n / 0x1_0000, k) + [n / 256 % 256];
  }

  lemma BigEndian8(n: nat)
    ensures BigEndian(n, 8) ==
            [n / 0x100_0000_0000_0000 % 256, n / 0x1_0000_0000_0000 % 256, n / 0x100_0000_0000 % 256,
             n / 0x1_0000_0000 % 256, n / 0x100_0000 % 256, n / 0x1_0000 % 256, n / 0x100 % 256, n % 256]
  {
    hide BigEndian;
    var n1, n2, n3 := n / 0x1_0000, n / 0x1_0000_0000, n / 0x1_0000_0000_0000;
    assert n1 / 0x1_0000 == n2 && n2 / 0x1_0000 == n3;
    assert n1 / 0x100 == n / 0x100_0000 && n2 / 0x100 == n / 0x100_0000_0000 && n3 / 0x100 == n / 0x100_0000_0000_0000;
    BigEndianAdds(n, 6);
    BigEndianAdds(n1, 4);
    BigEndianAdds(n2, 2);
    BigEndian2(n3);
  }

  lemma BigEndian4(n: nat)
    ensures BigEndian(n, 4) == [n / 0x100_0000 % 256, n / 0x1_0000 % 256, n / 0x100 % 256, n % 256]
  {
    hide BigEndian;
    assert n / 0x1_0000 / 0x100 == n / 0x100_0000;
    BigEndianAdds(n, 2);
    BigEndian2(n / 0x1_0000);
  }

  /** The bytes of a number in the memory of a little-endian machine. */
  function LittleEndian(x: nat, n: nat): (s: seq<Byte>)
    ensures |s| == n
  {
    if n == 0 then [] else [x % 256] + LittleEndian(x / 256, n - 1)
  }

  function FromLittleEndian(s: seq<Byte>): nat {
    if s == [] then 0 else s[0] + 256 * FromLittleEndian(s[1..])
  }

  /** Network byte order is the memory of a little-endian machine read backwards. */
  lemma {:induction false} ReversedMemory(x: nat, n: nat, i: nat)
    requires i < n
    ensures BigEndian(x, n)[i] == LittleEndian(x, n)[n - 1 - i]
  {
    if i < n - 1 {
      ReversedMemory(x / 256, n - 1, i);
    }
  }

  lemma {:induction false} LittleEndianRoundTrip(x: nat, n: nat)
    requires x < Power256(n)
    ensures FromLittleEndian(LittleEndian(x, n)) == x
  {
    if n > 0 {
      LittleEndianRoundTrip(x / 256, n - 1);
      assert LittleEndian(x, n)[1..] == LittleEndian(x / 256, n - 1);
    }
  }
}
