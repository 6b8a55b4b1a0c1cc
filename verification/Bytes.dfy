/** Machine words and byte encodings shared by the wire formats. */
module Bytes {
  const TWO16 := 0x1_0000
  const TWO32 := 0x1_0000_0000
  const TWO64 := 0x1_0000_0000_0000_0000

  type byte = b: int | 0 <= b < 256
  type u16 = n: int | 0 <= n < 0x1_0000
  type u32 = n: int | 0 <= n < 0x1_0000_0000
  type u64 = n: int | 0 <= n < 0x1_0000_0000_0000_0000

  function Zeros(n: nat): (s: seq<byte>)
    ensures |s| == n
  {
    seq(n, i => 0)
  }

  /** `n` as `width` big-endian bytes; higher bits are cut off, as Go's PutUint does after a cast. */
  function ToBE(n: nat, width: nat): (s: seq<byte>)
    ensures |s| == width
  {
    if width == 0 then [] else ToBE(n / 256, width - 1) + [n % 256]
  }

  function FromBE(s: seq<byte>): (n: nat)
  {
    if s == [] then 0 else 256 * FromBE(s[..|s| - 1]) + s[|s| - 1]
  }

  function Pow256(width: nat): (n: nat)
    ensures n > 0
  {
    if width == 0 then 1 else 256 * Pow256(width - 1)
  }

  lemma {:induction false} BigEndianRoundTrip(n: nat, width: nat)
    requires n < Pow256(width)
    ensures FromBE(ToBE(n, width)) == n
  {
    if width > 0 {
      BigEndianRoundTrip(n / 256, width - 1);
      var s := ToBE(n, width);
      assert s[..|s| - 1] == ToBE(n / 256, width - 1);
    }
  }

  lemma {:induction false} WordRanges()
    ensures Pow256(2) == TWO16
    ensures Pow256(4) == TWO32
    ensures Pow256(8) == TWO64
  {
    assert Pow256(2) == 256 * (256 * Pow256(0));
    assert Pow256(4) == 256 * (256 * Pow256(2));
    assert Pow256(8) == 256 * (256 * (256 * (256 * Pow256(4))));
  }

  /** A uint32 as binary.BigEndian.PutUint32 stores it. */
  function BE32(n: u32): (s: seq<byte>)
    ensures |s| == 4
  {
    [n / 0x100_0000, n / 0x1_0000 % 256, n / 256 % 256, n % 256]
  }

  function FromBE32(b0: byte, b1: byte, b2: byte, b3: byte): u32 {
    0x100_0000 * (b0 as int) + 0x1_0000 * (b1 as int) + 256 * (b2 as int) + (b3 as int)
  }

  /** uint32(n): the conversion keeps the low 32 bits. */
  function Wrap32(n: nat): (r: u32)
    ensures n < TWO32 ==> r == n
  {
    n % TWO32
  }

  lemma {:induction false} BE32RoundTrip(n: u32)
    ensures var s := BE32(n); FromBE32(s[0], s[1], s[2], s[3]) == n
  {
    var h := n / 256;
    assert n / 0x1_0000 == h / 256 && n / 0x100_0000 == h / 256 / 256;
  }

  /** uint64 arithmetic: what is left of `n` after dropping whole multiples of 2^64. */
  function Wrap64(n: nat): (r: u64) {
    if n < TWO64 then n else Wrap64(n - TWO64)
  }

  lemma {:induction false} Wrap64IsMod(n: nat)
    ensures Wrap64(n) == n % TWO64
  {
    if n >= TWO64 { Wrap64IsMod(n - TWO64); }
  }

  lemma {:induction false} Wrap64Add(x: nat, n: nat)
    ensures Wrap64(Wrap64(x) + n) == Wrap64(x + n)
  {
    if x >= TWO64 { Wrap64Add(x - TWO64, n); }
  }
}
