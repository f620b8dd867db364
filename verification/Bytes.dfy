/** Bytes, runs of zero bytes, and little-endian integers of a fixed width. */
module Bytes {

  type byte = x: int | 0 <= x < 256

  function Zeros(n: nat): (s: seq<byte>)
    ensures |s| == n
  {
    seq(n, _ => 0)
  }

  function Pow256(n: nat): (p: nat)
    ensures p >= 1
  {
    if n == 0 then 1 else 256 * Pow256(n - 1)
  }

  function EncodeLE(v: nat, width: nat): (s: seq<byte>)
    ensures |s| == width
  {
    if width == 0 then [] else [v % 256] + EncodeLE(v / 256, width - 1)
  }

  function DecodeLE(s: seq<byte>): nat {
    if s == [] then 0 else s[0] + 256 * DecodeLE(s[1..])
  }

  /** A value that fits its width survives being written out and read back. */
  lemma {:induction false} EncodeDecode(v: nat, width: nat)
    requires v < Pow256(width)
    ensures DecodeLE(EncodeLE(v, width)) == v
  {
    if width > 0 {
      assert EncodeLE(v, width)[1..] == EncodeLE(v / 256, width - 1);
      EncodeDecode(v / 256, width - 1);
    }
  }

  lemma {:induction false} DecodeZeros(n: nat)
    ensures DecodeLE(Zeros(n)) == 0
  {
    if n > 0 {
      assert Zeros(n)[1..] == Zeros(n - 1);
      DecodeZeros(n - 1);
    }
  }

  lemma Pow256Values()
    ensures Pow256(1) == 0x100
    ensures Pow256(2) == 0x1_0000
    ensures Pow256(4) == 0x1_0000_0000
    ensures Pow256(6) == 0x1_0000_0000_0000
    ensures Pow256(8) == 0x1_0000_0000_0000_0000
  {
    assert Pow256(3) == 256 * Pow256(2);
    assert Pow256(4) == 256 * Pow256(3);
    assert Pow256(5) == 256 * Pow256(4);
    assert Pow256(6) == 256 * Pow256(5);
    assert Pow256(7) == 256 * Pow256(6);
  }
}
