/** Bits of octets, and the packing of coils eight to an octet, least significant bit first. */
module Bits {
  import opened Words

  function Pow2(j: nat): nat { if j == 0 then 1 else 2 * Pow2(j - 1) }

  // (b >> j) & 1
  function Bit(b: nat, j: nat): bool { if j == 0 then b % 2 == 1 else Bit(b / 2, j - 1) }

  // b | (1 << j)
  function OrBit(b: nat, j: nat): nat { if Bit(b, j) then b else b + Pow2(j) }

  lemma {:induction false} OrBitHalves(b: nat, j: nat)
    requires j > 0
    ensures OrBit(b, j) / 2 == OrBit(b / 2, j - 1) && OrBit(b, j) % 2 == b % 2
  {
    assert Pow2(j) == 2 * Pow2(j - 1);
  }

  // Or-ing in a bit sets that bit and no other.
  lemma {:induction false} OrBitBit(b: nat, j: nat, i: nat)
    ensures Bit(OrBit(b, j), i) == (i == j || Bit(b, i))
  {
    if j == 0 {
      if b % 2 == 0 {
        assert (b + 1) / 2 == b / 2;
      }
    } else {
      OrBitHalves(b, j);
      if i > 0 {
        OrBitBit(b / 2, j - 1, i - 1);
      }
    }
  }

  lemma {:induction false} OrBitFits(b: nat, j: nat, n: nat)
    requires b < Pow2(n) && j < n
    ensures OrBit(b, j) < Pow2(n)
  {
    hide Bit, Pow2, OrBit;
    Doubles(n);
    if j == 0 {
      OrLowBit(b);
    } else {
      OrBitHalves(b, j);
      OrBitFits(b / 2, j - 1, n - 1);
    }
  }

  lemma Doubles(n: nat)
    requires n > 0
    ensures Pow2(n) == 2 * Pow2(n - 1)
  {
  }

  lemma OrLowBit(b: nat)
    ensures OrBit(b, 0) == b - b % 2 + 1
  {
  }

  lemma OrBitByte(b: byte, j: nat)
    requires j < 8
    ensures OrBit(b, j) < 0x100
  {
    assert Pow2(4) == 16 && Pow2(8) == 16 * Pow2(4) by {
      assert Pow2(1) == 2 && Pow2(2) == 4 && Pow2(3) == 8 && Pow2(4) == 16;
      assert Pow2(5) == 32 && Pow2(6) == 64 && Pow2(7) == 128 && Pow2(8) == 256;
    }
    OrBitFits(b, j, 8);
  }

  lemma {:induction false} ZeroBits(j: nat)
    ensures !Bit(0, j)
  {
    if j > 0 {
      ZeroBits(j - 1);
    }
  }

  // ----- packing

  function PackByte(bs: seq<bool>): (b: byte)
    requires |bs| <= 8
  {
    if bs == [] then 0
    else
      var n := |bs| - 1;
      var rest := PackByte(bs[..n]);
      OrBitByte(rest, n);
      if bs[n] then OrBit(rest, n) else rest
  }

  lemma {:induction false} PackByteBit(bs: seq<bool>, j: nat)
    requires |bs| <= 8
    ensures Bit(PackByte(bs), j) == (j < |bs| && bs[j])
  {
    if bs == [] {
      ZeroBits(j);
    } else {
      var n := |bs| - 1;
      PackByteBit(bs[..n], j);
      OrBitBit(PackByte(bs[..n]), n, j);
    }
  }

  // The number of octets n bits take.
  function Octets(n: nat): nat { (n + 7) / 8 }

  // The bits that go into octet k.
  function Group(bs: seq<bool>, k: nat): (g: seq<bool>)
    requires k < Octets(|bs|)
    ensures 1 <= |g| <= 8
  {
    bs[8 * k..if 8 * k + 8 <= |bs| then 8 * k + 8 else |bs|]
  }

  function Pack(bs: seq<bool>): (p: seq<byte>)
    ensures |p| == Octets(|bs|)
    ensures forall k :: 0 <= k < |p| ==> p[k] == PackByte(Group(bs, k))
  {
    seq(Octets(|bs|), k requires 0 <= k < Octets(|bs|) => PackByte(Group(bs, k)))
  }

  // Bit i of a packed run that starts at octet `at`.
  function BitAt(d: seq<byte>, at: nat, i: nat): bool
    requires at + i / 8 < |d|
  {
    Bit(d[at + i / 8], i % 8)
  }

  function Unpack(d: seq<byte>, at: nat, n: nat): (bs: seq<bool>)
    requires at + Octets(n) <= |d|
    ensures |bs| == n && forall i :: 0 <= i < n ==> bs[i] == BitAt(d, at, i)
  {
    seq(n, i requires 0 <= i < n => BitAt(d, at, i))
  }

  lemma PackedBit(bs: seq<bool>, i: nat)
    requires i < |bs|
    ensures Bit(Pack(bs)[i / 8], i % 8) == bs[i]
  {
    PackByteBit(Group(bs, i / 8), i % 8);
  }

  // What is packed anywhere in a buffer is unpacked unchanged.
  lemma UnpackPack(before: seq<byte>, bs: seq<bool>, after: seq<byte>)
    ensures Unpack(before + Pack(bs) + after, |before|, |bs|) == bs
  {
    var d := before + Pack(bs) + after;
    var us := Unpack(d, |before|, |bs|);
    forall i | 0 <= i < |bs| ensures us[i] == bs[i] {
      PackedBit(bs, i);
      assert d[|before| + i / 8] == Pack(bs)[i / 8];
    }
  }

  // ----- the packing loops

  // One octet: the inner loop of write_coils_t::build_req and of a store's read callback.
  method PackOctet(bs: seq<bool>, from: nat, n: nat) returns (b: byte)
    requires n <= 8 && from + n <= |bs|
    ensures b == PackByte(bs[from..from + n])
  {
    b := 0;
    var bit := 0;
    while bit < n
      invariant 0 <= bit <= n
      invariant b == PackByte(bs[from..from + bit])
    {
      assert bs[from..from + bit + 1][..bit] == bs[from..from + bit];
      if bs[from + bit] {
        OrBitByte(b, bit);
        b := OrBit(b, bit);
      }
      bit := bit + 1;
    }
  }

  // All octets, counting the bits left down to zero.
  method PackBits(bs: seq<bool>) returns (p: seq<byte>)
    ensures p == Pack(bs)
  {
    p := [];
    var left := |bs|;
    while left != 0
      invariant 0 <= left <= |bs| && (left == 0 ==> |p| == Octets(|bs|))
      invariant left > 0 ==> |bs| - left == 8 * |p|
      invariant |p| <= Octets(|bs|)
      invariant forall k :: 0 <= k < |p| ==> p[k] == PackByte(Group(bs, k))
    {
      var nBits := if left > 8 then 8 else left;
      var b := PackOctet(bs, |bs| - left, nBits);
      assert bs[|bs| - left..|bs| - left + nBits] == Group(bs, |p|);
      p := p + [b];
      left := left - nBits;
    }
  }

  // A store's write callback: the bits of a run, octet by octet.
  method UnpackBits(d: seq<byte>, at: nat, n: nat) returns (bs: seq<bool>)
    requires at + Octets(n) <= |d|
    ensures bs == Unpack(d, at, n)
  {
    bs := [];
    var left, octet := n, 0;
    while left != 0
      invariant 0 <= left <= n && |bs| == n - left
      invariant left > 0 ==> |bs| == 8 * octet
      invariant forall i :: 0 <= i < |bs| ==> bs[i] == BitAt(d, at, i)
    {
      var nBits := if left > 8 then 8 else left;
      var bit := 0;
      while bit < nBits
        invariant 0 <= bit <= nBits && |bs| == 8 * octet + bit
        invariant forall i :: 0 <= i < |bs| ==> bs[i] == BitAt(d, at, i)
      {
        assert (8 * octet + bit) / 8 == octet && (8 * octet + bit) % 8 == bit;
        bs := bs + [Bit(d[at + octet], bit)];
        bit := bit + 1;
      }
      left := left - nBits;
      octet := octet + 1;
    }
  }
}
