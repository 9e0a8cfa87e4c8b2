/** Requests for one register or coil that bring less than their handlers read: 0x05, 0x06 and 0x16
    (emodbus/server/write_coil.c, write_single_reg.c, write_mask_reg.c) do not look at data_size and take
    the missing octets from what the receive buffer held. */
module ShortSingles {
  import opened Words
  import opened Bits
  import opened Pdus
  import opened Registry
  import opened Cells
  import opened ServerRegs
  import opened MaskBits
  import Coils

  // ----- one register

  // 0x06 puts a value into the register, 0x16 masks the one that is there.
  datatype Writer = Put | Mask

  // The registers after request p, with the octets `stale` behind it in the receive buffer.
  function RegsAfter(w: Writer, blocks: seq<RegBlock>, p: seq<byte>, stale: seq<byte>, txMax: byte): seq<RegBlock>
    requires AllValid(blocks) && Storage(p + stale)
  {
    if w.Put? then WriteReg(blocks, p + stale, txMax).holdings else MaskReg(blocks, p + stale, txMax).holdings
  }

  // The request alone decides what is written.
  ghost predicate Determined(w: Writer, blocks: seq<RegBlock>, p: seq<byte>, txMax: byte)
    requires AllValid(blocks)
  {
    forall s: seq<byte>, t: seq<byte> :: Storage(p + s) && Storage(p + t) ==>
      RegsAfter(w, blocks, p, s, txMax) == RegsAfter(w, blocks, p, t, txMax)
  }

  // A request that names a register whose block grants the write.
  predicate Granted(w: Writer, blocks: seq<RegBlock>, p: seq<byte>)
    requires AllValid(blocks)
  {
    && |p| >= 2
    && var k := Locate(blocks, Get16(p, 0), 1);
       && k.Some? && blocks[k.value].write == Answers(0)
       && (w.Mask? ==> blocks[k.value].read == Answers(0))
  }

  // With room for the reply those are the requests that are confirmed.
  lemma GrantedIff(w: Writer, blocks: seq<RegBlock>, p: seq<byte>, stale: seq<byte>, txMax: byte)
    requires AllValid(blocks) && |p| >= 2 && Storage(p + stale) && txMax >= 6
    ensures Granted(w, blocks, p) <==>
            (if w.Put? then WriteReg(blocks, p + stale, txMax).code else MaskReg(blocks, p + stale, txMax).code) == 0
  {
    hide Locate, Written, PutWords, Masked, Mk;
    assert Get16(p + stale, 0) == Get16(p, 0);
  }

  function Register(w: Writer, blocks: seq<RegBlock>, p: seq<byte>): word
    requires AllValid(blocks) && Granted(w, blocks, p)
  {
    var b := blocks[Locate(blocks, Get16(p, 0), 1).value];
    b.cells[Get16(p, 0) - b.start]
  }

  function NewValue(w: Writer, held: word, d: seq<byte>): word
    requires Storage(d)
  {
    if w.Put? then Get16(d, 2) else Masked(held, Get16(d, 2), Get16(d, 4))
  }

  lemma GrantedWrites(w: Writer, blocks: seq<RegBlock>, p: seq<byte>, stale: seq<byte>, txMax: byte)
    requires AllValid(blocks) && Granted(w, blocks, p) && Storage(p + stale)
    ensures var k := Locate(blocks, Get16(p, 0), 1).value;
            RegsAfter(w, blocks, p, stale, txMax) ==
              Written(blocks, k, Get16(p, 0) - blocks[k].start, [NewValue(w, Register(w, blocks, p), p + stale)])
  {
    hide Locate, Written, PutWords, Masked, Mk;
    assert Get16(p + stale, 0) == Get16(p, 0);
  }

  // Every bit that the OR mask decides lies in the octets the request brings.
  predicate Whole(w: Writer, p: seq<byte>) {
    match w
    case Put => |p| >= 4
    case Mask => |p| >= 6 || (|p| == 5 && p[3] == 0xFF) || (|p| == 4 && p[2] == 0xFF && p[3] == 0xFF)
  }

  // What is written is the same for all octets behind the request exactly then.
  lemma DeterminedIff(w: Writer, blocks: seq<RegBlock>, p: seq<byte>, txMax: byte)
    requires AllValid(blocks) && Granted(w, blocks, p)
    ensures Determined(w, blocks, p, txMax) <==> Whole(w, p)
  {
    hide Locate, Written, RegsAfter, NewValue, Get16, Whole, Granted;
    var k := Located(w, blocks, p);
    if Whole(w, p) {
      forall s: seq<byte>, t: seq<byte> | Storage(p + s) && Storage(p + t)
        ensures RegsAfter(w, blocks, p, s, txMax) == RegsAfter(w, blocks, p, t, txMax)
      {
        GrantedWrites(w, blocks, p, s, txMax);
        GrantedWrites(w, blocks, p, t, txMax);
        SameValue(w, Register(w, blocks, p), p, s, t);
      }
    } else {
      var s, t := Zeros(), OnesFrom(w, |p|);
      assert Storage(p + s) && Storage(p + t);
      GrantedWrites(w, blocks, p, s, txMax);
      GrantedWrites(w, blocks, p, t, txMax);
      OtherValue(w, Register(w, blocks, p), p);
      WrittenDiffers(blocks, k, Get16(p, 0) - blocks[k].start,
                     [NewValue(w, Register(w, blocks, p), p + s)], [NewValue(w, Register(w, blocks, p), p + t)]);
    }
  }

  function Located(w: Writer, blocks: seq<RegBlock>, p: seq<byte>): (k: nat)
    requires AllValid(blocks) && Granted(w, blocks, p)
    ensures |p| >= 2 && k < |blocks| && blocks[k].write == Answers(0) && Locate(blocks, Get16(p, 0), 1) == Some(k)
    ensures blocks[k].start <= Get16(p, 0) && Get16(p, 0) + 1 <= blocks[k].start + blocks[k].size
  {
    Locate(blocks, Get16(p, 0), 1).value
  }

  function Zeros(): (s: seq<byte>)
    ensures |s| == MAX_PDU_DATA_SIZE && forall i :: 0 <= i < |s| ==> s[i] == 0
  {
    seq(MAX_PDU_DATA_SIZE, i => 0)
  }

  // Octets that are 0 up to the place of the value or of the OR mask and 0xFF from there, behind n octets.
  function OnesFrom(w: Writer, n: nat): (s: seq<byte>)
    ensures |s| == MAX_PDU_DATA_SIZE
    ensures forall i :: 0 <= i < |s| ==> s[i] == if n + i < (if w.Put? then 2 else 4) then 0 else 0xFF
  {
    seq(MAX_PDU_DATA_SIZE, i requires 0 <= i => if n + i < (if w.Put? then 2 else 4) then 0 else 0xFF)
  }

  // ----- the bits of two octets

  lemma {:induction false} SplitBit(h: nat, l: nat, n: nat, j: nat)
    requires l < Pow2(n)
    ensures Bit(h * Pow2(n) + l, j) == if j < n then Bit(l, j) else Bit(h, j - n)
  {
    if n > 0 {
      var q := h * Pow2(n - 1);
      assert h * Pow2(n) == 2 * q;
      assert (2 * q + l) / 2 == q + l / 2 && (2 * q + l) % 2 == l % 2;
      if j > 0 {
        SplitBit(h, l / 2, n - 1, j - 1);
      }
    }
  }

  lemma WordBit(h: byte, l: byte, j: nat)
    ensures Bit(Mk(h, l), j) == if j < 8 then Bit(l, j) else Bit(h, j - 8)
  {
    OctetPow();
    hide Pow2, Bit;
    SplitBit(h, l, 8, j);
  }

  lemma GetBit(d: seq<byte>, i: nat, j: nat)
    requires i + 2 <= |d|
    ensures Bit(Get16(d, i), j) == if j < 8 then Bit(d[i + 1], j) else Bit(d[i], j - 8)
  {
    WordBit(d[i], d[i + 1], j);
  }

  lemma OctetPow()
    ensures Pow2(8) == 0x100
  {
    assert Pow2(4) == 16 && Pow2(6) == 64;
  }

  lemma {:induction false} OnesBit(n: nat, x: nat, j: nat)
    requires x + 1 == Pow2(n) && j < n
    ensures Bit(x, j)
  {
    assert x / 2 + 1 == Pow2(n - 1);
    if j > 0 {
      OnesBit(n - 1, x / 2, j - 1);
    }
  }

  lemma FullOctet(j: nat)
    requires j < 8
    ensures Bit(0xFF, j)
  {
    OctetPow();
    OnesBit(8, 0xFF, j);
  }

  // An octet other than 0xFF has a bit that is 0.
  lemma OpenBit(x: byte) returns (j: nat)
    requires x != 0xFF
    ensures j < 8 && !Bit(x, j)
  {
    OctetPow();
    if forall j: nat :: j < 8 ==> Bit(x, j) {
      forall j: nat | j < 8 ensures Bit(x, j) == Bit(0xFF, j) {
        FullOctet(j);
      }
      SameBits(8, x, 0xFF);
    }
    j :| j < 8 && !Bit(x, j);
  }

  // ----- the value

  lemma SameValue(w: Writer, held: word, p: seq<byte>, s: seq<byte>, t: seq<byte>)
    requires Storage(p + s) && Storage(p + t) && Whole(w, p)
    ensures NewValue(w, held, p + s) == NewValue(w, held, p + t)
  {
    hide Mk, Get16, Masked, Bit;
    var x, y := p + s, p + t;
    SameGet(x, 2, y, 2);
    if w.Mask? {
      var v, u := NewValue(w, held, x), NewValue(w, held, y);
      WordPow();
      forall j: nat | j < WORD_BITS ensures Bit(v, j) == Bit(u, j) {
        MaskedBit(held, Get16(x, 2), Get16(x, 4), j);
        MaskedBit(held, Get16(y, 2), Get16(y, 4), j);
        GetBit(x, 2, j);
        GetBit(x, 4, j);
        GetBit(y, 4, j);
        FullOctet(if j < 8 then j else j - 8);
      }
      SameBits(WORD_BITS, v, u);
    }
  }

  lemma OtherValue(w: Writer, held: word, p: seq<byte>)
    requires |p| >= 2 && !Whole(w, p)
    ensures NewValue(w, held, p + Zeros()) != NewValue(w, held, p + OnesFrom(w, |p|))
  {
    hide Mk, Get16, Masked, Bit;
    var x, y := p + Zeros(), p + OnesFrom(w, |p|);
    if w.Put? {
      OtherOctets(x, y, 2);
    } else {
      // a bit that the AND mask leaves to an octet of the OR mask behind the request
      var j: nat;
      if x[3] != 0xFF {
        j := OpenBit(x[3]);
      } else {
        j := OpenBit(x[2]);
        j := j + 8;
      }
      GetBit(x, 2, j);
      SameGet(x, 2, y, 2);
      GetBit(x, 4, j);
      GetBit(y, 4, j);
      FullOctet(if j < 8 then j else j - 8);
      ZeroBits(if j < 8 then j else j - 8);
      MaskedBit(held, Get16(x, 2), Get16(x, 4), j);
      MaskedBit(held, Get16(y, 2), Get16(y, 4), j);
    }
  }

  lemma OtherOctets(x: seq<byte>, y: seq<byte>, i: nat)
    requires i + 2 <= |x| && i + 2 <= |y|
    ensures x[i + 1] != y[i + 1] ==> Get16(x, i) != Get16(y, i)
  {
  }

  // 0x06 that brings the address alone: the value is whatever the buffer held.
  lemma ShortWrite(blocks: seq<RegBlock>, addr: word, txMax: byte)
    requires AllValid(blocks)
    requires var k := Locate(blocks, addr, 1); k.Some? && blocks[k.value].write == Answers(0)
    ensures !Determined(Put, blocks, Put16(addr), txMax)
  {
    hide Locate, Determined, Get16;
    DeterminedIff(Put, blocks, Put16(addr), txMax);
  }

  // ----- one coil

  function CoilsAfter(blocks: seq<Coils.BitBlock>, p: seq<byte>, stale: seq<byte>, txMax: byte): seq<Coils.BitBlock>
    requires AllValid(blocks) && Storage(p + stale)
  {
    Coils.WriteCoil(blocks, p + stale, txMax).coils
  }

  ghost predicate CoilDetermined(blocks: seq<Coils.BitBlock>, p: seq<byte>, txMax: byte)
    requires AllValid(blocks)
  {
    forall s: seq<byte>, t: seq<byte> :: Storage(p + s) && Storage(p + t) ==>
      CoilsAfter(blocks, p, s, txMax) == CoilsAfter(blocks, p, t, txMax)
  }

  // A request that names a coil whose block grants the write; what it brings of the value is right.
  predicate CoilGranted(blocks: seq<Coils.BitBlock>, p: seq<byte>, txMax: byte)
    requires AllValid(blocks)
  {
    && |p| >= 2 && txMax >= 4 && (|p| >= 3 ==> p[2] == 0 || p[2] == 0xFF) && (|p| >= 4 ==> p[3] == 0)
    && var k := Locate(blocks, Get16(p, 0), 1); k.Some? && blocks[k.value].write == Answers(0)
  }

  // Those that bring the whole value are the ones that are confirmed.
  lemma CoilGrantedIff(blocks: seq<Coils.BitBlock>, p: seq<byte>, stale: seq<byte>, txMax: byte)
    requires AllValid(blocks) && |p| >= 4 && Storage(p + stale)
    ensures CoilGranted(blocks, p, txMax) <==> Coils.WriteCoil(blocks, p + stale, txMax).code == 0
  {
    hide Locate, Written, PutWords;
    assert Get16(p + stale, 0) == Get16(p, 0);
  }

  function Coil(blocks: seq<Coils.BitBlock>, p: seq<byte>, txMax: byte): bool
    requires AllValid(blocks) && CoilGranted(blocks, p, txMax)
  {
    var b := blocks[Locate(blocks, Get16(p, 0), 1).value];
    b.cells[Get16(p, 0) - b.start]
  }

  // The coils after octets h and l in the place of the value.
  function Outcome(blocks: seq<Coils.BitBlock>, p: seq<byte>, txMax: byte, h: byte, l: byte): seq<Coils.BitBlock>
    requires AllValid(blocks) && CoilGranted(blocks, p, txMax)
  {
    var k := Locate(blocks, Get16(p, 0), 1).value;
    if (h == 0 || h == 0xFF) && l == 0 then Written(blocks, k, Get16(p, 0) - blocks[k].start, [h == 0xFF]) else blocks
  }

  lemma CoilWrites(blocks: seq<Coils.BitBlock>, p: seq<byte>, stale: seq<byte>, txMax: byte)
    requires AllValid(blocks) && CoilGranted(blocks, p, txMax) && Storage(p + stale)
    ensures CoilsAfter(blocks, p, stale, txMax) == Outcome(blocks, p, txMax, (p + stale)[2], (p + stale)[3])
  {
    hide Locate, Written, PutWords, Mk;
    var d := p + stale;
    assert Get16(d, 0) == Get16(p, 0);
    CoilValue(d[2], d[3]);
  }

  lemma CoilValue(h: byte, l: byte)
    ensures Mk(h, l) == 0 <==> h == 0 && l == 0
    ensures Mk(h, l) == 0xFF00 <==> h == 0xFF && l == 0
  {
  }

  // Writing the value a coil has changes nothing, writing the other one does.
  lemma OutcomeIs(blocks: seq<Coils.BitBlock>, p: seq<byte>, txMax: byte, h: byte, l: byte)
    requires AllValid(blocks) && CoilGranted(blocks, p, txMax)
    ensures Outcome(blocks, p, txMax, h, l) == blocks <==>
            !((h == 0 || h == 0xFF) && l == 0 && (h == 0xFF) != Coil(blocks, p, txMax))
  {
    hide Locate;
    var k := Locate(blocks, Get16(p, 0), 1).value;
    var offset, b := Get16(p, 0) - blocks[k].start, Coil(blocks, p, txMax);
    assert Overwrite(blocks[k], offset, [b]) == blocks[k];
    assert Written(blocks, k, offset, [b]) == blocks;
    WrittenDiffers(blocks, k, offset, [b], [!b]);
  }

  // The octet h in the place of the value's first, l in that of its second, behind n octets.
  function Behind(n: nat, h: byte, l: byte): (s: seq<byte>)
    ensures |s| == MAX_PDU_DATA_SIZE
    ensures forall i :: 0 <= i < |s| ==> s[i] == if n + i == 2 then h else if n + i == 3 then l else 0
  {
    seq(MAX_PDU_DATA_SIZE, i requires 0 <= i => if n + i == 2 then h else if n + i == 3 then l else 0)
  }

  // What is written is determined exactly by a request that brings the value, or that brings its first octet when
  // the coil has that value already: with a wrong second octet nothing is written.
  lemma CoilDeterminedIff(blocks: seq<Coils.BitBlock>, p: seq<byte>, txMax: byte)
    requires AllValid(blocks) && CoilGranted(blocks, p, txMax)
    ensures CoilDetermined(blocks, p, txMax) <==> |p| >= 4 || (|p| == 3 && Coil(blocks, p, txMax) == (p[2] == 0xFF))
  {
    hide Outcome, CoilsAfter, Coil, Get16, Locate;
    forall s: seq<byte> | Storage(p + s)
      ensures CoilsAfter(blocks, p, s, txMax) == Outcome(blocks, p, txMax, (p + s)[2], (p + s)[3])
    {
      CoilWrites(blocks, p, s, txMax);
    }
    if |p| == 3 {
      forall l: byte { OutcomeIs(blocks, p, txMax, p[2], l); }
    }
    if |p| < 4 {
      var h: byte := if |p| == 3 then p[2] else if Coil(blocks, p, txMax) then 0 else 0xFF;
      var s, t := Behind(|p|, h, 0), Behind(|p|, h, 1);
      assert Storage(p + s) && Storage(p + t);
      assert (p + s)[2] == (p + t)[2] == h && (p + s)[3] == 0 && (p + t)[3] == 1;
      OutcomeIs(blocks, p, txMax, h, 0);
      OutcomeIs(blocks, p, txMax, h, 1);
    }
  }
}
