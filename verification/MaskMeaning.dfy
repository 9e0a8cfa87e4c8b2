/** The register operators of cpp-wrap/emodbus.cpp:692-742 that are built on the mask-write. */
module MaskMeaning {
  import opened Words
  import opened Bits
  import opened Registry
  import opened Cells
  import opened ServerRegs
  import opened MaskBits
  import opened RegisterMap

  // ~v, as a uint16_t
  function Complement(v: word): word { 0xFFFF - v }

  // 1 << n
  function Single(n: nat): word
    requires n < WORD_BITS
  {
    PowBelow(n);
    Pow2(n)
  }

  lemma {:induction false} PowBelow(n: nat)
    requires n < WORD_BITS
    ensures Pow2(n) <= 0x8000
  {
    WordPow();
    PowMonotone(n, 15);
    assert Pow2(15) == 0x8000;
  }

  lemma {:induction false} PowMonotone(m: nat, n: nat)
    requires m <= n
    ensures Pow2(m) <= Pow2(n)
  {
    if m < n {
      PowMonotone(m, n - 1);
    }
  }

  // The bits of a complement are the complements of the bits.
  lemma {:induction false} ComplementBits(n: nat, v: nat, j: nat)
    requires v < Pow2(n) && j < n
    ensures Bit(Pow2(n) - 1 - v, j) == !Bit(v, j)
  {
    var h := Pow2(n - 1);
    assert Pow2(n) == 2 * h;
    if j > 0 {
      assert (2 * h - 1 - v) / 2 == h - 1 - v / 2;
      ComplementBits(n - 1, v / 2, j - 1);
    }
  }

  lemma ComplementBit(v: word, j: nat)
    requires j < WORD_BITS
    ensures Bit(Complement(v), j) == !Bit(v, j)
  {
    WordPow();
    ComplementBits(WORD_BITS, v, j);
  }

  lemma {:induction false} SingleBit(n: nat, j: nat)
    ensures Bit(Pow2(n), j) == (j == n)
  {
    if n == 0 {
      if j > 0 {
        ZeroBits(j - 1);
      }
    } else if j > 0 {
      SingleBit(n - 1, j - 1);
    }
  }

  // A number without one bits is 0.
  lemma {:induction false} SomeBit(n: nat, v: nat) returns (j: nat)
    requires 0 < v < Pow2(n)
    ensures j < n && Bit(v, j)
  {
    if v % 2 == 1 {
      j := 0;
    } else {
      var i := SomeBit(n - 1, v / 2);
      j := i + 1;
    }
  }

  // ----- the operators

  // reg_t::operator |=
  function OrRequest(addr: word, v: word): Request { Mask(addr, Complement(v), v) }

  // reg_t::operator &=
  function AndRequest(addr: word, v: word): Request { Mask(addr, Complement(v), 0) }

  // reg_t::set_bit
  function SetBitRequest(addr: word, n: nat, value: bool): Request
    requires n < WORD_BITS
  {
    Mask(addr, Complement(Single(n)), if value then Single(n) else 0)
  }

  // The register a request leaves behind.
  function AfterMask(w: word, r: Request): word
    requires r.Mask?
  {
    Masked(w, r.andMask, r.orMask)
  }

  // `reg |= v` ors v into the register.
  lemma OrAssign(addr: word, w: word, v: word, j: nat)
    requires j < WORD_BITS
    ensures Bit(AfterMask(w, OrRequest(addr, v)), j) == (Bit(w, j) || Bit(v, j))
  {
    hide Bit, Masked;
    MaskedBit(w, Complement(v), v, j);
    ComplementBit(v, j);
  }

  lemma AndClears(addr: word, w: word, v: word, j: nat)
    requires j < WORD_BITS
    ensures Bit(AfterMask(w, AndRequest(addr, v)), j) == (Bit(w, j) && !Bit(v, j))
  {
    hide Bit, Masked;
    MaskedBit(w, Complement(v), 0, j);
    ComplementBit(v, j);
    ZeroBits(j);
  }

  // What `reg &= v` is expected to leave: the AND of register and value.
  ghost predicate IsAnd(r: word, w: word, v: word) {
    forall j: nat :: j < WORD_BITS ==> Bit(r, j) == (Bit(w, j) && Bit(v, j))
  }

  // `reg &= v` sends the complement of v as AND mask: it clears the bits of v, and ands v into
  // the register exactly when the register is 0.
  lemma AndAssign(addr: word, w: word, v: word)
    ensures IsAnd(AfterMask(w, AndRequest(addr, v)), w, v) <==> w == 0
  {
    hide Bit, AfterMask;
    if w == 0 {
      forall j: nat | j < WORD_BITS
        ensures Bit(AfterMask(w, AndRequest(addr, v)), j) == (Bit(w, j) && Bit(v, j))
      {
        AndClears(addr, w, v, j);
        ZeroBits(j);
      }
    } else {
      WordPow();
      var j := SomeBit(WORD_BITS, w);
      AndClears(addr, w, v, j);
    }
  }

  // set_bit gives the bit its value and leaves the 15 others.
  lemma SetBit(addr: word, w: word, n: nat, value: bool, k: nat)
    requires n < WORD_BITS && k < WORD_BITS
    ensures Bit(AfterMask(w, SetBitRequest(addr, n, value)), k) == if k == n then value else Bit(w, k)
  {
    hide Bit, Masked, Pow2;
    var r := SetBitRequest(addr, n, value);
    MaskedBit(w, r.andMask, r.orMask, k);
    ComplementBit(Single(n), k);
    SingleBit(n, k);
    ZeroBits(k);
  }

  // On the server: the bit of the addressed register changes, and nothing else.
  lemma SetBitOnMap(blocks: seq<RegBlock>, m: Memory, addr: word, n: nat, value: bool)
    requires AllValid(blocks) && Locate(blocks, addr, 1).Some? && addr in m && n < WORD_BITS
    ensures var (after, answer) := Plain(blocks, m, SetBitRequest(addr, n, value));
            && answer == Confirmed && after.Keys == m.Keys
            && (forall a: int :: a in m && a != addr ==> after[a] == m[a])
            && forall k: nat :: k < WORD_BITS ==> Bit(after[addr], k) == if k == n then value else Bit(m[addr], k)
  {
    hide Locate, Masked, Bit, Pow2;
    var (after, _) := Plain(blocks, m, SetBitRequest(addr, n, value));
    assert after[addr] == AfterMask(m[addr], SetBitRequest(addr, n, value));
    forall k: nat | k < WORD_BITS ensures Bit(after[addr], k) == if k == n then value else Bit(m[addr], k) {
      SetBit(addr, m[addr], n, value, k);
    }
  }
}
