/** The masked value of emodbus/server/write_mask_reg.c:41, bit by bit, and the bit-vector
    expression that computes it. */
module MaskBits {
  import opened Words
  import opened Bits

  const WORD_BITS: nat := 16

  // The number with the given bits, lowest first.
  function Number(bs: seq<bool>): (r: nat)
    ensures r < Pow2(|bs|)
  {
    if bs == [] then 0
    else
      var n := |bs| - 1;
      Number(bs[..n]) + (if bs[n] then Pow2(n) else 0)
  }

  lemma {:induction false} NumberBit(bs: seq<bool>, j: nat)
    requires j < |bs|
    ensures Bit(Number(bs), j) == bs[j]
  {
    var n := |bs| - 1;
    if j < n {
      NumberBit(bs[..n], j);
      TopBit(Number(bs[..n]), n, j);
    } else {
      TopBit(Number(bs[..n]), n, n);
    }
  }

  // Adding a power of two to a smaller number sets that bit and no lower one.
  lemma {:induction false} TopBit(r: nat, n: nat, j: nat)
    requires r < Pow2(n) && j <= n
    ensures Bit(r + Pow2(n), j) == (j == n || Bit(r, j))
    ensures !Bit(r, n)
  {
    if n > 0 {
      var h := Pow2(n - 1);
      assert Pow2(n) == 2 * h && (r + 2 * h) / 2 == r / 2 + h && (r + 2 * h) % 2 == r % 2;
      TopBit(r / 2, n - 1, if j == 0 then 0 else j - 1);
    }
  }

  // Where the AND mask has a one, the bit of the register; elsewhere the bit of the OR mask.
  function MaskedBits(w: word, andMask: word, orMask: word): seq<bool> {
    seq(WORD_BITS, j requires 0 <= j < WORD_BITS => if Bit(andMask, j) then Bit(w, j) else Bit(orMask, j))
  }

  function Masked(w: word, andMask: word, orMask: word): word {
    WordPow();
    Number(MaskedBits(w, andMask, orMask))
  }

  lemma WordPow()
    ensures Pow2(WORD_BITS) == 0x1_0000
  {
    assert Pow2(4) == 16 && Pow2(8) == 256 && Pow2(12) == 4096 && Pow2(16) == 65536;
  }

  // Each of the 16 bits comes from the register or from the OR mask, as the AND mask says.
  lemma MaskedBit(w: word, andMask: word, orMask: word, j: nat)
    requires j < WORD_BITS
    ensures Bit(Masked(w, andMask, orMask), j) == if Bit(andMask, j) then Bit(w, j) else Bit(orMask, j)
  {
    NumberBit(MaskedBits(w, andMask, orMask), j);
  }

  // The bits determine the number.
  lemma {:induction false} SameBits(n: nat, x: nat, y: nat)
    requires x < Pow2(n) && y < Pow2(n) && forall j: nat :: j < n ==> Bit(x, j) == Bit(y, j)
    ensures x == y
  {
    if n > 0 {
      assert Bit(x, 0) == Bit(y, 0);
      forall j: nat | j < n - 1 ensures Bit(x / 2, j) == Bit(y / 2, j) {
        assert Bit(x, j + 1) == Bit(y, j + 1);
      }
      SameBits(n - 1, x / 2, y / 2);
    }
  }

  // With an AND mask of 0 the OR mask replaces the register.
  lemma MaskedByZero(w: word, orMask: word)
    ensures Masked(w, 0, orMask) == orMask
  {
    hide Bit, Masked;
    WordPow();
    forall j: nat | j < WORD_BITS ensures Bit(Masked(w, 0, orMask), j) == Bit(orMask, j) {
      MaskedBit(w, 0, orMask, j);
      ZeroBits(j);
    }
    SameBits(WORD_BITS, Masked(w, 0, orMask), orMask);
  }

  // The same by halves, as the shifts of a bit-vector have it.
  function Mix(n: nat, w: nat, a: nat, o: nat): (r: nat)
    ensures r < Pow2(n)
  {
    if n == 0 then 0 else 2 * Mix(n - 1, w / 2, a / 2, o / 2) + (if a % 2 == 1 then w % 2 else o % 2)
  }

  lemma {:induction false} MixBit(n: nat, w: nat, a: nat, o: nat, j: nat)
    requires j < n
    ensures Bit(Mix(n, w, a, o), j) == if Bit(a, j) then Bit(w, j) else Bit(o, j)
  {
    var half := Mix(n - 1, w / 2, a / 2, o / 2);
    assert Mix(n, w, a, o) / 2 == half;
    if j > 0 {
      MixBit(n - 1, w / 2, a / 2, o / 2, j - 1);
    }
  }

  lemma MaskedIsMix(w: word, andMask: word, orMask: word)
    ensures Masked(w, andMask, orMask) == Mix(WORD_BITS, w, andMask, orMask)
  {
    hide Mix, Bit, Masked;
    WordPow();
    var x, y := Masked(w, andMask, orMask), Mix(WORD_BITS, w, andMask, orMask);
    forall j: nat | j < WORD_BITS ensures Bit(x, j) == Bit(y, j) {
      MaskedBit(w, andMask, orMask, j);
      MixBit(WORD_BITS, w, andMask, orMask, j);
    }
    SameBits(WORD_BITS, x, y);
  }

  // ----- the expression of the handler

  function Combine(c: bv16, a: bv16, o: bv16): bv16 { (c & a) | (o & !a) }

  function Half(v: bv16): bv16 { v >> 1 }

  function Low(v: bv16): bv16 { v & 1 }

  lemma CombineHalf(c: bv16, a: bv16, o: bv16)
    ensures Half(Combine(c, a, o)) == Combine(Half(c), Half(a), Half(o))
    ensures Low(Combine(c, a, o)) == if Low(a) == 1 then Low(c) else Low(o)
  {
  }

  lemma Join(h: bv15, b: bv1)
    ensures (((h as bv16) << 1) | (b as bv16)) as int == 2 * (h as int) + (b as int)
  {
  }

  lemma Widen(h: bv15, b: bv1)
    ensures (h as bv16) as int == h as int && (b as bv16) as int == b as int
  {
  }

  // The upper 15 bits and the lowest.
  function Upper(v: bv16): bv15 { (v >> 1) as bv15 }

  function Lowest(v: bv16): bv1 { (v & 1) as bv1 }

  lemma Parts(v: bv16)
    ensures Half(v) == Upper(v) as bv16 && Low(v) == Lowest(v) as bv16
    ensures ((Upper(v) as bv16) << 1) | (Lowest(v) as bv16) == v
    ensures Low(v) <= 1
  {
  }

  lemma HalfInt(v: bv16)
    ensures Half(v) as int == v as int / 2 && Low(v) as int == v as int % 2
    ensures Low(v) == 1 <==> v as int % 2 == 1
  {
    hide Half, Low, Upper, Lowest;
    Parts(v);
    Join(Upper(v), Lowest(v));
    Widen(Upper(v), Lowest(v));
    OneBit(Low(v));
  }

  lemma OneBit(b: bv16)
    requires b <= 1
    ensures (b == 0 && b as int == 0) || (b == 1 && b as int == 1)
  {
  }

  lemma {:induction false} MixIsCombine(n: nat, c: bv16, a: bv16, o: bv16)
    requires c as int < Pow2(n) && a as int < Pow2(n) && o as int < Pow2(n)
    ensures Mix(n, c as int, a as int, o as int) == Combine(c, a, o) as int
  {
    hide Half, Low, Combine;
    if n == 0 {
      ZeroCombined(c, a, o);
    } else {
      HalfInt(c);
      HalfInt(a);
      HalfInt(o);
      HalfInt(Combine(c, a, o));
      CombineHalf(c, a, o);
      MixIsCombine(n - 1, Half(c), Half(a), Half(o));
    }
  }

  lemma ZeroCombined(c: bv16, a: bv16, o: bv16)
    requires c as int == 0 && a as int == 0 && o as int == 0
    ensures Combine(c, a, o) as int == 0
  {
    assert c == 0 && o == 0;
  }

  // The masked value is the AND of register and mask, or-ed with the part of the OR mask outside it.
  lemma MaskedIsCombine(w: word, andMask: word, orMask: word)
    ensures ToBv16(Masked(w, andMask, orMask)) == Combine(ToBv16(w), ToBv16(andMask), ToBv16(orMask))
    ensures Masked(w, andMask, orMask) == OfBv16(Combine(ToBv16(w), ToBv16(andMask), ToBv16(orMask)))
  {
    hide Combine, Mix, Masked, ToBv16, OfBv16;
    WordPow();
    MaskedIsMix(w, andMask, orMask);
    var v := Combine(ToBv16(w), ToBv16(andMask), ToBv16(orMask));
    MixIsCombine(WORD_BITS, ToBv16(w), ToBv16(andMask), ToBv16(orMask));
    assert v as int == Masked(w, andMask, orMask);
    SameBv(Masked(w, andMask, orMask), v);
    SameBv(OfBv16(v), v);
  }

  lemma SameBv(w: word, v: bv16)
    requires w == v as int || ToBv16(w) == v
    ensures w == v as int && ToBv16(w) == v && OfBv16(v) == w
  {
    assert ToBv16(w) as int == w;
    Bv16AsInt(v);
    Bv16AsInt(ToBv16(w));
    assert ToBv16(OfBv16(v)) as int == OfBv16(v);
  }
}
