/** What the CRC of a received RTU frame detects.

    The register is driven bit by bit, least significant bit first, as the line
    does.  Accepting a frame is the same as ending with a zero register, and every
    damage confined to 16 consecutive bits ends elsewhere. */
module CrcBurst {
  import opened Words
  import opened Crc

  // ----- the bits of a frame, least significant bit of each octet first

  function Shr(w: bv16, k: nat): bv16 {
    if k == 0 then w else Half(Shr(w, k - 1))
  }

  function Half(w: bv16): bv16 { w >> 1 }

  function LowBit(w: bv16): bool { w & 1 == 1 }

  function Bit(w: bv16, k: nat): bool { LowBit(Shr(w, k)) }

  function Octet(b: byte): bv16 { ToBv8(b) as bv16 }

  function BitAt(s: seq<byte>, k: nat): bool
    requires k < 8 * |s|
  {
    Bit(Octet(s[k / 8]), k % 8)
  }

  // ----- the register, clocked once per bit

  function Clock(c: bv16, bit: bool): bv16 { Step(Xor(c, if bit then 1 else 0)) }

  function Clocks(c: bv16, w: bv16, k: nat): bv16 {
    if k == 0 then c else Clock(Clocks(c, w, k - 1), Bit(w, k - 1))
  }

  // The register after the first k bits of s.
  function Feed(c: bv16, s: seq<byte>, k: nat): bv16
    requires k <= 8 * |s|
  {
    if k == 0 then c else Clock(Feed(c, s, k - 1), BitAt(s, k - 1))
  }

  lemma EvenStep(w: bv16)
    ensures Step(w ^ (w & 1)) == Half(w)
  {
  }

  lemma Regroup(s: bv16, w: bv16)
    ensures Xor(s, w) == Xor(Xor(s, if LowBit(w) then 1 else 0), w ^ (w & 1))
  {
    if LowBit(w) {} else { LowBitClear(w); }
  }

  lemma LowBitClear(w: bv16)
    requires w & 1 != 1
    ensures w & 1 == 0
  {
  }

  // Clocking in the low bit of w and keeping the rest is a step of the sum.
  lemma ClockStep(s: bv16, w: bv16)
    ensures Xor(Clock(s, LowBit(w)), Half(w)) == Step(Xor(s, w))
  {
    hide Step, Xor, Half;
    EvenStep(w);
    Regroup(s, w);
    StepXor(Xor(s, if LowBit(w) then 1 else 0), w ^ (w & 1));
  }

  lemma {:induction false} ClocksSteps(c: bv16, w: bv16, k: nat)
    ensures Xor(Clocks(c, w, k), Shr(w, k)) == Steps(k, Xor(c, w))
  {
    hide Step, Xor, Clock, Half, LowBit;
    if k > 0 {
      ClocksSteps(c, w, k - 1);
      ClockStep(Clocks(c, w, k - 1), Shr(w, k - 1));
    }
  }

  // n low ones.
  function Ones(n: nat): bv16 {
    if n == 0 then 0 else Widen(Ones(n - 1))
  }

  function Widen(bound: bv16): bv16 { (bound << 1) | 1 }

  lemma OnesBelowTop(n: nat)
    requires n <= 15
    ensures Ones(n) <= 0x7FFF
    ensures Ones(8) == 0xFF
  {
    assert Ones(1) == 0x1 && Ones(2) == 0x3 && Ones(3) == 0x7;
    assert Ones(4) == 0xF && Ones(5) == 0x1F && Ones(6) == 0x3F;
    assert Ones(7) == 0x7F && Ones(8) == 0xFF && Ones(9) == 0x1FF;
    assert Ones(10) == 0x3FF && Ones(11) == 0x7FF && Ones(12) == 0xFFF;
    assert Ones(13) == 0x1FFF && Ones(14) == 0x3FFF && Ones(15) == 0x7FFF;
  }

  // x fits in n bits.
  predicate Fits(x: bv16, n: nat) { x <= Ones(n) }

  lemma HalfFits(x: bv16, n: nat)
    requires Fits(x, n + 1) && n <= 15
    ensures Fits(Half(x), n)
  {
    hide Half, Widen;
    OnesBelowTop(n);
    HalfBelow(x, Ones(n));
  }

  lemma HalfBelow(x: bv16, bound: bv16)
    requires x <= Widen(bound) && bound <= 0x7FFF
    ensures Half(x) <= bound
  {
  }

  lemma {:induction false} ShrFits(w: bv16, k: nat)
    requires Fits(w, 8) && k <= 8
    ensures Fits(Shr(w, k), 8 - k)
  {
    hide Fits, Half;
    if k > 0 {
      ShrFits(w, k - 1);
      HalfFits(Shr(w, k - 1), 8 - k);
    }
  }

  lemma OctetShiftedOut(w: bv16)
    requires w < 0x100
    ensures Shr(w, 8) == 0
  {
    OnesBelowTop(8);
    ShrFits(w, 8);
    hide Shr;
  }

  lemma XorZero(x: bv16)
    ensures Xor(x, 0) == x
  {
  }

  // Eight clocks of an octet are one turn of the loop of the CRC functions.
  lemma OctetClocks(c: bv16, b: byte)
    ensures Clocks(c, Octet(b), 8) == AddOctet(c, ToBv8(b))
  {
    hide Step, Steps, Clock, Clocks, Shr;
    ClocksSteps(c, Octet(b), 8);
    OctetShiftedOut(Octet(b));
    XorZero(Clocks(c, Octet(b), 8));
  }

  lemma {:induction false} FeedOctet(c: bv16, s: seq<byte>, n: nat, j: nat)
    requires n < |s| && j <= 8
    ensures Feed(c, s, 8 * n + j) == Clocks(Feed(c, s, 8 * n), Octet(s[n]), j)
  {
    hide Clock, Octet, Bit;
    if j > 0 {
      FeedOctet(c, s, n, j - 1);
      assert BitAt(s, 8 * n + j - 1) == Bit(Octet(s[n]), j - 1);
    }
  }

  lemma {:induction false} FeedIsRun(c: bv16, s: seq<byte>, n: nat)
    requires n <= |s|
    ensures Feed(c, s, 8 * n) == Run(c, s[..n])
  {
    hide Clock, Clocks, AddOctet;
    if n > 0 {
      FeedIsRun(c, s, n - 1);
      FeedOctet(c, s, n - 1, 8);
      OctetClocks(Feed(c, s, 8 * (n - 1)), s[n - 1]);
      assert s[..n][..n - 1] == s[..n - 1];
    }
  }

  // ----- acceptance

  // The test of parse_packet in emodbus/transport/rtu.c.
  predicate Accepts(frame: seq<byte>) {
    var size := |frame| - 2;
    size >= 2 && Crc16(frame[..size]) == MkBv(frame[size], frame[size + 1])
  }

  lemma {:induction false} StepsZero(n: nat, x: bv16)
    ensures Steps(n, x) == 0 <==> x == 0
  {
    hide Step;
    if n > 0 {
      StepsZero(n - 1, x);
      StepZero(Steps(n - 1, x));
    }
  }

  lemma StepZero(x: bv16)
    ensures Step(x) == 0 <==> x == 0
  {
  }

  lemma {:induction false} StepsAppend(m: nat, n: nat, x: bv16)
    ensures Steps(m + n, x) == Steps(m, Steps(n, x))
  {
    hide Step;
    if m > 0 {
      StepsAppend(m - 1, n, x);
    }
  }

  lemma MkIsXor(c: bv16, lo: byte, hi: byte)
    ensures Xor(Xor(c, Octet(lo)), Octet(hi) << 8) == Xor(c, MkBv(lo, hi))
    ensures Xor(c, MkBv(lo, hi)) == 0 <==> c == MkBv(lo, hi)
    ensures Octet(hi) < 0x100
  {
    hide Xor, ToBv8;
    MkIsXorBits(c, ToBv8(lo), ToBv8(hi));
  }

  lemma MkIsXorBits(c: bv16, lo: bv8, hi: bv8)
    ensures Xor(Xor(c, lo as bv16), (hi as bv16) << 8) == Xor(c, (lo as bv16) | ((hi as bv16) << 8))
    ensures Xor(c, (lo as bv16) | ((hi as bv16) << 8)) == 0 <==> c == (lo as bv16) | ((hi as bv16) << 8)
    ensures (hi as bv16) < 0x100
  {
    JoinIsXor(lo, hi);
    XorAssociative(c, lo as bv16, (hi as bv16) << 8);
    XorIsZero(c, (lo as bv16) | ((hi as bv16) << 8));
    hide Xor;
  }

  lemma JoinIsXor(lo: bv8, hi: bv8)
    ensures (lo as bv16) | ((hi as bv16) << 8) == Xor(lo as bv16, (hi as bv16) << 8)
    ensures (hi as bv16) < 0x100
  {
  }

  lemma XorAssociative(a: bv16, b: bv16, c: bv16)
    ensures Xor(Xor(a, b), c) == Xor(a, Xor(b, c))
  {
  }

  lemma XorCommutative(a: bv16, b: bv16)
    ensures Xor(a, b) == Xor(b, a)
  {
  }

  lemma XorCancels(a: bv16, b: bv16)
    ensures Xor(Xor(a, b), b) == a
  {
  }

  lemma XorSelf(a: bv16)
    ensures Xor(a, a) == 0 && Xor(0, a) == a
  {
  }

  lemma XorIsZero(a: bv16, b: bv16)
    ensures Xor(a, b) == 0 <==> a == b
  {
    hide Xor;
    XorSelf(b);
    XorCancels(a, b);
  }

  lemma XorInterchange(x: bv16, u: bv16, y: bv16, v: bv16)
    ensures Xor(Xor(x, u), Xor(y, v)) == Xor(Xor(x, y), Xor(u, v))
  {
    hide Xor;
    XorAssociative(x, u, Xor(y, v));
    XorAssociative(u, y, v);
    XorCommutative(u, y);
    XorAssociative(y, u, v);
    XorAssociative(x, y, Xor(u, v));
  }

  // The register after the two octets of a CRC field.
  lemma RunTwo(c: bv16, lo: byte, hi: byte)
    ensures AddOctet(AddOctet(c, ToBv8(lo)), ToBv8(hi)) == Steps(16, Xor(c, MkBv(lo, hi)))
  {
    MkIsXor(c, lo, hi);
    AddOctetIs(c, lo);
    AddOctetIs(AddOctet(c, ToBv8(lo)), hi);
    hide *;
    var x := Xor(c, Octet(lo));
    StepsXor(8, x, Octet(hi) << 8);
    StepsOfHigh(Octet(hi));
    StepsAppend(8, 8, Xor(x, Octet(hi) << 8));
  }

  lemma AddOctetIs(c: bv16, b: byte)
    ensures AddOctet(c, ToBv8(b)) == Steps(8, Xor(c, Octet(b)))
  {
    hide Steps;
  }

  // The register starts with all bits set, as if the first two octets were inverted and it started with none.
  lemma StartsFull(a: byte, b: byte, t: seq<byte>)
    ensures Crc16([a, b] + t) == Run(0, [255 - a, 255 - b] + t)
  {
    StartsAs(INITIAL, 0, a, b, 255 - a, 255 - b, t);
  }

  predicate Complement(x: bv16, y: bv16) { x == 0xFFFF && y == 0 }

  lemma StartsAs(c: bv16, d: bv16, a: byte, b: byte, a': byte, b': byte, t: seq<byte>)
    requires Complement(c, d) && a' == 255 - a && b' == 255 - b
    ensures Run(c, [a, b] + t) == Run(d, [a', b'] + t)
  {
    hide *;
    RunPair(c, a, b);
    RunPair(d, a', b');
    RunTwo(c, a, b);
    RunTwo(d, a', b');
    InvertedOctet(a);
    InvertedOctet(b);
    Inverted(c, d, a, b, a', b');
    RunAppend(c, [a, b], t);
    RunAppend(d, [a', b'], t);
  }

  lemma RunPair(c: bv16, a: byte, b: byte)
    ensures Run(c, [a, b]) == AddOctet(AddOctet(c, ToBv8(a)), ToBv8(b))
  {
    hide AddOctet;
    assert [a, b][..1] == [a] && [a][..0] == [];
    assert Run(c, [a]) == AddOctet(c, ToBv8(a));
  }

  lemma Inverted(c: bv16, d: bv16, a: byte, b: byte, a': byte, b': byte)
    requires Complement(c, d) && ToBv8(a') == Not(ToBv8(a)) && ToBv8(b') == Not(ToBv8(b))
    ensures Xor(c, MkBv(a, b)) == Xor(d, MkBv(a', b'))
  {
    hide *;
    MkIsJoin(a, b);
    MkIsJoin(a', b');
    InvertedBits(c, d, ToBv8(a), ToBv8(b));
  }

  function Join(lo: bv8, hi: bv8): bv16 { (lo as bv16) | ((hi as bv16) << 8) }

  lemma MkIsJoin(lo: byte, hi: byte)
    ensures MkBv(lo, hi) == Join(ToBv8(lo), ToBv8(hi))
  {
  }

  function Not(x: bv8): bv8 { !x }

  lemma InvertedOctet(a: byte)
    ensures ToBv8(255 - a) == Not(ToBv8(a))
  {
    NotAsInt(ToBv8(a));
    Bv8AsInt(Not(ToBv8(a)));
    Bv8AsInt(ToBv8(255 - a));
    hide Not, ToBv8;
  }

  lemma NotAsInt(x: bv8)
    ensures Not(x) as int == 255 - x as int
  {
  }

  lemma InvertedBits(c: bv16, d: bv16, x: bv8, y: bv8)
    requires Complement(c, d)
    ensures Xor(c, Join(x, y)) == Xor(d, Join(Not(x), Not(y)))
  {
    hide Xor, Not, Complement;
    InvertedParts(c, d, x, y, Not(x), Not(y));
  }

  lemma InvertedParts(c: bv16, d: bv16, x: bv8, y: bv8, x': bv8, y': bv8)
    requires Complement(c, d) && x' == Not(x) && y' == Not(y)
    ensures Xor(c, (x as bv16) | ((y as bv16) << 8)) == Xor(d, (x' as bv16) | ((y' as bv16) << 8))
  {
  }

  // A frame is accepted exactly when its whole length, CRC field included, leaves a zero register.
  lemma AcceptsIffZero(frame: seq<byte>)
    requires |frame| >= 4
    ensures Accepts(frame) <==> Crc16(frame) == 0
  {
    hide AddOctet, MkBv;
    var size := |frame| - 2;
    var c, lo, hi := Crc16(frame[..size]), frame[size], frame[size + 1];
    assert frame[..size + 1][..size] == frame[..size];
    assert frame[..size + 2] == frame && frame[..|frame| - 1] == frame[..size + 1];
    assert Run(INITIAL, frame[..size + 1]) == AddOctet(c, ToBv8(lo));
    assert Crc16(frame) == AddOctet(AddOctet(c, ToBv8(lo)), ToBv8(hi));
    RunTwo(c, lo, hi);
    StepsZero(16, Xor(c, MkBv(lo, hi)));
    MkIsXor(c, lo, hi);
  }

  // ----- bursts

  // The two frames agree outside the 16 bits that start at bit p.
  ghost predicate DifferInBurst(a: seq<byte>, b: seq<byte>, p: nat) {
    && |a| == |b|
    && forall k :: 0 <= k < 8 * |a| && !(p <= k < p + 16) ==> BitAt(a, k) == BitAt(b, k)
  }

  lemma StepInjective(x: bv16, y: bv16)
    requires Step(x) == Step(y)
    ensures x == y
  {
  }

  lemma ClockInjective(x: bv16, y: bv16, bit: bool)
    requires Clock(x, bit) == Clock(y, bit)
    ensures x == y
  {
    StepInjective(Xor(x, if bit then 1 else 0), Xor(y, if bit then 1 else 0));
  }

  // Equal registers come from equal registers, where the bits agree.
  lemma {:induction false} FeedBack(a: seq<byte>, b: seq<byte>, from: nat, end: nat)
    requires |a| == |b| && from <= end <= 8 * |a|
    requires forall k :: from <= k < end ==> BitAt(a, k) == BitAt(b, k)
    requires Feed(INITIAL, a, end) == Feed(INITIAL, b, end)
    ensures Feed(INITIAL, a, from) == Feed(INITIAL, b, from)
  {
    hide Clock;
    if from < end {
      ClockInjective(Feed(INITIAL, a, end - 1), Feed(INITIAL, b, end - 1), BitAt(a, end - 1));
      FeedBack(a, b, from, end - 1);
    }
  }

  lemma {:induction false} FeedForward(a: seq<byte>, b: seq<byte>, end: nat)
    requires |a| == |b| && end <= 8 * |a|
    requires forall k :: 0 <= k < end ==> BitAt(a, k) == BitAt(b, k)
    ensures Feed(INITIAL, a, end) == Feed(INITIAL, b, end)
  {
    hide Clock;
    if end > 0 {
      FeedForward(a, b, end - 1);
    }
  }

  lemma UndoStep(d: bv16, g: bv16, n: nat)
    requires Fits(Step(d), n) && n <= 14 && g <= 1
    ensures Fits(Xor(d, g), n + 1)
  {
    hide Step, Xor, Widen;
    OnesSmall(n);
    UndoStepBits(d, g, Ones(n));
  }

  lemma OnesSmall(n: nat)
    requires n <= 14
    ensures Ones(n) <= 0x3FFF
  {
    OnesBelowTop(n + 1);
  }

  lemma UndoStepBits(d: bv16, g: bv16, bound: bv16)
    requires Step(d) <= bound && bound <= 0x3FFF && g <= 1
    ensures Xor(d, g) <= Widen(bound)
  {
  }

  lemma Regroup4(x: bv16, y: bv16, u: bv16, v: bv16)
    ensures Xor(x, y) == Xor(Xor(Xor(x, u), Xor(y, v)), Xor(u, v))
  {
    hide Xor;
    XorInterchange(x, u, y, v);
    XorCancels(Xor(x, y), Xor(u, v));
  }

  lemma LowBits(u: bv16, v: bv16)
    requires u <= 1 && v <= 1
    ensures Xor(u, v) <= 1
  {
  }

  // Undoing a clock of two registers widens their difference by one bit at most.
  lemma UndoClock(x: bv16, y: bv16, e: bool, f: bool, n: nat)
    requires Fits(Xor(Clock(x, e), Clock(y, f)), n) && n <= 14
    ensures Fits(Xor(x, y), n + 1)
  {
    hide Step, Xor, Fits;
    var u, v: bv16 := if e then 1 else 0, if f then 1 else 0;
    StepXor(Xor(x, u), Xor(y, v));
    LowBits(u, v);
    UndoStep(Xor(Xor(x, u), Xor(y, v)), Xor(u, v), n);
    Regroup4(x, y, u, v);
  }

  lemma NothingFits(x: bv16)
    ensures Fits(Xor(x, x), 0)
  {
    hide Xor;
    XorIsZero(x, x);
  }

  // Registers that meet at bit `end` differ only in their low bits a few bits earlier.
  lemma {:induction false} SmallBefore(a: seq<byte>, b: seq<byte>, from: nat, end: nat)
    requires |a| == |b| && from <= end <= 8 * |a| && end - from <= 15
    requires Feed(INITIAL, a, end) == Feed(INITIAL, b, end)
    ensures Fits(Xor(Feed(INITIAL, a, from), Feed(INITIAL, b, from)), end - from)
    decreases end - from
  {
    hide Clock, Xor, BitAt, Fits;
    if from == end {
      NothingFits(Feed(INITIAL, a, end));
    } else {
      SmallBefore(a, b, from + 1, end);
      UndoClock(Feed(INITIAL, a, from), Feed(INITIAL, b, from),
                BitAt(a, from), BitAt(b, from), end - from - 1);
    }
  }

  // Two registers that are equal before a differing bit differ in the top bit after it.
  lemma TopBitAfter(x: bv16, e: bool)
    ensures Xor(Clock(x, e), Clock(x, !e)) == 0xA001
  {
    hide Xor, Step;
    StepXor(Xor(x, 0), Xor(x, 1));
    XorInterchange(x, 0, x, 1);
    XorIsZero(x, x);
    XorConstants();
    XorCommutative(Clock(x, false), Clock(x, true));
  }

  lemma XorConstants()
    ensures Xor(0, Xor(0, 1)) == 1 && Step(1) == 0xA001
  {
  }

  lemma {:induction false} FirstDifference(a: seq<byte>, b: seq<byte>, n: nat) returns (q: nat)
    requires |a| == |b| && n <= 8 * |a|
    requires exists k :: 0 <= k < n && BitAt(a, k) != BitAt(b, k)
    ensures q < n && BitAt(a, q) != BitAt(b, q)
    ensures forall k :: 0 <= k < q ==> BitAt(a, k) == BitAt(b, k)
  {
    if k: nat :| k < n - 1 && BitAt(a, k) != BitAt(b, k) {
      q := FirstDifference(a, b, n - 1);
    } else {
      q := n - 1;
    }
  }

  lemma SameBitAndRest(x: bv16, y: bv16)
    requires Half(x) == Half(y) && LowBit(x) == LowBit(y)
    ensures x == y
  {
  }

  lemma {:induction false} BitsDecide(v: bv16, w: bv16, k: nat)
    requires k <= 8 && Shr(v, 8) == Shr(w, 8)
    requires forall j :: k <= j < 8 ==> Bit(v, j) == Bit(w, j)
    ensures Shr(v, k) == Shr(w, k)
    decreases 8 - k
  {
    hide Half, LowBit;
    if k < 8 {
      BitsDecide(v, w, k + 1);
      assert Bit(v, k) == Bit(w, k);
      SameBitAndRest(Shr(v, k), Shr(w, k));
    }
  }

  lemma OctetBitsDiffer(v: bv16, w: bv16)
    requires v < 0x100 && w < 0x100 && v != w
    ensures exists k :: 0 <= k < 8 && Bit(v, k) != Bit(w, k)
  {
    if forall k :: 0 <= k < 8 ==> Bit(v, k) == Bit(w, k) {
      OctetShiftedOut(v);
      OctetShiftedOut(w);
      BitsDecide(v, w, 0);
    }
  }

  lemma FramesDifferInABit(a: seq<byte>, b: seq<byte>)
    requires |a| == |b| && a != b
    ensures exists k :: 0 <= k < 8 * |a| && BitAt(a, k) != BitAt(b, k)
  {
    var i :| 0 <= i < |a| && a[i] != b[i];
    OctetBitsDiffer(Octet(a[i]), Octet(b[i]));
    var j :| 0 <= j < 8 && Bit(Octet(a[i]), j) != Bit(Octet(b[i]), j);
    assert BitAt(a, 8 * i + j) != BitAt(b, 8 * i + j);
  }

  // Damage inside 16 consecutive bits of an accepted frame is never accepted.
  lemma BurstDetected(sent: seq<byte>, received: seq<byte>, p: nat)
    requires Accepts(sent) && received != sent
    requires DifferInBurst(sent, received, p)
    ensures !Accepts(received)
  {
    hide MkBv, Xor, Clock, BitAt, AddOctet, Run;
    if Accepts(received) {
      var a, b, n := sent, received, 8 * |sent|;
      AcceptsIffZero(a);
      AcceptsIffZero(b);
      FeedIsRun(INITIAL, a, |a|);
      FeedIsRun(INITIAL, b, |b|);
      assert a[..|a|] == a && b[..|b|] == b;
      FramesDifferInABit(a, b);
      var q := FirstDifference(a, b, n);
      var end := if q + 16 <= n then q + 16 else n;
      FeedBack(a, b, end, n);
      FeedForward(a, b, q);
      SmallBefore(a, b, q + 1, end);
      OnesBelowTop(end - (q + 1));
      TopBitAfter(Feed(INITIAL, a, q), BitAt(a, q));
      assert false;
    }
  }
}
