/** The CRC-16 of Modbus RTU, in its two forms: emodbus/transport/add/crc.c, one
    table look-up per octet, and emodbus/transport/add/simple-crc.c, one shift per
    bit.  Both are proved to compute the same function of the buffer. */
module Crc {
  import opened Words

  // One turn of the inner loop of simple_crc16.
  function Step(c: bv16): bv16 {
    if c & 1 == 1 then (c >> 1) ^ 0xA001 else c >> 1
  }

  function Steps(n: nat, c: bv16): bv16 {
    if n == 0 then c else Step(Steps(n - 1, c))
  }

  // The register after one more octet.
  function AddOctet(c: bv16, b: bv8): bv16 {
    Steps(8, c ^ (b as bv16))
  }

  // The register after a buffer.
  function Run(c: bv16, s: seq<byte>): bv16 {
    if s == [] then c else AddOctet(Run(c, s[..|s| - 1]), ToBv8(s[|s| - 1]))
  }

  const INITIAL: bv16 := 0xFFFF

  function Crc16(s: seq<byte>): bv16 { Run(INITIAL, s) }

  lemma {:induction false} RunAppend(c: bv16, a: seq<byte>, b: seq<byte>)
    ensures Run(c, a + b) == Run(Run(c, a), b)
  {
    if b == [] {
      assert a + b == a;
    } else {
      var b' := b[..|b| - 1];
      assert (a + b)[..|a + b| - 1] == a + b';
      RunAppend(c, a, b');
    }
  }

  // The loop over the bits of one octet, inside simple_crc16.
  lemma StepCases(c: bv16)
    ensures Step(c) == if c & 0x0001 != 0 then (c >> 1) ^ 0xA001 else c >> 1
  {
  }

  method ShiftOctet(c: bv16) returns (crc: bv16)
    ensures crc == Steps(8, c)
  {
    hide Step;
    crc := c;
    var i := 8;
    while i != 0
      invariant 0 <= i <= 8
      invariant crc == Steps(8 - i, c)
    {
      StepCases(crc);
      if crc & 0x0001 != 0 {
        crc := crc >> 1;
        crc := crc ^ 0xA001;
      } else {
        crc := crc >> 1;
      }
      i := i - 1;
    }
  }

  method SimpleCrc16(buf: array<byte>, len: nat) returns (crc: bv16)
    requires len <= buf.Length
    ensures crc == Crc16(buf[..len]) == Run(0xFFFF, buf[..len])
  {
    crc := 0xFFFF;
    var pos := 0;
    while pos < len
      invariant 0 <= pos <= len
      invariant crc == Run(INITIAL, buf[..pos])
    {
      assert buf[..pos + 1][..pos] == buf[..pos];
      crc := crc ^ (ToBv8(buf[pos]) as bv16);
      crc := ShiftOctet(crc);
      pos := pos + 1;
    }
  }

  // The table, in the 32 rows of 8 in which the source lays it out.
  function Row(j: bv8, e0: bv16, e1: bv16, e2: bv16, e3: bv16, e4: bv16, e5: bv16, e6: bv16, e7: bv16): bv16 {
    if j == 0 then e0 else if j == 1 then e1 else if j == 2 then e2 else if j == 3 then e3
    else if j == 4 then e4 else if j == 5 then e5 else if j == 6 then e6 else e7
  }

  function Table(i: bv8): bv16 {
    var j, r := i & 7, i >> 3;
    if r == 0 then Row(j, 0x0000, 0xC0C1, 0xC181, 0x0140, 0xC301, 0x03C0, 0x0280, 0xC241)
    else if r == 1 then Row(j, 0xC601, 0x06C0, 0x0780, 0xC741, 0x0500, 0xC5C1, 0xC481, 0x0440)
    else if r == 2 then Row(j, 0xCC01, 0x0CC0, 0x0D80, 0xCD41, 0x0F00, 0xCFC1, 0xCE81, 0x0E40)
    else if r == 3 then Row(j, 0x0A00, 0xCAC1, 0xCB81, 0x0B40, 0xC901, 0x09C0, 0x0880, 0xC841)
    else if r == 4 then Row(j, 0xD801, 0x18C0, 0x1980, 0xD941, 0x1B00, 0xDBC1, 0xDA81, 0x1A40)
    else if r == 5 then Row(j, 0x1E00, 0xDEC1, 0xDF81, 0x1F40, 0xDD01, 0x1DC0, 0x1C80, 0xDC41)
    else if r == 6 then Row(j, 0x1400, 0xD4C1, 0xD581, 0x1540, 0xD701, 0x17C0, 0x1680, 0xD641)
    else if r == 7 then Row(j, 0xD201, 0x12C0, 0x1380, 0xD341, 0x1100, 0xD1C1, 0xD081, 0x1040)
    else if r == 8 then Row(j, 0xF001, 0x30C0, 0x3180, 0xF141, 0x3300, 0xF3C1, 0xF281, 0x3240)
    else if r == 9 then Row(j, 0x3600, 0xF6C1, 0xF781, 0x3740, 0xF501, 0x35C0, 0x3480, 0xF441)
    else if r == 10 then Row(j, 0x3C00, 0xFCC1, 0xFD81, 0x3D40, 0xFF01, 0x3FC0, 0x3E80, 0xFE41)
    else if r == 11 then Row(j, 0xFA01, 0x3AC0, 0x3B80, 0xFB41, 0x3900, 0xF9C1, 0xF881, 0x3840)
    else if r == 12 then Row(j, 0x2800, 0xE8C1, 0xE981, 0x2940, 0xEB01, 0x2BC0, 0x2A80, 0xEA41)
    else if r == 13 then Row(j, 0xEE01, 0x2EC0, 0x2F80, 0xEF41, 0x2D00, 0xEDC1, 0xEC81, 0x2C40)
    else if r == 14 then Row(j, 0xE401, 0x24C0, 0x2580, 0xE541, 0x2700, 0xE7C1, 0xE681, 0x2640)
    else if r == 15 then Row(j, 0x2200, 0xE2C1, 0xE381, 0x2340, 0xE101, 0x21C0, 0x2080, 0xE041)
    else if r == 16 then Row(j, 0xA001, 0x60C0, 0x6180, 0xA141, 0x6300, 0xA3C1, 0xA281, 0x6240)
    else if r == 17 then Row(j, 0x6600, 0xA6C1, 0xA781, 0x6740, 0xA501, 0x65C0, 0x6480, 0xA441)
    else if r == 18 then Row(j, 0x6C00, 0xACC1, 0xAD81, 0x6D40, 0xAF01, 0x6FC0, 0x6E80, 0xAE41)
    else if r == 19 then Row(j, 0xAA01, 0x6AC0, 0x6B80, 0xAB41, 0x6900, 0xA9C1, 0xA881, 0x6840)
    else if r == 20 then Row(j, 0x7800, 0xB8C1, 0xB981, 0x7940, 0xBB01, 0x7BC0, 0x7A80, 0xBA41)
    else if r == 21 then Row(j, 0xBE01, 0x7EC0, 0x7F80, 0xBF41, 0x7D00, 0xBDC1, 0xBC81, 0x7C40)
    else if r == 22 then Row(j, 0xB401, 0x74C0, 0x7580, 0xB541, 0x7700, 0xB7C1, 0xB681, 0x7640)
    else if r == 23 then Row(j, 0x7200, 0xB2C1, 0xB381, 0x7340, 0xB101, 0x71C0, 0x7080, 0xB041)
    else if r == 24 then Row(j, 0x5000, 0x90C1, 0x9181, 0x5140, 0x9301, 0x53C0, 0x5280, 0x9241)
    else if r == 25 then Row(j, 0x9601, 0x56C0, 0x5780, 0x9741, 0x5500, 0x95C1, 0x9481, 0x5440)
    else if r == 26 then Row(j, 0x9C01, 0x5CC0, 0x5D80, 0x9D41, 0x5F00, 0x9FC1, 0x9E81, 0x5E40)
    else if r == 27 then Row(j, 0x5A00, 0x9AC1, 0x9B81, 0x5B40, 0x9901, 0x59C0, 0x5880, 0x9841)
    else if r == 28 then Row(j, 0x8801, 0x48C0, 0x4980, 0x8941, 0x4B00, 0x8BC1, 0x8A81, 0x4A40)
    else if r == 29 then Row(j, 0x4E00, 0x8EC1, 0x8F81, 0x4F40, 0x8D01, 0x4DC0, 0x4C80, 0x8C41)
    else if r == 30 then Row(j, 0x4400, 0x84C1, 0x8581, 0x4540, 0x8701, 0x47C0, 0x4680, 0x8641)
    else Row(j, 0x8201, 0x42C0, 0x4380, 0x8341, 0x4100, 0x81C1, 0x8081, 0x4040)
  }

  // One turn of the loop of crc16.
  method LookUpOctet(c: bv16, data: bv8) returns (crc: bv16)
    ensures crc == AddOctet(c, data)
  {
    TableStep(c, data);
    hide AddOctet;
    crc := c;
    var temp := data ^ ((crc & 0xFF) as bv8);
    crc := crc >> 8;
    crc := crc ^ Table(temp);
  }

  method TableCrc16(data: array<byte>, length: word) returns (crc: bv16)
    requires length <= data.Length
    ensures crc == Crc16(data[..length]) == Run(0xFFFF, data[..length])
  {
    crc := 0xFFFF;
    var p := 0;
    while p < length
      invariant 0 <= p <= length
      invariant crc == Run(INITIAL, data[..p])
    {
      assert data[..p + 1][..p] == data[..p];
      crc := LookUpOctet(crc, ToBv8(data[p]));
      p := p + 1;
    }
  }

  // ----- the table entry is eight bit steps of its index

  lemma TableRows0(i: bv8)
    requires i < 0x10
    ensures Table(i) == Steps8(i as bv16)
  {
  }

  lemma TableRows1(i: bv8)
    requires 0x10 <= i < 0x20
    ensures Table(i) == Steps8(i as bv16)
  {
  }

  lemma TableRows2(i: bv8)
    requires 0x20 <= i < 0x30
    ensures Table(i) == Steps8(i as bv16)
  {
  }

  lemma TableRows3(i: bv8)
    requires 0x30 <= i < 0x40
    ensures Table(i) == Steps8(i as bv16)
  {
  }

  lemma TableRows4(i: bv8)
    requires 0x40 <= i < 0x50
    ensures Table(i) == Steps8(i as bv16)
  {
  }

  lemma TableRows5(i: bv8)
    requires 0x50 <= i < 0x60
    ensures Table(i) == Steps8(i as bv16)
  {
  }

  lemma TableRows6(i: bv8)
    requires 0x60 <= i < 0x70
    ensures Table(i) == Steps8(i as bv16)
  {
  }

  lemma TableRows7(i: bv8)
    requires 0x70 <= i < 0x80
    ensures Table(i) == Steps8(i as bv16)
  {
  }

  lemma TableRows8(i: bv8)
    requires 0x80 <= i < 0x90
    ensures Table(i) == Steps8(i as bv16)
  {
  }

  lemma TableRows9(i: bv8)
    requires 0x90 <= i < 0xA0
    ensures Table(i) == Steps8(i as bv16)
  {
  }

  lemma TableRows10(i: bv8)
    requires 0xA0 <= i < 0xB0
    ensures Table(i) == Steps8(i as bv16)
  {
  }

  lemma TableRows11(i: bv8)
    requires 0xB0 <= i < 0xC0
    ensures Table(i) == Steps8(i as bv16)
  {
  }

  lemma TableRows12(i: bv8)
    requires 0xC0 <= i < 0xD0
    ensures Table(i) == Steps8(i as bv16)
  {
  }

  lemma TableRows13(i: bv8)
    requires 0xD0 <= i < 0xE0
    ensures Table(i) == Steps8(i as bv16)
  {
  }

  lemma TableRows14(i: bv8)
    requires 0xE0 <= i < 0xF0
    ensures Table(i) == Steps8(i as bv16)
  {
  }

  lemma TableRows15(i: bv8)
    requires 0xF0 <= i
    ensures Table(i) == Steps8(i as bv16)
  {
  }

  function Steps8(c: bv16): bv16 { Step(Step(Step(Step(Step(Step(Step(Step(c)))))))) }

  lemma Steps8IsSteps(c: bv16)
    ensures Steps8(c) == Steps(8, c)
  {
    var c1 := Step(c);
    var c2 := Step(c1);
    var c3 := Step(c2);
    var c4 := Step(c3);
    assert Steps(1, c) == c1 && Steps(2, c) == c2;
    assert Steps(3, c) == c3 && Steps(4, c) == c4;
    assert Steps(5, c) == Step(c4) && Steps(6, c) == Step(Step(c4));
    assert Steps(7, c) == Step(Step(Step(c4)));
  }

  lemma TableIsSteps(i: bv8)
    ensures Table(i) == Steps(8, i as bv16)
  {
    hide Table, Steps8;
    if i < 0x10 { TableRows0(i); }
    else if i < 0x20 { TableRows1(i); }
    else if i < 0x30 { TableRows2(i); }
    else if i < 0x40 { TableRows3(i); }
    else if i < 0x50 { TableRows4(i); }
    else if i < 0x60 { TableRows5(i); }
    else if i < 0x70 { TableRows6(i); }
    else if i < 0x80 { TableRows7(i); }
    else if i < 0x90 { TableRows8(i); }
    else if i < 0xA0 { TableRows9(i); }
    else if i < 0xB0 { TableRows10(i); }
    else if i < 0xC0 { TableRows11(i); }
    else if i < 0xD0 { TableRows12(i); }
    else if i < 0xE0 { TableRows13(i); }
    else if i < 0xF0 { TableRows14(i); }
    else { TableRows15(i); }
    Steps8IsSteps(i as bv16);
  }

  // Named, so that the lemmas below can reason about steps without their bits.
  function Xor(a: bv16, b: bv16): bv16 { a ^ b }

  // A step is linear over xor.
  lemma StepXor(a: bv16, b: bv16)
    ensures Step(Xor(a, b)) == Xor(Step(a), Step(b))
  {
    StepXorBits(a, b);
  }

  lemma StepXorBits(a: bv16, b: bv16)
    ensures Step(a ^ b) == Step(a) ^ Step(b)
  {
    ShiftXor(a, b);
    LowBitXor(a, b);
    if a & 1 == 1 {}
    if b & 1 == 1 {}
  }

  lemma ShiftXor(a: bv16, b: bv16)
    ensures (a ^ b) >> 1 == (a >> 1) ^ (b >> 1)
  {
  }

  lemma LowBitXor(a: bv16, b: bv16)
    ensures (a ^ b) & 1 == (a & 1) ^ (b & 1)
  {
  }

  lemma {:induction false} StepsXor(n: nat, a: bv16, b: bv16)
    ensures Steps(n, Xor(a, b)) == Xor(Steps(n, a), Steps(n, b))
  {
    hide Step, Xor;
    if n > 0 {
      StepsXor(n - 1, a, b);
      StepXor(Steps(n - 1, a), Steps(n - 1, b));
    }
  }

  // While the low bits are clear, a step only shifts.
  lemma StepsOfHigh(h: bv16)
    requires h < 0x100
    ensures Steps(8, h << 8) == h
  {
    HighShifts(h);
    Steps8IsSteps(h << 8);
  }

  lemma HighShifts(h: bv16)
    requires h < 0x100
    ensures Steps8(h << 8) == h
  {
  }

  // The octet and the register split into a part the table looks up and a part it only shifts.
  lemma Split(c: bv16, b: bv8)
    ensures c ^ (b as bv16) == Xor((c >> 8) << 8, TableIndex(c, b) as bv16)
    ensures c >> 8 < 0x100
  {
  }

  function TableIndex(c: bv16, b: bv8): bv8 { b ^ ((c & 0xFF) as bv8) }

  lemma TableStep(c: bv16, b: bv8)
    ensures Xor(c >> 8, Table(TableIndex(c, b))) == AddOctet(c, b)
  {
    hide Xor, Table, TableIndex, Steps;
    var i := TableIndex(c, b);
    Split(c, b);
    StepsXor(8, (c >> 8) << 8, i as bv16);
    StepsOfHigh(c >> 8);
    TableIsSteps(i);
  }
}
