/** What stands at which place on the wire, octet by octet and in numbers: the sections of the MODBUS
    Application Protocol Specification V1.1b3, of the serial line and of the TCP guide that the frames and
    requests of the library follow. */
module WireOctets {
  import opened Words
  import opened Pdus
  import opened Crc
  import CrcBurst
  import Rtu
  import ClientRegs
  import Coils
  import Bits
  import FileRead
  import FileWrite
  import Fifo

  // The two octets of a word, high one first.
  function Two(w: word): seq<byte> { [w / 256, w % 256] }

  lemma WordOctets(w: word, h: byte, l: byte)
    ensures PutWords([w]) == Two(w) && Get16(Two(w), 0) == w && Get16([h, l], 0) == 256 * h as int + l as int
  {
    assert [w][..0] == [];
    assert PutWords([w]) == PutWords([]) + Put16(w);
  }

  lemma {:induction false} WordsOctets(ws: seq<word>, k: nat)
    requires k < |ws|
    ensures |PutWords(ws)| == 2 * |ws| && PutWords(ws)[2 * k] == ws[k] / 256 && PutWords(ws)[2 * k + 1] == ws[k] % 256
  {
    PutWordsAt(ws, k);
  }

  // ----- frames

  // An RTU frame: address, function, data, and the CRC of all of them, low octet first.
  lemma RtuFrame(addr: byte, pdu: Pdu)
    ensures var f, n := Rtu.Frame(addr, pdu), |pdu.data|;
            && |f| == n + 4 && f[0] == addr && f[1] == pdu.func && f[2..n + 2] == pdu.data
            && 256 * f[n + 3] as int + f[n + 2] as int == Run(0xFFFF, f[..n + 2]) as int
  {
    var body := [addr, pdu.func] + pdu.data;
    var f := Rtu.Frame(addr, pdu);
    assert f[..|body|] == body && f[2..|pdu.data| + 2] == pdu.data;
    Halves(Crc16(body));
  }

  lemma Halves(v: bv16)
    ensures 256 * HiBv(v) as int + LoBv(v) as int == v as int
  {
    MkOfParts(v);
    hide HiBv, LoBv;
    MkAsInt(LoBv(v), HiBv(v));
  }

  lemma MkAsInt(lo: byte, hi: byte)
    ensures MkBv(lo, hi) as int == 256 * hi as int + lo as int
  {
    hide ToBv8;
    Swapped(ToBv8(lo), ToBv8(hi));
    JoinBytes(ToBv8(hi), ToBv8(lo));
  }

  lemma Swapped(lo: bv8, hi: bv8)
    ensures (lo as bv16) | ((hi as bv16) << 8) == ((hi as bv16) << 8) | (lo as bv16)
  {
  }

  // ----- requests and replies of registers

  lemma ReadRegisters(inputs: bool, start: word, quantity: word)
    ensures ClientRegs.ReadReq(inputs, start, quantity) == Pdu(if inputs then 4 else 3, Two(start) + Two(quantity))
  {
    Pair(start, quantity);
  }

  lemma Pair(a: word, b: word)
    ensures PutWords([a, b]) == Two(a) + Two(b)
  {
    Coils.TwoWords(a, b);
  }

  lemma {:induction false} Longer(ws: seq<word>, w: word)
    ensures PutWords(ws + [w]) == PutWords(ws) + Two(w)
  {
    assert (ws + [w])[..|ws|] == ws;
  }

  lemma WriteRegister(addr: word, value: word)
    ensures ClientRegs.WriteRegReq(addr, value) == Pdu(6, Two(addr) + Two(value))
  {
    Pair(addr, value);
  }

  lemma WriteRegisters(start: word, values: seq<word>, k: nat)
    requires k < |values| <= 123
    ensures var r, n := ClientRegs.WriteRegsReq(start, values), |values|;
            && r.func == 16 && |r.data| == 5 + 2 * n && r.data[..5] == Two(start) + Two(n) + [2 * n]
            && r.data[5 + 2 * k] == values[k] / 256 && r.data[6 + 2 * k] == values[k] % 256
  {
    Pair(start, |values|);
    WordsOctets(values, k);
  }

  lemma MaskRegister(addr: word, andMask: word, orMask: word)
    ensures ClientRegs.MaskReq(addr, andMask, orMask) == Pdu(22, Two(addr) + Two(andMask) + Two(orMask))
  {
    Pair(addr, andMask);
    Longer([addr, andMask], orMask);
    assert [addr, andMask] + [orMask] == [addr, andMask, orMask];
  }

  lemma ReadWriteRegisters(rdStart: word, rdQuantity: word, wrStart: word, values: seq<word>, k: nat)
    requires k < |values| <= 121
    ensures var r, n := ClientRegs.ReadWriteReq(rdStart, rdQuantity, wrStart, values), |values|;
            && r.func == 23 && |r.data| == 9 + 2 * n
            && r.data[..9] == Two(rdStart) + Two(rdQuantity) + Two(wrStart) + Two(n) + [2 * n]
            && r.data[9 + 2 * k] == values[k] / 256 && r.data[10 + 2 * k] == values[k] % 256
  {
    var n := |values|;
    Pair(rdStart, rdQuantity);
    Longer([rdStart, rdQuantity], wrStart);
    assert [rdStart, rdQuantity] + [wrStart] == [rdStart, rdQuantity, wrStart];
    Longer([rdStart, rdQuantity, wrStart], n);
    assert [rdStart, rdQuantity, wrStart] + [n] == [rdStart, rdQuantity, wrStart, n];
    WordsOctets(values, k);
  }

  // ----- coils

  lemma ReadBits(discrete: bool, start: word, quantity: word)
    ensures Coils.ReadBitsReq(discrete, start, quantity) == Pdu(if discrete then 2 else 1, Two(start) + Two(quantity))
  {
    Pair(start, quantity);
  }

  lemma WriteCoil(addr: word, value: bool)
    ensures Coils.WriteCoilReq(addr, value) == Pdu(5, Two(addr) + [if value then 0xFF else 0, 0])
  {
    Pair(addr, Coils.CoilCode(value));
    Pair(addr, if value then 0xFF00 else 0);
  }

  lemma WriteCoils(start: word, bs: seq<bool>)
    requires |bs| <= 1968
    ensures var r, n := Coils.WriteCoilsReq(start, bs), (|bs| + 7) / 8;
            && r.func == 15 && |r.data| == 5 + n
            && r.data[..5] == Two(start) + Two(|bs|) + [n] && r.data[5..] == Bits.Pack(bs)
  {
    Pair(start, |bs|);
  }

  // Eight bits to an octet, the first in the lowest place; what is left over of the last octet is 0.
  lemma PackedOctet(bs: seq<bool>, k: nat)
    requires 8 * k < |bs|
    ensures k < |Bits.Pack(bs)|
    ensures Bits.Pack(bs)[k] == Weight(bs, 8 * k, 1) + Weight(bs, 8 * k + 1, 2) + Weight(bs, 8 * k + 2, 4)
                                + Weight(bs, 8 * k + 3, 8) + Weight(bs, 8 * k + 4, 16) + Weight(bs, 8 * k + 5, 32)
                                + Weight(bs, 8 * k + 6, 64) + Weight(bs, 8 * k + 7, 128)
  {
    hide Bits.PackByte, Sum, Weight;
    var g := Bits.Group(bs, k);
    OctetSum(g, 8);
    EightBits(g);
    InGroup(bs, k, 0, 1);
    InGroup(bs, k, 1, 2);
    InGroup(bs, k, 2, 4);
    InGroup(bs, k, 3, 8);
    InGroup(bs, k, 4, 16);
    InGroup(bs, k, 5, 32);
    InGroup(bs, k, 6, 64);
    InGroup(bs, k, 7, 128);
  }

  lemma InGroup(bs: seq<bool>, k: nat, i: nat, w: nat)
    requires 8 * k < |bs| && i < 8
    ensures k < Bits.Octets(|bs|) && Weight(Bits.Group(bs, k), i, w) == Weight(bs, 8 * k + i, w)
  {
  }

  lemma EightBits(g: seq<bool>)
    ensures Sum(g, 8) == Weight(g, 0, 1) + Weight(g, 1, 2) + Weight(g, 2, 4) + Weight(g, 3, 8)
                         + Weight(g, 4, 16) + Weight(g, 5, 32) + Weight(g, 6, 64) + Weight(g, 7, 128)
  {
    hide Weight, Bits.Pow2;
    Powers();
    assert Sum(g, 1) == Weight(g, 0, 1) && Sum(g, 2) == Sum(g, 1) + Weight(g, 1, 2);
    assert Sum(g, 3) == Sum(g, 2) + Weight(g, 2, 4) && Sum(g, 4) == Sum(g, 3) + Weight(g, 3, 8);
    assert Sum(g, 5) == Sum(g, 4) + Weight(g, 4, 16) && Sum(g, 6) == Sum(g, 5) + Weight(g, 5, 32);
    assert Sum(g, 7) == Sum(g, 6) + Weight(g, 6, 64);
  }

  function Weight(bs: seq<bool>, i: nat, w: nat): nat { if i < |bs| && bs[i] then w else 0 }

  function Sum(g: seq<bool>, n: nat): nat { if n == 0 then 0 else Sum(g, n - 1) + Weight(g, n - 1, Bits.Pow2(n - 1)) }

  lemma Powers()
    ensures Bits.Pow2(0) == 1 && Bits.Pow2(1) == 2 && Bits.Pow2(2) == 4 && Bits.Pow2(3) == 8
    ensures Bits.Pow2(4) == 16 && Bits.Pow2(5) == 32 && Bits.Pow2(6) == 64 && Bits.Pow2(7) == 128
  {
  }

  lemma {:induction false} OctetSum(g: seq<bool>, n: nat)
    requires |g| <= 8 && n >= |g|
    ensures Bits.PackByte(g) == Sum(g, n)
    decreases n
  {
    if n > |g| {
      OctetSum(g, n - 1);
    } else if n > 0 {
      var m := n - 1;
      OctetSum(g[..m], m);
      SamePart(g, m, m);
      Fresh(g[..m]);
    }
  }

  lemma {:induction false} SamePart(g: seq<bool>, m: nat, n: nat)
    requires n <= m <= |g|
    ensures Sum(g[..m], n) == Sum(g, n)
  {
    if n > 0 {
      SamePart(g, m, n - 1);
    }
  }

  lemma Fresh(g: seq<bool>)
    requires |g| <= 8
    ensures !Bits.Bit(Bits.PackByte(g), |g|)
  {
    Bits.PackByteBit(g, |g|);
  }

  // ----- files and queues

  lemma ReadFileSub(subs: seq<FileRead.SubRead>, k: nat)
    requires k < |subs| <= 35
    ensures var r, s := FileRead.Request(subs), subs[k];
            && r.func == 20 && |r.data| == 1 + 7 * |subs| && r.data[0] == 7 * |subs|
            && r.data[1 + 7 * k..8 + 7 * k] == [6] + Two(s.file) + Two(s.record) + Two(s.count)
  {
    ReadFileSubAt(subs, k);
  }

  lemma {:induction false} ReadFileSubAt(subs: seq<FileRead.SubRead>, k: nat)
    requires k < |subs|
    ensures var s := subs[k];
            FileRead.EncodeSubs(subs)[7 * k..7 * k + 7] == [6] + Two(s.file) + Two(s.record) + Two(s.count)
  {
    var n := |subs| - 1;
    var s := subs[k];
    Triple(s.file, s.record, s.count);
    if k < n {
      ReadFileSubAt(subs[..n], k);
    }
  }

  lemma Triple(a: word, b: word, c: word)
    ensures PutWords([a, b, c]) == Two(a) + Two(b) + Two(c)
  {
    Pair(a, b);
    Longer([a, b], c);
    assert [a, b] + [c] == [a, b, c];
  }

  lemma ReadFileAnswer(values: seq<word>, k: nat)
    requires k < |values| <= 125
    ensures var e := FileRead.EncodeAnswer(values);
            && FileRead.Answer([values]).func == 20
            && |e| == 2 + 2 * |values| && e[0] == 2 * |values| + 1 && e[1] == 6
            && e[2 + 2 * k] == values[k] / 256 && e[3 + 2 * k] == values[k] % 256
  {
    WordsOctets(values, k);
  }

  // A sub-request carries its reference type, file, record and length, and the registers behind.
  lemma WriteSub(s: FileWrite.SubWrite, k: nat)
    requires k < |s.values| < 0x1_0000
    ensures var e, n := FileWrite.EncodeSub(s), |s.values|;
            && |e| == 7 + 2 * n && e[..7] == [6] + Two(s.file) + Two(s.record) + Two(n)
            && e[7 + 2 * k] == s.values[k] / 256 && e[8 + 2 * k] == s.values[k] % 256
  {
    hide PutWords;
    Triple(s.file, s.record, |s.values|);
    WordsOctets(s.values, k);
  }

  // They stand one behind the other, after the number of their octets.
  lemma WriteFile(subs: seq<FileWrite.SubWrite>)
    requires FileWrite.Encodable(subs) && subs != [] && FileWrite.SubsSize(subs) <= 252
    ensures var r := FileWrite.Request(subs);
            && FileWrite.Encodable(subs[1..])
            && r.func == 21 && r.data[0] as int == |r.data| - 1
            && r.data[1..] == FileWrite.EncodeSub(subs[0]) + FileWrite.EncodeSubs(subs[1..])
  {
  }

  lemma ReadQueue(addr: word, values: seq<word>, k: nat)
    requires k < |values| <= 31
    ensures Fifo.Request(addr) == Pdu(24, Two(addr))
    ensures var a, n := Fifo.Answer(values), |values|;
            && a.func == 24 && |a.data| == 4 + 2 * n && a.data[..4] == [0, 2 * n + 2, 0, n]
            && a.data[4 + 2 * k] == values[k] / 256 && a.data[5 + 2 * k] == values[k] % 256
  {
    var words := [2 * |values| + 2, |values|] + values;
    WordsOctets(words, 0);
    WordsOctets(words, 1);
    WordsOctets(words, k + 2);
  }

  // The highest record number a request may name.
  lemma RecordLimit(rs: seq<FileRead.SubRead>, ws: seq<FileWrite.SubWrite>)
    ensures FileRead.RecordsInRange(rs) <==> forall i :: 0 <= i < |rs| ==> rs[i].record <= 9999
    ensures FileWrite.RecordsInRange(ws) <==> forall i :: 0 <= i < |ws| ==> ws[i].record <= 9999
  {
  }

  // ----- exceptions and error numbers

  lemma ExceptionOctets(func: byte, code: byte, stale: byte)
    requires func < 128
    ensures ExceptionPdu(func, code) == Pdu(func + 128, [code]) && ExceptionPdu(func + 128, code) == Pdu(func + 128, [code])
    ensures CheckException(Pdu(func + 128, [code]), stale) == -1500 - code
    ensures CheckException(Pdu(func + 128, []), stale) == -1500 - stale
    ensures CheckException(Pdu(func, [code]), stale) == 0
  {
  }

  // The numbers of errno.h and of emodbus_errno_t and modbus_exception_code_t.
  lemma Numbers()
    ensures EBUSY == 16 && EINVAL == 22 && ENOMEM == 12
    ensures BAD_CRC == 1000 && BUFFER_OVERFLOW == 1001 && RESP_WRONG_ADDRESS == 1004 && RESP_WRONG_FUNC == 1005
    ensures RESP_TIMEOUT == 1006 && RESP_BUFFER_OVF == 1007 && RESP_WRONG_TRANSACTION_ID == 1008
    ensures MBE_ILLEGAL_FUNCTION == 1 && MBE_ILLEGAL_DATA_ADDR == 2 && MBE_ILLEGAL_DATA_VALUE == 3 && MBE_SLAVE_FAILURE == 4
    ensures MAX_PDU_SIZE == 256 && MAX_PDU_DATA_SIZE == 253 && forall d: seq<byte> :: Storage(d) <==> |d| >= 253
  {
  }

  // The octets of data that requests and answers of a quantity take, or -EINVAL for a quantity no request may have.
  lemma Sizes(n: word)
    ensures ClientRegs.ReadAnswerSize(n) == if 1 <= n <= 125 then 1 + 2 * n else -22
    ensures Coils.ReadAnswerSize(n) == if 1 <= n <= 2000 then 1 + (n + 7) / 8 else -22
    ensures Coils.WriteReqSize(n) == if 1 <= n <= 1968 then 5 + (n + 7) / 8 else -22
    ensures ClientRegs.WRITE_REG_ANSWER_SIZE == ClientRegs.WRITE_REGS_ANSWER_SIZE == Coils.WRITE_ANSWER_SIZE == 4
    ensures ClientRegs.MASK_ANSWER_SIZE == 6 && ClientRegs.ReadWriteAnswerSize(n) == 1 + 2 * n && Fifo.ANSWER_SIZE == 66
  {
  }
}
