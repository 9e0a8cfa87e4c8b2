/** The outcome of the register and coil handlers on arbitrary octets, in numbers: the exception codes, the cells
    afterwards and the octets of the reply, as conditions on the request and the blocks (sections 6.1 to 6.17
    of the MODBUS Application Protocol Specification V1.1b3). */
module Outcomes {
  import opened Words
  import opened Pdus
  import opened Registry
  import opened Cells
  import MaskBits
  import Bits
  import ServerRegs
  import Coils

  // ----- blocks and cells

  predicate Within<T>(b: Block<T>, a: int) { b.start <= a < b.start + b.size }

  // Block k is the first one around address a, and holds the n cells from there on.
  ghost predicate Holds<T>(blocks: seq<Block<T>>, k: nat, a: int, n: nat) {
    && k < |blocks| && Within(blocks[k], a) && a + n <= blocks[k].start + blocks[k].size
    && forall i :: 0 <= i < k ==> !Within(blocks[i], a)
  }

  ghost predicate Held<T>(blocks: seq<Block<T>>, a: int, n: nat) { exists k :: Holds(blocks, k, a, n) }

  lemma LocateIff<T>(blocks: seq<Block<T>>, a: word, n: nat, k: nat)
    requires AllValid(blocks)
    ensures Locate(blocks, a, n) == Some(k) <==> Holds(blocks, k, a, n)
    ensures Holds(blocks, k, a, n) ==> blocks[k].Valid()
  {
    hide Find;
    FindIff(blocks, a);
    forall i | 0 <= i < |blocks| ensures Within(blocks[i], a) <==> blocks[i].Covers(a) {
    }
  }

  lemma LocateNone<T>(blocks: seq<Block<T>>, a: word, n: nat)
    requires AllValid(blocks)
    ensures Locate(blocks, a, n).Some? <==> Held(blocks, a, n)
  {
    hide Locate, Holds;
    if Locate(blocks, a, n).Some? {
      LocateIff(blocks, a, n, Locate(blocks, a, n).value);
    }
    if Held(blocks, a, n) {
      var k: nat :| Holds(blocks, k, a, n);
      LocateIff(blocks, a, n, k);
    }
  }

  lemma FoundIff<T>(blocks: seq<Block<T>>, a: word)
    requires AllValid(blocks)
    ensures Find(blocks, a).Some? <==> exists i :: 0 <= i < |blocks| && Within(blocks[i], a)
  {
    FindIff(blocks, a);
    forall i | 0 <= i < |blocks| ensures Within(blocks[i], a) <==> blocks[i].Covers(a) {
    }
    hide Find;
  }

  // Only the cells of block k from a on have changed, to the values given.
  ghost predicate Stored<T>(before: seq<Block<T>>, after: seq<Block<T>>, k: nat, a: int, values: seq<T>)
    requires AllValid(before) && k < |before|
  {
    && |after| == |before| && (forall i :: 0 <= i < |before| && i != k ==> after[i] == before[i])
    && after[k] == before[k].(cells := after[k].cells) && |after[k].cells| == |before[k].cells|
    && forall j :: 0 <= j < |after[k].cells| ==>
         after[k].cells[j] == if a <= before[k].start + j < a + |values| then values[before[k].start + j - a]
                              else before[k].cells[j]
  }

  // A write callback that answers 0 stores, and any other moves nothing.
  lemma WrittenCells<T>(blocks: seq<Block<T>>, k: nat, a: int, values: seq<T>)
    requires AllValid(blocks) && Holds(blocks, k, a, |values|) && blocks[k].write.Answers?
    ensures blocks[k].Valid()
    ensures var after := Written(blocks, k, a - blocks[k].start, values);
            if blocks[k].write.code == 0 then Stored(blocks, after, k, a, values) else after == blocks
  {
  }

  // ----- octets

  // The first words of a request, put back.
  lemma FirstTwo(d: seq<byte>)
    requires |d| >= 4
    ensures PutWords([Get16(d, 0), Get16(d, 2)]) == d[..4]
  {
    Coils.TwoWords(Get16(d, 0), Get16(d, 2));
    assert d[..4] == [d[0], d[1], d[2], d[3]];
  }

  lemma FirstThree(d: seq<byte>)
    requires |d| >= 6
    ensures PutWords([Get16(d, 0), Get16(d, 2), Get16(d, 4)]) == d[..6]
  {
    FirstTwo(d);
    var ws := [Get16(d, 0), Get16(d, 2), Get16(d, 4)];
    assert ws[..2] == [Get16(d, 0), Get16(d, 2)];
    assert d[..6] == d[..4] + [d[4], d[5]];
  }

  // A reply of registers: the number of their octets, and each of them high octet first.
  ghost predicate Registers(data: seq<byte>, values: seq<word>) {
    && |data| == 1 + 2 * |values| && data[0] as int == 2 * |values|
    && forall j :: 0 <= j < |values| ==> 0x100 * data[1 + 2 * j] as int + data[2 + 2 * j] as int == values[j]
  }

  lemma ReplyRegisters(values: seq<word>)
    requires |values| <= 127
    ensures Registers([ByteCount(|values|)] + PutWords(values), values)
  {
    var data := [ByteCount(|values|)] + PutWords(values);
    forall j | 0 <= j < |values| ensures 0x100 * data[1 + 2 * j] as int + data[2 + 2 * j] as int == values[j] {
      PutWordsAt(values, j);
    }
  }

  // The reply holds the n registers of the block from address a on.
  ghost predicate RegistersFrom(reply: Pdu, b: Block<word>, a: int, n: nat) {
    && b.start <= a && a + n <= b.start + b.size && b.Valid()
    && Registers(reply.data, b.cells[a - b.start..a - b.start + n])
  }

  lemma ReplyFrom(b: Block<word>, a: int, n: nat, func: byte)
    requires b.Valid() && b.start <= a && a + n <= b.start + b.size && n <= 127
    ensures RegistersFrom(Pdu(func, [ByteCount(n)] + PutWords(Slice(b, a - b.start, n))), b, a, n)
  {
    hide Registers, PutWords, ByteCount;
    ReplyRegisters(b.cells[a - b.start..a - b.start + n]);
  }

  // ----- registers

  // Functions 0x03 and 0x04
  lemma ReadRegs(blocks: seq<Block<word>>, func: byte, d: seq<byte>, txMax: byte, k: nat)
    requires Storage(d) && AllValid(blocks)
    ensures var a, n, r := Get16(d, 0), Get16(d, 2), ServerRegs.ReadRegs(blocks, func, d, txMax);
            && r.holdings == blocks
            && (!(exists i :: 0 <= i < |blocks| && Within(blocks[i], a)) ==> r.code == 2)
            && ((exists i :: 0 <= i < |blocks| && Within(blocks[i], a)) ==>
                  && (!(1 <= n <= 125) ==> r.code == 3)
                  && (1 <= n <= 125 && !Held(blocks, a, n) ==> r.code == 2)
                  && (1 <= n <= 125 && Holds(blocks, k, a, n) ==>
                        && (blocks[k].read.Absent? ==> r.code == 2)
                        && (blocks[k].read.Answers? && 1 + 2 * n > txMax ==> r.code == 4)
                        && (blocks[k].read.Answers? && 1 + 2 * n <= txMax ==>
                              && r.code == blocks[k].read.code
                              && (r.code == 0 ==> r.reply.func == func && RegistersFrom(r.reply, blocks[k], a, n)))))
  {
    hide Find, Locate, Slice, PutWords;
    var a, n := Get16(d, 0), Get16(d, 2);
    FoundIff(blocks, a);
    LocateNone(blocks, a, n);
    LocateIff(blocks, a, n, k);
    if Holds(blocks, k, a, n) && n <= 125 {
      ReplyFrom(blocks[k], a, n, func);
    }
    hide Holds, RegistersFrom;
  }

  // Function 0x06: the register is written before the size of the reply is looked at.
  lemma WriteReg(blocks: seq<Block<word>>, d: seq<byte>, txMax: byte, k: nat)
    requires Storage(d) && AllValid(blocks)
    ensures var a, v, r := Get16(d, 0), Get16(d, 2), ServerRegs.WriteReg(blocks, d, txMax);
            && (!Held(blocks, a, 1) ==> r.code == 2 && r.holdings == blocks)
            && (Holds(blocks, k, a, 1) ==>
                  match blocks[k].write
                  case Absent => r.code == 2 && r.holdings == blocks
                  case Answers(code) =>
                    if code != 0 then r.code == code && r.holdings == blocks
                    else
                      && Stored(blocks, r.holdings, k, a, [v]) && r.code == (if txMax < 4 then 4 else 0)
                      && (r.code == 0 ==> r.reply == Pdu(6, d[..4])))
  {
    hide Locate, Written, PutWords;
    var a, v := Get16(d, 0), Get16(d, 2);
    LocateNone(blocks, a, 1);
    LocateIff(blocks, a, 1, k);
    FirstTwo(d);
    if Holds(blocks, k, a, 1) && blocks[k].write.Answers? {
      WrittenCells(blocks, k, a, [v]);
    }
    hide Holds, Stored;
  }

  // Function 0x10
  lemma WriteRegs(blocks: seq<Block<word>>, d: seq<byte>, txMax: byte, k: nat)
    requires Storage(d) && AllValid(blocks)
    ensures var a, n, r := Get16(d, 0), Get16(d, 2), ServerRegs.WriteRegs(blocks, d, txMax);
            if !(1 <= n <= 123) || d[4] as int != 2 * n then r.code == 3 && r.holdings == blocks
            else
              && (!Held(blocks, a, n) ==> r.code == 2 && r.holdings == blocks)
              && (Holds(blocks, k, a, n) ==>
                    match blocks[k].write
                    case Absent => r.code == 2 && r.holdings == blocks
                    case Answers(code) =>
                      if txMax < 4 then r.code == 4 && r.holdings == blocks
                      else if code != 0 then r.code == code && r.holdings == blocks
                      else r.code == 0 && r.reply == Pdu(16, d[..4]) && Stored(blocks, r.holdings, k, a, GetWords(d, 5, n)))
  {
    hide Locate, Written, PutWords, GetWords;
    var a, n := Get16(d, 0), Get16(d, 2);
    LocateNone(blocks, a, n);
    LocateIff(blocks, a, n, k);
    FirstTwo(d);
    if n <= 123 && Holds(blocks, k, a, n) && blocks[k].write.Answers? {
      WrittenCells(blocks, k, a, GetWords(d, 5, n));
    }
    hide Holds, Stored;
  }

  // Where every block can be written and the reply has room, the code depends on the octets and the ranges alone.
  lemma WriteRegsIff(blocks: seq<Block<word>>, d: seq<byte>, txMax: byte)
    requires Storage(d) && AllValid(blocks) && txMax >= 4
    requires forall i :: 0 <= i < |blocks| ==> blocks[i].write == Answers(0)
    ensures var a, n, r := Get16(d, 0), Get16(d, 2), ServerRegs.WriteRegs(blocks, d, txMax);
            && (r.code == 0 <==> 1 <= n <= 123 && d[4] as int == 2 * n && Held(blocks, a, n))
            && (r.code == 3 <==> !(1 <= n <= 123) || d[4] as int != 2 * n)
            && (r.code == 2 <==> 1 <= n <= 123 && d[4] as int == 2 * n && !Held(blocks, a, n))
            && (r.code != 0 ==> r.holdings == blocks)
  {
    hide ServerRegs.WriteRegs, Stored;
    var a, n := Get16(d, 0), Get16(d, 2);
    WriteRegs(blocks, d, txMax, 0);
    if Held(blocks, a, n) {
      var k: nat :| Holds(blocks, k, a, n);
      WriteRegs(blocks, d, txMax, k);
    }
  }

  // Function 0x16: as for 0x06, with a read before the write.
  lemma MaskReg(blocks: seq<Block<word>>, d: seq<byte>, txMax: byte, k: nat)
    requires Storage(d) && AllValid(blocks)
    ensures var a, r := Get16(d, 0), ServerRegs.MaskReg(blocks, d, txMax);
            && (!Held(blocks, a, 1) ==> r.code == 2 && r.holdings == blocks)
            && (Holds(blocks, k, a, 1) ==>
                  var b := blocks[k];
                  b.Valid() &&
                  if b.read.Absent? || b.write.Absent? then r.code == 2 && r.holdings == blocks
                  else if b.read.code != 0 then r.code == b.read.code && r.holdings == blocks
                  else if b.write.code != 0 then r.code == b.write.code && r.holdings == blocks
                  else
                    && Stored(blocks, r.holdings, k, a, [MaskBits.Masked(b.cells[a - b.start], Get16(d, 2), Get16(d, 4))])
                    && r.code == (if txMax < 6 then 4 else 0)
                    && (r.code == 0 ==> r.reply == Pdu(22, d[..6])))
  {
    hide Locate, Written, PutWords, MaskBits.Masked;
    var a := Get16(d, 0);
    LocateNone(blocks, a, 1);
    LocateIff(blocks, a, 1, k);
    FirstThree(d);
    if Holds(blocks, k, a, 1) && blocks[k].write.Answers? {
      WrittenCells(blocks, k, a, [MaskBits.Masked(blocks[k].cells[a - blocks[k].start], Get16(d, 2), Get16(d, 4))]);
    }
    hide Holds, Stored;
  }

  // Function 0x17: the range to be written in block w, the range to be read in block k; an absent callback is
  // answered with 01, and what is read is what the write has left.
  lemma ReadWriteRegs(blocks: seq<Block<word>>, d: seq<byte>, txMax: byte, w: nat, k: nat)
    requires Storage(d) && AllValid(blocks)
    ensures var ra, rn, wa, wn := Get16(d, 0), Get16(d, 2), Get16(d, 4), Get16(d, 6);
            var r := ServerRegs.ReadWriteRegs(blocks, d, txMax);
            if !(1 <= rn <= 125) || !(1 <= wn <= 121) || d[8] as int != 2 * wn then r.code == 3 && r.holdings == blocks
            else
              && (!Held(blocks, wa, wn) ==> r.code == 2 && r.holdings == blocks)
              && (Holds(blocks, w, wa, wn) ==>
                    && (blocks[w].write.Absent? ==> r.code == 1 && r.holdings == blocks)
                    && (blocks[w].write.Answers? && !Held(blocks, ra, rn) ==> r.code == 2 && r.holdings == blocks)
                    && (blocks[w].write.Answers? && Holds(blocks, k, ra, rn) ==>
                          if blocks[k].read.Absent? then r.code == 1 && r.holdings == blocks
                          else if 1 + 2 * rn > txMax then r.code == 4 && r.holdings == blocks
                          else if blocks[w].write.code != 0 then r.code == blocks[w].write.code && r.holdings == blocks
                          else
                            && Stored(blocks, r.holdings, w, wa, GetWords(d, 9, wn)) && r.code == blocks[k].read.code
                            && (r.code == 0 ==> r.reply.func == 23 && RegistersFrom(r.reply, r.holdings[k], ra, rn))))
  {
    hide Locate, Written, PutWords, GetWords, Slice, MaskBits.Masked;
    var ra, rn, wa, wn := Get16(d, 0), Get16(d, 2), Get16(d, 4), Get16(d, 6);
    LocateNone(blocks, wa, wn);
    LocateIff(blocks, wa, wn, w);
    LocateNone(blocks, ra, rn);
    LocateIff(blocks, ra, rn, k);
    if 1 <= rn <= 125 && 1 <= wn <= 121 && Holds(blocks, w, wa, wn) && blocks[w].write.Answers? && Holds(blocks, k, ra, rn) {
      WrittenCells(blocks, w, wa, GetWords(d, 9, wn));
      var after := Written(blocks, w, wa - blocks[w].start, GetWords(d, 9, wn));
      ReplyFrom(after[k], ra, rn, 0x17);
    }
    hide Holds, Stored, RegistersFrom;
  }

  // ----- coils

  // The reply holds the n coils of the block from address a on: their octets, and a bit for each.
  ghost predicate BitsFrom(reply: Pdu, b: Block<bool>, a: int, n: nat) {
    && b.start <= a && a + n <= b.start + b.size && b.Valid()
    && |reply.data| == 1 + (n + 7) / 8 && reply.data[0] as int == (n + 7) / 8
    && forall j :: 0 <= j < n ==> Bits.BitAt(reply.data, 1, j) == b.cells[a - b.start + j]
  }

  lemma ReplyBits(b: Block<bool>, a: int, n: nat, func: byte)
    requires b.Valid() && b.start <= a && a + n <= b.start + b.size && n <= 2000
    ensures BitsFrom(Pdu(func, [Coils.OctetCount(n)] + Bits.Pack(Slice(b, a - b.start, n))), b, a, n)
  {
    hide Bits.Pack, Bits.Bit;
    var s := Slice(b, a - b.start, n);
    forall j | 0 <= j < n ensures j / 8 < |Bits.Pack(s)| && Bits.BitAt([Coils.OctetCount(n)] + Bits.Pack(s), 1, j) == s[j] {
      OneBit(Coils.OctetCount(n), s, j);
    }
  }

  lemma OneBit(count: byte, s: seq<bool>, j: nat)
    requires j < |s|
    ensures j / 8 < |Bits.Pack(s)| && Bits.BitAt([count] + Bits.Pack(s), 1, j) == s[j]
  {
    hide Bits.Pack, Bits.Bit;
    Bits.PackedBit(s, j);
  }

  // Functions 0x01 and 0x02
  lemma ReadBits(blocks: seq<Block<bool>>, func: byte, d: seq<byte>, txMax: byte, k: nat)
    requires Storage(d) && AllValid(blocks)
    ensures var a, n, r := Get16(d, 0), Get16(d, 2), Coils.ReadBits(blocks, func, d, txMax);
            && r.coils == blocks
            && if !(1 <= n <= 2000) then r.code == 3
               else
                 && (!Held(blocks, a, n) ==> r.code == 2)
                 && (Holds(blocks, k, a, n) ==>
                       match blocks[k].read
                       case Absent => r.code == 2
                       case Answers(code) =>
                         if 1 + (n + 7) / 8 > txMax as int then r.code == 4
                         else r.code == code && (code == 0 ==> r.reply.func == func && BitsFrom(r.reply, blocks[k], a, n)))
  {
    hide Locate, Slice, Bits.Pack;
    var a, n := Get16(d, 0), Get16(d, 2);
    LocateNone(blocks, a, n);
    LocateIff(blocks, a, n, k);
    if Holds(blocks, k, a, n) && n <= 2000 {
      ReplyBits(blocks[k], a, n, func);
    }
    hide Holds, BitsFrom;
  }

  // Function 0x0F: the number of octets is held against the size of the request, not against the quantity.
  lemma WriteCoils(blocks: seq<Block<bool>>, d: seq<byte>, size: byte, txMax: byte, k: nat)
    requires Storage(d) && AllValid(blocks)
    ensures var a, n, r := Get16(d, 0), Get16(d, 2), Coils.WriteCoils(blocks, d, size, txMax);
            if !(1 <= n <= 1968) || size as int != 5 + d[4] as int then r.code == 3 && r.coils == blocks
            else
              && (!Held(blocks, a, n) ==> r.code == 2 && r.coils == blocks)
              && (Holds(blocks, k, a, n) ==>
                    match blocks[k].write
                    case Absent => r.code == 2 && r.coils == blocks
                    case Answers(code) =>
                      if txMax < 4 then r.code == 4 && r.coils == blocks
                      else if code != 0 then r.code == code && r.coils == blocks
                      else r.code == 0 && r.reply == Pdu(15, d[..4]) && Stored(blocks, r.coils, k, a, Bits.Unpack(d, 5, n)))
  {
    hide Locate, Written, PutWords, Bits.Unpack;
    var a, n := Get16(d, 0), Get16(d, 2);
    LocateNone(blocks, a, n);
    LocateIff(blocks, a, n, k);
    FirstTwo(d);
    if n <= 1968 && Holds(blocks, k, a, n) && blocks[k].write.Answers? {
      WrittenCells(blocks, k, a, Bits.Unpack(d, 5, n));
    }
    hide Holds, Stored;
  }

  // Function 0x05: FF00 sets the coil, 0000 clears it, and nothing else is a value.
  lemma WriteCoil(blocks: seq<Block<bool>>, d: seq<byte>, txMax: byte, k: nat)
    requires Storage(d) && AllValid(blocks)
    ensures var a, r := Get16(d, 0), Coils.WriteCoil(blocks, d, txMax);
            if !(d[3] == 0 && (d[2] == 0 || d[2] == 255)) then r.code == 3 && r.coils == blocks
            else
              && (!Held(blocks, a, 1) ==> r.code == 2 && r.coils == blocks)
              && (Holds(blocks, k, a, 1) ==>
                    match blocks[k].write
                    case Absent => r.code == 2 && r.coils == blocks
                    case Answers(code) =>
                      if txMax < 4 then r.code == 4 && r.coils == blocks
                      else if code != 0 then r.code == code && r.coils == blocks
                      else r.code == 0 && r.reply == Pdu(5, d[..4]) && Stored(blocks, r.coils, k, a, [d[2] == 255]))
  {
    hide Locate, Written, PutWords;
    var a := Get16(d, 0);
    LocateNone(blocks, a, 1);
    LocateIff(blocks, a, 1, k);
    FirstTwo(d);
    if Holds(blocks, k, a, 1) && blocks[k].write.Answers? {
      WrittenCells(blocks, k, a, [d[2] == 255]);
    }
    hide Holds, Stored;
  }

  // ----- the codes alone, where all callbacks answer 0 and the reply has room

  lemma ReadRegsIff(blocks: seq<Block<word>>, func: byte, d: seq<byte>, txMax: byte)
    requires Storage(d) && AllValid(blocks) && txMax >= 251
    requires forall i :: 0 <= i < |blocks| ==> blocks[i].read == Answers(0)
    ensures var a, n, r := Get16(d, 0), Get16(d, 2), ServerRegs.ReadRegs(blocks, func, d, txMax);
            var found := exists i :: 0 <= i < |blocks| && Within(blocks[i], a);
            && (r.code == 0 <==> 1 <= n <= 125 && Held(blocks, a, n))
            && (r.code == 3 <==> found && !(1 <= n <= 125))
            && (r.code == 2 <==> !found || (1 <= n <= 125 && !Held(blocks, a, n)))
  {
    hide ServerRegs.ReadRegs, RegistersFrom;
    var a, n := Get16(d, 0), Get16(d, 2);
    ReadRegs(blocks, func, d, txMax, 0);
    if Held(blocks, a, n) {
      var k: nat :| Holds(blocks, k, a, n);
      ReadRegs(blocks, func, d, txMax, k);
    }
  }

  lemma ReadBitsIff(blocks: seq<Block<bool>>, func: byte, d: seq<byte>, txMax: byte)
    requires Storage(d) && AllValid(blocks) && txMax >= 251
    requires forall i :: 0 <= i < |blocks| ==> blocks[i].read == Answers(0)
    ensures var a, n, r := Get16(d, 0), Get16(d, 2), Coils.ReadBits(blocks, func, d, txMax);
            && (r.code == 0 <==> 1 <= n <= 2000 && Held(blocks, a, n))
            && (r.code == 3 <==> !(1 <= n <= 2000))
            && (r.code == 2 <==> 1 <= n <= 2000 && !Held(blocks, a, n))
  {
    hide Coils.ReadBits, BitsFrom;
    var a, n := Get16(d, 0), Get16(d, 2);
    ReadBits(blocks, func, d, txMax, 0);
    if Held(blocks, a, n) {
      var k: nat :| Holds(blocks, k, a, n);
      ReadBits(blocks, func, d, txMax, k);
    }
  }

  lemma WriteCoilsIff(blocks: seq<Block<bool>>, d: seq<byte>, size: byte, txMax: byte)
    requires Storage(d) && AllValid(blocks) && txMax >= 4
    requires forall i :: 0 <= i < |blocks| ==> blocks[i].write == Answers(0)
    ensures var a, n, r := Get16(d, 0), Get16(d, 2), Coils.WriteCoils(blocks, d, size, txMax);
            && (r.code == 0 <==> 1 <= n <= 1968 && size as int == 5 + d[4] as int && Held(blocks, a, n))
            && (r.code == 3 <==> !(1 <= n <= 1968) || size as int != 5 + d[4] as int)
            && (r.code == 2 <==> 1 <= n <= 1968 && size as int == 5 + d[4] as int && !Held(blocks, a, n))
            && (r.code != 0 ==> r.coils == blocks)
  {
    hide Coils.WriteCoils, Stored;
    var a, n := Get16(d, 0), Get16(d, 2);
    WriteCoils(blocks, d, size, txMax, 0);
    if Held(blocks, a, n) {
      var k: nat :| Holds(blocks, k, a, n);
      WriteCoils(blocks, d, size, txMax, k);
    }
  }

  lemma ReadWriteRegsIff(blocks: seq<Block<word>>, d: seq<byte>, txMax: byte)
    requires Storage(d) && AllValid(blocks) && txMax >= 251
    requires forall i :: 0 <= i < |blocks| ==> blocks[i].read == Answers(0) && blocks[i].write == Answers(0)
    ensures var ra, rn, wa, wn := Get16(d, 0), Get16(d, 2), Get16(d, 4), Get16(d, 6);
            var r := ServerRegs.ReadWriteRegs(blocks, d, txMax);
            var usual := 1 <= rn <= 125 && 1 <= wn <= 121 && d[8] as int == 2 * wn;
            && (r.code == 0 <==> usual && Held(blocks, wa, wn) && Held(blocks, ra, rn))
            && (r.code == 3 <==> !usual)
            && (r.code == 2 <==> usual && !(Held(blocks, wa, wn) && Held(blocks, ra, rn)))
            && (r.code != 0 ==> r.holdings == blocks)
  {
    hide ServerRegs.ReadWriteRegs, Stored, RegistersFrom;
    var ra, rn, wa, wn := Get16(d, 0), Get16(d, 2), Get16(d, 4), Get16(d, 6);
    ReadWriteRegs(blocks, d, txMax, 0, 0);
    if Held(blocks, wa, wn) {
      var w: nat :| Holds(blocks, w, wa, wn);
      ReadWriteRegs(blocks, d, txMax, w, 0);
      if Held(blocks, ra, rn) {
        var k: nat :| Holds(blocks, k, ra, rn);
        ReadWriteRegs(blocks, d, txMax, w, k);
      }
    }
  }
}
