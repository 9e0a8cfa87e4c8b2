/** The register handlers of the server, emodbus/server/read_regs.c, write_single_reg.c,
    write_multi_regs.c, write_mask_reg.c and read_write_regs.c.

    Each handler is specified by a function from the registers and the octets of the
    request to an exception code, the registers afterwards and, for code 0, the reply. */
module ServerRegs {
  import opened Words
  import opened Pdus
  import opened Registry
  import opened Cells
  import opened WordBuffers
  import opened MaskBits

  type RegBlock = Block<word>

  // Exception code, holding registers afterwards, and the reply that goes with code 0.
  datatype Result = Result(code: byte, holdings: seq<RegBlock>, reply: Pdu)

  const NO_REPLY := Pdu(0, [])

  function Refuse(code: byte, holdings: seq<RegBlock>): Result { Result(code, holdings, NO_REPLY) }

  // ----- the handlers as functions

  // Functions 0x03 and 0x04, on the blocks their getter searches
  function ReadRegs(blocks: seq<RegBlock>, func: byte, d: seq<byte>, txMax: byte): (r: Result)
    requires Storage(d) && AllValid(blocks)
    ensures r.holdings == blocks
  {
    var start, quantity := Get16(d, 0), Get16(d, 2);
    var k := Locate(blocks, start, quantity);
    if Find(blocks, start).None? then Refuse(MBE_ILLEGAL_DATA_ADDR, blocks)
    else if !(1 <= quantity <= 0x7D) then Refuse(MBE_ILLEGAL_DATA_VALUE, blocks)
    else if k.None? || blocks[k.value].read.Absent? then Refuse(MBE_ILLEGAL_DATA_ADDR, blocks)
    else if 1 + 2 * quantity > txMax then Refuse(MBE_SLAVE_FAILURE, blocks)
    else ReadAt(blocks, k.value, func, start, quantity)
  }

  // The read callback of block k, and the reply to it.
  function ReadAt(blocks: seq<RegBlock>, k: nat, func: byte, start: word, quantity: nat): (r: Result)
    requires AllValid(blocks) && k < |blocks| && blocks[k].read.Answers? && quantity <= 0x7D
    requires blocks[k].start <= start && start + quantity <= blocks[k].start + blocks[k].size
    ensures r.holdings == blocks
  {
    var b := blocks[k];
    if b.read.code != 0 then Refuse(b.read.code, blocks)
    else Result(0, blocks, Pdu(func, [ByteCount(quantity)] + PutWords(Slice(b, start - b.start, quantity))))
  }

  // Function 0x06
  function WriteReg(blocks: seq<RegBlock>, d: seq<byte>, txMax: byte): (r: Result)
    requires Storage(d) && AllValid(blocks)
    ensures AllValid(r.holdings)
  {
    var addr, data := Get16(d, 0), Get16(d, 2);
    var k := Locate(blocks, addr, 1);
    if k.None? || blocks[k.value].write.Absent? then Refuse(MBE_ILLEGAL_DATA_ADDR, blocks)
    else
      var b := blocks[k.value];
      var after := Written(blocks, k.value, addr - b.start, [data]);
      if b.write.code != 0 then Refuse(b.write.code, after)
      else if 4 > txMax then Refuse(MBE_SLAVE_FAILURE, after)
      else Result(0, after, Pdu(0x06, PutWords([addr, data])))
  }

  // Function 0x10
  function WriteRegs(blocks: seq<RegBlock>, d: seq<byte>, txMax: byte): (r: Result)
    requires Storage(d) && AllValid(blocks)
    ensures AllValid(r.holdings)
  {
    var start, quantity, byteCount := Get16(d, 0), Get16(d, 2), d[4];
    if !(1 <= quantity <= 0x7B) || byteCount != quantity * 2 then Refuse(MBE_ILLEGAL_DATA_VALUE, blocks)
    else
      var k := Locate(blocks, start, quantity);
      if k.None? || blocks[k.value].write.Absent? then Refuse(MBE_ILLEGAL_DATA_ADDR, blocks)
      else if 4 > txMax then Refuse(MBE_SLAVE_FAILURE, blocks)
      else
        var b := blocks[k.value];
        var after := Written(blocks, k.value, start - b.start, GetWords(d, 5, quantity));
        if b.write.code != 0 then Refuse(b.write.code, after)
        else Result(0, after, Pdu(0x10, PutWords([start, quantity])))
  }

  // Function 0x16
  function MaskReg(blocks: seq<RegBlock>, d: seq<byte>, txMax: byte): (r: Result)
    requires Storage(d) && AllValid(blocks)
    ensures AllValid(r.holdings)
  {
    var addr, andMask, orMask := Get16(d, 0), Get16(d, 2), Get16(d, 4);
    var k := Locate(blocks, addr, 1);
    if k.None? || blocks[k.value].read.Absent? || blocks[k.value].write.Absent? then
      Refuse(MBE_ILLEGAL_DATA_ADDR, blocks)
    else
      var b := blocks[k.value];
      if b.read.code != 0 then Refuse(b.read.code, blocks)
      else
        var value := Masked(b.cells[addr - b.start], andMask, orMask);
        var after := Written(blocks, k.value, addr - b.start, [value]);
        if b.write.code != 0 then Refuse(b.write.code, after)
        else if 6 > txMax then Refuse(MBE_SLAVE_FAILURE, after)
        else Result(0, after, Pdu(0x16, PutWords([addr, andMask, orMask])))
  }

  // Function 0x17: the write comes first, so the read sees it.
  function ReadWriteRegs(blocks: seq<RegBlock>, d: seq<byte>, txMax: byte): (r: Result)
    requires Storage(d) && AllValid(blocks)
    ensures AllValid(r.holdings)
  {
    var rdStart, rdQuantity, wrStart, wrQuantity := Get16(d, 0), Get16(d, 2), Get16(d, 4), Get16(d, 6);
    if !(1 <= rdQuantity <= 0x7D) || !(1 <= wrQuantity <= 0x79) || d[8] != wrQuantity * 2 then
      Refuse(MBE_ILLEGAL_DATA_VALUE, blocks)
    else
      var w, r := Locate(blocks, wrStart, wrQuantity), Locate(blocks, rdStart, rdQuantity);
      if w.None? then Refuse(MBE_ILLEGAL_DATA_ADDR, blocks)
      else if blocks[w.value].write.Absent? then Refuse(MBE_ILLEGAL_FUNCTION, blocks)
      else if r.None? then Refuse(MBE_ILLEGAL_DATA_ADDR, blocks)
      else if blocks[r.value].read.Absent? then Refuse(MBE_ILLEGAL_FUNCTION, blocks)
      else if 1 + 2 * rdQuantity > txMax then Refuse(MBE_SLAVE_FAILURE, blocks)
      else
        var b := blocks[w.value];
        var after := Written(blocks, w.value, wrStart - b.start, GetWords(d, 9, wrQuantity));
        if b.write.code != 0 then Refuse(b.write.code, after)
        else ReadAt(after, r.value, 0x17, rdStart, rdQuantity)
  }

  // ----- replies

  // A reply of a byte count and registers, copied in host order and swapped in place.
  method AnswerRegisters(tx: PduBuffer, func: byte, values: seq<word>)
    requires tx.Valid() && |values| <= 125 && 1 + 2 * |values| <= tx.data.Length
    modifies tx`func, tx`size, tx.data
    ensures tx.Valid() && tx.Value() == Pdu(func, [ByteCount(|values|)] + PutWords(values))
  {
    tx.data[0] := |values| * 2;
    CopyWords(tx.data, 1, values);
    SwapWords(tx.data, 1, |values|);
    tx.func := func;
    tx.size := 1 + 2 * |values|;
    OctetsArePutWords(tx.data[1..tx.size], values);
    assert tx.data[..tx.size] == [tx.data[0]] + tx.data[1..tx.size];
  }

  // A reply that repeats words of the request.
  method AnswerWords(tx: PduBuffer, func: byte, words: seq<word>)
    requires tx.Valid() && |words| <= 3 && 6 <= tx.data.Length
    modifies tx`func, tx`size, tx.data
    ensures tx.Valid() && tx.Value() == Pdu(func, PutWords(words))
  {
    var i := 0;
    while i < |words|
      invariant 0 <= i <= |words|
      invariant forall k :: 0 <= k < i ==>
                  tx.data[2 * k] == Hi(words[k]) && tx.data[2 * k + 1] == Lo(words[k])
    {
      StoreBigEnd16(tx.data, 2 * i, words[i]);
      i := i + 1;
    }
    tx.func := func;
    tx.size := 2 * |words|;
    OctetsArePutWords(tx.data[..tx.size], words);
  }

  // ----- the registers of a server and the handlers that work on them

  class RegisterStore {
    var holdings: Option<seq<RegBlock>>   // None: the server has no getter for them
    var inputs: Option<seq<RegBlock>>

    ghost predicate Valid()
      reads this
    {
      (holdings.Some? ==> AllValid(holdings.value)) && (inputs.Some? ==> AllValid(inputs.value))
    }

    // The two buffers of a request: at least MAX_PDU_DATA_SIZE octets each.
    ghost predicate Buffers(rx: PduBuffer, tx: PduBuffer)
      reads rx, tx
    {
      && rx.Valid() && tx.Valid() && rx != tx && rx.data != tx.data
      && rx.data.Length >= MAX_PDU_DATA_SIZE && tx.data.Length >= MAX_PDU_DATA_SIZE
    }

    // What every handler promises: the specified code and registers, and for code 0 the specified reply.
    twostate predicate Meets(tx: PduBuffer, res: byte, spec: Result)
      reads this, tx, tx.data
    {
      && tx.Valid() && tx.maxSize == old(tx.maxSize)
      && res == spec.code && holdings == Some(spec.holdings) && inputs == old(inputs)
      && (res == 0 ==> tx.Value() == spec.reply)
    }

    method CallRead(b: RegBlock, offset: nat, quantity: nat) returns (res: byte, values: seq<word>)
      requires b.Valid() && b.read.Answers? && offset + quantity <= b.size
      ensures res == b.read.code && (res == 0 ==> values == Slice(b, offset, quantity))
    {
      res := b.read.code;
      values := if res == 0 then b.cells[offset..offset + quantity] else [];
    }

    method CallWrite(k: nat, offset: nat, values: seq<word>) returns (res: byte)
      requires Valid() && holdings.Some? && k < |holdings.value| && holdings.value[k].write.Answers?
      requires offset + |values| <= holdings.value[k].size
      modifies this`holdings
      ensures Valid() && holdings == Some(Written(old(holdings).value, k, offset, values))
      ensures res == old(holdings).value[k].write.code
    {
      var b := holdings.value[k];
      res := b.write.code;
      if res == 0 {
        holdings := Some(holdings.value[k := Overwrite(b, offset, values)]);
      }
    }

    // The getter for holding registers and the range check.
    method LocateHoldings(start: word, quantity: nat) returns (k: Option<nat>)
      requires Valid() && holdings.Some?
      ensures k == Locate(holdings.value, start, quantity)
    {
      k := Locate(holdings.value, start, quantity);
    }

    // emb_srv_read_regs
    method SrvReadRegs(rx: PduBuffer, tx: PduBuffer) returns (res: byte)
      requires Valid() && Buffers(rx, tx)
      modifies tx, tx.data
      ensures Valid() && tx.Valid() && tx.maxSize == old(tx.maxSize)
      ensures var getter := if rx.func == 0x03 then holdings else if rx.func == 0x04 then inputs else Some([]);
              if getter.None? then res == MBE_SLAVE_FAILURE
              else
                var spec := ReadRegs(getter.value, rx.func, rx.data[..], old(tx.maxSize));
                res == spec.code && (res == 0 ==> tx.Value() == spec.reply)
    {
      var start, quantity := Get16(rx.data[..], 0), Get16(rx.data[..], 2);
      if rx.func == 0x03 {
        if holdings.None? {
          return MBE_SLAVE_FAILURE;
        }
        res := ReadFrom(holdings.value, rx.func, start, quantity, rx.data[..], tx);
      } else if rx.func == 0x04 {
        if inputs.None? {
          return MBE_SLAVE_FAILURE;
        }
        res := ReadFrom(inputs.value, rx.func, start, quantity, rx.data[..], tx);
      } else {
        res := ReadFrom([], rx.func, start, quantity, rx.data[..], tx);
      }
    }

    method ReadFrom(blocks: seq<RegBlock>, func: byte, start: word, quantity: word, ghost d: seq<byte>, tx: PduBuffer)
      returns (res: byte)
      requires AllValid(blocks) && tx.Valid() && tx.data.Length >= MAX_PDU_DATA_SIZE
      requires Storage(d) && start == Get16(d, 0) && quantity == Get16(d, 2)
      modifies tx, tx.data
      ensures tx.Valid() && tx.maxSize == old(tx.maxSize)
      ensures var spec := ReadRegs(blocks, func, d, old(tx.maxSize));
              res == spec.code && (res == 0 ==> tx.Value() == spec.reply)
    {
      hide ReadAt, Find;
      var found := Find(blocks, start);
      if found.None? {
        return MBE_ILLEGAL_DATA_ADDR;
      }
      if !(1 <= quantity <= 0x7D) {
        return MBE_ILLEGAL_DATA_VALUE;
      }
      FindCovers(blocks, start);
      var r := blocks[found.value];
      if start + quantity > r.start + r.size {
        return MBE_ILLEGAL_DATA_ADDR;
      }
      if r.read.Absent? {
        return MBE_ILLEGAL_DATA_ADDR;
      }
      tx.data[0] := quantity * 2;
      tx.func := func;
      tx.size := 1 + quantity * 2;
      if tx.size > tx.maxSize {
        return MBE_SLAVE_FAILURE;
      }
      res := AnswerRead(blocks, found.value, func, start, quantity, tx);
    }

    // emb_srv_write_reg
    method SrvWriteReg(rx: PduBuffer, tx: PduBuffer) returns (res: byte)
      requires Valid() && Buffers(rx, tx)
      modifies this`holdings, tx, tx.data
      ensures Valid()
      ensures old(holdings).None? ==> res == MBE_SLAVE_FAILURE && holdings.None? && tx.Valid() && tx.maxSize == old(tx.maxSize)
      ensures old(holdings).Some? ==>
                Meets(tx, res, WriteReg(old(holdings).value, old(rx.data[..]), old(tx.maxSize)))
    {
      hide Written, Locate, PutWords;
      var addr, data := Get16(rx.data[..], 0), Get16(rx.data[..], 2);
      if holdings.None? {
        return MBE_SLAVE_FAILURE;
      }
      var k := LocateHoldings(addr, 1);
      if k.None? {
        return MBE_ILLEGAL_DATA_ADDR;
      }
      var b := holdings.value[k.value];
      if b.write.Absent? {
        return MBE_ILLEGAL_DATA_ADDR;
      }
      res := CallWrite(k.value, addr - b.start, [data]);
      if res != 0 {
        return;
      }
      if 4 > tx.maxSize {
        return MBE_SLAVE_FAILURE;
      }
      AnswerWords(tx, 0x06, [addr, data]);
    }

    // emb_srv_write_regs
    method SrvWriteRegs(rx: PduBuffer, tx: PduBuffer) returns (res: byte)
      requires Valid() && Buffers(rx, tx)
      modifies this`holdings, rx.data, tx, tx.data
      ensures Valid()
      ensures old(holdings).None? ==>
                && holdings.None? && tx.Valid() && tx.maxSize == old(tx.maxSize)
                && res == NoGetter(WriteRegs([], old(rx.data[..]), old(tx.maxSize)).code)
      ensures old(holdings).Some? ==>
                Meets(tx, res, WriteRegs(old(holdings).value, old(rx.data[..]), old(tx.maxSize)))
    {
      hide Written, PutWords, GetWords, Locate, Find;
      var start, quantity := Get16(rx.data[..], 0), Get16(rx.data[..], 2);
      var byteCount := rx.data[4];
      if !(1 <= quantity <= 0x7B) || byteCount != quantity * 2 {
        return MBE_ILLEGAL_DATA_VALUE;
      }
      if holdings.None? {
        NothingLocated<word>(start, quantity);
        return MBE_SLAVE_FAILURE;
      }
      var k := LocateHoldings(start, quantity);
      if k.None? {
        return MBE_ILLEGAL_DATA_ADDR;
      }
      var b := holdings.value[k.value];
      if b.write.Absent? {
        return MBE_ILLEGAL_DATA_ADDR;
      }
      if 4 > tx.maxSize {
        return MBE_SLAVE_FAILURE;
      }
      var values := TakeWords(rx.data, 5, quantity);
      res := CallWrite(k.value, start - b.start, values);
      if res != 0 {
        return;
      }
      AnswerWords(tx, 0x10, [start, quantity]);
    }

    // emb_srv_mask_reg
    method SrvMaskReg(rx: PduBuffer, tx: PduBuffer) returns (res: byte)
      requires Valid() && Buffers(rx, tx)
      modifies this`holdings, tx, tx.data
      ensures Valid()
      ensures old(holdings).None? ==> res == MBE_SLAVE_FAILURE && holdings.None? && tx.Valid() && tx.maxSize == old(tx.maxSize)
      ensures old(holdings).Some? ==>
                Meets(tx, res, MaskReg(old(holdings).value, old(rx.data[..]), old(tx.maxSize)))
    {
      hide Written, Locate, PutWords, Masked, Find;
      var addr, andMask, orMask :=
        Get16(rx.data[..], 0), Get16(rx.data[..], 2), Get16(rx.data[..], 4);
      if holdings.None? {
        return MBE_SLAVE_FAILURE;
      }
      var k := LocateHoldings(addr, 1);
      if k.None? {
        return MBE_ILLEGAL_DATA_ADDR;
      }
      var b := holdings.value[k.value];
      if b.read.Absent? || b.write.Absent? {
        return MBE_ILLEGAL_DATA_ADDR;
      }
      res := MaskAt(k.value, addr, andMask, orMask, tx);
    }

    method MaskAt(k: nat, addr: word, andMask: word, orMask: word, tx: PduBuffer) returns (res: byte)
      requires Valid() && holdings.Some? && k < |holdings.value|
      requires var b := holdings.value[k]; b.start <= addr < b.start + b.size && b.read.Answers? && b.write.Answers?
      requires tx.Valid() && tx.data.Length >= 6
      modifies this`holdings, tx, tx.data
      ensures Valid() && tx.Valid() && tx.maxSize == old(tx.maxSize)
      ensures var blocks := old(holdings).value;
              var b := blocks[k];
              && holdings == Some(if b.read.code != 0 then blocks
                                  else Written(blocks, k, addr - b.start, [Masked(b.cells[addr - b.start], andMask, orMask)]))
              && res == (if b.read.code != 0 then b.read.code else if b.write.code != 0 then b.write.code
                         else if 6 > tx.maxSize then MBE_SLAVE_FAILURE else 0)
      ensures res == 0 ==> tx.Value() == Pdu(0x16, PutWords([addr, andMask, orMask]))
    {
      hide Written, PutWords, Masked;
      res := ReadModifyWrite(k, addr - holdings.value[k].start, andMask, orMask);
      if res != 0 {
        return;
      }
      if 6 > tx.maxSize {
        return MBE_SLAVE_FAILURE;
      }
      AnswerWords(tx, 0x16, [addr, andMask, orMask]);
    }

    // The read-modify-write of emb_srv_mask_reg.
    method ReadModifyWrite(k: nat, offset: nat, andMask: word, orMask: word) returns (res: byte)
      requires Valid() && holdings.Some? && k < |holdings.value|
      requires var b := holdings.value[k]; offset < b.size && b.read.Answers? && b.write.Answers?
      modifies this`holdings
      ensures Valid()
      ensures var blocks := old(holdings).value;
              var b := blocks[k];
              && res == (if b.read.code != 0 then b.read.code else b.write.code)
              && holdings == Some(if b.read.code != 0 then blocks
                                  else Written(blocks, k, offset, [Masked(b.cells[offset], andMask, orMask)]))
    {
      hide Masked, ToBv16, OfBv16;
      var tmp;
      res, tmp := CallRead(holdings.value[k], offset, 1);
      if res != 0 {
        return;
      }
      MaskedIsCombine(tmp[0], andMask, orMask);
      tmp := [OfBv16((ToBv16(tmp[0]) & ToBv16(andMask)) | (ToBv16(orMask) & !ToBv16(andMask)))];
      res := CallWrite(k, offset, tmp);
    }

    // emb_srv_read_write_regs
    method SrvReadWriteRegs(rx: PduBuffer, tx: PduBuffer) returns (res: byte)
      requires Valid() && Buffers(rx, tx)
      modifies this`holdings, rx.data, tx, tx.data
      ensures Valid()
      ensures old(holdings).None? ==>
                && holdings.None? && tx.Valid() && tx.maxSize == old(tx.maxSize)
                && res == NoGetter(ReadWriteRegs([], old(rx.data[..]), old(tx.maxSize)).code)
      ensures old(holdings).Some? ==>
                Meets(tx, res, ReadWriteRegs(old(holdings).value, old(rx.data[..]), old(tx.maxSize)))
    {
      hide Written, PutWords, GetWords, ReadAt, Locate, Find;
      var rdStart, rdQuantity := Get16(rx.data[..], 0), Get16(rx.data[..], 2);
      var wrStart, wrQuantity := Get16(rx.data[..], 4), Get16(rx.data[..], 6);
      if !(1 <= rdQuantity <= 0x7D) {
        return MBE_ILLEGAL_DATA_VALUE;
      }
      if !(1 <= wrQuantity <= 0x79) {
        return MBE_ILLEGAL_DATA_VALUE;
      }
      if rx.data[8] != wrQuantity * 2 {
        return MBE_ILLEGAL_DATA_VALUE;
      }
      if holdings.None? {
        NothingLocated<word>(wrStart, wrQuantity);
        return MBE_SLAVE_FAILURE;
      }
      // find and check the registers to be written
      var wr := LocateHoldings(wrStart, wrQuantity);
      if wr.None? {
        return MBE_ILLEGAL_DATA_ADDR;
      }
      var w := holdings.value[wr.value];
      if w.write.Absent? {
        return MBE_ILLEGAL_FUNCTION;
      }
      // find and check the registers to be read
      var rd := LocateHoldings(rdStart, rdQuantity);
      if rd.None? {
        return MBE_ILLEGAL_DATA_ADDR;
      }
      if holdings.value[rd.value].read.Absent? {
        return MBE_ILLEGAL_FUNCTION;
      }
      if 1 + 2 * rdQuantity > tx.maxSize {
        return MBE_SLAVE_FAILURE;
      }
      var values := TakeWords(rx.data, 9, wrQuantity);
      res := CallWrite(wr.value, wrStart - w.start, values);
      if res != 0 {
        return;
      }
      res := AnswerRead(holdings.value, rd.value, 0x17, rdStart, rdQuantity, tx);
    }

    // The read callback, and the reply to it.
    method AnswerRead(blocks: seq<RegBlock>, k: nat, func: byte, start: word, quantity: word, tx: PduBuffer)
      returns (res: byte)
      requires AllValid(blocks) && k < |blocks| && blocks[k].read.Answers?
      requires blocks[k].start <= start && start + quantity <= blocks[k].start + blocks[k].size
      requires tx.Valid() && tx.data.Length >= MAX_PDU_DATA_SIZE && 1 <= quantity <= 0x7D
      modifies tx, tx.data
      ensures tx.Valid() && tx.maxSize == old(tx.maxSize)
      ensures var spec := ReadAt(blocks, k, func, start, quantity);
              res == spec.code && (res == 0 ==> tx.Value() == spec.reply)
    {
      hide Slice, PutWords;
      var r := blocks[k];
      var values;
      res, values := CallRead(r, start - r.start, quantity);
      if res != 0 {
        return;
      }
      AnswerRegisters(tx, func, values);
    }
  }
}
