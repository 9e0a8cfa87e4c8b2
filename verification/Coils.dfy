/** Coils and discrete inputs: the handlers emodbus/server/read_bits.c, write_coil.c and write_coils.c,
    the client's emodbus/client/read_bits.c, write_coil.c and write_coils.c with the packing of
    cpp-wrap/emodbus.cpp:233-258, and the round trip through both. */
module Coils {
  import opened Words
  import opened Pdus
  import opened Registry
  import opened Cells
  import opened Bits

  type BitBlock = Block<bool>

  datatype Result = Result(code: byte, coils: seq<BitBlock>, reply: Pdu)

  function Refuse(code: byte, coils: seq<BitBlock>): Result { Result(code, coils, Pdu(0, [])) }

  // ----- the requests and answers of the client

  function ReadBitsReq(discrete: bool, start: word, quantity: word): Pdu {
    Pdu(if discrete then 0x02 else 0x01, PutWords([start, quantity]))
  }

  // The octet that counts the octets of n bits.
  function OctetCount(n: nat): byte
    requires n <= 0x7D0
  {
    Octets(n)
  }

  function WriteCoilsReq(start: word, bs: seq<bool>): Pdu
    requires |bs| <= 0x7B0
  {
    Pdu(0x0F, PutWords([start, |bs|]) + [OctetCount(|bs|)] + Pack(bs))
  }

  // How a single coil is sent.
  function CoilCode(value: bool): word { if value then 0xFF00 else 0x0000 }

  function WriteCoilReq(addr: word, value: bool): (req: Pdu)
    ensures |req.data| == 4
  {
    CoilPdu(addr, CoilCode(value))
  }

  function CoilPdu(addr: word, code: word): (r: Pdu)
    ensures |r.data| == 4
  {
    Pdu(0x05, PutWords([addr, code]))
  }

  // emb_read_bits_calc_answer_data_size
  function ReadAnswerSize(quantity: word): int {
    if 1 <= quantity <= 0x7D0 then 1 + Octets(quantity) else -EINVAL
  }

  const WRITE_ANSWER_SIZE := 4

  // emb_write_coils_calc_req_data_size
  function WriteReqSize(quantity: word): int {
    if 1 <= quantity <= 0x7B0 then 5 + Octets(quantity) else -EINVAL
  }

  // emb_read_bits_get_bit
  function AnswerBit(answer: Pdu, offset: nat): bool
    requires 1 + offset / 8 < |answer.data|
  {
    BitAt(answer.data, 1, offset)
  }

  // emb_read_bits_make_req
  method ReadBitsMakeReq(result: PduBuffer, discrete: bool, start: word, quantity: word) returns (r: int)
    requires result.Valid()
    modifies result`func, result`size, result.data
    ensures result.Valid()
    ensures r == if result.maxSize < 4 then -ENOMEM else if 1 <= quantity <= 0x7D0 then 0 else -EINVAL
    ensures r == 0 ==> result.Value() == ReadBitsReq(discrete, start, quantity)
    ensures r != 0 ==> result.Value() == old(result.Value())
  {
    if result.maxSize < 4 {
      return -ENOMEM;
    }
    if 1 <= quantity <= 0x7D0 {
      StoreTwo(result, if discrete then 0x02 else 0x01, start, quantity);
      r := 0;
    } else {
      r := -EINVAL;
    }
  }

  // emb_write_coil_make_req
  method WriteCoilMakeReq(result: PduBuffer, addr: word, value: bool) returns (r: int)
    requires result.Valid()
    modifies result`func, result`size, result.data
    ensures result.Valid()
    ensures r == if result.maxSize < 4 then -ENOMEM else 0
    ensures r == 0 ==> result.Value() == WriteCoilReq(addr, value)
    ensures r != 0 ==> result.Value() == old(result.Value())
  {
    hide PutWords, CoilCode;
    if result.maxSize < 4 {
      return -ENOMEM;
    }
    StoreTwo(result, 0x05, addr, CoilCode(value));
    r := 0;
  }

  // Two words and nothing else, as a request or an answer.
  method StoreTwo(result: PduBuffer, func: byte, first: word, second: word)
    requires result.Valid() && result.data.Length >= 4
    modifies result`func, result`size, result.data
    ensures result.Valid() && result.Value() == Pdu(func, PutWords([first, second]))
    ensures forall i :: 4 <= i < result.data.Length ==> result.data[i] == old(result.data[i])
  {
    result.data[0], result.data[1] := Hi(first), Lo(first);
    result.data[2], result.data[3] := Hi(second), Lo(second);
    result.func, result.size := func, 4;
    TwoWords(first, second);
    assert result.data[..4] == [Hi(first), Lo(first), Hi(second), Lo(second)];
  }

  lemma TwoWords(first: word, second: word)
    ensures PutWords([first, second]) == [Hi(first), Lo(first), Hi(second), Lo(second)]
  {
    assert [first, second][..1] == [first];
    assert PutWords([first]) == Put16(first);
    assert PutWords([first, second]) == PutWords([first]) + Put16(second);
  }

  // write_coils_t::build_req and emb_write_coils_make_req
  method WriteCoilsMakeReq(result: PduBuffer, start: word, quantity: word, bs: seq<bool>) returns (r: int)
    requires result.Valid() && |bs| == quantity
    modifies result`func, result`size, result.data
    ensures result.Valid()
    ensures r == if result.maxSize < WriteReqSize(quantity) % 0x100 then -ENOMEM
                 else if 1 <= quantity <= 0x7B0 then 0 else -EINVAL
    ensures r == 0 ==> result.Value() == WriteCoilsReq(start, bs)
    ensures r != 0 ==> result.Value() == old(result.Value())
  {
    hide Pack, PutWords;
    var coils := PackBits(bs);
    var byteCount := WriteReqSize(quantity) % 0x100;
    if result.maxSize < byteCount {
      return -ENOMEM;
    }
    if 1 <= quantity <= 0x7B0 {
      StoreCoils(result, start, quantity, coils);
      r := 0;
    } else {
      r := -EINVAL;
    }
  }

  method StoreCoils(result: PduBuffer, start: word, quantity: word, coils: seq<byte>)
    requires result.Valid() && |coils| <= 0xF6 && 5 + |coils| <= result.data.Length
    modifies result`func, result`size, result.data
    ensures result.Valid() && result.Value() == Pdu(0x0F, PutWords([start, quantity]) + [|coils| as byte] + coils)
  {
    hide PutWords;
    StoreTwo(result, 0x0F, start, quantity);
    assert result.data[..4] == PutWords([start, quantity]);
    result.data[4] := |coils|;
    forall i | 0 <= i < |coils| {
      result.data[5 + i] := coils[i];
    }
    result.size := 5 + |coils|;
    assert result.data[..5 + |coils|] == result.data[..4] + [result.data[4]] + result.data[5..5 + |coils|];
  }

  // read_bits_t::response_data: as many bits as were requested and fit.
  method ResponseData(answer: Pdu, quantity: word, out: array<bool>)
    requires 1 + Octets(quantity) <= |answer.data|
    modifies out
    ensures var n := if quantity > out.Length then out.Length else quantity;
            out[..n] == Unpack(answer.data, 1, n) && forall i :: n <= i < out.Length ==> out[i] == old(out[i])
  {
    var sz := if quantity > out.Length then out.Length else quantity;
    var i := 0;
    while i < sz
      invariant 0 <= i <= sz
      invariant forall k :: 0 <= k < i ==> out[k] == BitAt(answer.data, 1, k)
      invariant forall k :: i <= k < out.Length ==> out[k] == old(out[k])
    {
      out[i] := AnswerBit(answer, i);
      i := i + 1;
    }
  }

  // ----- the handlers as functions

  // Functions 0x01 and 0x02, on the blocks their getter searches
  function ReadBits(blocks: seq<BitBlock>, func: byte, d: seq<byte>, txMax: byte): (r: Result)
    requires Storage(d) && AllValid(blocks)
    ensures r.coils == blocks
  {
    var start, quantity := Get16(d, 0), Get16(d, 2);
    if !(1 <= quantity <= 0x7D0) then Refuse(MBE_ILLEGAL_DATA_VALUE, blocks)
    else
      var k := Locate(blocks, start, quantity);
      if k.None? || blocks[k.value].read.Absent? then Refuse(MBE_ILLEGAL_DATA_ADDR, blocks)
      else if txMax < 1 + Octets(quantity) then Refuse(MBE_SLAVE_FAILURE, blocks)
      else
        var b := blocks[k.value];
        if b.read.code != 0 then Refuse(b.read.code, blocks)
        else Result(0, blocks, Pdu(func, [OctetCount(quantity)] + Pack(Slice(b, start - b.start, quantity))))
  }

  // Function 0x0F
  function WriteCoils(blocks: seq<BitBlock>, d: seq<byte>, dataSize: byte, txMax: byte): (r: Result)
    requires Storage(d) && AllValid(blocks)
    ensures AllValid(r.coils)
  {
    var start, quantity, byteCount := Get16(d, 0), Get16(d, 2), d[4];
    if !(1 <= quantity <= 0x7B0) || dataSize - 5 != byteCount then Refuse(MBE_ILLEGAL_DATA_VALUE, blocks)
    else
      var k := Locate(blocks, start, quantity);
      if k.None? || blocks[k.value].write.Absent? then Refuse(MBE_ILLEGAL_DATA_ADDR, blocks)
      else if txMax < 4 then Refuse(MBE_SLAVE_FAILURE, blocks)
      else
        var b := blocks[k.value];
        var after := Written(blocks, k.value, start - b.start, Unpack(d, 5, quantity));
        if b.write.code != 0 then Refuse(b.write.code, after)
        else Result(0, after, Pdu(0x0F, PutWords([start, quantity])))
  }

  // Function 0x05
  function WriteCoil(blocks: seq<BitBlock>, d: seq<byte>, txMax: byte): (r: Result)
    requires Storage(d) && AllValid(blocks)
    ensures AllValid(r.coils)
  {
    var addr, value := Get16(d, 0), Get16(d, 2);
    if value != 0x0000 && value != 0xFF00 then Refuse(MBE_ILLEGAL_DATA_VALUE, blocks)
    else
      var k := Locate(blocks, addr, 1);
      if k.None? || blocks[k.value].write.Absent? then Refuse(MBE_ILLEGAL_DATA_ADDR, blocks)
      else if txMax < 4 then Refuse(MBE_SLAVE_FAILURE, blocks)
      else
        var b := blocks[k.value];
        var after := Written(blocks, k.value, addr - b.start, [value == 0xFF00]);
        if b.write.code != 0 then Refuse(b.write.code, after)
        else Result(0, after, CoilPdu(addr, value))
  }

  // ----- the coils of a server and the handlers that work on them

  class CoilStore {
    var coils: Option<seq<BitBlock>>   // None: the server has no getter for them
    var inputs: Option<seq<BitBlock>>

    ghost predicate Valid()
      reads this
    {
      (coils.Some? ==> AllValid(coils.value)) && (inputs.Some? ==> AllValid(inputs.value))
    }

    // emb_srv_read_bits
    method SrvReadBits(rx: PduBuffer, tx: PduBuffer) returns (res: byte)
      requires Valid() && rx.Valid() && tx.Valid() && rx != tx && rx.data != tx.data
      requires rx.data.Length >= MAX_PDU_DATA_SIZE && tx.data.Length >= MAX_PDU_DATA_SIZE
      modifies tx, tx.data
      ensures Valid() && tx.Valid() && tx.maxSize == old(tx.maxSize)
      ensures var getter := if rx.func == 0x01 then coils else if rx.func == 0x02 then inputs else Some([]);
              var spec := ReadBits(if getter.None? then [] else getter.value, rx.func, rx.data[..], old(tx.maxSize));
              && res == (if getter.None? then NoGetter(spec.code) else spec.code)
              && (res == 0 ==> tx.Value() == spec.reply)
    {
      var start, quantity := Get16(rx.data[..], 0), Get16(rx.data[..], 2);
      if !(1 <= quantity <= 0x7D0) {
        return MBE_ILLEGAL_DATA_VALUE;
      }
      if rx.func == 0x01 {
        if coils.None? {
          return MBE_SLAVE_FAILURE;
        }
        res := ReadFrom(coils.value, rx.func, start, quantity, rx.data[..], tx);
      } else if rx.func == 0x02 {
        if inputs.None? {
          return MBE_SLAVE_FAILURE;
        }
        res := ReadFrom(inputs.value, rx.func, start, quantity, rx.data[..], tx);
      } else {
        res := ReadFrom([], rx.func, start, quantity, rx.data[..], tx);
      }
    }

    method ReadFrom(blocks: seq<BitBlock>, func: byte, start: word, quantity: word, ghost d: seq<byte>, tx: PduBuffer)
      returns (res: byte)
      requires AllValid(blocks) && tx.Valid() && tx.data.Length >= MAX_PDU_DATA_SIZE
      requires Storage(d) && start == Get16(d, 0) && quantity == Get16(d, 2) && 1 <= quantity <= 0x7D0
      modifies tx, tx.data
      ensures tx.Valid() && tx.maxSize == old(tx.maxSize)
      ensures var spec := ReadBits(blocks, func, d, old(tx.maxSize));
              res == spec.code && (res == 0 ==> tx.Value() == spec.reply)
    {
      hide Locate, Find, Pack, Slice;
      var k := Locate(blocks, start, quantity);
      if k.None? || blocks[k.value].read.Absent? {
        return MBE_ILLEGAL_DATA_ADDR;
      }
      var byteCount := quantity / 8;
      if quantity % 8 != 0 {
        byteCount := byteCount + 1;
      }
      tx.func := func;
      tx.size := 1 + byteCount;
      if tx.maxSize < tx.size {
        return MBE_SLAVE_FAILURE;
      }
      var b := blocks[k.value];
      res := b.read.code;
      if res == 0 {
        AnswerCoils(b, start - b.start, quantity, byteCount, tx);
      }
    }

    // The count of octets, and the coils behind it.
    method AnswerCoils(b: BitBlock, offset: nat, quantity: word, byteCount: byte, tx: PduBuffer)
      requires b.Valid() && offset + quantity <= b.size && quantity <= 0x7D0 && byteCount == OctetCount(quantity)
      requires tx.Valid() && tx.size == 1 + byteCount
      modifies tx.data
      ensures tx.Valid() && tx.Value() == Pdu(tx.func, [OctetCount(quantity)] + Pack(Slice(b, offset, quantity)))
    {
      hide Pack, Slice;
      tx.data[0] := byteCount;
      CallRead(b, offset, quantity, tx.data);
      assert tx.data[..tx.size] == [tx.data[0]] + tx.data[1..tx.size];
    }

    // The read callback of server_test.cpp:43-61, storing behind the count.
    method CallRead(b: BitBlock, offset: nat, quantity: nat, buf: array<byte>)
      requires b.Valid() && offset + quantity <= b.size && 1 + Octets(quantity) <= buf.Length
      modifies buf
      ensures buf[1..1 + Octets(quantity)] == Pack(Slice(b, offset, quantity))
      ensures buf[0] == old(buf[0])
    {
      var p := PackBits(b.cells[offset..offset + quantity]);
      forall i | 0 <= i < |p| {
        buf[1 + i] := p[i];
      }
    }

    // emb_srv_write_coils
    method SrvWriteCoils(rx: PduBuffer, tx: PduBuffer) returns (res: byte)
      requires Valid() && rx.Valid() && tx.Valid() && rx != tx && rx.data != tx.data
      requires rx.data.Length >= MAX_PDU_DATA_SIZE && tx.data.Length >= MAX_PDU_DATA_SIZE
      modifies this`coils, tx, tx.data
      ensures Valid() && tx.Valid() && tx.maxSize == old(tx.maxSize)
      ensures old(coils).None? ==>
                && coils.None?
                && res == NoGetter(WriteCoils([], rx.data[..], rx.size, old(tx.maxSize)).code)
      ensures old(coils).Some? ==>
                var spec := WriteCoils(old(coils).value, rx.data[..], rx.size, old(tx.maxSize));
                res == spec.code && coils == Some(spec.coils) && (res == 0 ==> tx.Value() == spec.reply)
    {
      hide Written, Unpack, PutWords, Find, Locate;
      var start, quantity := Get16(rx.data[..], 0), Get16(rx.data[..], 2);
      var byteCount := rx.data[4];
      if !(1 <= quantity <= 0x7B0) {
        return MBE_ILLEGAL_DATA_VALUE;
      }
      if rx.size - 5 != byteCount {
        return MBE_ILLEGAL_DATA_VALUE;
      }
      if coils.None? {
        NothingLocated<bool>(start, quantity);
        return MBE_SLAVE_FAILURE;
      }
      ghost var d := rx.data[..];
      var k := Locate(coils.value, start, quantity);
      if k.None? || coils.value[k.value].write.Absent? {
        return MBE_ILLEGAL_DATA_ADDR;
      }
      tx.func, tx.size := 0x0F, 4;
      if tx.maxSize < tx.size {
        return MBE_SLAVE_FAILURE;
      }
      res := WriteMany(k.value, start, quantity, rx, tx);
    }

    // The coils of the request, from octet 5 on.
    method WriteMany(k: nat, start: word, quantity: word, rx: PduBuffer, tx: PduBuffer) returns (res: byte)
      requires Valid() && coils.Some? && k < |coils.value| && coils.value[k].write.Answers?
      requires rx.data.Length >= MAX_PDU_DATA_SIZE && quantity <= 0x7B0
      requires rx.data != tx.data && tx.Valid() && tx.data.Length >= 4
      requires coils.value[k].start <= start && start + quantity <= coils.value[k].start + coils.value[k].size
      modifies this`coils, tx`func, tx`size, tx.data
      ensures Valid() && tx.Valid() && tx.Value() == Pdu(0x0F, PutWords([start, quantity]))
      ensures coils == Some(Written(old(coils).value, k, start - old(coils).value[k].start, Unpack(rx.data[..], 5, quantity)))
      ensures res == old(coils).value[k].write.code
    {
      hide Written, Unpack, PutWords;
      ghost var d := rx.data[..];
      var values := UnpackBits(rx.data[..], 5, quantity);
      res := WriteAt(k, 0x0F, start, quantity, values, tx);
      assert rx.data[..] == d;
    }

    // emb_srv_write_coil
    method SrvWriteCoil(rx: PduBuffer, tx: PduBuffer) returns (res: byte)
      requires Valid() && rx.Valid() && tx.Valid() && rx != tx && rx.data != tx.data
      requires rx.data.Length >= MAX_PDU_DATA_SIZE && tx.data.Length >= MAX_PDU_DATA_SIZE
      modifies this`coils, tx, tx.data
      ensures Valid() && tx.Valid() && tx.maxSize == old(tx.maxSize)
      ensures old(coils).None? ==>
                && coils.None?
                && res == NoGetter(WriteCoil([], rx.data[..], old(tx.maxSize)).code)
      ensures old(coils).Some? ==>
                var spec := WriteCoil(old(coils).value, rx.data[..], old(tx.maxSize));
                res == spec.code && coils == Some(spec.coils) && (res == 0 ==> tx.Value() == spec.reply)
    {
      hide Written, PutWords, Find, Locate;
      var addr, value := Get16(rx.data[..], 0), Get16(rx.data[..], 2);
      var coilValue := false;
      if value == 0xFF00 {
        coilValue := true;
      } else if value != 0x0000 {
        return MBE_ILLEGAL_DATA_VALUE;
      }
      if coils.None? {
        NothingLocated<bool>(addr, 1);
        return MBE_SLAVE_FAILURE;
      }
      var k := Locate(coils.value, addr, 1);
      if k.None? || coils.value[k.value].write.Absent? {
        return MBE_ILLEGAL_DATA_ADDR;
      }
      tx.func, tx.size := 0x05, 4;
      if tx.maxSize < tx.size {
        return MBE_SLAVE_FAILURE;
      }
      res := WriteAt(k.value, 0x05, addr, value, [coilValue], tx);
    }

    // The two words of the reply, and the write callback.
    method WriteAt(k: nat, func: byte, start: word, second: word, values: seq<bool>, tx: PduBuffer) returns (res: byte)
      requires Valid() && coils.Some? && k < |coils.value| && coils.value[k].write.Answers?
      requires tx.Valid() && tx.data.Length >= 4
      requires coils.value[k].start <= start && start + |values| <= coils.value[k].start + coils.value[k].size
      modifies this`coils, tx`func, tx`size, tx.data
      ensures Valid() && tx.Valid() && tx.Value() == Pdu(func, PutWords([start, second]))
      ensures coils == Some(Written(old(coils).value, k, start - old(coils).value[k].start, values))
      ensures res == old(coils).value[k].write.code
    {
      hide Written, PutWords;
      StoreTwo(tx, func, start, second);
      res := CallWrite(k, start - coils.value[k].start, values);
    }

    // The write callback of server_test.cpp:63-81
    method CallWrite(k: nat, offset: nat, values: seq<bool>) returns (res: byte)
      requires Valid() && coils.Some? && k < |coils.value| && coils.value[k].write.Answers?
      requires offset + |values| <= coils.value[k].size
      modifies this`coils
      ensures Valid() && coils == Some(Written(old(coils).value, k, offset, values))
      ensures res == old(coils).value[k].write.code
    {
      var b := coils.value[k];
      res := b.write.code;
      if res == 0 {
        coils := Some(coils.value[k := Overwrite(b, offset, values)]);
      }
    }
  }

  // ----- the coils are a map

  lemma ReadDecoded(discrete: bool, start: word, quantity: word, stale: seq<byte>)
    ensures var d := ReadBitsReq(discrete, start, quantity).data + stale;
            |d| >= 4 && Get16(d, 0) == start && Get16(d, 2) == quantity
  {
    TwoWords(start, quantity);
  }

  lemma ReadResult(blocks: seq<BitBlock>, discrete: bool, start: word, quantity: word, stale: seq<byte>, txMax: byte)
    requires Readable(blocks) && txMax >= 251 && 1 <= quantity <= 0x7D0
    requires Storage(ReadBitsReq(discrete, start, quantity).data + stale)
    ensures var k, req := Locate(blocks, start, quantity), ReadBitsReq(discrete, start, quantity);
            ReadBits(blocks, req.func, req.data + stale, txMax) ==
              if k.None? then Refuse(MBE_ILLEGAL_DATA_ADDR, blocks)
              else
                var values := Load(Abstract(blocks), start, quantity, false);
                Result(0, blocks, Pdu(req.func, [OctetCount(quantity)] + Pack(values)))
  {
    hide PutWords, Locate, Slice, Load, Abstract, Pack, ReadBitsReq, DisjointOrSame;
    ReadDecoded(discrete, start, quantity, stale);
    if Locate(blocks, start, quantity).Some? {
      SliceIsLoad(blocks, start, quantity, false);
    }
  }

  // What the handler reads from the octets of a write request.
  lemma WriteDecoded(start: word, bs: seq<bool>, stale: seq<byte>)
    requires |bs| <= 0x7B0
    ensures var d := WriteCoilsReq(start, bs).data + stale;
            && |WriteCoilsReq(start, bs).data| == 5 + Octets(|bs|)
            && Get16(d, 0) == start && Get16(d, 2) == |bs| && d[4] == Octets(|bs|)
            && Unpack(d, 5, |bs|) == bs
  {
    hide PutWords, Unpack, Pack;
    TwoWords(start, |bs|);
    UnpackPack(PutWords([start, |bs|]) + [OctetCount(|bs|)], bs, stale);
  }

  lemma WriteResult(blocks: seq<BitBlock>, start: word, bs: seq<bool>, stale: seq<byte>, txMax: byte)
    requires Registered(blocks) && txMax >= 251 && 1 <= |bs| <= 0x7B0
    requires Storage(WriteCoilsReq(start, bs).data + stale)
    ensures var k := Locate(blocks, start, |bs|);
            var req := WriteCoilsReq(start, bs);
            WriteCoils(blocks, req.data + stale, |req.data|, txMax) ==
              if k.None? then Refuse(MBE_ILLEGAL_DATA_ADDR, blocks)
              else Result(0, Written(blocks, k.value, start - blocks[k.value].start, bs),
                          Pdu(0x0F, PutWords([start, |bs|])))
  {
    hide PutWords, Locate, Written, Unpack, Pack, WriteCoilsReq, DisjointOrSame;
    WriteDecoded(start, bs, stale);
  }

  // What the client decodes from the answer to a read is what was packed.
  lemma DecodedBits(func: byte, values: seq<bool>)
    requires |values| <= 0x7D0
    ensures var answer := Pdu(func, [OctetCount(|values|)] + Pack(values));
            && Unpack(answer.data, 1, |values|) == values
            && forall i :: 0 <= i < |values| ==> AnswerBit(answer, i) == values[i]
  {
    var head := [OctetCount(|values|)];
    UnpackPack(head, values, []);
    assert head + Pack(values) + [] == head + Pack(values);
    var answer := Pdu(func, head + Pack(values));
    var us := Unpack(answer.data, 1, |values|);
    forall i | 0 <= i < |values| ensures AnswerBit(answer, i) == values[i] {
      assert us[i] == BitAt(answer.data, 1, i);
    }
  }

  // Reading coils or discrete inputs refines the map: the answer decodes to what the map holds, and has the size
  // the client reserved.
  lemma ReadRefines(blocks: seq<BitBlock>, discrete: bool, start: word, quantity: word, stale: seq<byte>, txMax: byte)
    requires Readable(blocks) && txMax >= 251 && 1 <= quantity <= 0x7D0
    requires Storage(ReadBitsReq(discrete, start, quantity).data + stale)
    ensures var req := ReadBitsReq(discrete, start, quantity);
            var r := ReadBits(blocks, req.func, req.data + stale, txMax);
            && r.code == (if Locate(blocks, start, quantity).None? then MBE_ILLEGAL_DATA_ADDR else 0)
            && (r.code == 0 ==>
                  && r.reply.func == req.func && |r.reply.data| == ReadAnswerSize(quantity)
                  && Unpack(r.reply.data, 1, quantity) == Load(Abstract(blocks), start, quantity, false))
  {
    hide PutWords, Locate, Load, Abstract, Pack, Unpack, ReadBits, DisjointOrSame;
    ReadResult(blocks, discrete, start, quantity, stale, txMax);
    if Locate(blocks, start, quantity).Some? {
      DecodedBits(if discrete then 0x02 else 0x01, Load(Abstract(blocks), start, quantity, false));
    }
  }

  // Writing refines the map: the addressed range takes the values, every other coil keeps its own.
  lemma WriteRefines(blocks: seq<BitBlock>, start: word, bs: seq<bool>, stale: seq<byte>, txMax: byte)
    requires Registered(blocks) && txMax >= 251 && 1 <= |bs| <= 0x7B0
    requires Storage(WriteCoilsReq(start, bs).data + stale)
    ensures var req := WriteCoilsReq(start, bs);
            var r := WriteCoils(blocks, req.data + stale, |req.data|, txMax);
            && Registered(r.coils) && SameRanges(blocks, r.coils)
            && if Locate(blocks, start, |bs|).None? then r.code == MBE_ILLEGAL_DATA_ADDR && r.coils == blocks
               else
                 && r.code == 0 && |r.reply.data| == WRITE_ANSWER_SIZE
                 && Abstract(r.coils) == Store(Abstract(blocks), start, bs)
  {
    hide PutWords, Locate, Written, Abstract, Store, WriteCoils;
    WriteResult(blocks, start, bs, stale, txMax);
    if Locate(blocks, start, |bs|).Some? {
      WrittenIsStore(blocks, start, bs);
    }
  }

  // The octets d start with a request to write one coil.
  predicate AsksCoil(d: seq<byte>, addr: word, value: bool) {
    Storage(d) && d[0] == Hi(addr) && d[1] == Lo(addr) && d[2] == (if value then 0xFF else 0) && d[3] == 0
  }

  lemma BuiltAsksCoil(addr: word, value: bool, stale: seq<byte>)
    requires Storage(WriteCoilReq(addr, value).data + stale)
    ensures AsksCoil(WriteCoilReq(addr, value).data + stale, addr, value)
  {
    hide PutWords;
    TwoWords(addr, CoilCode(value));
    assert Hi(CoilCode(value)) == (if value then 0xFF else 0) && Lo(CoilCode(value)) == 0;
  }

  // Writing one coil refines the map, and the reply repeats the request.
  lemma WriteOneRefines(blocks: seq<BitBlock>, d: seq<byte>, addr: word, value: bool, txMax: byte)
    requires Registered(blocks) && txMax >= 4 && AsksCoil(d, addr, value)
    ensures var r := WriteCoil(blocks, d, txMax);
            && Registered(r.coils) && SameRanges(blocks, r.coils)
            && if Locate(blocks, addr, 1).None? then r.code == MBE_ILLEGAL_DATA_ADDR && r.coils == blocks
               else
                 && Abstract(r.coils) == Store(Abstract(blocks), addr, [value])
                 && r.code == 0 && r.reply == WriteCoilReq(addr, value)
  {
    hide PutWords, Locate, Written, Abstract, Store, DisjointOrSame;
    if Locate(blocks, addr, 1).Some? {
      WrittenIsStore(blocks, addr, [value]);
    }
  }

  // A part of a range inside one block lies inside that block.
  lemma PartLocated(blocks: seq<BitBlock>, start: word, n: nat, a: word, q: nat)
    requires AllValid(blocks) && DisjointOrSame(blocks) && Locate(blocks, start, n).Some?
    requires start <= a && a + q <= start + n && q >= 1
    ensures Locate(blocks, a, q) == Locate(blocks, start, n)
  {
    LocatedFinds(blocks, start, n, a - start);
  }

  // After a write of bs, a read of any part of the range decodes to the bools written there,
  // whatever the distance between the two starting addresses.
  lemma RoundTrip(blocks: seq<BitBlock>, start: word, bs: seq<bool>, a: word, q: word,
                  wrStale: seq<byte>, rdStale: seq<byte>, txMax: byte)
    requires Registered(blocks) && txMax >= 251 && 1 <= |bs| <= 0x7B0 && 1 <= q <= 0x7D0
    requires Storage(WriteCoilsReq(start, bs).data + wrStale)
    requires Storage(ReadBitsReq(false, a, q).data + rdStale)
    requires Locate(blocks, start, |bs|).Some? && start <= a && a + q <= start + |bs|
    ensures var req := WriteCoilsReq(start, bs);
            var w := WriteCoils(blocks, req.data + wrStale, |req.data|, txMax);
            var r := ReadBits(w.coils, 0x01, ReadBitsReq(false, a, q).data + rdStale, txMax);
            && w.code == 0 && r.code == 0 && 1 + Octets(q) <= |r.reply.data|
            && forall i :: 0 <= i < q ==> AnswerBit(r.reply, i) == bs[a - start + i]
  {
    hide PutWords, Locate, Written, Abstract, Store, Load, WriteCoils, ReadBits, Pack;
    WriteRefines(blocks, start, bs, wrStale, txMax);
    var req := WriteCoilsReq(start, bs);
    var w := WriteCoils(blocks, req.data + wrStale, |req.data|, txMax);
    PartLocated(blocks, start, |bs|, a, q);
    SameRangesLocate(blocks, w.coils, a, q);
    ReadRefines(w.coils, false, a, q, rdStale, txMax);
    var r := ReadBits(w.coils, 0x01, ReadBitsReq(false, a, q).data + rdStale, txMax);
    forall i | 0 <= i < q ensures AnswerBit(r.reply, i) == bs[a - start + i] {
      assert AnswerBit(r.reply, i) == Unpack(r.reply.data, 1, q)[i];
      LoadStored(blocks, start, bs, a, q, i, false);
    }
  }

  // ----- requests whose run is shorter than their quantity

  // The coils after request p, with the octets `stale` behind it in the receive buffer.
  function CoilsAfter(blocks: seq<BitBlock>, p: seq<byte>, stale: seq<byte>, txMax: byte): seq<BitBlock>
    requires AllValid(blocks) && |p| <= MAX_PDU_DATA_SIZE && Storage(p + stale)
  {
    WriteCoils(blocks, p + stale, |p|, txMax).coils
  }

  // The request alone decides what is written.
  ghost predicate Determined(blocks: seq<BitBlock>, p: seq<byte>, txMax: byte)
    requires AllValid(blocks) && |p| <= MAX_PDU_DATA_SIZE
  {
    forall s: seq<byte>, t: seq<byte> :: Storage(p + s) && Storage(p + t) ==>
      CoilsAfter(blocks, p, s, txMax) == CoilsAfter(blocks, p, t, txMax)
  }

  // A request that passes every check of the handler.
  predicate Granted(blocks: seq<BitBlock>, p: seq<byte>, txMax: byte)
    requires AllValid(blocks)
  {
    && 5 <= |p| <= MAX_PDU_DATA_SIZE && p[4] as int == |p| - 5 && 1 <= Get16(p, 2) <= 0x7B0 && txMax >= 4
    && var k := Locate(blocks, Get16(p, 0), Get16(p, 2));
       k.Some? && blocks[k.value].write == Answers(0)
  }

  // Those are the requests that are confirmed.
  lemma GrantedIff(blocks: seq<BitBlock>, p: seq<byte>, stale: seq<byte>, txMax: byte)
    requires AllValid(blocks) && 5 <= |p| <= MAX_PDU_DATA_SIZE && Storage(p + stale)
    ensures Granted(blocks, p, txMax) <==> WriteCoils(blocks, p + stale, |p|, txMax).code == 0
  {
    hide Locate, Written, Unpack, PutWords;
    var d := p + stale;
    assert Get16(d, 0) == Get16(p, 0) && Get16(d, 2) == Get16(p, 2) && d[4] == p[4];
  }

  lemma GrantedWrites(blocks: seq<BitBlock>, p: seq<byte>, stale: seq<byte>, txMax: byte)
    requires AllValid(blocks) && Granted(blocks, p, txMax) && Storage(p + stale)
    ensures var start, quantity := Get16(p, 0), Get16(p, 2);
            var k := Locate(blocks, start, quantity).value;
            CoilsAfter(blocks, p, stale, txMax) == Written(blocks, k, start - blocks[k].start, Unpack(p + stale, 5, quantity))
  {
    hide Locate, Written, Unpack, PutWords;
    var d := p + stale;
    assert Get16(d, 0) == Get16(p, 0) && Get16(d, 2) == Get16(p, 2) && d[4] == p[4];
  }

  // The handler does not compare the byte count with the quantity: what is written depends on the request
  // alone exactly when the octets it brings are enough for the coils it names.
  lemma DeterminedIff(blocks: seq<BitBlock>, p: seq<byte>, txMax: byte)
    requires AllValid(blocks) && Granted(blocks, p, txMax)
    ensures Determined(blocks, p, txMax) <==> Get16(p, 2) as int <= 8 * p[4] as int
  {
    hide Locate, Written, Unpack, CoilsAfter;
    if Get16(p, 2) as int <= 8 * p[4] as int {
      forall s: seq<byte>, t: seq<byte> | Storage(p + s) && Storage(p + t)
        ensures CoilsAfter(blocks, p, s, txMax) == CoilsAfter(blocks, p, t, txMax)
      {
        GrantedWrites(blocks, p, s, txMax);
        GrantedWrites(blocks, p, t, txMax);
        SameBits(p, s, t, Get16(p, 2));
      }
    } else {
      var zeros := seq<byte>(MAX_PDU_DATA_SIZE, i => 0);
      var ones := seq<byte>(MAX_PDU_DATA_SIZE, i => 1);
      GrantedWrites(blocks, p, zeros, txMax);
      GrantedWrites(blocks, p, ones, txMax);
      OtherBit(p, zeros, ones, Get16(p, 2));
      var k := Locate(blocks, Get16(p, 0), Get16(p, 2)).value;
      WrittenDiffers(blocks, k, Get16(p, 0) - blocks[k].start,
                     Unpack(p + zeros, 5, Get16(p, 2)), Unpack(p + ones, 5, Get16(p, 2)));
    }
  }

  lemma SameBits(p: seq<byte>, s: seq<byte>, t: seq<byte>, n: nat)
    requires 5 + Octets(n) <= |p|
    ensures Unpack(p + s, 5, n) == Unpack(p + t, 5, n)
  {
    var x, y := Unpack(p + s, 5, n), Unpack(p + t, 5, n);
    forall i | 0 <= i < n ensures x[i] == y[i] {
      assert (p + s)[5 + i / 8] == p[5 + i / 8] == (p + t)[5 + i / 8];
    }
  }

  lemma OtherBit(p: seq<byte>, s: seq<byte>, t: seq<byte>, n: nat)
    requires 5 <= |p| < 5 + Octets(n) <= |p| + |s| && |t| == |s| && s[0] == 0 && t[0] == 1
    ensures Unpack(p + s, 5, n) != Unpack(p + t, 5, n)
  {
    var i := 8 * (|p| - 5);
    var x, y := Unpack(p + s, 5, n), Unpack(p + t, 5, n);
    assert (p + s)[5 + i / 8] == s[0] && (p + t)[5 + i / 8] == t[0];
    assert !x[i] && y[i];
  }

  // Nine coils named, one octet brought: the ninth is whatever the buffer held.
  lemma ShortRun(blocks: seq<BitBlock>, start: word, octet: byte)
    requires AllValid(blocks)
    requires var k := Locate(blocks, start, 9); k.Some? && blocks[k.value].write == Answers(0)
    ensures !Determined(blocks, [Hi(start), Lo(start), 0, 9, 1, octet], 4)
  {
    hide Locate, Determined;
    var p := [Hi(start), Lo(start), 0, 9, 1, octet];
    assert Get16(p, 0) == start && Get16(p, 2) == 9;
    DeterminedIff(blocks, p, 4);
  }
}
