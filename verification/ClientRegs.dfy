/** The client's register functions: builders and accessors of emodbus/client/read_regs.c,
    write_single_reg.c, write_multi_regs.c, write_mask_reg.c and read_write_regs.c. */
module ClientRegs {
  import opened Words
  import opened Pdus
  import opened WordBuffers

  // ----- the requests

  function ReadReq(inputs: bool, start: word, quantity: word): Pdu {
    Pdu(if inputs then 0x04 else 0x03, PutWords([start, quantity]))
  }

  function WriteRegReq(addr: word, value: word): Pdu { Pdu(0x06, PutWords([addr, value])) }

  function WriteRegsReq(start: word, values: seq<word>): Pdu
    requires |values| <= 123
  {
    Pdu(0x10, PutWords([start, |values|]) + [ByteCount(|values|)] + PutWords(values))
  }

  function MaskReq(addr: word, andMask: word, orMask: word): Pdu {
    Pdu(0x16, PutWords([addr, andMask, orMask]))
  }

  function ReadWriteReq(rdStart: word, rdQuantity: word, wrStart: word, values: seq<word>): Pdu
    requires |values| <= 121
  {
    Pdu(0x17, PutWords([rdStart, rdQuantity, wrStart, |values|]) + [ByteCount(|values|)] + PutWords(values))
  }

  // ----- the sizes the client reserves for answers (the calc_answer_data_size functions)

  function ReadAnswerSize(quantity: word): int {
    if 1 <= quantity <= 125 then 1 + quantity * 2 else -EINVAL
  }

  const WRITE_REG_ANSWER_SIZE := 4
  const WRITE_REGS_ANSWER_SIZE := 4
  const MASK_ANSWER_SIZE := 6

  function ReadWriteAnswerSize(rdQuantity: word): int { 1 + rdQuantity * 2 }

  // ----- builders

  // A request that consists of words alone.
  method BuildWords(result: PduBuffer, func: byte, words: seq<word>)
    requires result.Valid() && 2 * |words| <= result.data.Length && |words| <= 3
    modifies result`func, result`size, result.data
    ensures result.Valid() && result.Value() == Pdu(func, PutWords(words))
  {
    StoreWords(result.data, 0, words);
    result.func, result.size := func, 2 * |words|;
  }

  // A request of words, a byte count and register values.
  method BuildWithValues(result: PduBuffer, func: byte, words: seq<word>, values: seq<word>)
    requires result.Valid() && 2 * |words| + 1 + 2 * |values| <= result.data.Length
    requires |words| <= 4 && |values| <= 123
    modifies result`func, result`size, result.data
    ensures result.Valid()
    ensures result.Value() == Pdu(func, PutWords(words) + [ByteCount(|values|)] + PutWords(values))
  {
    var n, m := 2 * |words|, 2 * |values|;
    StoreWords(result.data, 0, words);
    result.data[n] := m;
    assert result.data[0..n] == PutWords(words);
    StoreWords(result.data, n + 1, values);
    assert result.data[0..n] == PutWords(words);
    result.func, result.size := func, n + 1 + m;
    Joined(result.data[..], 0, n, n + 1);
    Joined(result.data[..], 0, n + 1, n + 1 + m);
    assert result.data[n..n + 1] == [result.data[n]];
  }

  // emb_read_regs_make_req
  method ReadRegsMakeReq(result: PduBuffer, inputs: bool, start: word, quantity: word) returns (r: int)
    requires result.Valid()
    modifies result`func, result`size, result.data
    ensures result.Valid()
    ensures r == if result.maxSize < 4 then -ENOMEM else if 1 <= quantity <= 125 then 0 else -EINVAL
    ensures r == 0 ==> result.Value() == ReadReq(inputs, start, quantity)
    ensures r != 0 ==> result.Value() == old(result.Value())
  {
    if result.maxSize < 4 {
      return -ENOMEM;
    }
    if 1 <= quantity <= 125 {
      BuildWords(result, if inputs then 4 else 3, [start, quantity]);
      r := 0;
    } else {
      r := -EINVAL;
    }
  }

  // emb_write_reg_make_req
  method WriteRegMakeReq(result: PduBuffer, addr: word, value: word) returns (r: int)
    requires result.Valid()
    modifies result`func, result`size, result.data
    ensures result.Valid()
    ensures r == if result.maxSize < 4 then -ENOMEM else 0
    ensures r == 0 ==> result.Value() == WriteRegReq(addr, value)
    ensures r != 0 ==> result.Value() == old(result.Value())
  {
    if result.maxSize < 4 {
      return -ENOMEM;
    }
    BuildWords(result, 0x06, [addr, value]);
    r := 0;
  }

  // emb_write_regs_make_req
  method WriteRegsMakeReq(result: PduBuffer, start: word, quantity: word, values: seq<word>) returns (r: int)
    requires result.Valid() && quantity <= |values|
    modifies result`func, result`size, result.data
    ensures result.Valid()
    ensures r == if result.maxSize < 5 + quantity * 2 then -ENOMEM else if 1 <= quantity <= 123 then 0 else -EINVAL
    ensures r == 0 ==> result.Value() == WriteRegsReq(start, values[..quantity])
    ensures r != 0 ==> result.Value() == old(result.Value())
  {
    if result.maxSize < 5 + quantity * 2 {
      return -ENOMEM;
    }
    if 1 <= quantity <= 123 {
      BuildWithValues(result, 0x10, [start, quantity], values[..quantity]);
      r := 0;
    } else {
      r := -EINVAL;
    }
  }

  // emb_write_mask_reg_make_req
  method MaskRegMakeReq(result: PduBuffer, addr: word, andMask: word, orMask: word) returns (r: int)
    requires result.Valid()
    modifies result`func, result`size, result.data
    ensures result.Valid()
    ensures r == if result.maxSize < 6 then -ENOMEM else 0
    ensures r == 0 ==> result.Value() == MaskReq(addr, andMask, orMask)
    ensures r != 0 ==> result.Value() == old(result.Value())
  {
    if result.maxSize < 6 {
      return -ENOMEM;
    }
    BuildWords(result, 0x16, [addr, andMask, orMask]);
    r := 0;
  }

  // emb_rdwr_regs_make_req; a null result or data pointer is None
  method ReadWriteMakeReq(result: PduBuffer?, rdStart: word, rdQuantity: word,
                          wrStart: word, wrQuantity: word, values: Option<seq<word>>) returns (r: int)
    requires result != null ==> result.Valid()
    requires values.Some? ==> wrQuantity <= |values.value|
    modifies if result == null then {} else {result, result.data}
    ensures result != null ==> result.Valid() && result.maxSize == old(result.maxSize)
    ensures r == if result == null || values.None? then -EINVAL
                 else if result.maxSize < 9 + wrQuantity * 2 then -ENOMEM
                 else if 1 <= rdQuantity <= 0x7D && 1 <= wrQuantity <= 0x79 then 0 else -EINVAL
    ensures r == 0 ==>
              result.Value() == ReadWriteReq(rdStart, rdQuantity, wrStart, values.value[..wrQuantity])
    ensures r != 0 && result != null ==> result.Value() == old(result.Value())
  {
    if result == null || values.None? {
      return -EINVAL;
    }
    if result.maxSize < 9 + wrQuantity * 2 {
      return -ENOMEM;
    }
    if !(1 <= rdQuantity <= 0x7D) {
      return -EINVAL;
    }
    if !(1 <= wrQuantity <= 0x79) {
      return -EINVAL;
    }
    BuildWithValues(result, 0x17, [rdStart, rdQuantity, wrStart, wrQuantity], values.value[..wrQuantity]);
    r := 0;
  }

  // ----- accessors

  // emb_read_regs_get_reg and emb_rdwr_regs_get_answ_reg
  function AnswerReg(answer: Pdu, offset: nat): (r: word)
    requires 1 + 2 * offset + 2 <= |answer.data|
    ensures r == Get16(answer.data, 1 + 2 * offset)
  {
    Swapped16(answer.data, 1 + 2 * offset)
  }

  // emb_read_regs_get_regs_n and emb_rdwr_regs_get_answ_regs_n
  function AnswerCount(answer: Pdu): nat
    requires answer.data != []
  {
    answer.data[0] / 2
  }

  // All the registers of an answer.
  function AnswerRegs(answer: Pdu): seq<word>
    requires answer.data != [] && 1 + 2 * AnswerCount(answer) <= |answer.data|
  {
    GetWords(answer.data, 1, AnswerCount(answer))
  }

  // emb_read_regs_get_regs and emb_rdwr_regs_get_answ_regs
  method GetRegs(answer: Pdu, offset: nat, n: nat, out: array<word>)
    requires 1 + 2 * (offset + n) <= |answer.data| && n <= out.Length
    modifies out
    ensures out[..n] == GetWords(answer.data, 1 + 2 * offset, n)
    ensures forall i :: n <= i < out.Length ==> out[i] == old(out[i])
  {
    var i := 0;
    while i < n
      invariant 0 <= i <= n
      invariant forall k :: 0 <= k < i ==> out[k] == Get16(answer.data, 1 + 2 * (offset + k))
      invariant forall k :: i <= k < out.Length ==> out[k] == old(out[k])
    {
      out[i] := AnswerReg(answer, offset + i);
      i := i + 1;
    }
  }

  // What the client reads from an answer of a byte count and registers are those registers.
  lemma AnswerRegsInverse(func: byte, values: seq<word>)
    requires |values| <= 125
    ensures var answer := Pdu(func, [ByteCount(|values|)] + PutWords(values));
            && AnswerCount(answer) == |values| && |answer.data| == 1 + 2 * |values|
            && AnswerRegs(answer) == values
            && forall k :: 0 <= k < |values| ==> AnswerReg(answer, k) == values[k]
  {
    var answer := Pdu(func, [ByteCount(|values|)] + PutWords(values));
    PutGetWords([ByteCount(|values|)], values, []);
    assert [ByteCount(|values|)] + PutWords(values) + [] == answer.data;
    assert AnswerRegs(answer) == values;
    forall k | 0 <= k < |values| ensures AnswerReg(answer, k) == values[k] {
      assert AnswerRegs(answer)[k] == Get16(answer.data, 1 + 2 * k);
    }
  }
}
