/** The register functions refine direct access to an address-to-word map.

    The map is what tests/sync_client_test.cpp:785-828 spot-checks: a read returns what the latest writes
    left at each address.  EndToEnd adds the way there and back. */
module RegisterMap {
  import opened Words
  import opened Pdus
  import opened Registry
  import opened Cells
  import opened ServerRegs
  import opened MaskBits
  import ClientRegs

  type Memory = map<int, word>

  // ----- requests on the map

  datatype Request =
    | Read(start: word, quantity: word)
    | Write(addr: word, value: word)
    | WriteMany(start: word, values: seq<word>)
    | Mask(addr: word, andMask: word, orMask: word)
    | Exchange(rdStart: word, rdQuantity: word, wrStart: word, values: seq<word>)

  // The quantities the client's builders accept.
  predicate Buildable(r: Request) {
    match r
    case Read(_, q) => 1 <= q <= 125
    case WriteMany(_, vs) => 1 <= |vs| <= 123
    case Exchange(_, q, _, vs) => 1 <= q <= 125 && 1 <= |vs| <= 121
    case _ => true
  }

  function Build(r: Request): Pdu
    requires Buildable(r)
  {
    match r
    case Read(s, q) => ClientRegs.ReadReq(false, s, q)
    case Write(a, v) => ClientRegs.WriteRegReq(a, v)
    case WriteMany(s, vs) => ClientRegs.WriteRegsReq(s, vs)
    case Mask(a, am, om) => ClientRegs.MaskReq(a, am, om)
    case Exchange(rs, rq, ws, vs) => ClientRegs.ReadWriteReq(rs, rq, ws, vs)
  }

  // What the client gets to know: registers read, a confirmation, or an error number.
  datatype Answer = Registers(values: seq<word>) | Confirmed | Refused(errno: int)

  // The request carried out on the map; the blocks only say which ranges lie inside one block.
  function Plain(blocks: seq<RegBlock>, m: Memory, r: Request): (Memory, Answer)
    requires AllValid(blocks)
  {
    var refused := (m, Refused(-1502));
    match r
    case Read(s, q) =>
      if Locate(blocks, s, q).None? then refused else (m, Registers(Load(m, s, q, 0)))
    case Write(a, v) =>
      if Locate(blocks, a, 1).None? then refused else (Store(m, a, [v]), Confirmed)
    case WriteMany(s, vs) =>
      if Locate(blocks, s, |vs|).None? then refused else (Store(m, s, vs), Confirmed)
    case Mask(a, am, om) =>
      if Locate(blocks, a, 1).None? then refused else (Store(m, a, [Masked(At(m, a, 0), am, om)]), Confirmed)
    case Exchange(rs, rq, ws, vs) =>
      if Locate(blocks, ws, |vs|).None? || Locate(blocks, rs, rq).None? then refused
      else (Store(m, ws, vs), Registers(Load(Store(m, ws, vs), rs, rq, 0)))
  }

  // ----- the handlers

  // The handler the server registers for the request's function (server_test.cpp:244-254).
  function Handle(blocks: seq<RegBlock>, func: byte, d: seq<byte>, txMax: byte): (r: Result)
    requires Storage(d) && AllValid(blocks)
    ensures AllValid(r.holdings)
  {
    if func == 0x06 then WriteReg(blocks, d, txMax)
    else if func == 0x10 then WriteRegs(blocks, d, txMax)
    else if func == 0x16 then MaskReg(blocks, d, txMax)
    else if func == 0x17 then ReadWriteRegs(blocks, d, txMax)
    else ReadRegs(blocks, func, d, txMax)
  }

  // The answer the client reads from the outcome of a handler.
  function Interpret(r: Request, code: byte, reply: Pdu): Answer {
    if code != 0 then Refused(-(1500 + code))
    else if (r.Read? || r.Exchange?) && reply.data != [] && 1 + 2 * ClientRegs.AnswerCount(reply) <= |reply.data|
      then Registers(ClientRegs.AnswerRegs(reply))
    else Confirmed
  }

  // What a request buffer holds, seen through the handlers' accessors.
  lemma CountInPlace(p: seq<byte>, count: byte, v: seq<byte>, stale: seq<byte>)
    ensures (p + [count] + v + stale)[|p|] == count
    ensures p + [count] + v + stale == p + ([count] + v + stale)
  {
  }

  // ----- refinement

  // The request is in the buffer, in front of stale octets, and the reply buffer is large enough.
  ghost predicate Ready(blocks: seq<RegBlock>, r: Request, stale: seq<byte>, txMax: byte) {
    && Registered(blocks) && Buildable(r) && Storage(Build(r).data + stale) && txMax >= 251
  }

  // The size of the response PDU the client reserves.
  function AnswerSize(r: Request): int {
    match r
    case Read(_, q) => ClientRegs.ReadAnswerSize(q)
    case Write(_, _) => ClientRegs.WRITE_REG_ANSWER_SIZE
    case WriteMany(_, _) => ClientRegs.WRITE_REGS_ANSWER_SIZE
    case Mask(_, _, _) => ClientRegs.MASK_ANSWER_SIZE
    case Exchange(_, q, _, _) => ClientRegs.ReadWriteAnswerSize(q)
  }

  // What a handler did is what the map does, and the reply has exactly the size the client reserved.
  ghost predicate Refines(blocks: seq<RegBlock>, r: Request, res: Result)
    requires Registered(blocks) && Buildable(r)
  {
    var (m, answer) := Plain(blocks, Abstract(blocks), r);
    && Registered(res.holdings) && SameRanges(blocks, res.holdings)
    && Abstract(res.holdings) == m && Interpret(r, res.code, res.reply) == answer
    && (res.code == 0 ==> res.reply.func == Build(r).func && |res.reply.data| == AnswerSize(r))
    && (res.code != 0 ==> res.holdings == blocks && res.code == MBE_ILLEGAL_DATA_ADDR)
  }

  lemma ReadResult(blocks: seq<RegBlock>, inputs: bool, start: word, quantity: word, stale: seq<byte>, txMax: byte)
    requires Readable(blocks) && txMax >= 251 && 1 <= quantity <= 125
    requires Storage(ClientRegs.ReadReq(inputs, start, quantity).data + stale)
    ensures var k, req := Locate(blocks, start, quantity), ClientRegs.ReadReq(inputs, start, quantity);
            ReadRegs(blocks, req.func, req.data + stale, txMax) ==
              if k.None? then ServerRegs.Refuse(MBE_ILLEGAL_DATA_ADDR, blocks)
              else
                var b := blocks[k.value];
                Result(0, blocks, Pdu(req.func, [ByteCount(quantity)] + PutWords(Slice(b, start - b.start, quantity))))
  {
    hide PutWords, Find, Slice, DisjointOrSame;
    WordInPlace([start, quantity], stale, 0);
    WordInPlace([start, quantity], stale, 1);
  }

  // Both read functions, on blocks that need not be writable: the answer decodes to what the map holds and has the
  // size the client reserved, or the request is refused.
  lemma ReadsTheMap(blocks: seq<RegBlock>, inputs: bool, start: word, quantity: word, stale: seq<byte>, txMax: byte)
    requires Readable(blocks) && txMax >= 251 && 1 <= quantity <= 125
    requires Storage(ClientRegs.ReadReq(inputs, start, quantity).data + stale)
    ensures var req := ClientRegs.ReadReq(inputs, start, quantity);
            var r := ReadRegs(blocks, req.func, req.data + stale, txMax);
            && r.code == (if Locate(blocks, start, quantity).None? then MBE_ILLEGAL_DATA_ADDR else 0)
            && (r.code == 0 ==>
                  && r.reply.func == req.func && |r.reply.data| == ClientRegs.ReadAnswerSize(quantity)
                  && ClientRegs.AnswerCount(r.reply) == quantity as int
                  && ClientRegs.AnswerRegs(r.reply) == Load(Abstract(blocks), start, quantity, 0))
  {
    hide PutWords, Locate, Load, Abstract, Slice, GetWords, ReadRegs, DisjointOrSame;
    ReadResult(blocks, inputs, start, quantity, stale, txMax);
    if Locate(blocks, start, quantity).Some? {
      SliceIsLoad(blocks, start, quantity, 0);
      ClientRegs.AnswerRegsInverse(if inputs then 0x04 else 0x03, Load(Abstract(blocks), start, quantity, 0));
    }
  }

  lemma ReadRefines(blocks: seq<RegBlock>, r: Request, stale: seq<byte>, txMax: byte)
    requires Ready(blocks, r, stale, txMax) && r.Read?
    ensures Refines(blocks, r, ReadRegs(blocks, 0x03, Build(r).data + stale, txMax))
  {
    hide PutWords, Locate, Load, Abstract, Slice, GetWords, Readable, ReadRegs;
    RegisteredParts(blocks);
    ReadResult(blocks, false, r.start, r.quantity, stale, txMax);
    if Locate(blocks, r.start, r.quantity).Some? {
      SliceIsLoad(blocks, r.start, r.quantity, 0);
      ClientRegs.AnswerRegsInverse(0x03, Load(Abstract(blocks), r.start, r.quantity, 0));
    }
  }

  lemma RegisteredParts(blocks: seq<RegBlock>)
    requires Registered(blocks)
    ensures Readable(blocks) && AllValid(blocks) && DisjointOrSame(blocks) && SameRanges(blocks, blocks)
  {
  }

  lemma WriteResult(blocks: seq<RegBlock>, addr: word, value: word, stale: seq<byte>, txMax: byte)
    requires Registered(blocks) && txMax >= 251
    requires Storage(ClientRegs.WriteRegReq(addr, value).data + stale)
    ensures var k := Locate(blocks, addr, 1);
            var d := ClientRegs.WriteRegReq(addr, value).data + stale;
            WriteReg(blocks, d, txMax) ==
              if k.None? then ServerRegs.Refuse(MBE_ILLEGAL_DATA_ADDR, blocks)
              else Result(0, Written(blocks, k.value, addr - blocks[k.value].start, [value]),
                          Pdu(0x06, PutWords([addr, value])))
  {
    hide PutWords, Locate, Written, DisjointOrSame;
    WordInPlace([addr, value], stale, 0);
    WordInPlace([addr, value], stale, 1);
  }

  lemma WriteRefines(blocks: seq<RegBlock>, r: Request, stale: seq<byte>, txMax: byte)
    requires Ready(blocks, r, stale, txMax) && r.Write?
    ensures Refines(blocks, r, WriteReg(blocks, Build(r).data + stale, txMax))
  {
    hide PutWords, Locate, Written, Store, Abstract, Registered, WriteReg;
    WriteResult(blocks, r.addr, r.value, stale, txMax);
    RegisteredParts(blocks);
    if Locate(blocks, r.addr, 1).Some? {
      WrittenIsStore(blocks, r.addr, [r.value]);
    }
  }

  lemma WriteManyResult(blocks: seq<RegBlock>, start: word, values: seq<word>, stale: seq<byte>, txMax: byte)
    requires Registered(blocks) && txMax >= 251 && 1 <= |values| <= 123
    requires Storage(ClientRegs.WriteRegsReq(start, values).data + stale)
    ensures var k := Locate(blocks, start, |values|);
            var d := ClientRegs.WriteRegsReq(start, values).data + stale;
            WriteRegs(blocks, d, txMax) ==
              if k.None? then ServerRegs.Refuse(MBE_ILLEGAL_DATA_ADDR, blocks)
              else Result(0, Written(blocks, k.value, start - blocks[k.value].start, values),
                          Pdu(0x10, PutWords([start, |values|])))
  {
    hide PutWords, GetWords, Locate, Written, DisjointOrSame;
    var ws := [start, |values|];
    var rest := [ByteCount(|values|)] + PutWords(values) + stale;
    CountInPlace(PutWords(ws), ByteCount(|values|), PutWords(values), stale);
    PutGetWords(PutWords(ws) + [ByteCount(|values|)], values, stale);
    WordInPlace(ws, rest, 0);
    WordInPlace(ws, rest, 1);
  }

  lemma WriteManyRefines(blocks: seq<RegBlock>, r: Request, stale: seq<byte>, txMax: byte)
    requires Ready(blocks, r, stale, txMax) && r.WriteMany?
    ensures Refines(blocks, r, WriteRegs(blocks, Build(r).data + stale, txMax))
  {
    hide PutWords, Locate, Written, Store, Abstract, Registered, WriteRegs;
    WriteManyResult(blocks, r.start, r.values, stale, txMax);
    RegisteredParts(blocks);
    if Locate(blocks, r.start, |r.values|).Some? {
      WrittenIsStore(blocks, r.start, r.values);
    }
  }

  lemma MaskResult(blocks: seq<RegBlock>, addr: word, andMask: word, orMask: word, stale: seq<byte>, txMax: byte)
    requires Registered(blocks) && txMax >= 251
    requires Storage(ClientRegs.MaskReq(addr, andMask, orMask).data + stale)
    ensures var k := Locate(blocks, addr, 1);
            var d := ClientRegs.MaskReq(addr, andMask, orMask).data + stale;
            MaskReg(blocks, d, txMax) ==
              if k.None? then ServerRegs.Refuse(MBE_ILLEGAL_DATA_ADDR, blocks)
              else
                var b := blocks[k.value];
                Result(0, Written(blocks, k.value, addr - b.start, [Masked(b.cells[addr - b.start], andMask, orMask)]),
                       Pdu(0x16, PutWords([addr, andMask, orMask])))
  {
    hide Masked, PutWords, Locate, Written, DisjointOrSame;
    var ws := [addr, andMask, orMask];
    WordInPlace(ws, stale, 0);
    WordInPlace(ws, stale, 1);
    WordInPlace(ws, stale, 2);
  }

  lemma MaskRefines(blocks: seq<RegBlock>, r: Request, stale: seq<byte>, txMax: byte)
    requires Ready(blocks, r, stale, txMax) && r.Mask?
    ensures Refines(blocks, r, MaskReg(blocks, Build(r).data + stale, txMax))
  {
    hide Masked, PutWords, Locate, Written, Store, Abstract, Registered, MaskReg;
    MaskResult(blocks, r.addr, r.andMask, r.orMask, stale, txMax);
    RegisteredParts(blocks);
    var k := Locate(blocks, r.addr, 1);
    if k.Some? {
      var b := blocks[k.value];
      SliceIsLoad(blocks, r.addr, 1, 0);
      assert b.cells[r.addr - b.start] == Slice(b, r.addr - b.start, 1)[0];
      assert Load(Abstract(blocks), r.addr, 1, 0)[0] == At(Abstract(blocks), r.addr, 0);
      WrittenIsStore(blocks, r.addr, [Masked(b.cells[r.addr - b.start], r.andMask, r.orMask)]);
    }
  }

  lemma ExchangeResult(blocks: seq<RegBlock>, rdStart: word, rdQuantity: word, wrStart: word, values: seq<word>,
                       stale: seq<byte>, txMax: byte)
    requires Registered(blocks) && txMax >= 251 && 1 <= rdQuantity <= 125 && 1 <= |values| <= 121
    requires Storage(ClientRegs.ReadWriteReq(rdStart, rdQuantity, wrStart, values).data + stale)
    ensures var w, k := Locate(blocks, wrStart, |values|), Locate(blocks, rdStart, rdQuantity);
            var d := ClientRegs.ReadWriteReq(rdStart, rdQuantity, wrStart, values).data + stale;
            ReadWriteRegs(blocks, d, txMax) ==
              if w.None? || k.None? then ServerRegs.Refuse(MBE_ILLEGAL_DATA_ADDR, blocks)
              else
                var after := Written(blocks, w.value, wrStart - blocks[w.value].start, values);
                var b := after[k.value];
                Result(0, after, Pdu(0x17, [ByteCount(rdQuantity)] + PutWords(Slice(b, rdStart - b.start, rdQuantity))))
  {
    hide PutWords, GetWords, Locate, Written, DisjointOrSame, Slice;
    var ws := [rdStart, rdQuantity, wrStart, |values|];
    var rest := [ByteCount(|values|)] + PutWords(values) + stale;
    CountInPlace(PutWords(ws), ByteCount(|values|), PutWords(values), stale);
    PutGetWords(PutWords(ws) + [ByteCount(|values|)], values, stale);
    WordInPlace(ws, rest, 0);
    WordInPlace(ws, rest, 1);
    WordInPlace(ws, rest, 2);
    WordInPlace(ws, rest, 3);
  }

  lemma ExchangeRefines(blocks: seq<RegBlock>, r: Request, stale: seq<byte>, txMax: byte)
    requires Ready(blocks, r, stale, txMax) && r.Exchange?
    ensures Refines(blocks, r, ReadWriteRegs(blocks, Build(r).data + stale, txMax))
  {
    hide PutWords, GetWords, Locate, Written, Store, Abstract, Registered, Load, Slice, ReadWriteRegs;
    ExchangeResult(blocks, r.rdStart, r.rdQuantity, r.wrStart, r.values, stale, txMax);
    RegisteredParts(blocks);
    var w := Locate(blocks, r.wrStart, |r.values|);
    if w.Some? && Locate(blocks, r.rdStart, r.rdQuantity).Some? {
      WrittenIsStore(blocks, r.wrStart, r.values);
      var after := Written(blocks, w.value, r.wrStart - blocks[w.value].start, r.values);
      RegisteredParts(after);
      SameRangesLocate(blocks, after, r.rdStart, r.rdQuantity);
      SliceIsLoad(after, r.rdStart, r.rdQuantity, 0);
      ClientRegs.AnswerRegsInverse(0x17, Load(Abstract(after), r.rdStart, r.rdQuantity, 0));
    }
  }

  // Whatever the request, the server's registers and its answer are those of the plain map.
  lemma HandleRefines(blocks: seq<RegBlock>, r: Request, stale: seq<byte>, txMax: byte)
    requires Ready(blocks, r, stale, txMax)
    ensures Refines(blocks, r, Handle(blocks, Build(r).func, Build(r).data + stale, txMax))
  {
    hide ReadRegs, WriteReg, WriteRegs, MaskReg, ReadWriteRegs, Refines;
    match r {
      case Read(_, _) => ReadRefines(blocks, r, stale, txMax);
      case Write(_, _) => WriteRefines(blocks, r, stale, txMax);
      case WriteMany(_, _) => WriteManyRefines(blocks, r, stale, txMax);
      case Mask(_, _, _) => MaskRefines(blocks, r, stale, txMax);
      case Exchange(_, _, _, _) => ExchangeRefines(blocks, r, stale, txMax);
    }
  }
}
