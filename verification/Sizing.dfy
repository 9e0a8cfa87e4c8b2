/** Sizes: whatever a client of this library asks, the reply fits the PDU it reserved
    (emodbus/include/emodbus/base/calc_pdu_size.h and the calc_answer_data_size functions)
    and the buffers of both transports.

    The requests of the library are gathered in one type, with what its builders accept, the
    PDU they build and the size they compute for the answer; a handler that is registered at its
    own code never gives an answer that is larger. */
module Sizing {
  import opened Words
  import opened Pdus
  import opened Registry
  import opened Cells
  import opened Server
  import opened Links
  import ServerRegs
  import MaskBits
  import ClientRegs
  import RegisterMap
  import Coils
  import Bits
  import Files
  import FileWrite
  import FileWriteList
  import FileRead
  import FileReadList
  import Fifo
  import Rtu
  import Tcp
  import TcpReassembly
  import Dispatch

  // The requests of the client library.
  datatype Query =
    | Registers(r: RegisterMap.Request)
    | InputRegisters(start: word, quantity: word)
    | ReadBits(discrete: bool, start: word, quantity: word)
    | WriteCoil(coil: word, on: bool)
    | WriteCoils(start: word, values: seq<bool>)
    | ReadFiles(gets: seq<FileRead.SubRead>)
    | WriteFiles(puts: seq<FileWrite.SubWrite>)
    | ReadQueue(addr: word)

  // What the builders accept, in PDUs of the size the library gives them.
  predicate Buildable(q: Query) {
    match q
    case Registers(r) => RegisterMap.Buildable(r)
    case InputRegisters(_, n) => 1 <= n <= 125
    case ReadBits(_, _, n) => 1 <= n <= 0x7D0
    case WriteCoil(_, _) => true
    case WriteCoils(_, vs) => 1 <= |vs| <= 0x7B0
    case ReadFiles(subs) => |subs| <= 35 && 1 + FileRead.AnswersSize(subs) <= MAX_PDU_DATA_SIZE
    case WriteFiles(subs) => FileWrite.Encodable(subs) && 1 + FileWrite.SubsSize(subs) <= MAX_PDU_DATA_SIZE
    case ReadQueue(_) => true
  }

  function Ask(q: Query): Pdu
    requires Buildable(q)
  {
    match q
    case Registers(r) => RegisterMap.Build(r)
    case InputRegisters(s, n) => ClientRegs.ReadReq(true, s, n)
    case ReadBits(discrete, s, n) => Coils.ReadBitsReq(discrete, s, n)
    case WriteCoil(a, v) => Coils.WriteCoilReq(a, v)
    case WriteCoils(s, vs) => Coils.WriteCoilsReq(s, vs)
    case ReadFiles(subs) => FileRead.Request(subs)
    case WriteFiles(subs) => FileWrite.Request(subs)
    case ReadQueue(a) => Fifo.Request(a)
  }

  // The size of the response PDU.
  function Reserved(q: Query): int
    requires Buildable(q)
  {
    match q
    case Registers(r) => RegisterMap.AnswerSize(r)
    case InputRegisters(_, n) => ClientRegs.ReadAnswerSize(n)
    case ReadBits(_, _, n) => Coils.ReadAnswerSize(n)
    case WriteCoil(_, _) => Coils.WRITE_ANSWER_SIZE
    case WriteCoils(_, _) => Coils.WRITE_ANSWER_SIZE
    case ReadFiles(subs) => 1 + FileRead.AnswersSize(subs)
    case WriteFiles(subs) => 1 + FileWrite.SubsSize(subs)
    case ReadQueue(_) => Fifo.ANSWER_SIZE
  }

  lemma AskedSize(q: Query)
    requires Buildable(q)
    ensures 1 <= |Ask(q).data| <= MAX_PDU_DATA_SIZE && 1 <= Reserved(q) <= MAX_PDU_DATA_SIZE && Ask(q).func < 0x80
  {
    hide FileRead.EncodeSubs, FileWrite.EncodeSubs, Bits.Pack;
  }

  // The frames of the link have room for the request and for the answer.
  predicate Askable(link: Link, q: Query) {
    Buildable(q) && |Ask(q).data| <= Room(link) && Reserved(q) <= Room(link)
  }

  // Only requests about files can be too large for a serial line.
  lemma AskableOnAny(link: Link, q: Query)
    requires Buildable(q) && !q.ReadFiles? && !q.WriteFiles?
    ensures Askable(link, q)
  {
    hide Bits.Pack;
  }

  // ----- the size of a handler's reply, by the request's octets

  lemma RegsReplySize(blocks: seq<Block<word>>, func: byte, d: seq<byte>, txMax: byte)
    requires Pdus.Storage(d) && AllValid(blocks)
    ensures var r := ServerRegs.ReadRegs(blocks, func, d, txMax);
            r.code == 0 ==> |r.reply.data| == 1 + 2 * Get16(d, 2) as int
    ensures var r := ServerRegs.ReadWriteRegs(blocks, d, txMax);
            r.code == 0 ==> |r.reply.data| == 1 + 2 * Get16(d, 2) as int
    ensures var r := ServerRegs.WriteReg(blocks, d, txMax); r.code == 0 ==> |r.reply.data| == 4
    ensures var r := ServerRegs.WriteRegs(blocks, d, txMax); r.code == 0 ==> |r.reply.data| == 4
    ensures var r := ServerRegs.MaskReg(blocks, d, txMax); r.code == 0 ==> |r.reply.data| == 6
  {
    hide Locate, Written, GetWords, PutWords, Slice, MaskBits.Masked;
  }

  lemma BitsReplySize(blocks: seq<Block<bool>>, func: byte, d: seq<byte>, size: byte, txMax: byte)
    requires Pdus.Storage(d) && AllValid(blocks)
    ensures var r := Coils.ReadBits(blocks, func, d, txMax);
            r.code == 0 ==> |r.reply.data| == 1 + Bits.Octets(Get16(d, 2))
    ensures var r := Coils.WriteCoils(blocks, d, size, txMax); r.code == 0 ==> |r.reply.data| == 4
    ensures var r := Coils.WriteCoil(blocks, d, txMax); r.code == 0 ==> |r.reply.data| == 4
  {
    hide Locate, Written, PutWords, Slice, Bits.Unpack;
  }

  lemma OtherReplySize(files: Option<seq<Files.File>>, fifo: Option<word -> Fifo.Queue>, d: seq<byte>, size: byte, txMax: byte)
    requires Received(d, size)
    ensures var r := FileWrite.Handle(files, d, size, txMax); r.code == 0 ==> |r.reply.data| == size as int
    ensures var r := Fifo.Handle(fifo, d, txMax, Unheld()); r.code == 0 ==> 4 <= |r.reply.data| <= Fifo.ANSWER_SIZE
  {
    hide FileWrite.Loop, PutWords;
  }

  lemma ReadFileReplySize(files: Option<seq<Files.File>>, subs: seq<FileRead.SubRead>, stale: seq<byte>)
    requires Buildable(ReadFiles(subs)) && |FileRead.Request(subs).data + stale| >= MAX_PDU_DATA_SIZE
    ensures var r := FileRead.Handle(files, FileRead.Request(subs).data + stale, MAX_PDU_DATA_SIZE);
            r.code == 0 ==> |r.reply.data| == 1 + FileRead.AnswersSize(subs)
  {
    hide FileRead.EncodeSubs, FileRead.EncodeAnswers, FileRead.Loop, FileReadList.ReadAll, FileRead.AnswersSize;
    if files.Some? {
      FileReadList.ServeReads(files.value, subs, stale, MAX_PDU_DATA_SIZE);
      FileReadList.ReadsFit(files.value, subs);
    } else {
      NoFiles(FileRead.Request(subs).data + stale, MAX_PDU_DATA_SIZE);
    }
  }

  lemma NoFiles(d: seq<byte>, txMax: byte)
    requires Pdus.Storage(d)
    ensures FileRead.Handle(None, d, txMax).code != 0
  {
  }

  // ----- every reply fits

  // The octets the server looks at, with whatever else its receive storage holds.
  function InStorage(q: Query, stale: seq<byte>): seq<byte>
    requires Buildable(q)
  {
    Ask(q).data + stale
  }

  lemma QuantityInPlace(q: Query, stale: seq<byte>)
    requires Buildable(q) && Ask(q).func in {1, 2, 3, 4, 0x17}
    ensures |InStorage(q, stale)| >= 4
    ensures q.ReadBits? ==> Get16(InStorage(q, stale), 2) == q.quantity
    ensures q.InputRegisters? ==> Get16(InStorage(q, stale), 2) == q.quantity
    ensures q.Registers? ==>
              Get16(InStorage(q, stale), 2) == if q.r.Read? then q.r.quantity else if q.r.Exchange? then q.r.rdQuantity else 0
  {
    hide PutWords;
    match q {
      case ReadBits(_, s, n) => WordInPlace([s, n], stale, 1);
      case InputRegisters(s, n) => WordInPlace([s, n], stale, 1);
      case Registers(r) =>
        if r.Read? {
          WordInPlace([r.start, r.quantity], stale, 1);
        } else {
          var ws := [r.rdStart, r.rdQuantity, r.wrStart, |r.values|];
          var rest := [ByteCount(|r.values|)] + PutWords(r.values) + stale;
          assert InStorage(q, stale) == PutWords(ws) + rest;
          WordInPlace(ws, rest, 1);
        }
    }
  }

  // The received request, as the server's storage sees it.
  ghost predicate Stored(q: Query, dev: Device, stale: seq<byte>, d: seq<byte>, size: byte) {
    Buildable(q) && dev.Valid() && d == InStorage(q, stale) && size as int == |Ask(q).data| && |d| >= MAX_PDU_DATA_SIZE
  }

  lemma StoredReceived(q: Query, dev: Device, stale: seq<byte>, d: seq<byte>, size: byte)
    requires Stored(q, dev, stale, d, size)
    ensures Received(d, size) && dev.Valid()
  {
    hide PutWords;
  }

  lemma RegisterReplyFits(h: Handler, dev: Device, q: Query, stale: seq<byte>, d: seq<byte>, size: byte)
    requires Stored(q, dev, stale, d, size) && Received(d, size) && Dispatch.Home(h, Ask(q).func)
    requires h.ReadRegs? || h.WriteReg? || h.WriteRegs? || h.MaskReg? || h.ReadWriteRegs?
    ensures var r := Invoke(h, dev, Ask(q).func, d, size, MAX_PDU_DATA_SIZE);
            r.code == 0 ==> 1 <= |r.reply.data| <= Reserved(q)
  {
    hide ServerRegs.ReadRegs, ServerRegs.ReadWriteRegs, ServerRegs.WriteReg, ServerRegs.WriteRegs, ServerRegs.MaskReg,
         PutWords;
    var func := Ask(q).func;
    if h.ReadRegs? || h.ReadWriteRegs? {
      QuantityInPlace(q, stale);
    }
    RegsReplySize(GetterOf(if h.ReadRegs? && func == 0x04 then dev.inputs else dev.holdings), func, d, MAX_PDU_DATA_SIZE);
  }

  lemma BitReplyFits(h: Handler, dev: Device, q: Query, stale: seq<byte>, d: seq<byte>, size: byte)
    requires Stored(q, dev, stale, d, size) && Received(d, size) && Dispatch.Home(h, Ask(q).func)
    requires h.ReadBits? || h.WriteCoil? || h.WriteCoils?
    ensures var r := Invoke(h, dev, Ask(q).func, d, size, MAX_PDU_DATA_SIZE);
            r.code == 0 ==> 1 <= |r.reply.data| <= Reserved(q)
  {
    hide Coils.ReadBits, Coils.WriteCoil, Coils.WriteCoils, PutWords;
    var func := Ask(q).func;
    if h.ReadBits? {
      QuantityInPlace(q, stale);
    }
    BitsReplySize(GetterOf(if h.ReadBits? && func == 0x02 then dev.discrete else dev.coils), func, d, size, MAX_PDU_DATA_SIZE);
  }

  lemma OtherReplyFits(h: Handler, dev: Device, q: Query, stale: seq<byte>, d: seq<byte>, size: byte)
    requires Stored(q, dev, stale, d, size) && Received(d, size) && Dispatch.Home(h, Ask(q).func)
    requires h.ReadFile? || h.WriteFile? || h.ReadFifo?
    ensures var r := Invoke(h, dev, Ask(q).func, d, size, MAX_PDU_DATA_SIZE);
            r.code == 0 ==> 1 <= |r.reply.data| <= Reserved(q)
  {
    hide FileRead.Handle, FileWrite.Handle, Fifo.Handle, PutWords;
    OtherReplySize(dev.files, dev.fifo, d, size, MAX_PDU_DATA_SIZE);
    if h.ReadFile? {
      ReadFileReplySize(dev.files, q.gets, stale);
    }
  }

  // A built request never makes a handler at its function look or write beyond its storage.
  lemma AskedIsLegible(h: Handler, dev: Device, q: Query, stale: seq<byte>, d: seq<byte>, size: byte)
    requires Stored(q, dev, stale, d, size) && Dispatch.Home(h, Ask(q).func)
    ensures Legible(h, dev, d, size, MAX_PDU_DATA_SIZE, MAX_PDU_DATA_SIZE)
  {
    hide FileRead.EncodeSubs, FileRead.AnswersSize, FileWrite.EncodeSubs, FileWrite.SubsSize, FileRead.Legible,
         FileWrite.TurnAt, PutWords, FileReadList.ReadAll, FileWriteList.Apply;
    if h.ReadFile? {
      FileReadList.BuiltIsLegible(dev.files, q.gets, stale, MAX_PDU_DATA_SIZE, MAX_PDU_DATA_SIZE);
    } else if h.WriteFile? {
      if dev.files.Some? {
        FileWriteList.ServeApplies(dev.files.value, q.puts, stale, MAX_PDU_DATA_SIZE);
      } else if size > 1 {
        NoFilesToWrite(d, size);
      }
    }
  }

  // So a server of this library (253 octets in both PDUs) can manage it whatever it holds: Dispatch.ServePackets.
  lemma AskedIsClear(h: Handler, q: Query)
    requires Buildable(q) && Dispatch.Home(h, Ask(q).func)
    ensures Dispatch.Clear(h, Ask(q).data, MAX_PDU_DATA_SIZE, MAX_PDU_DATA_SIZE, MAX_PDU_DATA_SIZE)
  {
    hide Legible, Ask, Buildable;
    AskedSize(q);
    forall dev: Device, stale: seq<byte> | dev.Valid() && |Ask(q).data + stale| == MAX_PDU_DATA_SIZE
      ensures Legible(h, dev, Ask(q).data + stale, |Ask(q).data|, MAX_PDU_DATA_SIZE, MAX_PDU_DATA_SIZE)
    {
      AskedIsLegible(h, dev, q, stale, Ask(q).data + stale, |Ask(q).data|);
    }
  }

  lemma NoFilesToWrite(d: seq<byte>, size: byte)
    requires size as int <= |d|
    ensures FileWrite.Inside(None, d, 1, size)
  {
  }

  // Normal or exception, the reply of a server with its handler at its own code fits the response PDU the
  // client reserved.
  lemma ReplyFits(table: Table, dev: Device, q: Query, stale: seq<byte>, d: seq<byte>, size: byte)
    requires Stored(q, dev, stale, d, size) && Dispatch.HomeAt(table, Ask(q).func)
    ensures Received(d, size) && Reserved(q) <= MAX_PDU_DATA_SIZE
    ensures var reply := Answer(Some(table), dev, Ask(q).func, d, size, MAX_PDU_DATA_SIZE).reply;
            1 <= |reply.data| <= Reserved(q)
  {
    hide Invoke, Ask, Reserved, Buildable;
    AskedSize(q);
    StoredReceived(q, dev, stale, d, size);
    var h := GetFunction(table, Ask(q).func);
    if h.Some? {
      match h.value {
        case ReadBits => BitReplyFits(h.value, dev, q, stale, d, size);
        case WriteCoil => BitReplyFits(h.value, dev, q, stale, d, size);
        case WriteCoils => BitReplyFits(h.value, dev, q, stale, d, size);
        case ReadFile => OtherReplyFits(h.value, dev, q, stale, d, size);
        case WriteFile => OtherReplyFits(h.value, dev, q, stale, d, size);
        case ReadFifo => OtherReplyFits(h.value, dev, q, stale, d, size);
        case _ => RegisterReplyFits(h.value, dev, q, stale, d, size);
      }
    }
  }

  // So on a link whose frames have room for both, no overflow is reported at either end: each frame is delivered.
  lemma NoOverflow(link: Link, table: Table, dev: Device, q: Query, stale: seq<byte>, d: seq<byte>, size: byte,
                   addr: byte, tid: word, own: word)
    requires Stored(q, dev, stale, d, size) && Askable(link, q) && Dispatch.HomeAt(table, Ask(q).func)
    ensures Received(d, size) && 1 <= Reserved(q) <= Room(link)
    ensures Passes(link, true, own, MAX_PDU_DATA_SIZE, tid, addr, Ask(q))
    ensures var reply := Answer(Some(table), dev, Ask(q).func, d, size, MAX_PDU_DATA_SIZE).reply;
            |reply.data| <= Room(link) && Passes(link, false, tid, Reserved(q), tid, addr, reply)
  {
    hide Answer, Ask, Reserved, Buildable, Passes;
    AskedSize(q);
    ReplyFits(table, dev, q, stale, d, size);
    PassesIfItFits(link, true, own, MAX_PDU_DATA_SIZE, tid, addr, Ask(q));
    PassesIfItFits(link, false, tid, Reserved(q), tid, addr,
                   Answer(Some(table), dev, Ask(q).func, d, size, MAX_PDU_DATA_SIZE).reply);
  }

  // The frame of a PDU is delivered to a waiting PDU of `max` octets.
  predicate Passes(link: Link, isServer: bool, own: word, max: byte, tid: word, addr: byte, pdu: Pdu)
    requires |pdu.data| <= Room(link)
  {
    match link
    case Serial => Rtu.Parse(Rtu.Frame(addr, pdu), Some(max)) == Delivered(addr, pdu)
    case Stream =>
      var f := Tcp.Frame(tid, addr, pdu);
      && TcpReassembly.WellFormed(f) && |f| == Tcp.MBAP_SIZE + Tcp.PktLength(f)
      && Tcp.Judge(Tcp.Side(isServer, own, Some(max)), f) == Delivered(addr, pdu)
  }

  lemma PassesIfItFits(link: Link, isServer: bool, own: word, max: byte, tid: word, addr: byte, pdu: Pdu)
    requires 1 <= |pdu.data| <= Room(link) && |pdu.data| <= max as int && (isServer || own == tid)
    ensures Passes(link, isServer, own, max, tid, addr, pdu)
  {
    hide Rtu.Parse, Rtu.Frame;
    match link {
      case Serial => Rtu.ParseFrame(addr, pdu, max);
      case Stream => TcpReassembly.FrameJudged(Tcp.Side(isServer, own, Some(max)), tid, addr, pdu);
    }
  }
}
