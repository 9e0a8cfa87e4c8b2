/** What every request of the library does to a device, told on plain address-to-value maps and lists of
    records, and that the handlers of emodbus/server do it on the requests of emodbus/client. */
module DeviceMap {
  import opened Words
  import opened Pdus
  import opened Registry
  import opened Cells
  import opened Sizing
  import Bits
  import ClientRegs
  import RegisterMap
  import MaskBits
  import ServerRegs
  import Coils
  import Files
  import FileWrite
  import FileWriteList
  import FileRead
  import FileReadList
  import FileIterate
  import Fifo
  import Server
  import Dispatch
  import Client

  // ----- the device as its requests see it

  // What requests change.  Input registers, discrete inputs and queues stay what they are.
  datatype Memory = Memory(holdings: map<int, word>, coils: map<int, bool>, files: seq<Files.File>)

  ghost function MapOf<T>(blocks: Option<seq<Block<T>>>): map<int, T>
    requires blocks.Some? ==> AllValid(blocks.value)
  {
    if blocks.None? then map[] else Abstract(blocks.value)
  }

  ghost function MemoryOf(dev: Server.Device): Memory
    requires dev.Valid()
  {
    Memory(MapOf(dev.holdings), MapOf(dev.coils), if dev.files.None? then [] else dev.files.value)
  }

  // What a client gets to know.
  datatype Answer =
    | Values(values: seq<word>) | Bools(bools: seq<bool>) | Records(answers: seq<seq<word>>)
    | Confirmed | Refused(errno: int)

  ghost predicate Reads<T>(blocks: Option<seq<Block<T>>>) { blocks.Some? && Readable(blocks.value) }

  ghost predicate Writes<T>(blocks: Option<seq<Block<T>>>) { blocks.Some? && Registered(blocks.value) }

  // The request's part of the device is registered as server_test.cpp registers it.
  ghost predicate Equipped(dev: Server.Device, q: Query) {
    match q
    case Registers(_) => Writes(dev.holdings)
    case InputRegisters(_, _) => Reads(dev.inputs)
    case ReadBits(discrete, _, _) => Reads(if discrete then dev.discrete else dev.coils)
    case WriteCoil(_, _) => Writes(dev.coils)
    case WriteCoils(_, _) => Writes(dev.coils)
    case ReadFiles(_) => dev.files.Some?
    case WriteFiles(_) => dev.files.Some?
    case ReadQueue(_) => dev.fifo.Some? && Fifo.Total(dev.fifo)
  }

  // ----- the requests on it

  function Lift(a: RegisterMap.Answer): Answer {
    match a
    case Registers(values) => Values(values)
    case Confirmed => Confirmed
    case Refused(errno) => Refused(errno)
  }

  function Error(code: byte): Answer { Refused(-(1500 + code)) }

  // The registers or bits of a range, if it lies inside one block.
  ghost function LoadFrom<T>(blocks: seq<Block<T>>, m: map<int, T>, start: word, quantity: word, absent: T): Option<seq<T>>
    requires AllValid(blocks)
  {
    if Locate(blocks, start, quantity).None? then None else Some(Load(m, start, quantity, absent))
  }

  // The request carried out: the blocks of the device only say which ranges lie inside one of them.
  ghost function Plain(dev: Server.Device, m: Memory, q: Query): (Memory, Answer)
    requires dev.Valid() && Equipped(dev, q) && Buildable(q)
  {
    var absent := Error(MBE_ILLEGAL_DATA_ADDR);
    match q
    case Registers(r) =>
      var (holdings, answer) := RegisterMap.Plain(dev.holdings.value, m.holdings, r);
      (m.(holdings := holdings), Lift(answer))
    case InputRegisters(s, n) =>
      var values := LoadFrom(dev.inputs.value, Abstract(dev.inputs.value), s, n, 0);
      (m, if values.None? then absent else Values(values.value))
    case ReadBits(discrete, s, n) =>
      var values := if discrete then LoadFrom(dev.discrete.value, Abstract(dev.discrete.value), s, n, false)
                    else LoadFrom(dev.coils.value, m.coils, s, n, false);
      (m, if values.None? then absent else Bools(values.value))
    case WriteCoil(a, v) =>
      if Locate(dev.coils.value, a, 1).None? then (m, absent) else (m.(coils := Store(m.coils, a, [v])), Confirmed)
    case WriteCoils(s, vs) =>
      if Locate(dev.coils.value, s, |vs|).None? then (m, absent) else (m.(coils := Store(m.coils, s, vs)), Confirmed)
    case ReadFiles(gets) =>
      var (code, answers) := FileReadList.ReadAll(m.files, gets);
      (m, if gets == [] then Error(MBE_ILLEGAL_DATA_VALUE) else if code != 0 then Error(code) else Records(answers))
    case WriteFiles(puts) =>
      if !FileWrite.CountAccepted(FileWrite.SubsSize(puts)) then (m, Error(MBE_ILLEGAL_DATA_VALUE))
      else
        var (code, files) := FileWriteList.Apply(m.files, puts);
        (m.(files := files), if code != 0 then Error(code) else Confirmed)
    case ReadQueue(a) =>
      var queue := dev.fifo.value(a);
      (m, if queue.code != 0 then Error(queue.code)
          else if queue.count as int > Fifo.MAX_REGS then Error(MBE_ILLEGAL_DATA_VALUE)
          else Values(queue.values[..queue.count]))
  }

  // What the owner of the transaction reads from the response PDU, with `rest` and `behind` in memory after the reply.
  function Interpret(q: Query, reply: Pdu, rest: seq<byte>, behind: byte): Answer {
    match q
    case Registers(r) => Lift(RegisterMap.Interpret(r, 0, reply))
    case InputRegisters(_, _) =>
      if reply.data != [] && 1 + 2 * ClientRegs.AnswerCount(reply) <= |reply.data| then Values(ClientRegs.AnswerRegs(reply))
      else Confirmed
    case ReadBits(_, _, n) =>
      if 1 + Bits.Octets(n) <= |reply.data| then Bools(Bits.Unpack(reply.data, 1, n)) else Confirmed
    case ReadFiles(_) => Records(FileIterate.Collected(reply, rest, behind))
    case ReadQueue(_) => if Fifo.Complete(reply) then Values(QueueData(reply)) else Confirmed
    case _ => Confirmed
  }

  function QueueData(reply: Pdu): (values: seq<word>)
    requires Fifo.Complete(reply)
  {
    seq(Fifo.RegsCount(reply), k requires 0 <= k < Fifo.RegsCount(reply) => Fifo.GetData(reply, k))
  }

  // ----- the handlers do it

  // The handler of a request's function.
  function HandlerOf(q: Query): Server.Handler {
    match q
    case Registers(r) =>
      (match r
       case Read(_, _) => Server.ReadRegs
       case Write(_, _) => Server.WriteReg
       case WriteMany(_, _) => Server.WriteRegs
       case Mask(_, _, _) => Server.MaskReg
       case Exchange(_, _, _, _) => Server.ReadWriteRegs)
    case InputRegisters(_, _) => Server.ReadRegs
    case ReadBits(_, _, _) => Server.ReadBits
    case WriteCoil(_, _) => Server.WriteCoil
    case WriteCoils(_, _) => Server.WriteCoils
    case ReadFiles(_) => Server.ReadFile
    case WriteFiles(_) => Server.WriteFile
    case ReadQueue(_) => Server.ReadFifo
  }

  // Blocks that a request may have written: the same ranges, as accessible as before.
  ghost predicate KeptBlocks<T>(x: Option<seq<Block<T>>>, y: Option<seq<Block<T>>>) {
    x == y || (Writes(x) && Writes(y) && SameRanges(x.value, y.value))
  }

  // What a request leaves of a device.
  ghost predicate Kept(x: Server.Device, y: Server.Device) {
    && x.Valid() && y.Valid() && KeptBlocks(x.holdings, y.holdings) && KeptBlocks(x.coils, y.coils)
    && x.inputs == y.inputs && x.discrete == y.discrete && x.fifo == y.fifo && x.files.Some? == y.files.Some?
  }

  // A handler's outcome is the one on the maps.
  ghost predicate Agrees(dev: Server.Device, q: Query, r: Server.Served, rest: seq<byte>, behind: byte)
    requires dev.Valid() && Equipped(dev, q) && Buildable(q)
  {
    var (m, answer) := Plain(dev, MemoryOf(dev), q);
    && Kept(dev, r.dev) && MemoryOf(r.dev) == m
    && (if r.code != 0 then Error(r.code) else Interpret(q, r.reply, rest, behind)) == answer
    && (r.code != 0 && !q.WriteFiles? ==> r.dev == dev)
  }

  // The request is in the receive buffer, the octets `stale` behind it, of a device equipped for it.
  ghost predicate Ready(dev: Server.Device, q: Query, stale: seq<byte>) {
    dev.Valid() && Equipped(dev, q) && Buildable(q) && |Ask(q).data + stale| >= MAX_PDU_DATA_SIZE
  }

  // The outcome of the request's handler.
  function Handled(dev: Server.Device, q: Query, stale: seq<byte>): Server.Served
    requires dev.Valid() && Buildable(q) && |Ask(q).data + stale| >= MAX_PDU_DATA_SIZE
  {
    AskedSize(q);
    Server.Invoke(HandlerOf(q), dev, Ask(q).func, Ask(q).data + stale, |Ask(q).data|, MAX_PDU_DATA_SIZE)
  }

  lemma RegistersHandled(dev: Server.Device, q: Query, stale: seq<byte>)
    requires dev.Valid() && Buildable(q) && |Ask(q).data + stale| >= MAX_PDU_DATA_SIZE && q.Registers? && dev.holdings.Some?
    ensures var h := RegisterMap.Handle(dev.holdings.value, Ask(q).func, Ask(q).data + stale, MAX_PDU_DATA_SIZE);
            Handled(dev, q, stale) == Server.Served(h.code, dev.(holdings := Some(h.holdings)), h.reply)
  {
    hide ServerRegs.ReadRegs, ServerRegs.WriteReg, ServerRegs.WriteRegs, ServerRegs.MaskReg, ServerRegs.ReadWriteRegs,
         PutWords;
  }

  lemma Refusal(r: RegisterMap.Request, code: byte, reply: Pdu)
    requires code != 0
    ensures Lift(RegisterMap.Interpret(r, code, reply)) == Error(code)
  {
  }

  lemma RegistersAgree(dev: Server.Device, q: Query, stale: seq<byte>, rest: seq<byte>, behind: byte)
    requires Ready(dev, q, stale) && q.Registers?
    ensures Agrees(dev, q, Handled(dev, q, stale), rest, behind)
  {
    hide RegisterMap.Handle, RegisterMap.Plain, RegisterMap.Interpret, RegisterMap.Build, Registered, Abstract,
         SameRanges, Handled;
    RegistersHandled(dev, q, stale);
    RegisterMap.HandleRefines(dev.holdings.value, q.r, stale, MAX_PDU_DATA_SIZE);
    var h := RegisterMap.Handle(dev.holdings.value, Ask(q).func, Ask(q).data + stale, MAX_PDU_DATA_SIZE);
    if h.code != 0 {
      Refusal(q.r, h.code, h.reply);
    }
  }

  lemma InputsAgree(dev: Server.Device, q: Query, stale: seq<byte>, rest: seq<byte>, behind: byte)
    requires Ready(dev, q, stale) && q.InputRegisters?
    ensures Agrees(dev, q, Handled(dev, q, stale), rest, behind)
  {
    hide ServerRegs.ReadRegs, PutWords, GetWords, Readable, Registered, Abstract, SameRanges, Locate, Load;
    RegisterMap.ReadsTheMap(dev.inputs.value, true, q.start, q.quantity, stale, MAX_PDU_DATA_SIZE);
  }

  lemma BitsAgree(dev: Server.Device, q: Query, stale: seq<byte>, rest: seq<byte>, behind: byte)
    requires Ready(dev, q, stale) && q.ReadBits?
    ensures Agrees(dev, q, Handled(dev, q, stale), rest, behind)
  {
    hide Coils.ReadBits, PutWords, Bits.Unpack, Readable, Registered, Abstract, SameRanges, Locate, Load;
    var blocks := if q.discrete then dev.discrete.value else dev.coils.value;
    Coils.ReadRefines(blocks, q.discrete, q.start, q.quantity, stale, MAX_PDU_DATA_SIZE);
  }

  lemma CoilAgrees(dev: Server.Device, q: Query, stale: seq<byte>, rest: seq<byte>, behind: byte)
    requires Ready(dev, q, stale) && q.WriteCoil?
    ensures Agrees(dev, q, Handled(dev, q, stale), rest, behind)
  {
    hide Coils.WriteCoil, Coils.AsksCoil, PutWords, Registered, Abstract, SameRanges, Locate, Store;
    Coils.BuiltAsksCoil(q.coil, q.on, stale);
    Coils.WriteOneRefines(dev.coils.value, Ask(q).data + stale, q.coil, q.on, MAX_PDU_DATA_SIZE);
  }

  lemma CoilsAgree(dev: Server.Device, q: Query, stale: seq<byte>, rest: seq<byte>, behind: byte)
    requires Ready(dev, q, stale) && q.WriteCoils?
    ensures Agrees(dev, q, Handled(dev, q, stale), rest, behind)
  {
    hide Coils.WriteCoils, Coils.WriteCoilsReq, PutWords, Registered, Abstract, SameRanges, Locate, Store;
    Coils.WriteRefines(dev.coils.value, q.start, q.values, stale, MAX_PDU_DATA_SIZE);
  }

  lemma ReadFilesAgree(dev: Server.Device, q: Query, stale: seq<byte>, rest: seq<byte>, behind: byte)
    requires Ready(dev, q, stale) && q.ReadFiles?
    ensures Agrees(dev, q, Handled(dev, q, stale), rest, behind)
  {
    hide FileRead.EncodeSubs, FileRead.EncodeAnswers, FileRead.Handle, FileRead.Answer, FileRead.AnswersSize,
         FileReadList.ReadAll, FileIterate.Collect, FileIterate.Next, Registered, Abstract, SameRanges;
    var files := dev.files.value;
    FileReadList.ServeReads(files, q.gets, stale, MAX_PDU_DATA_SIZE);
    var (code, answers) := FileReadList.ReadAll(files, q.gets);
    if q.gets != [] && code == 0 {
      FileReadList.ReadsFit(files, q.gets);
      FileIterate.CollectsAll(answers, rest, behind);
    }
  }

  lemma WriteFilesAgree(dev: Server.Device, q: Query, stale: seq<byte>, rest: seq<byte>, behind: byte)
    requires Ready(dev, q, stale) && q.WriteFiles?
    ensures Agrees(dev, q, Handled(dev, q, stale), rest, behind)
  {
    hide FileWrite.EncodeSubs, FileWrite.Handle, FileWrite.SubsSize, FileWrite.CountAccepted, FileWriteList.Apply,
         FileWrite.Legible, Registered, Abstract, SameRanges;
    FileWrite.EncodedSize(q.puts);
    FileWriteList.ServeApplies(dev.files.value, q.puts, stale, MAX_PDU_DATA_SIZE);
  }

  lemma QueueAgrees(dev: Server.Device, q: Query, stale: seq<byte>, rest: seq<byte>, behind: byte)
    requires Ready(dev, q, stale) && q.ReadQueue?
    ensures Agrees(dev, q, Handled(dev, q, stale), rest, behind)
  {
    hide Fifo.Answer, Fifo.Complete, Fifo.GetData, Fifo.RegsCount, Registered, Abstract, SameRanges, PutWords;
    WordInPlace([q.addr], stale, 0);
    var queue := dev.fifo.value(q.addr);
    assert Fifo.Honest(queue);
    if queue.code == 0 && queue.count as int <= Fifo.MAX_REGS {
      var values := queue.values[..queue.count];
      Fifo.AnswerInverse(values);
      assert QueueData(Fifo.Answer(values)) == values;
    }
  }

  // Whatever the request, its handler does to the device what the maps say, and the client reads the answer of the maps.
  lemma HandlerAgrees(dev: Server.Device, q: Query, stale: seq<byte>, rest: seq<byte>, behind: byte)
    requires Ready(dev, q, stale)
    ensures Agrees(dev, q, Handled(dev, q, stale), rest, behind)
  {
    hide Agrees, Handled, Equipped, Buildable;
    match q {
      case Registers(_) => RegistersAgree(dev, q, stale, rest, behind);
      case InputRegisters(_, _) => InputsAgree(dev, q, stale, rest, behind);
      case ReadBits(_, _, _) => BitsAgree(dev, q, stale, rest, behind);
      case WriteCoil(_, _) => CoilAgrees(dev, q, stale, rest, behind);
      case WriteCoils(_, _) => CoilsAgree(dev, q, stale, rest, behind);
      case ReadFiles(_) => ReadFilesAgree(dev, q, stale, rest, behind);
      case WriteFiles(_) => WriteFilesAgree(dev, q, stale, rest, behind);
      case ReadQueue(_) => QueueAgrees(dev, q, stale, rest, behind);
    }
  }

  // ----- any number of requests

  lemma EquippedStays(x: Server.Device, y: Server.Device, q: Query)
    requires Kept(x, y) && Equipped(x, q)
    ensures Equipped(y, q)
  {
    hide Registered, Readable, SameRanges;
    if Reads(x.coils) {
      StayReadable(x.coils, y.coils);
    }
  }

  lemma StayReadable(x: Option<seq<Block<bool>>>, y: Option<seq<Block<bool>>>)
    requires KeptBlocks(x, y) && Reads(x)
    ensures Reads(y)
  {
    hide SameRanges;
  }

  // The ranges of the blocks decide what the maps answer, not their contents.
  lemma PlainStays(x: Server.Device, y: Server.Device, m: Memory, q: Query)
    requires Kept(x, y) && Equipped(x, q) && Equipped(y, q) && Buildable(q)
    ensures Plain(x, m, q) == Plain(y, m, q)
  {
    hide Locate, Load, Store, Abstract, Registered, Readable, RegisterMap.Plain, FileReadList.ReadAll,
         FileWriteList.Apply, KeptBlocks;
    match q {
      case Registers(r) => RegistersStay(x, y, m, r);
      case ReadBits(discrete, s, n) =>
        if !discrete {
          SameLocated(x.coils, y.coils, s, n);
        }
      case WriteCoil(a, _) => SameLocated(x.coils, y.coils, a, 1);
      case WriteCoils(s, vs) => SameLocated(x.coils, y.coils, s, |vs|);
      case _ =>
    }
  }

  lemma SameLocated<T>(x: Option<seq<Block<T>>>, y: Option<seq<Block<T>>>, start: word, n: nat)
    requires KeptBlocks(x, y) && x.Some? && y.Some? && AllValid(x.value) && AllValid(y.value)
    ensures Locate(x.value, start, n) == Locate(y.value, start, n)
  {
    hide Locate;
    if x != y {
      SameRangesLocate(x.value, y.value, start, n);
    }
  }

  lemma RegistersStay(x: Server.Device, y: Server.Device, m: Memory, r: RegisterMap.Request)
    requires Kept(x, y) && Writes(x.holdings) && Writes(y.holdings)
    ensures RegisterMap.Plain(x.holdings.value, m.holdings, r) == RegisterMap.Plain(y.holdings.value, m.holdings, r)
  {
    hide Locate, Load, Store, MaskBits.Masked, KeptBlocks;
    var a, b := x.holdings, y.holdings;
    match r {
      case Read(s, q) => SameLocated(a, b, s, q);
      case Write(addr, v) => SameLocated(a, b, addr, 1);
      case WriteMany(s, vs) => SameLocated(a, b, s, |vs|);
      case Mask(addr, am, om) => SameLocated(a, b, addr, 1);
      case Exchange(rs, rq, ws, vs) =>
        SameLocated(a, b, ws, |vs|);
        SameLocated(a, b, rs, rq);
    }
  }

  ghost predicate AllEquipped(dev: Server.Device, qs: seq<Query>) {
    dev.Valid() && forall i :: 0 <= i < |qs| ==> Buildable(qs[i]) && Equipped(dev, qs[i])
  }

  // The requests on the maps, one after the other.
  ghost function PlainSession(dev: Server.Device, m: Memory, qs: seq<Query>): (Memory, seq<Option<Answer>>)
    requires AllEquipped(dev, qs)
    decreases |qs|
  {
    if qs == [] then (m, [])
    else
      var (between, answer) := Plain(dev, m, qs[0]);
      var (after, answers) := PlainSession(dev, between, qs[1..]);
      (after, [Some(answer)] + answers)
  }

  lemma PlainPair(dev: Server.Device, m: Memory, p: Query, q: Query)
    requires AllEquipped(dev, [p, q])
    ensures Buildable(p) && Equipped(dev, p) && Buildable(q) && Equipped(dev, q)
    ensures var (between, first) := Plain(dev, m, p);
            var (after, second) := Plain(dev, between, q);
            PlainSession(dev, m, [p, q]) == (after, [Some(first), Some(second)])
  {
    hide Plain, Equipped, Buildable;
    var qs := [p, q];
    assert Buildable(qs[0]) && Buildable(qs[1]) && Equipped(dev, qs[0]) && Equipped(dev, qs[1]);
    var (between, first) := Plain(dev, m, p);
    var (after, second) := Plain(dev, between, q);
    assert qs[1..] == [q] && [q][1..] == [];
    var none := PlainSession(dev, after, []).1;
    assert none == [] && [Some(second)] + none == [Some(second)];
    assert [Some(first)] + [Some(second)] == [Some(first), Some(second)];
  }

  lemma {:induction false} PlainSessionStays(x: Server.Device, y: Server.Device, m: Memory, qs: seq<Query>)
    requires Kept(x, y) && AllEquipped(x, qs)
    ensures AllEquipped(y, qs) && PlainSession(x, m, qs) == PlainSession(y, m, qs)
    decreases |qs|
  {
    hide Plain, Equipped, Buildable, KeptBlocks;
    forall i | 0 <= i < |qs| ensures Equipped(y, qs[i]) {
      EquippedStays(x, y, qs[i]);
    }
    if qs != [] {
      PlainStays(x, y, m, qs[0]);
      PlainSessionStays(x, y, Plain(x, m, qs[0]).0, qs[1..]);
    }
  }

  lemma KeptTwice(x: Server.Device, y: Server.Device, z: Server.Device)
    requires Kept(x, y) && Kept(y, z)
    ensures Kept(x, z)
  {
    hide Registered;
  }
}
