/** The server, emodbus/server/server.c: a request is dispatched to a server by its address
    and to a handler by its function, and answered by the handler's reply or an exception. */
module Server {
  import opened Words
  import opened Pdus
  import opened Registry
  import opened Cells
  import ServerRegs
  import Coils
  import Files
  import FileWrite
  import FileRead
  import Fifo

  // ----- what a server serves, and how

  // The handlers of emodbus/server/server.h
  datatype Handler =
    | ReadBits | WriteCoil | WriteCoils | ReadRegs | WriteReg | WriteRegs | MaskReg | ReadWriteRegs
    | ReadFile | WriteFile | ReadFifo

  // What the getters of emb_server_t reach; None: the getter is missing.
  datatype Device = Device(
    coils: Option<seq<Block<bool>>>, discrete: Option<seq<Block<bool>>>,
    holdings: Option<seq<Block<word>>>, inputs: Option<seq<Block<word>>>,
    files: Option<seq<Files.File>>, fifo: Option<word -> Fifo.Queue>)
  {
    predicate Valid() {
      && (coils.Some? ==> AllValid(coils.value)) && (discrete.Some? ==> AllValid(discrete.value))
      && (holdings.Some? ==> AllValid(holdings.value)) && (inputs.Some? ==> AllValid(inputs.value))
    }
  }

  // Exception code, device afterwards, and the reply that goes with code 0.
  datatype Served = Served(code: byte, dev: Device, reply: Pdu)

  // A request in receive storage for any PDU.
  predicate Received(d: seq<byte>, size: byte) { |d| >= MAX_PDU_DATA_SIZE && size as int <= |d| }

  // The queue callbacks of Fifo.Total fill what they report, so that it does not matter what was there.
  function Unheld(): (held: seq<byte>)
    ensures |held| == Fifo.ANSWER_SIZE
  {
    seq(Fifo.ANSWER_SIZE, i => 0)
  }

  // What the file handlers demand besides: see FileWrite.Legible and FileRead.Legible.
  // The reply's storage has `room` octets.
  predicate Legible(h: Handler, dev: Device, d: seq<byte>, size: byte, txMax: byte, room: nat) {
    match h
    case ReadFile => FileRead.Legible(dev.files, d, txMax, room)
    case WriteFile => FileWrite.Legible(dev.files, d, size, txMax)
    case _ => true
  }

  function GetterOf<T>(blocks: Option<seq<T>>): seq<T> { if blocks.None? then [] else blocks.value }

  // Without a getter, 04 takes the place of 02.
  function Coded<T>(blocks: Option<seq<T>>, code: byte): byte { if blocks.None? then NoGetter(code) else code }

  function OnHoldings(dev: Device, r: ServerRegs.Result): Served {
    Served(Coded(dev.holdings, r.code),
           if dev.holdings.None? then dev else dev.(holdings := Some(r.holdings)), r.reply)
  }

  function OnCoils(dev: Device, r: Coils.Result): Served {
    Served(Coded(dev.coils, r.code), if dev.coils.None? then dev else dev.(coils := Some(r.coils)), r.reply)
  }

  // A handler's outcome on a request.
  function Invoke(h: Handler, dev: Device, func: byte, d: seq<byte>, size: byte, txMax: byte): Served
    requires dev.Valid() && Received(d, size)
  {
    match h
    case ReadBits =>
      var blocks := if func == 0x01 then dev.coils else if func == 0x02 then dev.discrete else Some([]);
      var r := Coils.ReadBits(GetterOf(blocks), func, d, txMax);
      Served(Coded(blocks, r.code), dev, r.reply)
    case WriteCoil => OnCoils(dev, Coils.WriteCoil(GetterOf(dev.coils), d, txMax))
    case WriteCoils => OnCoils(dev, Coils.WriteCoils(GetterOf(dev.coils), d, size, txMax))
    case ReadRegs =>
      var blocks := if func == 0x03 then dev.holdings else if func == 0x04 then dev.inputs else Some([]);
      if blocks.None? then Served(MBE_SLAVE_FAILURE, dev, Pdu(0, []))
      else
        var r := ServerRegs.ReadRegs(blocks.value, func, d, txMax);
        Served(r.code, dev, r.reply)
    case WriteReg => OnHoldings(dev, ServerRegs.WriteReg(GetterOf(dev.holdings), d, txMax))
    case WriteRegs => OnHoldings(dev, ServerRegs.WriteRegs(GetterOf(dev.holdings), d, txMax))
    case MaskReg => OnHoldings(dev, ServerRegs.MaskReg(GetterOf(dev.holdings), d, txMax))
    case ReadWriteRegs => OnHoldings(dev, ServerRegs.ReadWriteRegs(GetterOf(dev.holdings), d, txMax))
    case ReadFile =>
      var r := FileRead.Handle(dev.files, d, txMax);
      Served(r.code, dev, r.reply)
    case WriteFile =>
      var r := FileWrite.Handle(dev.files, d, size, txMax);
      Served(r.code, dev.(files := r.files), r.reply)
    case ReadFifo =>
      var r := Fifo.Handle(dev.fifo, d, txMax, Unheld());
      Served(r.code, dev, r.reply)
  }

  type Table = seq<Option<Handler>>

  // server_t::get_function
  function GetFunction(table: Table, func: byte): Option<Handler> {
    if func as int < |table| then table[func] else None
  }

  // The answer to a request: the handler's reply, or an exception.
  function Answer(table: Option<Table>, dev: Device, func: byte, d: seq<byte>, size: byte, txMax: byte): Served
    requires dev.Valid() && Received(d, size)
  {
    if table.None? || GetFunction(table.value, func).None? then
      Served(MBE_ILLEGAL_FUNCTION, dev, ExceptionPdu(func, MBE_ILLEGAL_FUNCTION))
    else
      var r := Invoke(GetFunction(table.value, func).value, dev, func, d, size, txMax);
      if r.code != 0 then r.(reply := ExceptionPdu(func, r.code)) else r
  }

  // The events of server.h, and the replies handed to the transport.
  datatype Event = ReceivePkt | NoServer | Exception(code: byte) | Sent(addr: byte, pdu: Pdu) | ResponseSent

  // What a found server makes of a request, in order.
  function Reaction(broadcast: bool, addr: byte, r: Served): seq<Event> {
    (if r.code != 0 then [Exception(r.code)] else []) + (if broadcast then [] else [Sent(addr, r.reply), ResponseSent])
  }

  // ----- several servers behind one transport

  /** A server as a value: where it is, whether it keeps silent, what it handles and serves. */
  datatype Site = Site(addr: byte, broadcast: bool, table: Option<Table>, dev: Device)

  // A request as the transport hands it over: the storage of the receive PDU, and its data_size.
  datatype Message = Message(addr: byte, func: byte, d: seq<byte>, size: byte)

  predicate AllSound(sites: seq<Site>) { forall i :: 0 <= i < |sites| ==> sites[i].dev.Valid() }

  // The first position of an address, from a position on.
  function IndexOf(addrs: seq<byte>, addr: byte, from: nat): (r: Option<nat>)
    requires from <= |addrs|
    ensures r.Some? ==> from <= r.value < |addrs| && addrs[r.value] == addr
    ensures forall i :: from <= i < (if r.Some? then r.value else |addrs|) ==> addrs[i] != addr
    decreases |addrs| - from
  {
    if from == |addrs| then None else if addrs[from] == addr then Some(from) else IndexOf(addrs, addr, from + 1)
  }

  // The first server with the address.
  function SiteOf(sites: seq<Site>, addr: byte): (r: Option<nat>)
    ensures r.Some? ==> r.value < |sites| && sites[r.value].addr == addr
    ensures forall i :: 0 <= i < (if r.Some? then r.value else |sites|) ==> sites[i].addr != addr
  {
    var addrs := seq(|sites|, i requires 0 <= i < |sites| => sites[i].addr);
    assert forall i :: 0 <= i < |sites| ==> addrs[i] == sites[i].addr;
    IndexOf(addrs, addr, 0)
  }

  lemma InvokeStaysValid(h: Handler, dev: Device, func: byte, d: seq<byte>, size: byte, txMax: byte)
    requires dev.Valid() && Received(d, size)
    ensures Invoke(h, dev, func, d, size, txMax).dev.Valid()
  {
    hide ServerRegs.ReadRegs, ServerRegs.WriteReg, ServerRegs.WriteRegs, ServerRegs.MaskReg, ServerRegs.ReadWriteRegs,
         Coils.ReadBits, Coils.WriteCoils, FileRead.Handle, FileWrite.Handle, Fifo.Handle;
  }

  // What a request does to the servers, and the events it causes.
  function React(sites: seq<Site>, m: Message, txMax: byte): (r: (seq<Site>, seq<Event>))
    requires AllSound(sites) && Received(m.d, m.size)
    ensures AllSound(r.0) && |r.0| == |sites|
    ensures forall i :: 0 <= i < |sites| ==> r.0[i] == sites[i].(dev := r.0[i].dev)
  {
    var k := SiteOf(sites, m.addr);
    if k.None? then (sites, [ReceivePkt, NoServer])
    else
      var s := sites[k.value];
      var served := Answer(s.table, s.dev, m.func, m.d, m.size, txMax);
      assert served.dev.Valid() by {
        hide Invoke;
        if s.table.Some? && GetFunction(s.table.value, m.func).Some? {
          InvokeStaysValid(GetFunction(s.table.value, m.func).value, s.dev, m.func, m.d, m.size, txMax);
        }
      }
      (sites[k.value := s.(dev := served.dev)], [ReceivePkt] + Reaction(s.broadcast, m.addr, served))
  }

  lemma NobodyReacts(sites: seq<Site>, m: Message, txMax: byte)
    requires AllSound(sites) && Received(m.d, m.size) && SiteOf(sites, m.addr).None?
    ensures React(sites, m, txMax) == (sites, [ReceivePkt, NoServer])
  {
  }

  // The servers after a request are those before it, but for the device of the one addressed.
  lemma SiteReacts(sites: seq<Site>, m: Message, txMax: byte, after: seq<Site>)
    requires AllSound(sites) && Received(m.d, m.size) && SiteOf(sites, m.addr).Some?
    requires |after| == |sites|
    requires var k := SiteOf(sites, m.addr).value;
             && (forall i :: 0 <= i < |sites| && i != k ==> after[i] == sites[i])
             && after[k] == sites[k].(dev := Answer(sites[k].table, sites[k].dev, m.func, m.d, m.size, txMax).dev)
    ensures var s := sites[SiteOf(sites, m.addr).value];
            React(sites, m, txMax) ==
              (after, [ReceivePkt] + Reaction(s.broadcast, m.addr, Answer(s.table, s.dev, m.func, m.d, m.size, txMax)))
  {
    hide Answer, Reaction, SiteOf;
    assert after == React(sites, m, txMax).0;
  }

  // ----- the objects

  class ServerObject {
    const addr: byte
    const broadcast: bool
    const fifo: Option<word -> Fifo.Queue>
    const regs: ServerRegs.RegisterStore
    const coils: Coils.CoilStore
    const files: Files.FileStore
    var functions: Option<Table>

    ghost predicate Valid()
      reads regs, coils
    {
      regs.Valid() && coils.Valid() && Fifo.Total(fifo)
    }

    ghost function Dev(): Device
      reads regs, coils, files
    {
      Device(coils.coils, coils.inputs, regs.holdings, regs.inputs, files.files, fifo)
    }

    ghost function Value(): Site
      reads this, regs, coils, files
    {
      Site(addr, broadcast, functions, Dev())
    }

    constructor (addr: byte, broadcast: bool, fifo: Option<word -> Fifo.Queue>,
                 regs: ServerRegs.RegisterStore, coils: Coils.CoilStore, files: Files.FileStore)
      ensures this.addr == addr && this.broadcast == broadcast && this.fifo == fifo
      ensures this.regs == regs && this.coils == coils && this.files == files
      ensures functions.Some? && forall f: byte :: GetFunction(functions.value, f) == None
    {
      this.addr, this.broadcast, this.fifo, this.regs, this.coils, this.files := addr, broadcast, fifo, regs, coils, files;
      this.functions := Some(seq(256, i => None));
    }

    // server_t::add_function
    method AddFunction(func: byte, h: Handler) returns (added: bool)
      requires functions.Some?
      modifies this
      ensures functions.Some?
      ensures added <==> func as int < |old(functions).value|
      ensures added ==> forall f: byte ::
                          GetFunction(functions.value, f) == if f == func then Some(h) else GetFunction(old(functions).value, f)
      ensures !added ==> functions == old(functions)
    {
      added := func as int < |functions.value|;
      if added {
        functions := Some(functions.value[func := Some(h)]);
      }
    }

    ghost predicate Ready(rx: PduBuffer, tx: PduBuffer)
      reads this, regs, coils, rx, rx.data, tx
    {
      && Valid() && rx.Valid() && tx.Valid() && rx != tx && rx.data != tx.data
      && Received(rx.data[..], rx.size) && tx.data.Length >= MAX_PDU_DATA_SIZE
    }

    // The handler of the request's function, if there is one, can read it.
    ghost predicate Understands(rx: PduBuffer, tx: PduBuffer)
      reads this, regs, coils, files, rx, rx.data, tx
    {
      functions.Some? && GetFunction(functions.value, rx.func).Some? ==>
        Legible(GetFunction(functions.value, rx.func).value, Dev(), rx.data[..], rx.size, tx.maxSize, tx.data.Length)
    }

    method CallHandler(h: Handler, rx: PduBuffer, tx: PduBuffer) returns (res: byte)
      requires Ready(rx, tx) && Legible(h, Dev(), rx.data[..], rx.size, tx.maxSize, tx.data.Length)
      modifies regs`holdings, coils`coils, files`files, rx.data, tx, tx.data
      ensures Valid() && tx.Valid() && tx.maxSize == old(tx.maxSize)
      ensures var spec := Invoke(h, old(Dev()), rx.func, old(rx.data[..]), rx.size, old(tx.maxSize));
              res == spec.code && Dev() == spec.dev && (res == 0 ==> tx.Value() == spec.reply)
    {
      if h.ReadRegs? || h.WriteReg? || h.WriteRegs? || h.MaskReg? || h.ReadWriteRegs? {
        res := CallRegisters(h, rx, tx);
      } else {
        res := CallOther(h, rx, tx);
      }
    }

    method CallRegisters(h: Handler, rx: PduBuffer, tx: PduBuffer) returns (res: byte)
      requires Ready(rx, tx) && (h.ReadRegs? || h.WriteReg? || h.WriteRegs? || h.MaskReg? || h.ReadWriteRegs?)
      modifies regs`holdings, rx.data, tx, tx.data
      ensures Valid() && tx.Valid() && tx.maxSize == old(tx.maxSize)
      ensures var spec := Invoke(h, old(Dev()), rx.func, old(rx.data[..]), rx.size, old(tx.maxSize));
              res == spec.code && Dev() == spec.dev && (res == 0 ==> tx.Value() == spec.reply)
    {
      match h {
        case ReadRegs => res := regs.SrvReadRegs(rx, tx);
        case WriteReg => res := regs.SrvWriteReg(rx, tx);
        case WriteRegs => res := regs.SrvWriteRegs(rx, tx);
        case MaskReg => res := regs.SrvMaskReg(rx, tx);
        case ReadWriteRegs => res := regs.SrvReadWriteRegs(rx, tx);
      }
    }

    method CallOther(h: Handler, rx: PduBuffer, tx: PduBuffer) returns (res: byte)
      requires Ready(rx, tx) && Legible(h, Dev(), rx.data[..], rx.size, tx.maxSize, tx.data.Length)
      requires h.ReadBits? || h.WriteCoil? || h.WriteCoils? || h.ReadFile? || h.WriteFile? || h.ReadFifo?
      modifies coils`coils, files`files, rx.data, tx, tx.data
      ensures Valid() && tx.Valid() && tx.maxSize == old(tx.maxSize)
      ensures var spec := Invoke(h, old(Dev()), rx.func, old(rx.data[..]), rx.size, old(tx.maxSize));
              res == spec.code && Dev() == spec.dev && (res == 0 ==> tx.Value() == spec.reply)
    {
      match h {
        case ReadBits => res := coils.SrvReadBits(rx, tx);
        case WriteCoil => res := coils.SrvWriteCoil(rx, tx);
        case WriteCoils => res := coils.SrvWriteCoils(rx, tx);
        case ReadFile => res := FileRead.SrvReadFile(files, rx, tx);
        case WriteFile =>
          ghost var turns;
          res, turns := FileWrite.SrvWriteFile(files, rx, tx);
        case ReadFifo =>
          Fifo.HeldIgnored(fifo, rx.data[..], tx.maxSize, tx.data[..], Unheld());
          res := Fifo.SrvReadFifo(fifo, rx, tx);
      }
    }
  }

  function Addresses(servers: seq<ServerObject>): (addrs: seq<byte>)
    ensures |addrs| == |servers| && forall i :: 0 <= i < |servers| ==> addrs[i] == servers[i].addr
  {
    seq(|servers|, i requires 0 <= i < |servers| => servers[i].addr)
  }

  function Lookup(servers: seq<ServerObject>, addr: byte): (k: Option<nat>)
    ensures k.Some? ==> k.value < |servers|
  {
    IndexOf(Addresses(servers), addr, 0)
  }

  ghost function Values(servers: seq<ServerObject>): (r: seq<Site>)
    reads servers, set s | s in servers :: s.regs
    reads set s | s in servers :: s.coils, set s | s in servers :: s.files
    ensures |r| == |servers| && forall i :: 0 <= i < |r| ==> r[i] == servers[i].Value()
  {
    if servers == [] then [] else Values(servers[..|servers| - 1]) + [servers[|servers| - 1].Value()]
  }

  lemma LookupIsSiteOf(servers: seq<ServerObject>, sites: seq<Site>, addr: byte)
    requires |sites| == |servers| && forall i :: 0 <= i < |sites| ==> sites[i].addr == servers[i].addr
    ensures Lookup(servers, addr) == SiteOf(sites, addr)
  {
    assert Addresses(servers) == seq(|sites|, i requires 0 <= i < |sites| => sites[i].addr);
  }

  class SuperServer {
    const rx: PduBuffer
    const tx: PduBuffer
    const hasGetServer: bool
    var servers: seq<ServerObject>
    var log: seq<Event>

    // The server a request goes to: null when there is no get_server, or it finds none.
    function Target(addr: byte): (s: ServerObject?)
      reads this
    {
      if !hasGetServer || Lookup(servers, addr).None? then null else servers[Lookup(servers, addr).value]
    }

    // What a request to an address may change besides this object and the buffers.
    ghost function Stores(addr: byte): set<object>
      reads this
    {
      var s := Target(addr);
      if s == null then {} else {s.regs, s.coils, s.files}
    }

    // No two servers share what they serve.
    ghost predicate Separate()
      reads this
    {
      forall i, j :: 0 <= i < j < |servers| ==>
        servers[i].regs != servers[j].regs && servers[i].coils != servers[j].coils && servers[i].files != servers[j].files
    }

    // The servers as values; without a get_server there are none.
    ghost function Sites(): seq<Site>
      reads this, servers, set s | s in servers :: s.regs
      reads set s | s in servers :: s.coils, set s | s in servers :: s.files
    {
      if hasGetServer then Values(servers) else []
    }

    constructor (rx: PduBuffer, tx: PduBuffer, hasGetServer: bool)
      ensures this.rx == rx && this.tx == tx && this.hasGetServer == hasGetServer && servers == [] && log == []
    {
      this.rx, this.tx, this.hasGetServer := rx, tx, hasGetServer;
      servers, log := [], [];
    }

    // super_server_t::add_server
    method AddServer(s: ServerObject) returns (added: bool)
      requires forall i, j :: 0 <= i < j < |servers| ==> servers[i].addr != servers[j].addr
      modifies this`servers
      ensures forall i, j :: 0 <= i < j < |servers| ==> servers[i].addr != servers[j].addr
      ensures added <==> forall t :: t in old(servers) ==> t.addr != s.addr
      ensures servers == if added then old(servers) + [s] else old(servers)
    {
      var i := 0;
      while i < |servers|
        invariant 0 <= i <= |servers|
        invariant forall k :: 0 <= k < i ==> servers[k].addr != s.addr
      {
        if servers[i].addr == s.addr {
          return false;
        }
        i := i + 1;
      }
      servers := servers + [s];
      added := true;
    }

    // super_server_t::_get_server
    method GetServer(addr: byte) returns (s: ServerObject?)
      ensures s == if Lookup(servers, addr).None? then null else servers[Lookup(servers, addr).value]
    {
      var i := 0;
      while i < |servers|
        invariant 0 <= i <= |servers|
        invariant Lookup(servers, addr) == IndexOf(Addresses(servers), addr, i)
      {
        if servers[i].addr == addr {
          return servers[i];
        }
        i := i + 1;
      }
      s := null;
    }

    // What a request must find: the receive storage of a PDU, and a server that can read it.
    ghost predicate Expects(addr: byte)
      reads *
    {
      && Separate() && (forall i :: 0 <= i < |servers| ==> servers[i].Valid())
      && rx != tx && rx.data != tx.data && rx.Valid() && Received(rx.data[..], rx.size)
      && tx.Valid() && tx.data.Length >= MAX_PDU_DATA_SIZE && tx.maxSize >= 1
      && (Target(addr) != null ==>
            Target(addr).Understands(rx, tx))
    }

    // emb_super_server_on_receive_req
    method OnReceiveReq(addr: byte)
      requires Expects(addr)
      modifies this`log, rx.data, tx, tx.data, Stores(addr)
      ensures rx.Valid() && tx.Valid() && tx.maxSize == old(tx.maxSize)
      ensures forall i :: 0 <= i < |servers| ==> servers[i].Valid()
      ensures AllSound(old(Sites()))
      ensures var m := Message(addr, rx.func, old(rx.data[..]), rx.size);
              var (sites, events) := React(old(Sites()), m, old(tx.maxSize));
              Sites() == sites && log == old(log) + events
    {
      hide Answer, Reaction, React, Lookup, SiteOf, Invoke, Values, AllSound, Legible, GetFunction;
      ghost var before, m, txMax := Sites(), Message(addr, rx.func, rx.data[..], rx.size), tx.maxSize;
      SitesSound();
      ghost var k := SiteOf(before, addr);
      if hasGetServer {
        LookupIsSiteOf(servers, before, addr);
      }
      Respond(addr);
      ghost var after := Sites();
      if k.None? {
        assert after == before;
        NobodyReacts(before, m, txMax);
      } else {
        OthersStay(k.value);
        SiteReacts(before, m, txMax, after);
      }
    }

    // Servers that share nothing with the one at k are what they were.
    twostate lemma OthersStay(k: nat)
      requires hasGetServer && k < |old(servers)| && servers == old(servers) && old(Separate())
      requires forall i :: 0 <= i < |servers| ==> unchanged(servers[i])
      requires forall i :: 0 <= i < |servers| && servers[i].regs != servers[k].regs ==> unchanged(servers[i].regs)
      requires forall i :: 0 <= i < |servers| && servers[i].coils != servers[k].coils ==> unchanged(servers[i].coils)
      requires forall i :: 0 <= i < |servers| && servers[i].files != servers[k].files ==> unchanged(servers[i].files)
      ensures forall i :: 0 <= i < |servers| && i != k ==> Sites()[i] == old(Sites()[i])
      ensures forall i :: 0 <= i < |servers| && i != k && old(servers[i].Valid()) ==> servers[i].Valid()
    {
      forall i | 0 <= i < |servers| && i != k
        ensures Sites()[i] == old(Sites()[i]) && (old(servers[i].Valid()) ==> servers[i].Valid())
      {
        if i < k {
          assert servers[i].regs != servers[k].regs;
        } else {
          assert servers[k].regs != servers[i].regs;
        }
      }
    }

    lemma SitesSound()
      requires forall i :: 0 <= i < |servers| ==> servers[i].Valid()
      ensures AllSound(Sites())
    {
      var sites := Sites();
      forall i | 0 <= i < |sites| ensures sites[i].dev.Valid() {
        assert servers[i].Valid();
      }
    }

    // The same for the server alone that is addressed.
    method Respond(addr: byte)
      requires rx.Valid() && tx.Valid() && rx != tx && rx.data != tx.data
      requires Target(addr) != null ==>
                 var s := Target(addr); s.Ready(rx, tx) && tx.maxSize >= 1 && s.Understands(rx, tx)
      modifies this`log, rx.data, tx, tx.data, Stores(addr)
      ensures rx.Valid() && tx.Valid() && tx.maxSize == old(tx.maxSize)
      ensures Target(addr) == null ==>
                && log == old(log) + [ReceivePkt, NoServer]
                && tx.Value() == old(tx.Value()) && rx.data[..] == old(rx.data[..])
      ensures Target(addr) != null ==>
                && var s := Target(addr);
                && var spec := Answer(old(s.functions), old(s.Dev()), rx.func, old(rx.data[..]), rx.size, old(tx.maxSize));
                && s.Valid() && s.Dev() == spec.dev && tx.Value() == spec.reply
                && log == old(log) + ([ReceivePkt] + Reaction(s.broadcast, addr, spec))
    {
      log := log + [ReceivePkt];
      if !hasGetServer {
        log := log + [NoServer];
        return;
      }
      var s := GetServer(addr);
      if s == null {
        log := log + [NoServer];
        return;
      }
      Serve(s);
      if !s.broadcast {
        log := log + [Sent(addr, Pdu(tx.func, tx.data[..tx.size])), ResponseSent];
      }
    }

    // The handler, or an exception.
    method Serve(s: ServerObject)
      requires s.Ready(rx, tx) && tx.maxSize >= 1
      requires s.Understands(rx, tx)
      modifies this`log, rx.data, tx, tx.data, s.regs, s.coils, s.files
      ensures var spec := Answer(old(s.functions), old(s.Dev()), rx.func, old(rx.data[..]), rx.size, old(tx.maxSize));
              && s.Valid() && s.Dev() == spec.dev && tx.Valid() && tx.maxSize == old(tx.maxSize) && tx.Value() == spec.reply
              && log == old(log) + if spec.code != 0 then [Exception(spec.code)] else []
    {
      hide Invoke;
      if s.functions.None? {
        Refuse(MBE_ILLEGAL_FUNCTION);
        return;
      }
      var f := GetFunction(s.functions.value, rx.func);
      if f.None? {
        Refuse(MBE_ILLEGAL_FUNCTION);
        return;
      }
      var res := s.CallHandler(f.value, rx, tx);
      if res != 0 {
        Refuse(res);
      }
    }

    method Refuse(code: byte)
      requires tx.Valid() && tx.maxSize >= 1 && rx != tx
      modifies this`log, tx, tx.data
      ensures tx.Valid() && tx.maxSize == old(tx.maxSize) && tx.Value() == ExceptionPdu(rx.func, code)
      ensures log == old(log) + [Exception(code)]
    {
      var r := BuildException(tx, rx.func, code);
      log := log + [Exception(code)];
    }
  }
}
