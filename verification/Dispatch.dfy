/** What a client can rely on when its request is dispatched: one reply, recognisable by
    its function, with the handler's error in it, and no half-done work behind an error. */
module Dispatch {
  import opened Words
  import opened Pdus
  import opened Registry
  import opened Cells
  import opened Server
  import ServerRegs
  import MaskBits
  import Bits
  import FileWrite
  import FileRead
  import Fifo
  import Client

  // The function codes a handler is written for.
  predicate Home(h: Handler, func: byte) {
    match h
    case ReadBits => func == 0x01 || func == 0x02
    case WriteCoil => func == 0x05
    case WriteCoils => func == 0x0F
    case ReadRegs => func == 0x03 || func == 0x04
    case WriteReg => func == 0x06
    case WriteRegs => func == 0x10
    case MaskReg => func == 0x16
    case ReadWriteRegs => func == 0x17
    case ReadFile => func == 0x14
    case WriteFile => func == 0x15
    case ReadFifo => func == 0x18
  }

  // Each handler is registered at its own code (server_test.cpp:241-256).
  predicate OwnCodes(table: Table) {
    forall f: byte :: f as int < |table| && table[f].Some? ==> Home(table[f].value, f)
  }

  // So is the handler of this function, if there is one.
  predicate HomeAt(table: Table, func: byte) {
    GetFunction(table, func).Some? ==> Home(GetFunction(table, func).value, func)
  }

  // ----- one reply

  function Replies(log: seq<Event>): seq<(byte, Pdu)> {
    if log == [] then []
    else
      var e := log[|log| - 1];
      Replies(log[..|log| - 1]) + (if e.Sent? then [(e.addr, e.pdu)] else [])
  }

  lemma {:induction false} RepliesAppend(a: seq<Event>, b: seq<Event>)
    ensures Replies(a + b) == Replies(a) + Replies(b)
  {
    if b == [] {
      assert a + b == a;
    } else {
      var n := |b| - 1;
      assert (a + b)[..|a + b| - 1] == a + b[..n];
      RepliesAppend(a, b[..n]);
    }
  }

  // The reaction to one request holds at most one reply.
  lemma ReactionReplies(broadcast: bool, addr: byte, r: Served)
    ensures Replies([ReceivePkt] + Reaction(broadcast, addr, r)) == if broadcast then [] else [(addr, r.reply)]
    ensures Replies([ReceivePkt, NoServer]) == []
  {
    var start := [ReceivePkt] + (if r.code != 0 then [Exception(r.code)] else []);
    assert Replies(start) == [] by {
      assert Replies([ReceivePkt]) == [];
      if r.code != 0 {
        assert start[..1] == [ReceivePkt];
      }
    }
    assert [ReceivePkt, NoServer][..1] == [ReceivePkt];
    var log := [ReceivePkt] + Reaction(broadcast, addr, r);
    if broadcast {
      assert log == start;
    } else {
      assert log[..|log| - 1] == start + [Sent(addr, r.reply)];
      assert log[..|log| - 1][..|log| - 2] == start;
    }
  }

  // ----- any number of requests

  predicate AllReceived(ms: seq<Message>) { forall i :: 0 <= i < |ms| ==> Received(ms[i].d, ms[i].size) }

  // The requests, one after the other: the servers afterwards, and all events.
  function Requests(sites: seq<Site>, ms: seq<Message>, txMax: byte): (seq<Site>, seq<Event>)
    requires AllSound(sites) && AllReceived(ms)
    decreases |ms|
  {
    if ms == [] then (sites, [])
    else
      var (between, first) := React(sites, ms[0], txMax);
      var (after, rest) := Requests(between, ms[1..], txMax);
      (after, first + rest)
  }

  lemma {:induction false} RequestsAppend(sites: seq<Site>, ms: seq<Message>, m: Message, txMax: byte)
    requires AllSound(sites) && AllReceived(ms) && Received(m.d, m.size)
    ensures AllReceived(ms + [m]) && AllSound(Requests(sites, ms, txMax).0)
    ensures var (between, before) := Requests(sites, ms, txMax);
            var (after, last) := React(between, m, txMax);
            Requests(sites, ms + [m], txMax) == (after, before + last)
    decreases |ms|
  {
    hide React;
    if ms == [] {
      assert ms + [m] == [m] && [m][1..] == [];
      var (after, last) := React(sites, m, txMax);
      assert last + [] == last && [] + last == last;
    } else {
      var (between, first) := React(sites, ms[0], txMax);
      assert (ms + [m])[1..] == ms[1..] + [m];
      RequestsAppend(between, ms[1..], m, txMax);
      var (end, rest) := Requests(between, ms[1..], txMax);
      var (after, last) := React(end, m, txMax);
      assert first + (rest + last) == first + rest + last;
    }
  }

  // ----- the object, over any number of packets

  // What the transport delivers.
  datatype Packet = Packet(addr: byte, func: byte, data: seq<byte>)

  // A packet that its handler can read whatever the device holds and the receive storage held.
  ghost predicate Clear(h: Handler, data: seq<byte>, rxRoom: nat, txMax: byte, txRoom: nat) {
    |data| <= 0xFF &&
    forall dev: Device, stale: seq<byte> :: dev.Valid() && |data + stale| == rxRoom ==>
      Legible(h, dev, data + stale, |data|, txMax, txRoom)
  }

  // Every server that handles its function does.
  ghost predicate ClearToAll(ss: SuperServer, p: Packet, rxRoom: nat, txMax: byte, txRoom: nat)
    reads ss`servers, ss.servers
  {
    && |p.data| <= 0xFF && |p.data| <= rxRoom
    && forall i :: 0 <= i < |ss.servers| && ss.servers[i].functions.Some? &&
                   GetFunction(ss.servers[i].functions.value, p.func).Some? ==>
         Clear(GetFunction(ss.servers[i].functions.value, p.func).value, p.data, rxRoom, txMax, txRoom)
  }

  ghost predicate Manageable(ss: SuperServer, p: Packet)
    reads ss, ss.servers, ss.rx, ss.tx
  {
    ClearToAll(ss, p, ss.rx.data.Length, ss.tx.maxSize, ss.tx.data.Length)
  }

  ghost predicate Working(ss: SuperServer)
    reads ss, ss.rx, ss.tx
    reads set s | s in ss.servers :: s.regs, set s | s in ss.servers :: s.coils
  {
    && ss.Separate() && (forall i :: 0 <= i < |ss.servers| ==> ss.servers[i].Valid())
    && ss.rx != ss.tx && ss.rx.data != ss.tx.data && ss.rx.Valid() && ss.tx.Valid() && ss.tx.maxSize >= 1
    && ss.rx.data.Length >= MAX_PDU_DATA_SIZE && ss.tx.data.Length >= MAX_PDU_DATA_SIZE
  }

  // The message a packet becomes in the receive storage.
  predicate Carries(m: Message, p: Packet) {
    m.addr == p.addr && m.func == p.func && m.size as int == |p.data| <= |m.d| && m.d[..m.size] == p.data
  }

  lemma DeviceIsValid(s: ServerObject)
    requires s.Valid()
    ensures s.Dev().Valid()
  {
  }

  lemma CanRead(h: Handler, data: seq<byte>, stale: seq<byte>, dev: Device, rxRoom: nat, txMax: byte, txRoom: nat)
    requires Clear(h, data, rxRoom, txMax, txRoom) && dev.Valid() && |data + stale| == rxRoom
    ensures Legible(h, dev, data + stale, |data|, txMax, txRoom)
  {
    hide Legible;
  }

  // The transport stores a packet in the receive PDU, in front of what was there.
  method StorePacket(ss: SuperServer, p: Packet) returns (ghost stale: seq<byte>)
    requires Working(ss) && Manageable(ss, p)
    modifies ss.rx`func, ss.rx`size, ss.rx.data
    ensures Working(ss) && Manageable(ss, p) && ss.Sites() == old(ss.Sites())
    ensures ss.rx.func == p.func && ss.rx.size as int == |p.data| && ss.rx.data[..] == p.data + stale
  {
    hide ClearToAll, Values;
    ManageableFits(ss, p);
    ss.rx.func, ss.rx.size := p.func, |p.data|;
    forall i | 0 <= i < |p.data| {
      ss.rx.data[i] := p.data[i];
    }
    stale := ss.rx.data[|p.data|..];
  }

  lemma ManageableFits(ss: SuperServer, p: Packet)
    requires Manageable(ss, p)
    ensures |p.data| <= 0xFF && |p.data| <= ss.rx.data.Length
  {
  }

  method LoadPacket(ss: SuperServer, p: Packet) returns (ghost m: Message)
    requires Working(ss) && Manageable(ss, p)
    modifies ss.rx`func, ss.rx`size, ss.rx.data
    ensures Working(ss) && Manageable(ss, p) && ss.Sites() == old(ss.Sites())
    ensures m == Message(p.addr, ss.rx.func, ss.rx.data[..], ss.rx.size) && Carries(m, p) && Received(m.d, m.size)
    ensures ss.Expects(p.addr)
  {
    hide Clear, Lookup, Values, Legible;
    ghost var stale := StorePacket(ss, p);
    m := Message(p.addr, p.func, ss.rx.data[..], ss.rx.size);
    ghost var s := ss.Target(p.addr);
    if s != null {
      assert s == ss.servers[Lookup(ss.servers, p.addr).value] && s.Valid();
      DeviceIsValid(s);
      if s.functions.Some? && GetFunction(s.functions.value, p.func).Some? {
        CanRead(GetFunction(s.functions.value, p.func).value, p.data, stale, s.Dev(), ss.rx.data.Length, ss.tx.maxSize,
                ss.tx.data.Length);
      }
    }
  }

  // One packet: stored in the receive PDU, and handed over.
  method ServePacket(ss: SuperServer, p: Packet) returns (ghost m: Message)
    requires Working(ss) && Manageable(ss, p)
    modifies ss`log, ss.rx`func, ss.rx`size, ss.rx.data, ss.tx, ss.tx.data
    modifies set s | s in ss.servers :: s.regs, set s | s in ss.servers :: s.coils, set s | s in ss.servers :: s.files
    ensures Working(ss) && ss.tx.maxSize == old(ss.tx.maxSize)
    ensures AllSound(old(ss.Sites())) && Carries(m, p) && Received(m.d, m.size)
    ensures var (sites, events) := React(old(ss.Sites()), m, ss.tx.maxSize);
            ss.Sites() == sites && ss.log == old(ss.log) + events
  {
    hide React, Legible, ClearToAll, Carries, Values, Lookup;
    m := LoadPacket(ss, p);
    ss.OnReceiveReq(p.addr);
  }

  // Any number of packets: the servers and the log are those of the run over the messages they become.
  method ServePackets(ss: SuperServer, packets: seq<Packet>) returns (ghost ms: seq<Message>)
    requires Working(ss) && forall i :: 0 <= i < |packets| ==> Manageable(ss, packets[i])
    modifies ss`log, ss.rx`func, ss.rx`size, ss.rx.data, ss.tx, ss.tx.data
    modifies set s | s in ss.servers :: s.regs, set s | s in ss.servers :: s.coils, set s | s in ss.servers :: s.files
    ensures Working(ss) && ss.tx.maxSize == old(ss.tx.maxSize)
    ensures |ms| == |packets| && AllReceived(ms) && forall i :: 0 <= i < |ms| ==> Carries(ms[i], packets[i])
    ensures AllSound(old(ss.Sites()))
    ensures var (sites, events) := Requests(old(ss.Sites()), ms, ss.tx.maxSize);
            ss.Sites() == sites && ss.log == old(ss.log) + events
  {
    hide React, Working, ClearToAll, Carries, Received, Values, AllSound;
    ms := [];
    ghost var start, log, txMax := ss.Sites(), ss.log, ss.tx.maxSize;
    SoundStart(ss);
    assert log + [] == log;
    var i := 0;
    while i < |packets|
      invariant 0 <= i <= |packets| && |ms| == i && AllReceived(ms)
      invariant Working(ss) && ss.tx.maxSize == txMax
      invariant forall k :: 0 <= k < |packets| ==> Manageable(ss, packets[k])
      invariant forall k :: 0 <= k < i ==> Carries(ms[k], packets[k])
      invariant ss.Sites() == Requests(start, ms, txMax).0
      invariant ss.log == log + Requests(start, ms, txMax).1
    {
      hide Requests;
      ghost var m := ServePacket(ss, packets[i]);
      RequestsAppend(start, ms, m, txMax);
      ms := ms + [m];
      i := i + 1;
    }
  }

  lemma SoundStart(ss: SuperServer)
    requires Working(ss)
    ensures AllSound(ss.Sites())
  {
    ss.SitesSound();
  }

  // The request goes to a server that answers.
  predicate Answerable(sites: seq<Site>, m: Message) {
    var k := SiteOf(sites, m.addr);
    k.Some? && !sites[k.value].broadcast
  }

  function Due(sites: seq<Site>, ms: seq<Message>): seq<Message>
    decreases |ms|
  {
    if ms == [] then [] else (if Answerable(sites, ms[0]) then [ms[0]] else []) + Due(sites, ms[1..])
  }

  ghost predicate SameFront(x: seq<Site>, y: seq<Site>) {
    |x| == |y| && forall i :: 0 <= i < |x| ==> y[i] == x[i].(dev := y[i].dev)
  }

  lemma SameFrontSite(x: seq<Site>, y: seq<Site>, addr: byte)
    requires SameFront(x, y)
    ensures SiteOf(x, addr) == SiteOf(y, addr)
  {
    var i, j := SiteOf(x, addr), SiteOf(y, addr);
    assert forall k :: 0 <= k < |x| ==> y[k].addr == x[k].addr;
  }

  lemma {:induction false} SameFrontDue(x: seq<Site>, y: seq<Site>, ms: seq<Message>)
    requires SameFront(x, y)
    ensures Due(x, ms) == Due(y, ms)
    decreases |ms|
  {
    if ms != [] {
      SameFrontSite(x, y, ms[0].addr);
      SameFrontDue(x, y, ms[1..]);
    }
  }

  // Handlers are registered at their own codes in every server.
  predicate AllHome(sites: seq<Site>) {
    forall i :: 0 <= i < |sites| && sites[i].table.Some? ==> OwnCodes(sites[i].table.value)
  }

  // The reply to a request: to its address, with its function, or that function marked as an exception.
  predicate IsReplyTo(reply: (byte, Pdu), m: Message, home: bool) {
    reply.0 == m.addr && (home ==> reply.1.func == m.func || reply.1.func == WithHighBit(m.func))
  }

  lemma ReactReplies(sites: seq<Site>, m: Message, txMax: byte)
    requires AllSound(sites) && Received(m.d, m.size)
    ensures var rs := Replies(React(sites, m, txMax).1);
            if Answerable(sites, m) then |rs| == 1 && IsReplyTo(rs[0], m, AllHome(sites)) else rs == []
  {
    hide Invoke, Replies, Reaction;
    var k := SiteOf(sites, m.addr);
    if k.Some? {
      var s := sites[k.value];
      var r := Answer(s.table, s.dev, m.func, m.d, m.size, txMax);
      ReactionReplies(s.broadcast, m.addr, r);
      if AllHome(sites) && r.code == 0 {
        ReplyFunction(GetFunction(s.table.value, m.func).value, s.dev, m.func, m.d, m.size, txMax);
      }
    } else {
      ReactionReplies(true, 0, Served(0, Device(None, None, None, None, None, None), Pdu(0, [])));
    }
  }

  // Over any sequence of requests, exactly those to a known server that is not a broadcast server
  // are answered, each once, in order, to the address they came for and with their function.
  lemma {:induction false} OneReplyEach(sites: seq<Site>, ms: seq<Message>, txMax: byte)
    requires AllSound(sites) && AllReceived(ms)
    ensures var rs, due := Replies(Requests(sites, ms, txMax).1), Due(sites, ms);
            |rs| == |due| && forall i :: 0 <= i < |rs| ==> IsReplyTo(rs[i], due[i], AllHome(sites))
    decreases |ms|
  {
    hide React, Replies, IsReplyTo, Answerable;
    if ms == [] {
      NoReplies();
    } else {
      var (between, first) := React(sites, ms[0], txMax);
      var (after, rest) := Requests(between, ms[1..], txMax);
      ReactReplies(sites, ms[0], txMax);
      RepliesAppend(first, rest);
      SameFrontDue(sites, between, ms[1..]);
      SameHome(sites, between);
      OneReplyEach(between, ms[1..], txMax);
    }
  }

  lemma NoReplies()
    ensures Replies([]) == []
  {
  }

  lemma SameHome(x: seq<Site>, y: seq<Site>)
    requires SameFront(x, y)
    ensures AllHome(x) == AllHome(y)
  {
    hide OwnCodes;
    assert forall i :: 0 <= i < |x| ==> x[i].table == y[i].table;
  }

  // ----- what the reply tells the client

  // A handler's reply bears the request's function exactly when the handler is at home there.
  lemma ReplyFunction(h: Handler, dev: Device, func: byte, d: seq<byte>, size: byte, txMax: byte)
    requires dev.Valid() && Received(d, size) && Invoke(h, dev, func, d, size, txMax).code == 0
    ensures Invoke(h, dev, func, d, size, txMax).reply.func == func <==> Home(h, func)
    ensures func < 0x80 ==> Invoke(h, dev, func, d, size, txMax).reply.func < 0x80
  {
    hide Locate, Written, PutWords, GetWords, MaskBits.Masked, FileWrite.Loop, FileRead.Loop, Bits.Pack;
  }

  // The client takes the reply as its answer, or as the error -(1500+code); only a handler away
  // from home makes it report a wrong function.
  lemma ClientVerdict(table: Table, dev: Device, addr: byte, req: Pdu, d: seq<byte>, size: byte, txMax: byte, stale: byte)
    requires dev.Valid() && Received(d, size) && req.func < 0x80
    ensures var r := Answer(Some(table), dev, req.func, d, size, txMax);
            Client.Assess(addr, req, addr, r.reply, stale) ==
              if r.code != 0 then -(1500 + r.code)
              else if Home(GetFunction(table, req.func).value, req.func) then 0
              else -RESP_WRONG_FUNC
  {
    hide Invoke;
    var r := Answer(Some(table), dev, req.func, d, size, txMax);
    if r.code == 0 {
      ReplyFunction(GetFunction(table, req.func).value, dev, req.func, d, size, txMax);
    }
  }

  // With every handler at home, an error is told by its code, success by the function; never a wrong function.
  lemma NeverWrongFunction(table: Table, dev: Device, addr: byte, req: Pdu, d: seq<byte>, size: byte, txMax: byte, stale: byte)
    requires dev.Valid() && Received(d, size) && req.func < 0x80 && OwnCodes(table)
    ensures var r := Answer(Some(table), dev, req.func, d, size, txMax);
            && Client.Assess(addr, req, addr, r.reply, stale) == (if r.code != 0 then -(1500 + r.code) else 0)
            && r.reply.func == (if r.code != 0 then req.func + 0x80 else req.func)
  {
    hide Invoke;
    ClientVerdict(table, dev, addr, req, d, size, txMax, stale);
    var r := Answer(Some(table), dev, req.func, d, size, txMax);
    if r.code == 0 {
      ReplyFunction(GetFunction(table, req.func).value, dev, req.func, d, size, txMax);
    }
  }

  // ----- what an exception leaves behind

  // The register handlers that may store and then refuse: 0x06 and 0x16 when the reply has no room,
  // 0x17 when the range to be read refuses.
  predicate HalfDone(h: Handler, blocks: seq<Block<word>>, d: seq<byte>, txMax: byte)
    requires Pdus.Storage(d) && AllValid(blocks)
  {
    var k := Locate(blocks, Get16(d, 0), 1);
    match h
    case WriteReg => k.Some? && blocks[k.value].write == Answers(0) && txMax < 4
    case MaskReg => k.Some? && blocks[k.value].read == Answers(0) && blocks[k.value].write == Answers(0) && txMax < 6
    case ReadWriteRegs =>
      var rd, wr := Locate(blocks, Get16(d, 0), Get16(d, 2)), Locate(blocks, Get16(d, 4), Get16(d, 6));
      && 1 <= Get16(d, 2) <= 0x7D && 1 <= Get16(d, 6) <= 0x79 && d[8] == 2 * Get16(d, 6)
      && wr.Some? && blocks[wr.value].write == Answers(0)
      && rd.Some? && blocks[rd.value].read.Answers? && blocks[rd.value].read.code != 0
      && 1 + 2 * Get16(d, 2) as int <= txMax as int
    case _ => false
  }

  // What they store.
  function Effect(h: Handler, blocks: seq<Block<word>>, d: seq<byte>, txMax: byte): seq<Block<word>>
    requires Pdus.Storage(d) && AllValid(blocks) && HalfDone(h, blocks, d, txMax)
  {
    var k := Locate(blocks, Get16(d, 0), 1).value;
    match h
    case WriteReg => Written(blocks, k, Get16(d, 0) - blocks[k].start, [Get16(d, 2)])
    case MaskReg =>
      var offset := Get16(d, 0) - blocks[k].start;
      Written(blocks, k, offset, [MaskBits.Masked(blocks[k].cells[offset], Get16(d, 2), Get16(d, 4))])
    case ReadWriteRegs =>
      var wr := Locate(blocks, Get16(d, 4), Get16(d, 6)).value;
      Written(blocks, wr, Get16(d, 4) - blocks[wr].start, GetWords(d, 9, Get16(d, 6)))
    case _ => blocks
  }

  // The code that half-done work is reported with.
  function HalfDoneCode(h: Handler, blocks: seq<Block<word>>, d: seq<byte>, txMax: byte): byte
    requires Pdus.Storage(d) && AllValid(blocks) && HalfDone(h, blocks, d, txMax)
  {
    if h.ReadWriteRegs? then blocks[Locate(blocks, Get16(d, 0), Get16(d, 2)).value].read.code else MBE_SLAVE_FAILURE
  }

  // Half-done work is reported with its code; any other exception of these handlers leaves the registers alone.
  lemma WriteLeaves(blocks: seq<Block<word>>, d: seq<byte>, txMax: byte)
    requires Pdus.Storage(d) && AllValid(blocks)
    ensures var r := ServerRegs.WriteReg(blocks, d, txMax);
            if HalfDone(WriteReg, blocks, d, txMax) then
              r.code == HalfDoneCode(WriteReg, blocks, d, txMax) && r.holdings == Effect(WriteReg, blocks, d, txMax)
            else r.code != 0 ==> r.holdings == blocks
  {
    hide Locate, PutWords;
  }

  lemma MaskLeaves(blocks: seq<Block<word>>, d: seq<byte>, txMax: byte)
    requires Pdus.Storage(d) && AllValid(blocks)
    ensures var r := ServerRegs.MaskReg(blocks, d, txMax);
            if HalfDone(MaskReg, blocks, d, txMax) then
              r.code == HalfDoneCode(MaskReg, blocks, d, txMax) && r.holdings == Effect(MaskReg, blocks, d, txMax)
            else r.code != 0 ==> r.holdings == blocks
  {
    hide Locate, PutWords, MaskBits.Masked;
  }

  lemma ExchangeLeaves(blocks: seq<Block<word>>, d: seq<byte>, txMax: byte)
    requires Pdus.Storage(d) && AllValid(blocks)
    ensures var r := ServerRegs.ReadWriteRegs(blocks, d, txMax);
            if HalfDone(ReadWriteRegs, blocks, d, txMax) then
              r.code == HalfDoneCode(ReadWriteRegs, blocks, d, txMax) && r.holdings == Effect(ReadWriteRegs, blocks, d, txMax)
            else r.code != 0 ==> r.holdings == blocks
  {
    hide Locate, PutWords, GetWords;
  }

  // An exception of any handler but the file writer leaves the device as it was, except for exactly the half-done work.
  lemma ExceptionLeaves(h: Handler, dev: Device, func: byte, d: seq<byte>, size: byte, txMax: byte)
    requires dev.Valid() && Received(d, size) && !h.WriteFile?
    ensures var r := Invoke(h, dev, func, d, size, txMax);
            if dev.holdings.Some? && HalfDone(h, dev.holdings.value, d, txMax) then
              && r.code == HalfDoneCode(h, dev.holdings.value, d, txMax) != 0
              && r.dev == dev.(holdings := Some(Effect(h, dev.holdings.value, d, txMax)))
            else r.code != 0 ==> r.dev == dev
  {
    hide HalfDone, Effect, HalfDoneCode, ServerRegs.ReadRegs, ServerRegs.WriteReg, ServerRegs.MaskReg,
         ServerRegs.ReadWriteRegs, Locate, PutWords, GetWords, FileRead.Loop, Fifo.Handle, Bits.Pack, Bits.Unpack;
    var blocks := GetterOf(dev.holdings);
    match h {
      case WriteReg => WriteLeaves(blocks, d, txMax);
      case MaskReg => MaskLeaves(blocks, d, txMax);
      case ReadWriteRegs => ExchangeLeaves(blocks, d, txMax);
      case _ =>
    }
    CodeIsOne(h, dev, d, txMax);
  }

  lemma CodeIsOne(h: Handler, dev: Device, d: seq<byte>, txMax: byte)
    requires dev.Valid() && Pdus.Storage(d)
    ensures dev.holdings.Some? && HalfDone(h, dev.holdings.value, d, txMax) ==>
              && (h.WriteReg? || h.MaskReg? || h.ReadWriteRegs?)
              && HalfDoneCode(h, dev.holdings.value, d, txMax) != 0
  {
    hide Locate;
  }

  // 0x17 with two blocks of one register, the second refusing to be read: code 04, and the first was written.
  lemma RefusedReadWrites(old0: word, old1: word, h: byte, l: byte, stale: seq<byte>, txMax: byte)
    requires |stale| >= MAX_PDU_DATA_SIZE && txMax >= 3
    ensures var a := Block(0, 1, Answers(0), Answers(0), [old0]);
            var b := Block(1, 1, Answers(4), Answers(0), [old1]);
            var d := [0, 1, 0, 1, 0, 0, 0, 1, 2, h, l] + stale;
            && Pdus.Storage(d) && AllValid([a, b])
            && var r := ServerRegs.ReadWriteRegs([a, b], d, txMax);
            && r.code == 4 && r.holdings == [a.(cells := [Mk(h, l)]), b]
  {
    var a := Block(0, 1, Answers(0), Answers(0), [old0]);
    var b := Block(1, 1, Answers(4), Answers(0), [old1]);
    var d := [0, 1, 0, 1, 0, 0, 0, 1, 2, h, l] + stale;
    assert Get16(d, 0) == 1 && Get16(d, 2) == 1 && Get16(d, 4) == 0 && Get16(d, 6) == 1 && d[8] == 2;
    assert GetWords(d, 9, 1) == [Mk(h, l)];
    hide Find, PutWords, Get16, GetWords;
    var blocks := [a, b];
    FindIff(blocks, 0);
    FindIff(blocks, 1);
    assert blocks[0].Covers(0) && blocks[1].Covers(1);
    assert Locate(blocks, 0, 1) == Some(0) && Locate(blocks, 1, 1) == Some(1);
    assert Overwrite(a, 0, [Mk(h, l)]).cells == [Mk(h, l)];
  }

  // A block of one register at address 0, as server_test.cpp would register it.
  function OneRegister(w: word): Block<word> { Block(0, 1, Answers(0), Answers(0), [w]) }

  lemma OneRegisterFound(w: word)
    ensures AllValid([OneRegister(w)]) && Locate([OneRegister(w)], 0, 1) == Some(0)
    ensures forall v: word :: Written([OneRegister(w)], 0, 0, [v]) == [OneRegister(v)]
  {
    var blocks := [OneRegister(w)];
    FindIff(blocks, 0);
    assert blocks[0].Covers(0);
    forall v: word ensures Written(blocks, 0, 0, [v]) == [OneRegister(v)] {
      assert Overwrite(OneRegister(w), 0, [v]).cells == [v];
    }
  }

  lemma OneRegisterIs(w: word)
    ensures var b := OneRegister(w);
            b.start == 0 && b.size == 1 && b.read == Answers(0) && b.write == Answers(0) && b.cells == [w]
  {
  }

  lemma WordAt(d: seq<byte>, i: nat, h: byte, l: byte)
    requires i + 2 <= |d| && d[i] == h && d[i + 1] == l
    ensures Get16(d, i) == Mk(h, l) && Mk(0, 0) == 0
  {
  }

  // 0x06 with a reply PDU of 3 octets: code 04, and the register was written.
  lemma ShortReplyWrites(w: word, h: byte, l: byte, stale: seq<byte>)
    requires |stale| >= MAX_PDU_DATA_SIZE
    ensures var d := [0, 0, h, l] + stale;
            && Pdus.Storage(d) && AllValid([OneRegister(w)])
            && var r := ServerRegs.WriteReg([OneRegister(w)], d, 3);
            && r.code == MBE_SLAVE_FAILURE && r.holdings == [OneRegister(Mk(h, l))]
  {
    hide Locate, Written, PutWords, ServerRegs.WriteReg, Find, AllValid, OneRegister, Get16, Mk;
    var d := [0, 0, h, l] + stale;
    OneRegisterFound(w);
    OneRegisterIs(w);
    WordAt(d, 0, 0, 0);
    WordAt(d, 2, h, l);
    WriteLeaves([OneRegister(w)], d, 3);
  }

  // 0x16 with a reply PDU of 5 octets: code 04, and the register was set to the OR mask, the AND mask being 0.
  lemma ShortReplyMasks(w: word, h: byte, l: byte, stale: seq<byte>)
    requires |stale| >= MAX_PDU_DATA_SIZE
    ensures var d := [0, 0, 0, 0, h, l] + stale;
            && Pdus.Storage(d) && AllValid([OneRegister(w)])
            && var r := ServerRegs.MaskReg([OneRegister(w)], d, 5);
            && r.code == MBE_SLAVE_FAILURE && r.holdings == [OneRegister(Mk(h, l))]
  {
    hide Locate, Written, PutWords, ServerRegs.MaskReg, Find, AllValid, OneRegister, MaskBits.Masked, Get16, Mk;
    var d := [0, 0, 0, 0, h, l] + stale;
    OneRegisterFound(w);
    OneRegisterIs(w);
    WordAt(d, 0, 0, 0);
    WordAt(d, 2, 0, 0);
    WordAt(d, 4, h, l);
    MaskBits.MaskedByZero(w, Mk(h, l));
    MaskLeaves([OneRegister(w)], d, 5);
  }
}
