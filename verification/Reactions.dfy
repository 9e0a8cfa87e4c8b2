/** What a request causes, event by event and in numbers: the exceptions of the dispatcher itself, the code of a server
    that lacks what a handler needs, and the order in which everything is told and sent. */
module Reactions {
  import opened Words
  import opened Pdus
  import opened Registry
  import opened Cells
  import opened Server
  import ServerRegs
  import Coils
  import FileRead
  import FileWrite
  import Fifo

  // The function of the request with its highest bit set, and the code.
  function ExceptionOf(func: byte, code: byte): Pdu { Pdu(if func < 128 then func + 128 else func, [code]) }

  lemma ExceptionIs(func: byte, code: byte)
    ensures ExceptionPdu(func, code) == ExceptionOf(func, code)
  {
  }

  lemma FunctionIff(table: Table, func: byte, h: Handler)
    ensures GetFunction(table, func) == Some(h) <==> func as int < |table| && table[func] == Some(h)
    ensures GetFunction(table, func).None? <==> func as int >= |table| || table[func].None?
  {
  }

  // Site k is the first one with the address.
  ghost predicate FirstSite(sites: seq<Site>, k: nat, addr: byte) {
    k < |sites| && sites[k].addr == addr && forall i :: 0 <= i < k ==> sites[i].addr != addr
  }

  lemma SiteIff(sites: seq<Site>, addr: byte, k: nat)
    ensures SiteOf(sites, addr) == Some(k) <==> FirstSite(sites, k, addr)
    ensures SiteOf(sites, addr).None? <==> forall i :: 0 <= i < |sites| ==> sites[i].addr != addr
  {
    hide SiteOf;
  }

  // A server without a function table, or without a handler for the function, answers 01 and nothing changes anywhere.
  lemma Unhandled(sites: seq<Site>, m: Message, txMax: byte, k: nat)
    requires AllSound(sites) && Received(m.d, m.size) && FirstSite(sites, k, m.addr)
    requires var t := sites[k].table; t.None? || m.func as int >= |t.value| || t.value[m.func].None?
    ensures React(sites, m, txMax).0 == sites
    ensures React(sites, m, txMax).1 == [ReceivePkt, Exception(1)] +
              if sites[k].broadcast then [] else [Sent(m.addr, Pdu(WithHighBit(m.func), [1])), ResponseSent]
    ensures WithHighBit(m.func) == if m.func < 128 then m.func + 128 else m.func
  {
    hide SiteOf, Invoke;
    SiteIff(sites, m.addr, k);
    assert sites[k := sites[k].(dev := sites[k].dev)] == sites;
  }

  // A handler is called on the device of that server alone.  A code other than 0 is told as an event, and the exception
  // is what is sent; a broadcast server sends nothing.
  lemma Handled(sites: seq<Site>, m: Message, txMax: byte, k: nat, h: Handler)
    requires AllSound(sites) && Received(m.d, m.size) && FirstSite(sites, k, m.addr)
    requires var t := sites[k].table; t.Some? && m.func as int < |t.value| && t.value[m.func] == Some(h)
    ensures var r := Invoke(h, sites[k].dev, m.func, m.d, m.size, txMax);
            && React(sites, m, txMax).0 == sites[k := sites[k].(dev := r.dev)]
            && React(sites, m, txMax).1 == [ReceivePkt] + (if r.code != 0 then [Exception(r.code)] else []) +
                 if sites[k].broadcast then []
                 else [Sent(m.addr, if r.code != 0 then ExceptionOf(m.func, r.code) else r.reply), ResponseSent]
  {
    hide SiteOf, Invoke;
    SiteIff(sites, m.addr, k);
  }

  // An address without a server: nothing is sent, and nothing changes.
  lemma Unaddressed(sites: seq<Site>, m: Message, txMax: byte)
    requires AllSound(sites) && Received(m.d, m.size) && forall i :: 0 <= i < |sites| ==> sites[i].addr != m.addr
    ensures React(sites, m, txMax) == (sites, [ReceivePkt, NoServer])
  {
    SiteIff(sites, m.addr, 0);
    NobodyReacts(sites, m, txMax);
  }

  // A receive storage for any PDU holds 253 octets, all of which may be in use.
  lemma ReceivedIff(d: seq<byte>, size: byte)
    ensures Received(d, size) <==> |d| >= 253 && size as int <= |d|
  {
  }

  // ----- without what a handler needs

  // Nothing is found where nothing is.
  lemma Nowhere<T>(a: word, n: nat)
    ensures Locate<T>([], a, n) == None && Find<T>([], a) == None
  {
    NothingLocated<T>(a, n);
  }

  // Reading registers asks for the getter first, reading bits for the quantity; functions other than a handler's own
  // find no block.
  lemma NothingToRead(dev: Device, func: byte, d: seq<byte>, size: byte, txMax: byte)
    requires dev.Valid() && Received(d, size)
    ensures (func == 3 && dev.holdings.None?) || (func == 4 && dev.inputs.None?) ==>
              var r := Invoke(ReadRegs, dev, func, d, size, txMax); r.code == 4 && r.dev == dev
    ensures func != 3 && func != 4 ==> var r := Invoke(ReadRegs, dev, func, d, size, txMax); r.code == 2 && r.dev == dev
    ensures (func == 1 && dev.coils.None?) || (func == 2 && dev.discrete.None?) ==>
              var r := Invoke(ReadBits, dev, func, d, size, txMax);
              r.code == (if 1 <= Get16(d, 2) <= 2000 then 4 else 3) && r.dev == dev
    ensures func != 1 && func != 2 ==>
              var r := Invoke(ReadBits, dev, func, d, size, txMax);
              r.code == (if 1 <= Get16(d, 2) <= 2000 then 2 else 3) && r.dev == dev
  {
    hide Locate, Find, ServerRegs.ReadAt;
    Nowhere<word>(Get16(d, 0), Get16(d, 2));
    Nowhere<bool>(Get16(d, 0), Get16(d, 2));
  }

  // The checks of the octets come before the getter.
  lemma NoRegisters(dev: Device, func: byte, d: seq<byte>, size: byte, txMax: byte)
    requires dev.Valid() && Received(d, size) && dev.holdings.None?
    ensures var r := Invoke(WriteReg, dev, func, d, size, txMax); r.code == 4 && r.dev == dev
    ensures var r := Invoke(MaskReg, dev, func, d, size, txMax); r.code == 4 && r.dev == dev
    ensures var r := Invoke(WriteRegs, dev, func, d, size, txMax);
            && r.dev == dev
            && r.code == if 1 <= Get16(d, 2) <= 123 && d[4] as int == 2 * Get16(d, 2) then 4 else 3
    ensures var r := Invoke(ReadWriteRegs, dev, func, d, size, txMax);
            && r.dev == dev
            && r.code == if 1 <= Get16(d, 2) <= 125 && 1 <= Get16(d, 6) <= 121 && d[8] as int == 2 * Get16(d, 6) then 4 else 3
  {
    hide Locate, Find, Written;
    Nowhere<word>(Get16(d, 0), 1);
    Nowhere<word>(Get16(d, 0), Get16(d, 2));
    Nowhere<word>(Get16(d, 4), Get16(d, 6));
  }

  lemma NoCoils(dev: Device, func: byte, d: seq<byte>, size: byte, txMax: byte)
    requires dev.Valid() && Received(d, size) && dev.coils.None?
    ensures var r := Invoke(WriteCoil, dev, func, d, size, txMax);
            r.code == (if d[3] == 0 && (d[2] == 0 || d[2] == 255) then 4 else 3) && r.dev == dev
    ensures var r := Invoke(WriteCoils, dev, func, d, size, txMax);
            && r.dev == dev
            && r.code == if 1 <= Get16(d, 2) <= 1968 && size as int == 5 + d[4] as int then 4 else 3
  {
    hide Locate, Find, Written;
    Nowhere<bool>(Get16(d, 0), 1);
    Nowhere<bool>(Get16(d, 0), Get16(d, 2));
  }

  // Each handler works on the part of the device its function names, and on no other.
  lemma WorksOn(h: Handler, dev: Device, func: byte, d: seq<byte>, size: byte, txMax: byte)
    requires dev.Valid() && Received(d, size)
    ensures var after := Invoke(h, dev, func, d, size, txMax).dev;
            && after.discrete == dev.discrete && after.inputs == dev.inputs && after.fifo == dev.fifo
            && (after.coils != dev.coils ==> h.WriteCoil? || h.WriteCoils?)
            && (after.holdings != dev.holdings ==> h.WriteReg? || h.WriteRegs? || h.MaskReg? || h.ReadWriteRegs?)
            && (after.files != dev.files ==> h.WriteFile?)
  {
    hide ServerRegs.ReadRegs, ServerRegs.WriteReg, ServerRegs.WriteRegs, ServerRegs.MaskReg, ServerRegs.ReadWriteRegs,
         Coils.ReadBits, Coils.WriteCoils, Coils.WriteCoil, FileRead.Handle, FileWrite.Handle, Fifo.Handle;
  }

  // The one that functions 0x01 to 0x04 read.
  lemma ReadsFrom(dev: Device, d: seq<byte>, size: byte, txMax: byte)
    requires dev.Valid() && Received(d, size)
    ensures dev.coils.Some? ==>
              var r, s := Invoke(ReadBits, dev, 1, d, size, txMax), Coils.ReadBits(dev.coils.value, 1, d, txMax);
              r.code == s.code && r.reply == s.reply
    ensures dev.discrete.Some? ==>
              var r, s := Invoke(ReadBits, dev, 2, d, size, txMax), Coils.ReadBits(dev.discrete.value, 2, d, txMax);
              r.code == s.code && r.reply == s.reply
    ensures dev.holdings.Some? ==>
              var r, s := Invoke(ReadRegs, dev, 3, d, size, txMax), ServerRegs.ReadRegs(dev.holdings.value, 3, d, txMax);
              r.code == s.code && r.reply == s.reply
    ensures dev.inputs.Some? ==>
              var r, s := Invoke(ReadRegs, dev, 4, d, size, txMax), ServerRegs.ReadRegs(dev.inputs.value, 4, d, txMax);
              r.code == s.code && r.reply == s.reply
  {
    hide ServerRegs.ReadRegs, Coils.ReadBits;
  }
}
