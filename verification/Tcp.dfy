/** The TCP transport, emodbus/transport/tcp.c.

    Frames carry a 7-octet MBAP header: transaction id, protocol id, length and unit
    id.  The receiver reassembles them from whatever portions the port hands out. */
module Tcp {
  import opened Words
  import opened Pdus
  import opened Ports

  const MBAP_SIZE := 7
  const BUF_SIZE := MAX_PDU_SIZE + MBAP_SIZE

  // ----- frames

  // The MBAP header, protocol id 0, and the function octet.
  function Header(tid: word, length: word, addr: byte, func: byte): seq<byte> {
    [Hi(tid), Lo(tid), 0, 0, Hi(length), Lo(length), addr, func]
  }

  // What modbus_tcp_send_packet puts into the transmit buffer.
  function Frame(tid: word, addr: byte, pdu: Pdu): (f: seq<byte>)
    requires |pdu.data| <= MAX_PDU_DATA_SIZE
    ensures |f| == |pdu.data| + 8
  {
    Header(tid, |pdu.data| + 2, addr, pdu.func) + pdu.data
  }

  // The octets of a frame: transaction id, protocol id 0, the number of octets behind the length, unit id, function, data.
  lemma FrameOctets(tid: word, addr: byte, pdu: Pdu)
    requires |pdu.data| <= 253
    ensures var f := Frame(tid, addr, pdu);
            && Get16(f, 0) == tid && f[0] == tid / 256 && f[1] == tid % 256 && f[2] == 0 && f[3] == 0
            && Get16(f, 4) == |pdu.data| + 2 && f[6] == addr && f[7] == pdu.func && f[8..] == pdu.data
  {
  }

  // The transaction id of the next request (++prev_transaction_id on a uint16_t).
  function NextTid(tid: word): word { (tid + 1) % 0x1_0000 }

  lemma NextTidWraps(tid: word)
    ensures NextTid(tid) == if tid == 65535 then 0 else tid + 1
  {
  }

  // ----- receiving

  /** The receiver: the raw buffer, rx_pkt_counter and curr_rx_length. */
  datatype Rx = Rx(raw: seq<byte>, count: nat, need: int) {
    predicate Valid() { |raw| == BUF_SIZE && count <= BUF_SIZE }
  }

  // Octets stored behind those already there.
  function Store(rx: Rx, chunk: seq<byte>): (r: Rx)
    requires rx.Valid() && rx.count + |chunk| <= BUF_SIZE
    ensures r.Valid() && r.count == rx.count + |chunk| && r.need == rx.need
    ensures r.raw[..r.count] == rx.raw[..rx.count] + chunk
  {
    Rx(rx.raw[..rx.count] + chunk + rx.raw[rx.count + |chunk|..], rx.count + |chunk|, rx.need)
  }

  /** What the receiver consults besides its buffer: the role, the transaction id in
      the transmit buffer and the size of the PDU that waits for a packet. */
  datatype Side = Side(isServer: bool, txTid: word, rxMax: Option<byte>)

  // pkt_length: the announced length without the unit id, as a uint16_t
  function PktLength(raw: seq<byte>): word
    requires |raw| >= 6
  {
    (Get16(raw, 4) - 1) % 0x1_0000
  }

  // The header announces more than the unit id alone, or its packet is not going to be stored.
  predicate Judgeable(side: Side, raw: seq<byte>)
    requires |raw| >= 6
  {
    PktLength(raw) >= 1 || side.rxMax.None? || (!side.isServer && side.txTid != Get16(raw, 0))
  }

  predicate LengthUsable(side: Side, rx: Rx)
    requires rx.Valid()
  {
    rx.count >= MBAP_SIZE + 2 ==> Judgeable(side, rx.raw)
  }

  // A complete packet is in the buffer.
  predicate Complete(rx: Rx)
    requires rx.Valid()
  {
    rx.count >= MBAP_SIZE + 2 && MBAP_SIZE + PktLength(rx.raw) <= rx.count
  }

  // What becomes of a complete packet.
  function Judge(side: Side, packet: seq<byte>): Outcome
    requires |packet| >= MBAP_SIZE && |packet| == MBAP_SIZE + PktLength(packet) && Judgeable(side, packet)
  {
    var dataLength := PktLength(packet) - 1;
    if !side.isServer && side.txTid != Get16(packet, 0) then Failed(-RESP_WRONG_TRANSACTION_ID)
    else if side.rxMax.None? then Silent
    else if side.rxMax.value < dataLength then Failed(-RESP_BUFFER_OVF)
    else Delivered(packet[6], Pdu(packet[7], packet[8..]))
  }

  // parse_packet with the clearing of the counter that follows it
  function Parsed(side: Side, rx: Rx): (r: (Rx, Outcome))
    requires rx.Valid() && LengthUsable(side, rx)
    ensures r.0.Valid()
  {
    if Complete(rx) then
      var total := MBAP_SIZE + PktLength(rx.raw);
      (rx.(count := 0, need := total - rx.count), Judge(side, rx.raw[..total]))
    else
      var need := if rx.count >= MBAP_SIZE + 2 then MBAP_SIZE + PktLength(rx.raw) - rx.count else -1;
      (rx.(count := if rx.count == BUF_SIZE then 0 else rx.count, need := need), Silent)
  }

  // to_be_read, or None when the receiver gives up on an impossible length
  function Wanted(rx: Rx): (w: Option<nat>)
    requires rx.Valid()
    ensures w.Some? ==> rx.count + w.value <= BUF_SIZE
  {
    var space := BUF_SIZE - rx.count;
    if space < rx.need then None else Some(if rx.need >= 0 then rx.need else space)
  }

  // The number of octets a read returns: the port decides, within what is asked and what is there.
  function ReadResult(want: nat, available: nat, grant: int): (r: int)
    ensures r <= want && r <= available
  {
    if want == 0 then 0
    else if grant < 0 then -1
    else if grant < want && grant < available then grant
    else if want < available then want else available
  }

  // The receiver and the number of octets taken, after the read of one data event.
  function AfterRead(rx: Rx, available: seq<byte>, grant: int): (r: (Rx, int))
    requires rx.Valid()
    ensures r.0.Valid() && r.1 <= |available|
  {
    match Wanted(rx)
    case None => (rx.(count := 0), -1)
    case Some(want) =>
      var n := ReadResult(want, |available|, grant);
      if n < 0 then (rx, -1) else (Store(rx, available[..n]), n)
  }

  // emb_tcp_port_event(emb_tcp_data_received_event)
  function DataEvent(side: Side, rx: Rx, available: seq<byte>, grant: int): (r: (Rx, Outcome))
    requires rx.Valid() && LengthUsable(side, AfterRead(rx, available, grant).0)
    ensures r.0.Valid()
  {
    var (read, n) := AfterRead(rx, available, grant);
    if n < 0 then (read, Silent) else Parsed(side, read)
  }

  // ----- the transport

  class TcpTransport {
    const rxBuf: array<byte>
    const txBuf: array<byte>
    var rxPktCounter: nat
    var currRxLength: int
    var txPktSize: nat
    var txPktCounter: nat
    var isServer: bool
    var rxPdu: PduBuffer?
    var outcomes: seq<Outcome>   // the calls to recv_packet and error, in order
    var line: seq<byte>          // the octets the port has taken

    ghost predicate Valid()
      reads this, rxPdu
    {
      && rxBuf != txBuf && rxBuf.Length == txBuf.Length == BUF_SIZE
      && rxPktCounter <= BUF_SIZE
      && txPktCounter <= txPktSize <= BUF_SIZE
      && (rxPdu != null ==> rxPdu.Valid() && rxPdu.data != rxBuf && rxPdu.data != txBuf)
    }

    ghost function Receiver(): Rx
      reads this, rxBuf
    {
      Rx(rxBuf[..], rxPktCounter, currRxLength)
    }

    ghost function TxTid(): word
      requires txBuf.Length == BUF_SIZE
      reads this, txBuf
    {
      Mk(txBuf[0], txBuf[1])
    }

    ghost function OwnSide(): Side
      requires txBuf.Length == BUF_SIZE
      reads this, txBuf, rxPdu
    {
      Side(isServer, TxTid(), if rxPdu == null then None else Some(rxPdu.maxSize))
    }

    ghost function Unsent(): seq<byte>
      requires txPktCounter <= txPktSize <= txBuf.Length
      reads this, txBuf
    {
      txBuf[txPktCounter..txPktSize]
    }

    // emb_tcp_initialize, on a structure with zeroed counters
    constructor (rx: array<byte>, tx: array<byte>, server: bool)
      requires rx != tx && rx.Length == tx.Length == BUF_SIZE
      modifies tx
      ensures Valid() && rxBuf == rx && txBuf == tx && isServer == server
      ensures rxPktCounter == 0 && currRxLength == -1 && txBuf[0] == txBuf[1] == 0
      ensures Unsent() == [] && rxPdu == null && outcomes == [] && line == []
    {
      rxBuf, txBuf := rx, tx;
      rxPktCounter, currRxLength, txPktSize, txPktCounter := 0, -1, 0, 0;
      isServer, rxPdu, outcomes, line := server, null, [], [];
      new;
      txBuf[0], txBuf[1] := 0, 0;
    }

    // Emits one call to the level above.
    method Emit(o: Outcome)
      requires !o.Silent?
      modifies this`outcomes
      ensures outcomes == old(outcomes) + [o]
    {
      outcomes := outcomes + [o];
    }

    // The part of parse_packet that deals with a complete packet.
    method TakePacket(pktLength: word)
      requires Valid() && Complete(Receiver()) && LengthUsable(OwnSide(), Receiver())
      requires pktLength == PktLength(rxBuf[..])
      modifies this`outcomes, rxPdu, if rxPdu == null then {} else {rxPdu.data}
      ensures Valid() && Receiver() == old(Receiver())
      ensures var o := Judge(old(OwnSide()), rxBuf[..MBAP_SIZE + pktLength]);
              && outcomes == old(outcomes) + (if o.Silent? then [] else [o])
              && (o.Delivered? ==> rxPdu.Value() == o.pdu)
    {
      ghost var packet := rxBuf[..MBAP_SIZE + pktLength];
      assert Get16(packet, 4) == Get16(rxBuf[..], 4);
      if !isServer && (txBuf[0] != rxBuf[0] || txBuf[1] != rxBuf[1]) {
        Emit(Failed(-RESP_WRONG_TRANSACTION_ID));
        return;
      }
      if rxPdu != null {
        var pktDataLength := pktLength - 1;
        if rxPdu.maxSize < pktDataLength {
          Emit(Failed(-RESP_BUFFER_OVF));
          return;
        }
        rxPdu.Fill(rxBuf[MBAP_SIZE], rxBuf, MBAP_SIZE + 1, pktDataLength);
        assert rxBuf[MBAP_SIZE + 1..MBAP_SIZE + pktLength] == packet[8..];
        Emit(Delivered(rxBuf[6], Pdu(rxBuf[MBAP_SIZE], rxBuf[MBAP_SIZE + 1..MBAP_SIZE + pktLength])));
      }
    }

    method ParsePacket() returns (done: bool)
      requires Valid() && LengthUsable(OwnSide(), Receiver())
      modifies this`outcomes, this`currRxLength, rxPdu, if rxPdu == null then {} else {rxPdu.data}
      ensures Valid() && rxBuf[..] == old(rxBuf[..]) && rxPktCounter == old(rxPktCounter)
      ensures done == Complete(old(Receiver()))
      ensures var (rx, o) := Parsed(old(OwnSide()), old(Receiver()));
              && currRxLength == rx.need
              && outcomes == old(outcomes) + (if o.Silent? then [] else [o])
              && (o.Delivered? ==> rxPdu.Value() == o.pdu)
    {
      currRxLength := -1;
      if rxPktCounter >= MBAP_SIZE + 2 {
        var pktLength := (Mk(rxBuf[4], rxBuf[5]) - 1) % 0x1_0000;
        currRxLength := MBAP_SIZE + pktLength - rxPktCounter;
        if currRxLength > 0 {
          return false;
        }
        TakePacket(pktLength);
        return true;
      }
      return false;
    }

    // The port delivers octets behind those already in the buffer.
    method ReadFromPort(chunk: seq<byte>)
      requires Valid() && rxPktCounter + |chunk| <= BUF_SIZE
      modifies this`rxPktCounter, rxBuf
      ensures Valid() && Receiver() == Store(old(Receiver()), chunk)
    {
      forall i | 0 <= i < |chunk| {
        rxBuf[rxPktCounter + i] := chunk[i];
      }
      rxPktCounter := rxPktCounter + |chunk|;
    }

    // The first half of a data event: the decision how much to read, and the read.
    method ReadEvent(available: seq<byte>, grant: int) returns (result: int)
      requires Valid()
      modifies this`rxPktCounter, rxBuf
      ensures Valid() && (Receiver(), result) == AfterRead(old(Receiver()), available, grant)
    {
      var toBeRead := BUF_SIZE - rxPktCounter;
      if toBeRead < currRxLength {
        rxPktCounter := 0;
        return -1;
      }
      if currRxLength >= 0 {
        toBeRead := currRxLength;
      }
      result := ReadResult(toBeRead, |available|, grant);
      if result >= 0 {
        ReadFromPort(available[..result]);
      }
    }

    // emb_tcp_port_event(emb_tcp_data_received_event)
    method DataReceived(available: seq<byte>, grant: int) returns (taken: nat)
      requires Valid() && LengthUsable(OwnSide(), AfterRead(Receiver(), available, grant).0)
      modifies this`outcomes, this`currRxLength, this`rxPktCounter, rxBuf
      modifies rxPdu, if rxPdu == null then {} else {rxPdu.data}
      ensures Valid()
      ensures taken == var n := AfterRead(old(Receiver()), available, grant).1; if n < 0 then 0 else n
      ensures var (rx, o) := DataEvent(old(OwnSide()), old(Receiver()), available, grant);
              && Receiver() == rx
              && outcomes == old(outcomes) + (if o.Silent? then [] else [o])
              && (o.Delivered? ==> rxPdu.Value() == o.pdu)
    {
      hide PktLength, AfterRead;
      ghost var side := OwnSide();
      var result := ReadEvent(available, grant);
      taken := if result < 0 then 0 else result;
      assert OwnSide() == side;
      if result >= 0 {
        var done := ParsePacket();
        if done || rxPktCounter == BUF_SIZE {
          rxPktCounter := 0;
        }
      }
    }

    // emb_tcp_port_event(emb_tcp_last_rx_timeout)
    method LastRxTimeout()
      requires Valid()
      modifies this`currRxLength, this`rxPktCounter
      ensures Valid() && Receiver() == old(Receiver()).(count := 0, need := -1)
    {
      currRxLength := -1;
      rxPktCounter := 0;
    }

    // emb_tcp_port_event(emb_tcp_tx_buf_empty_event)
    method TxBufEmpty(grant: int)
      requires Valid()
      modifies this`txPktCounter, this`line
      ensures Valid() && line + Unsent() == old(line) + old(Unsent())
      ensures line == old(line) + Taken(old(Unsent()), [if grant < 0 then 0 else grant])
      ensures |Unsent()| == |old(Unsent())| -
                (if grant < 0 then 0 else if grant < |old(Unsent())| then grant else |old(Unsent())|)
    {
      var n := txPktSize - txPktCounter;
      var result := if grant < n then grant else n;
      if result > 0 {
        assert Unsent() == txBuf[txPktCounter..txPktCounter + result] + txBuf[txPktCounter + result..txPktSize];
        line := line + txBuf[txPktCounter..txPktCounter + result];
        txPktCounter := txPktCounter + result;
      }
    }

    method PutHeader(length: word, addr: byte, func: byte)
      requires Valid()
      modifies txBuf
      ensures TxTid() == if isServer then Mk(rxBuf[0], rxBuf[1]) else NextTid(old(TxTid()))
      ensures txBuf[..8] == Header(TxTid(), length, addr, func)
    {
      hide Mk, Hi, Lo, NextTid;
      if isServer {
        txBuf[0], txBuf[1] := rxBuf[0], rxBuf[1];
        MkParts(rxBuf[0], rxBuf[1]);
      } else {
        var tid := NextTid(Mk(txBuf[0], txBuf[1]));
        MkHiLo(tid);
        txBuf[0], txBuf[1] := Hi(tid), Lo(tid);
      }
      txBuf[2], txBuf[3] := 0, 0;
      txBuf[4], txBuf[5] := Hi(length), Lo(length);
      txBuf[6] := addr;
      txBuf[MBAP_SIZE] := func;
    }

    // The transmit buffer filled by modbus_tcp_send_packet.
    method PutFrame(addr: byte, pdu: PduBuffer)
      requires Valid() && pdu.Valid() && pdu.data != txBuf && pdu.size <= MAX_PDU_DATA_SIZE
      modifies this`txPktSize, this`txPktCounter, txBuf
      ensures Valid()
      ensures TxTid() == if isServer then Mk(rxBuf[0], rxBuf[1]) else NextTid(old(TxTid()))
      ensures Unsent() == Frame(TxTid(), addr, pdu.Value())
    {
      hide Mk, Hi, Lo, NextTid, Header;
      var length := pdu.size + 2;
      PutHeader(length, addr, pdu.func);
      ghost var header := txBuf[..8];
      forall i | 0 <= i < pdu.size {
        txBuf[MBAP_SIZE + 1 + i] := pdu.data[i];
      }
      txPktSize := length + 6;
      txPktCounter := 0;
      assert txBuf[..8] == header;
      assert txBuf[8..txPktSize] == pdu.data[..pdu.size];
      assert txBuf[0..txPktSize] == txBuf[..8] + txBuf[8..txPktSize];
    }

    // modbus_tcp_send_packet
    method SendPacket(addr: byte, pdu: PduBuffer, grant: int) returns (r: int)
      requires Valid() && pdu.Valid() && pdu.data != txBuf
      modifies this`txPktSize, this`txPktCounter, this`line, txBuf
      ensures Valid()
      ensures r == if pdu.size <= MAX_PDU_DATA_SIZE then 0 else -BUFFER_OVERFLOW
      ensures r == 0 ==>
                && TxTid() == (if isServer then Mk(rxBuf[0], rxBuf[1]) else NextTid(old(TxTid())))
                && line + Unsent() == old(line) + Frame(TxTid(), addr, pdu.Value())
      ensures r == 0 ==>
                var f := (line + Unsent())[|old(line)|..];
                && |f| == pdu.size + 8 && Get16(f, 0) == TxTid() && f[2] == 0 && f[3] == 0 && Get16(f, 4) == pdu.size + 2
                && f[6] == addr && f[7] == pdu.func && f[8..] == pdu.data[..pdu.size]
      ensures r == 0 && isServer ==> TxTid() == Get16(rxBuf[..], 0)
      ensures r == 0 && !isServer ==> TxTid() == if old(TxTid()) == 65535 then 0 else old(TxTid()) + 1
      ensures r != 0 ==> TxTid() == old(TxTid()) && line == old(line) && Unsent() == old(Unsent())
    {
      hide Frame, Header, NextTid, Taken, Hi, Lo;
      if pdu.size <= MAX_PDU_DATA_SIZE {
        NextTidWraps(TxTid());
        PutFrame(addr, pdu);
        ghost var f := Frame(TxTid(), addr, pdu.Value());
        FrameOctets(TxTid(), addr, pdu.Value());
        TxBufEmpty(grant);
        assert (line + Unsent())[|old(line)|..] == f;
        r := 0;
      } else {
        r := -BUFFER_OVERFLOW;
      }
    }
  }
}
