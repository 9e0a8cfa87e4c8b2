/** The RTU transport, emodbus/transport/rtu.c.

    Octets are gathered until a silence on the line; what was gathered is then taken
    for one frame.  Outgoing frames leave in whatever portions the port accepts. */
module Rtu {
  import opened Words
  import opened Pdus
  import opened Crc
  import opened CrcBurst
  import opened Ports

  // ----- frames

  // address, function, data and CRC, low octet first (modbus_rtu_send_packet)
  function Frame(addr: byte, pdu: Pdu): seq<byte> {
    var body := [addr, pdu.func] + pdu.data;
    body + [LoBv(Crc16(body)), HiBv(Crc16(body))]
  }

  // parse_packet; `rxMax` is the size of the PDU that waits for a packet, if one does.
  function Parse(frame: seq<byte>, rxMax: Option<byte>): Outcome {
    var size := |frame| - 2;
    if size < 2 then Silent
    else if Crc16(frame[..size]) != MkBv(frame[size], frame[size + 1]) then Failed(-BAD_CRC)
    else if rxMax.None? then Silent
    else if size - 2 > rxMax.value then Failed(-RESP_BUFFER_OVF)
    else Delivered(frame[0], Pdu(frame[1], frame[2..size]))
  }

  lemma FrameAccepted(addr: byte, pdu: Pdu)
    ensures Accepts(Frame(addr, pdu))
  {
    var body := [addr, pdu.func] + pdu.data;
    var f := Frame(addr, pdu);
    assert f[..|f| - 2] == body;
    MkOfParts(Crc16(body));
  }

  lemma ParseFrame(addr: byte, pdu: Pdu, max: byte)
    ensures Parse(Frame(addr, pdu), Some(max)) ==
            if |pdu.data| <= max then Delivered(addr, pdu) else Failed(-RESP_BUFFER_OVF)
  {
    FrameAccepted(addr, pdu);
    var f := Frame(addr, pdu);
    assert f[2..|f| - 2] == pdu.data;
    hide Crc16, MkBv;
  }

  // Damage confined to 16 consecutive bits of a frame is reported as a bad CRC, whoever waits.
  lemma BurstRejected(addr: byte, pdu: Pdu, received: seq<byte>, p: nat, rxMax: Option<byte>)
    requires DifferInBurst(Frame(addr, pdu), received, p)
    requires received != Frame(addr, pdu)
    ensures Parse(received, rxMax) == Failed(-BAD_CRC)
  {
    FrameAccepted(addr, pdu);
    BurstDetected(Frame(addr, pdu), received, p);
    hide Crc16, MkBv;
  }

  // ----- receiving

  // The octets gathered after one data event: a read that brings nothing clears the buffer.
  function Gather(got: seq<byte>, room: nat, chunk: seq<byte>, failed: bool): (r: seq<byte>)
    requires |got| <= room
    ensures |r| <= room
  {
    var n := if |chunk| < room - |got| then |chunk| else room - |got|;
    if failed || n == 0 then [] else got + chunk[..n]
  }

  function GatherAll(got: seq<byte>, room: nat, chunks: seq<seq<byte>>): (r: seq<byte>)
    requires |got| <= room
    ensures |r| <= room
    decreases |chunks|
  {
    if chunks == [] then got else GatherAll(Gather(got, room, chunks[0], false), room, chunks[1..])
  }

  function Joined(chunks: seq<seq<byte>>): seq<byte> {
    if chunks == [] then [] else chunks[0] + Joined(chunks[1..])
  }

  // Any split of the octets into non-empty portions gathers the same octets.
  lemma {:induction false} GatherJoined(got: seq<byte>, room: nat, chunks: seq<seq<byte>>)
    requires |got| + |Joined(chunks)| <= room
    requires forall c :: c in chunks ==> c != []
    ensures GatherAll(got, room, chunks) == got + Joined(chunks)
    decreases |chunks|
  {
    if chunks != [] {
      var c := chunks[0];
      assert c in chunks && c[..|c|] == c;
      assert forall d :: d in chunks[1..] ==> d in chunks;
      GatherJoined(got + c, room, chunks[1..]);
      assert got + c + Joined(chunks[1..]) == got + (c + Joined(chunks[1..]));
    }
  }

  // A frame that fits the buffer is delivered unchanged, however the line splits it.
  lemma RoundTrip(addr: byte, pdu: Pdu, chunks: seq<seq<byte>>, room: nat, max: byte)
    requires |pdu.data| + 4 <= room && |pdu.data| <= max
    requires Joined(chunks) == Frame(addr, pdu) && forall c :: c in chunks ==> c != []
    ensures Parse(GatherAll([], room, chunks), Some(max)) == Delivered(addr, pdu)
  {
    GatherJoined([], room, chunks);
    assert [] + Joined(chunks) == Joined(chunks);
    ParseFrame(addr, pdu, max);
    hide Parse, Frame;
  }

  // ----- sending

  // Whatever portions the sender's port takes and the receiver's port gives, the packet arrives.
  lemma AnySchedule(addr: byte, pdu: Pdu, grants: seq<nat>, chunks: seq<seq<byte>>, room: nat, max: byte)
    requires |pdu.data| + 4 <= room && |pdu.data| <= max && Sum(grants) >= |pdu.data| + 4
    requires Joined(chunks) == Taken(Frame(addr, pdu), grants) && forall c :: c in chunks ==> c != []
    ensures Parse(GatherAll([], room, chunks), Some(max)) == Delivered(addr, pdu)
  {
    var f := Frame(addr, pdu);
    TakenAll(f, grants);
    assert f[..|f|] == f;
    hide Parse, Frame;
    RoundTrip(addr, pdu, chunks, room, max);
  }

  // ----- the transport

  class RtuTransport {
    const rxBuffer: array<byte>
    const txBuffer: array<byte>
    var rxBufCounter: nat
    var txBufCounter: nat
    var txPktSize: nat
    var rxPdu: PduBuffer?
    var outcomes: seq<Outcome>   // the calls to recv_packet and error, in order
    var line: seq<byte>          // the octets the port has taken

    ghost predicate Valid()
      reads this, rxPdu
    {
      && rxBuffer != txBuffer && rxBuffer.Length < 0x1_0000
      && rxBufCounter <= rxBuffer.Length
      && txBufCounter <= txPktSize <= txBuffer.Length
      && (rxPdu != null ==> rxPdu.Valid() && rxPdu.data != rxBuffer && rxPdu.data != txBuffer)
    }

    ghost function Got(): seq<byte>
      requires rxBufCounter <= rxBuffer.Length
      reads this, rxBuffer
    {
      rxBuffer[..rxBufCounter]
    }

    // What is still to be sent.
    ghost function Unsent(): seq<byte>
      requires txBufCounter <= txPktSize <= txBuffer.Length
      reads this, txBuffer
    {
      txBuffer[txBufCounter..txPktSize]
    }

    ghost function RxMax(): Option<byte>
      reads this, rxPdu
    {
      if rxPdu == null then None else Some(rxPdu.maxSize)
    }

    constructor (rx: array<byte>, tx: array<byte>)
      requires rx != tx && rx.Length < 0x1_0000
      ensures Valid() && rxBuffer == rx && txBuffer == tx
      ensures Got() == [] && Unsent() == [] && rxPdu == null && outcomes == [] && line == []
    {
      rxBuffer, txBuffer := rx, tx;
      rxBufCounter, txBufCounter, txPktSize := 0, 0, 0;
      rxPdu, outcomes, line := null, [], [];
    }

    // emb_rtu_port_event(emb_rtu_data_received_event)
    method DataReceived(chunk: seq<byte>, failed: bool)
      requires Valid()
      modifies this`rxBufCounter, rxBuffer
      ensures Valid() && Got() == Gather(old(Got()), rxBuffer.Length, chunk, failed)
    {
      var space := rxBuffer.Length - rxBufCounter;
      var r := if failed then -1 else if |chunk| < space then |chunk| else space;
      forall i | 0 <= i < r {
        rxBuffer[rxBufCounter + i] := chunk[i];
      }
      if r > 0 {
        rxBufCounter := rxBufCounter + r;
        assert rxBuffer[..rxBufCounter] == old(Got()) + chunk[..r];
      } else {
        rxBufCounter := 0;
      }
    }

    method ParsePacket()
      requires Valid()
      modifies this`outcomes, rxPdu, if rxPdu == null then {} else {rxPdu.data}
      ensures Valid() && Got() == old(Got())
      ensures var o := Parse(Got(), old(RxMax()));
              && outcomes == old(outcomes) + (if o.Silent? then [] else [o])
              && (o.Delivered? ==> rxPdu.Value() == o.pdu)
              && (!o.Delivered? && rxPdu != null ==> rxPdu.Value() == old(rxPdu.Value()))
    {
      hide Crc16, MkBv;
      var size := rxBufCounter - 2;
      ghost var frame := Got();
      if size >= 2 {
        var crc1 := TableCrc16(rxBuffer, size);
        var crc2 := MkBv(rxBuffer[size], rxBuffer[size + 1]);
        assert frame[..size] == rxBuffer[..size];
        if crc1 != crc2 {
          outcomes := outcomes + [Failed(-BAD_CRC)];
          return;
        }
        if rxPdu != null {
          var dataSize := size - 2;
          if dataSize > rxPdu.maxSize {
            outcomes := outcomes + [Failed(-RESP_BUFFER_OVF)];
            return;
          }
          rxPdu.Fill(rxBuffer[1], rxBuffer, 2, dataSize);
          outcomes := outcomes + [Delivered(rxBuffer[0], Pdu(rxBuffer[1], rxBuffer[2..size]))];
        }
      }
    }

    // emb_rtu_on_char_timeout
    method CharTimeout()
      requires Valid()
      modifies this`outcomes, this`rxBufCounter, rxPdu, if rxPdu == null then {} else {rxPdu.data}
      ensures Valid() && Got() == []
      ensures var o := Parse(old(Got()), old(RxMax()));
              && outcomes == old(outcomes) + (if o.Silent? then [] else [o])
              && (o.Delivered? ==> rxPdu.Value() == o.pdu)
    {
      ParsePacket();
      rxBufCounter := 0;
    }

    // emb_rtu_port_event(emb_rtu_tx_buf_empty_event); `grant` is what the port accepts, negative on error
    method TxBufEmpty(grant: int)
      requires Valid()
      modifies this`txBufCounter, this`txPktSize, this`line
      ensures Valid()
      ensures grant < 0 ==> line == old(line) && Unsent() == []
      ensures grant >= 0 ==> line + Unsent() == old(line) + old(Unsent()) && txPktSize == old(txPktSize)
      ensures grant >= 0 ==> line == old(line) + Taken(old(Unsent()), [grant])
      ensures grant >= 0 ==>
                txBufCounter == old(txBufCounter) + if grant < |old(Unsent())| then grant else |old(Unsent())|
    {
      var n := txPktSize - txBufCounter;
      if grant < 0 {
        txBufCounter, txPktSize := 0, 0;
      } else {
        var w := if grant < n then grant else n;
        line := line + txBuffer[txBufCounter..txBufCounter + w];
        txBufCounter := txBufCounter + w;
      }
    }

    // modbus_rtu_send_packet
    method SendPacket(addr: byte, pdu: PduBuffer, grant: int) returns (r: int)
      requires Valid() && pdu.Valid() && pdu.data != txBuffer
      modifies this`txBufCounter, this`txPktSize, this`line, txBuffer
      ensures Valid()
      ensures r == if pdu.size + 4 <= txBuffer.Length then 0 else -BUFFER_OVERFLOW
      ensures r == 0 && grant >= 0 ==>
                line + Unsent() == old(line) + Frame(addr, pdu.Value())
      ensures r == 0 && grant < 0 ==> line == old(line) && Unsent() == []
      ensures r != 0 ==> line == old(line) && Unsent() == old(Unsent())
    {
      if pdu.size + 4 <= txBuffer.Length {
        PutFrame(addr, pdu);
        TxBufEmpty(grant);
        r := 0;
      } else {
        r := -BUFFER_OVERFLOW;
      }
    }

    // The transmit buffer filled by modbus_rtu_send_packet.
    method PutFrame(addr: byte, pdu: PduBuffer)
      requires Valid() && pdu.Valid() && pdu.data != txBuffer && pdu.size + 4 <= txBuffer.Length
      modifies this`txBufCounter, this`txPktSize, txBuffer
      ensures Valid() && Unsent() == Frame(addr, pdu.Value())
    {
      hide Crc16, MkBv, Run, LoBv, HiBv;
      var sz := pdu.size + 2;
      txBuffer[0] := addr;
      txBuffer[1] := pdu.func;
      forall i | 0 <= i < pdu.size {
        txBuffer[2 + i] := pdu.data[i];
      }
      ghost var body := [addr, pdu.func] + pdu.Value().data;
      assert txBuffer[..sz] == body;
      var crc := TableCrc16(txBuffer, sz);
      txBuffer[sz + 1] := HiBv(crc);
      txBuffer[sz] := LoBv(crc);
      txPktSize := sz + 2;
      txBufCounter := 0;
      assert txBuffer[..sz] == body;
      assert Unsent() == body + [txBuffer[sz], txBuffer[sz + 1]];
    }

    // emb_rtu_send_packet_sync: the k-th write is granted pace(k) octets.
    method SendPacketSync(addr: byte, pdu: PduBuffer, pace: nat -> int) returns (r: int)
      requires Valid() && pdu.Valid() && pdu.data != txBuffer
      requires forall k :: pace(k) != 0
      modifies this`txBufCounter, this`txPktSize, this`line, txBuffer
      ensures Valid()
      ensures r == if pdu.size + 4 <= txBuffer.Length then 0 else -BUFFER_OVERFLOW
      ensures r == 0 ==> Unsent() == []
      ensures r == 0 && (forall k :: pace(k) > 0) ==> line == old(line) + Frame(addr, pdu.Value())
      ensures r != 0 ==> line == old(line)
    {
      r := SendPacket(addr, pdu, pace(0));
      if r == 0 {
        var k := 1;
        while txBufCounter < txPktSize
          invariant Valid()
          invariant (forall i :: pace(i) > 0) ==>
                      line + Unsent() == old(line) + Frame(addr, pdu.Value())
          decreases txPktSize - txBufCounter
        {
          TxBufEmpty(pace(k));
          k := k + 1;
        }
      }
    }
  }
}
