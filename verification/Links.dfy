/** One packet on its way from a transport to the transport at the other end, over a serial
    line or a TCP stream, in whatever portions both ports take and give.

    A way is a schedule: what the sender's port accepts of each write, and in which portions the
    receiver's port hands the octets out.  Every way that sends the whole frame and reads it to its
    end delivers the packet once and unchanged, and leaves the receiver ready for the next; and there
    is such a way for every packet that fits. */
module Links {
  import opened Words
  import opened Pdus
  import opened Ports
  import Rtu
  import Tcp
  import TcpReassembly

  datatype Link = Serial | Stream

  /** How a packet travels: what the sender's port grants to its writes, the portions in which a serial
      line brings the octets, and what the receiver's port grants to its reads from a stream. */
  datatype Way = Way(sent: seq<nat>, chunks: seq<seq<byte>>, grants: seq<int>)

  // A packet with its address and transaction id, as one side sends it to the other; the receiver has
  // `own` as the id of its latest request, and a PDU of `max` octets waiting.
  datatype Packet = Packet(toServer: bool, tid: word, own: word, addr: byte, pdu: Pdu, max: byte)

  const RTU_BUFFER := 256

  function SideOf(p: Packet): Tcp.Side { Tcp.Side(p.toServer, p.own, Some(p.max)) }

  function SidesOf(p: Packet): nat -> Tcp.Side { n => SideOf(p) }

  // The octets of data a frame has room for.
  function Room(link: Link): nat { if link.Serial? then RTU_BUFFER - 4 else MAX_PDU_DATA_SIZE }

  predicate Fits(link: Link, p: Packet) { 1 <= |p.pdu.data| <= Room(link) }

  function FrameOf(link: Link, p: Packet): seq<byte>
    requires Fits(link, p)
  {
    match link
    case Serial => Rtu.Frame(p.addr, p.pdu)
    case Stream => Tcp.Frame(p.tid, p.addr, p.pdu)
  }

  // The octets that get onto the line.
  function OnLine(link: Link, way: Way, p: Packet): seq<byte>
    requires Fits(link, p)
  {
    Taken(FrameOf(link, p), way.sent)
  }

  predicate SentWhole(link: Link, way: Way, p: Packet)
    requires Fits(link, p)
  {
    Sum(way.sent) >= |FrameOf(link, p)|
  }

  lemma WholeOnLine(link: Link, way: Way, p: Packet)
    requires Fits(link, p) && SentWhole(link, way, p)
    ensures OnLine(link, way, p) == FrameOf(link, p)
  {
    var f := FrameOf(link, p);
    TakenAll(f, way.sent);
    assert f[..|f|] == f;
  }

  // The stream of one packet, in front of an idle receiver.
  ghost function Incoming(rx: Tcp.Rx, way: Way, p: Packet): (r: TcpReassembly.Run)
    requires TcpReassembly.Idle(rx) && Fits(Stream, p) && SentWhole(Stream, way, p)
    ensures TcpReassembly.Start(r) && r.Inv() && r.frames == [Tcp.Frame(p.tid, p.addr, p.pdu)] && r.rx == rx
  {
    WholeOnLine(Stream, way, p);
    TcpReassembly.FrameJudged(SideOf(p), p.tid, p.addr, p.pdu);
    TcpReassembly.AnyStart(rx, [OnLine(Stream, way, p)]);
    TcpReassembly.Run(rx, [OnLine(Stream, way, p)], 0, 0, [])
  }

  // The whole frame is sent, and read to its end.
  ghost predicate Carries(link: Link, way: Way, rx: Tcp.Rx, p: Packet)
    requires TcpReassembly.Idle(rx)
  {
    Fits(link, p) && SentWhole(link, way, p) &&
    match link
    case Serial => Rtu.Joined(way.chunks) == OnLine(link, way, p) && forall c :: c in way.chunks ==> c != []
    case Stream => TcpReassembly.Events(SidesOf(p), Incoming(rx, way, p), way.grants).Over()
  }

  // The receiver afterwards, and its calls to the level above.
  ghost function Hear(link: Link, way: Way, rx: Tcp.Rx, p: Packet): (Tcp.Rx, seq<Outcome>)
    requires TcpReassembly.Idle(rx) && Carries(link, way, rx, p)
  {
    match link
    case Serial => (rx, [Rtu.Parse(Rtu.GatherAll([], RTU_BUFFER, way.chunks), Some(p.max))])
    case Stream =>
      var r := TcpReassembly.Events(SidesOf(p), Incoming(rx, way, p), way.grants);
      (r.rx, r.calls)
  }

  // A packet that fits the waiting PDU and answers no older request arrives, once and unchanged; the
  // receiver is ready for the next, and the buffer of a TCP receiver still shows the packet's id.
  lemma HeardIntact(link: Link, way: Way, rx: Tcp.Rx, p: Packet)
    requires TcpReassembly.Idle(rx) && Carries(link, way, rx, p) && |p.pdu.data| <= p.max as int
    requires link.Serial? || p.toServer || p.own == p.tid
    ensures var (after, calls) := Hear(link, way, rx, p);
            && calls == [Delivered(p.addr, p.pdu)] && TcpReassembly.Idle(after)
            && (link.Stream? ==> Get16(after.raw, 0) == p.tid)
  {
    hide Rtu.Parse, Rtu.Frame, Tcp.Frame, TcpReassembly.Events;
    WholeOnLine(link, way, p);
    match link {
      case Serial => Rtu.RoundTrip(p.addr, p.pdu, way.chunks, RTU_BUFFER, p.max);
      case Stream =>
        var r := Incoming(rx, way, p);
        TcpReassembly.RoundTrip(SidesOf(p), p.tid, p.addr, p.pdu, r, way.grants);
        TcpReassembly.EventsKeepFrame(SidesOf(p), r, way.grants);
        ShowsId(TcpReassembly.Events(SidesOf(p), r, way.grants).rx.raw, p);
    }
  }

  lemma ShowsId(raw: seq<byte>, p: Packet)
    requires Fits(Stream, p) && |raw| == Tcp.BUF_SIZE
    requires var f := Tcp.Frame(p.tid, p.addr, p.pdu); |f| <= |raw| && raw[..|f|] == f
    ensures Get16(raw, 0) == p.tid
  {
    var f := Tcp.Frame(p.tid, p.addr, p.pdu);
    assert raw[0] == raw[..|f|][0] == f[0] && raw[1] == raw[..|f|][1] == f[1];
  }

  // A stream is read to its end by enough grants, of any size.
  lemma GrantsCarry(way: Way, rx: Tcp.Rx, p: Packet)
    requires TcpReassembly.Idle(rx) && Fits(Stream, p) && SentWhole(Stream, way, p)
    requires |way.grants| >= TcpReassembly.Work(Incoming(rx, way, p))
    requires forall i :: 0 <= i < |way.grants| ==> way.grants[i] > 0
    ensures Carries(Stream, way, rx, p)
  {
    hide TcpReassembly.Work, TcpReassembly.Events;
    TcpReassembly.StartIsGood(SidesOf(p), Incoming(rx, way, p));
    TcpReassembly.Completes(SidesOf(p), Incoming(rx, way, p), way.grants);
  }

  // A way exists for every packet: all octets written at once, read in one portion from a line, or one
  // by one from a stream.
  lemma WayExists(link: Link, rx: Tcp.Rx, p: Packet) returns (way: Way)
    requires TcpReassembly.Idle(rx) && Fits(link, p)
    ensures Carries(link, way, rx, p)
  {
    hide Rtu.Frame, Tcp.Frame, TcpReassembly.Work, TcpReassembly.Events;
    var f := FrameOf(link, p);
    way := Way([|f|], [f], []);
    assert Sum(way.sent) == |f| by {
      assert way.sent[1..] == [];
    }
    WholeOnLine(link, way, p);
    match link {
      case Serial => OnePortion(p);
      case Stream =>
        var r := Incoming(rx, way, p);
        var n := TcpReassembly.Work(r);
        way := way.(grants := seq<int>(n, i => 1));
        assert Incoming(rx, way, p) == r;
        GrantsCarry(way, rx, p);
    }
  }

  lemma OnePortion(p: Packet)
    requires Fits(Serial, p)
    ensures var f := Rtu.Frame(p.addr, p.pdu); f != [] && Rtu.Joined([f]) == f
  {
    var chunks := [Rtu.Frame(p.addr, p.pdu)];
    assert chunks[1..] == [];
  }
}
