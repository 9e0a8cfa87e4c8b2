/** Frames whose PDU has no data (emodbus/transport/tcp.c:27): the receiver parses from nine
    octets on, so a frame of eight waits for octets that are not its own, and takes them with it.

    The runs of TcpReassembly read frame by frame, and end where a frame ends; here they are runs over the
    octets of a stream, whatever they are.  Over one frame with data both coincide.  Over a frame
    without data nobody is called, however it is read, until octets of the next packet arrive: then
    it is judged, and the octets that were read along with it are lost to the packet they belong to. */
module TcpEmptyData {
  import opened Words
  import opened Pdus
  import opened Tcp
  import opened TcpReassembly

  // ----- runs over octets, whatever they are

  /** The receiver, the octets not yet read, and the calls made so far. */
  datatype Octets = Octets(rx: Rx, rest: seq<byte>, calls: seq<Outcome>)

  ghost predicate Handled(side: Side, s: Octets, grant: int) {
    s.rx.Valid() && LengthUsable(side, AfterRead(s.rx, s.rest, grant).0)
  }

  function OctetEvent(side: Side, s: Octets, grant: int): Octets
    requires Handled(side, s, grant)
  {
    var n := AfterRead(s.rx, s.rest, grant).1;
    var (rx, o) := DataEvent(side, s.rx, s.rest, grant);
    Octets(rx, s.rest[if n < 0 then 0 else n..], s.calls + Calls(o))
  }

  ghost predicate AllHandled(side: Side, s: Octets, grants: seq<int>)
    decreases |grants|
  {
    grants == [] || (Handled(side, s, grants[0]) && AllHandled(side, OctetEvent(side, s, grants[0]), grants[1..]))
  }

  function OctetEvents(side: Side, s: Octets, grants: seq<int>): Octets
    requires AllHandled(side, s, grants)
    decreases |grants|
  {
    if grants == [] then s else OctetEvents(side, OctetEvent(side, s, grants[0]), grants[1..])
  }

  // ----- a frame with data

  function Always(side: Side): nat -> Side { n => side }

  // Over one well-formed frame these are the runs of TcpReassembly.
  ghost predicate Agree(s: Octets, r: Run) {
    r.Inv() && |r.frames| == 1 && s == Octets(r.rx, r.Readable(), r.calls)
  }

  lemma EventAgrees(side: Side, s: Octets, r: Run, grant: int)
    requires Agree(s, r)
    ensures Handled(side, s, grant) && Agree(OctetEvent(side, s, grant), Event(Always(side), r, grant))
  {
    hide AfterRead, DataEvent;
    Usable(side, r, grant);
    EventKeeps(Always(side), r, grant);
    if !r.Over() {
      TakenFits(r, grant);
      if r.k + Taken(r, grant) == |r.Current()| {
        EventEnds(Always(side), r, grant);
      } else {
        EventWaits(Always(side), r, grant);
      }
    } else {
      EventWaits(Always(side), r, grant);
    }
  }

  lemma {:induction false} EventsAgree(side: Side, s: Octets, r: Run, grants: seq<int>)
    requires Agree(s, r)
    ensures AllHandled(side, s, grants) && Agree(OctetEvents(side, s, grants), Events(Always(side), r, grants))
    decreases |grants|
  {
    hide OctetEvent, Event, Handled;
    if grants != [] {
      EventAgrees(side, s, r, grants[0]);
      EventKeeps(Always(side), r, grants[0]);
      EventsAgree(side, OctetEvent(side, s, grants[0]), Event(Always(side), r, grants[0]), grants[1..]);
    }
  }

  // ----- a frame without data

  // The eight octets of the frame are partly in and partly to come.
  ghost predicate Waiting(s: Octets, f: seq<byte>) {
    && |f| == MBAP_SIZE + 1 && s.rx.Valid() && s.rx.count + |s.rest| == |f|
    && s.rx.raw[..s.rx.count] + s.rest == f
    && (s.rx.need == -1 || (s.rx.need == 0 && s.rx.count == 0))
  }

  lemma EventKeepsWaiting(side: Side, s: Octets, f: seq<byte>, grant: int)
    requires Waiting(s, f)
    ensures Handled(side, s, grant)
    ensures var t := OctetEvent(side, s, grant); Waiting(t, f) && t.calls == s.calls
  {
    var (rx, n) := AfterRead(s.rx, s.rest, grant);
    if n >= 0 {
      assert rx.raw[..rx.count] + s.rest[n..] == s.rx.raw[..s.rx.count] + s.rest;
    }
  }

  lemma {:induction false} EventsKeepWaiting(side: Side, s: Octets, f: seq<byte>, grants: seq<int>)
    requires Waiting(s, f)
    ensures AllHandled(side, s, grants)
    ensures var t := OctetEvents(side, s, grants); Waiting(t, f) && t.calls == s.calls
    decreases |grants|
  {
    hide OctetEvent, Handled, Waiting;
    if grants != [] {
      EventKeepsWaiting(side, s, f, grants[0]);
      EventsKeepWaiting(side, OctetEvent(side, s, grants[0]), f, grants[1..]);
    }
  }

  // ----- when a frame gets its verdict

  // A sent frame, over any events that take it in, gets its verdict exactly when its PDU has data;
  // without data nobody is called, whatever the events.
  lemma VerdictIffData(side: Side, tid: word, addr: byte, pdu: Pdu, rx: Rx, grants: seq<int>)
    requires |pdu.data| <= MAX_PDU_DATA_SIZE && Idle(rx)
    ensures var f := Frame(tid, addr, pdu);
            && |f| == MBAP_SIZE + PktLength(f) && AllHandled(side, Octets(rx, f, []), grants)
            && var s, o := OctetEvents(side, Octets(rx, f, []), grants), Judge(side, f);
            && (pdu.data == [] ==> s.calls == [] && Waiting(s, f))
            && (s.rest == [] ==> (s.calls == Calls(o) <==> pdu.data != [] || o == Silent))
  {
    hide OctetEvents, AllHandled, Judge, Waiting, Frame;
    var f := Frame(tid, addr, pdu);
    FrameJudged(side, tid, addr, pdu);
    if pdu.data == [] {
      StartsWaiting(rx, f);
      EventsKeepWaiting(side, Octets(rx, f, []), f, grants);
    } else {
      AnyStart(rx, [f]);
      var r := Run(rx, [f], 0, 0, []);
      EventsAgree(side, Octets(rx, f, []), r, grants);
      Reassembly(Always(side), r, grants);
      var s := OctetEvents(side, Octets(rx, f, []), grants);
      if s.rest == [] {
        TakenInIsOver(side, f, s, Events(Always(side), r, grants));
      }
    }
  }

  lemma StartsWaiting(rx: Rx, f: seq<byte>)
    requires Idle(rx) && |f| == MBAP_SIZE + 1
    ensures Waiting(Octets(rx, f, []), f)
  {
    assert rx.raw[..0] + f == f;
  }

  lemma TakenInIsOver(side: Side, f: seq<byte>, s: Octets, r: Run)
    requires WellFormed(f) && Agree(s, r) && r.frames == [f] && Good(Always(side), r) && s.rest == []
    ensures s.calls == Verdict(side, f)
  {
    assert Verdicts(Always(side), r.frames, 1) == Verdicts(Always(side), r.frames, 0) + Verdict(side, f);
  }

  // The next octets, of whatever packet, make the receiver judge the waiting frame, and are dropped with it.
  lemma NextOctetsLost(side: Side, tid: word, addr: byte, func: byte, s: Octets, more: seq<byte>, grant: int)
    requires var f := Frame(tid, addr, Pdu(func, [])); Waiting(s, f) && s.rest == []
    requires more != [] && grant >= 1
    ensures var f := Frame(tid, addr, Pdu(func, []));
            var n := if grant < |more| then grant else |more|;
            var n' := if n < BUF_SIZE - 8 then n else BUF_SIZE - 8;
            && |f| == MBAP_SIZE + PktLength(f) && Handled(side, s.(rest := more), grant)
            && var t := OctetEvent(side, s.(rest := more), grant);
            && n' >= 1 && t.rest == more[n'..] && t.rx.count == 0 && t.calls == s.calls + Calls(Judge(side, f))
  {
    var f := Frame(tid, addr, Pdu(func, []));
    FrameJudged(side, tid, addr, Pdu(func, []));
    var rx := AfterRead(s.rx, more, grant).0;
    assert s.rx.raw[..8] == f;
    assert rx.raw[..8] == rx.raw[..rx.count][..8] == f;
    assert rx.raw[4] == rx.raw[..8][4] && rx.raw[5] == rx.raw[..8][5];
    assert PktLength(rx.raw) == 1;
    hide Judge;
  }
}
