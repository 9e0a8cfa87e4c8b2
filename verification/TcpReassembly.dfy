/** Runs of the TCP receiver over a stream of frames.

    However the port splits the stream, every frame is judged exactly once, in order
    and as a whole (emodbus/transport/tcp.c:22-71 and 148-190).  The next frame becomes
    readable when the previous one has been taken in. */
module TcpReassembly {
  import opened Words
  import opened Pdus
  import opened Tcp

  // A frame the reassembler is made for: at least one octet of data, a true length field, no more than the buffer.
  predicate WellFormed(f: seq<byte>) {
    MBAP_SIZE + 2 <= |f| <= BUF_SIZE && Get16(f, 4) == |f| - 6
  }

  predicate AllWellFormed(fs: seq<seq<byte>>) { forall i :: 0 <= i < |fs| ==> WellFormed(fs[i]) }

  // The calls one outcome stands for.
  function Calls(o: Outcome): seq<Outcome> { if o.Silent? then [] else [o] }

  // What the level above is to see of one frame.
  function Verdict(side: Side, f: seq<byte>): seq<Outcome>
    requires WellFormed(f)
  {
    Calls(Judge(side, f))
  }

  // What the level above is to see of the first n frames; sides(i) is what the receiver consults at frame i: a
  // client's waiting PDU and id change with every delivery, a server's do not.
  function Verdicts(sides: nat -> Side, fs: seq<seq<byte>>, n: nat): seq<Outcome>
    requires AllWellFormed(fs) && n <= |fs|
  {
    if n == 0 then [] else Verdicts(sides, fs, n - 1) + Verdict(sides(n - 1), fs[n - 1])
  }

  /** A run over a stream of frames: the receiver, the number of frames taken in, the
      number of octets already read of the next one, and the calls made so far. */
  datatype Run = Run(rx: Rx, frames: seq<seq<byte>>, done: nat, k: nat, calls: seq<Outcome>) {
    predicate Over() { done >= |frames| }

    function Current(): seq<byte>
      requires !Over()
    {
      frames[done]
    }

    // The octets that can be read now.
    function Readable(): seq<byte>
      requires !Over() ==> k <= |Current()|
    {
      if Over() then [] else Current()[k..]
    }

    // Between events the buffer holds the part read of the current frame and nothing else.
    ghost predicate Inv() {
      && rx.Valid()
      && AllWellFormed(frames)
      && done <= |frames|
      && rx.count == k
      && if Over() then k == 0 && (rx.need == -1 || rx.need == 0)
         else
           && k < |Current()| && rx.raw[..k] == Current()[..k]
           && if k == 0 then rx.need == -1 || rx.need == 0
              else if k < MBAP_SIZE + 2 then rx.need == -1
              else rx.need == |Current()| - k
    }
  }

  // One data event of the port.
  function Event(sides: nat -> Side, r: Run, grant: int): Run
    requires r.Inv()
  {
    Usable(sides(r.done), r, grant);
    var (rx', o) := DataEvent(sides(r.done), r.rx, r.Readable(), grant);
    var k := r.k + Taken(r, grant);
    if !r.Over() && k == |r.Current()| then r.(rx := rx', done := r.done + 1, k := 0, calls := r.calls + Calls(o))
    else r.(rx := rx', k := k, calls := r.calls + Calls(o))
  }

  // The number of octets one event takes off the stream.
  function Taken(r: Run, grant: int): nat
    requires r.Inv()
  {
    var n := AfterRead(r.rx, r.Readable(), grant).1;
    if n < 0 then 0 else n
  }

  // After a read the buffer holds a longer part of the same frame.
  lemma ReadPrefix(r: Run, grant: int)
    requires r.Inv() && !r.Over()
    ensures var rx, k := AfterRead(r.rx, r.Readable(), grant).0, r.k + Taken(r, grant);
            && rx.count == k <= |r.Current()|
            && rx.raw[..k] == r.Current()[..k]
            && (k >= 6 ==> PktLength(rx.raw) == |r.Current()| - MBAP_SIZE)
            && (AfterRead(r.rx, r.Readable(), grant).1 < 0 ==> rx == r.rx)
  {
    hide PktLength, Get16;
    var f := r.Current();
    assert WellFormed(f);
    var rx, n := AfterRead(r.rx, r.Readable(), grant).0, Taken(r, grant);
    assert f[..r.k] + f[r.k..][..n] == f[..r.k + n];
    if r.k + n >= 6 {
      PrefixLength(rx.raw, f, r.k + n);
    }
  }

  // The length field is read once its octets are in.
  lemma PrefixLength(raw: seq<byte>, f: seq<byte>, k: nat)
    requires 6 <= k <= |raw| == BUF_SIZE && k <= |f| && raw[..k] == f[..k] && WellFormed(f)
    ensures PktLength(raw) == |f| - MBAP_SIZE
  {
    assert raw[4] == raw[..k][4] && raw[5] == raw[..k][5];
  }

  // Every event stays inside what the reassembler handles.
  lemma Usable(side: Side, r: Run, grant: int)
    requires r.Inv()
    ensures LengthUsable(side, AfterRead(r.rx, r.Readable(), grant).0)
  {
    if !r.Over() {
      assert WellFormed(r.Current());
      ReadPrefix(r, grant);
    }
  }

  // An event that leaves the frame incomplete, or has no frame to read.
  lemma EventWaits(sides: nat -> Side, r: Run, grant: int)
    requires r.Inv()
    requires !r.Over() ==> r.k + Taken(r, grant) < |r.Current()|
    ensures var s := Event(sides, r, grant);
            s.Inv() && s == r.(rx := s.rx, k := r.k + Taken(r, grant))
  {
    hide Judge, Judgeable, PktLength, Get16;
    Usable(sides(r.done), r, grant);
    if r.Over() {
      EventIdle(r, grant);
    } else {
      hide AfterRead;
      assert WellFormed(r.Current());
      ReadPrefix(r, grant);
    }
  }

  // With nothing to read the receiver is armed anew.
  lemma EventIdle(r: Run, grant: int)
    requires r.Inv() && r.Over()
    ensures var (rx, n) := AfterRead(r.rx, r.Readable(), grant);
            n <= 0 && rx.count == 0 && rx.need == r.rx.need
  {
  }

  // An event that takes in the last octets of a frame.
  lemma EventEnds(sides: nat -> Side, r: Run, grant: int)
    requires r.Inv() && !r.Over()
    requires r.k + Taken(r, grant) == |r.Current()|
    ensures var s := Event(sides, r, grant);
            && s.Inv()
            && s == r.(rx := s.rx, done := r.done + 1, k := 0, calls := r.calls + Verdict(sides(r.done), r.Current()))
            && s.rx.raw[..|r.Current()|] == r.Current()
  {
    var f := r.Current();
    assert WellFormed(f);
    ReadPrefix(r, grant);
    Usable(sides(r.done), r, grant);
    var rx := AfterRead(r.rx, r.Readable(), grant).0;
    assert rx.raw[..|f|] == f;
    hide Judge;
  }

  // ----- whole runs

  // The calls made are the verdicts on the frames taken in.
  ghost predicate Good(sides: nat -> Side, r: Run) {
    r.Inv() && r.calls == Verdicts(sides, r.frames, r.done)
  }

  lemma EventKeeps(sides: nat -> Side, r: Run, grant: int)
    requires r.Inv()
    ensures var s := Event(sides, r, grant);
            s.Inv() && s.frames == r.frames && s.done >= r.done && (Good(sides, r) ==> Good(sides, s))
  {
    hide Event, Taken, Verdict, Run.Inv;
    if !r.Over() {
      TakenFits(r, grant);
    }
    if !r.Over() && r.k + Taken(r, grant) == |r.Current()| {
      EventEnds(sides, r, grant);
    } else {
      EventWaits(sides, r, grant);
    }
  }

  lemma TakenFits(r: Run, grant: int)
    requires r.Inv() && !r.Over()
    ensures r.k + Taken(r, grant) <= |r.Current()|
  {
    ReadPrefix(r, grant);
  }

  function Events(sides: nat -> Side, r: Run, grants: seq<int>): Run
    requires r.Inv()
    decreases |grants|
  {
    if grants == [] then r
    else
      EventKeeps(sides, r, grants[0]);
      Events(sides, Event(sides, r, grants[0]), grants[1..])
  }

  // Whatever the port does, each frame taken in has been judged once, in order, and nothing else has been called.
  lemma {:induction false} Reassembly(sides: nat -> Side, r: Run, grants: seq<int>)
    requires Good(sides, r)
    ensures var s := Events(sides, r, grants);
            Good(sides, s) && s.frames == r.frames && s.done >= r.done
    decreases |grants|
  {
    if grants != [] {
      EventKeeps(sides, r, grants[0]);
      Reassembly(sides, Event(sides, r, grants[0]), grants[1..]);
      hide Event, Good;
    }
  }

  // A fresh or re-armed receiver in front of a stream of frames.
  ghost predicate Start(r: Run) {
    r.Inv() && r.done == 0 && r.k == 0 && r.calls == []
  }

  // A receiver between two frames.
  ghost predicate Idle(rx: Rx) { rx.Valid() && rx.count == 0 && (rx.need == -1 || rx.need == 0) }

  lemma AnyStart(rx: Rx, frames: seq<seq<byte>>)
    requires Idle(rx)
    requires AllWellFormed(frames)
    ensures Start(Run(rx, frames, 0, 0, []))
  {
    if frames != [] {
      assert WellFormed(frames[0]);
    }
  }

  // A run that takes in the whole stream makes the calls the frames deserve.
  lemma WholeStream(sides: nat -> Side, r: Run, grants: seq<int>)
    requires Start(r) && Events(sides, r, grants).Over()
    ensures Events(sides, r, grants).calls == Verdicts(sides, r.frames, |r.frames|)
  {
    StartIsGood(sides, r);
    hide *;
    Reassembly(sides, r, grants);
    OverIsAll(sides, Events(sides, r, grants));
  }

  lemma StartIsGood(sides: nat -> Side, r: Run)
    requires Start(r)
    ensures Good(sides, r)
  {
  }

  lemma OverIsAll(sides: nat -> Side, r: Run)
    requires Good(sides, r) && r.Over()
    ensures r.calls == Verdicts(sides, r.frames, |r.frames|)
  {
  }

  // Two ways to split the same stream that both take it in give the same calls.
  lemma FragmentationIndependence(sides: nat -> Side, r: Run, grants: seq<int>, others: seq<int>)
    requires Start(r)
    requires Events(sides, r, grants).Over() && Events(sides, r, others).Over()
    ensures Events(sides, r, grants).calls == Events(sides, r, others).calls
  {
    WholeStream(sides, r, grants);
    WholeStream(sides, r, others);
    hide *;
  }

  // The frame taken in last stays in the buffer, where a server finds the id for its reply.
  lemma EventKeepsFrame(sides: nat -> Side, r: Run, grant: int)
    requires r.Inv() && |r.frames| == 1 && (r.Over() ==> r.rx.raw[..|r.frames[0]|] == r.frames[0])
    ensures Event(sides, r, grant).Inv() && Event(sides, r, grant).frames == r.frames
    ensures Event(sides, r, grant).Over() ==> Event(sides, r, grant).rx.raw[..|r.frames[0]|] == r.frames[0]
  {
    EventKeeps(sides, r, grant);
    if r.Over() {
      IdleReads(r.rx, grant);
    } else {
      TakenFits(r, grant);
      if r.k + Taken(r, grant) == |r.Current()| {
        EventEnds(sides, r, grant);
      } else {
        EventWaits(sides, r, grant);
      }
    }
  }

  lemma IdleReads(rx: Rx, grant: int)
    requires rx.Valid() && rx.count == 0
    ensures AfterRead(rx, [], grant).0.raw == rx.raw
  {
    assert rx.raw[..0] + [] + rx.raw[0..] == rx.raw;
  }

  lemma {:induction false} EventsKeepFrame(sides: nat -> Side, r: Run, grants: seq<int>)
    requires r.Inv() && |r.frames| == 1 && (r.Over() ==> r.rx.raw[..|r.frames[0]|] == r.frames[0])
    ensures Events(sides, r, grants).frames == r.frames
    ensures Events(sides, r, grants).Inv()
    ensures Events(sides, r, grants).Over() ==> Events(sides, r, grants).rx.raw[..|r.frames[0]|] == r.frames[0]
    decreases |grants|
  {
    hide Event;
    if grants != [] {
      EventKeeps(sides, r, grants[0]);
      EventKeepsFrame(sides, r, grants[0]);
      EventsKeepFrame(sides, Event(sides, r, grants[0]), grants[1..]);
    }
  }

  // ----- progress

  // While a header is in and octets are missing, the two counters add up to the frame.
  lemma CountersAddUp(sides: nat -> Side, r: Run, grants: seq<int>)
    requires Good(sides, r)
    ensures var s := Events(sides, r, grants);
            s.k >= MBAP_SIZE + 2 ==> !s.Over() && s.rx.count + s.rx.need == |s.Current()|
  {
    Reassembly(sides, r, grants);
  }

  // An event of a port that does not fail reads at least one octet, or re-arms an idle receiver.
  lemma Progress(sides: nat -> Side, r: Run, grant: int)
    requires r.Inv() && !r.Over() && grant > 0
    ensures Taken(r, grant) >= 1 ||
            (r.rx.need == 0 && r.k == 0 && Event(sides, r, grant) == r.(rx := r.rx.(need := -1)))
  {
    assert WellFormed(r.Current());
    if Taken(r, grant) == 0 {
      EventWaits(sides, r, grant);
      assert r.rx.raw[..0] + [] + r.rx.raw[0..] == r.rx.raw;
    }
  }

  // The events still needed at most: one per octet, and one per frame to re-arm.
  function Work(r: Run): nat
    requires r.Inv()
  {
    if r.Over() then 0
    else Volume(r.frames, r.done) - r.k - (if r.k > 0 || r.rx.need != 0 then 1 else 0)
  }

  function Volume(fs: seq<seq<byte>>, done: nat): (n: nat)
    requires done <= |fs|
    ensures done < |fs| ==> n >= |fs[done]| + 1
    decreases |fs| - done
  {
    if done == |fs| then 0 else |fs[done]| + 1 + Volume(fs, done + 1)
  }

  lemma EventWorks(sides: nat -> Side, r: Run, grant: int)
    requires r.Inv() && !r.Over() && grant > 0
    ensures Event(sides, r, grant).Inv() && Work(Event(sides, r, grant)) < Work(r)
  {
    hide AfterRead, DataEvent, Event, Taken;
    EventKeeps(sides, r, grant);
    Progress(sides, r, grant);
    TakenFits(r, grant);
    if r.k + Taken(r, grant) == |r.Current()| {
      EventEnds(sides, r, grant);
    } else {
      EventWaits(sides, r, grant);
    }
  }

  // Enough events of a port that does not fail take in the whole stream.
  lemma {:induction false} Completes(sides: nat -> Side, r: Run, grants: seq<int>)
    requires Good(sides, r) && |grants| >= Work(r)
    requires forall i :: 0 <= i < |grants| ==> grants[i] > 0
    ensures Events(sides, r, grants).Over()
    decreases |grants|
  {
    if r.Over() {
      Reassembly(sides, r, grants);
    } else if grants != [] {
      EventKeeps(sides, r, grants[0]);
      EventWorks(sides, r, grants[0]);
      Completes(sides, Event(sides, r, grants[0]), grants[1..]);
    }
  }

  // ----- the frames modbus_tcp_send_packet builds

  lemma FrameJudged(side: Side, tid: word, addr: byte, pdu: Pdu)
    requires |pdu.data| <= MAX_PDU_DATA_SIZE
    ensures var f := Frame(tid, addr, pdu);
            && (WellFormed(f) <==> pdu.data != [])
            && |f| == MBAP_SIZE + PktLength(f)
            && (side.isServer || side.txTid == tid ==>
                  Judge(side, f) == (if side.rxMax.None? then Silent
                                     else if side.rxMax.value < |pdu.data| then Failed(-RESP_BUFFER_OVF)
                                     else Delivered(addr, pdu)))
            && (!side.isServer && side.txTid != tid ==> Judge(side, f) == Failed(-RESP_WRONG_TRANSACTION_ID))
  {
    var f := Frame(tid, addr, pdu);
    assert f[8..] == pdu.data;
    assert Get16(f, 0) == tid && Get16(f, 4) == |pdu.data| + 2;
  }

  // A request or reply that is sent is delivered unchanged, however the port splits it.
  lemma RoundTrip(sides: nat -> Side, tid: word, addr: byte, pdu: Pdu, r: Run, grants: seq<int>)
    requires 1 <= |pdu.data| <= MAX_PDU_DATA_SIZE
    requires sides(0).isServer || sides(0).txTid == tid
    requires sides(0).rxMax.Some? && |pdu.data| <= sides(0).rxMax.value
    requires Start(r) && r.frames == [Frame(tid, addr, pdu)]
    requires Events(sides, r, grants).Over()
    ensures Events(sides, r, grants).calls == [Delivered(addr, pdu)]
  {
    FrameJudged(sides(0), tid, addr, pdu);
    WholeStream(sides, r, grants);
    hide Frame, Judge, Events;
    assert Verdicts(sides, r.frames, 1) == Verdicts(sides, r.frames, 0) + Verdict(sides(0), r.frames[0]);
  }
}
