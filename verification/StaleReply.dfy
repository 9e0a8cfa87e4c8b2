/** The client over TCP, against a server that echoes transaction ids.

    The id of the latest request is in the transmit buffer (emodbus/transport/tcp.c:98-105);
    a packet with another id becomes a transport error (tcp.c:47-53).  A late reply is
    therefore never taken for the answer to a newer request, as long as the 16-bit id has
    not come round in between.  Replies may come at any time and any number of times, mixed with
    calls, timeouts and errors of the transport. */
module StaleReply {
  import opened Words
  import opened Pdus
  import opened Client
  import opened ClientRuns
  import Tcp
  import TcpReassembly

  /** What happens next: a complete reply to the request number `of` comes in, as the
      echoing server sends it, at whatever time and however often; or something else. */
  datatype Move =
    | Other(input: Input)
    | Reply(of: nat, addr: byte, pdu: Pdu, stale: byte, first: seq<Start>, second: seq<Start>)

  // Requests are numbered as they are sent; all of them fit the transport.
  predicate Sendable(m: Move) {
    match m
    case Other(i) => Sound(i) && !i.Packet? && Small(i)
    case Reply(_, _, pdu, _, first, second) =>
      1 <= |pdu.data| <= MAX_PDU_DATA_SIZE && Armed(first) && Armed(second) && AllSmall(first) && AllSmall(second)
  }

  predicate AllSmall(starts: seq<Start>) {
    forall i :: 0 <= i < |starts| ==> |starts[i].txn.req.data| <= MAX_PDU_DATA_SIZE
  }

  predicate Small(i: Input) {
    match i
    case Call(s) => |s.txn.req.data| <= MAX_PDU_DATA_SIZE
    case Packet(_, _, _, first, second) => AllSmall(first) && AllSmall(second)
    case Broken(_, first, second) => AllSmall(first) && AllSmall(second)
    case Expired(starts) => AllSmall(starts)
  }

  // The transaction id after n requests, from emb_tcp_initialize on.
  function TidAfter(n: nat): word {
    if n == 0 then 0 else Tcp.NextTid(TidAfter(n - 1))
  }

  lemma {:induction false} TidIsModulo(n: nat)
    ensures TidAfter(n) == n % 0x1_0000
  {
    if n > 0 {
      TidIsModulo(n - 1);
    }
  }

  lemma TidsAgreeIff(m: nat, n: nat)
    requires n <= m
    ensures TidAfter(m) == TidAfter(n) <==> (m - n) % 0x1_0000 == 0
    ensures m < n + 0x1_0000 ==> (TidAfter(m) == TidAfter(n) <==> m == n)
  {
    TidIsModulo(m);
    TidIsModulo(n);
    ModuloDistance(m, n);
    hide TidAfter;
  }

  lemma ModuloDistance(m: nat, n: nat)
    requires n <= m
    ensures m % 0x1_0000 == n % 0x1_0000 <==> (m - n) % 0x1_0000 == 0
  {
    var q, r, d := m / 0x1_0000, n / 0x1_0000, (m - n) / 0x1_0000;
    if m % 0x1_0000 == n % 0x1_0000 {
      assert m - n == 0x1_0000 * (q - r);
    }
    if (m - n) % 0x1_0000 == 0 {
      assert m == n + 0x1_0000 * d;
    }
  }

  // What the receiver makes of the reply to request number `of`.
  function Judged(c: State, of: nat, addr: byte, pdu: Pdu): (o: Outcome)
    requires |pdu.data| <= MAX_PDU_DATA_SIZE
    ensures o.Failed? ==> o.errno != 0
  {
    TcpReassembly.FrameJudged(Tcp.Side(false, TidAfter(c.next), c.rx), TidAfter(of + 1), addr, pdu);
    Tcp.Judge(Tcp.Side(false, TidAfter(c.next), c.rx), Tcp.Frame(TidAfter(of + 1), addr, pdu))
  }

  // One move of the client and its transport.
  function Advance(c: State, m: Move): State
    requires Sendable(m)
  {
    match m
    case Other(i) => Step(c, i)
    case Reply(of, addr, pdu, stale, first, second) =>
      match Judged(c, of, addr, pdu)
      case Silent => c
      case Failed(errno) => TransportError(c, errno, first, second)
      case Delivered(a, p) => Receive(c, a, p, stale, first, second)
  }

  // The reply belongs to one of the latest 65536 requests.
  predicate Recent(c: State, of: nat) { of < c.next <= of + 0x1_0000 }

  // A reply is let through exactly when the ids agree, that is, when 65536 divides the distance.
  lemma LetThroughIff(c: State, of: nat, addr: byte, pdu: Pdu)
    requires of < c.next && 1 <= |pdu.data| <= MAX_PDU_DATA_SIZE
    requires c.rx.Some? && |pdu.data| <= c.rx.value
    ensures Judged(c, of, addr, pdu) ==
            if (c.next - 1 - of) % 0x1_0000 == 0 then Delivered(addr, pdu) else Failed(-RESP_WRONG_TRANSACTION_ID)
    ensures Recent(c, of) ==> (Judged(c, of, addr, pdu).Delivered? <==> of == c.next - 1)
  {
    TidsAgreeIff(c.next, of + 1);
    TcpReassembly.FrameJudged(Tcp.Side(false, TidAfter(c.next), c.rx), TidAfter(of + 1), addr, pdu);
    hide Tcp.Judge, Tcp.Frame;
  }

  // The responses told to owners in the part of a log from position `from` on.
  ghost predicate ResponsesOnlyTo(log: seq<Event>, from: nat, id: nat) {
    forall k :: from <= k < |log| && log[k].Closed? && log[k].errno == 0 ==> log[k].id == id
  }

  ghost predicate NoResponses(log: seq<Event>, from: nat) {
    forall k :: from <= k < |log| && log[k].Closed? ==> log[k].errno != 0
  }

  lemma {:induction false} DoAllExtends(c: State, starts: seq<Start>)
    ensures c.log <= DoAll(c, starts).log
    ensures forall k :: |c.log| <= k < |DoAll(c, starts).log| ==> !DoAll(c, starts).log[k].Closed?
  {
    if starts != [] {
      DoAllExtends(c, starts[..|starts| - 1]);
    }
  }

  lemma TellClientExtends(c: State, addr: int, errno: int, starts: seq<Start>)
    ensures var d := TellClient(c, addr, errno, starts);
            c.log <= d.log && forall k :: |c.log| <= k < |d.log| ==> !d.log[k].Closed?
  {
    DoAllExtends(c.(log := c.log + [ClientTold(addr, errno)]), starts);
  }

  lemma TellOwnerExtends(c: State, t: Ongoing, addr: int, errno: int, starts: seq<Start>)
    ensures var d := TellOwner(c, t, addr, errno, starts);
            && c.log <= d.log && |c.log| < |d.log|
            && d.log[|c.log|].Closed? && d.log[|c.log|].id == t.id && d.log[|c.log|].errno == errno
            && forall k :: |c.log| < k < |d.log| ==> !d.log[k].Closed?
  {
    var called := if errno == 0 then t.txn.onResponse else t.txn.onError;
    DoAllExtends(c.(log := c.log + [Closed(t.id, addr, errno, called)]), starts);
  }

  // A packet is a response only to the outstanding transaction, and only if address and function match.
  lemma PacketResponds(c: State, addr: int, pkt: Pdu, stale: byte, first: seq<Start>, second: seq<Start>)
    ensures var d := Receive(c, addr, pkt, stale, first, second);
            && c.log <= d.log
            && (c.curr.None? ==> NoResponses(d.log, |c.log|))
            && (c.curr.Some? ==> ResponsesOnlyTo(d.log, |c.log|, c.curr.value.id))
            && (c.curr.Some? && !(c.addr == addr && pkt.func == c.curr.value.txn.req.func && pkt.func < 0x80) ==>
                  NoResponses(d.log, |c.log|))
  {
    if c.curr.Some? {
      var d, t := c.(curr := None, rx := None), c.curr.value;
      var errno := Assess(c.addr, t.txn.req, addr, pkt, stale);
      if errno == 0 {
        TellOwnerExtends(d, t, addr, 0, first);
        TellClientExtends(TellOwner(d, t, addr, 0, first), addr, 0, second);
      } else {
        TellClientExtends(d, addr, errno, first);
        TellOwnerExtends(TellClient(d, addr, errno, first), t, addr, errno, second);
      }
    }
  }

  lemma ErrorResponds(c: State, errno: int, first: seq<Start>, second: seq<Start>)
    requires errno != 0
    ensures var d := TransportError(c, errno, first, second);
            c.log <= d.log && NoResponses(d.log, |c.log|)
  {
    if c.curr.Some? {
      var d := c.(curr := None, rx := None);
      TellClientExtends(d, c.addr, errno, first);
      var e := TellClient(d, c.addr, errno, first);
      TellOwnerExtends(e, c.curr.value, e.addr, errno, second);
    }
  }

  lemma OtherResponds(c: State, i: Input)
    requires Sound(i) && !i.Packet?
    ensures c.log <= Step(c, i).log && NoResponses(Step(c, i).log, |c.log|)
  {
    match i
    case Call(s) =>
    case Broken(errno, first, second) =>
      ErrorResponds(c, errno, first, second);
    case Expired(starts) =>
      if c.curr.Some? {
        TellOwnerExtends(c.(curr := None, rx := None), c.curr.value, c.addr, -RESP_TIMEOUT, starts);
      }
  }

  /** A run, with the number of the request that each log entry came from. */
  datatype Trace = Trace(client: State, origins: seq<Option<nat>>)

  function Origins(origins: seq<Option<nat>>, log: seq<Event>, o: Option<nat>): (r: seq<Option<nat>>)
    requires |origins| <= |log|
    ensures |r| == |log| && origins <= r && forall k :: |origins| <= k < |r| ==> r[k] == o
  {
    origins + seq(|log| - |origins|, _ => o)
  }

  ghost predicate Reachable(t: Trace) {
    && ClientRuns.Inv(t.client)
    && |t.origins| == |t.client.log|
    // every response told to an owner came from a reply to the owner's own request
    && (forall k :: 0 <= k < |t.client.log| && t.client.log[k].Closed? && t.client.log[k].errno == 0 ==>
          t.origins[k] == Some(t.client.log[k].id))
  }

  lemma AdvanceResponds(c: State, m: Move)
    requires ClientRuns.Inv(c) && Sendable(m)
    ensures ClientRuns.Inv(Advance(c, m)) && c.log <= Advance(c, m).log
    ensures m.Other? ==> NoResponses(Advance(c, m).log, |c.log|)
    ensures m.Reply? && Recent(c, m.of) ==> ResponsesOnlyTo(Advance(c, m).log, |c.log|, m.of)
  {
    match m
    case Other(i) =>
      StepKeepsInv(c, i);
      OtherResponds(c, i);
    case Reply(of, addr, pdu, stale, first, second) =>
      match Judged(c, of, addr, pdu) {
        case Silent =>
        case Failed(errno) =>
          StepKeepsInv(c, Broken(errno, first, second));
          ErrorResponds(c, errno, first, second);
        case Delivered(a, p) =>
          StepKeepsInv(c, Packet(a, p, stale, first, second));
          PacketResponds(c, a, p, stale, first, second);
          if Recent(c, of) {
            DeliveredIsLatest(c, of, addr, pdu);
          }
      }
  }

  lemma DeliveredIsLatest(c: State, of: nat, addr: byte, pdu: Pdu)
    requires Recent(c, of) && 1 <= |pdu.data| <= MAX_PDU_DATA_SIZE
    requires Judged(c, of, addr, pdu).Delivered?
    ensures of == c.next - 1
  {
    TcpReassembly.FrameJudged(Tcp.Side(false, TidAfter(c.next), c.rx), TidAfter(of + 1), addr, pdu);
    hide Tcp.Judge, Tcp.Frame;
    LetThroughIff(c, of, addr, pdu);
  }

  function Next(t: Trace, m: Move): Trace
    requires ClientRuns.Inv(t.client) && |t.origins| == |t.client.log| && Sendable(m)
  {
    AdvanceResponds(t.client, m);
    var d := Advance(t.client, m);
    Trace(d, Origins(t.origins, d.log, if m.Reply? then Some(m.of) else None))
  }

  lemma NextReachable(t: Trace, m: Move)
    requires Reachable(t) && Sendable(m) && (m.Reply? ==> Recent(t.client, m.of))
    ensures Reachable(Next(t, m))
  {
    AdvanceResponds(t.client, m);
    hide Advance, ClientRuns.Inv;
  }

  // Every reply answers one of the latest 65536 requests when it comes in.
  ghost predicate Timely(t: Trace, moves: seq<Move>)
    requires Reachable(t) && forall k :: 0 <= k < |moves| ==> Sendable(moves[k])
    decreases |moves|
  {
    moves == [] ||
    ((moves[0].Reply? ==> Recent(t.client, moves[0].of)) &&
     (NextReachable(t, moves[0]); Timely(Next(t, moves[0]), moves[1..])))
  }

  function Trail(t: Trace, moves: seq<Move>): Trace
    requires Reachable(t) && (forall k :: 0 <= k < |moves| ==> Sendable(moves[k])) && Timely(t, moves)
    decreases |moves|
  {
    if moves == [] then t
    else
      NextReachable(t, moves[0]);
      Trail(Next(t, moves[0]), moves[1..])
  }

  lemma {:induction false} TrailReachable(t: Trace, moves: seq<Move>)
    requires Reachable(t) && (forall k :: 0 <= k < |moves| ==> Sendable(moves[k])) && Timely(t, moves)
    ensures Reachable(Trail(t, moves))
    decreases |moves|
  {
    if moves != [] {
      NextReachable(t, moves[0]);
      TrailReachable(Next(t, moves[0]), moves[1..]);
      hide Reachable, Next;
    }
  }

  // The idle client, before any move.
  ghost function Begin(hooks: bool): (t: Trace)
    ensures Reachable(t)
  {
    Trace(Initial(hooks), [])
  }

  // No stale reply: in every run from the start, each response told to an owner came from
  // a reply to that owner's own request.
  lemma NoStaleReply(hooks: bool, moves: seq<Move>)
    requires (forall k :: 0 <= k < |moves| ==> Sendable(moves[k])) && Timely(Begin(hooks), moves)
    ensures var r := Trail(Begin(hooks), moves);
            && |r.origins| == |r.client.log|
            && forall k :: 0 <= k < |r.client.log| && r.client.log[k].Closed? && r.client.log[k].errno == 0 ==>
                 r.origins[k] == Some(r.client.log[k].id)
  {
    TrailReachable(Begin(hooks), moves);
    hide Trail;
  }

  // When exactly 65536 requests have been sent since, the ids agree again and the late reply does pass.
  lemma LateReplyPassesAfterWrap(c: State, addr: byte, pdu: Pdu)
    requires c.next > 0x1_0000 && 1 <= |pdu.data| <= MAX_PDU_DATA_SIZE
    requires c.rx.Some? && |pdu.data| <= c.rx.value
    ensures Judged(c, c.next - 1 - 0x1_0000, addr, pdu) == Delivered(addr, pdu)
  {
    hide *;
    var distance := 0x1_0000;
    assert distance % 0x1_0000 == 0;
    LetThroughIff(c, c.next - 1 - distance, addr, pdu);
  }
}
