/** Whom the client calls, in which order and with which address and error number, and what it hands to the
    transport: the entries that each step adds to the log, one by one. */
module ClientCalls {
  import opened Words
  import opened Pdus
  import opened Client
  import opened ClientRuns

  // ----- starting transactions

  // An accepted call adds one event, with the id, the address and the request of the call.
  lemma AcceptedCall(c: State, s: Start)
    requires c.rx.None?
    ensures var d := Do(c, s);
            && d.log == c.log + [Accepted(c.next, s.addr, s.txn.req)]
            && d.curr == Some(Ongoing(c.next, s.txn)) && d.addr == s.addr && d.rx == s.txn.resp
            && d.next == c.next + 1 && d.hooks == c.hooks
  {
  }

  // A refused call is told so, and changes nothing else.
  lemma RefusedCall(c: State, s: Start)
    requires c.rx.Some?
    ensures var d := Do(c, s);
            && d.log == c.log + [Refused(s.addr)]
            && d.curr == c.curr && d.addr == c.addr && d.rx == c.rx && d.next == c.next && d.hooks == c.hooks
  {
  }

  // What becomes of calls one after the other: while one waits for its answer, all others are refused.
  function Outcomes(waiting: bool, next: nat, starts: seq<Start>): seq<Event>
    decreases |starts|
  {
    if starts == [] then []
    else if waiting then [Refused(starts[0].addr)] + Outcomes(true, next, starts[1..])
    else [Accepted(next, starts[0].addr, starts[0].txn.req)] + Outcomes(starts[0].txn.resp.Some?, next + 1, starts[1..])
  }

  lemma {:induction false} DoAllFirst(c: State, starts: seq<Start>)
    requires starts != []
    ensures DoAll(c, starts) == DoAll(Do(c, starts[0]), starts[1..])
  {
    var n := |starts| - 1;
    if n == 0 {
      assert starts[..0] == [] && starts[1..] == [];
    } else {
      DoAllFirst(c, starts[..n]);
      assert starts[..n][1..] == starts[1..][..n - 1];
    }
  }

  lemma {:induction false} CallbackLog(c: State, starts: seq<Start>)
    ensures DoAll(c, starts).log == c.log + Outcomes(c.rx.Some?, c.next, starts)
    ensures DoAll(c, starts).hooks == c.hooks
    decreases |starts|
  {
    if starts != [] {
      DoAllFirst(c, starts);
      CallbackLog(Do(c, starts[0]), starts[1..]);
    }
  }

  // ----- calling back

  // The callbacks among the events.
  function Calls(log: seq<Event>): seq<Event> {
    if log == [] then [] else CallOf(log[0]) + Calls(log[1..])
  }

  function CallOf(e: Event): seq<Event> { if e.Closed? || e.ClientTold? then [e] else [] }

  lemma {:induction false} CallsAppend(a: seq<Event>, b: seq<Event>)
    ensures Calls(a + b) == Calls(a) + Calls(b)
  {
    hide CallOf;
    if a == [] {
      assert a + b == b;
    } else {
      CallsAppend(a[1..], b);
      assert (a + b)[1..] == a[1..] + b;
      Associative(CallOf(a[0]), Calls(a[1..]), Calls(b));
    }
  }

  lemma Associative(x: seq<Event>, y: seq<Event>, z: seq<Event>)
    ensures x + (y + z) == x + y + z
  {
  }

  lemma {:induction false} StartsCallNobody(waiting: bool, next: nat, starts: seq<Start>)
    ensures Calls(Outcomes(waiting, next, starts)) == []
    ensures forall i :: 0 <= i < |Outcomes(waiting, next, starts)| ==>
              !Outcomes(waiting, next, starts)[i].Closed? && !Outcomes(waiting, next, starts)[i].ClientTold?
    decreases |starts|
  {
    if starts != [] {
      if waiting {
        StartsCallNobody(true, next, starts[1..]);
      } else {
        StartsCallNobody(starts[0].txn.resp.Some?, next + 1, starts[1..]);
      }
    }
  }

  // What a step has added.
  function Added(c: State, d: State): seq<Event>
    requires c.log <= d.log
  {
    d.log[|c.log|..]
  }

  // The client's own callback is called, if it is installed, and then the calls it makes are served.
  lemma ClientAdds(c: State, addr: int, errno: int, starts: seq<Start>)
    ensures var d := TellClient(c, addr, errno, starts);
            && d.hooks == c.hooks
            && d.log == if c.hooks then c.log + [ClientTold(addr, errno)] + Outcomes(c.rx.Some?, c.next, starts) else c.log
  {
    CallbackLog(c.(log := c.log + [ClientTold(addr, errno)]), starts);
  }

  lemma OwnerAdds(c: State, t: Ongoing, addr: int, errno: int, starts: seq<Start>)
    ensures var d, called := TellOwner(c, t, addr, errno, starts), if errno == 0 then t.txn.onResponse else t.txn.onError;
            && d.hooks == c.hooks
            && d.log == c.log + [Closed(t.id, addr, errno, called)]
                        + if called then Outcomes(c.rx.Some?, c.next, starts) else []
  {
    var called := if errno == 0 then t.txn.onResponse else t.txn.onError;
    CallbackLog(c.(log := c.log + [Closed(t.id, addr, errno, called)]), starts);
  }

  lemma CallsBehind(c: State, d: State, e: Event, waiting: bool, next: nat, starts: seq<Start>)
    requires d.log == c.log + [e] + Outcomes(waiting, next, starts) || d.log == c.log + [e]
    ensures c.log <= d.log && Calls(Added(c, d)) == CallOf(e)
  {
    hide CallOf;
    StartsCallNobody(waiting, next, starts);
    var added := Added(c, d);
    assert added[1..] == Outcomes(waiting, next, starts) || added[1..] == [];
    assert Calls(added) == CallOf(added[0]) + Calls(added[1..]);
  }

  lemma CallsOfClient(c: State, addr: int, errno: int, starts: seq<Start>)
    ensures var d := TellClient(c, addr, errno, starts);
            c.log <= d.log && Calls(Added(c, d)) == if c.hooks then [ClientTold(addr, errno)] else []
  {
    hide TellClient, Outcomes;
    var d := TellClient(c, addr, errno, starts);
    ClientAdds(c, addr, errno, starts);
    if c.hooks {
      CallsBehind(c, d, ClientTold(addr, errno), c.rx.Some?, c.next, starts);
    }
  }

  lemma CallsOfOwner(c: State, t: Ongoing, addr: int, errno: int, starts: seq<Start>)
    ensures var d, called := TellOwner(c, t, addr, errno, starts), if errno == 0 then t.txn.onResponse else t.txn.onError;
            c.log <= d.log && Calls(Added(c, d)) == [Closed(t.id, addr, errno, called)]
  {
    hide TellOwner, Outcomes;
    var d, called := TellOwner(c, t, addr, errno, starts), if errno == 0 then t.txn.onResponse else t.txn.onError;
    OwnerAdds(c, t, addr, errno, starts);
    var closed := Closed(t.id, addr, errno, called);
    assert c.log + [closed] + [] == c.log + [closed];
    CallsBehind(c, d, closed, c.rx.Some?, c.next, starts);
  }

  lemma CallsOfBoth(c: State, d: State, e: State)
    requires c.log <= d.log <= e.log
    ensures c.log <= e.log && Calls(Added(c, e)) == Calls(Added(c, d)) + Calls(Added(d, e))
  {
    CallsAppend(Added(c, d), Added(d, e));
    assert Added(c, e) == Added(c, d) + Added(d, e);
  }

  // ----- the three ends

  // A timeout tells the owner -1006 with the address of its call, before anything else happens, and tells no one else;
  // the owner's callback, and only it, may start further transactions.
  lemma TimeoutTells(c: State, starts: seq<Start>)
    requires c.curr.Some?
    ensures var t, d := c.curr.value, Timeout(c, starts);
            && c.log <= d.log && |d.log| > |c.log|
            && d.log[|c.log|] == Closed(t.id, c.addr, -1006, t.txn.onError)
            && (forall i :: |c.log| < i < |d.log| ==> !d.log[i].Closed? && !d.log[i].ClientTold?)
            && d.log == c.log + [Closed(t.id, c.addr, -1006, t.txn.onError)]
                        + if t.txn.onError then Outcomes(false, c.next, starts) else []
  {
    hide TellOwner;
    OwnerAdds(c.(curr := None, rx := None), c.curr.value, c.addr, -RESP_TIMEOUT, starts);
    StartsCallNobody(false, c.next, starts);
  }

  // How a packet closes the transaction: with -1004 if it comes from another address, with -1500 less the code if it
  // is an exception, with -1005 if it answers another function, and else with 0.
  function ErrorOf(c: State, t: Ongoing, addr: int, pkt: Pdu, stale: byte): int {
    if addr != c.addr then -1004
    else if pkt.func >= 128 then -1500 - (if |pkt.data| > 0 then pkt.data[0] else stale)
    else if pkt.func != t.txn.req.func then -1005
    else 0
  }

  lemma AssessIs(c: State, t: Ongoing, addr: int, pkt: Pdu, stale: byte)
    ensures Assess(c.addr, t.txn.req, addr, pkt, stale) == ErrorOf(c, t, addr, pkt, stale)
  {
  }

  // An error is told to the client and then to the owner, a success to the owner and then to the client.
  lemma PacketTells(c: State, addr: int, pkt: Pdu, stale: byte, first: seq<Start>, second: seq<Start>)
    requires c.curr.Some?
    ensures var t, d := c.curr.value, Receive(c, addr, pkt, stale, first, second);
            var errno := ErrorOf(c, t, addr, pkt, stale);
            var client := if c.hooks then [ClientTold(addr, errno)] else [];
            && c.log <= d.log
            && Calls(Added(c, d)) == if errno == 0 then [Closed(t.id, addr, 0, t.txn.onResponse)] + client
                                     else client + [Closed(t.id, addr, errno, t.txn.onError)]
  {
    hide Assess, ErrorOf, Calls, CallOf, TellClient, TellOwner;
    var t, d := c.curr.value, c.(curr := None, rx := None);
    var errno := ErrorOf(c, t, addr, pkt, stale);
    AssessIs(c, t, addr, pkt, stale);
    if errno == 0 {
      var e := TellOwner(d, t, addr, 0, first);
      OwnerAdds(d, t, addr, 0, first);
      CallsOfOwner(d, t, addr, 0, first);
      CallsOfClient(e, addr, 0, second);
      CallsOfBoth(d, e, TellClient(e, addr, 0, second));
    } else {
      var e := TellClient(d, addr, errno, first);
      ClientAdds(d, addr, errno, first);
      CallsOfClient(d, addr, errno, first);
      CallsOfOwner(e, t, addr, errno, second);
      CallsOfBoth(d, e, TellOwner(e, t, addr, errno, second));
    }
  }

  lemma ReceiveIs(c: State, addr: int, pkt: Pdu, stale: byte, first: seq<Start>, second: seq<Start>)
    requires c.curr.Some?
    ensures var t, d, errno := c.curr.value, c.(curr := None, rx := None), ErrorOf(c, c.curr.value, addr, pkt, stale);
            Receive(c, addr, pkt, stale, first, second) ==
              if errno == 0 then TellClient(TellOwner(d, t, addr, 0, first), addr, 0, second)
              else TellOwner(TellClient(d, addr, errno, first), t, addr, errno, second)
  {
    hide Assess, ErrorOf, TellClient, TellOwner;
    AssessIs(c, c.curr.value, addr, pkt, stale);
  }

  lemma NothingStarted(waiting: bool, next: nat, log: seq<Event>)
    ensures log + Outcomes(waiting, next, []) == log && log + [] == log
  {
  }

  // What is told first is logged first, and its callback makes the first calls: after a success the owner's,
  lemma SuccessStarts(c: State, addr: int, pkt: Pdu, stale: byte, first: seq<Start>, second: seq<Start>)
    requires c.curr.Some? && ErrorOf(c, c.curr.value, addr, pkt, stale) == 0
    ensures var t, log := c.curr.value, Receive(c, addr, pkt, stale, first, second).log;
            var told := c.log + [Closed(t.id, addr, 0, t.txn.onResponse)]
                        + if t.txn.onResponse then Outcomes(false, c.next, first) else [];
            told <= log && (second == [] ==> log == if c.hooks then told + [ClientTold(addr, 0)] else told)
  {
    hide ErrorOf, TellClient, TellOwner, Receive, Outcomes;
    var t, d := c.curr.value, c.(curr := None, rx := None);
    var e := TellOwner(d, t, addr, 0, first);
    ReceiveIs(c, addr, pkt, stale, first, second);
    OwnerAdds(d, t, addr, 0, first);
    ClientAdds(e, addr, 0, second);
    NothingStarted(e.rx.Some?, e.next, e.log + [ClientTold(addr, 0)]);
  }

  // and after an error the client's.
  lemma ErrorStarts(c: State, addr: int, pkt: Pdu, stale: byte, first: seq<Start>, second: seq<Start>)
    requires c.curr.Some? && ErrorOf(c, c.curr.value, addr, pkt, stale) != 0
    ensures var t, log := c.curr.value, Receive(c, addr, pkt, stale, first, second).log;
            var errno := ErrorOf(c, t, addr, pkt, stale);
            var told := if c.hooks then c.log + [ClientTold(addr, errno)] + Outcomes(false, c.next, first) else c.log;
            && told + [Closed(t.id, addr, errno, t.txn.onError)] <= log
            && (second == [] ==> log == told + [Closed(t.id, addr, errno, t.txn.onError)])
  {
    hide ErrorOf, TellClient, TellOwner, Receive, Outcomes;
    var t, d, errno := c.curr.value, c.(curr := None, rx := None), ErrorOf(c, c.curr.value, addr, pkt, stale);
    var e := TellClient(d, addr, errno, first);
    ReceiveIs(c, addr, pkt, stale, first, second);
    ClientAdds(d, addr, errno, first);
    OwnerAdds(e, t, addr, errno, second);
    NothingStarted(e.rx.Some?, e.next, e.log + [Closed(t.id, addr, errno, t.txn.onError)]);
  }

  // An error of the transport is told with its own number, to the client and then to the owner.
  lemma ErrorTells(c: State, errno: int, first: seq<Start>, second: seq<Start>)
    requires c.curr.Some? && errno != 0
    ensures var t, d := c.curr.value, TransportError(c, errno, first, second);
            var client := if c.hooks then [ClientTold(c.addr, errno)] else [];
            var addr := TellClient(c.(curr := None, rx := None), c.addr, errno, first).addr;
            && c.log <= d.log && Calls(Added(c, d)) == client + [Closed(t.id, addr, errno, t.txn.onError)]
            && c.log + client <= d.log
  {
    hide Calls, TellClient, TellOwner, CallOf;
    var t, d := c.curr.value, c.(curr := None, rx := None);
    var e := TellClient(d, c.addr, errno, first);
    ClientAdds(d, c.addr, errno, first);
    CallsOfClient(d, c.addr, errno, first);
    OwnerAdds(e, t, e.addr, errno, second);
    CallsOfOwner(e, t, e.addr, errno, second);
    CallsOfBoth(d, e, TellOwner(e, t, e.addr, errno, second));
  }

  // An end without a transaction calls nobody; a packet and a timeout withdraw the PDU that waits, an error leaves it.
  lemma NothingToEnd(c: State, addr: int, pkt: Pdu, stale: byte, errno: int, first: seq<Start>, second: seq<Start>)
    requires c.curr.None? && errno != 0
    ensures Receive(c, addr, pkt, stale, first, second) == c.(rx := None)
    ensures Timeout(c, first) == c.(rx := None)
    ensures TransportError(c, errno, first, second) == c
  {
  }
}
