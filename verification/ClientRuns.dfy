/** Runs of the client: every accepted transaction is closed exactly once.

    The runs are arbitrary sequences of calls, packets, transport errors and timeouts;
    every callback may start further transactions. */
module ClientRuns {
  import opened Words
  import opened Pdus
  import opened Client

  datatype Input =
    | Call(start: Start)
    | Packet(addr: int, pkt: Pdu, stale: byte, first: seq<Start>, second: seq<Start>)
    | Broken(errno: int, first: seq<Start>, second: seq<Start>)
    | Expired(starts: seq<Start>)

  // Every transaction brings a response PDU, and error numbers are not zero.
  predicate Sound(i: Input) {
    match i
    case Call(s) => s.txn.resp.Some?
    case Packet(_, _, _, first, second) => Armed(first) && Armed(second)
    case Broken(errno, first, second) => errno != 0 && Armed(first) && Armed(second)
    case Expired(starts) => Armed(starts)
  }

  predicate Armed(starts: seq<Start>) { forall i :: 0 <= i < |starts| ==> starts[i].txn.resp.Some? }

  function Step(c: State, i: Input): State
    requires Sound(i)
  {
    match i
    case Call(s) => Do(c, s)
    case Packet(addr, pkt, stale, first, second) => Receive(c, addr, pkt, stale, first, second)
    case Broken(errno, first, second) => TransportError(c, errno, first, second)
    case Expired(starts) => Timeout(c, starts)
  }

  function Run(c: State, inputs: seq<Input>): State
    requires forall k :: 0 <= k < |inputs| ==> Sound(inputs[k])
  {
    if inputs == [] then c else Step(Run(c, inputs[..|inputs| - 1]), inputs[|inputs| - 1])
  }

  // How often transaction id has been closed.
  function Closings(log: seq<Event>, id: nat): nat {
    if log == [] then 0
    else
      var e := log[|log| - 1];
      Closings(log[..|log| - 1], id) + if e.Closed? && e.id == id then 1 else 0
  }

  lemma ClosingsOfOneMore(log: seq<Event>, e: Event, id: nat)
    ensures Closings(log + [e], id) == Closings(log, id) + if e.Closed? && e.id == id then 1 else 0
  {
    assert (log + [e])[..|log|] == log;
  }

  predicate IsCurrent(c: State, id: nat) { c.curr.Some? && c.curr.value.id == id }

  // A receive PDU waits exactly while a transaction is outstanding; all others but `owed` are closed once.
  ghost predicate Consistent(c: State, owed: Option<nat>) {
    && (c.rx.Some? <==> c.curr.Some?)
    && (c.curr.Some? ==> c.curr.value.id == c.next - 1 && Some(c.curr.value.id) != owed)
    && (owed.Some? ==> owed.value < c.next)
    && forall id: nat :: Closings(c.log, id) ==
         if id < c.next && !IsCurrent(c, id) && Some(id) != owed then 1 else 0
  }

  ghost predicate Inv(c: State) { Consistent(c, None) }

  // Everything the steps append to the log, one event at a time.
  lemma Noted(c: State, owed: Option<nat>, e: Event)
    requires Consistent(c, owed) && !e.Closed?
    ensures Consistent(c.(log := c.log + [e]), owed)
  {
    forall id: nat ensures Closings(c.log + [e], id) == Closings(c.log, id) {
      ClosingsOfOneMore(c.log, e, id);
    }
  }

  lemma DoConsistent(c: State, owed: Option<nat>, s: Start)
    requires Consistent(c, owed) && s.txn.resp.Some?
    ensures Consistent(Do(c, s), owed) && Do(c, s).next >= c.next
  {
    if c.rx.Some? {
      Noted(c, owed, Refused(s.addr));
    } else {
      Noted(c, owed, Accepted(c.next, s.addr, s.txn.req));
    }
  }

  lemma {:induction false} DoAllConsistent(c: State, owed: Option<nat>, starts: seq<Start>)
    requires Consistent(c, owed) && Armed(starts)
    ensures Consistent(DoAll(c, starts), owed) && DoAll(c, starts).next >= c.next
  {
    if starts != [] {
      var before := starts[..|starts| - 1];
      DoAllConsistent(c, owed, before);
      DoConsistent(DoAll(c, before), owed, starts[|starts| - 1]);
    }
  }

  lemma TellClientConsistent(c: State, owed: Option<nat>, addr: int, errno: int, starts: seq<Start>)
    requires Consistent(c, owed) && Armed(starts)
    ensures Consistent(TellClient(c, addr, errno, starts), owed)
    ensures TellClient(c, addr, errno, starts).next >= c.next
  {
    if c.hooks {
      Noted(c, owed, ClientTold(addr, errno));
      DoAllConsistent(c.(log := c.log + [ClientTold(addr, errno)]), owed, starts);
    }
  }

  // Telling the owner settles what is owed.
  lemma TellOwnerConsistent(c: State, t: Ongoing, addr: int, errno: int, starts: seq<Start>)
    requires Consistent(c, Some(t.id)) && Armed(starts)
    ensures Inv(TellOwner(c, t, addr, errno, starts))
  {
    var called := if errno == 0 then t.txn.onResponse else t.txn.onError;
    var e := Closed(t.id, addr, errno, called);
    var d := c.(log := c.log + [e]);
    assert Inv(d) by {
      forall id: nat ensures Closings(d.log, id) == Closings(c.log, id) + if id == t.id then 1 else 0 {
        ClosingsOfOneMore(c.log, e, id);
      }
    }
    if called {
      DoAllConsistent(d, None, starts);
    }
  }

  lemma StepKeepsInv(c: State, i: Input)
    requires Inv(c) && Sound(i)
    ensures Inv(Step(c, i))
  {
    var d := c.(curr := None, rx := None);
    match i
    case Call(s) =>
      DoConsistent(c, None, s);
    case Packet(addr, pkt, stale, first, second) =>
      if c.curr.Some? {
        var t := c.curr.value;
        assert Consistent(d, Some(t.id));
        var errno := Assess(c.addr, t.txn.req, addr, pkt, stale);
        if errno == 0 {
          TellOwnerConsistent(d, t, addr, 0, first);
          TellClientConsistent(TellOwner(d, t, addr, 0, first), None, addr, 0, second);
        } else {
          TellClientConsistent(d, Some(t.id), addr, errno, first);
          TellOwnerConsistent(TellClient(d, addr, errno, first), t, addr, errno, second);
        }
      }
    case Broken(errno, first, second) =>
      if c.curr.Some? {
        var t := c.curr.value;
        assert Consistent(d, Some(t.id));
        TellClientConsistent(d, Some(t.id), c.addr, errno, first);
        var e := TellClient(d, c.addr, errno, first);
        TellOwnerConsistent(e, t, e.addr, errno, second);
      }
    case Expired(starts) =>
      if c.curr.Some? {
        assert Consistent(d, Some(c.curr.value.id));
        TellOwnerConsistent(d, c.curr.value, c.addr, -RESP_TIMEOUT, starts);
      }
  }

  function Initial(hooks: bool): State { State(None, 0, None, hooks, 0, []) }

  // In every reachable state the receive PDU waits iff a transaction is outstanding,
  // and every accepted transaction has been closed exactly once, unless it is the outstanding one.
  lemma {:induction false} ExactlyOnce(hooks: bool, inputs: seq<Input>)
    requires forall k :: 0 <= k < |inputs| ==> Sound(inputs[k])
    ensures var c := Run(Initial(hooks), inputs);
            && Inv(c)
            && (c.rx.Some? <==> c.curr.Some?)
            && forall id: nat :: Closings(c.log, id) == if id < c.next && !IsCurrent(c, id) then 1 else 0
  {
    if inputs != [] {
      ExactlyOnce(hooks, inputs[..|inputs| - 1]);
      StepKeepsInv(Run(Initial(hooks), inputs[..|inputs| - 1]), inputs[|inputs| - 1]);
    }
  }

  // An outstanding transaction has not been closed; a packet, an error or a timeout closes it, and nothing else does.
  lemma ClosedByAnyEnd(c: State, i: Input)
    requires Inv(c) && Sound(i) && c.curr.Some?
    ensures Closings(c.log, c.curr.value.id) == 0
    ensures Closings(Step(c, i).log, c.curr.value.id) == if i.Call? then 0 else 1
    ensures i.Call? ==> Step(c, i) == c.(log := c.log + [Refused(i.start.addr)])
  {
    var id := c.curr.value.id;
    StepKeepsInv(c, i);
    assert IsCurrent(c, id);
    if i.Call? {
      ClosingsOfOneMore(c.log, Refused(i.start.addr), id);
    } else {
      CurrentIsNew(c, i);
    }
  }

  // What is outstanding after an end was accepted after it.
  lemma CurrentIsNew(c: State, i: Input)
    requires Inv(c) && Sound(i) && c.curr.Some? && !i.Call?
    ensures !IsCurrent(Step(c, i), c.curr.value.id) && c.curr.value.id < Step(c, i).next
  {
    var d, t := c.(curr := None, rx := None), c.curr.value;
    match i
    case Packet(addr, pkt, stale, first, second) =>
      var errno := Assess(c.addr, t.txn.req, addr, pkt, stale);
      if errno == 0 {
        TellOwnerNewer(d, t, addr, 0, first);
        TellClientNewer(TellOwner(d, t, addr, 0, first), t.id, addr, 0, second);
      } else {
        TellClientNewer(d, t.id, addr, errno, first);
        TellOwnerNewer(TellClient(d, addr, errno, first), t, addr, errno, second);
      }
    case Broken(errno, first, second) =>
      TellClientNewer(d, t.id, c.addr, errno, first);
      var e := TellClient(d, c.addr, errno, first);
      TellOwnerNewer(e, t, e.addr, errno, second);
    case Expired(starts) =>
      TellOwnerNewer(d, t, c.addr, -RESP_TIMEOUT, starts);
  }

  lemma {:induction false} DoAllNewer(c: State, id: nat, starts: seq<Start>)
    requires id < c.next && !IsCurrent(c, id)
    ensures id < DoAll(c, starts).next && !IsCurrent(DoAll(c, starts), id)
  {
    if starts != [] {
      DoAllNewer(c, id, starts[..|starts| - 1]);
    }
  }

  lemma TellClientNewer(c: State, id: nat, addr: int, errno: int, starts: seq<Start>)
    requires id < c.next && !IsCurrent(c, id)
    ensures var d := TellClient(c, addr, errno, starts); id < d.next && !IsCurrent(d, id)
  {
    DoAllNewer(c.(log := c.log + [ClientTold(addr, errno)]), id, starts);
  }

  lemma TellOwnerNewer(c: State, t: Ongoing, addr: int, errno: int, starts: seq<Start>)
    requires t.id < c.next && !IsCurrent(c, t.id)
    ensures var d := TellOwner(c, t, addr, errno, starts); t.id < d.next && !IsCurrent(d, t.id)
  {
    var called := if errno == 0 then t.txn.onResponse else t.txn.onError;
    DoAllNewer(c.(log := c.log + [Closed(t.id, addr, errno, called)]), t.id, starts);
  }

  // Nothing outstanding: packets, errors and timeouts call nobody.
  lemma IdleIsQuiet(c: State, i: Input)
    requires Inv(c) && Sound(i) && c.curr.None? && !i.Call?
    ensures Step(c, i) == c
  {
  }

  // A callback can start the next transaction: the first attempt is accepted, the others are refused.
  lemma {:induction false} CallbackMayStart(c: State, starts: seq<Start>)
    requires c.rx.None? && Armed(starts) && starts != []
    ensures var d := DoAll(c, starts);
            && d.next == c.next + 1 && d.addr == starts[0].addr
            && d.curr == Some(Ongoing(c.next, starts[0].txn)) && d.rx == starts[0].txn.resp
  {
    if |starts| > 1 {
      CallbackMayStart(c, starts[..|starts| - 1]);
    } else {
      assert DoAll(c, starts[..0]) == c;
    }
  }

  lemma {:induction false} LogGrows(c: State, starts: seq<Start>)
    ensures c.log <= DoAll(c, starts).log
  {
    if starts != [] {
      LogGrows(c, starts[..|starts| - 1]);
    }
  }

  // After a transport error the owner is told the address it gave, unless the client's
  // callback has started a transaction with another address.
  lemma ErrorAddress(c: State, errno: int, first: seq<Start>, second: seq<Start>)
    requires Inv(c) && c.curr.Some? && errno != 0 && Armed(first)
    ensures var t, told := c.curr.value, TellClient(c.(curr := None, rx := None), c.addr, errno, first);
            && told.log + [Closed(t.id, told.addr, errno, t.txn.onError)] <= TransportError(c, errno, first, second).log
            && (told.addr == c.addr <==> !c.hooks || first == [] || first[0].addr == c.addr)
  {
    var t, d := c.curr.value, c.(curr := None, rx := None);
    var told := TellClient(d, c.addr, errno, first);
    LogGrows(told.(log := told.log + [Closed(t.id, told.addr, errno, t.txn.onError)]), second);
    if c.hooks && first != [] {
      CallbackMayStart(d.(log := d.log + [ClientTold(c.addr, errno)]), first);
    }
  }

  // A transaction with address 1, and a client callback that starts one with address 2 on its error: the owner of
  // the first is told the address 2.
  lemma ErrorTellsNewAddress(req: Pdu, errno: int)
    requires errno != 0
    ensures var t := Transaction(req, Some(0), true, true);
            var c := Do(Initial(true), Start(1, t));
            var d := TransportError(c, errno, [Start(2, t)], []);
            |d.log| == 4 && d.log[3] == Closed(0, 2, errno, true)
  {
    var t := Transaction(req, Some(0), true, true);
    var c := Do(Initial(true), Start(1, t));
    var told := c.(curr := None, rx := None, log := c.log + [ClientTold(1, errno)]);
    var starts := [Start(2, t)];
    assert starts[..0] == [];
    assert DoAll(told, starts) == Do(told, Start(2, t));
    assert TransportError(c, errno, starts, []).log == Do(told, Start(2, t)).log + [Closed(0, 2, errno, true)];
  }

  // The invariant survives a call exactly when the call is refused or brings a response PDU.
  lemma CallKeepsInvIff(c: State, s: Start)
    requires Inv(c)
    ensures Inv(Do(c, s)) <==> c.rx.Some? || s.txn.resp.Some?
  {
    if c.rx.Some? || s.txn.resp.Some? {
      if c.rx.Some? {
        Noted(c, None, Refused(s.addr));
      } else {
        DoConsistent(c, None, s);
      }
    }
  }

  // Without a response PDU the guarantee fails: the next call displaces the transaction, which is never closed.
  lemma LostWithoutResponsePdu(req: Pdu)
    ensures var t := Transaction(req, None, true, true);
            var c := Do(Do(Initial(true), Start(1, t)), Start(2, t));
            c.curr == Some(Ongoing(1, t)) && Closings(c.log, 0) == 0 && !IsCurrent(c, 0)
  {
    var t := Transaction(req, None, true, true);
    var log := [Accepted(0, 1, req)];
    assert Do(Initial(true), Start(1, t)).log == log;
    ClosingsOfOneMore([], Accepted(0, 1, req), 0);
    ClosingsOfOneMore(log, Accepted(1, 2, req), 0);
    assert [] + [Accepted(0, 1, req)] == log;
  }
}
