/** The client's transaction state machine, emodbus/client/client.c.

    At most one transaction is outstanding.  It ends by a packet, a transport error or
    a timeout, and its owner is told; callbacks may start further transactions. */
module Client {
  import opened Words
  import opened Pdus

  /** What emb_client_do_transaction is given: the request, the size of the response PDU
      if there is one, and which callbacks its owner installed. */
  datatype Transaction = Transaction(req: Pdu, resp: Option<byte>, onResponse: bool, onError: bool)

  // A call of emb_client_do_transaction.
  datatype Start = Start(addr: int, txn: Transaction)

  // An accepted transaction; the id numbers the acceptances.
  datatype Ongoing = Ongoing(id: nat, txn: Transaction)

  /** What can be observed: acceptances (each sends its request), refusals, calls of the
      client's own callbacks, and the end of a transaction; `called` tells whether the
      owner has a callback for it, and errno 0 stands for on_response. */
  datatype Event =
    | Accepted(id: nat, addr: int, req: Pdu)
    | Refused(addr: int)
    | ClientTold(addr: int, errno: int)
    | Closed(id: nat, addr: int, errno: int, called: bool)

  /** emb_client_t with the receive PDU of its transport; `hooks` tells whether the
      client's own callbacks are installed. */
  datatype State = State(
    curr: Option<Ongoing>, addr: int, rx: Option<byte>, hooks: bool, next: nat, log: seq<Event>)

  // ----- the steps

  function Do(c: State, s: Start): State {
    if c.rx.Some? then c.(log := c.log + [Refused(s.addr)])
    else c.(curr := Some(Ongoing(c.next, s.txn)), addr := s.addr, rx := s.txn.resp,
            next := c.next + 1, log := c.log + [Accepted(c.next, s.addr, s.txn.req)])
  }

  // The transactions a callback starts, one after the other.
  function DoAll(c: State, starts: seq<Start>): State {
    if starts == [] then c else Do(DoAll(c, starts[..|starts| - 1]), starts[|starts| - 1])
  }

  function TellClient(c: State, addr: int, errno: int, starts: seq<Start>): State {
    if c.hooks then DoAll(c.(log := c.log + [ClientTold(addr, errno)]), starts) else c
  }

  function TellOwner(c: State, t: Ongoing, addr: int, errno: int, starts: seq<Start>): State {
    var called := if errno == 0 then t.txn.onResponse else t.txn.onError;
    var d := c.(log := c.log + [Closed(t.id, addr, errno, called)]);
    if called then DoAll(d, starts) else d
  }

  // How a packet ends the transaction: 0, or a negative error number.
  function Assess(expected: int, req: Pdu, addr: int, pkt: Pdu, stale: byte): int {
    if expected != addr then -RESP_WRONG_ADDRESS
    else if CheckException(pkt, stale) != 0 then CheckException(pkt, stale)
    else if req.func != pkt.func then -RESP_WRONG_FUNC
    else 0
  }

  // emb_client_on_receive_pkt; `first` and `second` are started by the first and second callback.
  function Receive(c: State, addr: int, pkt: Pdu, stale: byte, first: seq<Start>, second: seq<Start>): State {
    var d := c.(curr := None, rx := None);
    if c.curr.None? then d
    else
      var t := c.curr.value;
      var errno := Assess(c.addr, t.txn.req, addr, pkt, stale);
      if errno == 0 then TellClient(TellOwner(d, t, addr, 0, first), addr, 0, second)
      else TellOwner(TellClient(d, addr, errno, first), t, addr, errno, second)
  }

  // emb_client_on_error; the owner is told the address that is current after the client's callback.
  function TransportError(c: State, errno: int, first: seq<Start>, second: seq<Start>): State
    requires errno != 0
  {
    if c.curr.None? then c
    else
      var d := TellClient(c.(curr := None, rx := None), c.addr, errno, first);
      TellOwner(d, c.curr.value, d.addr, errno, second)
  }

  // emb_client_wait_timeout
  function Timeout(c: State, starts: seq<Start>): State {
    var d := c.(curr := None, rx := None);
    if c.curr.None? then d else TellOwner(d, c.curr.value, c.addr, -RESP_TIMEOUT, starts)
  }

  // ----- the client object

  class EmbClient {
    var currTransaction: Option<Ongoing>
    var currAddr: int
    var rxPdu: Option<byte>      // transport->rx_pdu
    const hooks: bool
    var accepted: nat
    var log: seq<Event>

    ghost function Value(): State
      reads this
    {
      State(currTransaction, currAddr, rxPdu, hooks, accepted, log)
    }

    constructor (withHooks: bool)
      ensures Value() == State(None, 0, None, withHooks, 0, [])
    {
      currTransaction, currAddr, rxPdu, hooks, accepted, log := None, 0, None, withHooks, 0, [];
    }

    method DoTransaction(addr: int, txn: Transaction) returns (r: int)
      modifies this
      ensures Value() == Do(old(Value()), Start(addr, txn))
      ensures r == if old(rxPdu).Some? then -EBUSY else 0
      ensures r != 0 ==> currTransaction == old(currTransaction) && currAddr == old(currAddr) && rxPdu == old(rxPdu)
    {
      if rxPdu.Some? {
        log := log + [Refused(addr)];
        return -EBUSY;
      }
      currAddr := addr;
      currTransaction := Some(Ongoing(accepted, txn));
      rxPdu := txn.resp;
      log := log + [Accepted(accepted, addr, txn.req)];
      accepted := accepted + 1;
      r := 0;
    }

    // The body of a callback: any number of attempts to start a transaction.
    method RunCallback(starts: seq<Start>)
      modifies this
      ensures Value() == DoAll(old(Value()), starts)
    {
      var i := 0;
      while i < |starts|
        invariant 0 <= i <= |starts|
        invariant Value() == DoAll(old(Value()), starts[..i])
      {
        var r := DoTransaction(starts[i].addr, starts[i].txn);
        assert starts[..i + 1][..i] == starts[..i];
        i := i + 1;
      }
      assert starts[..|starts|] == starts;
    }

    method CallClient(addr: int, errno: int, starts: seq<Start>)
      modifies this
      ensures Value() == TellClient(old(Value()), addr, errno, starts)
    {
      if hooks {
        log := log + [ClientTold(addr, errno)];
        RunCallback(starts);
      }
    }

    method CallOwner(t: Ongoing, addr: int, errno: int, starts: seq<Start>)
      modifies this
      ensures Value() == TellOwner(old(Value()), t, addr, errno, starts)
    {
      var called := if errno == 0 then t.txn.onResponse else t.txn.onError;
      log := log + [Closed(t.id, addr, errno, called)];
      if called {
        RunCallback(starts);
      }
    }

    method OnReceivePkt(addr: int, pkt: Pdu, stale: byte, first: seq<Start>, second: seq<Start>)
      modifies this
      ensures Value() == Receive(old(Value()), addr, pkt, stale, first, second)
    {
      var req := currTransaction;
      currTransaction := None;
      rxPdu := None;
      if req.None? {
        return;
      }
      if currAddr != addr {
        CallClient(addr, -RESP_WRONG_ADDRESS, first);
        CallOwner(req.value, addr, -RESP_WRONG_ADDRESS, second);
        return;
      }
      var res := CheckException(pkt, stale);
      if res != 0 {
        CallClient(addr, res, first);
        CallOwner(req.value, addr, res, second);
        return;
      }
      if req.value.txn.req.func != pkt.func {
        CallClient(addr, -RESP_WRONG_FUNC, first);
        CallOwner(req.value, addr, -RESP_WRONG_FUNC, second);
        return;
      }
      CallOwner(req.value, addr, 0, first);
      CallClient(addr, 0, second);
    }

    method OnError(errno: int, first: seq<Start>, second: seq<Start>)
      requires errno != 0
      modifies this
      ensures Value() == TransportError(old(Value()), errno, first, second)
    {
      var req := currTransaction;
      if req.Some? {
        currTransaction := None;
        rxPdu := None;
        CallClient(currAddr, errno, first);
        CallOwner(req.value, currAddr, errno, second);
      }
    }

    method WaitTimeout(starts: seq<Start>)
      modifies this
      ensures Value() == Timeout(old(Value()), starts)
    {
      var req := currTransaction;
      rxPdu := None;
      if req.Some? {
        currTransaction := None;
        CallOwner(req.value, currAddr, -RESP_TIMEOUT, starts);
      }
    }
  }
}
