/** One exchange: from the client's call over either transport to the server at an address, through its
    function table and handler, and back to the owner of the transaction.  Put together, all of it is
    a call of the server's answer. */
module Exchanges {
  import opened Words
  import opened Pdus
  import opened Registry
  import opened Cells
  import opened Links
  import opened Sizing
  import Bits
  import FileRead
  import FileWrite
  import Server
  import Dispatch
  import Client
  import StaleReply
  import Tcp
  import TcpReassembly

  // ----- both ends

  /** What lasts from one exchange to the next: the client's state, the servers behind one address space,
      and what the two receivers hold. */
  datatype World = World(client: Client.State, sites: seq<Server.Site>, clientRx: Tcp.Rx, serverRx: Tcp.Rx)

  // The address leads to a server that answers.
  ghost predicate Reachable(sites: seq<Server.Site>, addr: byte) {
    && Server.AllSound(sites) && Server.SiteOf(sites, addr).Some?
    && var s := sites[Server.SiteOf(sites, addr).value]; !s.broadcast && s.table.Some?
  }

  // The server that an address leads to.
  ghost function SiteAt(sites: seq<Server.Site>, addr: byte): (s: Server.Site)
    requires Reachable(sites, addr)
    ensures s.table.Some? && s.dev.Valid()
  {
    sites[Server.SiteOf(sites, addr).value]
  }

  // Between two exchanges.
  ghost predicate Settled(w: World, addr: byte) {
    && w.client.curr.None? && w.client.rx.None? && Reachable(w.sites, addr)
    && TcpReassembly.Idle(w.clientRx) && TcpReassembly.Idle(w.serverRx)
  }

  // Its handler for a function, if it has one, is registered at a code of its own.
  ghost predicate HandlerAtHome(w: World, addr: byte, func: byte)
    requires Settled(w, addr)
  {
    Dispatch.HomeAt(SiteAt(w.sites, addr).table.value, func)
  }

  // ----- the steps of an exchange

  // One request, the ways there and back, and what is left in the storage of both PDUs: at the server `stale` behind
  // the request; at the client `first` where the reply comes to be, `rest` behind the reply, and `behind` the storage.
  datatype Step = Step(q: Query, there: Way, back: Way, stale: seq<byte>, first: byte, rest: seq<byte>, behind: byte)

  ghost predicate Ready(link: Link, s: Step) {
    Askable(link, s.q) && |Ask(s.q).data + s.stale| >= MAX_PDU_DATA_SIZE
  }

  // The size of the response PDU.
  ghost function Limit(link: Link, s: Step): byte
    requires Ready(link, s)
  {
    AskedSize(s.q);
    Reserved(s.q)
  }

  // The client has started its transaction.
  ghost function Asked(link: Link, c: Client.State, addr: byte, s: Step): (a: Client.State)
    requires Ready(link, s)
    ensures c.rx.None? ==> a.log == c.log + [Client.Accepted(c.next, addr, Ask(s.q))]
  {
    Client.Do(c, Client.Start(addr, Client.Transaction(Ask(s.q), Some(Limit(link, s)), true, true)))
  }

  // The client's transaction id is the number of its requests so far.
  ghost function OwnTid(c: Client.State): word { StaleReply.TidAfter(c.next) }

  // What a frame keeps of an address.
  function UnitId(addr: int): byte { if 0 <= addr < 0x100 then addr else addr % 0x100 }

  // The transport sends what the latest acceptance in the client's log hands to it.
  ghost function Handed(c: Client.State): Packet
    requires c.log != [] && c.log[|c.log| - 1].Accepted?
  {
    var e := c.log[|c.log| - 1];
    Packet(true, OwnTid(c), 0, UnitId(e.addr), e.req, MAX_PDU_DATA_SIZE)
  }

  ghost function RequestPacket(link: Link, c: Client.State, addr: byte, s: Step): Packet
    requires Ready(link, s) && c.rx.None?
  {
    Handed(Asked(link, c, addr, s))
  }

  // The answer of a server to the request in its receive buffer (both its PDUs hold 253 octets).
  ghost function Call(site: Server.Site, q: Query, stale: seq<byte>): Server.Served
    requires site.dev.Valid() && Buildable(q) && |Ask(q).data + stale| >= MAX_PDU_DATA_SIZE
  {
    AskedSize(q);
    Server.Answer(site.table, site.dev, Ask(q).func, Ask(q).data + stale, |Ask(q).data|, MAX_PDU_DATA_SIZE)
  }

  // What all the servers make of the request.
  ghost function Reaction(link: Link, sites: seq<Server.Site>, addr: byte, s: Step): (seq<Server.Site>, seq<Server.Event>)
    requires Server.AllSound(sites) && Ready(link, s)
  {
    AskedSize(s.q);
    Server.React(sites, Server.Message(addr, Ask(s.q).func, Ask(s.q).data + s.stale, |Ask(s.q).data|), MAX_PDU_DATA_SIZE)
  }

  // The replies handed to the transport.
  ghost function Replied(link: Link, sites: seq<Server.Site>, addr: byte, s: Step): seq<(byte, Pdu)>
    requires Server.AllSound(sites) && Ready(link, s)
  {
    Dispatch.Replies(Reaction(link, sites, addr, s).1)
  }

  // The address leads to one server, which alone changes and gives the one reply.
  lemma ReactionCalls(link: Link, sites: seq<Server.Site>, addr: byte, s: Step)
    requires Reachable(sites, addr) && Ready(link, s)
    ensures var site := SiteAt(sites, addr);
            var served := Call(site, s.q, s.stale);
            && Reaction(link, sites, addr, s).0 == sites[Server.SiteOf(sites, addr).value := site.(dev := served.dev)]
            && Replied(link, sites, addr, s) == [(addr, served.reply)]
  {
    hide Server.Answer, Server.Reaction, Server.SiteOf, Dispatch.Replies, Ask, Buildable;
    AskedSize(s.q);
    Dispatch.ReactionReplies(false, addr, Call(SiteAt(sites, addr), s.q, s.stale));
  }

  // The address leads to the same server afterwards.
  lemma StaysReachable(sites: seq<Server.Site>, addr: byte, dev: Server.Device)
    requires Reachable(sites, addr) && dev.Valid()
    ensures var after := sites[Server.SiteOf(sites, addr).value := SiteAt(sites, addr).(dev := dev)];
            && Reachable(after, addr) && SiteAt(after, addr) == SiteAt(sites, addr).(dev := dev)
  {
    hide Server.SiteOf;
    var after := sites[Server.SiteOf(sites, addr).value := SiteAt(sites, addr).(dev := dev)];
    Dispatch.SameFrontSite(sites, after, addr);
  }

  lemma CallStaysValid(link: Link, site: Server.Site, s: Step)
    requires site.dev.Valid() && Ready(link, s)
    ensures Call(site, s.q, s.stale).dev.Valid()
  {
    hide Server.Invoke, Ask, Buildable;
    AskedSize(s.q);
    var h := if site.table.None? then None else Server.GetFunction(site.table.value, Ask(s.q).func);
    if h.Some? {
      Server.InvokeStaysValid(h.value, site.dev, Ask(s.q).func, Ask(s.q).data + s.stale, |Ask(s.q).data|, MAX_PDU_DATA_SIZE);
    }
  }

  // The reply fits the PDU reserved for it, and the frames of the link.
  lemma CallFits(link: Link, site: Server.Site, s: Step)
    requires site.dev.Valid() && Ready(link, s)
    requires site.table.Some? && Dispatch.HomeAt(site.table.value, Ask(s.q).func)
    ensures 1 <= |Call(site, s.q, s.stale).reply.data| <= Limit(link, s) as int <= Room(link)
  {
    hide Server.Answer, Ask, Buildable, Reserved;
    AskedSize(s.q);
    ReplyFits(site.table.value, site.dev, s.q, s.stale, Ask(s.q).data + s.stale, |Ask(s.q).data|);
  }

  // The reply repeats the id that the server's receive buffer shows, and goes to the client's response PDU.
  ghost function ReplyPacket(link: Link, c: Client.State, serverRx: Tcp.Rx, addr: byte, s: Step, reply: Pdu): Packet
    requires Ready(link, s) && serverRx.Valid()
  {
    Packet(false, Get16(serverRx.raw, 0), OwnTid(Asked(link, c, addr, s)), addr, reply, Limit(link, s))
  }

  // The error number a transaction ended with, as its owner was told.
  ghost function EndOf(log: seq<Client.Event>, id: nat): Option<int> {
    if log == [] then None
    else
      var e := log[|log| - 1];
      if e.Closed? && e.id == id then Some(e.errno) else EndOf(log[..|log| - 1], id)
  }

  // ----- the exchange

  // Both ways bring what is sent on them.
  ghost predicate Connected(link: Link, w: World, addr: byte, s: Step)
    requires Settled(w, addr) && Ready(link, s)
  {
    Carries(link, s.there, w.serverRx, RequestPacket(link, w.client, addr, s)) &&
    var rx := Hear(link, s.there, w.serverRx, RequestPacket(link, w.client, addr, s)).0;
    var replies := Replied(link, w.sites, addr, s);
    && rx.Valid() && |replies| == 1
    && Carries(link, s.back, w.clientRx, ReplyPacket(link, w.client, rx, replies[0].0, s, replies[0].1))
  }

  // What the owner of a transaction is told, and what its response PDU holds.
  datatype Ended = Ended(errno: int, reply: Pdu)

  // A whole exchange: the world afterwards, and how the transaction ended, if it did.
  ghost function Exchange(link: Link, w: World, addr: byte, s: Step): (World, Option<Ended>)
    requires Settled(w, addr) && Ready(link, s) && Connected(link, w, addr, s)
  {
    var c := Asked(link, w.client, addr, s);
    var (serverRx, there) := Hear(link, s.there, w.serverRx, RequestPacket(link, w.client, addr, s));
    if there != [Delivered(addr, Ask(s.q))] then (w.(client := c, serverRx := serverRx), None)
    else
      var sites := Reaction(link, w.sites, addr, s).0;
      var reply := Replied(link, w.sites, addr, s)[0];
      var (clientRx, back) := Hear(link, s.back, w.clientRx, ReplyPacket(link, w.client, serverRx, reply.0, s, reply.1));
      if |back| != 1 || !back[0].Delivered? then (World(c, sites, clientRx, serverRx), None)
      else
        var d := Client.Receive(c, back[0].addr, back[0].pdu, s.first, [], []);
        var end := EndOf(d.log, w.client.next);
        (World(d, sites, clientRx, serverRx), if end.None? then None else Some(Ended(end.value, back[0].pdu)))
  }

  // A packet ends the transaction: the client is idle again, and its owner was told the assessment.
  lemma ClientEnds(link: Link, c: Client.State, addr: byte, s: Step, reply: Pdu)
    requires c.curr.None? && c.rx.None? && Ready(link, s)
    ensures var d := Client.Receive(Asked(link, c, addr, s), addr, reply, s.first, [], []);
            && d.curr.None? && d.rx.None? && d.next == c.next + 1 && c.log <= d.log
            && EndOf(d.log, c.next) == Some(Client.Assess(addr, Ask(s.q), addr, reply, s.first))
  {
    hide Client.Assess, Ask, Buildable, Limit;
    var b := Asked(link, c, addr, s);
    var errno := Client.Assess(addr, Ask(s.q), addr, reply, s.first);
    var d := Client.Receive(b, addr, reply, s.first, [], []);
    var closed := Client.Closed(c.next, addr, errno, true);
    if errno != 0 {
      assert d.log[..|d.log| - 1] + [closed] == d.log;
    } else if c.hooks {
      assert d.log == b.log + [closed] + [Client.ClientTold(addr, 0)];
      assert d.log[..|d.log| - 1] == b.log + [closed];
    } else {
      assert d.log == b.log + [closed];
    }
  }

  // Only the device of the server at the address differs.
  ghost predicate OthersAlone(x: seq<Server.Site>, y: seq<Server.Site>, addr: byte) {
    Dispatch.SameFront(x, y) && forall i :: 0 <= i < |x| && Server.SiteOf(x, addr) != Some(i) ==> y[i] == x[i]
  }

  lemma ReachableParts(sites: seq<Server.Site>, addr: byte)
    requires Reachable(sites, addr)
    ensures Server.AllSound(sites) && Server.SiteOf(sites, addr).Some?
    ensures sites[Server.SiteOf(sites, addr).value] == SiteAt(sites, addr)
  {
  }

  // What an exchange comes to: the server's own answer to the request, and the client's assessment of it.
  ghost predicate IsCall(link: Link, w: World, addr: byte, s: Step, after: World, end: Option<Ended>)
    requires Settled(w, addr) && Ready(link, s)
  {
    var site := SiteAt(w.sites, addr);
    var served := Call(site, s.q, s.stale);
    && Settled(after, addr) && SiteAt(after.sites, addr) == site.(dev := served.dev)
    && end == Some(Ended(Client.Assess(addr, Ask(s.q), addr, served.reply, s.first), served.reply))
    && OthersAlone(w.sites, after.sites, addr) && (served.dev == site.dev ==> after.sites == w.sites)
    && after.client.next == w.client.next + 1 && w.client.log <= after.client.log
  }

  // Whatever the request, the device and the function table, as long as the handler is at home: nothing is lost,
  // refused for its size or altered on the way, no other server is touched, and both ends are ready for the next.
  lemma ExchangeIsCall(link: Link, w: World, addr: byte, s: Step)
    requires Settled(w, addr) && Ready(link, s) && HandlerAtHome(w, addr, Ask(s.q).func) && Connected(link, w, addr, s)
    ensures IsCall(link, w, addr, s, Exchange(link, w, addr, s).0, Exchange(link, w, addr, s).1)
  {
    hide Call, Hear, Carries, EndOf, Asked, Reaction, Replied, Client.Assess, Client.Receive, Ask, Buildable, Limit,
         Reachable, SiteAt, Server.SiteOf, TcpReassembly.Idle;
    var site := SiteAt(w.sites, addr);
    ReachableParts(w.sites, addr);
    AskedSize(s.q);
    ReactionCalls(link, w.sites, addr, s);
    CallFits(link, site, s);
    CallStaysValid(link, site, s);
    var served := Call(site, s.q, s.stale);
    var rx := Hear(link, s.there, w.serverRx, RequestPacket(link, w.client, addr, s)).0;
    HeardIntact(link, s.there, w.serverRx, RequestPacket(link, w.client, addr, s));
    HeardIntact(link, s.back, w.clientRx, ReplyPacket(link, w.client, rx, addr, s, served.reply));
    ClientEnds(link, w.client, addr, s, served.reply);
    StaysReachable(w.sites, addr, served.dev);
  }

  // There are ways for every request.
  lemma StepExists(link: Link, w: World, addr: byte, q: Query) returns (s: Step)
    requires Settled(w, addr) && Askable(link, q) && HandlerAtHome(w, addr, Ask(q).func)
    ensures Ready(link, s) && s.q == q && Connected(link, w, addr, s)
  {
    hide Call, Carries, Hear, Ask, Buildable, Reaction, Replied, Reachable, SiteAt, Server.SiteOf, Limit, Asked;
    AskedSize(q);
    ReachableParts(w.sites, addr);
    var site := SiteAt(w.sites, addr);
    var stale := seq<byte>(MAX_PDU_DATA_SIZE - |Ask(q).data|, i => 0);
    var nowhere := Way([], [], []);
    var draft := Step(q, nowhere, nowhere, stale, 0, [], 0);
    RequestFits(link, w.client, addr, draft);
    var request := RequestPacket(link, w.client, addr, draft);
    var there := WayExists(link, w.serverRx, request);
    HeardIntact(link, there, w.serverRx, request);
    ReactionCalls(link, w.sites, addr, draft);
    CallFits(link, site, draft);
    var served := Call(site, q, stale);
    var reply := ReplyPacket(link, w.client, Hear(link, there, w.serverRx, request).0, addr, draft, served.reply);
    var back := WayExists(link, w.clientRx, reply);
    s := Step(q, there, back, stale, 0, [], 0);
    SameStep(link, w.sites, w.client, addr, s, draft);
  }

  lemma RequestFits(link: Link, c: Client.State, addr: byte, s: Step)
    requires Ready(link, s) && c.rx.None?
    ensures Fits(link, RequestPacket(link, c, addr, s))
  {
    hide Ask, Buildable;
    AskedSize(s.q);
  }

  lemma SameStep(link: Link, sites: seq<Server.Site>, c: Client.State, addr: byte, s: Step, t: Step)
    requires Server.AllSound(sites) && Ready(link, s) && Ready(link, t) && s.q == t.q && s.stale == t.stale && c.rx.None?
    ensures Replied(link, sites, addr, s) == Replied(link, sites, addr, t)
    ensures RequestPacket(link, c, addr, s) == RequestPacket(link, c, addr, t)
    ensures Limit(link, s) == Limit(link, t) && Asked(link, c, addr, s) == Asked(link, c, addr, t)
  {
    hide Ask, Buildable, Dispatch.Replies, Server.React;
  }
}
