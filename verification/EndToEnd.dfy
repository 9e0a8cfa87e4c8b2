/** From the client's call to the server's device and back, over either transport.

    A client that sends any requests of the library, one after the other, to a server with the
    handlers of server_test.cpp:241-256 sees plain maps, files and queues. */
module EndToEnd {
  import opened Words
  import opened Pdus
  import opened Registry
  import opened Cells
  import opened Links
  import opened Sizing
  import opened Exchanges
  import DeviceMap
  import RegisterMap
  import MaskBits
  import Coils
  import Bits
  import FileWrite
  import FileWriteList
  import FileRead
  import FileReadList
  import FileRoundTrip
  import Server
  import Dispatch
  import Client
  import TcpReassembly

  // ----- one exchange

  // The server handles the request's function with its own handler, and its device is equipped for it.
  ghost predicate Handles(site: Server.Site, q: Query)
    requires Buildable(q)
  {
    && site.dev.Valid() && site.table.Some?
    && Server.GetFunction(site.table.value, Ask(q).func) == Some(DeviceMap.HandlerOf(q))
    && DeviceMap.Equipped(site.dev, q)
  }

  // The server at the address does so.
  ghost predicate Serves(w: World, addr: byte, q: Query) {
    Settled(w, addr) && Buildable(q) && Handles(SiteAt(w.sites, addr), q)
  }

  ghost function DeviceAt(w: World, addr: byte): (dev: Server.Device)
    requires Settled(w, addr)
    ensures dev.Valid()
  {
    SiteAt(w.sites, addr).dev
  }

  // The maps that the server at the address holds.
  ghost function Holds(w: World, addr: byte): DeviceMap.Memory
    requires Settled(w, addr)
  {
    DeviceMap.MemoryOf(DeviceAt(w, addr))
  }

  // What the owner makes of the end of its transaction.
  function Told(s: Step, end: Ended): DeviceMap.Answer {
    if end.errno != 0 then DeviceMap.Refused(end.errno) else DeviceMap.Interpret(s.q, end.reply, s.rest, s.behind)
  }

  lemma HandlerIsHome(q: Query)
    requires Buildable(q)
    ensures Dispatch.Home(DeviceMap.HandlerOf(q), Ask(q).func) && Ask(q).func < 0x80
  {
  }

  // The server's answer and the client's assessment of it, put together, are those of the maps.
  lemma CallAgrees(site: Server.Site, addr: byte, s: Step)
    requires site.dev.Valid() && Buildable(s.q) && Handles(site, s.q) && |Ask(s.q).data + s.stale| >= MAX_PDU_DATA_SIZE
    ensures var served := Call(site, s.q, s.stale);
            var errno := Client.Assess(addr, Ask(s.q), addr, served.reply, s.first);
            && DeviceMap.Kept(site.dev, served.dev)
            && (DeviceMap.MemoryOf(served.dev), Told(s, Ended(errno, served.reply))) ==
                 DeviceMap.Plain(site.dev, DeviceMap.MemoryOf(site.dev), s.q)
            && (errno != 0 && !s.q.WriteFiles? ==> served.dev == site.dev)
  {
    hide Server.Invoke, Ask, Buildable, DeviceMap.Plain, DeviceMap.Kept, DeviceMap.MemoryOf, DeviceMap.Equipped,
         DeviceMap.HandlerOf, DeviceMap.Interpret;
    AskedSize(s.q);
    HandlerIsHome(s.q);
    DeviceMap.HandlerAgrees(site.dev, s.q, s.stale, s.rest, s.behind);
    Dispatch.ClientVerdict(site.table.value, site.dev, addr, Ask(s.q), Ask(s.q).data + s.stale, |Ask(s.q).data|,
                           MAX_PDU_DATA_SIZE, s.first);
  }

  // What an exchange comes to, told on the maps.
  ghost predicate Refines(w: World, addr: byte, s: Step, after: World, end: Option<Ended>)
    requires Serves(w, addr, s.q)
  {
    var (m, expected) := DeviceMap.Plain(DeviceAt(w, addr), Holds(w, addr), s.q);
    && Settled(after, addr) && SiteAt(after.sites, addr) == SiteAt(w.sites, addr).(dev := DeviceAt(after, addr))
    && DeviceMap.Kept(DeviceAt(w, addr), DeviceAt(after, addr))
    && Holds(after, addr) == m && end.Some? && Told(s, end.value) == expected
    && (expected.Refused? && !s.q.WriteFiles? ==> after.sites == w.sites)
    && OthersAlone(w.sites, after.sites, addr)
    && after.client.next == w.client.next + 1 && w.client.log <= after.client.log
  }

  // An exchange is carried out and concluded as on the maps; an error other than of a file write leaves the servers
  // alone, no other server is touched, and both ends are ready for the next.
  lemma ExchangeRefines(link: Link, w: World, addr: byte, s: Step)
    requires Serves(w, addr, s.q) && Ready(link, s) && Connected(link, w, addr, s)
    ensures Refines(w, addr, s, Exchange(link, w, addr, s).0, Exchange(link, w, addr, s).1)
  {
    hide Exchange, Connected, Call, Client.Assess, Ask, Buildable, Reachable, SiteAt, DeviceMap.Plain, DeviceMap.Kept,
         DeviceMap.MemoryOf, DeviceMap.Equipped, DeviceMap.HandlerOf, DeviceMap.Interpret, OthersAlone,
         TcpReassembly.Idle;
    HandlerIsHome(s.q);
    ExchangeIsCall(link, w, addr, s);
    CallAgrees(SiteAt(w.sites, addr), addr, s);
    NotRefused(s, Call(SiteAt(w.sites, addr), s.q, s.stale).reply);
  }

  lemma NotRefused(s: Step, reply: Pdu)
    ensures !DeviceMap.Interpret(s.q, reply, s.rest, s.behind).Refused?
  {
  }

  // ----- any number of exchanges

  ghost predicate AllReady(link: Link, steps: seq<Step>) { forall i :: 0 <= i < |steps| ==> Ready(link, steps[i]) }

  // The server at the address handles all the requests.
  ghost predicate AllServed(w: World, addr: byte, steps: seq<Step>) {
    Settled(w, addr) && forall i :: 0 <= i < |steps| ==> Serves(w, addr, steps[i].q)
  }

  // Every exchange is carried both ways.
  ghost predicate AllConnected(link: Link, w: World, addr: byte, steps: seq<Step>)
    requires AllReady(link, steps)
    decreases |steps|
  {
    Settled(w, addr) &&
    (steps == [] ||
     (&& Connected(link, w, addr, steps[0])
      && AllConnected(link, Exchange(link, w, addr, steps[0]).0, addr, steps[1..])))
  }

  ghost function Session(link: Link, w: World, addr: byte, steps: seq<Step>): (World, seq<Option<DeviceMap.Answer>>)
    requires AllReady(link, steps) && AllConnected(link, w, addr, steps)
    decreases |steps|
  {
    if steps == [] then (w, [])
    else
      var (between, end) := Exchange(link, w, addr, steps[0]);
      var (after, answers) := Session(link, between, addr, steps[1..]);
      (after, [if end.None? then None else Some(Told(steps[0], end.value))] + answers)
  }

  function Queries(steps: seq<Step>): (qs: seq<Query>)
    ensures |qs| == |steps| && forall i :: 0 <= i < |qs| ==> qs[i] == steps[i].q
  {
    if steps == [] then [] else [steps[0].q] + Queries(steps[1..])
  }

  lemma ServedAreEquipped(w: World, addr: byte, steps: seq<Step>)
    requires AllServed(w, addr, steps)
    ensures DeviceMap.AllEquipped(DeviceAt(w, addr), Queries(steps))
  {
    hide Settled, Buildable, DeviceMap.Equipped, DeviceMap.HandlerOf, Ask;
    forall i | 0 <= i < |steps| ensures Buildable(steps[i].q) && DeviceMap.Equipped(DeviceAt(w, addr), steps[i].q) {
      assert Serves(w, addr, steps[i].q);
    }
  }

  lemma ServesStays(w: World, addr: byte, after: World, q: Query)
    requires Serves(w, addr, q) && Settled(after, addr)
    requires SiteAt(after.sites, addr) == SiteAt(w.sites, addr).(dev := DeviceAt(after, addr))
    requires DeviceMap.Kept(DeviceAt(w, addr), DeviceAt(after, addr))
    ensures Serves(after, addr, q)
  {
    hide Settled, SiteAt, Buildable, Ask, DeviceMap.Equipped, DeviceMap.HandlerOf, DeviceMap.Kept;
    DeviceMap.EquippedStays(DeviceAt(w, addr), DeviceAt(after, addr), q);
  }

  lemma AllServedStay(w: World, addr: byte, s: Step, after: World, end: Option<Ended>, steps: seq<Step>)
    requires AllServed(w, addr, steps) && Serves(w, addr, s.q) && Refines(w, addr, s, after, end)
    ensures AllServed(after, addr, steps)
  {
    hide Settled, SiteAt, Serves, DeviceMap.Plain, DeviceMap.Kept, DeviceMap.MemoryOf, OthersAlone, Told;
    forall i | 0 <= i < |steps| ensures Serves(after, addr, steps[i].q) {
      ServesStays(w, addr, after, steps[i].q);
    }
  }

  // Whatever the requests, the link and the portions the octets travel in: the client gets the answers of the maps, the
  // server at the address is left holding them, and the others are left alone.
  lemma {:induction false} SessionRefines(link: Link, w: World, addr: byte, steps: seq<Step>)
    requires AllServed(w, addr, steps) && AllReady(link, steps) && AllConnected(link, w, addr, steps)
    ensures Settled(w, addr) && DeviceMap.AllEquipped(DeviceAt(w, addr), Queries(steps))
    ensures var (after, answers) := Session(link, w, addr, steps);
            && Settled(after, addr) && DeviceMap.Kept(DeviceAt(w, addr), DeviceAt(after, addr))
            && (Holds(after, addr), answers) == DeviceMap.PlainSession(DeviceAt(w, addr), Holds(w, addr), Queries(steps))
            && OthersAlone(w.sites, after.sites, addr) && Server.SiteOf(after.sites, addr) == Server.SiteOf(w.sites, addr)
            && after.client.next == w.client.next + |steps|
    decreases |steps|
  {
    hide Connected, Exchange, Ready, Settled, Serves, SiteAt, Server.SiteOf, DeviceMap.Plain, DeviceMap.Kept,
         DeviceMap.MemoryOf, DeviceMap.AllEquipped, Told;
    ServedAreEquipped(w, addr, steps);
    SameAsItself(w, addr);
    if steps != [] {
      assert Serves(w, addr, steps[0].q);
      ExchangeRefines(link, w, addr, steps[0]);
      var (between, end) := Exchange(link, w, addr, steps[0]);
      SameAddress(w.sites, between.sites, addr);
      assert AllServed(w, addr, steps[1..]) && AllReady(link, steps[1..]);
      AllServedStay(w, addr, steps[0], between, end, steps[1..]);
      SessionRefines(link, between, addr, steps[1..]);
      ServedAreEquipped(w, addr, steps[1..]);
      DeviceMap.PlainSessionStays(DeviceAt(w, addr), DeviceAt(between, addr), Holds(between, addr), Queries(steps[1..]));
      DeviceMap.KeptTwice(DeviceAt(w, addr), DeviceAt(between, addr), DeviceAt(Session(link, w, addr, steps).0, addr));
      assert Queries(steps)[1..] == Queries(steps[1..]);
    }
  }

  lemma SameAsItself(w: World, addr: byte)
    requires Settled(w, addr)
    ensures DeviceMap.Kept(DeviceAt(w, addr), DeviceAt(w, addr)) && OthersAlone(w.sites, w.sites, addr)
  {
  }

  lemma SameAddress(x: seq<Server.Site>, y: seq<Server.Site>, addr: byte)
    requires OthersAlone(x, y, addr)
    ensures Server.SiteOf(x, addr) == Server.SiteOf(y, addr)
  {
    Dispatch.SameFrontSite(x, y, addr);
  }

  // Such a session exists for every sequence of requests that the link has room for and the server handles.
  lemma {:induction false} SessionExists(link: Link, w: World, addr: byte, qs: seq<Query>) returns (steps: seq<Step>)
    requires Settled(w, addr) && forall i :: 0 <= i < |qs| ==> Askable(link, qs[i]) && Serves(w, addr, qs[i])
    ensures AllReady(link, steps) && Queries(steps) == qs && AllConnected(link, w, addr, steps)
    decreases |qs|
  {
    hide Exchange, Connected, Ready, Settled, Serves, Buildable, Ask, Reserved, SiteAt, DeviceMap.Plain, DeviceMap.Kept,
         DeviceMap.MemoryOf, Told, OthersAlone;
    if qs == [] {
      steps := [];
    } else {
      assert Serves(w, addr, qs[0]);
      HandledAtHome(w, addr, qs[0]);
      var s := StepExists(link, w, addr, qs[0]);
      ExchangeRefines(link, w, addr, s);
      var (between, end) := Exchange(link, w, addr, s);
      forall i | 0 <= i < |qs[1..]| ensures Askable(link, qs[1..][i]) && Serves(between, addr, qs[1..][i]) {
        assert qs[1..][i] == qs[i + 1];
        ServesStays(w, addr, between, qs[i + 1]);
      }
      var rest := SessionExists(link, between, addr, qs[1..]);
      steps := [s] + rest;
      assert steps[1..] == rest;
    }
  }

  lemma HandledAtHome(w: World, addr: byte, q: Query)
    requires Serves(w, addr, q)
    ensures Buildable(q) && Settled(w, addr) && HandlerAtHome(w, addr, Ask(q).func)
  {
    hide Settled, SiteAt, Buildable, Ask, DeviceMap.Equipped, DeviceMap.HandlerOf;
    HandlerIsHome(q);
  }

  // ----- readings of the maps

  // The address or addresses of a request that no block covers.
  predicate Outside(blocks: seq<Block<word>>, r: RegisterMap.Request) {
    match r
    case Read(s, q) => Find(blocks, s).None?
    case Write(a, _) => Find(blocks, a).None?
    case WriteMany(s, _) => Find(blocks, s).None?
    case Mask(a, _, _) => Find(blocks, a).None?
    case Exchange(rs, _, ws, _) => Find(blocks, rs).None? || Find(blocks, ws).None?
  }

  lemma OutsideOnMap(dev: Server.Device, m: DeviceMap.Memory, q: Query)
    requires dev.Valid() && DeviceMap.Equipped(dev, q) && Buildable(q) && q.Registers? && Outside(dev.holdings.value, q.r)
    ensures DeviceMap.Plain(dev, m, q) == (m, DeviceMap.Refused(-1502))
  {
    hide Load, Store, MaskBits.Masked, Find, Registered;
  }

  lemma ServesEquipped(w: World, addr: byte, q: Query)
    requires Serves(w, addr, q)
    ensures Buildable(q) && Settled(w, addr) && DeviceMap.Equipped(DeviceAt(w, addr), q)
    ensures q.Registers? ==> DeviceMap.Writes(DeviceAt(w, addr).holdings)
  {
    hide Registered, Ask;
  }

  // An exchange about registers outside every block leaves all servers as they were, and yields -1502.
  lemma OutsideIsRefused(link: Link, w: World, addr: byte, s: Step)
    requires Serves(w, addr, s.q) && Ready(link, s) && Connected(link, w, addr, s)
    requires s.q.Registers? && DeviceAt(w, addr).holdings.Some? && Outside(DeviceAt(w, addr).holdings.value, s.q.r)
    ensures var (after, end) := Exchange(link, w, addr, s);
            after.sites == w.sites && end.Some? && Told(s, end.value) == DeviceMap.Refused(-1502)
  {
    hide Exchange, Connected, Ready, Serves, Settled, SiteAt, Outside, DeviceMap.Plain, DeviceMap.Kept,
         DeviceMap.MemoryOf, OthersAlone, Told, DeviceMap.Equipped, Buildable;
    ServesEquipped(w, addr, s.q);
    ExchangeRefines(link, w, addr, s);
    OutsideOnMap(DeviceAt(w, addr), Holds(w, addr), s.q);
  }

  // Register i of the read of a 0x17 request lies in the range of its write, and both ranges are served.
  predicate Overlaps(blocks: seq<Block<word>>, r: RegisterMap.Request, i: nat)
    requires AllValid(blocks)
  {
    && r.Exchange? && i < r.rdQuantity as int
    && Locate(blocks, r.wrStart, |r.values|).Some? && Locate(blocks, r.rdStart, r.rdQuantity).Some?
    && r.wrStart <= r.rdStart + i < r.wrStart + |r.values|
  }

  // The answer to it shows the value written.
  predicate ShowsWrite(answer: DeviceMap.Answer, r: RegisterMap.Request, i: nat) {
    && r.Exchange? && 0 <= r.rdStart - r.wrStart + i < |r.values|
    && answer.Values? && i < |answer.values| && answer.values[i] == r.values[r.rdStart - r.wrStart + i]
  }

  lemma MapSeesWrite(dev: Server.Device, q: Query, i: nat)
    requires dev.Valid() && DeviceMap.Equipped(dev, q) && Buildable(q) && q.Registers? && Overlaps(dev.holdings.value, q.r, i)
    ensures ShowsWrite(DeviceMap.Plain(dev, DeviceMap.MemoryOf(dev), q).1, q.r, i)
  {
    hide Abstract, Locate, Load, Store, DisjointOrSame;
    LoadStored(dev.holdings.value, q.r.wrStart, q.r.values, q.r.rdStart, q.r.rdQuantity, i, 0);
  }

  // A read through 0x17 sees the write that came with it, where the ranges overlap.
  lemma ExchangeSeesItsWrite(link: Link, w: World, addr: byte, s: Step, i: nat)
    requires Serves(w, addr, s.q) && Ready(link, s) && Connected(link, w, addr, s)
    requires s.q.Registers? && DeviceAt(w, addr).holdings.Some? && Overlaps(DeviceAt(w, addr).holdings.value, s.q.r, i)
    ensures var end := Exchange(link, w, addr, s).1;
            end.Some? && ShowsWrite(Told(s, end.value), s.q.r, i)
  {
    hide Exchange, Connected, Ready, Serves, Settled, SiteAt, Overlaps, ShowsWrite, DeviceMap.Plain, DeviceMap.Kept,
         DeviceMap.MemoryOf, OthersAlone, Told, DeviceMap.Equipped, Buildable;
    ServesEquipped(w, addr, s.q);
    ExchangeRefines(link, w, addr, s);
    MapSeesWrite(DeviceAt(w, addr), s.q, i);
  }

  // ----- what is written is read, end to end

  // A session of two exchanges.
  ghost predicate Pair(link: Link, w: World, addr: byte, steps: seq<Step>) {
    |steps| == 2 && AllServed(w, addr, steps) && AllReady(link, steps) && AllConnected(link, w, addr, steps)
  }

  lemma PairAnswers(link: Link, w: World, addr: byte, steps: seq<Step>)
    requires Pair(link, w, addr, steps)
    ensures Settled(w, addr) && DeviceMap.AllEquipped(DeviceAt(w, addr), Queries(steps))
    ensures var dev, m := DeviceAt(w, addr), Holds(w, addr);
            var (between, first) := DeviceMap.Plain(dev, m, steps[0].q);
            Session(link, w, addr, steps).1 == [Some(first), Some(DeviceMap.Plain(dev, between, steps[1].q).1)]
  {
    hide Session, AllServed, AllReady, AllConnected, Settled, SiteAt, Serves, DeviceMap.Plain, DeviceMap.Kept,
         DeviceMap.MemoryOf, DeviceMap.Equipped, Buildable;
    SessionRefines(link, w, addr, steps);
    var qs, dev := Queries(steps), DeviceAt(w, addr);
    assert qs == [steps[0].q, steps[1].q];
    DeviceMap.PlainPair(dev, Holds(w, addr), qs[0], qs[1]);
  }

  // Coils written are read as the bools they are, at any misalignment.
  lemma CoilsRoundTrip(link: Link, w: World, addr: byte, steps: seq<Step>)
    requires Pair(link, w, addr, steps)
    requires steps[0].q.WriteCoils? && steps[1].q.ReadBits? && !steps[1].q.discrete
    requires Settled(w, addr) && DeviceAt(w, addr).coils.Some?
    requires var (blocks, put, get) := (DeviceAt(w, addr).coils.value, steps[0].q, steps[1].q);
             && Locate(blocks, put.start, |put.values|).Some?
             && put.start <= get.start && get.start + get.quantity <= put.start + |put.values|
    ensures var put, get := steps[0].q, steps[1].q;
            var offset := get.start - put.start;
            Session(link, w, addr, steps).1 ==
              [Some(DeviceMap.Confirmed), Some(DeviceMap.Bools(put.values[offset..offset + get.quantity]))]
  {
    hide Session, AllServed, AllReady, AllConnected, Settled, SiteAt, DeviceMap.Plain, DeviceMap.MemoryOf;
    PairAnswers(link, w, addr, steps);
    assert Queries(steps) == [steps[0].q, steps[1].q];
    CoilsOnMap(DeviceAt(w, addr), steps[0].q, steps[1].q);
  }

  lemma CoilsOnMap(dev: Server.Device, put: Query, get: Query)
    requires DeviceMap.AllEquipped(dev, [put, get]) && put.WriteCoils? && get.ReadBits? && !get.discrete
    requires dev.coils.Some? && Locate(dev.coils.value, put.start, |put.values|).Some?
    requires put.start <= get.start && get.start + get.quantity <= put.start + |put.values|
    ensures Buildable(put) && DeviceMap.Equipped(dev, put) && Buildable(get) && DeviceMap.Equipped(dev, get)
    ensures var (m, first) := DeviceMap.Plain(dev, DeviceMap.MemoryOf(dev), put);
            var offset := get.start - put.start;
            && first == DeviceMap.Confirmed
            && DeviceMap.Plain(dev, m, get).1 == DeviceMap.Bools(put.values[offset..offset + get.quantity])
  {
    hide Locate, Load, Store, Abstract;
    var blocks, qs := dev.coils.value, [put, get];
    assert Buildable(qs[0]) && DeviceMap.Equipped(dev, qs[0]) && Buildable(qs[1]) && DeviceMap.Equipped(dev, qs[1]);
    Coils.PartLocated(blocks, put.start, |put.values|, get.start, get.quantity);
    var offset := get.start - put.start;
    var stored := Load(Store(Abstract(blocks), put.start, put.values), get.start, get.quantity, false);
    forall i | 0 <= i < get.quantity ensures stored[i] == put.values[offset..offset + get.quantity][i] {
      LoadStored(blocks, put.start, put.values, get.start, get.quantity, i, false);
    }
    assert stored == put.values[offset..offset + get.quantity];
  }

  // Registers of files written are read as the latest value written to each, or as what the file held before.
  lemma FilesRoundTrip(link: Link, w: World, addr: byte, steps: seq<Step>)
    requires Pair(link, w, addr, steps) && steps[0].q.WriteFiles? && steps[1].q.ReadFiles? && steps[1].q.gets != []
    requires Settled(w, addr) && DeviceAt(w, addr).files.Some?
    requires var (files, puts, gets) := (DeviceAt(w, addr).files.value, steps[0].q.puts, steps[1].q.gets);
             && FileWrite.CountAccepted(FileWrite.SubsSize(puts)) && FileWriteList.Apply(files, puts).0 == 0
             && forall i :: 0 <= i < |gets| ==> FileRoundTrip.Readable(files, gets[i])
    ensures var files, puts, gets := DeviceAt(w, addr).files.value, steps[0].q.puts, steps[1].q.gets;
            var answers := Session(link, w, addr, steps).1;
            && |answers| == 2 && answers[0] == Some(DeviceMap.Confirmed)
            && answers[1].Some? && answers[1].value.Records? && |answers[1].value.answers| == |gets|
            && forall i :: 0 <= i < |gets| ==>
                 FileRoundTrip.IsLatest(files, puts, gets[i], answers[1].value.answers[i])
  {
    hide Session, AllServed, AllReady, AllConnected, Settled, SiteAt, DeviceMap.Plain, DeviceMap.MemoryOf,
         FileWriteList.Apply, FileWrite.CountAccepted, FileWrite.SubsSize, FileRoundTrip.Readable,
         FileRoundTrip.IsLatest;
    PairAnswers(link, w, addr, steps);
    assert Queries(steps) == [steps[0].q, steps[1].q];
    FilesOnMap(DeviceAt(w, addr), steps[0].q, steps[1].q);
  }

  lemma FilesOnMap(dev: Server.Device, put: Query, get: Query)
    requires DeviceMap.AllEquipped(dev, [put, get]) && put.WriteFiles? && get.ReadFiles? && get.gets != [] && dev.files.Some?
    requires FileWrite.CountAccepted(FileWrite.SubsSize(put.puts)) && FileWriteList.Apply(dev.files.value, put.puts).0 == 0
    requires forall i :: 0 <= i < |get.gets| ==> FileRoundTrip.Readable(dev.files.value, get.gets[i])
    ensures Buildable(put) && DeviceMap.Equipped(dev, put) && Buildable(get) && DeviceMap.Equipped(dev, get)
    ensures var (m, first) := DeviceMap.Plain(dev, DeviceMap.MemoryOf(dev), put);
            var answer := DeviceMap.Plain(dev, m, get).1;
            && first == DeviceMap.Confirmed && answer.Records? && |answer.answers| == |get.gets|
            && forall i :: 0 <= i < |get.gets| ==>
                 FileRoundTrip.IsLatest(dev.files.value, put.puts, get.gets[i], answer.answers[i])
  {
    hide FileWriteList.Apply, FileReadList.ReadAll, FileRoundTrip.Readable, FileWriteList.Latest, Abstract,
         FileWrite.SubsSize;
    var files, qs := dev.files.value, [put, get];
    assert Buildable(qs[0]) && DeviceMap.Equipped(dev, qs[0]) && Buildable(qs[1]) && DeviceMap.Equipped(dev, qs[1]);
    var after := FileWriteList.Apply(files, put.puts).1;
    FileRoundTrip.ReadAllAfter(files, put.puts, get.gets);
    FileReadList.ReadAllMeans(after, get.gets);
    forall i | 0 <= i < |get.gets|
      ensures FileRoundTrip.IsLatest(files, put.puts, get.gets[i], FileReadList.ReadAll(after, get.gets).1[i])
    {
      FileRoundTrip.ReadOneAfter(files, put.puts, get.gets[i]);
    }
  }
}
