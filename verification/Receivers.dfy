/** What the receivers of both transports make of arbitrary octets, right or wrong: exactly which are taken for
    a packet, and with which error number the others are reported. */
module Receivers {
  import opened Words
  import opened Pdus
  import opened Crc
  import CrcBurst
  import Rtu
  import Tcp

  // ----- RTU

  ghost predicate IsFrame(f: seq<byte>) { exists addr, pdu :: f == Rtu.Frame(addr, pdu) }

  // The frame that the octets are if their CRC field is right.
  function Read(f: seq<byte>): seq<byte>
    requires |f| >= 4
  {
    Rtu.Frame(f[0], Pdu(f[1], f[2..|f| - 2]))
  }

  lemma ReadInverse(addr: byte, pdu: Pdu)
    ensures var f := Rtu.Frame(addr, pdu);
            |f| == |pdu.data| + 4 && f[0] == addr && Pdu(f[1], f[2..|f| - 2]) == pdu && Read(f) == f
  {
    hide LoBv, HiBv, Crc16;
    var f := Rtu.Frame(addr, pdu);
    assert f[2..|f| - 2] == pdu.data;
  }

  lemma IsFrameIff(f: seq<byte>)
    requires |f| >= 4
    ensures IsFrame(f) <==> f == Read(f)
  {
    hide Rtu.Frame;
    if IsFrame(f) {
      var addr, pdu :| f == Rtu.Frame(addr, pdu);
      ReadInverse(addr, pdu);
    }
  }

  lemma PartsOfMk(lo: byte, hi: byte, v: bv16)
    ensures v == MkBv(lo, hi) <==> lo == LoBv(v) && hi == HiBv(v)
  {
    MkOfParts(v);
    hide OfBv8, ToBv8;
    OctetsOfJoin(ToBv8(lo), ToBv8(hi));
  }

  lemma OctetsOfJoin(lo: bv8, hi: bv8)
    ensures var v := (lo as bv16) | ((hi as bv16) << 8); (v & 0xFF) as bv8 == lo && (v >> 8) as bv8 == hi
  {
  }

  lemma CrcIsRight(f: seq<byte>)
    requires |f| >= 4
    ensures Crc16(f[..|f| - 2]) == MkBv(f[|f| - 2], f[|f| - 1]) <==> f == Read(f)
  {
    hide Crc16, MkBv, LoBv, HiBv;
    var n := |f| - 2;
    assert f[..n] == [f[0], f[1]] + f[2..n];
    assert f == f[..n] + [f[n], f[n + 1]];
    PartsOfMk(f[n], f[n + 1], Crc16(f[..n]));
  }

  // A packet is delivered exactly when the octets are its frame and the waiting PDU holds its data.
  lemma DeliveredIff(f: seq<byte>, rxMax: Option<byte>, addr: byte, pdu: Pdu)
    ensures Rtu.Parse(f, rxMax) == Delivered(addr, pdu) <==>
            f == Rtu.Frame(addr, pdu) && rxMax.Some? && |pdu.data| <= rxMax.value as int
  {
    ReadInverse(addr, pdu);
    if |f| >= 4 {
      CrcIsRight(f);
      hide Rtu.Frame, Crc16, MkBv;
    }
  }

  // Errors -1000 and -1007, and silence, for every sequence of octets.
  lemma RefusedIff(f: seq<byte>, rxMax: Option<byte>)
    ensures Rtu.Parse(f, rxMax) == Failed(-1000) <==> |f| >= 4 && !IsFrame(f)
    ensures Rtu.Parse(f, rxMax) == Failed(-1007) <==> IsFrame(f) && rxMax.Some? && |f| - 4 > rxMax.value as int
    ensures Rtu.Parse(f, rxMax).Silent? <==> |f| < 4 || (IsFrame(f) && rxMax.None?)
  {
    if |f| >= 4 {
      CrcIsRight(f);
      IsFrameIff(f);
      hide Rtu.Frame, Crc16, MkBv, IsFrame;
    }
  }

  // A read that fails, brings nothing or finds no room drops what was gathered; any other read adds what has room.
  lemma Gathered(got: seq<byte>, room: nat, chunk: seq<byte>, failed: bool)
    requires |got| <= room
    ensures failed || chunk == [] || |got| == room ==> Rtu.Gather(got, room, chunk, failed) == []
    ensures !failed && chunk != [] && |got| < room ==>
              Rtu.Gather(got, room, chunk, failed) == if |got + chunk| <= room then got + chunk else (got + chunk)[..room]
  {
  }

  // ----- TCP

  // The fate of a complete packet: another id at a client is told first, then a PDU that is too small for the data.
  lemma JudgedIff(side: Tcp.Side, packet: seq<byte>, addr: byte, pdu: Pdu)
    requires |packet| >= 8 && Get16(packet, 4) == |packet| - 6
    ensures var answersOther := !side.isServer && side.txTid != Get16(packet, 0);
            var o := Tcp.Judge(side, packet);
            && (o == Failed(-1008) <==> answersOther)
            && (o == Failed(-1007) <==> !answersOther && side.rxMax.Some? && |packet| - 8 > side.rxMax.value as int)
            && (o == Delivered(addr, pdu) <==> !answersOther && side.rxMax.Some? && |packet| - 8 <= side.rxMax.value as int
                                                && packet == packet[..6] + [addr, pdu.func] + pdu.data)
            && (o.Silent? <==> !answersOther && side.rxMax.None?)
  {
    assert packet == packet[..6] + [packet[6], packet[7]] + packet[8..];
  }

  // A length that leads past the 263 octets of the buffer makes the receiver drop what it has, without reading.
  lemma Impossible(side: Tcp.Side, rx: Tcp.Rx, available: seq<byte>, grant: int)
    requires rx.Valid() && 263 - rx.count < rx.need
    ensures Tcp.AfterRead(rx, available, grant) == (rx.(count := 0), -1)
    ensures Tcp.DataEvent(side, rx, available, grant) == (rx.(count := 0), Silent)
  {
  }

  lemma AnyReceiver(raw: seq<byte>, count: nat, need: int)
    ensures Tcp.Rx(raw, count, need).Valid() <==> |raw| == 263 && count <= 263
  {
  }

  // What is asked of the port: the missing octets, or all the room there is while the length is unknown.
  lemma AskedOfPort(rx: Tcp.Rx, available: seq<byte>, grant: int)
    requires rx.Valid() && rx.need <= 263 - rx.count
    ensures |rx.raw| == 263
    ensures var most := if rx.need < 0 then 263 - rx.count else rx.need;
            Tcp.AfterRead(rx, available, grant).1 ==
              if most > 0 && grant < 0 then -1 else Least(Least(most, |available|), grant)
  {
  }

  // The smaller of two; a negative grant for no octets is not asked for.
  function Least(a: nat, b: int): int { if 0 <= b < a then b else if b < 0 && a == 0 then 0 else a }

  // The octets behind the length, as the receiver takes them: 0 wraps.
  function Announced(raw: seq<byte>): nat
    requires |raw| >= 6
  {
    if Get16(raw, 4) == 0 then 65536 else Get16(raw, 4)
  }

  // With fewer than nine octets the length is not looked at; a packet with octets missing is waited for, and a buffer
  // full without a whole packet is dropped.
  lemma Waiting(side: Tcp.Side, rx: Tcp.Rx)
    requires rx.Valid() && (rx.count >= 9 ==> Announced(rx.raw) + 6 > rx.count)
    ensures Tcp.LengthUsable(side, rx)
    ensures Tcp.Parsed(side, rx) == (rx.(count := if rx.count == 263 then 0 else rx.count,
                                         need := if rx.count < 9 then -1 else Announced(rx.raw) + 6 - rx.count), Silent)
  {
  }

  // A whole packet is judged, and what came behind it is dropped with it.
  lemma Whole(side: Tcp.Side, rx: Tcp.Rx)
    requires rx.Valid() && 9 <= rx.count && Announced(rx.raw) + 6 <= rx.count && Tcp.LengthUsable(side, rx)
    ensures var total := Announced(rx.raw) + 6;
            Tcp.Parsed(side, rx) == (rx.(count := 0, need := total - rx.count), Tcp.Judge(side, rx.raw[..total]))
  {
  }
}
