/** Register writes whose data is shorter than their counts say: the handlers of 0x10 and 0x17
    (emodbus/server/write_multi_regs.c, read_write_regs.c) compare the byte count with the quantity,
    but neither with data_size, and take the missing registers from what the receive buffer held. */
module ShortRequests {
  import opened Words
  import opened Pdus
  import opened Registry
  import opened Cells
  import opened ServerRegs

  // The two handlers that write runs of registers.
  datatype Writer = Multiple | Exchange

  // Where the registers of a request start, and how many it names.
  function Head(w: Writer): nat { if w.Multiple? then 5 else 9 }

  function Start(w: Writer, p: seq<byte>): word
    requires |p| >= Head(w)
  {
    Get16(p, if w.Multiple? then 0 else 4)
  }

  function Named(w: Writer, p: seq<byte>): word
    requires |p| >= Head(w)
  {
    Get16(p, if w.Multiple? then 2 else 6)
  }

  // The registers after request p, with the octets `stale` behind it in the receive buffer.
  function RegsAfter(w: Writer, blocks: seq<RegBlock>, p: seq<byte>, stale: seq<byte>, txMax: byte): seq<RegBlock>
    requires AllValid(blocks) && Storage(p + stale)
  {
    if w.Multiple? then WriteRegs(blocks, p + stale, txMax).holdings
    else ReadWriteRegs(blocks, p + stale, txMax).holdings
  }

  // The request alone decides what is written.
  ghost predicate Determined(w: Writer, blocks: seq<RegBlock>, p: seq<byte>, txMax: byte)
    requires AllValid(blocks)
  {
    forall s: seq<byte>, t: seq<byte> :: Storage(p + s) && Storage(p + t) ==>
      RegsAfter(w, blocks, p, s, txMax) == RegsAfter(w, blocks, p, t, txMax)
  }

  // A request that passes every check before the write.
  predicate Granted(w: Writer, blocks: seq<RegBlock>, p: seq<byte>, txMax: byte)
    requires AllValid(blocks)
  {
    && |p| >= Head(w) && p[Head(w) - 1] as int == 2 * Named(w, p) as int
    && 1 <= Named(w, p) <= (if w.Multiple? then 0x7B else 0x79)
    && (var k := Locate(blocks, Start(w, p), Named(w, p));
        k.Some? && blocks[k.value].write == Answers(0))
    && if w.Multiple? then txMax >= 4
       else
         && 1 <= Get16(p, 2) <= 0x7D && 1 + 2 * Get16(p, 2) as int <= txMax as int
         && var rd := Locate(blocks, Get16(p, 0), Get16(p, 2)); rd.Some? && blocks[rd.value].read.Answers?
  }

  lemma SameHead(p: seq<byte>, stale: seq<byte>, i: nat)
    requires i + 2 <= |p|
    ensures Get16(p + stale, i) == Get16(p, i)
  {
  }

  // Those of the first handler are confirmed, and so are those of the second whose registers can be read.
  lemma GrantedIff(w: Writer, blocks: seq<RegBlock>, p: seq<byte>, stale: seq<byte>, txMax: byte)
    requires AllValid(blocks) && |p| >= Head(w) && Storage(p + stale)
    ensures w.Multiple? ==> (Granted(w, blocks, p, txMax) <==> WriteRegs(blocks, p + stale, txMax).code == 0)
    ensures w.Exchange? ==>
              (&& Granted(w, blocks, p, txMax)
               && blocks[Locate(blocks, Get16(p, 0), Get16(p, 2)).value].read == Answers(0)
               <==> ReadWriteRegs(blocks, p + stale, txMax).code == 0)
  {
    hide Locate, Written, GetWords, PutWords, Get16, Slice;
    SameHead(p, stale, 0);
    SameHead(p, stale, 2);
    if w.Exchange? {
      SameHead(p, stale, 4);
      SameHead(p, stale, 6);
    }
    assert (p + stale)[Head(w) - 1] == p[Head(w) - 1];
  }

  lemma GrantedWrites(w: Writer, blocks: seq<RegBlock>, p: seq<byte>, stale: seq<byte>, txMax: byte)
    requires AllValid(blocks) && Granted(w, blocks, p, txMax) && Storage(p + stale)
    ensures Head(w) + 2 * Named(w, p) as int <= |p + stale|
    ensures var k := Locate(blocks, Start(w, p), Named(w, p)).value;
            RegsAfter(w, blocks, p, stale, txMax) ==
              Written(blocks, k, Start(w, p) - blocks[k].start, GetWords(p + stale, Head(w), Named(w, p)))
  {
    hide Locate, Written, GetWords, PutWords, Get16, Slice;
    SameHead(p, stale, 0);
    SameHead(p, stale, 2);
    if w.Exchange? {
      SameHead(p, stale, 4);
      SameHead(p, stale, 6);
    }
    assert (p + stale)[Head(w) - 1] == p[Head(w) - 1];
  }

  // What is written is the same for all octets behind the request exactly when the request brings all the registers it names.
  lemma DeterminedIff(w: Writer, blocks: seq<RegBlock>, p: seq<byte>, txMax: byte)
    requires AllValid(blocks) && Granted(w, blocks, p, txMax)
    ensures Determined(w, blocks, p, txMax) <==> Head(w) + 2 * Named(w, p) as int <= |p|
  {
    hide Locate, Written, GetWords, RegsAfter, Get16;
    if Head(w) + 2 * Named(w, p) as int <= |p| {
      forall s: seq<byte>, t: seq<byte> | Storage(p + s) && Storage(p + t)
        ensures RegsAfter(w, blocks, p, s, txMax) == RegsAfter(w, blocks, p, t, txMax)
      {
        GrantedWrites(w, blocks, p, s, txMax);
        GrantedWrites(w, blocks, p, t, txMax);
        SameWords(p, s, t, Head(w), Named(w, p));
      }
    } else {
      var zeros := seq<byte>(MAX_PDU_DATA_SIZE, i => 0);
      var ones := seq<byte>(MAX_PDU_DATA_SIZE, i => 1);
      GrantedWrites(w, blocks, p, zeros, txMax);
      GrantedWrites(w, blocks, p, ones, txMax);
      OtherWord(p, zeros, ones, Head(w), Named(w, p));
      var k := Locate(blocks, Start(w, p), Named(w, p)).value;
      WrittenDiffers(blocks, k, Start(w, p) - blocks[k].start,
                     GetWords(p + zeros, Head(w), Named(w, p)), GetWords(p + ones, Head(w), Named(w, p)));
    }
  }

  lemma SameWords(p: seq<byte>, s: seq<byte>, t: seq<byte>, at: nat, n: nat)
    requires at + 2 * n <= |p|
    ensures GetWords(p + s, at, n) == GetWords(p + t, at, n)
  {
    forall k | 0 <= k < n ensures GetWords(p + s, at, n)[k] == GetWords(p + t, at, n)[k] {
      SameHead(p, s, at + 2 * k);
      SameHead(p, t, at + 2 * k);
    }
  }

  // The first octet behind the request belongs to a register that is named.
  lemma OtherWord(p: seq<byte>, s: seq<byte>, t: seq<byte>, at: nat, n: nat)
    requires at <= |p| < at + 2 * n <= |p| + |s| && |s| == |t|
    requires (forall i :: 0 <= i < |s| ==> s[i] == 0) && forall i :: 0 <= i < |t| ==> t[i] == 1
    ensures GetWords(p + s, at, n) != GetWords(p + t, at, n)
  {
    var k := (|p| - at) / 2;
    var i := at + 2 * k;
    assert GetWords(p + s, at, n)[k] == Get16(p + s, i) && GetWords(p + t, at, n)[k] == Get16(p + t, i);
    assert (p + s)[i + 1] == 0 && (p + t)[i + 1] == 1;
    hide GetWords;
    LowOctets((p + s)[i], (p + t)[i]);
  }

  lemma LowOctets(x: byte, y: byte)
    ensures Mk(x, 0) != Mk(y, 1)
  {
  }

  // 0x10 for two registers that brings one: the second is whatever the buffer held.
  lemma ShortWrite(blocks: seq<RegBlock>, start: word, value: word)
    requires AllValid(blocks)
    requires var k := Locate(blocks, start, 2); k.Some? && blocks[k.value].write == Answers(0)
    ensures !Determined(Multiple, blocks, PutWords([start, 2]) + [4] + PutWords([value]), 4)
  {
    hide Locate, Determined, PutWords, Get16;
    var ws := [start, 2];
    var rest := [4] + PutWords([value]);
    var p := PutWords(ws) + [4] + PutWords([value]);
    assert p == PutWords(ws) + rest;
    WordInPlace(ws, rest, 0);
    WordInPlace(ws, rest, 1);
    DeterminedIff(Multiple, blocks, p, 4);
  }

  // 0x17 for one register to be written that brings none.
  lemma ShortExchange(blocks: seq<RegBlock>, rdStart: word, wrStart: word)
    requires AllValid(blocks)
    requires var k := Locate(blocks, wrStart, 1); k.Some? && blocks[k.value].write == Answers(0)
    requires var k := Locate(blocks, rdStart, 1); k.Some? && blocks[k.value].read.Answers?
    ensures !Determined(Exchange, blocks, PutWords([rdStart, 1, wrStart, 1]) + [2], 3)
  {
    hide Locate, Determined, PutWords, Get16;
    var ws := [rdStart, 1, wrStart, 1];
    var p := PutWords(ws) + [2];
    WordInPlace(ws, [2], 0);
    WordInPlace(ws, [2], 1);
    WordInPlace(ws, [2], 2);
    WordInPlace(ws, [2], 3);
    DeterminedIff(Exchange, blocks, p, 3);
  }
}
