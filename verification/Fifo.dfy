/** Read FIFO Queue (function 0x18): emodbus/client/read_fifo.c and emodbus/server/read_fifo.c,
    with the queue of tests/server_test.cpp:290-326 over the holding registers. */
module Fifo {
  import opened Words
  import opened Pdus
  import opened Registry
  import opened Cells
  import opened WordBuffers

  const MAX_REGS := 31

  // What the server's read_fifo callback returns, the count it reports and the registers it stores.
  datatype Queue = Queue(code: byte, count: byte, values: seq<word>)

  function Request(addr: word): Pdu { Pdu(0x18, Put16(addr)) }

  // Byte count, register count, registers.
  function Answer(values: seq<word>): Pdu
    requires |values| <= MAX_REGS
  {
    Pdu(0x18, PutWords([2 * |values| + 2, |values|] + values))
  }

  // emb_read_fifo_calc_answer_data_size
  const ANSWER_SIZE := 4 + 2 * MAX_REGS

  // emb_read_fifo_make_req
  method MakeReq(result: PduBuffer, addr: word) returns (r: int)
    requires result.Valid()
    modifies result`func, result`size, result.data
    ensures result.Valid()
    ensures r == if result.maxSize < 2 then -ENOMEM else 0
    ensures r == 0 ==> result.Value() == Request(addr)
    ensures r != 0 ==> result.Value() == old(result.Value())
  {
    if result.maxSize < 2 {
      return -ENOMEM;
    }
    result.data[0], result.data[1] := Hi(addr), Lo(addr);
    result.func, result.size := 0x18, 2;
    r := 0;
  }

  // ----- the handler

  datatype Result = Result(code: byte, reply: Pdu)

  // The callback stores inside a reply storage of `room` octets.
  predicate StoresInside(read: Option<word -> Queue>, room: nat) {
    read.Some? ==> forall a: word :: 4 + 2 * |read.value(a).values| <= room
  }

  // The callback stores as many registers as it reports, up to the limit of 31.
  predicate Honest(q: Queue) { q.code == 0 && q.count as int <= MAX_REGS ==> q.count as int <= |q.values| }

  predicate Total(read: Option<word -> Queue>) {
    StoresInside(read, MAX_PDU_DATA_SIZE) && (read.Some? ==> forall a: word :: Honest(read.value(a)))
  }

  // The registers that the count covers: those stored, and behind them what the reply's storage held.
  function Reported(q: Queue, held: seq<byte>): (values: seq<word>)
    requires |held| >= ANSWER_SIZE && q.count as int <= MAX_REGS
    ensures |values| == q.count as int
  {
    if q.count as int <= |q.values| then q.values[..q.count]
    else q.values + HostWords(held, 4 + 2 * |q.values|, q.count as int - |q.values|)
  }

  function Handle(read: Option<word -> Queue>, d: seq<byte>, txMax: byte, held: seq<byte>): Result
    requires |d| >= 2 && |held| >= ANSWER_SIZE
  {
    if read.None? then Result(MBE_SLAVE_FAILURE, Pdu(0, []))
    else
      var q := read.value(Get16(d, 0));
      if q.code != 0 then Result(q.code, Pdu(0, []))
      else if q.count as int > MAX_REGS then Result(MBE_ILLEGAL_DATA_VALUE, Pdu(0, []))
      else if 4 + 2 * q.count as int > txMax as int then Result(MBE_SLAVE_FAILURE, Pdu(0, []))
      else Result(0, Answer(Reported(q, held)))
  }

  // With an honest callback it does not matter what the reply's storage held.
  lemma HeldIgnored(read: Option<word -> Queue>, d: seq<byte>, txMax: byte, x: seq<byte>, y: seq<byte>)
    requires Total(read) && |d| >= 2 && |x| >= ANSWER_SIZE && |y| >= ANSWER_SIZE
    ensures Handle(read, d, txMax, x) == Handle(read, d, txMax, y)
  {
    hide Answer;
    if read.Some? {
      assert Honest(read.value(Get16(d, 0)));
    }
  }

  // Once the callback has stored its registers, the storage holds those reported, in host order.
  lemma ReportedOctets(q: Queue, held: seq<byte>, s: seq<byte>)
    requires |s| == |held| >= ANSWER_SIZE && 4 + 2 * |q.values| <= |s| && q.count as int <= MAX_REGS
    requires forall k :: 0 <= k < |q.values| ==> s[4 + 2 * k] == Lo(q.values[k]) && s[4 + 2 * k + 1] == Hi(q.values[k])
    requires forall i :: 0 <= i < |s| && !(4 <= i < 4 + 2 * |q.values|) ==> s[i] == held[i]
    ensures var values := Reported(q, held);
            forall k :: 0 <= k < |values| ==> s[4 + 2 * k] == Lo(values[k]) && s[4 + 2 * k + 1] == Hi(values[k])
  {
  }

  // emb_srv_read_fifo
  method SrvReadFifo(read: Option<word -> Queue>, rx: PduBuffer, tx: PduBuffer) returns (res: byte)
    requires rx.Valid() && tx.Valid() && rx != tx && rx.data != tx.data
    requires rx.data.Length >= 2 && tx.data.Length >= ANSWER_SIZE && StoresInside(read, tx.data.Length)
    modifies tx`func, tx`size, tx.data
    ensures tx.Valid()
    ensures var spec := Handle(read, rx.data[..], tx.maxSize, old(tx.data[..]));
            res == spec.code && (res == 0 ==> tx.Value() == spec.reply)
  {
    hide PutWords, HostWords, Reported, Lo, Hi;
    var addr := Get16(rx.data[..], 0);
    if read.None? {
      return MBE_SLAVE_FAILURE;
    }
    var q := read.value(addr);
    ghost var held := tx.data[..];
    CopyWords(tx.data, 4, q.values);
    ghost var stored := tx.data[..];
    if q.code != 0 {
      return q.code;
    }
    if q.count as int > MAX_REGS {
      return MBE_ILLEGAL_DATA_VALUE;
    }
    var count := q.count;
    tx.func, tx.size := 0x18, 4 + 2 * count;
    if tx.size > tx.maxSize {
      return MBE_SLAVE_FAILURE;
    }
    ReportedOctets(q, held, stored);
    AnswerQueue(tx.data, Reported(q, held), count);
    res := 0;
  }

  // The two counts in front of the registers in the buffer, and all words swapped in place.
  method AnswerQueue(buf: array<byte>, ghost values: seq<word>, count: byte)
    requires count as int == |values| <= MAX_REGS && 4 + 2 * |values| <= buf.Length
    requires forall k :: 0 <= k < |values| ==> buf[4 + 2 * k] == Lo(values[k]) && buf[4 + 2 * k + 1] == Hi(values[k])
    modifies buf
    ensures buf[..4 + 2 * count as int] == Answer(values).data
  {
    hide PutWords;
    ghost var words := [2 * count + 2, count] + values;
    CopyWords(buf, 0, [2 * count + 2, count]);
    SwapWords(buf, 0, count as int + 2);
    ghost var s := buf[..4 + 2 * count as int];
    forall k | 0 <= k < |words| ensures s[2 * k] == Hi(words[k]) && s[2 * k + 1] == Lo(words[k]) {
      if k >= 2 {
        assert words[k] == values[k - 2] && 2 * k == 4 + 2 * (k - 2);
      }
    }
    OctetsArePutWords(s, words);
  }

  // ----- the client's accessors

  // emb_read_fifo_byte_count
  function QueueBytes(answer: Pdu): word
    requires |answer.data| >= 4
  {
    Swapped16(answer.data, 0)
  }

  // emb_read_fifo_regs_count
  function RegsCount(answer: Pdu): word
    requires |answer.data| >= 4
  {
    Swapped16(answer.data, 2)
  }

  predicate Complete(answer: Pdu) { |answer.data| >= 4 && 4 + 2 * (RegsCount(answer) as int) <= |answer.data| }

  // emb_read_fifo_get_data
  function GetData(answer: Pdu, offset: word): word
    requires Complete(answer)
  {
    if offset < RegsCount(answer) then Swapped16(answer.data, 4 + 2 * (offset as int)) else 0xFFFF
  }

  // emb_read_fifo_get_all_data
  method GetAllData(answer: Pdu, bufSize: word, buf: array<word>) returns (n: word)
    requires Complete(answer) && bufSize as int <= buf.Length
    modifies buf
    ensures n == if bufSize > RegsCount(answer) then RegsCount(answer) else bufSize
    ensures forall i :: 0 <= i < n as int ==> buf[i] == GetData(answer, i)
    ensures forall i :: n as int <= i < buf.Length ==> buf[i] == old(buf[i])
  {
    hide Swapped16, Get16, RegsCount;
    n := if bufSize > RegsCount(answer) then RegsCount(answer) else bufSize;
    var i := 0;
    while i < n as int
      invariant 0 <= i <= n as int
      invariant forall k :: 0 <= k < i ==> buf[k] == GetData(answer, k)
      invariant forall k :: i <= k < buf.Length ==> buf[k] == old(buf[k])
    {
      buf[i] := Swapped16(answer.data, 4 + 2 * i);
      i := i + 1;
    }
  }

  // ----- the round trip

  // The client reads from an answer the counts and registers that were put in, and it fits the PDU reserved for it.
  lemma AnswerInverse(values: seq<word>)
    requires |values| <= MAX_REGS
    ensures var a := Answer(values);
            && |a.data| <= ANSWER_SIZE && Complete(a)
            && RegsCount(a) == |values| && QueueBytes(a) as int == |a.data| - 2
            && forall k :: 0 <= k < |values| ==> GetData(a, k) == values[k]
  {
    hide PutWords, Swapped16, Get16;
    var words := [2 * |values| + 2, |values|] + values;
    PutWordsAt(words, 0);
    PutWordsAt(words, 1);
    forall k | 0 <= k < |values| ensures GetData(Answer(values), k) == values[k] {
      PutWordsAt(words, k + 2);
    }
  }

  // The addresses that the queue of server_test.cpp refuses (line 306).
  predicate Barred(addr: word) { 0xABC0 <= addr <= 0xABCF }

  // The queue of server_test.cpp: the registers from the address to the end of its block, 31 at most.
  function QueueOf(blocks: seq<Block<word>>, addr: word): (q: Queue)
    requires AllValid(blocks)
    ensures Honest(q) && q.count as int == |q.values| <= MAX_REGS
    ensures q.code == if Barred(addr) then MBE_ILLEGAL_DATA_ADDR else 0
  {
    if Barred(addr) then Queue(MBE_ILLEGAL_DATA_ADDR, 0, [])
    else if Find(blocks, addr).None? then Queue(0, 0, [])
    else
      FindCovers(blocks, addr);
      var b := blocks[Find(blocks, addr).value];
      var left := b.start + b.size - addr;
      var n := if left > MAX_REGS then MAX_REGS else left;
      Queue(0, n, Slice(b, addr - b.start, n))
  }

  // The handler on a built request, with the octets `stale` behind it in the receive buffer.
  function Serve(blocks: seq<Block<word>>, addr: word, stale: seq<byte>, txMax: byte, held: seq<byte>): Result
    requires AllValid(blocks) && |held| >= ANSWER_SIZE
  {
    Handle(Some((a: word) => QueueOf(blocks, a)), Request(addr).data + stale, txMax, held)
  }

  lemma ServeAnswers(blocks: seq<Block<word>>, addr: word, stale: seq<byte>, txMax: byte, held: seq<byte>)
    requires AllValid(blocks) && txMax as int >= ANSWER_SIZE && |held| >= ANSWER_SIZE
    ensures Serve(blocks, addr, stale, txMax, held) ==
              if Barred(addr) then Result(MBE_ILLEGAL_DATA_ADDR, Pdu(0, []))
              else Result(0, Answer(QueueOf(blocks, addr).values))
  {
    hide Answer, QueueOf;
    var q := QueueOf(blocks, addr);
    assert q.values[..q.count] == q.values;
    assert Get16(Request(addr).data + stale, 0) == addr;
  }

  // A read of that queue gives the client the contents of the map at the address and behind it.
  lemma QueueIsMap(blocks: seq<Block<word>>, addr: word, stale: seq<byte>, txMax: byte, held: seq<byte>)
    requires AllValid(blocks) && DisjointOrSame(blocks) && txMax as int >= ANSWER_SIZE && |held| >= ANSWER_SIZE
    ensures var r := Serve(blocks, addr, stale, txMax, held);
            if Barred(addr) then r.code == MBE_ILLEGAL_DATA_ADDR
            else
              && r.code == 0 && Complete(r.reply) && |r.reply.data| <= ANSWER_SIZE
              && (RegsCount(r.reply) == 0 <==> Find(blocks, addr).None?)
              && forall k :: 0 <= k < RegsCount(r.reply) as int ==> Holds(blocks, addr + k, GetData(r.reply, k))
  {
    hide Holds, GetData, RegsCount, Serve, Answer, QueueOf, Find;
    var values := QueueOf(blocks, addr).values;
    ServeAnswers(blocks, addr, stale, txMax, held);
    if Barred(addr) {
      return;
    }
    var reply := Serve(blocks, addr, stale, txMax, held).reply;
    assert reply == Answer(values);
    AnswerInverse(values);
    QueueHolds(blocks, addr);
    forall k | 0 <= k < RegsCount(reply) as int
      ensures Holds(blocks, addr + k, GetData(reply, k))
    {
      assert GetData(reply, k) == values[k];
    }
  }

  // The map has the value at the address.
  ghost predicate Holds(blocks: seq<Block<word>>, a: int, value: word)
    requires AllValid(blocks)
  {
    a in Abstract(blocks) && Abstract(blocks)[a] == value
  }

  lemma QueueHolds(blocks: seq<Block<word>>, addr: word)
    requires AllValid(blocks) && DisjointOrSame(blocks) && !Barred(addr)
    ensures var values := QueueOf(blocks, addr).values;
            && (|values| == 0 <==> Find(blocks, addr).None?)
            && forall k :: 0 <= k < |values| ==> Holds(blocks, addr + k, values[k])
  {
    hide Abstract, Load, Find;
    if Find(blocks, addr).Some? {
      FindCovers(blocks, addr);
      var values := QueueOf(blocks, addr).values;
      assert Locate(blocks, addr, |values|) == Find(blocks, addr);
      SliceIsLoad(blocks, addr, |values|, 0);
      assert values == Load(Abstract(blocks), addr, |values|, 0);
      forall k | 0 <= k < |values| ensures Holds(blocks, addr + k, values[k]) {
        QueueAt(blocks, addr, |values|, k);
        assert values[k] == Load(Abstract(blocks), addr, |values|, 0)[k];
      }
    }
  }

  lemma QueueAt(blocks: seq<Block<word>>, addr: word, n: nat, k: nat)
    requires AllValid(blocks) && DisjointOrSame(blocks) && Locate(blocks, addr, n).Some? && k < n
    ensures addr + k in Abstract(blocks)
    ensures Load(Abstract(blocks), addr, n, 0)[k] == Abstract(blocks)[addr + k]
  {
    hide Find, Locate, ValueAt, DisjointOrSame;
    LocatedFinds(blocks, addr, n, k);
    assert addr + k in Abstract(blocks);
    assert Load(Abstract(blocks), addr, n, 0)[k] == At(Abstract(blocks), addr + k, 0);
  }
}
