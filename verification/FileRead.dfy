/** Read File Record (function 0x14): the client's builder and iteration
    (emodbus/client/read_file_record.c) and the handler (emodbus/server/read_file.c). */
module FileRead {
  import opened Words
  import opened Pdus
  import opened Registry
  import opened Files
  import opened WordBuffers

  datatype SubRead = SubRead(file: word, record: word, count: word)

  const SUB_SIZE := 7

  // ----- the request

  function EncodeSub(s: SubRead): (e: seq<byte>)
    ensures |e| == SUB_SIZE
  {
    [REF_TYPE] + PutWords([s.file, s.record, s.count])
  }

  function EncodeSubs(subs: seq<SubRead>): (e: seq<byte>)
    ensures |e| == SUB_SIZE * |subs|
  {
    if subs == [] then [] else EncodeSubs(subs[..|subs| - 1]) + EncodeSub(subs[|subs| - 1])
  }

  function Request(subs: seq<SubRead>): (req: Pdu)
    requires |subs| <= 36
    ensures |req.data| == 1 + SUB_SIZE * |subs|
  {
    Pdu(0x14, [Count(SUB_SIZE * |subs|)] + EncodeSubs(subs))
  }

  predicate RecordsInRange(subs: seq<SubRead>) { forall i :: 0 <= i < |subs| ==> subs[i].record <= 0x270F }

  // The octets the answers to sub-requests take.
  function AnswersSize(subs: seq<SubRead>): nat {
    if subs == [] then 0 else AnswersSize(subs[..|subs| - 1]) + 2 + 2 * subs[|subs| - 1].count
  }

  // emb_read_file_calc_answer_data_size
  method CalcAnswerDataSize(subs: seq<SubRead>) returns (r: int)
    ensures r == 1 + AnswersSize(subs)
  {
    r := 1;
    var i := 0;
    while i < |subs|
      invariant 0 <= i <= |subs| && r == 1 + AnswersSize(subs[..i])
    {
      assert subs[..i + 1][..i] == subs[..i];
      r := r + 2 + 2 * (subs[i].count as int);
      i := i + 1;
    }
    assert subs[..i] == subs;
  }

  // emb_read_file_make_req
  method MakeReq(result: PduBuffer, subs: seq<SubRead>) returns (r: int)
    requires result.Valid()
    modifies result`func, result`size, result.data
    ensures result.Valid()
    ensures r == if result.maxSize < 1 + SUB_SIZE * |subs| then -ENOMEM
                 else if RecordsInRange(subs) then 0 else -EINVAL
    ensures r == 0 ==> |subs| <= 36 && result.Value() == Request(subs)
    ensures r == -ENOMEM ==> result.Value() == old(result.Value())
  {
    hide EncodeSub, EncodeSubs;
    var reqSize := 1 + SUB_SIZE * |subs|;
    if result.maxSize < reqSize {
      return -ENOMEM;
    }
    result.func, result.size := 0x14, reqSize;
    result.data[0] := reqSize - 1;
    r := StoreSubs(result.data, subs);
    if r == 0 {
      assert result.data[..reqSize] == [result.data[0]] + result.data[1..reqSize];
    }
  }

  method StoreSubs(buf: array<byte>, subs: seq<SubRead>) returns (r: int)
    requires 1 + SUB_SIZE * |subs| <= buf.Length
    modifies buf
    ensures r == if RecordsInRange(subs) then 0 else -EINVAL
    ensures buf[0] == old(buf[0])
    ensures r == 0 ==> buf[1..1 + SUB_SIZE * |subs|] == EncodeSubs(subs)
  {
    var i := 0;
    while i < |subs|
      invariant 0 <= i <= |subs| && (forall k :: 0 <= k < i ==> subs[k].record <= 0x270F) && buf[0] == old(buf[0])
      invariant buf[1..1 + SUB_SIZE * i] == EncodeSubs(subs[..i])
    {
      hide EncodeSub, PutWords;
      if subs[i].record > 0x270F {
        return -EINVAL;
      }
      ghost var at, before := 1 + SUB_SIZE * i, buf[1..1 + SUB_SIZE * i];
      StoreSub(buf, 1 + SUB_SIZE * i, subs[i]);
      assert subs[..i + 1][..i] == subs[..i];
      assert buf[1..at] == before;
      assert buf[1..at + SUB_SIZE] == buf[1..at] + buf[at..at + SUB_SIZE];
      i := i + 1;
    }
    assert subs[..i] == subs;
    r := 0;
  }

  method StoreSub(buf: array<byte>, at: nat, s: SubRead)
    requires at + SUB_SIZE <= buf.Length
    modifies buf
    ensures buf[at..at + SUB_SIZE] == EncodeSub(s)
    ensures forall i :: 0 <= i < buf.Length && !(at <= i < at + SUB_SIZE) ==> buf[i] == old(buf[i])
  {
    hide PutWords;
    buf[at] := REF_TYPE;
    StoreWords(buf, at + 1, [s.file, s.record, s.count]);
    assert buf[at..at + SUB_SIZE] == [buf[at]] + buf[at + 1..at + SUB_SIZE];
  }

  // ----- the answer

  // The octet in front of an answer, kept in 8 bits.
  function Length(count: word): byte { Low8(2 * count as int + 1) }

  function EncodeAnswer(values: seq<word>): (e: seq<byte>)
    requires |values| < 0x1_0000
    ensures |e| == 2 + 2 * |values|
  {
    [Length(|values|), REF_TYPE] + PutWords(values)
  }

  // A read brings as many registers as a uint16_t counts.
  predicate Counted16(answers: seq<seq<word>>) { forall i :: 0 <= i < |answers| ==> |answers[i]| < 0x1_0000 }

  function EncodeAnswers(answers: seq<seq<word>>): seq<byte>
    requires Counted16(answers)
  {
    if answers == [] then [] else EncodeAnswers(answers[..|answers| - 1]) + EncodeAnswer(answers[|answers| - 1])
  }

  // The count of the octets of all answers, kept in 8 bits, and as many octets as data_size then covers.
  function Answer(answers: seq<seq<word>>): Pdu
    requires Counted16(answers)
  {
    var e := EncodeAnswers(answers);
    Pdu(0x14, ([Low8(|e|)] + e)[..Low8(Low8(|e|) as int + 1)])
  }

  // When nothing wraps, the answers follow their count, whole.
  lemma AnswerWhole(answers: seq<seq<word>>)
    requires Counted16(answers) && |EncodeAnswers(answers)| <= 0xFE
    ensures Answer(answers).data == [Count(|EncodeAnswers(answers)|)] + EncodeAnswers(answers)
  {
    hide EncodeAnswers;
    var e := EncodeAnswers(answers);
    assert ([Low8(|e|)] + e)[..|e| + 1] == [Low8(|e|)] + e;
  }

  // ----- the handler

  datatype Result = Result(code: byte, reply: Pdu)

  // The sub-requests the loop looks at.
  function Turns(byteCount: nat): (n: nat)
    ensures byteCount <= SUB_SIZE * n < byteCount + SUB_SIZE
  {
    if byteCount == 0 then 0 else if byteCount <= SUB_SIZE then 1 else 1 + Turns(byteCount - SUB_SIZE)
  }

  function SubAt(d: seq<byte>, k: nat): SubRead
    requires 1 + SUB_SIZE * (k + 1) <= |d|
  {
    SubRead(Get16(d, 2 + SUB_SIZE * k), Get16(d, 4 + SUB_SIZE * k), Get16(d, 6 + SUB_SIZE * k))
  }

  function SubsAt(d: seq<byte>, n: nat): (subs: seq<SubRead>)
    requires 1 + SUB_SIZE * n <= |d|
    ensures |subs| == n && forall k :: 0 <= k < n ==> subs[k] == SubAt(d, k)
  {
    seq(n, k requires 0 <= k < n => SubAt(d, k))
  }

  // One turn of the loop: it ends with a code, or adds an answer.
  datatype Turn = Ends(code: byte) | Adds(values: seq<word>)

  // `filled` octets of answers are in; their number is kept in 8 bits.
  function TurnOf(files: Option<seq<File>>, ref: byte, s: SubRead, filled: nat, txMax: byte): (t: Turn)
    ensures t.Ends? ==> t.code != 0
    ensures t.Adds? ==> |t.values| == s.count as int && Counter(filled, s.count) <= txMax
  {
    if files.None? then Ends(MBE_SLAVE_FAILURE)
    else
      var f := FindFile(files.value, s.file);
      if ref != REF_TYPE || f.None? || files.value[f.value].read.Absent? then Ends(MBE_ILLEGAL_DATA_ADDR)
      else if txMax < Counter(filled, s.count) then Ends(MBE_SLAVE_FAILURE)
      else
        var (code, values) := LoadRecords(files.value[f.value], s.record, s.count);
        if code != 0 then Ends(code) else Adds(values)
  }

  // The counter of octets with an answer of so many registers.
  function Counter(filled: nat, count: word): byte { Low8(filled + Length(count) as int + 1) }

  lemma CounterIs(filled: nat, count: word)
    ensures Counter(filled, count) == Low8(filled + 2 + 2 * count as int)
    ensures Counter(filled, count) == Low8(Low8(filled) as int + Length(count) as int + 1)
  {
    Low8Adds(filled + 1, 2 * count as int + 1);
    Low8Adds(Length(count) as int + 1, filled);
  }

  // How far a turn writes into the reply's storage: length and reference type for any file that
  // exists, the registers when its read callback brings them.
  function Reach(files: Option<seq<File>>, ref: byte, s: SubRead, filled: nat, txMax: byte): nat {
    if files.None? || ref != REF_TYPE || FindFile(files.value, s.file).None? then 1 + filled
    else if TurnOf(files, ref, s, filled, txMax).Adds? then 3 + filled + 2 * s.count as int
    else 3 + filled
  }

  function TurnAt(files: Option<seq<File>>, d: seq<byte>, k: nat, filled: nat, txMax: byte): (t: Turn)
    requires 1 + SUB_SIZE * (k + 1) <= |d|
    ensures t.Ends? ==> t.code != 0
    ensures t.Adds? ==> |t.values| == SubAt(d, k).count as int && Counter(filled, SubAt(d, k).count) <= txMax
  {
    TurnOf(files, d[1 + SUB_SIZE * k], SubAt(d, k), filled, txMax)
  }

  // The loop from turn k on writes only into a reply storage of `room` octets.
  predicate Inside(files: Option<seq<File>>, d: seq<byte>, n: nat, k: nat, filled: nat, txMax: byte, room: nat)
    requires 1 + SUB_SIZE * n <= |d| && k <= n
    decreases n - k
  {
    k == n ||
    (&& Reach(files, d[1 + SUB_SIZE * k], SubAt(d, k), filled, txMax) <= room
     && match TurnAt(files, d, k, filled, txMax)
        case Ends(_) => true
        case Adds(values) => Inside(files, d, n, k + 1, filled + 2 + 2 * |values|, txMax, room))
  }

  // The loop from turn k on, with the answers collected so far.
  function Loop(files: Option<seq<File>>, d: seq<byte>, n: nat, k: nat, answers: seq<seq<word>>, txMax: byte)
    : (r: (byte, seq<seq<word>>))
    requires 1 + SUB_SIZE * n <= |d| && k <= n && Counted16(answers)
    ensures Counted16(r.1)
    decreases n - k
  {
    if k == n then (0, answers)
    else
      match TurnAt(files, d, k, |EncodeAnswers(answers)|, txMax)
      case Ends(code) => (code, [])
      case Adds(values) => Loop(files, d, n, k + 1, answers + [values], txMax)
  }

  lemma TurnFits(files: Option<seq<File>>, ref: byte, s: SubRead, filled: nat, txMax: byte)
    ensures Reach(files, ref, s, filled, txMax) <= 3 + filled + 2 * s.count as int
  {
    hide TurnOf, FindFile;
  }

  // If all answers fit the storage, so does every turn.
  lemma {:induction false} FittingIsInside(files: Option<seq<File>>, d: seq<byte>, n: nat, k: nat, txMax: byte, room: nat)
    requires 1 + SUB_SIZE * n <= |d| && k <= n && 1 + AnswersSize(SubsAt(d, n)) <= room
    ensures Inside(files, d, n, k, AnswersSize(SubsAt(d, n)[..k]), txMax, room)
    decreases n - k
  {
    hide TurnOf, Reach, SubAt, AnswersSize;
    if k < n {
      SizeSplits(SubsAt(d, n), k);
      TurnFits(files, d[1 + SUB_SIZE * k], SubAt(d, k), AnswersSize(SubsAt(d, n)[..k]), txMax);
      FittingIsInside(files, d, n, k + 1, txMax, room);
    }
  }

  lemma AnswersAppend(answers: seq<seq<word>>, values: seq<word>)
    requires Counted16(answers) && |values| < 0x1_0000
    ensures Counted16(answers + [values])
    ensures EncodeAnswers(answers + [values]) == EncodeAnswers(answers) + EncodeAnswer(values)
  {
    assert (answers + [values])[..|answers|] == answers;
  }

  function Handle(files: Option<seq<File>>, d: seq<byte>, txMax: byte): Result
    requires |d| >= MAX_PDU_DATA_SIZE
  {
    if d[0] < SUB_SIZE || d[0] > 245 then Result(MBE_ILLEGAL_DATA_VALUE, Pdu(0, []))
    else
      var (code, answers) := Loop(files, d, Turns(d[0]), 0, [], txMax);
      Result(code, if code == 0 then Answer(answers) else Pdu(0, []))
  }

  // What the handler demands of a request: that its answers stay inside the reply's storage.
  predicate Legible(files: Option<seq<File>>, d: seq<byte>, txMax: byte, room: nat) {
    && |d| >= MAX_PDU_DATA_SIZE && room >= 1
    && (SUB_SIZE <= d[0] <= 245 ==> Inside(files, d, Turns(d[0]), 0, 0, txMax, room))
  }

  // emb_srv_read_file
  method SrvReadFile(store: FileStore, rx: PduBuffer, tx: PduBuffer) returns (res: byte)
    requires rx.Valid() && tx.Valid() && rx != tx && rx.data != tx.data
    requires Legible(store.files, rx.data[..], tx.maxSize, tx.data.Length)
    modifies tx`func, tx`size, tx.data
    ensures tx.Valid()
    ensures var spec := Handle(store.files, rx.data[..], tx.maxSize);
            res == spec.code && (res == 0 ==> tx.Value() == spec.reply)
  {
    hide EncodeAnswer, EncodeAnswers, Loop;
    var byteCount := rx.data[0];
    if byteCount < SUB_SIZE || byteCount > SUB_SIZE * 35 {
      return MBE_ILLEGAL_DATA_VALUE;
    }
    var byteCounter;
    ghost var answers;
    res, byteCounter, answers := AnswerAll(store, rx, tx, byteCount);
    if res != 0 {
      return;
    }
    CloseAnswer(tx, byteCounter, answers);
  }

  // The count in front, data_size and function.
  method CloseAnswer(tx: PduBuffer, byteCounter: byte, ghost answers: seq<seq<word>>)
    requires tx.Valid() && Counted16(answers) && 1 + |EncodeAnswers(answers)| <= tx.data.Length
    requires tx.data[1..1 + |EncodeAnswers(answers)|] == EncodeAnswers(answers)
    requires byteCounter == Low8(|EncodeAnswers(answers)|)
    modifies tx`func, tx`size, tx.data
    ensures tx.Valid() && tx.Value() == Answer(answers)
  {
    hide EncodeAnswers;
    ghost var e := EncodeAnswers(answers);
    tx.data[0] := byteCounter;
    assert tx.data[..1 + |e|] == [byteCounter] + e;
    tx.size := Low8(byteCounter as int + 1);
    tx.func := 0x14;
    AnswerIs(answers);
    assert tx.data[..tx.size] == tx.data[..1 + |e|][..tx.size];
  }

  lemma AnswerIs(answers: seq<seq<word>>)
    requires Counted16(answers)
    ensures var e := EncodeAnswers(answers);
            var size := Low8(Low8(|e|) as int + 1);
            size as int <= 1 + |e| && Answer(answers) == Pdu(0x14, ([Low8(|e|)] + e)[..size])
  {
    hide EncodeAnswers;
  }

  // The loop over the sub-requests.
  method AnswerAll(store: FileStore, rx: PduBuffer, tx: PduBuffer, byteCount: byte)
    returns (res: byte, byteCounter: byte, ghost answers: seq<seq<word>>)
    requires rx.Valid() && tx.Valid() && rx != tx && rx.data != tx.data
    requires Legible(store.files, rx.data[..], tx.maxSize, tx.data.Length) && SUB_SIZE <= byteCount == rx.data[0] <= 245
    modifies tx.data
    ensures Loop(store.files, rx.data[..], Turns(byteCount), 0, [], tx.maxSize) == (res, if res == 0 then answers else [])
    ensures res == 0 ==>
              && Counted16(answers) && 1 + |EncodeAnswers(answers)| <= tx.data.Length
              && byteCounter == Low8(|EncodeAnswers(answers)|)
              && tx.data[1..1 + |EncodeAnswers(answers)|] == EncodeAnswers(answers)
  {
    hide EncodeAnswer, EncodeAnswers, TurnAt, SubAt, Reach;
    NothingEncoded();
    ghost var d, n := rx.data[..], Turns(byteCount);
    var i, k, filled := 0, 0, 0;
    res, byteCounter, answers := 0, 0, [];
    while i < byteCount as int
      invariant 0 <= k <= n && i == SUB_SIZE * k
      invariant Counted16(answers) && filled == |EncodeAnswers(answers)| && byteCounter == Low8(filled)
      invariant Inside(store.files, d, n, k, filled, tx.maxSize, tx.data.Length)
      invariant 1 + filled <= tx.data.Length && tx.data[1..1 + filled] == EncodeAnswers(answers)
      invariant Loop(store.files, d, n, k, answers, tx.maxSize) == Loop(store.files, d, n, 0, [], tx.maxSize)
    {
      res, byteCounter, filled, answers := AnswerNext(store, rx, tx, k, byteCounter, filled, answers);
      if res != 0 {
        return;
      }
      k := k + 1;
      i := i + SUB_SIZE;
    }
  }

  // One turn: length and reference type, then the registers, copied in host order and swapped in place.
  method AnswerNext(store: FileStore, rx: PduBuffer, tx: PduBuffer, k: nat, counter: byte, filled: nat,
                    ghost answers: seq<seq<word>>)
    returns (res: byte, byteCounter: byte, filled': nat, ghost after: seq<seq<word>>)
    requires rx.Valid() && tx.Valid() && rx != tx && rx.data != tx.data && 1 + SUB_SIZE * (k + 1) <= rx.data.Length
    requires Reach(store.files, rx.data[1 + SUB_SIZE * k], SubAt(rx.data[..], k), filled, tx.maxSize) <= tx.data.Length
    requires Counted16(answers) && filled == |EncodeAnswers(answers)| && counter == Low8(filled)
    requires 1 + filled <= tx.data.Length && tx.data[1..1 + filled] == EncodeAnswers(answers)
    modifies tx.data
    ensures match TurnAt(store.files, rx.data[..], k, filled, tx.maxSize)
            case Ends(code) => res == code
            case Adds(values) =>
              && res == 0 && after == answers + [values] && filled' == filled + 2 + 2 * |values|
              && Counted16(after) && filled' == |EncodeAnswers(after)| && byteCounter == Low8(filled')
              && 1 + filled' <= tx.data.Length && tx.data[1..1 + filled'] == EncodeAnswers(after)
  {
    hide EncodeAnswers, EncodeAnswer, TurnOf, Reach, Counter, Length, SubAt;
    after, filled' := answers, filled;
    ghost var before := tx.data[1..1 + filled];
    var s, values := SubAt(rx.data[..], k), [];
    CounterIs(filled, s.count);
    res, byteCounter, values := AskNext(store, rx.data[1 + SUB_SIZE * k], s, tx, counter, filled);
    if res != 0 {
      return;
    }
    StoreRegisters(tx.data, 1 + filled, values);
    AnswersAppend(answers, values);
    assert tx.data[1..1 + filled] == before;
    after := answers + [values];
    filled' := filled + 2 + 2 * |values|;
    assert tx.data[1..1 + filled'] == tx.data[1..1 + filled] + tx.data[1 + filled..1 + filled'];
  }

  method AskNext(store: FileStore, ref: byte, s: SubRead, tx: PduBuffer, counter: byte, filled: nat)
    returns (res: byte, byteCounter: byte, values: seq<word>)
    requires Reach(store.files, ref, s, filled, tx.maxSize) <= tx.data.Length && counter == Low8(filled)
    modifies tx.data
    ensures match TurnOf(store.files, ref, s, filled, tx.maxSize)
            case Ends(code) => res == code
            case Adds(vs) =>
              && res == 0 && values == vs && byteCounter == Counter(filled, s.count)
              && 3 + filled + 2 * |values| <= tx.data.Length
              && tx.data[1 + filled] == Length(|values|) && tx.data[2 + filled] == REF_TYPE
    ensures forall i :: 0 <= i < 1 + filled && i < tx.data.Length ==> tx.data[i] == old(tx.data[i])
  {
    hide FindFile, Length, Counter;
    values, byteCounter := [], counter;
    if store.files.None? {
      return MBE_SLAVE_FAILURE, byteCounter, values;
    }
    var file := store.GetFile(s.file);
    if ref != REF_TYPE || file.None? {
      return MBE_ILLEGAL_DATA_ADDR, byteCounter, values;
    }
    CounterIs(filled, s.count);
    var bytes := Length(s.count);
    tx.data[1 + filled] := bytes;
    byteCounter := Low8(counter as int + bytes as int + 1);
    tx.data[2 + filled] := REF_TYPE;
    if store.files.value[file.value].read.Absent? {
      return MBE_ILLEGAL_DATA_ADDR, byteCounter, values;
    }
    if tx.maxSize < byteCounter {
      return MBE_SLAVE_FAILURE, byteCounter, values;
    }
    res, values := store.CallReadFile(file.value, s.record, s.count);
  }

  // The registers of an answer, behind its length and reference type.
  method StoreRegisters(buf: array<byte>, at: nat, values: seq<word>)
    requires |values| < 0x1_0000 && at + 2 + 2 * |values| <= buf.Length
    requires buf[at] == Length(|values|) && buf[at + 1] == REF_TYPE
    modifies buf
    ensures buf[at..at + 2 + 2 * |values|] == EncodeAnswer(values)
    ensures forall i :: 0 <= i < at ==> buf[i] == old(buf[i])
  {
    hide PutWords, Length;
    CopyWords(buf, at + 2, values);
    SwapWords(buf, at + 2, |values|);
    OctetsArePutWords(buf[at + 2..at + 2 + 2 * |values|], values);
  }

  lemma NothingEncoded()
    ensures EncodeAnswers([]) == []
  {
  }

  lemma {:induction false} SizeSplits(subs: seq<SubRead>, i: nat)
    requires i < |subs|
    ensures AnswersSize(subs[..i + 1]) == AnswersSize(subs[..i]) + 2 + 2 * (subs[i].count as int) <= AnswersSize(subs)
  {
    assert subs[..i + 1][..i] == subs[..i];
    if i + 1 < |subs| {
      SizeSplits(subs[..|subs| - 1], i);
      assert subs[..|subs| - 1][..i + 1] == subs[..i + 1];
      assert subs[..|subs| - 1][..i] == subs[..i];
    } else {
      assert subs[..i + 1] == subs;
    }
  }

  // ----- the size of the reply

  lemma {:induction false} LoopSize(files: Option<seq<File>>, d: seq<byte>, n: nat, k: nat, answers: seq<seq<word>>, txMax: byte)
    requires 1 + SUB_SIZE * n <= |d| && k <= n && Counted16(answers) && Low8(|EncodeAnswers(answers)|) <= txMax
    requires |EncodeAnswers(answers)| == AnswersSize(SubsAt(d, n)[..k])
    ensures var (code, all) := Loop(files, d, n, k, answers, txMax);
            code == 0 ==> |EncodeAnswers(all)| == AnswersSize(SubsAt(d, n)) && Low8(|EncodeAnswers(all)|) <= txMax
    decreases n - k
  {
    hide EncodeAnswers, EncodeAnswer, TurnAt, AnswersSize, Counter;
    var subs := SubsAt(d, n);
    if k == n {
      assert subs[..n] == subs;
    } else {
      var t := TurnAt(files, d, k, |EncodeAnswers(answers)|, txMax);
      if t.Adds? {
        SizeSplits(subs, k);
        AnswersAppend(answers, t.values);
        CounterIs(|EncodeAnswers(answers)|, SubAt(d, k).count);
        LoopSize(files, d, n, k + 1, answers + [t.values], txMax);
      }
    }
  }

  lemma {:induction false} SizeIsEven(subs: seq<SubRead>)
    ensures AnswersSize(subs) % 2 == 0
  {
    if subs != [] {
      SizeIsEven(subs[..|subs| - 1]);
    }
  }

  lemma {:induction false} Low8Even(n: nat)
    requires n % 2 == 0
    ensures Low8(n) <= 0xFE
  {
    if n >= 0x100 {
      Low8Even(n - 0x100);
    }
  }

  // The check compares the reply PDU with the octets behind the first, so a reply can exceed it by one
  // octet: it stays inside exactly when the counted octets, and the one that counts them, fit.
  lemma ReplyWithin(files: Option<seq<File>>, d: seq<byte>, txMax: byte)
    requires |d| >= MAX_PDU_DATA_SIZE && Handle(files, d, txMax).code == 0
    ensures SUB_SIZE <= d[0] <= 245
    ensures var size, counted := |Handle(files, d, txMax).reply.data|, Low8(AnswersSize(SubsAt(d, Turns(d[0]))));
            && size == 1 + counted <= txMax as int + 1
            && (size <= txMax as int <==> 1 + counted <= txMax as int)
  {
    hide EncodeAnswers, Loop, AnswersSize;
    NothingEncoded();
    NothingAsked();
    var subs := SubsAt(d, Turns(d[0]));
    assert subs[..0] == [];
    LoopSize(files, d, Turns(d[0]), 0, [], txMax);
    SizeIsEven(subs);
    Low8Even(AnswersSize(subs));
  }

  lemma NothingAsked()
    ensures AnswersSize([]) == 0
  {
  }
}
