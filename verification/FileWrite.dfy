/** Write File Record (function 0x15): the builder emodbus/client/write_file_record.c, the
    handler emodbus/server/write_file.c, and the proof that the handler applies exactly
    the list of sub-requests that was built, in order. */
module FileWrite {
  import opened Words
  import opened Pdus
  import opened Registry
  import opened Files
  import opened WordBuffers

  // record_length is |values|.
  datatype SubWrite = SubWrite(file: word, record: word, values: seq<word>)

  // ----- the request

  function EncodeSub(s: SubWrite): (e: seq<byte>)
    requires |s.values| < 0x1_0000
    ensures |e| == 7 + 2 * |s.values|
  {
    [REF_TYPE] + PutWords([s.file, s.record, |s.values|]) + PutWords(s.values)
  }

  // record_length is a uint16_t.
  predicate Encodable(subs: seq<SubWrite>) { forall i :: 0 <= i < |subs| ==> |subs[i].values| < 0x1_0000 }

  function EncodeSubs(subs: seq<SubWrite>): seq<byte>
    requires Encodable(subs)
  {
    if subs == [] then [] else EncodeSub(subs[0]) + EncodeSubs(subs[1..])
  }

  // emb_write_file_calc_req_data_size, less the byte count
  function SubsSize(subs: seq<SubWrite>): nat {
    if subs == [] then 0 else SubsSize(subs[..|subs| - 1]) + 7 + 2 * |subs[|subs| - 1].values|
  }

  lemma NothingEncoded()
    ensures EncodeSubs([]) == [] && SubsSize([]) == 0
  {
  }

  lemma {:induction false} EncodeAppend(subs: seq<SubWrite>, s: SubWrite)
    requires Encodable(subs) && |s.values| < 0x1_0000
    ensures Encodable(subs + [s]) && EncodeSubs(subs + [s]) == EncodeSubs(subs) + EncodeSub(s)
  {
    hide EncodeSub;
    if subs == [] {
      assert [s][1..] == [];
      assert subs + [s] == [s];
    } else {
      EncodeAppend(subs[1..], s);
      assert (subs + [s])[1..] == subs[1..] + [s];
    }
  }

  lemma {:induction false} EncodedSize(subs: seq<SubWrite>)
    requires Encodable(subs)
    ensures |EncodeSubs(subs)| == SubsSize(subs)
  {
    hide EncodeSub;
    if subs != [] {
      var n := |subs| - 1;
      EncodedSize(subs[..n]);
      EncodeAppend(subs[..n], subs[n]);
      assert subs[..n] + [subs[n]] == subs;
    }
  }

  function Request(subs: seq<SubWrite>): (req: Pdu)
    requires Encodable(subs) && SubsSize(subs) <= 0xFE
    ensures |req.data| == 1 + SubsSize(subs)
  {
    EncodedSize(subs);
    Pdu(0x15, [Count(SubsSize(subs))] + EncodeSubs(subs))
  }

  predicate RecordsInRange(subs: seq<SubWrite>) { forall i :: 0 <= i < |subs| ==> subs[i].record <= 0x270F }

  // emb_write_file_calc_req_data_size
  method CalcReqDataSize(subs: Option<seq<SubWrite>>) returns (r: int)
    ensures r == if subs.None? then -EINVAL else 1 + SubsSize(subs.value)
  {
    if subs.None? {
      return -EINVAL;
    }
    r := 1;
    var i := 0;
    while i < |subs.value|
      invariant 0 <= i <= |subs.value|
      invariant r == 1 + SubsSize(subs.value[..i])
    {
      assert subs.value[..i + 1][..i] == subs.value[..i];
      r := r + 7 + 2 * |subs.value[i].values|;
      i := i + 1;
    }
    assert subs.value[..i] == subs.value;
  }

  // One sub-request at the cursor.
  method StoreSub(buf: array<byte>, at: nat, s: SubWrite)
    requires |s.values| < 0x1_0000 && at + 7 + 2 * |s.values| <= buf.Length
    modifies buf
    ensures buf[at..at + 7 + 2 * |s.values|] == EncodeSub(s)
    ensures forall i :: 0 <= i < buf.Length && !(at <= i < at + 7 + 2 * |s.values|) ==> buf[i] == old(buf[i])
  {
    hide PutWords;
    var end := at + 7 + 2 * |s.values|;
    buf[at] := REF_TYPE;
    StoreWords(buf, at + 1, [s.file, s.record, |s.values|]);
    ghost var head := buf[at + 1..at + 7];
    StoreWords(buf, at + 7, s.values);
    assert buf[at + 1..at + 7] == head;
    Joined(buf[..], at, at + 1, at + 7);
    Joined(buf[..], at, at + 7, end);
    assert buf[at..at + 1] == [buf[at]];
  }

  // emb_write_file_make_req; a null pointer is a null or a None
  method MakeReq(result: PduBuffer?, subs: Option<seq<SubWrite>>) returns (r: int)
    requires result != null ==> result.Valid()
    requires subs.Some? ==> Encodable(subs.value)
    modifies if result == null then {} else {result, result.data}
    ensures result != null ==> result.Valid() && result.maxSize == old(result.maxSize)
    ensures r == if subs.None? || result == null then -EINVAL
                 else if result.maxSize < 1 + SubsSize(subs.value) then -ENOMEM
                 else if RecordsInRange(subs.value) then 0 else -EINVAL
    ensures r == 0 ==> result.Value() == Request(subs.value)
    ensures r == -ENOMEM ==> result.Value() == old(result.Value())
  {
    hide EncodeSub, EncodeSubs, SubsSize, RecordsInRange, Request;
    var reqSize := CalcReqDataSize(subs);
    if subs.None? || reqSize <= 0 || result == null {
      return -EINVAL;
    }
    if result.maxSize < reqSize {
      return -ENOMEM;
    }
    r := StoreRequest(result, reqSize, subs.value);
  }

  method StoreRequest(result: PduBuffer, reqSize: byte, subs: seq<SubWrite>) returns (r: int)
    requires result.Valid() && Encodable(subs) && reqSize == 1 + SubsSize(subs) <= result.data.Length
    modifies result`func, result`size, result.data
    ensures result.Valid()
    ensures r == if RecordsInRange(subs) then 0 else -EINVAL
    ensures r == 0 ==> result.Value() == Request(subs)
  {
    hide EncodeSub, EncodeSubs, SubsSize, RecordsInRange;
    result.func, result.size := 0x15, reqSize;
    result.data[0] := reqSize - 1;
    r := StoreSubs(result.data, reqSize, subs);
    if r == 0 {
      assert result.data[..reqSize] == [result.data[0]] + result.data[1..reqSize];
    }
  }

  // The sub-requests behind the byte count.
  method StoreSubs(buf: array<byte>, end: nat, subs: seq<SubWrite>) returns (r: int)
    requires Encodable(subs) && 1 + SubsSize(subs) == end <= buf.Length
    modifies buf
    ensures r == if RecordsInRange(subs) then 0 else -EINVAL
    ensures buf[0] == old(buf[0])
    ensures r == 0 ==> buf[1..end] == EncodeSubs(subs)
  {
    hide EncodeSub, EncodeSubs, SubsSize;
    var i, cursor := 0, 1;
    NothingEncoded();
    assert subs[..0] == [];
    while i < |subs|
      invariant 0 <= i <= |subs| && cursor == 1 + SubsSize(subs[..i]) <= end
      invariant forall k :: 0 <= k < i ==> subs[k].record <= 0x270F
      invariant buf[1..cursor] == EncodeSubs(subs[..i]) && buf[0] == old(buf[0])
    {
      var s := subs[i];
      if s.record > 0x270F {
        return -EINVAL;
      }
      SizeSplits(subs, i);
      ghost var before := buf[1..cursor];
      var next := cursor + 7 + 2 * |s.values|;
      StoreSub(buf, cursor, s);
      EncodeAppend(subs[..i], s);
      assert subs[..i] + [s] == subs[..i + 1];
      assert buf[1..cursor] == before;
      assert buf[1..next] == buf[1..cursor] + buf[cursor..next];
      cursor := next;
      i := i + 1;
    }
    assert subs[..i] == subs;
    r := 0;
  }

  lemma {:induction false} SizeSplits(subs: seq<SubWrite>, i: nat)
    requires i < |subs|
    ensures SubsSize(subs[..i + 1]) == SubsSize(subs[..i]) + 7 + 2 * |subs[i].values| <= SubsSize(subs)
  {
    assert subs[..i + 1][..i] == subs[..i];
    if i + 1 < |subs| {
      SizeSplits(subs[..|subs| - 1], i);
      assert subs[..|subs| - 1][..i + 1] == subs[..i + 1];
      assert subs[..|subs| - 1][..i] == subs[..i];
    } else {
      assert subs[..i + 1] == subs;
    }
  }

  // ----- the handler

  // Exception code, files afterwards, and the reply that goes with code 0.
  datatype Result = Result(code: byte, files: Option<seq<File>>, reply: Pdu)

  // One turn of the loop: it ends with a code, or goes on with the files and the cursor of the next turn.
  // Outside: it looks for a field behind the end of the storage.
  datatype Turn = Ends(code: byte) | Goes(files: seq<File>, cursor: nat) | Outside

  function TurnAt(files: Option<seq<File>>, d: seq<byte>, cursor: nat, end: byte): (t: Turn)
    requires cursor < end as int <= |d|
    ensures t.Goes? ==> cursor + 7 <= t.cursor <= end as int
    ensures t.Ends? ==> t.code != 0
  {
    if d[cursor] != REF_TYPE then Ends(MBE_ILLEGAL_DATA_ADDR)
    else if files.None? then Ends(MBE_SLAVE_FAILURE)
    else if cursor + 3 > |d| then Outside
    else
      var k := FindFile(files.value, Get16(d, cursor + 1));
      if k.None? || files.value[k.value].write.Absent? then Ends(MBE_ILLEGAL_DATA_ADDR)
      else if cursor + 7 > |d| then Outside
      else
        var record, count := Get16(d, cursor + 3), Get16(d, cursor + 5);
        if cursor + 7 + 2 * count > end as int then Ends(MBE_ILLEGAL_DATA_VALUE)
        else
          var (code, f) := StoreRecords(files.value[k.value], record, GetWords(d, cursor + 7, count));
          if code != 0 then Ends(code) else Goes(files.value[k.value := f], cursor + 7 + 2 * count)
  }

  // The loop from the cursor on looks only at the storage.
  predicate Inside(files: Option<seq<File>>, d: seq<byte>, cursor: nat, end: byte)
    requires end as int <= |d|
    decreases end - cursor
  {
    cursor >= end as int ||
    match TurnAt(files, d, cursor, end)
    case Ends(_) => true
    case Goes(after, next) => Inside(Some(after), d, next, end)
    case Outside => false
  }

  // The loop from the cursor on, where it looks only at the storage.
  function Loop(files: Option<seq<File>>, d: seq<byte>, cursor: nat, end: byte): (byte, Option<seq<File>>)
    requires end as int <= |d|
    decreases end - cursor
  {
    if cursor >= end as int then (0, files)
    else
      match TurnAt(files, d, cursor, end)
      case Ends(code) => (code, files)
      case Goes(after, next) => Loop(Some(after), d, next, end)
      case Outside => (MBE_SLAVE_FAILURE, files)
  }

  // Six octets behind the request are enough for any request.
  lemma {:induction false} SlackSuffices(files: Option<seq<File>>, d: seq<byte>, cursor: nat, end: byte)
    requires end + 6 <= |d|
    ensures Inside(files, d, cursor, end)
    decreases end - cursor
  {
    if cursor < end as int {
      var t := TurnAt(files, d, cursor, end);
      if t.Goes? {
        SlackSuffices(Some(t.files), d, t.cursor, end);
      }
    }
  }

  predicate CountAccepted(n: int) { 0x0A <= n <= 0xFA }

  function Handle(files: Option<seq<File>>, d: seq<byte>, size: byte, txMax: byte): Result
    requires 1 <= |d| && size as int <= |d|
  {
    if !CountAccepted(d[0]) then Result(MBE_ILLEGAL_DATA_VALUE, files, Pdu(0, []))
    else if txMax < size then Result(MBE_SLAVE_FAILURE, files, Pdu(0, []))
    else
      var (code, after) := Loop(files, d, 1, size);
      Result(code, after, if code == 0 then Pdu(0x15, d[..size]) else Pdu(0, []))
  }

  // What the handler demands of a request: that it can be read without looking behind the storage.
  predicate Legible(files: Option<seq<File>>, d: seq<byte>, size: byte, txMax: byte) {
    1 <= |d| && size as int <= |d| && (CountAccepted(d[0]) && txMax >= size ==> Inside(files, d, 1, size))
  }

  // emb_srv_write_file
  method SrvWriteFile(store: FileStore, rx: PduBuffer, tx: PduBuffer) returns (res: byte, ghost turns: nat)
    requires rx.Valid() && tx.Valid() && rx != tx && rx.data != tx.data
    requires Legible(store.files, rx.data[..], rx.size, tx.maxSize)
    modifies store`files, rx.data, tx`func, tx`size, tx.data
    ensures rx.Valid() && tx.Valid()
    ensures var spec := Handle(old(store.files), old(rx.data[..]), rx.size, tx.maxSize);
            && res == spec.code && store.files == spec.files
            && (res == 0 ==> tx.Value() == spec.reply)
    ensures 7 * turns <= rx.size as int
  {
    hide Loop, Inside;
    turns := 0;
    var byteCount := rx.data[0];
    if byteCount <= 0x09 || byteCount >= 0xFB {
      return MBE_ILLEGAL_DATA_VALUE, 0;
    }
    tx.func := 0x15;
    if tx.maxSize < rx.size {
      return MBE_SLAVE_FAILURE, 0;
    }
    tx.size := rx.size;
    forall i | 0 <= i < rx.size {
      tx.data[i] := rx.data[i];
    }
    assert tx.data[..tx.size] == rx.data[..][..rx.size];
    assert rx.data[..] == old(rx.data[..]);
    res, turns := ApplyAll(store, rx);
  }

  lemma SameWords(x: seq<byte>, y: seq<byte>, at: nat, n: nat)
    requires |x| == |y| && at + 2 * n <= |x|
    requires forall i :: at <= i < |x| ==> x[i] == y[i]
    ensures GetWords(x, at, n) == GetWords(y, at, n)
  {
    forall k | 0 <= k < n ensures GetWords(x, at, n)[k] == GetWords(y, at, n)[k] {
      assert x[at + 2 * k] == y[at + 2 * k] && x[at + 2 * k + 1] == y[at + 2 * k + 1];
    }
  }

  // The loop over the sub-requests; each turn moves the cursor at least 7 octets.
  method ApplyAll(store: FileStore, rx: PduBuffer) returns (res: byte, ghost turns: nat)
    requires rx.Valid() && Inside(store.files, rx.data[..], 1, rx.size)
    modifies store`files, rx.data
    ensures (res, store.files) == Loop(old(store.files), old(rx.data[..]), 1, rx.size)
    ensures 7 * turns <= rx.size as int
  {
    ghost var d := rx.data[..];
    var cursor := 1;
    turns := 0;
    res := 0;
    while cursor < rx.size as int
      invariant 1 + 7 * turns <= cursor && (cursor <= rx.size as int || turns == 0)
      invariant forall i :: cursor <= i < rx.data.Length ==> rx.data[i] == d[i]
      invariant Inside(store.files, d, cursor, rx.size)
      invariant Loop(store.files, d, cursor, rx.size) == Loop(old(store.files), d, 1, rx.size)
      decreases rx.size - cursor
    {
      hide TurnAt;
      res, cursor := ApplyNext(store, rx, cursor, d);
      if res != 0 {
        return;
      }
      turns := turns + 1;
    }
  }

  method ApplyNext(store: FileStore, rx: PduBuffer, from: nat, ghost d: seq<byte>) returns (res: byte, cursor: nat)
    requires rx.Valid() && from < rx.size as int && |d| == rx.data.Length
    requires TurnAt(store.files, d, from, rx.size) != Outside
    requires forall i :: from <= i < rx.data.Length ==> rx.data[i] == d[i]
    modifies store`files, rx.data
    ensures match TurnAt(old(store.files), d, from, rx.size)
            case Ends(code) => res == code && store.files == old(store.files)
            case Goes(after, next) => res == 0 && store.files == Some(after) && cursor == next
            case Outside => false
    ensures res == 0 ==> forall i :: cursor <= i < rx.data.Length ==> rx.data[i] == d[i]
  {
    hide GetWords, FindFile;
    cursor := from;
    if rx.data[from] != REF_TYPE {
      return MBE_ILLEGAL_DATA_ADDR, cursor;
    }
    if store.files.None? {
      return MBE_SLAVE_FAILURE, cursor;
    }
    var file := store.GetFile(Get16(rx.data[..], from + 1));
    if file.None? || store.files.value[file.value].write.Absent? {
      return MBE_ILLEGAL_DATA_ADDR, cursor;
    }
    var startAddr, regCount := Get16(rx.data[..], from + 3), Get16(rx.data[..], from + 5);
    cursor := from + 7;
    var octets: nat := 2 * (regCount as int);
    if cursor + octets > rx.size as int {
      return MBE_ILLEGAL_DATA_VALUE, cursor;
    }
    SameWords(rx.data[..], d, cursor, regCount);
    var values := TakeWords(rx.data, cursor, regCount);
    ghost var files := store.files.value;
    res := store.CallWriteFile(file.value, startAddr, values);
    cursor := cursor + octets;
    assert files[file.value := files[file.value]] == files;
  }
}
