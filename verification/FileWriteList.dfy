/** What the handler of function 0x15 makes of a request built by the client: the list of
    sub-requests, applied in order up to the first that fails. */
module FileWriteList {
  import opened Words
  import opened Pdus
  import opened Registry
  import opened Files
  import opened FileWrite

  // One write, without octets.
  function ApplyOne(files: seq<File>, s: SubWrite): (byte, seq<File>) {
    var k := FindFile(files, s.file);
    if k.None? || files[k.value].write.Absent? then (MBE_ILLEGAL_DATA_ADDR, files)
    else
      var (code, f) := StoreRecords(files[k.value], s.record, s.values);
      (code, files[k.value := f])
  }

  // A list of writes, stopped by the first that fails.
  function Apply(files: seq<File>, subs: seq<SubWrite>): (byte, seq<File>)
    decreases |subs|
  {
    if subs == [] then (0, files)
    else
      var (code, after) := ApplyOne(files, subs[0]);
      if code != 0 then (code, after) else Apply(after, subs[1..])
  }

  // ----- the handler recovers the list

  // The fields of a sub-request, where the loop looks for them.
  lemma SubFields(before: seq<byte>, s: SubWrite, rest: seq<byte>)
    requires |s.values| < 0x1_0000
    ensures var d, at := before + EncodeSub(s) + rest, |before|;
            && d[at] == REF_TYPE && Get16(d, at + 1) == s.file
            && Get16(d, at + 3) == s.record && Get16(d, at + 5) == |s.values|
  {
    hide PutWords;
    var ws := [s.file, s.record, |s.values|];
    var p := PutWords(ws);
    var d, at := before + EncodeSub(s) + rest, |before|;
    HeadInPlace(before, [REF_TYPE] + p, PutWords(s.values), rest);
    PutWordsAt(ws, 0);
    PutWordsAt(ws, 1);
    PutWordsAt(ws, 2);
    forall j: nat | j < 6 ensures d[at + (1 + j)] == p[j] {
      assert ([REF_TYPE] + p)[1 + j] == p[j];
    }
    hide EncodeSub;
    assert d[at + 1] == p[0] && d[at + 2] == p[1];
    assert d[at + 3] == p[2] && d[at + 4] == p[3];
    assert d[at + 5] == p[4] && d[at + 6] == p[5];
  }

  lemma HeadInPlace(before: seq<byte>, head: seq<byte>, tail: seq<byte>, rest: seq<byte>)
    ensures forall j :: 0 <= j < |head| ==> (before + (head + tail) + rest)[|before| + j] == head[j]
  {
  }

  lemma SubValues(before: seq<byte>, s: SubWrite, rest: seq<byte>)
    requires |s.values| < 0x1_0000
    ensures GetWords(before + EncodeSub(s) + rest, |before| + 7, |s.values|) == s.values
  {
    hide PutWords, GetWords;
    var head := [REF_TYPE] + PutWords([s.file, s.record, |s.values|]);
    PutGetWords(before + head, s.values, rest);
    assert before + head + PutWords(s.values) + rest == before + EncodeSub(s) + rest;
  }

  // The turn at a sub-request carries out its write.
  lemma TurnApplies(files: seq<File>, before: seq<byte>, s: SubWrite, rest: seq<byte>, end: byte)
    requires |s.values| < 0x1_0000 && |before| + |EncodeSub(s)| <= end as int <= |before + EncodeSub(s) + rest|
    ensures var (code, after) := ApplyOne(files, s);
            TurnAt(Some(files), before + EncodeSub(s) + rest, |before|, end) ==
              if code != 0 then Ends(code) else Goes(after, |before| + |EncodeSub(s)|)
  {
    hide EncodeSub, GetWords, StoreRecords, FindFile;
    SubFields(before, s, rest);
    SubValues(before, s, rest);
  }

  // The loop over the encoding of a list looks at nothing behind it, and applies the list.
  lemma {:induction false} LoopApplies(files: seq<File>, before: seq<byte>, subs: seq<SubWrite>, stale: seq<byte>, end: byte)
    requires Encodable(subs) && end as int == |before| + |EncodeSubs(subs)|
    ensures Inside(Some(files), before + EncodeSubs(subs) + stale, |before|, end)
    ensures var (code, after) := Apply(files, subs);
            Loop(Some(files), before + EncodeSubs(subs) + stale, |before|, end) == (code, Some(after))
    decreases |subs|
  {
    hide EncodeSub, TurnAt, ApplyOne;
    if subs != [] {
      var s, rest := subs[0], EncodeSubs(subs[1..]);
      var d := before + EncodeSubs(subs) + stale;
      assert d == before + EncodeSub(s) + (rest + stale);
      assert d == (before + EncodeSub(s)) + rest + stale;
      ApplyOneKeeps(files, s);
      TurnApplies(files, before, s, rest + stale, end);
      var (code, after) := ApplyOne(files, s);
      if code == 0 {
        LoopApplies(after, before + EncodeSub(s), subs[1..], stale, end);
      }
    }
  }

  // The handler on a built request, with the octets `stale` behind it in the receive buffer.
  function Serve(files: seq<File>, subs: seq<SubWrite>, stale: seq<byte>, txMax: byte): Result
    requires Encodable(subs) && SubsSize(subs) <= 0xFE
  {
    Handle(Some(files), FileWrite.Request(subs).data + stale, Count(1 + SubsSize(subs)), txMax)
  }

  // A built request with an accepted byte count is carried out as the list it was built from, and
  // on success the reply repeats it; with any other byte count it is refused.
  lemma ServeApplies(files: seq<File>, subs: seq<SubWrite>, stale: seq<byte>, txMax: byte)
    requires Encodable(subs) && SubsSize(subs) <= 0xFE && txMax >= 1 + SubsSize(subs)
    ensures Legible(Some(files), FileWrite.Request(subs).data + stale, Count(1 + SubsSize(subs)), txMax)
    ensures Serve(files, subs, stale, txMax) ==
              if CountAccepted(SubsSize(subs)) then
                var (code, after) := Apply(files, subs);
                Result(code, Some(after), if code == 0 then FileWrite.Request(subs) else Pdu(0, []))
              else Result(MBE_ILLEGAL_DATA_VALUE, Some(files), Pdu(0, []))
  {
    hide EncodeSub, EncodeSubs, Loop, Inside, Apply, SubsSize;
    var req := FileWrite.Request(subs);
    EncodedSize(subs);
    var d := req.data + stale;
    assert d[0] == SubsSize(subs);
    assert d[..|req.data|] == req.data;
    LoopApplies(files, [Count(SubsSize(subs))], subs, stale, 1 + SubsSize(subs));
  }

  // Among requests whose writes all succeed, those with a byte count of 0x0A to 0xFA are exactly the ones confirmed.
  lemma ConfirmedIff(files: seq<File>, subs: seq<SubWrite>, stale: seq<byte>, txMax: byte)
    requires Encodable(subs) && SubsSize(subs) <= 0xFE && txMax >= 1 + SubsSize(subs)
    requires Apply(files, subs).0 == 0
    ensures Serve(files, subs, stale, txMax).code == 0 <==> CountAccepted(SubsSize(subs))
  {
    hide Apply, Serve, SubsSize, EncodeSubs;
    ServeApplies(files, subs, stale, txMax);
  }

  function OneRegister(file: word, record: word, value: word): (subs: seq<SubWrite>)
    ensures Encodable(subs) && SubsSize(subs) == 0x09
  {
    var subs := [SubWrite(file, record, [value])];
    assert subs[..0] == [];
    subs
  }

  // Section 6.15 of the protocol allows 0x09 and 0xFB too: the write of a single register is refused whatever the files.
  lemma OneRegisterRefused(files: seq<File>, file: word, record: word, value: word, stale: seq<byte>, txMax: byte)
    requires txMax >= 10
    ensures Serve(files, OneRegister(file, record, value), stale, txMax) ==
              Result(MBE_ILLEGAL_DATA_VALUE, Some(files), Pdu(0, []))
  {
    hide Serve;
    ServeApplies(files, OneRegister(file, record, value), stale, txMax);
  }

  // ----- what a list of writes does

  lemma ApplyOneKeeps(files: seq<File>, s: SubWrite)
    ensures SameFiles(files, ApplyOne(files, s).1)
    ensures ApplyOne(files, s).0 != 0 ==> ApplyOne(files, s).1 == files
  {
  }

  lemma {:induction false} ApplySplits(files: seq<File>, subs: seq<SubWrite>, n: nat)
    requires n <= |subs|
    ensures SameFiles(files, Apply(files, subs[..n]).1)
    ensures Apply(files, subs) ==
              var (code, after) := Apply(files, subs[..n]);
              if code != 0 then (code, after) else Apply(after, subs[n..])
    decreases |subs|
  {
    if n > 0 {
      ApplyOneKeeps(files, subs[0]);
      assert subs[..n][0] == subs[0] && subs[..n][1..] == subs[1..][..n - 1] && subs[n..] == subs[1..][n - 1..];
      ApplySplits(ApplyOne(files, subs[0]).1, subs[1..], n - 1);
    } else {
      assert subs[0..] == subs;
    }
  }

  // The first write that fails decides the code; exactly the writes before it took effect.
  lemma FailureAt(files: seq<File>, subs: seq<SubWrite>, k: nat)
    requires k < |subs| && Apply(files, subs[..k]).0 == 0
    requires ApplyOne(Apply(files, subs[..k]).1, subs[k]).0 != 0
    ensures Apply(files, subs) == (ApplyOne(Apply(files, subs[..k]).1, subs[k]).0, Apply(files, subs[..k]).1)
  {
    ApplySplits(files, subs, k);
    ApplyOneKeeps(Apply(files, subs[..k]).1, subs[k]);
  }

  // A file the server does not have, at sub-request k.
  lemma UnknownFile(files: seq<File>, subs: seq<SubWrite>, k: nat)
    requires k < |subs| && Apply(files, subs[..k]).0 == 0 && FindFile(files, subs[k].file).None?
    ensures Apply(files, subs) == (MBE_ILLEGAL_DATA_ADDR, Apply(files, subs[..k]).1)
  {
    ApplySplits(files, subs, k);
    SameFilesFind(files, Apply(files, subs[..k]).1, subs[k].file);
    FailureAt(files, subs, k);
  }

  // The value that the latest of the writes to a register left there, or v if none covers it.
  function Latest(subs: seq<SubWrite>, file: word, record: int, v: word): word {
    if subs == [] then v
    else
      var s := subs[|subs| - 1];
      if s.file == file && s.record <= record < s.record + |s.values| then s.values[record - s.record]
      else Latest(subs[..|subs| - 1], file, record, v)
  }

  // After a list of successful writes, each register holds the latest value written to it.
  lemma {:induction false} ApplyAt(files: seq<File>, subs: seq<SubWrite>, file: word, record: nat)
    requires Apply(files, subs).0 == 0 && FindFile(files, file).Some?
    ensures var k := FindFile(files, file).value;
            var after := Apply(files, subs).1;
            && SameFiles(files, after) && |after[k].records| == |files[k].records|
            && (record < |files[k].records| ==>
                  after[k].records[record] == Latest(subs, file, record, files[k].records[record]))
  {
    if subs != [] {
      var n := |subs| - 1;
      ApplySplits(files, subs, n);
      assert subs[n..] == [subs[n]];
      ApplyAt(files, subs[..n], file, record);
      var before := Apply(files, subs[..n]).1;
      OneAt(files, before, subs[n], file, record);
    }
  }

  lemma OneAt(files: seq<File>, before: seq<File>, s: SubWrite, file: word, record: nat)
    requires SameFiles(files, before) && FindFile(files, file).Some? && ApplyOne(before, s).0 == 0
    ensures var k := FindFile(files, file).value;
            var after := ApplyOne(before, s).1;
            && SameFiles(files, after) && |after[k].records| == |before[k].records|
            && (record < |before[k].records| ==>
                  after[k].records[record] ==
                    if s.file == file && s.record <= record < s.record + |s.values| then s.values[record - s.record]
                    else before[k].records[record])
  {
    SameFilesFind(files, before, file);
    SameFilesFind(files, before, s.file);
  }
}
