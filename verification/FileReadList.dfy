/** Reading files from the client's side: the answer to a built request is the list of
    registers each file returned, and iterating over it gives that list back. */
module FileReadList {
  import opened Words
  import opened Pdus
  import opened Registry
  import opened Files
  import opened FileRead

  // ----- the handler reads the list that was asked for

  // One read, without octets.
  function ReadOne(files: seq<File>, s: SubRead): (r: (byte, seq<word>))
    ensures r.0 == 0 ==> |r.1| == s.count
  {
    var f := FindFile(files, s.file);
    if f.None? || files[f.value].read.Absent? then (MBE_ILLEGAL_DATA_ADDR, [])
    else LoadRecords(files[f.value], s.record, s.count)
  }

  // A list of reads, refused with the code of the first that fails.
  function ReadAll(files: seq<File>, subs: seq<SubRead>): (r: (byte, seq<seq<word>>)) {
    if subs == [] then (0, [])
    else
      var (code, values) := ReadOne(files, subs[0]);
      if code != 0 then (code, [])
      else
        var (code', rest) := ReadAll(files, subs[1..]);
        if code' != 0 then (code', []) else (0, [values] + rest)
  }

  // All reads succeed, and the answers are theirs; or some read fails with the code returned.
  lemma {:induction false} ReadAllMeans(files: seq<File>, subs: seq<SubRead>)
    ensures var (code, answers) := ReadAll(files, subs);
            if code == 0 then
              |answers| == |subs| && forall i :: 0 <= i < |subs| ==> ReadOne(files, subs[i]) == (0, answers[i])
            else answers == [] && exists i :: 0 <= i < |subs| && ReadOne(files, subs[i]).0 == code
  {
    if subs != [] && ReadOne(files, subs[0]).0 == 0 {
      ReadAllMeans(files, subs[1..]);
    }
  }

  lemma {:induction false} EncodedAt(subs: seq<SubRead>, k: nat, j: nat)
    requires k < |subs| && j < SUB_SIZE
    ensures EncodeSubs(subs)[SUB_SIZE * k + j] == EncodeSub(subs[k])[j]
  {
    if k < |subs| - 1 {
      EncodedAt(subs[..|subs| - 1], k, j);
    }
  }

  // What the loop looks at in turn k of a built request.
  lemma SubInPlace(subs: seq<SubRead>, stale: seq<byte>, k: nat)
    requires k < |subs| <= 36
    ensures var d := FileRead.Request(subs).data + stale;
            SubAt(d, k) == subs[k] && d[1 + SUB_SIZE * k] == REF_TYPE
  {
    var d := FileRead.Request(subs).data + stale;
    var s, at := subs[k], 1 + SUB_SIZE * k;
    var ws := [s.file, s.record, s.count];
    forall j: nat | j < SUB_SIZE ensures d[at + j] == EncodeSub(s)[j] {
      EncodedAt(subs, k, j);
    }
    FieldsOf(s, d[at..at + SUB_SIZE]);
  }

  lemma FieldsOf(s: SubRead, e: seq<byte>)
    requires e == EncodeSub(s)
    ensures |e| == SUB_SIZE && e[0] == REF_TYPE && SubRead(Get16(e, 1), Get16(e, 3), Get16(e, 5)) == s
  {
    hide PutWords;
    var ws := [s.file, s.record, s.count];
    PutWordsAt(ws, 0);
    PutWordsAt(ws, 1);
    PutWordsAt(ws, 2);
  }

  // The reads from sub-request k on, behind the answers to those before it.
  lemma {:induction false} LoopReads(files: seq<File>, subs: seq<SubRead>, d: seq<byte>, k: nat,
                                     before: seq<seq<word>>, txMax: byte)
    requires k <= |subs| && 1 + SUB_SIZE * |subs| <= |d| && AnswersSize(subs) <= txMax as int
    requires SubsAt(d, |subs|) == subs && forall i :: 0 <= i < |subs| ==> d[1 + SUB_SIZE * i] == REF_TYPE
    requires Counted16(before) && |EncodeAnswers(before)| == AnswersSize(subs[..k]) <= txMax as int
    ensures var (code, rest) := ReadAll(files, subs[k..]);
            Loop(Some(files), d, |subs|, k, before, txMax) == (code, if code == 0 then before + rest else [])
    decreases |subs| - k
  {
    hide EncodeAnswers, EncodeAnswer, AnswersSize, ReadOne, TurnAt, SubsAt, ReadAll;
    NothingRead(files);
    if k < |subs| {
      assert SubAt(d, k) == subs[k];
      ReadFirst(files, subs, k);
      SizeSplits(subs, k);
      TurnReads(files, d, k, |EncodeAnswers(before)|, txMax);
      var (code, values) := ReadOne(files, subs[k]);
      if code == 0 {
        AnswersAppend(before, values);
        LoopReads(files, subs, d, k + 1, before + [values], txMax);
        var rest := ReadAll(files, subs[k + 1..]).1;
        assert before + ([values] + rest) == before + [values] + rest;
      }
    } else {
      assert subs[k..] == [];
      assert before + [] == before;
    }
  }

  lemma NothingRead(files: seq<File>)
    ensures ReadAll(files, []) == (0, [])
  {
  }

  lemma ReadFirst(files: seq<File>, subs: seq<SubRead>, k: nat)
    requires k < |subs|
    ensures var (code, values) := ReadOne(files, subs[k]);
            var (code', rest) := ReadAll(files, subs[k + 1..]);
            ReadAll(files, subs[k..]) ==
              if code != 0 then (code, []) else if code' != 0 then (code', []) else (0, [values] + rest)
  {
    assert subs[k..][0] == subs[k] && subs[k..][1..] == subs[k + 1..];
  }

  // The turn at a sub-request answers it, while there is room.
  lemma TurnReads(files: seq<File>, d: seq<byte>, k: nat, filled: nat, txMax: byte)
    requires 1 + SUB_SIZE * (k + 1) <= |d| && d[1 + SUB_SIZE * k] == REF_TYPE
    requires filled + 2 + 2 * SubAt(d, k).count as int <= txMax as int
    ensures var (code, values) := ReadOne(files, SubAt(d, k));
            TurnAt(Some(files), d, k, filled, txMax) == if code != 0 then Ends(code) else Adds(values)
  {
    hide FindFile, LoadRecords, SubAt, Counter;
    CounterIs(filled, SubAt(d, k).count);
  }

  lemma {:induction false} AnswersFit(subs: seq<SubRead>, answers: seq<seq<word>>)
    requires AnswersSize(subs) <= 0xFF && |answers| == |subs|
    requires forall i :: 0 <= i < |subs| ==> |answers[i]| == subs[i].count
    ensures Counted16(answers) && |EncodeAnswers(answers)| == AnswersSize(subs)
  {
    hide EncodeAnswer, EncodeAnswers;
    NothingEncoded();
    if subs != [] {
      var n := |subs| - 1;
      AnswersFit(subs[..n], answers[..n]);
      AnswersAppend(answers[..n], answers[n]);
      assert answers[..n] + [answers[n]] == answers;
    }
  }

  // The handler on a built request, with the octets `stale` behind it in the receive buffer.
  function Serve(files: seq<File>, subs: seq<SubRead>, stale: seq<byte>, txMax: byte): Result
    requires |subs| <= 36 && |FileRead.Request(subs).data + stale| >= MAX_PDU_DATA_SIZE
  {
    Handle(Some(files), FileRead.Request(subs).data + stale, txMax)
  }

  lemma ReadsFit(files: seq<File>, subs: seq<SubRead>)
    requires AnswersSize(subs) <= 0xFF
    ensures var (code, answers) := ReadAll(files, subs);
            && Counted16(answers) && |EncodeAnswers(answers)| <= 0xFF
            && (code == 0 ==> |EncodeAnswers(answers)| == AnswersSize(subs))
  {
    hide ReadAll;
    var (code, answers) := ReadAll(files, subs);
    ReadAllMeans(files, subs);
    if code == 0 {
      AnswersFit(subs, answers);
    } else {
      NothingEncoded();
    }
  }

  // The outcome of a list of reads, on the wire.
  function Outcome(files: seq<File>, subs: seq<SubRead>): Result
    requires AnswersSize(subs) <= 0xFF
  {
    var (code, answers) := ReadAll(files, subs);
    ReadsFit(files, subs);
    Result(code, if code == 0 then Answer(answers) else Pdu(0, []))
  }

  // A built request whose answers fit one PDU is served with the list of registers it asks for, or with
  // the code of the first read that fails; a list is let in exactly when it has 1 to 35 entries.
  lemma ServeReads(files: seq<File>, subs: seq<SubRead>, stale: seq<byte>, txMax: byte)
    requires |subs| <= 36 && |FileRead.Request(subs).data + stale| >= MAX_PDU_DATA_SIZE
    requires AnswersSize(subs) <= txMax as int
    ensures Serve(files, subs, stale, txMax) ==
              if 1 <= |subs| <= 35 then Outcome(files, subs) else Result(MBE_ILLEGAL_DATA_VALUE, Pdu(0, []))
  {
    hide EncodeSubs, EncodeAnswers, EncodeAnswer, Loop, ReadAll, AnswersSize, SubsAt;
    var d := FileRead.Request(subs).data + stale;
    assert d[0] == SUB_SIZE * |subs|;
    NothingEncoded();
    NothingAsked();
    if 1 <= |subs| <= 35 {
      BuiltSubs(subs, stale);
      assert subs[..0] == [] && subs[0..] == subs;
      LoopReads(files, subs, d, 0, [], txMax);
      var (code, answers) := ReadAll(files, subs);
      assert [] + answers == answers;
    }
  }

  // Whatever the files and their answers, the handler stays inside a reply storage that all answers fit.
  lemma BuiltIsLegible(files: Option<seq<File>>, subs: seq<SubRead>, stale: seq<byte>, txMax: byte, room: nat)
    requires |subs| <= 36 && |FileRead.Request(subs).data + stale| >= MAX_PDU_DATA_SIZE
    requires 1 + AnswersSize(subs) <= room
    ensures Legible(files, FileRead.Request(subs).data + stale, txMax, room)
  {
    hide EncodeSubs, Inside, AnswersSize, SubsAt;
    var d := FileRead.Request(subs).data + stale;
    assert d[0] == SUB_SIZE * |subs|;
    if 1 <= |subs| <= 35 {
      NothingAsked();
      BuiltSubs(subs, stale);
      assert subs[..0] == [];
      FittingIsInside(files, d, |subs|, 0, txMax, room);
    }
  }

  // A reply of 5 octets for a reply PDU of 4: one register of a file that has it.
  lemma OneOctetOver(files: seq<File>, file: word, stale: seq<byte>)
    requires var k := FindFile(files, file); k.Some? && files[k.value].read == Answers(0) && files[k.value].records != []
    requires |FileRead.Request([SubRead(file, 0, 1)]).data + stale| >= MAX_PDU_DATA_SIZE
    ensures var r := Serve(files, [SubRead(file, 0, 1)], stale, 4);
            r.code == 0 && |r.reply.data| == 5
  {
    hide FindFile, Serve, EncodeSubs;
    var subs := [SubRead(file, 0, 1)];
    assert subs[..0] == [] && subs[1..] == [];
    assert AnswersSize(subs) == 4;
    ServeReads(files, subs, stale, 4);
    ReadsFit(files, subs);
  }

  lemma BuiltSubs(subs: seq<SubRead>, stale: seq<byte>)
    requires |subs| <= 36
    ensures var d := FileRead.Request(subs).data + stale;
            SubsAt(d, |subs|) == subs && forall i :: 0 <= i < |subs| ==> d[1 + SUB_SIZE * i] == REF_TYPE
  {
    hide EncodeSubs;
    var d := FileRead.Request(subs).data + stale;
    forall i | 0 <= i < |subs| ensures SubsAt(d, |subs|)[i] == subs[i] && d[1 + SUB_SIZE * i] == REF_TYPE {
      SubInPlace(subs, stale, i);
    }
  }
}
