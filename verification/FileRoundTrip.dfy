/** Writing files and reading them back, through both ends of both functions
    (tests/sync_client_test.cpp:955-1010).

    A list of ranges is written with one request, another list is read with a second one, and the client walks
    over the answer: each register collected is the latest value written to it, or what the file held before,
    though the answer fills the PDU reserved for it. */
module FileRoundTrip {
  import opened Words
  import opened Pdus
  import opened Registry
  import opened Files
  import FileWrite
  import FileWriteList
  import FileRead
  import FileReadList
  import FileIterate

  // The server has the file, and the range asked for ends inside it.
  predicate Readable(files: seq<File>, s: FileRead.SubRead) {
    var k := FindFile(files, s.file);
    k.Some? && files[k.value].read == Answers(0) && s.record as int + s.count as int <= |files[k.value].records|
  }

  // What a register of a file held.
  function Held(files: seq<File>, file: word, record: nat): word
    requires FindFile(files, file).Some? && record < |files[FindFile(files, file).value].records|
  {
    files[FindFile(files, file).value].records[record]
  }

  // After a list of writes, a read of one range gives for each register the latest value written, or what it held.
  lemma ReadOneAfter(files: seq<File>, puts: seq<FileWrite.SubWrite>, s: FileRead.SubRead)
    requires FileWriteList.Apply(files, puts).0 == 0 && Readable(files, s)
    ensures var (code, values) := FileReadList.ReadOne(FileWriteList.Apply(files, puts).1, s);
            && code == 0 && |values| == s.count as int
            && forall j :: 0 <= j < |values| ==>
                 values[j] == FileWriteList.Latest(puts, s.file, s.record + j, Held(files, s.file, s.record + j))
  {
    hide FileWriteList.Apply, FindFile, FileWriteList.Latest;
    var after := FileWriteList.Apply(files, puts).1;
    FileWriteList.ApplyAt(files, puts, s.file, 0);
    SameFilesFind(files, after, s.file);
    var (code, values) := FileReadList.ReadOne(after, s);
    forall j | 0 <= j < |values|
      ensures values[j] == FileWriteList.Latest(puts, s.file, s.record + j, Held(files, s.file, s.record + j))
    {
      FileWriteList.ApplyAt(files, puts, s.file, s.record + j);
    }
  }

  lemma {:induction false} ReadAllAfter(files: seq<File>, puts: seq<FileWrite.SubWrite>, gets: seq<FileRead.SubRead>)
    requires FileWriteList.Apply(files, puts).0 == 0 && forall i :: 0 <= i < |gets| ==> Readable(files, gets[i])
    ensures FileReadList.ReadAll(FileWriteList.Apply(files, puts).1, gets).0 == 0
  {
    hide FileWriteList.Apply, Readable, FileWriteList.Latest;
    if gets != [] {
      assert Readable(files, gets[0]);
      ReadOneAfter(files, puts, gets[0]);
      ReadAllAfter(files, puts, gets[1..]);
    }
  }

  // A confirmed write request, then a read request for ranges inside the files: the client collects, register by
  // register, the latest value it had written there, or else what the file held before.
  lemma WriteThenRead(files: seq<File>, puts: seq<FileWrite.SubWrite>, gets: seq<FileRead.SubRead>,
                      wrStale: seq<byte>, rdStale: seq<byte>, rest: seq<byte>, behind: byte, txMax: byte)
    requires FileWrite.Encodable(puts) && FileWrite.SubsSize(puts) <= 0xFE
    requires txMax as int >= 1 + FileWrite.SubsSize(puts)
    requires FileWriteList.Serve(files, puts, wrStale, txMax).code == 0
    requires 1 <= |gets| <= 35 && |FileRead.Request(gets).data + rdStale| >= MAX_PDU_DATA_SIZE
    requires FileRead.AnswersSize(gets) <= txMax as int && FileRead.AnswersSize(gets) <= 0xFE
    requires forall i :: 0 <= i < |gets| ==> Readable(files, gets[i])
    ensures var w := FileWriteList.Serve(files, puts, wrStale, txMax);
            && w.files.Some?
            && var r := FileReadList.Serve(w.files.value, gets, rdStale, txMax);
            && r.code == 0 && |FileIterate.Collected(r.reply, rest, behind)| == |gets|
            && forall i :: 0 <= i < |gets| ==> IsLatest(files, puts, gets[i], FileIterate.Collected(r.reply, rest, behind)[i])
  {
    hide FileWriteList.Apply, FileWriteList.Serve, FileReadList.Serve, FileReadList.ReadAll, FileRead.EncodeSubs,
         FileRead.AnswersSize, FileIterate.Collected, Readable;
    FileWriteList.ServeApplies(files, puts, wrStale, txMax);
    var after := FileWriteList.Apply(files, puts).1;
    ReadAllAfter(files, puts, gets);
    FileReadList.ServeReads(after, gets, rdStale, txMax);
    FileIterate.ReadRoundTrip(after, gets, rdStale, rest, behind, txMax);
    var reply := FileReadList.Serve(after, gets, rdStale, txMax).reply;
    forall i | 0 <= i < |gets| ensures IsLatest(files, puts, gets[i], FileIterate.Collected(reply, rest, behind)[i]) {
      assert FileReadList.ReadOne(after, gets[i]) == (0, FileIterate.Collected(reply, rest, behind)[i]);
      ReadOneAfter(files, puts, gets[i]);
    }
  }

  predicate IsLatest(files: seq<File>, puts: seq<FileWrite.SubWrite>, s: FileRead.SubRead, values: seq<word>) {
    && Readable(files, s) && |values| == s.count as int
    && forall j :: 0 <= j < |values| ==>
         values[j] == FileWriteList.Latest(puts, s.file, s.record + j, Held(files, s.file, s.record + j))
  }
}
