/** The files of a server (emodbus/include/emodbus/server/file.h, cpp-wrap/emodbus.cpp:1277-1290
    and 1352-1362), with the store of tests/server_test.cpp:185-210: a file is a run of registers.

    That store copies without a range check; a file here answers 02, and keeps its
    contents, when a range does not end inside it. */
module Files {
  import opened Words
  import opened Pdus
  import opened Registry

  datatype File = File(number: word, read: Callback, write: Callback, records: seq<word>)

  // EMB_FILE_REF_TYPE
  const REF_TYPE: byte := 6

  // The first file with the number.
  function FindFile(files: seq<File>, number: word): (r: Option<nat>)
    ensures r.Some? ==> r.value < |files| && files[r.value].number == number
    ensures forall i :: 0 <= i < (if r.Some? then r.value else |files|) ==> files[i].number != number
  {
    FindFileFrom(files, number, 0)
  }

  function FindFileFrom(files: seq<File>, number: word, from: nat): (r: Option<nat>)
    requires from <= |files|
    ensures r.Some? ==> from <= r.value < |files| && files[r.value].number == number
    ensures forall i :: from <= i < (if r.Some? then r.value else |files|) ==> files[i].number != number
    decreases |files| - from
  {
    if from == |files| then None
    else if files[from].number == number then Some(from)
    else FindFileFrom(files, number, from + 1)
  }

  // The same files with other contents.
  ghost predicate SameFiles(x: seq<File>, y: seq<File>) {
    |x| == |y| && forall i :: 0 <= i < |x| ==> x[i].number == y[i].number && x[i].read == y[i].read && x[i].write == y[i].write
  }

  lemma SameFilesFind(x: seq<File>, y: seq<File>, number: word)
    requires SameFiles(x, y)
    ensures FindFile(x, number) == FindFile(y, number)
  {
    forall i | 0 <= i < |x| ensures x[i].number == number <==> y[i].number == number {
    }
  }

  // The file's write callback.
  function StoreRecords(f: File, record: word, values: seq<word>): (byte, File)
    requires f.write.Answers?
  {
    if record + |values| > |f.records| then (MBE_ILLEGAL_DATA_ADDR, f)
    else if f.write.code != 0 then (f.write.code, f)
    else (0, f.(records := f.records[..record] + values + f.records[record + |values|..]))
  }

  // The file's read callback.
  function LoadRecords(f: File, record: word, n: nat): (r: (byte, seq<word>))
    requires f.read.Answers?
    ensures r.0 == 0 ==> |r.1| == n
  {
    if record + n > |f.records| then (MBE_ILLEGAL_DATA_ADDR, [])
    else if f.read.code != 0 then (f.read.code, [])
    else (0, f.records[record..record + n])
  }

  // server_t's files; None: the server has no get_file.
  class FileStore {
    var files: Option<seq<File>>

    // server_t::get_file
    method GetFile(number: word) returns (k: Option<nat>)
      requires files.Some?
      ensures k == FindFile(files.value, number)
    {
      var i := 0;
      while i < |files.value|
        invariant 0 <= i <= |files.value|
        invariant FindFile(files.value, number) == FindFileFrom(files.value, number, i)
      {
        if files.value[i].number == number {
          return Some(i);
        }
        i := i + 1;
      }
      k := None;
    }

    method CallWriteFile(k: nat, record: word, values: seq<word>) returns (res: byte)
      requires files.Some? && k < |files.value| && files.value[k].write.Answers?
      modifies this`files
      ensures var (code, f) := StoreRecords(old(files).value[k], record, values);
              res == code && files == Some(old(files).value[k := f])
    {
      var (code, f) := StoreRecords(files.value[k], record, values);
      res := code;
      files := Some(files.value[k := f]);
    }

    method CallReadFile(k: nat, record: word, n: nat) returns (res: byte, values: seq<word>)
      requires files.Some? && k < |files.value| && files.value[k].read.Answers?
      ensures (res, values) == LoadRecords(files.value[k], record, n)
    {
      var (code, vs) := LoadRecords(files.value[k], record, n);
      res, values := code, vs;
    }
  }
}
