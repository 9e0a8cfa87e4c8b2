/** The outcome of the file and queue handlers on arbitrary octets: exactly which requests are served, and the
    exception code of every other, in numbers.  A write is confirmed exactly when its octets are the encoding of
    a list of writes that all succeed. */
module FileOutcomes {
  import opened Words
  import opened Pdus
  import opened Registry
  import opened Files
  import FileRead
  import FileIterate
  import FileWrite
  import FileWriteList
  import Fifo

  // File j is the first with the number.
  ghost predicate FirstFile(files: seq<File>, j: nat, number: int) {
    j < |files| && files[j].number as int == number && forall i :: 0 <= i < j ==> files[i].number as int != number
  }

  lemma FoundIff(files: seq<File>, number: word, j: nat)
    ensures FindFile(files, number) == Some(j) <==> FirstFile(files, j, number)
  {
  }

  lemma KnownIff(files: seq<File>, number: word)
    ensures FindFile(files, number).Some? <==> exists i :: 0 <= i < |files| && files[i].number == number
  {
  }

  // ----- reading

  // The octets of the answers to the first k sub-requests: two in front of each, and its registers.
  function Filled(d: seq<byte>, k: nat): nat
    requires 1 + 7 * k <= |d|
  {
    if k == 0 then 0 else Filled(d, k - 1) + 2 + 2 * Get16(d, 7 * k - 1) as int
  }

  // Sub-request k of the octets can be served: reference type 6, a range inside the first file of its number, and room.
  ghost predicate Served(files: seq<File>, d: seq<byte>, k: nat, txMax: byte)
    requires 8 + 7 * k <= |d|
  {
    && d[1 + 7 * k] == 6 && Low8(Filled(d, k + 1)) <= txMax
    && exists j: nat :: FirstFile(files, j, Get16(d, 2 + 7 * k)) && files[j].read == Answers(0)
                        && Get16(d, 4 + 7 * k) + Get16(d, 6 + 7 * k) as int <= |files[j].records|
  }

  lemma CounterIsFilled(d: seq<byte>, k: nat)
    requires 8 + 7 * k <= |d|
    ensures FileRead.Counter(Filled(d, k), FileRead.SubAt(d, k).count) == Low8(Filled(d, k + 1))
  {
    hide Low8;
    FileRead.CounterIs(Filled(d, k), FileRead.SubAt(d, k).count);
  }

  // The turn of sub-request k.
  lemma ReadTurn(files: seq<File>, d: seq<byte>, k: nat, txMax: byte)
    requires 8 + 7 * k <= |d|
    ensures FileRead.TurnAt(Some(files), d, k, Filled(d, k), txMax).Adds? <==> Served(files, d, k, txMax)
  {
    hide Low8, FileRead.Counter, Filled, FindFile;
    CounterIsFilled(d, k);
    KnownFile(files, Get16(d, 2 + 7 * k));
  }

  lemma KnownFile(files: seq<File>, number: word)
    ensures forall j: nat :: FirstFile(files, j, number) <==> FindFile(files, number) == Some(j)
  {
    hide FindFile, FirstFile;
    forall j: nat ensures FirstFile(files, j, number) <==> FindFile(files, number) == Some(j) {
      FoundIff(files, number, j);
    }
  }

  // Its code when it cannot be served, for file j if there is one, and its registers when it can.
  lemma ReadTurnCode(files: seq<File>, d: seq<byte>, k: nat, txMax: byte, j: nat)
    requires 8 + 7 * k <= |d|
    ensures var number, record, count := Get16(d, 2 + 7 * k), Get16(d, 4 + 7 * k), Get16(d, 6 + 7 * k) as int;
            var t := FileRead.TurnAt(Some(files), d, k, Filled(d, k), txMax);
            && FileRead.TurnAt(None, d, k, Filled(d, k), txMax) == FileRead.Ends(4)
            && (d[1 + 7 * k] != 6 || !(exists i :: 0 <= i < |files| && files[i].number == number) ==> t == FileRead.Ends(2))
            && (d[1 + 7 * k] == 6 && FirstFile(files, j, number) ==>
                  match files[j].read
                  case Absent => t == FileRead.Ends(2)
                  case Answers(code) =>
                    if Low8(Filled(d, k + 1)) > txMax then t == FileRead.Ends(4)
                    else if record + count > |files[j].records| then t == FileRead.Ends(2)
                    else if code != 0 then t == FileRead.Ends(code)
                    else t == FileRead.Adds(files[j].records[record..record + count]))
  {
    hide Low8, FileRead.Counter, Filled, FindFile;
    CounterIsFilled(d, k);
    FoundIff(files, Get16(d, 2 + 7 * k), j);
    KnownIff(files, Get16(d, 2 + 7 * k));
  }

  lemma NextFilled(files: Option<seq<File>>, d: seq<byte>, k: nat, txMax: byte)
    requires 8 + 7 * k <= |d| && FileRead.TurnAt(files, d, k, Filled(d, k), txMax).Adds?
    ensures var values := FileRead.TurnAt(files, d, k, Filled(d, k), txMax).values;
            |values| < 0x1_0000 && Filled(d, k + 1) == Filled(d, k) + 2 + 2 * |values|
  {
    hide FileRead.TurnAt;
  }

  lemma {:induction false} LoopServes(files: seq<File>, d: seq<byte>, n: nat, k: nat, answers: seq<seq<word>>, txMax: byte)
    requires 1 + 7 * n <= |d| && k <= n && FileRead.Counted16(answers)
    requires |FileRead.EncodeAnswers(answers)| == Filled(d, k)
    ensures FileRead.Loop(Some(files), d, n, k, answers, txMax).0 == 0 <==>
            forall i :: k <= i < n ==> Served(files, d, i, txMax)
    decreases n - k
  {
    hide Served, Filled, FileRead.TurnAt, FileRead.EncodeAnswers, FileRead.EncodeAnswer;
    if k < n {
      ReadTurn(files, d, k, txMax);
      var t := FileRead.TurnAt(Some(files), d, k, Filled(d, k), txMax);
      if t.Adds? {
        NextFilled(Some(files), d, k, txMax);
        FileRead.AnswersAppend(answers, t.values);
        LoopServes(files, d, n, k + 1, answers + [t.values], txMax);
      }
    }
  }

  lemma {:induction false} TurnsIff(count: nat, k: nat)
    ensures k < FileRead.Turns(count) <==> 7 * k < count
  {
  }

  // A read is served exactly when its byte count is 7 to 245 and each of the sub-requests it covers can be.
  lemma ReadServedIff(files: seq<File>, d: seq<byte>, txMax: byte)
    requires Storage(d)
    ensures FileRead.Handle(Some(files), d, txMax).code == 0 <==>
            7 <= d[0] <= 245 && forall k :: 0 <= k && 7 * k < d[0] as int ==> Served(files, d, k, txMax)
    ensures FileRead.Handle(Some(files), d, txMax).code == 3 <== !(7 <= d[0] <= 245)
  {
    hide Served, FileRead.Loop;
    FileRead.NothingEncoded();
    if 7 <= d[0] <= 245 {
      var n := FileRead.Turns(d[0]);
      LoopServes(files, d, n, 0, [], txMax);
      forall k: nat ensures k < n <==> 7 * k < d[0] as int {
        TurnsIff(d[0], k);
      }
    }
  }

  lemma {:induction false} LoopFails(files: Option<seq<File>>, d: seq<byte>, n: nat, k: nat, answers: seq<seq<word>>,
                                     txMax: byte, f: nat)
    requires 1 + 7 * n <= |d| && k <= f < n && FileRead.Counted16(answers)
    requires |FileRead.EncodeAnswers(answers)| == Filled(d, k)
    requires forall i :: k <= i < f ==> FileRead.TurnAt(files, d, i, Filled(d, i), txMax).Adds?
    requires FileRead.TurnAt(files, d, f, Filled(d, f), txMax).Ends?
    ensures FileRead.Loop(files, d, n, k, answers, txMax).0 == FileRead.TurnAt(files, d, f, Filled(d, f), txMax).code
    decreases f - k
  {
    hide Filled, FileRead.TurnAt, FileRead.EncodeAnswers, FileRead.EncodeAnswer;
    if k < f {
      var t := FileRead.TurnAt(files, d, k, Filled(d, k), txMax);
      NextFilled(files, d, k, txMax);
      FileRead.AnswersAppend(answers, t.values);
      LoopFails(files, d, n, k + 1, answers + [t.values], txMax, f);
    }
  }

  // The first sub-request that cannot be served decides the code.
  lemma ReadRefused(files: seq<File>, d: seq<byte>, txMax: byte, f: nat)
    requires Storage(d) && 7 <= d[0] <= 245 && 7 * f < d[0] as int
    requires (forall i :: 0 <= i < f ==> Served(files, d, i, txMax)) && !Served(files, d, f, txMax)
    ensures var t := FileRead.TurnAt(Some(files), d, f, Filled(d, f), txMax);
            t.Ends? && FileRead.Handle(Some(files), d, txMax).code == t.code
  {
    hide Served, FileRead.Loop, FileRead.TurnAt;
    FileRead.NothingEncoded();
    TurnsIff(d[0], f);
    forall i: nat | i <= f
      ensures FileRead.TurnAt(Some(files), d, i, Filled(d, i), txMax).Adds? <==> Served(files, d, i, txMax)
    {
      ReadTurn(files, d, i, txMax);
    }
    LoopFails(Some(files), d, FileRead.Turns(d[0]), 0, [], txMax, f);
  }

  lemma ReadWithoutFiles(d: seq<byte>, txMax: byte)
    requires Storage(d)
    ensures FileRead.Handle(None, d, txMax).code == if 7 <= d[0] <= 245 then 4 else 3
  {
    if 7 <= d[0] <= 245 {
      TurnsIff(d[0], 0);
    }
  }

  // The client's walk over the octets of an answer: where a step leads, and when it looks behind the storage.
  lemma WalkIff(d: seq<byte>, size: nat, sub: Option<nat>, k: nat)
    requires size <= |d| && FileIterate.Inside(d, size, sub)
    ensures var r, at := FileIterate.StepFrom(d, size, sub), if sub.None? then 1 else sub.value + d[sub.value] as int + 1;
            && (r == FileIterate.At(k) <==>
                  && d != [] && size == d[0] as int + 1 && k == at
                  && at + 1 < |d| && at + d[at] as int + 1 <= size && d[at + 1] == 6)
            && (r == FileIterate.Outside <==>
                  || d == []
                  || (size == d[0] as int + 1 && (at == |d| || (at + 1 == |d| && at + d[at] as int + 1 <= size))))
  {
  }

  // ----- writing

  lemma {:induction false} PutGotten(d: seq<byte>, at: nat, n: nat)
    requires at + 2 * n <= |d|
    ensures PutWords(GetWords(d, at, n)) == d[at..at + 2 * n]
  {
    if n > 0 {
      var ws := GetWords(d, at, n);
      PutGotten(d, at, n - 1);
      assert ws[..n - 1] == GetWords(d, at, n - 1);
      hide GetWords;
      WordBack(d, at + 2 * n - 2);
      Joined(d, at, at + 2 * n - 2, at + 2 * n);
    }
  }

  lemma WordBack(d: seq<byte>, i: nat)
    requires i + 2 <= |d|
    ensures Put16(Get16(d, i)) == d[i..i + 2]
  {
  }

  // The sub-request at octet c.
  function SubAt(d: seq<byte>, c: nat): FileWrite.SubWrite
    requires c + 7 <= |d| && c + 7 + 2 * Get16(d, c + 5) as int <= |d|
  {
    FileWrite.SubWrite(Get16(d, c + 1), Get16(d, c + 3), GetWords(d, c + 7, Get16(d, c + 5)))
  }

  lemma SubBack(d: seq<byte>, c: nat)
    requires c + 7 <= |d| && c + 7 + 2 * Get16(d, c + 5) as int <= |d| && d[c] == 6
    ensures |SubAt(d, c).values| < 0x1_0000
    ensures FileWrite.EncodeSub(SubAt(d, c)) == d[c..c + 7 + 2 * Get16(d, c + 5)]
  {
    hide PutWords, GetWords, Get16;
    var end := c + 7 + 2 * Get16(d, c + 5);
    PutGotten(d, c + 7, Get16(d, c + 5));
    HeadBack(d, c);
    Joined(d, c, c + 1, c + 7);
    Joined(d, c, c + 7, end);
  }

  lemma HeadBack(d: seq<byte>, c: nat)
    requires c + 7 <= |d|
    ensures PutWords([Get16(d, c + 1), Get16(d, c + 3), Get16(d, c + 5)]) == d[c + 1..c + 7]
  {
    PutGotten(d, c + 1, 3);
    assert GetWords(d, c + 1, 3) == [Get16(d, c + 1), Get16(d, c + 3), Get16(d, c + 5)];
  }

  // The loop ends well only on the encoding of a list of writes, which it has carried out.
  lemma {:induction false} LoopParses(files: seq<File>, d: seq<byte>, cursor: nat, end: byte)
    returns (subs: seq<FileWrite.SubWrite>)
    requires cursor <= end as int <= |d| && FileWrite.Loop(Some(files), d, cursor, end).0 == 0
    ensures FileWrite.Encodable(subs) && FileWrite.EncodeSubs(subs) == d[cursor..end]
    ensures var after := FileWrite.Loop(Some(files), d, cursor, end).1;
            after.Some? && FileWriteList.Apply(files, subs) == (0, after.value)
    decreases end - cursor
  {
    if cursor == end as int {
      subs := [];
    } else {
      hide FileWrite.EncodeSub, FileWriteList.ApplyOne, SubAt;
      var t := FileWrite.TurnAt(Some(files), d, cursor, end);
      TurnParses(files, d, cursor, end);
      var rest := LoopParses(t.files, d, t.cursor, end);
      var s := SubAt(d, cursor);
      subs := [s] + rest;
      assert subs[1..] == rest;
      Joined(d, cursor, t.cursor, end as int);
    }
  }

  lemma TurnParses(files: seq<File>, d: seq<byte>, cursor: nat, end: byte)
    requires cursor < end as int <= |d| && FileWrite.TurnAt(Some(files), d, cursor, end).Goes?
    ensures var t := FileWrite.TurnAt(Some(files), d, cursor, end);
            && cursor + 7 <= |d| && t.cursor == cursor + 7 + 2 * Get16(d, cursor + 5) as int <= end as int
            && |SubAt(d, cursor).values| < 0x1_0000 && FileWrite.EncodeSub(SubAt(d, cursor)) == d[cursor..t.cursor]
            && FileWriteList.ApplyOne(files, SubAt(d, cursor)) == (0, t.files)
  {
    hide GetWords, StoreRecords, FindFile, FileWrite.EncodeSub;
    SubBack(d, cursor);
  }

  // The octets behind the byte count.
  function Body(d: seq<byte>, size: byte): seq<byte>
    requires size as int <= |d|
  {
    if size <= 1 then [] else d[1..size]
  }

  // They encode a list of writes, which all succeed.
  ghost predicate Carries(files: seq<File>, body: seq<byte>, subs: seq<FileWrite.SubWrite>) {
    FileWrite.Encodable(subs) && FileWrite.EncodeSubs(subs) == body && FileWriteList.Apply(files, subs).0 == 0
  }

  // A write is confirmed, by repeating it, exactly when its byte count is 10 to 250, the reply has room for it and its
  // octets carry a list of writes that succeed; the files are then those after the list.
  lemma WriteConfirmedIff(files: seq<File>, d: seq<byte>, size: byte, txMax: byte)
    requires 1 <= |d| && size as int <= |d|
    ensures var r := FileWrite.Handle(Some(files), d, size, txMax);
            && (r.code == 0 <==> 10 <= d[0] <= 250 && size <= txMax && exists subs :: Carries(files, Body(d, size), subs))
            && (!(10 <= d[0] <= 250) ==> r.code == 3 && r.files == Some(files))
            && (10 <= d[0] <= 250 && size > txMax ==> r.code == 4 && r.files == Some(files))
            && (r.code == 0 ==> r.reply == Pdu(21, d[..size]))
  {
    hide FileWrite.Loop, Carries;
    if 10 <= d[0] <= 250 && size <= txMax {
      LoopCarries(files, d, size);
    }
  }

  lemma LoopCarries(files: seq<File>, d: seq<byte>, size: byte)
    requires 1 <= |d| && size as int <= |d|
    ensures FileWrite.Loop(Some(files), d, 1, size).0 == 0 <==> exists subs :: Carries(files, Body(d, size), subs)
  {
    if size <= 1 {
      assert FileWrite.Loop(Some(files), d, 1, size) == (0, Some(files));
      assert Carries(files, Body(d, size), []);
    } else {
      hide FileWrite.Loop;
      if FileWrite.Loop(Some(files), d, 1, size).0 == 0 {
        var subs := LoopParses(files, d, 1, size);
        assert Carries(files, Body(d, size), subs);
      }
      if subs :| Carries(files, Body(d, size), subs) {
        CarriedOut(files, d, size, subs);
      }
    }
  }

  // Any list that the octets carry is the one that was carried out.
  lemma CarriedOut(files: seq<File>, d: seq<byte>, size: byte, subs: seq<FileWrite.SubWrite>)
    requires 1 < size as int <= |d| && Carries(files, Body(d, size), subs)
    ensures FileWrite.Loop(Some(files), d, 1, size) == (0, Some(FileWriteList.Apply(files, subs).1))
  {
    hide FileWriteList.Apply;
    assert d == [d[0]] + FileWrite.EncodeSubs(subs) + d[size..];
    FileWriteList.LoopApplies(files, [d[0]], subs, d[size..], size);
  }

  // What ends the loop at a sub-request, and what becomes of its file otherwise; the storage has seven octets there.
  lemma WriteTurn(files: seq<File>, d: seq<byte>, c: nat, end: byte, j: nat)
    requires c < end as int <= |d| && c + 7 <= |d|
    ensures var number, record, count := Get16(d, c + 1), Get16(d, c + 3), Get16(d, c + 5) as int;
            var t := FileWrite.TurnAt(Some(files), d, c, end);
            && FileWrite.TurnAt(None, d, c, end) == FileWrite.Ends(if d[c] == 6 then 4 else 2)
            && (d[c] != 6 || !(exists i :: 0 <= i < |files| && files[i].number == number) ==> t == FileWrite.Ends(2))
            && (d[c] == 6 && FirstFile(files, j, number) ==>
                  match files[j].write
                  case Absent => t == FileWrite.Ends(2)
                  case Answers(code) =>
                    if c + 7 + 2 * count > end as int then t == FileWrite.Ends(3)
                    else if record + count > |files[j].records| then t == FileWrite.Ends(2)
                    else if code != 0 then t == FileWrite.Ends(code)
                    else
                      && t.Goes? && t.cursor == c + 7 + 2 * count
                      && Stored(files, t.files, j, record, GetWords(d, c + 7, count)))
  {
    hide FindFile, GetWords;
    FoundIff(files, Get16(d, c + 1), j);
    KnownIff(files, Get16(d, c + 1));
  }

  // A sub-request leads behind the storage exactly when that ends before its file number, or before the other fields
  // and the file can be written.
  lemma OutsideIff(files: seq<File>, d: seq<byte>, c: nat, end: byte)
    requires c < end as int <= |d|
    ensures FileWrite.TurnAt(Some(files), d, c, end) == FileWrite.Outside <==>
            && d[c] == 6 && c + 7 > |d|
            && (c + 3 > |d| || exists j: nat :: FirstFile(files, j, Get16(d, c + 1)) && files[j].write.Answers?)
    ensures c + 3 <= |d| && (d[c] != 6 || !(exists j: nat :: FirstFile(files, j, Get16(d, c + 1)) && files[j].write.Answers?)) ==>
              FileWrite.TurnAt(Some(files), d, c, end) == FileWrite.Ends(2)
  {
    hide FindFile, GetWords;
    if c + 3 <= |d| {
      KnownFile(files, Get16(d, c + 1));
    }
  }

  // Only the registers of file j from record a on have changed, to the values given.
  ghost predicate Stored(before: seq<File>, after: seq<File>, j: nat, a: nat, values: seq<word>)
    requires j < |before|
  {
    && |after| == |before| && (forall i :: 0 <= i < |before| && i != j ==> after[i] == before[i])
    && after[j] == before[j].(records := after[j].records) && |after[j].records| == |before[j].records|
    && forall i :: 0 <= i < |after[j].records| ==>
         after[j].records[i] == if a <= i < a + |values| then values[i - a] else before[j].records[i]
  }

  lemma WriteWithoutFiles(d: seq<byte>, size: byte, txMax: byte)
    requires 2 <= size as int <= |d|
    ensures FileWrite.Handle(None, d, size, txMax).code ==
              if !(10 <= d[0] <= 250) then 3 else if size > txMax || d[1] == 6 then 4 else 2
  {
  }

  // ----- queues

  lemma Queue(read: Option<word -> Fifo.Queue>, d: seq<byte>, txMax: byte, held: seq<byte>)
    requires |d| >= 2 && |held| >= 66
    ensures var r := Fifo.Handle(read, d, txMax, held);
            match read
            case None => r.code == 4
            case Some(f) =>
              var q := f(Get16(d, 0));
              if q.code != 0 then r.code == q.code
              else if q.count > 31 then r.code == 3
              else if 4 + 2 * q.count as int > txMax as int then r.code == 4
              else r.code == 0 && r.reply.func == 24 && Queued(r.reply.data, q, held)
  {
    hide PutWords;
    if read.Some? {
      var q := read.value(Get16(d, 0));
      if q.code == 0 && q.count <= 31 {
        QueuedOctets(q, held);
      }
    }
    hide Queued;
  }

  // The two counts, the registers that the callback stored, and behind them what the storage held, swapped.
  ghost predicate Queued(data: seq<byte>, q: Fifo.Queue, held: seq<byte>)
    requires |held| >= 66
  {
    && |data| == 4 + 2 * q.count as int <= 66 && data[..4] == [0, 2 * q.count as int + 2, 0, q.count]
    && forall j :: 0 <= j < q.count as int ==> QueuedAt(data, q, held, j)
  }

  ghost predicate QueuedAt(data: seq<byte>, q: Fifo.Queue, held: seq<byte>, j: nat)
    requires 6 + 2 * j <= |data| <= 66 <= |held|
  {
    Get16(data, 4 + 2 * j) == if j < |q.values| then q.values[j] else Host16(held, 4 + 2 * j)
  }

  lemma ReportedAt(q: Fifo.Queue, held: seq<byte>, j: nat)
    requires |held| >= 66 && q.count <= 31 && j < q.count as int
    ensures Fifo.Reported(q, held)[j] == if j < |q.values| then q.values[j] else Host16(held, 4 + 2 * j)
  {
    hide Host16;
    if j >= |q.values| {
      assert 4 + 2 * |q.values| + 2 * (j - |q.values|) == 4 + 2 * j;
    }
  }

  lemma QueuedOctets(q: Fifo.Queue, held: seq<byte>)
    requires |held| >= 66 && q.count <= 31
    ensures Queued(Fifo.Answer(Fifo.Reported(q, held)).data, q, held)
  {
    hide PutWords, Get16, Host16, Hi, Lo, Fifo.Reported;
    var values := Fifo.Reported(q, held);
    var words := [2 * |values| + 2, |values|] + values;
    var data := PutWords(words);
    PutWordsAt(words, 0);
    PutWordsAt(words, 1);
    SmallWord(2 * |values| + 2);
    SmallWord(|values|);
    forall j | 0 <= j < |values| ensures QueuedAt(data, q, held, j) {
      PutWordsAt(words, j + 2);
      assert 2 * (j + 2) == 4 + 2 * j && words[j + 2] == values[j];
      ReportedAt(q, held, j);
    }
    assert data[..4] == [data[0], data[1], data[2], data[3]];
  }

  lemma SmallWord(w: word)
    requires w <= 255
    ensures Hi(w) == 0 && Lo(w) == w
  {
  }

  // What the client's accessors take from an answer, and what they give beyond its registers.
  lemma QueueFields(answer: Pdu, k: word)
    requires Fifo.Complete(answer)
    ensures Fifo.QueueBytes(answer) == Get16(answer.data, 0) && Fifo.RegsCount(answer) == Get16(answer.data, 2)
    ensures Fifo.GetData(answer, k) == if k < Get16(answer.data, 2) then Get16(answer.data, 4 + 2 * k as int) else 65535
  {
    hide Get16, Host16;
  }

  // The queue of server_test.cpp: 02 for the addresses from 43968 to 43983, nothing outside the blocks, and else the
  // registers of the first block around the address from there on, up to its end or 31.
  lemma QueueOfTests(blocks: seq<Block<word>>, addr: word, k: nat)
    requires AllValid(blocks)
    ensures var q := Fifo.QueueOf(blocks, addr);
            if 43968 <= addr <= 43983 then q == Fifo.Queue(2, 0, [])
            else
              && q.code == 0 && q.count as int == |q.values|
              && ((forall i :: 0 <= i < |blocks| ==> !blocks[i].Covers(addr)) ==> q.values == [])
              && (k < |blocks| && blocks[k].Covers(addr) && (forall i :: 0 <= i < k ==> !blocks[i].Covers(addr)) ==>
                    var b := blocks[k];
                    && b.Valid() && |q.values| == (if b.start + b.size - addr > 31 then 31 else b.start + b.size - addr)
                    && q.values == b.cells[addr - b.start..addr - b.start + |q.values|])
  {
    FindIff(blocks, addr);
    hide Find;
  }
}
