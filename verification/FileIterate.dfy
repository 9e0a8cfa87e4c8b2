/** Walking an answer to Read File Record: emb_read_file_next_subanswer and find_subanswer
    (emodbus/client/read_file_record.c:90-150), and read_file_t::get_answer
    (cpp-wrap/emodbus.cpp:526-536).  Pointers into the answer are offsets.

    The walk looks one octet behind an answer that ends with its storage, so what lies there is a parameter: it
    is proved not to matter for an answer as the server sends it, and when exactly it matters for any other. */
module FileIterate {
  import opened Words
  import opened Pdus
  import opened Files
  import opened FileRead
  import opened FileReadList

  // A sub-answer that ends inside the answer.
  predicate Inside(d: seq<byte>, size: nat, sub: Option<nat>)
    requires size <= |d|
  {
    sub.Some? ==> 1 <= sub.value < size && sub.value + d[sub.value] + 1 <= size
  }

  // One step: a sub-answer, or the end of them.  Outside: it looks behind the storage d.
  datatype Step = At(sub: nat) | NoMore | Outside

  // Where the next sub-answer would start.
  function Start(d: seq<byte>, size: nat, sub: Option<nat>): nat
    requires size <= |d| && Inside(d, size, sub)
  {
    if sub.None? then 1 else sub.value + d[sub.value] + 1
  }

  // emb_read_file_next_subanswer, on storage that may end with the answer
  function StepFrom(d: seq<byte>, size: nat, sub: Option<nat>): (r: Step)
    requires size <= |d| && Inside(d, size, sub)
    ensures r.At? ==> Inside(d, size, Some(r.sub)) && (sub.Some? ==> r.sub > sub.value)
    ensures r.Outside? ==> |d| == size
  {
    if d == [] then Outside
    else if size != d[0] as int + 1 then NoMore
    else
      var at := Start(d, size, sub);
      if at == |d| then Outside
      else if at + d[at] + 1 > size then NoMore
      else if at + 1 == |d| then Outside
      else if d[at + 1] != REF_TYPE then NoMore
      else At(at)
  }

  // ----- the step as it is taken, with the octet that memory holds behind the storage

  function Memory(d: seq<byte>, behind: byte): seq<byte> { d + [behind] }

  predicate Reaches(m: seq<byte>, size: nat) { size < |m| }

  function Next(m: seq<byte>, size: nat, sub: Option<nat>): (r: Option<nat>)
    requires Reaches(m, size) && Inside(m, size, sub)
    ensures Inside(m, size, r)
    ensures r.Some? && sub.Some? ==> r.value > sub.value
  {
    var r := StepFrom(m, size, sub);
    if r.At? then Some(r.sub) else None
  }

  // A step that stays inside the storage has the same outcome whatever lies behind.
  lemma StaysInside(d: seq<byte>, size: nat, sub: Option<nat>, behind: byte)
    requires size <= |d| && Inside(d, size, sub) && StepFrom(d, size, sub) != Outside
    ensures Inside(Memory(d, behind), size, sub) && StepFrom(Memory(d, behind), size, sub) == StepFrom(d, size, sub)
  {
  }

  // One octet, of length 0, is left in the answer and in its storage: a reference type is looked for behind both.
  predicate Hangs(d: seq<byte>, size: nat, sub: Option<nat>)
    requires size <= |d| && Inside(d, size, sub)
  {
    |d| == size && size > 0 && size == d[0] as int + 1 && Start(d, size, sub) == size - 1 && d[size - 1] == 0
  }

  ghost predicate Decided(d: seq<byte>, size: nat, sub: Option<nat>)
    requires size <= |d| && Inside(d, size, sub)
  {
    forall x: byte, y: byte ::
      Inside(Memory(d, x), size, sub) && Inside(Memory(d, y), size, sub) ==>
        Next(Memory(d, x), size, sub) == Next(Memory(d, y), size, sub)
  }

  // The octet behind the storage decides the outcome of a step exactly then.
  lemma DecidedIff(d: seq<byte>, size: nat, sub: Option<nat>)
    requires size <= |d| && Inside(d, size, sub)
    ensures Decided(d, size, sub) <==> !Hangs(d, size, sub)
  {
    if Hangs(d, size, sub) {
      assert Next(Memory(d, REF_TYPE), size, sub) == Some(size - 1);
      assert Next(Memory(d, 0), size, sub) == None;
    } else {
      forall x: byte, y: byte | Inside(Memory(d, x), size, sub) && Inside(Memory(d, y), size, sub)
        ensures Next(Memory(d, x), size, sub) == Next(Memory(d, y), size, sub)
      {
      }
    }
  }

  // An answer of two octets, 1 and 0: with 6 behind it there is a sub-answer, with 7 there is none.
  lemma BehindDecides()
    ensures Next(Memory([1, 0], 6), 2, None) == Some(1) && Next(Memory([1, 0], 7), 2, None) == None
  {
  }

  // The k-th sub-answer by iteration.
  function Nth(m: seq<byte>, size: nat, k: nat): (r: Option<nat>)
    requires Reaches(m, size)
    ensures Inside(m, size, r)
  {
    if k == 0 then Next(m, size, None)
    else
      var before := Nth(m, size, k - 1);
      if before.None? then None else Next(m, size, before)
  }

  // emb_read_file_find_subanswer
  method FindSubanswer(d: seq<byte>, size: nat, number: int, behind: byte) returns (sub: Option<nat>)
    requires size <= |d|
    ensures sub == if number < 0 then None else Nth(Memory(d, behind), size, number)
  {
    var m := Memory(d, behind);
    sub := None;
    var end := number + 1;
    var i := 0;
    while i < end
      invariant 0 <= i && (i == 0 || i <= end) && Inside(m, size, sub)
      invariant i == 0 ==> sub.None?
      invariant i > 0 ==> sub.Some? && sub == Nth(m, size, i - 1)
    {
      sub := Next(m, size, sub);
      if sub.None? {
        NoneAfter(m, size, i, number);
        return;
      }
      i := i + 1;
    }
  }

  lemma {:induction false} NoneAfter(m: seq<byte>, size: nat, i: nat, k: nat)
    requires Reaches(m, size) && i <= k && Nth(m, size, i).None?
    ensures Nth(m, size, k).None?
  {
    if i < k {
      NoneAfter(m, size, i, k - 1);
    }
  }

  // emb_read_file_subanswer_quantity
  function Quantity(m: seq<byte>, sub: nat): nat
    requires sub < |m|
  {
    m[sub] / 2
  }

  // emb_read_file_subanswer_data
  function Data(m: seq<byte>, sub: nat, offset: nat): word
    requires sub < |m| && (offset <= Quantity(m, sub) ==> sub + 4 + 2 * offset <= |m|)
  {
    if offset > Quantity(m, sub) then 0xFFFF else Swapped16(m, sub + 2 + 2 * offset)
  }

  // The accessor lets too many offsets through: a register ends inside its sub-answer exactly below the quantity when
  // the length is odd, as the server sends it, and exactly below one less when it is even.
  lemma RegisterInsideIff(m: seq<byte>, sub: nat, offset: nat)
    requires sub < |m|
    ensures sub + 4 + 2 * offset <= sub + m[sub] + 1 <==>
            (if m[sub] % 2 == 1 then offset else offset + 1) < Quantity(m, sub)
  {
  }

  function Values(m: seq<byte>, size: nat, sub: nat): seq<word>
    requires Reaches(m, size) && Inside(m, size, Some(sub))
  {
    GetWords(m, sub + 2, Quantity(m, sub))
  }

  // The registers of a sub-answer and of those behind it.
  function Collect(m: seq<byte>, size: nat, sub: Option<nat>): seq<seq<word>>
    requires Reaches(m, size) && Inside(m, size, sub)
    decreases if sub.None? then 0 else 1 + size - sub.value
  {
    if sub.None? then [] else [Values(m, size, sub.value)] + Collect(m, size, Next(m, size, sub))
  }

  // read_file_t::get_answer
  method GetAnswer(d: seq<byte>, size: nat, behind: byte) returns (answer: seq<seq<word>>)
    requires size <= |d|
    ensures var m := Memory(d, behind); answer == Collect(m, size, Next(m, size, None))
  {
    var m := Memory(d, behind);
    answer := [];
    var sub := Next(m, size, None);
    while sub.Some?
      invariant Inside(m, size, sub)
      invariant answer + Collect(m, size, sub) == Collect(m, size, Next(m, size, None))
      decreases if sub.None? then 0 else 1 + size - sub.value
    {
      hide Next;
      var values := GetValues(m, size, sub.value);
      answer := answer + [values];
      sub := Next(m, size, sub);
    }
  }

  // ----- when memory behind the storage shows in what is collected

  // What is collected behind sub-answer sub, from storage d with the octet `behind` after it.
  function Rest(d: seq<byte>, size: nat, sub: Option<nat>, behind: byte): seq<seq<word>>
    requires size <= |d| && Inside(d, size, sub)
  {
    var m := Memory(d, behind);
    Collect(m, size, Next(m, size, sub))
  }

  // The last register of a sub-answer of even length ends one octet behind it, and behind the storage.
  predicate Straddles(d: seq<byte>, size: nat, sub: nat)
    requires size <= |d| && Inside(d, size, Some(sub))
  {
    |d| == size && sub + d[sub] + 1 == size && d[sub] % 2 == 0 && d[sub] > 0
  }

  // The walk from sub on comes to a step that hangs or a register that straddles.
  predicate Exposed(d: seq<byte>, size: nat, sub: Option<nat>)
    requires size <= |d| && Inside(d, size, sub)
    decreases if sub.None? then 1 + size else size - sub.value
  {
    Hangs(d, size, sub) ||
    var r := StepFrom(d, size, sub);
    r.At? && (Straddles(d, size, r.sub) || Exposed(d, size, Some(r.sub)))
  }

  ghost predicate RestDecided(d: seq<byte>, size: nat, sub: Option<nat>)
    requires size <= |d| && Inside(d, size, sub)
  {
    forall x: byte, y: byte :: Rest(d, size, sub, x) == Rest(d, size, sub, y)
  }

  // What is collected is the same for every octet behind the storage exactly when the walk is not exposed to it.
  lemma {:induction false} RestDecidedIff(d: seq<byte>, size: nat, sub: Option<nat>)
    requires size <= |d| && Inside(d, size, sub)
    ensures RestDecided(d, size, sub) <==> !Exposed(d, size, sub)
    decreases if sub.None? then 1 + size else size - sub.value
  {
    hide Collect, StepFrom, Values;
    var r := StepFrom(d, size, sub);
    if Hangs(d, size, sub) {
      HangingRest(d, size, sub);
    } else if r.At? {
      forall x: byte ensures Rest(d, size, sub, x) == [Values(Memory(d, x), size, r.sub)] + Rest(d, size, Some(r.sub), x) {
        RestStep(d, size, sub, x);
      }
      if Straddles(d, size, r.sub) {
        StraddlingValues(d, size, r.sub);
        assert Rest(d, size, sub, 0)[0] != Rest(d, size, sub, 1)[0];
      } else {
        forall x: byte, y: byte
          ensures Rest(d, size, sub, x) == Rest(d, size, sub, y) <==>
                  Rest(d, size, Some(r.sub), x) == Rest(d, size, Some(r.sub), y)
        {
          SameValues(d, size, r.sub, x, y);
          assert Rest(d, size, sub, x)[1..] == Rest(d, size, Some(r.sub), x);
          assert Rest(d, size, sub, y)[1..] == Rest(d, size, Some(r.sub), y);
        }
        RestDecidedIff(d, size, Some(r.sub));
      }
    } else {
      forall x: byte ensures Rest(d, size, sub, x) == [] {
        RestEnds(d, size, sub, x);
      }
    }
  }

  lemma RestStep(d: seq<byte>, size: nat, sub: Option<nat>, x: byte)
    requires size <= |d| && Inside(d, size, sub) && StepFrom(d, size, sub).At?
    ensures var n := StepFrom(d, size, sub).sub;
            Rest(d, size, sub, x) == [Values(Memory(d, x), size, n)] + Rest(d, size, Some(n), x)
  {
    hide Values;
    StaysInside(d, size, sub, x);
  }

  lemma RestEnds(d: seq<byte>, size: nat, sub: Option<nat>, x: byte)
    requires size <= |d| && Inside(d, size, sub) && !StepFrom(d, size, sub).At? && !Hangs(d, size, sub)
    ensures Rest(d, size, sub, x) == []
  {
  }

  lemma HangingRest(d: seq<byte>, size: nat, sub: Option<nat>)
    requires size <= |d| && Inside(d, size, sub) && Hangs(d, size, sub)
    ensures Rest(d, size, sub, REF_TYPE) != Rest(d, size, sub, 0)
  {
    assert Next(Memory(d, REF_TYPE), size, sub) == Some(size - 1);
    assert Next(Memory(d, 0), size, sub) == None;
  }

  lemma SameValues(d: seq<byte>, size: nat, sub: nat, x: byte, y: byte)
    requires size <= |d| && Inside(d, size, Some(sub)) && !Straddles(d, size, sub)
    ensures Values(Memory(d, x), size, sub) == Values(Memory(d, y), size, sub)
  {
    var u, v := Values(Memory(d, x), size, sub), Values(Memory(d, y), size, sub);
    forall k | 0 <= k < |u| ensures u[k] == v[k] {
      assert sub + 2 + 2 * k + 1 < |d|;
    }
  }

  lemma StraddlingValues(d: seq<byte>, size: nat, sub: nat)
    requires size <= |d| && Inside(d, size, Some(sub)) && Straddles(d, size, sub)
    ensures Values(Memory(d, 0), size, sub) != Values(Memory(d, 1), size, sub)
  {
    var k := Quantity(d, sub) - 1;
    assert sub + 2 + 2 * k + 1 == size;
    assert Values(Memory(d, 0), size, sub)[k] == Mk(d[size - 1], 0);
    assert Values(Memory(d, 1), size, sub)[k] == Mk(d[size - 1], 1);
  }

  // An answer of four octets with a sub-answer of length 2: its register is made of the last octet and the one behind.
  lemma EvenLength(x: byte, behind: byte)
    ensures Rest([3, 2, REF_TYPE, x], 4, None, behind) == [[Mk(x, behind)]]
  {
    var m := Memory([3, 2, REF_TYPE, x], behind);
    assert Next(m, 4, None) == Some(1) && Next(m, 4, Some(1)) == None;
    assert Values(m, 4, 1) == [Mk(x, behind)];
  }

  method GetValues(m: seq<byte>, size: nat, sub: nat) returns (values: seq<word>)
    requires Reaches(m, size) && Inside(m, size, Some(sub))
    ensures values == Values(m, size, sub)
  {
    values := [];
    var length := Quantity(m, sub);
    var j := 0;
    while j < length
      invariant 0 <= j <= length && |values| == j
      invariant forall k :: 0 <= k < j ==> values[k] == Get16(m, sub + 2 + 2 * k)
    {
      values := values + [Data(m, sub, j)];
      j := j + 1;
    }
  }

  // ----- the walk over an answer of the server

  // Where the k-th sub-answer starts.
  function Offset(answers: seq<seq<word>>, k: nat): nat
    requires Counted16(answers) && k <= |answers|
  {
    1 + |EncodeAnswers(answers[..k])|
  }

  predicate Sendable(answers: seq<seq<word>>) {
    Counted16(answers) && |EncodeAnswers(answers)| <= 0xFE
  }

  lemma LastAnswer(answers: seq<seq<word>>)
    requires Counted16(answers) && answers != []
    ensures EncodeAnswers(answers) == EncodeAnswers(answers[..|answers| - 1]) + EncodeAnswer(answers[|answers| - 1])
  {
  }

  lemma {:induction false} AnswersSplit(answers: seq<seq<word>>, k: nat) returns (tail: seq<byte>)
    requires Counted16(answers) && k < |answers|
    ensures EncodeAnswers(answers) == EncodeAnswers(answers[..k]) + EncodeAnswer(answers[k]) + tail
    ensures Offset(answers, k + 1) == Offset(answers, k) + 2 + 2 * |answers[k]|
  {
    hide EncodeAnswer, EncodeAnswers;
    var n := |answers| - 1;
    LastAnswer(answers);
    AnswersAppend(answers[..k], answers[k]);
    assert answers[..k] + [answers[k]] == answers[..k + 1];
    if k == n {
      tail := [];
      assert answers[..n + 1] == answers;
    } else {
      var rest := AnswersSplit(answers[..n], k);
      assert answers[..n][..k] == answers[..k];
      tail := rest + EncodeAnswer(answers[n]);
    }
  }

  // The k-th sub-answer of a sent answer, in its octets.
  lemma SubAnswerInPlace(answers: seq<seq<word>>, slack: seq<byte>, k: nat)
    requires Sendable(answers) && k < |answers|
    ensures var d, at := Answer(answers).data + slack, Offset(answers, k);
            && at + 2 + 2 * |answers[k]| == Offset(answers, k + 1) <= |Answer(answers).data|
            && d[at] == 2 * |answers[k]| + 1 && d[at + 1] == REF_TYPE
            && GetWords(d, at + 2, |answers[k]|) == answers[k]
  {
    hide EncodeAnswers, PutWords;
    AnswerWhole(answers);
    var d := Answer(answers).data + slack;
    var tail := AnswersSplit(answers, k);
    var before := [Count(|EncodeAnswers(answers)|)] + EncodeAnswers(answers[..k]);
    var head := before + [Count(2 * |answers[k]| + 1), REF_TYPE];
    PutGetWords(head, answers[k], tail + slack);
    assert d == head + PutWords(answers[k]) + (tail + slack);
  }

  lemma OffsetsEnd(answers: seq<seq<word>>)
    requires Sendable(answers)
    ensures Offset(answers, |answers|) == |Answer(answers).data| == 1 + |EncodeAnswers(answers)|
    ensures Offset(answers, 0) == 1 && Answer(answers).data[0] as int == |EncodeAnswers(answers)|
  {
    AnswerWhole(answers);
    assert answers[..|answers|] == answers;
  }

  // The sub-answer before the k-th.
  function Before(answers: seq<seq<word>>, k: nat): Option<nat>
    requires Counted16(answers) && k <= |answers|
  {
    if k == 0 then None else Some(Offset(answers, k - 1))
  }

  // The walk over a sent answer, on storage that holds `rest` behind it: each step but the last stays inside the
  // answer, and the last stays inside the storage exactly when the storage is larger than the answer.
  lemma StepIsStep(answers: seq<seq<word>>, rest: seq<byte>, k: nat)
    requires Sendable(answers) && k <= |answers|
    ensures var d, size := Answer(answers).data + rest, |Answer(answers).data|;
            && Inside(d, size, Before(answers, k))
            && StepFrom(d, size, Before(answers, k)) ==
                 (if k < |answers| then At(Offset(answers, k)) else if rest == [] then Outside else NoMore)
  {
    hide EncodeAnswers, GetWords;
    OffsetsEnd(answers);
    if k > 0 {
      SubAnswerInPlace(answers, rest, k - 1);
    }
    if k < |answers| {
      SubAnswerInPlace(answers, rest, k);
    }
  }

  // One register, in the PDU of 5 octets that is reserved for it: the step behind it looks outside.
  lemma ReservedIsTooSmall(value: word)
    ensures Sendable([[value]]) && |Answer([[value]]).data| == 5
    ensures Inside(Answer([[value]]).data, 5, Some(1)) && StepFrom(Answer([[value]]).data, 5, Some(1)) == Outside
  {
    var answers := [[value]];
    assert answers[..0] == [] && answers[..1] == answers;
    assert EncodeAnswers(answers) == EncodeAnswer([value]);
    OffsetsEnd(answers);
    StepIsStep(answers, [], 1);
    assert Answer(answers).data + [] == Answer(answers).data;
  }

  // The memory a walk over a sent answer may meet: anything behind it, at least one octet.
  function Around(answers: seq<seq<word>>, slack: seq<byte>): seq<byte>
    requires Sendable(answers)
  {
    Answer(answers).data + slack
  }

  // From one sub-answer the walk goes to the next, and from the last to none.
  lemma NextIsNext(answers: seq<seq<word>>, slack: seq<byte>, k: nat)
    requires Sendable(answers) && |slack| >= 1 && k <= |answers|
    ensures var m, size := Around(answers, slack), |Answer(answers).data|;
            && Inside(m, size, Before(answers, k))
            && Next(m, size, Before(answers, k)) == if k < |answers| then Some(Offset(answers, k)) else None
  {
    hide EncodeAnswers, Answer, StepFrom;
    StepIsStep(answers, slack, k);
  }

  lemma {:induction false} NthFrom(answers: seq<seq<word>>, slack: seq<byte>, k: nat)
    requires Sendable(answers) && |slack| >= 1
    ensures var m, size := Around(answers, slack), |Answer(answers).data|;
            if k < |answers| then
              Nth(m, size, k) == Some(Offset(answers, k)) && Values(m, size, Offset(answers, k)) == answers[k]
            else Nth(m, size, k) == None
  {
    hide EncodeAnswers, Answer, GetWords, Next;
    if k > 0 {
      NthFrom(answers, slack, k - 1);
    }
    if k <= |answers| {
      NextIsNext(answers, slack, k);
    }
    if k < |answers| {
      SubAnswerInPlace(answers, slack, k);
    }
  }

  // The walk from sub-answer k on collects the answers from k on.
  lemma {:induction false} CollectFrom(answers: seq<seq<word>>, slack: seq<byte>, k: nat)
    requires Sendable(answers) && |slack| >= 1 && k <= |answers|
    ensures var m, size := Around(answers, slack), |Answer(answers).data|;
            var sub := if k < |answers| then Some(Offset(answers, k)) else None;
            Inside(m, size, sub) && Collect(m, size, sub) == answers[k..]
    decreases |answers| - k
  {
    hide EncodeAnswers, Answer, GetWords, Next;
    if k < |answers| {
      CollectFrom(answers, slack, k + 1);
      NextIsNext(answers, slack, k + 1);
      SubAnswerInPlace(answers, slack, k);
      assert answers[k..] == [answers[k]] + answers[k + 1..];
    }
  }

  // ----- what the client gets, in storage of any size, whatever memory holds behind it

  function Received(answers: seq<seq<word>>, rest: seq<byte>, behind: byte): (m: seq<byte>)
    requires Sendable(answers)
    ensures m == Around(answers, rest + [behind])
  {
    assert Answer(answers).data + rest + [behind] == Answer(answers).data + (rest + [behind]);
    Memory(Answer(answers).data + rest, behind)
  }

  // Finding the k-th sub-answer finds the k-th answer sent, or none when there are fewer.
  lemma NthIsNth(answers: seq<seq<word>>, rest: seq<byte>, behind: byte, k: nat)
    requires Sendable(answers)
    ensures var m, size := Received(answers, rest, behind), |Answer(answers).data|;
            if k < |answers| then
              Nth(m, size, k) == Some(Offset(answers, k)) && Values(m, size, Offset(answers, k)) == answers[k]
            else Nth(m, size, k) == None
  {
    hide EncodeAnswers, Answer, Nth, Values, Around;
    NthFrom(answers, rest + [behind], k);
  }

  // Whatever was sent is collected, whole and in order.
  lemma CollectsAll(answers: seq<seq<word>>, rest: seq<byte>, behind: byte)
    requires Sendable(answers)
    ensures var m, size := Received(answers, rest, behind), |Answer(answers).data|;
            Collect(m, size, Next(m, size, None)) == answers
  {
    hide EncodeAnswers, Answer, Collect, Next, Around;
    CollectFrom(answers, rest + [behind], 0);
    NextIsNext(answers, rest + [behind], 0);
    assert answers[0..] == answers;
  }

  // The registers of the k-th sub-answer are those below its quantity; at the quantity the accessor gives the head
  // of the next sub-answer, or for the last the octets behind the answer; beyond it 0xFFFF.
  lemma DataOf(answers: seq<seq<word>>, slack: seq<byte>, k: nat, offset: nat)
    requires Sendable(answers) && k < |answers| && |slack| >= 2
    ensures var m, at := Around(answers, slack), Offset(answers, k);
            && at < |m| && Quantity(m, at) == |answers[k]|
            && (offset <= |answers[k]| ==> at + 4 + 2 * offset <= |m|)
            && Data(m, at, offset) ==
                 if offset < |answers[k]| then answers[k][offset]
                 else if offset > |answers[k]| then 0xFFFF
                 else if k + 1 < |answers| then Mk(Length(|answers[k + 1]|), REF_TYPE)
                 else Mk(slack[0], slack[1])
  {
    hide EncodeAnswers, Answer, EncodeAnswer, Offset, Mk;
    OffsetsEnd(answers);
    SubAnswerInPlace(answers, slack, k);
    var m, at := Around(answers, slack), Offset(answers, k);
    if offset < |answers[k]| {
      assert GetWords(m, at + 2, |answers[k]|)[offset] == answers[k][offset];
    } else if offset == |answers[k]| {
      if k + 1 < |answers| {
        SubAnswerInPlace(answers, slack, k + 1);
      } else {
        assert m[at + 2 + 2 * offset] == slack[0] && m[at + 3 + 2 * offset] == slack[1];
      }
    }
  }

  // What get_answer makes of a reply in such storage.
  function Collected(reply: Pdu, rest: seq<byte>, behind: byte): seq<seq<word>> {
    var m, size := Memory(reply.data + rest, behind), |reply.data|;
    Collect(m, size, Next(m, size, None))
  }

  // End to end: what the client collects from the server's answer is, in the order asked, what each file holds,
  // and the answer has the size the client computed, so that it may fill the PDU reserved for it.
  lemma ReadRoundTrip(files: seq<File>, subs: seq<SubRead>, stale: seq<byte>, rest: seq<byte>, behind: byte, txMax: byte)
    requires 1 <= |subs| <= 35 && |FileRead.Request(subs).data + stale| >= MAX_PDU_DATA_SIZE
    requires AnswersSize(subs) <= txMax as int && AnswersSize(subs) <= 0xFE
    requires Serve(files, subs, stale, txMax).code == 0
    ensures var reply := Serve(files, subs, stale, txMax).reply;
            && |reply.data| == 1 + AnswersSize(subs)
            && var got := Collected(reply, rest, behind);
            && |got| == |subs|
            && forall i :: 0 <= i < |subs| ==> ReadOne(files, subs[i]) == (0, got[i])
  {
    hide EncodeAnswers, Answer, Collect, Next, ReadAll, Serve;
    ServeReads(files, subs, stale, txMax);
    ReadsFit(files, subs);
    ReadAllMeans(files, subs);
    var answers := ReadAll(files, subs).1;
    OffsetsEnd(answers);
    CollectsAll(answers, rest, behind);
  }
}
