/** The address registry of the C++ server, cpp-wrap/emodbus.cpp:1216-1350.

    A server keeps blocks of cells (coils or registers).  A block is admitted unless its
    range crosses that of an earlier one, and found again by any address it covers. */
module Registry {
  import opened Words
  import opened Pdus

  // A store callback of a block: missing, or answering with a code; a code other than 0 moves no data.
  datatype Callback = Absent | Answers(code: byte)

  datatype Block<T> = Block(start: word, size: word, read: Callback, write: Callback, cells: seq<T>) {
    predicate Valid() { 1 <= size && start + size <= 0x1_0000 && |cells| == size }

    predicate Covers(a: int) { InRange(start, size, a) }

    predicate SameRange<U>(other: Block<U>) { start == other.start && size == other.size }
  }

  predicate AllValid<T>(blocks: seq<Block<T>>) { forall i :: 0 <= i < |blocks| ==> blocks[i].Valid() }

  // Any range of the 65536 addresses can be a block, but the empty one.
  lemma AnyRange<T>(start: word, size: word, read: Callback, write: Callback, cells: seq<T>)
    ensures Block(start, size, read, write, cells).Valid() <==> 1 <= size && start + size <= 65536 && |cells| == size
  {
  }

  // ----- crossing ranges

  predicate InRange(start: int, size: int, a: int) { start <= a < start + size }

  // IS_POINT_IN_RANGE: strictly inside
  predicate PointInRange(start: int, end: int, point: int) { start < point && point < end }

  predicate RangesCross(start1: word, size1: word, start2: word, size2: word) {
    var end1, end2 := start1 + size1, start2 + size2;
    || PointInRange(start1, end1, start2)
    || PointInRange(start1, end1, end2)
    || PointInRange(start2, end2, start1)
    || PointInRange(start2, end2, end1)
  }

  // Non-empty ranges cross exactly when they share an address and are not one and the same range.
  lemma CrossIff(start1: word, size1: word, start2: word, size2: word)
    requires size1 >= 1 && size2 >= 1
    ensures RangesCross(start1, size1, start2, size2) <==>
            && (exists a: int :: InRange(start1, size1, a) && InRange(start2, size2, a))
            && !(start1 == start2 && size1 == size2)
  {
    var low := if start1 < start2 then start2 else start1;
    if low < start1 + size1 && low < start2 + size2 {
      assert InRange(start1, size1, low) && InRange(start2, size2, low);
    }
  }

  // Blocks may coincide, but otherwise share no address.
  ghost predicate DisjointOrSame<T>(blocks: seq<Block<T>>) {
    forall i, j, a: int :: 0 <= i < |blocks| && 0 <= j < |blocks| && blocks[i].Covers(a) && blocks[j].Covers(a) ==>
      blocks[i].SameRange(blocks[j])
  }

  predicate Admits<T>(blocks: seq<Block<T>>, b: Block<T>) {
    forall i :: 0 <= i < |blocks| ==> !RangesCross(blocks[i].start, blocks[i].size, b.start, b.size)
  }

  lemma AddKeepsDisjoint<T>(blocks: seq<Block<T>>, b: Block<T>)
    requires AllValid(blocks) && b.Valid() && DisjointOrSame(blocks)
    ensures Admits(blocks, b) <==> DisjointOrSame(blocks + [b])
  {
    var all := blocks + [b];
    if Admits(blocks, b) {
      forall i, j, a: int | 0 <= i < |all| && 0 <= j < |all| && all[i].Covers(a) && all[j].Covers(a)
        ensures all[i].SameRange(all[j])
      {
        if i < |blocks| && j == |blocks| {
          CrossIff(all[i].start, all[i].size, b.start, b.size);
        } else if j < |blocks| && i == |blocks| {
          CrossIff(all[j].start, all[j].size, b.start, b.size);
        } else if i < |blocks| && j < |blocks| {
          assert blocks[i].Covers(a) && blocks[j].Covers(a);
        }
      }
    } else {
      var i :| 0 <= i < |blocks| && RangesCross(blocks[i].start, blocks[i].size, b.start, b.size);
      CrossIff(blocks[i].start, blocks[i].size, b.start, b.size);
      var a: int :| InRange(blocks[i].start, blocks[i].size, a) && InRange(b.start, b.size, a);
      assert all[i].Covers(a) && all[|blocks|].Covers(a);
      assert !all[i].SameRange(all[|blocks|]);
    }
  }

  // ----- finding a block

  // The test of get_coils and its siblings, with the end as a uint16_t.
  predicate Hit<T>(b: Block<T>, begin: word) {
    b.start <= begin && begin <= (b.start + b.size - 1) % 0x1_0000
  }

  // The end wraps: beyond 65535 nothing is hit, and an empty block at 0 is hit everywhere.
  lemma HitIff<T>(b: Block<T>, begin: word)
    ensures Hit(b, begin) <==> (b.start + b.size <= 65536 && b.Covers(begin)) || (b.start == 0 && b.size == 0)
  {
  }

  // The first block that is hit.
  function Find<T>(blocks: seq<Block<T>>, begin: word): (r: Option<nat>)
    ensures r.Some? ==> r.value < |blocks| && Hit(blocks[r.value], begin)
    ensures forall i :: 0 <= i < (if r.Some? then r.value else |blocks|) ==> !Hit(blocks[i], begin)
  {
    FindFrom(blocks, begin, 0)
  }

  function FindFrom<T>(blocks: seq<Block<T>>, begin: word, from: nat): (r: Option<nat>)
    requires from <= |blocks|
    ensures r.Some? ==> from <= r.value < |blocks| && Hit(blocks[r.value], begin)
    ensures forall i :: from <= i < (if r.Some? then r.value else |blocks|) ==> !Hit(blocks[i], begin)
    decreases |blocks| - from
  {
    if from == |blocks| then None
    else if Hit(blocks[from], begin) then Some(from)
    else FindFrom(blocks, begin, from + 1)
  }

  // An address finds a block exactly when some block covers it, and then the first of those that do.
  lemma FindIff<T>(blocks: seq<Block<T>>, begin: word)
    requires AllValid(blocks)
    ensures Find(blocks, begin).Some? <==> exists i :: 0 <= i < |blocks| && blocks[i].Covers(begin)
    ensures Find(blocks, begin).Some? ==>
              var k := Find(blocks, begin).value;
              blocks[k].Covers(begin) && forall i :: 0 <= i < k ==> !blocks[i].Covers(begin)
  {
    forall i | 0 <= i < |blocks| ensures Hit(blocks[i], begin) <==> blocks[i].Covers(begin) {
      assert blocks[i].Valid();
    }
  }

  lemma FindCovers<T>(blocks: seq<Block<T>>, begin: word)
    requires AllValid(blocks) && Find(blocks, begin).Some?
    ensures var k := Find(blocks, begin).value; blocks[k].Valid() && blocks[k].Covers(begin)
  {
    FindIff(blocks, begin);
  }

  // All the addresses of a block that is found through one of them find it.
  lemma FindSame<T>(blocks: seq<Block<T>>, a: word, b: word)
    requires AllValid(blocks) && DisjointOrSame(blocks)
    requires Find(blocks, a).Some? && blocks[Find(blocks, a).value].Covers(b)
    ensures Find(blocks, b) == Find(blocks, a)
  {
    FindIff(blocks, a);
    FindIff(blocks, b);
    var k := Find(blocks, a).value;
    var j := Find(blocks, b).value;
    assert blocks[j].Covers(b) && blocks[k].Covers(b);
    assert blocks[j].SameRange(blocks[k]);
    assert blocks[j].Covers(a);
  }

  // Ranges, not contents, decide what is found.
  lemma {:induction false} FindDependsOnRanges<T, U>(x: seq<Block<T>>, y: seq<Block<U>>, begin: word, from: nat)
    requires |x| == |y| && from <= |x| && forall i :: 0 <= i < |x| ==> x[i].SameRange(y[i])
    ensures FindFrom(x, begin, from) == FindFrom(y, begin, from)
    decreases |x| - from
  {
    if from < |x| {
      assert x[from].SameRange(y[from]);
      FindDependsOnRanges(x, y, begin, from + 1);
    }
  }

  // ----- the registry object

  class BlockList<T> {
    var blocks: seq<Block<T>>

    ghost predicate Valid()
      reads this
    {
      AllValid(blocks) && DisjointOrSame(blocks)
    }

    constructor ()
      ensures Valid() && blocks == []
    {
      blocks := [];
    }

    // add_coils, add_discrete_inputs, add_holding_regs, add_input_regs
    method Add(b: Block<T>) returns (added: bool)
      requires Valid() && b.Valid()
      modifies this
      ensures Valid()
      ensures blocks == AfterAdd(old(blocks), b)
      ensures added <==> DisjointOrSame(old(blocks) + [b])
      ensures blocks == if added then old(blocks) + [b] else old(blocks)
    {
      AddKeepsDisjoint(blocks, b);
      var i := 0;
      while i < |blocks|
        invariant 0 <= i <= |blocks|
        invariant forall k :: 0 <= k < i ==> !RangesCross(blocks[k].start, blocks[k].size, b.start, b.size)
      {
        if RangesCross(blocks[i].start, blocks[i].size, b.start, b.size) {
          return false;
        }
        i := i + 1;
      }
      blocks := blocks + [b];
      added := true;
    }

    // get_coils, get_discrete_inputs, get_holding_regs, get_input_regs
    method Get(begin: word) returns (found: Option<nat>)
      ensures found == Find(blocks, begin)
    {
      var i := 0;
      while i < |blocks|
        invariant 0 <= i <= |blocks|
        invariant Find(blocks, begin) == FindFrom(blocks, begin, i)
      {
        var start := blocks[i].start;
        var end := (start + blocks[i].size - 1) % 0x1_0000;
        if start <= begin && begin <= end {
          return Some(i);
        }
        i := i + 1;
      }
      found := None;
    }
  }

  // ----- sequences of additions

  function AfterAdd<T>(blocks: seq<Block<T>>, b: Block<T>): seq<Block<T>> {
    if Admits(blocks, b) then blocks + [b] else blocks
  }

  function AfterAdds<T>(news: seq<Block<T>>): seq<Block<T>> {
    if news == [] then [] else AfterAdd(AfterAdds(news[..|news| - 1]), news[|news| - 1])
  }

  // Whatever is added, in whatever order, blocks are pairwise disjoint or coincide.
  lemma {:induction false} AddsStayDisjoint<T>(news: seq<Block<T>>)
    requires AllValid(news)
    ensures AllValid(AfterAdds(news)) && DisjointOrSame(AfterAdds(news))
  {
    if news != [] {
      var before := news[..|news| - 1];
      AddsStayDisjoint(before);
      AddKeepsDisjoint(AfterAdds(before), news[|news| - 1]);
    }
  }
}
