/** The cells of a server's blocks, and the address map they stand for.

    The handlers of emodbus/server locate a block, check that the range ends inside it
    and call the block's callbacks with an offset (e.g. write_multi_regs.c:28-52).  Here
    those accesses are proved to be accesses of one map from addresses to cells. */
module Cells {
  import opened Words
  import opened Pdus
  import opened Registry

  // ----- accesses through a block

  function Slice<T>(b: Block<T>, offset: nat, n: nat): (r: seq<T>)
    requires b.Valid() && offset + n <= b.size
    ensures |r| == n
  {
    b.cells[offset..offset + n]
  }

  function Overwrite<T>(b: Block<T>, offset: nat, values: seq<T>): (r: Block<T>)
    requires b.Valid() && offset + |values| <= b.size
    ensures r.Valid() && r.SameRange(b)
  {
    b.(cells := b.cells[..offset] + values + b.cells[offset + |values|..])
  }

  // The block that holds a whole range: the one its first address finds, if the range ends inside.
  function Locate<T>(blocks: seq<Block<T>>, start: word, quantity: nat): (r: Option<nat>)
    requires AllValid(blocks)
    ensures r.Some? ==>
              && r.value < |blocks| && blocks[r.value].Valid()
              && blocks[r.value].start <= start && start + quantity <= blocks[r.value].start + blocks[r.value].size
  {
    var found := Find(blocks, start);
    if found.None? then None
    else
      FindCovers(blocks, start);
      var b := blocks[found.value];
      if start + quantity > b.start + b.size then None else found
  }

  lemma NothingLocated<T>(start: word, quantity: nat)
    ensures Locate<T>([], start, quantity) == None
  {
    assert Find<T>([], start) == None;
  }

  // A write callback on block k: data moves when it answers 0.
  function Written<T>(blocks: seq<Block<T>>, k: nat, offset: nat, values: seq<T>): (r: seq<Block<T>>)
    requires AllValid(blocks) && k < |blocks| && offset + |values| <= blocks[k].size && blocks[k].write.Answers?
    ensures AllValid(r) && |r| == |blocks|
    ensures forall i :: 0 <= i < |r| ==> r[i] == blocks[i].(cells := r[i].cells)
  {
    if blocks[k].write.code == 0 then blocks[k := Overwrite(blocks[k], offset, values)] else blocks
  }

  // A server without the getter answers as one without blocks, with 04 in place of 02.
  function NoGetter(code: byte): byte { if code == MBE_ILLEGAL_DATA_ADDR then MBE_SLAVE_FAILURE else code }

  // ----- the map

  // Blocks disjoint or coinciding, as the registry leaves them, whose read callbacks answer 0: all of server_test.cpp.
  ghost predicate Readable<T>(blocks: seq<Block<T>>) {
    && AllValid(blocks) && DisjointOrSame(blocks)
    && forall i :: 0 <= i < |blocks| ==> blocks[i].read == Answers(0)
  }

  // And whose write callbacks do: its coils and holding registers.
  ghost predicate Registered<T>(blocks: seq<Block<T>>) {
    Readable(blocks) && forall i :: 0 <= i < |blocks| ==> blocks[i].write == Answers(0)
  }

  function ValueAt<T>(blocks: seq<Block<T>>, a: word): T
    requires AllValid(blocks) && Find(blocks, a).Some?
  {
    FindCovers(blocks, a);
    var b := blocks[Find(blocks, a).value];
    b.cells[a - b.start]
  }

  ghost function Abstract<T>(blocks: seq<Block<T>>): map<int, T>
    requires AllValid(blocks)
  {
    map a: int | 0 <= a < 0x1_0000 && Find(blocks, a).Some? :: ValueAt(blocks, a)
  }

  // The same ranges, whatever the cells hold.
  ghost predicate SameRanges<T>(x: seq<Block<T>>, y: seq<Block<T>>) {
    |x| == |y| && forall i :: 0 <= i < |x| ==> x[i].SameRange(y[i])
  }

  function At<T>(m: map<int, T>, a: int, absent: T): T { if a in m then m[a] else absent }

  function Load<T>(m: map<int, T>, start: int, n: nat, absent: T): (r: seq<T>)
    ensures |r| == n
  {
    seq<T>(n, i requires 0 <= i < n => At(m, start + i, absent))
  }

  function Store<T>(m: map<int, T>, start: int, values: seq<T>): map<int, T> {
    map a | a in m :: if start <= a < start + |values| then values[a - start] else m[a]
  }

  // ----- reads and writes of the blocks are reads and writes of the map

  lemma LocatedFinds<T>(blocks: seq<Block<T>>, start: word, n: nat, i: nat)
    requires AllValid(blocks) && DisjointOrSame(blocks)
    requires Locate(blocks, start, n).Some? && i < n
    ensures start + i < 0x1_0000 && Find(blocks, start + i) == Locate(blocks, start, n)
  {
    var k := Locate(blocks, start, n).value;
    assert blocks[k].Valid() && blocks[k].Covers(start + i);
    FindSame(blocks, start, start + i);
  }

  lemma SliceIsLoad<T>(blocks: seq<Block<T>>, start: word, n: nat, absent: T)
    requires AllValid(blocks) && DisjointOrSame(blocks) && Locate(blocks, start, n).Some?
    ensures var b := blocks[Locate(blocks, start, n).value];
            Slice(b, start - b.start, n) == Load(Abstract(blocks), start, n, absent)
  {
    var b := blocks[Locate(blocks, start, n).value];
    var x, y := Slice(b, start - b.start, n), Load(Abstract(blocks), start, n, absent);
    forall i | 0 <= i < n ensures x[i] == y[i] {
      LocatedFinds(blocks, start, n, i);
    }
  }

  lemma SameRangesFind<T>(x: seq<Block<T>>, y: seq<Block<T>>, a: word)
    requires SameRanges(x, y)
    ensures Find(x, a) == Find(y, a)
  {
    FindDependsOnRanges(x, y, a, 0);
  }

  lemma SameRangesLocate<T>(x: seq<Block<T>>, y: seq<Block<T>>, a: word, n: nat)
    requires SameRanges(x, y) && AllValid(x) && AllValid(y)
    ensures Locate(x, a, n) == Locate(y, a, n)
  {
    SameRangesFind(x, y, a);
  }

  lemma SameRangesDisjoint<T>(x: seq<Block<T>>, y: seq<Block<T>>)
    requires SameRanges(x, y) && DisjointOrSame(x)
    ensures DisjointOrSame(y)
  {
    forall i, j, a: int | 0 <= i < |y| && 0 <= j < |y| && y[i].Covers(a) && y[j].Covers(a)
      ensures y[i].SameRange(y[j])
    {
      assert x[i].SameRange(y[i]) && x[j].SameRange(y[j]);
      assert x[i].Covers(a) && x[j].Covers(a);
    }
  }

  lemma WrittenIsStore<T>(blocks: seq<Block<T>>, start: word, values: seq<T>)
    requires Registered(blocks) && Locate(blocks, start, |values|).Some?
    ensures var k := Locate(blocks, start, |values|).value;
            var after := Written(blocks, k, start - blocks[k].start, values);
            && Registered(after) && SameRanges(blocks, after)
            && Abstract(after) == Store(Abstract(blocks), start, values)
  {
    var k := Locate(blocks, start, |values|).value;
    var after := Written(blocks, k, start - blocks[k].start, values);
    assert SameRanges(blocks, after);
    SameRangesDisjoint(blocks, after);
    MapsAgree(blocks, after, start, values);
  }

  lemma MapsAgree<T>(blocks: seq<Block<T>>, after: seq<Block<T>>, start: word, values: seq<T>)
    requires Registered(blocks) && Locate(blocks, start, |values|).Some?
    requires var k := Locate(blocks, start, |values|).value;
             after == Written(blocks, k, start - blocks[k].start, values)
    ensures AllValid(after) && Abstract(after) == Store(Abstract(blocks), start, values)
  {
    hide Locate, Written, Abstract;
    var m, m' := Store(Abstract(blocks), start, values), Abstract(after);
    forall a: int ensures (a in m <==> a in m') && (a in m ==> m[a] == m'[a]) {
      AgreeAt(blocks, after, start, values, a);
    }
  }

  lemma AgreeAt<T>(blocks: seq<Block<T>>, after: seq<Block<T>>, start: word, values: seq<T>, a: int)
    requires Registered(blocks) && Locate(blocks, start, |values|).Some?
    requires var k := Locate(blocks, start, |values|).value;
             after == Written(blocks, k, start - blocks[k].start, values)
    ensures AllValid(after) && (a in Abstract(blocks) <==> a in Abstract(after))
    ensures a in Abstract(blocks) ==>
              Abstract(after)[a] ==
                if start <= a < start + |values| then values[a - start] else Abstract(blocks)[a]
  {
    hide Locate, Written, ValueAt, DisjointOrSame;
    assert SameRanges(blocks, after);
    if 0 <= a < 0x1_0000 {
      SameRangesFind(blocks, after, a);
      if Find(blocks, a).Some? {
        WrittenAt(blocks, start, values, a);
      }
    }
  }

  lemma WrittenAt<T>(blocks: seq<Block<T>>, start: word, values: seq<T>, a: word)
    requires Registered(blocks) && Locate(blocks, start, |values|).Some? && Find(blocks, a).Some?
    ensures var k := Locate(blocks, start, |values|).value;
            var after := Written(blocks, k, start - blocks[k].start, values);
            && Find(after, a) == Find(blocks, a)
            && ValueAt(after, a) ==
                 if start <= a < start + |values| then values[a - start] else ValueAt(blocks, a)
  {
    hide Find, Locate, DisjointOrSame;
    var k := Locate(blocks, start, |values|).value;
    var after := Written(blocks, k, start - blocks[k].start, values);
    assert SameRanges(blocks, after);
    SameRangesFind(blocks, after, a);
    FindCovers(blocks, a);
    FindCovers(after, a);
    if start <= a < start + |values| {
      LocatedFinds(blocks, start, |values|, a - start);
    }
  }

  // What was stored in a block's range is loaded from any range that overlaps it.
  lemma LoadStored<T>(blocks: seq<Block<T>>, start: word, values: seq<T>, a: word, n: nat, i: nat, absent: T)
    requires AllValid(blocks) && DisjointOrSame(blocks) && Locate(blocks, start, |values|).Some?
    requires start <= a + i < start + |values| && i < n
    ensures Load(Store(Abstract(blocks), start, values), a, n, absent)[i] == values[a - start + i]
  {
    hide Locate, ValueAt, Find, DisjointOrSame;
    LocatedFinds(blocks, start, |values|, a - start + i);
    assert a + i in Abstract(blocks);
    hide Abstract;
    var m := Store(Abstract(blocks), start, values);
    assert Load(m, a, n, absent)[i] == At(m, a + i, absent);
  }

  // Different values make a difference.
  lemma WrittenDiffers<T>(blocks: seq<Block<T>>, k: nat, offset: nat, x: seq<T>, y: seq<T>)
    requires AllValid(blocks) && k < |blocks| && blocks[k].write == Answers(0)
    requires |x| == |y| && offset + |x| <= blocks[k].size && x != y
    ensures Written(blocks, k, offset, x) != Written(blocks, k, offset, y)
  {
    var a, b := Overwrite(blocks[k], offset, x), Overwrite(blocks[k], offset, y);
    assert a.cells[offset..offset + |x|] == x && b.cells[offset..offset + |y|] == y;
    assert Written(blocks, k, offset, x)[k] == a && Written(blocks, k, offset, y)[k] == b;
  }
}
