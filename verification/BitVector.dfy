/** The bit vector of emodbus/include/emodbus/base/add/bit_vector.hpp: bits kept in words of
    any width, and the filling of a range word by word.

    The words are an array, and the contents a sequence of bits, word after word and the lowest bit of each
    first.  Setting and getting one bit are a look-up in that sequence.  The filling of a range is done in
    three loops: the bits up to the next word boundary one by one, whole words at a time, and the bits behind
    the last boundary one by one; the boundaries are proved to meet without a gap for every width, and the
    three loops together to do what setting each bit of the range in turn would do. */
module BitVector {

  // ----- positions

  // The first position of word j.
  function Base(j: nat, width: nat): nat { j * width }

  // The word that position i lies in.
  function WordOf(i: nat, width: nat): nat
    requires width >= 1
  {
    i / width
  }

  lemma BaseStep(j: nat, k: nat, width: nat)
    ensures Base(0, width) == 0
    ensures Base(j + 1, width) == Base(j, width) + width
    ensures j == k ==> Base(j, width) == Base(k, width)
    ensures j < k ==> Base(j, width) + width <= Base(k, width)
    ensures k < j ==> Base(k, width) + width <= Base(j, width)
  {
    Distribute(j, 1, width);
    if j < k {
      Distribute(j + 1, k - j - 1, width);
    } else if k < j {
      Distribute(k, 1, width);
      Distribute(k + 1, j - k - 1, width);
    }
  }

  lemma Distribute(a: nat, b: nat, width: nat)
    ensures (a + b) * width == a * width + b * width && b * width >= 0
  {
  }

  lemma Position(i: nat, width: nat)
    requires width >= 1
    ensures Base(WordOf(i, width), width) <= i < Base(WordOf(i, width), width) + width
    ensures i % width == i - Base(WordOf(i, width), width)
  {
  }

  // Position i lies in word j exactly when it is one of the word's positions.
  lemma InWord(i: nat, j: nat, width: nat)
    requires width >= 1
    ensures WordOf(i, width) == j <==> Base(j, width) <= i < Base(j, width) + width
  {
    hide Base;
    Position(i, width);
    BaseStep(WordOf(i, width), j, width);
  }

  lemma WordInside(i: nat, n: nat, width: nat)
    requires width >= 1
    ensures i < Base(n, width) <==> WordOf(i, width) < n
  {
    hide Base;
    Position(i, width);
    BaseStep(WordOf(i, width), n, width);
  }

  // ----- the contents

  type Words = seq<seq<bool>>

  predicate Shaped(words: Words, width: nat) {
    width >= 1 && forall j :: 0 <= j < |words| ==> |words[j]| == width
  }

  function Size(words: Words, width: nat): nat { Base(|words|, width) }

  function BitOf(words: Words, width: nat, i: nat): bool
    requires Shaped(words, width) && i < Size(words, width)
  {
    WordInside(i, |words|, width);
    words[WordOf(i, width)][i % width]
  }

  // The vector as one run of bits.
  function Contents(words: Words, width: nat): (s: seq<bool>)
    requires Shaped(words, width)
    ensures |s| == Size(words, width)
    ensures forall i :: 0 <= i < |s| ==> s[i] == BitOf(words, width, i)
  {
    seq(Size(words, width), i requires 0 <= i < Size(words, width) => BitOf(words, width, i))
  }

  // A run of bits with begin to end-1 set to v.
  function Filled(s: seq<bool>, begin: nat, end: nat, v: bool): (r: seq<bool>)
    requires begin <= end <= |s|
    ensures |r| == |s|
    ensures forall i :: 0 <= i < |r| ==> r[i] == if begin <= i < end then v else s[i]
  {
    s[..begin] + seq(end - begin, _ => v) + s[end..]
  }

  // Filling on from where a filling ended.
  lemma FilledOn(s: seq<bool>, begin: nat, middle: nat, end: nat, v: bool)
    requires begin <= middle <= end <= |s|
    ensures Filled(Filled(s, begin, middle, v), middle, end, v) == Filled(s, begin, end, v)
  {
  }

  // The same, one setBit after the other.
  function SetEach(s: seq<bool>, begin: nat, end: nat, v: bool): (r: seq<bool>)
    requires begin <= end <= |s|
    ensures |r| == |s|
    decreases end - begin
  {
    if begin == end then s else SetEach(s, begin, end - 1, v)[end - 1 := v]
  }

  // Filling a range is setting each of its bits in turn, and nothing else.
  lemma {:induction false} SetEachFills(s: seq<bool>, begin: nat, end: nat, v: bool)
    requires begin <= end <= |s|
    ensures SetEach(s, begin, end, v) == Filled(s, begin, end, v)
    decreases end - begin
  {
    if begin < end {
      SetEachFills(s, begin, end - 1, v);
    }
  }

  // Changing one word changes its positions and no others.
  lemma WordReplaced(words: Words, width: nat, j: nat, w: seq<bool>, i: nat)
    requires Shaped(words, width) && j < |words| && |w| == width && i < Size(words, width)
    ensures Shaped(words[j := w], width)
    ensures BitOf(words[j := w], width, i) ==
              if Base(j, width) <= i < Base(j, width) + width then w[i % width] else BitOf(words, width, i)
  {
    hide Base, WordOf;
    InWord(i, j, width);
    WordInside(i, |words|, width);
  }

  lemma WordFilled(words: Words, width: nat, j: nat, w: seq<bool>, v: bool)
    requires Shaped(words, width) && j < |words| && |w| == width && forall k :: 0 <= k < width ==> w[k] == v
    ensures Shaped(words[j := w], width) && Base(j, width) + width <= Size(words, width)
    ensures Contents(words[j := w], width) == Filled(Contents(words, width), Base(j, width), Base(j, width) + width, v)
  {
    hide Base, BitOf;
    BaseStep(j, |words|, width);
    var x, y := Contents(words[j := w], width), Filled(Contents(words, width), Base(j, width), Base(j, width) + width, v);
    forall i | 0 <= i < Size(words, width) ensures x[i] == y[i] {
      WordReplaced(words, width, j, w, i);
      Position(i, width);
    }
  }

  lemma NothingSet(words: Words, width: nat)
    requires Shaped(words, width) && forall j, k :: 0 <= j < |words| && 0 <= k < width ==> !words[j][k]
    ensures Contents(words, width) == seq(Size(words, width), _ => false)
  {
    hide Base;
    forall i | 0 <= i < Size(words, width) ensures !Contents(words, width)[i] {
      WordInside(i, |words|, width);
      Position(i, width);
    }
  }

  // ----- the object

  class BitVector {
    const width: nat
    var words: Words

    ghost predicate Valid()
      reads this
    {
      Shaped(words, width)
    }

    // resize, from an empty vector
    constructor (width: nat, size: nat)
      requires width >= 1
      ensures Valid() && this.width == width && fresh(this)
      ensures size <= Size(words, width) < size + width
      ensures Contents(words, width) == seq(Size(words, width), _ => false)
    {
      hide Base;
      this.width := width;
      words := seq((size + width - 1) / width, _ => seq(width, _ => false));
      Position(size + width - 1, width);
      new;
      NothingSet(words, width);
    }

    // getBit
    method GetBit(i: nat) returns (b: bool)
      requires Valid() && i < Size(words, width)
      ensures b == Contents(words, width)[i]
    {
      WordInside(i, |words|, width);
      b := words[WordOf(i, width)][i % width];
    }

    // setBit
    method SetBit(i: nat, v: bool)
      requires Valid() && i < Size(words, width)
      modifies this`words
      ensures Valid() && |words| == old(|words|)
      ensures Contents(words, width) == old(Contents(words, width))[i := v]
    {
      hide Base;
      WordInside(i, |words|, width);
      var j, w := WordOf(i, width), words[WordOf(i, width)][i % width := v];
      forall k | 0 <= k < Size(words, width)
        ensures Shaped(words[j := w], width) && BitOf(words[j := w], width, k) == if k == i then v else BitOf(words, width, k)
      {
        WordReplaced(words, width, j, w, k);
        Position(i, width);
        Position(k, width);
        InWord(k, j, width);
      }
      words := words[j := w];
    }

    // set_range_bits: single bits up to a word boundary, whole words, single bits again
    method SetRangeBits(v: bool, begin: nat, end: nat)
      requires Valid() && begin <= end <= Size(words, width)
      modifies this`words
      ensures Valid() && |words| == old(|words|)
      ensures Contents(words, width) == Filled(old(Contents(words, width)), begin, end, v)
      ensures Contents(words, width) == SetEach(old(Contents(words, width)), begin, end, v)
    {
      hide Base, WordOf, BitOf, Contents, Filled, SetEach;
      ghost var s := Contents(words, width);
      var hasWord := end - begin >= width;
      var wiBegin, wiEnd := WordOf(begin, width) + 1, WordOf(end, width);
      var fEnd := if end < Base(wiBegin, width) then end else Base(wiBegin, width);
      var sBegin := if begin > Base(wiEnd, width) then begin else Base(wiEnd, width);
      Boundaries(begin, end, width, |words|);
      FillBits(v, begin, begin, fEnd, s, begin);
      ghost var done := FillWords(v, begin, wiBegin, wiEnd, hasWord, fEnd, s);
      FillBits(v, begin, sBegin, end, s, done);
      SetEachFills(s, begin, end, v);
    }

    // The loops over single bits; what is filled before reaches at least to where they start.
    method FillBits(v: bool, ghost begin: nat, from: nat, end: nat, ghost s: seq<bool>, ghost done: nat)
      requires Valid() && |s| == Size(words, width) && begin <= from <= done <= |s| && end <= |s|
      requires done <= end || done == from
      requires Contents(words, width) == Filled(s, begin, done, v)
      modifies this`words
      ensures Valid() && |words| == old(|words|)
      ensures Contents(words, width) == Filled(s, begin, if end > done then end else done, v)
    {
      hide Base, BitOf;
      var i := from;
      while i < end
        invariant from <= i && (i <= end || i == from)
        invariant Valid() && |words| == old(|words|)
        invariant Contents(words, width) == Filled(s, begin, if i > done then i else done, v)
      {
        SetBit(i, v);
        i := i + 1;
      }
    }

    // The loop over whole words.
    method FillWords(v: bool, ghost begin: nat, wiBegin: nat, wiEnd: nat, hasWord: bool, ghost fEnd: nat, ghost s: seq<bool>)
      returns (ghost done: nat)
      requires Valid() && |s| == Size(words, width) && begin <= fEnd <= |s|
      requires Contents(words, width) == Filled(s, begin, fEnd, v)
      requires wiBegin < wiEnd ==> hasWord && fEnd == Base(wiBegin, width) && wiEnd <= |words|
      modifies this`words
      ensures Valid() && |words| == old(|words|)
      ensures done == (if wiBegin < wiEnd then Base(wiEnd, width) else fEnd)
      ensures begin <= done <= |s| && Contents(words, width) == Filled(s, begin, done, v)
    {
      hide Base, BitOf, Contents, Filled;
      var i := wiBegin;
      done := fEnd;
      while i < wiEnd && hasWord
        invariant wiBegin <= i && (i <= wiEnd || i == wiBegin)
        invariant done == if wiBegin < wiEnd then Base(i, width) else fEnd
        invariant Valid() && |words| == old(|words|) && begin <= done <= |s|
        invariant Contents(words, width) == Filled(s, begin, done, v)
      {
        BaseStep(i, |words|, width);
        FillWord(i, v);
        FilledOn(s, begin, done, done + width, v);
        i := i + 1;
        done := done + width;
      }
    }

    // bitset::set or bitset::reset on one word
    method FillWord(j: nat, v: bool)
      requires Valid() && j < |words|
      modifies this`words
      ensures Valid() && |words| == old(|words|) && Base(j, width) + width <= Size(words, width)
      ensures Contents(words, width) == Filled(old(Contents(words, width)), Base(j, width), Base(j, width) + width, v)
    {
      hide Base, Contents;
      BaseStep(j, |words|, width);
      WordFilled(words, width, j, seq(width, _ => v), v);
      words := words[j := seq(width, _ => v)];
    }
  }

  // How the three loops of the range fill share the range.
  lemma Boundaries(begin: nat, end: nat, width: nat, n: nat)
    requires width >= 1 && begin <= end <= Base(n, width)
    ensures var wiBegin, wiEnd := WordOf(begin, width) + 1, WordOf(end, width);
            && begin < Base(wiBegin, width) && Base(wiEnd, width) <= end && wiEnd <= n
            && (wiBegin < wiEnd ==> end - begin >= width && Base(wiBegin, width) < Base(wiEnd, width))
            && (wiBegin == wiEnd ==> Base(wiBegin, width) <= end)
            && (wiBegin > wiEnd ==> end < Base(wiBegin, width) && Base(wiEnd, width) <= begin)
  {
    hide Base;
    var wiBegin, wiEnd := WordOf(begin, width) + 1, WordOf(end, width);
    Position(begin, width);
    Position(end, width);
    BaseStep(WordOf(begin, width), WordOf(end, width), width);
    BaseStep(WordOf(end, width), n, width);
    BaseStep(wiBegin, wiEnd, width);
    WordInside(end, n, width);
  }
}
