/** Octets, 16-bit words and the byte orders of emodbus/base/byte-word.h.

    Octets and words are bounded integers, so that lengths, counts and addresses
    are plain arithmetic.  The few places that work on bits (CRC, mask register,
    coil packing) convert to bit-vectors with the functions at the end. */
module Words {

  type byte = x: int | 0 <= x < 0x100
  type word = x: int | 0 <= x < 0x1_0000

  function Hi(w: word): byte { w / 0x100 }

  function Lo(w: word): byte { w % 0x100 }

  // The word of two octets.
  function Mk(hi: byte, lo: byte): word { hi * 0x100 + lo }

  // Big-endian word at offset i (GET_BIG_END16).
  function Get16(d: seq<byte>, i: nat): word
    requires i + 2 <= |d|
  {
    0x100 * d[i] as int + d[i + 1] as int
  }

  // Little-endian word at offset i: what a uint16_t* access reads on the host.
  function Host16(d: seq<byte>, i: nat): word
    requires i + 2 <= |d|
  {
    0x100 * d[i + 1] as int + d[i] as int
  }

  lemma MkParts(hi: byte, lo: byte)
    ensures Hi(Mk(hi, lo)) == hi && Lo(Mk(hi, lo)) == lo
  {
  }

  lemma MkHiLo(w: word)
    ensures Mk(Hi(w), Lo(w)) == w
  {
  }

  // The two octets of a word in wire order.
  function Put16(w: word): (s: seq<byte>)
    ensures |s| == 2 && Get16(s, 0) == w
  {
    [Hi(w), Lo(w)]
  }

  // SWAP_BYTES read back through a uint16_t.
  function Swap(w: word): (r: word)
    ensures Hi(r) == Lo(w) && Lo(r) == Hi(w)
  {
    Mk(Lo(w), Hi(w))
  }

  // A wire-order word, read through a uint16_t* and swapped.
  function Swapped16(d: seq<byte>, i: nat): (r: word)
    requires i + 2 <= |d|
    ensures r == Get16(d, i)
  {
    MkParts(d[i + 1], d[i]);
    Swap(Host16(d, i))
  }

  // A run of words in wire order.
  function PutWords(ws: seq<word>): (s: seq<byte>)
    ensures |s| == 2 * |ws|
  {
    if ws == [] then [] else PutWords(ws[..|ws| - 1]) + Put16(ws[|ws| - 1])
  }

  // The n big-endian words that start at offset i.
  function GetWords(d: seq<byte>, i: nat, n: nat): (ws: seq<word>)
    requires i + 2 * n <= |d|
    ensures |ws| == n
    ensures forall k :: 0 <= k < n ==> ws[k] == Get16(d, i + 2 * k)
  {
    seq(n, k requires 0 <= k < n => Get16(d, i + 2 * k))
  }

  // The n host-order words that start at offset i.
  function HostWords(d: seq<byte>, i: nat, n: nat): (ws: seq<word>)
    requires i + 2 * n <= |d|
    ensures |ws| == n
    ensures forall k :: 0 <= k < n ==> ws[k] == Host16(d, i + 2 * k)
  {
    seq(n, k requires 0 <= k < n => Host16(d, i + 2 * k))
  }

  // Neighbouring parts of a run.
  lemma Joined(s: seq<byte>, from: nat, middle: nat, end: nat)
    requires from <= middle <= end <= |s|
    ensures s[from..middle] + s[middle..end] == s[from..end]
  {
  }

  // What a uint8_t keeps of a count.
  function Low8(n: nat): byte { if n < 0x100 then n else Low8(n - 0x100) }

  lemma {:induction false} Low8IsRemainder(n: nat)
    ensures Low8(n) == n % 256
  {
    if n >= 256 {
      Low8IsRemainder(n - 256);
    }
  }

  lemma {:induction false} Low8Adds(a: nat, b: nat)
    ensures Low8(a + Low8(b) as int) == Low8(a + b)
    decreases b
  {
    if b >= 0x100 {
      Low8Adds(a, b - 0x100);
    }
  }

  // A count that fits an octet.
  function Count(n: nat): byte
    requires n <= 0xFF
  {
    n
  }

  // The octet that counts the octets of n words.
  function ByteCount(n: nat): byte
    requires n <= 127
  {
    2 * n
  }

  lemma {:induction false} PutWordsAt(ws: seq<word>, k: nat)
    requires k < |ws|
    ensures PutWords(ws)[2 * k] == Hi(ws[k]) && PutWords(ws)[2 * k + 1] == Lo(ws[k])
    ensures Get16(PutWords(ws), 2 * k) == ws[k]
  {
    if k < |ws| - 1 {
      PutWordsAt(ws[..|ws| - 1], k);
    }
  }

  lemma WordInPlace(ws: seq<word>, rest: seq<byte>, k: nat)
    requires k < |ws|
    ensures Get16(PutWords(ws) + rest, 2 * k) == ws[k]
  {
    PutWordsAt(ws, k);
  }

  lemma SameGet(x: seq<byte>, i: nat, y: seq<byte>, j: nat)
    requires i + 2 <= |x| && j + 2 <= |y| && x[i] == y[j] && x[i + 1] == y[j + 1]
    ensures Get16(x, i) == Get16(y, j)
  {
  }

  lemma WordBetween(before: seq<byte>, ws: seq<word>, after: seq<byte>, k: nat)
    requires k < |ws|
    ensures Get16(before + PutWords(ws) + after, |before| + 2 * k) == ws[k]
  {
    hide PutWords, Get16, Hi, Lo;
    PutWordsAt(ws, k);
    var d, p := before + PutWords(ws) + after, PutWords(ws);
    assert d[|before| + 2 * k] == p[2 * k] && d[|before| + 2 * k + 1] == p[2 * k + 1];
    SameGet(d, |before| + 2 * k, p, 2 * k);
  }

  // Words written in wire order anywhere in a buffer are read back unchanged.
  lemma PutGetWords(before: seq<byte>, ws: seq<word>, after: seq<byte>)
    ensures GetWords(before + PutWords(ws) + after, |before|, |ws|) == ws
  {
    hide PutWords, Get16;
    forall k | 0 <= k < |ws| ensures Get16(before + PutWords(ws) + after, |before| + 2 * k) == ws[k] {
      WordBetween(before, ws, after, k);
    }
  }

  // ----- bit-vectors

  function ToBv8(b: byte): (v: bv8)
    ensures v as int == b
  {
    ByteAsBv(b);
    b as bv8
  }

  function OfBv8(v: bv8): (b: byte)
    ensures ToBv8(b) == v
  {
    Bv8AsInt(v);
    v as int
  }

  function ToBv16(w: word): (v: bv16)
    ensures v as int == w
  {
    WordAsBv(w);
    w as bv16
  }

  function OfBv16(v: bv16): (w: word)
    ensures ToBv16(w) == v
  {
    Bv16AsInt(v);
    v as int
  }

  lemma Bv8AsInt(v: bv8)
    ensures 0 <= v as int < 0x100 && (v as int) as bv8 == v
  {
  }

  lemma Bv16AsInt(v: bv16)
    ensures 0 <= v as int < 0x1_0000 && (v as int) as bv16 == v
  {
  }

  function Nibble(x: int): (v: bv8)
    requires 0 <= x < 16
    ensures v < 16 && v as int == x
  {
    match x
    case 0 => 0 case 1 => 1 case 2 => 2 case 3 => 3
    case 4 => 4 case 5 => 5 case 6 => 6 case 7 => 7
    case 8 => 8 case 9 => 9 case 10 => 10 case 11 => 11
    case 12 => 12 case 13 => 13 case 14 => 14 case _ => 15
  }

  lemma JoinNibbles(hi: bv8, lo: bv8)
    requires hi < 16 && lo < 16
    ensures ((hi << 4) | lo) as int == 16 * (hi as int) + (lo as int)
  {
  }

  lemma JoinBytes(hi: bv8, lo: bv8)
    ensures (((hi as bv16) << 8) | (lo as bv16)) as int == 0x100 * (hi as int) + (lo as int)
  {
  }

  lemma ByteAsBv(b: byte)
    ensures (b as bv8) as int == b
  {
    hide Nibble;
    var v := (Nibble(b / 16) << 4) | Nibble(b % 16);
    JoinNibbles(Nibble(b / 16), Nibble(b % 16));
    Bv8AsInt(v);
  }

  // Bv16AsInt for a value known by its integer.
  lemma WordAsBvFrom(w: word, v: bv16)
    requires v as int == w
    ensures (w as bv16) as int == w
  {
    Bv16AsInt(v);
  }

  lemma WordAsBv(w: word)
    ensures (w as bv16) as int == w
  {
    var hi, lo := ToBv8(Hi(w)), ToBv8(Lo(w));
    JoinBytes(hi, lo);
    WordAsBvFrom(w, ((hi as bv16) << 8) | (lo as bv16));
  }

  // The word formed by two octets, in bit-vectors (MKWORD).
  function MkBv(lo: byte, hi: byte): bv16 {
    (ToBv8(lo) as bv16) | ((ToBv8(hi) as bv16) << 8)
  }

  function LoBv(v: bv16): byte { OfBv8((v & 0xFF) as bv8) }

  function HiBv(v: bv16): byte { OfBv8((v >> 8) as bv8) }

  lemma MkOfParts(v: bv16)
    ensures MkBv(LoBv(v), HiBv(v)) == v
  {
  }
}
