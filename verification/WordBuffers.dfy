/** Loops over the words of an octet buffer, shared by builders and handlers: the
    SWAP_BYTES loops (e.g. emodbus/server/write_multi_regs.c:44-47) and the stores through
    a uint16_t pointer (e.g. emodbus/client/write_multi_regs.c). */
module WordBuffers {
  import opened Words

  // SWAP_BYTES_PTR on n consecutive words: host order becomes wire order, and back.
  method SwapWords(buf: array<byte>, at: nat, n: nat)
    requires at + 2 * n <= buf.Length
    modifies buf
    ensures forall k :: 0 <= k < n ==>
              buf[at + 2 * k] == old(buf[at + 2 * k + 1]) && buf[at + 2 * k + 1] == old(buf[at + 2 * k])
    ensures forall i :: 0 <= i < buf.Length && !(at <= i < at + 2 * n) ==> buf[i] == old(buf[i])
  {
    var i := 0;
    while i < n
      invariant 0 <= i <= n
      invariant forall k :: 0 <= k < i ==>
                  buf[at + 2 * k] == old(buf[at + 2 * k + 1]) && buf[at + 2 * k + 1] == old(buf[at + 2 * k])
      invariant forall j :: 0 <= j < buf.Length && !(at <= j < at + 2 * i) ==> buf[j] == old(buf[j])
    {
      buf[at + 2 * i], buf[at + 2 * i + 1] := buf[at + 2 * i + 1], buf[at + 2 * i];
      i := i + 1;
    }
  }

  // memcpy of words, in host order
  method CopyWords(buf: array<byte>, at: nat, values: seq<word>)
    requires at + 2 * |values| <= buf.Length
    modifies buf
    ensures forall k :: 0 <= k < |values| ==>
              buf[at + 2 * k] == Lo(values[k]) && buf[at + 2 * k + 1] == Hi(values[k])
    ensures forall i :: 0 <= i < buf.Length && !(at <= i < at + 2 * |values|) ==> buf[i] == old(buf[i])
  {
    var i := 0;
    while i < |values|
      invariant 0 <= i <= |values|
      invariant forall k :: 0 <= k < i ==>
                  buf[at + 2 * k] == Lo(values[k]) && buf[at + 2 * k + 1] == Hi(values[k])
      invariant forall j :: 0 <= j < buf.Length && !(at <= j < at + 2 * i) ==> buf[j] == old(buf[j])
    {
      buf[at + 2 * i], buf[at + 2 * i + 1] := Lo(values[i]), Hi(values[i]);
      i := i + 1;
    }
  }

  // BIG_END_MK16, or SWAP_BYTES stored through a uint16_t*
  method StoreBigEnd16(buf: array<byte>, at: nat, w: word)
    requires at + 2 <= buf.Length
    modifies buf
    ensures buf[at] == Hi(w) && buf[at + 1] == Lo(w)
    ensures forall i :: 0 <= i < buf.Length && i != at && i != at + 1 ==> buf[i] == old(buf[i])
  {
    buf[at] := Hi(w);
    buf[at + 1] := Lo(w);
  }

  lemma {:induction false} OctetsArePutWords(s: seq<byte>, ws: seq<word>)
    requires |s| == 2 * |ws|
    requires forall k :: 0 <= k < |ws| ==> s[2 * k] == Hi(ws[k]) && s[2 * k + 1] == Lo(ws[k])
    ensures s == PutWords(ws)
  {
    if ws != [] {
      var n := |ws| - 1;
      OctetsArePutWords(s[..2 * n], ws[..n]);
      assert s == s[..2 * n] + [s[2 * n], s[2 * n + 1]];
    }
  }

  // The registers of a request, swapped in place into host order.
  method TakeWords(buf: array<byte>, at: nat, n: nat) returns (values: seq<word>)
    requires at + 2 * n <= buf.Length
    modifies buf
    ensures values == GetWords(old(buf[..]), at, n)
    ensures forall i :: 0 <= i < buf.Length && !(at <= i < at + 2 * n) ==> buf[i] == old(buf[i])
  {
    SwapWords(buf, at, n);
    values := HostWords(buf[..], at, n);
  }

  // Words stored one after the other, each as SWAP_BYTES through a uint16_t*.
  method StoreWords(buf: array<byte>, at: nat, words: seq<word>)
    requires at + 2 * |words| <= buf.Length
    modifies buf
    ensures buf[at..at + 2 * |words|] == PutWords(words)
    ensures forall i :: 0 <= i < buf.Length && !(at <= i < at + 2 * |words|) ==> buf[i] == old(buf[i])
  {
    var i := 0;
    while i < |words|
      invariant 0 <= i <= |words|
      invariant buf[at..at + 2 * i] == PutWords(words[..i])
      invariant forall j :: 0 <= j < buf.Length && !(at <= j < at + 2 * i) ==> buf[j] == old(buf[j])
    {
      ghost var before := buf[at..at + 2 * i];
      buf[at + 2 * i] := Hi(words[i]);
      buf[at + 2 * i + 1] := Lo(words[i]);
      assert buf[at..at + 2 * (i + 1)] == before + Put16(words[i]);
      assert words[..i + 1][..i] == words[..i];
      i := i + 1;
    }
    assert words[..|words|] == words;
  }
}
