/** The circular doubly linked list of emodbus/base/add/list.c, on rings given by sequences.

    A ring is the sequence of its nodes, from any of them on: each node's next is the one behind it, its
    prev the one before it, and the ends meet.  Every operation of the list is proved to turn the rings it
    is given into the rings it should leave, and to write no node but the ones named in its contract, so
    that other rings of the same program stay what they are.  A head is a node like any other; an empty
    list is the ring of a head alone.  The original's container_of has no place here: nodes carry no entry. */
module CircularList {

  class ListHead {
    var next: ListHead?
    var prev: ListHead?

    // INIT_LIST_HEAD
    method Init()
      modifies this
      ensures Ring([this])
    {
      next := this;
      prev := this;
    }

    constructor ()
      ensures Ring([this]) && fresh(this)
    {
      next := this;
      prev := this;
    }
  }

  predicate Linked(a: ListHead, b: ListHead)
    reads a, b
  {
    a.next == b && b.prev == a
  }

  predicate Distinct(s: seq<ListHead>) { forall i, j :: 0 <= i < j < |s| ==> s[i] != s[j] }

  predicate Disjoint(s: seq<ListHead>, t: seq<ListHead>) {
    forall i, j :: 0 <= i < |s| && 0 <= j < |t| ==> s[i] != t[j]
  }

  // The position after i in a ring of n nodes.
  function Succ(i: nat, n: nat): nat { if i + 1 == n then 0 else i + 1 }

  // The position before i.
  function Pred(i: nat, n: nat): nat
    requires i < n
  {
    if i == 0 then n - 1 else i - 1
  }

  // The neighbours of the node at i.
  function After(s: seq<ListHead>, i: nat): ListHead
    requires i < |s|
  {
    s[Succ(i, |s|)]
  }

  function Before(s: seq<ListHead>, i: nat): ListHead
    requires i < |s|
  {
    s[Pred(i, |s|)]
  }

  // The nodes of s, in this order, are all the nodes of one ring.
  predicate Ring(s: seq<ListHead>)
    reads s
  {
    s != [] && Distinct(s) && forall i :: 0 <= i < |s| ==> Linked(s[i], s[Succ(i, |s|)])
  }

  // ----- insertion

  // __list_add
  method AddBetween(entry: ListHead, prev: ListHead, next: ListHead)
    requires entry != prev && entry != next
    modifies next`prev, entry, prev`next
    ensures Linked(prev, entry) && Linked(entry, next)
  {
    next.prev := entry;
    entry.next := next;
    entry.prev := prev;
    prev.next := entry;
  }

  // list_add
  method ListAdd(entry: ListHead, head: ListHead, ghost s: seq<ListHead>)
    requires Ring(s) && s[0] == head && entry !in s
    modifies entry, head`next, After(s, 0)`prev
    ensures Ring([head, entry] + s[1..])
  {
    assert Linked(s[0], s[Succ(0, |s|)]);
    AddBetween(entry, head, head.next);
    ghost var t := [head, entry] + s[1..];
    forall i | 0 <= i < |t| ensures Linked(t[i], t[Succ(i, |t|)]) {
      if i >= 2 {
        assert old(Linked(s[i - 1], s[Succ(i - 1, |s|)]));
      }
    }
  }

  // list_add_tail
  method ListAddTail(entry: ListHead, head: ListHead, ghost s: seq<ListHead>)
    requires Ring(s) && s[0] == head && entry !in s
    modifies entry, head`prev, Before(s, 0)`next
    ensures Ring(s + [entry])
  {
    assert Linked(s[|s| - 1], s[Succ(|s| - 1, |s|)]);
    AddBetween(entry, head.prev, head);
    ghost var t := s + [entry];
    forall i | 0 <= i < |t| ensures Linked(t[i], t[Succ(i, |t|)]) {
      if i < |s| - 1 {
        assert old(Linked(s[i], s[Succ(i, |s|)]));
      }
    }
  }

  // ----- removal

  // What is left of a ring without the node at k.
  function Without(s: seq<ListHead>, k: nat): seq<ListHead>
    requires k < |s|
  {
    s[..k] + s[k + 1..]
  }

  lemma PredSucc(i: nat, n: nat)
    requires i < n
    ensures Pred(i, n) < n && Succ(Pred(i, n), n) == i
  {
  }

  // __list_del
  method Unlink(prev: ListHead, next: ListHead)
    modifies next`prev, prev`next
    ensures Linked(prev, next)
  {
    next.prev := prev;
    prev.next := next;
  }

  // The part list_del_init and list_move share: the node leaves its ring, its own pointers stay.
  method Leave(entry: ListHead, ghost s: seq<ListHead>, ghost k: nat)
    requires Ring(s) && k < |s| && s[k] == entry
    modifies Before(s, k)`next, After(s, k)`prev
    ensures |s| > 1 ==> Ring(Without(s, k))
  {
    PredSucc(k, |s|);
    assert Linked(s[Pred(k, |s|)], s[k]) && Linked(s[k], s[Succ(k, |s|)]);
    Unlink(entry.prev, entry.next);
    if |s| > 1 {
      ghost var t := Without(s, k);
      forall i | 0 <= i < |t| ensures Linked(t[i], t[Succ(i, |t|)]) {
        ghost var j := if i < k then i else i + 1;
        assert old(Linked(s[j], s[Succ(j, |s|)]));
      }
    }
  }

  // list_del_init
  method ListDelInit(entry: ListHead, ghost s: seq<ListHead>, ghost k: nat)
    requires Ring(s) && k < |s| && s[k] == entry
    modifies entry, Before(s, k)`next, After(s, k)`prev
    ensures Ring([entry])
    ensures |s| > 1 ==> Ring(Without(s, k))
  {
    Leave(entry, s, k);
    entry.Init();
  }

  // list_move, to another ring
  method ListMove(entry: ListHead, head: ListHead, ghost s: seq<ListHead>, ghost k: nat, ghost t: seq<ListHead>)
    requires Ring(s) && k < |s| && s[k] == entry
    requires Ring(t) && t[0] == head && Disjoint(s, t)
    modifies entry, Before(s, k)`next, After(s, k)`prev, head`next, After(t, 0)`prev
    ensures |s| > 1 ==> Ring(Without(s, k))
    ensures Ring([head, entry] + t[1..])
  {
    Leave(entry, s, k);
    ListAdd(entry, head, t);
  }

  // list_move, within a ring
  method ListMoveWithin(entry: ListHead, head: ListHead, ghost s: seq<ListHead>, ghost k: nat)
    requires Ring(s) && 1 <= k < |s| && s[k] == entry && s[0] == head
    modifies set x | x in s
    ensures Ring([head, entry] + s[1..k] + s[k + 1..])
  {
    Leave(entry, s, k);
    ghost var t := Without(s, k);
    ListAdd(entry, head, t);
    assert [head, entry] + t[1..] == [head, entry] + s[1..k] + s[k + 1..];
  }

  // list_empty
  predicate ListEmpty(head: ListHead)
    reads head
  {
    head.next == head
  }

  // A head sees itself next exactly when its ring has no other node.
  lemma EmptyIff(s: seq<ListHead>)
    requires Ring(s)
    ensures ListEmpty(s[0]) <==> s == [s[0]]
  {
    assert Linked(s[0], s[Succ(0, |s|)]);
    if |s| == 1 {
      assert s == [s[0]];
    }
  }

  // ----- joining

  // __list_splice
  method Splice(list: ListHead, head: ListHead, ghost s: seq<ListHead>, ghost t: seq<ListHead>)
    requires Ring(s) && s[0] == list && |s| > 1 && Ring(t) && t[0] == head && Disjoint(s, t)
    modifies After(s, 0)`prev, Before(s, 0)`next, head`next, After(t, 0)`prev
    ensures Ring([head] + s[1..] + t[1..])
  {
    assert Linked(s[0], s[Succ(0, |s|)]) && Linked(s[|s| - 1], s[Succ(|s| - 1, |s|)]);
    assert Linked(t[0], t[Succ(0, |t|)]);
    var first, last, at := list.next, list.prev, head.next;
    first.prev := head;
    head.next := first;
    last.next := at;
    at.prev := last;
    ghost var u := [head] + s[1..] + t[1..];
    assert forall i :: 1 <= i < |s| ==> u[i] == s[i];
    assert forall i :: |s| <= i < |u| ==> u[i] == t[i - |s| + 1];
    forall i | 0 <= i < |u| ensures Linked(u[i], u[Succ(i, |u|)]) {
      if 1 <= i < |s| - 1 {
        assert old(Linked(s[i], s[Succ(i, |s|)]));
      } else if |s| <= i {
        assert old(Linked(t[i - |s| + 1], t[Succ(i - |s| + 1, |t|)]));
      }
    }
  }

  // list_splice_init: the nodes of one ring, in order, behind the head of the other
  method ListSpliceInit(list: ListHead, head: ListHead, ghost s: seq<ListHead>, ghost t: seq<ListHead>)
    requires Ring(s) && s[0] == list && Ring(t) && t[0] == head && Disjoint(s, t)
    modifies list, After(s, 0)`prev, Before(s, 0)`next, head`next, After(t, 0)`prev
    ensures Ring([list])
    ensures Ring([head] + s[1..] + t[1..])
  {
    EmptyIff(s);
    if !ListEmpty(list) {
      Splice(list, head, s, t);
      list.Init();
    } else {
      assert [head] + s[1..] + t[1..] == t;
    }
  }

  // ----- rings

  // A ring may be read from any of its nodes on, so that the heads above may be any nodes.
  lemma RingRotates(s: seq<ListHead>, k: nat)
    requires Ring(s) && k < |s|
    ensures Ring(s[k..] + s[..k])
  {
    var t := s[k..] + s[..k];
    forall i | 0 <= i < |t| ensures Linked(t[i], t[Succ(i, |t|)]) {
      var j := if i < |s| - k then k + i else i - (|s| - k);
      assert Linked(s[j], s[Succ(j, |s|)]);
    }
  }

  // Going forward and back, or back and forward, leads to the same node.
  lemma NextPrevInverse(s: seq<ListHead>, k: nat)
    requires Ring(s) && k < |s|
    ensures s[k].next == s[Succ(k, |s|)] && s[k].prev == s[Pred(k, |s|)]
    ensures s[k].next.prev == s[k] && s[k].prev.next == s[k]
  {
    PredSucc(k, |s|);
    assert Linked(s[k], s[Succ(k, |s|)]) && Linked(s[Pred(k, |s|)], s[k]);
  }

  // A node determines the ring it is on: two rings that start at one node are the same.
  lemma {:induction false} RingUnique(s: seq<ListHead>, t: seq<ListHead>, k: nat)
    requires Ring(s) && Ring(t) && s[0] == t[0] && k < |s| && k < |t|
    ensures s[k] == t[k]
  {
    if k > 0 {
      RingUnique(s, t, k - 1);
      assert Linked(s[k - 1], s[Succ(k - 1, |s|)]) && Linked(t[k - 1], t[Succ(k - 1, |t|)]);
    }
  }

  lemma SameRing(s: seq<ListHead>, t: seq<ListHead>)
    requires Ring(s) && Ring(t) && s[0] == t[0]
    ensures s == t
  {
    var n := if |s| < |t| then |s| else |t|;
    forall k | 0 <= k < n ensures s[k] == t[k] {
      RingUnique(s, t, k);
    }
    assert Linked(s[n - 1], s[Succ(n - 1, |s|)]) && Linked(t[n - 1], t[Succ(n - 1, |t|)]);
  }
}
