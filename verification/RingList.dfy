/** The intrusive circular doubly linked list. A ring is described by the ghost sequence of its nodes, head first. */
module RingList {

  /** `entry` is what `list_entry` finds around the node; a list head is not inside an entry. */
  class ListHead<T> {
    var next: ListHead?<T>
    var prev: ListHead?<T>
    const entry: T

    constructor (entry: T)
      ensures this.entry == entry && Ring([this])
    {
      this.entry := entry;
      next := this;
      prev := this;
    }
  }

  function Succ(i: nat, n: nat): nat
    requires i < n
  {
    if i + 1 == n then 0 else i + 1
  }

  function Pred(i: nat, n: nat): nat
    requires i < n
  {
    if i == 0 then n - 1 else i - 1
  }

  /** `next` and `prev` are inverse steps around the whole sequence, and no node is in it twice. */
  ghost predicate Ring<T>(s: seq<ListHead<T>>)
    reads s
  {
    && |s| > 0
    && (forall i {:trigger s[i].next} | 0 <= i < |s| :: s[i].next == s[Succ(i, |s|)])
    && (forall i {:trigger s[i].prev} | 0 <= i < |s| :: s[i].prev == s[Pred(i, |s|)])
    && (forall i, j | 0 <= i < j < |s| :: s[i] != s[j])
  }

  method InitListHead<T>(ptr: ListHead<T>)
    modifies ptr
    ensures Ring([ptr])
  {
    ptr.next := ptr;
    ptr.prev := ptr;
  }

  /** __list_add */
  method AddBetween<T>(node: ListHead<T>, prev: ListHead<T>, next: ListHead<T>)
    requires node != prev && node != next
    modifies node, prev`next, next`prev
    ensures next.prev == node && node.next == next && node.prev == prev && prev.next == node
  {
    next.prev := node;
    node.next := next;
    node.prev := prev;
    prev.next := node;
  }

  method ListAdd<T>(node: ListHead<T>, head: ListHead<T>, ghost s: seq<ListHead<T>>)
    requires Ring(s) && s[0] == head && node !in s
    modifies node, s
    ensures Ring([head, node] + s[1..])
  {
    assert head.next in s;
    AddBetween(node, head, head.next);
  }

  method ListAddTail<T>(node: ListHead<T>, head: ListHead<T>, ghost s: seq<ListHead<T>>)
    requires Ring(s) && s[0] == head && node !in s
    modifies node, s
    ensures Ring(s + [node])
  {
    assert head.prev == s[|s| - 1];
    AddBetween(node, head.prev, head);
  }

  /** __list_del */
  method Bypass<T>(prev: ListHead<T>, next: ListHead<T>)
    modifies prev`next, next`prev
    ensures next.prev == prev && prev.next == next
  {
    next.prev := prev;
    prev.next := next;
  }

  /** The nodes other than `i` are linked past it. */
  ghost predicate LinkedPast<T>(s: seq<ListHead<T>>, i: nat)
    requires 0 < i < |s|
    reads s
  {
    && (forall k {:trigger s[k].next} | 0 <= k < |s| && k != i :: s[k].next == s[Succ(if k == i - 1 then i else k, |s|)])
    && (forall k {:trigger s[k].prev} | 0 <= k < |s| && k != i :: s[k].prev == s[Pred(if k == Succ(i, |s|) then i else k, |s|)])
    && (forall i, j | 0 <= i < j < |s| :: s[i] != s[j])
  }

  lemma RingWithout<T>(s: seq<ListHead<T>>, i: nat)
    requires 0 < i < |s| && LinkedPast(s, i)
    ensures Ring(s[..i] + s[i + 1..])
  {
  }

  method ListDel<T>(node: ListHead<T>, ghost s: seq<ListHead<T>>, ghost i: nat)
    requires Ring(s) && 0 < i < |s| && s[i] == node
    modifies s
    ensures Ring(s[..i] + s[i + 1..])
    ensures node.next == null && node.prev == null
  {
    assert node.prev == s[i - 1] && node.next == s[Succ(i, |s|)];
    Bypass(node.prev, node.next);
    node.next := null;
    node.prev := null;
    assert LinkedPast(s, i);
    RingWithout(s, i);
    hide Ring, LinkedPast;
  }

  method ListDelInit<T>(node: ListHead<T>, ghost s: seq<ListHead<T>>, ghost i: nat)
    requires Ring(s) && 0 < i < |s| && s[i] == node
    modifies s
    ensures Ring(s[..i] + s[i + 1..]) && Ring([node])
  {
    assert node.prev == s[i - 1] && node.next == s[Succ(i, |s|)];
    Bypass(node.prev, node.next);
    InitListHead(node);
    assert LinkedPast(s, i);
    RingWithout(s, i);
    hide Ring, LinkedPast;
  }

  predicate ListEmpty<T>(head: ListHead<T>)
    reads head
  {
    head.next == head
  }

  lemma EmptyMeansAlone<T>(s: seq<ListHead<T>>)
    requires Ring(s)
    ensures ListEmpty(s[0]) <==> |s| == 1
  {
  }

  /** `l` is spliced into `h` between its head and what followed the head; the head of `l` is left out. */
  ghost predicate SplicedInto<T>(l: seq<ListHead<T>>, h: seq<ListHead<T>>)
    requires |l| > 1 && |h| > 0
    reads l, h
  {
    && (forall k {:trigger l[k].next} | 0 < k < |l| :: l[k].next == if k + 1 < |l| then l[k + 1] else h[Succ(0, |h|)])
    && (forall k {:trigger l[k].prev} | 0 < k < |l| :: l[k].prev == if k > 1 then l[k - 1] else h[0])
    && (forall k {:trigger h[k].next} | 0 <= k < |h| :: h[k].next == if k > 0 then h[Succ(k, |h|)] else l[1])
    && (forall k {:trigger h[k].prev} | 0 <= k < |h| :: h[k].prev == if k == Succ(0, |h|) then l[|l| - 1] else h[Pred(k, |h|)])
    && (forall i, j | 0 <= i < j < |h| :: h[i] != h[j])
    && (forall i, j | 0 <= i < j < |l| :: l[i] != l[j])
    && (forall i, j | 0 <= i < |l| && 0 <= j < |h| :: l[i] != h[j])
  }

  lemma SplicedRing<T>(l: seq<ListHead<T>>, h: seq<ListHead<T>>)
    requires |l| > 1 && |h| > 0 && SplicedInto(l, h)
    ensures Ring([h[0]] + l[1..] + h[1..])
  {
    var t := [h[0]] + l[1..] + h[1..];
    assert forall k | 0 < k < |l| :: t[k] == l[k];
    assert forall k | 0 < k < |h| :: t[|l| - 1 + k] == h[k];
    forall k | 0 <= k < |t|
      ensures t[k].next == t[Succ(k, |t|)] && t[k].prev == t[Pred(k, |t|)]
    {
      if 0 < k < |l| {
        assert t[k].next == l[k].next && t[k].prev == l[k].prev;
      } else {
        var j := if k == 0 then 0 else k - |l| + 1;
        assert t[k] == h[j] && t[k].next == h[j].next && t[k].prev == h[j].prev;
      }
    }
  }

  /** Joins the nodes of `list`, without its head, in front of those of `head`. */
  method ListSplice<T>(list: ListHead<T>, head: ListHead<T>, ghost l: seq<ListHead<T>>, ghost h: seq<ListHead<T>>)
    requires Ring(l) && Ring(h) && l[0] == list && h[0] == head
    requires forall i, j | 0 <= i < |l| && 0 <= j < |h| :: l[i] != h[j]
    modifies l, h
    ensures Ring([head] + l[1..] + h[1..])
  {
    var first := list.next;
    assert first == l[Succ(0, |l|)];
    if first != list {
      var last := list.prev;
      var at := head.next;
      assert last == l[|l| - 1] && at == h[Succ(0, |h|)];
      first.prev := head;
      head.next := first;
      last.next := at;
      at.prev := last;
      assert SplicedInto(l, h);
      SplicedRing(l, h);
    } else {
      assert [head] + l[1..] + h[1..] == h;
    }
    hide Ring, SplicedInto;
  }

  /** The entries of a list, in order. */
  ghost function Entries<T>(s: seq<ListHead<T>>): (e: seq<T>)
    requires |s| > 0
    ensures |e| == |s| - 1 && forall i | 0 <= i < |e| :: e[i] == s[i + 1].entry
  {
    seq(|s| - 1, i requires 0 <= i < |s| - 1 => s[i + 1].entry)
  }

  /** The safe iteration that unlinks every node: it visits each entry once, in order, and leaves the list empty. */
  method UnlinkAll<T>(head: ListHead<T>, ghost s: seq<ListHead<T>>) returns (visited: seq<T>)
    requires Ring(s) && s[0] == head
    modifies s
    ensures Ring([head]) && visited == Entries(s)
  {
    hide Ring, Entries;
    RingNext(s);
    assert s == [head] + s[1..];
    visited := [];
    var pos := head.next;
    assert pos == s[Succ(0, |s|)];
    var safe := pos.next;
    ghost var left, m := s, 1;
    while pos != head
      invariant 1 <= m <= |s| && left == [head] + s[m..] && Ring(left)
      invariant pos == left[Succ(0, |left|)] && safe == pos.next
      invariant visited + Entries(left) == Entries(s)
      decreases |s| - m
    {
      SuffixNodes(s, m);
      RingNext(left);
      visited := visited + [pos.entry];
      ListDel(pos, left, 1);
      m := m + 1;
      left := [head] + s[m..];
      RingNext(left);
      pos := safe;
      safe := pos.next;
    }
    RingNext(left);
    assert left == [head];
  }

  lemma RingNext<T>(s: seq<ListHead<T>>)
    requires Ring(s)
    ensures |s| > 0 && s[0].next == s[Succ(0, |s|)]
    ensures |s| > 1 ==> s[1].next == s[Succ(1, |s|)] && s[1] != s[0]
    ensures |s| == 1 ==> Entries(s) == []
    ensures forall i | 0 <= i < |s| :: s[i].next != null
  {
  }

  /** Taking the first node off a ring that is the head and a suffix of `s`. */
  lemma SuffixNodes<T>(s: seq<ListHead<T>>, m: nat)
    requires 1 <= m <= |s|
    ensures forall n | n in [s[0]] + s[m..] :: n in s
    ensures m < |s| ==>
      var left, rest := [s[0]] + s[m..], [s[0]] + s[m + 1..];
      rest == left[..1] + left[2..] && Entries(left) == [left[1].entry] + Entries(rest)
  {
  }
}
