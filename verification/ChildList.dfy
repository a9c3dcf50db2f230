/** The children of a process: the client of the ring list. */
module ChildList {
  import opened RingList

  datatype Child = Child(name: string, pid: nat)

  const NO_CHILD := Child("", 0)

  ghost predicate Distinct(cs: seq<Child>) {
    forall i, j | 0 <= i < j < |cs| :: cs[i].name != cs[j].name && cs[i].pid != cs[j].pid
  }

  class Children {
    const head: ListHead<Child>
    ghost var ring: seq<ListHead<Child>>

    /** The list is a ring, and names and process ids are unique in it. */
    ghost predicate Valid()
      reads this, ring
    {
      Ring(ring) && ring[0] == head && Distinct(Entries(ring))
    }

    ghost function List(): seq<Child>
      reads this
    {
      if |ring| > 0 then Entries(ring) else []
    }

    lemma At(k: nat)
      requires Valid() && k <= |List()|
      ensures |ring| == |List()| + 1 && ring[0] == head && ring[k].next == ring[Succ(k, |ring|)]
      ensures 0 < k ==> ring[k] != head && ring[k].entry == List()[k - 1]
    {
    }

    constructor ()
      ensures Valid() && List() == [] && fresh(ring)
    {
      head := new ListHead(NO_CHILD);
      new;
      ring := [head];
    }

    /** list_for_each with a name test; `i` is the position of the child found, or the number of children. */
    method FindByName(name: string) returns (found: ListHead?<Child>, ghost i: nat)
      requires Valid()
      ensures found == null <==> forall c | c in List() :: c.name != name
      ensures found != null ==> found.entry in List() && found.entry.name == name
      ensures i <= |List()| && (forall k | 0 <= k < i :: List()[k].name != name)
      ensures found == null <==> i == |List()|
      ensures found != null ==> List()[i].name == name && found == ring[i + 1]
    {
      hide Ring, Distinct, List;
      At(0);
      var pos := head.next;
      i := 0;
      while pos != head
        invariant i <= |List()| && pos == ring[if i < |List()| then i + 1 else 0]
        invariant forall k | 0 <= k < i :: List()[k].name != name
        decreases |List()| - i
      {
        At(i + 1);
        if pos.entry.name == name {
          return pos, i;
        }
        i := i + 1;
        pos := pos.next;
      }
      if i < |List()| { At(i + 1); }
      found := null;
    }

    method FindByPid(pid: nat) returns (found: ListHead?<Child>, ghost i: nat)
      requires Valid()
      ensures found == null <==> forall c | c in List() :: c.pid != pid
      ensures found != null ==> found.entry in List() && found.entry.pid == pid
      ensures i <= |List()| && (forall k | 0 <= k < i :: List()[k].pid != pid)
      ensures found == null <==> i == |List()|
      ensures found != null ==> List()[i].pid == pid && found == ring[i + 1]
    {
      hide Ring, Distinct, List;
      At(0);
      var pos := head.next;
      i := 0;
      while pos != head
        invariant i <= |List()| && pos == ring[if i < |List()| then i + 1 else 0]
        invariant forall k | 0 <= k < i :: List()[k].pid != pid
        decreases |List()| - i
      {
        At(i + 1);
        if pos.entry.pid == pid {
          return pos, i;
        }
        i := i + 1;
        pos := pos.next;
      }
      if i < |List()| { At(i + 1); }
      found := null;
    }

    /** Adds a child whose process got `pid`; a name in use is refused, and the list keeps its order of spawning. */
    method Spawn(name: string, pid: nat) returns (ok: bool)
      requires Valid() && forall c | c in List() :: c.pid != pid
      modifies this, ring
      ensures Valid() && fresh(set n | n in ring && n !in old(ring))
      ensures ok <==> forall c | c in old(List()) :: c.name != name
      ensures List() == if ok then old(List()) + [Child(name, pid)] else old(List())
    {
      var found, i := FindByName(name);
      ok := found == null;
      if ok {
        ghost var before := List();
        var node := new ListHead(Child(name, pid));
        ListAddTail(node, head, ring);
        ring := ring + [node];
        assert List() == before + [Child(name, pid)];
      } else {
        assert List()[i] in List();
      }
    }

    /** Takes the child with this process id out of the list, if it is there. */
    method Reap(pid: nat)
      requires Valid()
      modifies this, ring
      ensures Valid() && forall n | n in ring :: n in old(ring)
      ensures forall c :: c in List() <==> c in old(List()) && c.pid != pid
      ensures exists i: nat | i <= |old(List())| ::
        List() == old(List())[..i] + if i < |old(List())| then old(List())[i + 1..] else []
    {
      var node, i := FindByPid(pid);
      if node != null {
        ghost var before := List();
        ListDel(node, ring, i + 1);
        ring := ring[..i + 1] + ring[i + 2..];
        assert List() == before[..i] + before[i + 1..];
        WithoutPid(before, i);
      } else {
        assert List()[..i] == List() && List() == List()[..i] + [];
      }
    }

    /** children_free: every child is visited once, in order, and the list is left empty. */
    method Free() returns (visited: seq<Child>)
      requires Valid()
      modifies this, ring
      ensures Valid() && List() == [] && visited == old(List())
    {
      visited := UnlinkAll(head, ring);
      ring := [head];
    }
  }

  lemma WithoutPid(cs: seq<Child>, i: nat)
    requires i < |cs| && Distinct(cs)
    ensures Distinct(cs[..i] + cs[i + 1..])
    ensures forall c :: c in cs[..i] + cs[i + 1..] <==> c in cs && c.pid != cs[i].pid
  {
  }
}
