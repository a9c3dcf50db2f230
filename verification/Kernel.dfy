/** What the kernel holds on behalf of the process. Each call may fail at will; a release must name something held. */
module Kernel {
  import opened Wrappers
  import opened Words
  import opened PageWindow

  /** Open descriptors and shared memory segments; a shared memory segment has a fixed size. */
  datatype Handle = FileHandle(fd: nat) | ShmHandle(shmid: nat, size: Word)

  /** Outcomes of stat() and access() on a path. */
  datatype FileStatus = FileStatus(exists_: bool, regular: bool, readable: bool, writable: bool)

  class KernelState {
    var handles: set<Handle>
    /** Mapped regions, by the table slot they were mapped for. */
    var mappings: map<nat, Region>
    /** Whether an address was ever forced with MAP_FIXED. */
    var fixedUsed: bool
    /** How often the kernel was asked for something, granted or not. */
    var requests: nat

    constructor ()
      ensures handles == {} && mappings == map[] && !fixedUsed && requests == 0
    {
      handles, mappings, fixedUsed, requests := {}, map[], false, 0;
    }

    method Open() returns (fd: Option<nat>)
      modifies `handles, `requests
      ensures requests == old(requests) + 1
      ensures fd.None? ==> handles == old(handles)
      ensures fd.Some? ==> FileHandle(fd.value) !in old(handles) && handles == old(handles) + {FileHandle(fd.value)}
    {
      requests := requests + 1;
      var n: nat := *;
      if FileHandle(n) in handles {
        return None;
      }
      handles := handles + {FileHandle(n)};
      fd := Some(n);
    }

    method Close(fd: nat)
      requires FileHandle(fd) in handles
      modifies `handles
      ensures handles == old(handles) - {FileHandle(fd)}
    {
      handles := handles - {FileHandle(fd)};
    }

    method ShmGet(size: Word) returns (id: Option<nat>)
      modifies `handles, `requests
      ensures requests == old(requests) + 1
      ensures id.None? ==> handles == old(handles)
      ensures id.Some? ==> 0 < size && (forall h | h in old(handles) && h.ShmHandle? :: h.shmid != id.value)
      ensures id.Some? ==> handles == old(handles) + {ShmHandle(id.value, size)}
    {
      requests := requests + 1;
      var n: nat := *;
      if size == 0 || exists h | h in handles :: h.ShmHandle? && h.shmid == n {
        return None;
      }
      handles := handles + {ShmHandle(n, size)};
      id := Some(n);
    }

    method ShmRemove(id: nat, ghost size: Word)
      requires ShmHandle(id, size) in handles
      requires forall h | h in handles && h.ShmHandle? && h.shmid == id :: h.size == size
      modifies `handles
      ensures handles == old(handles) - {ShmHandle(id, size)}
    {
      handles := set h | h in handles && !(h.ShmHandle? && h.shmid == id);
    }

    predicate Unused(r: Region)
      reads `mappings
    {
      forall k | k in mappings :: Disjoint(mappings[k], r)
    }

    /** Maps `length` bytes for `slot`: at `addr` when `fixed`, else at an aligned address of the kernel's choice. */
    method Map(slot: nat, fixed: bool, addr: nat, length: Word, pagesize: Word) returns (start: Option<nat>)
      requires slot !in mappings && 0 < pagesize
      modifies `mappings, `fixedUsed, `requests
      ensures requests == old(requests) + 1
      ensures fixedUsed == (old(fixedUsed) || fixed)
      ensures start.None? ==> mappings == old(mappings)
      ensures start.Some? ==>
        && 0 < length && start.value + length < W64
        && mappings == old(mappings)[slot := Region(start.value, length)]
        && if fixed then start.value == addr
           else start.value % pagesize == 0 && forall k | k in old(mappings) :: Disjoint(old(mappings)[k], Region(start.value, length))
    {
      requests := requests + 1;
      fixedUsed := fixedUsed || fixed;
      var at: nat := *;
      if fixed {
        at := addr;
      }
      if length == 0 || W64 <= at + length || (!fixed && !(at % pagesize == 0 && Unused(Region(at, length)))) {
        return None;
      }
      var refused: bool := *;
      if refused {
        return None;
      }
      mappings := mappings[slot := Region(at, length)];
      start := Some(at);
    }

    /** munmap() of exactly the region mapped for `slot`. */
    method Unmap(slot: nat, start: nat, length: Word)
      requires slot in mappings && mappings[slot] == Region(start, length)
      modifies `mappings
      ensures mappings == old(mappings) - {slot}
    {
      mappings := mappings - {slot};
    }

    method ShmAttach(slot: nat, id: nat, ghost size: Word, pagesize: Word) returns (start: Option<nat>)
      requires ShmHandle(id, size) in handles && slot !in mappings && 0 < pagesize
      requires forall h | h in handles && h.ShmHandle? && h.shmid == id :: h.size == size
      modifies `mappings, `requests
      ensures requests == old(requests) + 1
      ensures start.None? ==> mappings == old(mappings)
      ensures start.Some? ==>
        && 0 < size && start.value + size < W64
        && mappings == old(mappings)[slot := Region(start.value, size)]
        && start.value % pagesize == 0 && forall k | k in old(mappings) :: Disjoint(old(mappings)[k], Region(start.value, size))
    {
      requests := requests + 1;
      var h :| h in handles && h.ShmHandle? && h.shmid == id;
      var at: nat := *;
      if h.size == 0 || W64 <= at + h.size || at % pagesize != 0 || !Unused(Region(at, h.size)) {
        return None;
      }
      mappings := mappings[slot := Region(at, h.size)];
      start := Some(at);
    }

    method ShmDetach(slot: nat, start: nat)
      requires slot in mappings && mappings[slot].start == start
      modifies `mappings
      ensures mappings == old(mappings) - {slot}
    {
      mappings := mappings - {slot};
    }
  }
}
