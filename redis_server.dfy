/**
 * The part of the `redisServer` global that the object and VM code update in
 * place: the live object headers, the header free list, the payload releases
 * made so far, the three I/O job queues, the swap-page bitmap, the VM
 * counters, and the heap behind them. Every operation is stated against the
 * value-level definition of the same name in `RedisObject` or `RedisVm`.
 */
module RedisServer {
  import opened Common
  import opened Zmalloc
  import opened RedisObject
  import opened RedisVm

  class Server {
    /** `server.vm_enabled`. */
    const vmEnabled: bool
    /** The allocator every header and job comes from. */
    const heap: Heap
    /** `server.vm_bitmap`: one bit per swap page, set when the page is in use. */
    const bitmap: array<bv8>
    /** The live object headers, by address. */
    var objects: map<nat, RObj>
    /** `server.objfreelist`, head first. */
    var freelist: seq<nat>
    /** The payload destructor calls made so far. */
    var released: seq<Release>
    /** `server.io_newjobs`, `server.io_processing` and `server.io_processed`. */
    var newJobs: seq<Job>
    var processing: seq<Job>
    var processed: seq<Job>
    /** `server.vm_stats_used_pages` and `server.vm_stats_swapped_objects`. */
    var usedPages: nat
    var swappedObjects: nat
    /** `server.unixtime`, the cached clock. */
    var unixtime: int

    /** The state as the value-level definitions see it. */
    ghost function Vm(): VmState
      reads this, heap, bitmap
    {
      VmState(ObjState(objects, freelist, heap.blocks.Keys, released), newJobs, processing, processed,
              bitmap[..], usedPages, swappedObjects)
    }

    ghost predicate Valid()
      reads this, heap, bitmap
    {
      && heap.Valid()
      && Inv(Vm().obj)
      && usedPages < UINT64_MODULUS && swappedObjects < UINT64_MODULUS
    }

    /** A server with no objects and no jobs over a given heap and swap bitmap. */
    constructor (vmEnabled: bool, heap: Heap, bitmap: array<bv8>, unixtime: int)
      requires heap.Valid()
      ensures Valid()
      ensures this.vmEnabled == vmEnabled && this.heap == heap && this.bitmap == bitmap && this.unixtime == unixtime
      ensures Vm() == VmState(ObjState(map[], [], heap.blocks.Keys, []), [], [], [], bitmap[..], 0, 0)
    {
      this.vmEnabled := vmEnabled;
      this.heap := heap;
      this.bitmap := bitmap;
      this.unixtime := unixtime;
      objects := map[];
      freelist := [];
      released := [];
      newJobs, processing, processed := [], [], [];
      usedPages, swappedObjects := 0, 0;
    }

    /** The size `createObject` asks the allocator for: the VM part is left off when VM is disabled. */
    function HeaderSize(): (n: nat)
      ensures n + PREFIX_SIZE <= SIZE_MAX
    {
      if vmEnabled then ROBJ_SIZE else ROBJ_SIZE_NO_VM
    }

    /**
     * `createObject`: the free list's head is reused when there is one, and a
     * fresh header is allocated otherwise; it gets the type and payload, raw
     * encoding, one reference and, with VM on, resident storage and the cached
     * clock. Fields the code does not set keep unspecified contents.
     */
    method CreateObject(objType: int, ptr: Payload) returns (o: nat)
      requires Valid()
      modifies this, heap
      ensures Valid()
      ensures o != NULL && o !in old(objects) && o in objects
      ensures objects[o] == NewObject(objType, ptr, vmEnabled, unixtime, objects[o])
      ensures o == NewAddress(old(Vm()).obj, o)
      ensures Vm() == old(Vm()).(obj := Create(old(Vm()).obj, o, objects[o]))
      ensures old(freelist) != [] ==> heap.blocks == old(heap.blocks) && heap.usedMemory == old(heap.usedMemory)
      ensures old(freelist) == [] ==>
        && o !in old(heap.blocks) && heap.blocks - {o} == old(heap.blocks) && |heap.blocks[o]| == HeaderSize()
        && heap.usedMemory == old(heap.usedMemory) + HeaderSize() + PREFIX_SIZE
    {
      ghost var s0 := Vm().obj;
      var leftover: RObj :| true;
      var spare: nat;
      if freelist != [] {
        o := freelist[0];
        freelist := freelist[1..];
        spare := heap.top;
      } else {
        o := heap.Malloc(HeaderSize());
        spare := o;
        assert heap.blocks.Keys == old(heap.blocks).Keys + {o};
      }
      var obj := NewObject(objType, ptr, vmEnabled, unixtime, leftover);
      objects := objects[o := obj];
      CreateInv(s0, spare, obj);
    }

    /** `incrRefCount`: one more reference to a resident object. */
    method IncrRefCount(o: nat)
      requires Valid() && o in objects
      requires vmEnabled ==> objects[o].storage == REDIS_VM_MEMORY
      modifies this
      ensures Valid()
      ensures Vm() == old(Vm()).(obj := Incr(old(Vm()).obj, o))
    {
      objects := objects[o := objects[o].(refcount := objects[o].refcount + 1)];
    }

    /** `vmMarkPagesFree`: the pages `page .. page + count - 1`, all in use, are freed, and the used-page counter drops by `count`. */
    method VmMarkPagesFree(page: int, count: int)
      requires PagesUsed(bitmap[..], page, count)
      modifies this`usedPages, bitmap
      ensures bitmap[..] == FreePages(old(bitmap[..]), page, count)
      ensures usedPages == SubU64(old(usedPages), count)
    {
      MarkRunFree(bitmap, page, count);
      usedPages := SubU64(usedPages, count);
    }

    /** The end of every release: push the header on the free list, or free it when the list is over its bound. */
    method ReleaseHeader(o: nat)
      requires heap.Valid() && o in heap.blocks
      modifies this, heap
      ensures heap.Valid()
      ensures Vm() == old(Vm()).(obj := PutHeader(old(Vm()).obj, o))
    {
      if |freelist| > REDIS_OBJFREELIST_MAX {
        heap.Free(o);
        assert heap.blocks.Keys == old(heap.blocks).Keys - {o};
      } else {
        freelist := [o] + freelist;
      }
    }

    /**
     * `decrRefCount`, on every path: a key on disk (cancelling its load when
     * loading), or a resident object (cancelling its swap when the last
     * reference goes while it is being swapped out).
     */
    method DecrRefCount(o: nat)
      requires Valid() && DecrOk(vmEnabled, Vm(), o)
      modifies this, heap, bitmap
      ensures Valid()
      ensures Vm() == DecrSpec(vmEnabled, old(Vm()), o)
      decreases if Droppable(vmEnabled, Vm(), o) then 0 else 1, 4
    {
      var x := objects[o];
      if vmEnabled && (x.storage == REDIS_VM_SWAPPED || x.storage == REDIS_VM_LOADING) {
        ReleaseOnDisk(o);
        return;
      }
      InvUpdate(Vm().obj, o, x.(refcount := x.refcount - 1));
      objects := objects[o := x.(refcount := x.refcount - 1)];
      if x.refcount - 1 == 0 {
        ReleaseLast(o);
      }
    }

    /**
     * The on-disk path of `decrRefCount`: cancel the load if the key is
     * loading, free its string and its swap pages, recycle its header, and
     * lower the swapped-object counter.
     */
    method ReleaseOnDisk(o: nat)
      requires Valid() && OnDiskOk(vmEnabled, Vm(), o)
      modifies this, heap, bitmap
      ensures Valid()
      ensures Vm() == RedisVm.ReleaseOnDisk(vmEnabled, old(Vm()), o)
      decreases 1, 3
    {
      ghost var s0 := Vm();
      ReleaseOnDiskInv(vmEnabled, s0, o);
      if objects[o].storage == REDIS_VM_LOADING {
        CancelThreadedIOJob(o);
      }
      assert Vm() == AfterLoadCancel(vmEnabled, s0, o);
      released := released + [Release(o, FreeString)];
      var y := objects[o];
      VmMarkPagesFree(y.vmPage, y.vmUsedPages);
      objects := objects - {o};
      ReleaseHeader(o);
      swappedObjects := SubU64(swappedObjects, 1);
    }

    /**
     * The end of `decrRefCount` for a resident object whose count reached
     * zero: cancel its swap if one is pending, run the type destructor, and
     * recycle the header.
     */
    method ReleaseLast(o: nat)
      requires Valid() && LastOk(vmEnabled, Vm(), o)
      modifies this, heap, bitmap
      ensures Valid()
      ensures Vm() == RedisVm.ReleaseLast(vmEnabled, old(Vm()), o)
      decreases if vmEnabled && objects[o].storage == REDIS_VM_SWAPPING then 1 else 0, 3
    {
      ghost var s0 := Vm();
      ReleaseLastInv(vmEnabled, s0, o);
      var x := objects[o];
      if vmEnabled && x.storage == REDIS_VM_SWAPPING {
        CancelThreadedIOJob(o);
      }
      released := released + [Release(o, TypeDestructor(x))];
      objects := objects - {o};
      ReleaseHeader(o);
    }

    /** `freeIOJob`: drop the job's value when it carries one, then its key, then free the job's block. */
    method FreeIOJob(job: Job)
      requires Valid() && FreeJobOk(vmEnabled, Vm(), job)
      modifies this, heap, bitmap
      ensures Valid()
      ensures Vm() == FreeJob(vmEnabled, old(Vm()), job)
      decreases 1, 0
    {
      ghost var s0 := Vm();
      FreeJobInv(vmEnabled, s0, job);
      if (job.jobType == REDIS_IOJOB_PREPARE_SWAP || job.jobType == REDIS_IOJOB_DO_SWAP || job.jobType == REDIS_IOJOB_LOAD)
         && job.val != NULL
      {
        DecrSpecResident(vmEnabled, Vm(), job.val);
        DecrRefCount(job.val);
      }
      ghost var s1 := Vm();
      assert s1 == AfterVal(vmEnabled, s0, job);
      DecrSpecResident(vmEnabled, s1, job.key);
      DecrRefCount(job.key);
      ghost var s2 := Vm();
      assert s2.obj == DecrResident(s1.obj, job.key);
      heap.Free(job.addr);
      assert heap.blocks.Keys == s2.obj.blocks - {job.addr};
      assert Vm() == s2.(obj := s2.obj.(blocks := s2.obj.blocks - {job.addr}));
    }

    /**
     * `vmCancelThreadedIOJob`: find the first live job whose key compares equal
     * to `o`, retire it, and undo `o`'s pending storage state.
     */
    method CancelThreadedIOJob(o: nat)
      requires Valid() && CancelOk(vmEnabled, Vm(), o)
      modifies this, heap, bitmap
      ensures Valid()
      ensures Vm() == CancelSpec(vmEnabled, old(Vm()), o)
      decreases 1, 2
    {
      ghost var s0 := Vm();
      CancelInv(vmEnabled, s0, o);
      var i, k, job := FindJobFor(o);
      assert Vm() == s0;
      RetireMatch(o, i, k, job);
      ghost var s1 := Vm();
      assert s1 == RetireJob(vmEnabled, s0, o);
      RollBackStorage(o);
    }

    /** The end of the cancel: a loading key is swapped out again, a key being swapped out is resident again. */
    method RollBackStorage(o: nat)
      requires o in objects
      modifies this`objects
      ensures Vm() == RollBackKey(old(Vm()), o)
    {
      var x := objects[o];
      if x.storage == REDIS_VM_LOADING {
        objects := objects[o := x.(storage := REDIS_VM_SWAPPED)];
      } else if x.storage == REDIS_VM_SWAPPING {
        objects := objects[o := x.(storage := REDIS_VM_MEMORY)];
      }
    }

    /**
     * The search of the cancel: the new, processing and processed queues in
     * turn, each from its head, skipping cancelled jobs, up to the first job
     * whose key compares equal to `o`. A match must exist: the code asserts
     * as much after the search.
     */
    method FindJobFor(o: nat) returns (i: nat, k: nat, job: Job)
      requires Comparable(Vm(), o) && Locate(Vm(), o).Some?
      ensures Locate(Vm(), o) == Some(Location(i, k))
      ensures job == JobAt(Vm(), o)
    {
      ghost var s0 := Vm();
      i := 0;
      while i < 3
        invariant 0 <= i <= 3
        invariant forall i' :: 0 <= i' < i ==> FindJob(s0.obj.objects, Queue(s0, i'), o).None?
        decreases 3 - i
      {
        var q := if i == 0 then newJobs else if i == 1 then processing else processed;
        assert q == Queue(s0, i);
        var found;
        found, k := ScanQueue(objects, q, o);
        if found {
          job := q[k];
          return;
        }
        i := i + 1;
      }
      assert false;
    }

    /**
     * The body of the cancel once the first match is found at position `k` of
     * queue `i`: free the pages of a swap that is not running, then free and
     * unlink a new job, or flag a processed one.
     */
    method RetireMatch(o: nat, i: nat, k: nat, job: Job)
      requires Valid() && CancelOk(vmEnabled, Vm(), o)
      requires Locate(Vm(), o) == Some(Location(i, k)) && job == JobAt(Vm(), o)
      modifies this, heap, bitmap
      ensures Valid()
      ensures Vm() == RetireJob(vmEnabled, old(Vm()), o)
      decreases 1, 1
    {
      ghost var s0 := Vm();
      if i != 1 && job.jobType == REDIS_IOJOB_DO_SWAP {
        VmMarkPagesFree(job.page, job.pages);
      }
      assert Vm() == AfterPages(s0, o);
      if i == 0 {
        FreeIOJob(job);
        newJobs := RemoveAt(newJobs, k);
      } else {
        processed := processed[k := job.(canceled := true)];
      }
    }

    /**
     * `getDecodedObject`: a raw object gains a reference and is returned
     * itself; an integer-encoded string yields a new raw string object holding
     * its decimal rendering. Either way the result stands for the same string.
     */
    method GetDecodedObject(o: nat) returns (r: nat)
      requires Valid() && o in objects
      requires objects[o].encoding == REDIS_ENCODING_RAW ==> (vmEnabled ==> objects[o].storage == REDIS_VM_MEMORY)
      requires objects[o].encoding != REDIS_ENCODING_RAW ==> IsStringObject(objects[o])
      modifies this, heap
      ensures Valid() && r in objects
      ensures objects[r].encoding == REDIS_ENCODING_RAW
      ensures HasStringPayload(old(objects)[o]) ==> HasStringPayload(objects[r]) && StringValue(objects[r]) == StringValue(old(objects)[o])
      ensures old(objects)[o].encoding == REDIS_ENCODING_RAW ==> r == o && Vm() == old(Vm()).(obj := Incr(old(Vm()).obj, o))
      ensures old(objects)[o].encoding != REDIS_ENCODING_RAW ==>
        && r !in old(objects) && IsStringObject(objects[r]) && objects[r].refcount == 1
        && Vm() == old(Vm()).(obj := Create(old(Vm()).obj, r, objects[r]))
    {
      if objects[o].encoding == REDIS_ENCODING_RAW {
        IncrRefCount(o);
        r := o;
        return;
      }
      var n := objects[o].ptr.n;
      r := CreateObject(REDIS_STRING, Sds(Decimal(n)));
    }

    /** `dictRedisObjectDestructor`: a NULL value (that of a swapped-out key) is skipped; anything else loses a reference. */
    method DictRedisObjectDestructor(val: nat)
      requires Valid() && (val != NULL ==> DecrOk(vmEnabled, Vm(), val))
      modifies this, heap, bitmap
      ensures Valid()
      ensures val == NULL ==> Vm() == old(Vm())
      ensures val != NULL ==> Vm() == DecrSpec(vmEnabled, old(Vm()), val)
    {
      if val == NULL {
        return;
      }
      DecrRefCount(val);
    }
  }

  /** `vmFreePage`: whether the bit of `page` is clear. */
  function VmFreePage(bitmap: array<bv8>, page: nat): (r: bool)
    reads bitmap
    requires page < 8 * bitmap.Length
    ensures r == PageFree(bitmap[..], page)
  {
    var byte := page / 8;
    var bit := page % 8;
    bitmap[byte] & Bit(bit) == 0
  }

  /** `vmMarkPageFree`: the page must be in use; exactly its bit is cleared. */
  method VmMarkPageFree(bitmap: array<bv8>, page: nat)
    requires page < 8 * bitmap.Length && !PageFree(bitmap[..], page)
    modifies bitmap
    ensures bitmap[..] == ClearPage(old(bitmap[..]), page)
  {
    var byte := page / 8;
    var bit := page % 8;
    bitmap[byte] := bitmap[byte] & !Bit(bit);
  }

  /** The loop of `vmMarkPagesFree`: the pages of the run are cleared one by one, from the first. */
  method MarkRunFree(bitmap: array<bv8>, page: int, count: int)
    requires PagesUsed(bitmap[..], page, count)
    modifies bitmap
    ensures bitmap[..] == FreePages(old(bitmap[..]), page, count)
  {
    ghost var b0 := bitmap[..];
    var j := 0;
    while j < count
      invariant count > 0 ==> 0 <= j <= count && bitmap[..] == ClearPages(b0, page, j)
      invariant count <= 0 ==> bitmap[..] == b0
      decreases count - j
    {
      NextPageUsed(b0, page, count, j);
      VmMarkPageFree(bitmap, page + j);
      j := j + 1;
    }
  }

  /** While a run is being cleared, the next page of the run is still in use. */
  lemma NextPageUsed(bm: seq<bv8>, page: int, count: int, j: nat)
    requires PagesUsed(bm, page, count) && j < count
    ensures 0 <= page && !PageFree(ClearPages(bm, page, j), page + j)
    ensures ClearPages(bm, page, j + 1) == ClearPage(ClearPages(bm, page, j), page + j)
  {
    ClearPagesEffect(bm, page, j, page + j);
  }

  /** One queue of the cancel search: walk it from the head, skipping cancelled jobs, to the first job whose key compares equal to `o`. */
  method ScanQueue(objects: map<nat, RObj>, q: seq<Job>, o: nat) returns (found: bool, k: nat)
    requires o in objects && IsStringObject(objects[o]) && KeysComparable(objects, q)
    ensures found <==> FindJob(objects, q, o).Some?
    ensures found ==> FindJob(objects, q, o) == Some(k)
  {
    k := 0;
    while k < |q|
      invariant 0 <= k <= |q|
      invariant forall k' :: 0 <= k' < k ==> !Matches(objects, q[k'], o)
      decreases |q| - k
    {
      var job := q[k];
      if !job.canceled && CompareStringObjects(objects, job.key, o) == 0 {
        FindJobFirst(objects, q, o, k);
        return true, k;
      }
      k := k + 1;
    }
    FindJobNone(objects, q, o);
    return false, k;
  }

  /** A match at `k` after `k` non-matching jobs is the first match of the queue. */
  lemma FindJobFirst(objects: map<nat, RObj>, q: seq<Job>, o: nat, k: nat)
    requires o in objects && IsStringObject(objects[o]) && KeysComparable(objects, q)
    requires k < |q| && Matches(objects, q[k], o)
    requires forall k' :: 0 <= k' < k ==> !Matches(objects, q[k'], o)
    ensures FindJob(objects, q, o) == Some(k)
  {
  }

  /** A queue with no matching job has no first match. */
  lemma FindJobNone(objects: map<nat, RObj>, q: seq<Job>, o: nat)
    requires o in objects && IsStringObject(objects[o]) && KeysComparable(objects, q)
    requires forall k :: 0 <= k < |q| ==> !Matches(objects, q[k], o)
    ensures FindJob(objects, q, o).None?
  {
  }
}
