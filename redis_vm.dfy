/**
 * The virtual-memory bookkeeping of redis.c, on values: the swap-page bitmap,
 * the three queues of threaded I/O jobs, and the effect on them and on the
 * objects of releasing a job (`freeIOJob`), of cancelling the job pending on
 * a key (`vmCancelThreadedIOJob`), and of `decrRefCount` in all its paths.
 */
module RedisVm {
  import opened Common
  import opened Zmalloc
  import opened RedisObject

  // ---------------------------------------------------------------- the page bitmap

  /** The mask `1 << bit` of one page inside its bitmap byte. */
  function Bit(k: nat): (b: bv8)
    requires k < 8
  {
    (1 as bv8) << k
  }

  /** `vmFreePage`: page `p` is free when bit `p & 7` of byte `p / 8` is clear. */
  predicate PageFree(bm: seq<bv8>, page: nat)
    requires page < 8 * |bm|
  {
    bm[page / 8] & Bit(page % 8) == 0
  }

  /** The bitmap after `vmMarkPageFree(page)`: that byte with that bit cleared. */
  function ClearPage(bm: seq<bv8>, page: nat): (r: seq<bv8>)
    requires page < 8 * |bm|
    ensures |r| == |bm|
  {
    bm[page / 8 := bm[page / 8] & !Bit(page % 8)]
  }

  lemma BitClear(x: bv8, a: nat, b: nat)
    requires a < 8 && b < 8
    ensures (x & !Bit(a)) & Bit(b) == 0 <==> a == b || x & Bit(b) == 0
  {
  }

  /** Clearing one page frees that page and changes no other page. */
  lemma ClearPageEffect(bm: seq<bv8>, page: nat, q: nat)
    requires page < 8 * |bm| && q < 8 * |bm|
    ensures PageFree(ClearPage(bm, page), q) <==> q == page || PageFree(bm, q)
  {
    BitClear(bm[page / 8], page % 8, q % 8);
  }

  /** The pages `page .. page + count - 1` lie in the bitmap and are all in use, as `vmMarkPageFree` asserts of each. */
  predicate PagesUsed(bm: seq<bv8>, page: int, count: int)
  {
    count <= 0 ||
    (0 <= page && page + count <= 8 * |bm| && forall q :: page <= q < page + count ==> !PageFree(bm, q))
  }

  /** The bitmap after clearing the first `count` pages from `page`, one at a time in order. */
  function ClearPages(bm: seq<bv8>, page: nat, count: nat): (r: seq<bv8>)
    requires page + count <= 8 * |bm|
    ensures |r| == |bm|
    decreases count
  {
    if count == 0 then bm else ClearPage(ClearPages(bm, page, count - 1), page + count - 1)
  }

  /** Clearing a run of pages frees exactly that run and leaves every other page as it was. */
  lemma {:induction false} ClearPagesEffect(bm: seq<bv8>, page: nat, count: nat, q: nat)
    requires page + count <= 8 * |bm| && q < 8 * |bm|
    ensures PageFree(ClearPages(bm, page, count), q) <==> (page <= q < page + count || PageFree(bm, q))
  {
    if count > 0 {
      ClearPagesEffect(bm, page, count - 1, q);
      ClearPageEffect(ClearPages(bm, page, count - 1), page + count - 1, q);
    }
  }

  /** The bitmap after `vmMarkPagesFree(page, count)`; a count of zero or less marks nothing. */
  function FreePages(bm: seq<bv8>, page: int, count: int): (r: seq<bv8>)
    requires PagesUsed(bm, page, count)
    ensures |r| == |bm|
  {
    if count <= 0 then bm else ClearPages(bm, page, count)
  }

  // ---------------------------------------------------------------- I/O jobs

  const REDIS_IOJOB_LOAD: int := 0
  const REDIS_IOJOB_PREPARE_SWAP: int := 1
  const REDIS_IOJOB_DO_SWAP: int := 2

  /**
   * `iojob`: its type, the key and value objects (NULL is 0), the swap pages,
   * the cancellation flag, and the address of the job's own heap block.
   */
  datatype Job = Job(jobType: int, key: nat, val: nat, page: int, pages: int, canceled: bool, addr: nat)

  /**
   * The state the VM code works on: the objects, the queues of new, in-progress
   * and finished jobs, the page bitmap, and the counters `vm_stats_used_pages`
   * and `vm_stats_swapped_objects` (unsigned 64-bit).
   */
  datatype VmState = VmState(obj: ObjState, newJobs: seq<Job>, processing: seq<Job>, processed: seq<Job>,
                             bitmap: seq<bv8>, usedPages: nat, swappedObjects: nat)

  /** The three queues in the order the cancel search visits them. */
  function Queue(s: VmState, i: nat): seq<Job>
    requires i < 3
  {
    if i == 0 then s.newJobs else if i == 1 then s.processing else s.processed
  }

  /** `vmMarkPagesFree` on the state: the pages are cleared and the used-page counter drops by `count`. */
  function MarkPagesFree(s: VmState, page: int, count: int): VmState
    requires PagesUsed(s.bitmap, page, count)
  {
    s.(bitmap := FreePages(s.bitmap, page, count), usedPages := SubU64(s.usedPages, count))
  }

  /** The jobs not flagged as cancelled. */
  function Active(q: seq<Job>): nat
  {
    if q == [] then 0 else (if q[0].canceled then 0 else 1) + Active(q[1..])
  }

  /** All jobs that are still live, in the three queues. */
  function ActiveJobs(s: VmState): nat
  {
    Active(s.newJobs) + Active(s.processing) + Active(s.processed)
  }

  lemma {:induction false} ActiveAppend(a: seq<Job>, b: seq<Job>)
    ensures Active(a + b) == Active(a) + Active(b)
  {
    if a == [] {
      assert a + b == b;
    } else {
      assert (a + b)[1..] == a[1..] + b;
      ActiveAppend(a[1..], b);
    }
  }

  /** `listDelNode` on the list of jobs. */
  function RemoveAt(q: seq<Job>, k: nat): (r: seq<Job>)
    requires k < |q|
    ensures |r| == |q| - 1
  {
    q[..k] + q[k + 1..]
  }

  /** Removing a live job, or flagging it as cancelled, leaves one live job fewer. */
  lemma RetireOne(q: seq<Job>, k: nat)
    requires k < |q| && !q[k].canceled
    ensures Active(RemoveAt(q, k)) == Active(q) - 1
    ensures Active(q[k := q[k].(canceled := true)]) == Active(q) - 1
  {
    var c := q[k].(canceled := true);
    assert q == q[..k] + ([q[k]] + q[k + 1..]);
    assert q[k := c] == q[..k] + ([c] + q[k + 1..]);
    ActiveAppend(q[..k], [q[k]] + q[k + 1..]);
    ActiveAppend(q[..k], [c] + q[k + 1..]);
    ActiveAppend([q[k]], q[k + 1..]);
    ActiveAppend([c], q[k + 1..]);
    ActiveAppend(q[..k], q[k + 1..]);
  }

  /** Every live job of a queue names a live string object as its key, so that it can be compared. */
  predicate KeysComparable(objects: map<nat, RObj>, q: seq<Job>)
  {
    forall k :: 0 <= k < |q| && !q[k].canceled ==> q[k].key in objects && IsStringObject(objects[q[k].key])
  }

  /** A job the cancel search stops at for `o`: live, with a key that compares equal to `o`. */
  predicate Matches(objects: map<nat, RObj>, job: Job, o: nat)
    requires o in objects && IsStringObject(objects[o])
    requires !job.canceled ==> job.key in objects && IsStringObject(objects[job.key])
  {
    !job.canceled && CompareStringObjects(objects, job.key, o) == 0
  }

  /** The walk of one queue: the position of its first job that matches `o`. */
  function FindJob(objects: map<nat, RObj>, q: seq<Job>, o: nat): (r: Option<nat>)
    requires o in objects && IsStringObject(objects[o]) && KeysComparable(objects, q)
    ensures r.Some? ==> r.value < |q| && Matches(objects, q[r.value], o)
    ensures forall k :: 0 <= k < |q| && (r.Some? ==> k < r.value) ==> !Matches(objects, q[k], o)
  {
    if q == [] then None
    else if Matches(objects, q[0], o) then Some(0)
    else
      var rest := FindJob(objects, q[1..], o);
      if rest.Some? then Some(rest.value + 1) else None
  }

  /** Where a job was found: the queue (0 new, 1 processing, 2 processed) and the position in it. */
  datatype Location = Location(queue: nat, index: nat)

  /** The cancel search can compare `o` against the live jobs of all queues. */
  predicate Comparable(s: VmState, o: nat)
  {
    && o in s.obj.objects && IsStringObject(s.obj.objects[o])
    && KeysComparable(s.obj.objects, s.newJobs)
    && KeysComparable(s.obj.objects, s.processing)
    && KeysComparable(s.obj.objects, s.processed)
  }

  /** The cancel search: the first matching job, in the new, then the processing, then the processed queue. */
  function Locate(s: VmState, o: nat): (r: Option<Location>)
    requires Comparable(s, o)
    ensures r.Some? ==> r.value.queue < 3 && FindJob(s.obj.objects, Queue(s, r.value.queue), o) == Some(r.value.index)
    ensures r.Some? ==> forall i :: 0 <= i < r.value.queue ==> FindJob(s.obj.objects, Queue(s, i), o).None?
    ensures r.None? <==> forall i :: 0 <= i < 3 ==> FindJob(s.obj.objects, Queue(s, i), o).None?
  {
    var a := FindJob(s.obj.objects, s.newJobs, o);
    if a.Some? then Some(Location(0, a.value))
    else
      var b := FindJob(s.obj.objects, s.processing, o);
      if b.Some? then Some(Location(1, b.value))
      else
        var c := FindJob(s.obj.objects, s.processed, o);
        if c.Some? then Some(Location(2, c.value)) else None
  }

  /** The job at a location the search returned. */
  function JobAt(s: VmState, o: nat): (job: Job)
    requires Comparable(s, o) && Locate(s, o).Some?
    ensures !job.canceled && job.key in s.obj.objects && IsStringObject(s.obj.objects[job.key])
    ensures Matches(s.obj.objects, job, o)
  {
    var loc := Locate(s, o).value;
    var q := Queue(s, loc.queue);
    assert KeysComparable(s.obj.objects, q);
    q[loc.index]
  }

  // ---------------------------------------------------------------- freeIOJob

  /** `freeIOJob` drops the job's value only for the three job types that carry one, and only when it is set. */
  predicate ReleasesVal(job: Job)
  {
    && (job.jobType == REDIS_IOJOB_LOAD || job.jobType == REDIS_IOJOB_PREPARE_SWAP || job.jobType == REDIS_IOJOB_DO_SWAP)
    && job.val != NULL
  }

  /**
   * A reference to `obj` can be dropped on the resident path of `decrRefCount`
   * without cancelling a job: the object is not on disk and, if this is its
   * last reference, it is not being swapped out and has a destructor.
   */
  predicate ResidentDrop(vm: bool, obj: RObj)
  {
    && !(vm && (obj.storage == REDIS_VM_SWAPPED || obj.storage == REDIS_VM_LOADING))
    && (obj.refcount == 1 ==> CanDispatch(obj) && !(vm && obj.storage == REDIS_VM_SWAPPING))
  }

  /** A reference to `o` that the resident path can drop. */
  predicate Droppable(vm: bool, s: VmState, o: nat)
  {
    o in s.obj.objects && ResidentDrop(vm, s.obj.objects[o])
  }

  /** The first step of `freeIOJob`: drop the value, when the job carries one. */
  function AfterVal(vm: bool, s: VmState, job: Job): VmState
    requires ReleasesVal(job) ==> Droppable(vm, s, job.val)
  {
    if ReleasesVal(job) then s.(obj := DecrResident(s.obj, job.val)) else s
  }

  /**
   * What `freeIOJob` needs: its references can be dropped in turn, and its own
   * block is still live and is not an object header.
   */
  predicate FreeJobOk(vm: bool, s: VmState, job: Job)
  {
    && (ReleasesVal(job) ==> Droppable(vm, s, job.val))
    && var s1 := AfterVal(vm, s, job);
       && Droppable(vm, s1, job.key)
       && var o2 := DecrResident(s1.obj, job.key);
          job.addr in o2.blocks && job.addr !in o2.objects && job.addr !in o2.freelist
  }

  /** `freeIOJob`: drop the value, then the key, then free the job's block. */
  function FreeJob(vm: bool, s: VmState, job: Job): (r: VmState)
    requires FreeJobOk(vm, s, job)
  {
    var s1 := AfterVal(vm, s, job);
    var o2 := DecrResident(s1.obj, job.key);
    s1.(obj := o2.(blocks := o2.blocks - {job.addr}))
  }

  /** `freeIOJob` touches only the objects: no queue, page or counter changes. */
  lemma FreeJobTouchesOnlyObjects(vm: bool, s: VmState, job: Job)
    requires FreeJobOk(vm, s, job)
    ensures var r := FreeJob(vm, s, job);
      && r.newJobs == s.newJobs && r.processing == s.processing && r.processed == s.processed
      && r.bitmap == s.bitmap && r.usedPages == s.usedPages && r.swappedObjects == s.swappedObjects
      && r.obj.blocks <= s.obj.blocks - {job.addr}
  {
  }

  // ---------------------------------------------------------------- vmCancelThreadedIOJob

  /** The storage a cancelled key returns to: a load undone leaves it swapped, a swap undone leaves it resident. */
  function RollBack(storage: int): (r: int)
    ensures storage == REDIS_VM_LOADING ==> r == REDIS_VM_SWAPPED
    ensures storage == REDIS_VM_SWAPPING ==> r == REDIS_VM_MEMORY
  {
    if storage == REDIS_VM_LOADING then REDIS_VM_SWAPPED
    else if storage == REDIS_VM_SWAPPING then REDIS_VM_MEMORY
    else storage
  }

  /** Whether the cancel frees the job's swap pages: a swap that is not running. */
  predicate FreesPages(s: VmState, o: nat)
    requires Comparable(s, o) && Locate(s, o).Some?
  {
    Locate(s, o).value.queue != 1 && JobAt(s, o).jobType == REDIS_IOJOB_DO_SWAP
  }

  /** The state after the pages of the cancelled job are freed, when they are. */
  function AfterPages(s: VmState, o: nat): VmState
    requires Comparable(s, o) && Locate(s, o).Some?
    requires FreesPages(s, o) ==> PagesUsed(s.bitmap, JobAt(s, o).page, JobAt(s, o).pages)
  {
    if FreesPages(s, o) then MarkPagesFree(s, JobAt(s, o).page, JobAt(s, o).pages) else s
  }

  /**
   * What `vmCancelThreadedIOJob(o)` needs: `o` is loading or swapping (its
   * assertion), a live job matches it (the search never falls through), the
   * first match is not being processed (the wait for the I/O thread is not
   * modelled), the pages it frees are in use, the job a new-queue match frees
   * can be freed, and `o` outlives that.
   */
  predicate CancelOk(vm: bool, s: VmState, o: nat)
  {
    && Comparable(s, o)
    && (s.obj.objects[o].storage == REDIS_VM_LOADING || s.obj.objects[o].storage == REDIS_VM_SWAPPING)
    && Locate(s, o).Some? && Locate(s, o).value.queue != 1
    && (FreesPages(s, o) ==> PagesUsed(s.bitmap, JobAt(s, o).page, JobAt(s, o).pages))
    && (Locate(s, o).value.queue == 0 ==>
          var s1 := AfterPages(s, o);
          && FreeJobOk(vm, s1, JobAt(s, o))
          && o in FreeJob(vm, s1, JobAt(s, o)).obj.objects)
  }

  /**
   * `vmCancelThreadedIOJob`: for the first matching job, free its pages if it is
   * a swap not in progress; free and unlink it from the new queue, or flag it in
   * the processed queue; then undo `o`'s pending storage state.
   */
  function CancelSpec(vm: bool, s: VmState, o: nat): (r: VmState)
    requires CancelOk(vm, s, o)
    ensures o in r.obj.objects
  {
    RollBackKey(RetireJob(vm, s, o), o)
  }

  /** The first part of the cancel: free the pages if due, then unlink and free, or flag, the job. */
  function RetireJob(vm: bool, s: VmState, o: nat): (r: VmState)
    requires CancelOk(vm, s, o)
    ensures o in r.obj.objects
  {
    var loc := Locate(s, o).value;
    var job := JobAt(s, o);
    var s1 := AfterPages(s, o);
    if loc.queue == 0 then FreeJob(vm, s1, job).(newJobs := RemoveAt(s1.newJobs, loc.index))
    else s1.(processed := s1.processed[loc.index := job.(canceled := true)])
  }

  /** The last part of the cancel: `o`'s storage state is rolled back. */
  function RollBackKey(s: VmState, o: nat): VmState
    requires o in s.obj.objects
  {
    var x := s.obj.objects[o];
    s.(obj := s.obj.(objects := s.obj.objects[o := x.(storage := RollBack(x.storage))]))
  }

  /**
   * The cancel retires exactly one live job; a new-queue match leaves the queue,
   * a processed-queue match stays, flagged; the running jobs are not touched;
   * and the pages of a cancelled swap become free with the counter lowered.
   */
  lemma CancelEffect(vm: bool, s: VmState, o: nat)
    requires CancelOk(vm, s, o)
    ensures var r := CancelSpec(vm, s, o);
      var loc := Locate(s, o).value;
      var job := JobAt(s, o);
      && ActiveJobs(r) == ActiveJobs(s) - 1
      && r.processing == s.processing
      && (loc.queue == 0 ==> r.newJobs == RemoveAt(s.newJobs, loc.index) && r.processed == s.processed)
      && (loc.queue == 2 ==> r.newJobs == s.newJobs && r.processed == s.processed[loc.index := job.(canceled := true)])
      && (FreesPages(s, o) ==> r.bitmap == FreePages(s.bitmap, job.page, job.pages) && r.usedPages == SubU64(s.usedPages, job.pages))
      && (!FreesPages(s, o) ==> r.bitmap == s.bitmap && r.usedPages == s.usedPages)
  {
    var loc := Locate(s, o).value;
    RetireOne(Queue(s, loc.queue), loc.index);
  }

  /** A release of any object leaves every surviving object as it was, its count aside. */
  lemma DecrResidentKeeps(s: ObjState, p: nat, o: nat)
    requires p in s.objects && (s.objects[p].refcount == 1 ==> CanDispatch(s.objects[p]))
    requires o in s.objects && o in DecrResident(s, p).objects
    ensures DecrResident(s, p).objects[o].(refcount := s.objects[o].refcount) == s.objects[o]
  {
  }

  /** `freeIOJob` leaves every surviving object as it was, its count aside. */
  lemma FreeJobKeeps(vm: bool, s: VmState, job: Job, o: nat)
    requires FreeJobOk(vm, s, job) && o in s.obj.objects && o in FreeJob(vm, s, job).obj.objects
    ensures FreeJob(vm, s, job).obj.objects[o].(refcount := s.obj.objects[o].refcount) == s.obj.objects[o]
  {
    var s1 := AfterVal(vm, s, job);
    assert FreeJob(vm, s, job).obj.objects == DecrResident(s1.obj, job.key).objects;
    assert o in s1.obj.objects;
    DecrResidentKeeps(s1.obj, job.key, o);
    if ReleasesVal(job) {
      DecrResidentKeeps(s.obj, job.val, o);
    }
  }

  /** After the cancel, `o` is in its rolled-back state, its other fields (its count aside) as they were. */
  lemma CancelRollsBack(vm: bool, s: VmState, o: nat)
    requires CancelOk(vm, s, o)
    ensures var x := CancelSpec(vm, s, o).obj.objects[o];
      var y := s.obj.objects[o];
      && x.storage == RollBack(y.storage)
      && x.(refcount := y.refcount) == y.(storage := x.storage)
  {
    var loc := Locate(s, o).value;
    var s1 := AfterPages(s, o);
    assert s1.obj == s.obj;
    if loc.queue == 0 {
      FreeJobKeeps(vm, s1, JobAt(s, o), o);
    }
  }

  // ---------------------------------------------------------------- decrRefCount

  /** A key whose value is on disk or coming back from it. */
  predicate OnDisk(vm: bool, obj: RObj)
  {
    vm && (obj.storage == REDIS_VM_SWAPPED || obj.storage == REDIS_VM_LOADING)
  }

  /** The state with `o`'s count lowered by one. */
  function Dropped(s: VmState, o: nat): VmState
    requires o in s.obj.objects
  {
    var x := s.obj.objects[o];
    s.(obj := s.obj.(objects := s.obj.objects[o := x.(refcount := x.refcount - 1)]))
  }

  /** The end of a release: the payload destructor `d` runs on `o`, then its header is recycled or freed. */
  function Retire(s: VmState, o: nat, d: Destructor): VmState
    requires o in s.obj.objects
  {
    s.(obj := PutHeader(s.obj.(objects := s.obj.objects - {o}, released := s.obj.released + [Release(o, d)]), o))
  }

  /** The state after the cancel on the on-disk path, when the key is loading. */
  function AfterLoadCancel(vm: bool, s: VmState, o: nat): (r: VmState)
    requires o in s.obj.objects
    requires s.obj.objects[o].storage == REDIS_VM_LOADING ==> CancelOk(vm, s, o)
    ensures o in r.obj.objects
  {
    if s.obj.objects[o].storage == REDIS_VM_LOADING then CancelSpec(vm, s, o) else s
  }

  /**
   * What `decrRefCount(o)` needs: on the on-disk path, the single reference
   * and a string key (its assertions), a cancellable job when loading, and its
   * pages in use; on the resident path, a destructor for the type at zero,
   * and a cancellable job when a swap is pending.
   */
  predicate DecrOk(vm: bool, s: VmState, o: nat)
  {
    && o in s.obj.objects
    && var x := s.obj.objects[o];
    if OnDisk(vm, x) then OnDiskOk(vm, s, o)
    else x.refcount == 1 ==> LastOk(vm, Dropped(s, o), o)
  }

  /** What the on-disk path needs: the single reference and a string key (its assertions), a cancellable load, and the key's pages in use. */
  predicate OnDiskOk(vm: bool, s: VmState, o: nat)
  {
    && o in s.obj.objects
    && var x := s.obj.objects[o];
    && x.refcount == 1 && x.objType == REDIS_STRING
    && (x.storage == REDIS_VM_LOADING ==> CancelOk(vm, s, o))
    && var y := AfterLoadCancel(vm, s, o).obj.objects[o];
       PagesUsed(AfterLoadCancel(vm, s, o).bitmap, y.vmPage, y.vmUsedPages)
  }

  /** What the release of a resident object at zero needs: a destructor for its type, and a cancellable job when a swap is pending. */
  predicate LastOk(vm: bool, s: VmState, o: nat)
  {
    && o in s.obj.objects
    && CanDispatch(s.obj.objects[o])
    && (vm && s.obj.objects[o].storage == REDIS_VM_SWAPPING ==> CancelOk(vm, s, o))
  }

  /**
   * `decrRefCount`. A key on disk (or loading) has its load cancelled, its
   * string freed, its swap pages released, its header recycled, and the
   * swapped-object counter lowered. Otherwise the count drops by one, and at
   * zero a pending swap is cancelled, the type destructor runs and the header
   * is recycled.
   */
  function DecrSpec(vm: bool, s: VmState, o: nat): VmState
    requires DecrOk(vm, s, o)
  {
    var x := s.obj.objects[o];
    if OnDisk(vm, x) then ReleaseOnDisk(vm, s, o)
    else if x.refcount - 1 == 0 then ReleaseLast(vm, Dropped(s, o), o)
    else Dropped(s, o)
  }

  /** The on-disk path of `decrRefCount`. */
  function ReleaseOnDisk(vm: bool, s: VmState, o: nat): VmState
    requires OnDiskOk(vm, s, o)
  {
    var s1 := AfterLoadCancel(vm, s, o);
    var y := s1.obj.objects[o];
    var s2 := Retire(MarkPagesFree(s1, y.vmPage, y.vmUsedPages), o, FreeString);
    s2.(swappedObjects := SubU64(s2.swappedObjects, 1))
  }

  /** The release of a resident object whose count has reached zero. */
  function ReleaseLast(vm: bool, s: VmState, o: nat): VmState
    requires LastOk(vm, s, o)
  {
    var x := s.obj.objects[o];
    var s1 := if vm && x.storage == REDIS_VM_SWAPPING then CancelSpec(vm, s, o) else s;
    Retire(s1, o, TypeDestructor(x))
  }

  /** Where no job is involved, `decrRefCount` is the object-level release `DecrResident`. */
  lemma DecrSpecResident(vm: bool, s: VmState, o: nat)
    requires Droppable(vm, s, o)
    ensures DecrOk(vm, s, o)
    ensures DecrSpec(vm, s, o) == s.(obj := DecrResident(s.obj, o))
  {
    var x := s.obj.objects[o];
    if x.refcount - 1 == 0 {
      assert Dropped(s, o).obj.objects - {o} == s.obj.objects - {o};
    }
  }

  /** With VM on, a reference taken on a resident object and dropped again leaves the state as it was. */
  lemma IncrDecrSpecInverse(vm: bool, s: VmState, o: nat)
    requires o in s.obj.objects && s.obj.objects[o].refcount >= 1
    requires vm ==> s.obj.objects[o].storage == REDIS_VM_MEMORY
    ensures DecrOk(vm, s.(obj := Incr(s.obj, o)), o)
    ensures DecrSpec(vm, s.(obj := Incr(s.obj, o)), o) == s
  {
    DecrSpecResident(vm, s.(obj := Incr(s.obj, o)), o);
    IncrDecrInverse(s.obj, o);
  }

  /**
   * Releasing a key on disk removes it with one `FreeString` call as the last
   * destructor call, lowers the swapped-object counter by one, and frees
   * exactly its swap pages. A swapped key involves no job; a loading key
   * retires exactly one.
   */
  lemma ReleaseOnDiskEffect(vm: bool, s: VmState, o: nat)
    requires OnDiskOk(vm, s, o) && OnDisk(vm, s.obj.objects[o])
    ensures var r := ReleaseOnDisk(vm, s, o);
      var s1 := AfterLoadCancel(vm, s, o);
      var x := s.obj.objects[o];
      && o !in r.obj.objects
      && r.obj.released == s1.obj.released + [Release(o, FreeString)]
      && r.swappedObjects == SubU64(s1.swappedObjects, 1)
      && r.usedPages == SubU64(s1.usedPages, x.vmUsedPages)
      && PagesUsed(s1.bitmap, x.vmPage, x.vmUsedPages)
      && r.bitmap == FreePages(s1.bitmap, x.vmPage, x.vmUsedPages)
      && (x.storage == REDIS_VM_SWAPPED ==> s1 == s)
      && (x.storage == REDIS_VM_LOADING ==> ActiveJobs(r) == ActiveJobs(s) - 1)
  {
    if s.obj.objects[o].storage == REDIS_VM_LOADING {
      CancelEffect(vm, s, o);
      CancelRollsBack(vm, s, o);
    }
  }

  /** Freed pages on the on-disk path: every page of the key's run is free afterwards, and no other page changes. */
  lemma ReleaseOnDiskFreesPages(vm: bool, s: VmState, o: nat, q: nat)
    requires OnDiskOk(vm, s, o) && OnDisk(vm, s.obj.objects[o])
    requires q < 8 * |AfterLoadCancel(vm, s, o).bitmap|
    ensures var x := s.obj.objects[o];
      var bm := ReleaseOnDisk(vm, s, o).bitmap;
      q < 8 * |bm| &&
      (PageFree(bm, q) <==> (x.vmPage <= q < x.vmPage + x.vmUsedPages || PageFree(AfterLoadCancel(vm, s, o).bitmap, q)))
  {
    var x := s.obj.objects[o];
    var s1 := AfterLoadCancel(vm, s, o);
    ReleaseOnDiskEffect(vm, s, o);
    var bm := ReleaseOnDisk(vm, s, o).bitmap;
    assert bm == FreePages(s1.bitmap, x.vmPage, x.vmUsedPages);
    if x.vmUsedPages > 0 {
      ClearPagesEffect(s1.bitmap, x.vmPage, x.vmUsedPages, q);
    }
  }

  // ---------------------------------------------------------------- the object invariant through the VM paths

  lemma InvUpdate(s: ObjState, o: nat, x: RObj)
    requires Inv(s) && o in s.objects
    ensures Inv(s.(objects := s.objects[o := x]))
  {
  }

  lemma RetireInv(s: VmState, o: nat, d: Destructor)
    requires Inv(s.obj) && o in s.obj.objects
    ensures Inv(Retire(s, o, d).obj)
  {
    PutHeaderInv(s.obj.(released := s.obj.released + [Release(o, d)]), o);
  }

  lemma FreeJobInv(vm: bool, s: VmState, job: Job)
    requires Inv(s.obj) && FreeJobOk(vm, s, job)
    ensures Inv(FreeJob(vm, s, job).obj)
  {
    if ReleasesVal(job) {
      DecrResidentInv(s.obj, job.val);
    }
    var s1 := AfterVal(vm, s, job);
    DecrResidentInv(s1.obj, job.key);
  }

  /** The cancel keeps the object invariant. */
  lemma CancelInv(vm: bool, s: VmState, o: nat)
    requires Inv(s.obj) && CancelOk(vm, s, o)
    ensures Inv(CancelSpec(vm, s, o).obj)
  {
    var loc := Locate(s, o).value;
    var s1 := AfterPages(s, o);
    if loc.queue == 0 {
      FreeJobInv(vm, s1, JobAt(s, o));
    }
  }

  lemma ReleaseOnDiskInv(vm: bool, s: VmState, o: nat)
    requires Inv(s.obj) && OnDiskOk(vm, s, o)
    ensures Inv(ReleaseOnDisk(vm, s, o).obj)
  {
    if s.obj.objects[o].storage == REDIS_VM_LOADING {
      CancelInv(vm, s, o);
    }
    var s1 := AfterLoadCancel(vm, s, o);
    var y := s1.obj.objects[o];
    RetireInv(MarkPagesFree(s1, y.vmPage, y.vmUsedPages), o, FreeString);
  }

  lemma ReleaseLastInv(vm: bool, s: VmState, o: nat)
    requires Inv(s.obj) && LastOk(vm, s, o)
    ensures Inv(ReleaseLast(vm, s, o).obj)
  {
    var x := s.obj.objects[o];
    if vm && x.storage == REDIS_VM_SWAPPING {
      CancelInv(vm, s, o);
      RetireInv(CancelSpec(vm, s, o), o, TypeDestructor(x));
    } else {
      RetireInv(s, o, TypeDestructor(x));
    }
  }

  /** `decrRefCount` keeps the object invariant on every path. */
  lemma DecrSpecInv(vm: bool, s: VmState, o: nat)
    requires Inv(s.obj) && DecrOk(vm, s, o)
    ensures Inv(DecrSpec(vm, s, o).obj)
  {
    var x := s.obj.objects[o];
    if OnDisk(vm, x) {
      ReleaseOnDiskInv(vm, s, o);
    } else {
      InvUpdate(s.obj, o, x.(refcount := x.refcount - 1));
      if x.refcount - 1 == 0 {
        ReleaseLastInv(vm, Dropped(s, o), o);
      }
    }
  }
}
