/**
 * The allocator wrapper of zmalloc.c, in its build without a native
 * allocation-size query: every block carries a size_t prefix recording the
 * size asked for, and a process-wide counter `used_memory` accumulates the
 * bytes handed out, prefixes included.
 */
module Zmalloc {
  import opened Common

  /** `sizeof(size_t)` on the LP64 platforms the code targets. */
  const PREFIX_SIZE: nat := 8

  /** The largest `size_t`. */
  const SIZE_MAX: nat := UINT64_MODULUS - 1

  /** The null pointer; no block is ever placed there. */
  const NULL: nat := 0

  /** The heap bytes a set of live blocks accounts for: each block's recorded size plus its prefix. */
  ghost function Footprint(blocks: map<nat, seq<byte>>): nat
    decreases |blocks.Keys|
  {
    if blocks.Keys == {} then 0
    else
      var p :| p in blocks.Keys;
      |blocks[p]| + PREFIX_SIZE + Footprint(blocks - {p})
  }

  /** The footprint does not depend on the order the blocks are summed in. */
  lemma {:induction false} FootprintRemove(blocks: map<nat, seq<byte>>, p: nat)
    requires p in blocks
    ensures Footprint(blocks) == |blocks[p]| + PREFIX_SIZE + Footprint(blocks - {p})
    decreases |blocks.Keys|
  {
    var q :| q in blocks.Keys && Footprint(blocks) == |blocks[q]| + PREFIX_SIZE + Footprint(blocks - {q});
    if q != p {
      var both := blocks - {q} - {p};
      assert blocks - {p} - {q} == both;
      assert (blocks - {q}).Keys < blocks.Keys;
      assert (blocks - {p}).Keys < blocks.Keys;
      FootprintRemove(blocks - {q}, p);
      FootprintRemove(blocks - {p}, q);
    }
  }

  /** No blocks, no heap bytes. */
  lemma FootprintEmpty()
    ensures Footprint(map[]) == 0
  {
  }

  /** Adding a block adds its size and its prefix. */
  lemma FootprintAdd(blocks: map<nat, seq<byte>>, p: nat, data: seq<byte>)
    requires p !in blocks
    ensures Footprint(blocks[p := data]) == Footprint(blocks) + |data| + PREFIX_SIZE
  {
    FootprintRemove(blocks[p := data], p);
    assert blocks[p := data] - {p} == blocks;
  }

  /** Replacing a block's contents changes the footprint by the change in its size. */
  lemma FootprintReplace(blocks: map<nat, seq<byte>>, p: nat, data: seq<byte>)
    requires p in blocks
    ensures Footprint(blocks[p := data]) + |blocks[p]| == Footprint(blocks) + |data|
  {
    FootprintRemove(blocks, p);
    FootprintRemove(blocks[p := data], p);
    assert blocks[p := data] - {p} == blocks - {p};
  }

  /** Freeing a block gives back its size and its prefix. */
  lemma FootprintFree(blocks: map<nat, seq<byte>>, p: nat)
    requires p in blocks
    ensures Footprint(blocks - {p}) + |blocks[p]| + PREFIX_SIZE == Footprint(blocks)
  {
    FootprintRemove(blocks, p);
  }

  /** Freshly allocated bytes hold some value: every length has contents. */
  lemma SomeBytes(n: nat)
    ensures exists s: seq<byte> :: |s| == n
  {
    var zeros: seq<byte> := seq(n, _ => 0);
    assert |zeros| == n;
  }

  /** `strlen`: the number of bytes before the first NUL of a C string. */
  function Strlen(s: seq<byte>): (n: nat)
    requires 0 in s
    ensures n < |s| && s[n] == 0
    ensures forall i :: 0 <= i < n ==> s[i] != 0
  {
    if s[0] == 0 then 0 else Strlen(s[1..]) + 1
  }

  /** The bytes of a block after the store of `b` at offset `i`. */
  function Poke(data: seq<byte>, i: nat, b: byte): (r: seq<byte>)
    requires i < |data|
    ensures |r| == |data| && r[i] == b
    ensures forall j :: 0 <= j < |data| && j != i ==> r[j] == data[j]
  {
    data[..i] + [b] + data[i + 1..]
  }

  /**
   * The request `malloc` and `realloc` receive for a block of `size` bytes: the
   * `size_t` sum `size + PREFIX_SIZE`, which wraps past `SIZE_MAX`.
   */
  function MallocRequest(size: nat): (n: nat)
    requires size <= SIZE_MAX
    ensures n < UINT64_MODULUS
    ensures size + PREFIX_SIZE <= SIZE_MAX ==> n == size + PREFIX_SIZE
  {
    (size + PREFIX_SIZE) % UINT64_MODULUS
  }

  /**
   * A request within `PREFIX_SIZE` of `SIZE_MAX` wraps: the block the C library
   * is asked for is smaller than the prefix alone, although the prefix then
   * records the full size and the caller is handed `size` usable bytes.
   */
  lemma MallocRequestWraps()
    ensures MallocRequest(SIZE_MAX - 3) == 4
    ensures MallocRequest(SIZE_MAX - 3) < PREFIX_SIZE
  {
  }

  /**
   * The heap as the wrapper sees it: the live blocks, each by the address handed
   * to the caller (just past its prefix), with their contents of exactly the
   * recorded size; and the `used_memory` counter.
   */
  class Heap {
    /** `used_memory`. */
    var usedMemory: nat
    /** The live blocks: address handed out to the contents of the block. */
    var blocks: map<nat, seq<byte>>
    /** A bound on the addresses handed out so far; the C library's choice of address is not modelled. */
    var top: nat

    ghost predicate Valid()
      reads this
    {
      && NULL !in blocks && top > NULL
      && (forall p :: p in blocks ==> p < top)
      && usedMemory == Footprint(blocks)
    }

    /** The counter starts at zero, with nothing allocated. */
    constructor ()
      ensures Valid() && blocks == map[] && usedMemory == 0
    {
      usedMemory := 0;
      blocks := map[];
      top := 1;
      new;
      FootprintEmpty();
    }

    /**
     * `zmalloc`: a block of `size` bytes whose contents are unspecified. The
     * counter grows by the size and the prefix. The request must fit in a
     * `size_t` with its prefix (see `MallocRequestWraps` for what the code does
     * otherwise); a failed allocation aborts the process and is not modelled.
     */
    method Malloc(size: nat) returns (p: nat)
      requires Valid()
      requires size + PREFIX_SIZE <= SIZE_MAX
      modifies this
      ensures Valid()
      ensures p != NULL && p !in old(blocks)
      ensures p in blocks && |blocks[p]| == size
      ensures blocks - {p} == old(blocks)
      ensures usedMemory == old(usedMemory) + size + PREFIX_SIZE
    {
      SomeBytes(size);
      var contents: seq<byte> :| |contents| == size;
      p := top;
      FootprintAdd(blocks, p, contents);
      blocks := blocks[p := contents];
      top := top + 1;
      usedMemory := usedMemory + size + PREFIX_SIZE;
      assert blocks - {p} == old(blocks);
    }

    /**
     * `zrealloc`: NULL behaves as `zmalloc`. Otherwise the block is resized to
     * `size` bytes, keeping the common prefix of its contents; its recorded size
     * becomes `size` and the counter moves by the difference of the sizes. The
     * block may move; the model always gives it a new address.
     */
    method Realloc(ptr: nat, size: nat) returns (p: nat)
      requires Valid()
      requires ptr == NULL || ptr in blocks
      requires size + PREFIX_SIZE <= SIZE_MAX
      modifies this
      ensures Valid()
      ensures p != NULL && p !in old(blocks) && p in blocks && |blocks[p]| == size
      ensures ptr == NULL ==> blocks - {p} == old(blocks) && usedMemory == old(usedMemory) + size + PREFIX_SIZE
      ensures ptr != NULL ==>
        && blocks - {p} == old(blocks) - {ptr}
        && usedMemory + |old(blocks)[ptr]| == old(usedMemory) + size
        && var keep := if size < |old(blocks)[ptr]| then size else |old(blocks)[ptr]|;
           blocks[p][..keep] == old(blocks)[ptr][..keep]
    {
      if ptr == NULL {
        p := Malloc(size);
        return;
      }
      var prev := blocks[ptr];
      var keep := if size < |prev| then size else |prev|;
      SomeBytes(size - keep);
      var tail: seq<byte> :| |tail| == size - keep;
      var contents := prev[..keep] + tail;
      p := top;
      FootprintFree(blocks, ptr);
      FootprintAdd(blocks - {ptr}, p, contents);
      blocks := (blocks - {ptr})[p := contents];
      top := top + 1;
      usedMemory := usedMemory - |prev| + size;
      assert blocks - {p} == old(blocks) - {ptr};
      assert blocks[p][..keep] == prev[..keep];
    }

    /** `zfree`: NULL is ignored; otherwise the block goes and the counter drops by its size and prefix. */
    method Free(ptr: nat)
      requires Valid()
      requires ptr == NULL || ptr in blocks
      modifies this
      ensures Valid()
      ensures ptr == NULL ==> blocks == old(blocks) && usedMemory == old(usedMemory)
      ensures ptr != NULL ==> blocks == old(blocks) - {ptr} && usedMemory + |old(blocks)[ptr]| + PREFIX_SIZE == old(usedMemory)
    {
      if ptr == NULL {
        return;
      }
      var oldsize := |blocks[ptr]|;
      FootprintFree(blocks, ptr);
      blocks := blocks - {ptr};
      usedMemory := usedMemory - (oldsize + PREFIX_SIZE);
    }

    /** The store `p[i] = b` into a live block; its size and the counter are unchanged. */
    method Store(p: nat, i: nat, b: byte)
      requires Valid() && p in blocks && i < |blocks[p]|
      modifies this
      ensures Valid()
      ensures blocks == old(blocks)[p := Poke(old(blocks)[p], i, b)]
      ensures usedMemory == old(usedMemory)
    {
      FootprintReplace(blocks, p, Poke(blocks[p], i, b));
      blocks := blocks[p := Poke(blocks[p], i, b)];
    }

    /**
     * `zstrdup`: a fresh block of `strlen(s) + 1` bytes holding a copy of the C
     * string `s`, terminator included.
     */
    method Strdup(s: seq<byte>) returns (p: nat)
      requires Valid()
      requires 0 in s
      requires |s| + PREFIX_SIZE <= SIZE_MAX
      modifies this
      ensures Valid()
      ensures p != NULL && p !in old(blocks) && p in blocks && blocks - {p} == old(blocks)
      ensures blocks[p] == s[..Strlen(s) + 1]
      ensures blocks[p][|blocks[p]| - 1] == 0 && 0 !in blocks[p][..|blocks[p]| - 1]
      ensures usedMemory == old(usedMemory) + Strlen(s) + 1 + PREFIX_SIZE
    {
      var l := Strlen(s) + 1;
      p := Malloc(l);
      // memcpy(p, s, l)
      FootprintReplace(blocks, p, s[..l]);
      blocks := blocks[p := s[..l]];
      assert blocks - {p} == old(blocks);
    }
  }
}
