/** The empty compact map of zipmap.c and the marker bytes of its encoding. */
module Zipmap {
  import opened Common
  import opened Zmalloc

  /** A length byte announcing that a 4-byte length follows. */
  const ZIPMAP_BIGLEN: byte := 253
  /** The marker of a freed entry. */
  const ZIPMAP_EMPTY: byte := 254
  /** The terminator of every zipmap. */
  const ZIPMAP_END: byte := 255

  /** The three markers are pairwise distinct, so a byte names at most one of them. */
  lemma MarkersDistinct()
    ensures ZIPMAP_BIGLEN != ZIPMAP_EMPTY && ZIPMAP_EMPTY != ZIPMAP_END && ZIPMAP_BIGLEN != ZIPMAP_END
    ensures ZIPMAP_BIGLEN < ZIPMAP_EMPTY < ZIPMAP_END
  {
  }

  /** The encoding of the empty zipmap: a zero status byte, then the terminator. */
  function EmptyZipmap(): (zm: seq<byte>)
    ensures |zm| == 2 && zm[0] == 0 && zm[|zm| - 1] == ZIPMAP_END
    ensures ZIPMAP_END !in zm[..|zm| - 1]
  {
    [0, ZIPMAP_END]
  }

  /**
   * `zipmapNew`: a fresh 2-byte block holding the empty zipmap; the heap counter
   * grows by those 2 bytes and their prefix, and no other block changes.
   */
  method ZipmapNew(heap: Heap) returns (zm: nat)
    requires heap.Valid()
    modifies heap
    ensures heap.Valid()
    ensures zm != NULL && zm !in old(heap.blocks) && zm in heap.blocks
    ensures heap.blocks == old(heap.blocks)[zm := EmptyZipmap()]
    ensures heap.usedMemory == old(heap.usedMemory) + 2 + PREFIX_SIZE
  {
    zm := heap.Malloc(2);
    heap.Store(zm, 0, 0);
    heap.Store(zm, 1, ZIPMAP_END);
    assert heap.blocks[zm] == EmptyZipmap();
    assert heap.blocks == old(heap.blocks)[zm := EmptyZipmap()];
  }
}
