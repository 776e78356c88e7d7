/**
 * The configuration helpers of `redis.c` that the model covers: the array of
 * save points (`server.saveparams`, grown with `zrealloc` one record at a
 * time and released with `zfree`), and `yesnotoi`, which reads a yes/no
 * option through `strcasecmp`.
 */
module RedisConfig {
  import opened Common
  import opened Zmalloc

  // ---- save points

  /** `struct saveparam`: save once `seconds` have passed with at least `changes` writes. */
  datatype SaveParam = SaveParam(seconds: int, changes: int)

  /** `sizeof(struct saveparam)` on LP64: an 8-byte `time_t`, a 4-byte `int` and 4 bytes of padding. */
  const SAVEPARAM_SIZE: nat := 16

  /** `INT_MAX`, the bound of `server.saveparamslen`. */
  const INT_MAX: nat := 0x7FFF_FFFF

  /** The bytes `used_memory` counts for an array of `n` save points: nothing while the pointer is NULL. */
  function ParamsMemory(n: nat): (m: nat)
    ensures n == 0 ==> m == 0
    ensures n > 0 ==> m == SAVEPARAM_SIZE * n + PREFIX_SIZE
  {
    if n == 0 then 0 else SAVEPARAM_SIZE * n + PREFIX_SIZE
  }

  /** Each record appended costs the allocator its size, and the first one also the block's prefix. */
  lemma ParamsMemoryStep(n: nat)
    ensures ParamsMemory(n + 1) == ParamsMemory(n) + SAVEPARAM_SIZE + (if n == 0 then PREFIX_SIZE else 0)
  {
  }

  /**
   * `server.saveparams` and `server.saveparamslen`: the records, and the
   * block that holds them, which is NULL exactly when there are none and is
   * otherwise a live block of the records' size.
   */
  class SaveConfig {
    /** The allocator the array comes from. */
    const heap: Heap
    /** `server.saveparams`, the address of the array. */
    var saveparams: nat
    /** The records in the array; `|params|` is `server.saveparamslen`. */
    var params: seq<SaveParam>

    ghost predicate Valid()
      reads this, heap
    {
      && heap.Valid()
      && |params| <= INT_MAX
      && (saveparams == NULL <==> params == [])
      && (saveparams != NULL ==> saveparams in heap.blocks && |heap.blocks[saveparams]| == SAVEPARAM_SIZE * |params|)
    }

    /**
     * The save points of `initServerConfig`: the pointer starts NULL, the
     * array is reset, and the three defaults are appended in order.
     */
    constructor (heap: Heap)
      requires heap.Valid()
      modifies heap
      ensures Valid() && this.heap == heap
      ensures params == [SaveParam(60 * 60, 1), SaveParam(300, 100), SaveParam(60, 10000)]
      ensures heap.usedMemory == old(heap.usedMemory) + ParamsMemory(3)
    {
      this.heap := heap;
      saveparams := NULL;
      params := [];
      new;
      Reset();
      Append(60 * 60, 1);
      Append(300, 100);
      Append(60, 10000);
    }

    /**
     * `appendServerSaveParams`: the array is reallocated one record longer
     * and the new record written at its end. Every other block is untouched
     * and the counter grows by what `ParamsMemory` attributes to the record.
     */
    method Append(seconds: int, changes: int)
      requires Valid()
      requires |params| < INT_MAX
      modifies this, heap
      ensures Valid()
      ensures params == old(params) + [SaveParam(seconds, changes)]
      ensures saveparams !in old(heap.blocks) && heap.blocks - {saveparams} == old(heap.blocks) - {old(saveparams)}
      ensures heap.usedMemory - ParamsMemory(|params|) == old(heap.usedMemory) - ParamsMemory(|old(params)|)
    {
      var p := heap.Realloc(saveparams, SAVEPARAM_SIZE * (|params| + 1));
      ParamsMemoryStep(|params|);
      saveparams := p;
      params := params + [SaveParam(seconds, changes)];
    }

    /** `resetServerSaveParams`: the array is freed and the pointer and length cleared. */
    method Reset()
      requires Valid()
      modifies this, heap
      ensures Valid()
      ensures saveparams == NULL && params == []
      ensures heap.blocks == old(heap.blocks) - {old(saveparams)}
      ensures heap.usedMemory + ParamsMemory(|old(params)|) == old(heap.usedMemory)
    {
      heap.Free(saveparams);
      saveparams := NULL;
      params := [];
    }
  }

  // ---- yes/no options

  /** `tolower` in the C locale. */
  function ToLower(c: byte): (r: byte)
    ensures 'A' as byte <= c <= 'Z' as byte ==> r == c + 32
    ensures !('A' as byte <= c <= 'Z' as byte) ==> r == c
    ensures r == 0 <==> c == 0
  {
    if 'A' as byte <= c <= 'Z' as byte then c + 32 else c
  }

  /** The byte at the head of a C string: the terminating NUL once the bytes run out. */
  function Head(s: seq<byte>): (c: byte)
    ensures s == [] ==> c == 0
    ensures s != [] ==> c == s[0]
  {
    if s == [] then 0 else s[0]
  }

  /** A byte string in lower case. */
  function LowerAll(s: seq<byte>): (r: seq<byte>)
    ensures |r| == |s|
    ensures forall i :: 0 <= i < |s| ==> r[i] == ToLower(s[i])
  {
    if s == [] then [] else [ToLower(s[0])] + LowerAll(s[1..])
  }

  /**
   * `strcasecmp`: the two strings are compared byte by byte in lower case
   * up to the first difference or the terminating NUL; the result is the
   * difference of the lowered bytes where they part.
   */
  function StrCaseCmp(a: seq<byte>, b: seq<byte>): int
    decreases |a|
  {
    var ca, cb := ToLower(Head(a)), ToLower(Head(b));
    if ca != cb then ca - cb
    else if ca == 0 then 0
    else StrCaseCmp(a[1..], b[1..])
  }

  /** Two strings compare equal exactly when they agree in lower case up to their NULs. */
  lemma {:induction false} StrCaseCmpZero(a: seq<byte>, b: seq<byte>)
    ensures StrCaseCmp(a, b) == 0 <==> LowerAll(CString(a)) == LowerAll(CString(b))
    decreases |a|
  {
    var ca, cb := ToLower(Head(a)), ToLower(Head(b));
    if ca != cb {
      if Head(a) == 0 {
        assert CString(a) == [];
        assert LowerAll(CString(b))[0] == cb;
      } else if Head(b) == 0 {
        assert CString(b) == [];
        assert LowerAll(CString(a))[0] == ca;
      } else {
        assert LowerAll(CString(a))[0] == ca;
        assert LowerAll(CString(b))[0] == cb;
      }
    } else if ca == 0 {
      assert CString(a) == [] && CString(b) == [];
    } else {
      StrCaseCmpZero(a[1..], b[1..]);
      assert CString(a) == [a[0]] + CString(a[1..]);
      assert CString(b) == [b[0]] + CString(b[1..]);
      assert LowerAll(CString(a)) == [ca] + LowerAll(CString(a[1..]));
      assert LowerAll(CString(b)) == [cb] + LowerAll(CString(b[1..]));
    }
  }

  /** The comparison is antisymmetric: swapping the strings negates the result. */
  lemma {:induction false} StrCaseCmpSwap(a: seq<byte>, b: seq<byte>)
    ensures StrCaseCmp(b, a) == -StrCaseCmp(a, b)
    decreases |a|
  {
    var ca, cb := ToLower(Head(a)), ToLower(Head(b));
    if ca == cb && ca != 0 {
      StrCaseCmpSwap(a[1..], b[1..]);
    }
  }

  /** The literal `"yes"`. */
  const YES: seq<byte> := [121, 101, 115]
  /** The literal `"no"`. */
  const NO: seq<byte> := [110, 111]

  /** `yesnotoi`: 1 for "yes", 0 for "no", in any case, and -1 for anything else. */
  function YesNoToI(s: seq<byte>): (r: int)
    ensures -1 <= r <= 1
  {
    if StrCaseCmp(s, YES) == 0 then 1
    else if StrCaseCmp(s, NO) == 0 then 0
    else -1
  }

  /** The three answers of `yesnotoi`, each stated against the string's lower-case form. */
  lemma YesNoToISpec(s: seq<byte>)
    ensures YesNoToI(s) == 1 <==> LowerAll(CString(s)) == YES
    ensures YesNoToI(s) == 0 <==> LowerAll(CString(s)) == NO
    ensures YesNoToI(s) == -1 <==> LowerAll(CString(s)) != YES && LowerAll(CString(s)) != NO
  {
    StrCaseCmpZero(s, YES);
    StrCaseCmpZero(s, NO);
    assert CString(YES) == YES by {
      assert CString(YES[2..]) == YES[2..];
      assert CString(YES[1..]) == YES[1..];
    }
    assert LowerAll(YES) == YES;
    assert CString(NO) == NO by {
      assert CString(NO[1..]) == NO[1..];
    }
    assert LowerAll(NO) == NO;
  }

  /** A concrete reading: "Yes" and "NO" are accepted, "yess" is not. */
  lemma YesNoToIExamples()
    ensures YesNoToI([89, 101, 115]) == 1
    ensures YesNoToI([78, 79]) == 0
    ensures YesNoToI([121, 101, 115, 115]) == -1
  {
    YesNoToISpec([89, 101, 115]);
    YesNoToISpec([78, 79]);
    YesNoToISpec([121, 101, 115, 115]);
    assert CString([89, 101, 115]) == [89, 101, 115] by {
      assert CString([115]) == [115];
      assert CString([101, 115]) == [101, 115];
    }
    assert CString([78, 79]) == [78, 79] by {
      assert CString([79]) == [79];
    }
    assert CString([121, 101, 115, 115]) == [121, 101, 115, 115] by {
      assert CString([115]) == [115];
      assert CString([115, 115]) == [115, 115];
      assert CString([101, 115, 115]) == [101, 115, 115];
    }
  }
}
