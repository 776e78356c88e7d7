/**
 * The declarations of the chained hash table: its status codes, its initial
 * size, the entry record, the table of type operations, and the accessor and
 * dispatch macros.
 */
module DictH {
  import opened Common

  const DICT_OK: int := 0
  const DICT_ERR: int := 1

  /** Number of buckets of every table's first allocation. */
  const DICT_HT_INITIAL_SIZE: nat := 4

  /** A key/value pair stored in a bucket chain; the `next` link is the chain's order. */
  datatype Entry<K, V> = Entry(key: K, val: V)

  /**
   * The operation set of a table. The hash function is a Dafny function; the key
   * comparison is Dafny equality on keys (all the key types of the server compare
   * by content); the destructors are foreign code, so only whether each is
   * installed is kept. Key and value duplication are not installed in any of the
   * server's tables and are not part of this model.
   */
  datatype DictType<!K> = DictType(hashFunction: K -> uint32, hasKeyDestructor: bool, hasValDestructor: bool)

  /** `dictHashKey`: the type's hash of a key. */
  function HashKey<K>(t: DictType<K>, key: K): uint32
  {
    t.hashFunction(key)
  }

  /**
   * `hash & sizemask` where `sizemask == size - 1`. Tables have a power-of-two
   * size, for which masking with `size - 1` keeps exactly the remainder modulo `size`.
   */
  function BucketIndex(hash: nat, size: nat): (i: nat)
    requires size > 0
    ensures i < size
    ensures hash < size ==> i == hash
  {
    hash % size
  }

  /** 2^k. */
  function Pow2(k: nat): (p: nat)
    ensures p >= 1
  {
    if k == 0 then 1 else 2 * Pow2(k - 1)
  }

  /** C's `&` on unsigned integers, bit by bit from the least significant bit. */
  function BitAnd(a: nat, b: nat): nat
  {
    if a == 0 || b == 0 then 0 else 2 * BitAnd(a / 2, b / 2) + (if a % 2 == 1 && b % 2 == 1 then 1 else 0)
  }

  /** Division with remainder is unique: a quotient and a remainder below `d` are `a / d` and `a % d`. */
  lemma ModUnique(a: nat, d: nat, q: nat, r: nat)
    requires d >= 1 && r < d && a == d * q + r
    ensures a % d == r
  {
    var q', r' := a / d, a % d;
    assert a == d * q' + r';
    if q' > q {
      MulStep(d, q, q' - q);
    } else if q' < q {
      MulStep(d, q', q - q');
    }
  }

  /** `d * (q + x)` exceeds `d * q` by at least `d` for a positive `x`. */
  lemma MulStep(d: nat, q: nat, x: nat)
    requires x >= 1
    ensures d * (q + x) >= d * q + d
  {
    assert d * (q + x) == d * q + d * x;
    assert d * x == d + d * (x - 1);
  }

  /** Halving splits off the lowest bit: `a % 2m` is twice `(a/2) % m` plus that bit. */
  lemma HalfMod(a: nat, m: nat)
    requires m >= 1
    ensures a % (2 * m) == 2 * ((a / 2) % m) + a % 2
  {
    var q := (a / 2) / m;
    var r := (a / 2) % m;
    assert a / 2 == m * q + r;
    assert a == (2 * m) * q + (2 * r + a % 2);
    ModUnique(a, 2 * m, q, 2 * r + a % 2);
  }

  /**
   * `hash & sizemask` with `sizemask == size - 1` and `size == 2^k` keeps exactly
   * the remainder modulo `size`: the bucket the source computes is `BucketIndex`.
   */
  lemma {:induction false} MaskIsBucketIndex(hash: nat, k: nat)
    ensures BitAnd(hash, Pow2(k) - 1) == BucketIndex(hash, Pow2(k))
  {
    if k == 0 || hash == 0 {
    } else {
      var m := Pow2(k - 1);
      assert Pow2(k) - 1 == 2 * (m - 1) + 1;
      assert (Pow2(k) - 1) / 2 == m - 1 && (Pow2(k) - 1) % 2 == 1;
      MaskIsBucketIndex(hash / 2, k - 1);
      HalfMod(hash, m);
    }
  }

  /**
   * `dictFreeEntryKey`: the destructor calls the macro makes, as the sequence of keys
   * handed to the key destructor (empty when the type has none).
   */
  function FreeEntryKey<K, V>(t: DictType<K>, e: Entry<K, V>): (calls: seq<K>)
    ensures |calls| <= 1
    ensures calls != [] <==> t.hasKeyDestructor
    ensures calls != [] ==> calls[0] == e.key
  {
    if t.hasKeyDestructor then [e.key] else []
  }

  /** `dictFreeEntryVal`: the values handed to the value destructor. */
  function FreeEntryVal<K, V>(t: DictType<K>, e: Entry<K, V>): (calls: seq<V>)
    ensures |calls| <= 1
    ensures calls != [] <==> t.hasValDestructor
    ensures calls != [] ==> calls[0] == e.val
  {
    if t.hasValDestructor then [e.val] else []
  }

  /** The key-destructor calls a walk over `es` makes, in order. */
  function KeysFreed<K, V>(t: DictType<K>, es: seq<Entry<K, V>>): seq<K>
  {
    if es == [] then [] else FreeEntryKey(t, es[0]) + KeysFreed(t, es[1..])
  }

  /** The value-destructor calls a walk over `es` makes, in order. */
  function ValsFreed<K, V>(t: DictType<K>, es: seq<Entry<K, V>>): seq<V>
  {
    if es == [] then [] else FreeEntryVal(t, es[0]) + ValsFreed(t, es[1..])
  }

  /** With a key destructor installed, every entry's key is handed to it, in walk order. */
  lemma {:induction false} KeysFreedAll<K, V>(t: DictType<K>, es: seq<Entry<K, V>>)
    requires t.hasKeyDestructor
    ensures |KeysFreed(t, es)| == |es|
    ensures forall i :: 0 <= i < |es| ==> KeysFreed(t, es)[i] == es[i].key
  {
    if es != [] {
      KeysFreedAll(t, es[1..]);
    }
  }

  /** A table whose type has null destructors never touches the payloads it removes. */
  lemma {:induction false} NullDestructorsTouchNothing<K, V>(t: DictType<K>, es: seq<Entry<K, V>>)
    requires !t.hasKeyDestructor && !t.hasValDestructor
    ensures KeysFreed(t, es) == [] && ValsFreed(t, es) == []
  {
    if es != [] {
      NullDestructorsTouchNothing(t, es[1..]);
    }
  }

  /** Walking two runs of entries frees the keys of the first run, then those of the second. */
  lemma {:induction false} KeysFreedAppend<K, V>(t: DictType<K>, a: seq<Entry<K, V>>, b: seq<Entry<K, V>>)
    ensures KeysFreed(t, a + b) == KeysFreed(t, a) + KeysFreed(t, b)
    ensures ValsFreed(t, a + b) == ValsFreed(t, a) + ValsFreed(t, b)
  {
    if a != [] {
      assert (a + b)[1..] == a[1..] + b;
      KeysFreedAppend(t, a[1..], b);
    } else {
      assert a + b == b;
    }
  }

  /** `DICT_OK` and `DICT_ERR` are distinct, and the initial size is a power of two. */
  lemma StatusCodesDistinct()
    ensures DICT_OK != DICT_ERR
    ensures DICT_HT_INITIAL_SIZE == 2 * 2
  {
  }
}
