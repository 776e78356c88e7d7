/**
 * The chained hash table of dict.c: a bucket array whose size is zero or a power
 * of two of at least four, each bucket a chain of entries in link order, and a
 * `used` counter. The table grows lazily (to four buckets on first insertion,
 * doubling whenever it is full) and rehashes every entry when it is resized.
 *
 * Chains are values (`seq<Entry>`) held in an `array`; the ghost field
 * `Contents` is the map the chains represent.
 */
module Dict {
  import opened Common
  import opened DictH
  import opened DictTable

  // ---------------------------------------------------------------- hashing

  /** The djb2 seed. */
  const DJB2_SEED: uint32 := 5381

  /** One step of djb2 on an unsigned 32-bit accumulator: `h * 33 + c`, wrapping. */
  function Djb2Step(h: uint32, c: byte): uint32
  {
    (h * 33 + c) % UINT32_MODULUS
  }

  /** djb2 continued from accumulator `h` over the bytes `s`, first byte first. */
  function Djb2From(h: uint32, s: seq<byte>): uint32
    decreases |s|
  {
    if s == [] then h else Djb2From(Djb2Step(h, s[0]), s[1..])
  }

  /** The Bernstein hash of a byte string. */
  function Djb2(s: seq<byte>): uint32
  {
    Djb2From(DJB2_SEED, s)
  }

  /** Hashing is incremental: hashing `a + b` is hashing `b` from the hash of `a`. */
  lemma {:induction false} Djb2FromAppend(h: uint32, a: seq<byte>, b: seq<byte>)
    ensures Djb2From(h, a + b) == Djb2From(Djb2From(h, a), b)
    decreases |a|
  {
    if a != [] {
      assert (a + b)[0] == a[0];
      assert (a + b)[1..] == a[1..] + b;
      Djb2FromAppend(Djb2Step(h, a[0]), a[1..], b);
    } else {
      assert a + b == b;
    }
  }

  /** Appending one byte `c` maps the hash `h` to `(h * 33 + c) mod 2^32`. */
  lemma Djb2Snoc(s: seq<byte>, c: byte)
    ensures Djb2(s + [c]) == (Djb2(s) * 33 + c) % UINT32_MODULUS
  {
    Djb2FromAppend(DJB2_SEED, s, [c]);
    assert Djb2From(Djb2(s), [c]) == Djb2Step(Djb2(s), c);
  }

  /** `(hash << 5) + hash + c` on an unsigned int is one djb2 step. */
  lemma ShiftAddIsStep(h: uint32, c: byte)
    ensures (((h * 32) % UINT32_MODULUS + h) % UINT32_MODULUS + c) % UINT32_MODULUS == Djb2Step(h, c)
  {
    ModAdd(h * 32, h);
    ModAdd(h * 33, c);
  }

  /** Reducing a summand modulo 2^32 first does not change the sum modulo 2^32. */
  lemma ModAdd(a: nat, b: nat)
    ensures (a % UINT32_MODULUS + b) % UINT32_MODULUS == (a + b) % UINT32_MODULUS
  {
    var q := a / UINT32_MODULUS;
    assert a == q * UINT32_MODULUS + a % UINT32_MODULUS;
  }

  /**
   * `dictGenHashFunction`: djb2 over the first `len` bytes of `buf`, computed with
   * the shift-and-add of the source on an unsigned 32-bit accumulator.
   */
  method GenHashFunction(buf: seq<byte>, len: int) returns (hash: uint32)
    requires 0 <= len <= |buf|
    ensures hash == Djb2(buf[..len])
    ensures len == 0 ==> hash == 5381
  {
    hash := DJB2_SEED;
    var i := 0;
    while i < len
      invariant 0 <= i <= len
      invariant Djb2From(hash, buf[i..len]) == Djb2(buf[..len])
    {
      ShiftAddIsStep(hash, buf[i]);
      assert buf[i..len][1..] == buf[i + 1..len];
      hash := (((hash * 32) % UINT32_MODULUS + hash) % UINT32_MODULUS + buf[i]) % UINT32_MODULUS;
      i := i + 1;
    }
  }

  // ---------------------------------------------------------------- sizes

  /** The most buckets whose array, 8 bytes per pointer, has a byte size that fits a 64-bit `size_t`
      with room to spare for the allocator's prefix. */
  const MAX_BUCKETS: nat := 0x1000_0000_0000_0000

  /** `random()` returns a value in `0 .. 2^31 - 1`. */
  const RANDOM_RANGE: nat := 0x8000_0000

  ghost predicate IsPowerOfTwo(n: nat)
    decreases n
  {
    n == 1 || (n >= 2 && n % 2 == 0 && IsPowerOfTwo(n / 2))
  }

  /** The exponent of a power of two. */
  ghost function Log2(n: nat): (k: nat)
    requires IsPowerOfTwo(n)
    ensures Pow2(k) == n
    decreases n
  {
    if n == 1 then 0 else Log2(n / 2) + 1
  }

  /**
   * On every size a table takes, the source's `hash & sizemask` (with
   * `sizemask == size - 1`) is the bucket the model computes.
   */
  lemma BucketIsMask(hash: nat, size: nat)
    requires IsPowerOfTwo(size)
    ensures BitAnd(hash, size - 1) == BucketIndex(hash, size)
  {
    MaskIsBucketIndex(hash, Log2(size));
  }

  /** `r` is the least power of two that is at least `size` and at least the initial size. */
  ghost predicate IsNextPower(size: nat, r: nat)
  {
    && IsPowerOfTwo(r)
    && r >= DICT_HT_INITIAL_SIZE
    && r >= size
    && (r == DICT_HT_INITIAL_SIZE || r / 2 < size)
  }

  /** Below a power of two `r`, every power of two is at most `r / 2`. */
  lemma {:induction false} PowerOfTwoBelow(p: nat, r: nat)
    requires IsPowerOfTwo(p) && IsPowerOfTwo(r) && p < r
    ensures r >= 2 && IsPowerOfTwo(r / 2) && p <= r / 2
    decreases r
  {
    if p > 1 {
      PowerOfTwoBelow(p / 2, r / 2);
    }
  }

  /** `IsNextPower` picks the least candidate: no admissible power of two is smaller. */
  lemma NextPowerLeast(size: nat, r: nat, p: nat)
    requires IsNextPower(size, r)
    requires IsPowerOfTwo(p) && p >= DICT_HT_INITIAL_SIZE && p >= size
    ensures r <= p
  {
    if p < r {
      PowerOfTwoBelow(p, r);
    }
  }

  /** So the size `_dictNextPower` returns is determined by its request. */
  lemma NextPowerUnique(size: nat, r1: nat, r2: nat)
    requires IsNextPower(size, r1) && IsNextPower(size, r2)
    ensures r1 == r2
  {
    NextPowerLeast(size, r1, r2);
    NextPowerLeast(size, r2, r1);
  }

  /** A request that is already an admissible power of two is granted exactly. */
  lemma NextPowerOfPower(p: nat, r: nat)
    requires IsPowerOfTwo(p) && p >= DICT_HT_INITIAL_SIZE
    requires IsNextPower(p, r)
    ensures r == p
  {
    NextPowerLeast(p, r, p);
  }

  /** Doubling a power of two gives a power of two. */
  lemma PowerDouble(p: nat)
    requires IsPowerOfTwo(p)
    ensures IsPowerOfTwo(p * 2) && (p * 2) / 2 == p
  {
  }

  /** `_dictNextPower`: the table size a request for `size` buckets gets. */
  method NextPower(size: nat) returns (r: nat)
    ensures size >= LONG_MAX ==> r == LONG_MAX
    ensures size < LONG_MAX ==> IsNextPower(size, r)
  {
    var i: nat := DICT_HT_INITIAL_SIZE;
    if size >= LONG_MAX {
      return LONG_MAX;
    }
    while i < size
      invariant IsPowerOfTwo(i) && i >= DICT_HT_INITIAL_SIZE
      invariant i == DICT_HT_INITIAL_SIZE || i / 2 < size
      decreases size - i
    {
      PowerDouble(i);
      i := i * 2;
    }
    return i;
  }

  /** A fresh bucket array of `size` empty buckets (the allocation and `memset` of `dictExpand`). */
  method NewTable<K(!new), V>(size: nat, ghost h: K -> uint32) returns (n: array<seq<Entry<K, V>>>)
    ensures fresh(n) && n.Length == size
    ensures Represents(n[..], h, map[])
  {
    n := new seq<Entry<K, V>>[size](_ => []);
    assert n[..] == AllEmpty<K, V>(size);
    EmptyRepresents<K, V>(size, h);
  }

  /**
   * The copy loop of `dictExpand`: move every entry of the table `t`, chain head
   * first, to the head of its bucket in a fresh table of `realsize` empty
   * buckets. `used` is the old table's count; the walk stops once that many
   * entries have moved, and none is left behind.
   */
  method Rehash<K(==,!new), V>(t: array<seq<Entry<K, V>>>, used: nat, dtype: DictType<K>, ghost m: map<K, V>, realsize: nat)
    returns (n: array<seq<Entry<K, V>>>)
    requires Represents(t[..], dtype.hashFunction, m) && used == |m| && realsize > 0
    ensures fresh(n) && n.Length == realsize
    ensures Represents(n[..], dtype.hashFunction, m)
  {
    ghost var h := dtype.hashFunction;
    n := NewTable(realsize, h);
    // `remaining` is the old table's `used`, counted down as entries move.
    var remaining := used;
    // The old table's chains still to be moved, and the maps both sides represent.
    ghost var rem, rest, moved := RehashStart(t[..], n[..], h, m, used);
    var i := 0;
    while i < t.Length && remaining > 0
      invariant 0 <= i <= t.Length && rem == Cleared(t[..], i)
      invariant Split(rem, n[..], h, rest, moved, m)
      invariant remaining == |Entries(rem)|
      decreases t.Length - i
    {
      ClearedStep(t[..], i);
      remaining, rem, rest, moved := MoveChain(n, t[i], dtype, rem, i, rest, moved, m, remaining);
      i := i + 1;
    }
    RehashDone(t[..], rem, n[..], h, rest, moved, m, i, remaining);
  }

  /** Before the copy loop of `dictExpand`, the whole old table is left and nothing has moved. */
  lemma RehashStart<K(!new), V>(t: Table<K, V>, n: Table<K, V>, h: K -> uint32, m: map<K, V>, used: nat)
    returns (rem: Table<K, V>, rest: map<K, V>, moved: map<K, V>)
    requires Represents(t, h, m) && Represents(n, h, map[]) && used == |m|
    ensures rem == Cleared(t, 0) && Split(rem, n, h, rest, moved, m) && used == |Entries(rem)|
  {
    rem, rest, moved := t, m, map[];
    assert rem == Cleared(t, 0);
    assert rest + moved == m;
    WalkYieldsEachEntryOnce(rem, h, m);
  }

  /** The table `t` with its first `i` chains emptied. */
  ghost function Cleared<K, V>(t: Table<K, V>, i: nat): (r: Table<K, V>)
    ensures |r| == |t|
  {
    seq(|t|, b requires 0 <= b < |t| => if b < i then [] else t[b])
  }

  lemma ClearedStep<K, V>(t: Table<K, V>, i: nat)
    requires i < |t|
    ensures Cleared(t, i)[i] == t[i]
    ensures Cleared(t, i)[i := []] == Cleared(t, i + 1)
  {
  }

  /** When the copy loop of `dictExpand` stops, the old count is down to zero and everything has moved. */
  lemma RehashDone<K(!new), V>(t: Table<K, V>, rem: Table<K, V>, n: Table<K, V>, h: K -> uint32,
                               rest: map<K, V>, moved: map<K, V>, m: map<K, V>, i: nat, remaining: nat)
    requires i <= |t| && (i == |t| || remaining == 0) && rem == Cleared(t, i)
    requires Split(rem, n, h, rest, moved, m)
    requires remaining == |Entries(rem)|
    ensures remaining == 0
    ensures Represents(n, h, m)
  {
    if i == |rem| {
      EntriesNone(rem);
    }
    EntriesEmpty(rem);
    EmptyChainsNoKeys(rem, h, rest);
  }

  /**
   * The inner loop of `dictExpand`: move the chain of bucket `i` of the old table,
   * head first, onto the heads of its keys' buckets in `n`, counting `remaining`
   * down once per entry.
   */
  method MoveChain<K(==,!new), V>(n: array<seq<Entry<K, V>>>, chain: seq<Entry<K, V>>, dtype: DictType<K>,
                                  ghost rem: Table<K, V>, i: nat, ghost rest: map<K, V>, ghost moved: map<K, V>,
                                  ghost m: map<K, V>, remaining: nat)
    returns (remaining': nat, ghost rem': Table<K, V>, ghost rest': map<K, V>, ghost moved': map<K, V>)
    requires i < |rem| && rem[i] == chain && n.Length > 0
    requires Split(rem, n[..], dtype.hashFunction, rest, moved, m) && remaining == |Entries(rem)|
    modifies n
    ensures rem' == rem[i := []]
    ensures Split(rem', n[..], dtype.hashFunction, rest', moved', m)
    ensures remaining' == |Entries(rem')|
  {
    ghost var h := dtype.hashFunction;
    remaining', rem', rest', moved' := remaining, rem, rest, moved;
    var he := chain;
    while he != []
      invariant |rem'| == |rem| && rem' == rem[i := he]
      invariant Split(rem', n[..], h, rest', moved', m)
      invariant remaining' == |Entries(rem')|
      decreases |he|
    {
      var e := he[0];
      var nextHe := he[1..];
      var hn := BucketIndex(HashKey(dtype, e.key), n.Length);
      MoveHead(rem', n[..], h, rest', moved', m, i);
      ghost var n0 := n[..];
      n[hn] := [e] + n[hn];
      assert n[..] == InsertHead(n0, hn, e);
      rest' := rest' - {e.key};
      moved' := moved'[e.key := e.val];
      rem' := rem'[i := nextHe];
      remaining' := remaining' - 1;
      he := nextHe;
    }
  }

  // ---------------------------------------------------------------- the table

  class Dict<K(==,!new), V> {
    /** The bucket array; `table.Length` is `size`, and `sizemask` is `size - 1`. */
    var table: array<seq<Entry<K, V>>>
    var used: nat
    const dtype: DictType<K>
    ghost var Contents: map<K, V>

    /**
     * The chains represent `Contents` (every key in the bucket its hash selects,
     * no key twice), `used` counts the keys, the table is unallocated or a power
     * of two of at least four buckets, and it is never more than full.
     */
    ghost predicate Valid()
      reads this, table
    {
      && Represents(table[..], dtype.hashFunction, Contents)
      && used == |Contents|
      && used <= table.Length
      && (table.Length == 0 || (IsPowerOfTwo(table.Length) && table.Length >= DICT_HT_INITIAL_SIZE))
    }

    /** `dictCreate` / `_dictInit`: an empty, unallocated table of the given type. */
    constructor (t: DictType<K>)
      ensures Valid() && fresh(table)
      ensures dtype == t && table.Length == 0 && used == 0 && Contents == map[]
    {
      table := new seq<Entry<K, V>>[0];
      used := 0;
      dtype := t;
      Contents := map[];
      new;
      EmptyRepresents<K, V>(0, t.hashFunction);
      assert table[..] == AllEmpty<K, V>(0);
    }

    /** `dictSize`: the number of keys. */
    function Size(): (n: nat)
      requires Valid()
      reads this, table
      ensures n == |Contents|
      ensures n <= Slots()
    {
      used
    }

    /** `dictSlots`: the number of buckets. */
    function Slots(): (n: nat)
      requires Valid()
      reads this, table
      ensures n == 0 ==> Contents == map[]
      ensures n == 0 || (IsPowerOfTwo(n) && n >= DICT_HT_INITIAL_SIZE)
    {
      if table.Length == 0 then NoBucketsNoKeys(table[..], dtype.hashFunction, Contents); 0
      else table.Length
    }

    /** Each key link once over all chains, and `used` is the number of links. */
    lemma UsedCountsLinks()
      requires Valid()
      ensures used == |Entries(table[..])|
      ensures KeysDistinct(Entries(table[..]))
    {
      WalkYieldsEachEntryOnce(table[..], dtype.hashFunction, Contents);
    }

    /** `dictFind`: the entry whose key equals `key`, walking only that key's bucket. */
    method Find(key: K) returns (r: Option<Entry<K, V>>)
      requires Valid()
      ensures r == if key in Contents then Some(Entry(key, Contents[key])) else None
    {
      if table.Length == 0 {
        NoBucketsNoKeys(table[..], dtype.hashFunction, Contents);
        return None;
      }
      var b := BucketIndex(HashKey(dtype, key), table.Length);
      assert Lookup(table[..], dtype.hashFunction, key) == Get(Contents, key);
      var he := table[b];
      while he != []
        invariant ChainFind(he, key) == ChainFind(table[b], key)
        decreases |he|
      {
        if he[0].key == key {
          return Some(he[0]);
        }
        he := he[1..];
      }
      return None;
    }

    /**
     * `dictExpand`: rehash every entry into a fresh table of `_dictNextPower(size)`
     * buckets, or refuse when that would hold fewer buckets than keys. The bucket
     * array's byte size `realsize * sizeof(dictEntry*)` is `size_t` arithmetic, so
     * the size is bounded by `MAX_BUCKETS`.
     */
    method Expand(size: nat) returns (status: int)
      requires Valid()
      requires size <= MAX_BUCKETS
      modifies this
      ensures Valid()
      ensures status == if old(used) > size then DICT_ERR else DICT_OK
      ensures Contents == old(Contents) && used == old(used)
      ensures status == DICT_ERR ==> table == old(table)
      ensures status == DICT_OK ==> fresh(table) && IsNextPower(size, table.Length)
    {
      var realsize := NextPower(size);
      if used > size {
        return DICT_ERR;
      }
      var n := Rehash(table, used, dtype, Contents, realsize);
      table := n;
      status := DICT_OK;
    }

    /** `_dictExpandIfNeeded`: allocate four buckets for an unallocated table, double a full one. */
    method ExpandIfNeeded() returns (status: int)
      requires Valid()
      requires table.Length <= MAX_BUCKETS / 2
      modifies this
      ensures Valid() && status == DICT_OK
      ensures Contents == old(Contents) && used == old(used)
      ensures old(table.Length) == 0 ==> table.Length == DICT_HT_INITIAL_SIZE
      ensures old(table.Length) > 0 && old(used) == old(table.Length) ==> table.Length == 2 * old(table.Length)
      ensures old(table.Length) > 0 && old(used) != old(table.Length) ==> table == old(table)
      ensures table == old(table) || fresh(table)
      ensures used < table.Length
    {
      if table.Length == 0 {
        status := Expand(DICT_HT_INITIAL_SIZE);
        NextPowerOfPower(DICT_HT_INITIAL_SIZE, table.Length);
        return;
      }
      if used == table.Length {
        ghost var old_size := table.Length;
        status := Expand(table.Length * 2);
        assert IsPowerOfTwo(2 * old_size);
        NextPowerOfPower(2 * old_size, table.Length);
        return;
      }
      return DICT_OK;
    }

    /**
     * `_dictKeyIndex`: expand if needed, then the bucket a new `key` goes to, or
     * -1 when the key is already present. The bucket travels as a C `int`.
     */
    method KeyIndex(key: K) returns (index: int)
      requires Valid()
      requires table.Length <= 0x4000_0000
      modifies this
      ensures Valid()
      ensures Contents == old(Contents) && used == old(used) && used < table.Length
      ensures old(table.Length) == 0 ==> table.Length == DICT_HT_INITIAL_SIZE
      ensures old(table.Length) > 0 && old(used) == old(table.Length) ==> table.Length == 2 * old(table.Length)
      ensures old(table.Length) > 0 && old(used) != old(table.Length) ==> table == old(table)
      ensures table == old(table) || fresh(table)
      ensures index == -1 <==> key in Contents
      ensures index != -1 ==> index == BucketIndex(HashKey(dtype, key), table.Length)
    {
      var status := ExpandIfNeeded();
      if status == DICT_ERR {
        return -1;
      }
      var b := BucketIndex(HashKey(dtype, key), table.Length);
      assert Lookup(table[..], dtype.hashFunction, key) == Get(Contents, key);
      var he := table[b];
      while he != []
        invariant ChainFind(he, key) == ChainFind(table[b], key)
        decreases |he|
      {
        if he[0].key == key {
          return -1;
        }
        he := he[1..];
      }
      return ToInt32(b);
    }

    /**
     * `dictAdd`: insert `key` with `val` at the head of its bucket unless the key
     * is present. The table is lazily expanded first, in both cases.
     */
    method Add(key: K, val: V) returns (status: int)
      requires Valid()
      requires table.Length <= 0x4000_0000
      modifies this, table
      ensures Valid()
      ensures status == if key in old(Contents) then DICT_ERR else DICT_OK
      ensures Contents == if key in old(Contents) then old(Contents) else old(Contents)[key := val]
      ensures used == if key in old(Contents) then old(used) else old(used) + 1
      ensures old(table.Length) == 0 ==> table.Length == DICT_HT_INITIAL_SIZE
      ensures old(table.Length) > 0 && old(used) == old(table.Length) ==> table.Length == 2 * old(table.Length)
      ensures old(table.Length) > 0 && old(used) != old(table.Length) ==> table.Length == old(table.Length)
      ensures table.Length > 0
      ensures status == DICT_OK ==>
        var b := BucketIndex(HashKey(dtype, key), table.Length);
        table[b] != [] && table[b][0] == Entry(key, val)
    {
      var index := KeyIndex(key);
      if index == -1 {
        return DICT_ERR;
      }
      InsertHeadRepresents(table[..], dtype.hashFunction, Contents, key, val);
      table[index] := [Entry(key, val)] + table[index];
      used := used + 1;
      Contents := Contents[key := val];
      return DICT_OK;
    }

    /**
     * `dictGenericDelete`: unlink the entry of `key` from its bucket. The key and
     * value handed to the type's destructors are returned, in call order; with
     * `nofree` none are called.
     */
    method GenericDelete(key: K, nofree: bool) returns (status: int, keyCalls: seq<K>, valCalls: seq<V>)
      requires Valid()
      modifies this, table
      ensures Valid() && table == old(table)
      ensures status == if key in old(Contents) then DICT_OK else DICT_ERR
      ensures old(table.Length) == 0 ==> status == DICT_ERR
      ensures Contents == old(Contents) - {key}
      ensures used == if key in old(Contents) then old(used) - 1 else old(used)
      ensures keyCalls == if status == DICT_ERR || nofree then [] else FreeEntryKey(dtype, Entry(key, old(Contents)[key]))
      ensures valCalls == if status == DICT_ERR || nofree then [] else FreeEntryVal(dtype, Entry(key, old(Contents)[key]))
      ensures forall b :: 0 <= b < table.Length && b != BucketIndex(HashKey(dtype, key), table.Length) ==>
        table[b] == old(table[b])
      ensures status == DICT_OK ==>
        var b := BucketIndex(HashKey(dtype, key), table.Length);
        exists j :: 0 <= j < |old(table[b])| && old(table[b])[j].key == key && table[b] == Unlink(old(table[b]), j)
    {
      keyCalls, valCalls := [], [];
      if table.Length == 0 {
        NoBucketsNoKeys(table[..], dtype.hashFunction, Contents);
        return DICT_ERR, keyCalls, valCalls;
      }
      var b := BucketIndex(HashKey(dtype, key), table.Length);
      ghost var t0, m0 := table[..], Contents;
      assert Lookup(t0, dtype.hashFunction, key) == Get(m0, key);
      var he := table[b];
      var j := 0;
      while he != []
        invariant 0 <= j <= |t0[b]| && he == t0[b][j..]
        invariant forall p :: 0 <= p < j ==> t0[b][p].key != key
        decreases |he|
      {
        if he[0].key == key {
          UnlinkRepresents(t0, dtype.hashFunction, m0, b, j);
          LinkInMap(t0, dtype.hashFunction, m0, b, j);
          assert he[0] == t0[b][j] == Entry(key, m0[key]);
          var chain: seq<Entry<K, V>>;
          if j > 0 {
            chain := table[b][..j] + he[1..];
          } else {
            chain := he[1..];
          }
          assert chain == Unlink(t0[b], j);
          table[b] := chain;
          assert table[..] == t0[b := chain];
          if !nofree {
            keyCalls := FreeEntryKey(dtype, he[0]);
            valCalls := FreeEntryVal(dtype, he[0]);
          }
          used := used - 1;
          Contents := m0 - {key};
          return DICT_OK, keyCalls, valCalls;
        }
        j := j + 1;
        he := he[1..];
      }
      ChainFindAbsent(table[b], key);
      return DICT_ERR, keyCalls, valCalls;
    }

    /** `dictDelete`: delete `key`, handing its key and value to the destructors. */
    method Delete(key: K) returns (status: int, keyCalls: seq<K>, valCalls: seq<V>)
      requires Valid()
      modifies this, table
      ensures Valid() && table == old(table)
      ensures status == if key in old(Contents) then DICT_OK else DICT_ERR
      ensures Contents == old(Contents) - {key}
      ensures used == if key in old(Contents) then old(used) - 1 else old(used)
      ensures keyCalls == if status == DICT_ERR then [] else FreeEntryKey(dtype, Entry(key, old(Contents)[key]))
      ensures valCalls == if status == DICT_ERR then [] else FreeEntryVal(dtype, Entry(key, old(Contents)[key]))
      ensures forall b :: 0 <= b < table.Length && b != BucketIndex(HashKey(dtype, key), table.Length) ==>
        table[b] == old(table[b])
      ensures status == DICT_OK ==>
        var b := BucketIndex(HashKey(dtype, key), table.Length);
        exists j :: 0 <= j < |old(table[b])| && old(table[b])[j].key == key && table[b] == Unlink(old(table[b]), j)
    {
      status, keyCalls, valCalls := GenericDelete(key, false);
    }

    /**
     * `_dictClear`: free every entry, bucket by bucket and in chain order, then
     * drop the bucket array. Returns the key and value destructor calls made,
     * each in walk order; the source calls the key destructor and then the value
     * destructor of each entry, and that interleaving of the two sequences is not
     * kept.
     */
    method Clear() returns (keyCalls: seq<K>, valCalls: seq<V>)
      requires Valid()
      modifies this
      ensures Valid() && Contents == map[] && used == 0 && table.Length == 0
      ensures keyCalls == KeysFreed(dtype, old(Entries(table[..])))
      ensures valCalls == ValsFreed(dtype, old(Entries(table[..])))
    {
      ghost var t := table[..];
      UsedCountsLinks();
      // `done` is the part of the walk already freed.
      ghost var done: seq<Entry<K, V>> := [];
      assert t[0..] == t;
      keyCalls, valCalls := [], [];
      var i := 0;
      while i < table.Length && used > 0
        invariant table == old(table) && 0 <= i <= table.Length && t == table[..]
        invariant done + Entries(t[i..]) == Entries(t)
        invariant keyCalls == KeysFreed(dtype, done) && valCalls == ValsFreed(dtype, done)
        invariant used == |Entries(t[i..])|
        decreases table.Length - i
      {
        var he := table[i];
        EnterBucket(t, i, done);
        while he != []
          invariant table == old(table) && t == table[..]
          invariant done + he + Entries(t[i + 1..]) == Entries(t)
          invariant keyCalls == KeysFreed(dtype, done) && valCalls == ValsFreed(dtype, done)
          invariant used == |he| + |Entries(t[i + 1..])|
          decreases |he|
        {
          var nextHe := he[1..];
          FreedStep(dtype, done, he, Entries(t[i + 1..]));
          keyCalls := keyCalls + FreeEntryKey(dtype, he[0]);
          valCalls := valCalls + FreeEntryVal(dtype, he[0]);
          done := done + [he[0]];
          used := used - 1;
          he := nextHe;
        }
        assert done + he == done;
        i := i + 1;
      }
      WalkDone(t, i, done);
      table := NewTable(0, dtype.hashFunction);
      used := 0;
      Contents := map[];
    }

    /** `dictEmpty`: the same as `_dictClear`. */
    method Empty() returns (keyCalls: seq<K>, valCalls: seq<V>)
      requires Valid()
      modifies this
      ensures Valid() && Contents == map[] && used == 0 && table.Length == 0
      ensures keyCalls == KeysFreed(dtype, old(Entries(table[..])))
      ensures valCalls == ValsFreed(dtype, old(Entries(table[..])))
    {
      keyCalls, valCalls := Clear();
    }

    /**
     * `dictResize`: shrink or grow to the least table holding the keys, at least
     * four buckets. The count is read into a C `int`, so a table of 2^31 keys
     * or more asks for too few buckets and is refused.
     */
    method Resize() returns (status: int)
      requires Valid()
      modifies this
      ensures Valid()
      ensures Contents == old(Contents) && used == old(used)
      ensures status == if old(used) < 0x8000_0000 then DICT_OK else DICT_ERR
      ensures status == DICT_OK ==> IsNextPower(if used < DICT_HT_INITIAL_SIZE then DICT_HT_INITIAL_SIZE else used, table.Length)
      ensures status == DICT_OK ==> fresh(table)
      ensures status == DICT_ERR ==> table == old(table)
    {
      var minimal := ToInt32(used);
      if minimal < DICT_HT_INITIAL_SIZE {
        minimal := DICT_HT_INITIAL_SIZE;
      }
      status := Expand(minimal);
    }

    /**
     * `dictGetRandomKey`: none for an empty table; otherwise draw buckets until
     * a non-empty one comes up, then draw a position in its chain. The random
     * draws are left to nondeterministic choice. `random()` yields values below
     * `RANDOM_RANGE`, so the bucket `random() & sizemask` is below it too: any
     * non-empty bucket below `RANDOM_RANGE` and any position in it can be
     * picked. When every entry sits in a bucket at or above `RANDOM_RANGE` the
     * source's draw never ends; the model then picks among those buckets.
     */
    method GetRandomKey() returns (r: Option<Entry<K, V>>)
      requires Valid()
      ensures r.None? <==> Contents == map[]
      ensures r.Some? ==> r.value.key in Contents && Contents[r.value.key] == r.value.val
      ensures r.Some? && (exists b :: 0 <= b < table.Length && b < RANDOM_RANGE && table[b] != []) ==>
        BucketIndex(HashKey(dtype, r.value.key), table.Length) < RANDOM_RANGE
    {
      if used == 0 {
        return None;
      }
      ghost var k :| k in Contents;
      ghost var jk := KeyInBucket(table[..], dtype.hashFunction, Contents, k);
      assert table[BucketIndex(HashKey(dtype, k), table.Length)] != [];
      var b: int;
      if exists c :: 0 <= c < table.Length && c < RANDOM_RANGE && table[c] != [] {
        b :| 0 <= b < table.Length && b < RANDOM_RANGE && table[b] != [];
      } else {
        b :| 0 <= b < table.Length && table[b] != [];
      }
      var he := table[b];
      var listlen := 0;
      while he != []
        invariant 0 <= listlen <= |table[b]| && he == table[b][listlen..]
        decreases |he|
      {
        he := he[1..];
        listlen := listlen + 1;
      }
      var listele :| 0 <= listele < listlen;
      ghost var pos := listele;
      he := table[b];
      while listele > 0
        invariant 0 <= listele <= pos && he == table[b][pos - listele..]
      {
        he := he[1..];
        listele := listele - 1;
      }
      LinkInMap(table[..], dtype.hashFunction, Contents, b, pos);
      assert he[0] == table[..][b][pos];
      r := Some(he[0]);
    }
  }

  /** Freeing the head of the chain `he` extends the destructor calls by that entry's. */
  lemma FreedStep<K, V>(dtype: DictType<K>, done: seq<Entry<K, V>>, he: seq<Entry<K, V>>, later: seq<Entry<K, V>>)
    requires he != []
    ensures KeysFreed(dtype, done + [he[0]]) == KeysFreed(dtype, done) + FreeEntryKey(dtype, he[0])
    ensures ValsFreed(dtype, done + [he[0]]) == ValsFreed(dtype, done) + FreeEntryVal(dtype, he[0])
    ensures (done + [he[0]]) + he[1..] + later == done + he + later
  {
    KeysFreedAppend(dtype, done, [he[0]]);
    KeysFreedOne(dtype, he[0]);
    PopHead(done, he, later);
  }

  lemma KeysFreedOne<K, V>(dtype: DictType<K>, e: Entry<K, V>)
    ensures KeysFreed(dtype, [e]) == FreeEntryKey(dtype, e)
    ensures ValsFreed(dtype, [e]) == FreeEntryVal(dtype, e)
  {
    assert [e][1..] == [];
  }

  lemma PopHead<T>(done: seq<T>, he: seq<T>, later: seq<T>)
    requires he != []
    ensures (done + [he[0]]) + he[1..] + later == done + he + later
  {
    assert he == [he[0]] + he[1..];
  }

  /** Entering bucket `i` of `_dictClear`'s walk: the rest of the walk is that chain, then the later buckets. */
  lemma EnterBucket<K, V>(t: Table<K, V>, i: nat, done: seq<Entry<K, V>>)
    requires i < |t| && done + Entries(t[i..]) == Entries(t)
    ensures done + t[i] + Entries(t[i + 1..]) == Entries(t)
    ensures |Entries(t[i..])| == |t[i]| + |Entries(t[i + 1..])|
  {
    EntriesSnoc(t, i);
  }

  /** When `_dictClear`'s walk stops (past the last bucket, or with the count at zero) it has freed the whole walk. */
  lemma WalkDone<K, V>(t: Table<K, V>, i: nat, done: seq<Entry<K, V>>)
    requires i <= |t| && done + Entries(t[i..]) == Entries(t)
    requires i == |t| || |Entries(t[i..])| == 0
    ensures done == Entries(t)
  {
    if i == |t| {
      assert t[i..] == [];
    }
  }

  /** `dictRelease`: clear the table, then free its header (the destructor calls as `Clear` returns them). */
  method Release<K(==,!new), V>(d: Dict<K, V>) returns (keyCalls: seq<K>, valCalls: seq<V>)
    requires d.Valid()
    modifies d
    ensures d.Contents == map[] && d.used == 0 && d.table.Length == 0
    ensures keyCalls == KeysFreed(d.dtype, old(Entries(d.table[..])))
    ensures valCalls == ValsFreed(d.dtype, old(Entries(d.table[..])))
  {
    keyCalls, valCalls := d.Clear();
  }

  // ---------------------------------------------------------------- iteration

  /**
   * How many buckets `dictNext` walks: it compares its `int` index with
   * `(signed)size`, the size truncated to a C `int`, so only sizes below 2^31
   * are walked in full.
   */
  function WalkLimit(n: nat): (r: nat)
    ensures r <= n
    ensures n < 0x8000_0000 ==> r == n
  {
    var s := ToInt32(n);
    if s < 0 then 0 else s
  }

  /** 2^31 and 2^32 are powers of two. */
  lemma WordPowers()
    ensures IsPowerOfTwo(0x8000_0000) && IsPowerOfTwo(UINT32_MODULUS)
  {
    assert IsPowerOfTwo(0x10);
    assert IsPowerOfTwo(0x100);
    assert IsPowerOfTwo(0x1000);
    assert IsPowerOfTwo(0x1_0000);
    assert IsPowerOfTwo(0x10_0000);
    assert IsPowerOfTwo(0x100_0000);
    assert IsPowerOfTwo(0x1000_0000);
  }

  /** The only power of two in `[c, 2c)`, for a power of two `c`, is `c`. */
  lemma PowerWindow(m: nat, c: nat)
    requires IsPowerOfTwo(m) && IsPowerOfTwo(c) && c <= m < 2 * c
    ensures m == c
  {
    if c < m {
      PowerOfTwoBelow(c, m);
    }
  }

  /** A power of two of at least 2^32 is a multiple of 2^32. */
  lemma {:induction false} HugePowerMod(n: nat)
    requires IsPowerOfTwo(n) && n >= UINT32_MODULUS
    ensures n % UINT32_MODULUS == 0
    decreases n
  {
    var m := n / 2;
    assert n == 2 * m && IsPowerOfTwo(m);
    if m >= UINT32_MODULUS {
      HugePowerMod(m);
      var q := m / UINT32_MODULUS;
      assert n == UINT32_MODULUS * (2 * q);
    } else {
      WordPowers();
      PowerWindow(m, 0x8000_0000);
    }
  }

  /** A table of 2^31 or more buckets (a power of two) is walked as though it had none. */
  lemma WalkLimitHuge(n: nat)
    requires IsPowerOfTwo(n) && n >= 0x8000_0000
    ensures WalkLimit(n) == 0
  {
    if n >= UINT32_MODULUS {
      HugePowerMod(n);
    } else {
      WordPowers();
      PowerWindow(n, 0x8000_0000);
    }
  }

  /** `s` is a tail of chain `c`: what `c` holds from some link on. */
  ghost predicate IsSuffix<T>(s: seq<T>, c: seq<T>)
  {
    |s| <= |c| && s == c[|c| - |s|..]
  }

  /** A non-empty tail is its head before its own tail, and that tail is a tail too. */
  lemma SuffixTail<T>(s: seq<T>, c: seq<T>)
    requires IsSuffix(s, c) && s != []
    ensures [s[0]] + s[1..] == s && IsSuffix(s[1..], c)
  {
    assert s[1..] == c[|c| - |s| + 1..];
  }

  /** The chain `c` from its link whose key is `k` on, or nothing when no link has that key. */
  function ChainFrom<K(==), V>(c: seq<Entry<K, V>>, k: K): (r: seq<Entry<K, V>>)
    ensures IsSuffix(r, c)
    ensures r != [] ==> r[0].key == k
    ensures r == [] ==> forall p :: 0 <= p < |c| ==> c[p].key != k
  {
    if c == [] then [] else if c[0].key == k then c else ChainFrom(c[1..], k)
  }

  /** In a chain without repeated keys, a link is found again by its key. */
  lemma {:induction false} ChainFromAt<K, V>(c: seq<Entry<K, V>>, p: nat)
    requires KeysDistinct(c) && p < |c|
    ensures ChainFrom(c, c[p].key) == c[p..]
  {
    var k := c[p].key;
    if p == 0 {
      assert c[0..] == c;
    } else {
      assert c[0].key != k;
      assert ChainFrom(c, k) == ChainFrom(c[1..], k);
      DistinctTail(c);
      ChainFromAt(c[1..], p - 1);
      assert c[1..][p - 1] == c[p];
      assert c[1..][p - 1..] == c[p..];
    }
  }

  /**
   * The links a walk still reaches through the saved `nextEntry`: the live chain
   * of bucket `index` from the link whose key is `nk` on.
   */
  function NextChain<K(==), V>(t: Table<K, V>, index: int, nk: Option<K>): seq<Entry<K, V>>
  {
    if nk.Some? && 0 <= index < |t| then ChainFrom(t[index], nk.value) else []
  }

  /**
   * What a walk still has to yield: the rest of the current chain (when there is
   * a current entry) followed by the chains of the buckets after `index` that the
   * walk reaches.
   */
  ghost function Pending<K, V>(t: Table<K, V>, index: int, current: bool, next: seq<Entry<K, V>>): seq<Entry<K, V>>
  {
    var stop := WalkLimit(|t|);
    var from := if index + 1 < 0 then 0 else if index + 1 > stop then stop else index + 1;
    (if current then next else []) + Entries(t[from..stop])
  }

  /** Stepping from bucket `index` (its chain done) into the next bucket. */
  lemma PendingEnter<K, V>(t: Table<K, V>, index: int, next: seq<Entry<K, V>>)
    requires -1 <= index && index + 1 < WalkLimit(|t|)
    ensures Pending(t, index, false, next) == Pending(t, index + 1, true, t[index + 1])
  {
    var stop := WalkLimit(|t|);
    EntriesSnoc(t[..stop], index + 1);
    assert t[..stop][index + 1..] == t[index + 1..stop];
    assert t[..stop][index + 2..] == t[index + 2..stop];
  }

  /** Past the last walked bucket nothing is pending. */
  lemma PendingPastEnd<K, V>(t: Table<K, V>, index: int, current: bool, next: seq<Entry<K, V>>)
    requires index + 1 >= WalkLimit(|t|) && !current
    ensures Pending(t, index, current, next) == []
  {
    var stop := WalkLimit(|t|);
    assert t[stop..stop] == [];
  }

  /** Returning the head of the current chain leaves its tail pending. */
  lemma PendingPop<K, V>(t: Table<K, V>, index: int, chain: seq<Entry<K, V>>, pending: seq<Entry<K, V>>)
    requires chain != [] && pending == Pending(t, index, true, chain)
    ensures pending != [] && pending[0] == chain[0]
    ensures Pending(t, index, true, chain[1..]) == pending[1..]
  {
    assert chain == [chain[0]] + chain[1..];
    assert pending == [chain[0]] + Pending(t, index, true, chain[1..]);
  }

  /** Leaving an exhausted chain: nothing of it is pending any more. */
  lemma PendingChainEnd<K, V>(t: Table<K, V>, index: int, next: seq<Entry<K, V>>)
    ensures Pending(t, index, true, []) == Pending(t, index, false, next)
  {
  }

  /**
   * The bucket scan of `dictNext` once the current chain is exhausted: step to
   * the next bucket while the index is below the size cast to `int`, and stop
   * at the first non-empty chain, whose head is the next entry.
   */
  method SeekBucket<K, V>(table: array<seq<Entry<K, V>>>, index: int)
    returns (i: int, cur: Option<Entry<K, V>>, next: seq<Entry<K, V>>)
    requires -1 <= index
    ensures -1 <= i && (cur.Some? ==> 0 <= i < WalkLimit(table.Length) && IsSuffix([cur.value] + next, table[i]))
    ensures cur.None? ==> next == []
    ensures var p := Pending(table[..], index, false, []);
      && cur == (if p == [] then None else Some(p[0]))
      && Pending(table[..], i, cur.Some?, next) == (if p == [] then [] else p[1..])
  {
    ghost var t := table[..];
    ghost var pending := Pending(t, index, false, []);
    var stop := WalkLimit(table.Length);
    i := index;
    while true
      invariant -1 <= i && Pending(t, i, false, []) == pending
      decreases |t| - i
    {
      if i + 1 < stop {
        PendingEnter(t, i, []);
      } else {
        PendingPastEnd(t, i, false, []);
      }
      i := i + 1;
      if i >= stop {
        break;
      }
      var chain := table[i];
      if chain != [] {
        PendingPop(t, i, chain, pending);
        SuffixTail(chain, t[i]);
        assert t[i][|t[i]| - |chain|..] == chain;
        cur, next := Some(chain[0]), chain[1..];
        return;
      }
      PendingChainEnd(t, i, []);
    }
    PendingPastEnd(t, i, false, []);
    cur, next := None, [];
  }

  /**
   * The walk of `dictNext` over the buckets of `table`, from the position
   * (`index`, current entry, live rest of its chain): the position of the next
   * entry, whose chain tail is the rest of its bucket, or a position past the
   * last walked bucket when none is left.
   */
  method Advance<K, V>(table: array<seq<Entry<K, V>>>, index: int, entry: Option<Entry<K, V>>, nextChain: seq<Entry<K, V>>)
    returns (i: int, cur: Option<Entry<K, V>>, next: seq<Entry<K, V>>)
    requires -1 <= index && (entry.Some? ==> 0 <= index < WalkLimit(table.Length) && IsSuffix(nextChain, table[index]))
    requires entry.None? ==> nextChain == []
    ensures -1 <= i && (cur.Some? ==> 0 <= i < WalkLimit(table.Length) && IsSuffix([cur.value] + next, table[i]))
    ensures cur.None? ==> next == []
    ensures var p := Pending(table[..], index, entry.Some?, nextChain);
      && cur == (if p == [] then None else Some(p[0]))
      && Pending(table[..], i, cur.Some?, next) == (if p == [] then [] else p[1..])
  {
    if entry.Some? && nextChain != [] {
      ghost var t := table[..];
      PendingPop(t, index, nextChain, Pending(t, index, true, nextChain));
      SuffixTail(nextChain, t[index]);
      return index, Some(nextChain[0]), nextChain[1..];
    }
    if entry.Some? {
      PendingChainEnd(table[..], index, []);
    }
    i, cur, next := SeekBucket(table, index);
  }

  /**
   * Where an iterator stands in table `t`: `index` is the bucket being walked,
   * `entry` the link last returned from it, and `nk` the key of the saved
   * `nextEntry`, still linked in that bucket. The entry last returned is not in
   * the walk's future.
   */
  ghost predicate Positioned<K, V>(t: Table<K, V>, h: K -> uint32, index: int, entry: Option<Entry<K, V>>, nk: Option<K>)
  {
    && Placed(t, h)
    && ChainsDistinct(t)
    && -1 <= index
    && (entry.Some? ==> 0 <= index < WalkLimit(|t|) && BucketIndex(h(entry.value.key), |t|) == index)
    && (nk.Some? ==> entry.Some? && NextChain(t, index, nk) != [])
    && (entry.Some? ==> forall x :: x in NextChain(t, index, nk) ==> x.key != entry.value.key)
  }

  /** What the walk of an iterator so positioned still has to yield. */
  ghost function Walk<K, V>(t: Table<K, V>, index: int, current: bool, nk: Option<K>): seq<Entry<K, V>>
  {
    Pending(t, index, current, NextChain(t, index, nk))
  }

  // ---------------------------------------------------------------- deleting while walking

  /** The entries of `s` whose key is not `k`, in order. */
  function Without<K(==), V>(s: seq<Entry<K, V>>, k: K): seq<Entry<K, V>>
  {
    if s == [] then [] else (if s[0].key == k then [] else [s[0]]) + Without(s[1..], k)
  }

  /** Dropping a key keeps only entries of the original, none with that key. */
  lemma {:induction false} WithoutMembers<K, V>(s: seq<Entry<K, V>>, k: K)
    ensures forall x :: x in Without(s, k) ==> x in s && x.key != k
  {
    if s != [] {
      WithoutMembers(s[1..], k);
    }
  }

  lemma {:induction false} WithoutAppend<K, V>(a: seq<Entry<K, V>>, b: seq<Entry<K, V>>, k: K)
    ensures Without(a + b, k) == Without(a, k) + Without(b, k)
  {
    if a == [] {
      assert a + b == b;
    } else {
      assert (a + b)[0] == a[0];
      assert (a + b)[1..] == a[1..] + b;
      WithoutAppend(a[1..], b, k);
    }
  }

  /** The tail of a chain without repeated keys has none either. */
  lemma DistinctTail<K, V>(c: seq<Entry<K, V>>)
    requires KeysDistinct(c) && c != []
    ensures KeysDistinct(c[1..])
  {
    forall a, b | 0 <= a < b < |c| - 1 ensures c[1..][a].key != c[1..][b].key {
      assert c[1..][a] == c[a + 1] && c[1..][b] == c[b + 1];
    }
  }

  lemma {:induction false} WithoutAbsent<K, V>(s: seq<Entry<K, V>>, k: K)
    requires forall x :: x in s ==> x.key != k
    ensures Without(s, k) == s
  {
    if s != [] {
      assert s[0] in s;
      WithoutAbsent(s[1..], k);
    }
  }

  /** In a chain without repeated keys, unlinking a link drops exactly its key. */
  lemma {:induction false} WithoutUnlink<K, V>(c: seq<Entry<K, V>>, j: nat)
    requires KeysDistinct(c) && j < |c|
    ensures Unlink(c, j) == Without(c, c[j].key)
  {
    var k := c[j].key;
    DistinctTail(c);
    if j == 0 {
      forall x | x in c[1..] ensures x.key != k {
        var p :| 0 <= p < |c| - 1 && c[1..][p] == x;
        assert x == c[p + 1];
      }
      WithoutAbsent(c[1..], k);
      assert Unlink(c, 0) == c[1..];
    } else {
      assert c[0].key != k;
      assert c[1..][j - 1] == c[j];
      WithoutUnlink(c[1..], j - 1);
      assert Unlink(c, j) == [c[0]] + Unlink(c[1..], j - 1);
    }
  }

  /** Dropping a key other than `nk` commutes with following the chain from `nk`. */
  lemma {:induction false} ChainFromWithout<K, V>(c: seq<Entry<K, V>>, k: K, nk: K)
    requires k != nk
    ensures ChainFrom(Without(c, k), nk) == Without(ChainFrom(c, nk), k)
  {
    if c != [] {
      var w1 := Without(c[1..], k);
      if c[0].key == k {
        assert Without(c, k) == w1;
        assert ChainFrom(c, nk) == ChainFrom(c[1..], nk);
        ChainFromWithout(c[1..], k, nk);
      } else {
        var w := [c[0]] + w1;
        assert Without(c, k) == w;
        assert w[0] == c[0] && w[1..] == w1;
        if c[0].key != nk {
          assert ChainFrom(w, nk) == ChainFrom(w1, nk);
          assert ChainFrom(c, nk) == ChainFrom(c[1..], nk);
          ChainFromWithout(c[1..], k, nk);
        }
      }
    }
  }

  /** Dropping a key from every chain drops it from the walk over them. */
  lemma {:induction false} EntriesWithout<K, V>(t: Table<K, V>, t': Table<K, V>, k: K)
    requires |t'| == |t| && forall b :: 0 <= b < |t| ==> t'[b] == Without(t[b], k)
    ensures Entries(t') == Without(Entries(t), k)
  {
    if t != [] {
      EntriesWithout(t[1..], t'[1..], k);
      WithoutAppend(t[0], Entries(t[1..]), k);
    }
  }

  /** A key hashing to a bucket before `from` is not in the walk of the buckets from `from` on. */
  lemma SliceAbsent<K, V>(t: Table<K, V>, h: K -> uint32, from: nat, stop: nat, k: K)
    requires Placed(t, h) && from <= stop <= |t| && 0 < |t| && BucketIndex(h(k), |t|) < from
    ensures forall x :: x in Entries(t[from..stop]) ==> x.key != k
  {
    forall x | x in Entries(t[from..stop]) ensures x.key != k {
      var i, j := EntriesMember(t[from..stop], x);
      assert x == t[from + i][j];
    }
  }

  /** A placed table holds a key only in the bucket it hashes to. */
  lemma OtherBucketAbsent<K, V>(t: Table<K, V>, h: K -> uint32, b: nat, k: K)
    requires Placed(t, h) && b < |t| && BucketIndex(h(k), |t|) != b
    ensures Without(t[b], k) == t[b]
  {
    PlacedChain(t, h, b);
    WithoutAbsent(t[b], k);
  }

  /** Unlinking a link keeps every entry in its bucket. */
  lemma UnlinkPlaced<K, V>(t: Table<K, V>, h: K -> uint32, b: nat, j: nat)
    requires Placed(t, h) && b < |t| && j < |t[b]|
    ensures Placed(t[b := Unlink(t[b], j)], h)
  {
    var t': Table<K, V> := t[b := Unlink(t[b], j)];
    forall a, q | 0 <= a < |t'| && 0 <= q < |t'[a]| ensures BucketIndex(h(t'[a][q].key), |t'|) == a {
      if a == b {
        assert t'[a][q] == t[b][if q < j then q else q + 1];
      }
    }
  }

  /** Unlinking a link repeats no key. */
  lemma UnlinkDistinct<K, V>(t: Table<K, V>, b: nat, j: nat)
    requires ChainsDistinct(t) && b < |t| && j < |t[b]|
    ensures ChainsDistinct(t[b := Unlink(t[b], j)])
  {
    var t': Table<K, V> := t[b := Unlink(t[b], j)];
    forall a, q1, q2 | 0 <= a < |t'| && 0 <= q1 < q2 < |t'[a]| ensures t'[a][q1].key != t'[a][q2].key {
      if a == b {
        assert t'[a][q1] == t[b][if q1 < j then q1 else q1 + 1];
        assert t'[a][q2] == t[b][if q2 < j then q2 else q2 + 1];
      }
    }
  }

  /** In a placed table without repeated keys, unlinking a link drops its key from every chain. */
  lemma UnlinkIsWithout<K, V>(t: Table<K, V>, h: K -> uint32, b: nat, j: nat)
    requires Placed(t, h) && ChainsDistinct(t) && b < |t| && j < |t[b]|
    ensures var t' := t[b := Unlink(t[b], j)];
      forall a :: 0 <= a < |t| ==> t'[a] == Without(t[a], t[b][j].key)
  {
    var k := t[b][j].key;
    assert KeysDistinct(t[b]);
    WithoutUnlink(t[b], j);
    assert BucketIndex(h(k), |t|) == b;
    forall a | 0 <= a < |t| && a != b ensures t[a] == Without(t[a], k) {
      OtherBucketAbsent(t, h, a, k);
    }
  }

  /** Dropping a key from every chain and from the current chain tail drops it from what is pending. */
  lemma PendingWithout<K, V>(t: Table<K, V>, t': Table<K, V>, index: int, current: bool, next: seq<Entry<K, V>>, k: K)
    requires |t'| == |t| && forall a :: 0 <= a < |t| ==> t'[a] == Without(t[a], k)
    ensures Pending(t', index, current, Without(next, k)) == Without(Pending(t, index, current, next), k)
  {
    var stop := WalkLimit(|t|);
    var from := if index + 1 < 0 then 0 else if index + 1 > stop then stop else index + 1;
    forall a | 0 <= a < stop - from ensures t'[from..stop][a] == Without(t[from..stop][a], k) {
      assert t'[from..stop][a] == t'[from + a] && t[from..stop][a] == t[from + a];
    }
    EntriesWithout(t[from..stop], t'[from..stop], k);
    if current {
      WithoutAppend(next, Entries(t[from..stop]), k);
    } else {
      assert Pending(t, index, current, next) == Entries(t[from..stop]);
    }
  }

  /** Unlinking any entry but the saved `nextEntry` keeps an iterator positioned. */
  lemma DeleteKeepsPositioned<K, V>(t: Table<K, V>, h: K -> uint32, index: int, entry: Option<Entry<K, V>>, nk: Option<K>,
                                    b: nat, j: nat)
    requires Positioned(t, h, index, entry, nk)
    requires b < |t| && j < |t[b]| && nk != Some(t[b][j].key)
    ensures NextChain(t[b := Unlink(t[b], j)], index, nk) == Without(NextChain(t, index, nk), t[b][j].key)
    ensures Positioned(t[b := Unlink(t[b], j)], h, index, entry, nk)
  {
    var k := t[b][j].key;
    var t': Table<K, V> := t[b := Unlink(t[b], j)];
    UnlinkPlaced(t, h, b, j);
    UnlinkDistinct(t, b, j);
    UnlinkIsWithout(t, h, b, j);
    var nc := NextChain(t, index, nk);
    if nk.Some? && 0 <= index < |t| {
      ChainFromWithout(t[index], k, nk.value);
    }
    WithoutMembers(nc, k);
    if nk.Some? {
      assert nc != [] && nc[0].key == nk.value != k;
      assert Without(nc, k) == [nc[0]] + Without(nc[1..], k);
    }
  }

  /**
   * Unlinking any entry but the saved `nextEntry` while a walk is under way
   * (`dictDelete` of its key) leaves the iterator positioned, and the walk then
   * yields what it would have yielded, less the deleted key.
   */
  lemma DeleteDuringWalk<K, V>(t: Table<K, V>, h: K -> uint32, index: int, entry: Option<Entry<K, V>>, nk: Option<K>,
                               b: nat, j: nat)
    requires Positioned(t, h, index, entry, nk)
    requires b < |t| && j < |t[b]| && nk != Some(t[b][j].key)
    ensures var t' := t[b := Unlink(t[b], j)];
      && Positioned(t', h, index, entry, nk)
      && Walk(t', index, entry.Some?, nk) == Without(Walk(t, index, entry.Some?, nk), t[b][j].key)
  {
    DeleteKeepsPositioned(t, h, index, entry, nk, b, j);
    UnlinkIsWithout(t, h, b, j);
    PendingWithout(t, t[b := Unlink(t[b], j)], index, entry.Some?, NextChain(t, index, nk), t[b][j].key);
  }

  /**
   * The deletion `dictNext` allows for: deleting the entry just returned leaves
   * the iterator positioned and its walk unchanged, because the next entry was
   * saved before the current one could be freed.
   */
  lemma DeleteReturnedKeepsWalk<K, V>(t: Table<K, V>, h: K -> uint32, index: int, entry: Option<Entry<K, V>>, nk: Option<K>,
                                      b: nat, j: nat)
    requires Positioned(t, h, index, entry, nk)
    requires entry.Some? && b < |t| && j < |t[b]| && t[b][j].key == entry.value.key
    ensures var t' := t[b := Unlink(t[b], j)];
      && Positioned(t', h, index, entry, nk)
      && Walk(t', index, true, nk) == Walk(t, index, true, nk)
  {
    var k := entry.value.key;
    var nc := NextChain(t, index, nk);
    if nk.Some? {
      assert nc[0] in nc;
    }
    DeleteDuringWalk(t, h, index, entry, nk, b, j);
    var stop := WalkLimit(|t|);
    SliceAbsent(t, h, index + 1, stop, k);
    forall x | x in Walk(t, index, true, nk) ensures x.key != k {
      assert x in nc || x in Entries(t[index + 1..stop]);
    }
    WithoutAbsent(Walk(t, index, true, nk), k);
  }

  /**
   * A link and the rest of its chain, in a chain without repeated keys: the
   * link is in the chain, no later link shares its key, and the rest is found
   * again from its first key.
   */
  lemma TailAfter<K, V>(c: seq<Entry<K, V>>, e: Entry<K, V>, rest: seq<Entry<K, V>>)
    requires KeysDistinct(c) && IsSuffix([e] + rest, c)
    ensures e in c
    ensures forall x :: x in rest ==> x.key != e.key
    ensures rest != [] ==> ChainFrom(c, rest[0].key) == rest
  {
    var p := |c| - |rest|;
    assert c[p - 1..] == [e] + rest;
    assert c[p - 1] == e;
    assert c[p..] == rest;
    if rest != [] {
      ChainFromAt(c, p);
    }
    forall x | x in rest ensures x.key != e.key {
      var q :| 0 <= q < |rest| && rest[q] == x;
      assert x == c[p + q];
    }
  }

  /**
   * Where `dictNext` leaves an iterator: at the entry `cur` it returns, with the
   * rest of that entry's chain reached again through the saved next key.
   */
  lemma Repositioned<K, V>(t: Table<K, V>, h: K -> uint32, i: int, cur: Option<Entry<K, V>>, rest: seq<Entry<K, V>>)
    requires Placed(t, h) && ChainsDistinct(t) && -1 <= i
    requires cur.Some? ==> 0 <= i < WalkLimit(|t|) && IsSuffix([cur.value] + rest, t[i])
    requires cur.None? ==> rest == []
    ensures var nk := if rest == [] then None else Some(rest[0].key);
      && Positioned(t, h, i, cur, nk)
      && (cur.Some? ==> NextChain(t, i, nk) == rest)
  {
    if cur.Some? {
      assert KeysDistinct(t[i]);
      TailAfter(t[i], cur.value, rest);
      PlacedChain(t, h, i);
    }
  }

  class DictIterator<K(==,!new), V> {
    const d: Dict<K, V>
    var index: int
    /** The entry last returned, if the walk is inside a chain. */
    var entry: Option<Entry<K, V>>
    /** The key of `nextEntry`, the link after `entry` saved when it was returned. */
    var nextKey: Option<K>

    ghost predicate Valid()
      reads this, d, d.table
    {
      Positioned(d.table[..], d.dtype.hashFunction, index, entry, nextKey)
    }

    /** The entries the walk has still to return, in order. */
    ghost function Remaining(): seq<Entry<K, V>>
      reads this, d, d.table
    {
      Walk(d.table[..], index, entry.Some?, nextKey)
    }

    /**
     * `dictGetIterator`: a walk of the whole table, from before the first bucket;
     * a table of 2^31 or more buckets is walked as empty.
     */
    constructor (dict: Dict<K, V>)
      requires dict.Valid()
      ensures d == dict && Valid()
      ensures index == -1 && entry == None && nextKey == None
      ensures dict.table.Length < 0x8000_0000 ==> Remaining() == Entries(dict.table[..])
      ensures dict.table.Length >= 0x8000_0000 ==> Remaining() == []
    {
      d := dict;
      index := -1;
      entry := None;
      nextKey := None;
      new;
      if d.table.Length >= 0x8000_0000 {
        WalkLimitHuge(d.table.Length);
        assert d.table[..][0..0] == [];
      } else {
        assert d.table[..][0..d.table.Length] == d.table[..];
      }
    }

    /**
     * `dictNext`: the next entry of the walk, bucket by bucket and following the
     * live links from the saved next entry, or none once the last walked bucket
     * is passed.
     */
    method Next() returns (r: Option<Entry<K, V>>)
      requires Valid()
      modifies this
      ensures Valid()
      ensures r == if old(Remaining()) == [] then None else Some(old(Remaining())[0])
      ensures Remaining() == if r.None? then [] else old(Remaining())[1..]
      ensures r.Some? ==> entry == r
    {
      ghost var t := d.table[..];
      var chain: seq<Entry<K, V>> := [];
      if nextKey.Some? && 0 <= index < d.table.Length {
        chain := ChainFrom(d.table[index], nextKey.value);
      }
      assert chain == NextChain(t, index, nextKey);
      var i, cur, rest := Advance(d.table, index, entry, chain);
      Repositioned(t, d.dtype.hashFunction, i, cur, rest);
      index, entry := i, cur;
      nextKey := if rest == [] then None else Some(rest[0].key);
      r := cur;
    }
  }
}
