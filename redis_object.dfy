/**
 * The object layer of redis.c, on values: the `robj` header and its tags, the
 * string a string object denotes, the comparison and hashing of string
 * objects, the state of the live headers and of the free list of recycled
 * headers, and the effect on that state of creating an object and of taking
 * and dropping references to a resident one.
 */
module RedisObject {
  import opened Common
  import opened Dict

  // ---------------------------------------------------------------- tags

  const REDIS_STRING: int := 0
  const REDIS_LIST: int := 1
  const REDIS_SET: int := 2
  const REDIS_ZSET: int := 3
  const REDIS_HASH: int := 4

  const REDIS_ENCODING_RAW: int := 0
  const REDIS_ENCODING_INT: int := 1
  const REDIS_ENCODING_ZIPMAP: int := 2
  const REDIS_ENCODING_HT: int := 3

  /** Where the value of a key object lives. */
  const REDIS_VM_MEMORY: int := 0
  const REDIS_VM_SWAPPED: int := 1
  const REDIS_VM_SWAPPING: int := 2
  const REDIS_VM_LOADING: int := 3

  /** The free list may grow past this bound by one header, but no further. */
  const REDIS_OBJFREELIST_MAX: nat := 1000000

  /** `sizeof(robj)`: the payload pointer, four tag bytes, the count, and the 24-byte VM part. */
  const ROBJ_SIZE: nat := 40
  /** The header without its VM part, allocated when VM is off. */
  const ROBJ_SIZE_NO_VM: nat := 16

  const LONG_MIN: int := -0x8000_0000_0000_0000

  /**
   * What `ptr` points at: the bytes of an sds string, a `long` stored in the
   * pointer itself (integer encoding), or a list, set, sorted set or hash whose
   * code is not part of this model.
   */
  datatype Payload = Sds(bytes: seq<byte>) | Long(n: int) | Foreign(addr: nat)

  /** `robj`, with its VM part (`vm.page`, `vm.usedpages`, `vm.atime`) flattened. */
  datatype RObj = RObj(objType: int, encoding: int, storage: int, refcount: int, ptr: Payload,
                       vmPage: int, vmUsedPages: int, atime: int)

  /** A header holding a string: raw over sds bytes, or integer-encoded over a `long`. */
  predicate HasStringPayload(o: RObj)
  {
    || (o.encoding == REDIS_ENCODING_RAW && o.ptr.Sds?)
    || (o.encoding == REDIS_ENCODING_INT && o.ptr.Long? && LONG_MIN <= o.ptr.n <= LONG_MAX)
  }

  /** A string object as the code builds them. */
  predicate IsStringObject(o: RObj)
  {
    o.objType == REDIS_STRING && HasStringPayload(o)
  }

  // ---------------------------------------------------------------- decimal rendering

  const ASCII_ZERO: byte := 48
  const ASCII_MINUS: byte := 45

  /** The decimal digits of `n`, most significant first, without leading zeros. */
  function Digits(n: nat): (s: seq<byte>)
    ensures |s| >= 1
    ensures forall i :: 0 <= i < |s| ==> ASCII_ZERO <= s[i] <= ASCII_ZERO + 9
    ensures |s| > 1 ==> s[0] != ASCII_ZERO
  {
    if n < 10 then [ASCII_ZERO + n] else Digits(n / 10) + [ASCII_ZERO + n % 10]
  }

  /** What `snprintf(buf, len, "%ld", n)` writes, terminator aside. */
  function Decimal(n: int): (s: seq<byte>)
    ensures s != [] && 0 !in s
  {
    if n < 0 then [ASCII_MINUS] + Digits(-n) else Digits(n)
  }

  /** The value of a run of decimal digits. */
  function ParseDigits(s: seq<byte>): int
    requires s != []
    decreases |s|
  {
    if |s| == 1 then s[0] - ASCII_ZERO
    else ParseDigits(s[..|s| - 1]) * 10 + (s[|s| - 1] - ASCII_ZERO)
  }

  /** The value of an optionally signed decimal numeral. */
  function ParseDecimal(s: seq<byte>): int
    requires s != []
  {
    if s[0] == ASCII_MINUS && |s| > 1 then -ParseDigits(s[1..]) else ParseDigits(s)
  }

  lemma {:induction false} DigitsRoundTrip(n: nat)
    ensures ParseDigits(Digits(n)) == n
  {
    if n >= 10 {
      var s := Digits(n);
      assert s[..|s| - 1] == Digits(n / 10);
      DigitsRoundTrip(n / 10);
    }
  }

  /** Reading back the rendering of a `long` gives the `long`. */
  lemma DecimalRoundTrip(n: int)
    ensures ParseDecimal(Decimal(n)) == n
  {
    if n < 0 {
      DigitsRoundTrip(-n);
      assert Decimal(n)[1..] == Digits(-n);
    } else {
      DigitsRoundTrip(n);
    }
  }

  /** Distinct integers render as distinct strings. */
  lemma DecimalInjective(a: int, b: int)
    requires Decimal(a) == Decimal(b)
    ensures a == b
  {
    DecimalRoundTrip(a);
    DecimalRoundTrip(b);
  }

  // ---------------------------------------------------------------- strings

  /** The string a string object stands for: its sds bytes, or the decimal rendering of its integer. */
  function StringValue(o: RObj): seq<byte>
    requires HasStringPayload(o)
  {
    if o.encoding == REDIS_ENCODING_RAW then o.ptr.bytes else Decimal(o.ptr.n)
  }

  /**
   * The sign of an unsigned byte-wise comparison (`memcmp` on the common
   * length, then the shorter first), which is what `strcmp` and sds's `sdscmp`
   * agree on; only the sign of their results is used.
   */
  function Lex(a: seq<byte>, b: seq<byte>): (r: int)
    ensures -1 <= r <= 1
  {
    if a == [] && b == [] then 0
    else if a == [] then -1
    else if b == [] then 1
    else if a[0] < b[0] then -1
    else if a[0] > b[0] then 1
    else Lex(a[1..], b[1..])
  }

  lemma {:induction false} LexZeroIff(a: seq<byte>, b: seq<byte>)
    ensures Lex(a, b) == 0 <==> a == b
  {
    if a != [] && b != [] && a[0] == b[0] {
      LexZeroIff(a[1..], b[1..]);
      assert a == [a[0]] + a[1..] && b == [b[0]] + b[1..];
    }
  }

  lemma {:induction false} LexAntisymmetric(a: seq<byte>, b: seq<byte>)
    ensures Lex(b, a) == -Lex(a, b)
  {
    if a != [] && b != [] && a[0] == b[0] {
      LexAntisymmetric(a[1..], b[1..]);
    }
  }

  /**
   * `compareStringObjects`: 0 for the same object; otherwise `sdscmp` of the two
   * sds strings when both are raw, else `strcmp` of the C strings (the decimal
   * rendering of an integer-encoded side).
   */
  function CompareStringObjects(objects: map<nat, RObj>, a: nat, b: nat): (r: int)
    requires a in objects && b in objects
    requires IsStringObject(objects[a]) && IsStringObject(objects[b])
    ensures -1 <= r <= 1
    ensures a == b ==> r == 0
  {
    if a == b then 0
    else if objects[a].encoding == REDIS_ENCODING_RAW && objects[b].encoding == REDIS_ENCODING_RAW then
      Lex(objects[a].ptr.bytes, objects[b].ptr.bytes)
    else
      Lex(CString(StringValue(objects[a])), CString(StringValue(objects[b])))
  }

  /**
   * For strings without NUL bytes, two objects compare equal exactly when they
   * are the same object or stand for the same string, whatever their encodings.
   */
  lemma CompareStringObjectsZero(objects: map<nat, RObj>, a: nat, b: nat)
    requires a in objects && b in objects
    requires IsStringObject(objects[a]) && IsStringObject(objects[b])
    requires 0 !in StringValue(objects[a]) && 0 !in StringValue(objects[b])
    ensures CompareStringObjects(objects, a, b) == 0 <==> a == b || StringValue(objects[a]) == StringValue(objects[b])
  {
    LexZeroIff(StringValue(objects[a]), StringValue(objects[b]));
  }

  /** Swapping the arguments flips the sign. */
  lemma CompareStringObjectsAntisymmetric(objects: map<nat, RObj>, a: nat, b: nat)
    requires a in objects && b in objects
    requires IsStringObject(objects[a]) && IsStringObject(objects[b])
    ensures CompareStringObjects(objects, b, a) == -CompareStringObjects(objects, a, b)
  {
    if objects[a].encoding == REDIS_ENCODING_RAW && objects[b].encoding == REDIS_ENCODING_RAW {
      LexAntisymmetric(objects[a].ptr.bytes, objects[b].ptr.bytes);
    } else {
      LexAntisymmetric(CString(StringValue(objects[a])), CString(StringValue(objects[b])));
    }
  }

  /**
   * `sdsDictKeyCompare`: equal lengths (read into C `int`s) and equal bytes over
   * that length. Keys are shorter than 2^31 bytes, so the lengths are exact.
   */
  function SdsDictKeyCompare(key1: seq<byte>, key2: seq<byte>): (r: bool)
    requires |key1| < 0x8000_0000 && |key2| < 0x8000_0000
    ensures r <==> key1 == key2
  {
    var l1 := ToInt32(|key1|);
    var l2 := ToInt32(|key2|);
    if l1 != l2 then false else key1[..l1] == key2[..l1]
  }

  /**
   * `dictEncObjHash`: djb2 over the sds bytes of a raw object, and over the
   * decimal rendering of an integer-encoded one. (Any other encoding reaches
   * `getDecodedObject`, which aborts on it.) The sds length reaches
   * `dictGenHashFunction` as a C `int`, so raw strings are shorter than 2^31 bytes.
   */
  function EncObjHash(o: RObj): (h: uint32)
    requires HasStringPayload(o)
    requires o.encoding == REDIS_ENCODING_RAW ==> |o.ptr.bytes| < 0x8000_0000
    ensures h == Djb2(StringValue(o))
  {
    if o.encoding == REDIS_ENCODING_RAW then Djb2(o.ptr.bytes) else Djb2(Decimal(o.ptr.n))
  }

  /**
   * The hash ignores the encoding: an integer-encoded object hashes as the raw
   * object holding its decimal rendering, so the two find the same bucket.
   */
  lemma EncObjHashIgnoresEncoding(a: RObj, b: RObj)
    requires HasStringPayload(a) && HasStringPayload(b)
    requires a.encoding == REDIS_ENCODING_INT && b.encoding == REDIS_ENCODING_RAW
    requires b.ptr.bytes == Decimal(a.ptr.n) && |b.ptr.bytes| < 0x8000_0000
    ensures EncObjHash(a) == EncObjHash(b)
  {
  }

  // ---------------------------------------------------------------- headers and the free list

  /** The type destructors `decrRefCount` dispatches to (their bodies are sds, adlist and dict code). */
  datatype Destructor = FreeString | FreeList | FreeSet | FreeZset | FreeHash

  /** One destructor call on one object's payload. */
  datatype Release = Release(obj: nat, destructor: Destructor)

  /** The dispatch of `decrRefCount` has a case for the header (anything else trips `redisAssert`). */
  predicate CanDispatch(o: RObj)
  {
    && REDIS_STRING <= o.objType <= REDIS_HASH
    && (o.objType == REDIS_HASH ==> o.encoding == REDIS_ENCODING_ZIPMAP || o.encoding == REDIS_ENCODING_HT)
  }

  /** The destructor `decrRefCount`'s switch picks for a header. */
  function TypeDestructor(o: RObj): (d: Destructor)
    requires CanDispatch(o)
    ensures d == FreeString <==> o.objType == REDIS_STRING
    ensures d == FreeList <==> o.objType == REDIS_LIST
    ensures d == FreeSet <==> o.objType == REDIS_SET
    ensures d == FreeZset <==> o.objType == REDIS_ZSET
    ensures d == FreeHash <==> o.objType == REDIS_HASH
  {
    if o.objType == REDIS_STRING then FreeString
    else if o.objType == REDIS_LIST then FreeList
    else if o.objType == REDIS_SET then FreeSet
    else if o.objType == REDIS_ZSET then FreeZset
    else FreeHash
  }

  /**
   * The objects, on values: the live headers by address, the free list of
   * recycled headers (head first), the addresses of all live heap blocks, and the
   * type destructor calls made so far.
   */
  datatype ObjState = ObjState(objects: map<nat, RObj>, freelist: seq<nat>, blocks: set<nat>, released: seq<Release>)

  /**
   * Live headers are allocated blocks; free-list headers are allocated,
   * not live and listed once; and the list never exceeds its bound by more than
   * the one header the `>` test lets through.
   */
  ghost predicate Inv(s: ObjState)
  {
    && 0 !in s.blocks
    && (forall id :: id in s.objects ==> id in s.blocks)
    && (forall i :: 0 <= i < |s.freelist| ==> s.freelist[i] in s.blocks && s.freelist[i] !in s.objects)
    && (forall i, j :: 0 <= i < j < |s.freelist| ==> s.freelist[i] != s.freelist[j])
    && |s.freelist| <= REDIS_OBJFREELIST_MAX + 1
  }

  /** The end of every release: the header goes on the free list, or back to the heap when the list is over its bound. */
  function PutHeader(s: ObjState, o: nat): ObjState
  {
    if |s.freelist| > REDIS_OBJFREELIST_MAX then s.(blocks := s.blocks - {o})
    else s.(freelist := [o] + s.freelist)
  }

  /** `incrRefCount`. */
  function Incr(s: ObjState, o: nat): ObjState
    requires o in s.objects
  {
    s.(objects := s.objects[o := s.objects[o].(refcount := s.objects[o].refcount + 1)])
  }

  /**
   * `decrRefCount` on an object with no pending swap job: one reference fewer;
   * at zero, the type destructor runs and the header is released.
   */
  function DecrResident(s: ObjState, o: nat): ObjState
    requires o in s.objects
    requires s.objects[o].refcount == 1 ==> CanDispatch(s.objects[o])
  {
    var obj := s.objects[o];
    if obj.refcount - 1 == 0 then
      PutHeader(s.(objects := s.objects - {o}, released := s.released + [Release(o, TypeDestructor(obj))]), o)
    else
      s.(objects := s.objects[o := obj.(refcount := obj.refcount - 1)])
  }

  /**
   * The header `createObject` fills in: the given type and payload, raw
   * encoding, one reference and, with VM on, resident storage and the cached
   * clock as access time. The remaining fields keep what the recycled or fresh
   * header held (`leftover`), which the code does not set.
   */
  function NewObject(objType: int, ptr: Payload, vmEnabled: bool, unixtime: int, leftover: RObj): (o: RObj)
    ensures o.objType == objType && o.ptr == ptr && o.refcount == 1 && o.encoding == REDIS_ENCODING_RAW
    ensures vmEnabled ==> o.storage == REDIS_VM_MEMORY && o.atime == unixtime
  {
    RObj(objType, REDIS_ENCODING_RAW, if vmEnabled then REDIS_VM_MEMORY else leftover.storage, 1, ptr,
         leftover.vmPage, leftover.vmUsedPages, if vmEnabled then unixtime else leftover.atime)
  }

  /** The address `createObject` uses: the free list's head, or the fresh block otherwise. */
  function NewAddress(s: ObjState, newAddr: nat): nat
  {
    if s.freelist != [] then s.freelist[0] else newAddr
  }

  /** `createObject`: take the free list's head, or a fresh heap block when the list is empty, for `obj`. */
  function Create(s: ObjState, newAddr: nat, obj: RObj): ObjState
  {
    if s.freelist != [] then s.(objects := s.objects[s.freelist[0] := obj], freelist := s.freelist[1..])
    else s.(objects := s.objects[newAddr := obj], blocks := s.blocks + {newAddr})
  }

  /** Releasing a header keeps the invariant. */
  lemma PutHeaderInv(s: ObjState, o: nat)
    requires Inv(s) && o in s.objects
    ensures Inv(PutHeader(s.(objects := s.objects - {o}), o))
  {
    var t := s.(objects := s.objects - {o});
    if |t.freelist| <= REDIS_OBJFREELIST_MAX {
      var fl := [o] + t.freelist;
      forall i, j | 0 <= i < j < |fl| ensures fl[i] != fl[j] {
        if i == 0 {
          assert fl[j] == t.freelist[j - 1];
        } else {
          assert fl[i] == t.freelist[i - 1] && fl[j] == t.freelist[j - 1];
        }
      }
    }
  }

  /** `decrRefCount` on a resident object keeps the invariant. */
  lemma DecrResidentInv(s: ObjState, o: nat)
    requires Inv(s) && o in s.objects
    requires s.objects[o].refcount == 1 ==> CanDispatch(s.objects[o])
    ensures Inv(DecrResident(s, o))
  {
    var obj := s.objects[o];
    if obj.refcount - 1 == 0 {
      var t := s.(released := s.released + [Release(o, TypeDestructor(obj))]);
      PutHeaderInv(t, o);
    }
  }

  /**
   * A reference taken and then dropped leaves no trace: `decrRefCount` undoes
   * `incrRefCount`.
   */
  lemma IncrDecrInverse(s: ObjState, o: nat)
    requires o in s.objects && s.objects[o].refcount >= 1
    ensures DecrResident(Incr(s, o), o) == s
  {
    assert Incr(s, o).objects[o := s.objects[o]] == s.objects;
  }

  /**
   * Above one reference, `decrRefCount` changes only the count, by exactly one;
   * at one, the object goes, with exactly one destructor call for it, and the
   * other objects stay as they were.
   */
  lemma DecrResidentEffect(s: ObjState, o: nat)
    requires o in s.objects
    requires s.objects[o].refcount == 1 ==> CanDispatch(s.objects[o])
    ensures var r := DecrResident(s, o);
      && (s.objects[o].refcount != 1 ==>
            && o in r.objects && r.objects[o].refcount == s.objects[o].refcount - 1
            && r.objects[o].(refcount := s.objects[o].refcount) == s.objects[o]
            && r.freelist == s.freelist && r.released == s.released && r.blocks == s.blocks)
      && (s.objects[o].refcount == 1 ==>
            && o !in r.objects
            && r.released == s.released + [Release(o, TypeDestructor(s.objects[o]))]
            && (r.freelist == [o] + s.freelist || (r.freelist == s.freelist && r.blocks == s.blocks - {o})))
      && (forall x :: x in s.objects && x != o ==> x in r.objects && r.objects[x] == s.objects[x])
  {
  }

  /**
   * `createObject` keeps the invariant, places a live object with one
   * reference at `NewAddress`, and reuses the head of a non-empty free list,
   * which then shrinks by exactly one.
   */
  lemma CreateInv(s: ObjState, newAddr: nat, obj: RObj)
    requires Inv(s) && newAddr !in s.blocks && newAddr != 0 && obj.refcount == 1
    ensures var r := Create(s, newAddr, obj);
      && Inv(r)
      && NewAddress(s, newAddr) !in s.objects
      && r.objects == s.objects[NewAddress(s, newAddr) := obj]
      && (s.freelist != [] ==> r.freelist == s.freelist[1..] && r.blocks == s.blocks)
      && (s.freelist == [] ==> r.freelist == [] && r.blocks == s.blocks + {newAddr})
  {
    var r := Create(s, newAddr, obj);
    if s.freelist != [] {
      forall i | 0 <= i < |r.freelist| ensures r.freelist[i] in r.blocks && r.freelist[i] !in r.objects {
        assert r.freelist[i] == s.freelist[i + 1];
      }
      forall i, j | 0 <= i < j < |r.freelist| ensures r.freelist[i] != r.freelist[j] {
        assert r.freelist[i] == s.freelist[i + 1] && r.freelist[j] == s.freelist[j + 1];
      }
    }
  }

  /**
   * An object created from a non-empty free list and released at once puts its
   * header back at the head of the list: the headers and the list are as before.
   */
  lemma CreateThenReleaseRestores(s: ObjState, newAddr: nat, obj: RObj)
    requires Inv(s) && newAddr !in s.blocks && newAddr != 0 && obj.refcount == 1 && CanDispatch(obj)
    requires s.freelist != []
    ensures var o := NewAddress(s, newAddr);
      && DecrResident(Create(s, newAddr, obj), o).objects == s.objects
      && DecrResident(Create(s, newAddr, obj), o).freelist == s.freelist
      && DecrResident(Create(s, newAddr, obj), o).blocks == s.blocks
  {
    var o := s.freelist[0];
    var r := Create(s, newAddr, obj);
    assert r.objects - {o} == s.objects;
    assert [o] + s.freelist[1..] == s.freelist;
  }
}
