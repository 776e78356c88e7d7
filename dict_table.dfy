/**
 * The bucket array of the chained hash table as a value: a sequence of chains,
 * one per bucket, each in `next`-link order. This module says when such a value
 * represents a map, and proves the facts the table operations rely on: what
 * inserting at the head of a chain and unlinking an entry do to the represented
 * map, and what a walk over all chains yields.
 */
module DictTable {
  import opened Common
  import opened DictH

  type Table<K, V> = seq<seq<Entry<K, V>>>

  /** All entries of a table, bucket by bucket, each chain in link order. */
  function Entries<K(==), V>(t: Table<K, V>): seq<Entry<K, V>>
  {
    if t == [] then [] else t[0] + Entries(t[1..])
  }

  /** The entry of the first link in chain `c` whose key is `k`, as `dictFind`'s walk sees it. */
  function ChainFind<K(==), V>(c: seq<Entry<K, V>>, k: K): Option<V>
  {
    if c == [] then None else if c[0].key == k then Some(c[0].val) else ChainFind(c[1..], k)
  }

  /** The value a lookup of `k` finds: nothing in an unallocated table, else the walk of `k`'s bucket. */
  function Lookup<K(==), V>(t: Table<K, V>, h: K -> uint32, k: K): Option<V>
  {
    if |t| == 0 then None else ChainFind(t[BucketIndex(h(k), |t|)], k)
  }

  function Get<K(==), V>(m: map<K, V>, k: K): Option<V>
  {
    if k in m then Some(m[k]) else None
  }

  /** Every entry sits in the bucket its key hashes to. */
  ghost predicate Placed<K, V>(t: Table<K, V>, h: K -> uint32)
  {
    forall i, j :: 0 <= i < |t| && 0 <= j < |t[i]| ==> BucketIndex(h(t[i][j].key), |t|) == i
  }

  /** No chain holds a key twice. */
  ghost predicate ChainsDistinct<K, V>(t: Table<K, V>)
  {
    forall i, j1, j2 :: 0 <= i < |t| && 0 <= j1 < j2 < |t[i]| ==> t[i][j1].key != t[i][j2].key
  }

  /** `t` represents `m`: entries are placed by hash, keys are unique, and a lookup finds exactly `m`. */
  ghost predicate Represents<K(!new), V>(t: Table<K, V>, h: K -> uint32, m: map<K, V>)
  {
    && Placed(t, h)
    && ChainsDistinct(t)
    && forall k :: Lookup(t, h, k) == Get(m, k)
  }

  function InsertHead<K(==), V>(t: Table<K, V>, b: nat, e: Entry<K, V>): Table<K, V>
    requires b < |t|
  {
    t[b := [e] + t[b]]
  }

  /** The chain `c` with the link at position `j` unlinked. */
  function Unlink<K(==), V>(c: seq<Entry<K, V>>, j: nat): seq<Entry<K, V>>
    requires j < |c|
  {
    c[..j] + c[j + 1..]
  }

  function AllEmpty<K(==), V>(n: nat): (t: Table<K, V>)
    ensures |t| == n && forall i :: 0 <= i < n ==> t[i] == []
  {
    seq(n, _ => [])
  }

  // ---------------------------------------------------------------- chains

  /** A key at position `j` of a chain without duplicates is found there. */
  lemma {:induction false} ChainFindAt<K, V>(c: seq<Entry<K, V>>, j: nat)
    requires j < |c|
    requires forall j1, j2 :: 0 <= j1 < j2 < |c| ==> c[j1].key != c[j2].key
    ensures ChainFind(c, c[j].key) == Some(c[j].val)
  {
    if j > 0 {
      assert c[0].key != c[j].key;
      ChainFindAt(c[1..], j - 1);
    }
  }

  /** A walk finds nothing for a key no link carries. */
  lemma {:induction false} ChainFindAbsent<K, V>(c: seq<Entry<K, V>>, k: K)
    requires forall j :: 0 <= j < |c| ==> c[j].key != k
    ensures ChainFind(c, k) == None
  {
    if c != [] {
      ChainFindAbsent(c[1..], k);
    }
  }

  /** A walk that finds `k` ends on a link carrying `k`. */
  lemma {:induction false} ChainFindSome<K, V>(c: seq<Entry<K, V>>, k: K) returns (j: nat)
    requires ChainFind(c, k).Some?
    ensures j < |c| && c[j] == Entry(k, ChainFind(c, k).value)
    ensures forall i :: 0 <= i < j ==> c[i].key != k
  {
    if c[0].key == k {
      j := 0;
    } else {
      var j' := ChainFindSome(c[1..], k);
      j := j' + 1;
    }
  }

  /** Unlinking a link does not change what the walk finds for any other key. */
  lemma {:induction false} ChainFindUnlink<K, V>(c: seq<Entry<K, V>>, j: nat, k: K)
    requires j < |c| && c[j].key != k
    ensures ChainFind(Unlink(c, j), k) == ChainFind(c, k)
  {
    if j > 0 {
      assert Unlink(c, j)[0] == c[0];
      assert Unlink(c, j)[1..] == Unlink(c[1..], j - 1);
      ChainFindUnlink(c[1..], j - 1, k);
    } else {
      assert Unlink(c, j) == c[1..];
    }
  }

  // ---------------------------------------------------------------- entries

  lemma {:induction false} EntriesLength<K, V>(t: Table<K, V>, i: nat, s: seq<Entry<K, V>>)
    requires i < |t|
    ensures |Entries(t[i := s])| == |Entries(t)| - |t[i]| + |s|
  {
    if i > 0 {
      assert t[i := s][1..] == t[1..][i - 1 := s];
      EntriesLength(t[1..], i - 1, s);
    } else {
      assert t[i := s][1..] == t[1..];
    }
  }

  /** A table with no entries has only empty chains. */
  lemma {:induction false} EntriesEmpty<K, V>(t: Table<K, V>)
    requires |Entries(t)| == 0
    ensures forall i :: 0 <= i < |t| ==> t[i] == []
  {
    if t != [] {
      EntriesEmpty(t[1..]);
      forall i | 0 < i < |t| ensures t[i] == [] {
        assert t[i] == t[1..][i - 1];
      }
    }
  }

  lemma {:induction false} EntriesAllEmpty<K, V>(n: nat)
    ensures Entries(AllEmpty<K, V>(n)) == []
  {
    if n > 0 {
      assert AllEmpty<K, V>(n)[1..] == AllEmpty<K, V>(n - 1);
      EntriesAllEmpty<K, V>(n - 1);
    }
  }

  /** Every link of bucket `i` of a placed table hashes to `i`. */
  lemma PlacedChain<K, V>(t: Table<K, V>, h: K -> uint32, i: nat)
    requires Placed(t, h) && i < |t|
    ensures forall x :: x in t[i] ==> BucketIndex(h(x.key), |t|) == i
  {
    forall x | x in t[i] ensures BucketIndex(h(x.key), |t|) == i {
      var j :| 0 <= j < |t[i]| && t[i][j] == x;
    }
  }

  /** A table whose chains are all empty has no entries. */
  lemma {:induction false} EntriesNone<K, V>(t: Table<K, V>)
    requires forall i :: 0 <= i < |t| ==> t[i] == []
    ensures Entries(t) == []
  {
    if t != [] {
      EntriesNone(t[1..]);
    }
  }

  /** The walk over a table is the walk over its first `i` buckets followed by the walk over the rest. */
  lemma {:induction false} EntriesSplit<K, V>(t: Table<K, V>, i: nat)
    requires i <= |t|
    ensures Entries(t) == Entries(t[..i]) + Entries(t[i..])
  {
    if i == 0 {
      assert t[..i] == [] && t[i..] == t;
    } else {
      EntriesSplit(t[1..], i - 1);
      assert t[1..][..i - 1] == t[..i][1..];
      assert t[1..][i - 1..] == t[i..];
    }
  }

  /** Walking one more bucket appends that bucket's chain. */
  lemma EntriesSnoc<K, V>(t: Table<K, V>, i: nat)
    requires i < |t|
    ensures Entries(t[..i + 1]) == Entries(t[..i]) + t[i]
    ensures Entries(t[i..]) == t[i] + Entries(t[i + 1..])
  {
    EntriesSplit(t[..i + 1], i);
    assert t[..i + 1][..i] == t[..i];
    assert t[..i + 1][i..] == [t[i]];
    assert Entries([t[i]]) == t[i] + Entries<K, V>([]);
    assert t[i..][1..] == t[i + 1..];
  }

  /** Every element of `Entries(t)` is some link `t[i][j]`, and every link is an element. */
  lemma {:induction false} EntriesMember<K, V>(t: Table<K, V>, x: Entry<K, V>) returns (i: nat, j: nat)
    requires x in Entries(t)
    ensures i < |t| && j < |t[i]| && t[i][j] == x
  {
    if x in t[0] {
      i := 0;
      j :| 0 <= j < |t[0]| && t[0][j] == x;
    } else {
      var i', j' := EntriesMember(t[1..], x);
      i, j := i' + 1, j';
    }
  }

  lemma {:induction false} EntriesContain<K, V>(t: Table<K, V>, i: nat, j: nat)
    requires i < |t| && j < |t[i]|
    ensures t[i][j] in Entries(t)
  {
    if i > 0 {
      EntriesContain(t[1..], i - 1, j);
    }
  }

  // ---------------------------------------------------------------- representation

  /** A table of `n` empty chains represents the empty map. */
  lemma EmptyRepresents<K(!new), V>(n: nat, h: K -> uint32)
    ensures Represents(AllEmpty<K, V>(n), h, map[])
  {
  }

  /** An unallocated table represents only the empty map. */
  lemma {:induction false} NoBucketsNoKeys<K(!new), V>(t: Table<K, V>, h: K -> uint32, m: map<K, V>)
    requires Represents(t, h, m) && |t| == 0
    ensures m == map[]
  {
    forall k ensures k !in m {
      assert Lookup(t, h, k) == Get(m, k);
    }
    assert m.Keys == {};
  }

  /** A table whose chains are all empty represents only the empty map. */
  lemma {:induction false} EmptyChainsNoKeys<K(!new), V>(t: Table<K, V>, h: K -> uint32, m: map<K, V>)
    requires Represents(t, h, m)
    requires forall i :: 0 <= i < |t| ==> t[i] == []
    ensures m == map[]
  {
    forall k ensures k !in m {
      assert Lookup(t, h, k) == Get(m, k);
    }
    assert m.Keys == {};
  }

  /** Every link of a representing table is an entry of the map. */
  lemma {:induction false} LinkInMap<K(!new), V>(t: Table<K, V>, h: K -> uint32, m: map<K, V>, i: nat, j: nat)
    requires Represents(t, h, m)
    requires i < |t| && j < |t[i]|
    ensures t[i][j].key in m && m[t[i][j].key] == t[i][j].val
  {
    ChainFindAt(t[i], j);
    assert Lookup(t, h, t[i][j].key) == Get(m, t[i][j].key);
  }

  /** Every key of the map is a link in its bucket. */
  lemma {:induction false} KeyInBucket<K(!new), V>(t: Table<K, V>, h: K -> uint32, m: map<K, V>, k: K) returns (j: nat)
    requires Represents(t, h, m) && k in m
    ensures |t| > 0
    ensures j < |t[BucketIndex(h(k), |t|)]| && t[BucketIndex(h(k), |t|)][j] == Entry(k, m[k])
  {
    assert Lookup(t, h, k) == Get(m, k);
    if |t| == 0 {
      assert false;
    }
    j := ChainFindSome(t[BucketIndex(h(k), |t|)], k);
  }

  /** Linking a new key at the head of its bucket represents the map extended by that key. */
  lemma {:induction false} InsertHeadRepresents<K(!new), V>(t: Table<K, V>, h: K -> uint32, m: map<K, V>, k: K, v: V)
    requires Represents(t, h, m) && |t| > 0 && k !in m
    ensures Represents(InsertHead(t, BucketIndex(h(k), |t|), Entry(k, v)), h, m[k := v])
  {
    var b := BucketIndex(h(k), |t|);
    var t': Table<K, V> := InsertHead(t, b, Entry(k, v));
    forall i, j | 0 <= i < |t'| && 0 <= j < |t'[i]| ensures BucketIndex(h(t'[i][j].key), |t'|) == i {
      if i == b && j > 0 {
        assert t'[i][j] == t[i][j - 1];
      }
    }
    forall i, j1, j2 | 0 <= i < |t'| && 0 <= j1 < j2 < |t'[i]| ensures t'[i][j1].key != t'[i][j2].key {
      if i == b {
        if j1 == 0 {
          LinkInMap(t, h, m, b, j2 - 1);
          assert t'[i][j2] == t[b][j2 - 1];
        } else {
          assert t'[i][j1] == t[b][j1 - 1] && t'[i][j2] == t[b][j2 - 1];
        }
      }
    }
    forall k' ensures Lookup(t', h, k') == Get(m[k := v], k') {
      assert Lookup(t, h, k') == Get(m, k');
    }
  }

  /** Unlinking the link at position `j` of bucket `i` represents the map without its key. */
  lemma {:induction false} UnlinkRepresents<K(!new), V>(t: Table<K, V>, h: K -> uint32, m: map<K, V>, i: nat, j: nat)
    requires Represents(t, h, m) && i < |t| && j < |t[i]|
    ensures t[i][j].key in m
    ensures Represents(t[i := Unlink(t[i], j)], h, m - {t[i][j].key})
  {
    LinkInMap(t, h, m, i, j);
    var k := t[i][j].key;
    var c': seq<Entry<K, V>> := Unlink(t[i], j);
    var t': Table<K, V> := t[i := c'];
    forall a, b | 0 <= a < |t'| && 0 <= b < |t'[a]| ensures BucketIndex(h(t'[a][b].key), |t'|) == a {
      if a == i && b >= j {
        assert t'[a][b] == t[i][b + 1];
      }
    }
    forall a, b1, b2 | 0 <= a < |t'| && 0 <= b1 < b2 < |t'[a]| ensures t'[a][b1].key != t'[a][b2].key {
      if a == i {
        var p1 := if b1 < j then b1 else b1 + 1;
        var p2 := if b2 < j then b2 else b2 + 1;
        assert t'[a][b1] == t[i][p1] && t'[a][b2] == t[i][p2];
      }
    }
    forall k' ensures Lookup(t', h, k') == Get(m - {k}, k') {
      assert Lookup(t, h, k') == Get(m, k');
      if BucketIndex(h(k'), |t|) == i {
        if k' == k {
          forall p | 0 <= p < |c'| ensures c'[p].key != k {
            var q := if p < j then p else p + 1;
            assert c'[p] == t[i][q];
          }
          ChainFindAbsent(c', k);
        } else {
          ChainFindUnlink(t[i], j, k');
        }
      }
    }
  }

  /** During a rehash, the old table `rem` represents `rest`, the new table `n` represents `moved`, and the two split `m`. */
  ghost predicate Split<K(!new), V>(rem: Table<K, V>, n: Table<K, V>, h: K -> uint32, rest: map<K, V>, moved: map<K, V>, m: map<K, V>)
  {
    && Represents(rem, h, rest) && Represents(n, h, moved)
    && rest.Keys !! moved.Keys && rest + moved == m
  }

  /**
   * One step of a rehash: moving the head link of bucket `i` of `rem` (what is
   * left of the old table) to the head of its bucket in `n` (the new table)
   * keeps the split, with one entry fewer left in the old table.
   */
  lemma MoveHead<K(!new), V>(rem: Table<K, V>, n: Table<K, V>, h: K -> uint32, rest: map<K, V>, moved: map<K, V>, m: map<K, V>, i: nat)
    requires Split(rem, n, h, rest, moved, m)
    requires i < |rem| && rem[i] != [] && |n| > 0
    ensures var e := rem[i][0];
      && Split(rem[i := rem[i][1..]], InsertHead(n, BucketIndex(h(e.key), |n|), e), h, rest - {e.key}, moved[e.key := e.val], m)
      && |Entries(rem[i := rem[i][1..]])| == |Entries(rem)| - 1
  {
    var e := rem[i][0];
    UnlinkRepresents(rem, h, rest, i, 0);
    LinkInMap(rem, h, rest, i, 0);
    assert Unlink(rem[i], 0) == rem[i][1..];
    InsertHeadRepresents(n, h, moved, e.key, e.val);
    assert Entry(e.key, e.val) == e;
    assert (rest - {e.key}) + moved[e.key := e.val] == rest + moved;
    EntriesLength(rem, i, rem[i][1..]);
  }

  /** A representing table holds each of its keys once over all chains. */
  ghost predicate KeysDistinct<K, V>(es: seq<Entry<K, V>>)
  {
    forall p, q :: 0 <= p < q < |es| ==> es[p].key != es[q].key
  }

  /**
   * The chains `t` of a table of `n` buckets, starting at bucket `off`: their
   * concatenation holds no key twice, because different buckets hold different
   * hashes and no chain repeats a key.
   */
  lemma {:induction false} EntriesDistinctFrom<K, V>(t: Table<K, V>, h: K -> uint32, n: nat, off: nat)
    requires n > 0
    requires forall i, j :: 0 <= i < |t| && 0 <= j < |t[i]| ==> BucketIndex(h(t[i][j].key), n) == off + i
    requires forall i, j1, j2 :: 0 <= i < |t| && 0 <= j1 < j2 < |t[i]| ==> t[i][j1].key != t[i][j2].key
    ensures KeysDistinct(Entries(t))
    ensures forall x :: x in Entries(t) ==> off <= BucketIndex(h(x.key), n) < off + |t|
  {
    if t != [] {
      var rest := t[1..];
      EntriesDistinctFrom(rest, h, n, off + 1);
      var es := Entries(t);
      assert es == t[0] + Entries(rest);
      forall p, q | 0 <= p < q < |es| ensures es[p].key != es[q].key {
        if q < |t[0]| {
          assert es[p] == t[0][p] && es[q] == t[0][q];
        } else if p >= |t[0]| {
          assert es[p] == Entries(rest)[p - |t[0]|];
          assert es[q] == Entries(rest)[q - |t[0]|];
        } else {
          assert es[p] == t[0][p];
          assert es[q] == Entries(rest)[q - |t[0]|];
          assert es[q] in Entries(rest);
          assert BucketIndex(h(t[0][p].key), n) == off;
        }
      }
      forall x | x in es ensures off <= BucketIndex(h(x.key), n) < off + |t| {
        if x in t[0] {
          var j :| 0 <= j < |t[0]| && t[0][j] == x;
        } else {
          assert x in Entries(rest);
        }
      }
    }
  }

  /**
   * A full walk of a representing table yields each entry of the map exactly once:
   * its elements are the map's pairs, no key repeats, and there are as many as the
   * map has keys.
   */
  lemma {:induction false} WalkYieldsEachEntryOnce<K(!new), V>(t: Table<K, V>, h: K -> uint32, m: map<K, V>)
    requires Represents(t, h, m)
    ensures KeysDistinct(Entries(t))
    ensures forall x :: x in Entries(t) ==> x.key in m && m[x.key] == x.val
    ensures forall k :: k in m ==> Entry(k, m[k]) in Entries(t)
    ensures |Entries(t)| == |m|
  {
    var es := Entries(t);
    if |t| == 0 {
      NoBucketsNoKeys(t, h, m);
    } else {
      EntriesDistinctFrom(t, h, |t|, 0);
    }
    forall x | x in es ensures x.key in m && m[x.key] == x.val {
      var i, j := EntriesMember(t, x);
      LinkInMap(t, h, m, i, j);
    }
    forall k | k in m ensures Entry(k, m[k]) in es {
      var j := KeyInBucket(t, h, m, k);
      EntriesContain(t, BucketIndex(h(k), |t|), j);
    }
    KeysDistinctCount(es, m);
  }

  /** A key-distinct sequence of the pairs of `m` that holds every key has exactly `|m|` elements. */
  lemma {:induction false} KeysDistinctCount<K, V>(es: seq<Entry<K, V>>, m: map<K, V>)
    requires KeysDistinct(es)
    requires forall x :: x in es ==> x.key in m
    requires forall k :: k in m ==> exists x :: x in es && x.key == k
    ensures |es| == |m|
  {
    var ks := set x | x in es :: x.key;
    assert ks == m.Keys;
    KeySetSize(es);
  }

  lemma {:induction false} KeySetSize<K, V>(es: seq<Entry<K, V>>)
    requires KeysDistinct(es)
    ensures |set x | x in es :: x.key| == |es|
  {
    if es != [] {
      var rest := es[1..];
      KeySetSize(rest);
      var s := set x | x in es :: x.key;
      var s' := set x | x in rest :: x.key;
      assert s == s' + {es[0].key};
      forall x | x in rest ensures x.key != es[0].key {
        var q :| 0 <= q < |rest| && rest[q] == x;
        assert es[q + 1] == x;
      }
    }
  }
}
