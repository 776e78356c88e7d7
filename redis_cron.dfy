/**
 * The periodic maintenance of redis.c's `serverCron` that works on the
 * keyspace, and the configuration helpers it depends on: the sparse-table
 * test `htNeedsResize` and `tryResizeHashTables`, the adaptive expiration
 * bursts over each database's `expires` table, and the save-point check
 * over the save points of `RedisConfig`.
 */
module RedisCron {
  import opened Common
  import opened DictH
  import opened Dict
  import opened Zmalloc
  import opened RedisObject
  import opened ExpireAccount
  import opened RedisConfig

  // ---------------------------------------------------------------- resizing

  /** `REDIS_HT_MINFILL`: a table filled below this percentage is shrunk. */
  const REDIS_HT_MINFILL: nat := 10

  /**
   * `htNeedsResize`: a table is worth shrinking when it is allocated beyond
   * the initial size, holds something, and fewer than 10% of its slots are
   * used, the percentage taken with integer division.
   */
  function HtNeedsResize<K(==,!new), V>(d: Dict<K, V>): (r: bool)
    reads d, d.table
    requires d.Valid()
    ensures r <==> d.Slots() > DICT_HT_INITIAL_SIZE && d.Size() > 0 && 10 * d.Size() < d.Slots()
  {
    var size := d.Slots();
    var used := d.Size();
    FillBelow(used, size);
    size != 0 && used != 0 && size > DICT_HT_INITIAL_SIZE && used * 100 / size < REDIS_HT_MINFILL
  }

  /** The integer percentage is below the minimum fill exactly when the fill itself is. */
  lemma FillBelow(used: nat, size: nat)
    ensures size > 0 ==> (used * 100 / size < REDIS_HT_MINFILL <==> 10 * used < size)
  {
    if size > 0 {
      var q := used * 100 / size;
      assert used * 100 == q * size + used * 100 % size;
      if q < REDIS_HT_MINFILL {
        assert q <= 9;
        assert q * size <= 9 * size;
      } else {
        assert q * size >= 10 * size;
      }
    }
  }

  /**
   * A table `htNeedsResize` flags really shrinks when it is resized: the least
   * power of two covering its population (and the initial size) is at most half
   * its current size.
   */
  lemma SparseTableShrinks(size: nat, used: nat, r: nat)
    requires IsPowerOfTwo(size) && size > DICT_HT_INITIAL_SIZE && 10 * used < size
    requires IsNextPower(if used < DICT_HT_INITIAL_SIZE then DICT_HT_INITIAL_SIZE else used, r)
    ensures r <= size / 2 < size
  {
    assert IsPowerOfTwo(4) by {
      assert IsPowerOfTwo(2) by { assert IsPowerOfTwo(1); }
    }
    PowerOfTwoBelow(DICT_HT_INITIAL_SIZE, size);
    NextPowerLeast(if used < DICT_HT_INITIAL_SIZE then DICT_HT_INITIAL_SIZE else used, r, size / 2);
  }

  /** One step of `tryResizeHashTables`: `dictResize` on a table `htNeedsResize` flags. */
  method ResizeIfSparse<K(==,!new), V>(d: Dict<K, V>)
    requires d.Valid()
    modifies d
    ensures d.Valid() && d.Contents == old(d.Contents) && d.used == old(d.used)
    ensures d.table == old(d.table) || fresh(d.table)
    ensures !old(HtNeedsResize(d)) ==> d.table == old(d.table)
    ensures old(HtNeedsResize(d)) && old(d.used) < 0x8000_0000 ==> d.table.Length <= old(d.table.Length) / 2
  {
    if HtNeedsResize(d) {
      ghost var size := d.table.Length;
      var status := d.Resize();
      if status == DICT_OK {
        SparseTableShrinks(size, d.used, d.table.Length);
      }
    }
  }

  // ---------------------------------------------------------------- databases

  /**
   * A cycle under way: nothing done before its first burst, the account kept
   * after it, and every reading the clock's at its burst.
   */
  ghost predicate Running<K>(e0: map<K, int>, clock: nat -> int, first: nat,
                             counts: seq<nat>, readings: seq<int>, when: map<K, nat>)
  {
    && (counts == [] ==> readings == [] && when == map[])
    && (counts != [] ==> Accounted(e0, readings, counts, when))
    && Readings(clock, first, readings)
  }

  /**
   * `redisDb`, with the two tables the cron touches: the keyspace and the
   * expiry times (a key's `time_t` carried in the value pointer). Every key
   * with an expiry is in the keyspace.
   */
  class Db<K(==,!new), V> {
    const dict: Dict<K, V>
    const expires: Dict<K, int>
    ghost var Repr: set<object>

    /**
     * `Repr` is the database with its two tables and their bucket arrays, all
     * distinct, and both tables are valid.
     */
    ghost predicate Valid()
      reads this, Repr
    {
      && dict in Repr && expires in Repr && Repr == {this, dict, expires, dict.table, expires.table}
      && dict as object != expires as object && dict.table as object != expires.table as object
      && dict.Valid() && expires.Valid()
      && expires.Contents.Keys <= dict.Contents.Keys
    }

    /** A database over two given tables. */
    constructor (dict: Dict<K, V>, expires: Dict<K, int>)
      requires dict as object != expires as object && dict.table as object != expires.table as object
      requires dict.Valid() && expires.Valid() && expires.Contents.Keys <= dict.Contents.Keys
      ensures Valid() && this.dict == dict && this.expires == expires
    {
      this.dict := dict;
      this.expires := expires;
      Repr := {this, dict, expires, dict.table, expires.table};
    }

    /**
     * `tryResizeHashTables` for one database: each of its two tables that
     * `htNeedsResize` flags is resized with `dictResize`, which keeps its
     * contents and, the population being in the `int` range, halves it at
     * least; a table not flagged keeps its bucket array.
     */
    method TryResize()
      requires Valid()
      modifies Repr
      ensures Valid() && fresh(Repr - old(Repr))
      ensures dict.Contents == old(dict.Contents) && expires.Contents == old(expires.Contents)
      ensures !old(HtNeedsResize(dict)) ==> dict.table == old(dict.table)
      ensures old(HtNeedsResize(dict)) && old(dict.used) < 0x8000_0000 ==> dict.table.Length <= old(dict.table.Length) / 2
      ensures !old(HtNeedsResize(expires)) ==> expires.table == old(expires.table)
      ensures old(HtNeedsResize(expires)) && old(expires.used) < 0x8000_0000 ==>
        expires.table.Length <= old(expires.table.Length) / 2
    {
      ResizeIfSparse(dict);
      ResizeIfSparse(expires);
      Repr := {this, dict, expires, dict.table, expires.table};
    }

    /**
     * `deleteKey`: the key loses its expiry (when the expiry table is not
     * empty) and leaves the keyspace; the result says whether it was there.
     */
    method DeleteKey(key: K) returns (deleted: bool)
      requires Valid()
      modifies Repr
      ensures Valid() && Repr == old(Repr)
      ensures dict.Contents == old(dict.Contents) - {key}
      ensures expires.Contents == old(expires.Contents) - {key}
      ensures deleted <==> key in old(dict.Contents)
    {
      if expires.Size() != 0 {
        var _, _, _ := expires.Delete(key);
      }
      var status, _, _ := dict.Delete(key);
      deleted := status == DICT_OK;
    }

    /**
     * One burst of the cron's expiration: up to `REDIS_EXPIRELOOKUPS_PER_CRON`
     * draws of a random key with an expiry, no more than there are such keys,
     * stopping early if the table runs empty; a drawn key whose time is
     * strictly before `now` is deleted. `gone` are the keys deleted, `samples`
     * the draws made, `seen` the keys drawn.
     */
    method ExpireBurst(now: int) returns (expired: nat, ghost samples: nat, ghost gone: set<K>, ghost seen: set<K>)
      requires Valid()
      modifies Repr
      ensures Valid() && Repr == old(Repr)
      ensures samples <= REDIS_EXPIRELOOKUPS_PER_CRON && samples <= |old(expires.Contents)|
      ensures expired == |gone| && expired <= samples
      ensures gone <= old(expires.Contents).Keys
      ensures forall k :: k in gone ==> now > old(expires.Contents)[k]
      ensures |seen| <= samples && seen <= old(expires.Contents).Keys
      ensures gone <= seen && forall k :: k in seen ==> (k in gone <==> now > old(expires.Contents)[k])
      ensures dict.Contents == old(dict.Contents) - gone
      ensures expires.Contents == old(expires.Contents) - gone
    {
      var num := expires.Size();
      if num > REDIS_EXPIRELOOKUPS_PER_CRON {
        num := REDIS_EXPIRELOOKUPS_PER_CRON;
      }
      ghost var budget := num;
      ghost var e0, d0 := expires.Contents, dict.Contents;
      expired, samples, gone, seen := 0, 0, {}, {};
      while num > 0
        invariant Valid() && Repr == old(Repr)
        invariant 0 <= num && samples + num == budget && budget <= REDIS_EXPIRELOOKUPS_PER_CRON && budget <= |e0|
        invariant expired == |gone| && expired <= samples
        invariant gone <= e0.Keys
        invariant forall k :: k in gone ==> now > e0[k]
        invariant |seen| <= samples && seen <= e0.Keys
        invariant gone <= seen && forall k :: k in seen ==> (k in gone <==> now > e0[k])
        invariant dict.Contents == d0 - gone && expires.Contents == e0 - gone
        decreases num
      {
        num := num - 1;
        var drawn, dead, key := ExpireDraw(now);
        if !drawn {
          break;
        }
        samples := samples + 1;
        assert key.value !in gone && key.value in e0;
        SeenOne(seen, key.value);
        seen := seen + {key.value};
        if dead {
          MinusMinus(d0, gone, key.value);
          MinusMinus(e0, gone, key.value);
          AddNew(gone, key.value);
          gone := gone + {key.value};
          expired := expired + 1;
        }
      }
    }

    /**
     * The expiration of one database in `serverCron`: a burst, repeated while
     * the last burst expired more than a quarter of `REDIS_EXPIRELOOKUPS_PER_CRON`
     * keys. Each burst reads the clock afresh; burst `b` reads `clock(first + b)`,
     * recorded as `readings[b]`. `counts` are the keys each burst expired, and
     * `when` maps each key deleted to the burst that deleted it.
     */
    method ExpireCycle(clock: nat -> int, first: nat)
      returns (bursts: nat, ghost counts: seq<nat>, ghost readings: seq<int>, ghost when: map<K, nat>)
      requires Valid()
      modifies Repr
      ensures Valid() && Repr == old(Repr)
      ensures Accounted(old(expires.Contents), readings, counts, when)
      ensures Readings(clock, first, readings)
      ensures bursts == |counts| && counts[bursts - 1] <= REPEAT_ABOVE
      ensures dict.Contents == old(dict.Contents) - when.Keys && expires.Contents == old(expires.Contents) - when.Keys
    {
      ghost var e0, d0 := expires.Contents, dict.Contents;
      var expired;
      expired, counts, readings, when := FirstBurst(clock, first);
      bursts := 1;
      while expired > REPEAT_ABOVE
        invariant Valid() && Repr == old(Repr)
        invariant Running(e0, clock, first, counts, readings, when)
        invariant 1 <= bursts == |counts| && counts[bursts - 1] == expired
        invariant dict.Contents == d0 - when.Keys && expires.Contents == e0 - when.Keys
        decreases |expires.Contents| + if expired > REPEAT_ABOVE then 1 else 0
      {
        expired, counts, readings, when := CycleBurst(clock, first, bursts, e0, d0, counts, readings, when);
        bursts := bursts + 1;
      }
    }

    /** The first burst of the cycle, which starts from an empty account. */
    method FirstBurst(clock: nat -> int, first: nat)
      returns (expired: nat, ghost counts: seq<nat>, ghost readings: seq<int>, ghost when: map<K, nat>)
      requires Valid()
      modifies Repr
      ensures Valid() && Repr == old(Repr)
      ensures Running(old(expires.Contents), clock, first, counts, readings, when)
      ensures |counts| == 1 && counts[0] == expired
      ensures dict.Contents == old(dict.Contents) - when.Keys && expires.Contents == old(expires.Contents) - when.Keys
    {
      ghost var e0, d0 := expires.Contents, dict.Contents;
      ghost var none: map<K, nat> := map[];
      assert dict.Contents == d0 - none.Keys && expires.Contents == e0 - none.Keys;
      expired, counts, readings, when := CycleBurst(clock, first, 0, e0, d0, [], [], none);
    }

    /**
     * The next burst of the cycle, reading the clock once more, extending the
     * account by its count, its reading and the keys it deleted.
     */
    method CycleBurst(clock: nat -> int, first: nat, b: nat, ghost e0: map<K, int>, ghost d0: map<K, V>,
                      ghost counts: seq<nat>, ghost readings: seq<int>, ghost when: map<K, nat>)
      returns (expired: nat, ghost counts': seq<nat>, ghost readings': seq<int>, ghost when': map<K, nat>)
      requires Valid()
      requires Running(e0, clock, first, counts, readings, when) && b == |counts|
      requires counts != [] ==> counts[|counts| - 1] > REPEAT_ABOVE
      requires dict.Contents == d0 - when.Keys && expires.Contents == e0 - when.Keys
      modifies Repr
      ensures Valid() && Repr == old(Repr)
      ensures Running(e0, clock, first, counts', readings', when')
      ensures |counts'| == |counts| + 1 && counts'[|counts|] == expired && counts'[..|counts|] == counts
      ensures dict.Contents == d0 - when'.Keys && expires.Contents == e0 - when'.Keys
      ensures |expires.Contents| + expired == |old(expires.Contents)|
    {
      var now := Reading(clock, first, b);
      ReadingsStep(clock, first, readings);
      ghost var pre := expires.Contents;
      var e, _, g, _ := ExpireBurst(now);
      expired := e;
      MapMinusCard(pre, g);
      CycleStep(e0, readings, counts, when, expired, g, now);
      TablesStep(e0, d0, when, g, |counts|);
      counts', readings', when' := counts + [expired], readings + [now], Next(when, g, |counts|);
    }

    /**
     * One draw of a burst: `dictGetRandomKey` on the expiry table, NULL when it
     * is empty; the key drawn is deleted exactly when its time is strictly
     * before `now`.
     */
    method ExpireDraw(now: int) returns (drawn: bool, dead: bool, ghost key: Option<K>)
      requires Valid()
      modifies Repr
      ensures Valid() && Repr == old(Repr)
      ensures drawn <==> old(expires.Contents) != map[]
      ensures drawn ==> key.Some? && key.value in old(expires.Contents) && (dead <==> now > old(expires.Contents)[key.value])
      ensures dead ==> drawn && key.Some? && key.value in old(expires.Contents) && now > old(expires.Contents)[key.value]
      ensures dead ==> dict.Contents == old(dict.Contents) - {key.value} && expires.Contents == old(expires.Contents) - {key.value}
      ensures !dead ==> dict.Contents == old(dict.Contents) && expires.Contents == old(expires.Contents)
    {
      var de := expires.GetRandomKey();
      if de.None? {
        drawn, dead, key := false, false, None;
        return;
      }
      drawn := true;
      var k, t := de.value.key, de.value.val;
      key := Some(k);
      dead := now > t;
      if dead {
        var _ := DeleteKey(k);
      }
    }
  }

  // ---------------------------------------------------------------- save points

  /**
   * A save point is due when at least its number of changes were made since
   * the last save and strictly more than its number of seconds have passed.
   */
  predicate Due(sp: SaveParam, dirty: int, lastsave: int, now: int)
  {
    dirty >= sp.changes && now - lastsave > sp.seconds
  }

  /**
   * The save-point scan of `serverCron` while no background save runs: the
   * index of the first save point due, the one whose save would be started,
   * or None when none is due.
   */
  method DueSavePoint(config: SaveConfig, dirty: int, lastsave: int, now: int) returns (r: Option<nat>)
    ensures r.Some? ==> r.value < |config.params| && Due(config.params[r.value], dirty, lastsave, now)
    ensures r.Some? ==> forall j :: 0 <= j < r.value ==> !Due(config.params[j], dirty, lastsave, now)
    ensures r.None? ==> forall j :: 0 <= j < |config.params| ==> !Due(config.params[j], dirty, lastsave, now)
  {
    var j := 0;
    while j < |config.params|
      invariant j <= |config.params|
      invariant forall i :: 0 <= i < j ==> !Due(config.params[i], dirty, lastsave, now)
    {
      var sp := config.params[j];
      if dirty >= sp.changes && now - lastsave > sp.seconds {
        return Some(j);
      }
      j := j + 1;
    }
    return None;
  }
}
