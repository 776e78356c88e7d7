/**
 * The bookkeeping behind the expiration cycle of redis.c's `serverCron`:
 * what a run of bursts over one database's expiry table accounts for, and
 * the step lemmas that keep the account burst by burst.
 */
module ExpireAccount {
  /** `REDIS_EXPIRELOOKUPS_PER_CRON`: the draws of one expiration burst. */
  const REDIS_EXPIRELOOKUPS_PER_CRON: nat := 100

  /** A burst that expired more than a quarter of its ceiling is followed by another. */
  const REPEAT_ABOVE: nat := REDIS_EXPIRELOOKUPS_PER_CRON / 4

  /** The keys expired by each burst, added up. */
  function Sum(counts: seq<nat>): nat
  {
    if counts == [] then 0 else Sum(counts[..|counts| - 1]) + counts[|counts| - 1]
  }

  lemma SumAppend(counts: seq<nat>, n: nat)
    ensures Sum(counts + [n]) == Sum(counts) + n
  {
    assert (counts + [n])[..|counts|] == counts;
  }

  /** Removing keys that are all present takes exactly that many entries away. */
  lemma MapMinusCard<K, V>(m: map<K, V>, s: set<K>)
    requires s <= m.Keys
    ensures |m - s| == |m| - |s|
  {
    assert (m - s).Keys == m.Keys - s;
    SetMinusCard(m.Keys, s);
  }

  lemma {:induction false} SetMinusCard<K>(a: set<K>, b: set<K>)
    requires b <= a
    ensures |a - b| == |a| - |b|
    decreases |b|
  {
    if b != {} {
      var x :| x in b;
      SetMinusCard(a - {x}, b - {x});
      assert a - {x} - (b - {x}) == a - b;
    }
  }

  /** A second burst removes keys the first left, so the two sets of gone keys are disjoint and add up. */
  lemma BurstJoin<K, V, W>(e0: map<K, V>, d0: map<K, W>, gone: set<K>, g: set<K>)
    requires g <= (e0 - gone).Keys
    ensures (e0 - gone) - g == e0 - (gone + g) && (d0 - gone) - g == d0 - (gone + g)
    ensures |gone + g| == |gone| + |g|
    ensures gone <= e0.Keys ==> gone + g <= e0.Keys
  {
    assert gone * g == {};
    assert (e0 - gone) - g == e0 - (gone + g);
    assert (d0 - gone) - g == d0 - (gone + g);
  }

  /**
   * What a run of bursts over an expiry table `e0` accounts for: every burst
   * but the last expired more than a quarter of the draws' ceiling, each
   * expired at most that ceiling, the counts add up to the keys deleted, and a
   * key deleted by burst `b` had a time strictly before that burst's clock
   * reading `readings[b]`.
   */
  ghost predicate Accounted<K>(e0: map<K, int>, readings: seq<int>, counts: seq<nat>, when: map<K, nat>)
  {
    && Repeats(counts) && |readings| == |counts|
    && Sum(counts) == |when| && when.Keys <= e0.Keys
    && Deadlines(e0, readings, when)
  }

  /** `readings[b]` is the clock read by burst `b`. */
  ghost predicate Readings(clock: nat -> int, first: nat, readings: seq<int>)
  {
    forall b :: 0 <= b < |readings| ==> readings[b] == Reading(clock, first, b)
  }

  /** The clock as burst `b` of a cycle that starts at reading `first` sees it. */
  function Reading(clock: nat -> int, first: nat, b: nat): int
  {
    clock(first + b)
  }

  lemma ReadingsStep(clock: nat -> int, first: nat, readings: seq<int>)
    requires Readings(clock, first, readings)
    ensures Readings(clock, first, readings + [Reading(clock, first, |readings|)])
  {
    var r := readings + [Reading(clock, first, |readings|)];
    forall b | 0 <= b < |r|
      ensures r[b] == Reading(clock, first, b)
    {
      if b < |readings| {
        assert r[b] == readings[b];
      }
    }
  }

  /** The do-while's record: it went on exactly while a burst expired more than a quarter of the ceiling. */
  ghost predicate Repeats(counts: seq<nat>)
  {
    && |counts| >= 1
    && (forall b :: 0 <= b < |counts| - 1 ==> counts[b] > REPEAT_ABOVE)
    && (forall b :: 0 <= b < |counts| ==> counts[b] <= REDIS_EXPIRELOOKUPS_PER_CRON)
  }

  /** Every key deleted by burst `b` had a time before that burst's clock reading. */
  ghost predicate Deadlines<K>(e0: map<K, int>, readings: seq<int>, when: map<K, nat>)
  {
    forall k {:trigger when[k]} :: k in when ==> when[k] < |readings| && k in e0 && readings[when[k]] > e0[k]
  }

  /** The deletion record after burst `b` deleted `g`. */
  ghost function Next<K>(when: map<K, nat>, g: set<K>, b: nat): (r: map<K, nat>)
    ensures r.Keys == when.Keys + g
  {
    map k | k in when.Keys + g :: if k in when then when[k] else b
  }

  lemma RepeatsStep(counts: seq<nat>, expired: nat)
    requires counts != [] ==> Repeats(counts) && counts[|counts| - 1] > REPEAT_ABOVE
    requires expired <= REDIS_EXPIRELOOKUPS_PER_CRON
    ensures Repeats(counts + [expired])
  {
    var c := counts + [expired];
    forall b | 0 <= b < |c| - 1
      ensures c[b] > REPEAT_ABOVE
    {
      assert c[b] == counts[b];
    }
  }

  lemma DeadlinesStep<K>(e0: map<K, int>, readings: seq<int>, when: map<K, nat>, g: set<K>, now: int)
    requires Deadlines(e0, readings, when)
    requires g <= (e0 - when.Keys).Keys
    requires forall k :: k in g ==> now > (e0 - when.Keys)[k]
    ensures Deadlines(e0, readings + [now], Next(when, g, |readings|))
  {
    var w := Next(when, g, |readings|);
    var r := readings + [now];
    forall k | k in w
      ensures w[k] < |r| && k in e0 && r[w[k]] > e0[k]
    {
      if k in when {
        assert w[k] == when[k] && r[w[k]] == readings[when[k]];
      } else {
        assert k in g && w[k] == |readings|;
      }
    }
  }

  /**
   * One more burst keeps the account: it ran because the last one expired more
   * than a quarter of the ceiling (or it is the first), and it deleted `g`,
   * keys still present whose times were before its clock reading.
   */
  lemma CycleStep<K>(e0: map<K, int>, readings: seq<int>, counts: seq<nat>, when: map<K, nat>,
                     expired: nat, g: set<K>, now: int)
    requires counts != [] ==> Repeats(counts) && counts[|counts| - 1] > REPEAT_ABOVE
    requires |readings| == |counts| && Sum(counts) == |when| && when.Keys <= e0.Keys && Deadlines(e0, readings, when)
    requires g <= (e0 - when.Keys).Keys && expired == |g| <= REDIS_EXPIRELOOKUPS_PER_CRON
    requires forall k :: k in g ==> now > (e0 - when.Keys)[k]
    ensures Accounted(e0, readings + [now], counts + [expired], Next(when, g, |counts|))
  {
    DeadlinesStep(e0, readings, when, g, now);
    RepeatsStep(counts, expired);
    CountStep(e0, counts, when, expired, g);
  }

  /** What the tables hold after that burst: the originals without every key deleted so far. */
  lemma TablesStep<K, W>(e0: map<K, int>, d0: map<K, W>, when: map<K, nat>, g: set<K>, b: nat)
    requires when.Keys <= e0.Keys && g <= (e0 - when.Keys).Keys
    ensures (e0 - when.Keys) - g == e0 - Next(when, g, b).Keys
    ensures (d0 - when.Keys) - g == d0 - Next(when, g, b).Keys
  {
    BurstJoin(e0, d0, when.Keys, g);
  }

  /** The keys deleted so far and their count grow together, inside the table. */
  lemma CountStep<K>(e0: map<K, int>, counts: seq<nat>, when: map<K, nat>, expired: nat, g: set<K>)
    requires Sum(counts) == |when| && when.Keys <= e0.Keys
    requires g <= (e0 - when.Keys).Keys && expired == |g|
    ensures Sum(counts + [expired]) == |Next(when, g, |counts|)|
    ensures Next(when, g, |counts|).Keys <= e0.Keys
    ensures |e0 - Next(when, g, |counts|).Keys| == |e0| - |Next(when, g, |counts|)|
  {
    var w := Next(when, g, |counts|);
    assert when.Keys * g == {};
    SumAppend(counts, expired);
    assert |w| == |w.Keys| == |when.Keys + g| == |when| + |g|;
    MapMinusCard(e0, w.Keys);
  }

  /** A key not yet in a set adds one to its size. */
  lemma AddNew<K>(s: set<K>, k: K)
    requires k !in s
    ensures |s + {k}| == |s| + 1
  {
  }

  /** Drawing a key grows the set of drawn keys by at most one. */
  lemma SeenOne<K>(seen: set<K>, k: K)
    ensures |seen + {k}| <= |seen| + 1
  {
    if k !in seen {
      AddNew(seen, k);
    } else {
      assert seen + {k} == seen;
    }
  }

  /** Removing keys one more at a time is removing the larger set at once. */
  lemma MinusMinus<K, V>(m: map<K, V>, s: set<K>, k: K)
    ensures (m - s) - {k} == m - (s + {k})
  {
  }
}
