/** The cache's iterator: a snapshot of the stored entry objects taken when it
    is created, walked by index. `next` passes over entries already marked
    expired and entries found expired at the iterator's creation time
    (removing the latter from the cache), and stops at the first live one,
    counting it as a hit. */
module Iteration {
  import opened Wrappers
  import opened Entries
  import opened Statistics
  import opened Tallies
  import opened Cache

  /** An entry `next` passes over: one already marked expired, or, when the
      cache has expiry, one the check at `now` finds expired. */
  predicate Skipped<V>(d: EntryData<V>, now: int, p: ExpiryPolicy, hasExpiry: bool) {
    d.expired || (hasExpiry && Expired(d, now, p))
  }

  /** An entry `next` finds expired itself: it gets marked, its key removed
      from the cache and an expiry counted. */
  predicate NewlyExpired<V>(d: EntryData<V>, now: int, p: ExpiryPolicy, hasExpiry: bool) {
    !d.expired && hasExpiry && Expired(d, now, p)
  }

  /** An entry's fields after `next` looked at it: only an entry not yet
      marked is checked, and the check may set its flag. */
  function Looked<V>(d: EntryData<V>, now: int, p: ExpiryPolicy, hasExpiry: bool): (r: EntryData<V>)
    ensures r.(expired := d.expired) == d
    ensures r.expired <==> Skipped(d, now, p, hasExpiry)
  {
    if d.expired || !hasExpiry then d else AfterCheck(d, now, p)
  }

  /** The fields after `next` looked at the entries `lo` to `hi - 1`. */
  function LookedIn<V>(ds: seq<EntryData<V>>, lo: int, hi: int, now: int, p: ExpiryPolicy, hasExpiry: bool): (r: seq<EntryData<V>>)
    requires 0 <= lo <= hi <= |ds|
    ensures |r| == |ds|
    ensures forall i | 0 <= i < |ds| :: r[i] == if lo <= i < hi then Looked(ds[i], now, p, hasExpiry) else ds[i]
  {
    seq(|ds|, i requires 0 <= i < |ds| => if lo <= i < hi then Looked(ds[i], now, p, hasExpiry) else ds[i])
  }

  /** The events of a scan so far plus those of one more round. */
  lemma EventsStep(n: nat, newly: bool, found: bool)
    ensures Events(expires := n).Add(Events(expires := if newly then 1 else 0, hits := if found then 1 else 0))
            == Events(expires := n + if newly then 1 else 0, hits := if found then 1 else 0)
  {
  }

  /** Looking at one more entry changes only that entry's fields. */
  lemma LookedInStep<V>(ds: seq<EntryData<V>>, lo: int, hi: int, now: int, p: ExpiryPolicy, hasExpiry: bool)
    requires 0 <= lo <= hi < |ds|
    ensures LookedIn(ds, lo, hi + 1, now, p, hasExpiry) == LookedIn(ds, lo, hi, now, p, hasExpiry)[hi := Looked(ds[hi], now, p, hasExpiry)]
  {
  }

  /** The index of the first entry from `lo` on that `next` would return,
      or |ds| when there is none. */
  function FirstLive<V>(ds: seq<EntryData<V>>, lo: nat, now: int, p: ExpiryPolicy, hasExpiry: bool): (r: nat)
    requires lo <= |ds|
    ensures lo <= r <= |ds|
    ensures forall i | lo <= i < r :: Skipped(ds[i], now, p, hasExpiry)
    ensures r < |ds| ==> !Skipped(ds[r], now, p, hasExpiry)
    decreases |ds| - lo
  {
    if lo == |ds| || !Skipped(ds[lo], now, p, hasExpiry) then lo
    else FirstLive(ds, lo + 1, now, p, hasExpiry)
  }

  /** Where a scan that has passed over the entries before `k` stands after
      looking at entry `k`. */
  lemma ScanPast<V>(ds: seq<EntryData<V>>, lo: nat, k: nat, now: int, p: ExpiryPolicy, hasExpiry: bool)
    requires lo <= k < |ds| && k <= FirstLive(ds, lo, now, p, hasExpiry)
    ensures Skipped(ds[k], now, p, hasExpiry) ==> k + 1 <= FirstLive(ds, lo, now, p, hasExpiry)
    ensures !Skipped(ds[k], now, p, hasExpiry) ==> FirstLive(ds, lo, now, p, hasExpiry) == k
  {
  }

  /** The number of entries among `ds[lo..hi]` that `next` finds expired. */
  function NewlyExpiredCount<V>(ds: seq<EntryData<V>>, lo: int, hi: int, now: int, p: ExpiryPolicy, hasExpiry: bool): (r: nat)
    requires 0 <= lo <= hi <= |ds|
    ensures r <= hi - lo
    decreases hi - lo
  {
    if lo == hi then 0
    else NewlyExpiredCount(ds, lo, hi - 1, now, p, hasExpiry) + if NewlyExpired(ds[hi - 1], now, p, hasExpiry) then 1 else 0
  }

  /** The keys of the entries among `es[lo..hi]` that `next` finds expired. */
  function NewlyExpiredKeys<K, V>(es: seq<MEntry<K, V>>, ds: seq<EntryData<V>>, lo: int, hi: int, now: int, p: ExpiryPolicy,
                                  hasExpiry: bool): set<K>
    requires |ds| == |es| && 0 <= lo <= hi <= |es|
  {
    set i | lo <= i < hi && NewlyExpired(ds[i], now, p, hasExpiry) :: es[i].key
  }

  /** One more entry looked at adds its key to the removed keys when it
      expires, and one to the count. */
  lemma NewlyExpiredStep<K, V>(es: seq<MEntry<K, V>>, ds: seq<EntryData<V>>, lo: int, hi: int, now: int, p: ExpiryPolicy,
                               hasExpiry: bool)
    requires |ds| == |es| && 0 <= lo <= hi < |es|
    ensures NewlyExpiredKeys(es, ds, lo, hi + 1, now, p, hasExpiry)
            == NewlyExpiredKeys(es, ds, lo, hi, now, p, hasExpiry)
               + if NewlyExpired(ds[hi], now, p, hasExpiry) then {es[hi].key} else {}
    ensures NewlyExpiredCount(ds, lo, hi + 1, now, p, hasExpiry)
            == NewlyExpiredCount(ds, lo, hi, now, p, hasExpiry) + if NewlyExpired(ds[hi], now, p, hasExpiry) then 1 else 0
  {
  }

  /** With distinct keys, the key of the entry at `hi` is not among those
      removed before it. */
  lemma KeyNotRemovedBefore<K, V>(es: seq<MEntry<K, V>>, ds: seq<EntryData<V>>, lo: int, hi: int,
                                  now: int, p: ExpiryPolicy, hasExpiry: bool)
    requires |ds| == |es| && 0 <= lo <= hi < |es|
    requires forall i, j | 0 <= i < j < |es| :: es[i].key != es[j].key
    ensures es[hi].key !in NewlyExpiredKeys(es, ds, lo, hi, now, p, hasExpiry)
  {
    forall i | lo <= i < hi
      ensures es[i].key != es[hi].key
    {
    }
  }

  /** With distinct keys, the removed keys are as many as the expiries counted. */
  lemma {:induction false} NewlyExpiredKeysCounted<K, V>(es: seq<MEntry<K, V>>, ds: seq<EntryData<V>>, lo: int, hi: int,
                                                         now: int, p: ExpiryPolicy, hasExpiry: bool)
    requires |ds| == |es| && 0 <= lo <= hi <= |es|
    requires forall i, j | 0 <= i < j < |es| :: es[i].key != es[j].key
    ensures |NewlyExpiredKeys(es, ds, lo, hi, now, p, hasExpiry)| == NewlyExpiredCount(ds, lo, hi, now, p, hasExpiry)
    decreases hi - lo
  {
    if lo < hi {
      NewlyExpiredKeysCounted(es, ds, lo, hi - 1, now, p, hasExpiry);
      NewlyExpiredStep(es, ds, lo, hi - 1, now, p, hasExpiry);
      KeyNotRemovedBefore(es, ds, lo, hi - 1, now, p, hasExpiry);
    } else {
      assert NewlyExpiredKeys(es, ds, lo, hi, now, p, hasExpiry) == {};
    }
  }

  /** The store after one more round of the scan, from the store after the
      rounds before it. */
  lemma ScanStepStore<K, V>(es: seq<MEntry<K, V>>, ds: seq<EntryData<V>>, s0: map<K, MEntry<K, V>>, lo: int, k: int,
                            now: int, p: ExpiryPolicy, hasExpiry: bool)
    requires |ds| == |es| && 0 <= lo <= k < |es|
    ensures var before := s0 - NewlyExpiredKeys(es, ds, lo, k, now, p, hasExpiry);
            (if NewlyExpired(ds[k], now, p, hasExpiry) then before - {es[k].key} else before)
            == s0 - NewlyExpiredKeys(es, ds, lo, k + 1, now, p, hasExpiry)
  {
    NewlyExpiredStep(es, ds, lo, k, now, p, hasExpiry);
    var removed := NewlyExpiredKeys(es, ds, lo, k, now, p, hasExpiry);
    assert (s0 - removed) - {es[k].key} == s0 - (removed + {es[k].key});
  }

  /** The counters after one more round of the scan, from those after the
      rounds before it. */
  lemma ScanStepCounts<K, V>(cache: MCache<K, V>, ds: seq<EntryData<V>>, c0: Counters, lo: int, k: int,
                             now: int, p: ExpiryPolicy, hasExpiry: bool, found: bool)
    requires 0 <= lo <= k < |ds|
    ensures cache.Tally(cache.Tally(c0, Events(expires := NewlyExpiredCount(ds, lo, k, now, p, hasExpiry))),
                        Events(expires := if NewlyExpired(ds[k], now, p, hasExpiry) then 1 else 0, hits := if found then 1 else 0))
            == cache.Tally(c0, Events(expires := NewlyExpiredCount(ds, lo, k + 1, now, p, hasExpiry), hits := if found then 1 else 0))
  {
    var newly := NewlyExpired(ds[k], now, p, hasExpiry);
    var n := NewlyExpiredCount(ds, lo, k, now, p, hasExpiry);
    var step := Events(expires := if newly then 1 else 0, hits := if found then 1 else 0);
    EventsStep(n, newly, found);
    cache.TallyTwice(c0, Events(expires := n), step);
  }

  /** The fields of a sequence of entry objects. */
  function Datas<K, V>(es: seq<MEntry<K, V>>): (r: seq<EntryData<V>>)
    reads set i | 0 <= i < |es| :: es[i]
    ensures |r| == |es| && forall i | 0 <= i < |es| :: r[i] == es[i].Data()
  {
    seq(|es|, i reads es requires 0 <= i < |es| => es[i].Data())
  }

  class CacheIterator<K(==), V(==)> {
    const cache: MCache<K, V>
    const initialTime: int
    const entryList: seq<MEntry<K, V>>
    const maxIndex: int
    var curIndex: int
    var curEntry: MEntry?<K, V>

    ghost predicate Valid()
      reads this
    {
      && maxIndex == |entryList| - 1 && -1 <= curIndex <= maxIndex
      && (forall i, j | 0 <= i < j < |entryList| :: entryList[i].key != entryList[j].key)
      && (curEntry != null ==> 0 <= curIndex && curEntry == entryList[curIndex])
    }

    /** The snapshot's entry objects, which `next` may mark expired. */
    function Entries(): set<MEntry<K, V>> {
      set i | 0 <= i < |entryList| :: entryList[i]
    }

    /** The iterator over a cache's entries as they are now, starting before
        the first one; `now` stands for the clock read at creation. */
    constructor (cache: MCache<K, V>, now: int)
      requires cache.KeysMatch()
      ensures Valid() && this.cache == cache && initialTime == now && curIndex == -1 && curEntry == null
      ensures cache.QueueKeys(entryList) == cache.store.Keys
      ensures forall i | 0 <= i < |entryList| :: cache.store[entryList[i].key] == entryList[i]
    {
      var entries := cache.Values();
      this.cache := cache;
      entryList := entries;
      maxIndex := |entries| - 1;
      initialTime := now;
      curIndex := -1;
      curEntry := null;
    }

    /** hasNext: whether the snapshot has entries left to look at, live or not. */
    function HasNext(): (r: bool)
      reads this
      ensures Valid() ==> (r <==> curIndex + 1 < |entryList|)
    {
      curIndex < maxIndex
    }

    /** Whether `next` would return an entry: some entry left in the snapshot
        is neither marked expired nor expired at the creation time. */
    function HasLiveNext(): (r: bool)
      requires Valid()
      reads this, Entries()
      ensures r <==> exists j | curIndex < j <= maxIndex ::
                       !Skipped(entryList[j].Data(), initialTime, cache.expiry, cache.hasExpiry)
      ensures r ==> HasNext()
    {
      FirstLive(Datas(entryList), curIndex + 1, initialTime, cache.expiry, cache.hasExpiry) <= maxIndex
    }

    /** `next`'s expiry check of a snapshot entry at the creation time: an
        expired entry is marked, its key removed from the cache and an expiry
        counted. */
    method Expire(entry: MEntry<K, V>) returns (expired: bool)
      modifies cache`store, cache.stats, entry
      ensures expired == Expired(old(entry.Data()), initialTime, cache.expiry)
      ensures entry.Data() == AfterCheck(old(entry.Data()), initialTime, cache.expiry)
      ensures expired ==> && cache.store == old(cache.store) - {entry.key}
                          && cache.stats.Counts() == cache.Tally(old(cache.stats.Counts()), Events(expires := 1))
      ensures !expired ==> cache.store == old(cache.store) && unchanged(cache.stats)
      ensures old(cache.Valid()) ==> cache.Valid()
    {
      expired := entry.IsExpired(initialTime, cache.expiry);
      if expired {
        cache.store := cache.store - {entry.key};
        if cache.statsEnabled {
          cache.stats.CountExpire();
        }
      }
    }

    /** One round of `next`'s loop: the following entry of the snapshot is
        looked at; it is either passed over (and, when `next` finds it
        expired, marked, removed from the cache and counted) or found live
        and counted as a hit. */
    method Step(ghost d: EntryData<V>) returns (found: bool)
      requires Valid() && curIndex < maxIndex && entryList[curIndex + 1].Data() == d
      modifies this`curIndex, this`curEntry, cache`store, cache.stats, entryList[curIndex + 1]
      ensures Valid() && curIndex == old(curIndex) + 1
      ensures var entry := entryList[curIndex];
              && found == !Skipped(d, initialTime, cache.expiry, cache.hasExpiry)
              && curEntry == (if found then entry else null)
              && entry.Data() == Looked(d, initialTime, cache.expiry, cache.hasExpiry)
              && Datas(entryList) == old(Datas(entryList))[curIndex := entry.Data()]
              && cache.store == (if NewlyExpired(d, initialTime, cache.expiry, cache.hasExpiry)
                                 then old(cache.store) - {entry.key} else old(cache.store))
              && cache.stats.Counts()
                 == cache.Tally(old(cache.stats.Counts()),
                                Events(expires := if NewlyExpired(d, initialTime, cache.expiry, cache.hasExpiry) then 1 else 0,
                                       hits := if found then 1 else 0))
      ensures Current() == Stepped(old(Current()), curIndex, d)
      ensures old(cache.Valid()) ==> cache.Valid()
    {
      curIndex := curIndex + 1;
      var entry := entryList[curIndex];
      found := Look(entry);
      curEntry := if found then entry else null;
    }

    /** The body of `next`'s loop for one entry: one already marked expired
        is passed over; one found expired at the creation time is marked,
        removed from the cache and counted; any other is counted as a hit. */
    method Look(entry: MEntry<K, V>) returns (found: bool)
      modifies cache`store, cache.stats, entry
      ensures var d := old(entry.Data());
              && found == !Skipped(d, initialTime, cache.expiry, cache.hasExpiry)
              && entry.Data() == Looked(d, initialTime, cache.expiry, cache.hasExpiry)
              && cache.store == (if NewlyExpired(d, initialTime, cache.expiry, cache.hasExpiry)
                                 then old(cache.store) - {entry.key} else old(cache.store))
              && cache.stats.Counts()
                 == cache.Tally(old(cache.stats.Counts()),
                                Events(expires := if NewlyExpired(d, initialTime, cache.expiry, cache.hasExpiry) then 1 else 0,
                                       hits := if found then 1 else 0))
      ensures old(cache.Valid()) ==> cache.Valid()
    {
      if entry.isExpired {
        AddZero(cache.stats.Counts());
        return false;
      }
      var expired := false;
      if cache.hasExpiry {
        expired := Expire(entry);
      }
      if expired {
        return false;
      }
      Hit();
      return true;
    }

    /** `next`'s count of a live entry: a get and a hit, when statistics are on. */
    method Hit()
      modifies cache.stats
      ensures cache.stats.Counts() == cache.Tally(old(cache.stats.Counts()), Events(hits := 1))
      ensures old(cache.Valid()) ==> cache.Valid()
    {
      if cache.statsEnabled {
        cache.stats.CountHit();
      }
    }

    /** The entries' fields, the cache's store and its counters. */
    ghost function Current(): (seq<EntryData<V>>, map<K, MEntry<K, V>>, Counters)
      reads this, cache, cache.stats, Entries()
    {
      (Datas(entryList), cache.store, cache.stats.Counts())
    }

    /** The entries' fields, the cache's store and its counters after `next`
        looked at the entries `lo` to `upTo - 1`, starting from fields `ds`,
        store `s0` and counters `c0`: the looked-at entries marked as the
        checks found them, the newly expired ones removed from the store and
        counted, and `hits` hits counted. */
    ghost function AfterScan(lo: int, ds: seq<EntryData<V>>, s0: map<K, MEntry<K, V>>, c0: Counters, upTo: int, hits: nat)
      : (seq<EntryData<V>>, map<K, MEntry<K, V>>, Counters)
      requires |ds| == |entryList| && 0 <= lo <= upTo <= |ds|
    {
      (LookedIn(ds, lo, upTo, initialTime, cache.expiry, cache.hasExpiry),
       s0 - NewlyExpiredKeys(entryList, ds, lo, upTo, initialTime, cache.expiry, cache.hasExpiry),
       cache.Tally(c0, Events(expires := NewlyExpiredCount(ds, lo, upTo, initialTime, cache.expiry, cache.hasExpiry), hits := hits)))
    }

    /** The effect on `Current()` of one round of `next`'s loop over the
        entry at position `k`, whose fields were `d`. */
    ghost function Stepped(now: (seq<EntryData<V>>, map<K, MEntry<K, V>>, Counters), k: int, d: EntryData<V>)
      : (seq<EntryData<V>>, map<K, MEntry<K, V>>, Counters)
      requires 0 <= k < |now.0| && k < |entryList|
    {
      var newly := NewlyExpired(d, initialTime, cache.expiry, cache.hasExpiry);
      (now.0[k := Looked(d, initialTime, cache.expiry, cache.hasExpiry)],
       if newly then now.1 - {entryList[k].key} else now.1,
       cache.Tally(now.2, Events(expires := if newly then 1 else 0,
                                 hits := if Skipped(d, initialTime, cache.expiry, cache.hasExpiry) then 0 else 1)))
    }

    /** Passing one more entry extends the scan by that entry's round. */
    lemma ScanStep(lo: int, ds: seq<EntryData<V>>, s0: map<K, MEntry<K, V>>, c0: Counters, k: int)
      requires |ds| == |entryList| && 0 <= lo <= k < |ds|
      ensures AfterScan(lo, ds, s0, c0, k + 1, if Skipped(ds[k], initialTime, cache.expiry, cache.hasExpiry) then 0 else 1)
              == Stepped(AfterScan(lo, ds, s0, c0, k, 0), k, ds[k])
    {
      LookedInStep(ds, lo, k, initialTime, cache.expiry, cache.hasExpiry);
      ScanStepStore(entryList, ds, s0, lo, k, initialTime, cache.expiry, cache.hasExpiry);
      ScanStepCounts(cache, ds, c0, lo, k, initialTime, cache.expiry, cache.hasExpiry,
                     !Skipped(ds[k], initialTime, cache.expiry, cache.hasExpiry));
    }

    /** One round of `next`'s loop, with its effect on the whole scan so far:
        a passed-over entry extends the scan by one, a live one ends it. */
    method Visit(ghost lo: int, ghost ds: seq<EntryData<V>>, ghost s0: map<K, MEntry<K, V>>, ghost c0: Counters,
                 ghost live: nat)
      returns (found: bool)
      requires Valid() && lo - 1 <= curIndex < maxIndex && curEntry == null
      requires |ds| == |entryList| && 0 <= lo && Current() == AfterScan(lo, ds, s0, c0, curIndex + 1, 0)
      requires live == FirstLive(ds, lo, initialTime, cache.expiry, cache.hasExpiry) && curIndex + 1 <= live
      modifies this`curIndex, this`curEntry, cache`store, cache.stats, Entries()
      ensures Valid() && curIndex == old(curIndex) + 1
      ensures found ==> curEntry == entryList[curIndex] && live == curIndex
      ensures !found ==> curEntry == null && curIndex + 1 <= live
      ensures Current() == AfterScan(lo, ds, s0, c0, curIndex + 1, if found then 1 else 0)
      ensures old(cache.Valid()) ==> cache.Valid()
    {
      assert entryList[curIndex + 1].Data() == ds[curIndex + 1];
      found := Step(ds[curIndex + 1]);
      ScanStep(lo, ds, s0, c0, curIndex);
      ScanPast(ds, lo, curIndex, initialTime, cache.expiry, cache.hasExpiry);
    }

    /** next: look at the snapshot's entries in turn from the one after the
        current position; pass over those marked or found expired and return
        the first live one, or null when none is left. */
    method Next() returns (r: MEntry?<K, V>)
      requires Valid()
      modifies this`curIndex, this`curEntry, cache`store, cache.stats, Entries()
      ensures Valid() && r == curEntry
      ensures (r != null) == old(HasLiveNext())
      ensures old(cache.Valid()) ==> cache.Valid()
      ensures var lo := old(curIndex) + 1;
              var live := FirstLive(old(Datas(entryList)), lo, initialTime, cache.expiry, cache.hasExpiry);
              && (r != null ==> live <= maxIndex && r == entryList[live] && curIndex == live)
              && (r == null ==> live == maxIndex + 1 && curIndex == maxIndex)
              && Current() == AfterScan(lo, old(Datas(entryList)), old(cache.store), old(cache.stats.Counts()), curIndex + 1,
                                        if r != null then 1 else 0)
    {
      ghost var lo, ds, s0, c0 := curIndex + 1, Datas(entryList), cache.store, cache.stats.Counts();
      ghost var live := FirstLive(ds, lo, initialTime, cache.expiry, cache.hasExpiry);
      curEntry := null;
      AddZero(c0);
      assert LookedIn(ds, lo, lo, initialTime, cache.expiry, cache.hasExpiry) == ds;
      assert NewlyExpiredKeys(entryList, ds, lo, lo, initialTime, cache.expiry, cache.hasExpiry) == {};
      assert s0 - NewlyExpiredKeys(entryList, ds, lo, lo, initialTime, cache.expiry, cache.hasExpiry) == s0;
      assert AfterScan(lo, ds, s0, c0, lo, 0) == (ds, s0, c0);
      assert Datas(entryList) == ds;
      r := Scan(lo, ds, s0, c0, live);
    }

    /** The loop of `next`, from a position where the entries `lo` to
        `curIndex` have been passed over. */
    method Scan(ghost lo: int, ghost ds: seq<EntryData<V>>, ghost s0: map<K, MEntry<K, V>>, ghost c0: Counters, ghost live: nat)
      returns (r: MEntry?<K, V>)
      requires Valid() && lo - 1 <= curIndex <= maxIndex && curEntry == null
      requires |ds| == |entryList| && 0 <= lo && Current() == AfterScan(lo, ds, s0, c0, curIndex + 1, 0)
      requires live == FirstLive(ds, lo, initialTime, cache.expiry, cache.hasExpiry) && curIndex + 1 <= live
      modifies this`curIndex, this`curEntry, cache`store, cache.stats, Entries()
      ensures Valid() && r == curEntry
      ensures r != null ==> live <= maxIndex && r == entryList[live] && curIndex == live
      ensures r == null ==> live == maxIndex + 1 && curIndex == maxIndex
      ensures Current() == AfterScan(lo, ds, s0, c0, curIndex + 1, if r != null then 1 else 0)
      ensures old(cache.Valid()) ==> cache.Valid()
    {
      while curIndex < maxIndex
        invariant Valid() && lo - 1 <= curIndex <= maxIndex && curEntry == null
        invariant curIndex + 1 <= live
        invariant Current() == AfterScan(lo, ds, s0, c0, curIndex + 1, 0)
        invariant old(cache.Valid()) ==> cache.Valid()
        decreases maxIndex - curIndex
      {
        var found := Visit(lo, ds, s0, c0, live);
        if found {
          return curEntry;
        }
      }
      return curEntry;
    }

    /** remove: take the entry `next` last returned out of the cache, by its
        key, and count a removal; nothing happens when there is none (before
        the first `next`, after one that found nothing, or after a second
        `remove`). */
    method Remove()
      requires Valid()
      modifies this`curEntry, cache`store, cache.stats
      ensures Valid() && curEntry == null
      ensures old(cache.Valid()) ==> cache.Valid()
      ensures old(curEntry) == null ==> cache.store == old(cache.store) && unchanged(cache.stats)
      ensures old(curEntry) != null ==>
                && cache.store == old(cache.store) - {old(curEntry).key}
                && cache.stats.Counts() == cache.Tally(old(cache.stats.Counts()), Events(removals := 1))
    {
      if curEntry != null {
        cache.store := cache.store - {curEntry.key};
        if cache.statsEnabled {
          cache.stats.CountRemoval();
        }
        curEntry := null;
      }
    }
  }

  /** iterator(): refused on a closed cache; otherwise an iterator over a
      snapshot of the entries stored now, positioned before the first one.
      `now` stands for the clock read when the iterator is created. */
  method Open<K(==), V(==)>(cache: MCache<K, V>, now: int) returns (r: Result<CacheIterator<K, V>>)
    requires cache.KeysMatch()
    ensures cache.isClosed ==> r == Failure(IllegalState)
    ensures !cache.isClosed ==>
              && r.Success? && fresh(r.value) && r.value.Valid()
              && r.value.cache == cache && r.value.initialTime == now
              && r.value.curIndex == -1 && r.value.curEntry == null
              && cache.QueueKeys(r.value.entryList) == cache.store.Keys
              && (forall i | 0 <= i < |r.value.entryList| :: cache.store[r.value.entryList[i].key] == r.value.entryList[i])
  {
    if cache.isClosed {
      return Failure(IllegalState);
    }
    var it := new CacheIterator(cache, now);
    return Success(it);
  }

  /** `hasNext` answers from the position alone: on a fresh iterator over a
      single entry that is already marked expired it says true, yet no entry
      is live, so `next` returns null. */
  lemma HasNextOverstates<K, V>(it: CacheIterator<K, V>)
    requires it.Valid() && it.curIndex == -1 && |it.entryList| == 1 && it.entryList[0].isExpired
    ensures it.HasNext() && !it.HasLiveNext()
  {
  }
}
