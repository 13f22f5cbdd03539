/** The cache: a map from keys to entry objects, the statistics counters, the
    configured expiry durations, the closed flag and the eviction limit. Every
    operation takes the current time as a parameter and runs as one atomic
    step. */
module Cache {
  import opened Wrappers
  import opened Entries
  import opened Statistics
  import opened Ranking
  import opened Tallies

  /** What the cache takes from its configuration: the statistics flag, the
      expiry policy (if a policy factory is configured) and the eviction limit
      (0 when unlimited, and for configurations that carry no limit). */
  datatype Configuration = Configuration(
    statisticsEnabled: bool,
    expiryPolicy: Option<ExpiryPolicy>,
    maxEntries: int)

  const NoExpiry := ExpiryPolicy(None, None, None)

  /** The bulk operations that visit a set of keys one at a time: getAll,
      removeAll of a key set, putAll, getEntryList and clearExpired. */
  datatype Sweep = Gets | Removes | Puts | Listing | Clearing

  /** The statistics a sweep adds, by kind of the keys it visits: getAll a
      hit per live key and a miss per other key; removeAll a removal per live
      key; putAll a put per key; getEntryList a hit per live key;
      clearExpired nothing but expiries. Each counts an expiry per key whose
      entry had expired. */
  function Delta(op: Sweep, n: Kinds): Counters {
    match op
    case Gets => Counters(n.live, n.expired + n.absent, n.Total(), 0, 0, 0, n.expired)
    case Removes => Counters(0, 0, 0, 0, n.live, 0, n.expired)
    case Puts => Counters(0, 0, 0, n.Total(), 0, 0, n.expired)
    case Listing => Counters(n.live, 0, n.live, 0, 0, 0, n.expired)
    case Clearing => Counters(0, 0, 0, 0, 0, 0, n.expired)
  }

  /** No keys visited, no events. */
  lemma NoDelta(op: Sweep, n: Kinds)
    requires n == Kinds(0, 0, 0)
    ensures Delta(op, n) == Zero
  {
  }

  /** The events of two groups of keys add up. */
  lemma DeltaAdds(op: Sweep, n: Kinds, m: Kinds)
    ensures Delta(op, n.Plus(m)) == Delta(op, n).Add(Delta(op, m))
  {
  }

  /** Two maps that agree outside `done`, after one of them changed only
      under `key`, agree outside `done` and `key`. */
  lemma SameOutside<A, B>(now: map<A, B>, before: map<A, B>, start: map<A, B>, done: set<A>, key: A)
    requires now - {key} == before - {key} && before - done == start - done
    ensures now - (done + {key}) == start - (done + {key})
  {
    assert now - (done + {key}) == (now - {key}) - done;
    assert before - (done + {key}) == (before - {key}) - done;
    assert before - (done + {key}) == (before - done) - {key};
    assert start - (done + {key}) == (start - done) - {key};
  }

  /** The values `m` holds under the keys of `ks`, in that order. */
  function EntriesAt<A, B>(m: map<A, B>, ks: seq<A>): (r: seq<B>)
    requires forall i | 0 <= i < |ks| :: ks[i] in m
    ensures |r| == |ks| && forall i | 0 <= i < |ks| :: r[i] == m[ks[i]]
    decreases |ks|
  {
    if ks == [] then [] else EntriesAt(m, ks[..|ks| - 1]) + [m[ks[|ks| - 1]]]
  }

  class MCache<K(==), V(==)> {
    const name: string
    var store: map<K, MEntry<K, V>>
    const stats: MStats
    const statsEnabled: bool
    /** accessDuration, creationDuration, updateDuration, with eternal ones dropped */
    const expiry: ExpiryPolicy
    const hasExpiry: bool
    var isClosed: bool
    /** the eviction runnable's limit; 0 when there is no eviction runnable */
    var maxEntries: int

    ghost predicate Valid()
      reads this, stats, store.Values
    {
      && IsNormal(expiry)
      && hasExpiry == HasExpiry(expiry)
      && (forall k | k in store :: store[k].key == k && !store[k].isExpired)
      && stats.Counts().Balanced()
      && (isClosed ==> store == map[])
    }

    /** The entries' fields, by key. */
    ghost function View(): map<K, EntryData<V>>
      reads this, store.Values
    {
      map k | k in store :: store[k].Data()
    }

    /** The entry object stored under `key`, if any: the only entry an
        operation on `key` may change. */
    function At(key: K): set<MEntry<K, V>>
      reads this
    {
      if key in store then {store[key]} else {}
    }

    /** The cache's own expiry check (getCheckExpired): it runs only when a
        duration is configured. */
    predicate ExpiredNow(d: EntryData<V>, now: int) {
      hasExpiry && Expired(d, now, expiry)
    }

    /** getEntryInternal's expiry check: an explicit policy replaces the
        cache's durations. */
    predicate ExpiredUnder(d: EntryData<V>, now: int, policy: Option<ExpiryPolicy>) {
      if policy.Some? then Expired(d, now, policy.value) else ExpiredNow(d, now)
    }

    /** getEntryInternal finds an unexpired entry last updated before `expireBeforeTime`. */
    predicate Stale(d: EntryData<V>, now: int, policy: Option<ExpiryPolicy>, expireBeforeTime: Option<int>) {
      !ExpiredUnder(d, now, policy) && expireBeforeTime.Some? && d.lastUpdatedTime < expireBeforeTime.value
    }

    /** getEntryInternal counts a hit on an entry with these fields. */
    predicate Hit(d: EntryData<V>, now: int, policy: Option<ExpiryPolicy>, expireBeforeTime: Option<int>) {
      !ExpiredUnder(d, now, policy) && !Stale(d, now, policy, expireBeforeTime)
    }

    /** `key` holds an entry that the cache's durations do not expire at `now`. */
    ghost predicate LiveAt(key: K, now: int)
      reads this, store.Values
    {
      key in store && !ExpiredNow(store[key].Data(), now)
    }

    /** `key` holds an entry that the cache's durations expire at `now`. */
    ghost predicate ExpiredAt(key: K, now: int)
      reads this, store.Values
    {
      key in store && ExpiredNow(store[key].Data(), now)
    }

    /** `view` holds an entry under `key` that the durations leave live at `now`. */
    predicate IsLive(view: map<K, EntryData<V>>, key: K, now: int) {
      key in view && !ExpiredNow(view[key], now)
    }

    /** The entries after a counted get of `key` at `now`: an expired entry is
        removed, a live one records one more access, no other entry changes. */
    function GetView(view: map<K, EntryData<V>>, key: K, now: int): (r: map<K, EntryData<V>>)
    {
      if IsLive(view, key, now) then view[key := Accessed(view[key], now)] else view - {key}
    }

    /** The value a counted get of `key` at `now` returns: the live entry's value, or null. */
    function GotValue(view: map<K, EntryData<V>>, key: K, now: int): (r: Nullable<V>)
    {
      if IsLive(view, key, now) then view[key].value else Null
    }

    /** The events sweep `op` counts for `key` at `now`. A live entry counts
        a hit (getAll, getEntryList), a removal (removeAll) or a put (putAll);
        an expired entry counts an expiry, and for getAll a miss, for putAll a
        put; an absent key counts a miss (getAll), a put (putAll) or nothing. */
    function KeyEvents(op: Sweep, view: map<K, EntryData<V>>, key: K, now: int): (r: Counters)
    {
      if IsLive(view, key, now) then
        match op
        case Gets => Counters(1, 0, 1, 0, 0, 0, 0)
        case Removes => Counters(0, 0, 0, 0, 1, 0, 0)
        case Puts => Counters(0, 0, 0, 1, 0, 0, 0)
        case Listing => Counters(1, 0, 1, 0, 0, 0, 0)
        case Clearing => Zero
      else if key in view then
        match op
        case Gets => Counters(0, 1, 1, 0, 0, 0, 1)
        case Puts => Counters(0, 0, 0, 1, 0, 0, 1)
        case _ => Counters(0, 0, 0, 0, 0, 0, 1)
      else
        match op
        case Gets => Counters(0, 1, 1, 0, 0, 0, 0)
        case Puts => Counters(0, 0, 0, 1, 0, 0, 0)
        case _ => Zero
    }

    /** The events a counted get of `key` at `now` counts: a hit on a live
        entry; otherwise a miss, and an expiry when an entry was there. */
    function GetEvents(view: map<K, EntryData<V>>, key: K, now: int): (r: Counters)
    {
      KeyEvents(Gets, view, key, now)
    }

    /** The keys among `keys` whose entry in `view` the durations leave live at `now`. */
    function LiveIn(view: map<K, EntryData<V>>, keys: set<K>, now: int): (live: set<K>)
      ensures live <= keys
    {
      set k | k in keys && k in view && !ExpiredNow(view[k], now)
    }

    /** The keys among `keys` whose entry in `view` the durations expire at `now`. */
    function ExpiredIn(view: map<K, EntryData<V>>, keys: set<K>, now: int): (expired: set<K>)
      ensures expired <= keys
    {
      set k | k in keys && k in view && ExpiredNow(view[k], now)
    }

    /** The counters after the counted events `d`, when statistics are on. */
    function Tally(c: Counters, d: Counters): Counters {
      if statsEnabled then c.Add(d) else c
    }

    /** Tallying two steps one after the other tallies their sum. */
    lemma TallyTwice(c: Counters, d1: Counters, d2: Counters)
      ensures Tally(Tally(c, d1), d2) == Tally(c, d1.Add(d2))
    {
      AddAssociative(c, d1, d2);
    }

    constructor (name: string, configuration: Option<Configuration>)
      ensures Valid() && fresh(stats)
      ensures this.name == name && store == map[] && !isClosed && stats.Counts() == Zero
      ensures configuration.None? ==> statsEnabled && expiry == NoExpiry && maxEntries == 0
      ensures configuration.Some? ==>
                && statsEnabled == configuration.value.statisticsEnabled
                && expiry == (if configuration.value.expiryPolicy.Some?
                              then Normalized(configuration.value.expiryPolicy.value) else NoExpiry)
                && maxEntries == (if configuration.value.maxEntries > 0 then configuration.value.maxEntries else 0)
    {
      this.name := name;
      store := map[];
      stats := new MStats();
      isClosed := false;
      if configuration.Some? {
        var conf := configuration.value;
        statsEnabled := conf.statisticsEnabled;
        if conf.expiryPolicy.Some? {
          expiry := Normalized(conf.expiryPolicy.value);
          hasExpiry := HasExpiry(Normalized(conf.expiryPolicy.value));
        } else {
          expiry := NoExpiry;
          hasExpiry := false;
        }
        maxEntries := if conf.maxEntries > 0 then conf.maxEntries else 0;
      } else {
        statsEnabled := true;
        expiry := NoExpiry;
        hasExpiry := false;
        maxEntries := 0;
      }
    }

    /** setMaxEntries: the limit the eviction pass uses (0 stops eviction). */
    method SetMaxEntries(elements: int)
      modifies this`maxEntries
      ensures maxEntries == elements
    {
      maxEntries := elements;
    }

    /** size: the number of entries; a closed cache has none. */
    function Size(): (r: nat)
      reads this, store.Values
      ensures r == |View()|
      ensures Valid() && isClosed ==> r == 0
    {
      assert View().Keys == store.Keys;
      |store|
    }

    // The counting the source guards with `if (statsEnabled)` at each site.

    method NoteHit()
      requires stats.Counts().Balanced()
      modifies stats
      ensures stats.Counts() == Tally(old(stats.Counts()), Events(hits := 1)) && stats.Counts().Balanced()
    {
      if statsEnabled {
        stats.CountHit();
      }
    }

    method NoteMiss()
      requires stats.Counts().Balanced()
      modifies stats
      ensures stats.Counts() == Tally(old(stats.Counts()), Events(misses := 1)) && stats.Counts().Balanced()
    {
      if statsEnabled {
        stats.CountMiss();
      }
    }

    method NotePut()
      requires stats.Counts().Balanced()
      modifies stats
      ensures stats.Counts() == Tally(old(stats.Counts()), Events(puts := 1)) && stats.Counts().Balanced()
    {
      if statsEnabled {
        stats.CountPut();
      }
    }

    method NoteRemoval()
      requires stats.Counts().Balanced()
      modifies stats
      ensures stats.Counts() == Tally(old(stats.Counts()), Events(removals := 1)) && stats.Counts().Balanced()
    {
      if statsEnabled {
        stats.CountRemoval();
      }
    }

    method NoteExpire()
      requires stats.Counts().Balanced()
      modifies stats
      ensures stats.Counts() == Tally(old(stats.Counts()), Events(expires := 1)) && stats.Counts().Balanced()
    {
      if statsEnabled {
        stats.CountExpire();
      }
    }

    /** getCheckExpired(key, now): the live entry under `key`, after removing
        it (and counting an expiry) if the cache's durations expire it. */
    method CheckExpired(key: K, now: int) returns (r: Result<MEntry?<K, V>>)
      requires Valid()
      modifies this`store, stats, At(key)
      ensures Valid()
      ensures old(isClosed) ==> r == Failure(IllegalState) && store == old(store) && unchanged(stats)
      ensures !old(isClosed) ==> r.Success?
      ensures !old(isClosed) && key !in old(store) ==>
                r.value == null && store == old(store) && unchanged(stats)
      ensures !old(isClosed) && key in old(store) && ExpiredNow(old(store[key].Data()), now) ==>
                && r.value == null
                && store == old(store) - {key}
                && old(store[key]).Data() == old(store[key].Data()).(expired := true)
                && stats.Counts() == Tally(old(stats.Counts()), Events(expires := 1))
      ensures !old(isClosed) && key in old(store) && !ExpiredNow(old(store[key].Data()), now) ==>
                && r.value == old(store[key])
                && store == old(store) && unchanged(stats) && unchanged(old(store[key]))
    {
      if isClosed {
        return Failure(IllegalState);
      }
      if key !in store {
        return Success(null);
      }
      var entry := store[key];
      if hasExpiry {
        var expired := entry.IsExpired(now, expiry);
        if expired {
          store := store - {key};
          NoteExpire();
          return Success(null);
        }
      }
      return Success(entry);
    }

    /** The expiry part of getEntryInternal for a key that is present. */
    method DropExpired(key: K, policy: Option<ExpiryPolicy>, expireBeforeTime: Option<int>, currentTime: int)
      returns (entry: MEntry?<K, V>)
      requires Valid() && key in store
      modifies this`store, stats, At(key)
      ensures Valid()
      ensures Hit(old(store[key].Data()), currentTime, policy, expireBeforeTime) ==>
                && entry == old(store[key])
                && store == old(store) && unchanged(stats) && unchanged(entry)
      ensures !Hit(old(store[key].Data()), currentTime, policy, expireBeforeTime) ==>
                && entry == null
                && store == old(store) - {key}
                && stats.Counts() == Tally(old(stats.Counts()), Events(expires := 1))
      ensures ExpiredUnder(old(store[key].Data()), currentTime, policy) ==>
                old(store[key]).Data() == old(store[key].Data()).(expired := true)
      ensures Stale(old(store[key].Data()), currentTime, policy, expireBeforeTime) ==>
                unchanged(old(store[key]))
    {
      entry := store[key];
      if policy.Some? {
        var expired := entry.IsExpired(currentTime, policy.value);
        if expired {
          store := store - {key};
          entry := null;
          NoteExpire();
        }
      } else if hasExpiry {
        var expired := entry.IsExpired(currentTime, expiry);
        if expired {
          store := store - {key};
          entry := null;
          NoteExpire();
        }
      }
      if expireBeforeTime.Some? && entry != null && entry.lastUpdatedTime < expireBeforeTime.value {
        store := store - {key};
        entry := null;
        NoteExpire();
      }
    }

    /** getEntryInternal: look `key` up, drop it if the policy (or the cache's
        durations) expire it or it was last updated before
        `expireBeforeTime`, and count a hit (advancing the entry's access
        data) or a miss. */
    method GetEntryInternal(key: K, policy: Option<ExpiryPolicy>, expireBeforeTime: Option<int>, currentTime: int)
      returns (r: Result<MEntry?<K, V>>)
      requires Valid()
      modifies this`store, stats, At(key)
      ensures Valid()
      ensures old(isClosed) ==> r == Failure(IllegalState) && store == old(store) && unchanged(stats)
      ensures !old(isClosed) ==> r.Success?
      ensures !old(isClosed) && key in old(store) && Hit(old(store[key].Data()), currentTime, policy, expireBeforeTime) ==>
                && r.value == old(store[key])
                && store == old(store)
                && store[key].Data() == Accessed(old(store[key].Data()), currentTime)
                && stats.Counts() == Tally(old(stats.Counts()), Events(hits := 1))
      ensures !old(isClosed) && !(key in old(store) && Hit(old(store[key].Data()), currentTime, policy, expireBeforeTime)) ==>
                && r.value == null
                && store == old(store) - {key}
                && stats.Counts() == Tally(old(stats.Counts()), Events(misses := 1, expires := if key in old(store) then 1 else 0))
      ensures key in old(store) && ExpiredUnder(old(store[key].Data()), currentTime, policy) ==>
                old(store[key]).Data() == old(store[key].Data()).(expired := true)
      ensures key in old(store) && Stale(old(store[key].Data()), currentTime, policy, expireBeforeTime) ==>
                unchanged(old(store[key]))
      ensures forall e: MEntry<K, V> {:trigger Apart(e, key)} | old(allocated(e)) && Apart(e, key) :: e.Data() == old(e.Data())
    {
      if isClosed {
        return Failure(IllegalState);
      }
      var entry: MEntry?<K, V> := null;
      if key in store {
        entry := DropExpired(key, policy, expireBeforeTime, currentTime);
        if entry != null {
          NoteHit();
          entry.CountAccess(currentTime);
        } else {
          NoteMiss();
        }
      } else {
        NoteMiss();
      }
      return Success(entry);
    }

    /** get(key): the value of the live entry, or null. */
    method Get(key: K, now: int) returns (r: Result<Nullable<V>>)
      requires Valid()
      modifies this`store, stats, At(key)
      ensures Valid()
      ensures old(isClosed) ==> r == Failure(IllegalState) && unchanged(this, stats)
      ensures !old(isClosed) ==>
                && r == Success(GotValue(old(View()), key, now))
                && View() == GetView(old(View()), key, now)
                && store == (if IsLive(old(View()), key, now) then old(store) else old(store) - {key})
                && stats.Counts() == Tally(old(stats.Counts()), GetEvents(old(View()), key, now))
      ensures old(ExpiredAt(key, now)) ==> old(store[key]).Data() == old(store[key].Data()).(expired := true)
      ensures forall e: MEntry<K, V> {:trigger Apart(e, key)} | old(allocated(e)) && Apart(e, key) :: e.Data() == old(e.Data())
    {
      ghost var view := View();
      var e := GetEntryInternal(key, None, None, now);
      if e.Failure? {
        return Failure(e.error);
      }
      if IsLive(view, key, now) {
        assert View() == view[key := Accessed(view[key], now)];
      } else {
        assert View() == view - {key};
      }
      r := Success(if e.value == null then Null else e.value.value);
    }

    /** get(key, policy): as get, with the policy's durations in place of the cache's. */
    method GetWithPolicy(key: K, policy: ExpiryPolicy, now: int) returns (r: Result<Nullable<V>>)
      requires Valid()
      modifies this`store, stats, At(key)
      ensures Valid()
      ensures old(isClosed) ==> r == Failure(IllegalState) && unchanged(this, stats)
      ensures !old(isClosed) ==>
                var live := key in old(store) && !Expired(old(store[key].Data()), now, policy);
                && r == Success(if live then old(store[key].value) else Null)
                && store == (if live then old(store) else old(store) - {key})
                && (live ==> store[key].Data() == Accessed(old(store[key].Data()), now))
                && stats.Counts() == Tally(old(stats.Counts()), if live then Events(hits := 1)
                                           else Events(misses := 1, expires := if key in old(store) then 1 else 0))
      ensures key in old(store) && Expired(old(store[key].Data()), now, policy) ==>
                old(store[key]).Data() == old(store[key].Data()).(expired := true)
    {
      var e := GetEntryInternal(key, Some(policy), None, now);
      if e.Failure? {
        return Failure(e.error);
      }
      r := Success(if e.value == null then Null else e.value.value);
    }

    /** get(key, expireBeforeTime): as get, and an entry last updated before
        `expireBeforeTime` is dropped as expired. */
    method GetExpireBefore(key: K, expireBeforeTime: int, now: int) returns (r: Result<Nullable<V>>)
      requires Valid()
      modifies this`store, stats, At(key)
      ensures Valid()
      ensures old(isClosed) ==> r == Failure(IllegalState) && unchanged(this, stats)
      ensures !old(isClosed) ==>
                var live := old(LiveAt(key, now)) && old(store[key].lastUpdatedTime) >= expireBeforeTime;
                && r == Success(if live then old(store[key].value) else Null)
                && store == (if live then old(store) else old(store) - {key})
                && (live ==> store[key].Data() == Accessed(old(store[key].Data()), now))
                && stats.Counts() == Tally(old(stats.Counts()), if live then Events(hits := 1)
                                           else Events(misses := 1, expires := if key in old(store) then 1 else 0))
      ensures old(ExpiredAt(key, now)) ==> old(store[key]).Data() == old(store[key].Data()).(expired := true)
      ensures old(LiveAt(key, now)) && old(store[key].lastUpdatedTime) < expireBeforeTime ==> unchanged(old(store[key]))
    {
      var e := GetEntryInternal(key, None, Some(expireBeforeTime), now);
      if e.Failure? {
        return Failure(e.error);
      }
      r := Success(if e.value == null then Null else e.value.value);
    }

    /** getEntry(key, policy): the live entry itself; no policy means the cache's durations. */
    method GetEntry(key: K, policy: Option<ExpiryPolicy>, now: int) returns (r: Result<MEntry?<K, V>>)
      requires Valid()
      modifies this`store, stats, At(key)
      ensures Valid()
      ensures old(isClosed) ==> r == Failure(IllegalState) && unchanged(this, stats)
      ensures !old(isClosed) ==>
                var live := key in old(store) && !ExpiredUnder(old(store[key].Data()), now, policy);
                && r == Success(if live then old(store[key]) else null)
                && store == (if live then old(store) else old(store) - {key})
                && (live ==> store[key].Data() == Accessed(old(store[key].Data()), now))
                && stats.Counts() == Tally(old(stats.Counts()), if live then Events(hits := 1)
                                           else Events(misses := 1, expires := if key in old(store) then 1 else 0))
      ensures key in old(store) && ExpiredUnder(old(store[key].Data()), now, policy) ==>
                old(store[key]).Data() == old(store[key].Data()).(expired := true)
    {
      r := GetEntryInternal(key, policy, None, now);
    }

    /** getEntryNoCheck: the stored entry without any expiry check, counted as a hit or a miss. */
    method GetEntryNoCheck(key: K, now: int) returns (r: Result<MEntry?<K, V>>)
      requires Valid()
      modifies stats, At(key)
      ensures Valid()
      ensures old(isClosed) ==> r == Failure(IllegalState) && unchanged(stats)
      ensures !old(isClosed) && key in store ==>
                && r == Success(store[key])
                && store[key].Data() == Accessed(old(store[key].Data()), now)
                && stats.Counts() == Tally(old(stats.Counts()), Events(hits := 1))
      ensures !old(isClosed) && key !in store ==>
                r == Success(null) && stats.Counts() == Tally(old(stats.Counts()), Events(misses := 1))
    {
      if isClosed {
        return Failure(IllegalState);
      }
      if key in store {
        var entry := store[key];
        NoteHit();
        entry.CountAccess(now);
        return Success(entry);
      } else {
        NoteMiss();
        return Success(null);
      }
    }

    /** containsKey: whether a live entry is stored; an expired one is dropped,
        and nothing is counted as a get. */
    method ContainsKey(key: K, now: int) returns (r: Result<bool>)
      requires Valid()
      modifies this`store, stats, At(key)
      ensures Valid()
      ensures old(isClosed) ==> r == Failure(IllegalState) && unchanged(this, stats)
      ensures !old(isClosed) ==> r == Success(old(LiveAt(key, now)))
      ensures !old(isClosed) && old(LiveAt(key, now)) ==>
                store == old(store) && unchanged(stats) && unchanged(store[key])
      ensures !old(isClosed) && !old(LiveAt(key, now)) ==>
                && store == old(store) - {key}
                && stats.Counts() == Tally(old(stats.Counts()), Events(expires := if key in old(store) then 1 else 0))
      ensures old(ExpiredAt(key, now)) ==> old(store[key]).Data() == old(store[key].Data()).(expired := true)
    {
      var e := CheckExpired(key, now);
      if e.Failure? {
        return Failure(e.error);
      }
      return Success(e.value != null);
    }

    /** put: update the live entry (only if `now` is strictly newer than its
        last update), or store a new entry; one put is counted either way. */
    method Put(key: K, value: Nullable<V>, now: int) returns (r: Outcome)
      requires Valid()
      modifies this`store, stats, At(key)
      ensures Valid()
      ensures old(isClosed) ==> r == Fail(IllegalState) && unchanged(this, stats)
      ensures !old(isClosed) ==> r == Pass && key in store
      ensures !old(isClosed) && old(LiveAt(key, now)) ==>
                && store == old(store)
                && store[key].Data() == Updated(old(store[key].Data()), value, now)
                && stats.Counts() == Tally(old(stats.Counts()), Events(puts := 1))
      ensures !old(isClosed) && !old(LiveAt(key, now)) ==>
                && fresh(store[key]) && store == old(store)[key := store[key]]
                && store[key].Data() == Created(value, now)
                && stats.Counts() == Tally(old(stats.Counts()), Events(puts := 1, expires := if key in old(store) then 1 else 0))
      ensures old(ExpiredAt(key, now)) ==> old(store[key]).Data() == old(store[key].Data()).(expired := true)
    {
      var e := CheckExpired(key, now);
      if e.Failure? {
        return Fail(e.error);
      }
      var entry := e.value;
      if entry != null {
        entry.SetValue(value, now);
        NotePut();
      } else {
        entry := new MEntry(key, value, now);
        store := store[key := entry];
        NotePut();
      }
      return Pass;
    }

    /** getAndPut: as put, returning the previous value of a live entry (or null). */
    method GetAndPut(key: K, value: Nullable<V>, now: int) returns (r: Result<Nullable<V>>)
      requires Valid()
      modifies this`store, stats, At(key)
      ensures Valid()
      ensures old(isClosed) ==> r == Failure(IllegalState) && unchanged(this, stats)
      ensures !old(isClosed) ==> key in store
      ensures !old(isClosed) && old(LiveAt(key, now)) ==>
                && r == Success(old(store[key].value))
                && store == old(store)
                && store[key].Data() == Updated(old(store[key].Data()), value, now)
                && stats.Counts() == Tally(old(stats.Counts()), Events(puts := 1))
      ensures !old(isClosed) && !old(LiveAt(key, now)) ==>
                && r == Success(Null)
                && fresh(store[key]) && store == old(store)[key := store[key]]
                && store[key].Data() == Created(value, now)
                && stats.Counts() == Tally(old(stats.Counts()), Events(puts := 1, expires := if key in old(store) then 1 else 0))
      ensures old(ExpiredAt(key, now)) ==> old(store[key]).Data() == old(store[key].Data()).(expired := true)
    {
      var e := CheckExpired(key, now);
      if e.Failure? {
        return Failure(e.error);
      }
      var entry := e.value;
      if entry != null {
        var oldValue := entry.value;
        entry.SetValue(value, now);
        NotePut();
        return Success(oldValue);
      } else {
        entry := new MEntry(key, value, now);
        store := store[key := entry];
        NotePut();
        return Success(Null);
      }
    }

    /** putIfAbsent: store a new entry only when no live entry is stored. */
    method PutIfAbsent(key: K, value: Nullable<V>, now: int) returns (r: Result<bool>)
      requires Valid()
      modifies this`store, stats, At(key)
      ensures Valid()
      ensures old(isClosed) ==> r == Failure(IllegalState) && unchanged(this, stats)
      ensures !old(isClosed) ==> r == Success(!old(LiveAt(key, now)))
      ensures !old(isClosed) && old(LiveAt(key, now)) ==>
                store == old(store) && unchanged(stats) && unchanged(store[key])
      ensures !old(isClosed) && !old(LiveAt(key, now)) ==>
                && key in store && fresh(store[key]) && store == old(store)[key := store[key]]
                && store[key].Data() == Created(value, now)
                && stats.Counts() == Tally(old(stats.Counts()), Events(puts := 1, expires := if key in old(store) then 1 else 0))
      ensures old(ExpiredAt(key, now)) ==> old(store[key]).Data() == old(store[key].Data()).(expired := true)
    {
      var e := CheckExpired(key, now);
      if e.Failure? {
        return Failure(e.error);
      }
      if e.value != null {
        return Success(false);
      }
      var entry := new MEntry(key, value, now);
      assert store == old(store) - {key};
      store := store[key := entry];
      NotePut();
      return Success(true);
    }

    /** remove(key): drop the live entry and count a removal. */
    method Remove(key: K, now: int) returns (r: Result<bool>)
      requires Valid()
      modifies this`store, stats, At(key)
      ensures Valid()
      ensures old(isClosed) ==> r == Failure(IllegalState) && unchanged(this, stats)
      ensures !old(isClosed) ==>
                && r == Success(old(LiveAt(key, now)))
                && store == old(store) - {key}
                && View() == old(View()) - {key}
                && stats.Counts() == Tally(old(stats.Counts()), if old(LiveAt(key, now)) then Events(removals := 1)
                                           else Events(expires := if key in old(store) then 1 else 0))
      ensures old(LiveAt(key, now)) ==> unchanged(old(store[key]))
      ensures old(ExpiredAt(key, now)) ==> old(store[key]).Data() == old(store[key].Data()).(expired := true)
      ensures forall e: MEntry<K, V> {:trigger Apart(e, key)} | old(allocated(e)) && Apart(e, key) :: e.Data() == old(e.Data())
    {
      ghost var view := View();
      var e := CheckExpired(key, now);
      if e.Failure? {
        return Failure(e.error);
      }
      if e.value != null {
        store := store - {key};
        NoteRemoval();
        r := Success(true);
      } else {
        r := Success(false);
      }
      assert View() == view - {key};
    }

    /** remove(key, oldValue): drop the live entry only if its value equals `oldValue`. */
    method RemoveMatching(key: K, oldValue: Nullable<V>, now: int) returns (r: Result<bool>)
      requires Valid()
      modifies this`store, stats, At(key)
      ensures Valid()
      ensures old(isClosed) ==> r == Failure(IllegalState) && unchanged(this, stats)
      ensures !old(isClosed) ==>
                var matched := old(LiveAt(key, now)) && old(store[key].value) == oldValue;
                && r == Success(matched)
                && store == (if matched || !old(LiveAt(key, now)) then old(store) - {key} else old(store))
                && stats.Counts() == Tally(old(stats.Counts()), if matched then Events(removals := 1)
                                           else Events(expires := if old(ExpiredAt(key, now)) then 1 else 0))
      ensures old(LiveAt(key, now)) ==> unchanged(old(store[key]))
      ensures old(ExpiredAt(key, now)) ==> old(store[key]).Data() == old(store[key].Data()).(expired := true)
    {
      var e := CheckExpired(key, now);
      if e.Failure? {
        return Failure(e.error);
      }
      var entry := e.value;
      if entry != null {
        var remove := entry.ValueEquals(oldValue);
        if oldValue.NonNull? {
          if oldValue == entry.value {
            remove := true;
          }
        } else if entry.value.Null? {
          remove := true;
        }
        if remove {
          store := store - {key};
          NoteRemoval();
        }
        return Success(remove);
      }
      return Success(false);
    }

    /** getAndRemove: a counted get, then the removal of the entry it found. */
    method GetAndRemove(key: K, now: int) returns (r: Result<Nullable<V>>)
      requires Valid()
      modifies this`store, stats, At(key)
      ensures Valid()
      ensures old(isClosed) ==> r == Failure(IllegalState) && unchanged(this, stats)
      ensures !old(isClosed) ==>
                && r == Success(if old(LiveAt(key, now)) then old(store[key].value) else Null)
                && store == old(store) - {key}
                && stats.Counts() == Tally(old(stats.Counts()), if old(LiveAt(key, now)) then Events(hits := 1, removals := 1)
                                           else Events(misses := 1, expires := if key in old(store) then 1 else 0))
      ensures old(LiveAt(key, now)) ==> old(store[key]).Data() == Accessed(old(store[key].Data()), now)
      ensures old(ExpiredAt(key, now)) ==> old(store[key]).Data() == old(store[key].Data()).(expired := true)
    {
      var e := GetEntryInternal(key, None, None, now);
      if e.Failure? {
        return Failure(e.error);
      }
      var entry := e.value;
      if entry != null {
        var oldValue := entry.value;
        store := store - {key};
        NoteRemoval();
        return Success(oldValue);
      }
      return Success(Null);
    }

    /** replace(key, value): update the live entry; false when there is none. */
    method Replace(key: K, value: Nullable<V>, now: int) returns (r: Result<bool>)
      requires Valid()
      modifies this`store, stats, At(key)
      ensures Valid()
      ensures old(isClosed) ==> r == Failure(IllegalState) && unchanged(this, stats)
      ensures !old(isClosed) ==> r == Success(old(LiveAt(key, now)))
      ensures !old(isClosed) && old(LiveAt(key, now)) ==>
                && store == old(store)
                && store[key].Data() == Updated(old(store[key].Data()), value, now)
                && stats.Counts() == Tally(old(stats.Counts()), Events(puts := 1))
      ensures !old(isClosed) && !old(LiveAt(key, now)) ==>
                && store == old(store) - {key}
                && stats.Counts() == Tally(old(stats.Counts()), Events(expires := if key in old(store) then 1 else 0))
      ensures old(ExpiredAt(key, now)) ==> old(store[key]).Data() == old(store[key].Data()).(expired := true)
    {
      var e := CheckExpired(key, now);
      if e.Failure? {
        return Failure(e.error);
      }
      var entry := e.value;
      if entry != null {
        entry.SetValue(value, now);
        NotePut();
        return Success(true);
      }
      return Success(false);
    }

    /** replace(key, oldValue, newValue): update the live entry only if its value equals `oldValue`. */
    method ReplaceMatching(key: K, oldValue: Nullable<V>, newValue: Nullable<V>, now: int) returns (r: Result<bool>)
      requires Valid()
      modifies this`store, stats, At(key)
      ensures Valid()
      ensures old(isClosed) ==> r == Failure(IllegalState) && unchanged(this, stats)
      ensures !old(isClosed) ==>
                var matched := old(LiveAt(key, now)) && old(store[key].value) == oldValue;
                && r == Success(matched)
                && store == (if old(LiveAt(key, now)) then old(store) else old(store) - {key})
                && stats.Counts() == Tally(old(stats.Counts()), if matched then Events(puts := 1)
                                           else Events(expires := if old(ExpiredAt(key, now)) then 1 else 0))
      ensures old(LiveAt(key, now)) ==>
                store[key].Data() == if old(store[key].value) == oldValue
                                     then Updated(old(store[key].Data()), newValue, now)
                                     else old(store[key].Data())
      ensures old(ExpiredAt(key, now)) ==> old(store[key]).Data() == old(store[key].Data()).(expired := true)
    {
      var e := CheckExpired(key, now);
      if e.Failure? {
        return Failure(e.error);
      }
      var entry := e.value;
      if entry != null {
        var replace := entry.ValueEquals(oldValue);
        if replace {
          entry.SetValue(newValue, now);
          NotePut();
        }
        return Success(replace);
      }
      return Success(false);
    }

    /** getAndReplace: a counted get, then an update of the entry it found. */
    method GetAndReplace(key: K, value: Nullable<V>, now: int) returns (r: Result<Nullable<V>>)
      requires Valid()
      modifies this`store, stats, At(key)
      ensures Valid()
      ensures old(isClosed) ==> r == Failure(IllegalState) && unchanged(this, stats)
      ensures !old(isClosed) && old(LiveAt(key, now)) ==>
                && r == Success(old(store[key].value))
                && store == old(store)
                && store[key].Data() == Updated(Accessed(old(store[key].Data()), now), value, now)
                && stats.Counts() == Tally(old(stats.Counts()), Events(hits := 1, puts := 1))
      ensures !old(isClosed) && !old(LiveAt(key, now)) ==>
                && r == Success(Null)
                && store == old(store) - {key}
                && stats.Counts() == Tally(old(stats.Counts()), Events(misses := 1, expires := if key in old(store) then 1 else 0))
      ensures old(ExpiredAt(key, now)) ==> old(store[key]).Data() == old(store[key].Data()).(expired := true)
    {
      var e := GetEntryInternal(key, None, None, now);
      if e.Failure? {
        return Failure(e.error);
      }
      var entry := e.value;
      if entry != null {
        var oldValue := entry.value;
        entry.SetValue(value, now);
        NotePut();
        return Success(oldValue);
      }
      return Success(Null);
    }

    /** removeAll(): empty the store, counting every entry as a removal. */
    method RemoveAll() returns (r: Outcome)
      requires Valid()
      modifies this`store, stats
      ensures Valid()
      ensures old(isClosed) ==> r == Fail(IllegalState) && unchanged(this, stats)
      ensures !old(isClosed) ==>
                && r == Pass && store == map[]
                && stats.Counts() == Tally(old(stats.Counts()), Events(removals := old(|store|)))
    {
      if isClosed {
        return Fail(IllegalState);
      }
      var size := |store|;
      store := map[];
      if statsEnabled {
        stats.CountBulkRemoval(size);
      }
      return Pass;
    }

    /** clear: empty the store; no statistic changes. */
    method Clear() returns (r: Outcome)
      requires Valid()
      modifies this`store
      ensures Valid()
      ensures old(isClosed) ==> r == Fail(IllegalState) && unchanged(this)
      ensures !old(isClosed) ==> r == Pass && store == map[]
    {
      if isClosed {
        return Fail(IllegalState);
      }
      store := map[];
      return Pass;
    }

    /** close: empty the store and refuse every later checked operation;
        closing twice fails. */
    method Close() returns (r: Outcome)
      requires Valid()
      modifies this`store, this`isClosed
      ensures Valid()
      ensures old(isClosed) ==> r == Fail(IllegalState) && unchanged(this)
      ensures !old(isClosed) ==> r == Pass && isClosed && store == map[]
    {
      if isClosed {
        return Fail(IllegalState);
      }
      isClosed := true;
      store := map[];
      return Pass;
    }

    /** The entries after a counted get of every key in `keys` at `now`:
        each expired one is gone and each live one has one more access. */
    function GetAllView(view: map<K, EntryData<V>>, keys: set<K>, now: int): (r: map<K, EntryData<V>>)
      ensures r.Keys == view.Keys - ExpiredIn(view, keys, now)
      ensures forall k | k in r :: r[k] == if k in keys then Accessed(view[k], now) else view[k]
    {
      map k | k in view && !(k in keys && ExpiredNow(view[k], now)) :: if k in keys then Accessed(view[k], now) else view[k]
    }

    /** The values a counted get of every key in `keys` returns. */
    function GotValues(view: map<K, EntryData<V>>, keys: set<K>, now: int): (r: map<K, Nullable<V>>)
    {
      map k | k in keys :: GotValue(view, k, now)
    }

    /** Getting the keys one at a time: each get sees the entries the earlier
        gets left, and since every key is visited once, that entry is the
        original one. */
    lemma GetAllViewStep(op: Sweep, view: map<K, EntryData<V>>, done: set<K>, key: K, now: int)
      requires key !in done
      ensures var prev := GetAllView(view, done, now);
              && GetAllView(view, done + {key}, now) == GetView(prev, key, now)
              && KeyEvents(op, prev, key, now) == KeyEvents(op, view, key, now)
              && GotValue(prev, key, now) == GotValue(view, key, now)
    {
      var prev := GetAllView(view, done, now);
      assert key in view <==> key in prev;
      assert key in view ==> prev[key] == view[key];
    }

    /** The entry objects getAll keeps lose one expired key at a time. */
    lemma GetAllStoreStep(s0: map<K, MEntry<K, V>>, view: map<K, EntryData<V>>, done: set<K>, key: K, now: int)
      requires s0.Keys == view.Keys && key !in done
      ensures var prev := s0 - ExpiredIn(view, done, now);
              s0 - ExpiredIn(view, done + {key}, now)
              == if IsLive(GetAllView(view, done, now), key, now) then prev else prev - {key}
    {
      var prev := GetAllView(view, done, now);
      assert key in view ==> key in prev && prev[key] == view[key];
      if IsLive(prev, key, now) {
        assert ExpiredIn(view, done + {key}, now) == ExpiredIn(view, done, now);
      } else if key in view {
        assert ExpiredIn(view, done + {key}, now) == ExpiredIn(view, done, now) + {key};
      } else {
        assert ExpiredIn(view, done + {key}, now) == ExpiredIn(view, done, now);
      }
    }

    /** The result of getAll gains one key at a time. */
    lemma GetAllValuesStep(view: map<K, EntryData<V>>, done: set<K>, key: K, now: int)
      ensures GotValues(view, done + {key}, now) == GotValues(view, done, now)[key := GotValue(view, key, now)]
    {
    }

    /** The kind of `key` in `view` at `now`: live, expired or absent. */
    function KindAt(view: map<K, EntryData<V>>, key: K, now: int): Kinds {
      if IsLive(view, key, now) then Kinds(1, 0, 0) else if key in view then Kinds(0, 1, 0) else Kinds(0, 0, 1)
    }

    /** The kind of a key among `keys` is the kind the key sets give it. */
    lemma KindAtIsKindOf(view: map<K, EntryData<V>>, keys: set<K>, key: K, now: int)
      requires key in keys
      ensures KindAt(view, key, now) == KindOf(key, LiveIn(view, keys, now), ExpiredIn(view, keys, now))
    {
    }

    /** The events of one key are those of its kind. */
    lemma KeyEventsByKind(op: Sweep, view: map<K, EntryData<V>>, key: K, now: int)
      ensures KeyEvents(op, view, key, now) == Delta(op, KindAt(view, key, now))
    {
    }

    /** The events a remove counts. */
    lemma RemoveEvents(view: map<K, EntryData<V>>, key: K, now: int)
      ensures KeyEvents(Removes, view, key, now)
              == if IsLive(view, key, now) then Events(removals := 1) else Events(expires := if key in view then 1 else 0)
    {
    }

    /** The statistics after sweep `op` has visited the keys of `order`, in
        that order, each key counted by its kind in the entries `view`. */
    function Swept(op: Sweep, c: Counters, view: map<K, EntryData<V>>, order: seq<K>, now: int): Counters
      decreases |order|
    {
      if order == [] then c
      else Tally(Swept(op, c, view, order[..|order| - 1], now), KeyEvents(op, view, order[|order| - 1], now))
    }

    /** One more key visited by a sweep. */
    lemma SweepVisit(op: Sweep, c: Counters, view: map<K, EntryData<V>>, order: seq<K>, key: K, now: int)
      ensures Swept(op, c, view, order + [key], now) == Tally(Swept(op, c, view, order, now), KeyEvents(op, view, key, now))
    {
      var extended := order + [key];
      assert extended[..|extended| - 1] == order && extended[|extended| - 1] == key;
    }

    /** No events leave the statistics as they are. */
    lemma NothingTallied(op: Sweep, c: Counters, live: set<K>, expired: set<K>)
      ensures Tally(c, Delta(op, KindsAlong([], live, expired))) == c
    {
      NoKinds(live, expired);
      NoDelta(op, KindsAlong([], live, expired));
      AddZero(c);
    }

    /** One more key of `keys` visited, counted by kinds. */
    lemma TallyStep(op: Sweep, c: Counters, view: map<K, EntryData<V>>, keys: set<K>, live: set<K>, expired: set<K>,
                    order: seq<K>, key: K, now: int)
      requires key in keys && live == LiveIn(view, keys, now) && expired == ExpiredIn(view, keys, now)
      ensures Tally(Tally(c, Delta(op, KindsAlong(order, live, expired))), KeyEvents(op, view, key, now))
              == Tally(c, Delta(op, KindsAlong(order + [key], live, expired)))
    {
      var n := KindsAlong(order, live, expired);
      KeyEventsByKind(op, view, key, now);
      TallyTwice(c, Delta(op, n), Delta(op, KindAt(view, key, now)));
      KindAtIsKindOf(view, keys, key, now);
      DeltaAdds(op, n, KindOf(key, live, expired));
      KindsAlongStep(order, key, live, expired);
    }

    /** Counting a sweep one key at a time counts it kind by kind. */
    lemma {:induction false} SweptByKinds(op: Sweep, c: Counters, view: map<K, EntryData<V>>, keys: set<K>, order: seq<K>, now: int)
      requires Elems(order) <= keys
      ensures Swept(op, c, view, order, now)
              == Tally(c, Delta(op, KindsAlong(order, LiveIn(view, keys, now), ExpiredIn(view, keys, now))))
      decreases |order|
    {
      var live, expired := LiveIn(view, keys, now), ExpiredIn(view, keys, now);
      if order == [] {
        NothingTallied(op, c, live, expired);
      } else {
        var prefix, key := order[..|order| - 1], order[|order| - 1];
        assert order == prefix + [key];
        assert Elems(prefix) <= Elems(order) && key in Elems(order);
        SweptByKinds(op, c, view, keys, prefix, now);
        TallyStep(op, c, view, keys, live, expired, prefix, key, now);
      }
    }

    /** The statistics after sweep `op` has visited every key of `keys`
        (in any order), each counted by its kind in `view`. */
    function SweepCounts(op: Sweep, c: Counters, view: map<K, EntryData<V>>, keys: set<K>, now: int): Counters {
      Tally(c, Delta(op, KindsOf(keys, LiveIn(view, keys, now), ExpiredIn(view, keys, now))))
    }

    /** A sweep visiting the keys in `order` counts what the whole key set's kinds count. */
    lemma SweptAll(op: Sweep, c: Counters, view: map<K, EntryData<V>>, keys: set<K>, order: seq<K>, now: int)
      requires Distinct(order) && Elems(order) == keys
      ensures Swept(op, c, view, order, now) == SweepCounts(op, c, view, keys, now)
    {
      SweptByKinds(op, c, view, keys, order, now);
      KindsAlongIsKindsOf(order, LiveIn(view, keys, now), ExpiredIn(view, keys, now));
    }

    /** getAll counts one get per key, a hit per live key and an expiry per
        expired one. */
    lemma GetAllOneGetPerKey(c: Counters, view: map<K, EntryData<V>>, keys: set<K>, now: int)
      requires statsEnabled
      ensures var r := SweepCounts(Gets, c, view, keys, now);
              && r.gets == c.gets + |keys|
              && r.hits == c.hits + |LiveIn(view, keys, now)|
              && r.misses == c.misses + |keys - LiveIn(view, keys, now)|
              && r.expires == c.expires + |ExpiredIn(view, keys, now)|
    {
      var live, expired := LiveIn(view, keys, now), ExpiredIn(view, keys, now);
      KindsOfTotal(keys, live, expired);
      assert keys * live == live;
      assert (keys - live) * expired == expired;
    }

    /** `e` carries another key than `key`: an operation on `key` leaves it alone. */
    ghost predicate Apart(e: MEntry<K, V>, key: K) {
      e.key != key
    }

    /** Every entry object of `s0` carries the key it is stored under. */
    ghost predicate Keyed(s0: map<K, MEntry<K, V>>) {
      forall k | k in s0 :: s0[k].key == k
    }

    /** The entry objects of `s0` under `keys` hold the fields of `d0` with
        the expired flag set: the entries a sweep dropped as expired. */
    ghost predicate Dropped(d0: map<K, EntryData<V>>, s0: map<K, MEntry<K, V>>, keys: set<K>)
      reads s0.Values
    {
      forall k | k in keys :: DroppedAt(d0, s0, k)
    }

    /** The entry object of `s0` under `k`, if any, holds the fields of `d0`
        with the expired flag set. */
    ghost predicate DroppedAt(d0: map<K, EntryData<V>>, s0: map<K, MEntry<K, V>>, k: K)
      reads s0.Values
    {
      k in s0 && k in d0 ==> s0[k].Data() == d0[k].(expired := true)
    }

    /** The entry objects of `s0` under `keys` still hold the fields of
        `d0`: the live entries removeAll removed without touching them. */
    ghost predicate Kept(d0: map<K, EntryData<V>>, s0: map<K, MEntry<K, V>>, keys: set<K>)
      reads s0.Values
    {
      forall k | k in keys :: KeptAt(d0, s0, k)
    }

    /** The entry object of `s0` under `k`, if any, holds the fields of `d0`. */
    ghost predicate KeptAt(d0: map<K, EntryData<V>>, s0: map<K, MEntry<K, V>>, k: K)
      reads s0.Values
    {
      k in s0 && k in d0 ==> s0[k].Data() == d0[k]
    }

    /** The state getAll (`op` is Gets) or getEntryList (Listing) has
        reached after visiting the keys of `order` (whose elements are
        `done`), starting from entries `d0`, entry objects `s0` and statistics
        `c0`. */
    ghost predicate AfterGets(op: Sweep, d0: map<K, EntryData<V>>, s0: map<K, MEntry<K, V>>, c0: Counters,
                              done: set<K>, order: seq<K>, now: int)
      reads this, stats, store.Values
    {
      && View() == GetAllView(d0, done, now)
      && s0.Keys == d0.Keys && store == s0 - ExpiredIn(d0, done, now)
      && stats.Counts() == Swept(op, c0, d0, order, now)
    }

    /** Which keys getAll's loop has visited, in which order, and which are left. */
    predicate Visited(keys: set<K>, todo: set<K>, done: set<K>, order: seq<K>) {
      todo + done == keys && todo !! done && Distinct(order) && Elems(order) == done
    }

    /** Moving one key from the keys still to visit to the keys visited. */
    lemma VisitNext(keys: set<K>, todo: set<K>, done: set<K>, order: seq<K>, key: K)
      requires Visited(keys, todo, done, order) && key in todo
      ensures key in keys && key !in done && todo - {key} < todo
      ensures Visited(keys, todo - {key}, done + {key}, order + [key])
    {
      VisitStep(order, done, key);
    }

    /** Before the first get, getAll's entries are the starting entries. */
    lemma NoGetsYet(op: Sweep, d0: map<K, EntryData<V>>, s0: map<K, MEntry<K, V>>, c0: Counters, now: int)
      ensures GetAllView(d0, {}, now) == d0
      ensures s0 - ExpiredIn(d0, {}, now) == s0
      ensures Swept(op, c0, d0, [], now) == c0
    {
      assert ExpiredIn(d0, {}, now) == {};
    }

    /** One round of getAll's loop: a counted get of a key not visited yet. */
    method GetAllVisit(key: K, now: int, ghost done: set<K>, ghost order: seq<K>, ghost d0: map<K, EntryData<V>>,
                       ghost s0: map<K, MEntry<K, V>>, ghost c0: Counters)
      returns (value: Nullable<V>)
      requires Valid() && !isClosed && key !in done
      requires AfterGets(Gets, d0, s0, c0, done, order, now)
      modifies this`store, stats, At(key)
      ensures Valid() && !isClosed
      ensures value == GotValue(d0, key, now)
      ensures AfterGets(Gets, d0, s0, c0, done + {key}, order + [key], now)
      ensures key in d0 && ExpiredNow(d0[key], now) ==> DroppedAt(d0, s0, key)
      ensures forall e: MEntry<K, V> {:trigger Apart(e, key)} | old(allocated(e)) && Apart(e, key) :: e.Data() == old(e.Data())
    {
      GetAllViewStep(Gets, d0, done, key, now);
      GetAllStoreStep(s0, d0, done, key, now);
      SweepVisit(Gets, c0, d0, order, key, now);
      assert key in store ==> store[key] == s0[key] && View()[key] == d0[key];
      var r := Get(key, now);
      value := r.value;
    }

    /** getAll's loop on an open cache: a counted get of each key, in some order. */
    method GetEach(keys: set<K>, now: int) returns (results: map<K, Nullable<V>>, ghost order: seq<K>)
      requires Valid() && !isClosed
      modifies this`store, stats, store.Values
      ensures Valid()
      ensures results == GotValues(old(View()), keys, now)
      ensures Distinct(order) && Elems(order) == keys
      ensures AfterGets(Gets, old(View()), old(store), old(stats.Counts()), keys, order, now)
      ensures Dropped(old(View()), old(store), ExpiredIn(old(View()), keys, now))
    {
      ghost var d0, s0, c0 := View(), store, stats.Counts();
      results := map[];
      var todo := keys;
      ghost var done: set<K> := {};
      order := [];
      NoGetsYet(Gets, d0, s0, c0, now);
      while todo != {}
        invariant Valid() && !isClosed
        invariant Visited(keys, todo, done, order)
        invariant AfterGets(Gets, d0, s0, c0, done, order, now)
        invariant Keyed(s0) && Dropped(d0, s0, ExpiredIn(d0, done, now))
        invariant results == GotValues(d0, done, now)
        decreases todo
      {
        var key :| key in todo;
        VisitNext(keys, todo, done, order, key);
        GetAllValuesStep(d0, done, key, now);
        label before:
        var value := GetAllVisit(key, now, done, order, d0, s0, c0);
        assert forall k | k in ExpiredIn(d0, done, now) :: k != key && DroppedAt(d0, s0, k) by {
          forall k | k in ExpiredIn(d0, done, now) ensures k != key && DroppedAt(d0, s0, k) {
            assert old@before(DroppedAt(d0, s0, k));
            if k in s0 {
              assert Apart(s0[k], key);
            }
          }
        }
        assert ExpiredIn(d0, done + {key}, now) <= ExpiredIn(d0, done, now) + {key};
        results := results[key := value];
        todo := todo - {key};
        done := done + {key};
        order := order + [key];
      }
    }

    /** getAll: a counted get of every key; the result maps each key to its
        live value or null. On a closed cache the first get fails; with no
        keys there is no get, so nothing fails. */
    method GetAll(keys: set<K>, now: int) returns (r: Result<map<K, Nullable<V>>>)
      requires Valid()
      modifies this`store, stats, store.Values
      ensures Valid()
      ensures old(isClosed) && keys != {} ==> r == Failure(IllegalState) && unchanged(this, stats)
      ensures !old(isClosed) || keys == {} ==> r.Success?
      ensures r.Success? ==>
                && r.value == GotValues(old(View()), keys, now)
                && View() == GetAllView(old(View()), keys, now)
                && store == old(store) - ExpiredIn(old(View()), keys, now)
                && stats.Counts() == SweepCounts(Gets, old(stats.Counts()), old(View()), keys, now)
                && Dropped(old(View()), old(store), ExpiredIn(old(View()), keys, now))
    {
      ghost var d0, c0 := View(), stats.Counts();
      if isClosed {
        if keys == {} {
          assert GotValues(d0, keys, now) == map[] && ExpiredIn(d0, keys, now) == {};
          NoGetsYet(Gets, d0, store, c0, now);
          SweptAll(Gets, c0, d0, keys, [], now);
          return Success(map[]);
        }
        var key :| key in keys;
        var first := Get(key, now);
        return Failure(first.error);
      }
      var results;
      ghost var order;
      results, order := GetEach(keys, now);
      SweptAll(Gets, c0, d0, keys, order, now);
      return Success(results);
    }

    /** The keys of `order` whose entry in `view` is live at `now`, in that order. */
    function LiveKeys(view: map<K, EntryData<V>>, order: seq<K>, now: int): seq<K>
      decreases |order|
    {
      if order == [] then []
      else LiveKeys(view, order[..|order| - 1], now) + if IsLive(view, order[|order| - 1], now) then [order[|order| - 1]] else []
    }

    /** One more key visited by getEntryList. */
    lemma LiveKeysStep(view: map<K, EntryData<V>>, order: seq<K>, key: K, now: int)
      ensures LiveKeys(view, order + [key], now) == LiveKeys(view, order, now) + if IsLive(view, key, now) then [key] else []
    {
      var extended := order + [key];
      assert extended[..|extended| - 1] == order && extended[|extended| - 1] == key;
    }

    /** getEntryList lists each live key once, and no other key. */
    lemma {:induction false} LiveKeysAreLiveIn(view: map<K, EntryData<V>>, order: seq<K>, now: int)
      requires Distinct(order)
      ensures Distinct(LiveKeys(view, order, now))
      ensures Elems(LiveKeys(view, order, now)) == LiveIn(view, Elems(order), now)
      decreases |order|
    {
      if order != [] {
        var prefix, key := order[..|order| - 1], order[|order| - 1];
        VisitPrefix(order);
        LiveKeysAreLiveIn(view, prefix, now);
        var before := LiveKeys(view, prefix, now);
        if IsLive(view, key, now) {
          assert key !in Elems(before);
          VisitStep(before, Elems(before), key);
          assert LiveIn(view, Elems(order), now) == LiveIn(view, Elems(prefix), now) + {key};
        } else {
          assert LiveIn(view, Elems(order), now) == LiveIn(view, Elems(prefix), now);
        }
      }
    }

    /** The entry objects appended for `order + [key]`. */
    lemma EntriesAtStep(s0: map<K, MEntry<K, V>>, ks: seq<K>, key: K)
      requires (forall i | 0 <= i < |ks| :: ks[i] in s0) && key in s0
      ensures EntriesAt(s0, ks + [key]) == EntriesAt(s0, ks) + [s0[key]]
    {
      var extended := ks + [key];
      assert extended[..|extended| - 1] == ks && extended[|extended| - 1] == key;
    }

    /** The entry getEntryList appends for `key`, and the state it leaves:
        the live entry, counted as a hit and accessed; an expired entry is
        removed (and counted) and nothing is appended. */
    method ListEntry(key: K, now: int) returns (entry: MEntry?<K, V>)
      requires Valid() && !isClosed
      modifies this`store, stats, At(key)
      ensures Valid() && !isClosed
      ensures entry == if IsLive(old(View()), key, now) then old(store[key]) else null
      ensures View() == GetView(old(View()), key, now)
      ensures store == if IsLive(old(View()), key, now) then old(store) else old(store) - {key}
      ensures stats.Counts() == Tally(old(stats.Counts()), KeyEvents(Listing, old(View()), key, now))
      ensures old(ExpiredAt(key, now)) ==> old(store[key]).Data() == old(store[key].Data()).(expired := true)
      ensures forall e: MEntry<K, V> {:trigger Apart(e, key)} | old(allocated(e)) && Apart(e, key) :: e.Data() == old(e.Data())
    {
      ghost var view := View();
      assert (key in view) == (key in store) && (key in store ==> view[key] == store[key].Data());
      var e := CheckExpired(key, now);
      entry := e.value;
      if entry != null {
        NoteHit();
        entry.CountAccess(now);
        assert View() == view[key := Accessed(view[key], now)];
      } else {
        assert View() == view - {key};
        AddZero(stats.Counts());
      }
    }

    /** The entries getEntryList has listed after visiting the keys of
        `order`: the entry objects of the live ones, in that order. */
    ghost predicate Listed(d0: map<K, EntryData<V>>, s0: map<K, MEntry<K, V>>, order: seq<K>, now: int,
                           entries: seq<MEntry<K, V>>)
    {
      && (forall i | 0 <= i < |LiveKeys(d0, order, now)| :: LiveKeys(d0, order, now)[i] in s0)
      && entries == EntriesAt(s0, LiveKeys(d0, order, now))
    }

    /** Listing one more key: its entry object is appended when it is live. */
    lemma ListedStep(d0: map<K, EntryData<V>>, s0: map<K, MEntry<K, V>>, order: seq<K>, key: K, now: int,
                     entries: seq<MEntry<K, V>>, entry: MEntry?<K, V>)
      requires Listed(d0, s0, order, now, entries) && key in s0
      requires entry == if IsLive(d0, key, now) then s0[key] else null
      ensures Listed(d0, s0, order + [key], now, if entry != null then entries + [entry] else entries)
    {
      LiveKeysStep(d0, order, key, now);
      EntriesAtStep(s0, LiveKeys(d0, order, now), key);
    }

    /** One round of getEntryList's loop on a key not visited yet. */
    method ListVisit(key: K, now: int, ghost done: set<K>, ghost order: seq<K>, ghost d0: map<K, EntryData<V>>,
                     ghost s0: map<K, MEntry<K, V>>, ghost c0: Counters)
      returns (entry: MEntry?<K, V>)
      requires Valid() && !isClosed && key !in done && key in s0
      requires AfterGets(Listing, d0, s0, c0, done, order, now)
      modifies this`store, stats, At(key)
      ensures Valid() && !isClosed
      ensures entry == if IsLive(d0, key, now) then s0[key] else null
      ensures AfterGets(Listing, d0, s0, c0, done + {key}, order + [key], now)
      ensures key in d0 && ExpiredNow(d0[key], now) ==> DroppedAt(d0, s0, key)
      ensures forall e: MEntry<K, V> {:trigger Apart(e, key)} | old(allocated(e)) && Apart(e, key) :: e.Data() == old(e.Data())
    {
      GetAllViewStep(Listing, d0, done, key, now);
      GetAllStoreStep(s0, d0, done, key, now);
      SweepVisit(Listing, c0, d0, order, key, now);
      assert key in store ==> store[key] == s0[key] && View()[key] == d0[key];
      entry := ListEntry(key, now);
    }

    /** getEntryList's loop: the live entries of the keys, visited in some order. */
    method ListEach(now: int) returns (entries: seq<MEntry<K, V>>, ghost order: seq<K>)
      requires Valid() && !isClosed
      modifies this`store, stats, store.Values
      ensures Valid()
      ensures Distinct(order) && Elems(order) == old(store).Keys
      ensures Listed(old(View()), old(store), order, now, entries)
      ensures AfterGets(Listing, old(View()), old(store), old(stats.Counts()), old(store).Keys, order, now)
      ensures Dropped(old(View()), old(store), ExpiredIn(old(View()), old(store).Keys, now))
    {
      ghost var d0, s0, c0 := View(), store, stats.Counts();
      var keys := store.Keys;
      entries := [];
      var todo := keys;
      ghost var done: set<K> := {};
      order := [];
      NoGetsYet(Listing, d0, s0, c0, now);
      while todo != {}
        invariant Valid() && !isClosed
        invariant Visited(keys, todo, done, order)
        invariant AfterGets(Listing, d0, s0, c0, done, order, now)
        invariant Keyed(s0) && Dropped(d0, s0, ExpiredIn(d0, done, now))
        invariant Listed(d0, s0, order, now, entries)
        decreases todo
      {
        var key :| key in todo;
        VisitNext(keys, todo, done, order, key);
        label before:
        var entry := ListVisit(key, now, done, order, d0, s0, c0);
        assert forall k | k in ExpiredIn(d0, done, now) :: k != key && DroppedAt(d0, s0, k) by {
          forall k | k in ExpiredIn(d0, done, now) ensures k != key && DroppedAt(d0, s0, k) {
            assert old@before(DroppedAt(d0, s0, k));
            if k in s0 {
              assert Apart(s0[k], key);
            }
          }
        }
        assert ExpiredIn(d0, done + {key}, now) <= ExpiredIn(d0, done, now) + {key};
        ListedStep(d0, s0, order, key, now, entries, entry);
        if entry != null {
          entries := entries + [entry];
        }
        todo := todo - {key};
        done := done + {key};
        order := order + [key];
      }
    }

    /** getEntryList: the live entries, each counted as a hit and accessed;
        the expired entries are removed. The list follows the key order, which
        the model leaves open. */
    method GetEntryList(now: int) returns (r: Result<seq<MEntry<K, V>>>, ghost order: seq<K>)
      requires Valid()
      modifies this`store, stats, store.Values
      ensures Valid()
      ensures old(isClosed) ==> r == Failure(IllegalState) && unchanged(this, stats)
      ensures !old(isClosed) ==>
                && Distinct(order) && Elems(order) == old(store).Keys
                && (forall i | 0 <= i < |LiveKeys(old(View()), order, now)| :: LiveKeys(old(View()), order, now)[i] in old(store))
                && r == Success(EntriesAt(old(store), LiveKeys(old(View()), order, now)))
                && View() == GetAllView(old(View()), old(store).Keys, now)
                && store == old(store) - ExpiredIn(old(View()), old(store).Keys, now)
                && stats.Counts() == SweepCounts(Listing, old(stats.Counts()), old(View()), old(store).Keys, now)
                && Dropped(old(View()), old(store), ExpiredIn(old(View()), old(store).Keys, now))
    {
      if isClosed {
        return Failure(IllegalState), [];
      }
      ghost var d0, s0, c0 := View(), store, stats.Counts();
      var entries;
      entries, order := ListEach(now);
      SweptAll(Listing, c0, d0, s0.Keys, order, now);
      return Success(entries), order;
    }

    /** getEntryList lists the entry object of every live key exactly once,
        and no other. */
    lemma ListedEntries(s0: map<K, MEntry<K, V>>, view: map<K, EntryData<V>>, order: seq<K>, now: int)
      requires Distinct(order) && Elems(order) == s0.Keys == view.Keys
      ensures var ks := LiveKeys(view, order, now);
              && (forall i | 0 <= i < |ks| :: ks[i] in s0)
              && Distinct(ks) && Elems(ks) == LiveIn(view, s0.Keys, now)
              && |EntriesAt(s0, ks)| == |LiveIn(view, s0.Keys, now)|
    {
      LiveKeysAreLiveIn(view, order, now);
      var ks := LiveKeys(view, order, now);
      DistinctCard(ks);
    }

    /** getEntryList counts a get and a hit per live entry and an expiry per
        expired one, and nothing else. */
    lemma ListingCounts(c: Counters, view: map<K, EntryData<V>>, now: int)
      requires statsEnabled
      ensures var r := SweepCounts(Listing, c, view, view.Keys, now);
              && r.gets == c.gets + |LiveIn(view, view.Keys, now)|
              && r.hits == c.hits + |LiveIn(view, view.Keys, now)|
              && r.expires == c.expires + |ExpiredIn(view, view.Keys, now)|
              && r.misses == c.misses && r.puts == c.puts && r.removals == c.removals && r.evictions == c.evictions
    {
      var keys := view.Keys;
      var live, expired := LiveIn(view, keys, now), ExpiredIn(view, keys, now);
      assert keys * live == live;
      assert (keys - live) * expired == expired;
    }

    /** How many keys of `order` hold an entry in `view` that has expired at `now`. */
    function ExpiredAlong(view: map<K, EntryData<V>>, order: seq<K>, now: int): nat
      decreases |order|
    {
      if order == [] then 0
      else ExpiredAlong(view, order[..|order| - 1], now) + if IsLive(view, order[|order| - 1], now) || order[|order| - 1] !in view then 0 else 1
    }

    /** One more key visited by clearExpired. */
    lemma ExpiredAlongStep(view: map<K, EntryData<V>>, order: seq<K>, key: K, now: int)
      ensures ExpiredAlong(view, order + [key], now) == ExpiredAlong(view, order, now) + if key in view && ExpiredNow(view[key], now) then 1 else 0
    {
      var extended := order + [key];
      assert extended[..|extended| - 1] == order && extended[|extended| - 1] == key;
    }

    /** Whatever the visit order, clearExpired counts each expired entry once. */
    lemma {:induction false} ExpiredAlongCounts(view: map<K, EntryData<V>>, order: seq<K>, now: int)
      requires Distinct(order)
      ensures ExpiredAlong(view, order, now) == |ExpiredIn(view, Elems(order), now)|
      decreases |order|
    {
      if order == [] {
        assert ExpiredIn(view, Elems(order), now) == {};
      } else {
        var prefix, key := order[..|order| - 1], order[|order| - 1];
        VisitPrefix(order);
        ExpiredAlongCounts(view, prefix, now);
        if key in view && ExpiredNow(view[key], now) {
          assert ExpiredIn(view, Elems(order), now) == ExpiredIn(view, Elems(prefix), now) + {key};
        } else {
          assert ExpiredIn(view, Elems(order), now) == ExpiredIn(view, Elems(prefix), now);
        }
      }
    }

    /** The state clearExpired has reached after checking the keys of
        `order` (whose elements are `done`), starting from entries `d0`,
        entry objects `s0` and statistics `c0`. */
    ghost predicate AfterClears(d0: map<K, EntryData<V>>, s0: map<K, MEntry<K, V>>, c0: Counters,
                                done: set<K>, order: seq<K>, now: int)
      reads this, stats, store.Values
    {
      && View() == d0 - ExpiredIn(d0, done, now)
      && s0.Keys == d0.Keys && store == s0 - ExpiredIn(d0, done, now)
      && stats.Counts() == Swept(Clearing, c0, d0, order, now)
    }

    /** Checking one more key: an expired entry goes, with the others unchanged. */
    lemma ClearViewStep(view: map<K, EntryData<V>>, done: set<K>, key: K, now: int)
      requires key !in done
      ensures var prev := view - ExpiredIn(view, done, now);
              && (key in prev <==> key in view)
              && (key in view ==> prev[key] == view[key])
              && view - ExpiredIn(view, done + {key}, now)
                 == if key in view && ExpiredNow(view[key], now) then prev - {key} else prev
    {
      if key in view && ExpiredNow(view[key], now) {
        assert ExpiredIn(view, done + {key}, now) == ExpiredIn(view, done, now) + {key};
      } else {
        assert ExpiredIn(view, done + {key}, now) == ExpiredIn(view, done, now);
      }
    }

    /** clearExpired's check of one key, which is getCheckExpired's check
        once the cache is known to be open and to have a duration: an
        expired entry is removed and counted, any other entry is left as it
        is. */
    method ClearEntry(key: K, now: int) returns (expired: bool)
      requires Valid() && !isClosed && hasExpiry
      modifies this`store, stats, At(key)
      ensures Valid() && !isClosed
      ensures expired == (key in old(View()) && ExpiredNow(old(View())[key], now))
      ensures View() == if expired then old(View()) - {key} else old(View())
      ensures store == if expired then old(store) - {key} else old(store)
      ensures stats.Counts() == Tally(old(stats.Counts()), KeyEvents(Clearing, old(View()), key, now))
      ensures old(ExpiredAt(key, now)) ==> old(store[key]).Data() == old(store[key].Data()).(expired := true)
      ensures forall e: MEntry<K, V> {:trigger Apart(e, key)} | old(allocated(e)) && Apart(e, key) :: e.Data() == old(e.Data())
    {
      ghost var view := View();
      assert (key in view) == (key in store) && (key in store ==> view[key] == store[key].Data());
      var present := key in store;
      var e := CheckExpired(key, now);
      expired := present && e.value == null;
      if expired {
        assert View() == view - {key};
      } else {
        AddZero(stats.Counts());
      }
    }

    /** One round of clearExpired's loop on a key not checked yet. */
    method ClearVisit(key: K, now: int, ghost done: set<K>, ghost order: seq<K>, ghost d0: map<K, EntryData<V>>,
                      ghost s0: map<K, MEntry<K, V>>, ghost c0: Counters)
      returns (expired: bool)
      requires Valid() && !isClosed && hasExpiry && key !in done
      requires AfterClears(d0, s0, c0, done, order, now)
      modifies this`store, stats, At(key)
      ensures Valid() && !isClosed
      ensures expired == (key in d0 && ExpiredNow(d0[key], now))
      ensures AfterClears(d0, s0, c0, done + {key}, order + [key], now)
      ensures key in d0 && ExpiredNow(d0[key], now) ==> DroppedAt(d0, s0, key)
      ensures forall e: MEntry<K, V> {:trigger Apart(e, key)} | old(allocated(e)) && Apart(e, key) :: e.Data() == old(e.Data())
    {
      ClearViewStep(d0, done, key, now);
      GetAllStoreStep(s0, d0, done, key, now);
      SweepVisit(Clearing, c0, d0, order, key, now);
      assert key in store ==> store[key] == s0[key] && View()[key] == d0[key];
      expired := ClearEntry(key, now);
    }

    /** clearExpired's loop: the expiry check of every key, in some order. */
    method ClearEach(now: int) returns (count: nat, ghost order: seq<K>)
      requires Valid() && !isClosed && hasExpiry
      modifies this`store, stats, store.Values
      ensures Valid()
      ensures Distinct(order) && Elems(order) == old(store).Keys
      ensures count == ExpiredAlong(old(View()), order, now)
      ensures AfterClears(old(View()), old(store), old(stats.Counts()), old(store).Keys, order, now)
      ensures Dropped(old(View()), old(store), ExpiredIn(old(View()), old(store).Keys, now))
    {
      ghost var d0, s0, c0 := View(), store, stats.Counts();
      var keys := store.Keys;
      count := 0;
      var todo := keys;
      ghost var done: set<K> := {};
      order := [];
      assert ExpiredIn(d0, done, now) == {};
      while todo != {}
        invariant Valid() && !isClosed
        invariant Visited(keys, todo, done, order)
        invariant AfterClears(d0, s0, c0, done, order, now)
        invariant Keyed(s0) && Dropped(d0, s0, ExpiredIn(d0, done, now))
        invariant count == ExpiredAlong(d0, order, now)
        decreases todo
      {
        var key :| key in todo;
        VisitNext(keys, todo, done, order, key);
        ExpiredAlongStep(d0, order, key, now);
        label before:
        var expired := ClearVisit(key, now, done, order, d0, s0, c0);
        assert forall k | k in ExpiredIn(d0, done, now) :: k != key && DroppedAt(d0, s0, k) by {
          forall k | k in ExpiredIn(d0, done, now) ensures k != key && DroppedAt(d0, s0, k) {
            assert old@before(DroppedAt(d0, s0, k));
            if k in s0 {
              assert Apart(s0[k], key);
            }
          }
        }
        assert ExpiredIn(d0, done + {key}, now) <= ExpiredIn(d0, done, now) + {key};
        if expired {
          count := count + 1;
        }
        todo := todo - {key};
        done := done + {key};
        order := order + [key];
      }
    }

    /** clearExpired: removes every entry the cache's durations expire at
        `now`, counting an expiry for each, and returns how many it removed;
        without durations it returns 0 at once. */
    method ClearExpired(now: int) returns (r: Result<nat>)
      requires Valid()
      modifies this`store, stats, store.Values
      ensures Valid()
      ensures old(isClosed) ==> r == Failure(IllegalState) && unchanged(this, stats)
      ensures !old(isClosed) && !hasExpiry ==> r == Success(0) && unchanged(this, stats)
      ensures !old(isClosed) && hasExpiry ==>
                && r == Success(|ExpiredIn(old(View()), old(store).Keys, now)|)
                && View() == old(View()) - ExpiredIn(old(View()), old(store).Keys, now)
                && store == old(store) - ExpiredIn(old(View()), old(store).Keys, now)
                && stats.Counts() == SweepCounts(Clearing, old(stats.Counts()), old(View()), old(store).Keys, now)
                && Dropped(old(View()), old(store), ExpiredIn(old(View()), old(store).Keys, now))
    {
      if isClosed {
        return Failure(IllegalState);
      }
      if !hasExpiry {
        return Success(0);
      }
      ghost var d0, s0, c0 := View(), store, stats.Counts();
      var count;
      ghost var order;
      count, order := ClearEach(now);
      ExpiredAlongCounts(d0, order, now);
      SweptAll(Clearing, c0, d0, s0.Keys, order, now);
      return Success(count);
    }

    /** clearExpired counts an expiry per expired entry and nothing else, and
        leaves no entry that has expired at `now`. */
    lemma ClearExpiredCounts(c: Counters, view: map<K, EntryData<V>>, now: int)
      requires statsEnabled
      ensures var r := SweepCounts(Clearing, c, view, view.Keys, now);
              && r.expires == c.expires + |ExpiredIn(view, view.Keys, now)|
              && r.hits == c.hits && r.misses == c.misses && r.gets == c.gets
              && r.puts == c.puts && r.removals == c.removals && r.evictions == c.evictions
      ensures var rest := view - ExpiredIn(view, view.Keys, now);
              forall k | k in rest :: IsLive(rest, k, now)
    {
      var keys := view.Keys;
      var live, expired := LiveIn(view, keys, now), ExpiredIn(view, keys, now);
      assert (keys - live) * expired == expired;
    }

    /** The state removeAll has reached after removing the keys of `order`
        (whose elements are `done`), starting from entries `d0`, entry objects
        `s0` and statistics `c0`. */
    ghost predicate AfterRemoves(d0: map<K, EntryData<V>>, s0: map<K, MEntry<K, V>>, c0: Counters,
                                 done: set<K>, order: seq<K>, now: int)
      reads this, stats, store.Values
    {
      && View() == d0 - done
      && store == s0 - done
      && stats.Counts() == Swept(Removes, c0, d0, order, now)
    }

    /** One round of removeAll's loop: a remove of a key not visited yet. */
    method RemoveKeysVisit(key: K, now: int, ghost done: set<K>, ghost order: seq<K>, ghost d0: map<K, EntryData<V>>,
                           ghost s0: map<K, MEntry<K, V>>, ghost c0: Counters)
      requires Valid() && !isClosed && key !in done
      requires AfterRemoves(d0, s0, c0, done, order, now)
      modifies this`store, stats, At(key)
      ensures Valid() && !isClosed
      ensures AfterRemoves(d0, s0, c0, done + {key}, order + [key], now)
      ensures key in d0 && ExpiredNow(d0[key], now) ==> DroppedAt(d0, s0, key)
      ensures IsLive(d0, key, now) ==> KeptAt(d0, s0, key)
      ensures forall e: MEntry<K, V> {:trigger Apart(e, key)} | old(allocated(e)) && Apart(e, key) :: e.Data() == old(e.Data())
    {
      SweepVisit(Removes, c0, d0, order, key, now);
      RemoveEvents(d0, key, now);
      assert (key in View()) == (key in d0);
      assert key in d0 ==> View()[key] == d0[key];
      assert d0 - (done + {key}) == d0 - done - {key};
      assert s0 - (done + {key}) == s0 - done - {key};
      assert key in store ==> store[key] == s0[key];
      var _ := Remove(key, now);
    }

    /** removeAll's loop on an open cache: a remove of each key, in some order. */
    method RemoveEach(keys: set<K>, now: int) returns (ghost order: seq<K>)
      requires Valid() && !isClosed
      modifies this`store, stats, store.Values
      ensures Valid()
      ensures Distinct(order) && Elems(order) == keys
      ensures AfterRemoves(old(View()), old(store), old(stats.Counts()), keys, order, now)
      ensures Dropped(old(View()), old(store), ExpiredIn(old(View()), keys, now))
      ensures Kept(old(View()), old(store), LiveIn(old(View()), keys, now))
    {
      ghost var d0, s0, c0 := View(), store, stats.Counts();
      var todo := keys;
      ghost var done: set<K> := {};
      order := [];
      assert d0 - done == d0 && s0 - done == s0;
      assert ExpiredIn(d0, done, now) == {} && LiveIn(d0, done, now) == {};
      while todo != {}
        invariant Valid() && !isClosed
        invariant Visited(keys, todo, done, order)
        invariant AfterRemoves(d0, s0, c0, done, order, now)
        invariant Keyed(s0) && Dropped(d0, s0, ExpiredIn(d0, done, now)) && Kept(d0, s0, LiveIn(d0, done, now))
        decreases todo
      {
        var key :| key in todo;
        VisitNext(keys, todo, done, order, key);
        label before:
        RemoveKeysVisit(key, now, done, order, d0, s0, c0);
        forall k | k in done && k in s0
          ensures s0[k].Data() == old@before(s0[k].Data())
        {
          assert Apart(s0[k], key);
        }
        assert ExpiredIn(d0, done + {key}, now) <= ExpiredIn(d0, done, now) + {key};
        assert LiveIn(d0, done + {key}, now) <= LiveIn(d0, done, now) + {key};
        todo := todo - {key};
        done := done + {key};
        order := order + [key];
      }
    }

    /** removeAll(keys): on an open cache, a remove of every key: the keys'
        entries are gone, the other entries are untouched. */
    method RemoveKeys(keys: set<K>, now: int) returns (r: Outcome)
      requires Valid()
      modifies this`store, stats, store.Values
      ensures Valid()
      ensures old(isClosed) ==> r == Fail(IllegalState) && unchanged(this, stats)
      ensures !old(isClosed) ==>
                && r == Pass
                && View() == old(View()) - keys
                && store == old(store) - keys
                && stats.Counts() == SweepCounts(Removes, old(stats.Counts()), old(View()), keys, now)
                && Dropped(old(View()), old(store), ExpiredIn(old(View()), keys, now))
                && Kept(old(View()), old(store), LiveIn(old(View()), keys, now))
    {
      if isClosed {
        return Fail(IllegalState);
      }
      ghost var d0, c0 := View(), stats.Counts();
      ghost var order := RemoveEach(keys, now);
      SweptAll(Removes, c0, d0, keys, order, now);
      return Pass;
    }

    /** removeAll(keys) counts a removal per live key and an expiry per
        expired one, and nothing else. */
    lemma RemoveKeysCounts(c: Counters, view: map<K, EntryData<V>>, keys: set<K>, now: int)
      requires statsEnabled
      ensures var r := SweepCounts(Removes, c, view, keys, now);
              && r.removals == c.removals + |LiveIn(view, keys, now)|
              && r.expires == c.expires + |ExpiredIn(view, keys, now)|
              && r.hits == c.hits && r.misses == c.misses && r.gets == c.gets
              && r.puts == c.puts && r.evictions == c.evictions
    {
      var live, expired := LiveIn(view, keys, now), ExpiredIn(view, keys, now);
      assert keys * live == live;
      assert (keys - live) * expired == expired;
    }

    /** The entry a put of `value` under `key` at `now` leaves: the live
        entry updated (if `now` is strictly newer than its last update), or a
        new entry. */
    function PutData(view: map<K, EntryData<V>>, key: K, value: Nullable<V>, now: int): EntryData<V> {
      if IsLive(view, key, now) then Updated(view[key], value, now) else Created(value, now)
    }

    /** The events a put counts. */
    lemma PutEvents(view: map<K, EntryData<V>>, key: K, now: int)
      ensures KeyEvents(Puts, view, key, now)
              == if IsLive(view, key, now) then Events(puts := 1) else Events(puts := 1, expires := if key in view then 1 else 0)
    {
    }

    /** The entries after a put of `m[k]` under every key `k` of `keys`. */
    function PutAllView(view: map<K, EntryData<V>>, m: map<K, Nullable<V>>, keys: set<K>, now: int): (r: map<K, EntryData<V>>)
      requires keys <= m.Keys
      ensures r.Keys == view.Keys + keys
    {
      map k | k in view.Keys + keys :: if k in keys then PutData(view, k, m[k], now) else view[k]
    }

    /** Putting the keys one at a time: each put sees the entry the earlier
        puts left under its key, which is the original one. */
    lemma PutAllViewStep(view: map<K, EntryData<V>>, m: map<K, Nullable<V>>, done: set<K>, key: K, now: int)
      requires done <= m.Keys && key in m && key !in done
      ensures var before := PutAllView(view, m, done, now);
              && (key in before <==> key in view)
              && (key in view ==> before[key] == view[key])
              && PutAllView(view, m, done + {key}, now) == before[key := PutData(view, key, m[key], now)]
    {
    }

    /** The entries stored under `keys` are still the objects of `s0`:
        putAll updated them in place. */
    ghost predicate InPlace(s0: map<K, MEntry<K, V>>, keys: set<K>)
      reads this
    {
      forall k | k in keys && k in s0 :: k in store && store[k] == s0[k]
    }

    /** The state putAll has reached after putting the keys of `order`
        (whose elements are `done`), starting from entries `d0`, entry objects
        `s0` and statistics `c0`. */
    ghost predicate AfterPuts(d0: map<K, EntryData<V>>, s0: map<K, MEntry<K, V>>, c0: Counters, m: map<K, Nullable<V>>,
                              done: set<K>, order: seq<K>, now: int)
      requires done <= m.Keys
      reads this, stats, store.Values
    {
      && View() == PutAllView(d0, m, done, now)
      && store - done == s0 - done
      && stats.Counts() == Swept(Puts, c0, d0, order, now)
    }

    /** getAndPut on an open cache, stated on the entries: the entry under
        `key` becomes the put's entry and no other entry changes. */
    method PutEntry(key: K, value: Nullable<V>, now: int)
      requires Valid() && !isClosed
      modifies this`store, stats, At(key)
      ensures Valid() && !isClosed
      ensures View() == old(View())[key := PutData(old(View()), key, value, now)]
      ensures store - {key} == old(store) - {key}
      ensures stats.Counts() == Tally(old(stats.Counts()), KeyEvents(Puts, old(View()), key, now))
      ensures old(LiveAt(key, now)) ==> key in store && store[key] == old(store[key])
      ensures old(ExpiredAt(key, now)) ==> old(store[key]).Data() == old(store[key].Data()).(expired := true)
      ensures forall e: MEntry<K, V> {:trigger Apart(e, key)} | old(allocated(e)) && Apart(e, key) :: e.Data() == old(e.Data())
    {
      PutEvents(View(), key, now);
      assert (key in View()) == (key in store);
      assert key in store ==> View()[key] == store[key].Data();
      var previous := GetAndPut(key, value, now);
      forall k | k in old(store) && k != key
        ensures k in store && store[k].Data() == old(store[k].Data())
      {
        assert k in old(store) - {key};
        assert old(store[k].key) == k;
      }
      assert store.Keys == old(store).Keys + {key};
    }

    /** One round of putAll's loop: a getAndPut of a key not visited yet. */
    method PutAllVisit(key: K, value: Nullable<V>, now: int, ghost m: map<K, Nullable<V>>, ghost done: set<K>, ghost order: seq<K>,
                       ghost d0: map<K, EntryData<V>>, ghost s0: map<K, MEntry<K, V>>, ghost c0: Counters)
      requires Valid() && !isClosed && done <= m.Keys && key in m && m[key] == value && key !in done
      requires AfterPuts(d0, s0, c0, m, done, order, now) && InPlace(s0, LiveIn(d0, done, now))
      modifies this`store, stats, At(key)
      ensures Valid() && !isClosed
      ensures AfterPuts(d0, s0, c0, m, done + {key}, order + [key], now) && InPlace(s0, LiveIn(d0, done + {key}, now))
      ensures key in d0 && ExpiredNow(d0[key], now) ==> DroppedAt(d0, s0, key)
      ensures forall e: MEntry<K, V> {:trigger Apart(e, key)} | old(allocated(e)) && Apart(e, key) :: e.Data() == old(e.Data())
    {
      PutAllViewStep(d0, m, done, key, now);
      SweepVisit(Puts, c0, d0, order, key, now);
      ghost var before := View();
      assert PutData(before, key, value, now) == PutData(d0, key, value, now);
      assert KeyEvents(Puts, before, key, now) == KeyEvents(Puts, d0, key, now);
      ghost var objects := store;
      assert key in store ==> key in s0 - done && store[key] == (store - done)[key] == s0[key];
      assert key in before ==> before[key] == d0[key];
      PutEntry(key, value, now);
      SameOutside(store, objects, s0, done, key);
      assert LiveIn(d0, done + {key}, now) <= LiveIn(d0, done, now) + {key};
      forall k | k in LiveIn(d0, done + {key}, now) && k in s0
        ensures k in store && store[k] == s0[k]
      {
        if k != key {
          assert k in objects - {key};
        }
      }
    }

    /** putAll's loop on an open cache: a getAndPut of each key of `m`, in some order. */
    method PutEach(m: map<K, Nullable<V>>, now: int) returns (ghost order: seq<K>)
      requires Valid() && !isClosed
      modifies this`store, stats, store.Values
      ensures Valid()
      ensures Distinct(order) && Elems(order) == m.Keys
      ensures AfterPuts(old(View()), old(store), old(stats.Counts()), m, m.Keys, order, now)
      ensures InPlace(old(store), LiveIn(old(View()), m.Keys, now))
      ensures Dropped(old(View()), old(store), ExpiredIn(old(View()), m.Keys, now))
    {
      ghost var d0, s0, c0 := View(), store, stats.Counts();
      var todo := m.Keys;
      ghost var done: set<K> := {};
      order := [];
      assert PutAllView(d0, m, done, now) == d0;
      assert ExpiredIn(d0, done, now) == {} && LiveIn(d0, done, now) == {};
      while todo != {}
        invariant Valid() && !isClosed
        invariant Visited(m.Keys, todo, done, order)
        invariant AfterPuts(d0, s0, c0, m, done, order, now) && InPlace(s0, LiveIn(d0, done, now))
        invariant Keyed(s0) && Dropped(d0, s0, ExpiredIn(d0, done, now))
        decreases todo
      {
        var key :| key in todo;
        VisitNext(m.Keys, todo, done, order, key);
        assert key in store ==> key in store - done && store[key] == (store - done)[key] == s0[key];
        label before:
        PutAllVisit(key, m[key], now, m, done, order, d0, s0, c0);
        assert forall k | k in ExpiredIn(d0, done, now) :: k != key && DroppedAt(d0, s0, k) by {
          forall k | k in ExpiredIn(d0, done, now) ensures k != key && DroppedAt(d0, s0, k) {
            assert old@before(DroppedAt(d0, s0, k));
            if k in s0 {
              assert Apart(s0[k], key);
            }
          }
        }
        assert ExpiredIn(d0, done + {key}, now) <= ExpiredIn(d0, done, now) + {key};
        todo := todo - {key};
        done := done + {key};
        order := order + [key];
      }
    }

    /** putAll: a getAndPut of every mapping; a null map is ignored. On a
        closed cache the first getAndPut fails; with no mappings nothing
        fails. */
    method PutAll(m: Option<map<K, Nullable<V>>>, now: int) returns (r: Outcome)
      requires Valid()
      modifies this`store, stats, store.Values
      ensures Valid()
      ensures m.None? ==> r == Pass && unchanged(this, stats)
      ensures m.Some? && old(isClosed) && m.value != map[] ==> r == Fail(IllegalState) && unchanged(this, stats)
      ensures m.Some? && (!old(isClosed) || m.value == map[]) ==>
                && r == Pass
                && View() == PutAllView(old(View()), m.value, m.value.Keys, now)
                && store - m.value.Keys == old(store) - m.value.Keys
                && InPlace(old(store), LiveIn(old(View()), m.value.Keys, now))
                && Dropped(old(View()), old(store), ExpiredIn(old(View()), m.value.Keys, now))
                && stats.Counts() == SweepCounts(Puts, old(stats.Counts()), old(View()), m.value.Keys, now)
    {
      if m.None? {
        return Pass;
      }
      ghost var d0, c0 := View(), stats.Counts();
      if isClosed {
        if m.value == map[] {
          assert PutAllView(d0, m.value, {}, now) == d0;
          assert ExpiredIn(d0, {}, now) == {} && LiveIn(d0, {}, now) == {};
          SweptAll(Puts, c0, d0, {}, [], now);
          return Pass;
        }
        var key :| key in m.value;
        var first := GetAndPut(key, m.value[key], now);
        return Fail(first.error);
      }
      ghost var order := PutEach(m.value, now);
      SweptAll(Puts, c0, d0, m.value.Keys, order, now);
      return Pass;
    }

    /** putAll of a map with keys `keys` counts a put per mapping and an
        expiry per expired entry it replaced, and nothing else. */
    lemma PutAllCounts(c: Counters, view: map<K, EntryData<V>>, keys: set<K>, now: int)
      requires statsEnabled
      ensures var r := SweepCounts(Puts, c, view, keys, now);
              && r.puts == c.puts + |keys|
              && r.expires == c.expires + |ExpiredIn(view, keys, now)|
              && r.hits == c.hits && r.misses == c.misses && r.gets == c.gets
              && r.removals == c.removals && r.evictions == c.evictions
    {
      var live, expired := LiveIn(view, keys, now), ExpiredIn(view, keys, now);
      var n := KindsOf(keys, live, expired);
      KindsOfTotal(keys, live, expired);
      assert (keys - live) * expired == expired;
      assert n.Total() == |keys| && n.expired == |expired|;
      assert SweepCounts(Puts, c, view, keys, now) == c.Add(Counters(0, 0, 0, n.Total(), 0, 0, n.expired));
    }

    /** After putAll every key of the map holds its new value, except a live
        entry last updated at or after `now`, which keeps its value; every
        other entry is untouched. */
    lemma PutAllValues(view: map<K, EntryData<V>>, m: map<K, Nullable<V>>, now: int)
      ensures var r := PutAllView(view, m, m.Keys, now);
              && (forall k | k in m :: r[k].value == if IsLive(view, k, now) && view[k].lastUpdatedTime >= now then view[k].value else m[k])
              && (forall k | k in view && k !in m :: r[k] == view[k])
    {
    }

    /** Every entry is stored under its own key. */
    ghost predicate KeysMatch()
      reads this, store.Values
    {
      forall k | k in store :: store[k].key == k
    }

    /** The entries an eviction pass may remove: those not already marked expired. */
    function Candidates(view: map<K, EntryData<V>>): (r: set<K>)
      ensures r <= view.Keys
    {
      set k | k in view && !view[k].expired
    }

    /** The keys of the entry objects in `queue`. */
    function QueueKeys(queue: seq<MEntry<K, V>>): set<K> {
      set i | 0 <= i < |queue| :: queue[i].key
    }

    /** The eviction pass's priority queue: entry objects of `s0`, each once,
        with the ranks the comparator reads off their fields `d0`. */
    ghost predicate Queued(d0: map<K, EntryData<V>>, s0: map<K, MEntry<K, V>>, queue: seq<MEntry<K, V>>, ranks: seq<Rank>) {
      && |ranks| == |queue|
      && (forall i | 0 <= i < |queue| ::
            queue[i].key in s0 && s0[queue[i].key] == queue[i] && queue[i].key in d0 && ranks[i] == RankOf(d0[queue[i].key]))
      && (forall i, j | 0 <= i < j < |queue| :: queue[i].key != queue[j].key)
    }

    /** What the eviction pass has removed once the keys outside the queue
        have been polled: every polled candidate, each ranked no higher than
        anything still queued. */
    ghost predicate EvictedSoFar(d0: map<K, EntryData<V>>, queue: seq<MEntry<K, V>>, ranks: seq<Rank>, evicted: set<K>)
      requires |ranks| == |queue|
    {
      && evicted == (d0.Keys - QueueKeys(queue)) * Candidates(d0)
      && (forall e, i | e in evicted && 0 <= i < |ranks| :: RankLe(RankOf(d0[e]), ranks[i]))
    }

    /** One more entry object queued. */
    lemma QueueKeysAppend(queue: seq<MEntry<K, V>>, entry: MEntry<K, V>)
      ensures QueueKeys(queue + [entry]) == QueueKeys(queue) + {entry.key}
    {
      var longer := queue + [entry];
      assert longer[|queue|] == entry;
      forall k | k in QueueKeys(queue)
        ensures k in QueueKeys(longer)
      {
        var i :| 0 <= i < |queue| && queue[i].key == k;
        assert longer[i] == queue[i];
      }
    }

    /** Taking the entry at `m` out of the queue. */
    lemma Dequeue(d0: map<K, EntryData<V>>, s0: map<K, MEntry<K, V>>, queue: seq<MEntry<K, V>>, ranks: seq<Rank>, m: nat)
      requires Queued(d0, s0, queue, ranks) && m < |queue|
      ensures var key, rest, restRanks := queue[m].key, queue[..m] + queue[m + 1..], ranks[..m] + ranks[m + 1..];
              && Queued(d0, s0, rest, restRanks)
              && QueueKeys(rest) == QueueKeys(queue) - {key}
              && (forall i | 0 <= i < |restRanks| :: restRanks[i] == ranks[if i < m then i else i + 1])
    {
      var key, rest, restRanks := queue[m].key, queue[..m] + queue[m + 1..], ranks[..m] + ranks[m + 1..];
      assert forall i | 0 <= i < |rest| :: rest[i] == queue[if i < m then i else i + 1];
      assert forall i | 0 <= i < |rest| :: restRanks[i] == ranks[if i < m then i else i + 1];
      forall k | k in QueueKeys(queue) - {key}
        ensures k in QueueKeys(rest)
      {
        var i :| 0 <= i < |queue| && queue[i].key == k;
        assert rest[if i < m then i else i - 1] == queue[i];
      }
    }

    /** Polling the least-ranked entry: the rest stay queued, and its key is
        evicted when it is a candidate. */
    lemma PollStep(d0: map<K, EntryData<V>>, s0: map<K, MEntry<K, V>>, queue: seq<MEntry<K, V>>, ranks: seq<Rank>,
                   evicted: set<K>, m: nat)
      requires Queued(d0, s0, queue, ranks) && EvictedSoFar(d0, queue, ranks, evicted)
      requires m < |ranks| && forall j :: 0 <= j < |ranks| ==> RankLe(ranks[m], ranks[j])
      ensures var key, rest, restRanks := queue[m].key, queue[..m] + queue[m + 1..], ranks[..m] + ranks[m + 1..];
              && key in d0 && key !in evicted
              && Queued(d0, s0, rest, restRanks)
              && QueueKeys(rest) == QueueKeys(queue) - {key}
              && EvictedSoFar(d0, rest, restRanks, if key in Candidates(d0) then evicted + {key} else evicted)
    {
      Dequeue(d0, s0, queue, ranks, m);
      assert queue[m].key in QueueKeys(queue);
    }

    /** entryStore.values(): every stored entry object once, in an order the
        model leaves open. */
    method Values() returns (entries: seq<MEntry<K, V>>)
      requires KeysMatch()
      ensures QueueKeys(entries) == store.Keys
      ensures forall i | 0 <= i < |entries| :: entries[i].key in store && store[entries[i].key] == entries[i]
      ensures forall i, j | 0 <= i < j < |entries| :: entries[i].key != entries[j].key
    {
      entries := [];
      var todo := store.Keys;
      while todo != {}
        invariant todo <= store.Keys && QueueKeys(entries) == store.Keys - todo
        invariant forall i | 0 <= i < |entries| :: entries[i].key in store && store[entries[i].key] == entries[i]
        invariant forall i, j | 0 <= i < j < |entries| :: entries[i].key != entries[j].key
        decreases todo
      {
        var key :| key in todo;
        QueueKeysAppend(entries, store[key]);
        assert forall i | 0 <= i < |entries| :: entries[i].key in QueueKeys(entries);
        entries := entries + [store[key]];
        todo := todo - {key};
      }
    }

    /** Snapshot of the entries for the priority queue: every stored entry
        object once, with its rank. */
    method Snapshot(ghost d0: map<K, EntryData<V>>) returns (queue: seq<MEntry<K, V>>, ranks: seq<Rank>)
      requires KeysMatch() && d0 == View()
      ensures Queued(d0, store, queue, ranks) && QueueKeys(queue) == store.Keys
    {
      queue, ranks := [], [];
      var todo := store.Keys;
      while todo != {}
        invariant todo <= store.Keys
        invariant Queued(d0, store, queue, ranks) && QueueKeys(queue) == store.Keys - todo
        decreases todo
      {
        var key :| key in todo;
        var entry := store[key];
        QueueKeysAppend(queue, entry);
        queue := queue + [entry];
        ranks := ranks + [RankOf(entry.Data())];
        todo := todo - {key};
      }
    }

    /** No candidate left in place ranks strictly below an evicted entry. */
    ghost predicate EvictedFirst(d0: map<K, EntryData<V>>, evicted: set<K>)
      requires evicted <= d0.Keys
    {
      forall e, k | e in evicted && k in Candidates(d0) - evicted :: RankLe(RankOf(d0[e]), RankOf(d0[k]))
    }

    /** How many the pass evicts: the first `toEvict` candidates, or all of
        them if there are fewer. */
    lemma PassCount(candidates: set<K>, evicted: set<K>, toEvict: int, left: int)
      requires evicted <= candidates && left == toEvict - |evicted| >= 0 && (left == 0 || evicted == candidates)
      ensures |evicted| == if toEvict < |candidates| then toEvict else |candidates|
    {
      assert candidates == evicted + (candidates - evicted);
      assert |candidates| == |evicted| + |candidates - evicted|;
    }

    /** In a valid cache no stored entry is marked expired, so every entry is
        a candidate: a pass over more than `maxEntries` entries leaves exactly
        `maxEntries` of them, or none at all when `maxEntries` is negative. */
    lemma EvictionTrims(view: map<K, EntryData<V>>, evicted: set<K>, maxEntries: int)
      requires forall k | k in view :: !view[k].expired
      requires maxEntries != 0 && |view| > maxEntries
      requires evicted <= Candidates(view)
      requires var excess := |view| - maxEntries;
               |evicted| == if excess < |Candidates(view)| then excess else |Candidates(view)|
      ensures evicted <= view.Keys
      ensures |view.Keys - evicted| == if maxEntries > 0 then maxEntries else 0
    {
      assert Candidates(view) == view.Keys;
      assert view.Keys == evicted + (view.Keys - evicted);
    }

    /** When the pass stops, every candidate not evicted is still queued, so
        it ranks no lower than any evicted entry. */
    lemma PassRanking(d0: map<K, EntryData<V>>, s0: map<K, MEntry<K, V>>, queue: seq<MEntry<K, V>>, ranks: seq<Rank>,
                      evicted: set<K>)
      requires Queued(d0, s0, queue, ranks) && EvictedSoFar(d0, queue, ranks, evicted)
      ensures evicted <= Candidates(d0)
      ensures queue == [] ==> evicted == Candidates(d0)
      ensures EvictedFirst(d0, evicted)
    {
      if queue == [] {
        assert QueueKeys(queue) == {};
      }
      forall e, k | e in evicted && k in Candidates(d0) - evicted
        ensures RankLe(RankOf(d0[e]), RankOf(d0[k]))
      {
        assert k in QueueKeys(queue);
        var i :| 0 <= i < |queue| && queue[i].key == k;
        assert ranks[i] == RankOf(d0[k]);
      }
    }

    /** One more eviction counted. */
    lemma EvictionCounted(c0: Counters, n: int)
      ensures c0.Evicted(n).Add(Events(evictions := 1)) == c0.Evicted(n + 1)
    {
    }

    /** Removing one more key from what is left of `s0`. */
    lemma RemoveOneMore(s0: map<K, MEntry<K, V>>, evicted: set<K>, key: K)
      ensures (s0 - evicted) - {key} == s0 - (evicted + {key})
    {
    }

    /** Removing one entry and counting the eviction; the source counts it
        whether or not statistics are enabled. */
    method EvictOne(key: K, ghost n: int, ghost c0: Counters, ghost d0: map<K, EntryData<V>>, ghost s0: map<K, MEntry<K, V>>)
      requires stats.Counts() == c0.Evicted(n)
      requires FlagsMatch(d0, s0)
      modifies this`store, stats`evictions
      ensures FlagsMatch(d0, s0)
      ensures store == old(store) - {key}
      ensures stats.Counts() == c0.Evicted(n + 1)
    {
      EvictionCounted(c0, n);
      store := store - {key};
      stats.CountEviction();
    }

    /** The entry objects `s0` carry the expired flags of the fields `d0`. */
    ghost predicate FlagsMatch(d0: map<K, EntryData<V>>, s0: map<K, MEntry<K, V>>)
      reads s0.Values`isExpired
    {
      s0.Keys == d0.Keys && forall k | k in s0 :: s0[k].isExpired == d0[k].expired
    }

    /** The state of the eviction loop: the queue still to poll, the keys
        evicted so far from entry objects `s0` with fields `d0`, the count
        `left` still to evict out of `toEvict`, and the evictions counted on
        top of `c0`. */
    ghost predicate Evicting(d0: map<K, EntryData<V>>, s0: map<K, MEntry<K, V>>, c0: Counters, queue: seq<MEntry<K, V>>,
                             ranks: seq<Rank>, evicted: set<K>, left: int, toEvict: int)
      reads this, stats
    {
      && Queued(d0, s0, queue, ranks) && EvictedSoFar(d0, queue, ranks, evicted)
      && 0 <= left == toEvict - |evicted|
      && store == s0 - evicted && stats.Counts() == c0.Evicted(|evicted|)
    }

    /** One poll of the eviction pass: the least-ranked queued entry is taken
        out of the queue and, unless it is marked expired, removed from the
        store and counted as an eviction. */
    method EvictPoll(queue: seq<MEntry<K, V>>, ranks: seq<Rank>, toEvict: int, ghost total: int, ghost evicted: set<K>,
                     ghost d0: map<K, EntryData<V>>, ghost s0: map<K, MEntry<K, V>>, ghost c0: Counters)
      returns (rest: seq<MEntry<K, V>>, restRanks: seq<Rank>, left: int, ghost evictedNow: set<K>)
      requires Evicting(d0, s0, c0, queue, ranks, evicted, toEvict, total) && |queue| > 0 && toEvict > 0
      requires FlagsMatch(d0, s0)
      modifies this`store, stats`evictions
      ensures Evicting(d0, s0, c0, rest, restRanks, evictedNow, left, total) && |rest| < |queue|
      ensures FlagsMatch(d0, s0)
    {
      var m := MinIndex(ranks);
      var entry := queue[m];
      PollStep(d0, s0, queue, ranks, evicted, m);
      rest, restRanks := queue[..m] + queue[m + 1..], ranks[..m] + ranks[m + 1..];
      if entry.isExpired {
        return rest, restRanks, toEvict, evicted;
      }
      RemoveOneMore(s0, evicted, entry.key);
      EvictOne(entry.key, |evicted|, c0, d0, s0);
      evictedNow := evicted + {entry.key};
      left := toEvict - 1;
    }

    /** The eviction loop: poll the queued entries in rank order until
        `toEvict` have been removed or the queue is empty. */
    method EvictLoop(queue: seq<MEntry<K, V>>, ranks: seq<Rank>, toEvict: int,
                     ghost d0: map<K, EntryData<V>>, ghost s0: map<K, MEntry<K, V>>, ghost c0: Counters)
      returns (ghost evicted: set<K>, ghost rest: seq<MEntry<K, V>>, ghost restRanks: seq<Rank>, ghost left: int)
      requires Evicting(d0, s0, c0, queue, ranks, {}, toEvict, toEvict) && FlagsMatch(d0, s0)
      modifies this`store, stats`evictions
      ensures Evicting(d0, s0, c0, rest, restRanks, evicted, left, toEvict) && (left == 0 || rest == [])
    {
      evicted := {};
      var queue, ranks, remaining := queue, ranks, toEvict;
      while remaining > 0 && |queue| > 0
        invariant Evicting(d0, s0, c0, queue, ranks, evicted, remaining, toEvict)
        invariant FlagsMatch(d0, s0)
        decreases |queue|
      {
        queue, ranks, remaining, evicted := EvictPoll(queue, ranks, remaining, toEvict, evicted, d0, s0, c0);
      }
      return evicted, queue, ranks, remaining;
    }

    /** Before the first poll: nothing evicted, the whole store queued. */
    lemma NothingEvictedYet(d0: map<K, EntryData<V>>, s0: map<K, MEntry<K, V>>, c0: Counters,
                            queue: seq<MEntry<K, V>>, ranks: seq<Rank>)
      requires Queued(d0, s0, queue, ranks) && QueueKeys(queue) == s0.Keys == d0.Keys
      ensures EvictedSoFar(d0, queue, ranks, {})
      ensures c0.Evicted(0) == c0 && s0 - {} == s0
    {
    }

    /** The eviction pass over the queued entries: the first `toEvict`
        candidates in rank order, or all of them if there are fewer, are
        removed and counted. */
    method EvictEach(queue: seq<MEntry<K, V>>, ranks: seq<Rank>, toEvict: int,
                     ghost d0: map<K, EntryData<V>>, ghost s0: map<K, MEntry<K, V>>, ghost c0: Counters)
      returns (ghost evicted: set<K>)
      requires Queued(d0, s0, queue, ranks) && QueueKeys(queue) == s0.Keys && toEvict > 0
      requires FlagsMatch(d0, s0)
      requires store == s0 && stats.Counts() == c0
      modifies this`store, stats`evictions
      ensures evicted <= Candidates(d0) && EvictedFirst(d0, evicted)
      ensures |evicted| == if toEvict < |Candidates(d0)| then toEvict else |Candidates(d0)|
      ensures store == s0 - evicted && stats.Counts() == c0.Evicted(|evicted|)
    {
      NothingEvictedYet(d0, s0, c0, queue, ranks);
      ghost var rest, restRanks, left;
      evicted, rest, restRanks, left := EvictLoop(queue, ranks, toEvict, d0, s0, c0);
      PassRanking(d0, s0, rest, restRanks, evicted);
      PassCount(Candidates(d0), evicted, toEvict, left);
    }

    /** The eviction runnable's run: when the cache holds more than `maxEntries`
        entries (and `maxEntries` is not 0), remove the excess, least-ranked
        first, skipping entries already marked expired. */
    method EvictRun() returns (ghost evicted: set<K>)
      requires KeysMatch()
      modifies this`store, stats`evictions
      ensures maxEntries == 0 || |old(store)| <= maxEntries ==> evicted == {} && unchanged(this, stats)
      ensures maxEntries != 0 && |old(store)| > maxEntries ==>
                var candidates := Candidates(old(View()));
                var excess := |old(store)| - maxEntries;
                && |evicted| == (if excess < |candidates| then excess else |candidates|)
                && evicted <= candidates && EvictedFirst(old(View()), evicted)
                && store == old(store) - evicted
                && stats.Counts() == old(stats.Counts()).Evicted(|evicted|)
    {
      if maxEntries == 0 {
        return {};
      }
      var toEvict := |store| - maxEntries;
      if toEvict <= 0 {
        return {};
      }
      ghost var d0, s0, c0 := View(), store, stats.Counts();
      var queue, ranks := Snapshot(d0);
      evicted := EvictEach(queue, ranks, toEvict, d0, s0, c0);
    }
  }
}
