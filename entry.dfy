/** One cache entry: its timestamps, its access counter, the one-way expired flag,
    the strictly-newer update rule and the three-duration expiry rule. The pure
    functions on `EntryData` say what each step does to an entry's fields; the
    class `MEntry` holds those fields in place and its methods are proved against
    the functions. */
module Entries {
  import opened Wrappers

  /** A javax.cache Duration: eternal, or a finite number of milliseconds. */
  datatype Duration = Eternal | Finite(millis: nat)

  /** The three durations an expiry policy hands out; a missing one (Java null)
      disables its rule, and so does an eternal one. */
  datatype ExpiryPolicy = ExpiryPolicy(
    forAccess: Option<Duration>,
    forCreation: Option<Duration>,
    forUpdate: Option<Duration>)

  /** The fields of an entry, as a value. */
  datatype EntryData<V> = EntryData(
    value: Nullable<V>,
    createdTime: int,
    lastUpdatedTime: int,
    lastAccessTime: int,
    accessCount: int,
    expired: bool)

  function Max(a: int, b: int): int { if a < b then b else a }

  /** A freshly constructed entry: all three timestamps are the creation time. */
  function Created<V>(value: Nullable<V>, time: int): EntryData<V> {
    EntryData(value, time, time, time, 0, false)
  }

  /** setValue: the update is applied only when its time is strictly newer than
      the last update; a late or same-millisecond update is discarded. */
  function Updated<V>(d: EntryData<V>, value: Nullable<V>, time: int): (r: EntryData<V>)
    ensures r.lastUpdatedTime >= d.lastUpdatedTime
    ensures r.createdTime == d.createdTime && r.lastAccessTime == d.lastAccessTime
    ensures r.accessCount == d.accessCount && r.expired == d.expired
    ensures r != d ==> time > d.lastUpdatedTime && r.value == value && r.lastUpdatedTime == time
  {
    if time > d.lastUpdatedTime then d.(value := value, lastUpdatedTime := time) else d
  }

  /** A counted hit: one more access, and the last access time never goes back. */
  function Accessed<V>(d: EntryData<V>, time: int): (r: EntryData<V>)
    ensures r.accessCount == d.accessCount + 1
    ensures r.lastAccessTime >= d.lastAccessTime && r.lastAccessTime >= time
    ensures r.lastAccessTime == d.lastAccessTime || r.lastAccessTime == time
    ensures r.(accessCount := d.accessCount, lastAccessTime := d.lastAccessTime) == d
  {
    d.(accessCount := d.accessCount + 1, lastAccessTime := if time > d.lastAccessTime then time else d.lastAccessTime)
  }

  /** Whether one duration rule fires at `now` for an entry whose relevant
      timestamp is `base`: the adjusted time (base plus the duration) is
      strictly before `now`. An absent or eternal duration never fires. */
  predicate Fires(duration: Option<Duration>, base: int, now: int) {
    duration.Some? && duration.value.Finite? && base + duration.value.millis < now
  }

  /** isExpired(now, access, creation, update): the sticky flag, then the three
      rules in the order the source checks them. */
  function Expired<V>(d: EntryData<V>, now: int, p: ExpiryPolicy): (r: bool)
    ensures r <==> d.expired
                   || Fires(p.forAccess, d.lastAccessTime, now)
                   || Fires(p.forCreation, d.createdTime, now)
                   || Fires(p.forUpdate, d.lastUpdatedTime, now)
  {
    if d.expired then true
    else if p.forAccess.Some? && p.forAccess.value.Finite? && d.lastAccessTime + p.forAccess.value.millis < now then true
    else if p.forCreation.Some? && p.forCreation.value.Finite? && d.createdTime + p.forCreation.value.millis < now then true
    else if p.forUpdate.Some? && p.forUpdate.value.Finite? && d.lastUpdatedTime + p.forUpdate.value.millis < now then true
    else false
  }

  /** The entry after an expiry check at `now`: the flag is set once the check
      finds the entry expired, and nothing else changes. */
  function AfterCheck<V>(d: EntryData<V>, now: int, p: ExpiryPolicy): EntryData<V> {
    d.(expired := Expired(d, now, p))
  }

  /** Whether any of the three durations is set (the cache's hasExpiry). */
  predicate HasExpiry(p: ExpiryPolicy) {
    p.forAccess.Some? || p.forCreation.Some? || p.forUpdate.Some?
  }

  /** An eternal duration is kept as no duration at all. */
  function NormalizedDuration(d: Option<Duration>): (r: Option<Duration>)
    ensures r.Some? ==> r.value.Finite?
    ensures d.Some? && d.value.Finite? ==> r == d
    ensures r.None? <==> (d.None? || d.value.Eternal?)
  {
    if d.Some? && d.value.Eternal? then None else d
  }

  function Normalized(p: ExpiryPolicy): (r: ExpiryPolicy)
    ensures IsNormal(r)
  {
    ExpiryPolicy(NormalizedDuration(p.forAccess), NormalizedDuration(p.forCreation), NormalizedDuration(p.forUpdate))
  }

  predicate IsNormal(p: ExpiryPolicy) {
    (p.forAccess.Some? ==> p.forAccess.value.Finite?)
    && (p.forCreation.Some? ==> p.forCreation.value.Finite?)
    && (p.forUpdate.Some? ==> p.forUpdate.value.Finite?)
  }

  /** The entry class: `key` and `createdTime` never change after construction;
      the other fields are updated in place. */
  class MEntry<K, V(==)> {
    const key: K
    var value: Nullable<V>
    const createdTime: int
    var lastUpdatedTime: int
    var lastAccessTime: int
    var accessCount: int
    var isExpired: bool

    function Data(): EntryData<V>
      reads this
    {
      EntryData(value, createdTime, lastUpdatedTime, lastAccessTime, accessCount, isExpired)
    }

    constructor (key: K, value: Nullable<V>, createdTime: int)
      ensures this.key == key && Data() == Created(value, createdTime)
    {
      this.key := key;
      this.value := value;
      this.createdTime := createdTime;
      lastUpdatedTime := createdTime;
      lastAccessTime := createdTime;
      accessCount := 0;
      isExpired := false;
    }

    method SetValue(val: Nullable<V>, updateTime: int)
      modifies this
      ensures Data() == Updated(old(Data()), val, updateTime)
    {
      if updateTime > lastUpdatedTime {
        value := val;
        lastUpdatedTime := updateTime;
      }
    }

    /** The hit bookkeeping the cache performs on an entry it hands out. */
    method CountAccess(accessTime: int)
      modifies this
      ensures Data() == Accessed(old(Data()), accessTime)
    {
      accessCount := accessCount + 1;
      if accessTime > lastAccessTime {
        lastAccessTime := accessTime;
      }
    }

    method IsExpired(accessTime: int, p: ExpiryPolicy) returns (r: bool)
      modifies this
      ensures r == Expired(old(Data()), accessTime, p)
      ensures Data() == AfterCheck(old(Data()), accessTime, p)
      ensures !r ==> unchanged(this)
    {
      if isExpired {
        return true;
      }
      if p.forAccess.Some? && !p.forAccess.value.Eternal? {
        if lastAccessTime + p.forAccess.value.millis < accessTime {
          isExpired := true;
          return true;
        }
      }
      if p.forCreation.Some? && !p.forCreation.value.Eternal? {
        if createdTime + p.forCreation.value.millis < accessTime {
          isExpired := true;
          return true;
        }
      }
      if p.forUpdate.Some? && !p.forUpdate.value.Eternal? {
        if lastUpdatedTime + p.forUpdate.value.millis < accessTime {
          isExpired := true;
          return true;
        }
      }
      return false;
    }

    /** valueEquals: a null expected value matches a null stored value;
        otherwise the expected value's equals decides (modelled as equality). */
    function ValueEquals(otherValue: Nullable<V>): (r: bool)
      reads this
      ensures r <==> otherValue == value
    {
      if otherValue.Null? then value.Null? else otherValue == value
    }
  }

  /** Once an expiry check has found an entry expired, every later check finds
      it expired, whatever the time and whatever the policy. */
  lemma StickyExpiry<V>(d: EntryData<V>, t1: int, p1: ExpiryPolicy, t2: int, p2: ExpiryPolicy)
    requires Expired(d, t1, p1)
    ensures Expired(AfterCheck(d, t1, p1), t2, p2)
    ensures AfterCheck(AfterCheck(d, t1, p1), t2, p2) == AfterCheck(d, t1, p1)
  {
  }

  /** A check that finds the entry live leaves it exactly as it was. */
  lemma LiveCheckChangesNothing<V>(d: EntryData<V>, now: int, p: ExpiryPolicy)
    requires !Expired(d, now, p)
    ensures AfterCheck(d, now, p) == d
  {
  }

  /** The duration rules only fire later as time goes on: an entry the rules
      expire at `t` is expired by them at every later time. */
  lemma ExpiryPersistsOverTime<V>(d: EntryData<V>, t: int, t': int, p: ExpiryPolicy)
    requires t <= t'
    requires Expired(d, t, p)
    ensures Expired(d, t', p)
  {
  }

  /** Dropping eternal durations does not change any expiry decision. */
  lemma NormalizationKeepsExpiry<V>(d: EntryData<V>, now: int, p: ExpiryPolicy)
    ensures Expired(d, now, Normalized(p)) == Expired(d, now, p)
  {
  }

  /** With no duration configured only the sticky flag can expire an entry. */
  lemma NoDurationsOnlySticky<V>(d: EntryData<V>, now: int, p: ExpiryPolicy)
    requires !HasExpiry(p)
    ensures Expired(d, now, p) == d.expired
  {
  }
}
