# MCache, modelled in Dafny

This project models `MCache`, the in-memory key/value cache of the Moqui
framework (a JCache `Cache` implementation). The model covers:

- the entry store, a map from key to a mutable entry object;
- the per-entry expiry rules: durations measured from the last access, the
  creation and the last update, plus a sticky "expired" flag;
- the statistics counters;
- the single-key and bulk operations of the cache, and `close`;
- the snapshot iterator;
- the background eviction pass with its access-count/recency ranking.

Each source class with state updated in place becomes a Dafny `class` with
those fields: `MEntry`, `MStats`, `MCache` and `CacheIterator`. Each class's
methods are proved against pure functions on value snapshots. For example,
`EntryData` is the value of an entry's fields, `Counters` the value of the
statistics, and `View()` the store seen as a map from keys to `EntryData`.

The modules are:

- `Wrappers` (wrappers.dfy): `Option`, Java's nullable references, and the
  result of an operation that may throw `IllegalStateException`.
- `Entries` (entry.dfy): the `MEntry` class, the expiry check and the
  normalisation of eternal durations.
- `Updates` (updates.dfy): what a sequence of timestamped `setValue` calls
  leaves in an entry.
- `Statistics` (stats.dfy): the `MStats` counters and the hit/miss
  percentages.
- `Ranking` (ranking.dfy): the eviction comparator and the priority-queue
  poll.
- `Tallies` (tallies.dfy): counting the keys a bulk operation visits, and
  why the visiting order does not change the statistics.
- `Cache` (cache.dfy): the `MCache` class, with every operation and the
  eviction pass.
- `Iteration` (iterator.dfy): the cache's iterator.

`MCache.Valid()` is the invariant that every operation preserves:

- every stored entry carries its own key and is not flagged expired;
- `hits + misses == gets`;
- a closed cache is empty;
- the expiry durations are normalised (no eternal duration is kept).

Under this invariant the "already flagged expired" branch of the eviction
loop never fires. An eviction pass then leaves exactly `maxEntries` entries
when it starts above the limit, and none when the limit is negative.

Two behaviours of the code are worth noting:

- The eviction pass counts evictions even when statistics are disabled
  (MCache.java:735).
- With no gets, the percentage getters divide two `long`s by zero and
  throw (MCache.java:662, 666). The model returns `None`.

## Model

| member | source | states |
|---|---|---|
| Entries.Updated | framework/src/api/java/org/moqui/jcache/MCache.java:593-598 | an update changes value and lastUpdatedTime only when its time is strictly newer; lastUpdatedTime never decreases; every other field is kept |
| Entries.Accessed | framework/src/api/java/org/moqui/jcache/MCache.java:207-208 | a hit adds one to accessCount and moves lastAccessTime forward to the access time, never back; nothing else changes |
| Entries.Expired | framework/src/api/java/org/moqui/jcache/MCache.java:621-633 | an entry is expired iff it is flagged, or a non-eternal access/creation/update duration added to its base time is before the check time |
| Entries.NormalizedDuration | framework/src/api/java/org/moqui/jcache/MCache.java:99-104 | an eternal duration becomes absent; a finite one is kept; the result is absent exactly when the input was absent or eternal |
| Entries.Normalized | framework/src/api/java/org/moqui/jcache/MCache.java:97-104 | the policy the cache keeps holds no eternal duration |
| Entries.MEntry.constructor | framework/src/api/java/org/moqui/jcache/MCache.java:568-574 | a new entry has its key and value, all three times equal to the creation time, access count 0 and no expired flag |
| Entries.MEntry.SetValue | framework/src/api/java/org/moqui/jcache/MCache.java:593-598 | the entry's fields become `Updated` of the old ones |
| Entries.MEntry.CountAccess | framework/src/api/java/org/moqui/jcache/MCache.java:605-608 | the entry's fields become `Accessed` of the old ones (the inline counting at each hit) |
| Entries.MEntry.IsExpired | framework/src/api/java/org/moqui/jcache/MCache.java:614-633 | returns `Expired` of the old fields and sets the sticky flag exactly when it returns true; a live entry is unchanged |
| Entries.MEntry.ValueEquals | framework/src/api/java/org/moqui/jcache/MCache.java:586-592 | true iff the argument equals the stored value, null matching null |
| Entries.StickyExpiry | framework/src/api/java/org/moqui/jcache/MCache.java:622-630 | once a check finds an entry expired, every later check under any policy and time finds it expired, and checking again changes nothing |
| Entries.LiveCheckChangesNothing | framework/src/api/java/org/moqui/jcache/MCache.java:621-633 | a check that finds the entry live leaves its fields as they were |
| Entries.ExpiryPersistsOverTime | framework/src/api/java/org/moqui/jcache/MCache.java:621-633 | an entry expired at time t is expired at every later time |
| Entries.NormalizationKeepsExpiry | framework/src/api/java/org/moqui/jcache/MCache.java:99-104 | dropping eternal durations does not change any expiry decision |
| Entries.NoDurationsOnlySticky | framework/src/api/java/org/moqui/jcache/MCache.java:120 | without any duration (hasExpiry false) only the sticky flag expires an entry |
| Updates.UpdatesKeepNewest | framework/src/api/java/org/moqui/jcache/MCache.java:593-598 | after a sequence of setValue calls, lastUpdatedTime is the newest time seen, and the value is the first update carrying the newest time if that time is newer than the entry's (otherwise unchanged) |
| Updates.UpdateOrderIrrelevant | framework/src/api/java/org/moqui/jcache/MCache.java:593-598 | updates with distinct times leave the same entry whatever order they arrive in |
| Updates.LateUpdateDiscarded | framework/src/api/java/org/moqui/jcache/MCache.java:594 | an update arriving after a newer one (or one of the same time) is discarded |
| Statistics.Counters.Evicted | framework/src/api/java/org/moqui/jcache/MCache.java:735 | n evictions add n to the evictions counter and keep hits + misses == gets |
| Statistics.MStats.constructor | framework/src/api/java/org/moqui/jcache/MCache.java:636-644 | all seven counters start at zero |
| Statistics.MStats.Clear | framework/src/api/java/org/moqui/jcache/MCache.java:649-657 | all seven counters are zero again |
| Statistics.MStats.CountHit | framework/src/api/java/org/moqui/jcache/MCache.java:207 | one more get and one more hit, nothing else |
| Statistics.MStats.CountMiss | framework/src/api/java/org/moqui/jcache/MCache.java:210 | one more get and one more miss, nothing else |
| Statistics.MStats.CountPut | framework/src/api/java/org/moqui/jcache/MCache.java:262 | one more put, nothing else |
| Statistics.MStats.CountRemoval | framework/src/api/java/org/moqui/jcache/MCache.java:700-703 | one more removal, nothing else |
| Statistics.MStats.CountBulkRemoval | framework/src/api/java/org/moqui/jcache/MCache.java:704-706 | `entries` more removals, nothing else |
| Statistics.MStats.CountExpire | framework/src/api/java/org/moqui/jcache/MCache.java:707-709 | one more expiry, nothing else |
| Statistics.MStats.CountEviction | framework/src/api/java/org/moqui/jcache/MCache.java:735 | one more eviction, nothing else |
| Statistics.HitPercentageAsWritten | framework/src/api/java/org/moqui/jcache/MCache.java:662 | as written: throws (None) exactly when there were no gets |
| Statistics.MissPercentageAsWritten | framework/src/api/java/org/moqui/jcache/MCache.java:666 | as written: throws (None) exactly when there were no gets |
| Statistics.AsWrittenAllOrNothing | framework/src/api/java/org/moqui/jcache/MCache.java:662-666 | with balanced counters, the computed hit (miss) percentage is 100 when every get was a hit (miss) and 0 otherwise |
| Statistics.HalfHitsReadAsZero | framework/src/api/java/org/moqui/jcache/MCache.java:662 | one hit in two gets reads as 0 percent as written, 50 as intended |
| Statistics.HitPercentage | framework/src/api/java/org/moqui/jcache/MCache.java:662 | corrected: undefined without gets, otherwise the value p with p * gets == hits * 100 |
| Statistics.MissPercentage | framework/src/api/java/org/moqui/jcache/MCache.java:666 | corrected: undefined without gets, otherwise the value p with p * gets == misses * 100 |
| Statistics.PercentagesComplement | framework/src/api/java/org/moqui/jcache/MCache.java:662-666 | with balanced counters, each corrected percentage lies in [0, 100] and the two add up to 100 |
| Ranking.Compare | framework/src/api/java/org/moqui/jcache/MCache.java:743-753 | the result is -1, 0 or 1; 0 iff access count and last access time agree; negative iff lexicographically smaller by (accessCount, lastAccessTime) |
| Ranking.CompareAntisymmetric | framework/src/api/java/org/moqui/jcache/MCache.java:745-752 | compare(a, b) == -compare(b, a) |
| Ranking.RankLeTotalPreorder | framework/src/api/java/org/moqui/jcache/MCache.java:745-752 | the comparator's order is reflexive, total and transitive, as the priority queue needs |
| Ranking.MinIndex | framework/src/api/java/org/moqui/jcache/MCache.java:731 | the polled position holds a least rank, and every earlier position holds a strictly greater one |
| Tallies.KindsOrderIrrelevant | framework/src/api/java/org/moqui/jcache/MCache.java:243 | visiting the same distinct keys in two orders counts the same number of live, expired and absent keys |
| Cache.MCache.constructor | framework/src/api/java/org/moqui/jcache/MCache.java:90-121 | a new cache is open, empty and valid with zeroed counters; without a configuration statistics are on and there is no expiry and no limit; otherwise it takes the statistics flag, the normalised expiry policy, and the limit when positive |
| Cache.MCache.Size | framework/src/api/java/org/moqui/jcache/MCache.java:553 | the number of entries in the view; a closed cache has none |
| Cache.MCache.SetMaxEntries | framework/src/api/java/org/moqui/jcache/MCache.java:123-140 | the eviction limit becomes `elements`, 0 meaning no eviction |
| Cache.MCache.NoteHit | framework/src/api/java/org/moqui/jcache/MCache.java:207 | one hit counted when statistics are enabled, none otherwise; the counters stay balanced |
| Cache.MCache.NoteMiss | framework/src/api/java/org/moqui/jcache/MCache.java:210 | one miss counted when statistics are enabled; the counters stay balanced |
| Cache.MCache.NotePut | framework/src/api/java/org/moqui/jcache/MCache.java:262 | one put counted when statistics are enabled |
| Cache.MCache.NoteRemoval | framework/src/api/java/org/moqui/jcache/MCache.java:311 | one removal counted when statistics are enabled |
| Cache.MCache.NoteExpire | framework/src/api/java/org/moqui/jcache/MCache.java:190 | one expiry counted when statistics are enabled |
| Cache.MCache.CheckExpired | framework/src/api/java/org/moqui/jcache/MCache.java:228-237 | closed: throws, nothing changes; no entry: null; expired entry: flagged, removed, one expiry counted, null; live entry: returned untouched |
| Cache.MCache.DropExpired | framework/src/api/java/org/moqui/jcache/MCache.java:185-204 | an entry expired under the given policy (or the cache's durations), or updated before expireBeforeTime, is removed with one expiry counted; otherwise it is returned and nothing changes |
| Cache.MCache.GetEntryInternal | framework/src/api/java/org/moqui/jcache/MCache.java:181-217 | closed: throws; a live entry is returned with its access recorded and a hit counted; otherwise null, the key removed and a miss counted, plus an expiry when an entry was dropped; an entry dropped as expired is left flagged, one dropped as updated too early is left as it was; no entry object of another key changes |
| Cache.MCache.Get | framework/src/api/java/org/moqui/jcache/MCache.java:147-151 | closed: throws; otherwise returns the live value (or null), leaves the view `GetView` of the old one, drops only an expired entry and counts the get's events; a dropped entry is left flagged expired; no entry object of another key changes; the invariant is kept |
| Cache.MCache.GetWithPolicy | framework/src/api/java/org/moqui/jcache/MCache.java:152-156 | as get, with expiry decided by the given policy instead of the cache's durations; an entry the policy expires is removed and left flagged |
| Cache.MCache.GetExpireBefore | framework/src/api/java/org/moqui/jcache/MCache.java:159-163 | as get, and an entry last updated before the given time also counts as expired; an entry the durations expire is left flagged, a live one dropped for its update time is left untouched |
| Cache.MCache.GetEntry | framework/src/api/java/org/moqui/jcache/MCache.java:165-167 | returns the live entry object itself (or null) with the same effects as get, under an optional policy; a dropped entry is left flagged expired |
| Cache.MCache.GetEntryNoCheck | framework/src/api/java/org/moqui/jcache/MCache.java:169-180 | closed: throws; otherwise returns the stored entry without any expiry check, recording a hit and the access, or null and a miss |
| Cache.MCache.ContainsKey | framework/src/api/java/org/moqui/jcache/MCache.java:250-253 | true iff a live entry is stored; counts no get and records no access; an expired entry is removed, counted as an expiry and left flagged; a live entry is untouched |
| Cache.MCache.Put | framework/src/api/java/org/moqui/jcache/MCache.java:256-268 | closed: throws; a live entry is updated in place (newer time wins); otherwise a fresh entry replaces any expired one; one put counted either way |
| Cache.MCache.GetAndPut | framework/src/api/java/org/moqui/jcache/MCache.java:270-285 | as put, returning the old live value or null |
| Cache.MCache.PutIfAbsent | framework/src/api/java/org/moqui/jcache/MCache.java:293-304 | true and a fresh entry iff no live entry was stored; a live entry is left untouched and nothing is counted |
| Cache.MCache.Remove | framework/src/api/java/org/moqui/jcache/MCache.java:307-316 | closed: throws; the key is gone afterwards; true and one removal iff a live entry was there, which is left untouched; an expired one counts as an expiry and is left flagged; no entry object of another key changes |
| Cache.MCache.RemoveMatching | framework/src/api/java/org/moqui/jcache/MCache.java:318-333 | removes and counts a removal iff a live entry holds the given value; a live entry with another value stays |
| Cache.MCache.GetAndRemove | framework/src/api/java/org/moqui/jcache/MCache.java:336-346 | returns the old live value (with a hit and a removal counted) or null (a miss); the key is gone afterwards |
| Cache.MCache.Replace | framework/src/api/java/org/moqui/jcache/MCache.java:366-377 | true, an in-place update and one put iff a live entry was stored; otherwise nothing is added |
| Cache.MCache.ReplaceMatching | framework/src/api/java/org/moqui/jcache/MCache.java:349-363 | updates and counts a put iff a live entry holds the old value; a live entry with another value is unchanged |
| Cache.MCache.GetAndReplace | framework/src/api/java/org/moqui/jcache/MCache.java:380-392 | returns the old live value, records the access and updates it (a hit and a put), or returns null with a miss and adds nothing |
| Cache.MCache.RemoveAll | framework/src/api/java/org/moqui/jcache/MCache.java:401-406 | closed: throws; otherwise the store is empty and its former size is counted as removals |
| Cache.MCache.Clear | framework/src/api/java/org/moqui/jcache/MCache.java:409-413 | closed: throws; otherwise the store is empty and no counter changes |
| Cache.MCache.Close | framework/src/api/java/org/moqui/jcache/MCache.java:447-451 | a second close throws; the first marks the cache closed and empties it |
| Cache.MCache.GetAllView | framework/src/api/java/org/moqui/jcache/MCache.java:240-248 | after getAll the expired requested keys are gone and every other requested key has its access recorded; unrequested keys are untouched |
| Cache.MCache.SweptAll | framework/src/api/java/org/moqui/jcache/MCache.java:243 | the statistics a bulk operation adds over any visiting order of its keys equal those of the per-kind count |
| Cache.MCache.GetAllOneGetPerKey | framework/src/api/java/org/moqui/jcache/MCache.java:240-248 | getAll counts one get per requested key, a hit per live key, a miss per other key and an expiry per expired key |
| Cache.MCache.GetAllVisit | framework/src/api/java/org/moqui/jcache/MCache.java:244-245 | one round of getAll returns the key's value as a single get would see it in the starting state; the key's entry, if dropped, is flagged; no other entry object changes |
| Cache.MCache.GetEach | framework/src/api/java/org/moqui/jcache/MCache.java:243-246 | the loop over the keys visits each once and returns the value each key had at the start; every entry it dropped stays flagged |
| Cache.MCache.GetAll | framework/src/api/java/org/moqui/jcache/MCache.java:240-248 | returns every requested key's live value or null; the store loses exactly the expired requested keys, whose entry objects are left flagged expired; counters as `GetAllOneGetPerKey`; a closed cache throws unless no key is requested |
| Cache.MCache.LiveKeysAreLiveIn | framework/src/api/java/org/moqui/jcache/MCache.java:522-530 | the keys getEntryList keeps along any order are distinct and are exactly the live keys |
| Cache.MCache.ListEntry | framework/src/api/java/org/moqui/jcache/MCache.java:523-529 | one round of getEntryList returns the live entry (access recorded, hit counted) or null after removing an expired one, which is left flagged; no entry object of another key changes |
| Cache.MCache.ListVisit | framework/src/api/java/org/moqui/jcache/MCache.java:522-530 | one round keeps the loop's relation to the starting state; the key's entry, if dropped, is flagged; no other entry object changes |
| Cache.MCache.ListEach | framework/src/api/java/org/moqui/jcache/MCache.java:522-530 | the loop visits every stored key once and lists the live entries in visiting order; every entry it dropped stays flagged |
| Cache.MCache.GetEntryList | framework/src/api/java/org/moqui/jcache/MCache.java:516-532 | closed: throws; otherwise returns the live entry objects, records their access, removes the expired ones (left flagged) and counts a hit per live entry |
| Cache.MCache.ListedEntries | framework/src/api/java/org/moqui/jcache/MCache.java:516-532 | the returned list has one entry per live key, no key twice |
| Cache.MCache.ListingCounts | framework/src/api/java/org/moqui/jcache/MCache.java:525-528 | getEntryList adds a get and a hit per live key and an expiry per expired key, nothing else |
| Cache.MCache.ExpiredAlongCounts | framework/src/api/java/org/moqui/jcache/MCache.java:539-549 | the count clearExpired accumulates along any order is the number of expired keys |
| Cache.MCache.ClearEntry | framework/src/api/java/org/moqui/jcache/MCache.java:541-547 | one round of clearExpired removes and counts the key iff its entry is expired, and leaves that entry flagged; no entry object of another key changes |
| Cache.MCache.ClearVisit | framework/src/api/java/org/moqui/jcache/MCache.java:540-548 | one round keeps the loop's relation to the starting state; the key's entry, if dropped, is flagged; no other entry object changes |
| Cache.MCache.ClearEach | framework/src/api/java/org/moqui/jcache/MCache.java:540-548 | the loop visits every stored key once and counts the expired ones; every entry it dropped stays flagged |
| Cache.MCache.ClearExpired | framework/src/api/java/org/moqui/jcache/MCache.java:533-550 | closed: throws; without expiry returns 0 and changes nothing; otherwise removes exactly the expired entries, leaves them flagged and returns their number |
| Cache.MCache.ClearExpiredCounts | framework/src/api/java/org/moqui/jcache/MCache.java:533-550 | clearExpired counts one expiry per removed entry and nothing else, and every entry left is live |
| Cache.MCache.RemoveKeysVisit | framework/src/api/java/org/moqui/jcache/MCache.java:397 | one round of removeAll(keys) keeps the loop's relation to the starting state; a removed live entry is untouched, a removed expired one flagged; no other entry object changes |
| Cache.MCache.RemoveEach | framework/src/api/java/org/moqui/jcache/MCache.java:397 | the loop visits every requested key once; the removed live entries keep their fields and the removed expired ones stay flagged |
| Cache.MCache.RemoveKeys | framework/src/api/java/org/moqui/jcache/MCache.java:395-398 | closed: throws; otherwise exactly the requested keys are gone and the rest of the store is untouched; the removed live entry objects keep their fields, the removed expired ones are left flagged |
| Cache.MCache.RemoveKeysCounts | framework/src/api/java/org/moqui/jcache/MCache.java:395-398 | removeAll(keys) counts a removal per live key and an expiry per expired key, nothing else |
| Cache.MCache.PutAllView | framework/src/api/java/org/moqui/jcache/MCache.java:288-291 | after putAll the stored keys are the old ones plus the map's keys |
| Cache.MCache.PutEntry | framework/src/api/java/org/moqui/jcache/MCache.java:270-285 | one put into an open cache: the key's data becomes `PutData` and no other key changes; a live entry keeps its object, an expired one is left flagged; no entry object of another key changes |
| Cache.MCache.PutAllVisit | framework/src/api/java/org/moqui/jcache/MCache.java:290 | one round of putAll keeps the loop's relation to the starting state: live entries put so far are still their old objects; the key's replaced expired entry is flagged |
| Cache.MCache.PutEach | framework/src/api/java/org/moqui/jcache/MCache.java:290 | the loop visits every key of the map once; live entries are updated in place and replaced expired ones stay flagged |
| Cache.MCache.PutAll | framework/src/api/java/org/moqui/jcache/MCache.java:288-291 | a null map does nothing; a closed cache throws unless the map is empty; otherwise every key of the map is put: the stored objects of live keys are updated in place, replaced expired entries are left flagged, and other keys keep their objects |
| Cache.MCache.PutAllCounts | framework/src/api/java/org/moqui/jcache/MCache.java:288-291 | putAll counts one put per key of the map and an expiry per expired entry, nothing else |
| Cache.MCache.PutAllValues | framework/src/api/java/org/moqui/jcache/MCache.java:288-291 | after putAll each key of the map holds the new value, except a live entry updated at or after the same time, which keeps its value; other keys are untouched |
| Cache.MCache.Values | framework/src/api/java/org/moqui/jcache/MCache.java:725 | the snapshot of the store's values holds each stored entry object once, under its own key |
| Cache.MCache.Snapshot | framework/src/api/java/org/moqui/jcache/MCache.java:725-727 | the priority queue holds every stored entry with its rank |
| Cache.MCache.PollStep | framework/src/api/java/org/moqui/jcache/MCache.java:731-737 | polling a least-ranked entry keeps the queue consistent and extends the evicted set only by candidates, lowest rank first |
| Cache.MCache.PassCount | framework/src/api/java/org/moqui/jcache/MCache.java:730-737 | when the loop stops, it has evicted min(excess, candidates) entries |
| Cache.MCache.EvictionTrims | framework/src/api/java/org/moqui/jcache/MCache.java:718-741 | on a valid store over its limit, a pass leaves exactly maxEntries entries, or none for a negative limit |
| Cache.MCache.PassRanking | framework/src/api/java/org/moqui/jcache/MCache.java:730-737 | no entry that stays ranks strictly below an evicted one; an emptied queue has evicted every candidate |
| Cache.MCache.EvictOne | framework/src/api/java/org/moqui/jcache/MCache.java:734-737 | one eviction removes the key and counts one eviction |
| Cache.MCache.EvictPoll | framework/src/api/java/org/moqui/jcache/MCache.java:731-737 | one round of the eviction loop keeps its invariant and shortens the queue |
| Cache.MCache.EvictLoop | framework/src/api/java/org/moqui/jcache/MCache.java:730-738 | the loop ends with its invariant when the excess is used up or the queue is empty |
| Cache.MCache.EvictEach | framework/src/api/java/org/moqui/jcache/MCache.java:729-738 | evicts min(excess, candidates) lowest-ranked candidates, removes exactly them and counts them as evictions |
| Cache.MCache.EvictRun | framework/src/api/java/org/moqui/jcache/MCache.java:718-741 | with no limit or no excess nothing changes; otherwise the lowest-ranked min(excess, candidates) entries are removed and counted, whether statistics are on or not |
| Iteration.Looked | framework/src/api/java/org/moqui/jcache/MCache.java:490-495 | a visited entry differs from before only in its flag, which is set iff next passes over it |
| Iteration.FirstLive | framework/src/api/java/org/moqui/jcache/MCache.java:488-500 | the position next stops at: every entry before it is passed over, and the one there is live |
| Iteration.NewlyExpiredKeysCounted | framework/src/api/java/org/moqui/jcache/MCache.java:492-495 | the keys next removes are as many as the expiries it counts |
| Iteration.CacheIterator.constructor | framework/src/api/java/org/moqui/jcache/MCache.java:475-480 | the snapshot holds every stored entry object once, under its key; the position is before the first one |
| Iteration.CacheIterator.HasNext | framework/src/api/java/org/moqui/jcache/MCache.java:483 | true iff the snapshot has a position after the current one, whether or not its entry is live (`HasNextOverstates`) |
| Iteration.CacheIterator.HasLiveNext | framework/src/api/java/org/moqui/jcache/MCache.java:483 | corrected hasNext: true iff some later snapshot entry would not be passed over |
| Iteration.HasNextOverstates | framework/src/api/java/org/moqui/jcache/MCache.java:483 | as written: hasNext is true over a snapshot whose only entry is flagged expired, though next returns null |
| Iteration.CacheIterator.Expire | framework/src/api/java/org/moqui/jcache/MCache.java:492-496 | checks the entry at the iterator's creation time; when expired it is flagged, removed and one expiry counted; otherwise nothing changes |
| Iteration.CacheIterator.Hit | framework/src/api/java/org/moqui/jcache/MCache.java:498 | one hit counted when statistics are enabled |
| Iteration.CacheIterator.Look | framework/src/api/java/org/moqui/jcache/MCache.java:490-499 | one visited entry: found iff not passed over; a newly expired one is removed and counted; a found one counts a hit |
| Iteration.CacheIterator.Step | framework/src/api/java/org/moqui/jcache/MCache.java:489-500 | advances one position and applies `Look` to the entry there |
| Iteration.CacheIterator.Visit | framework/src/api/java/org/moqui/jcache/MCache.java:488-500 | one round of next's loop keeps the state equal to the scan of the positions visited so far |
| Iteration.CacheIterator.Scan | framework/src/api/java/org/moqui/jcache/MCache.java:488-502 | the loop stops at `FirstLive`, or at the end with null |
| Iteration.CacheIterator.Next | framework/src/api/java/org/moqui/jcache/MCache.java:486-503 | returns the first later entry that is live (non-null iff `HasLiveNext`), counts a hit for it, removes and counts the newly expired ones it passes and keeps the cache valid |
| Iteration.CacheIterator.Remove | framework/src/api/java/org/moqui/jcache/MCache.java:505-511 | removes the last returned entry and counts a removal; without one, nothing changes |
| Iteration.Open | framework/src/api/java/org/moqui/jcache/MCache.java:462-465 | a closed cache throws; otherwise a fresh iterator over a snapshot of the store |

## Left out

- The clock: every operation takes the current time `now` as a parameter.
  The overloads that read the clock themselves are modelled with that time.
  This covers `containsKey` (via `getCheckExpired(key)`), `isExpired(policy)`
  and `isExpired(durations)`.
- Cache.MCache.RemoveKeys and Cache.MCache.PutAll use one `now` for every
  key. In the source, `removeAll(keys)` and `putAll` read the clock afresh
  for each key, inside `remove` (through `getCheckExpired(key)`,
  MCache.java:221 and 619) and `getAndPut` (MCache.java:271). Only
  `getAll` reads it once for all keys (MCache.java:241), as modelled.
- Cache.MCache.Valid: requires that no stored entry is flagged expired. The
  public `MEntry.isExpired(policy)` and `isExpired(durations)` overloads
  (MCache.java:610-620) can flag an entry that is still stored, once a
  caller holds it through `getEntry`, `getEntryNoCheck`, `getEntryList` or
  the iterator. The model does not reach that state. There, `get` without a
  policy on a cache without durations would still return the flagged entry
  as a hit (MCache.java:185-211). The eviction pass would skip it and leave
  it stored (MCache.java:733).
- Concurrency is not modelled. This covers the shared eviction thread pool,
  `scheduleWithFixedDelay`, `evictFuture.cancel` and any interleaving of an
  eviction pass with foreground calls. Each operation runs as one atomic
  step, and `SetMaxEntries` only records the limit the next pass uses.
- Logging of eviction runs and their elapsed time is left out; it carries no
  contract.
- Iteration order of Java `HashMap`/`HashSet`: each bulk loop visits keys in
  an order the model leaves open, and `SweptAll`/`KindsOrderIrrelevant`
  prove the result does not depend on it.
- Cache.MCache.GetEntryList: the order of the returned list is the open key
  order, not a specific hash order.
- Iteration.CacheIterator.constructor: the snapshot order is the open order
  of the store's values.
- Configuration plumbing is left out: `getConfiguration`, `unwrap`,
  `getCacheManager` and the `MCacheConfiguration` builder. The
  `maxCheckSeconds` interval goes too, since scheduling is not modelled.
  Getters that only read a field (`getName`, `isClosed`, `getMaxEntries`,
  the duration getters, the statistics getters) are the class fields
  themselves.
- The operations that throw `UnsupportedOperationException` (`loadAll`,
  `invoke`, `invokeAll`, listener registration) are not modelled. The
  average-time getters, which always return 0, are not modelled either.
- Java's 64-bit `long` and 32-bit `int` overflow is not modelled. This
  covers timestamps, counters, `Duration.getAdjustedTime` and
  `size - maxEntries`: all integers are unbounded.
- Durations are milliseconds: the `TimeUnit` of a `javax.cache` `Duration`
  is taken as already converted.
- `equals` on keys and values is modelled as Dafny equality.
- The percentage getters return `float`. The model computes the value
  exactly; a `real` is used for the intended result.

## Findings

| source | as written | input that shows it | evidently intended | confidence | as-written member | corrected member |
|---|---|---|---|---|---|---|
| framework/src/api/java/org/moqui/jcache/MCache.java:662-666 | `(hits / gets) * 100` divides two `long` counters before scaling | hits = 1, misses = 1, gets = 2: the hit percentage reads 0 | the share of gets that were hits in percent: 50 | high, not executed | Statistics.AsWrittenAllOrNothing | Statistics.HitPercentage |
| framework/src/api/java/org/moqui/jcache/MCache.java:483 | `hasNext()` is `curIndex < maxIndex`, which ignores entries `next()` will pass over | a snapshot of one entry already flagged expired: `hasNext()` is true, then `next()` returns null | hasNext true only when next returns an entry, as `java.util.Iterator` requires | medium, not executed | Iteration.HasNextOverstates | Iteration.CacheIterator.HasLiveNext |
