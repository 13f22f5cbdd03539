/** The eviction order: entries with fewer accesses go first, and among equally
    accessed entries the one accessed longest ago goes first. */
module Ranking {
  import opened Entries

  /** The two fields the comparator looks at. */
  datatype Rank = Rank(accessCount: int, lastAccessTime: int)

  function RankOf<V>(d: EntryData<V>): Rank {
    Rank(d.accessCount, d.lastAccessTime)
  }

  /** AccessComparator.compare: negative when `a` is evicted before `b`. */
  function Compare(a: Rank, b: Rank): (r: int)
    ensures r == -1 || r == 0 || r == 1
    ensures r == 0 <==> a == b
    ensures r < 0 <==> a.accessCount < b.accessCount
                       || (a.accessCount == b.accessCount && a.lastAccessTime < b.lastAccessTime)
  {
    if a.accessCount == b.accessCount then
      if a.lastAccessTime == b.lastAccessTime then 0
      else if a.lastAccessTime > b.lastAccessTime then 1 else -1
    else if a.accessCount > b.accessCount then 1 else -1
  }

  /** `a` may be evicted no later than `b`. */
  predicate RankLe(a: Rank, b: Rank) { Compare(a, b) <= 0 }

  /** The comparator is antisymmetric, as a Comparator must be. */
  lemma CompareAntisymmetric(a: Rank, b: Rank)
    ensures Compare(a, b) == -Compare(b, a)
  {
  }

  /** RankLe is a total preorder, so a priority queue ordered by it always has
      a least element. */
  lemma RankLeTotalPreorder(a: Rank, b: Rank, c: Rank)
    ensures RankLe(a, a)
    ensures RankLe(a, b) || RankLe(b, a)
    ensures RankLe(a, b) && RankLe(b, c) ==> RankLe(a, c)
  {
  }

  /** PriorityQueue.poll: the position of a least-ranked element. Among
      elements of equal rank the model takes the first; the queue itself
      leaves the choice unspecified, and the eviction pass's contract holds
      whichever of them is taken. */
  method MinIndex(ranks: seq<Rank>) returns (m: nat)
    requires |ranks| > 0
    ensures m < |ranks|
    ensures forall j :: 0 <= j < |ranks| ==> RankLe(ranks[m], ranks[j])
    ensures forall j :: 0 <= j < m ==> Compare(ranks[j], ranks[m]) > 0
  {
    m := 0;
    var i := 1;
    while i < |ranks|
      invariant m < i <= |ranks|
      invariant forall j :: 0 <= j < i ==> RankLe(ranks[m], ranks[j])
      invariant forall j :: 0 <= j < m ==> Compare(ranks[j], ranks[m]) > 0
    {
      if Compare(ranks[i], ranks[m]) < 0 {
        m := i;
      }
      i := i + 1;
    }
  }
}
