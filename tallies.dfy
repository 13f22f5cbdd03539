/** Counting the keys a bulk operation visits. Each bulk operation of the
    cache (getAll, removeAll of a key set, putAll, getEntryList,
    clearExpired) visits a set of keys one at a time, in an order the model
    does not fix, and counts for each key the events of one single-key step.
    Those events depend only on the kind of the key when the operation
    started (it held a live entry, an expired entry or no entry), so the
    statistics depend only on how many keys of each kind were visited, not
    on the order. */
module Tallies {

  predicate Distinct<T(==)>(s: seq<T>) {
    forall i, j :: 0 <= i < j < |s| ==> s[i] != s[j]
  }

  /** The elements of a sequence, as a set. */
  function Elems<T>(s: seq<T>): set<T> {
    set x | x in s
  }

  /** Visiting one more, new, element keeps the visit order free of repetitions. */
  lemma VisitStep<T>(order: seq<T>, done: set<T>, x: T)
    requires Distinct(order) && Elems(order) == done && x !in done
    ensures Distinct(order + [x]) && Elems(order + [x]) == done + {x}
  {
    assert Elems(order + [x]) == done + {x};
  }

  /** A visit order without its last element is a visit order of the rest. */
  lemma VisitPrefix<T>(order: seq<T>)
    requires Distinct(order) && order != []
    ensures Distinct(order[..|order| - 1])
    ensures order[|order| - 1] !in Elems(order[..|order| - 1])
    ensures Elems(order) == Elems(order[..|order| - 1]) + {order[|order| - 1]}
  {
    var prefix, last := order[..|order| - 1], order[|order| - 1];
    assert order == prefix + [last];
    forall i | 0 <= i < |prefix|
      ensures prefix[i] != last
    {
      assert prefix[i] == order[i];
    }
  }

  /** A sequence without repetitions has as many elements as its set. */
  lemma {:induction false} DistinctCard<T>(s: seq<T>)
    requires Distinct(s)
    ensures |Elems(s)| == |s|
    decreases |s|
  {
    if s != [] {
      VisitPrefix(s);
      DistinctCard(s[..|s| - 1]);
    }
  }

  /** How many visited keys held a live entry, an expired entry, no entry. */
  datatype Kinds = Kinds(live: nat, expired: nat, absent: nat)
  {
    function Total(): nat { live + expired + absent }

    function Plus(other: Kinds): Kinds {
      Kinds(live + other.live, expired + other.expired, absent + other.absent)
    }
  }

  /** The kind of key `k`, when `live` are the keys that held a live entry and
      `expired` those that held an expired one. */
  function KindOf<T>(k: T, live: set<T>, expired: set<T>): (r: Kinds)
    ensures r.Total() == 1
  {
    if k in live then Kinds(1, 0, 0) else if k in expired then Kinds(0, 1, 0) else Kinds(0, 0, 1)
  }

  /** The kinds counted along a visit order, one key at a time. */
  function KindsAlong<T>(order: seq<T>, live: set<T>, expired: set<T>): Kinds
    decreases |order|
  {
    if order == [] then Kinds(0, 0, 0)
    else KindsAlong(order[..|order| - 1], live, expired).Plus(KindOf(order[|order| - 1], live, expired))
  }

  /** Before the first visit, nothing is counted. */
  lemma NoKinds<T>(live: set<T>, expired: set<T>)
    ensures KindsAlong([], live, expired) == Kinds(0, 0, 0)
  {
  }

  /** The kinds of the keys of `done`, counted as sets. */
  function KindsOf<T>(done: set<T>, live: set<T>, expired: set<T>): Kinds {
    Kinds(|done * live|, |(done - live) * expired|, |done - live - expired|)
  }

  /** One more visited key adds its own kind. */
  lemma KindsAlongStep<T>(order: seq<T>, k: T, live: set<T>, expired: set<T>)
    ensures KindsAlong(order + [k], live, expired) == KindsAlong(order, live, expired).Plus(KindOf(k, live, expired))
  {
    var extended := order + [k];
    assert extended[..|extended| - 1] == order && extended[|extended| - 1] == k;
  }

  /** Counting one more key as a set adds one to the count of its own kind only. */
  lemma KindsOfStep<T>(done: set<T>, k: T, live: set<T>, expired: set<T>)
    requires k !in done
    ensures KindsOf(done + {k}, live, expired) == KindsOf(done, live, expired).Plus(KindOf(k, live, expired))
  {
    var more := done + {k};
    var a, b, c := done * live, (done - live) * expired, done - live - expired;
    if k in live {
      assert KindsOf(more, live, expired) == Kinds(|a| + 1, |b|, |c|) by {
        assert more * live == a + {k} && k !in a;
        assert (more - live) * expired == b;
        assert more - live - expired == c;
      }
    } else if k in expired {
      assert KindsOf(more, live, expired) == Kinds(|a|, |b| + 1, |c|) by {
        assert more * live == a;
        assert (more - live) * expired == b + {k} && k !in b;
        assert more - live - expired == c;
      }
    } else {
      assert KindsOf(more, live, expired) == Kinds(|a|, |b|, |c| + 1) by {
        assert more * live == a;
        assert (more - live) * expired == b;
        assert more - live - expired == c + {k} && k !in c;
      }
    }
  }

  /** Whatever the visit order, the kinds counted along it are those of the
      set of keys it visits. */
  lemma {:induction false} KindsAlongIsKindsOf<T>(order: seq<T>, live: set<T>, expired: set<T>)
    requires Distinct(order)
    ensures KindsAlong(order, live, expired) == KindsOf(Elems(order), live, expired)
    decreases |order|
  {
    if order == [] {
      var none: set<T> := {};
      assert Elems(order) == none;
      assert none * live == none && (none - live) * expired == none && none - live - expired == none;
    } else {
      var prefix, k := order[..|order| - 1], order[|order| - 1];
      VisitPrefix(order);
      KindsAlongIsKindsOf(prefix, live, expired);
      KindsOfStep(Elems(prefix), k, live, expired);
    }
  }

  /** Two visit orders of the same keys count the same kinds. */
  lemma KindsOrderIrrelevant<T>(order1: seq<T>, order2: seq<T>, live: set<T>, expired: set<T>)
    requires Distinct(order1) && Distinct(order2) && Elems(order1) == Elems(order2)
    ensures KindsAlong(order1, live, expired) == KindsAlong(order2, live, expired)
  {
    KindsAlongIsKindsOf(order1, live, expired);
    KindsAlongIsKindsOf(order2, live, expired);
  }

  /** Every visited key is of exactly one kind. */
  lemma KindsOfTotal<T>(done: set<T>, live: set<T>, expired: set<T>)
    ensures KindsOf(done, live, expired).Total() == |done|
  {
    var a, b, c := done * live, (done - live) * expired, done - live - expired;
    assert done == a + b + c;
    assert a !! b && a !! c && b !! c;
    assert |a + b| == |a| + |b|;
  }
}
