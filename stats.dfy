/** The seven statistics counters of a cache. `Counters` is their value and the
    steps on it say what each counted event adds; `MStats` holds the counters
    in place. Every step keeps hits + misses == gets. */
module Statistics {
  import opened Wrappers

  datatype Counters = Counters(
    hits: int,
    misses: int,
    gets: int,
    puts: int,
    removals: int,
    evictions: int,
    expires: int)
  {
    /** Every get is either a hit or a miss. */
    predicate Balanced() { hits + misses == gets }

    /** The counters after `n` more evictions, which are counted whether or
        not statistics are enabled. */
    function Evicted(n: int): (r: Counters)
      ensures r.evictions == evictions + n && r.Balanced() == Balanced()
    {
      this.(evictions := evictions + n)
    }

    /** The counters after the events counted in `d` (componentwise sum). */
    function Add(d: Counters): (r: Counters)
      ensures Balanced() && d.Balanced() ==> r.Balanced()
    {
      Counters(hits + d.hits, misses + d.misses, gets + d.gets, puts + d.puts,
               removals + d.removals, evictions + d.evictions, expires + d.expires)
    }
  }

  /** The counted events of one step: each hit and each miss is also a get. */
  function Events(hits: nat := 0, misses: nat := 0, puts: nat := 0, removals: nat := 0,
                  evictions: nat := 0, expires: nat := 0): Counters
  {
    Counters(hits, misses, hits + misses, puts, removals, evictions, expires)
  }

  /** Adding counted events step by step is adding their sum. */
  lemma AddAssociative(c: Counters, d1: Counters, d2: Counters)
    ensures c.Add(d1).Add(d2) == c.Add(d1.Add(d2))
  {
  }

  const Zero := Counters(0, 0, 0, 0, 0, 0, 0)

  /** Counting no events changes nothing. */
  lemma AddZero(c: Counters)
    ensures c.Add(Zero) == c
  {
  }

  /** Java's `/` on two longs: the quotient truncated toward zero. */
  function JavaDiv(a: int, b: int): int
    requires b != 0
  {
    if a >= 0 && b > 0 then a / b
    else if a < 0 && b < 0 then (-a) / (-b)
    else if a < 0 then -((-a) / b)
    else -(a / (-b))
  }

  /** The hit percentage as the statistics object computes it: the two long
      counters are divided before scaling by 100, and with no gets the long
      division throws (None). */
  function HitPercentageAsWritten(c: Counters): (r: Option<int>)
    ensures r.None? <==> c.gets == 0
  {
    if c.gets == 0 then None else Some(JavaDiv(c.hits, c.gets) * 100)
  }

  /** The miss percentage as the statistics object computes it. */
  function MissPercentageAsWritten(c: Counters): (r: Option<int>)
    ensures r.None? <==> c.gets == 0
  {
    if c.gets == 0 then None else Some(JavaDiv(c.misses, c.gets) * 100)
  }

  /** As computed, a percentage is all or nothing: 100 when every get was a
      hit (a miss), 0 otherwise, whatever the proportion in between. */
  lemma {:induction false} AsWrittenAllOrNothing(c: Counters)
    requires c.Balanced() && c.hits >= 0 && c.misses >= 0 && c.gets > 0
    ensures HitPercentageAsWritten(c) == Some(if c.hits == c.gets then 100 else 0)
    ensures MissPercentageAsWritten(c) == Some(if c.misses == c.gets then 100 else 0)
  {
    QuotientOfPart(c.hits, c.gets);
    QuotientOfPart(c.misses, c.gets);
  }

  lemma {:induction false} QuotientOfPart(a: int, b: int)
    requires 0 <= a <= b && b > 0
    ensures a / b == if a == b then 1 else 0
  {
    if a < b {
      assert a == 0 * b + a;
    } else {
      assert a == 1 * b + 0;
    }
  }

  /** One hit in two gets reads as 0 percent instead of 50. */
  lemma HalfHitsReadAsZero()
    ensures HitPercentageAsWritten(Counters(1, 1, 2, 0, 0, 0, 0)) == Some(0)
    ensures HitPercentage(Counters(1, 1, 2, 0, 0, 0, 0)) == Some(50.0)
  {
  }

  /** The hit percentage as intended: the share of gets that were hits, in
      percent; undefined (None) when nothing was got. */
  function HitPercentage(c: Counters): (r: Option<real>)
    ensures r.None? <==> c.gets == 0
    ensures r.Some? ==> r.value * (c.gets as real) == (c.hits as real) * 100.0
  {
    if c.gets == 0 then None else Some((c.hits as real) * 100.0 / (c.gets as real))
  }

  /** The miss percentage as intended. */
  function MissPercentage(c: Counters): (r: Option<real>)
    ensures r.None? <==> c.gets == 0
    ensures r.Some? ==> r.value * (c.gets as real) == (c.misses as real) * 100.0
  {
    if c.gets == 0 then None else Some((c.misses as real) * 100.0 / (c.gets as real))
  }

  /** With balanced, non-negative counters the two percentages lie between 0
      and 100 and add up to 100. */
  lemma {:induction false} PercentagesComplement(c: Counters)
    requires c.Balanced() && c.hits >= 0 && c.misses >= 0 && c.gets > 0
    ensures 0.0 <= HitPercentage(c).value <= 100.0
    ensures 0.0 <= MissPercentage(c).value <= 100.0
    ensures HitPercentage(c).value + MissPercentage(c).value == 100.0
  {
    var g, x, y := c.gets as real, c.hits as real, c.misses as real;
    assert x + y == g;
    assert x * 100.0 / g + y * 100.0 / g == (x + y) * 100.0 / g;
  }

  class MStats {
    var hits: int
    var misses: int
    var gets: int
    var puts: int
    var removals: int
    var evictions: int
    var expires: int

    function Counts(): Counters
      reads this
    {
      Counters(hits, misses, gets, puts, removals, evictions, expires)
    }

    constructor ()
      ensures Counts() == Zero
    {
      hits, misses, gets := 0, 0, 0;
      puts, removals, evictions, expires := 0, 0, 0, 0;
    }

    /** clear: every counter back to zero. */
    method Clear()
      modifies this
      ensures Counts() == Zero && Counts().Balanced()
    {
      hits := 0;
      misses := 0;
      gets := 0;
      puts := 0;
      removals := 0;
      evictions := 0;
      expires := 0;
    }

    /** The counting the source writes inline at each hit: gets and hits. */
    method CountHit()
      modifies this
      ensures Counts() == old(Counts()).Add(Events(hits := 1))
    {
      gets := gets + 1;
      hits := hits + 1;
    }

    /** The counting the source writes inline at each miss: gets and misses. */
    method CountMiss()
      modifies this
      ensures Counts() == old(Counts()).Add(Events(misses := 1))
    {
      gets := gets + 1;
      misses := misses + 1;
    }

    method CountPut()
      modifies this
      ensures Counts() == old(Counts()).Add(Events(puts := 1))
    {
      puts := puts + 1;
    }

    method CountRemoval()
      modifies this
      ensures Counts() == old(Counts()).Add(Events(removals := 1))
    {
      removals := removals + 1;
    }

    method CountBulkRemoval(entries: nat)
      modifies this
      ensures Counts() == old(Counts()).Add(Events(removals := entries))
    {
      removals := removals + entries;
    }

    method CountExpire()
      modifies this
      ensures Counts() == old(Counts()).Add(Events(expires := 1))
    {
      expires := expires + 1;
    }

    method CountEviction()
      modifies this`evictions
      ensures Counts() == old(Counts()).Add(Events(evictions := 1))
    {
      evictions := evictions + 1;
    }
  }
}
