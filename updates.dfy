/** What a run of value updates does to one entry. Because setValue applies an
    update only when its time is strictly newer, the entry ends with the value
    of the newest update, and when the update times are distinct the order in
    which the updates arrive makes no difference. */
module Updates {
  import opened Wrappers
  import opened Entries

  /** One call of setValue: the value and the time it was made at. */
  datatype Update<V> = Update(value: Nullable<V>, time: int)

  /** The entry after the updates, applied from first to last. */
  function UpdatedAll<V>(d: EntryData<V>, ups: seq<Update<V>>): EntryData<V>
    decreases |ups|
  {
    if ups == [] then d else UpdatedAll(Updated(d, ups[0].value, ups[0].time), ups[1..])
  }

  /** The greatest time among the updates. */
  function Newest<V>(ups: seq<Update<V>>): (t: int)
    requires ups != []
    ensures forall i :: 0 <= i < |ups| ==> ups[i].time <= t
    ensures exists i :: 0 <= i < |ups| && ups[i].time == t
    decreases |ups|
  {
    if |ups| == 1 then ups[0].time
    else
      var rest := Newest(ups[1..]);
      assert forall i :: 1 <= i < |ups| ==> ups[i] == ups[1..][i - 1];
      if ups[0].time < rest then rest else ups[0].time
  }

  predicate DistinctTimes<V>(ups: seq<Update<V>>) {
    forall i, j :: 0 <= i < j < |ups| ==> ups[i].time != ups[j].time
  }

  /** Only the value and the last update time move; the last update time ends
      at the newest of the old time and the update times; the value is the
      old one unless some update is newer, and then it is the value of the
      first update that carries the newest time. */
  lemma {:induction false} UpdatesKeepNewest<V>(d: EntryData<V>, ups: seq<Update<V>>)
    ensures UpdatedAll(d, ups).(value := d.value, lastUpdatedTime := d.lastUpdatedTime) == d
    ensures UpdatedAll(d, ups).lastUpdatedTime == if ups == [] then d.lastUpdatedTime else Max(d.lastUpdatedTime, Newest(ups))
    ensures ups == [] || Newest(ups) <= d.lastUpdatedTime ==> UpdatedAll(d, ups).value == d.value
    ensures ups != [] && Newest(ups) > d.lastUpdatedTime ==>
              exists i :: 0 <= i < |ups| && ups[i].time == Newest(ups) && UpdatedAll(d, ups).value == ups[i].value
                          && forall j :: 0 <= j < i ==> ups[j].time < Newest(ups)
    decreases |ups|
  {
    if ups != [] {
      var d' := Updated(d, ups[0].value, ups[0].time);
      var rest := ups[1..];
      UpdatesKeepNewest(d', rest);
      assert UpdatedAll(d, ups) == UpdatedAll(d', rest);
      if rest == [] {
        assert Newest(ups) == ups[0].time;
      } else {
        assert forall i :: 1 <= i < |ups| ==> ups[i] == rest[i - 1];
        assert Newest(ups) == Max(ups[0].time, Newest(rest));
        if Newest(ups) > d.lastUpdatedTime {
          if ups[0].time == Newest(ups) {
            // the first update wins: later updates are not strictly newer
            assert UpdatedAll(d, ups).value == ups[0].value;
          } else {
            var i :| 0 <= i < |rest| && rest[i].time == Newest(rest) && UpdatedAll(d', rest).value == rest[i].value
                     && forall j :: 0 <= j < i ==> rest[j].time < Newest(rest);
            assert ups[i + 1] == rest[i];
            assert forall j :: 0 <= j < i + 1 ==> ups[j].time < Newest(ups) by {
              forall j | 0 <= j < i + 1 ensures ups[j].time < Newest(ups) {
                if j > 0 { assert ups[j] == rest[j - 1]; }
              }
            }
          }
        }
      }
    }
  }

  /** Two arrival orders of the same updates share their newest time. */
  lemma SameNewest<V>(ups1: seq<Update<V>>, ups2: seq<Update<V>>)
    requires multiset(ups1) == multiset(ups2) && ups1 != []
    ensures ups2 != [] && Newest(ups1) == Newest(ups2)
  {
    assert ups2 != [] by { assert |ups2| == |multiset(ups2)| == |multiset(ups1)| == |ups1|; }
    var n1, n2 := Newest(ups1), Newest(ups2);
    var a :| 0 <= a < |ups1| && ups1[a].time == n1;
    var b :| 0 <= b < |ups2| && ups2[b].time == n2;
    assert ups1[a] in multiset(ups2);
    var a2 :| 0 <= a2 < |ups2| && ups2[a2] == ups1[a];
    assert ups2[b] in multiset(ups1);
    var b1 :| 0 <= b1 < |ups1| && ups1[b1] == ups2[b];
  }

  /** Update order does not matter: two arrival orders of the same updates
      with pairwise distinct times leave the entry in the same state. */
  lemma {:induction false} UpdateOrderIrrelevant<V>(d: EntryData<V>, ups1: seq<Update<V>>, ups2: seq<Update<V>>)
    requires multiset(ups1) == multiset(ups2)
    requires DistinctTimes(ups1) && DistinctTimes(ups2)
    ensures UpdatedAll(d, ups1) == UpdatedAll(d, ups2)
  {
    UpdatesKeepNewest(d, ups1);
    UpdatesKeepNewest(d, ups2);
    if ups1 != [] {
      SameNewest(ups1, ups2);
      var n := Newest(ups1);
      if n > d.lastUpdatedTime {
        assert UpdatedAll(d, ups1).value == UpdatedAll(d, ups2).value by {
          var i :| 0 <= i < |ups1| && ups1[i].time == n && UpdatedAll(d, ups1).value == ups1[i].value
                   && forall j :: 0 <= j < i ==> ups1[j].time < n;
          var k :| 0 <= k < |ups2| && ups2[k].time == n && UpdatedAll(d, ups2).value == ups2[k].value
                   && forall j :: 0 <= j < k ==> ups2[j].time < n;
          // the update carrying the newest time is unique in each order
          assert ups1[i] in multiset(ups2);
          var i2 :| 0 <= i2 < |ups2| && ups2[i2] == ups1[i];
          assert i2 == k;
        }
      }
    }
  }

  /** The example of a late update: once an update at time t is applied, an
      update at a time no later than t leaves the entry unchanged. */
  lemma LateUpdateDiscarded<V>(d: EntryData<V>, v1: Nullable<V>, t1: int, v2: Nullable<V>, t2: int)
    requires t2 <= t1
    ensures UpdatedAll(d, [Update(v1, t1), Update(v2, t2)]) == Updated(d, v1, t1)
  {
    var ups := [Update(v1, t1), Update(v2, t2)];
    var d1 := Updated(d, v1, t1);
    assert ups[1..] == [Update(v2, t2)];
    assert [Update(v2, t2)][1..] == [];
    assert UpdatedAll(d, ups) == UpdatedAll(d1, [Update(v2, t2)]);
    assert UpdatedAll(d1, [Update(v2, t2)]) == UpdatedAll(Updated(d1, v2, t2), []);
    assert Updated(d1, v2, t2) == d1;
  }
}
