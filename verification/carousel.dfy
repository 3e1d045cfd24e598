/**
 The project slider: the "next" button moves the first slide item to the end
 of the slide, the "prev" button moves the last item to the front. On the
 sequence of slide items these are a left and a right rotation by one.
 */
module Carousel {

  /** The "next" button: the first item is appended at the end. */
  function Next<T>(items: seq<T>): (r: seq<T>)
    requires |items| > 0
    ensures |r| == |items|
    ensures multiset(r) == multiset(items)
    ensures r[|r| - 1] == items[0]
    ensures forall i :: 0 <= i < |r| - 1 ==> r[i] == items[i + 1]
  {
    assert items == [items[0]] + items[1..];
    items[1..] + [items[0]]
  }

  /** The "prev" button: the last item is prepended at the front. */
  function Prev<T>(items: seq<T>): (r: seq<T>)
    requires |items| > 0
    ensures |r| == |items|
    ensures multiset(r) == multiset(items)
    ensures r[0] == items[|items| - 1]
    ensures forall i :: 0 < i < |r| ==> r[i] == items[i - 1]
  {
    var last := |items| - 1;
    assert items == items[..last] + [items[last]];
    [items[last]] + items[..last]
  }

  /** "prev" undoes "next". */
  lemma PrevAfterNext<T>(items: seq<T>)
    requires |items| > 0
    ensures Prev(Next(items)) == items
  {
  }

  /** "next" undoes "prev". */
  lemma NextAfterPrev<T>(items: seq<T>)
    requires |items| > 0
    ensures Next(Prev(items)) == items
  {
  }

  /** Pressing "next" k times. */
  function NextTimes<T>(items: seq<T>, k: nat): (r: seq<T>)
    requires |items| > 0
    ensures |r| == |items|
    ensures multiset(r) == multiset(items)
  {
    if k == 0 then items else Next(NextTimes(items, k - 1))
  }

  /** After k presses of "next" (k at most the item count) the first k items
      have moved, in order, behind the others. */
  lemma {:induction false} NextTimesRotates<T>(items: seq<T>, k: nat)
    requires 0 < |items| && k <= |items|
    ensures NextTimes(items, k) == items[k..] + items[..k]
  {
    if k > 0 {
      NextTimesRotates(items, k - 1);
      var prev := items[k - 1..] + items[..k - 1];
      assert prev[0] == items[k - 1];
      assert prev[1..] == items[k..] + items[..k - 1];
      assert items[..k] == items[..k - 1] + [items[k - 1]];
    }
  }

  /** Pressing "next" once per item brings the slide back to where it started. */
  lemma FullCycleIsIdentity<T>(items: seq<T>)
    requires |items| > 0
    ensures NextTimes(items, |items|) == items
  {
    NextTimesRotates(items, |items|);
    assert items[|items|..] + items[..|items|] == items;
  }
}
