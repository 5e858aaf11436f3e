/** Updater.reduce_ranges: the component-wise (min, max) of a list of ranges,
    ignoring None components. */
module Ranges {
  import opened Common

  /** The non-None components of a column, in order (filter(None.__ne__, column)). */
  function Present(column: seq<Option<int>>): (r: seq<int>)
    ensures forall x :: x in r <==> Some(x) in column
    ensures |r| <= |column|
  {
    if column == [] then []
    else (if column[0].Some? then [column[0].value] else []) + Present(column[1..])
  }

  function Firsts(ranges: seq<DateRange>): (r: seq<Option<int>>)
    ensures |r| == |ranges| && forall i :: 0 <= i < |ranges| ==> r[i] == ranges[i].first
  {
    seq(|ranges|, i requires 0 <= i < |ranges| => ranges[i].first)
  }

  function Lasts(ranges: seq<DateRange>): (r: seq<Option<int>>)
    ensures |r| == |ranges| && forall i :: 0 <= i < |ranges| ==> r[i] == ranges[i].last
  {
    seq(|ranges|, i requires 0 <= i < |ranges| => ranges[i].last)
  }

  /** Python's min over a non-empty list. */
  function Smallest(s: seq<int>): (m: int)
    requires s != []
    ensures m in s && forall x :: x in s ==> m <= x
  {
    if |s| == 1 then s[0]
    else
      assert forall x :: x in s ==> x == s[0] || x in s[1..];
      Min(s[0], Smallest(s[1..]))
  }

  /** Python's max over a non-empty list. */
  function Largest(s: seq<int>): (m: int)
    requires s != []
    ensures m in s && forall x :: x in s ==> x <= m
  {
    if |s| == 1 then s[0]
    else
      assert forall x :: x in s ==> x == s[0] || x in s[1..];
      Max(s[0], Largest(s[1..]))
  }

  /** `f(l) if l else None`. */
  function SmallestOrNone(s: seq<int>): Option<int>
  {
    if s == [] then None else Some(Smallest(s))
  }

  function LargestOrNone(s: seq<int>): Option<int>
  {
    if s == [] then None else Some(Largest(s))
  }

  /** reduce_ranges: None stands for the empty list that zip(*[]) produces for
      an empty input; otherwise the pair [min of firsts, max of lasts]. */
  function ReduceRanges(ranges: seq<DateRange>): (r: Option<DateRange>)
    ensures r.None? <==> ranges == []
  {
    if ranges == [] then None
    else Some(DateRange(SmallestOrNone(Present(Firsts(ranges))), LargestOrNone(Present(Lasts(ranges)))))
  }

  /** The first component of the reduction is None exactly when every first
      component is None, and otherwise is the least of them. */
  lemma ReduceRangesFirst(ranges: seq<DateRange>)
    requires ranges != []
    ensures var r := ReduceRanges(ranges).value;
      && (r.first.None? <==> forall i :: 0 <= i < |ranges| ==> ranges[i].first.None?)
      && (r.first.Some? ==>
            (exists i :: 0 <= i < |ranges| && ranges[i].first == r.first)
            && forall i :: 0 <= i < |ranges| && ranges[i].first.Some? ==> r.first.value <= ranges[i].first.value)
  {
    var column := Firsts(ranges);
    var present := Present(column);
    if present == [] {
      forall i | 0 <= i < |ranges| ensures ranges[i].first.None? {
        assert column[i] == ranges[i].first;
      }
    } else {
      var m := Smallest(present);
      assert Some(m) in column;
      var k :| 0 <= k < |column| && column[k] == Some(m);
      assert ranges[k].first == Some(m);
      forall i | 0 <= i < |ranges| && ranges[i].first.Some?
        ensures m <= ranges[i].first.value
      {
        assert Some(ranges[i].first.value) in column;
      }
    }
  }

  /** The second component of the reduction is None exactly when every last
      component is None, and otherwise is the greatest of them. */
  lemma ReduceRangesLast(ranges: seq<DateRange>)
    requires ranges != []
    ensures var r := ReduceRanges(ranges).value;
      && (r.last.None? <==> forall i :: 0 <= i < |ranges| ==> ranges[i].last.None?)
      && (r.last.Some? ==>
            (exists i :: 0 <= i < |ranges| && ranges[i].last == r.last)
            && forall i :: 0 <= i < |ranges| && ranges[i].last.Some? ==> ranges[i].last.value <= r.last.value)
  {
    var column := Lasts(ranges);
    var present := Present(column);
    if present == [] {
      forall i | 0 <= i < |ranges| ensures ranges[i].last.None? {
        assert column[i] == ranges[i].last;
      }
    } else {
      var m := Largest(present);
      assert Some(m) in column;
      var k :| 0 <= k < |column| && column[k] == Some(m);
      assert ranges[k].last == Some(m);
      forall i | 0 <= i < |ranges| && ranges[i].last.Some?
        ensures ranges[i].last.value <= m
      {
        assert Some(ranges[i].last.value) in column;
      }
    }
  }
}
