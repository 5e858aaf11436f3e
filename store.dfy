/** The date-keyed table behind every source (Resource in resource.py) and the
    generic incremental-update policy (Updatable.update).

    A table is modelled as a map from keys to column values. A key is the Date
    column (an epoch day) plus, for tables declared with a wider uniqueness
    constraint, the other key columns: Resource uses PRIMARY KEY (Date), so
    its keys carry the unit value; DailyResource uses UNIQUE (Date, CONTRACT),
    so its keys carry the contract name. Both conflict clauses are IGNORE: a
    row whose key is already stored is dropped, so the first write wins. */
module Store {
  import opened Common

  datatype Key<T> = Key(date: int, part: T)

  datatype Row<T, V> = Row(key: Key<T>, values: V)

  /** A data frame: rows in position order. */
  type Frame<T, V> = seq<Row<T, V>>

  function KeysOf<T(==), V>(frame: Frame<T, V>): set<Key<T>>
  {
    set i | 0 <= i < |frame| :: frame[i].key
  }

  function DatesOf<T(==)>(keys: set<Key<T>>): set<int>
  {
    set k | k in keys :: k.date
  }

  predicate SortedByDate<T, V>(frame: Frame<T, V>)
  {
    forall i, j :: 0 <= i < j < |frame| ==> frame[i].key.date <= frame[j].key.date
  }

  predicate DistinctKeys<T(==), V>(frame: Frame<T, V>)
  {
    forall i, j :: 0 <= i < j < |frame| ==> frame[i].key != frame[j].key
  }

  /** Date >= begin AND Date <= end, an absent bound leaving that side open. */
  predicate InBounds(date: int, begin: Option<int>, end: Option<int>)
  {
    (begin.None? || begin.value <= date) && (end.None? || date <= end.value)
  }

  ghost predicate IsLeast(m: int, s: set<int>)
  {
    m in s && forall x :: x in s ==> m <= x
  }

  ghost predicate IsGreatest(m: int, s: set<int>)
  {
    m in s && forall x :: x in s ==> x <= m
  }

  lemma HasElement(s: set<int>)
    requires s != {}
    ensures exists x :: x in s
  {
    if forall x :: x !in s {
      assert false;
    }
  }

  lemma {:induction false} HasExtremes(s: set<int>)
    requires s != {}
    ensures exists m :: IsLeast(m, s)
    ensures exists m :: IsGreatest(m, s)
    decreases |s|
  {
    HasElement(s);
    var x :| x in s;
    if s != {x} {
      var rest := s - {x};
      assert forall y :: y in s ==> y == x || y in rest;
      HasExtremes(rest);
      var lo :| IsLeast(lo, rest);
      var hi :| IsGreatest(hi, rest);
      assert IsLeast(Min(x, lo), s);
      assert IsGreatest(Max(x, hi), s);
    } else {
      assert IsLeast(x, s) && IsGreatest(x, s);
    }
  }

  /** SQL MIN(Date) over a non-empty table. */
  ghost function Least(s: set<int>): (m: int)
    requires s != {}
    ensures IsLeast(m, s)
  {
    HasExtremes(s);
    var m :| IsLeast(m, s); m
  }

  /** SQL MAX(Date) over a non-empty table. */
  ghost function Greatest(s: set<int>): (m: int)
    requires s != {}
    ensures IsGreatest(m, s)
  {
    HasExtremes(s);
    var m :| IsGreatest(m, s); m
  }

  /** What Resource.range() reports for a table: (MIN(Date), MAX(Date)), or
      (None, None) when the table is empty. */
  ghost function RangeOf<T, V>(rows: map<Key<T>, V>): (r: DateRange)
    ensures r.first.None? <==> rows == map[]
    ensures r.first.None? <==> r.last.None?
  {
    var dates := DatesOf(rows.Keys);
    if rows == map[] then NoRange
    else
      var k :| k in rows;
      assert k.date in dates;
      DateRange(Some(Least(dates)), Some(Greatest(dates)))
  }

  /** Writing a frame row by row into a table whose conflict clause is IGNORE. */
  function InsertAll<T(==), V>(rows: map<Key<T>, V>, frame: Frame<T, V>): (r: map<Key<T>, V>)
    ensures r.Keys == rows.Keys + KeysOf(frame)
    ensures forall k :: k in rows ==> r[k] == rows[k]
    ensures forall i :: 0 <= i < |frame| && frame[i].key !in rows
              && (forall j :: 0 <= j < i ==> frame[j].key != frame[i].key)
              ==> r[frame[i].key] == frame[i].values
    decreases |frame|
  {
    if frame == [] then rows
    else
      var head := frame[0];
      var next := if head.key in rows then rows else rows[head.key := head.values];
      var r := InsertAll(next, frame[1..]);
      assert KeysOf(frame) == {head.key} + KeysOf(frame[1..]) by {
        forall k | k in KeysOf(frame) ensures k in {head.key} + KeysOf(frame[1..]) {
          var i :| 0 <= i < |frame| && frame[i].key == k;
          if i > 0 { assert frame[1..][i - 1].key == k; }
        }
      }
      assert forall i :: 1 <= i < |frame| ==> frame[1..][i - 1] == frame[i];
      r
  }

  /** get_range: the Date of the first and of the last row by position, or
      (None, None) for an empty frame. */
  function GetRange<T, V>(frame: Frame<T, V>): (r: DateRange)
    ensures r == NoRange <==> frame == []
    ensures frame != [] ==> r.first == Some(frame[0].key.date) && r.last == Some(frame[|frame| - 1].key.date)
  {
    if frame == [] then NoRange
    else DateRange(Some(frame[0].key.date), Some(frame[|frame| - 1].key.date))
  }

  /** get_range is by position, not by value: on a frame sorted by date it
      coincides with (MIN(Date), MAX(Date)) of the frame. */
  lemma GetRangeOfSorted<T, V>(frame: Frame<T, V>)
    requires frame != [] && SortedByDate(frame)
    ensures IsLeast(GetRange(frame).first.value, DatesOf(KeysOf(frame)))
    ensures IsGreatest(GetRange(frame).last.value, DatesOf(KeysOf(frame)))
  {
    var dates := DatesOf(KeysOf(frame));
    assert frame[0].key in KeysOf(frame);
    assert frame[|frame| - 1].key in KeysOf(frame);
    forall d | d in dates ensures frame[0].key.date <= d <= frame[|frame| - 1].key.date {
      var k :| k in KeysOf(frame) && k.date == d;
      var i :| 0 <= i < |frame| && frame[i].key == k;
    }
  }

  /** What Updatable.update decides to do from the stored range. */
  datatype Action = InitialFill | NoOp | Fill(first: int, last: int)

  /** The decision of Updatable.update: fetch everything when nothing is
      stored, nothing when the last stored date is today, and otherwise the
      window from the day after the last stored date to today (even when that
      window is empty because the last stored date lies after today). */
  function Plan(stored: DateRange, today: int): (a: Action)
    requires stored.first.None? <==> stored.last.None?
    ensures a.InitialFill? <==> stored.first.None?
    ensures a.NoOp? <==> stored.last == Some(today)
    ensures a.Fill? ==> a.first == stored.last.value + 1 && a.last == today
  {
    if stored.first.Some? then
      if stored.last.value != today then Fill(stored.last.value + 1, today) else NoOp
    else InitialFill
  }

  /** write_update(info) followed by get_range(info); a fetch that raised
      writes nothing and propagates. */
  ghost function Written<T, V>(rows: map<Key<T>, V>, fetched: Result<Frame<T, V>>): (map<Key<T>, V>, Result<DateRange>)
  {
    match fetched
    case Raised(e) => (rows, Raised(e))
    case Ok(frame) => (InsertAll(rows, frame), Ok(GetRange(frame)))
  }

  /** One Updatable.update on a table: the new table and what update returns.
      `initial` is what initial_fill() gives, `fill` what fill(first, last) gives. */
  ghost function Step<T, V>(rows: map<Key<T>, V>, today: int, initial: Result<Frame<T, V>>,
                            fill: (int, int) -> Result<Frame<T, V>>): (map<Key<T>, V>, Result<DateRange>)
  {
    match Plan(RangeOf(rows), today)
    case NoOp => (rows, Ok(NoRange))
    case InitialFill => Written(rows, initial)
    case Fill(first, last) => Written(rows, fill(first, last))
  }

  lemma DatesOfUnion<T>(a: set<Key<T>>, b: set<Key<T>>)
    ensures DatesOf(a + b) == DatesOf(a) + DatesOf(b)
  {
    forall d | d in DatesOf(a + b) ensures d in DatesOf(a) + DatesOf(b) {
      var k :| k in a + b && k.date == d;
      if k in a { assert d in DatesOf(a); } else { assert d in DatesOf(b); }
    }
  }

  /** A table at its current day is left alone: update is a no-op that returns
      (None, None), and so is every later update on the same day. */
  lemma StepIdempotentOnToday<T, V>(rows: map<Key<T>, V>, today: int, initial: Result<Frame<T, V>>,
                                    fill: (int, int) -> Result<Frame<T, V>>)
    requires RangeOf(rows).last == Some(today)
    ensures Step(rows, today, initial, fill) == (rows, Ok(NoRange))
    ensures Step(Step(rows, today, initial, fill).0, today, initial, fill) == (rows, Ok(NoRange))
  {
  }

  /** An update never removes or changes a stored row: first write wins. */
  lemma StepKeepsStoredRows<T, V>(rows: map<Key<T>, V>, today: int, initial: Result<Frame<T, V>>,
                                  fill: (int, int) -> Result<Frame<T, V>>)
    ensures var after := Step(rows, today, initial, fill).0;
      rows.Keys <= after.Keys && forall k :: k in rows ==> after[k] == rows[k]
  {
  }

  /** Range monotonicity: the stored first date never increases and the
      stored last date never decreases. */
  lemma StepRangeGrows<T, V>(rows: map<Key<T>, V>, today: int, initial: Result<Frame<T, V>>,
                             fill: (int, int) -> Result<Frame<T, V>>)
    requires rows != map[]
    ensures var after := RangeOf(Step(rows, today, initial, fill).0);
      && after.first.Some? && after.last.Some?
      && after.first.value <= RangeOf(rows).first.value
      && RangeOf(rows).last.value <= after.last.value
  {
    var after := Step(rows, today, initial, fill).0;
    StepKeepsStoredRows(rows, today, initial, fill);
    var before := DatesOf(rows.Keys);
    var now := DatesOf(after.Keys);
    assert before <= now;
    assert RangeOf(rows).first.value in now;
    assert RangeOf(rows).last.value in now;
  }

  /** The window an update fetches never overlaps the stored dates: every
      stored date lies before its first day. */
  lemma StepFillWindowIsNew<T, V>(rows: map<Key<T>, V>, today: int)
    requires Plan(RangeOf(rows), today).Fill?
    ensures forall k :: k in rows ==> k.date < Plan(RangeOf(rows), today).first
  {
    forall k | k in rows ensures k.date < Plan(RangeOf(rows), today).first {
      assert k.date in DatesOf(rows.Keys);
    }
  }

  /** An empty table takes exactly the rows initial_fill returns, and its
      range becomes the span of their dates. */
  lemma StepInitial<T, V>(rows: map<Key<T>, V>, today: int, frame: Frame<T, V>,
                          fill: (int, int) -> Result<Frame<T, V>>)
    requires rows == map[] && frame != []
    ensures var (after, out) := Step(rows, today, Ok(frame), fill);
      && after.Keys == KeysOf(frame)
      && out == Ok(GetRange(frame))
      && IsLeast(RangeOf(after).first.value, DatesOf(KeysOf(frame)))
      && IsGreatest(RangeOf(after).last.value, DatesOf(KeysOf(frame)))
  {
    var after := InsertAll(rows, frame);
    assert frame[0].key in after;
  }

  /** After an initial fill whose latest date is today, the next update on the
      same day fetches nothing. */
  lemma InitialThenSameDay<T, V>(frame: Frame<T, V>, today: int, fill: (int, int) -> Result<Frame<T, V>>)
    requires frame != [] && IsGreatest(today, DatesOf(KeysOf(frame)))
    ensures var after := Step(map[], today, Ok(frame), fill).0;
      Step(after, today, Ok(frame), fill) == (after, Ok(NoRange))
  {
    StepInitial(map[], today, frame, fill);
  }

  /** An incremental update whose fetched rows all lie in the requested window
      adds exactly those rows and keeps every old one: the stored key set
      grows by the fetched keys, which are all new. */
  lemma StepFillAddsFetchedRows<T, V>(rows: map<Key<T>, V>, today: int, initial: Result<Frame<T, V>>,
                                      fill: (int, int) -> Result<Frame<T, V>>, frame: Frame<T, V>)
    requires Plan(RangeOf(rows), today).Fill?
    requires var a := Plan(RangeOf(rows), today); fill(a.first, a.last) == Ok(frame)
    requires var a := Plan(RangeOf(rows), today);
      forall i :: 0 <= i < |frame| ==> a.first <= frame[i].key.date <= a.last
    ensures var after := Step(rows, today, initial, fill).0;
      && after.Keys == rows.Keys + KeysOf(frame)
      && rows.Keys !! KeysOf(frame)
      && |after.Keys| == |rows.Keys| + |KeysOf(frame)|
  {
    StepFillWindowIsNew(rows, today);
    forall k | k in KeysOf(frame) ensures k !in rows {
      var i :| 0 <= i < |frame| && frame[i].key == k;
    }
  }

  /** Frames of a date-only key (PRIMARY KEY (Date)) with distinct keys that
      are sorted by date are strictly increasing in date. */
  lemma DateOnlyKeysStrictlyIncrease<V>(frame: Frame<(), V>)
    requires SortedByDate(frame) && DistinctKeys(frame)
    ensures forall i, j :: 0 <= i < j < |frame| ==> frame[i].key.date < frame[j].key.date
  {
    forall i, j | 0 <= i < j < |frame| ensures frame[i].key.date < frame[j].key.date {
      assert frame[i].key.part == frame[j].key.part;
    }
  }

  /** A stored table of one source. */
  class Resource<T(==), V> {
    var rows: map<Key<T>, V>

    /** Opening a table (CREATE TABLE IF NOT EXISTS): whatever it already holds stays. */
    constructor (existing: map<Key<T>, V>)
      ensures rows == existing
    {
      rows := existing;
    }

    /** range(): (MIN(Date), MAX(Date)) of the stored rows, (None, None) when empty. */
    method Range() returns (r: DateRange)
      ensures r == RangeOf(rows)
    {
      var pending := rows.Keys;
      var lo, hi := 0, 0;
      var seen := false;
      while pending != {}
        invariant pending <= rows.Keys
        invariant seen <==> pending != rows.Keys
        invariant seen ==> IsLeast(lo, DatesOf(rows.Keys - pending)) && IsGreatest(hi, DatesOf(rows.Keys - pending))
        decreases pending
      {
        var k :| k in pending;
        ghost var done := rows.Keys - pending;
        DatesOfUnion(done, {k});
        assert DatesOf({k}) == {k.date};
        assert rows.Keys - (pending - {k}) == done + {k};
        if !seen || k.date < lo { lo := k.date; }
        if !seen || k.date > hi { hi := k.date; }
        seen := true;
        pending := pending - {k};
      }
      if seen {
        assert rows.Keys - pending == rows.Keys;
        r := DateRange(Some(lo), Some(hi));
      } else {
        r := NoRange;
      }
    }

    /** write_df: insert the frame row by row; a row whose key is already
        stored (or appeared earlier in the frame) is ignored. */
    method Write(frame: Frame<T, V>)
      modifies this
      ensures rows == InsertAll(old(rows), frame)
    {
      var i := 0;
      while i < |frame|
        invariant 0 <= i <= |frame|
        invariant InsertAll(rows, frame[i..]) == InsertAll(old(rows), frame)
      {
        var row := frame[i];
        assert frame[i..][1..] == frame[i + 1..];
        if row.key !in rows {
          rows := rows[row.key := row.values];
        }
        i := i + 1;
      }
    }

    /** The stored rows whose key satisfies `keep`, sorted by date (read_df
        with the Date index sorted). */
    method Select(keep: Key<T> -> bool) returns (frame: Frame<T, V>)
      ensures SortedByDate(frame) && DistinctKeys(frame)
      ensures forall i :: 0 <= i < |frame| ==> frame[i].key in rows && frame[i].values == rows[frame[i].key]
      ensures KeysOf(frame) == set k | k in rows && keep(k)
    {
      var pending := set k | k in rows && keep(k);
      frame := [];
      while pending != {}
        invariant pending <= rows.Keys
        invariant KeysOf(frame) !! pending
        invariant KeysOf(frame) + pending == set k | k in rows && keep(k)
        invariant SortedByDate(frame) && DistinctKeys(frame)
        invariant forall i :: 0 <= i < |frame| ==> frame[i].key in rows && frame[i].values == rows[frame[i].key]
        invariant forall i, k :: 0 <= i < |frame| && k in pending ==> frame[i].key.date <= k.date
        decreases pending
      {
        var k := Earliest(pending);
        ghost var before := frame;
        frame := frame + [Row(k, rows[k])];
        assert KeysOf(frame) == KeysOf(before) + {k} by {
          forall x | x in KeysOf(frame) ensures x in KeysOf(before) + {k} {
            var i :| 0 <= i < |frame| && frame[i].key == x;
            if i < |before| { assert before[i].key == x; }
          }
          forall x | x in KeysOf(before) ensures x in KeysOf(frame) {
            var i :| 0 <= i < |before| && before[i].key == x;
            assert frame[i].key == x;
          }
          assert frame[|before|].key == k;
        }
        pending := pending - {k};
      }
    }

    /** read_dates_ts(begin, end): the rows with begin <= Date <= end (an
        absent bound is open), sorted by date. */
    method ReadDates(begin: Option<int>, end: Option<int>) returns (frame: Frame<T, V>)
      ensures SortedByDate(frame) && DistinctKeys(frame)
      ensures forall i :: 0 <= i < |frame| ==> frame[i].key in rows && frame[i].values == rows[frame[i].key]
      ensures KeysOf(frame) == set k | k in rows && InBounds(k.date, begin, end)
    {
      frame := Select((k: Key<T>) => InBounds(k.date, begin, end));
    }

    /** Updatable.update: decide from the stored range what to fetch, write
        what was fetched, and return get_range of it; (None, None) without
        fetching or writing when the last stored date is today. */
    method Update(today: int, initial: Result<Frame<T, V>>, fill: (int, int) -> Result<Frame<T, V>>)
      returns (o: Result<DateRange>)
      modifies this
      ensures (rows, o) == Step(old(rows), today, initial, fill)
    {
      var stored := Range();
      var action := Plan(stored, today);
      if action.NoOp? {
        o := Ok(NoRange);
      } else {
        var fetched := if action.InitialFill? then initial else fill(action.first, action.last);
        if fetched.Raised? {
          o := Raised(fetched.error);
        } else {
          Write(fetched.value);
          o := Ok(GetRange(fetched.value));
        }
      }
    }
  }

  /** The stored key with the earliest date. */
  method Earliest<T(==)>(keys: set<Key<T>>) returns (k: Key<T>)
    requires keys != {}
    ensures k in keys && forall x :: x in keys ==> k.date <= x.date
  {
    k :| k in keys;
    var pending := keys - {k};
    while pending != {}
      invariant pending <= keys && k in keys
      invariant forall x :: x in keys - pending ==> k.date <= x.date
      decreases pending
    {
      var x :| x in pending;
      if x.date < k.date { k := x; }
      pending := pending - {x};
    }
  }

  /** get_flavor_atoms: the column names of a flavor's schema (default: no
      columns) when the flavor donates atoms (default: it does), else none. */
  function GetFlavorAtoms(schema: Option<seq<(string, string)>>, atomsDonor: Option<bool>): (atoms: seq<string>)
    ensures atomsDonor == Some(false) || schema.None? ==> atoms == []
    ensures atomsDonor != Some(false) && schema.Some? ==>
      |atoms| == |schema.value| && forall i :: 0 <= i < |atoms| ==> atoms[i] == schema.value[i].0
  {
    if atomsDonor.None? || atomsDonor.value then
      var columns := if schema.Some? then schema.value else [];
      seq(|columns|, i requires 0 <= i < |columns| => columns[i].0)
    else []
  }

  /** check_empty(f): f applied to a non-empty frame; an empty frame passes
      through untouched. */
  function CheckEmpty<T, V>(f: Frame<T, V> -> Frame<T, V>, frame: Frame<T, V>): (r: Frame<T, V>)
    ensures frame == [] ==> r == []
    ensures frame != [] ==> r == f(frame)
  {
    if frame == [] then frame else f(frame)
  }
}
