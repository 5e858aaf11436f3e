/** The legacy CFTC/price downloader: the helpers `unique` and `get_dates`,
    and the two halves of `get_prices` that are pure logic: extending the
    cached price range only where the requested dates fall outside it, and
    aligning the cached prices onto the requested dates. Dates are epoch
    days; network fetches are callbacks. */
module Downloader {
  import opened Common

  /** `unique(l)`: every other element, starting with the first. */
  function Unique<T>(l: seq<T>): (r: seq<T>)
    ensures |r| == |l| / 2
    ensures forall i :: 0 <= i < |r| ==> r[i] == l[2 * i]
  {
    seq(|l| / 2, i requires 0 <= i < |l| / 2 => l[2 * i])
  }

  /** Each element twice in a row: how every match appears in the scraped
      pages. */
  function Doubled<T>(x: seq<T>): (r: seq<T>)
    ensures |r| == 2 * |x|
    ensures forall i :: 0 <= i < |x| ==> r[2 * i] == x[i] && r[2 * i + 1] == x[i]
  {
    if x == [] then [] else [x[0], x[0]] + Doubled(x[1..])
  }

  /** unique undoes the doubling. */
  lemma UniqueOfDoubled<T>(x: seq<T>)
    ensures Unique(Doubled(x)) == x
  {
  }

  /** 2005-01-04, as an epoch day. */
  const FirstDate: int := 12787

  /** `get_dates(last)`: every seventh day from FirstDate, up to but not
      including `last`. */
  function GetDates(last: int): (dates: seq<int>)
    ensures |dates| == if last <= FirstDate then 0 else (last - FirstDate + 6) / 7
    ensures forall i :: 0 <= i < |dates| ==> dates[i] == FirstDate + 7 * i
  {
    var count := if last <= FirstDate then 0 else (last - FirstDate + 6) / 7;
    seq(count, i requires 0 <= i < count => FirstDate + 7 * i)
  }

  /** The dates are exactly the days before `last` that are a whole number
      of weeks after FirstDate, ascending; none when last <= FirstDate. */
  lemma GetDatesProperties(last: int)
    ensures GetDates(last) == [] <==> last <= FirstDate
    ensures forall i, j :: 0 <= i < j < |GetDates(last)| ==> GetDates(last)[i] < GetDates(last)[j]
    ensures forall d :: d in GetDates(last) <==> FirstDate <= d < last && (d - FirstDate) % 7 == 0
  {
    var dates := GetDates(last);
    var count := |dates|;
    if last > FirstDate {
      assert 7 * count <= last - FirstDate + 6 < 7 * count + 7;
    }
    forall d | d in dates ensures FirstDate <= d < last && (d - FirstDate) % 7 == 0 {
      var i :| 0 <= i < count && dates[i] == d;
      assert d - FirstDate == 7 * i;
    }
    forall d | FirstDate <= d < last && (d - FirstDate) % 7 == 0 ensures d in dates {
      var i := (d - FirstDate) / 7;
      assert d - FirstDate == 7 * i;
      assert i < count;
      assert dates[i] == d;
    }
  }

  /** A price as scraped: digits with an optional fraction, never negative,
      so it can never be the -1 sentinel. */
  type Price = x: real | x >= 0.0

  /** One line of a price cache file: a date and its price. */
  datatype PriceLine = PriceLine(date: int, price: Price)

  /** A price cache file: the header `begin end` and the lines below it. */
  datatype PriceCache = PriceCache(begin: int, end: int, lines: seq<PriceLine>)

  /** A request to the price service for the days lo..hi. */
  datatype Window = Window(lo: int, hi: int)

  /** The windows to fetch so that a cache covering begin..end also covers
      first..last: the part before it, then the part after it. */
  function Missing(begin: int, end: int, first: int, last: int): seq<Window>
  {
    (if begin > first then [Window(first, begin - 1)] else [])
    + (if last > end then [Window(end + 1, last)] else [])
  }

  predicate Within(d: int, lo: int, hi: int)
  {
    lo <= d <= hi
  }

  /** The missing windows are empty exactly when the cache covers the
      request; they never overlap the cached range; and together with it
      they cover the new header range without gaps. */
  lemma MissingProperties(begin: int, end: int, first: int, last: int)
    requires begin <= end && first <= last
    ensures Missing(begin, end, first, last) == [] <==> begin <= first && last <= end
    ensures forall w :: w in Missing(begin, end, first, last) ==> w.lo <= w.hi && (w.hi < begin || end < w.lo)
    ensures forall d :: Within(d, Min(begin, first), Max(end, last)) <==>
      (Within(d, begin, end) || exists w :: w in Missing(begin, end, first, last) && Within(d, w.lo, w.hi))
  {
    var ws := Missing(begin, end, first, last);
    forall d | Within(d, Min(begin, first), Max(end, last))
      ensures Within(d, begin, end) || exists w :: w in ws && Within(d, w.lo, w.hi)
    {
      if d < begin {
        assert Window(first, begin - 1) in ws;
      } else if d > end {
        assert Window(end + 1, last) in ws;
      }
    }
  }

  /** The cache half of get_prices. With no cache (a new pair) the whole
      request is fetched and becomes the cache. Otherwise, when the request
      is not covered, the missing part before the cached range is fetched
      and prepended, the part after it fetched and appended, and the header
      widened; a covered request fetches nothing. `requested` lists the
      fetches made, in order; a fetch that raises ends the call. An empty
      request is an IndexError. */
  method ExtendCache(cached: Option<PriceCache>, dates: seq<int>, fetch: (int, int) -> Result<seq<PriceLine>>)
    returns (r: Result<PriceCache>, requested: seq<Window>)
    ensures dates == [] ==> r == Raised(Other) && requested == []
    ensures dates != [] && cached.None? ==> requested == [Window(dates[0], dates[|dates| - 1])]
    ensures dates != [] && cached.None? && r.Ok? ==>
      fetch(dates[0], dates[|dates| - 1]).Ok? &&
      r.value == PriceCache(dates[0], dates[|dates| - 1], fetch(dates[0], dates[|dates| - 1]).value)
    ensures dates != [] && cached.Some? ==>
      requested <= Missing(cached.value.begin, cached.value.end, dates[0], dates[|dates| - 1])
    ensures dates != [] && r.Raised? ==>
      requested != [] && fetch(requested[|requested| - 1].lo, requested[|requested| - 1].hi) == Raised(r.error)
    ensures forall i :: 0 <= i < |requested| - 1 ==> fetch(requested[i].lo, requested[i].hi).Ok?
    ensures r.Ok? ==> forall w :: w in requested ==> fetch(w.lo, w.hi).Ok?
    ensures dates != [] && cached.Some? && r.Ok? ==>
      var c := cached.value;
      var first, last := dates[0], dates[|dates| - 1];
      && requested == Missing(c.begin, c.end, first, last)
      && r.value == PriceCache(Min(c.begin, first), Max(c.end, last),
           (if c.begin > first then fetch(first, c.begin - 1).value else [])
           + c.lines
           + (if last > c.end then fetch(c.end + 1, last).value else []))
  {
    requested := [];
    if dates == [] {
      return Raised(Other), requested;
    }
    var first, last := dates[0], dates[|dates| - 1];
    if cached.None? {
      requested := [Window(first, last)];
      var got := fetch(first, last);
      if got.Raised? {
        return Raised(got.error), requested;
      }
      return Ok(PriceCache(first, last, got.value)), requested;
    }
    var begin, end := cached.value.begin, cached.value.end;
    var content: seq<PriceLine> := [];
    if begin > first || last > end {
      var body := cached.value.lines;
      if begin > first {
        requested := requested + [Window(first, begin - 1)];
        var got := fetch(first, begin - 1);
        if got.Raised? {
          return Raised(got.error), requested;
        }
        content := content + got.value;
        begin := first;
      }
      content := content + body;
      if last > end {
        requested := requested + [Window(end + 1, last)];
        var got := fetch(end + 1, last);
        if got.Raised? {
          return Raised(got.error), requested;
        }
        content := content + got.value;
        end := last;
      }
    } else {
      content := cached.value.lines;
    }
    return Ok(PriceCache(begin, end, content)), requested;
  }

  /** get_prices(dates, url): extend the price cache to the requested dates,
      read the prices dated within dates[0]..dates[-1] from its content, and
      align them to the dates. `cache` is the extended cache (or the failed
      fetch), `requested` the fetches made. */
  method GetPrices(cached: Option<PriceCache>, dates: seq<int>, fetch: (int, int) -> Result<seq<PriceLine>>)
    returns (r: Result<seq<real>>, cache: Result<PriceCache>, requested: seq<Window>)
    ensures dates == [] ==> r == Raised(Other) && requested == []
    ensures r.Ok? <==> cache.Ok?
    ensures cache.Raised? ==> r == Raised(cache.error)
    ensures cache.Ok? ==>
      dates != [] && r.value == Aligned(dates, PriceMap(cache.value.lines, dates[0], dates[|dates| - 1]), |dates|)
    ensures dates != [] && cached.None? && r.Ok? ==>
      var first, last := dates[0], dates[|dates| - 1];
      fetch(first, last).Ok? && r.value == Aligned(dates, PriceMap(fetch(first, last).value, first, last), |dates|)
    ensures dates != [] && cached.Some? && r.Ok? ==>
      var c := cached.value;
      var first, last := dates[0], dates[|dates| - 1];
      && requested == Missing(c.begin, c.end, first, last)
      && (c.begin > first ==> fetch(first, c.begin - 1).Ok?)
      && (last > c.end ==> fetch(c.end + 1, last).Ok?)
      && r.value == Aligned(dates, PriceMap(
           (if c.begin > first then fetch(first, c.begin - 1).value else [])
           + c.lines
           + (if last > c.end then fetch(c.end + 1, last).value else []), first, last), |dates|)
  {
    cache, requested := ExtendCache(cached, dates, fetch);
    if cache.Raised? {
      return Raised(cache.error), cache, requested;
    }
    var prices := BuildPriceMap(cache.value.lines, dates[0], dates[|dates| - 1]);
    var aligned := Align(dates, prices);
    r := Ok(aligned);
  }

  /** `date_price`: the price of every line dated within lo..hi, a later
      line for the same date overriding an earlier one. */
  function PriceMap(content: seq<PriceLine>, lo: int, hi: int): (m: map<int, Price>)
    ensures forall d :: d in m <==> lo <= d <= hi && exists i :: 0 <= i < |content| && content[i].date == d
    ensures forall i :: 0 <= i < |content| && lo <= content[i].date <= hi
              && (forall j :: i < j < |content| ==> content[j].date != content[i].date)
              ==> m[content[i].date] == content[i].price
  {
    if content == [] then map[]
    else
      var init := content[..|content| - 1];
      var line := content[|content| - 1];
      assert forall i :: 0 <= i < |init| ==> init[i] == content[i];
      var m := PriceMap(init, lo, hi);
      if lo <= line.date <= hi then m[line.date := line.price] else m
  }

  /** The loop that fills date_price. */
  method BuildPriceMap(content: seq<PriceLine>, lo: int, hi: int) returns (m: map<int, Price>)
    ensures m == PriceMap(content, lo, hi)
  {
    m := map[];
    for i := 0 to |content|
      invariant m == PriceMap(content[..i], lo, hi)
    {
      var line := content[i];
      if lo <= line.date && line.date <= hi {
        m := m[line.date := line.price];
      }
      assert content[..i + 1][..i] == content[..i];
    }
    assert content[..|content|] == content;
  }

  /** The index of the first of the first `len` dates that has a price
      (`len` when none has). */
  function FirstPriced(dates: seq<int>, prices: map<int, Price>, len: nat): (f: nat)
    requires len <= |dates|
    ensures f <= len
    ensures forall i :: 0 <= i < f ==> dates[i] !in prices
    ensures f < len ==> dates[f] in prices
  {
    if len == 0 then 0
    else
      var f := FirstPriced(dates, prices, len - 1);
      if f < len - 1 then f else if dates[len - 1] in prices then len - 1 else len
  }

  /** The index of the last date up to index n that has a price (-1 when
      none has). */
  function LatestPriced(dates: seq<int>, prices: map<int, Price>, n: int): (k: int)
    requires -1 <= n < |dates|
    ensures -1 <= k <= n
    ensures k >= 0 ==> dates[k] in prices
    ensures forall i :: k < i <= n && i >= 0 ==> dates[i] !in prices
    decreases n + 1
  {
    if n < 0 then -1 else if dates[n] in prices then n else LatestPriced(dates, prices, n - 1)
  }

  /** The price get_prices reports for date k of the first `len` dates:
      every date gets the price of the latest priced date up to it, the
      dates before the first priced one get that first price, and all get
      -1 when no date is priced. */
  function AlignedEntry(dates: seq<int>, prices: map<int, Price>, len: nat, k: nat): real
    requires k < len <= |dates|
  {
    var f := FirstPriced(dates, prices, len);
    if f == len then -1.0
    else if k < f then prices[dates[f]] as real
    else prices[dates[LatestPriced(dates, prices, k)]] as real
  }

  function Aligned(dates: seq<int>, prices: map<int, Price>, len: nat): (r: seq<real>)
    requires len <= |dates|
    ensures |r| == len
  {
    seq(len, k requires 0 <= k < len => AlignedEntry(dates, prices, len, k))
  }

  /** The aligned list has one entry per date; a priced date gets its price;
      an unpriced date after a priced one repeats the entry before it;
      dates before the first priced one take its price; and with no priced
      date every entry is -1. */
  lemma AlignedProperties(dates: seq<int>, prices: map<int, Price>)
    ensures var r := Aligned(dates, prices, |dates|);
      && |r| == |dates|
      && (forall n :: 0 <= n < |dates| && dates[n] in prices ==> r[n] == prices[dates[n]] as real)
      && (forall n :: 0 < n < |dates| && dates[n] !in prices && FirstPriced(dates, prices, |dates|) < n ==> r[n] == r[n - 1])
      && (forall n :: 0 <= n < FirstPriced(dates, prices, |dates|) < |dates| ==>
            r[n] == prices[dates[FirstPriced(dates, prices, |dates|)]] as real)
      && (FirstPriced(dates, prices, |dates|) == |dates| ==> forall n :: 0 <= n < |dates| ==> r[n] == -1.0)
  {
  }

  /** The first entry of s that is not -1 (|s| when there is none). */
  function FirstReal(s: seq<real>): (i: nat)
    ensures i <= |s|
    ensures forall k :: 0 <= k < i ==> s[k] == -1.0
    ensures i < |s| ==> s[i] != -1.0
  {
    if s == [] then 0
    else
      var i := FirstReal(s[..|s| - 1]);
      assert forall k :: 0 <= k < |s| - 1 ==> s[..|s| - 1][k] == s[k];
      if i < |s| - 1 then i else if s[|s| - 1] != -1.0 then |s| - 1 else |s|
  }

  /** The inner loop's effect: every entry before the first non -1 entry
      takes that entry's value. */
  function Backfilled(s: seq<real>): (r: seq<real>)
    ensures |r| == |s|
  {
    var i := FirstReal(s);
    seq(|s|, k requires 0 <= k < |s| => if k < i && i < |s| then s[i] else s[k])
  }

  /** Backfilling leaves every entry from the first real one on as it was,
      gives every earlier entry that real value, and leaves an all -1
      sequence unchanged. */
  lemma BackfilledProperties(s: seq<real>)
    ensures var r, i := Backfilled(s), FirstReal(s);
      && (forall k :: i <= k < |s| ==> r[k] == s[k])
      && (i < |s| ==> forall k :: 0 <= k <= i ==> r[k] == s[i] && r[k] != -1.0)
      && (i == |s| ==> r == s)
  {
    var r, i := Backfilled(s), FirstReal(s);
    assert |r| == |s|;
    assert forall k :: 0 <= k < |s| ==> r[k] == if k < i && i < |s| then s[i] else s[k];
    if i == |s| {
      assert forall k :: 0 <= k < |s| ==> r[k] == s[k];
    }
  }

  /** One turn of the alignment loop: append the entry for date n, then
      backfill; it extends the alignment of the first n dates to n + 1. */
  lemma AlignStep(dates: seq<int>, prices: map<int, Price>, n: nat, x: real)
    requires n < |dates|
    requires x == if dates[n] in prices then prices[dates[n]] as real
                 else if n == 0 then -1.0
                 else Aligned(dates, prices, n)[n - 1]
    ensures Backfilled(Aligned(dates, prices, n) + [x]) == Aligned(dates, prices, n + 1)
  {
    var old_ := Aligned(dates, prices, n);
    var s := old_ + [x];
    var f := FirstPriced(dates, prices, n);
    var g := FirstPriced(dates, prices, n + 1);
    var want := Aligned(dates, prices, n + 1);
    if f < n {
      assert g == f;
      assert old_[0] >= 0.0 && s[0] == old_[0];
      assert FirstReal(s) == 0;
      forall k | 0 <= k <= n ensures s[k] == want[k] {
        if k == n {
          if dates[n] !in prices {
            assert LatestPriced(dates, prices, n) == LatestPriced(dates, prices, n - 1);
          }
        }
      }
    } else if dates[n] in prices {
      assert g == n;
      assert forall k :: 0 <= k < n ==> old_[k] == -1.0;
      assert FirstReal(s) == n;
    } else {
      assert g == n + 1;
      assert forall k :: 0 <= k < n ==> old_[k] == -1.0;
      assert FirstReal(s) == n + 1;
    }
  }

  /** The alignment half of get_prices: one pass over the dates appending
      the date's price, else -1 for the first date, else the previous
      entry; after each append the leading -1 entries take the first real
      price. */
  method Align(dates: seq<int>, prices: map<int, Price>) returns (result: seq<real>)
    ensures result == Aligned(dates, prices, |dates|)
  {
    result := [];
    for n := 0 to |dates|
      invariant result == Aligned(dates, prices, n)
    {
      var date := dates[n];
      if date in prices {
        result := result + [prices[date] as real];
      } else if result == [] {
        result := result + [-1.0];
      } else {
        result := result + [result[|result| - 1]];
      }
      ghost var appended := result;
      result := Backfill(result);
      assert result == Backfilled(appended);
      AlignStep(dates, prices, n, appended[n]);
    }
  }

  /** The scan inside the alignment loop: find the first entry that is not
      -1 and copy it down over every entry before it. */
  method Backfill(s: seq<real>) returns (result: seq<real>)
    ensures result == Backfilled(s)
  {
    result := s;
    var i := 0;
    while i < |result|
      invariant i <= |result| && result == s
      invariant forall k :: 0 <= k < i ==> result[k] == -1.0
    {
      if result[i] != -1.0 {
        var j := i - 1;
        while j >= 0
          invariant -1 <= j < i && |result| == |s|
          invariant forall k :: j < k <= i ==> result[k] == s[i]
          invariant forall k :: 0 <= k < |result| && (k <= j || k > i) ==> result[k] == s[k]
        {
          result := result[j := result[j + 1]];
          j := j - 1;
        }
        assert FirstReal(s) == i;
        return;
      }
      i := i + 1;
    }
    assert FirstReal(s) == |s|;
  }

  /** `update` does nothing when the last written report date is the
      current report date. */
  predicate UpToDate(written: seq<int>, lastNetDate: int)
  {
    written != [] && written[|written| - 1] == lastNetDate
  }

  /** `all_dates`: the report dates as a sorted list of distinct dates that
      holds exactly the elements of `dates`. */
  predicate SortedDistinct(all: seq<int>, dates: set<int>)
  {
    && (forall i, j :: 0 <= i < j < |all| ==> all[i] < all[j])
    && (forall i :: 0 <= i < |all| ==> all[i] in dates)
    && (forall d :: d in dates ==> d in all)
  }

  /** The dates file after a run of `update`: the dates already written,
      then every merged date from position |written| on (an empty slice when
      the file already held as many). */
  function DatesFile(written: seq<int>, all: seq<int>): (r: seq<int>)
    ensures |r| == if |written| <= |all| then |all| else |written|
    ensures r[..|written|] == written
  {
    written + if |written| <= |all| then all[|written|..] else []
  }

  /** A run that writes ends the dates file with the current report date,
      so the next run with the same date returns early: the merged list is
      sorted and holds last_net_date, the weekly dates before it and the
      historical report dates, none of them later than last_net_date. */
  lemma RunThenUpToDate(written: seq<int>, netDates: seq<int>, lastNetDate: int, all: seq<int>)
    requires forall i :: 0 <= i < |netDates| ==> netDates[i] <= lastNetDate
    requires SortedDistinct(all, set d | d in netDates + [lastNetDate] + GetDates(lastNetDate))
    requires |written| < |all|
    ensures UpToDate(DatesFile(written, all), lastNetDate)
  {
    GetDatesProperties(lastNetDate);
    var merged := netDates + [lastNetDate] + GetDates(lastNetDate);
    assert lastNetDate in merged;
    assert lastNetDate in all;
    var top := all[|all| - 1];
    assert top in merged;
    assert top <= lastNetDate;
    var k :| 0 <= k < |all| && all[k] == lastNetDate;
    assert top == lastNetDate;
    var r := DatesFile(written, all);
    assert r[|r| - 1] == all[|all| - 1];
  }
}
