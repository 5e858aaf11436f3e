/** DailyResource: a table of daily bulletin quotes keyed by (Date, CONTRACT)
    whose incremental fill downloads, one by one, the available dates that
    fall in the requested window, and whose update runs the generic
    Updatable.update twice. */
module Daily {
  import opened Common
  import opened Store

  type Contract = string

  /** The SET, CHG, VOL, OI and OIChg columns of a row. */
  datatype Quote = Quote(settle: real, change: real, volume: int, openInterest: int, openInterestChange: int)

  /** Rows are keyed by (Date, CONTRACT): UNIQUE (Date, CONTRACT) ON CONFLICT IGNORE. */
  type DailyFrame = Frame<Contract, Quote>

  /** `set(available_dates()) & set(date_range(first, last))`, with
      date_range inclusive of both ends. */
  function Window(available: set<int>, first: int, last: int): (s: set<int>)
    ensures s <= available
    ensures forall d :: d in s <==> d in available && first <= d <= last
  {
    set d | d in available && first <= d <= last
  }

  /** `order` lists the elements of `s`, each exactly once: one possible
      iteration order of a Python set. */
  ghost predicate Enumerates(order: seq<int>, s: set<int>)
  {
    && (forall i, j :: 0 <= i < j < |order| ==> order[i] != order[j])
    && (forall d :: d in order <==> d in s)
  }

  /** `concat([download_date(d) for d in order])`: the downloads happen in
      order and the first one that raises aborts the rest. */
  function ConcatDownloads(order: seq<int>, download: int -> Result<DailyFrame>): (r: Result<DailyFrame>)
    ensures r.Ok? <==> forall i :: 0 <= i < |order| ==> download(order[i]).Ok?
    ensures r.Raised? ==> exists i :: 0 <= i < |order| && download(order[i]) == Raised(r.error)
                                 && forall j :: 0 <= j < i ==> download(order[j]).Ok?
    ensures r.Ok? ==> forall row :: row in r.value <==>
              exists i :: 0 <= i < |order| && row in download(order[i]).value
  {
    if order == [] then Ok([])
    else match download(order[0])
      case Raised(e) => Raised(e)
      case Ok(head) =>
        var rest := ConcatDownloads(order[1..], download);
        assert forall i :: 1 <= i < |order| ==> order[i] == order[1..][i - 1];
        if rest.Raised? then
          assert forall j :: 0 <= j < |order| - 1 ==> download(order[1..][j]).Ok? ==> download(order[j + 1]).Ok?;
          Raised(rest.error)
        else Ok(head + rest.value)
  }

  /** DailyResource.fill(first, last), with the set's iteration order given
      by `enumerate`. */
  function Fill(enumerate: set<int> -> seq<int>, available: set<int>, download: int -> Result<DailyFrame>,
                first: int, last: int): Result<DailyFrame>
  {
    ConcatDownloads(enumerate(Window(available, first, last)), download)
  }

  /** Whatever the iteration order, fill downloads each available date of the
      window once and no other date: it fails exactly when one of those
      downloads fails, and otherwise returns exactly the rows they return. */
  lemma FillDownloadsWindow(enumerate: set<int> -> seq<int>, available: set<int>,
                            download: int -> Result<DailyFrame>, first: int, last: int)
    requires Enumerates(enumerate(Window(available, first, last)), Window(available, first, last))
    ensures var r := Fill(enumerate, available, download, first, last);
      && (r.Ok? <==> forall d :: d in available && first <= d <= last ==> download(d).Ok?)
      && (r.Raised? ==> exists d :: d in available && first <= d <= last && download(d) == Raised(r.error))
      && (r.Ok? ==> forall row :: row in r.value <==>
            exists d :: d in available && first <= d <= last && download(d).Ok? && row in download(d).value)
  {
    var window := Window(available, first, last);
    var order := enumerate(window);
    var r := Fill(enumerate, available, download, first, last);
    if r.Raised? {
      var i :| 0 <= i < |order| && download(order[i]) == Raised(r.error)
               && forall j :: 0 <= j < i ==> download(order[j]).Ok?;
      assert order[i] in window;
    } else {
      forall d | d in available && first <= d <= last ensures download(d).Ok? {
        assert d in window;
        var i :| 0 <= i < |order| && order[i] == d;
      }
      forall row ensures row in r.value <==>
          exists d :: d in available && first <= d <= last && download(d).Ok? && row in download(d).value {
        if row in r.value {
          var i :| 0 <= i < |order| && row in download(order[i]).value;
          assert order[i] in window;
        }
        if exists d :: d in available && first <= d <= last && download(d).Ok? && row in download(d).value {
          var d :| d in available && first <= d <= last && download(d).Ok? && row in download(d).value;
          assert d in window;
          var i :| 0 <= i < |order| && order[i] == d;
        }
      }
    }
  }

  /** The store keeps one row per (date, contract): several contracts share
      a date, and a repeated (date, contract) pair keeps its first row. */
  lemma ContractsShareDates(d: int, a: Contract, b: Contract, q1: Quote, q2: Quote, q3: Quote)
    requires a != b
    ensures InsertAll(map[], [Row(Key(d, a), q1), Row(Key(d, b), q2), Row(Key(d, a), q3)])
         == map[Key(d, a) := q1, Key(d, b) := q2]
  {
    var frame := [Row(Key(d, a), q1), Row(Key(d, b), q2), Row(Key(d, a), q3)];
    var r := InsertAll(map[], frame);
    assert KeysOf(frame) == {Key(d, a), Key(d, b)};
    assert r[frame[0].key] == q1;
    assert r[frame[1].key] == q2;
  }

  /** get_flavor(contract): the stored rows of that contract, by date. */
  method GetFlavor(r: Resource<Contract, Quote>, contract: Contract) returns (frame: DailyFrame)
    ensures SortedByDate(frame) && DistinctKeys(frame)
    ensures forall i :: 0 <= i < |frame| ==> frame[i].key.part == contract
    ensures forall i :: 0 <= i < |frame| ==> frame[i].key in r.rows && frame[i].values == r.rows[frame[i].key]
    ensures forall k :: k in r.rows && k.part == contract ==> k in KeysOf(frame)
  {
    frame := r.Select((k: Key<Contract>) => k.part == contract);
    forall i | 0 <= i < |frame| ensures frame[i].key.part == contract {
      assert frame[i].key in KeysOf(frame);
    }
  }

  /** get_flavors: the distinct contracts of the stored rows. */
  function GetFlavors(r: Resource<Contract, Quote>): (contracts: set<Contract>)
    reads r
    ensures forall c :: c in contracts <==> exists k :: k in r.rows && k.part == c
  {
    set k | k in r.rows :: k.part
  }

  /** DailyResource.update: Updatable.update twice (the second run sees what
      the first wrote); an exception ends it. It returns None; here the
      exception, if any, is the result. Each run calls initial_fill() or
      fill(first, last) afresh, so each run has its own download results:
      `initial1`/`fill1` for the first run, `initial2`/`fill2` for the second. */
  method Update(r: Resource<Contract, Quote>, today: int,
                initial1: Result<DailyFrame>, fill1: (int, int) -> Result<DailyFrame>,
                initial2: Result<DailyFrame>, fill2: (int, int) -> Result<DailyFrame>) returns (e: Option<Exception>)
    modifies r
    ensures var (rows1, o1) := Step(old(r.rows), today, initial1, fill1);
      if o1.Raised? then r.rows == rows1 && e == Some(o1.error)
      else
        var (rows2, o2) := Step(rows1, today, initial2, fill2);
        r.rows == rows2 && e == (if o2.Raised? then Some(o2.error) else None)
  {
    var first := r.Update(today, initial1, fill1);
    if first.Raised? {
      return Some(first.error);
    }
    var second := r.Update(today, initial2, fill2);
    if second.Raised? {
      return Some(second.error);
    }
    return None;
  }

  /** Why update runs twice: on an empty table the first run does the initial
      fill and the second fetches from the day after its latest date up to
      today (when that latest date is not today). */
  lemma SecondRunFillsAfterInitial(today: int, frame: DailyFrame, latest: int, fill: (int, int) -> Result<DailyFrame>)
    requires frame != [] && IsGreatest(latest, DatesOf(KeysOf(frame))) && latest != today
    ensures var after := Step(map[], today, Ok(frame), fill).0;
      Plan(RangeOf(after), today) == Action.Fill(latest + 1, today)
  {
    StepInitial(map[], today, frame, fill);
  }

  /** An initial fill that brings nothing leaves the table empty, so the
      second run does the initial fill again. */
  lemma EmptyInitialIsRetried(today: int, fill: (int, int) -> Result<DailyFrame>)
    ensures var after := Step(map[], today, Ok([]), fill).0;
      after == map[] && Plan(RangeOf(after), today) == InitialFill
  {
  }

  /** After an empty initial fill, the second run's own initial_fill()
      decides the table: it stores exactly the keys that second download
      returns, or nothing when that download raises. */
  lemma RetriedInitialStoresSecondDownload(today: int, fill1: (int, int) -> Result<DailyFrame>,
                                           initial2: Result<DailyFrame>, fill2: (int, int) -> Result<DailyFrame>)
    ensures var after1 := Step(map[], today, Ok([]), fill1).0;
      var (after2, o2) := Step(after1, today, initial2, fill2);
      && (initial2.Ok? ==> after2.Keys == KeysOf(initial2.value) && o2 == Ok(GetRange(initial2.value)))
      && (initial2.Raised? ==> after2 == map[] && o2 == Raised(initial2.error))
  {
    EmptyInitialIsRetried(today, fill1);
    if initial2.Ok? && initial2.value != [] {
      StepInitial(map[], today, initial2.value, fill2);
    }
  }
}
