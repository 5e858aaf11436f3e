/** CompositeUpdater's concrete instances (DailyUpdater, EntireUpdater) and
    UpdateManager: the registry from source names to the updater that owns
    them, dispatch through it, and the combined catalogue. The member loop of
    CompositeUpdater.update_source itself is Updater.CompositeUpdateSource. */
module Composite {
  import opened Common
  import opened Updater
  import Store

  /** Every source name some updater of `clss` advertises, in `clss` order:
      `sum([updater.get_sources() for updater in updaters], [])`. */
  function AllSources<C, W>(reg: C -> Class<C, W>, clss: seq<C>): (names: seq<Name>)
    ensures forall n :: n in names <==> exists i :: 0 <= i < |clss| && n in Catalogue(reg(clss[i]))
  {
    if clss == [] then []
    else
      var rest := AllSources(reg, clss[1..]);
      assert forall i :: 1 <= i < |clss| ==> clss[i] == clss[1..][i - 1];
      Catalogue(reg(clss[0])) + rest
  }

  /** The catalogue of the updater `c`, as a dict from each of its source
      names to `c`. */
  function OwnerMap<C, W>(reg: C -> Class<C, W>, c: C): (d: map<Name, C>)
    ensures forall n :: n in d <==> n in Catalogue(reg(c))
    ensures forall n :: n in d ==> d[n] == c
  {
    map n | n in Catalogue(reg(c)) :: c
  }

  /** The source map: the dicts of all updaters merged in order, so a name
      advertised by several updaters belongs to the last of them. */
  function SourceMap<C, W>(reg: C -> Class<C, W>, clss: seq<C>): map<Name, C>
  {
    if clss == [] then map[]
    else SourceMap(reg, clss[..|clss| - 1]) + OwnerMap(reg, clss[|clss| - 1])
  }

  /** The source map's keys are the names some updater advertises. */
  lemma {:induction false} SourceMapKeys<C, W>(reg: C -> Class<C, W>, clss: seq<C>)
    ensures forall n :: n in SourceMap(reg, clss) <==> exists i :: 0 <= i < |clss| && n in Catalogue(reg(clss[i]))
    decreases |clss|
  {
    if clss != [] {
      var init := clss[..|clss| - 1];
      SourceMapKeys(reg, init);
      assert forall i :: 0 <= i < |init| ==> init[i] == clss[i];
    }
  }

  /** Last writer wins: a name advertised by clss[i] and by no later updater
      belongs to clss[i]. */
  lemma {:induction false} SourceMapLastOwner<C, W>(reg: C -> Class<C, W>, clss: seq<C>, i: nat, n: Name)
    requires i < |clss| && n in Catalogue(reg(clss[i]))
    requires forall j :: i < j < |clss| ==> n !in Catalogue(reg(clss[j]))
    ensures n in SourceMap(reg, clss) && SourceMap(reg, clss)[n] == clss[i]
    decreases |clss|
  {
    var init := clss[..|clss| - 1];
    if i < |clss| - 1 {
      assert forall j :: i < j < |init| ==> init[j] == clss[j];
      SourceMapLastOwner(reg, init, i, n);
    }
  }

  /** Every name of the combined catalogue can be dispatched, and nothing
      else can: the two views UpdateManager keeps agree. */
  lemma AllSourcesAreMapped<C, W>(reg: C -> Class<C, W>, clss: seq<C>)
    ensures forall n :: n in AllSources(reg, clss) <==> n in SourceMap(reg, clss)
  {
    SourceMapKeys(reg, clss);
  }

  /** UpdateManager.__init__'s loop: `source_map.update(d)` for the dict `d`
      of each updater in turn. */
  method BuildSourceMap<C, W>(reg: C -> Class<C, W>, clss: seq<C>) returns (m: map<Name, C>)
    ensures m == SourceMap(reg, clss)
  {
    m := map[];
    for i := 0 to |clss|
      invariant m == SourceMap(reg, clss[..i])
    {
      var owner := clss[i];
      var sources := Catalogue(reg(owner));
      var d: map<Name, C> := map[];
      for j := 0 to |sources|
        invariant d == map n | n in sources[..j] :: owner
      {
        assert sources[..j + 1] == sources[..j] + [sources[j]];
        d := d[sources[j] := owner];
      }
      assert sources[..|sources|] == sources;
      m := m + d;
      assert clss[..i + 1][..i] == clss[..i];
    }
    assert clss[..|clss|] == clss;
  }

  class UpdateManager<C, W> {
    const reg: C -> Class<C, W>
    const updaters: seq<C>
    const sourceMap: map<Name, C>

    /** The source map is the one built from the updaters. */
    ghost predicate Valid() {
      sourceMap == SourceMap(reg, updaters)
    }

    constructor (reg: C -> Class<C, W>, clss: seq<C>)
      ensures this.reg == reg && updaters == clss && Valid()
    {
      this.reg := reg;
      updaters := clss;
      var m := BuildSourceMap(reg, clss);
      sourceMap := m;
    }

    /** update_source: run the owner of `name` on it; a name nobody owns is
        a KeyError before anything runs. */
    method UpdateSource(fuel: nat, w: W, name: Name) returns (o: Outcome<W, Option<seq<Entry>>>)
      ensures name !in sourceMap ==> o == Threw(w, Other)
      ensures name in sourceMap ==> o == SourceSpec(reg, fuel, sourceMap[name], w, name)
    {
      if name !in sourceMap {
        return Threw(w, Other);
      }
      o := Updater.UpdateSource(reg, fuel, sourceMap[name], w, name);
    }

    /** get_sources: the catalogues of all updaters, concatenated in order. */
    function GetSources(): (names: seq<Name>)
      requires Valid()
      ensures forall n :: n in names <==> n in sourceMap
    {
      AllSourcesAreMapped(reg, updaters);
      AllSources(reg, updaters)
    }

    /** config: the owner's configuration of `name`, KeyError for a name
        nobody owns. */
    function Config<X>(name: Name, config: (C, Name) -> X): (r: Result<X>)
      ensures r.Raised? <==> name !in sourceMap
      ensures r.Raised? ==> r.error == Other
      ensures r.Ok? ==> r.value == config(sourceMap[name], name)
    {
      if name in sourceMap then Ok(config(sourceMap[name], name)) else Raised(Other)
    }
  }

  /** The updater classes of the application. */
  datatype AppUpdater = Monetary | Cftc | Ice | Expirations | DailyReports | DailyUpdater | EntireUpdater | PipChecker

  const DailyClss: seq<AppUpdater> := [Expirations, DailyReports]
  const EntireClss: seq<AppUpdater> := [Monetary, Cftc, Ice] + DailyClss
  const AllUpdaters: seq<AppUpdater> := EntireClss + [DailyUpdater, EntireUpdater, PipChecker]

  /** The application's registry: the two composites are fixed here, every
      other class's behaviour is given by `leaves`. */
  function AppRegistry<W>(leaves: AppUpdater -> Class<AppUpdater, W>): (reg: AppUpdater -> Class<AppUpdater, W>)
    ensures reg(DailyUpdater) == Composite("Update daily", [Expirations, DailyReports])
    ensures reg(EntireUpdater) == Composite("Update all", [Monetary, Cftc, Ice, Expirations, DailyReports])
    ensures forall u :: u != DailyUpdater && u != EntireUpdater ==> reg(u) == leaves(u)
  {
    assert EntireClss == [Monetary, Cftc, Ice, Expirations, DailyReports];
    (u: AppUpdater) => match u
         case DailyUpdater => Composite("Update daily", DailyClss)
         case EntireUpdater => Composite("Update all", EntireClss)
         case _ => leaves(u)
  }

  /** In the default UpdateManager, "Update all" runs EntireUpdater and
      "Update daily" runs DailyUpdater, unless PipChecker (the only updater
      listed after them) also advertises that name. */
  lemma CompositeNamesDispatch<W>(leaves: AppUpdater -> Class<AppUpdater, W>)
    requires "Update all" !in Catalogue(leaves(PipChecker))
    requires "Update daily" !in Catalogue(leaves(PipChecker))
    ensures var m := SourceMap(AppRegistry(leaves), AllUpdaters);
      "Update all" in m && m["Update all"] == EntireUpdater && "Update daily" in m && m["Update daily"] == DailyUpdater
  {
    var reg := AppRegistry(leaves);
    assert AllUpdaters[5] == DailyUpdater && AllUpdaters[6] == EntireUpdater && AllUpdaters[7] == PipChecker;
    assert Catalogue(reg(EntireUpdater)) == ["Update all"];
    assert Catalogue(reg(DailyUpdater)) == ["Update daily"];
    SourceMapLastOwner(reg, AllUpdaters, 6, "Update all");
    SourceMapLastOwner(reg, AllUpdaters, 5, "Update daily");
  }

  /** Adding an updater at the end merges its dict over the map so far. */
  /** The source list keeps the updaters' order: the list of xs + ys is the
      list of xs followed by the list of ys. */
  lemma {:induction false} AllSourcesAppend<C, W>(reg: C -> Class<C, W>, xs: seq<C>, ys: seq<C>)
    ensures AllSources(reg, xs + ys) == AllSources(reg, xs) + AllSources(reg, ys)
    decreases |xs|
  {
    if xs == [] {
      assert xs + ys == ys;
    } else {
      assert (xs + ys)[0] == xs[0];
      assert (xs + ys)[1..] == xs[1..] + ys;
      AllSourcesAppend(reg, xs[1..], ys);
    }
  }

  /** The list is not de-duplicated: a name advertised by two updaters is
      listed twice. */
  lemma AllSourcesKeepsRepeats<C, W>(reg: C -> Class<C, W>, a: C, b: C, n: Name)
    requires n in Catalogue(reg(a)) && n in Catalogue(reg(b))
    ensures multiset(AllSources(reg, [a, b]))[n] >= 2
  {
    AllSourcesAppend(reg, [a], [b]);
    assert AllSources(reg, [a]) == Catalogue(reg(a));
    assert AllSources(reg, [b]) == Catalogue(reg(b));
    assert multiset(AllSources(reg, [a, b])) == multiset(Catalogue(reg(a))) + multiset(Catalogue(reg(b)));
  }

  lemma SourceMapSnoc<C, W>(reg: C -> Class<C, W>, clss: seq<C>, c: C)
    ensures SourceMap(reg, clss + [c]) == SourceMap(reg, clss) + OwnerMap(reg, c)
  {
    assert (clss + [c])[..|clss|] == clss;
  }

  /** "Update all" runs the daily members after the weekly and monetary
      ones: with the first three members leaving state w3 and results r3,
      the rest is exactly what "Update daily" would do from w3. */
  lemma UpdateAllEndsWithDaily<W>(leaves: AppUpdater -> Class<AppUpdater, W>, fuel: nat, w: W, w3: W, r3: seq<Entry>)
    requires MembersSpec(AppRegistry(leaves), fuel, [Monetary, Cftc, Ice], w, []) == Returned(w3, r3)
    ensures MembersSpec(AppRegistry(leaves), fuel, EntireClss, w, [])
         == After(r3, MembersSpec(AppRegistry(leaves), fuel, DailyClss, w3, []))
  {
    var reg := AppRegistry(leaves);
    MembersAppend(reg, fuel, [Monetary, Cftc, Ice], DailyClss, w, []);
    MembersAccumulate(reg, fuel, DailyClss, w3, r3);
  }

  /** Running a list of members one after another is running its parts one
      after another. */
  lemma {:induction false} MembersAppend<C, W>(reg: C -> Class<C, W>, fuel: nat, xs: seq<C>, ys: seq<C>, w: W, acc: seq<Entry>)
    ensures MembersSpec(reg, fuel, xs + ys, w, acc) ==
      match MembersSpec(reg, fuel, xs, w, acc)
      case Threw(w1, e) => Threw(w1, e)
      case Returned(w1, acc1) => MembersSpec(reg, fuel, ys, w1, acc1)
    decreases |xs|
  {
    if xs == [] {
      assert xs + ys == ys;
    } else {
      assert (xs + ys)[1..] == xs[1..] + ys;
      match EntireSpec(reg, fuel, xs[0], w) {
        case Returned(w1, results) =>
          MembersAppend(reg, fuel, xs[1..], ys, w1, acc + results);
        case Threw(w1, e) =>
          if IsTransient(e) {
            MembersAppend(reg, fuel, xs[1..], ys, w1, acc);
          }
      }
    }
  }

  /** A member loop only appends to the list it starts from. */
  lemma {:induction false} MembersAccumulate<C, W>(reg: C -> Class<C, W>, fuel: nat, members: seq<C>, w: W, acc: seq<Entry>)
    ensures MembersSpec(reg, fuel, members, w, acc) == After(acc, MembersSpec(reg, fuel, members, w, []))
    decreases |members|
  {
    if members == [] {
      assert acc + [] == acc;
    } else {
      match EntireSpec(reg, fuel, members[0], w) {
        case Returned(w1, results) =>
          var rest := MembersSpec(reg, fuel, members[1..], w1, []);
          MembersAccumulate(reg, fuel, members[1..], w1, acc + results);
          MembersAccumulate(reg, fuel, members[1..], w1, [] + results);
          assert [] + results == results;
          AfterAfter(acc, results, rest);
        case Threw(w1, e) =>
          if IsTransient(e) {
            MembersAccumulate(reg, fuel, members[1..], w1, acc);
            MembersAccumulate(reg, fuel, members[1..], w1, []);
          }
      }
    }
  }
  /** ResourceUpdater.update_source_impl is the table's own update(): with
      the table's rows as the world, one Updatable.update step. */
  ghost function TableUpdate<T, V>(today: int, initial: Result<Store.Frame<T, V>>,
                                   fill: (int, int) -> Result<Store.Frame<T, V>>)
    : map<Store.Key<T>, V> -> Outcome<map<Store.Key<T>, V>, DateRange>
  {
    rows => var (rows1, o) := Store.Step(rows, today, initial, fill);
            match o
            case Ok(r) => Returned(rows1, r)
            case Raised(e) => Threw(rows1, e)
  }

  /** update_entire of a ResourceUpdater over a table: one update step on the
      table, reported under the table's name; stored rows are kept, and a
      table already at today is left as it is and still reported, with the
      range (None, None). */
  lemma ResourceUpdaterRunsTableUpdate<C, T, V>(reg: C -> Class<C, map<Store.Key<T>, V>>, fuel: nat, c: C,
                                                rows: map<Store.Key<T>, V>, table: Name, today: int,
                                                initial: Result<Store.Frame<T, V>>,
                                                fill: (int, int) -> Result<Store.Frame<T, V>>)
    requires fuel > 0 && reg(c) == ResourceUpdaterClass(table, TableUpdate(today, initial, fill))
    ensures var (rows1, o) := Store.Step(rows, today, initial, fill);
      EntireSpec(reg, fuel, c, rows) ==
        if o.Ok? then Returned(rows1, [Entry(table, o.value)]) else Threw(rows1, o.error)
    ensures forall k :: k in rows ==> k in EntireSpec(reg, fuel, c, rows).world && EntireSpec(reg, fuel, c, rows).world[k] == rows[k]
    ensures Store.RangeOf(rows).last == Some(today) ==> EntireSpec(reg, fuel, c, rows) == Returned(rows, [Entry(table, NoRange)])
  {
    ResourceUpdaterEntire(reg, fuel, c, rows, table, TableUpdate(today, initial, fill));
    Store.StepKeepsStoredRows(rows, today, initial, fill);
    if Store.RangeOf(rows).last == Some(today) {
      Store.StepIdempotentOnToday(rows, today, initial, fill);
    }
  }
}
