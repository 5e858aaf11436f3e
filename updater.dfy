/** Updater, FlavorUpdater, ResourceUpdater and CompositeUpdater.update_source:
    running one source's own update, then its declared dependencies, and
    flattening everything into one result list.

    Updater classes are identified by values of a type C; a registry
    `reg: C -> Class<C, W>` gives each class's behaviour, so "instantiate the
    dependency's class" is a registry lookup. W is the persisted state of all
    stores; every update call takes it and gives back the state it leaves,
    also when it raises (writes already committed stay). The source has no
    cycle detection: `fuel` stands for Python's recursion limit, and running
    out of it raises (RecursionError, an Other exception). */
module Updater {
  import opened Common

  type Name = string

  /** The sources of a dependency to run: the dependency's whole catalogue
      (None in the source) or exactly the named ones, in order. */
  datatype Sources = Entire | Named(names: seq<Name>)

  datatype Dependency<C> = Dependency(updater: C, sources: Sources)

  /** One (source name, range) pair of a result list. */
  datatype Entry = Entry(source: Name, range: DateRange)

  /** A call that returned a value, or raised; either way with the state of
      the stores it left behind. */
  datatype Outcome<W, T> = Returned(world: W, value: T) | Threw(world: W, error: Exception)

  /** What an updater class does. A plain updater has a catalogue of source
      names, an update_source_impl (which returns None or a range) and a
      dependency list per source. A composite updater advertises one source
      and, whatever source it is asked for, runs update_entire on each member
      class. */
  datatype Class<C, !W> =
    | Plain(catalogue: seq<Name>, impl: (W, Name) -> Outcome<W, Option<DateRange>>, deps: Name -> seq<Dependency<C>>)
    | Composite(name: Name, members: seq<C>)

  /** get_sources(), by name. */
  function Catalogue<C, W>(cls: Class<C, W>): (names: seq<Name>)
    ensures cls.Composite? ==> names == [cls.name]
  {
    match cls
    case Plain(catalogue, _, _) => catalogue
    case Composite(name, _) => [name]
  }

  /** `[] if result is None else [(source, result)]`. */
  function OwnEntries(name: Name, own: Option<DateRange>): seq<Entry>
  {
    if own.None? then [] else [Entry(name, own.value)]
  }

  /** update_source(name) on a fresh instance of class c. */
  ghost function SourceSpec<C, W>(reg: C -> Class<C, W>, fuel: nat, c: C, w: W, name: Name): Outcome<W, Option<seq<Entry>>>
    decreases fuel, 0, 0
  {
    if fuel == 0 then Threw(w, Other)
    else match reg(c)
      case Plain(_, impl, deps) =>
        (match impl(w, name)
         case Threw(w1, e) => Threw(w1, e)
         case Returned(w1, own) =>
           match DepsSpec(reg, fuel - 1, deps(name), w1, OwnEntries(name, own))
           case Threw(w2, e) => Threw(w2, e)
           case Returned(w2, results) => Returned(w2, Some(results)))
      case Composite(_, members) => CompositeSpec(reg, fuel - 1, members, w)
  }

  /** `for source in names: results.extend(updater.update_source(source))`,
      starting from the list `acc`; extending by None raises TypeError. */
  ghost function NamesSpec<C, W>(reg: C -> Class<C, W>, fuel: nat, c: C, names: seq<Name>, w: W, acc: seq<Entry>): Outcome<W, seq<Entry>>
    decreases fuel, 1, |names|
  {
    if names == [] then Returned(w, acc)
    else match SourceSpec(reg, fuel, c, w, names[0])
      case Threw(w1, e) => Threw(w1, e)
      case Returned(w1, None) => Threw(w1, Other)
      case Returned(w1, Some(results)) => NamesSpec(reg, fuel, c, names[1..], w1, acc + results)
  }

  /** update_entire() on a fresh instance of class c. */
  ghost function EntireSpec<C, W>(reg: C -> Class<C, W>, fuel: nat, c: C, w: W): Outcome<W, seq<Entry>>
    decreases fuel, 2, 0
  {
    NamesSpec(reg, fuel, c, Catalogue(reg(c)), w, [])
  }

  /** The dependency loop of update_source, starting from the list `acc`. */
  ghost function DepsSpec<C, W>(reg: C -> Class<C, W>, fuel: nat, deps: seq<Dependency<C>>, w: W, acc: seq<Entry>): Outcome<W, seq<Entry>>
    decreases fuel, 3, |deps|
  {
    if deps == [] then Returned(w, acc)
    else
      var step := match deps[0].sources
        case Entire =>
          (match EntireSpec(reg, fuel, deps[0].updater, w)
           case Threw(w1, e) => Threw(w1, e)
           case Returned(w1, results) => Returned(w1, acc + results))
        case Named(names) => NamesSpec(reg, fuel, deps[0].updater, names, w, acc);
      match step
      case Threw(w1, e) => Threw(w1, e)
      case Returned(w1, acc1) => DepsSpec(reg, fuel, deps[1..], w1, acc1)
  }

  /** The member loop of CompositeUpdater.update_source, starting from `acc`:
      a member that raises ConnectionError or gaierror adds nothing (not even
      what it had produced before raising), any other exception propagates. */
  ghost function MembersSpec<C, W>(reg: C -> Class<C, W>, fuel: nat, members: seq<C>, w: W, acc: seq<Entry>): Outcome<W, seq<Entry>>
    decreases fuel, 3, |members|
  {
    if members == [] then Returned(w, acc)
    else match EntireSpec(reg, fuel, members[0], w)
      case Returned(w1, results) => MembersSpec(reg, fuel, members[1..], w1, acc + results)
      case Threw(w1, e) =>
        if IsTransient(e) then MembersSpec(reg, fuel, members[1..], w1, acc) else Threw(w1, e)
  }

  /** CompositeUpdater.update_source: `result if result else None`. */
  ghost function CompositeSpec<C, W>(reg: C -> Class<C, W>, fuel: nat, members: seq<C>, w: W): Outcome<W, Option<seq<Entry>>>
    decreases fuel, 4, 0
  {
    match MembersSpec(reg, fuel, members, w, [])
    case Threw(w1, e) => Threw(w1, e)
    case Returned(w1, results) => Returned(w1, if results == [] then None else Some(results))
  }

  /** Updater.update_source (and, for a composite class,
      CompositeUpdater.update_source). */
  method UpdateSource<C, W>(reg: C -> Class<C, W>, fuel: nat, c: C, w: W, name: Name)
    returns (o: Outcome<W, Option<seq<Entry>>>)
    ensures o == SourceSpec(reg, fuel, c, w, name)
    decreases fuel, 1
  {
    if fuel == 0 {
      return Threw(w, Other);
    }
    var cls := reg(c);
    if cls.Composite? {
      o := CompositeUpdateSource(reg, fuel - 1, cls.members, w);
      return;
    }
    var own := cls.impl(w, name);
    if own.Threw? {
      return Threw(own.world, own.error);
    }
    var results := OwnEntries(name, own.value);
    var world := own.world;
    var deps := cls.deps(name);
    ghost var target := DepsSpec(reg, fuel - 1, deps, world, results);
    var i := 0;
    while i < |deps|
      invariant 0 <= i <= |deps|
      decreases |deps| - i
      invariant DepsSpec(reg, fuel - 1, deps[i..], world, results) == target
    {
      var dep := deps[i];
      assert deps[i..][1..] == deps[i + 1..];
      match dep.sources {
        case Entire =>
          var entire := UpdateEntire(reg, fuel - 1, dep.updater, world);
          if entire.Threw? {
            return Threw(entire.world, entire.error);
          }
          results := results + entire.value;
          world := entire.world;
        case Named(names) =>
          ghost var world0, results0 := world, results;
          var j := 0;
          while j < |names|
            invariant 0 <= j <= |names|
            invariant DepsSpec(reg, fuel - 1, deps[i..], world0, results0) == target
            invariant NamesSpec(reg, fuel - 1, dep.updater, names[j..], world, results)
                   == NamesSpec(reg, fuel - 1, dep.updater, names, world0, results0)
          {
            assert names[j..][1..] == names[j + 1..];
            var one := UpdateSource(reg, fuel - 1, dep.updater, world, names[j]);
            if one.Threw? {
              return Threw(one.world, one.error);
            }
            if one.value.None? {
              return Threw(one.world, Other);
            }
            results := results + one.value.value;
            world := one.world;
            j := j + 1;
          }
      }
      i := i + 1;
    }
    return Returned(world, Some(results));
  }

  /** Updater.update_entire: update_source for every catalogue name, in order. */
  method UpdateEntire<C, W>(reg: C -> Class<C, W>, fuel: nat, c: C, w: W)
    returns (o: Outcome<W, seq<Entry>>)
    ensures o == EntireSpec(reg, fuel, c, w)
    decreases fuel, 2
  {
    var names := Catalogue(reg(c));
    var results: seq<Entry> := [];
    var world := w;
    var j := 0;
    while j < |names|
      invariant 0 <= j <= |names|
      invariant NamesSpec(reg, fuel, c, names[j..], world, results) == NamesSpec(reg, fuel, c, names, w, [])
    {
      assert names[j..][1..] == names[j + 1..];
      var one := UpdateSource(reg, fuel, c, world, names[j]);
      if one.Threw? {
        return Threw(one.world, one.error);
      }
      if one.value.None? {
        return Threw(one.world, Other);
      }
      results := results + one.value.value;
      world := one.world;
      j := j + 1;
    }
    return Returned(world, results);
  }

  /** CompositeUpdater.update_source: update_entire on a fresh instance of
      every member, swallowing transient network failures per member. */
  method CompositeUpdateSource<C, W>(reg: C -> Class<C, W>, fuel: nat, members: seq<C>, w: W)
    returns (o: Outcome<W, Option<seq<Entry>>>)
    ensures o == CompositeSpec(reg, fuel, members, w)
    decreases fuel, 3
  {
    var result: seq<Entry> := [];
    var world := w;
    var i := 0;
    while i < |members|
      invariant 0 <= i <= |members|
      invariant MembersSpec(reg, fuel, members[i..], world, result) == MembersSpec(reg, fuel, members, w, [])
    {
      assert members[i..][1..] == members[i + 1..];
      var entire := UpdateEntire(reg, fuel, members[i], world);
      world := entire.world;
      if entire.Returned? {
        result := result + entire.value;
      } else if !IsTransient(entire.error) {
        return Threw(world, entire.error);
      }
      i := i + 1;
    }
    return Returned(world, if result == [] then None else Some(result));
  }

  /** `acc` followed by what a run starting from the empty list returns. */
  function After<W>(acc: seq<Entry>, o: Outcome<W, seq<Entry>>): Outcome<W, seq<Entry>>
  {
    match o
    case Threw(w, e) => Threw(w, e)
    case Returned(w, results) => Returned(w, acc + results)
  }

  /** Appending twice is appending the concatenation. */
  lemma AfterAfter<W>(a: seq<Entry>, b: seq<Entry>, o: Outcome<W, seq<Entry>>)
    ensures After(a, After(b, o)) == After(a + b, o)
  {
    if o.Returned? {
      assert a + (b + o.value) == (a + b) + o.value;
    }
  }

  /** Running names one after another only appends: the list built so far is
      kept as a prefix. */
  lemma {:induction false} NamesAppend<C, W>(reg: C -> Class<C, W>, fuel: nat, c: C, names: seq<Name>, w: W, acc: seq<Entry>)
    ensures NamesSpec(reg, fuel, c, names, w, acc) == After(acc, NamesSpec(reg, fuel, c, names, w, []))
    decreases |names|
  {
    if names == [] {
      assert acc + [] == acc;
    } else {
      var first := SourceSpec(reg, fuel, c, w, names[0]);
      if first.Returned? && first.value.Some? {
        var results := first.value.value;
        var rest := NamesSpec(reg, fuel, c, names[1..], first.world, []);
        NamesAppend(reg, fuel, c, names[1..], first.world, acc + results);
        NamesAppend(reg, fuel, c, names[1..], first.world, [] + results);
        assert [] + results == results;
        AfterAfter(acc, results, rest);
      }
    }
  }

  /** Running dependencies one after another only appends. */
  lemma {:induction false} DepsAppend<C, W>(reg: C -> Class<C, W>, fuel: nat, deps: seq<Dependency<C>>, w: W, acc: seq<Entry>)
    ensures DepsSpec(reg, fuel, deps, w, acc) == After(acc, DepsSpec(reg, fuel, deps, w, []))
    decreases |deps|
  {
    if deps == [] {
      assert acc + [] == acc;
    } else {
      var step: Outcome<W, seq<Entry>>;
      var step0: Outcome<W, seq<Entry>>;
      if deps[0].sources.Entire? {
        var entire := EntireSpec(reg, fuel, deps[0].updater, w);
        step := After(acc, entire);
        step0 := After([], entire);
        if entire.Returned? {
          assert [] + entire.value == entire.value;
        }
      } else {
        step := NamesSpec(reg, fuel, deps[0].updater, deps[0].sources.names, w, acc);
        step0 := NamesSpec(reg, fuel, deps[0].updater, deps[0].sources.names, w, []);
        NamesAppend(reg, fuel, deps[0].updater, deps[0].sources.names, w, acc);
      }
      if step0.Returned? {
        var results := step0.value;
        var rest := DepsSpec(reg, fuel, deps[1..], step0.world, []);
        DepsAppend(reg, fuel, deps[1..], step0.world, acc + results);
        DepsAppend(reg, fuel, deps[1..], step0.world, results);
        AfterAfter(acc, results, rest);
      }
    }
  }

  /** update_source of a plain updater: its own entry (absent when
      update_source_impl returned None) comes first, followed by what its
      dependencies return, in declaration order. */
  lemma OwnResultFirst<C, W>(reg: C -> Class<C, W>, fuel: nat, c: C, w: W, name: Name)
    requires fuel > 0 && reg(c).Plain?
    ensures SourceSpec(reg, fuel, c, w, name) ==
      match reg(c).impl(w, name)
      case Threw(w1, e) => Threw(w1, e)
      case Returned(w1, own) =>
        match DepsSpec(reg, fuel - 1, reg(c).deps(name), w1, [])
        case Threw(w2, e) => Threw(w2, e)
        case Returned(w2, results) => Returned(w2, Some(OwnEntries(name, own) + results))
  {
    match reg(c).impl(w, name)
    case Threw(w1, e) =>
    case Returned(w1, own) =>
      DepsAppend(reg, fuel - 1, reg(c).deps(name), w1, OwnEntries(name, own));
  }

  /** The fan-out order: a source A whose only dependency is the named
      sources [B, C] of updater U reports A's own pair, then B's results, then
      C's results, B running on the state A left and C on the state B left. */
  lemma NamedDependencyOrder<C, W>(reg: C -> Class<C, W>, fuel: nat, a: C, u: C, w: W,
                                   nameA: Name, nameB: Name, nameC: Name,
                                   w1: W, w2: W, w3: W, rangeA: DateRange, resultsB: seq<Entry>, resultsC: seq<Entry>)
    requires fuel > 0 && reg(a).Plain?
    requires reg(a).deps(nameA) == [Dependency(u, Named([nameB, nameC]))]
    requires reg(a).impl(w, nameA) == Returned(w1, Some(rangeA))
    requires SourceSpec(reg, fuel - 1, u, w1, nameB) == Returned(w2, Some(resultsB))
    requires SourceSpec(reg, fuel - 1, u, w2, nameC) == Returned(w3, Some(resultsC))
    ensures SourceSpec(reg, fuel, a, w, nameA) == Returned(w3, Some([Entry(nameA, rangeA)] + resultsB + resultsC))
  {
    var own := [Entry(nameA, rangeA)];
    var names := [nameB, nameC];
    assert names[1..] == [nameC];
    assert [nameC][1..] == [];
    assert NamesSpec(reg, fuel - 1, u, [nameC], w2, own + resultsB) == Returned(w3, own + resultsB + resultsC);
    assert NamesSpec(reg, fuel - 1, u, names, w1, own) == Returned(w3, own + resultsB + resultsC);
    var deps := reg(a).deps(nameA);
    assert deps[1..] == [];
    assert DepsSpec(reg, fuel - 1, deps, w1, own) == Returned(w3, own + resultsB + resultsC);
  }

  /** A composite update never lets ConnectionError or gaierror escape. */
  lemma {:induction false} MembersNeverThrowTransient<C, W>(reg: C -> Class<C, W>, fuel: nat, members: seq<C>, w: W, acc: seq<Entry>)
    ensures MembersSpec(reg, fuel, members, w, acc).Threw? ==> !IsTransient(MembersSpec(reg, fuel, members, w, acc).error)
    decreases |members|
  {
    if members != [] {
      match EntireSpec(reg, fuel, members[0], w)
      case Returned(w1, results) =>
        MembersNeverThrowTransient(reg, fuel, members[1..], w1, acc + results);
      case Threw(w1, e) =>
        if IsTransient(e) {
          MembersNeverThrowTransient(reg, fuel, members[1..], w1, acc);
        }
    }
  }

  /** Fault isolation: in a composite over [X, Y] where X raises a transient
      network error and Y succeeds, the composite returns exactly Y's
      results (None when Y had none), keeps whatever X wrote before failing,
      and does not raise. */
  lemma CompositeIsolatesNetworkFailure<C, W>(reg: C -> Class<C, W>, fuel: nat, x: C, y: C, w: W, w1: W, w2: W,
                                              e: Exception, resultsY: seq<Entry>)
    requires IsTransient(e)
    requires EntireSpec(reg, fuel, x, w) == Threw(w1, e)
    requires EntireSpec(reg, fuel, y, w1) == Returned(w2, resultsY)
    ensures CompositeSpec(reg, fuel, [x, y], w) == Returned(w2, if resultsY == [] then None else Some(resultsY))
  {
    assert [x, y][1..] == [y];
    assert [y][1..] == [];
    assert [] + resultsY == resultsY;
    assert MembersSpec(reg, fuel, [y], w1, []) == Returned(w2, resultsY);
    assert MembersSpec(reg, fuel, [x, y], w, []) == Returned(w2, resultsY);
  }

  /** Any other exception raised by a member aborts the composite with that
      exception, and later members do not run. */
  lemma CompositePropagatesOtherFailure<C, W>(reg: C -> Class<C, W>, fuel: nat, x: C, rest: seq<C>, w: W, w1: W)
    requires EntireSpec(reg, fuel, x, w) == Threw(w1, Other)
    ensures CompositeSpec(reg, fuel, [x] + rest, w) == Threw(w1, Other)
  {
  }

  /** A composite ignores the source name it is asked for. */
  lemma CompositeIgnoresName<C, W>(reg: C -> Class<C, W>, fuel: nat, c: C, w: W, name1: Name, name2: Name)
    requires reg(c).Composite?
    ensures SourceSpec(reg, fuel, c, w, name1) == SourceSpec(reg, fuel, c, w, name2)
  {
  }

  /** No cycle detection: a source that lists itself as a named dependency
      of its own class never returns, whatever the recursion budget; it
      always ends in a (recursion-limit) exception. */
  lemma {:induction false} SelfDependencyNeverReturns<C, W>(reg: C -> Class<C, W>, fuel: nat, c: C, w: W, name: Name)
    requires reg(c).Plain? && reg(c).deps(name) == [Dependency(c, Named([name]))]
    requires forall v :: reg(c).impl(v, name).Returned?
    ensures SourceSpec(reg, fuel, c, w, name).Threw?
    decreases fuel
  {
    if fuel > 0 {
      var own := reg(c).impl(w, name);
      var own0 := OwnEntries(name, own.value);
      SelfDependencyNeverReturns(reg, fuel - 1, c, own.world, name);
      var deps := reg(c).deps(name);
      assert deps[1..] == [];
      assert [name][1..] == [];
      assert NamesSpec(reg, fuel - 1, c, [name], own.world, own0).Threw?;
      assert DepsSpec(reg, fuel - 1, deps, own.world, own0).Threw?;
    }
  }

  /** A flavor record: its name plus the rest of its configuration. */
  datatype Flavor<X> = Flavor(name: Name, config: X)

  /** `{flavor['name']: flavor for flavor in flavors}`: every flavor name,
      bound to the last flavor that carries it. */
  function FlavorsMap<X>(flavors: seq<Flavor<X>>): (m: map<Name, Flavor<X>>)
    ensures forall n :: n in m <==> exists i :: 0 <= i < |flavors| && flavors[i].name == n
    ensures forall n :: n in m ==> m[n].name == n
  {
    if flavors == [] then map[]
    else
      var init := flavors[..|flavors| - 1];
      var last := flavors[|flavors| - 1];
      assert forall i :: 0 <= i < |init| ==> init[i] == flavors[i];
      FlavorsMap(init)[last.name := last]
  }

  /** A flavor whose name no later flavor repeats is the one bound to that
      name. */
  lemma {:induction false} FlavorsMapLastWins<X>(flavors: seq<Flavor<X>>, i: nat)
    requires i < |flavors|
    requires forall j :: i < j < |flavors| ==> flavors[j].name != flavors[i].name
    ensures FlavorsMap(flavors)[flavors[i].name] == flavors[i]
    decreases |flavors|
  {
    var init := flavors[..|flavors| - 1];
    if i < |flavors| - 1 {
      assert forall j :: i < j < |init| ==> init[j] == flavors[j];
      FlavorsMapLastWins(init, i);
    }
  }

  /** The key order of that dict: each flavor name once, in the order of its
      first appearance. */
  function FlavorOrder<X>(flavors: seq<Flavor<X>>): (names: seq<Name>)
    ensures forall i, j :: 0 <= i < j < |names| ==> names[i] != names[j]
    ensures forall n :: n in names <==> exists i :: 0 <= i < |flavors| && flavors[i].name == n
  {
    if flavors == [] then []
    else
      var init := flavors[..|flavors| - 1];
      var last := flavors[|flavors| - 1];
      assert forall i :: 0 <= i < |init| ==> init[i] == flavors[i];
      var names := FlavorOrder(init);
      if last.name in names then names else names + [last.name]
  }

  /** FlavorOrder keeps first appearances in order: the first flavor's name
      leads the catalogue, and adding flavors only extends it. */
  lemma {:induction false} FlavorOrderExtends<X>(flavors: seq<Flavor<X>>, more: seq<Flavor<X>>)
    ensures FlavorOrder(flavors) <= FlavorOrder(flavors + more)
    decreases |more|
  {
    if more != [] {
      var init := flavors + more[..|more| - 1];
      assert (flavors + more)[..|flavors + more| - 1] == init;
      FlavorOrderExtends(flavors, more[..|more| - 1]);
    } else {
      assert flavors + more == flavors;
    }
  }

  /** A FlavorUpdater over a list of flavors: its catalogue is FlavorOrder,
      update_source_impl runs update_flavor on the record bound to the name
      (KeyError, an Other exception, for an unknown name) and the
      dependencies are that record's flavor_dependencies. */
  function FlavorClass<C, W, X>(flavors: seq<Flavor<X>>,
                                updateFlavor: (W, Flavor<X>) -> Outcome<W, Option<DateRange>>,
                                flavorDeps: Flavor<X> -> seq<Dependency<C>>): (cls: Class<C, W>)
    ensures cls.Plain? && cls.catalogue == FlavorOrder(flavors)
  {
    var m := FlavorsMap(flavors);
    Plain(FlavorOrder(flavors),
          (w, n) => if n in m then updateFlavor(w, m[n]) else Threw(w, Other),
          n => if n in m then flavorDeps(m[n]) else [])
  }

  /** Asking a flavor updater for a name it does not know raises KeyError
      before anything is fetched or written. */
  lemma FlavorUnknownSource<C, W, X>(reg: C -> Class<C, W>, fuel: nat, c: C, w: W, name: Name,
                                     flavors: seq<Flavor<X>>,
                                     updateFlavor: (W, Flavor<X>) -> Outcome<W, Option<DateRange>>,
                                     flavorDeps: Flavor<X> -> seq<Dependency<C>>)
    requires fuel > 0 && reg(c) == FlavorClass(flavors, updateFlavor, flavorDeps)
    requires forall i :: 0 <= i < |flavors| ==> flavors[i].name != name
    ensures SourceSpec(reg, fuel, c, w, name) == Threw(w, Other)
  {
  }

  /** ResourceUpdater: one source named after its table, no dependencies,
      and update_source_impl is the table's update(). */
  function ResourceUpdaterClass<C, W>(table: Name, update: W -> Outcome<W, DateRange>): (cls: Class<C, W>)
    ensures cls.Plain? && cls.catalogue == [table]
    ensures forall n :: cls.deps(n) == []
  {
    Plain([table],
          (w, n) => match update(w)
                    case Returned(w1, r) => Returned(w1, Some(r))
                    case Threw(w1, e) => Threw(w1, e),
          n => [])
  }

  /** update_entire of a ResourceUpdater runs its table's update once and
      reports exactly one pair for the table. */
  lemma ResourceUpdaterEntire<C, W>(reg: C -> Class<C, W>, fuel: nat, c: C, w: W,
                                    table: Name, update: W -> Outcome<W, DateRange>)
    requires fuel > 0 && reg(c) == ResourceUpdaterClass(table, update)
    ensures EntireSpec(reg, fuel, c, w) ==
      match update(w)
      case Threw(w1, e) => Threw(w1, e)
      case Returned(w1, r) => Returned(w1, [Entry(table, r)])
  {
    var table1 := Catalogue(reg(c));
    assert table1 == [table] && table1[1..] == [];
    assert reg(c).deps(table) == [];
    match update(w)
    case Threw(w1, e) =>
      assert reg(c).impl(w, table) == Threw(w1, e);
      assert SourceSpec(reg, fuel, c, w, table) == Threw(w1, e);
      assert NamesSpec(reg, fuel, c, table1, w, []) == Threw(w1, e);
    case Returned(w1, r) =>
      assert reg(c).impl(w, table) == Returned(w1, Some(r));
      assert SourceSpec(reg, fuel, c, w, table) == Returned(w1, Some([Entry(table, r)]));
      assert [] + [Entry(table, r)] == [Entry(table, r)];
      assert NamesSpec(reg, fuel, c, table1, w, []) == NamesSpec(reg, fuel, c, [], w1, [Entry(table, r)]);
  }
}
