/** MonetaryDelta: the per-date increments of the monetary base, where a run
    of equal consecutive values spreads the jump into it evenly over the
    run's dates. Values are exact reals. */
module MonetaryDelta {
  import opened Common
  import opened Store

  /** One group of itertools.groupby: a value and how many times in a row it
      occurs. */
  datatype Run = Run(value: real, count: nat)

  function Repeat(x: real, n: nat): (s: seq<real>)
    ensures |s| == n && forall i :: 0 <= i < n ==> s[i] == x
  {
    if n == 0 then [] else [x] + Repeat(x, n - 1)
  }

  /** The sequence a list of runs stands for. */
  function Expand(rs: seq<Run>): seq<real>
  {
    if rs == [] then [] else Repeat(rs[0].value, rs[0].count) + Expand(rs[1..])
  }

  /** `[(k, len(list(g))) for k, g in groupby(s)]`: maximal runs of equal
      consecutive values. */
  function Runs(s: seq<real>): (rs: seq<Run>)
    ensures (rs == []) <==> (s == [])
    ensures rs != [] ==> rs[0].value == s[0]
    ensures forall i :: 0 <= i < |rs| ==> rs[i].count >= 1
    ensures forall i :: 0 <= i < |rs| - 1 ==> rs[i].value != rs[i + 1].value
  {
    if s == [] then []
    else
      var rest := Runs(s[1..]);
      if rest != [] && rest[0].value == s[0] then [Run(s[0], rest[0].count + 1)] + rest[1..]
      else [Run(s[0], 1)] + rest
  }

  /** The runs give back the input: groupby loses nothing. */
  lemma {:induction false} ExpandRuns(s: seq<real>)
    ensures Expand(Runs(s)) == s
    decreases |s|
  {
    if s != [] {
      var rest := Runs(s[1..]);
      ExpandRuns(s[1..]);
      if rest != [] && rest[0].value == s[0] {
        var head := rest[0];
        assert Expand(rest) == Repeat(head.value, head.count) + Expand(rest[1..]);
        assert Repeat(s[0], head.count + 1) == [s[0]] + Repeat(head.value, head.count);
        assert ([Run(s[0], head.count + 1)] + rest[1..])[1..] == rest[1..];
      } else {
        assert ([Run(s[0], 1)] + rest)[1..] == rest;
      }
    }
  }

  /** The last run holds the last value. */
  lemma {:induction false} LastRun(s: seq<real>)
    requires s != []
    ensures Runs(s)[|Runs(s)| - 1].value == s[|s| - 1]
    decreases |s|
  {
    if |s| > 1 {
      LastRun(s[1..]);
    }
  }

  /** The share of each member of run r when the run before it has value
      prev. */
  function Share(prev: real, r: Run): real
    requires r.count >= 1
  {
    (r.value - prev) / r.count as real
  }

  /** The deltas of the runs `rs`, the run before the first having value
      `prev`: each element of a run of n values k gets (k - previous k) / n. */
  function Spread(prev: real, rs: seq<Run>): seq<real>
    requires forall i :: 0 <= i < |rs| ==> rs[i].count >= 1
    decreases |rs|
  {
    if rs == [] then []
    else Repeat(Share(prev, rs[0]), rs[0].count) + Spread(rs[0].value, rs[1..])
  }

  lemma {:induction false} SpreadLength(prev: real, rs: seq<Run>)
    requires forall i :: 0 <= i < |rs| ==> rs[i].count >= 1
    ensures |Spread(prev, rs)| == |Expand(rs)|
    decreases |rs|
  {
    if rs != [] {
      SpreadLength(rs[0].value, rs[1..]);
    }
  }

  /** Extending the runs on the right extends the deltas on the right. */
  lemma {:induction false} SpreadSnoc(prev: real, rs: seq<Run>, r: Run)
    requires forall i :: 0 <= i < |rs| ==> rs[i].count >= 1
    requires r.count >= 1
    ensures Spread(prev, rs + [r]) ==
      Spread(prev, rs) + Repeat(Share(if rs == [] then prev else rs[|rs| - 1].value, r), r.count)
    decreases |rs|
  {
    if rs == [] {
      assert Spread(prev, [r]) == Repeat(Share(prev, r), r.count) + Spread(r.value, []);
    } else {
      assert (rs + [r])[1..] == rs[1..] + [r];
      SpreadSnoc(rs[0].value, rs[1..], r);
    }
  }

  function Sum(s: seq<real>): real
  {
    if s == [] then 0.0 else s[0] + Sum(s[1..])
  }

  lemma {:induction false} SumAppend(a: seq<real>, b: seq<real>)
    ensures Sum(a + b) == Sum(a) + Sum(b)
    decreases |a|
  {
    if a != [] {
      assert (a + b)[0] == a[0];
      assert (a + b)[1..] == a[1..] + b;
      SumAppend(a[1..], b);
    } else {
      assert a + b == b;
    }
  }

  lemma {:induction false} SumRepeat(x: real, n: nat)
    ensures Sum(Repeat(x, n)) == n as real * x
    decreases n
  {
    if n > 0 {
      SumRepeat(x, n - 1);
    }
  }

  /** One run's shares add up to the run's change. */
  lemma SumShare(prev: real, r: Run)
    requires r.count >= 1
    ensures Sum(Repeat(Share(prev, r), r.count)) == r.value - prev
  {
    SumRepeat(Share(prev, r), r.count);
  }

  /** Telescoping: the deltas of the runs add up to the last run's value
      minus `prev`. */
  lemma {:induction false} SumSpread(prev: real, rs: seq<Run>)
    requires rs != [] && forall i :: 0 <= i < |rs| ==> rs[i].count >= 1
    ensures Sum(Spread(prev, rs)) == rs[|rs| - 1].value - prev
    decreases |rs|
  {
    var run := Repeat(Share(prev, rs[0]), rs[0].count);
    var tail := Spread(rs[0].value, rs[1..]);
    assert Spread(prev, rs) == run + tail;
    SumAppend(run, tail);
    SumShare(prev, rs[0]);
    if |rs| > 1 {
      SumSpread(rs[0].value, rs[1..]);
    } else {
      assert tail == [];
    }
  }

  /** What deltas(mbase) returns: IndexError on an empty series. */
  function DeltasSpec(mbase: seq<real>): (r: Result<seq<real>>)
    ensures r.Raised? <==> mbase == []
    ensures r.Raised? ==> r.error == Other
  {
    if mbase == [] then Raised(Other) else Ok(Spread(mbase[0], Runs(mbase)))
  }

  lemma RepeatSnoc(x: real, n: nat)
    ensures Repeat(x, n + 1) == Repeat(x, n) + [x]
  {
  }

  /** deltas(mbase): the groups with the sentinel group (mbase[0], 1) in
      front, then one pass over consecutive groups appending each group's
      share n times. */
  method Deltas(mbase: seq<real>) returns (r: Result<seq<real>>)
    ensures r == DeltasSpec(mbase)
  {
    if mbase == [] {
      return Raised(Other);
    }
    var runs := Runs(mbase);
    var grouped := [Run(mbase[0], 1)] + runs;
    assert grouped[1..] == runs;
    var deltas: seq<real> := [];
    for i := 1 to |grouped|
      invariant deltas == Spread(mbase[0], runs[..i - 1])
    {
      var k, n := grouped[i].value, grouped[i].count;
      var delta := k - grouped[i - 1].value;
      var share := delta / n as real;
      assert share == Share(grouped[i - 1].value, grouped[i]);
      ghost var before := deltas;
      for j := 0 to n
        invariant deltas == before + Repeat(share, j)
      {
        RepeatSnoc(share, j);
        deltas := deltas + [share];
      }
      SpreadStep(mbase[0], runs, i - 1);
    }
    assert runs[..|grouped| - 1] == runs;
    return Ok(deltas);
  }

  /** One pass of the outer loop of deltas: the deltas of the first i + 1
      runs extend those of the first i runs by run i's share. */
  lemma SpreadStep(first: real, runs: seq<Run>, i: nat)
    requires i < |runs| && forall k :: 0 <= k < |runs| ==> runs[k].count >= 1
    ensures Spread(first, runs[..i + 1]) ==
      Spread(first, runs[..i]) + Repeat(Share(if i == 0 then first else runs[i - 1].value, runs[i]), runs[i].count)
  {
    assert runs[..i + 1] == runs[..i] + [runs[i]];
    SpreadSnoc(first, runs[..i], runs[i]);
  }

  /** deltas keeps the length of the series, maps every value of the first
      run to 0, and its deltas add up to the last value minus the first. */
  lemma DeltasProperties(mbase: seq<real>)
    requires mbase != []
    ensures var d := DeltasSpec(mbase).value;
      && |d| == |mbase|
      && (forall i :: 0 <= i < Runs(mbase)[0].count ==> d[i] == 0.0)
      && Sum(d) == mbase[|mbase| - 1] - mbase[0]
  {
    var rs := Runs(mbase);
    var d := DeltasSpec(mbase).value;
    assert d == Spread(mbase[0], rs);
    assert |d| == |mbase| by {
      SpreadLength(mbase[0], rs);
      ExpandRuns(mbase);
    }
    assert Sum(d) == mbase[|mbase| - 1] - mbase[0] by {
      SumSpread(mbase[0], rs);
      LastRun(mbase);
    }
    var zeros := Repeat(Share(mbase[0], rs[0]), rs[0].count);
    assert Share(mbase[0], rs[0]) == 0.0;
    assert d == zeros + Spread(rs[0].value, rs[1..]);
    assert forall i :: 0 <= i < rs[0].count ==> d[i] == zeros[i];
  }

  /** The deltas of two consecutive lists of runs are the deltas of the
      first followed by those of the second, which starts from the last
      value of the first. */
  lemma {:induction false} SpreadAppend(prev: real, a: seq<Run>, b: seq<Run>)
    requires forall k :: 0 <= k < |a| ==> a[k].count >= 1
    requires forall k :: 0 <= k < |b| ==> b[k].count >= 1
    ensures Spread(prev, a + b) == Spread(prev, a) + Spread(if a == [] then prev else a[|a| - 1].value, b)
    decreases |a|
  {
    if a == [] {
      assert a + b == b;
    } else {
      assert (a + b)[1..] == a[1..] + b;
      SpreadAppend(a[0].value, a[1..], b);
    }
  }

  /** Each value of run i of `rs` gets the share of run i. */
  lemma SpreadRunMember(prev: real, rs: seq<Run>, i: nat, t: nat)
    requires forall k :: 0 <= k < |rs| ==> rs[k].count >= 1
    requires i < |rs| && t < rs[i].count
    ensures |Expand(rs[..i])| + t < |Spread(prev, rs)|
    ensures Spread(prev, rs)[|Expand(rs[..i])| + t] == Share(if i == 0 then prev else rs[i - 1].value, rs[i])
  {
    var share := Share(if i == 0 then prev else rs[i - 1].value, rs[i]);
    var head := Spread(prev, rs[..i]);
    var rep := Repeat(share, rs[i].count);
    var tail := Spread(rs[i].value, rs[i + 1..]);
    assert rs == rs[..i + 1] + rs[i + 1..];
    assert rs[..i + 1][i] == rs[i];
    SpreadAppend(prev, rs[..i + 1], rs[i + 1..]);
    SpreadStep(prev, rs, i);
    assert Spread(prev, rs) == head + rep + tail;
    SpreadLength(prev, rs[..i]);
    assert (head + rep + tail)[|head| + t] == rep[t];
  }

  /** Each value of run i (a run of n values k, starting at position
      |Expand(runs[..i])|) gets the delta (k - the previous run's value) / n;
      the first run is measured against mbase[0], so its share is 0. */
  lemma DeltaOfRunMember(mbase: seq<real>, i: nat, t: nat)
    requires mbase != [] && i < |Runs(mbase)| && t < Runs(mbase)[i].count
    ensures var rs := Runs(mbase);
      && |Expand(rs[..i])| + t < |DeltasSpec(mbase).value|
      && DeltasSpec(mbase).value[|Expand(rs[..i])| + t]
         == Share(if i == 0 then mbase[0] else rs[i - 1].value, rs[i])
  {
    SpreadRunMember(mbase[0], Runs(mbase), i, t);
  }

  /** The value column of a frame (`df.MBDelta` before it is replaced). */
  function Values(series: Frame<(), real>): (v: seq<real>)
    ensures |v| == |series| && forall i :: 0 <= i < |series| ==> v[i] == series[i].values
  {
    seq(|series|, i requires 0 <= i < |series| => series[i].values)
  }

  /** The MBDelta table for an MBase series: the same dates, each value
      replaced by its delta. */
  function DeltaFrame(series: Frame<(), real>): (r: Result<Frame<(), real>>)
    ensures r.Raised? <==> series == []
    ensures r.Ok? ==> |r.value| == |series| && forall i :: 0 <= i < |series| ==> r.value[i].key == series[i].key
    ensures r.Ok? ==> var d := DeltasSpec(Values(series)).value;
      |d| == |series| && forall i :: 0 <= i < |series| ==> r.value[i].values == d[i]
  {
    var values := Values(series);
    match DeltasSpec(values)
    case Raised(e) => Raised(e)
    case Ok(d) =>
      DeltasProperties(values);
      Ok(seq(|series|, i requires 0 <= i < |series| => Row(series[i].key, d[i])))
  }

  /** initial_fill: the whole MBase series, renamed MBDelta and replaced by
      its deltas. */
  method InitialFill(series: Frame<(), real>) returns (r: Result<Frame<(), real>>)
    ensures r == DeltaFrame(series)
  {
    var values := Values(series);
    var d := Deltas(values);
    if d.Raised? {
      return Raised(d.error);
    }
    DeltasProperties(values);
    return Ok(seq(|series|, i requires 0 <= i < |series| => Row(series[i].key, d.value[i])));
  }

  /** fill(first, last) ignores its window and recomputes everything. */
  method Fill(series: Frame<(), real>, first: int, last: int) returns (r: Result<Frame<(), real>>)
    ensures r == DeltaFrame(series)
  {
    r := InitialFill(series);
  }
}
