/** The performance samples of one function invocation: the cores its thread ran on, taken from the
    thread's scheduling, and their samples inside the invocation. */
module InvocationSamples {
  import opened ByteStrings
  import opened BandwidthWindow

  /** A core's sample: the time it was taken, the time it stands for, and a rate. */
  datatype Tick = Tick(timestamp: int, delta: int, rate: real)

  /** A sample with the core it comes from. */
  datatype Sample = Sample(core: int, tick: Tick)

  /** A scheduling interval of the thread. */
  datatype Stint = Stint(core: int, start: int, end: int)

  predicate Touches(x: Stint, s: int, e: int) {
    x.start <= e && x.end >= s
  }

  function TicksOn(perf: map<int, seq<Tick>>, core: int): seq<Tick> {
    if core in perf then perf[core] else []
  }

  /** A core's samples inside the invocation. */
  function Inside(core: int, ticks: seq<Tick>, s: int, e: int): seq<Sample> {
    if ticks == [] then []
    else if s <= ticks[|ticks| - 1].timestamp <= e
    then Inside(core, ticks[..|ticks| - 1], s, e) + [Sample(core, ticks[|ticks| - 1])]
    else Inside(core, ticks[..|ticks| - 1], s, e)
  }

  lemma {:induction false} NoneAfter(core: int, a: seq<Tick>, b: seq<Tick>, s: int, e: int)
    requires forall t :: t in b ==> t.timestamp > e
    ensures Inside(core, a + b, s, e) == Inside(core, a, s, e)
  {
    if b == [] {
      assert a + b == a;
    } else {
      assert (a + b)[..|a + b| - 1] == a + b[..|b| - 1];
      assert b[|b| - 1] in b;
      NoneAfter(core, a, b[..|b| - 1], s, e);
    }
  }

  lemma InsideSnoc(core: int, ticks: seq<Tick>, t: Tick, s: int, e: int)
    ensures Inside(core, ticks + [t], s, e)
            == if s <= t.timestamp <= e then Inside(core, ticks, s, e) + [Sample(core, t)] else Inside(core, ticks, s, e)
  {
    assert (ticks + [t])[..|ticks|] == ticks;
  }

  function Weights(samples: seq<Sample>): int {
    if samples == [] then 0 else Weights(samples[..|samples| - 1]) + samples[|samples| - 1].tick.delta
  }

  function WeightedRates(samples: seq<Sample>): real {
    if samples == [] then 0.0
    else WeightedRates(samples[..|samples| - 1]) + Area(samples[|samples| - 1].tick.rate, samples[|samples| - 1].tick.delta)
  }

  lemma WeightsSnoc(samples: seq<Sample>, x: Sample)
    ensures Weights(samples + [x]) == Weights(samples) + x.tick.delta
    ensures WeightedRates(samples + [x]) == WeightedRates(samples) + Area(x.tick.rate, x.tick.delta)
  {
    assert (samples + [x])[..|samples|] == samples;
  }

  ghost predicate InTimeOrder(ticks: seq<Tick>) {
    forall i, j :: 0 <= i <= j < |ticks| ==> ticks[i].timestamp <= ticks[j].timestamp
  }

  lemma LateTail(ticks: seq<Tick>, k: nat, e: int)
    requires InTimeOrder(ticks) && k < |ticks| && ticks[k].timestamp > e
    ensures forall t :: t in ticks[k..] ==> t.timestamp > e
  {
  }

  // ------------------------------------------------------------ the program

  /** The cores the thread ran on during the invocation, one entry for each scheduling interval that
      touches it. */
  function CoresDuring(stints: seq<Stint>, s: int, e: int): seq<int> {
    if stints == [] then []
    else if Touches(stints[|stints| - 1], s, e)
    then CoresDuring(stints[..|stints| - 1], s, e) + [stints[|stints| - 1].core]
    else CoresDuring(stints[..|stints| - 1], s, e)
  }

  /** The samples of these cores inside the invocation, core after core. */
  function InsideAll(cores: seq<int>, perf: map<int, seq<Tick>>, s: int, e: int): seq<Sample> {
    if cores == [] then []
    else InsideAll(cores[..|cores| - 1], perf, s, e)
         + Inside(cores[|cores| - 1], TicksOn(perf, cores[|cores| - 1]), s, e)
  }

  lemma InsideAllSnoc(cores: seq<int>, c: int, perf: map<int, seq<Tick>>, s: int, e: int)
    ensures InsideAll(cores + [c], perf, s, e) == InsideAll(cores, perf, s, e) + Inside(c, TicksOn(perf, c), s, e)
  {
    hide Inside, TicksOn;
    assert (cores + [c])[..|cores|] == cores;
  }

  lemma NoCores(perf: map<int, seq<Tick>>, s: int, e: int)
    ensures InsideAll([], perf, s, e) == [] && Weights([]) == 0 && WeightedRates([]) == 0.0
  {
  }

  /** One core: leaving its list at the first sample past the end misses none, because the list is
      in time order. */
  method CollectCore(core: int, ticks: seq<Tick>, s: int, e: int, before: seq<Sample>, weight: int, rate: real)
    returns (collected: seq<Sample>, totalWeight: int, weightedRate: real)
    requires InTimeOrder(ticks) && weight == Weights(before) && rate == WeightedRates(before)
    ensures collected == before + Inside(core, ticks, s, e)
    ensures totalWeight == Weights(collected) && weightedRate == WeightedRates(collected)
  {
    hide *;
    collected, totalWeight, weightedRate := before, weight, rate;
    var k := 0;
    NothingInside(core, ticks, s, e);
    assert before + [] == before;
    while k < |ticks|
      invariant k <= |ticks| && collected == before + Inside(core, ticks[..k], s, e)
      invariant totalWeight == Weights(collected) && weightedRate == WeightedRates(collected)
    {
      if ticks[k].timestamp > e {
        LateTail(ticks, k, e);
        NoneAfter(core, ticks[..k], ticks[k..], s, e);
        assert ticks[..k] + ticks[k..] == ticks;
        return;
      }
      InsideSnoc(core, ticks[..k], ticks[k], s, e);
      assert ticks[..k + 1] == ticks[..k] + [ticks[k]];
      if ticks[k].timestamp >= s {
        WeightsSnoc(collected, Sample(core, ticks[k]));
        Assoc(before, Inside(core, ticks[..k], s, e), [Sample(core, ticks[k])]);
        totalWeight := totalWeight + ticks[k].delta;
        weightedRate := weightedRate + Area(ticks[k].rate, ticks[k].delta);
        collected := collected + [Sample(core, ticks[k])];
      }
      k := k + 1;
    }
    assert ticks[..|ticks|] == ticks;
  }

  lemma NothingInside(core: int, ticks: seq<Tick>, s: int, e: int)
    ensures Inside(core, ticks[..0], s, e) == []
  {
  }

  /** The first half of compute_metrics_for_invocation. */
  method CollectSamples(stints: seq<Stint>, perf: map<int, seq<Tick>>, s: int, e: int)
    returns (collected: seq<Sample>, totalWeight: int, weightedRate: real)
    requires forall c :: InTimeOrder(TicksOn(perf, c))
    ensures collected == InsideAll(CoresDuring(stints, s, e), perf, s, e)
    ensures totalWeight == Weights(collected) && weightedRate == WeightedRates(collected)
  {
    hide *;
    var cores := CoresDuring(stints, s, e);
    collected, totalWeight, weightedRate := [], 0, 0.0;
    NoCores(perf, s, e);
    assert cores[..0] == [];
    for i := 0 to |cores|
      invariant collected == InsideAll(cores[..i], perf, s, e)
      invariant totalWeight == Weights(collected) && weightedRate == WeightedRates(collected)
    {
      assert cores[..i + 1] == cores[..i] + [cores[i]];
      InsideAllSnoc(cores[..i], cores[i], perf, s, e);
      collected, totalWeight, weightedRate := CollectCore(cores[i], TicksOn(perf, cores[i]), s, e, collected, totalWeight, weightedRate);
    }
    assert cores[..|cores|] == cores;
  }

  // ------------------------------------------------- each sample once, or not

  /** How often a core is listed. */
  function Times(cores: seq<int>, c: int): nat {
    if cores == [] then 0 else Times(cores[..|cores| - 1], c) + if cores[|cores| - 1] == c then 1 else 0
  }

  /** What was collected from one core. */
  function FromCore(samples: seq<Sample>, c: int): seq<Sample> {
    if samples == [] then []
    else if samples[|samples| - 1].core == c then FromCore(samples[..|samples| - 1], c) + [samples[|samples| - 1]]
    else FromCore(samples[..|samples| - 1], c)
  }

  lemma {:induction false} FromCoreConcat(a: seq<Sample>, b: seq<Sample>, c: int)
    ensures FromCore(a + b, c) == FromCore(a, c) + FromCore(b, c)
  {
    if b == [] {
      assert a + b == a;
    } else {
      var front, last := b[..|b| - 1], b[|b| - 1];
      FromCoreConcat(a, front, c);
      assert a + b == (a + front) + [last] && (a + b)[..|a + b| - 1] == a + front;
    }
  }

  lemma {:induction false} FromCoreInside(core: int, ticks: seq<Tick>, s: int, e: int, c: int)
    ensures FromCore(Inside(core, ticks, s, e), c) == if core == c then Inside(core, ticks, s, e) else []
  {
    if ticks != [] {
      var front := ticks[..|ticks| - 1];
      FromCoreInside(core, front, s, e, c);
      if s <= ticks[|ticks| - 1].timestamp <= e {
        assert Inside(core, ticks, s, e)[..|Inside(core, ticks, s, e)| - 1] == Inside(core, front, s, e);
      }
    }
  }

  /** A core's samples are collected as often as the core is listed. */
  lemma {:induction false} CollectedAsOftenAsListed(cores: seq<int>, perf: map<int, seq<Tick>>, s: int, e: int, c: int)
    ensures var mine := Inside(c, TicksOn(perf, c), s, e);
            var got := FromCore(InsideAll(cores, perf, s, e), c);
            && |got| == Times(cores, c) * |mine|
            && (Times(cores, c) == 1 ==> got == mine)
  {
    hide *;
    NothingListed(perf, s, e, c);
    if cores != [] {
      var front, core := cores[..|cores| - 1], cores[|cores| - 1];
      var mine := Inside(c, TicksOn(perf, c), s, e);
      assert cores == front + [core];
      CollectedAsOftenAsListed(front, perf, s, e, c);
      InsideAllSnoc(front, core, perf, s, e);
      TimesSnoc(front, core, c);
      FromCoreConcat(InsideAll(front, perf, s, e), Inside(core, TicksOn(perf, core), s, e), c);
      FromCoreInside(core, TicksOn(perf, core), s, e, c);
      OneMoreTime(Times(front, c), |mine|);
      NoneYet(FromCore(InsideAll(front, perf, s, e), c), mine, Times(front, c));
    }
  }

  lemma NothingListed(perf: map<int, seq<Tick>>, s: int, e: int, c: int)
    ensures InsideAll([], perf, s, e) == [] && FromCore([], c) == [] && Times([], c) == 0
  {
  }

  lemma TimesSnoc(cores: seq<int>, core: int, c: int)
    ensures Times(cores + [core], c) == Times(cores, c) + if core == c then 1 else 0
  {
    assert (cores + [core])[..|cores|] == cores;
  }

  lemma OneMoreTime(n: nat, m: nat)
    ensures (n + 1) * m == n * m + m
  {
  }

  lemma NoneYet(got: seq<Sample>, mine: seq<Sample>, n: nat)
    requires |got| == n * |mine|
    ensures n == 0 ==> got + mine == mine
    ensures got + [] == got
  {
  }

  /** The intervals that are taken are those with a moment in common with the invocation. */
  lemma TouchesExactly(x: Stint, s: int, e: int)
    requires s <= e && x.start <= x.end
    ensures Touches(x, s, e) <==> exists t :: Moment(t, s, e) && Moment(t, x.start, x.end)
  {
    if Touches(x, s, e) {
      assert Moment(Max(s, x.start), s, e) && Moment(Max(s, x.start), x.start, x.end);
    }
  }

  predicate Moment(t: int, start: int, end: int) {
    start <= t <= end
  }

  /** So a core is listed exactly when the thread was on it at some moment of the invocation. */
  lemma ListedExactly(stints: seq<Stint>, s: int, e: int, c: int)
    requires s <= e && forall x :: x in stints ==> x.start <= x.end
    ensures c in CoresDuring(stints, s, e)
            <==> exists i, t :: 0 <= i < |stints| && stints[i].core == c
                                && Moment(t, s, e) && Moment(t, stints[i].start, stints[i].end)
  {
    hide CoresDuring, Times, Touches, Moment;
    TimesPositive(CoresDuring(stints, s, e), c);
    ListedTwice(stints, s, e, c);
    forall i | 0 <= i < |stints|
      ensures OnDuring(stints[i], s, e, c)
              <==> stints[i].core == c && exists t :: Moment(t, s, e) && Moment(t, stints[i].start, stints[i].end)
    {
      TouchesExactly(stints[i], s, e);
    }
  }

  /** And a sample is taken exactly when it was recorded in the invocation, ends included. */
  lemma {:induction false} InsideExactly(core: int, ticks: seq<Tick>, s: int, e: int, x: Sample)
    ensures x in Inside(core, ticks, s, e) <==> x.core == core && x.tick in ticks && s <= x.tick.timestamp <= e
  {
    if ticks != [] {
      var front, t := ticks[..|ticks| - 1], ticks[|ticks| - 1];
      InsideExactly(core, front, s, e, x);
      InsideSnoc(core, front, t, s, e);
      assert ticks == front + [t];
    }
  }

  /** A core is listed once for every scheduling interval on it that touches the invocation. */
  lemma {:induction false} ListedPerStint(stints: seq<Stint>, s: int, e: int, c: int)
    ensures Times(CoresDuring(stints, s, e), c) == |StintsDuring(stints, s, e, c)|
  {
    hide *;
    NothingDuring(s, e, c);
    if stints != [] {
      var front, last := stints[..|stints| - 1], stints[|stints| - 1];
      assert stints == front + [last];
      ListedPerStint(front, s, e, c);
      DuringSnoc(front, last, s, e, c);
      OneMoreDuring(front, last, s, e, c);
    }
  }

  /** Which intervals on the core touch the invocation. */
  ghost function StintsDuring(stints: seq<Stint>, s: int, e: int, c: int): set<nat> {
    set i: nat | i < |stints| && OnDuring(stints[i], s, e, c)
  }

  lemma OneMoreDuring(stints: seq<Stint>, x: Stint, s: int, e: int, c: int)
    ensures |StintsDuring(stints + [x], s, e, c)|
            == |StintsDuring(stints, s, e, c)| + if OnDuring(x, s, e, c) then 1 else 0
  {
    hide OnDuring;
    var before := StintsDuring(stints, s, e, c);
    assert StintsDuring(stints + [x], s, e, c) == if OnDuring(x, s, e, c) then before + {|stints|} else before;
  }

  /** A core is listed twice exactly when two scheduling intervals on it touch the invocation. */
  lemma {:induction false} ListedTwice(stints: seq<Stint>, s: int, e: int, c: int)
    ensures Times(CoresDuring(stints, s, e), c) > 0
            <==> exists i :: 0 <= i < |stints| && OnDuring(stints[i], s, e, c)
    ensures Times(CoresDuring(stints, s, e), c) > 1
            <==> exists i, j :: 0 <= i < j < |stints| && OnDuring(stints[i], s, e, c) && OnDuring(stints[j], s, e, c)
  {
    hide *;
    NothingDuring(s, e, c);
    if stints != [] {
      var front, last := stints[..|stints| - 1], stints[|stints| - 1];
      assert stints == front + [last];
      ListedTwice(front, s, e, c);
      DuringSnoc(front, last, s, e, c);
      OneMore(front, last, s, e, c);
    }
  }

  lemma NothingDuring(s: int, e: int, c: int)
    ensures Times(CoresDuring([], s, e), c) == 0 && StintsDuring([], s, e, c) == {}
  {
  }

  lemma DuringSnoc(stints: seq<Stint>, x: Stint, s: int, e: int, c: int)
    ensures Times(CoresDuring(stints + [x], s, e), c)
            == Times(CoresDuring(stints, s, e), c) + if OnDuring(x, s, e, c) then 1 else 0
  {
    assert (stints + [x])[..|stints|] == stints;
    hide Times, Touches;
    TimesSnoc(CoresDuring(stints, s, e), x.core, c);
  }

  /** How one interval more changes whether there is one, or two. */
  lemma OneMore(stints: seq<Stint>, x: Stint, s: int, e: int, c: int)
    ensures var r := stints + [x];
      && ((exists i :: 0 <= i < |r| && OnDuring(r[i], s, e, c))
          <==> OnDuring(x, s, e, c) || exists i :: 0 <= i < |stints| && OnDuring(stints[i], s, e, c))
      && ((exists i, j :: 0 <= i < j < |r| && OnDuring(r[i], s, e, c) && OnDuring(r[j], s, e, c))
          <==> (OnDuring(x, s, e, c) && exists i :: 0 <= i < |stints| && OnDuring(stints[i], s, e, c))
               || exists i, j :: 0 <= i < j < |stints| && OnDuring(stints[i], s, e, c) && OnDuring(stints[j], s, e, c))
  {
    hide OnDuring;
    var r := stints + [x];
    assert r[|stints|] == x && forall i :: 0 <= i < |stints| ==> r[i] == stints[i];
    if i :| 0 <= i < |stints| && OnDuring(stints[i], s, e, c) {
      assert OnDuring(r[i], s, e, c) && OnDuring(r[|stints|], s, e, c) <==> OnDuring(x, s, e, c);
    }
    if i, j :| 0 <= i < j < |stints| && OnDuring(stints[i], s, e, c) && OnDuring(stints[j], s, e, c) {
      assert OnDuring(r[i], s, e, c) && OnDuring(r[j], s, e, c);
    }
  }

  ghost predicate OnDuring(x: Stint, s: int, e: int, c: int) {
    x.core == c && Touches(x, s, e)
  }

  /** Each sample inside the invocation, of the cores the thread ran on, is collected exactly once. */
  ghost predicate EachOnce(stints: seq<Stint>, perf: map<int, seq<Tick>>, s: int, e: int) {
    forall c :: c in CoresDuring(stints, s, e) ==>
      FromCore(InsideAll(CoresDuring(stints, s, e), perf, s, e), c) == Inside(c, TicksOn(perf, c), s, e)
  }

  lemma {:induction false} TimesPositive(cores: seq<int>, c: int)
    ensures c in cores <==> Times(cores, c) > 0
  {
    if cores != [] {
      TimesPositive(cores[..|cores| - 1], c);
    }
  }

  lemma OnceFor(cores: seq<int>, perf: map<int, seq<Tick>>, s: int, e: int, c: int)
    requires Times(cores, c) > 0
    ensures FromCore(InsideAll(cores, perf, s, e), c) == Inside(c, TicksOn(perf, c), s, e)
            <==> Times(cores, c) == 1 || Inside(c, TicksOn(perf, c), s, e) == []
  {
    hide *;
    CollectedAsOftenAsListed(cores, perf, s, e, c);
    var n, m := Times(cores, c), |Inside(c, TicksOn(perf, c), s, e)|;
    if n > 1 && m > 0 {
      assert n * m == m + (n - 1) * m && (n - 1) * m > 0;
    }
  }

  /** That is so exactly when no core with a sample inside the invocation has two scheduling
      intervals of the thread that touch it. */
  lemma EachOnceExactly(stints: seq<Stint>, perf: map<int, seq<Tick>>, s: int, e: int)
    ensures EachOnce(stints, perf, s, e)
            <==> forall i, j :: 0 <= i < j < |stints| && stints[i].core == stints[j].core
                                && Touches(stints[i], s, e) && Touches(stints[j], s, e) ==>
                   Inside(stints[i].core, TicksOn(perf, stints[i].core), s, e) == []
  {
    hide FromCore, InsideAll, Inside, TicksOn, CoresDuring, Times, Touches;
    var cores := CoresDuring(stints, s, e);
    forall c
      ensures c in cores ==>
        (FromCore(InsideAll(cores, perf, s, e), c) == Inside(c, TicksOn(perf, c), s, e)
         <==> Inside(c, TicksOn(perf, c), s, e) == []
              || !exists i, j :: 0 <= i < j < |stints| && OnDuring(stints[i], s, e, c) && OnDuring(stints[j], s, e, c))
    {
      TimesPositive(cores, c);
      ListedTwice(stints, s, e, c);
      if c in cores {
        OnceFor(cores, perf, s, e, c);
      }
    }
    if EachOnce(stints, perf, s, e) {
      forall i, j | 0 <= i < j < |stints| && stints[i].core == stints[j].core
                    && Touches(stints[i], s, e) && Touches(stints[j], s, e)
        ensures Inside(stints[i].core, TicksOn(perf, stints[i].core), s, e) == []
      {
        var c := stints[i].core;
        assert OnDuring(stints[i], s, e, c) && OnDuring(stints[j], s, e, c);
        ListedTwice(stints, s, e, c);
        TimesPositive(cores, c);
      }
    }
  }

  /** A thread that leaves a core and comes back during the invocation: each sample of that core
      inside it is collected, and weighted, twice. */
  lemma BackOnTheCore(t: Tick)
    requires t.timestamp == 15
    ensures var stints, perf := [Stint(0, 0, 10), Stint(0, 20, 30)], map[0 := [t]];
            && InsideAll(CoresDuring(stints, 5, 25), perf, 5, 25) == [Sample(0, t), Sample(0, t)]
            && !EachOnce(stints, perf, 5, 25)
  {
    hide CoresDuring, Inside, InsideAll, EachOnce, FromCore, Times;
    var a, b, perf := Stint(0, 0, 10), Stint(0, 20, 30), map[0 := [t]];
    OnceInside(t);
    BothListed(a, b);
    assert TicksOn(perf, 0) == [t] && [0, 0] == [0] + [0] && [0] == [] + [0];
    NoCores(perf, 5, 25);
    InsideAllSnoc([], 0, perf, 5, 25);
    InsideAllSnoc([0], 0, perf, 5, 25);
    EachOnceExactly([a, b], perf, 5, 25);
    assert [a, b][0].core == [a, b][1].core && Touches([a, b][0], 5, 25) && Touches([a, b][1], 5, 25);
  }

  lemma OnceInside(t: Tick)
    requires t.timestamp == 15
    ensures Inside(0, [t], 5, 25) == [Sample(0, t)]
  {
    assert [t][..0] == [];
  }

  lemma BothListed(a: Stint, b: Stint)
    requires a.core == b.core == 0 && Touches(a, 5, 25) && Touches(b, 5, 25)
    ensures CoresDuring([a, b], 5, 25) == [0, 0]
  {
    assert [a, b][..1] == [a] && [a][..0] == [];
    assert CoresDuring([a], 5, 25) == [0];
  }
}
