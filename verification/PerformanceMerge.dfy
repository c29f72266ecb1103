/** The per-core performance log merged into one timeline: a heap holds the next record of every
    CPU, and a running total follows the bandwidth of each. */
module PerformanceMerge {
  import opened Options
  import opened ByteStrings
  import opened StableSort
  import opened BandwidthWindow
  import opened InvocationSamples

  datatype Record = Record(cpu: int, timestamp: int, stalls: int, insts: int, cycles: int, misses: int, prefetches: int)

  /** What one record says about the time since the one before it on its core. */
  datatype PerfEntry = PerfEntry(timestamp: int, delta: int, stallRate: real, instRate: real, usage: real,
                                 missRate: real, prefetchRate: real, bandwidth: real)

  function TimestampOf(r: Record): int {
    r.timestamp
  }

  // ----------------------------------------------------------- the first pass

  /** The records of one CPU. */
  function Of(s: seq<Record>, cpu: int): seq<Record> {
    if s == [] then [] else Of(s[..|s| - 1], cpu) + if s[|s| - 1].cpu == cpu then [s[|s| - 1]] else []
  }

  lemma OfSnoc(s: seq<Record>, x: Record, cpu: int)
    ensures Of(s + [x], cpu) == if x.cpu == cpu then Of(s, cpu) + [x] else Of(s, cpu)
  {
    assert (s + [x])[..|s|] == s;
  }

  lemma {:induction false} OfConcat(a: seq<Record>, b: seq<Record>, cpu: int)
    ensures Of(a + b, cpu) == Of(a, cpu) + Of(b, cpu)
  {
    if b == [] {
      assert a + b == a;
    } else {
      hide *;
      var front, last := b[..|b| - 1], b[|b| - 1];
      assert front + [last] == b;
      OfConcat(a, front, cpu);
      OfConcatSnoc(a, front, last, cpu);
    }
  }

  lemma OfConcatSnoc(a: seq<Record>, front: seq<Record>, last: Record, cpu: int)
    requires Of(a + front, cpu) == Of(a, cpu) + Of(front, cpu)
    ensures Of(a + (front + [last]), cpu) == Of(a, cpu) + Of(front + [last], cpu)
  {
    hide *;
    Assoc(a, front, [last]);
    OfSnoc(a + front, last, cpu);
    OfSnoc(front, last, cpu);
    Assoc(Of(a, cpu), Of(front, cpu), [last]);
  }

  lemma {:induction false} OfMember(s: seq<Record>, x: Record)
    ensures x in Of(s, x.cpu) <==> x in s
    ensures forall y, c :: y in Of(s, c) ==> y.cpu == c && y in s
  {
    if s != [] {
      OfMember(s[..|s| - 1], x);
    }
  }

  /** A dictionary of lists, empty where it has no key. */
  function Get(data: map<int, seq<Record>>, cpu: int): seq<Record> {
    if cpu in data then data[cpu] else []
  }

  /** The dictionary holds, for every CPU, its records in log order. */
  ghost predicate Splits(data: map<int, seq<Record>>, log: seq<Record>) {
    forall c :: Get(data, c) == Of(log, c)
  }

  lemma SplitsNothing()
    ensures Splits(map[], []) && Listed([], map[]) && Populated(map[])
  {
  }

  lemma SplitsStep(data: map<int, seq<Record>>, log: seq<Record>, x: Record)
    requires Splits(data, log)
    ensures Splits(data[x.cpu := Get(data, x.cpu) + [x]], log + [x])
  {
    hide Of;
    forall c
      ensures Get(data[x.cpu := Get(data, x.cpu) + [x]], c) == Of(log + [x], c)
    {
      OfSnoc(log, x, c);
    }
  }

  /** The list of CPUs and the dictionary's keys are the same. */
  ghost predicate Listed(cpus: seq<int>, data: map<int, seq<Record>>) {
    Distinct(cpus) && forall c :: c in cpus <==> c in data
  }

  lemma ListedStep(cpus: seq<int>, data: map<int, seq<Record>>, c: int, v: seq<Record>)
    requires Listed(cpus, data)
    ensures Listed(if c in data then cpus else cpus + [c], data[c := v])
  {
  }

  /** Every list has a record. */
  ghost predicate Populated(data: map<int, seq<Record>>) {
    forall c :: c in data ==> data[c] != []
  }

  lemma PopulatedStep(data: map<int, seq<Record>>, c: int, v: seq<Record>)
    requires Populated(data) && v != []
    ensures Populated(data[c := v])
  {
  }

  /** Split the log by CPU, in order of first appearance. */
  method SplitByCpu(log: seq<Record>) returns (cpus: seq<int>, data: map<int, seq<Record>>)
    ensures Listed(cpus, data) && Populated(data) && Splits(data, log)
  {
    cpus, data := [], map[];
    hide *;
    SplitsNothing();
    assert log[..0] == [];
    for i := 0 to |log|
      invariant Listed(cpus, data) && Populated(data) && Splits(data, log[..i])
    {
      var c := log[i].cpu;
      var list := Get(data, c) + [log[i]];
      assert log[..i + 1] == log[..i] + [log[i]];
      SplitsStep(data, log[..i], log[i]);
      PopulatedStep(data, c, list);
      ListedStep(cpus, data, c, list);
      if c !in data {
        cpus := cpus + [c];
      }
      data := data[c := list];
    }
    assert log[..|log|] == log;
  }

  // --------------------------------------------------------------- the merge

  /** How heap tuples compare: by time, then by CPU. */
  predicate Le(x: Record, y: Record) {
    x.timestamp < y.timestamp || (x.timestamp == y.timestamp && x.cpu <= y.cpu)
  }

  ghost predicate InOrder(s: seq<Record>) {
    forall i, j :: 0 <= i < j < |s| ==> Le(s[i], s[j])
  }

  /** At most one entry per CPU: ties are decided by the CPU, never by comparing the records. */
  ghost predicate OnePerCpu(heap: seq<Record>) {
    forall c :: |Of(heap, c)| <= 1
  }

  /** The heap's contract: a least entry comes out. */
  method HeapPop(heap: seq<Record>) returns (x: Record, rest: seq<Record>, ghost k: nat)
    requires heap != []
    ensures k < |heap| && x == heap[k] && rest == heap[..k] + heap[k + 1..]
    ensures forall i :: 0 <= i < |heap| ==> Le(x, heap[i])
  {
    var m := 0;
    for i := 1 to |heap|
      invariant m < i
      invariant forall j :: 0 <= j < i ==> Le(heap[m], heap[j])
    {
      if !Le(heap[m], heap[i]) {
        m := i;
      }
    }
    x, rest, k := heap[m], heap[..m] + heap[m + 1..], m;
  }

  /** For one CPU: between popped records, heap and iterator nothing is lost, and the heap has its
      next record for as long as there is one. */
  ghost predicate Fed(streams: map<int, seq<Record>>, heap: seq<Record>, rest: map<int, seq<Record>>,
                      popped: seq<Record>, c: int) {
    && Of(popped, c) + Of(heap, c) + Get(rest, c) == Get(streams, c)
    && |Of(heap, c)| <= 1
    && (Of(heap, c) == [] ==> Get(rest, c) == [])
  }

  /** No entry of the heap is older than what has been popped. */
  ghost predicate NotOlder(heap: seq<Record>, popped: seq<Record>) {
    forall x :: x in heap && popped != [] ==> Le(popped[|popped| - 1], x)
  }

  ghost predicate Feeding(streams: map<int, seq<Record>>, heap: seq<Record>, rest: map<int, seq<Record>>,
                          popped: seq<Record>) {
    (forall c :: Fed(streams, heap, rest, popped, c)) && InOrder(popped) && NotOlder(heap, popped)
  }

  /** The heap without its entry for c, and with the next one. */
  lemma Refill(heap: seq<Record>, k: nat, next: seq<Record>, c: int)
    requires k < |heap| && OnePerCpu(heap) && (next == [] || (next == [next[0]] && next[0].cpu == heap[k].cpu))
    ensures var heap' := heap[..k] + heap[k + 1..] + next;
            Of(heap', c) == if c == heap[k].cpu then next else Of(heap, c)
    ensures c == heap[k].cpu ==> Of(heap, c) == [heap[k]]
  {
    var x, a, b := heap[k], heap[..k], heap[k + 1..];
    assert heap == (a + [x]) + b;
    OfConcat(a + [x], b, c);
    OfSnoc(a, x, c);
    OfConcat(a + b, next, c);
    OfConcat(a, b, c);
    assert |Of(heap, c)| <= 1;
    assert [] + [x] == [x];
    if next != [] {
      assert next == [] + [next[0]];
      OfSnoc([], next[0], c);
    }
  }

  lemma SortedParts(a: seq<Record>, x: Record, b: seq<Record>)
    requires InOrder(a + [x] + b)
    ensures b != [] ==> Le(x, b[0])
  {
    var s := a + [x] + b;
    assert s[|a|] == x;
    assert b != [] ==> s[|a| + 1] == b[0];
  }

  /** What one CPU sees of a pop: its record moves along, or nothing happens. */
  lemma PopPerCpu(streams: map<int, seq<Record>>, heap: seq<Record>, rest: map<int, seq<Record>>,
                  popped: seq<Record>, k: nat, next: seq<Record>, rest': map<int, seq<Record>>, c: int)
    requires Fed(streams, heap, rest, popped, c) && OnePerCpu(heap)
    requires k < |heap| && (next == [] || (next == [next[0]] && next[0].cpu == heap[k].cpu))
    requires next + Get(rest', heap[k].cpu) == Get(rest, heap[k].cpu)
    requires next == [] ==> Get(rest, heap[k].cpu) == []
    requires c != heap[k].cpu ==> Get(rest', c) == Get(rest, c)
    ensures Fed(streams, heap[..k] + heap[k + 1..] + next, rest', popped + [heap[k]], c)
  {
    hide Of, OnePerCpu, Get;
    Refill(heap, k, next, c);
    OfSnoc(popped, heap[k], c);
    if c == heap[k].cpu {
      Regroup3(Of(popped, c), [heap[k]], next, Get(rest', c), Get(rest, c));
    }
  }

  lemma FedOnePerCpu(streams: map<int, seq<Record>>, heap: seq<Record>, rest: map<int, seq<Record>>, popped: seq<Record>)
    requires Feeding(streams, heap, rest, popped)
    ensures OnePerCpu(heap)
  {
    forall c
      ensures |Of(heap, c)| <= 1
    {
      assert Fed(streams, heap, rest, popped, c);
    }
  }

  lemma PopKeepsFeeding(streams: map<int, seq<Record>>, heap: seq<Record>, rest: map<int, seq<Record>>,
                        popped: seq<Record>, k: nat)
    requires Feeding(streams, heap, rest, popped) && k < |heap|
    requires forall i :: 0 <= i < |heap| ==> Le(heap[k], heap[i])
    requires OwnCpu(streams) && forall c :: InOrder(Get(streams, c))
    ensures var x := heap[k];
            var left := Get(rest, x.cpu);
            var next := if left == [] then [] else [left[0]];
            var rest' := if left == [] then rest else rest[x.cpu := left[1..]];
            Feeding(streams, heap[..k] + heap[k + 1..] + next, rest', popped + [x])
            && OnePerCpu(heap[..k] + heap[k + 1..] + next)
  {
    hide *;
    var x := heap[k];
    var left := Get(rest, x.cpu);
    var next := if left == [] then [] else [left[0]];
    var rest' := if left == [] then rest else rest[x.cpu := left[1..]];
    StreamOwnsNext(streams, heap, rest, popped, k);
    FedOnePerCpu(streams, heap, rest, popped);
    OpenFeeding(streams, heap, rest, popped);
    GetUpdate(rest, x.cpu, if left == [] then [] else left[1..]);
    var heap', popped' := heap[..k] + heap[k + 1..] + next, popped + [x];
    forall c
      ensures Fed(streams, heap', rest', popped', c)
    {
      PopPerCpu(streams, heap, rest, popped, k, next, rest', c);
    }
    PopInOrder(heap, popped, k, next);
    MakeFeeding(streams, heap', rest', popped');
    FedOnePerCpu(streams, heap', rest', popped');
  }

  lemma GetUpdate(rest: map<int, seq<Record>>, c: int, left: seq<Record>)
    ensures forall d :: Get(rest[c := left], d) == if d == c then left else Get(rest, d)
  {
    forall d
      ensures Get(rest[c := left], d) == if d == c then left else Get(rest, d)
    {
    }
  }

  lemma OpenFeeding(streams: map<int, seq<Record>>, heap: seq<Record>, rest: map<int, seq<Record>>, popped: seq<Record>)
    requires Feeding(streams, heap, rest, popped)
    ensures forall c :: Fed(streams, heap, rest, popped, c)
    ensures InOrder(popped) && NotOlder(heap, popped)
  {
  }

  lemma MakeFeeding(streams: map<int, seq<Record>>, heap: seq<Record>, rest: map<int, seq<Record>>, popped: seq<Record>)
    requires forall c :: Fed(streams, heap, rest, popped, c)
    requires InOrder(popped) && NotOlder(heap, popped)
    ensures Feeding(streams, heap, rest, popped)
  {
  }

  lemma PopInOrder(heap: seq<Record>, popped: seq<Record>, k: nat, next: seq<Record>)
    requires k < |heap| && InOrder(popped) && NotOlder(heap, popped)
    requires forall i :: 0 <= i < |heap| ==> Le(heap[k], heap[i])
    requires next != [] ==> next == [next[0]] && Le(heap[k], next[0])
    ensures InOrder(popped + [heap[k]])
    ensures NotOlder(heap[..k] + heap[k + 1..] + next, popped + [heap[k]])
  {
    assert heap[k] in heap;
    var heap' := heap[..k] + heap[k + 1..] + next;
    forall y | y in heap'
      ensures Le(heap[k], y)
    {
      var i :| 0 <= i < |heap'| && heap'[i] == y;
      assert y == if i < k then heap[i] else if i < |heap| - 1 then heap[i + 1] else next[0];
    }
  }

  lemma Regroup3(a: seq<Record>, x: seq<Record>, next: seq<Record>, tail: seq<Record>, left: seq<Record>)
    requires next + tail == left
    ensures a + x + next + tail == a + x + left
  {
    assert a + x + next + tail == a + x + (next + tail);
  }

  lemma StreamOwnsNext(streams: map<int, seq<Record>>, heap: seq<Record>, rest: map<int, seq<Record>>,
                       popped: seq<Record>, k: nat)
    requires Feeding(streams, heap, rest, popped) && k < |heap|
    requires OwnCpu(streams) && forall c :: InOrder(Get(streams, c))
    ensures var left := Get(rest, heap[k].cpu);
            left != [] ==> left[0].cpu == heap[k].cpu && Le(heap[k], left[0])
  {
    var x := heap[k];
    var left := Get(rest, x.cpu);
    FedOnePerCpu(streams, heap, rest, popped);
    assert Fed(streams, heap, rest, popped, x.cpu);
    Refill(heap, k, [], x.cpu);
    assert Get(streams, x.cpu) == Of(popped, x.cpu) + [x] + left;
    SortedParts(Of(popped, x.cpu), x, left);
    if left != [] {
      assert left[0] in Get(streams, x.cpu);
    }
  }

  /** Every list holds records of its own CPU. */
  ghost predicate OwnCpu(streams: map<int, seq<Record>>) {
    forall c, y :: y in Get(streams, c) ==> y.cpu == c
  }

  // ---------------------------------------------------- what one core reports

  /** The last record of a core that was taken over: the first, then every later one. */
  function Last(s: seq<Record>): Option<Record> {
    if s == [] then
      None
    else
      var p, x := Last(s[..|s| - 1]), s[|s| - 1];
      if p.Some? && x.timestamp <= p.value.timestamp then p else Some(x)
  }

  function PerUs(count: int, delta: int): real
    requires delta > 0
  {
    count as real / (delta as real / 1000.0)
  }

  function Measure(p: Record, x: Record, tscPerUs: real): PerfEntry
    requires p.timestamp < x.timestamp && tscPerUs > 0.0
  {
    var delta := x.timestamp - p.timestamp;
    var misses, prefetches := PerUs(x.misses - p.misses, delta), PerUs(x.prefetches - p.prefetches, delta);
    PerfEntry(x.timestamp, delta, PerUs(x.stalls - p.stalls, delta), PerUs(x.insts - p.insts, delta),
              (x.cycles - p.cycles) as real / (tscPerUs * (delta as real / 1000.0)),
              misses, prefetches, (misses + prefetches) * 64.0)
  }

  /** Whether a record of a core measures an interval. */
  predicate Measures(before: seq<Record>, x: Record) {
    Last(before).Some? && Last(before).value.timestamp < x.timestamp
  }

  /** The entries of one core, from its records alone. */
  function Perf(s: seq<Record>, tscPerUs: real): seq<PerfEntry>
    requires tscPerUs > 0.0
  {
    if s == [] then
      []
    else
      var front, x := s[..|s| - 1], s[|s| - 1];
      Perf(front, tscPerUs) + if Measures(front, x) then [Measure(Last(front).value, x, tscPerUs)] else []
  }

  /** A core's current bandwidth, from its records alone. */
  function Bandwidth(s: seq<Record>, tscPerUs: real): real
    requires tscPerUs > 0.0
  {
    var entries := Perf(s, tscPerUs);
    if entries == [] then 0.0 else entries[|entries| - 1].bandwidth
  }

  lemma CoreSnoc(s: seq<Record>, x: Record, tscPerUs: real)
    requires tscPerUs > 0.0
    ensures Last(s + [x]) == if Last(s).Some? && !Measures(s, x) then Last(s) else Some(x)
    ensures Perf(s + [x], tscPerUs)
            == if Measures(s, x) then Perf(s, tscPerUs) + [Measure(Last(s).value, x, tscPerUs)] else Perf(s, tscPerUs)
    ensures Bandwidth(s + [x], tscPerUs)
            == if Measures(s, x) then Measure(Last(s).value, x, tscPerUs).bandwidth else Bandwidth(s, tscPerUs)
  {
    assert (s + [x])[..|s|] == s;
  }

  // ------------------------------------------------------------- the total

  function RateOf(rate: map<int, real>, cpu: int): real {
    if cpu in rate then rate[cpu] else 0.0
  }

  function SumOver(cpus: seq<int>, rate: map<int, real>): real {
    if cpus == [] then 0.0 else SumOver(cpus[..|cpus| - 1], rate) + RateOf(rate, cpus[|cpus| - 1])
  }

  lemma {:induction false} SumUpdate(cpus: seq<int>, rate: map<int, real>, c: int, v: real)
    requires Distinct(cpus)
    ensures SumOver(cpus, rate[c := v]) == SumOver(cpus, rate) + if c in cpus then v - RateOf(rate, c) else 0.0
  {
    if cpus != [] {
      var front, last := cpus[..|cpus| - 1], cpus[|cpus| - 1];
      assert cpus == front + [last];
      SumUpdate(front, rate, c, v);
      if last in front {
        assert false;
      }
    }
  }

  /** The total over all cores, from the records popped so far. */
  function TotalRate(cpus: seq<int>, popped: seq<Record>, tscPerUs: real): real
    requires tscPerUs > 0.0
  {
    if cpus == [] then 0.0
    else TotalRate(cpus[..|cpus| - 1], popped, tscPerUs) + Bandwidth(Of(popped, cpus[|cpus| - 1]), tscPerUs)
  }

  lemma {:induction false} SumIsTotal(cpus: seq<int>, rate: map<int, real>, popped: seq<Record>, tscPerUs: real)
    requires tscPerUs > 0.0
    requires forall c :: c in cpus ==> RateOf(rate, c) == Bandwidth(Of(popped, c), tscPerUs)
    ensures SumOver(cpus, rate) == TotalRate(cpus, popped, tscPerUs)
  {
    hide Bandwidth, Of;
    if cpus != [] {
      SumIsTotal(cpus[..|cpus| - 1], rate, popped, tscPerUs);
      assert cpus[|cpus| - 1] in cpus;
    }
  }

  // ---------------------------------------------------------- the timeline

  /** A popped record that measures an interval of its own core. */
  predicate Counts(popped: seq<Record>, x: Record) {
    Measures(Of(popped, x.cpu), x)
  }

  /** The time of the last record that counted. */
  function Clock(popped: seq<Record>): Option<int> {
    if popped == [] then
      None
    else
      var front, x := popped[..|popped| - 1], popped[|popped| - 1];
      if Counts(front, x) then Some(x.timestamp) else Clock(front)
  }

  /** The intervals written, from the popped records alone. */
  function Timeline(cpus: seq<int>, popped: seq<Record>, tscPerUs: real): seq<Interval>
    requires tscPerUs > 0.0
  {
    if popped == [] then
      []
    else
      var front, x := popped[..|popped| - 1], popped[|popped| - 1];
      Timeline(cpus, front, tscPerUs)
      + if Counts(front, x) && Clock(front).Some? && Clock(front).value < x.timestamp
        then [Interval(Clock(front).value, x.timestamp, TotalRate(cpus, popped, tscPerUs))] else []
  }

  lemma TimelineSnoc(cpus: seq<int>, popped: seq<Record>, x: Record, tscPerUs: real)
    requires tscPerUs > 0.0
    ensures Clock(popped + [x]) == if Counts(popped, x) then Some(x.timestamp) else Clock(popped)
    ensures Timeline(cpus, popped + [x], tscPerUs)
            == if Counts(popped, x) && Clock(popped).Some? && Clock(popped).value < x.timestamp
               then Timeline(cpus, popped, tscPerUs)
                    + [Interval(Clock(popped).value, x.timestamp, TotalRate(cpus, popped + [x], tscPerUs))]
               else Timeline(cpus, popped, tscPerUs)
  {
    hide TotalRate, Counts;
    assert (popped + [x])[..|popped|] == popped;
  }

  // ------------------------------------------------------------ the program

  /** The dictionaries hold, for every core, what its own popped records amount to. */
  ghost predicate Tallied(cpus: seq<int>, popped: seq<Record>, tscPerUs: real, last: map<int, Option<Record>>,
                          perf: map<int, seq<PerfEntry>>, rate: map<int, real>)
    requires tscPerUs > 0.0
  {
    forall c :: c in cpus ==>
      && c in last && c in perf && c in rate
      && last[c] == Last(Of(popped, c))
      && perf[c] == Perf(Of(popped, c), tscPerUs)
      && rate[c] == Bandwidth(Of(popped, c), tscPerUs)
  }

  lemma TallySkip(cpus: seq<int>, popped: seq<Record>, x: Record, tscPerUs: real, last: map<int, Option<Record>>,
                  perf: map<int, seq<PerfEntry>>, rate: map<int, real>)
    requires tscPerUs > 0.0 && Tallied(cpus, popped, tscPerUs, last, perf, rate)
    requires x.cpu in cpus && (last[x.cpu].None? || x.timestamp <= last[x.cpu].value.timestamp)
    ensures !Counts(popped, x)
    ensures Tallied(cpus, popped + [x], tscPerUs,
                    last[x.cpu := if last[x.cpu].None? then Some(x) else last[x.cpu]], perf, rate)
    ensures last[x.cpu].None? ==> rate[x.cpu] == 0.0
  {
    hide Last, Perf, Bandwidth, Of, Measure, Measures;
    forall c | c in cpus
      ensures Of(popped + [x], c) == if c == x.cpu then Of(popped, c) + [x] else Of(popped, c)
    {
      OfSnoc(popped, x, c);
    }
    CoreSnoc(Of(popped, x.cpu), x, tscPerUs);
    CoreStart(Of(popped, x.cpu), tscPerUs);
    OpenMeasures(Of(popped, x.cpu), x);
  }

  lemma OpenMeasures(before: seq<Record>, x: Record)
    ensures Measures(before, x) <==> Last(before).Some? && Last(before).value.timestamp < x.timestamp
  {
  }

  lemma CoreStart(s: seq<Record>, tscPerUs: real)
    requires tscPerUs > 0.0
    ensures Last(s).None? <==> s == []
    ensures s == [] ==> Bandwidth(s, tscPerUs) == 0.0
  {
  }

  lemma TallyCount(cpus: seq<int>, popped: seq<Record>, x: Record, tscPerUs: real, last: map<int, Option<Record>>,
                   perf: map<int, seq<PerfEntry>>, rate: map<int, real>)
    requires tscPerUs > 0.0 && Tallied(cpus, popped, tscPerUs, last, perf, rate)
    requires x.cpu in cpus && last[x.cpu].Some? && last[x.cpu].value.timestamp < x.timestamp
    ensures Counts(popped, x)
    ensures var entry := Measure(last[x.cpu].value, x, tscPerUs);
            Tallied(cpus, popped + [x], tscPerUs, last[x.cpu := Some(x)], perf[x.cpu := perf[x.cpu] + [entry]],
                    rate[x.cpu := entry.bandwidth])
  {
    hide Last, Perf, Bandwidth, Of, Measure, Measures;
    forall c | c in cpus
      ensures Of(popped + [x], c) == if c == x.cpu then Of(popped, c) + [x] else Of(popped, c)
    {
      OfSnoc(popped, x, c);
    }
    OpenMeasures(Of(popped, x.cpu), x);
    CoreSnoc(Of(popped, x.cpu), x, tscPerUs);
  }

  /** How many records are not popped yet. */
  function Left(cpus: seq<int>, rest: map<int, seq<Record>>): nat {
    if cpus == [] then 0 else Left(cpus[..|cpus| - 1], rest) + |Get(rest, cpus[|cpus| - 1])|
  }

  lemma {:induction false} LeftUpdate(cpus: seq<int>, rest: map<int, seq<Record>>, c: int, tail: seq<Record>)
    requires Distinct(cpus)
    ensures Left(cpus, rest[c := tail]) == Left(cpus, rest) + if c in cpus then |tail| - |Get(rest, c)| else 0
  {
    if cpus != [] {
      var front, last := cpus[..|cpus| - 1], cpus[|cpus| - 1];
      assert cpus == front + [last];
      LeftUpdate(front, rest, c, tail);
      GetUpdate(rest, c, tail);
      if last in front {
        assert false;
      }
    }
  }

  /** For one CPU, while the heap is filled: its list is untouched, or its first record is out. */
  ghost predicate Primed(streams: map<int, seq<Record>>, heap: seq<Record>, rest: map<int, seq<Record>>,
                         done: seq<int>, c: int) {
    && Of(heap, c) + Get(rest, c) == Get(streams, c)
    && |Of(heap, c)| <= 1
    && (c in done && Of(heap, c) == [] ==> Get(rest, c) == [])
    && (c !in done ==> Of(heap, c) == [])
  }

  lemma PrimeStep(streams: map<int, seq<Record>>, heap: seq<Record>, rest: map<int, seq<Record>>,
                  done: seq<int>, c: int, d: int)
    requires OwnCpu(streams) && c !in done
    requires Primed(streams, heap, rest, done, d) && Primed(streams, heap, rest, done, c)
    ensures var list := Get(rest, c);
            if list == [] then Primed(streams, heap, rest, done + [c], d)
            else Primed(streams, heap + [list[0]], rest[c := list[1..]], done + [c], d)
  {
    hide Of, OwnCpu, Get;
    var list := Get(rest, c);
    if list != [] {
      ListOwner(streams, c, list);
      OfSnoc(heap, list[0], d);
      GetUpdate(rest, c, list[1..]);
      if c == d {
        assert [list[0]] + list[1..] == list;
        assert Of(heap, c) + [list[0]] == [list[0]];
      }
    }
  }

  lemma ListOwner(streams: map<int, seq<Record>>, c: int, list: seq<Record>)
    requires OwnCpu(streams) && Get(streams, c) == list && list != []
    ensures list[0].cpu == c
  {
    assert list[0] in Get(streams, c);
  }

  lemma PrimeAll(streams: map<int, seq<Record>>, heap: seq<Record>, rest: map<int, seq<Record>>, done: seq<int>, c: int)
    requires OwnCpu(streams) && c !in done && forall d :: Primed(streams, heap, rest, done, d)
    ensures var list := Get(rest, c);
            var heap' := if list == [] then heap else heap + [list[0]];
            var rest' := if list == [] then rest else rest[c := list[1..]];
            var done' := done + [c];
            forall d :: Primed(streams, heap', rest', done', d)
  {
    var list := Get(rest, c);
    var heap' := if list == [] then heap else heap + [list[0]];
    var rest' := if list == [] then rest else rest[c := list[1..]];
    hide Primed, OwnCpu;
    var done' := done + [c];
    forall d
      ensures Primed(streams, heap', rest', done', d)
    {
      PrimeStep(streams, heap, rest, done, c, d);
    }
  }

  lemma NotSeen(s: seq<int>, i: nat)
    requires Distinct(s) && i < |s|
    ensures s[i] !in s[..i]
  {
  }

  /** The heap at the start: the first record of every list. */
  method FillHeap(cpus: seq<int>, streams: map<int, seq<Record>>)
    returns (heap: seq<Record>, rest: map<int, seq<Record>>)
    requires Distinct(cpus) && OwnCpu(streams) && forall c :: c in cpus <==> c in streams
    ensures Feeding(streams, heap, rest, [])
  {
    hide *;
    heap, rest := [], streams;
    NothingPrimed(streams);
    assert cpus[..0] == [];
    for i := 0 to |cpus|
      invariant forall d :: Primed(streams, heap, rest, cpus[..i], d)
    {
      var c := cpus[i];
      var list := Get(rest, c);
      NotSeen(cpus, i);
      PrimeAll(streams, heap, rest, cpus[..i], c);
      assert cpus[..i + 1] == cpus[..i] + [c];
      if list != [] {
        heap := heap + [list[0]];
        rest := rest[c := list[1..]];
      }
    }
    assert cpus[..|cpus|] == cpus;
    FullHeap(cpus, streams, heap, rest);
  }

  lemma NothingPrimed(streams: map<int, seq<Record>>)
    requires OwnCpu(streams)
    ensures forall d :: Primed(streams, [], streams, [], d)
  {
  }

  lemma OfNothing(c: int)
    ensures Of([], c) == []
  {
  }

  lemma FullHeap(cpus: seq<int>, streams: map<int, seq<Record>>, heap: seq<Record>, rest: map<int, seq<Record>>)
    requires forall c :: c in cpus <==> c in streams
    requires forall d :: Primed(streams, heap, rest, cpus, d)
    ensures Feeding(streams, heap, rest, [])
  {
    hide Of;
    forall d
      ensures Fed(streams, heap, rest, [], d)
    {
      assert Primed(streams, heap, rest, cpus, d);
      assert d !in cpus ==> Get(streams, d) == [];
      OfNothing(d);
    }
  }

  /** The dictionaries, the running total and the file. */
  datatype Analysis = Analysis(last: map<int, Option<Record>>, perf: map<int, seq<PerfEntry>>, rate: map<int, real>,
                               total: real, clock: Option<int>, written: seq<Interval>)

  /** They say what the popped records amount to. */
  ghost predicate Tallies(cpus: seq<int>, popped: seq<Record>, tscPerUs: real, a: Analysis)
    requires tscPerUs > 0.0
  {
    && Tallied(cpus, popped, tscPerUs, a.last, a.perf, a.rate)
    && a.total == TotalRate(cpus, popped, tscPerUs)
    && a.clock == Clock(popped)
    && a.written == Timeline(cpus, popped, tscPerUs)
  }

  /** One popped record, worked into them. */
  method Account(cpus: seq<int>, a: Analysis, x: Record, tscPerUs: real, ghost popped: seq<Record>)
    returns (r: Analysis)
    requires tscPerUs > 0.0 && Distinct(cpus) && x.cpu in cpus
    requires Tallies(cpus, popped, tscPerUs, a)
    ensures Tallies(cpus, popped + [x], tscPerUs, r)
  {
    hide *;
    OpenTallies(cpus, popped, tscPerUs, a);
    r := a;
    var state := a.last[x.cpu];
    TimelineSnoc(cpus, popped, x, tscPerUs);
    if state.None? || x.timestamp <= state.value.timestamp {
      TallySkip(cpus, popped, x, tscPerUs, a.last, a.perf, a.rate);
      if state.None? {
        r := r.(last := a.last[x.cpu := Some(x)], rate := a.rate[x.cpu := 0.0]);
        assert r.rate == a.rate;
      } else {
        assert a.last == a.last[x.cpu := state];
      }
      OpenTallied(cpus, popped + [x], tscPerUs, r.last, r.perf, r.rate);
      OpenTallied(cpus, popped, tscPerUs, a.last, a.perf, a.rate);
      SumIsTotal(cpus, r.rate, popped + [x], tscPerUs);
      SumIsTotal(cpus, a.rate, popped, tscPerUs);
    } else {
      TallyCount(cpus, popped, x, tscPerUs, a.last, a.perf, a.rate);
      var entry := Measure(state.value, x, tscPerUs);
      r := r.(perf := a.perf[x.cpu := a.perf[x.cpu] + [entry]],
              rate := a.rate[x.cpu := entry.bandwidth],
              total := a.total - RateOf(a.rate, x.cpu) + entry.bandwidth);
      OpenTallied(cpus, popped, tscPerUs, a.last, a.perf, a.rate);
      SumIsTotal(cpus, a.rate, popped, tscPerUs);
      SumUpdate(cpus, a.rate, x.cpu, entry.bandwidth);
      if a.clock.Some? && x.timestamp > a.clock.value {
        r := r.(written := a.written + [Interval(a.clock.value, x.timestamp, r.total)]);
      }
      r := r.(clock := Some(x.timestamp), last := a.last[x.cpu := Some(x)]);
      OpenTallied(cpus, popped + [x], tscPerUs, r.last, r.perf, r.rate);
      SumIsTotal(cpus, r.rate, popped + [x], tscPerUs);
    }
    MakeTallies(cpus, popped + [x], tscPerUs, r);
  }

  lemma OpenTallied(cpus: seq<int>, popped: seq<Record>, tscPerUs: real, last: map<int, Option<Record>>,
                    perf: map<int, seq<PerfEntry>>, rate: map<int, real>)
    requires tscPerUs > 0.0 && Tallied(cpus, popped, tscPerUs, last, perf, rate)
    ensures forall c :: c in cpus ==> c in last && c in perf && c in rate
    ensures forall c :: c in cpus ==> RateOf(rate, c) == Bandwidth(Of(popped, c), tscPerUs)
    ensures forall c :: c in cpus ==> perf[c] == Perf(Of(popped, c), tscPerUs)
  {
  }

  lemma OpenTallies(cpus: seq<int>, popped: seq<Record>, tscPerUs: real, a: Analysis)
    requires tscPerUs > 0.0 && Tallies(cpus, popped, tscPerUs, a)
    ensures Tallied(cpus, popped, tscPerUs, a.last, a.perf, a.rate)
    ensures forall c :: c in cpus ==> c in a.last && c in a.perf && c in a.rate
    ensures a.total == TotalRate(cpus, popped, tscPerUs)
    ensures a.clock == Clock(popped) && a.written == Timeline(cpus, popped, tscPerUs)
  {
  }

  lemma MakeTallies(cpus: seq<int>, popped: seq<Record>, tscPerUs: real, a: Analysis)
    requires tscPerUs > 0.0 && Tallied(cpus, popped, tscPerUs, a.last, a.perf, a.rate)
    requires a.total == TotalRate(cpus, popped, tscPerUs)
    requires a.clock == Clock(popped) && a.written == Timeline(cpus, popped, tscPerUs)
    ensures Tallies(cpus, popped, tscPerUs, a)
  {
  }

  lemma NothingTallied(cpus: seq<int>, tscPerUs: real)
    requires tscPerUs > 0.0
    ensures Tallies(cpus, [], tscPerUs, Analysis(map c | c in cpus :: None, map c | c in cpus :: [],
                                                  map c | c in cpus :: 0.0, 0.0, None, []))
  {
    SumIsZero(cpus, tscPerUs);
  }

  lemma {:induction false} SumIsZero(cpus: seq<int>, tscPerUs: real)
    requires tscPerUs > 0.0
    ensures TotalRate(cpus, [], tscPerUs) == 0.0
  {
    if cpus != [] {
      SumIsZero(cpus[..|cpus| - 1], tscPerUs);
    }
  }

  /** The totals after every pop. */
  ghost predicate Running(cpus: seq<int>, popped: seq<Record>, tscPerUs: real, totals: seq<real>)
    requires tscPerUs > 0.0
  {
    && |totals| == |popped|
    && forall i :: 0 <= i < |popped| ==> totals[i] == TotalRate(cpus, popped[..i + 1], tscPerUs)
  }

  lemma RunningSnoc(cpus: seq<int>, popped: seq<Record>, tscPerUs: real, totals: seq<real>, x: Record, total: real)
    requires tscPerUs > 0.0 && Running(cpus, popped, tscPerUs, totals)
    requires total == TotalRate(cpus, popped + [x], tscPerUs)
    ensures Running(cpus, popped + [x], tscPerUs, totals + [total])
  {
    forall i | 0 <= i < |popped| + 1
      ensures (totals + [total])[i] == TotalRate(cpus, (popped + [x])[..i + 1], tscPerUs)
    {
      assert (popped + [x])[..i + 1] == if i < |popped| then popped[..i + 1] else popped + [x];
    }
  }

  /** The heap's earliest record comes out and the next of its CPU goes in. */
  method NextRecord(cpus: seq<int>, heap0: seq<Record>, rest0: map<int, seq<Record>>,
                    ghost streams: map<int, seq<Record>>, ghost popped: seq<Record>)
    returns (x: Record, heap: seq<Record>, rest: map<int, seq<Record>>)
    requires heap0 != [] && Distinct(cpus) && OwnCpu(streams)
    requires forall c :: c in cpus <==> c in streams
    requires forall c :: InOrder(Get(streams, c))
    requires Feeding(streams, heap0, rest0, popped)
    ensures Feeding(streams, heap, rest, popped + [x]) && x.cpu in cpus
    ensures |heap| + Left(cpus, rest) < |heap0| + Left(cpus, rest0)
  {
    hide *;
    ghost var k;
    x, heap, k := HeapPop(heap0);
    PopKeepsFeeding(streams, heap0, rest0, popped, k);
    KnownCpu(streams, heap0, rest0, popped, k);
    rest := rest0;
    var left := Get(rest0, x.cpu);
    if left != [] {
      heap := heap + [left[0]];
      LeftUpdate(cpus, rest0, x.cpu, left[1..]);
      rest := rest0[x.cpu := left[1..]];
    } else {
      assert heap == heap + [];
    }
  }

  lemma KnownCpu(streams: map<int, seq<Record>>, heap: seq<Record>, rest: map<int, seq<Record>>,
                 popped: seq<Record>, k: nat)
    requires Feeding(streams, heap, rest, popped) && k < |heap|
    ensures heap[k].cpu in streams
  {
    FedOnePerCpu(streams, heap, rest, popped);
    Refill(heap, k, [], heap[k].cpu);
    assert Fed(streams, heap, rest, popped, heap[k].cpu);
  }

  lemma Drained(streams: map<int, seq<Record>>, rest: map<int, seq<Record>>, popped: seq<Record>)
    requires Feeding(streams, [], rest, popped)
    ensures InOrder(popped) && forall c :: Of(popped, c) == Get(streams, c)
  {
    forall c
      ensures Of(popped, c) == Get(streams, c)
    {
      assert Fed(streams, [], rest, popped, c);
    }
  }

  /** The second pass of parse_hrperf_log. Every record is popped once, in time order; each core's
      entries are what its records alone give; after every pop the running total is the sum of the
      cores' current bandwidths; and the file holds the timeline of the popped records. */
  method Merge(cpus: seq<int>, streams: map<int, seq<Record>>, tscPerUs: real)
    returns (perf: map<int, seq<PerfEntry>>, written: seq<Interval>, ghost popped: seq<Record>, ghost totals: seq<real>)
    requires tscPerUs > 0.0 && Distinct(cpus) && OwnCpu(streams)
    requires forall c :: c in cpus <==> c in streams
    requires forall c :: InOrder(Get(streams, c))
    ensures InOrder(popped) && forall c :: Of(popped, c) == Get(streams, c)
    ensures forall c :: c in cpus ==> c in perf && perf[c] == Perf(streams[c], tscPerUs)
    ensures written == Timeline(cpus, popped, tscPerUs)
    ensures Running(cpus, popped, tscPerUs, totals)
  {
    var heap, rest := FillHeap(cpus, streams);
    var a := Analysis(map c | c in cpus :: None, map c | c in cpus :: [], map c | c in cpus :: 0.0, 0.0, None, []);
    popped, totals := [], [];
    NothingTallied(cpus, tscPerUs);
    while heap != []
      invariant Feeding(streams, heap, rest, popped)
      invariant Tallies(cpus, popped, tscPerUs, a)
      invariant Running(cpus, popped, tscPerUs, totals)
      decreases |heap| + Left(cpus, rest)
    {
      hide *;
      var x;
      x, heap, rest := NextRecord(cpus, heap, rest, streams, popped);
      a := Account(cpus, a, x, tscPerUs, popped);
      OpenTallies(cpus, popped + [x], tscPerUs, a);
      RunningSnoc(cpus, popped, tscPerUs, totals, x, a.total);
      popped, totals := popped + [x], totals + [a.total];
    }
    Drained(streams, rest, popped);
    OpenTallied(cpus, popped, tscPerUs, a.last, a.perf, a.rate);
    perf, written := a.perf, a.written;
  }

  // ------------------------------------------------------- both passes

  /** The lists of these CPUs are sorted, the others as they were. */
  ghost predicate SortedFor(done: seq<int>, data: map<int, seq<Record>>, streams: map<int, seq<Record>>) {
    forall c :: Get(streams, c) == if c in done then Sort(Get(data, c), TimestampOf) else Get(data, c)
  }

  lemma SortOne(done: seq<int>, data: map<int, seq<Record>>, streams: map<int, seq<Record>>, c: int)
    requires SortedFor(done, data, streams) && c !in done
    ensures SortedFor(done + [c], data, streams[c := Sort(Get(streams, c), TimestampOf)])
  {
    hide Sort;
  }

  lemma SortDone(cpus: seq<int>, data: map<int, seq<Record>>, streams: map<int, seq<Record>>)
    requires Listed(cpus, data) && SortedFor(cpus, data, streams)
    ensures forall c :: Get(streams, c) == Sort(Get(data, c), TimestampOf)
  {
    hide Distinct;
    assert Sort([], TimestampOf) == [];
  }

  /** Every list is sorted by time, keeping the order of equal times. */
  method SortAll(cpus: seq<int>, data: map<int, seq<Record>>) returns (streams: map<int, seq<Record>>)
    requires Listed(cpus, data)
    ensures Listed(cpus, streams)
    ensures forall c :: Get(streams, c) == Sort(Get(data, c), TimestampOf)
  {
    streams := data;
    assert cpus[..0] == [];
    for i := 0 to |cpus|
      invariant Listed(cpus, streams) && SortedFor(cpus[..i], data, streams)
    {
      hide *;
      var c := cpus[i];
      ListedDistinct(cpus, streams);
      NotSeen(cpus, i);
      assert cpus[..i + 1] == cpus[..i] + [c];
      SortOne(cpus[..i], data, streams, c);
      ListedStep(cpus, streams, c, Sort(Get(streams, c), TimestampOf));
      streams := streams[c := Sort(Get(streams, c), TimestampOf)];
    }
    assert cpus[..|cpus|] == cpus;
    hide *;
    SortDone(cpus, data, streams);
  }

  lemma ListedDistinct(cpus: seq<int>, data: map<int, seq<Record>>)
    requires Listed(cpus, data)
    ensures Distinct(cpus) && forall c :: c in cpus <==> c in data
  {
  }

  lemma SortedStream(s: seq<Record>, c: int)
    requires forall y :: y in s ==> y.cpu == c
    ensures InOrder(Sort(s, TimestampOf)) && forall y :: y in Sort(s, TimestampOf) ==> y.cpu == c
  {
    SortSorts(s, TimestampOf);
    SortSame(s, TimestampOf);
    assert forall x :: TimestampOf(x) == x.timestamp;
  }

  lemma OfOwn(log: seq<Record>, c: int)
    ensures forall y :: y in Of(log, c) ==> y.cpu == c
  {
    OfMember(log, Record(c, 0, 0, 0, 0, 0, 0));
  }

  /** parse_hrperf_log: the whole log, in time order and each record once, becomes the per-core
      entries and the timeline of the total. */
  method ParseLog(log: seq<Record>, tscPerUs: real)
    returns (perf: map<int, seq<PerfEntry>>, written: seq<Interval>, cpus: seq<int>, ghost popped: seq<Record>)
    requires tscPerUs > 0.0
    ensures Distinct(cpus) && forall c :: c in cpus <==> Of(log, c) != []
    ensures InOrder(popped) && forall c :: Of(popped, c) == Sort(Of(log, c), TimestampOf)
    ensures forall c :: c in cpus ==> c in perf && perf[c] == Perf(Sort(Of(log, c), TimestampOf), tscPerUs)
    ensures written == Timeline(cpus, popped, tscPerUs)
  {
    hide *;
    var data;
    cpus, data := SplitByCpu(log);
    SplitCovers(log, cpus, data);
    var streams := SortAll(cpus, data);
    StreamsReady(log, cpus, streams);
    ghost var totals;
    perf, written, popped, totals := Merge(cpus, streams, tscPerUs);
  }

  lemma SplitCovers(log: seq<Record>, cpus: seq<int>, data: map<int, seq<Record>>)
    requires Listed(cpus, data) && Populated(data) && Splits(data, log)
    ensures forall c :: Get(data, c) == Of(log, c)
    ensures forall c :: c in cpus <==> Of(log, c) != []
  {
    hide Of;
    forall c
      ensures c in cpus <==> Of(log, c) != []
    {
      assert Get(data, c) == Of(log, c);
    }
  }

  lemma StreamsReady(log: seq<Record>, cpus: seq<int>, streams: map<int, seq<Record>>)
    requires Listed(cpus, streams)
    requires forall c :: Get(streams, c) == Sort(Of(log, c), TimestampOf)
    ensures OwnCpu(streams) && Distinct(cpus) && forall c :: c in cpus <==> c in streams
    ensures forall c :: InOrder(Get(streams, c))
    ensures forall c :: c in cpus ==> streams[c] == Sort(Of(log, c), TimestampOf)
  {
    hide Of, Sort, InOrder;
    forall c
      ensures InOrder(Get(streams, c)) && forall y :: y in Get(streams, c) ==> y.cpu == c
    {
      OfOwn(log, c);
      SortedStream(Of(log, c), c);
    }
    forall c | c in cpus
      ensures streams[c] == Sort(Of(log, c), TimestampOf)
    {
      assert Get(streams, c) == streams[c];
    }
  }

  lemma {:induction false} OfCount(s: seq<Record>, x: Record)
    ensures multiset(s)[x] == multiset(Of(s, x.cpu))[x]
  {
    if s != [] {
      var front, last := s[..|s| - 1], s[|s| - 1];
      assert s == front + [last];
      OfCount(front, x);
    }
  }

  /** Records that agree CPU by CPU, up to the order of equal times, agree as a whole. */
  lemma EachRecordOnce(log: seq<Record>, popped: seq<Record>)
    requires forall c :: Of(popped, c) == Sort(Of(log, c), TimestampOf)
    ensures multiset(popped) == multiset(log)
  {
    forall x
      ensures multiset(popped)[x] == multiset(log)[x]
    {
      OfCount(popped, x);
      OfCount(log, x);
    }
  }

  /** The order is determined: whatever the heap does inside, there is only one way to pop records
      in order, CPU by CPU as listed. */
  lemma {:induction false} OnePopOrder(a: seq<Record>, b: seq<Record>)
    requires InOrder(a) && InOrder(b) && forall c :: Of(a, c) == Of(b, c)
    ensures a == b
  {
    hide *;
    if a == [] {
      NothingOfAny(b);
    } else if b == [] {
      NothingOfAny(a);
    } else {
      var front, x, rest, y := a[..|a| - 1], a[|a| - 1], b[..|b| - 1], b[|b| - 1];
      assert a == front + [x] && b == rest + [y];
      LatestIsFrom(front, x, rest, y);
      LatestIsFrom(rest, y, front, x);
      LeBoth(x, y);
      assert Of(a, x.cpu) == Of(b, x.cpu);
      SameFront(front, x, rest, y, x.cpu);
      forall c
        ensures Of(front, c) == Of(rest, c)
      {
        assert Of(a, c) == Of(b, c);
        SameFront(front, x, rest, y, c);
      }
      InOrderFront(front, x);
      InOrderFront(rest, y);
      OnePopOrder(front, rest);
    }
  }

  /** The latest record of one list is not after the latest of the other. */
  lemma LatestIsFrom(front: seq<Record>, x: Record, rest: seq<Record>, y: Record)
    requires InOrder(rest + [y]) && forall c :: Of(front + [x], c) == Of(rest + [y], c)
    ensures Le(x, y)
  {
    hide Of, InOrder, Le;
    OfMember(front + [x], x);
    OfMember(rest + [y], x);
    assert x in front + [x];
    assert Of(front + [x], x.cpu) == Of(rest + [y], x.cpu);
    LastIsLatest(rest + [y], x);
  }

  lemma LeBoth(x: Record, y: Record)
    requires Le(x, y) && Le(y, x)
    ensures x.cpu == y.cpu
  {
  }

  lemma SameFront(front: seq<Record>, x: Record, rest: seq<Record>, y: Record, c: int)
    requires Of(front + [x], c) == Of(rest + [y], c) && x.cpu == y.cpu
    ensures Of(front, c) == Of(rest, c) && (c == x.cpu ==> x == y)
  {
    hide Of;
    OfSnoc(front, x, c);
    OfSnoc(rest, y, c);
    EqualEnds(Of(front, c), x, Of(rest, c), y);
  }

  lemma InOrderFront(front: seq<Record>, x: Record)
    requires InOrder(front + [x])
    ensures InOrder(front) && forall y :: y in front ==> Le(y, x)
  {
    hide Le;
    var s := front + [x];
    forall i, j | 0 <= i < j < |front|
      ensures Le(front[i], front[j])
    {
      assert Le(s[i], s[j]);
    }
    forall i | 0 <= i < |front|
      ensures Le(front[i], x)
    {
      assert Le(s[i], s[|front|]);
    }
  }

  lemma NothingOfAny(s: seq<Record>)
    ensures (forall c :: Of(s, c) == Of([], c)) ==> s == []
  {
    if s != [] {
      OfMember(s, s[0]);
      assert Of(s, s[0].cpu) != Of([], s[0].cpu);
    }
  }

  lemma LastIsLatest(s: seq<Record>, x: Record)
    requires InOrder(s) && x in s
    ensures Le(x, s[|s| - 1])
  {
  }

  lemma EqualEnds<T>(a: seq<T>, x: T, b: seq<T>, y: T)
    ensures a + [x] == b + [y] ==> x == y && a == b
  {
    if a + [x] == b + [y] {
      assert |a| == |b|;
      assert (a + [x])[|a|] == x && (b + [y])[|b|] == y;
      assert (a + [x])[..|a|] == a && (b + [y])[..|b|] == b;
    }
  }

  // --------------------------------------------- what the timeline is worth

  /** The intervals have positive length, and each starts where the one before it ended. */
  lemma {:induction false} TimelineGapless(cpus: seq<int>, popped: seq<Record>, tscPerUs: real)
    requires tscPerUs > 0.0 && InOrder(popped)
    ensures var t := Timeline(cpus, popped, tscPerUs);
            Gapless(t) && (t != [] ==> Clock(popped) == Some(t[|t| - 1].end))
    ensures Clock(popped).Some? ==> popped != [] && Clock(popped).value <= popped[|popped| - 1].timestamp
  {
    hide *;
    NothingWritten(cpus, tscPerUs);
    if popped != [] {
      var front, x := popped[..|popped| - 1], popped[|popped| - 1];
      assert popped == front + [x];
      InOrderFront(front, x);
      TimelineGapless(cpus, front, tscPerUs);
      TimelineSnoc(cpus, front, x, tscPerUs);
      var t, clock := Timeline(cpus, front, tscPerUs), Clock(front);
      if clock.Some? {
        LaterThanFront(front, x);
        if clock.value < x.timestamp {
          GaplessSnoc(t, Interval(clock.value, x.timestamp, TotalRate(cpus, popped, tscPerUs)));
        }
      }
    }
  }

  lemma LaterThanFront(front: seq<Record>, x: Record)
    requires front != [] && forall y :: y in front ==> Le(y, x)
    ensures front[|front| - 1].timestamp <= x.timestamp
  {
    assert front[|front| - 1] in front;
  }

  lemma GaplessSnoc(t: seq<Interval>, v: Interval)
    requires Gapless(t) && v.start < v.end && (t != [] ==> t[|t| - 1].end == v.start)
    ensures Gapless(t + [v])
  {
  }

  /** Interval i was written when record k - 1 was popped: the first that counted at that time. Its
      bandwidth is the total over the records popped by then. */
  lemma {:induction false} WrittenAt(cpus: seq<int>, popped: seq<Record>, tscPerUs: real, i: nat) returns (k: nat)
    requires tscPerUs > 0.0 && InOrder(popped) && i < |Timeline(cpus, popped, tscPerUs)|
    ensures 0 < k <= |popped|
    ensures var v := Timeline(cpus, popped, tscPerUs)[i];
            popped[k - 1].timestamp == v.end && v.bw == TotalRate(cpus, popped[..k], tscPerUs)
            && Counts(popped[..k - 1], popped[k - 1])
            && Clock(popped[..k - 1]) == Some(v.start)
  {
    hide Counts, TotalRate, Timeline, Clock;
    NothingWritten(cpus, tscPerUs);
    var front, x := popped[..|popped| - 1], popped[|popped| - 1];
    assert popped == front + [x];
    TimelineSnoc(cpus, front, x, tscPerUs);
    if i < |Timeline(cpus, front, tscPerUs)| {
      k := WrittenAt(cpus, front, tscPerUs, i);
      assert front[..k] == popped[..k] && front[..k - 1] == popped[..k - 1];
    } else {
      k := |popped|;
      assert popped[..k] == popped;
    }
  }

  lemma NothingWritten(cpus: seq<int>, tscPerUs: real)
    requires tscPerUs > 0.0
    ensures Timeline(cpus, [], tscPerUs) == [] && Clock([]).None? && Gapless([])
  {
  }

  /** The records up to a time. */
  function UpTo(s: seq<Record>, t: int): seq<Record> {
    if s == [] then [] else UpTo(s[..|s| - 1], t) + if s[|s| - 1].timestamp <= t then [s[|s| - 1]] else []
  }

  lemma UpToSnoc(s: seq<Record>, x: Record, t: int)
    ensures UpTo(s + [x], t) == if x.timestamp <= t then UpTo(s, t) + [x] else UpTo(s, t)
  {
    assert (s + [x])[..|s|] == s;
  }

  /** The bandwidth at a time, from each core's own records up to that time. */
  function RateAt(cpus: seq<int>, streams: map<int, seq<Record>>, t: int, tscPerUs: real): real
    requires tscPerUs > 0.0
  {
    if cpus == [] then 0.0
    else RateAt(cpus[..|cpus| - 1], streams, t, tscPerUs)
         + Bandwidth(UpTo(Get(streams, cpus[|cpus| - 1]), t), tscPerUs)
  }

  // Which records a written total has seen: for CPUs up to the writer's, those up to the end of the
  // interval; for later CPUs, those before it.

  /** A cut of the pop order that separates the records of one CPU by their time. */
  lemma {:induction false} CutByTime(popped: seq<Record>, k: nat, c: int, t: int)
    requires k <= |popped|
    requires forall i :: 0 <= i < |popped| && popped[i].cpu == c ==> (i < k <==> popped[i].timestamp <= t)
    ensures Of(popped[..k], c) == UpTo(Of(popped, c), t)
  {
    if popped == [] {
      assert popped[..k] == [];
    } else {
      var front, y := popped[..|popped| - 1], popped[|popped| - 1];
      assert popped == front + [y];
      if k == |popped| {
        CutByTime(front, k - 1, c, t);
        assert front[..k - 1] == front && popped[..k] == popped;
      } else {
        CutByTime(front, k, c, t);
        assert front[..k] == popped[..k];
      }
      hide *;
      OfSnoc(front, y, c);
      UpToSnoc(Of(front, c), y, t);
    }
  }

  /** The same for the CPU of the writer, whose further records with that timestamp do not count. */
  lemma {:induction false} CutAtWriter(popped: seq<Record>, k: nat, c: int, t: int, tscPerUs: real)
    requires tscPerUs > 0.0 && 0 < k <= |popped| && popped[k - 1].cpu == c && popped[k - 1].timestamp == t
    requires Measures(Of(popped[..k - 1], c), popped[k - 1])
    requires forall i :: 0 <= i < k && popped[i].cpu == c ==> popped[i].timestamp <= t
    requires forall i :: k <= i < |popped| && popped[i].cpu == c ==> popped[i].timestamp >= t
    ensures Bandwidth(Of(popped[..k], c), tscPerUs) == Bandwidth(UpTo(Of(popped, c), t), tscPerUs)
    ensures Last(UpTo(Of(popped, c), t)).Some? && Last(UpTo(Of(popped, c), t)).value.timestamp == t
    ensures Perf(Of(popped[..k], c), tscPerUs) <= Perf(Of(popped, c), tscPerUs)
  {
    var front, y := popped[..|popped| - 1], popped[|popped| - 1];
    assert popped == front + [y];
    if k == |popped| {
      assert popped[..k] == popped && popped[..k - 1] == front;
      CutByTime(popped, k, c, t);
      hide Of, UpTo, Perf, Bandwidth, Last;
      OfSnoc(front, y, c);
      CoreSnoc(Of(front, c), y, tscPerUs);
      OpenMeasures(Of(front, c), y);
    } else {
      assert front[..k] == popped[..k] && front[..k - 1] == popped[..k - 1];
      CutAtWriter(front, k, c, t, tscPerUs);
      hide *;
      OfSnoc(front, y, c);
      UpToSnoc(Of(front, c), y, t);
      CoreSnoc(Of(front, c), y, tscPerUs);
      CoreSnoc(UpTo(Of(front, c), t), y, tscPerUs);
      OpenMeasures(UpTo(Of(front, c), t), y);
    }
  }

  /** Whether a core's records give an entry stamped t. */
  ghost predicate Stamps(s: seq<Record>, t: int, tscPerUs: real)
    requires tscPerUs > 0.0
  {
    exists i :: 0 <= i < |Perf(s, tscPerUs)| && Perf(s, tscPerUs)[i].timestamp == t
  }

  lemma StampsNothing(t: int, tscPerUs: real)
    requires tscPerUs > 0.0
    ensures !Stamps([], t, tscPerUs)
  {
  }

  /** An entry comes from a record that counted when it was popped. */
  lemma {:induction false} EntryFrom(popped: seq<Record>, c: int, t: int, tscPerUs: real) returns (i: nat)
    requires tscPerUs > 0.0 && Stamps(Of(popped, c), t, tscPerUs)
    ensures i < |popped| && popped[i].cpu == c && popped[i].timestamp == t && Counts(popped[..i], popped[i])
  {
    hide Of, Perf, Measure;
    if popped == [] {
      OfNothing(c);
      StampsNothing(t, tscPerUs);
      assert false;
    } else {
      var front, y := popped[..|popped| - 1], popped[|popped| - 1];
      assert popped == front + [y];
      OfSnoc(front, y, c);
      CoreSnoc(Of(front, c), y, tscPerUs);
      if Stamps(Of(front, c), t, tscPerUs) {
        i := EntryFrom(front, c, t, tscPerUs);
        assert popped[..i] == front[..i];
      } else {
        i := |popped| - 1;
        MeasureTimes(Last(Of(front, c)).value, y, tscPerUs);
      }
    }
  }

  /** The clock is not behind any record that counted. */
  lemma {:induction false} ClockCovers(popped: seq<Record>, i: nat)
    requires InOrder(popped) && i < |popped| && Counts(popped[..i], popped[i])
    ensures Clock(popped).Some? && popped[i].timestamp <= Clock(popped).value
  {
    var front, y := popped[..|popped| - 1], popped[|popped| - 1];
    if i == |popped| - 1 {
      assert popped[..i] == front;
    } else {
      assert front[..i] == popped[..i];
      ClockCovers(front, i);
      assert Le(popped[i], y);
    }
  }

  /** The clock is that of some record that counted. */
  lemma {:induction false} ClockIsSome(popped: seq<Record>) returns (m: nat)
    requires Clock(popped).Some?
    ensures m < |popped| && Counts(popped[..m], popped[m]) && Clock(popped).value == popped[m].timestamp
  {
    hide Counts;
    var front, x := popped[..|popped| - 1], popped[|popped| - 1];
    if Counts(front, x) {
      m := |popped| - 1;
    } else {
      m := ClockIsSome(front);
      assert front[..m] == popped[..m];
    }
  }

  /** Every later time at which some record counted ends an interval that was written, and none of
      the time since the first such record is left out before it. */
  lemma {:induction false} EveryTimeWritten(cpus: seq<int>, popped: seq<Record>, tscPerUs: real, i: nat, k: nat)
    returns (j: nat)
    requires tscPerUs > 0.0 && InOrder(popped) && i < |popped| && k < |popped|
    requires Counts(popped[..i], popped[i]) && Counts(popped[..k], popped[k]) && popped[i].timestamp < popped[k].timestamp
    ensures var t := Timeline(cpus, popped, tscPerUs);
      j < |t| && t[j].end == popped[k].timestamp && popped[i].timestamp <= t[j].start
    decreases |popped|
  {
    hide Counts, Timeline, Clock, TotalRate;
    var front, x := popped[..|popped| - 1], popped[|popped| - 1];
    assert popped == front + [x];
    InOrderFront(front, x);
    LaterInOrder(popped, i, k);
    TimelineSnoc(cpus, front, x, tscPerUs);
    assert popped[..i] == front[..i];
    if k < |front| {
      assert popped[..k] == front[..k];
      j := EveryTimeWritten(cpus, front, tscPerUs, i, k);
    } else {
      assert popped[..k] == front;
      ClockCovers(front, i);
      var m := ClockIsSome(front);
      if Clock(front).value < x.timestamp {
        j := |Timeline(cpus, front, tscPerUs)|;
      } else {
        assert Le(front[m], x);
        j := EveryTimeWritten(cpus, front, tscPerUs, i, m);
      }
    }
  }

  lemma LaterInOrder(popped: seq<Record>, i: nat, k: nat)
    requires InOrder(popped) && i < |popped| && k < |popped| && popped[i].timestamp < popped[k].timestamp
    ensures i < k
  {
    var a, b := Min(i, k), Max(i, k);
    assert a < b ==> Le(popped[a], popped[b]);
  }

  /** The total a writer on CPU w writes at time t: its own and the CPUs before it as of t, the
      CPUs after it as of before t. */
  function SplitRate(cpus: seq<int>, streams: map<int, seq<Record>>, t: int, w: int, tscPerUs: real): real
    requires tscPerUs > 0.0
  {
    if cpus == [] then 0.0
    else
      var c := cpus[|cpus| - 1];
      SplitRate(cpus[..|cpus| - 1], streams, t, w, tscPerUs)
      + Bandwidth(UpTo(Get(streams, c), if c <= w then t else t - 1), tscPerUs)
  }

  /** By how much the CPUs after w change at time t. */
  function LateChange(cpus: seq<int>, streams: map<int, seq<Record>>, t: int, w: int, tscPerUs: real): real
    requires tscPerUs > 0.0
  {
    if cpus == [] then 0.0
    else
      var c := cpus[|cpus| - 1];
      LateChange(cpus[..|cpus| - 1], streams, t, w, tscPerUs)
      + if c <= w then 0.0
        else Bandwidth(UpTo(Get(streams, c), t), tscPerUs) - Bandwidth(UpTo(Get(streams, c), t - 1), tscPerUs)
  }

  lemma {:induction false} LateIsTheRest(cpus: seq<int>, streams: map<int, seq<Record>>, t: int, w: int, tscPerUs: real)
    requires tscPerUs > 0.0
    ensures RateAt(cpus, streams, t, tscPerUs)
            == SplitRate(cpus, streams, t, w, tscPerUs) + LateChange(cpus, streams, t, w, tscPerUs)
  {
    hide Bandwidth, UpTo;
    if cpus != [] {
      LateIsTheRest(cpus[..|cpus| - 1], streams, t, w, tscPerUs);
    }
  }

  /** Without a record of a later CPU at that time, nothing is late. */
  lemma {:induction false} NothingLate(cpus: seq<int>, streams: map<int, seq<Record>>, t: int, w: int, tscPerUs: real)
    requires tscPerUs > 0.0
    requires forall c, x :: c in cpus && c > w && x in Get(streams, c) ==> x.timestamp != t
    ensures LateChange(cpus, streams, t, w, tscPerUs) == 0.0
  {
    if cpus != [] {
      var c := cpus[|cpus| - 1];
      assert c in cpus;
      NothingLate(cpus[..|cpus| - 1], streams, t, w, tscPerUs);
      if c > w {
        UpToBefore(Get(streams, c), t);
      }
    }
  }

  lemma {:induction false} UpToBefore(s: seq<Record>, t: int)
    requires forall x :: x in s ==> x.timestamp != t
    ensures UpTo(s, t) == UpTo(s, t - 1)
  {
    if s != [] {
      assert s[|s| - 1] in s;
      UpToBefore(s[..|s| - 1], t);
    }
  }

  /** For one CPU: what was popped by the writer's turn makes the same bandwidth as its records up to
      then. */
  lemma CoreIsSplit(popped: seq<Record>, k: nat, c: int, tscPerUs: real)
    requires tscPerUs > 0.0 && InOrder(popped)
    requires 0 < k <= |popped| && Counts(popped[..k - 1], popped[k - 1])
    ensures var x := popped[k - 1];
            Bandwidth(Of(popped[..k], c), tscPerUs)
            == Bandwidth(UpTo(Of(popped, c), if c <= x.cpu then x.timestamp else x.timestamp - 1), tscPerUs)
  {
    hide Of, UpTo, Bandwidth, InOrder, Measures;
    var x := popped[k - 1];
    AroundWriter(popped, k);
    if c == x.cpu {
      CutAtWriter(popped, k, c, x.timestamp, tscPerUs);
    } else {
      CutByTime(popped, k, c, if c < x.cpu then x.timestamp else x.timestamp - 1);
    }
  }

  lemma {:induction false} TotalIsSplit(cpus: seq<int>, streams: map<int, seq<Record>>, popped: seq<Record>, k: nat,
                                        tscPerUs: real)
    requires tscPerUs > 0.0 && InOrder(popped) && forall c :: Of(popped, c) == Get(streams, c)
    requires 0 < k <= |popped| && Counts(popped[..k - 1], popped[k - 1])
    ensures TotalRate(cpus, popped[..k], tscPerUs)
            == SplitRate(cpus, streams, popped[k - 1].timestamp, popped[k - 1].cpu, tscPerUs)
  {
    hide Of, UpTo, Bandwidth, InOrder, Measures, Counts, Get;
    if cpus != [] {
      var c := cpus[|cpus| - 1];
      TotalIsSplit(cpus[..|cpus| - 1], streams, popped, k, tscPerUs);
      CoreIsSplit(popped, k, c, tscPerUs);
      assert Of(popped, c) == Get(streams, c);
    }
  }

  /** How the pop order places the other records around the writer's. */
  lemma AroundWriter(popped: seq<Record>, k: nat)
    requires InOrder(popped) && 0 < k <= |popped|
    ensures forall i :: 0 <= i < k ==> Le(popped[i], popped[k - 1])
    ensures forall i :: k <= i < |popped| ==> Le(popped[k - 1], popped[i])
  {
  }

  /** What is written, in terms of the per-core lists. The writer w is the first CPU with an entry
      stamped with the end of the interval. The bandwidth written is that of the CPUs up to w as of
      the end, and of the CPUs after w as of before it; so it is the bandwidth at that time exactly
      when the changes of the later CPUs at that time add up to nothing. */
  lemma WrittenIsSplit(cpus: seq<int>, streams: map<int, seq<Record>>, popped: seq<Record>, tscPerUs: real, i: nat)
    returns (w: int)
    requires tscPerUs > 0.0 && InOrder(popped) && forall c :: Of(popped, c) == Get(streams, c)
    requires i < |Timeline(cpus, popped, tscPerUs)|
    ensures var v := Timeline(cpus, popped, tscPerUs)[i];
            && Stamps(Get(streams, w), v.end, tscPerUs)
            && (forall c :: Stamps(Get(streams, c), v.end, tscPerUs) ==> w <= c)
            && v.bw == SplitRate(cpus, streams, v.end, w, tscPerUs)
            && (v.bw == RateAt(cpus, streams, v.end, tscPerUs) <==> LateChange(cpus, streams, v.end, w, tscPerUs) == 0.0)
  {
    hide *;
    TimelineGapless(cpus, popped, tscPerUs);
    OpenGapless(Timeline(cpus, popped, tscPerUs), i);
    var v := Timeline(cpus, popped, tscPerUs)[i];
    var k := WrittenAt(cpus, popped, tscPerUs, i);
    w := popped[k - 1].cpu;
    TotalIsSplit(cpus, streams, popped, k, tscPerUs);
    LateIsTheRest(cpus, streams, v.end, w, tscPerUs);
    WriterStamps(popped, k, tscPerUs);
    assert Of(popped, w) == Get(streams, w);
    forall c | Stamps(Get(streams, c), v.end, tscPerUs)
      ensures w <= c
    {
      assert Of(popped, c) == Get(streams, c);
      WriterIsFirst(popped, k, c, v.start, tscPerUs);
    }
  }

  lemma OpenGapless(t: seq<Interval>, i: nat)
    requires Gapless(t) && i < |t|
    ensures t[i].start < t[i].end
  {
  }

  lemma WriterStamps(popped: seq<Record>, k: nat, tscPerUs: real)
    requires tscPerUs > 0.0 && InOrder(popped) && 0 < k <= |popped| && Counts(popped[..k - 1], popped[k - 1])
    ensures Stamps(Of(popped, popped[k - 1].cpu), popped[k - 1].timestamp, tscPerUs)
  {
    hide *;
    var x, front := popped[k - 1], popped[..k - 1];
    OpenCounts(front, x);
    AreTimes(popped, k);
    assert popped[..k] == front + [x];
    CutAtWriter(popped, k, x.cpu, x.timestamp, tscPerUs);
    OfSnoc(front, x, x.cpu);
    CoreSnoc(Of(front, x.cpu), x, tscPerUs);
    OpenMeasures(Of(front, x.cpu), x);
    MeasureTimes(Last(Of(front, x.cpu)).value, x, tscPerUs);
    PartStamps(Of(popped, x.cpu), Perf(Of(popped[..k], x.cpu), tscPerUs), tscPerUs);
  }

  lemma OpenCounts(popped: seq<Record>, x: Record)
    ensures Counts(popped, x) <==> Measures(Of(popped, x.cpu), x)
  {
  }

  lemma AreTimes(popped: seq<Record>, k: nat)
    requires InOrder(popped) && 0 < k <= |popped|
    ensures forall i :: 0 <= i < k ==> popped[i].timestamp <= popped[k - 1].timestamp
    ensures forall i :: k <= i < |popped| ==> popped[i].timestamp >= popped[k - 1].timestamp
  {
    AroundWriter(popped, k);
  }

  lemma PartStamps(s: seq<Record>, part: seq<PerfEntry>, tscPerUs: real)
    requires tscPerUs > 0.0 && part != [] && part <= Perf(s, tscPerUs)
    ensures Stamps(s, part[|part| - 1].timestamp, tscPerUs)
  {
    assert part[|part| - 1] == Perf(s, tscPerUs)[|part| - 1];
  }

  lemma WriterIsFirst(popped: seq<Record>, k: nat, c: int, start: int, tscPerUs: real)
    requires tscPerUs > 0.0 && InOrder(popped) && 0 < k <= |popped|
    requires Clock(popped[..k - 1]) == Some(start) && start < popped[k - 1].timestamp
    requires Stamps(Of(popped, c), popped[k - 1].timestamp, tscPerUs)
    ensures popped[k - 1].cpu <= c
  {
    var x, front := popped[k - 1], popped[..k - 1];
    var i := EntryFrom(popped, c, x.timestamp, tscPerUs);
    if i < k - 1 {
      assert popped[i] == front[i] && popped[..i] == front[..i];
      ClockCovers(front, i);
      assert false;
    }
    AroundWriter(popped, k);
  }

  /** A core that counts one miss in its second microsecond. */
  lemma OneCore(r: Record)
    requires r.timestamp == 0 && r.misses == 0 && r.prefetches == 0
    ensures var r1, r2 := r.(timestamp := 1000), r.(timestamp := 2000, misses := 1);
            && Last([]) == None && Last([r]) == Some(r) && Last([r, r1]) == Some(r1)
            && Bandwidth([], 1.0) == Bandwidth([r], 1.0) == Bandwidth([r, r1], 1.0) == 0.0
            && Bandwidth([r, r1, r2], 1.0) == 64.0
  {
    var r1, r2 := r.(timestamp := 1000), r.(timestamp := 2000, misses := 1);
    CoreSnoc([], r, 1.0);
    CoreSnoc([r], r1, 1.0);
    CoreSnoc([r, r1], r2, 1.0);
    assert [] + [r] == [r] && [r] + [r1] == [r, r1] && [r, r1] + [r2] == [r, r1, r2];
    assert Measure(r, r1, 1.0).bandwidth == 0.0;
    assert Measure(r1, r2, 1.0).bandwidth == 64.0;
  }

  lemma TotalOfTwo(popped: seq<Record>, s0: seq<Record>, s1: seq<Record>)
    requires Of(popped, 0) == s0 && Of(popped, 1) == s1
    ensures TotalRate([0, 1], popped, 1.0) == Bandwidth(s0, 1.0) + Bandwidth(s1, 1.0)
  {
    assert [0, 1][..1] == [0] && [0][..0] == [];
    assert TotalRate([0], popped, 1.0) == TotalRate([], popped, 1.0) + Bandwidth(s0, 1.0);
  }

  /** Two cores sampled at the same times: the interval that ends at 2000 is written by the first
      of them, with the other's bandwidth still that of its previous interval. */
  lemma TieIsStale(a: Record, b: Record)
    requires a.cpu == 0 && a.misses == 0 && a.prefetches == 0 && a.timestamp == 0 && b == a.(cpu := 1)
    ensures var a1, b1 := a.(timestamp := 1000), b.(timestamp := 1000);
            var a2, b2 := a.(timestamp := 2000, misses := 1), b.(timestamp := 2000, misses := 1);
            var popped := [a, b, a1, b1, a2, b2];
            && InOrder(popped)
            && Timeline([0, 1], popped, 1.0) == [Interval(1000, 2000, 64.0)]
            && TotalRate([0, 1], popped, 1.0) == 128.0
  {
    var a1, b1 := a.(timestamp := 1000), b.(timestamp := 1000);
    var a2, b2 := a.(timestamp := 2000, misses := 1), b.(timestamp := 2000, misses := 1);
    OneCore(a);
    OneCore(b);
    NothingSeen();
    SixInOrder([a, b, a1, b1, a2, b2]);
    hide *;
    Displays(a, a1, a2);
    Displays(b, b1, b2);
    Interleaved(a, b, a1, b1, a2, b2);
    SeeTwo([], a, b, [], [], None, []);
    SeeTwo([a, b], a1, b1, [a], [b], None, []);
    SeeLast([a, b, a1, b1], a2, b2, [a, a1], [b, b1]);
  }

  lemma Displays<T>(x: T, y: T, z: T)
    ensures [] + [x] == [x] && [x] + [y] == [x, y] && [x, y] + [z] == [x, y, z]
  {
  }

  lemma Interleaved<T>(a: T, b: T, c: T, d: T, e: T, f: T)
    ensures [] + [a, b] == [a, b] && [a, b] + [c, d] == [a, b, c, d]
    ensures [a, b, c, d] + [e, f] == [a, b, c, d, e, f]
  {
  }

  lemma SixInOrder(s: seq<Record>)
    requires |s| == 6 && s[0].timestamp == s[1].timestamp < s[2].timestamp == s[3].timestamp
    requires s[3].timestamp < s[4].timestamp == s[5].timestamp
    requires s[0].cpu <= s[1].cpu && s[2].cpu <= s[3].cpu && s[4].cpu <= s[5].cpu
    ensures InOrder(s)
  {
  }

  lemma NothingSeen()
    ensures Seen([], [], [], None, [])
  {
  }

  /** What is known after some pops on two cores. */
  ghost predicate Seen(popped: seq<Record>, s0: seq<Record>, s1: seq<Record>, clock: Option<int>, t: seq<Interval>) {
    Of(popped, 0) == s0 && Of(popped, 1) == s1 && Clock(popped) == clock && Timeline([0, 1], popped, 1.0) == t
  }

  lemma See(popped: seq<Record>, x: Record, s0: seq<Record>, s1: seq<Record>, clock: Option<int>, t: seq<Interval>)
    requires Seen(popped, s0, s1, clock, t) && (x.cpu == 0 || x.cpu == 1)
    ensures var core := Last(if x.cpu == 0 then s0 else s1);
            var counts := core.Some? && core.value.timestamp < x.timestamp;
            Seen(popped + [x], if x.cpu == 0 then s0 + [x] else s0, if x.cpu == 1 then s1 + [x] else s1,
                 if counts then Some(x.timestamp) else clock,
                 if counts && clock.Some? && clock.value < x.timestamp
                 then t + [Interval(clock.value, x.timestamp, TotalRate([0, 1], popped + [x], 1.0))] else t)
  {
    OfSnoc(popped, x, 0);
    OfSnoc(popped, x, 1);
    TimelineSnoc([0, 1], popped, x, 1.0);
    hide Of, Last, TotalRate, Clock, Timeline;
  }

  /** Two tied pops that write nothing: the clock is not running, or not past them. */
  lemma SeeTwo(popped: seq<Record>, x: Record, y: Record, s0: seq<Record>, s1: seq<Record>, clock: Option<int>, t: seq<Interval>)
    requires Seen(popped, s0, s1, clock, t) && x.cpu == 0 && y.cpu == 1 && x.timestamp == y.timestamp
    requires clock.None?
    requires Last(s0).None? == Last(s1).None?
    requires Last(s0).Some? ==> Last(s0).value.timestamp < x.timestamp && Last(s1).value.timestamp < x.timestamp
    ensures Seen(popped + [x, y], s0 + [x], s1 + [y], if Last(s0).None? then None else Some(x.timestamp), t)
  {
    hide *;
    See(popped, x, s0, s1, clock, t);
    See(popped + [x], y, s0 + [x], s1, if Last(s0).None? then None else Some(x.timestamp), t);
    assert popped + [x] + [y] == popped + [x, y];
  }

  /** The tied pair at the end: the first writes, the second does not. */
  lemma SeeLast(p4: seq<Record>, a2: Record, b2: Record, s0: seq<Record>, s1: seq<Record>)
    requires Seen(p4, s0, s1, Some(1000), []) && a2.cpu == 0 && b2.cpu == 1 && a2.timestamp == b2.timestamp == 2000
    requires Last(s0).Some? && Last(s0).value.timestamp == 1000 && Last(s1).Some? && Last(s1).value.timestamp == 1000
    ensures Timeline([0, 1], p4 + [a2, b2], 1.0)
            == [Interval(1000, 2000, Bandwidth(s0 + [a2], 1.0) + Bandwidth(s1, 1.0))]
    ensures TotalRate([0, 1], p4 + [a2, b2], 1.0) == Bandwidth(s0 + [a2], 1.0) + Bandwidth(s1 + [b2], 1.0)
  {
    hide *;
    var p5 := p4 + [a2];
    assert p5 + [b2] == p4 + [a2, b2];
    See(p4, a2, s0, s1, Some(1000), []);
    var v := Interval(1000, 2000, TotalRate([0, 1], p5, 1.0));
    assert [] + [v] == [v];
    See(p5, b2, s0 + [a2], s1, Some(2000), [v]);
    OpenSeen(p5, s0 + [a2], s1, Some(2000), [v]);
    OpenSeen(p5 + [b2], s0 + [a2], s1 + [b2], Some(2000), [v]);
    TotalOfTwo(p5, s0 + [a2], s1);
    TotalOfTwo(p5 + [b2], s0 + [a2], s1 + [b2]);
  }

  lemma OpenSeen(popped: seq<Record>, s0: seq<Record>, s1: seq<Record>, clock: Option<int>, t: seq<Interval>)
    requires Seen(popped, s0, s1, clock, t)
    ensures Of(popped, 0) == s0 && Of(popped, 1) == s1 && Timeline([0, 1], popped, 1.0) == t
  {
  }

  // ------------------------------------------------ what the entries are worth

  function Elapsed(entries: seq<PerfEntry>): int {
    if entries == [] then 0 else Elapsed(entries[..|entries| - 1]) + entries[|entries| - 1].delta
  }

  /** The bytes that the entries' bandwidths stand for. */
  function Volume(entries: seq<PerfEntry>): real {
    if entries == [] then 0.0
    else Volume(entries[..|entries| - 1])
         + entries[|entries| - 1].bandwidth * (entries[|entries| - 1].delta as real / 1000.0)
  }

  lemma RateTimesTime(count: int, delta: int)
    requires delta > 0
    ensures PerUs(count, delta) * (delta as real / 1000.0) == count as real
  {
  }

  /** The bytes of the cache lines counted between two records. */
  function Lines(p: Record, x: Record): real {
    64.0 * ((x.misses - p.misses) + (x.prefetches - p.prefetches)) as real
  }

  lemma EntryVolume(p: Record, x: Record, tscPerUs: real)
    requires p.timestamp < x.timestamp && tscPerUs > 0.0
    ensures var e := Measure(p, x, tscPerUs);
            e.bandwidth * (e.delta as real / 1000.0)
            == Lines(p, x)
  {
    var e := Measure(p, x, tscPerUs);
    var us := e.delta as real / 1000.0;
    RateTimesTime(x.misses - p.misses, e.delta);
    RateTimesTime(x.prefetches - p.prefetches, e.delta);
    assert e.bandwidth * us == 64.0 * (e.missRate * us + e.prefetchRate * us);
  }

  /** Between the first record of a core and the last one taken over, the entries account for all
      the time and for every counted cache line of 64 bytes: no count is lost where records are
      skipped, and none appears twice. */
  lemma {:induction false} CountsRecovered(s: seq<Record>, tscPerUs: real)
    requires tscPerUs > 0.0 && s != []
    ensures Last(s).Some?
    ensures var entries, last := Perf(s, tscPerUs), Last(s).value;
            Elapsed(entries) == last.timestamp - s[0].timestamp
            && Volume(entries) == Lines(s[0], last)
  {
    hide *;
    var front, x := s[..|s| - 1], s[|s| - 1];
    assert s == front + [x];
    NothingCounted(x, tscPerUs);
    CoreSnoc(front, x, tscPerUs);
    OpenMeasures(front, x);
    if front != [] {
      CountsRecovered(front, tscPerUs);
      if Measures(front, x) {
        var p := Last(front).value;
        EntryVolume(p, x, tscPerUs);
        MeasureTimes(p, x, tscPerUs);
        SumsOfEntries(Perf(front, tscPerUs), Measure(p, x, tscPerUs));
        LinesAdd(s[0], p, x);
      }
    }
  }

  lemma NothingCounted(x: Record, tscPerUs: real)
    requires tscPerUs > 0.0
    ensures Perf([], tscPerUs) == [] && Last([]) == None
    ensures Elapsed([]) == 0 && Volume([]) == 0.0 && Lines(x, x) == 0.0
  {
  }

  lemma LinesAdd(p: Record, q: Record, r: Record)
    ensures Lines(p, r) == Lines(p, q) + Lines(q, r)
  {
  }

  lemma MeasureTimes(p: Record, x: Record, tscPerUs: real)
    requires p.timestamp < x.timestamp && tscPerUs > 0.0
    ensures Measure(p, x, tscPerUs).timestamp == x.timestamp
    ensures Measure(p, x, tscPerUs).delta == x.timestamp - p.timestamp > 0
  {
  }

  lemma SumsOfEntries(entries: seq<PerfEntry>, e: PerfEntry)
    ensures Elapsed(entries + [e]) == Elapsed(entries) + e.delta
    ensures Volume(entries + [e]) == Volume(entries) + e.bandwidth * (e.delta as real / 1000.0)
  {
    assert (entries + [e])[..|entries|] == entries;
  }

  // Rates of an entry, and the counters of a record that they are rates of.
  function StallRate(e: PerfEntry): real { e.stallRate }
  function InstRate(e: PerfEntry): real { e.instRate }
  function MissRate(e: PerfEntry): real { e.missRate }
  function PrefetchRate(e: PerfEntry): real { e.prefetchRate }
  function CycleRate(tscPerUs: real): PerfEntry -> real { (e: PerfEntry) => e.usage * tscPerUs }
  function Stalls(r: Record): int { r.stalls }
  function Insts(r: Record): int { r.insts }
  function Misses(r: Record): int { r.misses }
  function Prefetches(r: Record): int { r.prefetches }
  function Cycles(r: Record): int { r.cycles }

  /** What a rate amounts to over all entries. */
  function Amount(entries: seq<PerfEntry>, rate: PerfEntry -> real): real {
    if entries == [] then 0.0
    else Amount(entries[..|entries| - 1], rate)
         + rate(entries[|entries| - 1]) * (entries[|entries| - 1].delta as real / 1000.0)
  }

  lemma AmountNone(rate: PerfEntry -> real)
    ensures Amount([], rate) == 0.0
  {
  }

  lemma AmountSnoc(entries: seq<PerfEntry>, e: PerfEntry, rate: PerfEntry -> real)
    ensures Amount(entries + [e], rate) == Amount(entries, rate) + rate(e) * (e.delta as real / 1000.0)
  {
    assert (entries + [e])[..|entries|] == entries;
  }

  /** Over one interval the rate amounts to what was counted. */
  ghost predicate IsRateOf(rate: PerfEntry -> real, count: Record -> int, tscPerUs: real)
    requires tscPerUs > 0.0
  {
    forall p: Record, x: Record :: p.timestamp < x.timestamp ==> RateAmounts(rate, count, p, x, tscPerUs)
  }

  ghost predicate RateAmounts(rate: PerfEntry -> real, count: Record -> int, p: Record, x: Record, tscPerUs: real)
    requires p.timestamp < x.timestamp && tscPerUs > 0.0
  {
    rate(Measure(p, x, tscPerUs)) * ((x.timestamp - p.timestamp) as real / 1000.0) == (count(x) - count(p)) as real
  }

  lemma Restored(x: real, y: real)
    requires y != 0.0
    ensures x / y * y == x
  {
  }

  lemma UsageAmounts(count: int, delta: int, tscPerUs: real)
    requires delta > 0 && tscPerUs > 0.0
    ensures var us := delta as real / 1000.0;
            tscPerUs * us > 0.0 && count as real / (tscPerUs * us) * tscPerUs * us == count as real
  {
    var us := delta as real / 1000.0;
    assert tscPerUs * us > 0.0;
    Restored(count as real, tscPerUs * us);
    assert count as real / (tscPerUs * us) * tscPerUs * us == count as real / (tscPerUs * us) * (tscPerUs * us);
  }

  /** Each rate of an entry is that of its own counter. */
  lemma RatesAreOf(tscPerUs: real)
    requires tscPerUs > 0.0
    ensures IsRateOf(StallRate, Stalls, tscPerUs) && IsRateOf(InstRate, Insts, tscPerUs)
    ensures IsRateOf(MissRate, Misses, tscPerUs) && IsRateOf(PrefetchRate, Prefetches, tscPerUs)
    ensures IsRateOf(CycleRate(tscPerUs), Cycles, tscPerUs)
  {
    forall p: Record, x: Record | p.timestamp < x.timestamp
      ensures RateAmounts(StallRate, Stalls, p, x, tscPerUs) && RateAmounts(InstRate, Insts, p, x, tscPerUs)
      ensures RateAmounts(MissRate, Misses, p, x, tscPerUs) && RateAmounts(PrefetchRate, Prefetches, p, x, tscPerUs)
      ensures RateAmounts(CycleRate(tscPerUs), Cycles, p, x, tscPerUs)
    {
      EachRate(p, x, tscPerUs);
    }
  }

  lemma EachRate(p: Record, x: Record, tscPerUs: real)
    requires p.timestamp < x.timestamp && tscPerUs > 0.0
    ensures RateAmounts(StallRate, Stalls, p, x, tscPerUs) && RateAmounts(InstRate, Insts, p, x, tscPerUs)
    ensures RateAmounts(MissRate, Misses, p, x, tscPerUs) && RateAmounts(PrefetchRate, Prefetches, p, x, tscPerUs)
    ensures RateAmounts(CycleRate(tscPerUs), Cycles, p, x, tscPerUs)
  {
    hide PerUs;
    var delta := x.timestamp - p.timestamp;
    RateTimesTime(x.stalls - p.stalls, delta);
    RateTimesTime(x.insts - p.insts, delta);
    RateTimesTime(x.misses - p.misses, delta);
    RateTimesTime(x.prefetches - p.prefetches, delta);
    UsageAmounts(x.cycles - p.cycles, delta, tscPerUs);
  }

  /** The same for every counter on its own: over all entries its rate amounts to what was counted
      between the first record and the last one taken over. */
  lemma CountersRecovered(s: seq<Record>, tscPerUs: real)
    requires tscPerUs > 0.0 && s != []
    ensures Last(s).Some?
    ensures var entries, first, last := Perf(s, tscPerUs), s[0], Last(s).value;
            && Amount(entries, StallRate) == (last.stalls - first.stalls) as real
            && Amount(entries, InstRate) == (last.insts - first.insts) as real
            && Amount(entries, MissRate) == (last.misses - first.misses) as real
            && Amount(entries, PrefetchRate) == (last.prefetches - first.prefetches) as real
            && Amount(entries, CycleRate(tscPerUs)) == (last.cycles - first.cycles) as real
  {
    hide Amount, Perf, Last, IsRateOf, CycleRate;
    RatesAreOf(tscPerUs);
    CounterRecovered(s, tscPerUs, StallRate, Stalls);
    CounterRecovered(s, tscPerUs, InstRate, Insts);
    CounterRecovered(s, tscPerUs, MissRate, Misses);
    CounterRecovered(s, tscPerUs, PrefetchRate, Prefetches);
    CounterRecovered(s, tscPerUs, CycleRate(tscPerUs), Cycles);
  }

  lemma {:induction false} CounterRecovered(s: seq<Record>, tscPerUs: real, rate: PerfEntry -> real, count: Record -> int)
    requires tscPerUs > 0.0 && s != [] && IsRateOf(rate, count, tscPerUs)
    ensures Last(s).Some? && Amount(Perf(s, tscPerUs), rate) == (count(Last(s).value) - count(s[0])) as real
  {
    hide *;
    var front, x := s[..|s| - 1], s[|s| - 1];
    assert s == front + [x];
    NothingCounted(x, tscPerUs);
    CoreSnoc(front, x, tscPerUs);
    OpenMeasures(front, x);
    if front == [] {
      AmountNone(rate);
    } else {
      CounterRecovered(front, tscPerUs, rate, count);
      if Measures(front, x) {
        var p := Last(front).value;
        OneRate(p, x, tscPerUs, rate, count);
        MeasureTimes(p, x, tscPerUs);
        AmountSnoc(Perf(front, tscPerUs), Measure(p, x, tscPerUs), rate);
      }
    }
  }

  lemma OneRate(p: Record, x: Record, tscPerUs: real, rate: PerfEntry -> real, count: Record -> int)
    requires tscPerUs > 0.0 && p.timestamp < x.timestamp && IsRateOf(rate, count, tscPerUs)
    ensures rate(Measure(p, x, tscPerUs)) * ((x.timestamp - p.timestamp) as real / 1000.0)
            == (count(x) - count(p)) as real
  {
    hide Measure;
    assert RateAmounts(rate, count, p, x, tscPerUs);
  }

  /** A core's entries follow each other without gaps in time, whatever records were skipped. */
  ghost predicate Follow(entries: seq<PerfEntry>) {
    && (forall i :: 0 < i < |entries| ==> entries[i].timestamp - entries[i].delta == entries[i - 1].timestamp)
    && (forall i :: 0 <= i < |entries| ==> entries[i].delta > 0)
  }

  lemma FollowSnoc(entries: seq<PerfEntry>, e: PerfEntry)
    requires Follow(entries) && e.delta > 0
    requires entries != [] ==> e.timestamp - e.delta == entries[|entries| - 1].timestamp
    ensures Follow(entries + [e])
  {
  }

  lemma {:induction false} EntriesFollow(s: seq<Record>, tscPerUs: real)
    requires tscPerUs > 0.0
    ensures var entries := Perf(s, tscPerUs);
            && Follow(entries)
            && (entries != [] ==> Last(s).Some? && Last(s).value.timestamp == entries[|entries| - 1].timestamp)
  {
    if s != [] {
      hide *;
      var front, x := s[..|s| - 1], s[|s| - 1];
      assert s == front + [x];
      EntriesFollow(front, tscPerUs);
      CoreSnoc(front, x, tscPerUs);
      OpenMeasures(front, x);
      if Measures(front, x) {
        MeasureTimes(Last(front).value, x, tscPerUs);
        FollowSnoc(Perf(front, tscPerUs), Measure(Last(front).value, x, tscPerUs));
      }
    }
  }

  function TicksOf(entries: seq<PerfEntry>): (ticks: seq<Tick>)
    ensures |ticks| == |entries|
    ensures forall i :: 0 <= i < |ticks| ==> ticks[i] == Tick(entries[i].timestamp, entries[i].delta, entries[i].bandwidth)
  {
    seq(|entries|, i requires 0 <= i < |entries| => Tick(entries[i].timestamp, entries[i].delta, entries[i].bandwidth))
  }

  /** So they are in the order that the search for an invocation's samples relies on. */
  lemma {:induction false} FollowInOrder(entries: seq<PerfEntry>)
    requires Follow(entries)
    ensures InTimeOrder(TicksOf(entries))
  {
    if entries != [] {
      var front, last := entries[..|entries| - 1], entries[|entries| - 1];
      FollowInOrder(front);
      var ticks := TicksOf(front);
      forall i, j | 0 <= i <= j < |entries|
        ensures entries[i].timestamp <= entries[j].timestamp
      {
        if i < j == |entries| - 1 {
          assert ticks[i].timestamp <= ticks[j - 1].timestamp;
        } else if j < |entries| - 1 {
          assert ticks[i].timestamp <= ticks[j].timestamp;
        }
      }
    }
  }
}
