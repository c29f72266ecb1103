/** Average memory bandwidth over one function invocation, from a bisected window on the bandwidth
    timeline; and the split of the invocations over processes. */
module BandwidthWindow {
  import opened ByteStrings

  /** A stretch of time with the total bandwidth attributed to it. */
  datatype Interval = Interval(start: int, end: int, bw: real)

  /** What the merge writes: positive lengths, each end the next start. */
  ghost predicate Gapless(data: seq<Interval>) {
    && (forall i :: 0 <= i < |data| ==> data[i].start < data[i].end)
    && (forall i :: 0 < i < |data| ==> data[i - 1].end == data[i].start)
  }

  /** What the bisection needs. */
  ghost predicate Ordered(data: seq<Interval>) {
    forall i, j :: 0 <= i <= j < |data| ==> data[i].start <= data[j].start && data[i].end <= data[j].end
  }

  lemma {:induction false} GaplessIsOrdered(data: seq<Interval>)
    requires Gapless(data)
    ensures Ordered(data)
  {
    if data != [] {
      var front, last := data[..|data| - 1], data[|data| - 1];
      GaplessIsOrdered(front);
      if front != [] {
        assert forall i :: 0 <= i < |front| ==> front[i].end <= front[|front| - 1].end;
      }
    }
  }

  // ------------------------------------------------------------- bisection

  ghost predicate Sorted(a: seq<int>) {
    forall i, j :: 0 <= i <= j < |a| ==> a[i] <= a[j]
  }

  /** bisect_left: where the entries stop being smaller than x. */
  method BisectLeft(a: seq<int>, x: int) returns (lo: nat)
    requires Sorted(a)
    ensures lo <= |a|
    ensures forall i :: 0 <= i < |a| ==> (i < lo <==> a[i] < x)
  {
    lo := 0;
    var hi := |a|;
    while lo < hi
      invariant lo <= hi <= |a|
      invariant forall i :: 0 <= i < lo ==> a[i] < x
      invariant forall i :: hi <= i < |a| ==> a[i] >= x
    {
      var mid := (lo + hi) / 2;
      if a[mid] < x {
        lo := mid + 1;
      } else {
        hi := mid;
      }
    }
  }

  /** bisect_right: where the entries start being greater than x. */
  method BisectRight(a: seq<int>, x: int) returns (lo: nat)
    requires Sorted(a)
    ensures lo <= |a|
    ensures forall i :: 0 <= i < |a| ==> (i < lo <==> a[i] <= x)
  {
    lo := 0;
    var hi := |a|;
    while lo < hi
      invariant lo <= hi <= |a|
      invariant forall i :: 0 <= i < lo ==> a[i] <= x
      invariant forall i :: hi <= i < |a| ==> a[i] > x
    {
      var mid := (lo + hi) / 2;
      if x < a[mid] {
        hi := mid;
      } else {
        lo := mid + 1;
      }
    }
  }

  // ------------------------------------------------------ the reference scan

  /** The time an interval shares with the span from s to e. */
  function Shared(v: Interval, s: int, e: int): nat {
    Max(0, Min(v.end, e) - Max(v.start, s))
  }

  /** What a rate amounts to over a time. */
  function Area(rate: real, time: int): real {
    rate * time as real
  }

  function TotalWeight(data: seq<Interval>, s: int, e: int): nat {
    if data == [] then 0 else TotalWeight(data[..|data| - 1], s, e) + Shared(data[|data| - 1], s, e)
  }

  function Weighted(data: seq<Interval>, s: int, e: int): real {
    if data == [] then 0.0
    else Weighted(data[..|data| - 1], s, e) + Area(data[|data| - 1].bw, Shared(data[|data| - 1], s, e))
  }

  lemma SumsSnoc(data: seq<Interval>, v: Interval, s: int, e: int)
    ensures TotalWeight(data + [v], s, e) == TotalWeight(data, s, e) + Shared(v, s, e)
    ensures Weighted(data + [v], s, e) == Weighted(data, s, e) + Area(v.bw, Shared(v, s, e))
  {
    hide Area, Shared;
    assert (data + [v])[..|data|] == data;
  }

  /** A part that shares no time with the span adds nothing behind the rest. */
  lemma {:induction false} SumsIdle(a: seq<Interval>, b: seq<Interval>, s: int, e: int)
    requires forall v :: v in b ==> Shared(v, s, e) == 0
    ensures TotalWeight(a + b, s, e) == TotalWeight(a, s, e)
    ensures Weighted(a + b, s, e) == Weighted(a, s, e)
  {
    hide Area, Shared;
    if b == [] {
      assert a + b == a;
    } else {
      var front, last := b[..|b| - 1], b[|b| - 1];
      SumsIdle(a, front, s, e);
      assert a + b == (a + front) + [last];
      assert last in b;
      SumsSnoc(a + front, last, s, e);
      AreaZero(last.bw);
    }
  }

  /** Nor in front of it. */
  lemma {:induction false} SumsIdleFront(a: seq<Interval>, b: seq<Interval>, s: int, e: int)
    requires forall v :: v in a ==> Shared(v, s, e) == 0
    ensures TotalWeight(a + b, s, e) == TotalWeight(b, s, e)
    ensures Weighted(a + b, s, e) == Weighted(b, s, e)
  {
    hide Area, Shared;
    if b == [] {
      SumsIdle([], a, s, e);
      assert a + b == [] + a;
    } else {
      var front, last := b[..|b| - 1], b[|b| - 1];
      SumsIdleFront(a, front, s, e);
      assert a + b == (a + front) + [last];
      SumsSnoc(a + front, last, s, e);
    }
  }

  lemma AreaZero(x: real)
    ensures Area(x, 0) == 0.0
  {
  }

  /** Intervals that end before the span, or start after it, share no time with it. */
  lemma OutsideIsIdle(part: seq<Interval>, s: int, e: int)
    requires forall k :: 0 <= k < |part| ==> part[k].end < s || e < part[k].start
    ensures forall v :: v in part ==> Shared(v, s, e) == 0
  {
  }

  lemma ThreeParts<T>(s: seq<T>, i: nat, j: nat)
    requires i <= j <= |s|
    ensures s == (s[..i] + s[i..j]) + s[j..]
  {
  }

  /** Everything outside the bisected window is idle. */
  lemma WindowIsEnough(data: seq<Interval>, s: int, e: int, i: nat, j: nat)
    requires i <= |data| && j <= |data|
    requires forall k :: 0 <= k < |data| ==> (k < i <==> data[k].end < s)
    requires forall k :: 0 <= k < |data| ==> (k < j <==> data[k].start <= e)
    ensures TotalWeight(data, s, e) == if i <= j then TotalWeight(data[i..j], s, e) else 0
    ensures Weighted(data, s, e) == if i <= j then Weighted(data[i..j], s, e) else 0.0
  {
    hide *;
    if i <= j {
      var before, window, after := data[..i], data[i..j], data[j..];
      OutsideIsIdle(before, s, e);
      OutsideIsIdle(after, s, e);
      ThreeParts(data, i, j);
      SumsIdle(before + window, after, s, e);
      SumsIdleFront(before, window, s, e);
    } else {
      OutsideIsIdle(data, s, e);
      assert data == [] + data;
      SumsIdle([], data, s, e);
      EmptySums(s, e);
    }
  }

  // --------------------------------------------------------- the computation

  /** The second half of compute_metrics_for_invocation: the loop over the window gives the sums
      of a scan over the whole timeline, and the average they make. */
  method AverageBandwidth(data: seq<Interval>, starts: seq<int>, ends: seq<int>, s: int, e: int)
    returns (average: real, totalWeight: nat)
    requires Ordered(data) && |starts| == |data| == |ends|
    requires forall i :: 0 <= i < |data| ==> starts[i] == data[i].start && ends[i] == data[i].end
    ensures totalWeight == TotalWeight(data, s, e)
    ensures totalWeight > 0 ==> average == Weighted(data, s, e) / totalWeight as real
    ensures totalWeight == 0 ==> average == 0.0
  {
    hide TotalWeight, Weighted, Area;
    var weighted := 0.0;
    totalWeight := 0;
    var i := BisectLeft(ends, s);
    var j := BisectRight(starts, e);
    WindowIsEnough(data, s, e, i, j);
    EmptySums(s, e);
    assert data[i..i] == [];
    var k := i;
    while k < j
      invariant i <= k && (i <= j ==> k <= j) && (i > j ==> k == i)
      invariant i <= j ==> totalWeight == TotalWeight(data[i..k], s, e)
      invariant i <= j ==> weighted == Weighted(data[i..k], s, e)
      invariant i > j ==> totalWeight == 0 && weighted == 0.0
    {
      var v := data[k];
      assert data[i..k + 1] == data[i..k] + [v];
      SumsSnoc(data[i..k], v, s, e);
      var overlapStart, overlapEnd := Max(v.start, s), Min(v.end, e);
      k := k + 1;
      if overlapStart >= overlapEnd {
        AreaZero(v.bw);
        continue;
      }
      var duration := overlapEnd - overlapStart;
      totalWeight := totalWeight + duration;
      weighted := weighted + Area(v.bw, duration);
    }
    average := if totalWeight > 0 then weighted / totalWeight as real else 0.0;
  }

  lemma EmptySums(s: int, e: int)
    ensures TotalWeight([], s, e) == 0 && Weighted([], s, e) == 0.0
  {
  }

  // ------------------------------------------------------ what it amounts to

  lemma SharedJoin(a: int, b: int, c: int, s: int, e: int)
    requires a <= b <= c
    ensures Shared(Interval(a, c, 0.0), s, e)
            == Shared(Interval(a, b, 0.0), s, e) + Shared(Interval(b, c, 0.0), s, e)
  {
  }

  /** On a gapless timeline the total weight is the length of the invocation's part of it. */
  lemma {:induction false} WeightIsIntersection(data: seq<Interval>, s: int, e: int)
    requires Gapless(data) && data != []
    ensures TotalWeight(data, s, e) == Shared(Interval(data[0].start, data[|data| - 1].end, 0.0), s, e)
  {
    var front, last := data[..|data| - 1], data[|data| - 1];
    assert TotalWeight(data, s, e) == TotalWeight(front, s, e) + Shared(last, s, e);
    if front != [] {
      WeightIsIntersection(front, s, e);
      GaplessIsOrdered(data);
      assert data[|data| - 2].end == last.start && data[0].start <= data[|data| - 2].end;
      SharedJoin(data[0].start, last.start, last.end, s, e);
    } else {
      EmptySums(s, e);
    }
  }

  lemma AreaMonotone(lo: real, x: real, time: nat)
    requires lo <= x
    ensures Area(lo, time) <= Area(x, time)
  {
  }

  lemma AreaAdds(x: real, m: int, n: int)
    ensures Area(x, m + n) == Area(x, m) + Area(x, n)
  {
  }

  /** Bounds on the bandwidth of the overlapping intervals bound the weighted sum. */
  lemma {:induction false} WeightedBounds(data: seq<Interval>, s: int, e: int, lo: real, hi: real)
    requires forall v :: v in data && Shared(v, s, e) > 0 ==> lo <= v.bw <= hi
    ensures Area(lo, TotalWeight(data, s, e)) <= Weighted(data, s, e) <= Area(hi, TotalWeight(data, s, e))
  {
    hide Area, Shared;
    if data == [] {
      AreaZero(lo);
      AreaZero(hi);
    } else {
      var front, last := data[..|data| - 1], data[|data| - 1];
      WeightedBounds(front, s, e, lo, hi);
      var t, w := TotalWeight(front, s, e), Shared(last, s, e);
      AreaAdds(lo, t, w);
      AreaAdds(hi, t, w);
      if w > 0 {
        assert last in data;
        AreaMonotone(lo, last.bw, w);
        AreaMonotone(last.bw, hi, w);
      } else {
        AreaZero(lo);
        AreaZero(hi);
        AreaZero(last.bw);
      }
    }
  }

  lemma Quotient(x: real, sum: real, time: nat)
    requires time > 0
    ensures Area(x, time) <= sum <==> x <= sum / time as real
    ensures Area(x, time) >= sum <==> x >= sum / time as real
  {
    var w := time as real;
    assert sum == (sum / w) * w;
    assert Area(x, time) - sum == (x - sum / w) * w;
  }

  /** The average lies between the least and the greatest bandwidth of the intervals that overlap
      the invocation. */
  lemma AverageIsBetween(data: seq<Interval>, s: int, e: int, lo: real, hi: real)
    requires TotalWeight(data, s, e) > 0
    requires forall v :: v in data && Shared(v, s, e) > 0 ==> lo <= v.bw <= hi
    ensures lo <= Weighted(data, s, e) / TotalWeight(data, s, e) as real <= hi
  {
    WeightedBounds(data, s, e, lo, hi);
    Quotient(lo, Weighted(data, s, e), TotalWeight(data, s, e));
    Quotient(hi, Weighted(data, s, e), TotalWeight(data, s, e));
  }

  lemma SharedCut(v: Interval, s: int, m: int, e: int)
    requires s <= m <= e && v.start <= v.end
    ensures Shared(v, s, e) == Shared(v, s, m) + Shared(v, m, e)
  {
  }

  /** Cutting an invocation in two loses nothing and counts nothing twice. */
  lemma {:induction false} CutAnywhere(data: seq<Interval>, s: int, m: int, e: int)
    requires s <= m <= e && forall v :: v in data ==> v.start <= v.end
    ensures TotalWeight(data, s, e) == TotalWeight(data, s, m) + TotalWeight(data, m, e)
    ensures Weighted(data, s, e) == Weighted(data, s, m) + Weighted(data, m, e)
  {
    hide Area, Shared;
    if data != [] {
      var front, last := data[..|data| - 1], data[|data| - 1];
      CutAnywhere(front, s, m, e);
      assert last in data;
      SharedCut(last, s, m, e);
      AreaAdds(last.bw, Shared(last, s, m), Shared(last, m, e));
    }
  }

  /** An invocation over one whole interval gets that interval's bandwidth. */
  lemma OneInterval(data: seq<Interval>, i: nat)
    requires Gapless(data) && i < |data|
    ensures var s, e := data[i].start, data[i].end;
            TotalWeight(data, s, e) == e - s && Weighted(data, s, e) / TotalWeight(data, s, e) as real == data[i].bw
  {
    var v := data[i];
    GaplessIsOrdered(data);
    WindowIsOne(data, i);
    SumsSnoc([], v, v.start, v.end);
    EmptySums(v.start, v.end);
    assert [] + [v] == [v];
    Quotient(v.bw, Area(v.bw, v.end - v.start), v.end - v.start);
  }

  lemma Apart(v: Interval, s: int, e: int)
    requires v.end <= s || e <= v.start
    ensures Shared(v, s, e) == 0
  {
  }

  lemma OthersApart(data: seq<Interval>, i: nat)
    requires Gapless(data) && Ordered(data) && i < |data|
    ensures forall v :: v in data[..i] ==> v.end <= data[i].start
    ensures forall v :: v in data[i + 1..] ==> data[i].end <= v.start
  {
    forall k | 0 <= k < i
      ensures data[k].end <= data[i].start
    {
      assert data[k].end <= data[i - 1].end;
    }
    forall k | i < k < |data|
      ensures data[i].end <= data[k].start
    {
      assert data[i + 1].start <= data[k].start;
    }
  }

  lemma WindowIsOne(data: seq<Interval>, i: nat)
    requires Gapless(data) && Ordered(data) && i < |data|
    ensures var v := data[i];
            TotalWeight(data, v.start, v.end) == TotalWeight([v], v.start, v.end)
            && Weighted(data, v.start, v.end) == Weighted([v], v.start, v.end)
  {
    hide *;
    var w, before, after := data[i], data[..i], data[i + 1..];
    OthersApart(data, i);
    forall v | v in before || v in after
      ensures Shared(v, w.start, w.end) == 0
    {
      Apart(v, w.start, w.end);
    }
    assert data == (before + [w]) + after;
    SumsIdle(before + [w], after, w.start, w.end);
    SumsIdleFront(before, [w], w.start, w.end);
  }

  // -------------------------------------------------------- splitting the work

  /** Where chunk i starts when n items are dealt to p processes. */
  function ChunkStart(n: nat, p: nat, i: nat): nat
    requires p > 0
  {
    i * (n / p) + Min(i, n % p)
  }

  lemma Products(i: nat, p: nat, q: nat)
    requires i < p
    ensures (i + 1) * q == i * q + q && (i + 1) * q <= p * q
  {
    assert p * q == (i + 1) * q + (p - (i + 1)) * q;
  }

  lemma ChunkEnds(n: nat, p: nat, i: nat)
    requires p > 0 && i < p
    ensures ChunkStart(n, p, 0) == 0 && ChunkStart(n, p, p) == n
    ensures ChunkStart(n, p, i + 1) == ChunkStart(n, p, i) + n / p + (if i < n % p then 1 else 0)
    ensures ChunkStart(n, p, i) <= ChunkStart(n, p, i + 1) <= n
  {
    var q, r := n / p, n % p;
    assert n == p * q + r;
    Products(i, p, q);
  }

  /** The chunks are the work, in order, dealt out evenly. */
  method SplitWork<T>(work: seq<T>, p: nat) returns (chunks: seq<seq<T>>)
    requires p > 0
    ensures |chunks| == p && Flatten(chunks) == work
    ensures forall i :: 0 <= i < p ==> |chunks[i]| == |work| / p + if i < |work| % p then 1 else 0
  {
    var base, remainder := |work| / p, |work| % p;
    chunks := [];
    var start := 0;
    ChunkEnds(|work|, p, 0);
    for i := 0 to p
      invariant |chunks| == i && start == ChunkStart(|work|, p, i) <= |work|
      invariant Flatten(chunks) == work[..start]
      invariant forall j :: 0 <= j < i ==> |chunks[j]| == base + if j < remainder then 1 else 0
    {
      ChunkEnds(|work|, p, i);
      var end := start + base + if i < remainder then 1 else 0;
      FlattenSnoc(chunks, work[start..end]);
      assert work[..start] + work[start..end] == work[..end];
      chunks := chunks + [work[start..end]];
      start := end;
    }
    assert work[..|work|] == work;
  }
}
