/** Stack depths for the intervals of a flame graph: sorted by start, cut off before the analysed
    function, and stacked by counting the intervals that are still running. */
module FlameDepth {
  import opened ByteStrings
  import opened StableSort

  class FunctionInterval {
    const start: int
    const end: int
    const desc: string
    var depth: int

    constructor (start: int, end: int, desc: string)
      ensures this.start == start && this.end == end && this.desc == desc && depth == 0
    {
      this.start, this.end, this.desc, depth := start, end, desc, 0;
    }
  }

  // ------------------------------------------------- sorting and cutting

  function StartOf(x: FunctionInterval): int {
    x.start
  }

  ghost predicate Ordered(s: seq<FunctionInterval>) {
    forall i, j :: 0 <= i < j < |s| ==> s[i].start <= s[j].start
  }

  function SortByStart(s: seq<FunctionInterval>): seq<FunctionInterval> {
    Sort(s, StartOf)
  }

  lemma SortedByStart(s: seq<FunctionInterval>)
    requires Distinct(s)
    ensures Ordered(SortByStart(s)) && Distinct(SortByStart(s))
    ensures forall i :: 0 <= i < |SortByStart(s)| ==> SortByStart(s)[i] in s
  {
    SortSorts(s, StartOf);
    SortSame(s, StartOf);
    DistinctByCount(s, SortByStart(s));
    assert forall x: FunctionInterval :: StartOf(x) == x.start;
  }

  /** Everything before the first interval of the analysed function is dropped. */
  method CutBefore(s: seq<FunctionInterval>, target: string) returns (r: seq<FunctionInterval>, ghost k: nat)
    ensures k <= |s| && r == s[k..]
    ensures forall i :: 0 <= i < k ==> s[i].desc != target
    ensures r != [] ==> r[0].desc == target
  {
    var appeared := false;
    r, k := [], 0;
    for i := 0 to |s|
      invariant k <= i && r == s[k..i]
      invariant appeared <==> k < i
      invariant appeared ==> s[k].desc == target
      invariant forall j :: 0 <= j < k ==> s[j].desc != target
    {
      if !appeared && s[i].desc != target {
        k := i + 1;
      } else {
        appeared := true;
        r := r + [s[i]];
      }
    }
  }

  // -------------------------------------------------------------- depths

  /** The intervals of a list that have not ended at time t. */
  function Still(s: seq<FunctionInterval>, t: int): seq<FunctionInterval> {
    if s == [] then []
    else if s[|s| - 1].end > t then Still(s[..|s| - 1], t) + [s[|s| - 1]]
    else Still(s[..|s| - 1], t)
  }

  lemma StillSnoc(s: seq<FunctionInterval>, x: FunctionInterval, t: int)
    ensures Still(s + [x], t) == if x.end > t then Still(s, t) + [x] else Still(s, t)
  {
    assert (s + [x])[..|s|] == s;
  }

  lemma {:induction false} StillTwice(s: seq<FunctionInterval>, t: int, u: int)
    requires t <= u
    ensures Still(Still(s, t), u) == Still(s, u)
  {
    if s != [] {
      var front, last := s[..|s| - 1], s[|s| - 1];
      StillTwice(front, t, u);
      if last.end > t {
        StillSnoc(Still(front, t), last, u);
      }
    }
  }

  /** Two times that separate the same intervals. */
  lemma {:induction false} StillSame(s: seq<FunctionInterval>, t: int, u: int)
    requires forall x :: x in s ==> (x.end > t <==> x.end > u)
    ensures Still(s, t) == Still(s, u)
  {
    if s != [] {
      assert s[|s| - 1] in s;
      StillSame(s[..|s| - 1], t, u);
    }
  }

  /** After position n nothing else is running: position n decides. */
  lemma {:induction false} StillUpTo(s: seq<FunctionInterval>, n: nat, t: int)
    requires n < |s| && s[n].end > t && forall i :: n < i < |s| ==> s[i].end <= t
    ensures |Still(s, t)| == |Still(s[..n], t)| + 1
  {
    if n < |s| - 1 {
      assert s[..|s| - 1][..n] == s[..n];
      StillUpTo(s[..|s| - 1], n, t);
    }
  }

  lemma {:induction false} StillConcat(a: seq<FunctionInterval>, b: seq<FunctionInterval>, t: int)
    ensures Still(a + b, t) == Still(a, t) + Still(b, t)
  {
    if b == [] {
      assert a + b == a;
    } else {
      var front, last := b[..|b| - 1], b[|b| - 1];
      StillConcat(a, front, t);
      hide *;
      assert b == front + [last];
      Assoc(a, front, [last]);
      StillSnoc(a + front, last, t);
      StillSnoc(front, last, t);
      Assoc(Still(a, t), Still(front, t), [last]);
    }
  }

  /** How many intervals of a list run at time t and have ended by time u. */
  function Gone(s: seq<FunctionInterval>, t: int, u: int): nat {
    if s == [] then 0 else Gone(s[..|s| - 1], t, u) + if t < s[|s| - 1].end <= u then 1 else 0
  }

  lemma {:induction false} GoneIsTheRest(s: seq<FunctionInterval>, t: int, u: int)
    requires t <= u
    ensures |Still(s, t)| == |Still(s, u)| + Gone(s, t, u)
  {
    if s != [] {
      GoneIsTheRest(s[..|s| - 1], t, u);
    }
  }

  lemma {:induction false} NoneGone(s: seq<FunctionInterval>, t: int, u: int)
    requires forall x :: x in s ==> !(t < x.end <= u)
    ensures Gone(s, t, u) == 0
  {
    if s != [] {
      assert s[|s| - 1] in s;
      NoneGone(s[..|s| - 1], t, u);
    }
  }

  /** The depth of interval i: how many earlier ones are still running when it starts. */
  function Depth(s: seq<FunctionInterval>, i: nat): nat
    requires i < |s|
  {
    |Still(s[..i], s[i].start)|
  }

  lemma StillStep(was: seq<FunctionInterval>, done: seq<FunctionInterval>, x: FunctionInterval, t: int)
    requires x.start <= t && Still(was, t) == Still(done, t)
    ensures Still(Still(was, x.start) + [x], t) == Still(done + [x], t)
  {
    StillSnoc(Still(was, x.start), x, t);
    StillTwice(was, x.start, t);
    StillSnoc(done, x, t);
  }

  /** The active list answers, from now on, the question the whole list would. */
  ghost predicate Tracks(active: seq<FunctionInterval>, done: seq<FunctionInterval>) {
    forall t :: (done != [] ==> done[|done| - 1].start <= t) ==> Still(active, t) == Still(done, t)
  }

  /** The loop that assigns depths. */
  method AssignDepths(s: seq<FunctionInterval>) returns (maxDepth: nat, ghost deepest: nat)
    requires Ordered(s) && Distinct(s)
    modifies s
    ensures forall i :: 0 <= i < |s| ==> s[i].depth == Depth(s, i) <= maxDepth
    ensures if s == [] then maxDepth == 0 else deepest < |s| && Depth(s, deepest) == maxDepth
  {
    hide Still;
    var active: seq<FunctionInterval> := [];
    maxDepth, deepest := 0, 0;
    for i := 0 to |s|
      invariant Tracks(active, s[..i])
      invariant forall j :: 0 <= j < i ==> s[j].depth == Depth(s, j) <= maxDepth
      invariant if i == 0 then maxDepth == 0 else deepest < i && Depth(s, deepest) == maxDepth
    {
      ghost var was := active;
      active := Still(active, s[i].start);
      var depth := |active|;
      assert depth == Depth(s, i);
      s[i].depth := depth;
      if depth > maxDepth {
        maxDepth, deepest := depth, i;
      } else if i == 0 {
        deepest := 0;
      }
      active := active + [s[i]];
      assert s[..i + 1] == s[..i] + [s[i]];
      forall t | s[i].start <= t
        ensures Still(active, t) == Still(s[..i + 1], t)
      {
        StillStep(was, s[..i], s[i], t);
      }
    }
  }

  /** The loop that turns the depths upside down for drawing. */
  method FlipDepths(s: seq<FunctionInterval>, maxDepth: nat)
    requires Distinct(s)
    modifies s
    ensures forall i :: 0 <= i < |s| ==> s[i].depth == maxDepth - old(s[i].depth)
  {
    for i := 0 to |s|
      invariant forall j :: 0 <= j < i ==> s[j].depth == maxDepth - old(s[j].depth)
      invariant forall j :: i <= j < |s| ==> s[j].depth == old(s[j].depth)
    {
      s[i].depth := maxDepth - s[i].depth;
    }
  }

  /** The intervals as drawn: every level is between the deepest, at the top of the picture, and
      the first. */
  method DrawIntervals(intervals: seq<FunctionInterval>, target: string)
    returns (s: seq<FunctionInterval>, maxDepth: nat, ghost k: nat)
    requires Distinct(intervals)
    modifies intervals
    ensures k <= |SortByStart(intervals)| && s == SortByStart(intervals)[k..] && Ordered(s) && Distinct(s)
    ensures forall i :: 0 <= i < k ==> SortByStart(intervals)[i].desc != target
    ensures s != [] ==> s[0].desc == target
    ensures forall i :: 0 <= i < |s| ==> 0 <= s[i].depth == maxDepth - Depth(s, i) <= maxDepth
    ensures s != [] ==> exists i :: 0 <= i < |s| && Depth(s, i) == maxDepth
  {
    hide Still, SortByStart, Depth;
    var sorted := SortByStart(intervals);
    SortedByStart(intervals);
    s, k := CutBefore(sorted, target);
    assert forall i :: 0 <= i < |s| ==> s[i] == sorted[k + i];
    ghost var deepest;
    maxDepth, deepest := AssignDepths(s);
    FlipDepths(s, maxDepth);
  }

  // ---------------------------------------------- when levels are shared

  /** What has been put on top of interval j by the start of interval i, and still runs: j itself
      and those begun since. */
  function Stacked(s: seq<FunctionInterval>, j: nat, i: nat): nat
    requires j < i < |s|
  {
    1 + |Still(s[j + 1..i], s[i].start)|
  }

  /** How many of those that ran under interval j have ended by the start of interval i. */
  function GoneBelow(s: seq<FunctionInterval>, j: nat, i: nat): nat
    requires j < i < |s|
  {
    Gone(s[..j], s[j].start, s[i].start)
  }

  /** Whatever the intervals: the levels of j and of a later i that starts while j runs differ by
      what was stacked on j since, less what has gone from below it. */
  lemma LevelDifference(s: seq<FunctionInterval>, j: nat, i: nat)
    requires Ordered(s) && j < i < |s| && s[j].end > s[i].start
    ensures Depth(s, i) == Depth(s, j) + Stacked(s, j, i) - GoneBelow(s, j, i)
  {
    var u := s[i].start;
    assert s[j].start <= u;
    GoneIsTheRest(s[..j], s[j].start, u);
    hide Still, Gone, Ordered;
    assert s[..i] == (s[..j] + [s[j]]) + s[j + 1..i];
    StillConcat(s[..j] + [s[j]], s[j + 1..i], u);
    StillSnoc(s[..j], s[j], u);
  }

  /** No interval starts on the level of one that is still running. */
  ghost predicate LevelsApart(s: seq<FunctionInterval>) {
    forall j: nat, i: nat :: j < i < |s| && s[j].end > s[i].start ==> Depth(s, j) != Depth(s, i)
  }

  /** Which is so exactly when, at each start, what has gone from below a running interval does not
      make up for what was stacked on it. */
  lemma LevelsApartExactly(s: seq<FunctionInterval>)
    requires Ordered(s)
    ensures LevelsApart(s)
            <==> forall j: nat, i: nat :: j < i < |s| && s[j].end > s[i].start ==> GoneBelow(s, j, i) != Stacked(s, j, i)
  {
    hide Depth, GoneBelow, Stacked, Ordered;
    forall j: nat, i: nat | j < i < |s| && s[j].end > s[i].start
      ensures Depth(s, j) != Depth(s, i) <==> GoneBelow(s, j, i) != Stacked(s, j, i)
    {
      LevelDifference(s, j, i);
    }
  }

  // ---------------------------------------------------- what depth means

  /** x runs when y starts, and outlives it. */
  ghost predicate Encloses(x: FunctionInterval, y: FunctionInterval) {
    x.start <= y.start < x.end && y.end <= x.end
  }

  ghost predicate Overlap(x: FunctionInterval, y: FunctionInterval) {
    x.start < y.end && y.start < x.end
  }

  /** Properly nested calls with distinct start times: two intervals are apart, or one encloses
      the other. */
  ghost predicate Nested(s: seq<FunctionInterval>) {
    && Ordered(s)
    && (forall i, j :: 0 <= i < j < |s| ==> s[i].start < s[j].start)
    && (forall i, j :: 0 <= i < j < |s| ==>
          s[i].end <= s[j].start || s[j].end <= s[i].start || Encloses(s[i], s[j]) || Encloses(s[j], s[i]))
    && (forall i :: 0 <= i < |s| ==> s[i].start <= s[i].end)
  }

  /** In a nested list, running when i starts and enclosing i are the same. */
  lemma StillMeansEncloses(s: seq<FunctionInterval>, j: nat, i: nat)
    requires Nested(s) && j < |s| && i < |s| && j != i
    ensures Encloses(s[j], s[i]) <==> j < i && s[j].end > s[i].start
  {
  }

  /** The intervals that enclose another. */
  function Enclosing(s: seq<FunctionInterval>, y: FunctionInterval): seq<FunctionInterval> {
    if s == [] then
      []
    else
      var x := s[|s| - 1];
      Enclosing(s[..|s| - 1], y)
      + if x != y && x.start <= y.start < x.end && y.end <= x.end then [x] else []
  }

  lemma EnclosingSnoc(s: seq<FunctionInterval>, x: FunctionInterval, y: FunctionInterval)
    ensures Enclosing(s + [x], y) == if x != y && Encloses(x, y) then Enclosing(s, y) + [x] else Enclosing(s, y)
  {
    assert (s + [x])[..|s|] == s;
  }

  lemma OnlyEarlierEncloses(s: seq<FunctionInterval>, j: nat, i: nat)
    requires Nested(s) && Distinct(s) && j < |s| && i < |s|
    ensures s[j] != s[i] && Encloses(s[j], s[i]) <==> j < i && s[j].end > s[i].start
  {
    if j != i {
      StillMeansEncloses(s, j, i);
    }
  }

  lemma EnclosingNext(s: seq<FunctionInterval>, i: nat, k: nat)
    requires Nested(s) && Distinct(s) && i < |s| && k < |s|
    ensures Enclosing(s[..k + 1], s[i])
            == if k < i && s[k].end > s[i].start then Enclosing(s[..k], s[i]) + [s[k]] else Enclosing(s[..k], s[i])
  {
    OnlyEarlierEncloses(s, k, i);
    hide *;
    assert s[..k + 1] == s[..k] + [s[k]];
    EnclosingSnoc(s[..k], s[k], s[i]);
  }

  lemma {:induction false} EnclosingUpTo(s: seq<FunctionInterval>, i: nat, n: nat)
    requires Nested(s) && Distinct(s) && i < |s| && n <= |s|
    ensures Enclosing(s[..n], s[i]) == Still(s[..Min(n, i)], s[i].start)
  {
    hide Nested, Distinct, Enclosing, Encloses, Still;
    NoneStill(s[i].start);
    NoneEnclosing(s[i]);
    assert s[..0] == [];
    if n > 0 {
      EnclosingUpTo(s, i, n - 1);
      EnclosingNext(s, i, n - 1);
      if n - 1 < i {
        assert s[..n] == s[..n - 1] + [s[n - 1]];
        StillSnoc(s[..n - 1], s[n - 1], s[i].start);
      }
    }
  }

  /** The depth of an interval is the number of intervals that enclose it. */
  lemma DepthCountsEnclosing(s: seq<FunctionInterval>, i: nat)
    requires Nested(s) && Distinct(s) && i < |s|
    ensures Depth(s, i) == |Enclosing(s, s[i])|
  {
    EnclosingUpTo(s, i, |s|);
    assert s[..|s|] == s;
  }

  /** In a nested list an interval that runs when a later one starts lies strictly above it:
      nothing that ran under it has ended. */
  lemma OverlappingDepths(s: seq<FunctionInterval>, j: nat, i: nat)
    requires Nested(s) && j < i < |s| && Overlap(s[j], s[i])
    ensures Depth(s, j) < Depth(s, i)
  {
    forall x | x in s[..j]
      ensures !(s[j].start < x.end <= s[i].start)
    {
      var k :| 0 <= k < j && x == s[k];
      StillMeansEncloses(s, k, j);
      StillMeansEncloses(s, j, i);
    }
    hide *;
    NoneGone(s[..j], s[j].start, s[i].start);
    NestedIsOrdered(s);
    OverlapRuns(s[j], s[i]);
    LevelDifference(s, j, i);
  }

  lemma NestedIsOrdered(s: seq<FunctionInterval>)
    requires Nested(s)
    ensures Ordered(s)
  {
  }

  lemma OverlapRuns(x: FunctionInterval, y: FunctionInterval)
    requires Overlap(x, y)
    ensures x.end > y.start
  {
  }

  /** Depths have no gaps: below the top level, the interval that started last among those still
      running is exactly one level up. */
  lemma ParentIsOneUp(s: seq<FunctionInterval>, i: nat) returns (j: nat)
    requires Nested(s) && i < |s| && Depth(s, i) > 0
    ensures j < i && Encloses(s[j], s[i]) && Depth(s, j) + 1 == Depth(s, i)
  {
    var u := s[i].start;
    j := LastStill(s[..i], u);
    StillMeansEncloses(s, j, i);
    forall x | x in s[..j]
      ensures x.end > s[j].start <==> x.end > u
    {
      var k :| 0 <= k < j && x == s[k];
      StillMeansEncloses(s, k, j);
    }
    StillSame(s[..j], s[j].start, u);
    StillUpTo(s[..i], j, u);
    assert s[..i][..j] == s[..j];
  }

  lemma {:induction false} LastStill(s: seq<FunctionInterval>, t: int) returns (j: nat)
    requires |Still(s, t)| > 0
    ensures j < |s| && s[j].end > t && forall i :: j < i < |s| ==> s[i].end <= t
  {
    j := |s| - 1;
    if s[j].end <= t {
      var k := LastStill(s[..j], t);
      j := k;
    }
  }

  /** Two ways to get there: intervals that are not nested; and two that start together, the inner
      one listed first. Either way the third interval lands on the level of the second, which it
      overlaps, because one interval has gone from below it and nothing else was stacked on it. */
  lemma SharedLevels(a: FunctionInterval, b: FunctionInterval, c: FunctionInterval)
    requires (a.start, a.end) == (0, 10) && b.end == 20 && (c.start, c.end) == (12, 15)
    requires b.start == 5 || b.start == 0
    ensures Ordered([a, b, c]) && Overlap(b, c)
    ensures Depth([a, b, c], 1) == Depth([a, b, c], 2) == 1
    ensures b.start == 5 ==> !Encloses(a, b) && !Encloses(b, a) && Overlap(a, b)
    ensures b.start == 0 ==> Encloses(b, a) && Encloses(b, c) && a.end <= c.start
  {
    hide Still;
    var s := [a, b, c];
    assert s[..1] == [a] && s[..2] == [a, b];
    assert [a] == [] + [a] && [a, b] == [a] + [b];
    NoneStill(b.start);
    NoneStill(12);
    StillSnoc([], a, b.start);
    StillSnoc([], a, 12);
    StillSnoc([a], b, 12);
  }

  lemma NoneEnclosing(y: FunctionInterval)
    ensures Enclosing([], y) == []
  {
  }

  lemma NoneStill(t: int)
    ensures Still([], t) == []
  {
  }
}
