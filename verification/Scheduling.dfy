/** Scheduling intervals from a trace of context switches: when each thread of one executable ran,
    and on which core. */
module Scheduling {
  import opened Options
  import opened MapSums
  import opened SetFacts

  /** A line of the trace: unreadable, readable but of no use, or a switch from one thread to
      another on a CPU. */
  datatype Line =
    | NoMatch
    | Skipped(timestamp: int)
    | Switch(cpu: int, timestamp: int, prevComm: string, prev: int, nextComm: string, next: int)

  datatype Interval = Interval(thread: int, core: int, start: int, end: int)

  datatype Running = Running(core: int, start: int)

  // ------------------------------------------------------ what a trace means

  /** Threads known to belong to the executable, threads on a core, and completed intervals. */
  datatype State = State(pids: set<int>, open: map<int, Running>, closed: seq<Interval>)

  function Known(l: Line, exe: string): set<int>
    requires l.Switch?
  {
    (if l.prevComm == exe then {l.prev} else {}) + (if l.nextComm == exe then {l.next} else {})
  }

  function CloseOne(st: State, p: int, now: int): State {
    if p in st.pids && p in st.open then
      st.(open := st.open - {p}, closed := st.closed + [Interval(p, st.open[p].core, st.open[p].start, now)])
    else
      st
  }

  function OpenOne(st: State, p: int, core: int, now: int): State {
    if p in st.pids && p !in st.open then st.(open := st.open[p := Running(core, now)]) else st
  }

  function Step(st: State, l: Line, exe: string): State {
    if l.Switch? then
      OpenOne(CloseOne(st.(pids := st.pids + Known(l, exe)), l.prev, l.timestamp), l.next, l.cpu, l.timestamp)
    else
      st
  }

  function Run(ls: seq<Line>, exe: string): State {
    if ls == [] then State({}, map[], []) else Step(Run(ls[..|ls| - 1], exe), ls[|ls| - 1], exe)
  }

  /** The time of the last readable line. */
  function Now(ls: seq<Line>): int {
    if ls == [] then 0
    else if ls[|ls| - 1].NoMatch? then Now(ls[..|ls| - 1])
    else ls[|ls| - 1].timestamp
  }

  /** Readable lines are in time order. */
  ghost predicate InTime(ls: seq<Line>) {
    ls == [] || (InTime(ls[..|ls| - 1])
                 && (Readable(ls[..|ls| - 1]) && !ls[|ls| - 1].NoMatch? ==> Now(ls[..|ls| - 1]) <= ls[|ls| - 1].timestamp))
  }

  ghost predicate Readable(ls: seq<Line>) {
    exists l :: l in ls && !l.NoMatch?
  }

  /** The thread last switched in on each CPU. */
  function LastOn(ls: seq<Line>): map<int, int> {
    if ls == [] then map[]
    else
      var l := ls[|ls| - 1];
      if l.Switch? then LastOn(ls[..|ls| - 1])[l.cpu := l.next] else LastOn(ls[..|ls| - 1])
  }

  /** Every switch-out names the thread last switched in on that CPU. */
  ghost predicate Consistent(ls: seq<Line>) {
    ls == [] || (Consistent(ls[..|ls| - 1]) && Follows(LastOn(ls[..|ls| - 1]), ls[|ls| - 1]))
  }

  ghost predicate Follows(last: map<int, int>, l: Line) {
    l.Switch? && l.cpu in last ==> l.prev == last[l.cpu]
  }

  // ---------------------------------------------------------- one thread

  /** Intervals that share a thread are in order and do not overlap. */
  ghost predicate SerialPerThread(s: seq<Interval>) {
    forall i, j :: 0 <= i < j < |s| && s[i].thread == s[j].thread ==> s[i].end <= s[j].start
  }

  /** Intervals that share a core are in order and do not overlap. */
  ghost predicate SerialPerCore(s: seq<Interval>) {
    forall i, j :: 0 <= i < j < |s| && s[i].core == s[j].core ==> s[i].end <= s[j].start
  }

  /** Everything recorded lies in the past, and a thread that runs started after all it did. */
  ghost predicate Timely(st: State, now: int) {
    && (forall i :: 0 <= i < |st.closed| ==> st.closed[i].start <= st.closed[i].end <= now)
    && (forall p :: p in st.open ==> st.open[p].start <= now)
    && SerialPerThread(st.closed)
    && (forall p, i :: p in st.open && 0 <= i < |st.closed| && st.closed[i].thread == p ==>
          st.closed[i].end <= st.open[p].start)
  }

  lemma TimelyLater(st: State, now: int, later: int)
    requires Timely(st, now) && now <= later
    ensures Timely(st, later)
  {
  }

  lemma CloseKeepsTimely(st: State, p: int, now: int)
    requires Timely(st, now)
    ensures Timely(CloseOne(st, p, now), now)
  {
  }

  lemma OpenKeepsTimely(st: State, p: int, core: int, now: int)
    requires Timely(st, now)
    ensures Timely(OpenOne(st, p, core, now), now)
  {
  }

  lemma StepKeepsTimely(st: State, l: Line, exe: string, now: int)
    requires Timely(st, now) && (l.Switch? ==> now <= l.timestamp)
    ensures Timely(Step(st, l, exe), if l.Switch? then l.timestamp else now)
  {
    hide Timely, CloseOne, OpenOne;
    if l.Switch? {
      TimelyLater(st, now, l.timestamp);
      var a := st.(pids := st.pids + Known(l, exe));
      SamePids(st, a, l.timestamp);
      CloseKeepsTimely(a, l.prev, l.timestamp);
      OpenKeepsTimely(CloseOne(a, l.prev, l.timestamp), l.next, l.cpu, l.timestamp);
    }
  }

  lemma SamePids(st: State, a: State, now: int)
    requires Timely(st, now) && a.open == st.open && a.closed == st.closed
    ensures Timely(a, now)
  {
  }

  /** In a trace in time order every thread's intervals are in order and do not overlap, each has at
      most one under way, and that one began after all the others ended. */
  lemma {:induction false} ThreadsAreSerial(ls: seq<Line>, exe: string)
    requires InTime(ls)
    ensures Timely(Run(ls, exe), Now(ls))
    ensures !Readable(ls) ==> Run(ls, exe) == State({}, map[], [])
  {
    if ls != [] {
      var front, l := ls[..|ls| - 1], ls[|ls| - 1];
      assert ls == front + [l];
      ThreadsAreSerial(front, exe);
      hide Timely, Step, Run;
      RunSnoc(front, l, exe);
      if l.NoMatch? || l.Skipped? {
        StepIdle(Run(front, exe), l, exe);
        assert l in ls;
        if Readable(front) {
          TimelyLater(Run(front, exe), Now(front), Now(ls));
        } else {
          NothingTimely(Now(ls));
        }
      } else {
        assert l in ls;
        if Readable(front) {
          StepKeepsTimely(Run(front, exe), l, exe, Now(front));
        } else {
          NothingTimely(l.timestamp);
          StepKeepsTimely(Run(front, exe), l, exe, l.timestamp);
        }
      }
    } else {
      NothingTimely(0);
    }
  }

  lemma NothingTimely(now: int)
    ensures Timely(State({}, map[], []), now)
  {
  }

  lemma StepIdle(st: State, l: Line, exe: string)
    requires !l.Switch?
    ensures Step(st, l, exe) == st
  {
  }

  lemma RunSnoc(ls: seq<Line>, l: Line, exe: string)
    ensures Run(ls + [l], exe) == Step(Run(ls, exe), l, exe)
  {
    assert (ls + [l])[..|ls|] == ls;
  }

  // ------------------------------------------------------------- one core

  /** A thread under way is the last one switched in on its core, and began after every completed
      interval of that core. */
  ghost predicate OwnsCore(st: State, last: map<int, int>) {
    && SerialPerCore(st.closed)
    && (forall p :: p in st.open ==> st.open[p].core in last && last[st.open[p].core] == p)
    && (forall p, i :: p in st.open && 0 <= i < |st.closed| && st.closed[i].core == st.open[p].core ==>
          st.closed[i].end <= st.open[p].start)
    && (forall p :: p in st.open ==> p in st.pids)
  }

  lemma CloseKeepsCores(st: State, p: int, now: int, last: map<int, int>)
    requires OwnsCore(st, last) && Timely(st, now)
    ensures OwnsCore(CloseOne(st, p, now), last)
  {
    if p in st.pids && p in st.open {
      forall q | q in st.open && q != p
        ensures st.open[q].core != st.open[p].core
      {
      }
    }
  }

  /** After the old thread of a core is closed, nobody runs there. */
  lemma OpenKeepsCores(st: State, p: int, core: int, now: int, last: map<int, int>)
    requires OwnsCore(st, last) && Timely(st, now)
    requires forall q :: q in st.open ==> st.open[q].core != core
    ensures OwnsCore(OpenOne(st, p, core, now), last[core := p])
  {
  }

  lemma StepKeepsCores(st: State, l: Line, exe: string, now: int, last: map<int, int>)
    requires OwnsCore(st, last) && Timely(st, now) && l.Switch? && now <= l.timestamp && Follows(last, l)
    ensures OwnsCore(Step(st, l, exe), last[l.cpu := l.next])
  {
    var a := st.(pids := st.pids + Known(l, exe));
    TimelyLater(st, now, l.timestamp);
    SamePids(st, a, l.timestamp);
    SamePidsCores(st, a, last);
    CloseKeepsTimely(a, l.prev, l.timestamp);
    CloseKeepsCores(a, l.prev, l.timestamp, last);
    var b := CloseOne(a, l.prev, l.timestamp);
    CoreIsFree(a, l, last);
    hide *;
    OpenKeepsCores(b, l.next, l.cpu, l.timestamp, last);
    StepIs(st, l, exe);
  }

  lemma SamePidsCores(st: State, a: State, last: map<int, int>)
    requires OwnsCore(st, last) && a.open == st.open && a.closed == st.closed && st.pids <= a.pids
    ensures OwnsCore(a, last)
  {
  }

  lemma CoreIsFree(st: State, l: Line, last: map<int, int>)
    requires OwnsCore(st, last) && l.Switch? && Follows(last, l)
    ensures var b := CloseOne(st, l.prev, l.timestamp);
            forall q :: q in b.open ==> b.open[q].core != l.cpu
  {
  }

  lemma StepIs(st: State, l: Line, exe: string)
    requires l.Switch?
    ensures Step(st, l, exe)
            == OpenOne(CloseOne(st.(pids := st.pids + Known(l, exe)), l.prev, l.timestamp), l.next, l.cpu, l.timestamp)
  {
  }

  /** If, besides, every switch-out names the thread last switched in on its CPU, the intervals on
      one core are in order and do not overlap either, whatever threads they belong to. */
  lemma {:induction false} CoresAreSerial(ls: seq<Line>, exe: string)
    requires InTime(ls) && Consistent(ls)
    ensures OwnsCore(Run(ls, exe), LastOn(ls))
  {
    if ls != [] {
      var front, l := ls[..|ls| - 1], ls[|ls| - 1];
      assert ls == front + [l];
      CoresAreSerial(front, exe);
      ThreadsAreSerial(front, exe);
      hide Timely, OwnsCore, Step, Run;
      RunSnoc(front, l, exe);
      if l.Switch? {
        if Readable(front) {
          StepKeepsCores(Run(front, exe), l, exe, Now(front), LastOn(front));
        } else {
          NothingTimely(l.timestamp);
          StepKeepsCores(Run(front, exe), l, exe, l.timestamp, LastOn(front));
        }
      } else {
        StepIdle(Run(front, exe), l, exe);
      }
    }
  }

  // ------------------------------------------- when cores are shared

  /** Two intervals have time on one core in common. */
  ghost predicate Shares(v: Interval, w: Interval) {
    v.core == w.core && v.start < w.end && w.start < v.end && v.start < v.end && w.start < w.end
  }

  /** No two intervals have time on one core in common. */
  ghost predicate NoneShared(s: seq<Interval>) {
    forall i, j :: 0 <= i < j < |s| ==> !Shares(s[i], s[j])
  }

  /** Thread p is on core c at time t, as far as the intervals say; those under way are taken as
      endless. */
  ghost predicate On(st: State, p: int, c: int, t: int) {
    || (exists i :: 0 <= i < |st.closed| && Covers(st.closed[i], p, c, t))
    || (p in st.open && st.open[p].core == c && st.open[p].start <= t)
  }

  ghost predicate Covers(v: Interval, p: int, c: int, t: int) {
    v.thread == p && v.core == c && v.start <= t < v.end
  }

  /** Before now, no core had two threads on it. */
  ghost predicate OneAtATime(st: State, now: int) {
    forall p, q, c, t :: t < now && On(st, p, c, t) && On(st, q, c, t) ==> p == q
  }

  /** At present no core has two threads on it. */
  ghost predicate OnePerCore(open: map<int, Running>) {
    forall p, q :: p in open && q in open && open[p].core == open[q].core ==> p == q
  }

  lemma CloseSame(st: State, p: int, now: int, q: int, c: int, t: int)
    requires t < now
    ensures On(CloseOne(st, p, now), q, c, t) <==> On(st, q, c, t)
  {
    if p in st.pids && p in st.open {
      var v := Interval(p, st.open[p].core, st.open[p].start, now);
      var s := st.closed + [v];
      assert s[|st.closed|] == v;
      assert forall i :: 0 <= i < |st.closed| ==> s[i] == st.closed[i];
    }
  }

  lemma OpenSame(st: State, p: int, core: int, now: int, q: int, c: int, t: int)
    requires t < now
    ensures On(OpenOne(st, p, core, now), q, c, t) <==> On(st, q, c, t)
  {
  }

  /** What a line changes lies at its own time or after it. */
  lemma StepSame(st: State, l: Line, exe: string, q: int, c: int, t: int)
    requires l.Switch? ==> t < l.timestamp
    ensures On(Step(st, l, exe), q, c, t) <==> On(st, q, c, t)
  {
    if l.Switch? {
      var a := st.(pids := st.pids + Known(l, exe));
      assert On(a, q, c, t) <==> On(st, q, c, t);
      hide On, CloseOne, OpenOne, Known;
      CloseSame(a, l.prev, l.timestamp, q, c, t);
      OpenSame(CloseOne(a, l.prev, l.timestamp), l.next, l.cpu, l.timestamp, q, c, t);
    }
  }

  /** While nothing happens, the threads under way are on their cores and no others. */
  lemma OnMeanwhile(st: State, now: int, q: int, c: int, t: int)
    requires Timely(st, now) && now <= t
    ensures On(st, q, c, t) <==> q in st.open && st.open[q].core == c
  {
  }

  /** As time passes to `later`, one at a time needs one per core. */
  lemma TimePasses(st: State, now: int, later: int)
    requires Timely(st, now) && now <= later
    ensures OneAtATime(st, later) <==> OneAtATime(st, now) && (now < later ==> OnePerCore(st.open))
  {
    hide Timely, On;
    if OneAtATime(st, later) && now < later {
      forall p, q | p in st.open && q in st.open && st.open[p].core == st.open[q].core
        ensures p == q
      {
        OnMeanwhile(st, now, p, st.open[p].core, now);
        OnMeanwhile(st, now, q, st.open[p].core, now);
      }
    }
    if OneAtATime(st, now) && (now < later ==> OnePerCore(st.open)) {
      forall p, q, c, t | t < later && On(st, p, c, t) && On(st, q, c, t)
        ensures p == q
      {
        if now <= t {
          OnMeanwhile(st, now, p, c, t);
          OnMeanwhile(st, now, q, c, t);
        }
      }
    }
  }

  lemma StepKeepsPast(st: State, l: Line, exe: string, now: int)
    requires l.Switch? ==> now <= l.timestamp
    ensures OneAtATime(Step(st, l, exe), now) <==> OneAtATime(st, now)
  {
    hide On, Step;
    forall q, c, t | t < now
      ensures On(Step(st, l, exe), q, c, t) <==> On(st, q, c, t)
    {
      StepSame(st, l, exe, q, c, t);
    }
  }

  /** If time passes before line i, no core has two threads under way during it. */
  ghost predicate QuietBefore(ls: seq<Line>, i: nat, exe: string)
    requires i < |ls|
  {
    !ls[i].NoMatch? && Readable(ls[..i]) && Now(ls[..i]) < ls[i].timestamp ==> OnePerCore(Run(ls[..i], exe).open)
  }

  /** Whenever time passes, every core has at most one thread under way. */
  ghost predicate NeverTwoPerCore(ls: seq<Line>, exe: string) {
    forall i: nat :: i < |ls| ==> QuietBefore(ls, i, exe)
  }

  lemma QuietSame(ls: seq<Line>, l: Line, i: nat, exe: string)
    requires i < |ls|
    ensures QuietBefore(ls + [l], i, exe) <==> QuietBefore(ls, i, exe)
  {
    assert (ls + [l])[..i] == ls[..i];
  }

  lemma NeverTwoSnoc(ls: seq<Line>, l: Line, exe: string)
    ensures NeverTwoPerCore(ls + [l], exe)
            <==> NeverTwoPerCore(ls, exe)
                 && (!l.NoMatch? && Readable(ls) && Now(ls) < l.timestamp ==> OnePerCore(Run(ls, exe).open))
  {
    assert (ls + [l])[..|ls|] == ls;
    assert QuietBefore(ls + [l], |ls|, exe)
      <==> (!l.NoMatch? && Readable(ls) && Now(ls) < l.timestamp ==> OnePerCore(Run(ls, exe).open));
    hide QuietBefore, Run, Now, Readable, OnePerCore;
    forall i: nat | i < |ls|
      ensures QuietBefore(ls + [l], i, exe) <==> QuietBefore(ls, i, exe)
    {
      QuietSame(ls, l, i, exe);
    }
    if NeverTwoPerCore(ls + [l], exe) {
      assert QuietBefore(ls + [l], |ls|, exe);
    }
  }

  lemma NothingOnePerCore(now: int)
    ensures OneAtATime(State({}, map[], []), now) && OnePerCore(map[])
  {
  }

  /** In a trace in time order, no core ever had two threads on it exactly when, whenever time
      passed, none had two under way. */
  lemma {:induction false} OneAtATimeExactly(ls: seq<Line>, exe: string)
    requires InTime(ls)
    ensures OneAtATime(Run(ls, exe), Now(ls)) <==> NeverTwoPerCore(ls, exe)
  {
    if ls == [] {
      NothingOnePerCore(0);
    } else {
      var front, l := ls[..|ls| - 1], ls[|ls| - 1];
      assert ls == front + [l];
      InTimeFront(front, l);
      hide *;
      OneAtATimeExactly(front, exe);
      ThreadsAreSerial(front, exe);
      NeverTwoSnoc(front, l, exe);
      RunSnoc(front, l, exe);
      NowSnoc(front, l);
      var st := Run(front, exe);
      if l.NoMatch? {
        StepIdle(st, l, exe);
      } else {
        if Readable(front) {
          TimePasses(st, Now(front), l.timestamp);
        } else {
          NothingOnePerCore(l.timestamp);
          NothingOnePerCore(Now(front));
        }
        StepKeepsPast(st, l, exe, l.timestamp);
      }
    }
  }

  lemma InTimeFront(ls: seq<Line>, l: Line)
    requires InTime(ls + [l])
    ensures InTime(ls) && (Readable(ls) && !l.NoMatch? ==> Now(ls) <= l.timestamp)
  {
    assert (ls + [l])[..|ls|] == ls;
  }

  lemma SharedMoment(st: State, now: int, i: nat, j: nat)
    requires Timely(st, now) && i < j < |st.closed| && Shares(st.closed[i], st.closed[j])
    ensures !OneAtATime(st, now)
  {
    var v, w := st.closed[i], st.closed[j];
    var t := if v.start <= w.start then w.start else v.start;
    assert v.thread != w.thread;
    assert Covers(v, v.thread, v.core, t) && Covers(w, w.thread, v.core, t);
    assert On(st, v.thread, v.core, t) && On(st, w.thread, v.core, t);
  }

  /** With nothing under way: no time shared on a core means no two intervals that share some. */
  lemma OneAtATimeIsNoneShared(st: State, now: int)
    requires Timely(st, now) && st.open == map[]
    ensures OneAtATime(st, now) <==> NoneShared(st.closed)
  {
    if !NoneShared(st.closed) {
      var i, j :| 0 <= i < j < |st.closed| && Shares(st.closed[i], st.closed[j]);
      hide *;
      SharedMoment(st, now, i, j);
    } else {
      forall p, q, c, t | t < now && On(st, p, c, t) && On(st, q, c, t)
        ensures p == q
      {
        var i :| 0 <= i < |st.closed| && Covers(st.closed[i], p, c, t);
        var j :| 0 <= j < |st.closed| && Covers(st.closed[j], q, c, t);
        assert i < j ==> !Shares(st.closed[i], st.closed[j]);
        assert j < i ==> !Shares(st.closed[j], st.closed[i]);
      }
    }
  }

  lemma InTimeSnoc(ls: seq<Line>, l: Line)
    requires InTime(ls) && !l.NoMatch? && (Readable(ls) ==> Now(ls) <= l.timestamp)
    ensures InTime(ls + [l])
  {
    assert (ls + [l])[..|ls|] == ls;
  }

  lemma Fronts<T>(a: T, b: T, c: T, d: T)
    ensures [] + [a] == [a] && [a] + [b] == [a, b] && [a, b] + [c] == [a, b, c] && [a, b, c] + [d] == [a, b, c, d]
  {
  }

  /** A trace in which a switch-out does not name the thread that was switched in, and two threads
      run on one core at once. */
  lemma UnnamedSwitchOut(exe: string, other: string)
    requires exe != other
    ensures var ls := [Switch(0, 0, other, 9, exe, 1), Switch(0, 5, other, 9, exe, 2),
                       Switch(0, 8, exe, 2, other, 9), Switch(0, 10, exe, 1, other, 9)];
            && InTime(ls) && !Consistent(ls)
            && Run(ls, exe).closed == [Interval(2, 0, 5, 8), Interval(1, 0, 0, 10)]
            && Shares(Run(ls, exe).closed[0], Run(ls, exe).closed[1])
  {
    var a, b := Switch(0, 0, other, 9, exe, 1), Switch(0, 5, other, 9, exe, 2);
    var c, d := Switch(0, 8, exe, 2, other, 9), Switch(0, 10, exe, 1, other, 9);
    Fronts(a, b, c, d);
    TimesOfFour(a, b, c, d);
    NamesOfFour(a, b, c, d);
    assert Step(Run([], exe), a, exe) == State({1}, map[1 := Running(0, 0)], []);
    assert Step(State({1}, map[1 := Running(0, 0)], []), b, exe)
        == State({1, 2}, map[1 := Running(0, 0), 2 := Running(0, 5)], []);
    assert Step(State({1, 2}, map[1 := Running(0, 0), 2 := Running(0, 5)], []), c, exe)
        == State({1, 2}, map[1 := Running(0, 0)], [Interval(2, 0, 5, 8)]);
    hide InTime, Consistent, Run;
    RunSnoc([], a, exe);
    RunSnoc([a], b, exe);
    RunSnoc([a, b], c, exe);
    RunSnoc([a, b, c], d, exe);
  }

  lemma TimesOfFour(a: Line, b: Line, c: Line, d: Line)
    requires a.Switch? && b.Switch? && c.Switch? && d.Switch?
    requires a.timestamp <= b.timestamp <= c.timestamp <= d.timestamp
    ensures InTime([a, b, c, d])
  {
    Fronts(a, b, c, d);
    NowSnoc([], a);
    NowSnoc([a], b);
    NowSnoc([a, b], c);
    hide Now, Readable;
    NothingReadable();
    InTimeSnoc([], a);
    InTimeSnoc([a], b);
    InTimeSnoc([a, b], c);
    InTimeSnoc([a, b, c], d);
  }

  lemma NothingReadable()
    ensures InTime([]) && !Readable([])
  {
  }

  lemma NamesOfFour(a: Line, b: Line, c: Line, d: Line)
    requires a.Switch? && b.Switch? && a.cpu == b.cpu && a.next != b.prev
    ensures !Consistent([a, b, c, d])
  {
    assert [a, b, c, d][..3] == [a, b, c] && [a, b, c][..2] == [a, b] && [a, b][..1] == [a];
    assert LastOn([a])[a.cpu] == a.next;
    assert !Consistent([a, b]);
    assert !Consistent([a, b, c]);
  }

  // ------------------------------------------------------------ the parser

  datatype ThreadData = ThreadData(intervals: seq<Interval>, current: Option<Running>)

  /** The completed intervals of one thread. */
  function Of(s: seq<Interval>, p: int): seq<Interval> {
    if s == [] then []
    else if s[|s| - 1].thread == p then Of(s[..|s| - 1], p) + [s[|s| - 1]] else Of(s[..|s| - 1], p)
  }

  lemma OfSnoc(s: seq<Interval>, v: Interval, p: int)
    ensures Of(s + [v], p) == if v.thread == p then Of(s, p) + [v] else Of(s, p)
  {
    assert (s + [v])[..|s|] == s;
  }

  function Data(threads: map<int, ThreadData>, p: int): ThreadData {
    if p in threads then threads[p] else ThreadData([], None)
  }

  ghost predicate MatchesOne(threads: map<int, ThreadData>, st: State, p: int) {
    Data(threads, p) == ThreadData(Of(st.closed, p), if p in st.open then Some(st.open[p]) else None)
  }

  /** The dictionary holds, thread by thread, what the trace means. */
  ghost predicate Matches(threads: map<int, ThreadData>, st: State) {
    forall p :: MatchesOne(threads, st, p)
  }

  class SchedParser {
    const executable: string
    var pids: set<int>
    var threads: map<int, ThreadData>
    var timestamp: int
    var warnings: seq<Line>
    ghost var seen: seq<Line>

    ghost predicate Valid()
      reads this
    {
      var st := Run(seen, executable);
      pids == st.pids && threads.Keys == pids && Matches(threads, st) && timestamp == Now(seen)
    }

    constructor (executable: string)
      ensures Valid() && seen == [] && this.executable == executable
    {
      this.executable := executable;
      pids, threads, timestamp, warnings, seen := {}, map[], 0, [], [];
    }

    /** The interval under way, if there is one, is completed. */
    method CloseInterval(p: int, now: int)
      requires p in threads
      modifies `threads
      ensures var d := old(threads)[p];
              threads == if d.current.None? then old(threads)
                         else old(threads)[p := ThreadData(d.intervals + [Interval(p, d.current.value.core, d.current.value.start, now)],
                                                           None)]
    {
      var d := threads[p];
      if d.current.Some? {
        threads := threads[p := ThreadData(d.intervals + [Interval(p, d.current.value.core, d.current.value.start, now)], None)];
      }
    }

    /** The thread that leaves a CPU. */
    method SwitchOut(p: int, now: int, ghost st: State)
      requires pids == st.pids && Matches(threads, st)
      modifies `threads
      ensures Matches(threads, CloseOne(st, p, now))
      ensures threads.Keys == old(threads).Keys + if p in pids then {p} else {}
    {
      hide Matches, CloseOne;
      ghost var was := threads;
      if p in pids {
        if p !in threads {
          threads := threads[p := ThreadData([], None)];
        }
        CloseInterval(p, now);
      }
      CloseMatches(was, st, p, now, threads);
    }

    /** The thread that enters a CPU: an interval begins, unless one is under way already. */
    method SwitchIn(l: Line, ghost st: State)
      requires l.Switch? && pids == st.pids && Matches(threads, st)
      modifies `threads, `warnings
      ensures Matches(threads, OpenOne(st, l.next, l.cpu, l.timestamp))
      ensures warnings == old(warnings) + if l.next in st.pids && l.next in st.open then [l] else []
      ensures threads.Keys == old(threads).Keys + if l.next in pids then {l.next} else {}
    {
      var p := l.next;
      assert MatchesOne(threads, st, p);
      ghost var was := threads;
      if p in pids {
        if p !in threads {
          threads := threads[p := ThreadData([], None)];
        }
        if threads[p].current.None? {
          threads := threads[p := threads[p].(current := Some(Running(l.cpu, l.timestamp)))];
        } else {
          warnings := warnings + [l];
        }
      }
      forall q
        ensures MatchesOne(threads, OpenOne(st, p, l.cpu, l.timestamp), q)
      {
        assert MatchesOne(was, st, q);
      }
    }

    method LearnPids(l: Line)
      requires l.Switch?
      modifies `pids
      ensures pids == old(pids) + Known(l, executable)
    {
      if l.prevComm == executable {
        pids := pids + {l.prev};
      }
      if l.nextComm == executable {
        pids := pids + {l.next};
      }
    }

    /** One line of the trace. */
    method Handle(l: Line)
      requires Valid()
      modifies this
      ensures Valid() && seen == old(seen) + [l]
    {
      ghost var st := Run(seen, executable);
      hide Run, Now, OpenOne, CloseOne, Matches, Known, Step;
      KnownOnly(l, executable);
      RunSnoc(seen, l, executable);
      NowSnoc(seen, l);
      seen := seen + [l];
      if !l.NoMatch? {
        timestamp := l.timestamp;
      }
      if l.Switch? {
        ghost var a := st.(pids := st.pids + Known(l, executable));
        StepIs(st, l, executable);
        Grown(threads, st, a);
        LearnPids(l);
        SwitchOut(l.prev, l.timestamp, a);
        ClosePids(a, l.prev, l.timestamp);
        SwitchIn(l, CloseOne(a, l.prev, l.timestamp));
        OpenPids(CloseOne(a, l.prev, l.timestamp), l.next, l.cpu, l.timestamp);
      } else {
        StepIdle(st, l, executable);
      }
    }

    /** Threads still on a core when the trace ends stop at its last timestamp. */
    method Finish() returns (ghost st: State)
      requires Valid()
      modifies `threads
      ensures Matches(threads, st) && st.open == map[] && threads.Keys == old(threads).Keys
      ensures Kept(Run(seen, executable), st, Now(seen), LastOn(seen))
    {
      ghost var st0, last := Run(seen, executable), LastOn(seen);
      OpenAreKnown(seen, executable);
      hide Run, Now, LastOn, Matches, Kept, CloseOne;
      KeptAtFirst(st0, timestamp, last);
      OpenAreListed(threads, st0);
      st := st0;
      var todo := threads.Keys;
      while todo != {}
        invariant st.pids == pids && Matches(threads, st) && threads.Keys == old(threads).Keys
        invariant todo <= threads.Keys
        invariant forall p :: p in st.open ==> p in todo && p in st.pids
        invariant Kept(st0, st, timestamp, last)
        decreases |todo|
      {
        ghost var some := Pick(todo);
        var p :| p in todo;
        ghost var was := threads;
        CloseInterval(p, timestamp);
        CloseEffect(st, p, timestamp);
        NotRunning(was, st, p);
        CloseMatches(was, st, p, timestamp, threads);
        KeptByClose(st0, st, p, timestamp, last);
        st := CloseOne(st, p, timestamp);
        todo := todo - {p};
      }
      NoneOpen(st.open);
    }
  }

  /** What the invariants said of one state still holds of another. */
  ghost predicate Kept(was: State, st: State, now: int, last: map<int, int>) {
    && (Timely(was, now) ==> Timely(st, now) && (OwnsCore(was, last) ==> OwnsCore(st, last)))
    && (OneAtATime(st, now) <==> OneAtATime(was, now))
    && (forall p :: ListedBy(st, p, now) == ListedBy(was, p, now))
  }

  /** A thread's intervals, the one under way taken to end now. */
  function ListedBy(st: State, p: int, now: int): seq<Interval> {
    if p in st.open then Of(st.closed, p) + [Interval(p, st.open[p].core, st.open[p].start, now)] else Of(st.closed, p)
  }

  lemma CloseKeepsListed(st: State, p: int, now: int, q: int)
    ensures ListedBy(CloseOne(st, p, now), q, now) == ListedBy(st, q, now)
  {
    hide Of;
    if p in st.pids && p in st.open {
      OfSnoc(st.closed, Interval(p, st.open[p].core, st.open[p].start, now), q);
    }
  }

  lemma KeptAtFirst(st: State, now: int, last: map<int, int>)
    ensures Kept(st, st, now, last)
  {
  }

  lemma KeptByClose(was: State, st: State, p: int, now: int, last: map<int, int>)
    requires Kept(was, st, now, last)
    ensures Kept(was, CloseOne(st, p, now), now, last)
  {
    hide Timely, OwnsCore, CloseOne, OneAtATime, ListedBy;
    CloseKeepsPast(st, p, now);
    forall q
      ensures ListedBy(CloseOne(st, p, now), q, now) == ListedBy(was, q, now)
    {
      CloseKeepsListed(st, p, now, q);
    }
    if Timely(was, now) {
      CloseKeepsTimely(st, p, now);
      if OwnsCore(was, last) {
        CloseKeepsCores(st, p, now, last);
      }
    }
  }

  lemma CloseKeepsPast(st: State, p: int, now: int)
    ensures OneAtATime(CloseOne(st, p, now), now) <==> OneAtATime(st, now)
  {
    hide On, CloseOne;
    forall q, c, t | t < now
      ensures On(CloseOne(st, p, now), q, c, t) <==> On(st, q, c, t)
    {
      CloseSame(st, p, now, q, c, t);
    }
  }

  lemma CloseEffect(st: State, p: int, now: int)
    ensures CloseOne(st, p, now).pids == st.pids
    ensures forall q :: q in CloseOne(st, p, now).open ==> q in st.open && (q == p ==> p !in st.pids)
  {
  }

  lemma NotRunning(threads: map<int, ThreadData>, st: State, p: int)
    requires Matches(threads, st)
    ensures p !in st.open ==> Data(threads, p).current.None?
  {
    assert MatchesOne(threads, st, p);
  }

  lemma NoneOpen(open: map<int, Running>)
    requires forall p :: p !in open
    ensures open == map[]
  {
    if open.Keys != {} {
      var p := Pick(open.Keys);
      assert false;
    }
  }

  lemma {:induction false} OpenAreKnown(ls: seq<Line>, exe: string)
    ensures forall p :: p in Run(ls, exe).open ==> p in Run(ls, exe).pids
  {
    if ls != [] {
      OpenAreKnown(ls[..|ls| - 1], exe);
    }
  }

  lemma OpenAreListed(threads: map<int, ThreadData>, st: State)
    requires Matches(threads, st)
    ensures forall p :: p in st.open ==> p in threads
  {
    forall p | p in st.open
      ensures p in threads
    {
      assert MatchesOne(threads, st, p);
    }
  }

  /** Completing the interval under way of one known thread. */
  lemma CloseMatches(was: map<int, ThreadData>, st: State, p: int, now: int, threads: map<int, ThreadData>)
    requires Matches(was, st)
    requires forall q :: q != p ==> Data(threads, q) == Data(was, q)
    requires p in st.pids ==>
      Data(threads, p) == (var d := Data(was, p);
                           if d.current.None? then d
                           else ThreadData(d.intervals + [Interval(p, d.current.value.core, d.current.value.start, now)], None))
    requires p !in st.pids ==> Data(threads, p) == Data(was, p)
    ensures Matches(threads, CloseOne(st, p, now))
  {
    assert MatchesOne(was, st, p);
    forall q
      ensures MatchesOne(threads, CloseOne(st, p, now), q)
    {
      assert MatchesOne(was, st, q);
      if p in st.pids && p in st.open {
        hide Of;
        OfSnoc(st.closed, Interval(p, st.open[p].core, st.open[p].start, now), q);
      }
    }
  }

  lemma NowSnoc(ls: seq<Line>, l: Line)
    ensures Now(ls + [l]) == if l.NoMatch? then Now(ls) else l.timestamp
  {
    assert (ls + [l])[..|ls|] == ls;
  }

  lemma Grown(threads: map<int, ThreadData>, st: State, a: State)
    requires Matches(threads, st) && a.open == st.open && a.closed == st.closed
    ensures Matches(threads, a)
  {
    assert forall p :: MatchesOne(threads, st, p) ==> MatchesOne(threads, a, p);
  }

  lemma ClosePids(st: State, p: int, now: int)
    ensures CloseOne(st, p, now).pids == st.pids
  {
  }

  lemma OpenPids(st: State, p: int, core: int, now: int)
    ensures OpenOne(st, p, core, now).pids == st.pids
  {
  }

  // ----------------------------------------------------- the whole program

  ghost predicate Chain(s: seq<Interval>) {
    && (forall i, j :: 0 <= i < j < |s| ==> s[i].end <= s[j].start)
    && (forall i :: 0 <= i < |s| ==> s[i].start <= s[i].end)
  }

  lemma {:induction false} OfIsChain(s: seq<Interval>, p: int)
    requires SerialPerThread(s) && forall v :: v in s ==> v.start <= v.end
    ensures Chain(Of(s, p)) && forall v :: v in Of(s, p) ==> v in s && v.thread == p
  {
    if s != [] {
      var front, last := s[..|s| - 1], s[|s| - 1];
      OfIsChain(front, p);
      if last.thread == p {
        forall i | 0 <= i < |Of(front, p)|
          ensures Of(front, p)[i].end <= last.start
        {
          assert Of(front, p)[i] in front;
        }
      }
    }
  }

  /** parse_sched_script. The result lists, thread by thread, the intervals that the lines begin and
      end, of the threads that the trace names as the executable's. In a trace in time order every
      thread's list is a chain; and no two intervals of any threads share time on a core exactly
      when, whenever time passed, every core had at most one thread under way. If every switch-out
      names the thread last switched in on its CPU, they are in order on each core as well. */
  method ParseSched(lines: seq<Line>, executable: string)
    returns (threads: map<int, ThreadData>, ghost all: seq<Interval>)
    ensures forall p :: Data(threads, p) == ThreadData(Of(all, p), None)
    ensures forall p :: Data(threads, p).intervals == Spans(lines, |lines|, p, executable, Some(Now(lines)))
    ensures forall p :: p in threads <==> NamedIn(lines, p, executable)
    ensures InTime(lines) ==> forall p :: Chain(Data(threads, p).intervals)
    ensures InTime(lines) ==> (NoneShared(all) <==> NeverTwoPerCore(lines, executable))
    ensures InTime(lines) && Consistent(lines) ==> SerialPerCore(all)
  {
    var parser := new SchedParser(executable);
    for i := 0 to |lines|
      invariant fresh(parser) && parser.Valid() && parser.seen == lines[..i] && parser.executable == executable
    {
      hide *;
      parser.Handle(lines[i]);
      assert lines[..i + 1] == lines[..i] + [lines[i]];
    }
    assert lines[..|lines|] == lines;
    hide *;
    ParserKeys(parser);
    ghost var st := parser.Finish();
    threads, all := parser.threads, st.closed;
    Result(lines, executable, threads, st);
  }

  lemma ParserKeys(parser: SchedParser)
    requires parser.Valid()
    ensures forall p :: p in parser.threads <==> NamedIn(parser.seen, p, parser.executable)
  {
    hide NamedIn, Run;
    forall p
      ensures p in parser.threads <==> NamedIn(parser.seen, p, parser.executable)
    {
      PidsExactly(parser.seen, parser.executable, p);
    }
  }

  lemma KnownOnly(l: Line, exe: string)
    ensures l.Switch? ==> Known(l, exe) <= {l.prev, l.next}
  {
  }

  lemma Result(lines: seq<Line>, exe: string, threads: map<int, ThreadData>, st: State)
    requires Matches(threads, st) && st.open == map[]
    requires Kept(Run(lines, exe), st, Now(lines), LastOn(lines))
    ensures forall p :: Data(threads, p) == ThreadData(Of(st.closed, p), None)
    ensures forall p :: Data(threads, p).intervals == Spans(lines, |lines|, p, exe, Some(Now(lines)))
    ensures InTime(lines) ==> forall p :: Chain(Data(threads, p).intervals)
    ensures InTime(lines) ==> (NoneShared(st.closed) <==> NeverTwoPerCore(lines, exe))
    ensures InTime(lines) && Consistent(lines) ==> SerialPerCore(st.closed)
  {
    hide Run, Now, LastOn, Of, Chain, OneAtATime, NoneShared, NeverTwoPerCore, Spans;
    forall p
      ensures Data(threads, p) == ThreadData(Of(st.closed, p), None)
      ensures Data(threads, p).intervals == Spans(lines, |lines|, p, exe, Some(Now(lines)))
    {
      assert MatchesOne(threads, st, p);
      SpansOfTrace(lines, exe, p);
      assert ListedBy(st, p, Now(lines)) == ListedBy(Run(lines, exe), p, Now(lines));
    }
    if InTime(lines) {
      ThreadsAreSerial(lines, exe);
      OneAtATimeExactly(lines, exe);
      OneAtATimeIsNoneShared(st, Now(lines));
      if Consistent(lines) {
        CoresAreSerial(lines, exe);
      }
      forall p
        ensures Chain(Data(threads, p).intervals)
      {
        OfIsChain(st.closed, p);
      }
    }
  }

  /** The time at the end is that of the last line that can be read, a switch or not. */
  lemma {:induction false} NowExactly(ls: seq<Line>, i: nat)
    requires i < |ls| && !ls[i].NoMatch? && forall k :: i < k < |ls| ==> ls[k].NoMatch?
    ensures Now(ls) == ls[i].timestamp
  {
    if i < |ls| - 1 {
      NowExactly(ls[..|ls| - 1], i);
    }
  }

  // --------------------------------------- what the intervals are, line by line

  predicate SwitchesIn(l: Line, p: int) {
    l.Switch? && l.next == p
  }

  predicate SwitchesOut(l: Line, p: int) {
    l.Switch? && l.prev == p
  }

  /** The line names p as a thread of the executable. */
  predicate Names(l: Line, p: int, exe: string) {
    l.Switch? && ((l.prevComm == exe && l.prev == p) || (l.nextComm == exe && l.next == p))
  }

  ghost predicate KnownBy(ls: seq<Line>, i: int, p: int, exe: string) {
    exists k :: 0 <= k <= i && k < |ls| && Names(ls[k], p, exe)
  }

  /** Line i switches p in when it is known, and no line after it, up to j, switches it out. */
  ghost predicate InSince(ls: seq<Line>, i: int, j: int, p: int, exe: string) {
    && 0 <= i < |ls| && SwitchesIn(ls[i], p) && KnownBy(ls, i, p, exe)
    && forall k :: i < k <= j && k < |ls| ==> !SwitchesOut(ls[k], p)
  }

  /** Line i begins an interval of p: it switches p in when it is known, and p is not in already. */
  ghost predicate Begins(ls: seq<Line>, i: int, p: int, exe: string) {
    && 0 <= i < |ls| && SwitchesIn(ls[i], p) && KnownBy(ls, i, p, exe)
    && forall h :: 0 <= h < i ==> !InSince(ls, h, i, p, exe)
  }

  /** The first line from j on that switches p out, or the end. */
  function NextOut(ls: seq<Line>, j: nat, p: int): nat
    decreases |ls| - j
  {
    if j >= |ls| then |ls| else if SwitchesOut(ls[j], p) then j else NextOut(ls, j + 1, p)
  }

  /** The intervals of p that begin before line n, each from its line to the next one that switches
      p out; one that is not switched out ends at `last`, or is left out. */
  ghost function Spans(ls: seq<Line>, n: nat, p: int, exe: string, last: Option<int>): seq<Interval>
    requires n <= |ls|
  {
    if n == 0 then []
    else
      var before, i := Spans(ls, n - 1, p, exe, last), n - 1;
      var j := NextOut(ls, n, p);
      if !Begins(ls, i, p, exe) || (j == |ls| && last.None?) || !ls[i].Switch? then before
      else before + [Interval(p, ls[i].cpu, ls[i].timestamp, EndAt(ls, j, last))]
  }

  function EndAt(ls: seq<Line>, j: nat, last: Option<int>): int {
    if j < |ls| && ls[j].Switch? then ls[j].timestamp else if last.Some? then last.value else 0
  }

  lemma {:induction false} NextOutIs(ls: seq<Line>, j: nat, p: int)
    requires j <= |ls|
    ensures var k := NextOut(ls, j, p);
      && j <= k <= |ls| && (k < |ls| ==> SwitchesOut(ls[k], p))
      && forall m :: j <= m < k ==> !SwitchesOut(ls[m], p)
    decreases |ls| - j
  {
    if j < |ls| && !SwitchesOut(ls[j], p) {
      NextOutIs(ls, j + 1, p);
    }
  }

  lemma {:induction false} NextOutSnoc(ls: seq<Line>, l: Line, j: nat, p: int)
    requires j <= |ls|
    ensures NextOut(ls + [l], j, p)
            == if NextOut(ls, j, p) < |ls| || SwitchesOut(l, p) then NextOut(ls, j, p) else |ls| + 1
    decreases |ls| - j
  {
    if j < |ls| && !SwitchesOut(ls[j], p) {
      NextOutSnoc(ls, l, j + 1, p);
    }
    assert (ls + [l])[|ls|] == l && (j < |ls| ==> (ls + [l])[j] == ls[j]);
  }

  /** A later line changes nothing about which lines begin an interval. */
  lemma BeginsSnoc(ls: seq<Line>, l: Line, i: int, p: int, exe: string)
    requires 0 <= i < |ls|
    ensures KnownBy(ls + [l], i, p, exe) <==> KnownBy(ls, i, p, exe)
    ensures forall j :: j < |ls| ==> (InSince(ls + [l], i, j, p, exe) <==> InSince(ls, i, j, p, exe))
  {
    var r := ls + [l];
    assert forall k :: 0 <= k < |ls| ==> r[k] == ls[k];
    if k :| 0 <= k <= i && k < |ls| && Names(ls[k], p, exe) {
      assert Names(r[k], p, exe);
    }
    hide KnownBy;
  }

  lemma BeginsSame(ls: seq<Line>, l: Line, i: int, p: int, exe: string)
    requires 0 <= i < |ls|
    ensures Begins(ls + [l], i, p, exe) <==> Begins(ls, i, p, exe)
  {
    hide KnownBy, InSince;
    assert (ls + [l])[i] == ls[i];
    BeginsSnoc(ls, l, i, p, exe);
    forall h | 0 <= h < i
      ensures InSince(ls + [l], h, i, p, exe) <==> InSince(ls, h, i, p, exe)
    {
      BeginsSnoc(ls, l, h, p, exe);
    }
  }

  /** The interval that begins at line i is the one under way. */
  ghost predicate OpenAt(ls: seq<Line>, i: int, p: int, exe: string) {
    Begins(ls, i, p, exe) && InSince(ls, i, |ls|, p, exe)
  }

  lemma OpenOneIs(ls: seq<Line>, i: nat, p: int, exe: string, last: Option<int>)
    requires OpenAt(ls, i, p, exe)
    ensures NextOut(ls, i + 1, p) == |ls|
    ensures Spans(ls, i + 1, p, exe, last)
            == if last.None? then Spans(ls, i, p, exe, last)
               else Spans(ls, i, p, exe, last) + [Interval(p, ls[i].cpu, ls[i].timestamp, last.value)]
  {
    NextOutIs(ls, i + 1, p);
  }

  /** Nothing begins behind an interval before it ends. */
  lemma {:induction false} NothingBehind(ls: seq<Line>, i: nat, n: nat, p: int, exe: string, last: Option<int>)
    requires Begins(ls, i, p, exe) && InSince(ls, i, n - 1, p, exe) && i < n <= |ls|
    ensures Spans(ls, n, p, exe, last) == Spans(ls, i + 1, p, exe, last)
  {
    if n > i + 1 {
      NothingBehind(ls, i, n - 1, p, exe, last);
      assert InSince(ls, i, n - 1, p, exe);
      assert !Begins(ls, n - 1, p, exe);
    }
  }

  /** An interval that has ended stays as it is. */
  lemma SpansNext(ls: seq<Line>, l: Line, n: nat, p: int, exe: string, last: Option<int>)
    requires 0 < n <= |ls| && (Begins(ls, n - 1, p, exe) ==> NextOut(ls, n, p) < |ls|)
    ensures Spans(ls, n - 1, p, exe, last) == Spans(ls, n - 1, p, exe, None) ==>
      Spans(ls, n, p, exe, last) == Spans(ls, n, p, exe, None)
    ensures Spans(ls + [l], n - 1, p, exe, None) == Spans(ls, n - 1, p, exe, None) ==>
      Spans(ls + [l], n, p, exe, None) == Spans(ls, n, p, exe, None)
  {
    hide Begins, NextOut;
    var j := NextOut(ls, n, p);
    BeginsSame(ls, l, n - 1, p, exe);
    NextOutIs(ls, n, p);
    NextOutSnoc(ls, l, n, p);
    assert (ls + [l])[n - 1] == ls[n - 1] && (j < |ls| ==> (ls + [l])[j] == ls[j]);
  }

  /** Everything that begins before the interval under way has ended by then. */
  lemma {:induction false} EndedBefore(ls: seq<Line>, l: Line, i: nat, n: nat, p: int, exe: string, last: Option<int>)
    requires OpenAt(ls, i, p, exe) && n <= i
    ensures Spans(ls, n, p, exe, last) == Spans(ls, n, p, exe, None)
    ensures Spans(ls + [l], n, p, exe, None) == Spans(ls, n, p, exe, None)
  {
    if n > 0 {
      EndedBefore(ls, l, i, n - 1, p, exe, last);
      if Begins(ls, n - 1, p, exe) {
        EndsBy(ls, i, n - 1, p, exe);
      }
      SpansNext(ls, l, n, p, exe, last);
    }
  }

  lemma EndsBy(ls: seq<Line>, i: nat, h: nat, p: int, exe: string)
    requires OpenAt(ls, i, p, exe) && h < i && Begins(ls, h, p, exe)
    ensures NextOut(ls, h + 1, p) <= i < |ls|
  {
    NextOutIs(ls, h + 1, p);
    assert !InSince(ls, h, i, p, exe);
  }

  /** With nothing under way all that began has ended. */
  lemma {:induction false} AllEnded(ls: seq<Line>, l: Line, n: nat, p: int, exe: string, last: Option<int>)
    requires (forall h :: 0 <= h < |ls| ==> !InSince(ls, h, |ls|, p, exe)) && n <= |ls|
    ensures Spans(ls, n, p, exe, last) == Spans(ls, n, p, exe, None)
    ensures Spans(ls + [l], n, p, exe, None) == Spans(ls, n, p, exe, None)
  {
    if n > 0 {
      AllEnded(ls, l, n - 1, p, exe, last);
      NextOutIs(ls, n, p);
      if Begins(ls, n - 1, p, exe) {
        assert !InSince(ls, n - 1, |ls|, p, exe);
      }
      SpansNext(ls, l, n, p, exe, last);
    }
  }

  lemma InSinceNext(ls: seq<Line>, l: Line, h: int, p: int, exe: string)
    requires 0 <= h < |ls|
    ensures InSince(ls + [l], h, |ls|, p, exe) <==> InSince(ls, h, |ls|, p, exe) && !SwitchesOut(l, p)
    ensures InSince(ls + [l], h, |ls| + 1, p, exe) <==> InSince(ls, h, |ls|, p, exe) && !SwitchesOut(l, p)
    ensures InSince(ls, h, |ls|, p, exe) ==> InSince(ls + [l], h, |ls| - 1, p, exe)
  {
    var r := ls + [l];
    BeginsSnoc(ls, l, h, p, exe);
    hide KnownBy;
    assert r[h] == ls[h] && r[|ls|] == l && forall k :: 0 <= k < |ls| ==> r[k] == ls[k];
    if InSince(r, h, |ls|, p, exe) {
      assert !SwitchesOut(r[|ls|], p);
      assert forall k :: h < k < |ls| ==> !SwitchesOut(r[k], p);
    }
  }

  /** The line at the end begins an interval of a known thread that is not in, or was just out. */
  lemma BeginsLast(ls: seq<Line>, l: Line, p: int, exe: string)
    ensures Begins(ls + [l], |ls|, p, exe)
            <==> SwitchesIn(l, p) && KnownBy(ls + [l], |ls|, p, exe)
                 && forall h :: 0 <= h < |ls| ==> !(InSince(ls, h, |ls|, p, exe) && !SwitchesOut(l, p))
    ensures InSince(ls + [l], |ls|, |ls| + 1, p, exe) <==> SwitchesIn(l, p) && KnownBy(ls + [l], |ls|, p, exe)
  {
    hide KnownBy;
    var r := ls + [l];
    assert r[|ls|] == l;
    forall h | 0 <= h < |ls|
      ensures InSince(r, h, |ls|, p, exe) <==> InSince(ls, h, |ls|, p, exe) && !SwitchesOut(l, p)
    {
      InSinceNext(ls, l, h, p, exe);
    }
    hide SwitchesOut;
  }

  lemma SpansLast(ls: seq<Line>, l: Line, p: int, exe: string)
    ensures Spans(ls + [l], |ls| + 1, p, exe, None) == Spans(ls + [l], |ls|, p, exe, None)
  {
    assert NextOut(ls + [l], |ls| + 1, p) == |ls + [l]|;
  }

  /** One line more, while an interval is under way: it ends, or nothing does. */
  lemma SpansWhileOpen(ls: seq<Line>, l: Line, i: nat, p: int, exe: string)
    requires OpenAt(ls, i, p, exe)
    ensures Spans(ls + [l], |ls| + 1, p, exe, None)
            == if SwitchesOut(l, p) then Spans(ls, |ls|, p, exe, None) + [Interval(p, ls[i].cpu, ls[i].timestamp, l.timestamp)]
               else Spans(ls, |ls|, p, exe, None)
  {
    hide KnownBy, InSince, Begins;
    var r := ls + [l];
    OpenBegins(ls, i, p, exe);
    OpenOneIs(ls, i, p, exe, None);
    NothingBehind(ls, i, |ls|, p, exe, None);
    EndedBefore(ls, l, i, i, p, exe, None);
    BeginsSame(ls, l, i, p, exe);
    InSinceNext(ls, l, i, p, exe);
    NothingBehind(r, i, |ls|, p, exe, None);
    NextOutSnoc(ls, l, i + 1, p);
    SpansLast(ls, l, p, exe);
    assert r[i] == ls[i] && r[|ls|] == l;
  }

  lemma OpenBegins(ls: seq<Line>, i: int, p: int, exe: string)
    requires OpenAt(ls, i, p, exe)
    ensures 0 <= i < |ls| && ls[i].Switch? && Begins(ls, i, p, exe) && InSince(ls, i, |ls|, p, exe)
    ensures InSince(ls, i, |ls| - 1, p, exe)
  {
  }

  lemma SpansWhileNone(ls: seq<Line>, l: Line, p: int, exe: string)
    requires forall h :: 0 <= h < |ls| ==> !InSince(ls, h, |ls|, p, exe)
    ensures Spans(ls + [l], |ls| + 1, p, exe, None) == Spans(ls, |ls|, p, exe, None)
  {
    hide InSince, Spans;
    AllEnded(ls, l, |ls|, p, exe, None);
    SpansLast(ls, l, p, exe);
  }

  /** What a switch does to one thread. */
  lemma StepOn(st: State, l: Line, exe: string, p: int)
    requires l.Switch? && (p in st.open ==> p in st.pids)
    ensures var next, known, stays := Step(st, l, exe), p in st.pids || Names(l, p, exe), p in st.open && l.prev != p;
      && (p in next.pids <==> known)
      && (p in next.open <==> stays || (l.next == p && known))
      && (p in next.open ==> next.open[p] == if stays then st.open[p] else Running(l.cpu, l.timestamp))
      && Of(next.closed, p)
         == if p in st.open && l.prev == p then Of(st.closed, p) + [Interval(p, st.open[p].core, st.open[p].start, l.timestamp)]
            else Of(st.closed, p)
  {
    var a := st.(pids := st.pids + Known(l, exe));
    if l.prev in a.pids && l.prev in a.open {
      OfSnoc(st.closed, Interval(l.prev, a.open[l.prev].core, a.open[l.prev].start, l.timestamp), p);
    }
  }

  ghost predicate NamedIn(ls: seq<Line>, p: int, exe: string) {
    exists k :: 0 <= k < |ls| && Names(ls[k], p, exe)
  }

  lemma NamedNext(ls: seq<Line>, l: Line, p: int, exe: string)
    ensures NamedIn(ls + [l], p, exe) <==> NamedIn(ls, p, exe) || Names(l, p, exe)
    ensures KnownBy(ls + [l], |ls|, p, exe) <==> NamedIn(ls + [l], p, exe)
  {
    hide Names;
    var r := ls + [l];
    assert r[|ls|] == l && forall k :: 0 <= k < |ls| ==> r[k] == ls[k];
    if k :| 0 <= k < |ls| && Names(ls[k], p, exe) {
      assert Names(r[k], p, exe);
    }
    if k :| 0 <= k < |r| && Names(r[k], p, exe) {
      assert k < |ls| ==> Names(ls[k], p, exe);
    }
  }

  /** The threads taken for the executable's are those that some switch names so. */
  lemma {:induction false} PidsExactly(ls: seq<Line>, exe: string, p: int)
    ensures p in Run(ls, exe).pids <==> NamedIn(ls, p, exe)
  {
    if ls != [] {
      var front, l := ls[..|ls| - 1], ls[|ls| - 1];
      assert ls == front + [l];
      PidsExactly(front, exe, p);
      OpenAreKnown(front, exe);
      hide Step, NamedIn;
      RunSnoc(front, l, exe);
      NamedNext(front, l, p, exe);
      if l.Switch? {
        StepOn(Run(front, exe), l, exe, p);
      } else {
        StepIdle(Run(front, exe), l, exe);
      }
    }
  }

  /** What a trace means for one thread, by its lines alone: it is in exactly when a line switched
      it in, when it was known, and none has switched it out since; its interval under way is the
      one that began then; and the completed ones are those that lines begin and end. */
  lemma {:induction false} TraceMeans(ls: seq<Line>, exe: string, p: int) returns (i: int)
    ensures var st := Run(ls, exe);
      && (p in st.open ==> OpenAt(ls, i, p, exe) && ls[i].Switch? && st.open[p] == Running(ls[i].cpu, ls[i].timestamp))
      && (p !in st.open ==> forall h :: 0 <= h < |ls| ==> !InSince(ls, h, |ls|, p, exe))
      && Of(st.closed, p) == Spans(ls, |ls|, p, exe, None)
  {
    i := 0;
    if ls != [] {
      var front, l := ls[..|ls| - 1], ls[|ls| - 1];
      assert ls == front + [l];
      i := TraceMeans(front, exe, p);
      var st := Run(front, exe);
      hide *;
      RunSnoc(front, l, exe);
      OpenAreKnown(front, exe);
      PidsExactly(front, exe, p);
      NamedNext(front, l, p, exe);
      SwitchIs(l, p);
      if p in st.open {
        OpenBegins(front, i, p, exe);
        SpansWhileOpen(front, l, i, p, exe);
      } else {
        SpansWhileNone(front, l, p, exe);
      }
      if l.Switch? {
        StepOn(st, l, exe, p);
      } else {
        StepIdle(st, l, exe);
      }
      if p in st.open && !SwitchesOut(l, p) {
        StaysIn(front, l, i, p, exe);
      } else if SwitchesIn(l, p) && KnownBy(ls, |front|, p, exe) {
        BeginsOpen(front, l, p, exe);
        i := |front|;
      } else {
        NoneSince(front, l, p, exe);
      }
    } else {
      NothingRun(exe);
    }
  }

  lemma NothingRun(exe: string)
    ensures Run([], exe) == State({}, map[], []) && forall p :: Of([], p) == []
    ensures forall p :: Spans([], 0, p, exe, None) == []
  {
  }

  lemma SwitchIs(l: Line, p: int)
    ensures SwitchesOut(l, p) <==> l.Switch? && l.prev == p
    ensures SwitchesIn(l, p) <==> l.Switch? && l.next == p
  {
  }

  lemma StaysIn(ls: seq<Line>, l: Line, i: int, p: int, exe: string)
    requires OpenAt(ls, i, p, exe) && !SwitchesOut(l, p)
    ensures OpenAt(ls + [l], i, p, exe) && (ls + [l])[i] == ls[i]
  {
    hide InSince, Begins, SwitchesOut;
    OpenBegins(ls, i, p, exe);
    BeginsSame(ls, l, i, p, exe);
    InSinceNext(ls, l, i, p, exe);
  }

  lemma BeginsOpen(ls: seq<Line>, l: Line, p: int, exe: string)
    requires SwitchesIn(l, p) && KnownBy(ls + [l], |ls|, p, exe)
    requires forall h :: 0 <= h < |ls| ==> !(InSince(ls, h, |ls|, p, exe) && !SwitchesOut(l, p))
    ensures OpenAt(ls + [l], |ls|, p, exe) && (ls + [l])[|ls|] == l
  {
    hide InSince, Begins, KnownBy, SwitchesOut;
    BeginsLast(ls, l, p, exe);
  }

  lemma NoneSince(ls: seq<Line>, l: Line, p: int, exe: string)
    requires !(SwitchesIn(l, p) && KnownBy(ls + [l], |ls|, p, exe))
    requires forall h :: 0 <= h < |ls| ==> !(InSince(ls, h, |ls|, p, exe) && !SwitchesOut(l, p))
    ensures forall h :: 0 <= h < |ls + [l]| ==> !InSince(ls + [l], h, |ls + [l]|, p, exe)
  {
    hide InSince, Begins, KnownBy, SwitchesOut;
    BeginsLast(ls, l, p, exe);
    var r := ls + [l];
    forall h | 0 <= h < |r|
      ensures !InSince(r, h, |r|, p, exe)
    {
      if h < |ls| {
        InSinceNext(ls, l, h, p, exe);
      }
    }
  }

  /** A thread's completed list: every interval that a line begins, in order, each to the next line
      that switches the thread out, or to the last timestamp if there is none. */
  lemma SpansOfTrace(ls: seq<Line>, exe: string, p: int)
    ensures var st := Run(ls, exe);
      Spans(ls, |ls|, p, exe, Some(Now(ls)))
      == if p in st.open then Of(st.closed, p) + [Interval(p, st.open[p].core, st.open[p].start, Now(ls))]
         else Of(st.closed, p)
  {
    hide *;
    var i := TraceMeans(ls, exe, p);
    var last := Some(Now(ls));
    if p in Run(ls, exe).open {
      OpenBegins(ls, i, p, exe);
      OpenOneIs(ls, i, p, exe, last);
      OpenOneIs(ls, i, p, exe, None);
      NothingBehind(ls, i, |ls|, p, exe, last);
      NothingBehind(ls, i, |ls|, p, exe, None);
      EndedBefore(ls, NoMatch, i, i, p, exe, last);
    } else {
      AllEnded(ls, NoMatch, |ls|, p, exe, last);
    }
  }

  // ------------------------------------------------- time not scheduled

  function Total(s: seq<Interval>): int {
    if s == [] then 0 else Total(s[..|s| - 1]) + s[|s| - 1].end - s[|s| - 1].start
  }

  lemma TotalSnoc(s: seq<Interval>, v: Interval)
    ensures Total(s + [v]) == Total(s) + v.end - v.start
  {
    assert (s + [v])[..|s|] == s;
  }

  /** The time between one interval and the next. */
  function Pauses(s: seq<Interval>): int {
    if |s| < 2 then 0 else Pauses(s[..|s| - 1]) + s[|s| - 1].start - s[|s| - 2].end
  }

  ghost predicate Earliest(s: seq<Interval>, t: int) {
    (exists i :: 0 <= i < |s| && s[i].start == t) && forall i :: 0 <= i < |s| ==> t <= s[i].start
  }

  ghost predicate Latest(s: seq<Interval>, t: int) {
    (exists i :: 0 <= i < |s| && s[i].end == t) && forall i :: 0 <= i < |s| ==> s[i].end <= t
  }

  lemma PausesSnoc(s: seq<Interval>, v: Interval)
    ensures Pauses(s + [v]) == if s == [] then 0 else Pauses(s) + v.start - s[|s| - 1].end
  {
    assert (s + [v])[..|s|] == s;
  }

  /** Every interval starts where the one before it ended. */
  ghost predicate Unbroken(s: seq<Interval>) {
    forall i: nat :: 0 < i < |s| ==> Touches(s, i)
  }

  ghost predicate Touches(s: seq<Interval>, i: nat)
    requires 0 < i < |s|
  {
    s[i - 1].end == s[i].start
  }

  lemma UnbrokenSnoc(s: seq<Interval>, v: Interval)
    ensures Unbroken(s + [v]) <==> Unbroken(s) && (s == [] || s[|s| - 1].end == v.start)
  {
    var r := s + [v];
    if s != [] {
      assert Touches(r, |s|) <==> s[|s| - 1].end == v.start;
      forall i: nat | 0 < i < |s|
        ensures Touches(r, i) <==> Touches(s, i)
      {
      }
    }
  }

  /** The span of a chain is its scheduled time and its pauses. */
  lemma {:induction false} SpanIsTotalAndPauses(s: seq<Interval>)
    requires Chain(s) && s != []
    ensures s[|s| - 1].end - s[0].start == Total(s) + Pauses(s) && Pauses(s) >= 0
    ensures Pauses(s) == 0 <==> Unbroken(s)
  {
    var front, last := s[..|s| - 1], s[|s| - 1];
    assert s == front + [last];
    TotalNone();
    hide Total, Pauses, Unbroken;
    TotalSnoc(front, last);
    PausesSnoc(front, last);
    UnbrokenSnoc(front, last);
    if front != [] {
      assert front[|front| - 1].end <= last.start;
      SpanIsTotalAndPauses(front);
    } else {
      UnbrokenNone();
    }
  }

  lemma TotalNone()
    ensures Total([]) == 0
  {
  }

  lemma UnbrokenNone()
    ensures Unbroken([])
  {
  }

  lemma ChainEnds(s: seq<Interval>)
    requires Chain(s) && s != []
    ensures Earliest(s, s[0].start) && Latest(s, s[|s| - 1].end)
  {
    forall i | 0 <= i < |s|
      ensures s[0].start <= s[i].start && s[i].end <= s[|s| - 1].end
    {
      assert i > 0 ==> s[0].end <= s[i].start;
      assert i < |s| - 1 ==> s[i].end <= s[|s| - 1].start;
    }
  }

  /** The intervals on one core. */
  function OnCore(s: seq<Interval>, c: int): seq<Interval> {
    if s == [] then []
    else if s[|s| - 1].core == c then OnCore(s[..|s| - 1], c) + [s[|s| - 1]] else OnCore(s[..|s| - 1], c)
  }

  /** How often the core changes from one interval to the next. */
  function Changes(s: seq<Interval>): nat {
    if |s| < 2 then 0 else Changes(s[..|s| - 1]) + if s[|s| - 2].core != s[|s| - 1].core then 1 else 0
  }

  method MinStart(s: seq<Interval>) returns (t: int)
    requires s != []
    ensures Earliest(s, t)
  {
    t := s[0].start;
    for i := 1 to |s|
      invariant exists j :: 0 <= j < i && s[j].start == t
      invariant forall j :: 0 <= j < i ==> t <= s[j].start
    {
      if s[i].start < t {
        t := s[i].start;
      }
    }
  }

  method MaxEnd(s: seq<Interval>) returns (t: int)
    requires s != []
    ensures Latest(s, t)
  {
    t := s[0].end;
    for i := 1 to |s|
      invariant exists j :: 0 <= j < i && s[j].end == t
      invariant forall j :: 0 <= j < i ==> s[j].end <= t
    {
      if s[i].end > t {
        t := s[i].end;
      }
    }
  }

  function TimeOn(times: map<int, int>, c: int): int {
    if c in times then times[c] else 0
  }

  lemma CoreTimesStep(times: map<int, int>, s: seq<Interval>, v: Interval)
    requires Sum(times) == Total(s) && forall c :: TimeOn(times, c) == Total(OnCore(s, c))
    ensures var times' := times[v.core := TimeOn(times, v.core) + v.end - v.start];
            Sum(times') == Total(s + [v]) && forall c :: TimeOn(times', c) == Total(OnCore(s + [v], c))
  {
    hide Sum, Total;
    assert (s + [v])[..|s|] == s;
    TotalSnoc(s, v);
    TotalSnoc(OnCore(s, v.core), v);
    SumSet(times, v.core, TimeOn(times, v.core) + v.end - v.start);
  }

  /** The migrations are the places where the core changes. */
  lemma {:induction false} ChangesAre(s: seq<Interval>)
    ensures Changes(s) == |CoreChanges(s)|
  {
    hide *;
    NoChanges(s);
    if |s| >= 2 {
      var front, v := s[..|s| - 1], s[|s| - 1];
      assert s == front + [v];
      ChangesAre(front);
      ChangesSnoc(front, v);
      OneMoreChange(front, v);
    }
  }

  /** Where an interval is on another core than the one before. */
  ghost function CoreChanges(s: seq<Interval>): set<int> {
    set i | 0 < i < |s| && ChangesAt(s, i)
  }

  ghost predicate ChangesAt(s: seq<Interval>, i: int) {
    0 < i < |s| && s[i - 1].core != s[i].core
  }

  lemma NoChanges(s: seq<Interval>)
    ensures |s| < 2 ==> Changes(s) == 0 && CoreChanges(s) == {}
  {
  }

  lemma OneMoreChange(s: seq<Interval>, v: Interval)
    ensures |CoreChanges(s + [v])| == |CoreChanges(s)| + if s != [] && s[|s| - 1].core != v.core then 1 else 0
  {
    var before, r, n := CoreChanges(s), s + [v], |s|;
    SameChanges(s, v);
    hide ChangesAt;
    assert CoreChanges(r) == if n > 0 && ChangesAt(r, n) then before + {n} else before;
  }

  lemma SameChanges(s: seq<Interval>, v: Interval)
    ensures forall i :: 0 < i < |s| ==> (ChangesAt(s + [v], i) <==> ChangesAt(s, i))
    ensures s != [] ==> (ChangesAt(s + [v], |s|) <==> s[|s| - 1].core != v.core)
  {
  }

  lemma NothingScheduled()
    ensures Total([]) == 0 && Changes([]) == 0
    ensures forall c :: OnCore([], c) == [] && TimeOn(map[], c) == 0
  {
  }

  lemma ChangesSnoc(s: seq<Interval>, v: Interval)
    ensures Changes(s + [v]) == Changes(s) + if s != [] && s[|s| - 1].core != v.core then 1 else 0
  {
    assert (s + [v])[..|s|] == s;
  }

  /** The scheduling part of a thread's analysis: time per core, migrations, and what is left of
      the thread's lifetime as not scheduled. */
  method AnalyzeScheduling(s: seq<Interval>)
    returns (start: int, end: int, coreTimes: map<int, int>, migrations: nat, unscheduled: int)
    requires s != []
    ensures Earliest(s, start) && Latest(s, end)
    ensures forall c :: TimeOn(coreTimes, c) == Total(OnCore(s, c))
    ensures migrations == Changes(s)
    ensures unscheduled == end - start - Total(s)
  {
    hide *;
    start := MinStart(s);
    end := MaxEnd(s);
    coreTimes, migrations := map[], 0;
    SumNone();
    NothingScheduled();
    var previous: Option<int> := None;
    for i := 0 to |s|
      invariant previous == if i == 0 then None else Some(s[i - 1].core)
      invariant Sum(coreTimes) == Total(s[..i]) && forall c :: TimeOn(coreTimes, c) == Total(OnCore(s[..i], c))
      invariant migrations == Changes(s[..i])
    {
      assert s[..i + 1] == s[..i] + [s[i]];
      ChangesSnoc(s[..i], s[i]);
      CoreTimesStep(coreTimes, s[..i], s[i]);
      coreTimes := coreTimes[s[i].core := TimeOn(coreTimes, s[i].core) + s[i].end - s[i].start];
      if previous.Some? && s[i].core != previous.value {
        migrations := migrations + 1;
      }
      previous := Some(s[i].core);
    }
    assert s[..|s|] == s;
    var scheduled := SumValues(coreTimes);
    unscheduled := end - start - scheduled;
  }

  lemma OneStart(s: seq<Interval>, a: int, b: int)
    requires Earliest(s, a) && Earliest(s, b)
    ensures a == b
  {
  }

  lemma OneEnd(s: seq<Interval>, a: int, b: int)
    requires Latest(s, a) && Latest(s, b)
    ensures a == b
  {
  }

  /** For the list of any thread from a trace in time order, the time not scheduled is the sum of
      the pauses between its intervals: never negative, and zero only if it ran without a pause. */
  lemma NotScheduledIsPauses(s: seq<Interval>, start: int, end: int, unscheduled: int)
    requires s != [] && Chain(s) && Earliest(s, start) && Latest(s, end)
    requires unscheduled == end - start - Total(s)
    ensures unscheduled == Pauses(s) && unscheduled >= 0
    ensures unscheduled == 0 <==> Unbroken(s)
  {
    hide Total, Pauses, Unbroken;
    ChainEnds(s);
    SpanIsTotalAndPauses(s);
    OneStart(s, start, s[0].start);
    OneEnd(s, end, s[|s| - 1].end);
  }
}
