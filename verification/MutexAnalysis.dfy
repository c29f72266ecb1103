/** The mutex part of a thread's analysis: integrity checks on the event stream, hold and wait
    times per mutex, and the merged intervals in which the thread holds any lock. */
module MutexAnalysis {
  import opened Options
  import opened MapSums
  import opened SetFacts

  datatype Kind = Wait | Lock | Unlock | Other

  datatype Event = Event(timestamp: int, kind: Kind, mutex: int)

  datatype Span = Span(start: int, end: int)

  // --------------------------------------------------- what is accepted

  /** The events of one mutex of either of two kinds. */
  function Project(es: seq<Event>, m: int, a: Kind, b: Kind): seq<Kind> {
    if es == [] then []
    else
      var e := es[|es| - 1];
      var front := Project(es[..|es| - 1], m, a, b);
      if e.mutex == m && (e.kind == a || e.kind == b) then front + [e.kind] else front
  }

  ghost predicate Alternates(s: seq<Kind>, a: Kind, b: Kind) {
    forall i :: 0 <= i < |s| ==> s[i] == if i % 2 == 0 then a else b
  }

  /** So far every mutex is waited for, locked and unlocked in turns. */
  ghost predicate Good(es: seq<Event>) {
    forall m :: GoodFor(es, m)
  }

  ghost predicate GoodFor(es: seq<Event>, m: int) {
    && Alternates(Project(es, m, Wait, Lock), Wait, Lock)
    && Alternates(Project(es, m, Lock, Unlock), Lock, Unlock)
  }

  /** And nothing is left open. */
  ghost predicate Accepted(es: seq<Event>) {
    Good(es) && forall m :: |Project(es, m, Wait, Lock)| % 2 == 0 && |Project(es, m, Lock, Unlock)| % 2 == 0
  }

  // ---------------------------------------------------- the dictionaries

  /** Start times of the waits under way. */
  function Waits(es: seq<Event>): map<int, int> {
    if es == [] then map[]
    else
      var e := es[|es| - 1];
      var w := Waits(es[..|es| - 1]);
      match e.kind
      case Wait => w[e.mutex := e.timestamp]
      case Lock => w - {e.mutex}
      case _ => w
  }

  /** Start times of the locks held. */
  function Held(es: seq<Event>): map<int, int> {
    if es == [] then map[]
    else
      var e := es[|es| - 1];
      var h := Held(es[..|es| - 1]);
      match e.kind
      case Lock => h[e.mutex := e.timestamp]
      case Unlock => h - {e.mutex}
      case _ => h
  }

  function Get(spans: map<int, seq<Span>>, m: int): seq<Span> {
    if m in spans then spans[m] else []
  }

  /** The completed spans of every mutex, when those under way are known. */
  function Extend(spans: map<int, seq<Span>>, open: map<int, int>, m: int, now: int): map<int, seq<Span>> {
    if m in open then spans[m := Get(spans, m) + [Span(open[m], now)]] else spans
  }

  function WaitSpans(es: seq<Event>): map<int, seq<Span>> {
    if es == [] then map[]
    else
      var e, front := es[|es| - 1], es[..|es| - 1];
      if e.kind == Lock then Extend(WaitSpans(front), Waits(front), e.mutex, e.timestamp) else WaitSpans(front)
  }

  function HoldSpans(es: seq<Event>): map<int, seq<Span>> {
    if es == [] then map[]
    else
      var e, front := es[|es| - 1], es[..|es| - 1];
      if e.kind == Unlock then Extend(HoldSpans(front), Held(front), e.mutex, e.timestamp) else HoldSpans(front)
  }

  /** Since when some lock has been held. */
  function Since(es: seq<Event>): Option<int> {
    if es == [] then None
    else
      var e, front := es[|es| - 1], es[..|es| - 1];
      if e.kind == Lock && Held(front) == map[] then Some(e.timestamp)
      else if e.kind == Unlock && Held(es) == map[] then None
      else Since(front)
  }

  /** The merged intervals. */
  function Merged(es: seq<Event>): seq<Span> {
    if es == [] then []
    else
      var e, front := es[|es| - 1], es[..|es| - 1];
      if e.kind == Unlock && e.mutex in Held(front) && Held(es) == map[] && Since(front).Some?
      then Merged(front) + [Span(Since(front).value, e.timestamp)]
      else Merged(front)
  }

  lemma DictSnoc(es: seq<Event>, e: Event)
    ensures Waits(es + [e]) == match e.kind
                               case Wait => Waits(es)[e.mutex := e.timestamp]
                               case Lock => Waits(es) - {e.mutex}
                               case _ => Waits(es)
    ensures Held(es + [e]) == match e.kind
                              case Lock => Held(es)[e.mutex := e.timestamp]
                              case Unlock => Held(es) - {e.mutex}
                              case _ => Held(es)
  {
    assert (es + [e])[..|es|] == es;
  }

  lemma SpanSnoc(es: seq<Event>, e: Event)
    ensures WaitSpans(es + [e]) == if e.kind == Lock then Extend(WaitSpans(es), Waits(es), e.mutex, e.timestamp)
                                   else WaitSpans(es)
    ensures HoldSpans(es + [e]) == if e.kind == Unlock then Extend(HoldSpans(es), Held(es), e.mutex, e.timestamp)
                                   else HoldSpans(es)
  {
    assert (es + [e])[..|es|] == es;
  }

  lemma MergeSnoc(es: seq<Event>, e: Event)
    ensures Since(es + [e]) == if e.kind == Lock && Held(es) == map[] then Some(e.timestamp)
                               else if e.kind == Unlock && Held(es + [e]) == map[] then None else Since(es)
    ensures Merged(es + [e]) == if e.kind == Unlock && e.mutex in Held(es) && Held(es + [e]) == map[] && Since(es).Some?
                                then Merged(es) + [Span(Since(es).value, e.timestamp)] else Merged(es)
  {
    assert (es + [e])[..|es|] == es;
  }

  lemma ProjectSnoc(es: seq<Event>, e: Event, m: int, a: Kind, b: Kind)
    ensures Project(es + [e], m, a, b)
            == if e.mutex == m && (e.kind == a || e.kind == b) then Project(es, m, a, b) + [e.kind] else Project(es, m, a, b)
  {
    assert (es + [e])[..|es|] == es;
  }

  // ------------------------------------------- the checks are the language

  lemma AlternatesSnoc(s: seq<Kind>, k: Kind, a: Kind, b: Kind)
    ensures Alternates(s + [k], a, b) <==> Alternates(s, a, b) && k == if |s| % 2 == 0 then a else b
  {
    assert (s + [k])[|s|] == k;
    if Alternates(s + [k], a, b) {
      forall i | 0 <= i < |s|
        ensures s[i] == if i % 2 == 0 then a else b
      {
        assert (s + [k])[i] == s[i];
      }
    }
  }

  /** While all is well, a mutex is in a dictionary exactly when its turn is the closing one. */
  lemma {:induction false} OpenMeansOdd(es: seq<Event>, m: int)
    requires GoodFor(es, m)
    ensures m in Waits(es) <==> |Project(es, m, Wait, Lock)| % 2 == 1
    ensures m in Held(es) <==> |Project(es, m, Lock, Unlock)| % 2 == 1
  {
    if es != [] {
      var front, e := es[..|es| - 1], es[|es| - 1];
      assert es == front + [e];
      hide *;
      GoodForBefore(front, e, m);
      OpenMeansOdd(front, m);
      OddStep(front, e, m);
    }
  }

  lemma GoodForBefore(es: seq<Event>, e: Event, m: int)
    requires GoodFor(es + [e], m)
    ensures GoodFor(es, m)
    ensures e.mutex == m && (e.kind == Wait || e.kind == Lock) ==>
      (e.kind == Lock <==> |Project(es, m, Wait, Lock)| % 2 == 1)
    ensures e.mutex == m && (e.kind == Lock || e.kind == Unlock) ==>
      (e.kind == Unlock <==> |Project(es, m, Lock, Unlock)| % 2 == 1)
  {
    hide Alternates, Project;
    ProjectSnoc(es, e, m, Wait, Lock);
    ProjectSnoc(es, e, m, Lock, Unlock);
    AlternatesSnoc(Project(es, m, Wait, Lock), e.kind, Wait, Lock);
    AlternatesSnoc(Project(es, m, Lock, Unlock), e.kind, Lock, Unlock);
  }

  lemma OddStep(es: seq<Event>, e: Event, m: int)
    requires m in Waits(es) <==> |Project(es, m, Wait, Lock)| % 2 == 1
    requires m in Held(es) <==> |Project(es, m, Lock, Unlock)| % 2 == 1
    requires e.mutex == m && (e.kind == Wait || e.kind == Lock) ==>
      (e.kind == Lock <==> |Project(es, m, Wait, Lock)| % 2 == 1)
    requires e.mutex == m && (e.kind == Lock || e.kind == Unlock) ==>
      (e.kind == Unlock <==> |Project(es, m, Lock, Unlock)| % 2 == 1)
    ensures m in Waits(es + [e]) <==> |Project(es + [e], m, Wait, Lock)| % 2 == 1
    ensures m in Held(es + [e]) <==> |Project(es + [e], m, Lock, Unlock)| % 2 == 1
  {
    hide *;
    DictSnoc(es, e);
    ProjectSnoc(es, e, m, Wait, Lock);
    ProjectSnoc(es, e, m, Lock, Unlock);
  }

  /** What the source checks before it takes an event over. */
  predicate Allowed(es: seq<Event>, e: Event) {
    match e.kind
    case Wait => e.mutex !in Waits(es)
    case Lock => e.mutex in Waits(es) && e.mutex !in Held(es)
    case Unlock => e.mutex in Held(es)
    case Other => true
  }

  /** The checks let an event pass exactly when the trace stays alternating. */
  lemma ChecksAreExact(es: seq<Event>, e: Event)
    requires Good(es)
    ensures Allowed(es, e) <==> Good(es + [e])
  {
    hide Waits, Held, Alternates, Project;
    var m := e.mutex;
    assert GoodFor(es, m);
    OpenMeansOdd(es, m);
    ProjectSnoc(es, e, m, Wait, Lock);
    ProjectSnoc(es, e, m, Lock, Unlock);
    AlternatesSnoc(Project(es, m, Wait, Lock), e.kind, Wait, Lock);
    AlternatesSnoc(Project(es, m, Lock, Unlock), e.kind, Lock, Unlock);
    assert Allowed(es, e) <==> GoodFor(es + [e], m);
    forall n | n != m
      ensures GoodFor(es + [e], n)
    {
      assert GoodFor(es, n);
      ProjectSnoc(es, e, n, Wait, Lock);
      ProjectSnoc(es, e, n, Lock, Unlock);
    }
  }

  lemma {:induction false} GoodPrefix(a: seq<Event>, b: seq<Event>)
    requires Good(a + b)
    ensures Good(a)
  {
    if b == [] {
      assert a + b == a;
    } else {
      var front, e := b[..|b| - 1], b[|b| - 1];
      assert a + b == (a + front) + [e];
      forall m
        ensures GoodFor(a + front, m)
      {
        assert GoodFor(a + b, m);
        ProjectSnoc(a + front, e, m, Wait, Lock);
        ProjectSnoc(a + front, e, m, Lock, Unlock);
        AlternatesSnoc(Project(a + front, m, Wait, Lock), e.kind, Wait, Lock);
        AlternatesSnoc(Project(a + front, m, Lock, Unlock), e.kind, Lock, Unlock);
      }
      GoodPrefix(a, front);
    }
  }

  lemma NoKeys<V>(m: map<int, V>)
    ensures m == map[] <==> forall k :: k !in m
  {
    if m.Keys != {} {
      var k := Pick(m.Keys);
      assert k in m;
    } else {
      assert m == map[];
    }
  }

  /** At the end, accepted means both dictionaries are empty. */
  lemma AcceptedWhenEmpty(es: seq<Event>)
    requires Good(es)
    ensures Accepted(es) <==> Waits(es) == map[] && Held(es) == map[]
  {
    hide Waits, Held, Project, Alternates;
    forall m
      ensures m in Waits(es) <==> |Project(es, m, Wait, Lock)| % 2 == 1
      ensures m in Held(es) <==> |Project(es, m, Lock, Unlock)| % 2 == 1
    {
      assert GoodFor(es, m);
      OpenMeansOdd(es, m);
    }
    NoKeys(Waits(es));
    NoKeys(Held(es));
  }

  // ------------------------------------------- what the spans of a mutex are

  /** The times of one kind of event on one mutex. */
  function Times(es: seq<Event>, m: int, k: Kind): seq<int> {
    if es == [] then []
    else
      var e := es[|es| - 1];
      var front := Times(es[..|es| - 1], m, k);
      if e.mutex == m && e.kind == k then front + [e.timestamp] else front
  }

  lemma TimesSnoc(es: seq<Event>, e: Event, m: int, k: Kind)
    ensures Times(es + [e], m, k) == if e.mutex == m && e.kind == k then Times(es, m, k) + [e.timestamp] else Times(es, m, k)
  {
    assert (es + [e])[..|es|] == es;
  }

  /** Starts and ends pair up in order; one more start belongs to what is open. */
  ghost predicate Paired(spans: seq<Span>, open: map<int, int>, m: int, starts: seq<int>, ends: seq<int>) {
    && |spans| == |ends| && |starts| == |ends| + (if m in open then 1 else 0)
    && (forall i :: 0 <= i < |spans| ==> spans[i] == Span(starts[i], ends[i]))
    && (m in open ==> open[m] == starts[|ends|])
  }

  lemma PairedHolds(es: seq<Event>, e: Event, m: int)
    requires Allowed(es, e)
    requires Paired(Get(HoldSpans(es), m), Held(es), m, Times(es, m, Lock), Times(es, m, Unlock))
    ensures var r := es + [e];
            Paired(Get(HoldSpans(r), m), Held(r), m, Times(r, m, Lock), Times(r, m, Unlock))
  {
    hide Times, Held, Waits, HoldSpans, WaitSpans;
    DictSnoc(es, e);
    SpanSnoc(es, e);
    TimesSnoc(es, e, m, Lock);
    TimesSnoc(es, e, m, Unlock);
  }

  lemma PairedWaits(es: seq<Event>, e: Event, m: int)
    requires Allowed(es, e)
    requires Paired(Get(WaitSpans(es), m), Waits(es), m, Times(es, m, Wait), Times(es, m, Lock))
    ensures var r := es + [e];
            Paired(Get(WaitSpans(r), m), Waits(r), m, Times(r, m, Wait), Times(r, m, Lock))
  {
    hide Times, Held, Waits, HoldSpans, WaitSpans;
    DictSnoc(es, e);
    SpanSnoc(es, e);
    TimesSnoc(es, e, m, Wait);
    TimesSnoc(es, e, m, Lock);
  }

  /** The i-th hold of a mutex runs from its i-th lock to its i-th unlock, the i-th wait from its
      i-th wait event to its i-th lock. */
  lemma {:induction false} SpansArePairs(es: seq<Event>, m: int)
    requires Good(es)
    ensures Paired(Get(HoldSpans(es), m), Held(es), m, Times(es, m, Lock), Times(es, m, Unlock))
    ensures Paired(Get(WaitSpans(es), m), Waits(es), m, Times(es, m, Wait), Times(es, m, Lock))
  {
    if es != [] {
      var front, e := es[..|es| - 1], es[|es| - 1];
      assert es == front + [e];
      hide *;
      GoodPrefix(front, [e]);
      ChecksAreExact(front, e);
      SpansArePairs(front, m);
      PairedHolds(front, e, m);
      PairedWaits(front, e, m);
    }
  }

  // -------------------------------------------------- merged and per mutex

  /** Events as the query delivers them. */
  ghost predicate InTime(es: seq<Event>) {
    forall i, j :: 0 <= i < j < |es| ==> es[i].timestamp <= es[j].timestamp
  }

  ghost predicate Within(v: Span, t: int) {
    v.start <= t < v.end
  }

  ghost predicate Covers(spans: seq<Span>, t: int) {
    exists i :: 0 <= i < |spans| && Within(spans[i], t)
  }

  /** Some completed hold of some mutex covers t. */
  ghost predicate SomeHold(es: seq<Event>, t: int) {
    exists m :: Covers(Get(HoldSpans(es), m), t)
  }

  /** Some merged interval covers t, the one under way taken as endless. */
  ghost predicate MergedAt(es: seq<Event>, t: int) {
    Covers(Merged(es), t) || (Since(es).Some? && Since(es).value <= t)
  }

  /** Some mutex is held at t, those under way taken as endless. */
  ghost predicate HeldAt(es: seq<Event>, t: int) {
    exists m :: MutexAt(es, m, t)
  }

  ghost predicate MutexAt(es: seq<Event>, m: int, t: int) {
    Covers(Get(HoldSpans(es), m), t) || (m in Held(es) && Held(es)[m] <= t)
  }

  /** Everything recorded lies before now, and a merged interval is under way exactly while some
      lock is held. */
  ghost predicate Settled(es: seq<Event>, now: int) {
    && (Since(es).Some? <==> Held(es) != map[])
    && (Since(es).Some? ==> Since(es).value <= now)
    && (forall m :: m in Held(es) ==> Held(es)[m] <= now)
    && (forall i :: 0 <= i < |Merged(es)| ==> Merged(es)[i].start <= Merged(es)[i].end <= now)
    && (forall m :: m in HoldSpans(es) ==> forall i :: 0 <= i < |HoldSpans(es)[m]| ==> HoldSpans(es)[m][i].end <= now)
    && (forall i, j :: 0 <= i < j < |Merged(es)| ==> Merged(es)[i].end <= Merged(es)[j].start)
    && (Since(es).Some? ==> forall i :: 0 <= i < |Merged(es)| ==> Merged(es)[i].end <= Since(es).value)
  }

  lemma SettledStep(es: seq<Event>, e: Event, now: int)
    requires Settled(es, now) && now <= e.timestamp && Allowed(es, e)
    ensures Settled(es + [e], e.timestamp)
  {
    hide Held, Waits, HoldSpans, WaitSpans, Since, Merged;
    DictSnoc(es, e);
    SpanSnoc(es, e);
    MergeSnoc(es, e);
  }

  lemma NoEvents(now: int)
    ensures Settled([], now)
  {
  }

  lemma InTimeFront(es: seq<Event>, e: Event)
    requires InTime(es + [e])
    ensures InTime(es) && (es != [] ==> es[|es| - 1].timestamp <= e.timestamp)
  {
    var r := es + [e];
    assert forall i, j :: 0 <= i < j < |es| ==> r[i] == es[i] && r[j] == es[j];
    assert es != [] ==> r[|es| - 1].timestamp <= r[|es|].timestamp;
  }

  /** The last event of a good beginning in time order is an allowed one behind such a beginning. */
  lemma LastEvent(es: seq<Event>, e: Event)
    requires Good(es + [e]) && InTime(es + [e])
    ensures Good(es) && Allowed(es, e)
    ensures InTime(es) && (es != [] ==> es[|es| - 1].timestamp <= e.timestamp)
  {
    hide *;
    GoodPrefix(es, [e]);
    ChecksAreExact(es, e);
    InTimeFront(es, e);
  }

  /** For an accepted beginning in time order, the merged intervals are in order, do not overlap,
      and one is under way exactly while a lock is held. */
  lemma {:induction false} MergedIsSettled(es: seq<Event>, now: int)
    requires Good(es) && InTime(es) && (es != [] ==> es[|es| - 1].timestamp <= now)
    ensures Settled(es, now)
  {
    hide *;
    if es != [] {
      var front, e := es[..|es| - 1], es[|es| - 1];
      assert es == front + [e];
      LastEvent(front, e);
      MergedIsSettled(front, e.timestamp);
      SettledStep(front, e, e.timestamp);
      SettledLater(es, e.timestamp, now);
    } else {
      NoEvents(now);
    }
  }

  lemma SettledLater(es: seq<Event>, now: int, later: int)
    requires Settled(es, now) && now <= later
    ensures Settled(es, later)
  {
    hide Held, Waits, HoldSpans, WaitSpans, Since, Merged;
  }

  // ------------------------------------------------------------ coverage

  /** Taking a lock covers, from now on, whatever was not covered. */
  lemma LockCovers(es: seq<Event>, e: Event, t: int)
    requires Settled(es, e.timestamp) && Allowed(es, e) && e.kind == Lock
    ensures MergedAt(es + [e], t) <==> MergedAt(es, t) || e.timestamp <= t
    ensures HeldAt(es + [e], t) <==> HeldAt(es, t) || e.timestamp <= t
  {
    var r := es + [e];
    hide Held, Waits, HoldSpans, WaitSpans, Since, Merged;
    DictSnoc(es, e);
    SpanSnoc(es, e);
    MergeSnoc(es, e);
    forall m
      ensures MutexAt(r, m, t) <==> MutexAt(es, m, t) || (m == e.mutex && e.timestamp <= t)
    {
    }
    hide MutexAt;
    assert HeldAt(es, t) ==> exists m :: MutexAt(r, m, t);
    assert e.timestamp <= t ==> MutexAt(r, e.mutex, t);
  }

  /** Before an unlock nothing changes; after it the others still count, if there are any. */
  lemma UnlockMerged(es: seq<Event>, e: Event, t: int)
    requires Settled(es, e.timestamp) && Allowed(es, e) && e.kind == Unlock
    ensures MergedAt(es + [e], t) <==> MergedAt(es, t) && (t < e.timestamp || Held(es + [e]) != map[])
  {
    var r := es + [e];
    hide Held, Waits, HoldSpans, WaitSpans, Since, Merged;
    DictSnoc(es, e);
    MergeSnoc(es, e);
    if Held(r) == map[] {
      var v := Span(Since(es).value, e.timestamp);
      assert Merged(r) == Merged(es) + [v];
      assert Merged(r)[|Merged(es)|] == v;
      assert forall i :: 0 <= i < |Merged(es)| ==> Merged(r)[i] == Merged(es)[i];
    } else {
      assert Since(r) == Since(es) && Merged(r) == Merged(es);
    }
  }

  lemma UnlockHeld(es: seq<Event>, e: Event, t: int)
    requires Settled(es, e.timestamp) && Allowed(es, e) && e.kind == Unlock
    ensures HeldAt(es + [e], t) <==> HeldAt(es, t) && (t < e.timestamp || Held(es + [e]) != map[])
  {
    var r := es + [e];
    hide Held, Waits, HoldSpans, WaitSpans, Since, Merged;
    DictSnoc(es, e);
    SpanSnoc(es, e);
    forall m
      ensures t < e.timestamp ==> (MutexAt(r, m, t) <==> MutexAt(es, m, t))
      ensures t >= e.timestamp ==> (MutexAt(r, m, t) <==> m in Held(r))
    {
      UnlockOne(es, e, t, m);
    }
    assert t >= e.timestamp ==> MutexAt(es, e.mutex, t);
    NoKeys(Held(r));
    hide MutexAt;
    if t < e.timestamp {
      assert HeldAt(es, t) ==> exists m :: MutexAt(r, m, t);
    } else if m :| m in Held(r) {
      assert MutexAt(r, m, t);
    }
  }

  lemma UnlockOne(es: seq<Event>, e: Event, t: int, m: int)
    requires Settled(es, e.timestamp) && Allowed(es, e) && e.kind == Unlock
    ensures var r := es + [e];
            && (t < e.timestamp ==> (MutexAt(r, m, t) <==> MutexAt(es, m, t)))
            && (t >= e.timestamp ==> (MutexAt(r, m, t) <==> m in Held(r)))
  {
    var r := es + [e];
    hide Held, Waits, HoldSpans, WaitSpans, Since, Merged;
    DictSnoc(es, e);
    SpanSnoc(es, e);
    var was, now := Get(HoldSpans(es), m), Get(HoldSpans(r), m);
    if m == e.mutex {
      var v := Span(Held(es)[m], e.timestamp);
      assert now == was + [v];
      assert now[|was|] == v;
      assert forall i :: 0 <= i < |was| ==> now[i] == was[i];
    } else {
      assert now == was;
    }
  }

  /** A time lies in a merged interval exactly when some mutex is held then. */
  lemma {:induction false} CoverageWhileOpen(es: seq<Event>, t: int)
    requires Good(es) && InTime(es)
    ensures MergedAt(es, t) <==> HeldAt(es, t)
  {
    if es != [] {
      var front, e := es[..|es| - 1], es[|es| - 1];
      assert es == front + [e];
      hide *;
      LastEvent(front, e);
      CoverageWhileOpen(front, t);
      MergedIsSettled(front, e.timestamp);
      EventCovers(front, e, t);
    }
  }

  /** One event more covers the same times either way. */
  lemma EventCovers(es: seq<Event>, e: Event, t: int)
    requires Settled(es, e.timestamp) && Allowed(es, e)
    requires MergedAt(es, t) <==> HeldAt(es, t)
    ensures MergedAt(es + [e], t) <==> HeldAt(es + [e], t)
  {
    hide *;
    match e.kind {
      case Lock => LockCovers(es, e, t);
      case Unlock =>
        UnlockMerged(es, e, t);
        UnlockHeld(es, e, t);
      case _ => NothingCovers(es, e, t);
    }
  }

  lemma NothingCovers(es: seq<Event>, e: Event, t: int)
    requires e.kind == Wait || e.kind == Other
    ensures MergedAt(es + [e], t) <==> MergedAt(es, t)
    ensures HeldAt(es + [e], t) <==> HeldAt(es, t)
  {
    hide Held, Waits, HoldSpans, WaitSpans, Since, Merged;
    DictSnoc(es, e);
    SpanSnoc(es, e);
    MergeSnoc(es, e);
    assert forall m :: MutexAt(es + [e], m, t) <==> MutexAt(es, m, t);
  }

  /** For an accepted trace in time order the merged intervals are in order, do not overlap, and
      cover exactly what the hold times of all mutexes cover. */
  lemma MergedIsUnion(es: seq<Event>)
    requires Accepted(es) && InTime(es)
    ensures forall i, j :: 0 <= i < j < |Merged(es)| ==> Merged(es)[i].end <= Merged(es)[j].start
    ensures forall i :: 0 <= i < |Merged(es)| ==> Merged(es)[i].start <= Merged(es)[i].end
    ensures forall t :: Covers(Merged(es), t) <==> SomeHold(es, t)
  {
    hide *;
    AcceptedWhenEmpty2(es);
    var now := if es == [] then 0 else es[|es| - 1].timestamp;
    MergedIsSettled(es, now);
    OpenSettled(es, now);
    forall t
      ensures Covers(Merged(es), t) <==> SomeHold(es, t)
    {
      CoverageWhileOpen(es, t);
      CoveredAtEnd(es, t, now);
    }
  }

  lemma OpenSettled(es: seq<Event>, now: int)
    requires Settled(es, now)
    ensures forall i, j :: 0 <= i < j < |Merged(es)| ==> Merged(es)[i].end <= Merged(es)[j].start
    ensures forall i :: 0 <= i < |Merged(es)| ==> Merged(es)[i].start <= Merged(es)[i].end
  {
  }

  lemma CoveredAtEnd(es: seq<Event>, t: int, now: int)
    requires Held(es) == map[] && Settled(es, now)
    ensures MergedAt(es, t) <==> Covers(Merged(es), t)
    ensures HeldAt(es, t) <==> SomeHold(es, t)
  {
    hide Held, HoldSpans, Since, Merged, Covers;
    forall m
      ensures MutexAt(es, m, t) <==> Covers(Get(HoldSpans(es), m), t)
    {
    }
    if m :| MutexAt(es, m, t) {
      assert Covers(Get(HoldSpans(es), m), t);
    }
    if m :| Covers(Get(HoldSpans(es), m), t) {
      assert MutexAt(es, m, t);
    }
  }

  // --------------------------------------------------------------- totals

  function Length(spans: seq<Span>): int {
    if spans == [] then 0 else Length(spans[..|spans| - 1]) + spans[|spans| - 1].end - spans[|spans| - 1].start
  }

  lemma LengthSnoc(spans: seq<Span>, v: Span)
    ensures Length(spans + [v]) == Length(spans) + v.end - v.start
  {
    assert (spans + [v])[..|spans|] == spans;
  }

  ghost function Lengths(spans: map<int, seq<Span>>): map<int, int> {
    map m | m in spans :: Length(spans[m])
  }

  /** What is reported: the hold times of all mutexes added up. */
  ghost function TotalHeld(es: seq<Event>): int {
    Sum(Lengths(HoldSpans(es)))
  }

  /** Time for which locks beyond the first were held, counted once for each of them. */
  function Excess(es: seq<Event>): int {
    if |es| < 2 then 0
    else
      var front, e := es[..|es| - 1], es[|es| - 1];
      Excess(front) + (e.timestamp - front[|front| - 1].timestamp) * if |Held(front)| > 1 then |Held(front)| - 1 else 0
  }

  lemma ExcessSnoc(es: seq<Event>, e: Event)
    ensures Excess(es + [e])
            == if es == [] then 0
               else Excess(es) + (e.timestamp - es[|es| - 1].timestamp) * if |Held(es)| > 1 then |Held(es)| - 1 else 0
  {
    hide Held;
    assert (es + [e])[..|es|] == es;
  }

  /** The reported time and the merged time as they stand now, with what is under way. */
  ghost function HeldSoFar(es: seq<Event>, now: int): int {
    TotalHeld(es) + |Held(es)| * now - Sum(Held(es))
  }

  ghost function MergedSoFar(es: seq<Event>, now: int): int {
    Length(Merged(es)) + if Since(es).Some? then now - Since(es).value else 0
  }

  lemma HeldAdvances(es: seq<Event>, now: int, later: int)
    ensures HeldSoFar(es, later) == HeldSoFar(es, now) + (later - now) * |Held(es)|
  {
    hide Held;
    var n := |Held(es)|;
    assert n * later == n * now + (later - now) * n;
  }

  lemma TotalExtends(es: seq<Event>, e: Event)
    ensures TotalHeld(es + [e])
            == TotalHeld(es)
               + if e.kind == Unlock && e.mutex in Held(es) then e.timestamp - Held(es)[e.mutex] else 0
  {
    hide Held, HoldSpans;
    SpanSnoc(es, e);
    ExtendLengths(HoldSpans(es), Held(es), e.mutex, e.timestamp);
  }

  lemma LengthNone()
    ensures Length([]) == 0
  {
  }

  /** An event changes neither total at its own instant. */
  lemma EventKeepsTotals(es: seq<Event>, e: Event)
    requires Allowed(es, e) && Settled(es, e.timestamp)
    ensures HeldSoFar(es + [e], e.timestamp) == HeldSoFar(es, e.timestamp)
    ensures MergedSoFar(es + [e], e.timestamp) == MergedSoFar(es, e.timestamp)
  {
    HeldKept(es, e);
    MergedKept(es, e);
  }

  lemma HeldKept(es: seq<Event>, e: Event)
    requires Allowed(es, e)
    ensures HeldSoFar(es + [e], e.timestamp) == HeldSoFar(es, e.timestamp)
  {
    hide Held, TotalHeld, Waits;
    var t, m, n := e.timestamp, e.mutex, |Held(es)|;
    DictSnoc(es, e);
    TotalExtends(es, e);
    match e.kind {
      case Lock =>
        SumSet(Held(es), m, t);
        SizeSet(Held(es), m, t);
        assert (n + 1) * t == n * t + t;
      case Unlock =>
        SumDrop(Held(es), m);
        SizeDrop(Held(es), m);
        assert (n - 1) * t == n * t - t;
      case _ =>
    }
  }

  lemma MergedKept(es: seq<Event>, e: Event)
    requires Allowed(es, e) && Settled(es, e.timestamp)
    ensures MergedSoFar(es + [e], e.timestamp) == MergedSoFar(es, e.timestamp)
  {
    hide Held, Waits, HoldSpans, WaitSpans, Since, Merged, Length;
    DictSnoc(es, e);
    MergeSnoc(es, e);
    if e.kind == Unlock && Since(es).Some? {
      LengthSnoc(Merged(es), Span(Since(es).value, e.timestamp));
    }
  }

  /** At every event the reported time is the merged time and the excess. */
  lemma {:induction false} TotalsSoFar(es: seq<Event>)
    requires Good(es) && InTime(es) && es != []
    ensures var now := es[|es| - 1].timestamp;
            HeldSoFar(es, now) == MergedSoFar(es, now) + Excess(es)
  {
    hide *;
    var front, e := es[..|es| - 1], es[|es| - 1];
    assert es == front + [e];
    LastEvent(front, e);
    MergedIsSettled(front, e.timestamp);
    if front == [] {
      NothingHeld(e.timestamp);
    } else {
      TotalsSoFar(front);
      TotalsAdvance(front, e.timestamp);
    }
    ExcessSnoc(front, e);
    EventKeepsTotals(front, e);
  }

  /** Up to the next event, the totals grow apart by the excess of the time that passes. */
  lemma TotalsAdvance(es: seq<Event>, now: int)
    requires es != [] && Settled(es, now)
    ensures var was := es[|es| - 1].timestamp;
            HeldSoFar(es, now) - MergedSoFar(es, now)
            == HeldSoFar(es, was) - MergedSoFar(es, was) + (now - was) * if |Held(es)| > 1 then |Held(es)| - 1 else 0
  {
    hide *;
    var was := es[|es| - 1].timestamp;
    HeldAdvances(es, was, now);
    MergedAdvances(es, was, now, now);
    Beyond(now - was, |Held(es)|);
  }

  lemma MergedAdvances(es: seq<Event>, now: int, later: int, end: int)
    requires Settled(es, end)
    ensures MergedSoFar(es, later) == MergedSoFar(es, now) + if |Held(es)| > 0 then later - now else 0
  {
    hide Held, Merged, HoldSpans, Since, Length;
    EmptySize(Held(es));
  }

  lemma Beyond(time: int, n: nat)
    ensures time * n == (if n > 0 then time else 0) + time * if n > 1 then n - 1 else 0
  {
    assert n > 0 ==> time * n == time + time * (n - 1);
  }

  lemma EmptySize(m: map<int, int>)
    ensures |m| == 0 <==> m == map[]
  {
  }

  lemma NothingHeld(now: int)
    ensures HeldSoFar([], now) == 0 && MergedSoFar([], now) == 0
  {
    assert Lengths(map[]) == map[];
    SumNone();
  }

  /** For an accepted trace in time order the reported time, the sum over the mutexes, is the merged
      time and the excess; so it is never less. */
  lemma ReportedIsMergedPlusExcess(es: seq<Event>)
    requires Accepted(es) && InTime(es)
    ensures TotalHeld(es) == Length(Merged(es)) + Excess(es)
    ensures Length(Merged(es)) <= TotalHeld(es)
  {
    hide *;
    ExcessNotNegative(es);
    AcceptedWhenEmpty2(es);
    NothingOpen(es, if es == [] then 0 else es[|es| - 1].timestamp);
    if es != [] {
      MergedIsSettled(es, es[|es| - 1].timestamp);
      TotalsSoFar(es);
    } else {
      NothingHeld(0);
      NoEvents(0);
      NoExcessYet();
    }
  }

  lemma NoExcessYet()
    ensures Excess([]) == 0 && NeverTwo([])
  {
  }

  lemma AcceptedWhenEmpty2(es: seq<Event>)
    requires Accepted(es)
    ensures Good(es) && Waits(es) == map[] && Held(es) == map[]
  {
    hide Good, Held, Waits;
    AcceptedWhenEmpty(es);
  }

  /** With nothing held, what is reported so far is the report. */
  lemma NothingOpen(es: seq<Event>, now: int)
    requires Held(es) == map[]
    ensures HeldSoFar(es, now) == TotalHeld(es)
    ensures Settled(es, now) ==> MergedSoFar(es, now) == Length(Merged(es))
  {
    hide Held, TotalHeld, Length, Merged, Since;
    SumNone();
  }

  lemma {:induction false} ExcessNotNegative(es: seq<Event>)
    requires InTime(es)
    ensures Excess(es) >= 0
  {
    if es != [] {
      var front, e := es[..|es| - 1], es[|es| - 1];
      assert es == front + [e];
      ExcessNotNegative(front);
      hide Held, Excess;
      ExcessSnoc(front, e);
      if front != [] {
        Positive(e.timestamp - front[|front| - 1].timestamp, |Held(front)|);
      }
    }
  }

  /** If time passes before event i, at most one lock is held during it. */
  ghost predicate AtMostOne(es: seq<Event>, i: nat)
    requires 0 < i < |es|
  {
    es[i - 1].timestamp < es[i].timestamp ==> |Held(es[..i])| <= 1
  }

  ghost predicate NeverTwo(es: seq<Event>) {
    forall i: nat :: 0 < i < |es| ==> AtMostOne(es, i)
  }

  /** The label says "holding at least one lock", which is the merged time. What is printed next
      to it is that time exactly when two locks were never held together for any time. */
  lemma LabelHoldsExactly(es: seq<Event>)
    requires Accepted(es) && InTime(es)
    ensures TotalHeld(es) == Length(Merged(es)) <==> NeverTwo(es)
  {
    ReportedIsMergedPlusExcess(es);
    NoExcess(es);
  }

  lemma SameBefore(es: seq<Event>, e: Event, i: nat)
    requires 0 < i < |es|
    ensures AtMostOne(es + [e], i) <==> AtMostOne(es, i)
  {
    assert (es + [e])[..i] == es[..i];
  }

  lemma NeverTwoSnoc(es: seq<Event>, e: Event)
    ensures NeverTwo(es + [e])
            <==> NeverTwo(es) && (es == [] || es[|es| - 1].timestamp >= e.timestamp || |Held(es)| <= 1)
  {
    if es != [] {
      assert (es + [e])[..|es|] == es;
      assert AtMostOne(es + [e], |es|) <==> es[|es| - 1].timestamp >= e.timestamp || |Held(es)| <= 1;
      hide AtMostOne, Held;
      forall i: nat | 0 < i < |es|
        ensures AtMostOne(es + [e], i) <==> AtMostOne(es, i)
      {
        SameBefore(es, e, i);
      }
    }
  }

  lemma {:induction false} NoExcess(es: seq<Event>)
    requires InTime(es)
    ensures Excess(es) == 0 <==> NeverTwo(es)
  {
    hide *;
    NoExcessYet();
    if es != [] {
      var front, e := es[..|es| - 1], es[|es| - 1];
      assert es == front + [e];
      InTimeFront(front, e);
      NoExcess(front);
      ExcessNotNegative(front);
      ExcessSnoc(front, e);
      NeverTwoSnoc(front, e);
      if front != [] {
        Positive(e.timestamp - front[|front| - 1].timestamp, |Held(front)|);
      }
    }
  }

  lemma Positive(time: nat, n: nat)
    ensures (time * if n > 1 then n - 1 else 0) >= 0
    ensures (time * if n > 1 then n - 1 else 0) == 0 <==> time == 0 || n <= 1
  {
  }

  // --------------------------------------------------------- waiting times

  /** All waits, in the order in which they ended. */
  function WaitList(es: seq<Event>): seq<Span> {
    if es == [] then []
    else
      var e, front := es[|es| - 1], es[..|es| - 1];
      if e.kind == Lock && e.mutex in Waits(front)
      then WaitList(front) + [Span(Waits(front)[e.mutex], e.timestamp)] else WaitList(front)
  }

  lemma WaitListSnoc(es: seq<Event>, e: Event)
    ensures WaitList(es + [e]) == if e.kind == Lock && e.mutex in Waits(es)
                                  then WaitList(es) + [Span(Waits(es)[e.mutex], e.timestamp)] else WaitList(es)
  {
    assert (es + [e])[..|es|] == es;
  }

  lemma ExtendLengths(spans: map<int, seq<Span>>, open: map<int, int>, m: int, now: int)
    ensures Sum(Lengths(Extend(spans, open, m, now))) == Sum(Lengths(spans)) + if m in open then now - open[m] else 0
  {
    hide Length;
    if m in open {
      var v := Span(open[m], now);
      LengthSnoc(Get(spans, m), v);
      LengthNone();
      SumSet(Lengths(spans), m, Length(Get(spans, m) + [v]));
      assert Lengths(Extend(spans, open, m, now)) == Lengths(spans)[m := Length(Get(spans, m) + [v])];
    }
  }

  /** The list and the lists per mutex add up to the same waiting time. */
  lemma {:induction false} WaitsAddUp(es: seq<Event>)
    ensures Length(WaitList(es)) == Sum(Lengths(WaitSpans(es)))
  {
    if es == [] {
      assert Lengths(map[]) == map[];
      SumNone();
    } else {
      var front, e := es[..|es| - 1], es[|es| - 1];
      assert es == front + [e];
      hide *;
      WaitsAddUp(front);
      WaitListSnoc(front, e);
      SpanSnoc(front, e);
      ExtendLengths(WaitSpans(front), Waits(front), e.mutex, e.timestamp);
      if e.kind == Lock && e.mutex in Waits(front) {
        LengthSnoc(WaitList(front), Span(Waits(front)[e.mutex], e.timestamp));
      }
    }
  }

  // --------------------------------------------------------- the program

  datatype Error = AlreadyWaiting(mutex: int) | LockWithoutWait(mutex: int) | AlreadyHeld(mutex: int)
                 | UnlockNotHeld(mutex: int) | StillWaiting(mutexes: set<int>) | StillHeld(mutexes: set<int>)

  class LockAnalysis {
    var lockCount: int
    var lockIntervals: seq<Span>
    var lockStartTime: Option<int>
    var waitStartTimes: map<int, int>
    var lockStartTimes: map<int, int>
    var waitIntervals: seq<Span>
    var waitIntervalsPerMutex: map<int, seq<Span>>
    var lockIntervalsPerMutex: map<int, seq<Span>>
    ghost var seen: seq<Event>

    /** The fields are what the events taken over amount to; the counter is the number of mutexes
        held. */
    ghost predicate Valid()
      reads this
    {
      && Good(seen)
      && lockCount == |lockStartTimes|
      && waitStartTimes == Waits(seen) && lockStartTimes == Held(seen)
      && waitIntervals == WaitList(seen)
      && waitIntervalsPerMutex == WaitSpans(seen) && lockIntervalsPerMutex == HoldSpans(seen)
      && lockStartTime == Since(seen) && lockIntervals == Merged(seen)
    }

    constructor ()
      ensures Valid() && seen == []
    {
      lockCount, lockIntervals, lockStartTime, waitIntervals := 0, [], None, [];
      waitStartTimes, lockStartTimes, waitIntervalsPerMutex, lockIntervalsPerMutex := map[], map[], map[], map[];
      seen := [];
    }

    /** One event: taken over exactly when the trace stays alternating. */
    method Handle(e: Event) returns (error: Option<Error>)
      requires Valid()
      modifies this
      ensures error.None? <==> Good(old(seen) + [e])
      ensures error.None? ==> Valid() && seen == old(seen) + [e]
      ensures error.Some? ==> error.value == match e.kind
                                             case Wait => AlreadyWaiting(e.mutex)
                                             case Unlock => UnlockNotHeld(e.mutex)
                                             case _ => if e.mutex in Waits(old(seen)) then AlreadyHeld(e.mutex)
                                                       else LockWithoutWait(e.mutex)
    {
      hide Good;
      ChecksAreExact(seen, e);
      match e.kind
      case Wait => error := OnWait(e);
      case Lock => error := OnLock(e);
      case Unlock => error := OnUnlock(e);
      case Other =>
        hide Waits, Held, WaitList, WaitSpans, HoldSpans, Since, Merged;
        DictSnoc(seen, e);
        SpanSnoc(seen, e);
        MergeSnoc(seen, e);
        WaitListSnoc(seen, e);
        seen := seen + [e];
        error := None;
    }

    method OnWait(e: Event) returns (error: Option<Error>)
      requires Valid() && e.kind == Wait && (Allowed(seen, e) <==> Good(seen + [e]))
      modifies this
      ensures error.None? <==> Allowed(old(seen), e)
      ensures error.None? ==> Valid() && seen == old(seen) + [e]
      ensures error.Some? ==> error.value == AlreadyWaiting(e.mutex)
    {
      hide Good, Waits, Held, WaitList, WaitSpans, HoldSpans, Since, Merged;
      DictSnoc(seen, e);
      SpanSnoc(seen, e);
      MergeSnoc(seen, e);
      WaitListSnoc(seen, e);
      if e.mutex in waitStartTimes {
        return Some(AlreadyWaiting(e.mutex));
      }
      waitStartTimes := waitStartTimes[e.mutex := e.timestamp];
      seen := seen + [e];
      return None;
    }

    method OnLock(e: Event) returns (error: Option<Error>)
      requires Valid() && e.kind == Lock && (Allowed(seen, e) <==> Good(seen + [e]))
      modifies this
      ensures error.None? <==> Allowed(old(seen), e)
      ensures error.None? ==> Valid() && seen == old(seen) + [e]
      ensures error.Some? ==> error.value == (if e.mutex in Waits(old(seen)) then AlreadyHeld(e.mutex) else LockWithoutWait(e.mutex))
    {
      hide Good, Waits, Held, WaitList, WaitSpans, HoldSpans, Since, Merged, Extend, Get;
      DictSnoc(seen, e);
      SpanSnoc(seen, e);
      MergeSnoc(seen, e);
      WaitListSnoc(seen, e);
      if e.mutex in waitStartTimes {
        EndWait(e.mutex, e.timestamp);
      } else {
        return Some(LockWithoutWait(e.mutex));
      }
      if e.mutex in lockStartTimes {
        return Some(AlreadyHeld(e.mutex));
      }
      StartHold(e.mutex, e.timestamp);
      seen := seen + [e];
      return None;
    }

    /** The wait is over and recorded. */
    method EndWait(m: int, t: int)
      requires m in waitStartTimes
      modifies `waitStartTimes, `waitIntervals, `waitIntervalsPerMutex
      ensures waitStartTimes == old(waitStartTimes) - {m}
      ensures waitIntervals == old(waitIntervals) + [Span(old(waitStartTimes)[m], t)]
      ensures waitIntervalsPerMutex == Extend(old(waitIntervalsPerMutex), old(waitStartTimes), m, t)
    {
      var v := Span(waitStartTimes[m], t);
      waitStartTimes := waitStartTimes - {m};
      waitIntervals := waitIntervals + [v];
      waitIntervalsPerMutex := waitIntervalsPerMutex[m := Get(waitIntervalsPerMutex, m) + [v]];
    }

    /** The mutex is held; the first one opens a merged interval. */
    method StartHold(m: int, t: int)
      requires lockCount == |lockStartTimes| && m !in lockStartTimes
      modifies `lockCount, `lockStartTime, `lockStartTimes
      ensures lockCount == |lockStartTimes| && lockStartTimes == old(lockStartTimes)[m := t]
      ensures lockStartTime == if old(lockStartTimes) == map[] then Some(t) else old(lockStartTime)
    {
      EmptySize(lockStartTimes);
      SizeSet(lockStartTimes, m, t);
      if lockCount == 0 {
        lockStartTime := Some(t);
      }
      lockCount := lockCount + 1;
      lockStartTimes := lockStartTimes[m := t];
    }

    /** The mutex is free and its hold recorded; the last one closes the merged interval. */
    method EndHold(m: int, t: int)
      requires lockCount == |lockStartTimes| && m in lockStartTimes
      modifies `lockCount, `lockStartTime, `lockStartTimes, `lockIntervals, `lockIntervalsPerMutex
      ensures lockCount == |lockStartTimes| && lockStartTimes == old(lockStartTimes) - {m}
      ensures lockIntervalsPerMutex == Extend(old(lockIntervalsPerMutex), old(lockStartTimes), m, t)
      ensures var last := lockStartTimes == map[];
              && lockIntervals == (if last && old(lockStartTime).Some?
                                   then old(lockIntervals) + [Span(old(lockStartTime).value, t)] else old(lockIntervals))
              && lockStartTime == if last then None else old(lockStartTime)
    {
      SizeDrop(lockStartTimes, m);
      lockCount := lockCount - 1;
      var v := Span(lockStartTimes[m], t);
      lockStartTimes := lockStartTimes - {m};
      EmptySize(lockStartTimes);
      lockIntervalsPerMutex := lockIntervalsPerMutex[m := Get(lockIntervalsPerMutex, m) + [v]];
      if lockCount == 0 && lockStartTime.Some? {
        lockIntervals := lockIntervals + [Span(lockStartTime.value, t)];
        lockStartTime := None;
      }
    }

    method OnUnlock(e: Event) returns (error: Option<Error>)
      requires Valid() && e.kind == Unlock && (Allowed(seen, e) <==> Good(seen + [e]))
      modifies this
      ensures error.None? <==> Allowed(old(seen), e)
      ensures error.None? ==> Valid() && seen == old(seen) + [e]
      ensures error.Some? ==> error.value == UnlockNotHeld(e.mutex)
    {
      hide Good, Waits, Held, WaitList, WaitSpans, HoldSpans, Since, Merged, Extend, Get;
      DictSnoc(seen, e);
      SpanSnoc(seen, e);
      MergeSnoc(seen, e);
      WaitListSnoc(seen, e);
      if e.mutex !in lockStartTimes {
        return Some(UnlockNotHeld(e.mutex));
      }
      EndHold(e.mutex, e.timestamp);
      seen := seen + [e];
      return None;
    }
  }

  datatype Report = Report(lockIntervals: seq<Span>, perMutex: map<int, seq<Span>>, totalWait: int, totalHeld: int)

  datatype Result<T> = Ok(value: T) | Err(error: Error)

  method TotalLength(spans: seq<Span>) returns (total: int)
    ensures total == Length(spans)
  {
    total := 0;
    for i := 0 to |spans|
      invariant total == Length(spans[..i])
    {
      assert spans[..i + 1] == spans[..i] + [spans[i]];
      LengthSnoc(spans[..i], spans[i]);
      total := total + (spans[i].end - spans[i].start);
    }
    assert spans[..|spans|] == spans;
  }

  /** The hold times of all mutexes, in whatever order the dictionary has them. */
  method TotalOfAll(spans: map<int, seq<Span>>) returns (total: int)
    ensures total == Sum(Lengths(spans))
  {
    total := 0;
    var rest := spans;
    while rest.Keys != {}
      invariant total + Sum(Lengths(rest)) == Sum(Lengths(spans))
      decreases |rest|
    {
      ghost var some := Pick(rest.Keys);
      var m :| m in rest;
      var l := TotalLength(rest[m]);
      SumDrop(Lengths(rest), m);
      assert Lengths(rest - {m}) == Lengths(rest) - {m};
      SizeDrop(rest, m);
      total := total + l;
      rest := rest - {m};
    }
    assert Lengths(rest) == map[];
    SumNone();
  }

  /** The analysis accepts exactly the traces in which every mutex is waited for, locked and
      unlocked in turns and nothing is left open; and reports what they amount to. */
  method Analyze(events: seq<Event>) returns (r: Result<Report>)
    ensures r.Ok? <==> Accepted(events)
    ensures r.Err? && Good(events) ==>
      r.error == if Waits(events) != map[] then StillWaiting(Waits(events).Keys) else StillHeld(Held(events).Keys)
    ensures r.Ok? ==> r.value.lockIntervals == Merged(events) && r.value.perMutex == HoldSpans(events)
    ensures r.Ok? ==> r.value.totalWait == Sum(Lengths(WaitSpans(events))) && r.value.totalHeld == TotalHeld(events)
  {
    hide Good, Waits, Held, WaitList, WaitSpans, HoldSpans, Since, Merged;
    var a := new LockAnalysis();
    for i := 0 to |events|
      invariant fresh(a) && a.Valid() && a.seen == events[..i]
    {
      assert events[..i + 1] == events[..i] + [events[i]];
      var error := a.Handle(events[i]);
      if error.Some? {
        NotAccepted(events, i + 1);
        return Err(error.value);
      }
    }
    assert events[..|events|] == events;
    AcceptedWhenEmpty(events);
    NoKeys(a.waitStartTimes);
    if a.waitStartTimes.Keys != {} {
      return Err(StillWaiting(a.waitStartTimes.Keys));
    }
    if a.lockStartTimes.Keys != {} {
      return Err(StillHeld(a.lockStartTimes.Keys));
    }
    WaitsAddUp(events);
    var totalWait := TotalLength(a.waitIntervals);
    var totalHeld := TotalOfAll(a.lockIntervalsPerMutex);
    r := Ok(Report(a.lockIntervals, a.lockIntervalsPerMutex, totalWait, totalHeld));
  }

  lemma NotAccepted(events: seq<Event>, i: nat)
    requires i <= |events| && !Good(events[..i])
    ensures !Accepted(events) && !Good(events)
  {
    hide GoodFor;
    if Good(events) {
      assert events == events[..i] + events[i..];
      GoodPrefix(events[..i], events[i..]);
    }
  }
}
