/** The per-CPU single-producer single-consumer ring: the poller enqueues, the logger drains.
    First the two operations as code, then their interleaving, load by load and store by store. */
module RingBuffer {
  import opened ByteStrings

  // -------------------------------------------------- positions on the ring

  /** Steps from position a forward to position b on a ring of n slots. */
  function Dist(n: nat, a: nat, b: nat): int {
    if a <= b then b - a else b + n - a
  }

  /** The position i steps after a. */
  function At(n: nat, a: nat, i: nat): nat {
    if a + i < n then a + i else a + i - n
  }

  function Next(n: nat, a: nat): nat
    requires n > 0
  {
    (a + 1) % n
  }

  /** The entries from head to tail. */
  function Window<T>(slots: seq<T>, head: nat, tail: nat): (w: seq<T>)
    requires head < |slots| && tail < |slots|
    ensures |w| == Dist(|slots|, head, tail)
    ensures forall i :: 0 <= i < |w| ==> w[i] == slots[At(|slots|, head, i)]
  {
    if head <= tail then slots[head..tail] else slots[head..] + slots[..tail]
  }

  lemma NextIsAt(n: nat, a: nat)
    requires a < n
    ensures Next(n, a) == At(n, a, 1)
  {
    if a + 1 == n {
      assert (a + 1) % n == 0;
    }
  }

  // ------------------------------------------------------ the code, run alone

  class LogFile<T> {
    var written: seq<T>

    /** kernel_write, complete. */
    method Write(entries: seq<T>)
      modifies this
      ensures written == old(written) + entries
    {
      written := written + entries;
    }
  }

  class HrperfRingBuffer<T(0)> {
    const buffer: array<T>
    var head: nat
    var tail: nat

    ghost predicate Valid()
      reads this
    {
      buffer.Length >= 2 && head < buffer.Length && tail < buffer.Length
    }

    ghost function Contents(): seq<T>
      requires Valid()
      reads this, buffer
    {
      Window(buffer[..], head, tail)
    }

    constructor (n: nat)
      requires n >= 2
      ensures Valid() && fresh(buffer) && buffer.Length == n && Contents() == []
    {
      buffer := new T[n];
      head, tail := 0, 0;
    }

    method IsFull() returns (full: bool)
      requires Valid()
      ensures full <==> |Contents()| == buffer.Length - 1
    {
      NextIsAt(buffer.Length, tail);
      full := Next(buffer.Length, tail) == head;
    }

    /** A ring of n slots holds n - 1 entries; one more is dropped. */
    method Enqueue(data: T)
      requires Valid()
      modifies `tail, buffer
      ensures Valid()
      ensures Contents() == old(Contents()) + (if |old(Contents())| == buffer.Length - 1 then [] else [data])
    {
      ghost var before := Contents();
      NextIsAt(buffer.Length, tail);
      var nextTail := Next(buffer.Length, tail);
      if nextTail == head {
        return;
      }
      buffer[tail] := data;
      tail := nextTail;
      assert Contents() == before + [data];
    }

    /** Everything in the ring goes to the file, in one piece or two. */
    method LogAndClear(file: LogFile<T>)
      requires Valid()
      modifies `head, file
      ensures Valid() && Contents() == []
      ensures file.written == old(file.written) + old(Contents())
    {
      var h, t := head, tail;
      if h == t {
        return;
      }
      ghost var before := file.written;
      if h < t {
        file.Write(buffer[h..t]);
        assert buffer[h..t] == buffer[..][h..t];
      } else {
        file.Write(buffer[h..]);
        if t > 0 {
          file.Write(buffer[..t]);
        }
        assert buffer[h..] == buffer[..][h..] && buffer[..t] == buffer[..][..t];
        assert file.written == before + (buffer[h..] + buffer[..t]);
      }
      head := t;
    }
  }

  // ------------------------------------------- the interleaving, step by step

  /** Where enqueue is: the tail load, the full check against head, the slot store (which may be
      seen half done), the tail store. */
  datatype Producer<T> =
    | ProducerIdle
    | TailLoaded(data: T, nextTail: nat)
    | Admitted(data: T, nextTail: nat)
    | Stored(data: T, nextTail: nat)

  /** Where log_and_clear is: the head load, the tail load, the copy of the first piece at pos,
      of the second piece at pos, the head store. */
  datatype Consumer =
    | ConsumerIdle
    | HeadLoaded(head: nat)
    | CopyFirst(head: nat, tail: nat, pos: nat)
    | CopySecond(head: nat, tail: nat, pos: nat)
    | Copied(head: nat, tail: nat)

  datatype Ring<T> = Ring(slots: seq<T>, head: nat, tail: nat, producer: Producer<T>, consumer: Consumer, logged: seq<T>)

  datatype Action<T> =
    | Begin(data: T)
    | CheckFull
    | Scribble(junk: T)
    | Store
    | PublishTail
    | LoadHead
    | LoadTail
    | CopyOne
    | PublishHead

  predicate Bounded<T>(r: Ring<T>) {
    && |r.slots| >= 2 && r.head < |r.slots| && r.tail < |r.slots|
    && (r.consumer.HeadLoaded? ==> r.consumer.head < |r.slots|)
    && (r.consumer.CopyFirst? || r.consumer.CopySecond? ==> r.consumer.pos < |r.slots|)
    && (r.producer.TailLoaded? || r.producer.Admitted? || r.producer.Stored? ==> r.producer.nextTail < |r.slots|)
    && (r.consumer.CopyFirst? || r.consumer.CopySecond? || r.consumer.Copied? ==> r.consumer.tail < |r.slots|)
  }

  function Init<T>(slots: seq<T>): Ring<T> {
    Ring(slots, 0, 0, ProducerIdle, ConsumerIdle, [])
  }

  /** After copying the slot at pos of the first piece. */
  function AfterFirst(n: nat, head: nat, tail: nat, pos: nat): Consumer {
    if pos + 1 < (if head < tail then tail else n) then CopyFirst(head, tail, pos + 1)
    else if head < tail || tail == 0 then Copied(head, tail)
    else CopySecond(head, tail, 0)
  }

  /** One atomic step; a step that is not enabled leaves everything as it is. */
  function Step<T>(r: Ring<T>, a: Action<T>): (next: Ring<T>)
    requires Bounded(r)
    ensures Bounded(next) && |next.slots| == |r.slots|
  {
    var n := |r.slots|;
    match a
    case Begin(data) =>
      if r.producer.ProducerIdle? then r.(producer := TailLoaded(data, Next(n, r.tail))) else r
    case CheckFull =>
      if !r.producer.TailLoaded? then r
      else if r.producer.nextTail == r.head then r.(producer := ProducerIdle)
      else r.(producer := Admitted(r.producer.data, r.producer.nextTail))
    case Scribble(junk) =>
      if r.producer.Admitted? then r.(slots := r.slots[r.tail := junk]) else r
    case Store =>
      if !r.producer.Admitted? then r
      else r.(slots := r.slots[r.tail := r.producer.data], producer := Stored(r.producer.data, r.producer.nextTail))
    case PublishTail =>
      if r.producer.Stored? then r.(tail := r.producer.nextTail, producer := ProducerIdle) else r
    case LoadHead =>
      if r.consumer.ConsumerIdle? then r.(consumer := HeadLoaded(r.head)) else r
    case LoadTail =>
      if !r.consumer.HeadLoaded? then r
      else if r.consumer.head == r.tail then r.(consumer := ConsumerIdle)
      else r.(consumer := CopyFirst(r.consumer.head, r.tail, r.consumer.head))
    case CopyOne =>
      (match r.consumer
       case CopyFirst(head, tail, pos) =>
         r.(logged := r.logged + [r.slots[pos]], consumer := AfterFirst(n, head, tail, pos))
       case CopySecond(head, tail, pos) =>
         r.(logged := r.logged + [r.slots[pos]],
            consumer := if pos + 1 < tail then CopySecond(head, tail, pos + 1) else Copied(head, tail))
       case _ => r)
    case PublishHead =>
      if r.consumer.Copied? then r.(head := r.consumer.tail, consumer := ConsumerIdle) else r
  }

  /** What a step adds to the accepted entries: the published one. */
  function NewlyAccepted<T>(r: Ring<T>, a: Action<T>): seq<T> {
    if a.PublishTail? && r.producer.Stored? then [r.producer.data] else []
  }

  /** How far the consumer's copy is ahead of the published head. */
  function CopiedCount<T>(r: Ring<T>): int {
    match r.consumer
    case CopyFirst(h, _, pos) => pos - h
    case CopySecond(h, _, pos) => |r.slots| - h + pos
    case Copied(h, t) => Dist(|r.slots|, h, t)
    case _ => 0
  }

  ghost predicate ProducerOk<T>(r: Ring<T>)
    requires Bounded(r)
  {
    match r.producer
    case ProducerIdle => true
    case TailLoaded(_, next) => next == Next(|r.slots|, r.tail)
    case Admitted(_, next) => next == Next(|r.slots|, r.tail) && next != r.head
    case Stored(data, next) => next == Next(|r.slots|, r.tail) && next != r.head && r.slots[r.tail] == data
  }

  ghost predicate ConsumerOk<T>(r: Ring<T>)
    requires Bounded(r)
  {
    var n := |r.slots|;
    match r.consumer
    case ConsumerIdle => true
    case HeadLoaded(h) => h == r.head
    case CopyFirst(h, t, pos) =>
      h == r.head && 0 < Dist(n, h, t) <= Dist(n, h, r.tail) && h <= pos < (if h < t then t else n)
    case CopySecond(h, t, pos) => h == r.head && 0 < Dist(n, h, t) <= Dist(n, h, r.tail) && t < h && pos < t
    case Copied(h, t) => h == r.head && 0 < Dist(n, h, t) <= Dist(n, h, r.tail)
  }

  /** The ring holds the accepted entries not yet released by head, in order, and the log holds
      the released ones and those already copied. */
  ghost predicate Inv<T>(r: Ring<T>, accepted: seq<T>) {
    && Bounded(r) && ProducerOk(r) && ConsumerOk(r)
    && var held := Dist(|r.slots|, r.head, r.tail);
       && held <= |accepted|
       && Window(r.slots, r.head, r.tail) == accepted[|accepted| - held..]
       && 0 <= CopiedCount(r) <= held
       && r.logged == accepted[..|accepted| - held + CopiedCount(r)]
  }

  lemma InitInv<T>(slots: seq<T>)
    requires |slots| >= 2
    ensures Inv(Init(slots), [])
  {
  }

  /** The slot at tail is outside the window. */
  lemma WindowIgnoresTail<T>(slots: seq<T>, head: nat, tail: nat, x: T)
    requires head < |slots| && tail < |slots|
    ensures Window(slots[tail := x], head, tail) == Window(slots, head, tail)
  {
  }

  lemma WindowGrows<T>(slots: seq<T>, head: nat, tail: nat)
    requires head < |slots| && tail < |slots| && Next(|slots|, tail) != head
    ensures Dist(|slots|, head, Next(|slots|, tail)) == Dist(|slots|, head, tail) + 1
    ensures Window(slots, head, Next(|slots|, tail)) == Window(slots, head, tail) + [slots[tail]]
  {
    hide Next, Window;
    NextIsAt(|slots|, tail);
    WindowAt(slots, head, tail);
    WindowAt(slots, head, Next(|slots|, tail));
  }

  lemma WindowAt<T>(slots: seq<T>, head: nat, tail: nat)
    requires head < |slots| && tail < |slots|
    ensures |Window(slots, head, tail)| == Dist(|slots|, head, tail)
    ensures forall i: nat :: i < Dist(|slots|, head, tail) ==>
              At(|slots|, head, i) < |slots| && Window(slots, head, tail)[i] == slots[At(|slots|, head, i)]
  {
  }

  /** Releasing up to t, a position of the window, drops the entries before it. */
  lemma WindowShrinks<T>(slots: seq<T>, head: nat, tail: nat, t: nat)
    requires head < |slots| && tail < |slots| && t < |slots|
    requires Dist(|slots|, head, t) <= Dist(|slots|, head, tail)
    ensures Dist(|slots|, t, tail) == Dist(|slots|, head, tail) - Dist(|slots|, head, t)
    ensures Window(slots, t, tail) == Window(slots, head, tail)[Dist(|slots|, head, t)..]
  {
    var d := Dist(|slots|, head, t);
    WindowAt(slots, head, tail);
    WindowAt(slots, t, tail);
    hide Window;
    forall i: nat | i < Dist(|slots|, t, tail)
      ensures Window(slots, t, tail)[i] == Window(slots, head, tail)[d + i]
    {
      assert At(|slots|, t, i) == At(|slots|, head, d + i);
    }
  }

  lemma StoreInv<T>(r: Ring<T>, accepted: seq<T>, x: T, producer: Producer<T>)
    requires Inv(r, accepted) && r.producer.Admitted?
    requires producer == r.producer || (producer == Stored(x, r.producer.nextTail) && x == r.producer.data)
    ensures Inv(r.(slots := r.slots[r.tail := x], producer := producer), accepted)
  {
    WindowIgnoresTail(r.slots, r.head, r.tail, x);
  }

  lemma Append<T>(s: seq<T>, x: T, m: nat, k: nat)
    requires m <= |s| && k <= |s|
    ensures (s + [x])[m..] == s[m..] + [x] && (s + [x])[..k] == s[..k]
  {
  }

  lemma OneMore<T>(s: seq<T>, m: nat, k: nat)
    requires m + k < |s|
    ensures s[..m + k] + [s[m..][k]] == s[..m + k + 1]
  {
  }

  lemma PublishTailShape<T>(r: Ring<T>)
    requires Bounded(r) && ProducerOk(r) && r.producer.Stored?
    ensures var next := Step(r, PublishTail);
            && next == r.(tail := Next(|r.slots|, r.tail), producer := ProducerIdle)
            && Bounded(next) && ProducerOk(next)
            && Next(|r.slots|, r.tail) != r.head && r.slots[r.tail] == r.producer.data
  {
  }

  /** More entries do not disturb a copy under way. */
  lemma LongerForConsumer<T>(r: Ring<T>, next: Ring<T>)
    requires Bounded(r) && ConsumerOk(r) && Bounded(next) && |next.slots| == |r.slots|
    requires next.head == r.head && next.consumer == r.consumer
    requires Dist(|r.slots|, r.head, r.tail) <= Dist(|r.slots|, r.head, next.tail)
    ensures ConsumerOk(next) && CopiedCount(next) == CopiedCount(r)
  {
    hide Dist;
  }

  lemma PublishTailInv<T>(r: Ring<T>, accepted: seq<T>)
    requires Inv(r, accepted) && r.producer.Stored?
    ensures Inv(Step(r, PublishTail), accepted + [r.producer.data])
  {
    hide Window, Step, ProducerOk, ConsumerOk, CopiedCount, Next, Dist;
    PublishTailShape(r);
    var held := Dist(|r.slots|, r.head, r.tail);
    WindowGrows(r.slots, r.head, r.tail);
    LongerForConsumer(r, Step(r, PublishTail));
    Append(accepted, r.producer.data, |accepted| - held, |accepted| - held + CopiedCount(r));
  }

  /** The slot under the copy is the next entry to log. */
  lemma CopyReadsNext<T>(r: Ring<T>, accepted: seq<T>)
    requires Inv(r, accepted) && (r.consumer.CopyFirst? || r.consumer.CopySecond?)
    ensures CopiedCount(r) < Dist(|r.slots|, r.head, r.tail)
    ensures r.slots[r.consumer.pos] == Window(r.slots, r.head, r.tail)[CopiedCount(r)]
  {
    hide Step;
  }

  lemma CopyAdvances<T>(r: Ring<T>)
    requires Bounded(r) && ConsumerOk(r) && (r.consumer.CopyFirst? || r.consumer.CopySecond?)
    ensures ConsumerOk(Step(r, CopyOne)) && CopiedCount(Step(r, CopyOne)) == CopiedCount(r) + 1
    ensures var next := Step(r, CopyOne);
      next == r.(logged := r.logged + [r.slots[r.consumer.pos]], consumer := next.consumer)
  {
    hide Window;
  }

  lemma CopyInv<T>(r: Ring<T>, accepted: seq<T>)
    requires Inv(r, accepted) && (r.consumer.CopyFirst? || r.consumer.CopySecond?)
    ensures Inv(Step(r, CopyOne), accepted)
  {
    CopyReadsNext(r, accepted);
    CopyAdvances(r);
    hide Step, ConsumerOk, Window, CopiedCount;
    OneMore(accepted, |accepted| - Dist(|r.slots|, r.head, r.tail), CopiedCount(r));
  }

  lemma DropMore<T>(s: seq<T>, m: nat, d: nat)
    requires m + d <= |s|
    ensures s[m..][d..] == s[m + d..]
  {
  }

  lemma PublishHeadInv<T>(r: Ring<T>, accepted: seq<T>)
    requires Inv(r, accepted) && r.consumer.Copied?
    ensures Inv(Step(r, PublishHead), accepted)
  {
    hide Window;
    var n, t := |r.slots|, r.consumer.tail;
    NextIsAt(n, r.tail);
    WindowShrinks(r.slots, r.head, r.tail, t);
    DropMore(accepted, |accepted| - Dist(n, r.head, r.tail), Dist(n, r.head, t));
  }

  /** What the invariant says depends on the sides only through how far they are. */
  lemma SameData<T>(r: Ring<T>, next: Ring<T>, accepted: seq<T>)
    requires Inv(r, accepted) && Bounded(next) && ProducerOk(next) && ConsumerOk(next)
    requires next == r.(producer := next.producer, consumer := next.consumer) && CopiedCount(next) == CopiedCount(r)
    ensures Inv(next, accepted)
  {
    hide Window, ProducerOk, ConsumerOk, CopiedCount;
  }

  lemma LoadKeepsSides<T>(r: Ring<T>, a: Action<T>)
    requires Bounded(r) && ProducerOk(r) && ConsumerOk(r)
    requires a.Begin? || a.CheckFull? || a.LoadHead? || a.LoadTail?
    ensures var next := Step(r, a);
            && next == r.(producer := next.producer, consumer := next.consumer)
            && Bounded(next) && ProducerOk(next) && ConsumerOk(next) && CopiedCount(next) == CopiedCount(r)
  {
  }

  /** The loads change no slot, no published index and no log. */
  lemma LoadInv<T>(r: Ring<T>, accepted: seq<T>, a: Action<T>)
    requires Inv(r, accepted) && (a.Begin? || a.CheckFull? || a.LoadHead? || a.LoadTail?)
    ensures Inv(Step(r, a), accepted)
  {
    hide Window, Step, ProducerOk, ConsumerOk, CopiedCount;
    LoadKeepsSides(r, a);
    SameData(r, Step(r, a), accepted);
  }

  /** Every step keeps the invariant, and accepts at most the entry it publishes. */
  lemma StepInv<T>(r: Ring<T>, accepted: seq<T>, a: Action<T>)
    requires Inv(r, accepted)
    ensures Inv(Step(r, a), accepted + NewlyAccepted(r, a))
  {
    hide Inv, Window, ProducerOk, ConsumerOk, CopiedCount;
    assert accepted + [] == accepted;
    match a
    case Scribble(junk) => if r.producer.Admitted? { StoreInv(r, accepted, junk, r.producer); }
    case Store =>
      if r.producer.Admitted? {
        StoreInv(r, accepted, r.producer.data, Stored(r.producer.data, r.producer.nextTail));
      }
    case PublishTail => if r.producer.Stored? { PublishTailInv(r, accepted); }
    case CopyOne => if r.consumer.CopyFirst? || r.consumer.CopySecond? { CopyInv(r, accepted); }
    case PublishHead => if r.consumer.Copied? { PublishHeadInv(r, accepted); }
    case _ => LoadInv(r, accepted, a);
  }

  // ------------------------------------------------------------ whole runs

  ghost function Run<T>(r: Ring<T>, actions: seq<Action<T>>): (end: Ring<T>)
    requires Bounded(r)
    ensures Bounded(end)
    decreases actions
  {
    if actions == [] then r else Run(Step(r, actions[0]), actions[1..])
  }

  /** The entries accepted over a run, in the order the producer published them. */
  ghost function Accepted<T>(r: Ring<T>, actions: seq<Action<T>>): seq<T>
    requires Bounded(r)
    decreases actions
  {
    if actions == [] then []
    else NewlyAccepted(r, actions[0]) + Accepted(Step(r, actions[0]), actions[1..])
  }

  lemma {:induction false} RunInv<T>(r: Ring<T>, accepted: seq<T>, actions: seq<Action<T>>)
    requires Inv(r, accepted)
    ensures Inv(Run(r, actions), accepted + Accepted(r, actions))
    decreases actions
  {
    InvBounded(r, accepted);
    hide Inv, Bounded, Step, NewlyAccepted;
    if actions == [] {
      assert accepted + [] == accepted;
    } else {
      var now, later := NewlyAccepted(r, actions[0]), Accepted(Step(r, actions[0]), actions[1..]);
      StepInv(r, accepted, actions[0]);
      RunInv(Step(r, actions[0]), accepted + now, actions[1..]);
      Assoc(accepted, now, later);
    }
  }

  lemma InvBounded<T>(r: Ring<T>, accepted: seq<T>)
    requires Inv(r, accepted)
    ensures Bounded(r)
  {
  }

  /** After any interleaving from the empty ring: what is logged and what is not yet logged of
      the ring are exactly the accepted entries, first in first out. */
  lemma FifoLog<T>(slots: seq<T>, actions: seq<Action<T>>)
    requires |slots| >= 2
    ensures var r, accepted := Run(Init(slots), actions), Accepted(Init(slots), actions);
      && 0 <= CopiedCount(r) <= Dist(|r.slots|, r.head, r.tail)
      && r.logged + Window(r.slots, r.head, r.tail)[CopiedCount(r)..] == accepted
      && (r.consumer.ConsumerIdle? ==> r.logged + Window(r.slots, r.head, r.tail) == accepted)
  {
    InitInv(slots);
    RunInv(Init(slots), [], actions);
    var accepted := Accepted(Init(slots), actions);
    assert [] + accepted == accepted;
    InvIsFifo(Run(Init(slots), actions), accepted);
  }

  lemma InvIsFifo<T>(r: Ring<T>, accepted: seq<T>)
    requires Inv(r, accepted)
    ensures 0 <= CopiedCount(r) <= Dist(|r.slots|, r.head, r.tail)
    ensures r.logged + Window(r.slots, r.head, r.tail)[CopiedCount(r)..] == accepted
    ensures r.consumer.ConsumerIdle? ==> r.logged + Window(r.slots, r.head, r.tail) == accepted
  {
    SplitTwice(accepted, |accepted| - Dist(|r.slots|, r.head, r.tail), CopiedCount(r));
  }

  lemma SplitTwice<T>(s: seq<T>, m: nat, k: nat)
    requires m + k <= |s|
    ensures s[..m + k] + s[m..][k..] == s
    ensures s[..m] + s[m..] == s
  {
  }

  /** No step changes a slot between head and tail, whatever state the run is in. */
  lemma NoOverwrite<T>(r: Ring<T>, accepted: seq<T>, a: Action<T>, i: nat)
    requires Inv(r, accepted) && i < Dist(|r.slots|, r.head, r.tail)
    ensures At(|r.slots|, r.head, i) < |r.slots| == |Step(r, a).slots|
    ensures Step(r, a).slots[At(|r.slots|, r.head, i)] == r.slots[At(|r.slots|, r.head, i)]
  {
  }

  /** The full check drops an entry exactly when, by the head it loads, the ring holds n - 1. */
  lemma DropsOnlyWhenFull<T>(r: Ring<T>, accepted: seq<T>)
    requires Inv(r, accepted) && r.producer.TailLoaded?
    ensures Step(r, CheckFull).producer.ProducerIdle? <==>
            Dist(|r.slots|, r.head, r.tail) == |r.slots| - 1
  {
    NextIsAt(|r.slots|, r.tail);
  }

  // -------------------------------------------------------------- progress

  predicate Drains<T>(a: Action<T>) {
    a.LoadHead? || a.LoadTail? || a.CopyOne? || a.PublishHead?
  }

  lemma RunCons<T>(r: Ring<T>, a: Action<T>, rest: seq<Action<T>>)
    requires Bounded(r)
    ensures Run(r, [a] + rest) == Run(Step(r, a), rest)
    ensures Run(r, []) == r
  {
    assert ([a] + rest)[0] == a && ([a] + rest)[1..] == rest;
  }

  /** A copy under way up to the tail that is published, left to itself. */
  lemma {:induction false} CopyEnds<T>(r: Ring<T>, accepted: seq<T>) returns (actions: seq<Action<T>>)
    requires Inv(r, accepted)
    requires (r.consumer.CopyFirst? || r.consumer.CopySecond? || r.consumer.Copied?) && r.consumer.tail == r.tail
    ensures forall a :: a in actions ==> Drains(a)
    ensures var end := Run(r, actions); end == r.(head := r.tail, consumer := ConsumerIdle, logged := end.logged)
    ensures Inv(Run(r, actions), accepted)
    decreases Dist(|r.slots|, r.head, r.tail) - CopiedCount(r), if r.consumer.Copied? then 0 else 1
  {
    hide Inv, Window, ProducerOk, ConsumerOk, CopiedCount, Dist, Step;
    InvBounded(r, accepted);
    if r.consumer.Copied? {
      PublishHeadInv(r, accepted);
      PublishHeadIs(r);
      RunCons(r, PublishHead, []);
      RunCons(Step(r, PublishHead), PublishHead, []);
      actions := [PublishHead] + [];
    } else {
      CopyInv(r, accepted);
      CopyGoesOn(r, accepted);
      var rest := CopyEnds(Step(r, CopyOne), accepted);
      RunCons(r, CopyOne, rest);
      actions := [CopyOne] + rest;
    }
  }

  lemma PublishHeadIs<T>(r: Ring<T>)
    requires Bounded(r) && r.consumer.Copied?
    ensures Step(r, PublishHead) == r.(head := r.consumer.tail, consumer := ConsumerIdle)
  {
  }

  lemma CopyGoesOn<T>(r: Ring<T>, accepted: seq<T>)
    requires Inv(r, accepted) && (r.consumer.CopyFirst? || r.consumer.CopySecond?)
    ensures var next := Step(r, CopyOne);
      && next == r.(logged := next.logged, consumer := next.consumer)
      && (next.consumer.CopyFirst? || next.consumer.CopySecond? || next.consumer.Copied?)
      && next.consumer.tail == r.consumer.tail
      && CopiedCount(next) == CopiedCount(r) + 1 <= Dist(|r.slots|, r.head, r.tail)
  {
    CopyReadsNext(r, accepted);
    CopyAdvances(r);
    hide Window, CopiedCount, Dist;
  }

  /** A drain of its own, begun at any reachable state between two drains: everything that was
      accepted is in the log then, and the ring is empty. */
  lemma DrainLogsAll<T>(r: Ring<T>, accepted: seq<T>) returns (actions: seq<Action<T>>)
    requires Inv(r, accepted) && r.consumer.ConsumerIdle?
    ensures forall a :: a in actions ==> Drains(a)
    ensures var end := Run(r, actions);
      && end.logged == accepted && end.head == end.tail == r.tail && end.consumer == ConsumerIdle
      && end.producer == r.producer && end.slots == r.slots
  {
    hide Inv, Window, ProducerOk, ConsumerOk, CopiedCount, Dist, Step;
    InvBounded(r, accepted);
    LoadInv(r, accepted, LoadHead);
    LoadsAre(r);
    var r1 := Step(r, LoadHead);
    InvBounded(r1, accepted);
    LoadInv(r1, accepted, LoadTail);
    var r2 := Step(r1, LoadTail);
    var rest := [];
    if r.head != r.tail {
      rest := CopyEnds(r2, accepted);
    } else {
      RunCons(r2, LoadHead, []);
    }
    RunCons(r, LoadHead, [LoadTail] + rest);
    RunCons(r1, LoadTail, rest);
    actions := [LoadHead] + ([LoadTail] + rest);
    EmptyIsLogged(Run(r2, rest), accepted);
  }

  lemma LoadsAre<T>(r: Ring<T>)
    requires Bounded(r) && r.consumer.ConsumerIdle?
    ensures Step(r, LoadHead) == r.(consumer := HeadLoaded(r.head))
    ensures Step(Step(r, LoadHead), LoadTail)
            == r.(consumer := if r.head == r.tail then ConsumerIdle else CopyFirst(r.head, r.tail, r.head))
  {
  }

  lemma EmptyIsLogged<T>(r: Ring<T>, accepted: seq<T>)
    requires Inv(r, accepted) && r.consumer.ConsumerIdle? && r.head == r.tail
    ensures r.logged == accepted
  {
  }

  /** An enqueue of its own: the entry is accepted unless the ring holds n - 1. */
  lemma EnqueueAccepts<T>(r: Ring<T>, accepted: seq<T>, data: T)
    requires Inv(r, accepted) && r.producer.ProducerIdle?
    ensures var actions := [Begin(data), CheckFull, Store, PublishTail];
      && Run(r, actions).producer.ProducerIdle?
      && Accepted(r, actions) == if Dist(|r.slots|, r.head, r.tail) == |r.slots| - 1 then [] else [data]
  {
    InvBounded(r, accepted);
    ProducerSteps(r, data);
    hide Inv, Window, Next, Dist, Run, Accepted, NewlyAccepted, Bounded;
    var r1 := Step(r, Begin(data));
    var r2 := Step(r1, CheckFull);
    var r3 := Step(r2, Store);
    hide Step;
    LoadInv(r, accepted, Begin(data));
    DropsOnlyWhenFull(r1, accepted);
    AcceptedCons(r, Begin(data), [CheckFull] + ([Store] + ([PublishTail] + [])));
    AcceptedCons(r1, CheckFull, [Store] + ([PublishTail] + []));
    AcceptedCons(r2, Store, [PublishTail] + []);
    AcceptedCons(r3, PublishTail, []);
    var actions: seq<Action<T>> := [Begin(data), CheckFull, Store, PublishTail];
    assert actions == [Begin(data)] + ([CheckFull] + ([Store] + ([PublishTail] + [])));
    assert actions[1..] == [CheckFull, Store, PublishTail] && actions[2..] == [Store, PublishTail];
  }

  lemma AcceptedCons<T>(r: Ring<T>, a: Action<T>, rest: seq<Action<T>>)
    requires Bounded(r)
    ensures Run(r, [a] + rest) == Run(Step(r, a), rest) && Run(r, []) == r
    ensures Accepted(r, [a] + rest) == NewlyAccepted(r, a) + Accepted(Step(r, a), rest) && Accepted(r, []) == []
  {
    assert ([a] + rest)[0] == a && ([a] + rest)[1..] == rest;
  }

  lemma ProducerSteps<T>(r: Ring<T>, data: T)
    requires Bounded(r) && r.producer.ProducerIdle?
    ensures var r1 := Step(r, Begin(data));
      var r2 := Step(r1, CheckFull);
      var r3 := Step(r2, Store);
      var full := r2.producer.ProducerIdle?;
      && Bounded(r1) && Bounded(r2) && Bounded(r3) && |r1.slots| == |r.slots|
      && r1.producer.TailLoaded? && r1.slots == r.slots && r1.head == r.head && r1.tail == r.tail
      && NewlyAccepted(r, Begin(data)) == NewlyAccepted(r1, CheckFull) == NewlyAccepted(r2, Store) == []
      && NewlyAccepted(r3, PublishTail) == (if full then [] else [data])
      && Step(r3, PublishTail).producer.ProducerIdle?
  {
  }
}
