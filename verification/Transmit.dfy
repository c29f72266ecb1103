/** The memcached output path: responses queued on a connection, gathered into iovecs,
    and settled after a write that accepted any prefix of what was offered. */
module Transmit {
  import opened ByteStrings

  // ------------------------------------------------------------------ values

  /** Where an iovec points: into a memory cell, or at the header of a chunked item.
      The header pointer of a chunked item never moves; only the length shrinks. */
  datatype Pointer = Memory(cell: seq<byte>, offset: nat) | ItemHeader(chunks: seq<seq<byte>>)

  datatype Iovec = Iovec(base: Pointer, len: nat)

  /** The transmit-relevant fields of one mc_resp. */
  datatype RespState = RespState(
    iov: seq<Iovec>, tosend: nat, chunkedDataIov: nat, chunkedTotal: nat, skip: bool)

  predicate IovOk(v: Iovec, total: nat) {
    match v.base
    case Memory(cell, offset) => offset + v.len <= |cell|
    case ItemHeader(chunks) => v.len <= total <= |Flatten(chunks)|
  }

  predicate IovsOk(iov: seq<Iovec>, total: nat) {
    forall x :: 0 <= x < |iov| ==> IovOk(iov[x], total)
  }

  /** The bytes an iovec still stands for: for a chunked item, the last `len` of the item's
      first `total` bytes. An iovec that reaches outside its memory stands for nothing. */
  function IovBytes(v: Iovec, total: nat): (bytes: seq<byte>)
    ensures IovOk(v, total) ==> |bytes| == v.len
  {
    if !IovOk(v, total) then [] else
    match v.base
    case Memory(cell, offset) => cell[offset..offset + v.len]
    case ItemHeader(chunks) => Flatten(chunks)[total - v.len..total]
  }

  function Gather(iov: seq<Iovec>, total: nat): seq<byte> {
    if iov == [] then [] else IovBytes(iov[0], total) + Gather(iov[1..], total)
  }

  predicate RespOk(r: RespState) {
    && IovsOk(r.iov, r.chunkedTotal)
    && (r.chunkedDataIov != 0 ==> r.chunkedDataIov < |r.iov|)
    && (forall x :: 0 <= x < |r.iov| ==>
          (r.iov[x].base.ItemHeader? <==> r.chunkedDataIov != 0 && x == r.chunkedDataIov))
    && r.tosend == |Gather(r.iov, r.chunkedTotal)|
  }

  predicate QueueOk(q: seq<RespState>) {
    forall i :: 0 <= i < |q| ==> RespOk(q[i])
  }

  function Payload(r: RespState): seq<byte> {
    Gather(r.iov, r.chunkedTotal)
  }

  function Contribution(r: RespState): seq<byte> {
    if r.skip then [] else Payload(r)
  }

  /** The stream still owed to the peer: payloads of the non-skipped responses, in order. */
  function Pending(q: seq<RespState>): seq<byte> {
    if q == [] then []
    else Contribution(q[0]) + Pending(q[1..])
  }

  /** What a one-response gather may draw from: the first non-skipped response. */
  function FirstPayload(q: seq<RespState>): seq<byte> {
    if q == [] then [] else if q[0].skip then FirstPayload(q[1..]) else Payload(q[0])
  }

  /** Is the first non-skipped response one with a chunked item? */
  predicate FirstChunked(q: seq<RespState>) {
    q != [] && if q[0].skip then FirstChunked(q[1..]) else q[0].chunkedDataIov != 0
  }

  /** The response that the next byte comes from, once settled: not skipped, not empty. */
  predicate Settled(q: seq<RespState>) {
    q == [] || (!q[0].skip && q[0].tosend > 0)
  }

  lemma GatherCons(v: Iovec, rest: seq<Iovec>, total: nat)
    ensures Gather([v] + rest, total) == IovBytes(v, total) + Gather(rest, total)
  {
    assert ([v] + rest)[1..] == rest;
  }

  lemma {:induction false} GatherConcat(a: seq<Iovec>, b: seq<Iovec>, total: nat)
    ensures Gather(a + b, total) == Gather(a, total) + Gather(b, total)
  {
    if a == [] {
      assert a + b == b;
    } else {
      hide *;
      var first, rest := a[0], a[1..];
      assert [first] + rest == a;
      GatherConcat(rest, b, total);
      Assoc([first], rest, b);
      GatherCons(first, rest, total);
      GatherCons(first, rest + b, total);
      Assoc(IovBytes(first, total), Gather(rest, total), Gather(b, total));
    }
  }

  lemma GatherSnoc(a: seq<Iovec>, v: Iovec, total: nat)
    ensures Gather(a + [v], total) == Gather(a, total) + IovBytes(v, total)
  {
    GatherConcat(a, [v], total);
    assert [v][1..] == [];
  }

  /** Iovecs that all point into memory denote the same bytes whatever the chunked total. */
  lemma {:induction false} GatherMemory(a: seq<Iovec>, t: nat, u: nat)
    requires forall x :: 0 <= x < |a| ==> a[x].base.Memory?
    ensures Gather(a, t) == Gather(a, u)
  {
    if a != [] {
      GatherMemory(a[1..], t, u);
    }
  }

  lemma PendingCons(r: RespState, rest: seq<RespState>)
    ensures Pending([r] + rest) == Contribution(r) + Pending(rest)
  {
    assert ([r] + rest)[1..] == rest;
  }

  lemma {:induction false} PendingConcat(a: seq<RespState>, b: seq<RespState>)
    ensures Pending(a + b) == Pending(a) + Pending(b)
  {
    if a == [] {
      assert a + b == b;
    } else {
      hide *;
      var first, rest := a[0], a[1..];
      assert [first] + rest == a;
      PendingConcat(rest, b);
      Assoc([first], rest, b);
      PendingCons(first, rest);
      PendingCons(first, rest + b);
      Assoc(Contribution(first), Pending(rest), Pending(b));
    }
  }

  // ------------------------------------------------------- settling a write

  /** An iovec of which k more bytes were written; a chunked header pointer stays put. */
  function Advance(v: Iovec, k: nat): Iovec
    requires k <= v.len
  {
    Iovec(if v.base.Memory? then v.base.(offset := v.base.offset + k) else v.base, v.len - k)
  }

  function AdvanceAll(iov: seq<Iovec>, k: nat): seq<Iovec> {
    if iov == [] then []
    else if k >= iov[0].len then [iov[0].(len := 0)] + AdvanceAll(iov[1..], k - iov[0].len)
    else [Advance(iov[0], k)] + iov[1..]
  }

  function AdvanceResp(r: RespState, k: nat): RespState
    requires k <= r.tosend
  {
    r.(iov := AdvanceAll(r.iov, k), tosend := r.tosend - k)
  }

  /** The queue after k bytes of it were written. */
  function Settle(q: seq<RespState>, k: nat): seq<RespState> {
    if q == [] then []
    else if q[0].skip then Settle(q[1..], k)
    else if k >= q[0].tosend then Settle(q[1..], k - q[0].tosend)
    else [AdvanceResp(q[0], k)] + q[1..]
  }

  lemma AdvanceBytes(v: Iovec, total: nat, k: nat)
    requires IovOk(v, total) && k <= v.len
    ensures IovOk(Advance(v, k), total)
    ensures IovBytes(Advance(v, k), total) == IovBytes(v, total)[k..]
  {
  }

  lemma {:induction false} AdvanceAllShape(iov: seq<Iovec>, total: nat, k: nat)
    requires IovsOk(iov, total)
    ensures |AdvanceAll(iov, k)| == |iov|
    ensures forall x :: 0 <= x < |iov| ==>
      (AdvanceAll(iov, k)[x].base.ItemHeader? <==> iov[x].base.ItemHeader?)
    ensures IovsOk(AdvanceAll(iov, k), total)
  {
    if iov != [] && k >= iov[0].len {
      AdvanceAllShape(iov[1..], total, k - iov[0].len);
    }
  }

  lemma {:induction false} AdvanceAllDrops(iov: seq<Iovec>, total: nat, k: nat)
    requires IovsOk(iov, total) && k <= |Gather(iov, total)|
    ensures Gather(AdvanceAll(iov, k), total) == Gather(iov, total)[k..]
  {
    if iov != [] {
      var head, rest := iov[0], iov[1..];
      DropConcat(IovBytes(head, total), Gather(rest, total), k);
      if k >= head.len {
        AdvanceAllDrops(rest, total, k - head.len);
        GatherCons(head.(len := 0), AdvanceAll(rest, k - head.len), total);
      } else {
        AdvanceBytes(head, total, k);
        GatherCons(Advance(head, k), rest, total);
      }
    }
  }

  lemma AdvanceRespDrops(r: RespState, k: nat)
    requires RespOk(r) && k <= r.tosend
    ensures RespOk(AdvanceResp(r, k)) && |AdvanceResp(r, k).iov| == |r.iov|
    ensures Payload(AdvanceResp(r, k)) == Payload(r)[k..]
  {
    AdvanceAllShape(r.iov, r.chunkedTotal, k);
    AdvanceAllDrops(r.iov, r.chunkedTotal, k);
  }

  /** Settling k bytes drops exactly the first k bytes of the stream and leaves at the head
      a response that really has bytes to send, or nothing. */
  lemma {:induction false} SettleDropsExactly(q: seq<RespState>, k: nat)
    requires QueueOk(q) && k <= |Pending(q)|
    ensures QueueOk(Settle(q, k))
    ensures Pending(Settle(q, k)) == Pending(q)[k..]
    ensures Settled(Settle(q, k))
    ensures |Settle(q, k)| <= |q|
    ensures Settle(q, k) == [] <==> k == |Pending(q)|
  {
    hide IovsOk, Gather, AdvanceAll;
    if q == [] {
    } else if q[0].skip {
      SettleDropsExactly(q[1..], k);
    } else if k >= q[0].tosend {
      DropConcat(Payload(q[0]), Pending(q[1..]), k);
      SettleDropsExactly(q[1..], k - q[0].tosend);
    } else {
      DropConcat(Payload(q[0]), Pending(q[1..]), k);
      AdvanceRespDrops(q[0], k);
      PendingCons(AdvanceResp(q[0], k), q[1..]);
    }
  }

  /** A write of nothing still finishes a response when the front of the queue owes nothing. */
  lemma SettleFinishesEmpty(q: seq<RespState>)
    requires QueueOk(q) && q != [] && FirstPayload(q) == []
    ensures |Settle(q, 0)| < |q|
  {
    var rest := q[1..];
    SettleDropsExactly(rest, 0);
    assert q[0].skip || q[0].tosend == 0;
  }

  // ------------------------------------------------------------------- runs

  /** One thing that can happen to a connection's output: a response is queued, or the
      socket accepts some number of bytes of the pending stream. */
  datatype OutputEvent = Queued(resp: RespState) | Accepted(count: nat)

  predicate EventOk(q: seq<RespState>, e: OutputEvent) {
    match e
    case Queued(r) => RespOk(r)
    case Accepted(k) => QueueOk(q) && k <= |Pending(q)|
  }

  function AfterEvent(q: seq<RespState>, e: OutputEvent): seq<RespState> {
    match e
    case Queued(r) => q + [r]
    case Accepted(k) => Settle(q, k)
  }

  predicate RunOk(q: seq<RespState>, run: seq<OutputEvent>)
    decreases run
  {
    run == [] || (EventOk(q, run[0]) && RunOk(AfterEvent(q, run[0]), run[1..]))
  }

  function QueueAfter(q: seq<RespState>, run: seq<OutputEvent>): seq<RespState>
    decreases run
  {
    if run == [] then q else QueueAfter(AfterEvent(q, run[0]), run[1..])
  }

  /** The bytes one event puts on the wire: the front of what is pending at that moment. */
  function Taken(q: seq<RespState>, e: OutputEvent): seq<byte>
    requires EventOk(q, e)
  {
    match e
    case Queued(_) => []
    case Accepted(k) => Pending(q)[..k]
  }

  function Added(e: OutputEvent): seq<RespState> {
    match e
    case Queued(r) => [r]
    case Accepted(_) => []
  }

  function OnWire(q: seq<RespState>, run: seq<OutputEvent>): seq<byte>
    requires RunOk(q, run)
    decreases run
  {
    if run == [] then []
    else Taken(q, run[0]) + OnWire(AfterEvent(q, run[0]), run[1..])
  }

  function QueuedDuring(run: seq<OutputEvent>): seq<RespState> {
    if run == [] then [] else Added(run[0]) + QueuedDuring(run[1..])
  }

  lemma EventConservation(q: seq<RespState>, e: OutputEvent)
    requires QueueOk(q) && EventOk(q, e)
    ensures QueueOk(AfterEvent(q, e))
    ensures Taken(q, e) + Pending(AfterEvent(q, e)) == Pending(q + Added(e))
  {
    hide Pending, RespOk, Settle, Settled;
    match e
    case Queued(r) =>
    case Accepted(k) =>
      SettleDropsExactly(q, k);
      assert q + [] == q;
      assert Pending(q)[..k] + Pending(q)[k..] == Pending(q);
  }

  /** Over any run of queueing and partial writes, what went out followed by what is pending
      is exactly the non-skipped responses in queueing order. */
  lemma {:induction false} WireConservation(q: seq<RespState>, run: seq<OutputEvent>)
    requires QueueOk(q) && RunOk(q, run)
    ensures QueueOk(QueueAfter(q, run))
    ensures OnWire(q, run) + Pending(QueueAfter(q, run)) == Pending(q + QueuedDuring(run))
    decreases run
  {
    if run == [] {
      assert q + [] == q;
    } else {
      var e, rest := run[0], run[1..];
      var next := AfterEvent(q, e);
      EventConservation(q, e);
      WireConservation(next, rest);
      RunStep(q, next, Added(e), QueuedDuring(rest), Taken(q, e), OnWire(next, rest), Pending(QueueAfter(next, rest)));
    }
  }

  lemma RunStep(q: seq<RespState>, next: seq<RespState>, added: seq<RespState>, later: seq<RespState>,
                taken: seq<byte>, wire: seq<byte>, left: seq<byte>)
    requires taken + Pending(next) == Pending(q + added)
    requires wire + left == Pending(next + later)
    ensures taken + wire + left == Pending(q + (added + later))
  {
    PendingConcat(next, later);
    PendingConcat(q + added, later);
    Assoc(q, added, later);
    Regroup(taken, wire, left, Pending(next), Pending(later));
  }

  /** When a run leaves nothing queued, the peer received every non-skipped response whole,
      in order, and nothing else. */
  lemma WireComplete(run: seq<OutputEvent>)
    requires RunOk([], run) && QueueAfter([], run) == []
    ensures OnWire([], run) == Pending(QueuedDuring(run))
  {
    WireConservation([], run);
    assert [] + QueuedDuring(run) == QueuedDuring(run);
  }
}
