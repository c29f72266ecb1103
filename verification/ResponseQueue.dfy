/** The response chain of a memcached connection as linked objects, and the code that walks it:
    building responses, gathering iovecs for a write, and settling what the write accepted. */
module ResponseQueue {
  import opened ByteStrings
  import opened Transmit

  /** A text line as bytes. */
  function Ascii(s: string): (bytes: seq<byte>)
    ensures |bytes| == |s|
  {
    seq(|s|, i requires 0 <= i < |s| => s[i] as int % 256)
  }

  /** A chunked item behind pieces of memory. */
  lemma HeaderAppended(s: RespState, chunks: seq<seq<byte>>, len: nat)
    requires RespOk(s) && s.iov != [] && s.chunkedDataIov == 0 && len <= |Flatten(chunks)|
    ensures var after := RespState(s.iov + [Iovec(ItemHeader(chunks), len)], s.tosend + len, |s.iov|, len, s.skip);
            RespOk(after) && Payload(after) == Payload(s) + Flatten(chunks)[..len]
  {
    hide Gather, Flatten;
    var piece := Iovec(ItemHeader(chunks), len);
    GatherMemory(s.iov, s.chunkedTotal, len);
    GatherSnoc(s.iov, piece, len);
    assert IovBytes(piece, len) == Flatten(chunks)[..len];
  }

  class Resp {
    var iov: seq<Iovec>
    var tosend: nat
    var chunkedDataIov: nat
    var chunkedTotal: nat
    var skip: bool
    var next: Resp?
    var requestId: nat
    var udpSequence: nat
    var udpTotal: nat

    /** A response object as resp_allocate zeroes it. */
    constructor ()
      ensures State() == RespState([], 0, 0, 0, false) && next == null && RespOk(State())
      ensures requestId == udpSequence == udpTotal == 0
    {
      iov, tosend, chunkedDataIov, chunkedTotal, skip, next := [], 0, 0, 0, false, null;
      requestId, udpSequence, udpTotal := 0, 0, 0;
    }

    function State(): RespState
      reads `iov, `tosend, `chunkedDataIov, `chunkedTotal, `skip
    {
      RespState(iov, tosend, chunkedDataIov, chunkedTotal, skip)
    }

    /** resp_add_iov: one more piece of memory at the end of the response. */
    method AddIov(cell: seq<byte>, limit: nat)
      requires RespOk(State()) && |iov| < limit
      modifies this
      ensures RespOk(State()) && |iov| <= limit
      ensures Payload(State()) == old(Payload(State())) + cell
      ensures skip == old(skip) && next == old(next)
    {
      ghost var before := State();
      var piece := Iovec(Memory(cell, 0), |cell|);
      GatherSnoc(iov, piece, chunkedTotal);
      iov := iov + [piece];
      tosend := tosend + |cell|;
      assert IovBytes(piece, chunkedTotal) == cell;
    }

    /** resp_add_chunked_iov: the first `len` bytes of a chunked item. It cannot be the first
        iovec, because index 0 means "not chunked"; a response carries at most one. */
    method AddChunkedIov(chunks: seq<seq<byte>>, len: nat, limit: nat)
      requires RespOk(State()) && 0 < |iov| < limit && chunkedDataIov == 0
      requires len <= |Flatten(chunks)|
      modifies this
      ensures RespOk(State()) && |iov| <= limit
      ensures Payload(State()) == old(Payload(State())) + Flatten(chunks)[..len]
      ensures skip == old(skip) && next == old(next)
    {
      hide IovBytes, Gather;
      var piece := Iovec(ItemHeader(chunks), len);
      HeaderAppended(State(), chunks, len);
      chunkedDataIov := |iov|;
      chunkedTotal := len;
      iov := iov + [piece];
      tosend := tosend + len;
    }

    /** out_string: whatever the response held is dropped, then it is either marked skipped
        (noreply) or holds the text and CRLF, or an error line if the text does not fit the write
        buffer; what it holds fits, if the error line does. */
    method OutString(text: seq<byte>, noreply: bool, limit: nat)
      modifies this
      ensures RespOk(State()) && next == old(next)
      ensures skip == noreply && |iov| <= 1
      ensures Contribution(State())
              == if noreply then []
                 else (if |text| + 2 <= limit then text else Ascii("SERVER_ERROR output line too long")) + [13, 10]
      ensures limit >= 35 ==> |Contribution(State())| <= limit
    {
      iov, tosend, chunkedDataIov, chunkedTotal, skip := [], 0, 0, 0, false;
      if noreply {
        skip := true;
        return;
      }
      var line := text;
      if |line| + 2 > limit {
        line := Ascii("SERVER_ERROR output line too long");
      }
      AddIov(line + [13, 10], 1);
    }

    /** The inner loop of _transmit_post: k bytes of this response were written, fewer than it holds. */
    method Advance(k: nat)
      requires RespOk(State()) && k < tosend
      modifies `iov, `tosend
      ensures State() == AdvanceResp(old(State()), k)
    {
      hide RespOk, IovsOk, Gather, AdvanceAll, Midway;
      ghost var s0 := State();
      var res: nat, x: nat := k, 0;
      MidwayStart(s0, k);
      while x < |iov|
        invariant Midway(s0, State(), k, x, res)
      {
        var v := iov[x];
        if res >= v.len {
          MidwayStep(s0, State(), k, x, res);
          tosend := tosend - v.len;
          res := res - v.len;
          iov := iov[x := v.(len := 0)];
          x := x + 1;
        } else {
          MidwayLast(s0, State(), k, x, res);
          var base := v.base;
          if chunkedDataIov == 0 || x != chunkedDataIov {
            base := base.(offset := base.offset + res);
          }
          assert Iovec(base, v.len - res) == Transmit.Advance(v, res);
          iov := iov[x := Iovec(base, v.len - res)];
          tosend := tosend - res;
          return;
        }
      }
      MidwayNotDone(s0, State(), k, x, res);
      assert false;
    }
  }

  /** The settling loop of one response at index x, with res of the k written bytes left. */
  ghost predicate Midway(s0: RespState, s: RespState, k: nat, x: nat, res: nat) {
    && RespOk(s0)
    && x <= |s.iov| == |s0.iov|
    && s.iov[x..] == s0.iov[x..]
    && s == s0.(iov := s.iov, tosend := s.tosend)
    && s.tosend + k == s0.tosend + res
    && res < s.tosend == |Gather(s.iov[x..], s.chunkedTotal)|
    && AdvanceAll(s0.iov, k) == s.iov[..x] + AdvanceAll(s.iov[x..], res)
  }

  lemma MidwayStart(s0: RespState, k: nat)
    requires RespOk(s0) && k < s0.tosend
    ensures Midway(s0, s0, k, 0, k)
  {
    assert s0.iov[..0] == [] && s0.iov[0..] == s0.iov;
  }

  lemma MidwayNotDone(s0: RespState, s: RespState, k: nat, x: nat, res: nat)
    requires Midway(s0, s, k, x, res)
    ensures x < |s.iov|
  {
  }

  lemma MidwayHead(s0: RespState, s: RespState, k: nat, x: nat, res: nat)
    requires Midway(s0, s, k, x, res) && x < |s.iov|
    ensures IovOk(s.iov[x], s.chunkedTotal)
    ensures s.iov[x].base.ItemHeader? <==> s.chunkedDataIov != 0 && x == s.chunkedDataIov
    ensures s.tosend == s.iov[x].len + |Gather(s.iov[x + 1..], s.chunkedTotal)|
  {
    assert s.iov[x] == s.iov[x..][0] == s0.iov[x..][0] == s0.iov[x];
    assert s.iov[x..][1..] == s.iov[x + 1..];
  }

  lemma MidwayStep(s0: RespState, s: RespState, k: nat, x: nat, res: nat)
    requires Midway(s0, s, k, x, res) && x < |s.iov| && s.iov[x].len <= res
    ensures s.iov[x].len <= s.tosend
    ensures Midway(s0, s.(iov := s.iov[x := s.iov[x].(len := 0)], tosend := s.tosend - s.iov[x].len),
                   k, x + 1, res - s.iov[x].len)
  {
    MidwayHead(s0, s, k, x, res);
    var zeroed := s.iov[x].(len := 0);
    UpdateSplits(s.iov, x, zeroed);
    UpdateSplits(s0.iov, x, zeroed);
    Assoc(s.iov[..x], [zeroed], AdvanceAll(s.iov[x + 1..], res - s.iov[x].len));
  }

  lemma MidwayLast(s0: RespState, s: RespState, k: nat, x: nat, res: nat)
    requires Midway(s0, s, k, x, res) && x < |s.iov| && res < s.iov[x].len
    ensures s.iov[x].base.ItemHeader? <==> s.chunkedDataIov != 0 && x == s.chunkedDataIov
    ensures res <= s.tosend && k <= s0.tosend
    ensures AdvanceResp(s0, k) ==
      s.(iov := s.iov[x := Transmit.Advance(s.iov[x], res)], tosend := s.tosend - res)
  {
    MidwayHead(s0, s, k, x, res);
    var cut := Transmit.Advance(s.iov[x], res);
    UpdateSplits(s.iov, x, cut);
    Assoc(s.iov[..x], [cut], s.iov[x + 1..]);
  }

  lemma UpdateSplits<T>(s: seq<T>, x: nat, v: T)
    requires x < |s|
    ensures s[x..] == [s[x]] + s[x + 1..]
    ensures s[x := v][x + 1..] == s[x + 1..] == s[x..][1..]
    ensures s[x := v][..x + 1] == s[..x] + [v]
    ensures s[x := v] == s[..x] + [v] + s[x + 1..]
  {
  }

  // ------------------------------------------------------ gathering iovecs

  /** What an array of kernel iovecs denotes: every entry points into memory. */
  predicate PiecesOk(pieces: seq<Iovec>) {
    forall x :: 0 <= x < |pieces| ==> pieces[x].base.Memory? && IovOk(pieces[x], 0)
  }

  function Content(pieces: seq<Iovec>): seq<byte> {
    Gather(pieces, 0)
  }

  lemma ContentSnoc(pieces: seq<Iovec>, v: Iovec)
    requires PiecesOk(pieces) && v.base.Memory? && IovOk(v, 0)
    ensures PiecesOk(pieces + [v])
    ensures Content(pieces + [v]) == Content(pieces) + IovBytes(v, 0)
  {
    GatherSnoc(pieces, v, 0);
  }

  /** What the chunk walk has still to emit. */
  function Rest(chunks: seq<seq<byte>>, done: nat, todo: int): seq<byte>
    requires todo > 0 ==> done + todo <= |Flatten(chunks)|
  {
    if todo <= 0 then [] else Flatten(chunks)[done..done + todo]
  }

  /** One chunk of the walk: skipped whole, or emitted from `done` up to what is wanted. */
  lemma ChunkStep(chunks: seq<seq<byte>>, done: nat, todo: int)
    requires chunks != [] && 0 < todo && done + todo <= |Flatten(chunks)|
    ensures done >= |chunks[0]| ==>
      && done - |chunks[0]| + todo <= |Flatten(chunks[1..])|
      && Rest(chunks, done, todo) == Rest(chunks[1..], done - |chunks[0]|, todo)
    ensures done < |chunks[0]| ==>
      var here := |chunks[0]| - done;
      && todo - here <= |Flatten(chunks[1..])|
      && Rest(chunks, done, todo) ==
         chunks[0][done..done + Min(here, todo)] + Rest(chunks[1..], 0, todo - here)
  {
    hide Flatten;
    FlattenFirst(chunks);
    if done >= |chunks[0]| {
      SpanBehind(chunks[0], Flatten(chunks[1..]), done, todo);
    } else {
      SpanAcross(chunks[0], Flatten(chunks[1..]), done, todo);
    }
  }

  lemma FlattenFirst(chunks: seq<seq<byte>>)
    requires chunks != []
    ensures Flatten(chunks) == chunks[0] + Flatten(chunks[1..])
  {
  }

  lemma SpanBehind<T>(c: seq<T>, rest: seq<T>, done: nat, todo: nat)
    requires |c| <= done && done + todo <= |c| + |rest|
    ensures (c + rest)[done..done + todo] == rest[done - |c|..done - |c| + todo]
  {
  }

  lemma SpanAcross<T>(c: seq<T>, rest: seq<T>, done: nat, todo: nat)
    requires done < |c| && done + todo <= |c| + |rest|
    ensures var here := |c| - done;
      (c + rest)[done..done + todo] ==
      c[done..done + Min(here, todo)] + (if todo <= here then [] else rest[0..todo - here])
  {
  }

  /** iovs[used] := v, as growth of the filled stretch iovs[used0..used]. */
  method Emit(iovs: array<Iovec>, used0: nat, used: nat, v: Iovec)
    requires used0 <= used < iovs.Length
    modifies iovs
    ensures iovs[..used0] == old(iovs[..used0])
    ensures iovs[used0..used + 1] == old(iovs[used0..used]) + [v]
  {
    iovs[used] := v;
  }

  /** The chunk loop at chunk k: `pieces` are emitted, all nonempty, and what is still to emit
      completes them to `wanted`. */
  ghost predicate ChunkWalk(chunks: seq<seq<byte>>, k: nat, done: nat, todo: int, pieces: seq<Iovec>, wanted: seq<byte>) {
    && k <= |chunks|
    && PiecesOk(pieces)
    && (Content(pieces) == [] ==> pieces == [])
    && (todo > 0 ==> done + todo <= |Flatten(chunks[k..])|)
    && Content(pieces) + Rest(chunks[k..], done, todo) == wanted
  }

  lemma ChunkWalkStart(chunks: seq<seq<byte>>, done: nat, todo: nat)
    requires done + todo <= |Flatten(chunks)|
    ensures ChunkWalk(chunks, 0, done, todo, [], Flatten(chunks)[done..done + todo])
  {
    assert chunks[0..] == chunks;
  }

  lemma ChunkWalkSkip(chunks: seq<seq<byte>>, k: nat, done: nat, todo: int, pieces: seq<Iovec>, wanted: seq<byte>)
    requires ChunkWalk(chunks, k, done, todo, pieces, wanted)
    requires k < |chunks| && todo > 0 && done >= |chunks[k]|
    ensures ChunkWalk(chunks, k + 1, done - |chunks[k]|, todo, pieces, wanted)
  {
    assert chunks[k..][1..] == chunks[k + 1..];
    ChunkStep(chunks[k..], done, todo);
  }

  lemma ChunkWalkEmit(chunks: seq<seq<byte>>, k: nat, done: nat, todo: int, pieces: seq<Iovec>, wanted: seq<byte>, piece: Iovec)
    requires ChunkWalk(chunks, k, done, todo, pieces, wanted)
    requires k < |chunks| && todo > 0 && done < |chunks[k]|
    requires piece == Iovec(Memory(chunks[k], done), Min(|chunks[k]| - done, todo))
    ensures ChunkWalk(chunks, k + 1, 0, todo - (|chunks[k]| - done), pieces + [piece], wanted)
  {
    hide Gather, IovBytes, Flatten, Content, PiecesOk, IovOk, Rest;
    var here, rest := |chunks[k]| - done, chunks[k + 1..];
    assert chunks[k..][1..] == rest;
    ChunkStep(chunks[k..], done, todo);
    PieceBytes(chunks[k], done, piece);
    ContentSnoc(pieces, piece);
    CarryOn(Content(pieces), IovBytes(piece, 0), Rest(rest, 0, todo - here), Rest(chunks[k..], done, todo), wanted);
  }

  lemma PieceBytes(cell: seq<byte>, offset: nat, piece: Iovec)
    requires offset < |cell| && piece.base == Memory(cell, offset) && 0 < piece.len <= |cell| - offset
    ensures IovOk(piece, 0) && IovBytes(piece, 0) == cell[offset..offset + piece.len] != []
  {
  }

  lemma CarryOn(sent: seq<byte>, piece: seq<byte>, later: seq<byte>, rest: seq<byte>, wanted: seq<byte>)
    requires rest == piece + later && sent + rest == wanted
    ensures sent + piece + later == wanted
  {
  }

  lemma ChunkWalkStop(chunks: seq<seq<byte>>, k: nat, done: nat, todo: int, pieces: seq<Iovec>, wanted: seq<byte>)
    requires ChunkWalk(chunks, k, done, todo, pieces, wanted)
    ensures PiecesOk(pieces) && Content(pieces) <= wanted
    ensures Content(pieces) == [] ==> pieces == []
    ensures k >= |chunks| || todo <= 0 ==> Content(pieces) == wanted
  {
    assert k == |chunks| ==> Flatten(chunks[k..]) == [];
  }

  /** The slots an iovec can take: one for every chunk of an item. */
  function SlotsOf(v: Iovec): nat {
    match v.base
    case ItemHeader(chunks) => Max(1, |chunks|)
    case Memory(_, _) => 1
  }

  function Slots(iov: seq<Iovec>): nat {
    if iov == [] then 0 else Slots(iov[..|iov| - 1]) + SlotsOf(iov[|iov| - 1])
  }

  lemma SlotsNext(iov: seq<Iovec>, x: nat)
    ensures Slots([]) == 0
    ensures x < |iov| ==> Slots(iov[..x + 1]) == Slots(iov[..x]) + SlotsOf(iov[x])
  {
    if x < |iov| {
      assert iov[..x + 1][..x] == iov[..x];
    }
  }

  lemma {:induction false} SlotsGrow(iov: seq<Iovec>, x: nat)
    requires x <= |iov|
    ensures Slots(iov[..x]) + |iov| - x <= Slots(iov)
  {
    if x == |iov| {
      assert iov[..x] == iov;
    } else {
      SlotsGrow(iov[..|iov| - 1], x);
      assert iov[..|iov| - 1][..x] == iov[..x];
    }
  }

  /** The slots a whole queue can take. */
  function QueueSlots(q: seq<RespState>): nat {
    if q == [] then 0
    else QueueSlots(q[..|q| - 1]) + if q[|q| - 1].skip then 0 else Slots(q[|q| - 1].iov)
  }

  lemma QueueSlotsNext(q: seq<RespState>, n: nat)
    ensures QueueSlots([]) == 0
    ensures n < |q| ==> QueueSlots(q[..n + 1]) == QueueSlots(q[..n]) + if q[n].skip then 0 else Slots(q[n].iov)
  {
    hide Slots;
    if n < |q| {
      assert q[..n + 1][..n] == q[..n];
    }
  }

  lemma {:induction false} QueueSlotsGrow(q: seq<RespState>, n: nat)
    requires n <= |q|
    ensures QueueSlots(q[..n]) <= QueueSlots(q)
  {
    hide Slots;
    if n == |q| {
      assert q[..n] == q;
    } else {
      QueueSlotsGrow(q[..|q| - 1], n);
      assert q[..|q| - 1][..n] == q[..n];
    }
  }

  /** The chunk loop of _transmit_pre: emit bytes [done0, done0 + todo0) of the item. */
  method GatherChunks(chunks: seq<seq<byte>>, done0: nat, todo0: nat, iovs: array<Iovec>, used0: nat, limit: nat)
    returns (used: nat)
    requires used0 < limit <= iovs.Length && done0 + todo0 <= |Flatten(chunks)|
    modifies iovs
    ensures used0 <= used <= limit && iovs[..used0] == old(iovs[..used0])
    ensures PiecesOk(iovs[used0..used])
    ensures Content(iovs[used0..used]) <= Flatten(chunks)[done0..done0 + todo0]
    ensures used < limit || used == used0
            ==> Content(iovs[used0..used]) == Flatten(chunks)[done0..done0 + todo0]
    ensures Content(iovs[used0..used]) == [] ==> used == used0
    ensures used - used0 <= |chunks|
  {
    hide ChunkWalk, PiecesOk, Content, Flatten;
    var k: nat, done: nat, todo: int := 0, done0, todo0;
    used := used0;
    ghost var wanted := Flatten(chunks)[done0..done0 + todo0];
    ChunkWalkStart(chunks, done0, todo0);
    assert iovs[used0..used] == [];
    while k < |chunks| && todo > 0 && used < limit
      invariant used0 <= used <= limit && iovs[..used0] == old(iovs[..used0])
      invariant used - used0 <= k <= |chunks|
      invariant ChunkWalk(chunks, k, done, todo, iovs[used0..used], wanted)
      decreases |chunks| - k
    {
      var ch := chunks[k];
      if |ch| == 0 {
        ChunkWalkSkip(chunks, k, done, todo, iovs[used0..used], wanted);
        k := k + 1;
        continue;
      }
      if done >= |ch| {
        ChunkWalkSkip(chunks, k, done, todo, iovs[used0..used], wanted);
        done := done - |ch|;
        k := k + 1;
        continue;
      }
      var skipped := done;
      var piece := Iovec(Memory(ch, skipped), if |ch| - skipped > todo then todo else |ch| - skipped);
      ChunkWalkEmit(chunks, k, done, todo, iovs[used0..used], wanted, piece);
      done := 0;
      Emit(iovs, used0, used, piece);
      used := used + 1;
      todo := todo - (|ch| - skipped);
      k := k + 1;
    }
    ChunkWalkStop(chunks, k, done, todo, iovs[used0..used], wanted);
  }

  lemma GatherSplit(iov: seq<Iovec>, x: nat, total: nat)
    requires x < |iov|
    ensures Gather(iov[..x + 1], total) == Gather(iov[..x], total) + IovBytes(iov[x], total)
    ensures Gather(iov, total) == Gather(iov[..x + 1], total) + Gather(iov[x + 1..], total)
  {
    assert iov[..x + 1] == iov[..x] + [iov[x]];
    GatherSnoc(iov[..x], iov[x], total);
    assert iov == iov[..x + 1] + iov[x + 1..];
    GatherConcat(iov[..x + 1], iov[x + 1..], total);
  }

  lemma ContentAppend(pieces: seq<Iovec>, more: seq<Iovec>)
    requires PiecesOk(pieces) && PiecesOk(more)
    ensures PiecesOk(pieces + more)
    ensures Content(pieces + more) == Content(pieces) + Content(more)
  {
    GatherConcat(pieces, more, 0);
  }

  lemma StackSlices<T>(before: seq<T>, after: seq<T>, lo: nat, mid: nat, hi: nat)
    requires lo <= mid <= |before| && mid <= hi <= |after|
    requires after[..mid] == before[..mid]
    ensures after[..lo] == before[..lo]
    ensures after[lo..hi] == before[lo..mid] + after[mid..hi]
  {
    assert after[..mid][..lo] == before[..mid][..lo];
    assert after[..mid][lo..] == before[..mid][lo..];
  }

  /** Pieces gathered behind earlier ones: the filled stretch is both, in order. */
  lemma Absorb(before: seq<Iovec>, after: seq<Iovec>, used0: nat, used1: nat, used: nat)
    requires used0 <= used1 <= |before| && used1 <= used <= |after|
    requires after[..used1] == before[..used1]
    requires PiecesOk(before[used0..used1]) && PiecesOk(after[used1..used])
    ensures after[..used0] == before[..used0]
    ensures PiecesOk(after[used0..used])
    ensures Content(after[used0..used]) == Content(before[used0..used1]) + Content(after[used1..used])
  {
    StackSlices(before, after, used0, used1, used);
    ContentAppend(before[used0..used1], after[used1..used]);
  }

  lemma ItemBytes(v: Iovec, total: nat)
    requires IovOk(v, total) && v.base.ItemHeader?
    ensures v.len <= total <= |Flatten(v.base.chunks)|
    ensures IovBytes(v, total) == Flatten(v.base.chunks)[total - v.len..total]
  {
  }

  lemma MemoryIov(v: Iovec, total: nat)
    requires IovOk(v, total) && v.base.Memory?
    ensures IovOk(v, 0) && IovBytes(v, 0) == IovBytes(v, total)
    ensures v.len == 0 <==> IovBytes(v, 0) == []
  {
  }

  /** One iovec of a chunked response: copied as it is, or expanded into its chunks. */
  method GatherIov(v: Iovec, chunked: bool, total: nat, iovs: array<Iovec>, used0: nat, used1: nat, limit: nat)
    returns (used: nat)
    requires IovOk(v, total) && chunked == v.base.ItemHeader?
    requires used0 <= used1 < limit <= iovs.Length && PiecesOk(iovs[used0..used1])
    modifies iovs
    ensures used1 <= used <= limit && iovs[..used0] == old(iovs[..used0])
    ensures PiecesOk(iovs[used0..used])
    ensures Content(iovs[used0..used]) <= old(Content(iovs[used0..used1])) + IovBytes(v, total)
    ensures used < limit ==> Content(iovs[used0..used]) == old(Content(iovs[used0..used1])) + IovBytes(v, total)
    ensures Content(iovs[used0..used]) == [] ==> used <= used1 + 1 && old(Content(iovs[used0..used1])) == []
    ensures used - used1 <= SlotsOf(v)
  {
    hide PiecesOk, Content, IovBytes;
    ghost var was := iovs[..];
    if chunked {
      ItemBytes(v, total);
      used := GatherChunks(v.base.chunks, total - v.len, v.len, iovs, used1, limit);
      Absorb(was, iovs[..], used0, used1, used);
    } else {
      MemoryIov(v, total);
      ContentSnoc(iovs[used0..used1], v);
      Emit(iovs, used0, used1, v);
      used := used1 + 1;
    }
  }

  lemma ChunkedParts(s: RespState)
    requires RespOk(s) && s.chunkedDataIov != 0
    ensures Payload(s) == Gather(s.iov, s.chunkedTotal)
    ensures forall x :: 0 <= x < |s.iov| ==>
      IovOk(s.iov[x], s.chunkedTotal) && (x == s.chunkedDataIov <==> s.iov[x].base.ItemHeader?)
  {
  }

  lemma NoContent(total: nat)
    ensures PiecesOk([]) && Content([]) == [] && Gather([], total) == []
  {
  }

  /** The chunked branch of _transmit_pre: every iovec of the response in turn, the chunked one
      expanded into its chunks, stopping when the slots run out. */
  method GatherChunked(r: Resp, iovs: array<Iovec>, used0: nat, limit: nat) returns (used: nat)
    requires RespOk(r.State()) && r.chunkedDataIov != 0
    requires used0 + |r.iov| < limit <= iovs.Length
    modifies iovs
    ensures used0 <= used <= limit && iovs[..used0] == old(iovs[..used0])
    ensures PiecesOk(iovs[used0..used])
    ensures Content(iovs[used0..used]) <= Payload(r.State())
    ensures used < limit ==> Content(iovs[used0..used]) == Payload(r.State())
    ensures Content(iovs[used0..used]) == [] ==> used <= used0 + |r.iov|
    ensures used - used0 <= Slots(r.iov)
  {
    hide Slots, SlotsOf;
    hide Content, PiecesOk, Gather, IovBytes, IovOk, RespOk, Payload;
    var iov, total := r.iov, r.chunkedTotal;
    ChunkedParts(r.State());
    NoContent(total);
    SlotsNext(iov, 0);
    used := used0;
    assert iovs[used0..used] == [] && iov[..0] == [];
    for x := 0 to |iov|
      invariant used0 <= used < limit && iovs[..used0] == old(iovs[..used0])
      invariant PiecesOk(iovs[used0..used])
      invariant Content(iovs[used0..used]) == Gather(iov[..x], total)
      invariant Content(iovs[used0..used]) == [] ==> used <= used0 + x
      invariant used - used0 <= Slots(iov[..x])
    {
      SlotsNext(iov, x);
      SlotsGrow(iov, x + 1);
      GatherSplit(iov, x, total);
      used := GatherIov(iov[x], x == r.chunkedDataIov, total, iovs, used0, used, limit);
      if used >= limit {
        return;
      }
    }
    assert iov[..|iov|] == iov;
  }

  /** The memcpy of an unchunked response's iovecs. */
  method CopyIovs(iov: seq<Iovec>, iovs: array<Iovec>, used0: nat) returns (used: nat)
    requires used0 + |iov| <= iovs.Length
    modifies iovs
    ensures used == used0 + |iov| && iovs[..used0] == old(iovs[..used0])
    ensures iovs[used0..used] == iov
  {
    forall x | 0 <= x < |iov| {
      iovs[used0 + x] := iov[x];
    }
    used := used0 + |iov|;
  }

  /** One response of the gather: all its iovecs at once, or the chunked walk. */
  method GatherResp(r: Resp, iovs: array<Iovec>, used0: nat, used1: nat, limit: nat) returns (used: nat)
    requires RespOk(r.State())
    requires used0 <= used1 && used1 + |r.iov| < limit <= iovs.Length && PiecesOk(iovs[used0..used1])
    modifies iovs
    ensures used1 <= used <= limit && iovs[..used0] == old(iovs[..used0])
    ensures PiecesOk(iovs[used0..used])
    ensures Content(iovs[used0..used]) <= old(Content(iovs[used0..used1])) + Payload(r.State())
    ensures used < limit || Content(iovs[used0..used]) == []
            ==> Content(iovs[used0..used]) == old(Content(iovs[used0..used1])) + Payload(r.State())
    ensures r.chunkedDataIov == 0 ==> used < limit
    ensures used - used1 <= Slots(r.iov)
  {
    SlotsGrow(r.iov, 0);
    hide Slots;
    ghost var was := iovs[..];
    if r.chunkedDataIov != 0 {
      used := GatherChunked(r, iovs, used1, limit);
    } else {
      used := CopyIovs(r.iov, iovs, used1);
      GatherMemory(r.iov, r.chunkedTotal, 0);
    }
    Absorb(was, iovs[..], used0, used1, used);
  }

  predicate AllSkipped(q: seq<RespState>) {
    forall i :: 0 <= i < |q| ==> q[i].skip
  }

  /** The response loop of _transmit_pre after n responses. */
  ghost predicate PreLoop(q: seq<RespState>, n: nat, content: seq<byte>, untouched: bool, room: bool) {
    && n <= |q|
    && content <= Pending(q[..n])
    && (room ==> content == Pending(q[..n]))
    && (AllSkipped(q[..n]) ==> untouched)
    && (!AllSkipped(q[..n]) && content == [] ==> FirstPayload(q) == [])
  }

  lemma {:induction false} SkippedPrefix(q: seq<RespState>, n: nat)
    requires n <= |q| && AllSkipped(q[..n])
    ensures Pending(q[..n]) == []
    ensures n < |q| && !q[n].skip ==>
      FirstPayload(q) == Payload(q[n]) && FirstChunked(q) == (q[n].chunkedDataIov != 0)
    ensures n == |q| ==> FirstPayload(q) == []
  {
    if n > 0 {
      assert q[..n][0].skip && q[..n][1..] == q[1..][..n - 1];
      SkippedPrefix(q[1..], n - 1);
    }
  }

  lemma PendingPrefix(q: seq<RespState>, n: nat)
    requires n <= |q|
    ensures Pending(q[..n]) <= Pending(q)
  {
    PendingConcat(q[..n], q[n..]);
    assert q[..n] + q[n..] == q;
  }

  lemma PendingOne(r: RespState)
    ensures Pending([r]) == Contribution(r)
  {
    assert [r][1..] == [];
  }

  lemma PendingSnoc(q: seq<RespState>, n: nat)
    requires n < |q|
    ensures Pending(q[..n + 1]) == Pending(q[..n]) + Contribution(q[n])
  {
    hide *;
    PendingConcat(q[..n], [q[n]]);
    PendingOne(q[n]);
    assert q[..n] + [q[n]] == q[..n + 1];
  }

  lemma PreStart(q: seq<RespState>)
    ensures PiecesOk([]) && PreLoop(q, 0, Content([]), true, true) && AllSkipped(q[..0])
  {
  }

  lemma PreSkip(q: seq<RespState>, n: nat, content: seq<byte>, untouched: bool, room: bool)
    requires PreLoop(q, n, content, untouched, room) && n < |q| && q[n].skip
    ensures PreLoop(q, n + 1, content, untouched, room)
    ensures AllSkipped(q[..n]) <==> AllSkipped(q[..n + 1])
  {
    hide Pending, FirstPayload, Payload;
    PendingSnoc(q, n);
    assert q[..n + 1] == q[..n] + [q[n]];
  }

  lemma PreTake(q: seq<RespState>, n: nat, before: seq<byte>, untouched: bool, after: seq<byte>, still: bool, room: bool)
    requires PreLoop(q, n, before, untouched, true) && n < |q| && !q[n].skip
    requires after <= before + Payload(q[n])
    requires room || after == [] ==> after == before + Payload(q[n])
    ensures PreLoop(q, n + 1, after, still, room) && !AllSkipped(q)
    ensures AllSkipped(q[..n]) ==>
      && after <= FirstPayload(q)
      && (room ==> after == FirstPayload(q))
      && (after == [] ==> FirstPayload(q) == [])
      && FirstChunked(q) == (q[n].chunkedDataIov != 0)
  {
    hide Pending, FirstPayload, Payload, AllSkipped;
    PendingSnoc(q, n);
    NotAllSkipped(q, n);
    if AllSkipped(q[..n]) {
      SkippedPrefix(q, n);
    }
  }

  lemma NotAllSkipped(q: seq<RespState>, n: nat)
    requires n < |q| && !q[n].skip
    ensures !AllSkipped(q) && !AllSkipped(q[..n + 1])
  {
    assert q[..n + 1][n] == q[n];
  }

  /** What a gather may draw from: the whole pending stream, or one response of it. */
  function Offered(q: seq<RespState>, oneResp: bool): seq<byte> {
    if oneResp then FirstPayload(q) else Pending(q)
  }

  lemma OfferedOne(q: seq<RespState>)
    ensures Offered(q, true) == FirstPayload(q)
  {
  }

  lemma PreDone(q: seq<RespState>, n: nat, content: seq<byte>, untouched: bool, room: bool, oneResp: bool)
    requires PreLoop(q, n, content, untouched, room)
    requires oneResp ==> AllSkipped(q[..n])
    ensures content <= Offered(q, oneResp)
    ensures n == |q| && room ==> content == Offered(q, oneResp)
    ensures content == [] && (n == |q| || !untouched) ==> FirstPayload(q) == []
    ensures oneResp ==> untouched && (n == |q| ==> content == FirstPayload(q))
    ensures AllSkipped(q) ==> untouched
  {
    PendingPrefix(q, n);
    assert q[..|q|] == q;
    if AllSkipped(q[..n]) {
      SkippedPrefix(q, n);
    }
  }

  // ------------------------------------------------------- the connection

  ghost function States(rs: seq<Resp>): (q: seq<RespState>)
    reads rs`iov, rs`tosend, rs`chunkedDataIov, rs`chunkedTotal, rs`skip
    ensures |q| == |rs|
    ensures forall i :: 0 <= i < |rs| ==> q[i] == rs[i].State()
  {
    if rs == [] then [] else [rs[0].State()] + States(rs[1..])
  }

  /** The bytes a socket takes of what it is offered when it accepts up to n. */
  function SocketTakes(offered: seq<byte>, n: nat): seq<byte> {
    offered[..Min(n, |offered|)]
  }

  datatype SendResult = Sent(accepted: nat) | WouldBlock | SendFailed

  datatype TransmitResult = TransmitComplete | TransmitIncomplete | TransmitSoftError | TransmitHardError

  /** What one transmit does to the queue and the wire, when `offered` of the pending stream was
      gathered. The peer gets what the socket took of that, and it is gone from the queue: no byte
      lost, none twice. A write that happened makes progress if the socket accepted anything; an
      error changes nothing, and there is none when no response owes anything. */
  predicate TransmitOutcome(q: seq<RespState>, after: seq<RespState>, offered: seq<byte>, wire: seq<byte>,
                            send: SendResult, updateOk: bool, result: TransmitResult) {
    && offered <= Pending(q)
    && wire == (if send.Sent? then SocketTakes(offered, send.accepted) else [])
    && wire + Pending(after) == Pending(q)
    && (AllSkipped(q) ==> result == TransmitComplete)
    && match result
       case TransmitComplete => after == []
       case TransmitIncomplete =>
         && send.Sent? && after != [] && after == Settle(q, |wire|) && Settled(after)
         && (send.accepted > 0 ==> wire != [] || |after| < |q|)
       case TransmitSoftError => send.WouldBlock? && updateOk && after == q
       case TransmitHardError => !send.Sent? && !(send.WouldBlock? && updateOk) && after == q
  }

  /** A socket that takes all there is of a queue that fits the slots: the peer has all of it, and
      nothing is left. */
  lemma WholeQueueSent(q: seq<RespState>, after: seq<RespState>, offered: seq<byte>, wire: seq<byte>,
                       send: SendResult, updateOk: bool, result: TransmitResult)
    requires QueueOk(q) && TransmitOutcome(q, after, offered, wire, send, updateOk, result)
    requires offered == Pending(q) && send.Sent? && send.accepted >= |Pending(q)|
    ensures wire == Pending(q) && after == [] && result == TransmitComplete
  {
    hide Pending, Settle, AllSkipped;
    assert offered[..|offered|] == offered;
    SettleDropsExactly(q, |wire|);
  }

  predicate WriteSettled(q: seq<RespState>, after: seq<RespState>, offered: seq<byte>, n: nat, wire: seq<byte>) {
    && |wire| <= n
    && after == Settle(q, |wire|) && Settled(after)
    && wire + Pending(after) == Pending(q)
    && (n > 0 && q != [] ==> wire != [] || |after| < |q|)
    && (offered == Pending(q) == [] ==> after == [])
  }

  lemma SettleTaken(q: seq<RespState>, offered: seq<byte>, n: nat)
    requires QueueOk(q) && offered <= Pending(q) && (offered == [] ==> FirstPayload(q) == [])
    ensures var wire := SocketTakes(offered, n); WriteSettled(q, Settle(q, |wire|), offered, n, wire)
  {
    var wire := SocketTakes(offered, n);
    PrefixSplit(Pending(q), offered, |wire|);
    SettleDropsExactly(q, |wire|);
    if offered == [] && q != [] {
      SettleFinishesEmpty(q);
    }
  }

  lemma WriteOutcome(q: seq<RespState>, after: seq<RespState>, offered: seq<byte>, n: nat, wire: seq<byte>,
                     send: SendResult, updateOk: bool)
    requires WriteSettled(q, after, offered, n, wire) && wire == SocketTakes(offered, n) && offered <= Pending(q)
    requires (send.Sent? && n == send.accepted) || offered == Pending(q) == []
    requires AllSkipped(q) ==> offered == Pending(q) == []
    ensures TransmitOutcome(q, after, offered, wire, send, updateOk,
                            if after == [] then TransmitComplete else TransmitIncomplete)
    ensures offered == Pending(q) == [] ==> after == []
  {
    hide Pending;
  }

  lemma ErrorOutcome(q: seq<RespState>, offered: seq<byte>, send: SendResult, updateOk: bool)
    requires !send.Sent? && offered <= Pending(q) && !AllSkipped(q)
    ensures TransmitOutcome(q, q, offered, [], send, updateOk,
                            if send.WouldBlock? && updateOk then TransmitSoftError else TransmitHardError)
  {
    hide Pending, Settle, AllSkipped, Settled, SocketTakes;
    assert [] + Pending(q) == Pending(q);
  }

  lemma SettleFirst(q: seq<RespState>, k: nat)
    requires q != []
    ensures q[0].skip ==> Settle(q, k) == Settle(q[1..], k)
    ensures !q[0].skip && k >= q[0].tosend ==> Settle(q, k) == Settle(q[1..], k - q[0].tosend)
    ensures !q[0].skip && k < q[0].tosend ==> Settle(q, k) == [AdvanceResp(q[0], k)] + q[1..]
  {
  }

  lemma SettleNothing(k: nat)
    ensures Settle([], k) == []
  {
  }

  lemma QueueSnoc(rs: seq<Resp>, r: Resp)
    ensures States(rs + [r]) == States(rs) + [r.State()]
  {
    assert forall i :: 0 <= i < |rs| ==> (rs + [r])[i] == rs[i];
  }

  class Conn {
    var respHead: Resp?
    var resp: Resp?
    const iovMax: nat
    const respIovs: nat
    ghost var chain: seq<Resp>

    /** resp_head .. resp is a chain of distinct, well-formed responses; a response always
        fits in one gather. */
    ghost predicate Valid()
      reads this, chain
    {
      && respIovs < iovMax - 1
      && (forall i :: 0 <= i < |chain| ==> RespOk(chain[i].State()) && |chain[i].iov| <= respIovs)
      && (forall i, j :: 0 <= i < j < |chain| ==> chain[i] != chain[j])
      && (forall i :: 0 <= i < |chain| - 1 ==> chain[i].next == chain[i + 1])
      && (if chain == [] then respHead == null && resp == null
          else respHead == chain[0] && resp == chain[|chain| - 1] && chain[|chain| - 1].next == null)
    }

    ghost function Queue(): seq<RespState>
      reads this, chain`iov, chain`tosend, chain`chunkedDataIov, chain`chunkedTotal, chain`skip
    {
      States(chain)
    }

    constructor (iovMax: nat, respIovs: nat)
      requires respIovs < iovMax - 1
      ensures Valid() && Queue() == [] && this.iovMax == iovMax && this.respIovs == respIovs
    {
      this.iovMax, this.respIovs := iovMax, respIovs;
      respHead, resp, chain := null, null, [];
    }

    /** resp_start: an empty response becomes the new end of the chain, if one can be had. For UDP
        it keeps the id of the request. */
    method RespStart(available: bool, udp: bool, request: nat) returns (r: Resp?)
      requires Valid()
      modifies this, chain
      ensures Valid() && (r == null <==> !available)
      ensures r == null ==> chain == old(chain) && Queue() == old(Queue())
      ensures r != null ==> fresh(r) && chain == old(chain) + [r] && r.requestId == (if udp then request else 0)
                            && Queue() == old(Queue()) + [RespState([], 0, 0, 0, false)]
    {
      hide *;
      if !available {
        return null;
      }
      r := NewResp(udp, request);
      LinkBehind(r);
    }

    /** The object as resp_allocate hands it out, with the request's id. */
    static method NewResp(udp: bool, request: nat) returns (r: Resp)
      ensures fresh(r) && r.State() == RespState([], 0, 0, 0, false) && RespOk(r.State()) && r.iov == []
      ensures r.next == null && r.requestId == if udp then request else 0
    {
      r := new Resp();
      if udp {
        r.requestId := request;
      }
    }

    /** A response that is in no chain becomes the end of this one. */
    method LinkBehind(r: Resp)
      requires Valid() && r !in chain && r.next == null && RespOk(r.State()) && r.iov == []
      modifies this, chain`next
      ensures Valid() && chain == old(chain) + [r] && Queue() == old(Queue()) + [r.State()]
    {
      hide RespOk, States, Resp.State;
      QueueSnoc(chain, r);
      if respHead == null {
        respHead := r;
      }
      if resp == null {
        resp := r;
      } else {
        resp.next := r;
        resp := r;
      }
      chain := chain + [r];
    }

    /** resp_finish on the head of the chain. */
    method RespFinish() returns (next: Resp?)
      requires Valid() && respHead != null
      modifies this
      ensures Valid() && chain == old(chain)[1..] && Queue() == old(Queue())[1..]
      ensures next == respHead
    {
      hide RespOk, States;
      var r := respHead;
      next := r.next;
      respHead := next;
      if resp == r {
        resp := null;
      }
      chain := chain[1..];
    }

    /** The head response takes part of a write; it stays the head. */
    method AdvanceHead(res: nat)
      requires Valid() && respHead != null && res < respHead.tosend
      modifies respHead`iov, respHead`tosend
      ensures Valid()
      ensures Queue() == [AdvanceResp(old(Queue())[0], res)] + old(Queue())[1..]
    {
      hide RespOk, AdvanceAll, States;
      ghost var q := Queue();
      assert q[0] == respHead.State();
      respHead.Advance(res);
      AdvanceRespDrops(q[0], res);
    }

    /** _transmit_post: settle `written` bytes against the chain. */
    method TransmitPost(written: nat)
      requires Valid()
      modifies this, chain`iov, chain`tosend
      ensures Valid() && Queue() == Settle(old(Queue()), written)
      ensures forall r :: r in chain ==> r in old(chain)
      ensures |chain| <= |old(chain)| && (|chain| == |old(chain)| ==> chain == old(chain))
    {
      hide *;
      var res: nat, r := written, respHead;
      HeadFacts();
      while r != null
        invariant Valid() && r == respHead
        invariant forall r :: r in chain ==> r in old(chain)
        invariant |chain| <= |old(chain)| && (|chain| == |old(chain)| ==> chain == old(chain))
        invariant Settle(Queue(), res) == Settle(old(Queue()), written)
        decreases |chain|
      {
        HeadFacts();
        SettleFirst(Queue(), res);
        if r.skip {
          r := RespFinish();
          continue;
        }
        if res >= r.tosend {
          res := res - r.tosend;
          r := RespFinish();
          continue;
        }
        assert respHead == chain[0] && chain[0] in old(chain);
        AdvanceHead(res);
        return;
      }
      HeadFacts();
      SettleNothing(res);
    }

    lemma HeadFacts()
      requires Valid()
      ensures |Queue()| == |chain| && (respHead == null <==> chain == [])
      ensures chain != [] ==> respHead == chain[0]
                              && Queue()[0].skip == respHead.skip && Queue()[0].tosend == respHead.tosend
    {
      hide RespOk;
    }

    /** _transmit_pre: gather what fits of the pending stream behind iovs[..used0]. */
    method TransmitPre(iovs: array<Iovec>, used0: nat, oneResp: bool) returns (used: nat)
      requires Valid() && iovs.Length == iovMax && used0 < iovMax - 1
      modifies iovs
      ensures used0 <= used < iovMax && iovs[..used0] == old(iovs[..used0])
      ensures PiecesOk(iovs[used0..used])
      ensures Content(iovs[used0..used]) <= Offered(old(Queue()), oneResp)
      ensures used + respIovs < iovMax - 1 ==> Content(iovs[used0..used]) == Offered(old(Queue()), oneResp)
      ensures used0 + respIovs < iovMax - 1 && Content(iovs[used0..used]) == []
              ==> FirstPayload(old(Queue())) == []
      ensures oneResp && used0 + respIovs < iovMax - 1 && !FirstChunked(old(Queue()))
              ==> Content(iovs[used0..used]) == FirstPayload(old(Queue()))
      ensures used - used0 <= QueueSlots(old(Queue())) && (AllSkipped(old(Queue())) ==> used == used0)
    {
      hide RespOk, States, PiecesOk, Content, Pending, FirstPayload, FirstChunked, PreLoop, Offered, Slots, QueueSlots, Payload;
      var r := respHead;
      used := used0;
      ghost var n: nat, q := 0, Queue();
      assert iovs[used0..used] == [];
      PreStart(q);
      QueueSlotsNext(q, 0);
      while r != null && used + |r.iov| < iovMax - 1
        invariant used0 <= used < iovMax && iovs[..used0] == old(iovs[..used0])
        invariant n <= |chain| && r == (if n < |chain| then chain[n] else null)
        invariant PiecesOk(iovs[used0..used])
        invariant PreLoop(q, n, Content(iovs[used0..used]), used == used0, used < iovMax - 1)
        invariant oneResp ==> AllSkipped(q[..n])
        invariant used - used0 <= QueueSlots(q[..n])
        decreases |chain| - n
      {
        assert q[n] == r.State();
        QueueSlotsNext(q, n);
        QueueSlotsGrow(q, n + 1);
        if r.skip {
          PreSkip(q, n, Content(iovs[used0..used]), used == used0, used < iovMax - 1);
          r := r.next;
          n := n + 1;
          continue;
        }
        ghost var before, untouched := Content(iovs[used0..used]), used == used0;
        used := GatherResp(r, iovs, used0, used, iovMax - 1);
        PreTake(q, n, before, untouched, Content(iovs[used0..used]), used == used0, used < iovMax - 1);
        r := r.next;
        n := n + 1;
        if oneResp {
          OfferedOne(q);
          return;
        }
      }
      PreDone(q, n, Content(iovs[used0..used]), used == used0, used < iovMax - 1, oneResp);
      QueueSlotsGrow(q, n);
    }

    /** The message transmit hands to sendmsg: a fresh iovec array filled from the queue. */
    method BuildMessage() returns (used: nat, offered: seq<byte>)
      requires Valid()
      ensures offered <= Pending(Queue())
      ensures offered == [] ==> FirstPayload(Queue()) == []
      ensures used == 0 ==> offered == Pending(Queue()) == []
      ensures used < iovMax && (AllSkipped(Queue()) ==> used == 0)
      ensures QueueSlots(Queue()) + respIovs < iovMax - 1 ==> offered == Pending(Queue())
    {
      hide RespOk, States, PiecesOk, Pending, FirstPayload, QueueSlots;
      var iovs := new Iovec[iovMax](_ => Iovec(Memory([], 0), 0));
      used := TransmitPre(iovs, 0, false);
      offered := Content(iovs[0..used]);
    }

    /** The socket takes up to n bytes of what it was offered, and the chain is settled. */
    method SettleWrite(offered: seq<byte>, n: nat) returns (wire: seq<byte>)
      requires Valid()
      requires offered <= Pending(Queue()) && (offered == [] ==> FirstPayload(Queue()) == [])
      modifies this, chain
      ensures Valid()
      ensures wire == SocketTakes(offered, n)
      ensures WriteSettled(old(Queue()), Queue(), offered, n, wire)
    {
      hide RespOk, States;
      wire := SocketTakes(offered, n);
      SettleTaken(Queue(), offered, n);
      TransmitPost(|wire|);
    }

    /** transmit: one write of the pending stream. The socket takes the front of what was
        gathered, `send.accepted` bytes or all of it if that is less; and everything was gathered
        if the slots suffice. */
    method Transmit(send: SendResult, updateOk: bool)
      returns (result: TransmitResult, wire: seq<byte>, ghost offered: seq<byte>)
      requires Valid()
      modifies this, chain
      ensures Valid()
      ensures TransmitOutcome(old(Queue()), Queue(), offered, wire, send, updateOk, result)
      ensures QueueSlots(old(Queue())) + respIovs < iovMax - 1 ==> offered == Pending(old(Queue()))
    {
      hide RespOk, States, Pending, Settle, SocketTakes, FirstPayload, WriteSettled, TransmitOutcome, AllSkipped, QueueSlots;
      ghost var q := Queue();
      var used, message := BuildMessage();
      offered := message;
      if used == 0 {
        wire := SettleWrite(message, 0);
        result := TransmitComplete;
        WriteOutcome(q, Queue(), message, 0, wire, send, updateOk);
        return;
      }
      if send.Sent? {
        wire := SettleWrite(message, send.accepted);
        result := if respHead != null then TransmitIncomplete else TransmitComplete;
        WriteOutcome(q, Queue(), message, send.accepted, wire, send, updateOk);
        return;
      }
      wire := [];
      ErrorOutcome(q, message, send, updateOk);
      result := if send.WouldBlock? && updateOk then TransmitSoftError else TransmitHardError;
    }
  }
}
