/** Sending a response over UDP: one datagram per call, each with an 8-byte frame header that
    carries the request id, the datagram's number and the announced total. */
module UdpTransmit {
  import opened Options
  import opened ByteStrings
  import opened Division
  import opened Transmit
  import opened ResponseQueue

  const HEADER_SIZE: nat := 8
  const USHRT_MAX: nat := 65535

  /** A 16-bit counter starts over. */
  function Wrap(n: nat): (r: nat)
    ensures r <= USHRT_MAX && (n <= USHRT_MAX ==> r == n)
  {
    n % (USHRT_MAX + 1)
  }

  datatype Datagram = Datagram(requestId: nat, sequence: nat, total: nat, data: seq<byte>)

  /** How many datagrams of d payload bytes a payload of n bytes is announced to take. */
  function Announced(n: nat, d: nat): nat
    requires d > 0
  {
    var total := n / d + (if n % d != 0 then 1 else 0);
    if total > USHRT_MAX then USHRT_MAX else total
  }

  // ------------------------------------------------------ the frame header

  function HeaderBytes(requestId: nat, sequence: nat, total: nat): seq<byte>
    requires requestId <= USHRT_MAX && sequence <= USHRT_MAX && total <= USHRT_MAX
  {
    [requestId / 256, requestId % 256, sequence / 256, sequence % 256, total / 256, total % 256, 0, 0]
  }

  function Wire(g: Datagram): seq<byte>
    requires g.requestId <= USHRT_MAX && g.sequence <= USHRT_MAX && g.total <= USHRT_MAX
  {
    HeaderBytes(g.requestId, g.sequence, g.total) + g.data
  }

  /** The receiving side of the frame header, as the memcached UDP framing is documented. */
  function ParseDatagram(packet: seq<byte>): Datagram
    requires |packet| >= HEADER_SIZE
  {
    Datagram(Word(packet[0], packet[1]), Word(packet[2], packet[3]), Word(packet[4], packet[5]),
             packet[HEADER_SIZE..])
  }

  function Word(high: nat, low: nat): nat { high * 256 + low }

  lemma HeaderSize(requestId: nat, sequence: nat, total: nat)
    requires requestId <= USHRT_MAX && sequence <= USHRT_MAX && total <= USHRT_MAX
    ensures |HeaderBytes(requestId, sequence, total)| == HEADER_SIZE
  {
  }

  lemma HeaderRoundTrip(g: Datagram)
    requires g.requestId <= USHRT_MAX && g.sequence <= USHRT_MAX && g.total <= USHRT_MAX
    ensures |Wire(g)| == HEADER_SIZE + |g.data|
    ensures ParseDatagram(Wire(g)) == g
  {
    var w := Wire(g);
    assert w[..HEADER_SIZE] == HeaderBytes(g.requestId, g.sequence, g.total);
    assert w[HEADER_SIZE..] == g.data;
  }

  /** A datagram on the wire, byte by byte: request id, number and total, high byte first, two
      reserved bytes of zero, and the data. */
  lemma WireLayout(g: Datagram)
    requires g.requestId <= USHRT_MAX && g.sequence <= USHRT_MAX && g.total <= USHRT_MAX
    ensures var w := Wire(g);
      && |w| == 8 + |g.data| && w[8..] == g.data
      && w[0] as int * 256 + w[1] == g.requestId && w[2] as int * 256 + w[3] == g.sequence
      && w[4] as int * 256 + w[5] == g.total
      && w[6] == w[7] == 0
  {
    assert Wire(g)[HEADER_SIZE..] == g.data;
  }

  // -------------------------------------------------- a response's datagrams

  /** The datagrams delivered for payload p over a series of send attempts, each of which either
      delivers its datagram whole or delivers nothing. The number advances with every attempt. */
  function Delivered(p: seq<byte>, d: nat, requestId: nat, sequence: nat, total: nat, attempts: seq<bool>): seq<Datagram>
    requires d > 0
    decreases |attempts|
  {
    if attempts == [] then []
    else
      var next := Wrap(sequence + 1);
      if !attempts[0] then Delivered(p, d, requestId, next, total, attempts[1..])
      else
        [Datagram(requestId, sequence, total, p[..Min(d, |p|)])] +
        (if |p| <= d then [] else Delivered(p[d..], d, requestId, next, total, attempts[1..]))
  }

  function Payloads(gs: seq<Datagram>): seq<byte> {
    if gs == [] then [] else gs[0].data + Payloads(gs[1..])
  }

  lemma PayloadsCons(g: Datagram, rest: seq<Datagram>)
    ensures Payloads([g] + rest) == g.data + Payloads(rest)
  {
    assert ([g] + rest)[1..] == rest;
  }

  /** Datagrams it takes to deliver n bytes: an empty response still costs one. */
  function DatagramsNeeded(n: nat, d: nat): nat
    requires d > 0
  {
    if n <= d then 1 else 1 + DatagramsNeeded(n - d, d)
  }

  function Successes(attempts: seq<bool>): nat {
    if attempts == [] then 0 else (if attempts[0] then 1 else 0) + Successes(attempts[1..])
  }

  /** Attempts that failed before the (k+1)-th success. */
  function FailuresBefore(attempts: seq<bool>, k: nat): nat
    requires k < Successes(attempts)
  {
    if attempts[0] then (if k == 0 then 0 else FailuresBefore(attempts[1..], k - 1))
    else 1 + FailuresBefore(attempts[1..], k)
  }

  lemma {:induction false} NeededIsCeiling(n: nat, d: nat)
    requires d > 0
    ensures DatagramsNeeded(n, d) == Max(1, n / d + (if n % d != 0 then 1 else 0))
    decreases n
  {
    if n > d {
      NeededIsCeiling(n - d, d);
      DivideStep(n, d);
    } else if n == d {
      assert n / d == 1 && n % d == 0;
    } else {
      assert n / d == 0 && n % d == n;
    }
  }

  lemma DivideStep(n: nat, d: nat)
    requires n > d > 0
    ensures n / d == (n - d) / d + 1 && n % d == (n - d) % d
  {
    var q, r := (n - d) / d, (n - d) % d;
    assert n == (q + 1) * d + r;
    DivideUnique(n, d, q + 1, r);
  }

  /** The announced total is what is really sent exactly for a nonempty response of at most
      65535 datagrams. */
  lemma AnnouncementHonest(n: nat, d: nat)
    requires d > 0
    ensures Announced(n, d) == DatagramsNeeded(n, d) <==> n > 0 && DatagramsNeeded(n, d) <= USHRT_MAX
    ensures Announced(n, d) == if n == 0 then 0 else Min(DatagramsNeeded(n, d), 65535)
  {
    NeededIsCeiling(n, d);
    if n > 0 {
      if n / d == 0 {
        assert n % d == n;
      }
    } else {
      assert n / d == 0 && n % d == 0;
    }
  }

  /** Whatever the attempts: each datagram is a slice of at most d bytes, the slices are the
      front of the payload in order, and they are all of it once enough attempts succeeded. */
  lemma DeliveredPayload(p: seq<byte>, d: nat, requestId: nat, sequence: nat, total: nat, attempts: seq<bool>)
    requires d > 0
    ensures var gs := Delivered(p, d, requestId, sequence, total, attempts);
      && |gs| == Min(Successes(attempts), DatagramsNeeded(|p|, d))
      && (forall i :: 0 <= i < |gs| ==> |gs[i].data| <= d && gs[i].requestId == requestId && gs[i].total == total)
      && Payloads(gs) <= p
      && (|gs| == DatagramsNeeded(|p|, d) ==> Payloads(gs) == p)
  {
    DeliveredSlices(p, d, requestId, sequence, total, attempts);
  }

  /** These datagrams are the front of p in slices, or all of it. */
  ghost predicate InSlices(gs: seq<Datagram>, p: seq<byte>, d: nat, requestId: nat, total: nat)
    requires d > 0
  {
    && (forall i :: 0 <= i < |gs| ==> |gs[i].data| <= d && gs[i].requestId == requestId && gs[i].total == total)
    && |gs| <= DatagramsNeeded(|p|, d)
    && Payloads(gs) <= p
    && (|gs| == DatagramsNeeded(|p|, d) ==> Payloads(gs) == p)
  }

  lemma NoSlices(p: seq<byte>, d: nat, requestId: nat, total: nat)
    requires d > 0
    ensures InSlices([], p, d, requestId, total) && Successes([]) == 0 && DatagramsNeeded(|p|, d) >= 1
  {
  }

  lemma LastSlice(g: Datagram, p: seq<byte>, d: nat)
    requires |p| <= d && d > 0 && g.data == p
    ensures InSlices([g], p, d, g.requestId, g.total) && DatagramsNeeded(|p|, d) == 1
  {
    assert Payloads([g][1..]) == [];
  }

  lemma OneMoreSlice(g: Datagram, rest: seq<Datagram>, p: seq<byte>, d: nat)
    requires |p| > d > 0 && g.data == p[..d] && InSlices(rest, p[d..], d, g.requestId, g.total)
    ensures InSlices([g] + rest, p, d, g.requestId, g.total)
    ensures DatagramsNeeded(|p|, d) == 1 + DatagramsNeeded(|p| - d, d)
  {
    hide Payloads;
    PayloadsCons(g, rest);
    assert p == p[..d] + p[d..];
  }

  lemma CountNext(attempts: seq<bool>)
    requires attempts != []
    ensures Successes(attempts) == (if attempts[0] then 1 else 0) + Successes(attempts[1..])
  {
  }

  lemma {:induction false} DeliveredSlices(p: seq<byte>, d: nat, requestId: nat, sequence: nat, total: nat, attempts: seq<bool>)
    requires d > 0
    ensures var gs := Delivered(p, d, requestId, sequence, total, attempts);
      InSlices(gs, p, d, requestId, total) && |gs| == Min(Successes(attempts), DatagramsNeeded(|p|, d))
    decreases |attempts|
  {
    hide Delivered, InSlices, Successes, DatagramsNeeded, SocketTakes, Wrap;
    NoSlices(p, d, requestId, total);
    if attempts == [] {
      DeliveredNothing(p, d, requestId, sequence, total);
    } else {
      var next := Wrap(sequence + 1);
      assert attempts[0..] == attempts;
      DeliveredStep(p, d, requestId, sequence, total, attempts, 0);
      CountNext(attempts);
      TakesFront(p, d);
      var g := Datagram(requestId, sequence, total, SocketTakes(p, d));
      if !attempts[0] {
        DeliveredSlices(p, d, requestId, next, total, attempts[1..]);
      } else if |p| > d {
        DeliveredSlices(p[d..], d, requestId, next, total, attempts[1..]);
        OneMoreSlice(g, Delivered(p[d..], d, requestId, next, total, attempts[1..]), p, d);
      } else {
        LastSlice(g, p, d);
        assert [g] + [] == [g];
      }
    }
  }

  lemma TakesFront(p: seq<byte>, d: nat)
    ensures SocketTakes(p, d) == if |p| > d then p[..d] else p
  {
    assert p[..|p|] == p;
  }

  /** The k-th delivered datagram is numbered by its attempt, not by its place. */
  lemma {:induction false} DeliveredNumbers(p: seq<byte>, d: nat, requestId: nat, sequence: nat, total: nat,
                                            attempts: seq<bool>, k: nat)
    requires d > 0 && sequence <= USHRT_MAX
    requires k < |Delivered(p, d, requestId, sequence, total, attempts)|
    ensures k < Successes(attempts)
    ensures Delivered(p, d, requestId, sequence, total, attempts)[k].sequence
            == Wrap(sequence + k + FailuresBefore(attempts, k))
    decreases |attempts|
  {
    hide *;
    if attempts == [] {
      DeliveredNothing(p, d, requestId, sequence, total);
      assert false;
    }
    var next, later := Wrap(sequence + 1), attempts[1..];
    WrapFits(sequence);
    WrapFits(sequence + 1);
    DeliveredStep(p, d, requestId, sequence, total, attempts, 0);
    CountsStep(attempts, k);
    assert attempts[0..] == attempts;
    if !attempts[0] {
      DeliveredNumbers(p, d, requestId, next, total, later, k);
      WrapThenAdd(sequence + 1, k + FailuresBefore(later, k));
    } else if k > 0 {
      DeliveredNumbers(p[d..], d, requestId, next, total, later, k - 1);
      WrapThenAdd(sequence + 1, k - 1 + FailuresBefore(later, k - 1));
    }
  }

  lemma WrapFits(n: nat)
    ensures Wrap(n) <= USHRT_MAX && (n <= USHRT_MAX ==> Wrap(n) == n)
  {
  }

  lemma CountsStep(attempts: seq<bool>, k: nat)
    requires attempts != []
    ensures !attempts[0] && k < Successes(attempts[1..]) ==>
      k < Successes(attempts) && FailuresBefore(attempts, k) == 1 + FailuresBefore(attempts[1..], k)
    ensures attempts[0] && 0 < k <= Successes(attempts[1..]) ==>
      k < Successes(attempts) && FailuresBefore(attempts, k) == FailuresBefore(attempts[1..], k - 1)
    ensures attempts[0] && k == 0 ==> k < Successes(attempts) && FailuresBefore(attempts, k) == 0
  {
  }

  lemma WrapThenAdd(a: nat, b: nat)
    requires a <= USHRT_MAX + 1
    ensures Wrap(Wrap(a) + b) == Wrap(a + b)
  {
  }

  /** With every datagram accepted whole: exactly the needed datagrams, numbered from zero,
      their payloads the response; and they are as many as announced exactly for a nonempty
      response of at most 65535 datagrams. */
  lemma UdpResponseWhole(p: seq<byte>, d: nat, requestId: nat, attempts: seq<bool>)
    requires d > 0 && |attempts| >= DatagramsNeeded(|p|, d)
    requires forall i :: 0 <= i < |attempts| ==> attempts[i]
    ensures var gs := Delivered(p, d, requestId, 0, Announced(|p|, d), attempts);
      && |gs| == DatagramsNeeded(|p|, d)
      && (forall i :: 0 <= i < |gs| ==> gs[i].sequence == Wrap(i) && |gs[i].data| <= d)
      && Payloads(gs) == p
      && (|gs| == Announced(|p|, d) <==> |p| > 0 && DatagramsNeeded(|p|, d) <= USHRT_MAX)
  {
    hide Delivered, Payloads, Announced, DatagramsNeeded, Successes, FailuresBefore, Wrap;
    var total := Announced(|p|, d);
    var gs := Delivered(p, d, requestId, 0, total, attempts);
    AllSucceed(attempts);
    DeliveredPayload(p, d, requestId, 0, total, attempts);
    AnnouncementHonest(|p|, d);
    forall i | 0 <= i < |gs| ensures gs[i].sequence == Wrap(i) {
      DeliveredNumbers(p, d, requestId, 0, total, attempts, i);
      NoFailures(attempts, i);
    }
  }

  lemma {:induction false} AllSucceed(attempts: seq<bool>)
    requires forall i :: 0 <= i < |attempts| ==> attempts[i]
    ensures Successes(attempts) == |attempts|
  {
    if attempts != [] {
      AllSucceed(attempts[1..]);
    }
  }

  lemma {:induction false} NoFailures(attempts: seq<bool>, k: nat)
    requires forall i :: 0 <= i < |attempts| ==> attempts[i]
    requires k < Successes(attempts)
    ensures FailuresBefore(attempts, k) == 0
  {
    if k > 0 {
      NoFailures(attempts[1..], k - 1);
    }
  }

  lemma {:induction false} FailuresGrow(attempts: seq<bool>, j: nat, k: nat)
    requires j <= k < Successes(attempts)
    ensures FailuresBefore(attempts, j) <= FailuresBefore(attempts, k)
  {
    if !attempts[0] {
      FailuresGrow(attempts[1..], j, k);
    } else if j > 0 {
      FailuresGrow(attempts[1..], j - 1, k - 1);
    }
  }

  ghost predicate NumberedFromZero(gs: seq<Datagram>) {
    forall k :: 0 <= k < |gs| ==> gs[k].sequence == k
  }

  /** The sends refused before each of the first n deliveries make up whole rounds of the numbers. */
  ghost predicate WholeRounds(attempts: seq<bool>, n: nat)
    requires n <= Successes(attempts)
  {
    forall k :: 0 <= k < n ==> Wrap(FailuresBefore(attempts, k)) == 0
  }

  /** The delivered datagrams are numbered 0, 1, 2, ... exactly when there are no more of them than
      numbers, and the sends refused before each of them make up whole rounds of the numbers: a
      refused send uses up a number. */
  lemma NumberingGapless(p: seq<byte>, d: nat, requestId: nat, total: nat, attempts: seq<bool>)
    requires d > 0
    ensures var gs := Delivered(p, d, requestId, 0, total, attempts);
      && |gs| <= Successes(attempts)
      && (NumberedFromZero(gs) <==> |gs| <= USHRT_MAX + 1 && WholeRounds(attempts, |gs|))
  {
    hide Delivered, FailuresBefore, Wrap;
    var gs := Delivered(p, d, requestId, 0, total, attempts);
    DeliveredPayload(p, d, requestId, 0, total, attempts);
    forall k | 0 <= k < |gs|
      ensures gs[k].sequence == k <==> k <= USHRT_MAX && Wrap(FailuresBefore(attempts, k)) == 0
    {
      DeliveredNumbers(p, d, requestId, 0, total, attempts, k);
      WrapIsSame(k, FailuresBefore(attempts, k));
    }
    if NumberedFromZero(gs) {
      assert gs == [] || gs[|gs| - 1].sequence == |gs| - 1;
      forall k | 0 <= k < |gs|
        ensures Wrap(FailuresBefore(attempts, k)) == 0
      {
        assert gs[k].sequence == k;
      }
    }
  }

  /** Within 65535 attempts that means: exactly when no send was refused before the last delivery. */
  lemma FewAttemptsGapless(attempts: seq<bool>, n: nat)
    requires n <= Successes(attempts) && |attempts| <= USHRT_MAX
    ensures WholeRounds(attempts, n) <==> n == 0 || FailuresBefore(attempts, n - 1) == 0
  {
    hide FailuresBefore, Wrap;
    forall k | 0 <= k < n
      ensures Wrap(FailuresBefore(attempts, k)) == FailuresBefore(attempts, k) <= FailuresBefore(attempts, n - 1)
    {
      AttemptsBound(attempts, k);
      FailuresGrow(attempts, k, n - 1);
      WrapFits(FailuresBefore(attempts, k));
    }
  }

  lemma WrapIsSame(k: nat, f: nat)
    ensures Wrap(k + f) == k <==> k <= USHRT_MAX && Wrap(f) == 0
  {
  }

  lemma {:induction false} AttemptsBound(attempts: seq<bool>, k: nat)
    requires k < Successes(attempts)
    ensures k + FailuresBefore(attempts, k) < |attempts|
  {
    if !attempts[0] {
      AttemptsBound(attempts[1..], k);
    } else if k > 0 {
      AttemptsBound(attempts[1..], k - 1);
    }
  }

  // -------------------------------------------------------------- the code

  datatype UdpSend = DeliveredWhole | UdpWouldBlock | UdpFailed

  /** build_udp_header: fix the announced total on first use and take the next number. */
  method BuildUdpHeader(r: Resp, d: nat) returns (header: seq<byte>)
    requires d > 0 && UdpFieldsOk(r)
    modifies r`udpTotal, r`udpSequence
    ensures UdpFieldsOk(r)
    ensures r.udpTotal == (if old(r.udpTotal) == 0 then Announced(r.tosend, d) else old(r.udpTotal))
    ensures r.udpSequence == Wrap(old(r.udpSequence) + 1)
    ensures header == HeaderBytes(r.requestId, old(r.udpSequence), r.udpTotal)
  {
    if r.udpTotal == 0 {
      var total := r.tosend / d;
      if r.tosend % d != 0 {
        total := total + 1;
      }
      if total > USHRT_MAX {
        total := USHRT_MAX;
      }
      r.udpTotal := total;
    }
    header := HeaderBytes(r.requestId, r.udpSequence, r.udpTotal);
    r.udpSequence := Wrap(r.udpSequence + 1);
  }

  /** The 16-bit UDP fields of a response. */
  ghost predicate UdpFieldsOk(r: Resp)
    reads r`requestId, r`udpSequence, r`udpTotal
  {
    r.requestId <= USHRT_MAX && r.udpSequence <= USHRT_MAX && r.udpTotal <= USHRT_MAX
  }

  /** The clip loop of transmit_udp: cut the gathered iovecs down to one datagram. */
  method Clip(iovs: array<Iovec>, used0: nat, max: nat) returns (used: nat)
    requires 0 < used0 <= iovs.Length && PiecesOk(iovs[..used0])
    modifies iovs
    ensures used <= iovs.Length && PiecesOk(iovs[..used])
    ensures Content(iovs[..used]) == SocketTakes(old(Content(iovs[..used0])), max)
  {
    hide Content, SocketTakes, PiecesOk;
    ghost var was := iovs[..used0];
    var len: nat := 0;
    ClipStart(was);
    for x := 0 to used0
      invariant iovs[..used0] == was
      invariant len <= max && len == |Content(was[..x])|
    {
      ClipStep(was, x, len, max);
      assert iovs[x] == was[x];
      if len + iovs[x].len >= max {
        iovs[x] := iovs[x].(len := max - len);
        assert iovs[..x + 1] == was[..x] + [was[x].(len := max - len)];
        return x + 1;
      }
      len := len + iovs[x].len;
    }
    assert was[..used0] == was;
    ClipEnd(was, max);
    return used0;
  }

  lemma ClipStart(was: seq<Iovec>)
    ensures |Content(was[..0])| == 0
  {
  }

  lemma ClipStep(was: seq<Iovec>, x: nat, len: nat, max: nat)
    requires x < |was| && PiecesOk(was) && len == |Content(was[..x])| && len <= max
    ensures len + was[x].len == |Content(was[..x + 1])|
    ensures len + was[x].len >= max ==>
      var cut := was[x].(len := max - len);
      PiecesOk(was[..x] + [cut]) && Content(was[..x] + [cut]) == SocketTakes(Content(was), max)
  {
    GatherSplit(was, x, 0);
    if len + was[x].len >= max {
      CutPiece(was[x], max - len);
      ContentSnoc(was[..x], was[x].(len := max - len));
      TakeAcross(Content(was[..x]), IovBytes(was[x], 0), Gather(was[x + 1..], 0), max);
    }
  }

  lemma TakeAcross<T>(a: seq<T>, b: seq<T>, c: seq<T>, max: nat)
    requires |a| <= max <= |a| + |b|
    ensures (a + b + c)[..max] == a + b[..max - |a|]
  {
  }

  lemma ClipEnd(was: seq<Iovec>, max: nat)
    requires |Content(was)| <= max
    ensures Content(was) == SocketTakes(Content(was), max)
  {
  }

  lemma CutPiece(v: Iovec, k: nat)
    requires v.base.Memory? && IovOk(v, 0) && k <= v.len
    ensures IovOk(v.(len := k), 0)
    ensures IovBytes(v.(len := k), 0) == IovBytes(v, 0)[..k]
  {
    var cell, o := v.base.cell, v.base.offset;
    assert cell[o..o + v.len][..k] == cell[o..o + k];
  }

  /** The datagram the head response is due next. */
  ghost function Due(r: Resp, d: nat, data: seq<byte>): Datagram
    requires d > 0
    reads r
  {
    Datagram(r.requestId, r.udpSequence, if r.udpTotal == 0 then Announced(r.tosend, d) else r.udpTotal, data)
  }

  lemma HeaderInFront(header: seq<byte>, content: seq<byte>, d: nat)
    requires |header| == HEADER_SIZE
    ensures SocketTakes(header + content, HEADER_SIZE + d) == header + SocketTakes(content, d)
  {
    assert (header + content)[..HEADER_SIZE + Min(d, |content|)] == header + content[..Min(d, |content|)];
  }

  lemma HeaderPiece(header: seq<byte>)
    requires |header| == HEADER_SIZE
    ensures PiecesOk([Iovec(Memory(header, 0), HEADER_SIZE)])
    ensures Content([Iovec(Memory(header, 0), HEADER_SIZE)]) == header
  {
    var v := Iovec(Memory(header, 0), HEADER_SIZE);
    assert IovOk(v, 0) && IovBytes(v, 0) == header[0..HEADER_SIZE] == header;
    assert [] + [v] == [v];
    GatherSnoc([], v, 0);
  }

  /** What is gathered of the head response, behind its frame header. */
  method GatherBehind(c: Conn, r: Resp, header: seq<byte>) returns (iovs: array<Iovec>, used: nat, ghost content: seq<byte>)
    requires c.Valid() && c.respHead == r && !r.skip && c.respIovs + 1 < c.iovMax - 1
    requires |header| == HEADER_SIZE
    ensures fresh(iovs) && 0 < used <= iovs.Length && PiecesOk(iovs[..used])
    ensures Content(iovs[..used]) == header + content && content <= Payload(r.State())
    ensures r.chunkedDataIov == 0 ==> content == Payload(r.State())
    ensures content == [] ==> Payload(r.State()) == []
  {
    hide Content, PiecesOk, SocketTakes, RespOk, States, Payload, Pending;
    ghost var q := c.Queue();
    assert q[0] == r.State();
    iovs := new Iovec[c.iovMax](_ => Iovec(Memory([], 0), 0));
    iovs[0] := Iovec(Memory(header, 0), HEADER_SIZE);
    HeaderPiece(header);
    assert iovs[..1] == [Iovec(Memory(header, 0), HEADER_SIZE)];
    assert iovs[0..1] == iovs[..1];
    ghost var was := iovs[..];
    used := c.TransmitPre(iovs, 1, true);
    content := Content(iovs[1..used]);
    Absorb(was, iovs[..], 0, 1, used);
    assert iovs[0..used] == iovs[..used];
  }

  /** The header of the next datagram of the head response; nothing else of the connection changes. */
  method HeadHeader(c: Conn, r: Resp, d: nat) returns (header: seq<byte>)
    requires c.Valid() && c.respHead == r && UdpFieldsOk(r) && d > 0
    modifies r`udpTotal, r`udpSequence
    ensures c.Valid() && UdpFieldsOk(r) && r.State() == old(r.State())
    ensures r.udpTotal == (if old(r.udpTotal) == 0 then Announced(r.tosend, d) else old(r.udpTotal))
    ensures r.udpSequence == Wrap(old(r.udpSequence) + 1)
    ensures header == HeaderBytes(r.requestId, old(r.udpSequence), r.udpTotal) && |header| == HEADER_SIZE
  {
    hide RespOk, Announced, HeaderBytes, Wrap;
    header := BuildUdpHeader(r, d);
    HeaderSize(r.requestId, old(r.udpSequence), r.udpTotal);
  }

  /** The message for the head response: its frame header, then at most d bytes of it. */
  method BuildDatagram(c: Conn, r: Resp, d: nat) returns (packet: seq<byte>, ghost data: seq<byte>)
    requires c.Valid() && c.respHead == r && !r.skip && UdpFieldsOk(r)
    requires d > 0 && c.respIovs + 1 < c.iovMax - 1
    modifies r`udpTotal, r`udpSequence
    ensures c.Valid() && UdpFieldsOk(r)
    ensures r.udpTotal == old(Due(r, d, data)).total
    ensures r.udpSequence == Wrap(old(r.udpSequence) + 1)
    ensures old(Due(r, d, data)).total <= USHRT_MAX && packet == Wire(old(Due(r, d, data)))
    ensures |packet| == HEADER_SIZE + |data|
    ensures |data| <= d && data <= Payload(r.State())
    ensures r.chunkedDataIov == 0 ==> data == SocketTakes(Payload(r.State()), d)
    ensures data == [] ==> Payload(r.State()) == []
  {
    hide Content, PiecesOk, SocketTakes, Payload, Announced, HeaderBytes, Conn.Valid, Wrap;
    var header := HeadHeader(c, r, d);
    ghost var content;
    var iovs, used;
    iovs, used, content := GatherBehind(c, r, header);
    var clipped := Clip(iovs, used, HEADER_SIZE + d);
    packet := Content(iovs[..clipped]);
    HeaderInFront(header, content, d);
    data := SocketTakes(content, d);
    TakesPrefix(content, d);
  }

  lemma TakesPrefix(content: seq<byte>, d: nat)
    ensures d > 0 && SocketTakes(content, d) == [] ==> content == []
    ensures |SocketTakes(content, d)| <= d && SocketTakes(content, d) <= content
  {
  }

  /** A write to the head either leaves it the head, with the rest of its bytes, or retires it. */
  lemma SettleHead(q: seq<RespState>, k: nat)
    requires QueueOk(q) && q != [] && !q[0].skip && k < q[0].tosend
    ensures |Settle(q, k)| == |q| && Settle(q, k)[0] == AdvanceResp(q[0], k)
    ensures Payload(AdvanceResp(q[0], k)) == Payload(q[0])[k..]
  {
    AdvanceRespDrops(q[0], k);
  }

  /** The datagram's bytes leave the queue. */
  method TakeFromHead(c: Conn, r: Resp, k: nat) returns (result: TransmitResult)
    requires c.Valid() && c.respHead == r && !r.skip
    modifies c, c.chain`iov, c.chain`tosend
    ensures c.Valid() && c.Queue() == Settle(old(c.Queue()), k)
    ensures |c.chain| == |old(c.chain)| ==> c.chain == old(c.chain)
    ensures result == (if c.respHead == null then TransmitComplete else TransmitIncomplete)
    ensures k < old(r.tosend) ==>
      && c.respHead == r && c.chain == old(c.chain)
      && r.State() == AdvanceResp(old(r.State()), k)
      && Payload(r.State()) == old(Payload(r.State()))[k..]
  {
    hide RespOk, States, Payload, Settle;
    ghost var q := c.Queue();
    assert q[0] == r.State();
    if k < q[0].tosend {
      SettleHead(q, k);
    }
    c.TransmitPost(k);
    result := if c.respHead != null then TransmitIncomplete else TransmitComplete;
  }

  /** One datagram of the head response goes out whole, or is refused; either way its number
      is used up. */
  method SendHead(c: Conn, r: Resp, d: nat, send: UdpSend, updateOk: bool)
    returns (result: TransmitResult, packet: Option<seq<byte>>, ghost data: seq<byte>)
    requires c.Valid() && d > 0 && c.respIovs + 1 < c.iovMax - 1
    requires c.respHead == r && !r.skip && UdpFieldsOk(r)
    modifies c, c.chain
    ensures c.Valid() && UdpFieldsOk(r) && r.requestId == old(r.requestId)
    ensures data <= old(Payload(r.State())) && |data| <= d
    ensures old(r.chunkedDataIov) == 0 ==> data == SocketTakes(old(Payload(r.State())), d)
    ensures data == [] ==> old(Payload(r.State())) == []
    ensures r.udpTotal == old(Due(r, d, data)).total
    ensures r.udpSequence == Wrap(old(r.udpSequence) + 1)
    ensures send.DeliveredWhole? ==>
      && r.udpTotal <= USHRT_MAX && packet == Some(Wire(old(Due(r, d, data))))
      && c.Queue() == Settle(old(c.Queue()), |data|)
      && (|c.chain| == |old(c.chain)| ==> c.chain == old(c.chain))
      && result == (if c.respHead == null then TransmitComplete else TransmitIncomplete)
    ensures send.DeliveredWhole? && |data| < old(r.tosend) ==>
      && c.respHead == r && c.chain == old(c.chain)
      && r.State() == AdvanceResp(old(r.State()), |data|)
      && Payload(r.State()) == old(Payload(r.State()))[|data|..]
    ensures !send.DeliveredWhole? ==>
      && packet == None && c.Queue() == old(c.Queue()) && c.chain == old(c.chain)
      && c.respHead == r && r.State() == old(r.State())
      && result == (if send.UdpWouldBlock? && updateOk then TransmitSoftError else TransmitHardError)
  {
    hide RespOk, States, Payload, Settle, SocketTakes, Announced, Wire, Wrap;
    var bytes;
    bytes, data := BuildDatagram(c, r, d);
    if send.DeliveredWhole? {
      result := TakeFromHead(c, r, |bytes| - HEADER_SIZE);
      packet := Some(bytes);
      return;
    }
    packet := None;
    result := if send.UdpWouldBlock? && updateOk then TransmitSoftError else TransmitHardError;
  }

  /** transmit_udp when there is nothing to send yet: no response, or a skipped one to retire. */
  method RetireSkipped(c: Conn) returns (result: TransmitResult)
    requires c.Valid() && (c.respHead == null || c.respHead.skip)
    modifies c
    ensures c.Valid()
    ensures old(c.respHead) == null ==> result == TransmitComplete && c.Queue() == []
    ensures old(c.respHead) != null ==> result == TransmitIncomplete && c.Queue() == old(c.Queue())[1..]
  {
    if c.respHead == null {
      return TransmitComplete;
    }
    var _ := c.RespFinish();
    return TransmitIncomplete;
  }

  lemma DeliveredStep(p: seq<byte>, d: nat, requestId: nat, sequence: nat, total: nat, attempts: seq<bool>, i: nat)
    requires d > 0 && i < |attempts|
    ensures var next := Wrap(sequence + 1);
      Delivered(p, d, requestId, sequence, total, attempts[i..]) ==
      if !attempts[i] then Delivered(p, d, requestId, next, total, attempts[i + 1..])
      else [Datagram(requestId, sequence, total, SocketTakes(p, d))] +
           (if |p| <= d then [] else Delivered(p[d..], d, requestId, next, total, attempts[i + 1..]))
  {
    assert attempts[i..][0] == attempts[i] && attempts[i..][1..] == attempts[i + 1..];
  }

  lemma DeliveredNothing(p: seq<byte>, d: nat, requestId: nat, sequence: nat, total: nat)
    requires d > 0
    ensures Delivered(p, d, requestId, sequence, total, []) == []
  {
  }

  lemma AnnouncedBounds(n: nat, d: nat)
    requires d > 0
    ensures Announced(n, d) <= USHRT_MAX
    ensures Announced(n, d) == 0 ==> n == 0
  {
    if n < d {
      assert n / d == 0 && n % d == n;
    }
  }

  lemma TakesSize(p: seq<byte>, d: nat)
    ensures |SocketTakes(p, d)| == Min(d, |p|)
  {
  }

  lemma PayloadSize(r: RespState)
    requires RespOk(r)
    ensures |Payload(r)| == r.tosend
  {
  }

  /** The head response is part sent: `rest` of its payload is left, and its total is fixed or will
      be fixed at `total`. If it is flat, it has no chunked item. */
  ghost predicate Underway(c: Conn, r: Resp, d: nat, rest: seq<byte>, total: nat, flat: bool)
    requires d > 0
    reads c, c.chain, r
  {
    && c.Valid() && c.respIovs + 1 < c.iovMax - 1
    && c.respHead == r && !r.skip && (flat ==> r.chunkedDataIov == 0) && UdpFieldsOk(r)
    && rest == Payload(r.State())
    && total <= USHRT_MAX
    && (if r.udpTotal == 0 then total == Announced(|rest|, d) else r.udpTotal == total)
  }

  lemma StartSending(c: Conn, r: Resp, d: nat)
    requires d > 0 && c.Valid() && c.respIovs + 1 < c.iovMax - 1
    requires c.respHead == r && !r.skip
    requires r.requestId <= USHRT_MAX && r.udpSequence == 0 && r.udpTotal == 0
    ensures Underway(c, r, d, Payload(r.State()), Announced(|Payload(r.State())|, d), r.chunkedDataIov == 0)
  {
    AnnouncedBounds(|Payload(r.State())|, d);
  }

  /** One attempt: the datagram that is due is delivered and its bytes are gone, or it is refused
      and only its number is. It carries some of the bytes that are left, and as many as fit unless
      the response has a chunked item, whose chunks may use up the iovecs. */
  method Attempt(c: Conn, r: Resp, d: nat, accepted: bool, updateOk: bool, ghost rest: seq<byte>, ghost total: nat,
                 ghost flat: bool)
    returns (sent: Option<Datagram>, last: bool, ghost data: seq<byte>)
    requires d > 0 && Underway(c, r, d, rest, total, flat)
    modifies c, c.chain
    ensures c.Valid() && r.requestId == old(r.requestId)
    ensures r.udpSequence == Wrap(old(r.udpSequence) + 1)
    ensures Slice(data, rest, d) && (flat ==> data == SocketTakes(rest, d)) && (last <==> accepted && data == rest)
    ensures sent == if accepted then Some(Datagram(old(r.requestId), old(r.udpSequence), total, data)) else None
    ensures !accepted ==> Underway(c, r, d, rest, total, flat) && c.chain == old(c.chain)
    ensures accepted && !last ==> Underway(c, r, d, rest[|data|..], total, flat) && c.chain == old(c.chain)
  {
    hide RespOk, States, Payload, Settle, SocketTakes, Announced, Wire, HeaderBytes, ParseDatagram;
    PayloadSize(r.State());
    AnnouncedBounds(|rest|, d);
    TakesSize(rest, d);
    var left := r.tosend;
    var _, packet, bytes := SendHead(c, r, d, if accepted then DeliveredWhole else UdpWouldBlock, updateOk);
    data := bytes;
    sent, last := None, false;
    if accepted {
      HeaderRoundTrip(Datagram(r.requestId, old(r.udpSequence), total, data));
      sent := Some(ParseDatagram(packet.value));
      last := |sent.value.data| == left;
    }
  }

  /** Some front of the bytes that are left, which fits a datagram. */
  ghost predicate Slice(data: seq<byte>, rest: seq<byte>, d: nat) {
    data <= rest && |data| <= d && (data == [] ==> rest == [])
  }

  /** What a response's datagrams are, however many bytes each of them takes: one for every accepted
      attempt until all is sent, each numbered by its attempt, and together a front of the response
      in order, or all of it. */
  ghost predicate SentBy(p: seq<byte>, d: nat, requestId: nat, total: nat, attempts: seq<bool>, gs: seq<Datagram>) {
    && Payloads(gs) <= p
    && NumberedByAttempt(p, d, requestId, total, attempts, gs)
    && (|gs| < Successes(attempts) ==> gs != [] && Payloads(gs) == p)
  }

  ghost predicate NumberedByAttempt(p: seq<byte>, d: nat, requestId: nat, total: nat, attempts: seq<bool>,
                                    gs: seq<Datagram>) {
    && |gs| <= Successes(attempts)
    && forall k :: 0 <= k < |gs| ==>
         && gs[k] == Datagram(requestId, Wrap(k + FailuresBefore(attempts, k)), total, gs[k].data)
         && |gs[k].data| <= d && (gs[k].data == [] ==> p == [])
  }

  /** After i attempts, with `rest` still to send. */
  ghost predicate SentSoFar(p: seq<byte>, d: nat, requestId: nat, total: nat, attempts: seq<bool>, i: nat,
                            gs: seq<Datagram>, rest: seq<byte>) {
    && i <= |attempts| && |gs| == Successes(attempts[..i])
    && p == Payloads(gs) + rest
    && NumberedByAttempt(p, d, requestId, total, attempts, gs)
  }

  lemma {:induction false} SuccessesOf(attempts: seq<bool>, i: nat)
    requires i < |attempts|
    ensures Successes(attempts[..i + 1]) == Successes(attempts[..i]) + if attempts[i] then 1 else 0
    ensures Successes(attempts[..i + 1]) <= Successes(attempts)
    ensures attempts[i] ==>
      Successes(attempts[..i]) < Successes(attempts)
      && i == Successes(attempts[..i]) + FailuresBefore(attempts, Successes(attempts[..i]))
  {
    var first, later := attempts[0], attempts[1..];
    assert attempts[..i + 1][1..] == later[..i] && (i > 0 ==> attempts[..i][1..] == later[..i - 1]);
    if i > 0 {
      SuccessesOf(later, i - 1);
    } else {
      assert attempts[..1] == [first] && attempts[..0] == [];
      assert Successes([first]) == (if first then 1 else 0) + Successes([first][1..]);
    }
  }

  lemma PayloadsSnoc(gs: seq<Datagram>, g: Datagram)
    ensures Payloads(gs + [g]) == Payloads(gs) + g.data
  {
    if gs == [] {
      assert [] + [g] == [g] && [g][1..] == [];
    } else {
      PayloadsSnoc(gs[1..], g);
      assert (gs + [g])[1..] == gs[1..] + [g];
      Assoc(gs[0].data, Payloads(gs[1..]), g.data);
    }
  }

  lemma SentNothing(p: seq<byte>, d: nat, requestId: nat, total: nat, attempts: seq<bool>)
    ensures SentSoFar(p, d, requestId, total, attempts, 0, [], p)
  {
    assert attempts[..0] == [] && [] + p == p;
  }

  lemma SentRefused(p: seq<byte>, d: nat, requestId: nat, total: nat, attempts: seq<bool>, i: nat, gs: seq<Datagram>,
                    rest: seq<byte>)
    requires SentSoFar(p, d, requestId, total, attempts, i, gs, rest) && i < |attempts| && !attempts[i]
    ensures SentSoFar(p, d, requestId, total, attempts, i + 1, gs, rest)
  {
    hide NumberedByAttempt, Payloads;
    SuccessesOf(attempts, i);
  }

  lemma SentOne(p: seq<byte>, d: nat, requestId: nat, total: nat, attempts: seq<bool>, i: nat, gs: seq<Datagram>,
                rest: seq<byte>, data: seq<byte>)
    requires SentSoFar(p, d, requestId, total, attempts, i, gs, rest) && i < |attempts| && attempts[i]
    requires Slice(data, rest, d) && (rest == [] ==> gs == [])
    ensures SentSoFar(p, d, requestId, total, attempts, i + 1, gs + [Datagram(requestId, Wrap(i), total, data)], rest[|data|..])
  {
    hide Payloads, Successes, FailuresBefore, Wrap;
    var g := Datagram(requestId, Wrap(i), total, data);
    SuccessesOf(attempts, i);
    PayloadsSnoc(gs, g);
    NoPayloads();
    assert rest == data + rest[|data|..];
    Assoc(Payloads(gs), data, rest[|data|..]);
  }

  lemma NoPayloads()
    ensures Payloads([]) == []
  {
  }

  lemma SentAll(p: seq<byte>, d: nat, requestId: nat, total: nat, attempts: seq<bool>, i: nat, gs: seq<Datagram>,
                rest: seq<byte>)
    requires SentSoFar(p, d, requestId, total, attempts, i, gs, rest)
    requires i == |attempts| || (rest == [] && gs != [])
    ensures SentBy(p, d, requestId, total, attempts, gs)
  {
    hide NumberedByAttempt, Payloads;
    assert attempts[..|attempts|] == attempts;
  }

  lemma {:induction false} EachCarriesSome(gs: seq<Datagram>)
    requires forall k :: 0 <= k < |gs| ==> gs[k].data != []
    ensures |Payloads(gs)| >= |gs|
  {
    if gs != [] {
      EachCarriesSome(gs[1..]);
    }
  }

  /** With as many accepted attempts as there are bytes, and at least one, all of it is sent. */
  lemma EnoughAttempts(p: seq<byte>, d: nat, requestId: nat, total: nat, attempts: seq<bool>, gs: seq<Datagram>)
    requires SentBy(p, d, requestId, total, attempts, gs) && Successes(attempts) >= Max(1, |p|)
    ensures gs != [] && Payloads(gs) == p
  {
    hide Successes, FailuresBefore, Wrap, Payloads;
    if p != [] {
      EachCarriesSome(gs);
    }
  }

  /** Driving one response to its end: datagram after datagram, over any series of send attempts.
      Without a chunked item every datagram but the last is full. */
  method SendResponse(c: Conn, d: nat, attempts: seq<bool>, updateOk: bool) returns (sent: seq<Datagram>)
    requires c.Valid() && d > 0 && c.respIovs + 1 < c.iovMax - 1
    requires c.respHead != null && !c.respHead.skip
    requires c.respHead.requestId <= USHRT_MAX && c.respHead.udpSequence == 0 && c.respHead.udpTotal == 0
    modifies c, c.chain
    ensures c.Valid()
    ensures var p, id := old(Payload(c.respHead.State())), old(c.respHead.requestId);
      && SentBy(p, d, id, Announced(|p|, d), attempts, sent)
      && (old(c.respHead.chunkedDataIov) == 0 ==> sent == Delivered(p, d, id, 0, Announced(|p|, d), attempts))
  {
    hide *;
    var r := c.respHead;
    ghost var p, id, flat := Payload(r.State()), r.requestId, r.chunkedDataIov == 0;
    ghost var total, rest := Announced(|p|, d), p;
    sent := [];
    assert attempts[0..] == attempts;
    StartSending(c, r, d);
    SentNothing(p, d, id, total, attempts);
    WrapFits(0);
    for i := 0 to |attempts|
      invariant Underway(c, r, d, rest, total, flat) && c.Valid()
      invariant c.chain == old(c.chain) && r.requestId == id && r.udpSequence == Wrap(i)
      invariant SentSoFar(p, d, id, total, attempts, i, sent, rest) && (rest == [] ==> sent == [])
      invariant flat ==> Delivered(p, d, id, 0, total, attempts)
                         == sent + Delivered(rest, d, id, r.udpSequence, total, attempts[i..])
    {
      DeliveredStep(rest, d, id, r.udpSequence, total, attempts, i);
      WrapThenOne(i);
      var datagram, last;
      ghost var data;
      datagram, last, data := Attempt(c, r, d, attempts[i], updateOk, rest, total, flat);
      OpenSlice(data, rest, d);
      if attempts[i] {
        SentOne(p, d, id, total, attempts, i, sent, rest, data);
        if flat {
          TakesSome(rest, d);
          Assoc(sent, [datagram.value], if last then [] else Delivered(rest[d..], d, id, r.udpSequence, total, attempts[i + 1..]));
        }
        sent := sent + [datagram.value];
        rest := rest[|data|..];
        if last {
          SentAll(p, d, id, total, attempts, i + 1, sent, rest);
          return;
        }
      } else {
        SentRefused(p, d, id, total, attempts, i, sent, rest);
      }
    }
    SentAll(p, d, id, total, attempts, |attempts|, sent, rest);
    assert attempts[|attempts|..] == [];
    DeliveredNothing(rest, d, id, r.udpSequence, total);
  }

  lemma WrapThenOne(i: nat)
    ensures Wrap(Wrap(i) + 1) == Wrap(i + 1)
  {
  }

  lemma OpenSlice(data: seq<byte>, rest: seq<byte>, d: nat)
    requires Slice(data, rest, d)
    ensures |data| <= |rest| && (rest[|data|..] == [] <==> data == rest)
  {
  }

  lemma TakesSome(rest: seq<byte>, d: nat)
    ensures SocketTakes(rest, d) == rest <==> |rest| <= d
    ensures |rest| > d ==> |SocketTakes(rest, d)| == d
  {
  }
}
