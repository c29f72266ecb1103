/** The memcached input path: bytes from the socket go through the connection's read buffer, or
    past it, into items or into the void, in the order they arrived. */
module ConnInput {
  import opened ByteStrings
  import opened ItemChunks
  import opened Options

  // ------------------------------------------------------------ the socket

  /** What the peer and the network do next. */
  datatype Arrival = Bytes(data: seq<byte>) | EndOfStream | NotYet | Failure

  datatype ReadResult = Got(data: seq<byte>) | Zero | Again | Error

  /** What a read of at most n bytes gives: some front of what has arrived, or the reason there is
      none. Asking for nothing gives zero bytes, which looks like the end of the stream. */
  function ReadOf(arrivals: seq<Arrival>, n: nat): ReadResult {
    if n == 0 then Zero
    else if arrivals == [] then Again
    else
      match arrivals[0]
      case Bytes(data) => if data == [] then Zero else Got(data[..Min(n, |data|)])
      case EndOfStream => Zero
      case NotYet => Again
      case Failure => Error
  }

  /** And what is still to arrive then. */
  function LeftOf(arrivals: seq<Arrival>, n: nat): seq<Arrival> {
    if n == 0 || arrivals == [] then arrivals
    else if arrivals[0].Bytes? && n < |arrivals[0].data| then [Bytes(arrivals[0].data[n..])] + arrivals[1..]
    else arrivals[1..]
  }

  /** The bytes that can be read without waiting, and how the read behind them ends. */
  function Available(arrivals: seq<Arrival>): seq<byte> {
    if arrivals == [] || !arrivals[0].Bytes? || arrivals[0].data == [] then []
    else arrivals[0].data + Available(arrivals[1..])
  }

  function StopAt(arrivals: seq<Arrival>): ReadResult {
    if arrivals == [] || !arrivals[0].Bytes? || arrivals[0].data == [] then ReadOf(arrivals, 1)
    else StopAt(arrivals[1..])
  }

  /** A read takes the front of these bytes, or meets what is behind them. */
  lemma ReadsAvailable(arrivals: seq<Arrival>, n: nat)
    requires n > 0
    ensures var r, left := ReadOf(arrivals, n), LeftOf(arrivals, n);
      if r.Got? then Available(arrivals) == r.data + Available(left) && StopAt(arrivals) == StopAt(left)
      else Available(arrivals) == [] && StopAt(arrivals) == r
  {
    if arrivals != [] && arrivals[0].Bytes? && arrivals[0].data != [] {
      var data, more := arrivals[0].data, arrivals[1..];
      if n < |data| {
        assert ([Bytes(data[n..])] + more)[1..] == more && data == data[..n] + data[n..];
        Assoc(data[..n], data[n..], Available(more));
      } else {
        assert data[..|data|] == data;
      }
    }
  }

  class Socket {
    var arrivals: seq<Arrival>
    var ended: bool
    ghost var received: seq<byte>

    constructor (arrivals: seq<Arrival>)
      ensures this.arrivals == arrivals && !ended && received == []
    {
      this.arrivals, ended, received := arrivals, false, [];
    }

    /** The read callback. */
    method Read(n: nat) returns (r: ReadResult)
      modifies this
      ensures r == ReadOf(old(arrivals), n) && arrivals == LeftOf(old(arrivals), n)
      ensures r.Got? ==> 0 < |r.data| <= n && received == old(received) + r.data
      ensures !r.Got? ==> received == old(received)
      ensures r.Zero? ==> n == 0 || ended
      ensures n == 0 ==> r.Zero? && ended == old(ended)
      ensures old(ended) ==> ended
    {
      if n == 0 {
        return Zero;
      }
      if arrivals == [] {
        return Again;
      }
      var a := arrivals[0];
      if a.Bytes? && a.data != [] {
        var k := Min(n, |a.data|);
        r := Got(a.data[..k]);
        arrivals := (if k < |a.data| then [Bytes(a.data[k..])] else []) + arrivals[1..];
        received := received + a.data[..k];
        return;
      }
      arrivals := arrivals[1..];
      match a
      case NotYet => r := Again;
      case Failure => r := Error;
      case _ => ended := true; r := Zero;
    }
  }

  // -------------------------------------------------------- the connection

  /** How try_read_network ends. The error line for a failed reallocation goes into the current
      response; on the text protocol, without a response, that is a null pointer followed. */
  datatype NetworkResult = ReadNoDataReceived | ReadDataReceived | ReadError | ReadMemoryError | NullFollowed

  class Conn {
    const socket: Socket
    var rbuf: array<byte>
    var rcurr: nat
    var rbytes: nat
    var rbufMalloced: bool
    /** Everything that has left the read buffer, or went past it, in order. */
    ghost var consumed: seq<byte>

    /** Nothing is lost, doubled or reordered: what left, then what waits, is what arrived. */
    ghost predicate Valid()
      reads this, socket, rbuf
    {
      && rbuf.Length > 0
      && rcurr + rbytes <= rbuf.Length
      && consumed + Window() == socket.received
    }

    /** The unread bytes. */
    ghost function Window(): seq<byte>
      reads this, rbuf
    {
      if rcurr + rbytes <= rbuf.Length then rbuf[rcurr..rcurr + rbytes] else []
    }

    lemma Facts()
      requires Valid()
      ensures rbuf.Length > 0 && rcurr + rbytes <= rbuf.Length
      ensures |Window()| == rbytes && consumed + Window() == socket.received
      ensures Window()[..rbytes] == Window()
    {
    }

    /** What can be had without waiting, from the buffer and then from the socket. */
    ghost function Ready(): seq<byte>
      reads this, socket, rbuf
    {
      Window() + Available(socket.arrivals)
    }

    lemma ReadyIs()
      requires Valid()
      ensures Ready() == Window() + Available(socket.arrivals)
      ensures rbytes == 0 ==> Ready() == Available(socket.arrivals)
    {
      Facts();
    }

    lemma WindowIs()
      requires Valid()
      ensures Window() == rbuf[rcurr..rcurr + rbytes]
      ensures forall n :: 0 <= n <= rbytes ==> Window()[..n] == rbuf[rcurr..rcurr + n]
    {
    }

    constructor (socket: Socket, size: nat)
      requires size > 0 && socket.received == []
      ensures Valid() && this.socket == socket && fresh(rbuf) && rbuf.Length == size
      ensures consumed == [] && rbytes == 0
    {
      this.socket := socket;
      rbuf := new byte[size](_ => 0);
      rcurr, rbytes, rbufMalloced, consumed := 0, 0, false, [];
    }

    /** n waiting bytes leave the buffer. */
    method Take(n: nat) returns (bytes: seq<byte>)
      requires Valid() && n <= rbytes
      modifies `rcurr, `rbytes, `consumed
      ensures Valid() && bytes == old(Window())[..n] && Window() == old(Window())[n..]
      ensures consumed == old(consumed) + bytes && rbytes == old(rbytes) - n && rcurr == old(rcurr) + n
      ensures old(Ready()) == bytes + Ready()
    {
      ghost var window := Window();
      bytes := rbuf[rcurr..rcurr + n];
      assert bytes == window[..n];
      Split(consumed, window, n);
      rcurr := rcurr + n;
      rbytes := rbytes - n;
      consumed := consumed + bytes;
      assert Window() == window[n..];
      assert window == bytes + Window();
      Assoc(bytes, Window(), Available(socket.arrivals));
    }

    /** A read that goes past the buffer, which is empty. */
    method ReadPast(n: nat) returns (r: ReadResult)
      requires Valid() && rbytes == 0
      modifies `consumed, socket
      ensures Valid() && rbytes == 0
      ensures r == ReadOf(old(socket.arrivals), n)
      ensures r.Got? ==> 0 < |r.data| <= n && socket.received == old(socket.received) + r.data
                         && consumed == old(consumed) + r.data
      ensures !r.Got? ==> socket.received == old(socket.received) && consumed == old(consumed)
      ensures r.Zero? ==> n == 0 || socket.ended
      ensures old(socket.ended) ==> socket.ended
      ensures n > 0 && r.Got? ==> old(Ready()) == r.data + Ready() && StopAt(socket.arrivals) == old(StopAt(socket.arrivals))
      ensures n > 0 && !r.Got? ==> old(Ready()) == [] && r == old(StopAt(socket.arrivals))
    {
      hide Available, StopAt, ReadOf, LeftOf;
      ghost var arrivals := socket.arrivals;
      ReadyIs();
      if n > 0 {
        ReadsAvailable(arrivals, n);
      }
      r := socket.Read(n);
      if r.Got? {
        consumed := consumed + r.data;
      }
      ReadyIs();
    }

    /** The waiting bytes move to the front of the buffer. */
    method Compact()
      requires Valid()
      modifies `rcurr, rbuf
      ensures Valid() && rcurr == 0 && Window() == old(Window()) && rbuf == old(rbuf)
    {
      if rcurr != 0 {
        if rbytes != 0 {
          forall i | 0 <= i < rbytes {
            rbuf[i] := rbuf[rcurr + i];
          }
        }
        rcurr := 0;
        assert Window() == old(Window());
      }
    }

    /** The buffer is replaced by one of twice the size. */
    method Double()
      requires Valid() && rcurr == 0
      modifies `rbuf
      ensures Valid() && fresh(rbuf) && rbuf.Length == 2 * old(rbuf.Length) && Window() == old(Window())
    {
      var was := rbuf;
      var bigger := new byte[2 * was.Length](_ => 0);
      forall i | 0 <= i < was.Length {
        bigger[i] := was[i];
      }
      rbuf := bigger;
      assert Window() == old(Window());
    }

    /** One read behind the waiting bytes, as far as the buffer reaches. */
    method ReadBehind() returns (r: ReadResult)
      requires Valid() && rcurr == 0
      modifies `rbytes, rbuf, socket
      ensures Valid()
      ensures r.Got? ==> 0 < |r.data| && socket.received == old(socket.received) + r.data
                         && Window() == old(Window()) + r.data
      ensures !r.Got? ==> socket.received == old(socket.received) && Window() == old(Window())
      ensures r.Zero? ==> socket.ended || rbytes == rbuf.Length
      ensures old(rbytes) == rbuf.Length ==> r.Zero? && socket.ended == old(socket.ended)
      ensures old(socket.ended) ==> socket.ended
      ensures old(rbytes) <= rbuf.Length && r == ReadOf(old(socket.arrivals), rbuf.Length - old(rbytes))
      ensures socket.arrivals == LeftOf(old(socket.arrivals), rbuf.Length - old(rbytes))
    {
      hide *;
      Facts();
      FrontIsWindow();
      ghost var was := Window();
      r := socket.Read(rbuf.Length - rbytes);
      if r.Got? {
        PutBehind(r.data);
        rbytes := rbytes + |r.data|;
        Assoc(consumed, was, r.data);
        Refilled(was + r.data);
      } else {
        Refilled(was);
      }
    }

    /** Bytes are stored behind the waiting ones. */
    method PutBehind(data: seq<byte>)
      requires rcurr == 0 && rbytes + |data| <= rbuf.Length
      modifies rbuf
      ensures rbuf[..rbytes + |data|] == old(rbuf[..rbytes]) + data
    {
      forall i | 0 <= i < |data| {
        rbuf[rbytes + i] := data[i];
      }
    }

    lemma Refilled(window: seq<byte>)
      requires rcurr == 0 && 0 < rbuf.Length && rbytes <= rbuf.Length && rbuf[..rbytes] == window
      requires consumed + window == socket.received
      ensures Valid() && Window() == window
    {
    }

    lemma FrontIsWindow()
      requires Valid() && rcurr == 0
      ensures Window() == rbuf[..rbytes]
    {
    }

    /** A network read under way: what it got so far is behind what waited before. */
    ghost predicate Reading(consumed0: seq<byte>, received0: seq<byte>, was: seq<byte>, got: seq<byte>)
      reads this, socket, rbuf
    {
      && Valid() && rcurr == 0
      && socket.received == received0 + got && consumed == consumed0 && Window() == was + got
    }

    lemma StartReading()
      requires Valid() && rcurr == 0
      ensures Reading(consumed, socket.received, Window(), [])
    {
      assert Window() + [] == Window() && socket.received + [] == socket.received;
    }

    lemma WhileReading(consumed0: seq<byte>, received0: seq<byte>, was: seq<byte>, got: seq<byte>)
      requires Reading(consumed0, received0, was, got)
      ensures Valid() && rcurr == 0 && rbuf.Length > 0 && rbytes <= rbuf.Length && rbytes == |was| + |got|
      ensures socket.received == received0 + got && consumed == consumed0 && Window() == was + got
    {
      Facts();
    }

    /** One read of the loop. */
    method ReadOnce(ghost consumed0: seq<byte>, ghost received0: seq<byte>, ghost was: seq<byte>, ghost got0: seq<byte>)
      returns (r: ReadResult, ghost got: seq<byte>)
      requires Reading(consumed0, received0, was, got0)
      modifies `rbytes, rbuf, socket
      ensures Reading(consumed0, received0, was, got)
      ensures if r.Got? then got == got0 + r.data && r.data != [] else got == got0
      ensures rbytes == old(rbytes) + |got| - |got0|
      ensures r.Zero? ==> socket.ended || rbytes == rbuf.Length
      ensures old(rbytes) == rbuf.Length ==> r.Zero? && socket.ended == old(socket.ended)
      ensures old(rbytes) <= rbuf.Length && r == ReadOf(old(socket.arrivals), rbuf.Length - old(rbytes))
      ensures socket.arrivals == LeftOf(old(socket.arrivals), rbuf.Length - old(rbytes))
    {
      hide *;
      WhileReading(consumed0, received0, was, got0);
      r := ReadBehind();
      got := got0;
      if r.Got? {
        Assoc(received0, got0, r.data);
        Assoc(was, got0, r.data);
        got := got0 + r.data;
      }
      MakeReading(consumed0, received0, was, got);
      WhileReading(consumed0, received0, was, got);
    }

    lemma MakeReading(consumed0: seq<byte>, received0: seq<byte>, was: seq<byte>, got: seq<byte>)
      requires Valid() && rcurr == 0
      requires socket.received == received0 + got && consumed == consumed0 && Window() == was + got
      ensures Reading(consumed0, received0, was, got)
    {
    }

    /** The buffer grows behind what it holds. */
    method Grow(ghost consumed0: seq<byte>, ghost received0: seq<byte>, ghost was: seq<byte>, ghost got: seq<byte>)
      requires Reading(consumed0, received0, was, got)
      modifies `rbuf
      ensures Reading(consumed0, received0, was, got) && fresh(rbuf) && rbuf.Length == 2 * old(rbuf.Length)
    {
      hide *;
      WhileReading(consumed0, received0, was, got);
      Double();
      MakeReading(consumed0, received0, was, got);
    }

    /** What waits is thrown away. */
    method ThrowAway(ghost consumed0: seq<byte>, ghost received0: seq<byte>, ghost was: seq<byte>, ghost got: seq<byte>)
      requires Reading(consumed0, received0, was, got)
      modifies `rcurr, `rbytes, `consumed
      ensures Valid() && rbytes == 0 && consumed == consumed0 + was + got && socket.received == received0 + got
    {
      hide *;
      WhileReading(consumed0, received0, was, got);
      Facts();
      Assoc(consumed0, was, got);
      var thrown := Take(rbytes);
      assert thrown == was + got;
    }

    /** The buffer is full: doubling t is asked for. */
    method AskAndGrow(canRealloc: nat -> bool, ghost i: Input, t: nat, ghost last: ReadResult, ghost consumed0: seq<byte>,
                      ghost received0: seq<byte>, ghost was: seq<byte>, ghost got: seq<byte>)
      returns (granted: bool)
      requires Reading(consumed0, received0, was, got) && t < 4 && !last.Zero? && !last.Error?
      requires Turn(i, canRealloc, t, 0, last, got, socket.arrivals)
      modifies `rbuf
      ensures Reading(consumed0, received0, was, got) && granted == canRealloc(t)
      ensures if granted then BeforeRead(i, canRealloc, t + 1, got, socket.arrivals)
                              && fresh(rbuf) && rbuf.Length == 2 * old(rbuf.Length)
              else FillOutcome(i, true, canRealloc, t + 1, last, got, socket.arrivals) && rbuf == old(rbuf)
    {
      hide *;
      TurnAsks(i, canRealloc, t, last, got, socket.arrivals);
      granted := canRealloc(t);
      if granted {
        Grow(consumed0, received0, was, got);
      }
    }

    /** Read t of the loop, which goes on if it fills a buffer that may grow. */
    method ReadTurn(ghost canRealloc: nat -> bool, ghost i: Input, ghost t: nat, ghost consumed0: seq<byte>,
                    ghost received0: seq<byte>, ghost was: seq<byte>, ghost got0: seq<byte>)
      returns (last: ReadResult, more: bool, ghost got: seq<byte>)
      requires Reading(consumed0, received0, was, got0) && BeforeRead(i, canRealloc, t, got0, socket.arrivals)
      requires t <= 4 && rbuf.Length - rbytes == Want(i, t) && if rbufMalloced then Want(i, t) > 0 else t == 0
      modifies `rbytes, rbuf, socket
      ensures Reading(consumed0, received0, was, got) && rbytes == old(rbytes) + |got| - |got0|
      ensures got0 <= got && (got != got0 <==> last.Got?)
      ensures last.Zero? && !socket.ended <==> !old(socket.ended) && old(rbytes) == rbuf.Length
      ensures if more then last.Got? && rbufMalloced && rbytes == rbuf.Length
                           && Turn(i, canRealloc, t, 0, last, got, socket.arrivals)
              else FillOutcome(i, rbufMalloced, canRealloc, t, last, got, socket.arrivals)
    {
      hide *;
      WhileReading(consumed0, received0, was, got0);
      ghost var arrivals := socket.arrivals;
      var avail := rbuf.Length - rbytes;
      last, got := ReadOnce(consumed0, received0, was, got0);
      ReadNext(i, canRealloc, t, got0, arrivals);
      WhileReading(consumed0, received0, was, got);
      more := last.Got? && |last.data| == avail && rbufMalloced;
      if more {
        ReadFills(i, canRealloc, t, got0, arrivals);
      } else {
        EndShort(i, rbufMalloced, canRealloc, t, got0, arrivals);
      }
    }

    /** What the loop of try_read_network begins with. */
    ghost function Entry(): Input
      reads this, socket, rbuf
    {
      Input(socket.arrivals, Max(0, rbuf.Length - rbytes), rbuf.Length)
    }

    lemma EntryIs()
      requires rbytes <= rbuf.Length
      ensures Entry() == Input(socket.arrivals, rbuf.Length - rbytes, rbuf.Length)
    {
    }

    /** The loop of try_read_network: a read for as long as reads fill the buffer, which is doubled
        up to four times; a refused doubling ends it. */
    method FillBuffer(canRealloc: nat -> bool, ghost consumed0: seq<byte>, ghost received0: seq<byte>, ghost was: seq<byte>)
      returns (gotdata: NetworkResult, tries: nat, last: ReadResult, ghost got: seq<byte>)
      requires Reading(consumed0, received0, was, [])
      modifies `rbytes, `rbuf, rbuf, socket
      ensures Reading(consumed0, received0, was, got)
      ensures tries <= 4
      ensures FillOutcome(old(Entry()), rbufMalloced, canRealloc, tries, last, got, socket.arrivals)
      ensures gotdata == if got == [] then ReadNoDataReceived else ReadDataReceived
      ensures last.Zero? && !socket.ended
              <==> !old(socket.ended) && !rbufMalloced && old(rbytes) == rbuf.Length
      ensures rbuf.Length <= 16 * old(rbuf.Length) && (!rbufMalloced ==> rbuf == old(rbuf))
    {
      hide *;
      ghost var i := Entry();
      WhileReading(consumed0, received0, was, []);
      EntryIs();
      gotdata, last, got, tries := ReadNoDataReceived, Again, [], 0;
      GrownBounds(i.size, 0);
      FirstTurn(i, canRealloc);
      while true
        invariant Reading(consumed0, received0, was, got)
        invariant tries <= 4 && rbytes <= rbuf.Length
        invariant Turn(i, canRealloc, tries, rbuf.Length - rbytes, last, got, socket.arrivals)
        invariant if rbufMalloced then rbuf == old(rbuf) || fresh(rbuf)
                  else tries == 0 && rbuf == old(rbuf) && got == [] && socket.ended == old(socket.ended)
        invariant rbuf.Length == Grown(i.size, tries) && (tries == 0 || rbytes == rbuf.Length)
        invariant gotdata == if got == [] then ReadNoDataReceived else ReadDataReceived
        invariant !last.Zero? && !last.Error?
        decreases 4 - tries, if rbytes >= rbuf.Length then 0 else 1
      {
        WhileReading(consumed0, received0, was, got);
        GrownBounds(i.size, tries);
        ghost var arrivals := socket.arrivals;
        if rbytes >= rbuf.Length && rbufMalloced {
          if tries == 4 {
            EndGrown(i, canRealloc, last, got, arrivals);
            break;
          }
          var granted := AskAndGrow(canRealloc, i, tries, last, consumed0, received0, was, got);
          tries := tries + 1;
          if !granted {
            break;
          }
          GrownBounds(i.size, tries);
        } else {
          TurnReads(i, canRealloc, tries, rbuf.Length - rbytes, last, got, arrivals);
        }
        WantIs(i, tries);
        var more;
        last, more, got := ReadTurn(canRealloc, i, tries, consumed0, received0, was, got);
        gotdata := if last.Got? then ReadDataReceived else gotdata;
        if !more {
          break;
        }
      }
    }

    /** try_read_network: compact, then read into the buffer, doubling it up to four times while
        reads fill it. A refused doubling throws the waiting bytes away and reports, which without
        a response to report in follows a null pointer. Otherwise the new bytes, and only they,
        are behind the old ones. What is read and which doublings are asked for follows from what
        arrives, the room in the buffer and the doublings granted; so a call is refused memory
        exactly when the buffer may grow and the reads fill it up to a doubling, one of the first
        four, that is not granted. The read fails exactly when the socket does or gives zero bytes;
        and zero bytes from a live socket come exactly of a full buffer that may not grow. */
    method TryReadNetwork(canRealloc: nat -> bool, hasResponse: bool, ascii: bool)
      returns (result: NetworkResult, tries: nat, last: ReadResult, ghost got: seq<byte>)
      requires Valid()
      modifies this, rbuf, socket
      ensures Valid() && socket.received == old(socket.received) + got
      ensures FillOutcome(old(Entry()), old(rbufMalloced), canRealloc, tries, last, got, socket.arrivals)
      ensures result == ReadMemoryError || result == NullFollowed
              <==> Refused(old(Entry()), old(rbufMalloced), canRealloc)
      ensures result == NullFollowed ==> ascii && !hasResponse
      ensures result == ReadMemoryError ==> !ascii || hasResponse
      ensures if Refused(old(Entry()), old(rbufMalloced), canRealloc)
              then rbytes == 0 && consumed == old(consumed) + old(Window()) + got
              else consumed == old(consumed) && Window() == old(Window()) + got
      ensures result == ReadDataReceived ==> got != []
      ensures result == ReadNoDataReceived ==> got == []
      ensures result == ReadError <==> last.Error? || last.Zero?
      ensures last.Zero? && !socket.ended
              <==> !old(socket.ended) && !old(rbufMalloced) && old(rbytes) == old(rbuf.Length)
      ensures rbuf.Length <= 16 * old(rbuf.Length) && (!old(rbufMalloced) ==> rbuf == old(rbuf))
    {
      hide *;
      ghost var consumed0, received0, was := consumed, socket.received, Window();
      Facts();
      ghost var i := Entry();
      EntryIs();
      Compact();
      StartReading();
      EntryIs();
      result, tries, last, got := FillBuffer(canRealloc, consumed0, received0, was);
      WhileReading(consumed0, received0, was, got);
      RefusedExactly(i, rbufMalloced, canRealloc, tries, last, got, socket.arrivals);
      if tries > 0 && !canRealloc(tries - 1) {
        ThrowAway(consumed0, received0, was, got);
        result := if ascii && !hasResponse then NullFollowed else ReadMemoryError;
      } else if last.Zero? || last.Error? {
        result := ReadError;
      }
    }
  }

  lemma Split(s: seq<byte>, t: seq<byte>, n: nat)
    requires n <= |t|
    ensures (s + t[..n]) + t[n..] == s + t
  {
  }

  /** The first n doublings that are asked for are granted. */
  ghost predicate AllGiven(canRealloc: nat -> bool, n: nat) {
    forall i :: 0 <= i < n ==> canRealloc(i)
  }

  /** The size after n doublings. */
  function Grown(size: nat, n: nat): nat {
    if n == 0 then size else 2 * Grown(size, n - 1)
  }

  lemma GrownBounds(size: nat, n: nat)
    ensures Grown(size, 0) == size && Grown(size, n + 1) == 2 * Grown(size, n)
    ensures n <= 4 ==> Grown(size, n) <= 16 * size
  {
    assert Grown(size, 4) == 2 * Grown(size, 3) == 4 * Grown(size, 2) == 8 * Grown(size, 1) == 16 * size;
  }

  // ------------------------------------------------- which doublings are asked for

  /** What arrives, the room behind the waiting bytes, and the size of the buffer. */
  datatype Input = Input(arrivals: seq<Arrival>, room: nat, size: nat)

  /** Read k, which follows the k-th doubling, asks for all the room there is then. */
  function Want(i: Input, k: nat): nat {
    if k == 0 then i.room else Grown(i.size, k - 1)
  }

  /** What is still to arrive when it is made. */
  function Arriving(i: Input, k: nat): seq<Arrival> {
    if k == 0 then i.arrivals else LeftOf(Arriving(i, k - 1), Want(i, k - 1))
  }

  function ReadNo(i: Input, k: nat): ReadResult {
    ReadOf(Arriving(i, k), Want(i, k))
  }

  /** The read fills the buffer, or it was full. */
  predicate Fills(i: Input, k: nat) {
    Want(i, k) == 0 || (ReadNo(i, k).Got? && |ReadNo(i, k).data| == Want(i, k))
  }

  function GotBy(i: Input, k: nat): seq<byte> {
    if k == 0 then [] else GotBy(i, k - 1) + if ReadNo(i, k - 1).Got? then ReadNo(i, k - 1).data else []
  }

  ghost predicate FillsTo(i: Input, k: nat) {
    forall j: nat :: j <= k ==> Fills(i, j)
  }

  /** Doubling k of the first four is asked for when the buffer may grow, those before it were
      granted, and every read up to then filled the buffer. */
  ghost predicate Asked(i: Input, malloced: bool, canRealloc: nat -> bool, k: nat) {
    malloced && k < 4 && AllGiven(canRealloc, k) && FillsTo(i, k)
  }

  /** A doubling that is asked for is not granted. */
  ghost predicate Refused(i: Input, malloced: bool, canRealloc: nat -> bool) {
    exists k: nat :: Asked(i, malloced, canRealloc, k) && !canRealloc(k)
  }

  /** How the loop ends: with the doublings that there are to ask for, and every read made that was
      not barred by a refusal. */
  ghost predicate FillOutcome(i: Input, malloced: bool, canRealloc: nat -> bool, tries: nat, last: ReadResult,
                              got: seq<byte>, arrivals: seq<Arrival>) {
    && (forall k: nat :: k < tries <==> Asked(i, malloced, canRealloc, k))
    && (if tries > 0 && !canRealloc(tries - 1)
        then got == GotBy(i, tries) && arrivals == Arriving(i, tries) && !last.Zero? && !last.Error?
        else last == ReadNo(i, tries) && got == GotBy(i, tries + 1) && arrivals == Arriving(i, tries + 1))
  }

  /** The refusal is that of the last doubling asked for. */
  lemma RefusedExactly(i: Input, malloced: bool, canRealloc: nat -> bool, tries: nat, last: ReadResult,
                       got: seq<byte>, arrivals: seq<Arrival>)
    requires FillOutcome(i, malloced, canRealloc, tries, last, got, arrivals)
    ensures Refused(i, malloced, canRealloc) <==> tries > 0 && !canRealloc(tries - 1)
    ensures tries > 0 && !canRealloc(tries - 1) ==> !last.Zero? && !last.Error?
  {
    hide FillsTo, GotBy, Arriving, ReadNo;
    if tries > 0 {
      assert Asked(i, malloced, canRealloc, tries - 1);
    }
    if k: nat :| Asked(i, malloced, canRealloc, k) && !canRealloc(k) {
      assert k == tries - 1;
    }
  }

  /** The loop between two reads: either nothing was read and there is room, or the buffer is full
      and every read so far filled it. */
  ghost predicate Turn(i: Input, canRealloc: nat -> bool, t: nat, room: nat, last: ReadResult, got: seq<byte>,
                       arrivals: seq<Arrival>) {
    && AllGiven(canRealloc, t)
    && (room > 0 ==> t == 0 && room == i.room && got == [] && arrivals == i.arrivals)
    && (room == 0 ==> FillsTo(i, t) && got == GotBy(i, t + 1) && arrivals == Arriving(i, t + 1))
    && (room == 0 && t > 0 ==> last == ReadNo(i, t))
  }

  /** The loop before read t. */
  ghost predicate BeforeRead(i: Input, canRealloc: nat -> bool, t: nat, got: seq<byte>, arrivals: seq<Arrival>) {
    && AllGiven(canRealloc, t) && (t > 0 ==> FillsTo(i, t - 1))
    && got == GotBy(i, t) && arrivals == Arriving(i, t)
  }

  lemma WantIs(i: Input, k: nat)
    ensures Want(i, k) == if k == 0 then i.room else Grown(i.size, k - 1)
  {
  }

  lemma StepTo(i: Input, k: nat)
    ensures GotBy(i, 0) == [] && Arriving(i, 0) == i.arrivals
    ensures GotBy(i, k + 1) == GotBy(i, k) + if ReadNo(i, k).Got? then ReadNo(i, k).data else []
    ensures Arriving(i, k + 1) == LeftOf(Arriving(i, k), Want(i, k))
    ensures ReadNo(i, k) == ReadOf(Arriving(i, k), Want(i, k))
  {
  }

  lemma FillsOne(i: Input, k: nat)
    ensures FillsTo(i, k) <==> (k > 0 ==> FillsTo(i, k - 1)) && Fills(i, k)
  {
    hide Fills;
  }

  lemma FirstTurn(i: Input, canRealloc: nat -> bool)
    ensures Turn(i, canRealloc, 0, i.room, Again, [], i.arrivals)
  {
    StepTo(i, 0);
  }

  /** The buffer is full: doubling t is asked for, and granted or not. */
  lemma TurnAsks(i: Input, canRealloc: nat -> bool, t: nat, last: ReadResult, got: seq<byte>, arrivals: seq<Arrival>)
    requires Turn(i, canRealloc, t, 0, last, got, arrivals) && t < 4 && !last.Zero? && !last.Error?
    ensures canRealloc(t) ==> BeforeRead(i, canRealloc, t + 1, got, arrivals)
    ensures !canRealloc(t) ==> FillOutcome(i, true, canRealloc, t + 1, last, got, arrivals)
  {
    hide Fills, GotBy, Arriving, ReadNo;
  }

  /** There is room, or the buffer may not grow: the first read. */
  lemma TurnReads(i: Input, canRealloc: nat -> bool, t: nat, room: nat, last: ReadResult, got: seq<byte>,
                  arrivals: seq<Arrival>)
    requires Turn(i, canRealloc, t, room, last, got, arrivals) && (room > 0 || (t == 0 && room == i.room))
    ensures t == 0 && room == Want(i, 0) && BeforeRead(i, canRealloc, 0, got, arrivals)
  {
    StepTo(i, 0);
    FillsOne(i, 0);
  }

  /** All four doublings were granted, and filled. */
  lemma EndGrown(i: Input, canRealloc: nat -> bool, last: ReadResult, got: seq<byte>, arrivals: seq<Arrival>)
    requires Turn(i, canRealloc, 4, 0, last, got, arrivals)
    ensures FillOutcome(i, true, canRealloc, 4, last, got, arrivals)
  {
    hide Fills, GotBy, Arriving, ReadNo;
  }

  lemma ReadNext(i: Input, canRealloc: nat -> bool, t: nat, got: seq<byte>, arrivals: seq<Arrival>)
    requires BeforeRead(i, canRealloc, t, got, arrivals)
    ensures var r := ReadOf(arrivals, Want(i, t));
      && r == ReadNo(i, t)
      && GotBy(i, t + 1) == (if r.Got? then got + r.data else got)
      && Arriving(i, t + 1) == LeftOf(arrivals, Want(i, t))
  {
    hide Fills;
    StepTo(i, t);
  }

  lemma ReadFills(i: Input, canRealloc: nat -> bool, t: nat, got: seq<byte>, arrivals: seq<Arrival>)
    requires BeforeRead(i, canRealloc, t, got, arrivals)
    requires var r := ReadOf(arrivals, Want(i, t)); r.Got? && |r.data| == Want(i, t)
    ensures Turn(i, canRealloc, t, 0, ReadNo(i, t), GotBy(i, t + 1), Arriving(i, t + 1))
  {
    hide GotBy, Arriving;
    FillsOne(i, t);
  }

  /** A read that does not fill the buffer, or is not followed by a doubling, is the last. */
  lemma EndShort(i: Input, malloced: bool, canRealloc: nat -> bool, t: nat, got: seq<byte>, arrivals: seq<Arrival>)
    requires BeforeRead(i, canRealloc, t, got, arrivals) && t <= 4 && (!malloced ==> t == 0) && (malloced ==> Want(i, t) > 0)
    requires var r := ReadOf(arrivals, Want(i, t)); malloced ==> !r.Got? || |r.data| != Want(i, t)
    ensures FillOutcome(i, malloced, canRealloc, t, ReadNo(i, t), GotBy(i, t + 1), Arriving(i, t + 1))
  {
    hide GotBy, Arriving;
    FillsOne(i, t);
  }

  /** The simplest case: the buffer is full already, and may grow, but cannot. */
  lemma FullAndRefused(i: Input, canRealloc: nat -> bool)
    requires i.room == 0 && !canRealloc(0)
    ensures Refused(i, true, canRealloc)
  {
    assert Asked(i, true, canRealloc, 0);
  }

  /** Bytes that fill the buffer up to doubling k. */
  function BurstSize(i: Input, k: nat): nat {
    if k == 0 then i.room else BurstSize(i, k - 1) + Grown(i.size, k - 1)
  }

  /** In general: that many bytes that are there at once lead to doubling k. */
  lemma {:induction false} BurstFills(i: Input, k: nat)
    requires i.arrivals != [] && i.arrivals[0].Bytes? && |i.arrivals[0].data| > BurstSize(i, k)
    ensures FillsTo(i, k)
    ensures Arriving(i, k + 1) == [Bytes(i.arrivals[0].data[BurstSize(i, k)..])] + i.arrivals[1..]
  {
    hide LeftOf, ReadOf, Arriving, FillsTo, GotBy;
    var data, more := i.arrivals[0].data, i.arrivals[1..];
    StepTo(i, k);
    FillsOne(i, k);
    if k > 0 {
      var was := BurstSize(i, k - 1);
      BurstFills(i, k - 1);
      ReadFront(data[was..], more, Want(i, k));
      assert data[was..][Want(i, k)..] == data[BurstSize(i, k)..];
    } else {
      StepTo(i, 0);
      ReadFront(data, more, Want(i, 0));
      assert [i.arrivals[0]] + more == i.arrivals;
    }
  }

  /** Less than what has arrived at once is read whole. */
  lemma ReadFront(data: seq<byte>, more: seq<Arrival>, n: nat)
    requires n < |data|
    ensures n > 0 ==> ReadOf([Bytes(data)] + more, n) == Got(data[..n])
    ensures LeftOf([Bytes(data)] + more, n) == [Bytes(data[n..])] + more
  {
    assert data[0..] == data && ([Bytes(data)] + more)[1..] == more;
  }

  lemma BurstIsRefused(i: Input, canRealloc: nat -> bool, k: nat)
    requires i.arrivals != [] && i.arrivals[0].Bytes? && |i.arrivals[0].data| > BurstSize(i, k)
    requires k < 4 && AllGiven(canRealloc, k) && !canRealloc(k)
    ensures Refused(i, true, canRealloc)
  {
    BurstFills(i, k);
    assert Asked(i, true, canRealloc, k);
  }

  // ------------------------------------------------- reading into an item

  /** How a read for an item stopped short. */
  datatype ReadOutcome = Complete | Progress | StreamEnded | NothingYet | ReadFailed | NoMemory

  predicate IsStop(outcome: ReadOutcome, r: ReadResult) {
    match r
    case Zero => outcome == StreamEnded
    case Again => outcome == NothingYet
    case Error => outcome == ReadFailed
    case Got(_) => false
  }

  function Stopped(r: ReadResult): ReadOutcome
    requires !r.Got?
  {
    match r
    case Zero => StreamEnded
    case Again => NothingYet
    case Error => ReadFailed
  }

  /** A flat item being read: its data, filled up to `at`, and how many bytes are still wanted. */
  class FlatTarget {
    const data: array<byte>
    var at: nat
    var rlbytes: nat

    ghost predicate Ok()
      reads this
    {
      at + rlbytes <= data.Length
    }

    ghost function Filled(): seq<byte>
      requires Ok()
      reads this, data
    {
      data[..at]
    }

    constructor (size: nat, rlbytes: nat)
      requires rlbytes <= size
      ensures Ok() && fresh(data) && Filled() == [] && this.rlbytes == rlbytes
    {
      data := new byte[size](_ => 0);
      at, this.rlbytes := 0, rlbytes;
    }

    method Put(bytes: seq<byte>)
      requires Ok() && |bytes| <= rlbytes
      modifies `at, `rlbytes, data
      ensures Ok() && Filled() == old(Filled()) + bytes && rlbytes == old(rlbytes) - |bytes|
    {
      forall i | 0 <= i < |bytes| {
        data[at + i] := bytes[i];
      }
      at := at + |bytes|;
      rlbytes := rlbytes - |bytes|;
      assert data[..at] == old(data[..at]) + bytes;
    }
  }

  /** One pass of conn_nread for a flat item: what waits in the buffer first, then the socket. */
  method NreadFlat(c: Conn, t: FlatTarget) returns (outcome: ReadOutcome, ghost taken: seq<byte>)
    requires c.Valid() && t.Ok() && t.rlbytes > 0 && t.data != c.rbuf
    modifies c`rcurr, c`rbytes, c`consumed, c.socket, t`at, t`rlbytes, t.data
    ensures c.Valid() && t.Ok() && t.rlbytes == old(t.rlbytes) - |taken|
    ensures t.Filled() == old(t.Filled()) + taken && c.consumed == old(c.consumed) + taken
    ensures outcome == Complete ==> t.rlbytes == 0
    ensures outcome == Complete || outcome == Progress ==> taken != []
    ensures outcome != Complete && outcome != Progress ==> t.rlbytes > 0 && c.rbytes == 0
    ensures outcome == StreamEnded ==> c.socket.ended
    ensures outcome == Complete || outcome == Progress ==>
      old(c.Ready()) == taken + c.Ready() && StopAt(c.socket.arrivals) == old(StopAt(c.socket.arrivals))
    ensures outcome != Complete && outcome != Progress ==>
      taken == old(c.Ready()) && IsStop(outcome, old(StopAt(c.socket.arrivals)))
    ensures outcome != NoMemory && old(c.socket.received) <= c.socket.received
  {
    hide Conn.Valid, Conn.Window, Conn.Ready, Available, StopAt, ReadOf, LeftOf, FlatTarget.Filled;
    ghost var ready := c.Ready();
    assert ready == [] + ready;
    taken := [];
    c.Facts();
    if c.rbytes > 0 {
      var bytes := c.Take(if c.rbytes > t.rlbytes then t.rlbytes else c.rbytes);
      t.Put(bytes);
      taken := bytes;
      if t.rlbytes == 0 {
        return Complete, taken;
      }
    }
    var r := FlatFromSocket(c, t);
    var bytes := if r.Got? then r.data else [];
    Assoc(old(t.Filled()), taken, bytes);
    Assoc(old(c.consumed), taken, bytes);
    Assoc(taken, bytes, c.Ready());
    taken := taken + bytes;
    outcome := if !r.Got? then Stopped(r) else if t.rlbytes == 0 then Complete else Progress;
  }

  /** The socket is asked for all that is wanted. */
  method FlatFromSocket(c: Conn, t: FlatTarget) returns (r: ReadResult)
    requires c.Valid() && t.Ok() && t.rlbytes > 0 && t.data != c.rbuf && c.rbytes == 0
    modifies c`consumed, c.socket, t`at, t`rlbytes, t.data
    ensures c.Valid() && t.Ok() && c.rbytes == 0
    ensures var bytes := if r.Got? then r.data else [];
      && t.Filled() == old(t.Filled()) + bytes && c.consumed == old(c.consumed) + bytes && t.rlbytes == old(t.rlbytes) - |bytes|
      && (r.Got? ==> bytes != []) && old(c.Ready()) == bytes + (if r.Got? then c.Ready() else [])
    ensures r.Zero? ==> c.socket.ended
    ensures if r.Got? then StopAt(c.socket.arrivals) == old(StopAt(c.socket.arrivals)) else r == old(StopAt(c.socket.arrivals))
    ensures old(c.socket.received) <= c.socket.received
  {
    hide Conn.Valid, Conn.Window, Conn.Ready, Available, StopAt, ReadOf, LeftOf, FlatTarget.Filled;
    r := c.ReadPast(t.rlbytes);
    if r.Got? {
      t.Put(r.data);
    } else {
      assert t.Filled() + [] == t.Filled() && c.consumed + [] == c.consumed;
    }
  }

  /** The same pass for an item read in place: it lies in the read buffer from `start` on, up to the
      unread bytes, so leftovers are where they belong and what the socket gives goes behind them. */
  method NreadInPlace(c: Conn, start: nat, rlbytes: nat) returns (outcome: ReadOutcome, left: nat, ghost taken: seq<byte>)
    requires c.Valid() && start <= c.rcurr && rlbytes > 0 && c.rcurr + rlbytes <= c.rbuf.Length
    modifies c`rcurr, c`rbytes, c`consumed, c.socket, c.rbuf
    ensures c.Valid() && left == rlbytes - |taken| && c.rcurr == old(c.rcurr) + |taken|
    ensures c.rbuf[start..c.rcurr] == old(c.rbuf[start..c.rcurr]) + taken && c.consumed == old(c.consumed) + taken
    ensures outcome == Complete ==> left == 0
    ensures outcome == Complete || outcome == Progress ==> taken != []
    ensures outcome != Complete && outcome != Progress ==> left > 0 && c.rbytes == 0
    ensures outcome == StreamEnded ==> c.socket.ended
    ensures outcome == Complete || outcome == Progress ==>
      old(c.Ready()) == taken + c.Ready() && StopAt(c.socket.arrivals) == old(StopAt(c.socket.arrivals))
    ensures outcome != Complete && outcome != Progress ==>
      taken == old(c.Ready()) && IsStop(outcome, old(StopAt(c.socket.arrivals)))
    ensures outcome != NoMemory && old(c.socket.received) <= c.socket.received
  {
    hide Conn.Valid, Conn.Window, Conn.Ready, Available, StopAt, ReadOf, LeftOf;
    ghost var ready := c.Ready();
    assert ready == [] + ready;
    c.Facts();
    left, taken := rlbytes, [];
    ghost var item := c.rbuf[start..c.rcurr];
    assert item + [] == item && c.consumed + [] == c.consumed;
    if c.rbytes > 0 {
      var bytes := TakeInPlace(c, start, if c.rbytes > left then left else c.rbytes);
      taken := bytes;
      left := left - |bytes|;
      if left == 0 {
        return Complete, left, taken;
      }
    }
    var r := c.ReadPast(left);
    if r.Got? {
      StoreAt(c, start, r.data);
      Assoc(item, taken, r.data);
      Assoc(taken, r.data, c.Ready());
      Assoc(old(c.consumed), taken, r.data);
      taken := taken + r.data;
      left := left - |r.data|;
      outcome := if left == 0 then Complete else Progress;
      return;
    }
    outcome := Stopped(r);
  }

  /** Leftovers become the item's without being moved. */
  method TakeInPlace(c: Conn, start: nat, n: nat) returns (bytes: seq<byte>)
    requires c.Valid() && n <= c.rbytes && start <= c.rcurr
    modifies c`rcurr, c`rbytes, c`consumed
    ensures c.Valid() && |bytes| == n && c.rcurr == old(c.rcurr) + n <= c.rbuf.Length && c.rbytes == old(c.rbytes) - n
    ensures c.rbuf[start..c.rcurr] == c.rbuf[start..old(c.rcurr)] + bytes && c.consumed == old(c.consumed) + bytes
    ensures old(c.Ready()) == bytes + c.Ready()
  {
    hide *;
    c.Facts();
    c.WindowIs();
    ghost var at, all := c.rcurr, c.rbuf[..];
    assert c.rbuf[at..at + n] == all[at..at + n] && c.rbuf[start..at] == all[start..at];
    JoinSlices(all, start, at, at + n);
    bytes := c.Take(n);
    c.Facts();
    assert c.rbuf[start..at + n] == c.rbuf[..][start..at + n] == all[start..at + n];
  }

  lemma JoinSlices(s: seq<byte>, a: nat, b: nat, c: nat)
    requires a <= b <= c <= |s|
    ensures s[a..c] == s[a..b] + s[b..c]
  {
  }

  /** Bytes go behind the item in the buffer, where nothing is unread. */
  method StoreAt(c: Conn, start: nat, data: seq<byte>)
    requires c.Valid() && c.rbytes == 0 && start <= c.rcurr && c.rcurr + |data| <= c.rbuf.Length
    modifies c`rcurr, c.rbuf
    ensures c.Valid() && c.rcurr == old(c.rcurr) + |data| && c.Ready() == old(c.Ready())
    ensures c.rbuf[start..c.rcurr] == old(c.rbuf[start..c.rcurr]) + data
  {
    ghost var item := c.rbuf[start..c.rcurr];
    forall i | 0 <= i < |data| {
      c.rbuf[c.rcurr + i] := data[i];
    }
    c.rcurr := c.rcurr + |data|;
    assert c.rbuf[start..c.rcurr] == item + data;
  }

  /** What was taken, and then what waits, is what waited before and then what has arrived since:
      the bytes taken are the next ones of the stream. */
  ghost predicate TakesNext(window: seq<byte>, received: seq<byte>, taken: seq<byte>, windowNow: seq<byte>, receivedNow: seq<byte>) {
    received <= receivedNow && taken + windowNow == window + receivedNow[|received|..]
  }

  lemma TakenIsNext(consumed: seq<byte>, window: seq<byte>, taken: seq<byte>, windowNow: seq<byte>, receivedNow: seq<byte>)
    requires consumed + window <= receivedNow && consumed + taken + windowNow == receivedNow
    ensures TakesNext(window, consumed + window, taken, windowNow, receivedNow)
  {
    var arrived := receivedNow[|consumed + window|..];
    assert receivedNow == consumed + window + arrived;
    assert consumed + taken + windowNow == consumed + (taken + windowNow);
    assert consumed + window + arrived == consumed + (window + arrived);
    assert taken + windowNow == (consumed + (taken + windowNow))[|consumed|..] == window + arrived;
  }

  /** conn_nread for a flat item, pass after pass until nothing more comes: when it completes,
      the item holds exactly the wanted number of bytes, the next ones of the stream. */
  method ReadFlatItem(c: Conn, t: FlatTarget) returns (outcome: ReadOutcome, ghost taken: seq<byte>)
    requires c.Valid() && t.Ok() && t.rlbytes > 0 && t.data != c.rbuf
    modifies c`rcurr, c`rbytes, c`consumed, c.socket, t`at, t`rlbytes, t.data
    ensures c.Valid() && t.Ok() && t.rlbytes == old(t.rlbytes) - |taken|
    ensures t.Filled() == old(t.Filled()) + taken && c.consumed == old(c.consumed) + taken
    ensures outcome == Complete <==> |taken| == old(t.rlbytes)
    ensures outcome != Progress && (outcome == StreamEnded ==> c.socket.ended)
    ensures if outcome == Complete then old(c.Ready()) == taken + c.Ready()
            else taken == old(c.Ready()) && IsStop(outcome, old(StopAt(c.socket.arrivals)))
    ensures TakesNext(old(c.Window()), old(c.socket.received), taken, c.Window(), c.socket.received)
  {
    hide *;
    taken := [];
    ghost var filled, consumed := t.Filled(), c.consumed;
    c.Facts();
    ghost var window := c.Window();
    Assoc(consumed, window, []);
    assert filled + [] == filled && consumed + [] == consumed;
    ghost var ready, stop := c.Ready(), StopAt(c.socket.arrivals);
    assert ready == [] + ready;
    while true
      invariant c.Valid() && t.Ok() && 0 < t.rlbytes == old(t.rlbytes) - |taken|
      invariant consumed + window <= c.socket.received
      invariant t.Filled() == filled + taken && c.consumed == consumed + taken
      invariant ready == taken + c.Ready() && StopAt(c.socket.arrivals) == stop
      decreases t.rlbytes
    {
      ghost var more;
      outcome, more := NreadFlat(c, t);
      Assoc(taken, more, c.Ready());
      Assoc(filled, taken, more);
      Assoc(consumed, taken, more);
      taken := taken + more;
      if outcome != Progress {
        break;
      }
      if t.rlbytes == 0 {
        outcome := Complete;
        break;
      }
    }
    c.Facts();
    TakenIsNext(consumed, window, taken, c.Window(), c.socket.received);
  }

  /** What fits of the wanted bytes goes into the chunk, from the buffer if anything waits there,
      and otherwise straight from the socket. */
  method IntoChunk(c: Conn, ghost ds: seq<ItemChunk>, ghost cs: seq<ItemChunk>, ch: ItemChunk, ghost value: seq<byte>,
                   rlbytes: nat)
    returns (r: ReadResult)
    requires c.Valid() && Holds(ds, cs, value) && cs != [] && ch == cs[|cs| - 1]
    requires ch.used < ch.size && rlbytes > 0
    modifies c`rcurr, c`rbytes, c`consumed, c.socket, ch`used, ch`data
    ensures c.Valid() && ch.Ok()
    ensures c.consumed == old(c.consumed) + if r.Got? then r.data else []
    ensures Holds(ds, cs, value + if r.Got? then r.data else [])
    ensures if r.Got? then 0 < |r.data| <= rlbytes && ch.used == old(ch.used) + |r.data|
            else c.rbytes == 0 && Holds(ds, cs, value) && c.consumed == old(c.consumed) && ch.used == old(ch.used)
    ensures r.Zero? ==> c.socket.ended
    ensures old(c.Ready()) == (if r.Got? then r.data + c.Ready() else [])
    ensures if r.Got? then StopAt(c.socket.arrivals) == old(StopAt(c.socket.arrivals)) else r == old(StopAt(c.socket.arrivals))
  {
    hide Conn.Valid, Conn.Window, Conn.Ready, Available, StopAt, ReadOf, LeftOf, Holds;
    c.Facts();
    var unused := ch.size - ch.used;
    if c.rbytes > 0 {
      var tocopy := if c.rbytes > rlbytes then rlbytes else c.rbytes;
      tocopy := if tocopy > unused then unused else tocopy;
      var bytes := c.Take(tocopy);
      r := Got(bytes);
    } else {
      r := c.ReadPast(if unused > rlbytes then rlbytes else unused);
    }
    var bytes := if r.Got? then r.data else [];
    AppendHolding(ds, cs, ch, value, bytes);
    assert value + [] == value && old(c.consumed) + [] == old(c.consumed);
  }

  /** What a read has taken from the connection so far, of all that was to be had. */
  ghost predicate TakenSo(c: Conn, consumed0: seq<byte>, ready0: seq<byte>, stop0: ReadResult, taken: seq<byte>)
    reads c, c.socket, c.rbuf
  {
    && c.Valid() && c.consumed == consumed0 + taken
    && ready0 == taken + c.Ready() && StopAt(c.socket.arrivals) == stop0
  }

  lemma NothingTaken(c: Conn)
    requires c.Valid()
    ensures TakenSo(c, c.consumed, c.Ready(), StopAt(c.socket.arrivals), [])
  {
    assert c.consumed + [] == c.consumed && [] + c.Ready() == c.Ready();
  }

  lemma OpenTaken(c: Conn, consumed0: seq<byte>, ready0: seq<byte>, stop0: ReadResult, taken: seq<byte>)
    requires TakenSo(c, consumed0, ready0, stop0, taken)
    ensures c.Valid() && c.consumed == consumed0 + taken && ready0 == taken + c.Ready()
    ensures StopAt(c.socket.arrivals) == stop0
  {
  }

  lemma MakeTaken(c: Conn, consumed0: seq<byte>, ready0: seq<byte>, stop0: ReadResult, taken: seq<byte>)
    requires c.Valid() && c.consumed == consumed0 + taken && ready0 == taken + c.Ready()
    requires StopAt(c.socket.arrivals) == stop0
    ensures TakenSo(c, consumed0, ready0, stop0, taken)
  {
  }

  /** One turn, with what has been taken in all. */
  method TakeIntoChunk(c: Conn, ghost ds: seq<ItemChunk>, ghost cs: seq<ItemChunk>, ch: ItemChunk, ghost was: seq<byte>,
                       rlbytes: nat, ghost consumed0: seq<byte>, ghost ready0: seq<byte>, ghost stop0: ReadResult,
                       ghost taken: seq<byte>)
    returns (r: ReadResult, ghost taken': seq<byte>)
    requires TakenSo(c, consumed0, ready0, stop0, taken) && Holds(ds, cs, was + taken) && cs != [] && ch == cs[|cs| - 1]
    requires ch.used < ch.size && rlbytes > 0
    modifies c`rcurr, c`rbytes, c`consumed, c.socket, ch`used, ch`data
    ensures ch.Ok() && taken' == (if r.Got? then taken + r.data else taken) && Holds(ds, cs, was + taken')
    ensures if r.Got? then TakenSo(c, consumed0, ready0, stop0, taken')
                           && 0 < |r.data| <= rlbytes && ch.used == old(ch.used) + |r.data|
            else c.Valid() && c.consumed == consumed0 + taken && taken == ready0 && r == stop0
                 && c.rbytes == 0 && ch.used == old(ch.used)
    ensures r.Zero? ==> c.socket.ended
  {
    hide *;
    OpenTaken(c, consumed0, ready0, stop0, taken);
    r := IntoChunk(c, ds, cs, ch, was + taken, rlbytes);
    taken' := taken;
    if r.Got? {
      taken' := taken + r.data;
      Assoc(consumed0, taken, r.data);
      Assoc(was, taken, r.data);
      Assoc(taken, r.data, c.Ready());
      MakeTaken(c, consumed0, ready0, stop0, taken');
    } else {
      assert taken + [] == taken;
    }
  }

  /** Request k of a read of len bytes into a last chunk with `room` bytes left, when `taken` bytes
      were had in all. It is made when all before it were granted and the room is used up with bytes
      still wanted; or, in the binary protocol, when all bytes are there and the chunk that took the
      last one has no room for the line end. */
  ghost predicate RequestMade(room: nat, len: nat, binary: bool, grants: nat -> Option<nat>, taken: nat, k: nat) {
    var capacity := ItemRoom(room, len, binary, grants, k);
    && Granted(grants, k)
    && if capacity < len then taken >= capacity
       else binary && taken == len && capacity - len < CRLF && (k > 0 ==> ItemRoom(room, len, binary, grants, k - 1) < len)
  }

  /** The bytes there is room for after k grants; the binary protocol asks for the line end too. */
  function ItemRoom(room: nat, len: nat, binary: bool, grants: nat -> Option<nat>, k: nat): nat {
    Capacity(room, if binary then len + CRLF else len, grants, k)
  }

  ghost predicate Requests(room: nat, len: nat, binary: bool, grants: nat -> Option<nat>, taken: nat, asked: nat) {
    forall k: nat :: k < asked <==> RequestMade(room, len, binary, grants, taken, k)
  }

  /** So memory runs out exactly when a request that is made is refused. */
  lemma ReadRefusedExactly(room: nat, len: nat, binary: bool, grants: nat -> Option<nat>, taken: nat, asked: nat)
    requires Requests(room, len, binary, grants, taken, asked)
    ensures !Granted(grants, asked)
            <==> exists k: nat :: RequestMade(room, len, binary, grants, taken, k) && grants(k).None?
  {
    hide ItemRoom;
    if k: nat :| k < asked && grants(k).None? {
      assert RequestMade(room, len, binary, grants, taken, k);
    }
  }

  /** In the binary protocol this can happen with every byte stored: the item fits, and no chunk can
      be had for the two bytes of a line end. */
  lemma RefusedForLineEnd(room: nat, len: nat, grants: nat -> Option<nat>, asked: nat)
    requires len <= room < len + CRLF && grants(0).None? && Requests(room, len, true, grants, len, asked)
    ensures asked == 1 && !Granted(grants, asked)
  {
    assert RequestMade(room, len, true, grants, len, 0);
    assert !RequestMade(room, len, true, grants, len, 1);
  }

  /** A read under way: `asked` requests granted, `taken` bytes stored, `left` bytes of room. */
  ghost predicate ItemPart(room: nat, len: nat, binary: bool, grants: nat -> Option<nat>, asked: nat, taken: nat, left: int) {
    && Granted(grants, asked) && taken <= len
    && taken + left == ItemRoom(room, len, binary, grants, asked)
    && forall k: nat :: k < asked ==> ItemRoom(room, len, binary, grants, k) <= taken
                                      && ItemRoom(room, len, binary, grants, k) < len
  }

  lemma RoomGrows(room: nat, len: nat, binary: bool, grants: nat -> Option<nat>, j: nat)
    ensures forall k: nat :: j <= k ==> ItemRoom(room, len, binary, grants, j) <= ItemRoom(room, len, binary, grants, k)
  {
    forall k: nat | j <= k
      ensures ItemRoom(room, len, binary, grants, j) <= ItemRoom(room, len, binary, grants, k)
    {
      CapacityGrows(room, if binary then len + CRLF else len, grants, j, k);
    }
  }

  lemma ItemStart(room: nat, len: nat, binary: bool, grants: nat -> Option<nat>)
    ensures ItemPart(room, len, binary, grants, 0, 0, room)
  {
  }

  lemma ItemTakes(room: nat, len: nat, binary: bool, grants: nat -> Option<nat>, asked: nat, taken: nat, left: int, n: nat)
    requires ItemPart(room, len, binary, grants, asked, taken, left) && taken + n <= len
    ensures ItemPart(room, len, binary, grants, asked, taken + n, left - n)
  {
    hide ItemRoom, Granted;
  }

  /** The room is used up with bytes still wanted. */
  lemma ItemAsks(room: nat, len: nat, binary: bool, grants: nat -> Option<nat>, asked: nat, taken: nat)
    requires ItemPart(room, len, binary, grants, asked, taken, 0) && taken < len
    ensures grants(asked).None? ==>
      Requests(room, len, binary, grants, taken, asked + 1) && !Granted(grants, asked + 1)
    ensures grants(asked).Some? ==>
      ItemPart(room, len, binary, grants, asked + 1, taken,
               GrantedSize(grants(asked).value, len - taken + if binary then CRLF else 0))
  {
    hide Capacity;
    CapacityNext(room, if binary then len + CRLF else len, grants, asked);
    RoomGrows(room, len, binary, grants, asked);
    hide ItemRoom;
  }

  /** Nothing more is to be had, with room left. */
  lemma ItemPauses(room: nat, len: nat, binary: bool, grants: nat -> Option<nat>, asked: nat, taken: nat, left: int)
    requires ItemPart(room, len, binary, grants, asked, taken, left) && taken < len && left > 0
    ensures Requests(room, len, binary, grants, taken, asked) && Granted(grants, asked)
  {
    hide ItemRoom;
    RoomGrows(room, len, binary, grants, asked);
  }

  /** All bytes are there. */
  lemma ItemWhole(room: nat, len: nat, binary: bool, grants: nat -> Option<nat>, asked: nat, left: int)
    requires ItemPart(room, len, binary, grants, asked, len, left) && left >= 0
    ensures Requests(room, len, binary, grants, len, if binary && left < CRLF then asked + 1 else asked)
    ensures Granted(grants, asked) && (Granted(grants, asked + 1) <==> grants(asked).Some?)
  {
    hide ItemRoom;
    RoomGrows(room, len, binary, grants, asked);
  }

  /** read_into_chunked_item: ritem is the chunk being filled, rlbytes what is still wanted. It
      runs until the item is complete or nothing more can be had. The result is positive exactly
      when all wanted bytes are stored (and, for the binary protocol, two more would fit); zero
      when the stream ended; -1 when the socket had nothing or failed; -2 when a chunk was
      refused. A chunk is asked for exactly when the last one is full with bytes still wanted, or
      holds the last byte without room for the binary protocol's line end. The branch for a chunk that already has a successor is never taken. */
  method ReadIntoChunkedItem(c: Conn, ghost ds: seq<ItemChunk>, ritem0: ItemChunk, rlbytes0: nat, binary: bool,
                             grants: nat -> Option<nat>)
    returns (total: int, ritem: ItemChunk?, rlbytes: nat, last: ReadResult, asked: nat,
             ghost ds': seq<ItemChunk>, ghost taken: seq<byte>)
    requires c.Valid() && Filling(ds) && ritem0 == ds[|ds| - 1] && rlbytes0 > 0
    modifies c`rcurr, c`rbytes, c`consumed, c.socket, ds
    ensures c.Valid() && c.consumed == old(c.consumed) + taken
    ensures Keeps(ds, ds', old(Data(ds)) + taken) && ds' != [] && rlbytes == rlbytes0 - |taken|
    ensures forall x :: x in ds' ==> x in ds || fresh(x)
    ensures total > 0 ==> rlbytes == 0 && ritem != null && ritem == ds'[|ds'| - 1]
                          && (binary ==> ritem.size - ritem.used >= CRLF)
    ensures total == 0 ==> rlbytes > 0 && c.rbytes == 0 && c.socket.ended
    ensures total == -1 ==> rlbytes > 0 && c.rbytes == 0 && (last.Again? || last.Error?)
    ensures if total == 0 || total == -1 then taken == old(c.Ready()) && last == old(StopAt(c.socket.arrivals))
            else old(c.Ready()) == taken + c.Ready()
    ensures Requests(old(ritem0.size - ritem0.used), rlbytes0, binary, grants, |taken|, asked)
    ensures total == -2 <==> !Granted(grants, asked)
    ensures total >= -2
  {
    hide *;
    HoldsStart(ds);
    OkIs(ritem0);
    NothingTaken(c);
    ghost var was, start := Data(ds), Begun(ritem0.size - ritem0.used, c.consumed, c.Ready(), StopAt(c.socket.arrivals));
    ItemStart(start.room, rlbytes0, binary, grants);
    assert was + [] == was;
    MakeFilling(c, ds, ds, ritem0, was, start, rlbytes0, binary, grants, 0, []);
    total, ritem, rlbytes, last, asked, ds', taken := FillChunks(c, ds, ritem0, was, start, rlbytes0, binary, grants);
    if rlbytes == 0 && total >= 0 {
      OpenFilling(c, ds, ds', ritem, was, start, rlbytes0, binary, grants, asked, taken);
      assert ritem in ds';
      ritem, asked, ds' := EndItem(c, ds, ds', ritem, was, start, rlbytes0, binary, grants, asked, taken);
      total := if ritem == null then -2 else total;
    }
  }

  /** The loop: until all bytes are there, or nothing more is to be had, or a chunk is refused. */
  method FillChunks(c: Conn, ghost ds: seq<ItemChunk>, ritem0: ItemChunk, ghost was: seq<byte>, ghost start: ItemBegin,
                    rlbytes0: nat, binary: bool, grants: nat -> Option<nat>)
    returns (total: int, ritem: ItemChunk?, rlbytes: nat, last: ReadResult, asked: nat,
             ghost ds': seq<ItemChunk>, ghost taken: seq<byte>)
    requires ItemFilling(c, ds, ds, ritem0, was, start, rlbytes0, binary, grants, 0, []) && rlbytes0 > 0
    modifies c`rcurr, c`rbytes, c`consumed, c.socket, ds
    ensures rlbytes == rlbytes0 - |taken| && total >= -2 && (total > 0 <==> rlbytes == 0)
    ensures total > 0 ==> ritem != null && ItemFilling(c, ds, ds', ritem, was, start, rlbytes0, binary, grants, asked, taken)
    ensures total <= 0 ==> c.Valid() && c.consumed == start.consumed + taken && Keeps(ds, ds', was + taken) && ds' != []
                           && Requests(start.room, rlbytes0, binary, grants, |taken|, asked)
                           && (total == -2 <==> !Granted(grants, asked))
    ensures total == -2 ==> start.ready == taken + c.Ready()
    ensures total == 0 || total == -1 ==> taken == start.ready && last == start.stop && c.rbytes == 0
    ensures total == 0 ==> c.socket.ended
    ensures total == -1 ==> last.Again? || last.Error?
    ensures forall x :: x in ds' ==> x in ds || fresh(x)
  {
    hide *;
    ritem, rlbytes, last, asked, ds', taken := ritem0, rlbytes0, Again, 0, ds, [];
    total := 0;
    while rlbytes > 0
      invariant ritem != null && ItemFilling(c, ds, ds', ritem, was, start, rlbytes0, binary, grants, asked, taken)
      invariant forall x :: x in ds' ==> x in ds || fresh(x)
      invariant rlbytes == rlbytes0 - |taken| && total >= 0 && (rlbytes == 0 ==> total > 0)
      decreases rlbytes, if ritem.used == ritem.size then 1 else 0
    {
      OpenFilling(c, ds, ds', ritem, was, start, rlbytes0, binary, grants, asked, taken);
      var ch := ritem;
      assert ch in ds';
      LastChunk(ds, ds', was + taken);
      if ch.size == ch.used {
        if ch.next != null {
          assert false;
        } else {
          ritem, ds' := GrowItem(c, ds, ds', ch, was, start, rlbytes0, rlbytes, binary, grants, asked, taken);
          asked := asked + 1;
          if ritem == null {
            OpenTaken(c, start.consumed, start.ready, start.stop, taken);
            total := -2;
            break;
          }
          continue;
        }
      }
      total := if c.rbytes > 0 then 0 else total;
      last, taken := FillItem(c, ds, ds', ch, was, start, rlbytes0, rlbytes, binary, grants, asked, taken);
      if !last.Got? {
        total := if last.Zero? then 0 else -1;
        break;
      }
      total := total + |last.data|;
      rlbytes := rlbytes - |last.data|;
    }
  }

  /** All bytes are there: the line end may need another chunk. */
  method EndItem(c: Conn, ghost ds: seq<ItemChunk>, ghost cs: seq<ItemChunk>, ch: ItemChunk, ghost was: seq<byte>,
                 ghost start: ItemBegin, ghost len: nat, binary: bool, grants: nat -> Option<nat>, asked0: nat,
                 ghost taken: seq<byte>)
    returns (ritem: ItemChunk?, asked: nat, ghost cs': seq<ItemChunk>)
    requires ItemFilling(c, ds, cs, ch, was, start, len, binary, grants, asked0, taken) && |taken| == len
    modifies ch`next
    ensures c.Valid() && c.consumed == start.consumed + taken && start.ready == taken + c.Ready()
    ensures Keeps(ds, cs', was + taken) && cs' != [] && start.room >= 0
    ensures Requests(start.room, len, binary, grants, |taken|, asked) && (ritem == null <==> !Granted(grants, asked))
    ensures ritem != null ==> ritem == cs'[|cs'| - 1] && (binary ==> ritem.size - ritem.used >= CRLF)
    ensures forall x :: x in cs' ==> x in cs || fresh(x)
  {
    hide *;
    OpenFilling(c, ds, cs, ch, was, start, len, binary, grants, asked0, taken);
    OpenTaken(c, start.consumed, start.ready, start.stop, taken);
    assert ch in cs;
    ItemWhole(start.room, len, binary, grants, asked0, ch.size - ch.used);
    var asks;
    ritem, asks, cs' := MakeLineEnd(ds, cs, ch, was + taken, binary, grants(asked0));
    asked := if asks then asked0 + 1 else asked0;
  }

  lemma OkIs(ch: ItemChunk)
    requires ch.Ok()
    ensures ch.used <= ch.size
  {
  }

  /** What a read into an item begins with: the room in its last chunk, and the connection's side. */
  datatype ItemBegin = Begun(room: int, consumed: seq<byte>, ready: seq<byte>, stop: ReadResult)

  /** The item so far, the last chunk being filled. */
  ghost predicate ItemFilling(c: Conn, ds: seq<ItemChunk>, cs: seq<ItemChunk>, ritem: ItemChunk?, was: seq<byte>,
                              start: ItemBegin, len: nat, binary: bool, grants: nat -> Option<nat>, asked: nat, taken: seq<byte>)
    reads c, c.socket, c.rbuf, cs, ritem
  {
    && TakenSo(c, start.consumed, start.ready, start.stop, taken)
    && Holds(ds, cs, was + taken) && cs != [] && ritem == cs[|cs| - 1] && ritem.Ok()
    && start.room >= 0 && ItemPart(start.room, len, binary, grants, asked, |taken|, ritem.size - ritem.used)
  }

  lemma OpenFilling(c: Conn, ds: seq<ItemChunk>, cs: seq<ItemChunk>, ritem: ItemChunk?, was: seq<byte>, start: ItemBegin,
                    len: nat, binary: bool, grants: nat -> Option<nat>, asked: nat, taken: seq<byte>)
    requires ItemFilling(c, ds, cs, ritem, was, start, len, binary, grants, asked, taken)
    ensures TakenSo(c, start.consumed, start.ready, start.stop, taken)
    ensures Holds(ds, cs, was + taken) && cs != [] && ritem == cs[|cs| - 1] && ritem.used <= ritem.size
    ensures start.room >= 0 && ItemPart(start.room, len, binary, grants, asked, |taken|, ritem.size - ritem.used)
  {
  }

  lemma MakeFilling(c: Conn, ds: seq<ItemChunk>, cs: seq<ItemChunk>, ritem: ItemChunk?, was: seq<byte>, start: ItemBegin,
                    len: nat, binary: bool, grants: nat -> Option<nat>, asked: nat, taken: seq<byte>)
    requires TakenSo(c, start.consumed, start.ready, start.stop, taken)
    requires Holds(ds, cs, was + taken) && cs != [] && ritem == cs[|cs| - 1] && ritem.Ok()
    requires start.room >= 0 && ItemPart(start.room, len, binary, grants, asked, |taken|, ritem.size - ritem.used)
    ensures ItemFilling(c, ds, cs, ritem, was, start, len, binary, grants, asked, taken)
  {
  }

  /** The last chunk is full with bytes still wanted: the next one is asked for. */
  method GrowItem(c: Conn, ghost ds: seq<ItemChunk>, ghost cs: seq<ItemChunk>, ch: ItemChunk, ghost was: seq<byte>,
                  ghost start: ItemBegin, ghost len: nat, rlbytes: nat, binary: bool, grants: nat -> Option<nat>, asked: nat,
                  ghost taken: seq<byte>)
    returns (ritem: ItemChunk?, ghost cs': seq<ItemChunk>)
    requires ItemFilling(c, ds, cs, ch, was, start, len, binary, grants, asked, taken)
    requires ch.size == ch.used && 0 < rlbytes == len - |taken|
    modifies ch`next
    ensures ritem == null <==> grants(asked).None?
    ensures ritem != null ==> ItemFilling(c, ds, cs', ritem, was, start, len, binary, grants, asked + 1, taken)
                              && ritem.used < ritem.size
    ensures ritem == null ==> TakenSo(c, start.consumed, start.ready, start.stop, taken) && Keeps(ds, cs', was + taken) && cs' != []
                              && start.room >= 0
                              && Requests(start.room, len, binary, grants, |taken|, asked + 1) && !Granted(grants, asked + 1)
    ensures forall x :: x in cs' ==> x in cs || fresh(x)
  {
    hide *;
    OpenFilling(c, ds, cs, ch, was, start, len, binary, grants, asked, taken);
    assert ch in cs;
    ItemAsks(start.room, len, binary, grants, asked, |taken|);
    var wanted := rlbytes + if binary then CRLF else 0;
    ritem, cs' := GrowHolding(ds, cs, ch, was + taken, wanted, grants(asked));
    if ritem == null {
      HoldsKeeps(ds, cs', was + taken);
    } else {
      GrantHasRoom(grants(asked).value, wanted);
      MakeFilling(c, ds, cs', ritem, was, start, len, binary, grants, asked + 1, taken);
    }
  }

  lemma GrantHasRoom(extra: nat, wanted: nat)
    requires wanted > 0
    ensures GrantedSize(extra, wanted) > 0
  {
  }

  /** Room in the last chunk: bytes go into it, or there are none to be had. */
  method FillItem(c: Conn, ghost ds: seq<ItemChunk>, ghost cs: seq<ItemChunk>, ch: ItemChunk, ghost was: seq<byte>,
                  ghost start: ItemBegin, ghost len: nat, rlbytes: nat, ghost binary: bool, ghost grants: nat -> Option<nat>,
                  ghost asked: nat, ghost taken: seq<byte>)
    returns (r: ReadResult, ghost taken': seq<byte>)
    requires ItemFilling(c, ds, cs, ch, was, start, len, binary, grants, asked, taken)
    requires ch.used < ch.size && 0 < rlbytes == len - |taken|
    modifies c`rcurr, c`rbytes, c`consumed, c.socket, ch`used, ch`data
    ensures taken' == (if r.Got? then taken + r.data else taken)
    ensures r.Got? ==> ItemFilling(c, ds, cs, ch, was, start, len, binary, grants, asked, taken') && 0 < |r.data| <= rlbytes
    ensures !r.Got? ==> c.Valid() && c.consumed == start.consumed + taken && taken == start.ready && r == start.stop
                        && c.rbytes == 0 && (r.Zero? ==> c.socket.ended)
                        && Keeps(ds, cs, was + taken) && start.room >= 0
                        && Requests(start.room, len, binary, grants, |taken|, asked) && Granted(grants, asked)
  {
    hide *;
    OpenFilling(c, ds, cs, ch, was, start, len, binary, grants, asked, taken);
    ghost var left := ch.size - ch.used;
    r, taken' := TakeIntoChunk(c, ds, cs, ch, was, rlbytes, start.consumed, start.ready, start.stop, taken);
    if r.Got? {
      ItemTakes(start.room, len, binary, grants, asked, |taken|, left, |r.data|);
      MakeFilling(c, ds, cs, ch, was, start, len, binary, grants, asked, taken');
    } else {
      ItemPauses(start.room, len, binary, grants, asked, |taken|, left);
      HoldsKeeps(ds, cs, was + taken);
    }
  }

  /** The item is whole: the binary protocol wants room for a line end behind it. */
  method MakeLineEnd(ghost ds: seq<ItemChunk>, ghost cs: seq<ItemChunk>, ch: ItemChunk, ghost value: seq<byte>,
                     binary: bool, grant: Option<nat>)
    returns (ritem: ItemChunk?, asks: bool, ghost cs': seq<ItemChunk>)
    requires Holds(ds, cs, value) && cs != [] && ch == cs[|cs| - 1]
    modifies ch`next
    ensures Keeps(ds, cs', value) && cs' != []
    ensures asks <==> binary && ch.size - ch.used < CRLF
    ensures ritem == null <==> asks && grant.None?
    ensures ritem != null ==> ritem == cs'[|cs'| - 1] && (binary ==> ritem.size - ritem.used >= CRLF)
    ensures forall x :: x in cs' ==> x in cs || fresh(x)
  {
    hide *;
    HoldsKeeps(ds, cs, value);
    ritem, asks, cs' := ch, false, cs;
    if binary && ch.size - ch.used < CRLF {
      asks := true;
      ritem, cs' := RoomForLineEnd(ds, cs, ch, value, grant);
    }
  }

  lemma LastChunk(ds: seq<ItemChunk>, ds': seq<ItemChunk>, value: seq<byte>)
    requires Holds(ds, ds', value) && ds' != []
    ensures ds'[|ds'| - 1].next == null
  {
  }

  method GrowHolding(ghost ds: seq<ItemChunk>, ghost cs: seq<ItemChunk>, ch: ItemChunk, ghost value: seq<byte>,
                     wanted: nat, grant: Option<nat>)
    returns (next: ItemChunk?, ghost cs': seq<ItemChunk>)
    requires Holds(ds, cs, value) && cs != [] && ch == cs[|cs| - 1] && ch.used == ch.size
    modifies ch`next
    ensures Holds(ds, cs', value) && cs' != []
    ensures next == null <==> grant.None?
    ensures next != null ==> fresh(next) && next == cs'[|cs'| - 1] && next.Ok() && next.used == 0
                             && next.size == GrantedSize(grant.value, wanted)
    ensures forall x :: x in cs' ==> x in cs || fresh(x)
  {
    next, cs' := Grow(cs, ch, wanted, grant);
  }

  method AppendHolding(ghost ds: seq<ItemChunk>, ghost cs: seq<ItemChunk>, ch: ItemChunk, ghost value: seq<byte>, bytes: seq<byte>)
    requires Holds(ds, cs, value) && cs != [] && ch == cs[|cs| - 1] && ch.used + |bytes| <= ch.size
    modifies ch`used, ch`data
    ensures Holds(ds, cs, value + bytes) && ch.Ok() && ch.used == old(ch.used) + |bytes|
  {
    AppendToLast(cs, ch, bytes);
  }

  /** The chain in its final form: the extra chunk for a line end may stand behind one that has
      a byte of room left. */
  ghost predicate Keeps(ds: seq<ItemChunk>, ds': seq<ItemChunk>, value: seq<byte>)
    reads ds'
  {
    Linked(ds') && ds <= ds' && Data(ds') == value
  }

  lemma HoldsKeeps(ds: seq<ItemChunk>, ds': seq<ItemChunk>, value: seq<byte>)
    requires Holds(ds, ds', value)
    ensures Keeps(ds, ds', value)
  {
  }

  /** The binary protocol's extra chunk when the line end would not fit. */
  method RoomForLineEnd(ghost ds: seq<ItemChunk>, ghost cs: seq<ItemChunk>, ch: ItemChunk, ghost value: seq<byte>,
                        grant: Option<nat>)
    returns (next: ItemChunk?, ghost cs': seq<ItemChunk>)
    requires Keeps(ds, cs, value) && cs != [] && ch == cs[|cs| - 1]
    modifies ch`next
    ensures Keeps(ds, cs', value) && cs' != []
    ensures next == null <==> grant.None?
    ensures next != null ==> next == cs'[|cs'| - 1] && next.size - next.used >= CRLF
    ensures forall x :: x in cs' ==> x in cs || fresh(x)
  {
    hide Data, Linked;
    next, cs' := Link(cs, ch, CRLF, grant);
  }

  // ------------------------------------------------------------- swallowing

  /** conn_swallow, pass after pass: exactly sbytes of the stream are thrown away, unless it ends
      or pauses first; what follows them stays. */
  method Swallow(c: Conn, sbytes0: nat) returns (outcome: ReadOutcome, sbytes: nat, ghost thrown: seq<byte>)
    requires c.Valid()
    modifies c`rcurr, c`rbytes, c`consumed, c.socket, c.rbuf
    ensures c.Valid() && c.consumed == old(c.consumed) + thrown
    ensures sbytes == sbytes0 - |thrown|
    ensures outcome == Complete <==> sbytes == 0
    ensures outcome == StreamEnded ==> c.socket.ended
    ensures outcome != Complete ==> c.rbytes == 0 && outcome != NoMemory && outcome != Progress
    ensures if outcome == Complete then old(c.Ready()) == thrown + c.Ready()
            else thrown == old(c.Ready()) && IsStop(outcome, old(StopAt(c.socket.arrivals)))
    ensures TakesNext(old(c.Window()), old(c.socket.received), thrown, c.Window(), c.socket.received)
  {
    hide Conn.Valid, Conn.Window, Conn.Ready, Available, StopAt, ReadOf, LeftOf, TakesNext;
    sbytes, thrown := sbytes0, [];
    ghost var consumed := c.consumed;
    c.Facts();
    ghost var window := c.Window();
    assert consumed + [] == consumed;
    outcome := Complete;
    ghost var ready, stop := c.Ready(), StopAt(c.socket.arrivals);
    assert ready == [] + ready;
    while sbytes > 0
      invariant outcome == Complete && consumed + window <= c.socket.received
      invariant c.Valid() && c.consumed == consumed + thrown && sbytes == sbytes0 - |thrown|
      invariant ready == thrown + c.Ready() && StopAt(c.socket.arrivals) == stop
    {
      c.Facts();
      if c.rbytes > 0 {
        var bytes := c.Take(if c.rbytes > sbytes then sbytes else c.rbytes);
        Assoc(consumed, thrown, bytes);
        Assoc(thrown, bytes, c.Ready());
        thrown := thrown + bytes;
        sbytes := sbytes - |bytes|;
        continue;
      }
      var r := SwallowRead(c, if c.rbuf.Length > sbytes then sbytes else c.rbuf.Length);
      if !r.Got? {
        outcome := Stopped(r);
        break;
      }
      Assoc(consumed, thrown, r.data);
      Assoc(thrown, r.data, c.Ready());
      thrown := thrown + r.data;
      sbytes := sbytes - |r.data|;
    }
    c.Facts();
    TakenIsNext(consumed, window, thrown, c.Window(), c.socket.received);
  }

  /** A read that only uses the idle buffer as a place to put bytes nobody wants. */
  method SwallowRead(c: Conn, n: nat) returns (r: ReadResult)
    requires c.Valid() && c.rbytes == 0 && 0 < n <= c.rbuf.Length
    modifies c`consumed, c.socket, c.rbuf
    ensures c.Valid() && c.rbytes == 0
    ensures r.Got? ==> 0 < |r.data| <= n && c.consumed == old(c.consumed) + r.data
    ensures !r.Got? ==> c.consumed == old(c.consumed)
    ensures r.Zero? ==> c.socket.ended
    ensures old(c.socket.received) <= c.socket.received
    ensures old(c.Ready()) == (if r.Got? then r.data + c.Ready() else [])
    ensures if r.Got? then StopAt(c.socket.arrivals) == old(StopAt(c.socket.arrivals)) else r == old(StopAt(c.socket.arrivals))
  {
    hide Available, StopAt;
    r := c.ReadPast(n);
    if r.Got? {
      forall i | 0 <= i < |r.data| {
        c.rbuf[i] := r.data[i];
      }
    }
  }
}
