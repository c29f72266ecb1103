/** The memcached connection state machine on a TCP connection: one call handles events until it
    has to wait, and gives way after a budget of commands. */
module DriveMachine {
  import opened ByteStrings
  import Transmit
  import Queue = ResponseQueue
  import Reader = ConnInput

  datatype ConnState =
    | NewCmd | Waiting | Read | ParseCmd | Write | Nread | Swallow | Closing | Mwrite | Watch | IoQueue

  datatype Events = ReadEvents | WriteEvents

  /** Where a command handler may leave the connection: not reading, and never parsing again. */
  type Next = s: ConnState | s !in {Waiting, Read, ParseCmd, IoQueue} witness NewCmd

  datatype NetRead = NoData | Data(rbytes: nat) | ReadError | MemoryError

  datatype ItemRead = ReadSome(n: nat) | EndOfStream | NotReady | OutOfMemory | ReadFailed

  /** A handler's effect: responses and bytes queued, the input and the body bytes it leaves. */
  datatype Handled = Handled(next: Next, responses: nat, pending: nat, rbytes: nat,
                             rlbytes: int, sbytes: int, chunked: bool, closeAfterWrite: bool)

  datatype Sending = Sent(bytes: nat, finished: nat) | SocketFull | SendFailed

  /** update_event: already registered, or changed, or failing before or after the change. */
  datatype EventCall = Changed | FailedDel | FailedAdd

  /** Everything one pass of the loop may get from outside; `ascii` when the connection speaks the
      text protocol. */
  datatype Env = Env(
    ascii: bool, rbufAvailable: bool, event: EventCall, net: NetRead, needMore: bool, handled: Handled,
    leftovers: nat, direct: nat, item: ItemRead, errorBytes: nat, queuedIo: bool, sending: Sending)

  /** The read buffer is full and cannot be grown, on the text protocol. */
  predicate ReadsNoMemory(e: Env) {
    e.rbufAvailable && e.net.MemoryError? && e.ascii
  }

  /** Nothing fails, the stream does not end, memory is to be had, and the handler does not ask to
      close, now or after the output, nor for a body of negative length. */
  predicate Clean(e: Env) {
    && e.rbufAvailable && e.event.Changed? && !e.sending.SendFailed?
    && !e.net.ReadError? && !e.net.MemoryError?
    && (e.item.ReadSome? || e.item.NotReady?)
    && e.handled.next !in {Closing, Write} && !e.handled.closeAfterWrite && e.handled.rlbytes >= 0
  }

  /** The socket takes output, and no side I/O has to be waited for. */
  predicate TakesOutput(e: Env) {
    e.sending.Sent? && !e.queuedIo
  }

  predicate WholeCommand(e: Env) {
    !e.needMore
  }

  /** A whole command is there, it is handled at once, and more input waits behind it. */
  predicate Pipelined(e: Env) {
    !e.needMore && e.handled.next == NewCmd && e.handled.rbytes > 0
  }

  /** What a pass is judged by. */
  datatype View = Seen(state: ConnState, rbytes: nat, rlbytes: int, closeAfterWrite: bool)

  /** A connection that nothing has asked to close. */
  predicate StaysOpen(v: View) {
    v.state !in {Closing, Write} && !v.closeAfterWrite && v.rlbytes >= 0
  }

  /** What one pass leads to; n is what is left of the budget when it is a budgeted one. */
  predicate Turned(e: Env, n: int, v: View, w: View, stop: bool) {
    && (Clean(e) && StaysOpen(v) ==> StaysOpen(w))
    && (stop && w.state in {Mwrite, Write, IoQueue} ==> !TakesOutput(e))
    && (w.state == IoQueue ==> stop)
    && (v.state == Read && e.rbufAvailable && e.net.Data? ==>
          !stop && w.state == ParseCmd && w.rbytes == v.rbytes + e.net.rbytes)
    && (v.state == Waiting ==> w.rbytes == v.rbytes && w.state in {Read, Closing})
    && (w.state == Waiting ==>
          e.needMore || (v.state == Read && e.net.NoData?) || (v.state == NewCmd && w.rbytes == 0))
    && (stop && w.state == Read ==> v.state == Waiting)
    && (v.state == ParseCmd && v.rbytes > 0 && Pipelined(e) ==> !stop && w.state == NewCmd && w.rbytes > 0)
    && (v.state in {Mwrite, NewCmd} ==> w.rbytes == v.rbytes)
    && (v.state == Mwrite ==> w.state in {Mwrite, NewCmd, Closing, IoQueue})
    && (v.state == Closing ==> w.state == Closing)
    && (v.state == NewCmd && n >= 0 && v.rbytes > 0 ==> !stop && w.state == ParseCmd)
    && (v.state == NewCmd && n < 0 ==> w.state in {Mwrite, NewCmd, Closing})
  }

  /** The unread input after a network read. */
  function AfterRead(net: NetRead, rbytes: nat): nat {
    match net
    case Data(n) => rbytes + n
    case MemoryError => 0
    case _ => rbytes
  }

  /** complete_nread does not ask for another body. */
  function AfterNread(h: Handled): Handled {
    if h.next == Nread then h.(next := NewCmd) else h
  }

  /** Responses queued, and the bytes they still hold. */
  datatype Output = Output(responses: nat, pending: nat)

  predicate OutputOk(o: Output) {
    o.responses == 0 ==> o.pending == 0
  }

  /** A send that succeeds takes some bytes and finishes some responses, and at least one of
      either; the last response is finished only with the last byte. */
  function AfterSend(o: Output, bytes: nat, finished: nat): (left: Output)
    requires OutputOk(o)
    ensures OutputOk(left)
    ensures o.responses > 0 ==>
      left.pending < o.pending || (left.pending == o.pending && left.responses < o.responses)
  {
    var b, f0 := Min(bytes, o.pending), Min(finished, o.responses);
    var f := if o.pending > b && f0 == o.responses > 0 then f0 - 1 else f0;
    if b > 0 || f > 0 then Output(o.responses - f, o.pending - b)
    else if o.pending > 0 then Output(o.responses, o.pending - 1)
    else Output(o.responses - Min(1, o.responses), 0)
  }

  function OutputOf(q: seq<Transmit.RespState>): Output {
    Output(|q|, |Transmit.Pending(q)|)
  }

  /** This is what a transmit over the real queue does to its counts, for some bytes and some
      number of responses, whenever the socket accepts anything. */
  lemma SendIsTransmit(q: seq<Transmit.RespState>, after: seq<Transmit.RespState>, offered: seq<byte>, wire: seq<byte>,
                       send: Queue.SendResult, updateOk: bool, result: Queue.TransmitResult)
    requires Transmit.QueueOk(q) && q != [] && send.Sent? && send.accepted > 0
    requires Queue.TransmitOutcome(q, after, offered, wire, send, updateOk, result)
    ensures |after| <= |q| && OutputOk(OutputOf(q))
    ensures AfterSend(OutputOf(q), |wire|, |q| - |after|) == OutputOf(after)
    ensures result == Queue.TransmitComplete <==> after == []
  {
    assert |wire| + |Transmit.Pending(after)| == |Transmit.Pending(q)|;
    if after != [] {
      Transmit.SettleDropsExactly(q, |wire|);
    }
    assert Transmit.Pending([]) == [];
  }

  class Conn {
    var state: ConnState
    /** Unread input, and body bytes still to be read or thrown away. */
    var rbytes: nat
    var rlbytes: int
    var sbytes: int
    var chunked: bool
    /** Responses queued, and the bytes they still hold. */
    var responses: nat
    var pending: nat
    var closeAfterWrite: bool
    var events: Events

    ghost function View(): View
      reads this
    {
      Seen(state, rbytes, rlbytes, closeAfterWrite)
    }

    /** Bytes wait only in responses. */
    ghost predicate Ok()
      reads this
    {
      responses == 0 ==> pending == 0
    }

    /** A connection between two calls: no queued response is left behind a wait for a command,
        and it is registered for the event that lets its next call go on: readable while it wants
        input, writable while it has output or input already read. */
    ghost predicate Parked()
      reads this
    {
      && Ok()
      && state !in {Waiting, ParseCmd}
      && (state == Read ==> responses == 0 && events == ReadEvents)
      && (state == Nread ==> rlbytes > 0 && rbytes == 0 && events == ReadEvents && responses > 0)
      && (state == Swallow ==> sbytes > 0 && rbytes == 0 && events == ReadEvents)
      && (state == Mwrite || state == Write ==> responses > 0 && events == WriteEvents)
      && (state == NewCmd ==> responses == 0 && (rbytes > 0 ==> events == WriteEvents))
    }

    /** dispatch_conn_new hands over a connection that waits for its first command. */
    constructor ()
      ensures Parked() && state == NewCmd
    {
      state, events := NewCmd, ReadEvents;
      rbytes, rlbytes, sbytes, responses, pending := 0, 0, 0, 0, 0;
      chunked, closeAfterWrite := false, false;
    }

    /** reset_cmd_handler: on to the next command if there is input, else flush, else wait. A wait
        for the next command leaves neither input nor output behind. */
    method ResetCmdHandler()
      modifies `state
      ensures state in {ParseCmd, Mwrite, Waiting}
      ensures state == ParseCmd <==> rbytes > 0
      ensures state == Mwrite <==> rbytes == 0 && responses > 0
      ensures state == Waiting ==> rbytes == 0 && responses == 0
    {
      if rbytes > 0 {
        state := ParseCmd;
      } else if responses > 0 {
        state := Mwrite;
      } else {
        state := Waiting;
      }
    }

    /** Registering for these events works: they are registered already, or the change succeeds. */
    ghost predicate CanWait(call: EventCall, wanted: Events)
      reads `events
    {
      events == wanted || call.Changed?
    }

    method UpdateEvent(call: EventCall, wanted: Events) returns (success: bool)
      modifies `events
      ensures success <==> old(events) == wanted || call.Changed?
      ensures success ==> events == wanted
    {
      if events == wanted {
        return true;
      }
      if call.FailedDel? {
        return false;
      }
      events := wanted;
      return call.Changed?;
    }

    /** Wait for an event of this kind, or give up on the connection. */
    method WaitFor(call: EventCall, wanted: Events) returns (stop: bool)
      modifies `events, `state
      ensures stop <==> old(CanWait(call, wanted))
      ensures stop ==> events == wanted && state == old(state)
      ensures !stop ==> state == Closing
    {
      stop := UpdateEvent(call, wanted);
      if !stop {
        state := Closing;
      }
    }

    /** The handler's effect, and nothing else: new state and body lengths as it leaves them, input
        only less, responses and bytes only more. */
    twostate predicate Handles(h: Handled)
      reads this
    {
      && state == h.next && events == old(events)
      && rbytes == Min(h.rbytes, old(rbytes))
      && rlbytes == h.rlbytes && sbytes == h.sbytes && chunked == h.chunked
      && responses == Max(old(responses) + h.responses, if h.next == Nread then 1 else 0)
      && pending == (if responses == 0 then 0 else old(pending) + h.pending)
      && closeAfterWrite == (old(closeAfterWrite) || h.closeAfterWrite)
    }

    /** What a command handler did. One that asks for a body has queued the response for it. */
    method Apply(h: Handled)
      requires Ok()
      modifies this
      ensures Ok() && Handles(h)
    {
      state := h.next;
      responses := Max(responses + h.responses, if h.next == Nread then 1 else 0);
      pending := if responses == 0 then 0 else pending + h.pending;
      rbytes := Min(h.rbytes, rbytes);
      rlbytes, sbytes, chunked := h.rlbytes, h.sbytes, h.chunked;
      closeAfterWrite := closeAfterWrite || h.closeAfterWrite;
    }

    /** out_of_memory: the current response is replaced by the error. On the text protocol, with no
        response, a null pointer is followed. */
    method ReportNoMemory(errorBytes: nat, ascii: bool) returns (fault: bool)
      requires Ok()
      modifies `pending, `state
      ensures fault <==> ascii && responses == 0
      ensures !fault ==> Ok() && state == NewCmd && pending == if responses == 0 then 0 else errorBytes
    {
      fault := ascii && responses == 0;
      if !fault {
        pending := if responses == 0 then 0 else errorBytes;
        state := NewCmd;
      }
    }

    /** Leftover input that counts towards a body of `wanted` bytes. */
    method TakeLeftovers(wanted: int, limit: nat) returns (n: nat)
      requires wanted > 0
      modifies `rbytes
      ensures n == Min(Min(old(rbytes), limit), wanted) && rbytes == old(rbytes) - n
    {
      n := Min(Min(rbytes, limit), wanted);
      rbytes := rbytes - n;
    }

    /** transmit: a send that succeeds takes a byte, or finishes a response that has none. */
    method Transmit(s: Sending, call: EventCall) returns (complete: bool, stop: bool)
      requires Ok()
      modifies `responses, `pending, `state, `events
      ensures Ok()
      ensures complete <==> responses == 0
      ensures complete ==> !stop && state == old(state)
      ensures old(responses) > 0 && s.Sent? ==>
        Output(responses, pending) == AfterSend(Output(old(responses), old(pending)), s.bytes, s.finished)
      ensures !s.Sent? ==> responses == old(responses) && pending == old(pending)
      ensures stop <==> old(responses) > 0 && s.SocketFull? && old(CanWait(call, WriteEvents))
      ensures stop ==> events == WriteEvents && state == old(state)
      ensures !complete && !stop ==>
        if s.Sent? then state == old(state)
                        && (pending < old(pending) || (pending == old(pending) && responses < old(responses)))
        else state == Closing
    {
      complete, stop := responses == 0, false;
      if complete {
        return;
      }
      match s
      case Sent(bytes, finished) =>
        var left := AfterSend(Output(responses, pending), bytes, finished);
        responses, pending := left.responses, left.pending;
        complete := responses == 0;
      case SocketFull =>
        stop := WaitFor(call, WriteEvents);
      case SendFailed =>
        state := Closing;
    }

    // ------------------------------------------------- one pass, by state

    /** One pass stops where the connection may be parked, moves on towards the budgeted state, or
        does part of the work of its own state. */
    twostate predicate Steps(stop: bool)
      reads this
    {
      && Ok() && (if stop then Parked() else Running() && state != Read)
      && (!stop ==>
            && Owed(state) <= Owed(old(state)) && (old(state) == ParseCmd ==> state != ParseCmd)
            && (Rank(state) < Rank(old(state)) || (state == old(state) && Work() < old(Work()))
                || (state == old(state) && Work() == old(Work()) && responses < old(responses)))
            && (old(Flushing()) ==> Flushing()))
      && (state == NewCmd && old(Flushing()) ==> responses == 0)
    }

    /** Wait for a command. */
    method PassWaiting(e: Env) returns (stop: bool)
      requires Running() && state == Waiting
      modifies `state, `events
      ensures state == if stop then Read else Closing
      ensures stop <==> old(CanWait(e.event, ReadEvents))
      ensures stop ==> events == ReadEvents
      ensures Steps(stop) && Turned(e, 0, old(View()), View(), stop)
    {
      stop := WaitFor(e.event, ReadEvents);
      if stop {
        state := Read;
      }
    }

    /** The network is read. Nothing is queued in this state, so the error line for a buffer that
        cannot be grown has no response to go to. */
    method PassRead(e: Env) returns (fault: bool)
      requires Running() && state == Read
      modifies `state, `rbytes, `closeAfterWrite, `pending
      ensures fault <==> ReadsNoMemory(e)
      ensures !fault ==> Ok() && state in {Waiting, ParseCmd, NewCmd, Closing}
      ensures !fault ==> (state == Closing <==> !e.rbufAvailable || e.net.ReadError?)
      ensures !fault ==> (state == ParseCmd <==> e.rbufAvailable && e.net.Data?)
      ensures !fault ==> (state == Waiting <==> e.rbufAvailable && e.net.NoData?)
      ensures closeAfterWrite == (old(closeAfterWrite) || (e.rbufAvailable && e.net.MemoryError?))
      ensures rbytes == if e.rbufAvailable then AfterRead(e.net, old(rbytes)) else old(rbytes)
      ensures !fault ==> Steps(false) && Turned(e, 0, old(View()), View(), false)
    {
      fault := false;
      if !e.rbufAvailable {
        state := Closing;
        return;
      }
      match e.net
      case NoData => state := Waiting;
      case Data(n) => rbytes := rbytes + n; state := ParseCmd;
      case ReadError => state := Closing;
      case MemoryError =>
        rbytes := 0;
        fault := ReportNoMemory(e.errorBytes, e.ascii);
        closeAfterWrite := true;
    }

    /** Everything but the state is as it was. */
    twostate predicate Same()
      reads this
    {
      && rbytes == old(rbytes) && rlbytes == old(rlbytes) && sbytes == old(sbytes) && chunked == old(chunked)
      && responses == old(responses) && pending == old(pending) && closeAfterWrite == old(closeAfterWrite)
      && events == old(events)
    }

    method PassParseCmd(e: Env)
      requires Running() && state == ParseCmd
      modifies this
      ensures Ok() && state in {NewCmd, Waiting, Nread, Swallow, Mwrite, Write, Watch, Closing}
      ensures events == old(events) && (state == Waiting ==> responses == 0) && (state == Nread ==> responses > 0)
      ensures e.needMore ==> state == (if responses > 0 then Mwrite else Waiting) && Same()
      ensures !e.needMore ==> Handles(e.handled)
      ensures Steps(false) && Turned(e, 0, old(View()), View(), false)
    {
      if e.needMore {
        state := if responses > 0 then Mwrite else Waiting;
      } else {
        Apply(e.handled);
      }
    }

    method PassNread(e: Env) returns (stop: bool)
      requires Running() && state == Nread
      modifies this
      ensures Ok() && state in {NewCmd, Nread, Swallow, Mwrite, Write, Watch, Closing}
      ensures state == Nread ==> responses > 0
      ensures stop ==> state == Nread && rlbytes > 0 && rbytes == 0 && events == ReadEvents
      ensures !stop && state == Nread ==> rlbytes >= 0 && rlbytes < old(rlbytes)
      ensures old(rlbytes) == 0 ==> !stop && Handles(AfterNread(e.handled))
      ensures old(rlbytes) < 0 ==> state == Closing
      ensures old(rlbytes) > 0 ==>
        && rlbytes >= 0 && state in {Nread, Swallow, Closing}
        && responses == old(responses) && closeAfterWrite == old(closeAfterWrite) && chunked == old(chunked)
        && (state == Closing <==> old(rbytes) < old(rlbytes)
                                  && (e.item.EndOfStream? || e.item.ReadFailed? || (e.item.OutOfMemory? && !chunked)
                                      || (e.item.NotReady? && !old(CanWait(e.event, ReadEvents)))))
        && (state == Swallow <==> e.item.OutOfMemory? && chunked)
        && (state == Swallow ==> sbytes == rlbytes)
        && old(rbytes) - rbytes <= old(rlbytes) - rlbytes
        && (old(rbytes) >= old(rlbytes) && state == Nread ==> rlbytes == 0 && rbytes == old(rbytes) - old(rlbytes))
        && (stop <==> old(rbytes) < old(rlbytes) && e.item.NotReady? && old(CanWait(e.event, ReadEvents)))
      ensures Steps(stop) && Turned(e, 0, old(View()), View(), stop)
    {
      stop := false;
      if rlbytes == 0 {
        Apply(AfterNread(e.handled));
        return;
      }
      if rlbytes < 0 {
        state := Closing;
        return;
      }
      stop := PassBody(e);
    }

    /** Body bytes are wanted: leftovers first, then the socket. */
    method PassBody(e: Env) returns (stop: bool)
      requires Running() && state == Nread && rlbytes > 0
      modifies `state, `rbytes, `rlbytes, `sbytes, `pending, `events
      ensures rlbytes >= 0 && state in {Nread, Swallow, Closing}
      ensures stop ==> state == Nread && rlbytes > 0 && rbytes == 0 && events == ReadEvents
      ensures !stop && state == Nread ==> rlbytes < old(rlbytes)
      ensures state == Closing <==> old(rbytes) < old(rlbytes)
                                    && (e.item.EndOfStream? || e.item.ReadFailed? || (e.item.OutOfMemory? && !chunked)
                                        || (e.item.NotReady? && !old(CanWait(e.event, ReadEvents))))
      ensures state == Swallow <==> e.item.OutOfMemory? && chunked
      ensures state == Swallow ==> sbytes == rlbytes
      ensures old(rbytes) - rbytes <= old(rlbytes) - rlbytes
      ensures old(rbytes) >= old(rlbytes) && state == Nread ==> rlbytes == 0 && rbytes == old(rbytes) - old(rlbytes)
      ensures stop <==> old(rbytes) < old(rlbytes) && e.item.NotReady? && old(CanWait(e.event, ReadEvents))
    {
      stop := false;
      var res;
      if chunked {
        res := FetchChunked(e);
      } else {
        res := FetchFlat(e);
      }
      match res {
        case ReadSome(_) =>
        case EndOfStream => state := Closing;
        case NotReady => stop := WaitFor(e.event, ReadEvents);
        case OutOfMemory =>
          var fault := ReportNoMemory(e.errorBytes, e.ascii);
          sbytes := rlbytes;
          state := Swallow;
        case ReadFailed => state := Closing;
      }
    }

    /** A flat item: leftovers first, and the socket only if they were not enough. */
    method FetchFlat(e: Env) returns (res: ItemRead)
      requires rlbytes > 0
      modifies `rbytes, `rlbytes
      ensures 0 <= rlbytes <= old(rlbytes) && res != OutOfMemory
      ensures res.ReadSome? <==> old(rbytes) >= old(rlbytes) || e.item.ReadSome?
      ensures !res.ReadSome? ==> res == if e.item.OutOfMemory? then ReadFailed else e.item
      ensures res.ReadSome? ==> rlbytes < old(rlbytes)
      ensures !res.ReadSome? ==> rlbytes > 0 && rbytes == 0
      ensures old(rbytes) - rbytes <= old(rlbytes) - rlbytes
      ensures old(rbytes) >= old(rlbytes) && res.ReadSome? ==> rlbytes == 0 && rbytes == old(rbytes) - old(rlbytes)
    {
      var n := TakeLeftovers(rlbytes, rbytes);
      rlbytes := rlbytes - n;
      if rlbytes == 0 {
        return ReadSome(n);
      }
      res := if e.item.OutOfMemory? then ReadFailed else e.item;
      if res.ReadSome? {
        rlbytes := rlbytes - Max(1, Min(res.n, rlbytes));
      }
    }

    /** A chunked item is read to its end in one go, unless the stream stops giving or a chunk is
        refused; what was stored by then is counted off. */
    method FetchChunked(e: Env) returns (res: ItemRead)
      requires rlbytes > 0
      modifies `rbytes, `rlbytes
      ensures 0 <= rlbytes <= old(rlbytes)
      ensures e.item.OutOfMemory? ==> res == OutOfMemory
      ensures !e.item.OutOfMemory? ==> (res.ReadSome? <==> old(rbytes) >= old(rlbytes) || e.item.ReadSome?)
      ensures !res.ReadSome? ==> res == e.item
      ensures res.ReadSome? ==> rlbytes == 0
      ensures !res.ReadSome? && res != OutOfMemory ==> rlbytes > 0 && rbytes == 0
      ensures old(rbytes) - rbytes <= old(rlbytes) - rlbytes
      ensures old(rbytes) >= old(rlbytes) && res.ReadSome? ==> rlbytes == 0 && rbytes == old(rbytes) - old(rlbytes)
    {
      var wanted := rlbytes;
      var n := TakeLeftovers(rlbytes, if e.item.OutOfMemory? then e.leftovers else rbytes);
      rlbytes := rlbytes - n;
      if rlbytes > 0 && !e.item.ReadSome? {
        rlbytes := rlbytes - if rbytes > 0 then 0 else Min(e.direct, rlbytes - 1);
        return e.item;
      }
      rlbytes := 0;
      return if e.item.OutOfMemory? then OutOfMemory else ReadSome(wanted);
    }

    method PassSwallow(e: Env) returns (stop: bool)
      requires Running() && state == Swallow
      modifies `state, `rbytes, `sbytes, `events
      ensures Ok() && state in {NewCmd, Swallow, Closing}
      ensures stop ==> state == Swallow && sbytes > 0 && rbytes == 0 && events == ReadEvents
      ensures !stop && state == Swallow ==> sbytes >= 0 && sbytes < old(sbytes)
      ensures state == NewCmd <==> old(sbytes) <= 0
      ensures old(sbytes) > 0 && old(rbytes) > 0 ==> state == Swallow && old(rbytes) - rbytes == old(sbytes) - sbytes
                                                     && (rbytes == 0 || sbytes == 0)
      ensures old(sbytes) > 0 && old(rbytes) == 0 ==>
        && (state == Closing <==> e.item.EndOfStream? || e.item.ReadFailed? || e.item.OutOfMemory?
                                  || (e.item.NotReady? && !old(CanWait(e.event, ReadEvents))))
        && (stop <==> e.item.NotReady? && old(CanWait(e.event, ReadEvents)))
      ensures Steps(stop) && Turned(e, 0, old(View()), View(), stop)
    {
      stop := false;
      if sbytes <= 0 {
        state := NewCmd;
        return;
      }
      if rbytes > 0 {
        var n := TakeLeftovers(sbytes, rbytes);
        sbytes := sbytes - n;
        return;
      }
      stop := SwallowFromSocket(e);
    }

    /** Nothing waits in the buffer: the socket is asked for bytes to throw away. */
    method SwallowFromSocket(e: Env) returns (stop: bool)
      requires Running() && state == Swallow && sbytes > 0 && rbytes == 0
      modifies `state, `sbytes, `events
      ensures state in {Swallow, Closing} && sbytes >= 0
      ensures state == Closing <==> e.item.EndOfStream? || e.item.ReadFailed? || e.item.OutOfMemory?
                                    || (e.item.NotReady? && !old(CanWait(e.event, ReadEvents)))
      ensures stop <==> e.item.NotReady? && old(CanWait(e.event, ReadEvents))
      ensures stop ==> events == ReadEvents && sbytes > 0
      ensures !stop && state == Swallow ==> sbytes < old(sbytes)
    {
      stop := false;
      match e.item
      case ReadSome(k) => sbytes := sbytes - Max(1, Min(k, sbytes));
      case NotReady => stop := WaitFor(e.event, ReadEvents);
      case _ => state := Closing;
    }

    method PassWrite(e: Env) returns (stop: bool)
      requires Running() && (state == Write || state == Mwrite)
      modifies `state, `responses, `pending, `events
      ensures Ok() && state in {old(state), NewCmd, Closing, IoQueue}
      ensures state == NewCmd ==> responses == 0
      ensures stop ==> state == IoQueue || (state == old(state) && responses > 0 && events == WriteEvents)
      ensures state == IoQueue <==> e.queuedIo
      ensures state == IoQueue ==> stop && responses == old(responses) && pending == old(pending)
      ensures state == NewCmd <==> !e.queuedIo && responses == 0 && old(state) == Mwrite && !closeAfterWrite
      ensures state == Closing <==>
        !e.queuedIo && if responses == 0 then old(state) == Write || closeAfterWrite
                       else e.sending.SendFailed? || (e.sending.SocketFull? && !old(CanWait(e.event, WriteEvents)))
      ensures !e.queuedIo && old(responses) > 0 && e.sending.Sent? ==>
        Output(responses, pending) == AfterSend(Output(old(responses), old(pending)), e.sending.bytes, e.sending.finished)
      ensures !e.queuedIo && stop ==> e.sending.SocketFull?
      ensures Steps(stop) && Turned(e, 0, old(View()), View(), stop)
      ensures !stop && state == old(state) ==>
        pending < old(pending) || (pending == old(pending) && responses < old(responses))
    {
      if e.queuedIo {
        state := IoQueue;
        return true;
      }
      var complete;
      complete, stop := Transmit(e.sending, e.event);
      if complete {
        state := if state == Mwrite && !closeAfterWrite then NewCmd else Closing;
      }
    }

    /** Closed, or handed over. */
    method PassStopped(e: Env) returns (stop: bool)
      requires Running() && (state == Closing || state == Watch)
      ensures stop && Steps(stop) && Turned(e, 0, View(), View(), stop)
    {
      stop := true;
    }

    /** The side I/O is done: back to the output. */
    method PassIoQueue(e: Env)
      requires Running() && state == IoQueue
      modifies `state
      ensures state == Mwrite && Steps(false) && Turned(e, 0, old(View()), View(), false)
    {
      state := Mwrite;
    }

    /** The budgeted state: one command is paid for here, or, past the budget, the responses are
        flushed and the connection waits for its next turn. */
    method PassNewCmd(e: Env, nreqs: int) returns (stop: bool)
      requires Ok() && state == NewCmd
      modifies `state, `events
      ensures Ok() && state in {NewCmd, ParseCmd, Mwrite, Waiting, Closing}
      ensures state == ParseCmd || state == Waiting ==> nreqs >= 0
      ensures state == Waiting ==> responses == 0
      ensures stop <==> state == NewCmd
      ensures stop ==> nreqs < 0 && responses == 0 && (rbytes > 0 ==> events == WriteEvents)
      ensures nreqs < 0 && state == Mwrite ==> responses > 0
      ensures state == ParseCmd <==> nreqs >= 0 && rbytes > 0
      ensures state == Waiting <==> nreqs >= 0 && rbytes == 0 && responses == 0
      ensures state == Mwrite <==> responses > 0 && (nreqs < 0 || rbytes == 0)
      ensures state == Closing <==> nreqs < 0 && responses == 0 && rbytes > 0 && !old(CanWait(e.event, WriteEvents))
      ensures Turned(e, nreqs, old(View()), View(), stop)
    {
      if nreqs >= 0 {
        ResetCmdHandler();
        return false;
      }
      if responses > 0 {
        state := Mwrite;
        return false;
      }
      stop := true;
      if rbytes > 0 {
        stop := WaitFor(e.event, WriteEvents);
      }
    }

    /** Past the budget only output remains, and then nothing. */
    ghost predicate Flushing()
      reads this
    {
      state in {Mwrite, Closing} || (state == NewCmd && responses == 0)
    }

    /** The loop's own shape: no response waits behind input. */
    ghost predicate Running()
      reads this
    {
      Ok() && (state == Waiting || state == Read ==> responses == 0) && (state == Nread ==> responses > 0)
    }

    /** One pass in any other state: it stops where the connection may be parked, moves on towards
        the budgeted state, or does part of the work of its own state; unless a read that finds no
        memory follows a null pointer. */
    method Pass(e: Env) returns (stop: bool, fault: bool)
      requires Running() && state != NewCmd
      modifies this
      ensures fault <==> old(state) == Read && ReadsNoMemory(e)
      ensures !fault ==> Steps(stop) && Turned(e, 0, old(View()), View(), stop)
    {
      hide Turned, Steps;
      stop, fault := false, false;
      match state {
        case Waiting =>
          stop := PassWaiting(e);
        case Read =>
          fault := PassRead(e);
        case ParseCmd =>
          PassParseCmd(e);
        case Nread =>
          stop := PassNread(e);
        case Swallow =>
          stop := PassSwallow(e);
        case Write =>
          stop := PassWrite(e);
        case Mwrite =>
          stop := PassWrite(e);
        case Closing =>
          stop := PassStopped(e);
        case Watch =>
          stop := PassStopped(e);
        case IoQueue =>
          PassIoQueue(e);
      }
    }

    /** What is left to do in the present state. */
    ghost function Work(): nat
      reads this
    {
      if state == Nread then Max(rlbytes, 0) else if state == Swallow then Max(sbytes, 0) else pending
    }
  }

  /** How many kinds of state may still follow before the budgeted one. */
  function Rank(s: ConnState): nat {
    match s
    case IoQueue => 9 case Read => 8 case ParseCmd => 7 case Nread => 6 case Swallow => 5
    case Mwrite => 4 case Write => 4 case Waiting => 3 case NewCmd => 2 case Closing => 1 case Watch => 1
  }

  /** One when the next pass parses. */
  function Owed(s: ConnState): nat {
    if s == Read || s == ParseCmd then 1 else 0
  }

  /** Input waits, or the network brings some, where a call goes on with it. */
  predicate HasInput(v: View, e: Env) {
    if v.state == Read then e.rbufAvailable && e.net.Data? && v.rbytes + e.net.rbytes > 0
    else v.state == NewCmd && v.rbytes > 0
  }

  /** A call that never runs out of input: it parses until the budget is used up. */
  predicate InBudget(v: View, stop: bool, pass: nat, nreqs: int, parses: nat, total: nat) {
    if nreqs >= 0 then
      !stop && v.state in {Read, NewCmd, ParseCmd} && (v.state == Read ==> pass == 0) && (v.state != Read ==> v.rbytes > 0)
      && parses + Owed(v.state) + nreqs == total
    else
      v.state in {Mwrite, NewCmd, Closing, IoQueue} && (v.state == IoQueue ==> stop) && parses == total
  }

  ghost predicate All(ok: Env -> bool, env: nat -> Env, n: nat) {
    forall k :: 0 <= k < n ==> ok(env(k))
  }

  lemma AllNext(ok: Env -> bool, env: nat -> Env, n: nat)
    ensures All(ok, env, 0) && (All(ok, env, n + 1) <==> All(ok, env, n) && ok(env(n)))
  {
  }

  /** Begun with input to parse, so a pass parses it. */
  predicate MustParse(v: View, e: Env, reqs: nat) {
    (v.state == Read && e.rbufAvailable && e.net.Data?) || (v.state == NewCmd && v.rbytes > 0 && reqs > 0)
  }

  /** What a call has kept after some passes. */
  ghost predicate Kept(env: nat -> Env, pass: nat, start: View, v: View, stop: bool, nreqs: int, parses: nat, reqs: nat) {
    && (pass == 0 ==> v == start && nreqs == reqs && parses == 0 && !stop)
    && (All(Clean, env, pass) && StaysOpen(start) ==> StaysOpen(v))
    && (stop && All(TakesOutput, env, pass) ==> v.state !in {Mwrite, Write, IoQueue})
    && (pass > 0 && MustParse(start, env(0), reqs) ==> parses > 0 || (!stop && v.state == ParseCmd))
    && (pass > 0 && All(WholeCommand, env, pass) && !(start.state == Read && env(0).net.NoData?) ==>
          (v.state == Waiting || (stop && v.state == Read) ==> v.rbytes == 0))
    && (All(Pipelined, env, pass) && HasInput(start, env(0)) ==>
          InBudget(v, stop, pass, nreqs, parses, reqs + Owed(start.state)))
  }

  lemma KeptAtFirst(env: nat -> Env, start: View, reqs: nat)
    ensures Kept(env, 0, start, start, false, reqs, 0, reqs)
  {
  }

  lemma KeptNext(env: nat -> Env, pass: nat, start: View, v: View, w: View, stop: bool, n: int, m: int,
                 parses: nat, parses': nat, reqs: nat)
    requires Kept(env, pass, start, v, false, n, parses, reqs)
    requires v.state == Read ==> pass == 0
    requires Turned(env(pass), if v.state == NewCmd then m else 0, v, w, stop)
    requires m == (if v.state == NewCmd then n - 1 else n) && parses' == parses + if v.state == ParseCmd then 1 else 0
    requires pass == 0 ==> v.state !in {Waiting, ParseCmd}
    ensures Kept(env, pass + 1, start, w, stop, m, parses', reqs)
  {
    hide All, Clean, TakesOutput;
    AllNext(Clean, env, pass);
    AllNext(TakesOutput, env, pass);
    AllNext(WholeCommand, env, pass);
    AllNext(Pipelined, env, pass);
  }

  /** A pass in any state, with the budget it leaves and whether it parses. */
  method Turn(c: Conn, e: Env, nreqs: int) returns (stop: bool, fault: bool, left: int, parsed: nat)
    requires c.Running() && InTurn(c, nreqs)
    modifies c
    ensures fault <==> old(c.state) == Read && ReadsNoMemory(e)
    ensures left == nreqs - (if old(c.state) == NewCmd then 1 else 0) && parsed == if old(c.state) == ParseCmd then 1 else 0
    ensures left <= nreqs && (!fault ==> left >= -2 && parsed <= 1 && Max(left, 0) >= 0)
    ensures !fault ==> if stop then c.Parked() else c.Running() && c.state != Read && InTurn(c, left)
    ensures !fault ==> parsed + (if stop then 0 else Owed(c.state)) <= Owed(old(c.state)) + Max(nreqs, 0) - Max(left, 0)
    ensures !fault && !stop ==>
      left < nreqs || Rank(c.state) < Rank(old(c.state))
      || (c.state == old(c.state)
          && (c.Work() < old(c.Work()) || (c.Work() == old(c.Work()) && c.responses < old(c.responses))))
    ensures !fault ==> Turned(e, if old(c.state) == NewCmd then left else 0, old(c.View()), c.View(), stop)
  {
    hide Turned;
    fault, left, parsed := false, nreqs, 0;
    if c.state == NewCmd {
      left := left - 1;
      stop := c.PassNewCmd(e, left);
    } else {
      parsed := if c.state == ParseCmd then 1 else 0;
      stop, fault := c.Pass(e);
    }
  }

  /** Past the budget only output remains, and then nothing. */
  ghost predicate InTurn(c: Conn, nreqs: int)
    reads c
  {
    nreqs >= -2 && (nreqs == -1 ==> c.Flushing()) && (nreqs == -2 ==> c.state == Closing)
  }

  lemma FirstTurn(c: Conn, reqs: nat)
    requires c.Parked()
    ensures c.Running() && InTurn(c, reqs) && c.state !in {Waiting, ParseCmd}
    ensures Owed(c.state) == if c.state == Read then 1 else 0
  {
  }

  /** A call that reads and finds no memory. */
  lemma NoneKept(env: nat -> Env, start: View, n: nat, reqs: nat)
    requires start.state == Read && ReadsNoMemory(env(0)) && n > 0
    ensures !All(Clean, env, n) && !MustParse(start, env(0), reqs) && !HasInput(start, env(0))
  {
    assert !Clean(env(0));
  }

  /** What is kept when the call is over and the connection parked. */
  lemma AtLast(c: Conn, start: View, env: nat -> Env, pass: nat, nreqs: int, parses: nat, reqs: nat)
    requires Kept(env, pass, start, c.View(), true, nreqs, parses, reqs) && c.Parked()
    ensures All(Clean, env, pass) && StaysOpen(start) ==> StaysOpen(c.View())
    ensures All(TakesOutput, env, pass) ==> c.state !in {Mwrite, Write, IoQueue}
    ensures MustParse(start, env(0), reqs) ==> parses > 0
    ensures All(WholeCommand, env, pass) && !(start.state == Read && env(0).net.NoData?) ==>
      (c.state == Read ==> c.rbytes == 0)
    ensures All(Pipelined, env, pass) && HasInput(start, env(0)) ==> parses == reqs + Owed(start.state)
  {
    hide All, Clean, TakesOutput, Pipelined, WholeCommand;
  }

  /** drive_machine. It returns whatever the world does, having entered the parsing state at most
      once per budgeted command and once more if it began with a read; and it leaves the
      connection parked, so every later call starts from where this one may stop. There is one
      exception: it follows a null pointer exactly when it begins with a read on the text protocol
      and the read buffer, full, cannot be grown.
      While nothing fails and nobody asks to close, the connection stays open. While the socket
      takes output, no output is left behind. Input that has come is parsed, and a wait for more
      leaves none unless a command is incomplete. A client that pipelines enough commands gets its
      whole budget. */
  method DriveMachine(c: Conn, reqsPerEvent: nat, env: nat -> Env) returns (parses: nat, fault: bool, ghost passes: nat)
    requires c.Parked()
    modifies c
    ensures fault <==> old(c.state) == Read && ReadsNoMemory(env(0))
    ensures !fault ==> c.Parked()
    ensures parses <= reqsPerEvent + 1
    ensures old(c.state) != Read ==> parses <= reqsPerEvent
    ensures All(Clean, env, passes) && StaysOpen(old(c.View())) ==> StaysOpen(c.View())
    ensures !fault && All(TakesOutput, env, passes) ==> c.state !in {Mwrite, Write, IoQueue}
    ensures MustParse(old(c.View()), env(0), reqsPerEvent) ==> parses > 0
    ensures !fault && All(WholeCommand, env, passes) && !(old(c.state) == Read && env(0).net.NoData?)
            ==> (c.state == Read ==> c.rbytes == 0)
    ensures All(Pipelined, env, passes) && HasInput(old(c.View()), env(0))
            ==> parses == reqsPerEvent + Owed(old(c.state))
  {
    hide Kept, Turned, All, HasInput, MustParse, Clean, StaysOpen, InTurn, Conn.Parked, Conn.Running, Conn.Ok, Conn.Work;
    hide Rank, ReadsNoMemory;
    var stop, nreqs: int, pass: nat := false, reqsPerEvent, 0;
    ghost var head := Owed(c.state);
    parses, fault, passes := 0, false, 0;
    ghost var start := c.View();
    FirstTurn(c, reqsPerEvent);
    KeptAtFirst(env, start, reqsPerEvent);
    while !stop
      invariant passes == pass && nreqs <= reqsPerEvent && nreqs >= -2
      invariant if stop then c.Parked() else c.Running() && InTurn(c, nreqs)
      invariant parses + (if stop then 0 else Owed(c.state)) <= head + reqsPerEvent - Max(nreqs, 0)
      invariant pass == 0 ==> c.state == old(c.state) && !stop
      invariant pass > 0 ==> (!stop ==> c.state != Read) && !(old(c.state) == Read && ReadsNoMemory(env(0)))
      invariant Kept(env, pass, start, c.View(), stop, nreqs, parses, reqsPerEvent)
      decreases !stop, nreqs + 2, Rank(c.state), c.Work(), c.responses
    {
      ghost var before, n, was := c.View(), nreqs, parses;
      var parsed;
      stop, fault, nreqs, parsed := Turn(c, env(pass), nreqs);
      pass, passes, parses := pass + 1, passes + 1, parses + parsed;
      if fault {
        NoneKept(env, start, passes, reqsPerEvent);
        return;
      }
      KeptNext(env, pass - 1, start, before, c.View(), stop, n, nreqs, was, parses, reqsPerEvent);
    }
    AtLast(c, start, env, pass, nreqs, parses, reqsPerEvent);
  }

  /** The network read of a connection with nothing queued, as the machine sees it: it reports no
      memory exactly when a doubling of the real buffer is asked for and refused, and otherwise,
      unless the read fails, counts the bytes that the real buffer gets. */
  method ReadNetwork(c: Reader.Conn, canRealloc: nat -> bool, ascii: bool) returns (net: NetRead)
    requires c.Valid()
    modifies c, c.rbuf, c.socket
    ensures c.Valid() && (!net.ReadError? ==> c.rbytes == AfterRead(net, old(c.rbytes)))
    ensures net.MemoryError? <==> Reader.Refused(old(c.Entry()), old(c.rbufMalloced), canRealloc)
    ensures net.Data? ==> net.rbytes > 0
  {
    hide *;
    c.Facts();
    ghost var before := c.Window();
    var was := c.rbytes;
    var result, _, _, got := c.TryReadNetwork(canRealloc, false, ascii);
    c.Facts();
    AfterReads(was);
    match result {
      case ReadNoDataReceived => net := NoData;
      case ReadDataReceived => net := Data(c.rbytes - was);
      case ReadError => net := ReadError;
      case _ => net := MemoryError;
    }
  }

  lemma AfterReads(rbytes: nat)
    ensures AfterRead(NoData, rbytes) == rbytes && AfterRead(MemoryError, rbytes) == 0
    ensures forall n: nat :: AfterRead(Data(n), rbytes) == rbytes + n
  {
  }

  /** A call that begins with a read of the real buffer: it follows a null pointer exactly on the
      text protocol, when the buffer may grow and the reads fill it up to a doubling, one of the
      first four, that is not granted. */
  method DriveFromRead(m: Conn, c: Reader.Conn, reqsPerEvent: nat, ascii: bool, canRealloc: nat -> bool, env: nat -> Env)
    returns (fault: bool)
    requires m.Parked() && m.state == Read && c.Valid()
    modifies m, c, c.rbuf, c.socket
    ensures c.Valid() && (!fault ==> m.Parked())
    ensures fault <==> ascii && Reader.Refused(old(c.Entry()), old(c.rbufMalloced), canRealloc)
  {
    hide Reader.Conn.Valid, Reader.Conn.Entry, Reader.Refused, Conn.Parked;
    var net := ReadNetwork(c, canRealloc, ascii);
    var first := env(0).(ascii := ascii, rbufAvailable := true, net := net);
    var _, follows, _ := DriveMachine(m, reqsPerEvent, (k: nat) => if k == 0 then first else env(k));
    fault := follows;
  }
}
