/** Appending and prepending to items whose value is a chain of chunks: the copy loops that fill
    the destination chain from a flat or a chunked source. */
module ItemChunks {
  import opened Options
  import opened ByteStrings

  const CRLF: nat := 2

  class ItemChunk {
    const size: nat
    var used: nat
    var data: seq<byte>
    var next: ItemChunk?

    constructor (size: nat)
      ensures this.size == size == |data| && used == 0 && next == null
    {
      this.size := size;
      data := seq(size, _ => 0);
      used, next := 0, null;
    }

    predicate Ok()
      reads `used, `data
    {
      used <= size == |data|
    }

    function Content(): (bytes: seq<byte>)
      reads `used, `data
    {
      data[..Min(used, |data|)]
    }

    /** memcpy behind the used bytes, which grow by what was copied. */
    method Append(bytes: seq<byte>)
      requires Ok() && used + |bytes| <= size
      modifies `used, `data
      ensures Ok() && Content() == old(Content()) + bytes
    {
      data := data[..used] + bytes + data[used + |bytes|..];
      used := used + |bytes|;
    }
  }

  /** The size of a granted chunk: one asked for one or two bytes has them, one asked for more has
      at least two, one asked for none may be of size zero. */
  function GrantedSize(extra: nat, bytesRemain: nat): nat {
    extra + Min(bytesRemain, CRLF)
  }

  /** do_item_alloc_chunk: nothing, or a fresh empty chunk linked behind ch. */
  method DoItemAllocChunk(ch: ItemChunk, bytesRemain: nat, grant: Option<nat>) returns (r: ItemChunk?)
    modifies ch`next
    ensures grant.None? ==> r == null && ch.next == old(ch.next)
    ensures grant.Some? ==> r != null && fresh(r) && ch.next == r && r.Ok() && r.used == 0 && r.next == null
                            && r.size == GrantedSize(grant.value, bytesRemain)
  {
    if grant.None? {
      return null;
    }
    r := new ItemChunk(GrantedSize(grant.value, bytesRemain));
    ch.next := r;
  }

  // ------------------------------------------------------------- chains

  ghost function At(cs: seq<ItemChunk>, i: int): ItemChunk? {
    if 0 <= i < |cs| then cs[i] else null
  }

  /** A chain of distinct chunks linked in order. */
  ghost predicate Linked(cs: seq<ItemChunk>)
    reads cs
  {
    && cs != []
    && (forall i, j :: 0 <= i < j < |cs| ==> cs[i] != cs[j])
    && (forall i {:trigger cs[i]} :: 0 <= i < |cs| ==> cs[i].Ok() && cs[i].next == At(cs, i + 1))
  }

  /** A chain that is being filled: only its last chunk may have room. */
  ghost predicate Filling(cs: seq<ItemChunk>)
    reads cs
  {
    Linked(cs) && forall i :: 0 <= i < |cs| - 1 ==> cs[i].used == cs[i].size
  }

  /** The value a chain holds. */
  ghost function Data(cs: seq<ItemChunk>): seq<byte>
    reads cs`used, cs`data
  {
    if cs == [] then [] else Data(cs[..|cs| - 1]) + cs[|cs| - 1].Content()
  }

  lemma DataSnoc(cs: seq<ItemChunk>, c: ItemChunk)
    ensures Data(cs + [c]) == Data(cs) + c.Content()
  {
    assert (cs + [c])[..|cs|] == cs;
  }

  // -------------------------------------------------- filling the last chunk

  lemma AtNext(cs: seq<ItemChunk>, i: nat)
    requires i < |cs|
    ensures At(cs, i + 1) == null <==> i + 1 == |cs|
    ensures i + 1 < |cs| ==> At(cs, i + 1) == cs[i + 1]
  {
  }

  /** The walk to the first chunk with room, or the last. */
  method FindRoom(ghost cs: seq<ItemChunk>, head: ItemChunk) returns (dch: ItemChunk)
    requires Filling(cs) && head == cs[0]
    ensures dch == cs[|cs| - 1]
  {
    hide At;
    ghost var i := 0;
    dch := head;
    while dch.size == dch.used
      invariant 0 <= i < |cs| && dch == cs[i]
      decreases |cs| - i
    {
      AtNext(cs, i);
      if dch.next != null {
        dch := dch.next;
        i := i + 1;
      } else {
        break;
      }
    }
  }

  /** The destination chain during a copy: the old one, grown behind, holding `value`. */
  ghost predicate Holds(ds: seq<ItemChunk>, ds': seq<ItemChunk>, value: seq<byte>)
    reads ds'
  {
    Filling(ds') && ds <= ds' && Data(ds') == value
  }

  lemma HoldsStart(ds: seq<ItemChunk>)
    requires Filling(ds)
    ensures Holds(ds, ds, Data(ds)) && ds != [] && ds[|ds| - 1].Ok()
  {
  }

  /** Bytes go behind those the last chunk holds; if that fills it, it gets a successor, unless
      there is none to be had. */
  method Fill(ghost ds: seq<ItemChunk>, ghost cs: seq<ItemChunk>, last: ItemChunk, ghost value: seq<byte>,
              bytes: seq<byte>, bytesRemain: nat, grant: Option<nat>)
    returns (next: ItemChunk?, ghost cs': seq<ItemChunk>)
    requires Holds(ds, cs, value) && cs != [] && last == cs[|cs| - 1] && last.Ok() && last.used + |bytes| <= last.size
    modifies last
    ensures Holds(ds, cs', value + bytes) && cs' != []
    ensures last.Ok() && last.used == old(last.used) + |bytes|
    ensures next == null <==> last.used == last.size && grant.None?
    ensures next != null ==> next == cs'[|cs'| - 1] && next.Ok() && (next == last || next.used == 0)
    ensures last.used < last.size ==> next == last
    ensures last.used == last.size && next != null ==> fresh(next) && next.size == GrantedSize(grant.value, bytesRemain)
    ensures forall c :: c in cs' ==> c in cs || fresh(c)
  {
    AppendToLast(cs, last, bytes);
    if last.used < last.size {
      return last, cs;
    }
    next, cs' := Grow(cs, last, bytesRemain, grant);
  }

  /** A chunk asked for behind the last one: the chain gets longer, unless there is none to be had,
      and keeps its value. */
  method Link(ghost cs: seq<ItemChunk>, last: ItemChunk, bytesRemain: nat, grant: Option<nat>)
    returns (next: ItemChunk?, ghost cs': seq<ItemChunk>)
    requires Linked(cs) && last == cs[|cs| - 1]
    modifies last`next
    ensures Linked(cs') && Data(cs') == old(Data(cs)) && cs <= cs'
    ensures next == null <==> grant.None?
    ensures next == null ==> cs' == cs
    ensures next != null ==> fresh(next) && cs' == cs + [next] && next.Ok() && next.used == 0
                             && next.size == GrantedSize(grant.value, bytesRemain)
  {
    hide Data;
    next := DoItemAllocChunk(last, bytesRemain, grant);
    cs' := if next == null then cs else cs + [next];
    if next != null {
      DataSnoc(cs, next);
      assert next.Content() == [];
    }
  }

  /** A full last chunk gets a successor, if there is one to be had. */
  method Grow(ghost cs: seq<ItemChunk>, last: ItemChunk, bytesRemain: nat, grant: Option<nat>)
    returns (next: ItemChunk?, ghost cs': seq<ItemChunk>)
    requires Filling(cs) && last == cs[|cs| - 1] && last.used == last.size
    modifies last`next
    ensures Filling(cs') && Data(cs') == old(Data(cs)) && cs <= cs'
    ensures next == null <==> grant.None?
    ensures next == null ==> cs' == cs
    ensures next != null ==> fresh(next) && cs' == cs + [next] && next.Ok() && next.used == 0
                             && next.size == GrantedSize(grant.value, bytesRemain)
  {
    hide Data;
    next, cs' := Link(cs, last, bytesRemain, grant);
  }

  method AppendToLast(ghost cs: seq<ItemChunk>, last: ItemChunk, bytes: seq<byte>)
    requires Filling(cs) && last == cs[|cs| - 1] && last.used + |bytes| <= last.size
    modifies last`used, last`data
    ensures Filling(cs) && last.used == old(last.used) + |bytes|
    ensures Data(cs) == old(Data(cs)) + bytes
  {
    hide Data, At;
    ghost var front := cs[..|cs| - 1];
    assert cs == front + [last] && last !in front;
    DataSnoc(front, last);
    ghost var was := last.Content();
    last.Append(bytes);
    DataSnoc(front, last);
    Assoc(Data(front), was, bytes);
  }

  // --------------------------------------------------------- asking for chunks

  /** The bytes there is room for, from the start of a copy of len bytes, when the last chunk has
      `room` bytes left and the first k requests were granted. */
  function Capacity(room: nat, len: nat, grants: nat -> Option<nat>, k: nat): nat {
    if k == 0 then room
    else
      Capacity(room, len, grants, k - 1) + Extra(grants(k - 1), len, Capacity(room, len, grants, k - 1))
  }

  function Extra(grant: Option<nat>, len: nat, filled: nat): nat {
    match grant
    case None => 0
    case Some(extra) => GrantedSize(extra, Max(0, len - filled))
  }

  lemma CapacityNext(room: nat, len: nat, grants: nat -> Option<nat>, k: nat)
    ensures Capacity(room, len, grants, 0) == room
    ensures Capacity(room, len, grants, k + 1)
            == Capacity(room, len, grants, k) + Extra(grants(k), len, Capacity(room, len, grants, k))
  {
  }

  lemma {:induction false} CapacityGrows(room: nat, len: nat, grants: nat -> Option<nat>, j: nat, k: nat)
    requires j <= k
    ensures Capacity(room, len, grants, j) <= Capacity(room, len, grants, k)
  {
    hide Capacity, Extra;
    if j < k {
      CapacityGrows(room, len, grants, j, k - 1);
      CapacityNext(room, len, grants, k - 1);
    }
  }

  ghost predicate Granted(grants: nat -> Option<nat>, asked: nat) {
    forall k :: 0 <= k < asked ==> grants(k).Some?
  }

  /** Request k of a copy is made when all before it were granted and what they gave is filled,
      while there were bytes left before. */
  ghost predicate Made(room: nat, len: nat, grants: nat -> Option<nat>, k: nat) {
    && len > 0 && Granted(grants, k)
    && Capacity(room, len, grants, k) <= len
    && (k > 0 ==> Capacity(room, len, grants, k - 1) < len)
  }

  /** How many bytes a copy has done when it ends: all, or what there was room for up to the
      request that was refused. */
  function Copied(room: nat, len: nat, grants: nat -> Option<nat>, ok: bool, asked: nat): nat {
    if ok || asked == 0 then len else Capacity(room, len, grants, asked - 1)
  }

  /** How a copy of len bytes ends: it makes the requests that there are to make, and stops at
      the first that is refused. */
  ghost predicate Outcome(room: nat, len: nat, grants: nat -> Option<nat>, ok: bool, asked: nat) {
    && (forall k: nat :: k < asked ==> Made(room, len, grants, k))
    && (ok <==> Granted(grants, asked))
    && (ok ==> !Made(room, len, grants, asked))
  }

  /** Requests are made in order. */
  lemma MadeBefore(room: nat, len: nat, grants: nat -> Option<nat>, j: nat, k: nat)
    requires Made(room, len, grants, k) && j <= k
    ensures Made(room, len, grants, j) && Granted(grants, j)
  {
    hide Capacity;
    if j < k {
      CapacityGrows(room, len, grants, j, k - 1);
      CapacityGrows(room, len, grants, if j == 0 then 0 else j - 1, k - 1);
    }
  }

  /** The request at which a copy fails: the first that is refused is the last one made. */
  lemma RefusedLast(room: nat, len: nat, grants: nat -> Option<nat>, ok: bool, asked: nat, k: nat)
    requires Outcome(room, len, grants, ok, asked) && Made(room, len, grants, k) && grants(k).None?
    ensures !ok && k == asked - 1
    ensures Copied(room, len, grants, ok, asked) == Capacity(room, len, grants, k)
  {
    hide Made;
    if asked <= k {
      MadeBefore(room, len, grants, asked, k);
    } else {
      MadeBefore(room, len, grants, asked - 1, asked - 1);
    }
  }

  /** So a copy fails exactly when some request that is made is refused. And it fails with every
      byte copied exactly when, at that request, the room is just what was to be copied: the last
      byte filled a chunk, and the chunk refused was not needed. */
  lemma CopyFailsExactly(room: nat, len: nat, grants: nat -> Option<nat>, ok: bool, asked: nat)
    requires Outcome(room, len, grants, ok, asked)
    ensures !ok <==> exists k: nat :: Made(room, len, grants, k) && grants(k).None?
    ensures !ok && Copied(room, len, grants, ok, asked) == len
            <==> exists k: nat :: Made(room, len, grants, k) && grants(k).None? && Capacity(room, len, grants, k) == len
  {
    hide *;
    if !ok {
      RefusedOne(room, len, grants, ok, asked);
    }
    if k: nat :| Made(room, len, grants, k) && grants(k).None? {
      RefusedLast(room, len, grants, ok, asked, k);
    }
    if k: nat :| Made(room, len, grants, k) && grants(k).None? && Capacity(room, len, grants, k) == len {
      RefusedLast(room, len, grants, ok, asked, k);
    }
  }

  lemma RefusedOne(room: nat, len: nat, grants: nat -> Option<nat>, ok: bool, asked: nat)
    requires Outcome(room, len, grants, ok, asked) && !ok
    ensures asked > 0 && Made(room, len, grants, asked - 1) && grants(asked - 1).None?
    ensures Copied(room, len, grants, ok, asked) == Capacity(room, len, grants, asked - 1)
  {
    hide Capacity;
    assert Made(room, len, grants, asked - 1);
  }

  /** The smallest such input: a chunk with room for just the bytes to copy, and no chunk after it. */
  lemma RefusedAfterLastByte(len: nat, grants: nat -> Option<nat>, ok: bool, asked: nat)
    requires len > 0 && grants(0).None? && Outcome(len, len, grants, ok, asked)
    ensures !ok && asked == 1 && Copied(len, len, grants, ok, asked) == len
  {
    assert Made(len, len, grants, 0);
    RefusedLast(len, len, grants, ok, asked, 0);
  }

  /** A copy under way: `asked` requests granted, `copied` bytes there, `left` bytes of room. */
  ghost predicate Copying(room: nat, len: nat, grants: nat -> Option<nat>, asked: nat, copied: nat, left: nat) {
    && copied <= len
    && (forall k: nat :: k < asked ==> Made(room, len, grants, k))
    && Granted(grants, asked)
    && copied + left == Capacity(room, len, grants, asked)
    && (copied < len && asked > 0 ==> Capacity(room, len, grants, asked - 1) < len)
    && (left == 0 ==> (copied == 0 && asked == 0) || (copied == len && asked > 0 && Capacity(room, len, grants, asked - 1) == len))
  }

  lemma CopyStart(room: nat, len: nat, grants: nat -> Option<nat>)
    ensures Copying(room, len, grants, 0, 0, room)
  {
  }

  lemma CopyOn(room: nat, len: nat, grants: nat -> Option<nat>, asked: nat, copied: nat, left: nat, n: nat)
    requires Copying(room, len, grants, asked, copied, left) && copied < len && n < left && copied + n <= len
    ensures Copying(room, len, grants, asked, copied + n, left - n)
  {
    hide Capacity, Made;
  }

  /** The room is used up: a request is made, and granted or not. */
  lemma CopyAsks(room: nat, len: nat, grants: nat -> Option<nat>, asked: nat, copied: nat, left: nat)
    requires Copying(room, len, grants, asked, copied, left) && copied < len && copied + left <= len
    ensures grants(asked).None? ==> Outcome(room, len, grants, false, asked + 1)
                                    && copied + left == Copied(room, len, grants, false, asked + 1)
    ensures grants(asked).Some? ==>
      Copying(room, len, grants, asked + 1, copied + left, GrantedSize(grants(asked).value, len - (copied + left)))
  {
    hide Capacity;
    CapacityNext(room, len, grants, asked);
    assert Made(room, len, grants, asked);
    hide Made;
  }

  lemma CopyDone(room: nat, len: nat, grants: nat -> Option<nat>, asked: nat, left: nat)
    requires Copying(room, len, grants, asked, len, left)
    ensures Outcome(room, len, grants, true, asked)
    ensures len + left == Capacity(room, len, grants, asked) && Copied(room, len, grants, true, asked) == len
  {
    hide Capacity;
  }

  // ------------------------------------------------- position in the source

  /** A source chain is only read: it is the sequence of its chunks' used bytes. The copy is at
      byte `at` of chunk j, with `copied` bytes behind it. */
  ghost predicate SourceAt(pieces: seq<seq<byte>>, j: nat, at: nat, copied: nat) {
    && j <= |pieces|
    && copied == |Flatten(pieces[..j])| + at <= |Flatten(pieces)|
    && (if j < |pieces| then at <= |pieces[j]| else at == 0)
  }

  lemma SourceStart(pieces: seq<seq<byte>>)
    ensures SourceAt(pieces, 0, 0, 0)
  {
    assert pieces[..0] == [];
  }

  lemma SourceInside(pieces: seq<seq<byte>>, j: nat, at: nat, copied: nat)
    requires SourceAt(pieces, j, at, copied) && j < |pieces|
    ensures at <= |pieces[j]| && copied <= |Flatten(pieces)|
  {
  }

  lemma SourceEnd(pieces: seq<seq<byte>>, at: nat, copied: nat)
    requires SourceAt(pieces, |pieces|, at, copied)
    ensures copied == |Flatten(pieces)|
  {
    assert pieces[..|pieces|] == pieces;
  }

  /** The next n bytes of chunk j are the next n bytes of the value. */
  lemma SourceStep(pieces: seq<seq<byte>>, j: nat, at: nat, copied: nat, n: nat)
    requires SourceAt(pieces, j, at, copied) && j < |pieces| && at + n <= |pieces[j]|
    ensures SourceAt(pieces, j, at + n, copied + n)
    ensures Flatten(pieces)[..copied] + pieces[j][at..at + n] == Flatten(pieces)[..copied + n]
    ensures at + n == |pieces[j]| ==> SourceAt(pieces, j + 1, 0, copied + n)
  {
    hide Flatten;
    assert pieces == pieces[..j + 1] + pieces[j + 1..] && pieces[..j + 1] == pieces[..j] + [pieces[j]];
    FlattenConcat(pieces[..j + 1], pieces[j + 1..]);
    FlattenSnoc(pieces[..j], pieces[j]);
    InMiddle(Flatten(pieces[..j]), pieces[j], Flatten(pieces[j + 1..]), at, n);
  }

  lemma InMiddle<T>(a: seq<T>, b: seq<T>, c: seq<T>, at: nat, n: nat)
    requires at + n <= |b|
    ensures (a + b + c)[..|a| + at] + b[at..at + n] == (a + b + c)[..|a| + at + n]
  {
  }

  /** The room left in the last chunk of a chain. */
  ghost function Room(cs: seq<ItemChunk>): nat
    reads cs
  {
    if cs != [] && cs[|cs| - 1].used <= cs[|cs| - 1].size then cs[|cs| - 1].size - cs[|cs| - 1].used else 0
  }

  /** A copy into the chain ds has brought it to cs, which now holds `value`: `done` of len bytes
      are there, `asked` chunks were granted, and dch is the one being filled. */
  ghost predicate Underway(ds: seq<ItemChunk>, cs: seq<ItemChunk>, dch: ItemChunk, value: seq<byte>,
                           room: nat, len: nat, done: nat, grants: nat -> Option<nat>, asked: nat)
    reads cs
  {
    && Holds(ds, cs, value) && cs != [] && dch == cs[|cs| - 1] && dch.Ok()
    && Copying(room, len, grants, asked, done, dch.size - dch.used)
  }

  lemma StartCopy(ds: seq<ItemChunk>, dch: ItemChunk, len: nat, grants: nat -> Option<nat>)
    requires Filling(ds) && dch == ds[|ds| - 1]
    ensures Underway(ds, ds, dch, Data(ds), Room(ds), len, 0, grants, 0) && dch in ds
  {
    hide Data;
    HoldsStart(ds);
    CopyStart(Room(ds), len, grants);
  }

  lemma WhileUnderway(ds: seq<ItemChunk>, cs: seq<ItemChunk>, dch: ItemChunk, value: seq<byte>,
                      room: nat, len: nat, done: nat, grants: nat -> Option<nat>, asked: nat)
    requires Underway(ds, cs, dch, value, room, len, done, grants, asked)
    ensures dch.Ok() && dch in cs
  {
  }

  lemma EndCopy(ds: seq<ItemChunk>, cs: seq<ItemChunk>, dch: ItemChunk, value: seq<byte>,
                room: nat, len: nat, grants: nat -> Option<nat>, asked: nat)
    requires Underway(ds, cs, dch, value, room, len, len, grants, asked)
    ensures Holds(ds, cs, value) && Outcome(room, len, grants, true, asked) && Copied(room, len, grants, true, asked) == len
    ensures len + Room(cs) == Capacity(room, len, grants, asked)
  {
    hide Holds, Copying, Outcome, Capacity, Copied;
    CopyDone(room, len, grants, asked, dch.size - dch.used);
  }

  /** One turn of either loop: some bytes go behind what the last chunk holds, and if that fills
      it, the next chunk is asked for. */
  method CopyPart(ghost ds: seq<ItemChunk>, ghost cs: seq<ItemChunk>, dch: ItemChunk, ghost value: seq<byte>,
                  bytes: seq<byte>, ghost room: nat, len: nat, done: nat, grants: nat -> Option<nat>, asked0: nat)
    returns (next: ItemChunk?, asked: nat, ghost cs': seq<ItemChunk>)
    requires Underway(ds, cs, dch, value, room, len, done, grants, asked0) && done < len
    requires dch.Ok() && |bytes| <= dch.size - dch.used && done + |bytes| <= len
    modifies dch
    ensures forall c :: c in cs' ==> c in cs || fresh(c)
    ensures next == null ==> Holds(ds, cs', value + bytes) && Outcome(room, len, grants, false, asked)
                             && done + |bytes| == Copied(room, len, grants, false, asked)
    ensures next != null ==> Underway(ds, cs', next, value + bytes, room, len, done + |bytes|, grants, asked)
                             && next.Ok() && next in cs' && (done + |bytes| == len || next.used < next.size)
  {
    hide Holds, Filling, Data, Copying, Outcome, Capacity, Copied;
    ghost var left := dch.size - dch.used;
    asked := asked0;
    next, cs' := Fill(ds, cs, dch, value, bytes, len - done - |bytes|, grants(asked));
    if dch.size == dch.used {
      CopyAsks(room, len, grants, asked, done, left);
      asked := asked + 1;
    } else {
      CopyOn(room, len, grants, asked, done, left, |bytes|);
    }
  }

  /** _store_item_copy_chunks from a chunked source: len bytes, across whatever chunk boundaries
      the two chains have. It gives up only when a chunk it asks for is refused; then a prefix was
      copied. */
  method CopyFromChunks(ghost ds: seq<ItemChunk>, dHead: ItemChunk, pieces: seq<seq<byte>>,
                        len: nat, grants: nat -> Option<nat>)
    returns (ok: bool, asked: nat, ghost ds': seq<ItemChunk>, ghost copied: nat)
    requires Filling(ds) && dHead == ds[0] && len <= |Flatten(pieces)|
    modifies ds
    ensures copied <= len && Holds(ds, ds', old(Data(ds)) + Flatten(pieces)[..copied])
    ensures Outcome(old(Room(ds)), len, grants, ok, asked) && copied == Copied(old(Room(ds)), len, grants, ok, asked)
    ensures ok ==> len + Room(ds') == Capacity(old(Room(ds)), len, grants, asked)
    ensures forall c :: c in ds' ==> c in ds || fresh(c)
  {
    hide *;
    ghost var was, value, room := Data(ds), Flatten(pieces), Room(ds);
    var dch: ItemChunk := FindRoom(ds, dHead);
    StartCopy(ds, dch, len, grants);
    var remain: nat, sch: nat, at: nat := len, 0, 0;
    ds', copied, asked := ds, 0, 0;
    SourceStart(pieces);
    assert was + value[..0] == was;
    while sch < |pieces| && remain > 0
      invariant copied + remain == len && Underway(ds, ds', dch, was + value[..copied], room, len, copied, grants, asked)
      invariant forall c :: c in ds' ==> c in ds || fresh(c)
      invariant SourceAt(pieces, sch, at, copied) && sch <= |pieces|
      decreases remain, |pieces| - sch, if dch.used == dch.size then 1 else 0
    {
      SourceInside(pieces, sch, at, copied);
      WhileUnderway(ds, ds', dch, was + value[..copied], room, len, copied, grants, asked);
      OkMeans(dch);
      var todo := if dch.size - dch.used < |pieces[sch]| - at then dch.size - dch.used else |pieces[sch]| - at;
      if remain < todo {
        todo := remain;
      }
      SourceStep(pieces, sch, at, copied, todo);
      var bytes := pieces[sch][at..at + todo];
      Assoc(was, value[..copied], bytes);
      var tch: ItemChunk?;
      tch, asked, ds' := CopyPart(ds, ds', dch, was + value[..copied], bytes, room, len, len - remain, grants, asked);
      copied := copied + todo;
      at := at + todo;
      remain := remain - todo;
      if tch == null {
        return false, asked, ds', copied;
      }
      dch := tch;
      if at == |pieces[sch]| {
        at := 0;
        sch := sch + 1;
      }
    }
    if remain > 0 {
      SourceEnd(pieces, at, copied);
      assert false;
    }
    EndCopy(ds, ds', dch, was + value[..copied], room, len, grants, asked);
    return true, asked, ds', copied;
  }

  lemma OkMeans(c: ItemChunk)
    requires c.Ok()
    ensures c.used <= c.size
  {
  }

  /** _store_item_copy_chunks from a flat source. */
  method CopyFromFlat(ghost ds: seq<ItemChunk>, dHead: ItemChunk, src: seq<byte>, len: nat, grants: nat -> Option<nat>)
    returns (ok: bool, asked: nat, ghost ds': seq<ItemChunk>, ghost copied: nat)
    requires Filling(ds) && dHead == ds[0] && len <= |src|
    modifies ds
    ensures copied <= len && Holds(ds, ds', old(Data(ds)) + src[..copied])
    ensures Outcome(old(Room(ds)), len, grants, ok, asked) && copied == Copied(old(Room(ds)), len, grants, ok, asked)
    ensures ok ==> len + Room(ds') == Capacity(old(Room(ds)), len, grants, asked)
    ensures forall c :: c in ds' ==> c in ds || fresh(c)
  {
    hide *;
    ghost var was, room := Data(ds), Room(ds);
    var dch: ItemChunk := FindRoom(ds, dHead);
    StartCopy(ds, dch, len, grants);
    var done: nat := 0;
    ds', asked := ds, 0;
    assert was + src[..0] == was;
    while len > done
      invariant done <= len && Underway(ds, ds', dch, was + src[..done], room, len, done, grants, asked)
      invariant forall c :: c in ds' ==> c in ds || fresh(c)
      decreases len - done, if dch.used == dch.size then 1 else 0
    {
      WhileUnderway(ds, ds', dch, was + src[..done], room, len, done, grants, asked);
      OkMeans(dch);
      var todo: nat := if dch.size - dch.used < len - done then dch.size - dch.used else len - done;
      var bytes := src[done..done + todo];
      TakeMore(src, done, todo);
      Assoc(was, src[..done], bytes);
      var tch: ItemChunk?;
      tch, asked, ds' := CopyPart(ds, ds', dch, was + src[..done], bytes, room, len, done, grants, asked);
      done := done + todo;
      if tch == null {
        return false, asked, ds', done;
      }
      dch := tch;
    }
    EndCopy(ds, ds', dch, was + src[..done], room, len, grants, asked);
    return true, asked, ds', done;
  }

  lemma TakeMore<T>(s: seq<T>, k: nat, n: nat)
    requires k + n <= |s|
    ensures s[..k] + s[k..k + n] == s[..k + n]
  {
  }

  // --------------------------------------------------------------- items

  /** An item that is only read: its value in one piece or as its chunks' contents. */
  datatype Source = FlatItem(data: seq<byte>) | ChunkedItem(pieces: seq<seq<byte>>)

  function Value(s: Source): seq<byte> {
    match s
    case FlatItem(data) => data
    case ChunkedItem(pieces) => Flatten(pieces)
  }

  /** The size an item records for its value. */
  function Nbytes(s: Source): nat {
    |Value(s)|
  }

  /** The item being built. */
  class NewItem {
    const chunked: bool
    var flat: seq<byte>
    var head: ItemChunk?
    ghost var chunks: seq<ItemChunk>
    ghost var repr: set<ItemChunk>

    constructor Flat(room: nat)
      ensures !chunked && |flat| == room && Ok()
    {
      chunked := false;
      flat := seq(room, _ => 0);
      head, chunks, repr := null, [], {};
    }

    constructor Chunked(firstSize: nat)
      ensures chunked && Ok() && Value() == [] && fresh(repr)
    {
      var c := new ItemChunk(firstSize);
      chunked, flat, head, chunks, repr := true, [], c, [c], {c};
      new;
      DataSnoc([], c);
      assert [] + [c] == [c];
    }

    ghost predicate Ok()
      reads this, repr
    {
      chunked ==> (forall c :: c in chunks ==> c in repr) && Filling(chunks) && head == chunks[0]
    }

    ghost function Value(): seq<byte>
      reads this, chunks
    {
      if chunked then Data(chunks) else flat
    }
  }

  /** _store_item_copy_chunks: the first len bytes of a source go behind what a chain holds. */
  method StoreItemCopyChunks(ghost ds: seq<ItemChunk>, dHead: ItemChunk, src: Source, len: nat, grants: nat -> Option<nat>)
    returns (ok: bool, asked: nat, ghost ds': seq<ItemChunk>, ghost copied: nat)
    requires Filling(ds) && dHead == ds[0] && len <= |Value(src)|
    modifies ds
    ensures copied <= len && Holds(ds, ds', old(Data(ds)) + Value(src)[..copied])
    ensures Outcome(old(Room(ds)), len, grants, ok, asked) && copied == Copied(old(Room(ds)), len, grants, ok, asked)
    ensures ok ==> len + Room(ds') == Capacity(old(Room(ds)), len, grants, asked)
    ensures forall c :: c in ds' ==> c in ds || fresh(c)
  {
    hide Filling, Data, Holds, Flatten, Outcome, Capacity;
    match src {
      case ChunkedItem(pieces) =>
        ok, asked, ds', copied := CopyFromChunks(ds, dHead, pieces, len, grants);
      case FlatItem(data) =>
        ok, asked, ds', copied := CopyFromFlat(ds, dHead, data, len, grants);
    }
  }

  /** The same for the item being built. */
  method CopyIntoItem(it: NewItem, src: Source, len: nat, grants: nat -> Option<nat>)
    returns (ok: bool, asked: nat, ghost copied: nat)
    requires it.chunked && it.Ok() && len <= |Value(src)|
    modifies it, it.repr
    ensures it.Ok() && fresh(it.repr - old(it.repr))
    ensures copied <= len && it.Value() == old(it.Value()) + Value(src)[..copied]
    ensures Outcome(old(Room(it.chunks)), len, grants, ok, asked)
    ensures copied == Copied(old(Room(it.chunks)), len, grants, ok, asked)
    ensures ok ==> len + Room(it.chunks) == Capacity(old(Room(it.chunks)), len, grants, asked)
  {
    HoldsStart(it.chunks);
    hide Filling, Data, Holds, Flatten, Value, Outcome, Capacity, Room;
    ghost var ds';
    ok, asked, ds', copied := StoreItemCopyChunks(it.chunks, it.head, src, len, grants);
    Rechain(it, ds', old(it.Value()) + Value(src)[..copied]);
  }

  /** The item now has the longer chain. */
  ghost method Rechain(it: NewItem, ds': seq<ItemChunk>, value: seq<byte>)
    requires it.chunked && it.chunks != [] && it.head == it.chunks[0] && Holds(it.chunks, ds', value)
    modifies it`chunks, it`repr
    ensures it.Ok() && it.Value() == value && it.chunks == ds' && it.repr == old(it.repr) + set c | c in ds'
  {
    hide Filling, Data, Holds, Linked;
    HoldsValue(it.chunks, ds', value);
    it.chunks := ds';
    it.repr := it.repr + set c | c in ds';
  }

  lemma HoldsValue(ds: seq<ItemChunk>, ds': seq<ItemChunk>, value: seq<byte>)
    requires Holds(ds, ds', value) && ds != []
    ensures Filling(ds') && Data(ds') == value && ds'[0] == ds[0]
  {
  }

  function WithoutCrlf(value: seq<byte>): seq<byte>
    requires |value| >= CRLF
  {
    value[..|value| - CRLF]
  }

  /** How two copies end, n bytes and then m: the second is made if the first succeeded, with the
      room that is left then. */
  ghost predicate BothOutcome(room: nat, n: nat, m: nat, grants: nat -> Option<nat>, laterGrants: nat -> Option<nat>,
                              ok: bool, asked: nat, askedLater: nat) {
    var first := Granted(grants, asked);
    && Outcome(room, n, grants, first, asked)
    && (if first && Capacity(room, n, grants, asked) >= n
        then Outcome(Capacity(room, n, grants, asked) - n, m, laterGrants, ok, askedLater)
        else !ok && askedLater == 0 && !first)
  }

  /** They succeed exactly when every chunk asked for is granted. */
  lemma BothGranted(room: nat, n: nat, m: nat, grants: nat -> Option<nat>, laterGrants: nat -> Option<nat>,
                    ok: bool, asked: nat, askedLater: nat)
    requires BothOutcome(room, n, m, grants, laterGrants, ok, asked, askedLater)
    ensures ok <==> Granted(grants, asked) && Granted(laterGrants, askedLater)
  {
  }

  /** The chunked branch: the first value without its line end, then the second whole. */
  method CopyBothChunked(it: NewItem, first: Source, second: Source,
                         grants: nat -> Option<nat>, laterGrants: nat -> Option<nat>)
    returns (ok: bool, asked: nat, askedLater: nat)
    requires it.chunked && it.Ok() && |Value(first)| >= CRLF
    modifies it, it.repr
    ensures it.Ok()
    ensures ok ==> it.Value() == old(it.Value()) + WithoutCrlf(Value(first)) + Value(second)
    ensures BothOutcome(old(Room(it.chunks)), |Value(first)| - CRLF, |Value(second)|, grants, laterGrants, ok, asked, askedLater)
  {
    hide Value, Filling, Data, Made, Capacity, Room, Granted;
    ghost var copied;
    askedLater := 0;
    ok, asked, copied := CopyIntoItem(it, first, Nbytes(first) - CRLF, grants);
    if !ok {
      return;
    }
    assert it.Value() == old(it.Value()) + WithoutCrlf(Value(first));
    ok, askedLater, copied := CopyIntoItem(it, second, Nbytes(second), laterGrants);
    assert Value(second)[..Nbytes(second)] == Value(second);
  }

  /** The flat branch: two copies, the second over the first one's line end. */
  method CopyBothFlat(it: NewItem, first: seq<byte>, second: seq<byte>)
    requires !it.chunked && |first| >= CRLF && |second| >= CRLF && |it.flat| == |first| + |second| - CRLF
    modifies it`flat
    ensures it.flat == WithoutCrlf(first) + second
  {
    it.flat := first + it.flat[|first|..];
    it.flat := it.flat[..|first| - CRLF] + second + it.flat[|first| - CRLF + |second|..];
  }

  /** _store_item_copy_data: the new item's value is the old one with the addition behind it
      (append) or in front of it (prepend), the inner line end dropped. It fails exactly when a
      chunk that is asked for is refused. */
  method StoreItemCopyData(append: bool, old_: Source, it: NewItem, add: Source,
                           grants: nat -> Option<nat>, laterGrants: nat -> Option<nat>)
    returns (ok: bool, asked: nat, askedLater: nat)
    requires |Value(old_)| >= CRLF && |Value(add)| >= CRLF && it.Ok()
    requires it.chunked ==> it.Value() == []
    requires !it.chunked ==> old_.FlatItem? && add.FlatItem? && |it.flat| == |Value(old_)| + |Value(add)| - CRLF
    modifies it, it.repr
    ensures it.Ok()
    ensures ok ==> it.Value() == (if append then WithoutCrlf(Value(old_)) + Value(add)
                                  else WithoutCrlf(Value(add)) + Value(old_))
    ensures ok <==> Granted(grants, asked) && Granted(laterGrants, askedLater)
    ensures !it.chunked ==> asked == askedLater == 0
    ensures it.chunked ==>
      var first, second := if append then old_ else add, if append then add else old_;
      BothOutcome(old(Room(it.chunks)), |Value(first)| - CRLF, |Value(second)|, grants, laterGrants, ok, asked, askedLater)
  {
    hide Filling, Data, Flatten, BothOutcome, Room;
    var first, second := if append then old_ else add, if append then add else old_;
    asked, askedLater := 0, 0;
    if it.chunked {
      ghost var room := Room(it.chunks);
      ok, asked, askedLater := CopyBothChunked(it, first, second, grants, laterGrants);
      BothGranted(room, |Value(first)| - CRLF, |Value(second)|, grants, laterGrants, ok, asked, askedLater);
      assert [] + WithoutCrlf(Value(first)) == WithoutCrlf(Value(first));
    } else {
      CopyBothFlat(it, first.data, second.data);
      ok := true;
    }
  }
}
