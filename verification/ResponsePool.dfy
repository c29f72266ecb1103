/** The response-object allocator of a memcached worker thread. Response slots live in bundles,
    one read buffer each; bundles with a free slot are on a doubly linked list that allocation
    takes from at the head and a freed slot of a full bundle rejoins at the head. */
module ResponsePool {
  import opened Options
  import opened SetFacts

  // --------------------------------------------------- the slots of a bundle

  /** Slots in use. */
  function Used(free: seq<bool>): nat {
    if free == [] then 0 else (if free[0] then 0 else 1) + Used(free[1..])
  }

  lemma {:induction false} UsedBounds(free: seq<bool>)
    ensures Used(free) <= |free|
    ensures Used(free) < |free| <==> exists i :: 0 <= i < |free| && free[i]
    ensures Used(free) == 0 <==> forall i :: 0 <= i < |free| ==> free[i]
  {
    if free != [] {
      UsedBounds(free[1..]);
      assert forall i :: 0 <= i < |free| ==> free[i] == if i == 0 then free[0] else free[1..][i - 1];
      if free[0] {
        assert exists i :: 0 <= i < |free| && free[i];
      } else if i :| 0 <= i < |free[1..]| && free[1..][i] {
        assert free[i + 1];
      }
    }
  }

  lemma {:induction false} UsedUpdate(free: seq<bool>, x: nat, v: bool)
    requires x < |free| && free[x] != v
    ensures Used(free[x := v]) == Used(free) + (if v then -1 else 1)
  {
    if x == 0 {
      assert free[x := v][1..] == free[1..];
    } else {
      UsedUpdate(free[1..], x - 1, v);
      assert free[x := v][1..] == free[1..][x - 1 := v];
    }
  }

  lemma {:induction false} UsedFresh(n: nat)
    ensures Used(seq(n, _ => true)) == 0
  {
    UsedBounds(seq(n, _ => true));
  }

  class Bundle {
    var refcount: nat
    var nextCheck: nat
    var free: seq<bool>
    var next: Bundle?
    var prev: Bundle?

    /** A buffer from the cache as resp_allocate initialises it, its first slot handed out. */
    constructor (slots: nat)
      requires slots > 0
      ensures refcount == 1 && nextCheck == 1 && next == null && prev == null
      ensures Counted(slots) && forall i :: 0 <= i < slots ==> (free[i] <==> i > 0)
    {
      refcount, nextCheck, next, prev := 1, 1, null, null;
      free := seq(slots, _ => true)[0 := false];
      UsedFresh(slots);
      UsedUpdate(seq(slots, _ => true), 0, false);
    }

    ghost predicate Counted(slots: nat)
      reads `refcount, `nextCheck, `free
    {
      |free| == slots && refcount == Used(free) && nextCheck <= slots
    }
  }

  /** A response object: a slot of a bundle. */
  datatype Slot = Slot(bundle: Bundle, index: nat)

  class Thread {
    const slots: nat
    const bufferSize: nat
    var openBundle: Bundle?
    var respObjBytes: int
    ghost var linked: seq<Bundle>
    ghost var listed: set<Bundle>
    ghost var live: set<Bundle>
    ghost var handed: set<Slot>

    /** The free list is exactly `linked`, head first. */
    ghost predicate Linked()
      reads `openBundle, `linked, `listed, linked`next, linked`prev
    {
      && (forall b :: b in listed ==> b in linked) && (forall b :: b in linked ==> b in listed)
      && (forall i, j :: 0 <= i < j < |linked| ==> linked[i] != linked[j])
      && openBundle == At(linked, 0)
      && (forall i {:trigger linked[i]} :: 0 <= i < |linked| ==> linked[i].next == At(linked, i + 1))
      && (forall i {:trigger linked[i]} :: 0 <= i < |linked| ==> linked[i].prev == At(linked, i - 1))
    }

    static ghost function At(list: seq<Bundle>, i: int): Bundle? {
      if 0 <= i < |list| then list[i] else null
    }

    /** Refcounts are the slots in use, and the slots handed out are those not free. */
    ghost predicate SlotsOk()
      reads `handed, `live, live`refcount, live`nextCheck, live`free
    {
      && (forall b :: b in live ==> b.Counted(slots))
      && (forall s :: s in handed ==> s.bundle in live && s.index < slots && !s.bundle.free[s.index])
      && (forall b, i :: b in live && 0 <= i < slots && !b.free[i] ==> Slot(b, i) in handed)
    }

    /** A live bundle is linked exactly when it has a free slot, and only the last linked bundle
        may be empty. */
    ghost predicate Balanced()
      reads `linked, `listed, `live, linked`refcount, live`refcount, live`next, live`prev
    {
      && listed <= live
      && (forall b :: b in live ==> (b in listed <==> b.refcount < slots))
      && (forall b :: b in live - listed ==> b.next == null && b.prev == null)
      && (forall i :: 0 <= i < |linked| - 1 ==> linked[i].refcount > 0)
    }

    ghost predicate Valid()
      reads this, linked, live
    {
      slots >= 2 && Linked() && SlotsOk() && Balanced() && respObjBytes == bufferSize * |live|
    }

    constructor (slots: nat, bufferSize: nat)
      requires slots >= 2
      ensures Valid() && handed == {} && live == {}
      ensures this.slots == slots && this.bufferSize == bufferSize
    {
      this.slots, this.bufferSize := slots, bufferSize;
      openBundle, respObjBytes := null, 0;
      linked, listed, live, handed := [], {}, {}, {};
    }

    /** The search loop of resp_allocate: from the likeliest slot, around the bundle. */
    method FindFree(b: Bundle) returns (x: nat)
      requires slots > 0 && b.Counted(slots) && b.refcount < slots
      ensures x < slots && b.free[x]
    {
      UsedBounds(b.free);
      var i: nat := 0;
      while i < slots
        invariant i <= slots
        invariant forall k :: 0 <= k < i ==> !b.free[Wrap(k, b.nextCheck, slots)]
      {
        x := Wrap(i, b.nextCheck, slots);
        if b.free[x] {
          return;
        }
        i := i + 1;
      }
      forall y | 0 <= y < slots ensures !b.free[y] {
        assert Wrap(Around(y, b.nextCheck, slots), b.nextCheck, slots) == y;
      }
      assert false;
    }

    /** The slot x of a linked bundle is handed out. */
    method TakeSlot(b: Bundle, x: nat)
      requires SlotsOk() && b in live && x < slots && b.free[x]
      modifies `handed, b`nextCheck, b`refcount, b`free
      ensures SlotsOk() && Slot(b, x) !in old(handed) && handed == old(handed) + {Slot(b, x)}
      ensures b.refcount == old(b.refcount) + 1 <= slots
    {
      hide Used;
      UsedUpdate(b.free, x, false);
      UsedBounds(b.free[x := false]);
      b.nextCheck := x + 1;
      b.refcount := b.refcount + 1;
      b.free := b.free[x := false];
      handed := handed + {Slot(b, x)};
    }

    /** A handed-out slot is free again. */
    method GiveBack(s: Slot)
      requires SlotsOk() && s in handed
      modifies `handed, s.bundle`refcount, s.bundle`free
      ensures SlotsOk() && handed == old(handed) - {s}
      ensures old(s.bundle.refcount) >= 1 && s.bundle.refcount == old(s.bundle.refcount) - 1 < slots
    {
      hide Used;
      var b := s.bundle;
      UsedUpdate(b.free, s.index, true);
      UsedBounds(b.free);
      b.free := b.free[s.index := true];
      b.refcount := b.refcount - 1;
      handed := handed - {s};
    }

    /** The head leaves the list. */
    method PopHead()
      requires Linked() && linked != []
      modifies `openBundle, `linked, `listed, linked`next, linked`prev
      ensures Linked() && linked == old(linked)[1..]
      ensures old(linked[0]).next == null && old(linked[0]).prev == null
      ensures listed == old(listed) - {old(linked[0])}
    {
      hide *;
      HeadOfList();
      OpenLinked();
      AtNeighbours(linked, 0);
      var b := openBundle;
      assert b.prev == null;
      ghost var was := linked;
      openBundle := b.next;
      if b.next != null {
        b.next.prev := null;
        b.next := null;
      }
      linked, listed := linked[1..], listed - {b};
      assert linked == RemoveAt(was, 0);
      RemoveMembers(was, 0);
      AtRemove(was, 0, 0);
      forall i | 0 <= i < |linked|
        ensures linked[i].next == At(linked, i + 1) && linked[i].prev == At(linked, i - 1)
      {
        AtRemove(was, 0, i - 1);
        AtRemove(was, 0, i + 1);
        AtNeighbours(was, i + 1);
      }
      MakeLinked();
    }

    /** A bundle joins the list at its head. */
    method PushFront(b: Bundle)
      requires Linked() && b !in listed
      modifies `openBundle, `linked, `listed, linked`prev, b`next, b`prev
      ensures Linked() && linked == [b] + old(linked)
      ensures listed == old(listed) + {b}
    {
      hide *;
      HeadOfList();
      OpenLinked();
      ghost var was := linked;
      b.prev := null;
      b.next := openBundle;
      if b.next != null {
        b.next.prev := b;
      }
      openBundle := b;
      linked, listed := [b] + linked, listed + {b};
      AtNeighbours(linked, 0);
      forall i | 0 <= i < |linked|
        ensures linked[i].next == At(linked, i + 1) && linked[i].prev == At(linked, i - 1)
      {
        AtNeighbours(linked, i);
        if i > 0 {
          assert linked[i] == was[i - 1];
          AtNeighbours(was, i - 1);
        }
      }
      MakeLinked();
    }

    /** The k-th linked bundle leaves the list, wherever it is. */
    method Unlink(ghost k: nat, b: Bundle)
      requires Linked() && k < |linked| && linked[k] == b
      modifies `openBundle, `linked, `listed, linked`next, linked`prev
      ensures Linked() && linked == RemoveAt(old(linked), k)
      ensures listed == old(listed) - {b}
    {
      hide *;
      OpenLinked();
      ghost var was := linked;
      AtNeighbours(was, k);
      AtNeighbours(was, 0);
      if openBundle == b {
        openBundle := b.next;
      }
      assert b.next != b && b.prev != b;
      if b.next != null {
        b.next.prev := b.prev;
      }
      if b.prev != null {
        b.prev.next := b.next;
      }
      linked, listed := RemoveAt(was, k), listed - {b};
      AtRemove(was, k, 0);
      RemoveMembers(was, k);
      forall i | 0 <= i < |linked|
        ensures linked[i].next == At(linked, i + 1) && linked[i].prev == At(linked, i - 1)
      {
        AtRemove(was, k, i - 1);
        AtRemove(was, k, i + 1);
        AtNeighbours(was, if i < k then i else i + 1);
        RemoveAtIndex(was, k, i);
      }
      MakeLinked();
    }

    lemma OpenValid()
      requires Valid()
      ensures slots >= 2 && Linked() && SlotsOk() && Balanced() && listed <= live
      ensures respObjBytes == bufferSize * |live|
      ensures forall x :: x in live ==> (x in listed <==> x.refcount < slots)
      ensures forall x :: x in live - listed ==> x.next == null && x.prev == null
      ensures forall i :: 0 <= i < |linked| - 1 ==> linked[i].refcount > 0
    {
    }

    lemma MakeValid()
      requires slots >= 2 && Linked() && SlotsOk() && listed <= live
      requires respObjBytes == bufferSize * |live|
      requires forall x :: x in live ==> (x in listed <==> x.refcount < slots)
      requires forall x :: x in live - listed ==> x.next == null && x.prev == null
      requires forall i :: 0 <= i < |linked| - 1 ==> linked[i].refcount > 0
      ensures Valid()
    {
    }

    lemma OpenLinked()
      requires Linked()
      ensures openBundle == At(linked, 0)
      ensures forall i, j :: 0 <= i < j < |linked| ==> linked[i] != linked[j]
      ensures forall i {:trigger linked[i]} :: 0 <= i < |linked| ==>
        linked[i].next == At(linked, i + 1) && linked[i].prev == At(linked, i - 1)
      ensures forall x :: x in linked <==> x in listed
    {
    }

    lemma MakeLinked()
      requires openBundle == At(linked, 0)
      requires forall i, j :: 0 <= i < j < |linked| ==> linked[i] != linked[j]
      requires forall i {:trigger linked[i]} :: 0 <= i < |linked| ==>
        linked[i].next == At(linked, i + 1) && linked[i].prev == At(linked, i - 1)
      requires forall x :: x in linked <==> x in listed
      ensures Linked()
    {
    }

    /** How the code recognises a linked bundle. */
    lemma LinkedByPointers(b: Bundle)
      requires Linked() && Balanced() && b in live
      ensures b in listed <==> b == openBundle || b.prev != null || b.next != null
      ensures linked == [b] <==> b in listed && b == openBundle && b.next == null
      ensures linked == [b] ==> b.prev == null
      ensures openBundle == null <==> linked == []
      ensures linked != [] ==> openBundle == linked[0]
    {
      hide At;
      if linked == [b] {
        AtNeighbours(linked, 0);
      }
      if b in linked {
        var k :| 0 <= k < |linked| && linked[k] == b;
        AtNeighbours(linked, k);
        AtNeighbours(linked, 0);
        if b == openBundle && b.next == null {
          assert k == 0 && |linked| == 1;
        }
      } else {
        if linked != [] {
          AtNeighbours(linked, 0);
        } else {
          AtNone();
        }
      }
    }

    static lemma AtNone()
      ensures At([], 0) == null
    {
    }

    lemma HeadOfList()
      requires Linked()
      ensures openBundle == null <==> linked == []
      ensures linked != [] ==> openBundle == linked[0] && linked[0] in listed
      ensures forall x :: x in linked <==> x in listed
    {
    }

    /** resp_allocate, when a bundle is open: the head of the list gives a slot, and leaves the
        list when that was its last. */
    method AllocateFromHead() returns (r: Slot)
      requires Valid() && openBundle != null
      modifies this, linked
      ensures Valid() && r.bundle == old(openBundle)
      ensures r !in old(handed) && handed == old(handed) + {r} && live == old(live)
    {
      hide *;
      OpenValid();
      HeadOfList();
      var b := openBundle;
      var x := FindFreeInOpen(b);
      TakeSlot(b, x);
      KeepOpen(b);
      r := Slot(b, x);
    }

    /** The head, a slot taken from it, stays the open bundle unless it is full now. */
    method KeepOpen(b: Bundle)
      requires slots >= 2 && Linked() && SlotsOk() && listed <= live && b == openBundle && 0 < b.refcount <= slots
      requires forall x :: x in live && x != b ==> (x in listed <==> x.refcount < slots)
      requires forall x :: x in live - listed ==> x.next == null && x.prev == null
      requires forall i :: 0 < i < |linked| - 1 ==> linked[i].refcount > 0
      requires respObjBytes == bufferSize * |live|
      modifies `openBundle, `linked, `listed, linked`next, linked`prev
      ensures Valid()
    {
      hide *;
      HeadOfList();
      if b.refcount == slots {
        ghost var was := linked;
        PopHead();
        assert forall i :: 0 <= i < |linked| ==> linked[i] == was[i + 1];
      }
      MakeValid();
    }

    method FindFreeInOpen(b: Bundle) returns (x: nat)
      requires Valid() && b in listed
      ensures x < slots && b.free[x] && |b.free| == slots
    {
      x := FindFree(b);
    }

    /** resp_allocate, when no bundle is open: a buffer from the cache becomes the open bundle. */
    method AllocateNewBundle() returns (r: Slot)
      requires Valid() && openBundle == null
      modifies this
      ensures Valid() && fresh(r.bundle) && live == old(live) + {r.bundle}
      ensures r !in old(handed) && handed == old(handed) + {r}
    {
      hide *;
      OpenValid();
      HeadOfList();
      var b := new Bundle(slots);
      assert forall x :: x in live ==> x !in listed;
      respObjBytes := respObjBytes + bufferSize;
      AddLive(b);
      OpenOnly(b);
      r := Slot(b, 0);
      MakeValid();
    }

    /** The only open bundle, with nothing linked before or after it. */
    method OpenOnly(b: Bundle)
      requires b.next == null && b.prev == null
      modifies `openBundle, `linked, `listed
      ensures Linked() && linked == [b] && listed == {b}
    {
      openBundle := b;
      linked, listed := [b], {b};
    }

    /** A new bundle, its first slot handed out, joins the accounting. */
    ghost method AddLive(b: Bundle)
      requires SlotsOk() && b !in live && slots > 0 && b.Counted(slots)
      requires forall i :: 0 <= i < slots ==> (b.free[i] <==> i > 0)
      modifies `live, `handed
      ensures SlotsOk() && live == old(live) + {b}
      ensures Slot(b, 0) !in old(handed) && handed == old(handed) + {Slot(b, 0)}
    {
      hide Used;
      live, handed := live + {b}, handed + {Slot(b, 0)};
    }

    /** resp_allocate. A new bundle is fetched only when no live bundle has a free slot, and
        allocation fails only if there is no buffer for one. */
    method RespAllocate(cacheHasBuffer: bool) returns (r: Option<Slot>)
      requires Valid()
      modifies this, linked
      ensures Valid()
      ensures r.Some? ==> r.value !in old(handed) && handed == old(handed) + {r.value}
      ensures r.None? <==> old(linked) == [] && !cacheHasBuffer
      ensures r.None? ==> handed == old(handed)
      ensures old(linked) != [] || r.None? ==> live == old(live)
      ensures r.Some? && old(linked) == [] ==> fresh(r.value.bundle) && live == old(live) + {r.value.bundle}
    {
      hide *;
      OpenValid();
      HeadOfList();
      if openBundle != null {
        var s := AllocateFromHead();
        return Some(s);
      }
      assert openBundle == null;
      if cacheHasBuffer {
        var s := AllocateNewBundle();
        return Some(s);
      }
      return None;
    }

    /** The last bundle of the list, emptied, is held for reuse. */
    method HoldForReuse(b: Bundle)
      requires SlotsOk() && b in live
      modifies b`nextCheck
      ensures SlotsOk()
    {
      b.nextCheck := 0;
    }

    /** An emptied bundle that is not the whole list is unlinked and goes back to the cache. */
    method Release(b: Bundle)
      requires slots >= 2 && Linked() && SlotsOk() && b in listed && listed <= live && b.refcount == 0
      requires forall x :: x in live ==> (x in listed <==> x.refcount < slots)
      requires forall x :: x in live - listed ==> x.next == null && x.prev == null
      requires forall i :: 0 <= i < |linked| - 1 && linked[i] != b ==> linked[i].refcount > 0
      requires respObjBytes == bufferSize * |live|
      modifies this, linked
      ensures Valid() && live == old(live) - {b} && handed == old(handed)
    {
      hide *;
      HeadOfList();
      TakeOut(b);
      DropLive(b);
      respObjBytes := respObjBytes - bufferSize;
      MakeValid();
    }

    /** An empty bundle leaves the list; those before the last are still in use. */
    method TakeOut(b: Bundle)
      requires Linked() && b in listed
      requires forall i :: 0 <= i < |linked| - 1 && linked[i] != b ==> linked[i].refcount > 0
      modifies `openBundle, `linked, `listed, linked`next, linked`prev
      ensures Linked() && listed == old(listed) - {b} && |linked| == |old(linked)| - 1
      ensures forall i :: 0 <= i < |linked| - 1 ==> linked[i].refcount > 0
    {
      hide *;
      HeadOfList();
      ghost var was := linked;
      ghost var k :| 0 <= k < |linked| && linked[k] == b;
      Unlink(k, b);
      HeadOfList();
      forall i | 0 <= i < |linked| - 1 ensures linked[i].refcount > 0 {
        RemoveAtIndex(was, k, i);
        assert linked[i] == was[if i < k then i else i + 1] && linked[i] in listed;
      }
    }

    /** A bundle with no slot in use is no longer accounted for. */
    ghost method DropLive(b: Bundle)
      requires SlotsOk() && b in live && b.refcount == 0
      modifies `live
      ensures SlotsOk() && live == old(live) - {b}
    {
      UsedBounds(b.free);
      live := live - {b};
    }

    lemma SlotIsLive(s: Slot)
      requires SlotsOk() && s in handed
      ensures s.bundle in live && s.bundle.refcount >= 1
    {
      UsedBounds(s.bundle.free);
    }

    /** A bundle that has a free slot again: left in place if linked, else pushed at the head. */
    method Relink(b: Bundle)
      requires slots >= 2 && Linked() && SlotsOk() && listed <= live && b in live && 0 < b.refcount < slots
      requires forall x :: x in live && x != b ==> (x in listed <==> x.refcount < slots)
      requires forall x :: x in live - listed ==> x.next == null && x.prev == null
      requires forall i :: 0 <= i < |linked| - 1 ==> linked[i].refcount > 0
      requires b in listed <==> b == openBundle || b.prev != null || b.next != null
      requires respObjBytes == bufferSize * |live|
      modifies this, linked, b
      ensures Valid() && handed == old(handed) && live == old(live)
    {
      hide *;
      HeadOfList();
      if b == openBundle || b.prev != null || b.next != null {
        // already linked: left in place
      } else {
        ghost var was := linked;
        PushFront(b);
        assert forall i :: 0 < i < |linked| ==> linked[i] == was[i - 1];
      }
      MakeValid();
    }

    /** resp_free: the slot is free again. An emptied bundle goes back to the cache unless it is
        the only linked one; a full bundle rejoins the list at its head. */
    method RespFree(s: Slot)
      requires Valid() && s in handed
      modifies this, live
      ensures Valid() && handed == old(handed) - {s}
      ensures live == old(live) - (if old(s.bundle.refcount) == 1 && old(linked) != [s.bundle] then {s.bundle} else {})
    {
      hide *;
      OpenValid();
      var b := s.bundle;
      SlotIsLive(s);
      LinkedByPointers(b);
      HeadOfList();
      ghost var was := linked;
      GiveBack(s);
      assert forall i :: 0 <= i < |was| - 1 && was[i] != b ==> was[i].refcount > 0;
      if b.refcount == 0 {
        if b == openBundle && b.next == null {
          assert b.prev == null;
          HoldForReuse(b);
          MakeValid();
        } else {
          assert b.next != null || b.prev != null || b == openBundle;
          Release(b);
        }
        return;
      }
      Relink(b);
    }

    static lemma AtNeighbours(list: seq<Bundle>, i: nat)
      requires i < |list|
      ensures At(list, i) == list[i]
      ensures i == 0 ==> At(list, i - 1) == null
      ensures i > 0 ==> At(list, i - 1) == list[i - 1]
      ensures i + 1 < |list| ==> At(list, i + 1) == list[i + 1]
      ensures i + 1 == |list| ==> At(list, i + 1) == null
    {
    }

    static lemma AtRemove(list: seq<Bundle>, k: nat, i: int)
      requires k < |list| && i >= -1
      ensures At(RemoveAt(list, k), i) == At(list, if i < k then i else i + 1)
    {
    }
  }

  ghost function RemoveAt<T>(s: seq<T>, k: nat): (r: seq<T>)
    requires k < |s|
    ensures |r| == |s| - 1
    ensures forall i :: 0 <= i < |r| ==> r[i] == if i < k then s[i] else s[i + 1]
  {
    s[..k] + s[k + 1..]
  }

  lemma RemoveAtIndex<T>(s: seq<T>, k: nat, i: nat)
    requires k < |s| && i < |s| - 1
    ensures |RemoveAt(s, k)| == |s| - 1
    ensures RemoveAt(s, k)[i] == if i < k then s[i] else s[i + 1]
  {
  }

  /** Without its k-th element a list of distinct elements is still distinct, and lacks only that. */
  lemma RemoveMembers<T>(s: seq<T>, k: nat)
    requires k < |s| && forall i, j :: 0 <= i < j < |s| ==> s[i] != s[j]
    ensures forall i, j :: 0 <= i < j < |RemoveAt(s, k)| ==> RemoveAt(s, k)[i] != RemoveAt(s, k)[j]
    ensures forall x :: x in RemoveAt(s, k) <==> x in s && x != s[k]
  {
    var r := RemoveAt(s, k);
    forall x | x in s && x != s[k] ensures x in r {
      var i :| 0 <= i < |s| && s[i] == x;
      assert r[if i < k then i else i - 1] == x;
    }
  }

  /** Position i of a search that starts at `start` and goes around n places. */
  function Wrap(i: nat, start: nat, n: nat): (x: nat)
    requires n > 0
    ensures x < n
  {
    (i + start) % n
  }

  lemma WrapOnce(y: nat, n: nat)
    requires y < n
    ensures (y + n) % n == y
  {
  }

  /** The step of that search that visits y. */
  function Around(y: nat, start: nat, n: nat): (k: nat)
    requires y < n && start <= n
    ensures k < n && Wrap(k, start, n) == y
  {
    if y >= start then y - start
    else
      WrapOnce(y, n);
      y + n - start
  }

  // ---------------------------------------------------------- memory bound

  lemma {:induction false} OneSlotEach(bundles: set<Bundle>, slots: set<Slot>)
    requires forall b :: b in bundles ==> exists s :: s in slots && s.bundle == b
    ensures |bundles| <= |slots|
  {
    if bundles != {} {
      var b :| b in bundles;
      var s :| s in slots && s.bundle == b;
      forall c | c in bundles - {b} ensures exists t :: t in slots - {s} && t.bundle == c {
        var t :| t in slots && t.bundle == c;
        assert t in slots - {s};
      }
      OneSlotEach(bundles - {b}, slots - {s});
    }
  }

  /** The only bundle that may be empty: the last on the list. */
  ghost function Spare(th: Thread): set<Bundle>
    reads th`linked
  {
    if th.linked == [] then {} else {th.linked[|th.linked| - 1]}
  }

  lemma InUse(th: Thread, b: Bundle)
    requires th.Valid() && b in th.live - Spare(th)
    ensures exists s :: s in th.handed && s.bundle == b
  {
    hide Used, Thread.At;
    th.HeadOfList();
    if b in th.linked {
      var k :| 0 <= k < |th.linked| && th.linked[k] == b;
      assert k < |th.linked| - 1;
    }
    assert b.refcount > 0 && b.Counted(th.slots);
    UsedBounds(b.free);
    var i :| 0 <= i < |b.free| && !b.free[i];
    assert Slot(b, i) in th.handed;
  }

  /** Bundle memory follows the responses in flight: there is at most one bundle more than there
      are responses handed out, and the accounted bytes are exactly the live bundles. */
  lemma LiveBundlesBounded(th: Thread)
    requires th.Valid()
    ensures |th.live| <= |th.handed| + 1
    ensures th.respObjBytes == th.bufferSize * |th.live| <= th.bufferSize * (|th.handed| + 1)
  {
    hide *;
    forall b | b in th.live - Spare(th) ensures exists s :: s in th.handed && s.bundle == b {
      InUse(th, b);
    }
    OneSlotEach(th.live - Spare(th), th.handed);
    SpareIsOne(th);
    th.OpenValid();
    Scale(|th.live|, |th.handed| + 1, th.bufferSize);
  }

  lemma SpareIsOne(th: Thread)
    ensures |th.live| <= |th.live - Spare(th)| + 1
  {
    assert th.live <= (th.live - Spare(th)) + Spare(th);
    SubsetSize(th.live, (th.live - Spare(th)) + Spare(th));
  }

  lemma Scale(a: nat, b: nat, k: nat)
    requires a <= b
    ensures k * a <= k * b
  {
  }

  /** A full bundle is off the list, and any other is on it: allocation looks at the head only. */
  lemma HeadHasRoom(th: Thread)
    requires th.Valid()
    ensures th.openBundle == null <==> (forall b :: b in th.live ==> b.refcount == th.slots)
    ensures th.openBundle != null ==> th.openBundle in th.live && th.openBundle.refcount < th.slots
  {
    hide Used, Thread.At;
    th.OpenValid();
    th.HeadOfList();
    forall b | b in th.live ensures b.refcount <= th.slots {
      UsedBounds(b.free);
    }
    if th.openBundle == null {
      assert th.listed == {};
    }
  }
}
