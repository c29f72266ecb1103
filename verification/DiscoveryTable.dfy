/** The uncore discovery table of a socket: units are counted by type, room is allocated, and a
    second reading of the table fills it. */
module DiscoveryTable {
  import opened ByteStrings

  const MAX_BOX_TYPES: nat := 32

  /** A unit's entry: three words, of which the third holds the box type. */
  datatype Box = Box(word0: nat, word1: nat, boxType: nat, boxId: nat)

  /** One read of one entry. */
  datatype Cell = ReadFailed | Unit(box: Box)

  datatype Outcome = Done | TableUnreadable | NoMemory

  /** An entry that is there, is not blank, and has a type there is a list for. */
  predicate Counts(c: Cell, t: nat) {
    c.Unit? && !(c.box.word0 == 0 && c.box.word1 == 0) && c.box.boxType == t
  }

  /** The valid units of one type, in table order. */
  function UnitsOf(cells: seq<Cell>, t: nat): seq<Box> {
    if cells == [] then []
    else if Counts(cells[|cells| - 1], t) then UnitsOf(cells[..|cells| - 1], t) + [cells[|cells| - 1].box]
    else UnitsOf(cells[..|cells| - 1], t)
  }

  lemma UnitsSnoc(cells: seq<Cell>, c: Cell, t: nat)
    ensures UnitsOf(cells + [c], t) == if Counts(c, t) then UnitsOf(cells, t) + [c.box] else UnitsOf(cells, t)
  {
    assert (cells + [c])[..|cells|] == cells;
  }

  class BoxList {
    var pmus: array?<Box>
    var count: nat

    constructor ()
      ensures pmus == null && count == 0
    {
      pmus, count := null, 0;
    }

    /** What is listed. */
    ghost function Listed(): seq<Box>
      reads this, pmus
    {
      if pmus != null && count <= pmus.Length then pmus[..count] else []
    }
  }

  /** The first pass. */
  method CountUnits(first: seq<Cell>) returns (counts: array<nat>)
    ensures fresh(counts) && counts.Length == MAX_BOX_TYPES
    ensures forall t :: 0 <= t < MAX_BOX_TYPES ==> counts[t] == |UnitsOf(first, t)|
  {
    counts := new nat[MAX_BOX_TYPES](_ => 0);
    for u := 0 to |first|
      invariant forall t :: 0 <= t < MAX_BOX_TYPES ==> counts[t] == |UnitsOf(first[..u], t)|
    {
      assert first[..u + 1] == first[..u] + [first[u]];
      forall t {
        UnitsSnoc(first[..u], first[u], t);
      }
      if first[u].ReadFailed? || (first[u].box.word0 == 0 && first[u].box.word1 == 0) {
        continue;
      }
      var t := first[u].box.boxType;
      if t < MAX_BOX_TYPES {
        counts[t] := counts[t] + 1;
      }
    }
    assert first[..|first|] == first;
  }

  /** Lists of their own, one for every type. */
  ghost predicate Separate(lists: seq<BoxList>) {
    |lists| == MAX_BOX_TYPES && forall s, t :: 0 <= s < t < MAX_BOX_TYPES ==> lists[s] != lists[t]
  }

  /** Room as counted, in arrays of their own; types that were not counted are left alone. */
  ghost predicate Roomy(lists: seq<BoxList>, sizes: seq<nat>, n: nat)
    requires |lists| == |sizes| == MAX_BOX_TYPES && n <= MAX_BOX_TYPES
    reads lists
  {
    && (forall t :: 0 <= t < n && sizes[t] > 0 ==> lists[t].pmus != null && lists[t].pmus.Length == sizes[t])
    && (forall s, t :: 0 <= s < t < n && sizes[s] > 0 && sizes[t] > 0 ==> lists[s].pmus != lists[t].pmus)
  }

  /** A fresh, empty array for one list. */
  method GiveRoom(list: BoxList, size: nat)
    modifies list
    ensures list.pmus != null && fresh(list.pmus) && list.pmus.Length == size && list.count == 0
  {
    list.pmus := new Box[size](_ => Box(0, 0, 0, 0));
    list.count := 0;
  }

  method GiveRoomAt(lists: seq<BoxList>, i: nat, size: nat)
    requires Separate(lists) && i < MAX_BOX_TYPES
    modifies lists[i]
    ensures var list := lists[i]; list.pmus != null && fresh(list.pmus) && list.pmus.Length == size && list.count == 0
    ensures forall t :: 0 <= t < MAX_BOX_TYPES && t != i ==>
              lists[t].pmus == old(lists[t].pmus) && lists[t].count == old(lists[t].count)
  {
    GiveRoom(lists[i], size);
  }

  /** Allocation: every counted type gets an array of that size, unless memory runs out. */
  method Allocate(lists: seq<BoxList>, sizes: seq<nat>, memory: nat -> bool) returns (ok: bool)
    requires Separate(lists) && |sizes| == MAX_BOX_TYPES
    modifies lists
    ensures ok ==> Roomy(lists, sizes, MAX_BOX_TYPES)
    ensures ok ==> forall t :: 0 <= t < MAX_BOX_TYPES && sizes[t] > 0 ==> fresh(lists[t].pmus) && lists[t].count == 0
    ensures forall t :: 0 <= t < MAX_BOX_TYPES && sizes[t] == 0 ==>
              lists[t].pmus == old(lists[t].pmus) && lists[t].count == old(lists[t].count)
    ensures !ok <==> exists t :: 0 <= t < MAX_BOX_TYPES && sizes[t] > 0 && !memory(t)
  {
    assert |lists| == MAX_BOX_TYPES;
    hide Separate;
    for i := 0 to MAX_BOX_TYPES
      invariant Roomy(lists, sizes, i) && forall t :: 0 <= t < i && sizes[t] > 0 ==> memory(t)
      invariant forall t :: 0 <= t < i && sizes[t] > 0 ==> fresh(lists[t].pmus) && lists[t].count == 0
      invariant forall t :: 0 <= t < MAX_BOX_TYPES && (i <= t || sizes[t] == 0) ==>
                  lists[t].pmus == old(lists[t].pmus) && lists[t].count == old(lists[t].count)
    {
      if sizes[i] > 0 {
        if !memory(i) {
          return false;
        }
        GiveRoomAt(lists, i, sizes[i]);
      }
      assert Roomy(lists, sizes, i + 1);
    }
    return true;
  }

  /** A list holds the front of the units seen, as far as it has room. */
  ghost predicate Front(list: BoxList, units: seq<Box>, size: nat)
    reads list, list.pmus
  {
    && list.pmus != null && list.pmus.Length == size
    && list.count == Min(size, |units|)
    && list.pmus[..list.count] == units[..list.count]
  }

  /** One unit is added, if there is room. A type without room is left alone, whatever it holds. */
  method Put(list: BoxList, box: Box, size: nat, ghost units: seq<Box>)
    requires size > 0 ==> Front(list, units, size)
    modifies if size > 0 then {list, list.pmus} else {}
    ensures size > 0 ==> Front(list, units + [box], size) && list.pmus == old(list.pmus)
  {
    if list.pmus != null && list.count < size {
      list.pmus[list.count] := box;
      list.count := list.count + 1;
    }
  }

  /** The arrays that may be written. */
  ghost function Room(lists: seq<BoxList>, sizes: seq<nat>): set<object?>
    requires |lists| == |sizes|
    reads lists
  {
    set t | 0 <= t < |lists| && sizes[t] > 0 :: lists[t].pmus
  }

  /** Every list with room holds the front of its units. */
  ghost predicate Fronts(lists: seq<BoxList>, units: seq<seq<Box>>, sizes: seq<nat>)
    requires |lists| == |sizes| == |units|
    reads lists, Room(lists, sizes)
  {
    forall t :: 0 <= t < |lists| && sizes[t] > 0 ==> Front(lists[t], units[t], sizes[t])
  }

  /** One unit is added to the list of its type; the others stay as they are. */
  method PutIn(lists: seq<BoxList>, sizes: seq<nat>, t: nat, box: Box, ghost units: seq<seq<Box>>)
    requires Separate(lists) && |sizes| == |units| == MAX_BOX_TYPES && Roomy(lists, sizes, MAX_BOX_TYPES)
    requires t < MAX_BOX_TYPES && Fronts(lists, units, sizes)
    modifies lists, Room(lists, sizes)
    ensures Fronts(lists, units[t := units[t] + [box]], sizes) && Roomy(lists, sizes, MAX_BOX_TYPES)
    ensures forall s :: 0 <= s < MAX_BOX_TYPES ==> lists[s].pmus == old(lists[s].pmus)
    ensures forall s :: 0 <= s < MAX_BOX_TYPES && sizes[s] == 0 ==> lists[s].count == old(lists[s].count)
  {
    Put(lists[t], box, sizes[t], units[t]);
    forall s | 0 <= s < MAX_BOX_TYPES && s != t && sizes[s] > 0
      ensures Front(lists[s], units[s], sizes[s])
    {
    }
    hide Front;
  }

  /** The second pass: whatever it reads, no list outgrows its room, and each holds the first units
      of its type that were read. */
  method FillLists(lists: seq<BoxList>, sizes: seq<nat>, second: seq<Cell>)
    requires Separate(lists) && |sizes| == MAX_BOX_TYPES && Roomy(lists, sizes, MAX_BOX_TYPES)
    requires forall t :: 0 <= t < MAX_BOX_TYPES && sizes[t] > 0 ==> lists[t].count == 0
    modifies lists, Room(lists, sizes)
    ensures forall t :: 0 <= t < MAX_BOX_TYPES ==> lists[t].pmus == old(lists[t].pmus)
    ensures forall t :: 0 <= t < MAX_BOX_TYPES && sizes[t] > 0 ==> Front(lists[t], UnitsOf(second, t), sizes[t])
    ensures forall t :: 0 <= t < MAX_BOX_TYPES && sizes[t] == 0 ==> lists[t].count == old(lists[t].count)
  {
    hide UnitsOf, Counts, Front, Min, Roomy, ByType, Fronts;
    ghost var units := seq(MAX_BOX_TYPES, _ => []);
    NoUnits(units);
    NothingYet(lists, units, sizes);
    for u := 0 to |second|
      invariant |units| == MAX_BOX_TYPES && ByType(units, second[..u])
      invariant forall t :: 0 <= t < MAX_BOX_TYPES ==> lists[t].pmus == old(lists[t].pmus)
      invariant Roomy(lists, sizes, MAX_BOX_TYPES) && Fronts(lists, units, sizes)
      invariant forall t :: 0 <= t < MAX_BOX_TYPES && sizes[t] == 0 ==> lists[t].count == old(lists[t].count)
    {
      var cell := second[u];
      assert second[..u + 1] == second[..u] + [cell];
      NextUnits(units, second[..u], cell);
      if cell.ReadFailed? || (cell.box.word0 == 0 && cell.box.word1 == 0) {
        continue;
      }
      var t := cell.box.boxType;
      if t < MAX_BOX_TYPES {
        PutIn(lists, sizes, t, cell.box, units);
        units := units[t := units[t] + [cell.box]];
      }
    }
    assert second[..|second|] == second;
    AllFronts(lists, units, sizes, second);
  }

  lemma NothingYet(lists: seq<BoxList>, units: seq<seq<Box>>, sizes: seq<nat>)
    requires |lists| == |sizes| == |units| == MAX_BOX_TYPES && Roomy(lists, sizes, MAX_BOX_TYPES)
    requires forall t :: 0 <= t < MAX_BOX_TYPES ==> units[t] == [] && (sizes[t] > 0 ==> lists[t].count == 0)
    ensures Fronts(lists, units, sizes)
  {
  }

  lemma AllFronts(lists: seq<BoxList>, units: seq<seq<Box>>, sizes: seq<nat>, cells: seq<Cell>)
    requires |lists| == |sizes| == |units| == MAX_BOX_TYPES && Fronts(lists, units, sizes) && ByType(units, cells)
    ensures forall t :: 0 <= t < MAX_BOX_TYPES && sizes[t] > 0 ==> Front(lists[t], UnitsOf(cells, t), sizes[t])
  {
    hide Front, UnitsOf;
  }

  /** The units read so far, type by type. */
  ghost predicate ByType(units: seq<seq<Box>>, cells: seq<Cell>) {
    |units| == MAX_BOX_TYPES && forall t :: 0 <= t < MAX_BOX_TYPES ==> units[t] == UnitsOf(cells, t)
  }

  lemma NoUnits(units: seq<seq<Box>>)
    requires |units| == MAX_BOX_TYPES && forall t :: 0 <= t < MAX_BOX_TYPES ==> units[t] == []
    ensures ByType(units, [])
  {
  }

  lemma NextUnits(units: seq<seq<Box>>, cells: seq<Cell>, c: Cell)
    requires ByType(units, cells)
    ensures |units| == MAX_BOX_TYPES
    ensures ByType(if c.Unit? && !(c.box.word0 == 0 && c.box.word1 == 0) && c.box.boxType < MAX_BOX_TYPES
                   then units[c.box.boxType := units[c.box.boxType] + [c.box]] else units, cells + [c])
  {
    hide UnitsOf;
    forall t {
      UnitsSnoc(cells, c, t);
    }
  }

  // -------------------------------------------------------------- the whole

  /** process_socket_discovery_table, given what the two passes read. If it succeeds, the list of
      every type counted in the first pass has exactly the room counted and holds the first units
      of its type that the second pass read; every other list is as it was. */
  method ProcessSocket(globalReadable: bool, first: seq<Cell>, second: seq<Cell>, lists: seq<BoxList>, memory: nat -> bool)
    returns (outcome: Outcome)
    requires Separate(lists) && |first| == |second|
    modifies lists
    ensures outcome == TableUnreadable <==> !globalReadable
    ensures outcome == TableUnreadable ==> forall t :: 0 <= t < MAX_BOX_TYPES ==> lists[t].count == old(lists[t].count)
    ensures outcome == NoMemory <==> globalReadable && exists t :: 0 <= t < MAX_BOX_TYPES && |UnitsOf(first, t)| > 0 && !memory(t)
    ensures outcome == Done ==> forall t :: 0 <= t < MAX_BOX_TYPES && |UnitsOf(first, t)| > 0 ==>
              Front(lists[t], UnitsOf(second, t), |UnitsOf(first, t)|)
    ensures outcome == Done ==> forall t :: 0 <= t < MAX_BOX_TYPES && |UnitsOf(first, t)| == 0 ==>
              lists[t].pmus == old(lists[t].pmus) && lists[t].count == old(lists[t].count)
  {
    hide UnitsOf;
    if !globalReadable {
      return TableUnreadable;
    }
    var counts := CountUnits(first);
    var ok := Allocate(lists, counts[..], memory);
    if !ok {
      return NoMemory;
    }
    FillLists(lists, counts[..], second);
    return Done;
  }

  /** Where both passes read the same table, each list is complete: the valid units of its type, in
      table order, and as many as were counted. */
  lemma SameTableIsComplete(list: BoxList, table: seq<Cell>, t: nat)
    requires Front(list, UnitsOf(table, t), |UnitsOf(table, t)|)
    ensures list.count == |UnitsOf(table, t)| && list.Listed() == UnitsOf(table, t)
  {
    hide UnitsOf;
    var units := UnitsOf(table, t);
    assert units[..|units|] == units;
  }

  /** Where they differ, the list is full exactly when the second pass read at least as many units
      as were counted; and then it leaves out all that follow. */
  lemma FullExactly(list: BoxList, first: seq<Cell>, second: seq<Cell>, t: nat)
    requires Front(list, UnitsOf(second, t), |UnitsOf(first, t)|)
    ensures list.count == |UnitsOf(first, t)| <==> |UnitsOf(second, t)| >= |UnitsOf(first, t)|
    ensures list.Listed() == UnitsOf(second, t) <==> |UnitsOf(second, t)| <= |UnitsOf(first, t)|
  {
    hide UnitsOf;
    var units := UnitsOf(second, t);
    assert units[..|units|] == units;
  }

  /** The units of a type are the entries at the rising positions where one is valid. */
  ghost predicate Picks(positions: seq<nat>, cells: seq<Cell>, t: nat) {
    && |positions| == |UnitsOf(cells, t)|
    && (forall k :: 0 <= k < |positions| ==> positions[k] < |cells| && Counts(cells[positions[k]], t)
                                             && UnitsOf(cells, t)[k] == cells[positions[k]].box)
    && (forall j, k :: 0 <= j < k < |positions| ==> positions[j] < positions[k])
    && (forall u: nat :: u < |cells| && Counts(cells[u], t) ==> u in positions)
  }

  lemma {:induction false} UnitsAreSubsequence(cells: seq<Cell>, t: nat) returns (positions: seq<nat>)
    ensures Picks(positions, cells, t)
  {
    if cells == [] {
      positions := [];
    } else {
      var n := |cells| - 1;
      var front := cells[..n];
      positions := UnitsAreSubsequence(front, t);
      assert forall u: nat :: u < n ==> front[u] == cells[u];
      if Counts(cells[n], t) {
        positions := positions + [n];
        assert positions[|positions| - 1] == n;
      }
    }
  }
}
