/** Resource monitoring ids per core: a table scanned by one reader and indexed through a map by
    another, and the register field that carries the id on each core. */
module RmidTable {
  import opened Options
  import opened ByteStrings
  import opened Division

  const MAX_CORES: nat := 255

  type u32 = x: int | 0 <= x < 0x1_0000_0000
  type u64 = x: int | 0 <= x < 0x1_0000_0000_0000_0000

  const RMID0: u32 := 0

  datatype RmidInfo = RmidInfo(rmid: u32, coreId: nat, inUse: bool, lastTotal: nat, lastLocal: nat)

  /** The field that PQR_ASSOC_RMID_MASK, the low ten bits, selects; and the other bits. */
  function Field(val: u64): nat {
    val % 1024
  }

  function Others(val: u64): nat {
    val / 1024
  }

  function Masked(rmid: u32): nat {
    rmid % 1024
  }

  /** mbm_set_rmid: the id field of the register is replaced and its other bits are kept. */
  function SetField(val: u64, rmid: u32): u64 {
    val - val % 1024 + rmid % 1024
  }

  function Bit(v: nat, i: nat): nat {
    if i == 0 then v % 2 else Bit(v / 2, i - 1)
  }

  function Pow2(n: nat): nat {
    if n == 0 then 1 else 2 * Pow2(n - 1)
  }

  lemma {:induction false} Pow2Positive(n: nat)
    ensures Pow2(n) > 0
  {
    if n > 0 {
      Pow2Positive(n - 1);
    }
  }

  /** The low n bits of one number and the others of another. */
  function SetLow(v: nat, r: nat, n: nat): nat {
    Pow2Positive(n);
    RemainderFits(v, Pow2(n));
    v - v % Pow2(n) + r % Pow2(n)
  }

  lemma HalfOfSetLow(v: nat, r: nat, n: nat)
    requires n > 0
    ensures SetLow(v, r, n) % 2 == r % 2 && SetLow(v, r, n) / 2 == SetLow(v / 2, r / 2, n - 1)
  {
    Pow2Positive(n - 1);
    HalfRemainder(v, Pow2(n - 1));
    HalfRemainder(r, Pow2(n - 1));
    HalvesAdd(v, (v / 2) % Pow2(n - 1), r, (r / 2) % Pow2(n - 1));
  }

  lemma HalvesAdd(v: nat, m: nat, r: nat, k: nat)
    ensures (v - (2 * m + v % 2) + 2 * k + r % 2) % 2 == r % 2
    ensures (v - (2 * m + v % 2) + 2 * k + r % 2) / 2 == v / 2 - m + k
  {
  }

  lemma {:induction false} BitsOfSetLow(v: nat, r: nat, n: nat, i: nat)
    ensures Bit(SetLow(v, r, n), i) == if i < n then Bit(r, i) else Bit(v, i)
  {
    if n == 0 {
      assert Pow2(0) == 1;
    } else {
      HalfOfSetLow(v, r, n);
      if i > 0 {
        BitsOfSetLow(v / 2, r / 2, n - 1, i - 1);
      }
    }
  }

  /** Bit by bit this is what the mask and the or make of the register: the ten bits under the mask
      come from the id, every other bit is as it was. */
  lemma BitsOfSet(val: u64, rmid: u32, i: nat)
    ensures Bit(SetField(val, rmid), i) == if i < 10 then Bit(rmid, i) else Bit(val, i)
  {
    assert Pow2(4) == 16 && Pow2(7) == 128 && Pow2(10) == 1024;
    BitsOfSetLow(val, rmid, 10, i);
  }

  lemma FieldOfSet(val: u64, rmid: u32)
    ensures Field(SetField(val, rmid)) == Masked(rmid)
    ensures Others(SetField(val, rmid)) == Others(val)
  {
    assert SetField(val, rmid) == 1024 * (val / 1024) + rmid % 1024;
  }

  /** CPUs in the order in which the kernel lists them. */
  ghost predicate Ascending(cpus: seq<nat>) {
    && (forall i, j :: 0 <= i < j < |cpus| ==> cpus[i] < cpus[j])
    && (forall i :: 0 <= i < |cpus| ==> cpus[i] < MAX_CORES)
  }

  lemma {:induction false} AscendingFits(cpus: seq<nat>, n: nat)
    requires (forall i, j :: 0 <= i < j < |cpus| ==> cpus[i] < cpus[j])
    requires forall i :: 0 <= i < |cpus| ==> cpus[i] < n
    ensures |cpus| <= n
  {
    if |cpus| > 0 {
      AscendingFits(cpus[..|cpus| - 1], cpus[|cpus| - 1]);
    }
  }

  /** mbm_get_rmid_info_for_core: through the map, and checked at the other end. */
  function Lookup(table: seq<RmidInfo>, coreToRmid: seq<nat>, core: nat): (i: Option<nat>)
    requires |table| == |coreToRmid| == MAX_CORES
    ensures i.Some? ==> i.value < MAX_CORES && table[i.value].inUse && table[i.value].coreId == core
  {
    if core >= MAX_CORES then None
    else
      var idx := coreToRmid[core];
      if idx >= MAX_CORES then None
      else if table[idx].inUse && table[idx].coreId == core then Some(idx)
      else None
  }

  /** The id a core reports under; no entry means id 0. */
  function RmidOf(table: seq<RmidInfo>, coreToRmid: seq<nat>, core: nat): u32
    requires |table| == |coreToRmid| == MAX_CORES
  {
    var i := Lookup(table, coreToRmid, core);
    if i.None? then RMID0 else table[i.value].rmid
  }

  /** The first n entries are in use, for the first n online CPUs in their order, and the map leads
      back from each of these. */
  ghost predicate Indexed(table: seq<RmidInfo>, coreToRmid: seq<nat>, online: seq<nat>, n: nat)
    requires |table| == |coreToRmid| == MAX_CORES && Ascending(online)
  {
    && n <= |online| && n <= MAX_CORES
    && (forall i :: 0 <= i < n ==> table[i].inUse && table[i].coreId == online[i] && coreToRmid[online[i]] == i)
    && (forall i :: n <= i < MAX_CORES ==> !table[i].inUse)
  }

  lemma LookupIs(table: seq<RmidInfo>, coreToRmid: seq<nat>, online: seq<nat>, n: nat, core: nat)
    requires |table| == |coreToRmid| == MAX_CORES && Ascending(online)
    requires Indexed(table, coreToRmid, online, n)
    ensures core !in online[..n] ==> Lookup(table, coreToRmid, core) == None && RmidOf(table, coreToRmid, core) == RMID0
    ensures forall i :: 0 <= i < n && online[i] == core ==>
              Lookup(table, coreToRmid, core) == Some(i) && RmidOf(table, coreToRmid, core) == table[i].rmid
  {
  }

  /** The id field of every online CPU is the id it reports under. */
  ghost predicate Fields(table: seq<RmidInfo>, coreToRmid: seq<nat>, online: seq<nat>, pqr: seq<u64>)
    requires |table| == |coreToRmid| == |pqr| == MAX_CORES && Ascending(online)
  {
    forall i :: 0 <= i < |online| ==> Field(pqr[online[i]]) == Masked(RmidOf(table, coreToRmid, online[i]))
  }

  /** No bit beside that field has changed on any CPU. */
  ghost predicate Untouched(pqr: seq<u64>, initial: seq<u64>) {
    |pqr| == |initial| && forall c :: 0 <= c < |pqr| ==> Others(pqr[c]) == Others(initial[c])
  }

  lemma SetKeepsOthers(pqr: seq<u64>, initial: seq<u64>, cpu: nat, rmid: u32)
    requires Untouched(pqr, initial) && cpu < |pqr|
    ensures Untouched(pqr[cpu := SetField(pqr[cpu], rmid)], initial)
  {
    hide Field, Others, SetField;
    FieldOfSet(pqr[cpu], rmid);
  }

  lemma SetEntry(table: seq<RmidInfo>, coreToRmid: seq<nat>, online: seq<nat>, n: nat, i: nat, rmid: u32, pqr: seq<u64>)
    requires |table| == |coreToRmid| == |pqr| == MAX_CORES && Ascending(online)
    requires Indexed(table, coreToRmid, online, n) && i < n && Fields(table, coreToRmid, online, pqr)
    ensures var table' := table[i := table[i].(rmid := rmid, inUse := true)];
            && Indexed(table', coreToRmid, online, n)
            && (forall c: nat :: RmidOf(table', coreToRmid, c) == if c == online[i] then rmid else RmidOf(table, coreToRmid, c))
            && Fields(table', coreToRmid, online, pqr[online[i] := SetField(pqr[online[i]], rmid)])
  {
    hide Field, Masked, SetField;
    var table' := table[i := table[i].(rmid := rmid, inUse := true)];
    forall c: nat
      ensures RmidOf(table', coreToRmid, c) == if c == online[i] then rmid else RmidOf(table, coreToRmid, c)
    {
    }
    FieldOfSet(pqr[online[i]], rmid);
  }

  class RmidManager {
    const online: seq<nat>
    const maxRmid: nat
    const table: array<RmidInfo>
    const coreToRmid: array<nat>
    var numCores: nat
    /** The association register of every CPU, and what it held at the start. */
    var pqr: seq<u64>
    ghost const initial: seq<u64>

    ghost predicate Shape()
      reads this
    {
      Ascending(online) && table.Length == coreToRmid.Length == |pqr| == |initial| == MAX_CORES
    }

    ghost predicate Valid()
      reads this, table, coreToRmid
    {
      && Shape()
      && (numCores == 0 || numCores == Quota(online, maxRmid))
      && Indexed(table[..], coreToRmid[..], online, numCores)
      && Fields(table[..], coreToRmid[..], online, pqr)
      && Untouched(pqr, initial)
    }

    ghost function Rmid(core: nat): u32
      requires Shape()
      reads this, table, coreToRmid
    {
      RmidOf(table[..], coreToRmid[..], core)
    }

    /** mbm_rmid_init up to the allocation: everything zero, and every online CPU at id 0. */
    constructor (online: seq<nat>, maxRmid: nat, registers: seq<u64>)
      requires Ascending(online) && |registers| == MAX_CORES
      ensures Valid() && this.online == online && this.maxRmid == maxRmid && initial == registers && numCores == 0
      ensures fresh(table) && fresh(coreToRmid)
    {
      this.online, this.maxRmid, pqr, initial := online, maxRmid, registers, registers;
      table := new RmidInfo[MAX_CORES](_ => RmidInfo(0, 0, false, 0, 0));
      coreToRmid := new nat[MAX_CORES](_ => 0);
      numCores := 0;
      new;
      ClearAssoc();
      hide Field, Masked, Others, Untouched;
      MaskedZero();
    }

    /** mbm_rmid_clear_assoc: once for every id there is, every online CPU goes back to id 0. */
    method ClearAssoc()
      requires Shape() && Untouched(pqr, initial)
      modifies `pqr
      ensures |pqr| == MAX_CORES && Untouched(pqr, initial)
      ensures forall i :: 0 <= i < |online| ==> Field(pqr[online[i]]) == 0
    {
      hide Field, Masked, Untouched, SetField;
      MaskedZero();
      for rmid := 0 to maxRmid + 1
        invariant |pqr| == MAX_CORES && Untouched(pqr, initial)
        invariant rmid > 0 ==> forall i :: 0 <= i < |online| ==> Field(pqr[online[i]]) == 0
      {
        ghost var p := pqr;
        ProgramNone(p, online, Zeros(|online|));
        for i := 0 to |online|
          invariant Programmed(p, pqr, online, Zeros(|online|), i) && Untouched(pqr, initial)
        {
          SetKeepsOthers(pqr, initial, online[i], RMID0);
          ProgramStep(p, pqr, online, Zeros(|online|), i);
          SetRmidOn(online[i], RMID0);
        }
      }
    }

    /** mbm_get_rmid_info_for_core: an entry is found exactly for the managed cores, and it is the
        core's own; the scan of the table finds no other. */
    method GetRmidInfo(core: nat) returns (i: Option<nat>)
      requires Shape() && Indexed(table[..], coreToRmid[..], online, numCores)
      ensures i.Some? <==> core in online[..numCores]
      ensures i.Some? ==> i.value < numCores && online[i.value] == core
                          && table[i.value].coreId == core && table[i.value].inUse && Rmid(core) == table[i.value].rmid
      ensures i.None? ==> Rmid(core) == RMID0
      ensures i == Lookup(table[..], coreToRmid[..], core)
    {
      LookupIs(table[..], coreToRmid[..], online, numCores, core);
      if core >= MAX_CORES {
        return None;
      }
      var idx := coreToRmid[core];
      if idx >= MAX_CORES {
        return None;
      }
      if table[idx].inUse && table[idx].coreId == core {
        return Some(idx);
      }
      return None;
    }

    /** mbm_rmid_get_for_core: the scan finds what the map leads to, for every core. */
    method GetForCore(core: nat) returns (rmid: u32)
      requires Valid()
      ensures rmid == Rmid(core)
    {
      LookupIs(table[..], coreToRmid[..], online, numCores, core);
      hide Fields, Untouched, Lookup, RmidOf;
      for i := 0 to numCores
        invariant forall j :: 0 <= j < i ==> online[j] != core
      {
        assert table[..][i] == table[i];
        if table[i].inUse && table[i].coreId == core {
          return table[i].rmid;
        }
      }
      return RMID0;
    }

    /** mbm_set_rmid, run on one CPU. */
    method SetRmidOn(cpu: nat, rmid: u32)
      requires cpu < |pqr|
      modifies `pqr
      ensures pqr == old(pqr)[cpu := SetField(old(pqr)[cpu], rmid)]
    {
      pqr := pqr[cpu := SetField(pqr[cpu], rmid)];
    }

    /** mbm_set_rmid_for_core. On an online core the register is written; on any other the call
        does nothing. Without an entry the source then follows a null pointer; here it reports
        that. */
    method SetRmidForCore(core: nat, rmid: u32) returns (found: bool)
      requires Valid()
      modifies `pqr, table
      ensures found <==> core in online[..numCores]
      ensures core in online ==> core < MAX_CORES && pqr == old(pqr)[core := SetField(old(pqr)[core], rmid)]
      ensures core !in online ==> pqr == old(pqr)
      ensures found ==> Valid() && forall c: nat :: Rmid(c) == if c == core then rmid else old(Rmid(c))
      ensures !found ==> table[..] == old(table[..])
    {
      ghost var t, m, p := table[..], coreToRmid[..], pqr;
      hide Ascending, Indexed, Fields, Untouched, SetField, Lookup, RmidOf;
      if core !in online {
        var none := GetRmidInfo(core);
        assert none.None?;
        return false;
      }
      OnlineFits(online, core);
      SetRmidOn(core, rmid);
      SetAnywhere(t, m, online, numCores, core, rmid, p, initial);
      var i := GetRmidInfo(core);
      if i.None? {
        return false;
      }
      table[i.value] := table[i.value].(rmid := rmid, inUse := true);
      assert table[..] == t[i.value := t[i.value].(rmid := rmid, inUse := true)];
      return true;
    }

    /** mbm_rmid_deallocate_all: no core is managed, and every online CPU is back at id 0. */
    method DeallocateAll()
      requires Valid()
      modifies `numCores, `pqr, table
      ensures Valid() && numCores == 0
      ensures forall c: nat :: Rmid(c) == RMID0
      ensures forall i :: 0 <= i < |online| ==> Field(pqr[online[i]]) == 0
    {
      ghost var t, m, p := table[..], coreToRmid[..], pqr;
      hide Fields, Untouched, SetField, Lookup, RmidOf, Field, Masked;
      for i := 0 to numCores
        invariant numCores == old(numCores)
        invariant Released(t, table[..], i)
        invariant Programmed(p, pqr, online, Zeros(|online|), i) && Untouched(pqr, initial)
      {
        if table[i].inUse {
          SetKeepsOthers(pqr, initial, table[i].coreId, RMID0);
          ProgramStep(p, pqr, online, Zeros(|online|), i);
          SetRmidOn(table[i].coreId, RMID0);
          table[i] := table[i].(inUse := false);
        }
      }
      numCores := 0;
      NothingManaged(t, table[..], m, online, old(numCores), p, pqr);
    }

    /** All entries are dropped and the map forgets what it knew. */
    method ClearTable()
      requires Shape()
      modifies table, coreToRmid
      ensures forall i :: 0 <= i < MAX_CORES ==> !table[i].inUse && coreToRmid[i] == MAX_CORES - 1
    {
      for cpu := 0 to MAX_CORES
        invariant forall i :: 0 <= i < cpu ==> !table[i].inUse && coreToRmid[i] == MAX_CORES - 1
      {
        table[cpu] := table[cpu].(inUse := false, rmid := 0);
        coreToRmid[cpu] := MAX_CORES - 1;
      }
    }

    /** mbm_rmid_allocate_all_cores: the first online CPUs, as many as there are ids, get one of
        their own, in the table and in their register. */
    method AllocateAllCores()
      requires Valid()
      modifies `numCores, `pqr, table, coreToRmid
      ensures Valid() && numCores == Min(|online|, maxRmid + 1)
      ensures forall i :: 0 <= i < numCores ==> Rmid(online[i]) == online[i] + 1
      ensures forall i, j :: 0 <= i < j < numCores ==> Field(pqr[online[i]]) != Field(pqr[online[j]])
      ensures forall c: nat :: c !in online[..numCores] ==> Rmid(c) == RMID0
    {
      ghost var t, m, p := table[..], coreToRmid[..], pqr;
      AscendingFits(online, MAX_CORES);
      ClearTable();
      assert Assigned(table[..], coreToRmid[..], online, 0);
      hide Fields, Untouched, SetField, Lookup, RmidOf, Field, Masked, Id, Indexed, Assigned, Ascending, Programmed;
      ProgramNone(p, online, Ids(online));
      var n := 0;
      while n < |online|
        invariant n <= Quota(online, maxRmid)
        invariant Assigned(table[..], coreToRmid[..], online, n)
        invariant Programmed(p, pqr, online, Ids(online), n) && Untouched(pqr, initial)
      {
        var cpu := online[n];
        if n > maxRmid {
          break;
        }
        OnlineFits(online, cpu);
        SetKeepsOthers(pqr, initial, cpu, Id(cpu));
        ProgramStep(p, pqr, online, Ids(online), n);
        AssignStep(table[..], coreToRmid[..], online, n, RmidInfo(Id(cpu), cpu, true, 0, 0));
        table[n] := RmidInfo(Id(cpu), cpu, true, 0, 0);
        SetRmidOn(cpu, table[n].rmid);
        coreToRmid[cpu] := n;
        n := n + 1;
      }
      numCores := n;
      AllManaged(t, table[..], m, coreToRmid[..], online, old(numCores), n, p, pqr);
      OthersAtZero(table[..], coreToRmid[..], online, n);
      IdsAre(online);
      FieldsDiffer(p, pqr, online, n);
    }

    /** mbm_rmid_init: a cleared manager, if there is room for its table, and then the ids allocated. */
    static method Init(online: seq<nat>, maxRmid: nat, registers: seq<u64>, hasMemory: bool) returns (m: RmidManager?)
      requires Ascending(online) && |registers| == MAX_CORES
      ensures m == null <==> !hasMemory
      ensures m != null ==> fresh(m) && m.Valid() && m.online == online && m.maxRmid == maxRmid && m.initial == registers
      ensures m != null ==> m.numCores == Min(|online|, maxRmid + 1)
      ensures m != null ==> forall i :: 0 <= i < m.numCores ==> m.Rmid(online[i]) == online[i] + 1
    {
      if !hasMemory {
        return null;
      }
      var manager := new RmidManager(online, maxRmid, registers);
      manager.AllocateAllCores();
      m := manager;
    }
  }

  /** Ids are distinct in the registers too: no two managed cores share one. */
  lemma FieldsDiffer(was: seq<u64>, pqr: seq<u64>, online: seq<nat>, n: nat)
    requires Ascending(online) && n <= |online| && Programmed(was, pqr, online, Ids(online), n)
    ensures forall i, j :: 0 <= i < j < n ==> Field(pqr[online[i]]) != Field(pqr[online[j]])
  {
    hide Field;
    forall i, j | 0 <= i < j < n
      ensures Field(pqr[online[i]]) != Field(pqr[online[j]])
    {
      assert Field(pqr[online[i]]) == Masked(Id(online[i])) == online[i] + 1;
      assert Field(pqr[online[j]]) == Masked(Id(online[j])) == online[j] + 1;
    }
  }

  lemma ProgramNone(p: seq<u64>, online: seq<nat>, ids: seq<u32>)
    requires |p| == MAX_CORES && Ascending(online) && |ids| == |online|
    ensures Programmed(p, p, online, ids, 0)
  {
  }

  lemma OthersAtZero(table: seq<RmidInfo>, coreToRmid: seq<nat>, online: seq<nat>, n: nat)
    requires Assigned(table, coreToRmid, online, n)
    ensures Indexed(table, coreToRmid, online, n)
    ensures forall c: nat :: c !in online[..n] ==> RmidOf(table, coreToRmid, c) == RMID0
  {
    hide RmidOf, Lookup;
    forall c: nat | c !in online[..n]
      ensures RmidOf(table, coreToRmid, c) == RMID0
    {
      LookupIs(table, coreToRmid, online, n, c);
    }
  }

  /** Part of the entries are released. */
  ghost predicate Released(was: seq<RmidInfo>, table: seq<RmidInfo>, i: nat) {
    && |was| == |table| == MAX_CORES
    && forall j :: 0 <= j < MAX_CORES ==> table[j] == if j < i then was[j].(inUse := false) else was[j]
  }

  /** Part of the registers carry these ids, the others are as they were. */
  ghost predicate Programmed(was: seq<u64>, pqr: seq<u64>, online: seq<nat>, ids: seq<u32>, i: nat) {
    && |was| == |pqr| == MAX_CORES && Ascending(online) && |ids| == |online|
    && forall j :: 0 <= j < |online| ==>
         if j < i then Field(pqr[online[j]]) == Masked(ids[j]) else pqr[online[j]] == was[online[j]]
  }

  lemma ProgramStep(was: seq<u64>, pqr: seq<u64>, online: seq<nat>, ids: seq<u32>, i: nat)
    requires Programmed(was, pqr, online, ids, i) && i < |online|
    ensures Programmed(was, pqr[online[i] := SetField(pqr[online[i]], ids[i])], online, ids, i + 1)
  {
    hide Field, SetField, Masked;
    FieldOfSet(pqr[online[i]], ids[i]);
  }

  function Zeros(n: nat): (ids: seq<u32>)
    ensures |ids| == n && forall i :: 0 <= i < n ==> ids[i] == RMID0
  {
    seq(n, _ => RMID0)
  }

  lemma MaskedZero()
    ensures Masked(RMID0) == 0
  {
  }

  lemma NothingManaged(was: seq<RmidInfo>, table: seq<RmidInfo>, coreToRmid: seq<nat>, online: seq<nat>, n: nat,
                       p: seq<u64>, pqr: seq<u64>)
    requires |was| == |table| == |coreToRmid| == |p| == |pqr| == MAX_CORES && Ascending(online)
    requires Indexed(was, coreToRmid, online, n) && Released(was, table, n)
    requires Fields(was, coreToRmid, online, p) && Programmed(p, pqr, online, Zeros(|online|), n)
    ensures Indexed(table, coreToRmid, online, 0) && Fields(table, coreToRmid, online, pqr)
    ensures forall c: nat :: RmidOf(table, coreToRmid, c) == RMID0
    ensures forall i :: 0 <= i < |online| ==> Field(pqr[online[i]]) == 0
  {
    hide Field, Masked;
    MaskedZero();
    forall c: nat
      ensures RmidOf(table, coreToRmid, c) == RMID0
    {
      hide RmidOf, Lookup;
      LookupIs(table, coreToRmid, online, 0, c);
    }
    forall i | n <= i < |online|
      ensures Field(p[online[i]]) == 0
    {
      UnmanagedIsZero(was, coreToRmid, online, n, p, i);
    }
  }

  lemma UnmanagedIsZero(table: seq<RmidInfo>, coreToRmid: seq<nat>, online: seq<nat>, n: nat, pqr: seq<u64>, i: nat)
    requires |table| == |coreToRmid| == |pqr| == MAX_CORES && Ascending(online)
    requires Indexed(table, coreToRmid, online, n) && Fields(table, coreToRmid, online, pqr) && n <= i < |online|
    ensures Field(pqr[online[i]]) == 0
  {
    hide Field, Masked, RmidOf, Lookup;
    MaskedZero();
    LookupIs(table, coreToRmid, online, n, online[i]);
  }

  /** The id of a CPU when ids are allocated: id 0 is reserved. */
  function Id(cpu: nat): u32
    requires cpu < MAX_CORES
  {
    cpu + 1
  }

  function Ids(online: seq<nat>): (ids: seq<u32>)
    requires Ascending(online)
    ensures |ids| == |online| && forall i :: 0 <= i < |ids| ==> ids[i] == Id(online[i])
  {
    seq(|online|, i requires 0 <= i < |online| => Id(online[i]))
  }

  lemma IdsAre(online: seq<nat>)
    requires Ascending(online)
    ensures forall i :: 0 <= i < |online| ==> online[i] < MAX_CORES && Id(online[i]) == online[i] + 1
  {
  }

  /** How many cores get an id. */
  function Quota(online: seq<nat>, maxRmid: nat): nat {
    if |online| <= maxRmid + 1 then |online| else maxRmid + 1
  }

  /** The first i cores are entered, each under its own id. */
  ghost predicate Assigned(table: seq<RmidInfo>, coreToRmid: seq<nat>, online: seq<nat>, i: nat) {
    && |table| == |coreToRmid| == MAX_CORES && Ascending(online)
    && Indexed(table, coreToRmid, online, i)
    && forall j :: 0 <= j < i ==> table[j].rmid == Id(online[j])
  }

  lemma AssignStep(table: seq<RmidInfo>, coreToRmid: seq<nat>, online: seq<nat>, i: nat, entry: RmidInfo)
    requires Assigned(table, coreToRmid, online, i) && i < |online| && i < MAX_CORES
    requires entry.inUse && entry.coreId == online[i] && entry.rmid == Id(online[i])
    ensures Assigned(table[i := entry], coreToRmid[online[i] := i], online, i + 1)
  {
    hide Id;
  }

  lemma AllManaged(was: seq<RmidInfo>, table: seq<RmidInfo>, map0: seq<nat>, coreToRmid: seq<nat>, online: seq<nat>,
                   m: nat, n: nat, p: seq<u64>, pqr: seq<u64>)
    requires |was| == |map0| == MAX_CORES && Ascending(online) && m <= n
    requires |p| == MAX_CORES && Indexed(was, map0, online, m) && Fields(was, map0, online, p)
    requires Assigned(table, coreToRmid, online, n) && Programmed(p, pqr, online, Ids(online), n)
    ensures Fields(table, coreToRmid, online, pqr)
    ensures forall i :: 0 <= i < n ==> RmidOf(table, coreToRmid, online[i]) == Id(online[i])
  {
    hide Field, Masked, Id, RmidOf, Lookup;
    MaskedZero();
    forall i | 0 <= i < |online|
      ensures Field(pqr[online[i]]) == Masked(RmidOf(table, coreToRmid, online[i]))
      ensures i < n ==> RmidOf(table, coreToRmid, online[i]) == Id(online[i])
    {
      LookupIs(table, coreToRmid, online, n, online[i]);
      if i >= n {
        UnmanagedIsZero(was, map0, online, m, p, i);
      }
    }
  }

  lemma OnlineFits(online: seq<nat>, core: nat)
    requires Ascending(online) && core in online
    ensures core < MAX_CORES
  {
  }

  /** What setting the id of a core does, managed or not. */
  lemma SetAnywhere(table: seq<RmidInfo>, coreToRmid: seq<nat>, online: seq<nat>, n: nat, core: nat, rmid: u32,
                    pqr: seq<u64>, initial: seq<u64>)
    requires |table| == |coreToRmid| == |pqr| == MAX_CORES && Ascending(online) && core < MAX_CORES
    requires Indexed(table, coreToRmid, online, n) && Fields(table, coreToRmid, online, pqr) && Untouched(pqr, initial)
    ensures var i := Lookup(table, coreToRmid, core);
            && (i.Some? <==> core in online[..n])
            && (i.Some? ==> i.value < MAX_CORES)
            && Untouched(pqr[core := SetField(pqr[core], rmid)], initial)
            && (i.Some? ==>
                  var table' := table[i.value := table[i.value].(rmid := rmid, inUse := true)];
                  && Indexed(table', coreToRmid, online, n)
                  && (forall c: nat :: RmidOf(table', coreToRmid, c) == if c == core then rmid else RmidOf(table, coreToRmid, c))
                  && Fields(table', coreToRmid, online, pqr[core := SetField(pqr[core], rmid)]))
  {
    LookupIs(table, coreToRmid, online, n, core);
    SetKeepsOthers(pqr, initial, core, rmid);
    var i := Lookup(table, coreToRmid, core);
    hide Indexed, Fields, Untouched, SetField;
    if i.Some? {
      EntryOf(table, coreToRmid, online, n, i.value);
      SetEntry(table, coreToRmid, online, n, i.value, rmid, pqr);
    }
  }

  lemma EntryOf(table: seq<RmidInfo>, coreToRmid: seq<nat>, online: seq<nat>, n: nat, i: nat)
    requires |table| == |coreToRmid| == MAX_CORES && Ascending(online)
    requires Indexed(table, coreToRmid, online, n) && i < MAX_CORES && table[i].inUse
    ensures i < n && table[i].coreId == online[i]
  {
  }

  // ------------------------------------------------- what the ids are worth

  /** The ids handed out by allocation all exist exactly when the last core that gets one has a
      number below the highest id: the loop bounds how many cores get an id, not which id. */
  lemma IdsInRangeExactly(online: seq<nat>, maxRmid: nat)
    requires Ascending(online)
    ensures (forall i :: 0 <= i < Quota(online, maxRmid) ==> online[i] + 1 <= maxRmid)
            <==> online == [] || online[Quota(online, maxRmid) - 1] < maxRmid
  {
  }

  /** With CPUs numbered from 0 without gaps that is: fewer CPUs than ids, id 0 included. One CPU
      more and the last id handed out is one too high. */
  lemma ContiguousInRangeExactly(online: seq<nat>, maxRmid: nat)
    requires Ascending(online) && forall i :: 0 <= i < |online| ==> online[i] == i
    ensures (forall i :: 0 <= i < Quota(online, maxRmid) ==> online[i] + 1 <= maxRmid) <==> |online| <= maxRmid
    ensures |online| > maxRmid ==> online[Quota(online, maxRmid) - 1] + 1 == maxRmid + 1
  {
    IdsInRangeExactly(online, maxRmid);
  }
}
