/** The log file: records of every CPU, laid out by configuration flags, appended drain by drain,
    and read back by the parser under the same flags. */
module LogFile {
  import opened ByteStrings
  import opened Division
  import R = RingBuffer

  // ------------------------------------------------------------ the record

  datatype Field =
    | Kts | StallMem | InstRetire | StallsSb | CpuUnhalt | LlcMisses | SwPrefetch
    | ImcReads | ImcWrites | TotalBw | LocalBw | Occupancy

  datatype Flags = Flags(logImc: bool, useRdt: bool, includeLocalBw: bool)

  /** HrperfLogEntry: the CPU and the counter values, by field. */
  datatype Entry = Entry(cpuId: int, tick: Field -> int)

  predicate EntryOk(e: Entry) {
    && -0x8000_0000 <= e.cpuId < 0x8000_0000
    && forall f: Field :: 0 <= e.tick(f) < 0x1_0000_0000_0000_0000
  }

  /** The fields of HrperfTick, in the order the structure declares them. */
  function StructFields(flags: Flags): seq<Field> {
    [Kts, StallMem, InstRetire, StallsSb, CpuUnhalt, LlcMisses, SwPrefetch]
    + (if flags.logImc then [ImcReads, ImcWrites] else [])
    + (if flags.useRdt then
         [TotalBw] + (if flags.includeLocalBw then [LocalBw] else []) + [Occupancy]
       else [])
  }

  /** The columns of the parser's record type after cpu_id, in the order it builds the list. */
  method ColumnFields(useImc: bool, useRdt: bool, useRdtLocalBw: bool) returns (fields: seq<Field>)
    ensures fields == StructFields(Flags(useImc, useRdt, useRdtLocalBw))
  {
    fields := [Kts, StallMem, InstRetire, StallsSb, CpuUnhalt, LlcMisses, SwPrefetch];
    if useImc {
      fields := fields + [ImcReads, ImcWrites];
    }
    if useRdt {
      fields := fields + [TotalBw];
      if useRdtLocalBw {
        fields := fields + [LocalBw];
      }
      fields := fields + [Occupancy];
    }
  }

  // -------------------------------------------------------- little endian

  function ToLittleEndian(v: nat, width: nat): (bytes: seq<byte>)
    ensures |bytes| == width
  {
    if width == 0 then [] else [v % 256] + ToLittleEndian(v / 256, width - 1)
  }

  function FromLittleEndian(bytes: seq<byte>): nat {
    if bytes == [] then 0 else bytes[0] + 256 * FromLittleEndian(bytes[1..])
  }

  function Pow256(width: nat): (p: nat)
    ensures p > 0
  {
    if width == 0 then 1 else 256 * Pow256(width - 1)
  }

  lemma {:induction false} LittleEndianRoundTrip(v: nat, width: nat)
    requires v < Pow256(width)
    ensures FromLittleEndian(ToLittleEndian(v, width)) == v
  {
    if width > 0 {
      LittleEndianRoundTrip(v / 256, width - 1);
      assert ToLittleEndian(v, width)[1..] == ToLittleEndian(v / 256, width - 1);
    }
  }

  lemma Widths()
    ensures Pow256(4) == 0x1_0000_0000 && Pow256(8) == 0x1_0000_0000_0000_0000
  {
    assert Pow256(2) == 0x1_0000;
    assert Pow256(4) == 256 * (256 * Pow256(2));
    assert Pow256(6) == 256 * (256 * Pow256(4));
    assert Pow256(8) == 256 * (256 * Pow256(6));
  }

  // ------------------------------------------------------ encode and parse

  function EncodeInt32(v: int): seq<byte>
    requires -0x8000_0000 <= v < 0x8000_0000
  {
    ToLittleEndian(if v < 0 then v + 0x1_0000_0000 else v, 4)
  }

  function DecodeInt32(bytes: seq<byte>): int {
    var v := FromLittleEndian(bytes);
    if v >= 0x8000_0000 then v - 0x1_0000_0000 else v
  }

  function EncodeFields(tick: Field -> int, fields: seq<Field>): (bytes: seq<byte>)
    requires forall f: Field :: 0 <= tick(f)
    ensures |bytes| == 8 * |fields|
  {
    if fields == [] then [] else ToLittleEndian(tick(fields[0]), 8) + EncodeFields(tick, fields[1..])
  }

  /** The packed record as it lies in the ring buffer and in the file. */
  function EncodeEntry(e: Entry, flags: Flags): (bytes: seq<byte>)
    requires EntryOk(e)
    ensures |bytes| == RecordSize(flags)
  {
    EncodeInt32(e.cpuId) + EncodeFields(e.tick, StructFields(flags))
  }

  function RecordSize(flags: Flags): (n: nat)
    ensures n > 0
  {
    4 + 8 * |StructFields(flags)|
  }

  function EncodeLog(entries: seq<Entry>, flags: Flags): seq<byte>
    requires forall e :: e in entries ==> EntryOk(e)
  {
    if entries == [] then [] else EncodeEntry(entries[0], flags) + EncodeLog(entries[1..], flags)
  }

  /** One parsed row: the CPU and a value per column. */
  datatype Row = Row(cpuId: int, values: seq<int>)

  function DecodeFields(bytes: seq<byte>, count: nat): (values: seq<int>)
    requires |bytes| == 8 * count
    ensures |values| == count
  {
    if count == 0 then [] else [FromLittleEndian(bytes[..8])] + DecodeFields(bytes[8..], count - 1)
  }

  /** np.fromfile: as many whole records as the file holds; a partial one at the end is ignored. */
  function ParseLog(bytes: seq<byte>, flags: Flags): seq<Row>
    decreases |bytes|
  {
    var size := RecordSize(flags);
    if |bytes| < size then []
    else [Row(DecodeInt32(bytes[..4]), DecodeFields(bytes[4..size], |StructFields(flags)|))]
         + ParseLog(bytes[size..], flags)
  }

  function Project(e: Entry, fields: seq<Field>): Row {
    Row(e.cpuId, seq(|fields|, i requires 0 <= i < |fields| => e.tick(fields[i])))
  }

  function ProjectAll(entries: seq<Entry>, fields: seq<Field>): (rows: seq<Row>)
    ensures |rows| == |entries|
  {
    if entries == [] then [] else [Project(entries[0], fields)] + ProjectAll(entries[1..], fields)
  }

  lemma {:induction false} FieldsRoundTrip(tick: Field -> int, fields: seq<Field>)
    requires forall f: Field :: 0 <= tick(f) < 0x1_0000_0000_0000_0000
    ensures DecodeFields(EncodeFields(tick, fields), |fields|)
            == seq(|fields|, i requires 0 <= i < |fields| => tick(fields[i]))
  {
    if fields != [] {
      var bytes := EncodeFields(tick, fields);
      assert bytes[..8] == ToLittleEndian(tick(fields[0]), 8);
      assert bytes[8..] == EncodeFields(tick, fields[1..]);
      Widths();
      LittleEndianRoundTrip(tick(fields[0]), 8);
      FieldsRoundTrip(tick, fields[1..]);
    }
  }

  lemma Int32RoundTrip(v: int)
    requires -0x8000_0000 <= v < 0x8000_0000
    ensures DecodeInt32(EncodeInt32(v)) == v
  {
    Widths();
    LittleEndianRoundTrip(if v < 0 then v + 0x1_0000_0000 else v, 4);
  }

  /** For every flag combination: parsing the written bytes, whole records and a cut-off tail,
      returns the written records column by column. */
  lemma {:induction false} LogRoundTrip(entries: seq<Entry>, flags: Flags, cutOff: seq<byte>)
    requires forall e :: e in entries ==> EntryOk(e)
    requires |cutOff| < RecordSize(flags)
    ensures ParseLog(EncodeLog(entries, flags) + cutOff, flags) == ProjectAll(entries, StructFields(flags))
  {
    var bytes := EncodeLog(entries, flags) + cutOff;
    if entries == [] {
      assert bytes == cutOff;
    } else {
      var size := RecordSize(flags);
      var first, rest := EncodeEntry(entries[0], flags), EncodeLog(entries[1..], flags);
      assert bytes == first + (rest + cutOff);
      assert bytes[..4] == EncodeInt32(entries[0].cpuId);
      assert bytes[4..size] == EncodeFields(entries[0].tick, StructFields(flags));
      assert bytes[size..] == rest + cutOff;
      Int32RoundTrip(entries[0].cpuId);
      FieldsRoundTrip(entries[0].tick, StructFields(flags));
      LogRoundTrip(entries[1..], flags, cutOff);
    }
  }

  // ------------------------------------------------- the layout, byte by byte

  /** The unsigned number v in `width` bytes from k on, the low byte first. */
  ghost predicate NumberAt(bytes: seq<byte>, k: nat, width: nat, v: nat) {
    k + width <= |bytes| && forall i: nat :: i < width ==> bytes[k + i] == v / Pow256(i) % 256
  }

  lemma DivideTwice(v: nat, p: nat)
    requires p > 0
    ensures v / 256 / p == v / (256 * p)
  {
    var q, r := v / 256, v % 256;
    var s, t := q / p, q % p;
    assert v == 256 * (s * p + t) + r == (256 * p) * s + (256 * t + r);
    assert 256 * t + r < 256 * p;
    DivideUnique(v, 256 * p, s, 256 * t + r);
  }

  lemma {:induction false} LowByteFirst(v: nat, width: nat, i: nat)
    requires i < width
    ensures ToLittleEndian(v, width)[i] == v / Pow256(i) % 256
  {
    if i > 0 {
      LowByteFirst(v / 256, width - 1, i - 1);
      DivideTwice(v, Pow256(i - 1));
    }
  }

  lemma {:induction false} FieldBytes(tick: Field -> int, fields: seq<Field>, j: nat)
    requires (forall f: Field :: 0 <= tick(f)) && j < |fields|
    ensures EncodeFields(tick, fields)[8 * j..8 * j + 8] == ToLittleEndian(tick(fields[j]), 8)
  {
    hide ToLittleEndian;
    var first, rest := ToLittleEndian(tick(fields[0]), 8), EncodeFields(tick, fields[1..]);
    assert EncodeFields(tick, fields) == first + rest;
    hide EncodeFields;
    if j > 0 {
      FieldBytes(tick, fields[1..], j - 1);
      Behind(first, rest, 8 * (j - 1));
    } else {
      assert (first + rest)[0..8] == first;
    }
  }

  lemma Behind(first: seq<byte>, rest: seq<byte>, k: nat)
    requires |first| == 8 && k + 8 <= |rest|
    ensures (first + rest)[8 + k..8 + k + 8] == rest[k..k + 8]
  {
  }

  /** Field j of the structure is the word at 4 + 8 * j. */
  lemma FieldAt(e: Entry, flags: Flags, j: nat)
    requires EntryOk(e) && j < |StructFields(flags)|
    ensures NumberAt(EncodeEntry(e, flags), 4 + 8 * j, 8, e.tick(StructFields(flags)[j]))
  {
    hide StructFields, EncodeInt32, EncodeFields, ToLittleEndian;
    var fields, b := StructFields(flags), EncodeEntry(e, flags);
    var v, k := e.tick(fields[j]), 4 + 8 * j;
    FieldBytes(e.tick, fields, j);
    assert b[k..k + 8] == ToLittleEndian(v, 8);
    forall i: nat | i < 8
      ensures b[k + i] == v / Pow256(i) % 256
    {
      LowByteFirst(v, 8, i);
      assert b[k + i] == b[k..k + 8][i];
    }
  }

  lemma CpuAt(e: Entry, flags: Flags)
    requires EntryOk(e)
    ensures NumberAt(EncodeEntry(e, flags), 0, 4, if e.cpuId < 0 then e.cpuId + 0x1_0000_0000 else e.cpuId)
  {
    hide StructFields, EncodeFields, ToLittleEndian;
    var v := if e.cpuId < 0 then e.cpuId + 0x1_0000_0000 else e.cpuId;
    forall i: nat | i < 4
      ensures EncodeEntry(e, flags)[i] == v / Pow256(i) % 256
    {
      LowByteFirst(v, 4, i);
    }
  }

  /** Where the packed record has each field, by the flags it was built with: the CPU's number in
      two's complement in front, then words of eight bytes without gaps. */
  lemma PackedLayout(e: Entry, flags: Flags)
    requires EntryOk(e)
    ensures var b := EncodeEntry(e, flags);
      && NumberAt(b, 0, 4, if e.cpuId < 0 then e.cpuId + 0x1_0000_0000 else e.cpuId)
      && NumberAt(b, 4, 8, e.tick(Kts)) && NumberAt(b, 12, 8, e.tick(StallMem))
      && NumberAt(b, 20, 8, e.tick(InstRetire)) && NumberAt(b, 28, 8, e.tick(StallsSb))
      && NumberAt(b, 36, 8, e.tick(CpuUnhalt)) && NumberAt(b, 44, 8, e.tick(LlcMisses))
      && NumberAt(b, 52, 8, e.tick(SwPrefetch))
    ensures flags.logImc ==>
      NumberAt(EncodeEntry(e, flags), 60, 8, e.tick(ImcReads)) && NumberAt(EncodeEntry(e, flags), 68, 8, e.tick(ImcWrites))
    ensures var b, rdt := EncodeEntry(e, flags), if flags.logImc then 76 else 60;
      if !flags.useRdt then |b| == rdt
      else
        && NumberAt(b, rdt, 8, e.tick(TotalBw))
        && (if flags.includeLocalBw then
              NumberAt(b, rdt + 8, 8, e.tick(LocalBw)) && NumberAt(b, rdt + 16, 8, e.tick(Occupancy)) && |b| == rdt + 24
            else NumberAt(b, rdt + 8, 8, e.tick(Occupancy)) && |b| == rdt + 16)
  {
    hide EncodeEntry, NumberAt;
    var fields := StructFields(flags);
    CpuAt(e, flags);
    FieldAt(e, flags, 0);
    FieldAt(e, flags, 1);
    FieldAt(e, flags, 2);
    FieldAt(e, flags, 3);
    FieldAt(e, flags, 4);
    FieldAt(e, flags, 5);
    FieldAt(e, flags, 6);
    if |fields| > 7 {
      FieldAt(e, flags, 7);
      FieldAt(e, flags, 8);
    }
    if |fields| > 9 {
      FieldAt(e, flags, 9);
    }
    if |fields| > 10 {
      FieldAt(e, flags, 10);
    }
    if |fields| > 11 {
      FieldAt(e, flags, 11);
    }
    RecordLength(e, flags);
  }

  lemma RecordLength(e: Entry, flags: Flags)
    requires EntryOk(e)
    ensures |EncodeEntry(e, flags)| == 4 + 8 * |StructFields(flags)|
  {
    hide StructFields, EncodeInt32, EncodeFields;
  }

  /** And which column of a parsed row has it. */
  lemma ParsedColumns(entries: seq<Entry>, flags: Flags, cutOff: seq<byte>, i: nat)
    requires (forall e :: e in entries ==> EntryOk(e)) && |cutOff| < RecordSize(flags) && i < |entries|
    ensures var rows := ParseLog(EncodeLog(entries, flags) + cutOff, flags);
      && |rows| == |entries| && rows[i].cpuId == entries[i].cpuId
      && var v, t, rdt := rows[i].values, entries[i].tick, if flags.logImc then 9 else 7;
      && |v| == rdt + (if !flags.useRdt then 0 else if flags.includeLocalBw then 3 else 2)
      && v[0] == t(Kts) && v[1] == t(StallMem) && v[2] == t(InstRetire) && v[3] == t(StallsSb)
      && v[4] == t(CpuUnhalt) && v[5] == t(LlcMisses) && v[6] == t(SwPrefetch)
      && (flags.logImc ==> v[7] == t(ImcReads) && v[8] == t(ImcWrites))
      && (flags.useRdt ==>
            && v[rdt] == t(TotalBw)
            && (if flags.includeLocalBw then v[rdt + 1] == t(LocalBw) && v[rdt + 2] == t(Occupancy)
                else v[rdt + 1] == t(Occupancy)))
  {
    hide ParseLog, EncodeLog, ProjectAll, RecordSize, EntryOk;
    LogRoundTrip(entries, flags, cutOff);
    ProjectAt(entries, StructFields(flags), i);
  }

  lemma {:induction false} ProjectAt(entries: seq<Entry>, fields: seq<Field>, i: nat)
    requires i < |entries|
    ensures ProjectAll(entries, fields)[i] == Project(entries[i], fields)
  {
    if i > 0 {
      ProjectAt(entries[1..], fields, i - 1);
    }
  }

  // ----------------------------------------------- all CPUs, one log file

  /** Every selected CPU has its ring; all drains append to the one file. */
  datatype System = System(rings: map<int, R.Ring<Entry>>, file: seq<Entry>)

  datatype Event = Event(cpu: int, action: R.Action<Entry>)

  /** The poller stamps an entry with the CPU it runs on; the values fit their columns. */
  ghost predicate Stamped(e: Event) {
    e.action.Begin? ==> e.action.data.cpuId == e.cpu && EntryOk(e.action.data)
  }

  ghost predicate RingsOk(s: System) {
    forall c :: c in s.rings ==> R.Bounded(s.rings[c])
  }

  /** A step of one CPU's ring; what its drain copies goes to the end of the file. */
  ghost function SystemStep(s: System, e: Event): (next: System)
    requires RingsOk(s)
    ensures RingsOk(next) && next.rings.Keys == s.rings.Keys
  {
    if e.cpu !in s.rings then s
    else
      var r := s.rings[e.cpu];
      var stepped := R.Step(r, e.action);
      System(s.rings[e.cpu := stepped],
             s.file + (if |r.logged| <= |stepped.logged| then stepped.logged[|r.logged|..] else []))
  }

  ghost function SystemRun(s: System, run: seq<Event>): (end: System)
    requires RingsOk(s)
    ensures RingsOk(end) && end.rings.Keys == s.rings.Keys
    decreases run
  {
    if run == [] then s else SystemRun(SystemStep(s, run[0]), run[1..])
  }

  /** The steps of one CPU in a run. */
  function StepsOf(run: seq<Event>, cpu: int): seq<R.Action<Entry>> {
    if run == [] then []
    else (if run[0].cpu == cpu then [run[0].action] else []) + StepsOf(run[1..], cpu)
  }

  /** The rows of the log that carry one CPU's number. */
  function OnCpu(entries: seq<Entry>, cpu: int): seq<Entry> {
    if entries == [] then []
    else (if entries[0].cpuId == cpu then [entries[0]] else []) + OnCpu(entries[1..], cpu)
  }

  lemma {:induction false} OnCpuConcat(a: seq<Entry>, b: seq<Entry>, cpu: int)
    ensures OnCpu(a + b, cpu) == OnCpu(a, cpu) + OnCpu(b, cpu)
  {
    if a == [] {
      assert a + b == b;
    } else {
      OnCpuConcat(a[1..], b, cpu);
      assert (a + b)[1..] == a[1..] + b;
      Assoc(if a[0].cpuId == cpu then [a[0]] else [], OnCpu(a[1..], cpu), OnCpu(b, cpu));
    }
  }

  lemma {:induction false} OnCpuUniform(entries: seq<Entry>, owner: int, cpu: int)
    requires forall e :: e in entries ==> e.cpuId == owner
    ensures OnCpu(entries, cpu) == if cpu == owner then entries else []
  {
    if entries != [] {
      OnCpuUniform(entries[1..], owner, cpu);
    }
  }

  ghost predicate AllFrom(entries: seq<Entry>, cpu: int) {
    forall e :: e in entries ==> e.cpuId == cpu && EntryOk(e)
  }

  /** One CPU's ring, its accepted entries all stamped with its number. */
  ghost predicate CpuInv(r: R.Ring<Entry>, accepted: seq<Entry>, cpu: int) {
    && R.Inv(r, accepted)
    && AllFrom(accepted, cpu)
    && (!r.producer.ProducerIdle? ==> r.producer.data.cpuId == cpu && EntryOk(r.producer.data))
  }

  lemma CpuStep(r: R.Ring<Entry>, accepted: seq<Entry>, cpu: int, a: R.Action<Entry>)
    requires CpuInv(r, accepted, cpu) && Stamped(Event(cpu, a))
    ensures CpuInv(R.Step(r, a), accepted + R.NewlyAccepted(r, a), cpu)
    ensures |r.logged| <= |R.Step(r, a).logged|
    ensures R.Step(r, a).logged == r.logged + R.Step(r, a).logged[|r.logged|..]
    ensures AllFrom(R.Step(r, a).logged[|r.logged|..], cpu)
  {
    R.InvBounded(r, accepted);
    hide R.Inv, R.Step, R.NewlyAccepted, AllFrom, EntryOk;
    var next, accepted' := R.Step(r, a), accepted + R.NewlyAccepted(r, a);
    R.StepInv(r, accepted, a);
    StepAppends(r, a, cpu);
    StaysFrom(r, accepted, cpu, a);
    LoggedAccepted(next, accepted');
    PartFrom(accepted', next.logged, |r.logged|, cpu);
  }

  /** What a step accepts is the CPU's own. */
  lemma StaysFrom(r: R.Ring<Entry>, accepted: seq<Entry>, cpu: int, a: R.Action<Entry>)
    requires R.Bounded(r) && AllFrom(accepted, cpu) && Stamped(Event(cpu, a))
    requires !r.producer.ProducerIdle? ==> r.producer.data.cpuId == cpu && EntryOk(r.producer.data)
    ensures AllFrom(accepted + R.NewlyAccepted(r, a), cpu)
  {
    hide R.Step, R.NewlyAccepted, EntryOk;
    StepAppends(r, a, cpu);
  }

  lemma PartFrom(entries: seq<Entry>, front: seq<Entry>, n: nat, cpu: int)
    requires AllFrom(entries, cpu) && front <= entries && n <= |front|
    ensures AllFrom(front[n..], cpu)
  {
    hide EntryOk;
    forall e | e in front[n..]
      ensures e in entries
    {
      assert e in front;
    }
  }

  /** A step logs at most one entry more; the producer holds the entry it began with. */
  lemma StepAppends(r: R.Ring<Entry>, a: R.Action<Entry>, cpu: int)
    requires R.Bounded(r)
    ensures var next := R.Step(r, a);
      && |r.logged| <= |next.logged| && next.logged == r.logged + next.logged[|r.logged|..]
      && (!next.producer.ProducerIdle? ==>
            next.producer.data == if a.Begin? && r.producer.ProducerIdle? then a.data else r.producer.data)
      && (!next.producer.ProducerIdle? && !(a.Begin? && r.producer.ProducerIdle?) ==> !r.producer.ProducerIdle?)
      && (R.NewlyAccepted(r, a) == [] || (!r.producer.ProducerIdle? && R.NewlyAccepted(r, a) == [r.producer.data]))
  {
  }

  lemma LoggedAccepted(r: R.Ring<Entry>, accepted: seq<Entry>)
    requires R.Inv(r, accepted)
    ensures r.logged <= accepted
  {
  }

  ghost predicate SystemInv(s: System, accepted: map<int, seq<Entry>>) {
    && s.rings.Keys == accepted.Keys
    && (forall e :: e in s.file ==> EntryOk(e))
    && forall c :: c in s.rings ==>
         CpuInv(s.rings[c], accepted[c], c) && OnCpu(s.file, c) == s.rings[c].logged
  }

  lemma SystemStepInv(s: System, accepted: map<int, seq<Entry>>, e: Event)
    requires RingsOk(s) && SystemInv(s, accepted) && Stamped(e) && e.cpu in s.rings
    ensures SystemInv(SystemStep(s, e),
                      accepted[e.cpu := accepted[e.cpu] + R.NewlyAccepted(s.rings[e.cpu], e.action)])
  {
    var r := s.rings[e.cpu];
    CpuStep(r, accepted[e.cpu], e.cpu, e.action);
    var more := R.Step(r, e.action).logged[|r.logged|..];
    forall c | c in s.rings ensures OnCpu(s.file + more, c) == SystemStep(s, e).rings[c].logged {
      OnCpuConcat(s.file, more, c);
      OnCpuUniform(more, e.cpu, c);
      assert OnCpu(s.file, c) + [] == OnCpu(s.file, c);
    }
  }

  ghost function AcceptedBy(s: System, run: seq<Event>, cpu: int): seq<Entry>
    requires RingsOk(s) && cpu in s.rings
  {
    R.Accepted(s.rings[cpu], StepsOf(run, cpu))
  }

  /** However the CPUs' steps interleave, each ring sees just its own, and the file's rows of a
      CPU are what its drains have copied. */
  lemma {:induction false} SystemRunInv(s: System, accepted: map<int, seq<Entry>>, run: seq<Event>, cpu: int)
    requires RingsOk(s) && SystemInv(s, accepted) && cpu in s.rings
    requires forall e :: e in run ==> Stamped(e)
    ensures SystemRun(s, run).rings[cpu] == R.Run(s.rings[cpu], StepsOf(run, cpu))
    ensures OnCpu(SystemRun(s, run).file, cpu) == SystemRun(s, run).rings[cpu].logged
    ensures forall e :: e in SystemRun(s, run).file ==> EntryOk(e)
    decreases run
  {
    if run != [] {
      var e, rest := run[0], run[1..];
      if e.cpu in s.rings {
        SystemStepInv(s, accepted, e);
        SystemRunInv(SystemStep(s, e), accepted[e.cpu := accepted[e.cpu] + R.NewlyAccepted(s.rings[e.cpu], e.action)], rest, cpu);
        if e.cpu == cpu {
          assert StepsOf(run, cpu)[1..] == StepsOf(rest, cpu);
        } else {
          assert StepsOf(run, cpu) == StepsOf(rest, cpu);
        }
      } else {
        SystemRunInv(s, accepted, rest, cpu);
        assert StepsOf(run, cpu) == StepsOf(rest, cpu);
      }
    }
  }

  ghost predicate EmptyRings(s: System) {
    && s.file == []
    && forall c :: c in s.rings ==> |s.rings[c].slots| >= 2 && s.rings[c] == R.Init(s.rings[c].slots)
  }

  lemma EmptyRingsInv(s: System)
    requires EmptyRings(s)
    ensures RingsOk(s) && SystemInv(s, map c | c in s.rings :: [])
  {
  }

  /** From empty rings, the log restricted to one CPU is that CPU's accepted entries in order,
      all of them but those still in its ring. */
  lemma PerCpuLog(s: System, run: seq<Event>, cpu: int)
    requires EmptyRings(s) && cpu in s.rings
    requires forall e :: e in run ==> Stamped(e)
    ensures RingsOk(s)
    ensures var end, accepted := SystemRun(s, run), AcceptedBy(s, run, cpu);
      var r := end.rings[cpu];
      && 0 <= R.CopiedCount(r) <= R.Dist(|r.slots|, r.head, r.tail)
      && OnCpu(end.file, cpu) + R.Window(r.slots, r.head, r.tail)[R.CopiedCount(r)..] == accepted
      && (r.consumer.ConsumerIdle? && r.head == r.tail ==> OnCpu(end.file, cpu) == accepted)
  {
    EmptyRingsInv(s);
    SystemRunInv(s, map c | c in s.rings :: [], run, cpu);
    R.FifoLog(s.rings[cpu].slots, StepsOf(run, cpu));
    var r := SystemRun(s, run).rings[cpu];
    if r.consumer.ConsumerIdle? && r.head == r.tail {
      Drained(r);
    }
    hide SystemInv, SystemRun, OnCpu, StepsOf, R.Run, R.Accepted, R.CopiedCount, R.Window, R.Dist;
  }

  lemma Drained(r: R.Ring<Entry>)
    requires R.Bounded(r) && r.consumer.ConsumerIdle? && r.head == r.tail
    ensures R.Window(r.slots, r.head, r.tail) == []
  {
  }

  function RowsOf(rows: seq<Row>, cpu: int): seq<Row> {
    if rows == [] then []
    else (if rows[0].cpuId == cpu then [rows[0]] else []) + RowsOf(rows[1..], cpu)
  }

  lemma {:induction false} ProjectThenFilter(entries: seq<Entry>, fields: seq<Field>, cpu: int)
    ensures RowsOf(ProjectAll(entries, fields), cpu) == ProjectAll(OnCpu(entries, cpu), fields)
  {
    if entries != [] {
      ProjectThenFilter(entries[1..], fields, cpu);
      assert ProjectAll(entries, fields)[1..] == ProjectAll(entries[1..], fields);
      if entries[0].cpuId == cpu {
        assert OnCpu(entries, cpu)[1..] == OnCpu(entries[1..], cpu);
      } else {
        assert OnCpu(entries, cpu) == OnCpu(entries[1..], cpu);
        assert RowsOf(ProjectAll(entries, fields), cpu) == RowsOf(ProjectAll(entries[1..], fields), cpu);
      }
    }
  }

  /** End to end: once a CPU's ring is drained, the rows the parser reads for that CPU are its
      accepted entries, field by field and in order, whatever the other CPUs did. */
  lemma ParsedPerCpu(s: System, run: seq<Event>, cpu: int, flags: Flags)
    requires EmptyRings(s) && cpu in s.rings
    requires forall e :: e in run ==> Stamped(e)
    requires RingsOk(s)
    requires var r := SystemRun(s, run).rings[cpu]; r.consumer.ConsumerIdle? && r.head == r.tail
    ensures var end := SystemRun(s, run);
      && (forall e :: e in end.file ==> EntryOk(e))
      && RowsOf(ParseLog(EncodeLog(end.file, flags), flags), cpu)
         == ProjectAll(AcceptedBy(s, run, cpu), StructFields(flags))
  {
    EmptyRingsInv(s);
    SystemRunInv(s, map c | c in s.rings :: [], run, cpu);
    PerCpuLog(s, run, cpu);
    var file := SystemRun(s, run).file;
    LogRoundTrip(file, flags, []);
    assert EncodeLog(file, flags) + [] == EncodeLog(file, flags);
    ProjectThenFilter(file, StructFields(flags), cpu);
  }
}
