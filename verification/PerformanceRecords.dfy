/** How the merge reads its records from a file: the script's own format, with native alignment, and
    what it makes of the file the logger writes. */
module PerformanceRecords {
  import opened ByteStrings
  import opened LogFile
  import opened PerformanceMerge

  /** An int, four bytes of padding, a signed and five unsigned 64-bit words. */
  const ENTRY_SIZE: nat := 56

  datatype Unpacked = Records(records: seq<Record>) | StructError

  function DecodeInt64(bytes: seq<byte>): int {
    var v := FromLittleEndian(bytes);
    if v >= 0x8000_0000_0000_0000 then v - 0x1_0000_0000_0000_0000 else v
  }

  function EncodeInt64(v: int): seq<byte>
    requires -0x8000_0000_0000_0000 <= v < 0x8000_0000_0000_0000
  {
    ToLittleEndian(if v < 0 then v + 0x1_0000_0000_0000_0000 else v, 8)
  }

  function Unpack(b: seq<byte>): Record
    requires |b| == ENTRY_SIZE
  {
    Record(DecodeInt32(b[..4]), DecodeInt64(b[8..16]), FromLittleEndian(b[16..24]), FromLittleEndian(b[24..32]),
           FromLittleEndian(b[32..40]), FromLittleEndian(b[40..48]), FromLittleEndian(b[48..56]))
  }

  /** Counters that fit their words. */
  predicate Fits(r: Record) {
    && -0x8000_0000 <= r.cpu < 0x8000_0000
    && -0x8000_0000_0000_0000 <= r.timestamp < 0x8000_0000_0000_0000
    && 0 <= r.stalls < 0x1_0000_0000_0000_0000 && 0 <= r.insts < 0x1_0000_0000_0000_0000
    && 0 <= r.cycles < 0x1_0000_0000_0000_0000 && 0 <= r.misses < 0x1_0000_0000_0000_0000
    && 0 <= r.prefetches < 0x1_0000_0000_0000_0000
  }

  /** A record in that format. */
  function Pack(r: Record, padding: seq<byte>): (b: seq<byte>)
    requires Fits(r) && |padding| == 4
    ensures |b| == ENTRY_SIZE
  {
    EncodeInt32(r.cpu) + padding + EncodeInt64(r.timestamp) + ToLittleEndian(r.stalls, 8) + ToLittleEndian(r.insts, 8)
    + ToLittleEndian(r.cycles, 8) + ToLittleEndian(r.misses, 8) + ToLittleEndian(r.prefetches, 8)
  }

  lemma WordRoundTrip(v: nat)
    requires v < 0x1_0000_0000_0000_0000
    ensures FromLittleEndian(ToLittleEndian(v, 8)) == v
  {
    Widths();
    LittleEndianRoundTrip(v, 8);
  }

  lemma Int64RoundTrip(v: int)
    requires -0x8000_0000_0000_0000 <= v < 0x8000_0000_0000_0000
    ensures DecodeInt64(EncodeInt64(v)) == v
  {
    WordRoundTrip(if v < 0 then v + 0x1_0000_0000_0000_0000 else v);
  }

  lemma Parts<T>(a: seq<T>, p: seq<T>, t: seq<T>, v: seq<T>, w: seq<T>, x: seq<T>, y: seq<T>, z: seq<T>)
    requires |a| == |p| == 4 && |t| == |v| == |w| == |x| == |y| == |z| == 8
    ensures var b := a + p + t + v + w + x + y + z;
            && b[..4] == a && b[8..16] == t && b[16..24] == v && b[24..32] == w
            && b[32..40] == x && b[40..48] == y && b[48..56] == z
  {
  }

  /** A packed record unpacks to itself, whatever the padding. */
  lemma PackRoundTrip(r: Record, padding: seq<byte>)
    requires Fits(r) && |padding| == 4
    ensures Unpack(Pack(r, padding)) == r
  {
    hide ToLittleEndian, FromLittleEndian, DecodeInt32, DecodeInt64;
    Parts(EncodeInt32(r.cpu), padding, EncodeInt64(r.timestamp), ToLittleEndian(r.stalls, 8), ToLittleEndian(r.insts, 8),
          ToLittleEndian(r.cycles, 8), ToLittleEndian(r.misses, 8), ToLittleEndian(r.prefetches, 8));
    Int32RoundTrip(r.cpu);
    Int64RoundTrip(r.timestamp);
    WordRoundTrip(r.stalls);
    WordRoundTrip(r.insts);
    WordRoundTrip(r.cycles);
    WordRoundTrip(r.misses);
    WordRoundTrip(r.prefetches);
  }

  lemma BytesAt(b: seq<byte>, k: nat, width: nat, v: nat)
    requires NumberAt(b, k, width, v)
    ensures b[k..k + width] == ToLittleEndian(v, width)
  {
    forall i: nat | i < width
      ensures b[k..k + width][i] == ToLittleEndian(v, width)[i]
    {
      LowByteFirst(v, width, i);
    }
  }

  /** Where the script reads a record's numbers, low byte first, signed ones in two's complement. */
  lemma UnpackLayout(b: seq<byte>, r: Record)
    requires |b| == 56 && Fits(r)
    requires NumberAt(b, 0, 4, if r.cpu < 0 then r.cpu + 0x1_0000_0000 else r.cpu)
    requires NumberAt(b, 8, 8, if r.timestamp < 0 then r.timestamp + 0x1_0000_0000_0000_0000 else r.timestamp)
    requires NumberAt(b, 16, 8, r.stalls) && NumberAt(b, 24, 8, r.insts) && NumberAt(b, 32, 8, r.cycles)
    requires NumberAt(b, 40, 8, r.misses) && NumberAt(b, 48, 8, r.prefetches)
    ensures Unpack(b) == r
  {
    hide NumberAt, ToLittleEndian, FromLittleEndian, DecodeInt32, DecodeInt64;
    BytesAt(b, 0, 4, if r.cpu < 0 then r.cpu + 0x1_0000_0000 else r.cpu);
    BytesAt(b, 8, 8, if r.timestamp < 0 then r.timestamp + 0x1_0000_0000_0000_0000 else r.timestamp);
    BytesAt(b, 16, 8, r.stalls);
    BytesAt(b, 24, 8, r.insts);
    BytesAt(b, 32, 8, r.cycles);
    BytesAt(b, 40, 8, r.misses);
    BytesAt(b, 48, 8, r.prefetches);
    assert b[0..4] == b[..4];
    Int32RoundTrip(r.cpu);
    Int64RoundTrip(r.timestamp);
    WordRoundTrip(r.stalls);
    WordRoundTrip(r.insts);
    WordRoundTrip(r.cycles);
    WordRoundTrip(r.misses);
    WordRoundTrip(r.prefetches);
  }

  /** The reading loop: every 56 bytes are a record, and the script ends with an error exactly when
      the file ends inside one. */
  method ReadRecords(file: seq<byte>) returns (u: Unpacked)
    ensures u.Records? <==> |file| % ENTRY_SIZE == 0
    ensures u.Records? ==> ENTRY_SIZE * |u.records| == |file|
    ensures u.Records? ==> forall i :: 0 <= i < |u.records| ==>
              0 <= ENTRY_SIZE * i <= |file| - ENTRY_SIZE
              && u.records[i] == Unpack(file[ENTRY_SIZE * i..ENTRY_SIZE * i + ENTRY_SIZE])
  {
    hide Unpack;
    var records, pos: nat := [], 0;
    while true
      invariant pos == ENTRY_SIZE * |records| <= |file|
      invariant forall i :: 0 <= i < |records| ==>
                  0 <= ENTRY_SIZE * i <= |file| - ENTRY_SIZE
                  && records[i] == Unpack(file[ENTRY_SIZE * i..ENTRY_SIZE * i + ENTRY_SIZE])
      decreases |file| - pos
    {
      var data := file[pos..Min(pos + ENTRY_SIZE, |file|)];
      if data == [] {
        return Records(records);
      }
      if |data| != ENTRY_SIZE {
        return StructError;
      }
      records := records + [Unpack(data)];
      pos := pos + ENTRY_SIZE;
    }
  }

  lemma {:induction false} LogSize(entries: seq<Entry>, flags: Flags)
    requires forall e :: e in entries ==> EntryOk(e)
    ensures |EncodeLog(entries, flags)| == |entries| * RecordSize(flags)
  {
    hide EncodeEntry, RecordSize;
    if entries != [] {
      LogSize(entries[1..], flags);
      assert |entries| * RecordSize(flags) == RecordSize(flags) + (|entries| - 1) * RecordSize(flags);
    }
  }

  /** On a log that the logger wrote the loop ends with an error exactly when its size is no multiple
      of 56; and otherwise, unless it is empty, it finds more records than were written, because no
      flag combination makes the packed record that short. */
  lemma LoggerFileMisread(entries: seq<Entry>, flags: Flags, records: seq<Record>)
    requires (forall e :: e in entries ==> EntryOk(e)) && entries != []
    requires ENTRY_SIZE * |records| == |EncodeLog(entries, flags)|
    ensures |records| > |entries|
  {
    LogSize(entries, flags);
    var n, m, size := |entries|, |records|, RecordSize(flags);
    assert size >= 60;
    assert 56 * m == n * size >= n * 60;
  }
}
