/**
 The laws of the frame codec: it is a bijection between lawful frames and decodable byte
 runs, and every torn write of a lawful frame decodes to what was completely written.
 */
module FrameLaws {
  import opened Wrappers
  import opened Frame

  // ----- lawful frames

  ghost function Size(r: PhaseRecord): nat { RECORD_OVERHEAD + |r.payload| }

  /** `r` may stand at byte `start` as record `sequence` after one tagged `lastTag`. */
  ghost predicate LawfulRecord(r: PhaseRecord, sequence: nat, lastTag: nat, start: nat) {
    && r.sequence == sequence < PHASE_COUNT
    && start + RECORD_OVERHEAD + |r.payload| <= CEILING
    && 1 <= r.phaseTag <= PHASE_COUNT && lastTag < r.phaseTag && (sequence == 0 ==> r.phaseTag == 1)
  }

  ghost predicate LawfulRecords(records: seq<PhaseRecord>, sequence: nat, lastTag: nat, start: nat)
    decreases |records|
  {
    records == [] ||
    (LawfulRecord(records[0], sequence, lastTag, start)
     && LawfulRecords(records[1..], sequence + 1, records[0].phaseTag, start + Size(records[0])))
  }

  /** A header and strictly advancing records under the ceiling. */
  ghost predicate Lawful(rowHeader: Bytes, records: seq<PhaseRecord>) {
    && PREFIX_LEN + |rowHeader| + RECORD_OVERHEAD <= CEILING
    && LawfulRecords(records, 0, 0, PREFIX_LEN + |rowHeader|)
  }

  ghost function OneRecord(r: PhaseRecord): (b: Bytes)
    requires r.sequence < PHASE_COUNT && |r.payload| <= CEILING
    ensures |b| == Size(r)
  {
    RecordBytes(r.sequence, r.phaseTag, r.payload)
  }

  ghost predicate Encodable(records: seq<PhaseRecord>) {
    forall i :: 0 <= i < |records| ==> records[i].sequence < PHASE_COUNT && |records[i].payload| <= CEILING
  }

  ghost function AllRecords(records: seq<PhaseRecord>): Bytes
    requires Encodable(records)
  {
    if records == [] then [] else OneRecord(records[0]) + AllRecords(records[1..])
  }

  lemma {:induction false} LawfulEncodable(records: seq<PhaseRecord>, sequence: nat, lastTag: nat, start: nat)
    requires LawfulRecords(records, sequence, lastTag, start)
    ensures Encodable(records)
    decreases |records|
  {
    if records != [] {
      LawfulEncodable(records[1..], sequence + 1, records[0].phaseTag, start + Size(records[0]));
      assert forall i :: 0 < i < |records| ==> records[i] == records[1..][i - 1];
    }
  }

  ghost function FrameBytes(rowHeader: Bytes, records: seq<PhaseRecord>): Bytes
    requires PREFIX_LEN + |rowHeader| + RECORD_OVERHEAD <= CEILING && Encodable(records)
  {
    HeaderBytes(rowHeader) + AllRecords(records)
  }

  function TailBytes(tail: TailState): Bytes {
    match tail
    case Clean => []
    case IncompletePrefix(bytes) => bytes
  }

  function TailOf(leftover: Bytes): TailState {
    if leftover == [] then Clean else IncompletePrefix(leftover)
  }

  lemma Assoc(a: Bytes, b: Bytes, c: Bytes)
    ensures a + (b + c) == (a + b) + c
  {
  }

  lemma TakeInto(a: Bytes, b: Bytes, n: nat)
    requires n <= |b|
    ensures (a + b)[..|a| + n] == a + b[..n] && (a + b[..n])[|a|..] == b[..n]
  {
  }

  // ----- one record, whole or torn

  /** The fields of an encoded record, by position. */
  lemma RecordLayout(r: PhaseRecord)
    requires r.sequence < PHASE_COUNT && |r.payload| <= CEILING
    ensures var b := OneRecord(r); var len := PutU32(RECORD_LEN_BASE + |r.payload|);
      && b[0..4] == len && b[4..8] == PutU32(r.sequence) && b[8] == r.phaseTag
      && b[9..|b| - 4] == r.payload && b[|b| - 4..] == len
  {
  }

  /** What `n` bytes of a lawful record look like to the decoder. */
  lemma VisiblePrefix(r: PhaseRecord, sequence: nat, lastTag: nat, start: nat, n: nat, more: Bytes)
    requires LawfulRecord(r, sequence, lastTag, start)
    requires r.sequence < PHASE_COUNT && |r.payload| <= CEILING && n <= Size(r)
    requires n < Size(r) ==> more == []
    ensures CheckVisibleFields(sequence, lastTag, start, OneRecord(r)[..n] + more) ==
            Ok(if n == Size(r) then Complete(n) else Incomplete)
    ensures n == Size(r) ==> TakeRecord(sequence, OneRecord(r)[..n] + more, n) == r
  {
    var b := OneRecord(r);
    var seen := b[..n] + more;
    RecordLayout(r);
    GetPut(RECORD_LEN_BASE + |r.payload|);
    GetPut(r.sequence);
    hide OneRecord;
    if n >= 4 { SeenSlice(b, n, more, 0, 4); }
    if n >= 8 { SeenSlice(b, n, more, 4, 8); }
    if n >= 9 { assert seen[8] == b[8]; }
    if n == Size(r) {
      SeenSlice(b, n, more, n - 4, n);
      SeenSlice(b, n, more, 9, n - 4);
      assert b[n - 4..n] == b[n - 4..];
    }
  }

  /** A slice of what is seen of `b` is that slice of `b`. */
  lemma SeenSlice(b: Bytes, n: nat, more: Bytes, i: nat, j: nat)
    requires i <= j <= n <= |b|
    ensures (b[..n] + more)[i..j] == b[i..j]
  {
  }

  /** The decoder takes a whole lawful record and goes on behind it. */
  lemma DecodeWhole(bytes: Bytes, offset: nat, sequence: nat, lastTag: nat, r: PhaseRecord, more: Bytes)
    requires LawfulRecord(r, sequence, lastTag, offset) && r.sequence < PHASE_COUNT && |r.payload| <= CEILING
    requires offset <= |bytes| && bytes[offset..] == OneRecord(r) + more
    ensures offset + Size(r) <= |bytes| && bytes[offset + Size(r)..] == more
    ensures DecodeRecords(bytes, offset, sequence, lastTag) ==
            Prepend([r], DecodeRecords(bytes, offset + Size(r), sequence + 1, r.phaseTag))
  {
    var b := OneRecord(r);
    assert b[..Size(r)] == b;
    VisiblePrefix(r, sequence, lastTag, offset, Size(r), more);
    assert bytes[offset + Size(r)..] == bytes[offset..][Size(r)..];
  }

  /** The decoder leaves a torn lawful record as the tail. */
  lemma DecodeTorn(bytes: Bytes, offset: nat, sequence: nat, lastTag: nat, r: PhaseRecord, n: nat)
    requires LawfulRecord(r, sequence, lastTag, offset) && r.sequence < PHASE_COUNT && |r.payload| <= CEILING
    requires n < Size(r) && offset <= |bytes| && bytes[offset..] == OneRecord(r)[..n]
    ensures DecodeRecords(bytes, offset, sequence, lastTag) == Ok(([], TailOf(bytes[offset..])))
  {
    var b := OneRecord(r);
    assert b[..n] + [] == b[..n];
    VisiblePrefix(r, sequence, lastTag, offset, n, []);
  }

  // ----- torn writes

  /** How many records are whole within the first `n` bytes of an encoding. */
  ghost function Whole(records: seq<PhaseRecord>, n: nat): (k: nat)
    ensures k <= |records|
    decreases |records|
  {
    if records == [] || n < Size(records[0]) then 0 else 1 + Whole(records[1..], n - Size(records[0]))
  }

  ghost function TotalSize(records: seq<PhaseRecord>): nat {
    if records == [] then 0 else Size(records[0]) + TotalSize(records[1..])
  }

  lemma {:induction false} AllRecordsSize(records: seq<PhaseRecord>)
    requires Encodable(records)
    ensures |AllRecords(records)| == TotalSize(records)
  {
    if records != [] {
      AllRecordsSize(records[1..]);
    }
  }

  /** The whole records are the maximal run that fits. */
  lemma {:induction false} WholeIsMaximal(records: seq<PhaseRecord>, n: nat)
    ensures TotalSize(records[..Whole(records, n)]) <= n
    ensures Whole(records, n) < |records| ==> n < TotalSize(records[..Whole(records, n) + 1])
    decreases |records|
  {
    if records != [] && n >= Size(records[0]) {
      var k := Whole(records[1..], n - Size(records[0]));
      WholeIsMaximal(records[1..], n - Size(records[0]));
      assert records[..k + 1][1..] == records[1..][..k];
      if k < |records[1..]| {
        assert records[..k + 2][1..] == records[1..][..k + 1];
      }
    } else if records != [] {
      assert records[..1][1..] == [];
    }
  }

  /** The whole records of a torn encoding, then its leftover. */
  ghost function Kept(records: seq<PhaseRecord>, torn: Bytes): (seq<PhaseRecord>, TailState)
    decreases |records|
  {
    if records == [] || |torn| < Size(records[0]) then ([], TailOf(torn))
    else
      var (more, tail) := Kept(records[1..], torn[Size(records[0])..]);
      ([records[0]] + more, tail)
  }

  lemma SliceAgain(b: Bytes, m: nat, n: nat)
    requires m + n <= |b|
    ensures b[m..][n..] == b[m + n..]
  {
  }

  lemma {:induction false} KeptIsWhole(records: seq<PhaseRecord>, torn: Bytes)
    ensures var k := Whole(records, |torn|);
      && TotalSize(records[..k]) <= |torn|
      && Kept(records, torn) == (records[..k], TailOf(torn[TotalSize(records[..k])..]))
    decreases |records|
  {
    if records != [] && |torn| >= Size(records[0]) {
      var size, rest := Size(records[0]), records[1..];
      KeptIsWhole(rest, torn[size..]);
      var k := Whole(rest, |torn| - size);
      assert records[..k + 1] == [records[0]] + rest[..k];
      assert records[..k + 1][1..] == rest[..k];
      SliceAgain(torn, size, TotalSize(rest[..k]));
    }
  }

  /** A prefix of a concatenation stops in its first part or goes into its second. */
  lemma PrefixSplit(torn: Bytes, a: Bytes, b: Bytes)
    requires torn <= a + b
    ensures if |torn| < |a| then torn == a[..|torn|]
            else torn == a + torn[|a|..] && torn[|a|..] <= b
  {
  }

  lemma {:induction false} TornRecords(bytes: Bytes, offset: nat, sequence: nat, lastTag: nat,
                                       records: seq<PhaseRecord>,
                                       torn: Bytes, decoded: Parsed)
    requires LawfulRecords(records, sequence, lastTag, offset) && Encodable(records)
    requires offset <= |bytes| && bytes[offset..] == torn && torn <= AllRecords(records)
    requires decoded == DecodeRecords(bytes, offset, sequence, lastTag)
    ensures decoded == Ok(Kept(records, torn))
    decreases |records|
  {
    hide CheckVisibleFields, OneRecord;
    if records != [] {
      var r, rest := records[0], records[1..];
      PrefixSplit(torn, OneRecord(r), AllRecords(rest));
      if |torn| < Size(r) {
        DecodeTorn(bytes, offset, sequence, lastTag, r, |torn|);
      } else {
        DecodeWhole(bytes, offset, sequence, lastTag, r, torn[Size(r)..]);
        var more := DecodeRecords(bytes, offset + Size(r), sequence + 1, r.phaseTag);
        TornRecords(bytes, offset + Size(r), sequence + 1, r.phaseTag, rest, torn[Size(r)..], more);
        KeptCons(records, torn, more);
      }
    }
  }

  lemma KeptCons(records: seq<PhaseRecord>, torn: Bytes, rest: Parsed)
    requires records != [] && |torn| >= Size(records[0])
    requires rest == Ok(Kept(records[1..], torn[Size(records[0])..]))
    ensures Prepend([records[0]], rest) == Ok(Kept(records, torn))
  {
  }

  lemma HeaderLayout(rowHeader: Bytes, more: Bytes)
    requires PREFIX_LEN + |rowHeader| + RECORD_OVERHEAD <= CEILING
    ensures var b := HeaderBytes(rowHeader);
      && |b| == PREFIX_LEN + |rowHeader|
      && DecodePrefix(b + more) == Ok(FramePrefix(rowHeader, |b|))
  {
    var b := HeaderBytes(rowHeader);
    var all := b + more;
    GetPut(|rowHeader|);
    assert all[0..8] == MAGIC;
    assert all[12..16] == PutU32(|rowHeader|);
    assert all[16..16 + |rowHeader|] == rowHeader;
  }

  /** Every prefix of a lawful frame that holds its header decodes to the maximal run of whole
      records and exactly the leftover bytes. */
  lemma TornFrame(rowHeader: Bytes, records: seq<PhaseRecord>, n: nat)
    requires Lawful(rowHeader, records)
    requires PREFIX_LEN + |rowHeader| <= n <= PREFIX_LEN + |rowHeader| + TotalSize(records)
    ensures Encodable(records) && n <= |FrameBytes(rowHeader, records)|
    ensures var torn := n - PREFIX_LEN - |rowHeader|;
      var k := Whole(records, torn);
      var kept := PREFIX_LEN + |rowHeader| + TotalSize(records[..k]);
      var bytes := FrameBytes(rowHeader, records)[..n];
      && kept <= n && (k < |records| ==> torn < TotalSize(records[..k + 1]))
      && Decode(bytes) == Ok(DecodedFrame(rowHeader, records[..k], TailOf(bytes[kept..])))
  {
    hide DecodeRecords, OneRecord, HeaderBytes, CheckVisibleFields, DecodePrefix, LawfulRecords;
    FrameBytesSize(rowHeader, records);
    var header := HeaderBytes(rowHeader);
    var bytes := FrameBytes(rowHeader, records)[..n];
    var m := n - |header|;
    var torn := AllRecords(records)[..m];
    HeaderLayout(rowHeader, torn);
    assert bytes == header + torn;
    assert bytes[|header|..] == torn;
    TornRecords(bytes, |header|, 0, 0, records, torn, DecodeRecords(bytes, |header|, 0, 0));
    KeptIsWhole(records, torn);
    WholeIsMaximal(records, m);
    var k := Whole(records, m);
    assert torn[TotalSize(records[..k])..] == bytes[|header| + TotalSize(records[..k])..];
  }

  lemma {:induction false} LawfulFits(records: seq<PhaseRecord>, sequence: nat, lastTag: nat, start: nat)
    requires LawfulRecords(records, sequence, lastTag, start) && start <= CEILING
    ensures start + TotalSize(records) <= CEILING
    decreases |records|
  {
    if records != [] {
      LawfulFits(records[1..], sequence + 1, records[0].phaseTag, start + Size(records[0]));
    }
  }

  lemma {:induction false} WholeAll(records: seq<PhaseRecord>)
    ensures Whole(records, TotalSize(records)) == |records|
    decreases |records|
  {
    if records != [] {
      WholeAll(records[1..]);
    }
  }

  lemma FrameBytesSize(rowHeader: Bytes, records: seq<PhaseRecord>)
    requires Lawful(rowHeader, records)
    ensures Encodable(records)
    ensures |FrameBytes(rowHeader, records)| == PREFIX_LEN + |rowHeader| + TotalSize(records) <= CEILING
  {
    LawfulEncodable(records, 0, 0, PREFIX_LEN + |rowHeader|);
    LawfulFits(records, 0, 0, PREFIX_LEN + |rowHeader|);
    AllRecordsSize(records);
  }

  /** Every lawful frame decodes back to itself with a clean tail. */
  lemma DecodeEncoded(rowHeader: Bytes, records: seq<PhaseRecord>)
    requires Lawful(rowHeader, records)
    ensures Encodable(records)
    ensures Decode(FrameBytes(rowHeader, records)) == Ok(DecodedFrame(rowHeader, records, Clean))
  {
    hide DecodeRecords, DecodePrefix, OneRecord, HeaderBytes, Decode, LawfulRecords;
    FrameBytesSize(rowHeader, records);
    WholeAll(records);
    var bytes := FrameBytes(rowHeader, records);
    TornFrame(rowHeader, records, |bytes|);
    assert bytes[..|bytes|] == bytes;
    assert records[..|records|] == records;
  }

  // ----- what decodes was encoded

  lemma VisibleSound(sequence: nat, lastTag: nat, start: nat, remaining: Bytes)
    requires CheckVisibleFields(sequence, lastTag, start, remaining).Ok?
    requires CheckVisibleFields(sequence, lastTag, start, remaining).value.Complete?
    ensures var disk := CheckVisibleFields(sequence, lastTag, start, remaining).value.disk;
      var r := TakeRecord(sequence, remaining, disk);
      && LawfulRecord(r, sequence, lastTag, start) && Size(r) == disk
      && |r.payload| <= CEILING && OneRecord(r) == remaining[..disk]
  {
    var disk := CheckVisibleFields(sequence, lastTag, start, remaining).value.disk;
    var r := TakeRecord(sequence, remaining, disk);
    PutGet(remaining[0..4]);
    PutGet(remaining[4..8]);
    PutGet(remaining[disk - 4..disk]);
    var len := PutU32(RECORD_LEN_BASE + |r.payload|);
    assert len == remaining[0..4] == remaining[disk - 4..disk];
    assert remaining[..disk] ==
      remaining[0..4] + remaining[4..8] + [remaining[8]] + remaining[9..disk - 4] + remaining[disk - 4..disk];
  }

  /** Where `sequence` records ending in `lastTag` may have come from. */
  ghost predicate Follows(sequence: nat, lastTag: nat) {
    lastTag <= PHASE_COUNT && (sequence == 0 ==> lastTag == 0)
  }

  /** `t` shows what the beginning of `r` shows, and less than all of it. The last four bytes, the
      echo, show nothing until they are all there. */
  ghost predicate Shows(t: Bytes, r: PhaseRecord)
    requires r.sequence < PHASE_COUNT && |r.payload| <= CEILING
  {
    && |t| < Size(r)
    && (|t| >= 4 ==> t[0..4] == OneRecord(r)[0..4])
    && (|t| >= 8 ==> t[4..8] == OneRecord(r)[4..8])
    && (|t| >= 9 ==> t[8] == r.phaseTag)
  }

  /** `t` is too short to show a field, or shows those of some record that may stand there. */
  ghost predicate TornRecord(t: Bytes, sequence: nat, lastTag: nat, start: nat) {
    |t| < 4 || exists r :: LawfulRecord(r, sequence, lastTag, start) && |r.payload| <= CEILING && Shows(t, r)
  }

  /** A run is taken as incomplete only where it shows a lawful record. */
  lemma IncompleteIsTorn(sequence: nat, lastTag: nat, start: nat, t: Bytes)
    requires Follows(sequence, lastTag) && !IsTerminal(lastTag)
    requires CheckVisibleFields(sequence, lastTag, start, t) == Ok(Incomplete)
    ensures TornRecord(t, sequence, lastTag, start)
  {
    if |t| >= 4 {
      var tag := if |t| >= 9 then t[8] else (lastTag + 1) as Byte;
      var r := PhaseRecord(sequence, tag, Filler(GetU32(t[0..4]) - RECORD_LEN_BASE));
      RecordLayout(r);
      PutGet(t[0..4]);
      if |t| >= 8 { PutGet(t[4..8]); }
      assert LawfulRecord(r, sequence, lastTag, start) && |r.payload| <= CEILING && Shows(t, r);
    }
  }

  ghost function Filler(n: nat): (b: Bytes)
    ensures |b| == n
  {
    seq(n, _ => 0)
  }

  /** And wherever it shows one, it is. */
  lemma TornIsIncomplete(sequence: nat, lastTag: nat, start: nat, t: Bytes)
    requires TornRecord(t, sequence, lastTag, start)
    ensures CheckVisibleFields(sequence, lastTag, start, t) == Ok(Incomplete)
  {
    if |t| >= 4 {
      var r :| LawfulRecord(r, sequence, lastTag, start) && |r.payload| <= CEILING && Shows(t, r);
      RecordLayout(r);
      GetPut(RECORD_LEN_BASE + |r.payload|);
      GetPut(r.sequence);
    }
  }

  lemma NotTerminal(bytes: Bytes, offset: nat, sequence: nat, lastTag: nat)
    requires offset < |bytes| && DecodeRecords(bytes, offset, sequence, lastTag).Ok?
    ensures !IsTerminal(lastTag)
  {
  }

  /** One decoder step, read backwards. */
  lemma DecodedStep(bytes: Bytes, offset: nat, sequence: nat, lastTag: nat) returns (r: Option<PhaseRecord>)
    requires offset < |bytes| && DecodeRecords(bytes, offset, sequence, lastTag).Ok?
    ensures r.None? ==> DecodeRecords(bytes, offset, sequence, lastTag) == Ok(([], IncompletePrefix(bytes[offset..])))
    ensures r.None? && Follows(sequence, lastTag) ==> TornRecord(bytes[offset..], sequence, lastTag, offset)
    ensures r.Some? ==>
      && LawfulRecord(r.value, sequence, lastTag, offset) && |r.value.payload| <= CEILING
      && offset + Size(r.value) <= |bytes|
      && bytes[offset..] == OneRecord(r.value) + bytes[offset + Size(r.value)..]
      && DecodeRecords(bytes, offset, sequence, lastTag) ==
         Prepend([r.value], DecodeRecords(bytes, offset + Size(r.value), sequence + 1, r.value.phaseTag))
  {
    hide CheckVisibleFields, TornRecord, Follows, OneRecord, TakeRecord;
    var remaining := bytes[offset..];
    var extent := CheckVisibleFields(sequence, lastTag, offset, remaining).value;
    if extent.Incomplete? {
      if Follows(sequence, lastTag) && !IsTerminal(lastTag) { IncompleteIsTorn(sequence, lastTag, offset, remaining); }
      return None;
    }
    VisibleSound(sequence, lastTag, offset, remaining);
    SliceAgain(bytes, offset, extent.disk);
    assert remaining == remaining[..extent.disk] + remaining[extent.disk..];
    return Some(TakeRecord(sequence, remaining, extent.disk));
  }

  /** The bytes from `offset` on are exactly these lawful records, then this tail. */
  ghost predicate Explains(bytes: Bytes, offset: nat, sequence: nat, lastTag: nat,
                           parsed: (seq<PhaseRecord>, TailState)) {
    && offset <= |bytes|
    && LawfulRecords(parsed.0, sequence, lastTag, offset) && Encodable(parsed.0)
    && bytes[offset..] == AllRecords(parsed.0) + TailBytes(parsed.1)
    && LawfulTail(parsed.1, sequence + |parsed.0|, LastTag(parsed.0, lastTag), offset + TotalSize(parsed.0))
  }

  /** A tail is nothing, or the beginning of a record that may stand there. */
  ghost predicate LawfulTail(tail: TailState, sequence: nat, lastTag: nat, start: nat) {
    tail.IncompletePrefix? ==>
      tail.bytes != [] && !IsTerminal(lastTag) && TornRecord(tail.bytes, sequence, lastTag, start)
  }

  lemma ExplainsTail(bytes: Bytes, offset: nat, sequence: nat, lastTag: nat)
    requires offset <= |bytes| && LawfulTail(TailOf(bytes[offset..]), sequence, lastTag, offset)
    ensures Explains(bytes, offset, sequence, lastTag, ([], TailOf(bytes[offset..])))
  {
    assert [] + bytes[offset..] == bytes[offset..];
  }

  lemma ExplainsCons(bytes: Bytes, offset: nat, sequence: nat, lastTag: nat, r: PhaseRecord,
                     parsed: (seq<PhaseRecord>, TailState))
    requires LawfulRecord(r, sequence, lastTag, offset) && |r.payload| <= CEILING
    requires offset + Size(r) <= |bytes| && bytes[offset..] == OneRecord(r) + bytes[offset + Size(r)..]
    requires Explains(bytes, offset + Size(r), sequence + 1, r.phaseTag, parsed)
    ensures Explains(bytes, offset, sequence, lastTag, ([r] + parsed.0, parsed.1))
  {
    var records := [r] + parsed.0;
    assert records[1..] == parsed.0;
    assert LastTag(records, lastTag) == LastTag(parsed.0, r.phaseTag);
    assert AllRecords(records) + TailBytes(parsed.1) == OneRecord(r) + (AllRecords(parsed.0) + TailBytes(parsed.1));
  }

  lemma {:induction false} DecodedRecords(bytes: Bytes, offset: nat, sequence: nat, lastTag: nat,
                                          parsed: (seq<PhaseRecord>, TailState))
    requires offset <= |bytes| && DecodeRecords(bytes, offset, sequence, lastTag) == Ok(parsed)
    requires Follows(sequence, lastTag)
    ensures Explains(bytes, offset, sequence, lastTag, parsed)
    decreases |bytes| - offset
  {
    hide CheckVisibleFields, Explains, OneRecord, TornRecord;
    if offset == |bytes| {
      ExplainsTail(bytes, offset, sequence, lastTag);
    } else {
      var step := DecodedStep(bytes, offset, sequence, lastTag);
      if step.None? {
        NotTerminal(bytes, offset, sequence, lastTag);
        ExplainsTail(bytes, offset, sequence, lastTag);
      } else {
        var r := step.value;
        var rest := DecodeRecords(bytes, offset + Size(r), sequence + 1, r.phaseTag).value;
        DecodedRecords(bytes, offset + Size(r), sequence + 1, r.phaseTag, rest);
        ExplainsCons(bytes, offset, sequence, lastTag, r, rest);
      }
    }
  }

  lemma PrefixSound(bytes: Bytes)
    requires DecodePrefix(bytes).Ok?
    ensures var p := DecodePrefix(bytes).value;
      && PREFIX_LEN + |p.rowHeader| + RECORD_OVERHEAD <= CEILING
      && p.recordsAt == PREFIX_LEN + |p.rowHeader|
      && HeaderBytes(p.rowHeader) == bytes[..p.recordsAt]
  {
    var p := DecodePrefix(bytes).value;
    PutGet(bytes[12..16]);
    assert bytes[10] == 0 && bytes[11] == 0;
    assert bytes[..p.recordsAt] ==
      bytes[0..8] + [bytes[8], bytes[9], bytes[10], bytes[11]] + bytes[12..16] + bytes[16..p.recordsAt];
  }

  /** Every byte run that decodes is its header, its records, then its tail, byte for byte. */
  lemma EncodeDecoded(bytes: Bytes)
    requires Decode(bytes).Ok?
    ensures var f := Decode(bytes).value;
      && Lawful(f.rowHeader, f.records) && Encodable(f.records)
      && FrameBytes(f.rowHeader, f.records) + TailBytes(f.tail) == bytes
      && LawfulTail(f.tail, |f.records|, LastTag(f.records, 0), PREFIX_LEN + |f.rowHeader| + TotalSize(f.records))
  {
    hide CheckVisibleFields, DecodePrefix, DecodeRecords, OneRecord, HeaderBytes, TornRecord;
    var p := DecodePrefix(bytes).value;
    PrefixSound(bytes);
    var f := Decode(bytes).value;
    DecodedRecords(bytes, p.recordsAt, 0, 0, (f.records, f.tail));
    assert bytes == bytes[..p.recordsAt] + bytes[p.recordsAt..];
    Assoc(HeaderBytes(f.rowHeader), AllRecords(f.records), TailBytes(f.tail));
  }

  /** The encoders accept every lawful frame. */
  lemma {:induction false} LawfulEncodes(records: seq<PhaseRecord>, sequence: nat, lastTag: nat, start: nat, i: nat)
    requires LawfulRecords(records, sequence, lastTag, start) && i < |records|
    requires sequence <= lastTag && PREFIX_LEN <= start
    ensures records[i].sequence == sequence + i
    ensures records[i].sequence < PHASE_COUNT && |records[i].payload| <= CEILING
    ensures EncodeRecord(records[i].sequence, records[i].phaseTag, records[i].payload) == Ok(OneRecord(records[i]))
    decreases |records|
  {
    if i > 0 {
      LawfulEncodes(records[1..], sequence + 1, records[0].phaseTag, start + Size(records[0]), i - 1);
    }
  }

  // ----- lengths

  function RecordSizes(records: seq<PhaseRecord>): nat {
    if records == [] then 0 else RECORD_OVERHEAD + |records[0].payload| + RecordSizes(records[1..])
  }

  /** The exact byte length of a decoded frame's durable content. */
  function FrameTotalLen(f: DecodedFrame): nat {
    PREFIX_LEN + |f.rowHeader| + RecordSizes(f.records)
  }

  lemma {:induction false} RecordSizesTotal(records: seq<PhaseRecord>)
    ensures RecordSizes(records) == TotalSize(records)
  {
    if records != [] {
      RecordSizesTotal(records[1..]);
    }
  }

  /** The durable content is the input without its tail. */
  lemma TotalLenIsLessTail(bytes: Bytes)
    requires Decode(bytes).Ok?
    ensures FrameTotalLen(Decode(bytes).value) == |bytes| - |TailBytes(Decode(bytes).value.tail)|
    ensures bytes == bytes[..FrameTotalLen(Decode(bytes).value)] + TailBytes(Decode(bytes).value.tail)
  {
    EncodeDecoded(bytes);
    var f := Decode(bytes).value;
    RecordSizesTotal(f.records);
    FrameBytesSize(f.rowHeader, f.records);
    var content := FrameBytes(f.rowHeader, f.records);
    assert bytes[..|content|] == content;
  }

  /** Dropping the tail leaves a clean frame of the same records. */
  lemma TruncatedDecodes(bytes: Bytes)
    requires Decode(bytes).Ok?
    ensures var f := Decode(bytes).value;
      FrameTotalLen(f) <= |bytes| && Decode(bytes[..FrameTotalLen(f)]) == Ok(f.(tail := Clean))
  {
    EncodeDecoded(bytes);
    TotalLenIsLessTail(bytes);
    var f := Decode(bytes).value;
    RecordSizesTotal(f.records);
    FrameBytesSize(f.rowHeader, f.records);
    DecodeEncoded(f.rowHeader, f.records);
    assert bytes[..FrameTotalLen(f)] == FrameBytes(f.rowHeader, f.records);
  }

  // ----- appending one record

  ghost function LastTag(records: seq<PhaseRecord>, lastTag: nat): nat {
    if records == [] then lastTag else records[|records| - 1].phaseTag
  }

  lemma {:induction false} SnocLawful(records: seq<PhaseRecord>, r: PhaseRecord, sequence: nat, lastTag: nat,
                                      start: nat)
    requires LawfulRecords(records, sequence, lastTag, start)
    requires LawfulRecord(r, sequence + |records|, LastTag(records, lastTag), start + TotalSize(records))
    ensures LawfulRecords(records + [r], sequence, lastTag, start)
    ensures TotalSize(records + [r]) == TotalSize(records) + Size(r)
    decreases |records|
  {
    if records == [] {
      assert ([] + [r])[1..] == [];
      assert records + [r] == [r];
    } else {
      var rest := records[1..];
      SnocLawful(rest, r, sequence + 1, records[0].phaseTag, start + Size(records[0]));
      assert (records + [r])[1..] == rest + [r];
    }
  }

  lemma {:induction false} SnocBytes(records: seq<PhaseRecord>, r: PhaseRecord)
    requires Encodable(records) && Encodable(records + [r])
    ensures r.sequence < PHASE_COUNT && |r.payload| <= CEILING
    ensures AllRecords(records + [r]) == AllRecords(records) + OneRecord(r)
  {
    assert (records + [r])[|records|] == r;
    if records == [] {
      assert records + [r] == [r];
      assert [r][1..] == [];
    } else {
      var rest := records[1..];
      assert (records + [r])[1..] == rest + [r];
      assert forall i :: 0 <= i < |rest + [r]| ==> (rest + [r])[i] == (records + [r])[i + 1];
      SnocBytes(rest, r);
    }
  }

  lemma {:induction false} WholeSnoc(records: seq<PhaseRecord>, r: PhaseRecord, n: nat)
    requires TotalSize(records) <= n < TotalSize(records) + Size(r)
    ensures Whole(records + [r], n) == |records|
    decreases |records|
  {
    if records == [] {
      assert records + [r] == [r];
    } else {
      assert (records + [r])[1..] == records[1..] + [r];
      WholeSnoc(records[1..], r, n - Size(records[0]));
    }
  }

  lemma AppendLawful(h: Bytes, records: seq<PhaseRecord>, r: PhaseRecord)
    requires Lawful(h, records)
    requires LawfulRecord(r, |records|, LastTag(records, 0), PREFIX_LEN + |h| + TotalSize(records))
    ensures Lawful(h, records + [r])
    ensures TotalSize(records + [r]) == TotalSize(records) + Size(r)
  {
    hide LawfulRecords, LawfulRecord, TotalSize;
    SnocLawful(records, r, 0, 0, PREFIX_LEN + |h|);
  }

  lemma AppendBytes(h: Bytes, records: seq<PhaseRecord>, r: PhaseRecord)
    requires PREFIX_LEN + |h| + RECORD_OVERHEAD <= CEILING && Encodable(records) && Encodable(records + [r])
    ensures r.sequence < PHASE_COUNT && |r.payload| <= CEILING
    ensures FrameBytes(h, records + [r]) == FrameBytes(h, records) + OneRecord(r)
  {
    SnocBytes(records, r);
    Assoc(HeaderBytes(h), AllRecords(records), OneRecord(r));
  }

  /** A torn append of the legal next record leaves the old frame and the torn bytes. */
  lemma TornAppendFrame(h: Bytes, records: seq<PhaseRecord>, all: seq<PhaseRecord>, r: PhaseRecord, n: nat)
    requires Lawful(h, all) && all == records + [r] && n < Size(r)
    requires Encodable(records) && Encodable(all) && r.sequence < PHASE_COUNT && |r.payload| <= CEILING
    requires TotalSize(all) == TotalSize(records) + Size(r)
    requires FrameBytes(h, all) == FrameBytes(h, records) + OneRecord(r)
    requires |FrameBytes(h, records)| == PREFIX_LEN + |h| + TotalSize(records)
    ensures Decode(FrameBytes(h, records) + OneRecord(r)[..n]) ==
            Ok(DecodedFrame(h, records, TailOf(OneRecord(r)[..n])))
  {
    hide Decode, OneRecord, FrameBytes, AllRecords, TotalSize, Whole, LawfulRecords;
    var content := FrameBytes(h, records);
    TakeInto(content, OneRecord(r), n);
    TornFrame(h, all, |content| + n);
    WholeSnoc(records, r, TotalSize(records) + n);
    assert all[..|records|] == records;
  }

  /** Appending the legal next record to a clean frame: torn bytes are a tail, a whole record
      is added. */
  lemma AppendTorn(bytes: Bytes, f: DecodedFrame, r: PhaseRecord, n: nat)
    requires Decode(bytes) == Ok(f) && f.tail.Clean?
    requires LawfulRecord(r, |f.records|, LastTag(f.records, 0), |bytes|)
    requires n <= Size(r)
    ensures r.sequence < PHASE_COUNT && |r.payload| <= CEILING
    ensures Decode(bytes + OneRecord(r)[..n]) ==
            Ok(if n == Size(r) then f.(records := f.records + [r]) else f.(tail := TailOf(OneRecord(r)[..n])))
  {
    hide Decode, OneRecord, HeaderBytes, LawfulRecords, LawfulRecord;
    EncodeDecoded(bytes);
    assert bytes == FrameBytes(f.rowHeader, f.records);
    FrameBytesSize(f.rowHeader, f.records);
    AppendLawful(f.rowHeader, f.records, r);
    var all := f.records + [r];
    FrameBytesSize(f.rowHeader, all);
    AppendBytes(f.rowHeader, f.records, r);
    if n == Size(r) {
      assert OneRecord(r)[..n] == OneRecord(r);
      DecodeEncoded(f.rowHeader, all);
    } else {
      TornAppendFrame(f.rowHeader, f.records, all, r, n);
    }
  }

  // ----- bytes behind a clean frame

  /** Whatever follows whole lawful records, the decoder takes them and goes on behind them. */
  lemma {:induction false} DecodeThrough(bytes: Bytes, offset: nat, sequence: nat, lastTag: nat,
                                         records: seq<PhaseRecord>, more: Bytes)
    requires LawfulRecords(records, sequence, lastTag, offset) && Encodable(records)
    requires offset <= |bytes| && bytes[offset..] == AllRecords(records) + more
    ensures offset + TotalSize(records) <= |bytes| && bytes[offset + TotalSize(records)..] == more
    ensures DecodeRecords(bytes, offset, sequence, lastTag) ==
            Prepend(records,
                    DecodeRecords(bytes, offset + TotalSize(records), sequence + |records|, LastTag(records, lastTag)))
    decreases |records|
  {
    hide CheckVisibleFields, OneRecord, DecodeRecords;
    if records == [] {
      assert AllRecords(records) + more == more;
      PrependNothing(DecodeRecords(bytes, offset, sequence, lastTag));
    } else {
      var r, rest := records[0], records[1..];
      Assoc(OneRecord(r), AllRecords(rest), more);
      DecodeWhole(bytes, offset, sequence, lastTag, r, AllRecords(rest) + more);
      DecodeThrough(bytes, offset + Size(r), sequence + 1, r.phaseTag, rest, more);
      assert TotalSize(records) == Size(r) + TotalSize(rest) && |records| == 1 + |rest| && [r] + rest == records;
      assert LastTag(rest, r.phaseTag) == LastTag(records, lastTag);
      PrependTwice(r, rest,
        DecodeRecords(bytes, offset + TotalSize(records), sequence + |records|, LastTag(records, lastTag)));
    }
  }

  lemma PrependNothing(r: Parsed)
    ensures Prepend([], r) == r
  {
    if r.Ok? { assert [] + r.value.0 == r.value.0; }
  }

  lemma PrependTwice(r: PhaseRecord, rest: seq<PhaseRecord>, more: Parsed)
    ensures Prepend([r], Prepend(rest, more)) == Prepend([r] + rest, more)
  {
    if more.Ok? { assert [r] + (rest + more.value.0) == [r] + rest + more.value.0; }
  }

  /** Nothing decodes behind a terminal record. */
  lemma TerminalStops(bytes: Bytes, offset: nat, sequence: nat, lastTag: nat)
    requires offset < |bytes| && IsTerminal(lastTag)
    ensures DecodeRecords(bytes, offset, sequence, lastTag).Err?
  {
  }

  /** Bytes that go on behind a clean frame, and decode, hold its header and all its records; behind
      a terminal record nothing goes on. */
  lemma ExtendedDecodes(bytes: Bytes, longer: Bytes)
    requires Decode(bytes).Ok? && Decode(bytes).value.tail.Clean? && bytes <= longer && Decode(longer).Ok?
    ensures Decode(longer).value.rowHeader == Decode(bytes).value.rowHeader
    ensures Decode(bytes).value.records <= Decode(longer).value.records
    ensures IsTerminal(LastTag(Decode(bytes).value.records, 0)) ==> longer == bytes
  {
    hide DecodeRecords, HeaderBytes, OneRecord, CheckVisibleFields, DecodePrefix, LawfulRecords, Decode, AllRecords;
    var f := Decode(bytes).value;
    EncodeDecoded(bytes);
    FrameBytesSize(f.rowHeader, f.records);
    var more := longer[|bytes|..];
    assert longer == bytes + more;
    assert bytes == FrameBytes(f.rowHeader, f.records) + [] == FrameBytes(f.rowHeader, f.records);
    DecodeBehind(f.rowHeader, f.records, longer, more);
    if IsTerminal(LastTag(f.records, 0)) && |bytes| < |longer| {
      TerminalStops(longer, |bytes|, |f.records|, LastTag(f.records, 0));
      assert false;
    }
  }

  /** Decoding a lawful frame with more behind it takes its header and records and goes on. */
  lemma DecodeBehind(rowHeader: Bytes, records: seq<PhaseRecord>, bytes: Bytes, more: Bytes)
    requires Lawful(rowHeader, records) && Encodable(records) && bytes == FrameBytes(rowHeader, records) + more
    requires Decode(bytes).Ok?
    ensures |FrameBytes(rowHeader, records)| <= |bytes|
    ensures Decode(bytes).value.rowHeader == rowHeader && records <= Decode(bytes).value.records
    ensures DecodeRecords(bytes, |FrameBytes(rowHeader, records)|, |records|, LastTag(records, 0)).Ok?
  {
    hide DecodeRecords, HeaderBytes, OneRecord, CheckVisibleFields, DecodePrefix, LawfulRecords, AllRecords;
    FrameBytesSize(rowHeader, records);
    var header, body := HeaderBytes(rowHeader), AllRecords(records);
    Assoc(header, body, more);
    HeaderLayout(rowHeader, body + more);
    assert bytes[|header|..] == body + more;
    DecodeThrough(bytes, |header|, 0, 0, records, more);
  }
}
