/**
 What the codec answers, case by case: which runs decode at all, what each corruption found says
 of the bytes, which records the encoder takes, and the frozen bytes of the format.
 */
module FrameAnswers {
  import opened Wrappers
  import opened Frame
  import opened FrameLaws

  // ----- which runs decode

  /** `bytes` is this header, these records and this tail, all lawful where they stand. */
  ghost predicate Reads(bytes: Bytes, f: DecodedFrame) {
    && Lawful(f.rowHeader, f.records) && Encodable(f.records) && |bytes| <= CEILING
    && bytes == FrameBytes(f.rowHeader, f.records) + TailBytes(f.tail)
    && LawfulTail(f.tail, |f.records|, LastTag(f.records, 0), PREFIX_LEN + |f.rowHeader| + TotalSize(f.records))
  }

  lemma AfterHeader(header: Bytes, more: Bytes)
    ensures (header + more)[|header|..] == more
  {
  }

  lemma ReadsDecodes(bytes: Bytes, f: DecodedFrame)
    requires Reads(bytes, f)
    ensures Decode(bytes) == Ok(f)
  {
    hide DecodeRecords, HeaderBytes, OneRecord, CheckVisibleFields, DecodePrefix, LawfulRecords, AllRecords, TornRecord,
         LawfulTail, TotalSize, LastTag, Encodable, TailBytes;
    FrameBytesSize(f.rowHeader, f.records);
    var header, body, more := HeaderBytes(f.rowHeader), AllRecords(f.records), TailBytes(f.tail);
    Assoc(header, body, more);
    HeaderLayout(f.rowHeader, body + more);
    AfterHeader(header, body + more);
    DecodeThrough(bytes, |header|, 0, 0, f.records, more);
    TailDecodes(bytes, |header| + TotalSize(f.records), |f.records|, LastTag(f.records, 0), f.tail);
    assert f.records + [] == f.records;
  }

  lemma TailDecodes(bytes: Bytes, offset: nat, sequence: nat, lastTag: nat, tail: TailState)
    requires offset <= |bytes| && bytes[offset..] == TailBytes(tail) && LawfulTail(tail, sequence, lastTag, offset)
    ensures DecodeRecords(bytes, offset, sequence, lastTag) == Ok(([], tail))
  {
    hide CheckVisibleFields, TornRecord;
    if tail.IncompletePrefix? {
      TornIsIncomplete(sequence, lastTag, offset, tail.bytes);
    }
  }

  /** Main result: a byte run decodes to a frame exactly when it is that frame's header, records and
      tail, each lawful where it stands. */
  lemma DecodesIff(bytes: Bytes, f: DecodedFrame)
    ensures Decode(bytes) == Ok(f) <==> Reads(bytes, f)
  {
    if Decode(bytes) == Ok(f) {
      EncodeDecoded(bytes);
    }
    if Reads(bytes, f) {
      ReadsDecodes(bytes, f);
    }
  }

  // ----- what a corruption says

  /** What a finding about the record at byte `start` says of the bytes `t` from there on. */
  ghost predicate RecordFinding(t: Bytes, sequence: nat, lastTag: nat, start: nat, e: FrameCorruption) {
    match e
    case BadRecordLength(s, found) => s == sequence && |t| >= 4 && found == GetU32(t[0..4]) < 5
    case SequenceNotDense(expected, found) =>
      expected == sequence && |t| >= 8 && found == GetU32(t[4..8]) != sequence
    case LengthEchoMismatch(s) =>
      && s == sequence && |t| >= 13
      && var len := GetU32(t[0..4]);
         5 <= len && 8 + len <= |t| && t[4 + len..8 + len] != t[0..4]
    case TrailingBytes(found) => lastTag == 3 && found == |t| > 0
    case RecordRefused(s, law) =>
      && s == sequence && |t| >= 4
      && (match law
          case SequenceOutOfRegistry => sequence >= 3
          case OverCeiling(end) => end == start + 8 + GetU32(t[0..4]) > 2101248
          case TagOutOfRegistry(found) => |t| >= 9 && found == t[8] && (found == 0 || found > 3)
          case FirstTagNotPrepared(found) => |t| >= 9 && found == t[8] != 1 && sequence == 0
          case TagNotAdvancing(previous, found) => |t| >= 9 && found == t[8] <= lastTag && previous == lastTag)
    case _ => false
  }

  lemma VisibleFinding(sequence: nat, lastTag: nat, start: nat, t: Bytes)
    ensures CheckVisibleFields(sequence, lastTag, start, t).Err? ==>
              RecordFinding(t, sequence, lastTag, start, CheckVisibleFields(sequence, lastTag, start, t).error)
  {
    var r := CheckVisibleFields(sequence, lastTag, start, t);
    if r.Err? && r.error.LengthEchoMismatch? {
      var len := GetU32(t[0..4]);
      if t[4 + len..8 + len] == t[0..4] { assert false; }
    }
  }

  /** A finding inside the records holds of the bytes behind lawful records before it. */
  ghost predicate FindingAt(bytes: Bytes, offset: nat, sequence: nat, lastTag: nat, records: seq<PhaseRecord>,
                            e: FrameCorruption) {
    && LawfulRecords(records, sequence, lastTag, offset) && Encodable(records)
    && offset <= |bytes| && AllRecords(records) <= bytes[offset..]
    && var t := bytes[offset..][|AllRecords(records)|..];
       RecordFinding(t, sequence + |records|, LastTag(records, lastTag), offset + TotalSize(records), e)
  }

  lemma TrailingFinding(bytes: Bytes, offset: nat, sequence: nat, lastTag: nat)
    requires offset < |bytes| && IsTerminal(lastTag)
    ensures DecodeRecords(bytes, offset, sequence, lastTag).Err?
    ensures RecordFinding(bytes[offset..], sequence, lastTag, offset,
                          DecodeRecords(bytes, offset, sequence, lastTag).error)
  {
  }

  lemma FindingCons(bytes: Bytes, offset: nat, sequence: nat, lastTag: nat, r: PhaseRecord, rest: seq<PhaseRecord>,
                    e: FrameCorruption)
    requires LawfulRecord(r, sequence, lastTag, offset) && |r.payload| <= CEILING && offset + Size(r) <= |bytes|
    requires OneRecord(r) == bytes[offset..offset + Size(r)]
    requires FindingAt(bytes, offset + Size(r), sequence + 1, r.phaseTag, rest, e)
    ensures FindingAt(bytes, offset, sequence, lastTag, [r] + rest, e)
  {
    hide OneRecord, RecordFinding;
    var records := [r] + rest;
    assert records[1..] == rest;
    assert r.sequence < PHASE_COUNT && Encodable(records);
    var all, tail := AllRecords(rest), bytes[offset + Size(r)..];
    assert AllRecords(records) == OneRecord(r) + all;
    assert bytes[offset..] == OneRecord(r) + tail;
    assert bytes[offset..][|OneRecord(r) + all|..] == tail[|all|..];
    assert LastTag(records, lastTag) == LastTag(rest, r.phaseTag);
  }

  lemma {:induction false} RecordsFinding(bytes: Bytes, offset: nat, sequence: nat, lastTag: nat, e: FrameCorruption)
    returns (records: seq<PhaseRecord>)
    requires offset <= |bytes| && DecodeRecords(bytes, offset, sequence, lastTag) == Err(e)
    ensures FindingAt(bytes, offset, sequence, lastTag, records, e)
    decreases |bytes| - offset
  {
    hide CheckVisibleFields, OneRecord, RecordFinding;
    var t := bytes[offset..];
    VisibleFinding(sequence, lastTag, offset, t);
    if IsTerminal(lastTag) {
      TrailingFinding(bytes, offset, sequence, lastTag);
      records := [];
    } else if CheckVisibleFields(sequence, lastTag, offset, t).Err? {
      records := [];
    } else {
      VisibleSound(sequence, lastTag, offset, t);
      var disk := CheckVisibleFields(sequence, lastTag, offset, t).value.disk;
      var r := TakeRecord(sequence, t, disk);
      var rest := RecordsFinding(bytes, offset + disk, sequence + 1, r.phaseTag, e);
      records := [r] + rest;
      FindingCons(bytes, offset, sequence, lastTag, r, rest, e);
    }
  }

  /** What a finding about the prefix says of the bytes. */
  ghost predicate PrefixFinding(bytes: Bytes, e: FrameCorruption) {
    match e
    case TooShort(found) => found == |bytes| < 16
    case BadMagic => |bytes| >= 16 && bytes[0..8] != [77, 87, 80, 69, 78, 68, 48, 0]
    case BadVersion(found) => |bytes| >= 16 && found == bytes[8] != 0
    case BadKind(found) => |bytes| >= 16 && found == bytes[9] != 1
    case NonzeroReserved(found) => |bytes| >= 16 && found == 256 * (bytes[10] as int) + bytes[11] != 0
    case BadHeaderLength(found) => |bytes| >= 16 && found == GetU32(bytes[12..16]) > 2101248 - 29
    case HeaderTruncated(expected, found) =>
      |bytes| >= 16 && expected == GetU32(bytes[12..16]) && found == |bytes| - 16 < expected
    case _ => false
  }

  /** Main result: a run that does not decode is over the ceiling, or its prefix or the bytes behind
      its lawful records are exactly what the corruption found says they are. */
  lemma CorruptionHolds(bytes: Bytes)
    requires Decode(bytes).Err?
    ensures var e := Decode(bytes).error;
      || (e.Oversized? && |bytes| > 2101248)
      || PrefixFinding(bytes, e)
      || (DecodePrefix(bytes).Ok? && exists records ::
            FindingAt(bytes, DecodePrefix(bytes).value.recordsAt, 0, 0, records, e))
  {
    hide DecodeRecords, FindingAt;
    if |bytes| <= CEILING && DecodePrefix(bytes).Ok? {
      var records := RecordsFinding(bytes, DecodePrefix(bytes).value.recordsAt, 0, 0, Decode(bytes).error);
    }
  }

  // ----- what the encoders take

  /** A header is encoded exactly when it leaves room for an empty record under the ceiling. */
  lemma HeaderEncodes(rowHeader: Bytes)
    ensures EncodeHeader(rowHeader).Ok? <==> |rowHeader| <= 2101219
    ensures EncodeHeader(rowHeader).Err? ==> EncodeHeader(rowHeader).error == HeaderOverCeiling(|rowHeader|)
    ensures EncodeHeader(rowHeader).Ok? ==>
      var b := EncodeHeader(rowHeader).value;
      && |b| == 16 + |rowHeader| && b[0..12] == [77, 87, 80, 69, 78, 68, 48, 0, 0, 1, 0, 0]
      && b[12..16] == PutU32(|rowHeader|) && b[16..] == rowHeader
  {
  }

  /** A record is encoded exactly when some lawful frame could hold it: its phase is in the registry
      and late enough for its place, and it fits a minimal frame. */
  lemma RecordEncodes(sequence: nat, tag: Byte, payload: Bytes)
    ensures EncodeRecord(sequence, tag, payload).Ok? <==>
            sequence < tag <= 3 && (sequence == 0 ==> tag == 1) && |payload| <= 2101219
    ensures EncodeRecord(sequence, tag, payload).Ok? ==>
      var b, len := EncodeRecord(sequence, tag, payload).value, PutU32(5 + |payload|);
      b == len + PutU32(sequence) + [tag] + payload + len
    ensures EncodeRecord(sequence, tag, payload).Err? ==>
      EncodeRecord(sequence, tag, payload).error ==
        Record(sequence,
               if sequence >= 3 then SequenceOutOfRegistry
               else if |payload| > 2101219 then OverCeiling(29 + |payload|)
               else if tag == 0 || tag > 3 then TagOutOfRegistry(tag)
               else if sequence == 0 then FirstTagNotPrepared(tag)
               else TagNotAdvancing(sequence, tag))
  {
  }

  /** Words are written most significant byte first. */
  lemma WordBytes(n: nat)
    requires n < U32
    ensures PutU32(n)[0] as int * 0x1_00_00_00 + PutU32(n)[1] as int * 0x1_00_00 + PutU32(n)[2] as int * 0x1_00
            + PutU32(n)[3] as int == n
  {
    GetPut(n);
  }

  /** The frozen bytes of one record and of an empty header. */
  lemma FrozenBytes()
    ensures EncodeRecord(1, 2, [0xAB, 0xCD]) == Ok([0, 0, 0, 7, 0, 0, 0, 1, 2, 0xAB, 0xCD, 0, 0, 0, 7])
    ensures EncodeHeader([]) == Ok([77, 87, 80, 69, 78, 68, 48, 0, 0, 1, 0, 0, 0, 0, 0, 0])
  {
    assert PutU32(7) == [0, 0, 0, 7] && PutU32(1) == [0, 0, 0, 1] && PutU32(0) == [0, 0, 0, 0];
    assert RecordBytes(1, 2, [0xAB, 0xCD]) == [0, 0, 0, 7, 0, 0, 0, 1, 2, 0xAB, 0xCD, 0, 0, 0, 7];
    assert HeaderBytes([]) == [77, 87, 80, 69, 78, 68, 48, 0, 0, 1, 0, 0, 0, 0, 0, 0];
  }
}
