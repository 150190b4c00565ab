/**
 The pending-journal frame: one byte layout, one decoder.
 */
module Frame {
  import opened Wrappers

  type Byte = b: int | 0 <= b < 256
  type Bytes = seq<Byte>

  const MAGIC: Bytes := [77, 87, 80, 69, 78, 68, 48, 0]
  const VERSION: Byte := 0
  const KIND: Byte := 1
  const PREFIX_LEN: nat := 16
  const RECORD_OVERHEAD: nat := 13
  const RECORD_LEN_BASE: nat := 5
  const CEILING: nat := 2101248
  const PHASE_COUNT: nat := 3

  predicate IsTerminal(phaseTag: nat) { phaseTag == PHASE_COUNT }

  datatype PhaseRecord = PhaseRecord(sequence: nat, phaseTag: Byte, payload: Bytes)

  datatype TailState = Clean | IncompletePrefix(bytes: Bytes)

  datatype DecodedFrame = DecodedFrame(rowHeader: Bytes, records: seq<PhaseRecord>, tail: TailState)

  datatype RecordLaw =
    | SequenceOutOfRegistry
    | TagOutOfRegistry(found: nat)
    | FirstTagNotPrepared(found: nat)
    | TagNotAdvancing(previous: nat, found: nat)
    | OverCeiling(end: nat)

  datatype FrameLawError = HeaderOverCeiling(found: nat) | Record(sequence: nat, law: RecordLaw)

  datatype FrameCorruption =
    | Oversized
    | TooShort(found: nat)
    | BadMagic
    | BadVersion(found: nat)
    | BadKind(found: nat)
    | NonzeroReserved(found: nat)
    | BadHeaderLength(found: nat)
    | HeaderTruncated(expected: nat, found: nat)
    | BadRecordLength(sequence: nat, found: nat)
    | LengthEchoMismatch(sequence: nat)
    | SequenceNotDense(expected: nat, found: nat)
    | RecordRefused(sequence: nat, law: RecordLaw)
    | TrailingBytes(found: nat)

  // ----- big-endian words

  const U32: nat := 0x1_0000_0000

  function PutU32(n: nat): (b: Bytes)
    requires n < U32
    ensures |b| == 4
  {
    var q1 := n / 256;
    var q2 := q1 / 256;
    [q2 / 256, q2 % 256, q1 % 256, n % 256]
  }

  function GetU32(b: Bytes): (n: nat)
    requires |b| == 4
    ensures n < U32
  {
    var b0: int, b1: int, b2: int, b3: int := b[0], b[1], b[2], b[3];
    ((b0 * 256 + b1) * 256 + b2) * 256 + b3
  }

  lemma GetPut(n: nat)
    requires n < U32
    ensures GetU32(PutU32(n)) == n
  {
  }

  lemma PutGet(b: Bytes)
    requires |b| == 4
    ensures PutU32(GetU32(b)) == b
  {
    var b0: int, b1: int, b2: int, b3: int := b[0], b[1], b[2], b[3];
    var n := GetU32(b);
    assert n / 256 == (b0 * 256 + b1) * 256 + b2;
    assert n / 256 / 256 == b0 * 256 + b1;
  }

  // ----- the record law

  function CheckRecordSize(sequence: nat, payloadLen: nat, start: nat): Result<(), RecordLaw> {
    if sequence >= PHASE_COUNT then Err(SequenceOutOfRegistry)
    else
      var end := start + RECORD_OVERHEAD + payloadLen;
      if end > CEILING then Err(OverCeiling(end)) else Ok(())
  }

  function CheckRecordTag(sequence: nat, previous: nat, phaseTag: nat): Result<(), RecordLaw> {
    if phaseTag == 0 || phaseTag > PHASE_COUNT then Err(TagOutOfRegistry(phaseTag))
    else if sequence == 0 && phaseTag != 1 then Err(FirstTagNotPrepared(phaseTag))
    else if phaseTag <= previous then Err(TagNotAdvancing(previous, phaseTag))
    else Ok(())
  }

  // ----- encoding

  /** The fixed prefix, then the row header. */
  function HeaderBytes(rowHeader: Bytes): (b: Bytes)
    requires |rowHeader| < U32
    ensures |b| == PREFIX_LEN + |rowHeader|
  {
    MAGIC + [VERSION, KIND, 0, 0] + PutU32(|rowHeader|) + rowHeader
  }

  function EncodeHeader(rowHeader: Bytes): Result<Bytes, FrameLawError> {
    if PREFIX_LEN + |rowHeader| + RECORD_OVERHEAD > CEILING then Err(HeaderOverCeiling(|rowHeader|))
    else Ok(HeaderBytes(rowHeader))
  }

  /** The bytes of one record. */
  function RecordBytes(sequence: nat, phaseTag: Byte, payload: Bytes): (b: Bytes)
    requires sequence < U32 && RECORD_LEN_BASE + |payload| < U32
    ensures |b| == RECORD_OVERHEAD + |payload|
  {
    var len := PutU32(RECORD_LEN_BASE + |payload|);
    len + PutU32(sequence) + [phaseTag] + payload + len
  }

  /** A producer knows only its own record, so the law is applied at its weakest position. */
  function EncodeRecord(sequence: nat, phaseTag: Byte, payload: Bytes): Result<Bytes, FrameLawError> {
    var previous := if sequence < 256 then sequence else 255;
    match CheckRecordSize(sequence, |payload|, PREFIX_LEN)
    case Err(law) => Err(Record(sequence, law))
    case Ok(_) =>
      match CheckRecordTag(sequence, previous, phaseTag)
      case Err(law) => Err(Record(sequence, law))
      case Ok(_) => Ok(RecordBytes(sequence, phaseTag, payload))
  }

  // ----- decoding

  datatype FramePrefix = FramePrefix(rowHeader: Bytes, recordsAt: nat)

  function DecodePrefix(bytes: Bytes): (r: Result<FramePrefix, FrameCorruption>)
    ensures r.Ok? ==> PREFIX_LEN <= r.value.recordsAt <= |bytes|
  {
    if |bytes| < PREFIX_LEN then Err(TooShort(|bytes|))
    else if bytes[0..8] != MAGIC then Err(BadMagic)
    else if bytes[8] != VERSION then Err(BadVersion(bytes[8]))
    else if bytes[9] != KIND then Err(BadKind(bytes[9]))
    else
      var high: int := bytes[10];
      var reserved := high * 256 + bytes[11];
      if reserved != 0 then Err(NonzeroReserved(reserved))
      else
        var headerLen := GetU32(bytes[12..16]);
        if PREFIX_LEN + headerLen + RECORD_OVERHEAD > CEILING then Err(BadHeaderLength(headerLen))
        else
          var recordsAt := PREFIX_LEN + headerLen;
          if |bytes| < recordsAt then Err(HeaderTruncated(headerLen, |bytes| - PREFIX_LEN))
          else Ok(FramePrefix(bytes[PREFIX_LEN..recordsAt], recordsAt))
  }

  type Parsed = Result<(seq<PhaseRecord>, TailState), FrameCorruption>

  datatype RecordExtent = Complete(disk: nat) | Incomplete

  /** Every field `remaining` shows is checked, whether or not the record is complete. */
  function CheckVisibleFields(sequence: nat, previousTag: nat, start: nat, remaining: Bytes)
    : (r: Result<RecordExtent, FrameCorruption>)
    ensures r.Ok? && r.value.Complete? ==> RECORD_OVERHEAD <= r.value.disk <= |remaining|
  {
    if |remaining| < 4 then Ok(Incomplete)
    else
      var declared := GetU32(remaining[0..4]);
      if declared < RECORD_LEN_BASE then Err(BadRecordLength(sequence, declared))
      else
        var payloadLen := declared - RECORD_LEN_BASE;
        var size := CheckRecordSize(sequence, payloadLen, start);
        if size.Err? then Err(RecordRefused(sequence, size.error))
        else if |remaining| >= 8 && GetU32(remaining[4..8]) != sequence then
          Err(SequenceNotDense(sequence, GetU32(remaining[4..8])))
        else
          var tag := if |remaining| >= 9 then CheckRecordTag(sequence, previousTag, remaining[8]) else Ok(());
          if tag.Err? then Err(RecordRefused(sequence, tag.error))
          else
            var disk := RECORD_OVERHEAD + payloadLen;
            if |remaining| < disk then Ok(Incomplete)
            else if GetU32(remaining[disk - 4..disk]) != declared then Err(LengthEchoMismatch(sequence))
            else Ok(Complete(disk))
  }

  function TakeRecord(sequence: nat, remaining: Bytes, disk: nat): PhaseRecord
    requires RECORD_OVERHEAD <= disk <= |remaining|
  {
    PhaseRecord(sequence, remaining[8], remaining[9..disk - 4])
  }

  /** `r` with `records` in front. */
  function Prepend(records: seq<PhaseRecord>, r: Parsed)
    : Parsed
  {
    match r
    case Err(corruption) => Err(corruption)
    case Ok((more, tail)) => Ok((records + more, tail))
  }

  /** The records and tail from `offset` on, after `sequence` records ending in `lastTag`. */
  function DecodeRecords(bytes: Bytes, offset: nat, sequence: nat, lastTag: nat)
    : Parsed
    requires offset <= |bytes|
    decreases |bytes| - offset
  {
    if offset == |bytes| then Ok(([], Clean))
    else if IsTerminal(lastTag) then Err(TrailingBytes(|bytes| - offset))
    else
      var remaining := bytes[offset..];
      match CheckVisibleFields(sequence, lastTag, offset, remaining)
      case Err(corruption) => Err(corruption)
      case Ok(Incomplete) => Ok(([], IncompletePrefix(remaining)))
      case Ok(Complete(disk)) =>
        var record := TakeRecord(sequence, remaining, disk);
        Prepend([record], DecodeRecords(bytes, offset + disk, sequence + 1, record.phaseTag))
  }

  /** What a byte run means as a frame. */
  function Decode(bytes: Bytes): Result<DecodedFrame, FrameCorruption> {
    if |bytes| > CEILING then Err(Oversized)
    else
      match DecodePrefix(bytes)
      case Err(corruption) => Err(corruption)
      case Ok(prefix) =>
        match DecodeRecords(bytes, prefix.recordsAt, 0, 0)
        case Err(corruption) => Err(corruption)
        case Ok((records, tail)) => Ok(DecodedFrame(prefix.rowHeader, records, tail))
  }

  lemma PrependOne(records: seq<PhaseRecord>, record: PhaseRecord, r: Parsed)
    ensures Prepend(records, Prepend([record], r)) == Prepend(records + [record], r)
  {
    if r.Ok? {
      assert records + ([record] + r.value.0) == records + [record] + r.value.0;
    }
  }

  /** The decoder loop. */
  method DecodeFrame(bytes: Bytes) returns (r: Result<DecodedFrame, FrameCorruption>)
    ensures r == Decode(bytes)
  {
    if |bytes| > CEILING {
      return Err(Oversized);
    }
    var prefix := DecodePrefix(bytes);
    if prefix.Err? {
      return Err(prefix.error);
    }
    var records, tail := DecodeLoop(bytes, prefix.value.recordsAt);
    if tail.Err? {
      return Err(tail.error);
    }
    return Ok(DecodedFrame(prefix.value.rowHeader, records, tail.value));
  }

  method DecodeLoop(bytes: Bytes, recordsAt: nat)
    returns (records: seq<PhaseRecord>, tail: Result<TailState, FrameCorruption>)
    requires recordsAt <= |bytes|
    ensures DecodeRecords(bytes, recordsAt, 0, 0) ==
            if tail.Err? then Err(tail.error) else Ok((records, tail.value))
  {
    hide CheckVisibleFields;
    records := [];
    var offset := recordsAt;
    var lastTag := 0;
    ghost var goal := DecodeRecords(bytes, offset, 0, 0);
    assert goal.Ok? ==> [] + goal.value.0 == goal.value.0;
    while true
      invariant offset <= |bytes|
      invariant goal == Prepend(records, DecodeRecords(bytes, offset, |records|, lastTag))
      decreases |bytes| - offset
    {
      if offset == |bytes| {
        assert records + [] == records;
        return records, Ok(Clean);
      }
      if IsTerminal(lastTag) {
        return records, Err(TrailingBytes(|bytes| - offset));
      }
      var sequence := |records|;
      var remaining := bytes[offset..];
      var extent := CheckVisibleFields(sequence, lastTag, offset, remaining);
      if extent.Err? {
        return records, Err(extent.error);
      }
      if extent.value.Incomplete? {
        assert records + [] == records;
        return records, Ok(IncompletePrefix(remaining));
      }
      var record := TakeRecord(sequence, remaining, extent.value.disk);
      PrependOne(records, record, DecodeRecords(bytes, offset + extent.value.disk, sequence + 1, record.phaseTag));
      lastTag := record.phaseTag;
      records := records + [record];
      offset := offset + extent.value.disk;
    }
  }
}
