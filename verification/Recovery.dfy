/**
 Recovery of an interrupted append: whatever a crash left of the record in flight, the
 acknowledged content survives, and replaying the record restores the journal.
 */
module Recovery {
  import opened Wrappers
  import opened Frame
  import opened FrameLaws
  import opened Custody
  import opened AdmittedDirectory
  import opened Markers
  import opened Journal

  /** `content` is acknowledged and `record` is its legal next record. */
  ghost predicate InFlight(content: Bytes, record: PhaseRecord) {
    && Decode(content).Ok? && Decode(content).value.tail.Clean? && Decode(content).value.records != []
    && LawfulRecord(record, |Decode(content).value.records|, LastTag(Decode(content).value.records, 0), |content|)
    && record.sequence < PHASE_COUNT && |record.payload| <= CEILING
  }

  /** The pending name is committed, and every crash leaves the content and a prefix of the record. */
  ghost predicate Interrupted(fs: Fs, name: PendingName, j: Ino, content: Bytes, record: PhaseRecord) {
    && Safe(fs, name, j) && InFlight(content, record)
    && (forall s :: s in fs.survivors ==> name.claim !in s && name.pending in s)
    && (forall d :: d in fs.inodes[j].disk ==> content <= d <= content + OneRecord(record))
  }

  /** A directory with nothing unsynced: what it reads as is what its bytes and names are. */
  ghost predicate Settled(fs: Fs) {
    Coherent(fs) && fs.survivors == {fs.entries} && forall i :: i in fs.inodes ==> SyncedFile(fs, i)
  }

  lemma CrashSettles(fs: Fs, after: Fs)
    requires Coherent(fs) && CrashImage(fs, after)
    ensures Settled(after)
  {
  }

  /** Each readable state is ready for the operation that recovers it: nothing to do, debris to
      discard, a claim to adopt, or a journal to truncate and resume. */
  ghost predicate Ready(fs: Fs, name: PendingName) {
    match Admit(fs, name)
    case Some(Absent) => DurablyAbsent(fs, name)
    case Some(Preclaim) => name.claim in fs.entries && name.pending !in fs.entries
    case Some(Claimed(j, frame)) =>
      ClaimedPair(fs, name, j) && Prepared(fs, j) && SyncedFile(fs, j) && Decode(fs.inodes[j].data) == Ok(frame)
    case Some(Pending(j, frame)) =>
      Replayed(fs, name, j, frame) && SyncedFile(fs, j) && Decode(fs.inodes[j].data) == Ok(frame)
    case _ => false
  }

  /** Whatever a settled directory reads as, short of corruption, it is ready for. Link counts and
      the replay alone decide. */
  lemma SettledReady(fs: Fs, name: PendingName)
    requires Settled(fs) && name.claim != name.pending
    requires Admit(fs, name).Some? && !Admit(fs, name).value.Corrupt?
    ensures Ready(fs, name)
  {
    match Admit(fs, name).value {
      case Claimed(j, frame) =>
        hide Decode;
        ClaimedMeans(fs, name, j, frame);
      case Pending(j, frame) => PendingReady(fs, name, j, frame);
      case _ =>
    }
  }

  lemma PendingReady(fs: Fs, name: PendingName, j: Ino, frame: DecodedFrame)
    requires Settled(fs) && name.claim != name.pending && Admit(fs, name) == Some(Pending(j, frame))
    ensures Replayed(fs, name, j, frame) && SyncedFile(fs, j) && Decode(fs.inodes[j].data) == Ok(frame)
  {
    hide DecodePrefix, DecodeRecords;
    OneName(fs.entries, name.pending, j);
    TruncatedDecodes(fs.inodes[j].data);
  }

  lemma OneName(entries: Entries, name: Name, j: Ino)
    requires name in entries && entries[name] == j && |NamesOf(entries, j)| == 1
    ensures forall n :: n in entries && entries[n] == j ==> n == name
  {
    assert {name} <= NamesOf(entries, j);
    SubsetOfSize({name}, NamesOf(entries, j));
    assert forall n :: n in entries && entries[n] == j ==> n in NamesOf(entries, j);
  }

  /** Main result: a crash of any crash-safe state, inside a claim, an append or a finish, leaves a
      directory that is ready for the operation it reads as. */
  lemma CrashReady(fs: Fs, after: Fs, name: PendingName)
    requires CrashSafe(fs, name) && name.claim != name.pending && CrashImage(fs, after)
    ensures Settled(after) && Ready(after, name)
  {
    hide Decode, Admit, Ready, CrashImage;
    CrashSettles(fs, after);
    SettledReady(after, name);
  }

  /** Every crash of one journal's own directory leaves one of the four states of that journal. */
  lemma CrashDispatch(fs: Fs, after: Fs, name: PendingName, j: Ino)
    requires Safe(fs, name, j) && CrashImage(fs, after)
    ensures Safe(after, name, j) && Ready(after, name)
    ensures match Admit(after, name)
      case Some(Absent) => name.pending !in after.entries && name.claim !in after.entries
      case Some(Preclaim) => name.claim in after.entries && name.pending !in after.entries
      case Some(Claimed(file, _)) => file == j && name.claim in after.entries && name.pending in after.entries
      case Some(Pending(file, _)) => file == j && name.claim !in after.entries && name.pending in after.entries
      case _ => false
  {
    hide Decode, Admit, Ready;
    CrashKeepsSafe(fs, after, name, j);
    assert after.entries in after.survivors && after.inodes[j].data in after.inodes[j].disk;
    assert Legible(after.entries, name, after.inodes[j].data);
    SafeAdmits(after, name, j);
    SafeIsCrashSafe(fs, name, j);
    CrashReady(fs, after, name);
  }

  /** A crash while a claimed pair is being adopted leaves a claim to adopt again or the journal
      it becomes, with bytes a crash could leave before. */
  lemma AdoptionRecovers(fs: Fs, st: Fs, after: Fs, name: PendingName, j: Ino)
    requires Adopting(fs, st, name, j) && Safe(fs, name, j) && KeepsPending(fs, name) && CrashImage(st, after)
    ensures var state := Admit(after, name);
      && state.Some? && (state.value.Claimed? || state.value.Pending?) && state.value.file == j
      && Ready(after, name) && KeepsPending(after, name)
      && j in fs.inodes && j in after.inodes && after.inodes[j].data in fs.inodes[j].disk
  {
    hide Decode, Admit, Ready;
    CrashDispatch(st, after, name, j);
    assert name.pending in after.entries;
  }

  /** A synced live journal stands ready to be interrupted by any legal next record. */
  lemma ReadyForAppend(fs: Fs, name: PendingName, j: Ino, content: Bytes, nextSequence: nat, lastTag: nat,
                       record: PhaseRecord)
    requires Live(fs, name, j, |content|, nextSequence, lastTag)
    requires fs.inodes[j].data == content && fs.inodes[j].disk == {content}
    requires forall s :: s in fs.survivors ==> name.pending in s
    requires LawfulRecord(record, nextSequence, lastTag, |content|)
    ensures Interrupted(fs, name, j, content, record)
  {
    hide Decode, Safe;
    assert content[..|content|] == content;
    assert content <= content + OneRecord(record);
  }

  /** What is left of a torn append reads as the old records and the torn bytes, or as both. */
  lemma TornContent(content: Bytes, record: PhaseRecord, d: Bytes)
    requires InFlight(content, record) && content <= d <= content + OneRecord(record)
    ensures var f := Decode(content).value;
      Decode(d) == Ok(if |d| == |content| + Size(record) then f.(records := f.records + [record])
                      else f.(tail := TailOf(d[|content|..])))
    ensures Replays(d) && d == content + OneRecord(record)[..|d| - |content|]
  {
    hide Decode, OneRecord, LawfulRecord;
    var n := |d| - |content|;
    assert d == content + OneRecord(record)[..n];
    assert d[|content|..] == OneRecord(record)[..n];
    AppendTorn(content, Decode(content).value, record, n);
  }

  /** Writing within the record keeps the interruption. */
  lemma WriteKeeps(fs: Fs, name: PendingName, j: Ino, content: Bytes, record: PhaseRecord, st: Fs)
    requires Interrupted(fs, name, j, content, record)
    requires st.entries == fs.entries && st.survivors == fs.survivors && j in st.inodes
    requires st.inodes == fs.inodes[j := fs.inodes[j].(data := st.inodes[j].data, disk := st.inodes[j].disk)]
    requires st.inodes[j].data in st.inodes[j].disk
    requires forall d :: d in st.inodes[j].disk ==> content <= d <= content + OneRecord(record)
    ensures Interrupted(st, name, j, content, record)
  {
    hide Decode, OneRecord, LawfulRecord, InFlight, Safe, Replays;
    forall s, d | s in fs.survivors && d in st.inodes[j].disk
      ensures Legible(s, name, d)
    {
      TornContent(content, record, d);
    }
    WriteSafe(fs, name, j, st);
  }

  /** Every state of appending the record is an interruption of it. */
  lemma AppendKeeps(fs: Fs, name: PendingName, j: Ino, content: Bytes, record: PhaseRecord, st: Fs)
    requires Interrupted(fs, name, j, content, record) && fs.inodes[j].data == content
    requires AppendState(fs, j, OneRecord(record), st)
    ensures Interrupted(st, name, j, content, record)
  {
    hide Decode, OneRecord, Owned, Legible, Coherent, LawfulRecord;
    var bytes := OneRecord(record);
    if st != fs {
      if st == SyncFile(Append(fs, j, bytes), j) {
      } else {
        var n :| 0 <= n <= |bytes| && st == Append(fs, j, bytes[..n]);
        forall d | d in st.inodes[j].disk
          ensures content <= d <= content + bytes
        {
          AppendOutcomes(fs, j, bytes[..n], d);
          if d !in fs.inodes[j].disk {
            var k :| 0 <= k <= n && d == content + bytes[..n][..k];
            assert bytes[..n][..k] == bytes[..k];
          }
        }
        AppendOutcomes(fs, j, bytes[..n], content);
      }
      WriteKeeps(fs, name, j, content, record, st);
    }
  }

  /** Every state of truncating back to the content is an interruption of the record. */
  lemma TruncateKeeps(fs: Fs, name: PendingName, j: Ino, content: Bytes, record: PhaseRecord, st: Fs)
    requires Interrupted(fs, name, j, content, record)
    requires content <= fs.inodes[j].data && TruncateState(fs, j, |content|, st)
    ensures Interrupted(st, name, j, content, record)
  {
    hide Decode, OneRecord, InFlight, Owned, Legible, LawfulRecord;
    if st != fs {
      WriteKeeps(fs, name, j, content, record, st);
    }
  }

  /** A crash during recovery can be recovered from again. */
  lemma CrashKeeps(fs: Fs, after: Fs, name: PendingName, j: Ino, content: Bytes, record: PhaseRecord)
    requires Interrupted(fs, name, j, content, record) && CrashImage(fs, after)
    ensures Interrupted(after, name, j, content, record)
  {
    hide Decode, OneRecord, InFlight, Safe;
    CrashKeepsSafe(fs, after, name, j);
    assert j in fs.inodes by {
      SafeInode(fs, name, j);
    }
  }

  lemma SafeInode(fs: Fs, name: PendingName, j: Ino)
    requires Safe(fs, name, j)
    ensures j in fs.inodes
  {
  }

  /** Whatever point an append of a synced journal crashes at, the crash is one recovery can start
      from: nothing acknowledged is lost and the record in flight can be replayed. */
  lemma AppendCrashRecovers(fs: Fs, name: PendingName, j: Ino, content: Bytes, nextSequence: nat, lastTag: nat,
                            record: PhaseRecord, st: Fs, after: Fs)
    requires Live(fs, name, j, |content|, nextSequence, lastTag) && KeepsPending(fs, name)
    requires fs.inodes[j].data == content && fs.inodes[j].disk == {content}
    requires LawfulRecord(record, nextSequence, lastTag, |content|) && record.sequence < PHASE_COUNT
    requires |record.payload| <= CEILING
    requires AppendState(fs, j, OneRecord(record), st) && CrashImage(st, after)
    ensures Interrupted(after, name, j, content, record) && SyncedFile(after, j)
  {
    hide Decode, OneRecord, LawfulRecord, Safe, AppendState, Interrupted;
    ReadyForAppend(fs, name, j, content, nextSequence, lastTag, record);
    AppendKeeps(fs, name, j, content, record, st);
    CrashKeeps(st, after, name, j, content, record);
    CrashSynced(st, after, name, j, content, record);
  }

  lemma CrashSynced(st: Fs, after: Fs, name: PendingName, j: Ino, content: Bytes, record: PhaseRecord)
    requires Interrupted(st, name, j, content, record) && CrashImage(st, after)
    ensures SyncedFile(after, j)
  {
    hide Decode, OneRecord, InFlight;
  }

  /** A record whose append landed but whose sync was refused is whole in the file, so reopening the
      journal resumes with it; yet the next crash may drop it. */
  lemma ResumedMayBeLost(fs: Fs, name: PendingName, j: Ino, content: Bytes, nextSequence: nat, lastTag: nat,
                         record: PhaseRecord)
    returns (frame: DecodedFrame)
    requires Live(fs, name, j, |content|, nextSequence, lastTag) && KeepsPending(fs, name)
    requires fs.inodes[j].data == content && fs.inodes[j].disk == {content}
    requires LawfulRecord(record, nextSequence, lastTag, |content|) && record.sequence < PHASE_COUNT
    requires |record.payload| <= CEILING
    ensures var st := Append(fs, j, OneRecord(record));
      && Admit(st, name) == Some(Pending(j, frame)) && frame.tail.Clean?
      && Replayed(st, name, j, frame) && Checked(st, name.pending, j, 1, FrameTotalLen(frame))
      && !Durable(st, j, st.inodes[j].data) && content in st.inodes[j].disk
  {
    hide Decode, OneRecord, LawfulRecord, Admit, Replayed, Interrupted;
    var bytes := OneRecord(record);
    var st := Append(fs, j, bytes);
    assert bytes[..|bytes|] == bytes;
    assert AppendState(fs, j, bytes, st);
    ReadyForAppend(fs, name, j, content, nextSequence, lastTag, record);
    AppendKeeps(fs, name, j, content, record, st);
    frame := InterruptedAdmits(st, name, j, content, record);
    AppendOutcomes(fs, j, bytes, content);
    assert |bytes| > 0;
  }

  /** `frame` is what `data` replays to when it is the content and some of the record. */
  ghost predicate ReplayOf(content: Bytes, record: PhaseRecord, data: Bytes, frame: DecodedFrame)
    requires record.sequence < PHASE_COUNT && |record.payload| <= CEILING
  {
    frame.records != [] &&
    if frame.tail.Clean? then
      && FrameTotalLen(frame) == |data|
      && if data == content then |frame.records| == record.sequence && LastTag(frame.records, 0) < record.phaseTag
         else data == content + OneRecord(record)
              && |frame.records| == record.sequence + 1 && LastTag(frame.records, 0) == record.phaseTag
    else
      && FrameTotalLen(frame) == |content| && data == content + frame.tail.bytes
      && [] < frame.tail.bytes < OneRecord(record) && |frame.records| == record.sequence
  }

  /** An interrupted append classifies as pending, with every acknowledged record. */
  lemma InterruptedAdmits(fs: Fs, name: PendingName, j: Ino, content: Bytes, record: PhaseRecord)
    returns (frame: DecodedFrame)
    requires Interrupted(fs, name, j, content, record)
    ensures InFlight(content, record) && record.sequence < PHASE_COUNT && |record.payload| <= CEILING && j in fs.inodes
    ensures content <= fs.inodes[j].data <= content + OneRecord(record)
    ensures Admit(fs, name) == Some(Pending(j, frame)) && Replayed(fs, name, j, frame)
    ensures ReplayOf(content, record, fs.inodes[j].data, frame)
    ensures Checked(fs, name.pending, j, 1, |fs.inodes[j].data|)
  {
    hide Decode, OneRecord, Admit, Legible;
    var data := fs.inodes[j].data;
    assert data in fs.inodes[j].disk && fs.entries in fs.survivors;
    TornContent(content, record, data);
    frame := Decode(data).value;
    assert Legible(fs.entries, name, data);
    assert Owned(fs.entries, name, j);
    SafeAdmits(fs, name, j);
    NamesOfOwned(fs.entries, name, j);
    TotalLenIsLessTail(data);
    TotalLenIsLessTail(content);
    TruncatedDecodes(data);
    EncodeDecoded(data);
    assert content[..|content|] == content;
  }

  /** The record in flight is what the encoder produces, and it decodes behind the content. */
  lemma InFlightEncodes(content: Bytes, record: PhaseRecord)
    requires InFlight(content, record)
    ensures record.sequence < PHASE_COUNT && |record.payload| <= CEILING
    ensures EncodeRecord(record.sequence, record.phaseTag, record.payload) == Ok(OneRecord(record))
    ensures |content| + Size(record) <= CEILING && record.phaseTag <= PHASE_COUNT
    ensures Decode(content + OneRecord(record)).Ok? && Decode(content + OneRecord(record)).value.tail.Clean?
    ensures |Decode(content + OneRecord(record)).value.records| == record.sequence + 1
  {
    hide DecodePrefix, DecodeRecords, OneRecord, Decode;
    EncodeDecoded(content);
    var f := Decode(content).value;
    TotalLenIsLessTail(content);
    RecordSizesTotal(f.records);
    var start := PREFIX_LEN + |f.rowHeader|;
    SnocLawful(f.records, record, 0, 0, start);
    LawfulEncodes(f.records + [record], 0, 0, start, |f.records|);
    assert OneRecord(record)[..Size(record)] == OneRecord(record);
    AppendTorn(content, f, record, Size(record));
  }

  /** Every state from `from` on interrupts the same record over the same content. */
  ghost predicate StaysInterrupted(trace: seq<Fs>, from: nat, name: PendingName, j: Ino, content: Bytes,
                                   record: PhaseRecord) {
    forall i :: from <= i < |trace| ==> Interrupted(trace[i], name, j, content, record)
  }

  /** The whole record is in the file. */
  ghost predicate WholeRecord(fs: Fs, j: Ino, content: Bytes, record: PhaseRecord) {
    record.sequence < PHASE_COUNT && |record.payload| <= CEILING && j in fs.inodes
    && fs.inodes[j].data == content + OneRecord(record)
  }

  /** Classify an interrupted append and drop its torn tail. */
  method SettleTail(dir: AdmittedDir, name: PendingName, record: PhaseRecord, ghost j: Ino, ghost content: Bytes)
    returns (r: Result<PendingJournal, JournalError>)
    requires Interrupted(dir.fs, name, j, content, record)
    modifies dir
    ensures old(dir.trace) <= dir.trace && StaysInterrupted(dir.trace, |old(dir.trace)|, name, j, content, record)
    ensures Interrupted(dir.fs, name, j, content, record) && AllSafe(dir.trace, |old(dir.trace)|, name)
    ensures r.Ok? ==>
      && fresh(r.value) && r.value.dir == dir && r.value.name == name && r.value.file == j && j in dir.fs.inodes
      && r.value.Valid() && r.value.frame.tail.Clean?
      && Admit(dir.fs, name) == Some(Pending(j, r.value.frame))
    ensures WholeRecord(old(dir.fs), j, content, record) ==> dir.fs == old(dir.fs)
    ensures r.Ok? && !WholeRecord(old(dir.fs), j, content, record) ==> dir.fs.inodes[j].data == content
    ensures old(dir.Quiet()) ==> r.Ok? && dir.Quiet()
  {
    hide Decode, OneRecord, Admit, Safe, InFlight, CrashSafe, EncodeRecord, Replayed, TruncateState, Interrupted;
    ghost var start := dir.fs;
    ghost var seen := InterruptedAdmits(start, name, j, content, record);
    var state := Admit(dir.fs, name);
    var Pending(file, frame) := state.value;
    InFlightEncodes(content, record);
    var expected := EncodeRecord(record.sequence, record.phaseTag, record.payload).value;
    var pending := new PendingJournal(dir, name, file, frame);
    r := Ok(pending);
    if frame.tail.IncompletePrefix? {
      assert start.inodes[j].data[..|content|] == content;
      assert NextOf(content + expected, frame) by {
        NextOfDecodes(content + expected, frame);
      }
      var cut := pending.TruncateTail(expected);
      forall st | TruncateState(start, j, |content|, st)
        ensures Interrupted(st, name, j, content, record)
      {
        TruncateKeeps(start, name, j, content, record, st);
      }
      if cut.Err? {
        return Err(cut.error);
      }
      ghost var again := InterruptedAdmits(dir.fs, name, j, content, record);
      SameReplay(dir.fs, name, j, pending.frame, again);
    }
  }

  /** What a directory admits is what its pending journal replays. */
  lemma SameReplay(fs: Fs, name: PendingName, j: Ino, a: DecodedFrame, b: DecodedFrame)
    requires Replayed(fs, name, j, a) && Replayed(fs, name, j, b)
    requires FrameTotalLen(a) == FrameTotalLen(b) && a.tail == b.tail
    ensures a == b
  {
    hide Decode, Safe, FrameTotalLen;
  }

  /** A record that is whole in the file is durable exactly when the file is synced. */
  lemma WholeIsDurable(fs: Fs, name: PendingName, j: Ino, content: Bytes, record: PhaseRecord)
    requires Interrupted(fs, name, j, content, record) && WholeRecord(fs, j, content, record)
    ensures Durable(fs, j, content + OneRecord(record)) <==> SyncedFile(fs, j)
  {
    hide Decode, OneRecord, Safe, InFlight;
    var full := content + OneRecord(record);
    SafeInode(fs, name, j);
    assert full in fs.inodes[j].disk by { SafeHolds(fs, name, j); }
    if Durable(fs, j, full) {
      forall d | d in fs.inodes[j].disk ensures d == full {
        assert full <= d <= full;
      }
    }
  }

  lemma SafeHolds(fs: Fs, name: PendingName, j: Ino)
    requires Safe(fs, name, j)
    ensures j in fs.inodes && fs.inodes[j].data in fs.inodes[j].disk
  {
  }

  /**
   Recover an interrupted append: settle its tail, resume, and append the record again unless
   it is already complete. The restored record survives the next crash exactly when it had to be
   written again or was already on disk for certain, as it is after a crash.
   */
  method RecoverAppend(dir: AdmittedDir, name: PendingName, record: PhaseRecord, ghost j: Ino, ghost content: Bytes)
    returns (r: Result<LiveJournal, JournalError>)
    requires Interrupted(dir.fs, name, j, content, record)
    modifies dir
    ensures old(dir.trace) <= dir.trace && StaysInterrupted(dir.trace, |old(dir.trace)|, name, j, content, record)
    ensures Interrupted(dir.fs, name, j, content, record) && AllSafe(dir.trace, |old(dir.trace)|, name)
    ensures r.Ok? ==>
      && r.value.Valid() && r.value.dir == dir && r.value.file == j
      && record.sequence < PHASE_COUNT && |record.payload| <= CEILING
      && r.value.Content() == content + OneRecord(record)
      && r.value.nextSequence == record.sequence + 1 && r.value.lastTag == record.phaseTag
      && r.value.name == name && Checked(dir.fs, name.pending, j, 1, r.value.totalLen)
      && (Durable(dir.fs, j, r.value.Content()) <==>
            (WholeRecord(old(dir.fs), j, content, record) ==> SyncedFile(old(dir.fs), j)))
    ensures old(dir.Quiet()) ==> r.Ok? && dir.Quiet()
  {
    hide Decode, OneRecord, Admit, Safe, InFlight, CrashSafe, EncodeRecord, Replayed, AppendState, Interrupted, Live,
         RetainsAll;
    var settled := SettleTail(dir, name, record, j, content);
    if settled.Err? {
      return Err(settled.error);
    }
    ghost var frame := InterruptedAdmits(dir.fs, name, j, content, record);
    InFlightEncodes(content, record);
    r := settled.value.Resume();
    if r.Err? {
      return;
    }
    var live := r.value;
    assert WholeRecord(dir.fs, j, content, record) <==> dir.fs.inodes[j].data != content by {
      assert |OneRecord(record)| == Size(record) > 0;
    }
    if live.nextSequence == record.sequence {
      ghost var start := dir.fs;
      var again := live.Append(record.phaseTag, record.payload);
      forall st | AppendState(start, j, OneRecord(record), st)
        ensures Interrupted(st, name, j, content, record)
      {
        AppendKeeps(start, name, j, content, record, st);
      }
      if again.Err? {
        return Err(again.error);
      }
    } else {
      WholeIsDurable(dir.fs, name, j, content, record);
    }
  }

  // ----- claim, append, crash, recover

  /** What a crash may do to a directory. */
  ghost predicate Crashes(crash: Fs -> Fs) {
    forall fs :: Coherent(fs) ==> CrashImage(fs, crash(fs))
  }

  /**
   Claim a journal and append one legal record over any pattern of refusals, crash, and recover on
   what is left. A successful recovery holds the claim and the record, both safe from the next
   crash; with no more refusals recovery always succeeds.
   */
  method ClaimAppendCrashRecover(dir: AdmittedDir, name: PendingName, header: BuiltHeader, parent: FsIdentity,
                                 prepared: Bytes, ino: Ino,
                                 record: PhaseRecord, crash: Fs -> Fs, faults: nat -> Fault)
    returns (claimed: bool, r: Result<LiveJournal, JournalError>)
    requires Coherent(dir.fs) && name.claim != name.pending && ino !in dir.fs.inodes && Crashes(crash)
    requires record.sequence == 1 && |record.payload| <= CEILING
    requires var bytes := ClaimBytes(header.Compose(parent, FsIdentity(parent.dev, ino)), prepared);
      bytes.Ok? ==> LawfulRecord(record, 1, 1, |bytes.value|)
    modifies dir
    ensures claimed && r.Ok? ==>
      var bytes := ClaimBytes(header.Compose(parent, FsIdentity(parent.dev, ino)), prepared);
      && bytes.Ok? && r.value.Valid() && r.value.name == name && r.value.file == ino
      && r.value.Content() == bytes.value + OneRecord(record) && Retains(r.value.dir.fs, name, ino, r.value.Content())
      && r.value.nextSequence == 2 && r.value.lastTag == record.phaseTag
    ensures claimed && (forall i :: faults(i).Clear?) ==> r.Ok?
  {
    hide Decode, OneRecord, Admit, Safe, LawfulRecord, CrashSafe, EncodeRecord, ClaimBytes, BuiltHeader.Compose,
         AppendState,
         Interrupted, Live, RetainsAll, CrashImage;
    var claim := Claim(dir, name, header, parent, prepared, ino);
    claimed := claim.Ok?;
    if claim.Err? {
      return claimed, Err(claim.error.error);
    }
    var live := claim.value;
    ghost var fs, content := dir.fs, live.Content();
    EncodedIsRecord(fs, name, ino, content, record);
    var appended := live.Append(record.phaseTag, record.payload);
    ghost var st := dir.fs;
    ReadyForAppend(fs, name, ino, content, 1, 1, record);
    AppendKeeps(fs, name, ino, content, record, st);
    InterruptedCoherent(st, name, ino, content, record);
    var left := crash(dir.fs);
    AppendCrashRecovers(fs, name, ino, content, 1, 1, record, st, left);
    var reopened := new AdmittedDir(faults, left);
    r := RecoverAppend(reopened, name, record, ino, content);
    if r.Ok? {
      RecoveredRetains(reopened.fs, name, ino, content, record);
    }
  }

  lemma EncodedIsRecord(fs: Fs, name: PendingName, j: Ino, content: Bytes, record: PhaseRecord)
    requires Live(fs, name, j, |content|, 1, 1) && fs.inodes[j].data == content && fs.inodes[j].disk == {content}
    requires LawfulRecord(record, 1, 1, |content|) && record.sequence == 1 && |record.payload| <= CEILING
    requires KeepsPending(fs, name)
    ensures EncodeRecord(1, record.phaseTag, record.payload) == Ok(OneRecord(record))
  {
    hide Decode, OneRecord, Safe, LawfulRecord, EncodeRecord;
    ReadyForAppend(fs, name, j, content, 1, 1, record);
    InFlightEncodes(content, record);
  }

  lemma InterruptedCoherent(fs: Fs, name: PendingName, j: Ino, content: Bytes, record: PhaseRecord)
    requires Interrupted(fs, name, j, content, record)
    ensures Coherent(fs)
  {
    hide Decode, OneRecord, InFlight;
  }

  lemma RecoveredRetains(fs: Fs, name: PendingName, j: Ino, content: Bytes, record: PhaseRecord)
    requires Interrupted(fs, name, j, content, record)
    ensures forall more :: Durable(fs, j, more) ==> Retains(fs, name, j, more)
  {
    hide Decode, OneRecord, InFlight, Safe;
  }

  // ----- crashes inside a claim or a finish

  /** Every crash of every state from `from` on is ready for the operation it reads as. */
  ghost predicate AllReady(trace: seq<Fs>, from: nat, name: PendingName) {
    forall i, after :: from <= i < |trace| && CrashImage(trace[i], after) ==> Settled(after) && Ready(after, name)
  }

  lemma SafeAllReady(trace: seq<Fs>, from: nat, name: PendingName)
    requires AllSafe(trace, from, name) && name.claim != name.pending
    ensures AllReady(trace, from, name)
  {
    hide CrashSafe, Ready, Settled, CrashImage;
    forall i, after | from <= i < |trace| && CrashImage(trace[i], after) ensures Settled(after) && Ready(after, name) {
      CrashReady(trace[i], after, name);
    }
  }

  /** Where the present state is recorded or untouched, it is as safe as the trace. */
  lemma PresentIsSafe(fs: Fs, trace: seq<Fs>, first: Fs, from: nat, name: PendingName)
    requires AllSafe(trace, from, name) && CrashSafe(first, name)
    requires fs == first || (from < |trace| && trace[|trace| - 1] == fs)
    ensures CrashSafe(fs, name)
  {
    hide CrashSafe;
  }

  /** What a settled pending journal is for its reader: checked, and kept by the next crash. */
  lemma SettledPending(fs: Fs, name: PendingName, j: Ino, frame: DecodedFrame)
    requires Settled(fs) && name.claim != name.pending && Admit(fs, name) == Some(Pending(j, frame))
    ensures j in fs.inodes && Retains(fs, name, j, fs.inodes[j].data)
    ensures frame.tail.Clean? ==>
      FrameTotalLen(frame) == |fs.inodes[j].data| && Checked(fs, name.pending, j, 1, FrameTotalLen(frame))
  {
    PendingReady(fs, name, j, frame);
    hide Decode;
    TotalLenIsLessTail(fs.inodes[j].data);
  }

  /** What a crash of a claim over a committed absence reads as: nothing that was linked, or this
      claim's journal with exactly its bytes. */
  lemma ClaimCrash(fs: Fs, after: Fs, name: PendingName, j: Ino, bytes: Bytes)
    requires CrashSafe(fs, name) && name.claim != name.pending && CrashImage(fs, after)
    requires || (forall s :: s in fs.survivors ==> name.pending !in s)
             || (Safe(fs, name, j) && j in fs.inodes && fs.inodes[j].disk == {bytes})
    ensures Settled(after) && Ready(after, name)
    ensures var state := Admit(after, name);
      && state.Some? && !state.value.Corrupt?
      && (state.value.Claimed? || state.value.Pending? ==>
            && state.value.file == j && j in after.inodes && after.inodes[j].data == bytes
            && Decode(bytes) == Ok(state.value.frame))
      && ((forall s :: s in fs.survivors ==> name.pending !in s) ==> state.value.Absent? || state.value.Preclaim?)
  {
    hide Decode, Ready, Admit;
    CrashReady(fs, after, name);
    if forall s :: s in fs.survivors ==> name.pending !in s {
      NoPending(after, name);
    } else {
      CrashDispatch(fs, after, name, j);
      ReadyReads(after, name);
    }
  }

  lemma NoPending(fs: Fs, name: PendingName)
    requires name.pending !in fs.entries && Ready(fs, name)
    ensures Admit(fs, name) == Some(Absent) || Admit(fs, name) == Some(Preclaim)
  {
    hide Decode;
  }

  lemma ReadyReads(fs: Fs, name: PendingName)
    requires Ready(fs, name)
    ensures var state := Admit(fs, name);
      && state.Some? && !state.value.Corrupt?
      && (state.value.Claimed? || state.value.Pending? ==>
            state.value.file in fs.inodes && Decode(fs.inodes[state.value.file].data) == Ok(state.value.frame))
      && (state.value.Claimed? ==> Prepared(fs, state.value.file) && SyncedFile(fs, state.value.file))
  {
    hide Decode, Admit;
  }

  /**
   Reopen what a crash left and take it up: adopt a claim, resume a pending journal. A clean
   journal found is taken up with exactly its bytes, kept by the next crash; only a torn tail, to be
   truncated first, or a refusal stands in the way.
   */
  method Reopen(left: Fs, name: PendingName, faults: nat -> Fault)
    returns (state: PendingState, r: Option<Result<LiveJournal, JournalError>>)
    requires Settled(left) && Ready(left, name) && name.claim != name.pending
    ensures Admit(left, name) == Some(state) && !state.Corrupt? && (r.Some? <==> state.Claimed? || state.Pending?)
    ensures r.Some? && r.value.Ok? ==>
      var live := r.value.value;
      && fresh(live) && fresh(live.dir) && live.Valid() && live.name == name && live.file == state.file
      && state.file in left.inodes && live.Content() == left.inodes[state.file].data
      && Decode(live.Content()) == Ok(state.frame) && live.nextSequence == |state.frame.records|
      && live.lastTag == LastTag(state.frame.records, 0)
      && Retains(live.dir.fs, name, state.file, live.Content())
      && live.dir.faults == faults && Checked(live.dir.fs, name.pending, state.file, 1, live.totalLen)
    ensures r.Some? && (forall i :: faults(i).Clear?) ==>
      (state.Pending? && !state.frame.tail.Clean? && r.value == Err(IncompleteTail)) || r.value.Ok?
  {
    hide Decode, Admit, Safe, CrashSafe, Live, Ready, Settled, Coherent, Retains, Holds, Replayed, Checked, Prepared,
         FrameTotalLen;
    ReadyReads(left, name);
    SettledCoherent(left);
    state := Admit(left, name).value;
    r := None;
    var reopened := new AdmittedDir(faults, left);
    if state.Claimed? {
      ClaimedOnce(left, name, state.file, state.frame);
      var adopted := Adopt(reopened, name, state.file, state.frame);
      r := Some(adopted);
    } else if state.Pending? {
      SettledPending(left, name, state.file, state.frame);
      PendingReady(left, name, state.file, state.frame);
      ReplayedOnce(left, name, state.file, state.frame);
      var pending := new PendingJournal(reopened, name, state.file, state.frame);
      var resumed := pending.Resume();
      r := Some(resumed);
    }
  }

  lemma ClaimedOnce(fs: Fs, name: PendingName, j: Ino, frame: DecodedFrame)
    requires Coherent(fs) && name.claim != name.pending && Admit(fs, name) == Some(Claimed(j, frame))
    ensures |frame.records| == 1 && LastTag(frame.records, 0) == 1
  {
    hide Decode;
    ClaimedMeans(fs, name, j, frame);
    PreparedTag(fs.inodes[j].data);
  }

  lemma ReplayedOnce(fs: Fs, name: PendingName, j: Ino, frame: DecodedFrame)
    requires Replayed(fs, name, j, frame)
    ensures frame.records != []
  {
    hide Decode, Safe;
  }

  /**
   Claim over a committed absence and any pattern of refusals, crash, and recover on what is left.
   Whatever state of the claim the crash meets, what it leaves is ready for its operation. A claim
   found is adopted and a pending journal resumed, each holding exactly the claim's bytes, safe
   from the next crash; with no more refusals that always succeeds.
   */
  method ClaimCrashRecover(dir: AdmittedDir, name: PendingName, header: BuiltHeader, parent: FsIdentity,
                           payload: Bytes, ino: Ino, crash: Fs -> Fs, faults: nat -> Fault)
    returns (claimed: bool, state: PendingState, r: Option<Result<LiveJournal, JournalError>>)
    requires Coherent(dir.fs) && name.claim != name.pending && ino !in dir.fs.inodes && Crashes(crash)
    requires DurablyAbsent(dir.fs, name)
    modifies dir
    ensures AllReady(dir.trace, |old(dir.trace)|, name)
    ensures !state.Corrupt? && (r.Some? <==> state.Claimed? || state.Pending?) && (claimed ==> state.Pending?)
    ensures r.Some? ==>
      var bytes := ClaimBytes(header.Compose(parent, FsIdentity(parent.dev, ino)), payload);
      bytes.Ok? && state.file == ino && Decode(bytes.value) == Ok(state.frame)
    ensures r.Some? && r.value.Ok? ==>
      var bytes := ClaimBytes(header.Compose(parent, FsIdentity(parent.dev, ino)), payload);
      var live := r.value.value;
      && bytes.Ok? && live.Valid() && live.name == name && live.file == ino && live.Content() == bytes.value
      && live.nextSequence == 1 && live.lastTag == 1 && Retains(live.dir.fs, name, ino, live.Content())
    ensures r.Some? && (forall i :: faults(i).Clear?) ==> r.value.Ok?
  {
    hide Decode, Admit, Safe, CrashSafe, ClaimBytes, BuiltHeader.Compose, Live, CrashImage, Ready, Settled, Coherent,
         DurablyAbsent, Cached, Committed, Retains, AllReady, Holds, Replayed;
    ghost var first := dir.fs;
    AbsentIsCrashSafe(first, name);
    var claim := Claim(dir, name, header, parent, payload, ino);
    claimed := claim.Ok?;
    SafeAllReady(dir.trace, |old(dir.trace)|, name);
    PresentIsSafe(dir.fs, dir.trace, first, |old(dir.trace)|, name);
    if claim.Ok? || claim.error.PossiblyDurable? { CachedInode(dir.fs, name, ino); }
    ghost var composed := ClaimBytes(header.Compose(parent, FsIdentity(parent.dev, ino)), payload);
    ghost var bytes := if composed.Ok? then composed.value else [];
    if composed.Ok? { ClaimBytesPrepared(header.Compose(parent, FsIdentity(parent.dev, ino)), payload); }
    CrashSafeCoherent(dir.fs, name);
    var left := crash(dir.fs);
    ClaimCrash(dir.fs, left, name, ino, bytes);
    if claimed { CommittedCrash(dir.fs, left, name, ino); }
    ReadyReads(left, name);
    state, r := Reopen(left, name, faults);
  }

  lemma CrashSafeCoherent(fs: Fs, name: PendingName)
    requires CrashSafe(fs, name)
    ensures Coherent(fs)
  {
  }

  lemma SettledCoherent(fs: Fs)
    requires Settled(fs)
    ensures Coherent(fs)
  {
  }

  lemma CommittedCrash(fs: Fs, after: Fs, name: PendingName, j: Ino)
    requires Committed(fs, name, j) && CrashImage(fs, after)
    ensures Admit(after, name).Some? && Admit(after, name).value.Pending?
  {
    hide Decode, Admit, Ready;
    CrashDispatch(fs, after, name, j);
  }

  /** A crash of any state of a finish leaves nothing, or the whole journal ready to resume. */
  lemma FinishCrash(fs: Fs, st: Fs, after: Fs, name: PendingName, j: Ino, totalLen: nat, nextSequence: nat,
                    lastTag: nat)
    requires Live(fs, name, j, totalLen, nextSequence, lastTag) && IsTerminal(lastTag)
    requires j in fs.inodes && Durable(fs, j, fs.inodes[j].data[..totalLen])
    requires Finishing(fs, st, name, j) && CrashImage(st, after)
    ensures Settled(after) && Ready(after, name)
    ensures var content := fs.inodes[j].data[..totalLen];
      || Admit(after, name) == Some(Absent)
      || (&& Decode(content).Ok? && Admit(after, name) == Some(Pending(j, Decode(content).value))
          && j in after.inodes && after.inodes[j].data == content)
  {
    hide Decode, Admit, Ready;
    var content := fs.inodes[j].data[..totalLen];
    LiveHolds(fs, name, j, totalLen, nextSequence, lastTag);
    CrashDispatch(st, after, name, j);
    assert name.claim !in after.entries;
    SafeIsCrashSafe(st, name, j);
    CrashReady(st, after, name);
    ReadyReads(after, name);
    if name.pending in after.entries {
      assert content <= after.inodes[j].data;
      ExtendedDecodes(content, after.inodes[j].data);
    }
  }

  /**
   Finish a complete journal over any pattern of refusals, crash, and finish what is left. A crash
   leaves nothing or the whole journal; that resumes and finishes, and with no more refusals the
   absence is committed in the end.
   */
  method FinishCrashFinish(live: LiveJournal, crash: Fs -> Fs, faults: nat -> Fault)
    returns (finished: bool, state: PendingState, reopened: AdmittedDir, gone: bool)
    requires live.Valid() && IsTerminal(live.lastTag) && Crashes(crash)
    requires Retains(live.dir.fs, live.name, live.file, live.Content())
    modifies live.dir
    ensures AllReady(live.dir.trace, |old(live.dir.trace)|, live.name)
    ensures state.Absent? ||
      (state.Pending? && state.file == live.file && Decode(old(live.Content())) == Ok(state.frame))
    ensures finished ==> state.Absent?
    ensures gone ==> DurablyAbsent(reopened.fs, live.name)
    ensures (forall i :: faults(i).Clear?) ==> gone
  {
    hide Decode, Admit, Safe, CrashSafe, Live, CrashImage, Ready, Settled, Coherent, DurablyAbsent, Finishing, Durable,
         AllReady, Holds, Replayed;
    ghost var fs, name, j := live.dir.fs, live.name, live.file;
    LiveHolds(fs, name, j, live.totalLen, live.nextSequence, live.lastTag);
    ghost var len, next, tag := live.totalLen, live.nextSequence, live.lastTag;
    DistinctNames(fs, name, j);
    var ended := live.Finish();
    finished := ended.Ok?;
    SafeAllReady(live.dir.trace, |old(live.dir.trace)|, name);
    FinishingCoherent(fs, live.dir.fs, name, j);
    var left := crash(live.dir.fs);
    FinishCrash(fs, live.dir.fs, left, name, j, len, next, tag);
    if finished { AbsentStays(live.dir.fs, left, name); }
    SettledCoherent(left);
    state := Admit(left, live.name).value;
    reopened := new AdmittedDir(faults, left);
    gone := state.Absent?;
    if state.Pending? {
      SettledPending(left, name, j, state.frame);
      PendingReady(left, name, j, state.frame);
      HoldsTag(fs, name, j, len, next, tag);
      var pending := new PendingJournal(reopened, live.name, state.file, state.frame);
      var resumed := pending.Resume();
      if resumed.Ok? {
        var again := resumed.value.Finish();
        gone := again.Ok?;
      }
    } else {
      ReadyAbsent(left, name);
    }
  }

  lemma DistinctNames(fs: Fs, name: PendingName, j: Ino)
    requires Safe(fs, name, j)
    ensures name.claim != name.pending
  {
  }

  lemma FinishingCoherent(first: Fs, st: Fs, name: PendingName, j: Ino)
    requires Finishing(first, st, name, j)
    ensures Coherent(st)
  {
  }

  lemma AbsentStays(fs: Fs, after: Fs, name: PendingName)
    requires DurablyAbsent(fs, name) && CrashImage(fs, after)
    ensures Admit(after, name) == Some(Absent)
  {
  }

  lemma ReadyAbsent(fs: Fs, name: PendingName)
    requires Ready(fs, name) && Admit(fs, name) == Some(Absent)
    ensures DurablyAbsent(fs, name)
  {
    hide Decode, Admit;
  }

  lemma HoldsTag(fs: Fs, name: PendingName, j: Ino, totalLen: nat, nextSequence: nat, lastTag: nat)
    requires Live(fs, name, j, totalLen, nextSequence, lastTag)
    ensures j in fs.inodes && totalLen <= |fs.inodes[j].data|
    ensures var f := Decode(fs.inodes[j].data[..totalLen]);
      && f.Ok? && f.value.tail.Clean? && f.value.records != []
      && f.value.records[|f.value.records| - 1].phaseTag == lastTag
  {
    hide Decode;
  }

  // ----- a whole life

  /** A crash of a directory that retains `content` reads as the pending journal with at least the
      records of `content`, in order, ready to truncate and resume. */
  lemma RetainedRecovers(st: Fs, after: Fs, name: PendingName, j: Ino, content: Bytes)
    requires Retains(st, name, j, content) && CrashImage(st, after)
    requires Decode(content).Ok? && Decode(content).value.tail.Clean?
    ensures Admit(after, name).Some? && Admit(after, name).value.Pending?
    ensures var Pending(file, frame) := Admit(after, name).value;
      && file == j && Replayed(after, name, j, frame)
      && Decode(content).value.rowHeader == frame.rowHeader && Decode(content).value.records <= frame.records
    ensures Retains(after, name, j, content)
  {
    hide Decode, Admit;
    CrashDispatch(st, after, name, j);
    assert name.pending in after.entries && name.claim !in after.entries;
    assert Ready(after, name);
    assert content <= after.inodes[j].data;
    ExtendedDecodes(content, after.inodes[j].data);
  }

  /** One acknowledgement: the index of the state it was made in, and all bytes acknowledged then. */
  datatype Ack = Ack(at: nat, content: Bytes)

  /** `content` is a clean frame of `n` records. */
  ghost predicate HoldsRecords(content: Bytes, n: nat) {
    Decode(content).Ok? && Decode(content).value.tail.Clean? && |Decode(content).value.records| == n
  }

  /** The acknowledgements of one journal: the claim's, then one record more each time. */
  ghost predicate Acknowledges(acks: seq<Ack>) {
    && (forall k :: 0 <= k < |acks| ==> HoldsRecords(acks[k].content, k + 1))
    && (forall k, l :: 0 <= k <= l < |acks| ==> acks[k].at <= acks[l].at && acks[k].content <= acks[l].content)
  }

  /** Every state from each acknowledgement up to `until` retains what was acknowledged. */
  ghost predicate RetainedFrom(trace: seq<Fs>, acks: seq<Ack>, until: nat, name: PendingName, j: Ino) {
    forall k, i :: 0 <= k < |acks| && acks[k].at <= i < until <= |trace| ==> Retains(trace[i], name, j, acks[k].content)
  }

  ghost predicate DurableFrom(trace: seq<Fs>, acks: seq<Ack>, j: Ino) {
    forall k, i :: 0 <= k < |acks| && acks[k].at <= i < |trace| ==> Durable(trace[i], j, acks[k].content)
  }

  /** Each acknowledgement is dated to a state whose file is exactly what was acknowledged. */
  ghost predicate MadeAt(trace: seq<Fs>, acks: seq<Ack>, j: Ino) {
    forall k :: 0 <= k < |acks| ==>
      acks[k].at < |trace| && j in trace[acks[k].at].inodes && trace[acks[k].at].inodes[j].data == acks[k].content
  }

  /** What an open journal has acknowledged, and that it is all still there. */
  ghost predicate OpenLife(fs: Fs, trace: seq<Fs>, acks: seq<Ack>, name: PendingName, j: Ino, content: Bytes) {
    && acks != [] && MadeAt(trace, acks, j) && Acknowledges(acks) && acks[|acks| - 1].content == content
    && RetainedFrom(trace, acks, |trace|, name, j)
    && (forall k :: 0 <= k < |acks| ==> acks[k].at < |trace| && Retains(fs, name, j, acks[k].content))
  }

  /** States that keep what was retained extend the life. */
  lemma LifeGoesOn(fs: Fs, trace: seq<Fs>, fs': Fs, trace': seq<Fs>, acks: seq<Ack>, name: PendingName, j: Ino,
                   content: Bytes)
    requires OpenLife(fs, trace, acks, name, j, content) && trace <= trace'
    requires RetainsAll(fs, fs', name, j, content)
    requires forall i :: |trace| <= i < |trace'| ==> RetainsAll(fs, trace'[i], name, j, content)
    ensures OpenLife(fs', trace', acks, name, j, content)
  {
    hide Retains, Decode;
    forall k, i | 0 <= k < |acks| && acks[k].at <= i < |trace'| ensures Retains(trace'[i], name, j, acks[k].content) {
      assert acks[k].content <= acks[|acks| - 1].content;
      if i < |trace| { assert trace'[i] == trace[i]; }
    }
    forall k | 0 <= k < |acks| ensures Retains(fs', name, j, acks[k].content) {
      assert acks[k].content <= acks[|acks| - 1].content;
    }
  }

  /** A further acknowledgement of one more record extends it too. */
  lemma LifeAcknowledges(fs: Fs, trace: seq<Fs>, acks: seq<Ack>, name: PendingName, j: Ino, content: Bytes, more: Bytes)
    requires OpenLife(fs, trace, acks, name, j, content) && content <= more
    requires trace != [] && trace[|trace| - 1] == fs && Retains(fs, name, j, more)
    requires j in fs.inodes && fs.inodes[j].data == more
    requires HoldsRecords(more, |acks| + 1)
    ensures OpenLife(fs, trace, acks + [Ack(|trace| - 1, more)], name, j, more)
  {
    hide Retains, Decode;
    var acks' := acks + [Ack(|trace| - 1, more)];
    forall k, l | 0 <= k <= l < |acks'| ensures acks'[k].at <= acks'[l].at && acks'[k].content <= acks'[l].content {
      if l == |acks| && k < |acks| {
        assert acks[k].content <= acks[|acks| - 1].content;
      }
    }
  }

  /** A life after its journal was finished: the bytes stay, whatever happens to the name. */
  lemma LifeEnds(fs: Fs, trace: seq<Fs>, trace': seq<Fs>, acks: seq<Ack>, name: PendingName, j: Ino, content: Bytes)
    requires OpenLife(fs, trace, acks, name, j, content) && trace <= trace'
    requires forall i :: |trace| <= i < |trace'| ==> Finishing(fs, trace'[i], name, j)
    ensures RetainedFrom(trace', acks, |trace|, name, j) && DurableFrom(trace', acks, j) && MadeAt(trace', acks, j)
  {
    hide Decode, Safe, Acknowledges;
    forall k, i | 0 <= k < |acks| && acks[k].at <= i < |trace'| ensures Durable(trace'[i], j, acks[k].content) {
      if i < |trace| { assert trace'[i] == trace[i] && Retains(trace[i], name, j, acks[k].content); }
      else { assert Retains(fs, name, j, acks[k].content); }
    }
  }

  /** A live journal that acknowledged its content holds one record per acknowledgement. */
  lemma LiveHolds(fs: Fs, name: PendingName, j: Ino, totalLen: nat, nextSequence: nat, lastTag: nat)
    requires Live(fs, name, j, totalLen, nextSequence, lastTag)
    ensures j in fs.inodes && totalLen <= |fs.inodes[j].data| && Safe(fs, name, j)
    ensures (forall s :: s in fs.survivors ==> name.claim !in s)
    ensures HoldsRecords(fs.inodes[j].data[..totalLen], nextSequence)
  {
    hide Decode;
  }

  /**
   Claim, append whatever is asked in whatever order, then finish. A refused append does not
   stop the caller. Over a committed absence every state the directory passes through is crash
   safe. Every acknowledgement, the claim's included, is kept: from the state it was made in,
   each crash before `Finish` begins leaves the pending name and all acknowledged bytes, and no
   later state loses a byte.
   */
  method Lifetime(dir: AdmittedDir, name: PendingName, header: BuiltHeader, parent: FsIdentity, payload: Bytes,
                  ino: Ino,
                  steps: seq<(Byte, Bytes)>)
    returns (acknowledged: nat, finished: bool, ghost acks: seq<Ack>, ghost closing: nat)
    requires Coherent(dir.fs) && name.claim != name.pending && ino !in dir.fs.inodes
    modifies dir
    ensures old(dir.trace) <= dir.trace
    ensures old(DurablyAbsent(dir.fs, name)) ==> AllSafe(dir.trace, |old(dir.trace)|, name)
    ensures |acks| == acknowledged && Acknowledges(acks) && closing <= |dir.trace|
    ensures acks != [] ==>
      ClaimBytes(header.Compose(parent, FsIdentity(parent.dev, ino)), payload) == Ok(acks[0].content)
    ensures RetainedFrom(dir.trace, acks, closing, name, ino) && DurableFrom(dir.trace, acks, ino)
    ensures MadeAt(dir.trace, acks, ino) && forall k :: 0 <= k < |acks| ==> |old(dir.trace)| <= acks[k].at
    ensures forall k :: 0 <= k < |acks| ==> acks[k].at < closing
    ensures finished ==> acks != [] && DurablyAbsent(dir.fs, name)
    ensures var bytes := ClaimBytes(header.Compose(parent, FsIdentity(parent.dev, ino)), payload);
      (old(dir.Quiet()) && !old(Visible(dir.fs, name)) && bytes.Ok?) ==>
        && acks != []
        && (LegalSteps(steps, 1, 1, |bytes.value|) ==>
              && acknowledged == |steps| + 1
              && (finished <==> steps != [] && IsTerminal(steps[|steps| - 1].0)))
  {
    hide Decode, CrashSafe, Safe, Holds, EncodeRecord, Live, Durable, AppendState, ClaimBytes, Coherent, OpenLife,
         Acknowledges, RetainedFrom, DurableFrom, RetainsAll, Retains, BuiltHeader.Compose;
    acknowledged, finished, acks, closing := 0, false, [], |dir.trace|;
    var claimed := Claim(dir, name, header, parent, payload, ino);
    if claimed.Err? {
      NoLife(dir.trace, closing, name, ino);
      return;
    }
    var live := claimed.value;
    LifeBegins(dir.fs, dir.trace, name, ino, live.totalLen);
    acknowledged, acks := AppendEach(live, steps, [Ack(|dir.trace| - 1, live.Content())]);
    closing := |dir.trace|;
    ghost var fs, trace, content := dir.fs, dir.trace, live.Content();
    LifeFacts(fs, trace, acks, name, ino, content);
    var ended := live.Finish();
    finished := ended.Ok?;
    LifeEnds(fs, trace, dir.trace, acks, name, ino, content);
  }

  /** Steps an open journal can take one after the other: each advances the tag, no record follows a
      terminal one, each encodes, and all fit under the ceiling. */
  ghost predicate LegalSteps(steps: seq<(Byte, Bytes)>, nextSequence: nat, lastTag: nat, total: nat) {
    steps == [] ||
    var record := EncodeRecord(nextSequence, steps[0].0, steps[0].1);
    && !IsTerminal(lastTag) && steps[0].0 > lastTag && record.Ok? && total + |record.value| <= CEILING
    && LegalSteps(steps[1..], nextSequence + 1, steps[0].0, total + |record.value|)
  }

  /** What the first of legal steps asks, and what it leaves to the rest. */
  lemma LegalFirst(steps: seq<(Byte, Bytes)>, nextSequence: nat, lastTag: nat, total: nat)
    requires LegalSteps(steps, nextSequence, lastTag, total) && steps != []
    ensures var record := EncodeRecord(nextSequence, steps[0].0, steps[0].1);
      && !IsTerminal(lastTag) && steps[0].0 > lastTag && record.Ok? && total + |record.value| <= CEILING
      && LegalSteps(steps[1..], nextSequence + 1, steps[0].0, total + |record.value|)
  {
    hide EncodeRecord;
  }

  /** An open journal on a quiet directory with legal steps before it. */
  ghost predicate Smooth(live: LiveJournal, steps: seq<(Byte, Bytes)>)
    reads live, live.dir
  {
    && live.dir.Quiet() && Checked(live.dir.fs, live.name.pending, live.file, 1, live.totalLen)
    && LegalSteps(steps, live.nextSequence, live.lastTag, live.totalLen)
  }

  /** Append one step and date its acknowledgement. */
  method AppendNext(live: LiveJournal, step: (Byte, Bytes), ghost before: seq<Ack>, ghost rest: seq<(Byte, Bytes)>)
    returns (acknowledged: bool, ghost acks: seq<Ack>)
    requires live.Valid() && OpenLife(live.dir.fs, live.dir.trace, before, live.name, live.file, live.Content())
    requires |before| == live.nextSequence
    modifies live, live.dir
    ensures live.Valid() && OpenLife(live.dir.fs, live.dir.trace, acks, live.name, live.file, live.Content())
    ensures old(live.dir.trace) <= live.dir.trace && AllSafe(live.dir.trace, |old(live.dir.trace)|, live.name)
    ensures |acks| == live.nextSequence
    ensures acknowledged ==>
      |old(live.dir.trace)| < |live.dir.trace| && acks == before + [Ack(|live.dir.trace| - 1, live.Content())]
    ensures !acknowledged ==> acks == before
    ensures old(Smooth(live, [step] + rest)) ==> acknowledged && live.lastTag == step.0 && Smooth(live, rest)
  {
    hide Decode, CrashSafe, Safe, Holds, EncodeRecord, Live, Durable, AppendState, OpenLife, RetainsAll, Retains,
         Checked, LegalSteps;
    ghost var fs, trace, content := live.dir.fs, live.dir.trace, live.Content();
    if Smooth(live, [step] + rest) {
      LegalFirst([step] + rest, live.nextSequence, live.lastTag, live.totalLen);
      assert ([step] + rest)[1..] == rest;
    }
    var appended := live.Append(step.0, step.1);
    LifeGoesOn(fs, trace, live.dir.fs, live.dir.trace, before, live.name, live.file, content);
    acknowledged, acks := appended.Ok?, before;
    if appended.Ok? {
      LiveHolds(live.dir.fs, live.name, live.file, live.totalLen, live.nextSequence, live.lastTag);
      StillPending(live.dir.fs, live.dir.trace, acks, live.name, live.file, content, live.Content());
      LifeAcknowledges(live.dir.fs, live.dir.trace, acks, live.name, live.file, content, live.Content());
      acks := acks + [Ack(|live.dir.trace| - 1, live.Content())];
    }
  }

  /** Append each step in turn, refused or not. Legal steps on a quiet directory are all taken. */
  method AppendEach(live: LiveJournal, steps: seq<(Byte, Bytes)>, ghost before: seq<Ack>)
    returns (acknowledged: nat, ghost acks: seq<Ack>)
    requires live.Valid() && OpenLife(live.dir.fs, live.dir.trace, before, live.name, live.file, live.Content())
    requires |before| == live.nextSequence
    modifies live, live.dir
    ensures live.Valid() && OpenLife(live.dir.fs, live.dir.trace, acks, live.name, live.file, live.Content())
    ensures before <= acks && acknowledged == |acks| == live.nextSequence
    ensures forall k :: |before| <= k < |acks| ==> |old(live.dir.trace)| <= acks[k].at
    ensures old(live.dir.trace) <= live.dir.trace && AllSafe(live.dir.trace, |old(live.dir.trace)|, live.name)
    ensures old(Smooth(live, steps)) ==>
      && |acks| == |before| + |steps| && Smooth(live, [])
      && live.lastTag == (if steps == [] then old(live.lastTag) else steps[|steps| - 1].0)
  {
    hide Decode, CrashSafe, Live, OpenLife, Smooth;
    acknowledged, acks := live.nextSequence, before;
    ghost var smooth := Smooth(live, steps);
    assert steps[0..] == steps;
    for i := 0 to |steps|
      invariant live.Valid() && before <= acks && acknowledged == |acks| == live.nextSequence
      invariant forall k :: |before| <= k < |acks| ==> |old(live.dir.trace)| <= acks[k].at
      invariant OpenLife(live.dir.fs, live.dir.trace, acks, live.name, live.file, live.Content())
      invariant old(live.dir.trace) <= live.dir.trace && AllSafe(live.dir.trace, |old(live.dir.trace)|, live.name)
      invariant smooth ==> |acks| == |before| + i && Smooth(live, steps[i..])
      invariant smooth ==> live.lastTag == (if i == 0 then old(live.lastTag) else steps[i - 1].0)
    {
      assert steps[i..] == [steps[i]] + steps[i + 1..];
      var appended;
      appended, acks := AppendNext(live, steps[i], acks, steps[i + 1..]);
      if appended {
        acknowledged := acknowledged + 1;
      }
    }
    assert steps[|steps|..] == [];
  }

  lemma NoLife(trace: seq<Fs>, closing: nat, name: PendingName, j: Ino)
    ensures Acknowledges([]) && RetainedFrom(trace, [], closing, name, j) && DurableFrom(trace, [], j)
    ensures MadeAt(trace, [], j)
  {
  }

  lemma LifeBegins(fs: Fs, trace: seq<Fs>, name: PendingName, j: Ino, len: nat)
    requires Committed(fs, name, j) && trace != [] && trace[|trace| - 1] == fs
    requires Live(fs, name, j, len, 1, 1) && fs.inodes[j].disk == {fs.inodes[j].data} && len == |fs.inodes[j].data|
    ensures j in fs.inodes
    ensures OpenLife(fs, trace, [Ack(|trace| - 1, fs.inodes[j].data[..len])], name, j, fs.inodes[j].data[..len])
  {
    hide Decode, Safe;
    LiveHolds(fs, name, j, len, 1, 1);
    var content := fs.inodes[j].data;
    assert content[..len] == content;
    assert Retains(fs, name, j, content);
  }

  lemma StillPending(fs: Fs, trace: seq<Fs>, acks: seq<Ack>, name: PendingName, j: Ino, content: Bytes, more: Bytes)
    requires OpenLife(fs, trace, acks, name, j, content) && Durable(fs, j, more)
    ensures Retains(fs, name, j, more)
  {
    hide Decode, Safe, Acknowledges, RetainedFrom;
    assert Retains(fs, name, j, acks[0].content);
  }

  lemma LifeFacts(fs: Fs, trace: seq<Fs>, acks: seq<Ack>, name: PendingName, j: Ino, content: Bytes)
    requires OpenLife(fs, trace, acks, name, j, content)
    ensures Acknowledges(acks) && forall k :: 0 <= k < |acks| ==> acks[k].at < |trace|
  {
  }
}
