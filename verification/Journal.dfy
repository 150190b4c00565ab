/**
 The pending-journal protocol: claim, append, finish, adopt, truncate and resume, with the
 safety of a crash at every step.
 */
module Journal {
  import opened Wrappers
  import opened Frame
  import opened FrameLaws
  import opened Custody
  import opened AdmittedDirectory
  import opened Markers

  datatype JournalError =
    | CustodyRefused(custody: CustodyError)
    | Law(law: FrameLawError)
    | CorruptJournal(reason: CorruptionReason)
    | CeilingExceeded(total: nat)
    | AppendAfterComplete
    | PhaseNotAdvancing(last: nat, requested: nat)
    | FinishBeforeComplete(lastTag: nat)
    | NoIncompleteTail
    | IncompleteTail
    | TailNotPrefix
    | ExpectedRecordIllegal(corruption: FrameCorruption)

  /** Which side of the first link attempt a claim was refused on. */
  datatype ClaimRefusal = BeforeLink(error: JournalError) | PossiblyDurable(error: JournalError)

  /** Every state from `from` on is safe to crash in. */
  ghost predicate AllSafe(trace: seq<Fs>, from: nat, name: PendingName) {
    forall i :: from <= i < |trace| ==> CrashSafe(trace[i], name)
  }

  // ----- headers and claim bytes

  function PutU64(n: nat): (b: Bytes)
    ensures |b| == 8
  {
    PutU32(n / U32 % U32) + PutU32(n % U32)
  }

  datatype FsIdentity = FsIdentity(dev: nat, ino: nat) {
    function ToBytes(): (b: Bytes)
      ensures |b| == 16
    {
      PutU64(dev) + PutU64(ino)
    }
  }

  type Generation = b: Bytes | |b| == 16 witness seq(16, _ => 0)

  /** A row header as its caller builds it; the claim composes the identities in. */
  datatype BuiltHeader = BuiltHeader(generation: Generation, tail: Bytes) {
    function Compose(parent: FsIdentity, inode: FsIdentity): Bytes {
      generation + parent.ToBytes() + inode.ToBytes() + tail
    }
  }

  lemma Halves(a: Bytes, b: Bytes)
    ensures (a + b)[0..|a|] == a && (a + b)[|a|..|a| + |b|] == b
  {
  }

  lemma SplitU64(n: nat)
    requires n < 0x1_0000_0000_0000_0000
    ensures n / U32 < U32 && n == n / U32 * U32 + n % U32
    ensures PutU64(n) == PutU32(n / U32) + PutU32(n % U32)
    ensures PutU64(n)[0..4] == PutU32(n / U32) && PutU64(n)[4..8] == PutU32(n % U32)
  {
    hide PutU32;
    assert n / U32 < U32;
    assert n / U32 % U32 == n / U32;
    Halves(PutU32(n / U32), PutU32(n % U32));
  }

  /** The eight bytes are the number, most significant first. */
  lemma U64Bytes(n: nat)
    requires n < 0x1_0000_0000_0000_0000
    ensures var b := PutU64(n);
      && n == b[0] as int * 0x1_00_00_00_00_00_00_00 + b[1] as int * 0x1_00_00_00_00_00_00
              + b[2] as int * 0x1_00_00_00_00_00 + b[3] as int * 0x1_00_00_00_00
              + b[4] as int * 0x1_00_00_00 + b[5] as int * 0x1_00_00 + b[6] as int * 0x1_00 + b[7] as int
  {
    SplitU64(n);
    GetPut(n / U32);
    GetPut(n % U32);
    hide PutU32, PutU64;
    var b, h, l := PutU64(n), PutU32(n / U32), PutU32(n % U32);
    assert b[0] == h[0] && b[1] == h[1] && b[2] == h[2] && b[3] == h[3];
    assert b[4] == l[0] && b[5] == l[1] && b[6] == l[2] && b[7] == l[3];
  }

  /** The fixed common at the head of every row header, read back by position. */
  datatype JournalCommon = JournalCommon(generation: Generation, parent: FsIdentity, inode: FsIdentity)

  function GetU64(b: Bytes): nat
    requires |b| == 8
  {
    GetU32(b[0..4]) * U32 + GetU32(b[4..8])
  }

  function IdentityFrom(b: Bytes): FsIdentity
    requires |b| == 16
  {
    FsIdentity(GetU64(b[0..8]), GetU64(b[8..16]))
  }

  function DecodeCommon(b: Bytes): JournalCommon
    requires |b| == 48
  {
    JournalCommon(b[0..16], IdentityFrom(b[16..32]), IdentityFrom(b[32..48]))
  }

  ghost predicate Narrow(id: FsIdentity) {
    id.dev < 0x1_0000_0000_0000_0000 && id.ino < 0x1_0000_0000_0000_0000
  }

  lemma GetPut64(n: nat)
    requires n < 0x1_0000_0000_0000_0000
    ensures GetU64(PutU64(n)) == n
  {
    SplitU64(n);
    GetPut(n / U32);
    GetPut(n % U32);
    hide PutU32, GetU32, PutU64;
  }

  lemma IdentityRoundTrip(id: FsIdentity)
    requires Narrow(id)
    ensures IdentityFrom(id.ToBytes()) == id
    ensures id.ToBytes()[0..8] == PutU64(id.dev) && id.ToBytes()[8..16] == PutU64(id.ino)
  {
    GetPut64(id.dev);
    GetPut64(id.ino);
    Halves(PutU64(id.dev), PutU64(id.ino));
    hide PutU64, GetU64;
  }

  /** Main result: a composed header holds the generation at 0, the parent's device and inode
      numbers at 16 and 24, the journal's at 32 and 40, and the caller's tail from 48; the
      common reads back as it was written. */
  lemma ComposedLayout(header: BuiltHeader, parent: FsIdentity, inode: FsIdentity)
    requires Narrow(parent) && Narrow(inode)
    ensures var b := header.Compose(parent, inode);
      && |b| == 48 + |header.tail| && b[0..16] == header.generation && b[48..] == header.tail
      && b[16..24] == PutU64(parent.dev) && b[24..32] == PutU64(parent.ino)
      && b[32..40] == PutU64(inode.dev) && b[40..48] == PutU64(inode.ino)
      && DecodeCommon(b[0..48]) == JournalCommon(header.generation, parent, inode)
  {
    IdentityRoundTrip(parent);
    IdentityRoundTrip(inode);
    hide PutU64, IdentityFrom, FsIdentity.ToBytes;
    var b, p, i := header.Compose(parent, inode), parent.ToBytes(), inode.ToBytes();
    assert b[0..16] == header.generation && b[48..] == header.tail;
    assert b[16..32] == p && b[32..48] == i;
    assert b[16..24] == p[0..8] && b[24..32] == p[8..16] && b[32..40] == i[0..8] && b[40..48] == i[8..16];
    assert b[0..48][0..16] == b[0..16] && b[0..48][16..32] == b[16..32] && b[0..48][32..48] == b[32..48];
  }

  function ClaimBytes(header: Bytes, payload: Bytes): (r: Result<Bytes, JournalError>)
    ensures r.Ok? ==> |r.value| <= CEILING
  {
    match EncodeHeader(header)
    case Err(law) => Err(Law(law))
    case Ok(prefix) =>
      match EncodeRecord(0, 1, payload)
      case Err(law) => Err(Law(law))
      case Ok(record) =>
        if |prefix + record| > CEILING then Err(CeilingExceeded(|prefix + record|)) else Ok(prefix + record)
  }

  /** Exactly when a header and its Prepared record fit, and what is said otherwise. */
  lemma ClaimBytesIff(header: Bytes, payload: Bytes)
    ensures ClaimBytes(header, payload).Ok? <==> |header| + |payload| <= 2101219
    ensures ClaimBytes(header, payload).Ok? ==> |ClaimBytes(header, payload).value| == 29 + |header| + |payload|
    ensures ClaimBytes(header, payload).Err? ==>
      ClaimBytes(header, payload).error ==
        if |header| > 2101219 then Law(HeaderOverCeiling(|header|))
        else if |payload| > 2101219 then Law(Record(0, OverCeiling(29 + |payload|)))
        else CeilingExceeded(29 + |header| + |payload|)
  {
  }

  /** Claim bytes are exactly the header and its Prepared record. */
  lemma ClaimBytesPrepared(header: Bytes, payload: Bytes)
    requires ClaimBytes(header, payload).Ok?
    ensures Decode(ClaimBytes(header, payload).value) ==
            Ok(DecodedFrame(header, [PhaseRecord(0, 1, payload)], Clean))
    ensures PreparedOnly(ClaimBytes(header, payload).value)
  {
    hide Decode, HeaderBytes, RecordBytes;
    var prepared := PhaseRecord(0, 1, payload);
    var records := [prepared];
    assert records[1..] == [];
    assert LawfulRecord(prepared, 0, 0, PREFIX_LEN + |header|);
    assert LawfulRecords(records[1..], 1, 1, PREFIX_LEN + |header| + Size(prepared));
    assert Lawful(header, records);
    DecodeEncoded(header, records);
    assert AllRecords(records) == OneRecord(records[0]) + [];
    assert FrameBytes(header, records) == HeaderBytes(header) + RecordBytes(0, 1, payload);
  }

  // ----- rechecks

  /** What a successful recheck witnesses. */
  ghost predicate Checked(fs: Fs, name: Name, file: Ino, links: nat, len: nat) {
    && name in fs.entries && fs.entries[name] == file && file in fs.inodes
    && fs.inodes[file].kind.Regular? && fs.inodes[file].mode == JOURNAL_MODE
    && |NamesOf(fs.entries, file)| == links && |fs.inodes[file].data| == len
  }

  /** `reason` tells how the open file differs from what was expected of it. */
  ghost predicate Disproves(fs: Fs, file: Ino, links: nat, len: nat, reason: CorruptionReason) {
    && file in fs.inodes
    && match reason
       case WrongNodeKind(kind) => kind == fs.inodes[file].kind && kind != Regular
       case WrongMode(mode) => mode == fs.inodes[file].mode && mode != 0x180
       case ExtraLinks(found) => found == |NamesOf(fs.entries, file)| && found != links
       case UnexpectedLength(expected, found) => expected == len && found == |fs.inodes[file].data| && found != len
       case _ => false
  }

  /** Recheck the path mapping, then the handle: kind, mode, link count, exact length. */
  method Recheck(dir: AdmittedDir, name: Name, file: Ino, links: nat, len: nat) returns (r: Result<(), JournalError>)
    requires file in dir.fs.inodes
    modifies dir`clock
    ensures dir.clock >= old(dir.clock)
    ensures r.Ok? ==> Checked(dir.fs, name, file, links, len)
    ensures old(dir.Quiet()) && Checked(dir.fs, name, file, links, len) ==> r.Ok?
    ensures r.Err? && r.error.CorruptJournal? ==> Disproves(dir.fs, file, links, len, r.error.reason)
    ensures r.Err? && !r.error.CorruptJournal? ==>
              r.error == CustodyRefused(IdentityDrift) || r.error == CustodyRefused(Io)
  {
    var mapped := dir.Reassert(name, file);
    if mapped.Err? {
      return Err(CustodyRefused(mapped.error));
    }
    var stat := dir.StatFile(file);
    if stat.Err? {
      return Err(CustodyRefused(stat.error));
    }
    var s := stat.value;
    if !s.kind.Regular? {
      return Err(CorruptJournal(WrongNodeKind(s.kind)));
    }
    if s.mode != JOURNAL_MODE {
      return Err(CorruptJournal(WrongMode(s.mode)));
    }
    if s.nlink != links {
      return Err(CorruptJournal(ExtraLinks(s.nlink)));
    }
    if s.size != len {
      return Err(CorruptJournal(UnexpectedLength(len, s.size)));
    }
    return Ok(());
  }

  // ----- claiming

  /** What a claim knows of its file without knowing what an earlier crash could still undo: the
      cached entries and the inode itself. */
  ghost predicate Cached(fs: Fs, name: PendingName, j: Ino) {
    && Coherent(fs) && name.claim != name.pending
    && j in fs.inodes && fs.inodes[j].kind.Regular? && fs.inodes[j].mode == JOURNAL_MODE
    && Owned(fs.entries, name, j)
  }

  /** No crash shows a pending name: the claim file exists at most under its claim name. */
  ghost predicate Preclaiming(fs: Fs, name: PendingName, j: Ino) {
    Safe(fs, name, j) && forall s :: s in fs.survivors ==> name.pending !in s
  }

  /** A claim before its first link; `absent` says that the absence it found was committed. */
  ghost predicate Preparing(fs: Fs, name: PendingName, j: Ino, absent: bool) {
    Cached(fs, name, j) && name.pending !in fs.entries && (absent ==> Preclaiming(fs, name, j))
  }

  lemma CreatePrepares(fs: Fs, name: PendingName, j: Ino)
    requires Coherent(fs) && name.claim != name.pending && j !in fs.inodes && !Visible(fs, name)
    ensures Preparing(Create(fs, name.claim, j), name, j, DurablyAbsent(fs, name))
    ensures DurablyAbsent(fs, name) ==> CrashSafe(fs, name) && CrashSafe(Create(fs, name.claim, j), name)
    ensures var created := Create(fs, name.claim, j);
      && created.inodes[j].data == [] && name.claim in created.entries && name.pending !in created.entries
      && (DurablyAbsent(fs, name) ==> forall s :: s in created.survivors ==> name.pending !in s)
  {
    hide Decode, Admit, CrashSafe;
    var created := Create(fs, name.claim, j);
    assert fs.entries in fs.survivors;
    assert created.entries in created.survivors;
    if DurablyAbsent(fs, name) {
      CreateSafe(fs, name, j);
      SafeIsCrashSafe(created, name, j);
      AbsentIsCrashSafe(fs, name);
    }
  }

  /** What the two stats before a claim decide. */
  lemma StatsDecide(fs: Fs, name: PendingName)
    requires Coherent(fs)
    ensures StatEntry(fs, name.claim) == None && StatEntry(fs, name.pending) == None <==> !Visible(fs, name)
    ensures DurablyAbsent(fs, name) ==> !Visible(fs, name) && forall s :: s in fs.survivors ==> name.pending !in s
  {
    assert fs.entries in fs.survivors;
  }

  lemma PreparingFacts(fs: Fs, name: PendingName, j: Ino, absent: bool)
    requires Preparing(fs, name, j, absent)
    ensures name.pending !in fs.entries && (absent ==> forall s :: s in fs.survivors ==> name.pending !in s)
  {
    hide Safe;
  }

  lemma PreparingUnlink(fs: Fs, name: PendingName, j: Ino, absent: bool)
    requires Preparing(fs, name, j, absent)
    ensures Preparing(Unlink(fs, name.claim), name, j, absent)
    ensures absent ==> CrashSafe(Unlink(fs, name.claim), name)
  {
    hide Decode, Admit, CrashSafe;
    var after := Unlink(fs, name.claim);
    assert after.entries in after.survivors;
    if absent {
      UnlinkSafe(fs, name, j, name.claim);
      SafeIsCrashSafe(after, name, j);
    }
  }

  lemma PreparingSyncs(fs: Fs, name: PendingName, j: Ino, absent: bool)
    requires Preparing(fs, name, j, absent)
    ensures Preparing(SyncDir(fs), name, j, absent) && (absent ==> CrashSafe(SyncDir(fs), name))
    ensures Preparing(SyncFile(fs, j), name, j, absent) && (absent ==> CrashSafe(SyncFile(fs, j), name))
  {
    hide Decode, CrashSafe, Owned, Legible;
    if absent {
      SyncDirSafe(fs, name, j);
      SyncFileSafe(fs, name, j);
      SafeIsCrashSafe(SyncDir(fs), name, j);
      SafeIsCrashSafe(SyncFile(fs, j), name, j);
    }
  }

  lemma PreparingAppend(fs: Fs, name: PendingName, j: Ino, bytes: Bytes, absent: bool)
    requires Preparing(fs, name, j, absent)
    ensures Preparing(Append(fs, j, bytes), name, j, absent) && (absent ==> CrashSafe(Append(fs, j, bytes), name))
  {
    hide Decode, CrashSafe, Owned, Legible;
    AppendOutcomes(fs, j, bytes, []);
    if absent {
      AppendUnlinked(fs, name, j, bytes);
      SafeIsCrashSafe(Append(fs, j, bytes), name, j);
    }
  }

  lemma PreparingIsSafe(fs: Fs, name: PendingName, j: Ino, absent: bool)
    requires Preparing(fs, name, j, absent)
    ensures j in fs.inodes && (absent ==> CrashSafe(fs, name))
  {
    hide Decode, CrashSafe;
    if absent { SafeIsCrashSafe(fs, name, j); }
  }

  lemma PreparingChecked(fs: Fs, name: PendingName, j: Ino, absent: bool)
    requires Preparing(fs, name, j, absent) && name.claim in fs.entries
    ensures Checked(fs, name.claim, j, 1, |fs.inodes[j].data|)
  {
    hide Decode, Preclaiming;
    NamesOfOwned(fs.entries, name, j);
  }

  /** Unlink the claim file if its name still maps to it, then sync: the one permitted cleanup. */
  method DiscardWitnessed(dir: AdmittedDir, name: PendingName, file: Ino, ghost absent: bool, ghost from: nat)
    requires Preparing(dir.fs, name, file, absent) && (absent ==> AllSafe(dir.trace, from, name))
    modifies dir
    ensures Preparing(dir.fs, name, file, absent) && (absent ==> AllSafe(dir.trace, from, name))
    ensures old(dir.trace) <= dir.trace && dir.Traced()
  {
    hide Preparing, CrashSafe;
    var witnessed := dir.Reassert(name.claim, file);
    if witnessed.Err? {
      return;
    }
    PreparingUnlink(dir.fs, name, file, absent);
    PreparingIsSafe(dir.fs, name, file, absent);
    var unlinked := dir.UnlinkEntry(name.claim);
    if unlinked.Err? {
      return;
    }
    PreparingSyncs(dir.fs, name, file, absent);
    var synced := dir.Sync();
  }

  /** Assemble, write, sync and validate the claim file through its creating handle. */
  method WriteClaimFile(dir: AdmittedDir, name: PendingName, file: Ino, header: Bytes, payload: Bytes,
                        ghost absent: bool, ghost from: nat)
    returns (r: Result<Bytes, JournalError>)
    requires Preparing(dir.fs, name, file, absent) && (absent ==> AllSafe(dir.trace, from, name))
    requires dir.fs.inodes[file].data == []
    modifies dir
    ensures Preparing(dir.fs, name, file, absent) && (absent ==> AllSafe(dir.trace, from, name))
    ensures old(dir.trace) <= dir.trace && dir.Traced() && dir.fs.entries == old(dir.fs.entries)
    ensures r.Ok? ==> ClaimBytes(header, payload) == r && dir.fs.inodes[file].disk == {r.value}
    ensures r.Ok? ==> dir.fs.inodes[file].data == r.value && Checked(dir.fs, name.claim, file, 1, |r.value|)
    ensures (old(dir.Quiet()) && ClaimBytes(header, payload).Ok? && name.claim in old(dir.fs.entries)) ==>
      r.Ok? && dir.Quiet()
    ensures ClaimBytes(header, payload).Err? ==> r == ClaimBytes(header, payload)
  {
    hide Disproves, Preparing, CrashSafe, ClaimBytes, Decode;
    var bytes := ClaimBytes(header, payload);
    if bytes.Err? {
      return bytes;
    }
    ghost var before := dir.fs;
    PreparingIsSafe(before, name, file, absent);
    assert [] + bytes.value == bytes.value;
    var appended, n := dir.AppendFile(file, bytes.value);
    PreparingAppend(before, name, file, bytes.value[..n], absent);
    PreparingAppend(before, name, file, bytes.value, absent);
    if appended.Err? {
      return Err(CustodyRefused(appended.error));
    }
    PreparingSyncs(dir.fs, name, file, absent);
    var synced := dir.SyncOpen(file);
    if synced.Err? {
      return Err(CustodyRefused(synced.error));
    }
    var reread := dir.ReadPrefix(file, CEILING + 1);
    if reread.Err? {
      return Err(CustodyRefused(reread.error));
    }
    if reread.value != bytes.value {
      return Err(CorruptJournal(RereadMismatch));
    }
    if name.claim in dir.fs.entries {
      PreparingChecked(dir.fs, name, file, absent);
    }
    var checked := Recheck(dir, name.claim, file, 1, |bytes.value|);
    if checked.Err? {
      return Err(checked.error);
    }
    return bytes;
  }

  ghost predicate Visible(fs: Fs, name: PendingName) {
    name.claim in fs.entries || name.pending in fs.entries
  }

  /** A directory sync commits an absence: it is all a caller needs before a claim. */
  lemma SyncCommitsAbsence(fs: Fs, name: PendingName)
    ensures DurablyAbsent(SyncDir(fs), name) <==> !Visible(fs, name)
  {
    assert fs.entries in SyncDir(fs).survivors;
  }

  /** Stat both names; a visible one is refused. */
  method SeeNoMarker(dir: AdmittedDir, name: PendingName) returns (r: Result<(), JournalError>)
    requires Coherent(dir.fs)
    modifies dir`clock
    ensures r.Ok? ==> !Visible(dir.fs, name)
    ensures old(dir.Quiet()) && !Visible(dir.fs, name) ==> r.Ok? && dir.Quiet()
    ensures old(dir.Quiet()) && Visible(dir.fs, name) ==> r == Err(CustodyRefused(AlreadyExists))
  {
    hide Coherent, DurablyAbsent, StatEntry;
    StatsDecide(dir.fs, name);
    var claimStat := dir.StatName(name.claim);
    if claimStat.Err? {
      return Err(CustodyRefused(claimStat.error));
    }
    if claimStat.value.Some? {
      return Err(CustodyRefused(AlreadyExists));
    }
    var pendingStat := dir.StatName(name.pending);
    if pendingStat.Err? {
      return Err(CustodyRefused(pendingStat.error));
    }
    if pendingStat.value.Some? {
      return Err(CustodyRefused(AlreadyExists));
    }
    r := Ok(());
  }

  /** Everything strictly before the first link attempt. A refusal leaves no pending name, and
      none under any crash if the absence it found was committed. */
  method ClaimPreflight(dir: AdmittedDir, name: PendingName, header: BuiltHeader, parent: FsIdentity, payload: Bytes,
                        ino: Ino)
    returns (r: Result<Bytes, JournalError>)
    requires Coherent(dir.fs) && name.claim != name.pending && ino !in dir.fs.inodes
    modifies dir
    ensures old(dir.trace) <= dir.trace && dir.Traced()
    ensures old(Visible(dir.fs, name)) ==> r.Err? && dir.fs == old(dir.fs)
    ensures old(DurablyAbsent(dir.fs, name)) ==> AllSafe(dir.trace, |old(dir.trace)|, name)
    ensures r.Err? && !old(Visible(dir.fs, name)) ==> name.pending !in dir.fs.entries
    ensures r.Err? && old(DurablyAbsent(dir.fs, name)) ==> forall s :: s in dir.fs.survivors ==> name.pending !in s
    ensures r.Ok? ==>
      && ClaimBytes(header.Compose(parent, FsIdentity(parent.dev, ino)), payload) == r
      && Preparing(dir.fs, name, ino, old(DurablyAbsent(dir.fs, name)))
      && Checked(dir.fs, name.claim, ino, 1, |r.value|)
      && dir.fs.inodes[ino].data == r.value && dir.fs.inodes[ino].disk == {r.value}
    ensures (old(dir.Quiet()) && !old(Visible(dir.fs, name))
             && ClaimBytes(header.Compose(parent, FsIdentity(parent.dev, ino)), payload).Ok?) ==> r.Ok? && dir.Quiet()
    ensures old(dir.Quiet()) && old(Visible(dir.fs, name)) ==> r == Err(CustodyRefused(AlreadyExists))
    ensures (old(dir.Quiet()) && !old(Visible(dir.fs, name))
             && ClaimBytes(header.Compose(parent, FsIdentity(parent.dev, ino)), payload).Err?) ==>
            r == ClaimBytes(header.Compose(parent, FsIdentity(parent.dev, ino)), payload)
  {
    hide CrashSafe, ClaimBytes, Decode, Safe, BuiltHeader.Compose, Preparing, Coherent, DurablyAbsent, StatEntry,
         Create;
    ghost var absent := DurablyAbsent(dir.fs, name);
    StatsDecide(dir.fs, name);
    var unseen := SeeNoMarker(dir, name);
    if unseen.Err? {
      return Err(unseen.error);
    }
    ghost var from := |dir.trace|;
    CreatePrepares(dir.fs, name, ino);
    var created := dir.CreateFileExcl(name.claim, ino);
    if created.Err? {
      return Err(CustodyRefused(created.error));
    }
    r := WriteClaimFile(dir, name, ino, header.Compose(parent, FsIdentity(parent.dev, ino)), payload, absent, from);
    if r.Err? {
      DiscardWitnessed(dir, name, ino, absent, from);
      PreparingFacts(dir.fs, name, ino, absent);
    }
  }

  /** The journal inode is pending under its one committed name. */
  ghost predicate Committed(fs: Fs, name: PendingName, j: Ino) {
    && Safe(fs, name, j) && fs.survivors == {fs.entries}
    && name.pending in fs.entries && fs.entries[name.pending] == j && name.claim !in fs.entries
  }

  /** A synced directory has nothing an earlier crash could bring back. */
  lemma SyncedIsSafe(fs: Fs, name: PendingName, j: Ino)
    requires Cached(fs, name, j) && forall d :: d in fs.inodes[j].disk ==> PreparedOnly(d)
    ensures Safe(SyncDir(fs), name, j)
  {
    hide Decode;
  }

  /** A state of a commit: the claim's own file, untouched, and the journal's directory throughout
      when the absence was committed. */
  ghost predicate Committing(first: Fs, st: Fs, name: PendingName, j: Ino, absent: bool) {
    Cached(st, name, j) && st.inodes == first.inodes && (absent ==> Safe(st, name, j))
  }

  lemma CommittingAllSafe(first: Fs, trace: seq<Fs>, from: nat, name: PendingName, j: Ino)
    requires forall i :: from <= i < |trace| ==> Committing(first, trace[i], name, j, true)
    ensures AllSafe(trace, from, name)
  {
    hide CrashSafe, Safe;
    forall i | from <= i < |trace| ensures CrashSafe(trace[i], name) { SafeIsCrashSafe(trace[i], name, j); }
  }

  /** The states from the link on. Only the unsynced link depends on the absence being committed. */
  lemma CommitStates(fs: Fs, name: PendingName, j: Ino, bytes: Bytes, absent: bool)
    requires Preparing(fs, name, j, absent) && Checked(fs, name.claim, j, 1, |bytes|)
    requires fs.inodes[j].data == bytes && fs.inodes[j].disk == {bytes} && PreparedOnly(bytes)
    ensures var linked := Link(fs, name.claim, name.pending);
      var claimed := SyncDir(linked);
      var unlinked := Unlink(claimed, name.claim);
      && name.pending !in fs.entries && (absent ==> CrashSafe(fs, name) && CrashSafe(linked, name))
      && Committing(fs, fs, name, j, absent) && Committing(fs, linked, name, j, absent)
      && Committing(fs, claimed, name, j, absent) && Committing(fs, unlinked, name, j, absent)
      && Committing(fs, SyncDir(unlinked), name, j, absent)
      && name.claim in fs.entries && name.claim in claimed.entries && StatEntry(SyncDir(unlinked), name.claim) == None
      && linked.inodes == fs.inodes && claimed.inodes == fs.inodes && unlinked.inodes == fs.inodes
      && CrashSafe(claimed, name) && CrashSafe(unlinked, name) && CrashSafe(SyncDir(unlinked), name)
      && Checked(claimed, name.pending, j, 2, |bytes|) && Checked(claimed, name.claim, j, 2, |bytes|)
      && Committed(SyncDir(unlinked), name, j) && Checked(SyncDir(unlinked), name.pending, j, 1, |bytes|)
  {
    hide Decode, CrashSafe, Legible, Admit;
    var linked := Link(fs, name.claim, name.pending);
    var claimed := SyncDir(linked);
    var unlinked := Unlink(claimed, name.claim);
    var done := SyncDir(unlinked);
    assert linked.entries in linked.survivors && fs.entries in fs.survivors;
    SyncedIsSafe(linked, name, j);
    UnlinkSafe(claimed, name, j, name.claim);
    SyncDirSafe(unlinked, name, j);
    if absent {
      LinkSafe(fs, name, j);
      SafeIsCrashSafe(fs, name, j);
      SafeIsCrashSafe(linked, name, j);
    }
    SafeIsCrashSafe(claimed, name, j);
    SafeIsCrashSafe(unlinked, name, j);
    SafeIsCrashSafe(done, name, j);
    assert Owned(claimed.entries, name, j) && Owned(done.entries, name, j);
    NamesOfOwned(claimed.entries, name, j);
    NamesOfOwned(done.entries, name, j);
  }

  /** Link the pending name, sync the directory, and see both names on the one file. */
  method LinkPending(dir: AdmittedDir, name: PendingName, file: Ino, len: nat, ghost bytes: Bytes, ghost absent: bool)
    returns (r: Result<(), JournalError>)
    requires Preparing(dir.fs, name, file, absent) && Checked(dir.fs, name.claim, file, 1, |bytes|) && len == |bytes|
    requires dir.fs.inodes[file].data == bytes && dir.fs.inodes[file].disk == {bytes} && PreparedOnly(bytes)
    modifies dir
    ensures old(dir.trace) <= dir.trace && dir.Traced() && Committing(old(dir.fs), dir.fs, name, file, absent)
    ensures forall i :: |old(dir.trace)| <= i < |dir.trace| ==>
      Committing(old(dir.fs), dir.trace[i], name, file, absent)
    ensures r.Ok? ==>
      && name.claim in old(dir.fs.entries) && dir.fs == SyncDir(Link(old(dir.fs), name.claim, name.pending))
      && dir.Recorded() && |old(dir.trace)| < |dir.trace|
      && Checked(dir.fs, name.pending, file, 2, len) && Checked(dir.fs, name.claim, file, 2, len)
    ensures old(dir.Quiet()) ==> r.Ok? && dir.Quiet()
  {
    hide CrashSafe, Decode, Preparing, Committing, Committed, Safe, PreparedOnly, Cached, Link, Unlink, SyncDir,
         StatEntry, NamesOf, Disproves;
    CommitStates(dir.fs, name, file, bytes, absent);
    assert file in dir.fs.inodes;
    hide Checked;
    var linked := dir.LinkEntry(name.claim, name.pending);
    if linked.Err? {
      return Err(CustodyRefused(linked.error));
    }
    var durable := dir.Sync();
    if durable.Err? {
      return Err(CustodyRefused(durable.error));
    }
    r := Recheck(dir, name.pending, file, 2, len);
    if r.Err? {
      return;
    }
    r := Recheck(dir, name.claim, file, 2, len);
    if r.Err? {
      return;
    }
  }

  /** The first link attempt through the checks that follow it. */
  method ClaimCommit(dir: AdmittedDir, name: PendingName, file: Ino, len: nat, ghost bytes: Bytes, ghost absent: bool)
    returns (r: Result<(), JournalError>)
    requires Preparing(dir.fs, name, file, absent) && Checked(dir.fs, name.claim, file, 1, |bytes|) && len == |bytes|
    requires dir.fs.inodes[file].data == bytes && dir.fs.inodes[file].disk == {bytes} && PreparedOnly(bytes)
    modifies dir
    ensures old(dir.trace) <= dir.trace && dir.Traced() && Committing(old(dir.fs), dir.fs, name, file, absent)
    ensures forall i :: |old(dir.trace)| <= i < |dir.trace| ==>
      Committing(old(dir.fs), dir.trace[i], name, file, absent)
    ensures r.Ok? ==> Committed(dir.fs, name, file) && Checked(dir.fs, name.pending, file, 1, len)
    ensures r.Ok? ==> dir.Recorded() && |old(dir.trace)| < |dir.trace|
    ensures old(dir.Quiet()) ==> r.Ok? && dir.Quiet()
  {
    hide CrashSafe, Decode, Preparing, Committing, Committed, Safe, PreparedOnly, Cached, Link, Unlink, SyncDir,
         StatEntry, NamesOf, Disproves;
    CommitStates(dir.fs, name, file, bytes, absent);
    assert file in dir.fs.inodes;
    hide Checked;
    r := LinkPending(dir, name, file, len, bytes, absent);
    if r.Err? {
      return;
    }
    var unlinked := dir.UnlinkEntry(name.claim);
    if unlinked.Err? {
      return Err(CustodyRefused(unlinked.error));
    }
    var synced := dir.Sync();
    if synced.Err? {
      return Err(CustodyRefused(synced.error));
    }
    r := Recheck(dir, name.pending, file, 1, len);
    if r.Err? {
      return;
    }
    var gone := dir.StatName(name.claim);
    if gone.Err? {
      return Err(CustodyRefused(gone.error));
    }
    if gone.value.Some? {
      return Err(CustodyRefused(IdentityDrift));
    }
  }

  // ----- live journals

  /** What a live journal knows of its file: the first `totalLen` bytes are a clean frame of
      `nextSequence` records ending in `lastTag`, and no crash shows the claim name. */
  ghost predicate Live(fs: Fs, name: PendingName, j: Ino, totalLen: nat, nextSequence: nat, lastTag: nat) {
    && Safe(fs, name, j)
    && (forall s :: s in fs.survivors ==> name.claim !in s)
    && totalLen <= |fs.inodes[j].data|
    && Holds(fs.inodes[j].data[..totalLen], nextSequence, lastTag)
  }

  /** `content` is a clean frame of that many records, the last with that tag. */
  ghost predicate Holds(content: Bytes, nextSequence: nat, lastTag: nat) {
    && Decode(content).Ok? && Decode(content).value.tail.Clean?
    && |Decode(content).value.records| == nextSequence > 0
    && LastTag(Decode(content).value.records, 0) == lastTag
  }

  /** No crash loses any of `content`. */
  ghost predicate Durable(fs: Fs, j: Ino, content: Bytes) {
    j in fs.inodes && forall d :: d in fs.inodes[j].disk ==> content <= d
  }

  /** Every crash of `fs` leaves the cached content of `j`. */
  ghost predicate SyncedFile(fs: Fs, j: Ino) {
    j in fs.inodes && fs.inodes[j].disk == {fs.inodes[j].data}
  }

  /** A crash leaves the journal pending under its one name, with all of `content`. */
  ghost predicate Retains(fs: Fs, name: PendingName, j: Ino, content: Bytes) {
    && Safe(fs, name, j) && KeepsPending(fs, name) && (forall s :: s in fs.survivors ==> name.claim !in s)
    && Durable(fs, j, content)
  }

  ghost predicate KeepsPending(fs: Fs, name: PendingName) {
    forall s :: s in fs.survivors ==> name.pending in s
  }

  /** What `fs` retains of `limit`, `st` retains too. */
  ghost predicate RetainsAll(fs: Fs, st: Fs, name: PendingName, j: Ino, limit: Bytes) {
    forall content :: content <= limit && Retains(fs, name, j, content) ==> Retains(st, name, j, content)
  }

  class LiveJournal {
    const dir: AdmittedDir
    const name: PendingName
    const file: Ino
    var totalLen: nat
    var nextSequence: nat
    var lastTag: nat

    ghost predicate Valid()
      reads this, dir
    {
      Live(dir.fs, name, file, totalLen, nextSequence, lastTag)
    }

    /** The bytes this journal has acknowledged. */
    ghost function Content(): Bytes
      requires Valid()
      reads this, dir
    {
      dir.fs.inodes[file].data[..totalLen]
    }

    constructor (dir: AdmittedDir, name: PendingName, file: Ino, totalLen: nat, nextSequence: nat, lastTag: nat)
      ensures this.dir == dir && this.name == name && this.file == file
      ensures this.totalLen == totalLen && this.nextSequence == nextSequence && this.lastTag == lastTag
    {
      this.dir, this.name, this.file := dir, name, file;
      this.totalLen, this.nextSequence, this.lastTag := totalLen, nextSequence, lastTag;
    }

    /** Recheck, write the legal next record, sync, recheck. */
    method WriteRecord(bytes: Bytes, ghost next: PhaseRecord) returns (r: Result<(), JournalError>)
      requires Valid() && LawfulRecord(next, nextSequence, lastTag, totalLen)
      requires next.sequence < PHASE_COUNT && |next.payload| <= CEILING && bytes == OneRecord(next)
      modifies dir
      ensures Valid() && old(dir.trace) <= dir.trace && AllSafe(dir.trace, |old(dir.trace)|, name)
      ensures Content() == old(Content())
      ensures Durable(old(dir.fs), file, old(Content())) ==> Durable(dir.fs, file, old(Content()))
      ensures |dir.trace| > |old(dir.trace)| ==> old(dir.fs).inodes[file].data == old(Content()) && dir.Recorded()
      ensures |dir.trace| == |old(dir.trace)| ==> dir.fs == old(dir.fs) && r.Err?
      ensures AppendState(old(dir.fs), file, bytes, dir.fs)
      ensures forall i :: |old(dir.trace)| <= i < |dir.trace| ==> AppendState(old(dir.fs), file, bytes, dir.trace[i])
      ensures r.Ok? ==>
        && file in dir.fs.inodes && dir.fs.inodes[file].data == old(Content()) + bytes
        && Durable(dir.fs, file, dir.fs.inodes[file].data)
        && Holds(dir.fs.inodes[file].data, nextSequence + 1, next.phaseTag)
        && Checked(dir.fs, name.pending, file, 1, totalLen + |bytes|)
        && dir.fs.inodes[file].disk == {dir.fs.inodes[file].data}
      ensures old(dir.Quiet()) && old(Checked(dir.fs, name.pending, file, 1, totalLen)) ==> r.Ok? && dir.Quiet()
    {
      hide Disproves, Decode, CrashSafe, Safe, Holds, OneRecord, LawfulRecord, Durable, AppendState;
      LiveFacts(dir.fs, name, file, totalLen, nextSequence, lastTag);
      AppendStates(dir.fs, file, bytes, 0);
      r := Recheck(dir, name.pending, file, 1, totalLen);
      if r.Err? {
        return;
      }
      ghost var before := dir.fs;
      ghost var content := before.inodes[file].data;
      assert content[..totalLen] == content;
      var appended, n := dir.AppendFile(file, bytes);
      AppendLive(before, name, file, nextSequence, lastTag, next, n);
      AppendLive(before, name, file, nextSequence, lastTag, next, Size(next));
      assert bytes[..|bytes|] == bytes;
      AppendStates(before, file, bytes, n);
      if appended.Err? {
        return Err(CustodyRefused(appended.error));
      }
      AppendReplays(content, nextSequence, lastTag, next, Size(next));
      SyncLive(dir.fs, name, file, totalLen, nextSequence, lastTag);
      var synced := dir.SyncOpen(file);
      if synced.Err? {
        return Err(CustodyRefused(synced.error));
      }
      assert Checked(before, name.pending, file, 1, totalLen);
      r := Recheck(dir, name.pending, file, 1, totalLen + |bytes|);
    }

    /** Append one record: check the law, then write it; only a synced record is acknowledged. */
    method Append(phaseTag: Byte, payload: Bytes) returns (r: Result<(), JournalError>)
      requires Valid()
      modifies this, dir
      ensures Valid() && old(dir.trace) <= dir.trace && AllSafe(dir.trace, |old(dir.trace)|, name)
      ensures Durable(old(dir.fs), file, old(Content())) ==> Durable(dir.fs, file, old(Content()))
      ensures |dir.trace| > |old(dir.trace)| ==>
                && EncodeRecord(old(nextSequence), phaseTag, payload).Ok?
                && old(dir.fs).inodes[file].data == old(Content())
      ensures EncodeRecord(old(nextSequence), phaseTag, payload).Err? ==> dir.fs == old(dir.fs)
      ensures RetainsAll(old(dir.fs), dir.fs, name, file, old(Content()))
      ensures forall i :: |old(dir.trace)| <= i < |dir.trace| ==>
                RetainsAll(old(dir.fs), dir.trace[i], name, file, old(Content()))
      ensures EncodeRecord(old(nextSequence), phaseTag, payload).Ok? ==>
                AppendState(old(dir.fs), file, EncodeRecord(old(nextSequence), phaseTag, payload).value, dir.fs)
      ensures forall i :: |old(dir.trace)| <= i < |dir.trace| ==>
                AppendState(old(dir.fs), file, EncodeRecord(old(nextSequence), phaseTag, payload).value, dir.trace[i])
      ensures r.Err? ==> totalLen == old(totalLen) && nextSequence == old(nextSequence) && lastTag == old(lastTag)
                         && Content() == old(Content())
      ensures r.Ok? ==>
        && EncodeRecord(old(nextSequence), phaseTag, payload).Ok?
        && Content() == old(Content()) + EncodeRecord(old(nextSequence), phaseTag, payload).value
        && nextSequence == old(nextSequence) + 1 && lastTag == phaseTag
        && totalLen == old(totalLen) + |EncodeRecord(old(nextSequence), phaseTag, payload).value|
        && dir.fs.inodes[file].data == Content() && dir.fs.inodes[file].disk == {Content()}
        && Durable(dir.fs, file, Content())
        && Checked(dir.fs, name.pending, file, 1, totalLen) && dir.Recorded() && |dir.trace| > |old(dir.trace)|
      ensures (old(dir.Quiet()) && old(Checked(dir.fs, name.pending, file, 1, totalLen))
               && !IsTerminal(old(lastTag)) && phaseTag > old(lastTag)
               && EncodeRecord(old(nextSequence), phaseTag, payload).Ok?
               && old(totalLen) + |EncodeRecord(old(nextSequence), phaseTag, payload).value| <= CEILING) ==>
              r.Ok? && dir.Quiet()
      ensures old(lastTag) == 3 ==> r == Err(AppendAfterComplete) && dir.fs == old(dir.fs)
      ensures old(lastTag) != 3 && phaseTag <= old(lastTag) ==>
                r == Err(PhaseNotAdvancing(old(lastTag), phaseTag)) && dir.fs == old(dir.fs)
      ensures (old(lastTag) != 3 && phaseTag > old(lastTag)
               && EncodeRecord(old(nextSequence), phaseTag, payload).Err?) ==>
                r == Err(Law(EncodeRecord(old(nextSequence), phaseTag, payload).error)) && dir.fs == old(dir.fs)
      ensures (old(lastTag) != 3 && phaseTag > old(lastTag) && EncodeRecord(old(nextSequence), phaseTag, payload).Ok?
               && old(totalLen) + |EncodeRecord(old(nextSequence), phaseTag, payload).value| > CEILING) ==>
                && r == Err(CeilingExceeded(old(totalLen) +
                                            |EncodeRecord(old(nextSequence), phaseTag, payload).value|))
                && dir.fs == old(dir.fs)
    {
      hide Decode, CrashSafe, Safe, Holds, EncodeRecord, OneRecord, LawfulRecord, Durable, AppendState, Retains;
      LiveFacts(dir.fs, name, file, totalLen, nextSequence, lastTag);
      if EncodeRecord(nextSequence, phaseTag, payload).Ok? {
        AppendStates(dir.fs, file, EncodeRecord(nextSequence, phaseTag, payload).value, 0);
      }
      if IsTerminal(lastTag) {
        return Err(AppendAfterComplete);
      }
      if phaseTag <= lastTag {
        return Err(PhaseNotAdvancing(lastTag, phaseTag));
      }
      var record := EncodeRecord(nextSequence, phaseTag, payload);
      if record.Err? {
        return Err(Law(record.error));
      }
      var total := totalLen + |record.value|;
      if total > CEILING {
        return Err(CeilingExceeded(total));
      }
      EncodedIsLegal(Content(), nextSequence, lastTag, phaseTag, payload);
      ghost var before, next := dir.fs, PhaseRecord(nextSequence, phaseTag, payload);
      r := WriteRecord(record.value, next);
      if |dir.trace| > |old(dir.trace)| {
        assert before.inodes[file].data[..totalLen] == before.inodes[file].data;
        forall st | AppendState(before, file, record.value, st)
          ensures RetainsAll(before, st, name, file, old(Content()))
        {
          AppendRetains(before, name, file, nextSequence, lastTag, next, st);
        }
      }
      if r.Err? {
        return;
      }
      ghost var data := dir.fs.inodes[file].data;
      assert data[..total] == data;
      totalLen := total;
      nextSequence := nextSequence + 1;
      lastTag := phaseTag;
    }

    /** Terminally unlink the complete journal; the parent sync alone commits its absence. */
    method Finish() returns (r: Result<(), JournalError>)
      requires Valid()
      modifies dir
      ensures old(dir.trace) <= dir.trace && dir.Traced() && AllSafe(dir.trace, |old(dir.trace)|, name)
      ensures Finishing(old(dir.fs), dir.fs, name, file)
      ensures forall i :: |old(dir.trace)| <= i < |dir.trace| ==> Finishing(old(dir.fs), dir.trace[i], name, file)
      ensures lastTag != 3 ==> r == Err(FinishBeforeComplete(lastTag)) && dir.fs == old(dir.fs)
      ensures r.Ok? ==> DurablyAbsent(dir.fs, name)
      ensures old(dir.Quiet()) && lastTag == 3 && old(Checked(dir.fs, name.pending, file, 1, totalLen)) ==> r.Ok?
    {
      hide Decode, CrashSafe, Safe, Holds, Finishing, DurablyAbsent, Live;
      ghost var fs := dir.fs;
      FinishStates(fs, name, file, totalLen, nextSequence, lastTag);
      if !IsTerminal(lastTag) {
        return Err(FinishBeforeComplete(lastTag));
      }
      LiveFacts(fs, name, file, totalLen, nextSequence, lastTag);
      r := RemoveName();
      FinishingAllSafe(fs, dir.trace, |old(dir.trace)|, name, file);
    }

    /** Recheck, unlink the last name, see that nothing is left, sync. */
    method RemoveName() returns (r: Result<(), JournalError>)
      requires Valid() && file in dir.fs.inodes
      modifies dir
      ensures old(dir.trace) <= dir.trace && dir.Traced() && Finishing(old(dir.fs), dir.fs, name, file)
      ensures forall i :: |old(dir.trace)| <= i < |dir.trace| ==> Finishing(old(dir.fs), dir.trace[i], name, file)
      ensures r.Ok? ==> DurablyAbsent(dir.fs, name)
      ensures old(dir.Quiet()) && old(Checked(dir.fs, name.pending, file, 1, totalLen)) ==> r.Ok?
    {
      hide Disproves, Decode, CrashSafe, Safe, Holds, Finishing, DurablyAbsent, Unlink, SyncDir, StatEntry, NamesOf;
      FinishStates(dir.fs, name, file, totalLen, nextSequence, lastTag);
      r := Recheck(dir, name.pending, file, 1, totalLen);
      if r.Err? {
        return;
      }
      var claimStat := dir.StatName(name.claim);
      if claimStat.Err? {
        return Err(CustodyRefused(claimStat.error));
      }
      if claimStat.value.Some? {
        return Err(CustodyRefused(IdentityDrift));
      }
      var unlinked := dir.UnlinkEntry(name.pending);
      if unlinked.Err? {
        return Err(CustodyRefused(unlinked.error));
      }
      var stat := dir.StatFile(file);
      if stat.Err? {
        return Err(CustodyRefused(stat.error));
      }
      var links := stat.value.nlink;
      if links != 0 {
        return Err(CorruptJournal(ExtraLinks(links)));
      }
      var pendingStat := dir.StatName(name.pending);
      if pendingStat.Err? {
        return Err(CustodyRefused(pendingStat.error));
      }
      if pendingStat.value.Some? {
        return Err(CustodyRefused(IdentityDrift));
      }
      claimStat := dir.StatName(name.claim);
      if claimStat.Err? {
        return Err(CustodyRefused(claimStat.error));
      }
      if claimStat.value.Some? {
        return Err(CustodyRefused(IdentityDrift));
      }
      var synced := dir.Sync();
      if synced.Err? {
        return Err(CustodyRefused(synced.error));
      }
    }
  }

  lemma AppendStates(fs: Fs, j: Ino, bytes: Bytes, n: nat)
    requires j in fs.inodes && n <= |bytes|
    ensures AppendState(fs, j, bytes, fs) && AppendState(fs, j, bytes, Append(fs, j, bytes[..n]))
    ensures AppendState(fs, j, bytes, Append(fs, j, bytes))
    ensures AppendState(fs, j, bytes, SyncFile(Append(fs, j, bytes), j))
  {
    assert bytes[..|bytes|] == bytes;
  }

  /** The journal's directory while its last name goes: the file is untouched. */
  ghost predicate Finishing(first: Fs, st: Fs, name: PendingName, j: Ino) {
    Safe(st, name, j) && st.inodes == first.inodes && forall s :: s in st.survivors ==> name.claim !in s
  }

  /** Removing the last name leaves at most the complete journal, and after the sync nothing. */
  lemma FinishStates(fs: Fs, name: PendingName, j: Ino, totalLen: nat, nextSequence: nat, lastTag: nat)
    requires Live(fs, name, j, totalLen, nextSequence, lastTag)
    ensures var unlinked := Unlink(fs, name.pending);
      && CrashSafe(unlinked, name) && CrashSafe(SyncDir(unlinked), name)
      && NamesOf(unlinked.entries, j) == {} && DurablyAbsent(SyncDir(unlinked), name)
      && StatEntry(fs, name.claim) == None && StatEntry(unlinked, name.claim) == None
      && StatEntry(unlinked, name.pending) == None && unlinked.inodes == fs.inodes
      && Finishing(fs, fs, name, j) && Finishing(fs, unlinked, name, j) && Finishing(fs, SyncDir(unlinked), name, j)
  {
    hide Decode, Holds, CrashSafe, Legible;
    var unlinked := Unlink(fs, name.pending);
    assert fs.entries in fs.survivors;
    UnlinkSafe(fs, name, j, name.pending);
    SafeIsCrashSafe(unlinked, name, j);
    SyncDirSafe(unlinked, name, j);
    SafeIsCrashSafe(SyncDir(unlinked), name, j);
    assert Owned(unlinked.entries, name, j);
  }

  lemma FinishingAllSafe(first: Fs, trace: seq<Fs>, from: nat, name: PendingName, j: Ino)
    requires forall i :: from <= i < |trace| ==> Finishing(first, trace[i], name, j)
    ensures AllSafe(trace, from, name)
  {
    hide CrashSafe, Safe;
    forall i | from <= i < |trace| ensures CrashSafe(trace[i], name) { SafeIsCrashSafe(trace[i], name, j); }
  }

  lemma LiveFacts(fs: Fs, name: PendingName, j: Ino, totalLen: nat, nextSequence: nat, lastTag: nat)
    requires Live(fs, name, j, totalLen, nextSequence, lastTag)
    ensures j in fs.inodes && CrashSafe(fs, name)
  {
    hide Decode, Holds, CrashSafe;
    SafeIsCrashSafe(fs, name, j);
  }

  // ----- what an append does to the file

  /** Every prefix of the legal next record leaves the frame whole. */
  lemma AppendReplays(content: Bytes, nextSequence: nat, lastTag: nat, record: PhaseRecord, n: nat)
    requires Holds(content, nextSequence, lastTag) && LawfulRecord(record, nextSequence, lastTag, |content|)
    requires n <= Size(record)
    ensures record.sequence < PHASE_COUNT && |record.payload| <= CEILING
    ensures Replays(content + OneRecord(record)[..n])
    ensures n == Size(record) ==> Holds(content + OneRecord(record)[..n], nextSequence + 1, record.phaseTag)
  {
    hide Decode, OneRecord, LawfulRecord;
    AppendTorn(content, Decode(content).value, record, n);
  }

  lemma AppendLive(fs: Fs, name: PendingName, j: Ino, nextSequence: nat, lastTag: nat, record: PhaseRecord, n: nat)
    requires j in fs.inodes && Live(fs, name, j, |fs.inodes[j].data|, nextSequence, lastTag)
    requires LawfulRecord(record, nextSequence, lastTag, |fs.inodes[j].data|) && n <= Size(record)
    ensures record.sequence < PHASE_COUNT && |record.payload| <= CEILING
    ensures var after := Append(fs, j, OneRecord(record)[..n]);
      && Live(after, name, j, |fs.inodes[j].data|, nextSequence, lastTag) && CrashSafe(after, name)
      && forall content :: Durable(fs, j, content) && content <= fs.inodes[j].data ==> Durable(after, j, content)
  {
    hide Decode, OneRecord, LawfulRecord, CrashSafe, Holds, Replays, Owned;
    var content := fs.inodes[j].data;
    assert content[..|content|] == content;
    AppendReplays(content, nextSequence, lastTag, record, n);
    var bytes := OneRecord(record)[..n];
    var after := Append(fs, j, bytes);
    forall d | d in after.inodes[j].disk
      ensures d in fs.inodes[j].disk || (Replays(d) && content <= d)
    {
      AppendOutcomes(fs, j, bytes, d);
      if d !in fs.inodes[j].disk {
        var k :| 0 <= k <= |bytes| && d == content + bytes[..k];
        assert bytes[..k] == OneRecord(record)[..k];
        AppendReplays(content, nextSequence, lastTag, record, k);
      }
    }
    AppendOutcomes(fs, j, bytes, after.inodes[j].data);
    WriteSafe(fs, name, j, after);
    SafeIsCrashSafe(after, name, j);
    assert after.inodes[j].data[..|content|] == content;
  }

  /** Every state of an append retains what was retained before it. */
  lemma AppendRetains(fs: Fs, name: PendingName, j: Ino, nextSequence: nat, lastTag: nat, record: PhaseRecord, st: Fs)
    requires j in fs.inodes && Live(fs, name, j, |fs.inodes[j].data|, nextSequence, lastTag)
    requires LawfulRecord(record, nextSequence, lastTag, |fs.inodes[j].data|)
    requires record.sequence < PHASE_COUNT && |record.payload| <= CEILING && AppendState(fs, j, OneRecord(record), st)
    ensures RetainsAll(fs, st, name, j, fs.inodes[j].data)
  {
    hide Decode, CrashSafe, Safe, Holds, OneRecord, LawfulRecord, Durable;
    var bytes := OneRecord(record);
    if st == SyncFile(Append(fs, j, bytes), j) {
      assert bytes[..|bytes|] == bytes;
      AppendLive(fs, name, j, nextSequence, lastTag, record, |bytes|);
      var full := Append(fs, j, bytes);
      SyncLive(full, name, j, |fs.inodes[j].data|, nextSequence, lastTag);
      assert fs.inodes[j].data <= full.inodes[j].data;
    } else if st != fs {
      var n :| 0 <= n <= |bytes| && st == Append(fs, j, bytes[..n]);
      AppendLive(fs, name, j, nextSequence, lastTag, record, n);
    }
  }

  lemma SyncLive(fs: Fs, name: PendingName, j: Ino, totalLen: nat, nextSequence: nat, lastTag: nat)
    requires Live(fs, name, j, totalLen, nextSequence, lastTag)
    ensures Live(SyncFile(fs, j), name, j, totalLen, nextSequence, lastTag) && CrashSafe(SyncFile(fs, j), name)
    ensures forall content :: content <= fs.inodes[j].data ==> Durable(SyncFile(fs, j), j, content)
  {
    hide Decode, Holds, CrashSafe;
    SyncFileSafe(fs, name, j);
    SafeIsCrashSafe(SyncFile(fs, j), name, j);
  }

  /** The encoder's own checks make the record the legal next one. */
  lemma EncodedIsLegal(content: Bytes, nextSequence: nat, lastTag: nat, phaseTag: Byte, payload: Bytes)
    requires EncodeRecord(nextSequence, phaseTag, payload).Ok? && phaseTag > lastTag
    requires |content| + |EncodeRecord(nextSequence, phaseTag, payload).value| <= CEILING
    ensures LawfulRecord(PhaseRecord(nextSequence, phaseTag, payload), nextSequence, lastTag, |content|)
    ensures |payload| <= CEILING && nextSequence < PHASE_COUNT
    ensures EncodeRecord(nextSequence, phaseTag, payload).value ==
            OneRecord(PhaseRecord(nextSequence, phaseTag, payload))
  {
  }

  lemma CommittedIsLive(fs: Fs, name: PendingName, j: Ino, bytes: Bytes)
    requires Committed(fs, name, j) && fs.inodes[j].data == bytes && fs.inodes[j].disk == {bytes}
    requires PreparedOnly(bytes)
    ensures Live(fs, name, j, |bytes|, 1, 1) && Durable(fs, j, bytes)
  {
    hide Decode, Coherent, Owned, Legible;
    assert bytes[..|bytes|] == bytes;
    PreparedTag(bytes);
  }

  /** The first record's phase is always Prepared. */
  lemma PreparedTag(bytes: Bytes)
    requires PreparedOnly(bytes)
    ensures Decode(bytes).value.records[0].phaseTag == 1
  {
    hide Decode, FrameBytes;
    EncodeDecoded(bytes);
  }

  /** A finish whose last sync was refused leaves a directory that reads Absent and over which the
      next claim can crash into a corrupt pair, unless the directory is synced first. */
  lemma RefusedFinishResurrects(fs: Fs, name: PendingName, j: Ino, totalLen: nat, nextSequence: nat, lastTag: nat,
                                ino: Ino, bytes: Bytes)
    requires Live(fs, name, j, totalLen, nextSequence, lastTag) && name.pending in fs.entries && ino !in fs.inodes
    ensures var st := Unlink(fs, name.pending);
      && Admit(st, name) == Some(Absent) && !DurablyAbsent(st, name) && DurablyAbsent(SyncDir(st), name)
      && exists i :: 0 <= i < 7 && CorruptCrash(ClaimStates(st, name, ino, bytes)[i], name)
  {
    hide Decode, CorruptCrash, ClaimStates;
    var st := Unlink(fs, name.pending);
    assert fs.entries in fs.survivors && st.entries in st.survivors;
    assert fs.entries in st.survivors;
    SyncCommitsAbsence(st, name);
    ClaimNotSafe(st, name, ino, bytes);
  }

  /** Claim a new pending journal; a refusal says which side of the first link it fell on. Success
      does not depend on what the directory could still lose; the safety of a crash on the way does. */
  method Claim(dir: AdmittedDir, name: PendingName, header: BuiltHeader, parent: FsIdentity, payload: Bytes, ino: Ino)
    returns (r: Result<LiveJournal, ClaimRefusal>)
    requires Coherent(dir.fs) && name.claim != name.pending && ino !in dir.fs.inodes
    modifies dir
    ensures old(dir.trace) <= dir.trace && dir.Traced()
    ensures old(Visible(dir.fs, name)) ==> r.Err? && dir.fs == old(dir.fs)
    ensures old(DurablyAbsent(dir.fs, name)) ==> AllSafe(dir.trace, |old(dir.trace)|, name)
    ensures r.Err? && r.error.BeforeLink? && !old(Visible(dir.fs, name)) ==> name.pending !in dir.fs.entries
    ensures r.Err? && r.error.BeforeLink? && old(DurablyAbsent(dir.fs, name)) ==>
              forall s :: s in dir.fs.survivors ==> name.pending !in s
    ensures r.Ok? || r.error.PossiblyDurable? ==>
      var bytes := ClaimBytes(header.Compose(parent, FsIdentity(parent.dev, ino)), payload);
      && bytes.Ok? && Cached(dir.fs, name, ino) && (old(DurablyAbsent(dir.fs, name)) ==> Safe(dir.fs, name, ino))
      && dir.fs.inodes[ino].data == bytes.value && dir.fs.inodes[ino].disk == {bytes.value}
    ensures r.Ok? ==>
      var bytes := ClaimBytes(header.Compose(parent, FsIdentity(parent.dev, ino)), payload);
      && bytes.Ok? && fresh(r.value) && r.value.dir == dir && r.value.name == name && r.value.file == ino
      && r.value.Valid() && r.value.Content() == bytes.value
      && r.value.totalLen == |bytes.value| && r.value.nextSequence == 1 && r.value.lastTag == 1
      && Committed(dir.fs, name, ino) && Checked(dir.fs, name.pending, ino, 1, r.value.totalLen)
      && dir.fs.inodes[ino].data == bytes.value && dir.fs.inodes[ino].disk == {bytes.value}
    ensures r.Ok? ==> dir.Recorded() && |old(dir.trace)| < |dir.trace|
    ensures (old(dir.Quiet()) && !old(Visible(dir.fs, name))
             && ClaimBytes(header.Compose(parent, FsIdentity(parent.dev, ino)), payload).Ok?) ==> r.Ok? && dir.Quiet()
    ensures old(dir.Quiet()) && old(Visible(dir.fs, name)) ==> r == Err(BeforeLink(CustodyRefused(AlreadyExists)))
    ensures (old(dir.Quiet()) && !old(Visible(dir.fs, name))
             && ClaimBytes(header.Compose(parent, FsIdentity(parent.dev, ino)), payload).Err?) ==>
            r == Err(BeforeLink(ClaimBytes(header.Compose(parent, FsIdentity(parent.dev, ino)), payload).error))
  {
    hide CrashSafe, Decode, Safe, Preparing, ClaimBytes, BuiltHeader.Compose, PreparedOnly, Live, Cached, DurablyAbsent,
         Coherent, Checked;
    ghost var absent := DurablyAbsent(dir.fs, name);
    var prepared := ClaimPreflight(dir, name, header, parent, payload, ino);
    if prepared.Err? {
      return Err(BeforeLink(prepared.error));
    }
    ghost var bytes := prepared.value;
    ClaimBytesPrepared(header.Compose(parent, FsIdentity(parent.dev, ino)), payload);
    ghost var from := |dir.trace|;
    ghost var linking := dir.fs;
    var committed := ClaimCommit(dir, name, ino, |prepared.value|, bytes, absent);
    if absent { CommittingAllSafe(linking, dir.trace, from, name, ino); }
    if committed.Err? {
      return Err(PossiblyDurable(committed.error));
    }
    CommittedIsLive(dir.fs, name, ino, bytes);
    var live := new LiveJournal(dir, name, ino, |prepared.value|, 1, 1);
    assert bytes[..|bytes|] == bytes;
    r := Ok(live);
  }

  // ----- recovery

  /** Both names of a claimed journal are its one inode, which holds its Prepared record. */
  ghost predicate ClaimedPair(fs: Fs, name: PendingName, j: Ino) {
    && Safe(fs, name, j) && name.claim in fs.entries && name.pending in fs.entries
    && j in fs.inodes && Decode(fs.inodes[j].data).Ok? && PreparedOnly(fs.inodes[j].data)
  }

  /** Every content a crash may leave of `j` is exactly a Prepared record: the file was synced
      before it was linked. */
  ghost predicate Prepared(fs: Fs, j: Ino) {
    j in fs.inodes && forall d :: d in fs.inodes[j].disk ==> PreparedOnly(d)
  }

  /** A state of an adoption: nothing done yet, or the journal's directory with the pending name
      lost under no crash. The file is untouched. */
  ghost predicate Adopting(first: Fs, st: Fs, name: PendingName, j: Ino) {
    st.inodes == first.inodes && (st == first || (Safe(st, name, j) && KeepsPending(st, name)))
  }

  /** What a directory that reads as Claimed holds, whatever it could still lose. */
  lemma ClaimedMeans(fs: Fs, name: PendingName, j: Ino, frame: DecodedFrame)
    requires Coherent(fs) && name.claim != name.pending && Admit(fs, name) == Some(Claimed(j, frame))
    ensures Cached(fs, name, j) && name.claim in fs.entries && name.pending in fs.entries
    ensures Decode(fs.inodes[j].data) == Ok(frame) && PreparedOnly(fs.inodes[j].data)
    ensures TailBytes(frame.tail) == []
  {
    hide DecodePrefix, DecodeRecords;
    TwoNames(fs.entries, name, j);
  }

  lemma TwoNames(entries: Entries, name: PendingName, j: Ino)
    requires name.claim != name.pending && name.claim in entries && name.pending in entries
    requires entries[name.claim] == j && entries[name.pending] == j
    ensures |NamesOf(entries, j)| == 2 ==> Owned(entries, name, j)
  {
    var names, pair := NamesOf(entries, j), {name.claim, name.pending};
    assert pair <= names;
    if |names| == 2 {
      SubsetOfSize(pair, names);
      assert forall n :: n in entries && entries[n] == j ==> n in names;
    }
  }

  lemma SubsetOfSize(a: set<Name>, b: set<Name>)
    requires a <= b && |a| == |b|
    ensures a == b
  {
    assert |b - a| == |b| - |a|;
    assert b == a + (b - a);
  }

  /** What an adoption rechecks holds, and where it ends, over any directory that reads Claimed. */
  lemma AdoptChecks(fs: Fs, name: PendingName, j: Ino)
    requires Cached(fs, name, j) && name.claim in fs.entries && name.pending in fs.entries
    ensures var claimed := SyncDir(fs);
      var done := SyncDir(Unlink(claimed, name.claim));
      var len := |fs.inodes[j].data|;
      && Checked(claimed, name.pending, j, 2, len) && Checked(claimed, name.claim, j, 2, len)
      && Checked(done, name.pending, j, 1, len) && name.claim !in done.entries && done.survivors == {done.entries}
      && name.claim in claimed.entries
      && claimed.inodes == Unlink(claimed, name.claim).inodes == done.inodes == fs.inodes
  {
    var claimed := SyncDir(fs);
    var done := SyncDir(Unlink(claimed, name.claim));
    assert Owned(claimed.entries, name, j) && Owned(done.entries, name, j);
    NamesOfOwned(claimed.entries, name, j);
    NamesOfOwned(done.entries, name, j);
  }

  /** From its first sync on, every state an adoption passes through is the journal's and is crash
      safe, whatever the directory could lose before. */
  lemma AdoptStates(fs: Fs, name: PendingName, j: Ino)
    requires Cached(fs, name, j) && name.claim in fs.entries && name.pending in fs.entries && Prepared(fs, j)
    ensures var claimed := SyncDir(fs);
      var unlinked := Unlink(claimed, name.claim);
      && CrashSafe(claimed, name) && CrashSafe(unlinked, name) && CrashSafe(SyncDir(unlinked), name)
      && Adopting(fs, claimed, name, j) && Adopting(fs, unlinked, name, j)
      && Adopting(fs, SyncDir(unlinked), name, j) && Committed(SyncDir(unlinked), name, j)
  {
    hide Decode, CrashSafe, Legible, Admit, PreparedOnly;
    var claimed := SyncDir(fs);
    var unlinked := Unlink(claimed, name.claim);
    SyncedIsSafe(fs, name, j);
    UnlinkSafe(claimed, name, j, name.claim);
    SyncDirSafe(unlinked, name, j);
    SafeIsCrashSafe(claimed, name, j);
    SafeIsCrashSafe(unlinked, name, j);
    SafeIsCrashSafe(SyncDir(unlinked), name, j);
  }

  /** Re-establish the durable claim: sync the directory, then see both names on the one file. */
  method SyncClaimed(dir: AdmittedDir, name: PendingName, file: Ino, total: nat) returns (r: Result<(), JournalError>)
    requires file in dir.fs.inodes
    modifies dir
    ensures dir.trace == old(dir.trace) + [dir.fs] && (dir.fs == old(dir.fs) || dir.fs == SyncDir(old(dir.fs)))
    ensures r.Ok? ==>
      && dir.fs == SyncDir(old(dir.fs))
      && Checked(dir.fs, name.pending, file, 2, total) && Checked(dir.fs, name.claim, file, 2, total)
    ensures (old(dir.Quiet()) && Checked(SyncDir(old(dir.fs)), name.pending, file, 2, total)
             && Checked(SyncDir(old(dir.fs)), name.claim, file, 2, total)) ==> r.Ok? && dir.Quiet()
  {
    hide Checked, Disproves;
    var durable := dir.Sync();
    if durable.Err? {
      return Err(CustodyRefused(durable.error));
    }
    r := Recheck(dir, name.pending, file, 2, total);
    if r.Err? {
      return;
    }
    r := Recheck(dir, name.claim, file, 2, total);
  }

  /**
   Complete an interrupted claim: re-establish its durable sync, drop the claim name. It applies
   to any directory that reads as Claimed, and its first sync settles whatever was unsynced.
   */
  method Adopt(dir: AdmittedDir, name: PendingName, file: Ino, frame: DecodedFrame)
    returns (r: Result<LiveJournal, JournalError>)
    requires Coherent(dir.fs) && name.claim != name.pending && Admit(dir.fs, name) == Some(Claimed(file, frame))
    modifies dir
    ensures old(dir.trace) <= dir.trace && dir.Traced() && dir.fs.inodes == old(dir.fs.inodes)
    ensures Prepared(old(dir.fs), file) ==> Adopting(old(dir.fs), dir.fs, name, file)
    ensures Prepared(old(dir.fs), file) ==>
      forall i :: |old(dir.trace)| <= i < |dir.trace| ==> Adopting(old(dir.fs), dir.trace[i], name, file)
    ensures Prepared(old(dir.fs), file) && old(CrashSafe(dir.fs, name)) ==> AllSafe(dir.trace, |old(dir.trace)|, name)
    ensures r.Ok? ==>
      && fresh(r.value) && r.value.dir == dir && r.value.name == name && r.value.file == file
      && r.value.totalLen == FrameTotalLen(frame) && r.value.nextSequence == 1 && r.value.lastTag == 1
      && Checked(dir.fs, name.pending, file, 1, r.value.totalLen)
      && name.claim !in dir.fs.entries && dir.fs.survivors == {dir.fs.entries}
    ensures r.Ok? && Prepared(old(dir.fs), file) ==>
      && Committed(dir.fs, name, file) && r.value.Valid() && r.value.Content() == dir.fs.inodes[file].data
      && (SyncedFile(old(dir.fs), file) ==> Retains(dir.fs, name, file, r.value.Content()))
    ensures old(dir.Quiet()) ==> r.Ok? && dir.Quiet()
  {
    hide Disproves, CrashSafe, Decode, Safe, PreparedOnly, Live, Adopting, Admit, Cached, Retains, Prepared, SyncDir,
         Unlink,
         NamesOf;
    ghost var first := dir.fs;
    ClaimedMeans(first, name, file, frame);
    assert file in first.inodes by { CachedInode(first, name, file); }
    ghost var bytes := first.inodes[file].data;
    TotalLenIsLessTail(bytes);
    AdoptChecks(first, name, file);
    NothingDone(first, name, file);
    if Prepared(first, file) { AdoptStates(first, name, file); }
    var total := FrameTotalLen(frame);
    var claimed := SyncClaimed(dir, name, file, total);
    if claimed.Err? {
      return Err(claimed.error);
    }
    var unlinked := dir.UnlinkEntry(name.claim);
    if unlinked.Err? {
      return Err(CustodyRefused(unlinked.error));
    }
    var synced := dir.Sync();
    if synced.Err? {
      return Err(CustodyRefused(synced.error));
    }
    var checked := Recheck(dir, name.pending, file, 1, total);
    if checked.Err? {
      return Err(checked.error);
    }
    var live := new LiveJournal(dir, name, file, total, 1, 1);
    assert bytes[..|bytes|] == bytes;
    if Prepared(first, file) {
      AdoptedIsLive(dir.fs, name, file);
      CommittedRetains(dir.fs, name, file);
    }
    r := Ok(live);
  }

  lemma CachedInode(fs: Fs, name: PendingName, j: Ino)
    requires Cached(fs, name, j)
    ensures j in fs.inodes
  {
  }

  lemma NothingDone(fs: Fs, name: PendingName, j: Ino)
    ensures Adopting(fs, fs, name, j)
  {
  }

  lemma CommittedRetains(fs: Fs, name: PendingName, j: Ino)
    requires Committed(fs, name, j)
    ensures SyncedFile(fs, j) ==> Retains(fs, name, j, fs.inodes[j].data)
  {
    hide Decode, Safe;
  }

  lemma AdoptedIsLive(fs: Fs, name: PendingName, j: Ino)
    requires j in fs.inodes && Committed(fs, name, j) && PreparedOnly(fs.inodes[j].data)
    ensures Live(fs, name, j, |fs.inodes[j].data|, 1, 1)
  {
    hide Decode, Safe;
    var bytes := fs.inodes[j].data;
    assert bytes[..|bytes|] == bytes;
    PreparedTag(bytes);
  }

  /** A pending journal whose first complete bytes replay to `frame`. */
  ghost predicate Replayed(fs: Fs, name: PendingName, j: Ino, frame: DecodedFrame) {
    && Safe(fs, name, j) && (forall s :: s in fs.survivors ==> name.claim !in s)
    && j in fs.inodes && FrameTotalLen(frame) <= |fs.inodes[j].data| && frame.records != []
    && Decode(fs.inodes[j].data[..FrameTotalLen(frame)]) == Ok(frame.(tail := Clean))
  }

  class PendingJournal {
    const dir: AdmittedDir
    const name: PendingName
    const file: Ino
    var frame: DecodedFrame

    ghost predicate Valid()
      reads this, dir
    {
      Replayed(dir.fs, name, file, frame)
    }

    constructor (dir: AdmittedDir, name: PendingName, file: Ino, frame: DecodedFrame)
      ensures this.dir == dir && this.name == name && this.file == file && this.frame == frame
    {
      this.dir, this.name, this.file, this.frame := dir, name, file, frame;
    }

    /** Drop an incomplete tail that is a proper prefix of the one legal next record. */
    method TruncateTail(expected: Bytes) returns (r: Result<(), JournalError>)
      requires Valid()
      modifies this, dir
      ensures Valid() && old(dir.trace) <= dir.trace && AllSafe(dir.trace, |old(dir.trace)|, name)
      ensures dir.fs.entries == old(dir.fs.entries) && dir.fs.survivors == old(dir.fs.survivors)
      ensures old(frame).tail.Clean? ==> r == Err(NoIncompleteTail) && dir.fs == old(dir.fs)
      ensures TruncateState(old(dir.fs), file, FrameTotalLen(old(frame)), dir.fs)
      ensures forall i :: |old(dir.trace)| <= i < |dir.trace| ==>
                TruncateState(old(dir.fs), file, FrameTotalLen(old(frame)), dir.trace[i])
      ensures r.Err? && r.error.ExpectedRecordIllegal? ==>
        && Decode(old(dir.fs.inodes)[file].data[..FrameTotalLen(old(frame))] + expected) == Err(r.error.corruption)
        && dir.fs == old(dir.fs)
      ensures r.Err? && r.error.TailNotPrefix? ==>
        && (!NextOf(old(dir.fs.inodes)[file].data[..FrameTotalLen(old(frame))] + expected, old(frame))
            || !(TailBytes(old(frame).tail) < expected))
        && dir.fs == old(dir.fs)
      ensures r.Ok? ==>
        && TailBytes(old(frame).tail) < expected
        && NextOf(old(dir.fs.inodes)[file].data[..FrameTotalLen(old(frame))] + expected, old(frame))
        && frame == old(frame).(tail := Clean)
        && dir.fs.inodes[file].data == old(dir.fs.inodes)[file].data[..FrameTotalLen(frame)]
        && dir.fs.inodes[file].disk == {dir.fs.inodes[file].data}
      ensures r.Err? ==> frame == old(frame)
      ensures dir.fs.inodes[file].disk <=
              old(dir.fs.inodes)[file].disk + {old(dir.fs.inodes)[file].data[..FrameTotalLen(old(frame))]}
           && (dir.fs.inodes[file].data == old(dir.fs.inodes)[file].data
               || dir.fs.inodes[file].data == old(dir.fs.inodes)[file].data[..FrameTotalLen(old(frame))])
      ensures (old(dir.Quiet()) && old(frame).tail.IncompletePrefix? && old(frame).tail.bytes < expected
               && old(Checked(dir.fs, name.pending, file, 1, FrameTotalLen(frame) + |TailBytes(frame.tail)|))
               && NextOf(old(dir.fs.inodes)[file].data[..FrameTotalLen(old(frame))] + expected, old(frame))) ==>
              r.Ok? && dir.Quiet()
    {
      hide Disproves, Decode, CrashSafe, Safe, FrameTotalLen, NextOf;
      if frame.tail.Clean? {
        return Err(NoIncompleteTail);
      }
      var tail := frame.tail.bytes;
      var validLen := FrameTotalLen(frame);
      ReplayedFacts(dir.fs, name, file, frame);
      var valid := dir.ReadPrefix(file, validLen);
      if valid.Err? {
        return Err(CustodyRefused(valid.error));
      }
      ghost var content := dir.fs.inodes[file].data[..validLen];
      assert valid.value == content;
      var candidate := DecodeFrame(valid.value + expected);
      if candidate.Err? {
        assert !NextOf(content + expected, frame) by {
          NextOfDecodes(content + expected, frame);
        }
        return Err(ExpectedRecordIllegal(candidate.error));
      }
      if !(|candidate.value.records| == |frame.records| + 1 && candidate.value.tail.Clean?) {
        assert !NextOf(content + expected, frame) by {
          NextOfDecodes(content + expected, frame);
        }
        return Err(TailNotPrefix);
      }
      NextOfDecodes(content + expected, frame);
      if |tail| >= |expected| || expected[..|tail|] != tail {
        return Err(TailNotPrefix);
      }
      r := Recheck(dir, name.pending, file, 1, validLen + |tail|);
      if r.Err? {
        return;
      }
      ghost var before := dir.fs;
      TruncateStates(before, name, file, frame);
      var cut := dir.TruncateFile(file, validLen);
      if cut.Err? {
        return Err(CustodyRefused(cut.error));
      }
      var synced := dir.SyncOpen(file);
      if synced.Err? {
        return Err(CustodyRefused(synced.error));
      }
      var reread := dir.ReadPrefix(file, CEILING + 1);
      if reread.Err? {
        return Err(CustodyRefused(reread.error));
      }
      if reread.value != valid.value {
        return Err(CorruptJournal(RereadMismatch));
      }
      r := Recheck(dir, name.pending, file, 1, validLen);
      if r.Err? {
        return;
      }
      var clean := DecodeFrame(valid.value);
      if clean.Err? {
        assert false;
      }
      frame := clean.value;
    }

    /** Resume appending; the tail must be clean. */
    method Resume() returns (r: Result<LiveJournal, JournalError>)
      requires Valid()
      modifies dir`clock
      ensures frame.tail.IncompletePrefix? ==> r == Err(IncompleteTail)
      ensures r.Ok? ==>
        && fresh(r.value) && r.value.dir == dir && r.value.name == name && r.value.file == file
        && r.value.Valid() && r.value.Content() == dir.fs.inodes[file].data
        && r.value.totalLen == FrameTotalLen(frame) && r.value.nextSequence == |frame.records|
        && r.value.lastTag == frame.records[|frame.records| - 1].phaseTag
        && Checked(dir.fs, name.pending, file, 1, r.value.totalLen)
        && (SyncedFile(dir.fs, file) ==> Durable(dir.fs, file, r.value.Content()))
      ensures (old(dir.Quiet()) && frame.tail.Clean?
               && Checked(dir.fs, name.pending, file, 1, FrameTotalLen(frame))) ==>
              r.Ok? && dir.Quiet()
    {
      hide Disproves, Decode, Safe, FrameTotalLen;
      if !frame.tail.Clean? {
        return Err(IncompleteTail);
      }
      var total := FrameTotalLen(frame);
      var checked := Recheck(dir, name.pending, file, 1, total);
      if checked.Err? {
        return Err(checked.error);
      }
      ghost var data := dir.fs.inodes[file].data;
      assert data[..total] == data;
      var last := frame.records[|frame.records| - 1];
      var live := new LiveJournal(dir, name, file, total, |frame.records|, last.phaseTag);
      r := Ok(live);
    }
  }

  /** The states a truncation goes through. */
  ghost predicate TruncateState(fs: Fs, j: Ino, len: nat, st: Fs) {
    && j in fs.inodes && len <= |fs.inodes[j].data|
    && (st == fs || st == Truncate(fs, j, len) || st == SyncFile(Truncate(fs, j, len), j))
  }

  /** The states an append goes through. */
  ghost predicate AppendState(fs: Fs, j: Ino, bytes: Bytes, st: Fs) {
    && j in fs.inodes
    && (|| st == fs
        || (exists n :: 0 <= n <= |bytes| && st == Append(fs, j, bytes[..n]))
        || st == SyncFile(Append(fs, j, bytes), j))
  }

  /** `bytes` decodes to one more record than `frame`, cleanly. */
  ghost predicate NextOf(bytes: Bytes, frame: DecodedFrame) {
    Decode(bytes).Ok? && |Decode(bytes).value.records| == |frame.records| + 1 && Decode(bytes).value.tail.Clean?
  }

  lemma NextOfDecodes(bytes: Bytes, frame: DecodedFrame)
    ensures NextOf(bytes, frame) <==>
            Decode(bytes).Ok? && |Decode(bytes).value.records| == |frame.records| + 1 && Decode(bytes).value.tail.Clean?
  {
  }

  lemma ReplayedFacts(fs: Fs, name: PendingName, j: Ino, frame: DecodedFrame)
    requires Replayed(fs, name, j, frame)
    ensures CrashSafe(fs, name) && FrameTotalLen(frame) <= CEILING
    ensures FrameTotalLen(frame.(tail := Clean)) == FrameTotalLen(frame)
  {
    hide CrashSafe, DecodePrefix, DecodeRecords, Safe;
    SafeIsCrashSafe(fs, name, j);
  }

  lemma TruncateStates(fs: Fs, name: PendingName, j: Ino, frame: DecodedFrame)
    requires Replayed(fs, name, j, frame)
    ensures var cut := Truncate(fs, j, FrameTotalLen(frame));
      && Replayed(cut, name, j, frame) && CrashSafe(cut, name)
      && Replayed(SyncFile(cut, j), name, j, frame) && CrashSafe(SyncFile(cut, j), name)
      && SyncFile(cut, j).inodes[j].disk == {fs.inodes[j].data[..FrameTotalLen(frame)]}
  {
    hide CrashSafe, Decode, FrameTotalLen, Owned, Coherent;
    var len := FrameTotalLen(frame);
    var content := fs.inodes[j].data[..len];
    var cut := Truncate(fs, j, len);
    assert content[..len] == content;
    assert Replays(content);
    assert forall s :: s in fs.survivors ==> Legible(s, name, content);
    WriteSafe(fs, name, j, cut);
    SyncFileSafe(cut, name, j);
    SafeIsCrashSafe(cut, name, j);
    SafeIsCrashSafe(SyncFile(cut, j), name, j);
  }
}
