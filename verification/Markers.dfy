/**
 Reading the marker pair back: the shape of the two names, the state it admits, and the
 invariant that keeps every crash admissible.
 */
module Markers {
  import opened Wrappers
  import opened Frame
  import opened Custody

  /** The two fixed names of one pending journal. */
  datatype PendingName = PendingName(claim: Name, pending: Name)

  datatype CorruptionReason =
    | FrameCorrupt(corruption: FrameCorruption)
    | MissingPrepared
    | ClaimBeyondPrepared
    | WrongNodeKind(kind: NodeKind)
    | WrongMode(mode: nat)
    | ExtraLinks(links: nat)
    | UnexpectedLength(expected: nat, found: nat)
    | SplitInodes
    | RereadMismatch

  datatype PendingState =
    | Absent
    | Preclaim
    | Claimed(file: Ino, frame: DecodedFrame)
    | Pending(file: Ino, frame: DecodedFrame)
    | Corrupt(reason: CorruptionReason)

  datatype MarkerStats = MarkerStats(claim: Option<EntryStat>, pending: Option<EntryStat>)

  datatype MarkerShape =
    | NoMarker
    | OnlyClaim(claim: EntryStat)
    | BothNames(claim: EntryStat, pending: EntryStat)
    | OnlyPending(pending: EntryStat)

  function ReadStats(fs: Fs, name: PendingName): MarkerStats {
    MarkerStats(StatEntry(fs, name.claim), StatEntry(fs, name.pending))
  }

  function Classify(stats: MarkerStats): MarkerShape {
    match (stats.claim, stats.pending)
    case (None, None) => NoMarker
    case (Some(claim), None) => OnlyClaim(claim)
    case (Some(claim), Some(pending)) => BothNames(claim, pending)
    case (None, Some(pending)) => OnlyPending(pending)
  }

  function Prefix(bytes: Bytes, max: nat): Bytes {
    if |bytes| <= max then bytes else bytes[..max]
  }

  /** The bounded replay of a file. */
  function Replay(fs: Fs, ino: Ino): Result<DecodedFrame, FrameCorruption>
    requires ino in fs.inodes
  {
    Decode(Prefix(fs.inodes[ino].data, CEILING + 1))
  }

  /** Opening `name` must yield the inode its stat saw; `None` is identity drift. */
  function Witnessed(fs: Fs, name: Name, seen: EntryStat): Option<Ino> {
    if name in fs.entries && fs.entries[name] == seen.identity && seen.identity in fs.inodes
    then Some(seen.identity) else None
  }

  /** Turn a shape into the state that can act on it; `None` is a custody refusal. */
  function AdmitShape(fs: Fs, name: PendingName, shape: MarkerShape): Option<PendingState> {
    match shape
    case NoMarker => Some(Absent)
    case OnlyClaim(stat) =>
      if !stat.kind.Regular? then Some(Corrupt(WrongNodeKind(stat.kind)))
      else if stat.nlink != 1 then Some(Corrupt(ExtraLinks(stat.nlink)))
      else if Witnessed(fs, name.claim, stat).None? then None
      else Some(Preclaim)
    case BothNames(claim, pending) =>
      if !claim.kind.Regular? then Some(Corrupt(WrongNodeKind(claim.kind)))
      else if !pending.kind.Regular? then Some(Corrupt(WrongNodeKind(pending.kind)))
      else if claim.identity != pending.identity then Some(Corrupt(SplitInodes))
      else if claim.nlink != 2 then Some(Corrupt(ExtraLinks(claim.nlink)))
      else if claim.mode != JOURNAL_MODE then Some(Corrupt(WrongMode(claim.mode)))
      else if Witnessed(fs, name.claim, claim).None? then None
      else
        (match Replay(fs, claim.identity)
         case Err(corruption) => Some(Corrupt(FrameCorrupt(corruption)))
         case Ok(frame) =>
           if frame.records == [] then Some(Corrupt(MissingPrepared))
           else if |frame.records| > 1 || !frame.tail.Clean? then Some(Corrupt(ClaimBeyondPrepared))
           else Some(Claimed(claim.identity, frame)))
    case OnlyPending(stat) =>
      if !stat.kind.Regular? then Some(Corrupt(WrongNodeKind(stat.kind)))
      else if stat.nlink != 1 then Some(Corrupt(ExtraLinks(stat.nlink)))
      else if stat.mode != JOURNAL_MODE then Some(Corrupt(WrongMode(stat.mode)))
      else if Witnessed(fs, name.pending, stat).None? then None
      else
        match Replay(fs, stat.identity)
        case Err(corruption) => Some(Corrupt(FrameCorrupt(corruption)))
        case Ok(frame) =>
          if frame.records == [] then Some(Corrupt(MissingPrepared)) else Some(Pending(stat.identity, frame))
  }

  /** What the marker pair reads as in a directory nobody else is changing. */
  function Admit(fs: Fs, name: PendingName): Option<PendingState> {
    AdmitShape(fs, name, Classify(ReadStats(fs, name)))
  }

  /** The bounded read loses nothing that replay could tell apart. */
  lemma ReplayIsDecode(fs: Fs, ino: Ino)
    requires ino in fs.inodes
    ensures Replay(fs, ino) == Decode(fs.inodes[ino].data)
  {
    hide DecodePrefix, DecodeRecords;
  }

  /** `n` leads to a regular file that has `links` names in all. */
  ghost predicate PlainFile(fs: Fs, n: Name, links: nat) {
    && n in fs.entries && fs.entries[n] in fs.inodes && fs.inodes[fs.entries[n]].kind == Regular
    && |set m | m in fs.entries && fs.entries[m] == fs.entries[n]| == links
  }

  /** Both names are the one two-link file `j`, of mode 0600, holding a Prepared record alone. */
  ghost predicate LawfulClaim(fs: Fs, name: PendingName, j: Ino, frame: DecodedFrame) {
    && PlainFile(fs, name.claim, 2) && fs.entries[name.claim] == j
    && name.pending in fs.entries && fs.entries[name.pending] == j
    && fs.inodes[j].mode == 0x180 && Decode(fs.inodes[j].data) == Ok(frame)
    && |frame.records| == 1 && frame.tail == Clean
  }

  /** The pending name alone is the one-link file `j`, of mode 0600, holding at least a record. */
  ghost predicate LawfulPending(fs: Fs, name: PendingName, j: Ino, frame: DecodedFrame) {
    && name.claim !in fs.entries && PlainFile(fs, name.pending, 1) && fs.entries[name.pending] == j
    && fs.inodes[j].mode == 0x180 && Decode(fs.inodes[j].data) == Ok(frame) && |frame.records| >= 1
  }

  /** What a reason for corruption says of the file under `n`, one of the two names. */
  ghost predicate ReasonHolds(fs: Fs, name: PendingName, n: Name, reason: CorruptionReason) {
    && (n == name.claim || n == name.pending) && n in fs.entries && fs.entries[n] in fs.inodes
    && var ino := fs.entries[n];
       var links := |set m | m in fs.entries && fs.entries[m] == ino|;
       match reason
       case FrameCorrupt(corruption) => Decode(fs.inodes[ino].data) == Err(corruption)
       case MissingPrepared => Decode(fs.inodes[ino].data).Ok? && Decode(fs.inodes[ino].data).value.records == []
       case ClaimBeyondPrepared =>
         && name.claim in fs.entries && name.pending in fs.entries && Decode(fs.inodes[ino].data).Ok?
         && (|Decode(fs.inodes[ino].data).value.records| > 1 || Decode(fs.inodes[ino].data).value.tail != Clean)
       case WrongNodeKind(kind) => kind == fs.inodes[ino].kind && kind != Regular
       case WrongMode(mode) => mode == fs.inodes[ino].mode && mode != 0x180
       case ExtraLinks(found) =>
         found == links && links != if name.claim in fs.entries && name.pending in fs.entries then 2 else 1
       case SplitInodes =>
         && name.claim in fs.entries && name.pending in fs.entries
         && fs.entries[name.claim] != fs.entries[name.pending]
       case UnexpectedLength(_, _) => false
       case RereadMismatch => false
  }

  /** Main result: exactly when the marker pair reads as absent, as debris, as a claim or as a
      pending journal. In every other case it reads as corrupt, for a reason that holds. */
  lemma AdmitMeans(fs: Fs, name: PendingName)
    requires Coherent(fs)
    ensures Admit(fs, name).Some?
    ensures Admit(fs, name).value == Absent <==> name.claim !in fs.entries && name.pending !in fs.entries
    ensures Admit(fs, name).value == Preclaim <==> PlainFile(fs, name.claim, 1) && name.pending !in fs.entries
    ensures forall j, frame :: Admit(fs, name).value == Claimed(j, frame) <==> LawfulClaim(fs, name, j, frame)
    ensures forall j, frame :: Admit(fs, name).value == Pending(j, frame) <==> LawfulPending(fs, name, j, frame)
    ensures Admit(fs, name).value.Corrupt? ==>
      exists n :: ReasonHolds(fs, name, n, Admit(fs, name).value.reason)
  {
    hide Decode, Replay;
    assert fs.entries in fs.survivors;
    if name.claim in fs.entries {
      StatMeans(fs, name.claim);
      ReplayIsDecode(fs, fs.entries[name.claim]);
    }
    if name.pending in fs.entries {
      StatMeans(fs, name.pending);
      ReplayIsDecode(fs, fs.entries[name.pending]);
    }
    if Admit(fs, name).value.Corrupt? {
      var reason := Admit(fs, name).value.reason;
      if name.claim !in fs.entries {
        assert ReasonHolds(fs, name, name.pending, reason);
      } else if reason.WrongNodeKind? && fs.inodes[fs.entries[name.claim]].kind == Regular {
        assert ReasonHolds(fs, name, name.pending, reason);
      } else {
        assert ReasonHolds(fs, name, name.claim, reason);
      }
    }
  }

  lemma StatMeans(fs: Fs, n: Name)
    requires n in fs.entries && fs.entries[n] in fs.inodes
    ensures var stat := StatEntry(fs, n);
      && stat.Some? && stat.value.identity == fs.entries[n] && stat.value.kind == fs.inodes[fs.entries[n]].kind
      && stat.value.mode == fs.inodes[fs.entries[n]].mode
      && stat.value.nlink == |set m | m in fs.entries && fs.entries[m] == fs.entries[n]|
      && stat.value.size == |fs.inodes[fs.entries[n]].data|
  {
    assert NamesOf(fs.entries, fs.entries[n]) == set m | m in fs.entries && fs.entries[m] == fs.entries[n];
  }

  /** Every crash leaves a state that recovery can read. */
  ghost predicate CrashSafe(fs: Fs, name: PendingName) {
    && Coherent(fs)
    && forall after :: CrashImage(fs, after) ==> Admit(after, name).Some? && !Admit(after, name).value.Corrupt?
  }

  /** Some crash leaves a marker pair that reads as corrupt. */
  ghost predicate CorruptCrash(fs: Fs, name: PendingName) {
    exists after :: CrashImage(fs, after) && Admit(after, name).Some? && Admit(after, name).value.Corrupt?
  }

  // ----- the invariant of one journal inode

  /** `bytes` replays to a frame that holds at least its Prepared record. */
  ghost predicate Replays(bytes: Bytes) {
    Decode(bytes).Ok? && Decode(bytes).value.records != []
  }

  /** `bytes` is exactly a header and its Prepared record. */
  ghost predicate PreparedOnly(bytes: Bytes) {
    Decode(bytes).Ok? && |Decode(bytes).value.records| == 1 && Decode(bytes).value.tail.Clean?
  }

  /** The marker names, where present, are `j`, and nothing else is. */
  ghost predicate Owned(entries: Entries, name: PendingName, j: Ino) {
    && (name.claim in entries ==> entries[name.claim] == j)
    && (name.pending in entries ==> entries[name.pending] == j)
    && (forall n :: n in entries && entries[n] == j ==> n == name.claim || n == name.pending)
  }

  /** A pending marker replays; a two-link one holds nothing but its Prepared record. */
  ghost predicate Legible(entries: Entries, name: PendingName, bytes: Bytes) {
    && (name.pending in entries ==> Replays(bytes))
    && (name.pending in entries && name.claim in entries ==> PreparedOnly(bytes))
  }

  ghost predicate Safe(fs: Fs, name: PendingName, j: Ino) {
    && Coherent(fs) && name.claim != name.pending
    && j in fs.inodes && fs.inodes[j].kind.Regular? && fs.inodes[j].mode == JOURNAL_MODE
    && (forall s :: s in fs.survivors ==> Owned(s, name, j))
    && (forall s, d :: s in fs.survivors && d in fs.inodes[j].disk ==> Legible(s, name, d))
  }

  /** No crash can bring a marker back. */
  ghost predicate DurablyAbsent(fs: Fs, name: PendingName) {
    forall s :: s in fs.survivors ==> name.claim !in s && name.pending !in s
  }

  lemma NamesOfOwned(entries: Entries, name: PendingName, j: Ino)
    requires Owned(entries, name, j) && name.claim != name.pending
    ensures |NamesOf(entries, j)| ==
            (if name.claim in entries then 1 else 0) + (if name.pending in entries then 1 else 0)
  {
    var names := NamesOf(entries, j);
    if name.claim in entries && name.pending in entries {
      assert names == {name.claim, name.pending};
    } else if name.claim in entries {
      assert names == {name.claim};
    } else if name.pending in entries {
      assert names == {name.pending};
    } else {
      assert names == {};
    }
  }

  lemma ReplayWhole(fs: Fs, ino: Ino)
    requires ino in fs.inodes && Decode(fs.inodes[ino].data).Ok?
    ensures Replay(fs, ino) == Decode(fs.inodes[ino].data)
  {
    hide DecodePrefix, DecodeRecords;
    assert |fs.inodes[ino].data| <= CEILING;
  }

  /** What the marker pair of a safe, settled directory reads as. */
  lemma SafeAdmits(fs: Fs, name: PendingName, j: Ino)
    requires Coherent(fs) && name.claim != name.pending
    requires j in fs.inodes && fs.inodes[j].kind.Regular? && fs.inodes[j].mode == JOURNAL_MODE
    requires Owned(fs.entries, name, j) && Legible(fs.entries, name, fs.inodes[j].data)
    ensures Admit(fs, name) == Some(
      if name.pending in fs.entries then
        (if name.claim in fs.entries then Claimed(j, Decode(fs.inodes[j].data).value)
         else Pending(j, Decode(fs.inodes[j].data).value))
      else if name.claim in fs.entries then Preclaim
      else Absent)
  {
    hide Decode, Replay;
    NamesOfOwned(fs.entries, name, j);
    if name.pending in fs.entries {
      ReplayWhole(fs, j);
    }
  }

  lemma SafeIsCrashSafe(fs: Fs, name: PendingName, j: Ino)
    requires Safe(fs, name, j)
    ensures CrashSafe(fs, name)
  {
    hide Decode, Admit;
    forall after | CrashImage(fs, after)
      ensures Admit(after, name).Some? && !Admit(after, name).value.Corrupt?
    {
      CrashCoherent(fs, after);
      assert Legible(after.entries, name, after.inodes[j].data);
      SafeAdmits(after, name, j);
    }
  }

  lemma AbsentIsCrashSafe(fs: Fs, name: PendingName)
    requires Coherent(fs) && DurablyAbsent(fs, name)
    ensures CrashSafe(fs, name)
  {
  }

  /** A crash of a safe directory is again safe, with nothing left unsynced. */
  lemma CrashKeepsSafe(fs: Fs, after: Fs, name: PendingName, j: Ino)
    requires Safe(fs, name, j) && CrashImage(fs, after)
    ensures Safe(after, name, j)
  {
    hide Decode;
    CrashCoherent(fs, after);
  }

  // ----- each mutation keeps it

  lemma CreateSafe(fs: Fs, name: PendingName, j: Ino)
    requires Coherent(fs) && DurablyAbsent(fs, name) && name.claim != name.pending && j !in fs.inodes
    ensures Safe(Create(fs, name.claim, j), name, j)
    ensures forall s :: s in Create(fs, name.claim, j).survivors ==> name.pending !in s
  {
    hide Decode;
    var after := Create(fs, name.claim, j);
    forall s | s in after.survivors
      ensures Owned(s, name, j) && name.pending !in s
    {
      if s !in fs.survivors {
        var t :| t in fs.survivors && s == t[name.claim := j];
      }
    }
  }

  lemma SyncDirSafe(fs: Fs, name: PendingName, j: Ino)
    requires Safe(fs, name, j)
    ensures Safe(SyncDir(fs), name, j)
  {
  }

  lemma SyncFileSafe(fs: Fs, name: PendingName, j: Ino)
    requires Safe(fs, name, j)
    ensures Safe(SyncFile(fs, j), name, j)
  {
    hide Decode;
  }

  lemma UnlinkSafe(fs: Fs, name: PendingName, j: Ino, gone: Name)
    requires Safe(fs, name, j)
    ensures Safe(Unlink(fs, gone), name, j)
  {
    hide Decode;
    var after := Unlink(fs, gone);
    forall s | s in after.survivors
      ensures exists t :: t in fs.survivors && (s == t || s == t - {gone})
    {
    }
    forall s | s in after.survivors
      ensures Owned(s, name, j) && forall d :: d in after.inodes[j].disk ==> Legible(s, name, d)
    {
      var t :| t in fs.survivors && (s == t || s == t - {gone});
      assert forall d :: d in fs.inodes[j].disk ==> Legible(t, name, d);
    }
  }

  lemma LinkSafe(fs: Fs, name: PendingName, j: Ino)
    requires Safe(fs, name, j) && name.claim in fs.entries
    requires forall d :: d in fs.inodes[j].disk ==> PreparedOnly(d)
    ensures Safe(Link(fs, name.claim, name.pending), name, j)
  {
    hide Decode;
    var after := Link(fs, name.claim, name.pending);
    assert fs.entries in fs.survivors;
    assert Owned(fs.entries, name, j);
    forall s | s in after.survivors
      ensures Owned(s, name, j) && (forall n :: n in s ==> s[n] in after.inodes)
    {
      if s !in fs.survivors {
        var t :| t in fs.survivors && s == t[name.pending := j];
        assert Owned(t, name, j);
      }
    }
  }

  /** Writing the file keeps every crash legible when every new content is. */
  lemma WriteSafe(fs: Fs, name: PendingName, j: Ino, after: Fs)
    requires Safe(fs, name, j)
    requires after.entries == fs.entries && after.survivors == fs.survivors && j in after.inodes
    requires after.inodes == fs.inodes[j := fs.inodes[j].(data := after.inodes[j].data, disk := after.inodes[j].disk)]
    requires after.inodes[j].data in after.inodes[j].disk
    requires forall s, d :: s in fs.survivors && d in after.inodes[j].disk ==> Legible(s, name, d)
    ensures Safe(after, name, j)
  {
    hide Decode;
  }

  /** Before any link, the content is unconstrained. */
  lemma AppendUnlinked(fs: Fs, name: PendingName, j: Ino, bytes: Bytes)
    requires Safe(fs, name, j) && forall s :: s in fs.survivors ==> name.pending !in s
    ensures Safe(Append(fs, j, bytes), name, j)
  {
    hide Decode;
    var after := Append(fs, j, bytes);
    AppendOutcomes(fs, j, bytes, after.inodes[j].data);
    WriteSafe(fs, name, j, after);
  }

  // ----- claiming over an absence that is not committed

  /** The states of an unrefused claim of inode `j` holding `bytes`. */
  ghost function ClaimStates(fs: Fs, name: PendingName, j: Ino, bytes: Bytes): (states: seq<Fs>)
    ensures |states| == 7
  {
    var created := Create(fs, name.claim, j);
    var written := Append(created, j, bytes);
    var synced := SyncFile(written, j);
    var linked := Link(synced, name.claim, name.pending);
    var claimed := SyncDir(linked);
    var unlinked := Unlink(claimed, name.claim);
    [created, written, synced, linked, claimed, unlinked, SyncDir(unlinked)]
  }

  /** A crash image always exists: what is cached per file, under any surviving entries. */
  lemma SomeImage(fs: Fs, entries: Entries) returns (after: Fs)
    requires Coherent(fs) && entries in fs.survivors
    ensures CrashImage(fs, after) && after.entries == entries
    ensures forall i :: i in fs.inodes ==> after.inodes[i].kind == fs.inodes[i].kind
  {
    after := Fs(entries, {entries}, map i | i in fs.inodes :: fs.inodes[i].(disk := {fs.inodes[i].data}));
  }

  lemma SplitIsCorrupt(fs: Fs, name: PendingName)
    requires name.claim in fs.entries && name.pending in fs.entries
    requires fs.entries[name.claim] in fs.inodes && fs.entries[name.pending] in fs.inodes
    requires fs.entries[name.claim] != fs.entries[name.pending]
    ensures Admit(fs, name).Some? && Admit(fs, name).value.Corrupt?
  {
  }

  lemma ClaimNotSafe(fs: Fs, name: PendingName, j: Ino, bytes: Bytes)
    requires Coherent(fs) && name.claim != name.pending && j !in fs.inodes
    requires name.claim !in fs.entries && name.pending !in fs.entries
    requires !DurablyAbsent(fs, name)
    ensures exists i :: 0 <= i < 7 && CorruptCrash(ClaimStates(fs, name, j, bytes)[i], name)
  {
    var states := ClaimStates(fs, name, j, bytes);
    var s :| s in fs.survivors && (name.claim in s || name.pending in s);
    if name.pending in s {
      var split := s[name.claim := j];
      var after := SomeImage(states[0], split);
      SplitIsCorrupt(after, name);
      assert CorruptCrash(states[0], name);
    } else {
      var split := s[name.pending := j];
      assert split in states[3].survivors;
      assert Coherent(states[3]) by {
        LinkedCoherent(fs, name, j, bytes);
      }
      var after := SomeImage(states[3], split);
      SplitIsCorrupt(after, name);
      assert CorruptCrash(states[3], name);
    }
  }

  lemma SafeOrCorrupt(fs: Fs, name: PendingName)
    ensures !(CrashSafe(fs, name) && CorruptCrash(fs, name))
  {
  }

  /** A directory that held a stale claim marker, removed but not yet synced. */
  ghost function StaleClaim(): Fs {
    Unlink(Fs(map["claim" := 7], {map["claim" := 7]}, map[7 := Inode(Regular, JOURNAL_MODE, [], {[]})]), "claim")
  }

  /** It reads as Absent, and a claim made over it can crash into a corrupt marker pair. */
  lemma StaleClaimResurrects(bytes: Bytes)
    ensures var fs, name := StaleClaim(), PendingName("claim", "pending");
      && Admit(fs, name) == Some(Absent)
      && exists i :: 0 <= i < 7 && CorruptCrash(ClaimStates(fs, name, 8, bytes)[i], name)
  {
    var fs, name := StaleClaim(), PendingName("claim", "pending");
    assert map["claim" := 7] in fs.survivors && "claim" in map["claim" := 7];
    assert Coherent(fs) && !DurablyAbsent(fs, name);
    ClaimNotSafe(fs, name, 8, bytes);
  }

  lemma LinkedCoherent(fs: Fs, name: PendingName, j: Ino, bytes: Bytes)
    requires Coherent(fs)
    ensures Coherent(ClaimStates(fs, name, j, bytes)[0]) && Coherent(ClaimStates(fs, name, j, bytes)[3])
  {
    var states := ClaimStates(fs, name, j, bytes);
    assert states[0].entries in states[0].survivors;
    assert states[3].entries in states[3].survivors;
  }

  lemma PreflightSafe(fs: Fs, name: PendingName, j: Ino, bytes: Bytes)
    requires Coherent(fs) && DurablyAbsent(fs, name) && name.claim != name.pending && j !in fs.inodes
    ensures var created := Create(fs, name.claim, j);
      var written := Append(created, j, bytes);
      && Safe(created, name, j) && Safe(written, name, j) && Safe(SyncFile(written, j), name, j)
      && SyncFile(written, j).inodes[j].disk == {bytes} && name.claim in written.entries
  {
    hide Decode, Legible, Owned;
    var created := Create(fs, name.claim, j);
    CreateSafe(fs, name, j);
    AppendUnlinked(created, name, j, bytes);
    SyncFileSafe(Append(created, j, bytes), name, j);
    assert [] + bytes == bytes;
  }

  lemma CommitSafe(fs: Fs, name: PendingName, j: Ino)
    requires Safe(fs, name, j) && name.claim in fs.entries
    requires forall d :: d in fs.inodes[j].disk ==> PreparedOnly(d)
    ensures var linked := Link(fs, name.claim, name.pending);
      var unlinked := Unlink(SyncDir(linked), name.claim);
      && Safe(linked, name, j) && Safe(SyncDir(linked), name, j)
      && Safe(unlinked, name, j) && Safe(SyncDir(unlinked), name, j)
  {
    hide Decode, Legible, Owned, Coherent;
    var linked := Link(fs, name.claim, name.pending);
    LinkSafe(fs, name, j);
    SyncDirSafe(linked, name, j);
    UnlinkSafe(SyncDir(linked), name, j, name.claim);
    SyncDirSafe(Unlink(SyncDir(linked), name.claim), name, j);
  }

  lemma ClaimSafe(fs: Fs, name: PendingName, j: Ino, bytes: Bytes, i: nat)
    requires Coherent(fs) && DurablyAbsent(fs, name) && name.claim != name.pending && j !in fs.inodes
    requires PreparedOnly(bytes) && i < 7
    ensures CrashSafe(ClaimStates(fs, name, j, bytes)[i], name)
  {
    hide Decode, CrashSafe, Safe;
    var states := ClaimStates(fs, name, j, bytes);
    PreflightSafe(fs, name, j, bytes);
    CommitSafe(states[2], name, j);
    SafeIsCrashSafe(states[i], name, j);
  }

  /**
   An unrefused claim is crash safe at every step exactly when the absence it found is
   already committed: an unsynced earlier removal can resurrect a stale marker under it.
   */
  lemma ClaimSafeIffAbsenceCommitted(fs: Fs, name: PendingName, j: Ino, bytes: Bytes)
    requires Coherent(fs) && name.claim != name.pending && j !in fs.inodes && PreparedOnly(bytes)
    requires name.claim !in fs.entries && name.pending !in fs.entries
    ensures (forall i :: 0 <= i < 7 ==> CrashSafe(ClaimStates(fs, name, j, bytes)[i], name)) <==>
      DurablyAbsent(fs, name)
    ensures (exists i :: 0 <= i < 7 && CorruptCrash(ClaimStates(fs, name, j, bytes)[i], name)) <==>
      !DurablyAbsent(fs, name)
  {
    hide Decode, CrashSafe, ClaimStates, CorruptCrash;
    if DurablyAbsent(fs, name) {
      forall i: nat | i < 7
        ensures CrashSafe(ClaimStates(fs, name, j, bytes)[i], name)
        ensures !CorruptCrash(ClaimStates(fs, name, j, bytes)[i], name)
      {
        ClaimSafe(fs, name, j, bytes, i);
        SafeOrCorrupt(ClaimStates(fs, name, j, bytes)[i], name);
      }
    } else {
      ClaimNotSafe(fs, name, j, bytes);
      forall i: nat | i < 7 && CorruptCrash(ClaimStates(fs, name, j, bytes)[i], name)
        ensures !CrashSafe(ClaimStates(fs, name, j, bytes)[i], name)
      {
        SafeOrCorrupt(ClaimStates(fs, name, j, bytes)[i], name);
      }
    }
  }
}
