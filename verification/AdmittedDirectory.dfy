/**
 The retained directory handle: every custody operation, each of which may be refused.

 `faults` decides the fate of the n-th operation, so a contract that holds for every
 `faults` holds under every pattern of refusals. `trace` keeps every state the directory
 has been in, so a contract about it speaks of a crash at every point.
 */
module AdmittedDirectory {
  import opened Wrappers
  import opened Frame
  import opened Custody

  /** Clear runs the operation; Lost refuses it without effect; Landed refuses it although it
      took effect; Torn writes a prefix and refuses. */
  datatype Fault = Clear | Lost | Landed | Torn(written: nat)

  datatype CustodyError = AlreadyExists | NotFound | IdentityDrift | Io

  class AdmittedDir {
    const faults: nat -> Fault
    var clock: nat
    var fs: Fs
    ghost var trace: seq<Fs>

    /** No operation from here on is refused by the platform. */
    ghost predicate Quiet()
      reads this
    {
      forall i :: clock <= i ==> faults(i).Clear?
    }

    /** The trace is up to date: it ends in the present state. */
    ghost predicate Recorded()
      reads this
    {
      trace != [] && trace[|trace| - 1] == fs
    }

    /** Nothing happened since the old state, or it is all in the trace. */
    twostate predicate Traced()
      reads this
    {
      (fs == old(fs) && trace == old(trace)) || (Recorded() && |old(trace)| < |trace|)
    }

    constructor (faults: nat -> Fault, fs: Fs)
      ensures this.faults == faults && this.fs == fs && clock == 0 && trace == [fs]
    {
      this.faults := faults;
      this.fs := fs;
      clock := 0;
      trace := [fs];
    }

    /** Run one mutation whose effect is `after`. */
    method Mutate(after: Fs) returns (ok: bool)
      modifies this
      ensures clock == old(clock) + 1 && trace == old(trace) + [fs]
      ensures ok ==> fs == after
      ensures fs == old(fs) || fs == after
      ensures old(faults(clock)).Clear? ==> ok
    {
      var fault := faults(clock);
      clock := clock + 1;
      if fault.Clear? || fault.Landed? {
        fs := after;
      }
      trace := trace + [fs];
      ok := fault.Clear?;
    }

    method StatName(name: Name) returns (r: Result<Option<EntryStat>, CustodyError>)
      modifies this`clock
      ensures clock == old(clock) + 1
      ensures r.Ok? ==> r.value == StatEntry(fs, name)
      ensures r.Ok? <==> old(faults(clock)).Clear?
      ensures r.Err? ==> r.error == Io
    {
      r := if faults(clock).Clear? then Ok(StatEntry(fs, name)) else Err(Io);
      clock := clock + 1;
    }

    method StatFile(file: Ino) returns (r: Result<EntryStat, CustodyError>)
      requires file in fs.inodes
      modifies this`clock
      ensures clock == old(clock) + 1
      ensures r.Ok? ==> r.value == StatInode(fs, file)
      ensures old(faults(clock)).Clear? ==> r.Ok?
      ensures r.Err? ==> r.error == Io
    {
      r := if faults(clock).Clear? then Ok(StatInode(fs, file)) else Err(Io);
      clock := clock + 1;
    }

    method ReadPrefix(file: Ino, max: nat) returns (r: Result<Bytes, CustodyError>)
      requires file in fs.inodes
      modifies this`clock
      ensures clock == old(clock) + 1
      ensures r.Ok? ==>
        r.value == if |fs.inodes[file].data| <= max then fs.inodes[file].data else fs.inodes[file].data[..max]
      ensures old(faults(clock)).Clear? ==> r.Ok?
      ensures r.Err? ==> r.error == Io
    {
      var data := fs.inodes[file].data;
      r := if faults(clock).Clear? then Ok(if |data| <= max then data else data[..max]) else Err(Io);
      clock := clock + 1;
    }

    /** Re-assert that `name` still maps to `identity`. */
    method Reassert(name: Name, identity: Ino) returns (r: Result<(), CustodyError>)
      modifies this`clock
      ensures clock == old(clock) + 1
      ensures r.Ok? ==> name in fs.entries && fs.entries[name] == identity && identity in fs.inodes
      ensures (old(faults(clock)).Clear? && name in fs.entries && fs.entries[name] == identity
               && identity in fs.inodes) ==> r.Ok?
      ensures r.Err? ==> r.error == if old(faults(clock)).Clear? then IdentityDrift else Io
    {
      var stat := StatName(name);
      if stat.Err? {
        return Err(stat.error);
      }
      if stat.value.Some? && stat.value.value.identity == identity {
        return Ok(());
      }
      return Err(IdentityDrift);
    }

    method CreateFileExcl(name: Name, ino: Ino) returns (r: Result<(), CustodyError>)
      requires ino !in fs.inodes
      modifies this
      ensures clock == old(clock) + 1 && trace == old(trace) + [fs]
      ensures r.Ok? ==> name !in old(fs.entries) && fs == Create(old(fs), name, ino)
      ensures fs == old(fs) || (name !in old(fs.entries) && fs == Create(old(fs), name, ino))
      ensures old(faults(clock)).Clear? && name !in old(fs.entries) ==> r.Ok?
      ensures r.Err? ==> r.error == if name in old(fs.entries) then AlreadyExists else Io
    {
      var taken := name in fs.entries;
      var ok := Mutate(if taken then fs else Create(fs, name, ino));
      r := if taken then Err(AlreadyExists) else if ok then Ok(()) else Err(Io);
    }

    method LinkEntry(existing: Name, added: Name) returns (r: Result<(), CustodyError>)
      modifies this
      ensures clock == old(clock) + 1 && trace == old(trace) + [fs]
      ensures r.Ok? ==> existing in old(fs.entries) && added !in old(fs.entries) && fs == Link(old(fs), existing, added)
      ensures fs == old(fs) ||
        (existing in old(fs.entries) && added !in old(fs.entries) && fs == Link(old(fs), existing, added))
      ensures old(faults(clock)).Clear? && existing in old(fs.entries) && added !in old(fs.entries) ==> r.Ok?
      ensures r.Err? ==>
        r.error == if existing !in old(fs.entries) then NotFound else if added in old(fs.entries) then AlreadyExists
                   else Io
    {
      var possible := existing in fs.entries && added !in fs.entries;
      var missing := existing !in fs.entries;
      var ok := Mutate(if possible then Link(fs, existing, added) else fs);
      r := if possible && ok then Ok(()) else Err(if missing then NotFound else if possible then Io else AlreadyExists);
    }

    method UnlinkEntry(name: Name) returns (r: Result<(), CustodyError>)
      modifies this
      ensures clock == old(clock) + 1 && trace == old(trace) + [fs]
      ensures r.Ok? ==> name in old(fs.entries) && fs == Unlink(old(fs), name)
      ensures fs == old(fs) || fs == Unlink(old(fs), name)
      ensures old(faults(clock)).Clear? && name in old(fs.entries) ==> r.Ok?
      ensures r.Err? ==> r.error == if name in old(fs.entries) then Io else NotFound
    {
      var present := name in fs.entries;
      var ok := Mutate(if present then Unlink(fs, name) else fs);
      r := if !present then Err(NotFound) else if ok then Ok(()) else Err(Io);
    }

    method Sync() returns (r: Result<(), CustodyError>)
      modifies this
      ensures clock == old(clock) + 1 && trace == old(trace) + [fs]
      ensures r.Ok? ==> fs == SyncDir(old(fs))
      ensures fs == old(fs) || fs == SyncDir(old(fs))
      ensures old(faults(clock)).Clear? ==> r.Ok?
      ensures r.Err? ==> r.error == Io
    {
      var ok := Mutate(SyncDir(fs));
      r := if ok then Ok(()) else Err(Io);
    }

    /** Append to an open file; a torn write leaves a prefix. */
    method AppendFile(file: Ino, bytes: Bytes) returns (r: Result<(), CustodyError>, ghost n: nat)
      requires file in fs.inodes
      modifies this
      ensures clock == old(clock) + 1 && trace == old(trace) + [fs]
      ensures n <= |bytes| && (fs == old(fs) || fs == Append(old(fs), file, bytes[..n]))
      ensures r.Ok? ==> fs == Append(old(fs), file, bytes)
      ensures old(faults(clock)).Clear? ==> r.Ok?
      ensures r.Err? ==> r.error == Io
    {
      var fault := faults(clock);
      var written := if fault.Torn? && fault.written < |bytes| then fault.written else |bytes|;
      n := written;
      assert bytes[..|bytes|] == bytes;
      var torn := fault.Torn?;
      var after := Append(fs, file, bytes[..written]);
      clock := clock + 1;
      if fault.Clear? || fault.Landed? || torn {
        fs := after;
      }
      trace := trace + [fs];
      r := if fault.Clear? then Ok(()) else Err(Io);
    }

    method SyncOpen(file: Ino) returns (r: Result<(), CustodyError>)
      requires file in fs.inodes
      modifies this
      ensures clock == old(clock) + 1 && trace == old(trace) + [fs]
      ensures r.Ok? ==> fs == SyncFile(old(fs), file)
      ensures fs == old(fs) || fs == SyncFile(old(fs), file)
      ensures old(faults(clock)).Clear? ==> r.Ok?
      ensures r.Err? ==> r.error == Io
    {
      var ok := Mutate(SyncFile(fs, file));
      r := if ok then Ok(()) else Err(Io);
    }

    method TruncateFile(file: Ino, len: nat) returns (r: Result<(), CustodyError>)
      requires file in fs.inodes && len <= |fs.inodes[file].data|
      modifies this
      ensures clock == old(clock) + 1 && trace == old(trace) + [fs]
      ensures r.Ok? ==> fs == Truncate(old(fs), file, len)
      ensures fs == old(fs) || fs == Truncate(old(fs), file, len)
      ensures old(faults(clock)).Clear? ==> r.Ok?
      ensures r.Err? ==> r.error == Io
    {
      var ok := Mutate(Truncate(fs, file, len));
      r := if ok then Ok(()) else Err(Io);
    }
  }
}
