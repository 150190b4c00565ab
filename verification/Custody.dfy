/**
 The directory and the inodes the journal works on: what is cached, and what a crash may
 leave of it.

 `survivors` holds every set of entries a crash could leave: any subset of the name changes
 since the last directory sync. `disk` holds every content a crash could leave of a file:
 any prefix of the unsynced appends. Names in the directory that the journal does not own
 are arbitrary.
 */
module Custody {
  import opened Wrappers
  import opened Frame

  type Name = string
  type Ino = nat
  type Entries = map<Name, Ino>

  datatype NodeKind = Directory | Regular | Symlink | Other

  datatype Inode = Inode(kind: NodeKind, mode: nat, data: Bytes, disk: set<Bytes>)

  datatype Fs = Fs(entries: Entries, survivors: set<Entries>, inodes: map<Ino, Inode>)

  datatype EntryStat = EntryStat(identity: Ino, kind: NodeKind, nlink: nat, size: nat, mode: nat)

  const JOURNAL_MODE: nat := 0x180 // 0600

  /** What is cached may survive, and every name maps to an inode. */
  ghost predicate Coherent(fs: Fs) {
    && fs.entries in fs.survivors
    && (forall s, n :: s in fs.survivors && n in s ==> s[n] in fs.inodes)
    && (forall i :: i in fs.inodes ==> fs.inodes[i].data in fs.inodes[i].disk)
  }

  function NamesOf(entries: Entries, ino: Ino): set<Name> {
    set n | n in entries && entries[n] == ino
  }

  function StatInode(fs: Fs, ino: Ino): EntryStat
    requires ino in fs.inodes
  {
    var node := fs.inodes[ino];
    EntryStat(ino, node.kind, |NamesOf(fs.entries, ino)|, |node.data|, node.mode)
  }

  function StatEntry(fs: Fs, name: Name): Option<EntryStat> {
    if name in fs.entries && fs.entries[name] in fs.inodes then Some(StatInode(fs, fs.entries[name])) else None
  }

  // ----- mutations

  function Create(fs: Fs, name: Name, ino: Ino): Fs {
    Fs(fs.entries[name := ino],
       fs.survivors + (set s | s in fs.survivors :: s[name := ino]),
       fs.inodes[ino := Inode(Regular, JOURNAL_MODE, [], {[]})])
  }

  function Link(fs: Fs, existing: Name, added: Name): Fs
    requires existing in fs.entries
  {
    var ino := fs.entries[existing];
    fs.(entries := fs.entries[added := ino],
        survivors := fs.survivors + (set s | s in fs.survivors :: s[added := ino]))
  }

  function Unlink(fs: Fs, name: Name): Fs {
    fs.(entries := fs.entries - {name},
        survivors := fs.survivors + (set s | s in fs.survivors :: s - {name}))
  }

  function SyncDir(fs: Fs): Fs {
    fs.(survivors := {fs.entries})
  }

  function Append(fs: Fs, ino: Ino, bytes: Bytes): Fs
    requires ino in fs.inodes
  {
    var node := fs.inodes[ino];
    fs.(inodes := fs.inodes[ino := node.(
      data := node.data + bytes,
      disk := node.disk + (set k | 0 <= k <= |bytes| :: node.data + bytes[..k]))])
  }

  /** What an append may leave: an earlier outcome, or the cache and a prefix of the bytes. */
  lemma AppendOutcomes(fs: Fs, ino: Ino, bytes: Bytes, d: Bytes)
    requires ino in fs.inodes
    ensures Append(fs, ino, bytes).inodes[ino].data in Append(fs, ino, bytes).inodes[ino].disk
    ensures d in Append(fs, ino, bytes).inodes[ino].disk <==>
            d in fs.inodes[ino].disk || exists k :: 0 <= k <= |bytes| && d == fs.inodes[ino].data + bytes[..k]
  {
    assert bytes[..|bytes|] == bytes;
  }

  function Truncate(fs: Fs, ino: Ino, len: nat): Fs
    requires ino in fs.inodes && len <= |fs.inodes[ino].data|
  {
    var node := fs.inodes[ino];
    fs.(inodes := fs.inodes[ino := node.(data := node.data[..len], disk := node.disk + {node.data[..len]})])
  }

  function SyncFile(fs: Fs, ino: Ino): Fs
    requires ino in fs.inodes
  {
    var node := fs.inodes[ino];
    fs.(inodes := fs.inodes[ino := node.(disk := {node.data})])
  }

  // ----- crashes

  /** `after` is what a crash at `fs` may leave. */
  ghost predicate CrashImage(fs: Fs, after: Fs) {
    && after.entries in fs.survivors && after.survivors == {after.entries}
    && after.inodes.Keys == fs.inodes.Keys
    && forall i :: i in fs.inodes ==>
         && after.inodes[i].data in fs.inodes[i].disk
         && after.inodes[i] == fs.inodes[i].(data := after.inodes[i].data, disk := {after.inodes[i].data})
  }

  lemma CrashCoherent(fs: Fs, after: Fs)
    requires Coherent(fs) && CrashImage(fs, after)
    ensures Coherent(after)
  {
  }

  // ----- the survivor sets are the subsets of unsynced name changes

  datatype NameChange = Added(name: Name, ino: Ino) | Removed(name: Name)

  function Apply(entries: Entries, change: NameChange): Entries {
    match change
    case Added(name, ino) => entries[name := ino]
    case Removed(name) => entries - {name}
  }

  /** The changes a mask lets through, in order, over `base`. */
  function ApplyMasked(base: Entries, log: seq<NameChange>, mask: seq<bool>): Entries
    requires |log| == |mask|
  {
    if log == [] then base
    else
      var n := |log| - 1;
      var before := ApplyMasked(base, log[..n], mask[..n]);
      if mask[n] then Apply(before, log[n]) else before
  }

  /** One unsynced change doubles what may survive, as every mutation above does. */
  function Surviving(base: Entries, log: seq<NameChange>): set<Entries> {
    if log == [] then {base}
    else
      var before := Surviving(base, log[..|log| - 1]);
      before + (set s | s in before :: Apply(s, log[|log| - 1]))
  }

  /** What may survive is exactly what some subset of the unsynced changes leaves. */
  lemma {:induction false} SurvivingIsSubsets(base: Entries, log: seq<NameChange>, e: Entries)
    ensures e in Surviving(base, log) <==>
      exists mask: seq<bool> :: |mask| == |log| && ApplyMasked(base, log, mask) == e
  {
    if log == [] {
      assert ApplyMasked(base, log, []) == base;
    } else {
      var n := |log| - 1;
      var before := Surviving(base, log[..n]);
      if e in Surviving(base, log) {
        if e in before {
          SurvivingIsSubsets(base, log[..n], e);
          var m: seq<bool> :| |m| == n && ApplyMasked(base, log[..n], m) == e;
          assert (m + [false])[..n] == m;
          assert ApplyMasked(base, log, m + [false]) == e;
        } else {
          var s :| s in before && e == Apply(s, log[n]);
          SurvivingIsSubsets(base, log[..n], s);
          var m: seq<bool> :| |m| == n && ApplyMasked(base, log[..n], m) == s;
          assert (m + [true])[..n] == m;
          assert ApplyMasked(base, log, m + [true]) == e;
        }
      }
      if exists mask: seq<bool> :: |mask| == |log| && ApplyMasked(base, log, mask) == e {
        var mask: seq<bool> :| |mask| == |log| && ApplyMasked(base, log, mask) == e;
        SurvivingIsSubsets(base, log[..n], ApplyMasked(base, log[..n], mask[..n]));
      }
    }
  }

  /** Each name change adds its own subset outcomes. */
  lemma MutationsSurvive(fs: Fs, base: Entries, log: seq<NameChange>, name: Name, ino: Ino)
    requires fs.survivors == Surviving(base, log)
    ensures Create(fs, name, ino).survivors == Surviving(base, log + [Added(name, ino)])
    ensures Unlink(fs, name).survivors == Surviving(base, log + [Removed(name)])
    ensures forall from: Name :: from in fs.entries ==>
              Link(fs, from, name).survivors == Surviving(base, log + [Added(name, fs.entries[from])])
  {
    assert forall c: NameChange :: (log + [c])[..|log|] == log;
    forall c: NameChange
      ensures Surviving(base, log + [c]) == fs.survivors + (set s | s in fs.survivors :: Apply(s, c))
    {
      assert (log + [c])[..|log|] == log;
    }
  }
}
