/**
 Restarting: the next mount finds the durable tables and the messages. What it finds is
 sound unless writes that were never flushed have left the sizes they recorded.
 */
module Restarts {
  import opened Wrappers
  import opened Manifests
  import opened Stores
  import opened HandleTables
  import opened Transports
  import opened FileSystem
  import opened AbstractFs
  import opened DataRefinement
  import opened FsRefinement
  import opened RefCounts
  import opened Unconditional

  /** Handles, the cache index and an open transaction are gone. */
  function Restarted(fs: Fs): Fs {
    Fs(Db(Durable(fs.db), None), Handles(map[], 1), fs.transport,
       match fs.cache case None => None case Some(_) => Some([]))
  }

  // ----- The history of recorded sizes -----

  /** The lengths that writes recorded and no successful release has replaced since. */
  type Notes = map<Ino, nat>

  /** The release stores a manifest for its inode. */
  ghost predicate Commits(fs: Fs, op: Op) {
    && ToFlush(fs, op) && CanFlush(fs, fs.handles.open[op.fh].writeBuffer, op.events)
    && !op.events.update && op.ino in fs.db.tables.inodes
  }

  /** A write notes the length it leaves in the buffer, a release that stores a manifest crosses the note out. */
  ghost function Noted(fs: Fs, op: Op, notes: Notes): Notes {
    match op
    case WriteOp(ino, fh, offset, data, fails) =>
      if fh in fs.handles.open && ino in fs.db.tables.inodes && !fails then
        notes[ino := |Overlay(fs.handles.open[fh].writeBuffer, offset, data)|]
      else notes
    case ReleaseOp(ino, _, _) => if Commits(fs, op) then notes - {ino} else notes
    case _ => map i | i in notes && i in DbStep(fs.db, op).db.tables.inodes :: notes[i]
  }

  ghost function NotedIn(mount: Mount, fs: Fs, ops: seq<Op>, notes: Notes): Notes
    decreases |ops|
  {
    if ops == [] then notes else NotedIn(mount, Step(mount, fs, ops[0]).fs, ops[1..], Noted(fs, ops[0], notes))
  }

  /** The recorded size of a file is the note, if there is one, and else the length of its flushed bytes. */
  ghost predicate SizesAsNoted(rows: Inodes, notes: Notes) {
    && notes.Keys <= rows.Keys
    && forall i | i in rows && rows[i].IsFile() ::
         && rows[i].manifest.Some?
         && rows[i].size == if i in notes then notes[i] else rows[i].manifest.value.totalSize
  }

  lemma WriteNotes(mount: Mount, fs: Fs, op: Op, notes: Notes)
    requires SoundRows(fs.db.tables.inodes) && SizesAsNoted(fs.db.tables.inodes, notes) && op.WriteOp?
    ensures SizesAsNoted(Step(mount, fs, op).fs.db.tables.inodes, Noted(fs, op, notes))
  {
    if op.fh in fs.handles.open && op.ino in fs.db.tables.inodes && !op.fails {
      ResizeOutcome(fs.db, op.ino, |Overlay(fs.handles.open[op.fh].writeBuffer, op.offset, op.data)|);
    }
  }

  lemma ReplacedAsNoted(rows: Inodes, rows': Inodes, ino: Ino, m: FileManifest, notes: Notes)
    requires SizesAsNoted(rows, notes) && Resized(rows, rows', ino, m.totalSize, Some(m))
    ensures SizesAsNoted(rows', notes - {ino})
  {
  }

  lemma ReleaseNotes(mount: Mount, fs: Fs, op: Op, notes: Notes)
    requires SoundRows(fs.db.tables.inodes) && SizesAsNoted(fs.db.tables.inodes, notes) && op.ReleaseOp?
    ensures SizesAsNoted(Step(mount, fs, op).fs.db.tables.inodes, Noted(fs, op, notes))
  {
    ReleaseTables(mount, fs, op);
    if ToFlush(fs, op) {
      var data := fs.handles.open[op.fh].writeBuffer;
      FlushSucceedsIff(mount, fs, data, op.events);
      if Commits(fs, op) {
        var m := ManifestOf(op.ino, Flush(mount, fs, data, op.events).block.value, data);
        ReplacedAsNoted(fs.db.tables.inodes, Step(mount, fs, op).fs.db.tables.inodes, op.ino, m, notes);
      }
    }
  }

  lemma NamesNote(db: Db, op: Op, notes: Notes)
    requires SoundRows(db.tables.inodes) && SizesAsNoted(db.tables.inodes, notes)
    ensures var rows' := DbStep(db, op).db.tables.inodes;
            SizesAsNoted(rows', map i | i in notes && i in rows' :: notes[i])
  {
    DbStepKeepsBytes(db, op);
    var rows, rows' := db.tables.inodes, DbStep(db, op).db.tables.inodes;
    assert forall i | i in rows' && i in rows && rows'[i].IsFile() :: rows[i].IsFile();
  }

  lemma StepNotes(mount: Mount, fs: Fs, op: Op, notes: Notes)
    requires SoundRows(fs.db.tables.inodes) && SizesAsNoted(fs.db.tables.inodes, notes)
    ensures SizesAsNoted(Step(mount, fs, op).fs.db.tables.inodes, Noted(fs, op, notes))
  {
    if op.WriteOp? {
      WriteNotes(mount, fs, op, notes);
    } else if op.ReleaseOp? {
      ReleaseNotes(mount, fs, op, notes);
    } else {
      OtherStepsDb(mount, fs, op);
      NamesNote(fs.db, op, notes);
    }
  }

  /** In every run whatever, the recorded sizes are told by its history. */
  lemma {:induction false} RunNotes(mount: Mount, fs: Fs, ops: seq<Op>, notes: Notes)
    requires SoundRows(fs.db.tables.inodes) && SizesAsNoted(fs.db.tables.inodes, notes)
    ensures SizesAsNoted(Run(mount, fs, ops).fs.db.tables.inodes, NotedIn(mount, fs, ops, notes))
    decreases |ops|
  {
    if ops != [] {
      StepNotes(mount, fs, ops[0], notes);
      StepKeepsSound(mount, fs, ops[0]);
      RunNotes(mount, Step(mount, fs, ops[0]).fs, ops[1..], Noted(fs, ops[0], notes));
    }
  }

  // ----- What a restart finds -----

  /** The last write of each file since its last stored manifest left as many bytes as the manifest has. */
  ghost predicate NothingCutOff(rows: Inodes, notes: Notes) {
    forall i | i in notes && i in rows && rows[i].IsFile() ::
      rows[i].manifest.Some? && notes[i] == rows[i].manifest.value.totalSize
  }

  lemma RestartedSizes(mount: Mount, fs: Fs, notes: Notes)
    requires Inv(mount, fs) && fs.db.saved.None? && SizesAsNoted(fs.db.tables.inodes, notes)
    ensures Inv(mount, Restarted(fs)) <==> NothingCutOff(fs.db.tables.inodes, notes)
    ensures Abstract(Restarted(fs)) == Abstract(fs).(buffers := map[], nextFh := 1)
  {
    var fs' := Restarted(fs);
    assert MessagesOf(fs') == MessagesOf(fs);
    assert BuffersOf(fs'.handles) == map[];
    assert forall i :: !Pending(fs'.handles, i);
  }

  /**
   After an allowed run from the mount that left no transaction open, a restart loses no
   name and no flushed byte. It finds a sound filesystem if and only if no file was last
   written, since its last successful release, to another length than was flushed.
   */
  lemma CleanRestart(mount: Mount, transport: Option<Transport>, cache: bool, ops: seq<Op>)
    requires IdsBelow(transport) && AllowedRun(mount, Mounted(transport, cache), ops)
    requires Run(mount, Mounted(transport, cache), ops).fs.db.saved.None?
    ensures var fs := Run(mount, Mounted(transport, cache), ops).fs;
            && (Inv(mount, Restarted(fs)) <==>
                  NothingCutOff(fs.db.tables.inodes, NotedIn(mount, Mounted(transport, cache), ops, map[])))
            && Abstract(Restarted(fs)) == Abstract(fs).(buffers := map[], nextFh := 1)
  {
    var start := Mounted(transport, cache);
    MountIsSound(mount, transport, cache);
    MountedRows(transport, cache);
    RunRefines(mount, start, ops);
    RunNotes(mount, start, ops, map[]);
    RestartedSizes(mount, Run(mount, start, ops).fs, NotedIn(mount, start, ops, map[]));
  }
}
