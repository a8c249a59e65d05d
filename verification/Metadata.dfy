/** What rows say besides names and bytes: the attributes of new entries, and the labels of blocks and manifests. */
module Metadata {
  import opened Wrappers
  import opened Content
  import opened Manifests
  import opened Stores
  import opened Namespace
  import opened Transports
  import opened FileSystem
  import opened FsRefinement
  import opened RefCounts
  import opened Unconditional

  // ----- New entries -----

  /** The row that mkdir, create or symlink makes, field by field. */
  function RowFor(op: Op, ino: Ino): Inode
    requires op.MkdirOp? || op.CreateOp? || op.SymlinkOp?
  {
    match op
    case MkdirOp(parent, name, _) => Inode(ino, parent, name, Directory, 0, 2, None, None, [])
    case CreateOp(parent, name, _) =>
      Inode(ino, parent, name, RegularFile, 0, 1, Some(FileManifest(ino, 0, 0, None, [])), None, [])
    case SymlinkOp(parent, name, target, _) =>
      Inode(ino, parent, name, Symlink, |target|, 1, None, Some(target), [])
  }

  lemma InsertedRow(db: Db, node: Inode, p': Inode, f: Faults)
    requires p'.ino != node.ino
    ensures InsertTxn(db, node, p', f).result.Entry? ==>
              var rows := InsertTxn(db, node, p', f).db.tables.inodes;
              node.ino in rows && rows[node.ino] == node
    ensures InsertBare(db, node, p', f).result.Entry? ==>
              var rows := InsertBare(db, node, p', f).db.tables.inodes;
              node.ino in rows && rows[node.ino] == node
  {
  }

  /** A new entry is a row with the next number and these attributes. */
  lemma NewEntryRow(db: Db, op: Op)
    requires Keyed(db.tables.inodes) && (op.MkdirOp? || op.CreateOp? || op.SymlinkOp?)
    requires DbStep(db, op).result.Entry?
    ensures var ino, rows := DbStep(db, op).result.ino, DbStep(db, op).db.tables.inodes;
            ino == NextIno(db.tables.inodes.Keys) && ino in rows && rows[ino] == RowFor(op, ino)
  {
    var rows := db.tables.inodes;
    var ino := NextIno(rows.Keys);
    if op.MkdirOp? {
      InsertedRow(db, NewDir(ino, op.parent, op.name), Adopt(rows[op.parent], ino, true), op.faults);
    } else if op.CreateOp? {
      InsertedRow(db, NewFile(ino, op.parent, op.name), Adopt(rows[op.parent], ino, false), op.faults);
    } else {
      InsertedRow(db, NewSymlink(ino, op.parent, op.name, op.target), Adopt(rows[op.parent], ino, false), op.faults);
    }
  }

  /** A blank database is mounted with the root alone. */
  lemma MountedState(transport: Option<Transport>, cache: bool)
    ensures var fs := Mounted(transport, cache);
            && fs.db == Db(Tables(map[1 := Inode(1, 0, "", Directory, 0, 2, None, None, [])], map[]), None)
            && fs.handles.open == map[] && fs.handles.nextFh == 1
            && fs.transport == transport && fs.cache == if cache then Some([]) else None
  {
  }

  // ----- Blocks and manifests -----

  /** The row of a block says how its content was stored: as it is, in the epoch of the mount. */
  predicate BlockLabelled(mount: Mount, b: BlockRecord) {
    b.encryptedSize == |b.contentHash.content| && !b.compressed && b.epoch == mount.epoch
  }

  /** Either the empty first version for this inode, or one version of one block that agrees with its content. */
  predicate ManifestLabelled(mount: Mount, m: FileManifest, ino: Ino) {
    && m.inode == ino
    && if m.blocks == [] then m.version == 0 && m.totalSize == 0 && m.fileHash == None
       else
         var bp := m.blocks[0];
         var n := |bp.contentHash.content|;
         && |m.blocks| == 1 && m.version == 1 && m.totalSize == n && m.fileHash == Some(bp.contentHash)
         && bp == BlockPointer(bp.rid, bp.messageId, 0, n, 0, n, false, bp.contentHash, mount.epoch)
  }

  ghost predicate BlocksLabelled(mount: Mount, blocks: Blocks) {
    forall r | r in blocks :: blocks[r].rid == r && BlockLabelled(mount, blocks[r])
  }

  ghost predicate ManifestsLabelled(mount: Mount, rows: Inodes) {
    forall i | i in rows && rows[i].manifest.Some? :: ManifestLabelled(mount, rows[i].manifest.value, i)
  }

  lemma NamesKeepLabels(mount: Mount, db: Db, op: Op)
    requires SoundRows(db.tables.inodes) && ManifestsLabelled(mount, db.tables.inodes)
    ensures var t := DbStep(db, op).db.tables;
            t.blocks == db.tables.blocks && ManifestsLabelled(mount, t.inodes)
  {
    DbStepKeepsBytes(db, op);
  }

  lemma FlushLabels(mount: Mount, fs: Fs, data: Data, e: FlushEvents)
    requires BlocksLabelled(mount, fs.db.tables.blocks)
    ensures var f := Flush(mount, fs, data, e);
            && BlocksLabelled(mount, f.fs.db.tables.blocks)
            && (f.block.Some? ==> BlockLabelled(mount, f.block.value) && f.block.value.contentHash == Blake3(data))
  {
  }

  lemma ReleaseKeepsLabels(mount: Mount, fs: Fs, op: Op)
    requires SoundRows(fs.db.tables.inodes) && op.ReleaseOp?
    requires BlocksLabelled(mount, fs.db.tables.blocks) && ManifestsLabelled(mount, fs.db.tables.inodes)
    ensures var t := Step(mount, fs, op).fs.db.tables;
            BlocksLabelled(mount, t.blocks) && ManifestsLabelled(mount, t.inodes)
  {
    ReleaseTables(mount, fs, op);
    if ToFlush(fs, op) {
      var data := fs.handles.open[op.fh].writeBuffer;
      FlushLabels(mount, fs, data, op.events);
      var f := Flush(mount, fs, data, op.events);
      if f.block.Some? {
        StoredManifest(mount, op.ino, f.block.value, data);
      }
    }
  }

  lemma StoredManifest(mount: Mount, ino: Ino, block: BlockRecord, data: Data)
    requires BlockLabelled(mount, block) && block.contentHash == Blake3(data)
    ensures ManifestLabelled(mount, ManifestOf(ino, block, data), ino)
  {
  }

  lemma WriteKeepsLabels(mount: Mount, fs: Fs, op: Op)
    requires SoundRows(fs.db.tables.inodes) && op.WriteOp? && ManifestsLabelled(mount, fs.db.tables.inodes)
    ensures var t := Step(mount, fs, op).fs.db.tables;
            t.blocks == fs.db.tables.blocks && ManifestsLabelled(mount, t.inodes)
  {
    if op.fh in fs.handles.open && op.ino in fs.db.tables.inodes && !op.fails {
      ResizeOutcome(fs.db, op.ino, |Overlay(fs.handles.open[op.fh].writeBuffer, op.offset, op.data)|);
    }
  }

  lemma StepKeepsLabels(mount: Mount, fs: Fs, op: Op)
    requires SoundRows(fs.db.tables.inodes)
    requires BlocksLabelled(mount, fs.db.tables.blocks) && ManifestsLabelled(mount, fs.db.tables.inodes)
    ensures var t := Step(mount, fs, op).fs.db.tables;
            BlocksLabelled(mount, t.blocks) && ManifestsLabelled(mount, t.inodes)
  {
    if op.WriteOp? {
      WriteKeepsLabels(mount, fs, op);
    } else if op.ReleaseOp? {
      ReleaseKeepsLabels(mount, fs, op);
    } else {
      OtherStepsDb(mount, fs, op);
      NamesKeepLabels(mount, fs.db, op);
    }
  }

  lemma {:induction false} RunKeepsLabels(mount: Mount, fs: Fs, ops: seq<Op>)
    requires SoundRows(fs.db.tables.inodes)
    requires BlocksLabelled(mount, fs.db.tables.blocks) && ManifestsLabelled(mount, fs.db.tables.inodes)
    ensures var t := Run(mount, fs, ops).fs.db.tables;
            BlocksLabelled(mount, t.blocks) && ManifestsLabelled(mount, t.inodes)
    decreases |ops|
  {
    if ops != [] {
      StepKeepsLabels(mount, fs, ops[0]);
      StepKeepsSound(mount, fs, ops[0]);
      RunKeepsLabels(mount, Step(mount, fs, ops[0]).fs, ops[1..]);
    }
  }

  /** After every run from the mount, whatever fails, blocks and manifests are labelled with what they hold. */
  lemma LabelsInEveryRun(mount: Mount, transport: Option<Transport>, cache: bool, ops: seq<Op>)
    ensures var t := Run(mount, Mounted(transport, cache), ops).fs.db.tables;
            BlocksLabelled(mount, t.blocks) && ManifestsLabelled(mount, t.inodes)
  {
    MountedRows(transport, cache);
    RunKeepsLabels(mount, Mounted(transport, cache), ops);
  }
}
