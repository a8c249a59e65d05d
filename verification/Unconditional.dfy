/**
 What every request keeps in every state, whatever its arguments are and whichever
 statements fail: row keys, unique names, block rows, and the bytes of inodes that stay.
 */
module Unconditional {
  import opened Wrappers
  import opened Stores
  import opened Namespace
  import opened FileSystem
  import opened NamespaceRefinement
  import opened FsRefinement
  import opened Transports

  ghost predicate SoundRows(rows: Inodes) {
    Keyed(rows) && UniqueNames(rows)
  }

  /** Rows before and after: sound, no byte changed, and block rows untouched. */
  ghost predicate KeepsBytes(db: Db, db': Db) {
    && SoundRows(db'.tables.inodes)
    && Carries(db.tables.inodes, db'.tables.inodes)
    && db'.tables.blocks == db.tables.blocks
  }

  /** A row for an inode that is there, if it is, with its type, size and manifest. */
  predicate SameBytes(rows: Inodes, row: Inode) {
    row.ino in rows ==>
      && row.fileType == rows[row.ino].fileType && row.size == rows[row.ino].size
      && row.manifest == rows[row.ino].manifest
  }

  // ----- Single statements -----

  lemma UpdateKeepsBytes(db: Db, row: Inode, fails: bool)
    requires SoundRows(db.tables.inodes) && SameBytes(db.tables.inodes, row)
    ensures KeepsBytes(db, UpdateInode(db, row, fails).db)
    ensures UpdateInode(db, row, fails).db.tables.inodes.Keys == db.tables.inodes.Keys
  {
  }

  lemma DeleteKeepsBytes(db: Db, ino: Ino, fails: bool)
    requires SoundRows(db.tables.inodes)
    ensures KeepsBytes(db, DeleteInode(db, ino, fails).db)
    ensures DeleteInode(db, ino, fails).db.tables.inodes.Keys <= db.tables.inodes.Keys
  {
  }

  lemma InsertKeepsBytes(db: Db, node: Inode, fails: bool)
    requires SoundRows(db.tables.inodes) && Blank(node)
    ensures KeepsBytes(db, InsertInode(db, node, fails).db)
  {
  }

  /** Statements one after the other, the later ones adding no row. */
  lemma InSteps(db: Db, db1: Db, db2: Db)
    requires KeepsBytes(db, db1) && KeepsBytes(db1, db2) && db2.tables.inodes.Keys <= db1.tables.inodes.Keys
    ensures KeepsBytes(db, db2)
  {
    var rows, rows1, rows2 := db.tables.inodes, db1.tables.inodes, db2.tables.inodes;
    assert forall i | i in rows2 :: i in rows1 && rows2[i].fileType == rows1[i].fileType;
  }

  lemma DetachKeepsBytes(db: Db, parent: Ino, x: Ino, unlink: bool, fails: bool)
    requires SoundRows(db.tables.inodes)
    ensures KeepsBytes(db, Detach(db, parent, x, unlink, fails))
    ensures Detach(db, parent, x, unlink, fails).tables.inodes.Keys == db.tables.inodes.Keys
  {
    if parent in db.tables.inodes {
      UpdateKeepsBytes(db, Disown(db.tables.inodes[parent], x, unlink), fails);
    }
  }

  lemma AttachKeepsBytes(db: Db, parent: Ino, x: Ino, subdir: bool, fails: bool)
    requires SoundRows(db.tables.inodes)
    ensures KeepsBytes(db, Attach(db, parent, x, subdir, fails))
    ensures Attach(db, parent, x, subdir, fails).tables.inodes.Keys == db.tables.inodes.Keys
  {
    if parent in db.tables.inodes {
      UpdateKeepsBytes(db, Adopt(db.tables.inodes[parent], x, subdir), fails);
    }
  }

  // ----- Requests -----

  lemma InsertThenUpdate(db: Db, node: Inode, p': Inode, f: Faults)
    requires SoundRows(db.tables.inodes) && Blank(node) && p'.ino != node.ino && SameBytes(db.tables.inodes, p')
    ensures KeepsBytes(db, InsertInode(db, node, f.insert).db)
    ensures KeepsBytes(db, UpdateInode(InsertInode(db, node, f.insert).db, p', f.update).db)
  {
    var i := InsertInode(db, node, f.insert).db;
    InsertKeepsBytes(db, node, f.insert);
    UpdateKeepsBytes(i, p', f.update);
    InSteps(db, i, UpdateInode(i, p', f.update).db);
  }

  lemma InsertTxnKeepsBytes(db: Db, node: Inode, p': Inode, f: Faults)
    requires SoundRows(db.tables.inodes) && Blank(node) && p'.ino != node.ino && SameBytes(db.tables.inodes, p')
    ensures KeepsBytes(db, InsertTxn(db, node, p', f).db)
  {
    if db.saved.None? {
      InsertThenUpdate(Begin(db).db, node, p', f);
    }
  }

  lemma InsertBareKeepsBytes(db: Db, node: Inode, p': Inode, f: Faults)
    requires SoundRows(db.tables.inodes) && Blank(node) && p'.ino != node.ino && SameBytes(db.tables.inodes, p')
    ensures KeepsBytes(db, InsertBare(db, node, p', f).db)
  {
    InsertThenUpdate(db, node, p', f);
  }

  lemma RemoveTxnKeepsBytes(db: Db, parent: Ino, x: Ino, unlink: bool, f: Faults)
    requires SoundRows(db.tables.inodes)
    ensures KeepsBytes(db, RemoveTxn(db, parent, x, unlink, f).db)
  {
    if db.saved.None? {
      var b := Begin(db).db;
      var u := Detach(b, parent, x, unlink, f.update);
      DetachKeepsBytes(b, parent, x, unlink, f.update);
      DeleteKeepsBytes(u, x, f.delete);
      InSteps(db, u, DeleteInode(u, x, f.delete).db);
    }
  }

  /** The moved inode is written back as it was read before the destination went. */
  lemma ReparentKeepsBytes(db: Db, inode: Inode, parent: Ino, np: Ino, newName: string, f: RenameFaults)
    requires SoundRows(db.tables.inodes) && SameBytes(db.tables.inodes, inode)
    ensures KeepsBytes(db, Reparent(db, inode, parent, np, newName, f))
    ensures Reparent(db, inode, parent, np, newName, f).tables.inodes.Keys == db.tables.inodes.Keys
  {
    var o := Detach(db, parent, inode.ino, inode.IsDir(), f.oldParent);
    DetachKeepsBytes(db, parent, inode.ino, inode.IsDir(), f.oldParent);
    var y := inode.(name := newName, parent := np);
    UpdateKeepsBytes(o, y, f.inode);
    var m := UpdateInode(o, y, f.inode).db;
    InSteps(db, o, m);
    AttachKeepsBytes(m, np, inode.ino, inode.IsDir(), f.newParent);
    InSteps(db, m, Attach(m, np, inode.ino, inode.IsDir(), f.newParent));
  }

  lemma DisplaceKeepsBytes(db: Db, e: Ino, np: Ino, f: RenameFaults)
    requires SoundRows(db.tables.inodes)
    ensures KeepsBytes(db, Displace(db, e, np, f))
    ensures Displace(db, e, np, f).tables.inodes.Keys <= db.tables.inodes.Keys
  {
    var d := DeleteInode(db, e, f.delete).db;
    DeleteKeepsBytes(db, e, f.delete);
    DetachKeepsBytes(d, np, e, false, f.displaced);
    InSteps(db, d, Detach(d, np, e, false, f.displaced));
  }

  lemma RenameKeepsBytes(db: Db, parent: Ino, name: string, np: Ino, newName: string, f: RenameFaults)
    requires SoundRows(db.tables.inodes)
    ensures KeepsBytes(db, Rename(db, parent, name, np, newName, f).db)
  {
    ResolveMatches(db.tables.inodes, parent, name);
    var source := Lookup(db.tables.inodes, parent, name);
    if source.Some? && db.saved.None? {
      var b := Begin(db).db;
      var seen := Seen(db.tables.inodes, np, newName, f.lookup);
      if seen.None? {
        ReparentKeepsBytes(b, source.value, parent, np, newName, f);
      } else if !(seen.value.IsDir() && seen.value.children != []) {
        var d := Displace(b, seen.value.ino, np, f);
        DisplaceKeepsBytes(b, seen.value.ino, np, f);
        ReparentKeepsBytes(d, source.value, parent, np, newName, f);
        InSteps(db, d, Reparent(d, source.value, parent, np, newName, f));
      }
    }
  }

  lemma MakeKeepsBytes(db: Db, parent: Ino, name: string, target: string, f: Faults)
    requires SoundRows(db.tables.inodes)
    ensures KeepsBytes(db, Mkdir(db, parent, name, f).db) && KeepsBytes(db, CreateNode(db, parent, name, f).db)
    ensures KeepsBytes(db, MakeSymlink(db, parent, name, target, f).db)
  {
    var rows := db.tables.inodes;
    if parent in rows {
      var ino := NextIno(rows.Keys);
      InsertTxnKeepsBytes(db, NewDir(ino, parent, name), Adopt(rows[parent], ino, true), f);
      InsertTxnKeepsBytes(db, NewFile(ino, parent, name), Adopt(rows[parent], ino, false), f);
      InsertBareKeepsBytes(db, NewSymlink(ino, parent, name, target), Adopt(rows[parent], ino, false), f);
    }
  }

  /** Every request of the namespace, in every state with sound keys. */
  lemma DbStepKeepsBytes(db: Db, op: Op)
    requires SoundRows(db.tables.inodes)
    ensures KeepsBytes(db, DbStep(db, op).db)
  {
    match op
    case InitOp(fails) => InsertKeepsBytes(db, RootInode(), fails);
    case MkdirOp(parent, name, f) => MakeKeepsBytes(db, parent, name, "", f);
    case CreateOp(parent, name, f) => MakeKeepsBytes(db, parent, name, "", f);
    case SymlinkOp(parent, name, target, f) => MakeKeepsBytes(db, parent, name, target, f);
    case UnlinkOp(parent, name, f) =>
      if Lookup(db.tables.inodes, parent, name).Some? {
        RemoveTxnKeepsBytes(db, parent, Lookup(db.tables.inodes, parent, name).value.ino, false, f);
      }
    case RmdirOp(parent, name, f) =>
      if Lookup(db.tables.inodes, parent, name).Some? {
        RemoveTxnKeepsBytes(db, parent, Lookup(db.tables.inodes, parent, name).value.ino, true, f);
      }
    case RenameOp(parent, name, np, newName, f) => RenameKeepsBytes(db, parent, name, np, newName, f);
    case _ => assert DbStep(db, op).db == db;
  }

  lemma UpdateKeepsSound(db: Db, row: Inode, fails: bool)
    requires SoundRows(db.tables.inodes)
    ensures SoundRows(UpdateInode(db, row, fails).db.tables.inodes)
  {
  }

  lemma WriteKeepsSound(mount: Mount, fs: Fs, op: Op)
    requires SoundRows(fs.db.tables.inodes) && op.WriteOp?
    ensures SoundRows(Step(mount, fs, op).fs.db.tables.inodes)
  {
    if op.fh in fs.handles.open && op.ino in fs.db.tables.inodes {
      var size := |Overlay(fs.handles.open[op.fh].writeBuffer, op.offset, op.data)|;
      UpdateKeepsSound(fs.db, fs.db.tables.inodes[op.ino].(size := size), op.fails);
    }
  }

  lemma ReleaseKeepsSound(mount: Mount, fs: Fs, op: Op)
    requires SoundRows(fs.db.tables.inodes) && op.ReleaseOp?
    ensures SoundRows(Step(mount, fs, op).fs.db.tables.inodes)
  {
    if OwnBytes(fs, op.fh) {
      var data := fs.handles.open[op.fh].writeBuffer;
      var f := Flush(mount, fs, data, op.events);
      FlushKeepsRows(mount, fs, data, op.events);
      if f.block.Some? && op.ino in fs.db.tables.inodes {
        var m := ManifestOf(op.ino, f.block.value, data);
        UpdateKeepsSound(f.fs.db, fs.db.tables.inodes[op.ino].(manifest := Some(m), size := m.totalSize),
                         op.events.update);
      }
    }
  }

  lemma StepKeepsSound(mount: Mount, fs: Fs, op: Op)
    requires SoundRows(fs.db.tables.inodes)
    ensures SoundRows(Step(mount, fs, op).fs.db.tables.inodes)
  {
    if op.WriteOp? {
      WriteKeepsSound(mount, fs, op);
    } else if op.ReleaseOp? {
      ReleaseKeepsSound(mount, fs, op);
    } else {
      OtherStepsDb(mount, fs, op);
      DbStepKeepsBytes(fs.db, op);
    }
  }

  /** Keys and the unique index hold after every run, whatever its requests are and whatever fails. */
  lemma {:induction false} RunKeepsSound(mount: Mount, fs: Fs, ops: seq<Op>)
    requires SoundRows(fs.db.tables.inodes)
    ensures SoundRows(Run(mount, fs, ops).fs.db.tables.inodes)
    decreases |ops|
  {
    if ops != [] {
      StepKeepsSound(mount, fs, ops[0]);
      RunKeepsSound(mount, Step(mount, fs, ops[0]).fs, ops[1..]);
    }
  }

  lemma MountedRows(transport: Option<Transport>, cache: bool)
    ensures SoundRows(Mounted(transport, cache).db.tables.inodes) && Mounted(transport, cache).db.tables.blocks == map[]
  {
    RootIsATree();
  }
}
