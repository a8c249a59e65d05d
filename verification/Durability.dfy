/**
 What survives the end of the process. A transaction that a handler leaves open is
 never closed again: from then on nothing that the filesystem acknowledges lasts.
 */
module Durability {
  import opened Stores
  import opened Namespace
  import opened FileSystem
  import opened NamespaceRefinement
  import opened FsRefinement
  import opened TreeBoundaries
  import opened Unconditional

  /** The requests that need a transaction. */
  predicate NeedsTxn(op: Op) {
    op.MkdirOp? || op.CreateOp? || op.UnlinkOp? || op.RmdirOp? || op.RenameOp?
  }

  // ----- An open transaction stays open -----

  lemma WedgedDb(db: Db, op: Op)
    requires db.saved.Some?
    ensures DbStep(db, op).db.saved == db.saved
    ensures NeedsTxn(op) ==> DbStep(db, op) == Effect(db, DbStep(db, op).result) && DbStep(db, op).result.Err?
  {
  }

  lemma WedgedStep(mount: Mount, fs: Fs, op: Op)
    requires fs.db.saved.Some?
    ensures Step(mount, fs, op).fs.db.saved == fs.db.saved
    ensures NeedsTxn(op) ==> Step(mount, fs, op).fs.db == fs.db && Step(mount, fs, op).reply.Err?
  {
    match op
    case WriteOp(ino, fh, offset, data, _) =>
    case ReleaseOp(ino, fh, e) =>
      if OwnBytes(fs, fh) {
        FlushKeepsRows(mount, fs, fs.handles.open[fh].writeBuffer, e);
      }
    case _ =>
      OtherStepsDb(mount, fs, op);
      WedgedDb(fs.db, op);
  }

  /**
   Once a transaction was left open, no run whatever changes what survives: every
   later directory change is refused, and every write, release and symlink that
   is acknowledged is gone after a restart.
   */
  lemma {:induction false} NothingLastsOnceWedged(mount: Mount, fs: Fs, ops: seq<Op>)
    requires fs.db.saved.Some?
    ensures var r := Run(mount, fs, ops);
            && r.fs.db.saved == fs.db.saved
            && Durable(r.fs.db) == Durable(fs.db)
            && |r.replies| == |ops|
            && forall k | 0 <= k < |ops| && NeedsTxn(ops[k]) :: r.replies[k].Err?
    decreases |ops|
  {
    if ops != [] {
      var o := Step(mount, fs, ops[0]);
      WedgedStep(mount, fs, ops[0]);
      NothingLastsOnceWedged(mount, o.fs, ops[1..]);
      var r, rest := Run(mount, fs, ops), Run(mount, o.fs, ops[1..]);
      assert forall k | 0 < k < |ops| :: r.replies[k] == rest.replies[k - 1] && ops[k] == ops[1..][k - 1];
    }
  }

  // ----- What leaves a transaction open -----

  /** An entry may be made as far as the handler can see. */
  ghost predicate SeemsFree(rows: Inodes, parent: Ino, name: string, f: Faults) {
    parent in rows && rows[parent].IsDir() && Seen(rows, parent, name, f.lookup).None?
  }

  /** The statement that ends the transaction of mkdir or create fails. */
  ghost predicate InsertEndsBadly(rows: Inodes, parent: Ino, name: string, f: Faults) {
    if f.insert || f.update || Lookup(rows, parent, name).Some? then f.rollback else f.commit
  }

  predicate RemoveEndsBadly(f: Faults) {
    if f.delete then f.rollback else f.commit
  }

  /**
   The request begins a transaction that it does not end: a rename onto a non-empty
   directory, or one whose COMMIT or ROLLBACK, whichever it comes to, fails.
   */
  ghost predicate LeavesOpen(db: Db, op: Op) {
    var rows := db.tables.inodes;
    db.saved.None? &&
    match op
    case MkdirOp(parent, name, f) => SeemsFree(rows, parent, name, f) && InsertEndsBadly(rows, parent, name, f)
    case CreateOp(parent, name, f) => SeemsFree(rows, parent, name, f) && InsertEndsBadly(rows, parent, name, f)
    case UnlinkOp(parent, name, f) => FindsFile(rows, parent, name) && RemoveEndsBadly(f)
    case RmdirOp(parent, name, f) => FindsEmptyDir(rows, parent, name) && RemoveEndsBadly(f)
    case RenameOp(parent, name, np, newName, f) =>
      var target := Seen(rows, np, newName, f.lookup);
      && Lookup(rows, parent, name).Some?
      && ((target.Some? && target.value.IsDir() && target.value.children != []) || f.commit)
    case _ => false
  }

  lemma InsertLeavesOpen(db: Db, node: Inode, parent: Ino, subdir: bool, f: Faults)
    requires SoundRows(db.tables.inodes) && db.saved.None? && parent in db.tables.inodes
             && db.tables.inodes[parent].IsDir()
    requires node.ino == NextIno(db.tables.inodes.Keys) && node.parent == parent && Blank(node)
    ensures InsertTxn(db, node, Adopt(db.tables.inodes[parent], node.ino, subdir), f).db.saved.Some?
            <==> InsertEndsBadly(db.tables.inodes, parent, node.name, f)
  {
    var rows, p' := db.tables.inodes, Adopt(db.tables.inodes[parent], node.ino, subdir);
    if Lookup(rows, parent, node.name).Some? {
      TakenTxnOutcome(db, node, p', f);
    } else {
      NewNameIsFree(rows, node);
      ParentStaysFree(rows, rows[node.ino := node], node, p');
    }
  }

  lemma MakeLeavesOpen(db: Db, parent: Ino, name: string, f: Faults)
    requires SoundRows(db.tables.inodes) && db.saved.None?
    ensures Mkdir(db, parent, name, f).db.saved.Some? <==> LeavesOpen(db, MkdirOp(parent, name, f))
    ensures CreateNode(db, parent, name, f).db.saved.Some? <==> LeavesOpen(db, CreateOp(parent, name, f))
  {
    var rows := db.tables.inodes;
    if parent in rows && rows[parent].IsDir() {
      var ino := NextIno(rows.Keys);
      InsertLeavesOpen(db, NewDir(ino, parent, name), parent, true, f);
      InsertLeavesOpen(db, NewFile(ino, parent, name), parent, false, f);
    }
  }

  lemma RemoveLeavesOpen(db: Db, parent: Ino, x: Ino, unlink: bool, f: Faults)
    requires db.saved.None?
    ensures RemoveTxn(db, parent, x, unlink, f).db.saved.Some? <==> RemoveEndsBadly(f)
  {
  }

  /** Changes of rows neither open nor close a transaction. */
  lemma RewritesKeepSaved(db: Db, e: Ino, inode: Inode, parent: Ino, np: Ino, newName: string, f: RenameFaults)
    ensures Displace(db, e, np, f).saved == db.saved && Reparent(db, inode, parent, np, newName, f).saved == db.saved
  {
    var o := Detach(db, parent, inode.ino, inode.IsDir(), f.oldParent);
    assert o.saved == db.saved;
    var m := UpdateInode(o, inode.(name := newName, parent := np), f.inode).db;
    assert m.saved == o.saved;
  }

  lemma RenameLeavesOpen(db: Db, parent: Ino, name: string, np: Ino, newName: string, f: RenameFaults)
    requires db.saved.None?
    ensures Rename(db, parent, name, np, newName, f).db.saved.Some? <==>
              LeavesOpen(db, RenameOp(parent, name, np, newName, f))
  {
    var source, target := Lookup(db.tables.inodes, parent, name), Seen(db.tables.inodes, np, newName, f.lookup);
    if source.Some? {
      var b := Begin(db).db;
      if target.None? {
        RewritesKeepSaved(b, 0, source.value, parent, np, newName, f);
      } else {
        var d := Displace(b, target.value.ino, np, f);
        RewritesKeepSaved(b, target.value.ino, source.value, parent, np, newName, f);
        RewritesKeepSaved(d, target.value.ino, source.value, parent, np, newName, f);
      }
    }
  }

  /** A request leaves a transaction open if and only if it found one open, or is one of these. */
  lemma {:induction false} WhatLeavesItOpen(db: Db, op: Op)
    requires SoundRows(db.tables.inodes)
    ensures DbStep(db, op).db.saved.Some? <==> db.saved.Some? || LeavesOpen(db, op)
  {
    if db.saved.Some? {
      WedgedDb(db, op);
    } else {
      match op
      case MkdirOp(parent, name, f) => MakeLeavesOpen(db, parent, name, f);
      case CreateOp(parent, name, f) => MakeLeavesOpen(db, parent, name, f);
      case UnlinkOp(parent, name, f) =>
        if FindsFile(db.tables.inodes, parent, name) {
          RemoveLeavesOpen(db, parent, Lookup(db.tables.inodes, parent, name).value.ino, false, f);
        }
      case RmdirOp(parent, name, f) =>
        if FindsEmptyDir(db.tables.inodes, parent, name) {
          RemoveLeavesOpen(db, parent, Lookup(db.tables.inodes, parent, name).value.ino, true, f);
        }
      case RenameOp(parent, name, np, newName, f) => RenameLeavesOpen(db, parent, name, np, newName, f);
      case _ =>
    }
  }

  ghost predicate LeavesOpenSomewhere(mount: Mount, fs: Fs, ops: seq<Op>)
    decreases |ops|
  {
    ops != [] && (LeavesOpen(fs.db, ops[0]) || LeavesOpenSomewhere(mount, Step(mount, fs, ops[0]).fs, ops[1..]))
  }

  lemma StepLeavesOpenIff(mount: Mount, fs: Fs, op: Op)
    requires SoundRows(fs.db.tables.inodes)
    ensures Step(mount, fs, op).fs.db.saved.Some? <==> fs.db.saved.Some? || LeavesOpen(fs.db, op)
  {
    match op
    case WriteOp(_, _, _, _, _) =>
    case ReleaseOp(ino, fh, e) =>
      if OwnBytes(fs, fh) {
        FlushKeepsRows(mount, fs, fs.handles.open[fh].writeBuffer, e);
      }
    case _ =>
      OtherStepsDb(mount, fs, op);
      WhatLeavesItOpen(fs.db, op);
  }

  /** A run ends with a transaction open if and only if it began so or one of its requests left one open. */
  lemma {:induction false} RunLeavesOpenIff(mount: Mount, fs: Fs, ops: seq<Op>)
    requires SoundRows(fs.db.tables.inodes)
    ensures Run(mount, fs, ops).fs.db.saved.Some? <==> fs.db.saved.Some? || LeavesOpenSomewhere(mount, fs, ops)
    decreases |ops|
  {
    if ops != [] {
      StepLeavesOpenIff(mount, fs, ops[0]);
      StepKeepsSound(mount, fs, ops[0]);
      RunLeavesOpenIff(mount, Step(mount, fs, ops[0]).fs, ops[1..]);
    }
  }

  // ----- Errors -----

  lemma InsertError(db: Db, node: Inode, p': Inode, f: Faults)
    requires InsertTxn(db, node, p', f).result.Err?
    ensures Durable(InsertTxn(db, node, p', f).db) == Durable(db)
  {
  }

  lemma MakeError(db: Db, parent: Ino, name: string, f: Faults)
    ensures Mkdir(db, parent, name, f).result.Err? ==> Durable(Mkdir(db, parent, name, f).db) == Durable(db)
    ensures CreateNode(db, parent, name, f).result.Err? ==> Durable(CreateNode(db, parent, name, f).db) == Durable(db)
  {
    if parent in db.tables.inodes {
      var p, ino := db.tables.inodes[parent], NextIno(db.tables.inodes.Keys);
      if InsertTxn(db, NewDir(ino, parent, name), Adopt(p, ino, true), f).result.Err? {
        InsertError(db, NewDir(ino, parent, name), Adopt(p, ino, true), f);
      }
      if InsertTxn(db, NewFile(ino, parent, name), Adopt(p, ino, false), f).result.Err? {
        InsertError(db, NewFile(ino, parent, name), Adopt(p, ino, false), f);
      }
    }
  }

  lemma RemoveError(db: Db, parent: Ino, name: string, f: Faults)
    ensures Unlink(db, parent, name, f).result.Err? ==> Durable(Unlink(db, parent, name, f).db) == Durable(db)
    ensures Rmdir(db, parent, name, f).result.Err? ==> Durable(Rmdir(db, parent, name, f).db) == Durable(db)
  {
  }

  /** In every state, an error is never followed by a lasting change, whichever statements failed. */
  lemma ErrorsLeaveNothing(db: Db, op: Op)
    requires DbStep(db, op).result.Err?
    ensures Durable(DbStep(db, op).db) == Durable(db)
  {
    match op
    case MkdirOp(parent, name, f) => MakeError(db, parent, name, f);
    case CreateOp(parent, name, f) => MakeError(db, parent, name, f);
    case SymlinkOp(parent, name, target, f) =>
      if parent in db.tables.inodes {
        assert MakeSymlink(db, parent, name, target, f).db == db;
      }
    case UnlinkOp(parent, name, f) => RemoveError(db, parent, name, f);
    case RmdirOp(parent, name, f) => RemoveError(db, parent, name, f);
    case _ =>
  }
}
