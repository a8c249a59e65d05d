/** Over whole runs: the rows stay a tree for exactly as long as every request is harmless. */
module TreeRuns {
  import opened Stores
  import opened Trees
  import opened FileSystem
  import opened NamespaceRefinement
  import opened FsRefinement
  import opened TreeBoundaries
  import opened RenameBoundaries

  /** The kernel names directories by their inode numbers, which are never 0. */
  predicate Addressed(op: Op) {
    && (op.UnlinkOp? ==> op.parent != 0)
    && (op.RmdirOp? ==> op.parent != 0)
    && (op.RenameOp? ==> op.parent != 0)
  }

  /** The request, with the statements it finds failing, does not break the tree it finds. */
  ghost predicate Harmless(db: Db, op: Op) {
    match op
    case MkdirOp(parent, name, f) => !InsertBreaks(db, parent, name, f)
    case CreateOp(parent, name, f) => !InsertBreaks(db, parent, name, f)
    case SymlinkOp(parent, name, _, f) => !(f.update && !f.insert && FreeName(db.tables.inodes, parent, name))
    case UnlinkOp(parent, name, f) =>
      !(db.saved.None? && FindsFile(db.tables.inodes, parent, name) && !RemoveSurvives(f))
    case RmdirOp(parent, name, f) =>
      !(db.saved.None? && FindsEmptyDir(db.tables.inodes, parent, name) && !RemoveSurvives(f))
    case RenameOp(parent, name, np, newName, f) =>
      || Refused(db, parent, name, np, newName, f)
      || Survives(db.tables.inodes, Lookup(db.tables.inodes, parent, name).value.ino, parent, np, newName, f)
    case _ => true
  }

  lemma InsertsKeepTreeIff(db: Db, op: Op)
    requires Tree(db.tables.inodes) && (op.MkdirOp? || op.CreateOp? || op.SymlinkOp?)
    ensures Tree(DbStep(db, op).db.tables.inodes) <==> Harmless(db, op)
  {
    match op
    case MkdirOp(parent, name, f) => MakeKeepsTreeIff(db, parent, name, f);
    case CreateOp(parent, name, f) => MakeKeepsTreeIff(db, parent, name, f);
    case SymlinkOp(parent, name, target, f) => SymlinkKeepsTreeIff(db, parent, name, target, f);
  }

  lemma RemovalsKeepTreeIff(db: Db, op: Op)
    requires Tree(db.tables.inodes) && Addressed(op) && (op.UnlinkOp? || op.RmdirOp?)
    ensures Tree(DbStep(db, op).db.tables.inodes) <==> Harmless(db, op)
  {
    RemoveKeepsTreeIff(db, op.parent, op.name, op.faults);
  }

  lemma DbStepKeepsTreeIff(db: Db, op: Op)
    requires Tree(db.tables.inodes) && Addressed(op)
    ensures Tree(DbStep(db, op).db.tables.inodes) <==> Harmless(db, op)
  {
    if op.MkdirOp? || op.CreateOp? || op.SymlinkOp? {
      InsertsKeepTreeIff(db, op);
    } else if op.UnlinkOp? || op.RmdirOp? {
      RemovalsKeepTreeIff(db, op);
    } else if op.RenameOp? {
      RenameKeepsTreeIff(db, op.parent, op.name, op.newParent, op.newName, op.renameFaults);
    } else {
      assert DbStep(db, op).db == db;
    }
  }

  /** One request or link event leaves a tree if and only if it is harmless. */
  lemma StepKeepsTreeIff(mount: Mount, fs: Fs, op: Op)
    requires Tree(fs.db.tables.inodes) && Addressed(op)
    ensures Tree(Step(mount, fs, op).fs.db.tables.inodes) <==> Harmless(fs.db, op)
  {
    if op.WriteOp? || op.ReleaseOp? {
      StepKeepsTree(mount, fs, op);
    } else {
      OtherStepsDb(mount, fs, op);
      DbStepKeepsTreeIff(fs.db, op);
    }
  }

  ghost predicate AlwaysATree(mount: Mount, fs: Fs, ops: seq<Op>)
    decreases |ops|
  {
    Tree(fs.db.tables.inodes) && (ops == [] || AlwaysATree(mount, Step(mount, fs, ops[0]).fs, ops[1..]))
  }

  ghost predicate AllHarmless(mount: Mount, fs: Fs, ops: seq<Op>)
    decreases |ops|
  {
    ops == [] || (Harmless(fs.db, ops[0]) && AllHarmless(mount, Step(mount, fs, ops[0]).fs, ops[1..]))
  }

  /** The rows are a tree in every state of a run if and only if every request of the run is harmless where it comes. */
  lemma {:induction false} AlwaysATreeIff(mount: Mount, fs: Fs, ops: seq<Op>)
    requires Tree(fs.db.tables.inodes) && forall k | 0 <= k < |ops| :: Addressed(ops[k])
    ensures AlwaysATree(mount, fs, ops) <==> AllHarmless(mount, fs, ops)
    decreases |ops|
  {
    if ops != [] {
      StepKeepsTreeIff(mount, fs, ops[0]);
      var fs' := Step(mount, fs, ops[0]).fs;
      if Tree(fs'.db.tables.inodes) {
        AlwaysATreeIff(mount, fs', ops[1..]);
      }
    }
  }
}
