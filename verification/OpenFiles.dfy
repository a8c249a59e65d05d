/**
 Open handles and the inode numbers they carry: which requests take a number away from
 under a handle, when it is handed out again, and what a handle writes to meanwhile.
 */
module OpenFiles {
  import opened Wrappers
  import opened Content
  import opened Stores
  import opened Namespace
  import opened FileSystem
  import opened AbstractFs
  import opened NamespaceRefinement
  import opened DataRefinement
  import opened FsRefinement
  import opened DataBoundaries
  import opened TreeBoundaries
  import opened RefCounts
  import opened Unconditional

  /** The inode of every open handle is there. */
  ghost predicate Current(fs: Fs) {
    forall fh | fh in fs.handles.open :: fs.handles.open[fh].ino in fs.db.tables.inodes
  }

  ghost predicate Carried(fs: Fs, ino: Ino) {
    exists fh | fh in fs.handles.open :: fs.handles.open[fh].ino == ino
  }

  // ----- Which row a request deletes -----

  /** The one inode that the request deletes: what it unlinks or removes, or the destination it renames over. */
  ghost function Victim(db: Db, op: Op): Option<Ino> {
    var rows := db.tables.inodes;
    if db.saved.Some? then None
    else
      match op
      case UnlinkOp(parent, name, f) =>
        if FindsFile(rows, parent, name) && !f.delete then Some(Lookup(rows, parent, name).value.ino) else None
      case RmdirOp(parent, name, f) =>
        if FindsEmptyDir(rows, parent, name) && !f.delete then Some(Lookup(rows, parent, name).value.ino) else None
      case RenameOp(parent, name, np, newName, f) =>
        var target := Seen(rows, np, newName, f.lookup);
        if Lookup(rows, parent, name).Some? && target.Some? && !f.delete
          && (target.value.IsDir() ==> target.value.children == [])
        then Some(target.value.ino) else None
      case _ => None
  }

  lemma RemoveTakes(db: Db, parent: Ino, x: Ino, unlink: bool, f: Faults)
    requires SoundRows(db.tables.inodes) && db.saved.None?
    ensures RemoveTxn(db, parent, x, unlink, f).db.tables.inodes.Keys
            == db.tables.inodes.Keys - (if f.delete then {} else {x})
  {
    DetachKeepsBytes(Begin(db).db, parent, x, unlink, f.update);
  }

  lemma RenameTakes(db: Db, parent: Ino, name: string, np: Ino, newName: string, f: RenameFaults)
    requires SoundRows(db.tables.inodes) && db.saved.None?
    ensures var victim := Victim(db, RenameOp(parent, name, np, newName, f));
            Rename(db, parent, name, np, newName, f).db.tables.inodes.Keys
            == db.tables.inodes.Keys - (if victim.Some? then {victim.value} else {})
  {
    ResolveMatches(db.tables.inodes, parent, name);
    var source, target := Lookup(db.tables.inodes, parent, name), Seen(db.tables.inodes, np, newName, f.lookup);
    if source.Some? {
      var b := Begin(db).db;
      if target.None? {
        ReparentKeepsBytes(b, source.value, parent, np, newName, f);
      } else if !(target.value.IsDir() && target.value.children != []) {
        ReplacingTakes(b, source.value, target.value.ino, parent, np, newName, f);
      }
    }
  }

  lemma ReplacingTakes(b: Db, source: Inode, e: Ino, parent: Ino, np: Ino, newName: string, f: RenameFaults)
    requires SoundRows(b.tables.inodes) && SameBytes(b.tables.inodes, source)
    ensures Reparent(Displace(b, e, np, f), source, parent, np, newName, f).tables.inodes.Keys
            == b.tables.inodes.Keys - (if f.delete then {} else {e})
  {
    DisplaceTakes(b, e, np, f);
    ReparentKeepsBytes(Displace(b, e, np, f), source, parent, np, newName, f);
  }

  lemma DisplaceTakes(b: Db, e: Ino, np: Ino, f: RenameFaults)
    requires SoundRows(b.tables.inodes)
    ensures Displace(b, e, np, f).tables.inodes.Keys == b.tables.inodes.Keys - (if f.delete then {} else {e})
    ensures KeepsBytes(b, Displace(b, e, np, f))
  {
    DisplaceKeepsBytes(b, e, np, f);
    DeleteKeepsBytes(b, e, f.delete);
    DetachKeepsBytes(DeleteInode(b, e, f.delete).db, np, e, false, f.displaced);
  }

  lemma InsertTakesNothing(db: Db, node: Inode, p': Inode, f: Faults)
    ensures var t := InsertTxn(db, node, p', f);
            && db.tables.inodes.Keys <= t.db.tables.inodes.Keys
            && (t.result.Entry? ==> t.result.ino == node.ino && node.ino in t.db.tables.inodes)
    ensures var t := InsertBare(db, node, p', f);
            && db.tables.inodes.Keys <= t.db.tables.inodes.Keys
            && (t.result.Entry? ==> t.result.ino == node.ino && node.ino in t.db.tables.inodes)
  {
  }

  /** Rows are only added, and a new entry is the row of the next number. */
  ghost predicate OnlyAdds(db: Db, t: Effect<Reply>) {
    && db.tables.inodes.Keys <= t.db.tables.inodes.Keys
    && (t.result.Entry? ==> t.result.ino == NextIno(db.tables.inodes.Keys) && t.result.ino in t.db.tables.inodes)
  }

  lemma MkdirOnlyAdds(db: Db, parent: Ino, name: string, f: Faults)
    ensures OnlyAdds(db, Mkdir(db, parent, name, f))
  {
    if parent in db.tables.inodes {
      var ino := NextIno(db.tables.inodes.Keys);
      InsertTakesNothing(db, NewDir(ino, parent, name), Adopt(db.tables.inodes[parent], ino, true), f);
    }
  }

  lemma CreateOnlyAdds(db: Db, parent: Ino, name: string, f: Faults)
    ensures OnlyAdds(db, CreateNode(db, parent, name, f))
  {
    if parent in db.tables.inodes {
      var ino := NextIno(db.tables.inodes.Keys);
      InsertTakesNothing(db, NewFile(ino, parent, name), Adopt(db.tables.inodes[parent], ino, false), f);
    }
  }

  lemma SymlinkOnlyAdds(db: Db, parent: Ino, name: string, target: string, f: Faults)
    ensures OnlyAdds(db, MakeSymlink(db, parent, name, target, f))
  {
    if parent in db.tables.inodes {
      var ino := NextIno(db.tables.inodes.Keys);
      InsertTakesNothing(db, NewSymlink(ino, parent, name, target), Adopt(db.tables.inodes[parent], ino, false), f);
    }
  }

  lemma MakeTakesNothing(db: Db, op: Op)
    requires op.MkdirOp? || op.CreateOp? || op.SymlinkOp? || op.InitOp?
    ensures OnlyAdds(db, DbStep(db, op))
  {
    match op
    case MkdirOp(parent, name, f) => MkdirOnlyAdds(db, parent, name, f);
    case CreateOp(parent, name, f) => CreateOnlyAdds(db, parent, name, f);
    case SymlinkOp(parent, name, target, f) => SymlinkOnlyAdds(db, parent, name, target, f);
    case InitOp(_) =>
  }

  /** A request deletes its victim and no other inode. */
  lemma OnlyTheVictimGoes(db: Db, op: Op)
    requires SoundRows(db.tables.inodes)
    ensures forall i | i in db.tables.inodes :: i in DbStep(db, op).db.tables.inodes <==> Victim(db, op) != Some(i)
  {
    if db.saved.None? || op.InitOp? || op.SymlinkOp? {
      match op
      case UnlinkOp(parent, name, f) =>
        if FindsFile(db.tables.inodes, parent, name) {
          RemoveTakes(db, parent, Lookup(db.tables.inodes, parent, name).value.ino, false, f);
        }
      case RmdirOp(parent, name, f) =>
        if FindsEmptyDir(db.tables.inodes, parent, name) {
          RemoveTakes(db, parent, Lookup(db.tables.inodes, parent, name).value.ino, true, f);
        }
      case RenameOp(parent, name, np, newName, f) => RenameTakes(db, parent, name, np, newName, f);
      case MkdirOp(_, _, _) => MakeTakesNothing(db, op);
      case CreateOp(_, _, _) => MakeTakesNothing(db, op);
      case SymlinkOp(_, _, _, _) => MakeTakesNothing(db, op);
      case InitOp(_) => MakeTakesNothing(db, op);
      case _ =>
    }
  }

  // ----- Handles that lose their inode -----

  /** The request unlinks, removes or renames over an inode that an open handle carries. */
  ghost predicate Strands(fs: Fs, op: Op) {
    Victim(fs.db, op).Some? && Carried(fs, Victim(fs.db, op).value)
  }

  lemma NamesKeepCurrentIff(mount: Mount, fs: Fs, op: Op)
    requires SoundRows(fs.db.tables.inodes) && Current(fs) && !op.WriteOp? && !op.ReleaseOp? && !op.CreateOp?
             && !op.OpenOp?
    ensures Current(Step(mount, fs, op).fs) <==> !Strands(fs, op)
  {
    var fs' := Step(mount, fs, op).fs;
    OtherStepsDb(mount, fs, op);
    OnlyTheVictimGoes(fs.db, op);
    assert fs'.handles == fs.handles;
    if Strands(fs, op) {
      var fh :| fh in fs.handles.open && fs.handles.open[fh].ino == Victim(fs.db, op).value;
      assert fs'.handles.open[fh].ino !in fs'.db.tables.inodes;
    }
  }

  lemma OpeningKeepsCurrent(mount: Mount, fs: Fs, op: Op)
    requires SoundRows(fs.db.tables.inodes) && Current(fs) && (op.CreateOp? || op.OpenOp?)
    ensures Current(Step(mount, fs, op).fs)
  {
    if op.CreateOp? {
      MakeTakesNothing(fs.db, op);
      OtherStepsDb(mount, fs, op);
    }
  }

  lemma WriteKeepsRows(mount: Mount, fs: Fs, op: Op)
    requires SoundRows(fs.db.tables.inodes) && op.WriteOp?
    ensures Step(mount, fs, op).fs.db.tables.inodes.Keys == fs.db.tables.inodes.Keys
  {
    if op.fh in fs.handles.open && op.ino in fs.db.tables.inodes && !op.fails {
      ResizeOutcome(fs.db, op.ino, |Overlay(fs.handles.open[op.fh].writeBuffer, op.offset, op.data)|);
    }
  }

  /** Handles keep their inodes; a release takes one handle away. */
  lemma ContentHandles(mount: Mount, fs: Fs, op: Op)
    requires op.WriteOp? || op.ReleaseOp?
    ensures var h := Step(mount, fs, op).fs.handles.open;
            forall fh | fh in h :: fh in fs.handles.open && h[fh].ino == fs.handles.open[fh].ino
  {
  }

  lemma ContentKeepsCurrent(mount: Mount, fs: Fs, op: Op)
    requires SoundRows(fs.db.tables.inodes) && Current(fs) && (op.WriteOp? || op.ReleaseOp?)
    ensures Current(Step(mount, fs, op).fs)
  {
    ContentHandles(mount, fs, op);
    if op.ReleaseOp? {
      ReleaseTables(mount, fs, op);
    } else {
      WriteKeepsRows(mount, fs, op);
    }
  }

  /** A request leaves all handles on inodes that are there if and only if it strands none. */
  lemma StepKeepsCurrentIff(mount: Mount, fs: Fs, op: Op)
    requires SoundRows(fs.db.tables.inodes) && Current(fs)
    ensures Current(Step(mount, fs, op).fs) <==> !Strands(fs, op)
  {
    if op.WriteOp? || op.ReleaseOp? {
      ContentKeepsCurrent(mount, fs, op);
    } else if op.CreateOp? || op.OpenOp? {
      OpeningKeepsCurrent(mount, fs, op);
    } else {
      NamesKeepCurrentIff(mount, fs, op);
    }
  }

  // ----- Numbers that are handed out again -----

  /**
   A new entry gets the number of an open handle if and only if some handle carries the
   next number, one more than the highest in use; if all handles are current, it never does.
   */
  lemma NumberIsReusedIff(mount: Mount, fs: Fs, op: Op)
    requires SoundRows(fs.db.tables.inodes) && (op.MkdirOp? || op.CreateOp? || op.SymlinkOp?)
    requires var reply := Step(mount, fs, op).reply; reply.Entry? || reply.Created?
    ensures Carried(fs, Step(mount, fs, op).reply.ino) <==> Carried(fs, NextIno(fs.db.tables.inodes.Keys))
    ensures Current(fs) ==> !Carried(fs, Step(mount, fs, op).reply.ino)
  {
    MakeTakesNothing(fs.db, op);
    OtherStepsDb(mount, fs, op);
  }

  /**
   If a stranded handle with bytes carries the next number, the next file created gets
   that number, begins empty, and holds the handle's bytes when the handle is closed.
   */
  lemma StrandedHandleWritesNewFile(mount: Mount, fs: Fs, parent: Ino, name: string, f: Faults, fh: nat, e: FlushEvents)
    requires Inv(mount, fs) && InsertSurvives(f) && OwnBytes(fs, fh)
    requires fs.handles.open[fh].ino == NextIno(fs.db.tables.inodes.Keys)
    requires Step(mount, fs, CreateOp(parent, name, f)).reply.Created?
    requires CanFlush(Step(mount, fs, CreateOp(parent, name, f)).fs, fs.handles.open[fh].writeBuffer, e) && !e.update
    ensures var i, data := fs.handles.open[fh].ino, fs.handles.open[fh].writeBuffer;
            var made := Step(mount, fs, CreateOp(parent, name, f));
            var closed := Release(mount, made.fs, i, fh, e);
            && made.reply.ino == i && closed.reply == Ok
            && i in Abstract(made.fs).files && Abstract(made.fs).files[i] == []
            && i in Abstract(closed.fs).files && Abstract(closed.fs).files[i] == data
  {
    var create := CreateOp(parent, name, f);
    var made := Step(mount, fs, create);
    MadeOverOldHandle(mount, fs, create, made, fh);
    ClosingWrites(mount, made.fs, made.reply.ino, fh, e);
  }

  lemma MadeOverOldHandle(mount: Mount, fs: Fs, op: Op, made: Outcome, fh: nat)
    requires Inv(mount, fs) && op.CreateOp? && InsertSurvives(op.faults) && OwnBytes(fs, fh)
    requires made == Step(mount, fs, op) && made.reply.Created?
    ensures made.reply.ino == NextIno(fs.db.tables.inodes.Keys) && Inv(mount, made.fs)
    ensures made.reply.ino in Abstract(made.fs).files && Abstract(made.fs).files[made.reply.ino] == []
    ensures fh in made.fs.handles.open && made.fs.handles.open[fh].ino == fs.handles.open[fh].ino
    ensures made.fs.handles.open[fh].writeBuffer == fs.handles.open[fh].writeBuffer
  {
    StepRefines(mount, fs, op);
    assert NodesOf(fs.db.tables.inodes).Keys == fs.db.tables.inodes.Keys;
    NewFileIsEmpty(Abstract(fs), op, fh);
    var h := fs.handles.open[fh];
    assert BuffersOf(fs.handles)[fh] == Buffer(h.ino, h.writeBuffer) == BuffersOf(made.fs.handles)[fh];
  }

  lemma ClosingWrites(mount: Mount, fs: Fs, i: Ino, fh: nat, e: FlushEvents)
    requires Inv(mount, fs) && OwnBytes(fs, fh) && fs.handles.open[fh].ino == i && i in Abstract(fs).files
    requires Records(fs, fh, e)
    ensures var closed := Release(mount, fs, i, fh, e);
            && closed.reply == Ok
            && i in Abstract(closed.fs).files && Abstract(closed.fs).files[i] == fs.handles.open[fh].writeBuffer
  {
    GoodRelease(mount, fs, i, fh, e);
    BufferOf(fs, fh);
    ReleasedFile(Abstract(fs), i, fh, fs.handles.open[fh].writeBuffer);
  }

  lemma BufferOf(fs: Fs, fh: nat)
    requires OwnBytes(fs, fh)
    ensures var a := Abstract(fs);
            fh in a.buffers && a.buffers[fh] == Buffer(fs.handles.open[fh].ino, fs.handles.open[fh].writeBuffer)
  {
  }

  lemma ReleasedFile(a: Abs, i: Ino, fh: nat, data: Data)
    requires fh in a.buffers && a.buffers[fh] == Buffer(i, data) && data != [] && i in a.files
    ensures var files := AbsRelease(a, i, fh).files; i in files && files[i] == data
  {
  }

  lemma NewFileIsEmpty(a: Abs, op: Op, fh: nat)
    requires op.CreateOp? && AbsStep(a, op).reply.Created? && a.files.Keys <= a.space.nodes.Keys
    requires fh in a.buffers && fh < a.nextFh
    ensures var o := AbsStep(a, op);
            && o.reply.ino == NextIno(a.space.nodes.Keys)
            && o.reply.ino in o.abs.files && o.abs.files[o.reply.ino] == []
            && fh in o.abs.buffers && o.abs.buffers[fh] == a.buffers[fh]
  {
  }

  // ----- What a handle stays on -----

  ghost predicate StaysCurrent(mount: Mount, fs: Fs, ops: seq<Op>)
    decreases |ops|
  {
    Current(fs) && (ops == [] || StaysCurrent(mount, Step(mount, fs, ops[0]).fs, ops[1..]))
  }

  ghost predicate NeverStrands(mount: Mount, fs: Fs, ops: seq<Op>)
    decreases |ops|
  {
    ops == [] || (!Strands(fs, ops[0]) && NeverStrands(mount, Step(mount, fs, ops[0]).fs, ops[1..]))
  }

  lemma {:induction false} StaysCurrentIff(mount: Mount, fs: Fs, ops: seq<Op>)
    requires SoundRows(fs.db.tables.inodes) && Current(fs)
    ensures StaysCurrent(mount, fs, ops) <==> NeverStrands(mount, fs, ops)
    decreases |ops|
  {
    if ops != [] {
      StepKeepsCurrentIff(mount, fs, ops[0]);
      StepKeepsSound(mount, fs, ops[0]);
      var fs' := Step(mount, fs, ops[0]).fs;
      if Current(fs') {
        StaysCurrentIff(mount, fs', ops[1..]);
      }
    }
  }

  /** The inode is there in every state of the run, so that its number was not given to another. */
  ghost predicate AlwaysThere(mount: Mount, fs: Fs, ops: seq<Op>, i: Ino)
    decreases |ops|
  {
    i in fs.db.tables.inodes && (ops == [] || AlwaysThere(mount, Step(mount, fs, ops[0]).fs, ops[1..], i))
  }

  predicate NotReleased(ops: seq<Op>, fh: nat) {
    forall k | 0 <= k < |ops| :: !(ops[k].ReleaseOp? && ops[k].fh == fh)
  }

  /** New handles get new numbers, and only a release takes one away. */
  lemma HandleStays(mount: Mount, fs: Fs, op: Op, fh: nat)
    requires HandlesSound(fs.handles) && fh in fs.handles.open && !(op.ReleaseOp? && op.fh == fh)
    ensures var h := Step(mount, fs, op).fs.handles;
            fh in h.open && h.open[fh].ino == fs.handles.open[fh].ino && HandlesSound(h)
  {
  }

  lemma {:induction false} HandleStaysOnItsFile(mount: Mount, fs: Fs, ops: seq<Op>, fh: nat)
    requires StaysCurrent(mount, fs, ops) && HandlesSound(fs.handles) && fh in fs.handles.open && NotReleased(ops, fh)
    ensures AlwaysThere(mount, fs, ops, fs.handles.open[fh].ino)
    ensures var h := Run(mount, fs, ops).fs.handles;
            fh in h.open && h.open[fh].ino == fs.handles.open[fh].ino
    decreases |ops|
  {
    if ops != [] {
      HandleStays(mount, fs, ops[0], fh);
      assert forall k | 0 <= k < |ops[1..]| :: ops[1..][k] == ops[k + 1];
      HandleStaysOnItsFile(mount, Step(mount, fs, ops[0]).fs, ops[1..], fh);
    }
  }

  /** A release changes no row but that of the inode it names. */
  lemma ReleaseChangesOneRow(mount: Mount, fs: Fs, op: Op)
    requires SoundRows(fs.db.tables.inodes) && op.ReleaseOp?
    ensures var rows, rows' := fs.db.tables.inodes, Step(mount, fs, op).fs.db.tables.inodes;
            rows'.Keys == rows.Keys && forall j | j in rows && j != op.ino :: rows'[j] == rows[j]
  {
    ReleaseTables(mount, fs, op);
  }

  /**
   Over any run in which every handle stays current, a handle open all along is still on
   the inode it was opened on, which was there all the time; and its release, whatever
   becomes of the flush, changes the row of no other inode.
   */
  lemma ReleaseChangesItsRow(mount: Mount, fs: Fs, ops: seq<Op>, fh: nat, e: FlushEvents)
    requires SoundRows(fs.db.tables.inodes) && HandlesSound(fs.handles) && StaysCurrent(mount, fs, ops)
    requires fh in fs.handles.open && NotReleased(ops, fh)
    ensures var i, last := fs.handles.open[fh].ino, Run(mount, fs, ops).fs;
            var rows, rows' := last.db.tables.inodes, Step(mount, last, ReleaseOp(i, fh, e)).fs.db.tables.inodes;
            && AlwaysThere(mount, fs, ops, i)
            && fh in last.handles.open && last.handles.open[fh].ino == i
            && rows'.Keys == rows.Keys && forall j | j in rows && j != i :: rows'[j] == rows[j]
  {
    HandleStaysOnItsFile(mount, fs, ops, fh);
    RunKeepsSound(mount, fs, ops);
    ReleaseChangesOneRow(mount, Run(mount, fs, ops).fs, ReleaseOp(fs.handles.open[fh].ino, fh, e));
  }

  /** If the run is allowed besides, the bytes of no other file change. */
  lemma ReleaseChangesItsFile(mount: Mount, fs: Fs, ops: seq<Op>, fh: nat, e: FlushEvents)
    requires Inv(mount, fs) && AllowedRun(mount, fs, ops) && StaysCurrent(mount, fs, ops)
    requires fh in fs.handles.open && NotReleased(ops, fh)
    ensures var i, last := fs.handles.open[fh].ino, Run(mount, fs, ops).fs;
            OtherFilesKept(Abstract(last).files, Abstract(Release(mount, last, i, fh, e).fs).files, i)
  {
    HandleStaysOnItsFile(mount, fs, ops, fh);
    RunRefines(mount, fs, ops);
    ReleaseChangesOneFile(mount, Run(mount, fs, ops).fs, fs.handles.open[fh].ino, fh, e);
  }
}
