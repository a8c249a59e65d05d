/**
 Link counts: in every orderly run a directory has two links and one for each of
 its subdirectories, plus one for every directory that a rename replaced in it.
 */
module Links {
  import opened Wrappers
  import opened Stores
  import opened Namespace
  import opened Trees
  import opened Transports
  import opened FileSystem
  import opened NamespaceRefinement
  import opened FsRefinement

  ghost function Subdirs(rows: Inodes, d: Ino): set<Ino> {
    set i | i in rows && rows[i].parent == d && rows[i].IsDir()
  }

  /** Links of a directory beyond the two of its own and one for each subdirectory. */
  ghost function Surplus(rows: Inodes, d: Ino): int
    requires d in rows
  {
    rows[d].nlink - 2 - |Subdirs(rows, d)|
  }

  ghost predicate NoDeficit(rows: Inodes) {
    forall d | d in rows && rows[d].IsDir() :: Surplus(rows, d) >= 0
  }

  /** No surplus anywhere, and one link for everything that is no directory. */
  ghost predicate LinksExact(rows: Inodes) {
    && (forall d | d in rows && rows[d].IsDir() :: Surplus(rows, d) == 0)
    && forall i | i in rows && !rows[i].IsDir() :: rows[i].nlink == 1
  }

  /** Whatever is no directory keeps its links, and has one when it is new. */
  ghost predicate LeavesKept(rows: Inodes, rows': Inodes) {
    forall i | i in rows' && !rows'[i].IsDir() ::
      if i in rows then !rows[i].IsDir() && rows'[i].nlink == rows[i].nlink else rows'[i].nlink == 1
  }

  /**
   Every directory keeps its surplus, a new one has none, and one directory, if it is not 0,
   gains a link too many.
   */
  ghost predicate SurplusAfter(rows: Inodes, rows': Inodes, raised: Ino) {
    && (raised != 0 ==> raised in rows' && rows'[raised].IsDir())
    && LeavesKept(rows, rows')
    && forall d | d in rows' && rows'[d].IsDir() ::
         && (d in rows ==> rows[d].IsDir())
         && Surplus(rows', d) == (if d in rows then Surplus(rows, d) else 0) + (if d == raised then 1 else 0)
  }

  /** The directory in which a request replaces a directory, or 0. */
  ghost function Raised(db: Db, op: Op): Ino {
    match op
    case RenameOp(parent, name, newParent, newName, _) =>
      var source, target := Lookup(db.tables.inodes, parent, name), Lookup(db.tables.inodes, newParent, newName);
      if db.saved.None? && source.Some? && target.Some? && target.value.IsDir() && target.value.children == [] then
        newParent
      else 0
    case _ => 0
  }

  // ----- Single changes -----

  /** Two sets that differ at most in x. */
  lemma SwapCount(a: set<Ino>, b: set<Ino>, x: Ino)
    requires a - {x} == b - {x}
    ensures |b| == |a| - (if x in a then 1 else 0) + (if x in b then 1 else 0)
  {
    assert a == if x in a then (a - {x}) + {x} else a - {x};
    assert b == if x in b then (b - {x}) + {x} else b - {x};
  }

  lemma GrownSubdirs(rows: Inodes, rows': Inodes, node: Inode, p: Ino, d: Ino)
    requires Keyed(rows) && p in rows && MayJoin(rows, node, Adopt(rows[p], node.ino, node.IsDir()))
    requires Grown(rows, rows', node, Adopt(rows[p], node.ino, node.IsDir()))
    ensures |Subdirs(rows', d)| == |Subdirs(rows, d)| + if d == p && node.IsDir() then 1 else 0
  {
    forall i | i in rows
      ensures rows'[i].parent == rows[i].parent && rows'[i].IsDir() == rows[i].IsDir()
    {
    }
    assert Subdirs(rows', d) - {node.ino} == Subdirs(rows, d) - {node.ino};
    SwapCount(Subdirs(rows, d), Subdirs(rows', d), node.ino);
  }

  lemma GrownLinks(rows: Inodes, rows': Inodes, node: Inode, p: Ino)
    requires Tree(rows) && p in rows && MayJoin(rows, node, Adopt(rows[p], node.ino, node.IsDir()))
    requires Grown(rows, rows', node, Adopt(rows[p], node.ino, node.IsDir()))
    requires node.nlink == if node.IsDir() then 2 else 1
    ensures SurplusAfter(rows, rows', 0)
  {
    NobodyBelow(rows, node.ino);
    assert Subdirs(rows, node.ino) == {} by {
      assert forall i | i in rows :: !ChildOf(rows, i, node.ino);
    }
    forall d | d in rows' && rows'[d].IsDir()
      ensures (d in rows ==> rows[d].IsDir()) && Surplus(rows', d) == if d in rows then Surplus(rows, d) else 0
    {
      GrownSubdirs(rows, rows', node, p, d);
    }
  }

  lemma ShrunkSubdirs(rows: Inodes, rows': Inodes, x: Ino, p: Ino, unlink: bool, d: Ino)
    requires Keyed(rows) && Removable(rows, x, p) && Shrunk(rows, rows', x, Disown(rows[p], x, unlink))
    ensures |Subdirs(rows', d)| == |Subdirs(rows, d)| - if d == p && rows[x].IsDir() then 1 else 0
  {
    forall i | i in rows'
      ensures rows'[i].parent == rows[i].parent && rows'[i].IsDir() == rows[i].IsDir()
    {
    }
    assert Subdirs(rows', d) - {x} == Subdirs(rows, d) - {x};
    SwapCount(Subdirs(rows, d), Subdirs(rows', d), x);
  }

  lemma ShrunkLinks(rows: Inodes, rows': Inodes, x: Ino, p: Ino, unlink: bool)
    requires Tree(rows) && NoDeficit(rows) && Removable(rows, x, p) && rows[p].IsDir() && (unlink ==> rows[x].IsDir())
    requires Shrunk(rows, rows', x, Disown(rows[p], x, unlink))
    ensures SurplusAfter(rows, rows', if rows[x].IsDir() && !unlink then p else 0)
  {
    forall d | d in rows' && rows'[d].IsDir()
      ensures rows[d].IsDir() && Surplus(rows', d)
              == Surplus(rows, d) + if d == p && rows[x].IsDir() && !unlink then 1 else 0
    {
      assert Surplus(rows, d) >= 0;
      ShrunkSubdirs(rows, rows', x, p, unlink, d);
    }
  }

  lemma RehungLinks(rows: Inodes, rows': Inodes, x: Ino, p: Ino, np: Ino, newName: string)
    requires Tree(rows) && NoDeficit(rows) && MayMove(rows, x, p, np, newName) && rows[p].IsDir()
    requires Rehung(rows, rows', x, p, np, newName)
    ensures SurplusAfter(rows, rows', 0)
  {
    RehungKinds(rows, rows', x, p, np, newName);
    forall d | d in rows' && rows'[d].IsDir()
      ensures Surplus(rows', d) == Surplus(rows, d)
    {
      RehungSubdirs(rows, rows', x, p, np, newName, d);
      assert Surplus(rows, d) >= 0;
      if d != x {
        assert rows'[d] == RehungRow(rows, x, p, np, d);
      }
    }
  }

  lemma RehungKinds(rows: Inodes, rows': Inodes, x: Ino, p: Ino, np: Ino, newName: string)
    requires Rehung(rows, rows', x, p, np, newName)
    ensures forall i | i in rows ::
              rows'[i].IsDir() == rows[i].IsDir() && (i != x ==> rows'[i].parent == rows[i].parent)
  {
  }

  lemma RehungSubdirs(rows: Inodes, rows': Inodes, x: Ino, p: Ino, np: Ino, newName: string, d: Ino)
    requires MayMove(rows, x, p, np, newName) && Rehung(rows, rows', x, p, np, newName) && d in rows
    ensures |Subdirs(rows', d)|
            == |Subdirs(rows, d)| - (if d == p && rows[x].IsDir() then 1 else 0)
              + (if d == np && rows[x].IsDir() then 1 else 0)
    ensures rows[x].IsDir() && d == p ==> |Subdirs(rows, d)| > 0
  {
    RehungKinds(rows, rows', x, p, np, newName);
    assert Subdirs(rows', d) - {x} == Subdirs(rows, d) - {x};
    SwapCount(Subdirs(rows, d), Subdirs(rows', d), x);
    assert x in Subdirs(rows, d) <==> d == p && rows[x].IsDir();
    assert x in Subdirs(rows', d) <==> d == np && rows[x].IsDir();
  }

  lemma ShapeLinks(rows: Inodes, rows': Inodes)
    requires SameShape(rows, rows') && 0 !in rows
    ensures SurplusAfter(rows, rows', 0)
  {
    forall i | i in rows
      ensures rows'[i].parent == rows[i].parent && rows'[i].IsDir() == rows[i].IsDir()
              && rows'[i].nlink == rows[i].nlink
    {
    }
    forall d | d in rows
      ensures Subdirs(rows', d) == Subdirs(rows, d)
    {
    }
  }

  // ----- Requests -----

  lemma InsertLinks(db: Db, node: Inode, p: Ino, f: Faults)
    requires Tree(db.tables.inodes) && p in db.tables.inodes && node.nlink == (if node.IsDir() then 2 else 1)
    requires MayJoin(db.tables.inodes, node, Adopt(db.tables.inodes[p], node.ino, node.IsDir())) && InsertSurvives(f)
    ensures SurplusAfter(db.tables.inodes,
                         InsertTxn(db, node, Adopt(db.tables.inodes[p], node.ino, node.IsDir()), f).db.tables.inodes, 0)
  {
    var p' := Adopt(db.tables.inodes[p], node.ino, node.IsDir());
    InsertTxnOutcome(db, node, p', f);
    if !(db.saved.Some? || f.insert || f.update) {
      GrownLinks(db.tables.inodes, InsertTxn(db, node, p', f).db.tables.inodes, node, p);
    }
  }

  lemma MakeLinks(db: Db, parent: Ino, name: string, target: string, f: Faults)
    requires Tree(db.tables.inodes) && (f.update ==> f.insert)
    ensures SurplusAfter(db.tables.inodes, MakeSymlink(db, parent, name, target, f).db.tables.inodes, 0)
  {
    var rows := db.tables.inodes;
    if parent in rows && rows[parent].IsDir() {
      var node := NewSymlink(NextIno(rows.Keys), parent, name, target);
      var p' := Adopt(rows[parent], node.ino, false);
      assert MakeSymlink(db, parent, name, target, f) == InsertBare(db, node, p', f);
      if f.insert || Lookup(rows, parent, name).Some? {
        RefusedBare(db, node, p', f);
      } else {
        NewNameIsFree(rows, node);
        LinkedRefines(db, node, p', f);
        GrownLinks(rows, InsertBare(db, node, p', f).db.tables.inodes, node, parent);
      }
    }
  }

  lemma MkdirLinks(db: Db, parent: Ino, name: string, f: Faults)
    requires Tree(db.tables.inodes) && InsertSurvives(f)
    ensures SurplusAfter(db.tables.inodes, Mkdir(db, parent, name, f).db.tables.inodes, 0)
  {
    var rows := db.tables.inodes;
    if parent in rows && rows[parent].IsDir() && Seen(rows, parent, name, f.lookup) == None {
      var node := NewDir(NextIno(rows.Keys), parent, name);
      if Lookup(rows, parent, name).Some? {
        TakenTxnOutcome(db, node, Adopt(rows[parent], node.ino, true), f);
      } else {
        NewNameIsFree(rows, node);
        InsertLinks(db, node, parent, f);
      }
    }
  }

  lemma CreateLinks(db: Db, parent: Ino, name: string, f: Faults)
    requires Tree(db.tables.inodes) && InsertSurvives(f)
    ensures SurplusAfter(db.tables.inodes, CreateNode(db, parent, name, f).db.tables.inodes, 0)
  {
    var rows := db.tables.inodes;
    if parent in rows && rows[parent].IsDir() && Seen(rows, parent, name, f.lookup) == None {
      var node := NewFile(NextIno(rows.Keys), parent, name);
      if Lookup(rows, parent, name).Some? {
        TakenTxnOutcome(db, node, Adopt(rows[parent], node.ino, false), f);
      } else {
        NewNameIsFree(rows, node);
        InsertLinks(db, node, parent, f);
      }
    }
  }

  lemma RemoveLinks(db: Db, parent: Ino, x: Ino, f: Faults)
    requires Tree(db.tables.inodes) && NoDeficit(db.tables.inodes) && Removable(db.tables.inodes, x, parent)
    requires RemoveSurvives(f)
    ensures SurplusAfter(db.tables.inodes, RemoveTxn(db, parent, x, db.tables.inodes[x].IsDir(), f).db.tables.inodes, 0)
  {
    var rows := db.tables.inodes;
    assert Placed(rows, x);
    RemoveTxnOutcome(db, parent, x, rows[x].IsDir(), f);
    if !(db.saved.Some? || f.delete) {
      ShrunkLinks(rows, RemoveTxn(db, parent, x, rows[x].IsDir(), f).db.tables.inodes, x, parent, rows[x].IsDir());
    }
  }

  lemma UnlinkLinks(db: Db, parent: Ino, name: string, f: Faults)
    requires Tree(db.tables.inodes) && NoDeficit(db.tables.inodes) && parent != 0 && RemoveSurvives(f)
    ensures SurplusAfter(db.tables.inodes, Unlink(db, parent, name, f).db.tables.inodes, 0)
    ensures SurplusAfter(db.tables.inodes, Rmdir(db, parent, name, f).db.tables.inodes, 0)
  {
    ResolveMatches(db.tables.inodes, parent, name);
    var found := Lookup(db.tables.inodes, parent, name);
    if found.Some? {
      BelowIsRemovable(db.tables.inodes, found.value.ino, parent);
      if !found.value.IsDir() || found.value.children == [] {
        RemoveLinks(db, parent, found.value.ino, f);
      }
    }
  }

  lemma MoveLinks(db: Db, x: Ino, parent: Ino, np: Ino, newName: string, f: RenameFaults)
    requires Tree(db.tables.inodes) && NoDeficit(db.tables.inodes) && MayMove(db.tables.inodes, x, parent, np, newName)
    requires f.Quiet()
    ensures SurplusAfter(db.tables.inodes, Reparent(db, db.tables.inodes[x], parent, np, newName, f).tables.inodes, 0)
  {
    assert Placed(db.tables.inodes, x);
    ReparentOutcome(db, x, parent, np, newName, f);
    RehungLinks(db.tables.inodes, Reparent(db, db.tables.inodes[x], parent, np, newName, f).tables.inodes, x, parent,
                np, newName);
  }

  lemma RenameLinks(db: Db, parent: Ino, name: string, np: Ino, newName: string, f: RenameFaults)
    requires Tree(db.tables.inodes) && NoDeficit(db.tables.inodes)
    requires Orderly(db.tables.inodes, RenameOp(parent, name, np, newName, f))
    ensures SurplusAfter(db.tables.inodes, Rename(db, parent, name, np, newName, f).db.tables.inodes,
                         Raised(db, RenameOp(parent, name, np, newName, f)))
  {
    var rows := db.tables.inodes;
    ResolveMatches(rows, parent, name);
    ResolveMatches(rows, np, newName);
    var source, found := Lookup(rows, parent, name), Lookup(rows, np, newName);
    if source.Some? && db.saved.None? {
      var x, b := source.value.ino, Begin(db).db;
      BelowIsRemovable(rows, x, parent);
      assert !Meets(rows, np, x, 0);
      if found.None? {
        MoveLinks(b, x, parent, np, newName, f);
      } else if !found.value.IsDir() || found.value.children == [] {
        ReplaceLinks(b, found.value.ino, x, parent, np, newName, f);
      }
    }
  }

  /** A replaced directory is not taken off the link count of the directory it was in. */
  lemma ReplaceLinks(b: Db, e: Ino, x: Ino, parent: Ino, np: Ino, newName: string, f: RenameFaults)
    requires Tree(b.tables.inodes) && NoDeficit(b.tables.inodes)
    requires e in b.tables.inodes && IsNamed(b.tables.inodes, e, np, newName) && np in b.tables.inodes
             && b.tables.inodes[np].IsDir()
    requires b.tables.inodes[e].children == [] || !b.tables.inodes[e].IsDir()
    requires x in b.tables.inodes && x != e && b.tables.inodes[x].parent == parent && parent != 0
    requires OutsideSubtree(b.tables.inodes, x, np) && f.Quiet()
    ensures SurplusAfter(b.tables.inodes,
                         Reparent(Displace(b, e, np, f), b.tables.inodes[x], parent, np, newName, f).tables.inodes,
                         if b.tables.inodes[e].IsDir() then np else 0)
  {
    var rows, rows1 := b.tables.inodes, Displace(b, e, np, f).tables.inodes;
    DisplacedLinks(b, e, x, parent, np, newName, f);
    NoDeficitAfter(rows, rows1, if rows[e].IsDir() then np else 0);
    MoveLinks(Displace(b, e, np, f), x, parent, np, newName, f);
    var rows2 := Reparent(Displace(b, e, np, f), rows[x], parent, np, newName, f).tables.inodes;
    ReparentOutcome(Displace(b, e, np, f), x, parent, np, newName, f);
    RehungKinds(rows1, rows2, x, parent, np, newName);
    SurplusInSteps(rows, rows1, rows2, if rows[e].IsDir() then np else 0);
  }

  lemma DisplacedLinks(b: Db, e: Ino, x: Ino, parent: Ino, np: Ino, newName: string, f: RenameFaults)
    requires Tree(b.tables.inodes) && NoDeficit(b.tables.inodes)
    requires e in b.tables.inodes && IsNamed(b.tables.inodes, e, np, newName) && np in b.tables.inodes
             && b.tables.inodes[np].IsDir()
    requires b.tables.inodes[e].children == [] || !b.tables.inodes[e].IsDir()
    requires x in b.tables.inodes && x != e && b.tables.inodes[x].parent == parent && parent != 0
    requires OutsideSubtree(b.tables.inodes, x, np) && f.Quiet()
    ensures var rows, rows1 := b.tables.inodes, Displace(b, e, np, f).tables.inodes;
            && Tree(rows1) && MayMove(rows1, x, parent, np, newName) && rows1[x] == rows[x] && rows1.Keys <= rows.Keys
            && SurplusAfter(rows, rows1, if rows[e].IsDir() then np else 0)
  {
    var rows, rows1 := b.tables.inodes, Displace(b, e, np, f).tables.inodes;
    BelowIsRemovable(rows, e, np);
    DisplaceOutcome(b, e, np, f);
    ShrunkKeepsTree(rows, rows1, e, np, false);
    ShrunkLinks(rows, rows1, e, np, false);
    MayMoveAfter(rows, rows1, e, x, parent, np, newName);
    assert !Meets(rows, np, x, 0);
  }

  lemma NoDeficitAfter(rows: Inodes, rows': Inodes, raised: Ino)
    requires NoDeficit(rows) && SurplusAfter(rows, rows', raised)
    ensures NoDeficit(rows')
  {
  }

  lemma SurplusInSteps(rows: Inodes, rows1: Inodes, rows2: Inodes, raised: Ino)
    requires SurplusAfter(rows, rows1, raised) && SurplusAfter(rows1, rows2, 0) && 0 !in rows2
    requires rows2.Keys == rows1.Keys && rows1.Keys <= rows.Keys
    requires forall d | d in rows2 :: rows2[d].IsDir() == rows1[d].IsDir()
    ensures SurplusAfter(rows, rows2, raised)
  {
  }

  // ----- Runs -----

  lemma DbStepLinks(db: Db, op: Op)
    requires Tree(db.tables.inodes) && NoDeficit(db.tables.inodes) && Orderly(db.tables.inodes, op)
    ensures SurplusAfter(db.tables.inodes, DbStep(db, op).db.tables.inodes, Raised(db, op))
  {
    match op
    case MkdirOp(parent, name, f) => MkdirLinks(db, parent, name, f);
    case CreateOp(parent, name, f) => CreateLinks(db, parent, name, f);
    case SymlinkOp(parent, name, target, f) => MakeLinks(db, parent, name, target, f);
    case UnlinkOp(parent, name, f) => UnlinkLinks(db, parent, name, f);
    case RmdirOp(parent, name, f) => UnlinkLinks(db, parent, name, f);
    case RenameOp(parent, name, np, newName, f) => RenameLinks(db, parent, name, np, newName, f);
    case _ => assert DbStep(db, op).db == db;
  }

  lemma WriteStepLinks(mount: Mount, fs: Fs, op: Op)
    requires Tree(fs.db.tables.inodes) && op.WriteOp?
    ensures SurplusAfter(fs.db.tables.inodes, Step(mount, fs, op).fs.db.tables.inodes, 0)
  {
    WriteKeepsTree(fs, op.ino, op.fh, op.offset, op.data, op.fails);
    ShapeLinks(fs.db.tables.inodes, Step(mount, fs, op).fs.db.tables.inodes);
  }

  lemma ReleaseStepLinks(mount: Mount, fs: Fs, op: Op)
    requires Tree(fs.db.tables.inodes) && op.ReleaseOp?
    ensures SurplusAfter(fs.db.tables.inodes, Step(mount, fs, op).fs.db.tables.inodes, 0)
  {
    ReleaseKeepsTree(mount, fs, op.ino, op.fh, op.events);
    ShapeLinks(fs.db.tables.inodes, Step(mount, fs, op).fs.db.tables.inodes);
  }

  /** One request: every directory keeps its surplus, except that replacing a directory by rename adds one. */
  lemma {:induction false} StepLinks(mount: Mount, fs: Fs, op: Op)
    requires Tree(fs.db.tables.inodes) && NoDeficit(fs.db.tables.inodes) && Orderly(fs.db.tables.inodes, op)
    ensures SurplusAfter(fs.db.tables.inodes, Step(mount, fs, op).fs.db.tables.inodes, Raised(fs.db, op))
  {
    if op.WriteOp? {
      WriteStepLinks(mount, fs, op);
    } else if op.ReleaseOp? {
      ReleaseStepLinks(mount, fs, op);
    } else {
      OtherStepsDb(mount, fs, op);
      DbStepLinks(fs.db, op);
    }
  }

  /** From exact link counts, a request keeps them exact if and only if it replaces no directory. */
  lemma {:induction false} ExactUnlessReplaced(mount: Mount, fs: Fs, op: Op)
    requires Tree(fs.db.tables.inodes) && LinksExact(fs.db.tables.inodes) && Orderly(fs.db.tables.inodes, op)
    ensures LinksExact(Step(mount, fs, op).fs.db.tables.inodes) <==> Raised(fs.db, op) == 0
  {
    assert NoDeficit(fs.db.tables.inodes);
    StepLinks(mount, fs, op);
    StepKeepsTree(mount, fs, op);
    ExactAfter(fs.db.tables.inodes, Step(mount, fs, op).fs.db.tables.inodes, Raised(fs.db, op));
  }

  lemma ExactAfter(rows: Inodes, rows': Inodes, raised: Ino)
    requires LinksExact(rows) && SurplusAfter(rows, rows', raised) && 0 !in rows'
    ensures LinksExact(rows') <==> raised == 0
  {
  }

  ghost predicate NothingReplaced(mount: Mount, fs: Fs, ops: seq<Op>)
    decreases |ops|
  {
    ops == [] || (Raised(fs.db, ops[0]) == 0 && NothingReplaced(mount, Step(mount, fs, ops[0]).fs, ops[1..]))
  }

  /** In every orderly run that replaces no directory, each directory has 2 links and one for each subdirectory. */
  lemma {:induction false} LinksInEveryRun(mount: Mount, fs: Fs, ops: seq<Op>)
    requires Tree(fs.db.tables.inodes) && LinksExact(fs.db.tables.inodes)
    requires OrderlyRun(mount, fs, ops) && NothingReplaced(mount, fs, ops)
    ensures LinksExact(Run(mount, fs, ops).fs.db.tables.inodes)
    decreases |ops|
  {
    if ops != [] {
      StepKeepsTree(mount, fs, ops[0]);
      ExactUnlessReplaced(mount, fs, ops[0]);
      LinksInEveryRun(mount, Step(mount, fs, ops[0]).fs, ops[1..]);
    }
  }

  /** Replaced directories or not, no directory ever has fewer links than that. */
  lemma {:induction false} NeverTooFewLinks(mount: Mount, fs: Fs, ops: seq<Op>)
    requires Tree(fs.db.tables.inodes) && NoDeficit(fs.db.tables.inodes) && OrderlyRun(mount, fs, ops)
    ensures NoDeficit(Run(mount, fs, ops).fs.db.tables.inodes)
    decreases |ops|
  {
    if ops != [] {
      var fs' := Step(mount, fs, ops[0]).fs;
      StepKeepsTree(mount, fs, ops[0]);
      StepLinks(mount, fs, ops[0]);
      NoDeficitAfter(fs.db.tables.inodes, fs'.db.tables.inodes, Raised(fs.db, ops[0]));
      NeverTooFewLinks(mount, fs', ops[1..]);
    }
  }

  lemma MountedLinks(transport: Option<Transport>, cache: bool)
    ensures Tree(Mounted(transport, cache).db.tables.inodes) && LinksExact(Mounted(transport, cache).db.tables.inodes)
  {
    RootIsATree();
    assert Subdirs(Mounted(transport, cache).db.tables.inodes, ROOT) == {};
  }

  /**
   From the mount on, every orderly run keeps the counts exact if it replaces no directory, and
   never too low in any case.
   */
  lemma LinksFromTheMount(mount: Mount, transport: Option<Transport>, cache: bool, ops: seq<Op>)
    requires OrderlyRun(mount, Mounted(transport, cache), ops)
    ensures var rows := Run(mount, Mounted(transport, cache), ops).fs.db.tables.inodes;
            && (NothingReplaced(mount, Mounted(transport, cache), ops) ==> LinksExact(rows))
            && NoDeficit(rows)
  {
    var fs := Mounted(transport, cache);
    MountedLinks(transport, cache);
    NeverTooFewLinks(mount, fs, ops);
    if NothingReplaced(mount, fs, ops) {
      LinksInEveryRun(mount, fs, ops);
    }
  }
}
