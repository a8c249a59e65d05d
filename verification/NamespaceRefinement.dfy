/**
 Every namespace handler keeps the rooted tree and acts on it as the abstract
 namespace says, error returns and failed statements included.
 */
module NamespaceRefinement {
  import opened Wrappers
  import opened Manifests
  import opened Stores
  import opened Namespace
  import opened Trees
  import opened FileSystem
  import opened AbstractFs

  // ----- What the kernel guarantees, and which failing statements are survived -----

  /**
   Requests as the kernel makes them: directories that exist, no directory into
   its own subtree, no name onto itself; and no failure of the statements whose
   result the handlers ignore.
   */
  ghost predicate Orderly(rows: Inodes, op: Op) {
    match op
    case MkdirOp(_, _, f) => InsertSurvives(f)
    case CreateOp(_, _, f) => InsertSurvives(f)
    case SymlinkOp(_, _, _, f) => f.update ==> f.insert
    case UnlinkOp(parent, name, f) => parent != 0 && RemoveSurvives(f)
    case RmdirOp(parent, name, f) => parent != 0 && RemoveSurvives(f)
    case RenameOp(parent, name, newParent, newName, f) =>
      && parent != 0 && f.Quiet()
      && (parent, name) != (newParent, newName)
      && newParent in rows && rows[newParent].IsDir()
      && (Lookup(rows, parent, name).Some? ==> OutsideSubtree(rows, Lookup(rows, parent, name).value.ino, newParent))
    case _ => true
  }

  /** The rewriting of the parent does not fail together with the rollback that would undo the insert. */
  predicate InsertSurvives(f: Faults) {
    f.update && f.rollback ==> f.insert
  }

  /** The parent is rewritten exactly if the row is deleted, or a rollback undoes both. */
  predicate RemoveSurvives(f: Faults) {
    if f.delete then f.rollback ==> f.update else !f.update
  }

  /** Rows that stay keep type, size and manifest; new rows are blank. */
  ghost predicate Carries(rows: Inodes, rows': Inodes) {
    forall i | i in rows' ::
      if i in rows then
        rows'[i].fileType == rows[i].fileType && rows'[i].size == rows[i].size && rows'[i].manifest == rows[i].manifest
      else
        && rows'[i].manifest == (if rows'[i].IsFile() then Some(NewManifest(i)) else None)
        && (rows'[i].IsFile() ==> rows'[i].size == 0)
  }

  /** What one handler must achieve. */
  ghost predicate Refines(db: Db, e: Effect<Reply>, spec: SpaceOutcome) {
    && Tree(e.db.tables.inodes)
    && SpaceOf(e.db) == spec.space && e.result == spec.reply
    && e.db.tables.blocks == db.tables.blocks
    && Carries(db.tables.inodes, e.db.tables.inodes)
  }

  // ----- Shared facts -----

  lemma ResolveMatches(rows: Inodes, parent: Ino, name: string)
    requires Keyed(rows) && UniqueNames(rows)
    ensures match Lookup(rows, parent, name)
            case None => Resolve(NodesOf(rows), parent, name) == None
            case Some(inode) => inode.ino in rows && rows[inode.ino] == inode && IsNamed(rows, inode.ino, parent, name)
                                && Resolve(NodesOf(rows), parent, name) == Some(inode.ino)
  {
    var nodes := NodesOf(rows);
    forall i | i in rows
      ensures NodeAt(nodes, i, parent, name) <==> IsNamed(rows, i, parent, name)
    {
    }
    var r := Resolve(nodes, parent, name);
    if r.Some? {
      assert IsNamed(rows, r.value, parent, name);
      LookupUnique(rows, parent, name, r.value);
    }
  }

  lemma EntriesMatch(rows: Inodes, d: Ino)
    requires Tree(rows) && d in rows
    ensures HasEntries(NodesOf(rows), d) <==> rows[d].children != []
  {
    assert Lists(rows, d);
    if rows[d].children != [] {
      var c := rows[d].children[0];
      assert c in rows[d].children;
      assert ChildOf(rows, c, d);
      assert NodesOf(rows)[c].parent == d;
    }
    if HasEntries(NodesOf(rows), d) {
      var i :| i in NodesOf(rows) && NodesOf(rows)[i].parent == d;
      assert ChildOf(rows, i, d);
    }
  }

  // ----- Making nodes -----

  /** The parent row after a node has joined it. */
  ghost predicate Joined(p: Inode, p': Inode, ino: Ino) {
    SamePlace(p, p') && p'.children == p.children + [ino]
    && p'.size == p.size && p'.manifest == p.manifest && p'.symlinkTarget == p.symlinkTarget
  }

  ghost predicate Blank(node: Inode) {
    && node.children == []
    && node.manifest == (if node.IsFile() then Some(NewManifest(node.ino)) else None)
    && (node.IsFile() ==> node.size == 0)
  }

  /** Exactly one row is new, and exactly one other row, its parent's, is rewritten. */
  ghost predicate Grown(rows: Inodes, rows': Inodes, node: Inode, p': Inode) {
    && rows'.Keys == rows.Keys + {node.ino}
    && rows'[node.ino] == node
    && p'.ino in rows && rows'[p'.ino] == p'
    && forall j | j in rows && j != p'.ino :: rows'[j] == rows[j]
  }

  /** A node may join the directory whose rewritten row is p'. */
  ghost predicate MayJoin(rows: Inodes, node: Inode, p': Inode) {
    && node.ino != 0 && node.ino !in rows && Blank(node) && !NameTaken(rows, node)
    && p'.ino in rows && rows[p'.ino].IsDir() && node.parent == p'.ino && Joined(rows[p'.ino], p', node.ino)
  }

  lemma GrownKeepsTree(rows: Inodes, rows': Inodes, node: Inode, p': Inode)
    requires Tree(rows) && MayJoin(rows, node, p') && Grown(rows, rows', node, p')
    ensures Tree(rows')
  {
    assert Added(rows, rows', node, p'.ino);
    AddKeepsTree(rows, rows', node, p'.ino);
  }

  lemma GrownCarries(rows: Inodes, rows': Inodes, node: Inode, p': Inode)
    requires MayJoin(rows, node, p') && Grown(rows, rows', node, p')
    ensures Carries(rows, rows')
    ensures NodesOf(rows') == NodesOf(rows)[node.ino := NodeOf(node)]
  {
  }

  lemma ParentStaysFree(rows: Inodes, rows1: Inodes, node: Inode, p': Inode)
    requires Keyed(rows) && UniqueNames(rows) && MayJoin(rows, node, p')
    requires rows1 == rows[node.ino := node]
    ensures !NameTaken(rows1, p')
  {
  }

  lemma NewNameIsFree(rows: Inodes, node: Inode)
    requires Lookup(rows, node.parent, node.name) == None
    ensures !NameTaken(rows, node)
  {
  }

  /** What is open after a transaction that failed. */
  function LeftOpen(db: Db, rollbackFails: bool): Option<Tables> {
    if db.saved.Some? then db.saved else if rollbackFails then Some(db.tables) else None
  }

  /**
   Inserting the node and rewriting its parent: all or nothing, unless COMMIT fails, or
   ROLLBACK does between the two.
   */
  lemma InsertTxnOutcome(db: Db, node: Inode, p': Inode, f: Faults)
    requires Keyed(db.tables.inodes) && UniqueNames(db.tables.inodes) && MayJoin(db.tables.inodes, node, p')
    requires InsertSurvives(f)
    ensures var t := InsertTxn(db, node, p', f);
            if db.saved.Some? || f.insert || f.update then
              t == Effect(db.(saved := LeftOpen(db, f.rollback)), Err(EIO))
            else
              && Grown(db.tables.inodes, t.db.tables.inodes, node, p')
              && t.db.tables.blocks == db.tables.blocks
              && t.result == (if f.commit then Err(EIO) else Entry(node.ino, node.fileType))
              && t.db.saved == if f.commit then Some(db.tables) else None
  {
    ParentStaysFree(db.tables.inodes, db.tables.inodes[node.ino := node], node, p');
  }

  /** The unique index refuses a name that a failed lookup had not seen. */
  lemma TakenTxnOutcome(db: Db, node: Inode, p': Inode, f: Faults)
    requires Keyed(db.tables.inodes) && Lookup(db.tables.inodes, node.parent, node.name).Some?
    requires node.ino !in db.tables.inodes
    ensures InsertTxn(db, node, p', f) == Effect(db.(saved := LeftOpen(db, f.rollback)), Err(EIO))
  {
    assert NameTaken(db.tables.inodes, node);
  }

  /** mkdir and create, once their checks have passed. */
  lemma MadeRefines(db: Db, node: Inode, p': Inode, f: Faults)
    requires Tree(db.tables.inodes) && MayJoin(db.tables.inodes, node, p') && node.symlinkTarget == None
    requires InsertSurvives(f)
    ensures Refines(db, InsertTxn(db, node, p', f), SpaceAdd(SpaceOf(db), node.ino, NodeOf(node), f))
  {
    var t := InsertTxn(db, node, p', f);
    InsertTxnOutcome(db, node, p', f);
    if db.saved.Some? || f.insert || f.update {
      RefusedTxn(db, f);
    } else {
      GrownKeepsTree(db.tables.inodes, t.db.tables.inodes, node, p');
      GrownCarries(db.tables.inodes, t.db.tables.inodes, node, p');
    }
  }

  lemma RefusedRefines(db: Db, e: Errno)
    requires Tree(db.tables.inodes)
    ensures Refines(db, Effect(db, Err(e)), SpaceOutcome(SpaceOf(db), Err(e)))
  {
  }

  lemma RefusedTxn(db: Db, f: Faults)
    requires Tree(db.tables.inodes)
    ensures Refines(db, Effect(db.(saved := LeftOpen(db, f.rollback)), Err(EIO)), SpaceRefuse(SpaceOf(db), f))
  {
  }

  lemma MkdirRefines(db: Db, parent: Ino, name: string, f: Faults)
    requires Tree(db.tables.inodes) && InsertSurvives(f)
    ensures Refines(db, Mkdir(db, parent, name, f), SpaceMake(SpaceOf(db), parent, name, Directory, f))
  {
    var rows := db.tables.inodes;
    ResolveMatches(rows, parent, name);
    if parent in rows && rows[parent].IsDir() && Seen(rows, parent, name, f.lookup) == None {
      var ino := NextIno(rows.Keys);
      assert NodesOf(rows).Keys == rows.Keys;
      var node := NewDir(ino, parent, name);
      if Lookup(rows, parent, name).Some? {
        TakenTxnOutcome(db, node, Adopt(rows[parent], ino, true), f);
        RefusedTxn(db, f);
      } else {
        NewNameIsFree(rows, node);
        MadeRefines(db, node, Adopt(rows[parent], ino, true), f);
      }
    } else {
      RefusedRefines(db, if parent !in rows then ENOENT else if !rows[parent].IsDir() then ENOTDIR else EEXIST);
    }
  }

  lemma CreateRefines(db: Db, parent: Ino, name: string, f: Faults)
    requires Tree(db.tables.inodes) && InsertSurvives(f)
    ensures Refines(db, CreateNode(db, parent, name, f), SpaceMake(SpaceOf(db), parent, name, RegularFile, f))
  {
    var rows := db.tables.inodes;
    ResolveMatches(rows, parent, name);
    if parent in rows && rows[parent].IsDir() && Seen(rows, parent, name, f.lookup) == None {
      var ino := NextIno(rows.Keys);
      assert NodesOf(rows).Keys == rows.Keys;
      var node := NewFile(ino, parent, name);
      if Lookup(rows, parent, name).Some? {
        TakenTxnOutcome(db, node, Adopt(rows[parent], ino, false), f);
        RefusedTxn(db, f);
      } else {
        NewNameIsFree(rows, node);
        MadeRefines(db, node, Adopt(rows[parent], ino, false), f);
      }
    } else {
      RefusedRefines(db, if parent !in rows then ENOENT else if !rows[parent].IsDir() then ENOTDIR else EEXIST);
    }
  }

  /** The symlink handler's two statements, when neither fails. */
  lemma LinkedRefines(db: Db, node: Inode, p': Inode, f: Faults)
    requires Tree(db.tables.inodes) && MayJoin(db.tables.inodes, node, p') && !f.insert && !f.update
    ensures Refines(db, InsertBare(db, node, p', f), SpacePlace(SpaceOf(db), node.ino, NodeOf(node)))
    ensures Grown(db.tables.inodes, InsertBare(db, node, p', f).db.tables.inodes, node, p')
  {
    var i := InsertInode(db, node, false);
    ParentStaysFree(db.tables.inodes, i.db.tables.inodes, node, p');
    var u := UpdateInode(i.db, p', false).db;
    assert Grown(db.tables.inodes, u.tables.inodes, node, p');
    GrownKeepsTree(db.tables.inodes, u.tables.inodes, node, p');
    GrownCarries(db.tables.inodes, u.tables.inodes, node, p');
  }

  /** The unique index refuses the name of an existing entry. */
  lemma RefusedBare(db: Db, node: Inode, p': Inode, f: Faults)
    requires Tree(db.tables.inodes) && node.ino !in db.tables.inodes
    requires f.insert || Lookup(db.tables.inodes, node.parent, node.name).Some?
    ensures InsertBare(db, node, p', f) == Effect(db, Err(EIO))
    ensures Refines(db, InsertBare(db, node, p', f), SpaceOutcome(SpaceOf(db), Err(EIO)))
  {
  }

  lemma SymlinkRefines(db: Db, parent: Ino, name: string, target: string, f: Faults)
    requires Tree(db.tables.inodes) && (f.update ==> f.insert)
    ensures Refines(db, MakeSymlink(db, parent, name, target, f), SpaceSymlink(SpaceOf(db), parent, name, target, f))
  {
    var rows := db.tables.inodes;
    ResolveMatches(rows, parent, name);
    if parent in rows && rows[parent].IsDir() {
      var ino := NextIno(rows.Keys);
      assert NodesOf(rows).Keys == rows.Keys;
      var node, p' := NewSymlink(ino, parent, name, target), Adopt(rows[parent], ino, false);
      assert MakeSymlink(db, parent, name, target, f) == InsertBare(db, node, p', f);
      if f.insert || Lookup(rows, parent, name).Some? {
        RefusedBare(db, node, p', f);
      } else {
        NewNameIsFree(rows, node);
        assert MayJoin(rows, node, p');
        LinkedRefines(db, node, p', f);
      }
    } else {
      RefusedRefines(db, ENOENT);
    }
  }

  // ----- Removing nodes -----

  /** Exactly row x is gone, and exactly its parent's row is rewritten. */
  ghost predicate Shrunk(rows: Inodes, rows': Inodes, x: Ino, p': Inode) {
    && rows'.Keys == rows.Keys - {x}
    && p'.ino in rows' && rows'[p'.ino] == p'
    && forall j | j in rows' && j != p'.ino :: rows'[j] == rows[j]
  }

  lemma DetachOutcome(db: Db, parent: Ino, ino: Ino, unlink: bool, fails: bool)
    requires UniqueNames(db.tables.inodes) && Keyed(db.tables.inodes) && parent in db.tables.inodes
    ensures Detach(db, parent, ino, unlink, fails)
            == if fails then db else WithInode(db, Disown(db.tables.inodes[parent], ino, unlink))
  {
  }

  lemma AttachOutcome(db: Db, parent: Ino, ino: Ino, subdir: bool, fails: bool)
    requires UniqueNames(db.tables.inodes) && Keyed(db.tables.inodes) && parent in db.tables.inodes
    ensures Attach(db, parent, ino, subdir, fails)
            == if fails then db else WithInode(db, Adopt(db.tables.inodes[parent], ino, subdir))
  {
  }

  /** A directory entry that may go: not the root, and nothing below it. */
  ghost predicate Removable(rows: Inodes, x: Ino, parent: Ino) {
    && x in rows && rows[x].parent == parent && parent in rows && parent != x && x != ROOT
    && (rows[x].children == [] || !rows[x].IsDir())
  }

  /** What lies under a directory other than 0 is not the root, and its parent is another row. */
  lemma BelowIsRemovable(rows: Inodes, x: Ino, parent: Ino)
    requires Tree(rows) && x in rows && rows[x].parent == parent && parent != 0
    ensures x != ROOT && parent in rows && parent != x
  {
    assert Placed(rows, x);
    ParentIsAnother(rows, x);
  }

  lemma ShrunkKeepsTree(rows: Inodes, rows': Inodes, x: Ino, parent: Ino, unlink: bool)
    requires Tree(rows) && Removable(rows, x, parent) && Shrunk(rows, rows', x, Disown(rows[parent], x, unlink))
    ensures Tree(rows')
  {
    assert Removed(rows, rows', x);
    RemoveKeepsTree(rows, rows', x);
  }

  lemma ShrunkCarries(rows: Inodes, rows': Inodes, x: Ino, parent: Ino, unlink: bool)
    requires Keyed(rows) && Removable(rows, x, parent) && Shrunk(rows, rows', x, Disown(rows[parent], x, unlink))
    ensures Carries(rows, rows')
    ensures NodesOf(rows') == NodesOf(rows) - {x}
  {
  }

  lemma RemoveTxnOutcome(db: Db, parent: Ino, x: Ino, unlink: bool, f: Faults)
    requires UniqueNames(db.tables.inodes) && Keyed(db.tables.inodes) && Removable(db.tables.inodes, x, parent)
    requires RemoveSurvives(f)
    ensures var t := RemoveTxn(db, parent, x, unlink, f);
            if db.saved.Some? || f.delete then t == Effect(db.(saved := LeftOpen(db, f.rollback)), Err(EIO))
            else
              && Shrunk(db.tables.inodes, t.db.tables.inodes, x, Disown(db.tables.inodes[parent], x, unlink))
              && t.db.tables.blocks == db.tables.blocks
              && t.result == Ok
              && t.db.saved == if f.commit then Some(db.tables) else None
  {
    if db.saved.None? {
      DetachOutcome(Begin(db).db, parent, x, unlink, f.update);
    }
  }

  lemma RemovedRefines(db: Db, parent: Ino, x: Ino, unlink: bool, f: Faults)
    requires Tree(db.tables.inodes) && Removable(db.tables.inodes, x, parent) && RemoveSurvives(f)
    ensures Refines(db, RemoveTxn(db, parent, x, unlink, f), SpaceDrop(SpaceOf(db), x, f))
  {
    var t := RemoveTxn(db, parent, x, unlink, f);
    RemoveTxnOutcome(db, parent, x, unlink, f);
    if db.saved.Some? || f.delete {
      RefusedTxn(db, f);
    } else {
      ShrunkKeepsTree(db.tables.inodes, t.db.tables.inodes, x, parent, unlink);
      ShrunkCarries(db.tables.inodes, t.db.tables.inodes, x, parent, unlink);
    }
  }

  lemma UnlinkRefines(db: Db, parent: Ino, name: string, f: Faults)
    requires Tree(db.tables.inodes) && parent != 0 && RemoveSurvives(f)
    ensures Refines(db, Unlink(db, parent, name, f), SpaceUnlink(SpaceOf(db), parent, name, f))
  {
    var rows := db.tables.inodes;
    ResolveMatches(rows, parent, name);
    match Lookup(rows, parent, name)
    case None => RefusedRefines(db, ENOENT);
    case Some(inode) =>
      if inode.IsDir() {
        RefusedRefines(db, EISDIR);
      } else {
        BelowIsRemovable(rows, inode.ino, parent);
        RemovedRefines(db, parent, inode.ino, false, f);
      }
  }

  lemma {:induction false} RmdirRefines(db: Db, parent: Ino, name: string, f: Faults)
    requires Tree(db.tables.inodes) && parent != 0 && RemoveSurvives(f)
    ensures Refines(db, Rmdir(db, parent, name, f), SpaceRmdir(SpaceOf(db), parent, name, f))
  {
    var rows := db.tables.inodes;
    ResolveMatches(rows, parent, name);
    match Lookup(rows, parent, name)
    case None => RefusedRefines(db, ENOENT);
    case Some(inode) =>
      EntriesMatch(rows, inode.ino);
      if !inode.IsDir() {
        RefusedRefines(db, ENOTDIR);
      } else if inode.children != [] {
        RefusedRefines(db, ENOTEMPTY);
      } else {
        BelowIsRemovable(rows, inode.ino, parent);
        RemovedRefines(db, parent, inode.ino, true, f);
      }
  }

  // ----- Moving nodes -----

  /** The row of directory j after x has gone from parent to np. */
  function RehungRow(rows: Inodes, x: Ino, parent: Ino, np: Ino, j: Ino): Inode
    requires x in rows && j in rows
  {
    var left := if j == parent then Disown(rows[j], x, rows[x].IsDir()) else rows[j];
    if j == np then Adopt(left, x, rows[x].IsDir()) else left
  }

  /** Row x has its new place; the old and the new parent are rewritten and nothing else. */
  ghost predicate Rehung(rows: Inodes, rows': Inodes, x: Ino, parent: Ino, np: Ino, newName: string) {
    && x in rows && rows'.Keys == rows.Keys
    && rows'[x] == rows[x].(name := newName, parent := np)
    && forall j | j in rows && j != x :: rows'[j] == RehungRow(rows, x, parent, np, j)
  }

  ghost predicate MayMove(rows: Inodes, x: Ino, parent: Ino, np: Ino, newName: string) {
    && x in rows && rows[x].parent == parent && parent in rows && x != parent && x != ROOT
    && np in rows && rows[np].IsDir() && x != np
    && forall i | i in rows :: !IsNamed(rows, i, np, newName)
  }

  lemma ReparentOutcome(db: Db, x: Ino, parent: Ino, np: Ino, newName: string, f: RenameFaults)
    requires UniqueNames(db.tables.inodes) && Keyed(db.tables.inodes)
             && MayMove(db.tables.inodes, x, parent, np, newName)
    requires f.Quiet()
    ensures var r := Reparent(db, db.tables.inodes[x], parent, np, newName, f);
            && Rehung(db.tables.inodes, r.tables.inodes, x, parent, np, newName)
            && r.tables.blocks == db.tables.blocks && r.saved == db.saved
  {
    var rows := db.tables.inodes;
    var inode := rows[x];
    var o := Detach(db, parent, x, inode.IsDir(), false);
    DetachOutcome(db, parent, x, inode.IsDir(), false);
    var moved := inode.(name := newName, parent := np);
    var m := UpdateInode(o, moved, false).db;
    MovedNameIsFree(rows, o.tables.inodes, moved, parent, np, newName);
    assert m == WithInode(o, moved);
    KeptUnique(rows, m.tables.inodes, x, np, newName);
    AttachOutcome(m, np, x, inode.IsDir(), false);
    ThreeWritesRehang(rows, o.tables.inodes, m.tables.inodes, Attach(m, np, x, inode.IsDir(), false).tables.inodes, x,
                      parent, np, newName);
  }

  lemma ThreeWritesRehang(rows: Inodes, r1: Inodes, r2: Inodes, r3: Inodes, x: Ino, parent: Ino, np: Ino,
                          newName: string)
    requires Keyed(rows) && MayMove(rows, x, parent, np, newName)
    requires r1 == rows[parent := Disown(rows[parent], x, rows[x].IsDir())]
    requires r2 == r1[x := rows[x].(name := newName, parent := np)]
    requires r3 == r2[np := Adopt(r2[np], x, rows[x].IsDir())]
    ensures Rehung(rows, r3, x, parent, np, newName)
  {
  }

  lemma MovedNameIsFree(rows: Inodes, rows1: Inodes, moved: Inode, parent: Ino, np: Ino, newName: string)
    requires rows1.Keys == rows.Keys && forall j | j in rows :: SamePlace(rows[j], rows1[j])
    requires moved.parent == np && moved.name == newName
    requires forall i | i in rows :: !IsNamed(rows, i, np, newName)
    ensures !NameTaken(rows1, moved)
  {
  }

  lemma KeptUnique(rows: Inodes, rows1: Inodes, x: Ino, np: Ino, newName: string)
    requires Keyed(rows) && UniqueNames(rows) && x in rows && rows1.Keys == rows.Keys
    requires forall j | j in rows && j != x :: SamePlace(rows[j], rows1[j])
    requires rows1[x].ino == x && rows1[x].parent == np && rows1[x].name == newName
    requires forall i | i in rows :: !IsNamed(rows, i, np, newName)
    ensures Keyed(rows1) && UniqueNames(rows1)
  {
  }

  lemma RehungIsMoved(rows: Inodes, rows': Inodes, x: Ino, parent: Ino, np: Ino, newName: string)
    requires Keyed(rows) && MayMove(rows, x, parent, np, newName) && Rehung(rows, rows', x, parent, np, newName)
    ensures Moved(rows, rows', x, np, newName)
  {
  }

  lemma RehungKeepsTree(rows: Inodes, rows': Inodes, x: Ino, parent: Ino, np: Ino, newName: string)
    requires Tree(rows) && MayMove(rows, x, parent, np, newName) && OutsideSubtree(rows, x, np)
    requires Rehung(rows, rows', x, parent, np, newName)
    ensures Tree(rows')
  {
    RehungIsMoved(rows, rows', x, parent, np, newName);
    MoveKeepsTree(rows, rows', x, np, newName);
  }

  lemma RehungCarries(rows: Inodes, rows': Inodes, x: Ino, parent: Ino, np: Ino, newName: string)
    requires MayMove(rows, x, parent, np, newName) && Rehung(rows, rows', x, parent, np, newName)
    ensures Carries(rows, rows')
    ensures NodesOf(rows') == NodesOf(rows)[x := NodesOf(rows)[x].(parent := np, name := newName)]
  {
  }

  lemma DisplaceOutcome(db: Db, e: Ino, np: Ino, f: RenameFaults)
    requires UniqueNames(db.tables.inodes) && Keyed(db.tables.inodes) && Removable(db.tables.inodes, e, np) && f.Quiet()
    ensures var d := Displace(db, e, np, f);
            && Shrunk(db.tables.inodes, d.tables.inodes, e, Disown(db.tables.inodes[np], e, false))
            && d.tables.blocks == db.tables.blocks && d.saved == db.saved
  {
  }

  lemma {:induction false} MeetsInFewer(rows: Inodes, rows1: Inodes, i: Ino, x: Ino, n: nat)
    requires forall j | j in rows1 :: j in rows && rows1[j].parent == rows[j].parent
    requires Meets(rows1, i, x, n)
    ensures Meets(rows, i, x, n)
    decreases n
  {
    if i != x {
      MeetsInFewer(rows, rows1, rows1[i].parent, x, n - 1);
    }
  }

  /** Once the destination is out of the way, the move may go on. */
  lemma MayMoveAfter(rows: Inodes, rows1: Inodes, e: Ino, x: Ino, parent: Ino, np: Ino, newName: string)
    requires Tree(rows) && Removable(rows, e, np) && IsNamed(rows, e, np, newName)
    requires Shrunk(rows, rows1, e, Disown(rows[np], e, false))
    requires x in rows && x != e && rows[x].parent == parent && parent != 0
    requires np in rows && rows[np].IsDir() && OutsideSubtree(rows, x, np)
    ensures MayMove(rows1, x, parent, np, newName) && OutsideSubtree(rows1, x, np)
  {
    BelowIsRemovable(rows, x, parent);
    ChildlessHasNoChild(rows, e);
    assert parent != e by {
      assert !ChildOf(rows, x, e);
    }
    assert !Meets(rows, np, x, 0);
    forall n: nat
      ensures !Meets(rows1, np, x, n)
    {
      if Meets(rows1, np, x, n) {
        MeetsInFewer(rows, rows1, np, x, n);
      }
    }
  }

  /** The move itself, up to its commit. */
  lemma MoveRefines(db: Db, b: Db, x: Ino, parent: Ino, np: Ino, newName: string, f: RenameFaults)
    requires Tree(b.tables.inodes) && MayMove(b.tables.inodes, x, parent, np, newName)
    requires OutsideSubtree(b.tables.inodes, x, np) && f.Quiet()
    requires b.tables.blocks == db.tables.blocks && Carries(db.tables.inodes, b.tables.inodes)
    requires b.tables.inodes.Keys <= db.tables.inodes.Keys
    ensures var r := Reparent(b, b.tables.inodes[x], parent, np, newName, f);
            && Tree(r.tables.inodes) && r.saved == b.saved
            && NodesOf(r.tables.inodes)
               == NodesOf(b.tables.inodes)[x := NodesOf(b.tables.inodes)[x].(parent := np, name := newName)]
            && r.tables.blocks == db.tables.blocks
            && Carries(db.tables.inodes, r.tables.inodes)
  {
    var r := Reparent(b, b.tables.inodes[x], parent, np, newName, f);
    ReparentOutcome(b, x, parent, np, newName, f);
    RehungKeepsTree(b.tables.inodes, r.tables.inodes, x, parent, np, newName);
    RehungCarries(b.tables.inodes, r.tables.inodes, x, parent, np, newName);
  }

  lemma {:induction false} RenameRefines(db: Db, parent: Ino, name: string, np: Ino, newName: string, f: RenameFaults)
    requires Tree(db.tables.inodes) && Orderly(db.tables.inodes, RenameOp(parent, name, np, newName, f))
    ensures Refines(db, Rename(db, parent, name, np, newName, f),
                    SpaceRename(SpaceOf(db), parent, name, np, newName, f))
  {
    var rows := db.tables.inodes;
    ResolveMatches(rows, parent, name);
    ResolveMatches(rows, np, newName);
    match Lookup(rows, parent, name)
    case None => RefusedRefines(db, ENOENT);
    case Some(inode) =>
      var x := inode.ino;
      if db.saved.Some? {
        RefusedRefines(db, EIO);
      } else {
        BelowIsRemovable(rows, x, parent);
        var b := Begin(db).db;
        assert !Meets(rows, np, x, 0);
        match Lookup(rows, np, newName)
        case None =>
          MoveRefines(db, b, x, parent, np, newName, f);
        case Some(e) =>
          BelowIsRemovable(rows, e.ino, np);
          EntriesMatch(rows, e.ino);
          if e.IsDir() && e.children != [] {
          } else {
            var d := Displace(b, e.ino, np, f);
            DisplaceOutcome(b, e.ino, np, f);
            ShrunkKeepsTree(rows, d.tables.inodes, e.ino, np, false);
            ShrunkCarries(rows, d.tables.inodes, e.ino, np, false);
            MayMoveAfter(rows, d.tables.inodes, e.ino, x, parent, np, newName);
            MoveRefines(db, d, x, parent, np, newName, f);
          }
      }
  }

  // ----- Looking -----

  lemma LookupRefines(db: Db, parent: Ino, name: string)
    requires Tree(db.tables.inodes)
    ensures LookupEntry(db, parent, name) == SpaceLookup(SpaceOf(db), parent, name)
  {
    ResolveMatches(db.tables.inodes, parent, name);
  }

  /** The listing by parent column is the listing of the tree's entries. */
  lemma ReaddirRefines(db: Db, ino: Ino)
    requires Tree(db.tables.inodes)
    ensures Readdir(db, ino) == SpaceReaddir(SpaceOf(db), ino)
  {
    var rows := db.tables.inodes;
    var nodes := NodesOf(rows);
    if ino in rows && rows[ino].IsDir() {
      var listed := EntriesUnder(rows, ino);
      var meant := set i | i in nodes && nodes[i].parent == ino :: DirEntry(i, nodes[i].kind, nodes[i].name);
      forall e
        ensures e in listed <==> e in meant
      {
        if e in listed {
          var i :| i in rows && rows[i].parent == ino && e == EntryOf(rows[i]);
          assert i in nodes && e == DirEntry(i, nodes[i].kind, nodes[i].name);
        }
        if e in meant {
          var i :| i in nodes && nodes[i].parent == ino && e == DirEntry(i, nodes[i].kind, nodes[i].name);
          assert e == EntryOf(rows[i]);
        }
      }
      assert listed == meant;
    }
  }

  /** rmdir's emptiness test and readdir's listing, which use different copies of the membership, agree. */
  lemma EmptyMeansNothingListed(rows: Inodes, d: Ino)
    requires Tree(rows) && d in rows
    ensures rows[d].children == [] <==> EntriesUnder(rows, d) == {}
  {
    assert Lists(rows, d);
    if rows[d].children != [] {
      var c := rows[d].children[0];
      assert c in rows[d].children;
      assert ChildOf(rows, c, d);
      assert EntryOf(rows[c]) in EntriesUnder(rows, d);
    } else {
      forall e
        ensures e !in EntriesUnder(rows, d)
      {
        if e in EntriesUnder(rows, d) {
          var i :| i in rows && rows[i].parent == d && e == EntryOf(rows[i]);
          assert ChildOf(rows, i, d);
        }
      }
    }
  }

  lemma ReadlinkRefines(db: Db, ino: Ino)
    ensures Readlink(db, ino) == SpaceReadlink(SpaceOf(db), ino)
  {
  }

  lemma SameTables(db: Db, reply: Reply)
    requires Tree(db.tables.inodes)
    ensures Refines(db, Effect(db, reply), SpaceOutcome(SpaceOf(db), reply))
  {
  }

  // ----- All handlers -----

  /**
   Every handler, with every pattern of failing statements it survives, acts on the tree as the
   abstract namespace.
   */
  lemma DbStepRefines(db: Db, op: Op)
    requires Tree(db.tables.inodes) && Orderly(db.tables.inodes, op)
    ensures Refines(db, DbStep(db, op), SpaceStep(SpaceOf(db), op))
  {
    match op
    case InitOp(_) => SameTables(db, Ok);
    case LookupOp(parent, name) =>
      LookupRefines(db, parent, name);
      SameTables(db, LookupEntry(db, parent, name));
    case MkdirOp(parent, name, f) => MkdirRefines(db, parent, name, f);
    case CreateOp(parent, name, f) => CreateRefines(db, parent, name, f);
    case SymlinkOp(parent, name, target, f) => SymlinkRefines(db, parent, name, target, f);
    case ReadlinkOp(ino) =>
      ReadlinkRefines(db, ino);
      SameTables(db, Readlink(db, ino));
    case UnlinkOp(parent, name, f) => UnlinkRefines(db, parent, name, f);
    case RmdirOp(parent, name, f) => RmdirRefines(db, parent, name, f);
    case RenameOp(parent, name, np, newName, f) => RenameRefines(db, parent, name, np, newName, f);
    case ReaddirOp(ino) =>
      ReaddirRefines(db, ino);
      SameTables(db, Readdir(db, ino));
    case _ => SameTables(db, Ok);
  }

  /** The blank database after init. */
  lemma RootIsATree()
    ensures var db := InitRoot(Db(Tables(map[], map[]), None), false).db;
            Tree(db.tables.inodes) && db.tables.inodes == map[ROOT := RootInode()]
            && db.tables.blocks == map[] && db.saved == None
  {
    var rows: Inodes := map[ROOT := RootInode()];
    assert Reaches(rows, ROOT, 0);
    assert InitRoot(Db(Tables(map[], map[]), None), false).db.tables.inodes == rows;
  }
}
