/**
 Exactly which renames the tree survives: whatever the destination is, and whichever
 of the seven statements whose failure the handler ignores do fail.
 */
module RenameBoundaries {
  import opened Wrappers
  import opened Stores
  import opened Namespace
  import opened Trees
  import opened NamespaceRefinement
  import opened TreeBoundaries

  // ----- The condition -----

  /** The handler comes to no change of rows: no transaction, no source, or a refused destination. */
  ghost predicate Refused(db: Db, parent: Ino, name: string, np: Ino, newName: string, f: RenameFaults) {
    || db.saved.Some?
    || Lookup(db.tables.inodes, parent, name).None?
    || (var seen := Seen(db.tables.inodes, np, newName, f.lookup);
        seen.Some? && seen.value.IsDir() && seen.value.children != [])
  }

  /** The inode gets its new place: its update does not fail, and no other row is left there. */
  ghost predicate Moves(rows: Inodes, x: Ino, np: Ino, newName: string, f: RenameFaults) {
    var target := Lookup(rows, np, newName);
    && !f.inode
    && (target.Some? && target.value.ino != x ==> !f.lookup && !f.delete)
  }

  /** The lists of both parents end up naming the inode where it is, once. */
  ghost predicate ListedWhereItIs(rows: Inodes, parent: Ino, np: Ino, moved: bool, f: RenameFaults) {
    if parent == np then f.oldParent == f.newParent
    else f.oldParent == !moved && (np in rows ==> f.newParent == !moved)
  }

  /** The rows after the rename of inode x from parent are a tree. */
  ghost predicate Survives(rows: Inodes, x: Ino, parent: Ino, np: Ino, newName: string, f: RenameFaults) {
    var seen := Seen(rows, np, newName, f.lookup);
    if seen.Some? && seen.value.ino == x then
      var stillListed := f.displaced && f.oldParent;
      if f.delete then stillListed == f.newParent else !stillListed && f.newParent
    else
      && (seen.Some? ==> f.delete == f.displaced)
      && (Moves(rows, x, np, newName, f) ==> np in rows && rows[np].IsDir() && OutsideSubtree(rows, x, np))
      && ListedWhereItIs(rows, parent, np, Moves(rows, x, np, newName, f), f)
  }

  // ----- What the statements do to the rows -----

  function AfterDisplacing(c: seq<Ino>, isNew: bool, e: Option<Ino>, f: RenameFaults): seq<Ino> {
    if isNew && e.Some? && !f.displaced then Retain(c, e.value) else c
  }

  /** A children list after the three rewrites it may see. */
  function ListAfter(c: seq<Ino>, isOld: bool, isNew: bool, x: Ino, e: Option<Ino>, f: RenameFaults): seq<Ino> {
    var c1 := AfterDisplacing(c, isNew, e, f);
    var c2 := if isOld && !f.oldParent then Retain(c1, x) else c1;
    if isNew && !f.newParent then c2 + [x] else c2
  }

  /** Whose number is still listed before the inode is added to its new parent. */
  predicate Kept(isOld: bool, isNew: bool, x: Ino, e: Option<Ino>, f: RenameFaults, k: Ino) {
    && !(isNew && e == Some(k) && !f.displaced)
    && !(isOld && k == x && !f.oldParent)
  }

  lemma ListAfterFacts(c: seq<Ino>, isOld: bool, isNew: bool, x: Ino, e: Option<Ino>, f: RenameFaults)
    requires NoDuplicates(c)
    ensures var l := ListAfter(c, isOld, isNew, x, e, f);
            var adds := isNew && !f.newParent;
            && (forall k :: k in l <==> (k in c && Kept(isOld, isNew, x, e, f, k)) || (adds && k == x))
            && (NoDuplicates(l) <==> !(adds && x in c && Kept(isOld, isNew, x, e, f, x)))
  {
    var c1 := AfterDisplacing(c, isNew, e, f);
    if e.Some? {
      RetainDrops(c, e.value);
    }
    RetainDrops(c1, x);
    var c2 := if isOld && !f.oldParent then Retain(c1, x) else c1;
    assert forall k :: k in c2 <==> k in c && Kept(isOld, isNew, x, e, f, k);
    if isNew && !f.newParent {
      AppendedOnce(c2, x);
    }
  }

  lemma AppendedOnce(c: seq<Ino>, x: Ino)
    requires NoDuplicates(c)
    ensures NoDuplicates(c + [x]) <==> x !in c
    ensures forall k :: k in c + [x] <==> k in c || k == x
  {
    if x in c {
      var i :| 0 <= i < |c| && c[i] == x;
      assert (c + [x])[i] == (c + [x])[|c|];
    }
  }

  /** The destination's row is gone or not, and its directory rewritten or not. */
  ghost predicate Displaced(rows: Inodes, rows': Inodes, np: Ino, e: Ino, f: RenameFaults) {
    && rows'.Keys == rows.Keys - (if f.delete then {} else {e})
    && forall j | j in rows' :: rows'[j] == if j == np && !f.displaced then Disown(rows[j], e, false) else rows[j]
  }

  lemma DisplacedRows(b: Db, e: Ino, np: Ino, f: RenameFaults)
    requires Keyed(b.tables.inodes) && UniqueNames(b.tables.inodes)
    requires e in b.tables.inodes && np in b.tables.inodes && e != np
    ensures Displaced(b.tables.inodes, Displace(b, e, np, f).tables.inodes, np, e, f)
  {
    DetachOutcome(DeleteInode(b, e, f.delete).db, np, e, false, f.displaced);
  }

  /** The rows after the moving statements: places, and lists of all rows but an inode moved into itself. */
  ghost predicate Shifted(rows: Inodes, rows': Inodes, x: Ino, parent: Ino, np: Ino, newName: string,
                          e: Option<Ino>, f: RenameFaults, moved: bool)
  {
    && x in rows
    && rows'.Keys == rows.Keys - (if e.Some? && !f.delete then {e.value} else {})
    && (forall j | j in rows' :: rows'[j].ino == rows[j].ino && rows'[j].fileType == rows[j].fileType)
    && (forall j | j in rows' && j != x :: SamePlace(rows[j], rows'[j]))
    && (x in rows' ==>
          && rows'[x].parent == (if moved then np else rows[x].parent)
          && rows'[x].name == if moved then newName else rows[x].name)
    && forall j | j in rows' && !(moved && x == np && j == x) ::
         rows'[j].children == ListAfter(rows[j].children, j == parent, j == np, x, e, f)
  }

  ghost predicate Vacant(rows: Inodes, x: Ino, np: Ino, newName: string) {
    forall i | i in rows && i != x :: !IsNamed(rows, i, np, newName)
  }

  /** One row, if it is there, loses or gains a number in its list. */
  ghost predicate Edited(rows: Inodes, rows': Inodes, d: Ino, row: Inode -> Inode, fails: bool) {
    rows'.Keys == rows.Keys && forall j | j in rows :: rows'[j] == if j == d && !fails then row(rows[j]) else rows[j]
  }

  lemma DetachEdits(db: Db, parent: Ino, x: Ino, unlink: bool, fails: bool)
    requires Keyed(db.tables.inodes) && UniqueNames(db.tables.inodes)
    ensures var r := Detach(db, parent, x, unlink, fails).tables.inodes;
            && Edited(db.tables.inodes, r, parent, (p: Inode) => Disown(p, x, unlink), fails)
            && Keyed(r) && UniqueNames(r)
  {
    if parent in db.tables.inodes {
      DetachOutcome(db, parent, x, unlink, fails);
    }
    KeepsUnique(db.tables.inodes, Detach(db, parent, x, unlink, fails).tables.inodes);
  }

  lemma AttachEdits(db: Db, np: Ino, x: Ino, subdir: bool, fails: bool)
    requires Keyed(db.tables.inodes) && UniqueNames(db.tables.inodes)
    ensures var r := Attach(db, np, x, subdir, fails).tables.inodes;
            Edited(db.tables.inodes, r, np, (p: Inode) => Adopt(p, x, subdir), fails)
  {
    if np in db.tables.inodes {
      AttachOutcome(db, np, x, subdir, fails);
    }
  }

  lemma UpdateEdits(db: Db, rows: Inodes, y: Inode, fails: bool)
    requires Keyed(db.tables.inodes) && UniqueNames(db.tables.inodes)
    requires db.tables.inodes.Keys == rows.Keys && forall j | j in rows :: SamePlace(rows[j], db.tables.inodes[j])
    ensures var r := UpdateInode(db, y, fails).db.tables.inodes;
            && Keyed(r) && UniqueNames(r)
            && r == if y.ino in rows && !fails && Vacant(rows, y.ino, y.parent, y.name) then
                      db.tables.inodes[y.ino := y]
                    else db.tables.inodes
  {
    assert forall i | i in rows ::
      IsNamed(rows, i, y.parent, y.name) <==> IsNamed(db.tables.inodes, i, y.parent, y.name);
    if !Vacant(rows, y.ino, y.parent, y.name) {
      var i :| i in rows && i != y.ino && IsNamed(rows, i, y.parent, y.name);
      assert IsNamed(db.tables.inodes, i, y.parent, y.name);
    }
  }

  /** The three rewrites that follow, on rows that the displacement may have changed. */
  ghost predicate Rewritten(rows: Inodes, rows': Inodes, inode: Inode, parent: Ino, np: Ino, newName: string,
                            f: RenameFaults)
  {
    var x, y := inode.ino, inode.(name := newName, parent := np);
    var moved := !f.inode && Vacant(rows, x, np, newName);
    && rows'.Keys == rows.Keys
    && (forall j | j in rows && j != x ::
          SamePlace(rows[j], rows'[j])
          && rows'[j].children == ListAfter(rows[j].children, j == parent, j == np, x, None, f))
    && (x in rows ==>
          && SamePlace(if moved then y else rows[x], rows'[x])
          && rows'[x].children == ListAfter(if moved then y.children else rows[x].children, false, x == np, x, None, f))
  }

  lemma ReparentRewrites(d: Db, inode: Inode, parent: Ino, np: Ino, newName: string, f: RenameFaults)
    requires Keyed(d.tables.inodes) && UniqueNames(d.tables.inodes) && inode.ino != parent
    ensures Rewritten(d.tables.inodes, Reparent(d, inode, parent, np, newName, f).tables.inodes, inode, parent, np,
                      newName, f)
  {
    var x, subdir := inode.ino, inode.IsDir();
    var o := Detach(d, parent, x, subdir, f.oldParent);
    DetachEdits(d, parent, x, subdir, f.oldParent);
    var y := inode.(name := newName, parent := np);
    UpdateEdits(o, d.tables.inodes, y, f.inode);
    var m := UpdateInode(o, y, f.inode).db;
    AttachEdits(m, np, x, subdir, f.newParent);
    var r := Attach(m, np, x, subdir, f.newParent);
    assert Reparent(d, inode, parent, np, newName, f) == r;
    ThreeEdits(d.tables.inodes, o.tables.inodes, m.tables.inodes, r.tables.inodes, inode, parent, np, newName, f);
  }

  lemma ThreeEdits(r1: Inodes, r2: Inodes, r3: Inodes, r4: Inodes, inode: Inode, parent: Ino, np: Ino, newName: string,
                   f: RenameFaults)
    requires inode.ino != parent
    requires Edited(r1, r2, parent, (p: Inode) => Disown(p, inode.ino, inode.IsDir()), f.oldParent)
    requires var y := inode.(name := newName, parent := np);
             r3 == if y.ino in r1 && !f.inode && Vacant(r1, y.ino, np, newName) then r2[y.ino := y] else r2
    requires Edited(r3, r4, np, (p: Inode) => Adopt(p, inode.ino, inode.IsDir()), f.newParent)
    ensures Rewritten(r1, r4, inode, parent, np, newName, f)
  {
    var x, b := inode.ino, inode.IsDir();
    forall j | j in r1 && j != x
      ensures SamePlace(r1[j], r4[j]) && r4[j].children == ListAfter(r1[j].children, j == parent, j == np, x, None, f)
    {
      assert r3[j] == r2[j] == if j == parent && !f.oldParent then Disown(r1[j], x, b) else r1[j];
      TwoEdits(r1[j], r2[j], r4[j], j == parent, j == np, x, b, f);
    }
    if x in r1 {
      TwoEdits(r3[x], r3[x], r4[x], false, x == np, x, b, f);
    }
  }

  lemma TwoEdits(row: Inode, row2: Inode, row4: Inode, isOld: bool, isNew: bool, x: Ino, b: bool, f: RenameFaults)
    requires row2 == if isOld && !f.oldParent then Disown(row, x, b) else row
    requires row4 == if isNew && !f.newParent then Adopt(row2, x, b) else row2
    ensures SamePlace(row, row4) && row4.children == ListAfter(row.children, isOld, isNew, x, None, f)
  {
  }

  lemma KeepsUnique(rows: Inodes, rows': Inodes)
    requires Keyed(rows) && UniqueNames(rows)
    requires rows'.Keys <= rows.Keys && forall j | j in rows' :: SamePlace(rows[j], rows'[j])
    ensures Keyed(rows') && UniqueNames(rows')
  {
    forall i, j | i in rows' && j in rows' && rows'[i].parent == rows'[j].parent && rows'[i].name == rows'[j].name
      ensures i == j
    {
      assert SamePlace(rows[i], rows'[i]) && SamePlace(rows[j], rows'[j]);
    }
  }

  // ----- What the statements make of a tree -----

  /** Source and destination of a rename that is not refused. */
  ghost predicate Goes(rows: Inodes, x: Ino, parent: Ino, np: Ino, newName: string, e: Option<Ino>, f: RenameFaults) {
    && x in rows && rows[x].parent == parent && x != ROOT && parent in rows && x != parent
    && (e.Some? ==> IsNamed(rows, e.value, np, newName) && Removable(rows, e.value, np) && e.value != parent)
    && e == (var target := Lookup(rows, np, newName);
             if f.lookup || target.None? then None else Some(target.value.ino))
  }

  lemma VacantMeansMoves(rows: Inodes, rows1: Inodes, x: Ino, np: Ino, newName: string, e: Option<Ino>, f: RenameFaults)
    requires Keyed(rows) && UniqueNames(rows)
    requires e == (var target := Lookup(rows, np, newName);
                   if f.lookup || target.None? then None else Some(target.value.ino))
    requires rows1.Keys == rows.Keys - (if e.Some? && !f.delete then {e.value} else {})
    requires forall j | j in rows1 :: SamePlace(rows[j], rows1[j])
    ensures !f.inode && Vacant(rows1, x, np, newName) <==> Moves(rows, x, np, newName, f)
  {
    var target := Lookup(rows, np, newName);
    if target.Some? {
      var t :| t in rows && IsNamed(rows, t, np, newName) && target == Some(rows[t]);
      assert t in rows1 ==> IsNamed(rows1, t, np, newName);
      assert forall i | i in rows1 && i != t :: !IsNamed(rows1, i, np, newName) by {
        assert forall i | i in rows1 :: SamePlace(rows[i], rows1[i]);
      }
    } else {
      assert forall i | i in rows1 :: SamePlace(rows[i], rows1[i]) && !IsNamed(rows, i, np, newName);
    }
  }

  lemma ShiftedByMove(rows: Inodes, rows1: Inodes, rows': Inodes, x: Ino, parent: Ino, np: Ino, newName: string,
                      e: Option<Ino>, f: RenameFaults)
    requires Keyed(rows) && UniqueNames(rows) && Goes(rows, x, parent, np, newName, e, f)
    requires if e.Some? then Displaced(rows, rows1, np, e.value, f) else rows1 == rows
    requires Rewritten(rows1, rows', rows[x], parent, np, newName, f)
    ensures Shifted(rows, rows', x, parent, np, newName, e, f, Moves(rows, x, np, newName, f))
  {
    DisplacedLists(rows, rows1, np, e, f);
    VacantMeansMoves(rows, rows1, x, np, newName, e, f);
    ShiftedElsewhere(rows, rows1, rows', x, parent, np, newName, e, f);
    ListTwice(rows[x].children, false, x == np, x, e, f);
  }

  lemma DisplacedLists(rows: Inodes, rows1: Inodes, np: Ino, e: Option<Ino>, f: RenameFaults)
    requires if e.Some? then Displaced(rows, rows1, np, e.value, f) else rows1 == rows
    ensures forall j | j in rows1 ::
              SamePlace(rows[j], rows1[j]) && rows1[j].children == AfterDisplacing(rows[j].children, j == np, e, f)
  {
  }

  lemma ShiftedElsewhere(rows: Inodes, rows1: Inodes, rows': Inodes, x: Ino, parent: Ino, np: Ino, newName: string,
                         e: Option<Ino>, f: RenameFaults)
    requires x in rows && rows1.Keys <= rows.Keys && Rewritten(rows1, rows', rows[x], parent, np, newName, f)
             && rows[x].ino == x
    requires forall j | j in rows1 ::
               SamePlace(rows[j], rows1[j]) && rows1[j].children == AfterDisplacing(rows[j].children, j == np, e, f)
    ensures forall j | j in rows' && j != x ::
              && SamePlace(rows[j], rows'[j])
              && rows'[j].children == ListAfter(rows[j].children, j == parent, j == np, x, e, f)
  {
    forall j | j in rows' && j != x
      ensures SamePlace(rows[j], rows'[j])
      ensures rows'[j].children == ListAfter(rows[j].children, j == parent, j == np, x, e, f)
    {
      ListTwice(rows[j].children, j == parent, j == np, x, e, f);
      assert SamePlace(rows[j], rows1[j]) && SamePlace(rows1[j], rows'[j]);
    }
  }

  lemma ListTwice(c: seq<Ino>, isOld: bool, isNew: bool, x: Ino, e: Option<Ino>, f: RenameFaults)
    ensures ListAfter(AfterDisplacing(c, isNew, e, f), isOld, isNew, x, None, f) == ListAfter(c, isOld, isNew, x, e, f)
  {
  }

  lemma RenameShifts(b: Db, x: Ino, parent: Ino, np: Ino, newName: string, e: Option<Ino>, f: RenameFaults)
    requires Keyed(b.tables.inodes) && UniqueNames(b.tables.inodes)
             && Goes(b.tables.inodes, x, parent, np, newName, e, f)
    ensures var d := if e.Some? then Displace(b, e.value, np, f) else b;
            var rows, rows' := b.tables.inodes, Reparent(d, b.tables.inodes[x], parent, np, newName, f).tables.inodes;
            Shifted(rows, rows', x, parent, np, newName, e, f, Moves(rows, x, np, newName, f))
  {
    var rows := b.tables.inodes;
    var d := if e.Some? then Displace(b, e.value, np, f) else b;
    if e.Some? {
      DisplacedRows(b, e.value, np, f);
    }
    KeepsUnique(rows, d.tables.inodes);
    ReparentRewrites(d, rows[x], parent, np, newName, f);
    var rows' := Reparent(d, rows[x], parent, np, newName, f).tables.inodes;
    ShiftedByMove(rows, d.tables.inodes, rows', x, parent, np, newName, e, f);
  }

  // ----- Wrong places -----

  /** x hangs under np now; all other rows have the parent and type they had. */
  ghost predicate HungUnder(rows: Inodes, rows': Inodes, x: Ino, np: Ino) {
    && x in rows' && rows'[x].parent == np
    && (forall j | j in rows' :: j in rows && rows'[j].fileType == rows[j].fileType)
    && forall j | j in rows' && j != x :: rows'[j].parent == rows[j].parent
  }

  /** A node hung under nothing, or under something that is no directory. */
  lemma NoDirectoryBreaksTree(rows: Inodes, rows': Inodes, x: Ino, np: Ino)
    requires HungUnder(rows, rows', x, np) && x != ROOT && !(np in rows && rows[np].IsDir())
    ensures !Tree(rows')
  {
    assert !Placed(rows', x);
  }

  ghost predicate Below(rows: Inodes, x: Ino, i: Ino) {
    exists n: nat :: Meets(rows, i, x, n)
  }

  /** From below a node that hangs below itself, no chain of parents arrives at the root. */
  lemma {:induction false} LoopIsCutOff(rows: Inodes, x: Ino, i: Ino, n: nat)
    requires x in rows && x != ROOT && Below(rows, x, rows[x].parent) && Below(rows, x, i)
    ensures !Reaches(rows, i, n)
    decreases n
  {
    var k: nat :| Meets(rows, i, x, k);
    if n > 0 && i in rows {
      if i != x {
        assert Meets(rows, rows[i].parent, x, k - 1);
      }
      LoopIsCutOff(rows, x, rows[i].parent, n - 1);
    }
  }

  /** The way up from np to x does not change when x is moved, as long as its nodes stay. */
  lemma {:induction false} WayUpStays(rows: Inodes, rows': Inodes, x: Ino, np: Ino, i: Ino, n: nat)
    requires HungUnder(rows, rows', x, np) && Meets(rows, i, x, n)
    requires i in rows' && forall j | j in rows' && j != ROOT && j != x :: rows[j].parent in rows'
    ensures Meets(rows', i, x, n)
    decreases n
  {
    if i != x {
      WayUpStays(rows, rows', x, np, rows[i].parent, n - 1);
    }
  }

  lemma LoopBreaksTree(rows: Inodes, rows': Inodes, x: Ino, np: Ino)
    requires HungUnder(rows, rows', x, np) && x != ROOT && np in rows' && !OutsideSubtree(rows, x, np)
    requires forall j | j in rows' && j != ROOT && j != x :: rows[j].parent in rows'
    ensures !Tree(rows')
  {
    var n: nat :| Meets(rows, np, x, n);
    WayUpStays(rows, rows', x, np, np, n);
    assert Below(rows', x, np);
    assert Meets(rows', x, x, 0);
    forall m: nat
      ensures !Reaches(rows', x, m)
    {
      LoopIsCutOff(rows', x, x, m);
    }
    assert !Rooted(rows', x);
  }

  /** Nobody's parent goes with a childless row. */
  lemma ParentsStay(rows: Inodes, rows1: Inodes, e: Ino)
    requires Tree(rows) && e in rows && (rows[e].children == [] || !rows[e].IsDir()) && rows1.Keys == rows.Keys - {e}
    ensures forall j | j in rows1 && j != ROOT :: rows[j].parent in rows1
  {
    ChildlessHasNoChild(rows, e);
    forall j | j in rows1 && j != ROOT
      ensures rows[j].parent in rows1
    {
      assert Placed(rows, j) && !ChildOf(rows, j, e);
    }
  }

  /** Some node hangs directly under the root, if there is any other node. */
  lemma {:induction false} RootHasChild(rows: Inodes, i: Ino, n: nat) returns (c: Ino)
    requires Reaches(rows, i, n) && i != ROOT
    ensures ChildOf(rows, c, ROOT)
    decreases n
  {
    if rows[i].parent == ROOT {
      c := i;
    } else {
      c := RootHasChild(rows, rows[i].parent, n - 1);
    }
  }

  /** Only a directory has entries, and the row found under the root's own coordinates is the non-empty root. */
  lemma TargetIsBelowDirectory(rows: Inodes, e: Ino, np: Ino, x: Ino)
    requires Tree(rows) && e in rows && rows[e].parent == np && (rows[e].children == [] || !rows[e].IsDir())
    requires x in rows && x != ROOT
    ensures np != 0 && np in rows && rows[np].IsDir()
  {
    assert Placed(rows, e);
    if e == ROOT {
      assert Rooted(rows, x);
      var n: nat :| Reaches(rows, x, n);
      var c := RootHasChild(rows, x, n);
      ChildlessHasNoChild(rows, ROOT);
    }
  }

  lemma HungWronglyBreaksTree(rows: Inodes, rows': Inodes, x: Ino, np: Ino)
    requires HungUnder(rows, rows', x, np) && x != ROOT
             && !(np in rows && rows[np].IsDir() && OutsideSubtree(rows, x, np))
    requires np in rows ==> np in rows'
    requires forall j | j in rows' && j != ROOT && j != x :: rows[j].parent in rows'
    ensures !Tree(rows')
  {
    if np in rows && rows[np].IsDir() {
      LoopBreaksTree(rows, rows', x, np);
    } else {
      NoDirectoryBreaksTree(rows, rows', x, np);
    }
  }

  // ----- Right places: the lists decide -----

  /** What list d must be like, told from the statements alone. */
  ghost predicate ListFits(x: Ino, parent: Ino, np: Ino, e: Option<Ino>, f: RenameFaults, moved: bool, d: Ino) {
    var still := d == parent && Kept(true, d == np, x, e, f, x);
    var adds := d == np && !f.newParent;
    var belongs := !(e == Some(x) && !f.delete) && d == if moved then np else parent;
    && (e.Some? && e.value != x && d == np ==> f.displaced == f.delete)
    && !(still && adds)
    && (still || adds <==> belongs)
  }

  lemma MembersOf(c: seq<Ino>, l: seq<Ino>, isOld: bool, isNew: bool, x: Ino, e: Option<Ino>, f: RenameFaults)
    requires NoDuplicates(c) && l == ListAfter(c, isOld, isNew, x, e, f)
    requires (x in c <==> isOld) && (e.Some? ==> (e.value in c <==> isNew))
    ensures var still := isOld && Kept(true, isNew, x, e, f, x);
            var adds := isNew && !f.newParent;
            && (NoDuplicates(l) <==> !(still && adds))
            && (x in l <==> still || adds)
            && (e.Some? && e.value != x ==> (e.value in l <==> isNew && f.displaced))
            && forall k | k != x && e != Some(k) :: k in l <==> k in c
  {
    ListAfterFacts(c, isOld, isNew, x, e, f);
  }

  lemma ChildrenByPlace(rows: Inodes, rows': Inodes, x: Ino, parent: Ino, np: Ino, newName: string,
                        e: Option<Ino>, f: RenameFaults, moved: bool, d: Ino)
    requires d in rows && Lists(rows, d) && Goes(rows, x, parent, np, newName, e, f)
    requires Shifted(rows, rows', x, parent, np, newName, e, f, moved)
    ensures forall k | k != x && e != Some(k) :: ChildOf(rows', k, d) <==> k in rows[d].children
    ensures ChildOf(rows', x, d) <==> !(e == Some(x) && !f.delete) && d == if moved then np else parent
    ensures e.Some? && e.value != x ==> (ChildOf(rows', e.value, d) <==> d == np && f.delete)
    ensures x in rows[d].children <==> d == parent
    ensures e.Some? ==> (e.value in rows[d].children <==> d == np)
  {
    forall k
      ensures k in rows[d].children <==> ChildOf(rows, k, d)
    {
    }
  }

  lemma ListsIffFits(rows: Inodes, rows': Inodes, x: Ino, parent: Ino, np: Ino, newName: string,
                     e: Option<Ino>, f: RenameFaults, moved: bool, d: Ino)
    requires Tree(rows) && Goes(rows, x, parent, np, newName, e, f)
    requires Shifted(rows, rows', x, parent, np, newName, e, f, moved) && !(moved && x == np)
    requires d in rows'
    ensures Lists(rows', d) <==> ListFits(x, parent, np, e, f, moved, d)
  {
    assert Lists(rows, d);
    ChildrenByPlace(rows, rows', x, parent, np, newName, e, f, moved, d);
    MembersOf(rows[d].children, rows'[d].children, d == parent, d == np, x, e, f);
    FitsByMembers(rows', rows[d].children, x, parent, np, e, f, moved, d);
  }

  lemma FitsByMembers(rows': Inodes, c: seq<Ino>, x: Ino, parent: Ino, np: Ino, e: Option<Ino>, f: RenameFaults,
                      moved: bool, d: Ino)
    requires d in rows'
    requires forall k | k != x && e != Some(k) :: ChildOf(rows', k, d) <==> k in c
    requires ChildOf(rows', x, d) <==> !(e == Some(x) && !f.delete) && d == if moved then np else parent
    requires e.Some? && e.value != x ==> (ChildOf(rows', e.value, d) <==> d == np && f.delete)
    requires var l := rows'[d].children;
             var still := d == parent && Kept(true, d == np, x, e, f, x);
             var adds := d == np && !f.newParent;
             && (NoDuplicates(l) <==> !(still && adds))
             && (x in l <==> still || adds)
             && (e.Some? && e.value != x ==> (e.value in l <==> d == np && f.displaced))
             && forall k | k != x && e != Some(k) :: k in l <==> k in c
    ensures Lists(rows', d) <==> ListFits(x, parent, np, e, f, moved, d)
  {
    if Lists(rows', d) {
      assert x in rows'[d].children <==> ChildOf(rows', x, d);
      if e.Some? {
        assert e.value in rows'[d].children <==> ChildOf(rows', e.value, d);
      }
    }
  }

  lemma FitsEverywhereIff(rows: Inodes, rows': Inodes, x: Ino, parent: Ino, np: Ino, e: Option<Ino>, f: RenameFaults,
                          moved: bool)
    requires parent in rows' && (np in rows <==> np in rows') && (e.Some? ==> np in rows)
    requires moved ==> np in rows
    requires e == Some(x) ==> parent == np
    ensures (forall d | d in rows' :: ListFits(x, parent, np, e, f, moved, d)) <==>
            if e == Some(x) then
              if f.delete then (f.displaced && f.oldParent) == f.newParent
               else !(f.displaced && f.oldParent) && f.newParent
            else (e.Some? ==> f.delete == f.displaced) && ListedWhereItIs(rows, parent, np, moved, f)
  {
    var all := forall d | d in rows' :: ListFits(x, parent, np, e, f, moved, d);
    assert all ==> ListFits(x, parent, np, e, f, moved, parent);
    assert all && np in rows' ==> ListFits(x, parent, np, e, f, moved, np);
  }

  // ----- Trees in the same places -----

  function WithoutRow(rows: Inodes, e: Ino): Inodes
    requires e in rows
  {
    map j | j in rows && j != e ::
      if j == rows[e].parent then rows[j].(children := Retain(rows[j].children, e)) else rows[j]
  }

  lemma WithoutRowIsATree(rows: Inodes, e: Ino, np: Ino)
    requires Tree(rows) && Removable(rows, e, np)
    ensures Tree(WithoutRow(rows, e))
  {
    assert Removed(rows, WithoutRow(rows, e), e);
    RemoveKeepsTree(rows, WithoutRow(rows, e), e);
  }

  function WithMoved(rows: Inodes, x: Ino, np: Ino, newName: string): Inodes
    requires x in rows
  {
    map j | j in rows ::
      if j == x then rows[x].(parent := np, name := newName)
      else rows[j].(children := MovedChildren(rows, x, np, j))
  }

  lemma WithMovedIsATree(rows: Inodes, x: Ino, np: Ino, newName: string)
    requires Tree(rows) && x in rows && x != ROOT && np in rows && rows[np].IsDir() && OutsideSubtree(rows, x, np)
    requires forall i | i in rows :: !IsNamed(rows, i, np, newName)
    ensures Tree(WithMoved(rows, x, np, newName))
  {
    assert !Meets(rows, np, x, 0);
    assert Moved(rows, WithMoved(rows, x, np, newName), x, np, newName);
    MoveKeepsTree(rows, WithMoved(rows, x, np, newName), x, np, newName);
  }

  /** The rows without the deleted destination are a tree, in which nothing else changed its place. */
  lemma BaseTree(rows: Inodes, x: Ino, parent: Ino, np: Ino, newName: string, e: Option<Ino>, f: RenameFaults)
    returns (base: Inodes)
    requires Tree(rows) && Goes(rows, x, parent, np, newName, e, f)
    ensures Tree(base) && base.Keys == rows.Keys - (if e.Some? && !f.delete then {e.value} else {})
    ensures forall j | j in base :: SamePlace(rows[j], base[j])
  {
    if e.Some? && !f.delete {
      base := WithoutRow(rows, e.value);
      WithoutRowIsATree(rows, e.value, np);
    } else {
      base := rows;
    }
  }

  /** Unless the inode is moved to a bad place, the rows are in the places of some tree. */
  lemma GoodPlaces(rows: Inodes, rows': Inodes, x: Ino, parent: Ino, np: Ino, newName: string,
                   e: Option<Ino>, f: RenameFaults, moved: bool) returns (good: Inodes)
    requires Tree(rows) && Goes(rows, x, parent, np, newName, e, f)
    requires Shifted(rows, rows', x, parent, np, newName, e, f, moved) && moved == Moves(rows, x, np, newName, f)
    requires moved ==> np in rows && rows[np].IsDir() && OutsideSubtree(rows, x, np)
    ensures Tree(good) && SamePlaces(good, rows')
  {
    var base := BaseTree(rows, x, parent, np, newName, e, f);
    if moved && x in base && !(np == parent && newName == rows[x].name) {
      NoneThere(rows, base, x, np, newName, e, f);
      OutsideStill(rows, base, x, np);
      WithMovedIsATree(base, x, np, newName);
      good := WithMoved(base, x, np, newName);
    } else {
      good := base;
    }
    PlacesAgree(rows, base, good, rows', x, parent, np, newName, e, f, moved);
  }

  lemma PlacesAgree(rows: Inodes, base: Inodes, good: Inodes, rows': Inodes, x: Ino, parent: Ino, np: Ino,
                    newName: string, e: Option<Ino>, f: RenameFaults, moved: bool)
    requires Shifted(rows, rows', x, parent, np, newName, e, f, moved) && rows[x].parent == parent
    requires base.Keys == rows.Keys - (if e.Some? && !f.delete then {e.value} else {})
    requires forall j | j in base :: SamePlace(rows[j], base[j])
    requires if moved && x in base && !(np == parent && newName == rows[x].name)
             then good == WithMoved(base, x, np, newName)
             else good == base
    ensures SamePlaces(good, rows')
  {
    forall j | j in good
      ensures SamePlace(good[j], rows'[j])
    {
      assert SamePlace(rows[j], base[j]);
    }
  }

  lemma NoneThere(rows: Inodes, base: Inodes, x: Ino, np: Ino, newName: string, e: Option<Ino>, f: RenameFaults)
    requires Keyed(rows) && UniqueNames(rows) && Moves(rows, x, np, newName, f) && x in rows
    requires e == (var target := Lookup(rows, np, newName);
                   if f.lookup || target.None? then None else Some(target.value.ino))
    requires base.Keys == rows.Keys - (if e.Some? && !f.delete then {e.value} else {})
    requires forall j | j in base :: SamePlace(rows[j], base[j])
    requires !(np == rows[x].parent && newName == rows[x].name)
    ensures forall i | i in base :: !IsNamed(base, i, np, newName)
  {
    VacantMeansMoves(rows, base, x, np, newName, e, f);
    assert x in base ==> SamePlace(rows[x], base[x]);
  }

  lemma OutsideStill(rows: Inodes, base: Inodes, x: Ino, np: Ino)
    requires OutsideSubtree(rows, x, np) && forall j | j in base :: j in rows && SamePlace(rows[j], base[j])
    ensures OutsideSubtree(base, x, np)
  {
    forall n: nat
      ensures !Meets(base, np, x, n)
    {
      if Meets(base, np, x, n) {
        assert forall j | j in base :: base[j].parent == rows[j].parent;
        MeetsInFewer(rows, base, np, x, n);
      }
    }
  }

  // ----- The theorem -----

  /** The parent of an inode does not lie below it. */
  lemma ParentIsOutside(rows: Inodes, x: Ino)
    requires Tree(rows) && x in rows && x != ROOT
    ensures OutsideSubtree(rows, x, rows[x].parent)
  {
    assert Rooted(rows, x);
    var m: nat :| Reaches(rows, x, m);
    forall n: nat
      ensures !Meets(rows, rows[x].parent, x, n)
    {
      if Meets(rows, rows[x].parent, x, n) {
        assert Meets(rows, x, x, 0);
        LoopIsCutOff(rows, x, x, m);
      }
    }
  }

  lemma NotRefusedGoes(db: Db, parent: Ino, name: string, np: Ino, newName: string, f: RenameFaults)
    returns (x: Ino, e: Option<Ino>)
    requires Tree(db.tables.inodes) && parent != 0 && !Refused(db, parent, name, np, newName, f)
    ensures Goes(db.tables.inodes, x, parent, np, newName, e, f)
    ensures Lookup(db.tables.inodes, parent, name) == Some(db.tables.inodes[x])
    ensures e.Some? ==> np in db.tables.inodes && db.tables.inodes[np].IsDir()
    ensures e == Some(x) ==> parent == np
    ensures var seen := Seen(db.tables.inodes, np, newName, f.lookup);
            if e.Some? then seen == Some(db.tables.inodes[e.value]) else seen.None?
  {
    var rows := db.tables.inodes;
    ResolveMatches(rows, parent, name);
    ResolveMatches(rows, np, newName);
    x := Lookup(rows, parent, name).value.ino;
    BelowIsRemovable(rows, x, parent);
    var seen := Seen(rows, np, newName, f.lookup);
    e := if seen.Some? then Some(seen.value.ino) else None;
    if seen.Some? {
      TargetIsBelowDirectory(rows, seen.value.ino, np, x);
      BelowIsRemovable(rows, seen.value.ino, np);
      ChildlessHasNoChild(rows, seen.value.ino);
      assert !ChildOf(rows, x, seen.value.ino);
    }
  }

  lemma SurvivesIff(rows: Inodes, rows': Inodes, x: Ino, parent: Ino, np: Ino, newName: string, e: Option<Ino>,
                    f: RenameFaults)
    requires Tree(rows) && Goes(rows, x, parent, np, newName, e, f)
    requires Shifted(rows, rows', x, parent, np, newName, e, f, Moves(rows, x, np, newName, f))
    requires e.Some? ==> np in rows && rows[np].IsDir()
    requires e == Some(x) ==> parent == np
    ensures Tree(rows') <==>
            if e == Some(x) then
              if f.delete then (f.displaced && f.oldParent) == f.newParent
               else !(f.displaced && f.oldParent) && f.newParent
            else
              && (e.Some? ==> f.delete == f.displaced)
              && (Moves(rows, x, np, newName, f) ==> np in rows && rows[np].IsDir() && OutsideSubtree(rows, x, np))
              && ListedWhereItIs(rows, parent, np, Moves(rows, x, np, newName, f), f)
  {
    var moved := Moves(rows, x, np, newName, f);
    if e == Some(x) {
      ParentIsOutside(rows, x);
    }
    if moved && !(np in rows && rows[np].IsDir() && OutsideSubtree(rows, x, np)) {
      ParentsStayRows(rows, rows', e, f);
      HungWronglyBreaksTree(rows, rows', x, np);
    } else {
      var good := GoodPlaces(rows, rows', x, parent, np, newName, e, f, moved);
      RelistedTreeIff(good, rows');
      assert moved && x == np ==> Meets(rows, np, x, 0);
      forall d | d in rows'
        ensures Lists(rows', d) <==> ListFits(x, parent, np, e, f, moved, d)
      {
        ListsIffFits(rows, rows', x, parent, np, newName, e, f, moved, d);
      }
      FitsEverywhereIff(rows, rows', x, parent, np, e, f, moved);
    }
  }

  lemma ParentsAreRows(rows: Inodes)
    requires Tree(rows)
    ensures forall j | j in rows && j != ROOT :: rows[j].parent in rows
  {
    assert forall j | j in rows :: Placed(rows, j);
  }

  lemma ParentsStayRows(rows: Inodes, rows': Inodes, e: Option<Ino>, f: RenameFaults)
    requires Tree(rows) && rows'.Keys == rows.Keys - (if e.Some? && !f.delete then {e.value} else {})
    requires e.Some? ==> e.value in rows && (rows[e.value].children == [] || !rows[e.value].IsDir())
    ensures forall j | j in rows' && j != ROOT :: rows[j].parent in rows'
  {
    ParentsAreRows(rows);
    if e.Some? && !f.delete {
      ParentsStay(rows, rows', e.value);
    }
  }

  /** Whatever fails, rename leaves a tree exactly if it is refused or meets the condition on the rows it finds. */
  lemma {:induction false} RenameKeepsTreeIff(db: Db, parent: Ino, name: string, np: Ino, newName: string,
                                              f: RenameFaults)
    requires Tree(db.tables.inodes) && parent != 0
    ensures Tree(Rename(db, parent, name, np, newName, f).db.tables.inodes) <==>
            || Refused(db, parent, name, np, newName, f)
            || Survives(db.tables.inodes, Lookup(db.tables.inodes, parent, name).value.ino, parent, np, newName, f)
  {
    var rows, r := db.tables.inodes, Rename(db, parent, name, np, newName, f).db.tables.inodes;
    if Refused(db, parent, name, np, newName, f) {
      RefusedChangesNothing(db, parent, name, np, newName, f);
    } else {
      var x, e := NotRefusedGoes(db, parent, name, np, newName, f);
      GoingRename(db, x, e, parent, name, np, newName, f);
      RenameShifts(Begin(db).db, x, parent, np, newName, e, f);
      SurvivesIff(rows, r, x, parent, np, newName, e, f);
    }
  }

  lemma RefusedChangesNothing(db: Db, parent: Ino, name: string, np: Ino, newName: string, f: RenameFaults)
    requires Refused(db, parent, name, np, newName, f)
    ensures Rename(db, parent, name, np, newName, f).db.tables == db.tables
  {
  }

  lemma GoingRename(db: Db, x: Ino, e: Option<Ino>, parent: Ino, name: string, np: Ino, newName: string,
                    f: RenameFaults)
    requires !Refused(db, parent, name, np, newName, f) && Keyed(db.tables.inodes)
    requires x in db.tables.inodes && Lookup(db.tables.inodes, parent, name) == Some(db.tables.inodes[x])
    requires var seen := Seen(db.tables.inodes, np, newName, f.lookup);
             if e.Some? then e.value in db.tables.inodes && seen == Some(db.tables.inodes[e.value]) else seen.None?
    ensures var b := Begin(db).db;
            Rename(db, parent, name, np, newName, f).db.tables
            == Reparent(if e.Some? then Displace(b, e.value, np, f) else b,
                        b.tables.inodes[x], parent, np, newName, f).tables
  {
  }

  /**
   If nothing fails: exactly the renames into a directory outside the moved subtree, and not of
   a name onto itself.
   */
  lemma QuietRenameKeepsTreeIff(db: Db, parent: Ino, name: string, np: Ino, newName: string, f: RenameFaults)
    requires Tree(db.tables.inodes) && parent != 0 && f.Quiet()
    ensures var rows := db.tables.inodes;
            Tree(Rename(db, parent, name, np, newName, f).db.tables.inodes) <==>
            || Refused(db, parent, name, np, newName, f)
            || (&& (parent, name) != (np, newName)
                && np in rows && rows[np].IsDir() && OutsideSubtree(rows, Lookup(rows, parent, name).value.ino, np))
  {
    RenameKeepsTreeIff(db, parent, name, np, newName, f);
    if !Refused(db, parent, name, np, newName, f) {
      var x, e := NotRefusedGoes(db, parent, name, np, newName, f);
      ResolveMatches(db.tables.inodes, parent, name);
      ResolveMatches(db.tables.inodes, np, newName);
    }
  }
}
