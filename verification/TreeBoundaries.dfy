/**
 Where the tree breaks: for the requests and failures that the main theorems
 exclude, exactly which of them the tree survives, told from the state before.
 */
module TreeBoundaries {
  import opened Stores
  import opened Namespace
  import opened Trees
  import opened NamespaceRefinement

  // ----- Children lists over given places -----

  ghost predicate SamePlaces(rows: Inodes, rows': Inodes) {
    rows'.Keys == rows.Keys && forall j | j in rows :: SamePlace(rows[j], rows'[j])
  }

  lemma PlacesOfATree(good: Inodes, rows: Inodes)
    requires Tree(good) && SamePlaces(good, rows)
    ensures Keyed(rows) && UniqueNames(rows) && HasRoot(rows)
    ensures forall i | i in rows :: Placed(rows, i) && Rooted(rows, i)
  {
    assert forall i | i in good :: SamePlace(good[i], rows[i]);
    forall i | i in rows
      ensures Placed(rows, i) && Rooted(rows, i)
    {
      assert Placed(good, i) && Rooted(good, i);
      var n: nat :| Reaches(good, i, n);
      ChainKept(good, rows, i, n);
    }
  }

  /** Rows in the places of a tree are a tree exactly if their lists name the children by parent, each once. */
  lemma RelistedTreeIff(good: Inodes, rows: Inodes)
    requires Tree(good) && SamePlaces(good, rows)
    ensures Tree(rows) <==> forall d | d in rows :: Lists(rows, d)
  {
    PlacesOfATree(good, rows);
  }

  /** A row whose parent does not list it. */
  lemma UnlistedBreaksTree(rows: Inodes, x: Ino, parent: Ino)
    requires x in rows && rows[x].parent == parent && parent in rows && x !in rows[parent].children
    ensures !Tree(rows)
  {
    assert ChildOf(rows, x, parent);
    assert !Lists(rows, parent);
  }

  /** A child that a directory lists but that is gone. */
  lemma DanglingBreaksTree(rows: Inodes, d: Ino, x: Ino)
    requires d in rows && x !in rows && x in rows[d].children
    ensures !Tree(rows)
  {
    assert !ChildOf(rows, x, d);
    assert !Lists(rows, d);
  }

  // ----- mkdir, create and symlink -----

  /** A new entry can be put under this name. */
  ghost predicate FreeName(rows: Inodes, parent: Ino, name: string) {
    parent in rows && rows[parent].IsDir() && Lookup(rows, parent, name).None?
  }

  /** The node is inserted, its parent not rewritten, and the insert not undone. */
  ghost predicate InsertBreaks(db: Db, parent: Ino, name: string, f: Faults) {
    db.saved.None? && FreeName(db.tables.inodes, parent, name) && !InsertSurvives(f)
  }

  /** mkdir and create break the tree exactly if the rewriting of the parent fails and so does the rollback. */
  lemma MakeKeepsTreeIff(db: Db, parent: Ino, name: string, f: Faults)
    requires Tree(db.tables.inodes)
    ensures Tree(Mkdir(db, parent, name, f).db.tables.inodes) <==> !InsertBreaks(db, parent, name, f)
    ensures Tree(CreateNode(db, parent, name, f).db.tables.inodes) <==> !InsertBreaks(db, parent, name, f)
  {
    var rows := db.tables.inodes;
    if InsertSurvives(f) {
      MkdirRefines(db, parent, name, f);
      CreateRefines(db, parent, name, f);
    } else if parent in rows && rows[parent].IsDir() {
      var ino := NextIno(rows.Keys);
      HalfInserted(db, NewDir(ino, parent, name), parent, Adopt(rows[parent], ino, true), f);
      HalfInserted(db, NewFile(ino, parent, name), parent, Adopt(rows[parent], ino, false), f);
    }
  }

  lemma HalfInserted(db: Db, node: Inode, parent: Ino, p': Inode, f: Faults)
    requires Tree(db.tables.inodes) && parent in db.tables.inodes && node.parent == parent
    requires node.ino == NextIno(db.tables.inodes.Keys) && node.children == [] && !InsertSurvives(f)
    ensures Tree(InsertTxn(db, node, p', f).db.tables.inodes)
            <==> db.saved.Some? || Lookup(db.tables.inodes, parent, node.name).Some?
  {
    var rows := db.tables.inodes;
    if Lookup(rows, parent, node.name).Some? {
      TakenTxnOutcome(db, node, p', f);
    } else if db.saved.None? {
      NewNameIsFree(rows, node);
      var rows' := InsertTxn(db, node, p', f).db.tables.inodes;
      assert rows' == rows[node.ino := node];
      OnlyListed(rows, node.ino, parent);
      UnlistedBreaksTree(rows', node.ino, parent);
    }
  }

  /** No list names an unused number. */
  lemma OnlyListed(rows: Inodes, ino: Ino, d: Ino)
    requires Tree(rows) && d in rows && ino !in rows
    ensures ino !in rows[d].children
  {
    assert Lists(rows, d);
    assert !ChildOf(rows, ino, d);
  }

  /** symlink breaks the tree exactly if it inserts the link and its parent cannot be rewritten. */
  lemma {:induction false} SymlinkKeepsTreeIff(db: Db, parent: Ino, name: string, target: string, f: Faults)
    requires Tree(db.tables.inodes)
    ensures Tree(MakeSymlink(db, parent, name, target, f).db.tables.inodes)
            <==> !(f.update && !f.insert && FreeName(db.tables.inodes, parent, name))
  {
    var rows := db.tables.inodes;
    if f.update ==> f.insert {
      SymlinkRefines(db, parent, name, target, f);
    } else if parent in rows && rows[parent].IsDir() {
      var ino := NextIno(rows.Keys);
      var node, p' := NewSymlink(ino, parent, name, target), Adopt(rows[parent], ino, false);
      assert MakeSymlink(db, parent, name, target, f) == InsertBare(db, node, p', f);
      if Lookup(rows, parent, name).Some? {
        RefusedBare(db, node, p', f);
      } else {
        NewNameIsFree(rows, node);
        OnlyListed(rows, ino, parent);
        UnlistedBreaksTree(rows[ino := node], ino, parent);
      }
    }
  }

  // ----- unlink and rmdir -----

  ghost predicate FindsFile(rows: Inodes, parent: Ino, name: string) {
    var found := Lookup(rows, parent, name);
    found.Some? && !found.value.IsDir()
  }

  ghost predicate FindsEmptyDir(rows: Inodes, parent: Ino, name: string) {
    var found := Lookup(rows, parent, name);
    found.Some? && found.value.IsDir() && found.value.children == []
  }

  /**
   unlink and rmdir break the tree exactly if they come to their transaction and either
   delete the row but not its number in the parent's list, or the other way round with
   the rollback failing.
   */
  lemma RemoveKeepsTreeIff(db: Db, parent: Ino, name: string, f: Faults)
    requires Tree(db.tables.inodes) && parent != 0
    ensures Tree(Unlink(db, parent, name, f).db.tables.inodes)
            <==> !(db.saved.None? && FindsFile(db.tables.inodes, parent, name) && !RemoveSurvives(f))
    ensures Tree(Rmdir(db, parent, name, f).db.tables.inodes)
            <==> !(db.saved.None? && FindsEmptyDir(db.tables.inodes, parent, name) && !RemoveSurvives(f))
  {
    if RemoveSurvives(f) {
      UnlinkRefines(db, parent, name, f);
      RmdirRefines(db, parent, name, f);
    } else if Lookup(db.tables.inodes, parent, name).Some? && db.saved.None? {
      ResolveMatches(db.tables.inodes, parent, name);
      var x := Lookup(db.tables.inodes, parent, name).value.ino;
      HalfRemoved(db, parent, x, false, f);
      HalfRemoved(db, parent, x, true, f);
    }
  }

  lemma HalfRemoved(db: Db, parent: Ino, x: Ino, unlink: bool, f: Faults)
    requires Tree(db.tables.inodes) && parent != 0 && x in db.tables.inodes && db.tables.inodes[x].parent == parent
    requires db.saved.None? && !RemoveSurvives(f)
    ensures !Tree(RemoveTxn(db, parent, x, unlink, f).db.tables.inodes)
  {
    var rows, rows' := db.tables.inodes, RemoveTxn(db, parent, x, unlink, f).db.tables.inodes;
    BelowIsRemovable(rows, x, parent);
    DetachOutcome(Begin(db).db, parent, x, unlink, f.update);
    RetainDrops(rows[parent].children, x);
    if f.delete {
      assert rows' == rows[parent := Disown(rows[parent], x, unlink)];
      UnlistedBreaksTree(rows', x, parent);
    } else {
      assert rows' == rows - {x};
      assert Lists(rows, parent) && ChildOf(rows, x, parent);
      DanglingBreaksTree(rows', parent, x);
    }
  }
}
