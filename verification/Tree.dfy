/**
 The namespace as a rooted tree. Membership of a directory is stored twice, in
 the children list of its row and in the parent column of its members' rows;
 here are the single steps that change it and what they keep.
 */
module Trees {
  import opened Stores
  import opened Namespace

  predicate NoDuplicates(s: seq<Ino>) {
    forall i, j | 0 <= i < j < |s| :: s[i] != s[j]
  }

  predicate ChildOf(rows: Inodes, c: Ino, d: Ino) {
    c in rows && rows[c].parent == d
  }

  /** The children list is free of duplicates and names exactly the rows with this parent. */
  ghost predicate Lists(rows: Inodes, d: Ino)
    requires d in rows
  {
    && NoDuplicates(rows[d].children)
    && forall c {:trigger ChildOf(rows, c, d)} {:trigger c in rows[d].children} ::
         c in rows[d].children <==> ChildOf(rows, c, d)
  }

  /** The parent column of every row but the root names a directory. */
  predicate Placed(rows: Inodes, i: Ino)
    requires i in rows
  {
    i == ROOT || (rows[i].parent in rows && rows[rows[i].parent].IsDir())
  }

  /** The chain of parents from i arrives at the root within n steps. */
  predicate Reaches(rows: Inodes, i: Ino, n: nat)
    decreases n
  {
    i in rows && (i == ROOT || (n > 0 && Reaches(rows, rows[i].parent, n - 1)))
  }

  ghost predicate Rooted(rows: Inodes, i: Ino) {
    exists n: nat :: Reaches(rows, i, n)
  }

  ghost predicate HasRoot(rows: Inodes) {
    ROOT in rows && rows[ROOT].IsDir() && rows[ROOT].parent == 0 && 0 !in rows
  }

  ghost predicate Tree(rows: Inodes) {
    && Keyed(rows)
    && UniqueNames(rows)
    && HasRoot(rows)
    && (forall i {:trigger Placed(rows, i)} | i in rows :: Placed(rows, i))
    && (forall d {:trigger Lists(rows, d)} | d in rows :: Lists(rows, d))
    && (forall i {:trigger Rooted(rows, i)} | i in rows :: Rooted(rows, i))
  }

  // ----- Children lists -----

  lemma {:induction false} RetainDrops(s: seq<Ino>, gone: Ino)
    ensures forall c :: c in Retain(s, gone) <==> c in s && c != gone
    ensures NoDuplicates(s) ==> NoDuplicates(Retain(s, gone))
  {
    if s != [] {
      RetainDrops(s[1..], gone);
      assert s == [s[0]] + s[1..];
      if NoDuplicates(s) {
        assert forall i, j | 0 <= i < j < |s[1..]| :: s[1..][i] == s[i + 1] && s[1..][j] == s[j + 1];
        assert s[0] !in s[1..];
      }
    }
  }

  // ----- Parent chains -----

  lemma {:induction false} ChainKept(rows: Inodes, rows': Inodes, i: Ino, n: nat)
    requires Reaches(rows, i, n)
    requires forall j | j in rows :: j in rows' && rows'[j].parent == rows[j].parent
    ensures Reaches(rows', i, n)
    decreases n
  {
    if i != ROOT {
      ChainKept(rows, rows', rows[i].parent, n - 1);
    }
  }

  lemma {:induction false} ChainAvoids(rows: Inodes, rows': Inodes, x: Ino, i: Ino, n: nat)
    requires Reaches(rows, i, n) && i != x
    requires forall j | j in rows && j != x ::
               j in rows' && rows'[j].parent == rows[j].parent && (j != ROOT ==> rows[j].parent != x)
    ensures Reaches(rows', i, n)
    decreases n
  {
    if i != ROOT {
      ChainAvoids(rows, rows', x, rows[i].parent, n - 1);
    }
  }

  /** Following parents from i for at most n steps meets x. */
  predicate Meets(rows: Inodes, i: Ino, x: Ino, n: nat)
    decreases n
  {
    i == x || (n > 0 && i in rows && i != ROOT && Meets(rows, rows[i].parent, x, n - 1))
  }

  /** The directory np does not lie in the subtree of x. */
  ghost predicate OutsideSubtree(rows: Inodes, x: Ino, np: Ino) {
    forall n: nat :: !Meets(rows, np, x, n)
  }

  lemma {:induction false} ChainOutside(rows: Inodes, rows': Inodes, x: Ino, i: Ino, n: nat)
    requires Reaches(rows, i, n) && !Meets(rows, i, x, n)
    requires forall j | j in rows && j != x :: j in rows' && rows'[j].parent == rows[j].parent
    ensures Reaches(rows', i, n)
    decreases n
  {
    if i != ROOT {
      ChainOutside(rows, rows', x, rows[i].parent, n - 1);
    }
  }

  /** After x is hung under np, whose chain is intact, every chain still arrives at the root. */
  lemma {:induction false} ChainMoved(rows: Inodes, rows': Inodes, x: Ino, np: Ino, k: nat, i: Ino, n: nat)
    returns (m: nat)
    requires Reaches(rows, i, n) && x != ROOT && x in rows' && rows'[x].parent == np && Reaches(rows', np, k)
    requires forall j | j in rows && j != x :: j in rows' && rows'[j].parent == rows[j].parent
    ensures Reaches(rows', i, m)
    decreases n
  {
    if i == x {
      m := k + 1;
    } else if i == ROOT {
      m := 0;
    } else {
      var m' := ChainMoved(rows, rows', x, np, k, rows[i].parent, n - 1);
      m := m' + 1;
    }
  }

  // ----- Adding a node -----

  /** p' is the row p with another children list; name, parent and type stay. */
  predicate SamePlace(p: Inode, p': Inode) {
    p'.ino == p.ino && p'.parent == p.parent && p'.name == p.name && p'.fileType == p.fileType
  }

  ghost predicate Fresh(rows: Inodes, node: Inode) {
    node.ino != 0 && node.ino !in rows && node.children == []
  }

  /** The rows after a new node has joined directory p. */
  ghost predicate Added(rows: Inodes, rows': Inodes, node: Inode, p: Ino) {
    && p in rows && node.parent == p
    && rows'.Keys == rows.Keys + {node.ino}
    && rows'[node.ino] == node
    && (forall j | j in rows :: SamePlace(rows[j], rows'[j]))
    && forall j | j in rows :: rows'[j].children == if j == p then rows[j].children + [node.ino] else rows[j].children
  }

  lemma AddKeepsTree(rows: Inodes, rows': Inodes, node: Inode, p: Ino)
    requires Tree(rows) && Fresh(rows, node) && !NameTaken(rows, node)
    requires Added(rows, rows', node, p) && rows[p].IsDir()
    ensures Tree(rows')
  {
    NobodyBelow(rows, node.ino);
    forall d | d in rows'
      ensures Lists(rows', d)
    {
      assert d in rows ==> Lists(rows, d);
      AddKeepsLists(rows, rows', node, p, d);
    }
    forall i | i in rows'
      ensures Placed(rows', i)
    {
      assert i in rows ==> Placed(rows, i);
    }
    forall i | i in rows'
      ensures Rooted(rows', i)
    {
      var j := if i == node.ino then p else i;
      assert Rooted(rows, j);
      var n: nat :| Reaches(rows, j, n);
      ChainKept(rows, rows', j, n);
      assert Reaches(rows', i, n + 1) || Reaches(rows', i, n);
    }
    AddKeepsNames(rows, rows', node, p);
  }

  lemma AddKeepsNames(rows: Inodes, rows': Inodes, node: Inode, p: Ino)
    requires Keyed(rows) && UniqueNames(rows) && node.ino !in rows && !NameTaken(rows, node)
    requires Added(rows, rows', node, p)
    ensures Keyed(rows') && UniqueNames(rows')
  {
  }

  /** An unused inode number is nobody's parent. */
  lemma NobodyBelow(rows: Inodes, ino: Ino)
    requires Tree(rows) && ino != 0 && ino !in rows
    ensures forall c :: !ChildOf(rows, c, ino)
  {
    forall c
      ensures !ChildOf(rows, c, ino)
    {
      if c in rows {
        assert Placed(rows, c);
      }
    }
  }

  lemma AddKeepsLists(rows: Inodes, rows': Inodes, node: Inode, p: Ino, d: Ino)
    requires Fresh(rows, node) && forall c :: !ChildOf(rows, c, node.ino)
    requires Added(rows, rows', node, p)
    requires if d in rows then Lists(rows, d) else d == node.ino
    ensures Lists(rows', d)
  {
    forall c
      ensures c in rows'[d].children <==> ChildOf(rows', c, d)
    {
      if d in rows {
        assert c in rows[d].children <==> ChildOf(rows, c, d);
      }
      if c in rows {
        assert SamePlace(rows[c], rows'[c]) && !ChildOf(rows, c, node.ino);
      }
    }
    if d == p {
      assert !ChildOf(rows, node.ino, p);
    }
  }

  // ----- Removing a node -----

  /** Nothing has a node with an empty children list as its parent. */
  lemma ChildlessHasNoChild(rows: Inodes, x: Ino)
    requires Tree(rows) && x in rows && (rows[x].children == [] || !rows[x].IsDir())
    ensures forall j | j in rows && j != ROOT :: rows[j].parent != x
    ensures forall j :: !ChildOf(rows, j, x)
  {
    assert Lists(rows, x);
    forall j
      ensures !ChildOf(rows, j, x)
    {
      if j in rows {
        assert Placed(rows, j);
      }
    }
    forall j | j in rows && j != ROOT
      ensures rows[j].parent != x
    {
      assert !ChildOf(rows, j, x);
    }
  }

  /** The rows after x has left the tree. */
  ghost predicate Removed(rows: Inodes, rows': Inodes, x: Ino) {
    && x in rows
    && rows'.Keys == rows.Keys - {x}
    && (forall j | j in rows' :: SamePlace(rows[j], rows'[j]))
    && forall j | j in rows' ::
         rows'[j].children == if j == rows[x].parent then Retain(rows[j].children, x) else rows[j].children
  }

  lemma RemoveKeepsTree(rows: Inodes, rows': Inodes, x: Ino)
    requires Tree(rows) && Removed(rows, rows', x)
    requires x != ROOT && (rows[x].children == [] || !rows[x].IsDir())
    ensures Tree(rows')
  {
    ChildlessHasNoChild(rows, x);
    forall i | i in rows'
      ensures Placed(rows', i)
    {
      assert Placed(rows, i) && SamePlace(rows[i], rows'[i]);
    }
    forall d | d in rows'
      ensures Lists(rows', d)
    {
      assert Lists(rows, d);
      RemoveKeepsLists(rows, rows', x, d);
    }
    forall i | i in rows'
      ensures Rooted(rows', i)
    {
      assert Rooted(rows, i);
      var n: nat :| Reaches(rows, i, n);
      ChainAvoids(rows, rows', x, i, n);
    }
    RemoveKeepsNames(rows, rows', x);
  }

  lemma RemoveKeepsNames(rows: Inodes, rows': Inodes, x: Ino)
    requires Keyed(rows) && UniqueNames(rows) && Removed(rows, rows', x)
    ensures Keyed(rows') && UniqueNames(rows')
  {
  }

  lemma RemoveKeepsLists(rows: Inodes, rows': Inodes, x: Ino, d: Ino)
    requires Removed(rows, rows', x) && d in rows' && Lists(rows, d)
    ensures Lists(rows', d)
  {
    RetainDrops(rows[d].children, x);
    forall c
      ensures c in rows'[d].children <==> ChildOf(rows', c, d)
    {
      assert c in rows[d].children <==> ChildOf(rows, c, d);
      assert x in rows[d].children <==> ChildOf(rows, x, d);
      if c in rows' {
        assert SamePlace(rows[c], rows'[c]);
      }
    }
  }

  // ----- Moving a node -----

  /** The rows after x has left its parent, been renamed, and joined np. */
  ghost predicate Moved(rows: Inodes, rows': Inodes, x: Ino, np: Ino, newName: string) {
    && x in rows && np in rows && x != np
    && rows'.Keys == rows.Keys
    && (forall j | j in rows && j != x :: SamePlace(rows[j], rows'[j]))
    && rows'[x].ino == x && rows'[x].parent == np && rows'[x].name == newName
    && rows'[x].fileType == rows[x].fileType && rows'[x].children == rows[x].children
    && forall j | j in rows && j != x :: rows'[j].children == MovedChildren(rows, x, np, j)
  }

  function MovedChildren(rows: Inodes, x: Ino, np: Ino, j: Ino): seq<Ino>
    requires x in rows && j in rows
  {
    var left := if j == rows[x].parent then Retain(rows[j].children, x) else rows[j].children;
    if j == np then left + [x] else left
  }

  lemma MoveKeepsTree(rows: Inodes, rows': Inodes, x: Ino, np: Ino, newName: string)
    requires Tree(rows) && Moved(rows, rows', x, np, newName)
    requires x != ROOT && rows[np].IsDir() && OutsideSubtree(rows, x, np)
    requires forall i | i in rows :: !IsNamed(rows, i, np, newName)
    ensures Tree(rows')
  {
    forall i | i in rows'
      ensures Placed(rows', i)
    {
      assert Placed(rows, i);
    }
    forall d | d in rows'
      ensures Lists(rows', d)
    {
      MoveKeepsLists(rows, rows', x, np, newName, d);
    }
    assert Rooted(rows, np);
    var k: nat :| Reaches(rows, np, k);
    ChainOutside(rows, rows', x, np, k);
    forall i | i in rows'
      ensures Rooted(rows', i)
    {
      assert Rooted(rows, i);
      var n: nat :| Reaches(rows, i, n);
      var m := ChainMoved(rows, rows', x, np, k, i, n);
    }
    MoveKeepsNames(rows, rows', x, np, newName);
  }

  lemma MoveKeepsNames(rows: Inodes, rows': Inodes, x: Ino, np: Ino, newName: string)
    requires Keyed(rows) && UniqueNames(rows) && Moved(rows, rows', x, np, newName)
    requires forall i | i in rows :: !IsNamed(rows, i, np, newName)
    ensures UniqueNames(rows') && Keyed(rows')
  {
  }

  lemma MoveKeepsLists(rows: Inodes, rows': Inodes, x: Ino, np: Ino, newName: string, d: Ino)
    requires Tree(rows) && Moved(rows, rows', x, np, newName) && x != ROOT && d in rows
    ensures Lists(rows', d)
  {
    assert Lists(rows, d);
    var p := rows[x].parent;
    RetainDrops(rows[d].children, x);
    assert x in rows[d].children <==> ChildOf(rows, x, d);
    if d == x {
      assert !ChildOf(rows, x, x) by {
        ParentIsAnother(rows, x);
      }
    }
    forall c
      ensures c in rows'[d].children <==> ChildOf(rows', c, d)
    {
      assert c in rows[d].children <==> ChildOf(rows, c, d);
      if c in rows && c != x {
        assert SamePlace(rows[c], rows'[c]);
      }
    }
  }

  /** No inode but the root can be its own parent, since its chain arrives at the root. */
  lemma ParentIsAnother(rows: Inodes, x: Ino)
    requires Tree(rows) && x in rows && x != ROOT
    ensures rows[x].parent != x
  {
    assert Rooted(rows, x);
    var n: nat :| Reaches(rows, x, n);
    if rows[x].parent == x {
      LoopNeverReaches(rows, x, n);
    }
  }

  lemma {:induction false} LoopNeverReaches(rows: Inodes, x: Ino, n: nat)
    requires x in rows && x != ROOT && rows[x].parent == x
    ensures !Reaches(rows, x, n)
  {
    if n > 0 {
      LoopNeverReaches(rows, x, n - 1);
    }
  }
}
