/**
 Inode records (metadata/inode.rs) and the tables of the metadata database
 (inode_store.rs, block_store.rs, migrations.rs) with its one open transaction.
 */
module Stores {
  import opened Wrappers
  import opened Content
  import opened Manifests

  type Ino = nat

  datatype FileType = RegularFile | Directory | Symlink

  datatype Inode = Inode(
    ino: Ino,
    parent: Ino,
    name: string,
    fileType: FileType,
    size: nat,
    nlink: nat,
    manifest: Option<FileManifest>,
    symlinkTarget: Option<string>,
    children: seq<Ino>)
  {
    predicate IsDir() {
      fileType == Directory
    }

    predicate IsFile() {
      fileType == RegularFile
    }
  }

  const ROOT: Ino := 1

  function RootInode(): Inode {
    Inode(ROOT, 0, "", Directory, 0, 2, None, None, [])
  }

  function NewFile(ino: Ino, parent: Ino, name: string): Inode {
    Inode(ino, parent, name, RegularFile, 0, 1, Some(NewManifest(ino)), None, [])
  }

  function NewDir(ino: Ino, parent: Ino, name: string): Inode {
    Inode(ino, parent, name, Directory, 0, 2, None, None, [])
  }

  function NewSymlink(ino: Ino, parent: Ino, name: string, target: string): Inode {
    Inode(ino, parent, name, Symlink, |target|, 1, None, Some(target), [])
  }

  datatype BlockRecord = BlockRecord(
    rid: Rid,
    contentHash: Hash,
    messageId: int,
    encryptedSize: nat,
    epoch: nat,
    refCount: int,
    compressed: bool)

  // ----- Tables as values -----

  type Inodes = map<Ino, Inode>
  type Blocks = map<Rid, BlockRecord>

  datatype Tables = Tables(inodes: Inodes, blocks: Blocks)

  /** What queries see, and what the open transaction, if any, would roll back to. */
  datatype Db = Db(tables: Tables, saved: Option<Tables>)

  /** What survives if the process stops now: an open transaction is lost. */
  function Durable(db: Db): Tables {
    if db.saved.Some? then db.saved.value else db.tables
  }

  /** A result together with the database after the statement. */
  datatype Effect<+T> = Effect(db: Db, result: T)

  function Begin(db: Db): Effect<bool> {
    if db.saved.Some? then Effect(db, false) else Effect(db.(saved := Some(db.tables)), true)
  }

  /** COMMIT; a failing commit leaves the transaction open. */
  function Commit(db: Db, fails: bool): Effect<bool> {
    if fails then Effect(db, false) else Effect(db.(saved := None), true)
  }

  /** ROLLBACK; a failing one leaves the transaction open. */
  function Rollback(db: Db, fails: bool): Db {
    if db.saved.Some? && !fails then Db(db.saved.value, None) else db
  }

  /** Another row already has this parent and name: the unique index refuses. */
  predicate NameTaken(inodes: Inodes, inode: Inode) {
    exists i | i in inodes :: i != inode.ino && inodes[i].parent == inode.parent && inodes[i].name == inode.name
  }

  function InsertInode(db: Db, inode: Inode, fails: bool): Effect<bool> {
    if fails || inode.ino in db.tables.inodes || NameTaken(db.tables.inodes, inode) then Effect(db, false)
    else Effect(WithInode(db, inode), true)
  }

  /** UPDATE: no row, no change, no error. */
  function UpdateInode(db: Db, inode: Inode, fails: bool): Effect<bool> {
    if fails || (inode.ino in db.tables.inodes && NameTaken(db.tables.inodes, inode)) then Effect(db, false)
    else if inode.ino in db.tables.inodes then Effect(WithInode(db, inode), true)
    else Effect(db, true)
  }

  function WithInode(db: Db, inode: Inode): Db {
    db.(tables := db.tables.(inodes := db.tables.inodes[inode.ino := inode]))
  }

  function DeleteInode(db: Db, ino: Ino, fails: bool): Effect<bool> {
    if fails then Effect(db, false)
    else Effect(db.(tables := db.tables.(inodes := db.tables.inodes - {ino})), true)
  }

  function GetInode(db: Db, ino: Ino): Option<Inode> {
    if ino in db.tables.inodes then Some(db.tables.inodes[ino]) else None
  }

  predicate IsNamed(inodes: Inodes, i: Ino, parent: Ino, name: string) {
    i in inodes && inodes[i].parent == parent && inodes[i].name == name
  }

  ghost function Lookup(inodes: Inodes, parent: Ino, name: string): (r: Option<Inode>)
    ensures r.Some? ==> exists i | i in inodes :: IsNamed(inodes, i, parent, name) && r == Some(inodes[i])
    ensures r.None? ==> forall i | i in inodes :: !IsNamed(inodes, i, parent, name)
  {
    if i :| i in inodes && IsNamed(inodes, i, parent, name) then Some(inodes[i]) else None
  }

  lemma {:induction false} HighestExists(s: set<Ino>)
    requires s != {}
    ensures exists m :: IsHighest(s, m)
  {
    var x :| x in s;
    if s == {x} {
      assert IsHighest(s, x);
    } else {
      HighestExists(s - {x});
      var m :| IsHighest(s - {x}, m);
      var h := if m > x then m else x;
      forall i | i in s
        ensures i <= h
      {
        assert i == x || i in s - {x};
      }
      assert IsHighest(s, h);
    }
  }

  ghost predicate IsHighest(s: set<Ino>, m: Ino) {
    m in s && forall i | i in s :: i <= m
  }

  /** One more than the highest inode number in use. */
  ghost function NextIno(used: set<Ino>): (n: Ino)
    ensures n >= 1 && n !in used && forall i | i in used :: i < n
    ensures n == 1 || n - 1 in used
  {
    if used == {} then 1
    else
      HighestExists(used);
      var m: Ino :| IsHighest(used, m);
      m + 1
  }

  function InsertBlock(db: Db, block: BlockRecord, fails: bool): Effect<bool> {
    if fails || block.rid in db.tables.blocks then Effect(db, false)
    else Effect(db.(tables := db.tables.(blocks := db.tables.blocks[block.rid := block])), true)
  }

  predicate HasHash(blocks: Blocks, rid: Rid, h: Hash) {
    rid in blocks && blocks[rid].contentHash == h
  }

  ghost predicate IsLeast(s: set<Rid>, r: Rid) {
    r in s && forall t | t in s :: r.id <= t.id
  }

  lemma {:induction false} LeastExists(s: set<Rid>)
    requires s != {}
    ensures exists r :: IsLeast(s, r)
  {
    var x :| x in s;
    if s == {x} {
      assert IsLeast(s, x);
    } else {
      LeastExists(s - {x});
      var m :| IsLeast(s - {x}, m);
      var l := if m.id < x.id then m else x;
      forall t | t in s
        ensures l.id <= t.id
      {
        assert t == x || t in s - {x};
      }
      assert IsLeast(s, l);
    }
  }

  function RowsWithHash(blocks: Blocks, h: Hash): set<Rid> {
    set r | r in blocks && blocks[r].contentHash == h
  }

  /**
   A row with this content hash, if there is one. The database may return any of
   several: the one picked, if it has the hash, and else the one of the least identifier.
   */
  ghost function FindByHash(blocks: Blocks, h: Hash, pick: Rid): (r: Option<BlockRecord>)
    ensures r.Some? ==> exists rid | rid in blocks :: r == Some(blocks[rid]) && HasHash(blocks, rid, h)
    ensures r.None? ==> forall rid :: !HasHash(blocks, rid, h)
  {
    var rows := RowsWithHash(blocks, h);
    if pick in rows then Some(blocks[pick])
    else if rows == {} then
      assert forall rid :: HasHash(blocks, rid, h) ==> rid in rows;
      None
    else
      LeastExists(rows);
      var rid :| IsLeast(rows, rid);
      Some(blocks[rid])
  }

  function IncrementRef(db: Db, rid: Rid): Db {
    if rid in db.tables.blocks then
      var row := db.tables.blocks[rid];
      db.(tables := db.tables.(blocks := db.tables.blocks[rid := row.(refCount := row.refCount + 1)]))
    else db
  }

  // ----- The connection -----

  /** The unique index on parent and name, and the primary key. */
  ghost predicate UniqueNames(inodes: Inodes) {
    forall i, j | i in inodes && j in inodes ::
      inodes[i].parent == inodes[j].parent && inodes[i].name == inodes[j].name ==> i == j
  }

  ghost predicate Keyed(inodes: Inodes) {
    forall i | i in inodes :: inodes[i].ino == i
  }

  ghost predicate SoundTables(t: Tables) {
    && UniqueNames(t.inodes)
    && Keyed(t.inodes)
    && forall r | r in t.blocks :: t.blocks[r].rid == r
  }

  /** No other row has this parent together with this name. */
  ghost predicate NameFree(inodes: Inodes, inode: Inode) {
    forall i | i in inodes && i != inode.ino :: inodes[i].parent == inode.parent ==> inodes[i].name != inode.name
  }

  lemma WithInodeSound(t: Tables, inode: Inode)
    requires SoundTables(t) && !NameTaken(t.inodes, inode)
    ensures SoundTables(t.(inodes := t.inodes[inode.ino := inode]))
  {
  }

  lemma LookupUnique(inodes: Inodes, parent: Ino, name: string, i: Ino)
    requires UniqueNames(inodes) && IsNamed(inodes, i, parent, name)
    ensures Lookup(inodes, parent, name) == Some(inodes[i])
  {
  }

  /** The database connection that the inode and block stores share. */
  class Connection {
    var db: Db

    ghost predicate Valid()
      reads this
    {
      SoundTables(db.tables) && (db.saved.Some? ==> SoundTables(db.saved.value))
    }

    constructor ()
      ensures Valid() && db == Db(Tables(map[], map[]), None)
    {
      db := Db(Tables(map[], map[]), None);
    }

    method BeginTxn() returns (ok: bool)
      requires Valid()
      modifies this
      ensures Valid() && Effect(db, ok) == Begin(old(db))
    {
      if db.saved.Some? {
        return false;
      }
      db := db.(saved := Some(db.tables));
      return true;
    }

    method CommitTxn(fails: bool) returns (ok: bool)
      requires Valid()
      modifies this
      ensures Valid() && Effect(db, ok) == Commit(old(db), fails)
    {
      if fails {
        return false;
      }
      db := db.(saved := None);
      return true;
    }

    method RollbackTxn(fails: bool)
      requires Valid()
      modifies this
      ensures Valid() && db == Rollback(old(db), fails)
    {
      if db.saved.Some? && !fails {
        db := Db(db.saved.value, None);
      }
    }

    method Insert(inode: Inode, fails: bool) returns (ok: bool)
      requires Valid()
      modifies this
      ensures Valid() && Effect(db, ok) == InsertInode(old(db), inode, fails)
      ensures ok <==> !fails && inode.ino !in old(db).tables.inodes && NameFree(old(db).tables.inodes, inode)
      ensures db.tables.inodes == if ok then old(db).tables.inodes[inode.ino := inode] else old(db).tables.inodes
    {
      if fails || inode.ino in db.tables.inodes || NameTaken(db.tables.inodes, inode) {
        return false;
      }
      WithInodeSound(db.tables, inode);
      db := WithInode(db, inode);
      return true;
    }

    method Update(inode: Inode, fails: bool) returns (ok: bool)
      requires Valid()
      modifies this
      ensures Valid() && Effect(db, ok) == UpdateInode(old(db), inode, fails)
      ensures ok <==> !fails && (inode.ino in old(db).tables.inodes ==> NameFree(old(db).tables.inodes, inode))
      ensures var rows := old(db).tables.inodes;
              db.tables.inodes == if ok && inode.ino in rows then rows[inode.ino := inode] else rows
    {
      if fails || (inode.ino in db.tables.inodes && NameTaken(db.tables.inodes, inode)) {
        return false;
      }
      if inode.ino in db.tables.inodes {
        WithInodeSound(db.tables, inode);
        db := WithInode(db, inode);
      }
      return true;
    }

    method Delete(ino: Ino, fails: bool) returns (ok: bool)
      requires Valid()
      modifies this
      ensures Valid() && Effect(db, ok) == DeleteInode(old(db), ino, fails)
    {
      if fails {
        return false;
      }
      db := db.(tables := db.tables.(inodes := db.tables.inodes - {ino}));
      return true;
    }

    method Get(ino: Ino) returns (r: Option<Inode>)
      ensures r == GetInode(db, ino)
    {
      if ino in db.tables.inodes {
        return Some(db.tables.inodes[ino]);
      }
      return None;
    }

    /** The row with this parent and name; the unique index leaves no choice. */
    method LookupName(parent: Ino, name: string) returns (r: Option<Inode>)
      requires Valid()
      ensures r == Lookup(db.tables.inodes, parent, name)
    {
      var inodes := db.tables.inodes;
      if i :| i in inodes && IsNamed(inodes, i, parent, name) {
        LookupUnique(inodes, parent, name, i);
        return Some(inodes[i]);
      }
      return None;
    }

    /** All rows with this parent, in some order, each once. */
    method ListChildren(parent: Ino) returns (rows: seq<Inode>)
      requires Valid()
      ensures forall r :: r in rows <==> r.ino in db.tables.inodes && db.tables.inodes[r.ino] == r && r.parent == parent
      ensures forall i, j | 0 <= i < j < |rows| :: rows[i].ino != rows[j].ino
    {
      var inodes := db.tables.inodes;
      var pending := set i | i in inodes && inodes[i].parent == parent;
      ghost var all := pending;
      rows := [];
      while pending != {}
        invariant pending <= all
        invariant forall r :: r in rows <==> r.ino in all - pending && inodes[r.ino] == r
        invariant forall i, j | 0 <= i < j < |rows| :: rows[i].ino != rows[j].ino
        decreases |pending|
      {
        var i :| i in pending;
        pending := pending - {i};
        rows := rows + [inodes[i]];
      }
    }

    method NextFreeIno() returns (n: Ino)
      ensures n == NextIno(db.tables.inodes.Keys)
    {
      var inodes := db.tables.inodes;
      if |inodes.Keys| == 0 {
        return 1;
      }
      HighestExists(inodes.Keys);
      var m :| m in inodes.Keys && forall i | i in inodes.Keys :: i <= m;
      return m + 1;
    }

    method AddBlock(block: BlockRecord, fails: bool) returns (ok: bool)
      requires Valid()
      modifies this
      ensures Valid() && Effect(db, ok) == InsertBlock(old(db), block, fails)
    {
      if fails || block.rid in db.tables.blocks {
        return false;
      }
      db := db.(tables := db.tables.(blocks := db.tables.blocks[block.rid := block]));
      return true;
    }

    method FindByContentHash(h: Hash, pick: Rid) returns (r: Option<BlockRecord>)
      requires Valid()
      ensures r == FindByHash(db.tables.blocks, h, pick)
      ensures r.Some? ==> r.value.rid in db.tables.blocks && db.tables.blocks[r.value.rid] == r.value
    {
      var blocks := db.tables.blocks;
      var rows := RowsWithHash(blocks, h);
      if pick in rows {
        return Some(blocks[pick]);
      }
      if |rows| == 0 {
        return None;
      }
      LeastExists(rows);
      var rid :| rid in rows && forall t | t in rows :: rid.id <= t.id;
      return Some(blocks[rid]);
    }

    method AddReference(rid: Rid)
      requires Valid()
      modifies this
      ensures Valid() && db == IncrementRef(old(db), rid)
    {
      if rid in db.tables.blocks {
        var row := db.tables.blocks[rid];
        db := db.(tables := db.tables.(blocks := db.tables.blocks[rid := row.(refCount := row.refCount + 1)]));
      }
    }
  }
}
