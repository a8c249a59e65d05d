/**
 The namespace handlers of the filesystem (fs.rs) as functions on the database:
 the same lookups, updates, transactions and error returns, in the same order.
 */
module Namespace {
  import opened Wrappers
  import opened Content
  import opened Stores

  datatype Errno = ENOENT | ENOTDIR | EEXIST | EIO | EISDIR | ENOTEMPTY | EINVAL | EBADF

  datatype DirEntry = DirEntry(ino: Ino, kind: FileType, name: string)

  datatype Reply =
    | Ok
    | Err(errno: Errno)
    | Entry(ino: Ino, kind: FileType)
    | Created(ino: Ino, fh: nat)
    | Opened(fh: nat)
    | Bytes(data: Data)
    | Written(count: nat)
    | Listing(entries: set<DirEntry>)
    | Target(path: string)

  /**
   Statements that fail during a request: the lookup of an existing name, the row changes, the
   end of the transaction.
   */
  datatype Faults = Faults(lookup: bool, insert: bool, update: bool, delete: bool, rollback: bool, commit: bool)

  /**
   The same for rename: the lookup and the deletion of the destination, the rewriting
   of its directory, of the old parent, of the inode and of the new parent, and COMMIT.
   Reading a parent's row and writing it count as one, since both failures are ignored.
   */
  datatype RenameFaults = RenameFaults(
    lookup: bool, delete: bool, displaced: bool, oldParent: bool, inode: bool, newParent: bool, commit: bool)
  {
    /** No failure that the handler ignores, except that of COMMIT. */
    predicate Quiet() {
      !lookup && !delete && !displaced && !oldParent && !inode && !newParent
    }
  }

  /** The list without this inode number. */
  function Retain(children: seq<Ino>, gone: Ino): seq<Ino> {
    if children == [] then []
    else if children[0] == gone then Retain(children[1..], gone)
    else [children[0]] + Retain(children[1..], gone)
  }

  function SaturatingPred(n: nat): nat {
    if n == 0 then 0 else n - 1
  }

  /** A directory's row with one more child, which adds a link if it is a directory. */
  function Adopt(p: Inode, ino: Ino, subdir: bool): Inode {
    p.(children := p.children + [ino], nlink := if subdir then p.nlink + 1 else p.nlink)
  }

  /** A directory's row without this child, with one link less if asked for. */
  function Disown(p: Inode, ino: Ino, unlink: bool): Inode {
    p.(children := Retain(p.children, ino), nlink := if unlink then SaturatingPred(p.nlink) else p.nlink)
  }

  function InitRoot(db: Db, fails: bool): Effect<Reply> {
    if GetInode(db, ROOT).Some? then Effect(db, Ok)
    else
      var e := InsertInode(db, RootInode(), fails);
      Effect(e.db, if e.result then Ok else Err(EIO))
  }

  ghost function LookupEntry(db: Db, parent: Ino, name: string): Reply {
    match Lookup(db.tables.inodes, parent, name)
    case None => Err(ENOENT)
    case Some(inode) => Entry(inode.ino, inode.fileType)
  }

  /** A lookup whose failure is taken for the absence of the name. */
  ghost function Seen(rows: Inodes, parent: Ino, name: string, fails: bool): Option<Inode> {
    if fails then None else Lookup(rows, parent, name)
  }

  /** The transaction of mkdir and create: insert the node, rewrite its parent, roll back if either fails. */
  function InsertTxn(db: Db, node: Inode, parentRow: Inode, f: Faults): Effect<Reply> {
    var b := Begin(db);
    if !b.result then Effect(b.db, Err(EIO))
    else
      var i := InsertInode(b.db, node, f.insert);
      if !i.result then Effect(Rollback(i.db, f.rollback), Err(EIO))
      else
        var u := UpdateInode(i.db, parentRow, f.update);
        if !u.result then Effect(Rollback(u.db, f.rollback), Err(EIO))
        else
          var c := Commit(u.db, f.commit);
          Effect(c.db, if c.result then Entry(node.ino, node.fileType) else Err(EIO))
  }

  ghost function Mkdir(db: Db, parent: Ino, name: string, f: Faults): Effect<Reply> {
    match GetInode(db, parent)
    case None => Effect(db, Err(ENOENT))
    case Some(p) =>
      if !p.IsDir() then Effect(db, Err(ENOTDIR))
      else if Seen(db.tables.inodes, parent, name, f.lookup).Some? then Effect(db, Err(EEXIST))
      else
        var ino := NextIno(db.tables.inodes.Keys);
        InsertTxn(db, NewDir(ino, parent, name), Adopt(p, ino, true), f)
  }

  /** The database part of create; the handler then opens a handle on the new inode. */
  ghost function CreateNode(db: Db, parent: Ino, name: string, f: Faults): Effect<Reply> {
    match GetInode(db, parent)
    case None => Effect(db, Err(ENOENT))
    case Some(p) =>
      if !p.IsDir() then Effect(db, Err(ENOTDIR))
      else if Seen(db.tables.inodes, parent, name, f.lookup).Some? then Effect(db, Err(EEXIST))
      else
        var ino := NextIno(db.tables.inodes.Keys);
        InsertTxn(db, NewFile(ino, parent, name), Adopt(p, ino, false), f)
  }

  /** No transaction and no look at an existing name: the unique index refuses it. */
  ghost function MakeSymlink(db: Db, parent: Ino, name: string, target: string, f: Faults): Effect<Reply> {
    match GetInode(db, parent)
    case None => Effect(db, Err(ENOENT))
    case Some(p) =>
      if !p.IsDir() then Effect(db, Err(ENOENT))
      else
        var ino := NextIno(db.tables.inodes.Keys);
        InsertBare(db, NewSymlink(ino, parent, name, target), Adopt(p, ino, false), f)
  }

  /** The same two statements without a transaction; the result of the second is ignored. */
  function InsertBare(db: Db, node: Inode, parentRow: Inode, f: Faults): Effect<Reply> {
    var i := InsertInode(db, node, f.insert);
    if !i.result then Effect(i.db, Err(EIO))
    else Effect(UpdateInode(i.db, parentRow, f.update).db, Entry(node.ino, node.fileType))
  }

  /** Rewriting a row that was just read, if it is there. */
  function Rewrite(db: Db, ino: Ino, change: Inode -> Inode, fails: bool): Db {
    match GetInode(db, ino)
    case None => db
    case Some(row) => UpdateInode(db, change(row), fails).db
  }

  /** Takes an inode off its parent's children list. */
  function Detach(db: Db, parent: Ino, ino: Ino, unlink: bool, fails: bool): Db {
    Rewrite(db, parent, (p: Inode) => Disown(p, ino, unlink), fails)
  }

  function Attach(db: Db, parent: Ino, ino: Ino, subdir: bool, fails: bool): Db {
    Rewrite(db, parent, (p: Inode) => Adopt(p, ino, subdir), fails)
  }

  /** The transaction of unlink and rmdir; it goes on if the parent's row could not be rewritten. */
  function RemoveTxn(db: Db, parent: Ino, ino: Ino, unlink: bool, f: Faults): Effect<Reply> {
    var b := Begin(db);
    if !b.result then Effect(b.db, Err(EIO))
    else
      var d := DeleteInode(Detach(b.db, parent, ino, unlink, f.update), ino, f.delete);
      if !d.result then Effect(Rollback(d.db, f.rollback), Err(EIO))
      else Effect(Commit(d.db, f.commit).db, Ok)
  }

  ghost function Unlink(db: Db, parent: Ino, name: string, f: Faults): Effect<Reply> {
    match Lookup(db.tables.inodes, parent, name)
    case None => Effect(db, Err(ENOENT))
    case Some(inode) =>
      if inode.IsDir() then Effect(db, Err(EISDIR))
      else RemoveTxn(db, parent, inode.ino, false, f)
  }

  ghost function Rmdir(db: Db, parent: Ino, name: string, f: Faults): Effect<Reply> {
    match Lookup(db.tables.inodes, parent, name)
    case None => Effect(db, Err(ENOENT))
    case Some(inode) =>
      if !inode.IsDir() then Effect(db, Err(ENOTDIR))
      else if inode.children != [] then Effect(db, Err(ENOTEMPTY))
      else RemoveTxn(db, parent, inode.ino, true, f)
  }

  /** Takes the destination out of the way. */
  function Displace(db: Db, existing: Ino, newParent: Ino, f: RenameFaults): Db {
    Detach(DeleteInode(db, existing, f.delete).db, newParent, existing, false, f.displaced)
  }

  /** Takes the moved inode from its old parent, gives it its new name and parent, and adds it there. */
  function Reparent(db: Db, inode: Inode, parent: Ino, newParent: Ino, newName: string, f: RenameFaults): Db {
    var o := Detach(db, parent, inode.ino, inode.IsDir(), f.oldParent);
    var m := UpdateInode(o, inode.(name := newName, parent := newParent), f.inode).db;
    Attach(m, newParent, inode.ino, inode.IsDir(), f.newParent)
  }

  /** A non-empty destination directory is refused with the transaction left open. */
  ghost function Rename(db: Db, parent: Ino, name: string, newParent: Ino, newName: string,
                        f: RenameFaults)
    : Effect<Reply>
  {
    match Lookup(db.tables.inodes, parent, name)
    case None => Effect(db, Err(ENOENT))
    case Some(inode) =>
      var b := Begin(db);
      if !b.result then Effect(b.db, Err(EIO))
      else
        match Seen(b.db.tables.inodes, newParent, newName, f.lookup)
        case None => Effect(Commit(Reparent(b.db, inode, parent, newParent, newName, f), f.commit).db, Ok)
        case Some(existing) =>
          if existing.IsDir() && existing.children != [] then Effect(b.db, Err(ENOTEMPTY))
          else
            var d := Displace(b.db, existing.ino, newParent, f);
            Effect(Commit(Reparent(d, inode, parent, newParent, newName, f), f.commit).db, Ok)
  }

  function Readlink(db: Db, ino: Ino): Reply {
    match GetInode(db, ino)
    case None => Err(ENOENT)
    case Some(inode) =>
      match inode.symlinkTarget
      case None => Err(EINVAL)
      case Some(target) => Target(target)
  }

  function EntryOf(inode: Inode): DirEntry {
    DirEntry(inode.ino, inode.fileType, inode.name)
  }

  function EntriesUnder(rows: Inodes, d: Ino): set<DirEntry> {
    set i | i in rows && rows[i].parent == d :: EntryOf(rows[i])
  }

  function Readdir(db: Db, ino: Ino): Reply {
    match GetInode(db, ino)
    case None => Err(ENOENT)
    case Some(dir) =>
      if !dir.IsDir() then Err(ENOTDIR)
      else
        var up := if dir.parent < ROOT then ROOT else dir.parent;
        Listing({DirEntry(ino, Directory, "."), DirEntry(up, Directory, "..")}
                + EntriesUnder(db.tables.inodes, ino))
  }
}
