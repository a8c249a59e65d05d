/**
 The filesystem object (fs.rs): its handlers over the shared database connection,
 the handle table, the transport and the block cache, each proved to do to all of
 them together what the state machine of FileSystem says.
 */
module CryptFilesystem {
  import opened Wrappers
  import opened Content
  import opened Manifests
  import opened Stores
  import opened Namespace
  import opened BlockCaches
  import opened HandleTables
  import opened Transports
  import opened FileSystem
  import opened AbstractFs
  import opened DataRefinement
  import opened FsRefinement
  import opened Paging

  lemma NextBlock(mount: Mount, transport: Option<Transport>, cache: Option<Queue>,
                  needed: seq<BlockPointer>, i: nat, offset: nat, size: nat)
    requires i < |needed|
    ensures var before := ReadBlocks(mount, transport, cache, needed[..i], offset, size);
            var f := Fetch(mount, transport, before.cache, needed[i].messageId, needed[i].rid);
            before.ok ==>
              ReadBlocks(mount, transport, cache, needed[..i + 1], offset, size)
              == if f.data.Some? then
                   ReadState(f.cache, CopyBlock(before.buf, needed[i], f.data.value, offset, size), true)
                 else before.(cache := f.cache, ok := false)
  {
    assert needed[..i + 1][..i] == needed[..i];
  }

  /** Once a block could not be had, the rest of the loop does nothing. */
  lemma {:induction false} StopsAtFailure(mount: Mount, transport: Option<Transport>, cache: Option<Queue>,
                                          needed: seq<BlockPointer>, i: nat, offset: nat, size: nat)
    requires i <= |needed| && (i < |needed| ==> !ReadBlocks(mount, transport, cache, needed[..i], offset, size).ok)
    ensures ReadBlocks(mount, transport, cache, needed, offset, size)
            == ReadBlocks(mount, transport, cache, needed[..i], offset, size)
    decreases |needed|
  {
    if i < |needed| {
      var front := needed[..|needed| - 1];
      assert front[..i] == needed[..i];
      StopsAtFailure(mount, transport, cache, front, i, offset, size);
    } else {
      assert needed[..i] == needed;
    }
  }

  lemma SpliceAt(before: Data, after: Data, part: Data, at: nat)
    requires |after| == |before| && at + |part| <= |before|
    requires forall k | 0 <= k < |before| :: after[k] == if at <= k < at + |part| then part[k - at] else before[k]
    ensures after == Splice(before, at, part)
  {
  }

  function Elements(entries: seq<DirEntry>): set<DirEntry> {
    set e | e in entries
  }

  /** The entry for the directory above; the root is its own. */
  function ParentEntry(dir: Inode): DirEntry {
    DirEntry(if dir.parent == 0 then ROOT else dir.parent, Directory, "..")
  }

  lemma DotsAndChildren(dot: DirEntry, dots: DirEntry, children: seq<DirEntry>)
    ensures Elements([dot, dots] + children) == {dot, dots} + Elements(children)
    ensures ([dot, dots] + children)[2..] == children
  {
  }

  lemma EntriesAreChildren(rows: Inodes, d: Ino, children: seq<Inode>, entries: seq<DirEntry>)
    requires forall r :: r in children <==> r.ino in rows && rows[r.ino] == r && r.parent == d
    requires Keyed(rows)
    requires |entries| == |children| && forall k | 0 <= k < |children| :: entries[k] == EntryOf(children[k])
    ensures Elements(entries) == EntriesUnder(rows, d)
  {
    forall e
      ensures e in entries <==> e in EntriesUnder(rows, d)
    {
      if e in entries {
        var k :| 0 <= k < |entries| && entries[k] == e;
        assert children[k] in children;
      }
      if e in EntriesUnder(rows, d) {
        var i :| i in rows && rows[i].parent == d && e == EntryOf(rows[i]);
        assert rows[i] in children;
        var k :| 0 <= k < |children| && children[k] == rows[i];
        assert entries[k] == e;
      }
    }
  }

  class CryptFs {
    const mount: Mount
    const conn: Connection
    const handles: HandleTable
    const transport: MockTransport?
    const cache: BlockCache?

    ghost function Footprint(): set<object> {
      {conn, handles} + (if transport == null then {} else {transport}) + (if cache == null then {} else {cache})
    }

    ghost predicate Valid()
      reads Footprint()
    {
      && conn.Valid()
      && (cache != null ==>
            cache.Valid() && cache.maxSize == mount.cacheMax && cache.encryptAtRest == mount.encryptAtRest)
    }

    /** The five stores as one state. */
    ghost function View(): Fs
      reads Footprint()
    {
      Fs(conn.db, handles.View(),
         if transport == null then None else Some(transport.View()),
         if cache == null then None else Some(cache.queue))
    }

    constructor (mount: Mount, conn: Connection, transport: MockTransport?, cache: BlockCache?)
      requires conn.Valid()
      requires cache != null ==>
                 cache.Valid() && cache.maxSize == mount.cacheMax && cache.encryptAtRest == mount.encryptAtRest
      ensures Valid() && this.mount == mount && this.conn == conn && this.transport == transport && this.cache == cache
      ensures fresh(handles) && handles.View() == Handles(map[], 1)
    {
      this.mount := mount;
      this.conn := conn;
      this.transport := transport;
      this.cache := cache;
      handles := new HandleTable();
    }

    method Init(fails: bool) returns (reply: Reply)
      requires Valid()
      modifies Footprint()
      ensures Valid() && Outcome(View(), reply) == OnDb(old(View()), InitOp(fails))
    {
      var root := conn.Get(ROOT);
      if root == None {
        var inserted := conn.Insert(RootInode(), fails);
        if !inserted {
          return Err(EIO);
        }
      }
      return Ok;
    }

    method LookupEntry(parent: Ino, name: string) returns (reply: Reply)
      requires Valid()
      ensures Outcome(View(), reply) == OnDb(View(), LookupOp(parent, name))
    {
      var found := conn.LookupName(parent, name);
      match found
      case None => return Err(ENOENT);
      case Some(inode) => return Entry(inode.ino, inode.fileType);
    }

    /** A lookup whose failure is taken for the absence of the name. */
    method LookForName(parent: Ino, name: string, fails: bool) returns (found: Option<Inode>)
      requires Valid()
      ensures found == Seen(conn.db.tables.inodes, parent, name, fails)
    {
      if fails {
        return None;
      }
      found := conn.LookupName(parent, name);
    }

    /** The common end of mkdir and create: the transaction that inserts the node and rewrites its parent. */
    method InsertChild(node: Inode, parentRow: Inode, f: Faults) returns (reply: Reply)
      requires Valid()
      modifies conn
      ensures Valid() && Effect(conn.db, reply) == InsertTxn(old(conn.db), node, parentRow, f)
    {
      var begun := conn.BeginTxn();
      if !begun {
        return Err(EIO);
      }
      var inserted := conn.Insert(node, f.insert);
      if !inserted {
        conn.RollbackTxn(f.rollback);
        return Err(EIO);
      }
      var updated := conn.Update(parentRow, f.update);
      if !updated {
        conn.RollbackTxn(f.rollback);
        return Err(EIO);
      }
      var committed := conn.CommitTxn(f.commit);
      if !committed {
        return Err(EIO);
      }
      return Entry(node.ino, node.fileType);
    }

    method Mkdir(parent: Ino, name: string, f: Faults) returns (reply: Reply)
      requires Valid()
      modifies conn
      ensures Valid() && Effect(conn.db, reply) == Namespace.Mkdir(old(conn.db), parent, name, f)
    {
      var found := conn.Get(parent);
      if found == None {
        return Err(ENOENT);
      }
      var p := found.value;
      if !p.IsDir() {
        return Err(ENOTDIR);
      }
      var taken := LookForName(parent, name, f.lookup);
      if taken.Some? {
        return Err(EEXIST);
      }
      var ino := conn.NextFreeIno();
      reply := InsertChild(NewDir(ino, parent, name), Adopt(p, ino, true), f);
    }

    method Create(parent: Ino, name: string, f: Faults) returns (reply: Reply)
      requires Valid()
      modifies conn, handles
      ensures Valid() && Outcome(View(), reply) == FileSystem.Create(old(View()), parent, name, f)
    {
      reply := CreateNode(parent, name, f);
      if reply.Entry? {
        var ino := reply.ino;
        var fh := handles.Open(ino);
        return Created(ino, fh);
      }
    }

    method CreateNode(parent: Ino, name: string, f: Faults) returns (reply: Reply)
      requires Valid()
      modifies conn
      ensures Valid() && Effect(conn.db, reply) == Namespace.CreateNode(old(conn.db), parent, name, f)
    {
      var found := conn.Get(parent);
      if found == None {
        return Err(ENOENT);
      }
      var p := found.value;
      if !p.IsDir() {
        return Err(ENOTDIR);
      }
      var taken := LookForName(parent, name, f.lookup);
      if taken.Some? {
        return Err(EEXIST);
      }
      var ino := conn.NextFreeIno();
      reply := InsertChild(NewFile(ino, parent, name), Adopt(p, ino, false), f);
    }

    method MakeSymlink(parent: Ino, name: string, target: string, f: Faults) returns (reply: Reply)
      requires Valid()
      modifies conn
      ensures Valid() && Effect(conn.db, reply) == Namespace.MakeSymlink(old(conn.db), parent, name, target, f)
    {
      var found := conn.Get(parent);
      if found == None || !found.value.IsDir() {
        return Err(ENOENT);
      }
      var p := found.value;
      var ino := conn.NextFreeIno();
      var inserted := conn.Insert(NewSymlink(ino, parent, name, target), f.insert);
      if !inserted {
        return Err(EIO);
      }
      var _ := conn.Update(Adopt(p, ino, false), f.update);
      return Entry(ino, Symlink);
    }

    method Readlink(ino: Ino) returns (reply: Reply)
      ensures reply == Namespace.Readlink(conn.db, ino)
    {
      var found := conn.Get(ino);
      if found == None {
        return Err(ENOENT);
      }
      match found.value.symlinkTarget
      case None => return Err(EINVAL);
      case Some(target) => return Target(target);
    }

    /** Takes an entry off its parent's list; a failure is ignored. */
    method DetachChild(parent: Ino, ino: Ino, unlink: bool, fails: bool)
      requires Valid()
      modifies conn
      ensures Valid() && conn.db == Detach(old(conn.db), parent, ino, unlink, fails)
    {
      var found := conn.Get(parent);
      if found.Some? {
        var _ := conn.Update(Disown(found.value, ino, unlink), fails);
      }
    }

    method RemoveChild(parent: Ino, ino: Ino, unlink: bool, f: Faults) returns (reply: Reply)
      requires Valid()
      modifies conn
      ensures Valid() && Effect(conn.db, reply) == RemoveTxn(old(conn.db), parent, ino, unlink, f)
    {
      var begun := conn.BeginTxn();
      if !begun {
        return Err(EIO);
      }
      DetachChild(parent, ino, unlink, f.update);
      var deleted := conn.Delete(ino, f.delete);
      if !deleted {
        conn.RollbackTxn(f.rollback);
        return Err(EIO);
      }
      var _ := conn.CommitTxn(f.commit);
      return Ok;
    }

    method Unlink(parent: Ino, name: string, f: Faults) returns (reply: Reply)
      requires Valid()
      modifies conn
      ensures Valid() && Effect(conn.db, reply) == Namespace.Unlink(old(conn.db), parent, name, f)
    {
      var found := conn.LookupName(parent, name);
      if found == None {
        return Err(ENOENT);
      }
      if found.value.IsDir() {
        return Err(EISDIR);
      }
      reply := RemoveChild(parent, found.value.ino, false, f);
    }

    method Rmdir(parent: Ino, name: string, f: Faults) returns (reply: Reply)
      requires Valid()
      modifies conn
      ensures Valid() && Effect(conn.db, reply) == Namespace.Rmdir(old(conn.db), parent, name, f)
    {
      var found := conn.LookupName(parent, name);
      if found == None {
        return Err(ENOENT);
      }
      if !found.value.IsDir() {
        return Err(ENOTDIR);
      }
      if found.value.children != [] {
        return Err(ENOTEMPTY);
      }
      reply := RemoveChild(parent, found.value.ino, true, f);
    }

    /** Old parent, the inode itself, new parent: three rows rewritten, no result looked at. */
    method MoveChild(inode: Inode, parent: Ino, newParent: Ino, newName: string, f: RenameFaults)
      requires Valid()
      modifies conn
      ensures Valid() && conn.db == Reparent(old(conn.db), inode, parent, newParent, newName, f)
    {
      DetachChild(parent, inode.ino, inode.IsDir(), f.oldParent);
      var _ := conn.Update(inode.(name := newName, parent := newParent), f.inode);
      var found := conn.Get(newParent);
      if found.Some? {
        var _ := conn.Update(Adopt(found.value, inode.ino, inode.IsDir()), f.newParent);
      }
    }

    method RemoveDestination(newParent: Ino, ino: Ino, f: RenameFaults)
      requires Valid()
      modifies conn
      ensures Valid() && conn.db == Displace(old(conn.db), ino, newParent, f)
    {
      var _ := conn.Delete(ino, f.delete);
      DetachChild(newParent, ino, false, f.displaced);
    }

    method Rename(parent: Ino, name: string, newParent: Ino, newName: string, f: RenameFaults) returns (reply: Reply)
      requires Valid()
      modifies conn
      ensures Valid() && Effect(conn.db, reply) == Namespace.Rename(old(conn.db), parent, name, newParent, newName, f)
    {
      var found := conn.LookupName(parent, name);
      if found == None {
        return Err(ENOENT);
      }
      var inode := found.value;
      var begun := conn.BeginTxn();
      if !begun {
        return Err(EIO);
      }
      var existing := LookForName(newParent, newName, f.lookup);
      if existing.Some? {
        if existing.value.IsDir() && existing.value.children != [] {
          return Err(ENOTEMPTY);
        }
        RemoveDestination(newParent, existing.value.ino, f);
      }
      MoveChild(inode, parent, newParent, newName, f);
      var _ := conn.CommitTxn(f.commit);
      return Ok;
    }

    /** The children of a directory as entries, in some order, each once. */
    method ListEntries(ino: Ino) returns (entries: seq<DirEntry>)
      requires Valid()
      ensures Elements(entries) == EntriesUnder(conn.db.tables.inodes, ino)
      ensures forall i, j | 0 <= i < j < |entries| :: entries[i].ino != entries[j].ino
    {
      var children := conn.ListChildren(ino);
      entries := [];
      for i := 0 to |children|
        invariant |entries| == i && forall k | 0 <= k < i :: entries[k] == EntryOf(children[k])
      {
        entries := entries + [EntryOf(children[i])];
      }
      EntriesAreChildren(conn.db.tables.inodes, ino, children, entries);
    }

    /** The entries in the order they are offered: the directory, its parent, then every child once. */
    method ListDirectory(ino: Ino) returns (reply: Reply, entries: seq<DirEntry>)
      requires Valid()
      ensures reply == Namespace.Readdir(conn.db, ino)
      ensures reply.Listing? ==>
                && |entries| >= 2 && entries[0] == DirEntry(ino, Directory, ".")
                && ino in conn.db.tables.inodes && entries[1] == ParentEntry(conn.db.tables.inodes[ino])
                && reply.entries == Elements(entries)
                && Elements(entries[2..]) == EntriesUnder(conn.db.tables.inodes, ino)
                && forall i, j | 2 <= i < j < |entries| :: entries[i].ino != entries[j].ino
    {
      var found := conn.Get(ino);
      if found == None {
        return Err(ENOENT), [];
      }
      if !found.value.IsDir() {
        return Err(ENOTDIR), [];
      }
      var up := if found.value.parent < ROOT then ROOT else found.value.parent;
      var children := ListEntries(ino);
      DotsAndChildren(DirEntry(ino, Directory, "."), DirEntry(up, Directory, ".."), children);
      entries := [DirEntry(ino, Directory, "."), DirEntry(up, Directory, "..")] + children;
      assert forall i | 2 <= i < |entries| :: entries[i] == children[i - 2];
      return Listing(Elements(entries)), entries;
    }

    /** One call: the entries from the offset on, as many as there is room for. */
    method Readdir(ino: Ino, offset: int, room: nat) returns (reply: Reply, entries: seq<DirEntry>, page: seq<DirEntry>)
      requires Valid()
      ensures reply == Namespace.Readdir(conn.db, ino)
      ensures reply.Listing? ==>
                && |entries| >= 2 && entries[0] == DirEntry(ino, Directory, ".")
                && ino in conn.db.tables.inodes && entries[1] == ParentEntry(conn.db.tables.inodes[ino])
                && reply.entries == Elements(entries)
                && Elements(entries[2..]) == EntriesUnder(conn.db.tables.inodes, ino)
                && forall i, j | 2 <= i < j < |entries| :: entries[i].ino != entries[j].ino
      ensures page == if reply.Listing? then Page(entries, offset, room) else []
    {
      reply, entries := ListDirectory(ino);
      page := [];
      if reply.Listing? && 0 <= offset <= |entries| {
        for i := offset to |entries|
          invariant page == Page(entries, offset, i - offset) && |page| == i - offset <= room
        {
          if |page| == room {
            break;
          }
          page := page + [entries[i]];
        }
      }
    }

    // ----- Handles and bytes -----

    method Open(ino: Ino) returns (reply: Reply)
      requires Valid()
      modifies handles
      ensures Valid() && Outcome(View(), reply) == FileSystem.Open(old(View()), ino)
    {
      var found := conn.Get(ino);
      if found == None {
        return Err(ENOENT);
      }
      var fh := handles.Open(ino);
      return Opened(fh);
    }

    method Write(ino: Ino, fh: nat, offset: nat, data: Data, fails: bool) returns (reply: Reply)
      requires Valid()
      modifies conn, handles
      ensures Valid() && Outcome(View(), reply) == FileSystem.Write(old(View()), ino, fh, offset, data, fails)
      ensures fh in old(handles.handles) ==>
                && fh in handles.handles
                && WrittenOver(old(handles.handles)[fh].writeBuffer, handles.handles[fh].writeBuffer, offset, data)
    {
      if fh in handles.handles {
        BufferAfterWrite(View(), ino, fh, offset, data, fails);
      }
      var updated := handles.Update(
        fh, (h: FileHandle) => h.(writeBuffer := Overlay(h.writeBuffer, offset, data), dirty := true));
      if !updated {
        return Err(EBADF);
      }
      var handle := handles.Get(fh);
      if handle.Some? {
        var found := conn.Get(ino);
        if found.Some? {
          var _ := conn.Update(found.value.(size := |handle.value.writeBuffer|), fails);
        }
      }
      return Written(|data|);
    }

    method FlushToTransport(data: Data, e: FlushEvents) returns (block: Option<BlockRecord>)
      requires Valid()
      modifies Footprint() - {handles}
      ensures Valid() && Flushed(View(), block) == Flush(mount, old(View()), data, e)
    {
      if transport == null {
        return None;
      }
      var contentHash := Blake3(data);
      var existing: Option<BlockRecord> := None;
      if !e.find {
        existing := conn.FindByContentHash(contentHash, e.pick);
      }
      if existing.Some? {
        if !e.increment {
          conn.AddReference(existing.value.rid);
        }
        return existing;
      }
      var uploaded := transport.UploadBlock(data);
      match uploaded
      case Failure(_) => return None;
      case Success(messageId) =>
        var record := BlockRecord(e.rid, contentHash, messageId, |data|, mount.epoch, 1, false);
        var inserted := conn.AddBlock(record, e.insert);
        if !inserted {
          return None;
        }
        if cache != null {
          cache.Put(e.rid, data);
        }
        return Some(record);
    }

    method Release(ino: Ino, fh: nat, e: FlushEvents) returns (reply: Reply)
      requires Valid()
      modifies Footprint()
      ensures Valid() && Outcome(View(), reply) == FileSystem.Release(mount, old(View()), ino, fh, e)
    {
      var handle := handles.Get(fh);
      if handle.Some? && handle.value.dirty && handle.value.writeBuffer != [] && transport != null {
        var data := handle.value.writeBuffer;
        var block := FlushToTransport(data, e);
        if block.Some? {
          var b := block.value;
          var bp := BlockPointer(b.rid, b.messageId, 0, |data|, 0, b.encryptedSize, b.compressed, b.contentHash,
                                 b.epoch);
          var manifest := FileManifest(ino, 1, |data|, Some(Blake3(data)), [bp]);
          ReplaceFile(ino, manifest, e.update);
        }
      }
      var _ := handles.Close(fh);
      return Ok;
    }

    method ReplaceFile(ino: Ino, manifest: FileManifest, fails: bool)
      requires Valid()
      modifies conn
      ensures Valid() && conn.db == Replace(old(conn.db), ino, manifest, fails)
    {
      var found := conn.Get(ino);
      if found.Some? {
        var _ := conn.Update(found.value.(manifest := Some(manifest), size := manifest.totalSize), fails);
      }
    }

    method DownloadBlock(messageId: int, rid: Rid) returns (r: Option<Data>)
      requires Valid()
      modifies if cache == null then {} else {cache}
      ensures Valid()
      ensures var f := Fetch(mount, old(View()).transport, old(View()).cache, messageId, rid);
              r == f.data && View() == old(View()).(cache := f.cache)
    {
      if cache != null {
        var hit := cache.Get(rid);
        if hit.Success? {
          return Some(hit.value);
        }
      }
      if transport == null {
        return None;
      }
      var downloaded := transport.DownloadBlock(messageId);
      match downloaded
      case Failure(_) => return None;
      case Success(data) =>
        if cache != null {
          cache.Put(rid, data);
        }
        return Some(data);
    }

    /** Copies the part of one block that falls in the range into the result buffer. */
    method CopyIntoResult(buf: array<bv8>, bp: BlockPointer, data: Data, offset: nat, size: nat)
      modifies buf
      ensures buf[..] == CopyBlock(old(buf[..]), bp, data, offset, size)
    {
      var readStart, readEnd := ReadStart(bp, offset), ReadEnd(bp, offset, size);
      if readStart < readEnd {
        var srcOff, dstOff, copyLen := readStart - bp.fileOffset, readStart - offset, readEnd - readStart;
        if srcOff + copyLen <= |data| && dstOff + copyLen <= buf.Length {
          CopyFromSlice(buf, dstOff, data[srcOff..srcOff + copyLen]);
        }
      }
    }

    /** Overwrites the bytes from `at` on with a part of a block. */
    method CopyFromSlice(buf: array<bv8>, at: nat, part: Data)
      requires at + |part| <= buf.Length
      modifies buf
      ensures buf[..] == Splice(old(buf[..]), at, part)
    {
      for i := 0 to |part|
        invariant forall k | 0 <= k < buf.Length :: buf[k] == if at <= k < at + i then part[k - at] else old(buf[k])
      {
        buf[at + i] := part[i];
      }
      SpliceAt(old(buf[..]), buf[..], part, at);
    }

    /** One round of the read loop. */
    method FetchInto(buf: array<bv8>, bp: BlockPointer, offset: nat, size: nat) returns (got: bool)
      requires Valid() && buf !in Footprint()
      modifies buf, if cache == null then {} else {cache}
      ensures Valid()
      ensures var f := Fetch(mount, old(View()).transport, old(View()).cache, bp.messageId, bp.rid);
              && View() == old(View()).(cache := f.cache)
              && got == f.data.Some?
              && buf[..] == if got then CopyBlock(old(buf[..]), bp, f.data.value, offset, size) else old(buf[..])
    {
      var data := DownloadBlock(bp.messageId, bp.rid);
      got := data.Some?;
      if got {
        CopyIntoResult(buf, bp, data.value, offset, size);
      }
    }

    method Read(ino: Ino, fh: nat, offset: nat, size: nat) returns (reply: Reply)
      requires Valid()
      modifies if cache == null then {} else {cache}
      ensures Valid() && Outcome(View(), reply) == FileSystem.Read(mount, old(View()), ino, fh, offset, size)
    {
      var found := conn.Get(ino);
      if found == None {
        return Err(ENOENT);
      }
      var inode := found.value;
      if !inode.IsFile() {
        return Err(EISDIR);
      }
      var handle := handles.Get(fh);
      if handle.Some? && handle.value.writeBuffer != [] {
        var own := ReadOwn(handle.value.writeBuffer, offset, size);
        return Bytes(own);
      }
      var bytes := ReadCommitted(inode, offset, size);
      return Bytes(bytes);
    }

    method ReadOwn(buffer: Data, offset: nat, size: nat) returns (bytes: Data)
      ensures bytes == Slice(buffer, offset, size)
    {
      var end := if offset + size < |buffer| then offset + size else |buffer|;
      if offset >= |buffer| {
        return [];
      }
      return buffer[offset..end];
    }

    /** The bytes of a file without bytes of its own in the handle: by blocks, or none if a block cannot be had. */
    method ReadCommitted(inode: Inode, offset: nat, size: nat) returns (bytes: Data)
      requires Valid()
      modifies if cache == null then {} else {cache}
      ensures Valid()
      ensures var needed := NeededBlocks(inode, offset, size);
              var r := ReadBlocks(mount, old(View()).transport, old(View()).cache, needed, offset, size);
              var left := if inode.size < offset then 0 else inode.size - offset;
              && View() == old(View()).(cache := r.cache)
              && bytes == if r.ok && needed != [] then r.buf[..if size < left then size else left] else []
    {
      bytes := [];
      if inode.manifest.Some? && inode.manifest.value.blocks != [] {
        var needed := BlocksInRange(inode.manifest.value.blocks, offset, size);
        var resultBuf, ok := ReadNeeded(needed, offset, size);
        if ok && needed != [] {
          var left := if inode.size < offset then 0 else inode.size - offset;
          bytes := resultBuf[..if size < left then size else left];
        }
      }
    }

    /** The loop over the needed blocks, up to the first that cannot be had. */
    method ReadNeeded(needed: seq<BlockPointer>, offset: nat, size: nat) returns (resultBuf: array<bv8>, ok: bool)
      requires Valid()
      modifies if cache == null then {} else {cache}
      ensures Valid() && fresh(resultBuf)
      ensures var r := ReadBlocks(mount, old(View()).transport, old(View()).cache, needed, offset, size);
              && View() == old(View()).(cache := r.cache)
              && resultBuf[..] == r.buf && ok == r.ok
    {
      ghost var transport0, cache0 := View().transport, View().cache;
      resultBuf := new bv8[size](_ => 0);
      ok := true;
      var i := 0;
      assert needed[..0] == [];
      while i < |needed| && ok
        invariant i <= |needed| && Valid() && fresh(resultBuf)
        invariant var done := ReadBlocks(mount, transport0, cache0, needed[..i], offset, size);
                  View() == old(View()).(cache := done.cache)
        invariant resultBuf[..] == ReadBlocks(mount, transport0, cache0, needed[..i], offset, size).buf
        invariant ok == ReadBlocks(mount, transport0, cache0, needed[..i], offset, size).ok
        decreases |needed| - i, ok
      {
        var bp := needed[i];
        NextBlock(mount, transport0, cache0, needed, i, offset, size);
        ok := FetchInto(resultBuf, bp, offset, size);
        i := i + 1;
      }
      StopsAtFailure(mount, transport0, cache0, needed, i, offset, size);
    }
  
    // ----- Requests -----

    /** The requests that only touch the database. */
    method HandleNames(op: Op) returns (reply: Reply)
      requires Valid() && !op.CreateOp? && !op.OpenOp? && !op.ReadOp? && !op.WriteOp? && !op.ReleaseOp?
               && !op.LinkStatus?
      modifies Footprint()
      ensures Valid() && Outcome(View(), reply) == OnDb(old(View()), op)
    {
      match op
      case InitOp(fails) => reply := Init(fails);
      case LookupOp(parent, name) => reply := LookupEntry(parent, name);
      case MkdirOp(parent, name, f) => reply := Mkdir(parent, name, f);
      case SymlinkOp(parent, name, target, f) => reply := MakeSymlink(parent, name, target, f);
      case ReadlinkOp(ino) => reply := Readlink(ino);
      case UnlinkOp(parent, name, f) => reply := Unlink(parent, name, f);
      case RmdirOp(parent, name, f) => reply := Rmdir(parent, name, f);
      case RenameOp(parent, name, newParent, newName, f) => reply := Rename(parent, name, newParent, newName, f);
      case ReaddirOp(ino) =>
        var entries;
        reply, entries := ListDirectory(ino);
    }

    method Dispatch(op: Op) returns (reply: Reply)
      requires Valid() && !op.LinkStatus?
      modifies Footprint()
      ensures Valid() && Outcome(View(), reply) == Step(mount, old(View()), op)
    {
      if op.CreateOp? {
        reply := Create(op.parent, op.name, op.faults);
      } else if op.OpenOp? {
        reply := Open(op.ino);
      } else if op.ReadOp? {
        reply := Read(op.ino, op.fh, op.offset, op.size);
      } else if op.WriteOp? {
        reply := Write(op.ino, op.fh, op.offset, op.data, op.fails);
      } else if op.ReleaseOp? {
        reply := Release(op.ino, op.fh, op.events);
      } else {
        reply := HandleNames(op);
      }
    }

    /** The object does what the state machine does, and so, for allowed requests, what the abstract filesystem does. */
    method Handle(op: Op) returns (reply: Reply)
      requires Valid() && !op.LinkStatus?
      modifies Footprint()
      ensures Valid() && Outcome(View(), reply) == Step(mount, old(View()), op)
      ensures Inv(mount, old(View())) && Allowed(old(View()), op) ==>
                Matches(mount, Outcome(View(), reply), AbsStep(Abstract(old(View())), op))
    {
      ghost var before := View();
      reply := Dispatch(op);
      if Inv(mount, before) && Allowed(before, op) {
        StepRefines(mount, before, op);
      }
    }
  }
}
