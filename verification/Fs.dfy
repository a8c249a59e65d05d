/**
 The whole filesystem (fs.rs) as a state machine on values: database, handles,
 transport and cache, and one step for every request and every environment event.
 */
module FileSystem {
  import opened Wrappers
  import opened Content
  import opened Manifests
  import opened Stores
  import opened Namespace
  import opened BlockCaches
  import opened HandleTables
  import opened Transports

  /** What a mount fixes: the key epoch and the cache settings. */
  datatype Mount = Mount(epoch: nat, cacheMax: nat, encryptAtRest: bool)

  datatype Fs = Fs(db: Db, handles: Handles, transport: Option<Transport>, cache: Option<Queue>)

  datatype Outcome = Outcome(fs: Fs, reply: Reply)

  /** A blank database with its root, no open handle. */
  function Mounted(transport: Option<Transport>, cache: bool): Fs {
    var db := InitRoot(Db(Tables(map[], map[]), None), false).db;
    Fs(db, Handles(map[], 1), transport, if cache then Some([]) else None)
  }

  // ----- Write buffers -----

  /** The buffer, grown with zeros where needed, with data written at the offset. */
  function Overlay(buf: Data, offset: nat, data: Data): Data {
    var grown := if offset + |data| > |buf| then buf + seq(offset + |data| - |buf|, _ => 0) else buf;
    grown[..offset] + data + grown[offset + |data|..]
  }

  function Resize(db: Db, ino: Ino, size: nat, fails: bool): Db {
    Rewrite(db, ino, (inode: Inode) => inode.(size := size), fails)
  }

  /** The buffer changes, and then the recorded size, whose failure to be stored is ignored. */
  function Write(fs: Fs, ino: Ino, fh: nat, offset: nat, data: Data, fails: bool): Outcome {
    if fh !in fs.handles.open then Outcome(fs, Err(EBADF))
    else
      var written := (h: FileHandle) => h.(writeBuffer := Overlay(h.writeBuffer, offset, data), dirty := true);
      var handles := UpdateHandle(fs.handles, fh, written);
      var size := |handles.open[fh].writeBuffer|;
      Outcome(fs.(handles := handles, db := Resize(fs.db, ino, size, fails)), Written(|data|))
  }

  // ----- Flushing -----

  datatype Flushed = Flushed(fs: Fs, block: Option<BlockRecord>)

  function CachePut(mount: Mount, cache: Option<Queue>, rid: Rid, data: Data): Option<Queue> {
    match cache
    case None => None
    case Some(q) => Some(PutInto(q, rid, FileFor(rid, data, mount.encryptAtRest), mount.cacheMax))
  }

  /**
   What a flush meets: the random identifier of a new block, the row that the query
   picks among several with the hash, and the statements that fail.
   */
  datatype FlushEvents = FlushEvents(rid: Rid, pick: Rid, find: bool, insert: bool, increment: bool, update: bool)

  /** The query for the content; its failure is taken for the absence of a row. */
  ghost function Known(blocks: Blocks, data: Data, e: FlushEvents): Option<BlockRecord> {
    if e.find then None else FindByHash(blocks, Blake3(data), e.pick)
  }

  function Referenced(db: Db, rid: Rid, fails: bool): Db {
    if fails then db else IncrementRef(db, rid)
  }

  function NewBlock(mount: Mount, t: Transport, data: Data, rid: Rid): BlockRecord {
    BlockRecord(rid, Blake3(data), t.nextId, |data|, mount.epoch, 1, false)
  }

  /** Stores a buffer as a block: a reference to a block with the same content, or else a new upload. */
  ghost function Flush(mount: Mount, fs: Fs, data: Data, e: FlushEvents): Flushed {
    match fs.transport
    case None => Flushed(fs, None)
    case Some(t) =>
      match Known(fs.db.tables.blocks, data, e)
      case Some(existing) => Flushed(fs.(db := Referenced(fs.db, existing.rid, e.increment)), Some(existing))
      case None =>
        if !CanUpload(t) then Flushed(fs, None)
        else
          var sent := fs.(transport := Some(Upload(t, data)));
          var block := NewBlock(mount, t, data, e.rid);
          var i := InsertBlock(fs.db, block, e.insert);
          if !i.result then Flushed(sent, None)
          else Flushed(sent.(db := i.db, cache := CachePut(mount, fs.cache, e.rid, data)), Some(block))
  }

  function PointerTo(block: BlockRecord, data: Data): BlockPointer {
    BlockPointer(block.rid, block.messageId, 0, |data|, 0, block.encryptedSize, block.compressed, block.contentHash,
                 block.epoch)
  }

  function ManifestOf(ino: Ino, block: BlockRecord, data: Data): FileManifest {
    FileManifest(ino, 1, |data|, Some(Blake3(data)), [PointerTo(block, data)])
  }

  function Replace(db: Db, ino: Ino, m: FileManifest, fails: bool): Db {
    Rewrite(db, ino, (inode: Inode) => inode.(manifest := Some(m), size := m.totalSize), fails)
  }

  /** A dirty, non-empty buffer is flushed and becomes the whole file; then the handle is closed. */
  ghost function Release(mount: Mount, fs: Fs, ino: Ino, fh: nat, e: FlushEvents): Outcome {
    var flushed :=
      if fh in fs.handles.open && fs.handles.open[fh].dirty && fs.handles.open[fh].writeBuffer != []
        && fs.transport.Some? then
        var data := fs.handles.open[fh].writeBuffer;
        var f := Flush(mount, fs, data, e);
        match f.block
        case None => f.fs
        case Some(block) => f.fs.(db := Replace(f.fs.db, ino, ManifestOf(ino, block, data), e.update))
      else fs;
    Outcome(flushed.(handles := CloseHandle(flushed.handles, fh)), Ok)
  }

  // ----- Reading -----

  datatype Fetched = Fetched(cache: Option<Queue>, data: Option<Data>)

  /** One block: from the cache, or from the transport and then into the cache. */
  function Fetch(mount: Mount, transport: Option<Transport>, cache: Option<Queue>, messageId: int, rid: Rid): Fetched {
    var touched := match cache case None => None case Some(q) => Some(Touch(q, rid));
    if cache.Some? && CacheLookup(cache.value, rid, mount.encryptAtRest).Success? then
      Fetched(touched, Some(CacheLookup(cache.value, rid, mount.encryptAtRest).value))
    else
      match transport
      case None => Fetched(touched, None)
      case Some(t) =>
        match Download(t, messageId)
        case Failure(_) => Fetched(touched, None)
        case Success(data) => Fetched(CachePut(mount, touched, rid, data), Some(data))
  }

  datatype ReadState = ReadState(cache: Option<Queue>, buf: Data, ok: bool)

  /** The read loop: blocks in order until one cannot be fetched. */
  function ReadBlocks(mount: Mount, transport: Option<Transport>, cache: Option<Queue>, blocks: seq<BlockPointer>,
                      offset: nat, size: nat): (r: ReadState)
    ensures |r.buf| == size
  {
    if blocks == [] then ReadState(cache, seq(size, _ => 0), true)
    else
      var before := ReadBlocks(mount, transport, cache, blocks[..|blocks| - 1], offset, size);
      if !before.ok then before
      else
        var bp := blocks[|blocks| - 1];
        var f := Fetch(mount, transport, before.cache, bp.messageId, bp.rid);
        match f.data
        case None => before.(cache := f.cache, ok := false)
        case Some(data) => ReadState(f.cache, CopyBlock(before.buf, bp, data, offset, size), true)
  }

  function NeededBlocks(inode: Inode, offset: nat, size: nat): seq<BlockPointer> {
    match inode.manifest
    case None => []
    case Some(m) => BlocksInRange(m.blocks, offset, size)
  }

  function Read(mount: Mount, fs: Fs, ino: Ino, fh: nat, offset: nat, size: nat): Outcome {
    match GetInode(fs.db, ino)
    case None => Outcome(fs, Err(ENOENT))
    case Some(inode) =>
      if !inode.IsFile() then Outcome(fs, Err(EISDIR))
      else if fh in fs.handles.open && fs.handles.open[fh].writeBuffer != [] then
        Outcome(fs, Bytes(Slice(fs.handles.open[fh].writeBuffer, offset, size)))
      else
        var needed := NeededBlocks(inode, offset, size);
        var r := ReadBlocks(mount, fs.transport, fs.cache, needed, offset, size);
        var left := if inode.size < offset then 0 else inode.size - offset;
        Outcome(fs.(cache := r.cache),
                Bytes(if r.ok && needed != [] then r.buf[..if size < left then size else left] else []))
  }

  // ----- Opening -----

  function Open(fs: Fs, ino: Ino): Outcome {
    match GetInode(fs.db, ino)
    case None => Outcome(fs, Err(ENOENT))
    case Some(_) => Outcome(fs.(handles := OpenHandle(fs.handles, ino)), Opened(fs.handles.nextFh))
  }

  ghost function Create(fs: Fs, parent: Ino, name: string, f: Faults): Outcome {
    var e := CreateNode(fs.db, parent, name, f);
    var made := fs.(db := e.db);
    match e.result
    case Entry(ino, _) => Outcome(made.(handles := OpenHandle(made.handles, ino)), Created(ino, made.handles.nextFh))
    case other => Outcome(made, other)
  }

  // ----- The machine -----

  datatype Op =
    | InitOp(fails: bool)
    | LookupOp(parent: Ino, name: string)
    | MkdirOp(parent: Ino, name: string, faults: Faults)
    | CreateOp(parent: Ino, name: string, faults: Faults)
    | SymlinkOp(parent: Ino, name: string, target: string, faults: Faults)
    | ReadlinkOp(ino: Ino)
    | UnlinkOp(parent: Ino, name: string, faults: Faults)
    | RmdirOp(parent: Ino, name: string, faults: Faults)
    | RenameOp(parent: Ino, name: string, newParent: Ino, newName: string, renameFaults: RenameFaults)
    | ReaddirOp(ino: Ino)
    | OpenOp(ino: Ino)
    | ReadOp(ino: Ino, fh: nat, offset: nat, size: nat)
    | WriteOp(ino: Ino, fh: nat, offset: nat, data: Data, fails: bool)
    | ReleaseOp(ino: Ino, fh: nat, events: FlushEvents)
    | LinkStatus(connected: bool, failUploads: bool, failDownloads: bool)

  /** The handlers that only touch the database. */
  ghost function DbStep(db: Db, op: Op): Effect<Reply> {
    match op
    case InitOp(fails) => InitRoot(db, fails)
    case LookupOp(parent, name) => Effect(db, LookupEntry(db, parent, name))
    case MkdirOp(parent, name, f) => Mkdir(db, parent, name, f)
    case CreateOp(parent, name, f) => CreateNode(db, parent, name, f)
    case SymlinkOp(parent, name, target, f) => MakeSymlink(db, parent, name, target, f)
    case ReadlinkOp(ino) => Effect(db, Readlink(db, ino))
    case UnlinkOp(parent, name, f) => Unlink(db, parent, name, f)
    case RmdirOp(parent, name, f) => Rmdir(db, parent, name, f)
    case RenameOp(parent, name, newParent, newName, f) => Rename(db, parent, name, newParent, newName, f)
    case ReaddirOp(ino) => Effect(db, Readdir(db, ino))
    case _ => Effect(db, Ok)
  }

  ghost function OnDb(fs: Fs, op: Op): Outcome {
    var e := DbStep(fs.db, op);
    Outcome(fs.(db := e.db), e.result)
  }

  /** The network or the service changes; no request of the filesystem does this. */
  function SetStatus(fs: Fs, connected: bool, up: bool, down: bool): Outcome {
    match fs.transport
    case None => Outcome(fs, Ok)
    case Some(t) =>
      var t' := t.(connected := connected, failUploads := up, failDownloads := down);
      Outcome(fs.(transport := Some(t')), Ok)
  }

  ghost function Step(mount: Mount, fs: Fs, op: Op): Outcome {
    match op
    case CreateOp(parent, name, f) => Create(fs, parent, name, f)
    case OpenOp(ino) => Open(fs, ino)
    case ReadOp(ino, fh, offset, size) => Read(mount, fs, ino, fh, offset, size)
    case WriteOp(ino, fh, offset, data, fails) => Write(fs, ino, fh, offset, data, fails)
    case ReleaseOp(ino, fh, e) => Release(mount, fs, ino, fh, e)
    case LinkStatus(connected, up, down) => SetStatus(fs, connected, up, down)
    case _ => OnDb(fs, op)
  }

  datatype RunResult = RunResult(fs: Fs, replies: seq<Reply>)

  ghost function Run(mount: Mount, fs: Fs, ops: seq<Op>): RunResult
    decreases |ops|
  {
    if ops == [] then RunResult(fs, [])
    else
      var o := Step(mount, fs, ops[0]);
      var r := Run(mount, o.fs, ops[1..]);
      RunResult(r.fs, [o.reply] + r.replies)
  }
}
