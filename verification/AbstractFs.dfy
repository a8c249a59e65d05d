/**
 What the filesystem is meant to be: one node per inode that alone says where it
 hangs, one byte string per regular file, one buffer per open handle. There are
 no children lists, blocks, manifests, messages or cache here.
 */
module AbstractFs {
  import opened Wrappers
  import opened Content
  import opened Manifests
  import opened Stores
  import opened Namespace
  import opened HandleTables
  import opened FileSystem

  datatype Node = Node(parent: Ino, name: string, kind: FileType, target: Option<string>)

  type Nodes = map<Ino, Node>

  /** wedged: a transaction was left open, so that no later one can begin. */
  datatype Space = Space(nodes: Nodes, wedged: bool)

  datatype Buffer = Buffer(ino: Ino, bytes: Data)

  datatype Abs = Abs(space: Space, files: map<Ino, Data>, buffers: map<nat, Buffer>, nextFh: nat)

  datatype AbsOutcome = AbsOutcome(abs: Abs, reply: Reply)

  datatype SpaceOutcome = SpaceOutcome(space: Space, reply: Reply)

  // ----- The tree of names -----

  predicate NodeAt(nodes: Nodes, i: Ino, parent: Ino, name: string) {
    i in nodes && nodes[i].parent == parent && nodes[i].name == name
  }

  ghost function Resolve(nodes: Nodes, parent: Ino, name: string): (r: Option<Ino>)
    ensures r.Some? ==> NodeAt(nodes, r.value, parent, name)
    ensures r.None? ==> forall i | i in nodes :: !NodeAt(nodes, i, parent, name)
  {
    if i :| i in nodes && NodeAt(nodes, i, parent, name) then Some(i) else None
  }

  predicate IsDirNode(nodes: Nodes, i: Ino) {
    i in nodes && nodes[i].kind == Directory
  }

  predicate HasEntries(nodes: Nodes, d: Ino) {
    exists i | i in nodes :: nodes[i].parent == d
  }

  function SpaceInit(s: Space, fails: bool): SpaceOutcome {
    if ROOT in s.nodes then SpaceOutcome(s, Ok)
    else if fails then SpaceOutcome(s, Err(EIO))
    else SpaceOutcome(s.(nodes := s.nodes[ROOT := Node(0, "", Directory, None)]), Ok)
  }

  ghost function SpaceLookup(s: Space, parent: Ino, name: string): Reply {
    match Resolve(s.nodes, parent, name)
    case None => Err(ENOENT)
    case Some(i) => Entry(i, s.nodes[i].kind)
  }

  /** A new node under an existing directory, in a transaction of its own. */
  ghost function SpaceMake(s: Space, parent: Ino, name: string, kind: FileType, f: Faults): SpaceOutcome {
    if parent !in s.nodes then SpaceOutcome(s, Err(ENOENT))
    else if !IsDirNode(s.nodes, parent) then SpaceOutcome(s, Err(ENOTDIR))
    else if Resolve(s.nodes, parent, name).Some? then
      if f.lookup then SpaceRefuse(s, f) else SpaceOutcome(s, Err(EEXIST))
    else SpaceAdd(s, NextIno(s.nodes.Keys), Node(parent, name, kind, None), f)
  }

  /** Nothing changes, but a transaction that could not be rolled back stays open. */
  function SpaceRefuse(s: Space, f: Faults): SpaceOutcome {
    SpaceOutcome(s.(wedged := s.wedged || f.rollback), Err(EIO))
  }

  function SpaceAdd(s: Space, ino: Ino, node: Node, f: Faults): SpaceOutcome {
    if s.wedged || f.insert || f.update then SpaceRefuse(s, f)
    else SpaceOutcome(Space(s.nodes[ino := node], f.commit), if f.commit then Err(EIO) else Entry(ino, node.kind))
  }

  ghost function SpaceSymlink(s: Space, parent: Ino, name: string, target: string, f: Faults): SpaceOutcome {
    if !IsDirNode(s.nodes, parent) then SpaceOutcome(s, Err(ENOENT))
    else if Resolve(s.nodes, parent, name).Some? || f.insert then SpaceOutcome(s, Err(EIO))
    else SpacePlace(s, NextIno(s.nodes.Keys), Node(parent, name, Symlink, Some(target)))
  }

  function SpacePlace(s: Space, ino: Ino, node: Node): SpaceOutcome {
    SpaceOutcome(s.(nodes := s.nodes[ino := node]), Entry(ino, node.kind))
  }

  function SpaceDrop(s: Space, i: Ino, f: Faults): SpaceOutcome {
    if s.wedged || f.delete then SpaceRefuse(s, f)
    else SpaceOutcome(Space(s.nodes - {i}, f.commit), Ok)
  }

  ghost function SpaceUnlink(s: Space, parent: Ino, name: string, f: Faults): SpaceOutcome {
    match Resolve(s.nodes, parent, name)
    case None => SpaceOutcome(s, Err(ENOENT))
    case Some(i) =>
      if IsDirNode(s.nodes, i) then SpaceOutcome(s, Err(EISDIR))
      else SpaceDrop(s, i, f)
  }

  ghost function SpaceRmdir(s: Space, parent: Ino, name: string, f: Faults): SpaceOutcome {
    match Resolve(s.nodes, parent, name)
    case None => SpaceOutcome(s, Err(ENOENT))
    case Some(i) =>
      if !IsDirNode(s.nodes, i) then SpaceOutcome(s, Err(ENOTDIR))
      else if HasEntries(s.nodes, i) then SpaceOutcome(s, Err(ENOTEMPTY))
      else SpaceDrop(s, i, f)
  }

  /** Refusing to replace a non-empty directory wedges the filesystem. */
  ghost function SpaceRename(s: Space, parent: Ino, name: string, newParent: Ino, newName: string,
                             f: RenameFaults)
    : SpaceOutcome
  {
    match Resolve(s.nodes, parent, name)
    case None => SpaceOutcome(s, Err(ENOENT))
    case Some(i) =>
      if s.wedged then SpaceOutcome(s, Err(EIO))
      else
        var moved := s.nodes[i].(parent := newParent, name := newName);
        match Resolve(s.nodes, newParent, newName)
        case None => SpaceOutcome(Space(s.nodes[i := moved], f.commit), Ok)
        case Some(j) =>
          if IsDirNode(s.nodes, j) && HasEntries(s.nodes, j) then SpaceOutcome(s.(wedged := true), Err(ENOTEMPTY))
          else SpaceOutcome(Space((s.nodes - {j})[i := moved], f.commit), Ok)
  }

  function SpaceReadlink(s: Space, ino: Ino): Reply {
    if ino !in s.nodes then Err(ENOENT)
    else match s.nodes[ino].target case None => Err(EINVAL) case Some(path) => Target(path)
  }

  function SpaceReaddir(s: Space, ino: Ino): Reply {
    if ino !in s.nodes then Err(ENOENT)
    else if !IsDirNode(s.nodes, ino) then Err(ENOTDIR)
    else
      var up := if s.nodes[ino].parent < ROOT then ROOT else s.nodes[ino].parent;
      Listing({DirEntry(ino, Directory, "."), DirEntry(up, Directory, "..")}
              + set i | i in s.nodes && s.nodes[i].parent == ino :: DirEntry(i, s.nodes[i].kind, s.nodes[i].name))
  }

  ghost function SpaceStep(s: Space, op: Op): SpaceOutcome {
    match op
    case InitOp(fails) => SpaceInit(s, fails)
    case LookupOp(parent, name) => SpaceOutcome(s, SpaceLookup(s, parent, name))
    case MkdirOp(parent, name, f) => SpaceMake(s, parent, name, Directory, f)
    case CreateOp(parent, name, f) => SpaceMake(s, parent, name, RegularFile, f)
    case SymlinkOp(parent, name, target, f) => SpaceSymlink(s, parent, name, target, f)
    case ReadlinkOp(ino) => SpaceOutcome(s, SpaceReadlink(s, ino))
    case UnlinkOp(parent, name, f) => SpaceUnlink(s, parent, name, f)
    case RmdirOp(parent, name, f) => SpaceRmdir(s, parent, name, f)
    case RenameOp(parent, name, newParent, newName, f) => SpaceRename(s, parent, name, newParent, newName, f)
    case ReaddirOp(ino) => SpaceOutcome(s, SpaceReaddir(s, ino))
    case _ => SpaceOutcome(s, Ok)
  }

  // ----- Bytes -----

  /** A regular file keeps its bytes as long as its node is there; a new one is empty. */
  function FilesAfter(files: map<Ino, Data>, nodes: Nodes): map<Ino, Data> {
    map i | i in nodes && nodes[i].kind == RegularFile :: if i in files then files[i] else []
  }

  ghost function AbsOpen(a: Abs, ino: Ino): Abs {
    a.(buffers := a.buffers[a.nextFh := Buffer(ino, [])], nextFh := a.nextFh + 1)
  }

  /** A read sees the handle's own buffer if it holds anything, and the file otherwise. */
  function AbsRead(a: Abs, ino: Ino, fh: nat, offset: nat, size: nat): Reply {
    if ino !in a.space.nodes then Err(ENOENT)
    else if a.space.nodes[ino].kind != RegularFile then Err(EISDIR)
    else if fh in a.buffers && a.buffers[fh].bytes != [] then Bytes(Slice(a.buffers[fh].bytes, offset, size))
    else Bytes(Slice(if ino in a.files then a.files[ino] else [], offset, size))
  }

  /** The buffer with these bytes from the offset on, the old ones elsewhere, and zeros where it had none. */
  function Overwritten(was: Data, offset: nat, data: Data): Data {
    var end := offset + |data|;
    seq(if |was| < end then end else |was|, k requires 0 <= k =>
      if offset <= k < end then data[k - offset] else if k < |was| then was[k] else 0)
  }

  function AbsWrite(a: Abs, fh: nat, offset: nat, data: Data): AbsOutcome {
    if fh !in a.buffers then AbsOutcome(a, Err(EBADF))
    else
      var b := a.buffers[fh];
      AbsOutcome(a.(buffers := a.buffers[fh := b.(bytes := Overwritten(b.bytes, offset, data))]), Written(|data|))
  }

  /** Closing a handle with a non-empty buffer makes the buffer the whole file. */
  function AbsRelease(a: Abs, ino: Ino, fh: nat): Abs {
    var files :=
      if fh in a.buffers && a.buffers[fh].bytes != [] && ino in a.files then a.files[ino := a.buffers[fh].bytes]
      else a.files;
    a.(files := files, buffers := a.buffers - {fh})
  }

  ghost function AbsOpenFile(a: Abs, ino: Ino): AbsOutcome {
    if ino in a.space.nodes then AbsOutcome(AbsOpen(a, ino), Opened(a.nextFh)) else AbsOutcome(a, Err(ENOENT))
  }

  /** A namespace request; files that lose their node are gone, new ones are empty. */
  ghost function AbsNames(a: Abs, op: Op): AbsOutcome {
    var e := SpaceStep(a.space, op);
    AbsOutcome(a.(space := e.space, files := FilesAfter(a.files, e.space.nodes)), e.reply)
  }

  ghost function AbsCreate(a: Abs, op: Op): AbsOutcome {
    var o := AbsNames(a, op);
    match o.reply
    case Entry(ino, _) => AbsOutcome(AbsOpen(o.abs, ino), Created(ino, o.abs.nextFh))
    case _ => o
  }

  ghost function AbsStep(a: Abs, op: Op): AbsOutcome {
    match op
    case CreateOp(_, _, _) => AbsCreate(a, op)
    case OpenOp(ino) => AbsOpenFile(a, ino)
    case ReadOp(ino, fh, offset, size) => AbsOutcome(a, AbsRead(a, ino, fh, offset, size))
    case WriteOp(_, fh, offset, data, _) => AbsWrite(a, fh, offset, data)
    case ReleaseOp(ino, fh, _) => AbsOutcome(AbsRelease(a, ino, fh), Ok)
    case LinkStatus(_, _, _) => AbsOutcome(a, Ok)
    case _ => AbsNames(a, op)
  }

  datatype AbsRunResult = AbsRunResult(abs: Abs, replies: seq<Reply>)

  ghost function AbsRun(a: Abs, ops: seq<Op>): AbsRunResult
    decreases |ops|
  {
    if ops == [] then AbsRunResult(a, [])
    else
      var o := AbsStep(a, ops[0]);
      var r := AbsRun(o.abs, ops[1..]);
      AbsRunResult(r.abs, [o.reply] + r.replies)
  }

  // ----- What a state of the real filesystem stands for -----

  function NodeOf(row: Inode): Node {
    Node(row.parent, row.name, row.fileType, row.symlinkTarget)
  }

  function NodesOf(rows: Inodes): Nodes {
    map i | i in rows :: NodeOf(rows[i])
  }

  function SpaceOf(db: Db): Space {
    Space(NodesOf(db.tables.inodes), db.saved.Some?)
  }

  function MessagesOf(fs: Fs): map<int, Data> {
    if fs.transport.Some? then fs.transport.value.messages else map[]
  }

  function FetchFrom(messages: map<int, Data>): BlockPointer -> Data {
    (bp: BlockPointer) => if bp.messageId in messages then messages[bp.messageId] else []
  }

  /** The blocks of the manifest, joined. */
  function ContentOf(row: Inode, messages: map<int, Data>): Data {
    match row.manifest
    case None => []
    case Some(m) => Flat(m.blocks, FetchFrom(messages))
  }

  function FilesOf(rows: Inodes, messages: map<int, Data>): map<Ino, Data> {
    map i | i in rows && rows[i].IsFile() :: ContentOf(rows[i], messages)
  }

  function BuffersOf(handles: Handles): map<nat, Buffer> {
    map fh | fh in handles.open :: Buffer(handles.open[fh].ino, handles.open[fh].writeBuffer)
  }

  function Abstract(fs: Fs): Abs {
    Abs(SpaceOf(fs.db), FilesOf(fs.db.tables.inodes, MessagesOf(fs)), BuffersOf(fs.handles), fs.handles.nextFh)
  }
}
