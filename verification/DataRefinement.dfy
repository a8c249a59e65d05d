/**
 What blocks, messages, cache, manifests and handles keep to each other, and what
 fetching, flushing and rewriting do to the bytes that files stand for.
 */
module DataRefinement {
  import opened Wrappers
  import opened Content
  import opened Manifests
  import opened Stores
  import opened Trees
  import opened BlockCaches
  import opened BlockCacheProofs
  import opened HandleTables
  import opened Transports
  import opened FileSystem
  import opened AbstractFs
  import opened NamespaceRefinement

  // ----- Invariants -----

  /** The message of a block row holds what the row's hash says. */
  predicate Stored(block: BlockRecord, messages: map<int, Data>) {
    && block.messageId in messages && messages[block.messageId] == block.contentHash.content
    && block.encryptedSize == |block.contentHash.content| && !block.compressed
  }

  ghost predicate BlocksSound(blocks: Blocks, messages: map<int, Data>) {
    forall r | r in blocks :: blocks[r].rid == r && Stored(blocks[r], messages)
  }

  ghost predicate IdsBelow(transport: Option<Transport>) {
    transport.Some? ==> forall m | m in transport.value.messages :: m < transport.value.nextId
  }

  function Contents(blocks: Blocks): Rid -> Option<Data> {
    (r: Rid) => if r in blocks then Some(blocks[r].contentHash.content) else None
  }

  /** Every cached file is the content of its block. */
  ghost predicate CacheSound(mount: Mount, cache: Option<Queue>, blocks: Blocks) {
    cache.Some? ==> Faithful(cache.value, Contents(blocks), mount.encryptAtRest)
  }

  predicate PointerSound(bp: BlockPointer, blocks: Blocks) {
    && bp.rid in blocks && bp.messageId == blocks[bp.rid].messageId
    && bp.contentHash == blocks[bp.rid].contentHash && bp.length == |bp.contentHash.content|
  }

  ghost predicate PointersSound(bps: seq<BlockPointer>, blocks: Blocks) {
    forall k | 0 <= k < |bps| :: PointerSound(bps[k], blocks)
  }

  ghost predicate ManifestSound(m: FileManifest, blocks: Blocks) {
    IsTiling(m) && PointersSound(m.blocks, blocks)
  }

  ghost predicate FilesSound(rows: Inodes, blocks: Blocks) {
    forall i | i in rows && rows[i].IsFile() :: rows[i].manifest.Some? && ManifestSound(rows[i].manifest.value, blocks)
  }

  /** Some handle on this inode holds bytes that are not flushed yet. */
  ghost predicate Pending(handles: Handles, ino: Ino) {
    exists fh | fh in handles.open :: handles.open[fh].ino == ino && handles.open[fh].writeBuffer != []
  }

  ghost predicate SizesSound(rows: Inodes, handles: Handles) {
    forall i | i in rows && rows[i].IsFile() && !Pending(handles, i) ::
      rows[i].manifest.Some? && rows[i].size == rows[i].manifest.value.totalSize
  }

  ghost predicate HandlesSound(handles: Handles) {
    forall fh | fh in handles.open ::
      fh < handles.nextFh && (handles.open[fh].writeBuffer != [] ==> handles.open[fh].dirty)
  }

  /** What the storage side keeps to itself, apart from files and handles. */
  ghost predicate StoreSound(mount: Mount, fs: Fs) {
    && BlocksSound(fs.db.tables.blocks, MessagesOf(fs))
    && IdsBelow(fs.transport)
    && CacheSound(mount, fs.cache, fs.db.tables.blocks)
  }

  ghost predicate Inv(mount: Mount, fs: Fs) {
    && Tree(fs.db.tables.inodes)
    && StoreSound(mount, fs)
    && FilesSound(fs.db.tables.inodes, fs.db.tables.blocks)
    && SizesSound(fs.db.tables.inodes, fs.handles)
    && HandlesSound(fs.handles)
  }

  // ----- What may change below a file without changing its bytes -----

  ghost predicate BlocksKept(blocks: Blocks, blocks': Blocks) {
    forall r | r in blocks ::
      r in blocks' && blocks'[r].contentHash == blocks[r].contentHash && blocks'[r].messageId == blocks[r].messageId
  }

  ghost predicate MessagesKept(messages: map<int, Data>, messages': map<int, Data>) {
    forall m | m in messages :: m in messages' && messages'[m] == messages[m]
  }

  lemma FilesStaySound(rows: Inodes, blocks: Blocks, blocks': Blocks)
    requires FilesSound(rows, blocks) && BlocksKept(blocks, blocks')
    ensures FilesSound(rows, blocks')
  {
  }

  lemma {:induction false} FlatSame(bps: seq<BlockPointer>, f: BlockPointer -> Data, g: BlockPointer -> Data)
    requires forall k | 0 <= k < |bps| :: f(bps[k]) == g(bps[k])
    ensures Flat(bps, f) == Flat(bps, g)
  {
    if bps != [] {
      FlatSame(bps[..|bps| - 1], f, g);
    }
  }

  lemma {:induction false} FilesStay(rows: Inodes, blocks: Blocks, messages: map<int, Data>, messages': map<int, Data>)
    requires FilesSound(rows, blocks) && BlocksSound(blocks, messages) && MessagesKept(messages, messages')
    ensures FilesOf(rows, messages') == FilesOf(rows, messages)
  {
    forall i | i in rows && rows[i].IsFile()
      ensures ContentOf(rows[i], messages') == ContentOf(rows[i], messages)
    {
      var bps := rows[i].manifest.value.blocks;
      forall k | 0 <= k < |bps|
        ensures FetchFrom(messages')(bps[k]) == FetchFrom(messages)(bps[k])
      {
        assert PointerSound(bps[k], blocks);
        assert Stored(blocks[bps[k].rid], messages);
      }
      FlatSame(bps, FetchFrom(messages'), FetchFrom(messages));
    }
  }

  // ----- Namespace steps -----

  lemma CarriesFiles(rows: Inodes, rows': Inodes, blocks: Blocks)
    requires FilesSound(rows, blocks) && Carries(rows, rows')
    ensures FilesSound(rows', blocks)
  {
  }

  lemma CarriesSizes(rows: Inodes, rows': Inodes, handles: Handles)
    requires SizesSound(rows, handles) && Carries(rows, rows')
    ensures SizesSound(rows', handles)
  {
  }

  lemma CarriesBytes(rows: Inodes, rows': Inodes, messages: map<int, Data>)
    requires Carries(rows, rows')
    ensures FilesOf(rows', messages) == FilesAfter(FilesOf(rows, messages), NodesOf(rows'))
  {
  }

  // ----- The cache -----

  lemma FaithfulSame(q: Queue, blocks: Blocks, blocks': Blocks, encryptAtRest: bool)
    requires Faithful(q, Contents(blocks), encryptAtRest) && BlocksKept(blocks, blocks')
    ensures Faithful(q, Contents(blocks'), encryptAtRest)
  {
  }

  lemma PutKeepsCache(mount: Mount, cache: Option<Queue>, blocks: Blocks, rid: Rid, data: Data)
    requires CacheSound(mount, cache, blocks) && rid in blocks && blocks[rid].contentHash == Blake3(data)
    ensures CacheSound(mount, CachePut(mount, cache, rid, data), blocks)
  {
    if cache.Some? {
      FaithfulPut(cache.value, Contents(blocks), Contents(blocks), rid, data, mount.cacheMax, mount.encryptAtRest);
    }
  }

  function Touched(cache: Option<Queue>, rid: Rid): Option<Queue> {
    match cache case None => None case Some(q) => Some(Touch(q, rid))
  }

  predicate IsCached(cache: Option<Queue>, rid: Rid) {
    cache.Some? && Find(cache.value, rid).Some?
  }

  predicate Downloads(transport: Option<Transport>) {
    transport.Some? && CanDownload(transport.value)
  }

  /**
   Cache hit or download, the bytes of a block are those of its message; there
   are bytes whenever the block is cached or the transport answers.
   */
  lemma FetchIsTransparent(mount: Mount, fs: Fs, cache: Option<Queue>, bp: BlockPointer)
    requires BlocksSound(fs.db.tables.blocks, MessagesOf(fs)) && PointerSound(bp, fs.db.tables.blocks)
    requires CacheSound(mount, cache, fs.db.tables.blocks)
    ensures var f := Fetch(mount, fs.transport, cache, bp.messageId, bp.rid);
            && CacheSound(mount, f.cache, fs.db.tables.blocks)
            && (f.data.Some? ==> f.data.value == FetchFrom(MessagesOf(fs))(bp))
            && (f.data.Some? <==> IsCached(cache, bp.rid) || Downloads(fs.transport))
            && (IsCached(cache, bp.rid) ==> f.cache == Touched(cache, bp.rid))
  {
    var blocks := fs.db.tables.blocks;
    assert Stored(blocks[bp.rid], MessagesOf(fs));
    if cache.Some? {
      FaithfulFind(cache.value, Contents(blocks), mount.encryptAtRest, bp.rid);
    }
    if !IsCached(cache, bp.rid) && Downloads(fs.transport) {
      PutKeepsCache(mount, Touched(cache, bp.rid), blocks, bp.rid, blocks[bp.rid].contentHash.content);
    }
  }

  // ----- The read loop -----

  ghost predicate AllCached(cache: Option<Queue>, bps: seq<BlockPointer>) {
    forall k | 0 <= k < |bps| :: IsCached(cache, bps[k].rid)
  }

  /** All blocks of a read can be had. */
  ghost predicate Reachable(fs: Fs, bps: seq<BlockPointer>) {
    Downloads(fs.transport) || AllCached(fs.cache, bps)
  }

  /**
   The read loop comes through exactly if all its blocks are reachable, and then fills
   the buffer as if every message were at hand, whatever the cache does meanwhile.
   */
  lemma {:induction false} ReadLoopAssembles(mount: Mount, fs: Fs, bps: seq<BlockPointer>, offset: nat, size: nat)
    requires BlocksSound(fs.db.tables.blocks, MessagesOf(fs)) && PointersSound(bps, fs.db.tables.blocks)
    requires CacheSound(mount, fs.cache, fs.db.tables.blocks)
    ensures var r := ReadBlocks(mount, fs.transport, fs.cache, bps, offset, size);
            && (r.ok <==> Reachable(fs, bps))
            && (r.ok ==> r.buf == Assemble(bps, FetchFrom(MessagesOf(fs)), offset, size))
            && CacheSound(mount, r.cache, fs.db.tables.blocks)
            && (Downloads(fs.transport) || forall rid :: IsCached(r.cache, rid) <==> IsCached(fs.cache, rid))
    decreases |bps|
  {
    if bps != [] {
      var front, bp := bps[..|bps| - 1], bps[|bps| - 1];
      ReadLoopAssembles(mount, fs, front, offset, size);
      var before := ReadBlocks(mount, fs.transport, fs.cache, front, offset, size);
      assert PointerSound(bp, fs.db.tables.blocks);
      FetchIsTransparent(mount, fs, before.cache, bp);
      assert AllCached(fs.cache, bps) <==> AllCached(fs.cache, front) && IsCached(fs.cache, bp.rid);
      if !Downloads(fs.transport) && before.ok {
        FetchKeepsCached(mount, fs, before.cache, bp);
      }
    }
  }

  /** Without downloads nothing comes into the cache and nothing leaves it. */
  lemma FetchKeepsCached(mount: Mount, fs: Fs, cache: Option<Queue>, bp: BlockPointer)
    requires !Downloads(fs.transport)
    ensures var f := Fetch(mount, fs.transport, cache, bp.messageId, bp.rid);
            forall rid :: IsCached(f.cache, rid) <==> IsCached(cache, rid)
  {
    var f := Fetch(mount, fs.transport, cache, bp.messageId, bp.rid);
    assert f.cache == Touched(cache, bp.rid);
    forall rid
      ensures IsCached(f.cache, rid) <==> IsCached(cache, rid)
    {
      if cache.Some? {
        TouchFinds(cache.value, bp.rid, rid);
      }
    }
  }
}
