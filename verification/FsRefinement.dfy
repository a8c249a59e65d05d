/**
 The filesystem refines the abstract one: every step of every allowed run acts on
 names, file bytes and buffers, and replies, as the abstract filesystem does.
 */
module FsRefinement {
  import opened Wrappers
  import opened Content
  import opened Manifests
  import opened Stores
  import opened Namespace
  import opened Trees
  import opened BlockCaches
  import opened HandleTables
  import opened Transports
  import opened FileSystem
  import opened AbstractFs
  import opened NamespaceRefinement
  import opened DataRefinement

  // ----- Which requests the refinement covers -----

  predicate OwnBytes(fs: Fs, fh: nat) {
    fh in fs.handles.open && fs.handles.open[fh].writeBuffer != []
  }

  /** The recorded size of the file does not spoil this range; it never does if no bytes are pending. */
  ghost predicate SizeServes(inode: Inode, offset: nat, size: nat) {
    inode.manifest.Some? ==> Serves(inode.manifest.value.totalSize, inode.size, offset, size)
  }

  /** The handle's own bytes, or a file whose blocks can be had and whose recorded size serves the range. */
  ghost predicate CanSee(fs: Fs, ino: Ino, fh: nat, offset: nat, size: nat) {
    || OwnBytes(fs, fh)
    || (ino in fs.db.tables.inodes && fs.db.tables.inodes[ino].IsFile() ==>
          var inode := fs.db.tables.inodes[ino];
          size == 0 || (Reachable(fs, NeededBlocks(inode, offset, size)) && SizeServes(inode, offset, size)))
  }

  /** There is a transport, and the content is known or can be uploaded and stored under a new identifier. */
  ghost predicate CanFlush(fs: Fs, data: Data, e: FlushEvents) {
    && fs.transport.Some?
    && (Known(fs.db.tables.blocks, data, e).Some?
        || (CanUpload(fs.transport.value) && e.rid !in fs.db.tables.blocks && !e.insert))
  }

  /** Handles are used with their own inode, writes leave bytes in the buffer, flushes succeed and are recorded. */
  ghost predicate Allowed(fs: Fs, op: Op) {
    match op
    case ReadOp(ino, fh, offset, size) => CanSee(fs, ino, fh, offset, size)
    case WriteOp(ino, fh, offset, data, _) =>
      fh in fs.handles.open ==>
        fs.handles.open[fh].ino == ino && (fs.handles.open[fh].writeBuffer != [] || offset + |data| > 0)
    case ReleaseOp(ino, fh, e) =>
      fh in fs.handles.open ==>
        && fs.handles.open[fh].ino == ino
        && (fs.handles.open[fh].writeBuffer != [] ==> CanFlush(fs, fs.handles.open[fh].writeBuffer, e) && !e.update)
    case _ => Orderly(fs.db.tables.inodes, op)
  }

  /** What one step must achieve: the invariant, and the state and reply of the abstract step. */
  ghost predicate Matches(mount: Mount, o: Outcome, a: AbsOutcome) {
    Inv(mount, o.fs) && a == AbsOutcome(Abstract(o.fs), o.reply)
  }

  // ----- Names -----

  lemma NamesRefined(mount: Mount, fs: Fs, op: Op)
    requires Inv(mount, fs) && Orderly(fs.db.tables.inodes, op)
    ensures var e := DbStep(fs.db, op);
            && Refines(fs.db, e, SpaceStep(SpaceOf(fs.db), op))
            && Inv(mount, fs.(db := e.db))
            && FilesOf(e.db.tables.inodes, MessagesOf(fs))
               == FilesAfter(FilesOf(fs.db.tables.inodes, MessagesOf(fs)), NodesOf(e.db.tables.inodes))
  {
    var e := DbStep(fs.db, op);
    DbStepRefines(fs.db, op);
    CarriesFiles(fs.db.tables.inodes, e.db.tables.inodes, fs.db.tables.blocks);
    CarriesSizes(fs.db.tables.inodes, e.db.tables.inodes, fs.handles);
    CarriesBytes(fs.db.tables.inodes, e.db.tables.inodes, MessagesOf(fs));
  }

  // ----- Handles -----

  lemma OpenRefined(mount: Mount, fs: Fs, ino: Ino)
    requires Inv(mount, fs)
    ensures var fs' := fs.(handles := OpenHandle(fs.handles, ino));
            Inv(mount, fs') && Abstract(fs') == AbsOpen(Abstract(fs), ino)
  {
    var handles' := OpenHandle(fs.handles, ino);
    forall i | Pending(fs.handles, i)
      ensures Pending(handles', i)
    {
      var fh :| fh in fs.handles.open && fs.handles.open[fh].ino == i && fs.handles.open[fh].writeBuffer != [];
      assert handles'.open[fh] == fs.handles.open[fh];
    }
    assert BuffersOf(handles') == BuffersOf(fs.handles)[fs.handles.nextFh := Buffer(ino, [])];
  }

  // ----- Rows rewritten in place -----

  /** Only sizes and manifests differ. */
  ghost predicate SameShape(rows: Inodes, rows': Inodes) {
    && rows'.Keys == rows.Keys
    && forall j | j in rows :: rows'[j] == rows[j].(size := rows'[j].size, manifest := rows'[j].manifest)
  }

  lemma ShapeKeepsTree(rows: Inodes, rows': Inodes)
    requires Tree(rows) && SameShape(rows, rows')
    ensures Tree(rows') && NodesOf(rows') == NodesOf(rows)
  {
    assert forall j | j in rows :: SamePlace(rows[j], rows'[j]);
    forall i | i in rows'
      ensures Placed(rows', i) && Rooted(rows', i)
    {
      assert Placed(rows, i) && Rooted(rows, i);
      var n: nat :| Reaches(rows, i, n);
      ChainKept(rows, rows', i, n);
    }
    forall d | d in rows'
      ensures Lists(rows', d)
    {
      assert Lists(rows, d);
      forall c
        ensures ChildOf(rows', c, d) <==> ChildOf(rows, c, d)
      {
      }
    }
  }

  /** Row ino has this size and manifest now. */
  ghost predicate Resized(rows: Inodes, rows': Inodes, ino: Ino, size: nat, manifest: Option<FileManifest>) {
    && ino in rows && rows'.Keys == rows.Keys
    && rows'[ino] == rows[ino].(size := size, manifest := manifest)
    && forall j | j in rows && j != ino :: rows'[j] == rows[j]
  }

  lemma ResizedKeepsTree(rows: Inodes, rows': Inodes, ino: Ino, size: nat, manifest: Option<FileManifest>)
    requires Tree(rows) && Resized(rows, rows', ino, size, manifest)
    ensures SameShape(rows, rows') && Tree(rows') && NodesOf(rows') == NodesOf(rows)
  {
    assert SameShape(rows, rows');
    ShapeKeepsTree(rows, rows');
  }

  lemma ResizeOutcome(db: Db, ino: Ino, size: nat)
    requires Keyed(db.tables.inodes) && UniqueNames(db.tables.inodes) && ino in db.tables.inodes
    ensures var d := Resize(db, ino, size, false);
            && Resized(db.tables.inodes, d.tables.inodes, ino, size, db.tables.inodes[ino].manifest)
            && d.tables.blocks == db.tables.blocks && d.saved == db.saved
  {
  }

  lemma ReplaceOutcome(db: Db, ino: Ino, m: FileManifest)
    requires Keyed(db.tables.inodes) && UniqueNames(db.tables.inodes) && ino in db.tables.inodes
    ensures var d := Replace(db, ino, m, false);
            && Resized(db.tables.inodes, d.tables.inodes, ino, m.totalSize, Some(m))
            && d.tables.blocks == db.tables.blocks && d.saved == db.saved
  {
  }

  // ----- Reading -----

  /** The read loop and the reply computed from it, for a file of a sound state. */
  lemma FileReadOutcome(mount: Mount, fs: Fs, ino: Ino, offset: nat, size: nat)
    requires Inv(mount, fs) && ino in fs.db.tables.inodes && fs.db.tables.inodes[ino].IsFile()
    ensures var inode := fs.db.tables.inodes[ino];
            var needed := NeededBlocks(inode, offset, size);
            var r := ReadBlocks(mount, fs.transport, fs.cache, needed, offset, size);
            var fetch := FetchFrom(MessagesOf(fs));
            && inode.manifest.Some?
            && (r.ok <==> Reachable(fs, needed))
            && (r.ok ==> r.buf == Assemble(needed, fetch, offset, size))
            && CacheSound(mount, r.cache, fs.db.tables.blocks)
            && ((ReplyBytes(needed, fetch, offset, size, inode.size)
                 == Slice(ContentOf(inode, MessagesOf(fs)), offset, size))
                <==> SizeServes(inode, offset, size))
  {
    var m := fs.db.tables.inodes[ino].manifest.value;
    var needed := BlocksInRange(m.blocks, offset, size);
    var i, j := BlocksInRangeIsExact(m, offset, size);
    assert PointersSound(needed, fs.db.tables.blocks);
    ReadLoopAssembles(mount, fs, needed, offset, size);
    SoundFetches(fs, m);
    BlockReadIsSliceIff(m, FetchFrom(MessagesOf(fs)), offset, size, fs.db.tables.inodes[ino].size);
  }

  /** Each block of a sound manifest is as long as its pointer says. */
  lemma SoundFetches(fs: Fs, m: FileManifest)
    requires BlocksSound(fs.db.tables.blocks, MessagesOf(fs)) && ManifestSound(m, fs.db.tables.blocks)
    ensures FullBlocks(m.blocks, FetchFrom(MessagesOf(fs)))
  {
    forall k | 0 <= k < |m.blocks|
      ensures |FetchFrom(MessagesOf(fs))(m.blocks[k])| == m.blocks[k].length
    {
      assert PointerSound(m.blocks[k], fs.db.tables.blocks);
      assert Stored(fs.db.tables.blocks[m.blocks[k].rid], MessagesOf(fs));
    }
  }

  /** Out of reach, there is a block in range, and the slice is not empty. */
  lemma UnreachableIsWithin(mount: Mount, fs: Fs, ino: Ino, offset: nat, size: nat)
    requires Inv(mount, fs) && ino in fs.db.tables.inodes && fs.db.tables.inodes[ino].IsFile()
    requires !Reachable(fs, NeededBlocks(fs.db.tables.inodes[ino], offset, size)) && size > 0
    ensures Slice(ContentOf(fs.db.tables.inodes[ino], MessagesOf(fs)), offset, size) != []
  {
    var m := fs.db.tables.inodes[ino].manifest.value;
    var i, j := BlocksInRangeIsExact(m, offset, size);
    assert i < j && Overlaps(m.blocks[i], offset, size);
    SoundFetches(fs, m);
    FlatLength(m.blocks, FetchFrom(MessagesOf(fs)));
    EndsWithin(m, i);
    assert offset < |Flat(m.blocks, FetchFrom(MessagesOf(fs)))|;
  }

  lemma CacheChangeKeepsInv(mount: Mount, fs: Fs, cache: Option<Queue>)
    requires Inv(mount, fs) && CacheSound(mount, cache, fs.db.tables.blocks)
    ensures Inv(mount, fs.(cache := cache)) && Abstract(fs.(cache := cache)) == Abstract(fs)
  {
  }

  /**
   A read through a handle without bytes of its own changes nothing but the cache. It
   replies with the slice of the file exactly if the blocks in range can be had and the
   recorded size serves the range; if a block cannot be had, the reply is empty.
   */
  lemma {:induction false} FileReadIsSliceIff(mount: Mount, fs: Fs, ino: Ino, fh: nat, offset: nat, size: nat)
    requires Inv(mount, fs) && ino in fs.db.tables.inodes && fs.db.tables.inodes[ino].IsFile() && !OwnBytes(fs, fh)
    ensures var o, inode := Read(mount, fs, ino, fh, offset, size), fs.db.tables.inodes[ino];
            && o.fs == fs.(cache := o.fs.cache) && CacheSound(mount, o.fs.cache, fs.db.tables.blocks)
            && (o.reply == Bytes(Slice(ContentOf(inode, MessagesOf(fs)), offset, size)) <==>
                  size == 0 || (Reachable(fs, NeededBlocks(inode, offset, size)) && SizeServes(inode, offset, size)))
            && (!Reachable(fs, NeededBlocks(inode, offset, size)) ==> o.reply == Bytes([]))
  {
    FileReadOutcome(mount, fs, ino, offset, size);
    if !Reachable(fs, NeededBlocks(fs.db.tables.inodes[ino], offset, size)) && size > 0 {
      UnreachableIsWithin(mount, fs, ino, offset, size);
    }
  }

  /** Every read keeps the state, and it is right exactly under the stated condition. */
  lemma {:induction false} ReadRefined(mount: Mount, fs: Fs, ino: Ino, fh: nat, offset: nat, size: nat)
    requires Inv(mount, fs)
    ensures var o := Read(mount, fs, ino, fh, offset, size);
            && Inv(mount, o.fs) && Abstract(o.fs) == Abstract(fs)
            && (o.reply == AbsRead(Abstract(fs), ino, fh, offset, size) <==> CanSee(fs, ino, fh, offset, size))
  {
    var rows := fs.db.tables.inodes;
    var o := Read(mount, fs, ino, fh, offset, size);
    if ino in rows && rows[ino].IsFile() && !OwnBytes(fs, fh) {
      FileReadIsSliceIff(mount, fs, ino, fh, offset, size);
      AbstractFileRead(fs, ino, fh, offset, size);
    } else {
      OtherReads(mount, fs, ino, fh, offset, size);
    }
    CacheChangeKeepsInv(mount, fs, o.fs.cache);
  }

  /** With no bytes pending on the file, the recorded size serves every range. */
  lemma QuietFileServes(mount: Mount, fs: Fs, ino: Ino, offset: nat, size: nat)
    requires Inv(mount, fs) && ino in fs.db.tables.inodes && fs.db.tables.inodes[ino].IsFile()
    requires !Pending(fs.handles, ino)
    ensures SizeServes(fs.db.tables.inodes[ino], offset, size)
  {
  }

  lemma AbstractFileRead(fs: Fs, ino: Ino, fh: nat, offset: nat, size: nat)
    requires ino in fs.db.tables.inodes && fs.db.tables.inodes[ino].IsFile() && !OwnBytes(fs, fh)
    ensures AbsRead(Abstract(fs), ino, fh, offset, size)
            == Bytes(Slice(ContentOf(fs.db.tables.inodes[ino], MessagesOf(fs)), offset, size))
  {
  }

  lemma OtherReads(mount: Mount, fs: Fs, ino: Ino, fh: nat, offset: nat, size: nat)
    requires ino !in fs.db.tables.inodes || !fs.db.tables.inodes[ino].IsFile() || OwnBytes(fs, fh)
    ensures Read(mount, fs, ino, fh, offset, size) == Outcome(fs, AbsRead(Abstract(fs), ino, fh, offset, size))
  {
  }

  // ----- Writing -----

  /** Other inodes are as pending as before. */
  lemma PendingElsewhere(handles: Handles, handles': Handles, fh: nat, i: Ino)
    requires fh in handles.open && handles.open[fh].ino != i
    requires forall k | k in handles.open && k != fh :: k in handles'.open && handles'.open[k] == handles.open[k]
    ensures Pending(handles, i) ==> Pending(handles', i)
  {
  }

  lemma ResizedKeepsFiles(rows: Inodes, rows': Inodes, ino: Ino, size: nat, blocks: Blocks, messages: map<int, Data>)
    requires ino in rows && Resized(rows, rows', ino, size, rows[ino].manifest) && FilesSound(rows, blocks)
    ensures FilesSound(rows', blocks) && FilesOf(rows', messages) == FilesOf(rows, messages)
  {
    forall i | i in rows
      ensures rows'[i].manifest == rows[i].manifest && rows'[i].IsFile() == rows[i].IsFile()
      ensures ContentOf(rows'[i], messages) == ContentOf(rows[i], messages)
    {
    }
  }

  /** What write leaves in the buffer is described byte by byte, in the machine and in the abstract filesystem. */
  lemma OverlayOverwrites(was: Data, offset: nat, data: Data)
    ensures Overlay(was, offset, data) == Overwritten(was, offset, data)
  {
  }

  /** After: old bytes with data laid over them from the offset on, and zeros in a gap. */
  ghost predicate WrittenOver(was: Data, now: Data, offset: nat, data: Data) {
    && |now| == (if |was| < offset + |data| then offset + |data| else |was|)
    && forall k | 0 <= k < |now| ::
         now[k] == if offset <= k < offset + |data| then data[k - offset] else if k < |was| then was[k] else 0
  }

  /** A write through an open handle changes that handle's buffer in this way, and no other handle. */
  lemma BufferAfterWrite(fs: Fs, ino: Ino, fh: nat, offset: nat, data: Data, fails: bool)
    requires fh in fs.handles.open
    ensures var h, h' := fs.handles.open, Write(fs, ino, fh, offset, data, fails).fs.handles.open;
            && h'.Keys == h.Keys && h'[fh].dirty && h'[fh].ino == h[fh].ino
            && WrittenOver(h[fh].writeBuffer, h'[fh].writeBuffer, offset, data)
            && forall k | k in h && k != fh :: h'[k] == h[k]
    ensures var b, b' := Abstract(fs).buffers, AbsWrite(Abstract(fs), fh, offset, data).abs.buffers;
            WrittenOver(b[fh].bytes, b'[fh].bytes, offset, data)
  {
    OverlayOverwrites(fs.handles.open[fh].writeBuffer, offset, data);
  }

  lemma {:induction false} WriteRefined(mount: Mount, fs: Fs, ino: Ino, fh: nat, offset: nat, data: Data, fails: bool)
    requires Inv(mount, fs) && Allowed(fs, WriteOp(ino, fh, offset, data, fails))
    ensures Matches(mount, Write(fs, ino, fh, offset, data, fails), AbsWrite(Abstract(fs), fh, offset, data))
  {
    if fh in fs.handles.open {
      var o := Write(fs, ino, fh, offset, data, fails);
      var rows, rows' := fs.db.tables.inodes, o.fs.db.tables.inodes;
      var h := fs.handles.open[fh];
      var h' := h.(writeBuffer := Overlay(h.writeBuffer, offset, data), dirty := true);
      assert o.fs.handles.open == fs.handles.open[fh := h'];
      OverlayOverwrites(h.writeBuffer, offset, data);
      assert BuffersOf(o.fs.handles) == BuffersOf(fs.handles)[fh := Buffer(ino, h'.writeBuffer)];
      if ino in rows && !fails {
        var size := |Overlay(h.writeBuffer, offset, data)|;
        ResizeOutcome(fs.db, ino, size);
        ResizedKeepsTree(rows, rows', ino, size, rows[ino].manifest);
        ResizedKeepsFiles(rows, rows', ino, size, fs.db.tables.blocks, MessagesOf(fs));
      }
      WriteKeepsSizes(rows, rows', fs.handles, o.fs.handles, ino, fh);
    }
  }

  lemma WriteKeepsSizes(rows: Inodes, rows': Inodes, handles: Handles, handles': Handles, ino: Ino, fh: nat)
    requires SizesSound(rows, handles) && fh in handles.open && handles.open[fh].ino == ino
    requires handles'.open.Keys == handles.open.Keys && handles'.open[fh].ino == ino
             && handles'.open[fh].writeBuffer != []
    requires forall k | k in handles.open && k != fh :: handles'.open[k] == handles.open[k]
    requires rows'.Keys == rows.Keys && forall i | i in rows && i != ino :: rows'[i] == rows[i]
    ensures SizesSound(rows', handles')
  {
  }

  // ----- Flushing -----

  /** What a successful flush gives: a sound block row for these bytes, and nothing lost. */
  ghost predicate FlushedWell(mount: Mount, fs: Fs, f: Flushed, data: Data) {
    && f.fs.db.tables.inodes == fs.db.tables.inodes && f.fs.db.saved == fs.db.saved && f.fs.handles == fs.handles
    && StoreSound(mount, f.fs)
    && BlocksKept(fs.db.tables.blocks, f.fs.db.tables.blocks)
    && MessagesKept(MessagesOf(fs), MessagesOf(f.fs))
    && f.block.Some?
    && f.block.value.contentHash == Blake3(data)
    && PointerSound(PointerTo(f.block.value, data), f.fs.db.tables.blocks)
  }

  lemma DedupFlushes(mount: Mount, fs: Fs, data: Data, e: FlushEvents)
    requires StoreSound(mount, fs) && fs.transport.Some? && Known(fs.db.tables.blocks, data, e).Some?
    ensures FlushedWell(mount, fs, Flush(mount, fs, data, e), data)
  {
    var blocks := fs.db.tables.blocks;
    var existing := Known(blocks, data, e).value;
    assert existing.rid in blocks && blocks[existing.rid] == existing && Stored(existing, MessagesOf(fs));
    var blocks' := Referenced(fs.db, existing.rid, e.increment).tables.blocks;
    assert e.increment || blocks' == blocks[existing.rid := existing.(refCount := existing.refCount + 1)];
    assert BlocksKept(blocks, blocks');
    if fs.cache.Some? {
      FaithfulSame(fs.cache.value, blocks, blocks', mount.encryptAtRest);
    }
  }

  /** A new row under a new identifier, for a message under a new number. */
  lemma UploadKeepsStored(blocks: Blocks, blocks': Blocks, t: Transport, block: BlockRecord, data: Data)
    requires BlocksSound(blocks, t.messages) && IdsBelow(Some(t))
    requires block.rid !in blocks && blocks' == blocks[block.rid := block]
    requires block.messageId == t.nextId && block.contentHash == Blake3(data)
    requires block.encryptedSize == |data| && !block.compressed
    ensures BlocksSound(blocks', Upload(t, data).messages) && IdsBelow(Some(Upload(t, data)))
    ensures BlocksKept(blocks, blocks') && MessagesKept(t.messages, Upload(t, data).messages)
  {
  }

  lemma UploadFlushes(mount: Mount, fs: Fs, data: Data, e: FlushEvents)
    requires StoreSound(mount, fs) && fs.transport.Some? && Known(fs.db.tables.blocks, data, e).None?
    requires CanUpload(fs.transport.value) && e.rid !in fs.db.tables.blocks && !e.insert
    ensures FlushedWell(mount, fs, Flush(mount, fs, data, e), data)
  {
    var t := fs.transport.value;
    var block := NewBlock(mount, t, data, e.rid);
    var blocks, blocks' := fs.db.tables.blocks, fs.db.tables.blocks[e.rid := block];
    UploadKeepsStored(blocks, blocks', t, block, data);
    if fs.cache.Some? {
      FaithfulSame(fs.cache.value, blocks, blocks', mount.encryptAtRest);
    }
    PutKeepsCache(mount, fs.cache, blocks', e.rid, data);
  }

  lemma FlushSucceeds(mount: Mount, fs: Fs, data: Data, e: FlushEvents)
    requires StoreSound(mount, fs) && CanFlush(fs, data, e)
    ensures FlushedWell(mount, fs, Flush(mount, fs, data, e), data)
  {
    if Known(fs.db.tables.blocks, data, e).Some? {
      DedupFlushes(mount, fs, data, e);
    } else {
      UploadFlushes(mount, fs, data, e);
    }
  }

  /** A flush gives a block exactly in this case. */
  lemma FlushSucceedsIff(mount: Mount, fs: Fs, data: Data, e: FlushEvents)
    ensures Flush(mount, fs, data, e).block.Some? <==> CanFlush(fs, data, e)
  {
  }

  /** The manifest that release writes is valid and stands for exactly the buffer. */
  lemma OneBlockManifest(ino: Ino, block: BlockRecord, data: Data, blocks: Blocks, messages: map<int, Data>)
    requires BlocksSound(blocks, messages) && block.contentHash == Blake3(data)
    requires PointerSound(PointerTo(block, data), blocks)
    ensures var m := ManifestOf(ino, block, data);
            ManifestSound(m, blocks) && Flat(m.blocks, FetchFrom(messages)) == data
  {
  }

  lemma ReplacedIsSound(rows: Inodes, rows': Inodes, ino: Ino, m: FileManifest, blocks: Blocks)
    requires ino in rows && Resized(rows, rows', ino, m.totalSize, Some(m))
    requires FilesSound(rows, blocks) && ManifestSound(m, blocks)
    ensures FilesSound(rows', blocks)
  {
  }

  /** After the rewrite the file is the blocks of its new manifest, and every other file is as before. */
  lemma ReplacedFile(rows: Inodes, rows': Inodes, ino: Ino, m: FileManifest, data: Data, messages: map<int, Data>)
    requires ino in rows && Resized(rows, rows', ino, m.totalSize, Some(m))
    requires Flat(m.blocks, FetchFrom(messages)) == data
    ensures FilesOf(rows', messages)
            == if ino in FilesOf(rows, messages) then FilesOf(rows, messages)[ino := data] else FilesOf(rows, messages)
  {
  }

  // ----- Closing -----

  lemma CloseKeepsSizes(rows: Inodes, rows': Inodes, handles: Handles, ino: Ino, fh: nat)
    requires SizesSound(rows, handles) && fh in handles.open && handles.open[fh].ino == ino
    requires rows'.Keys == rows.Keys && forall i | i in rows && i != ino :: rows'[i] == rows[i]
    requires ino in rows ==>
               if handles.open[fh].writeBuffer == [] then rows'[ino] == rows[ino]
               else rows'[ino].manifest.Some? && rows'[ino].size == rows'[ino].manifest.value.totalSize
    ensures SizesSound(rows', CloseHandle(handles, fh))
  {
    var handles' := CloseHandle(handles, fh);
    if handles.open[fh].writeBuffer == [] && Pending(handles, ino) {
      var k :| k in handles.open && handles.open[k].ino == ino && handles.open[k].writeBuffer != [];
      assert handles'.open[k] == handles.open[k];
    }
    forall i | i in rows' && rows'[i].IsFile() && !Pending(handles', i)
      ensures rows'[i].manifest.Some? && rows'[i].size == rows'[i].manifest.value.totalSize
    {
      if i != ino {
        PendingElsewhere(handles, handles', fh, i);
      }
    }
  }

  lemma BuffersAfterClose(handles: Handles, fh: nat)
    ensures BuffersOf(CloseHandle(handles, fh)) == BuffersOf(handles) - {fh}
  {
  }

  lemma QuietRelease(mount: Mount, fs: Fs, ino: Ino, fh: nat, e: FlushEvents)
    requires Inv(mount, fs) && Allowed(fs, ReleaseOp(ino, fh, e)) && !OwnBytes(fs, fh)
    ensures Matches(mount, Release(mount, fs, ino, fh, e), AbsOutcome(AbsRelease(Abstract(fs), ino, fh), Ok))
  {
    BuffersAfterClose(fs.handles, fh);
    if fh in fs.handles.open {
      CloseKeepsSizes(fs.db.tables.inodes, fs.db.tables.inodes, fs.handles, ino, fh);
    } else {
      assert CloseHandle(fs.handles, fh) == fs.handles;
    }
  }

  /**
   The row of the closed file, if there is one, is replaced; everything else of the database is
   as the flush left it.
   */
  lemma CommittedRow(mount: Mount, db: Db, ino: Ino, m: FileManifest, data: Data, messages: map<int, Data>)
    requires Tree(db.tables.inodes) && FilesSound(db.tables.inodes, db.tables.blocks)
    requires ManifestSound(m, db.tables.blocks) && Flat(m.blocks, FetchFrom(messages)) == data
    ensures var d := Replace(db, ino, m, false);
            var rows, rows' := db.tables.inodes, d.tables.inodes;
            && d.tables.blocks == db.tables.blocks
            && Tree(rows') && SpaceOf(d) == SpaceOf(db) && FilesSound(rows', db.tables.blocks)
            && FilesOf(rows', messages)
               == (if ino in FilesOf(rows, messages) then FilesOf(rows, messages)[ino := data]
                   else FilesOf(rows, messages))
            && rows'.Keys == rows.Keys && (forall i | i in rows && i != ino :: rows'[i] == rows[i])
            && (ino in rows ==> rows'[ino].manifest == Some(m) && rows'[ino].size == m.totalSize)
  {
    if ino in db.tables.inodes {
      var rows, rows' := db.tables.inodes, Replace(db, ino, m, false).tables.inodes;
      ReplaceOutcome(db, ino, m);
      ResizedKeepsTree(rows, rows', ino, m.totalSize, Some(m));
      ReplacedIsSound(rows, rows', ino, m, db.tables.blocks);
      ReplacedFile(rows, rows', ino, m, data, messages);
    }
  }

  lemma {:induction false} FlushedRelease(mount: Mount, fs: Fs, ino: Ino, fh: nat, e: FlushEvents)
    requires Inv(mount, fs) && Allowed(fs, ReleaseOp(ino, fh, e)) && OwnBytes(fs, fh)
    ensures Matches(mount, Release(mount, fs, ino, fh, e), AbsOutcome(AbsRelease(Abstract(fs), ino, fh), Ok))
  {
    var data := fs.handles.open[fh].writeBuffer;
    FlushSucceeds(mount, fs, data, e);
    var f := Flush(mount, fs, data, e);
    var m := ManifestOf(ino, f.block.value, data);
    var rows, blocks, messages := fs.db.tables.inodes, f.fs.db.tables.blocks, MessagesOf(f.fs);
    FilesStaySound(rows, fs.db.tables.blocks, blocks);
    FilesStay(rows, fs.db.tables.blocks, MessagesOf(fs), messages);
    OneBlockManifest(ino, f.block.value, data, blocks, messages);
    CommittedRow(mount, f.fs.db, ino, m, data, messages);
    var d := Replace(f.fs.db, ino, m, false);
    CloseKeepsSizes(rows, d.tables.inodes, fs.handles, ino, fh);
    ReleaseSteps(mount, fs, ino, fh, e);
    var fs' := Release(mount, fs, ino, fh, e).fs;
    assert Inv(mount, fs');
    AbstractRelease(fs, fs', ino, fh);
  }

  lemma ReleaseSteps(mount: Mount, fs: Fs, ino: Ino, fh: nat, e: FlushEvents)
    requires HandlesSound(fs.handles) && OwnBytes(fs, fh) && fs.transport.Some?
    requires Flush(mount, fs, fs.handles.open[fh].writeBuffer, e).block.Some?
    ensures var data := fs.handles.open[fh].writeBuffer;
            var f := Flush(mount, fs, data, e);
            Release(mount, fs, ino, fh, e)
            == Outcome(f.fs.(db := Replace(f.fs.db, ino, ManifestOf(ino, f.block.value, data), e.update),
                             handles := CloseHandle(f.fs.handles, fh)), Ok)
  {
  }

  lemma AbstractRelease(fs: Fs, fs': Fs, ino: Ino, fh: nat)
    requires OwnBytes(fs, fh) && fs'.handles == CloseHandle(fs.handles, fh) && SpaceOf(fs'.db) == SpaceOf(fs.db)
    requires var data, files := fs.handles.open[fh].writeBuffer, FilesOf(fs.db.tables.inodes, MessagesOf(fs));
             FilesOf(fs'.db.tables.inodes, MessagesOf(fs')) == if ino in files then files[ino := data] else files
    ensures AbsRelease(Abstract(fs), ino, fh) == Abstract(fs')
  {
  }

  // ----- The whole machine -----

  lemma CreateRefined(mount: Mount, fs: Fs, parent: Ino, name: string, f: Faults)
    requires Inv(mount, fs) && InsertSurvives(f)
    ensures Matches(mount, Create(fs, parent, name, f), AbsCreate(Abstract(fs), CreateOp(parent, name, f)))
  {
    var op := CreateOp(parent, name, f);
    NamesRefined(mount, fs, op);
    var e := DbStep(fs.db, op);
    var made := fs.(db := e.db);
    if e.result.Entry? {
      OpenRefined(mount, made, e.result.ino);
    }
  }

  lemma OpenFileRefined(mount: Mount, fs: Fs, ino: Ino)
    requires Inv(mount, fs)
    ensures Matches(mount, Open(fs, ino), AbsOpenFile(Abstract(fs), ino))
  {
    OpenRefined(mount, fs, ino);
  }

  lemma NameStepRefined(mount: Mount, fs: Fs, op: Op)
    requires Inv(mount, fs) && Orderly(fs.db.tables.inodes, op)
    ensures Matches(mount, OnDb(fs, op), AbsNames(Abstract(fs), op))
  {
    NamesRefined(mount, fs, op);
  }

  /** A change of the link's status is invisible. */
  lemma LinkRefined(mount: Mount, fs: Fs, connected: bool, up: bool, down: bool)
    requires Inv(mount, fs)
    ensures Matches(mount, SetStatus(fs, connected, up, down), AbsOutcome(Abstract(fs), Ok))
  {
  }

  /** Every allowed step keeps the invariant and does and replies what the abstract filesystem would. */
  lemma StepRefines(mount: Mount, fs: Fs, op: Op)
    requires Inv(mount, fs) && Allowed(fs, op)
    ensures Matches(mount, Step(mount, fs, op), AbsStep(Abstract(fs), op))
  {
    match op
    case CreateOp(parent, name, f) => CreateRefined(mount, fs, parent, name, f);
    case OpenOp(ino) => OpenFileRefined(mount, fs, ino);
    case ReadOp(ino, fh, offset, size) => ReadRefined(mount, fs, ino, fh, offset, size);
    case WriteOp(ino, fh, offset, data, fails) => WriteRefined(mount, fs, ino, fh, offset, data, fails);
    case ReleaseOp(ino, fh, e) =>
      if OwnBytes(fs, fh) {
        FlushedRelease(mount, fs, ino, fh, e);
      } else {
        QuietRelease(mount, fs, ino, fh, e);
      }
    case LinkStatus(connected, up, down) => LinkRefined(mount, fs, connected, up, down);
    case _ => NameStepRefined(mount, fs, op);
  }

  ghost predicate AllowedRun(mount: Mount, fs: Fs, ops: seq<Op>)
    decreases |ops|
  {
    ops == [] || (Allowed(fs, ops[0]) && AllowedRun(mount, Step(mount, fs, ops[0]).fs, ops[1..]))
  }

  /** Over every allowed run, all replies and the final state are those of the abstract filesystem. */
  lemma {:induction false} RunRefines(mount: Mount, fs: Fs, ops: seq<Op>)
    requires Inv(mount, fs) && AllowedRun(mount, fs, ops)
    ensures var r := Run(mount, fs, ops);
            Inv(mount, r.fs) && AbsRun(Abstract(fs), ops) == AbsRunResult(Abstract(r.fs), r.replies)
    decreases |ops|
  {
    if ops != [] {
      StepRefines(mount, fs, ops[0]);
      RunRefines(mount, Step(mount, fs, ops[0]).fs, ops[1..]);
    }
  }

  /** A new mount with any transport whose message numbers lie below its next one, and any cache size. */
  lemma MountIsSound(mount: Mount, transport: Option<Transport>, cache: bool)
    requires IdsBelow(transport)
    ensures Inv(mount, Mounted(transport, cache))
    ensures Abstract(Mounted(transport, cache))
            == Abs(Space(map[ROOT := Node(0, "", Directory, None)], false), map[], map[], 1)
  {
    RootIsATree();
    var fs := Mounted(transport, cache);
    assert FilesOf(fs.db.tables.inodes, MessagesOf(fs)) == map[];
  }

  /** From the mount on, every allowed run is a run of the abstract filesystem that starts with the root alone. */
  lemma {:induction false} FilesystemRefines(mount: Mount, transport: Option<Transport>, cache: bool, ops: seq<Op>)
    requires IdsBelow(transport) && AllowedRun(mount, Mounted(transport, cache), ops)
    ensures var r := Run(mount, Mounted(transport, cache), ops);
            AbsRun(Abs(Space(map[ROOT := Node(0, "", Directory, None)], false), map[], map[], 1), ops)
            == AbsRunResult(Abstract(r.fs), r.replies)
  {
    MountIsSound(mount, transport, cache);
    RunRefines(mount, Mounted(transport, cache), ops);
  }

  // ----- The tree in every run -----

  /** A write, wherever its handle belongs, rewrites no row's place. */
  lemma WriteKeepsTree(fs: Fs, ino: Ino, fh: nat, offset: nat, data: Data, fails: bool)
    requires Tree(fs.db.tables.inodes)
    ensures var o := Write(fs, ino, fh, offset, data, fails);
            && Tree(o.fs.db.tables.inodes) && SpaceOf(o.fs.db) == SpaceOf(fs.db)
            && SameShape(fs.db.tables.inodes, o.fs.db.tables.inodes)
  {
    var rows := fs.db.tables.inodes;
    if fh in fs.handles.open && ino in rows && !fails {
      var size := |Overlay(fs.handles.open[fh].writeBuffer, offset, data)|;
      ResizeOutcome(fs.db, ino, size);
      ResizedKeepsTree(rows, Resize(fs.db, ino, size, false).tables.inodes, ino, size, rows[ino].manifest);
    }
  }

  lemma FlushKeepsRows(mount: Mount, fs: Fs, data: Data, e: FlushEvents)
    ensures var f := Flush(mount, fs, data, e);
            f.fs.db.tables.inodes == fs.db.tables.inodes && f.fs.db.saved == fs.db.saved
  {
  }

  lemma ReplaceKeepsTree(db: Db, ino: Ino, m: FileManifest, fails: bool)
    requires Tree(db.tables.inodes)
    ensures var d := Replace(db, ino, m, fails);
            && Tree(d.tables.inodes) && SpaceOf(d) == SpaceOf(db) && SameShape(db.tables.inodes, d.tables.inodes)
  {
    if ino in db.tables.inodes && !fails {
      ReplaceOutcome(db, ino, m);
      ResizedKeepsTree(db.tables.inodes, Replace(db, ino, m, false).tables.inodes, ino, m.totalSize, Some(m));
    }
  }

  /** So does a release, whether its flush succeeds or not. */
  lemma ReleaseKeepsTree(mount: Mount, fs: Fs, ino: Ino, fh: nat, e: FlushEvents)
    requires Tree(fs.db.tables.inodes)
    ensures var o := Release(mount, fs, ino, fh, e);
            && Tree(o.fs.db.tables.inodes) && SpaceOf(o.fs.db) == SpaceOf(fs.db)
            && SameShape(fs.db.tables.inodes, o.fs.db.tables.inodes)
  {
    if fh in fs.handles.open {
      var data := fs.handles.open[fh].writeBuffer;
      var f := Flush(mount, fs, data, e);
      FlushKeepsRows(mount, fs, data, e);
      if f.block.Some? {
        ReplaceKeepsTree(f.fs.db, ino, ManifestOf(ino, f.block.value, data), e.update);
      }
    }
  }

  lemma StepKeepsTree(mount: Mount, fs: Fs, op: Op)
    requires Tree(fs.db.tables.inodes) && Orderly(fs.db.tables.inodes, op)
    ensures var o := Step(mount, fs, op);
            Tree(o.fs.db.tables.inodes) && SpaceOf(o.fs.db) == SpaceStep(SpaceOf(fs.db), op).space
  {
    match op
    case WriteOp(ino, fh, offset, data, fails) =>
      WriteKeepsTree(fs, ino, fh, offset, data, fails);
      assert Step(mount, fs, op) == Write(fs, ino, fh, offset, data, fails);
    case ReleaseOp(ino, fh, e) =>
      ReleaseKeepsTree(mount, fs, ino, fh, e);
      assert Step(mount, fs, op) == Release(mount, fs, ino, fh, e);
    case _ =>
      OtherStepKeepsTree(mount, fs, op);
  }

  lemma OtherStepKeepsTree(mount: Mount, fs: Fs, op: Op)
    requires Tree(fs.db.tables.inodes) && Orderly(fs.db.tables.inodes, op) && !op.WriteOp? && !op.ReleaseOp?
    ensures var o := Step(mount, fs, op);
            Tree(o.fs.db.tables.inodes) && SpaceOf(o.fs.db) == SpaceStep(SpaceOf(fs.db), op).space
  {
    OtherStepsDb(mount, fs, op);
    DbStepRefines(fs.db, op);
  }

  lemma OtherStepsDb(mount: Mount, fs: Fs, op: Op)
    requires !op.WriteOp? && !op.ReleaseOp?
    ensures Step(mount, fs, op).fs.db == DbStep(fs.db, op).db
  {
  }

  ghost predicate OrderlyRun(mount: Mount, fs: Fs, ops: seq<Op>)
    decreases |ops|
  {
    ops == [] || (Orderly(fs.db.tables.inodes, ops[0]) && OrderlyRun(mount, Step(mount, fs, ops[0]).fs, ops[1..]))
  }

  ghost function SpaceRun(s: Space, ops: seq<Op>): Space
    decreases |ops|
  {
    if ops == [] then s else SpaceRun(SpaceStep(s, ops[0]).space, ops[1..])
  }

  /**
   Whatever happens to uploads, downloads and handles, orderly runs keep the rooted tree and
   act on it as the abstract namespace.
   */
  lemma {:induction false} TreeInEveryRun(mount: Mount, fs: Fs, ops: seq<Op>)
    requires Tree(fs.db.tables.inodes) && OrderlyRun(mount, fs, ops)
    ensures var db := Run(mount, fs, ops).fs.db;
            Tree(db.tables.inodes) && SpaceOf(db) == SpaceRun(SpaceOf(fs.db), ops)
    decreases |ops|
  {
    if ops != [] {
      StepKeepsTree(mount, fs, ops[0]);
      TreeInEveryRun(mount, Step(mount, fs, ops[0]).fs, ops[1..]);
    }
  }
}
