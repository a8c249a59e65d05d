/**
 What fetching and flushing leave in the block cache, and what can be read with the
 link down because of it.
 */
module CachedReads {
  import opened Wrappers
  import opened Content
  import opened Manifests
  import opened Stores
  import opened Namespace
  import opened BlockCaches
  import opened BlockCacheProofs
  import opened HandleTables
  import opened Transports
  import opened FileSystem
  import opened AbstractFs
  import opened DataRefinement
  import opened FsRefinement
  import opened DataBoundaries

  // ----- One block -----

  /** Whatever was fetched, from the cache or by a download, is in the cache afterwards. */
  lemma FetchLeavesCached(mount: Mount, transport: Option<Transport>, q: Queue, messageId: int, rid: Rid)
    ensures var f := Fetch(mount, transport, Some(q), messageId, rid);
            && f.cache.Some?
            && (f.data.Some? ==> CacheLookup(f.cache.value, rid, mount.encryptAtRest) == Success(f.data.value))
  {
    TouchFinds(q, rid, rid);
    if transport.Some? && Download(transport.value, messageId).Success? {
      PutIsFound(Touch(q, rid), rid, Download(transport.value, messageId).value, mount.cacheMax, mount.encryptAtRest);
    }
  }

  // ----- A read -----

  /** What the cache takes for the block of a pointer. */
  function Weight(mount: Mount, bp: BlockPointer): nat {
    StoredSize(bp.contentHash.content, mount.encryptAtRest)
  }

  function Weights(mount: Mount, bps: seq<BlockPointer>): nat {
    if bps == [] then 0 else Weights(mount, bps[..|bps| - 1]) + Weight(mount, bps[|bps| - 1])
  }

  ghost predicate DistinctBlocks(bps: seq<BlockPointer>) {
    forall i, j | 0 <= i < j < |bps| :: bps[i].rid != bps[j].rid
  }

  /** Different blocks that the cache can hold together; a single one it can always hold. */
  ghost predicate FitTogether(mount: Mount, bps: seq<BlockPointer>) {
    DistinctBlocks(bps) && (Weights(mount, bps) <= mount.cacheMax || |bps| == 1)
  }

  /** The newest slots of the queue are the blocks of these pointers, in order. */
  ghost predicate Newest(q: Queue, bps: seq<BlockPointer>) {
    |bps| <= |q| && forall k | 0 <= k < |bps| :: q[|q| - |bps| + k].rid == bps[k].rid
  }

  /** Slots that hold what their blocks contain take up the weight of the pointers. */
  lemma {:induction false} NewestWeigh(mount: Mount, q: Queue, bps: seq<BlockPointer>, blocks: Blocks)
    requires Newest(q, bps) && Faithful(q, Contents(blocks), mount.encryptAtRest) && PointersSound(bps, blocks)
    ensures Total(q[|q| - |bps|..]) == Weights(mount, bps)
  {
    if bps != [] {
      var front, bp, s := bps[..|bps| - 1], bps[|bps| - 1], q[|q| - 1];
      var rest := q[..|q| - 1];
      NewestWeigh(mount, rest, front, blocks);
      assert q[|q| - |bps|..] == rest[|rest| - |front|..] + [s];
      TotalOfParts(rest[|rest| - |front|..], [s]);
      assert q[|q| - |bps| + (|bps| - 1)].rid == bp.rid && PointerSound(bp, blocks);
      assert FileSize(s.file) == Weight(mount, bp);
    } else {
      assert q[|q|..] == [];
    }
  }

  lemma {:induction false} WithoutParts(a: Queue, b: Queue, rid: Rid)
    ensures Without(a + b, rid) == Without(a, rid) + Without(b, rid)
  {
    if a == [] {
      assert a + b == b;
    } else {
      assert (a + b)[1..] == a[1..] + b;
      WithoutParts(a[1..], b, rid);
    }
  }

  /** A slot put at the end, after its old one was cut out, comes after newest ones of other blocks. */
  lemma AppendNewest(q: Queue, bps: seq<BlockPointer>, bp: BlockPointer, file: DiskFile)
    requires Newest(q, bps) && DistinctBlocks(bps + [bp])
    ensures Newest(Without(q, bp.rid) + [Slot(bp.rid, file)], bps + [bp])
  {
    var n := |q| - |bps|;
    assert q == q[..n] + q[n..];
    WithoutParts(q[..n], q[n..], bp.rid);
    forall i | 0 <= i < |q[n..]|
      ensures q[n..][i].rid != bp.rid
    {
      assert q[n..][i].rid == bps[i].rid == (bps + [bp])[i].rid && (bps + [bp])[|bps|] == bp;
    }
    WithoutAbsent(q[n..], bp.rid);
    NewestLast(Without(q[..n], bp.rid), q[n..], bps, Slot(bp.rid, file), bp);
  }

  lemma NewestLast(a: Queue, b: Queue, bps: seq<BlockPointer>, s: Slot, bp: BlockPointer)
    requires |b| == |bps| && s.rid == bp.rid && forall k | 0 <= k < |b| :: b[k].rid == bps[k].rid
    ensures Newest(a + b + [s], bps + [bp])
  {
    var r, all := a + b + [s], bps + [bp];
    forall k | 0 <= k < |all|
      ensures r[|r| - |all| + k].rid == all[k].rid
    {
      assert r[|a| + k] == if k < |b| then b[k] else s;
    }
  }

  /** Eviction for a block that fits beside the newest ones leaves them. */
  lemma EvictLeavesNewest(q: Queue, bps: seq<BlockPointer>, needed: nat, maxSize: nat)
    requires Newest(q, bps) && (bps == [] || Total(q[|q| - |bps|..]) + needed <= maxSize)
    ensures Newest(Evict(q, needed, maxSize), bps)
  {
    EvictionIsShortest(q, needed, maxSize);
    var k := |q| - |Evict(q, needed, maxSize)|;
    assert k <= |q| - |bps|;
  }

  /** Putting a block that fits beside the newest ones makes it the newest after them. */
  lemma PutIsNewest(mount: Mount, q: Queue, bps: seq<BlockPointer>, bp: BlockPointer, blocks: Blocks)
    requires Faithful(q, Contents(blocks), mount.encryptAtRest) && PointersSound(bps, blocks)
    requires Newest(q, bps) && FitTogether(mount, bps + [bp])
    ensures var file := FileFor(bp.rid, bp.contentHash.content, mount.encryptAtRest);
            Newest(PutInto(q, bp.rid, file, mount.cacheMax), bps + [bp])
  {
    var file := FileFor(bp.rid, bp.contentHash.content, mount.encryptAtRest);
    assert (bps + [bp])[..|bps|] == bps;
    NewestWeigh(mount, q, bps, blocks);
    EvictLeavesNewest(q, bps, FileSize(file), mount.cacheMax);
    AppendNewest(Evict(q, FileSize(file), mount.cacheMax), bps, bp, file);
  }

  lemma FetchIsNewest(mount: Mount, fs: Fs, q: Queue, bps: seq<BlockPointer>, bp: BlockPointer)
    requires BlocksSound(fs.db.tables.blocks, MessagesOf(fs))
    requires PointersSound(bps, fs.db.tables.blocks) && PointerSound(bp, fs.db.tables.blocks)
    requires Faithful(q, Contents(fs.db.tables.blocks), mount.encryptAtRest)
    requires Newest(q, bps) && FitTogether(mount, bps + [bp])
    requires IsCached(Some(q), bp.rid) || Downloads(fs.transport)
    ensures var f := Fetch(mount, fs.transport, Some(q), bp.messageId, bp.rid);
            f.cache.Some? && Newest(f.cache.value, bps + [bp])
  {
    var blocks := fs.db.tables.blocks;
    assert Stored(blocks[bp.rid], MessagesOf(fs));
    FaithfulFind(q, Contents(blocks), mount.encryptAtRest, bp.rid);
    if Find(q, bp.rid).Some? {
      AppendNewest(q, bps, bp, Find(q, bp.rid).value);
    } else {
      PutIsNewest(mount, q, bps, bp, blocks);
    }
  }

  /** What is asked of several blocks holds of all but the last. */
  lemma FrontIsSound(mount: Mount, fs: Fs, bps: seq<BlockPointer>)
    requires bps != [] && PointersSound(bps, fs.db.tables.blocks) && Reachable(fs, bps) && FitTogether(mount, bps)
    ensures var front := bps[..|bps| - 1];
            && front + [bps[|bps| - 1]] == bps
            && PointersSound(front, fs.db.tables.blocks) && Reachable(fs, front) && FitTogether(mount, front)
    ensures PointerSound(bps[|bps| - 1], fs.db.tables.blocks)
    ensures IsCached(fs.cache, bps[|bps| - 1].rid) || Downloads(fs.transport)
  {
    var front := bps[..|bps| - 1];
    assert forall k | 0 <= k < |front| :: front[k] == bps[k];
    assert front == [] ==> Weights(mount, front) == 0;
  }

  lemma LastFetch(mount: Mount, transport: Option<Transport>, cache: Option<Queue>, bps: seq<BlockPointer>,
                  offset: nat, size: nat)
    requires bps != []
    ensures var front, bp := bps[..|bps| - 1], bps[|bps| - 1];
            var before := ReadBlocks(mount, transport, cache, front, offset, size);
            before.ok ==>
              ReadBlocks(mount, transport, cache, bps, offset, size).cache
              == Fetch(mount, transport, before.cache, bp.messageId, bp.rid).cache
  {
  }

  /** The state of the cache after reading all blocks but the last, which can be had still. */
  lemma BeforeLastFetch(mount: Mount, fs: Fs, front: seq<BlockPointer>, bp: BlockPointer, offset: nat, size: nat)
    requires BlocksSound(fs.db.tables.blocks, MessagesOf(fs)) && PointersSound(front, fs.db.tables.blocks)
    requires CacheSound(mount, fs.cache, fs.db.tables.blocks)
    requires Reachable(fs, front) && (IsCached(fs.cache, bp.rid) || Downloads(fs.transport))
    ensures var before := ReadBlocks(mount, fs.transport, fs.cache, front, offset, size);
            && before.ok && CacheSound(mount, before.cache, fs.db.tables.blocks)
            && (IsCached(before.cache, bp.rid) || Downloads(fs.transport))
  {
    ReadLoopAssembles(mount, fs, front, offset, size);
  }

  /** After a read came through, its blocks are the newest of the cache, if they fit it together. */
  lemma {:induction false} ReadIsNewest(mount: Mount, fs: Fs, bps: seq<BlockPointer>, offset: nat, size: nat)
    requires BlocksSound(fs.db.tables.blocks, MessagesOf(fs)) && PointersSound(bps, fs.db.tables.blocks)
    requires CacheSound(mount, fs.cache, fs.db.tables.blocks) && fs.cache.Some?
    requires Reachable(fs, bps) && FitTogether(mount, bps)
    ensures var r := ReadBlocks(mount, fs.transport, fs.cache, bps, offset, size);
            r.cache.Some? && Newest(r.cache.value, bps)
    decreases |bps|
  {
    if bps != [] {
      var front, bp := bps[..|bps| - 1], bps[|bps| - 1];
      FrontIsSound(mount, fs, bps);
      var before := ReadBlocks(mount, fs.transport, fs.cache, front, offset, size);
      ReadIsNewest(mount, fs, front, offset, size);
      BeforeLastFetch(mount, fs, front, bp, offset, size);
      FetchIsNewest(mount, fs, before.cache.value, front, bp);
      LastFetch(mount, fs.transport, fs.cache, bps, offset, size);
    }
  }

  lemma NewestAreCached(q: Queue, bps: seq<BlockPointer>)
    requires Newest(q, bps)
    ensures AllCached(Some(q), bps)
  {
    forall k | 0 <= k < |bps|
      ensures IsCached(Some(q), bps[k].rid)
    {
      FindIsHeld(q, bps[k].rid);
      assert q[|q| - |bps| + k].rid == bps[k].rid;
    }
  }

  // ----- Over requests -----

  /** The state after reading a range once and then losing the link. */
  function ReadThenOffline(mount: Mount, fs: Fs, ino: Ino, fh: nat, offset: nat, size: nat): Fs {
    SetStatus(Read(mount, fs, ino, fh, offset, size).fs, false, false, false).fs
  }

  /**
   A range of a file that was read once is read the same again, through any handle without
   bytes of its own and with the link down, if the cache can hold its blocks together.
   */
  lemma SecondReadNeedsNoLink(mount: Mount, fs: Fs, ino: Ino, fh: nat, again: nat, offset: nat, size: nat)
    requires Inv(mount, fs) && fs.cache.Some? && ino in fs.db.tables.inodes && fs.db.tables.inodes[ino].IsFile()
    requires !OwnBytes(fs, fh) && !OwnBytes(fs, again)
    requires var needed := NeededBlocks(fs.db.tables.inodes[ino], offset, size);
             Reachable(fs, needed) && FitTogether(mount, needed)
    ensures Read(mount, ReadThenOffline(mount, fs, ino, fh, offset, size), ino, again, offset, size).reply
            == Read(mount, fs, ino, fh, offset, size).reply
  {
    var needed := NeededBlocks(fs.db.tables.inodes[ino], offset, size);
    NeededAreSound(mount, fs, ino, offset, size);
    ReadIsNewest(mount, fs, needed, offset, size);
    ReadLoopAssembles(mount, fs, needed, offset, size);
    var fs' := ReadThenOffline(mount, fs, ino, fh, offset, size);
    NewestAreCached(fs'.cache.value, needed);
    assert MessagesOf(fs') == MessagesOf(fs);
    ReadLoopAssembles(mount, fs', needed, offset, size);
  }

  lemma NeededAreSound(mount: Mount, fs: Fs, ino: Ino, offset: nat, size: nat)
    requires Inv(mount, fs) && ino in fs.db.tables.inodes && fs.db.tables.inodes[ino].IsFile()
    ensures PointersSound(NeededBlocks(fs.db.tables.inodes[ino], offset, size), fs.db.tables.blocks)
  {
    var m := fs.db.tables.inodes[ino].manifest.value;
    var i, j := BlocksInRangeIsExact(m, offset, size);
  }

  // ----- After a flush -----

  /** A flush leaves its block in the cache if it uploaded it, or found it there. */
  lemma FlushLeavesCached(mount: Mount, fs: Fs, data: Data, e: FlushEvents)
    requires StoreSound(mount, fs) && fs.cache.Some? && CanFlush(fs, data, e)
    ensures var f, known := Flush(mount, fs, data, e), Known(fs.db.tables.blocks, data, e);
            && f.block.Some? && f.fs.cache.Some?
            && (if known.Some? then f.fs.cache == fs.cache && f.block == known
                else CacheLookup(f.fs.cache.value, f.block.value.rid, mount.encryptAtRest) == Success(data))
  {
    if Known(fs.db.tables.blocks, data, e).None? {
      PutIsFound(fs.cache.value, e.rid, data, mount.cacheMax, mount.encryptAtRest);
    }
  }

  /** The bytes of the handle are in the cache already, or come there because they have to be uploaded. */
  ghost predicate ComesCached(fs: Fs, data: Data, e: FlushEvents) {
    var known := Known(fs.db.tables.blocks, data, e);
    known.None? || IsCached(fs.cache, known.value.rid)
  }

  /** The state after a release that is followed by the loss of the link. */
  ghost function ReleaseThenOffline(mount: Mount, fs: Fs, ino: Ino, fh: nat, e: FlushEvents): Fs {
    SetStatus(Release(mount, fs, ino, fh, e).fs, false, false, false).fs
  }

  /** The row of the closed file, and what else a recorded release leaves. */
  lemma ReleasedRow(mount: Mount, fs: Fs, ino: Ino, fh: nat, e: FlushEvents) returns (block: BlockRecord)
    requires Inv(mount, fs) && OwnBytes(fs, fh) && fs.handles.open[fh].ino == ino && ino in fs.db.tables.inodes
    requires fs.db.tables.inodes[ino].IsFile() && Records(fs, fh, e)
    ensures var data, o := fs.handles.open[fh].writeBuffer, Release(mount, fs, ino, fh, e);
            var f, row := Flush(mount, fs, data, e), fs.db.tables.inodes[ino];
            && f.block == Some(block) && Inv(mount, o.fs) && o.fs.cache == f.fs.cache
            && o.fs.handles == CloseHandle(fs.handles, fh)
            && ino in o.fs.db.tables.inodes
            && o.fs.db.tables.inodes[ino] == row.(size := |data|, manifest := Some(ManifestOf(ino, block, data)))
            && ContentOf(o.fs.db.tables.inodes[ino], MessagesOf(o.fs)) == data
  {
    var data := fs.handles.open[fh].writeBuffer;
    var f := Flush(mount, fs, data, e);
    FlushSucceeds(mount, fs, data, e);
    block := f.block.value;
    FlushedRelease(mount, fs, ino, fh, e);
    ReleaseSteps(mount, fs, ino, fh, e);
    ReplaceOutcome(f.fs.db, ino, ManifestOf(ino, block, data));
    ReleasedContent(mount, fs, Release(mount, fs, ino, fh, e).fs, ino, fh);
  }

  lemma ReleasedContent(mount: Mount, fs: Fs, fs': Fs, ino: Ino, fh: nat)
    requires OwnBytes(fs, fh) && ino in fs.db.tables.inodes && fs.db.tables.inodes[ino].IsFile()
    requires Abstract(fs') == AbsRelease(Abstract(fs), ino, fh)
    ensures ino in fs'.db.tables.inodes
    ensures ContentOf(fs'.db.tables.inodes[ino], MessagesOf(fs')) == fs.handles.open[fh].writeBuffer
  {
    assert ino in Abstract(fs).files && Abstract(fs).buffers[fh].bytes == fs.handles.open[fh].writeBuffer;
    assert ino in Abstract(fs').files;
  }

  lemma OneBlockInRange(inode: Inode, ino: Ino, block: BlockRecord, data: Data, cache: Option<Queue>,
                        offset: nat, size: nat)
    requires inode.manifest == Some(ManifestOf(ino, block, data)) && size > 0
    ensures AllCached(cache, NeededBlocks(inode, offset, size)) <==> offset >= |data| || IsCached(cache, block.rid)
  {
    var bp := PointerTo(block, data);
    assert [bp][..|[bp]| - 1] == [] && BlocksInRange([], offset, size) == [];
    assert BlocksInRange([bp], offset, size) == if Overlaps(bp, offset, size) then [] + [bp] else [];
    assert Overlaps(bp, offset, size) <==> offset < |data|;
    assert inode.manifest.value.blocks == [bp];
    if offset < |data| {
      assert NeededBlocks(inode, offset, size) == [bp];
      assert AllCached(cache, [bp]) <==> IsCached(cache, [bp][0].rid);
    } else {
      assert NeededBlocks(inode, offset, size) == [];
    }
  }

  /** With the link down, a file of one block is read exactly as far as that block is cached. */
  lemma OfflineOneBlock(mount: Mount, fs: Fs, ino: Ino, fh: nat, block: BlockRecord, data: Data, offset: nat, size: nat)
    requires Inv(mount, fs) && !Downloads(fs.transport) && !OwnBytes(fs, fh)
    requires ino in fs.db.tables.inodes && fs.db.tables.inodes[ino].IsFile()
    requires var inode := fs.db.tables.inodes[ino];
             && inode.manifest == Some(ManifestOf(ino, block, data)) && inode.size == |data|
             && ContentOf(inode, MessagesOf(fs)) == data
    ensures Read(mount, fs, ino, fh, offset, size).reply == Bytes(Slice(data, offset, size))
            <==> size == 0 || offset >= |data| || IsCached(fs.cache, block.rid)
  {
    FileReadIsSliceIff(mount, fs, ino, fh, offset, size);
    if size > 0 {
      OneBlockInRange(fs.db.tables.inodes[ino], ino, block, data, fs.cache, offset, size);
    }
  }

  /**
   A file that was just closed can be read with the link down, except that its bytes were
   known to the database and not in the cache.
   */
  lemma ClosedFileReadsOffline(mount: Mount, fs: Fs, ino: Ino, fh: nat, e: FlushEvents, other: nat,
                               offset: nat, size: nat)
    requires Inv(mount, fs) && fs.cache.Some? && OwnBytes(fs, fh) && fs.handles.open[fh].ino == ino
    requires ino in fs.db.tables.inodes && fs.db.tables.inodes[ino].IsFile() && Records(fs, fh, e)
    requires other == fh || !OwnBytes(fs, other)
    ensures var data := fs.handles.open[fh].writeBuffer;
            Read(mount, ReleaseThenOffline(mount, fs, ino, fh, e), ino, other, offset, size).reply
            == Bytes(Slice(data, offset, size))
            <==> size == 0 || offset >= |data| || ComesCached(fs, data, e)
  {
    var data := fs.handles.open[fh].writeBuffer;
    var block := ReleasedRow(mount, fs, ino, fh, e);
    FlushLeavesCached(mount, fs, data, e);
    var fs1, fs2 := Release(mount, fs, ino, fh, e).fs, ReleaseThenOffline(mount, fs, ino, fh, e);
    LinkRefined(mount, fs1, false, false, false);
    assert MessagesOf(fs2) == MessagesOf(fs1);
    OfflineOneBlock(mount, fs2, ino, other, block, data, offset, size);
  }
}
