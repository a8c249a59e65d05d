/**
 The block cache of the filesystem is what a least-recently-used cache makes of the
 gets and puts that its requests come to, so that all laws of the cache hold of it.
 */
module CacheHistory {
  import opened Wrappers
  import opened Content
  import opened Manifests
  import opened BlockCaches
  import opened BlockCacheProofs
  import opened Transports
  import opened FileSystem
  import opened FsRefinement
  import opened RefCounts

  function After(mount: Mount, q: Queue, ops: seq<CacheOp>): Queue {
    if ops == [] then q
    else Apply(After(mount, q, ops[..|ops| - 1]), ops[|ops| - 1], mount.cacheMax, mount.encryptAtRest)
  }

  lemma {:induction false} AfterParts(mount: Mount, q: Queue, a: seq<CacheOp>, b: seq<CacheOp>)
    ensures After(mount, q, a + b) == After(mount, After(mount, q, a), b)
    decreases |b|
  {
    if b == [] {
      assert a + b == a;
    } else {
      assert (a + b)[..|a + b| - 1] == a + b[..|b| - 1];
      AfterParts(mount, q, a, b[..|b| - 1]);
    }
  }

  lemma {:induction false} FromEmpty(mount: Mount, ops: seq<CacheOp>)
    ensures After(mount, [], ops) == RunCache(ops, mount.cacheMax, mount.encryptAtRest)
  {
    if ops != [] {
      FromEmpty(mount, ops[..|ops| - 1]);
    }
  }

  // ----- What requests ask of the cache -----

  function Downloaded(transport: Option<Transport>, messageId: int): Option<Data> {
    match transport
    case None => None
    case Some(t) => match Download(t, messageId) case Failure(_) => None case Success(data) => Some(data)
  }

  predicate Hits(mount: Mount, q: Queue, rid: Rid) {
    CacheLookup(q, rid, mount.encryptAtRest).Success?
  }

  /** A block is asked for, and put when it was missing and could be downloaded. */
  function FetchOps(mount: Mount, transport: Option<Transport>, q: Queue, bp: BlockPointer): seq<CacheOp> {
    var data := Downloaded(transport, bp.messageId);
    if Hits(mount, q, bp.rid) || data.None? then [GetOp(bp.rid)] else [GetOp(bp.rid), PutOp(bp.rid, data.value)]
  }

  predicate Obtains(mount: Mount, transport: Option<Transport>, q: Queue, bp: BlockPointer) {
    Hits(mount, q, bp.rid) || Downloaded(transport, bp.messageId).Some?
  }

  /** One block after the other, until one cannot be had. */
  function ReadOps(mount: Mount, transport: Option<Transport>, q: Queue, bps: seq<BlockPointer>): seq<CacheOp>
    decreases |bps|, 0
  {
    if bps == [] then []
    else
      var front, bp := bps[..|bps| - 1], bps[|bps| - 1];
      var ops := ReadOps(mount, transport, q, front);
      if !AllObtained(mount, transport, q, front) then ops
      else ops + FetchOps(mount, transport, After(mount, q, ops), bp)
  }

  predicate AllObtained(mount: Mount, transport: Option<Transport>, q: Queue, bps: seq<BlockPointer>)
    decreases |bps|, 1
  {
    bps == [] ||
    (var front, bp := bps[..|bps| - 1], bps[|bps| - 1];
     && AllObtained(mount, transport, q, front)
     && Obtains(mount, transport, After(mount, q, ReadOps(mount, transport, q, front)), bp))
  }

  /** Reads of flushed bytes ask for the blocks in range; a release puts what it had to upload. */
  ghost function RequestOps(mount: Mount, fs: Fs, q: Queue, op: Op): seq<CacheOp> {
    match op
    case ReadOp(ino, fh, offset, size) =>
      var rows := fs.db.tables.inodes;
      if ino in rows && rows[ino].IsFile() && !OwnBytes(fs, fh) then
        ReadOps(mount, fs.transport, q, NeededBlocks(rows[ino], offset, size))
      else []
    case ReleaseOp(ino, fh, e) =>
      if ToFlush(fs, op) && CanFlush(fs, fs.handles.open[fh].writeBuffer, e)
         && Known(fs.db.tables.blocks, fs.handles.open[fh].writeBuffer, e).None?
      then [PutOp(e.rid, fs.handles.open[fh].writeBuffer)]
      else []
    case _ => []
  }

  ghost function RunOps(mount: Mount, fs: Fs, ops: seq<Op>): seq<CacheOp>
    requires fs.cache.Some?
    decreases |ops|
  {
    if ops == [] then []
    else
      CacheStays(mount, fs, ops[0]);
      RequestOps(mount, fs, fs.cache.value, ops[0]) + RunOps(mount, Step(mount, fs, ops[0]).fs, ops[1..])
  }

  // ----- The cache does what they ask -----

  lemma FetchIsOps(mount: Mount, transport: Option<Transport>, q: Queue, bp: BlockPointer)
    ensures var f := Fetch(mount, transport, Some(q), bp.messageId, bp.rid);
            && f.cache == Some(After(mount, q, FetchOps(mount, transport, q, bp)))
            && (f.data.Some? <==> Obtains(mount, transport, q, bp))
  {
    var get := [GetOp(bp.rid)];
    assert get[..0] == [];
    assert After(mount, q, get) == Touch(q, bp.rid);
    var data := Downloaded(transport, bp.messageId);
    if !Hits(mount, q, bp.rid) && data.Some? {
      var both := [GetOp(bp.rid), PutOp(bp.rid, data.value)];
      assert both[..1] == get;
    }
  }

  lemma {:induction false} ReadIsOps(mount: Mount, transport: Option<Transport>, q: Queue, bps: seq<BlockPointer>,
                                     offset: nat, size: nat)
    ensures var r := ReadBlocks(mount, transport, Some(q), bps, offset, size);
            && r.cache == Some(After(mount, q, ReadOps(mount, transport, q, bps)))
            && (r.ok <==> AllObtained(mount, transport, q, bps))
    decreases |bps|
  {
    if bps != [] {
      var front, bp := bps[..|bps| - 1], bps[|bps| - 1];
      ReadIsOps(mount, transport, q, front, offset, size);
      var ops := ReadOps(mount, transport, q, front);
      FetchIsOps(mount, transport, After(mount, q, ops), bp);
      AfterParts(mount, q, ops, FetchOps(mount, transport, After(mount, q, ops), bp));
    }
  }

  lemma ReleaseIsOps(mount: Mount, fs: Fs, op: Op)
    requires op.ReleaseOp? && fs.cache.Some?
    ensures Step(mount, fs, op).fs.cache
            == Some(After(mount, fs.cache.value, RequestOps(mount, fs, fs.cache.value, op)))
  {
    if ToFlush(fs, op) {
      var put := [PutOp(op.events.rid, fs.handles.open[op.fh].writeBuffer)];
      assert put[..0] == [];
      FlushSucceedsIff(mount, fs, fs.handles.open[op.fh].writeBuffer, op.events);
    }
  }

  lemma CacheStays(mount: Mount, fs: Fs, op: Op)
    requires fs.cache.Some?
    ensures Step(mount, fs, op).fs.cache
            == Some(After(mount, fs.cache.value, RequestOps(mount, fs, fs.cache.value, op)))
  {
    if op.ReleaseOp? {
      ReleaseIsOps(mount, fs, op);
    } else if op.ReadOp? {
      var rows := fs.db.tables.inodes;
      if op.ino in rows {
        var needed := NeededBlocks(rows[op.ino], op.offset, op.size);
        ReadIsOps(mount, fs.transport, fs.cache.value, needed, op.offset, op.size);
      }
    }
  }

  lemma {:induction false} RunIsOps(mount: Mount, fs: Fs, ops: seq<Op>)
    requires fs.cache.Some?
    ensures Run(mount, fs, ops).fs.cache == Some(After(mount, fs.cache.value, RunOps(mount, fs, ops)))
    decreases |ops|
  {
    if ops != [] {
      var o := Step(mount, fs, ops[0]);
      CacheStays(mount, fs, ops[0]);
      RunIsOps(mount, o.fs, ops[1..]);
      AfterParts(mount, fs.cache.value, RequestOps(mount, fs, fs.cache.value, ops[0]), RunOps(mount, o.fs, ops[1..]));
    }
  }

  /**
   After every run from the mount the cache is that of the history of gets and puts, which
   keeps it within its limit, in order of last use, and true to what was last put.
   */
  lemma CacheOfEveryRun(mount: Mount, transport: Option<Transport>, ops: seq<Op>)
    ensures var fs := Mounted(transport, true);
            var history, cache := RunOps(mount, fs, ops), Run(mount, fs, ops).fs.cache;
            && cache == Some(RunCache(history, mount.cacheMax, mount.encryptAtRest))
            && Fits(cache.value, mount.cacheMax) && DistinctRids(cache.value)
            && forall rid :: IsLastPut(history, cache.value, rid, mount.encryptAtRest)
  {
    var fs := Mounted(transport, true);
    var history := RunOps(mount, fs, ops);
    RunIsOps(mount, fs, ops);
    FromEmpty(mount, history);
    CacheStaysWithinLimit(history, mount.cacheMax, mount.encryptAtRest);
    QueueIsOrderOfLastUse(history, mount.cacheMax, mount.encryptAtRest);
    forall rid
      ensures IsLastPut(history, Run(mount, fs, ops).fs.cache.value, rid, mount.encryptAtRest)
    {
      HitsReturnTheLastPut(history, mount.cacheMax, mount.encryptAtRest, rid);
    }
  }

  ghost predicate IsLastPut(history: seq<CacheOp>, q: Queue, rid: Rid, encryptAtRest: bool) {
    var r := CacheLookup(q, rid, encryptAtRest);
    r == Failure(Miss(rid)) || (r.Success? && LastPut(history, rid) == Some(r.value))
  }
}
