/**
 Deduplication accounting over every run, whatever requests come and whatever fails:
 a reference count is the number of successful flushes given that row, less those whose
 increment was lost; and a content has one row unless a failed query made a second.
 */
module RefCounts {
  import opened Wrappers
  import opened Content
  import opened Manifests
  import opened Stores
  import opened Transports
  import opened FileSystem
  import opened NamespaceRefinement
  import opened FsRefinement
  import opened Unconditional

  predicate PointsTo(row: Inode, rid: Rid) {
    row.manifest.Some? && exists k | 0 <= k < |row.manifest.value.blocks| :: row.manifest.value.blocks[k].rid == rid
  }

  /** The inodes whose manifest uses this block. */
  ghost function Holders(rows: Inodes, rid: Rid): set<Ino> {
    set i | i in rows && PointsTo(rows[i], rid)
  }

  ghost predicate OneRowPerContent(blocks: Blocks) {
    forall r, s | r in blocks && s in blocks && blocks[r].contentHash == blocks[s].contentHash :: r == s
  }

  ghost predicate KeyedBlocks(blocks: Blocks) {
    forall r | r in blocks :: blocks[r].rid == r
  }

  /** Every successful flush under the block it was given, and the increments that failed. */
  datatype Ledger = Ledger(flushes: multiset<Rid>, lost: multiset<Rid>)

  ghost predicate HoldersFlushed(rows: Inodes, flushes: multiset<Rid>) {
    forall r {:trigger Holders(rows, r)} :: |Holders(rows, r)| <= flushes[r]
  }

  ghost predicate Accounted(rows: Inodes, blocks: Blocks, l: Ledger) {
    && KeyedBlocks(blocks)
    && (forall r | r in blocks :: blocks[r].refCount + l.lost[r] == l.flushes[r])
    && (forall r | r in l.flushes :: r in blocks)
    && l.lost <= l.flushes
    && HoldersFlushed(rows, l.flushes)
  }

  // ----- What one request enters -----

  /** The request closes a handle whose bytes are to be flushed. */
  ghost predicate ToFlush(fs: Fs, op: Op) {
    op.ReleaseOp? && OwnBytes(fs, op.fh) && fs.handles.open[op.fh].dirty && fs.transport.Some?
  }

  ghost function FlushedBlock(mount: Mount, fs: Fs, op: Op): Option<Rid> {
    if ToFlush(fs, op) then
      match Flush(mount, fs, fs.handles.open[op.fh].writeBuffer, op.events).block
      case None => None
      case Some(block) => Some(block.rid)
    else None
  }

  /** The flush refers to a known row, and the increment of its count fails. */
  ghost function LostIncrement(fs: Fs, op: Op): Option<Rid> {
    if ToFlush(fs, op) && op.events.increment then
      match Known(fs.db.tables.blocks, fs.handles.open[op.fh].writeBuffer, op.events)
      case None => None
      case Some(block) => Some(block.rid)
    else None
  }

  ghost function With(m: multiset<Rid>, r: Option<Rid>): multiset<Rid> {
    if r.Some? then m + multiset{r.value} else m
  }

  ghost function Entered(l: Ledger, mount: Mount, fs: Fs, op: Op): Ledger {
    Ledger(With(l.flushes, FlushedBlock(mount, fs, op)), With(l.lost, LostIncrement(fs, op)))
  }

  // ----- Holders -----

  lemma SubsetCount(a: set<Ino>, b: set<Ino>)
    requires a <= b
    ensures |a| <= |b|
  {
    assert b == a + (b - a);
  }

  /** Rows whose manifests are old ones or empty hold no block that was not held. */
  lemma CarriedHolders(rows: Inodes, rows': Inodes, r: Rid)
    requires Carries(rows, rows')
    ensures Holders(rows', r) <= Holders(rows, r) && |Holders(rows', r)| <= |Holders(rows, r)|
  {
    forall i | i in Holders(rows', r)
      ensures i in Holders(rows, r)
    {
    }
    SubsetCount(Holders(rows', r), Holders(rows, r));
  }

  /** A new one-block manifest makes its inode a holder of its block, and of no other. */
  lemma ReplacedHolders(rows: Inodes, rows': Inodes, ino: Ino, m: FileManifest, r: Rid)
    requires Resized(rows, rows', ino, m.totalSize, Some(m)) && |m.blocks| == 1
    ensures if r == m.blocks[0].rid then Holders(rows', r) == Holders(rows, r) + {ino}
            else Holders(rows', r) == Holders(rows, r) - {ino}
    ensures |Holders(rows', r)| <= |Holders(rows, r)| + if r == m.blocks[0].rid then 1 else 0
  {
    assert m.blocks[0].rid == r <==> PointsTo(rows'[ino], r);
    forall i | i in rows && i != ino
      ensures rows'[i] == rows[i]
    {
    }
    if r != m.blocks[0].rid {
      SubsetCount(Holders(rows', r), Holders(rows, r));
    }
  }

  lemma ResizedHolders(rows: Inodes, rows': Inodes, ino: Ino, size: nat, r: Rid)
    requires ino in rows && Resized(rows, rows', ino, size, rows[ino].manifest)
    ensures Holders(rows', r) == Holders(rows, r)
  {
    assert forall i | i in rows :: rows'[i].manifest == rows[i].manifest;
  }

  // ----- Block rows -----

  /** The block rows after a flush: a count more for the known row, or one new row, or none of both. */
  ghost predicate FlushedInto(blocks: Blocks, blocks': Blocks, known: Option<BlockRecord>, block: Option<BlockRecord>,
                              fails: bool)
  {
    if block.None? then blocks' == blocks && known.None?
    else if known.Some? then
      var row := known.value;
      && block == known && row.rid in blocks && blocks[row.rid] == row
      && blocks' == if fails then blocks else blocks[row.rid := row.(refCount := row.refCount + 1)]
    else
      block.value.rid !in blocks && block.value.refCount == 1 && blocks' == blocks[block.value.rid := block.value]
  }

  lemma FlushChangesBlocks(mount: Mount, fs: Fs, data: Data, e: FlushEvents)
    requires KeyedBlocks(fs.db.tables.blocks) && fs.transport.Some?
    ensures var f := Flush(mount, fs, data, e);
            FlushedInto(fs.db.tables.blocks, f.fs.db.tables.blocks, Known(fs.db.tables.blocks, data, e), f.block,
                        e.increment)
  {
  }

  lemma FlushIsEntered(rows: Inodes, blocks: Blocks, blocks': Blocks, known: Option<BlockRecord>,
                       block: Option<BlockRecord>, fails: bool, l: Ledger)
    requires Accounted(rows, blocks, l) && FlushedInto(blocks, blocks', known, block, fails)
    ensures var flushed := if block.Some? then Some(block.value.rid) else None;
            var lost := if known.Some? && fails then Some(known.value.rid) else None;
            Accounted(rows, blocks', Ledger(With(l.flushes, flushed), With(l.lost, lost)))
  {
    if block.Some? {
      if known.Some? {
        ReferenceIsEntered(rows, blocks, blocks', l, known.value, fails);
      } else {
        InsertIsEntered(rows, blocks, blocks', l, block.value);
      }
    }
  }

  lemma ReferenceIsEntered(rows: Inodes, blocks: Blocks, blocks': Blocks, l: Ledger, row: BlockRecord, fails: bool)
    requires Accounted(rows, blocks, l) && row.rid in blocks && blocks[row.rid] == row
    requires blocks' == if fails then blocks else blocks[row.rid := row.(refCount := row.refCount + 1)]
    ensures Accounted(rows, blocks',
                      Ledger(l.flushes + multiset{row.rid}, if fails then l.lost + multiset{row.rid} else l.lost))
  {
  }

  lemma InsertIsEntered(rows: Inodes, blocks: Blocks, blocks': Blocks, l: Ledger, row: BlockRecord)
    requires Accounted(rows, blocks, l) && row.rid !in blocks && row.refCount == 1
    requires blocks' == blocks[row.rid := row]
    ensures Accounted(rows, blocks', l.(flushes := l.flushes + multiset{row.rid}))
  {
  }

  // ----- One step -----

  lemma FlushKeepsInodes(mount: Mount, fs: Fs, data: Data, e: FlushEvents)
    ensures Flush(mount, fs, data, e).fs.db.tables.inodes == fs.db.tables.inodes
  {
  }

  /** The tables after a release, in terms of its flush. */
  ghost predicate ReleasedTables(mount: Mount, fs: Fs, op: Op, t': Tables)
    requires ToFlush(fs, op)
  {
    var f := Flush(mount, fs, fs.handles.open[op.fh].writeBuffer, op.events);
    var t := fs.db.tables;
    && t'.blocks == f.fs.db.tables.blocks
    && if f.block.None? || op.events.update || op.ino !in t.inodes then t'.inodes == t.inodes
       else
         var m := ManifestOf(op.ino, f.block.value, fs.handles.open[op.fh].writeBuffer);
         Resized(t.inodes, t'.inodes, op.ino, m.totalSize, Some(m))
  }

  lemma ReleaseTables(mount: Mount, fs: Fs, op: Op)
    requires SoundRows(fs.db.tables.inodes) && op.ReleaseOp?
    ensures if ToFlush(fs, op) then ReleasedTables(mount, fs, op, Step(mount, fs, op).fs.db.tables)
            else Step(mount, fs, op).fs.db.tables == fs.db.tables
  {
    if ToFlush(fs, op) {
      var data := fs.handles.open[op.fh].writeBuffer;
      var f := Flush(mount, fs, data, op.events);
      FlushKeepsInodes(mount, fs, data, op.events);
      if f.block.Some? && op.ino in fs.db.tables.inodes && !op.events.update {
        ReplaceOutcome(f.fs.db, op.ino, ManifestOf(op.ino, f.block.value, data));
      }
    }
  }

  /** The flushed file's new manifest, entered with one flush of its block. */
  lemma ResizedAccounts(rows: Inodes, rows': Inodes, blocks: Blocks, ino: Ino, m: FileManifest, before: Ledger,
                        l: Ledger)
    requires Resized(rows, rows', ino, m.totalSize, Some(m)) && |m.blocks| == 1
    requires HoldersFlushed(rows, before.flushes) && l.flushes == before.flushes + multiset{m.blocks[0].rid}
    requires Accounted(rows, blocks, l)
    ensures Accounted(rows', blocks, l)
  {
    forall r
      ensures |Holders(rows', r)| <= l.flushes[r]
    {
      ReplacedHolders(rows, rows', ino, m, r);
      assert |Holders(rows, r)| <= before.flushes[r];
    }
  }

  lemma ResizedIsSound(rows: Inodes, rows': Inodes, ino: Ino, size: nat, m: Option<FileManifest>)
    requires SoundRows(rows) && Resized(rows, rows', ino, size, m)
    ensures SoundRows(rows')
  {
  }

  /** The ledger after the flush of a release, with the rows that the release finds. */
  lemma ReleaseFlushes(mount: Mount, fs: Fs, op: Op, l: Ledger)
    requires Accounted(fs.db.tables.inodes, fs.db.tables.blocks, l) && ToFlush(fs, op)
    ensures var f := Flush(mount, fs, fs.handles.open[op.fh].writeBuffer, op.events);
            Accounted(fs.db.tables.inodes, f.fs.db.tables.blocks, Entered(l, mount, fs, op))
  {
    var data, t := fs.handles.open[op.fh].writeBuffer, fs.db.tables;
    var f := Flush(mount, fs, data, op.events);
    FlushChangesBlocks(mount, fs, data, op.events);
    FlushIsEntered(t.inodes, t.blocks, f.fs.db.tables.blocks, Known(t.blocks, data, op.events), f.block,
                   op.events.increment, l);
  }

  lemma ReleasedAccounts(mount: Mount, fs: Fs, op: Op, t': Tables, l: Ledger)
    requires SoundRows(fs.db.tables.inodes) && Accounted(fs.db.tables.inodes, fs.db.tables.blocks, l)
    requires ToFlush(fs, op) && ReleasedTables(mount, fs, op, t')
    ensures Accounted(t'.inodes, t'.blocks, Entered(l, mount, fs, op)) && SoundRows(t'.inodes)
  {
    ReleaseFlushes(mount, fs, op, l);
    var data, rows := fs.handles.open[op.fh].writeBuffer, fs.db.tables.inodes;
    var f := Flush(mount, fs, data, op.events);
    if f.block.Some? && !op.events.update && op.ino in rows {
      var m := ManifestOf(op.ino, f.block.value, data);
      ResizedAccounts(rows, t'.inodes, t'.blocks, op.ino, m, l, Entered(l, mount, fs, op));
      ResizedIsSound(rows, t'.inodes, op.ino, m.totalSize, Some(m));
    }
  }

  lemma ReleaseAccounts(mount: Mount, fs: Fs, op: Op, l: Ledger)
    requires SoundRows(fs.db.tables.inodes) && Accounted(fs.db.tables.inodes, fs.db.tables.blocks, l) && op.ReleaseOp?
    ensures var t := Step(mount, fs, op).fs.db.tables;
            Accounted(t.inodes, t.blocks, Entered(l, mount, fs, op)) && SoundRows(t.inodes)
  {
    ReleaseTables(mount, fs, op);
    if ToFlush(fs, op) {
      ReleasedAccounts(mount, fs, op, Step(mount, fs, op).fs.db.tables, l);
    }
  }

  lemma WriteAccounts(mount: Mount, fs: Fs, op: Op, l: Ledger)
    requires SoundRows(fs.db.tables.inodes) && Accounted(fs.db.tables.inodes, fs.db.tables.blocks, l) && op.WriteOp?
    ensures var t := Step(mount, fs, op).fs.db.tables;
            Accounted(t.inodes, t.blocks, l) && SoundRows(t.inodes)
  {
    var rows := fs.db.tables.inodes;
    if op.fh in fs.handles.open && op.ino in rows && !op.fails {
      var size := |Overlay(fs.handles.open[op.fh].writeBuffer, op.offset, op.data)|;
      ResizeOutcome(fs.db, op.ino, size);
      var rows' := Resize(fs.db, op.ino, size, false).tables.inodes;
      forall r
        ensures Holders(rows', r) == Holders(rows, r)
      {
        ResizedHolders(rows, rows', op.ino, size, r);
      }
      ResizedIsSound(rows, rows', op.ino, size, rows[op.ino].manifest);
    }
  }

  lemma NamesAccount(db: Db, op: Op, l: Ledger)
    requires SoundRows(db.tables.inodes) && Accounted(db.tables.inodes, db.tables.blocks, l)
    ensures var t := DbStep(db, op).db.tables;
            Accounted(t.inodes, t.blocks, l) && SoundRows(t.inodes)
  {
    DbStepKeepsBytes(db, op);
    var rows, rows' := db.tables.inodes, DbStep(db, op).db.tables.inodes;
    forall r
      ensures |Holders(rows', r)| <= l.flushes[r]
    {
      CarriedHolders(rows, rows', r);
    }
  }

  /** One request, any request, in any state with sound keys, enters what it flushed and what it lost. */
  lemma StepAccounts(mount: Mount, fs: Fs, op: Op, l: Ledger)
    requires SoundRows(fs.db.tables.inodes) && Accounted(fs.db.tables.inodes, fs.db.tables.blocks, l)
    ensures var t := Step(mount, fs, op).fs.db.tables;
            Accounted(t.inodes, t.blocks, Entered(l, mount, fs, op)) && SoundRows(t.inodes)
  {
    if op.WriteOp? {
      WriteAccounts(mount, fs, op, l);
    } else if op.ReleaseOp? {
      ReleaseAccounts(mount, fs, op, l);
    } else {
      OtherStepsDb(mount, fs, op);
      NamesAccount(fs.db, op, l);
    }
  }

  // ----- Two rows for one content -----

  /** The query fails although the content is known, and the upload and the insert succeed. */
  ghost predicate Duplicates(fs: Fs, op: Op) {
    ToFlush(fs, op) && op.events.find
    && (var data := fs.handles.open[op.fh].writeBuffer;
        (exists r :: HasHash(fs.db.tables.blocks, r, Blake3(data)))
        && CanUpload(fs.transport.value) && op.events.rid !in fs.db.tables.blocks && !op.events.insert)
  }

  lemma FlushDuplicatesIff(mount: Mount, fs: Fs, data: Data, e: FlushEvents)
    requires KeyedBlocks(fs.db.tables.blocks)
    ensures OneRowPerContent(Flush(mount, fs, data, e).fs.db.tables.blocks) <==>
            && OneRowPerContent(fs.db.tables.blocks)
            && !(fs.transport.Some? && e.find && (exists r :: HasHash(fs.db.tables.blocks, r, Blake3(data)))
                 && CanUpload(fs.transport.value) && e.rid !in fs.db.tables.blocks && !e.insert)
  {
    var blocks, blocks' := fs.db.tables.blocks, Flush(mount, fs, data, e).fs.db.tables.blocks;
    var known := Known(blocks, data, e);
    if fs.transport.Some? && known.Some? {
      SameHashes(blocks, blocks');
    } else if fs.transport.Some? && CanUpload(fs.transport.value) && e.rid !in blocks && !e.insert {
      assert !e.find ==> !exists r :: HasHash(blocks, r, Blake3(data));
      NewRowIff(blocks, blocks', NewBlock(mount, fs.transport.value, data, e.rid));
    } else {
      assert blocks' == blocks;
    }
  }

  lemma SameHashes(blocks: Blocks, blocks': Blocks)
    requires blocks'.Keys == blocks.Keys && forall r | r in blocks :: blocks'[r].contentHash == blocks[r].contentHash
    ensures OneRowPerContent(blocks') <==> OneRowPerContent(blocks)
  {
  }

  lemma NewRowIff(blocks: Blocks, blocks': Blocks, row: BlockRecord)
    requires row.rid !in blocks && blocks' == blocks[row.rid := row]
    ensures OneRowPerContent(blocks') <==>
            OneRowPerContent(blocks) && !exists r :: HasHash(blocks, r, row.contentHash)
  {
    if r :| HasHash(blocks, r, row.contentHash) {
      assert blocks'[r].contentHash == blocks'[row.rid].contentHash;
    } else {
      assert forall r | r in blocks :: !HasHash(blocks, r, row.contentHash);
    }
    if OneRowPerContent(blocks') {
      assert forall r | r in blocks :: blocks'[r] == blocks[r];
    }
  }

  lemma OtherStepsKeepBlocks(mount: Mount, fs: Fs, op: Op)
    requires SoundRows(fs.db.tables.inodes) && !op.ReleaseOp?
    ensures Step(mount, fs, op).fs.db.tables.blocks == fs.db.tables.blocks
  {
    if !op.WriteOp? {
      OtherStepsDb(mount, fs, op);
      DbStepKeepsBytes(fs.db, op);
    }
  }

  lemma ReleaseBlocks(mount: Mount, fs: Fs, op: Op)
    requires op.ReleaseOp?
    ensures Step(mount, fs, op).fs.db.tables.blocks ==
            if ToFlush(fs, op) then Flush(mount, fs, fs.handles.open[op.fh].writeBuffer, op.events).fs.db.tables.blocks
            else fs.db.tables.blocks
  {
  }

  /** A request leaves one row for each content if and only if it found it so and does not duplicate. */
  lemma StepDuplicatesIff(mount: Mount, fs: Fs, op: Op)
    requires SoundRows(fs.db.tables.inodes) && KeyedBlocks(fs.db.tables.blocks)
    ensures OneRowPerContent(Step(mount, fs, op).fs.db.tables.blocks) <==>
            OneRowPerContent(fs.db.tables.blocks) && !Duplicates(fs, op)
  {
    if op.ReleaseOp? {
      ReleaseBlocks(mount, fs, op);
      if ToFlush(fs, op) {
        FlushDuplicatesIff(mount, fs, fs.handles.open[op.fh].writeBuffer, op.events);
      }
    } else {
      OtherStepsKeepBlocks(mount, fs, op);
    }
  }

  // ----- A count below its users -----

  ghost predicate NoUndercount(t: Tables) {
    forall r | r in t.blocks :: |Holders(t.inodes, r)| <= t.blocks[r].refCount
  }

  ghost predicate HoldersKnown(t: Tables) {
    forall r {:trigger Holders(t.inodes, r)} :: r !in t.blocks ==> Holders(t.inodes, r) == {}
  }

  /** The file becomes a new user of a known row whose count is just enough, and the increment is lost. */
  ghost predicate Undercounts(fs: Fs, op: Op) {
    LostIncrement(fs, op).Some? && !op.events.update && op.ino in fs.db.tables.inodes
    && (var rid := LostIncrement(fs, op).value;
        && rid in fs.db.tables.blocks && !PointsTo(fs.db.tables.inodes[op.ino], rid)
        && |Holders(fs.db.tables.inodes, rid)| == fs.db.tables.blocks[rid].refCount)
  }

  lemma NamesNeverUndercount(db: Db, op: Op)
    requires SoundRows(db.tables.inodes) && NoUndercount(db.tables)
    ensures NoUndercount(DbStep(db, op).db.tables)
  {
    DbStepKeepsBytes(db, op);
    var t, t' := db.tables, DbStep(db, op).db.tables;
    forall r | r in t'.blocks
      ensures |Holders(t'.inodes, r)| <= t'.blocks[r].refCount
    {
      CarriedHolders(t.inodes, t'.inodes, r);
    }
  }

  lemma WriteNeverUndercounts(mount: Mount, fs: Fs, op: Op)
    requires SoundRows(fs.db.tables.inodes) && NoUndercount(fs.db.tables) && op.WriteOp?
    ensures NoUndercount(Step(mount, fs, op).fs.db.tables)
  {
    var rows := fs.db.tables.inodes;
    if op.fh in fs.handles.open && op.ino in rows && !op.fails {
      var size := |Overlay(fs.handles.open[op.fh].writeBuffer, op.offset, op.data)|;
      ResizeOutcome(fs.db, op.ino, size);
      var rows' := Resize(fs.db, op.ino, size, false).tables.inodes;
      forall r
        ensures Holders(rows', r) == Holders(rows, r)
      {
        ResizedHolders(rows, rows', op.ino, size, r);
      }
    }
  }

  /** Counts and users after a flush whose manifest is stored, or not. */
  lemma ReplaceUndercountsIff(t: Tables, t': Tables, ino: Ino, m: FileManifest, rid: Rid, counted: int)
    requires NoUndercount(t) && HoldersKnown(t) && |m.blocks| == 1 && m.blocks[0].rid == rid && rid in t'.blocks
    requires Resized(t.inodes, t'.inodes, ino, m.totalSize, Some(m))
    requires t'.blocks.Keys == t.blocks.Keys + {rid} && t'.blocks[rid].refCount == counted
    requires forall r | r in t.blocks && r != rid :: t'.blocks[r].refCount == t.blocks[r].refCount
    ensures NoUndercount(t') <==>
            |Holders(t.inodes, rid)| + (if PointsTo(t.inodes[ino], rid) then 0 else 1) <= counted
  {
    UsersAfter(t.inodes, t'.inodes, ino, m, rid);
    forall r | r in t.blocks && r != rid
      ensures |Holders(t'.inodes, r)| <= t'.blocks[r].refCount
    {
      ReplacedHolders(t.inodes, t'.inodes, ino, m, r);
    }
  }

  lemma UsersAfter(rows: Inodes, rows': Inodes, ino: Ino, m: FileManifest, rid: Rid)
    requires Resized(rows, rows', ino, m.totalSize, Some(m)) && |m.blocks| == 1 && m.blocks[0].rid == rid
    ensures |Holders(rows', rid)| == |Holders(rows, rid)| + if PointsTo(rows[ino], rid) then 0 else 1
  {
    ReplacedHolders(rows, rows', ino, m, rid);
    assert ino in Holders(rows, rid) <==> PointsTo(rows[ino], rid);
    if PointsTo(rows[ino], rid) {
      assert Holders(rows, rid) + {ino} == Holders(rows, rid);
    }
  }

  lemma AccountedMeansKnown(t: Tables, l: Ledger)
    requires Accounted(t.inodes, t.blocks, l)
    ensures HoldersKnown(t)
  {
    forall r | r !in t.blocks
      ensures Holders(t.inodes, r) == {}
    {
      assert r !in l.flushes && |Holders(t.inodes, r)| <= l.flushes[r];
    }
  }

  lemma CountsAfterFlush(mount: Mount, fs: Fs, data: Data, e: FlushEvents)
    requires KeyedBlocks(fs.db.tables.blocks) && fs.transport.Some?
    ensures var blocks, f, known := fs.db.tables.blocks, Flush(mount, fs, data, e), Known(fs.db.tables.blocks, data, e);
            var blocks' := f.fs.db.tables.blocks;
            if f.block.None? then blocks' == blocks
            else
              var rid := f.block.value.rid;
              && rid in blocks' && blocks'.Keys == blocks.Keys + {rid}
              && (forall r | r in blocks && r != rid :: blocks'[r].refCount == blocks[r].refCount)
              && if known.Some? then
                   && rid == known.value.rid && rid in blocks
                   && blocks'[rid].refCount == blocks[rid].refCount + if e.increment then 0 else 1
                 else rid !in blocks && blocks'[rid].refCount == 1
  {
  }

  lemma ReleaseUndercountsIff(mount: Mount, fs: Fs, op: Op)
    requires SoundRows(fs.db.tables.inodes) && KeyedBlocks(fs.db.tables.blocks) && ToFlush(fs, op)
    requires NoUndercount(fs.db.tables) && HoldersKnown(fs.db.tables)
    ensures NoUndercount(Step(mount, fs, op).fs.db.tables) <==> !Undercounts(fs, op)
  {
    var data, e := fs.handles.open[op.fh].writeBuffer, op.events;
    var t, t' := fs.db.tables, Step(mount, fs, op).fs.db.tables;
    var f := Flush(mount, fs, data, e);
    ReleaseTables(mount, fs, op);
    CountsAfterFlush(mount, fs, data, e);
    if f.block.Some? && !e.update && op.ino in t.inodes {
      var rid := f.block.value.rid;
      ReplaceUndercountsIff(t, t', op.ino, ManifestOf(op.ino, f.block.value, data), rid, t'.blocks[rid].refCount);
    } else {
      assert t'.inodes == t.inodes;
      assert forall r | r in t'.blocks :: r in t.blocks || Holders(t.inodes, r) == {};
    }
  }

  /** From counts that are high enough, a request leaves them so if and only if it does not lose one that was needed. */
  lemma StepUndercountsIff(mount: Mount, fs: Fs, op: Op, l: Ledger)
    requires SoundRows(fs.db.tables.inodes) && Accounted(fs.db.tables.inodes, fs.db.tables.blocks, l)
    requires NoUndercount(fs.db.tables)
    ensures NoUndercount(Step(mount, fs, op).fs.db.tables) <==> !Undercounts(fs, op)
  {
    if op.ReleaseOp? {
      if ToFlush(fs, op) {
        AccountedMeansKnown(fs.db.tables, l);
        ReleaseUndercountsIff(mount, fs, op);
      } else {
        ReleaseTables(mount, fs, op);
      }
    } else if op.WriteOp? {
      WriteNeverUndercounts(mount, fs, op);
    } else {
      OtherStepsDb(mount, fs, op);
      NamesNeverUndercount(fs.db, op);
    }
  }

  // ----- Runs -----

  /** All successful flushes of a run, and all lost increments. */
  ghost function Ledgers(mount: Mount, fs: Fs, ops: seq<Op>): Ledger
    decreases |ops|
  {
    if ops == [] then Ledger(multiset{}, multiset{})
    else
      var rest := Ledgers(mount, Step(mount, fs, ops[0]).fs, ops[1..]);
      Ledger(With(rest.flushes, FlushedBlock(mount, fs, ops[0])), With(rest.lost, LostIncrement(fs, ops[0])))
  }

  ghost function Join(a: Ledger, b: Ledger): Ledger {
    Ledger(a.flushes + b.flushes, a.lost + b.lost)
  }

  lemma {:induction false} RunAccounts(mount: Mount, fs: Fs, ops: seq<Op>, l: Ledger)
    requires SoundRows(fs.db.tables.inodes) && Accounted(fs.db.tables.inodes, fs.db.tables.blocks, l)
    ensures var t := Run(mount, fs, ops).fs.db.tables;
            Accounted(t.inodes, t.blocks, Join(l, Ledgers(mount, fs, ops))) && SoundRows(t.inodes)
    decreases |ops|
  {
    if ops == [] {
      assert Join(l, Ledgers(mount, fs, ops)) == l;
    } else {
      var fs', entered := Step(mount, fs, ops[0]).fs, Entered(l, mount, fs, ops[0]);
      StepAccounts(mount, fs, ops[0], l);
      RunAccounts(mount, fs', ops[1..], entered);
      EnterFirst(l, Ledgers(mount, fs', ops[1..]), FlushedBlock(mount, fs, ops[0]), LostIncrement(fs, ops[0]));
    }
  }

  lemma EnterFirst(l: Ledger, rest: Ledger, flushed: Option<Rid>, lost: Option<Rid>)
    ensures Join(Ledger(With(l.flushes, flushed), With(l.lost, lost)), rest)
            == Join(l, Ledger(With(rest.flushes, flushed), With(rest.lost, lost)))
  {
  }

  ghost predicate NeverDuplicates(mount: Mount, fs: Fs, ops: seq<Op>)
    decreases |ops|
  {
    ops == [] || (!Duplicates(fs, ops[0]) && NeverDuplicates(mount, Step(mount, fs, ops[0]).fs, ops[1..]))
  }

  /** Once there are two rows for one content, there always are. */
  lemma {:induction false} RunDuplicatesIff(mount: Mount, fs: Fs, ops: seq<Op>, l: Ledger)
    requires SoundRows(fs.db.tables.inodes) && Accounted(fs.db.tables.inodes, fs.db.tables.blocks, l)
    ensures OneRowPerContent(Run(mount, fs, ops).fs.db.tables.blocks) <==>
            OneRowPerContent(fs.db.tables.blocks) && NeverDuplicates(mount, fs, ops)
    decreases |ops|
  {
    if ops != [] {
      StepAccounts(mount, fs, ops[0], l);
      StepDuplicatesIff(mount, fs, ops[0]);
      RunDuplicatesIff(mount, Step(mount, fs, ops[0]).fs, ops[1..], Entered(l, mount, fs, ops[0]));
    }
  }

  // ----- The sum -----

  ghost function Pick(s: set<Rid>): Rid
    requires s != {}
  {
    var r :| r in s;
    r
  }

  ghost function SumRefs(blocks: Blocks, s: set<Rid>): int
    requires s <= blocks.Keys
  {
    if s == {} then 0 else blocks[Pick(s)].refCount + SumRefs(blocks, s - {Pick(s)})
  }

  lemma SplitOff(m: multiset<Rid>, r: Rid)
    ensures |m[r := 0]| + m[r] == |m|
  {
    var these := multiset{}[r := m[r]];
    assert m == m[r := 0] + these;
    assert |these| == m[r];
  }

  lemma {:induction false} SumIsSize(blocks: Blocks, s: set<Rid>, l: Ledger)
    requires s <= blocks.Keys && forall r | r in s :: blocks[r].refCount + l.lost[r] == l.flushes[r]
    requires (forall r | r in l.flushes :: r in s) && (forall r | r in l.lost :: r in s)
    ensures SumRefs(blocks, s) + |l.lost| == |l.flushes|
  {
    if s == {} {
      assert l.flushes == multiset{} && l.lost == multiset{};
    } else {
      var r := Pick(s);
      SumIsSize(blocks, s - {r}, Ledger(l.flushes[r := 0], l.lost[r := 0]));
      SplitOff(l.flushes, r);
      SplitOff(l.lost, r);
    }
  }

  lemma MountedAccounts(transport: Option<Transport>, cache: bool)
    ensures var t := Mounted(transport, cache).db.tables;
            && SoundRows(t.inodes) && OneRowPerContent(t.blocks)
            && Accounted(t.inodes, t.blocks, Ledger(multiset{}, multiset{}))
  {
    RootIsATree();
    var rows := Mounted(transport, cache).db.tables.inodes;
    forall r
      ensures Holders(rows, r) == {}
    {
    }
  }

  /**
   In every run from the mount on, whatever is asked and whatever fails: each reference
   count and the lost increments of its row make up the successful flushes given that
   row, which are no fewer than the inodes pointing to it, and so do their sums; and
   each content has one row if and only if no request of the run duplicated one.
   */
  lemma CountsInEveryRun(mount: Mount, transport: Option<Transport>, cache: bool, ops: seq<Op>)
    ensures var fs := Mounted(transport, cache);
            var t, l := Run(mount, fs, ops).fs.db.tables, Ledgers(mount, fs, ops);
            && (forall r | r in t.blocks ::
                  t.blocks[r].refCount + l.lost[r] == l.flushes[r] && |Holders(t.inodes, r)| <= l.flushes[r])
            && SumRefs(t.blocks, t.blocks.Keys) + |l.lost| == |l.flushes|
            && (OneRowPerContent(t.blocks) <==> NeverDuplicates(mount, fs, ops))
  {
    var fs, none := Mounted(transport, cache), Ledger(multiset{}, multiset{});
    MountedAccounts(transport, cache);
    RunAccounts(mount, fs, ops, none);
    RunDuplicatesIff(mount, fs, ops, none);
    var t, l := Run(mount, fs, ops).fs.db.tables, Ledgers(mount, fs, ops);
    assert Join(none, l) == l;
    assert forall r | r in l.lost :: r in l.flushes;
    SumIsSize(t.blocks, t.blocks.Keys, l);
  }
}
