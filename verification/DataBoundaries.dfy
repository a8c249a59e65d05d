/**
 Where bytes go wrong: for the writes, releases and unlinks that the refinement
 excludes or that surprise, exactly when they do what they should.
 */
module DataBoundaries {
  import opened Content
  import opened Stores
  import opened Namespace
  import opened HandleTables
  import opened FileSystem
  import opened AbstractFs
  import opened DataRefinement
  import opened FsRefinement

  // ----- Empty writes -----

  /** An empty write at offset 0 through a handle that holds nothing, on a file with flushed bytes and none pending. */
  ghost predicate HidesFile(fs: Fs, ino: Ino, fh: nat, offset: nat, data: Data, fails: bool) {
    && !fails && fh in fs.handles.open && fs.handles.open[fh].writeBuffer == [] && offset + |data| == 0
    && ino in fs.db.tables.inodes && fs.db.tables.inodes[ino].IsFile() && !Pending(fs.handles, ino)
    && fs.db.tables.inodes[ino].manifest.Some? && fs.db.tables.inodes[ino].manifest.value.totalSize != 0
  }

  /** A write through a handle of the file keeps the invariant except in exactly this case. */
  lemma WriteIsSoundIff(mount: Mount, fs: Fs, ino: Ino, fh: nat, offset: nat, data: Data, fails: bool)
    requires Inv(mount, fs) && fh in fs.handles.open && fs.handles.open[fh].ino == ino
    ensures Inv(mount, Write(fs, ino, fh, offset, data, fails).fs) <==> !HidesFile(fs, ino, fh, offset, data, fails)
  {
    if fs.handles.open[fh].writeBuffer != [] || offset + |data| > 0 {
      WriteRefined(mount, fs, ino, fh, offset, data, fails);
    } else {
      EmptyWrite(mount, fs, ino, fh, fails);
    }
  }

  lemma EmptyWrite(mount: Mount, fs: Fs, ino: Ino, fh: nat, fails: bool)
    requires Inv(mount, fs) && fh in fs.handles.open && fs.handles.open[fh].ino == ino
             && fs.handles.open[fh].writeBuffer == []
    ensures Inv(mount, Write(fs, ino, fh, 0, [], fails).fs) <==> !HidesFile(fs, ino, fh, 0, [], fails)
  {
    var o := Write(fs, ino, fh, 0, [], fails);
    var rows, rows' := fs.db.tables.inodes, o.fs.db.tables.inodes;
    assert Overlay([], 0, []) == [];
    assert o.fs.handles.open == fs.handles.open[fh := fs.handles.open[fh].(dirty := true)];
    SamePending(fs.handles, o.fs.handles);
    if ino in rows && !fails {
      ResizeOutcome(fs.db, ino, 0);
      ResizedKeepsTree(rows, rows', ino, 0, rows[ino].manifest);
      ResizedKeepsFiles(rows, rows', ino, 0, fs.db.tables.blocks, MessagesOf(fs));
      EmptiedSizes(rows, rows', fs.handles, o.fs.handles, ino);
    }
  }

  lemma SamePending(handles: Handles, handles': Handles)
    requires handles'.open.Keys == handles.open.Keys
    requires forall k | k in handles.open ::
               && handles'.open[k].ino == handles.open[k].ino
               && handles'.open[k].writeBuffer == handles.open[k].writeBuffer
    ensures forall i :: Pending(handles', i) == Pending(handles, i)
  {
  }

  lemma EmptiedSizes(rows: Inodes, rows': Inodes, handles: Handles, handles': Handles, ino: Ino)
    requires ino in rows && Resized(rows, rows', ino, 0, rows[ino].manifest) && SizesSound(rows, handles)
    requires forall i :: Pending(handles', i) == Pending(handles, i)
    ensures SizesSound(rows', handles') <==>
            !(rows[ino].IsFile() && !Pending(handles, ino) && rows[ino].manifest.Some?
              && rows[ino].manifest.value.totalSize != 0)
  {
  }

  /** After it, the file reads as empty through any handle without bytes of its own, though its blocks are all there. */
  lemma HiddenFileReadsEmpty(mount: Mount, fs: Fs, ino: Ino, fh: nat, other: nat, offset: nat, size: nat)
    requires Inv(mount, fs) && HidesFile(fs, ino, fh, 0, [], false) && fs.handles.open[fh].ino == ino
    requires !OwnBytes(fs, other)
    ensures var fs' := Write(fs, ino, fh, 0, [], false).fs;
            && ContentOf(fs'.db.tables.inodes[ino], MessagesOf(fs'))
               == ContentOf(fs.db.tables.inodes[ino], MessagesOf(fs))
            && Read(mount, fs', ino, other, offset, size).reply == Bytes([])
  {
    var fs' := Write(fs, ino, fh, 0, [], false).fs;
    assert Overlay([], 0, []) == [];
    ResizeOutcome(fs.db, ino, 0);
    assert fs'.db.tables.inodes[ino].size == 0;
    var needed := NeededBlocks(fs'.db.tables.inodes[ino], offset, size);
    var r := ReadBlocks(mount, fs'.transport, fs'.cache, needed, offset, size);
    assert r.buf[..0] == [];
  }

  // ----- Flushes that fail, or are not recorded -----

  /** The flush of the handle's bytes succeeds and the new manifest is stored. */
  ghost predicate Records(fs: Fs, fh: nat, e: FlushEvents)
    requires fh in fs.handles.open
  {
    CanFlush(fs, fs.handles.open[fh].writeBuffer, e) && !e.update
  }

  /** A failed flush may leave an unused message behind, and nothing else. */
  lemma FailedFlush(mount: Mount, fs: Fs, data: Data, e: FlushEvents)
    requires StoreSound(mount, fs) && !CanFlush(fs, data, e)
    ensures var f := Flush(mount, fs, data, e);
            && f.fs.db == fs.db && f.fs.handles == fs.handles && f.fs.cache == fs.cache
            && StoreSound(mount, f.fs) && MessagesKept(MessagesOf(fs), MessagesOf(f.fs))
  {
    var blocks, f := fs.db.tables.blocks, Flush(mount, fs, data, e);
    FlushSucceedsIff(mount, fs, data, e);
    forall r | r in blocks
      ensures Stored(blocks[r], MessagesOf(f.fs))
    {
      assert Stored(blocks[r], MessagesOf(fs));
    }
  }

  /** The buffer is gone with its handle, and rows and files are as they were. */
  lemma LostRelease(mount: Mount, fs: Fs, ino: Ino, fh: nat, e: FlushEvents)
    requires Inv(mount, fs) && OwnBytes(fs, fh) && !Records(fs, fh, e)
    ensures var o := Release(mount, fs, ino, fh, e);
            && o.fs.db.tables.inodes == fs.db.tables.inodes && o.fs.db.saved == fs.db.saved
            && o.fs.handles == CloseHandle(fs.handles, fh)
            && StoreSound(mount, o.fs) && FilesSound(o.fs.db.tables.inodes, o.fs.db.tables.blocks)
            && FilesOf(o.fs.db.tables.inodes, MessagesOf(o.fs)) == FilesOf(fs.db.tables.inodes, MessagesOf(fs))
  {
    var data, rows, blocks := fs.handles.open[fh].writeBuffer, fs.db.tables.inodes, fs.db.tables.blocks;
    var f := Flush(mount, fs, data, e);
    FlushSucceedsIff(mount, fs, data, e);
    if CanFlush(fs, data, e) {
      FlushSucceeds(mount, fs, data, e);
      FilesStaySound(rows, blocks, f.fs.db.tables.blocks);
    } else {
      FailedFlush(mount, fs, data, e);
    }
    FilesStay(rows, blocks, MessagesOf(fs), MessagesOf(f.fs));
  }

  lemma LostAbstractly(mount: Mount, fs: Fs, ino: Ino, fh: nat, e: FlushEvents)
    requires Inv(mount, fs) && OwnBytes(fs, fh) && !Records(fs, fh, e)
    ensures var data, files := fs.handles.open[fh].writeBuffer, FilesOf(fs.db.tables.inodes, MessagesOf(fs));
            Abstract(Release(mount, fs, ino, fh, e).fs) == AbsRelease(Abstract(fs), ino, fh) <==>
              ino !in files || files[ino] == data
  {
    LostRelease(mount, fs, ino, fh, e);
    BuffersAfterClose(fs.handles, fh);
    var data, files := fs.handles.open[fh].writeBuffer, FilesOf(fs.db.tables.inodes, MessagesOf(fs));
    assert BuffersOf(fs.handles)[fh].bytes == data;
    assert AbsRelease(Abstract(fs), ino, fh).files == if ino in files then files[ino := data] else files;
    assert Abstract(Release(mount, fs, ino, fh, e).fs).files == files;
  }

  /**
   release always replies with success. The file holds the buffer afterwards if and
   only if the flush can succeed and be recorded, or there is nothing to change: no such
   file, or one that holds these very bytes.
   */
  lemma {:induction false} ReleaseIsRightIff(mount: Mount, fs: Fs, ino: Ino, fh: nat, e: FlushEvents)
    requires Inv(mount, fs) && OwnBytes(fs, fh) && fs.handles.open[fh].ino == ino
    ensures var o := Release(mount, fs, ino, fh, e);
            var data, files := fs.handles.open[fh].writeBuffer, FilesOf(fs.db.tables.inodes, MessagesOf(fs));
            && o.reply == Ok && fh !in o.fs.handles.open
            && (Abstract(o.fs) == AbsRelease(Abstract(fs), ino, fh) <==>
                  Records(fs, fh, e) || ino !in files || files[ino] == data)
  {
    if Records(fs, fh, e) {
      FlushedRelease(mount, fs, ino, fh, e);
    } else {
      LostAbstractly(mount, fs, ino, fh, e);
    }
  }

  /** The bytes are lost, and the size that their writes recorded stays, with no other handle to account for it. */
  ghost predicate LeavesWrongSize(fs: Fs, ino: Ino, fh: nat, e: FlushEvents) {
    && OwnBytes(fs, fh) && !Records(fs, fh, e)
    && ino in fs.db.tables.inodes && fs.db.tables.inodes[ino].IsFile() && !Pending(CloseHandle(fs.handles, fh), ino)
    && fs.db.tables.inodes[ino].manifest.Some?
    && fs.db.tables.inodes[ino].size != fs.db.tables.inodes[ino].manifest.value.totalSize
  }

  /** A release through a handle of the file keeps the invariant except in exactly this case. */
  lemma ReleaseIsSoundIff(mount: Mount, fs: Fs, ino: Ino, fh: nat, e: FlushEvents)
    requires Inv(mount, fs) && fh in fs.handles.open && fs.handles.open[fh].ino == ino
    ensures Inv(mount, Release(mount, fs, ino, fh, e).fs) <==> !LeavesWrongSize(fs, ino, fh, e)
  {
    if !OwnBytes(fs, fh) {
      QuietRelease(mount, fs, ino, fh, e);
    } else if Records(fs, fh, e) {
      FlushedRelease(mount, fs, ino, fh, e);
    } else {
      LostRelease(mount, fs, ino, fh, e);
      LostSizes(fs.db.tables.inodes, fs.handles, ino, fh);
    }
  }

  lemma LostSizes(rows: Inodes, handles: Handles, ino: Ino, fh: nat)
    requires SizesSound(rows, handles) && fh in handles.open && handles.open[fh].ino == ino
    ensures SizesSound(rows, CloseHandle(handles, fh)) <==>
            (ino in rows && rows[ino].IsFile() && !Pending(CloseHandle(handles, fh), ino) ==>
               rows[ino].manifest.Some? && rows[ino].size == rows[ino].manifest.value.totalSize)
  {
    var handles' := CloseHandle(handles, fh);
    forall i | i != ino
      ensures Pending(handles, i) ==> Pending(handles', i)
    {
      PendingElsewhere(handles, handles', fh, i);
    }
  }

  /** A release with nothing to flush, or with a flush that is recorded, is the abstract one. */
  lemma GoodRelease(mount: Mount, fs: Fs, ino: Ino, fh: nat, e: FlushEvents)
    requires Inv(mount, fs) && (fh in fs.handles.open ==> fs.handles.open[fh].ino == ino)
    requires OwnBytes(fs, fh) ==> Records(fs, fh, e)
    ensures Matches(mount, Release(mount, fs, ino, fh, e), AbsOutcome(AbsRelease(Abstract(fs), ino, fh), Ok))
  {
    if OwnBytes(fs, fh) {
      FlushedRelease(mount, fs, ino, fh, e);
    } else {
      QuietRelease(mount, fs, ino, fh, e);
    }
  }

  /** All files but one are there as before, and none is new. */
  ghost predicate OtherFilesKept(files: map<Ino, Data>, files': map<Ino, Data>, ino: Ino) {
    files'.Keys == files.Keys && forall j | j in files && j != ino :: files'[j] == files[j]
  }

  lemma AbsReleaseKeepsOthers(a: Abs, ino: Ino, fh: nat)
    ensures OtherFilesKept(a.files, AbsRelease(a, ino, fh).files, ino)
  {
  }

  /** Whatever becomes of the flush, a release changes no file but its own. */
  lemma ReleaseChangesOneFile(mount: Mount, fs: Fs, ino: Ino, fh: nat, e: FlushEvents)
    requires Inv(mount, fs) && (fh in fs.handles.open ==> fs.handles.open[fh].ino == ino)
    ensures OtherFilesKept(Abstract(fs).files, Abstract(Release(mount, fs, ino, fh, e).fs).files, ino)
  {
    if OwnBytes(fs, fh) && !Records(fs, fh, e) {
      LostRelease(mount, fs, ino, fh, e);
    } else {
      GoodRelease(mount, fs, ino, fh, e);
      AbsReleaseKeepsOthers(Abstract(fs), ino, fh);
    }
  }
}
