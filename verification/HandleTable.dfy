/** Open file handles and their write buffers (handle.rs). */
module HandleTables {
  import opened Wrappers
  import opened Content

  datatype FileHandle = FileHandle(fh: nat, ino: nat, writeBuffer: Data, dirty: bool)

  datatype Handles = Handles(open: map<nat, FileHandle>, nextFh: nat)

  function OpenHandle(h: Handles, ino: nat): Handles {
    Handles(h.open[h.nextFh := FileHandle(h.nextFh, ino, [], false)], h.nextFh + 1)
  }

  function UpdateHandle(h: Handles, fh: nat, change: FileHandle -> FileHandle): Handles {
    if fh in h.open then h.(open := h.open[fh := change(h.open[fh])]) else h
  }

  function CloseHandle(h: Handles, fh: nat): Handles {
    h.(open := h.open - {fh})
  }

  class HandleTable {
    var nextFh: nat
    var handles: map<nat, FileHandle>

    function View(): Handles
      reads this
    {
      Handles(handles, nextFh)
    }

    constructor ()
      ensures View() == Handles(map[], 1)
    {
      nextFh := 1;
      handles := map[];
    }

    method Open(ino: nat) returns (fh: nat)
      modifies this
      ensures fh == old(nextFh) && View() == OpenHandle(old(View()), ino)
      ensures handles == old(handles)[fh := FileHandle(fh, ino, [], false)] && nextFh == fh + 1
    {
      fh := nextFh;
      nextFh := nextFh + 1;
      var handle := FileHandle(fh, ino, [], false);
      handles := handles[fh := handle];
    }

    method Get(fh: nat) returns (r: Option<FileHandle>)
      ensures r == if fh in handles then Some(handles[fh]) else None
    {
      if fh in handles {
        return Some(handles[fh]);
      }
      return None;
    }

    method Update(fh: nat, change: FileHandle -> FileHandle) returns (found: bool)
      modifies this
      ensures found == (fh in old(handles)) && View() == UpdateHandle(old(View()), fh, change)
    {
      if fh in handles {
        handles := handles[fh := change(handles[fh])];
        return true;
      }
      return false;
    }

    /** The buffer is wiped before the handle is given back. */
    method Close(fh: nat) returns (r: Option<FileHandle>)
      modifies this
      ensures View() == CloseHandle(old(View()), fh)
      ensures r == if fh in old(handles) then Some(old(handles)[fh].(writeBuffer := [])) else None
    {
      if fh !in handles {
        return None;
      }
      var handle := handles[fh];
      handles := handles - {fh};
      return Some(handle.(writeBuffer := []));
    }
  }
}
