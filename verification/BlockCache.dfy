/**
 The local block cache (block_cache.rs): an index with access counters over a
 directory of files, which implements a least-recently-used queue.
 */
module BlockCaches {
  import opened Wrappers
  import opened Content

  /** Nonce and tag that sealing adds to a cached block. */
  const SEAL_OVERHEAD: nat := 40

  /** A file of the cache directory: raw bytes, or bytes sealed for one block. */
  datatype DiskFile = Plain(data: Data) | Sealed(rid: Rid, data: Data)

  function FileSize(f: DiskFile): nat {
    match f
    case Plain(data) => |data|
    case Sealed(_, data) => |data| + SEAL_OVERHEAD
  }

  function FileFor(rid: Rid, data: Data, encryptAtRest: bool): DiskFile {
    if encryptAtRest then Sealed(rid, data) else Plain(data)
  }

  /** Reading a file back; sealed bytes open only for the block they were sealed for. */
  function OpenFile(f: DiskFile, rid: Rid, encryptAtRest: bool): Option<Data> {
    match f
    case Plain(data) => if encryptAtRest then None else Some(data)
    case Sealed(r, data) => if encryptAtRest && r == rid then Some(data) else None
  }

  // ----- The queue the cache stands for -----

  datatype Slot = Slot(rid: Rid, file: DiskFile)

  /** Cached blocks, least recently used first. */
  type Queue = seq<Slot>

  function Total(q: Queue): nat {
    if q == [] then 0 else FileSize(q[0].file) + Total(q[1..])
  }

  /** Dropping the oldest blocks until `needed` more bytes fit, or nothing is left. */
  function Evict(q: Queue, needed: nat, maxSize: nat): (r: Queue)
    ensures |r| <= |q|
  {
    if q == [] || Total(q) + needed <= maxSize then q else Evict(q[1..], needed, maxSize)
  }

  function Without(q: Queue, rid: Rid): (r: Queue) {
    if q == [] then []
    else if q[0].rid == rid then Without(q[1..], rid)
    else [q[0]] + Without(q[1..], rid)
  }

  function Find(q: Queue, rid: Rid): Option<DiskFile> {
    if q == [] then None
    else if q[0].rid == rid then Some(q[0].file)
    else Find(q[1..], rid)
  }

  function PutInto(q: Queue, rid: Rid, file: DiskFile, maxSize: nat): Queue {
    Without(Evict(q, FileSize(file), maxSize), rid) + [Slot(rid, file)]
  }

  function CacheLookup(q: Queue, rid: Rid, encryptAtRest: bool): Result<Data, CacheError> {
    match Find(q, rid)
    case None => Failure(Miss(rid))
    case Some(file) =>
      match OpenFile(file, rid, encryptAtRest)
      case None => Failure(Decryption)
      case Some(data) => Success(data)
  }

  function Touch(q: Queue, rid: Rid): Queue {
    match Find(q, rid)
    case None => q
    case Some(file) => Without(q, rid) + [Slot(rid, file)]
  }

  ghost predicate DistinctRids(q: Queue) {
    forall i, j | 0 <= i < j < |q| :: q[i].rid != q[j].rid
  }

  // ----- Facts about the queue functions -----

  lemma {:induction false} WithoutAbsent(q: Queue, rid: Rid)
    requires forall i | 0 <= i < |q| :: q[i].rid != rid
    ensures Without(q, rid) == q && Find(q, rid) == None
  {
    if q != [] {
      WithoutAbsent(q[1..], rid);
    }
  }

  /** Removing a block of a queue without repetitions cuts out its one slot. */
  lemma {:induction false} WithoutAt(q: Queue, k: nat)
    requires DistinctRids(q) && k < |q|
    ensures Without(q, q[k].rid) == q[..k] + q[k + 1..]
    ensures Find(q, q[k].rid) == Some(q[k].file)
  {
    if k == 0 {
      WithoutAbsent(q[1..], q[0].rid);
    } else {
      WithoutAt(q[1..], k - 1);
      assert q[..k] + q[k + 1..] == [q[0]] + (q[1..][..k - 1] + q[1..][k..]);
    }
  }

  lemma {:induction false} TotalOfParts(a: Queue, b: Queue)
    ensures Total(a + b) == Total(a) + Total(b)
  {
    if a == [] {
      assert a + b == b;
    } else {
      assert (a + b)[1..] == a[1..] + b;
      TotalOfParts(a[1..], b);
    }
  }

  lemma TotalWithout(q: Queue, k: nat)
    requires k < |q|
    ensures Total(q[..k] + q[k + 1..]) == Total(q) - FileSize(q[k].file)
  {
    TotalOfParts(q[..k], q[k + 1..]);
    TotalOfParts(q[..k], q[k..]);
    assert q[..k] + q[k..] == q;
  }

  // ----- The index -----

  datatype CacheEntry = CacheEntry(size: nat, accessOrder: nat)

  datatype CacheError = Miss(rid: Rid) | Decryption

  /** The index and the directory hold this slot. */
  ghost predicate Tracked(entries: map<Rid, CacheEntry>, disk: map<Rid, DiskFile>, counter: nat, s: Slot) {
    && s.rid in entries && s.rid in disk
    && entries[s.rid].size == FileSize(s.file)
    && entries[s.rid].accessOrder <= counter
    && disk[s.rid] == s.file
  }

  ghost predicate Older(entries: map<Rid, CacheEntry>, s: Slot, t: Slot) {
    && s.rid in entries && t.rid in entries
    && entries[s.rid].accessOrder < entries[t.rid].accessOrder
  }

  /** Index and directory hold exactly the slots of the queue, and access counters grow along it. */
  ghost predicate Represents(entries: map<Rid, CacheEntry>, disk: map<Rid, DiskFile>, counter: nat, q: Queue) {
    && (forall i | 0 <= i < |q| :: Tracked(entries, disk, counter, q[i]))
    && (forall i, j | 0 <= i < j < |q| :: Older(entries, q[i], q[j]))
    && (forall rid {:trigger Holds(q, rid)} | rid in entries :: Holds(q, rid))
    && disk.Keys == entries.Keys
  }

  ghost predicate Holds(q: Queue, rid: Rid) {
    exists i | 0 <= i < |q| :: q[i].rid == rid
  }

  lemma OrderGivesDistinct(entries: map<Rid, CacheEntry>, disk: map<Rid, DiskFile>, counter: nat, q: Queue)
    requires Represents(entries, disk, counter, q)
    ensures DistinctRids(q)
  {
  }

  /** The least access counter belongs to the head of the queue. */
  lemma OldestFirst(entries: map<Rid, CacheEntry>, disk: map<Rid, DiskFile>, counter: nat, q: Queue)
    requires Represents(entries, disk, counter, q) && |entries| > 0
    ensures |q| > 0 && q[0].rid in entries
    ensures forall k | k in entries && k != q[0].rid :: entries[q[0].rid].accessOrder < entries[k].accessOrder
  {
    var rid :| rid in entries;
    assert Holds(q, rid);
    assert Tracked(entries, disk, counter, q[0]);
    forall k | k in entries && k != q[0].rid
      ensures entries[q[0].rid].accessOrder < entries[k].accessOrder
    {
      assert Holds(q, k);
      var j :| 0 <= j < |q| && q[j].rid == k;
      assert Older(entries, q[0], q[j]);
    }
  }

  /** Position i of the queue from which slot k was cut. */
  function CutIndex(k: nat, i: nat): nat {
    if i < k then i else i + 1
  }

  lemma DropKeeps(entries: map<Rid, CacheEntry>, disk: map<Rid, DiskFile>, counter: nat, q: Queue, k: nat)
    requires Represents(entries, disk, counter, q) && k < |q|
    ensures Represents(entries - {q[k].rid}, disk - {q[k].rid}, counter, q[..k] + q[k + 1..])
  {
    var rid, r := q[k].rid, q[..k] + q[k + 1..];
    var entries', disk' := entries - {rid}, disk - {rid};
    OrderGivesDistinct(entries, disk, counter, q);
    assert forall i | 0 <= i < |r| :: r[i] == q[CutIndex(k, i)];
    forall i | 0 <= i < |r|
      ensures Tracked(entries', disk', counter, r[i])
    {
      assert Tracked(entries, disk, counter, q[CutIndex(k, i)]);
    }
    forall i, j | 0 <= i < j < |r|
      ensures Older(entries', r[i], r[j])
    {
      assert Older(entries, q[CutIndex(k, i)], q[CutIndex(k, j)]);
      assert Tracked(entries', disk', counter, r[i]) && Tracked(entries', disk', counter, r[j]);
    }
    forall x | x in entries'
      ensures Holds(r, x)
    {
      assert Holds(q, x);
      var i :| 0 <= i < |q| && q[i].rid == x;
      assert r[if i < k then i else i - 1].rid == x;
    }
  }

  /** Adding a block that is not cached at the end, with a counter above all others. */
  lemma AppendKeeps(entries: map<Rid, CacheEntry>, disk: map<Rid, DiskFile>, counter: nat, q: Queue, rid: Rid,
                    file: DiskFile)
    requires Represents(entries, disk, counter, q) && rid !in entries
    ensures Represents(entries[rid := CacheEntry(FileSize(file), counter + 1)], disk[rid := file], counter + 1,
                       q + [Slot(rid, file)])
  {
    var entries', disk' := entries[rid := CacheEntry(FileSize(file), counter + 1)], disk[rid := file];
    var r := q + [Slot(rid, file)];
    forall i | 0 <= i < |r|
      ensures Tracked(entries', disk', counter + 1, r[i])
    {
      if i < |q| {
        assert Tracked(entries, disk, counter, q[i]);
      }
    }
    forall i, j | 0 <= i < j < |r|
      ensures Older(entries', r[i], r[j])
    {
      assert Tracked(entries, disk, counter, q[i]);
      if j < |q| {
        assert Older(entries, q[i], q[j]);
      }
    }
    forall x | x in entries'
      ensures Holds(r, x)
    {
      if x == rid {
        assert r[|q|].rid == x;
      } else {
        assert Holds(q, x);
        var i :| 0 <= i < |q| && q[i].rid == x;
        assert r[i].rid == x;
      }
    }
  }

  /** Moving a block, known or new, to the end of the queue. */
  lemma MoveToEnd(entries: map<Rid, CacheEntry>, disk: map<Rid, DiskFile>, counter: nat, q: Queue, rid: Rid,
                  file: DiskFile)
    requires Represents(entries, disk, counter, q)
    ensures var r := Without(q, rid) + [Slot(rid, file)];
            Represents(entries[rid := CacheEntry(FileSize(file), counter + 1)], disk[rid := file], counter + 1, r)
    ensures Total(Without(q, rid) + [Slot(rid, file)]) == Total(Without(q, rid)) + FileSize(file)
    ensures rid !in entries ==> Without(q, rid) == q && Find(q, rid) == None
    ensures rid in entries ==>
              && Total(Without(q, rid)) == Total(q) - entries[rid].size
              && Find(q, rid) == Some(disk[rid]) && entries[rid].size == FileSize(disk[rid])
  {
    TotalOfParts(Without(q, rid), [Slot(rid, file)]);
    if rid in entries {
      assert Holds(q, rid);
      var k :| 0 <= k < |q| && q[k].rid == rid;
      OrderGivesDistinct(entries, disk, counter, q);
      assert Tracked(entries, disk, counter, q[k]);
      WithoutAt(q, k);
      TotalWithout(q, k);
      DropKeeps(entries, disk, counter, q, k);
      AppendKeeps(entries - {rid}, disk - {rid}, counter, Without(q, rid), rid, file);
      var entry := CacheEntry(FileSize(file), counter + 1);
      assert entries[rid := entry] == (entries - {rid})[rid := entry];
      assert disk[rid := file] == (disk - {rid})[rid := file];
    } else {
      forall i | 0 <= i < |q|
        ensures q[i].rid != rid
      {
        assert Tracked(entries, disk, counter, q[i]);
      }
      WithoutAbsent(q, rid);
      AppendKeeps(entries, disk, counter, q, rid, file);
    }
  }

  // ----- The cache -----

  class BlockCache {
    const maxSize: nat
    const encryptAtRest: bool
    var entries: map<Rid, CacheEntry>
    var currentSize: nat
    var accessCounter: nat
    var hits: nat
    var misses: nat
    var disk: map<Rid, DiskFile>
    ghost var queue: Queue

    ghost predicate Valid()
      reads this
    {
      Represents(entries, disk, accessCounter, queue) && currentSize == Total(queue)
    }

    constructor (maxSize: nat, encryptAtRest: bool)
      ensures Valid() && queue == [] && hits == misses == 0
      ensures this.maxSize == maxSize && this.encryptAtRest == encryptAtRest
    {
      this.maxSize := maxSize;
      this.encryptAtRest := encryptAtRest;
      entries, disk, queue := map[], map[], [];
      currentSize, accessCounter, hits, misses := 0, 0, 0, 0;
    }

    method EvictIfNeeded(needed: nat)
      requires Valid()
      modifies this`entries, this`currentSize, this`disk, this`queue
      ensures Valid() && queue == Evict(old(queue), needed, maxSize)
    {
      while currentSize + needed > maxSize && |entries| > 0
        invariant Valid()
        invariant Evict(queue, needed, maxSize) == Evict(old(queue), needed, maxSize)
        decreases |entries|
      {
        OldestFirst(entries, disk, accessCounter, queue);
        var key :| key in entries && forall k | k in entries :: entries[key].accessOrder <= entries[k].accessOrder;
        assert key == queue[0].rid;
        DropOldest(key);
      }
      if queue != [] {
        assert Tracked(entries, disk, accessCounter, queue[0]);
      }
    }

    method DropOldest(key: Rid)
      requires Valid() && |queue| > 0 && key == queue[0].rid && key in entries
      modifies this`entries, this`currentSize, this`disk, this`queue
      ensures Valid() && queue == old(queue)[1..] && |entries| < old(|entries|)
    {
      DropKeeps(entries, disk, accessCounter, queue, 0);
      assert queue[..0] + queue[1..] == queue[1..];
      assert Tracked(entries, disk, accessCounter, queue[0]);
      var entry := entries[key];
      ghost var before := entries.Keys;
      entries := entries - {key};
      assert entries.Keys == before - {key};
      currentSize := currentSize - entry.size;
      disk := disk - {key};
      queue := queue[1..];
    }

    method Put(rid: Rid, data: Data)
      requires Valid()
      modifies this
      ensures Valid()
      ensures queue == PutInto(old(queue), rid, FileFor(rid, data, encryptAtRest), maxSize)
      ensures hits == old(hits) && misses == old(misses)
    {
      var file := FileFor(rid, data, encryptAtRest);
      var dataSize := FileSize(file);
      EvictIfNeeded(dataSize);
      Store(rid, file, dataSize);
    }

    /** Writes the file and gives its block the newest place. */
    method Store(rid: Rid, file: DiskFile, dataSize: nat)
      requires Valid() && dataSize == FileSize(file)
      modifies this`entries, this`currentSize, this`accessCounter, this`disk, this`queue
      ensures Valid() && queue == Without(old(queue), rid) + [Slot(rid, file)]
    {
      MoveToEnd(entries, disk, accessCounter, queue, rid, file);
      disk := disk[rid := file];
      accessCounter := accessCounter + 1;
      if rid in entries {
        currentSize := currentSize - entries[rid].size;
      }
      entries := entries[rid := CacheEntry(dataSize, accessCounter)];
      currentSize := currentSize + dataSize;
      queue := Without(queue, rid) + [Slot(rid, file)];
    }

    method Get(rid: Rid) returns (r: Result<Data, CacheError>)
      requires Valid()
      modifies this`entries, this`accessCounter, this`hits, this`misses, this`queue
      ensures Valid() && queue == Touch(old(queue), rid)
      ensures r == CacheLookup(old(queue), rid, encryptAtRest)
      ensures hits == old(hits) + (if Find(old(queue), rid).Some? then 1 else 0)
      ensures misses == old(misses) + (if Find(old(queue), rid).Some? then 0 else 1)
    {
      ghost var file := if rid in disk then disk[rid] else Plain([]);
      MoveToEnd(entries, disk, accessCounter, queue, rid, file);
      accessCounter := accessCounter + 1;
      var order := accessCounter;
      if rid in entries {
        entries := entries[rid := entries[rid].(accessOrder := order)];
        hits := hits + 1;
      } else {
        misses := misses + 1;
        assert forall i | 0 <= i < |queue| :: Tracked(entries, disk, order - 1, queue[i]);
        return Failure(Miss(rid));
      }
      assert disk == disk[rid := file];
      queue := Without(queue, rid) + [Slot(rid, file)];
      var data := OpenFile(disk[rid], rid, encryptAtRest);
      match data
      case None => return Failure(Decryption);
      case Some(d) => return Success(d);
    }

    method Remove(rid: Rid)
      requires Valid()
      modifies this`entries, this`currentSize, this`disk, this`queue
      ensures Valid() && queue == Without(old(queue), rid)
    {
      MoveToEnd(entries, disk, accessCounter, queue, rid, Plain([]));
      if rid in entries {
        assert Holds(queue, rid);
        ghost var k :| 0 <= k < |queue| && queue[k].rid == rid;
        OrderGivesDistinct(entries, disk, accessCounter, queue);
        WithoutAt(queue, k);
        DropKeeps(entries, disk, accessCounter, queue, k);
        var entry := entries[rid];
        entries := entries - {rid};
        currentSize := currentSize - entry.size;
        disk := disk - {rid};
        queue := Without(queue, rid);
      }
    }

    method Clear()
      requires Valid()
      modifies this
      ensures Valid() && queue == [] && hits == misses == 0
    {
      entries := map[];
      disk := map[];
      currentSize := 0;
      hits := 0;
      misses := 0;
      queue := [];
    }
  }
}
