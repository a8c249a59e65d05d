/** What holds of the cache over every sequence of operations. */
module BlockCacheProofs {
  import opened Wrappers
  import opened Content
  import opened BlockCaches

  datatype CacheOp = PutOp(rid: Rid, data: Data) | GetOp(rid: Rid) | RemoveOp(rid: Rid) | ClearOp

  function Apply(q: Queue, op: CacheOp, maxSize: nat, encryptAtRest: bool): Queue {
    match op
    case PutOp(rid, data) => PutInto(q, rid, FileFor(rid, data, encryptAtRest), maxSize)
    case GetOp(rid) => Touch(q, rid)
    case RemoveOp(rid) => Without(q, rid)
    case ClearOp => []
  }

  /** The queue after a history of operations on an empty cache. */
  function RunCache(ops: seq<CacheOp>, maxSize: nat, encryptAtRest: bool): Queue {
    if ops == [] then []
    else Apply(RunCache(ops[..|ops| - 1], maxSize, encryptAtRest), ops[|ops| - 1], maxSize, encryptAtRest)
  }

  // ----- Eviction -----

  /** Eviction removes the shortest initial segment whose removal makes room, or everything. */
  lemma {:induction false} EvictionIsShortest(q: Queue, needed: nat, maxSize: nat)
    ensures var k := |q| - |Evict(q, needed, maxSize)|;
            && Evict(q, needed, maxSize) == q[k..]
            && (k < |q| ==> Total(q[k..]) + needed <= maxSize)
            && forall j | 0 <= j < k :: Total(q[j..]) + needed > maxSize
  {
    if q != [] && Total(q) + needed > maxSize {
      EvictionIsShortest(q[1..], needed, maxSize);
      var k := |q| - |Evict(q, needed, maxSize)|;
      assert q[1..][k - 1..] == q[k..];
      forall j | 0 <= j < k
        ensures Total(q[j..]) + needed > maxSize
      {
        if j > 0 {
          assert q[1..][j - 1..] == q[j..];
        }
      }
    }
  }

  // ----- Size -----

  lemma {:induction false} WithoutIsSmaller(q: Queue, rid: Rid)
    ensures Total(Without(q, rid)) <= Total(q) && |Without(q, rid)| <= |q|
  {
    if q != [] {
      WithoutIsSmaller(q[1..], rid);
    }
  }

  lemma {:induction false} TouchKeepsTotal(q: Queue, rid: Rid, file: DiskFile)
    requires Find(q, rid) == Some(file)
    ensures Total(Without(q, rid)) + FileSize(file) <= Total(q)
    ensures |Without(q, rid)| < |q|
  {
    if q[0].rid == rid {
      WithoutIsSmaller(q[1..], rid);
    } else {
      TouchKeepsTotal(q[1..], rid, file);
    }
  }

  ghost predicate Fits(q: Queue, maxSize: nat) {
    Total(q) <= maxSize || |q| == 1
  }

  lemma ApplyFits(q: Queue, op: CacheOp, maxSize: nat, encryptAtRest: bool)
    requires Fits(q, maxSize)
    ensures Fits(Apply(q, op, maxSize, encryptAtRest), maxSize)
  {
    match op {
      case PutOp(rid, data) =>
        var file := FileFor(rid, data, encryptAtRest);
        var kept := Evict(q, FileSize(file), maxSize);
        EvictionIsShortest(q, FileSize(file), maxSize);
        WithoutIsSmaller(kept, rid);
        TotalOfParts(Without(kept, rid), [Slot(rid, file)]);
      case GetOp(rid) =>
        if Find(q, rid).Some? {
          var file := Find(q, rid).value;
          TouchKeepsTotal(q, rid, file);
          TotalOfParts(Without(q, rid), [Slot(rid, file)]);
        }
      case RemoveOp(rid) =>
        WithoutIsSmaller(q, rid);
      case ClearOp =>
    }
  }

  /** The cache stays within its limit unless it holds a single block. */
  lemma {:induction false} CacheStaysWithinLimit(ops: seq<CacheOp>, maxSize: nat, encryptAtRest: bool)
    ensures Fits(RunCache(ops, maxSize, encryptAtRest), maxSize)
  {
    if ops != [] {
      CacheStaysWithinLimit(ops[..|ops| - 1], maxSize, encryptAtRest);
      ApplyFits(RunCache(ops[..|ops| - 1], maxSize, encryptAtRest), ops[|ops| - 1], maxSize, encryptAtRest);
    }
  }

  // ----- Recency -----

  predicate Uses(op: CacheOp, rid: Rid) {
    (op.PutOp? || op.GetOp?) && op.rid == rid
  }

  /** The last time a block was stored or asked for; -1 if never. */
  function LastUse(ops: seq<CacheOp>, rid: Rid): (t: int)
    ensures -1 <= t < |ops|
  {
    if ops == [] then -1
    else if Uses(ops[|ops| - 1], rid) then |ops| - 1
    else LastUse(ops[..|ops| - 1], rid)
  }

  /** Last uses grow along the queue, from above `low`. */
  ghost predicate Ordered(q: Queue, ops: seq<CacheOp>, low: int) {
    q == [] || (LastUse(ops, q[0].rid) > low && Ordered(q[1..], ops, LastUse(ops, q[0].rid)))
  }

  lemma {:induction false} OrderedBelow(q: Queue, ops: seq<CacheOp>, low: int, low': int)
    requires Ordered(q, ops, low) && low' <= low
    ensures Ordered(q, ops, low')
  {
  }

  lemma {:induction false} OrderedWithout(q: Queue, ops: seq<CacheOp>, low: int, rid: Rid)
    requires Ordered(q, ops, low)
    ensures Ordered(Without(q, rid), ops, low)
    ensures forall i | 0 <= i < |Without(q, rid)| :: Without(q, rid)[i].rid != rid
  {
    if q != [] {
      if q[0].rid == rid {
        OrderedBelow(q[1..], ops, LastUse(ops, q[0].rid), low);
        OrderedWithout(q[1..], ops, low, rid);
      } else {
        OrderedWithout(q[1..], ops, LastUse(ops, q[0].rid), rid);
      }
    }
  }

  lemma {:induction false} OrderedEvict(q: Queue, ops: seq<CacheOp>, low: int, needed: nat, maxSize: nat)
    requires Ordered(q, ops, low)
    ensures Ordered(Evict(q, needed, maxSize), ops, low)
  {
    if q != [] && Total(q) + needed > maxSize {
      OrderedBelow(q[1..], ops, LastUse(ops, q[0].rid), low);
      OrderedEvict(q[1..], ops, low, needed, maxSize);
    }
  }

  /** An operation that uses none of the queue's blocks leaves their order. */
  lemma {:induction false} OrderedLater(q: Queue, ops: seq<CacheOp>, op: CacheOp, low: int)
    requires Ordered(q, ops, low)
    requires forall i | 0 <= i < |q| :: !Uses(op, q[i].rid)
    ensures Ordered(q, ops + [op], low)
  {
    if q != [] {
      assert (ops + [op])[..|ops|] == ops;
      OrderedLater(q[1..], ops, op, LastUse(ops, q[0].rid));
    }
  }

  lemma {:induction false} OrderedAppend(q: Queue, ops: seq<CacheOp>, low: int, s: Slot)
    requires Ordered(q, ops, low) && LastUse(ops, s.rid) > low
    requires forall i | 0 <= i < |q| :: LastUse(ops, q[i].rid) < LastUse(ops, s.rid)
    ensures Ordered(q + [s], ops, low)
  {
    if q == [] {
      assert q + [s] == [s];
    } else {
      assert (q + [s])[1..] == q[1..] + [s];
      OrderedAppend(q[1..], ops, LastUse(ops, q[0].rid), s);
    }
  }

  /** Using a block and giving it the last place keeps the queue in order of last use. */
  lemma UseKeepsOrder(q: Queue, ops: seq<CacheOp>, op: CacheOp, s: Slot)
    requires Ordered(q, ops, -1) && Uses(op, s.rid)
    ensures Ordered(Without(q, s.rid) + [s], ops + [op], -1)
  {
    var rest := Without(q, s.rid);
    OrderedWithout(q, ops, -1, s.rid);
    OrderedLater(rest, ops, op, -1);
    assert (ops + [op])[..|ops|] == ops;
    OrderedAppend(rest, ops + [op], -1, s);
  }

  lemma {:induction false} FindIsHeld(q: Queue, rid: Rid)
    ensures Find(q, rid) == None ==> forall i | 0 <= i < |q| :: q[i].rid != rid
  {
    if q != [] {
      FindIsHeld(q[1..], rid);
    }
  }

  lemma {:induction false} RunIsOrdered(ops: seq<CacheOp>, maxSize: nat, encryptAtRest: bool)
    ensures Ordered(RunCache(ops, maxSize, encryptAtRest), ops, -1)
  {
    if ops != [] {
      var before, op := ops[..|ops| - 1], ops[|ops| - 1];
      var q := RunCache(before, maxSize, encryptAtRest);
      RunIsOrdered(before, maxSize, encryptAtRest);
      assert before + [op] == ops;
      match op {
        case PutOp(rid, data) =>
          var file := FileFor(rid, data, encryptAtRest);
          OrderedEvict(q, before, -1, FileSize(file), maxSize);
          UseKeepsOrder(Evict(q, FileSize(file), maxSize), before, op, Slot(rid, file));
        case GetOp(rid) =>
          FindIsHeld(q, rid);
          if Find(q, rid).Some? {
            UseKeepsOrder(q, before, op, Slot(rid, Find(q, rid).value));
          } else {
            OrderedLater(q, before, op, -1);
          }
        case RemoveOp(rid) =>
          OrderedWithout(q, before, -1, rid);
          OrderedLater(Without(q, rid), before, op, -1);
        case ClearOp =>
      }
    }
  }

  lemma {:induction false} OrderedMeans(q: Queue, ops: seq<CacheOp>, low: int)
    requires Ordered(q, ops, low)
    ensures forall i | 0 <= i < |q| :: LastUse(ops, q[i].rid) > low
    ensures forall i, j | 0 <= i < j < |q| :: LastUse(ops, q[i].rid) < LastUse(ops, q[j].rid)
  {
    if q != [] {
      OrderedMeans(q[1..], ops, LastUse(ops, q[0].rid));
      assert q == [q[0]] + q[1..];
    }
  }

  /** After any history the queue lists its blocks, each once, in the order of their last use. */
  lemma QueueIsOrderOfLastUse(ops: seq<CacheOp>, maxSize: nat, encryptAtRest: bool)
    ensures var q := RunCache(ops, maxSize, encryptAtRest);
            DistinctRids(q) && forall i, j | 0 <= i < j < |q| :: LastUse(ops, q[i].rid) < LastUse(ops, q[j].rid)
  {
    RunIsOrdered(ops, maxSize, encryptAtRest);
    OrderedMeans(RunCache(ops, maxSize, encryptAtRest), ops, -1);
  }

  // ----- Contents -----

  /** What was last stored under an identifier. */
  function LastPut(ops: seq<CacheOp>, rid: Rid): Option<Data> {
    if ops == [] then None
    else
      var op := ops[|ops| - 1];
      if op.PutOp? && op.rid == rid then Some(op.data) else LastPut(ops[..|ops| - 1], rid)
  }

  /** Every file of the queue is what `stored` says about its block. */
  ghost predicate Faithful(q: Queue, stored: Rid -> Option<Data>, encryptAtRest: bool) {
    forall i | 0 <= i < |q| ::
      stored(q[i].rid).Some? && q[i].file == FileFor(q[i].rid, stored(q[i].rid).value, encryptAtRest)
  }

  lemma {:induction false} FaithfulWithout(q: Queue, stored: Rid -> Option<Data>, encryptAtRest: bool, rid: Rid)
    requires Faithful(q, stored, encryptAtRest)
    ensures Faithful(Without(q, rid), stored, encryptAtRest)
    ensures forall i | 0 <= i < |Without(q, rid)| :: Without(q, rid)[i].rid != rid
  {
    if q != [] {
      FaithfulWithout(q[1..], stored, encryptAtRest, rid);
    }
  }

  lemma {:induction false} FaithfulFind(q: Queue, stored: Rid -> Option<Data>, encryptAtRest: bool, rid: Rid)
    requires Faithful(q, stored, encryptAtRest)
    ensures Find(q, rid).Some? ==>
              stored(rid).Some? && Find(q, rid).value == FileFor(rid, stored(rid).value, encryptAtRest)
    ensures Faithful(Touch(q, rid), stored, encryptAtRest)
  {
    if q != [] {
      FaithfulFind(q[1..], stored, encryptAtRest, rid);
      FaithfulWithout(q, stored, encryptAtRest, rid);
    }
  }

  lemma FaithfulPut(q: Queue, stored: Rid -> Option<Data>, stored': Rid -> Option<Data>, rid: Rid, data: Data,
                    maxSize: nat, encryptAtRest: bool)
    requires Faithful(q, stored, encryptAtRest)
    requires stored'(rid) == Some(data) && forall r | r != rid :: stored'(r) == stored(r)
    ensures Faithful(PutInto(q, rid, FileFor(rid, data, encryptAtRest), maxSize), stored', encryptAtRest)
  {
    var needed := FileSize(FileFor(rid, data, encryptAtRest));
    EvictionIsShortest(q, needed, maxSize);
    FaithfulWithout(Evict(q, needed, maxSize), stored, encryptAtRest, rid);
  }

  lemma {:induction false} RunIsFaithful(ops: seq<CacheOp>, maxSize: nat, encryptAtRest: bool)
    ensures Faithful(RunCache(ops, maxSize, encryptAtRest), r => LastPut(ops, r), encryptAtRest)
  {
    if ops != [] {
      var before, op := ops[..|ops| - 1], ops[|ops| - 1];
      var q := RunCache(before, maxSize, encryptAtRest);
      var stored := r => LastPut(before, r);
      RunIsFaithful(before, maxSize, encryptAtRest);
      match op {
        case PutOp(rid, data) =>
          FaithfulPut(q, stored, r => LastPut(ops, r), rid, data, maxSize, encryptAtRest);
        case GetOp(rid) =>
          FaithfulFind(q, stored, encryptAtRest, rid);
        case RemoveOp(rid) =>
          FaithfulWithout(q, stored, encryptAtRest, rid);
        case ClearOp =>
      }
    }
  }

  /** A lookup either misses or returns what was last stored, never anything else. */
  lemma HitsReturnTheLastPut(ops: seq<CacheOp>, maxSize: nat, encryptAtRest: bool, rid: Rid)
    ensures var r := CacheLookup(RunCache(ops, maxSize, encryptAtRest), rid, encryptAtRest);
            r == Failure(Miss(rid)) || (r.Success? && LastPut(ops, rid) == Some(r.value))
  {
    RunIsFaithful(ops, maxSize, encryptAtRest);
    FaithfulFind(RunCache(ops, maxSize, encryptAtRest), r => LastPut(ops, r), encryptAtRest, rid);
  }

  lemma {:induction false} FindAfter(q: Queue, s: Slot)
    requires Find(q, s.rid) == None
    ensures Find(q + [s], s.rid) == Some(s.file)
  {
    if q == [] {
      assert q + [s] == [s];
    } else {
      assert (q + [s])[1..] == q[1..] + [s];
      FindAfter(q[1..], s);
    }
  }

  lemma {:induction false} NotFoundWithout(q: Queue, rid: Rid)
    ensures Find(Without(q, rid), rid) == None
  {
    if q != [] {
      NotFoundWithout(q[1..], rid);
    }
  }

  /** Whatever eviction did, the block just stored is there. */
  lemma PutIsFound(q: Queue, rid: Rid, data: Data, maxSize: nat, encryptAtRest: bool)
    ensures CacheLookup(PutInto(q, rid, FileFor(rid, data, encryptAtRest), maxSize), rid, encryptAtRest)
            == Success(data)
  {
    var file := FileFor(rid, data, encryptAtRest);
    var kept := Evict(q, FileSize(file), maxSize);
    NotFoundWithout(kept, rid);
    FindAfter(Without(kept, rid), Slot(rid, file));
  }

  // ----- What stays -----

  lemma {:induction false} FoundWithout(q: Queue, rid: Rid, r: Rid)
    requires r != rid
    ensures Find(Without(q, rid), r) == Find(q, r)
  {
    if q != [] {
      FoundWithout(q[1..], rid, r);
    }
  }

  lemma {:induction false} FindAppended(q: Queue, s: Slot, r: Rid)
    ensures Find(q + [s], r) == if Find(q, r).Some? then Find(q, r) else if s.rid == r then Some(s.file) else None
  {
    if q != [] {
      assert (q + [s])[1..] == q[1..] + [s];
      FindAppended(q[1..], s, r);
    }
  }

  /** Getting a block drops none, adds none and changes none. */
  lemma TouchFinds(q: Queue, rid: Rid, r: Rid)
    ensures Find(Touch(q, rid), r) == Find(q, r)
  {
    if Find(q, rid).Some? {
      FindAppended(Without(q, rid), Slot(rid, Find(q, rid).value), r);
      if r != rid {
        FoundWithout(q, rid, r);
      } else {
        NotFoundWithout(q, rid);
      }
    }
  }

  /** Removing a block removes this one alone. */
  lemma RemoveFinds(q: Queue, rid: Rid, r: Rid)
    ensures Find(Without(q, rid), r) == if r == rid then None else Find(q, r)
  {
    if r != rid {
      FoundWithout(q, rid, r);
    } else {
      NotFoundWithout(q, rid);
    }
  }

  /** After a put: the new file, and of the other blocks those that eviction left. */
  lemma PutFinds(q: Queue, rid: Rid, file: DiskFile, maxSize: nat, r: Rid)
    ensures Find(PutInto(q, rid, file, maxSize), r)
            == if r == rid then Some(file) else Find(Evict(q, FileSize(file), maxSize), r)
  {
    var kept := Evict(q, FileSize(file), maxSize);
    FindAppended(Without(kept, rid), Slot(rid, file), r);
    RemoveFinds(kept, rid, r);
  }

  lemma {:induction false} FindInDistinct(q: Queue, r: Rid, i: nat)
    requires DistinctRids(q) && i < |q| && q[i].rid == r
    ensures Find(q, r) == Some(q[i].file)
  {
    if i > 0 {
      FindInDistinct(q[1..], r, i - 1);
    }
  }

  lemma {:induction false} FindNothing(q: Queue, r: Rid)
    requires forall i | 0 <= i < |q| :: q[i].rid != r
    ensures Find(q, r) == None
  {
    WithoutAbsent(q, r);
  }

  /** From position k on the blocks fit beside `needed` more bytes, and from no earlier position do they. */
  ghost predicate LeastFit(q: Queue, needed: nat, maxSize: nat, k: nat) {
    && k <= |q| && (k < |q| ==> Total(q[k..]) + needed <= maxSize)
    && forall j | 0 <= j < k :: Total(q[j..]) + needed > maxSize
  }

  lemma EvictsLeast(q: Queue, needed: nat, maxSize: nat, k: nat)
    requires LeastFit(q, needed, maxSize, k)
    ensures Evict(q, needed, maxSize) == q[k..]
  {
    EvictionIsShortest(q, needed, maxSize);
    var m := |q| - |Evict(q, needed, maxSize)|;
    assert m == k;
  }

  /** The bytes that a block takes in the cache: nonce and tag besides its own if it is sealed. */
  function StoredSize(data: Data, encryptAtRest: bool): nat {
    |data| + if encryptAtRest then 24 + 16 else 0
  }

  /** The size of the queue is the sum of these. */
  lemma {:induction false} TotalIsSum(q: Queue, k: nat)
    requires k < |q|
    ensures Total(q[..0]) == 0
    ensures Total(q[..k + 1]) == Total(q[..k]) + StoredSize(q[k].file.data, q[k].file.Sealed?)
  {
    TotalOfParts(q[..k], [q[k]]);
    assert q[..k + 1] == q[..k] + [q[k]];
  }

  /**
   After any history: a put of a block evicts the least number of least recently used
   blocks that makes room for what it stores, and loses nothing else.
   */
  lemma PutEvictsJustEnough(ops: seq<CacheOp>, maxSize: nat, encryptAtRest: bool, rid: Rid, data: Data, k: nat)
    requires LeastFit(RunCache(ops, maxSize, encryptAtRest), StoredSize(data, encryptAtRest), maxSize, k)
    ensures var q := RunCache(ops, maxSize, encryptAtRest);
            var q' := RunCache(ops + [PutOp(rid, data)], maxSize, encryptAtRest);
            && (forall i | k <= i < |q| && q[i].rid != rid :: Find(q', q[i].rid) == Some(q[i].file))
            && (forall i | 0 <= i < k && q[i].rid != rid :: Find(q', q[i].rid) == None)
            && (forall r | r != rid && Find(q, r) == None :: Find(q', r) == None)
            && CacheLookup(q', rid, encryptAtRest) == Success(data)
  {
    var q, file := RunCache(ops, maxSize, encryptAtRest), FileFor(rid, data, encryptAtRest);
    var q' := RunCache(ops + [PutOp(rid, data)], maxSize, encryptAtRest);
    assert (ops + [PutOp(rid, data)])[..|ops|] == ops;
    QueueIsOrderOfLastUse(ops, maxSize, encryptAtRest);
    EvictsLeast(q, FileSize(file), maxSize, k);
    PutIsFound(q, rid, data, maxSize, encryptAtRest);
    forall r | r != rid
      ensures Find(q', r) == Find(q[k..], r)
    {
      PutFinds(q, rid, file, maxSize, r);
    }
    SuffixFinds(q, k);
  }

  lemma SuffixFinds(q: Queue, k: nat)
    requires DistinctRids(q) && k <= |q|
    ensures forall i | k <= i < |q| :: Find(q[k..], q[i].rid) == Some(q[i].file)
    ensures forall i | 0 <= i < k :: Find(q[k..], q[i].rid) == None
    ensures forall r | Find(q, r) == None :: Find(q[k..], r) == None
  {
    forall i | k <= i < |q|
      ensures Find(q[k..], q[i].rid) == Some(q[i].file)
    {
      FindInDistinct(q[k..], q[i].rid, i - k);
    }
    forall i | 0 <= i < k
      ensures Find(q[k..], q[i].rid) == None
    {
      FindNothing(q[k..], q[i].rid);
    }
    forall r | Find(q, r) == None
      ensures Find(q[k..], r) == None
    {
      FindIsHeld(q, r);
      FindNothing(q[k..], r);
    }
  }

  /** In particular a put that fits evicts nothing. */
  lemma PutThatFits(ops: seq<CacheOp>, maxSize: nat, encryptAtRest: bool, rid: Rid, data: Data, r: Rid)
    requires Total(RunCache(ops, maxSize, encryptAtRest)) + StoredSize(data, encryptAtRest) <= maxSize && r != rid
    ensures Find(RunCache(ops + [PutOp(rid, data)], maxSize, encryptAtRest), r)
            == Find(RunCache(ops, maxSize, encryptAtRest), r)
  {
    var q := RunCache(ops, maxSize, encryptAtRest);
    assert q[0..] == q;
    assert (ops + [PutOp(rid, data)])[..|ops|] == ops;
    PutFinds(q, rid, FileFor(rid, data, encryptAtRest), maxSize, r);
  }

  /** Every other operation drops what it names and nothing else. */
  lemma OtherOpsKeep(ops: seq<CacheOp>, op: CacheOp, maxSize: nat, encryptAtRest: bool, r: Rid)
    requires !op.PutOp?
    ensures var q, q' := RunCache(ops, maxSize, encryptAtRest), RunCache(ops + [op], maxSize, encryptAtRest);
            Find(q', r) == if op.ClearOp? || (op.RemoveOp? && op.rid == r) then None else Find(q, r)
  {
    var q := RunCache(ops, maxSize, encryptAtRest);
    assert (ops + [op])[..|ops|] == ops;
    if op.GetOp? {
      TouchFinds(q, op.rid, r);
    } else if op.RemoveOp? {
      RemoveFinds(q, op.rid, r);
    }
  }

  /** With encryption at rest every file is sealed for its own block, and opens for no other. */
  lemma SealedAtRest(ops: seq<CacheOp>, maxSize: nat, encryptAtRest: bool, rid: Rid, other: Rid)
    ensures var file := Find(RunCache(ops, maxSize, encryptAtRest), rid);
            file.Some? ==>
              && LastPut(ops, rid).Some?
              && file.value == (if encryptAtRest then Sealed(rid, LastPut(ops, rid).value)
                                else Plain(LastPut(ops, rid).value))
              && (encryptAtRest ==> (OpenFile(file.value, other, true).Some? <==> other == rid))
  {
    RunIsFaithful(ops, maxSize, encryptAtRest);
    FaithfulFind(RunCache(ops, maxSize, encryptAtRest), r => LastPut(ops, r), encryptAtRest, rid);
  }
}
