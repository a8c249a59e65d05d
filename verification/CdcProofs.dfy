/**
 What the chunk list guarantees: an exact description of it, restart at every
 boundary, stability under append, and cut decisions that look at 8 bytes only.
 */
module CdcProofs {
  import opened Bits
  import opened Cdc

  // ----- The greedy description -----

  function EndOf(c: Chunk): nat {
    c.offset + c.length
  }

  /** The chunks are non-empty and lie end to end from start to the end of the data. */
  ghost predicate Tiles(data: Bytes, cs: seq<Chunk>, start: nat) {
    && (cs == [] ==> start == |data|)
    && (cs != [] ==> cs[0].offset == start && EndOf(cs[|cs| - 1]) == |data|)
    && (forall k | 0 <= k < |cs| :: cs[k].length > 0 && EndOf(cs[k]) <= |data|)
    && (forall k | 0 < k < |cs| :: cs[k].offset == EndOf(cs[k - 1]))
  }

  /** A chunk that ends at its first cut, or at the end of the data if it has none. */
  ghost predicate EndsAtFirstCut(data: Bytes, rule: Rule, c: Chunk)
    requires EndOf(c) <= |data|
  {
    && (EndOf(c) < |data| ==> IsCut(data, rule, c.offset, EndOf(c)))
    && forall e | c.offset < e < EndOf(c) :: !IsCut(data, rule, c.offset, e)
  }

  ghost predicate Greedy(data: Bytes, rule: Rule, cs: seq<Chunk>, start: nat) {
    && Tiles(data, cs, start)
    && forall k | 0 <= k < |cs| :: EndsAtFirstCut(data, rule, cs[k])
  }

  lemma {:induction false} NextEndIsFirstCut(data: Bytes, rule: Rule, start: nat, end: nat)
    requires start <= end <= |data|
    ensures var e := NextEnd(data, rule, start, end);
            && (e < |data| ==> IsCut(data, rule, start, e))
            && forall m | end <= m < e :: !IsCut(data, rule, start, m)
    decreases |data| - end
  {
    if end < |data| && !IsCut(data, rule, start, end) {
      NextEndIsFirstCut(data, rule, start, end + 1);
    }
  }

  lemma {:induction false} FirstCutIsNextEnd(data: Bytes, rule: Rule, start: nat, end: nat, e: nat)
    requires start <= end <= e <= |data|
    requires e < |data| ==> IsCut(data, rule, start, e)
    requires forall m | end <= m < e :: !IsCut(data, rule, start, m)
    ensures NextEnd(data, rule, start, end) == e
    decreases e - end
  {
    if end < e {
      FirstCutIsNextEnd(data, rule, start, end + 1, e);
    }
  }

  lemma {:induction false} GreedyIsChunks(data: Bytes, rule: Rule, cs: seq<Chunk>, start: nat)
    requires start <= |data| && Greedy(data, rule, cs, start)
    ensures cs == ChunksFrom(data, rule, start)
    decreases |data| - start
  {
    if start < |data| {
      var c := cs[0];
      assert EndsAtFirstCut(data, rule, c);
      FirstCutIsNextEnd(data, rule, start, start + 1, EndOf(c));
      GreedyTail(data, rule, cs, start);
      GreedyIsChunks(data, rule, cs[1..], EndOf(c));
      assert cs == [c] + cs[1..];
    }
  }

  lemma {:induction false} ChunksAreGreedy(data: Bytes, rule: Rule, start: nat)
    requires start <= |data|
    ensures Greedy(data, rule, ChunksFrom(data, rule, start), start)
    decreases |data| - start
  {
    if start < |data| {
      var e := NextEnd(data, rule, start, start + 1);
      NextEndIsFirstCut(data, rule, start, start + 1);
      ChunksAreGreedy(data, rule, e);
      GreedyCons(data, rule, Chunk(start, e - start), ChunksFrom(data, rule, e));
    }
  }

  /** The chunk list is the one greedy tiling of the data. */
  lemma ChunksAreTheGreedyTiling(data: Bytes, rule: Rule, cs: seq<Chunk>)
    ensures Greedy(data, rule, cs, 0) <==> cs == ChunksFrom(data, rule, 0)
  {
    ChunksAreGreedy(data, rule, 0);
    if Greedy(data, rule, cs, 0) {
      GreedyIsChunks(data, rule, cs, 0);
    }
  }

  lemma GreedyTail(data: Bytes, rule: Rule, cs: seq<Chunk>, start: nat)
    requires Greedy(data, rule, cs, start) && cs != []
    ensures Greedy(data, rule, cs[1..], EndOf(cs[0]))
  {
  }

  lemma GreedyCons(data: Bytes, rule: Rule, c: Chunk, tail: seq<Chunk>)
    requires c.length > 0 && EndOf(c) <= |data| && EndsAtFirstCut(data, rule, c)
    requires Greedy(data, rule, tail, EndOf(c))
    ensures Greedy(data, rule, [c] + tail, c.offset)
  {
  }

  /** Every chunk but the last is longer than the minimum; none is longer than both bounds allow. */
  lemma ChunkSizes(data: Bytes, rule: Rule, k: nat)
    requires k < |ChunksFrom(data, rule, 0)|
    ensures var cs := ChunksFrom(data, rule, 0);
            && (k < |cs| - 1 ==> cs[k].length > rule.minSize)
            && cs[k].length <= (if rule.minSize < rule.maxSize then rule.maxSize else rule.minSize + 1)
  {
    var cs := ChunksFrom(data, rule, 0);
    ChunksAreGreedy(data, rule, 0);
    var c := cs[k];
    assert EndsAtFirstCut(data, rule, c);
    if k < |cs| - 1 {
      assert cs[k + 1].offset == EndOf(c) && EndOf(cs[k + 1]) <= |data|;
    }
    var limit := if rule.minSize < rule.maxSize then rule.maxSize else rule.minSize + 1;
    if c.length > limit {
      assert IsCut(data, rule, c.offset, c.offset + limit);
    }
  }

  /** Joining the slices of the data that the chunks name. */
  function Reassemble(data: Bytes, cs: seq<Chunk>): Bytes
    requires forall k | 0 <= k < |cs| :: EndOf(cs[k]) <= |data|
  {
    if cs == [] then []
    else
      var Chunk(offset, length) := cs[0];
      assert offset + length == EndOf(cs[0]);
      data[offset..offset + length] + Reassemble(data, cs[1..])
  }

  lemma {:induction false} ChunksReassemble(data: Bytes, rule: Rule, start: nat)
    requires start <= |data|
    ensures forall k | 0 <= k < |ChunksFrom(data, rule, start)| :: EndOf(ChunksFrom(data, rule, start)[k]) <= |data|
    ensures Reassemble(data, ChunksFrom(data, rule, start)) == data[start..]
    decreases |data| - start
  {
    if start < |data| {
      var e := NextEnd(data, rule, start, start + 1);
      ChunksReassemble(data, rule, e);
      assert ChunksFrom(data, rule, start)[1..] == ChunksFrom(data, rule, e);
      assert data[start..] == data[start..e] + data[e..];
    }
  }

  // ----- Restart at a boundary -----

  function Shift(cs: seq<Chunk>, distance: nat): (r: seq<Chunk>)
    ensures |r| == |cs|
  {
    if cs == [] then [] else [Chunk(cs[0].offset + distance, cs[0].length)] + Shift(cs[1..], distance)
  }

  lemma {:induction false} FingerprintOfSuffix(data: Bytes, rule: Rule, b: nat, lo: nat, hi: nat)
    requires lo <= hi && b + hi <= |data|
    ensures Fingerprint(data, rule, b + lo, b + hi) == Fingerprint(data[b..], rule, lo, hi)
    decreases hi
  {
    if lo < hi {
      FingerprintOfSuffix(data, rule, b, lo, hi - 1);
    }
  }

  lemma CutOfSuffix(data: Bytes, rule: Rule, b: nat, start: nat, end: nat)
    requires start <= end && b + end <= |data|
    ensures IsCut(data, rule, b + start, b + end) == IsCut(data[b..], rule, start, end)
  {
    if end - start > rule.minSize {
      FingerprintOfSuffix(data, rule, b, start + rule.minSize, end);
    }
  }

  lemma {:induction false} NextEndOfSuffix(data: Bytes, rule: Rule, b: nat, start: nat, end: nat)
    requires b <= |data| && start <= end
    ensures NextEnd(data, rule, b + start, b + end) == b + NextEnd(data[b..], rule, start, end)
    decreases if b + end < |data| then |data| - b - end else 0
  {
    if b + end < |data| {
      CutOfSuffix(data, rule, b, start, end);
      if !IsCut(data[b..], rule, start, end) {
        NextEndOfSuffix(data, rule, b, start, end + 1);
      }
    }
  }

  /** Chunking from position b on sees nothing of what lies before b. */
  lemma {:induction false} ChunksOfSuffix(data: Bytes, rule: Rule, b: nat, start: nat)
    requires b + start <= |data|
    ensures ChunksFrom(data, rule, b + start) == Shift(ChunksFrom(data[b..], rule, start), b)
    decreases |data| - b - start
  {
    if b + start < |data| {
      NextEndOfSuffix(data, rule, b, start, start + 1);
      var e := NextEnd(data[b..], rule, start, start + 1);
      ChunksOfSuffix(data, rule, b, e);
    }
  }

  lemma {:induction false} TailFromOffset(data: Bytes, rule: Rule, start: nat, k: nat)
    requires k < |ChunksFrom(data, rule, start)|
    ensures var cs := ChunksFrom(data, rule, start);
            cs[k].offset <= |data| && cs[k..] == ChunksFrom(data, rule, cs[k].offset)
    decreases k
  {
    if k > 0 {
      var e := NextEnd(data, rule, start, start + 1);
      TailFromOffset(data, rule, e, k - 1);
      assert ChunksFrom(data, rule, start)[k..] == ChunksFrom(data, rule, e)[k - 1..];
    }
  }

  /** From any boundary on, the chunks are those of the remaining data on its own. */
  lemma RestartAtBoundary(data: Bytes, rule: Rule, k: nat)
    requires k < |ChunksFrom(data, rule, 0)|
    ensures var cs := ChunksFrom(data, rule, 0);
            var b := cs[k].offset;
            b <= |data| && cs[k..] == Shift(ChunksFrom(data[b..], rule, 0), b)
  {
    TailFromOffset(data, rule, 0, k);
    var b := ChunksFrom(data, rule, 0)[k].offset;
    ChunksOfSuffix(data, rule, b, 0);
  }

  /** Two inputs with a common suffix and a boundary at its start share all later chunks. */
  lemma {:induction false} CommonSuffixSameChunks(p: Bytes, q: Bytes, s: Bytes, rule: Rule, j: nat, k: nat)
    requires j < |ChunksFrom(p + s, rule, 0)| && ChunksFrom(p + s, rule, 0)[j].offset == |p|
    requires k < |ChunksFrom(q + s, rule, 0)| && ChunksFrom(q + s, rule, 0)[k].offset == |q|
    ensures exists common :: && ChunksFrom(p + s, rule, 0)[j..] == Shift(common, |p|)
                             && ChunksFrom(q + s, rule, 0)[k..] == Shift(common, |q|)
  {
    RestartAtBoundary(p + s, rule, j);
    RestartAtBoundary(q + s, rule, k);
    assert (p + s)[|p|..] == s && (q + s)[|q|..] == s;
    var common := ChunksFrom(s, rule, 0);
    assert ChunksFrom(p + s, rule, 0)[j..] == Shift(common, |p|);
  }

  // ----- Stability under append -----

  lemma {:induction false} FingerprintOfPrefix(a: Bytes, b: Bytes, rule: Rule, lo: nat, hi: nat)
    requires lo <= hi <= |a|
    ensures Fingerprint(a + b, rule, lo, hi) == Fingerprint(a, rule, lo, hi)
    decreases hi
  {
    if lo < hi {
      FingerprintOfPrefix(a, b, rule, lo, hi - 1);
    }
  }

  lemma {:induction false} NextEndOfPrefix(a: Bytes, b: Bytes, rule: Rule, start: nat, end: nat)
    requires start <= end
    requires NextEnd(a, rule, start, end) < |a|
    ensures NextEnd(a + b, rule, start, end) == NextEnd(a, rule, start, end)
    decreases if end < |a| then |a| - end else 0
  {
    if end - start > rule.minSize {
      FingerprintOfPrefix(a, b, rule, start + rule.minSize, end);
    }
    if !IsCut(a, rule, start, end) {
      NextEndOfPrefix(a, b, rule, start, end + 1);
    }
  }

  /** Appending data leaves every chunk but the last as it was. */
  lemma {:induction false} StableUnderAppend(a: Bytes, b: Bytes, rule: Rule, start: nat)
    requires start < |a|
    ensures ChunksFrom(a, rule, start) != []
    ensures var cs := ChunksFrom(a, rule, start);
            cs[..|cs| - 1] <= ChunksFrom(a + b, rule, start)
    decreases |a| - start
  {
    var e := NextEnd(a, rule, start, start + 1);
    if e < |a| {
      NextEndOfPrefix(a, b, rule, start, start + 1);
      StableUnderAppend(a, b, rule, e);
      var tail := ChunksFrom(a, rule, e);
      var cs := ChunksFrom(a, rule, start);
      assert cs[..|cs| - 1] == [cs[0]] + tail[..|tail| - 1];
    }
  }

  // ----- Locality -----

  /** The n lowest bits of two hashes agree. */
  ghost predicate Agree(a: nat, b: nat, n: nat) {
    forall k | 0 <= k < n :: Bit(a, k) == Bit(b, k)
  }

  lemma WrappedStep(fp: U64, b: Byte)
    ensures WrappingAdd(WrappingMul(fp, 256), b) == (fp * 256 + b) % TWO_TO_THE_64
  {
  }

  /** Bit k of the next hash depends on bit k - 8 of the current one. */
  lemma RollBit(fp: U64, b: Byte, k: nat)
    requires k < 64
    ensures Bit(Roll(fp, b), k) == ((if k < 8 then Bit(b, k) else Bit(fp, k - 8)) != Bit(0x3DA3358B4DC173, k))
  {
    XorBit(WrappingAdd(WrappingMul(fp, 256), b), POLYNOMIAL, k);
    WrappedStep(fp, b);
    SumBit(fp, b, k);
  }

  lemma SumBit(fp: U64, b: Byte, k: nat)
    requires k < 64
    ensures Bit((fp * 256 + b) % TWO_TO_THE_64, k) == if k < 8 then Bit(b, k) else Bit(fp, k - 8)
  {
    Pow2Values();
    WrapKeepsBit(fp * 256 + b, 64, k);
    ShiftedBit(fp, b, 8, k);
  }

  lemma {:induction false} RollAgrees(x: U64, y: U64, b: Byte, n: nat)
    requires Agree(x, y, n) && n + 8 <= 64
    ensures Agree(Roll(x, b), Roll(y, b), n + 8)
  {
    forall k | 0 <= k < n + 8
      ensures Bit(Roll(x, b), k) == Bit(Roll(y, b), k)
    {
      RollBit(x, b, k);
      RollBit(y, b, k);
    }
  }

  /** After n common bytes the 8n lowest bits of the two hashes agree. */
  lemma {:induction false} CommonBytesAgree(x: Bytes, y: Bytes, rule: Rule, lo: nat, hi: nat, lo': nat, hi': nat,
                                            n: nat)
    requires rule.roll == Roll && n <= 8
    requires lo + n <= hi <= |x| && lo' + n <= hi' <= |y|
    requires x[hi - n..hi] == y[hi' - n..hi']
    ensures Agree(Fingerprint(x, rule, lo, hi), Fingerprint(y, rule, lo', hi'), 8 * n)
    decreases n
  {
    if n > 0 {
      assert x[hi - 1] == x[hi - n..hi][n - 1] == y[hi' - n..hi'][n - 1] == y[hi' - 1];
      assert x[hi - n..hi - 1] == x[hi - n..hi][..n - 1] == y[hi' - n..hi' - 1];
      CommonBytesAgree(x, y, rule, lo, hi - 1, lo', hi' - 1, n - 1);
      RollAgrees(Fingerprint(x, rule, lo, hi - 1), Fingerprint(y, rule, lo', hi' - 1), x[hi - 1], 8 * (n - 1));
    }
  }

  /** The rolling hash of the source forgets everything older than 8 bytes, in any two files. */
  lemma {:induction false} HashIsLocal(x: Bytes, y: Bytes, rule: Rule, lo: nat, hi: nat, lo': nat, hi': nat)
    requires rule.roll == Roll
    requires lo + 8 <= hi <= |x| && lo' + 8 <= hi' <= |y|
    requires x[hi - 8..hi] == y[hi' - 8..hi']
    ensures Fingerprint(x, rule, lo, hi) == Fingerprint(y, rule, lo', hi')
  {
    CommonBytesAgree(x, y, rule, lo, hi, lo', hi', 8);
    Pow2Values();
    EqualByBits(Fingerprint(x, rule, lo, hi), Fingerprint(y, rule, lo', hi'), 64);
  }

  /** Two positions with the same last 8 hashed bytes, short of the size limit, make the same decision. */
  lemma {:induction false} CutDecisionIsLocal(x: Bytes, y: Bytes, cfg: CdcConfig, start: nat, end: nat, start': nat,
                                              end': nat)
    requires ValidConfig(cfg)
    requires start + cfg.minSize + 8 <= end <= |x| && end - start < cfg.maxSize
    requires start' + cfg.minSize + 8 <= end' <= |y| && end' - start' < cfg.maxSize
    requires x[end - 8..end] == y[end' - 8..end']
    ensures IsCut(x, RuleOf(cfg), start, end) == IsCut(y, RuleOf(cfg), start', end')
  {
    HashIsLocal(x, y, RuleOf(cfg), start + cfg.minSize, end, start' + cfg.minSize, end');
  }

  /** The mask test looks at the low bits: as many as the logarithm of the target size. */
  lemma MaskTestsLowBits(cfg: CdcConfig, fp: U64)
    requires ValidConfig(cfg)
    ensures RuleOf(cfg).hit(fp) <==> fp % Pow2(FloorLog2(cfg.targetSize)) == 0
  {
    AndLowMask(fp, FloorLog2(cfg.targetSize));
  }

  // ----- In terms of the configuration -----

  /** The rolling hash of a byte string, begun at zero. */
  function HashOf(bytes: Bytes): U64 {
    if bytes == [] then 0 else Roll(HashOf(bytes[..|bytes| - 1]), bytes[|bytes| - 1])
  }

  lemma {:induction false} FingerprintIsHash(data: Bytes, rule: Rule, lo: nat, hi: nat)
    requires lo <= hi <= |data| && rule.roll == Roll
    ensures Fingerprint(data, rule, lo, hi) == HashOf(data[lo..hi])
    decreases hi
  {
    if lo < hi {
      FingerprintIsHash(data, rule, lo, hi - 1);
      assert data[lo..hi][..hi - lo - 1] == data[lo..hi - 1];
    }
  }

  /**
   A chunk from start may end here: it is longer than the minimum, and the hash of what
   follows its first minSize bytes ends in as many zero bits as the logarithm of the
   target has, or it has the maximal size.
   */
  predicate MayEnd(data: Bytes, cfg: CdcConfig, start: nat, end: nat)
    requires ValidConfig(cfg) && start <= end <= |data|
  {
    && end - start > cfg.minSize
    && (|| HashOf(data[start + cfg.minSize..end]) % Pow2(FloorLog2(cfg.targetSize)) == 0
        || end - start >= cfg.maxSize)
  }

  lemma CutInConfig(data: Bytes, cfg: CdcConfig, start: nat, end: nat)
    requires ValidConfig(cfg) && start <= end <= |data|
    ensures IsCut(data, RuleOf(cfg), start, end) <==> MayEnd(data, cfg, start, end)
  {
    if end - start > cfg.minSize {
      FingerprintIsHash(data, RuleOf(cfg), start + cfg.minSize, end);
      MaskTestsLowBits(cfg, Fingerprint(data, RuleOf(cfg), start + cfg.minSize, end));
    }
  }

  /** The chunk ends where it first may, or with the data. */
  ghost predicate EndsWhereItMay(data: Bytes, cfg: CdcConfig, c: Chunk)
    requires ValidConfig(cfg) && EndOf(c) <= |data|
  {
    && (EndOf(c) < |data| ==> MayEnd(data, cfg, c.offset, EndOf(c)))
    && forall e | c.offset < e < EndOf(c) :: !MayEnd(data, cfg, c.offset, e)
  }

  lemma EndsAlike(data: Bytes, cfg: CdcConfig, c: Chunk)
    requires ValidConfig(cfg) && EndOf(c) <= |data|
    ensures EndsAtFirstCut(data, RuleOf(cfg), c) <==> EndsWhereItMay(data, cfg, c)
  {
    forall e | c.offset <= e <= EndOf(c)
      ensures IsCut(data, RuleOf(cfg), c.offset, e) <==> MayEnd(data, cfg, c.offset, e)
    {
      CutInConfig(data, cfg, c.offset, e);
    }
  }

  /** What the chunker computes, by the configuration alone: the one tiling whose chunks end where they first may. */
  lemma ChunksInConfig(data: Bytes, cfg: CdcConfig, cs: seq<Chunk>)
    requires ValidConfig(cfg)
    ensures cs == ChunksFrom(data, RuleOf(cfg), 0) <==>
            Tiles(data, cs, 0) && forall k | 0 <= k < |cs| :: EndsWhereItMay(data, cfg, cs[k])
  {
    ChunksAreTheGreedyTiling(data, RuleOf(cfg), cs);
    if Tiles(data, cs, 0) {
      forall k | 0 <= k < |cs|
        ensures EndsAtFirstCut(data, RuleOf(cfg), cs[k]) <==> EndsWhereItMay(data, cfg, cs[k])
      {
        EndsAlike(data, cfg, cs[k]);
      }
    }
  }

  /**
   Every chunk but the last is longer than the minimum, and none exceeds the maximum,
   except by one if both are equal.
   */
  lemma SizesInConfig(data: Bytes, cfg: CdcConfig, k: nat)
    requires ValidConfig(cfg) && k < |ChunksFrom(data, RuleOf(cfg), 0)|
    ensures var cs := ChunksFrom(data, RuleOf(cfg), 0);
            && (k < |cs| - 1 ==> cs[k].length > cfg.minSize)
            && cs[k].length <= (if cfg.minSize < cfg.maxSize then cfg.maxSize else cfg.minSize + 1)
  {
    ChunkSizes(data, RuleOf(cfg), k);
  }

  /** Zeros never end a chunk by their hash, which is odd. */
  lemma ZerosMayNotEnd(n: nat, cfg: CdcConfig, start: nat, end: nat)
    requires ValidConfig(cfg) && cfg.targetSize >= 2 && start <= end <= n && end - start < cfg.maxSize
    ensures !MayEnd(Zeros(n), cfg, start, end)
  {
    if end - start > cfg.minSize {
      var hashed := end - start - cfg.minSize;
      assert Zeros(n)[start + cfg.minSize..end] == Zeros(hashed);
      ZerosHashOdd(hashed);
      OddIsNoMultiple(HashOf(Zeros(hashed)), FloorLog2(cfg.targetSize));
    }
  }

  /** So the bound is reached: in a file of zeros every chunk but the last has the maximal size. */
  lemma ZerosReachTheMaximum(n: nat, cfg: CdcConfig, k: nat)
    requires ValidConfig(cfg) && cfg.minSize < cfg.maxSize && cfg.targetSize >= 2
    requires k < |ChunksFrom(Zeros(n), RuleOf(cfg), 0)| - 1
    ensures ChunksFrom(Zeros(n), RuleOf(cfg), 0)[k].length == cfg.maxSize
  {
    var cs := ChunksFrom(Zeros(n), RuleOf(cfg), 0);
    ChunksInConfig(Zeros(n), cfg, cs);
    SizesInConfig(Zeros(n), cfg, k);
    assert cs[k + 1].offset == EndOf(cs[k]) && EndOf(cs[k + 1]) <= n;
    assert EndsWhereItMay(Zeros(n), cfg, cs[k]);
    if cs[k].length < cfg.maxSize {
      ZerosMayNotEnd(n, cfg, cs[k].offset, EndOf(cs[k]));
    }
  }

  function Zeros(n: nat): Bytes {
    seq(n, _ => 0)
  }

  lemma ZerosHashOdd(n: nat)
    requires n > 0
    ensures HashOf(Zeros(n)) % 2 == 1
  {
    assert Zeros(n)[..n - 1] == Zeros(n - 1);
    RollBit(HashOf(Zeros(n - 1)), 0, 0);
  }

  lemma OddIsNoMultiple(a: nat, n: nat)
    requires a % 2 == 1 && n > 0
    ensures a % Pow2(n) != 0
  {
    WrapKeepsBit(a, n, 0);
  }
}
