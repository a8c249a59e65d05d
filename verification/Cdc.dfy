/**
 Content-defined chunking (block/cdc.rs): the loop over a wrapping 64-bit
 rolling hash, and the greedy chunk list that it computes.
 */
module Cdc {
  import opened Wrappers
  import opened Bits

  const POLYNOMIAL: U64 := 0x3DA3358B4DC173
  const WINDOW_SIZE: nat := 48

  datatype CdcConfig = CdcConfig(minSize: U64, maxSize: U64, targetSize: U64)

  datatype Chunk = Chunk(offset: nat, length: nat)

  datatype ChunkError = ZeroSize | MinAboveMax | TargetOutOfRange

  predicate ValidConfig(cfg: CdcConfig) {
    0 < cfg.minSize <= cfg.targetSize <= cfg.maxSize
  }

  // ----- The mask -----

  /** The integer logarithm that the floating-point expression of the source stands for. */
  function FloorLog2(n: nat): (bits: nat)
    requires 0 < n
    ensures Pow2(bits) <= n < Pow2(bits + 1)
  {
    if n == 1 then 0 else FloorLog2(n / 2) + 1
  }

  /** FloorLog2(target) one-bits: below 2^64, so the shift and the subtraction do not wrap. */
  function MaskFromTarget(target: U64): (mask: U64)
    requires 0 < target
  {
    Pow2Values();
    Pow2(FloorLog2(target)) - 1
  }

  // ----- Wrapping arithmetic and the rolling hash -----

  function WrappingMul(a: U64, b: U64): U64 {
    (a * b) % TWO_TO_THE_64
  }

  function WrappingAdd(a: U64, b: U64): U64 {
    (a + b) % TWO_TO_THE_64
  }

  function WrappingSub(a: U64, b: U64): U64 {
    (a - b) % TWO_TO_THE_64
  }

  function Power(base: U64, exp: nat): U64 {
    if exp == 0 then 1 else WrappingMul(Power(base, exp - 1), base)
  }

  method PowMod(base: U64, exp: nat) returns (result: U64)
    ensures result == Power(base, exp)
  {
    result := 1;
    for i := 0 to exp
      invariant result == Power(base, i)
    {
      result := WrappingMul(result, base);
    }
  }

  /** The weight of the outgoing byte wraps to zero: the window never subtracts anything. */
  lemma {:induction false} OutgoingWeightVanishes(n: nat)
    requires n >= 8
    ensures Power(256, n) == 0
  {
    if n == 8 {
      assert Power(256, 4) == 0x1_0000_0000;
    } else {
      OutgoingWeightVanishes(n - 1);
    }
  }

  function XorWord(a: U64, b: U64): U64 {
    Pow2Values();
    BitwiseFits(a, b, 64);
    Xor(a, b)
  }

  /** One update of the rolling hash, with the vanishing term left out. */
  function Roll(fp: U64, b: Byte): U64 {
    XorWord(WrappingAdd(WrappingMul(fp, 256), b), POLYNOMIAL)
  }

  // ----- The greedy chunk list, for any hash step -----

  /** What the cutting loop depends on: the size bounds, the hash step, and which hashes end a chunk. */
  datatype Rule = Rule(minSize: nat, maxSize: nat, roll: (U64, Byte) -> U64, hit: U64 -> bool)

  function RuleOf(cfg: CdcConfig): (rule: Rule)
    requires ValidConfig(cfg)
  {
    var mask := MaskFromTarget(cfg.targetSize);
    Rule(cfg.minSize, cfg.maxSize, Roll, (fp: U64) => And(fp, mask) == 0)
  }

  /** The rule whose hash step is the rolling hash and whose hits are decided by the mask. */
  ghost predicate Follows(rule: Rule, minSize: nat, maxSize: nat, mask: U64) {
    && rule.minSize == minSize
    && rule.maxSize == maxSize
    && rule.roll == Roll
    && forall fp: U64 :: rule.hit(fp) <==> And(fp, mask) == 0
  }

  /** The hash of data[lo..hi], started at zero. */
  function Fingerprint(data: Bytes, rule: Rule, lo: nat, hi: nat): U64
    requires lo <= hi <= |data|
    decreases hi
  {
    if lo == hi then 0 else rule.roll(Fingerprint(data, rule, lo, hi - 1), data[hi - 1])
  }

  /** A chunk begun at start may be cut at end. */
  predicate IsCut(data: Bytes, rule: Rule, start: nat, end: nat)
    requires start <= end <= |data|
  {
    && end - start > rule.minSize
    && (rule.hit(Fingerprint(data, rule, start + rule.minSize, end)) || end - start >= rule.maxSize)
  }

  /** The least cut from end onward, or the end of the data. */
  function NextEnd(data: Bytes, rule: Rule, start: nat, end: nat): (e: nat)
    requires start <= end
    ensures e <= |data| && (end <= |data| ==> end <= e)
    decreases if end < |data| then |data| - end else 0
  {
    if end >= |data| then |data|
    else if IsCut(data, rule, start, end) then end
    else NextEnd(data, rule, start, end + 1)
  }

  function ChunksFrom(data: Bytes, rule: Rule, start: nat): (cs: seq<Chunk>)
    decreases if start < |data| then |data| - start else 0
  {
    if start >= |data| then []
    else
      var e := NextEnd(data, rule, start, start + 1);
      [Chunk(start, e - start)] + ChunksFrom(data, rule, e)
  }

  // ----- The loop of the source -----

  /** The hash update of the loop body, outgoing byte included. */
  method UpdateHash(data: Bytes, i: nat, fp: U64, ghost rule: Rule) returns (fingerprint: U64)
    requires i < |data| && rule.roll == Roll
    ensures fingerprint == rule.roll(fp, data[i])
  {
    fingerprint := WrappingAdd(WrappingMul(fp, 256), data[i]);
    if i >= WINDOW_SIZE {
      var weight := PowMod(256, WINDOW_SIZE);
      OutgoingWeightVanishes(WINDOW_SIZE);
      SubtractsNothing(fingerprint, data[i - WINDOW_SIZE], weight);
      fingerprint := WrappingSub(fingerprint, WrappingMul(data[i - WINDOW_SIZE], weight));
    }
    fingerprint := XorWord(fingerprint, POLYNOMIAL);
  }

  lemma SubtractsNothing(fp: U64, b: Byte, weight: U64)
    requires weight == 0
    ensures WrappingSub(fp, WrappingMul(b, weight)) == fp
  {
  }

  /** No prefix up to the minimum size is a cut. */
  lemma {:induction false} SkipMinimum(data: Bytes, rule: Rule, start: nat, end: nat)
    requires start + 1 <= end <= start + rule.minSize + 1
    ensures NextEnd(data, rule, start, start + 1) == NextEnd(data, rule, start, end)
  {
    if end > start + 1 {
      SkipMinimum(data, rule, start, end - 1);
    }
  }

  /** Between two hash updates: done lies before start, and no cut of the open chunk comes before i. */
  ghost predicate Scanning(data: Bytes, rule: Rule, done: seq<Chunk>, start: nat, i: nat, fp: U64) {
    && start <= |data|
    && start + rule.minSize <= i
    && (i <= |data| ==> fp == Fingerprint(data, rule, start + rule.minSize, i))
    && NextEnd(data, rule, start, start + 1) == NextEnd(data, rule, start, i + 1)
    && done + ChunksFrom(data, rule, start) == ChunksFrom(data, rule, 0)
  }

  lemma StartScan(data: Bytes, rule: Rule, done: seq<Chunk>, start: nat)
    requires start <= |data|
    requires done + ChunksFrom(data, rule, start) == ChunksFrom(data, rule, 0)
    ensures Scanning(data, rule, done, start, start + rule.minSize, 0)
  {
    SkipMinimum(data, rule, start, start + rule.minSize + 1);
  }

  /** What hashing one more byte decides. */
  lemma ScanStep(data: Bytes, rule: Rule, done: seq<Chunk>, start: nat, i: nat, fp: U64)
    requires i < |data|
    requires Scanning(data, rule, done, start, i, fp)
    ensures
      var fp' := rule.roll(fp, data[i]);
      if rule.hit(fp') || i - start + 1 >= rule.maxSize
      then Scanning(data, rule, done + [Chunk(start, i - start + 1)], i + 1, i + 1 + rule.minSize, 0)
      else Scanning(data, rule, done, start, i + 1, fp')
  {
    var fp' := rule.roll(fp, data[i]);
    assert fp' == Fingerprint(data, rule, start + rule.minSize, i + 1);
    if rule.hit(fp') || i - start + 1 >= rule.maxSize {
      var c := Chunk(start, i - start + 1);
      assert ChunksFrom(data, rule, start) == [c] + ChunksFrom(data, rule, i + 1);
      Regroup(done, c, ChunksFrom(data, rule, i + 1));
      StartScan(data, rule, done + [c], i + 1);
    } else if i + 1 == |data| {
      assert NextEnd(data, rule, start, i + 1) == |data|;
    } else {
      assert !IsCut(data, rule, start, i + 1);
    }
  }

  lemma EndScan(data: Bytes, rule: Rule, done: seq<Chunk>, start: nat, i: nat, fp: U64)
    requires i >= |data|
    requires Scanning(data, rule, done, start, i, fp)
    ensures ChunksFrom(data, rule, 0) == if start < |data| then done + [Chunk(start, |data| - start)] else done
  {
    assert ChunksFrom(data, rule, |data|) == [];
    if start < |data| {
      assert NextEnd(data, rule, start, i + 1) == |data|;
      assert ChunksFrom(data, rule, start) == [Chunk(start, |data| - start)];
    } else {
      assert done + [] == done;
    }
  }

  lemma Regroup(done: seq<Chunk>, c: Chunk, tail: seq<Chunk>)
    ensures done + ([c] + tail) == (done + [c]) + tail
  {
  }

  /** The chunking loop. */
  method CutLoop(data: Bytes, minSize: nat, maxSize: nat, mask: U64, ghost rule: Rule) returns (chunks: seq<Chunk>)
    requires Follows(rule, minSize, maxSize, mask)
    ensures chunks == ChunksFrom(data, rule, 0)
  {
    chunks := [];
    var chunkStart: nat := 0;
    var fingerprint: U64 := 0;
    var i: nat := chunkStart + minSize;
    StartScan(data, rule, [], 0);
    while i < |data|
      invariant Scanning(data, rule, chunks, chunkStart, i, fingerprint)
      decreases |data| - chunkStart, if i < |data| then |data| - i else 0
    {
      ScanStep(data, rule, chunks, chunkStart, i, fingerprint);
      fingerprint := UpdateHash(data, i, fingerprint, rule);
      var chunkLen := i - chunkStart + 1;
      if And(fingerprint, mask) == 0 || chunkLen >= maxSize {
        chunks := chunks + [Chunk(chunkStart, chunkLen)];
        chunkStart := i + 1;
        fingerprint := 0;
        i := chunkStart + minSize;
        continue;
      }
      i := i + 1;
    }
    EndScan(data, rule, chunks, chunkStart, i, fingerprint);
    if chunkStart < |data| {
      chunks := chunks + [Chunk(chunkStart, |data| - chunkStart)];
    }
  }

  /** The chunker of the source computes the greedy chunk list. */
  method ComputeChunks(data: Bytes, cfg: CdcConfig) returns (r: Result<seq<Chunk>, ChunkError>)
    ensures r.Success? <==> ValidConfig(cfg)
    ensures r.Success? ==> r.value == ChunksFrom(data, RuleOf(cfg), 0)
    ensures r == Failure(ZeroSize) <==> cfg.minSize == 0 || cfg.maxSize == 0 || cfg.targetSize == 0
    ensures r == Failure(MinAboveMax) <==> 0 < cfg.maxSize < cfg.minSize && 0 < cfg.targetSize
    ensures r == Failure(TargetOutOfRange) <==>
              0 < cfg.minSize <= cfg.maxSize && 0 < cfg.targetSize && !(cfg.minSize <= cfg.targetSize <= cfg.maxSize)
  {
    if cfg.minSize == 0 || cfg.maxSize == 0 || cfg.targetSize == 0 {
      return Failure(ZeroSize);
    }
    if cfg.minSize > cfg.maxSize {
      return Failure(MinAboveMax);
    }
    if cfg.targetSize < cfg.minSize || cfg.targetSize > cfg.maxSize {
      return Failure(TargetOutOfRange);
    }
    if |data| == 0 {
      return Success([]);
    }
    if |data| <= cfg.minSize {
      StartScan(data, RuleOf(cfg), [], 0);
      return Success([Chunk(0, |data|)]);
    }
    var chunks := CutLoop(data, cfg.minSize, cfg.maxSize, MaskFromTarget(cfg.targetSize), RuleOf(cfg));
    return Success(chunks);
  }
}
