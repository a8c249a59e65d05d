/** File manifests (block/pointer.rs) and the block-by-block read over them (fs.rs). */
module Manifests {
  import opened Wrappers
  import opened Content

  datatype BlockPointer = BlockPointer(
    rid: Rid,
    messageId: int,
    fileOffset: nat,
    length: nat,
    blockDataOffset: nat,
    encryptedSize: nat,
    compressed: bool,
    contentHash: Hash,
    epoch: nat)

  /** An empty manifest has the all-zero file hash, which is None here. */
  datatype FileManifest = FileManifest(
    inode: nat,
    version: nat,
    totalSize: nat,
    fileHash: Option<Hash>,
    blocks: seq<BlockPointer>)

  function NewManifest(inode: nat): FileManifest {
    FileManifest(inode, 0, 0, None, [])
  }

  function EndOf(bp: BlockPointer): nat {
    bp.fileOffset + bp.length
  }

  // ----- Validation -----

  datatype ManifestError =
    | EmptyButSized
    | FirstNotAtZero
    | Overlap(index: nat)
    | Gap(index: nat)
    | EndMismatch

  function LengthSum(blocks: seq<BlockPointer>): nat {
    if blocks == [] then 0 else LengthSum(blocks[..|blocks| - 1]) + blocks[|blocks| - 1].length
  }

  ghost predicate SumOffsets(blocks: seq<BlockPointer>) {
    forall k | 0 <= k < |blocks| :: blocks[k].fileOffset == LengthSum(blocks[..k])
  }

  /** Every block begins where the lengths before it add up to, and together they make the file. */
  ghost predicate IsTiling(m: FileManifest) {
    && SumOffsets(m.blocks)
    && m.totalSize == LengthSum(m.blocks)
  }

  /** The first n blocks follow each other without gap or overlap from offset 0. */
  ghost predicate Joined(blocks: seq<BlockPointer>, n: nat)
    requires n <= |blocks|
  {
    && (n > 0 ==> blocks[0].fileOffset == 0)
    && forall k | 0 < k < n :: blocks[k].fileOffset == EndOf(blocks[k - 1])
  }

  lemma {:induction false} JoinedSums(blocks: seq<BlockPointer>, n: nat)
    requires n <= |blocks| && Joined(blocks, n)
    ensures forall k | 0 <= k < n :: blocks[k].fileOffset == LengthSum(blocks[..k])
    ensures n > 0 ==> LengthSum(blocks[..n]) == EndOf(blocks[n - 1])
  {
    if n > 0 {
      JoinedSums(blocks, n - 1);
      PrefixSum(blocks, n - 1);
      assert blocks[..0] == [];
    }
  }

  lemma {:induction false} SumsJoin(blocks: seq<BlockPointer>, n: nat)
    requires n <= |blocks|
    requires forall k | 0 <= k < n :: blocks[k].fileOffset == LengthSum(blocks[..k])
    ensures Joined(blocks, n)
  {
    if n > 0 {
      SumsJoin(blocks, n - 1);
      assert blocks[..0] == [];
      if n > 1 {
        PrefixSum(blocks, n - 2);
      }
    }
  }

  lemma PrefixSum(blocks: seq<BlockPointer>, n: nat)
    requires n < |blocks|
    ensures LengthSum(blocks[..n + 1]) == LengthSum(blocks[..n]) + blocks[n].length
  {
    assert blocks[..n + 1][..n] == blocks[..n];
  }

  lemma TilingIsJoined(m: FileManifest)
    ensures IsTiling(m) <==>
            && Joined(m.blocks, |m.blocks|)
            && m.totalSize == if m.blocks == [] then 0 else EndOf(m.blocks[|m.blocks| - 1])
  {
    var n := |m.blocks|;
    assert m.blocks[..n] == m.blocks;
    if Joined(m.blocks, n) {
      JoinedSums(m.blocks, n);
    }
    if IsTiling(m) {
      SumsJoin(m.blocks, n);
      JoinedSums(m.blocks, n);
    }
  }

  /** Block i is the first that does not begin where the one before it ends. */
  ghost predicate BreaksAt(blocks: seq<BlockPointer>, i: nat) {
    0 < i < |blocks| && Joined(blocks, i) && blocks[i].fileOffset != EndOf(blocks[i - 1])
  }

  predicate StartsBefore(blocks: seq<BlockPointer>, i: nat)
    requires 0 < i < |blocks|
  {
    blocks[i].fileOffset < EndOf(blocks[i - 1])
  }

  /** Validation accepts exactly the manifests whose blocks tile the file. */
  method Validate(m: FileManifest) returns (e: Option<ManifestError>)
    ensures e == None <==> IsTiling(m)
    ensures e == Some(EmptyButSized) <==> m.blocks == [] && m.totalSize != 0
    ensures e == Some(FirstNotAtZero) <==> m.blocks != [] && m.blocks[0].fileOffset != 0
    ensures forall i: nat :: e == Some(Overlap(i)) <==> BreaksAt(m.blocks, i) && StartsBefore(m.blocks, i)
    ensures forall i: nat :: e == Some(Gap(i)) <==> BreaksAt(m.blocks, i) && !StartsBefore(m.blocks, i)
    ensures e == Some(EndMismatch) <==>
              && m.blocks != [] && Joined(m.blocks, |m.blocks|)
              && m.totalSize != EndOf(m.blocks[|m.blocks| - 1])
  {
    var n := |m.blocks|;
    assert m.blocks[..n] == m.blocks;
    TilingIsJoined(m);
    if n == 0 {
      if m.totalSize != 0 {
        return Some(EmptyButSized);
      }
      return None;
    }
    if m.blocks[0].fileOffset != 0 {
      return Some(FirstNotAtZero);
    }
    for i := 1 to n
      invariant Joined(m.blocks, i)
    {
      var prevEnd := m.blocks[i - 1].fileOffset + m.blocks[i - 1].length;
      var currStart := m.blocks[i].fileOffset;
      if currStart < prevEnd {
        return Some(Overlap(i));
      }
      if currStart > prevEnd {
        return Some(Gap(i));
      }
    }
    var last := m.blocks[n - 1];
    if last.fileOffset + last.length != m.totalSize {
      return Some(EndMismatch);
    }
    return None;
  }

  // ----- Blocks in a range -----

  predicate Overlaps(bp: BlockPointer, offset: nat, length: nat) {
    bp.fileOffset < offset + length && EndOf(bp) > offset
  }

  function BlocksInRange(blocks: seq<BlockPointer>, offset: nat, length: nat): seq<BlockPointer> {
    if blocks == [] then []
    else
      var front := BlocksInRange(blocks[..|blocks| - 1], offset, length);
      var bp := blocks[|blocks| - 1];
      if Overlaps(bp, offset, length) then front + [bp] else front
  }

  lemma {:induction false} SumsGrow(blocks: seq<BlockPointer>, i: nat, j: nat)
    requires i <= j <= |blocks|
    ensures LengthSum(blocks[..i]) <= LengthSum(blocks[..j])
    ensures forall k | i <= k < j :: LengthSum(blocks[..i]) + blocks[k].length <= LengthSum(blocks[..j])
    decreases j
  {
    if i < j {
      SumsGrow(blocks, i, j - 1);
      PrefixSum(blocks, j - 1);
    }
  }

  /** Blocks in order, none beginning before an earlier one ends. */
  ghost predicate InOrder(blocks: seq<BlockPointer>) {
    forall i, j | 0 <= i < j < |blocks| :: EndOf(blocks[i]) <= blocks[j].fileOffset
  }

  lemma TilingIsInOrder(blocks: seq<BlockPointer>)
    requires SumOffsets(blocks)
    ensures InOrder(blocks)
  {
    forall i, j | 0 <= i < j < |blocks|
      ensures EndOf(blocks[i]) <= blocks[j].fileOffset
    {
      SumsGrow(blocks, i, j);
    }
  }

  /** The blocks that overlap a range are one contiguous run of a tiling. */
  lemma {:induction false} RangeIsARun(blocks: seq<BlockPointer>, offset: nat, length: nat, n: nat)
    returns (i: nat, j: nat)
    requires n <= |blocks| && InOrder(blocks)
    ensures i <= j <= n && BlocksInRange(blocks[..n], offset, length) == blocks[i..j]
    ensures forall k | 0 <= k < n :: Overlaps(blocks[k], offset, length) <==> i <= k < j
  {
    if n == 0 {
      i, j := 0, 0;
    } else {
      var i', j' := RangeIsARun(blocks, offset, length, n - 1);
      RangeOfPrefix(blocks, offset, length, n);
      if !Overlaps(blocks[n - 1], offset, length) {
        i, j := i', j';
      } else if i' == j' {
        i, j := n - 1, n;
      } else {
        RunReachesLast(blocks, offset, length, j', n);
        i, j := i', n;
      }
    }
  }

  lemma RangeOfPrefix(blocks: seq<BlockPointer>, offset: nat, length: nat, n: nat)
    requires 0 < n <= |blocks|
    ensures BlocksInRange(blocks[..n], offset, length) ==
            BlocksInRange(blocks[..n - 1], offset, length)
              + (if Overlaps(blocks[n - 1], offset, length) then [blocks[n - 1]] else [])
  {
    assert blocks[..n][..n - 1] == blocks[..n - 1];
  }

  lemma RunReachesLast(blocks: seq<BlockPointer>, offset: nat, length: nat, j: nat, n: nat)
    requires InOrder(blocks) && 0 < j < n <= |blocks|
    requires Overlaps(blocks[j - 1], offset, length) && Overlaps(blocks[n - 1], offset, length)
    requires j < n - 1 ==> !Overlaps(blocks[j], offset, length)
    ensures j == n - 1
  {
  }

  predicate InBlock(bp: BlockPointer, p: nat) {
    bp.fileOffset <= p < EndOf(bp)
  }

  ghost predicate Covered(blocks: seq<BlockPointer>, p: nat) {
    exists k | 0 <= k < |blocks| :: InBlock(blocks[k], p)
  }

  /** Every byte of the file lies in a block. */
  lemma {:induction false} FileIsCovered(blocks: seq<BlockPointer>, p: nat, n: nat) returns (k: nat)
    requires n <= |blocks| && SumOffsets(blocks)
    requires p < LengthSum(blocks[..n])
    ensures k < n && InBlock(blocks[k], p)
  {
    PrefixSum(blocks, n - 1);
    if p < LengthSum(blocks[..n - 1]) {
      k := FileIsCovered(blocks, p, n - 1);
    } else {
      k := n - 1;
    }
  }

  /** Some byte of the range lies in the block. */
  ghost predicate Shares(bp: BlockPointer, offset: nat, length: nat) {
    exists p | offset <= p < offset + length :: InBlock(bp, p)
  }

  /** In range: a block that shares a byte with it. An empty block or range has to lie strictly inside the other. */
  lemma OverlapsIff(bp: BlockPointer, offset: nat, length: nat)
    ensures bp.length > 0 && length > 0 ==> (Overlaps(bp, offset, length) <==> Shares(bp, offset, length))
    ensures bp.length == 0 ==> (Overlaps(bp, offset, length) <==> offset < bp.fileOffset < offset + length)
    ensures length == 0 ==> (Overlaps(bp, offset, length) <==> bp.fileOffset < offset < bp.fileOffset + bp.length)
  {
    if bp.length > 0 && length > 0 {
      var first := if offset < bp.fileOffset then bp.fileOffset else offset;
      assert Overlaps(bp, offset, length) ==> InBlock(bp, first) && offset <= first < offset + length;
    }
  }

  /** On a valid manifest the range lookup returns one run of blocks that covers the range within the file. */
  lemma BlocksInRangeIsExact(m: FileManifest, offset: nat, length: nat) returns (i: nat, j: nat)
    requires IsTiling(m)
    ensures i <= j <= |m.blocks| && BlocksInRange(m.blocks, offset, length) == m.blocks[i..j]
    ensures forall k | 0 <= k < |m.blocks| :: Overlaps(m.blocks[k], offset, length) <==> i <= k < j
    ensures forall p | offset <= p < offset + length && p < m.totalSize :: Covered(m.blocks[i..j], p)
    ensures forall k | 0 <= k < |m.blocks| && m.blocks[k].length > 0 && length > 0 ::
              Shares(m.blocks[k], offset, length) <==> i <= k < j
  {
    var n := |m.blocks|;
    assert m.blocks[..n] == m.blocks;
    TilingIsInOrder(m.blocks);
    i, j := RangeIsARun(m.blocks, offset, length, n);
    forall k | 0 <= k < |m.blocks| && m.blocks[k].length > 0 && length > 0
      ensures Shares(m.blocks[k], offset, length) <==> i <= k < j
    {
      OverlapsIff(m.blocks[k], offset, length);
    }
    forall p | offset <= p < offset + length && p < m.totalSize
      ensures Covered(m.blocks[i..j], p)
    {
      var k := FileIsCovered(m.blocks, p, n);
      assert Overlaps(m.blocks[k], offset, length);
      assert InBlock(m.blocks[i..j][k - i], p);
    }
  }

  // ----- Reading -----

  /** The buffer with a part of a block written over its bytes from `at` on. */
  function Splice(buf: Data, at: nat, part: Data): (r: Data)
    requires at + |part| <= |buf|
    ensures |r| == |buf|
  {
    buf[..at] + part + buf[at + |part|..]
  }

  function ReadStart(bp: BlockPointer, offset: nat): nat {
    if offset < bp.fileOffset then bp.fileOffset else offset
  }

  function ReadEnd(bp: BlockPointer, offset: nat, size: nat): nat {
    if offset + size < EndOf(bp) then offset + size else EndOf(bp)
  }

  /** Copies only what both the block's bytes and the buffer have room for. */
  function CopyRange(buf: Data, data: Data, srcOff: nat, dstOff: nat, copyLen: nat): (r: Data)
    ensures |r| == |buf|
  {
    if srcOff + copyLen <= |data| && dstOff + copyLen <= |buf| then Splice(buf, dstOff, data[srcOff..srcOff + copyLen])
    else buf
  }

  /** The body of the read loop: the part of one block's bytes that falls in the range, copied in place. */
  function CopyBlock(buf: Data, bp: BlockPointer, data: Data, offset: nat, size: nat): (r: Data)
    ensures |r| == |buf|
  {
    var readStart, readEnd := ReadStart(bp, offset), ReadEnd(bp, offset, size);
    if readStart < readEnd then CopyRange(buf, data, readStart - bp.fileOffset, readStart - offset, readEnd - readStart)
    else buf
  }

  /** The read loop over the blocks in range, given the bytes each download yields. */
  function Assemble(blocks: seq<BlockPointer>, fetch: BlockPointer -> Data, offset: nat, size: nat): (buf: Data)
    ensures |buf| == size
  {
    if blocks == [] then seq(size, _ => 0)
    else
      var bp := blocks[|blocks| - 1];
      CopyBlock(Assemble(blocks[..|blocks| - 1], fetch, offset, size), bp, fetch(bp), offset, size)
  }

  /** The file that a list of blocks stands for. */
  function Flat(blocks: seq<BlockPointer>, fetch: BlockPointer -> Data): Data {
    if blocks == [] then []
    else
      Flat(blocks[..|blocks| - 1], fetch) + fetch(blocks[|blocks| - 1])
  }

  ghost predicate FullBlocks(blocks: seq<BlockPointer>, fetch: BlockPointer -> Data) {
    forall k | 0 <= k < |blocks| :: |fetch(blocks[k])| == blocks[k].length
  }

  lemma {:induction false} FlatLength(blocks: seq<BlockPointer>, fetch: BlockPointer -> Data)
    requires FullBlocks(blocks, fetch)
    ensures |Flat(blocks, fetch)| == LengthSum(blocks)
  {
    if blocks != [] {
      FlatLength(blocks[..|blocks| - 1], fetch);
    }
  }

  /** Byte q of the buffer: the file's byte at that position, or zero past the file. */
  ghost predicate HoldsSlice(buf: Data, file: Data, offset: nat) {
    forall q | 0 <= q < |buf| :: buf[q] == if offset + q < |file| then file[offset + q] else 0
  }

  lemma CopyExtends(buf: Data, file: Data, bp: BlockPointer, data: Data, offset: nat, size: nat)
    requires |buf| == size && HoldsSlice(buf, file, offset)
    requires bp.fileOffset == |file| && |data| == bp.length
    ensures HoldsSlice(CopyBlock(buf, bp, data, offset, size), file + data, offset)
  {
    var r := CopyBlock(buf, bp, data, offset, size);
    forall q | 0 <= q < size
      ensures r[q] == if offset + q < |file + data| then (file + data)[offset + q] else 0
    {
      CopiedByte(buf, bp, data, offset, size, q);
    }
  }

  /** Byte q after the copy: the block's byte where the block covers that position. */
  lemma CopiedByte(buf: Data, bp: BlockPointer, data: Data, offset: nat, size: nat, q: nat)
    requires |buf| == size && |data| == bp.length && q < size
    ensures CopyBlock(buf, bp, data, offset, size)[q] ==
            if InBlock(bp, offset + q) then data[offset + q - bp.fileOffset] else buf[q]
  {
    var readStart, readEnd := ReadStart(bp, offset), ReadEnd(bp, offset, size);
    if readStart < readEnd {
      var srcOff, dstOff, copyLen := readStart - bp.fileOffset, readStart - offset, readEnd - readStart;
      assert CopyBlock(buf, bp, data, offset, size) == CopyRange(buf, data, srcOff, dstOff, copyLen);
      CopiedRange(buf, data, srcOff, dstOff, copyLen, q);
      assert srcOff + (q - dstOff) == offset + q - bp.fileOffset;
    } else {
      assert CopyBlock(buf, bp, data, offset, size) == buf;
    }
  }

  lemma CopiedRange(buf: Data, data: Data, srcOff: nat, dstOff: nat, copyLen: nat, q: nat)
    requires srcOff + copyLen <= |data| && dstOff + copyLen <= |buf| && q < |buf|
    ensures CopyRange(buf, data, srcOff, dstOff, copyLen)[q]
            == if dstOff <= q < dstOff + copyLen then data[srcOff + (q - dstOff)] else buf[q]
  {
    var part := data[srcOff..srcOff + copyLen];
    assert |part| == copyLen;
    if dstOff <= q < dstOff + copyLen {
      assert part[q - dstOff] == data[srcOff + (q - dstOff)];
    }
  }

  /** A download with fewer bytes than the pointer promises leaves the buffer as it is, and the loop goes on. */
  lemma ShortBlockIsSkipped(buf: Data, bp: BlockPointer, data: Data, offset: nat, size: nat)
    requires |data| < bp.length && bp.fileOffset + |data| < offset + size
    ensures CopyBlock(buf, bp, data, offset, size) == buf
  {
    var readStart, readEnd := ReadStart(bp, offset), ReadEnd(bp, offset, size);
    assert readEnd - bp.fileOffset > |data|;
  }

  lemma SkipKeeps(buf: Data, bp: BlockPointer, data: Data, offset: nat, size: nat)
    requires !Overlaps(bp, offset, size)
    ensures CopyBlock(buf, bp, data, offset, size) == buf
  {
  }

  /** Reading block by block fills the buffer with the flat file, padded with zeros past its end. */
  lemma {:induction false} AssembleHoldsSlice(blocks: seq<BlockPointer>, fetch: BlockPointer -> Data, offset: nat,
                                              size: nat)
    requires FullBlocks(blocks, fetch)
    requires SumOffsets(blocks)
    ensures HoldsSlice(Assemble(BlocksInRange(blocks, offset, size), fetch, offset, size), Flat(blocks, fetch), offset)
  {
    if blocks != [] {
      var front, bp := blocks[..|blocks| - 1], blocks[|blocks| - 1];
      assert forall k | 0 <= k < |front| :: front[..k] == blocks[..k];
      AssembleHoldsSlice(front, fetch, offset, size);
      FlatLength(front, fetch);
      var needed := BlocksInRange(front, offset, size);
      var buf := Assemble(needed, fetch, offset, size);
      CopyExtends(buf, Flat(front, fetch), bp, fetch(bp), offset, size);
      if Overlaps(bp, offset, size) {
        assert (needed + [bp])[..|needed|] == needed;
      } else {
        SkipKeeps(buf, bp, fetch(bp), offset, size);
      }
    }
  }

  function Slice(file: Data, offset: nat, size: nat): Data {
    if offset >= |file| then []
    else if offset + size < |file| then file[offset..offset + size]
    else file[offset..]
  }

  /** What the read handler replies with, given the blocks in range and the size recorded in the inode. */
  function ReplyBytes(needed: seq<BlockPointer>, fetch: BlockPointer -> Data, offset: nat, size: nat,
                      inodeSize: nat): Data
  {
    if needed == [] then []
    else
      var left := if inodeSize < offset then 0 else inodeSize - offset;
      Assemble(needed, fetch, offset, size)[..if size < left then size else left]
  }

  /** The range is empty or past the file, or the recorded size does not cut it or stretch it. */
  predicate Serves(total: nat, inodeSize: nat, offset: nat, size: nat) {
    || offset >= total || size == 0 || inodeSize == total
    || (offset + size <= inodeSize && offset + size <= total)
  }

  /** Reading by blocks equals slicing the flat file for exactly the ranges that the recorded size serves. */
  lemma BlockReadIsSliceIff(m: FileManifest, fetch: BlockPointer -> Data, offset: nat, size: nat, inodeSize: nat)
    requires IsTiling(m) && FullBlocks(m.blocks, fetch)
    ensures (ReplyBytes(BlocksInRange(m.blocks, offset, size), fetch, offset, size, inodeSize)
             == Slice(Flat(m.blocks, fetch), offset, size))
            <==> Serves(m.totalSize, inodeSize, offset, size)
  {
    var needed := BlocksInRange(m.blocks, offset, size);
    var buf := Assemble(needed, fetch, offset, size);
    var file := Flat(m.blocks, fetch);
    AssembleHoldsSlice(m.blocks, fetch, offset, size);
    FlatLength(m.blocks, fetch);
    var i, j := BlocksInRangeIsExact(m, offset, size);
    if offset < m.totalSize && size > 0 {
      assert Covered(m.blocks[i..j], offset);
      PrefixIsSliceIff(buf, file, offset, inodeSize);
    } else {
      PastTheFile(m, fetch, i, j, offset, size, inodeSize);
    }
  }

  lemma EndsWithin(m: FileManifest, k: nat)
    requires IsTiling(m) && k < |m.blocks|
    ensures EndOf(m.blocks[k]) <= m.totalSize
  {
    assert m.blocks[..|m.blocks|] == m.blocks;
    SumsGrow(m.blocks, k, |m.blocks|);
  }

  /** Nothing is asked for, or no block is in range. */
  lemma PastTheFile(m: FileManifest, fetch: BlockPointer -> Data, i: nat, j: nat, offset: nat, size: nat,
                    inodeSize: nat)
    requires IsTiling(m) && (offset >= m.totalSize || size == 0)
    requires i <= j <= |m.blocks| && BlocksInRange(m.blocks, offset, size) == m.blocks[i..j]
    requires forall k | 0 <= k < |m.blocks| :: Overlaps(m.blocks[k], offset, size) <==> i <= k < j
    requires |Flat(m.blocks, fetch)| == m.totalSize
    ensures ReplyBytes(BlocksInRange(m.blocks, offset, size), fetch, offset, size, inodeSize) == []
    ensures Slice(Flat(m.blocks, fetch), offset, size) == []
  {
    if i < j {
      EndsWithin(m, i);
      assert Overlaps(m.blocks[i], offset, size);
    }
    NothingToRead(Assemble(m.blocks[i..j], fetch, offset, size), Flat(m.blocks, fetch), offset);
  }

  lemma NothingToRead(buf: Data, file: Data, offset: nat)
    requires offset >= |file| || |buf| == 0
    ensures buf[..0] == [] && Slice(file, offset, |buf|) == []
  {
  }

  lemma PrefixIsSliceIff(buf: Data, file: Data, offset: nat, inodeSize: nat)
    requires HoldsSlice(buf, file, offset) && offset < |file| && |buf| > 0
    ensures var left := if inodeSize < offset then 0 else inodeSize - offset;
            (buf[..if |buf| < left then |buf| else left] == Slice(file, offset, |buf|))
            <==> Serves(|file|, inodeSize, offset, |buf|)
  {
    var left := if inodeSize < offset then 0 else inodeSize - offset;
    var bytes := buf[..if |buf| < left then |buf| else left];
    var slice := Slice(file, offset, |buf|);
    assert |slice| == if offset + |buf| < |file| then |buf| else |file| - offset;
    assert |bytes| == |slice| <==> Serves(|file|, inodeSize, offset, |buf|);
  }
}
