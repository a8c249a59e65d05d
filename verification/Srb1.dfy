/**
 The SRB1 block format (block/srb1.rs) over an ideal authenticated cipher: the
 cipher remembers what it sealed and opens nothing else.
 */
module Srb1 {
  import opened Wrappers
  import opened Bits

  const SRB1_MAGIC: Bytes := [0x53, 0x52, 0x42, 0x31]
  const SRB1_VERSION: Byte := 1
  const HEADER_SIZE: nat := 46
  const FLAG_COMPRESSED: Byte := 0x01
  const NONCE_SIZE: nat := 24
  const TAG_SIZE: nat := 16

  type Key = Bytes
  type ContentHash = h: Bytes | |h| == 32 witness seq(32, _ => 0)

  // ----- The ideal cipher -----

  /** One encryption: the ciphertext includes nonce and tag. */
  datatype Sealing = Sealing(key: Key, plaintext: Bytes, aad: Bytes, ciphertext: Bytes)

  ghost predicate IdealLedger(ledger: set<Sealing>) {
    && (forall s | s in ledger :: |s.ciphertext| == NONCE_SIZE + |s.plaintext| + TAG_SIZE)
    && (forall s, t | s in ledger && t in ledger ::
          s.key == t.key && s.aad == t.aad && s.ciphertext == t.ciphertext ==> s.plaintext == t.plaintext)
  }

  predicate Opens(ledger: set<Sealing>, key: Key, ciphertext: Bytes, aad: Bytes) {
    exists s | s in ledger :: s.key == key && s.aad == aad && s.ciphertext == ciphertext
  }

  ghost function Open(ledger: set<Sealing>, key: Key, ciphertext: Bytes, aad: Bytes): Option<Bytes> {
    if Opens(ledger, key, ciphertext, aad) then
      var s :| s in ledger && s.key == key && s.aad == aad && s.ciphertext == ciphertext;
      Some(s.plaintext)
    else None
  }

  class Cipher {
    var ledger: set<Sealing>

    constructor ()
      ensures ledger == {} && IdealLedger(ledger)
    {
      ledger := {};
    }

    /** Seals with the given fresh output, which no other plaintext has under this key and aad. */
    method Encrypt(key: Key, plaintext: Bytes, aad: Bytes, output: Bytes) returns (ciphertext: Bytes)
      requires IdealLedger(ledger + {Sealing(key, plaintext, aad, output)})
      modifies this
      ensures ciphertext == output
      ensures ledger == old(ledger) + {Sealing(key, plaintext, aad, output)}
    {
      ledger := ledger + {Sealing(key, plaintext, aad, output)};
      ciphertext := output;
    }

    method Decrypt(key: Key, ciphertext: Bytes, aad: Bytes) returns (r: Option<Bytes>)
      requires IdealLedger(ledger)
      ensures r == Open(ledger, key, ciphertext, aad)
    {
      if Opens(ledger, key, ciphertext, aad) {
        var s :| s in ledger && s.key == key && s.aad == aad && s.ciphertext == ciphertext;
        return Some(s.plaintext);
      }
      return None;
    }
  }

  // ----- Framing -----

  const BYTE: nat := 0x100

  function LittleEndian(n: U32): (b: Bytes)
    ensures |b| == 4
  {
    [n % BYTE, n / BYTE % BYTE, n / BYTE / BYTE % BYTE, n / BYTE / BYTE / BYTE]
  }

  function FromLittleEndian(b: Bytes): (n: U32)
    requires |b| == 4
  {
    b[0] + BYTE * (b[1] + BYTE * (b[2] + BYTE * b[3]))
  }

  function Header(epoch: U32, flags: Byte, contentHash: ContentHash, plaintextLen: U32): (h: Bytes)
    ensures |h| == HEADER_SIZE
  {
    SRB1_MAGIC + [SRB1_VERSION] + LittleEndian(epoch) + [flags] + contentHash + LittleEndian(plaintextLen)
  }

  /** One call of the encoder together with the output the cipher gave it. */
  datatype EncodeCall = EncodeCall(
    key: Key, epoch: U32, plaintext: Bytes, compressed: bool, contentHash: ContentHash, aad: Bytes, ciphertext: Bytes)

  function HeaderOf(c: EncodeCall): (h: Bytes)
    ensures |h| == HEADER_SIZE
  {
    Header(c.epoch, if c.compressed then FLAG_COMPRESSED else 0, c.contentHash, |c.plaintext| % TWO_TO_THE_32)
  }

  function SealingOf(c: EncodeCall): Sealing {
    Sealing(c.key, c.plaintext, c.aad + HeaderOf(c)[4..], c.ciphertext)
  }

  function BlockOf(c: EncodeCall): Bytes {
    HeaderOf(c) + c.ciphertext
  }

  method Encode(cipher: Cipher, c: EncodeCall) returns (block: Bytes)
    requires IdealLedger(cipher.ledger + {SealingOf(c)})
    modifies cipher
    ensures block == BlockOf(c)
    ensures cipher.ledger == old(cipher.ledger) + {SealingOf(c)}
  {
    var flags: Byte := if c.compressed then FLAG_COMPRESSED else 0;
    var plaintextLen: U32 := |c.plaintext| % TWO_TO_THE_32;

    var header: Bytes := [];
    header := header + SRB1_MAGIC;
    header := header + [SRB1_VERSION];
    header := header + LittleEndian(c.epoch);
    header := header + [flags];
    header := header + c.contentHash;
    header := header + LittleEndian(plaintextLen);
    assert header == HeaderOf(c);

    var fullAad: Bytes := [];
    fullAad := fullAad + c.aad;
    fullAad := fullAad + header[4..];
    assert fullAad == c.aad + HeaderOf(c)[4..];

    var encrypted := cipher.Encrypt(c.key, c.plaintext, fullAad, c.ciphertext);
    block := header + encrypted;
  }

  datatype DecodedBlock = DecodedBlock(
    epoch: U32, compressed: bool, contentHash: ContentHash, plaintextLen: U32, plaintext: Bytes)

  datatype DecodeError =
    | BlockTooShort
    | InvalidMagic
    | UnsupportedVersion(version: Byte)
    | Unauthentic
    | LengthMismatch(claimed: nat, actual: nat)

  ghost function DecodeWith(ledger: set<Sealing>, key: Key, block: Bytes, aad: Bytes): Result<DecodedBlock, DecodeError>
  {
    if |block| < HEADER_SIZE + NONCE_SIZE + TAG_SIZE then Failure(BlockTooShort)
    else if block[..4] != SRB1_MAGIC then Failure(InvalidMagic)
    else if block[4] != SRB1_VERSION then Failure(UnsupportedVersion(block[4]))
    else
      var len := FromLittleEndian(block[42..46]);
      match Open(ledger, key, block[HEADER_SIZE..], aad + block[4..HEADER_SIZE])
      case None => Failure(Unauthentic)
      case Some(plaintext) =>
        if |plaintext| != len then Failure(LengthMismatch(len, |plaintext|))
        else Success(DecodedBlock(FromLittleEndian(block[5..9]), And(block[9], FLAG_COMPRESSED) != 0, block[10..42],
                                  len, plaintext))
  }

  method Decode(cipher: Cipher, key: Key, block: Bytes, aad: Bytes) returns (r: Result<DecodedBlock, DecodeError>)
    requires IdealLedger(cipher.ledger)
    ensures r == DecodeWith(cipher.ledger, key, block, aad)
  {
    if |block| < HEADER_SIZE + NONCE_SIZE + TAG_SIZE {
      return Failure(BlockTooShort);
    }
    if block[..4] != SRB1_MAGIC {
      return Failure(InvalidMagic);
    }
    var version := block[4];
    if version != SRB1_VERSION {
      return Failure(UnsupportedVersion(version));
    }
    var epoch := FromLittleEndian(block[5..9]);
    var compressed := And(block[9], FLAG_COMPRESSED) != 0;
    var contentHash: ContentHash := block[10..42];
    var plaintextLen := FromLittleEndian(block[42..46]);

    var fullAad: Bytes := [];
    fullAad := fullAad + aad;
    fullAad := fullAad + block[4..HEADER_SIZE];

    var payload := cipher.Decrypt(key, block[HEADER_SIZE..], fullAad);
    if payload == None {
      return Failure(Unauthentic);
    }
    var plaintext := payload.value;
    if |plaintext| != plaintextLen {
      return Failure(LengthMismatch(plaintextLen, |plaintext|));
    }
    return Success(DecodedBlock(epoch, compressed, contentHash, plaintextLen, plaintext));
  }

  // ----- What decoding accepts -----

  /** Everything the cipher sealed while the encoder made these calls. */
  ghost function LedgerOf(calls: seq<EncodeCall>): set<Sealing> {
    set c | c in calls :: SealingOf(c)
  }

  function Fields(c: EncodeCall): DecodedBlock {
    DecodedBlock(c.epoch, c.compressed, c.contentHash, |c.plaintext| % TWO_TO_THE_32, c.plaintext)
  }

  /** A number in four bytes, the least significant first. */
  predicate IsLittleEndian(block: Bytes, at: nat, n: nat) {
    && at + 4 <= |block|
    && (var a: nat, b: nat, c: nat, d: nat := block[at], block[at + 1], block[at + 2], block[at + 3];
        n == a + 0x100 * b + 0x1_0000 * c + 0x100_0000 * d)
  }

  lemma LittleEndianMeans(n: U32)
    ensures IsLittleEndian(LittleEndian(n), 0, n)
  {
  }

  lemma FromLittleEndianMeans(b: Bytes)
    requires |b| == 4
    ensures IsLittleEndian(b, 0, FromLittleEndian(b))
  {
  }

  /** The block byte by byte, and what its ciphertext is sealed with. */
  lemma BlockLayout(c: EncodeCall)
    ensures var block := BlockOf(c);
            && |block| == 46 + |c.ciphertext|
            && block[..5] == [0x53, 0x52, 0x42, 0x31, 1]
            && IsLittleEndian(block, 5, c.epoch)
            && block[9] == (if c.compressed then 1 else 0)
            && block[10..42] == c.contentHash
            && IsLittleEndian(block, 42, |c.plaintext| % TWO_TO_THE_32)
            && block[46..] == c.ciphertext
            && SealingOf(c) == Sealing(c.key, c.plaintext, c.aad + block[4..46], c.ciphertext)
  {
    var block, h := BlockOf(c), HeaderOf(c);
    LittleEndianMeans(c.epoch);
    LittleEndianMeans(|c.plaintext| % TWO_TO_THE_32);
    assert h[5..9] == LittleEndian(c.epoch) && h[42..46] == LittleEndian(|c.plaintext| % TWO_TO_THE_32);
    assert forall k | 0 <= k < 46 :: block[k] == h[k];
    assert forall k | 0 <= k < 4 :: block[5 + k] == h[5..9][k] && block[42 + k] == h[42..46][k];
    assert block[4..46] == h[4..] && block[46..] == c.ciphertext;
  }

  lemma HeaderFields(c: EncodeCall)
    ensures var h := HeaderOf(c);
            && h[..4] == SRB1_MAGIC && h[4] == SRB1_VERSION
            && FromLittleEndian(h[5..9]) == c.epoch
            && (And(h[9], FLAG_COMPRESSED) != 0) == c.compressed
            && h[10..42] == c.contentHash
            && FromLittleEndian(h[42..46]) == |c.plaintext| % TWO_TO_THE_32
  {
  }

  /** Long enough, with the magic and the version of the format. */
  predicate WellBegun(block: Bytes) {
    |block| >= 86 && block[..5] == [0x53, 0x52, 0x42, 0x31, 1]
  }

  /** The cipher sealed this plaintext as the block's payload, for this key, aad and header. */
  ghost predicate Sealed(ledger: set<Sealing>, key: Key, block: Bytes, aad: Bytes, plaintext: Bytes)
    requires |block| >= 46
  {
    Sealing(key, plaintext, aad + block[4..46], block[46..]) in ledger
  }

  ghost predicate Authentic(ledger: set<Sealing>, key: Key, block: Bytes, aad: Bytes)
    requires |block| >= 46
  {
    exists p :: Sealed(ledger, key, block, aad, p)
  }

  lemma OpensIff(ledger: set<Sealing>, key: Key, block: Bytes, aad: Bytes)
    requires IdealLedger(ledger) && |block| >= 46
    ensures var p := Open(ledger, key, block[46..], aad + block[4..46]);
            if p.Some? then Sealed(ledger, key, block, aad, p.value) else !Authentic(ledger, key, block, aad)
  {
    if Opens(ledger, key, block[46..], aad + block[4..46]) {
      var s :| s in ledger && s.key == key && s.aad == aad + block[4..46] && s.ciphertext == block[46..];
      assert s == Sealing(key, s.plaintext, aad + block[4..46], block[46..]);
    }
  }

  /** Each error of the decoder, by the bytes it is about. */
  lemma DecodeErrors(ledger: set<Sealing>, key: Key, block: Bytes, aad: Bytes)
    requires IdealLedger(ledger)
    ensures var r := DecodeWith(ledger, key, block, aad);
            && (r == Failure(BlockTooShort) <==> |block| < 86)
            && (r == Failure(InvalidMagic) <==> |block| >= 86 && block[..4] != [0x53, 0x52, 0x42, 0x31])
            && (forall v :: r == Failure(UnsupportedVersion(v)) <==>
                  |block| >= 86 && block[..4] == [0x53, 0x52, 0x42, 0x31] && v == block[4] && v != 1)
            && (r == Failure(Unauthentic) <==> WellBegun(block) && !Authentic(ledger, key, block, aad))
  {
    VersionByte(block);
    if |block| >= 86 {
      OpensIff(ledger, key, block, aad);
    }
  }

  lemma VersionByte(block: Bytes)
    ensures WellBegun(block) <==> |block| >= 86 && block[..4] == [0x53, 0x52, 0x42, 0x31] && block[4] == 1
  {
    if |block| >= 86 {
      assert block[..5] == block[..4] + [block[4]];
    }
  }

  /** An authentic payload decides the rest: its length has to be the one in the header. */
  lemma DecodeFields(ledger: set<Sealing>, key: Key, block: Bytes, aad: Bytes, plaintext: Bytes, len: nat)
    requires IdealLedger(ledger) && WellBegun(block)
    requires Sealed(ledger, key, block, aad, plaintext) && IsLittleEndian(block, 42, len)
    ensures var r := DecodeWith(ledger, key, block, aad);
            if |plaintext| != len then r == Failure(LengthMismatch(len, |plaintext|))
            else
              && r.Success? && r.value.plaintext == plaintext && r.value.plaintextLen == len
              && IsLittleEndian(block, 5, r.value.epoch)
              && (r.value.compressed <==> block[9] % 2 == 1) && r.value.contentHash == block[10..42]
  {
    VersionByte(block);
    OpenFinds(ledger, Sealing(key, plaintext, aad + block[4..46], block[46..]));
    FromLittleEndianMeans(block[5..9]);
    FromLittleEndianMeans(block[42..46]);
    assert forall k | 0 <= k < 4 :: block[5..9][k] == block[5 + k] && block[42..46][k] == block[42 + k];
    assert And(block[9], 1) == block[9] % 2 by {
      AndOdd(block[9], 0);
      AndLowMask(block[9], 1);
    }
  }

  /** The authenticated string determines both the caller's part and the header, whose length is fixed. */
  lemma AadIsParsable(aad: Bytes, h: Bytes, aad': Bytes, h': Bytes)
    requires |h| == |h'| && aad + h == aad' + h'
    ensures aad == aad' && h == h'
  {
    assert |aad| == |aad'|;
    assert aad == (aad + h)[..|aad|] == (aad' + h')[..|aad'|] == aad';
    assert h == (aad + h)[|aad|..] == (aad' + h')[|aad'|..] == h';
  }

  lemma BlockLength(c: EncodeCall)
    requires IdealLedger({SealingOf(c)})
    ensures |BlockOf(c)| == 86 + |c.plaintext|
  {
  }

  lemma OpenFinds(ledger: set<Sealing>, s: Sealing)
    requires IdealLedger(ledger) && s in ledger
    ensures Open(ledger, s.key, s.ciphertext, s.aad) == Some(s.plaintext)
  {
  }

  /** A block decodes to the fields it was made from, unless the plaintext length did not fit 32 bits. */
  lemma DecodeInvertsEncode(calls: seq<EncodeCall>, c: EncodeCall)
    requires IdealLedger(LedgerOf(calls)) && c in calls
    ensures DecodeWith(LedgerOf(calls), c.key, BlockOf(c), c.aad) ==
            if |c.plaintext| < TWO_TO_THE_32 then Success(Fields(c))
            else Failure(LengthMismatch(|c.plaintext| % TWO_TO_THE_32, |c.plaintext|))
  {
    var block, h, ledger := BlockOf(c), HeaderOf(c), LedgerOf(calls);
    assert SealingOf(c) in ledger;
    HeaderFields(c);
    assert block[..4] == h[..4] && block[5..9] == h[5..9] && block[10..42] == h[10..42] && block[42..46] == h[42..46];
    assert block[4..HEADER_SIZE] == h[4..] && block[HEADER_SIZE..] == c.ciphertext;
    OpenFinds(ledger, SealingOf(c));
  }

  /** The call whose block this is. */
  lemma AuthenticBlock(calls: seq<EncodeCall>, key: Key, block: Bytes, aad: Bytes) returns (c: EncodeCall)
    requires |block| >= HEADER_SIZE && block[..4] == SRB1_MAGIC
    requires Opens(LedgerOf(calls), key, block[HEADER_SIZE..], aad + block[4..HEADER_SIZE])
    ensures c in calls && c.key == key && c.aad == aad && BlockOf(c) == block
  {
    var s :| s in LedgerOf(calls) && s.key == key && s.aad == aad + block[4..HEADER_SIZE]
           && s.ciphertext == block[HEADER_SIZE..];
    c :| c in calls && SealingOf(c) == s;
    AadIsParsable(c.aad, HeaderOf(c)[4..], aad, block[4..HEADER_SIZE]);
    HeaderFields(c);
    assert block == block[..4] + block[4..HEADER_SIZE] + block[HEADER_SIZE..];
    assert HeaderOf(c) == HeaderOf(c)[..4] + HeaderOf(c)[4..];
  }

  /** Decoding succeeds on exactly the blocks that the encoder made under this key for this aad. */
  lemma DecodesOnlyEncodedBlocks(calls: seq<EncodeCall>, key: Key, block: Bytes, aad: Bytes, d: DecodedBlock)
    requires IdealLedger(LedgerOf(calls))
    ensures DecodeWith(LedgerOf(calls), key, block, aad) == Success(d) <==>
            exists c | c in calls ::
              c.key == key && c.aad == aad && BlockOf(c) == block && |c.plaintext| < TWO_TO_THE_32 && Fields(c) == d
  {
    if DecodeWith(LedgerOf(calls), key, block, aad) == Success(d) {
      var c := AuthenticBlock(calls, key, block, aad);
      DecodeInvertsEncode(calls, c);
    }
    if c :|
      && c in calls && c.key == key && c.aad == aad && BlockOf(c) == block
      && |c.plaintext| < TWO_TO_THE_32 && Fields(c) == d
    {
      DecodeInvertsEncode(calls, c);
    }
  }
}
