/** Sentence references (the sentence directory of the core crate): 32 bytes as 22 words of 12 bits each. */
module Sentence {
  import opened Wrappers
  import opened Bits

  const WORDLIST_SIZE: nat := 4096
  const BITS_PER_WORD: nat := 12
  const WORDS_PER_REF: nat := 22

  type Ref = d: Bytes | |d| == 32 witness seq(32, _ => 0)
  type Wordlists = w: seq<seq<string>> | |w| == 4 witness seq(4, _ => [])
  type Lookups = l: seq<map<string, U16>> | |l| == 4 witness seq(4, _ => map[])

  datatype EncodeError = WordlistTooSmall

  datatype DecodeError = WrongWordCount(count: nat) | UnknownWord(word: string, list: nat)

  // ----- Bit strings -----

  /** Bit p of a byte string, most significant bit of each byte first; nothing is set past its end. */
  predicate BitAt(data: Bytes, p: nat) {
    p / 8 < |data| && Bit(data[p / 8], 7 - p % 8)
  }

  function BitRange(data: Bytes, start: nat, count: nat): (bits: seq<bool>)
    ensures |bits| == count
  {
    seq(count, j requires 0 <= j < count => BitAt(data, start + j))
  }

  /** The number a bit string denotes, most significant bit first. */
  function ValueOf(bits: seq<bool>): nat {
    if bits == [] then 0
    else 2 * ValueOf(bits[..|bits| - 1]) + (if bits[|bits| - 1] then 1 else 0)
  }

  lemma {:induction false} ValueBits(bits: seq<bool>)
    ensures ValueOf(bits) < Pow2(|bits|)
    ensures forall k | 0 <= k < |bits| :: Bit(ValueOf(bits), k) == bits[|bits| - 1 - k]
  {
    if bits != [] {
      var front := bits[..|bits| - 1];
      ValueBits(front);
      forall k | 0 <= k < |bits|
        ensures Bit(ValueOf(bits), k) == bits[|bits| - 1 - k]
      {
        if k > 0 {
          assert ValueOf(bits) / 2 == ValueOf(front);
          assert Bit(ValueOf(front), k - 1) == front[|front| - 1 - (k - 1)];
        }
      }
    }
  }

  /** Bit k of the number that a bit string denotes. */
  predicate Digit(bits: seq<bool>, k: nat) {
    k < |bits| && bits[|bits| - 1 - k]
  }

  /** A number is the value of the bit string it has the digits of. */
  lemma ValueUnique(bits: seq<bool>, v: nat, width: nat)
    requires |bits| <= width && v < Pow2(width)
    requires forall k | 0 <= k < width :: Bit(v, k) == Digit(bits, k)
    ensures v == ValueOf(bits)
  {
    ValueBits(bits);
    Pow2Monotonic(|bits|, width);
    forall k | 0 <= k < width
      ensures Bit(v, k) == Bit(ValueOf(bits), k)
    {
      if k >= |bits| {
        HighBitsClear(ValueOf(bits), |bits|, k);
      }
    }
    EqualByBits(v, ValueOf(bits), width);
  }

  // ----- Reading bits -----

  /** The test of the source: shift the bit down and keep it. */
  function TestBit(data: Bytes, p: nat): (isSet: bool)
    ensures isSet == BitAt(data, p)
  {
    if p / 8 < |data| then
      ShiftReadsBit(data[p / 8], 7 - p % 8);
      ShiftRight(data[p / 8], 7 - p % 8) % 2 == 1
    else false
  }

  /** The digits from m upward are in place, the others still zero. */
  ghost predicate DigitsFrom(value: nat, bits: seq<bool>, m: nat) {
    forall k | 0 <= k < 16 :: Bit(value, k) == (k >= m && Digit(bits, k))
  }

  lemma NextDigit(value: U16, bits: seq<bool>, m: nat)
    requires m < 16 && DigitsFrom(value, bits, m + 1)
    ensures Digit(bits, m) ==> Or(value, Pow2(m)) < 0x1_0000 && DigitsFrom(Or(value, Pow2(m)), bits, m)
    ensures !Digit(bits, m) ==> DigitsFrom(value, bits, m)
  {
    Pow2Values();
    OrOneBit(value, m, 16);
  }

  method ExtractBits(data: Bytes, bitOffset: nat, count: nat) returns (value: U16)
    requires count <= 16
    ensures value == ValueOf(BitRange(data, bitOffset, count))
  {
    ghost var bits := BitRange(data, bitOffset, count);
    value := 0;
    AllZero(16);
    for i := 0 to count
      invariant DigitsFrom(value, bits, count - i)
    {
      NextDigit(value, bits, count - 1 - i);
      if TestBit(data, bitOffset + i) {
        value := Or(value, Pow2(count - 1 - i));
      }
    }
    Pow2Values();
    ValueUnique(bits, value, 16);
  }

  lemma AllZero(n: nat)
    ensures forall k | 0 <= k < n :: !Bit(0, k)
  {
    forall k | 0 <= k < n
      ensures !Bit(0, k)
    {
      ZeroBits(k);
    }
  }

  // ----- Writing bits -----

  /** Bit p after the first n of `count` bits of `value` were written at `start`. */
  predicate Written(before: Bytes, start: nat, count: nat, value: nat, n: nat, p: nat)
    requires n <= count
  {
    if start <= p < start + n then Bit(value, count - 1 - (p - start)) else BitAt(before, p)
  }

  /** Those bits were written and no other bit changed; bits past the end are dropped. */
  ghost predicate Wrote(before: Bytes, after: Bytes, start: nat, count: nat, value: nat, n: nat)
    requires n <= count
  {
    && |after| == |before|
    && forall p | 0 <= p < 8 * |before| :: BitAt(after, p) == Written(before, start, count, value, n, p)
  }

  method SetBits(data: array<Byte>, bitOffset: nat, count: nat, value: U16)
    modifies data
    ensures Wrote(old(data[..]), data[..], bitOffset, count, value, count)
  {
    ghost var before := data[..];
    for i := 0 to count
      invariant Wrote(before, data[..], bitOffset, count, value, i)
    {
      var byteIdx := (bitOffset + i) / 8;
      var bitIdx := 7 - (bitOffset + i) % 8;
      if byteIdx < data.Length {
        ShiftReadsBit(value, count - 1 - i);
        var on := ShiftRight(value, count - 1 - i) % 2 == 1;
        ByteWithBit(data[byteIdx], bitIdx);
        WriteStep(before, data[..], bitOffset, count, value, i);
        ghost var next := WithBit(data[..], bitOffset + i, on);
        if on {
          data[byteIdx] := Or(data[byteIdx], Pow2(bitIdx));
        } else {
          data[byteIdx] := And(data[byteIdx], 0xFF - Pow2(bitIdx));
        }
        assert data[..] == next;
      }
    }
  }

  lemma WriteStep(before: Bytes, now: Bytes, start: nat, count: nat, value: nat, n: nat)
    requires n < count && Wrote(before, now, start, count, value, n)
    requires (start + n) / 8 < |before|
    ensures Wrote(before, WithBit(now, start + n, Bit(value, count - 1 - n)), start, count, value, n + 1)
  {
    WithBitChangesOne(now, start + n, Bit(value, count - 1 - n));
  }

  /** The byte string with bit p set or cleared. */
  function WithBit(data: Bytes, p: nat, on: bool): (after: Bytes)
    requires p / 8 < |data|
    ensures |after| == |data|
  {
    data[p / 8 := ByteAfter(data[p / 8], 7 - p % 8, on)]
  }

  function ByteAfter(b: Byte, n: nat, on: bool): (after: Byte)
    requires n < 8
    ensures forall k | 0 <= k < 8 :: Bit(after, k) == if k == n then on else Bit(b, k)
  {
    ByteWithBit(b, n);
    if on then Or(b, Pow2(n)) else And(b, 0xFF - Pow2(n))
  }

  lemma WithBitChangesOne(data: Bytes, p: nat, on: bool)
    requires p / 8 < |data|
    ensures forall q | 0 <= q < 8 * |data| :: BitAt(WithBit(data, p, on), q) == if q == p then on else BitAt(data, q)
  {
  }

  /** Setting or clearing one bit of a byte. */
  lemma ByteWithBit(b: Byte, n: nat)
    requires n < 8
    ensures Pow2(n) <= 0xFF
    ensures Or(b, Pow2(n)) < 0x100 && And(b, 0xFF - Pow2(n)) < 0x100
    ensures forall k | 0 <= k < 8 :: Bit(Or(b, Pow2(n)), k) == (Bit(b, k) || k == n)
    ensures forall k | 0 <= k < 8 :: Bit(And(b, 0xFF - Pow2(n)), k) == (Bit(b, k) && k != n)
  {
    Pow2Values();
    OrOneBit(b, n, 8);
    Pow2Monotonic(n, 8);
    BitwiseFits(b, 0xFF - Pow2(n), 8);
    forall k | 0 <= k < 8
      ensures Bit(And(b, 0xFF - Pow2(n)), k) == (Bit(b, k) && k != n)
    {
      AndBit(b, 0xFF - Pow2(n), k);
      ComplementBit(8, n, k);
    }
  }

  lemma {:induction false} AllOnes(m: nat, k: nat)
    requires k < m
    ensures Bit(Pow2(m) - 1, k)
  {
    assert (Pow2(m) - 1) / 2 == Pow2(m - 1) - 1;
    if k > 0 {
      AllOnes(m - 1, k - 1);
    }
  }

  /** All ones of a width but one. */
  lemma {:induction false} ComplementBit(m: nat, n: nat, k: nat)
    requires n < m && k < m
    ensures Pow2(n) < Pow2(m) && Bit(Pow2(m) - 1 - Pow2(n), k) == (k != n)
  {
    Pow2Monotonic(n, m);
    var x: nat := Pow2(m) - 1 - Pow2(n);
    if n == 0 {
      assert x == 2 * (Pow2(m - 1) - 1);
      if k > 0 {
        AllOnes(m - 1, k - 1);
      }
    } else {
      Pow2Monotonic(n - 1, m - 1);
      assert x == 2 * (Pow2(m - 1) - 1 - Pow2(n - 1)) + 1;
      if k > 0 {
        ComplementBit(m - 1, n - 1, k - 1);
      }
    }
  }

  /** Or with a single bit sets that bit and keeps the others and the width. */
  lemma OrOneBit(v: nat, n: nat, width: nat)
    requires v < Pow2(width) && n < width
    ensures Or(v, Pow2(n)) < Pow2(width)
    ensures forall k | 0 <= k < width :: Bit(Or(v, Pow2(n)), k) == (Bit(v, k) || k == n)
  {
    Pow2Monotonic(n, width);
    BitwiseFits(v, Pow2(n), width);
    forall k | 0 <= k < width
      ensures Bit(Or(v, Pow2(n)), k) == (Bit(v, k) || k == n)
    {
      OrBit(v, Pow2(n), k);
      Pow2Bit(n, k);
    }
  }

  lemma {:induction false} Pow2Monotonic(n: nat, m: nat)
    requires n <= m
    ensures Pow2(n) <= Pow2(m)
    ensures n < m ==> Pow2(n) < Pow2(m)
    decreases m
  {
    if n < m {
      Pow2Monotonic(n, m - 1);
    }
  }

  // ----- Words -----

  /** The index of word i: 12 bits of the reference followed by a zero byte. */
  function IndexAt(d: Ref, i: nat): nat {
    ValueOf(BitRange(d + [0], i * BITS_PER_WORD, BITS_PER_WORD))
  }

  lemma IndexFits(d: Ref, i: nat)
    ensures IndexAt(d, i) < WORDLIST_SIZE
  {
    ValueBits(BitRange(d + [0], i * BITS_PER_WORD, BITS_PER_WORD));
    Pow2Values();
  }

  predicate LongEnough(lists: Wordlists) {
    forall k | 0 <= k < 4 :: |lists[k]| >= WORDLIST_SIZE
  }

  function WordFor(d: Ref, lists: Wordlists, i: nat): string
    requires LongEnough(lists)
  {
    IndexFits(d, i);
    lists[i % 4][IndexAt(d, i)]
  }

  function Encode(d: Ref, lists: Wordlists): seq<string>
    requires LongEnough(lists)
  {
    seq(WORDS_PER_REF, i requires 0 <= i < WORDS_PER_REF => WordFor(d, lists, i))
  }

  method EncodeRef(data: Ref, lists: Wordlists) returns (r: Result<seq<string>, EncodeError>)
    ensures r.Success? <==> LongEnough(lists)
    ensures r.Failure? <==> exists k | 0 <= k < 4 :: |lists[k]| < 4096
    ensures r.Success? ==> r.value == Encode(data, lists)
  {
    if exists k | 0 <= k < 4 :: |lists[k]| < WORDLIST_SIZE {
      return Failure(WordlistTooSmall);
    }
    var padded := data + [0];
    var words: seq<string> := [];
    for i := 0 to WORDS_PER_REF
      invariant words == Encode(data, lists)[..i]
    {
      var bitOffset := i * BITS_PER_WORD;
      var index := ExtractBits(padded, bitOffset, BITS_PER_WORD);
      IndexFits(data, i);
      var listIdx := i % 4;
      words := words + [lists[listIdx][index]];
    }
    return Success(words);
  }

  /** Word to index; when a word occurs twice the later index wins. */
  function BuildReverseLookup(list: seq<string>): map<string, U16> {
    if list == [] then map[]
    else
      var n := |list| - 1;
      BuildReverseLookup(list[..n])[list[n] := n % 0x1_0000]
  }

  /** Every word of a sentence of the right length is known to its list. */
  predicate Known(words: seq<string>, lookups: Lookups) {
    && |words| == WORDS_PER_REF
    && forall i | 0 <= i < WORDS_PER_REF :: words[i] in lookups[i % 4]
  }

  function IndicesOf(words: seq<string>, lookups: Lookups): (ix: seq<nat>)
    requires Known(words, lookups)
    ensures |ix| == WORDS_PER_REF
  {
    seq(WORDS_PER_REF, i requires 0 <= i < WORDS_PER_REF => lookups[i % 4][words[i]])
  }

  /** Bit p of the 12-bit groups written one after the other. */
  predicate GroupBit(ix: seq<nat>, p: nat)
    requires p < BITS_PER_WORD * |ix|
  {
    Bit(ix[p / BITS_PER_WORD], BITS_PER_WORD - 1 - p % BITS_PER_WORD)
  }

  function ByteBits(ix: seq<nat>, b: nat): (bits: seq<bool>)
    requires |ix| == WORDS_PER_REF && b < 32
  {
    seq(8, j requires 0 <= j < 8 => GroupBit(ix, 8 * b + j))
  }

  lemma ByteFits(ix: seq<nat>, b: nat)
    requires |ix| == WORDS_PER_REF && b < 32
    ensures ValueOf(ByteBits(ix, b)) < 0x100
  {
    ValueBits(ByteBits(ix, b));
    Pow2Values();
  }

  function ByteAtIndex(ix: seq<nat>, b: nat): Byte
    requires |ix| == WORDS_PER_REF && b < 32
  {
    ByteFits(ix, b);
    ValueOf(ByteBits(ix, b))
  }

  /** The reference whose bits are the first 256 bits of the groups. */
  function Decode(ix: seq<nat>): Ref
    requires |ix| == WORDS_PER_REF
  {
    seq(32, b requires 0 <= b < 32 => ByteAtIndex(ix, b))
  }

  lemma DecodeBits(ix: seq<nat>, p: nat)
    requires |ix| == WORDS_PER_REF && p < 256
    ensures BitAt(Decode(ix), p) == GroupBit(ix, p)
  {
    var bits := ByteBits(ix, p / 8);
    ValueBits(bits);
    assert bits[|bits| - 1 - (7 - p % 8)] == bits[p % 8];
    assert 8 * (p / 8) + p % 8 == p;
  }

  lemma SameBits(a: Ref, b: Ref)
    requires forall p | 0 <= p < 256 :: BitAt(a, p) == BitAt(b, p)
    ensures a == b
  {
    forall k | 0 <= k < 32
      ensures a[k] == b[k]
    {
      forall j | 0 <= j < 8
        ensures Bit(a[k], j) == Bit(b[k], j)
      {
        var p := 8 * k + (7 - j);
        assert p / 8 == k && 7 - p % 8 == j;
        assert BitAt(a, p) == BitAt(b, p);
      }
      Pow2Values();
      EqualByBits(a[k], b[k], 8);
    }
  }

  /** The groups of the first n words are in place, the remaining bits still zero. */
  ghost predicate Filled(padded: Bytes, ix: seq<nat>, n: nat)
    requires n <= |ix| == WORDS_PER_REF
  {
    && |padded| == 33
    && forall p | 0 <= p < 264 :: BitAt(padded, p) == (p < BITS_PER_WORD * n && GroupBit(ix, p))
  }

  lemma FillStep(before: Bytes, after: Bytes, ix: seq<nat>, n: nat)
    requires n < |ix| == WORDS_PER_REF && Filled(before, ix, n)
    requires Wrote(before, after, n * BITS_PER_WORD, BITS_PER_WORD, ix[n], BITS_PER_WORD)
    ensures Filled(after, ix, n + 1)
  {
    forall p | 0 <= p < 264
      ensures BitAt(after, p) == (p < BITS_PER_WORD * (n + 1) && GroupBit(ix, p))
    {
      assert BitAt(after, p) == Written(before, n * BITS_PER_WORD, BITS_PER_WORD, ix[n], BITS_PER_WORD, p);
      if n * BITS_PER_WORD <= p < n * BITS_PER_WORD + BITS_PER_WORD {
        assert p / BITS_PER_WORD == n && p % BITS_PER_WORD == p - n * BITS_PER_WORD;
      }
    }
  }

  lemma FilledIsDecode(padded: Bytes, ix: seq<nat>)
    requires |ix| == WORDS_PER_REF && Filled(padded, ix, WORDS_PER_REF)
    ensures padded[..32] == Decode(ix)
  {
    forall p | 0 <= p < 256
      ensures BitAt(padded[..32], p) == BitAt(Decode(ix), p)
    {
      DecodeBits(ix, p);
      assert BitAt(padded, p) == GroupBit(ix, p);
    }
    SameBits(padded[..32], Decode(ix));
  }

  /** The structural check that does not decode: the first problem found, if any. */
  function ValidateSentence(words: seq<string>, lookups: Lookups): Option<DecodeError> {
    if |words| != WORDS_PER_REF then Some(WrongWordCount(|words|))
    else FirstUnknown(words, lookups, 0)
  }

  function FirstUnknown(words: seq<string>, lookups: Lookups, i: nat): Option<DecodeError>
    requires i <= |words|
    decreases |words| - i
  {
    if i == |words| then None
    else if words[i] !in lookups[i % 4] then Some(UnknownWord(words[i], i % 4))
    else FirstUnknown(words, lookups, i + 1)
  }

  lemma {:induction false} FirstUnknownIsLeast(words: seq<string>, lookups: Lookups, i: nat)
    requires i <= |words|
    ensures FirstUnknown(words, lookups, i) == None <==> forall k | i <= k < |words| :: words[k] in lookups[k % 4]
    ensures forall k | i <= k < |words| && words[k] !in lookups[k % 4] && AllKnown(words, lookups, i, k) ::
              FirstUnknown(words, lookups, i) == Some(UnknownWord(words[k], k % 4))
    decreases |words| - i
  {
    if i < |words| && words[i] in lookups[i % 4] {
      FirstUnknownIsLeast(words, lookups, i + 1);
    }
  }

  ghost predicate AllKnown(words: seq<string>, lookups: Lookups, i: nat, n: nat)
    requires n <= |words|
  {
    forall k | i <= k < n :: words[k] in lookups[k % 4]
  }

  method DecodeRef(words: seq<string>, lookups: Lookups) returns (r: Result<Ref, DecodeError>)
    ensures r.Success? <==> Known(words, lookups)
    ensures r.Success? ==> r.value == Decode(IndicesOf(words, lookups))
    ensures |words| != WORDS_PER_REF ==> r == Failure(WrongWordCount(|words|))
    ensures r.Failure? && |words| == WORDS_PER_REF ==>
              exists i | 0 <= i < WORDS_PER_REF ::
                && words[i] !in lookups[i % 4]
                && (forall k | 0 <= k < i :: words[k] in lookups[k % 4])
                && r.error == UnknownWord(words[i], i % 4)
  {
    if |words| != WORDS_PER_REF {
      return Failure(WrongWordCount(|words|));
    }
    var padded := new Byte[33](_ => 0);
    ghost var ix := if Known(words, lookups) then IndicesOf(words, lookups) else seq(WORDS_PER_REF, _ => 0);
    forall p | 0 <= p < 264
      ensures !BitAt(padded[..], p)
    {
      ZeroBits(7 - p % 8);
    }
    for i := 0 to WORDS_PER_REF
      invariant forall k | 0 <= k < i :: words[k] in lookups[k % 4]
      invariant Known(words, lookups) ==> Filled(padded[..], ix, i)
    {
      var listIdx := i % 4;
      if words[i] !in lookups[listIdx] {
        return Failure(UnknownWord(words[i], listIdx));
      }
      var index := lookups[listIdx][words[i]];
      var bitOffset := i * BITS_PER_WORD;
      ghost var before := padded[..];
      SetBits(padded, bitOffset, BITS_PER_WORD, index);
      if Known(words, lookups) {
        FillStep(before, padded[..], ix, i);
      }
    }
    FilledIsDecode(padded[..], ix);
    return Success(padded[..32]);
  }

  // ----- Sentences -----

  predicate IsWhitespace(c: char) {
    || '\t' <= c <= '\r' || c == ' ' || c == '\U{85}' || c == '\U{A0}' || c == '\U{1680}'
    || '\U{2000}' <= c <= '\U{200A}' || c == '\U{2028}' || c == '\U{2029}' || c == '\U{202F}'
    || c == '\U{205F}' || c == '\U{3000}'
  }

  function JoinWords(words: seq<string>): string {
    if words == [] then ""
    else if |words| == 1 then words[0]
    else words[0] + " " + JoinWords(words[1..])
  }

  /** Length of the leading run without whitespace. */
  function WordLength(s: string): (n: nat)
    ensures n <= |s|
  {
    if s == "" || IsWhitespace(s[0]) then 0 else 1 + WordLength(s[1..])
  }

  function SplitWhitespace(s: string): seq<string>
    decreases |s|
  {
    if s == "" then []
    else if IsWhitespace(s[0]) then SplitWhitespace(s[1..])
    else
      var n := WordLength(s);
      [s[..n]] + SplitWhitespace(s[n..])
  }

  method EncodeRefString(data: Ref, lists: Wordlists) returns (r: Result<string, EncodeError>)
    ensures r.Success? <==> LongEnough(lists)
    ensures r.Success? ==> r.value == JoinWords(Encode(data, lists))
  {
    var words := EncodeRef(data, lists);
    match words
    case Failure(e) => return Failure(e);
    case Success(ws) => return Success(JoinWords(ws));
  }

  method DecodeRefString(sentence: string, lookups: Lookups) returns (r: Result<Ref, DecodeError>)
    ensures r.Success? <==> Known(SplitWhitespace(sentence), lookups)
    ensures r.Success? ==> r.value == Decode(IndicesOf(SplitWhitespace(sentence), lookups))
    ensures r.Failure? ==> ValidateSentence(SplitWhitespace(sentence), lookups) == Some(r.error)
  {
    var words := SplitWhitespace(sentence);
    r := DecodeRef(words, lookups);
    if r.Failure? && |words| == WORDS_PER_REF {
      FirstUnknownIsLeast(words, lookups, 0);
    }
  }
}
