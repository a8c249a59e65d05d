/** Round trips between references and sentences, and which sentences mean the same reference. */
module SentenceProofs {
  import opened Wrappers
  import opened Bits
  import opened Sentence

  ghost predicate Distinct(list: seq<string>) {
    forall i, j | 0 <= i < j < |list| :: list[i] != list[j]
  }

  function ReverseLookups(lists: Wordlists): Lookups {
    seq(4, k requires 0 <= k < 4 => BuildReverseLookup(lists[k]))
  }

  // ----- Bit level -----

  /** The bits that decoding writes are the bits that encoding read. */
  lemma {:induction false} IndicesKeepBits(d: Ref, ix: seq<nat>, p: nat)
    requires |ix| == WORDS_PER_REF && p < 264
    requires forall i | 0 <= i < WORDS_PER_REF :: ix[i] == IndexAt(d, i)
    ensures GroupBit(ix, p) == BitAt(d + [0], p)
  {
    var i, j := p / BITS_PER_WORD, p % BITS_PER_WORD;
    var bits := BitRange(d + [0], i * BITS_PER_WORD, BITS_PER_WORD);
    ValueBits(bits);
    assert Bit(ValueOf(bits), 11 - j) == bits[j];
    assert bits[j] == BitAt(d + [0], i * BITS_PER_WORD + j);
  }

  lemma DecodeInvertsIndices(d: Ref, ix: seq<nat>)
    requires |ix| == WORDS_PER_REF
    requires forall i | 0 <= i < WORDS_PER_REF :: ix[i] == IndexAt(d, i)
    ensures Decode(ix) == d
  {
    forall p | 0 <= p < 256
      ensures BitAt(Decode(ix), p) == BitAt(d, p)
    {
      DecodeBits(ix, p);
      IndicesKeepBits(d, ix, p);
    }
    SameBits(Decode(ix), d);
  }

  // ----- Three bytes, two indices -----

  lemma HighNibble(b: nat, k: nat)
    ensures Bit(b / 16, k) == Bit(b, k + 4)
  {
    assert b / 2 / 2 / 2 / 2 == b / 16;
    assert Bit(b, k + 4) == Bit(b / 2 / 2, k + 2) == Bit(b / 2 / 2 / 2 / 2, k);
  }

  /** The first byte and the upper half of the second. */
  function FirstOfPair(a: nat, b: nat): nat {
    a * 16 + b / 16
  }

  /** The lower half of the second byte and the third. */
  function SecondOfPair(b: nat, c: nat): nat {
    b % 16 * 256 + c
  }

  lemma FirstBits(a: nat, b: nat, k: nat)
    requires b < 256
    ensures Bit(FirstOfPair(a, b), k) == if k < 4 then Bit(b, k + 4) else Bit(a, k - 4)
  {
    assert Pow2(4) == 16;
    ShiftedBit(a, b / 16, 4, k);
    HighNibble(b, k);
  }

  lemma SecondBits(b: nat, c: nat, k: nat)
    requires c < 256 && k < 12
    ensures Bit(SecondOfPair(b, c), k) == if k < 8 then Bit(c, k) else Bit(b, k - 8)
  {
    assert Pow2(4) == 16;
    Pow2Values();
    ShiftedBit(b % 16, c, 8, k);
    if k >= 8 {
      WrapKeepsBit(b, 4, k - 8);
    }
  }

  /** Bit q of the three bytes of group j. */
  lemma BitOfGroup(p: Bytes, j: nat, q: nat)
    requires q < 24 && 3 * j + 2 < |p|
    ensures BitAt(p, 24 * j + q) <==>
            if q < 8 then Bit(p[3 * j], 7 - q) else if q < 16 then Bit(p[3 * j + 1], 15 - q)
            else Bit(p[3 * j + 2], 23 - q)
  {
    var byte := if q < 8 then 0 else if q < 16 then 1 else 2;
    Divides(3 * j + byte, q - 8 * byte);
    assert 24 * j + q == 8 * (3 * j + byte) + (q - 8 * byte);
  }

  lemma Divides(n: nat, r: nat)
    requires r < 8
    ensures (8 * n + r) / 8 == n && (8 * n + r) % 8 == r
  {
  }

  /** Digit k of twelve bits from start on, which is bit q of group j. */
  lemma DigitOfGroup(p: Bytes, start: nat, k: nat, j: nat, q: nat)
    requires k < 12 && q < 24 && 3 * j + 2 < |p| && start + 11 - k == 24 * j + q
    ensures Digit(BitRange(p, start, 12), k) <==>
            if q < 8 then Bit(p[3 * j], 7 - q) else if q < 16 then Bit(p[3 * j + 1], 15 - q)
            else Bit(p[3 * j + 2], 23 - q)
  {
    BitOfGroup(p, j, q);
    assert BitRange(p, start, 12)[11 - k] == BitAt(p, 24 * j + q);
  }

  lemma FirstIndex(p: Bytes, j: nat)
    requires 3 * j + 2 < |p|
    ensures ValueOf(BitRange(p, 24 * j, 12)) == FirstOfPair(p[3 * j], p[3 * j + 1])
  {
    var bits, v := BitRange(p, 24 * j, 12), FirstOfPair(p[3 * j], p[3 * j + 1]);
    forall k | 0 <= k < 12
      ensures Bit(v, k) == Digit(bits, k)
    {
      FirstBits(p[3 * j], p[3 * j + 1], k);
      DigitOfGroup(p, 24 * j, k, j, 11 - k);
    }
    Pow2Values();
    ValueUnique(bits, v, 12);
  }

  lemma SecondIndex(p: Bytes, j: nat)
    requires 3 * j + 2 < |p|
    ensures ValueOf(BitRange(p, 24 * j + 12, 12)) == SecondOfPair(p[3 * j + 1], p[3 * j + 2])
  {
    var bits, v := BitRange(p, 24 * j + 12, 12), SecondOfPair(p[3 * j + 1], p[3 * j + 2]);
    forall k | 0 <= k < 12
      ensures Bit(v, k) == Digit(bits, k)
    {
      SecondBits(p[3 * j + 1], p[3 * j + 2], k);
      DigitOfGroup(p, 24 * j + 12, k, j, 23 - k);
    }
    Pow2Values();
    ValueUnique(bits, v, 12);
  }

  /** Three bytes make two indices, most significant bits first; the last has a zero byte for its lower half. */
  lemma IndicesAreThreeBytes(d: Ref, j: nat)
    requires j < 11
    ensures var a: nat, b: nat, c: nat := d[3 * j], d[3 * j + 1], if j < 10 then d[3 * j + 2] else 0;
            IndexAt(d, 2 * j) == 16 * a + b / 16 && IndexAt(d, 2 * j + 1) == 256 * (b % 16) + c
  {
    FirstIndex(d + [0], j);
    SecondIndex(d + [0], j);
  }

  // ----- Lookup tables -----

  lemma {:induction false} LookupInverts(list: seq<string>)
    requires Distinct(list)
    ensures forall w :: w in BuildReverseLookup(list) <==> w in list
    ensures forall i | 0 <= i < |list| :: list[i] in BuildReverseLookup(list)
                                           && BuildReverseLookup(list)[list[i]] == i % 0x1_0000
  {
    if list != [] {
      var n := |list| - 1;
      LookupInverts(list[..n]);
      assert list == list[..n] + [list[n]];
      forall i | 0 <= i < |list|
        ensures list[i] in BuildReverseLookup(list) && BuildReverseLookup(list)[list[i]] == i % 0x1_0000
      {
        if i < n {
          assert list[..n][i] == list[i] && list[i] != list[n];
        }
      }
    }
  }

  /** In a list with repetitions the last place of a word counts. */
  lemma {:induction false} LookupIsLast(list: seq<string>, i: nat)
    requires i < |list| && forall j | i < j < |list| :: list[j] != list[i]
    ensures list[i] in BuildReverseLookup(list) && BuildReverseLookup(list)[list[i]] == i % 0x1_0000
  {
    if i < |list| - 1 {
      LookupIsLast(list[..|list| - 1], i);
    }
  }

  lemma EncodedWordsAreKnown(d: Ref, lists: Wordlists)
    requires LongEnough(lists) && forall k | 0 <= k < 4 :: Distinct(lists[k])
    ensures Known(Encode(d, lists), ReverseLookups(lists))
    ensures forall i | 0 <= i < WORDS_PER_REF ::
              IndicesOf(Encode(d, lists), ReverseLookups(lists))[i] == IndexAt(d, i)
  {
    forall i | 0 <= i < WORDS_PER_REF
      ensures Encode(d, lists)[i] in ReverseLookups(lists)[i % 4]
      ensures ReverseLookups(lists)[i % 4][Encode(d, lists)[i]] == IndexAt(d, i)
    {
      IndexFits(d, i);
      LookupInverts(lists[i % 4]);
    }
  }

  // ----- String level -----

  ghost predicate PlainWord(w: string) {
    w != "" && forall k | 0 <= k < |w| :: !IsWhitespace(w[k])
  }

  lemma {:induction false} LengthOfWord(w: string, rest: string)
    requires forall k | 0 <= k < |w| :: !IsWhitespace(w[k])
    requires rest == "" || IsWhitespace(rest[0])
    ensures WordLength(w + rest) == |w|
  {
    if w != "" {
      assert (w + rest)[1..] == w[1..] + rest;
      LengthOfWord(w[1..], rest);
    } else {
      assert w + rest == rest;
    }
  }

  // ----- Splitting and joining -----

  ghost predicate Blank(gap: string) {
    forall k | 0 <= k < |gap| :: IsWhitespace(gap[k])
  }

  /** Words with gaps before, between and after them. */
  function Spread(gaps: seq<string>, words: seq<string>): string
    requires |gaps| == |words| + 1
  {
    if words == [] then gaps[0] else gaps[0] + words[0] + Spread(gaps[1..], words[1..])
  }

  /** Gaps are of whitespace, and at least one character between two words. */
  ghost predicate Separates(gaps: seq<string>, words: seq<string>) {
    && |gaps| == |words| + 1
    && (forall k | 0 <= k < |gaps| :: Blank(gaps[k]))
    && forall k | 0 < k < |words| :: gaps[k] != ""
  }

  lemma {:induction false} SplitSkips(gap: string, rest: string)
    requires Blank(gap)
    ensures SplitWhitespace(gap + rest) == SplitWhitespace(rest)
  {
    if gap == "" {
      assert gap + rest == rest;
    } else {
      assert (gap + rest)[1..] == gap[1..] + rest;
      SplitSkips(gap[1..], rest);
    }
  }

  lemma SplitFirst(w: string, rest: string)
    requires PlainWord(w) && (rest == "" || IsWhitespace(rest[0]))
    ensures SplitWhitespace(w + rest) == [w] + SplitWhitespace(rest)
  {
    LengthOfWord(w, rest);
    assert (w + rest)[..|w|] == w && (w + rest)[|w|..] == rest;
  }

  lemma {:induction false} SplitSpread(gaps: seq<string>, words: seq<string>)
    requires Separates(gaps, words) && forall k | 0 <= k < |words| :: PlainWord(words[k])
    ensures SplitWhitespace(Spread(gaps, words)) == words
  {
    if words == [] {
      SplitSkips(gaps[0], "");
      assert gaps[0] + "" == gaps[0];
    } else {
      var rest := Spread(gaps[1..], words[1..]);
      SplitSpread(gaps[1..], words[1..]);
      SplitSkips(gaps[0], words[0] + rest);
      assert gaps[0] + words[0] + rest == gaps[0] + (words[0] + rest);
      SpreadBeginsBlank(gaps[1..], words[1..]);
      SplitFirst(words[0], rest);
      assert words == [words[0]] + words[1..];
    }
  }

  lemma SpreadBeginsBlank(gaps: seq<string>, words: seq<string>)
    requires |gaps| == |words| + 1 && Blank(gaps[0]) && (words != [] ==> gaps[0] != "")
    ensures var s := Spread(gaps, words); s == "" || IsWhitespace(s[0])
  {
  }

  lemma {:induction false} WordIsPlain(s: string)
    requires s != "" && !IsWhitespace(s[0])
    ensures var n := WordLength(s);
            n > 0 && PlainWord(s[..n]) && (n == |s| || IsWhitespace(s[n]))
  {
    if |s| > 1 && !IsWhitespace(s[1]) {
      WordIsPlain(s[1..]);
      var n := WordLength(s);
      assert s[..n] == [s[0]] + s[1..][..n - 1];
    }
  }

  /** The string is these plain words with these gaps, the first of which is empty if a word comes first. */
  ghost predicate SpreadsOut(gaps: seq<string>, words: seq<string>, s: string) {
    && Separates(gaps, words) && Spread(gaps, words) == s
    && (forall k | 0 <= k < |words| :: PlainWord(words[k]))
    && (s != "" ==> (gaps[0] != "" <==> IsWhitespace(s[0])))
  }

  lemma PutWord(gaps: seq<string>, words: seq<string>, w: string, rest: string)
    requires SpreadsOut(gaps, words, rest) && PlainWord(w) && (rest == "" || IsWhitespace(rest[0]))
    ensures SpreadsOut([""] + gaps, [w] + words, w + rest)
  {
    var wider, longer := [""] + gaps, [w] + words;
    assert wider[1..] == gaps && longer[1..] == words;
    assert "" + w == w;
    forall k | 0 <= k < |wider|
      ensures Blank(wider[k]) && (0 < k < |longer| ==> wider[k] != "")
    {
      if k > 0 {
        assert wider[k] == gaps[k - 1];
      }
    }
  }

  lemma WidenGap(gaps: seq<string>, words: seq<string>, c: char, rest: string)
    requires SpreadsOut(gaps, words, rest) && IsWhitespace(c)
    ensures SpreadsOut([[c] + gaps[0]] + gaps[1..], words, [c] + rest)
  {
    var wider := [[c] + gaps[0]] + gaps[1..];
    assert wider[1..] == gaps[1..];
    if words != [] {
      assert [c] + gaps[0] + words[0] + Spread(gaps[1..], words[1..])
             == [c] + (gaps[0] + words[0] + Spread(gaps[1..], words[1..]));
    }
  }

  lemma {:induction false} SplitGivesSpread(s: string) returns (gaps: seq<string>)
    ensures SpreadsOut(gaps, SplitWhitespace(s), s)
    decreases |s|
  {
    if s == "" {
      gaps := [""];
    } else if IsWhitespace(s[0]) {
      var more := SplitGivesSpread(s[1..]);
      WidenGap(more, SplitWhitespace(s[1..]), s[0], s[1..]);
      gaps := [[s[0]] + more[0]] + more[1..];
      assert s == [s[0]] + s[1..];
    } else {
      var n := WordLength(s);
      WordIsPlain(s);
      var more := SplitGivesSpread(s[n..]);
      PutWord(more, SplitWhitespace(s[n..]), s[..n], s[n..]);
      gaps := [""] + more;
      assert s == s[..n] + s[n..];
    }
  }

  /** Splitting yields the one list of words that the string spreads out with whitespace around and between. */
  lemma SplitIsExact(s: string, words: seq<string>)
    ensures words == SplitWhitespace(s) <==>
            && (forall k | 0 <= k < |words| :: PlainWord(words[k]))
            && exists gaps :: Separates(gaps, words) && Spread(gaps, words) == s
  {
    if words == SplitWhitespace(s) {
      var gaps := SplitGivesSpread(s);
      assert Separates(gaps, words) && Spread(gaps, words) == s;
    }
    if (forall k | 0 <= k < |words| :: PlainWord(words[k]))
       && exists gaps :: Separates(gaps, words) && Spread(gaps, words) == s {
      var gaps :| Separates(gaps, words) && Spread(gaps, words) == s;
      SplitSpread(gaps, words);
    }
  }

  /** Nothing before and after, and one space between any two. */
  function SingleSpaces(n: nat): (gaps: seq<string>)
    requires n > 0
    ensures |gaps| == n + 1
  {
    [""] + seq(n - 1, _ => " ") + [""]
  }

  lemma SpacesSeparate(words: seq<string>)
    requires words != []
    ensures Separates(SingleSpaces(|words|), words)
  {
    var gaps := SingleSpaces(|words|);
    forall k | 0 <= k < |gaps|
      ensures Blank(gaps[k]) && (0 < k < |words| ==> gaps[k] != "")
    {
      assert gaps[k] == if 0 < k < |words| then " " else "";
    }
  }

  lemma NextSpaces(n: nat)
    requires n > 1
    ensures var inner := SingleSpaces(n - 1);
            SingleSpaces(n)[0] == "" && SingleSpaces(n)[1..] == [" " + inner[0]] + inner[1..]
  {
    assert " " + SingleSpaces(n - 1)[0] == " ";
  }

  /** Joining puts one space between words and nothing around them. */
  lemma {:induction false} JoinIsSpaced(words: seq<string>)
    requires words != []
    ensures JoinWords(words) == Spread(SingleSpaces(|words|), words)
  {
    var gaps := SingleSpaces(|words|);
    if |words| == 1 {
      assert gaps[1..] == [""] && words[1..] == [];
      assert "" + words[0] + "" == words[0];
    } else {
      JoinIsSpaced(words[1..]);
      NextSpaces(|words|);
      LeadingSpace(SingleSpaces(|words| - 1), words[1..]);
      assert "" + words[0] + (" " + JoinWords(words[1..])) == words[0] + " " + JoinWords(words[1..]);
    }
  }

  lemma LeadingSpace(gaps: seq<string>, words: seq<string>)
    requires |gaps| == |words| + 1 && words != []
    ensures Spread([" " + gaps[0]] + gaps[1..], words) == " " + Spread(gaps, words)
  {
    var wider := [" " + gaps[0]] + gaps[1..];
    assert wider[1..] == gaps[1..];
    assert " " + gaps[0] + words[0] + Spread(gaps[1..], words[1..])
           == " " + (gaps[0] + words[0] + Spread(gaps[1..], words[1..]));
  }

  lemma SplitJoined(words: seq<string>)
    requires forall k | 0 <= k < |words| :: PlainWord(words[k])
    ensures SplitWhitespace(JoinWords(words)) == words
  {
    if words != [] {
      JoinIsSpaced(words);
      SpacesSeparate(words);
      SplitSpread(SingleSpaces(|words|), words);
    }
  }

  /** Reading a sentence back yields the reference it was made from. */
  lemma SentenceRoundTrip(d: Ref, lists: Wordlists)
    requires LongEnough(lists) && forall k | 0 <= k < 4 :: Distinct(lists[k])
    requires forall k, i | 0 <= k < 4 && 0 <= i < |lists[k]| :: PlainWord(lists[k][i])
    ensures var words := SplitWhitespace(JoinWords(Encode(d, lists)));
            Known(words, ReverseLookups(lists)) && Decode(IndicesOf(words, ReverseLookups(lists))) == d
  {
    forall i | 0 <= i < WORDS_PER_REF
      ensures PlainWord(Encode(d, lists)[i])
    {
      IndexFits(d, i);
    }
    SplitJoined(Encode(d, lists));
    EncodedWordsAreKnown(d, lists);
    DecodeInvertsIndices(d, IndicesOf(Encode(d, lists), ReverseLookups(lists)));
  }

  // ----- Which sentences mean the same -----

  /** The first word that its list does not have is the one that is named, unless their number is wrong. */
  lemma ValidationNamesTheFirst(words: seq<string>, lookups: Lookups, k: nat)
    requires k < |words| && words[k] !in lookups[k % 4] && AllKnown(words, lookups, 0, k)
    ensures ValidateSentence(words, lookups)
            == Some(if |words| == 22 then UnknownWord(words[k], k % 4) else WrongWordCount(|words|))
  {
    FirstUnknownIsLeast(words, lookups, 0);
  }

  /** The structural check accepts exactly the sentences that decode. */
  lemma ValidationIsExact(words: seq<string>, lookups: Lookups)
    ensures ValidateSentence(words, lookups) == None <==> Known(words, lookups)
    ensures |words| != 22 ==> ValidateSentence(words, lookups) == Some(WrongWordCount(|words|))
  {
    if |words| == WORDS_PER_REF {
      FirstUnknownIsLeast(words, lookups, 0);
    }
  }

  /** The word indices: 12 bits each. */
  ghost predicate Groups(ix: seq<nat>) {
    |ix| == WORDS_PER_REF && forall i | 0 <= i < WORDS_PER_REF :: ix[i] < WORDLIST_SIZE
  }

  lemma BitOfQuarter(v: nat, k: nat)
    ensures Bit(v / 256, k) == Bit(v, k + 8)
  {
    assert v / 2 / 2 / 2 / 2 / 2 / 2 / 2 / 2 == v / 256;
    EightHalves(v, k);
  }

  lemma EightHalves(v: nat, k: nat)
    ensures Bit(v, k + 8) == Bit(v / 2 / 2 / 2 / 2 / 2 / 2 / 2 / 2, k)
  {
    var a := v / 2 / 2 / 2 / 2;
    assert Bit(v, k + 8) == Bit(v / 2 / 2, k + 6) == Bit(a, k + 4);
    assert Bit(a, k + 4) == Bit(a / 2 / 2, k + 2) == Bit(a / 2 / 2 / 2 / 2, k);
  }

  /** Two sentences decode to the same reference when 21 words and the top 4 bits of the last agree, and only then. */
  lemma SameReference(ix: seq<nat>, iy: seq<nat>)
    requires Groups(ix) && Groups(iy)
    ensures Decode(ix) == Decode(iy) <==> ix[..21] == iy[..21] && ix[21] / 256 == iy[21] / 256
  {
    if Decode(ix) == Decode(iy) {
      forall p | 0 <= p < 256
        ensures GroupBit(ix, p) == GroupBit(iy, p)
      {
        DecodeBits(ix, p);
        DecodeBits(iy, p);
      }
      forall i | 0 <= i < 21
        ensures ix[i] == iy[i]
      {
        GroupsAgree(ix, iy, i);
      }
      LastGroupsAgree(ix, iy);
    }
    if ix[..21] == iy[..21] && ix[21] / 256 == iy[21] / 256 {
      forall p | 0 <= p < 256
        ensures BitAt(Decode(ix), p) == BitAt(Decode(iy), p)
      {
        DecodeBits(ix, p);
        DecodeBits(iy, p);
        if p / BITS_PER_WORD < 21 {
          assert ix[..21][p / BITS_PER_WORD] == iy[..21][p / BITS_PER_WORD];
        } else {
          BitOfQuarter(ix[21], 3 - p % BITS_PER_WORD);
          BitOfQuarter(iy[21], 3 - p % BITS_PER_WORD);
        }
      }
      SameBits(Decode(ix), Decode(iy));
    }
  }

  lemma GroupsAgree(ix: seq<nat>, iy: seq<nat>, i: nat)
    requires Groups(ix) && Groups(iy) && i < 21
    requires forall p | 0 <= p < 256 :: GroupBit(ix, p) == GroupBit(iy, p)
    ensures ix[i] == iy[i]
  {
    forall k | 0 <= k < 12
      ensures Bit(ix[i], k) == Bit(iy[i], k)
    {
      var p := BITS_PER_WORD * i + (11 - k);
      assert p / BITS_PER_WORD == i && BITS_PER_WORD - 1 - p % BITS_PER_WORD == k;
      assert GroupBit(ix, p) == GroupBit(iy, p);
    }
    Pow2Values();
    EqualByBits(ix[i], iy[i], 12);
  }

  lemma LastGroupsAgree(ix: seq<nat>, iy: seq<nat>)
    requires Groups(ix) && Groups(iy)
    requires forall p | 0 <= p < 256 :: GroupBit(ix, p) == GroupBit(iy, p)
    ensures ix[21] / 256 == iy[21] / 256
  {
    forall k | 0 <= k < 4
      ensures Bit(ix[21] / 256, k) == Bit(iy[21] / 256, k)
    {
      var p := 252 + (3 - k);
      assert GroupBit(ix, p) == GroupBit(iy, p);
      BitOfQuarter(ix[21], k);
      BitOfQuarter(iy[21], k);
    }
    assert Pow2(4) == 16;
    EqualByBits(ix[21] / 256, iy[21] / 256, 4);
  }

  /** Encoding what a sentence decodes to gives its indices back exactly when the padding bits are zero. */
  lemma ReencodeIndices(ix: seq<nat>)
    requires Groups(ix)
    ensures (forall i | 0 <= i < WORDS_PER_REF :: IndexAt(Decode(ix), i) == ix[i]) <==> ix[21] % 256 == 0
  {
    var d := Decode(ix);
    var iy := seq(WORDS_PER_REF, i requires 0 <= i < WORDS_PER_REF => IndexAt(d, i));
    forall i | 0 <= i < WORDS_PER_REF
      ensures iy[i] < WORDLIST_SIZE
    {
      IndexFits(d, i);
    }
    DecodeInvertsIndices(d, iy);
    SameReference(ix, iy);
    PaddingIsZero(d);
    if ix[21] % 256 == 0 {
      assert ix[21] == iy[21];
      forall i | 0 <= i < WORDS_PER_REF
        ensures iy[i] == ix[i]
      {
        if i < 21 {
          assert ix[..21][i] == iy[..21][i];
        }
      }
    }
    if forall i | 0 <= i < WORDS_PER_REF :: IndexAt(Decode(ix), i) == ix[i] {
      assert ix[21] == IndexAt(d, 21);
    }
  }

  /** The last index of an encoding ends in the 8 padding bits. */
  lemma PaddingIsZero(d: Ref)
    ensures IndexAt(d, 21) % 256 == 0
  {
    var bits := BitRange(d + [0], 252, 12);
    ValueBits(bits);
    var v := ValueOf(bits);
    Pow2Values();
    forall k | 0 <= k < 8
      ensures Bit(v % 256, k) == Bit(0, k)
    {
      WrapKeepsBit(v, 8, k);
      var p := 252 + (11 - k);
      assert p / 8 == 32 && bits[11 - k] == BitAt(d + [0], p);
      assert Bit(v, k) == bits[11 - k];
      ZeroBits(7 - p % 8);
      ZeroBits(k);
    }
    EqualByBits(v % 256, 0, 8);
  }

  lemma WordsOfIndices(words: seq<string>, lists: Wordlists, i: nat)
    requires forall k | 0 <= k < 4 :: |lists[k]| == WORDLIST_SIZE && Distinct(lists[k])
    requires Known(words, ReverseLookups(lists)) && i < WORDS_PER_REF
    ensures var v := IndicesOf(words, ReverseLookups(lists))[i];
            v < WORDLIST_SIZE && lists[i % 4][v] == words[i]
  {
    var list := lists[i % 4];
    LookupInverts(list);
    var v :| 0 <= v < |list| && list[v] == words[i];
  }

  /** A sentence is reproduced by decoding and encoding exactly when its last word has a multiple of 256 as index. */
  lemma SentenceReencodes(words: seq<string>, lists: Wordlists)
    requires forall k | 0 <= k < 4 :: |lists[k]| == WORDLIST_SIZE && Distinct(lists[k])
    requires Known(words, ReverseLookups(lists))
    ensures var ix := IndicesOf(words, ReverseLookups(lists));
            Encode(Decode(ix), lists) == words <==> ix[21] % 256 == 0
  {
    var ix := IndicesOf(words, ReverseLookups(lists));
    var d := Decode(ix);
    forall i | 0 <= i < WORDS_PER_REF
      ensures ix[i] < WORDLIST_SIZE && lists[i % 4][ix[i]] == words[i]
      ensures IndexAt(d, i) == ix[i] <==> Encode(d, lists)[i] == words[i]
    {
      WordsOfIndices(words, lists, i);
      IndexFits(d, i);
      DistinctWords(lists[i % 4], IndexAt(d, i), ix[i]);
    }
    ReencodeIndices(ix);
    if Encode(d, lists) == words {
      assert forall i | 0 <= i < WORDS_PER_REF :: IndexAt(d, i) == ix[i];
    }
  }

  lemma DistinctWords(list: seq<string>, a: nat, b: nat)
    requires Distinct(list) && a < |list| && b < |list|
    ensures list[a] == list[b] <==> a == b
  {
  }

  /** Two sentences of known words mean the same reference exactly when they differ at most in the padding. */
  lemma SameMeaning(words: seq<string>, other: seq<string>, lists: Wordlists)
    requires forall k | 0 <= k < 4 :: |lists[k]| == WORDLIST_SIZE && Distinct(lists[k])
    requires Known(words, ReverseLookups(lists)) && Known(other, ReverseLookups(lists))
    ensures var ix, iy := IndicesOf(words, ReverseLookups(lists)), IndicesOf(other, ReverseLookups(lists));
            Decode(ix) == Decode(iy) <==> words[..21] == other[..21] && ix[21] / 256 == iy[21] / 256
  {
    var ix, iy := IndicesOf(words, ReverseLookups(lists)), IndicesOf(other, ReverseLookups(lists));
    forall i | 0 <= i < WORDS_PER_REF
      ensures ix[i] < WORDLIST_SIZE && iy[i] < WORDLIST_SIZE
      ensures words[i] == other[i] <==> ix[i] == iy[i]
    {
      WordsOfIndices(words, lists, i);
      WordsOfIndices(other, lists, i);
    }
    SameReference(ix, iy);
    if ix[..21] == iy[..21] {
      forall i | 0 <= i < 21
        ensures words[i] == other[i]
      {
        assert ix[..21][i] == iy[..21][i];
      }
    }
    if words[..21] == other[..21] {
      forall i | 0 <= i < 21
        ensures ix[i] == iy[i]
      {
        assert words[..21][i] == other[..21][i];
      }
    }
  }
}
