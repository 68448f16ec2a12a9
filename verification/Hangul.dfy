/** Decomposition of Hangul syllables into letters by way of the Johab code. */
module Hangul {
  type uint16 = x: int | 0 <= x < 0x1_0000

  type octet = x: int | 0 <= x < 0x100

  const NONE := 0xfd
  const FILL := 0xff

  // The tables from 5-bit groups to letters; letter x is the code point 0x3130 + x.
  const JAMO_INITIAL: seq<octet> := [
    NONE, FILL, 0x01, 0x02, 0x04, 0x07, 0x08, 0x09,
    0x11, 0x12, 0x13, 0x15, 0x16, 0x17, 0x18, 0x19,
    0x1a, 0x1b, 0x1c, 0x1d, 0x1e, NONE, NONE, NONE,
    NONE, NONE, NONE, NONE, NONE, NONE, NONE, NONE]
  const JAMO_MEDIAL: seq<octet> := [
    NONE, NONE, FILL, 0x1f, 0x20, 0x21, 0x22, 0x23,
    NONE, NONE, 0x24, 0x25, 0x26, 0x27, 0x28, 0x29,
    NONE, NONE, 0x2a, 0x2b, 0x2c, 0x2d, 0x2e, 0x2f,
    NONE, NONE, 0x30, 0x31, 0x32, 0x33, NONE, NONE]
  const JAMO_FINAL: seq<octet> := [
    NONE, FILL, 0x01, 0x02, 0x03, 0x04, 0x05, 0x06,
    0x07, 0x09, 0x0a, 0x0b, 0x0c, 0x0d, 0x0e, 0x0f,
    0x10, 0x11, NONE, 0x12, 0x14, 0x15, 0x16, 0x17,
    0x18, 0x1a, 0x1b, 0x1c, 0x1d, 0x1e, NONE, NONE]

  // The tables from 5-bit groups to packed indices, and their inverses.
  const INITIAL_INDEX: seq<int> := [
    -1, 0x00, 0x01, 0x02, 0x03, 0x04, 0x05, 0x06,
    0x07, 0x08, 0x09, 0x0a, 0x0b, 0x0c, 0x0d, 0x0e,
    0x0f, 0x10, 0x11, 0x12, 0x13, -1, -1, -1,
    -1, -1, -1, -1, -1, -1, -1, -1]
  const MEDIAL_INDEX: seq<int> := [
    -1, -1, 0x00, 0x01, 0x02, 0x03, 0x04, 0x05,
    -1, -1, 0x06, 0x07, 0x08, 0x09, 0x0a, 0x0b,
    -1, -1, 0x0c, 0x0d, 0x0e, 0x0f, 0x10, 0x11,
    -1, -1, 0x12, 0x13, 0x14, 0x15, -1, -1]
  const FINAL_INDEX: seq<int> := [
    -1, 0x00, 0x01, 0x02, 0x03, 0x04, 0x05, 0x06,
    0x07, 0x08, 0x09, 0x0a, 0x0b, 0x0c, 0x0d, 0x0e,
    0x0f, 0x10, -1, 0x11, 0x12, 0x13, 0x14, 0x15,
    0x16, 0x17, 0x18, 0x19, 0x1a, 0x1b, -1, -1]
  const INITIAL_INVERSE: seq<int> := [
    0x02, 0x03, 0x04, 0x05, 0x06, 0x07,
    0x08, 0x09, 0x0a, 0x0b, 0x0c, 0x0d, 0x0e, 0x0f,
    0x10, 0x11, 0x12, 0x13, 0x14]
  const MEDIAL_INVERSE: seq<int> := [
    0x03, 0x04, 0x05, 0x06, 0x07,
    0x0a, 0x0b, 0x0c, 0x0d, 0x0e, 0x0f,
    0x12, 0x13, 0x14, 0x15, 0x16, 0x17,
    0x1a, 0x1b, 0x1c, 0x1d]
  const FINAL_INVERSE: seq<int> := [
    0x01, 0x02, 0x03, 0x04, 0x05, 0x06, 0x07,
    0x08, 0x09, 0x0a, 0x0b, 0x0c, 0x0d, 0x0e, 0x0f,
    0x10, 0x11, 0x13, 0x14, 0x15, 0x16, 0x17,
    0x18, 0x19, 0x1a, 0x1b, 0x1c, 0x1d]

  /** The letters 0x3131 to 0x3163: the consonants up to 0x314e, and the vowels. */
  const CONSONANTS31: seq<uint16> := [
    0x8841, 0x8c41, 0x8444, 0x9041, 0x8446, 0x8447, 0x9441,
    0x9841, 0x9c41, 0x844a, 0x844b, 0x844c, 0x844d, 0x844e, 0x844f,
    0x8450, 0xa041, 0xa441, 0xa841, 0x8454, 0xac41, 0xb041, 0xb441,
    0xb841, 0xbc41, 0xc041, 0xc441, 0xc841, 0xcc41, 0xd041]
  const VOWELS31: seq<uint16> := [
    0x8461, 0x8481, 0x84a1, 0x84c1, 0x84e1, 0x8541, 0x8561, 0x8581, 0x85a1,
    0x85c1, 0x85e1, 0x8641, 0x8661, 0x8681, 0x86a1, 0x86c1, 0x86e1,
    0x8741, 0x8761, 0x8781, 0x87a1]
  const PAGE31: seq<uint16> := CONSONANTS31 + VOWELS31

  predicate IsLetter(wc: int) {
    0x3131 <= wc < 0x3164
  }

  predicate IsSyllable(wc: int) {
    0xac00 <= wc < 0xd7a4
  }

  /** Or-ing in a 5-bit group below a shifted number is adding it. */
  function Pack(bits1: int, bits2: int, bits3: int): int {
    ((32 + bits1) * 32 + bits2) * 32 + bits3
  }

  /** The Johab code, or 0 when there is none. */
  function Johab(wc: uint16): int {
    if IsLetter(wc) then PAGE31[wc - 0x3131]
    else if IsSyllable(wc) then
      var tmp := wc - 0xac00;
      Pack(INITIAL_INVERSE[tmp / 28 / 21], MEDIAL_INVERSE[tmp / 28 % 21], FINAL_INVERSE[tmp % 28])
    else 0
  }

  function Letter(jamo: octet): seq<uint16> {
    if jamo == FILL then [] else [0x3130 + jamo]
  }

  /** No text for a character without a Johab code. */
  function Decompose(wc: uint16): seq<uint16> {
    var hangul := Johab(wc);
    if hangul / 0x8000 != 1 then []
    else
      var jamo1 := JAMO_INITIAL[hangul / 1024 % 32];
      var jamo2 := JAMO_MEDIAL[hangul / 32 % 32];
      var jamo3 := JAMO_FINAL[hangul % 32];
      if jamo1 == NONE || jamo2 == NONE || jamo3 == NONE then []
      else Letter(jamo1) + Letter(jamo2) + Letter(jamo3)
  }

  function DecomposeAll(s: seq<uint16>): seq<uint16> {
    if s == [] then [] else Decompose(s[0]) + DecomposeAll(s[1..])
  }

  // ---- the tables ------------------------------------------------------------------------------

  lemma InitialInverse(k: int)
    requires 0 <= k < 19
    ensures 0 <= INITIAL_INVERSE[k] < 32 && INITIAL_INDEX[INITIAL_INVERSE[k]] == k + 1
  {
  }

  lemma InitialIndex(b: int)
    requires 0 <= b < 32 && INITIAL_INDEX[b] >= 1
    ensures INITIAL_INDEX[b] <= 19 && INITIAL_INVERSE[INITIAL_INDEX[b] - 1] == b
  {
  }

  lemma MedialInverse(k: int)
    requires 0 <= k < 21
    ensures 0 <= MEDIAL_INVERSE[k] < 32 && MEDIAL_INDEX[MEDIAL_INVERSE[k]] == k + 1
  {
  }

  lemma MedialIndex(b: int)
    requires 0 <= b < 32 && MEDIAL_INDEX[b] >= 1
    ensures MEDIAL_INDEX[b] <= 21 && MEDIAL_INVERSE[MEDIAL_INDEX[b] - 1] == b
  {
  }

  lemma FinalInverse(k: int)
    requires 0 <= k < 28
    ensures 0 <= FINAL_INVERSE[k] < 32 && FINAL_INDEX[FINAL_INVERSE[k]] == k
  {
  }

  lemma FinalIndex(b: int)
    requires 0 <= b < 32 && FINAL_INDEX[b] >= 0
    ensures FINAL_INDEX[b] <= 27 && FINAL_INVERSE[FINAL_INDEX[b]] == b
  {
  }

  /** Each inverse table inverts its index table, on exactly the groups that stand for something. */
  lemma TablesInvert(bits: int, index: int)
    requires 0 <= bits < 32
    ensures 0 <= index < 19 ==> (INITIAL_INDEX[bits] == index + 1 <==> bits == INITIAL_INVERSE[index])
    ensures 0 <= index < 21 ==> (MEDIAL_INDEX[bits] == index + 1 <==> bits == MEDIAL_INVERSE[index])
    ensures 0 <= index < 28 ==> (FINAL_INDEX[bits] == index <==> bits == FINAL_INVERSE[index])
  {
    if 0 <= index < 19 {
      InitialInverse(index);
      if INITIAL_INDEX[bits] == index + 1 {
        InitialIndex(bits);
      }
    }
    if 0 <= index < 21 {
      MedialInverse(index);
      if MEDIAL_INDEX[bits] == index + 1 {
        MedialIndex(bits);
      }
    }
    if 0 <= index < 28 {
      FinalInverse(index);
      if FINAL_INDEX[bits] == index {
        FinalIndex(bits);
      }
    }
  }

  lemma Groups(bits1: int, bits2: int, bits3: int)
    requires 0 <= bits1 < 32 && 0 <= bits2 < 32 && 0 <= bits3 < 32
    ensures var c := Pack(bits1, bits2, bits3);
            c / 0x8000 == 1 && c / 1024 % 32 == bits1 && c / 32 % 32 == bits2 && c % 32 == bits3
  {
    var c := Pack(bits1, bits2, bits3);
    assert c / 32 == (32 + bits1) * 32 + bits2;
    assert c / 32 / 32 == 32 + bits1 && c / 1024 == c / 32 / 32;
  }

  // ---- syllables -------------------------------------------------------------------------------

  function InitialLetter(k: int): octet
    requires 0 <= k < 19
  {
    InitialInverse(k);
    JAMO_INITIAL[INITIAL_INVERSE[k]]
  }

  function MedialLetter(k: int): octet
    requires 0 <= k < 21
  {
    MedialInverse(k);
    JAMO_MEDIAL[MEDIAL_INVERSE[k]]
  }

  function FinalLetter(k: int): octet
    requires 0 <= k < 28
  {
    FinalInverse(k);
    JAMO_FINAL[FINAL_INVERSE[k]]
  }

  lemma MedialIsVowel(k: int)
    requires 0 <= k < 21
    ensures MedialLetter(k) == 0x1f + k
  {
  }

  function Index1(wc: int): (k: int)
    requires IsSyllable(wc)
    ensures 0 <= k < 19
  {
    (wc - 0xac00) / 28 / 21
  }

  function Index2(wc: int): (k: int)
    requires IsSyllable(wc)
    ensures 0 <= k < 21
  {
    (wc - 0xac00) / 28 % 21
  }

  function Index3(wc: int): (k: int)
    requires IsSyllable(wc)
    ensures 0 <= k < 28
  {
    (wc - 0xac00) % 28
  }

  /** The formula of section 3.12 of the Unicode Standard, read off the Johab code. */
  lemma JohabDenotes(wc: uint16)
    requires IsSyllable(wc)
    ensures var c := Johab(wc);
            && c / 0x8000 == 1
            && wc == 0xac00 + 21 * 28 * (INITIAL_INDEX[c / 1024 % 32] - 1)
                            + 28 * (MEDIAL_INDEX[c / 32 % 32] - 1) + FINAL_INDEX[c % 32]
  {
    InitialInverse(Index1(wc));
    MedialInverse(Index2(wc));
    FinalInverse(Index3(wc));
    Groups(INITIAL_INVERSE[Index1(wc)], MEDIAL_INVERSE[Index2(wc)], FINAL_INVERSE[Index3(wc)]);
  }

  predicate IsConsonant(c: int) {
    0x3131 <= c <= 0x314e
  }

  predicate IsVowel(c: int) {
    0x314f <= c <= 0x3163
  }

  /** The consonants that start syllables: all but the doubled ones that only end them. */
  predicate IsLead(c: int) {
    IsConsonant(c) && c !in {0x3133, 0x3135, 0x3136, 0x313a, 0x313b, 0x313c, 0x313d, 0x313e, 0x313f, 0x3140, 0x3144}
  }

  /** The consonants that end syllables. */
  predicate IsTail(c: int) {
    IsConsonant(c) && c !in {0x3138, 0x3143, 0x3149}
  }

  /** The place of a letter among the 19 that start syllables. */
  function LeadIndex(c: int): (k: int)
    requires IsLead(c)
    ensures 0 <= k < 19
  {
    if c <= 0x3132 then c - 0x3131
    else if c == 0x3134 then 2
    else if c <= 0x3139 then c - 0x3134
    else if c <= 0x3143 then c - 0x313b
    else c - 0x313c
  }

  /** The place of a letter among the 27 that end syllables, counted from 1. */
  function TailIndex(c: int): (k: int)
    requires IsTail(c)
    ensures 1 <= k < 28
  {
    if c <= 0x3137 then c - 0x3130
    else if c <= 0x3142 then c - 0x3131
    else if c <= 0x3148 then c - 0x3132
    else c - 0x3133
  }

  lemma InitialGroup(k: int)
    requires 0 <= k < 19
    ensures INITIAL_INVERSE[k] == k + 2
  {
  }

  lemma FinalGroup(k: int)
    requires 0 <= k < 28
    ensures FINAL_INVERSE[k] == if k < 17 then k + 1 else k + 2
  {
  }

  lemma JamoInitial(b: int)
    requires 2 <= b < 21
    ensures JAMO_INITIAL[b] as int == if b < 4 then b - 1 else if b == 4 then 4 else if b < 8 then b + 2
                                      else if b < 11 then b + 9 else b + 10
  {
  }

  lemma JamoFinal(b: int)
    requires 2 <= b < 30 && b != 18
    ensures JAMO_FINAL[b] as int == if b < 9 then b - 1 else if b < 18 then b else if b == 19 then 18
                                    else if b < 25 then b else b + 1
  {
  }

  lemma LeadOf(k: int)
    requires 0 <= k < 19
    ensures IsLead(0x3130 + InitialLetter(k)) && LeadIndex(0x3130 + InitialLetter(k)) == k
  {
    InitialGroup(k);
    JamoInitial(k + 2);
  }

  lemma TailOf(k: int)
    requires 0 < k < 28
    ensures IsTail(0x3130 + FinalLetter(k)) && TailIndex(0x3130 + FinalLetter(k)) == k
  {
    FinalGroup(k);
    JamoFinal(if k < 17 then k + 1 else k + 2);
  }

  lemma NoTail()
    ensures FinalLetter(0) == FILL
  {
  }

  /** A character whose Johab code has these groups. */
  lemma CodeDecomposes(wc: uint16, b1: int, b2: int, b3: int, t1: seq<int>, t2: seq<int>, t3: seq<int>)
    requires 0 <= b1 < 32 && 0 <= b2 < 32 && 0 <= b3 < 32 && Johab(wc) == Pack(b1, b2, b3)
    requires JAMO_INITIAL[b1] != NONE && JAMO_MEDIAL[b2] != NONE && JAMO_FINAL[b3] != NONE
    requires Letter(JAMO_INITIAL[b1]) == t1 && Letter(JAMO_MEDIAL[b2]) == t2 && Letter(JAMO_FINAL[b3]) == t3
    ensures Decompose(wc) == t1 + t2 + t3
  {
    Groups(b1, b2, b3);
  }

  lemma Lead(k: int) returns (b: int, lead: int)
    requires 0 <= k < 19
    ensures 0 <= b < 32 && b == INITIAL_INVERSE[k] && JAMO_INITIAL[b] != NONE && Letter(JAMO_INITIAL[b]) == [lead]
    ensures IsLead(lead) && LeadIndex(lead) == k
  {
    InitialInverse(k);
    LeadOf(k);
    b := INITIAL_INVERSE[k];
    lead := Letter(InitialLetter(k))[0];
  }

  lemma Vowel(k: int) returns (b: int)
    requires 0 <= k < 21
    ensures 0 <= b < 32 && b == MEDIAL_INVERSE[k] && JAMO_MEDIAL[b] != NONE && Letter(JAMO_MEDIAL[b]) == [0x314f + k]
  {
    MedialInverse(k);
    MedialIsVowel(k);
    b := MEDIAL_INVERSE[k];
  }

  lemma Tail(k: int) returns (b: int, tail: seq<int>)
    requires 0 <= k < 28
    ensures 0 <= b < 32 && b == FINAL_INVERSE[k] && JAMO_FINAL[b] != NONE && Letter(JAMO_FINAL[b]) == tail
    ensures if k == 0 then tail == [] else |tail| == 1 && IsTail(tail[0]) && TailIndex(tail[0]) == k
  {
    FinalInverse(k);
    if k == 0 {
      NoTail();
    } else {
      TailOf(k);
    }
    b := FINAL_INVERSE[k];
    tail := Letter(FinalLetter(k));
  }

  predicate AreLetters(lead: int, vowel: int, tail: seq<int>) {
    IsLead(lead) && IsVowel(vowel) && |tail| <= 1 && forall c <- tail :: IsTail(c)
  }

  /** The code point that section 3.12 of the Unicode Standard gives to these letters. */
  function Composed(lead: int, vowel: int, tail: seq<int>): (wc: uint16)
    requires AreLetters(lead, vowel, tail)
    ensures IsSyllable(wc)
  {
    0xac00 + (LeadIndex(lead) * 21 + (vowel - 0x314f)) * 28 + if tail == [] then 0 else TailIndex(tail[0])
  }

  lemma IndicesOf(k1: int, k2: int, k3: int)
    requires 0 <= k1 < 19 && 0 <= k2 < 21 && 0 <= k3 < 28
    ensures var wc := 0xac00 + (k1 * 21 + k2) * 28 + k3;
            IsSyllable(wc) && Index1(wc) == k1 && Index2(wc) == k2 && Index3(wc) == k3
  {
    var wc := 0xac00 + (k1 * 21 + k2) * 28 + k3;
    assert (wc - 0xac00) / 28 == k1 * 21 + k2 && (wc - 0xac00) % 28 == k3;
  }

  lemma IndicesDetermine(wc: int)
    requires IsSyllable(wc)
    ensures wc == 0xac00 + (Index1(wc) * 21 + Index2(wc)) * 28 + Index3(wc)
  {
  }

  /** The letters of a syllable, and that it is composed of them. */
  lemma LettersOf(wc: uint16) returns (lead: int, vowel: int, tail: seq<int>)
    requires IsSyllable(wc)
    ensures IsLead(lead) && IsVowel(vowel) && |tail| == (if Index3(wc) == 0 then 0 else 1)
    ensures (forall c <- tail :: IsTail(c)) && wc == Composed(lead, vowel, tail)
    ensures Decompose(wc) == [lead, vowel] + tail
  {
    var b1, b2, b3;
    b1, lead := Lead(Index1(wc));
    b2 := Vowel(Index2(wc));
    b3, tail := Tail(Index3(wc));
    vowel := 0x314f + Index2(wc);
    CodeDecomposes(wc, b1, b2, b3, [lead], [vowel], tail);
    IndicesDetermine(wc);
  }

  lemma SyllableShape(wc: uint16)
    requires IsSyllable(wc)
    ensures var t := Decompose(wc);
            && |t| == (if Index3(wc) == 0 then 2 else 3)
            && IsLead(t[0]) && IsVowel(t[1]) && (|t| == 3 ==> IsTail(t[2]))
  {
    var lead, vowel, tail := LettersOf(wc);
  }

  lemma LeadsDiffer(a: int, b: int)
    requires IsLead(a) && IsLead(b) && LeadIndex(a) == LeadIndex(b)
    ensures a == b
  {
  }

  lemma TailsDiffer(a: int, b: int)
    requires IsTail(a) && IsTail(b) && TailIndex(a) == TailIndex(b)
    ensures a == b
  {
  }

  lemma CompositionIsUnique(lead: int, vowel: int, tail: seq<int>, lead': int, vowel': int, tail': seq<int>)
    requires AreLetters(lead, vowel, tail) && AreLetters(lead', vowel', tail')
    requires Composed(lead, vowel, tail) == Composed(lead', vowel', tail')
    ensures lead == lead' && vowel == vowel' && tail == tail'
  {
    var k, k' := if tail == [] then 0 else TailIndex(tail[0]), if tail' == [] then 0 else TailIndex(tail'[0]);
    IndicesOf(LeadIndex(lead), vowel - 0x314f, k);
    IndicesOf(LeadIndex(lead'), vowel' - 0x314f, k');
    LeadsDiffer(lead, lead');
    if k != 0 {
      TailsDiffer(tail[0], tail'[0]);
      assert tail == [tail[0]] && tail' == [tail'[0]];
    }
  }

  /** Whatever is composed of letters is decomposed into just these. */
  lemma ComposedDecomposes(lead: int, vowel: int, tail: seq<int>)
    requires AreLetters(lead, vowel, tail)
    ensures Decompose(Composed(lead, vowel, tail)) == [lead, vowel] + tail
  {
    var lead', vowel', tail' := LettersOf(Composed(lead, vowel, tail));
    CompositionIsUnique(lead, vowel, tail, lead', vowel', tail');
  }

  ghost predicate StartsWith(wc: uint16, c: int) {
    Decompose(wc) != [] && Decompose(wc)[0] == c
  }

  ghost predicate EndsWith(wc: uint16, c: int) {
    |Decompose(wc)| == 3 && Decompose(wc)[2] == c
  }

  /** The first letters of syllables are the leads, and the third ones the tails, and no others. */
  lemma LettersOfSyllables(c: int)
    ensures (exists wc: uint16 :: IsSyllable(wc) && StartsWith(wc, c)) <==> IsLead(c)
    ensures (exists wc: uint16 :: IsSyllable(wc) && EndsWith(wc, c)) <==> IsTail(c)
  {
    forall wc: uint16 | IsSyllable(wc)
      ensures (StartsWith(wc, c) ==> IsLead(c)) && (EndsWith(wc, c) ==> IsTail(c))
    {
      SyllableShape(wc);
    }
    if IsLead(c) {
      ComposedDecomposes(c, 0x314f, []);
      assert StartsWith(Composed(c, 0x314f, []), c);
    }
    if IsTail(c) {
      ComposedDecomposes(0x3131, 0x314f, [c]);
      assert EndsWith(Composed(0x3131, 0x314f, [c]), c);
    }
  }

  // ---- letters on their own --------------------------------------------------------------------

  lemma VowelCode(l: uint16)
    requires IsVowel(l)
    ensures VOWELS31[l - 0x314f] == Pack(1, MEDIAL_INVERSE[l - 0x314f], 1)
  {
  }

  lemma LeadCode(l: uint16)
    requires IsLead(l)
    ensures CONSONANTS31[l - 0x3131] == 0x8041 + 1024 * (LeadIndex(l) + 2)
  {
  }

  lemma TailCode(l: uint16)
    requires IsConsonant(l) && !IsLead(l)
    ensures CONSONANTS31[l - 0x3131] == 0x8440 + TailIndex(l) + if TailIndex(l) < 17 then 1 else 2
  {
  }

  lemma Fillers()
    ensures JAMO_INITIAL[1] == JAMO_MEDIAL[2] == JAMO_FINAL[1] == FILL
  {
  }

  lemma VowelStays(l: uint16)
    requires IsVowel(l)
    ensures Decompose(l) == [l]
  {
    var b := Vowel(l - 0x314f);
    VowelCode(l);
    Fillers();
    CodeDecomposes(l, 1, b, 1, [], [l], []);
  }

  lemma LeadStays(l: uint16)
    requires IsLead(l)
    ensures Decompose(l) == [l]
  {
    var b, lead := Lead(LeadIndex(l));
    LeadsDiffer(l, lead);
    LeadCode(l);
    InitialGroup(LeadIndex(l));
    Fillers();
    CodeDecomposes(l, b, 2, 1, [l], [], []);
  }

  lemma TailStays(l: uint16)
    requires IsConsonant(l) && !IsLead(l)
    ensures Decompose(l) == [l]
  {
    var b, tail := Tail(TailIndex(l));
    TailsDiffer(l, tail[0]);
    TailCode(l);
    FinalGroup(TailIndex(l));
    Fillers();
    CodeDecomposes(l, 1, 2, b, [], [], [l]);
  }

  /** A letter on its own is its own decomposition. */
  lemma LetterStays(l: uint16)
    requires 0x3131 <= l <= 0x3163
    ensures Decompose(l) == [l]
  {
    if IsVowel(l) {
      VowelStays(l);
    } else if IsLead(l) {
      LeadStays(l);
    } else {
      TailStays(l);
    }
  }

  /** Nothing but letters and syllables has a decomposition. */
  lemma OthersHaveNone(wc: uint16)
    ensures Decompose(wc) != [] <==> 0x3131 <= wc <= 0x3163 || 0xac00 <= wc <= 0xd7a3
  {
    if IsLetter(wc) {
      LetterStays(wc);
    } else if IsSyllable(wc) {
      SyllableShape(wc);
    }
  }

  lemma SyllableIsDetermined(a: uint16, b: uint16)
    requires IsSyllable(a) && IsSyllable(b) && Decompose(a) == Decompose(b)
    ensures a == b
  {
    var l, v, t := LettersOf(a);
    var l', v', t' := LettersOf(b);
    assert Decompose(a)[2..] == t && Decompose(b)[2..] == t';
  }

  // ---- strings ---------------------------------------------------------------------------------

  predicate Syllables(s: seq<uint16>) {
    forall wc <- s :: IsSyllable(wc)
  }

  /** A text of syllables never starts with a vowel, and its second character is one. */
  lemma TextShape(s: seq<uint16>)
    requires Syllables(s)
    ensures var t := DecomposeAll(s);
            if s == [] then t == [] else |t| >= 2 && IsConsonant(t[0]) && IsVowel(t[1])
  {
    if s != [] {
      SyllableShape(s[0]);
    }
  }

  /** The next character tells whether a third letter belongs to the syllable or starts the next one. */
  lemma SameFirstSyllable(a: uint16, s: seq<uint16>, b: uint16, t: seq<uint16>)
    requires IsSyllable(a) && IsSyllable(b) && Syllables(s) && Syllables(t)
    requires Decompose(a) + DecomposeAll(s) == Decompose(b) + DecomposeAll(t)
    requires |Decompose(a)| <= |Decompose(b)|
    ensures Decompose(a) == Decompose(b) && DecomposeAll(s) == DecomposeAll(t)
  {
    SyllableShape(a);
    SyllableShape(b);
    TextShape(s);
    TextShape(t);
    var n := |Decompose(a)|;
    var text := Decompose(a) + DecomposeAll(s);
    assert text[..n] == Decompose(a) && text[n..] == DecomposeAll(s);
    if n < |Decompose(b)| {
      assert false;
    }
    assert text[..n] == Decompose(b) && text[n..] == DecomposeAll(t);
  }

  ghost predicate SameLetters(s: seq<uint16>, t: seq<uint16>) {
    DecomposeAll(s) == DecomposeAll(t)
  }

  /** Uniquely decodable: two strings of syllables have the same letters only if they are the same. */
  lemma {:induction false} DecompositionIsInjective(s: seq<uint16>, t: seq<uint16>)
    requires Syllables(s) && Syllables(t)
    ensures SameLetters(s, t) <==> s == t
    decreases |s|
  {
    if SameLetters(s, t) {
      TextShape(s);
      TextShape(t);
      if s != [] {
        if |Decompose(s[0])| <= |Decompose(t[0])| {
          SameFirstSyllable(s[0], s[1..], t[0], t[1..]);
        } else {
          SameFirstSyllable(t[0], t[1..], s[0], s[1..]);
        }
        SyllableIsDetermined(s[0], t[0]);
        DecompositionIsInjective(s[1..], t[1..]);
        assert s == [s[0]] + s[1..] && t == [t[0]] + t[1..];
      }
    }
  }
}
