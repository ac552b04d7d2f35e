/**
 * The plausibility score that decides which decoding of an input file is kept
 * (`evaluateJapaneseReadability`): a bonus per Japanese character, a penalty per
 * character of three "broken" classes, a bonus per expected vocabulary word
 * present, and a flat penalty when more than a tenth of the text is garbled.
 */
module Readability {
  import opened JsText

  /** Hiragana U+3040-309F, katakana U+30A0-30FF, CJK ideographs U+4E00-9FAF. */
  predicate IsJapanese(c: char) {
    || ('\U{3040}' <= c <= '\U{309F}')
    || ('\U{30A0}' <= c <= '\U{30FF}')
    || ('\U{4E00}' <= c <= '\U{9FAF}')
  }

  /** Neither ASCII, nor Japanese, nor white space. */
  predicate IsGarbled(c: char) {
    !(c <= '\U{007F}') && !IsJapanese(c) && !IsSpace(c)
  }

  /** The three character classes counted as signs of a wrong decoding, in the order they are applied. */
  datatype BrokenPattern = ReplacementChar | ExtendedAscii | Garbled

  const BrokenPatterns: seq<BrokenPattern> := [ReplacementChar, ExtendedAscii, Garbled]

  predicate Matches(p: BrokenPattern, c: char) {
    match p
    case ReplacementChar => c == '\U{FFFD}'
    case ExtendedAscii => '\U{00A0}' <= c <= '\U{00FF}'
    case Garbled => IsGarbled(c)
  }

  /** The words whose presence rewards a decoding: Sagawa, Shoshin, Fukuyama, delivery, shipment, notice, carrier. */
  const Vocabulary: seq<string> := ["佐川", "昭新", "福山", "配送", "出荷", "通知", "業者"]

  /** The number of matches of a character-class regular expression with the `g` flag. */
  function CountWhere(p: char -> bool, s: string): nat
  {
    if s == [] then 0 else CountWhere(p, s[..|s| - 1]) + (if p(s[|s| - 1]) then 1 else 0)
  }

  function JapaneseCount(s: string): nat { CountWhere(IsJapanese, s) }

  function PatternCount(s: string, p: BrokenPattern): nat { CountWhere(c => Matches(p, c), s) }

  /** The broken-character matches of every pattern in `ps`, each pattern counted on its own. */
  function PenaltyUnits(s: string, ps: seq<BrokenPattern>): nat
  {
    if ps == [] then 0 else PenaltyUnits(s, ps[..|ps| - 1]) + PatternCount(s, ps[|ps| - 1])
  }

  /** How many of `words` occur in `s`, each counted once however often it occurs. */
  function VocabularyHits(s: string, words: seq<string>): nat
  {
    if words == [] then 0
    else VocabularyHits(s, words[..|words| - 1]) + (if Contains(s, words[|words| - 1]) then 1 else 0)
  }

  /** The flat penalty: applied when the garbled count exceeds a tenth of the length. */
  function GarbledPenalty(s: string): int
  {
    if 10 * PatternCount(s, Garbled) > |s| then 100 else 0
  }

  /** The score of a decoded text, as the scoring rules state it. */
  function ReadabilityScore(s: string): int
  {
    10 * JapaneseCount(s) - 5 * PenaltyUnits(s, BrokenPatterns)
    + 50 * VocabularyHits(s, Vocabulary) - GarbledPenalty(s)
  }

  /** `evaluateJapaneseReadability`: accumulates the score pattern by pattern and word by word. */
  method EvaluateJapaneseReadability(content: string) returns (score: int)
    ensures score == ReadabilityScore(content)
  {
    score := 0;
    var japanese := JapaneseCount(content);
    score := score + japanese * 10;
    for k := 0 to |BrokenPatterns|
      invariant score == 10 * japanese - 5 * PenaltyUnits(content, BrokenPatterns[..k])
    {
      assert BrokenPatterns[..k + 1][..k] == BrokenPatterns[..k];
      score := score - PatternCount(content, BrokenPatterns[k]) * 5;
    }
    assert BrokenPatterns[..|BrokenPatterns|] == BrokenPatterns;
    ghost var penalised := score;
    for k := 0 to |Vocabulary|
      invariant score == penalised + 50 * VocabularyHits(content, Vocabulary[..k])
    {
      assert Vocabulary[..k + 1][..k] == Vocabulary[..k];
      if Contains(content, Vocabulary[k]) {
        score := score + 50;
      }
    }
    assert Vocabulary[..|Vocabulary|] == Vocabulary;
    var garbled := PatternCount(content, Garbled);
    if 10 * garbled > |content| {
      score := score - 100;
    }
  }

  lemma {:induction false} CountWhereNone(p: char -> bool, s: string)
    requires forall i :: 0 <= i < |s| ==> !p(s[i])
    ensures CountWhere(p, s) == 0
  {
    if s != [] {
      CountWhereNone(p, s[..|s| - 1]);
    }
  }

  lemma {:induction false} CountWhereBound(p: char -> bool, s: string)
    ensures CountWhere(p, s) <= |s|
  {
    if s != [] {
      CountWhereBound(p, s[..|s| - 1]);
    }
  }

  /** Pure ASCII text scores exactly 0: no bonus, no penalty and no vocabulary word. */
  lemma AsciiScoresZero(s: string)
    requires forall i :: 0 <= i < |s| ==> s[i] <= '\U{007F}'
    ensures ReadabilityScore(s) == 0
  {
    CountWhereNone(IsJapanese, s);
    CountWhereNone(c => Matches(ReplacementChar, c), s);
    CountWhereNone(c => Matches(ExtendedAscii, c), s);
    CountWhereNone(c => Matches(Garbled, c), s);
    PenaltyUnitsByPattern(s);
    VocabularyAbsent(s, Vocabulary);
  }

  /** A word whose first character does not occur in the text is not found in it. */
  lemma {:induction false} VocabularyAbsent(s: string, words: seq<string>)
    requires forall k :: 0 <= k < |words| ==> words[k] != [] && words[k][0] !in s
    ensures VocabularyHits(s, words) == 0
  {
    if words != [] {
      var w := words[|words| - 1];
      if Contains(s, w) {
        ContainsChar(s, w, 0);
      }
      VocabularyAbsent(s, words[..|words| - 1]);
    }
  }

  /**
   * The vocabulary bonus depends only on which words are present, not on how often:
   * two texts containing the same words get the same bonus, at most 50 per word.
   */
  lemma {:induction false} VocabularyBonusByPresence(s: string, t: string, words: seq<string>)
    requires forall w :: w in words ==> (Contains(s, w) <==> Contains(t, w))
    ensures VocabularyHits(s, words) == VocabularyHits(t, words) <= |words|
  {
    if words != [] {
      VocabularyBonusByPresence(s, t, words[..|words| - 1]);
    }
  }

  /**
   * Appending one character in U+00A1-00FF costs two penalty units (it is both extended
   * ASCII and garbled); U+00A0 costs one, since `\s` holds it and it is not garbled.
   */
  lemma ExtendedAsciiPenalty(s: string, c: char)
    requires '\U{00A0}' <= c <= '\U{00FF}'
    ensures PenaltyUnits(s + [c], BrokenPatterns)
            == PenaltyUnits(s, BrokenPatterns) + (if c == '\U{00A0}' then 1 else 2)
  {
    var t := s + [c];
    assert t[..|t| - 1] == s;
    PenaltyUnitsByPattern(s);
    PenaltyUnitsByPattern(t);
    assert PatternCount(t, ReplacementChar) == PatternCount(s, ReplacementChar);
    assert PatternCount(t, ExtendedAscii) == PatternCount(s, ExtendedAscii) + 1;
    assert PatternCount(t, Garbled) == PatternCount(s, Garbled) + (if c == '\U{00A0}' then 0 else 1);
  }

  /** The three patterns are counted independently and their counts added. */
  lemma PenaltyUnitsByPattern(s: string)
    ensures PenaltyUnits(s, BrokenPatterns)
            == PatternCount(s, ReplacementChar) + PatternCount(s, ExtendedAscii) + PatternCount(s, Garbled)
  {
    var ps := BrokenPatterns;
    assert ps[..|ps| - 1] == [ReplacementChar, ExtendedAscii];
    assert [ReplacementChar, ExtendedAscii][..1] == [ReplacementChar];
    assert [ReplacementChar][..0] == [];
    calc {
      PenaltyUnits(s, ps);
      PenaltyUnits(s, [ReplacementChar, ExtendedAscii]) + PatternCount(s, Garbled);
      PenaltyUnits(s, [ReplacementChar]) + PatternCount(s, ExtendedAscii) + PatternCount(s, Garbled);
      PenaltyUnits(s, []) + PatternCount(s, ReplacementChar) + PatternCount(s, ExtendedAscii) + PatternCount(s, Garbled);
    }
  }

  /**
   * Text made only of characters that no rule rewards (between U+0100 and U+2FFF, outside
   * `\s`) is garbled throughout: each character costs 5 and the flat penalty of 100
   * applies, whatever the length.
   */
  lemma GarbledTextScore(s: string)
    requires s != []
    requires forall i :: 0 <= i < |s| ==> '\U{0100}' <= s[i] <= '\U{2FFF}' && !IsSpace(s[i])
    ensures ReadabilityScore(s) == -5 * |s| - 100
  {
    CountWhereNone(IsJapanese, s);
    CountWhereNone(c => Matches(ReplacementChar, c), s);
    CountWhereNone(c => Matches(ExtendedAscii, c), s);
    CountWhereAll(c => Matches(Garbled, c), s);
    PenaltyUnitsByPattern(s);
    VocabularyAbsent(s, Vocabulary);
  }

  lemma {:induction false} CountWhereAll(p: char -> bool, s: string)
    requires forall i :: 0 <= i < |s| ==> p(s[i])
    ensures CountWhere(p, s) == |s|
  {
    if s != [] {
      CountWhereAll(p, s[..|s| - 1]);
    }
  }

  /** The score is bounded by the length: at most 10 per character plus 50 per vocabulary word. */
  lemma ScoreUpperBound(s: string)
    ensures ReadabilityScore(s) <= 10 * |s| + 50 * |Vocabulary|
  {
    CountWhereBound(IsJapanese, s);
    VocabularyBonusByPresence(s, s, Vocabulary);
  }
}
