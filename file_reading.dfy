/**
 * `readCSVFile` and `readAmazonDataFile` without the Drive calls: the file's text as
 * decoded under each candidate encoding (or the decode failure) is an input, the most
 * readable decoding wins, and its lines are parsed into rows.
 */
module FileReading {
  import opened Wrappers
  import opened JsText
  import opened Readability
  import opened RowParsing

  datatype Encoding = Utf8 | ShiftJis | EucJp | Iso2022Jp

  /** The candidate encodings, in the order they are tried. */
  const Encodings: seq<Encoding> := [Utf8, ShiftJis, EucJp, Iso2022Jp]

  /**
   * Candidate `w` wins among the first `n` decodings: it decoded, it scores at least 0,
   * strictly more than every earlier decoding and at least as much as every later one.
   */
  predicate WinsAmong(decoded: seq<Option<string>>, w: nat, n: nat)
    requires n <= |decoded|
  {
    && w < n
    && decoded[w].Some?
    && ReadabilityScore(decoded[w].value) >= 0
    && (forall j :: 0 <= j < w && decoded[j].Some? ==>
          ReadabilityScore(decoded[j].value) < ReadabilityScore(decoded[w].value))
    && (forall j :: w < j < n && decoded[j].Some? ==>
          ReadabilityScore(decoded[j].value) <= ReadabilityScore(decoded[w].value))
  }

  predicate IsWinner(decoded: seq<Option<string>>, w: nat)
  {
    WinsAmong(decoded, w, |decoded|)
  }

  /** No decoding scores 0 or more, so none can beat the initial score of -1. */
  predicate NoneReadable(decoded: seq<Option<string>>, n: nat)
    requires n <= |decoded|
  {
    forall j :: 0 <= j < n && decoded[j].Some? ==> ReadabilityScore(decoded[j].value) < 0
  }

  /** The encoding loop: keeps the first decoding whose score beats the best so far. */
  method SelectBestDecoding(decoded: seq<Option<string>>)
    returns (bestContent: Option<string>, bestEncoding: Encoding, bestScore: int)
    requires |decoded| == |Encodings|
    ensures bestContent.None? <==> NoneReadable(decoded, |decoded|)
    ensures bestContent.None? ==> bestEncoding == Utf8 && bestScore == -1
    ensures bestContent.Some? ==>
              exists w :: 0 <= w < |decoded| && IsWinner(decoded, w) && bestContent == decoded[w] && bestEncoding == Encodings[w]
                          && bestScore == ReadabilityScore(decoded[w].value)
  {
    bestContent, bestEncoding, bestScore := None, Utf8, -1;
    ghost var w := 0;
    for k := 0 to |Encodings|
      invariant bestContent.None? <==> NoneReadable(decoded, k)
      invariant bestContent.None? ==> bestEncoding == Utf8 && bestScore == -1
      invariant bestContent.Some? ==>
                  WinsAmong(decoded, w, k) && bestContent == decoded[w] && bestEncoding == Encodings[w]
                  && bestScore == ReadabilityScore(decoded[w].value)
    {
      if decoded[k].Some? {
        var content := decoded[k].value;
        var score := EvaluateJapaneseReadability(content);
        if score > bestScore {
          if bestContent.None? {
            FirstReadable(decoded, k);
          } else {
            BeatsWinner(decoded, w, k);
          }
          bestScore := score;
          bestContent := Some(content);
          bestEncoding := Encodings[k];
          w := k;
        } else if bestContent.None? {
          NoneStep(decoded, k);
        } else {
          WinnerStays(decoded, w, k);
        }
      } else if bestContent.None? {
        NoneStep(decoded, k);
      } else {
        WinnerStays(decoded, w, k);
      }
    }
  }

  /** The first decoding to score 0 or more wins among those seen so far. */
  lemma FirstReadable(decoded: seq<Option<string>>, k: nat)
    requires k < |decoded| && NoneReadable(decoded, k)
    requires decoded[k].Some? && ReadabilityScore(decoded[k].value) >= 0
    ensures WinsAmong(decoded, k, k + 1) && !NoneReadable(decoded, k + 1)
  {
  }

  /** A decoding scoring strictly more than the winner so far takes its place. */
  lemma BeatsWinner(decoded: seq<Option<string>>, w: nat, k: nat)
    requires k < |decoded| && WinsAmong(decoded, w, k)
    requires decoded[k].Some? && ReadabilityScore(decoded[k].value) > ReadabilityScore(decoded[w].value)
    ensures WinsAmong(decoded, k, k + 1)
  {
  }

  /** A decoding that does not score more leaves the winner in place. */
  lemma WinnerStays(decoded: seq<Option<string>>, w: nat, k: nat)
    requires k < |decoded| && WinsAmong(decoded, w, k)
    requires decoded[k].Some? ==> ReadabilityScore(decoded[k].value) <= ReadabilityScore(decoded[w].value)
    ensures WinsAmong(decoded, w, k + 1)
  {
  }

  /** A decoding that fails or scores below 0 leaves nothing readable. */
  lemma NoneStep(decoded: seq<Option<string>>, k: nat)
    requires k < |decoded| && NoneReadable(decoded, k)
    requires decoded[k].Some? ==> ReadabilityScore(decoded[k].value) < 0
    ensures NoneReadable(decoded, k + 1)
  {
  }

  /** The tie-break makes the winner unique. */
  lemma WinnerUnique(decoded: seq<Option<string>>, v: nat, w: nat)
    requires IsWinner(decoded, v) && IsWinner(decoded, w)
    ensures v == w
  {
  }

  /** The rows a reader returns: none without a winner or with an empty winning text. */
  predicate ReadsAs(decoded: seq<Option<string>>, format: RowFormat, data: seq<seq<string>>)
  {
    if NoneReadable(decoded, |decoded|) then data == []
    else exists w :: 0 <= w < |decoded| && IsWinner(decoded, w) &&
                     data == (if decoded[w].value == [] then [] else ParseLines(Split(decoded[w].value, '\n'), format))
  }

  /** Selection, then `if (!bestContent) return []`, then the row loop. */
  method ReadDecoded(decoded: seq<Option<string>>, format: RowFormat) returns (data: seq<seq<string>>)
    requires |decoded| == |Encodings|
    ensures ReadsAs(decoded, format, data)
  {
    var bestContent, bestEncoding, bestScore := SelectBestDecoding(decoded);
    if bestContent.None? || bestContent.value == [] {
      return [];
    }
    data := ParseRows(bestContent.value, format);
  }

  /**
   * `readCSVFile`: `file` is `None` when the folder has no file of that name, and
   * otherwise holds the decoding under each encoding. Cells are split on tabs, or on
   * commas when a line has no tab.
   */
  method ReadCsvFile(file: Option<seq<Option<string>>>) returns (data: seq<seq<string>>)
    requires file.Some? ==> |file.value| == |Encodings|
    ensures file.None? ==> data == []
    ensures file.Some? ==> ReadsAs(file.value, TabOrComma, data)
  {
    if file.None? {
      return [];
    }
    data := ReadDecoded(file.value, TabOrComma);
  }

  /** `readAmazonDataFile`: the same selection, with cells split on tabs only. */
  method ReadAmazonDataFile(decoded: seq<Option<string>>) returns (data: seq<seq<string>>)
    requires |decoded| == |Encodings|
    ensures ReadsAs(decoded, TabOnly, data)
  {
    data := ReadDecoded(decoded, TabOnly);
  }

  /** Whatever the decodings, a reader returns rows of one reading only. */
  lemma ReadsAsUnique(decoded: seq<Option<string>>, format: RowFormat, d1: seq<seq<string>>, d2: seq<seq<string>>)
    requires ReadsAs(decoded, format, d1) && ReadsAs(decoded, format, d2)
    ensures d1 == d2
  {
    if !NoneReadable(decoded, |decoded|) {
      var v :| 0 <= v < |decoded| && IsWinner(decoded, v) &&
               d1 == (if decoded[v].value == [] then [] else ParseLines(Split(decoded[v].value, '\n'), format));
      var w :| 0 <= w < |decoded| && IsWinner(decoded, w) &&
               d2 == (if decoded[w].value == [] then [] else ParseLines(Split(decoded[w].value, '\n'), format));
      WinnerUnique(decoded, v, w);
    }
  }
}
