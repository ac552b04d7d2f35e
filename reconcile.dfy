/**
 * `findMatchingData`: the buyer name of an order is looked up in the Sagawa manifest,
 * then in the Shoshin manifest, then in the Fukuyama manifest; the first row whose
 * name cell matches gives the carrier and the tracking number.
 */
module Reconcile {
  import opened Wrappers
  import opened FuzzyMatch

  datatype MatchResult = MatchResult(found: bool, carrier: string, trackingNumber: string)

  const NotFound := MatchResult(false, "", "")

  const SagawaCarrier := "佐川急便"
  const FukuyamaCarrier := "福山通運"

  /** Columns H, O, P and Q of the Sagawa manifest, where a consignee name may stand. */
  const SagawaNameColumns: seq<nat> := [7, 14, 15, 16]

  /** The three manifests; Shoshin shipments are carried by Sagawa. */
  datatype Source = Sagawa | Shoshin | Fukuyama

  /** `row[k] || ''`: a missing cell reads as the empty string. */
  function Cell(row: seq<string>, k: nat): (r: string)
    ensures k < |row| ==> r == row[k]
    ensures |row| <= k ==> r == ""
  {
    if k < |row| then row[k] else ""
  }

  /** A short row reads like the same row padded with empty cells. */
  lemma CellOfPadded(row: seq<string>, n: nat, k: nat)
    ensures Cell(row + seq(n, _ => ""), k) == Cell(row, k)
  {
    if k < |row| {
      assert (row + seq(n, _ => ""))[k] == row[k];
    } else if k < |row| + n {
      assert (row + seq(n, _ => ""))[k] == "";
    }
  }

  /** `getShoshinStartIndex`: the header check is switched off and scanning starts at row 0. */
  function ShoshinStartIndex(shoshin: seq<seq<string>>): nat
  {
    0
  }

  /** The first row scanned in each manifest: the Sagawa and Fukuyama headers are skipped. */
  function StartRow(src: Source, rows: seq<seq<string>>): nat
  {
    match src
    case Sagawa => 1
    case Shoshin => ShoshinStartIndex(rows)
    case Fukuyama => 1
  }

  /**
   * Column `k` of the row holds a non-empty name that `matches` the buyer name. The
   * search is stated for any name matcher; `findMatchingData` uses `fuzzyMatch`.
   */
  predicate ColumnHit(matches: (string, string) -> bool, name: string, row: seq<string>, k: nat)
  {
    |row| > k && row[k] != [] && matches(name, row[k])
  }

  /** The row matches the buyer name in one of the columns its manifest keeps names in. */
  predicate RowHit(matches: (string, string) -> bool, src: Source, name: string, row: seq<string>)
  {
    match src
    case Sagawa => exists j :: 0 <= j < |SagawaNameColumns| && ColumnHit(matches, name, row, SagawaNameColumns[j])
    case Shoshin => ColumnHit(matches, name, row, 0)
    case Fukuyama => ColumnHit(matches, name, row, 9)
  }

  function Carrier(src: Source): string
  {
    match src
    case Sagawa => SagawaCarrier
    case Shoshin => SagawaCarrier
    case Fukuyama => FukuyamaCarrier
  }

  /** The tracking-number column: the invoice number of Sagawa and Fukuyama, column J of Shoshin. */
  function Tracking(src: Source, row: seq<string>): string
  {
    match src
    case Sagawa => Cell(row, 0)
    case Shoshin => Cell(row, 9)
    case Fukuyama => Cell(row, 2)
  }

  /** The first matching row at or after `from`, if any. */
  function FirstHit(matches: (string, string) -> bool, src: Source, name: string, rows: seq<seq<string>>, from: nat): (r: Option<nat>)
    ensures r.Some? ==> from <= r.value < |rows| && RowHit(matches, src, name, rows[r.value])
    ensures r.Some? ==> forall i :: from <= i < r.value ==> !RowHit(matches, src, name, rows[i])
    ensures r.None? ==> forall i :: from <= i < |rows| ==> !RowHit(matches, src, name, rows[i])
    decreases |rows| - from
  {
    if from >= |rows| then None
    else if RowHit(matches, src, name, rows[from]) then Some(from)
    else FirstHit(matches, src, name, rows, from + 1)
  }

  /** Some row of the manifest, from its start row on, matches. */
  predicate AnyHit(matches: (string, string) -> bool, src: Source, name: string, rows: seq<seq<string>>)
  {
    exists i :: StartRow(src, rows) <= i < |rows| && RowHit(matches, src, name, rows[i])
  }

  function Search(matches: (string, string) -> bool, src: Source, name: string, rows: seq<seq<string>>): Option<MatchResult>
  {
    match FirstHit(matches, src, name, rows, StartRow(src, rows))
    case Some(i) => Some(MatchResult(true, Carrier(src), Tracking(src, rows[i])))
    case None => None
  }

  /** What `findMatchingData` returns once the Shoshin scan starts at `getShoshinStartIndex()`. */
  function Reconciled(matches: (string, string) -> bool, name: string, sagawa: seq<seq<string>>, shoshin: seq<seq<string>>,
                      fukuyama: seq<seq<string>>): (r: MatchResult)
    ensures r.found <==> AnyHit(matches, Sagawa, name, sagawa) || AnyHit(matches, Shoshin, name, shoshin) || AnyHit(matches, Fukuyama, name, fukuyama)
    ensures !r.found ==> r == NotFound
    ensures r.found ==> r.carrier == SagawaCarrier || r.carrier == FukuyamaCarrier
  {
    match Search(matches, Sagawa, name, sagawa)
    case Some(m) => m
    case None =>
      match Search(matches, Shoshin, name, shoshin)
      case Some(m) => m
      case None =>
        match Search(matches, Fukuyama, name, fukuyama)
        case Some(m) => m
        case None => NotFound
  }

  /**
   * `findMatchingData` with the Shoshin scan starting at `getShoshinStartIndex()`. The
   * name matcher is a parameter so that the search is proved once for any matcher;
   * the batch passes `fuzzyMatch`, as the source does.
   */
  method FindMatchingData(matches: (string, string) -> bool, buyerName: string, sagawaData: seq<seq<string>>,
                          shoshinData: seq<seq<string>>, fukuyamaData: seq<seq<string>>) returns (r: MatchResult)
    ensures r == Reconciled(matches, buyerName, sagawaData, shoshinData, fukuyamaData)
  {
    var i := 1;
    while i < |sagawaData|
      invariant 1 <= i
      invariant FirstHit(matches, Sagawa, buyerName, sagawaData, 1) == FirstHit(matches, Sagawa, buyerName, sagawaData, i)
    {
      var row := sagawaData[i];
      var j := 0;
      while j < |SagawaNameColumns|
        invariant 0 <= j <= |SagawaNameColumns|
        invariant forall m :: 0 <= m < j ==> !ColumnHit(matches, buyerName, row, SagawaNameColumns[m])
      {
        var colIndex := SagawaNameColumns[j];
        if |row| > colIndex && row[colIndex] != [] {
          var csvName := row[colIndex];
          if matches(buyerName, csvName) {
            assert ColumnHit(matches, buyerName, row, SagawaNameColumns[j]);
            return MatchResult(true, SagawaCarrier, Cell(row, 0));
          }
        }
        j := j + 1;
      }
      i := i + 1;
    }
    i := ShoshinStartIndex(shoshinData);
    while i < |shoshinData|
      invariant FirstHit(matches, Shoshin, buyerName, shoshinData, 0) == FirstHit(matches, Shoshin, buyerName, shoshinData, i)
    {
      var row := shoshinData[i];
      if |row| > 0 && row[0] != [] {
        var csvName := row[0];
        if matches(buyerName, csvName) {
          return MatchResult(true, SagawaCarrier, Cell(row, 9));
        }
      }
      i := i + 1;
    }
    i := 1;
    while i < |fukuyamaData|
      invariant 1 <= i
      invariant FirstHit(matches, Fukuyama, buyerName, fukuyamaData, 1) == FirstHit(matches, Fukuyama, buyerName, fukuyamaData, i)
    {
      var row := fukuyamaData[i];
      if |row| > 9 && row[9] != [] {
        var csvName := row[9];
        if matches(buyerName, csvName) {
          return MatchResult(true, FukuyamaCarrier, Cell(row, 2));
        }
      }
      i := i + 1;
    }
    return NotFound;
  }

  /**
   * What the shipped `findMatchingData` returns: the Shoshin loop reads the undeclared
   * `shoshinStartIndex`, the `ReferenceError` lands in the `catch`, and the result is
   * not-found whenever the Sagawa scan found nothing.
   */
  function FindMatchingDataAsShipped(matches: (string, string) -> bool, name: string, sagawa: seq<seq<string>>, shoshin: seq<seq<string>>,
                                     fukuyama: seq<seq<string>>): (r: MatchResult)
    ensures r.found <==> AnyHit(matches, Sagawa, name, sagawa)
    ensures !r.found ==> r == NotFound
  {
    match Search(matches, Sagawa, name, sagawa)
    case Some(m) => m
    case None => NotFound
  }

  /** The Sagawa manifest is searched first: a hit there decides the result in both versions. */
  lemma SagawaFirst(matches: (string, string) -> bool, name: string, sagawa: seq<seq<string>>, shoshin: seq<seq<string>>,
                    fukuyama: seq<seq<string>>, i: nat)
    requires 1 <= i < |sagawa| && RowHit(matches, Sagawa, name, sagawa[i])
    requires forall k :: 1 <= k < i ==> !RowHit(matches, Sagawa, name, sagawa[k])
    ensures Reconciled(matches, name, sagawa, shoshin, fukuyama) == MatchResult(true, SagawaCarrier, Cell(sagawa[i], 0))
    ensures FindMatchingDataAsShipped(matches, name, sagawa, shoshin, fukuyama) == Reconciled(matches, name, sagawa, shoshin, fukuyama)
  {
    FirstHitIs(matches, Sagawa, name, sagawa, 1, i);
  }

  /** Shoshin is consulted only when Sagawa has no match, and its first match wins. */
  lemma ShoshinSecond(matches: (string, string) -> bool, name: string, sagawa: seq<seq<string>>, shoshin: seq<seq<string>>,
                      fukuyama: seq<seq<string>>, i: nat)
    requires !AnyHit(matches, Sagawa, name, sagawa)
    requires i < |shoshin| && RowHit(matches, Shoshin, name, shoshin[i])
    requires forall k :: 0 <= k < i ==> !RowHit(matches, Shoshin, name, shoshin[k])
    ensures Reconciled(matches, name, sagawa, shoshin, fukuyama) == MatchResult(true, SagawaCarrier, Cell(shoshin[i], 9))
  {
    FirstHitIs(matches, Shoshin, name, shoshin, 0, i);
  }

  /** Fukuyama is consulted last, and its first match wins. */
  lemma FukuyamaLast(matches: (string, string) -> bool, name: string, sagawa: seq<seq<string>>, shoshin: seq<seq<string>>,
                     fukuyama: seq<seq<string>>, i: nat)
    requires !AnyHit(matches, Sagawa, name, sagawa) && !AnyHit(matches, Shoshin, name, shoshin)
    requires 1 <= i < |fukuyama| && RowHit(matches, Fukuyama, name, fukuyama[i])
    requires forall k :: 1 <= k < i ==> !RowHit(matches, Fukuyama, name, fukuyama[k])
    ensures Reconciled(matches, name, sagawa, shoshin, fukuyama) == MatchResult(true, FukuyamaCarrier, Cell(fukuyama[i], 2))
  {
    FirstHitIs(matches, Fukuyama, name, fukuyama, 1, i);
  }

  /** The first matching row is the one no earlier row beats. */
  lemma FirstHitIs(matches: (string, string) -> bool, src: Source, name: string, rows: seq<seq<string>>, from: nat, i: nat)
    requires from <= i < |rows| && RowHit(matches, src, name, rows[i])
    requires forall k :: from <= k < i ==> !RowHit(matches, src, name, rows[k])
    ensures FirstHit(matches, src, name, rows, from) == Some(i)
  {
  }

  /** A buyer name the matcher accepts against no manifest name is not found. */
  lemma NeverMatchedNotFound(matches: (string, string) -> bool, name: string, sagawa: seq<seq<string>>,
                             shoshin: seq<seq<string>>, fukuyama: seq<seq<string>>)
    requires forall x :: !matches(name, x)
    ensures Reconciled(matches, name, sagawa, shoshin, fukuyama) == NotFound
  {
    assert !AnyHit(matches, Sagawa, name, sagawa);
  }

  /** An empty buyer name (a blank column Q of the order file) is never found. */
  lemma EmptyNameNotFound(sagawa: seq<seq<string>>, shoshin: seq<seq<string>>, fukuyama: seq<seq<string>>)
    ensures Reconciled(FuzzyMatch.FuzzyMatch, [], sagawa, shoshin, fukuyama) == NotFound
  {
    NeverMatchedNotFound(FuzzyMatch.FuzzyMatch, [], sagawa, shoshin, fukuyama);
  }

  /**
   * The shipped code loses a match that only the Shoshin manifest holds: a name found
   * in Shoshin's first row is reported as not found, where the intended search reports
   * it as a Sagawa shipment.
   */
  lemma ShippedLosesShoshinMatch(name: string, shoshinRow: seq<string>)
    requires name == "山田" && shoshinRow == [name]
    ensures FindMatchingDataAsShipped(FuzzyMatch.FuzzyMatch, name, [], [shoshinRow], []) == NotFound
    ensures Reconciled(FuzzyMatch.FuzzyMatch, name, [], [shoshinRow], []) == MatchResult(true, SagawaCarrier, "")
  {
    assert FuzzyMatch.FuzzyMatch(name, shoshinRow[0]) by {
      assert FuzzyMatch.Overlaps(Normalize.NormalizeText(name), Normalize.NormalizeText(shoshinRow[0]));
    }
    assert RowHit(FuzzyMatch.FuzzyMatch, Shoshin, name, shoshinRow);
    FirstHitIs(FuzzyMatch.FuzzyMatch, Shoshin, name, [shoshinRow], 0, 0);
  }
}
