/**
 * `processDataForExcel`: one output record per complete order row, carrying the
 * order's identifiers, the shipping date and, when the buyer was found in a carrier
 * manifest, the carrier and the tracking number.
 */
module Batch {
  import opened Reconcile
  import FuzzyMatch
  import Dates

  datatype OutputRecord = OutputRecord(
    orderId: string,
    orderItemId: string,
    quantityPurchased: string,
    convertedDate: string,
    recordType: string,
    carrier: string,
    trackingNumber: string)

  /**
   * Which `findMatchingData` the batch calls: the one that searches all three manifests,
   * or the one the source ships, which returns from its first manifest loop.
   */
  datatype Version = Intended | AsShipped

  /** The match of one buyer name under either version of the search. */
  function Lookup(version: Version, matches: (string, string) -> bool, name: string, sagawa: seq<seq<string>>,
                  shoshin: seq<seq<string>>, fukuyama: seq<seq<string>>): (r: MatchResult)
    ensures version == AsShipped ==> (r.found <==> AnyHit(matches, Sagawa, name, sagawa))
    ensures version == Intended ==> (r.found <==> AnyHit(matches, Sagawa, name, sagawa)
                                                  || AnyHit(matches, Shoshin, name, shoshin)
                                                  || AnyHit(matches, Fukuyama, name, fukuyama))
    ensures !r.found ==> r == NotFound
  {
    match version
    case Intended => Reconciled(matches, name, sagawa, shoshin, fukuyama)
    case AsShipped => FindMatchingDataAsShipped(matches, name, sagawa, shoshin, fukuyama)
  }

  /** Order rows with fewer cells than this are skipped as incomplete. */
  const MinOrderCells := 25

  /** The order-file columns read: order id, order item id, quantity and buyer name. */
  const OrderIdColumn := 0
  const OrderItemIdColumn := 1
  const QuantityColumn := 9
  const BuyerNameColumn := 16

  predicate Complete(row: seq<string>)
  {
    |row| >= MinOrderCells
  }

  /** The record of one complete order row. */
  function RecordFor(version: Version, matches: (string, string) -> bool, row: seq<string>, sagawa: seq<seq<string>>, shoshin: seq<seq<string>>,
                     fukuyama: seq<seq<string>>, shippingDate: string): OutputRecord
  {
    var m := Lookup(version, matches, Cell(row, BuyerNameColumn), sagawa, shoshin, fukuyama);
    OutputRecord(Cell(row, OrderIdColumn), Cell(row, OrderItemIdColumn), Cell(row, QuantityColumn),
                 shippingDate, "Other",
                 if m.found then m.carrier else "",
                 if m.found then m.trackingNumber else "")
  }

  /** The records of the order rows after the header, in order. */
  function Processed(version: Version, matches: (string, string) -> bool, amazon: seq<seq<string>>, sagawa: seq<seq<string>>, shoshin: seq<seq<string>>,
                     fukuyama: seq<seq<string>>, shippingDate: string): seq<OutputRecord>
  {
    if |amazon| <= 1 then []
    else
      var last := amazon[|amazon| - 1];
      Processed(version, matches, amazon[..|amazon| - 1], sagawa, shoshin, fukuyama, shippingDate)
        + (if Complete(last) then [RecordFor(version, matches, last, sagawa, shoshin, fukuyama, shippingDate)] else [])
  }

  /** The batch loop, with the order row's buyer name looked up through `matches`. */
  method ProcessRows(version: Version, matches: (string, string) -> bool, amazonData: seq<seq<string>>, sagawaData: seq<seq<string>>,
                     shoshinData: seq<seq<string>>, fukuyamaData: seq<seq<string>>,
                     shippingDate: string) returns (processedData: seq<OutputRecord>)
    ensures processedData == Processed(version, matches, amazonData, sagawaData, shoshinData, fukuyamaData, shippingDate)
  {
    processedData := [];
    var i := 1;
    ghost var seen := if |amazonData| == 0 then 0 else 1;
    while i < |amazonData|
      invariant 1 <= i && seen <= |amazonData|
      invariant |amazonData| > 0 ==> seen == i
      invariant processedData == Processed(version, matches, amazonData[..seen], sagawaData, shoshinData, fukuyamaData, shippingDate)
    {
      ProcessedStep(version, matches, amazonData, i, sagawaData, shoshinData, fukuyamaData, shippingDate);
      var row := amazonData[i];
      if |row| < MinOrderCells {
        i, seen := i + 1, seen + 1;
        continue;
      }
      var orderId := Cell(row, OrderIdColumn);
      var orderItemId := Cell(row, OrderItemIdColumn);
      var quantityPurchased := Cell(row, QuantityColumn);
      var buyerName := Cell(row, BuyerNameColumn);
      var matchResult;
      if version == Intended {
        matchResult := FindMatchingData(matches, buyerName, sagawaData, shoshinData, fukuyamaData);
      } else {
        matchResult := FindMatchingDataAsShipped(matches, buyerName, sagawaData, shoshinData, fukuyamaData);
      }
      processedData := processedData + [OutputRecord(
        orderId, orderItemId, quantityPurchased, shippingDate, "Other",
        if matchResult.found then matchResult.carrier else "",
        if matchResult.found then matchResult.trackingNumber else "")];
      i, seen := i + 1, seen + 1;
    }
    if |amazonData| > 0 {
      assert amazonData[..|amazonData|] == amazonData;
    }
  }

  /**
   * `processDataForExcel`: the batch loop with `fuzzyMatch` as the matcher. Today's
   * year, month (1 to 12) and day are arguments; every record carries them as the
   * `YYYY-MM-DD` shipping date.
   */
  method ProcessDataForExcel(amazonData: seq<seq<string>>, sagawaData: seq<seq<string>>,
                             shoshinData: seq<seq<string>>, fukuyamaData: seq<seq<string>>,
                             year: nat, month: nat, day: nat) returns (processedData: seq<OutputRecord>)
    ensures processedData == Processed(Intended, FuzzyMatch.FuzzyMatch, amazonData, sagawaData, shoshinData, fukuyamaData,
                                       Dates.ShippingDate(year, month, day))
  {
    var shippingDate := Dates.ShippingDate(year, month, day);
    processedData := ProcessRows(Intended, FuzzyMatch.FuzzyMatch, amazonData, sagawaData, shoshinData, fukuyamaData, shippingDate);
  }

  /** The records of one more order row. */
  lemma ProcessedStep(version: Version, matches: (string, string) -> bool, amazon: seq<seq<string>>, i: nat, sagawa: seq<seq<string>>,
                      shoshin: seq<seq<string>>, fukuyama: seq<seq<string>>, shippingDate: string)
    requires 1 <= i < |amazon|
    ensures Processed(version, matches, amazon[..i + 1], sagawa, shoshin, fukuyama, shippingDate)
            == Processed(version, matches, amazon[..i], sagawa, shoshin, fukuyama, shippingDate)
               + (if Complete(amazon[i]) then [RecordFor(version, matches, amazon[i], sagawa, shoshin, fukuyama, shippingDate)] else [])
  {
    assert amazon[..i + 1][..i] == amazon[..i];
  }

  /** The positions of the complete order rows after the header. */
  function CompleteRows(amazon: seq<seq<string>>): set<nat>
  {
    set i: nat | 1 <= i < |amazon| && Complete(amazon[i])
  }

  /** Exactly one record per complete order row: the header and short rows yield none. */
  lemma {:induction false} RecordCount(version: Version, matches: (string, string) -> bool, amazon: seq<seq<string>>, sagawa: seq<seq<string>>, shoshin: seq<seq<string>>,
                                       fukuyama: seq<seq<string>>, shippingDate: string)
    ensures |Processed(version, matches, amazon, sagawa, shoshin, fukuyama, shippingDate)| == |CompleteRows(amazon)|
  {
    if |amazon| <= 1 {
      assert CompleteRows(amazon) == {};
    } else {
      RecordCount(version, matches, amazon[..|amazon| - 1], sagawa, shoshin, fukuyama, shippingDate);
      CompleteRowsStep(amazon);
    }
  }

  lemma CompleteRowsStep(amazon: seq<seq<string>>)
    requires |amazon| >= 2
    ensures var n := |amazon| - 1;
            |CompleteRows(amazon)| == |CompleteRows(amazon[..n])| + (if Complete(amazon[n]) then 1 else 0)
  {
    var n := |amazon| - 1;
    var init := amazon[..n];
    var before, after := CompleteRows(init), CompleteRows(amazon);
    var last: set<nat> := if Complete(amazon[n]) then {n} else {};
    forall i: nat ensures i in after <==> i in before + last {
      if i < n {
        assert init[i] == amazon[i];
      }
    }
    assert after == before + last;
    assert before !! last;
  }

  /**
   * `rec` is the record of the complete order row `row`: its identifiers and quantity
   * are the row's cells, its date is the shipping date, its type is `Other`, and its
   * carrier and tracking number are those the reconciliation of the row's buyer name
   * found, or empty when the name was not found.
   */
  predicate RecordOf(version: Version, matches: (string, string) -> bool, rec: OutputRecord, row: seq<string>, sagawa: seq<seq<string>>, shoshin: seq<seq<string>>,
                     fukuyama: seq<seq<string>>, shippingDate: string)
    requires Complete(row)
  {
    var m := Lookup(version, matches, row[BuyerNameColumn], sagawa, shoshin, fukuyama);
    && rec.orderId == row[OrderIdColumn]
    && rec.orderItemId == row[OrderItemIdColumn]
    && rec.quantityPurchased == row[QuantityColumn]
    && rec.convertedDate == shippingDate
    && rec.recordType == "Other"
    && (m.found ==> rec.carrier == m.carrier && rec.trackingNumber == m.trackingNumber)
    && (!m.found ==> rec.carrier == "" && rec.trackingNumber == "")
  }

  /** Every record is the record of a complete order row after the header. */
  lemma {:induction false} RecordOfRow(version: Version, matches: (string, string) -> bool, amazon: seq<seq<string>>, sagawa: seq<seq<string>>, shoshin: seq<seq<string>>,
                                       fukuyama: seq<seq<string>>, shippingDate: string, k: nat)
    requires k < |Processed(version, matches, amazon, sagawa, shoshin, fukuyama, shippingDate)|
    ensures exists i :: 1 <= i < |amazon| && Complete(amazon[i]) &&
              RecordOf(version, matches, Processed(version, matches, amazon, sagawa, shoshin, fukuyama, shippingDate)[k], amazon[i],
                       sagawa, shoshin, fukuyama, shippingDate)
  {
    var n := |amazon| - 1;
    var init := amazon[..n];
    var out := Processed(version, matches, amazon, sagawa, shoshin, fukuyama, shippingDate);
    if k < |Processed(version, matches, init, sagawa, shoshin, fukuyama, shippingDate)| {
      RecordOfRow(version, matches, init, sagawa, shoshin, fukuyama, shippingDate, k);
      var i :| 1 <= i < |init| && Complete(init[i]) &&
               RecordOf(version, matches, Processed(version, matches, init, sagawa, shoshin, fukuyama, shippingDate)[k], init[i],
                        sagawa, shoshin, fukuyama, shippingDate);
      assert amazon[i] == init[i];
      assert out[k] == Processed(version, matches, init, sagawa, shoshin, fukuyama, shippingDate)[k];
    } else {
      assert Complete(amazon[n]);
      assert RecordOf(version, matches, out[k], amazon[n], sagawa, shoshin, fukuyama, shippingDate);
    }
  }

  /** Rows appended to the order file add their records at the end: the output keeps input order. */
  lemma {:induction false} ProcessedAppend(version: Version, matches: (string, string) -> bool, amazon: seq<seq<string>>, more: seq<seq<string>>, sagawa: seq<seq<string>>,
                                           shoshin: seq<seq<string>>, fukuyama: seq<seq<string>>, shippingDate: string)
    requires |amazon| >= 1
    ensures Processed(version, matches, amazon + more, sagawa, shoshin, fukuyama, shippingDate)
            == Processed(version, matches, amazon, sagawa, shoshin, fukuyama, shippingDate)
               + Processed(version, matches, [amazon[0]] + more, sagawa, shoshin, fukuyama, shippingDate)
    decreases |more|
  {
    if more == [] {
      assert amazon + more == amazon;
      assert [amazon[0]] + more == [amazon[0]];
    } else {
      var more' := more[..|more| - 1];
      assert (amazon + more)[..|amazon + more| - 1] == amazon + more';
      assert (amazon + more)[|amazon + more| - 1] == more[|more| - 1];
      assert ([amazon[0]] + more)[..|more|] == [amazon[0]] + more';
      assert ([amazon[0]] + more)[|more|] == more[|more| - 1];
      ProcessedAppend(version, matches, amazon, more', sagawa, shoshin, fukuyama, shippingDate);
    }
  }

  /**
   * With the search as shipped, a record carries a carrier and a tracking number only
   * when its buyer was found in the Sagawa manifest: matches in the Shoshin and Fukuyama
   * manifests never reach the output.
   */
  lemma ShippedBatchSagawaOnly(matches: (string, string) -> bool, amazon: seq<seq<string>>, sagawa: seq<seq<string>>,
                               shoshin: seq<seq<string>>, fukuyama: seq<seq<string>>, shippingDate: string, k: nat)
    requires k < |Processed(AsShipped, matches, amazon, sagawa, shoshin, fukuyama, shippingDate)|
    ensures var rec := Processed(AsShipped, matches, amazon, sagawa, shoshin, fukuyama, shippingDate)[k];
            exists i :: && 1 <= i < |amazon| && Complete(amazon[i])
                        && RecordOf(AsShipped, matches, rec, amazon[i], sagawa, shoshin, fukuyama, shippingDate)
                        && (!AnyHit(matches, Sagawa, amazon[i][BuyerNameColumn], sagawa) ==> rec.carrier == "" && rec.trackingNumber == "")
  {
    RecordOfRow(AsShipped, matches, amazon, sagawa, shoshin, fukuyama, shippingDate, k);
  }

  /**
   * An order whose buyer appears only in the Shoshin manifest: the intended batch
   * records Sagawa as its carrier, the batch as shipped leaves the carrier empty.
   */
  lemma ShippedBatchLosesShoshinMatch(row: seq<string>, shippingDate: string)
    requires |row| == MinOrderCells && row[BuyerNameColumn] == "山田"
    ensures var amazon := [[], row];
            && Processed(Intended, FuzzyMatch.FuzzyMatch, amazon, [], [["山田"]], [], shippingDate)[0].carrier == SagawaCarrier
            && Processed(AsShipped, FuzzyMatch.FuzzyMatch, amazon, [], [["山田"]], [], shippingDate)[0].carrier == ""
  {
    var amazon := [[], row];
    ShippedLosesShoshinMatch("山田", ["山田"]);
    assert amazon[..1] == [[]];
  }
}
