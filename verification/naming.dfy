/**
 Names derived from vendor data in main.py: the order id read from the
 newest order's element id (`run_scrape`), and the file name a download is
 served under (`download_csv`, `download_csv_content`).
 */
module Naming {
  import opened Wrappers
  import opened StringOps

  /** `run_scrape` answers HTTP 500 "Could not retrieve order ID" when the element has no id. */
  datatype NamingError = MissingOrderId

  /** The text after the last `sep` of `s`, or all of `s` when it has none. */
  predicate AfterLast(s: string, sep: char, r: string) {
    sep !in r && EndsWith(s, r) && (|r| == |s| || s[|s| - |r| - 1] == sep)
  }

  /**
   `latest_order_id.split("_")[-1]`, after rejecting a missing (`None`) or
   empty id.
   */
  function OrderId(elementId: Option<string>): (r: Result<string, NamingError>)
    ensures r.Err? <==> elementId.None? || elementId.value == ""
    // the text after the last underscore, or the whole id when it has none
    ensures r.Ok? ==> AfterLast(elementId.value, '_', r.value)
  {
    if elementId.None? || elementId.value == "" then Err(MissingOrderId)
    else Ok(LastPiece(elementId.value, '_'))
  }

  /** The order id is the last of the pieces that rejoin into the element id. */
  lemma OrderIdIsLastPiece(elementId: string)
    requires elementId != ""
    ensures exists pieces: seq<string> ::
      && |pieces| >= 1
      && (forall k :: 0 <= k < |pieces| ==> '_' !in pieces[k])
      && Join(pieces, '_') == elementId
      && OrderId(Some(elementId)) == Ok(pieces[|pieces| - 1])
  {
    var pieces := Split(elementId, '_');
    JoinSplit(elementId, '_');
    assert OrderId(Some(elementId)) == Ok(LastPiece(elementId, '_'));
    assert LastPiece(elementId, '_') == pieces[|pieces| - 1];
  }

  /** At most one string is the text after the last separator, so the contract of `OrderId` pins it down. */
  lemma AfterLastIsUnique(s: string, sep: char, r1: string, r2: string)
    requires AfterLast(s, sep, r1) && AfterLast(s, sep, r2)
    ensures r1 == r2
  {
  }

  /** Only a missing or empty id is rejected: an id ending in `_` gives an empty order id. */
  lemma TrailingUnderscoreGivesEmptyOrderId()
    ensures OrderId(Some("order_")) == Ok("")
  {
    var r := OrderId(Some("order_")).value;
    assert "order_"[5] == '_';
    AfterLastIsUnique("order_", '_', r, "");
  }

  /** Whatever precedes the last underscore, the order id is what follows it. */
  lemma OrderIdAfterLastUnderscore(prefix: string, tail: string)
    requires '_' !in tail
    ensures OrderId(Some(prefix + "_" + tail)) == Ok(tail)
  {
    var id := prefix + "_" + tail;
    assert id[|id| - |tail|..] == tail;
    assert id[|id| - |tail| - 1] == '_';
    AfterLastIsUnique(id, '_', OrderId(Some(id)).value, tail);
  }

  const ExportPrefix := "vayne_export_"
  const ExportSuffix := ".csv"

  /** `f"vayne_export_{run_id}.csv"`. */
  function ExportName(runId: string): (name: string)
    ensures StartsWith(name, ExportPrefix) && EndsWith(name, ExportSuffix)
    ensures |name| == |ExportPrefix| + |runId| + |ExportSuffix|
    ensures name[|ExportPrefix|..|name| - |ExportSuffix|] == runId
  {
    ExportPrefix + runId + ExportSuffix
  }

  /** Recovers the run id from an export file name. */
  function RunIdOf(name: string): Option<string> {
    if |name| >= |ExportPrefix| + |ExportSuffix| && StartsWith(name, ExportPrefix) && EndsWith(name, ExportSuffix)
    then Some(name[|ExportPrefix|..|name| - |ExportSuffix|])
    else None
  }

  /** The run id can be read back from the file name. */
  lemma RunIdRoundTrip(runId: string)
    ensures RunIdOf(ExportName(runId)) == Some(runId)
  {
    var name := ExportName(runId);
    assert name[|ExportPrefix|..|name| - |ExportSuffix|] == runId;
  }

  /** Every name that reads back a run id is the export name of that id. */
  lemma ExportNameRoundTrip(name: string)
    requires RunIdOf(name).Some?
    ensures ExportName(RunIdOf(name).value) == name
  {
    var id := RunIdOf(name).value;
    assert name == name[..|ExportPrefix|] + id + name[|name| - |ExportSuffix|..];
  }

  /** Different runs are served under different names. */
  lemma ExportNameInjective(a: string, b: string)
    requires ExportName(a) == ExportName(b)
    ensures a == b
  {
    RunIdRoundTrip(a);
    RunIdRoundTrip(b);
  }
}
