/**
 The download detector of the one-shot script (`wait_for_download` in
 index.py): it returns the newest non-temporary regular file as soon as
 one is listed, with no size or lock check. Each element of `listings` is
 what one poll started before the deadline sees.
 */
module SimpleDetector {
  import opened StringOps
  import opened Listing
  import Detector

  /** The script only skips `.crdownload` and `.tmp` files, and anything that is not a regular file. */
  predicate Qualifies(e: Entry) {
    Globbed(e.name) && !EndsWith(e.name, ".crdownload") && !EndsWith(e.name, ".tmp")
    && e.kind == RegularFile
  }

  function ValidFiles(entries: seq<Entry>): (v: seq<Entry>)
    ensures forall e :: e in v <==> e in entries && Qualifies(e)
  {
    Keep(entries, Qualifies)
  }

  /**
   The filter keeps listing order and every copy of a qualifying entry:
   filtering two listings one after the other is filtering their
   concatenation, a single entry survives exactly when it qualifies, and
   each qualifying entry occurs as often as in the listing.
   */
  lemma ValidFilesKeepOrder(xs: seq<Entry>, zs: seq<Entry>)
    ensures ValidFiles(xs + zs) == ValidFiles(xs) + ValidFiles(zs)
    ensures forall e :: ValidFiles([e]) == if Qualifies(e) then [e] else []
    ensures forall e :: multiset(ValidFiles(xs))[e] == (if Qualifies(e) then multiset(xs)[e] else 0)
  {
    KeepDistributes(xs, zs, Qualifies);
    KeepCountsCopies(xs, Qualifies);
    forall e { KeepSingleton(e, Qualifies); }
  }

  /** Poll `i` is the first whose listing holds a valid file. */
  predicate FirstHit(listings: seq<seq<Entry>>, i: int) {
    && 0 <= i < |listings|
    && |ValidFiles(listings[i])| > 0
    && forall j :: 0 <= j < i ==> |ValidFiles(listings[j])| == 0
  }

  function WaitForDownload(listings: seq<seq<Entry>>): (r: Outcome)
    // it times out exactly when no poll sees a valid file
    ensures r.TimedOut? <==> forall i :: 0 <= i < |listings| ==> |ValidFiles(listings[i])| == 0
    // otherwise it answers on the first such poll, with that poll's newest valid file
    ensures r.Found? ==> exists i :: FirstHit(listings, i) && r.path == Newest(ValidFiles(listings[i])).name
    decreases |listings|
  {
    if |listings| == 0 then TimedOut
    else
      var v := ValidFiles(listings[0]);
      if |v| > 0 then
        assert FirstHit(listings, 0);
        Found(Newest(v).name)
      else
        var r := WaitForDownload(listings[1..]);
        if r.Found? then
          var i :| FirstHit(listings[1..], i) && r.path == Newest(ValidFiles(listings[1..][i])).name;
          FirstHitAfterEmptyPoll(listings, i);
          r
        else
          AllEmptyAfterEmptyPoll(listings);
          r
  }

  lemma FirstHitAfterEmptyPoll(listings: seq<seq<Entry>>, i: int)
    requires |listings| > 0 && |ValidFiles(listings[0])| == 0
    requires FirstHit(listings[1..], i)
    ensures FirstHit(listings, i + 1) && listings[1..][i] == listings[i + 1]
  {
    forall j | 0 <= j < i + 1 ensures |ValidFiles(listings[j])| == 0 {
      if j > 0 {
        assert listings[1..][j - 1] == listings[j];
      }
    }
  }

  lemma AllEmptyAfterEmptyPoll(listings: seq<seq<Entry>>)
    requires |listings| > 0 && |ValidFiles(listings[0])| == 0
    ensures (forall i :: 0 <= i < |listings| ==> |ValidFiles(listings[i])| == 0)
        <==> (forall i :: 0 <= i < |listings| - 1 ==> |ValidFiles(listings[1..][i])| == 0)
  {
    assert forall i :: 0 <= i < |listings| - 1 ==> listings[1..][i] == listings[i + 1];
  }

  /**
   The returned file is a regular file without a `.crdownload` or `.tmp`
   suffix, and no valid file of its listing is newer.
   */
  lemma ReturnedPathQualifies(listings: seq<seq<Entry>>)
    ensures WaitForDownload(listings).Found? ==>
      exists i, e :: 0 <= i < |listings| && e in listings[i] && e.name == WaitForDownload(listings).path
        && !EndsWith(e.name, ".crdownload") && !EndsWith(e.name, ".tmp") && e.kind == RegularFile
        && (forall f :: f in listings[i] && Qualifies(f) ==> f.ctime <= e.ctime)
  {
    var r := WaitForDownload(listings);
    if r.Found? {
      var i :| FirstHit(listings, i) && r.path == Newest(ValidFiles(listings[i])).name;
      var e := Newest(ValidFiles(listings[i]));
      assert e in listings[i];
    }
  }

  /** Unlike the service's detector, the script accepts `.part` files and empty files. */
  lemma AcceptsPartialAndEmptyFiles()
    ensures var e := Entry("a.part", RegularFile, 0, 7);
      Qualifies(e) && !Detector.Qualifies(e) && WaitForDownload([[e]]) == Found("a.part")
  {
    var e := Entry("a.part", RegularFile, 0, 7);
    assert "a.part"[6 - 4..] == "part";
    assert "a.part"[6 - 5..] == ".part";
    KeepAll([e], Qualifies);
  }

  /** Every file the service's detector would consider is one the script would consider too. */
  lemma ServiceFilterIsStricter(e: Entry)
    requires Detector.Qualifies(e)
    ensures Qualifies(e)
  {
  }

  /** A directory that stays empty makes the script time out. */
  lemma EmptyDirectoryTimesOut(listings: seq<seq<Entry>>)
    requires forall i :: 0 <= i < |listings| ==> listings[i] == []
    ensures WaitForDownload(listings) == TimedOut
  {
  }
}
