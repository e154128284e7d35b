/**
 The start-up sweep of the download directory (`cleanup_old_downloads` in
 main.py). Every regular file and every directory whose creation is more
 than the retention window in the past is removed; other entries (broken
 links, sockets) are left alone, and a missing directory is a no-op.
 A path that exists but cannot be listed (a plain file, or a directory
 without read permission) makes `os.listdir` raise out of the sweep.
 Unlike `glob("*")`, `os.listdir` also lists dot-files, so they are swept
 too. Times are whole seconds.
 */
module Sweep {
  import opened Wrappers
  import opened Listing

  /**
   The download path at sweep time: absent, present but not listable by
   `os.listdir`, or a directory with its entries.
   */
  datatype Directory = Missing | Unlistable | Present(entries: seq<Entry>)

  /** `os.listdir` raised; nothing catches it inside the sweep. */
  datatype SweepError = ListingRaised

  const SecondsPerHour := 3600
  /** The retention window the start-up hook passes. */
  const DefaultMaxAgeHours := 1

  /**
   The source compares `(now - ctime) / 3600 > max_age_hours`; for whole
   seconds that is the integer comparison below (see `AgeTestInHours`).
   */
  predicate Stale(e: Entry, now: int, maxAgeHours: int) {
    (e.kind == RegularFile || e.kind == Folder) && now - e.ctime > maxAgeHours * SecondsPerHour
  }

  /** The age in hours, as the source computes it with true division. */
  function AgeHours(now: int, ctime: int): real {
    (now - ctime) as real / SecondsPerHour as real
  }

  /** The integer restatement agrees with the comparison in hours. */
  lemma AgeTestInHours(e: Entry, now: int, maxAgeHours: int)
    ensures Stale(e, now, maxAgeHours) <==>
      (e.kind == RegularFile || e.kind == Folder) && AgeHours(now, e.ctime) > maxAgeHours as real
  {
  }

  /** The entries of a listing the sweep removes, in listing order. */
  function Doomed(entries: seq<Entry>, now: int, maxAgeHours: int): (d: seq<Entry>)
    ensures forall e :: e in d <==> e in entries && Stale(e, now, maxAgeHours)
    decreases |entries|
  {
    if |entries| == 0 then []
    else if Stale(entries[0], now, maxAgeHours) then [entries[0]] + Doomed(entries[1..], now, maxAgeHours)
    else Doomed(entries[1..], now, maxAgeHours)
  }

  /** The entries left behind, in listing order. */
  function Survivors(entries: seq<Entry>, now: int, maxAgeHours: int): (k: seq<Entry>)
    ensures forall e :: e in k <==> e in entries && !Stale(e, now, maxAgeHours)
    decreases |entries|
  {
    if |entries| == 0 then []
    else if Stale(entries[0], now, maxAgeHours) then Survivors(entries[1..], now, maxAgeHours)
    else [entries[0]] + Survivors(entries[1..], now, maxAgeHours)
  }

  /** `cleanup_old_downloads`: what it removes from the directory, or the error it raises. */
  function CleanupOldDownloads(dir: Directory, now: int, maxAgeHours: int): (r: Result<seq<Entry>, SweepError>)
    ensures r.Err? <==> dir.Unlistable?
    ensures dir.Missing? ==> r == Ok([])
    ensures dir.Present? ==> forall e :: e in r.value <==> e in dir.entries && Stale(e, now, maxAgeHours)
  {
    match dir
    case Missing => Ok([])
    case Unlistable => Err(ListingRaised)
    case Present(entries) => Ok(Doomed(entries, now, maxAgeHours))
  }

  /** The directory after the sweep, assuming every removal succeeds; a failed sweep changes nothing. */
  function AfterCleanup(dir: Directory, now: int, maxAgeHours: int): (after: Directory)
    ensures dir.Missing? <==> after.Missing?
    ensures dir.Unlistable? <==> after.Unlistable?
    ensures after.Present? ==> forall e :: e in after.entries <==> e in dir.entries && !Stale(e, now, maxAgeHours)
  {
    match dir
    case Missing => Missing
    case Unlistable => Unlistable
    case Present(entries) => Present(Survivors(entries, now, maxAgeHours))
  }

  /** Removed and remaining entries split the listing: nothing lost, nothing duplicated. */
  lemma {:induction false} SweepPartitions(entries: seq<Entry>, now: int, maxAgeHours: int)
    ensures multiset(Doomed(entries, now, maxAgeHours)) + multiset(Survivors(entries, now, maxAgeHours))
         == multiset(entries)
    decreases |entries|
  {
    if |entries| > 0 {
      SweepPartitions(entries[1..], now, maxAgeHours);
      assert entries == [entries[0]] + entries[1..];
    }
  }

  /** A second sweep at the same moment removes nothing (or raises again, if the first one raised). */
  lemma SweepIsIdempotent(dir: Directory, now: int, maxAgeHours: int)
    ensures CleanupOldDownloads(AfterCleanup(dir, now, maxAgeHours), now, maxAgeHours)
         == if dir.Unlistable? then Err(ListingRaised) else Ok([])
  {
    var after := AfterCleanup(dir, now, maxAgeHours);
    if after.Present? {
      var d := Doomed(after.entries, now, maxAgeHours);
      if |d| > 0 {
        assert d[0] in d;
      }
    }
  }

  /** A later sweep fails exactly when an earlier one would, and otherwise removes at least as much. */
  lemma LaterSweepRemovesMore(dir: Directory, now: int, later: int, maxAgeHours: int)
    requires now <= later
    ensures CleanupOldDownloads(dir, now, maxAgeHours).Ok? <==> CleanupOldDownloads(dir, later, maxAgeHours).Ok?
    ensures CleanupOldDownloads(dir, now, maxAgeHours).Ok? ==>
      forall e :: e in CleanupOldDownloads(dir, now, maxAgeHours).value ==>
        e in CleanupOldDownloads(dir, later, maxAgeHours).value
  {
  }

  /** An entry created exactly one window ago is kept; one second older and it goes. */
  lemma BoundaryIsStrict(name: string, now: int)
    ensures !Stale(Entry(name, RegularFile, 0, now - SecondsPerHour), now, DefaultMaxAgeHours)
    ensures Stale(Entry(name, RegularFile, 0, now - SecondsPerHour - 1), now, DefaultMaxAgeHours)
    ensures !Stale(Entry(name, Other, 0, now - SecondsPerHour - 1), now, DefaultMaxAgeHours)
  {
  }
}
