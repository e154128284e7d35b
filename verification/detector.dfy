/**
 The download-completion detector of the HTTP service
 (`wait_for_download` in main.py).

 Each poll lists the directory, keeps the finished-looking files and
 compares their count with the previous poll's. A rise in the count makes
 the newest file a candidate, returned only if two size samples agree, are
 positive and the file opens. An unchanged positive count bumps a counter
 that is never reset; once it passes five, the newest file is returned
 with nothing more than a positive size. The deadline is modelled by the
 number of polls: the sequence of observations holds exactly the polls
 that start before it.
 */
module Detector {
  import opened Wrappers
  import opened StringOps
  import opened Listing

  /** Names a browser or download manager gives files that are still being written. */
  predicate InProgress(name: string) {
    EndsWith(name, ".crdownload") || EndsWith(name, ".tmp") || EndsWith(name, ".part")
  }

  /** The filter of the `valid_files` comprehension, after `glob("*")` has dropped dot-files. */
  predicate Qualifies(e: Entry) {
    Globbed(e.name) && !InProgress(e.name) && e.kind == RegularFile && e.size > 0
  }

  function ValidFiles(entries: seq<Entry>): (v: seq<Entry>)
    ensures forall e :: e in v <==> e in entries && Qualifies(e)
  {
    Keep(entries, Qualifies)
  }

  /**
   The filter keeps listing order and every copy of a qualifying entry:
   filtering two listings one after the other is filtering their
   concatenation, a single entry survives exactly when it qualifies, and
   each qualifying entry occurs as often as in the listing.
   */
  lemma ValidFilesKeepOrder(xs: seq<Entry>, zs: seq<Entry>)
    ensures ValidFiles(xs + zs) == ValidFiles(xs) + ValidFiles(zs)
    ensures forall e :: ValidFiles([e]) == if Qualifies(e) then [e] else []
    ensures forall e :: multiset(ValidFiles(xs))[e] == (if Qualifies(e) then multiset(xs)[e] else 0)
  {
    KeepDistributes(xs, zs, Qualifies);
    KeepCountsCopies(xs, Qualifies);
    forall e { KeepSingleton(e, Qualifies); }
  }

  /**
   What one poll sees, including how each call that may raise turns out.
   `listed` is false when the poll raises before `stable_count` is touched:
   while listing or filtering the directory, or in `max(..., key=getctime)`
   on the new-file branch; the outer `except` swallows it and both counters
   stay as they were. `sizeNow` is what `getsize` returns when the
   candidate is read again after the listing (the first sample of the
   new-file branch, or the fallback's size check) and `sizeLater` the
   sample after the settle pause; `None` stands for a call that raises.
   On the new-file branch the inner `except` absorbs that raise; in the
   fallback it reaches the outer `except` after `stable_count` has already
   been increased, and the increase stays (`Poll` gives `Counters(n, stable)`).
   A raise in the fallback's own `max(..., key=getctime)` has the same effect
   and is also represented by `sizeNow == None`. `opens` says whether
   opening the candidate and reading its first bytes succeeds.
   */
  datatype Observation = Observation(
    entries: seq<Entry>,
    listed: bool,
    sizeNow: Option<nat>,
    sizeLater: Option<nat>,
    opens: bool)

  /** The loop's two counters, `last_file_count` and `stable_count`. */
  datatype Counters = Counters(lastFileCount: nat, stableCount: nat)

  /** The counters the loop starts from. */
  const Initial := Counters(0, 0)

  /** One poll either returns a path or hands on the counters for the next poll. */
  datatype Step = Return(path: string) | Continue(next: Counters)

  /** The fallback fires once `stable_count` exceeds this. */
  const StableLimit := 5

  /** The file the poll would examine: the newest valid one, if there is any. */
  function Candidate(obs: Observation): (c: Option<Entry>)
    ensures c.Some? <==> obs.listed && exists e :: e in obs.entries && Qualifies(e)
    ensures c.Some? ==> c.value in obs.entries && Qualifies(c.value)
    ensures c.Some? ==> forall e :: e in obs.entries && Qualifies(e) ==> e.ctime <= c.value.ctime
  {
    if !obs.listed then None
    else
      var v := ValidFiles(obs.entries);
      if |v| == 0 then None
      else Some(Newest(v))
  }

  /** Both size samples succeed, agree and are positive, and the file opens. */
  predicate Settled(obs: Observation) {
    && obs.sizeNow.Some? && obs.sizeLater.Some?
    && obs.sizeNow.value == obs.sizeLater.value
    && obs.sizeNow.value > 0
    && obs.opens
  }

  /** The re-read right after the listing succeeds with a positive size. */
  predicate NonEmptyNow(obs: Observation) {
    obs.sizeNow.Some? && obs.sizeNow.value > 0
  }

  /** The number of valid files a poll sees. */
  function Count(obs: Observation): nat {
    |ValidFiles(obs.entries)|
  }

  /** A poll that feeds the stable-count branch: same positive count as last time. */
  predicate SameCount(s: Counters, obs: Observation) {
    obs.listed && Count(obs) == s.lastFileCount && Count(obs) > 0
  }

  /** One iteration of the polling loop. */
  function Poll(s: Counters, obs: Observation): (r: Step)
    // only the newest valid file is ever returned
    ensures r.Return? ==> Candidate(obs).Some? && r.path == Candidate(obs).value.name
    // the two ways out
    ensures r.Return? ==>
      || (Count(obs) > s.lastFileCount && Settled(obs))
      || (SameCount(s, obs) && s.stableCount + 1 > StableLimit && NonEmptyNow(obs))
    ensures obs.listed && Count(obs) > s.lastFileCount && Settled(obs) ==> r.Return?
    ensures SameCount(s, obs) && s.stableCount + 1 > StableLimit && NonEmptyNow(obs) ==> r.Return?
    // the stable count only grows, by one per same-count poll
    ensures r.Continue? ==>
      r.next.stableCount == s.stableCount + (if SameCount(s, obs) then 1 else 0)
    // the last count follows every poll that did not raise
    ensures r.Continue? ==>
      r.next.lastFileCount == (if obs.listed then Count(obs) else s.lastFileCount)
  {
    if !obs.listed then
      // the outer `except` swallows the error before any counter changes
      Continue(s)
    else
      var v := ValidFiles(obs.entries);
      var n := |v|;
      if n > s.lastFileCount then
        // a new file: an unstable, empty or locked one is logged and skipped
        if Settled(obs) then Return(Newest(v).name)
        else Continue(Counters(n, s.stableCount))
      else if n == s.lastFileCount && n > 0 then
        var stable := s.stableCount + 1;
        // a raising `getsize` here escapes to the outer `except`, which
        // leaves `last_file_count` at its value, already equal to `n`
        if stable > StableLimit && NonEmptyNow(obs) then Return(Newest(v).name)
        else Continue(Counters(n, stable))
      else
        // no valid file, or fewer than last time: neither branch fires
        Continue(Counters(n, s.stableCount))
  }

  /** The loop over the polls that start before the deadline. */
  function Drive(polls: seq<Observation>, s: Counters): Step
    decreases |polls|
  {
    if |polls| == 0 then Continue(s)
    else
      match Poll(s, polls[0])
      case Return(p) => Return(p)
      case Continue(s') => Drive(polls[1..], s')
  }

  /** `wait_for_download`: the path it returns, or `TimeoutError`. */
  function WaitForDownload(polls: seq<Observation>): (r: Outcome)
    ensures r.Found? ==> exists i :: 0 <= i < |polls| && FoundAt(polls, i, r.path)
  {
    match Drive(polls, Initial)
    case Return(p) => ReturnComesFromCandidate(polls, Initial); Found(p)
    case Continue(_) => TimedOut
  }

  /** Poll `i` had a candidate, and it carries this name. */
  predicate FoundAt(polls: seq<Observation>, i: int, path: string)
    requires 0 <= i < |polls|
  {
    Candidate(polls[i]).Some? && Candidate(polls[i]).value.name == path
  }

  lemma {:induction false} ReturnComesFromCandidate(polls: seq<Observation>, s: Counters)
    ensures Drive(polls, s).Return? ==>
      exists i :: 0 <= i < |polls| && FoundAt(polls, i, Drive(polls, s).path)
    decreases |polls|
  {
    if |polls| > 0 {
      match Poll(s, polls[0])
      case Return(p) =>
        assert FoundAt(polls, 0, p);
      case Continue(s') =>
        ReturnComesFromCandidate(polls[1..], s');
        if Drive(polls[1..], s').Return? {
          var i :| 0 <= i < |polls[1..]| && FoundAt(polls[1..], i, Drive(polls[1..], s').path);
          assert polls[1..][i] == polls[i + 1];
          assert FoundAt(polls, i + 1, Drive(polls, s).path);
        }
    }
  }

  /**
   Whatever comes back is a finished-looking regular file: not hidden, no
   in-progress suffix, positive size, and the newest such file of the poll
   that returned it.
   */
  lemma ReturnedPathQualifies(polls: seq<Observation>)
    ensures WaitForDownload(polls).Found? ==>
      exists i, e :: 0 <= i < |polls| && e in polls[i].entries && e.name == WaitForDownload(polls).path
        && Globbed(e.name) && !InProgress(e.name) && e.kind == RegularFile && e.size > 0
        && (forall f :: f in polls[i].entries && Qualifies(f) ==> f.ctime <= e.ctime)
  {
    var r := WaitForDownload(polls);
    if r.Found? {
      var i :| 0 <= i < |polls| && FoundAt(polls, i, r.path);
      var e := Candidate(polls[i]).value;
      assert e in polls[i].entries && e.name == r.path;
    }
  }

  /** A directory where no valid file ever shows up makes the detector time out. */
  lemma {:induction false} NoCandidateNeverReturns(polls: seq<Observation>, s: Counters)
    requires forall i :: 0 <= i < |polls| ==> Candidate(polls[i]).None?
    ensures Drive(polls, s).Continue?
    decreases |polls|
  {
    if |polls| > 0 {
      var r := Poll(s, polls[0]);
      assert r.Continue?;
      NoCandidateNeverReturns(polls[1..], r.next);
    }
  }

  /** An empty (or all-temporary) directory times out, however many polls the deadline allows. */
  lemma EmptyDirectoryTimesOut(polls: seq<Observation>)
    requires forall i :: 0 <= i < |polls| ==> Candidate(polls[i]).None?
    ensures WaitForDownload(polls) == TimedOut
  {
    NoCandidateNeverReturns(polls, Initial);
  }

  /** Across any run of polls that ends without returning, the stable count never goes down. */
  lemma {:induction false} StableCountNeverDecreases(polls: seq<Observation>, s: Counters)
    ensures Drive(polls, s).Continue? ==>
      s.stableCount <= Drive(polls, s).next.stableCount <= s.stableCount + |polls|
    decreases |polls|
  {
    if |polls| > 0 {
      match Poll(s, polls[0])
      case Return(_) =>
      case Continue(s') => StableCountNeverDecreases(polls[1..], s');
    }
  }

  /** A poll that sees `n` valid files, the newest named `name`, and re-reads a positive size. */
  predicate SteadyPoll(obs: Observation, n: nat, name: string) {
    && obs.listed && n > 0 && Count(obs) == n && NonEmptyNow(obs)
    && Newest(ValidFiles(obs.entries)).name == name
  }

  /** A same-count poll below the limit only bumps the stable count. */
  lemma SameCountBelowLimit(k: nat, obs: Observation, n: nat, name: string)
    requires SteadyPoll(obs, n, name) && k < StableLimit
    ensures Poll(Counters(n, k), obs) == Continue(Counters(n, k + 1))
  {
  }

  /** A same-count poll at the limit with a positive re-read returns the newest valid file. */
  lemma SameCountAtLimit(k: nat, obs: Observation, n: nat, name: string)
    requires SteadyPoll(obs, n, name) && k >= StableLimit
    ensures Poll(Counters(n, k), obs) == Return(name)
  {
  }

  /** One poll that does not return hands its counters to the rest of the loop. */
  lemma DriveContinues(polls: seq<Observation>, s: Counters, t: Counters)
    requires |polls| > 0 && Poll(s, polls[0]) == Continue(t)
    ensures Drive(polls, s) == Drive(polls[1..], t)
  {
  }

  /** One poll that returns ends the loop with its path. */
  lemma DriveReturns(polls: seq<Observation>, s: Counters, path: string)
    requires |polls| > 0 && Poll(s, polls[0]) == Return(path)
    ensures Drive(polls, s) == Return(path)
  {
  }

  lemma {:induction false} SteadyFromCounters(polls: seq<Observation>, n: nat, name: string, k: nat)
    requires k <= StableLimit
    requires forall i :: 0 <= i < |polls| ==> SteadyPoll(polls[i], n, name)
    requires |polls| >= StableLimit + 1 - k
    ensures Drive(polls, Counters(n, k)) == Return(name)
    decreases StableLimit + 1 - k
  {
    if k < StableLimit {
      SameCountBelowLimit(k, polls[0], n, name);
      DriveContinues(polls, Counters(n, k), Counters(n, k + 1));
      assert forall i :: 0 <= i < |polls[1..]| ==> polls[1..][i] == polls[i + 1];
      SteadyFromCounters(polls[1..], n, name, k + 1);
    } else {
      SameCountAtLimit(k, polls[0], n, name);
      DriveReturns(polls, Counters(n, k), name);
    }
  }

  /**
   Liveness of the fallback: if from the first poll on the directory holds
   the same non-empty set of valid files and the newest one reads back a
   positive size, the detector returns that file within seven polls, even
   when its size never settles and it never opens.
   */
  lemma SteadyDirectoryIsReturned(polls: seq<Observation>, v: seq<Entry>)
    requires |v| > 0
    requires forall i :: 0 <= i < |polls| ==>
      polls[i].listed && ValidFiles(polls[i].entries) == v && NonEmptyNow(polls[i])
    requires |polls| >= StableLimit + 2
    ensures WaitForDownload(polls) == Found(Newest(v).name)
  {
    assert forall i :: 0 <= i < |polls| ==> SteadyPoll(polls[i], |v|, Newest(v).name);
    match Poll(Initial, polls[0])
    case Return(p) =>
    case Continue(s') =>
      assert s' == Counters(|v|, 0);
      assert forall i :: 0 <= i < |polls[1..]| ==> polls[1..][i] == polls[i + 1];
      SteadyFromCounters(polls[1..], |v|, Newest(v).name, 0);
  }

  /** A first poll whose newest valid file settles and opens returns that file at once. */
  lemma SettledFirstPollReturnsNewest(polls: seq<Observation>)
    requires |polls| > 0 && Candidate(polls[0]).Some? && Settled(polls[0])
    ensures WaitForDownload(polls) == Found(Candidate(polls[0]).value.name)
  {
  }

  const FileA := Entry("a.csv", RegularFile, 10, 1)
  const FileB := Entry("b.csv", RegularFile, 10, 2)
  /** Only `a.csv`, whose two size samples agree but which does not open. */
  const SeesA := Observation([FileA], true, Some(10), Some(10), false)
  /** `a.csv` and a newer `b.csv` that is still growing and does not open. */
  const SeesAB := Observation([FileA, FileB], true, Some(10), Some(12), false)

  lemma WitnessCounts()
    ensures ValidFiles(SeesA.entries) == [FileA]
    ensures ValidFiles(SeesAB.entries) == [FileA, FileB]
  {
    assert "a.csv"[5 - 4..] == ".csv" && "a.csv"[5 - 5..] == "a.csv";
    assert "b.csv"[5 - 4..] == ".csv" && "b.csv"[5 - 5..] == "b.csv";
    KeepAll([FileA], Qualifies);
    KeepAll([FileA, FileB], Qualifies);
  }

  lemma WitnessFirstFour(rest: seq<Observation>)
    ensures Drive([SeesA, SeesA, SeesA, SeesA] + rest, Initial) == Drive(rest, Counters(1, 3))
  {
    WitnessCounts();
    var polls := [SeesA, SeesA, SeesA, SeesA] + rest;
    assert polls[1..] == [SeesA, SeesA, SeesA] + rest;
    assert polls[1..][1..] == [SeesA, SeesA] + rest;
    assert polls[1..][1..][1..] == [SeesA] + rest;
    assert polls[1..][1..][1..][1..] == rest;
    assert Poll(Counters(0, 0), SeesA) == Continue(Counters(1, 0));
    assert Poll(Counters(1, 0), SeesA) == Continue(Counters(1, 1));
    assert Poll(Counters(1, 1), SeesA) == Continue(Counters(1, 2));
    assert Poll(Counters(1, 2), SeesA) == Continue(Counters(1, 3));
    assert Drive(polls[1..][1..][1..], Counters(1, 2)) == Drive(rest, Counters(1, 3));
    assert Drive(polls[1..][1..], Counters(1, 1)) == Drive(rest, Counters(1, 3));
    assert Drive(polls[1..], Counters(1, 0)) == Drive(rest, Counters(1, 3));
  }

  lemma WitnessLastFour()
    ensures Drive([SeesAB, SeesAB, SeesAB, SeesAB], Counters(1, 3)) == Return("b.csv")
  {
    WitnessCounts();
    var polls := [SeesAB, SeesAB, SeesAB, SeesAB];
    assert Poll(Counters(1, 3), SeesAB) == Continue(Counters(2, 3));
    assert Poll(Counters(2, 3), SeesAB) == Continue(Counters(2, 4));
    assert Poll(Counters(2, 4), SeesAB) == Continue(Counters(2, 5));
    assert NewestIndex([FileA, FileB]) == 1;
    assert Poll(Counters(2, 5), SeesAB) == Return("b.csv");
    assert Drive(polls[3..], Counters(2, 5)) == Return("b.csv");
    assert Drive(polls[2..], Counters(2, 4)) == Return("b.csv");
    assert Drive(polls[1..], Counters(2, 3)) == Return("b.csv");
  }

  /**
   `stable_count` is never reset, so equal-count polls are counted across
   changes of the file count: here a second file `b.csv` appears on the
   fifth poll and is returned on the eighth, after only three polls that
   saw it, without ever reading back a stable size or opening it.
   */
  lemma StableCountSpansCountChanges()
    ensures WaitForDownload([SeesA, SeesA, SeesA, SeesA, SeesAB, SeesAB, SeesAB, SeesAB]) == Found("b.csv")
  {
    var rest := [SeesAB, SeesAB, SeesAB, SeesAB];
    assert [SeesA, SeesA, SeesA, SeesA, SeesAB, SeesAB, SeesAB, SeesAB] == [SeesA, SeesA, SeesA, SeesA] + rest;
    WitnessFirstFour(rest);
    WitnessLastFour();
  }

  /** Only the three listed suffixes mark a file in progress: `.partial` is not one of them. */
  lemma PartialSuffixQualifies()
    ensures Qualifies(Entry("a.partial", RegularFile, 1024, 5))
    ensures !Qualifies(Entry("a.part", RegularFile, 1024, 5))
  {
    assert "a.partial"[9 - 4..] == "tial";
    assert "a.part"[6 - 5..] == ".part";
  }
}
