/**
 A directory listing as both download detectors see it: one record per
 entry with the metadata the source reads through `os.path.isfile`,
 `os.path.getsize` and `os.path.getctime`, plus Python's
 `max(files, key=os.path.getctime)`.
 */
module Listing {

  /** What `os.path.isfile` / `os.path.isdir` report for an entry. */
  datatype Kind = RegularFile | Folder | Other

  /** One directory entry; `ctime` is in whole seconds. */
  datatype Entry = Entry(name: string, kind: Kind, size: nat, ctime: int)

  /** What a detector reports: the path it settled on, or `TimeoutError`. */
  datatype Outcome = Found(path: string) | TimedOut

  /** `glob("*")` does not list names that start with a dot. */
  predicate Globbed(name: string) {
    !(|name| > 0 && name[0] == '.')
  }

  /** A list comprehension `[e for e in xs if p(e)]`, order preserved. */
  function Keep(xs: seq<Entry>, p: Entry -> bool): (ys: seq<Entry>)
    ensures |ys| <= |xs|
    ensures forall e :: e in ys <==> e in xs && p(e)
    ensures forall k :: 0 <= k < |ys| ==> p(ys[k])
    decreases |xs|
  {
    if |xs| == 0 then []
    else if p(xs[0]) then [xs[0]] + Keep(xs[1..], p)
    else Keep(xs[1..], p)
  }

  /**
   Every kept entry keeps all its copies and every other entry loses all of
   them, so the length of the result counts duplicates as `len` does.
   */
  lemma {:induction false} KeepCountsCopies(xs: seq<Entry>, p: Entry -> bool)
    ensures forall e :: multiset(Keep(xs, p))[e] == (if p(e) then multiset(xs)[e] else 0)
    decreases |xs|
  {
    if |xs| > 0 {
      KeepCountsCopies(xs[1..], p);
      assert xs == [xs[0]] + xs[1..];
      assert multiset(xs) == multiset{xs[0]} + multiset(xs[1..]);
    }
  }

  /** A single entry is kept exactly when it satisfies `p`. */
  lemma KeepSingleton(x: Entry, p: Entry -> bool)
    ensures Keep([x], p) == if p(x) then [x] else []
  {
    assert [x][1..] == [];
  }

  /**
   Filtering a concatenation filters each part and keeps them in order;
   with `KeepSingleton` this fixes the order of the result entirely.
   */
  lemma {:induction false} KeepDistributes(xs: seq<Entry>, zs: seq<Entry>, p: Entry -> bool)
    ensures Keep(xs + zs, p) == Keep(xs, p) + Keep(zs, p)
    decreases |xs|
  {
    if |xs| == 0 {
      assert xs + zs == zs;
    } else {
      assert (xs + zs)[0] == xs[0];
      assert (xs + zs)[1..] == xs[1..] + zs;
      KeepDistributes(xs[1..], zs, p);
    }
  }

  /** Keeping what satisfies `p` drops nothing from a list that already satisfies it. */
  lemma {:induction false} KeepAll(xs: seq<Entry>, p: Entry -> bool)
    requires forall k :: 0 <= k < |xs| ==> p(xs[k])
    ensures Keep(xs, p) == xs
    decreases |xs|
  {
    if |xs| > 0 {
      KeepAll(xs[1..], p);
      assert [xs[0]] + xs[1..] == xs;
    }
  }

  /**
   The position Python's `max(fs, key=ctime)` picks: a scan from the left
   that replaces its choice only on a strictly later creation time, so the
   first of several equally new entries wins.
   */
  function NewestIndex(fs: seq<Entry>): (k: nat)
    requires |fs| > 0
    ensures k < |fs|
    ensures forall j :: 0 <= j < |fs| ==> fs[j].ctime <= fs[k].ctime
    ensures forall j :: 0 <= j < k ==> fs[j].ctime < fs[k].ctime
    decreases |fs|
  {
    if |fs| == 1 then 0
    else
      var k := NewestIndex(fs[..|fs| - 1]);
      if fs[|fs| - 1].ctime > fs[k].ctime then |fs| - 1 else k
  }

  /** The entry `max(fs, key=os.path.getctime)` returns. */
  function Newest(fs: seq<Entry>): (e: Entry)
    requires |fs| > 0
    ensures e in fs
    ensures forall f :: f in fs ==> f.ctime <= e.ctime
  {
    fs[NewestIndex(fs)]
  }

  /**
   The choice is determined by creation time alone: the first position
   holding the latest creation time, whatever the sizes or names.
   */
  lemma NewestIsFirstLatest(fs: seq<Entry>, k: nat)
    requires k < |fs|
    requires forall j :: 0 <= j < |fs| ==> fs[j].ctime <= fs[k].ctime
    requires forall j :: 0 <= j < k ==> fs[j].ctime < fs[k].ctime
    ensures NewestIndex(fs) == k
  {
    var n := NewestIndex(fs);
    assert !(n < k) && !(k < n);
  }
}
