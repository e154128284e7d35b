# Download detection and naming logic of the Vayne export scraper

The scraper drives a vendor's web site through a browser to order a lead
export, waits for the browser to finish downloading the CSV, and hands the
file on. Almost all of it is browser choreography. This project models the
few pieces of sequential logic inside it and proves what they guarantee:

- **Download-completion detector of the HTTP service** (`Detector`, main.py
  `wait_for_download`). It runs a poll loop over directory snapshots.
  - A rise in the count of finished-looking files makes the newest one a
    candidate. The candidate is returned only if two size samples agree and
    are positive and the file opens.
  - An unchanged positive count bumps a counter that is never reset. Once it
    exceeds five, the newest file is returned with nothing more than a
    positive size.
- **Detector of the one-shot script** (`SimpleDetector`, index.py
  `wait_for_download`). It returns the newest non-temporary regular file as
  soon as one is listed.
- **"Still processing" classifier** (`ProcessingPage`, main.py
  `download_csv`). It decides whether the browser received an HTML page
  instead of a download, and picks the detail message by case-insensitive
  phrase tests in a fixed order.
- **Order id and export file name** (`Naming`). The order id is the text
  after the last `_` of the order element's id, and a missing or empty id is
  rejected. The export is served as `vayne_export_<run_id>.csv`.
- **Stale-download sweep** (`Sweep`, main.py `cleanup_old_downloads`). It
  removes regular files and directories older than the retention window.

Shared pieces:
- `Listing` holds the directory entry record and Python's
  `max(files, key=os.path.getctime)`. That call keeps the first of equally
  new files.
- `StringOps` holds `endswith`, the `in` substring test, ASCII `lower()`,
  and `split`/`join`.
- `Wrappers` holds `Option` and `Result`.

How the environment is represented:
- A poll's view of the directory is a sequence of `Entry(name, kind, size,
  ctime)` records in listing order, with `ctime` in whole seconds.
- What the filesystem answers later in the same poll is supplied per poll in
  an `Observation`. This covers the re-read size, the size after the settle
  pause, whether the file opens, and which of the calls that may raise did
  raise.
- The deadline becomes the length of the observation sequence: it holds
  exactly the polls that start before the deadline.
- The clock of the sweep is an integer parameter `now`.
- Detectors return the entry's name; the source returns its absolute path
  in the watched directory.

Behaviour of the code worth knowing, each proved in the model:
- An unstable candidate is only checked again for a stable size if the
  count of valid files rises again. While the count stays the same and
  positive, the stable-count fallback can return the newest file without
  checking size stability or openability (`SteadyDirectoryIsReturned`,
  `StableCountSpansCountChanges`). If the count falls, neither branch fires.
- `a.partial` is a valid name, because only `.crdownload`, `.tmp` and
  `.part` are filtered (`PartialSuffixQualifies`).
- index.py returns `.part` files and empty files
  (`AcceptsPartialAndEmptyFiles`).
- A sweep of a path that exists but cannot be listed raises instead of
  doing nothing (`Sweep.CleanupOldDownloads`).

## Model

| member | source | states |
|---|---|---|
| Detector.ValidFiles | main.py:51-58 | a listed entry counts as valid exactly when it is not a dot-file, has no `.crdownload`/`.tmp`/`.part` suffix, is a regular file and is non-empty (order and copies: `Detector.ValidFilesKeepOrder`) |
| Detector.ValidFilesKeepOrder | main.py:51-60 | the valid list keeps the listing order (filtering a concatenation is concatenating the filtered parts, a single entry survives exactly when it qualifies) and keeps every copy of a qualifying entry, so its length is the `len(valid_files)` count |
| Detector.Candidate | main.py:48-65 | a poll that does not raise has a candidate exactly when some valid file is listed; the candidate is a listed valid file and no valid file is newer |
| Detector.Poll | main.py:45-99 | one poll returns only the newest valid file, and only (a) on a rise in the valid count with two equal positive size samples and a successful open, or (b) on an unchanged positive count once the stable count passes five, with a positive re-read; both conditions force a return; otherwise the stable count grows by one exactly on an unchanged positive count (a raise in the fallback's size check keeps that increase), the last count becomes this poll's count, and a poll that raises before the stable count is touched leaves both counters as they were |
| Detector.WaitForDownload | main.py:38-101 | a returned path is the candidate of one of the polls made before the deadline; otherwise the detector times out |
| Detector.ReturnComesFromCandidate | main.py:45-94 | from any counters, a path returned by the loop is the candidate name of some poll |
| Detector.ReturnedPathQualifies | main.py:51-92 | a returned name belongs to a listed regular file with positive size and no in-progress suffix, and no valid file of that poll is newer |
| Detector.NoCandidateNeverReturns | main.py:64-99 | from any counters, polls that never see a valid file never return |
| Detector.EmptyDirectoryTimesOut | main.py:45-101 | a directory that stays empty, or holds only in-progress, empty or non-regular entries, ends in a timeout however many polls the deadline allows |
| Detector.StableCountNeverDecreases | main.py:43-88 | over any sequence of polls that does not return, the stable count never goes down and grows by at most one per poll |
| Detector.SameCountBelowLimit | main.py:87-89 | a poll seeing the same positive count while the stable count is below five only bumps the stable count, whatever the size samples or openability |
| Detector.SameCountAtLimit | main.py:87-92 | a poll seeing the same positive count once the stable count has reached five returns the newest valid file whenever the re-read size is positive |
| Detector.SteadyFromCounters | main.py:87-92 | with the count unchanged and the stable count at k, a steady directory is returned after 6-k more polls |
| Detector.SteadyDirectoryIsReturned | main.py:64-92 | if every poll sees the same non-empty set of valid files with a positive re-read size, the newest file is returned within seven polls, even if its size never settles and it never opens |
| Detector.SettledFirstPollReturnsNewest | main.py:64-80 | if the first poll's newest valid file has equal positive size samples and opens, it is returned at once |
| Detector.StableCountSpansCountChanges | main.py:43-94 | the stable count is never reset: in the example, a newer file that never settles or opens is returned three polls after it first appears, because equal-count polls before it appeared still count |
| Detector.PartialSuffixQualifies | main.py:53-55 | `a.partial` is not treated as in progress, while `a.part` is |
| Listing.NewestIndex | main.py:65 | the chosen position has the latest creation time, and every earlier position has a strictly earlier one, as Python's `max` keeps the first maximum |
| Listing.Newest | main.py:90 | the chosen entry is one of the files and none of them was created later |
| Listing.NewestIsFirstLatest | index.py:39 | the choice depends only on creation times: the first position holding the latest one, whatever the sizes or names |
| Listing.KeepCountsCopies | main.py:51-60 | the comprehension keeps every copy of a qualifying entry and no copy of any other, so `len` counts duplicates |
| Listing.KeepDistributes | main.py:51-58 | filtering a concatenation gives the filtered parts in the same order |
| Listing.KeepSingleton | main.py:51-58 | a single entry is kept exactly when it satisfies the filter |
| SimpleDetector.ValidFiles | index.py:33-36 | a listed entry counts as valid exactly when it is not a dot-file, has no `.crdownload` or `.tmp` suffix and is a regular file (order and copies: `SimpleDetector.ValidFilesKeepOrder`) |
| SimpleDetector.ValidFilesKeepOrder | index.py:33-39 | the valid list keeps the listing order and every copy of a qualifying entry, which fixes the tie-break of `max` |
| SimpleDetector.WaitForDownload | index.py:23-45 | times out exactly when no poll before the deadline lists a valid file; otherwise returns on the first poll that does, with that poll's newest valid file |
| SimpleDetector.ReturnedPathQualifies | index.py:33-41 | a returned name belongs to a listed regular file without a `.crdownload` or `.tmp` suffix, and no valid file of that listing is newer |
| SimpleDetector.AcceptsPartialAndEmptyFiles | index.py:33-41 | an empty `a.part` file is accepted and returned by the script, though the service's detector rejects it |
| SimpleDetector.ServiceFilterIsStricter | index.py:33-36 | every file the service's detector accepts, the script accepts too |
| SimpleDetector.EmptyDirectoryTimesOut | index.py:30-45 | a directory that stays empty ends in a timeout |
| ProcessingPage.Classify | main.py:413-441 | the answer is "processing" exactly when the browser is still on the download link and the page is longer than 1000 characters; that answer always carries the status "processing", the message "File is still being processed", the fixed suggestion, the run id, the download link and the type "html" |
| ProcessingPage.DetailsPriority | main.py:423-431 | each detail message is chosen exactly when its phrase appears in the page in any case and no earlier phrase does, in the order "something went wrong", "not found", "error"; the plain message is chosen when none appears |
| ProcessingPage.CaseDoesNotMatter | main.py:423 | upper- or lower-casing the page's letters never changes the verdict |
| StringOps.ContainsIffOccurs | main.py:426-430 | the substring test succeeds exactly when the phrase occurs at some position |
| StringOps.Lower | main.py:423 | lower-casing keeps the length and maps each character to its lower-case form |
| StringOps.LowerHasNoCapitals | main.py:423 | a lower-cased page holds no ASCII capital letter |
| StringOps.LowerIdempotent | main.py:423 | lower-casing twice gives the same as lower-casing once |
| StringOps.LowerOfUpper | main.py:423 | upper-casing before lower-casing makes no difference |
| StringOps.Split | main.py:325 | splitting yields at least one piece and no piece holds the separator |
| StringOps.JoinSplit | main.py:325 | rejoining the pieces of a split with the separator gives back the original string |
| StringOps.SplitJoin | main.py:325 | splitting separator-free pieces joined by the separator gives back the pieces |
| StringOps.LastPiece | main.py:325 | the last piece holds no separator, ends the string, and is either the whole string or preceded by a separator |
| Naming.OrderId | main.py:322-325 | a missing or empty element id is rejected, and only those; otherwise the order id is the text after the last `_`, or the whole id when it has none |
| Naming.OrderIdIsLastPiece | main.py:325 | the order id is the last of the `_`-free pieces that rejoin into the element id |
| Naming.AfterLastIsUnique | main.py:325 | at most one string is the text after the last separator, so the order id is fully determined |
| Naming.TrailingUnderscoreGivesEmptyOrderId | main.py:322-325 | an element id ending in `_` is accepted and yields an empty order id |
| Naming.OrderIdAfterLastUnderscore | main.py:325 | for any text before the last `_` (underscores included), the order id is exactly the text after it, e.g. `order_item_20617` gives `20617` |
| Naming.ExportName | main.py:478 | the served name starts with `vayne_export_`, ends with `.csv`, and has the run id between them |
| Naming.RunIdRoundTrip | main.py:478 | the run id can be read back from its export name |
| Naming.ExportNameRoundTrip | main.py:568 | every name that reads back a run id is that run's export name |
| Naming.ExportNameInjective | main.py:478 | different runs are served under different names |
| Sweep.AgeTestInHours | main.py:617-618 | comparing whole seconds with the window times 3600 is the same as comparing the age in hours with the window |
| Sweep.Doomed | main.py:614-627 | exactly the listed regular files and directories older than the window are removed |
| Sweep.Survivors | main.py:614-627 | exactly the other entries remain: those not older than the window, and every entry that is neither a file nor a directory |
| Sweep.CleanupOldDownloads | main.py:608-632 | a missing directory is a no-op; a path that exists but cannot be listed raises, and only such a path; otherwise the sweep removes exactly the regular files and directories whose age strictly exceeds the window |
| Sweep.AfterCleanup | main.py:608-632 | the path stays missing, unlistable or present, and a present directory keeps exactly its entries that are not stale |
| Sweep.SweepPartitions | main.py:614-632 | the removed and the remaining entries together are the listing, with nothing lost or duplicated |
| Sweep.SweepIsIdempotent | main.py:608-632 | a second sweep at the same moment removes nothing, or raises again if the first one raised |
| Sweep.LaterSweepRemovesMore | main.py:610-618 | a sweep at a later time fails exactly when an earlier one would, and otherwise removes at least what the earlier one would |
| Sweep.BoundaryIsStrict | main.py:618 | with the one-hour start-up window, an entry exactly one hour old is kept, one a second older is removed, and entries that are neither files nor directories are never removed |

## Left out

- Browser automation (Selenium driver setup, login, order creation, every page action), the FastAPI routes, `FileResponse`/`Response` construction and the mapping of errors to HTTP status codes: interaction with one vendor's site and with the web framework, not logic.
- The rest of `download_csv`: the login check, turning a detector timeout into the "no_download" answer, and the re-checks of the downloaded file's existence and size. These are endpoint plumbing around the modelled classifier and detector.
- The download URL built from the order id (`csv_url`): it only pastes the id into a vendor URL.
- Real time, `time.sleep` and `time.time()`: the deadline is the number of polls, and the sweep's clock is a parameter.
- Filesystem calls (`glob`, `listdir`, `getsize`, `getctime`, `open`, `os.remove`, `shutil.rmtree`): replaced by snapshot records and per-poll answers.
- Sweep.AfterCleanup: assumes every removal succeeds; a failed `os.remove` or `rmtree`, which the source logs and skips, is not modelled.
- Sweep.CleanupOldDownloads: an entry that vanishes between the `isfile`/`isdir` test and `getctime` raises `FileNotFoundError` out of the sweep; listings here are consistent snapshots, so that raise is not modelled.
- Listing.Newest: creation times are whole seconds, so two files created in the same second tie and the first listed wins; with the float `getctime` of the source, the file with the later fractional creation time wins.
- Detector.WaitForDownload: returns the file's name, not `os.path.abspath` of it.
- SimpleDetector.WaitForDownload: an entry vanishing between `glob` and `getctime` raises out of the script's detector; snapshots here are consistent, so that exception is not modelled.
- Sweep.AgeTestInHours: ages are whole seconds and the hours comparison uses exact division; floating-point rounding of `time.time()` and of the division by 3600 is not modelled.
- StringOps.Lower: only ASCII letters are case-mapped. Of the non-ASCII characters, Python's `lower()` maps only U+0130 (to "i" followed by U+0307) and U+212A (to "k") onto ASCII letters; "k" occurs in none of the tested phrases and the "i" is always followed by U+0307, so neither can complete "something went wrong", "not found" or "error", and the verdict is the same.
- The clearing of the download directory before and after each download, logging, the health and root endpoints (including the unreachable second `return` in `root`), and the hard-coded credentials and URLs of the one-shot script.
