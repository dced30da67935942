# Ranged parallel downloader, modelled in Dafny

`downloader.py` downloads one file over HTTP with N worker threads. A HEAD
request reports the content length L. The script then creates the output
file (named after the last path segment of the URL) as L zero bytes and
splits [0, L) into N ranges. Every range but the last spans `L / N` bytes,
rounded down. The last range starts where the previous one stopped and ends
at L. Each worker sends a GET with `Range: bytes=<start>-<end>` and writes the
body at offset `start`. A worker whose request raises an exception adds one
to a global failure counter instead. After all workers have joined, the
download has succeeded if the counter is 0. Otherwise the output file is
deleted.

The model has six modules:

- `Planner` (planner.dfy): the ranges as pure functions (`RangeAt`, `Plan`,
  `ClampedPlan`), with lemmas for shape, contiguity, exact coverage of
  [0, L), disjointness, and the sum of span lengths.
- `RangeHeader` (range_header.dfy): the header value built with Python's
  `str`, a parser for it, and the build/parse round trip. It also says when
  the value is a byte-range-spec of section 2.1 of RFC 7233.
- `FileName` (file_name.dfy): `url.split('/')[-1]` as `Split` plus the last
  piece, with `Join(Split(s)) == s` and the "text after the last '/'"
  characterisation.
- `Storage` (storage.dfy): bytes, `Overwrite` (what seek+write does to a
  file's contents), and the class `OutFile` over an `array<Byte>` with a
  presence flag. It has a preallocating constructor, an in-place `WriteAt`
  and `Remove`.
- `Downloader` (downloader.dfy): the failure counter as the class
  `FailureTally`, the worker (`ThreadHandler`), the planning loop
  (`StartWorkers`), the coordinator (`Download`) and the thread-count check
  (`Run`).
- `Options` (options.dfy): the `Option` datatype.

The network is an input. `probe` is the length the HEAD request reported,
or `None` if it raised. `responses[i]` is what worker i's GET gave: a body,
or `Failed` if it raised. The workers run one after another, in index order.
When every response fits its clamped span, order does not matter: the
clamped ranges are pairwise disjoint (`Planner.PlanDisjoint`), and writes to
disjoint spans commute (`Storage.OverwriteCommutes`,
`Downloader.PlanWritesCommute`). A longer response, for example the whole
body from a server that ignores `Range`, overlaps the next range. Then the
file depends on which worker writes last
(`Downloader.OversizedWritesDependOnOrder`).

Points where the code's behaviour is easy to misread:

- The last range ends at L, not L - 1. Coverage properties clamp each end to
  L - 1 first (`Planner.Clamp`), as a server does under section 2.1 of
  RFC 7233.
- `requests.get` raises only on transport errors, not on an HTTP error
  status. A 4xx/5xx body therefore counts as a fetched response and is
  written into the file.
- No check keeps the output name non-empty; a URL ending in '/' gives "".
- When L < N, the non-last ranges are the empty spans [0, -1]. Their header
  is `bytes=0--1`, which is not a valid byte-range-spec
  (`Downloader.PlanHeaderValid`). When L = 0, the last range is [0, 0].
- Only the failure count is kept, not a count of successes.

## Model

| member | source | states |
|---|---|---|
| `Planner.PlanAt` | downloader.py:80-85 | the plan has N ranges; range i starts at (L / N) * i; a non-last range ends at (L / N) * (i + 1) - 1, so it spans exactly L / N bytes, possibly none; the last range ends at L |
| `Planner.PlanEnds` | downloader.py:80-85 | the first range starts at 0; the last one starts at (L / N) * (N - 1) and ends at L |
| `Planner.PlanContiguous` | downloader.py:80-85 | for each i < N - 1, end_i + 1 == start_{i+1}: no gap and no overlap between neighbours |
| `Planner.ClampedLast` | downloader.py:82-83 | after clamping to the last byte, the last range ends at L - 1 and spans L / N + L % N bytes |
| `Planner.ClampedInner` | downloader.py:84-85 | clamping leaves every non-last range unchanged; each spans L / N bytes |
| `Planner.PlanSpansSumToLength` | downloader.py:72-85 | the clamped span lengths add up to L; the last range absorbs a remainder L % N < N |
| `Planner.PlanCoversExactly` | downloader.py:80-85 | every byte b < L lies in clamped range i iff i is b's owner (b / (L / N), capped at N - 1), so in exactly one range |
| `Planner.PlanDisjoint` | downloader.py:15-17 | no offset lies in two different clamped ranges |
| `RangeHeader.NatToString` | downloader.py:48 | `str` of a non-negative integer is a non-empty string of decimal digits |
| `RangeHeader.DigitsRoundTrip` | downloader.py:48 | reading back the decimal digits of x gives x |
| `RangeHeader.IntRoundTrip` | downloader.py:48 | parsing `str(x)` of any integer, a leading '-' included, gives x |
| `RangeHeader.RangeSpecRoundTrip` | downloader.py:48 | parsing `bytes=<start>-<end>` gives back start and end |
| `RangeHeader.RangeSpecInjective` | downloader.py:48 | different spans get different header values |
| `RangeHeader.ByteRangeSpecIff` | downloader.py:48 | the header is a valid byte-range-spec (last >= first) iff end >= start |
| `FileName.Split` | downloader.py:73 | `split('/')` gives at least one piece, and no piece contains '/' |
| `FileName.JoinSplit` | downloader.py:73 | joining the pieces with '/' gives back the URL |
| `FileName.LastPieceIsTail` | downloader.py:73 | the last piece is a suffix of the URL, preceded by '/' unless it is the whole URL |
| `FileName.OutputName` | downloader.py:73 | the output name has no '/', is the URL's text after its last '/', and is the whole URL when it has no '/' |
| `Storage.Overwrite` | downloader.py:58-61 | after seek+write, the chunk sits at [start, start + len); every other byte is unchanged, or zero where the file grew; writing no bytes leaves the file unchanged, even after a seek past its end |
| `Storage.OverwriteInside` | downloader.py:58-61 | a write inside the file keeps its length and changes only [start, start + len) |
| `Storage.OverwriteAfterPrefix` | downloader.py:58-61 | writing right after a prefix replaces the front of what follows |
| `Storage.OverwriteCommutes` | downloader.py:19-22 | two writes to disjoint spans inside the file give the same contents in either order |
| `Storage.OutFile.Preallocate` | downloader.py:74-76 | the new file exists and holds L zero bytes |
| `Storage.OutFile.WriteAt` | downloader.py:58-61 | the contents become `Overwrite` of the old contents, changed in place (or in a grown array) |
| `Storage.OutFile.Remove` | downloader.py:97 | the file no longer exists |
| `Downloader.CountFailedIsMultiplicity` | downloader.py:54-57 | the tally equals the number of occurrences of Failed among the responses, whatever their order |
| `Downloader.CountFailedZeroIff` | downloader.py:93-94 | the tally is 0 iff every worker got a response |
| `Downloader.WritesInSequence` | downloader.py:58-61 | responses that each start where the earlier ones stopped leave their concatenation at the front of the file |
| `Downloader.AssembledFile` | downloader.py:74-91 | if every range gets exactly its clamped span, the file is the chunks concatenated in range order, of length L |
| `Downloader.PlanWritesCommute` | downloader.py:19-22 | with exact responses, the writes of two different workers commute |
| `Downloader.OversizedWritesDependOnOrder` | downloader.py:58-61 | with L = 4, two workers and a 4-byte body for both, the two write orders give different files |
| `Downloader.PlanHeaderValid` | downloader.py:81-85 | range i's header is a valid byte-range-spec iff i is last or L >= N |
| `Downloader.ThreeWorkerPlan` | downloader.py:80-85 | L = 1000, N = 3 gives [0,332], [333,665], [666,1000], and the last header is `bytes=666-1000` |
| `Downloader.FailureTally.constructor` | downloader.py:44 | the counter starts at 0 |
| `Downloader.FailureTally.Increment` | downloader.py:55-56 | the counter goes up by exactly 1 |
| `Downloader.ThreadHandler` | downloader.py:47-61 | the worker requests `bytes=<start>-<end>`; a failure adds 1 to the tally and writes nothing; a response leaves the tally alone and overwrites the file at start |
| `Downloader.StartWorkers` | downloader.py:80-91 | the loop sends one GET per planned range, in order; the tally grows by the number of failures; the file is the planned writes applied in order |
| `Downloader.Download` | downloader.py:64-98 | probe failure: no file, no GET. Otherwise one HEAD, then one GET per range; success iff the tally is 0, with the written file kept; else DownloadFailed with the tally and no file; exact responses give a file of the concatenated chunks |
| `Downloader.Run` | downloader.py:104-108 | N <= 0 is refused with no request and no file; otherwise `Download`'s outcome |

## Left out

- `requests.head` and `requests.get`, with their 10-second timeouts, are network I/O. Their results are the inputs `probe` and `responses`.
- A content-length header with a negative value is not modelled: `probe` is a natural number or `None`.
- `threading.Thread`, `join`, daemon threads and `threadLock` are left out, because the workers run sequentially in index order. Interleavings are covered only through the disjointness and commutation lemmas, which need every response to fit its span. Atomic increments under the lock are assumed.
- Downloader.Download: for responses longer than their span, the source's file depends on thread timing; the model fixes index order, so its ensures describe only the file the index-order schedule produces.
- The global `threads_failed` is never reset in the source. The model starts a fresh counter per `Download`, which matches the script calling `download` once.
- Real `open`, `seek`, `write`, `close` and `os.remove` are modelled as an array plus a presence flag. Their own failures are not modelled: an unwritable directory, or an empty name making `open('')` raise.
- `int(content_length/number_threads)` is float division in the source. The model uses integer floor division, which differs only for lengths beyond 2^53 bytes.
- `print` messages and `sys.argv` handling are not modelled, including the `ValueError` path for a non-numeric thread count (downloader.py:109-110). Only the `n <= 0` refusal is kept.
