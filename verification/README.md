# pyPDFCompress size-target search, modelled in Dafny

pyPDFCompress shrinks a PDF below a target size. It rasterises every page,
re-encodes the pages as JPEG and reassembles a new PDF. This project models the
search engine of `compress_to_target`:

- It picks a DPI ladder from the ratio of the target size to the input size.
- For every DPI that renders, it runs a six-trial binary search over JPEG quality,
  starting from the bounds 40..95.
- Across the whole job it keeps the smallest document built so far. Each time that
  document improves, it is written to a scratch file.
- For each DPI it keeps the last trial that fitted the target as that DPI's candidate.
- It commits the first DPI that has a candidate. Otherwise it falls back to the
  smallest document built, and fails if no document was ever built.

It also models `ensure_unique_path`, the search for the first free `root (i)ext` name.

Rendering and building are oracles. `render(dpi)` says whether rasterising
succeeds. `build(dpi, quality)` is the byte size of the assembled document, or
None when encoding or assembly raises. Sizes and the target are whole bytes. The
source compares sizes in megabytes (size / 2^20), and that order is the same as the
order of the byte sizes.

Modules:

- `Prelude`: Option, and strictly descending sequences.
- `Ladder`: the ratio, the ladder table, and the byte target.
- `Trials`: the oracles and the trial records. It also holds reference definitions
  that the search is proved against: the smallest size built (`MinOf`), the
  record-breaking sizes (`Records`) and the last qualifying trial (`LastQualifying`).
- `QualitySearch`: one DPI's six trials, as pure functions (`Step`, `Search`,
  `SearchDpi`).
- `Controller`:
  - the walk over the ladder as a pure reference (`Run`, `Compress`);
  - the imperative methods `SearchQuality` and `CompressToTarget`, which keep the
    source's loops and are proved equal to that reference.
- `UniquePath`: `ensure_unique_path`, over a finite set of existing paths, with
  `splitext` as a parameter.

What the proofs establish about the quality bounds:

- Before each of the six trials, `40 <= q_low`, `q_high <= 95` and
  `q_low <= q_high + 1` hold, so every queried quality lies in [39, 95].
- Both ends of that range are reached. When nothing fits, the queries are
  67, 53, 46, 42, 40 and 39. When everything fits, they are 67, 81, 88, 92, 94 and 95.
- `q_low <= q_high + 1` does not survive the sixth trial: the all-oversize path ends
  with `q_low = 40` and `q_high = 38`. So the invariant is proved through a lower bound on the
  width at each step. The bounds are 56, 27, 13, 6, 2 and 0 before the six trials,
  and -1 after them (`QualitySearch.MinWidth`).

## Two facts about the code worth stating

- The bounds 40..95 are never clamped. After five failed or oversize trials at one
  DPI, the sixth queries quality 39.
- The candidate kept for a DPI is the last qualifying trial, which is the
  highest-quality one. It is the largest qualifying size only if size grows with
  quality, and the model does not assume that.

## Model

| member | source | states |
|---|---|---|
| Ladder.DpiLadder | pyPDFCompress.py:328-337 | every ladder has 5 or 6 DPI values, strictly descending, all within 60..300 |
| Ladder.LadderBands | pyPDFCompress.py:328-337 | ratio > 0.8, (0.6, 0.8], (0.4, 0.6], (0.25, 0.4] and <= 0.25 get the five fixed ladders, in that order |
| Ladder.EmptyInputGetsHighestLadder | pyPDFCompress.py:325-329 | a zero-byte input is treated as ratio 1.0 and gets the 300..150 ladder, whatever the target |
| Ladder.LadderMonotoneInRatio | pyPDFCompress.py:326-337 | a smaller ratio (heavier compression) never gets a higher DPI at any ladder step |
| Ladder.TruncateToInt | pyPDFCompress.py:339 | `int()` truncates toward zero: the result is the whole part of a non-negative value and of a negative one |
| Ladder.TargetBytes | pyPDFCompress.py:339 | the byte target is the whole part of target_mb × 2^20 |
| Controller.TotalAttemptsValues | pyPDFCompress.py:344-345 | the total reported to the progress callback is 6 × ladder length: 30 for the highest ladder, 36 otherwise |
| QualitySearch.MinWidthValues | pyPDFCompress.py:372-405 | the lower bounds on q_high - q_low + 1 before trials 1..6 are 56, 27, 13, 6, 2, 0, and -1 after the last. The all-oversize path in NothingFitsQueries39 ends at width -1 |
| QualitySearch.StepKeepsBounds | pyPDFCompress.py:372-405 | before each of the six trials 40 <= q_low, q_high <= 95 and q_low <= q_high + 1, so q_mid lies in [39, 95] and in [q_low - 1, q_high] |
| QualitySearch.NothingFitsQueries39 | pyPDFCompress.py:376-401 | if nothing at a DPI fits, the six qualities queried are 67, 53, 46, 42, 40, 39 and no candidate is kept |
| QualitySearch.EverythingFitsQueries95 | pyPDFCompress.py:376-405 | if everything at a DPI fits, the qualities are 67, 81, 88, 92, 94, 95 and the kept candidate has quality 95 |
| QualitySearch.FailureActsAsOversize | pyPDFCompress.py:386-401 | a failed build moves the bounds exactly like an oversize build (q_high := q_mid - 1), records no candidate, and leaves best-so-far and scratch writes unchanged |
| QualitySearch.StepKeepsJob | pyPDFCompress.py:377-398 | one trial keeps attempts numbered 1, 2, 3, …, keeps the best-so-far equal to the minimum size built and the scratch writes equal to the record-breaking sizes, and never worsens the best |
| QualitySearch.JobScratch | pyPDFCompress.py:341-398 | while the job invariant holds, scratch writes strictly decrease, there is one exactly when something was built, and the last is the best-so-far |
| QualitySearch.SearchAppends | pyPDFCompress.py:376-390 | the search at a DPI makes exactly six trials and only appends to the trial history |
| QualitySearch.SearchKeepsJob | pyPDFCompress.py:376-398 | the job invariant (numbering, best = minimum, scratch = record-breaking sizes) holds through the six trials and best never worsens |
| QualitySearch.SearchKeepsSegment | pyPDFCompress.py:372-405 | through the six trials every query is at this DPI in [39, 95], the candidate is the last qualifying trial, and every qualifying quality is below q_low |
| QualitySearch.SearchDpiShape | pyPDFCompress.py:376-398 | the search at one DPI appends exactly six trials to the history, keeps the job invariant and never worsens the best |
| QualitySearch.SearchDpiSegment | pyPDFCompress.py:372-405 | after the six trials at one DPI, every one is at that DPI with quality in [39, 95], and the candidate is the last qualifying trial |
| QualitySearch.SegmentCandidate | pyPDFCompress.py:400-405 | the kept candidate exists exactly when a trial at this DPI fits. It is such a trial, and no fitting trial has a higher quality |
| QualitySearch.SearchDpiFacts | pyPDFCompress.py:372-405 | six trials at one DPI. A candidate exists exactly when one qualifies. It is the last qualifying trial, at or under the target, and no qualifying trial at that DPI has a higher quality |
| Trials.MinOfIsLeast | pyPDFCompress.py:342 | the reference minimum is absent only for no sizes, and otherwise is a built size no larger than any other |
| Trials.MinOfSnoc | pyPDFCompress.py:395-397 | the best-so-far update (replace only when strictly smaller) keeps it equal to the minimum of all sizes built |
| Trials.RecordsDescendToMin | pyPDFCompress.py:395-398 | the sizes written to the scratch file strictly decrease, there is one exactly when something was built, and the last one is the minimum |
| Trials.LastQualifyingFacts | pyPDFCompress.py:400-405 | there is a last qualifying trial exactly when some trial fits, and it is a real trial at or under the target |
| Controller.AppendedSegment | pyPDFCompress.py:366-414 | after a DPI's six trials are appended to earlier trials where none fitted: with no candidate, still none fits; with one, it is committable and no lower DPI was tried |
| Controller.RunShape | pyPDFCompress.py:366-405 | the ladder walk only appends trials. In total it makes at most six per rendering DPI, and exactly six per rendering DPI unless it commits. It keeps the job invariant and never worsens the best |
| Controller.SearchDpiCounts | pyPDFCompress.py:376-405 | the six trials at one DPI add six to that DPI's trial count and nothing to any other, and a kept candidate is at that DPI |
| Controller.RunCounts | pyPDFCompress.py:366-414 | per DPI, the walk from a ladder position makes exactly six trials at each ladder DPI it reaches that renders and is not below the committed DPI, and none elsewhere. A committed DPI is on the rest of the ladder |
| Controller.RunHonest | pyPDFCompress.py:366-390 | every trial of the walk is at a ladder DPI that rendered, at a quality in [39, 95], with the oracle's result |
| Controller.SegmentOutcome | pyPDFCompress.py:400-414 | after one DPI, either nothing qualified so far, or its candidate fits, no lower DPI was tried, and it has the highest qualifying quality |
| Controller.RunOutcome | pyPDFCompress.py:366-424 | the walk commits exactly when some trial fits. Otherwise it falls back to the minimum size built, or fails exactly when nothing was built |
| Controller.CompressTrials | pyPDFCompress.py:344-390 | attempts are numbered 1, 2, 3, … and never exceed the total. Every trial is at a rendered ladder DPI with quality in [39, 95]. Without a commit, the total is six times the number of rendering ladder DPIs |
| Controller.CompressCounts | pyPDFCompress.py:366-414 | per DPI, a whole job makes exactly six trials at every ladder DPI that renders and is not below the committed DPI, and none at any other DPI. A DPI that fails to render gets no trial. A committed DPI is on the ladder |
| Controller.CompressScratch | pyPDFCompress.py:341-398 | scratch writes strictly decrease and the last equals the best-so-far. There is one exactly when a best-so-far exists, which is exactly when some build succeeded |
| Controller.CompressOutcome | pyPDFCompress.py:407-424 | commit ⇔ some trial fits. The committed document is the best-quality fit at the first (highest) DPI that had one, with no lower DPI tried. Fallback = minimum size, which is over target. Failure ⇔ every build failed |
| Controller.QualityTrial | pyPDFCompress.py:377-405 | one imperative trial (query, build, best-so-far update, bound move) computes exactly the reference step |
| Controller.SearchQuality | pyPDFCompress.py:372-405 | the imperative six-trial loop computes exactly the reference search. With a callback, trial k+1 is reported as (k+1, total); without one, nothing is reported |
| Controller.CompressToTarget | pyPDFCompress.py:324-424 | the imperative job returns exactly the reference outcome, trials and scratch writes. Every queried quality is in [39, 95]. With a callable callback, the calls are (1, total), (2, total), …, one per trial, never past the total. Without one (the default None), there are no calls |
| UniquePath.FarNumbersAreFree | pyPDFCompress.py:220-225 | a number with more digits than the longest existing path gives a free name, so the search ends |
| UniquePath.EnsureUniquePath | pyPDFCompress.py:216-225 | returns `path` when it is free. Otherwise it returns `root (i)ext` for the smallest i >= 2 that is free, with every earlier name taken. The result is never an existing path |
| UniquePath.PosixSplitExt | pyPDFCompress.py:219 | POSIX splitext: root + ext is the path. The ext is empty or one leading dot followed by neither dots nor separators. It is non-empty exactly when the last path component has a dot preceded, inside that component, by a character other than a dot |
| UniquePath.PosixSplitExtExamples | pyPDFCompress.py:219 | "a.pdf" splits as ("a", ".pdf"), "x.tar.gz" as ("x.tar", ".gz"), and the dot-file "d/.b" has no extension |

## Left out

- Rendering (`_render_pages_raw`), JPEG encoding and reportlab assembly (`_build_pdf_from_pages`). They are foreign library calls and appear only as the `render` and `build` oracles. A build depends only on the DPI and the quality, because rendering at a DPI is deterministic.
- The thread-pool fan-out and the re-sort by page index (lines 304-307). This is concurrency plus a library sort. The `build` oracle stands for the document assembled in page order.
- The A4 fit and centring arithmetic (lines 311-313) and `update_progress`. Both are floating point. The model records the (attempt, total) pairs handed to the callback instead.
- Exceptions raised by the progress callback (lines 383-384). The source swallows them, so a raising callback changes nothing in the search. The model records each call as made.
- Floating-point rounding in the ratio and in `target_mb * 1024 * 1024`. These are computed over the reals.
- Non-finite targets. A NaN target, or one whose product with 2^20 overflows to infinity, makes `int()` at line 339 raise before the `try` at line 365, so the function raises instead of returning `(False, 0.0)`. The model's target is a real number, for which the function always returns.
- File I/O. This covers removing the old scratch file, `write_temp` swallowing its own errors, `os.replace` with the direct-write fallback, `os.path.getsize`, and the outer `except` that returns `(False, 0.0)` when the direct write raises (lines 426-427). The model records the scratch writes made when the best improves (lines 395-398), as the sizes written. It does not record the final `write_temp` before each commit (lines 409 and 418). Commits are assumed to succeed.
- Controller.CompressToTarget: reports the achieved size in bytes rather than megabytes (size / 2^20). That division is exact and keeps the order.
- The unreachable fallback inside the commit expression at line 414. `candidate_size` is always set when `candidate_pdf` is.
- UniquePath.EnsureUniquePath: takes `splitext` as a parameter rather than fixing one platform's `os.path.splitext`. The POSIX version is given as `PosixSplitExt`. The Windows version, with drives and two separators, is not modelled.
- `is_valid_pdf`, `build_output_dir`, `open_output_dir`, the config.ini helpers, `tr`, and the Tkinter GUI in `main`. This includes the caller-side copy bypass at lines 572-573. They are user interface, configuration or file-system code around the search.
- builder.py. It is packaging and file cleanup with no search logic.
