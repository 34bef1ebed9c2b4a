# JPEG quality search for a target file size, in Dafny

`compress.py` looks for a JPEG quality that makes an image's encoded size land
within 3 KB of a target. The targets are the positional averages of the
`compressed_size` columns of two CSV reports. Each report is found by the name of
the image it covers. This project models the three parts of that script that hold
logic. Each part has its own module:

- `QualitySearch` (`quality_search.dfy`) models the integer binary search in
  `compress_image`. The JPEG encoder is an abstract, deterministic oracle
  `encoder: int -> nat` that gives the encoded byte length at a quality. The size in
  KB is that length divided by 1024. The search is a state machine over
  `(min_quality, max_quality, quality)`. The Python loop (`while True`) has no
  iteration guard. So the loop is the method `CompressImage`, which takes an
  iteration budget `fuel`. It is proved equal to the specification function `Run`.
  Lemmas then show when the budget matters. With the default bounds 0 and 100, if
  the loop exits at all, it exits within 101 iterations (for other bounds with
  `min <= max`, within `max - min + 1`). Otherwise it runs forever, and a collapsed interval is where
  it stalls.
- `TargetSizes` (`target_sizes.dfy`) models `calculate_mean_sizes`. It is a loop
  that pairs rows by position, as `zip` does, and appends each pair's mean size.
- `CsvSelect` (`csv_select.dfy`) models how `read_csv` chooses a file. It keeps the
  directory entries that end in `.csv`, keeps those that contain the image name as
  a substring, and takes the first one. The `IndexError` that Python raises when
  nothing matches becomes `None`.

Behaviour of the code worth knowing:

- When several CSV files match, `read_csv` silently takes the first in listing
  order (`SelectAmbiguousExample`).
- The comment at compress.py:51 talks of 1 KB. The test on line 52 uses 3 KB, and
  so does `ToleranceKb`.
- A target strictly between the sizes at qualities 0 and 100 is not always reached
  (`MonotoneEncoderStalls`, see "## Findings").

## Model

| member | source | states |
|---|---|---|
| `QualitySearch.Midpoint` | compress.py:34 | `(max+min)//2` is floor division: `2q <= min+max < 2q+2`; the midpoint lies in `[min, max]`; it equals `min` when `max - min <= 1`; it lies strictly inside when `max - min >= 2` |
| `QualitySearch.SizeKb` | compress.py:43 | the size in KB is non-negative and is exactly the byte length divided by 1024 |
| `QualitySearch.Within` | compress.py:52 | the exit test `abs(size - target) < 3` holds exactly when the size lies in the open band `(target - 3, target + 3)` KB |
| `QualitySearch.Start` | compress.py:29-34 | the first state has the caller's bounds (0 and 100 by default) and their floor midpoint, so it satisfies the loop invariant whenever `min <= max` |
| `QualitySearch.Next` | compress.py:46-56 | a size above the target moves `max_quality` to the measured quality, anything else moves `min_quality`, and the other bound stays; the invariant (`min <= max`, `quality` is the floor midpoint, and the range 0..100) is kept; the new interval lies inside the old one; a step either leaves the state unchanged or strictly shrinks the interval |
| `QualitySearch.Run` | compress.py:38-56 | the loop never returns anything but an exit or "still running"; an exit satisfies `abs(size - target) < 3` and reports the size measured at the returned quality; the returned quality lies inside the initial bounds |
| `QualitySearch.CompressImage` | compress.py:29-56 | the loop, with its bounds, midpoint and break, computes exactly `Run` from the caller's bounds; on exit the returned pair is the last measured (quality, size), within 3 KB of the target, and the quality lies inside the bounds |
| `QualitySearch.CollapsedIntervalIsFixed` | compress.py:46-56 | once `max - min <= 1` the quality equals `min_quality` and stays so after another step; with width 0, or with a size not above the target, the whole state is a fixed point |
| `QualitySearch.StallIsForever` | compress.py:38-56 | from a collapsed interval whose quality fails the 3 KB test, the loop is still running after any number of iterations |
| `QualitySearch.NoAcceptableQualityNeverExits` | compress.py:38-53 | if no quality between the bounds passes the 3 KB test, the loop never exits |
| `QualitySearch.MonotoneEncoderStalls` | compress.py:38-56 | a monotone encoder (10 KB per quality step) and the target 5 KB, strictly between the sizes at qualities 0 and 100, for which the loop never exits; the state `(0, 1, 0)` it stalls in is a fixed point of a step |
| `QualitySearch.Guarded` | compress.py:38-56 | the corrected search needs no fuel; it ends with an exit that passes the 3 KB test at a quality inside the bounds, or with `NoProgress` |
| `QualitySearch.CompressImageGuarded` | compress.py:38-56 | the guarded loop terminates and computes `Guarded` from the caller's bounds |
| `QualitySearch.GuardedAgreesWhenRunConverges` | compress.py:38-56 | whenever the loop of `compress_image` exits, the guarded search returns the same (quality, size) pair |
| `QualitySearch.NoProgressMeansRunForever` | compress.py:38-56 | whenever the guarded search reports no progress, the loop of `compress_image` never exits |
| `QualitySearch.GuardedConvergesWithinWidth` | compress.py:38-56 | when the guarded search exits, the loop of `compress_image` exits with the same pair within `max - min + 1` iterations |
| `QualitySearch.DefaultSearchReturnsEarlyOrNever` | compress.py:29-77 | with the default bounds, the returned quality is an integer in 0..100; an exit after any number of iterations is the same one as after 101 iterations; a loop still running after 101 iterations never exits |
| `TargetSizes.CalculateMeanSizes` | compress.py:20-27 | the result has length `min(len(csv1), len(csv2))`; element `i` is `(csv1[i].compressed_size + csv2[i].compressed_size) / 2`, in input order, so it lies midway between the two |
| `CsvSelect.EndsWith` | compress.py:11 | `file.endswith('.csv')` holds exactly when the name is some prefix followed by `.csv` |
| `CsvSelect.Contains` | compress.py:12 | `image in file` needs the image name to be no longer than the file name, and the empty image name is in every file name; `ContainsIffOccurs` gives the full characterisation |
| `CsvSelect.ContainsIffOccurs` | compress.py:12 | the substring test holds exactly when the image name occurs at some index of the file name |
| `CsvSelect.CsvFiles` | compress.py:11 | the comprehension keeps exactly the listing entries that end in `.csv` and never lengthens the list |
| `CsvSelect.Matching` | compress.py:12 | the filter keeps exactly the names that contain the image name and never lengthens the list |
| `CsvSelect.CsvFilesAppend` | compress.py:11 | the comprehension keeps listing order and duplicates: filtering a concatenation is the concatenation of the filtered parts |
| `CsvSelect.MatchingAppend` | compress.py:12 | the `filter` keeps order and duplicates in the same way |
| `CsvSelect.SelectCsvFile` | compress.py:11-12 | `list(filter(...))[0]`: a chosen name is an entry of the listing that ends in `.csv` and contains the image name; `SelectFailsIffNoneQualifies` and `SelectIsFirstQualifying` pin down which entry, and when the `IndexError` happens |
| `CsvSelect.SelectUnfold` | compress.py:11-12 | the two filters plus `[0]` choose the first entry when it qualifies, and choose among the rest otherwise |
| `CsvSelect.SelectFailsIffNoneQualifies` | compress.py:11-12 | the selection fails (the `IndexError`) exactly when no entry ends in `.csv` and contains the image name |
| `CsvSelect.SelectIsFirstQualifying` | compress.py:11-12 | the chosen file is the first qualifying entry in listing order; later qualifying entries are ignored |
| `CsvSelect.SelectExample` | compress.py:11-12 | from `a_report.csv` and `b_report.csv`, image `a` chooses `a_report.csv` |
| `CsvSelect.SelectAmbiguousExample` | compress.py:11-12 | a non-CSV entry is skipped; of `x_a.csv` and `y_a.csv`, the earlier one is chosen without error |
| `CsvSelect.SelectMissingExample` | compress.py:11-12 | a listing with no qualifying entry makes the selection fail |

`TargetSizes.MeanSizesExamples` is a verified client of `CalculateMeanSizes`. It
covers two single-row reports (10 and 20 give 15) and a three-row report paired
with a one-row report (one target).

## Left out

- `CompressImage`: the loop of `compress_image` is unbounded, and a method without a termination
  proof is not available here. The method takes an iteration budget `fuel` and
  returns `StillSearching` when the budget runs out. `StallIsForever`,
  `NoProgressMeansRunForever` and `DefaultSearchReturnsEarlyOrNever` state what the
  unbounded loop does.
- JPEG encoding with PIL, and the `BytesIO` buffer that is cleared after each
  measurement (compress.py:35, 40, 57-58). The encoder is a foreign library. It is
  the deterministic oracle parameter `encoder`, so a fresh encoding is measured at
  each iteration.
- Opening the source image, saving the final JPEG and building its path
  (compress.py:30-31, 60-62). This is filesystem I/O.
- MSE and SSIM (compress.py:69-72). These are floating-point numerics in foreign
  libraries. `Outcome.Converged` carries only the quality and the size of the
  four-element result on line 77.
- Floating point. Sizes and targets are exact reals, so the rounding of Python
  floats in `/ 1024`, in the mean and in the 3 KB test is not modelled.
- `os.listdir`, `open`, `csv.DictReader` and `float(...)` parsing
  (compress.py:11, 14-18, 23-24). The listing is a `seq<string>` in the order the
  operating system returns. A row is its already-parsed `compressed_size`. A
  missing column or a malformed number is not modelled.
- The `__main__` driver (compress.py:79-99): the directory scan, the per-image
  loop, writing the result CSV, and every `print`. This is I/O plumbing.

## Findings

| source | as written | input that shows it | evidently intended | confidence | as-written member | corrected member |
|---|---|---|---|---|---|---|
| compress.py:38-56 | bounds move to the measured quality (not quality±1), and `while True` has no guard, so once the interval collapses the same quality is measured forever | an encoder giving 10 KB per quality step (0 KB at quality 0, 1000 KB at quality 100) and a target of 5 KB: the search narrows through `(0, 3, 1)` to `(0, 1, 0)`, measures 0 KB at quality 0, keeps `min_quality` at 0, and stays at `(0, 1, 0)` forever | the search ends with a "did not converge" result when a step makes no progress, and returns the same pair whenever the original exits | not executed | `QualitySearch.MonotoneEncoderStalls` | `QualitySearch.Guarded` |

The corrected search is `Guarded`, run by the loop `CompressImageGuarded`. It stops
with `NoProgress` when a step leaves the state unchanged. Three lemmas tie it to the
loop of `compress_image`: `GuardedAgreesWhenRunConverges`, `NoProgressMeansRunForever` and
`GuardedConvergesWithinWidth`.
