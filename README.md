# Odometer reading reconciliation: a Dafny model

The application reads vehicle odometer values from a batch of photographs.
An external multimodal service does the recognition; one text answer comes
back per photograph. The application then turns those answers into Entry,
Exit and Difference rows. This project models the part of
`kilometre/app.py` that has logic of its own and proves properties of it:

- **Image selection** (`Images`): keep the names in the extracted archive
  whose lower-case form ends in `.png`, `.jpg` or `.jpeg`, then sort them.
- **Batch loop** (`Batch`): one recognition call per photograph, in file
  order. A call yields the stripped answer text or the failure marker
  `"Hata"`. The loop stops at the first quota signal and keeps what it
  has. The image is opened, shown and shrunk outside the `try`, so a
  photograph that cannot be opened raises out of the script and no report
  follows. What happens to each photograph is a parameter
  `recognize: string -> Outcome`, with
  `Outcome = Text(answer) | QuotaExceeded | OtherFailure | Unopenable`.
  Each file is handled exactly once, so a function of the file name stands
  for the sequence of calls.
- **Normalizer** (`Normalizer`): remove every `" km"`, then every `"km"`
  (Python's `str.replace`). Then read the first maximal run of digits as a
  number. An answer without a digit gives no value.
- **Frequency reducer** (`Candidates`): deduplicate the answers as strings
  (`value_counts`), read each distinct answer, drop those without a value
  and sort ascending.
- **Sorting** (`Sorting`): insertion sort by a total order. Any sorted
  permutation is the same sequence, so the algorithm pandas or Python uses
  does not matter.
- **Pair reconciler** (`Reconciler`): the `while` sweep over the sorted
  column, written as a method that changes an `array<int>` in place. It is
  proved against a functional description (`SweepFrom`). That description
  is proved equal to an independent one by position (`Settles`,
  `EmitFrom`). `Reconcile` adds the Difference column and the
  insufficient-data outcome.
- **Pipeline** (`Pipeline`): the whole run, from names to report. Every
  candidate value goes back to a text the service answered.

Behaviour of the code that the proofs make explicit:

- Deduplication happens on the raw strings, before any number is read. The
  sorted candidate list can therefore hold the same value twice. For
  example, `"123 km"` and `"123"` give `[123, 123]` (`SameNumberTwice`). It
  is not a list of distinct values.
- The sweep moves the index forward by one in both branches. A value that
  is the exit of one pair is the entry of the next: `[100, 300, 500, 700]`
  gives three pairs.
- The column is sorted before the sweep. So every emitted pair has
  Exit − Entry ≥ 2 (`SortedPairsGoForward`), and Difference is never
  negative or smaller than two.
- Removing `"km"` or `" km"` can join two digit runs: `"123km456"` reads as
  123456 (`UnitBetweenDigitsJoinsThem`), and `"12 km34"` as 1234
  (`SpacedUnitBetweenDigitsJoinsThem`).

## Model

| member | source | states |
|---|---|---|
| Normalizer.Strip | kilometre/app.py:97 | the result neither starts nor ends with white space and is no longer than the answer |
| Normalizer.StripKeepsInnerText | kilometre/app.py:97 | strip returns exactly the text between the leading and the trailing white space, using Python's white-space set |
| Normalizer.RemoveAllKeepsDigits | kilometre/app.py:127 | removing a pattern without digits (" km", "km") keeps every digit of the answer, in order |
| Normalizer.RemoveAllSkipsPrefix | kilometre/app.py:127 | removal scans from the left: text that cannot start the pattern is kept as is and the scan goes on after it |
| Normalizer.WithoutUnitKeepsDigits | kilometre/app.py:127 | the two replacements together keep exactly the digits of the answer |
| Normalizer.FirstDigitRunIsLeftmostMaximal | kilometre/app.py:128 | the extracted text is the leftmost maximal digit run: no digit before it, and it ends at a non-digit or at the end |
| Normalizer.FirstDigitRunEmptyIffNoDigit | kilometre/app.py:128-129 | the extraction finds nothing exactly when the text has no digit |
| Normalizer.DecimalRoundTrip | kilometre/app.py:130 | integer conversion inverts decimal spelling: reading the digits of n gives n |
| Normalizer.LeadingZeroIgnored | kilometre/app.py:130 | a leading zero does not change the integer read |
| Normalizer.RemoveAll | kilometre/app.py:127 | Python's `str.replace(pat, "")`: never longer than the text; `RemoveAllDropsLeftmost` and `RemoveAllNoOccurrence` say what it removes, `RemoveAllKeepsDigits` and `RemoveAllSkipsPrefix` what it keeps |
| Normalizer.RemoveAllDropsLeftmost | kilometre/app.py:127 | the leftmost occurrence of the pattern is removed: the text before it is kept and the scan goes on right after it |
| Normalizer.RemoveAllNoOccurrence | kilometre/app.py:127 | a text in which the pattern does not occur is returned unchanged |
| Normalizer.RemovalCanFormPattern | kilometre/app.py:127 | one pass does not remove an occurrence that the removal itself forms: "kkmm" becomes "km" |
| Normalizer.WithoutUnit | kilometre/app.py:127 | removes every " km", then every "km"; `WithoutUnitKeepsDigits` shows the digits are kept in order, `UnitThenDigits`, `NoUnitInDigits`, `UnitBetweenDigitsJoinsThem` and `SpacedUnitBetweenDigitsJoinsThem` show how the unit goes |
| Normalizer.FirstDigitRun | kilometre/app.py:128 | `str.extract(r"(\d+)")`: a string of digits only; `FirstDigitRunIsLeftmostMaximal` and `FirstDigitRunEmptyIffNoDigit` pin it down |
| Normalizer.DecimalValue | kilometre/app.py:130 | `astype(int)` on a digit string; `DecimalRoundTrip` and `LeadingZeroIgnored` pin it down |
| Normalizer.Normalize | kilometre/app.py:127-130 | the value of one answer, or none; `NormalizeNoneIffNoDigit`, `NormalizeReadsNumber` and `UnitBetweenDigitsJoinsThem` say which |
| Normalizer.NormalizeNoneIffNoDigit | kilometre/app.py:127-130 | an answer is dropped exactly when it contains no digit |
| Normalizer.FailureMarkerHasNoValue | kilometre/app.py:110 | the failure marker "Hata" is dropped |
| Normalizer.NormalizeReadsNumber | kilometre/app.py:127-130 | "N", "N km" and "Nkm" all read as N |
| Normalizer.UnitBetweenDigitsJoinsThem | kilometre/app.py:127-128 | digits on both sides of "km" are read as one number, so "123km456" gives 123456 |
| Normalizer.SpacedUnitBetweenDigitsJoinsThem | kilometre/app.py:127-128 | digits on both sides of " km" are read as one number too, so "12 km34" gives 1234 |
| Sorting.Insert | kilometre/app.py:133 | inserting into a sorted list keeps it sorted and adds exactly that element |
| Sorting.Sort | kilometre/app.py:133 | the result is sorted by the order and is a permutation of the input |
| Sorting.SortedPermutationUnique | kilometre/app.py:133 | under a total order, two sorted permutations of the same elements are equal, so the sort's result does not depend on the algorithm |
| Sorting.SortIdempotent | kilometre/app.py:133 | sorting sorted input changes nothing; sorting twice equals sorting once |
| Candidates.Distinct | kilometre/app.py:122-124 | the distinct answers: no repeats, and exactly the answers that occur |
| Candidates.Values | kilometre/app.py:127-130 | the values read from the answers, in order, dropping those without a value: at most one per answer; `ValuesCount` gives how many of each |
| Candidates.SortedCandidates | kilometre/app.py:122-133 | the candidate column is ascending and a permutation of the values read from the distinct answers |
| Candidates.CandidatesAscending | kilometre/app.py:133 | the candidate column is ascending as integers, which the sweep relies on |
| Candidates.ValuesCount | kilometre/app.py:127-129 | among answers without repeats, value v occurs once for each answer that reads as v |
| Candidates.CandidateCount | kilometre/app.py:122-130 | value v occurs as many times as there are distinct answers that read as v: repeated answers count once, different answers count separately |
| Candidates.NoDigitGivesNoCandidate | kilometre/app.py:128-129 | answers without a digit contribute no candidate |
| Candidates.SameNumberTwice | kilometre/app.py:122-133 | "N km" and "N" give the candidate column [N, N]: the list may hold equal values |
| Reconciler.SweepFrom | kilometre/app.py:137-148 | the sweep keeps the column's length; from step i it emits at most n-1-i pairs |
| Reconciler.Swept | kilometre/app.py:137-148 | the column the sweep leaves; `SweepMatchesReference` and `SettlesUnique` show it is the one position-by-position description allows |
| Reconciler.SweepPairs | kilometre/app.py:137-148 | the pairs the sweep emits, in order; `PairsAreFarNeighbours` says exactly which, `PairCountBound` how many |
| Reconciler.SweepInPlace | kilometre/app.py:136-148 | the loop leaves the array as the swept column and returns the swept pairs. It takes max(n-1, 0) steps, never changes the first cell and lowers any other cell by at most one |
| Reconciler.SweepFromSettles | kilometre/app.py:142-148 | from step i the sweep leaves cells 0..i alone, settles each later cell against its final left neighbour, and emits the non-near neighbour pairs |
| Reconciler.SweepMatchesReference | kilometre/app.py:137-148 | the swept column satisfies the position-by-position description, and the pairs are exactly its non-near neighbour pairs, in order |
| Reconciler.SettlesUnique | kilometre/app.py:142-145 | the position-by-position description determines the column |
| Reconciler.PairCountBound | kilometre/app.py:137-150 | at most n-1 pairs are emitted, and none for fewer than two values |
| Reconciler.CellsLoweredAtMostOnce | kilometre/app.py:142-145 | the first cell never changes. Cell k is lowered by one exactly when it is equal to or one away from its final left neighbour, and is otherwise unchanged |
| Reconciler.PairsAreFarNeighbours | kilometre/app.py:142-147 | a pair is emitted if and only if two neighbours are neither equal nor one apart when their step comes: entry is the current left cell, exit the untouched right cell |
| Reconciler.SortedPairsGoForward | kilometre/app.py:142-152 | on sorted input each pair's entry is the original left value or one less, its exit the original right value, and exit minus entry is at least 2 |
| Reconciler.WorkedTraces | kilometre/app.py:137-148 | [100,100,250] gives (99,250); [500,501,700] gives (500,700); [100,300,500,700] gives three pairs |
| Reconciler.Tabulate | kilometre/app.py:151-152 | one row per pair, with Difference = Exit - Entry |
| Reconciler.Reconcile | kilometre/app.py:136-152 | no pairs give insufficient data, and so do fewer than two values. Otherwise it returns the table of the swept pairs, and on sorted input every Difference is at least 2 |
| Images.IsImageName | kilometre/app.py:52 | the lower-cased name ends in .png, .jpg or .jpeg; `ImageNameIgnoresCase` shows letter case does not matter |
| Images.ImageNames | kilometre/app.py:50-53 | keeps exactly the names whose lower-case form ends in .png, .jpg or .jpeg, each as often as listed |
| Images.CodeLe | kilometre/app.py:54 | Python's string comparison, by code point with a proper prefix first; `CodeLeIsTotalOrder` shows it is a total order |
| Images.CodeLeIsTotalOrder | kilometre/app.py:54 | Python's code-point string order is total, transitive and antisymmetric |
| Images.SelectImages | kilometre/app.py:50-54 | the files to read are exactly the image names, each as often as listed, in ascending string order |
| Images.ImageNameIgnoresCase | kilometre/app.py:52 | names that differ only in letter case are both accepted or both refused |
| Batch.KmText | kilometre/app.py:97-110 | the recorded `km` text: the stripped answer, or "Hata" after a failed call; `CandidatesComeFromAnswers` shows the marker gives no value |
| Batch.Accumulate | kilometre/app.py:74-110 | the readings of the loop; `AccumulateStopsAtFirstEnd` says exactly which |
| Batch.Aborts | kilometre/app.py:83-88 | an image that cannot be opened is met before any quota signal; `AccumulateStopsAtFirstEnd` ties it to where the readings end |
| Batch.Collect | kilometre/app.py:74-110 | the loop's readings are those of the accumulation over the files in order, and it reports whether an unopenable image cut it short |
| Batch.AccumulateStopsAtFirstEnd | kilometre/app.py:74-110 | one reading per file, in file order: the stripped answer, or "Hata" on a failure. Readings stop exactly at the first quota signal or unopenable image, and all earlier ones are kept. The run aborts exactly when the stop is an unopenable image |
| Pipeline.Run | kilometre/app.py:74-152 | an unopenable image before any quota signal gives no report at all; otherwise no readings give no report, and readings give the reconciliation of the run's sorted candidates: insufficient data with fewer than two, and every Difference at least 2 |
| Pipeline.CandidatesComeFromAnswers | kilometre/app.py:97-130 | every candidate value is read from the stripped text of some photograph's answer; failed calls contribute none |

## Left out

- Streamlit interface, API-key prompt, progress bar, image columns and messages: user interface only.
- Zip extraction, the temporary directory and `os.listdir`: file I/O. `SelectImages` takes the listed names as input.
- Opening and shrinking images with PIL: image I/O. Only its failure is modelled, as the `Unopenable` outcome that ends the run without a report; which files PIL cannot open is not modelled.
- The recognition service call, its exception types and the 3-second `time.sleep`: a foreign network service and real delay. The service is the `recognize` parameter.
- Excel export, the in-memory buffer and the timestamped file name: output plumbing.
- The `count` column of `value_counts`: it is computed but never read by the pairing.
- Normalizer.IsDigit: `\d` is modelled as the ASCII digits only. Python's `\d` also matches other Unicode decimal digits.
- Normalizer.DecimalValue: values are unbounded naturals, not 64-bit integers; the `astype(int)` overflow edge is not modelled.
- Images.LowerChar: lower-cases ASCII letters only. Python's `str.lower` maps more characters, but none of them becomes one of the characters `.`, `p`, `n`, `g`, `j` or `e`. The suffix test therefore gives the same answer.
- Batch.Outcome: an answer whose text is missing, so that `.strip()` raises, is an `OtherFailure` in this model.
- Candidates.Distinct: keeps the order of first appearance, while `value_counts` orders by count. The order is lost to the sort that follows, and only the values are used.
