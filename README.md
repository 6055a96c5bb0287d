# exms grade derivation, modelled in Dafny

`exms` is a Rust crate and command-line tool that reads the students of an exam with
their grades. It derives statistics from them: percentiles, the mean, pass counts and
a histogram. It also sorts and filters the list before printing it.

This project models the part that works on an in-memory list of students:

- the `Student` record;
- the percentile engine `calculate_percentiles`, with `mean` and `passed_students`;
- the `Exam` object of `src/exam/mod.rs`, with its setters, its two stable sorts and its two in-place filters;
- the decisions inside the students table;
- the assembly of the `ExamStatistics` record;
- the bucket counting of the histogram.

Grades are exact `real` numbers.

Modules, one per file:

- `Wrappers` (wrappers.dfy): `Option` and `Outcome` (a `Result<(), E>`).
- `StudentRecord` (student.dfy):
  - `Student` as `src/exam/student.rs` defines it;
  - `Entry`, the later shape with optional percentile and rank, which `mod.rs` and `summary.rs` read.
- `Text` (text.dfy):
  - how Rust orders strings;
  - `str::contains`;
  - the two foreign foldings `to_lowercase` and `unidecode`, taken as given functions (`Folding`).
- `Statistics` (statistics.dfy): `mean`, `passed_students` and `calculate_percentiles`. The last is an in-place algorithm on an `array<Student>`:
  - the index vector is sorted by an in-place insertion sort on an `array<nat>`;
  - then a loop walks it with the last-grade/last-percentile carry.
- `Sorting` (sorting.dfy):
  - the library's stable sorts, as a functional insertion sort;
  - stability (tie groups keep their order);
  - uniqueness: every sorted list with the same tie groups is this one;
  - the grade order, tie-broken by name.
- `Filtering` (filtering.dfy): `Vec::retain` and the order-preserving sublist relation.
- `Exams` (exam.dfy):
  - the `Exam` class, with fields `students`, `name` and `maxGrade`;
  - the filter predicates;
  - the multi-file filter;
  - the rows of `students()`.
- `Summary` (summary.dfy):
  - `ExamStatistics::new`, which first rewrites the slice in place and then assembles the record;
  - `u32` counts with their wrap-around;
  - the `f32` pass rate, including its NaN and infinity cases.
- `Plot` (plot.dfy): the data side of `histogram`:
  - the closure that clamps grades and sets the overflow flag;
  - the counting loop over a bucket `array`, with the running maximum;
  - the index panic, as an `IndexOutOfBounds` outcome.

Where files of the crate come from different revisions, the model follows each file's own code:

- `mod.rs` and `summary.rs` read a `rank` field and an optional `percentile` that `student.rs` does not have. They also call functions that `statistics.rs` does not define.
- The pass rate of an empty exam is NaN, because the code computes `0/0`. It is not 0.
- With a maximum grade of 0 or less, any student makes the histogram index past the end of an empty bucket vector. The code panics there, and the model returns `IndexOutOfBounds`.

## Model

| member | source | states |
|---|---|---|
| StudentRecord.NewStudent | src/exam/student.rs:21-27 | the student keeps the given name and grade and starts with percentile 0; no precondition |
| StudentRecord.StudentEquality | src/exam/student.rs:1-6 | derived equality: two students are equal exactly when name, grade and percentile are all equal |
| StudentRecord.NewStudentInjective | src/exam/student.rs:21-27 | two new students are equal exactly when they were given the same name and grade |
| Statistics.Grades | src/exam/statistics.rs:5-7 | the grades in list order, one per student |
| Statistics.SumNonNegative | src/exam/statistics.rs:5-7 | the fold's running sum from 0 (`Statistics.Sum`) of grades that are all non-negative is non-negative |
| Statistics.Mean | src/exam/statistics.rs:4-14 | 0 with no grades (no division); otherwise mean times count equals the sum |
| Statistics.MeanBetweenMinAndMax | src/exam/statistics.rs:4-14 | the mean of a non-empty list lies between its smallest and largest grade |
| Statistics.MeanBounds | src/exam/statistics.rs:4-14 | grades that all lie in [lo, hi] have their mean in [lo, hi] |
| Statistics.SumBounds | src/exam/statistics.rs:5-7 | a fold of n values in [lo, hi] lies in [n*lo, n*hi] |
| Statistics.MeanExample | src/exam/statistics.rs:82-87 | the unit test: the five test students have mean 6.32 |
| Statistics.PassedCount | src/exam/statistics.rs:17 | the `filter(..).count()` before the cast: at most the length, the length exactly when all grades are at least 5, and 0 exactly when none is |
| Statistics.PassedStudents | src/exam/statistics.rs:16-18 | the count cast to `u32`: below 2^32 and at most the length; with fewer than 2^32 students it is the count itself, so it is the length exactly when all pass and 0 exactly when none does |
| Statistics.PassedStudentsExample | src/exam/statistics.rs:90-95 | the unit test: three of the five test students pass |
| Statistics.MaxGrade | src/exam/statistics.rs:25-29 | 0 for no grades, otherwise a grade of the list that no grade exceeds |
| Statistics.MinGrade | src/exam/statistics.rs:4-14 | the lower bound the mean lemma uses (`statistics.rs` defines no minimum; `min_student_grade` is a callee of `summary.rs`): a grade of the list that no grade undercuts |
| Statistics.CountBelow | src/exam/statistics.rs:32-37 | the number of grades strictly below a value, at most the length |
| Statistics.Percentile | src/exam/statistics.rs:45-57 | a grade's percentile: 100 for the highest grade, otherwise the number of lower grades over n-1, times 100; never negative, and 100 for a single student |
| Statistics.WithPercentiles | src/exam/statistics.rs:20-64 | the result: names and grades unchanged, equal grades get equal percentiles, the highest grade gets 100 |
| Statistics.CountBelowPermutation | src/exam/statistics.rs:32-37 | the count below a value depends only on the multiset of grades, not on their order |
| Statistics.MaxGradePermutation | src/exam/statistics.rs:25-29 | the highest grade depends only on the multiset of grades |
| Statistics.CountBelowAtGroupStart | src/exam/statistics.rs:43-57 | in ascending order, the first position of a tie group equals the number of grades below it |
| Statistics.CountBelowMonotone | src/exam/statistics.rs:43-57 | the count below is monotone in the bound, and strictly so across a grade of the list |
| Statistics.PercentileBelowHundred | src/exam/statistics.rs:54-56 | a grade that is not the highest gets a percentile in [0, 100) |
| Statistics.PercentileRange | src/exam/statistics.rs:51-56 | every percentile lies in [0, 100], and it is 100 exactly for the highest grade |
| Statistics.PercentileStrictlyMonotone | src/exam/statistics.rs:43-57 | a strictly higher grade gets a strictly higher percentile |
| Statistics.PercentilePermutation | src/exam/statistics.rs:32-37 | reordering the students changes no grade's percentile |
| Statistics.SingleStudentGetsHundred | src/exam/statistics.rs:51-54 | a single student gets 100, so the division by n-1 = 0 is never reached |
| Statistics.FiveStudentScenario | src/exam/statistics.rs:43-57 | grades 4.65, 3.6, 7.94, 5.03, 1.96 get percentiles 50, 25, 100, 75, 0 |
| Statistics.SwapMovesGap | src/exam/statistics.rs:32-37 | swapping an out-of-order adjacent pair moves the only unsorted position one step left |
| Statistics.GapClosed | src/exam/statistics.rs:32-37 | once that position reaches the front, or its pair is in order, the prefix ascends |
| Statistics.SwapAdjacent | src/exam/statistics.rs:32-37 | swaps two adjacent indices in place; the multisets of indices and of their grades are kept |
| Statistics.InsertIndex | src/exam/statistics.rs:32-37 | one insertion pass: the prefix up to i ascends by grade afterwards, and indices and grades are permuted |
| Statistics.SortIndicesByGrade | src/exam/statistics.rs:24-37 | the index vector 0..n sorted in place: a permutation of 0..n whose grades ascend and are a permutation of the grades |
| Statistics.Range | src/exam/statistics.rs:24 | `(0..n).collect()`: n entries, the entry at i being i |
| Statistics.PositionOf | src/exam/statistics.rs:24 | every student index occurs in the sorted index vector |
| Statistics.PercentileAtGroupStart | src/exam/statistics.rs:53-56 | at the first position of a tie group, below the highest grade, the code's index/(n-1)*100 is that grade's percentile |
| Statistics.AssignStep | src/exam/statistics.rs:58-59 | writing one percentile extends the set of finished positions by one and touches nothing else |
| Statistics.NextPercentile | src/exam/statistics.rs:45-57 | the match on the last grade yields the grade's percentile, including for repeated grades |
| Statistics.SetPercentile | src/exam/statistics.rs:58-59 | the in-place write of one student's percentile keeps the loop's invariant |
| Statistics.AssignPercentiles | src/exam/statistics.rs:40-63 | the walk: every student visited gets its grade's percentile, and every student is either untouched or so updated |
| Statistics.CalculatePercentiles | src/exam/statistics.rs:20-64 | the slice afterwards is exactly `WithPercentiles` of the slice before: only percentiles change, and an empty slice stays as it is |
| Text.LexLeReflexive | src/exam/mod.rs:177-180 | the string order the name sort uses is reflexive |
| Text.LexLeTotal | src/exam/mod.rs:177-180 | the string order is total |
| Text.LexLeAntisymmetric | src/exam/mod.rs:177-180 | the string order is antisymmetric |
| Text.LexLeTransitive | src/exam/mod.rs:177-180 | the string order is transitive |
| Text.ContainsIffOccurs | src/exam/mod.rs:207-210 | `contains` holds exactly when the needle occurs at some position; the empty needle is everywhere |
| Text.ContainsAt | src/exam/mod.rs:207-210 | a needle found at a position is contained |
| Sorting.Le | src/exam/mod.rs:147-180 | the two comparators: by name, two students with the same folded key are never reordered (`sort_by_key` with `Ord`); by grade, a goes no later than b exactly when b's grade is at most a's (`b.grade.partial_cmp(&a.grade)`) |
| Sorting.LeTotal | src/exam/mod.rs:147-180 | both comparators compare every pair |
| Sorting.LeTransitive | src/exam/mod.rs:147-180 | both comparators are transitive |
| Sorting.LeBothWays | src/exam/mod.rs:147-180 | a comparator finds two students equal exactly when neither goes strictly first |
| Sorting.Insert | src/exam/mod.rs:177-180 | inserting adds exactly the one element |
| Sorting.InsertSorted | src/exam/mod.rs:177-180 | inserting into a sorted list keeps it sorted |
| Sorting.StableSort | src/exam/mod.rs:147-180 | the sort result is a permutation, ordered by the comparator |
| Sorting.GradeOrder | src/exam/mod.rs:147-154 | the two sorts of `sort_by_grade`: a permutation of the students, ordered by descending grade |
| Sorting.TiesMembers | src/exam/mod.rs:177-180 | a tie group holds exactly the list's elements that compare equal to its key |
| Sorting.TiesOfInsert | src/exam/mod.rs:177-180 | inserting puts the element first in its own tie group and changes no other group |
| Sorting.StableSortKeepsTies | src/exam/mod.rs:177-180 | stability: the sort keeps every tie group in its original order |
| Sorting.TiesOfSorted | src/exam/mod.rs:147-154 | the tie groups of one comparator, taken from a list sorted by another, are sorted by that other |
| Sorting.TiesCommute | src/exam/mod.rs:147-154 | taking the tie groups of two comparators in either order gives the same list |
| Sorting.SortedWithSameTiesEqual | src/exam/mod.rs:177-180 | two sorted lists with the same tie groups are equal |
| Sorting.StableSortUnique | src/exam/mod.rs:177-180 | any sorted list with the input's tie groups is the sort's result, so the model fixes the library sort's output |
| Sorting.StableSortIdempotent | src/exam/mod.rs:177-180 | sorting a sorted list again changes nothing |
| Sorting.TiesOrderedGivesPairs | src/exam/mod.rs:147-154 | tie groups sorted by a second comparator make every equal pair ordered by it |
| Sorting.GradeOrderSorted | src/exam/mod.rs:147-154 | the grade sort is a permutation with non-increasing grades, and equal grades have non-decreasing folded names |
| Sorting.GradeOrderByTies | src/exam/mod.rs:147-154 | the grade sort depends only on the groups that tie on both name key and grade |
| Sorting.GradeOrderAfterSort | src/exam/mod.rs:147-154 | sorting by name or by grade first does not change the grade sort's result |
| Sorting.GradeOrderIdempotent | src/exam/mod.rs:147-154 | sorting by grade twice gives the same list |
| Sorting.ExampleKeysCompare | src/exam/mod.rs:173-175 | how the three folded doc-test names compare |
| Sorting.AlphabeticOrderExample | src/exam/mod.rs:164-175 | the doc test: the name sort yields David, Joan, Jose, given what the foldings make of the names |
| Sorting.GradeOrderExample | src/exam/mod.rs:134-145 | the doc test: the grade sort yields David, Joan, Jose (grades 7.94, 4.6, 3.6), whatever the foldings |
| Filtering.Retain | src/exam/mod.rs:205-212 | retain keeps exactly the accepted elements and never lengthens the list |
| Filtering.RetainCounts | src/exam/mod.rs:205-212 | retain keeps every copy of an accepted element and no copy of a rejected one |
| Filtering.RetainSublist | src/exam/mod.rs:205-212 | the kept elements are in their original relative order |
| Filtering.SublistTransitive | src/exam/mod.rs:238-247 | order-preserving sublists compose across repeated retains |
| Filtering.RetainAll | src/exam/mod.rs:205-212 | retaining with everything accepted changes nothing |
| Filtering.RetainTwice | src/exam/mod.rs:238-247 | two retain passes equal one pass with the conjunction of both predicates |
| Exams.MatchesQuery | src/exam/mod.rs:206-210 | some query, lowercased, occurs in the lowercased name: no queries match no name, and a query that lowercases to the empty string matches every name |
| Exams.NameQuery | src/exam/mod.rs:205-211 | the closure handed to `retain`: it keeps a student exactly when the name matches the query, and with no queries it keeps no one |
| Exams.EmptyQueryKeepsNone | src/exam/mod.rs:204-213 | an empty query list removes every student |
| Exams.NameFilterExample | src/exam/mod.rs:191-202 | the doc test: queries joan, jorge, jim keep Joan and David, in that order |
| Exams.Listed | src/exam/mod.rs:243-245 | some student of the file has the same lowercased name: an empty file lists no name, and a name present in the file is listed |
| Exams.InFile | src/exam/mod.rs:242-246 | the closure handed to `retain` for one file: it keeps exactly the students the file lists, and an empty file keeps no one |
| Exams.FileFilter | src/exam/mod.rs:237-250 | `filter_by_file` on values: it never lengthens the list, succeeds when every read succeeded, and an error it returns is one of the files' read errors |
| Exams.FileFilterOutcome | src/exam/mod.rs:237-250 | the filter succeeds exactly when every file was read, and otherwise returns the first failed read's error |
| Exams.FileFilterMembers | src/exam/mod.rs:237-250 | a student remains exactly when its lowercased name is listed in every file read before the first failure: the cumulative intersection |
| Exams.ListedInEachIndexed | src/exam/mod.rs:238-247 | being listed in each file read means being listed in every one of the first successful files |
| Exams.FileFilterSublist | src/exam/mod.rs:237-250 | the remaining students keep their original relative order |
| Exams.FileFilterIsRetain | src/exam/mod.rs:237-250 | the students left are exactly one `retain` by "listed in each file read before the first failure", duplicates and order included |
| Exams.HighestRank | src/exam/mod.rs:281-286 | the largest `rank.unwrap_or(0)`: no rank exceeds it, it is attained, and it is 0 with no students |
| Exams.ExamRows | src/exam/mod.rs:274-293 | each row passes exactly when the grade reaches half the configured maximum; a missing percentile or rank shows as 0; every row shows the highest rank |
| Exams.RowsShareHighestRank | src/exam/mod.rs:281-292 | every row shows the same highest rank, and no row's rank exceeds it |
| Exams.PassIsMonotone | src/exam/mod.rs:275 | a grade at least as high as a passing grade passes |
| Exams.Exam.constructor | src/exam/mod.rs:45-54 | the students after the statistics are attached, maximum grade 10, no name |
| Exams.Exam.SetMaxGrade | src/exam/mod.rs:101-103 | only the maximum grade changes, to the value given |
| Exams.Exam.SetName | src/exam/mod.rs:122-124 | only the name changes, to `Some` of the value given |
| Exams.Exam.SortByAlphabeticOrder | src/exam/mod.rs:177-180 | the students become the stable sort by folded name; nothing else changes |
| Exams.Exam.SortByGrade | src/exam/mod.rs:147-154 | the students become the name sort followed by the stable descending grade sort; nothing else changes |
| Exams.Exam.FilterByName | src/exam/mod.rs:204-213 | the students become those whose lowercased name contains some lowercased query |
| Exams.Exam.FilterByFile | src/exam/mod.rs:237-250 | the loop leaves the students and returns the outcome that the per-file narrowing, stopped by the first failure, describes |
| Statistics.CastU32 | src/exam/summary.rs:26 | `len() as u32` (and `count() as u32` in `passed_students`): a value below 2^32, equal to the count when it fits |
| Text.SortKeyIgnoresCase | src/exam/mod.rs:179 | the key `unidecode(name.to_lowercase())` is the same for names that lowercase alike |
| Text.LexLe | src/exam/mod.rs:179 | Rust's `Ord` on `String`, character by character: a string comes before any string it is a prefix of |
| Text.Contains | src/exam/mod.rs:210 | `str::contains`: a needle that is found is no longer than the haystack |
| Summary.WrappingSub | src/exam/summary.rs:28 | `u32` subtraction: the difference when it is not negative, and otherwise wrapped around by 2^32 |
| Summary.PassRate | src/exam/summary.rs:29 | a number exactly when there are students, then passed/total*100, in [0, 100] when passed is at most total; NaN for 0/0 and infinity for k/0 |
| Summary.Assemble | src/exam/summary.rs:26-48 | the record: total is the length modulo 2^32, passed + failed = total when the length fits, the pass rate, mean times n is the sum of the grades, `maxGrade` is the value `max_student_grade` returns, not the configured ceiling, and median, minimum grade and highest rank are the callees' values |
| Summary.PassRateInRange | src/exam/summary.rs:29 | with fewer than 2^32 students the pass rate is a number in [0, 100] exactly when there are students, and NaN otherwise |
| Summary.MaxGradeIgnoresCeiling | src/exam/summary.rs:22-45 | the record's maximum grade does not depend on the configured maximum, which the local shadows |
| Summary.WriteBack | src/exam/summary.rs:23-24 | the slice is overwritten with the result of an in-place pass |
| Summary.New | src/exam/summary.rs:22-49 | rank, then percentile, are attached to the slice in place before the record is assembled from the attached students |
| Summary.SummaryRows | src/exam/summary.rs:75-96 | each row passes exactly when the grade reaches half the record's maximum grade; a missing percentile or rank shows as 0; every row shows the record's highest rank |
| Summary.SummaryPassUsesMaxStudentGrade | src/exam/summary.rs:75-84 | in the summary table, passing means reaching half the value `max_student_grade` returns, not half the configured ceiling |
| Plot.Ceil | src/exam/plot.rs:26-33 | the least integer not below the value |
| Plot.ToUsize | src/exam/plot.rs:33-35 | a float-to-`usize` cast saturates negative values to 0 |
| Plot.BucketCount | src/exam/plot.rs:33 | `max_grade.ceil() as usize`: no buckets for a maximum of 0 or less, otherwise the least n with max_grade <= n |
| Plot.BucketIndex | src/exam/plot.rs:35 | `grade.floor() as usize`: 0 for a negative grade, otherwise the b with b <= grade < b + 1 |
| Plot.Clamp | src/exam/plot.rs:12-23 | a grade above the maximum becomes max - 0.01, a grade equal to it loses 0.01, and any other grade is kept; the result is below the maximum |
| Plot.ClampGrades | src/exam/plot.rs:8-24 | the mapped grades are the clamped grades, and the overflow flag is set exactly when some grade is strictly above the maximum |
| Plot.Largest | src/exam/plot.rs:32-39 | the largest bucket count: no bucket exceeds it, it is a bucket's count, and it is 0 with no buckets |
| Plot.TotalIncrement | src/exam/plot.rs:36 | adding one to a bucket adds one to the sum of the counts |
| Plot.LargestRaise | src/exam/plot.rs:37-39 | raising a bucket makes the largest count the larger of the old largest and the raised bucket |
| Plot.CountOne | src/exam/plot.rs:35-39 | one step: the bucket gains one, the total gains one, and the running maximum is the largest count |
| Plot.CountInto | src/exam/plot.rs:34-40 | the loop succeeds exactly when every bucket index exists; then each bucket holds the count of its grades, the counts add up to n, and the maximum is the largest count; otherwise it reports the first out-of-range position (every earlier grade has its bucket) and that grade's index |
| Plot.LoopStep | src/exam/plot.rs:34-40 | counting one more grade keeps the loop's invariant |
| Plot.CountsStep | src/exam/plot.rs:35-36 | counting grade k turns the counts of the first k grades into those of the first k + 1 |
| Plot.CountBuckets | src/exam/plot.rs:32-40 | `ceil(max_grade)` buckets zeroed, then counted: on success, bucket b holds the number of grades whose floor is b, the counts add up to n, and the maximum is the largest count; on a panic, the position is the first grade without a bucket |
| Plot.ClampedInBounds | src/exam/plot.rs:12-35 | with a positive maximum, every clamped grade's bucket exists, because floor(x) <= x < max <= ceil(max) |
| Plot.NoBucketsWithoutPositiveMax | src/exam/plot.rs:33 | with a maximum of 0 or less there are no buckets |
| Plot.Histogram | src/exam/plot.rs:7-40 | it returns normally exactly when the maximum is positive or there are no students (an empty exam gives `max_bucket_size` 0); with a positive maximum the counting succeeds with `ceil(max_grade)` buckets summing to the number of students; with no positive maximum and some student it panics; each bucket counts its students, and `max_bucket_size` is the largest bucket count |
| Plot.OccurrencesCountsPositions | src/exam/plot.rs:34-36 | the recursive count of a bucket equals the number of positions whose grade falls into it |

## Left out

- I/O, parsing and printing are left out:
  - reading and parsing students files (`src/exam/parse.rs`, `src/input.rs`, `Exam::from_file`);
  - the colored `Display` text of `src/error.rs`;
  - every table, colour and terminal plot.
- `filter_by_file` takes the files' parse results as values (`FileRead`): the students read, or the error of that file.
- `f32` arithmetic is replaced by exact reals:
  - rounding, including the `- 0.01` and the f32-to-f64 casts, is not modelled;
  - NaN grades are not modelled, nor the `partial_cmp(..).unwrap_or(Ordering::Equal)` fallbacks they would reach;
  - the unit test of `mean` compares approximately, while the model's value is exactly 6.32.
- Plot.CountOne: the bucket counts and `max_bucket_size` are `i32` in the source (untyped integer literals), so `buckets[bucket] += 1` overflows once one bucket passes 2^31-1 grades. The model's `nat` counts do not; `Plot.CountInto`, `Plot.CountBuckets` and `Plot.Histogram` inherit this.
- Plot.ToUsize: saturates negatives to 0 but does not saturate values above `usize::MAX`. Grades are unbounded reals.
- Unicode case and accent folding (`to_lowercase`, `unidecode`) are uninterpreted functions in `Text.Folding`. The doc-test lemmas state what the foldings make of the doc-test names as a precondition.
- The callees of `ExamStatistics::new` are parameters in `Summary.Callees`, with only the facts the code relies on (`Summary.Valid`): `attach_rank`, `attach_percentile`, the two-argument `passed_students`, `median`, `std_deviation`, `max_student_grade`, `min_student_grade` and `highest_rank`.
  - These functions are not defined in `src/exam/statistics.rs` at this revision, so `attach_percentile` is not tied to `Statistics.CalculatePercentiles`.
  - Likewise, `AttachStatistics::attach_statistics` is a parameter of `Exams.Exam.constructor`.
- `Exam::summary` and `Exam::histogram` are not modelled separately. They only pass the exam's students and maximum grade to `ExamStatistics::new` and `histogram` (modelled as `Summary.New` and `Plot.Histogram`) and print the result.
  - `Exam::summary` passes a shared reference where `ExamStatistics::new` takes a mutable slice.
  - It prints fields (`pass_percentage`, `std_deviation`) that the record of `summary.rs` does not have.
- Summary.Assemble: the median, standard deviation, maximum grade, minimum grade and highest rank are only the callees' values; no property of them is stated, since their definitions are not part of this model.
- Statistics.SortIndicesByGrade: does not state that equal grades keep their indices in ascending order (the library sort is stable). The percentiles do not depend on that order.
- In a debug build, `total_students - passed_students` panics on underflow. The model follows the wrapping release-build arithmetic (`Summary.WrappingSub`). Since the passed count never exceeds the length, a length below 2^32 reaches neither.
