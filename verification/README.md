# Gradebook analyzer, modelled in Dafny

The repository holds two versions of a small gradebook tool. Both read
`name,score` rows and report statistics about them.

- `1.py` loads a CSV file into a marks dict and an entry-order list. It
  detects a header row. It then computes the average, the median and the
  extreme scores with all the names that reach them; each of these raises
  `ValueError` on an empty dict. It also assigns letter grades with a
  five-letter distribution, and splits a student list at a pass mark of 40.
- `gradebook.py` loads the same kind of file into a dict only. It stores a
  row with an empty name under `"<Unknown>"`. Its statistics return `None`,
  or `([], None)`, for an empty dict. It grades and counts the letters in one
  loop, and splits at a threshold that defaults to 40.

The model takes the rows as already split into cells (`seq<seq<string>>`).
A dict is an association list of `Entry(name, value)` with unique names,
kept in insertion order. Assigning to an existing key keeps that key's
position, as Python's dict does. Scores are exact `real`s. An empty-dict
`ValueError` becomes `Failure(EmptyMarks)`, and `None` becomes
`Option.None`.

Both loaders take the `float` they call as a parameter, `parse: Parser`,
a function from text to an optional real. Every loader lemma holds for
every such parser. The lemmas relating the two loaders assume only that
the parser rejects the empty string (`parse("") == None`), as Python's
`float` does. `Numeric.ParseFloat` is one concrete parser: it reads
decimal literals after `str.strip()`, and the examples load with it.

Modules, one per file:

- `Wrappers`: `Option` and `Result`.
- `Text`: `str.strip` and blank cells.
- `Numeric`: `float()`.
- `Assoc`: the insertion-ordered dict.
- `Stats`: sums, extremes, sorting, the median, and selecting names by score.
- `Grades`: letters and their distribution.
- `AnalyzerCsv` and `Analyzer`: 1.py's loader and statistics.
- `GradebookCsv` and `GradebookAnalysis`: gradebook.py's loader and analysis.
- `Agreement`: how the two loaders relate.
- `Examples`: 1.py's hard-coded sample data, worked through the model.

On the loader of 1.py:

- Header detection is the same as skipping a first row whose mark does not
  parse. The only difference is that a first non-blank row with fewer than
  two cells abandons the whole load (`AnalyzerCsv.LoadCsvCharacterization`,
  `AnalyzerCsv.HeaderRowDropped`).
- The branch at 1.py:114-115 that reports an invalid mark in a non-header
  first row can never run. A first row that is not a header has a mark that
  parsed after stripping, and stripping twice changes nothing
  (`Text.StripIdempotent`, `AnalyzerCsv.TryParseMarkIgnoresStrip`).

On the loader of gradebook.py:

- Only an empty row is skipped before the cells are read (gradebook.py:45).
  A row of whitespace cells is skipped later: at gradebook.py:49-51 when it
  has one cell, and otherwise at gradebook.py:53-58, because its stripped
  score cell is empty and does not parse (`Agreement.BlankRowsSkipped`).

## Model

| member | source | states |
|---|---|---|
| Text.Strip | 1.py:89 | the stripped text has no Python whitespace at either end |
| Text.StripInfix | gradebook.py:48 | the stripped text is a contiguous piece of the original, with only whitespace cut away before and after it |
| Text.BlankIffStripsToEmpty | 1.py:80 | a cell is blank exactly when `cell.strip() == ""` |
| Text.StripIdempotent | 1.py:101-111 | stripping an already stripped cell changes nothing |
| Text.StripUnchanged | 1.py:89 | text with no whitespace at either end is its own strip |
| Numeric.ParseFloat | 1.py:92 | `ParseFloat` never accepts blank text, and accepts only text that contains a digit |
| Numeric.ParseFloatIgnoresStrip | gradebook.py:52-54 | stripping a cell before `float` does not change what it parses to |
| Numeric.ParseRenderRoundTrip | 1.py:92 | the decimal form of every natural number, and of its negation, parses back to that number |
| Assoc.Lookup | 1.py:129 | a name has a value exactly when it is a key, and that value is the value stored under it |
| Assoc.Put | 1.py:131 | `d[name] = v` appends a new key at the end; for an existing key it keeps the key order and changes only that key's entry; keys stay unique |
| Assoc.LookupPut | 1.py:131 | after `d[name] = v` the name reads `v` and every other key reads what it read before |
| Assoc.Replay | 1.py:131 | assigning a list of records in turn yields a dict with unique keys |
| Assoc.ReplayNames | 1.py:129-132 | the keys of the replayed dict are exactly the names in the list, and there are no more of them than records |
| Assoc.LastWriteWins | 1.py:129-132 | a name holds the value of the last record that names it |
| Assoc.AbsentNameNotReplayed | 1.py:129-132 | a name that no record carries is not a key |
| Stats.MaxOf | 1.py:196-199 | the running maximum is one of the scores and no score exceeds it |
| Stats.MinOf | 1.py:208-211 | the running minimum is one of the scores and no score is below it |
| Stats.MaxOfStep | 1.py:197-199 | one more score replaces the running maximum exactly when it is larger |
| Stats.MinOfStep | 1.py:209-211 | one more score replaces the running minimum exactly when it is smaller |
| Stats.SumPrefix | 1.py:171-175 | `Sum` is the running total: the sum of the first k + 1 scores is the sum of the first k plus the next one |
| Stats.Mean | 1.py:171-176 | the mean times the count is the sum |
| Stats.MeanWithinExtremes | 1.py:171-176 | the mean lies between the lowest and the highest score |
| Stats.SumBetween | 1.py:171-176 | a sum of scores within bounds lies within count times those bounds |
| Stats.Sort | 1.py:183 | `sorted` returns an ascending permutation of the scores |
| Stats.CountPermutation | 1.py:183 | reordering the scores does not change how many pass a test |
| Stats.SortedUnique | 1.py:183 | two ascending arrangements of the same scores are equal |
| Stats.MedianOfSorted | 1.py:183-189 | the median is the middle of any ascending arrangement of the scores: the central one for an odd count, the mean of the two central ones for an even count |
| Stats.MedianIsMiddle | 1.py:183-189 | the median equals the middle of every ascending arrangement of the scores |
| Stats.MedianIgnoresOrder | 1.py:183 | the median depends on the scores only, not on the dict's order |
| Stats.Middle | 1.py:184-189 | the middle of a sorted list lies between its first and last element, and is one of its elements for an odd length |
| Stats.MiddleSplitsSorted | 1.py:184-189 | at least half of a sorted list lies at or below its middle, and at least half at or above |
| Stats.Median | 1.py:183-189 | the median lies between the lowest and highest score, has at least half of the scores on each side, and is one of the scores for an odd count |
| Stats.NamesWhere | 1.py:200 | the comprehension keeps exactly the names whose score passes the test, in dict order; in a dict, a key is kept exactly when its own score passes |
| Stats.NamesWhereAppend | 1.py:200 | the names selected from two lists joined are those selected from each, in order |
| Stats.NamesWhereSingle | 1.py:200 | a single entry contributes its name once when its score passes, and nothing otherwise |
| Stats.ThresholdPartition | 1.py:295-296 | `score >= b` and `score < b` together select every name exactly as often as it occurs |
| Grades.AssignGrade | 1.py:260-270 | a letter above F means the score reaches that letter's inclusive lower bound (90, 80, 70, 60), and the score is below the bound of every better letter |
| Grades.AssignGradeMonotone | 1.py:260-270 | a higher score never gets a worse letter |
| Grades.CountGrade | 1.py:275 | a letter's count is its number of occurrences among the grades (its multiplicity), positive exactly when the letter occurs |
| Grades.LetterCountsSum | 1.py:273-278 | the five letter counts add up to the number of grades |
| Grades.CounterDistribution | 1.py:275-278 | `Counter` plus `setdefault` holds all five letters, each with its number of occurrences, summing to the number of students |
| Grades.GradeAll | 1.py:273 | the grades dict has the same names in the same order, each with the letter of its score |
| AnalyzerCsv.TryParseMark | 1.py:88-93 | `try_parse_mark` rejects blank text and otherwise agrees with `float` |
| AnalyzerCsv.IsAccepted | 1.py:118-128 | a row is kept only when it has two cells and a mark that parses; a blank row is never kept |
| AnalyzerCsv.RecordOf | 1.py:123-125 | a kept row's record has as its name the stripped first cell, so no whitespace at either end, and the mark `float` gives for its stripped second cell |
| AnalyzerCsv.Step | 1.py:117-132 | a blank, short or unparsable row changes nothing; an accepted row assigns its mark and appends its record to the order |
| AnalyzerCsv.TryParseMarkIgnoresStrip | 1.py:101-111 | `try_parse_mark` on an already stripped cell gives what it gives on the raw cell |
| AnalyzerCsv.StartOf | 1.py:101-115 | the first row starts the order with its record exactly when a later row like it would be accepted, and starts it empty otherwise |
| AnalyzerCsv.FirstNonBlank | 1.py:79-83 | the first loop stops at the first non-blank row, after only blank rows |
| AnalyzerCsv.LoadRows | 1.py:117-132 | the loop only appends to the order, at most one record per row; lemma LoadRowsRecords says exactly which |
| AnalyzerCsv.LoadRowsRecords | 1.py:117-132 | the loop appends exactly the accepted records, and the dict stays the replay of the order |
| AnalyzerCsv.LoadCsv | 1.py:78-133 | with no non-blank row, or a short first non-blank row, nothing is loaded; the order has at most one record per row; lemma LoadCsvCharacterization gives the full result |
| AnalyzerCsv.LoadCsvCharacterization | 1.py:78-133 | a load whose first non-blank row is short returns nothing; otherwise the order is the list of all accepted records, and the dict is their replay |
| AnalyzerCsv.LoadCsvMarksFollowOrder | 1.py:129-132 | the keys are exactly the names in the order, the order is at least as long as the dict, and each key holds the last mark recorded for it |
| AnalyzerCsv.BlankRowIgnored | 1.py:118 | inserting a blank row anywhere changes nothing |
| AnalyzerCsv.LaterRejectedRowIgnored | 1.py:120-128 | after the first non-blank row, a short or unparsable row changes nothing |
| AnalyzerCsv.AcceptedRowAppends | 1.py:129-132 | an accepted row at the end appends one record and assigns its mark |
| AnalyzerCsv.HeaderRowDropped | 1.py:101-115 | the first non-blank row is dropped exactly when its mark does not parse, and is recorded otherwise |
| AnalyzerCsv.AbortsBlankInsert | 1.py:79-99 | blank rows do not change whether the load is abandoned |
| Analyzer.CalculateAverage | 1.py:167-176 | fails exactly on an empty dict; otherwise the sum over the count, the mean, between the lowest and highest score |
| Analyzer.CalculateMedian | 1.py:179-189 | fails exactly on an empty dict; otherwise the middle of every ascending arrangement of the scores, between the lowest and highest score, with at least half of the scores on each side, and one of the scores for an odd count |
| Analyzer.FindMaxScore | 1.py:192-201 | fails exactly on an empty dict; otherwise the maximum, reached by some student, with the non-empty list of exactly the names that reach it, in dict order |
| Analyzer.FindMinScore | 1.py:204-213 | the mirror image for the minimum |
| Analyzer.NamesReachingScore | 1.py:200 | a score that some student has is reached by at least one name |
| Analyzer.PassedAndFailed | 1.py:295-296 | `passed` holds the names scoring at least 40 and `failed` those below; each keeps list order, and together they hold every name exactly as often as the list does |
| Analyzer.PassedAndFailedAppend | 1.py:295-296 | the split of two lists joined is the two splits joined side by side |
| Analyzer.PassedAndFailedSingle | 1.py:295-296 | a single record goes once to `passed` when it scores at least 40, and once to `failed` otherwise |
| GradebookCsv.KeyFor | gradebook.py:59-60 | a stored key is never empty; it is the name itself whenever that is not empty, and `"<Unknown>"` when it is |
| GradebookCsv.IsAccepted | gradebook.py:45-58 | a kept row has two cells and a score that parses; for a `float` that rejects the empty string, a blank row is never kept |
| GradebookCsv.RecordOf | gradebook.py:48-61 | a kept row's key is never empty, is the stripped name whenever that is not empty and `"<Unknown>"` when it is, and holds the score `float` gives for the stripped second cell |
| GradebookCsv.Step | gradebook.py:44-61 | an empty, short or unparsable row changes nothing; any other row assigns its score under its key |
| GradebookCsv.StepKeys | gradebook.py:59-61 | one row keeps the keys unique and non-empty, and changes only the key it names |
| GradebookCsv.LoadRows | gradebook.py:44-61 | the loop never removes or reorders a key, and adds at most one key per row |
| GradebookCsv.LoadCsv | gradebook.py:37-62 | the dict has at most one key per row; lemma LoadCsvCharacterization gives the full result |
| GradebookCsv.LoadCsvCharacterization | gradebook.py:37-62 | the loaded dict is the replay of the records of the accepted rows |
| GradebookCsv.LoadCsvKeys | gradebook.py:59-61 | no key is empty, and each key holds the score of the last accepted row that names it |
| GradebookCsv.SkippedRowIgnored | gradebook.py:45-58 | a row that is empty, short or unparsable changes nothing, wherever it stands |
| GradebookCsv.LastAcceptedRowWins | gradebook.py:61 | the last accepted row decides its key's score |
| GradebookAnalysis.CalculateAverage | gradebook.py:65-68 | `None` exactly for an empty dict; otherwise the value that, times the number of scores, gives their sum |
| GradebookAnalysis.AverageWithinExtremes | gradebook.py:65-68 | the average lies between the lowest and the highest score |
| GradebookAnalysis.CalculateMedian | gradebook.py:70-73 | `None` exactly for an empty dict; otherwise the middle of every ascending arrangement of the scores, between the lowest and highest score, with at least half of the scores on each side, and one of the scores for an odd count |
| GradebookAnalysis.FindMaxScore | gradebook.py:75-80 | `([], None)` exactly for an empty dict; otherwise the maximum, reached by some student, and exactly the names that reach it, in dict order |
| GradebookAnalysis.FindMinScore | gradebook.py:82-87 | the mirror image for the minimum |
| GradebookAnalysis.AssignGrades | gradebook.py:90-107 | the grades dict has the names of the marks dict, each with the letter of its score; the distribution counts every letter, agrees with 1.py's `Counter` distribution, and sums to the number of students |
| GradebookAnalysis.DistributionAgrees | gradebook.py:92-106 | a map that counts every letter equals the `Counter` distribution, and its counts sum to the number of grades |
| GradebookAnalysis.PassFailLists | gradebook.py:110-113 | the two lists are disjoint; every name is on exactly one of them exactly once; a name passes exactly when its score reaches the threshold; each list keeps dict order |
| Agreement.SameRowsAccepted | gradebook.py:45-58 | for a parser that rejects the empty string, both loaders keep exactly the same rows |
| Agreement.SameRecords | gradebook.py:47-58 | when no accepted row has an empty name, both loaders read the same records |
| Agreement.LoadersAgree | gradebook.py:37-62 | when 1.py does not abandon the load and no accepted row has an empty name, both versions build the same dict |
| Agreement.ShortFirstRowDiverges | 1.py:97-99 | a short first non-blank row makes 1.py return nothing, while gradebook.py skips it and loads the rest |
| Agreement.BlankRowsSkipped | gradebook.py:45-58 | leading blank rows do not change gradebook.py's dict |
| Agreement.BlankRowsRejected | gradebook.py:45-58 | when `float` rejects the empty string, gradebook.py keeps no blank row: its score cell, if any, strips to the empty string, and a shorter row is skipped for its width |
| Agreement.DefaultSplitAgrees | gradebook.py:110-113 | with the default threshold, `pass_fail_lists` splits a dict exactly as 1.py splits its student list at 40 |
| Examples.SampleMean | 1.py:238-246 | the average of `sample_marks` is 83.5 |
| Examples.SixScoresMedian | 1.py:238-246 | any ordering of the six sample scores has median 85 |
| Examples.SampleTop | 1.py:238-246 | the maximum of `sample_marks` is 92, reached by Bob and Diana |
| Examples.SampleBottom | 1.py:238-246 | the minimum of `sample_marks` is 69, reached by Evan alone |
| Examples.ScoresDistribution | 1.py:250-278 | the distribution of `scores` is A 2, B 2, C 1, D 1, F 1 |
| Examples.StudentsSplit | 1.py:288-296 | `students` splits into Alice, Charlie, Eve and Bob, David |
| Examples.BadRowSkipped | gradebook.py:52-58 | the row `Bob,not_a_number` is skipped wherever it stands |

## Left out

- Menus, prompts, `input`, `print`, warnings and `manual_entry` in both files are interactive I/O.
- The file-existence checks and file opening are operating-system I/O. A missing file is the same as no rows.
- `csv.reader`'s tokenising and quoting belong to the standard library. Rows arrive already split into cells.
- Numeric.ParseFloat: accepts only decimal literals (optional sign, digits with an optional point, optional exponent). It rejects `inf`, `nan`, underscore digit groups and non-ASCII digits, all of which Python's `float` accepts.
- The `is_integer` coercion of whole marks to `int` in 1.py changes only how a mark is displayed, so it is not modelled.
- Floating-point rounding is not modelled, because scores are exact reals. `statistics.mean` and `statistics.median` are given the same definitions as 1.py's own functions.
- `print_analysis_summary` and `print_analysis` only format results that the model does compute.
- The sample data at module level appears only in `Examples`, as fixed inputs.
- GradebookAnalysis.AssignGrades and GradebookAnalysis.PassFailLists: require unique keys, which every Python dict has.
- `nan` and `inf` marks are not modelled, because reals have neither. In Python a NaN mark equals nothing, so `find_max_score` and `find_min_score` can then return an empty name list; the model cannot show this.
