# Weirdness-index vocabulary extraction, modelled in Dafny

The system finds domain-specific words in a small specialist text by
comparing each word's relative frequency there with its relative frequency
in a large general corpus (the weirdness index). It has two pure pipelines,
and both are modelled here.

1. **Reference-table aggregation** (`google_unigrams.py`). Each partition's
   raw n-gram records are folded into a word -> `{freq, count}` table
   (`process_letter`). The tables of the partitions that did not raise are
   merged by per-word addition (`merge_dicts`). Each merged entry is then
   reduced to `freq / count` (`calculate_relative_freq`).
2. **Weirdness scoring** (`extract_words.py`). The general table is loaded
   from `;`-delimited rows, and malformed rows are skipped. Each specialist
   word gets the score `(ws/ts)/(wg/tg)`, with `wg = 1.0` for words missing
   from the general table. Scores below `min_weirdness` are dropped. The rest
   are stable-sorted by descending score and truncated to `top_n`. The
   tokenizer `calculate_word_frequencies_from_text` builds the specialist
   table from text.

Files (one module each):

- `wrappers.dfy`: `Option` and `Result`, plus `ZeroDivisionError`, the
  exception the model keeps (see "## Left out" for the ones it does not).
- `text.dfy`: ASCII lower-casing, the `\w` character class, the tokenizer
  (maximal runs of word characters) and the `Counter` as an insertion-ordered
  table.
- `unigrams.dfy`: `process_letter`, `merge_dicts`, `calculate_relative_freq`
  and the driver's collection of completed partitions.
- `general_corpus.dfy`: the row fold that builds `general_freqs` and `tg`.
- `stable_sort.dfy`: Python's stable `sort(..., reverse=True)` on
  (word, score) pairs, as an insertion sort on sequences.
- `weirdness.dfy`: scoring, threshold, sort, truncation, and the whole of
  `extract_important_words_by_weirdness`.

Modelling choices:

- The specialist table and the `Counter` result are sequences of pairs,
  because their iteration order decides the order of the scores and of the
  output. The `Counter` result has distinct keys (`Text.DistinctKeys`). The
  specialist table is any sequence of (word, count) pairs, which is more
  general than a dict's items: the scoring does not need distinct keys. Partition tables, the merged table, the
  relative-frequency table and `general_freqs` are Dafny `map`s, which keep
  contents but not order. The merged table's key order is first-seen order
  over the completed list (google_unigrams.py:48), and
  `calculate_relative_freq` and `write_to_csv` keep it (lines 33 and 56).
  So the completion order of the partitions decides the row order of the
  written CSV file. Only the contents are independent of that order, and
  only the contents are stated.
- Python floats are exact `real`s. A division by zero, which raises
  ZeroDivisionError in Python, is a `Failure` result, not a precondition.
- The n-gram store is a parameter. A partition is the sequence of
  `Record(ngram, matchCount)` it yields, or `None` when its fetch raised.
  The CSV reader is the sequence of rows it yields. `float(...)` is a
  parameter `parse: string -> Option<real>`.
- Stability of the sort is stated per score level. `Level(s, v)` is the
  subsequence of pairs scoring `v`. A stable sort keeps every level
  unchanged (`SortStable`). Sortedness plus unchanged levels determine the
  output uniquely (`SortedLevelsUnique`).

Edge cases of the code that the model keeps:

- An empty specialist table makes `ts == 0`, but the scoring loop never runs,
  so no division happens and the result is the empty list. `Weirdness.Rank`
  fails exactly when the table is non-empty and one of `ts`, `tg` or some
  word's general value is zero.
- `tg` adds the value of every valid row. A word that appears on two valid
  rows is therefore counted twice in `tg`, while `general_freqs` keeps only
  the last value (`GeneralCorpus.DuplicateWordCountedTwice`).
- `top_n = 0` gives the empty list. A negative `top_n` is excluded (see
  below).

## Model

| member | source | states |
|---|---|---|
| `Text.Tokens` | extract_words.py:66 | every token found is a non-empty run of word characters; which runs and in what order is fixed by `TokensInTextOrder`, `TokenMultiplicity` and `TokenCountIsRunCount` |
| `Text.TokensAreMaximalRuns` | extract_words.py:66 | every token occurs in the text at some position where it is preceded and followed by a non-word character or the text's edge, so it is a maximal run and never part of a longer one |
| `Text.TokensInTextOrder` | extract_words.py:66 | the tokens sit in the text at strictly increasing, non-overlapping positions, each as a whole run, so they come in the order the text has them |
| `Text.TokenMultiplicity` | extract_words.py:66 | a word occurs among the tokens exactly as many times as it occurs in the text as a whole run, counted position by position |
| `Text.TokenCountIsRunCount` | extract_words.py:66 | the number of tokens equals the number of maximal word-character runs, counted by an independent two-state scanner |
| `Text.TokensCoverWordChars` | extract_words.py:66 | the tokens, concatenated in order, are exactly the word characters of the text, so no word character is dropped or invented |
| `Text.TokensOfLowerAreLower` | extract_words.py:65-66 | tokens of lower-cased text contain no upper-case letter |
| `Text.Bump` | extract_words.py:67 | one `Counter` increment: an existing key has its count raised by one in place, and a new key is appended with count 1; keys stay distinct |
| `Text.CountTokens` | extract_words.py:67-69 | the counted table never repeats a key |
| `Text.CountTokensKeys` | extract_words.py:67-69 | the table's keys are exactly the distinct tokens |
| `Text.CountTokensCounts` | extract_words.py:67-69 | each entry's count is the number of occurrences of its key among the tokens |
| `Text.CountTokensOrder` | extract_words.py:67-69 | keys appear in order of first occurrence, the dict order `Counter` produces |
| `Text.CountTokensSum` | extract_words.py:67-69 | the counts add up to the number of tokens |
| `Text.WordFrequencies` | extract_words.py:55-69 | the returned table never repeats a key |
| `Text.WordFrequenciesSpec` | extract_words.py:55-69 | every key is a lower-case token; each key's count is the number of places where it occurs in the lower-cased text as a whole run; a token-shaped word is a key exactly when it occurs there at least once; keys come in order of first occurrence; the counts add up to the number of maximal word runs |
| `Unigrams.ProcessLetter` | google_unigrams.py:9-27 | no key contains `_`, every key is lower case, and every entry has count at least 1 |
| `Unigrams.ProcessLetterSpec` | google_unigrams.py:15-26 | the key set is exactly the lower-cased n-grams without `_`; each entry's count is the number of records filed under its word, and its freq is the sum of their match counts |
| `Unigrams.MergeDicts` | google_unigrams.py:39-49 | the key set is the union of the input tables' keys, and each freq and count is the sum over every input table holding the word |
| `Unigrams.MergeStep` | google_unigrams.py:42-48 | folding one more table into a merge gives the merge of the longer list |
| `Unigrams.SumPermutation` | google_unigrams.py:42-48 | a per-word sum over the tables depends only on the multiset of tables |
| `Unigrams.MergeDictsPermutation` | google_unigrams.py:42-48 | any permutation of the input list gives the same merged table |
| `Unigrams.MergeDictsSingle` | google_unigrams.py:41-49 | merging no tables gives an empty table, and merging one table gives that table back |
| `Unigrams.MergeDictsInsertEmpty` | google_unigrams.py:42-48 | inserting an empty table anywhere in the list leaves the merge unchanged |
| `Unigrams.MergeDictsPositive` | google_unigrams.py:42-48 | if every input entry has a positive count, so does every merged entry |
| `Unigrams.RelativeFreq` | google_unigrams.py:30-36 | fails exactly when some entry has count 0; otherwise it keeps the key set and maps each word to its mean match count, the value that multiplied by its count gives its freq |
| `Unigrams.Aggregate` | google_unigrams.py:98-103 | merging the completed tables and reducing them fails exactly when some word's counts over all tables add up to 0; otherwise the keys are the words of any completed table, each mapped to the mean of its summed freq over its summed count |
| `Unigrams.Collect` | google_unigrams.py:81-94 | only successful partitions are collected, each as a table whose counts are all positive |
| `Unigrams.CollectKeys` | google_unigrams.py:81-94 | a word is in some collected table exactly when a successful partition retained it |
| `Unigrams.ReferenceTable` | google_unigrams.py:73-103 | for any completion order of the successful partitions, the reference table has the same contents, it never fails, and it holds exactly the words those partitions retained; a failed partition's exclusive words are absent (its key order, and so the CSV row order, does depend on the completion order) |
| `Unigrams.DogScenario` | google_unigrams.py:30-49 | {dog: 10/2} merged with {dog: 5/1} gives {dog: 15/3} and relative frequency 5 |
| `GeneralCorpus.Load` | extract_words.py:24-37 | the table holds the word of every valid row, mapped to the value of the last valid row with that word; `tg` is the sum of the values of all valid rows |
| `GeneralCorpus.LoadStep` | extract_words.py:28-37 | reading one more row extends the load of the rows before it |
| `GeneralCorpus.LoadIgnoresInvalidRows` | extract_words.py:29-35 | rows without exactly two fields, or whose second field does not parse, change neither the table nor `tg` |
| `GeneralCorpus.DuplicateWordCountedTwice` | extract_words.py:36-37 | rows a;1 and a;2 give the table {a: 2} but `tg = 3` |
| `StableSort.Insert` | extract_words.py:51 | inserting into a sorted list keeps it sorted, adds exactly one element, and introduces nothing else |
| `StableSort.InsertLevel` | extract_words.py:51 | the inserted pair goes after every pair with the same score |
| `StableSort.Sort` | extract_words.py:51 | the result has the input's length and is sorted by non-increasing score |
| `StableSort.SortStable` | extract_words.py:51 | pairs with equal scores keep their input order |
| `StableSort.SortPermutes` | extract_words.py:51 | the result is a permutation of the input |
| `StableSort.SortedLevelsUnique` | extract_words.py:51 | two sorted lists that agree on every score level are equal, so the sort's contract determines its output |
| `Weirdness.GeneralFreqOfRows` | extract_words.py:24-45 | the lookup `general_freqs.get(word, 1.0)` (`GeneralFreq`) in a loaded file gives a word the value of the last valid row with that word, and 1.0 when no valid row has it |
| `Weirdness.Weirdness` | extract_words.py:45-46 | the score times the general relative frequency is the specialist relative frequency, and the score is non-negative for non-negative counts and positive totals |
| `Weirdness.ScoreAll` | extract_words.py:40-46 | fails exactly when some entry's score divides by zero; otherwise it gives one pair per entry, in table order, holding the word and its weirdness |
| `Weirdness.AtLeast` | extract_words.py:47-48 | every kept pair is a scored pair whose score is at least `min_weirdness` |
| `Weirdness.AtLeastLevel` | extract_words.py:47-48 | the threshold keeps whole score levels in order: a level at or above `min_weirdness` is kept, a level below it is dropped |
| `Weirdness.Rank` | extract_words.py:40-52 | fails exactly when the table is non-empty and `ts`, `tg` or some word's general value is zero; otherwise the list is sorted by non-increasing score and holds at most `top_n` pairs |
| `Weirdness.RankMembers` | extract_words.py:44-48 | every returned pair is a word of the specialist table with its exact weirdness `(ws/ts)/(wg/tg)`, and that score is at least `min_weirdness` |
| `Weirdness.RankTopN` | extract_words.py:47-52 | the length is `min(top_n, number of words reaching the threshold)`, and no left-out word that reached the threshold scores more than a returned one |
| `Weirdness.RankStable` | extract_words.py:51-52 | within one score, the returned pairs are a prefix of that score's pairs in specialist-table order |
| `Weirdness.RankMonotone` | extract_words.py:47-52 | raising `min_weirdness` never lengthens the result, and does not change whether scoring fails |
| `Weirdness.RankEmpty` | extract_words.py:47-52 | a threshold above every score, or `top_n = 0`, gives the empty list |
| `Weirdness.ExtractImportantWords` | extract_words.py:7-52 | loading plus ranking fails exactly when the table is non-empty and the specialist total, the valid-row total of the general file, or some word's general value is zero |
| `Weirdness.TextTableTotal` | extract_words.py:40 | a table counted from text has a positive `ts` whenever it has an entry |
| `Weirdness.TwoWordScenario` | extract_words.py:40-52 | S = {a: 3, b: 1} against G = {a: 100, b: 100} with threshold 1 gives exactly [(a, 1.5)] |
| `Weirdness.FallbackScenario` | extract_words.py:45-46 | a word missing from the general table is scored against exactly 1.0: S = {c: 2} with `tg = 200` gives 200 |

## Left out

- The process pool, `as_completed`, and the progress and print output
  (google_unigrams.py:63-108) are concurrency and driver glue. The model
  keeps only what the merge depends on. The completed partition tables may
  be any permutation of the successful ones (`Unigrams.ReferenceTable`). A
  partition whose fetch raised is dropped (lines 93-94).
- `readline_google_store` is a foreign network library. Its output is the
  `seq<Record>` parameter of `Unigrams.ProcessLetter`.
- `write_to_csv`, `open` and `csv.reader` are file I/O with CSV quoting.
  Because the writer is not modelled, the load-after-save round trip is
  not stated. The model never depends on the row order of the written file.
- Unigrams.RelativeFreq: it does not model `round(..., 2)` or IEEE float
  division. The relative frequency is the exact real `freq / count`.
- Unigrams.Aggregate: for the same reason, each mean it states is the exact,
  unrounded quotient of the summed freq over the summed count.
- Weirdness.Weirdness: scores are exact reals rather than IEEE doubles, so
  rounding, overflow, `inf` and `nan` are not modelled.
- `float(...)` parsing is a function parameter. Python's parser also accepts
  `"nan"` and `"inf"`, which a `real` cannot represent.
- `str.lower` and the Unicode `\w` and `\b` classes are restricted to ASCII.
  `Text.LowerChar` folds only `A`-`Z`. `Text.IsWordChar` accepts only ASCII
  letters, digits and `_`. Non-ASCII letters are separators in this model.
- A negative `top_n` is excluded by `requires topN >= 0`. Python's
  `[:top_n]` with a negative bound drops elements from the end instead.
- In `merge_dicts`, `merged[k] = v` shares the inner dict, so later `+=`
  updates also change the caller's input tables. The merge is modelled
  functionally, and nothing is claimed about the inputs afterwards.
- Unigrams.MergeDicts: assumes no inner dict object occurs at two positions
  of the list. With such aliasing the source's sums differ: for
  d1 = {w: freq 1, count 1} and d2 = {w: freq 5, count 1},
  `merge_dicts([d1, d2, d1])` gives freq 12 and count 4, not 7 and 3; and
  `[d, d, d]` with d = {w: freq 1, count 1} gives 4 and 4, not 3 and 3. The
  driver never passes such a list, because each completed partition result
  is a fresh dict.
- The parameter defaults `top_n = 50` and `min_weirdness = 1.0`
  (extract_words.py:10-11) are not modelled. `Weirdness.Rank` and
  `Weirdness.ExtractImportantWords` take both as explicit arguments.
- Python's true division of two `int`s raises OverflowError when the
  quotient is too large for a float (google_unigrams.py:34 and
  extract_words.py:46). With exact reals that error cannot happen, so it
  is not modelled.
- Python integers are unbounded, as are Dafny's `int`, so match counts and
  sums are not truncated.
