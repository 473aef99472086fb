# Career recommender: the list logic around the neighbour search

This project models, in Dafny, the part of the career recommendation desktop app that
is not a library call. The app reads a survey table. Each row has a respondent's
interests, skills and first job title (the "career label"). It recommends job titles
for a free-text query by finding the nearest survey rows. The modelled logic is:

- **Corpus preparation** (`Corpus`). Check that the three required columns exist, or
  raise `KeyError`. Read missing cells as `""`. Build `combined_text = interests + " " + skills`.
  Drop rows whose career label repeats an earlier row's label, keeping the first.
- **Query guard** (`Recommend.RecommendCareers`). A query that is blank after
  `strip()` answers `[]` at once, whatever the neighbour index would say.
- **Recommendation assembly** (`Recommend.Assemble`). Map the neighbour rows to their
  labels. Drop labels that are blank after `strip()` or whose `upper()` is exactly `"NA"`.
  Then de-duplicate in first-seen (closest-first) order, as `list(dict.fromkeys(...))` does.
- **Input composition** (`Interface`). The button handler joins the picked interest
  and skill with a space and strips the result. It refuses a blank selection and
  otherwise shows the answer, or a notice when the answer is empty.

The embedding pipeline (TF-IDF, truncated SVD, standard scaling, cosine k-nearest
neighbours) is a parameter `nn: string -> seq<nat>`. `Recommend.IsNeighbourIndex`
constrains it: it returns at most 5 rows, each a valid corpus position.

Supporting modules:

- `Text` holds `str.strip()`, written as Python scans it: forward over leading
  whitespace, then backward over trailing whitespace. Whitespace is the code-point
  set of `str.isspace`. `Text` also holds `upper()` over ASCII.
- `Dedup` holds the order-preserving de-duplication that both `drop_duplicates`
  and `dict.fromkeys` perform. `FirstOccurrences` gives the positions kept.
  `FromKeys` gives the elements. `DictFromKeys` is the one-pass hash-set loop.
- `Scenarios` holds worked examples.

Three behaviours of `main.py` worth stating outright:

- The `KeyError` raised for a missing column (main.py:22-23) carries the fixed text
  "Missing required columns in the dataset" and names no column.
- The sentinel test (main.py:47) is not trimmed, so `" NA"` is recommended.
- With fewer than 5 corpus rows, `nn_model.kneighbors` (main.py:45) raises. That case
  belongs to the nearest-neighbour library (see "Left out").

## Model

| member | source | states |
|---|---|---|
| Corpus.Prepare | main.py:21-27 | Preparation fails with the fixed KeyError message exactly when a required column is absent. Otherwise: the career labels are pairwise distinct; records keep increasing original row order; each record comes from the first row carrying its label; its career, interests and skills are that row's cells with missing read as ""; its combined text is interests + " " + skills; and every label of the table is still present |
| Corpus.DropDuplicateCareers | main.py:27 | The kept labels are distinct and in order of first appearance. Every input label is still present. Each kept record is the first record carrying its label |
| Corpus.FillNa | main.py:25 | `fillna("")`: a missing cell reads as the empty string, and a present cell reads as its own text |
| Corpus.MakeRecord | main.py:25-26 | A row's record keeps its row position and career cell. Its combined text is the interests, one space, then the skills, so both fields can be read back from it at fixed positions |
| Corpus.FilledRecords | main.py:25-26 | Filling and combining keeps one record per table row, in table order, with row positions 0, 1, 2, … and the table's career labels. Each record's interests and skills are that row's cells with missing read as "". Its combined text is interests + " " + skills |
| Dedup.FirstOccurrences | main.py:27 | The kept positions are increasing. Each holds the first occurrence of its key. Every first occurrence is kept. There are at most as many as there are rows |
| Dedup.FromKeys | main.py:47 | list(dict.fromkeys(s)) has no repeats and contains every element of s. Its elements are ordered by their first position in s. It is no longer than s |
| Dedup.DictFromKeys | main.py:47 | The one-pass insert-if-unseen loop over a set of seen keys computes exactly FromKeys |
| Dedup.OrderedByUnique | main.py:47 | Two repeat-free lists with the same elements, both in first-occurrence order of s, are equal |
| Dedup.FromKeysCharacterised | main.py:47 | Any repeat-free list of the elements of s in first-occurrence order is FromKeys(s), so the contract of FromKeys fixes its result |
| Dedup.FromKeysOfDistinct | main.py:47 | A list without repeats is returned unchanged by dict.fromkeys |
| Dedup.FromKeysIdempotent | main.py:47 | De-duplicating twice equals de-duplicating once |
| Dedup.FilterAppend | main.py:47 | A list comprehension `[x for x in s if p(x)]` over a concatenation is the concatenation of the comprehensions over the parts |
| Text.Strip | main.py:40 | strip() returns the infix after the leading whitespace. Everything cut off on either side is whitespace. The result neither starts nor ends with whitespace. It is empty exactly when the input is blank |
| Text.StripUnique | main.py:40 | strip() is determined by its contract: an infix with only whitespace around it, neither starting nor ending with whitespace, is the strip |
| Text.StripBlankPrefix | main.py:140 | Whitespace put in front of a string does not change what strip() returns |
| Text.StripBlankSuffix | main.py:140 | Whitespace put after a string does not change what strip() returns |
| Text.StripIdempotent | main.py:140 | Stripping an already stripped query changes nothing, so the GUI's strip and the recommender's strip agree |
| Text.BlankJoin | main.py:140 | interest + " " + skill is blank exactly when both parts are blank |
| Text.SentinelSpellings | main.py:47 | upper() equals "NA" exactly for "NA", "Na", "nA" and "na". Any extra character, whitespace included, defeats the test |
| Text.Upper | main.py:47 | `upper()` keeps the length of the label |
| Text.UpperCharacterised | main.py:47 | `upper()` turns each lower-case ASCII letter into the capital at the same place in the alphabet. No lower-case ASCII letter is left, every other character is unchanged, and upper-casing twice is upper-casing once |
| Recommend.KeepLabels | main.py:47 | The list comprehension keeps exactly the labels that are not blank and whose upper() is not "NA". It never grows the list |
| Recommend.KeepCharacterised | main.py:47 | The comprehension's condition `career.strip() and career.upper() != "NA"` holds exactly for labels that are not blank and are not one of "NA", "Na", "nA", "na" |
| Recommend.KeepLabelsCounts | main.py:47 | The filter keeps every occurrence of a passing label and drops every occurrence of a failing one: it neither merges repeats nor loses one |
| Recommend.KeepLabelsAppend | main.py:47 | Filtering a concatenation is concatenating the filtered parts, so the kept labels are a subsequence of the input in input order |
| Recommend.KeepLabelsOrder | main.py:47 | Filtering preserves the relative order of the first occurrences of the kept labels |
| Recommend.Assemble | main.py:46-47 | The assembled list has no repeats and is no longer than the neighbour labels. It holds exactly the neighbour labels that pass the filter, each at its first (closest) occurrence, in neighbour order |
| Recommend.AssembleCharacterised | main.py:47 | Any repeat-free list of the passing labels in first-occurrence order is the assembled list |
| Recommend.AssembleIdempotent | main.py:47 | Filtering and de-duplicating the recommendations again returns them unchanged |
| Recommend.KeepLabelsOfKept | main.py:47 | A list whose labels all pass the filter is left unchanged by it |
| Recommend.KeepLabelsDistinct | main.py:47 | Filtering a list without repeats leaves a list without repeats |
| Recommend.AssembleOfDistinct | main.py:47 | When the neighbour labels have no repeats, de-duplication does nothing and the answer is the filtered labels |
| Recommend.NeighbourLabelsDistinct | main.py:46 | On a corpus with distinct labels, distinct neighbour rows give distinct labels |
| Recommend.NeighbourLabels | main.py:46 | `df.iloc[indices[0]][career_column].values`: one label per neighbour row, in neighbour order, and the k-th label is the career of the k-th returned row |
| Recommend.RecommendCareers | main.py:39-48 | A query that is blank after strip() answers [] for every neighbour index. Otherwise the answer has at most 5 distinct labels, none blank and none whose upper() is "NA". They are exactly the passing labels of the query's neighbours, closest first |
| Recommend.RecommendOnPreparedCorpus | main.py:45-47 | On a prepared corpus with repeat-free neighbour rows, the answer is the filtered neighbour labels in neighbour order |
| Interface.ComposeInput | main.py:140 | The composed query is the infix of interest + " " + skill left once the whitespace at both ends is cut, and only whitespace is cut. It is empty exactly when both selections are blank. Otherwise it neither starts nor ends with whitespace |
| Interface.ComposeStripped | main.py:140 | Two non-empty selections without surrounding whitespace compose to interest + " " + skill |
| Interface.ComposeBlankInterest | main.py:140 | A blank interest composes to the stripped skill alone |
| Interface.ComposeBlankSkill | main.py:140 | A blank skill composes to the stripped interest alone |
| Interface.ComposedQueryPassesGuard | main.py:140-147 | A non-empty composed query is not blank and is its own strip, so the recommender's guard never fires on it |
| Interface.GetRecommendation | main.py:139-156 | Both selections blank gives the selection error message. Otherwise, no passing neighbour label gives the no-results notice. Otherwise the screen shows 1 to 5 distinct passing labels in neighbour order |
| Scenarios.AssembleExample | main.py:47 | ["na", "", " NA", "Data Analyst", " NA"] assembles to [" NA", "Data Analyst"] |
| Scenarios.FilterExample | main.py:47 | The filter drops "na" and "" and keeps " NA", "Data Analyst", " NA" |
| Scenarios.DedupExample | main.py:47 | dict.fromkeys keeps the first of two " NA" labels |
| Scenarios.ComposeExample | main.py:140 | Selecting "Data" and "Python" gives the query "Data Python" |
| Scenarios.PrepareExample | main.py:27 | A table labelled Engineer, Engineer, Designer keeps rows 0 and 2 |
| Scenarios.KeptRowsExample | main.py:27 | For the labels Engineer, Engineer, Designer, the contract of Corpus.Prepare alone already forces the kept rows to be 0 and 2 |
| Scenarios.FirstOccurrencesExample | main.py:27 | The first occurrences in Engineer, Engineer, Designer are positions 0 and 2 |

## Left out

- TF-IDF vectorisation, truncated SVD, standard scaling and cosine nearest neighbours
  (main.py:29-37, 42-45): foreign floating-point library calls. They appear only as the
  neighbour-index parameter `nn`.
- Recommend.IsNeighbourIndex: says nothing about distances or the order of the
  returned rows. It does not model the library's refusal of a corpus with fewer than
  5 rows. These belong to the library.
- CSV loading from a fixed file path, and stripping of column names (main.py:13-15):
  file I/O. The model's `Table` has already-trimmed column names. `pd.read_csv`
  (main.py:14) turns literal cells such as "NA", "N/A", "null" and "nan" into missing
  values, so after `fillna("")` a literal "NA" label arrives as "" and is merged with
  the empty labels by `drop_duplicates`. Only "Na", "nA" and "na" reach the `upper()`
  test. The model's `Table` also accepts `Present("NA")`, which the loader never produces.
- Corpus.Prepare: cells are text or missing. The model does not cover numeric cells
  that pandas could parse, where `+ " "` or `strip()` would fail at run time.
- Text.Upper: ASCII only. Python's `str.upper()` maps all of Unicode. For the
  sentinel test this matters only for a non-ASCII character whose upper case is
  `N` or `A`.
- All tkinter code (main.py:50-137, 158-183): themes, tooltips, hover handlers, theme
  toggle, widgets, combobox value lists, main loop. It is presentation.
- Interface.GetRecommendation: does not model the loading label, `update_idletasks`,
  the half-second sleep, or the numbered text layout of the result box
  (main.py:144-156). It models only which of the three outcomes is shown and the list.
- `animate_label`'s blinking thread (main.py:95-104): concurrency and timing
  cosmetics.
