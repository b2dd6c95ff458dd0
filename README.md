# Opinion search over customer reviews — a Dafny model

This project models the core of a small opinion search engine for product
reviews. There are three parts:

- **The index builder.** It reads the review rows, splits each text into
  lower-case word tokens and builds an inverted index from each term to the
  ascending list of the review IDs that contain it. Beside it sits a metadata
  store mapping each review ID to its rating and raw text. The builder then
  checks that both speak of the same IDs.
- **The boolean search.** It answers a three-term query (two aspect terms and
  one opinion term) with one of three combinators over case-insensitive
  substring matches:
  - `method1`: the OR of all three terms;
  - `method2`: the AND of all three terms;
  - `method3`: (aspect1 OR aspect2) AND opinion.

  The method name picks the combinator without regard to case, and the result
  is stored under a file name built from the query.
- **The sentiment classifier side.** This covers the labelling rule for
  training pairs, text preprocessing (tokens without stop words), the
  preprocessing pass over the metadata store, and the filter that keeps the
  search results whose predicted sentiment matches the requested polarity.

The modules follow the source files:

| module | file | models |
|---|---|---|
| `Tokenizer` | `tokenizer.dfy` | the shared `\b\w+\b` tokenizer over lower-cased text, the `" ".join` of tokens, substring occurrence |
| `Sequences` | `sequences.dfy` | Python string order, `sorted` on ID sets and term sets (as insertion loops), subsequences |
| `Reviews` | `reviews.dfy` | a review row, a metadata entry, and the metadata dict as a class (insertion-ordered keys plus a map) |
| `PostingsListGenerator` | `postings_list_generator.dfy` | `create_postings_list`, `create_review_metadata`, the ID consistency check |
| `BooleanSearch` | `boolean_search_help.dfy` | `method1`–`method3`, the method-name dispatch and the output file name |
| `Classifier` | `classifier.dfy` | `prepare_labeled_data`, `preprocess_text`, `preprocess_metadata`, `filter_results_with_classifier` |

How the code's state is represented:

- **Review rows.** A row is `Row(index, text, rating)`. A missing
  `review_text` or `customer_review_rating` is `None`.
- **The postings build.** The `defaultdict(set)` being filled is a
  `map<string, set<int>>`. `CreatePostingsList` builds it with two nested
  loops, proved against the left fold `Build`. `Freeze` then sorts it into
  the returned dict: the key order plus a map to ascending lists.
- **The metadata dict.** It is the class `Reviews.ReviewMetadata`. Its
  methods update the dict in place. Iteration order is the order in which the
  keys were first inserted.
- **The classifier.** The TF-IDF vectorizer and the Naive Bayes model
  together are one predictor `predict: string -> int`, applied to each
  preprocessed text. The English stop-word list is a parameter set `stop`.

The code evaluates the boolean combinators by scanning the review texts for
substrings. The lemma `BooleanSearch.PostingsWithinHomogeneousSearch` relates
that search to the index built from the same reviews: every ID the index
lists under a word is found by the substring search, so the postings list is
never longer than the search result.

## Model

| member | source | states |
|---|---|---|
| Tokenizer.Lower | postings_list_generator.py:14 | `text.lower()` on ASCII: same length, each letter A–Z mapped to a–z, every other character kept |
| Tokenizer.RunLength | postings_list_generator.py:14 | the length of the longest word-character prefix: every character before it is a word character and the next one is not |
| Tokenizer.Tokenize | postings_list_generator.py:14 | every token is a non-empty run of word characters; tokens of a lower-case text are lower case (which strings are tokens in `TokenizeRuns`, the list with order and repeats in `TokenizeSplit`) |
| Tokenizer.Tokens | postings_list_generator.py:14 | every token of `re.findall(r'\b\w+\b', text.lower())` is a non-empty lower-case word (which strings in `TokensRuns`, the list in `TokensSplit`) |
| Tokenizer.IsRunAt | postings_list_generator.py:14 | definition: `t` is a word occurring at `i` with a non-word character (or the text's end) on either side, the match `\b\w+\b` makes; properties in `TokenizeRuns` |
| Tokenizer.TokenizeRuns | postings_list_generator.py:14 | `t` is a token of `s` iff `t` is a maximal run of word characters somewhere in `s`: a word occurring at some `i` bounded by the text's ends or non-word characters |
| Tokenizer.TokensRuns | postings_list_generator.py:14 | `t` is among `re.findall(r'\b\w+\b', text.lower())` iff it is a maximal word run of the lower-cased text |
| Tokenizer.TokenizeSplit | postings_list_generator.py:14 | a non-word character separates matches: the tokens of `a + [c] + b` are those of `a` followed by those of `b`, in order and with repeats; with `TokenizeJoin` on one word (a word is its own single token) this fixes the token list of every string |
| Tokenizer.TokensSplit | classifier.py:37 | the same split for `re.findall(r'\b\w+\b', text.lower())`: the match list of a text is the match lists of its parts on either side of a non-word character, concatenated |
| Tokenizer.Join | classifier.py:39 | definition of `" ".join(tokens)`; properties in `TokenizeJoin` and `JoinIsLower` |
| Tokenizer.LowerIsLower | postings_list_generator.py:14 | lower-casing yields a lower-case string |
| Tokenizer.LowerOfLowerString | postings_list_generator.py:14 | lower-casing a lower-case string changes nothing |
| Tokenizer.JoinIsLower | classifier.py:39 | joining lower-case tokens with spaces yields a lower-case string |
| Tokenizer.TokenizeJoin | classifier.py:37-39 | round trip: tokenizing the space-join of word tokens gives back exactly those tokens |
| Tokenizer.TokenOccurs | boolean_search_help.py:9-11 | every token of a text occurs in it as a substring |
| Sequences.StrLt | postings_list_generator.py:21 | definition of Python's `<` on `str`, which `sorted` uses on the terms; properties in `StrLtTotal`, `StrLtIrreflexive` and `StrLtTransitive` |
| Sequences.StrLtTotal | postings_list_generator.py:21 | Python's string order is total on distinct strings (with irreflexivity and transitivity in `StrLtIrreflexive`, `StrLtTransitive`) |
| Sequences.InsertId | postings_list_generator.py:21 | inserting into a strictly ascending ID list keeps it strictly ascending, with exactly the old elements plus the new one |
| Sequences.InsertTerm | postings_list_generator.py:21 | the same for term lists under Python string order |
| Sequences.SortIds | postings_list_generator.py:21 | `sorted(list(ids))`: strictly ascending, with exactly the elements of the set |
| Sequences.SortTerms | postings_list_generator.py:21 | `sorted` on the dict's keys: strictly ascending, with exactly the keys |
| Sequences.SubsequenceAscending | boolean_search_help.py:12 | a subsequence of a strictly ascending list is strictly ascending |
| Sequences.AscendingWithin | postings_list_generator.py:21 | a strictly ascending list (a `sorted(list(ids))` of a set) whose elements all occur in another list is no longer than it |
| Reviews.ReviewMetadata.constructor | postings_list_generator.py:28 | the new dict is empty and consistent |
| Reviews.ReviewMetadata.Put | postings_list_generator.py:31-34 | `metadata[index] = entry`: the key is appended only if it is new, the entry replaced or added, the keys stay distinct and match the map |
| PostingsListGenerator.TextOf | postings_list_generator.py:11 | definition of a row's `review_text`, read only where every row has one; properties in `BuildSpec` and `CreatePostingsList` |
| PostingsListGenerator.Add | postings_list_generator.py:18 | definition of `postings_list[word].add(index)` on the `defaultdict(set)`; properties in `AddTokensSpec` |
| PostingsListGenerator.AddTokens | postings_list_generator.py:17-18 | definition of the inner loop over a row's words as a left fold of `Add`; properties in `AddTokensSpec` |
| PostingsListGenerator.Build | postings_list_generator.py:10-18 | definition of the outer loop over the rows as a left fold of `AddTokens`; properties in `BuildSpec` and `CreatePostingsList` |
| PostingsListGenerator.AddTokensSpec | postings_list_generator.py:17-18 | after adding a row's tokens, `id` is under `w` iff it was before or `w` is one of the tokens and `id` is the row's index |
| PostingsListGenerator.AddTokensWellFormed | postings_list_generator.py:14-18 | adding word tokens keeps every key a lower-case word with a non-empty set |
| PostingsListGenerator.AddTokensTwice | postings_list_generator.py:17-18 | adding the same row's tokens twice leaves the index as after once |
| PostingsListGenerator.RepeatedWord | postings_list_generator.py:17-18 | a word repeated within one review adds nothing the second time |
| PostingsListGenerator.BuildSpec | postings_list_generator.py:10-18 | after the loop over all rows, `id` is under `w` iff some row with index `id` has `w` among its tokens, and every key is a lower-case word |
| PostingsListGenerator.SameRowTwice | postings_list_generator.py:10-18 | processing the same row twice in a row gives the same index as once |
| PostingsListGenerator.Freeze | postings_list_generator.py:21 | the frozen dict has the same keys, in ascending string order, each with the strictly ascending list of exactly its set |
| PostingsListGenerator.CreatePostingsList | postings_list_generator.py:6-22 | `None` iff some row lacks `review_text`; otherwise: keys ascending, each a lower-case word with a non-empty strictly ascending list, and `id` under `w` iff `w` is a token of review `id` |
| PostingsListGenerator.EntryOf | postings_list_generator.py:31-34 | definition of the entry stored for a row: its rating and its text, `""` when missing; properties in `MetadataSpec` |
| PostingsListGenerator.MetadataKeys | postings_list_generator.py:30-31 | definition of the dict's key order, new indices appended; properties in `MetadataKeysSpec` and `MetadataKeysInRowOrder` |
| PostingsListGenerator.MetadataEntries | postings_list_generator.py:30-34 | definition of the dict's contents, the later row overwriting; properties in `MetadataEntriesSpec` |
| PostingsListGenerator.MetadataKeysSpec | postings_list_generator.py:30-31 | the keys are distinct and are exactly the row indices |
| PostingsListGenerator.MetadataEntriesSpec | postings_list_generator.py:30-34 | the entries are defined exactly at the row indices, and the entry of an index is `EntryOf` its last row |
| PostingsListGenerator.MetadataSpec | postings_list_generator.py:28-36 | the keys are distinct and are exactly the row indices; the entry of an index is that of its last row: the row's rating and its text, `""` when missing |
| PostingsListGenerator.MetadataKeysInRowOrder | postings_list_generator.py:30-31 | with distinct row indices the dict's keys are the row indices in row order |
| PostingsListGenerator.CreateReviewMetadata | postings_list_generator.py:24-36 | the filled dict is consistent and its keys and entries are those of `MetadataSpec` |
| PostingsListGenerator.PostingIds | postings_list_generator.py:76 | definition of the union of all postings lists; properties in `PostingIdsMember`, `PostingIdsHaveTokens` and `PostingIdsWithinMetadata` |
| PostingsListGenerator.IdsConsistent | postings_list_generator.py:76-78 | definition of the asserted equality of the posting IDs and the metadata keys; properties in `ConsistencyIff` and `ConsistencyIffEveryTextHasToken` |
| PostingsListGenerator.PostingIdsMember | postings_list_generator.py:76 | an ID is in the union of all postings lists iff some term lists it |
| PostingsListGenerator.PostingIdsHaveTokens | postings_list_generator.py:76 | an ID is in the union of the postings iff some row with that index has at least one token |
| PostingsListGenerator.PostingIdsWithinMetadata | postings_list_generator.py:76-78 | the postings IDs are always a subset of the metadata keys |
| PostingsListGenerator.ConsistencyIff | postings_list_generator.py:76-78 | the assertion holds iff every metadata ID has a row with at least one token |
| PostingsListGenerator.EveryIdHasTokensIff | postings_list_generator.py:76-78 | with distinct row indices, every index has a row with a token iff every row's text has a token |
| PostingsListGenerator.ConsistencyIffEveryTextHasToken | postings_list_generator.py:76-78 | with distinct row indices, the assertion holds iff every review text contains at least one word token |
| BooleanSearch.ContainsTerm | boolean_search_help.py:9-31 | definition of `str.contains(term, case=False)` as literal containment of the lower-cased term in the lower-cased text; properties in `TokenIsContained` and `Method1` |
| BooleanSearch.Matches | boolean_search_help.py:9-31 | definition of the three mask expressions; properties in `Select`, `SelectMonotone` and `StrictWithinMixedWithinBroad` |
| BooleanSearch.Select | boolean_search_help.py:8-12 | `df[mask].index.tolist()`: `x` is in the result iff some row with index `x` passes the mask; the result keeps the frame's order (one entry per matching row: `SelectAppend`, `SelectRow`) |
| BooleanSearch.Method1 | boolean_search_help.py:4-12 | `x` is in the result iff a row with index `x` contains aspect1, aspect2 or the opinion, ignoring case; frame order kept (one entry per matching row: `MethodsAppend`, `MethodsOnRow`) |
| BooleanSearch.Method2 | boolean_search_help.py:14-22 | `x` is in the result iff a row with index `x` contains aspect1, aspect2 and the opinion, ignoring case; frame order kept, one entry per matching row (`MethodsAppend`, `MethodsOnRow`) |
| BooleanSearch.Method3 | boolean_search_help.py:24-32 | `x` is in the result iff a row with index `x` contains aspect1 or aspect2, and the opinion, ignoring case; frame order kept, one entry per matching row (`MethodsAppend`, `MethodsOnRow`) |
| BooleanSearch.SelectAppend | boolean_search_help.py:8-12 | the selection over two frames one after the other is the selection over the first followed by that over the second, so a repeated index is listed once per matching row |
| BooleanSearch.SelectRow | boolean_search_help.py:8-12 | a single row yields its index once when the mask selects it and nothing otherwise |
| BooleanSearch.MethodsAppend | boolean_search_help.py:4-32 | each of `method1`–`method3` over two frames is its result over the first followed by its result over the second |
| BooleanSearch.MethodsOnRow | boolean_search_help.py:4-32 | on one row, `method1` lists the index iff the text contains one of the terms, `method2` iff it contains all three, `method3` iff it contains an aspect and the opinion, ignoring case; otherwise nothing |
| BooleanSearch.SelectMonotone | boolean_search_help.py:8-32 | a mask implied by another selects a subsequence of the other's result |
| BooleanSearch.SelectAgree | boolean_search_help.py:8-32 | masks that agree on every text select the same list |
| BooleanSearch.StrictWithinMixedWithinBroad | boolean_search_help.py:9-31 | `method2` result ⊑ `method3` result ⊑ `method1` result, as subsequences |
| BooleanSearch.TermOrderIrrelevant | boolean_search_help.py:9-31 | `method1` and `method2` do not depend on the order of the three terms, `method3` not on the order of the aspects |
| BooleanSearch.HomogeneousQueryCoincides | boolean_search_help.py:9-31 | with one term in all three places the three methods give the same list |
| BooleanSearch.ResultsAscending | boolean_search_help.py:8-12 | over a frame with strictly ascending index every result is strictly ascending |
| BooleanSearch.TokenIsContained | boolean_search_help.py:9 | a token of a text is contained in it, ignoring case |
| BooleanSearch.TokenHitsWithinHomogeneousSearch | boolean_search_help.py:9-11 | every row with `t` among its tokens is in `method1(t, t, t)` |
| BooleanSearch.PostingsWithinHomogeneousSearch | boolean_search_help.py:9-11 | every ID the index (built from the same rows) lists under `t` is in `method1(t, t, t)`, and the postings list of `t` is no longer than that result |
| BooleanSearch.Dispatch | boolean_search_help.py:50-58 | definition of the method-name dispatch on the lower-cased name; properties in `RunQuery` and `RunQueryIgnoresCase` |
| BooleanSearch.OutputFilename | boolean_search_help.py:62 | definition of the output file name; properties in `RunQuery` and `FilenameCollision` |
| BooleanSearch.Search | boolean_search_help.py:50-55 | definition of the call of the selected method; properties in `RunQuery` and `RunQueryIgnoresCase` |
| BooleanSearch.RunQuery | boolean_search_help.py:50-62 | no output iff the lower-cased method name is none of `method1`–`method3`; otherwise the chosen method's result under the name `a1_a2_o_method.pkl` |
| BooleanSearch.RunQueryIgnoresCase | boolean_search_help.py:50-55 | any spelling of a method name dispatches and answers as its lower-case form |
| BooleanSearch.FilenameCollision | boolean_search_help.py:62 | two different queries can name the same output file |
| Classifier.TextOrEmpty | classifier.py:21 | definition of `.get('text', "")`; properties in `LabeledDataSpec` |
| Classifier.Label | classifier.py:23-26 | definition of the label of a rating, 1 above 3 and 0 otherwise; properties in `LabeledDataSpec` |
| Classifier.LabeledData | classifier.py:18-27 | definition of the labelled pairs in key order; properties in `LabeledDataSpec` and `PrepareLabeledData` |
| Classifier.LabeledDataSpec | classifier.py:18-27 | one pair per rated entry in key order, unrated entries skipped; a pair holds the entry's text (`""` if none) and label 1 iff the rating is above 3, 0 iff it is at most 3 |
| Classifier.PrepareLabeledData | classifier.py:10-27 | the loop returns the labelled data of `LabeledDataSpec` |
| Classifier.RemoveStopWords | classifier.py:38 | no kept token is a stop word, each kept token is one of the input tokens, and the kept tokens keep their input order (a subsequence) |
| Classifier.RemoveStopWordsCounts | classifier.py:38 | nothing but stop words is dropped: each non-stop word is kept as many times as it occurs, each stop word never |
| Classifier.PreprocessText | classifier.py:37-39 | definition of `preprocess_text`; properties in `PreprocessTextTokens` and `PreprocessTextIdempotent` |
| Classifier.PreprocessTextTokens | classifier.py:37-39 | the tokens of the preprocessed text are exactly the text's non-stop-word tokens, in order, and the result is lower case |
| Classifier.RemoveStopWordsNone | classifier.py:38 | a token list without stop words is kept as it is |
| Classifier.PreprocessTextIdempotent | classifier.py:37-39 | preprocessing twice is preprocessing once |
| Classifier.FirstMissingText | classifier.py:49-50 | the position of the first entry without a text (where `data["text"]` fails), or the number of keys |
| Classifier.Preprocessor | classifier.py:50 | definition of `preprocess_text` with the stop words fixed, the function the pass applies; properties in `PreprocessAll` |
| Classifier.Preprocessed | classifier.py:50 | definition of the assignment of `preprocessed_text` to one entry; properties in `PreprocessedUpToSpec` and `PreprocessAll` |
| Classifier.PreprocessedUpTo | classifier.py:49-50 | the pass over the first `n` keys, for any per-text function, neither adds nor removes IDs |
| Classifier.PreprocessedUpToKeepsLater | classifier.py:49-50 | after `n` keys the entries of the later keys are untouched |
| Classifier.PreprocessStep | classifier.py:49-50 | the next key still holds its original entry; without a text the pass stops at it, otherwise one more step updates exactly that key |
| Classifier.PassOutcome | classifier.py:49-51 | definition of the outcome of the pass: success iff no entry lacks a text, the entries processed up to the first failure; properties in `PreprocessedUpToSpec` and `PreprocessAll` |
| Classifier.PreprocessedUpToSpec | classifier.py:49-51 | after `n` keys, each processed entry gains its preprocessed text and the later entries are untouched |
| Classifier.PreprocessAll | classifier.py:49-51 | when every entry has a text, the pass keeps the IDs, ratings and texts and sets `preprocessed_text = preprocess_text(text)` on every entry |
| Classifier.PreprocessMetadata | classifier.py:41-51 | the in-place loop keeps the keys and meets `PassOutcome` with `preprocess_text`: it succeeds iff no entry lacks a text, and leaves the entries as `PreprocessedUpTo` up to the first failure |
| Classifier.TextPositions | classifier.py:95 | definition of the positions of `result_ids` whose entry has a `preprocessed_text`; properties in `ReviewTexts` |
| Classifier.ReviewTexts | classifier.py:95 | one text per result position with a preprocessed entry, so no more texts than result IDs; a string is a text iff some result ID's entry has it as its preprocessed text (positions in `ReviewTextsAt`) |
| Classifier.ReviewTextsAt | classifier.py:95 | the preprocessed text of `ids[j]` is the text at position `k`, the number of texts of the IDs before it, so the texts keep result order and multiplicity |
| Classifier.Wanted | classifier.py:101 | definition of the polarity test on a sentiment; properties in `ZipSelect`, `KeepAligned` and `PolarityPartition` |
| Classifier.Predictions | classifier.py:96-97 | one prediction per text, the `k`-th for the `k`-th text |
| Classifier.ZipSelect | classifier.py:99-102 | `x` is kept iff some position `k` within both lists has `x` paired with the wanted sentiment; a subsequence of the IDs, no longer than the sentiments |
| Classifier.FilterResultsWithClassifier | classifier.py:83-102 | as written: `None` iff some result ID has no entry; otherwise a subsequence of the result IDs, at most as long as the number of preprocessed texts, pairing the `k`-th ID with the `k`-th prediction |
| Classifier.FilterJudgesShifted | classifier.py:95-102 | as written, with `k` the number of texts of the IDs before `ids[j]` (so `k <= j`), the prediction for `ids[j]`'s text is the `k`-th and decides about `ids[k]`, which is kept when it is the wanted one |
| Classifier.AlignedFilter | classifier.py:95-102 | corrected: `None` iff some result ID has no entry; otherwise `x` is kept iff it is a result ID with a preprocessed text whose own prediction is the wanted one; result order kept |
| Classifier.KeepAligned | classifier.py:95-102 | the corrected selection: membership as in `AlignedFilter`, a subsequence of the result IDs |
| Classifier.FilterAlignedWhenAllPreprocessed | classifier.py:95-102 | when every result ID has a preprocessed text, the filter as written equals the corrected one |
| Classifier.KeepAlignedPartition | classifier.py:99-102 | with predictions in {0, 1} and every result ID preprocessed, the positive and negative corrected selections together are the result IDs, as multisets |
| Classifier.PolarityPartition | classifier.py:99-102 | with predictions in {0, 1} and every ID preprocessed, the positive and negative outputs are disjoint and together cover the result IDs, as multisets |
| Classifier.ZipSelectPrefix | classifier.py:100 | `zip` ignores the IDs past the last prediction |
| Classifier.ReviewTextsShorter | classifier.py:95 | one ID without a preprocessed text makes the text list shorter than the ID list |
| Classifier.FilterTruncatedWhenSomeMissing | classifier.py:95-100 | when some ID lacks a preprocessed text, the output comes only from the first `|texts|` IDs, fewer than all |
| Classifier.MisalignmentExample | classifier.py:95-100 | for IDs [7, 8], where 7 has no preprocessed text and 8's is positive, the filter as written keeps [7] and the corrected one keeps [8] |

## Left out

- The sklearn TF-IDF vectorizer and Naive Bayes model are one abstract predictor per text. This also leaves out training, the train/test split, the accuracy report, and what `predict` does on an empty batch.
- `ENGLISH_STOP_WORDS` is a parameter set.
- `str.contains` runs in regex mode by default. The terms are matched as literal substrings, so regex metacharacters in a query are not modelled.
- Unicode `\w` and Python's full case mapping are not modelled. Word characters are ASCII letters, digits and `_`; lower-casing maps A–Z only.
- A `review_text` that is present but not a string (a pandas NaN) is not modelled. A row's text is either a string or absent.
- The frame searched by `method1`–`method3` holds only (index, text) pairs. Other columns play no part there.
- `int(rating)` is not modelled: ratings are integers already.
- Pickle and pandas I/O, argparse, printing, `run_diagnostic`, `save_artifacts`, `load_artifacts` and every `main` are left out. What the mains compute is kept: the consistency check, the dispatch and the file name.
- The diagnostic and export scripts (`read_postings.py`, `_read_postings.py`, `bs_checker.py`, `_bs_checker.py`, `_pkl_to_excel.py`, `_review_text_by_id.py`) and the unfinished `customer.py` are not part of this model.
- The `+2` ID offset of `_review_text_by_id.py` is not reproduced: the row index is the one review ID throughout.
- Duplicate row indices follow Python dict semantics: the last row wins and the key keeps its first position. The postings lemmas hold for any rows; the consistency lemmas that mention row order assume distinct indices.
- PreprocessMetadata: the exception raised on an entry without `text` is modelled as the result `false`, with the entries before it already updated. The exception's propagation is not modelled.

## Findings

| source | as written | input that shows it | evidently intended | confidence | as-written member | corrected member |
|---|---|---|---|---|---|---|
| classifier.py:95-100 | predictions are made only for the result IDs that have a `preprocessed_text`, then zipped with all result IDs, so the `k`-th prediction judges the `k`-th ID | result IDs [7, 8]; 7 has no `preprocessed_text`, 8's text is predicted positive; positive polarity keeps [7], not [8] | each ID is judged by the prediction for its own text, and IDs without a text are dropped | not executed | Classifier.FilterResultsWithClassifier (with Classifier.FilterJudgesShifted, Classifier.MisalignmentExample, Classifier.FilterTruncatedWhenSomeMissing) | Classifier.AlignedFilter (with Classifier.FilterAlignedWhenAllPreprocessed, Classifier.PolarityPartition) |
