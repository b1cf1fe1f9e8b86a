# SearchEngine in Dafny

A Dafny model of `SearchEngine`, a small in-memory TF-IDF line search engine
(search/search.h, search/search.cpp). The engine splits a text into rows at
`'\n'`, counts the words of every row case-insensitively, and answers a query
with the texts of the rows ranked by TF-IDF relevance.

The project has five modules:

- `Text` (text.dfy): ASCII letters and case folding, and the comparator
  `CmpInsensitively`. The comparator is proved to be lexicographic order on
  the case-folded words when both words are made of letters. Two words are
  therefore equivalent keys exactly when they fold to the same string, which
  is why every word map of the model is keyed by the folded word.
- `Sums` (sums.dfy): the sum of the values of a finite map. It is independent
  of iteration order, and this stands in for the `std::map` iteration order of
  `FillTopRelevant`.
- `Indexer` (indexer.dfy): the reference definitions of the indexing side.
  - `SplitRows` gives the rows of a text; `Words` gives the maximal letter runs
    of a string.
  - `AddWords` gives the counts of a word sequence, and `InfoOf` the
    `(word map, total)` pair of a row.
  - `IndexOf` gives the whole `row_id_to_row_info_` map.
  - The lemmas characterise all of these completely.
- `Scoring` (scoring.dfy): the reference definitions of the query side.
  - `DocumentFrequency` counts the rows that have a word; `QueryMap` is the
    query's word map.
  - `Relevance` is the TF-IDF relevance of a row: a sum over the query map,
    with the natural logarithm as a parameter `ln`.
  - `Candidates` holds the rows with nonzero relevance; `CompareDouble` and
    `SortByRelevance` order them.
  - `Ranking` is the ranking that `Search` reads its answer from.
- `Engine` (engine.dfy): the class `SearchEngine`.
  - Its fields are `rows` (`rows_`) and `rowInfo` (`row_id_to_row_info_`).
  - It has one method for each member function of the C++ class, with the same
    loops, cursors and branches. Maps and counters that the source passes by
    reference are passed by value and returned, and the sort is a function
    call.
  - Each method is proved against the reference definitions.

Where the code and the design description differ, the model follows the code:

- A newline-terminated line is kept only when it has at least two characters.
  The unterminated text after the last newline is kept as soon as it has one
  character (search/search.cpp:44 and :51).
- `rows_` is never cleared, so calling `BuildIndex` again appends the new rows
  to the old ones and rebuilds the index over all of them.

## Model

| member | source | states |
|---|---|---|
| Text.CmpInsensitively | search/search.cpp:5-35 | on two words made of letters, the comparator returns true exactly when the case-folded left word is lexicographically before the case-folded right word, with a proper prefix first |
| Text.InsensitiveLessIsStrictWeakOrder | search/search.h:10-14 | the order the word maps are keyed by is irreflexive and transitive, and two words are equivalent keys exactly when they are equal up to ASCII case |
| Engine.SearchEngine.FillRows | search/search.cpp:37-54 | the rows appended are exactly `SplitRows(text)`, after the rows already there |
| Indexer.RowsOfConcat | search/search.cpp:37-54 | splitting is compositional: the rows of p + q, where p ends in a newline, are the rows of p followed by those of q, so rows appear in text order |
| Indexer.RowsOfLine | search/search.cpp:43-47 | a newline-terminated line is a row exactly when it has more than one character |
| Indexer.RowsOfTail | search/search.cpp:51-53 | the text after the last newline is a row exactly when it is non-empty, and the empty text has no rows |
| Indexer.RowsAreLines | search/search.cpp:41-53 | every row is non-empty and contains no newline |
| Indexer.RowsAreSubstrings | search/search.cpp:45-52 | every row occurs in the text |
| Engine.SearchEngine.FillMapOfWords | search/search.cpp:56-73 | the map receives every word of row i counted under its folded form, and the total grows by the number of words |
| Indexer.WordsOfConcat | search/search.cpp:56-73 | tokenising is compositional at a non-letter |
| Indexer.WordsOfRun | search/search.cpp:69-72 | a run of letters at the end of a row is one word when non-empty |
| Indexer.WordsOfRunAndSeparator | search/search.cpp:60-65 | a run of letters closed by a non-letter is one word when non-empty |
| Indexer.WordsAreRuns | search/search.cpp:59-72 | every word is a non-empty string of letters |
| Indexer.WordsAreMaximalRuns | search/search.cpp:59-72 | every word occurs in the string with no letter right before or right after it |
| Indexer.NoLettersNoWords | search/search.cpp:59-72 | a string without letters has no words |
| Indexer.WordsOfLowerStr | search/search.cpp:112-132 | the words of the case-folded string are the case-folded words of the string |
| Indexer.AddWordsCounts | search/search.cpp:62-70 | counting adds exactly the folded words as keys, and each key's count grows by the number of words equal to it up to case |
| Indexer.AddWordsTotal | search/search.cpp:62-71 | the sum of the counts grows by exactly the number of words, so a row's total is the sum of its counts |
| Indexer.InfoOf | search/search.cpp:79-84 | a row entry with a word has a total of at least one |
| Indexer.InfoOfCounts | search/search.cpp:79-84 | a row's entry has the row's folded words as keys, each mapped to its occurrence count up to case, and a total equal to the sum of the counts |
| Indexer.InfosOf | search/search.cpp:75-86 | there is one entry per row, and no entry has a word without a total |
| Indexer.IndexOf | search/search.cpp:75-86 | the index has exactly the keys 0 to number of rows - 1, and entry i is the entry of row i |
| Indexer.IndexOfSnoc | search/search.cpp:77-85 | indexing row i adds key i with row i's entry and changes no other entry |
| Indexer.Put | search/search.cpp:123 | storing a word makes the map contain it up to case, maps its folded key to the value, adds no other key and leaves every other entry unchanged |
| Engine.SearchEngine.FillRowIdToRowInfoMap | search/search.cpp:75-86 | every row id is (re)written with its row's entry; other keys keep their old values |
| Engine.SearchEngine.BuildIndex | search/search.cpp:88-91 | the text's rows are appended, the index becomes `IndexOf(rows)`, and the engine is ready to be queried |
| Engine.SearchEngine.constructor | search/search.h:29-30 | a new engine has no rows and an empty index |
| Engine.SearchEngine.ValidIsIndexed | search/search.h:29-30 | an engine whose index describes its rows has an entry for exactly every row id, and the entries are the rows' entries |
| Engine.SearchEngine.Index | search/search.h:29-30 | the index read by row id has one entry per row, each the stored one, none with a word but no total |
| Engine.SearchEngine.CountWordQuantityInDocumentCollection | search/search.cpp:93-104 | the result is the document frequency of the word, up to case |
| Scoring.DocumentFrequency | search/search.cpp:93-104 | a document frequency is never above the number of rows |
| Scoring.DocumentFrequencyCounts | search/search.cpp:93-104 | the document frequency is the number of rows whose map has the word |
| Scoring.DocumentFrequencyAll | search/search.cpp:93-104 | the document frequency equals the number of rows exactly when every row has the word |
| Scoring.DocumentFrequencyPositive | search/search.cpp:93-104 | the document frequency is positive exactly when some row has the word |
| Engine.SearchEngine.FillQueryWordsOccurredInDocToQuantityAmongDocCollection | search/search.cpp:106-143 | the map built is the query map of the query's words |
| Engine.SearchEngine.AddQueryWord | search/search.cpp:116-125 | one query word turns the query map of the words seen so far into that of the words including it |
| Scoring.QueryMapContents | search/search.cpp:106-143 | the query map holds exactly the folded query words that some row has, each once, mapped to the number of rows that have it |
| Scoring.QueryMapStep | search/search.cpp:116-125 | a query word is added with its document frequency unless its folded form is already there or no row has it |
| Scoring.QueryMapFrequencies | search/search.cpp:120-124 | every frequency in a query map is positive |
| Scoring.QueryMapIgnoresCase | search/search.cpp:106-143 | two queries equal up to ASCII case build the same query map |
| Scoring.QueryMapOfNoLetters | search/search.cpp:106-143 | a query without letters builds the empty map |
| Engine.SearchEngine.FillTopRelevant | search/search.cpp:158-180 | the result is the candidates of the query map sorted by CompareDouble |
| Engine.SearchEngine.RowRelevanceOf | search/search.cpp:162-172 | summing the TF-IDF of the query words the row has and not every row has gives the row's relevance, in any iteration order |
| Sums.SumValuesRemove | search/search.cpp:164-172 | the sum over a map is any one value plus the sum of the rest, so the order of summing does not matter |
| Scoring.ContributionsRemove | search/search.cpp:164-172 | a row's relevance is any one query word's contribution plus its relevance to the other words |
| Scoring.ContributionOnlyFromSharedWords | search/search.cpp:165-170 | only a word the row has, and that not every row has, contributes, and then the TF denominator is at least one |
| Scoring.UniversalWordNeutral | search/search.cpp:167 | a query word that every row has changes no row's relevance |
| Scoring.WordlessRowIrrelevant | search/search.cpp:161-176 | a row without words has relevance zero for every query |
| Scoring.Candidates | search/search.cpp:161-177 | candidates come in increasing row id, each below the bound |
| Scoring.CandidatesContents | search/search.cpp:161-177 | the candidates are exactly the rows with nonzero relevance, each with its relevance |
| Scoring.NoCandidatesWithoutQueryWords | search/search.cpp:161-177 | with an empty query map no row is a candidate |
| Scoring.CompareDoubleIsStrictTotalOrder | search/search.cpp:145-150 | the comparator is irreflexive, asymmetric and transitive, and total on entries with distinct ids |
| Scoring.InsertByRelevance | search/search.cpp:179 | inserting into a ranked sequence keeps it ranked and adds exactly the new entry |
| Scoring.SortByRelevance | search/search.cpp:179 | the sorted sequence is ranked by CompareDouble and is a permutation of the candidates |
| Scoring.RankingContents | search/search.cpp:158-188 | the ranking holds every row with nonzero relevance once, with that relevance, higher relevance first and equal relevance by increasing id |
| Scoring.RankingIsSortedCandidates | search/search.cpp:184-188 | the ranking is the sorted candidate list of the query map, and every ranked id is a row |
| Scoring.RankingIgnoresCase | search/search.cpp:182-188 | queries equal up to ASCII case give the same ranking |
| Scoring.RankingOfNoLetters | search/search.cpp:182-188 | a query without letters ranks no row |
| Scoring.RankedRowSharesAWord | search/search.cpp:161-177 | every ranked row shares a word, up to case, with the query |
| Engine.SearchEngine.Search | search/search.cpp:182-199 | the result has min(ranking length, results count) entries, and entry i is the text of the i-th ranked row; the engine is not changed |

Since `Search`'s contract fixes its result, two queries equal up to case give
equal results (`RankingIgnoresCase`). A query without letters gives an empty
result (`RankingOfNoLetters`), and so does a results count of 0.

## Left out

- TfIdf: computed on exact reals instead of doubles. The natural logarithm is
  the parameter `ln` of `Search` and `FillTopRelevant`. Rounding is not
  modelled, and no property of the score value is claimed.
- Scoring.CompareDouble: two relevances count as equal only when they are
  exactly equal. The source treats values closer than machine epsilon as
  equal (search/search.cpp:146).
- Engine.SearchEngine.FillTopRelevant and Scoring.Candidates: a row is kept
  when its relevance is nonzero. The source keeps it when the relevance is at least machine epsilon
  (search/search.cpp:174).
- Text.CmpInsensitively: the contract covers only words made of letters. On
  other characters the source adds `'a' - 'A'` to a non-letter
  (search/search.cpp:30) and is not a strict weak order. Every key the engine
  stores or looks up is a run of letters, so that case never arises.
- Word maps are keyed by the case-folded word. The source keeps the spelling
  of the first occurrence as the key, which changes nothing that the engine
  computes.
- `std::isalpha` is modelled as ASCII letters only. Locales, non-ASCII bytes,
  and the undefined behaviour of `isalpha` on negative `char` values are not
  modelled.
- `size_t` counters are unbounded naturals, so overflow is not modelled.
- The rows are copies of the text (`seq<char>`), not `std::string_view`s
  borrowing the caller's buffer, so lifetime and aliasing are not modelled.
- The iteration order of the query map in `FillTopRelevant` is an arbitrary
  choice, and the sum is proved independent of that order. The float sum in
  the source can depend on the order; the exact sum cannot.
- `std::stable_sort` is modelled as a functional insertion sort, and the
  in-place sort of the vector is not modelled. For the modelled exact-real
  CompareDouble the two give the same result, because that comparator is a
  strict total order on the candidates' distinct ids. The source's comparator
  is not transitive on near-ties: relevances 0, 0.6ε and 1.2ε with ids 1, 2
  and 3 give 1 before 2 and 2 before 3, but 3 before 1. `std::stable_sort`
  requires a strict weak order, so the source's order of such candidates is
  not modelled.
- Engine.SearchEngine.BuildIndex: requires `Valid()`, which means the index
  describes exactly the current rows. Every engine satisfies this from
  construction on. Engines reached in any other way are not modelled.
- search/test.cpp, the test harness, is not part of this model.
