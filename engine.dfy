/** The `SearchEngine` class (search/search.h:8-31, search/search.cpp): the
    rows of the indexed text, the word map and word total of every row, and the
    methods that build them and answer a query.  Each method is proved against
    the reference definitions of Indexer and Scoring. */
module Engine {
  import opened Text
  import opened Sums
  import opened Indexer
  import opened Scoring

  function Min(a: nat, b: nat): nat {
    if a < b then a else b
  }

  /** Updating a union updates its right-hand side. */
  lemma UpdateUnion<K, V>(a: map<K, V>, b: map<K, V>, k: K, v: V)
    ensures (a + b)[k := v] == a + b[k := v]
  {
  }

  /** The texts of the given rows, in order. */
  function RowTexts(rows: seq<string>, ranking: seq<Scored>): (texts: seq<string>)
    requires forall k :: 0 <= k < |ranking| ==> ranking[k].id < |rows|
    ensures |texts| == |ranking|
    ensures forall k :: 0 <= k < |ranking| ==> texts[k] == rows[ranking[k].id]
  {
    seq(|ranking|, k requires 0 <= k < |ranking| => rows[ranking[k].id])
  }

  lemma RowTextsSnoc(rows: seq<string>, ranking: seq<Scored>, i: nat)
    requires i < |ranking| && forall k :: 0 <= k < |ranking| ==> ranking[k].id < |rows|
    ensures RowTexts(rows, ranking[..i + 1]) == RowTexts(rows, ranking[..i]) + [rows[ranking[i].id]]
  {
  }

  class SearchEngine {
    /** `rows_`: the kept lines of every text indexed so far. */
    var rows: seq<string>
    /** `row_id_to_row_info_`: row id -> word counts keyed by the case-folded word, and the row's word total. */
    var rowInfo: map<nat, RowInfo>

    /** The index describes exactly the current rows. */
    ghost predicate Valid()
      reads this
    {
      rowInfo == IndexOf(rows)
    }

    /** Every row id, and nothing else, has an entry in the index, and no
        entry has a word without a word total. */
    ghost predicate Indexed()
      reads this
    {
      && (forall id: nat :: id in rowInfo <==> id < |rows|)
      && (forall id :: id in rowInfo ==> WellFormed(rowInfo[id]))
    }

    /** The index by row id, as the query side reads it. */
    function Index(): (infos: seq<RowInfo>)
      reads this
      requires Indexed()
      ensures |infos| == |rows| && WellFormedAll(infos)
      ensures forall id :: 0 <= id < |rows| ==> infos[id] == rowInfo[id]
    {
      var index, n := rowInfo, |rows|;
      seq(n, id requires 0 <= id < n && id in index => index[id])
    }

    /** In a valid engine the index holds the RowInfo of each row. */
    lemma ValidIsIndexed()
      requires Valid()
      ensures Indexed() && Index() == InfosOf(rows)
    {
      var infos := InfosOf(rows);
      assert forall id :: id in rowInfo ==> WellFormed(rowInfo[id]) by {
        forall id | id in rowInfo ensures WellFormed(rowInfo[id]) {
          assert rowInfo[id] == infos[id];
        }
      }
      assert forall id :: 0 <= id < |rows| ==> Index()[id] == infos[id];
    }

    constructor()
      ensures rows == [] && rowInfo == map[]
      ensures Valid() && Indexed() && Index() == InfosOf(rows)
    {
      rows := [];
      rowInfo := map[];
      new;
      ValidIsIndexed();
    }

    /** `BuildIndex` (search/search.cpp:88-91): the text's rows are appended to
        the rows already there, and the whole index is rebuilt over all of them. */
    method BuildIndex(text: string)
      requires Valid()
      modifies this
      ensures rows == old(rows) + SplitRows(text)
      ensures rowInfo == IndexOf(rows)
      ensures Valid() && Indexed() && Index() == InfosOf(rows)
    {
      FillRows(text);
      FillRowIdToRowInfoMap();
      ValidIsIndexed();
    }

    /** `FillRows` (search/search.cpp:37-54): a line closed by a newline is kept
        when it has at least two characters, the unterminated last line when it
        has at least one. */
    method FillRows(text: string)
      modifies this`rows
      ensures rows == old(rows) + SplitRows(text)
    {
      var left := 0;
      for right := 0 to |text|
        invariant left <= right
        invariant left == 0 || text[left - 1] == '\n'
        invariant forall k :: left <= k < right ==> text[k] != '\n'
        invariant rows == old(rows) + SplitRows(text[..left])
      {
        if text[right] == '\n' {
          RowsAdvance(text, left, right);
          if right - left > 1 {
            AppendAssoc(old(rows), SplitRows(text[..left]), [text[left..right]]);
            rows := rows + [text[left..right]];
          }
          left := right + 1;
        }
      }
      RowsEnd(text, left);
      if |text| - left > 0 {
        AppendAssoc(old(rows), SplitRows(text[..left]), [text[left..]]);
        rows := rows + [text[left..]];
      }
    }

    /** `FillMapOfWords` (search/search.cpp:56-73): every maximal run of letters
        of row i is counted into the map under its case-folded form, and the
        total grows by one per run. */
    method FillMapOfWords(i: nat, counts: map<string, nat>, total: nat)
      returns (wordCounts: map<string, nat>, totalWords: nat)
      requires i < |rows|
      ensures wordCounts == AddWords(counts, Words(rows[i]))
      ensures totalWords == total + |Words(rows[i])|
    {
      var row := rows[i];
      var left := 0;
      ghost var tokens: seq<string> := [];
      wordCounts, totalWords := counts, total;
      for right := 0 to |row|
        invariant left <= right
        invariant left == 0 || !IsAlpha(row[left - 1])
        invariant forall k :: left <= k < right ==> IsAlpha(row[k])
        invariant tokens == Words(row[..left])
        invariant wordCounts == AddWords(counts, tokens)
        invariant totalWords == total + |tokens|
      {
        if !IsAlpha(row[right]) {
          WordsAdvance(row, left, right);
          if right - left > 0 {
            AddWordsSnoc(counts, tokens, row[left..right]);
            wordCounts := AddWord(wordCounts, row[left..right]);
            totalWords := totalWords + 1;
            tokens := tokens + [row[left..right]];
          }
          left := right + 1;
        }
      }
      WordsEnd(row, left);
      if left < |row| {
        AddWordsSnoc(counts, tokens, row[left..]);
        wordCounts := AddWord(wordCounts, row[left..]);
        totalWords := totalWords + 1;
        tokens := tokens + [row[left..]];
      }
      assert tokens == Words(row);
    }

    /** `FillRowIdToRowInfoMap` (search/search.cpp:75-86): the entry of every
        row id is (re)computed from a fresh map and a zero total. */
    method FillRowIdToRowInfoMap()
      modifies this`rowInfo
      ensures rowInfo == old(rowInfo) + IndexOf(rows)
    {
      for i := 0 to |rows|
        invariant rowInfo == old(rowInfo) + IndexOf(rows[..i])
      {
        var counts, total := FillMapOfWords(i, map[], 0);
        IndexOfSnoc(rows, i);
        UpdateUnion(old(rowInfo), IndexOf(rows[..i]), i, RowInfo(counts, total));
        rowInfo := rowInfo[i := RowInfo(counts, total)];
      }
      assert rows[..|rows|] == rows;
    }

    /** `CountWordQuantityInDocumentCollection` (search/search.cpp:93-104): the
        number of rows whose word map has the word, up to case. */
    method CountWordQuantityInDocumentCollection(word: string) returns (count: nat)
      requires Indexed()
      ensures count == DocumentFrequency(Index(), LowerStr(word))
    {
      ghost var infos := Index();
      count := 0;
      for id := 0 to |rows|
        invariant count == DocumentFrequency(infos[..id], LowerStr(word))
      {
        if Contains(rowInfo[id].counts, word) {
          count := count + 1;
        }
        assert infos[..id + 1][..id] == infos[..id] && infos[..id + 1][id] == rowInfo[id];
      }
      assert infos[..|rows|] == infos;
    }

    /** `FillQueryWordsOccurredInDocToQuantityAmongDocCollection`
        (search/search.cpp:106-143): every maximal run of letters of the query
        not yet in the map, up to case, is looked up, and kept with its document
        frequency when that is positive. */
    method FillQueryWordsOccurredInDocToQuantityAmongDocCollection(query: string)
      returns (occurred: map<string, nat>)
      requires Indexed()
      ensures occurred == QueryMap(Index(), Words(query))
    {
      ghost var tokens: seq<string> := [];
      occurred := map[];
      var left := 0;
      for right := 0 to |query|
        invariant left <= right
        invariant left == 0 || !IsAlpha(query[left - 1])
        invariant forall k :: left <= k < right ==> IsAlpha(query[k])
        invariant tokens == Words(query[..left])
        invariant occurred == QueryMap(Index(), tokens)
      {
        if !IsAlpha(query[right]) {
          WordsAdvance(query, left, right);
          if right - left > 0 {
            occurred := AddQueryWord(query[left..right], occurred, tokens);
            tokens := tokens + [query[left..right]];
          }
          left := right + 1;
        }
      }
      WordsEnd(query, left);
      if left < |query| {
        occurred := AddQueryWord(query[left..], occurred, tokens);
        tokens := tokens + [query[left..]];
      }
      assert tokens == Words(query);
    }

    /** The block `FillQueryWordsOccurredInDocToQuantityAmongDocCollection` runs
        on each query word (search/search.cpp:117-127, repeated at 133-141): a
        word not yet in the map, up to case, is looked up and kept with its
        document frequency when that is positive.  The map stays the query map
        of the words seen so far. */
    method AddQueryWord(queryWord: string, occurred: map<string, nat>, ghost words: seq<string>)
      returns (updated: map<string, nat>)
      requires Indexed()
      requires occurred == QueryMap(Index(), words)
      ensures updated == QueryMap(Index(), words + [queryWord])
    {
      QueryMapStep(Index(), words, queryWord);
      updated := occurred;
      if !Contains(occurred, queryWord) {
        var quantity := CountWordQuantityInDocumentCollection(queryWord);
        if quantity > 0 {
          updated := Put(occurred, queryWord, quantity);
        }
      }
    }

    /** `FillTopRelevant` (search/search.cpp:158-180): the relevance of every
        row is summed over the query map, the rows with a nonzero relevance are
        kept in id order, and then sorted by CompareDouble. */
    method FillTopRelevant(occurred: map<string, nat>, ln: real -> real) returns (topRelevant: seq<Scored>)
      requires Indexed() && PositiveFrequencies(occurred)
      ensures topRelevant == SortByRelevance(Candidates(ln, Index(), occurred, |rows|))
    {
      ghost var infos := Index();
      var candidates: seq<Scored> := [];
      for id := 0 to |rows|
        invariant candidates == Candidates(ln, infos, occurred, id)
      {
        var relevance := RowRelevanceOf(id, occurred, ln);
        if relevance != 0.0 {
          candidates := candidates + [Scored(relevance, id)];
        }
      }
      topRelevant := SortByRelevance(candidates);
    }

    /** The inner loop of `FillTopRelevant` (search/search.cpp:162-172): the
        TF-IDF of every query word the row has and that not every row has,
        summed in the map's iteration order, is the row's relevance. */
    method RowRelevanceOf(id: nat, occurred: map<string, nat>, ln: real -> real) returns (relevance: real)
      requires Indexed() && PositiveFrequencies(occurred) && id < |rows|
      ensures relevance == RowRelevance(ln, Index(), occurred, id)
    {
      var info := rowInfo[id];
      assert info == Index()[id];
      relevance := 0.0;
      var remaining := occurred;
      while remaining != map[]
        invariant PositiveFrequencies(remaining)
        invariant relevance + Relevance(ln, info, remaining, |rows|) == Relevance(ln, info, occurred, |rows|)
        decreases |remaining|
      {
        var word :| word in remaining;
        var quantity := remaining[word];
        ContributionsRemove(ln, info, remaining, |rows|, word);
        if word in info.counts {
          if quantity != |rows| {
            relevance := relevance + TfIdf(ln, info.counts[word], info.total, quantity, |rows|);
          }
        }
        remaining := remaining - {word};
      }
      assert Contributions(ln, info, remaining, |rows|) == map[];
    }

    /** `Search` (search/search.cpp:182-199): the texts of the first
        min(resultsCount, number of relevant rows) rows of the ranking; the
        engine is not changed. */
    method Search(query: string, resultsCount: nat, ln: real -> real) returns (result: seq<string>)
      requires Indexed()
      ensures |result| == Min(|Ranking(ln, Index(), query)|, resultsCount)
      ensures forall i :: 0 <= i < |result| ==> Ranking(ln, Index(), query)[i].id < |rows|
      ensures forall i :: 0 <= i < |result| ==> result[i] == rows[Ranking(ln, Index(), query)[i].id]
    {
      ghost var infos := Index();
      var occurred := FillQueryWordsOccurredInDocToQuantityAmongDocCollection(query);
      RankingIsSortedCandidates(ln, infos, query);
      var topRelevant := FillTopRelevant(occurred, ln);
      var resultSize := Min(|topRelevant|, resultsCount);
      result := [];
      for i := 0 to resultSize
        invariant result == RowTexts(rows, topRelevant[..i])
      {
        RowTextsSnoc(rows, topRelevant, i);
        result := result + [rows[topRelevant[i].id]];
      }
    }
  }
}
