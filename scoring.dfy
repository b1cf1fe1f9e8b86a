/** The query side of the engine on values (search/search.cpp:93-199):
    document frequencies, the query's word map, the TF-IDF relevance of a row
    and the ranking of the relevant rows.  The loops that compute them are the
    methods of Engine.SearchEngine. */
module Scoring {
  import opened Text
  import opened Sums
  import opened Indexer

  // ---------------------------------------------------------------- document frequency

  /** How many of the rows' RowInfos have key in their word map. */
  function DocumentFrequency(infos: seq<RowInfo>, key: string): (df: nat)
    ensures df <= |infos|
    decreases |infos|
  {
    if infos == [] then 0
    else DocumentFrequency(infos[..|infos| - 1], key) + (if key in infos[|infos| - 1].counts then 1 else 0)
  }

  /** The ids of the rows whose word map has key. */
  ghost function RowsContaining(infos: seq<RowInfo>, key: string): set<nat> {
    set i: nat | i < |infos| && key in infos[i].counts
  }

  /** The document frequency is the number of rows that contain the word. */
  lemma {:induction false} DocumentFrequencyCounts(infos: seq<RowInfo>, key: string)
    ensures DocumentFrequency(infos, key) == |RowsContaining(infos, key)|
    decreases |infos|
  {
    if infos != [] {
      var n := |infos| - 1;
      var init := infos[..n];
      DocumentFrequencyCounts(init, key);
      if key in infos[n].counts {
        assert RowsContaining(infos, key) == RowsContaining(init, key) + {n};
      } else {
        assert RowsContaining(infos, key) == RowsContaining(init, key);
      }
    }
  }

  /** The document frequency is the number of rows exactly when every row contains the word. */
  lemma {:induction false} DocumentFrequencyAll(infos: seq<RowInfo>, key: string)
    ensures DocumentFrequency(infos, key) == |infos| <==> forall i :: 0 <= i < |infos| ==> key in infos[i].counts
    decreases |infos|
  {
    if infos != [] {
      var n := |infos| - 1;
      DocumentFrequencyAll(infos[..n], key);
      assert forall i :: 0 <= i < n ==> infos[..n][i] == infos[i];
    }
  }

  /** The document frequency is positive exactly when some row contains the word. */
  lemma {:induction false} DocumentFrequencyPositive(infos: seq<RowInfo>, key: string)
    ensures DocumentFrequency(infos, key) > 0 <==> exists i :: 0 <= i < |infos| && key in infos[i].counts
    decreases |infos|
  {
    if infos != [] {
      var n := |infos| - 1;
      DocumentFrequencyPositive(infos[..n], key);
      assert forall i :: 0 <= i < n ==> infos[..n][i] == infos[i];
    }
  }

  // ---------------------------------------------------------------- the query's word map

  /** The map `Search` collects from the query's words: each case-folded word
      that occurs in at least one row, mapped to its document frequency. */
  function QueryMap(infos: seq<RowInfo>, words: seq<string>): map<string, nat> {
    FrequenciesOf(infos, LowerSet(words))
  }

  /** What the query map holds: exactly the case-folded query words that some
      row has, each once, mapped to the number of rows that have it. */
  lemma QueryMapContents(infos: seq<RowInfo>, words: seq<string>)
    ensures forall key :: key in QueryMap(infos, words) <==>
      key in LowerSet(words) && exists i :: 0 <= i < |infos| && key in infos[i].counts
    ensures forall key :: key in QueryMap(infos, words) ==> QueryMap(infos, words)[key] == |RowsContaining(infos, key)|
  {
    forall key | key in LowerSet(words)
      ensures DocumentFrequency(infos, key) > 0 <==> exists i :: 0 <= i < |infos| && key in infos[i].counts
      ensures DocumentFrequency(infos, key) == |RowsContaining(infos, key)|
    {
      DocumentFrequencyPositive(infos, key);
      DocumentFrequencyCounts(infos, key);
    }
  }

  function FrequenciesOf(infos: seq<RowInfo>, keys: set<string>): map<string, nat> {
    map key | key in keys && DocumentFrequency(infos, key) > 0 :: DocumentFrequency(infos, key)
  }

  /** One more query word: it is added, with its document frequency, unless an
      equal word up to case is already there or no row contains it. */
  lemma QueryMapStep(infos: seq<RowInfo>, words: seq<string>, word: string)
    ensures QueryMap(infos, words + [word])
            == if LowerStr(word) in QueryMap(infos, words) || DocumentFrequency(infos, LowerStr(word)) == 0
               then QueryMap(infos, words)
               else QueryMap(infos, words)[LowerStr(word) := DocumentFrequency(infos, LowerStr(word))]
  {
    assert LowerSet(words + [word]) == LowerSet(words) + {LowerStr(word)};
    FrequenciesOfInsert(infos, LowerSet(words), LowerStr(word));
  }

  lemma FrequenciesOfInsert(infos: seq<RowInfo>, keys: set<string>, key: string)
    ensures FrequenciesOf(infos, keys + {key})
            == if key in FrequenciesOf(infos, keys) || DocumentFrequency(infos, key) == 0
               then FrequenciesOf(infos, keys)
               else FrequenciesOf(infos, keys)[key := DocumentFrequency(infos, key)]
  {
    var before, after := FrequenciesOf(infos, keys), FrequenciesOf(infos, keys + {key});
    var df := DocumentFrequency(infos, key);
    var expected := if key in before || df == 0 then before else before[key := df];
    forall k ensures k in after <==> k in expected {
    }
    forall k | k in after ensures after[k] == expected[k] {
    }
    assert after == expected;
  }

  lemma LowerSetOfLowerAll(words: seq<string>)
    ensures LowerSet(LowerAll(words)) == LowerSet(words)
  {
    var folded := LowerAll(words);
    forall v | v in LowerSet(folded)
      ensures v in LowerSet(words)
    {
      var u :| u in folded && v == LowerStr(u);
      var i :| 0 <= i < |folded| && folded[i] == u;
      LowerStrIdempotent(words[i]);
      assert words[i] in words;
    }
    forall v | v in LowerSet(words)
      ensures v in LowerSet(folded)
    {
      var w :| w in words && v == LowerStr(w);
      var i :| 0 <= i < |words| && words[i] == w;
      LowerStrIdempotent(w);
      assert folded[i] in folded;
    }
  }

  /** Case does not matter in a query: two queries equal up to ASCII case
      collect the same word map. */
  lemma QueryMapIgnoresCase(infos: seq<RowInfo>, q1: string, q2: string)
    requires LowerStr(q1) == LowerStr(q2)
    ensures QueryMap(infos, Words(q1)) == QueryMap(infos, Words(q2))
  {
    WordsOfLowerStr(q1);
    WordsOfLowerStr(q2);
    LowerSetOfLowerAll(Words(q1));
    LowerSetOfLowerAll(Words(q2));
  }

  /** A query without letters collects nothing. */
  lemma QueryMapOfNoLetters(infos: seq<RowInfo>, query: string)
    requires forall i :: 0 <= i < |query| ==> !IsAlpha(query[i])
    ensures QueryMap(infos, Words(query)) == map[]
  {
    NoLettersNoWords(query);
    assert LowerSet([]) == {};
  }

  // ---------------------------------------------------------------- relevance

  /** Every word of a query map occurs in some row. */
  ghost predicate PositiveFrequencies(occurred: map<string, nat>) {
    forall word :: word in occurred ==> occurred[word] > 0
  }

  /** `TfIdf` (search/search.cpp:152-156): term frequency times the logarithm
      of the inverse document frequency, on exact reals; `ln` stands for the
      natural logarithm of the C library. */
  function TfIdf(ln: real -> real, quantityInRow: nat, totalInRow: nat,
                 quantityInCollection: nat, totalDocuments: nat): real
    requires totalInRow > 0 && quantityInCollection > 0
  {
    (quantityInRow as real / totalInRow as real) * ln(totalDocuments as real / quantityInCollection as real)
  }

  /** What one query word adds to a row's relevance: nothing unless the row
      has the word and the word is not in every one of the n rows. */
  function Contribution(ln: real -> real, info: RowInfo, word: string, df: nat, n: nat): real
    requires df > 0 && WellFormed(info)
  {
    if word in info.counts && df != n then TfIdf(ln, info.counts[word], info.total, df, n) else 0.0
  }

  function Contributions(ln: real -> real, info: RowInfo, occurred: map<string, nat>, n: nat): map<string, real>
    requires PositiveFrequencies(occurred) && WellFormed(info)
  {
    map word | word in occurred :: Contribution(ln, info, word, occurred[word], n)
  }

  /** A row's relevance: the sum of the contributions of the query words. */
  ghost function Relevance(ln: real -> real, info: RowInfo, occurred: map<string, nat>, n: nat): real
    requires PositiveFrequencies(occurred) && WellFormed(info)
  {
    SumValues(Contributions(ln, info, occurred, n))
  }

  ghost function RowRelevance(ln: real -> real, infos: seq<RowInfo>, occurred: map<string, nat>, id: nat): real
    requires id < |infos| && WellFormedAll(infos) && PositiveFrequencies(occurred)
  {
    Relevance(ln, infos[id], occurred, |infos|)
  }

  /** Only a word the row has, and that some but not every row has, adds to the
      row's relevance, and then the TF denominator is at least one. */
  lemma ContributionOnlyFromSharedWords(ln: real -> real, info: RowInfo, word: string, df: nat, n: nat)
    requires df > 0 && WellFormed(info)
    ensures Contribution(ln, info, word, df, n) != 0.0 ==> word in info.counts && df != n && info.total >= 1
  {
  }

  /** A row's relevance is any one query word's contribution plus the relevance
      to the other words: the order in which the words are summed does not matter. */
  lemma ContributionsRemove(ln: real -> real, info: RowInfo, occurred: map<string, nat>, n: nat, word: string)
    requires PositiveFrequencies(occurred) && WellFormed(info) && word in occurred
    ensures Relevance(ln, info, occurred, n)
            == Contribution(ln, info, word, occurred[word], n) + Relevance(ln, info, occurred - {word}, n)
  {
    var all := Contributions(ln, info, occurred, n);
    SumValuesRemove(all, word);
    assert Contributions(ln, info, occurred - {word}, n) == all - {word};
  }

  /** A query word that occurs in every row changes no row's relevance. */
  lemma UniversalWordNeutral(ln: real -> real, info: RowInfo, occurred: map<string, nat>, n: nat, word: string)
    requires PositiveFrequencies(occurred) && WellFormed(info)
    requires word in occurred && occurred[word] == n
    ensures Relevance(ln, info, occurred, n) == Relevance(ln, info, occurred - {word}, n)
  {
    var all := Contributions(ln, info, occurred, n);
    SumValuesRemove(all, word);
    assert Contributions(ln, info, occurred - {word}, n) == all - {word};
  }

  /** A row without words is relevant to no query. */
  lemma WordlessRowIrrelevant(ln: real -> real, info: RowInfo, occurred: map<string, nat>, n: nat)
    requires PositiveFrequencies(occurred) && WellFormed(info)
    requires info.counts == map[]
    ensures Relevance(ln, info, occurred, n) == 0.0
  {
    SumValuesOfZeros(Contributions(ln, info, occurred, n));
  }

  // ---------------------------------------------------------------- candidates and ranking

  /** A relevant row: its relevance and its id (`std::pair<double, size_t>`). */
  datatype Scored = Scored(relevance: real, id: nat)

  /** `CompareDouble` (search/search.cpp:145-150) on exact reals: higher
      relevance first, equal relevance broken by the smaller row id. */
  predicate CompareDouble(lhv: Scored, rhv: Scored) {
    if lhv.relevance != rhv.relevance then lhv.relevance >= rhv.relevance else lhv.id < rhv.id
  }

  /** CompareDouble is a strict total order on entries with distinct ids. */
  lemma CompareDoubleIsStrictTotalOrder(a: Scored, b: Scored, c: Scored)
    ensures !CompareDouble(a, a)
    ensures CompareDouble(a, b) ==> !CompareDouble(b, a)
    ensures CompareDouble(a, b) && CompareDouble(b, c) ==> CompareDouble(a, c)
    ensures a.id != b.id ==> CompareDouble(a, b) || CompareDouble(b, a)
  {
  }

  /** Every earlier entry ranks before every later one. */
  predicate Ranked(s: seq<Scored>) {
    forall i, j :: 0 <= i < j < |s| ==> CompareDouble(s[i], s[j])
  }

  predicate DistinctIds(s: seq<Scored>) {
    forall i, j :: 0 <= i < j < |s| ==> s[i].id != s[j].id
  }

  /** x inserted into a ranked sequence at its place. */
  function InsertByRelevance(x: Scored, s: seq<Scored>): (r: seq<Scored>)
    requires Ranked(s)
    requires forall y :: y in s ==> y.id != x.id
    ensures Ranked(r)
    ensures multiset(r) == multiset(s) + multiset{x}
    decreases |s|
  {
    if s == [] then [x]
    else if CompareDouble(s[0], x) then
      RankedTail(s);
      var rest := InsertByRelevance(x, s[1..]);
      FirstRanksBeforeInserted(x, s, rest);
      RankedCons(s[0], rest);
      assert s == [s[0]] + s[1..];
      [s[0]] + rest
    else
      forall k | 0 <= k < |s| ensures CompareDouble(x, s[k]) {
        CompareDoubleIsStrictTotalOrder(x, s[0], s[k]);
      }
      RankedCons(x, s);
      [x] + s
  }

  lemma RankedTail(s: seq<Scored>)
    requires s != [] && Ranked(s)
    ensures Ranked(s[1..])
    ensures forall y :: y in s[1..] ==> y in s
  {
  }

  lemma RankedCons(a: Scored, s: seq<Scored>)
    requires Ranked(s)
    requires forall k :: 0 <= k < |s| ==> CompareDouble(a, s[k])
    ensures Ranked([a] + s)
  {
  }

  /** The head of a ranked sequence ranks before everything inserted after it. */
  lemma FirstRanksBeforeInserted(x: Scored, s: seq<Scored>, rest: seq<Scored>)
    requires s != [] && Ranked(s) && CompareDouble(s[0], x)
    requires multiset(rest) == multiset(s[1..]) + multiset{x}
    ensures forall k :: 0 <= k < |rest| ==> CompareDouble(s[0], rest[k])
  {
    forall k | 0 <= k < |rest| ensures CompareDouble(s[0], rest[k]) {
      assert rest[k] in multiset(rest);
      if rest[k] != x {
        assert rest[k] in multiset(s[1..]);
        var m :| 0 <= m < |s[1..]| && s[1..][m] == rest[k];
        assert s[m + 1] == rest[k];
      }
    }
  }

  /** The stable sort of `FillTopRelevant` (search/search.cpp:179): candidates
      with distinct ids, ordered by CompareDouble. */
  function SortByRelevance(s: seq<Scored>): (r: seq<Scored>)
    requires DistinctIds(s)
    ensures Ranked(r)
    ensures multiset(r) == multiset(s)
    decreases |s|
  {
    if s == [] then []
    else
      SplitFirst(s);
      var rest := SortByRelevance(s[1..]);
      SameMembers(rest, s[1..]);
      InsertByRelevance(s[0], rest)
  }

  lemma SplitFirst(s: seq<Scored>)
    requires s != [] && DistinctIds(s)
    ensures DistinctIds(s[1..])
    ensures forall y :: y in s[1..] ==> y.id != s[0].id
    ensures multiset(s) == multiset(s[1..]) + multiset{s[0]}
  {
    assert s == [s[0]] + s[1..];
  }

  lemma SameMembers(a: seq<Scored>, b: seq<Scored>)
    requires multiset(a) == multiset(b)
    ensures forall y :: y in a <==> y in b
  {
    forall y ensures y in a <==> y in b {
      assert y in a <==> y in multiset(a);
      assert y in b <==> y in multiset(b);
    }
  }

  /** The rows among the first `upto` that have a nonzero relevance, by increasing id. */
  ghost function Candidates(ln: real -> real, infos: seq<RowInfo>, occurred: map<string, nat>, upto: nat): (c: seq<Scored>)
    requires upto <= |infos| && WellFormedAll(infos) && PositiveFrequencies(occurred)
    ensures forall i, j :: 0 <= i < j < |c| ==> c[i].id < c[j].id
    ensures forall i :: 0 <= i < |c| ==> c[i].id < upto
    decreases upto
  {
    if upto == 0 then []
    else
      var previous := Candidates(ln, infos, occurred, upto - 1);
      var relevance := RowRelevance(ln, infos, occurred, upto - 1);
      if relevance != 0.0 then previous + [Scored(relevance, upto - 1)] else previous
  }

  /** The candidates are exactly the rows among the first `upto` whose
      relevance is nonzero, each with that relevance. */
  lemma {:induction false} CandidatesContents(ln: real -> real, infos: seq<RowInfo>, occurred: map<string, nat>, upto: nat)
    requires upto <= |infos| && WellFormedAll(infos) && PositiveFrequencies(occurred)
    ensures forall x :: x in Candidates(ln, infos, occurred, upto) <==>
      x.id < upto && x.relevance == RowRelevance(ln, infos, occurred, x.id) && x.relevance != 0.0
    decreases upto
  {
    if upto > 0 {
      CandidatesContents(ln, infos, occurred, upto - 1);
      var previous := Candidates(ln, infos, occurred, upto - 1);
      var relevance := RowRelevance(ln, infos, occurred, upto - 1);
      var added := if relevance != 0.0 then [Scored(relevance, upto - 1)] else [];
      assert Candidates(ln, infos, occurred, upto) == previous + added;
      forall x ensures x in previous + added <==> x in previous || x in added {
      }
    }
  }

  /** The query map of a query holds only words some row has. */
  lemma QueryMapFrequencies(infos: seq<RowInfo>, words: seq<string>)
    ensures PositiveFrequencies(QueryMap(infos, words))
  {
  }

  /** The ranking `Search` reads its answer from: the candidates of the
      query's word map, sorted by CompareDouble. */
  ghost function Ranking(ln: real -> real, infos: seq<RowInfo>, query: string): seq<Scored>
    requires WellFormedAll(infos)
  {
    var occurred := QueryMap(infos, Words(query));
    QueryMapFrequencies(infos, Words(query));
    SortByRelevance(Candidates(ln, infos, occurred, |infos|))
  }

  /** What the ranking holds: every row whose relevance to the query is
      nonzero, once, with that relevance, higher relevance first and equal
      relevance by increasing row id. */
  lemma RankingContents(ln: real -> real, infos: seq<RowInfo>, query: string)
    requires WellFormedAll(infos)
    ensures var r := Ranking(ln, infos, query);
      forall i, j :: 0 <= i < j < |r| ==>
        r[i].relevance > r[j].relevance || (r[i].relevance == r[j].relevance && r[i].id < r[j].id)
    ensures var r := Ranking(ln, infos, query);
      forall x :: x in r <==>
        x.id < |infos| && x.relevance == RowRelevance(ln, infos, QueryMap(infos, Words(query)), x.id) && x.relevance != 0.0
  {
    var occurred := QueryMap(infos, Words(query));
    var candidates := Candidates(ln, infos, occurred, |infos|);
    CandidatesContents(ln, infos, occurred, |infos|);
    SameMembers(Ranking(ln, infos, query), candidates);
  }

  /** The ranking is the candidate list of the query's word map sorted by
      CompareDouble, and every ranked entry names a row. */
  lemma RankingIsSortedCandidates(ln: real -> real, infos: seq<RowInfo>, query: string)
    requires WellFormedAll(infos)
    ensures PositiveFrequencies(QueryMap(infos, Words(query)))
    ensures Ranking(ln, infos, query) == SortByRelevance(Candidates(ln, infos, QueryMap(infos, Words(query)), |infos|))
    ensures forall k :: 0 <= k < |Ranking(ln, infos, query)| ==> Ranking(ln, infos, query)[k].id < |infos|
  {
    QueryMapFrequencies(infos, Words(query));
    RankingContents(ln, infos, query);
    var r := Ranking(ln, infos, query);
    forall k | 0 <= k < |r| ensures r[k].id < |infos| {
      assert r[k] in r;
    }
  }

  /** Queries equal up to ASCII case rank the same rows the same way. */
  lemma RankingIgnoresCase(ln: real -> real, infos: seq<RowInfo>, q1: string, q2: string)
    requires WellFormedAll(infos) && LowerStr(q1) == LowerStr(q2)
    ensures Ranking(ln, infos, q1) == Ranking(ln, infos, q2)
  {
    QueryMapIgnoresCase(infos, q1, q2);
  }

  /** A query without letters ranks no row. */
  lemma RankingOfNoLetters(ln: real -> real, infos: seq<RowInfo>, query: string)
    requires WellFormedAll(infos)
    requires forall i :: 0 <= i < |query| ==> !IsAlpha(query[i])
    ensures Ranking(ln, infos, query) == []
  {
    QueryMapOfNoLetters(infos, query);
    NoCandidatesWithoutQueryWords(ln, infos, |infos|);
  }

  /** With an empty query map no row is a candidate. */
  lemma {:induction false} NoCandidatesWithoutQueryWords(ln: real -> real, infos: seq<RowInfo>, upto: nat)
    requires upto <= |infos| && WellFormedAll(infos)
    ensures Candidates(ln, infos, map[], upto) == []
    decreases upto
  {
    if upto > 0 {
      NoCandidatesWithoutQueryWords(ln, infos, upto - 1);
      assert Contributions(ln, infos[upto - 1], map[], |infos|) == map[];
    }
  }

  /** Every ranked row shares a word, up to case, with the query. */
  lemma RankedRowSharesAWord(ln: real -> real, rows: seq<string>, query: string, x: Scored)
    requires x in Ranking(ln, InfosOf(rows), query)
    ensures x.id < |rows|
    ensures exists key :: key in LowerSet(Words(rows[x.id])) && key in LowerSet(Words(query))
  {
    var infos := InfosOf(rows);
    RankingContents(ln, infos, query);
    var occurred := QueryMap(infos, Words(query));
    var info := infos[x.id];
    var contributions := Contributions(ln, info, occurred, |infos|);
    if forall key :: key in contributions ==> contributions[key] == 0.0 {
      SumValuesOfZeros(contributions);
      assert false;
    }
    var key :| key in contributions && contributions[key] != 0.0;
    InfoOfCounts(rows[x.id]);
    assert key in LowerSet(Words(rows[x.id])) && key in LowerSet(Words(query));
  }
}
