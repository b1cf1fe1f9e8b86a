/** What the index is built from: the rows of a text, the words of a row and
    the per-row word counts (search/search.cpp:37-91), as reference
    definitions on values.  The loops that compute them are the methods of
    Engine.SearchEngine. */
module Indexer {
  import opened Text
  import opened Sums

  /** Length of the first line of s: the position of its first newline, or |s| when there is none. */
  function LineEnd(s: string): (j: nat)
    ensures j <= |s|
    decreases |s|
  {
    if s == [] || s[0] == '\n' then 0 else 1 + LineEnd(s[1..])
  }

  /** LineEnd is the position of the first newline. */
  lemma {:induction false} LineEndIsFirstNewline(s: string)
    ensures LineEnd(s) < |s| ==> s[LineEnd(s)] == '\n'
    ensures forall k :: 0 <= k < LineEnd(s) ==> s[k] != '\n'
    decreases |s|
  {
    if s != [] && s[0] != '\n' {
      LineEndIsFirstNewline(s[1..]);
      forall k | 0 < k < LineEnd(s) ensures s[k] != '\n' {
        assert s[k] == s[1..][k - 1];
      }
    }
  }

  lemma {:induction false} LineEndUnique(s: string, j: nat)
    requires j <= |s| && (j < |s| ==> s[j] == '\n')
    requires forall k :: 0 <= k < j ==> s[k] != '\n'
    ensures LineEnd(s) == j
    decreases j
  {
    if j > 0 {
      forall k | 0 <= k < j - 1 ensures s[1..][k] != '\n' {
        assert s[1..][k] == s[k + 1];
      }
      LineEndUnique(s[1..], j - 1);
    }
  }

  /** Length of the run of letters s starts with: the position of its first non-letter, or |s|. */
  function RunEnd(s: string): (j: nat)
    ensures j <= |s|
    decreases |s|
  {
    if s == [] || !IsAlpha(s[0]) then 0 else 1 + RunEnd(s[1..])
  }

  /** RunEnd is the position of the first non-letter. */
  lemma {:induction false} RunEndIsFirstSeparator(s: string)
    ensures RunEnd(s) < |s| ==> !IsAlpha(s[RunEnd(s)])
    ensures forall k :: 0 <= k < RunEnd(s) ==> IsAlpha(s[k])
    decreases |s|
  {
    if s != [] && IsAlpha(s[0]) {
      RunEndIsFirstSeparator(s[1..]);
      forall k | 0 < k < RunEnd(s) ensures IsAlpha(s[k]) {
        assert s[k] == s[1..][k - 1];
      }
    }
  }

  lemma {:induction false} RunEndUnique(s: string, j: nat)
    requires j <= |s| && (j < |s| ==> !IsAlpha(s[j]))
    requires forall k :: 0 <= k < j ==> IsAlpha(s[k])
    ensures RunEnd(s) == j
    decreases j
  {
    if j > 0 {
      forall k | 0 <= k < j - 1 ensures IsAlpha(s[1..][k]) {
        assert s[1..][k] == s[k + 1];
      }
      RunEndUnique(s[1..], j - 1);
    }
  }

  // ---------------------------------------------------------------- rows

  predicate NoNewline(s: string) {
    forall k :: 0 <= k < |s| ==> s[k] != '\n'
  }

  /** The rows of a text: each newline-terminated segment longer than one
      character, then the segment after the last newline if it is non-empty. */
  function SplitRows(text: string): seq<string>
    decreases |text|
  {
    var j := LineEnd(text);
    if j == |text| then (if |text| > 0 then [text] else [])
    else (if j > 1 then [text[..j]] else []) + SplitRows(text[j + 1..])
  }

  /** A text without newline is one row when it is non-empty, and none when it is empty. */
  lemma RowsOfTail(seg: string)
    requires NoNewline(seg)
    ensures SplitRows(seg) == if |seg| > 0 then [seg] else []
  {
    LineEndUnique(seg, |seg|);
  }

  /** A newline-terminated segment is a row only when it has at least two characters. */
  lemma RowsOfLine(seg: string)
    requires NoNewline(seg)
    ensures SplitRows(seg + ['\n']) == if |seg| > 1 then [seg] else []
  {
    var s := seg + ['\n'];
    LineEndUnique(s, |seg|);
    assert s[..|seg|] == seg;
    assert s[|seg| + 1..] == [];
  }

  lemma RowsAtFirstNewline(text: string)
    requires LineEnd(text) < |text|
    ensures var j := LineEnd(text); SplitRows(text) == (if j > 1 then [text[..j]] else []) + SplitRows(text[j + 1..])
  {
  }

  /** When p has a separator, p + q continues after p's first line as p does. */
  lemma RowsAfterFirstLine(p: string, q: string)
    requires LineEnd(p) < |p|
    ensures SplitRows(p + q)
         == (if LineEnd(p) > 1 then [p[..LineEnd(p)]] else []) + SplitRows(p[LineEnd(p) + 1..] + q)
  {
    var j := LineEnd(p);
    LineEndIsFirstNewline(p);
    LineEndUnique(p + q, j);
    assert (p + q)[..j] == p[..j];
    assert (p + q)[j + 1..] == p[j + 1..] + q;
  }

  /** Splitting is compositional at line boundaries: the rows of p + q, where p
      is empty or ends in a newline, are the rows of p followed by those of q.
      With RowsOfLine and RowsOfTail this determines SplitRows on every text. */
  lemma {:induction false} RowsOfConcat(p: string, q: string)
    requires p == [] || p[|p| - 1] == '\n'
    ensures SplitRows(p + q) == SplitRows(p) + SplitRows(q)
    decreases |p|
  {
    if p == [] {
      assert p + q == q;
    } else {
      RestEndsInNewline(p);
      RowsOfConcat(p[LineEnd(p) + 1..], q);
      RowsOfConcatStep(p, q);
    }
  }

  /** In a text that ends in a newline the first line ends before the end, and
      what follows it ends in a newline too. */
  lemma RestEndsInNewline(p: string)
    requires p != [] && p[|p| - 1] == '\n'
    ensures LineEnd(p) < |p|
    ensures var rest := p[LineEnd(p) + 1..]; rest == [] || rest[|rest| - 1] == '\n'
  {
    LineEndIsFirstNewline(p);
    var rest := p[LineEnd(p) + 1..];
    assert rest == [] || rest[|rest| - 1] == p[|p| - 1];
  }

  /** The inductive step of RowsOfConcat: split off the first line of p. */
  lemma RowsOfConcatStep(p: string, q: string)
    requires LineEnd(p) < |p|
    requires SplitRows(p[LineEnd(p) + 1..] + q) == SplitRows(p[LineEnd(p) + 1..]) + SplitRows(q)
    ensures SplitRows(p + q) == SplitRows(p) + SplitRows(q)
  {
    var j := LineEnd(p);
    var rest := p[j + 1..];
    var head := if j > 1 then [p[..j]] else [];
    calc {
      SplitRows(p + q);
    == { RowsAfterFirstLine(p, q); }
      head + SplitRows(rest + q);
    ==
      (head + SplitRows(rest)) + SplitRows(q);
    == { RowsAtFirstNewline(p); }
      SplitRows(p) + SplitRows(q);
    }
  }

  /** `FillRows` meets a newline at `right`: the line from `left` is closed. */
  lemma RowsAdvance(text: string, left: nat, right: nat)
    requires left <= right < |text| && text[right] == '\n'
    requires left == 0 || text[left - 1] == '\n'
    requires forall k :: left <= k < right ==> text[k] != '\n'
    ensures SplitRows(text[..right + 1])
            == SplitRows(text[..left]) + (if right - left > 1 then [text[left..right]] else [])
  {
    LineBoundary(text, left, right);
    RowsStep(text[..left], text[left..right]);
  }

  /** `FillRows` at the end of the text: the unterminated last line is closed. */
  lemma RowsEnd(text: string, left: nat)
    requires left <= |text|
    requires left == 0 || text[left - 1] == '\n'
    requires forall k :: left <= k < |text| ==> text[k] != '\n'
    ensures SplitRows(text) == SplitRows(text[..left]) + (if left < |text| then [text[left..]] else [])
  {
    LineBoundary(text, left, |text|);
    RowsFinish(text[..left], text[left..]);
  }

  /** The cursors of `FillRows` cut s into a part that ends a line and a line without newline. */
  lemma LineBoundary(s: string, left: nat, right: nat)
    requires left <= right <= |s|
    requires left == 0 || s[left - 1] == '\n'
    requires forall k :: left <= k < right ==> s[k] != '\n'
    ensures s[..left] == [] || s[..left][left - 1] == '\n'
    ensures NoNewline(s[left..right])
    ensures right == |s| ==> s[..left] + s[left..right] == s
    ensures right < |s| && s[right] == '\n' ==> s[..left] + s[left..right] + ['\n'] == s[..right + 1]
  {
    forall k | 0 <= k < right - left ensures s[left..right][k] != '\n' {
      assert s[left..right][k] == s[left + k];
    }
  }

  /** Every row is a non-empty piece of one line. */
  lemma {:induction false} RowsAreLines(text: string)
    ensures forall r :: r in SplitRows(text) ==> |r| > 0 && NoNewline(r)
    decreases |text|
  {
    var j := LineEnd(text);
    LineEndIsFirstNewline(text);
    if j < |text| {
      RowsAreLines(text[j + 1..]);
    }
  }

  /** r occurs in text at position i. */
  predicate OccursAt(text: string, r: string, i: nat) {
    i + |r| <= |text| && text[i..i + |r|] == r
  }

  /** Every row is a piece of the text. */
  lemma {:induction false} RowsAreSubstrings(text: string)
    ensures forall r :: r in SplitRows(text) ==> exists i: nat :: OccursAt(text, r, i)
    decreases |text|
  {
    var j := LineEnd(text);
    if j < |text| {
      var rest := text[j + 1..];
      RowsAreSubstrings(rest);
      forall r | r in SplitRows(text) ensures exists i: nat :: OccursAt(text, r, i) {
        if j > 1 && r == text[..j] {
          assert OccursAt(text, r, 0);
        } else {
          assert r in SplitRows(rest);
          var i: nat :| OccursAt(rest, r, i);
          assert rest[i..i + |r|] == text[j + 1 + i..j + 1 + i + |r|];
          assert OccursAt(text, r, j + 1 + i);
        }
      }
    } else if |text| > 0 {
      assert OccursAt(text, text, 0);
    }
  }

  /** One step of the row scanner: a newline closes the line before it. */
  lemma RowsStep(p: string, line: string)
    requires p == [] || p[|p| - 1] == '\n'
    requires NoNewline(line)
    ensures SplitRows(p + line + ['\n']) == SplitRows(p) + (if |line| > 1 then [line] else [])
  {
    assert p + line + ['\n'] == p + (line + ['\n']);
    RowsOfConcat(p, line + ['\n']);
    RowsOfLine(line);
  }

  /** The row scanner's last step: the text after the last newline. */
  lemma RowsFinish(p: string, tail: string)
    requires p == [] || p[|p| - 1] == '\n'
    requires NoNewline(tail)
    ensures SplitRows(p + tail) == SplitRows(p) + (if |tail| > 0 then [tail] else [])
  {
    RowsOfConcat(p, tail);
    RowsOfTail(tail);
  }

  // ---------------------------------------------------------------- words

  /** The words of a string: its maximal runs of letters, in order. */
  function Words(s: string): seq<string>
    decreases |s|
  {
    var j := RunEnd(s);
    if j == |s| then (if |s| > 0 then [s] else [])
    else (if j > 0 then [s[..j]] else []) + Words(s[j + 1..])
  }

  /** A run of letters is one word, unless it is empty. */
  lemma WordsOfRun(run: string)
    requires AllAlpha(run)
    ensures Words(run) == if |run| > 0 then [run] else []
  {
    RunEndUnique(run, |run|);
  }

  /** A run of letters closed by a separator is one word, unless it is empty. */
  lemma WordsOfRunAndSeparator(run: string, c: char)
    requires AllAlpha(run) && !IsAlpha(c)
    ensures Words(run + [c]) == if |run| > 0 then [run] else []
  {
    var s := run + [c];
    RunEndUnique(s, |run|);
    assert s[..|run|] == run;
    assert s[|run| + 1..] == [];
  }

  /** When p has a separator, p + q continues after p's first run of letters as p does. */
  lemma WordsAfterFirstRun(p: string, q: string)
    requires RunEnd(p) < |p|
    ensures Words(p + q)
         == (if RunEnd(p) > 0 then [p[..RunEnd(p)]] else []) + Words(p[RunEnd(p) + 1..] + q)
  {
    var j := RunEnd(p);
    RunEndIsFirstSeparator(p);
    RunEndUnique(p + q, j);
    assert (p + q)[..j] == p[..j];
    assert (p + q)[j + 1..] == p[j + 1..] + q;
  }

  /** Tokenising is compositional at separators.  With WordsOfRun and
      WordsOfRunAndSeparator this determines Words on every string. */
  lemma {:induction false} WordsOfConcat(p: string, q: string)
    requires p == [] || !IsAlpha(p[|p| - 1])
    ensures Words(p + q) == Words(p) + Words(q)
    decreases |p|
  {
    if p == [] {
      assert p + q == q;
    } else {
      RestEndsInSeparator(p);
      WordsOfConcat(p[RunEnd(p) + 1..], q);
      WordsOfConcatStep(p, q);
    }
  }

  /** In a string that ends in a separator the first run ends before the end,
      and what follows its separator ends in a separator too. */
  lemma RestEndsInSeparator(p: string)
    requires p != [] && !IsAlpha(p[|p| - 1])
    ensures RunEnd(p) < |p|
    ensures var rest := p[RunEnd(p) + 1..]; rest == [] || !IsAlpha(rest[|rest| - 1])
  {
    RunEndIsFirstSeparator(p);
    var rest := p[RunEnd(p) + 1..];
    assert rest == [] || rest[|rest| - 1] == p[|p| - 1];
  }

  /** The inductive step of WordsOfConcat: split off the first run of p. */
  lemma WordsOfConcatStep(p: string, q: string)
    requires RunEnd(p) < |p|
    requires Words(p[RunEnd(p) + 1..] + q) == Words(p[RunEnd(p) + 1..]) + Words(q)
    ensures Words(p + q) == Words(p) + Words(q)
  {
    var j := RunEnd(p);
    var rest := p[j + 1..];
    var head := if j > 0 then [p[..j]] else [];
    calc {
      Words(p + q);
    == { WordsAfterFirstRun(p, q); }
      head + Words(rest + q);
    ==
      (head + Words(rest)) + Words(q);
    == { WordsAtFirstSeparator(p); }
      Words(p) + Words(q);
    }
  }

  /** A word scanner meets a separator at `right`: the run from `left` is closed. */
  lemma WordsAdvance(s: string, left: nat, right: nat)
    requires left <= right < |s| && !IsAlpha(s[right])
    requires left == 0 || !IsAlpha(s[left - 1])
    requires forall k :: left <= k < right ==> IsAlpha(s[k])
    ensures Words(s[..right + 1]) == Words(s[..left]) + (if right - left > 0 then [s[left..right]] else [])
  {
    RunBoundary(s, left, right);
    WordsStep(s[..left], s[left..right], s[right]);
  }

  /** A word scanner at the end of the string: the last run is closed. */
  lemma WordsEnd(s: string, left: nat)
    requires left <= |s|
    requires left == 0 || !IsAlpha(s[left - 1])
    requires forall k :: left <= k < |s| ==> IsAlpha(s[k])
    ensures Words(s) == Words(s[..left]) + (if left < |s| then [s[left..]] else [])
  {
    RunBoundary(s, left, |s|);
    WordsFinish(s[..left], s[left..]);
  }

  /** The cursors of a word scanner cut s into a part that ends in a separator and a run of letters. */
  lemma RunBoundary(s: string, left: nat, right: nat)
    requires left <= right <= |s|
    requires left == 0 || !IsAlpha(s[left - 1])
    requires forall k :: left <= k < right ==> IsAlpha(s[k])
    ensures s[..left] == [] || !IsAlpha(s[..left][left - 1])
    ensures AllAlpha(s[left..right])
    ensures right == |s| ==> s[..left] + s[left..right] == s
    ensures right < |s| ==> s[..left] + s[left..right] + [s[right]] == s[..right + 1]
  {
    forall k | 0 <= k < right - left ensures IsAlpha(s[left..right][k]) {
      assert s[left..right][k] == s[left + k];
    }
  }

  /** Every word is a non-empty run of letters. */
  lemma {:induction false} WordsAreRuns(s: string)
    ensures forall w :: w in Words(s) ==> |w| > 0 && AllAlpha(w)
    decreases |s|
  {
    var j := RunEnd(s);
    RunEndIsFirstSeparator(s);
    if j < |s| {
      WordsAreRuns(s[j + 1..]);
    }
  }

  /** w occurs in s at position i as a maximal run: no letter right before or right after it. */
  predicate MaximalAt(s: string, w: string, i: nat) {
    && OccursAt(s, w, i)
    && (i == 0 || !IsAlpha(s[i - 1]))
    && (i + |w| == |s| || !IsAlpha(s[i + |w|]))
  }

  /** Every word is a maximal run of letters of the string. */
  lemma {:induction false} WordsAreMaximalRuns(s: string)
    ensures forall w :: w in Words(s) ==> exists i: nat :: MaximalAt(s, w, i)
    decreases |s|
  {
    var j := RunEnd(s);
    RunEndIsFirstSeparator(s);
    if j < |s| {
      var rest := s[j + 1..];
      WordsAreMaximalRuns(rest);
      forall w | w in Words(s) ensures exists i: nat :: MaximalAt(s, w, i) {
        if j > 0 && w == s[..j] {
          assert MaximalAt(s, w, 0);
        } else {
          assert w in Words(rest);
          var i: nat :| MaximalAt(rest, w, i);
          MaximalAtShift(s, j, w, i);
        }
      }
    } else if |s| > 0 {
      assert MaximalAt(s, s, 0);
    }
  }

  /** A maximal run after a separator is a maximal run of the whole string. */
  lemma MaximalAtShift(s: string, j: nat, w: string, i: nat)
    requires j < |s| && !IsAlpha(s[j])
    requires MaximalAt(s[j + 1..], w, i)
    ensures MaximalAt(s, w, j + 1 + i)
  {
    var rest := s[j + 1..];
    assert rest[i..i + |w|] == s[j + 1 + i..j + 1 + i + |w|];
    assert i > 0 ==> rest[i - 1] == s[j + i];
    assert i + |w| < |rest| ==> rest[i + |w|] == s[j + 1 + i + |w|];
  }

  /** A string without letters has no words. */
  lemma {:induction false} NoLettersNoWords(s: string)
    requires forall i :: 0 <= i < |s| ==> !IsAlpha(s[i])
    ensures Words(s) == []
    decreases |s|
  {
    if s != [] {
      RunEndUnique(s, 0);
      NoLettersNoWords(s[1..]);
    }
  }

  function LowerAll(words: seq<string>): seq<string> {
    seq(|words|, i requires 0 <= i < |words| => LowerStr(words[i]))
  }

  /** Folding the case of a string folds the case of each of its words and
      changes nothing else. */
  lemma {:induction false} WordsOfLowerStr(s: string)
    ensures Words(LowerStr(s)) == LowerAll(Words(s))
    decreases |s|
  {
    var j := RunEnd(s);
    RunEndOfLowerStr(s);
    if j == |s| {
      assert LowerAll([s]) == [LowerStr(s)];
    } else {
      var head := if j > 0 then [s[..j]] else [];
      calc {
        Words(LowerStr(s));
      == { WordsOfLowerStrHead(s, j); }
        (if j > 0 then [LowerStr(s[..j])] else []) + Words(LowerStr(s[j + 1..]));
      == { assert LowerAll(head) == if j > 0 then [LowerStr(s[..j])] else []; }
        LowerAll(head) + Words(LowerStr(s[j + 1..]));
      == { WordsOfLowerStr(s[j + 1..]); }
        LowerAll(head) + LowerAll(Words(s[j + 1..]));
      == { LowerAllConcat(head, Words(s[j + 1..])); }
        LowerAll(Words(s));
      }
    }
  }

  lemma RunEndOfLowerStr(s: string)
    ensures RunEnd(LowerStr(s)) == RunEnd(s)
  {
    RunEndIsFirstSeparator(s);
    RunEndUnique(LowerStr(s), RunEnd(s));
  }

  lemma WordsOfLowerStrHead(s: string, j: nat)
    requires j == RunEnd(s) < |s|
    ensures Words(LowerStr(s)) == (if j > 0 then [LowerStr(s[..j])] else []) + Words(LowerStr(s[j + 1..]))
  {
    var t := LowerStr(s);
    RunEndOfLowerStr(s);
    WordsAtFirstSeparator(t);
    LowerStrSlices(s, j);
  }

  lemma WordsAtFirstSeparator(s: string)
    requires RunEnd(s) < |s|
    ensures var j := RunEnd(s); Words(s) == (if j > 0 then [s[..j]] else []) + Words(s[j + 1..])
  {
  }

  lemma LowerStrSlices(s: string, j: nat)
    requires j < |s|
    ensures LowerStr(s)[..j] == LowerStr(s[..j]) && LowerStr(s)[j + 1..] == LowerStr(s[j + 1..])
  {
  }

  lemma LowerAllConcat(a: seq<string>, b: seq<string>)
    ensures LowerAll(a + b) == LowerAll(a) + LowerAll(b)
  {
  }

  /** One step of the word scanner: a separator closes the run of letters before it. */
  lemma WordsStep(p: string, run: string, c: char)
    requires p == [] || !IsAlpha(p[|p| - 1])
    requires AllAlpha(run) && !IsAlpha(c)
    ensures Words(p + run + [c]) == Words(p) + (if |run| > 0 then [run] else [])
  {
    assert p + run + [c] == p + (run + [c]);
    WordsOfConcat(p, run + [c]);
    WordsOfRunAndSeparator(run, c);
  }

  /** The word scanner's last step: the run of letters that reaches the end. */
  lemma WordsFinish(p: string, run: string)
    requires p == [] || !IsAlpha(p[|p| - 1])
    requires AllAlpha(run)
    ensures Words(p + run) == Words(p) + (if |run| > 0 then [run] else [])
  {
    WordsOfConcat(p, run);
    WordsOfRun(run);
  }

  // ---------------------------------------------------------------- counts

  /** The per-row record of `row_id_to_row_info_`: case-folded word -> count, and the number of word tokens. */
  datatype RowInfo = RowInfo(counts: map<string, nat>, total: nat)

  function Lookup(counts: map<string, nat>, key: string): nat {
    if key in counts then counts[key] else 0
  }

  /** `m.contains(word)` on a map keyed case-insensitively. */
  predicate Contains(m: map<string, nat>, word: string) {
    LowerStr(word) in m
  }

  /** `m[word] = value` on a map keyed case-insensitively. */
  function Put(m: map<string, nat>, word: string, value: nat): (r: map<string, nat>)
    ensures Contains(r, word) && r.Keys == m.Keys + {LowerStr(word)}
    ensures r[LowerStr(word)] == value
    ensures forall k :: k in m && k != LowerStr(word) ==> r[k] == m[k]
  {
    m[LowerStr(word) := value]
  }

  /** `counts[word] += 1` on a map keyed case-insensitively. */
  function AddWord(counts: map<string, nat>, word: string): map<string, nat> {
    var key := LowerStr(word);
    counts[key := Lookup(counts, key) + 1]
  }

  /** The words added one after the other, first to last. */
  function AddWords(counts: map<string, nat>, words: seq<string>): map<string, nat>
    decreases |words|
  {
    if words == [] then counts
    else AddWord(AddWords(counts, words[..|words| - 1]), words[|words| - 1])
  }

  /** Counting one more word is one more `counts[word] += 1`. */
  lemma AddWordsSnoc(counts: map<string, nat>, words: seq<string>, word: string)
    ensures AddWords(counts, words + [word]) == AddWord(AddWords(counts, words), word)
  {
    assert (words + [word])[..|words|] == words;
  }

  /** The case-folded words of a sequence, as a set. */
  function LowerSet(words: seq<string>): set<string> {
    set w | w in words :: LowerStr(w)
  }

  /** How many of the words are equal to key up to ASCII case. */
  function Occurrences(words: seq<string>, key: string): nat
    decreases |words|
  {
    if words == [] then 0
    else Occurrences(words[..|words| - 1], key) + (if LowerStr(words[|words| - 1]) == key then 1 else 0)
  }

  lemma {:induction false} OccurrencesPositive(words: seq<string>, key: string)
    ensures Occurrences(words, key) > 0 <==> key in LowerSet(words)
    decreases |words|
  {
    if words != [] {
      var init := words[..|words| - 1];
      assert words == init + [words[|words| - 1]];
      assert LowerSet(words) == LowerSet(init) + {LowerStr(words[|words| - 1])};
      OccurrencesPositive(init, key);
    }
  }

  /** Adding words adds their folded forms as keys, and each key's count grows
      by the number of words equal to it up to case. */
  lemma {:induction false} AddWordsCounts(counts: map<string, nat>, words: seq<string>)
    ensures AddWords(counts, words).Keys == counts.Keys + LowerSet(words)
    ensures forall key :: Lookup(AddWords(counts, words), key) == Lookup(counts, key) + Occurrences(words, key)
    decreases |words|
  {
    if words != [] {
      var init := words[..|words| - 1];
      assert words == init + [words[|words| - 1]];
      assert LowerSet(words) == LowerSet(init) + {LowerStr(words[|words| - 1])};
      AddWordsCounts(counts, init);
    }
  }

  /** A count map read as reals, so that its values can be summed. */
  function AsReal(counts: map<string, nat>): map<string, real> {
    map key | key in counts :: counts[key] as real
  }

  /** Each word added raises the sum of the counts by one. */
  lemma {:induction false} AddWordsTotal(counts: map<string, nat>, words: seq<string>)
    ensures SumValues(AsReal(AddWords(counts, words))) == SumValues(AsReal(counts)) + |words| as real
    decreases |words|
  {
    if words != [] {
      var before := AddWords(counts, words[..|words| - 1]);
      AddWordsTotal(counts, words[..|words| - 1]);
      var key := LowerStr(words[|words| - 1]);
      var after := AsReal(AddWord(before, words[|words| - 1]));
      SumValuesRemove(after, key);
      if key in before {
        SumValuesRemove(AsReal(before), key);
        assert after - {key} == AsReal(before) - {key};
      } else {
        assert after - {key} == AsReal(before);
      }
    }
  }

  /** No division by zero: a row that has a word has at least one word token. */
  ghost predicate WellFormed(info: RowInfo) {
    forall key :: key in info.counts ==> info.total > 0
  }

  /** The RowInfo built for a row (`FillMapOfWords` on an empty map and a zero total). */
  function InfoOf(row: string): (info: RowInfo)
    ensures WellFormed(info)
  {
    var words := Words(row);
    AddWordsCounts(map[], words);
    RowInfo(AddWords(map[], words), |words|)
  }

  /** What a row's RowInfo holds: one key per case-folded word of the row,
      mapped to how often the word occurs up to case, and a total equal to the
      number of word tokens, which is also the sum of the counts. */
  lemma InfoOfCounts(row: string)
    ensures InfoOf(row).counts.Keys == LowerSet(Words(row))
    ensures forall key :: key in InfoOf(row).counts ==> InfoOf(row).counts[key] == Occurrences(Words(row), key)
    ensures SumValues(AsReal(InfoOf(row).counts)) == InfoOf(row).total as real
  {
    var words := Words(row);
    AddWordsCounts(map[], words);
    AddWordsTotal(map[], words);
    assert AsReal(map[]) == map[];
  }

  /** The RowInfo of every row, by row id. */
  function InfosOf(rows: seq<string>): (infos: seq<RowInfo>)
    ensures |infos| == |rows|
    ensures WellFormedAll(infos)
  {
    seq(|rows|, i requires 0 <= i < |rows| => InfoOf(rows[i]))
  }

  ghost predicate WellFormedAll(infos: seq<RowInfo>) {
    forall i :: 0 <= i < |infos| ==> WellFormed(infos[i])
  }

  /** The contents of `row_id_to_row_info_` for the given rows: row id -> RowInfo of that row. */
  function IndexOf(rows: seq<string>): (index: map<nat, RowInfo>)
    ensures forall i: nat :: i in index <==> i < |rows|
    ensures forall i :: 0 <= i < |rows| ==> index[i] == InfosOf(rows)[i]
  {
    map i: nat | i < |rows| :: InfoOf(rows[i])
  }

  /** Indexing one more row adds that row's entry and changes no other. */
  lemma IndexOfSnoc(rows: seq<string>, i: nat)
    requires i < |rows|
    ensures IndexOf(rows[..i + 1]) == IndexOf(rows[..i])[i := InfoOf(rows[i])]
  {
    var before, after := IndexOf(rows[..i]), IndexOf(rows[..i + 1]);
    var updated := before[i := InfoOf(rows[i])];
    forall id: nat ensures id in after <==> id in updated {
    }
    forall id: nat | id in after ensures after[id] == updated[id] {
      if id < i {
        assert rows[..i + 1][id] == rows[..i][id];
      }
    }
  }

  /** Appending to a concatenation appends to its right-hand part. */
  lemma AppendAssoc<T>(a: seq<T>, b: seq<T>, c: seq<T>)
    ensures a + b + c == a + (b + c)
  {
  }
}
