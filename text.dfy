/** Characters, ASCII case folding, and the case-insensitive order that keys
    every word map of the engine (`SearchEngine::CmpInsensitively`). */
module Text {

  /** `std::isalpha`, restricted to the ASCII letters. */
  predicate IsAlpha(c: char) {
    IsUpper(c) || 'a' <= c <= 'z'
  }

  predicate IsUpper(c: char) {
    'A' <= c <= 'Z'
  }

  /** The distance the comparator adds to an upper-case letter to fold it: `'a' - 'A'`. */
  const CaseOffset: int := 'a' as int - 'A' as int

  /** ASCII case folding of one character. */
  function Lower(c: char): char {
    if IsUpper(c) then (c as int + CaseOffset) as char else c
  }

  /** ASCII case folding of a string, character by character. */
  function LowerStr(s: string): string {
    seq(|s|, i requires 0 <= i < |s| => Lower(s[i]))
  }

  predicate AllAlpha(s: string) {
    forall i :: 0 <= i < |s| ==> IsAlpha(s[i])
  }

  /** Lexicographic order on strings, a proper prefix ordered first. */
  predicate LexLess(a: string, b: string)
    decreases |a|
  {
    if a == [] then b != []
    else if b == [] then false
    else if a[0] != b[0] then a[0] < b[0]
    else LexLess(a[1..], b[1..])
  }

  /** The order the engine's word maps are meant to be keyed by: lexicographic
      order on the case-folded words. */
  predicate InsensitiveLess(a: string, b: string) {
    LexLess(LowerStr(a), LowerStr(b))
  }

  lemma {:induction false} LexLessIrreflexive(a: string)
    ensures !LexLess(a, a)
    decreases |a|
  {
    if a != [] {
      LexLessIrreflexive(a[1..]);
    }
  }

  lemma {:induction false} LexLessTransitive(a: string, b: string, c: string)
    requires LexLess(a, b) && LexLess(b, c)
    ensures LexLess(a, c)
    decreases |a|
  {
    if a != [] && b != [] && c != [] && a[0] == b[0] && b[0] == c[0] {
      LexLessTransitive(a[1..], b[1..], c[1..]);
    }
  }

  lemma {:induction false} LexLessTotal(a: string, b: string)
    ensures a == b || LexLess(a, b) || LexLess(b, a)
    decreases |a|
  {
    if a != [] && b != [] && a[0] == b[0] {
      LexLessTotal(a[1..], b[1..]);
      if a[1..] == b[1..] {
        assert a == [a[0]] + a[1..] && b == [b[0]] + b[1..];
      }
    }
  }

  /** Two strings that agree on their first i characters compare as their tails do. */
  lemma {:induction false} LexLessFrom(a: string, b: string, i: nat)
    requires i <= |a| && i <= |b|
    requires forall j :: 0 <= j < i ==> a[j] == b[j]
    ensures LexLess(a, b) == LexLess(a[i..], b[i..])
    decreases i
  {
    if i > 0 {
      LexLessFrom(a[1..], b[1..], i - 1);
      assert a[1..][i - 1..] == a[i..];
      assert b[1..][i - 1..] == b[i..];
    }
  }

  /** The comparator is a strict weak order: irreflexive and transitive, and
      two words are equivalent (neither is less) exactly when they are equal up
      to ASCII case, which is why a word map can be keyed by the folded word. */
  lemma InsensitiveLessIsStrictWeakOrder(a: string, b: string, c: string)
    ensures !InsensitiveLess(a, a)
    ensures InsensitiveLess(a, b) && InsensitiveLess(b, c) ==> InsensitiveLess(a, c)
    ensures (!InsensitiveLess(a, b) && !InsensitiveLess(b, a)) <==> LowerStr(a) == LowerStr(b)
  {
    LexLessIrreflexive(LowerStr(a));
    LexLessTotal(LowerStr(a), LowerStr(b));
    if InsensitiveLess(a, b) && InsensitiveLess(b, c) {
      LexLessTransitive(LowerStr(a), LowerStr(b), LowerStr(c));
    }
  }

  /** Folding twice is folding once. */
  lemma LowerStrIdempotent(s: string)
    ensures LowerStr(LowerStr(s)) == LowerStr(s)
  {
  }

  /** `SearchEngine::CmpInsensitively::operator()` (search/search.cpp:5-35):
      walks both words up to the shorter length, folding whichever side is an
      upper-case letter, and falls back on the lengths.  On words made of
      letters it decides exactly InsensitiveLess. */
  method CmpInsensitively(lhv: string, rhv: string) returns (less: bool)
    ensures AllAlpha(lhv) && AllAlpha(rhv) ==> (less <==> InsensitiveLess(lhv, rhv))
  {
    var n := if |lhv| < |rhv| then |lhv| else |rhv|;
    ghost var letters := AllAlpha(lhv) && AllAlpha(rhv);
    for i := 0 to n
      invariant letters ==> forall j :: 0 <= j < i ==> Lower(lhv[j]) == Lower(rhv[j])
    {
      if IsUpper(lhv[i]) {
        if IsUpper(rhv[i]) {
          if lhv[i] != rhv[i] {
            if letters { DecidedAt(lhv, rhv, i); }
            return lhv[i] < rhv[i];
          }
          continue;
        }
        if lhv[i] as int + CaseOffset != rhv[i] as int {
          if letters { DecidedAt(lhv, rhv, i); }
          return lhv[i] as int + CaseOffset < rhv[i] as int;
        }
        continue;
      }
      if 'a' <= rhv[i] <= 'z' {
        if lhv[i] != rhv[i] {
          if letters { DecidedAt(lhv, rhv, i); }
          return lhv[i] < rhv[i];
        }
        continue;
      }
      if lhv[i] as int != rhv[i] as int + CaseOffset {
        if letters { DecidedAt(lhv, rhv, i); }
        return lhv[i] as int < rhv[i] as int + CaseOffset;
      }
    }
    if letters {
      LexLessFrom(LowerStr(lhv), LowerStr(rhv), n);
    }
    return |lhv| < |rhv|;
  }

  /** At the first position where the folded words differ, that position decides. */
  lemma DecidedAt(a: string, b: string, i: nat)
    requires i < |a| && i < |b|
    requires forall j :: 0 <= j < i ==> Lower(a[j]) == Lower(b[j])
    ensures Lower(a[i]) != Lower(b[i]) ==> (InsensitiveLess(a, b) <==> Lower(a[i]) < Lower(b[i]))
  {
    LexLessFrom(LowerStr(a), LowerStr(b), i);
  }
}
