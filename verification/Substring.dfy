/** The Knuth-Morris-Pratt search of misc/substring.h, forward and reverse. */
module Substring {

  /** The first k elements of word end at position i of text. */
  predicate Suffix<T(==)>(text: seq<T>, i: nat, word: seq<T>, k: nat) {
    && k <= i <= |text| && k <= |word|
    && (k > 0 ==> text[i - 1] == word[k - 1] && Suffix(text, i - 1, word, k - 1))
  }

  lemma {:induction false} SuffixSlice<T>(text: seq<T>, i: nat, word: seq<T>, k: nat)
    ensures Suffix(text, i, word, k) <==> k <= i <= |text| && k <= |word| && text[i - k..i] == word[..k]
  {
    if 0 < k <= i <= |text| && k <= |word| {
      SuffixSlice(text, i - 1, word, k - 1);
      assert text[i - k..i] == text[i - k..i - 1] + [text[i - 1]];
      assert word[..k] == word[..k - 1] + [word[k - 1]];
      if text[i - k..i] == word[..k] {
        assert text[i - k..i][k - 1] == word[..k][k - 1];
        assert text[i - k..i][..k - 1] == word[..k][..k - 1];
      }
    }
  }

  /** x is the longest such prefix shorter than limit. */
  ghost predicate Longest<T>(text: seq<T>, i: nat, word: seq<T>, limit: nat, x: nat) {
    x < limit && Suffix(text, i, word, x) && forall j: nat | x < j < limit :: !Suffix(text, i, word, j)
  }

  /** A proper border of the first n elements of s, and the longest one. */
  ghost predicate Border<T>(s: seq<T>, n: nat, k: nat) {
    k < n <= |s| && s[..k] == s[n - k..n]
  }

  ghost predicate LongestBorder<T>(s: seq<T>, n: nat, k: nat) {
    Border(s, n, k) && forall j: nat :: Border(s, n, j) ==> j <= k
  }

  /** What build_substring_backtrack_table promises; entry 0 has no meaning. */
  ghost predicate BacktrackTable<T>(s: seq<T>, table: seq<nat>) {
    |s| <= |table| && forall i | 1 <= i < |s| :: LongestBorder(s, i, table[i])
  }

  predicate Occurs<T(==)>(text: seq<T>, word: seq<T>, p: nat) {
    p + |word| <= |text| && text[p..p + |word|] == word
  }

  lemma {:induction false} BorderIsSuffix<T>(s: seq<T>, n: nat, k: nat)
    requires 0 < n <= |s|
    ensures LongestBorder(s, n, k) <==> Longest(s, n, s, n, k)
  {
    forall j: nat ensures Border(s, n, j) <==> j < n && Suffix(s, n, s, j) {
      SuffixSlice(s, n, s, j);
    }
    if LongestBorder(s, n, k) {
      forall j: nat | k < j < n ensures !Suffix(s, n, s, j) {
        assert !Border(s, n, j);
      }
    }
  }

  /** The shorter prefixes that end at i are the borders of a longer one that does. */
  lemma {:induction false} SuffixChain<T>(text: seq<T>, i: nat, word: seq<T>, x: nat, j: nat)
    requires Suffix(text, i, word, x) && j <= x
    ensures Suffix(text, i, word, j) <==> Suffix(word, x, word, j)
  {
    if j > 0 { SuffixChain(text, i - 1, word, x - 1, j - 1); }
  }

  /** Every longer candidate than x has been found not to go on with element i of text. */
  ghost predicate Trying<T>(text: seq<T>, i: nat, word: seq<T>, limit: nat, x: nat) {
    && i < |text| && x < limit <= |word| && Suffix(text, i, word, x)
    && forall j: nat | x < j < limit && Suffix(text, i, word, j) :: text[i] != word[j]
  }

  /** One turn of the inner loops. */
  lemma FallBack<T>(text: seq<T>, i: nat, word: seq<T>, limit: nat, x: nat, y: nat)
    requires Trying(text, i, word, limit, x) && 0 < x && text[i] != word[x] && LongestBorder(word, x, y)
    ensures y < x && Trying(text, i, word, limit, y)
  {
    BorderIsSuffix(word, x, y);
    SuffixChain(text, i, word, x, y);
    forall j: nat | y < j < limit && Suffix(text, i, word, j) ensures text[i] != word[j] {
      if j < x {
        SuffixChain(text, i, word, x, j);
      }
    }
  }

  /** What follows the inner loops: the longest prefix ending one position further. */
  lemma Advance<T>(text: seq<T>, i: nat, word: seq<T>, limit: nat, x: nat)
    requires Trying(text, i, word, limit, x) && (x == 0 || text[i] == word[x])
    ensures Longest(text, i + 1, word, limit + 1, if text[i] == word[x] then x + 1 else 0)
  {
    var x', next := if text[i] == word[x] then x + 1 else 0, i + 1;
    forall j: nat | x' < j < limit + 1 ensures !Suffix(text, next, word, j) {
    }
  }

  /** build_substring_backtrack_table. fallbacks counts the turns of the inner loop. */
  method BuildBacktrackTable<T(==)>(str: seq<T>, table: array<nat>) returns (ghost fallbacks: nat)
    requires 0 < |str| <= table.Length
    modifies table
    ensures BacktrackTable(str, table[..])
    ensures table[0] == old(table[0]) && table[|str|..] == old(table[|str|..])
    ensures fallbacks <= |str|
  {
    var x := 0;
    fallbacks := 0;
    var i := 1;
    while i < |str|
      invariant 1 <= i <= |str| && 0 <= x < i && fallbacks + x <= i
      invariant Longest(str, i, str, i, x)
      invariant forall k | 1 <= k < i :: LongestBorder(str, k, table[k])
      invariant table[0] == old(table[0]) && table[|str|..] == old(table[|str|..])
    {
      BorderIsSuffix(str, i, x);
      table[i] := x;
      while x > 0 && str[i] != str[x]
        invariant 0 <= x < i && fallbacks + x <= i && Trying(str, i, str, i, x)
        modifies {}
      {
        FallBack(str, i, str, i, x, table[x]);
        x := table[x];
        fallbacks := fallbacks + 1;
      }
      Advance(str, i, str, i, x);
      if str[i] == str[x] {
        x := x + 1;
      }
      i := i + 1;
    }
  }

  lemma SuffixOccurs<T>(text: seq<T>, i: nat, word: seq<T>)
    ensures Suffix(text, i, word, |word|) <==> |word| <= i <= |text| && Occurs(text, word, i - |word|)
  {
    SuffixSlice(text, i, word, |word|);
    assert word[..|word|] == word;
  }

  /** No occurrence ends at or before position i. */
  ghost predicate NoneBy<T>(text: seq<T>, word: seq<T>, i: nat) {
    forall p: nat | p + |word| <= i :: !Occurs(text, word, p)
  }

  lemma NoneNext<T>(text: seq<T>, word: seq<T>, i: nat)
    requires NoneBy(text, word, i) && i < |text| && !Suffix(text, i + 1, word, |word|)
    ensures NoneBy(text, word, i + 1)
  {
    SuffixOccurs(text, i + 1, word);
  }

  lemma NoneAtEnd<T>(text: seq<T>, word: seq<T>)
    requires NoneBy(text, word, |text|)
    ensures !exists p: nat :: Occurs(text, word, p)
  {
  }

  lemma LeftmostFound<T>(text: seq<T>, word: seq<T>, i: nat, q: nat)
    requires NoneBy(text, word, i) && q + |word| == i + 1 && Suffix(text, i + 1, word, |word|)
    ensures Occurs(text, word, q) && forall p: nat | p < q :: !Occurs(text, word, p)
  {
    SuffixOccurs(text, i + 1, word);
  }

  /** find_substring: the leftmost occurrence, or None exactly when there is none. */
  method FindSubstring<T(==)>(text: seq<T>, word: seq<T>, table: array<nat>)
    returns (found: bool, position: nat, ghost fallbacks: nat)
    requires 0 < |word| && BacktrackTable(word, table[..])
    ensures found <==> exists p: nat :: Occurs(text, word, p)
    ensures found ==> Occurs(text, word, position) && forall p: nat | p < position :: !Occurs(text, word, p)
    ensures fallbacks <= |text|
  {
    var x := 0;
    fallbacks, position := 0, 0;
    var i := 0;
    while i < |text|
      invariant i <= |text| && 0 <= x < |word| && fallbacks + x <= i
      invariant Longest(text, i, word, |word|, x)
      invariant NoneBy(text, word, i)
    {
      while x > 0 && text[i] != word[x]
        invariant 0 <= x < |word| && fallbacks + x <= i && Trying(text, i, word, |word|, x)
      {
        assert table[..][x] == table[x];
        FallBack(text, i, word, |word|, x, table[x]);
        x := table[x];
        fallbacks := fallbacks + 1;
      }
      Advance(text, i, word, |word|, x);
      if text[i] == word[x] {
        if x + 1 == |word| {
          position := i - x;
          LeftmostFound(text, word, i, position);
          return true, position, fallbacks;
        }
        x := x + 1;
      }
      NoneNext(text, word, i);
      i := i + 1;
    }
    NoneAtEnd(text, word);
    found := false;
  }

  // ----- from the end -----

  function Reversed<T>(s: seq<T>): (r: seq<T>)
    ensures |r| == |s| && forall i | 0 <= i < |s| :: r[i] == s[|s| - 1 - i]
  {
    if s == [] then [] else Reversed(s[1..]) + [s[0]]
  }

  lemma OccursAt<T>(text: seq<T>, word: seq<T>, p: nat)
    requires p + |word| <= |text|
    ensures Occurs(text, word, p) <==> forall k | 0 <= k < |word| :: text[p + k] == word[k]
  {
    if Occurs(text, word, p) {
      forall k | 0 <= k < |word| ensures text[p + k] == word[k] {
        assert text[p..p + |word|][k] == word[k];
      }
    }
  }

  /** An occurrence counted from the end is one counted from the start, of the reverses. */
  lemma {:induction false} OccursReversed<T>(text: seq<T>, word: seq<T>, p: nat)
    requires p + |word| <= |text|
    ensures Occurs(text, word, p) <==> Occurs(Reversed(text), Reversed(word), |text| - |word| - p)
  {
    var n, q := |word|, |text| - |word| - p;
    var t, w := Reversed(text), Reversed(word);
    OccursAt(text, word, p);
    OccursAt(t, w, q);
    if Occurs(text, word, p) {
      forall k | 0 <= k < n ensures t[q + k] == w[k] {
        assert text[p + (n - 1 - k)] == word[n - 1 - k];
      }
    }
    if Occurs(t, w, q) {
      forall k | 0 <= k < n ensures text[p + k] == word[k] {
        assert t[q + (n - 1 - k)] == w[n - 1 - k];
      }
    }
  }

  /** build_substring_backtrack_table_reverse: the table of the reversed string. */
  method BuildBacktrackTableReverse<T(==)>(str: seq<T>, table: array<nat>) returns (ghost fallbacks: nat)
    requires 0 < |str| <= table.Length
    modifies table
    ensures BacktrackTable(Reversed(str), table[..])
    ensures table[0] == old(table[0]) && table[|str|..] == old(table[|str|..])
    ensures fallbacks <= |str|
  {
    var len := |str|;
    ghost var s := Reversed(str);
    var x := 0;
    fallbacks := 0;
    var i := 1;
    while i < len
      invariant 1 <= i <= len && 0 <= x < i && fallbacks + x <= i
      invariant Longest(s, i, s, i, x)
      invariant forall k | 1 <= k < i :: LongestBorder(s, k, table[k])
      invariant table[0] == old(table[0]) && table[len..] == old(table[len..])
    {
      BorderIsSuffix(s, i, x);
      table[i] := x;
      while x > 0 && str[len - 1 - i] != str[len - 1 - x]
        invariant 0 <= x < i && fallbacks + x <= i && Trying(s, i, s, i, x)
        modifies {}
      {
        FallBack(s, i, s, i, x, table[x]);
        x := table[x];
        fallbacks := fallbacks + 1;
      }
      Advance(s, i, s, i, x);
      if str[len - 1 - i] == str[len - 1 - x] {
        x := x + 1;
      }
      i := i + 1;
    }
  }

  /** find_substring_reverse: the rightmost occurrence. */
  method FindSubstringReverse<T(==)>(text: seq<T>, word: seq<T>, table: array<nat>)
    returns (found: bool, position: nat, ghost fallbacks: nat)
    requires 0 < |word| && BacktrackTable(Reversed(word), table[..])
    ensures found <==> exists p: nat :: Occurs(text, word, p)
    ensures found ==> Occurs(text, word, position) && forall p: nat | position < p :: !Occurs(text, word, p)
    ensures fallbacks <= |text|
  {
    ghost var t, w := Reversed(text), Reversed(word);
    var n, m := |text|, |word|;
    var x := 0;
    fallbacks, position := 0, 0;
    var i := 0;
    while i < n
      invariant i <= n && 0 <= x < m && fallbacks + x <= i
      invariant Longest(t, i, w, m, x)
      invariant NoneBy(t, w, i)
    {
      while x > 0 && text[n - 1 - i] != word[m - 1 - x]
        invariant 0 <= x < m && fallbacks + x <= i && Trying(t, i, w, m, x)
      {
        assert table[..][x] == table[x];
        FallBack(t, i, w, m, x, table[x]);
        x := table[x];
        fallbacks := fallbacks + 1;
      }
      Advance(t, i, w, m, x);
      if text[n - 1 - i] == word[m - 1 - x] {
        if x + 1 == m {
          position := n - 1 - i;
          RightmostFound(text, word, i, i - x);
          return true, position, fallbacks;
        }
        x := x + 1;
      }
      NoneNext(t, w, i);
      i := i + 1;
    }
    found := false;
    NothingFound(text, word);
  }

  lemma {:induction false} RightmostFound<T>(text: seq<T>, word: seq<T>, i: nat, q: nat)
    requires NoneBy(Reversed(text), Reversed(word), i) && q + |word| == i + 1
    requires Suffix(Reversed(text), i + 1, Reversed(word), |word|)
    ensures var p := |text| - |word| - q; Occurs(text, word, p) && forall p': nat | p < p' :: !Occurs(text, word, p')
  {
    LeftmostFound(Reversed(text), Reversed(word), i, q);
    OccursReversed(text, word, |text| - |word| - q);
    forall p': nat | |text| - |word| - q < p' ensures !Occurs(text, word, p') {
      NoneAfter(text, word, i, p');
    }
  }

  lemma {:induction false} NoneAfter<T>(text: seq<T>, word: seq<T>, i: nat, p: nat)
    requires NoneBy(Reversed(text), Reversed(word), i) && |text| - p <= i
    ensures !Occurs(text, word, p)
  {
    if p + |word| <= |text| { OccursReversed(text, word, p); }
  }

  lemma {:induction false} NothingFound<T>(text: seq<T>, word: seq<T>)
    requires NoneBy(Reversed(text), Reversed(word), |text|)
    ensures !exists p: nat :: Occurs(text, word, p)
  {
    forall p: nat ensures !Occurs(text, word, p) {
      if p + |word| <= |text| { OccursReversed(text, word, p); }
    }
  }
}
