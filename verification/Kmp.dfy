/** The Knuth-Morris-Pratt search of c/src/algorithm/kmp.c. */
module Kmp {
  import opened Search

  /** b is the length of a proper border of the prefix s[..n]: both a prefix and a suffix of it. */
  predicate Border(s: string, n: nat, b: nat) {
    b < n <= |s| && s[..b] == s[n - b..n]
  }

  /** The longest border of s[..n] that is no longer than `most`. */
  function LongestBorderUpTo(s: string, n: nat, most: nat): nat
    requires most < n <= |s|
  {
    if most == 0 || Border(s, n, most) then most else LongestBorderUpTo(s, n, most - 1)
  }

  function LongestBorder(s: string, n: nat): nat
    requires 0 < n <= |s|
  {
    LongestBorderUpTo(s, n, n - 1)
  }

  lemma {:induction false} LongestBorderUpToIsLongest(s: string, n: nat, most: nat)
    requires most < n <= |s|
    ensures Border(s, n, LongestBorderUpTo(s, n, most))
    ensures forall b: nat | Border(s, n, b) && b <= most :: b <= LongestBorderUpTo(s, n, most)
  {
    if most != 0 && !Border(s, n, most) {
      LongestBorderUpToIsLongest(s, n, most - 1);
    }
  }

  lemma LongestBorderIsLongest(s: string, n: nat)
    requires 0 < n <= |s|
    ensures Border(s, n, LongestBorder(s, n))
    ensures forall b: nat | Border(s, n, b) :: b <= LongestBorder(s, n)
  {
    LongestBorderUpToIsLongest(s, n, n - 1);
  }

  lemma LongestBorderUnique(s: string, n: nat, b: nat)
    requires 0 < n <= |s| && Border(s, n, b)
    requires forall c: nat | Border(s, n, c) :: c <= b
    ensures b == LongestBorder(s, n)
  {
    LongestBorderIsLongest(s, n);
  }

  /** pat[..m] is a suffix of text[..i]. */
  predicate SuffixMatch(text: string, i: nat, pat: string, m: nat) {
    m <= i <= |text| && m <= |pat| && text[i - m..i] == pat[..m]
  }

  lemma SuffixMatchStep(text: string, i: nat, pat: string, m: nat)
    requires i < |text| && m < |pat|
    ensures SuffixMatch(text, i + 1, pat, m + 1) <==> SuffixMatch(text, i, pat, m) && pat[m] == text[i]
  {
    if m <= i {
      assert pat[..m + 1] == pat[..m] + [pat[m]];
      assert text[i - m..i + 1] == text[i - m..i] + [text[i]];
    }
  }

  /** Below a match of length m, the shorter matches are exactly the borders of pat[..m]. */
  lemma ShorterMatchIsBorder(text: string, i: nat, pat: string, m: nat, c: nat)
    requires SuffixMatch(text, i, pat, m) && c < m
    ensures SuffixMatch(text, i, pat, c) <==> Border(pat, m, c)
  {
    assert text[i - c..i] == text[i - m..i][m - c..];
    assert pat[m - c..m] == pat[..m][m - c..];
  }

  /** A proper border is a match of the string against itself. */
  lemma BorderIsSelfMatch(s: string, n: nat, b: nat)
    requires b < n <= |s|
    ensures Border(s, n, b) <==> SuffixMatch(s, n, s, b)
  {
  }

  /** A table as get_next should leave it: entry q is the longest proper border of T[0..q], less one. */
  ghost predicate IsFailureTable(next: seq<int>, s: string) {
    |next| <= |s| && forall q | 0 <= q < |next| :: next[q] == LongestBorder(s, q + 1) - 1
  }

  lemma TableStep(table: seq<int>, s: string, k: int)
    requires IsFailureTable(table, s) && |table| < |s|
    requires k == LongestBorder(s, |table| + 1) - 1
    ensures IsFailureTable(table + [k], s)
  {
  }

  lemma TablePrefix(table: seq<int>, s: string, n: nat)
    requires IsFailureTable(table, s) && n <= |table|
    ensures IsFailureTable(table[..n], s)
  {
  }

  /** Every match longer than m (but below `limit`) has been refused by the character x. */
  ghost predicate LongerRefused(text: string, i: nat, pat: string, m: nat, limit: nat, x: char) {
    forall c: nat | m < c < limit && c < |pat| && SuffixMatch(text, i, pat, c) :: pat[c] != x
  }

  /** One fallback k = next[k] loses no candidate. */
  lemma FallbackLosesNothing(text: string, i: nat, pat: string, m: nat, limit: nat, x: char)
    requires 0 < m < |pat| && SuffixMatch(text, i, pat, m) && pat[m] != x
    requires LongerRefused(text, i, pat, m, limit, x)
    ensures LongestBorder(pat, m) < m && SuffixMatch(text, i, pat, LongestBorder(pat, m))
    ensures LongerRefused(text, i, pat, LongestBorder(pat, m), limit, x)
  {
    var b := LongestBorder(pat, m);
    LongestBorderIsLongest(pat, m);
    ShorterMatchIsBorder(text, i, pat, m, b);
    forall c: nat | b < c < limit && c < |pat| && SuffixMatch(text, i, pat, c)
      ensures pat[c] != x
    {
      if c < m {
        ShorterMatchIsBorder(text, i, pat, m, c);
      }
    }
  }

  /** Before the border of T[0..q] is searched for, the longest border of T[0..q-1] is the candidate. */
  lemma LongestPrefixBorderRefuses(s: string, q: nat)
    requires 0 < q < |s|
    ensures LongestBorder(s, q) < q && SuffixMatch(s, q, s, LongestBorder(s, q))
    ensures LongerRefused(s, q, s, LongestBorder(s, q), q, s[q])
  {
    LongestBorderIsLongest(s, q);
    forall c: nat | LongestBorder(s, q) < c < q
      ensures !SuffixMatch(s, q, s, c)
    {
      BorderIsSelfMatch(s, q, c);
    }
  }

  /** Where the search for the border of T[0..q] ends, that border is the longest one. */
  lemma NextEntryIsLongest(s: string, q: nat, m: nat)
    requires m < q < |s| && SuffixMatch(s, q, s, m)
    requires LongerRefused(s, q, s, m, q, s[q])
    requires m == 0 || s[m] == s[q]
    ensures LongestBorder(s, q + 1) == if s[m] == s[q] then m + 1 else m
  {
    var b, n := if s[m] == s[q] then m + 1 else m, q + 1;
    if s[m] == s[q] {
      SuffixMatchStep(s, q, s, m);
    }
    forall c: nat | Border(s, n, c)
      ensures c <= b
    {
      if 0 < c {
        SuffixMatchStep(s, q, s, c - 1);
      }
    }
    LongestBorderUnique(s, n, b);
  }

  /** The same, read off the table. */
  lemma FallbackByTable(table: seq<int>, text: string, i: nat, pat: string, k: nat, limit: nat, x: char)
    requires IsFailureTable(table, pat) && k < |table| && k + 1 < |pat| && pat[k + 1] != x
    requires SuffixMatch(text, i, pat, k + 1) && LongerRefused(text, i, pat, k + 1, limit, x)
    ensures -1 <= table[k] < k
    ensures SuffixMatch(text, i, pat, table[k] + 1) && LongerRefused(text, i, pat, table[k] + 1, limit, x)
  {
    FallbackLosesNothing(text, i, pat, k + 1, limit, x);
  }

  /**
    The inner loop of both get_next and KMP: fall back through the table until the character x
    (the next one of `text`, after position i) extends the match, or nothing is left of it.
    `steps` counts the assignments k = next[k], `tests` the comparisons p[k+1] != x.
   */
  method FallBack(next: array<int>, p: string, k0: int, x: char, ghost text: string, ghost i: nat, ghost limit: nat)
    returns (k: int, ghost steps: nat, ghost tests: nat)
    requires -1 <= k0 < next.Length && k0 + 1 < |p|
    requires IsFailureTable(next[..k0 + 1], p)
    requires SuffixMatch(text, i, p, k0 + 1) && LongerRefused(text, i, p, k0 + 1, limit, x)
    ensures -1 <= k <= k0 && (k > -1 ==> p[k + 1] == x)
    ensures SuffixMatch(text, i, p, k + 1) && LongerRefused(text, i, p, k + 1, limit, x)
    ensures k + steps <= k0 && tests <= steps + 1
  {
    k, steps := k0, 0;
    while k > -1 && p[k + 1] != x
      invariant -1 <= k <= k0
      invariant SuffixMatch(text, i, p, k + 1) && LongerRefused(text, i, p, k + 1, limit, x)
      invariant k + steps <= k0
    {
      FallbackByTable(next[..k0 + 1], text, i, p, k, limit, x);
      assert next[..k0 + 1][k] == next[k];
      k := next[k];
      steps := steps + 1;
    }
    tests := steps + if k > -1 then 1 else 0;
  }

  /** One turn of the loop below: the entry for the border of T[0..q]. */
  method NextEntry(next: array<int>, T: string, q: nat, k0: int)
    returns (k: int, ghost fallbacks: nat, ghost comparisons: nat)
    requires 0 < q < |T| && q <= next.Length && IsFailureTable(next[..q], T) && k0 == next[q - 1]
    ensures k == LongestBorder(T, q + 1) - 1 && -1 <= k < q && k + fallbacks <= k0 + 1
    ensures comparisons <= fallbacks + 2
  {
    LongestPrefixBorderRefuses(T, q);
    TablePrefix(next[..q], T, k0 + 1);
    assert next[..q][q - 1] == k0 && next[..q][..k0 + 1] == next[..k0 + 1];
    k, fallbacks, comparisons := FallBack(next, T, k0, T[q], T, q, q);
    NextEntryIsLongest(T, q, k + 1);
    if T[k + 1] == T[q] {
      k := k + 1;
    }
    comparisons := comparisons + 1;
  }

  /**
    Builds the failure table of T[0..len] in place; T[len], the terminator of a C string, is
    read too. `fallbacks` counts the assignments k = next[k], `comparisons` the tests of two
    pattern characters.
   */
  method GetNext(next: array<int>, T: string, len: nat) returns (ghost fallbacks: nat, ghost comparisons: nat)
    requires len < |T| && next.Length == len + 1
    modifies next
    ensures IsFailureTable(next[..], T)
    ensures fallbacks <= len && comparisons <= fallbacks + 2 * len
  {
    fallbacks, comparisons := 0, 0;
    next[0] := -1;
    var k := -1;
    LongestBorderIsLongest(T, 1);
    for q := 1 to len + 1
      invariant k == next[q - 1] && -1 <= k < q
      invariant IsFailureTable(next[..q], T)
      invariant k + 1 + fallbacks < q && comparisons <= fallbacks + 2 * (q - 1)
    {
      ghost var table := next[..q];
      ghost var steps, tests;
      k, steps, tests := NextEntry(next, T, q, k);
      fallbacks, comparisons := fallbacks + steps, comparisons + tests;
      TableStep(table, T, k);
      next[q] := k;
      assert next[..q + 1] == table + [k];
    }
  }

  /** A match of the whole pattern that ends at i is an occurrence. */
  lemma WholeMatchOccurs(text: string, i: nat, p: string, plen: nat)
    requires i <= |text| && plen <= |p|
    ensures SuffixMatch(text, i, p, plen) <==> OccursAt(text, p[..plen], i - plen)
  {
  }

  /** Nothing occurs that would end at or before position i. */
  ghost predicate NoneEndsBy(text: string, pat: string, i: int) {
    forall j :: OccursAt(text, pat, j) ==> i < j + |pat|
  }

  /** The state between two characters: m is the longest match, shorter than the pattern,
      and no occurrence has been passed. */
  ghost predicate Searching(text: string, i: nat, p: string, plen: nat, m: nat) {
    && i <= |text| && m < plen < |p| && SuffixMatch(text, i, p, m)
    && LongerRefusedAll(text, i, p, m, plen)
    && NoneEndsBy(text, p[..plen], i)
  }

  ghost predicate LongerRefusedAll(text: string, i: nat, p: string, m: nat, plen: nat) {
    forall c: nat | m < c <= plen :: !SuffixMatch(text, i, p, c)
  }

  /** One character: either the state is kept, or the whole pattern has just been matched. */
  lemma SearchStep(text: string, i: nat, p: string, plen: nat, m: nat)
    requires i < |text| && m < plen < |p| && SuffixMatch(text, i, p, m)
    requires LongerRefused(text, i, p, m, plen, text[i]) && NoneEndsBy(text, p[..plen], i)
    requires m == 0 || p[m] == text[i]
    ensures var m' := if p[m] == text[i] then m + 1 else m;
            if m' < plen then Searching(text, i + 1, p, plen, m')
            else i + 1 - plen == Find(text, p[..plen])
  {
    var n := i + 1;
    var m' := if p[m] == text[i] then m + 1 else m;
    if m' == m + 1 {
      SuffixMatchStep(text, i, p, m);
    }
    forall c: nat | m' < c <= plen
      ensures !SuffixMatch(text, n, p, c)
    {
      SuffixMatchStep(text, i, p, c - 1);
    }
    WholeMatchOccurs(text, n, p, plen);
    FindIsLeast(text, p[..plen], n - plen);
  }

  /** The state before the character at position i, and that behind it. (For an empty pattern there is only one.) */
  ghost predicate Before(text: string, i: nat, p: string, plen: nat, k: int) {
    if plen == 0 then i == 0 && k == -1 else k >= -1 && Searching(text, i, p, plen, k + 1)
  }

  ghost predicate Behind(text: string, i: nat, p: string, plen: nat, k: int)
    requires plen <= |p|
  {
    if plen == 0 then k == -1
    else if k + 1 < plen then Before(text, i + 1, p, plen, k)
    else k + 1 == plen && i + 1 - plen == Find(text, p[..plen])
  }

  /** One turn of the loop below. */
  method MatchCharacter(next: array<int>, p: string, plen: nat, text: string, i: nat, k0: int)
    returns (k: int, ghost fallbacks: nat, ghost comparisons: nat)
    requires i < |text| && plen < |p| && next.Length == plen + 1 && IsFailureTable(next[..], p)
    requires Before(text, i, p, plen, k0) && (plen == 0 ==> p[0] != text[i])
    ensures k >= -1 && Behind(text, i, p, plen, k)
    ensures k + fallbacks <= k0 + 1 && comparisons <= fallbacks + 2
  {
    TablePrefix(next[..], p, k0 + 1);
    assert next[..k0 + 1] == next[..][..k0 + 1];
    k, fallbacks, comparisons := FallBack(next, p, k0, text[i], text, i, plen);
    if plen > 0 {
      SearchStep(text, i, p, plen, k + 1);
    }
    if p[k + 1] == text[i] {
      k := k + 1;
    }
    comparisons := comparisons + 1;
  }

  /**
    The search itself. For an empty pattern the test k == plen-1 succeeds on the first
    character, so the result is 1 (or -1 on an empty text) where the least occurrence is 0.
   */
  method KmpSearch(text: string, p: string, plen: nat)
    returns (r: int, ghost fallbacks: nat, ghost comparisons: nat)
    requires plen < |p|
    requires plen == 0 ==> p[0] !in text
    ensures plen > 0 ==> r == Find(text, p[..plen])
    ensures plen == 0 ==> r == if text == [] then -1 else 1
    ensures r == Find(text, p[..plen]) <==> plen > 0
    ensures fallbacks <= plen + |text|
    ensures comparisons <= fallbacks + 2 * (plen + |text|)
  {
    var next := new int[plen + 1];
    fallbacks, comparisons := GetNext(next, p, plen);
    ghost var f0, c0 := fallbacks, comparisons;
    var k := -1;
    for i := 0 to |text|
      invariant Before(text, i, p, plen, k)
      invariant IsFailureTable(next[..], p)
      invariant k + 1 + fallbacks <= f0 + i
      invariant comparisons - c0 <= fallbacks - f0 + 2 * i
    {
      ghost var steps, tests;
      k, steps, tests := MatchCharacter(next, p, plen, text, i, k);
      fallbacks, comparisons := fallbacks + steps, comparisons + tests;
      if k == plen - 1 {
        return i - plen + 1, fallbacks, comparisons;
      }
    }
    FindIsLeast(text, p[..plen], -1);
    r := -1;
  }
}
