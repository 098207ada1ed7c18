/** The Sunday search of c/src/wgrep/sunday.c: a shift table indexed by one look-ahead character. */
module Sunday {
  import opened Search
  import Kmp

  /** The characters a (signed) char can index the table with. */
  predicate IsAscii(s: string) {
    forall i | 0 <= i < |s| :: s[i] != '\0' && s[i] < 128 as char
  }

  /** How far the window moves when the character just behind it is c: up to the last place in the
      pattern where c stands, or past c if it stands nowhere. */
  function Shift(pat: string, c: char): nat {
    if pat == [] then 1
    else if pat[|pat| - 1] == c then 1
    else Shift(pat[..|pat| - 1], c) + 1
  }

  /** Shift by the rightmost place of c, declaratively. */
  lemma {:induction false} ShiftFindsLast(pat: string, c: char)
    ensures 1 <= Shift(pat, c) <= |pat| + 1
    ensures Shift(pat, c) <= |pat| ==> pat[|pat| - Shift(pat, c)] == c
    ensures forall i | |pat| - Shift(pat, c) < i < |pat| :: pat[i] != c
  {
    if pat != [] && pat[|pat| - 1] != c {
      ShiftFindsLast(pat[..|pat| - 1], c);
    }
  }

  lemma ShiftUnique(pat: string, c: char, d: int)
    requires 1 <= d <= |pat| + 1
    requires d <= |pat| ==> pat[|pat| - d] == c
    requires forall i | |pat| - d < i < |pat| :: pat[i] != c
    ensures d == Shift(pat, c)
  {
    ShiftFindsLast(pat, c);
  }

  /** The table holds the shift of every character. */
  ghost predicate IsShiftTable(step: seq<int>, pat: string) {
    |step| == 256 && forall c | 0 <= c < 256 :: step[c] == Shift(pat, c as char)
  }

  method GetStep(step: array<int>, pat: string)
    requires step.Length == 256 && IsAscii(pat)
    modifies step
    ensures IsShiftTable(step[..], pat)
  {
    for i := 0 to 256
      invariant forall c | 0 <= c < i :: step[c] == |pat| + 1
    {
      step[i] := |pat| + 1;
    }
    for i := 0 to |pat|
      invariant forall c | 0 <= c < 256 :: |pat| - i < step[c] <= |pat| + 1
      invariant forall c | 0 <= c < 256 && step[c] <= |pat| :: pat[|pat| - step[c]] == c as char
      invariant forall c, m | 0 <= c < 256 && |pat| - step[c] < m < i :: pat[m] != c as char
    {
      step[pat[i] as int] := |pat| - i;
    }
    forall c | 0 <= c < 256
      ensures step[c] == Shift(pat, c as char)
    {
      ShiftUnique(pat, c as char, step[c]);
    }
  }

  /** No shift jumps over an occurrence: every later occurrence starts at or behind the shifted window. */
  lemma ShiftSkipsNothing(text: string, pat: string, temp: nat, t: nat)
    requires temp < t && OccursAt(text, pat, t)
    ensures temp + Shift(pat, At(text, temp + |pat|)) <= t
  {
    ShiftFindsLast(pat, At(text, temp + |pat|));
    if t <= temp + |pat| && pat != [] {
      assert text[t..t + |pat|][temp + |pat| - t] == pat[temp + |pat| - t];
    }
  }

  /** How the search ends: with a return, by falling off its end, or reading behind the text's terminator. */
  datatype Outcome = Returned(r: int) | NoReturn | ReadsBehind

  /** The search from the window at i on. */
  function SearchFrom(text: string, pat: string, i: nat): (o: Outcome)
    decreases |text| - i
  {
    if i >= |text| then NoReturn
    else if OccursAt(text, pat, i) then Returned(i)
    else if i + |pat| > |text| then ReadsBehind
    else
      var next := i + Shift(pat, At(text, i + |pat|));
      ShiftFindsLast(pat, At(text, i + |pat|));
      if next + |pat| > |text| then Returned(-1) else SearchFrom(text, pat, next)
  }

  lemma {:induction false} SearchFromFinds(text: string, pat: string, i: nat)
    requires i < |text| && i + |pat| <= |text| && forall t :: OccursAt(text, pat, t) ==> i <= t
    ensures SearchFrom(text, pat, i) == Returned(Find(text, pat))
    decreases |text| - i
  {
    if OccursAt(text, pat, i) {
      FindIsLeast(text, pat, i);
    } else {
      var next := i + Shift(pat, At(text, i + |pat|));
      ShiftFindsLast(pat, At(text, i + |pat|));
      forall t | OccursAt(text, pat, t)
        ensures next <= t
      {
        ShiftSkipsNothing(text, pat, i, t);
      }
      if next + |pat| > |text| {
        FindIsLeast(text, pat, -1);
      } else {
        assert next < |text|;
        SearchFromFinds(text, pat, next);
      }
    }
  }

  /** For all strings: the search returns, and then the least occurrence or -1, if and only if the text is not
      empty and not shorter than the pattern. */
  lemma SearchReturns(text: string, pat: string)
    ensures SearchFrom(text, pat, 0) ==
            if text == [] then NoReturn else if |pat| > |text| then ReadsBehind else Returned(Find(text, pat))
    ensures SearchFrom(text, pat, 0).Returned? <==> 1 <= |text| && |pat| <= |text|
  {
    if 1 <= |text| && |pat| <= |text| {
      SearchFromFinds(text, pat, 0);
    }
  }

  /** Texts on which the search does not return: a pattern longer than the text by one, and no text at all. */
  lemma SearchFails()
    ensures SearchFrom("a", "ab", 0) == ReadsBehind && SearchFrom("", "a", 0) == NoReturn
    ensures SearchFrom("", "", 0) == NoReturn && Find("", "") == 0
  {
    SearchReturns("a", "ab");
    SearchReturns("", "a");
  }

  /** The inner loop of the search: how many characters of the pattern match at temp. It reads the text's
      terminator at most. */
  method MatchWindow(text: string, pat: string, temp: nat) returns (j: nat)
    requires IsAscii(text) && IsAscii(pat) && temp <= |text|
    ensures j <= |pat| && (j == |pat| <==> OccursAt(text, pat, temp))
    ensures j < |pat| ==> temp + j <= |text| && At(text, temp + j) != pat[j]
  {
    var i := temp;
    j := 0;
    while j < |pat|
      invariant 0 <= j <= |pat| && i == temp + j <= |text|
      invariant forall k | 0 <= k < j :: text[temp + k] == pat[k]
    {
      if At(text, i) == pat[j] {
        i := i + 1;
        j := j + 1;
        continue;
      } else {
        assert temp + |pat| <= |text| ==> text[temp..temp + |pat|][j] != pat[j];
        break;
      }
    }
  }

  /** The search, with `step` filled by get_step. */
  method SundaySearch(text: string, pat: string, step: array<int>) returns (o: Outcome)
    requires IsAscii(text) && IsAscii(pat) && IsShiftTable(step[..], pat)
    ensures o == SearchFrom(text, pat, 0)
  {
    var i := 0;
    ghost var all := SearchFrom(text, pat, i);
    while i < |text|
      invariant 0 <= i && SearchFrom(text, pat, i) == all
      decreases |text| - i
    {
      var temp := i;
      var j := MatchWindow(text, pat, temp);
      if j == |pat| {
        return Returned(temp);
      }
      if temp + |pat| > |text| {
        return ReadsBehind;
      }
      var behind := At(text, temp + |pat|);
      ShiftFindsLast(pat, behind);
      assert step[behind as int] == Shift(pat, behind);
      i := temp + step[behind as int];
      if i + |pat| > |text| {
        return Returned(-1);
      }
      assert SearchFrom(text, pat, temp) == SearchFrom(text, pat, i);
    }
    o := NoReturn;
  }

  /** On their common inputs the repository's two searches give the same answer. */
  method BothSearches(text: string, pat: string) returns (s: int, k: int)
    requires IsAscii(text) && IsAscii(pat) && 1 <= |pat| <= |text|
    ensures s == k && IsLeastOccurrence(text, pat, s)
  {
    var step := new int[256];
    GetStep(step, pat);
    var o := SundaySearch(text, pat, step);
    SearchReturns(text, pat);
    s := o.r;
    var p := pat + ['\0'];
    assert p[..|pat|] == pat;
    ghost var fallbacks, comparisons;
    k, fallbacks, comparisons := Kmp.KmpSearch(text, p, |pat|);
    FindIsLeast(text, pat, s);
  }
}
