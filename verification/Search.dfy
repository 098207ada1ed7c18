/**
  C strings, and the naive left-to-right search that the two fast searches
  (modules Kmp and Sunday) are measured against.
 */
module Search {

  /** s[i] of a C string: position |s| holds the terminating NUL. */
  function At(s: string, i: nat): char
    requires i <= |s|
  {
    if i < |s| then s[i] else '\0'
  }

  predicate OccursAt(text: string, pat: string, i: int) {
    0 <= i && i + |pat| <= |text| && text[i..i + |pat|] == pat
  }

  /** The naive search: try every position from `from` on. */
  function FindFrom(text: string, pat: string, from: nat): int
    decreases |text| - from
  {
    if from + |pat| > |text| then -1
    else if OccursAt(text, pat, from) then from
    else FindFrom(text, pat, from + 1)
  }

  function Find(text: string, pat: string): int {
    FindFrom(text, pat, 0)
  }

  /** r is the least position where pat occurs, or -1 exactly when there is none. */
  ghost predicate IsLeastOccurrence(text: string, pat: string, r: int) {
    && (r == -1 || OccursAt(text, pat, r))
    && (forall i :: OccursAt(text, pat, i) ==> r != -1 && r <= i)
  }

  lemma {:induction false} FindFromIsLeast(text: string, pat: string, from: nat)
    ensures var r := FindFrom(text, pat, from);
            && (r == -1 || (from <= r && OccursAt(text, pat, r)))
            && (forall i | from <= i && OccursAt(text, pat, i) :: r != -1 && r <= i)
    decreases |text| - from
  {
    if from + |pat| <= |text| && !OccursAt(text, pat, from) {
      FindFromIsLeast(text, pat, from + 1);
    }
  }

  /** The naive search meets the declarative specification, and nothing else does. */
  lemma FindIsLeast(text: string, pat: string, r: int)
    ensures IsLeastOccurrence(text, pat, r) <==> r == Find(text, pat)
  {
    FindFromIsLeast(text, pat, 0);
  }
}
