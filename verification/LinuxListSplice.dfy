/** Operations of c/src/list.h on whole lists: cutting, splicing, rotating, and deleting while walking. */
module LinuxListSplice {
  import opened LinuxList

  /**
    list_cut_position: moves the entries up to and including `entry` to `list`. A head entry cuts
    off nothing; an empty list, or a singular list with a foreign entry, is left alone.
   */
  method CutPosition(list: ListHead, head: ListHead, entry: ListHead, ghost s: seq<ListHead>, ghost k: nat)
    requires IsList(head, s) && list != head && list !in s
    requires (k <= |s| && entry == ([head] + s)[k]) || (|s| <= 1 && entry !in [head] + s)
    modifies list, head, head.next, entry, entry.next
    ensures (s == [] || entry !in [head] + s) ==> IsList(head, s) && unchanged(list)
    ensures s != [] && entry == head ==> IsList(list, []) && IsList(head, s)
    ensures s != [] && entry in s ==> IsList(list, s[..k]) && IsList(head, s[k..])
  {
    TestsAreRight(head, s);
    if IsEmpty(head) {
      return;
    }
    if IsSingular(head) && head.next != entry && head != entry {
      assert ([head] + s)[0].next == ([head] + s)[1] == s[0];
      return;
    }
    assert ([head] + s)[0].next == ([head] + s)[1] == s[0];
    if entry == head {
      InitListHead(list);
    } else {
      assert s == s[..k] + s[k..];
      CutAt(list, head, entry, s[..k], s[k..]);
    }
  }

  lemma ApartFacts(list: ListHead, head: ListHead, a: seq<ListHead>, s: seq<ListHead>)
    requires IsList(list, a) && IsList(head, s) && Disjoint([head] + s, [list] + a)
    ensures list != head && list !in a + s && head !in a && Disjoint(a, s)
  {
    ChainConcatHead(list, a);
    assert forall x | x in s :: x in [head] + s;
    assert head in [head] + s && list in [list] + a;
  }

  lemma SplicedInFront(head: ListHead, a: seq<ListHead>, s: seq<ListHead>)
    requires Ring(s + [head] + a)
    ensures IsList(head, a + s)
  {
    assert s + [head] + a == s + ([head] + a);
    RotateRing(s, [head] + a);
    assert [head] + a + s == [head] + (a + s);
  }

  lemma ChainConcatHead(list: ListHead, a: seq<ListHead>)
    requires IsList(list, a)
    ensures list !in a
  {
    if a != [] {
      ChainConcat([list], a);
      assert list in [list];
    }
  }

  /** list_splice: the entries a of `list` go to the front of head's; `list` itself keeps its old pointers. */
  method Splice(list: ListHead, head: ListHead, ghost a: seq<ListHead>, ghost s: seq<ListHead>)
    requires IsList(list, a) && IsList(head, s) && Disjoint([head] + s, [list] + a)
    modifies head, head.next, list.next, list.prev
    ensures IsList(head, a + s) && list.next == old(list.next) && list.prev == old(list.prev)
  {
    TestsAreRight(list, a);
    if !IsEmpty(list) {
      RotateRing([head], s);
      SpliceBetween(list, head, head.next, a, s + [head]);
      SplicedInFront(head, a, s);
    } else {
      assert a + s == s;
    }
  }

  /** list_splice_tail */
  method SpliceTail(list: ListHead, head: ListHead, ghost a: seq<ListHead>, ghost s: seq<ListHead>)
    requires IsList(list, a) && IsList(head, s) && Disjoint([head] + s, [list] + a)
    modifies head, head.prev, list.next, list.prev
    ensures IsList(head, s + a) && list.next == old(list.next) && list.prev == old(list.prev)
  {
    TestsAreRight(list, a);
    if !IsEmpty(list) {
      SpliceBetween(list, head.prev, head, a, [head] + s);
      assert [head] + s + a == [head] + (s + a);
    } else {
      assert s + a == s;
    }
  }

  /** list_splice_init */
  method SpliceInit(list: ListHead, head: ListHead, ghost a: seq<ListHead>, ghost s: seq<ListHead>)
    requires IsList(list, a) && IsList(head, s) && Disjoint([head] + s, [list] + a)
    modifies head, head.next, list, list.next, list.prev
    ensures IsList(head, a + s) && IsList(list, [])
  {
    TestsAreRight(list, a);
    if !IsEmpty(list) {
      ApartFacts(list, head, a, s);
      Splice(list, head, a, s);
      InitListHead(list);
    } else {
      assert a + s == s;
    }
  }

  /** list_splice_tail_init */
  method SpliceTailInit(list: ListHead, head: ListHead, ghost a: seq<ListHead>, ghost s: seq<ListHead>)
    requires IsList(list, a) && IsList(head, s) && Disjoint([head] + s, [list] + a)
    modifies head, head.prev, list, list.next, list.prev
    ensures IsList(head, s + a) && IsList(list, [])
  {
    TestsAreRight(list, a);
    if !IsEmpty(list) {
      ApartFacts(list, head, a, s);
      SpliceTail(list, head, a, s);
      InitListHead(list);
    } else {
      assert s + a == s;
    }
  }

  lemma PartsApart(list: ListHead, head: ListHead, s: seq<ListHead>, k: nat)
    requires Distinct([head] + s) && list != head && list !in s && k <= |s|
    ensures Disjoint([head] + s[k..], [list] + s[..k])
  {
    DistinctConcat([head], s);
    assert s == s[..k] + s[k..];
    DistinctConcat(s[..k], s[k..]);
    assert head in [head];
  }

  /** Cutting anywhere and splicing the part back at the head restores the list. */
  method CutThenSplice(list: ListHead, head: ListHead, entry: ListHead, ghost s: seq<ListHead>, ghost k: nat)
    requires IsList(head, s) && list != head && list !in s
    requires k <= |s| && entry == ([head] + s)[k]
    requires s == [] ==> IsList(list, [])
    modifies list, [head] + s
    ensures IsList(head, s) && IsList(list, [])
  {
    PartsApart(list, head, s, k);
    NeighboursInRing([head] + s, 0);
    NeighboursInRing([head] + s, k);
    CutPosition(list, head, entry, s, k);
    ghost var front, rest := s[..k], s[k..];
    assert s == front + rest;
    assert IsList(head, rest) && IsList(list, front);
    NeighboursInRing([head] + rest, 0);
    NeighboursInRing([list] + front, 0);
    SpliceInit(list, head, front, rest);
  }

  /** n times list_rotate_left, on the sequence of entries */
  ghost function Rotated<T>(s: seq<T>, n: nat): (t: seq<T>)
    ensures |t| == |s|
  {
    if n == 0 || s == [] then s else var t := Rotated(s, n - 1); t[1..] + [t[0]]
  }

  lemma {:induction false} RotatedIsSwap<T>(s: seq<T>, n: nat)
    requires n <= |s|
    ensures Rotated(s, n) == s[n..] + s[..n]
    ensures n == |s| ==> Rotated(s, n) == s
  {
    if n > 0 {
      RotatedIsSwap(s, n - 1);
    }
  }

  method RotateTimes(head: ListHead, n: nat, ghost s: seq<ListHead>)
    requires IsList(head, s)
    modifies [head] + s
    ensures IsList(head, Rotated(s, n))
    ensures n == |s| ==> IsList(head, s)
  {
    for i := 0 to n
      invariant IsList(head, Rotated(s, i))
      invariant forall x | x in Rotated(s, i) :: x in s
    {
      ghost var t := Rotated(s, i);
      assert forall x | x in [head] + t :: x in [head] + s;
      NeighboursInRing([head] + t, 0);
      if t != [] {
        assert ([head] + t)[1] == t[0];
        NeighboursInRing([head] + t, 1);
      }
      RotateLeft(head, t);
      assert Rotated(s, i + 1) == if t == [] then t else t[1..] + [t[0]];
    }
    if n == |s| {
      RotatedIsSwap(s, n);
    }
  }

  /** The elements of s that pass (or, with pass == false, fail) the test, in order. */
  function Select<T>(s: seq<T>, test: T -> bool, pass: bool): seq<T> {
    if s == [] then [] else
    Select(s[..|s| - 1], test, pass) + if test(s[|s| - 1]) == pass then [s[|s| - 1]] else []
  }

  lemma SelectStep<T>(s: seq<T>, test: T -> bool, pass: bool, k: nat)
    requires k < |s|
    ensures Select(s[..k + 1], test, pass) == Select(s[..k], test, pass) + if test(s[k]) == pass then [s[k]] else []
  {
    assert s[..k + 1][..k] == s[..k];
  }

  lemma {:induction false} SelectSelects<T>(s: seq<T>, test: T -> bool, pass: bool)
    ensures forall x | x in s :: x in Select(s, test, pass) <==> test(x) == pass
    ensures forall x | x in Select(s, test, pass) :: x in s
  {
    if s != [] {
      SelectSelects(s[..|s| - 1], test, pass);
      assert s == s[..|s| - 1] + [s[|s| - 1]];
    }
  }

  /** What the ring looks like when the walk has come to entry k: the kept ones, then the rest. */
  ghost function Remaining(s: seq<ListHead>, doomed: ListHead -> bool, k: nat): (t: seq<ListHead>)
    requires k <= |s|
  {
    Select(s[..k], doomed, false) + s[k..]
  }

  /** The place of the cursor in the ring [head] + Remaining(s, doomed, k). */
  ghost function Cursor(s: seq<ListHead>, doomed: ListHead -> bool, k: nat): nat
    requires k <= |s|
  {
    |Select(s[..k], doomed, false)| + 1
  }

  lemma CursorParts(head: ListHead, kept: seq<ListHead>, x: ListHead, rest: seq<ListHead>)
    ensures var r, i := [head] + (kept + ([x] + rest)), |kept| + 1;
            && |r| == i + 1 + |rest| && r[i] == x && (rest != [] ==> r[i + 1] == rest[0])
            && Without(r, i) == [head] + (kept + rest) && [head] + (kept + [x] + rest) == r
  {
  }

  /** One step of the walk, as sequences: deleting at the cursor exactly the doomed entry. */
  lemma CursorStep(head: ListHead, s: seq<ListHead>, doomed: ListHead -> bool, k: nat)
    requires k < |s|
    ensures var r, i := [head] + Remaining(s, doomed, k), Cursor(s, doomed, k);
            && |r| == i + |s| - k && r[i] == s[k] && (k + 1 < |s| ==> r[i + 1] == s[k + 1])
            && [head] + Remaining(s, doomed, k + 1) == if doomed(s[k]) then Without(r, i) else r
  {
    SelectStep(s, doomed, false, k);
    assert s[k..] == [s[k]] + s[k + 1..];
    CursorParts(head, Select(s[..k], doomed, false), s[k], s[k + 1..]);
  }

  lemma RemainingSubset(head: ListHead, s: seq<ListHead>, doomed: ListHead -> bool, k: nat)
    requires k <= |s|
    ensures forall x | x in [head] + Remaining(s, doomed, k) :: x in [head] + s
  {
    SelectSelects(s[..k], doomed, false);
    assert forall x | x in s :: x in [head] + s;
  }

  /** One step of the walk, as pointers. */
  lemma NodeInRing(r: seq<ListHead>, i: nat)
    requires Ring(r) && 0 < i < |r|
    ensures r[i] != r[0] && r[i].next == r[if i + 1 < |r| then i + 1 else 0]
    ensures r[i].prev in r && r[i].next in r
  {
    NeighboursInRing(r, i);
  }

  /** Where the walk stands before entry k (or back at the head). */
  ghost function Position(head: ListHead, s: seq<ListHead>, k: nat): ListHead {
    if k < |s| then s[k] else head
  }

  lemma FirstEntry(head: ListHead, s: seq<ListHead>, doomed: ListHead -> bool)
    requires IsList(head, s)
    ensures head.next == Position(head, s, 0) && Remaining(s, doomed, 0) == s
  {
    assert s != [] ==> ([head] + s)[0].next == ([head] + s)[1];
  }

  lemma CursorPointers(head: ListHead, s: seq<ListHead>, doomed: ListHead -> bool, k: nat)
    requires k < |s| && IsList(head, Remaining(s, doomed, k))
    ensures s[k] != head && s[k].next == Position(head, s, k + 1)
    ensures s[k] in [head] + s && s[k].prev in [head] + s && s[k].next in [head] + s
    ensures s[..k + 1] == s[..k] + [s[k]]
  {
    SelectStep(s, doomed, true, k);
    CursorStep(head, s, doomed, k);
    NodeInRing([head] + Remaining(s, doomed, k), Cursor(s, doomed, k));
    RemainingSubset(head, s, doomed, k);
  }

  lemma WalkEnds(head: ListHead, s: seq<ListHead>, doomed: ListHead -> bool, k: nat)
    requires k <= |s| && IsList(head, Remaining(s, doomed, k)) && Position(head, s, k) == head
    ensures k == |s| && s[..k] == s && Remaining(s, doomed, k) == Select(s, doomed, false)
  {
    if k < |s| {
      CursorPointers(head, s, doomed, k);
    }
  }

  /** The loop body of the walk. */
  method VisitEntry(entry: ListHead, head: ListHead, doomed: ListHead -> bool, ghost s: seq<ListHead>, ghost k: nat)
    requires k < |s| && entry == s[k] && IsList(head, Remaining(s, doomed, k))
    modifies entry, entry.prev, entry.next
    ensures IsList(head, Remaining(s, doomed, k + 1))
  {
    CursorStep(head, s, doomed, k);
    if doomed(entry) {
      DelInit(entry, [head] + Remaining(s, doomed, k), Cursor(s, doomed, k));
    }
  }

  /**
    list_for_each_safe with list_del_init in its body, as in c/src/list_test.c: `doomed` is the
    test on the entry. The successor is read before the body runs, so the walk survives the deletion.
   */
  method DeleteWhileWalking(head: ListHead, doomed: ListHead -> bool, ghost s: seq<ListHead>)
    returns (ghost visited: seq<ListHead>, freed: seq<ListHead>)
    requires IsList(head, s)
    modifies [head] + s
    ensures visited == s
    ensures IsList(head, Select(s, doomed, false))
    ensures freed == Select(s, doomed, true)
  {
    visited, freed := [], [];
    ghost var k := 0;
    FirstEntry(head, s, doomed);
    var pos: ListHead := head.next;
    var n := pos.next;
    while pos != head
      invariant 0 <= k <= |s| && visited == s[..k]
      invariant pos == Position(head, s, k)
      invariant freed == Select(s[..k], doomed, true)
      invariant IsList(head, Remaining(s, doomed, k))
      invariant n == pos.next
      decreases |s| - k
    {
      CursorPointers(head, s, doomed, k);
      SelectStep(s, doomed, true, k);
      VisitEntry(pos, head, doomed, s, k);
      visited := visited + [pos];
      if doomed(pos) {
        freed := freed + [pos];
      }
      k := k + 1;
      pos := n;
      n := pos.next;
    }
    WalkEnds(head, s, doomed, k);
  }
}
