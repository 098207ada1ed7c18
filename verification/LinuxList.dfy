/**
  The intrusive circular doubly linked list of c/src/list.h. Every operation rewrites the
  `next`/`prev` fields of a few nodes; each is proved to refine an operation on the sequence of
  nodes met when walking the ring.
 */
module LinuxList {

  class ListHead {
    var next: ListHead?
    var prev: ListHead?

    constructor ()
      ensures Ring([this])
    {
      next, prev := this, this;
    }
  }

  ghost predicate Distinct<T>(r: seq<T>) {
    forall i, j | 0 <= i < j < |r| :: r[i] != r[j]
  }

  /** Consecutive, distinct nodes that point to each other; the outer two pointers are left open. */
  ghost predicate Chain(r: seq<ListHead>)
    reads r
  {
    && Distinct(r)
    && (forall i {:trigger r[i].next} | 0 <= i < |r| - 1 :: r[i].next == r[i + 1])
    && (forall i {:trigger r[i].prev} | 0 < i < |r| :: r[i].prev == r[i - 1])
  }

  ghost predicate Linked(a: ListHead, b: ListHead)
    reads a, b
  {
    a.next == b && b.prev == a
  }

  /** r lists every node of a well-formed ring once, in `next` order, from some starting node. */
  ghost predicate Ring(r: seq<ListHead>)
    reads r
  {
    r != [] && Chain(r) && Linked(r[|r| - 1], r[0])
  }

  ghost predicate Disjoint<T>(a: seq<T>, b: seq<T>) {
    forall x | x in a :: x !in b
  }

  lemma DistinctConcat<T>(a: seq<T>, b: seq<T>)
    ensures Distinct(a + b) <==> Distinct(a) && Distinct(b) && Disjoint(a, b)
  {
    var r := a + b;
    assert forall i | 0 <= i < |a| :: r[i] == a[i];
    assert forall i | 0 <= i < |b| :: r[|a| + i] == b[i];
    if Distinct(a) && Distinct(b) && Disjoint(a, b) {
      forall i, j | 0 <= i < j < |r|
        ensures r[i] != r[j]
      {
        if i < |a| <= j {
          assert r[i] in a && r[j] in b;
        }
      }
    }
  }

  lemma ChainConcat(a: seq<ListHead>, b: seq<ListHead>)
    requires a != [] && b != []
    ensures Chain(a + b) <==> Chain(a) && Chain(b) && Disjoint(a, b) && Linked(a[|a| - 1], b[0])
  {
    var r := a + b;
    DistinctConcat(a, b);
    assert forall i | 0 <= i < |a| :: r[i] == a[i];
    assert forall i | 0 <= i < |b| :: r[|a| + i] == b[i];
    if Chain(r) {
      assert r[|a| - 1].next == r[|a|];
      assert r[|a|].prev == r[|a| - 1];
      forall i | 0 <= i < |b| - 1
        ensures b[i].next == b[i + 1]
      {
        assert r[|a| + i].next == r[|a| + i + 1];
      }
      forall i | 0 < i < |b|
        ensures b[i].prev == b[i - 1]
      {
        assert r[|a| + i].prev == r[|a| + i - 1];
      }
    }
  }

  /** head is the anchor of a list that holds the entries s. */
  ghost predicate IsList(head: ListHead, s: seq<ListHead>)
    reads head, s
  {
    Ring([head] + s)
  }

  /** A ring can be read from any of its nodes. */
  lemma RotateRing(a: seq<ListHead>, b: seq<ListHead>)
    requires Ring(a + b)
    ensures Ring(b + a)
  {
    if a == [] || b == [] {
      assert a + b == b + a;
    } else {
      ChainConcat(a, b);
      ChainConcat(b, a);
    }
  }

  /** __list_add: links `new` between two neighbours. */
  method AddBetween(entry: ListHead, prev: ListHead, next: ListHead, ghost r: seq<ListHead>)
    requires Ring(r) && entry !in r && prev == r[|r| - 1] && next == r[0]
    modifies entry, prev, next
    ensures Ring(r + [entry])
  {
    next.prev := entry;
    entry.next := next;
    entry.prev := prev;
    prev.next := entry;
    ChainConcat(r, [entry]);
  }

  /** list_add: behind the head, as for a stack. */
  method Add(entry: ListHead, head: ListHead, ghost s: seq<ListHead>)
    requires IsList(head, s) && entry != head && entry !in s
    modifies entry, head, head.next
    ensures IsList(head, [entry] + s)
  {
    RotateRing([head], s);
    AddBetween(entry, head, head.next, s + [head]);
    assert s + [head] + [entry] == s + [head, entry];
    RotateRing(s, [head, entry]);
    assert [head, entry] + s == [head] + ([entry] + s);
  }

  /** list_add_tail: before the head, as for a queue. */
  method AddTail(entry: ListHead, head: ListHead, ghost s: seq<ListHead>)
    requires IsList(head, s) && entry != head && entry !in s
    modifies entry, head, head.prev
    ensures IsList(head, s + [entry])
  {
    AddBetween(entry, head.prev, head, [head] + s);
    assert [head] + s + [entry] == [head] + (s + [entry]);
  }

  /** The two assignments of __list_del, which __list_splice and __list_cut_position repeat: the end
      of chain a is joined to the start of chain b, or (a == b) one chain is closed to a ring. */
  method Link(prev: ListHead, next: ListHead, ghost a: seq<ListHead>, ghost b: seq<ListHead>)
    requires a != [] && b != [] && prev == a[|a| - 1] && next == b[0]
    requires Chain(a) && Chain(b) && (a == b || Disjoint(a, b))
    modifies prev`next, next`prev
    ensures Linked(prev, next)
    ensures if a == b then Ring(a) else Chain(a + b)
  {
    assert prev in a && next in b;
    next.prev := prev;
    prev.next := next;
    if a != b {
      assert Chain(a) && Chain(b);
      ChainConcat(a, b);
    }
  }

  /** What is left of a ring when its last node goes is a chain between that node's neighbours. */
  lemma RingInit(r: seq<ListHead>, entry: ListHead)
    requires Ring(r + [entry])
    ensures Chain(r) && entry !in r
    ensures r != [] ==> entry.prev == r[|r| - 1] && entry.next == r[0]
    ensures r == [] ==> entry.prev == entry == entry.next
  {
    if r != [] {
      ChainConcat(r, [entry]);
    } else {
      assert r + [entry] == [entry];
    }
  }

  /** __list_del_entry */
  method Unlink(entry: ListHead, ghost r: seq<ListHead>, ghost k: nat)
    requires Ring(r) && k < |r| && entry == r[k]
    modifies entry.prev`next, entry.next`prev
    ensures |r| > 1 ==> Ring(Without(r, k)) && entry !in Without(r, k)
    ensures |r| > 1 ==> entry.next == old(entry.next) && entry.prev == old(entry.prev)
    ensures |r| == 1 ==> Ring([entry])
    ensures Linked(old(entry.prev), old(entry.next))
  {
    ghost var m := r[k + 1..] + r[..k];
    RingEndingAt(r, k);
    RingInit(m, entry);
    ghost var rest := if m == [] then [entry] else m;
    Link(entry.prev, entry.next, rest, rest);
    if m != [] {
      RotateRing(r[k + 1..], r[..k]);
    }
  }

  /** INIT_LIST_HEAD */
  method InitListHead(list: ListHead)
    modifies list
    ensures Ring([list])
  {
    list.next := list;
    list.prev := list;
  }

  /** s without its element k */
  function Without<T>(s: seq<T>, k: nat): (t: seq<T>)
    requires k < |s|
  {
    s[..k] + s[k + 1..]
  }

  /** A ring with its element k brought to the end. */
  lemma RingEndingAt(r: seq<ListHead>, k: nat)
    requires k < |r| && Ring(r)
    ensures Ring(r[k + 1..] + r[..k] + [r[k]])
  {
    assert r == r[..k + 1] + r[k + 1..];
    RotateRing(r[..k + 1], r[k + 1..]);
    assert r[k + 1..] + r[..k + 1] == r[k + 1..] + r[..k] + [r[k]];
  }

  /** list_del: leaves the entry with poisoned pointers, two addresses that the program never follows. */
  method Del(entry: ListHead, poison1: ListHead?, poison2: ListHead?, ghost r: seq<ListHead>, ghost k: nat)
    requires Ring(r) && k < |r| && entry == r[k]
    modifies entry, entry.prev`next, entry.next`prev
    ensures |r| > 1 ==> Ring(Without(r, k))
    ensures entry.next == poison1 && entry.prev == poison2
  {
    Unlink(entry, r, k);
    entry.next := poison1;
    entry.prev := poison2;
  }

  /** list_del_init: leaves the entry as an empty ring of its own. */
  method DelInit(entry: ListHead, ghost r: seq<ListHead>, ghost k: nat)
    requires Ring(r) && k < |r| && entry == r[k]
    modifies entry, entry.prev`next, entry.next`prev
    ensures |r| > 1 ==> Ring(Without(r, k))
    ensures Ring([entry])
  {
    Unlink(entry, r, k);
    InitListHead(entry);
  }

  /** The inverse of RingEndingAt, with the last node replaced. */
  lemma RingReplaced(r: seq<ListHead>, k: nat, entry: ListHead)
    requires k < |r| && Ring(r[k + 1..] + r[..k] + [entry])
    ensures Ring(r[k := entry])
  {
    assert r[k + 1..] + r[..k] + [entry] == r[k + 1..] + (r[..k] + [entry]);
    RotateRing(r[k + 1..], r[..k] + [entry]);
    assert r[..k] + [entry] + r[k + 1..] == r[k := entry];
  }

  /** The assignments of list_replace, for a ring read so that `former` comes last. */
  method ReplaceLast(former: ListHead, entry: ListHead, ghost m: seq<ListHead>)
    requires Ring(m + [former]) && entry !in m && entry != former
    modifies entry, former.next, former.prev
    ensures Ring(m + [entry])
    ensures m != [] ==> unchanged(former)
  {
    if m != [] {
      ChainConcat(m, [former]);
    }
    entry.next := former.next;
    entry.next.prev := entry;
    entry.prev := former.prev;
    entry.prev.next := entry;
    if m != [] {
      ChainConcat(m, [entry]);
    }
  }

  /** list_replace: `entry` takes the place of `former`, also when `former` is alone in its ring. */
  method Replace(former: ListHead, entry: ListHead, ghost r: seq<ListHead>, ghost k: nat)
    requires Ring(r) && k < |r| && former == r[k] && entry !in r
    modifies entry, former.next, former.prev
    ensures Ring(r[k := entry])
    ensures |r| > 1 ==> unchanged(former)
  {
    RingEndingAt(r, k);
    ReplaceLast(former, entry, r[k + 1..] + r[..k]);
    RingReplaced(r, k, entry);
  }

  /** list_replace_init */
  method ReplaceInit(former: ListHead, entry: ListHead, ghost r: seq<ListHead>, ghost k: nat)
    requires Ring(r) && k < |r| && former == r[k] && entry !in r
    modifies former, entry, former.next, former.prev
    ensures Ring(r[k := entry]) && Ring([former])
  {
    Replace(former, entry, r, k);
    InitListHead(former);
  }

  /** The entries of the target list of list_move once the moved entry has left its ring. */
  ghost function Others(src: seq<ListHead>, k: nat, head: ListHead, s: seq<ListHead>): seq<ListHead> {
    if src == [head] + s && 0 < k <= |s| then Without(s, k - 1) else s
  }

  lemma NeighboursInRing(r: seq<ListHead>, k: nat)
    requires Ring(r) && k < |r|
    ensures r[k].next in r && r[k].prev in r
  {
    RingEndingAt(r, k);
    var t := r[k + 1..] + r[..k] + [r[k]];
    assert t[0] in r;
    assert |t| > 1 ==> t[|t| - 2] in r;
  }

  /** entry = src[k] may be moved to the list of head: from another ring, or within the same one. */
  ghost predicate Movable(entry: ListHead, src: seq<ListHead>, k: nat, head: ListHead, s: seq<ListHead>)
    reads src, head, s
  {
    && Ring(src) && k < |src| && entry == src[k] && IsList(head, s)
    && ((src == [head] + s && k > 0) || Disjoint(src, [head] + s))
  }

  lemma MovableFacts(entry: ListHead, src: seq<ListHead>, k: nat, head: ListHead, s: seq<ListHead>)
    requires Movable(entry, src, k, head, s)
    ensures entry !in [head] + Others(src, k, head, s)
    ensures src != [head] + s ==> entry !in Without(src, k) && Disjoint(Without(src, k), [head] + s)
    ensures src == [head] + s ==> Without(src, k) == [head] + Others(src, k, head, s)
  {
    assert src == [head] + s && k > 0 ==> Without(src, k) == [head] + Without(s, k - 1);
    forall i | 0 <= i < |Without(src, k)|
      ensures Without(src, k)[i] != entry
    {
    }
  }

  /** __list_del_entry: takes entry out of its ring before list_add puts it into a list. */
  method Detach(entry: ListHead, ghost src: seq<ListHead>, ghost k: nat, ghost head: ListHead, ghost s: seq<ListHead>)
    requires Movable(entry, src, k, head, s)
    modifies entry.prev`next, entry.next`prev
    ensures IsList(head, Others(src, k, head, s))
    ensures src != [head] + s && |src| > 1 ==> Ring(Without(src, k))
    ensures Linked(old(entry.prev), old(entry.next))
  {
    MovableFacts(entry, src, k, head, s);
    NeighboursInRing(src, k);
    Unlink(entry, src, k);
  }

  twostate lemma RingKept(w: seq<ListHead>)
    requires old(Ring(w)) && forall i | 0 <= i < |w| :: w[i].next == old(w[i].next) && w[i].prev == old(w[i].prev)
    ensures Ring(w)
  {
  }

  /** list_move: out of its ring and to the front of a list, which may be the one it was in. */
  method Move(entry: ListHead, head: ListHead, ghost src: seq<ListHead>, ghost k: nat, ghost s: seq<ListHead>)
    requires Movable(entry, src, k, head, s)
    modifies entry, entry.prev, entry.next, head, head.next
    ensures IsList(head, [entry] + Others(src, k, head, s))
    ensures src != [head] + s && |src| > 1 ==> Ring(Without(src, k))
  {
    ghost var o, w := Others(src, k, head, s), Without(src, k);
    MovableFacts(entry, src, k, head, s);
    Detach(entry, src, k, head, s);
    NeighboursInRing([head] + o, 0);
    assert src != [head] + s ==> entry !in w && head !in w && head.next !in w;
    label Detached:
    Add(entry, head, o);
    if src != [head] + s && |src| > 1 {
      RingKept@Detached(w);
    }
  }

  /** list_move_tail */
  method MoveTail(entry: ListHead, head: ListHead, ghost src: seq<ListHead>, ghost k: nat, ghost s: seq<ListHead>)
    requires Movable(entry, src, k, head, s)
    modifies entry, entry.prev, entry.next, head, head.prev
    ensures IsList(head, Others(src, k, head, s) + [entry])
    ensures src != [head] + s && |src| > 1 ==> Ring(Without(src, k))
  {
    ghost var o, w := Others(src, k, head, s), Without(src, k);
    MovableFacts(entry, src, k, head, s);
    Detach(entry, src, k, head, s);
    NeighboursInRing([head] + o, 0);
    assert src != [head] + s ==> entry !in w && head !in w && head.prev !in w;
    label Detached:
    AddTail(entry, head, o);
    if src != [head] + s && |src| > 1 {
      RingKept@Detached(w);
    }
  }

  /** list_empty */
  predicate IsEmpty(head: ListHead)
    reads head
  {
    head.next == head
  }

  /** list_empty_careful */
  predicate IsEmptyCareful(head: ListHead)
    reads head
  {
    head.next == head && head.next == head.prev
  }

  /** list_is_singular */
  predicate IsSingular(head: ListHead)
    reads head
  {
    !IsEmpty(head) && head.next == head.prev
  }

  /** list_is_last */
  predicate IsLast(list: ListHead, head: ListHead)
    reads list
  {
    list.next == head
  }

  /** On a well-formed list the pointer tests answer the questions about the sequence. */
  lemma TestsAreRight(head: ListHead, s: seq<ListHead>)
    requires IsList(head, s)
    ensures IsEmpty(head) <==> s == []
    ensures IsEmptyCareful(head) <==> s == []
    ensures IsSingular(head) <==> |s| == 1
    ensures forall k | 0 <= k < |s| :: IsLast(s[k], head) <==> k == |s| - 1
  {
    var r := [head] + s;
    assert forall k | 0 <= k < |s| :: r[k + 1] == s[k];
    assert s != [] ==> r[0].next == r[1] && r[1].prev == r[0];
    assert |s| > 1 ==> r[1] != r[|s|];
    forall k | 0 <= k < |s|
      ensures IsLast(s[k], head) <==> k == |s| - 1
    {
      assert r[k + 1] == s[k];
      if k < |s| - 1 {
        assert r[k + 1].next == r[k + 2];
        assert r[k + 2] != r[0];
      }
    }
  }

  /** list_rotate_left */
  method RotateLeft(head: ListHead, ghost s: seq<ListHead>)
    requires IsList(head, s)
    modifies head, head.next, head.prev, if s != [] then {s[0].next} else {}
    ensures IsList(head, if s == [] then s else s[1..] + [s[0]])
  {
    TestsAreRight(head, s);
    if !IsEmpty(head) {
      var first := head.next;
      ghost var r := [head] + s;
      assert r[0].next == r[1] == first && first.prev == head;
      assert Without(s, 0) == s[1..];
      MoveTail(first, head, r, 1, s);
    }
  }

  /** A chain becomes the list of a node. */
  method CloseChain(list: ListHead, first: ListHead, last: ListHead, ghost a: seq<ListHead>)
    requires Chain(a) && a != [] && first == a[0] && last == a[|a| - 1] && list !in a
    modifies list, first`prev, last`next
    ensures IsList(list, a)
  {
    Link(list, first, [list], a);
    Link(last, list, [list] + a, [list] + a);
  }

  /** A chain whose end is linked to a node becomes the list of that node. */
  method CloseFront(head: ListHead, first: ListHead, ghost b: seq<ListHead>)
    requires head !in b && first == (if b == [] then head else b[0])
    requires b != [] ==> Chain(b) && Linked(b[|b| - 1], head)
    modifies head`next, first`prev
    ensures IsList(head, b)
  {
    Link(head, first, [head], if b == [] then [head] else b);
  }

  /** __list_cut_position: a + b are the entries of head, and `last` ends a. */
  method CutAt(list: ListHead, head: ListHead, last: ListHead, ghost a: seq<ListHead>, ghost b: seq<ListHead>)
    requires IsList(head, a + b) && a != [] && last == a[|a| - 1]
    requires list != head && list !in a + b
    modifies list, head, head.next, last, last.next
    ensures IsList(list, a) && IsList(head, b)
  {
    CutParts(head, a, b);
    var newFirst := last.next;
    CloseChain(list, head.next, last, a);
    CloseFront(head, newFirst, b);
  }

  lemma CutParts(head: ListHead, a: seq<ListHead>, b: seq<ListHead>)
    requires IsList(head, a + b) && a != []
    ensures Chain(a) && Chain(b) && head !in a && head !in b && Disjoint(a, b)
    ensures head.next == a[0]
    ensures if b == [] then Linked(a[|a| - 1], head) else Linked(a[|a| - 1], b[0]) && Linked(b[|b| - 1], head)
  {
    ChainConcat([head], a + b);
    assert head in [head];
    assert [head] + (a + b) == [head] + a + b;
    if b != [] {
      ChainConcat(a, b);
    } else {
      assert a + b == a;
    }
  }

  /** __list_splice: puts the entries a of `list` between the neighbours prev and next of the ring r. */
  method SpliceBetween(list: ListHead, prev: ListHead, next: ListHead, ghost a: seq<ListHead>, ghost r: seq<ListHead>)
    requires IsList(list, a) && a != [] && Ring(r) && Disjoint(r, [list] + a)
    requires prev == r[|r| - 1] && next == r[0]
    modifies prev`next, next`prev, list.next`prev, list.prev`next
    ensures Ring(r + a) && unchanged(list)
  {
    ChainConcat([list], a);
    assert Disjoint(r, a) by {
      assert forall x | x in a :: x in [list] + a;
    }
    var first := list.next;
    var last := list.prev;
    Link(prev, first, r, a);
    Link(last, next, r + a, r + a);
  }
}
