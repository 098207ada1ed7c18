/**
  The smaller circular list of c/src/base/list.c and its clients, the queue of queue.c and the
  stack of stack.c. A list_msg_t carries one more field (cmd) that no operation here reads, so
  the nodes are those of LinuxList.
 */
module BaseList {
  import opened LinuxList

  /** Only the next pointers: from every node of r to the one after it, and back to the start. */
  ghost predicate NextRing(r: seq<ListHead>)
    reads r
  {
    && r != [] && Distinct(r)
    && r[|r| - 1].next == r[0]
    && (forall i {:trigger r[i].next} | 0 <= i < |r| - 1 :: r[i].next == r[i + 1])
  }

  /** s with its elements i and j exchanged */
  function Swapped<T>(s: seq<T>, i: nat, j: nat): (t: seq<T>)
    requires i < |s| && j < |s|
  {
    s[i := s[j]][j := s[i]]
  }

  /**
    The assignments of list_swap. The next pointers come out exchanged in every alias case. The
    last assignment of the source sets the prev of the wrong node, so some prev is always wrong.
   */
  method SwapLinks(a: ListHead, b: ListHead)
    requires a != b && a.prev != null && a.next != null && b.prev != null && b.next != null
    requires a.prev.next == a == a.next.prev && b.prev.next == b == b.next.prev
    requires a.next != a && b.next != b && !(a.next == b && b.next == a)
    modifies a, b, a.prev`next, b.prev`next, a.next`prev, b.next`prev
    ensures old(a.next) == b ==>
              old(a.prev).next == b && b.next == a && a.next == old(b.next) && a.prev == a
    ensures old(b.next) == a ==>
              old(b.prev).next == a && a.next == b && b.next == old(a.next) && b.prev == b
    ensures old(a.next) != b && old(b.next) != a ==>
              && old(a.prev).next == b && b.next == old(a.next) && b.next.prev == a
              && old(b.prev).next == a && a.next == old(b.next)
  {
    a.prev.next := b;
    var tmp := a.prev;
    a.prev := b.prev;
    b.prev.next := a;
    b.prev := tmp;
    a.next.prev := b;
    tmp := a.next;
    a.next := b.next;
    b.next := tmp;
    b.next.prev := a;
  }

  /** The neighbours of entry p, and that different entries have different ones. */
  lemma EntryPointers(r: seq<ListHead>, p: nat, q: nat)
    requires Ring(r) && 0 < p < |r| && 0 < q < |r| && p != q
    ensures r[p].prev == r[p - 1] && r[p].next == (if p + 1 < |r| then r[p + 1] else r[0])
    ensures r[p - 1].next == r[p] && r[p].next.prev == r[p] && r[p].next != r[p]
    ensures r[p].next == r[q] <==> q == p + 1
  {
    assert r[p - 1].next == r[p];
    assert p + 1 < |r| ==> r[p].next == r[p + 1] && r[p + 1].prev == r[p];
    assert r[0] != r[p] && r[0] != r[q];
  }

  /** list_swap on two entries of a list. */
  method ListSwap(a: ListHead, b: ListHead, ghost head: ListHead, ghost s: seq<ListHead>, ghost i: nat, ghost j: nat)
    requires IsList(head, s) && i < |s| && j < |s| && i != j && a == s[i] && b == s[j]
    modifies a, b, a.prev, b.prev, a.next, b.next
    ensures NextRing([head] + Swapped(s, i, j))
    ensures !Ring([head] + Swapped(s, i, j))
  {
    ghost var r := [head] + s;
    ghost var p, q := i + 1, j + 1;
    ghost var t := Swapped(r, p, q);
    assert [head] + Swapped(s, i, j) == t && r[p] == a && r[q] == b;
    EntryPointers(r, p, q);
    EntryPointers(r, q, p);
    SwapLinks(a, b);
    assert NextRing(t);
    ghost var w := if q == p + 1 then q else if p == q + 1 then p else if p + 1 < |t| then p + 1 else 0;
    assert t[w].prev != if w == 0 then t[|t| - 1] else t[w - 1];
  }

  /** queue_out and stack_pop: list_del(head, head->next->next), or NULL from an empty list. */
  method TakeFirst(head: ListHead, ghost s: seq<ListHead>) returns (out: ListHead?)
    requires IsList(head, s)
    modifies head, head.next, if s != [] then {s[0].next} else {}
    ensures s == [] ==> out == null && IsList(head, s)
    ensures s != [] ==> out == s[0] && IsList(head, s[1..])
  {
    TestsAreRight(head, s);
    if IsEmpty(head) {
      return null;
    }
    ghost var r := [head] + s;
    ghost var m := r[2..] + r[..1];
    assert r[0].next == r[1] == s[0];
    RingEndingAt(r, 1);
    RingInit(m, r[1]);
    out := head.next;
    Link(head, head.next.next, m, m);
    RotateRing(r[2..], r[..1]);
    assert r[..1] + r[2..] == [head] + s[1..];
  }

  function Reverse<T>(s: seq<T>): seq<T> {
    if s == [] then [] else Reverse(s[1..]) + [s[0]]
  }

  lemma {:induction false} ReverseFromEnd<T>(s: seq<T>, k: nat)
    requires 0 < k <= |s|
    ensures Reverse(s[k - 1..]) == Reverse(s[k..]) + [s[k - 1]]
  {
    assert s[k - 1..][1..] == s[k..];
  }

  lemma BackPointer(head: ListHead, s: seq<ListHead>, k: nat)
    requires IsList(head, s) && k <= |s|
    ensures ([head] + s)[k].prev == if k > 0 then ([head] + s)[k - 1] else ([head] + s)[|s|]
    ensures k > 0 ==> s[k - 1] != head
  {
    var r := [head] + s;
    assert k > 0 ==> r[k].prev == r[k - 1] && r[k] != r[0];
  }

  /** queue_destory and destory_list: walk backwards, free every entry once, and reset the head. */
  method Destroy(head: ListHead, ghost s: seq<ListHead>) returns (freed: seq<ListHead>)
    requires IsList(head, s)
    modifies head
    ensures freed == Reverse(s) && IsList(head, [])
  {
    freed := [];
    ghost var k := |s|;
    BackPointer(head, s, 0);
    var tmp: ListHead := head.prev;
    while tmp != head
      invariant 0 <= k <= |s| && tmp == ([head] + s)[k] && IsList(head, s)
      invariant freed == Reverse(s[k..])
      decreases k
    {
      BackPointer(head, s, k);
      ReverseFromEnd(s, k);
      var del := tmp;
      tmp := tmp.prev;
      freed := freed + [del];
      k := k - 1;
    }
    BackPointer(head, s, k);
    assert s[0..] == s;
    InitListHead(head);
  }

  /** One call of a client: put an entry in, or take one out. */
  datatype Op = Put(entry: ListHead) | Take

  /** The list after one call: queue_in puts at the end, stack_push at the front; both take the first. */
  ghost function After(s: seq<ListHead>, op: Op, fifo: bool): seq<ListHead> {
    match op
    case Put(x) => if fifo then s + [x] else [x] + s
    case Take => if s == [] then s else s[1..]
  }

  /** The list after all calls. */
  ghost function Final(s: seq<ListHead>, ops: seq<Op>, fifo: bool): seq<ListHead>
    decreases |ops|
  {
    if ops == [] then s else Final(After(s, ops[0], fifo), ops[1..], fifo)
  }

  /** What the calls returned: an entry, or NULL when the list was empty. */
  ghost function Results(s: seq<ListHead>, ops: seq<Op>, fifo: bool): seq<ListHead?>
    decreases |ops|
  {
    if ops == [] then [] else
    (if ops[0].Put? then [] else [if s == [] then null else s[0]])
    + Results(After(s, ops[0], fifo), ops[1..], fifo)
  }

  /** An entry may be put in while it is not in the list. */
  ghost predicate Legal(head: ListHead, s: seq<ListHead>, ops: seq<Op>, fifo: bool)
    decreases |ops|
  {
    ops == []
    || ((ops[0].Put? ==> ops[0].entry != head && ops[0].entry !in s)
        && Legal(head, After(s, ops[0], fifo), ops[1..], fifo))
  }

  /** The entries put in, in order. */
  ghost function Puts(ops: seq<Op>): seq<ListHead> {
    if ops == [] then [] else (if ops[0].Put? then [ops[0].entry] else []) + Puts(ops[1..])
  }

  /** Any interleaving of calls on a real list returns what the sequence model returns. */
  method Run(head: ListHead, ops: seq<Op>, fifo: bool, ghost s: seq<ListHead>) returns (results: seq<ListHead?>)
    requires IsList(head, s) && Legal(head, s, ops, fifo)
    modifies Nodes(head, s, ops)
    ensures results == Results(s, ops, fifo) && IsList(head, Final(s, ops, fifo))
    decreases |ops|
  {
    results := [];
    if ops == [] {
      return;
    }
    ghost var s1 := After(s, ops[0], fifo);
    StepStaysInside(head, s, ops, fifo);
    match ops[0] {
      case Put(x) =>
        if fifo {
          AddTail(x, head, s);
        } else {
          Add(x, head, s);
        }
      case Take =>
        var out := TakeFirst(head, s);
        results := [out];
    }
    var later := Run(head, ops[1..], fifo, s1);
    results := results + later;
  }

  /** Every node a run can touch. */
  ghost function Nodes(head: ListHead, s: seq<ListHead>, ops: seq<Op>): set<ListHead> {
    {head} + (set x | x in s) + (set x | x in Puts(ops))
  }

  lemma StepStaysInside(head: ListHead, s: seq<ListHead>, ops: seq<Op>, fifo: bool)
    requires IsList(head, s) && ops != []
    ensures head.next in Nodes(head, s, ops) && head.prev in Nodes(head, s, ops)
    ensures s != [] ==> s[0].next in Nodes(head, s, ops)
    ensures ops[0].Put? ==> ops[0].entry in Nodes(head, s, ops)
    ensures Nodes(head, After(s, ops[0], fifo), ops[1..]) <= Nodes(head, s, ops)
  {
    NeighboursInRing([head] + s, 0);
    if s != [] {
      assert ([head] + s)[1] == s[0];
      NeighboursInRing([head] + s, 1);
    }
  }

  ghost function NonNull(rs: seq<ListHead?>): seq<ListHead> {
    if rs == [] then [] else (if rs[0] == null then [] else [rs[0] as ListHead]) + NonNull(rs[1..])
  }

  lemma NonNullCons(r: ListHead?, later: seq<ListHead?>)
    ensures NonNull([r] + later) == if r == null then NonNull(later) else [r as ListHead] + NonNull(later)
  {
    assert ([r] + later)[1..] == later;
  }

  lemma SameHead<T>(x: T, a: seq<T>, b: seq<T>, c: seq<T>, d: seq<T>)
    requires a + b == c + d
    ensures [x] + a + b == [x] + c + d
  {
    assert [x] + a + b == [x] + (a + b);
  }

  /** The first call of a run of the queue. */
  lemma FirstPut(s: seq<ListHead>, ops: seq<Op>)
    requires ops != [] && ops[0].Put?
    ensures var s1, rest := s + [ops[0].entry], ops[1..];
            && Results(s, ops, true) == Results(s1, rest, true) && Final(s, ops, true) == Final(s1, rest, true)
            && Puts(ops) == [ops[0].entry] + Puts(rest)
  {
  }

  lemma FirstTake(s: seq<ListHead>, ops: seq<Op>)
    requires ops != [] && ops[0].Take?
    ensures var s1, rest, r := if s == [] then s else s[1..], ops[1..], if s == [] then null else s[0];
            && Results(s, ops, true) == [r] + Results(s1, rest, true)
            && Final(s, ops, true) == Final(s1, rest, true) && Puts(ops) == Puts(rest)
  {
  }

  /** FIFO: what came out, followed by what is still inside, is what went in, in order. */
  lemma {:induction false} QueueIsFifo(s: seq<ListHead>, ops: seq<Op>)
    ensures NonNull(Results(s, ops, true)) + Final(s, ops, true) == s + Puts(ops)
    decreases |ops|
  {
    if ops == [] {
    } else if ops[0].Put? {
      FirstPut(s, ops);
      QueueIsFifo(s + [ops[0].entry], ops[1..]);
      assert s + [ops[0].entry] + Puts(ops[1..]) == s + ([ops[0].entry] + Puts(ops[1..]));
    } else {
      var s1 := if s == [] then s else s[1..];
      var later := Results(s1, ops[1..], true);
      FirstTake(s, ops);
      NonNullCons(if s == [] then null else s[0], later);
      QueueIsFifo(s1, ops[1..]);
      if s != [] {
        SameHead(s[0], NonNull(later), Final(s1, ops[1..], true), s1, Puts(ops[1..]));
        assert [s[0]] + s1 == s;
      }
    }
  }

  /** Calls that never take more than they have put in, and take all of it in the end. */
  ghost predicate Balanced(ops: seq<Op>, depth: nat) {
    if ops == [] then depth == 0
    else if ops[0].Put? then Balanced(ops[1..], depth + 1)
    else depth > 0 && Balanced(ops[1..], depth - 1)
  }

  /** LIFO: balanced calls leave what lies below untouched, and never see it. */
  lemma {:induction false} StackIsLifo(top: seq<ListHead>, below: seq<ListHead>, ops: seq<Op>)
    requires Balanced(ops, |top|)
    ensures Final(top + below, ops, false) == below
    ensures Results(top + below, ops, false) == Results(top, ops, false)
    decreases |ops|
  {
    if ops == [] {
      assert top + below == below;
    } else {
      var top1 := After(top, ops[0], false);
      assert After(top + below, ops[0], false) == top1 + below;
      StackIsLifo(top1, below, ops[1..]);
    }
  }

  lemma {:induction false} RunAppend(s: seq<ListHead>, ops: seq<Op>, op: Op, fifo: bool)
    ensures Final(s, ops + [op], fifo) == After(Final(s, ops, fifo), op, fifo)
    ensures Results(s, ops + [op], fifo) == Results(s, ops, fifo) + Results(Final(s, ops, fifo), [op], fifo)
    decreases |ops|
  {
    if ops == [] {
      assert ops + [op] == [op] && [op][1..] == [];
    } else {
      assert (ops + [op])[1..] == ops[1..] + [op];
      RunAppend(After(s, ops[0], fifo), ops[1..], op, fifo);
    }
  }

  lemma PushFirst(s: seq<ListHead>, x: ListHead, between: seq<Op>)
    ensures Final(s, [Put(x)] + between, false) == Final([x] + s, between, false)
    ensures Results(s, [Put(x)] + between, false) == Results([x] + s, between, false)
  {
    assert ([Put(x)] + between)[1..] == between;
  }

  lemma TakeLast(s: seq<ListHead>, ops: seq<Op>, x: ListHead, t: seq<ListHead>)
    requires Final(s, ops, false) == [x] + t
    ensures Final(s, ops + [Take], false) == t
    ensures Results(s, ops + [Take], false) == Results(s, ops, false) + [x]
  {
    RunAppend(s, ops, Take, false);
    OneTake(x, t);
  }

  lemma OneTake(x: ListHead, t: seq<ListHead>)
    ensures After([x] + t, Take, false) == t && Results([x] + t, [Take], false) == [x]
  {
    assert ([x] + t)[1..] == t && [Take][1..] == [];
    assert Results([x] + t, [Take], false) == [x] + Results(t, [], false);
  }

  lemma LeavesAsIs(t: seq<ListHead>, ops: seq<Op>)
    requires Balanced(ops, 0)
    ensures Final(t, ops, false) == t && Results(t, ops, false) == Results([], ops, false)
  {
    StackIsLifo([], t, ops);
    assert [] + t == t;
  }

  lemma PushAndLeave(s: seq<ListHead>, x: ListHead, between: seq<Op>, ops: seq<Op>)
    requires Balanced(between, 0) && ops == [Put(x)] + between
    ensures Final(s, ops, false) == [x] + s && Results(s, ops, false) == Results([], between, false)
  {
    PushFirst(s, x, between);
    LeavesAsIs([x] + s, between);
  }

  /** A pop returns the entry of the push it closes, whatever balanced calls lie between them. */
  lemma PopClosesPush(s: seq<ListHead>, x: ListHead, between: seq<Op>)
    requires Balanced(between, 0)
    ensures Final(s, [Put(x)] + between + [Take], false) == s
    ensures Results(s, [Put(x)] + between + [Take], false) == Results([], between, false) + [x]
  {
    var ops := [Put(x)] + between;
    PushAndLeave(s, x, between, ops);
    TakeLast(s, ops, x, s);
  }
}
