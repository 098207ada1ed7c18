/**
  The byte ring buffer of c/src/base/ringbuf.c: a power-of-two array indexed through a mask by two
  free-running 32-bit counters. Each call holds the mutex, so calls are atomic here.
 */
module RingBuffer {
  import opened Bits

  /** Offset x, reduced once. */
  function Wrap(x: nat, n: nat): nat {
    if x < n then x else x - n
  }

  /** The u bytes that a ring holds from offset o on. */
  function Live(b: seq<byte>, o: nat, u: nat): (s: seq<byte>)
    requires o < |b| && u <= |b|
    ensures |s| == u
  {
    seq(u, i requires 0 <= i < u => b[Wrap(o + i, |b|)])
  }

  /** How far offset i lies behind offset p. */
  function Behind(i: nat, p: nat, n: nat): nat
    requires p < n && i < n
  {
    if i >= p then i - p else i - p + n
  }

  /** The ring after writing data at offset p and on. */
  function Written(b: seq<byte>, p: nat, data: seq<byte>): (t: seq<byte>)
    requires p < |b| && |data| <= |b|
    ensures |t| == |b|
  {
    seq(|b|, i requires 0 <= i < |b| => if Behind(i, p, |b|) < |data| then data[Behind(i, p, |b|)] else b[i])
  }

  /** Writing behind the live bytes, within the free space, appends. */
  lemma WriteAppends(b: seq<byte>, o: nat, u: nat, data: seq<byte>)
    requires o < |b| && u + |data| <= |b|
    ensures Live(Written(b, Wrap(o + u, |b|), data), o, u + |data|) == Live(b, o, u) + data
  {
    var n := |b|;
    var t := Written(b, Wrap(o + u, n), data);
    forall i | 0 <= i < u + |data|
      ensures t[Wrap(o + i, n)] == (Live(b, o, u) + data)[i]
    {
      assert Behind(Wrap(o + i, n), Wrap(o + u, n), n) == if i >= u then i - u else n - u + i;
    }
  }

  /** Advancing the offset drops the first bytes. */
  lemma AdvanceDrops(b: seq<byte>, o: nat, u: nat, g: nat)
    requires o < |b| && g <= u <= |b|
    ensures Live(b, o, g) == Live(b, o, u)[..g]
    ensures Live(b, Wrap(o + g, |b|), u - g) == Live(b, o, u)[g..]
  {
    var rest, all := Live(b, Wrap(o + g, |b|), u - g), Live(b, o, u)[g..];
    forall i | 0 <= i < u - g
      ensures rest[i] == all[i]
    {
      assert Wrap(Wrap(o + g, |b|) + i, |b|) == Wrap(o + (g + i), |b|);
    }
  }

  lemma ModWrap(x: nat, u: nat, n: nat)
    requires n > 0 && u <= n
    ensures (x + u) % n == Wrap(x % n + u, n)
  {
    var q := x / n;
    assert x == n * q + x % n;
    if x % n + u < n {
      ModUnique(x + u, n, q, x % n + u);
    } else {
      assert n * (q + 1) == n * q + n;
      ModUnique(x + u, n, q + 1, x % n + u - n);
    }
  }

  /** The place of a counter in a ring of the given size. */
  function Index(c: nat, size: nat): nat
    requires size > 0
  {
    c % size
  }

  /** For an accepted size, the mask of the source computes just that. */
  lemma MaskIsIndex(c: nat, size: nat)
    requires IsPowerOf2(size)
    ensures And(c, size - 1) == Index(c, size)
  {
    var k := OnlyPowersPass(size);
    AndMask(c, k);
  }

  /** Advancing a counter, 32-bit wrap-around included, advances its place. */
  lemma IndexAdvances(size: nat, c: uint32, u: nat)
    requires IsPowerOf2(size) && size < WORD && u <= size
    ensures Index(Add32(c, u), size) == Wrap(Index(c, size) + u, size)
  {
    assert Add32(c, u) % size == (c + u) % size by {
      var k := OnlyPowersPass(size);
      var q := WordMultiple(k);
      WrapAround(c, u);
      ModMod(c + u, size, q);
    }
    ModWrap(c, u, size);
  }

  lemma WordMultiple(k: nat) returns (q: nat)
    requires Pow2(k) < WORD
    ensures q > 0 && Pow2(k) * q == WORD
  {
    assert Pow2(8) == 256;
    Pow2Divides(8, 16);
    Pow2Divides(16, 32);
    assert Pow2(32) == WORD;
    Pow2Grows(32, k);
    Pow2Divides(k, 32);
    Pow2Positive(32 - k);
    q := Pow2(32 - k);
  }

  /** The counters of a buffer never run further apart than its size, a power of two. */
  ghost predicate ValidCounters(size: uint32, inc: uint32, outc: uint32) {
    IsPowerOf2(size) && Sub32(inc, outc) <= size && Index(outc, size) < size
  }

  /** The stored bytes, oldest first: in - out of them, read through the mask from out on. */
  ghost function Stored(b: seq<byte>, inc: uint32, outc: uint32): (s: seq<byte>)
    requires |b| < WORD && ValidCounters(|b|, inc, outc)
    ensures |s| == Sub32(inc, outc)
  {
    Live(b, Index(outc, |b|), Sub32(inc, outc))
  }

  /** Byte i of the content is where the mask puts the counter out + i. */
  lemma StoredAt(b: seq<byte>, inc: uint32, outc: uint32, i: nat)
    requires |b| < WORD && ValidCounters(|b|, inc, outc) && i < Sub32(inc, outc)
    ensures Index(Add32(outc, i), |b|) < |b|
    ensures Stored(b, inc, outc)[i] == b[Index(Add32(outc, i), |b|)]
  {
    IndexAdvances(|b|, outc, i);
  }

  lemma PutOffsets(size: uint32, inc: uint32, outc: uint32, n: nat)
    requires ValidCounters(size, inc, outc) && Sub32(inc, outc) + n <= size
    ensures Index(outc, size) < size
    ensures Index(inc, size) == Wrap(Index(outc, size) + Sub32(inc, outc), size) < size
    ensures Sub32(Add32(inc, n), outc) == Sub32(inc, outc) + n
  {
    IndexAdvances(size, outc, Sub32(inc, outc));
    assert Add32(outc, Sub32(inc, outc)) == inc;
  }

  /** Writing at the in counter and advancing it appends, over both kinds of wrap-around. */
  lemma PutAppends(b: seq<byte>, inc: uint32, outc: uint32, data: seq<byte>)
    requires |b| < WORD && ValidCounters(|b|, inc, outc) && Sub32(inc, outc) + |data| <= |b|
    ensures Index(inc, |b|) < |b| && ValidCounters(|b|, Add32(inc, |data|), outc)
    ensures Stored(Written(b, Index(inc, |b|), data), Add32(inc, |data|), outc) == Stored(b, inc, outc) + data
  {
    PutOffsets(|b|, inc, outc, |data|);
    var o, u, n := Index(outc, |b|), Sub32(inc, outc), |data|;
    var w := Written(b, Index(inc, |b|), data);
    assert Stored(b, inc, outc) == Live(b, o, u);
    assert Stored(w, Add32(inc, n), outc) == Live(w, o, u + n);
    WriteAppends(b, o, u, data);
  }

  /** Advancing the out counter drops the first bytes. */
  lemma GetDrops(b: seq<byte>, inc: uint32, outc: uint32, g: nat)
    requires |b| < WORD && ValidCounters(|b|, inc, outc) && g <= Sub32(inc, outc)
    ensures Index(outc, |b|) < |b| && ValidCounters(|b|, inc, Add32(outc, g))
    ensures Live(b, Index(outc, |b|), g) == Stored(b, inc, outc)[..g]
    ensures Stored(b, inc, Add32(outc, g)) == Stored(b, inc, outc)[g..]
  {
    var o, u := Index(outc, |b|), Sub32(inc, outc);
    IndexAdvances(|b|, outc, g);
    assert Stored(b, inc, outc) == Live(b, o, u);
    assert Stored(b, inc, Add32(outc, g)) == Live(b, Wrap(o + g, |b|), u - g);
    AdvanceDrops(b, o, u, g);
  }

  class RingBuf {
    var buffer: array<byte>
    var size: uint32
    var inCount: uint32
    var outCount: uint32

    ghost predicate Valid()
      reads this
    {
      buffer.Length == size && ValidCounters(size, inCount, outCount)
    }

    ghost function Contents(): seq<byte>
      requires Valid()
      reads this, buffer
    {
      Stored(buffer[..], inCount, outCount)
    }

    /** ringbuf_create for an accepted size; other sizes give NULL (see Create). */
    constructor (size: uint32)
      requires IsPowerOf2(size)
      ensures Valid() && fresh(buffer) && this.size == size && Contents() == []
      ensures inCount == outCount == 0
    {
      this.buffer := new byte[size](_ => 0);
      this.size := size;
      this.inCount := 0;
      this.outCount := 0;
    }

    /** ringbuf_available */
    function Available(): (free: nat)
      requires Valid()
      reads this, buffer
      ensures free == size - |Contents()|
    {
      Add32(Sub32(size, inCount), outCount)
    }

    /** The two memcpy calls of ringbuf_put. */
    method CopyIn(counter: uint32, data: seq<byte>)
      requires IsPowerOf2(size) && buffer.Length == size && |data| <= size
      modifies buffer
      ensures buffer[..] == Written(old(buffer[..]), Index(counter, size), data)
    {
      MaskIsIndex(counter, size);
      var at := And(counter, size - 1);
      var afterLen := Min(|data|, size - at);
      Memcpy(buffer, at, data, 0, afterLen);
      Memcpy(buffer, 0, data, afterLen, |data| - afterLen);
    }

    /** The two memcpy calls of ringbuf_get; the length of the first one is returned. */
    method CopyOut(counter: uint32, dst: array<byte>, len: nat) returns (afterLen: nat)
      requires IsPowerOf2(size) && buffer.Length == size && len <= size
      requires len <= dst.Length && dst != buffer
      modifies dst
      ensures dst[..len] == Live(buffer[..], Index(counter, size), len)
      ensures dst[len..] == old(dst[len..])
      ensures afterLen == Min(len, size - Index(counter, size))
    {
      MaskIsIndex(counter, size);
      var at := And(counter, size - 1);
      afterLen := Min(len, size - at);
      Memcpy(dst, 0, buffer[..], at, afterLen);
      Memcpy(dst, afterLen, buffer[..], 0, len - afterLen);
      assert forall i | 0 <= i < len :: dst[i] == buffer[Wrap(at + i, size)];
    }

    /** ringbuf_put: appends what fits. */
    method Put(buf: seq<byte>, len: uint32) returns (r: uint32)
      requires Valid() && len <= |buf|
      modifies this`inCount, buffer
      ensures Valid()
      ensures r == Min(len, size - |old(Contents())|) && inCount == Add32(old(inCount), r)
      ensures Contents() == old(Contents()) + buf[..r]
    {
      r := Min(len, Available());
      PutAppends(buffer[..], inCount, outCount, buf[..r]);
      CopyIn(inCount, buf[..r]);
      inCount := Add32(inCount, r);
    }

    /**
      ringbuf_get: copies out and removes the oldest bytes, as many as asked for and stored; the
      counters restart at zero when nothing is left. The value returned is the length of the first
      memcpy only, up to the end of the array, which is the number of bytes read exactly when the read does
      not wrap.
     */
    method Get(buf: array<byte>, len: uint32) returns (r: uint32, ghost got: nat)
      requires Valid() && len <= buf.Length && buf != buffer
      modifies this`inCount, this`outCount, buf
      ensures Valid()
      ensures got == Min(len, |old(Contents())|)
      ensures buf[..got] == old(Contents())[..got] && buf[got..] == old(buf[got..])
      ensures Contents() == old(Contents())[got..]
      ensures if Contents() == [] then inCount == outCount == 0
              else inCount == old(inCount) && outCount == Add32(old(outCount), got)
      ensures r == Min(got, size - old(Index(outCount, size)))
      ensures r == got <==> old(Index(outCount, size)) + got <= size
    {
      var getLen := Min(len, Sub32(inCount, outCount));
      GetDrops(buffer[..], inCount, outCount, getLen);
      r := CopyOut(outCount, buf, getLen);
      outCount := Add32(outCount, getLen);
      if inCount == outCount {
        inCount, outCount := 0, 0;
      }
      got := getLen;
    }
  }

  /** ringbuf_create: NULL unless the size is a power of two. */
  method Create(size: uint32) returns (rb: RingBuf?)
    ensures rb == null <==> !exists k: nat :: size == Pow2(k)
    ensures rb != null ==> fresh(rb) && fresh(rb.buffer) && rb.Valid() && rb.size == size && rb.Contents() == []
  {
    PowerOf2Test(size);
    if !IsPowerOf2(size) {
      return null;
    }
    rb := new RingBuf(size);
  }

  /** A read that wraps returns less than it reads: after four bytes in, three out and two in, a buffer of
      four hands out three more and returns one. */
  method WrappingRead(data: seq<byte>, more: seq<byte>) returns (rb: RingBuf?, r: uint32, ghost got: nat)
    requires |data| == 4 && |more| == 2
    ensures rb != null && rb.Valid() && rb.Contents() == [] && r == 1 && got == 3
  {
    PowersPass(2);
    assert Pow2(2) == 4;
    rb := new RingBuf(4);
    var buf := new byte[3];
    var p := rb.Put(data, 4);
    assert rb.inCount == 4;
    r, got := rb.Get(buf, 3);
    assert rb.outCount == 3 && |rb.Contents()| == 1;
    p := rb.Put(more, 2);
    assert |rb.Contents()| == 3 && Index(3, 4) == 3;
    r, got := rb.Get(buf, 3);
  }

  /** One call under the mutex. */
  datatype Call = PutCall(data: seq<byte>) | GetCall(len: uint32)

  /** The bytes a call accepts, the bytes it hands out, and what is stored afterwards, when c is
      stored in a bounded FIFO of the given size. */
  ghost function Accepted(c: seq<byte>, size: nat, call: Call): seq<byte>
    requires |c| <= size
  {
    if call.PutCall? then call.data[..Min(|call.data|, size - |c|)] else []
  }

  ghost function HandedOut(c: seq<byte>, call: Call): seq<byte> {
    if call.GetCall? then c[..Min(call.len, |c|)] else []
  }

  ghost function Next(c: seq<byte>, size: nat, call: Call): (c': seq<byte>)
    requires |c| <= size
    ensures |c'| <= size
    ensures HandedOut(c, call) + c' == c + Accepted(c, size, call)
  {
    if call.PutCall? then c + Accepted(c, size, call) else c[Min(call.len, |c|)..]
  }

  /** All bytes handed out by a sequence of calls, all bytes accepted, and the final content. */
  ghost function History(c: seq<byte>, size: nat, calls: seq<Call>): (h: (seq<byte>, seq<byte>, seq<byte>))
    requires |c| <= size
    decreases |calls|
  {
    if calls == [] then ([], [], c) else
    var (read, accepted, last) := History(Next(c, size, calls[0]), size, calls[1..]);
    (HandedOut(c, calls[0]) + read, Accepted(c, size, calls[0]) + accepted, last)
  }

  /** Over every interleaving: bytes read out, then bytes still stored, are the bytes put in, in order. */
  lemma {:induction false} BytesAreConserved(c: seq<byte>, size: nat, calls: seq<Call>)
    requires |c| <= size
    ensures var (read, accepted, last) := History(c, size, calls);
            read + last == c + accepted && |last| <= size
    decreases |calls|
  {
    if calls == [] {
    } else {
      var c1, h, a := Next(c, size, calls[0]), HandedOut(c, calls[0]), Accepted(c, size, calls[0]);
      BytesAreConserved(c1, size, calls[1..]);
      var (read, accepted, last) := History(c1, size, calls[1..]);
      Glue(h, read, last, c1, accepted, c, a);
    }
  }

  lemma Glue<T>(h: seq<T>, read: seq<T>, last: seq<T>, c1: seq<T>, accepted: seq<T>, c: seq<T>, a: seq<T>)
    requires read + last == c1 + accepted && h + c1 == c + a
    ensures (h + read) + last == c + (a + accepted)
  {
    assert (h + read) + last == h + (read + last);
    assert h + (c1 + accepted) == (h + c1) + accepted;
  }

  /** Any sequence of calls on a real buffer behaves as the bounded FIFO. */
  method Run(rb: RingBuf, calls: seq<Call>) returns (ghost read: seq<byte>)
    requires rb.Valid() && forall i | 0 <= i < |calls| && calls[i].PutCall? :: |calls[i].data| < WORD
    modifies rb`inCount, rb`outCount, rb.buffer
    ensures rb.Valid()
    ensures read == History(old(rb.Contents()), rb.size, calls).0
    ensures rb.Contents() == History(old(rb.Contents()), rb.size, calls).2
    decreases |calls|
  {
    if calls == [] {
      return [];
    }
    ghost var c := rb.Contents();
    ghost var first := [];
    match calls[0] {
      case PutCall(data) =>
        var r := rb.Put(data, |data|);
      case GetCall(len) =>
        var buf := new byte[len];
        var r, got := rb.Get(buf, len);
        first := buf[..got];
    }
    assert rb.Contents() == Next(c, rb.size, calls[0]);
    ghost var later := Run(rb, calls[1..]);
    read := first + later;
  }
}
