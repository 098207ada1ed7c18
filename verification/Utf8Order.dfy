/**
  Section 1 of RFC 2279 promises that UTF-8 keeps the lexicographic order of code points, and that
  character boundaries are found from anywhere. Both are proved for the encoder over all 31-bit codes.
 */
module Utf8Order {
  import opened Utf8

  /** a and b first differ at place i, and a is the lesser there. */
  predicate LessAt(a: seq<bv8>, b: seq<bv8>, i: nat) {
    i < |a| && i < |b| && a[..i] == b[..i] && a[i] < b[i]
  }

  /** The lexicographic order of byte strings. */
  predicate Below(a: seq<bv8>, b: seq<bv8>) {
    b != [] && (a == [] || a[0] < b[0] || (a[0] == b[0] && Below(a[1..], b[1..])))
  }

  /** u comes strictly before v. (The solver is quick with <= and !=, and lost with < on 32 bits.) */
  predicate Before(u: bv32, v: bv32) {
    u <= v && u != v
  }

  /** The lexicographic order of strings whose characters are ordered by `before`. */
  predicate StringBefore<T(==)>(before: (T, T) -> bool, us: seq<T>, vs: seq<T>) {
    vs != [] && (us == [] || before(us[0], vs[0]) || (us[0] == vs[0] && StringBefore(before, us[1..], vs[1..])))
  }

  /** n bytes: a lead byte with the top bits of u, then six bits a byte. */
  function Bytes(u: bv32, n: nat, mask: bv32, mark: bv32): seq<bv8>
    requires n > 0 && mask <= 0x7F && mark <= 0xFF
  {
    if n == 1 then [Lead(u, mask, mark)] else Bytes(u >> 6, n - 1, mask, mark) + [Tail(u)]
  }

  /** What is left of u for the lead byte fits under the mask. */
  predicate Fits(u: bv32, n: nat, mask: bv32)
    requires n > 0
  {
    if n == 1 then u <= mask else Fits(u >> 6, n - 1, mask)
  }

  /** The masks and marks of the table. */
  predicate IsRow(mask: bv32, mark: bv32) {
    (mask == 0x1F && mark == 0xC0) || (mask == 0x0F && mark == 0xE0) || (mask == 0x07 && mark == 0xF0)
    || (mask == 0x03 && mark == 0xF8) || (mask == 0x01 && mark == 0xFC)
  }

  lemma LeadKeepsOrder(u: bv32, v: bv32, mask: bv32, mark: bv32)
    requires IsRow(mask, mark) && Before(u, v) && v <= mask
    ensures Lead(u, mask, mark) < Lead(v, mask, mark)
  {
  }

  lemma ShiftKeepsOrder(u: bv32, v: bv32)
    requires u <= v
    ensures u >> 6 <= v >> 6
  {
  }

  lemma TopBefore(u: bv32, v: bv32, x: bv32, y: bv32)
    requires Before(u, v) && x == u >> 6 && y == v >> 6 && x != y
    ensures Before(x, y)
  {
    ShiftKeepsOrder(u, v);
  }

  lemma LowBitsOrder(u: bv32, v: bv32)
    requires u <= v && u >> 6 == v >> 6
    ensures u & 0x3F <= v & 0x3F
  {
  }

  lemma LowBitsDiffer(u: bv32, v: bv32)
    requires u != v && u >> 6 == v >> 6
    ensures u & 0x3F != v & 0x3F
  {
  }

  lemma TailOrder(u: bv32, v: bv32)
    requires u & 0x3F <= v & 0x3F && u & 0x3F != v & 0x3F
    ensures Tail(u) < Tail(v)
  {
  }

  lemma SameTop(u: bv32, v: bv32)
    requires Before(u, v) && u >> 6 == v >> 6
    ensures Tail(u) < Tail(v)
  {
    LowBitsOrder(u, v);
    LowBitsDiffer(u, v);
    TailOrder(u, v);
  }

  lemma {:induction false} BytesLength(u: bv32, n: nat, mask: bv32, mark: bv32)
    requires n > 0 && mask <= 0x7F && mark <= 0xFF
    ensures |Bytes(u, n, mask, mark)| == n
  {
    if n > 1 {
      BytesLength(u >> 6, n - 1, mask, mark);
    }
  }

  lemma {:induction false} BytesOrder(u: bv32, v: bv32, n: nat, mask: bv32, mark: bv32) returns (i: nat)
    requires n > 0 && IsRow(mask, mark) && Before(u, v) && Fits(v, n, mask)
    ensures LessAt(Bytes(u, n, mask, mark), Bytes(v, n, mask, mark), i)
    decreases n, 1
  {
    if n == 1 {
      LeadKeepsOrder(u, v, mask, mark);
      i := 0;
    } else {
      i := OrderTop(u, v, u >> 6, v >> 6, n, mask, mark);
    }
  }

  /** BytesOrder for words x and y without their last six bits, passed by name to keep the shifts out of sight. */
  lemma {:induction false} OrderTop(u: bv32, v: bv32, x: bv32, y: bv32, n: nat, mask: bv32, mark: bv32)
    returns (i: nat)
    requires n > 1 && IsRow(mask, mark) && Before(u, v) && Fits(y, n - 1, mask)
    requires x == u >> 6 && y == v >> 6
    ensures LessAt(Bytes(u, n, mask, mark), Bytes(v, n, mask, mark), i)
    decreases n, 0
  {
    if x == y {
      SameTopBytes(u, v, x, n, mask, mark);
      i := n - 1;
    } else {
      TopBefore(u, v, x, y);
      i := BytesOrder(x, y, n - 1, mask, mark);
      SmallerTopBytes(u, v, x, y, n, mask, mark, i);
    }
  }

  lemma SmallerTopBytes(u: bv32, v: bv32, x: bv32, y: bv32, n: nat, mask: bv32, mark: bv32, i: nat)
    requires n > 1 && mask <= 0x7F && mark <= 0xFF && x == u >> 6 && y == v >> 6
    requires LessAt(Bytes(x, n - 1, mask, mark), Bytes(y, n - 1, mask, mark), i)
    ensures LessAt(Bytes(u, n, mask, mark), Bytes(v, n, mask, mark), i)
  {
    LessAtExtends(Bytes(x, n - 1, mask, mark), Bytes(y, n - 1, mask, mark), i, Tail(u), Tail(v));
  }

  lemma BytesSplit(u: bv32, x: bv32, n: nat, mask: bv32, mark: bv32)
    requires n > 1 && mask <= 0x7F && mark <= 0xFF && x == u >> 6
    ensures Bytes(u, n, mask, mark) == Bytes(x, n - 1, mask, mark) + [Tail(u)]
  {
  }

  lemma LastDiffers(a: seq<bv8>, c: bv8, d: bv8)
    requires c < d
    ensures LessAt(a + [c], a + [d], |a|)
  {
  }

  lemma SameTopBytes(u: bv32, v: bv32, x: bv32, n: nat, mask: bv32, mark: bv32)
    requires n > 1 && IsRow(mask, mark) && Before(u, v) && x == u >> 6 && x == v >> 6
    ensures LessAt(Bytes(u, n, mask, mark), Bytes(v, n, mask, mark), n - 1)
  {
    SameTop(u, v);
    BytesLength(x, n - 1, mask, mark);
    BytesSplit(u, x, n, mask, mark);
    BytesSplit(v, x, n, mask, mark);
    LastDiffers(Bytes(x, n - 1, mask, mark), Tail(u), Tail(v));
  }

  lemma LessAtExtends(a: seq<bv8>, b: seq<bv8>, i: nat, x: bv8, y: bv8)
    requires LessAt(a, b, i)
    ensures LessAt(a + [x], b + [y], i)
  {
    assert (a + [x])[..i] == a[..i] && (b + [y])[..i] == b[..i];
  }

  lemma Shifts(u: bv32)
    ensures (u >> 6) >> 6 == u >> 12 && (u >> 12) >> 6 == u >> 18
    ensures (u >> 18) >> 6 == u >> 24 && (u >> 24) >> 6 == u >> 30
  {
  }

  lemma AsBytes2(u: bv32)
    requires 0x7F < u <= 0x7FF
    ensures Encode(u) == Bytes(u, 2, 0x1F, 0xC0) && Fits(u, 2, 0x1F)
  {
    Select2(u);
    Shifts(u);
    assert Bytes(u, 2, 0x1F, 0xC0) == Bytes(u >> 6, 1, 0x1F, 0xC0) + [Tail(u)];
    assert Fits(u >> 6, 1, 0x1F);
    assert Fits(u, 2, 0x1F);
  }

  lemma AsBytes3(u: bv32)
    requires 0x7FF < u <= 0xFFFF
    ensures Encode(u) == Bytes(u, 3, 0x0F, 0xE0) && Fits(u, 3, 0x0F)
  {
    Select3(u);
    Shifts(u);
    assert Bytes(u >> 6, 2, 0x0F, 0xE0) == Bytes(u >> 12, 1, 0x0F, 0xE0) + [Tail(u >> 6)];
    assert Bytes(u, 3, 0x0F, 0xE0) == Bytes(u >> 6, 2, 0x0F, 0xE0) + [Tail(u)];
    assert Fits(u >> 12, 1, 0x0F);
    assert Fits(u >> 6, 2, 0x0F);
    assert Fits(u, 3, 0x0F);
  }

  lemma AsBytes4(u: bv32)
    requires 0xFFFF < u <= 0x1F_FFFF
    ensures Encode(u) == Bytes(u, 4, 0x07, 0xF0) && Fits(u, 4, 0x07)
  {
    Select4(u);
    Shifts(u);
    assert Bytes(u >> 12, 2, 0x07, 0xF0) == Bytes(u >> 18, 1, 0x07, 0xF0) + [Tail(u >> 12)];
    assert Bytes(u >> 6, 3, 0x07, 0xF0) == Bytes(u >> 12, 2, 0x07, 0xF0) + [Tail(u >> 6)];
    assert Bytes(u, 4, 0x07, 0xF0) == Bytes(u >> 6, 3, 0x07, 0xF0) + [Tail(u)];
    assert Fits(u >> 18, 1, 0x07);
    assert Fits(u >> 12, 2, 0x07);
    assert Fits(u >> 6, 3, 0x07);
    assert Fits(u, 4, 0x07);
  }

  lemma AsBytes5(u: bv32)
    requires 0x1F_FFFF < u <= 0x3FF_FFFF
    ensures Encode(u) == Bytes(u, 5, 0x03, 0xF8) && Fits(u, 5, 0x03)
  {
    Select5(u);
    Shifts(u);
    assert Bytes(u >> 18, 2, 0x03, 0xF8) == Bytes(u >> 24, 1, 0x03, 0xF8) + [Tail(u >> 18)];
    assert Bytes(u >> 12, 3, 0x03, 0xF8) == Bytes(u >> 18, 2, 0x03, 0xF8) + [Tail(u >> 12)];
    assert Bytes(u >> 6, 4, 0x03, 0xF8) == Bytes(u >> 12, 3, 0x03, 0xF8) + [Tail(u >> 6)];
    assert Bytes(u, 5, 0x03, 0xF8) == Bytes(u >> 6, 4, 0x03, 0xF8) + [Tail(u)];
    assert Fits(u >> 24, 1, 0x03);
    assert Fits(u >> 18, 2, 0x03);
    assert Fits(u >> 12, 3, 0x03);
    assert Fits(u >> 6, 4, 0x03);
    assert Fits(u, 5, 0x03);
  }

  lemma AsBytes6(u: bv32)
    requires 0x3FF_FFFF < u <= MAX_CODE
    ensures Encode(u) == Bytes(u, 6, 0x01, 0xFC) && Fits(u, 6, 0x01)
  {
    Select6(u);
    Shifts(u);
    assert Bytes(u >> 24, 2, 0x01, 0xFC) == Bytes(u >> 30, 1, 0x01, 0xFC) + [Tail(u >> 24)];
    assert Bytes(u >> 18, 3, 0x01, 0xFC) == Bytes(u >> 24, 2, 0x01, 0xFC) + [Tail(u >> 18)];
    assert Bytes(u >> 12, 4, 0x01, 0xFC) == Bytes(u >> 18, 3, 0x01, 0xFC) + [Tail(u >> 12)];
    assert Bytes(u >> 6, 5, 0x01, 0xFC) == Bytes(u >> 12, 4, 0x01, 0xFC) + [Tail(u >> 6)];
    assert Bytes(u, 6, 0x01, 0xFC) == Bytes(u >> 6, 5, 0x01, 0xFC) + [Tail(u)];
    assert Fits(u >> 30, 1, 0x01);
    assert Fits(u >> 24, 2, 0x01);
    assert Fits(u >> 18, 3, 0x01);
    assert Fits(u >> 12, 4, 0x01);
    assert Fits(u >> 6, 5, 0x01);
    assert Fits(u, 6, 0x01);
  }

  lemma LeadOrder(l: bv8, n: nat, k: bv8, m: nat)
    requires 1 <= n < m <= 6 && LeadFits(l, n) && LeadFits(k, m)
    ensures l < k
  {
  }

  lemma SameLength(u: bv32, v: bv32) returns (i: nat)
    requires Before(u, v) && v <= MAX_CODE && |Encode(u)| == |Encode(v)|
    ensures LessAt(Encode(u), Encode(v), i)
  {
    if v <= 0x7F {
      i := 0;
    } else if v <= 0x7FF {
      AsBytes2(u);
      AsBytes2(v);
      i := BytesOrder(u, v, 2, 0x1F, 0xC0);
    } else if v <= 0xFFFF {
      AsBytes3(u);
      AsBytes3(v);
      i := BytesOrder(u, v, 3, 0x0F, 0xE0);
    } else if v <= 0x1F_FFFF {
      AsBytes4(u);
      AsBytes4(v);
      i := BytesOrder(u, v, 4, 0x07, 0xF0);
    } else if v <= 0x3FF_FFFF {
      AsBytes5(u);
      AsBytes5(v);
      i := BytesOrder(u, v, 5, 0x03, 0xF8);
    } else {
      AsBytes6(u);
      AsBytes6(v);
      i := BytesOrder(u, v, 6, 0x01, 0xFC);
    }
  }

  /** A lesser code has an encoding that is less at the first difference, so neither is a prefix of the other. */
  lemma EncodeOrder(u: bv32, v: bv32) returns (i: nat)
    requires Before(u, v) && v <= MAX_CODE
    ensures LessAt(Encode(u), Encode(v), i)
  {
    if |Encode(u)| == |Encode(v)| {
      i := SameLength(u, v);
    } else {
      EncodeIsWellFormed(u);
      EncodeIsWellFormed(v);
      LeadOrder(Encode(u)[0], |Encode(u)|, Encode(v)[0], |Encode(v)|);
      i := 0;
    }
  }

  /** No encoding is a prefix of another one. */
  lemma PrefixFree(u: bv32, v: bv32)
    requires u <= MAX_CODE && v <= MAX_CODE && Encode(u) <= Encode(v)
    ensures u == v
  {
    if u != v {
      if u <= v {
        var i := EncodeOrder(u, v);
      } else {
        var i := EncodeOrder(v, u);
      }
    }
  }

  /** What makes a character code keep order: characters have non-empty byte strings, and of two
      different ones the earlier has the string that is less at the first difference. */
  ghost predicate KeepsOrder<T(!new)>(enc: T -> seq<bv8>, before: (T, T) -> bool, ok: T -> bool) {
    && (forall u | ok(u) :: enc(u) != [])
    && (forall u, v | ok(u) && ok(v) :: u == v || before(u, v) || before(v, u))
    && (forall u, v | ok(u) && ok(v) && before(u, v) :: !before(v, u) && exists i: nat :: LessAt(enc(u), enc(v), i))
  }

  /** The encoding of a string: one byte string after the other. */
  function Concat<T>(enc: T -> seq<bv8>, us: seq<T>): seq<bv8> {
    if us == [] then [] else enc(us[0]) + Concat(enc, us[1..])
  }

  predicate InRange(u: bv32) {
    u <= MAX_CODE
  }

  lemma Total(u: bv32, v: bv32)
    ensures u == v || Before(u, v) || Before(v, u)
  {
  }

  lemma EncodeKeepsOrder()
    ensures KeepsOrder(Encode, Before, InRange)
  {
    forall u | InRange(u)
      ensures Encode(u) != []
    {
      EncodeIsWellFormed(u);
    }
    forall u, v | InRange(u) && InRange(v)
      ensures u == v || Before(u, v) || Before(v, u)
    {
      Total(u, v);
    }
    forall u, v | InRange(u) && InRange(v) && Before(u, v)
      ensures !Before(v, u) && exists i: nat :: LessAt(Encode(u), Encode(v), i)
    {
      var i := EncodeOrder(u, v);
      if Before(v, u) {
        var k := EncodeOrder(v, u);
        NotBothLess(Encode(u), Encode(v), i, k);
      }
    }
  }

  lemma NotBothLess(a: seq<bv8>, b: seq<bv8>, i: nat, k: nat)
    requires LessAt(a, b, i)
    ensures !LessAt(b, a, k)
  {
    LessAtBelow(a, b, i);
    if LessAt(b, a, k) {
      LessAtBelow(b, a, k);
    }
  }

  lemma {:induction false} LessAtDecides(a: seq<bv8>, b: seq<bv8>, i: nat, s: seq<bv8>, t: seq<bv8>)
    requires LessAt(a, b, i)
    ensures Below(a + s, b + t) && !Below(b + t, a + s)
    ensures !(a + s <= b + t) && !(b + t <= a + s)
  {
    assert (a + s)[i] == a[i] && (b + t)[i] == b[i];
    LessAtBelow(a + s, b + t, i);
  }

  lemma {:induction false} LessAtBelow(a: seq<bv8>, b: seq<bv8>, i: nat)
    requires i < |a| && i < |b| && a[..i] == b[..i] && a[i] < b[i]
    ensures Below(a, b) && !Below(b, a)
  {
    if i > 0 {
      assert a[0] == a[..i][0] && b[0] == b[..i][0];
      assert a[1..][..i - 1] == a[..i][1..] && b[1..][..i - 1] == b[..i][1..];
      LessAtBelow(a[1..], b[1..], i - 1);
    }
  }

  lemma {:induction false} CommonPrefix(p: seq<bv8>, s: seq<bv8>, t: seq<bv8>)
    ensures Below(p + s, p + t) <==> Below(s, t)
  {
    if p == [] {
      assert p + s == s && p + t == t;
    } else {
      assert (p + s)[1..] == p[1..] + s && (p + t)[1..] == p[1..] + t;
      CommonPrefix(p[1..], s, t);
    }
  }

  lemma SamePrefix<T>(p: seq<T>, s: seq<T>, t: seq<T>)
    ensures p + s <= p + t <==> s <= t
    ensures p + s == p + t <==> s == t
  {
    assert (p + s)[|p|..] == s && (p + t)[|p|..] == t;
    if s <= t {
      assert p + t == (p + s) + t[|s|..];
    }
    if p + s <= p + t {
      assert t == s + (p + t)[|p + s|..];
    }
  }

  lemma SameHead<T>(us: seq<T>, vs: seq<T>)
    requires us != [] && vs != [] && us[0] == vs[0]
    ensures us <= vs <==> us[1..] <= vs[1..]
    ensures us == vs <==> us[1..] == vs[1..]
  {
    SamePrefix([us[0]], us[1..], vs[1..]);
    assert us == [us[0]] + us[1..] && vs == [vs[0]] + vs[1..];
  }

  lemma {:induction false} CodeKeepsStringOrder<T(!new)>(
      enc: T -> seq<bv8>, before: (T, T) -> bool, ok: T -> bool, us: seq<T>, vs: seq<T>)
    requires KeepsOrder(enc, before, ok)
    requires (forall i | 0 <= i < |us| :: ok(us[i])) && (forall i | 0 <= i < |vs| :: ok(vs[i]))
    ensures Below(Concat(enc, us), Concat(enc, vs)) <==> StringBefore(before, us, vs)
    ensures Concat(enc, us) <= Concat(enc, vs) <==> us <= vs
    ensures Concat(enc, us) == Concat(enc, vs) <==> us == vs
    decreases |us|
  {
    if us != [] && vs != [] {
      var u, v, s, t := us[0], vs[0], Concat(enc, us[1..]), Concat(enc, vs[1..]);
      if u == v {
        CommonPrefix(enc(u), s, t);
        SamePrefix(enc(u), s, t);
        SameHead(us, vs);
        CodeKeepsStringOrder(enc, before, ok, us[1..], vs[1..]);
      } else if before(u, v) {
        var i: nat :| LessAt(enc(u), enc(v), i);
        LessAtDecides(enc(u), enc(v), i, s, t);
      } else {
        var i: nat :| LessAt(enc(v), enc(u), i);
        LessAtDecides(enc(v), enc(u), i, t, s);
      }
    }
  }

  /**
    For strings of 31-bit codes of any length: the byte order of the encodings is the code point
    order of the strings, one encoding is a prefix of another only when the strings are, and
    different strings have different encodings.
   */
  lemma EncodingKeepsOrder(us: seq<bv32>, vs: seq<bv32>)
    requires (forall i | 0 <= i < |us| :: InRange(us[i])) && (forall i | 0 <= i < |vs| :: InRange(vs[i]))
    ensures Below(Concat(Encode, us), Concat(Encode, vs)) <==> StringBefore(Before, us, vs)
    ensures Concat(Encode, us) <= Concat(Encode, vs) <==> us <= vs
    ensures Concat(Encode, us) == Concat(Encode, vs) <==> us == vs
  {
    EncodeKeepsOrder();
    CodeKeepsStringOrder(Encode, Before, InRange, us, vs);
  }

  /** A character of the string starts at byte i of its encoding. */
  ghost predicate StartsAt(us: seq<bv32>, i: nat) {
    exists k: nat | k < |us| :: |Concat(Encode, us[..k])| == i
  }

  lemma StartOfRest(us: seq<bv32>, i: nat)
    requires us != [] && Encode(us[0]) != []
    ensures StartsAt(us, i) <==> i == 0 || (i >= |Encode(us[0])| && StartsAt(us[1..], i - |Encode(us[0])|))
  {
    var n := |Encode(us[0])|;
    forall k: nat | 0 < k < |us|
      ensures |Concat(Encode, us[..k])| == n + |Concat(Encode, us[1..][..k - 1])|
    {
      assert us[..k][1..] == us[1..][..k - 1];
    }
    assert us[..0] == [];
    if i >= n && StartsAt(us[1..], i - n) {
      var k: nat :| k < |us[1..]| && |Concat(Encode, us[1..][..k])| == i - n;
      assert |Concat(Encode, us[..k + 1])| == i;
    }
  }

  lemma LeadIsNoContinuation(l: bv8, n: nat)
    requires LeadFits(l, n)
    ensures !IsCont(l)
  {
  }

  /** Character boundaries are found from anywhere: a byte of an encoded string is a continuation byte if and
      only if no character starts there. */
  lemma {:induction false} BoundariesShow(us: seq<bv32>, i: nat)
    requires (forall k | 0 <= k < |us| :: InRange(us[k])) && i < |Concat(Encode, us)|
    ensures IsCont(Concat(Encode, us)[i]) <==> !StartsAt(us, i)
    decreases |us|
  {
    var e := Encode(us[0]);
    EncodeIsWellFormed(us[0]);
    StartOfRest(us, i);
    if i == 0 {
      LeadIsNoContinuation(e[0], |e|);
    } else if i >= |e| {
      BoundariesShow(us[1..], i - |e|);
    }
  }
}
