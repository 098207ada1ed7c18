/**
  The one-character UTF-8 codec of c/src/character.c, with the 1 to 6 byte forms of section 2 of
  RFC 2279. Bytes are bv8, so that storing into an unsigned char truncates as it does in C.
 */
module Utf8 {

  /** enc_get_utf8_size: what the first byte says about the length (0 stands for one byte). */
  function SizeOf(c: bv8): int {
    if c < 0x80 then 0
    else if c < 0xC0 then -1
    else if c < 0xE0 then 2
    else if c < 0xF0 then 3
    else if c < 0xF8 then 4
    else if c < 0xFC then 5
    else 6
  }

  const MAX_CODE: bv32 := 0x7FFF_FFFF

  /** A continuation byte with the low six bits of u. */
  function Tail(u: bv32): bv8 {
    ((u & 0x3F) | 0x80) as bv8
  }

  /** A lead byte: the bits of u under the mask, below the length mark. */
  function Lead(u: bv32, mask: bv32, mark: bv32): bv8
    requires mask <= 0x7F && mark <= 0xFF
  {
    ((u & mask) | mark) as bv8
  }

  /** The bytes that enc_unicode_to_utf8_one stores; none for a code above the range. */
  function Encode(u: bv32): seq<bv8> {
    if u <= 0x7F then [Lead(u, 0x7F, 0)]
    else if u <= 0x7FF then [Lead(u >> 6, 0x1F, 0xC0), Tail(u)]
    else if u <= 0xFFFF then [Lead(u >> 12, 0x0F, 0xE0), Tail(u >> 6), Tail(u)]
    else if u <= 0x1F_FFFF then [Lead(u >> 18, 0x07, 0xF0), Tail(u >> 12), Tail(u >> 6), Tail(u)]
    else if u <= 0x3FF_FFFF then [Lead(u >> 24, 0x03, 0xF8), Tail(u >> 18), Tail(u >> 12), Tail(u >> 6), Tail(u)]
    else if u <= MAX_CODE then
      [Lead(u >> 30, 0x01, 0xFC), Tail(u >> 24), Tail(u >> 18), Tail(u >> 12), Tail(u >> 6), Tail(u)]
    else []
  }

  /** enc_unicode_to_utf8_one: writes at out + at, and returns the number of bytes written. */
  method EncodeOne(unic: bv32, out: array<bv8>, at: nat, outSize: int) returns (ret: nat)
    requires outSize >= 6 && at + |Encode(unic)| <= out.Length
    modifies out
    ensures ret == |Encode(unic)|
    ensures forall j {:trigger Encode(unic)[j]} | 0 <= j < ret :: out[at + j] == Encode(unic)[j]
    ensures forall j | 0 <= j < at || at + ret <= j < out.Length :: out[j] == old(out[j])
  {
    if unic <= 0x7F {
      out[at] := Lead(unic, 0x7F, 0);
      return 1;
    } else if unic >= 0x80 && unic <= 0x7FF {
      out[at + 1] := Tail(unic);
      out[at] := Lead(unic >> 6, 0x1F, 0xC0);
      return 2;
    } else if unic >= 0x800 && unic <= 0xFFFF {
      out[at + 2] := Tail(unic);
      out[at + 1] := Tail(unic >> 6);
      out[at] := Lead(unic >> 12, 0x0F, 0xE0);
      return 3;
    } else if unic >= 0x1_0000 && unic <= 0x1F_FFFF {
      Put3(out, at + 1, Tail(unic >> 12), Tail(unic >> 6), Tail(unic));
      out[at] := Lead(unic >> 18, 0x07, 0xF0);
      return 4;
    } else {
      ret := EncodeLong(unic, out, at);
    }
  }

  /** Three of the stores, again from the last to the first. */
  method Put3(out: array<bv8>, at: nat, a: bv8, b: bv8, c: bv8)
    requires at + 3 <= out.Length
    modifies out
    ensures out[at] == a && out[at + 1] == b && out[at + 2] == c
    ensures forall j | 0 <= j < at || at + 3 <= j < out.Length :: out[j] == old(out[j])
  {
    out[at + 2] := c;
    out[at + 1] := b;
    out[at] := a;
  }

  /** The last branches of enc_unicode_to_utf8_one, for codes above 0x1FFFFF. */
  method EncodeLong(unic: bv32, out: array<bv8>, at: nat) returns (ret: nat)
    requires unic > 0x1F_FFFF && at + |Encode(unic)| <= out.Length
    modifies out
    ensures ret == |Encode(unic)|
    ensures forall j {:trigger Encode(unic)[j]} | 0 <= j < ret :: out[at + j] == Encode(unic)[j]
    ensures forall j | 0 <= j < at || at + ret <= j < out.Length :: out[j] == old(out[j])
  {
    if unic >= 0x20_0000 && unic <= 0x3FF_FFFF {
      Put3(out, at + 2, Tail(unic >> 12), Tail(unic >> 6), Tail(unic));
      out[at + 1] := Tail(unic >> 18);
      out[at] := Lead(unic >> 24, 0x03, 0xF8);
      return 5;
    } else if unic >= 0x400_0000 && unic <= MAX_CODE {
      Put3(out, at + 3, Tail(unic >> 12), Tail(unic >> 6), Tail(unic));
      Put3(out, at, Lead(unic >> 30, 0x01, 0xFC), Tail(unic >> 24), Tail(unic >> 18));
      return 6;
    }
    return 0;
  }

  predicate IsCont(b: bv8) {
    b & 0xC0 == 0x80
  }

  /** The payload of a continuation byte. */
  function Cont(b: bv8): bv32 {
    (b & 0x3F) as bv32
  }

  // The rows of the table in section 2 of RFC 2279: the payload bits of all bytes, most significant first.

  function Row2(l: bv8, a: bv8): bv32 {
    (((l & 0x1F) as bv32) << 6) | Cont(a)
  }

  function Row3(l: bv8, a: bv8, b: bv8): bv32 {
    (((l & 0x0F) as bv32) << 12) | (Cont(a) << 6) | Cont(b)
  }

  function Row4(l: bv8, a: bv8, b: bv8, c: bv8): bv32 {
    (((l & 0x07) as bv32) << 18) | (Cont(a) << 12) | (Cont(b) << 6) | Cont(c)
  }

  function Row5(l: bv8, a: bv8, b: bv8, c: bv8, d: bv8): bv32 {
    (((l & 0x03) as bv32) << 24) | (Cont(a) << 18) | (Cont(b) << 12) | (Cont(c) << 6) | Cont(d)
  }

  function Row6(l: bv8, a: bv8, b: bv8, c: bv8, d: bv8, e: bv8): bv32 {
    (((l & 0x01) as bv32) << 30) | (Cont(a) << 24) | (Cont(b) << 18) | (Cont(c) << 12) | (Cont(d) << 6) | Cont(e)
  }

  /** The code point a byte sequence stands for, by that table. */
  function Meaning(bs: seq<bv8>): bv32
    requires 1 <= |bs| <= 6
  {
    match |bs|
    case 1 => (bs[0] & 0x7F) as bv32
    case 2 => Row2(bs[0], bs[1])
    case 3 => Row3(bs[0], bs[1], bs[2])
    case 4 => Row4(bs[0], bs[1], bs[2], bs[3])
    case 5 => Row5(bs[0], bs[1], bs[2], bs[3], bs[4])
    case _ => Row6(bs[0], bs[1], bs[2], bs[3], bs[4], bs[5])
  }

  /** The length marks of that table. */
  predicate LeadFits(l: bv8, n: nat) {
    match n
    case 1 => l & 0x80 == 0
    case 2 => l & 0xE0 == 0xC0
    case 3 => l & 0xF0 == 0xE0
    case 4 => l & 0xF8 == 0xF0
    case 5 => l & 0xFC == 0xF8
    case 6 => l & 0xFE == 0xFC
    case _ => false
  }

  /** enc_get_utf8_size reads the length off every lead byte of the table; beyond that it takes 0xFE
      and 0xFF, which start no sequence, for six-byte leads. */
  lemma SizeOfLead(l: bv8, n: nat)
    requires 1 <= n <= 6
    ensures SizeOf(l) == (if n == 1 then 0 else n) <==> LeadFits(l, n) || (n == 6 && l >= 0xFE)
  {
  }

  /** Well-formed by RFC 2279: the lead byte fits the length, the rest are continuation bytes, and
      no shorter form could have been used. */
  predicate WellFormed(bs: seq<bv8>) {
    && 1 <= |bs| <= 6
    && LeadFits(bs[0], |bs|)
    && (forall i | 1 <= i < |bs| :: IsCont(bs[i]))
    && Least(|bs|) <= Meaning(bs)
  }

  /** The least code that needs n bytes. */
  function Least(n: nat): bv32
    requires 1 <= n <= 6
  {
    match n
    case 1 => 0
    case 2 => 0x80
    case 3 => 0x800
    case 4 => 0x1_0000
    case 5 => 0x20_0000
    case _ => 0x400_0000
  }

  /** Nothing is written for a code above the range, and only then. */
  lemma NothingAbove(u: bv32)
    ensures Encode(u) == [] <==> u > 0x7FFF_FFFF
  {
  }

  lemma TailBits(u: bv32)
    ensures IsCont(Tail(u)) && Cont(Tail(u)) == u & 0x3F
  {
  }

  // The forms of two to six bytes, bit by bit: the lead byte shows the length, and the payload bits
  // of all bytes make up the code.

  lemma Bits2(u: bv32)
    requires 0x7F < u <= 0x7FF
    ensures LeadFits(Lead(u >> 6, 0x1F, 0xC0), 2)
    ensures Row2(Lead(u >> 6, 0x1F, 0xC0), Tail(u)) == u
  {
  }

  lemma Form2(u: bv32)
    requires 0x7F < u <= 0x7FF
    ensures WellFormed(Encode(u)) && Meaning(Encode(u)) == u
  {
    Bits2(u);
    TailBits(u);
  }

  lemma Bits3(u: bv32)
    requires 0x7FF < u <= 0xFFFF
    ensures LeadFits(Lead(u >> 12, 0x0F, 0xE0), 3)
    ensures Row3(Lead(u >> 12, 0x0F, 0xE0), Tail(u >> 6), Tail(u)) == u
  {
  }

  lemma Form3(u: bv32)
    requires 0x7FF < u <= 0xFFFF
    ensures WellFormed(Encode(u)) && Meaning(Encode(u)) == u
  {
    Bits3(u);
    TailBits(u >> 6);
    TailBits(u);
  }

  lemma Bits4(u: bv32)
    requires 0xFFFF < u <= 0x1F_FFFF
    ensures LeadFits(Lead(u >> 18, 0x07, 0xF0), 4)
    ensures Row4(Lead(u >> 18, 0x07, 0xF0), Tail(u >> 12), Tail(u >> 6), Tail(u)) == u
  {
  }

  lemma Form4(u: bv32)
    requires 0xFFFF < u <= 0x1F_FFFF
    ensures WellFormed(Encode(u)) && Meaning(Encode(u)) == u
  {
    Bits4(u);
    TailBits(u >> 12);
    TailBits(u >> 6);
    TailBits(u);
  }

  lemma Bits5(u: bv32)
    requires 0x1F_FFFF < u <= 0x3FF_FFFF
    ensures LeadFits(Lead(u >> 24, 0x03, 0xF8), 5)
    ensures Row5(Lead(u >> 24, 0x03, 0xF8), Tail(u >> 18), Tail(u >> 12), Tail(u >> 6), Tail(u)) == u
  {
  }

  lemma Form5(u: bv32)
    requires 0x1F_FFFF < u <= 0x3FF_FFFF
    ensures WellFormed(Encode(u)) && Meaning(Encode(u)) == u
  {
    Bits5(u);
    TailBits(u >> 18);
    TailBits(u >> 12);
    TailBits(u >> 6);
    TailBits(u);
  }

  lemma Bits6(u: bv32)
    requires 0x3FF_FFFF < u <= MAX_CODE
    ensures LeadFits(Lead(u >> 30, 0x01, 0xFC), 6)
    ensures Row6(Lead(u >> 30, 0x01, 0xFC), Tail(u >> 24), Tail(u >> 18), Tail(u >> 12), Tail(u >> 6), Tail(u)) == u
  {
  }

  lemma Shape6(u: bv32)
    requires 0x3FF_FFFF < u <= MAX_CODE
    ensures LeadFits(Encode(u)[0], 6)
    ensures forall i | 1 <= i < 6 :: IsCont(Encode(u)[i])
  {
    Bits6(u);
    TailBits(u);
    TailBits(u >> 6);
    TailBits(u >> 12);
    TailBits(u >> 18);
    TailBits(u >> 24);
  }

  lemma Form6(u: bv32)
    requires 0x3FF_FFFF < u <= MAX_CODE
    ensures WellFormed(Encode(u)) && Meaning(Encode(u)) == u
  {
    Bits6(u);
    assert Meaning(Encode(u)) == u;
    Shape6(u);
  }

  /** Every code in range is encoded by a well-formed sequence that stands for it. */
  lemma EncodeIsWellFormed(u: bv32)
    requires u <= MAX_CODE
    ensures WellFormed(Encode(u)) && Meaning(Encode(u)) == u
  {
    if u <= 0x7F {
    } else if u <= 0x7FF {
      Form2(u);
    } else if u <= 0xFFFF {
      Form3(u);
    } else if u <= 0x1F_FFFF {
      Form4(u);
    } else if u <= 0x3FF_FFFF {
      Form5(u);
    } else {
      Form6(u);
    }
  }

  lemma Select2(u: bv32)
    requires 0x7F < u <= 0x7FF
    ensures Encode(u) == [Lead(u >> 6, 0x1F, 0xC0), Tail(u)]
  {
  }

  lemma Select3(u: bv32)
    requires 0x7FF < u <= 0xFFFF
    ensures Encode(u) == [Lead(u >> 12, 0x0F, 0xE0), Tail(u >> 6), Tail(u)]
  {
  }

  lemma Select4(u: bv32)
    requires 0xFFFF < u <= 0x1F_FFFF
    ensures Encode(u) == [Lead(u >> 18, 0x07, 0xF0), Tail(u >> 12), Tail(u >> 6), Tail(u)]
  {
  }

  lemma Select5(u: bv32)
    requires 0x1F_FFFF < u <= 0x3FF_FFFF
    ensures Encode(u) == [Lead(u >> 24, 0x03, 0xF8), Tail(u >> 18), Tail(u >> 12), Tail(u >> 6), Tail(u)]
  {
  }

  lemma Select6(u: bv32)
    requires 0x3FF_FFFF < u <= MAX_CODE
    ensures Encode(u) == [Lead(u >> 30, 0x01, 0xFC), Tail(u >> 24), Tail(u >> 18), Tail(u >> 12), Tail(u >> 6), Tail(u)]
  {
  }

  lemma Unique2(l: bv8, a: bv8)
    requires LeadFits(l, 2)
    requires IsCont(a)
    ensures var u := Row2(l, a);
            && u <= 0x7FF && Lead(u >> 6, 0x1F, 0xC0) == l
            && Tail(u) == a
  {
  }

  lemma Unique3(l: bv8, a: bv8, b: bv8)
    requires LeadFits(l, 3)
    requires IsCont(a) && IsCont(b)
    ensures var u := Row3(l, a, b);
            && u <= 0xFFFF && Lead(u >> 12, 0x0F, 0xE0) == l
            && Tail(u >> 6) == a && Tail(u) == b
  {
  }

  lemma Unique4(l: bv8, a: bv8, b: bv8, c: bv8)
    requires LeadFits(l, 4)
    requires IsCont(a) && IsCont(b) && IsCont(c)
    ensures var u := Row4(l, a, b, c);
            && u <= 0x1F_FFFF && Lead(u >> 18, 0x07, 0xF0) == l
            && Tail(u >> 12) == a && Tail(u >> 6) == b && Tail(u) == c
  {
  }

  lemma Unique5(l: bv8, a: bv8, b: bv8, c: bv8, d: bv8)
    requires LeadFits(l, 5)
    requires IsCont(a) && IsCont(b) && IsCont(c) && IsCont(d)
    ensures var u := Row5(l, a, b, c, d);
            && u <= 0x3FF_FFFF && Lead(u >> 24, 0x03, 0xF8) == l
            && Tail(u >> 18) == a && Tail(u >> 12) == b && Tail(u >> 6) == c && Tail(u) == d
  {
  }

  lemma Unique6(l: bv8, a: bv8, b: bv8, c: bv8, d: bv8, e: bv8)
    requires LeadFits(l, 6)
    requires IsCont(a) && IsCont(b) && IsCont(c) && IsCont(d) && IsCont(e)
    ensures var u := Row6(l, a, b, c, d, e);
            && u <= MAX_CODE && Lead(u >> 30, 0x01, 0xFC) == l
            && Tail(u >> 24) == a && Tail(u >> 18) == b && Tail(u >> 12) == c && Tail(u >> 6) == d && Tail(u) == e
  {
  }

  lemma Exact2(l: bv8, a: bv8)
    requires LeadFits(l, 2) && IsCont(a)
    requires 0x7F < Row2(l, a)
    ensures Row2(l, a) <= MAX_CODE && Encode(Row2(l, a)) == [l, a]
  {
    Unique2(l, a);
  }

  lemma Exact3(l: bv8, a: bv8, b: bv8)
    requires LeadFits(l, 3) && IsCont(a) && IsCont(b)
    requires 0x7FF < Row3(l, a, b)
    ensures Row3(l, a, b) <= MAX_CODE && Encode(Row3(l, a, b)) == [l, a, b]
  {
    Unique3(l, a, b);
  }

  lemma Exact4(l: bv8, a: bv8, b: bv8, c: bv8)
    requires LeadFits(l, 4) && IsCont(a) && IsCont(b) && IsCont(c)
    requires 0xFFFF < Row4(l, a, b, c)
    ensures Row4(l, a, b, c) <= MAX_CODE && Encode(Row4(l, a, b, c)) == [l, a, b, c]
  {
    var u := Row4(l, a, b, c);
    Unique4(l, a, b, c);
    Select4(u);
  }

  lemma Exact5(l: bv8, a: bv8, b: bv8, c: bv8, d: bv8)
    requires LeadFits(l, 5) && IsCont(a) && IsCont(b) && IsCont(c) && IsCont(d)
    requires 0x1F_FFFF < Row5(l, a, b, c, d)
    ensures Row5(l, a, b, c, d) <= MAX_CODE && Encode(Row5(l, a, b, c, d)) == [l, a, b, c, d]
  {
    var u := Row5(l, a, b, c, d);
    assert u <= 0x3FF_FFFF by {
      Unique5(l, a, b, c, d);
    }
    Select5(u);
    Unique5(l, a, b, c, d);
  }

  lemma Exact6(l: bv8, a: bv8, b: bv8, c: bv8, d: bv8, e: bv8)
    requires LeadFits(l, 6) && IsCont(a) && IsCont(b) && IsCont(c) && IsCont(d) && IsCont(e)
    requires 0x3FF_FFFF < Row6(l, a, b, c, d, e)
    ensures Row6(l, a, b, c, d, e) <= MAX_CODE && Encode(Row6(l, a, b, c, d, e)) == [l, a, b, c, d, e]
  {
    Unique6(l, a, b, c, d, e);
  }

  /** And it is the only one: encoding and meaning are inverse bijections. */
  lemma WellFormedIsEncode(bs: seq<bv8>)
    requires WellFormed(bs)
    ensures Meaning(bs) <= MAX_CODE && Encode(Meaning(bs)) == bs
  {
    if |bs| == 1 {
      assert Encode(Meaning(bs)) == [bs[0]];
    } else if |bs| == 2 {
      Exact2(bs[0], bs[1]);
    } else if |bs| == 3 {
      Exact3(bs[0], bs[1], bs[2]);
    } else if |bs| == 4 {
      Exact4(bs[0], bs[1], bs[2], bs[3]);
    } else if |bs| == 5 {
      Exact5(bs[0], bs[1], bs[2], bs[3], bs[4]);
    } else {
      Exact6(bs[0], bs[1], bs[2], bs[3], bs[4], bs[5]);
    }
  }
}
