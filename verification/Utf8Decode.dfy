/** The one-character decoder of c/src/character.c, and exactly which codes it gives back. */
module Utf8Decode {
  import opened Utf8

  /**
    What enc_utf8_to_unicode_one makes of the bytes at its input pointer: the returned length (0 for
    an error) and the code stored through the output pointer. Overrun stands for a read behind the
    given bytes.
   */
  datatype Decoded = Overrun | Decoded(size: int, code: bv32)

  /** The four bytes of a little-endian unsigned long. */
  function Assemble(p0: bv8, p1: bv8, p2: bv8, p3: bv8): bv32 {
    (p0 as bv32) | ((p1 as bv32) << 8) | ((p2 as bv32) << 16) | ((p3 as bv32) << 24)
  }

  // The byte arithmetic of each case of the switch, truncated to bytes as the stores do.

  function Code2(b1: bv8, b2: bv8): bv32 {
    Assemble((b1 << 6) + (b2 & 0x3F), (b1 >> 2) & 0x07, 0, 0)
  }

  function Code3(b1: bv8, b2: bv8, b3: bv8): bv32 {
    Assemble((b2 << 6) + (b3 & 0x3F), (b1 << 4) + ((b2 >> 2) & 0x0F), 0, 0)
  }

  function Code4(b1: bv8, b2: bv8, b3: bv8, b4: bv8): bv32 {
    Assemble((b3 << 6) + (b4 & 0x3F), (b2 << 4) + ((b3 >> 2) & 0x0F), ((b1 << 2) & 0x1C) + ((b2 >> 4) & 0x03), 0)
  }

  function Code5(b1: bv8, b2: bv8, b3: bv8, b4: bv8, b5: bv8): bv32 {
    Assemble((b4 << 6) + (b5 & 0x3F), (b3 << 4) + ((b4 >> 2) & 0x0F), (b2 << 2) + ((b3 >> 4) & 0x03), b1 << 6)
  }

  function Code6(b1: bv8, b2: bv8, b3: bv8, b4: bv8, b5: bv8, b6: bv8): bv32 {
    Assemble((b5 << 6) + (b6 & 0x3F), (b5 << 4) + ((b6 >> 2) & 0x0F), (b3 << 2) + ((b4 >> 4) & 0x03),
             ((b1 << 6) & 0x40) + (b2 & 0x3F))
  }

  function Decode(b: seq<bv8>): Decoded {
    if b == [] then Overrun else
    var n := SizeOf(b[0]);
    if n == 0 then Decoded(1, b[0] as bv32)
    else if n == -1 then Decoded(0, 0)
    else if |b| < n then Overrun
    else if n == 2 then
      if b[1] & 0xE0 != 0x80 then Decoded(0, 0) else Decoded(2, Code2(b[0], b[1]))
    else if exists i | 1 <= i < n :: !IsCont(b[i]) then Decoded(0, 0)
    else if n == 3 then Decoded(3, Code3(b[0], b[1], b[2]))
    else if n == 4 then Decoded(4, Code4(b[0], b[1], b[2], b[3]))
    else if n == 5 then Decoded(5, Code5(b[0], b[1], b[2], b[3], b[4]))
    else Decoded(6, Code6(b[0], b[1], b[2], b[3], b[4], b[5]))
  }

  /** enc_utf8_to_unicode_one */
  method DecodeOne(input: seq<bv8>) returns (utfbytes: int, unic: bv32)
    requires !Decode(input).Overrun?
    ensures Decoded(utfbytes, unic) == Decode(input)
  {
    unic := 0;
    utfbytes := SizeOf(input[0]);
    match utfbytes {
      case 0 =>
        unic := input[0] as bv32;
        utfbytes := utfbytes + 1;
      case 2 =>
        var b1, b2 := input[0], input[1];
        if b2 & 0xE0 != 0x80 {
          return 0, unic;
        }
        unic := Code2(b1, b2);
      case 3 =>
        var b1, b2, b3 := input[0], input[1], input[2];
        if !IsCont(b2) || !IsCont(b3) {
          return 0, unic;
        }
        unic := Code3(b1, b2, b3);
      case 4 =>
        var b1, b2, b3, b4 := input[0], input[1], input[2], input[3];
        if !IsCont(b2) || !IsCont(b3) || !IsCont(b4) {
          return 0, unic;
        }
        unic := Code4(b1, b2, b3, b4);
      case 5 =>
        var b1, b2, b3, b4, b5 := input[0], input[1], input[2], input[3], input[4];
        if !IsCont(b2) || !IsCont(b3) || !IsCont(b4) || !IsCont(b5) {
          return 0, unic;
        }
        unic := Code5(b1, b2, b3, b4, b5);
      case 6 =>
        var b1, b2, b3, b4, b5, b6 := input[0], input[1], input[2], input[3], input[4], input[5];
        if !IsCont(b2) || !IsCont(b3) || !IsCont(b4) || !IsCont(b5) || !IsCont(b6) {
          return 0, unic;
        }
        unic := Code6(b1, b2, b3, b4, b5, b6);
      case _ =>
        return 0, unic;
    }
  }

  /**
    The codes that survive encoding and decoding. Two-byte codes must have bit 5 clear (the test of
    the continuation byte uses the mask 0xE0), five-byte codes must fit 24 bits (the top byte is
    shifted out of place), and six-byte codes must repeat two groups of bits (the second byte is built
    from the wrong pair of input bytes).
   */
  predicate Survives(u: bv32) {
    if u <= 0x7F then true
    else if u <= 0x7FF then u & 0x20 == 0
    else if u <= 0x1F_FFFF then true
    else if u <= 0x3FF_FFFF then u & 0x300_0000 == 0
    else (u >> 6) & 0x0F == (u >> 12) & 0x0F && (u >> 2) & 0x0F == (u >> 8) & 0x0F
  }

  lemma Survives2(u: bv32)
    requires 0x7F < u <= 0x7FF
    ensures SizeOf(Lead(u >> 6, 0x1F, 0xC0)) == 2
    ensures Code2(Lead(u >> 6, 0x1F, 0xC0), Tail(u)) == u
    ensures Tail(u) & 0xE0 == 0x80 <==> Survives(u)
  {
  }

  lemma Survives3(u: bv32)
    requires 0x7FF < u <= 0xFFFF
    ensures SizeOf(Lead(u >> 12, 0x0F, 0xE0)) == 3
    ensures Code3(Lead(u >> 12, 0x0F, 0xE0), Tail(u >> 6), Tail(u)) == u
  {
  }

  lemma Survives4(u: bv32)
    requires 0xFFFF < u <= 0x1F_FFFF
    ensures SizeOf(Lead(u >> 18, 0x07, 0xF0)) == 4
    ensures Code4(Lead(u >> 18, 0x07, 0xF0), Tail(u >> 12), Tail(u >> 6), Tail(u)) == u
  {
  }

  lemma Survives5(u: bv32)
    requires 0x1F_FFFF < u <= 0x3FF_FFFF
    ensures SizeOf(Lead(u >> 24, 0x03, 0xF8)) == 5
    ensures Code5(Lead(u >> 24, 0x03, 0xF8), Tail(u >> 18), Tail(u >> 12), Tail(u >> 6), Tail(u)) == u <==> Survives(u)
  {
  }

  lemma Survives6(u: bv32)
    requires 0x3FF_FFFF < u <= MAX_CODE
    ensures SizeOf(Lead(u >> 30, 0x01, 0xFC)) == 6
    ensures Code6(Lead(u >> 30, 0x01, 0xFC), Tail(u >> 24), Tail(u >> 18), Tail(u >> 12), Tail(u >> 6), Tail(u)) == u
            <==> Survives(u)
  {
  }

  lemma Reads3(u: bv32, b: seq<bv8>)
    requires 0x7FF < u <= 0xFFFF && |b| >= 3 && b[..3] == Encode(u)
    ensures Decode(b) == Decoded(3, Code3(Lead(u >> 12, 0x0F, 0xE0), Tail(u >> 6), Tail(u)))
  {
    Select3(u);
    assert SizeOf(b[0]) == 3 by {
      Survives3(u);
    }
    TailBits(u);
    TailBits(u >> 6);
    assert forall i | 1 <= i < 3 :: IsCont(b[i]);
  }

  lemma Reads4(u: bv32, b: seq<bv8>)
    requires 0xFFFF < u <= 0x1F_FFFF && |b| >= 4 && b[..4] == Encode(u)
    ensures Decode(b) == Decoded(4, Code4(Lead(u >> 18, 0x07, 0xF0), Tail(u >> 12), Tail(u >> 6), Tail(u)))
  {
    Select4(u);
    assert SizeOf(b[0]) == 4 by {
      Survives4(u);
    }
    TailBits(u);
    TailBits(u >> 6);
    TailBits(u >> 12);
    assert forall i | 1 <= i < 4 :: IsCont(b[i]);
  }

  lemma Reads5(u: bv32, b: seq<bv8>)
    requires 0x1F_FFFF < u <= 0x3FF_FFFF && |b| >= 5 && b[..5] == Encode(u)
    ensures Decode(b) ==
            Decoded(5, Code5(Lead(u >> 24, 0x03, 0xF8), Tail(u >> 18), Tail(u >> 12), Tail(u >> 6), Tail(u)))
  {
    Select5(u);
    assert SizeOf(b[0]) == 5 by {
      Survives5(u);
    }
    TailBits(u);
    TailBits(u >> 6);
    TailBits(u >> 12);
    TailBits(u >> 18);
    assert forall i | 1 <= i < 5 :: IsCont(b[i]);
  }

  lemma Reads6(u: bv32, b: seq<bv8>)
    requires 0x3FF_FFFF < u <= MAX_CODE && |b| >= 6 && b[..6] == Encode(u)
    ensures Decode(b) ==
            Decoded(6, Code6(Lead(u >> 30, 0x01, 0xFC), Tail(u >> 24), Tail(u >> 18), Tail(u >> 12), Tail(u >> 6),
                             Tail(u)))
  {
    Select6(u);
    assert SizeOf(b[0]) == 6 by {
      Survives6(u);
    }
    TailBits(u);
    TailBits(u >> 6);
    TailBits(u >> 12);
    TailBits(u >> 18);
    TailBits(u >> 24);
    assert forall i | 1 <= i < 6 :: IsCont(b[i]);
  }

  /** The decoder undoes the encoder exactly on the codes that survive; the only other outcomes are an
      error (two bytes) and a wrong code of the right length (five and six bytes). */
  lemma DecodeUndoesEncode(u: bv32, rest: seq<bv8>)
    requires u <= MAX_CODE
    ensures var d := Decode(Encode(u) + rest);
            && (d == Decoded(|Encode(u)|, u) <==> Survives(u))
            && (0x7F < u <= 0x7FF && !Survives(u) ==> d == Decoded(0, 0))
            && (u > 0x7FF ==> d.Decoded? && d.size == |Encode(u)|)
  {
    var b, n := Encode(u) + rest, |Encode(u)|;
    assert b[..n] == Encode(u);
    if u <= 0x7F {
    } else if u <= 0x7FF {
      Select2(u);
      Survives2(u);
    } else if u <= 0xFFFF {
      Reads3(u, b);
      Survives3(u);
    } else if u <= 0x1F_FFFF {
      Reads4(u, b);
      Survives4(u);
    } else if u <= 0x3FF_FFFF {
      Reads5(u, b);
      Survives5(u);
    } else {
      Reads6(u, b);
      Survives6(u);
    }
  }

  /** One code of each kind that does not survive: U+00A0 is rejected, and of five and six bytes a wrong code
      is read. */
  lemma LostCodes()
    ensures Decode(Encode(0xA0) + [0]) == Decoded(0, 0)
    ensures Decode(Encode(0x100_0000) + [0]) == Decoded(5, 0x4000_0000)
    ensures Decode(Encode(0x400_0040) + [0]) == Decoded(6, 0x400_1040)
  {
    DecodeUndoesEncode(0xA0, [0]);
    var b5 := Encode(0x100_0000) + [0];
    assert b5[..5] == Encode(0x100_0000);
    Reads5(0x100_0000, b5);
    var b6 := Encode(0x400_0040) + [0];
    assert b6[..6] == Encode(0x400_0040);
    Reads6(0x400_0040, b6);
  }

  // Any bytes whatever.

  /** The length that a first byte announces, by the ranges of section 2 of RFC 2279; 0 for those that start nothing.
      (0xFE and 0xFF, which that section does not use, announce six.) */
  function CharLength(l: bv8): nat {
    if 0x00 <= l <= 0x7F then 1
    else if 0xC0 <= l <= 0xDF then 2
    else if 0xE0 <= l <= 0xEF then 3
    else if 0xF0 <= l <= 0xF7 then 4
    else if 0xF8 <= l <= 0xFB then 5
    else if 0xFC <= l <= 0xFF then 6
    else 0
  }

  /** The test of the bytes behind the first: their two top bits are 10, and in a character of two bytes the third bit
      is clear besides. */
  predicate Continued(b: seq<bv8>, n: nat)
    requires n <= |b|
  {
    forall i | 1 <= i < n :: b[i] & (if n == 2 then 0xE0 else 0xC0) == 0x80
  }

  /** A whole character that passes the test. */
  predicate IsGood(b: seq<bv8>) {
    b != [] && 0 < CharLength(b[0]) <= |b| && Continued(b, CharLength(b[0]))
  }

  /** A byte that starts nothing, or a whole character that fails the test. */
  predicate IsBad(b: seq<bv8>) {
    b != [] && CharLength(b[0]) <= |b| && (CharLength(b[0]) == 0 || !Continued(b, CharLength(b[0])))
  }

  /** The code read of a good character: up to four bytes its meaning; of five bytes the two top bits come out six
      places too high; of six bytes the second lowest byte is put together from the wrong bits. */
  function CodeRead(b: seq<bv8>): bv32
    requires IsGood(b)
  {
    match CharLength(b[0])
    case 1 => b[0] as bv32
    case 2 => Row2(b[0], b[1])
    case 3 => Row3(b[0], b[1], b[2])
    case 4 => Row4(b[0], b[1], b[2], b[3])
    case 5 => (Row5(b[0], b[1], b[2], b[3], b[4]) & 0x00FF_FFFF) | (((b[0] & 0x03) as bv32) << 30)
    case _ => (Row6(b[0], b[1], b[2], b[3], b[4], b[5]) & 0xFFFF_00FF)
              | ((Cont(b[4]) & 0x0F) << 12) | (((Cont(b[5]) >> 2) & 0x0F) << 8)
  }

  lemma LengthIsSize(l: bv8)
    ensures SizeOf(l) == match CharLength(l) case 0 => -1 case 1 => 0 case n => n
  {
  }

  lemma Code2Is(l: bv8, a: bv8)
    ensures Code2(l, a) == Row2(l, a)
  {
  }

  lemma Code3Is(l: bv8, a: bv8, b: bv8)
    ensures Code3(l, a, b) == Row3(l, a, b)
  {
  }

  lemma Code4Is(l: bv8, a: bv8, b: bv8, c: bv8)
    ensures Code4(l, a, b, c) == Row4(l, a, b, c)
  {
  }

  lemma Code5Is(l: bv8, a: bv8, b: bv8, c: bv8, d: bv8)
    ensures Code5(l, a, b, c, d) == (Row5(l, a, b, c, d) & 0x00FF_FFFF) | (((l & 0x03) as bv32) << 30)
  {
  }

  lemma Code6Is(l: bv8, a: bv8, b: bv8, c: bv8, d: bv8, e: bv8)
    ensures Code6(l, a, b, c, d, e) ==
            (Row6(l, a, b, c, d, e) & 0xFFFF_00FF) | ((Cont(d) & 0x0F) << 12) | (((Cont(e) >> 2) & 0x0F) << 8)
  {
  }

  lemma GoodIsRead(b: seq<bv8>)
    requires IsGood(b)
    ensures Decode(b) == Decoded(CharLength(b[0]), CodeRead(b))
  {
    LengthIsSize(b[0]);
    match CharLength(b[0]) {
      case 1 =>
      case 2 => Code2Is(b[0], b[1]);
      case 3 => Code3Is(b[0], b[1], b[2]);
      case 4 => Code4Is(b[0], b[1], b[2], b[3]);
      case 5 => Code5Is(b[0], b[1], b[2], b[3], b[4]);
      case _ => Code6Is(b[0], b[1], b[2], b[3], b[4], b[5]);
    }
  }

  /** What the decoder makes of any bytes: an error if and only if they begin with a byte that starts nothing or with
      a whole character that fails the test; length and code of a whole character that passes it; and otherwise it
      reads behind them. */
  lemma DecodeInBytes(b: seq<bv8>)
    ensures Decode(b) == Decoded(0, 0) <==> IsBad(b)
    ensures IsGood(b) ==> Decode(b) == Decoded(CharLength(b[0]), CodeRead(b))
    ensures Decode(b) == Overrun <==> b == [] || CharLength(b[0]) > |b|
  {
    if b != [] {
      LengthIsSize(b[0]);
      if IsGood(b) {
        GoodIsRead(b);
      }
    }
  }

  /** A character of three bytes, cut after the second, and a letter behind it: an error, not a character. */
  lemma CutCharacter(rest: seq<bv8>)
    ensures Decode([0xE4, 0xB8, 0x41] + rest) == Decoded(0, 0)
    ensures Decode([0xE4, 0xB8, 0xAD] + rest) == Decoded(3, 0x4E2D)
    ensures Decode([0x80] + rest) == Decoded(0, 0)
  {
    var cut, whole := [0xE4, 0xB8, 0x41] + rest, [0xE4, 0xB8, 0xAD] + rest;
    DecodeInBytes(cut);
    DecodeInBytes(whole);
    DecodeInBytes([0x80] + rest);
    assert cut[2] == 0x41;
    assert whole[1] & 0xC0 == 0x80 && whole[2] & 0xC0 == 0x80;
    assert IsGood(whole);
  }
}
