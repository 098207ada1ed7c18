/** The two string converters of c/src/character.c, between big-endian 16-bit units and UTF-8. */
module Utf8Text {
  import opened Utf8
  import opened Utf8Decode
  import opened Utf8Order

  function High(u: bv32): bv8 {
    ((u >> 8) & 0xFF) as bv8
  }

  function Low(u: bv32): bv8 {
    (u & 0xFF) as bv8
  }

  function Unit(hi: bv8, lo: bv8): bv32 {
    ((hi as bv32) << 8) | (lo as bv32)
  }

  lemma UnitParts(u: bv32)
    requires u <= 0xFFFF
    ensures Unit(High(u), Low(u)) == u
    ensures u != 0 <==> High(u) != 0 || Low(u) != 0
    ensures u <= 0x7F ==> High(u) == 0
  {
  }

  /** A unit's high byte comes first. */
  lemma HighFirst(hi: bv8, lo: bv8)
    ensures Unit(hi, lo) >> 8 == hi as bv32 && Unit(hi, lo) & 0xFF == lo as bv32
    ensures High(Unit(hi, lo)) == hi && Low(Unit(hi, lo)) == lo
  {
  }

  function BigEndian(us: seq<bv32>): seq<bv8> {
    if us == [] then [] else [High(us[0]), Low(us[0])] + BigEndian(us[1..])
  }

  lemma {:induction false} BigEndianLength(us: seq<bv32>)
    ensures |BigEndian(us)| == 2 * |us|
  {
    if us != [] {
      BigEndianLength(us[1..]);
    }
  }

  /** A zero unit ends the text. */
  predicate Terminated(b: seq<bv8>) {
    |b| >= 2 && ((b[0] == 0 && b[1] == 0) || Terminated(b[2..]))
  }

  /** The units before the terminating zero unit. */
  function Units(b: seq<bv8>): seq<bv32>
    requires Terminated(b)
  {
    if b[0] == 0 && b[1] == 0 then [] else [Unit(b[0], b[1])] + Units(b[2..])
  }

  /** The text in UTF-8. */
  function Utf8Of(b: seq<bv8>): seq<bv8>
    requires Terminated(b)
  {
    Concat(Encode, Units(b))
  }

  lemma UnitsStep(b: seq<bv8>, p: nat)
    requires p + 2 <= |b| && Terminated(b[p..]) && (b[p] != 0 || b[p + 1] != 0)
    ensures Terminated(b[p + 2..])
    ensures Utf8Of(b[p..]) == Encode(Unit(b[p], b[p + 1])) + Utf8Of(b[p + 2..])
  {
    assert b[p..][2..] == b[p + 2..];
  }

  /** The bytes e have been stored at q, and nothing else has changed. */
  ghost predicate Stored(o: seq<bv8>, q: nat, e: seq<bv8>, o': seq<bv8>) {
    && q + |e| <= |o| == |o'|
    && o'[..q + |e|] == o[..q] + e && o'[q + |e|..] == o[q + |e|..]
  }

  /** One call of the encoder, seen from the output buffer. */
  method Append(u: bv32, out: array<bv8>, q: nat, outSize: int) returns (ret: nat)
    requires outSize >= 6 && q + |Encode(u)| <= out.Length
    modifies out
    ensures ret == |Encode(u)| && Stored(old(out[..]), q, Encode(u), out[..])
  {
    ghost var o := out[..];
    ret := EncodeOne(u, out, q, outSize);
    assert out[..][..q] == o[..q] && out[..][q..q + ret] == Encode(u);
  }

  /** The state of the loop below: the units before p have been encoded into o[..q], the beginning of the text. */
  ghost predicate Converted(unic: seq<bv8>, p: nat, text: seq<bv8>, o: seq<bv8>, q: nat, was: seq<bv8>) {
    && p + 2 <= |unic| && Terminated(unic[p..])
    && q <= |text| <= |o| == |was| && o[..q] == text[..q] && o[q..] == was[q..]
    && text[q..] == Utf8Of(unic[p..])
  }

  lemma RoomForUnit(unic: seq<bv8>, p: nat, text: seq<bv8>, o: seq<bv8>, q: nat, was: seq<bv8>)
    requires Converted(unic, p, text, o, q, was) && (unic[p] != 0 || unic[p + 1] != 0)
    ensures q + |Encode(Unit(unic[p], unic[p + 1]))| <= |o|
  {
    UnitsStep(unic, p);
  }

  /** The next unit has been encoded behind q. */
  lemma OneMoreUnit(unic: seq<bv8>, p: nat, text: seq<bv8>, o: seq<bv8>, q: nat, was: seq<bv8>, o': seq<bv8>, q': nat)
    requires Converted(unic, p, text, o, q, was) && (unic[p] != 0 || unic[p + 1] != 0)
    requires var e := Encode(Unit(unic[p], unic[p + 1])); Stored(o, q, e, o') && q' == q + |e|
    ensures Converted(unic, p + 2, text, o', q', was)
  {
    UnitsStep(unic, p);
    Split(text, q, Encode(Unit(unic[p], unic[p + 1])), Utf8Of(unic[p + 2..]));
    assert o[q'..] == o[q..][q' - q..] && was[q'..] == was[q..][q' - q..];
  }

  /** The body of that loop. */
  method ConvertUnit(unic: seq<bv8>, p: nat, out: array<bv8>, q: nat, outSize: int, ghost text: seq<bv8>,
                     ghost was: seq<bv8>)
    returns (ret: nat)
    requires Converted(unic, p, text, out[..], q, was) && (unic[p] != 0 || unic[p + 1] != 0) && outSize >= 6
    modifies out
    ensures Converted(unic, p + 2, text, out[..], q + ret, was)
  {
    ghost var o := out[..];
    var longCh := (unic[p] as bv32) << 8;
    longCh := longCh | (unic[p + 1] as bv32);
    RoomForUnit(unic, p, text, o, q, was);
    ret := Append(longCh, out, q, outSize);
    OneMoreUnit(unic, p, text, o, q, was, out[..], q + ret);
  }

  /** unicode_to_utf8: writes the encodings of all units one after the other, without a terminator. */
  method UnicodeToUtf8(unic: seq<bv8>, out: array<bv8>, outSize: int) returns (r: int)
    requires Terminated(unic) && outSize >= 6
    requires |Utf8Of(unic)| <= out.Length
    modifies out
    ensures var n := |Utf8Of(unic)|; out[..n] == Utf8Of(unic) && out[n..] == old(out[n..])
    ensures r == 0
  {
    var p, q := 0, 0;
    ghost var text, was := Utf8Of(unic), out[..];
    assert unic[0..] == unic;
    while unic[p] != 0 || unic[p + 1] != 0
      invariant 0 <= p && 0 <= q && Converted(unic, p, text, out[..], q, was)
      decreases |unic| - p
    {
      var ret := ConvertUnit(unic, p, out, q, outSize, text, was);
      p := p + 2;
      q := q + ret;
    }
    AllConverted(unic, p, text, out[..], q, was);
    r := 0;
  }

  lemma AllConverted(unic: seq<bv8>, p: nat, text: seq<bv8>, o: seq<bv8>, q: nat, was: seq<bv8>)
    requires Converted(unic, p, text, o, q, was) && unic[p] == 0 && unic[p + 1] == 0
    ensures var n := |text|; n <= |o| && o[..n] == text && o[n..] == was[n..]
  {
  }

  lemma Split(all: seq<bv8>, q: nat, e: seq<bv8>, rest: seq<bv8>)
    requires q <= |all| && all[q..] == e + rest
    ensures q + |e| <= |all| && all[..q + |e|] == all[..q] + e && all[q + |e|..] == rest
  {
    assert all == all[..q] + (e + rest);
  }

  /**
    What utf8_to_unicode does with a byte string: it ends at a NUL byte, or it gets Stuck on a
    character the decoder rejects (the input pointer then advances by zero, nothing is written, and
    the same iteration repeats for ever), or it reads behind the given bytes. `out` is what has been
    written by then.
   */
  datatype Outcome = Done(out: seq<bv8>) | Stuck(out: seq<bv8>) | ReadBehind

  /** Only characters of one and three bytes are written; others are skipped. */
  function Written(d: Decoded): seq<bv8>
    requires d.Decoded?
  {
    if d.size == 1 then [0, Low(d.code)] else if d.size == 3 then [High(d.code), Low(d.code)] else []
  }

  function Prepend(w: seq<bv8>, o: Outcome): Outcome {
    match o
    case Done(out) => Done(w + out)
    case Stuck(out) => Stuck(w + out)
    case ReadBehind => ReadBehind
  }

  function FromUtf8(b: seq<bv8>): Outcome {
    if b == [] then ReadBehind
    else if b[0] == 0 then Done([])
    else var d := Decode(b);
      if d.Overrun? then ReadBehind
      else if d.size == 0 then Stuck([])
      else Prepend(Written(d), FromUtf8(b[Advance(b)..]))
  }

  /** How far a decoded character moves the input pointer. */
  function Advance(b: seq<bv8>): (n: nat)
    requires Decode(b).Decoded? && Decode(b).size != 0
    ensures 0 < n <= |b|
  {
    Decode(b).size
  }

  lemma FirstCharacter(b: seq<bv8>)
    requires b != [] && b[0] != 0 && !FromUtf8(b).ReadBehind?
    ensures var d := Decode(b);
            && d.Decoded?
            && (d.size == 0 ==> FromUtf8(b) == Stuck([]))
            && (d.size != 0 ==>
                  0 < d.size < |b| && FromUtf8(b) == Prepend(Written(d), FromUtf8(b[d.size..])))
  {
  }

  lemma FromUtf8Step(b: seq<bv8>, p: nat)
    requires p < |b| && b[p] != 0 && !FromUtf8(b[p..]).ReadBehind?
    ensures var d := Decode(b[p..]);
            && d.Decoded?
            && (d.size == 0 ==> FromUtf8(b[p..]) == Stuck([]))
            && (d.size != 0 ==>
                  && 0 < d.size < |b| - p
                  && FromUtf8(b[p..]) == Prepend(Written(d), FromUtf8(b[p + d.size..])))
  {
    FirstCharacter(b[p..]);
    var d := Decode(b[p..]);
    if d.size != 0 {
      assert b[p..][d.size..] == b[p + d.size..];
    }
  }

  /** The stores of the switch. */
  method Store(out: array<bv8>, at: nat, size: int, code: bv32) returns (len: nat)
    requires at + |Written(Decoded(size, code))| <= out.Length
    modifies out
    ensures len == at + |Written(Decoded(size, code))|
    ensures out[..len] == old(out[..at]) + Written(Decoded(size, code))
  {
    len := at;
    match size {
      case 1 =>
        out[len] := 0;
        out[len + 1] := Low(code);
        len := len + 2;
      case 3 =>
        out[len] := High(code);
        out[len + 1] := Low(code);
        len := len + 2;
      case _ =>
    }
  }

  lemma PrependTwice(v: seq<bv8>, w: seq<bv8>, o: Outcome)
    ensures Prepend(v, Prepend(w, o)) == Prepend(v + w, o)
  {
    if !o.ReadBehind? {
      assert v + (w + o.out) == v + w + o.out;
    }
  }

  /** The state of the loop below: o has been written for the bytes before p, of all that is to come. */
  ghost predicate Progress(all: Outcome, input: seq<bv8>, p: nat, o: seq<bv8>) {
    p < |input| && !all.ReadBehind? && all == Prepend(o, FromUtf8(input[p..]))
  }

  /** One more character, d: x is what becomes of all bytes, y of those from this character on, and z of
      those behind it. */
  lemma OneMore(x: Outcome, o: seq<bv8>, y: Outcome, d: Decoded, z: Outcome)
    requires x == Prepend(o, y) && !x.ReadBehind? && d.Decoded?
    requires y == if d.size == 0 then Stuck([]) else Prepend(Written(d), z)
    ensures if d.size == 0 then x == Stuck(o)
            else x == Prepend(o + Written(d), z) && |o + Written(d)| <= |x.out|
  {
    if d.size != 0 {
      PrependTwice(o, Written(d), z);
    } else {
      assert o + [] == o;
    }
  }

  lemma ProgressStep(all: Outcome, input: seq<bv8>, p: nat, o: seq<bv8>)
    requires Progress(all, input, p, o) && input[p] != 0
    ensures Decode(input[p..]).Decoded?
    ensures var d := Decode(input[p..]);
            if d.size == 0 then all == Stuck(o)
            else d.size > 0 && Progress(all, input, p + d.size, o + Written(d)) && |o + Written(d)| <= |all.out|
  {
    FromUtf8Step(input, p);
    var d := Decode(input[p..]);
    var z := if d.size == 0 then ReadBehind else FromUtf8(input[p + d.size..]);
    OneMore(all, o, FromUtf8(input[p..]), d, z);
  }

  /** The body of that loop. */
  method DecodeStep(ghost all: Outcome, input: seq<bv8>, p: nat, out: array<bv8>, len: nat)
    returns (utfbytes: int, len': nat)
    requires len <= out.Length && Progress(all, input, p, out[..len]) && input[p] != 0
    requires |all.out| <= out.Length
    modifies out
    ensures len' <= out.Length && utfbytes >= 0
    ensures utfbytes == 0 ==> len' == len && all == Stuck(out[..len])
    ensures utfbytes != 0 ==> Progress(all, input, p + utfbytes, out[..len'])
  {
    ProgressStep(all, input, p, out[..len]);
    var output;
    utfbytes, output := DecodeOne(input[p..]);
    len' := len;
    if utfbytes != 0 {
      len' := Store(out, len, utfbytes, output);
    }
  }

  /** utf8_to_unicode. Where the source would loop for ever, `stuck` is returned. */
  method Utf8ToUnicode(input: seq<bv8>, out: array<bv8>) returns (unicLen: nat, stuck: bool)
    requires !FromUtf8(input).ReadBehind? && |FromUtf8(input).out| <= out.Length
    modifies out
    ensures unicLen <= out.Length
    ensures FromUtf8(input) == if stuck then Stuck(out[..unicLen]) else Done(out[..unicLen])
  {
    var p := 0;
    ghost var all := FromUtf8(input);
    unicLen, stuck := 0, false;
    NothingYet(input);
    assert out[..0] == [];
    while input[p] != 0
      invariant 0 <= p && unicLen <= out.Length && Progress(all, input, p, out[..unicLen])
      decreases |input| - p
    {
      var utfbytes, len' := DecodeStep(all, input, p, out, unicLen);
      if utfbytes == 0 {
        return unicLen, true;
      }
      p := p + utfbytes;
      unicLen := len';
    }
    AtTheEnd(all, input, p, out[..unicLen]);
  }

  lemma NothingYet(input: seq<bv8>)
    requires !FromUtf8(input).ReadBehind?
    ensures Progress(FromUtf8(input), input, 0, [])
  {
    assert input[0..] == input;
    assert Prepend([], FromUtf8(input)) == FromUtf8(input);
  }

  lemma AtTheEnd(all: Outcome, input: seq<bv8>, p: nat, o: seq<bv8>)
    requires Progress(all, input, p, o) && input[p] == 0
    ensures all == Done(o)
  {
    assert FromUtf8(input[p..]) == Done([]);
    assert o + [] == o;
  }

  // Any bytes whatever, character by character.

  /** The first p bytes are good characters, none of them NUL. */
  predicate GoodTo(b: seq<bv8>, p: nat)
    decreases p
  {
    p <= |b|
    && (p == 0 || (IsGood(b) && b[0] != 0 && CharLength(b[0]) <= p
                   && GoodTo(b[CharLength(b[0])..], p - CharLength(b[0]))))
  }

  /** What is written for a good character: its code, the high byte first, if it has one or three bytes. */
  function WrittenFor(b: seq<bv8>): seq<bv8>
    requires IsGood(b)
  {
    var n := CharLength(b[0]);
    if n == 1 || n == 3 then [High(CodeRead(b)), Low(CodeRead(b))] else []
  }

  function BytesTo(b: seq<bv8>, p: nat): seq<bv8>
    requires GoodTo(b, p)
    decreases p
  {
    if p == 0 then []
    else WrittenFor(b) + BytesTo(b[CharLength(b[0])..], p - CharLength(b[0]))
  }

  lemma AsciiHigh(c: bv8)
    requires c <= 0x7F
    ensures High(c as bv32) == 0
  {
  }

  lemma GoodStep(b: seq<bv8>)
    requires IsGood(b) && b[0] != 0
    ensures FromUtf8(b) == Prepend(WrittenFor(b), FromUtf8(b[CharLength(b[0])..]))
  {
    DecodeInBytes(b);
    if CharLength(b[0]) == 1 {
      AsciiHigh(b[0]);
    }
  }

  lemma FirstGood(b: seq<bv8>, p: nat)
    requires GoodTo(b, p) && p > 0
    ensures IsGood(b) && b[0] != 0 && CharLength(b[0]) <= p <= |b|
    ensures var n := CharLength(b[0]);
            && GoodTo(b[n..], p - n) && BytesTo(b, p) == WrittenFor(b) + BytesTo(b[n..], p - n)
            && b[n..][p - n..] == b[p..]
  {
  }

  lemma NothingPrepended(o: Outcome)
    ensures Prepend([], o) == o
  {
  }

  lemma BothPrepended(all: Outcome, v: seq<bv8>, rest: Outcome, w: seq<bv8>, end: Outcome, both: seq<bv8>)
    requires all == Prepend(v, rest) && rest == Prepend(w, end) && both == v + w
    ensures all == Prepend(both, end)
  {
    PrependTwice(v, w, end);
  }

  /** A reading passes the good character in front. */
  ghost predicate StepsOver(read: imap<seq<bv8>, Outcome>, b: seq<bv8>)
    requires forall c :: c in read
  {
    IsGood(b) && b[0] != 0 ==> read[b] == Prepend(WrittenFor(b), read[b[CharLength(b[0])..]])
  }

  lemma {:induction false} PassesBy(read: imap<seq<bv8>, Outcome>, b: seq<bv8>, p: nat)
    requires GoodTo(b, p) && (forall c :: c in read) && forall c :: StepsOver(read, c)
    ensures read[b] == Prepend(BytesTo(b, p), read[b[p..]])
    decreases p
  {
    if p == 0 {
      assert b[0..] == b;
      NothingPrepended(read[b]);
    } else {
      FirstGood(b, p);
      var n := CharLength(b[0]);
      var rest := b[n..];
      assert StepsOver(read, b);
      PassesBy(read, rest, p - n);
      BothPrepended(read[b], WrittenFor(b), read[rest], BytesTo(rest, p - n), read[b[p..]], BytesTo(b, p));
    }
  }

  /** Good characters are passed, and written or skipped. */
  lemma PassesGood(b: seq<bv8>, p: nat)
    requires GoodTo(b, p)
    ensures FromUtf8(b) == Prepend(BytesTo(b, p), FromUtf8(b[p..]))
  {
    var read := imap c: seq<bv8> | true :: FromUtf8(c);
    forall c
      ensures StepsOver(read, c)
    {
      if IsGood(c) && c[0] != 0 {
        GoodStep(c);
      }
    }
    PassesBy(read, b, p);
  }

  /** So the loop ends at the first NUL, if only good characters are in front of it; and it gets stuck at the first
      bad one. */
  lemma EndsOrSticks(b: seq<bv8>, p: nat)
    requires GoodTo(b, p) && p < |b|
    ensures b[p] == 0 ==> FromUtf8(b) == Done(BytesTo(b, p))
    ensures b[p] != 0 && IsBad(b[p..]) ==> FromUtf8(b) == Stuck(BytesTo(b, p))
  {
    PassesGood(b, p);
    DecodeInBytes(b[p..]);
    assert BytesTo(b, p) + [] == BytesTo(b, p);
  }

  /** What stands where the loop ends, gets stuck, or reads behind the bytes. */
  predicate EndsAt(b: seq<bv8>, o: Outcome, p: nat) {
    match o
    case Done(_) => p < |b| && b[p] == 0
    case Stuck(_) => p < |b| && b[p] != 0 && IsBad(b[p..])
    case ReadBehind => p == |b| || (p < |b| && b[p] != 0 && CharLength(b[p]) > |b| - p)
  }

  lemma EndsAtOnce(b: seq<bv8>)
    requires b == [] || b[0] == 0 || !IsGood(b)
    ensures GoodTo(b, 0) && EndsAt(b, FromUtf8(b), 0)
  {
    DecodeInBytes(b);
    assert b[0..] == b;
  }

  lemma OneFurther(b: seq<bv8>, w: seq<bv8>, o: Outcome, q: nat)
    requires IsGood(b) && b[0] != 0 && GoodTo(b[CharLength(b[0])..], q) && EndsAt(b[CharLength(b[0])..], o, q)
    ensures var p := CharLength(b[0]) + q; GoodTo(b, p) && EndsAt(b, Prepend(w, o), p)
  {
    var n := CharLength(b[0]);
    assert b[n..][q..] == b[n + q..];
  }

  /** And there is no other way to end or to get stuck. */
  lemma {:induction false} WhereItEnds(b: seq<bv8>) returns (p: nat)
    ensures GoodTo(b, p) && EndsAt(b, FromUtf8(b), p)
    decreases |b|
  {
    if b != [] && b[0] != 0 && IsGood(b) {
      var n := CharLength(b[0]);
      GoodStep(b);
      var q := WhereItEnds(b[n..]);
      OneFurther(b, WrittenFor(b), FromUtf8(b[n..]), q);
      p := n + q;
    } else {
      EndsAtOnce(b);
      p := 0;
    }
  }

  /** The loop never ends if and only if the bytes begin with good characters and then a bad one. */
  lemma StuckAtFirstBad(b: seq<bv8>)
    ensures FromUtf8(b).Stuck? <==> exists p: nat :: GoodTo(b, p) && p < |b| && b[p] != 0 && IsBad(b[p..])
  {
    var q := WhereItEnds(b);
    forall p: nat | GoodTo(b, p) && p < |b| && b[p] != 0 && IsBad(b[p..])
      ensures FromUtf8(b).Stuck?
    {
      EndsOrSticks(b, p);
    }
  }

  /** For example, one character there and back, and the same cut short. */
  lemma OneCharacter()
    ensures Concat(Encode, [0x4E2D]) == [0xE4, 0xB8, 0xAD]
    ensures FromUtf8([0xE4, 0xB8, 0xAD, 0]) == Done([0x4E, 0x2D])
    ensures FromUtf8([0xE4, 0xB8, 0x41, 0]) == Stuck([])
  {
    var whole, cut := [0xE4, 0xB8, 0xAD, 0], [0xE4, 0xB8, 0x41, 0];
    assert whole == [0xE4, 0xB8, 0xAD] + [0] && cut == [0xE4, 0xB8, 0x41] + [0];
    CutCharacter([0]);
    Select3(0x4E2D);
    assert whole[3..] == [0];
    assert FromUtf8([0]) == Done([]);
    assert FromUtf8(whole) == Prepend([0x4E, 0x2D], FromUtf8(whole[3..]));
  }

  /** The codes that come back: those of one or three UTF-8 bytes. */
  predicate Kept(u: bv32) {
    u <= 0x7F || 0x7FF < u <= 0xFFFF
  }

  /** The codes that are never passed: those of two bytes with bit 5 set. */
  predicate Stops(u: bv32) {
    0x7F < u <= 0x7FF && u & 0x20 != 0
  }

  /** What comes back of one code. */
  function Back(u: bv32): seq<bv8> {
    if Kept(u) then [High(u), Low(u)] else []
  }

  function KeptUnits(us: seq<bv32>): seq<bv32> {
    if us == [] then [] else (if Kept(us[0]) then [us[0]] else []) + KeptUnits(us[1..])
  }

  predicate IsUnit(u: bv32) {
    0 < u <= 0xFFFF
  }

  predicate IsCode(u: bv32) {
    0 < u <= MAX_CODE
  }

  lemma FirstByteNonZero(u: bv32)
    requires IsCode(u)
    ensures Encode(u) != [] && Encode(u)[0] != 0
  {
    EncodeIsWellFormed(u);
    if u > 0x7F {
      LeadIsNotZero(Encode(u)[0], |Encode(u)|);
    }
  }

  lemma LeadIsNotZero(l: bv8, n: nat)
    requires 2 <= n <= 6 && LeadFits(l, n)
    ensures l != 0
  {
  }

  /** One code through the encoder and one iteration of the decoding loop: it is written, or skipped, or the loop
      gets stuck on it. */
  lemma CodeThrough(u: bv32, rest: seq<bv8>)
    requires IsCode(u)
    ensures FromUtf8(Encode(u) + rest) ==
            if Stops(u) then Stuck([]) else Prepend(Back(u), FromUtf8(rest))
  {
    var b := Encode(u) + rest;
    FirstByteNonZero(u);
    DecodeUndoesEncode(u, rest);
    LengthOfCode(u);
    if u <= 0x7F {
      UnitParts(u);
    }
    assert b[|Encode(u)|..] == rest;
  }

  lemma LengthOfCode(u: bv32)
    requires IsCode(u)
    ensures var n := |Encode(u)|;
            if u <= 0x7F then n == 1 else if u <= 0x7FF then n == 2 else if u <= 0xFFFF then n == 3 else n > 3
  {
  }

  lemma KeptCons(u: bv32, us: seq<bv32>)
    ensures BigEndian(KeptUnits([u] + us)) == Back(u) + BigEndian(KeptUnits(us))
  {
    assert ([u] + us)[1..] == us;
    var kept := KeptUnits(us);
    if Kept(u) {
      assert ([u] + kept)[1..] == kept;
    } else {
      assert [] + kept == kept;
    }
  }

  lemma KeptFirst(us: seq<bv32>, k: nat)
    requires 0 < k <= |us|
    ensures BigEndian(KeptUnits(us[..k])) == Back(us[0]) + BigEndian(KeptUnits(us[1..][..k - 1]))
  {
    var rest := us[1..][..k - 1];
    KeptCons(us[0], rest);
    assert us[..k] == [us[0]] + rest;
  }

  /** The place of the first code on which the loop gets stuck, or the length of the string. */
  function FirstLost(us: seq<bv32>): (k: nat)
    ensures k <= |us| && (k < |us| ==> Stops(us[k])) && forall i | 0 <= i < k :: !Stops(us[i])
  {
    if us == [] || Stops(us[0]) then 0 else 1 + FirstLost(us[1..])
  }

  lemma {:induction false} ThereAndBackTo(us: seq<bv32>, junk: seq<bv8>)
    requires forall i | 0 <= i < |us| :: IsCode(us[i])
    ensures var k := FirstLost(us); var back := BigEndian(KeptUnits(us[..k]));
            FromUtf8(Concat(Encode, us) + [0] + junk) == if k == |us| then Done(back) else Stuck(back)
  {
    if us != [] {
      var rest := Concat(Encode, us[1..]) + [0] + junk;
      assert Concat(Encode, us) + [0] + junk == Encode(us[0]) + rest;
      CodeThrough(us[0], rest);
      if !Stops(us[0]) {
        ThereAndBackTo(us[1..], junk);
        KeptFirst(us, FirstLost(us));
      }
    }
  }

  /**
    Any string of non-zero codes, UTF-16 units or not, in UTF-8 and terminated, then converted: up to the first code
    in U+0080..U+07FF that has bit 5 set, the codes of one and three bytes come back, and no others. If there is such
    a code, the loop never ends.
   */
  lemma ThereAndBack(us: seq<bv32>, junk: seq<bv8>)
    requires forall i | 0 <= i < |us| :: IsCode(us[i])
    ensures var k := FirstLost(us);
            FromUtf8(Concat(Encode, us) + [0] + junk)
            == if k == |us| then Done(BigEndian(KeptUnits(us))) else Stuck(BigEndian(KeptUnits(us[..k])))
  {
    ThereAndBackTo(us, junk);
    assert us[..|us|] == us;
  }

  /** One character that is never passed: on U+00A0 the loop does not end, whatever follows. */
  lemma StuckText(junk: seq<bv8>)
    ensures FromUtf8([0xC2, 0xA0, 0] + junk) == Stuck([])
  {
    ThereAndBack([0xA0], junk);
    Select2(0xA0);
    assert Concat(Encode, [0xA0]) == [0xC2, 0xA0];
    assert [0xC2, 0xA0] + [0] + junk == [0xC2, 0xA0, 0] + junk;
  }

  lemma {:induction false} NothingDropped(us: seq<bv32>)
    ensures |KeptUnits(us)| <= |us|
    ensures |KeptUnits(us)| == |us| ==> KeptUnits(us) == us
    ensures KeptUnits(us) == us <==> forall i | 0 <= i < |us| :: Kept(us[i])
  {
    if us != [] {
      NothingDropped(us[1..]);
      assert us == [us[0]] + us[1..];
      assert forall i | 0 < i < |us| :: us[i] == us[1..][i - 1];
    }
  }

  /** The string itself comes back exactly when all its codes are of one or three bytes. */
  lemma ExactRoundTrip(us: seq<bv32>, junk: seq<bv8>)
    requires forall i | 0 <= i < |us| :: IsCode(us[i])
    ensures FromUtf8(Concat(Encode, us) + [0] + junk) == Done(BigEndian(us))
            <==> forall i | 0 <= i < |us| :: Kept(us[i])
  {
    ThereAndBack(us, junk);
    NothingDropped(us);
    BigEndianLength(us);
    BigEndianLength(KeptUnits(us));
  }

  /** A terminated buffer holds its units, high byte first, a zero unit, and whatever follows. */
  lemma {:induction false} UnitsAreTheText(b: seq<bv8>)
    requires Terminated(b)
    ensures forall i | 0 <= i < |Units(b)| :: IsUnit(Units(b)[i])
    ensures var n := 2 * |Units(b)|; n + 2 <= |b| && b[..n] == BigEndian(Units(b)) && b[n] == 0 && b[n + 1] == 0
  {
    if b[0] != 0 || b[1] != 0 {
      UnitsAreTheText(b[2..]);
      PartsOfUnit(b[0], b[1]);
      var n := 2 * |Units(b[2..])|;
      assert b[..n + 2] == [b[0], b[1]] + b[2..][..n];
      assert Units(b)[1..] == Units(b[2..]);
    }
  }

  lemma PartsOfUnit(hi: bv8, lo: bv8)
    ensures High(Unit(hi, lo)) == hi && Low(Unit(hi, lo)) == lo
    ensures hi != 0 || lo != 0 ==> IsUnit(Unit(hi, lo))
  {
  }

  /** And every string of units is the text of the buffer that is filled so. */
  lemma {:induction false} TextHasTheUnits(us: seq<bv32>, junk: seq<bv8>)
    requires forall i | 0 <= i < |us| :: IsUnit(us[i])
    ensures Terminated(BigEndian(us) + [0, 0] + junk) && Units(BigEndian(us) + [0, 0] + junk) == us
  {
    if us != [] {
      TextHasTheUnits(us[1..], junk);
      UnitParts(us[0]);
      assert (BigEndian(us) + [0, 0] + junk)[2..] == BigEndian(us[1..]) + [0, 0] + junk;
      assert us == [us[0]] + us[1..];
    }
  }

  lemma BackLength(us: seq<bv32>, junk: seq<bv8>)
    requires forall i | 0 <= i < |us| :: IsCode(us[i])
    ensures var back := FromUtf8(Concat(Encode, us) + [0] + junk); !back.ReadBehind? && |back.out| <= 2 * |us|
  {
    var k := FirstLost(us);
    ThereAndBack(us, junk);
    BigEndianLength(KeptUnits(us[..k]));
    BigEndianLength(KeptUnits(us));
    NothingDropped(us[..k]);
    NothingDropped(us);
  }

  lemma KeptText(unic: seq<bv8>)
    requires Terminated(unic)
    ensures var us := Units(unic); var kept := KeptUnits(us);
            && |BigEndian(kept)| == 2 * |kept| && 2 * |us| <= |unic|
            && ((forall i | 0 <= i < |us| :: Kept(us[i])) ==> |kept| == |us| && BigEndian(kept) == unic[..2 * |us|])
  {
    UnitsAreTheText(unic);
    NothingDropped(Units(unic));
    BigEndianLength(KeptUnits(Units(unic)));
  }

  /**
    Both converters in a row, over a buffer of zeros, since unicode_to_utf8 writes no terminator. The loop of
    utf8_to_unicode ends if and only if no unit in U+0080..U+07FF has bit 5 set; then the units outside
    U+0080..U+07FF have come back, two bytes each, and the whole text if it has no others.
   */
  method ConvertAndBack(unic: seq<bv8>, utf8: array<bv8>, outSize: int, out: array<bv8>)
    returns (unicLen: nat, stuck: bool)
    requires Terminated(unic) && outSize >= 6 && utf8 != out
    requires |Utf8Of(unic)| < utf8.Length && 2 * |Units(unic)| <= out.Length
    modifies utf8, out
    ensures stuck <==> exists i | 0 <= i < |Units(unic)| :: Stops(Units(unic)[i])
    ensures !stuck ==> unicLen == 2 * |KeptUnits(Units(unic))| <= out.Length
    ensures !stuck ==> out[..unicLen] == BigEndian(KeptUnits(Units(unic)))
    ensures (forall i | 0 <= i < |Units(unic)| :: Kept(Units(unic)[i])) ==>
              !stuck && unicLen == 2 * |Units(unic)| <= |unic| && out[..unicLen] == unic[..unicLen]
  {
    ghost var us := Units(unic);
    for i := 0 to utf8.Length
      modifies utf8
      invariant forall j | 0 <= j < i :: utf8[j] == 0
    {
      utf8[i] := 0;
    }
    var r := UnicodeToUtf8(unic, utf8, outSize);
    ghost var n := |Utf8Of(unic)|;
    ghost var junk := utf8[n + 1..];
    assert utf8[n] == utf8[n..][0] == 0;
    assert utf8[..] == Concat(Encode, us) + [0] + junk;
    UnitsAreTheText(unic);
    BackLength(us, junk);
    ThereAndBack(us, junk);
    KeptText(unic);
    unicLen, stuck := Utf8ToUnicode(utf8[..], out);
  }
}
