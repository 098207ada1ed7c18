/**
  The message format in numbers: which bytes stand where for which type of parameter, what comes back of them, and
  which bits of a command or type word mean what. Everything in IpcCodec and IpcCalls is held to this.
 */
module IpcWire {
  import opened Bits
  import opened IpcCodec
  import opened IpcCalls

  /** Four bytes, the low one first. */
  function LowFirst(x: nat): seq<byte> {
    [x % 256, x / 0x100 % 256, x / 0x1_0000 % 256, x / 0x100_0000 % 256]
  }

  /** The four bits of type i. */
  function Nibble(types: nat, i: nat): nat
    requires i < 6
  {
    match i
    case 0 => types % 16
    case 1 => types / 0x10 % 16
    case 2 => types / 0x100 % 16
    case 3 => types / 0x1000 % 16
    case 4 => types / 0x1_0000 % 16
    case _ => types / 0x10_0000 % 16
  }

  /** The types 1 to 3 are values and the types 5 to 7 buffers; the union holds what its type says. */
  predicate Fits(t: nat, p: Param) {
    && (1 <= t <= 3 ==> p.Value? && |p.rest| == 8)
    && (5 <= t <= 7 ==> p.Memref? && p.size <= |p.buffer| && p.size < 0x1_0000_0000)
  }

  /** Sixteen bytes for a value, its first word in front; a buffer behind its size; nothing for any other type. */
  function FieldBytes(t: nat, p: Param): seq<byte>
    requires Fits(t, p)
  {
    if 1 <= t <= 3 then LowFirst(p.a) + LowFirst(p.b) + p.rest
    else if 5 <= t <= 7 then LowFirst(p.size) + p.buffer[..p.size]
    else []
  }

  /** What arrives of it: the value, the buffer cut to its size, or nothing. */
  function Arrival(t: nat, p: Param): Option<Param>
    requires Fits(t, p)
  {
    if 1 <= t <= 3 then Some(p)
    else if 5 <= t <= 7 then Some(Memref(p.buffer[..p.size], p.size))
    else None
  }

  /** How many parameters a call has: the types in front of the first zero. */
  function Count(types: nat, i: nat): (n: nat)
    requires i <= 6
    ensures i <= n <= 6
    decreases 6 - i
  {
    if i == 6 || Nibble(types, i) == 0 then i else Count(types, i + 1)
  }

  predicate AllFit(types: nat, params: seq<Param>) {
    |params| == 6 && forall i | 0 <= i < Count(types, 0) :: Fits(Nibble(types, i), params[i])
  }

  /** The first n parameters, one behind the other. */
  function Fields(types: nat, params: seq<Param>, n: nat): seq<byte>
    requires AllFit(types, params) && n <= Count(types, 0)
  {
    if n == 0 then [] else Fields(types, params, n - 1) + FieldBytes(Nibble(types, n - 1), params[n - 1])
  }

  /** The whole message: command, types, parameters. */
  function Format(cmd: uint32, types: uint32, params: seq<Param>): seq<byte>
    requires AllFit(types, params)
  {
    LowFirst(cmd) + LowFirst(types) + Fields(types, params, Count(types, 0))
  }

  lemma WordIsLowFirst(x: uint32)
    ensures Word(x) == LowFirst(x)
  {
    assert x / 0x100 / 0x100 == x / 0x1_0000;
    assert x / 0x1_0000 / 0x100 == x / 0x100_0000 < 256;
  }

  lemma TypeIsNibble(types: uint32, i: nat)
    requires i < 6
    ensures TypeAt(types, i) == Nibble(types, i)
  {
    Shifted(types, i);
    assert Pow16(1) == 0x10 && Pow16(2) == 0x100 && Pow16(3) == 0x1000 && Pow16(4) == 0x1_0000;
    assert Pow16(5) == 0x10_0000;
  }

  lemma {:induction false} Shifted(types: nat, i: nat)
    ensures Pow16(i) > 0 && TypeAt(types, i) == types / Pow16(i) % 16
    decreases i
  {
    if i > 0 {
      Shifted(types / 16, i - 1);
      TwoShifts(types, Pow16(i - 1));
    }
  }

  lemma TwoShifts(x: nat, d: nat)
    requires d > 0
    ensures 16 * d > 0 && x / 16 / d == x / (16 * d)
  {
    var q, r := x / 16 / d, x / 16 % d;
    var low := x % 16;
    assert x == 16 * (d * q + r) + low;
    var rest := 16 * r + low;
    assert x == (16 * d) * q + rest;
    assert rest < 16 * d;
    DivUnique(x, 16 * d, q, rest);
  }

  lemma DivUnique(x: nat, d: nat, q: nat, r: nat)
    requires x == d * q + r && r < d
    ensures x / d == q
  {
    ModUnique(x, d, q, r);
    assert d * (x / d) == d * q;
  }

  lemma {:induction false} CountIs(types: uint32, i: nat)
    requires i <= 6
    ensures Count(types, i) == i + |TypesFrom(types, i)|
    decreases 6 - i
  {
    if i < 6 {
      TypeIsNibble(types, i);
      CountIs(types, i + 1);
    }
  }

  /** The signature in numbers. */
  lemma SignatureInNumbers(types: uint32)
    ensures |Signature(types)| == Count(types, 0)
    ensures forall i | 0 <= i < |Signature(types)| :: Signature(types)[i] == Nibble(types, i)
  {
    CountIs(types, 0);
    forall i | 0 <= i < |Signature(types)|
      ensures Signature(types)[i] == Nibble(types, i)
    {
      SignatureAt(types, i);
      TypeIsNibble(types, i);
    }
  }

  /** One parameter: its bytes, and what arrives of it, for every type. */
  lemma FieldInNumbers(t: nat, p: Param)
    requires Fits(t, p)
    ensures Sendable(t, p) && Field(t, p) == FieldBytes(t, p)
    ensures Means(t, FieldBytes(t, p), Arrival(t, p))
    ensures |FieldBytes(t, p)| == if 1 <= t <= 3 then 16 else if 5 <= t <= 7 then 4 + p.size else 0
  {
    if 1 <= t <= 3 {
      WordIsLowFirst(p.a);
      WordIsLowFirst(p.b);
    } else if 5 <= t <= 7 {
      WordIsLowFirst(p.size);
    }
    FieldMeans(t, p);
  }

  lemma PieceInNumbers(types: uint32, params: seq<Param>, i: nat)
    requires AllFit(types, params) && i < Count(types, 0)
    requires AllSendable(Signature(types), params) && |Signature(types)| == Count(types, 0)
    ensures Pieces(Signature(types), params)[i] == FieldBytes(Nibble(types, i), params[i])
  {
    SignatureInNumbers(types);
    FieldInNumbers(Nibble(types, i), params[i]);
  }

  lemma {:induction false} FieldsInNumbers(types: uint32, params: seq<Param>, fs: seq<seq<byte>>, n: nat)
    requires AllFit(types, params) && n <= Count(types, 0) == |fs|
    requires forall i | 0 <= i < |fs| :: fs[i] == FieldBytes(Nibble(types, i), params[i])
    ensures Concat(fs, n) == Fields(types, params, n)
  {
    if n > 0 {
      FieldsInNumbers(types, params, fs, n - 1);
    }
  }

  lemma FitIsSendable(types: uint32, params: seq<Param>)
    requires AllFit(types, params)
    ensures |Signature(types)| == Count(types, 0) && AllSendable(Signature(types), params)
  {
    SignatureInNumbers(types);
    forall i | 0 <= i < Count(types, 0)
      ensures Sendable(Signature(types)[i], params[i])
    {
      FieldInNumbers(Nibble(types, i), params[i]);
    }
  }

  /** Every message is in that format, byte for byte. */
  lemma MessageInBytes(cmd: uint32, types: uint32, params: seq<Param>)
    requires AllFit(types, params)
    ensures AllSendable(Signature(types), params) && Message(cmd, types, params) == Format(cmd, types, params)
  {
    FitIsSendable(types, params);
    forall i | 0 <= i < Count(types, 0)
      ensures Pieces(Signature(types), params)[i] == FieldBytes(Nibble(types, i), params[i])
    {
      PieceInNumbers(types, params, i);
    }
    FieldsInNumbers(types, params, Pieces(Signature(types), params), Count(types, 0));
    WordIsLowFirst(cmd);
    WordIsLowFirst(types);
  }

  /** And whoever reads it, with whatever behind it, gets command, types and what arrives of each parameter. */
  lemma FormatIsRead(cmd: uint32, types: uint32, params: seq<Param>, junk: seq<byte>)
    requires AllFit(types, params)
    ensures var r := Read(Format(cmd, types, params) + junk);
            && r.Some? && r.value.cmd == cmd && r.value.types == types && r.value.end == |Format(cmd, types, params)|
            && |r.value.params| == Count(types, 0)
            && forall i | 0 <= i < Count(types, 0) :: r.value.params[i] == Arrival(Nibble(types, i), params[i])
  {
    MessageInBytes(cmd, types, params);
    MessageBack(cmd, types, params, junk);
    SignatureInNumbers(types);
    forall i | 0 <= i < Count(types, 0)
      ensures Arrived(Signature(types)[i], params[i]) == Arrival(Nibble(types, i), params[i])
    {
      ArrivalIs(Nibble(types, i), params[i]);
    }
  }

  lemma ArrivalIs(t: nat, p: Param)
    requires Fits(t, p)
    ensures Sendable(t, p) && Arrived(t, p) == Arrival(t, p)
  {
    FieldInNumbers(t, p);
  }

  /** Two parameters, a value and a buffer to be filled. */
  lemma ValueAndBuffer(cmd: uint32, types: uint32, params: seq<Param>, junk: seq<byte>)
    requires Nibble(types, 0) == 1 && Nibble(types, 1) == 6 && Nibble(types, 2) == 0
    requires |params| == 6 && Fits(1, params[0]) && Fits(6, params[1])
    ensures AllSendable(Signature(types), params) && |Message(cmd, types, params)| == 8 + 16 + 4 + params[1].size
    ensures var r := Read(Message(cmd, types, params) + junk); var sent := params[1];
            r.Some? && r.value.params == [Some(params[0]), Some(Memref(sent.buffer[..sent.size], sent.size))]
  {
    assert Count(types, 2) == 2 && Count(types, 1) == 2 && Count(types, 0) == 2;
    MessageInBytes(cmd, types, params);
    FormatIsRead(cmd, types, params, junk);
    assert Fields(types, params, 0) == [];
    assert Fields(types, params, 1) == [] + FieldBytes(1, params[0]);
    assert Fields(types, params, 2) == Fields(types, params, 1) + FieldBytes(6, params[1]);
  }

  /** The registration that the client sends, with a buffer of 40 bytes: its message has 68. */
  lemma RegistrationMessage(params: seq<Param>, junk: seq<byte>)
    requires |params| == 6 && Fits(1, params[0]) && Fits(6, params[1]) && params[1].size == 40
    ensures AllSendable(Signature(0x61), params) && |Message(4, 0x61, params)| == 68
    ensures var r := Read(Message(4, 0x61, params) + junk);
            r.Some? && r.value.params == [Some(params[0]), Some(Memref(params[1].buffer[..40], 40))]
  {
    ValueAndBuffer(4, 0x61, params, junk);
  }

  // The bits of a command and of a type word.

  lemma LowBits(high: nat, seven: nat, one: nat)
    requires seven < 128 && one < 2
    ensures (0x100 * high + 2 * seven + one) % 256 == 2 * seven + one
    ensures (0x100 * high + 2 * seven + one) % 2 == one
  {
    ModUnique(0x100 * high + 2 * seven + one, 256, high, 2 * seven + one);
    ModUnique(0x100 * high + 2 * seven + one, 2, 128 * high + seven, one);
  }

  /** A command of 24 high bits, seven bits and one: the lowest bit marks a response, the seven bits a registration,
      and the high bits are the request, to which a reply adds the lowest bit. */
  lemma CommandBits(high: nat, seven: nat, one: nat)
    requires high < 0x100_0000 && seven < 128 && one < 2
    ensures var cmd: uint32 := 0x100 * high + 2 * seven + one;
            && (IsRespond(cmd) <==> one == 1)
            && (IsRegistration(cmd) <==> seven != 0)
            && RequestOf(cmd) == 0x100 * high
            && RespondTo(cmd) == 0x100 * high + 2 * seven + 1
  {
    LowBits(high, seven, one);
  }

  /** The mark of an asynchronous call is the top bit of the type word, and no other bit is touched by it. */
  lemma CallbackBit(top: nat, rest: nat)
    requires top < 2 && rest < 0x8000_0000
    ensures var types: uint32 := 0x8000_0000 * top + rest;
            && (IsAsync(types) <==> top == 1)
            && WithCallback(types) == 0x8000_0000 + rest
  {
  }

  // What a call brings back.

  /** The outputs are the parameters of the types 2 and 3: they are copied, and all others stay. */
  lemma OutputsInNumbers(types: uint32, own: seq<Param>, got: seq<Param>, i: nat)
    requires |own| == |got| == 6 && i < 6
    ensures Merge(types, own, got)[i] ==
            if i < Count(types, 0) && 2 <= Nibble(types, i) <= 3 then got[i] else own[i]
  {
    SignatureInNumbers(types);
  }

  /** What the server leaves in the parameters: 80 and 90 in the two words of the second one. */
  lemma AnswerInNumbers(params: seq<Param>, i: nat)
    requires Values(params) && i < 6
    ensures Answer(params)[i] == if i == 1 then Value(80, 90, params[1].rest) else params[i]
  {
  }

  /** What becomes of a message of values: the seven bits make it a registration, otherwise the top bit of the types
      an asynchronous call, and otherwise it is answered, with the lowest bit of the command set. */
  function Sorted(cmd: uint32, types: uint32, params: seq<Param>): Reaction
    requires Values(params) && AllFit(types, Answer(params))
  {
    if cmd / 2 % 128 != 0 then Registered(cmd, types, params)
    else if types >= 0x8000_0000 then Parked(cmd, types, params)
    else Reply(Format(if cmd % 2 == 0 then cmd + 1 else cmd, types, Answer(params)))
  }

  /** The server does that, whatever is behind the message. */
  lemma ServerSorts(cmd: uint32, types: uint32, params: seq<Param>, junk: seq<byte>)
    requires Values(params) && NoMemrefs(types)
    ensures AllFit(types, params) && AllFit(types, Answer(params))
    ensures var r := React(Format(cmd, types, params) + junk, params);
            r.Some? && r.value.0 == Sorted(cmd, types, params)
  {
    ValuesFit(types, params);
    ValuesFit(types, Answer(params));
    MessageInBytes(cmd, types, params);
    MessageBack(cmd, types, params, junk);
    FilledByItself(types, params);
    MessageInBytes(RespondTo(cmd), types, Answer(params));
    SevenBits(cmd);
  }

  lemma SevenBits(cmd: uint32)
    ensures IsRegistration(cmd) <==> cmd / 2 % 128 != 0
  {
    CommandBits(cmd / 256, cmd / 2 % 128, cmd % 2);
  }

  lemma ValuesFit(types: uint32, params: seq<Param>)
    requires Values(params) && NoMemrefs(types)
    ensures AllFit(types, params)
  {
    SignatureInNumbers(types);
    forall i | 0 <= i < Count(types, 0)
      ensures Fits(Nibble(types, i), params[i])
    {
      assert !IsMemref(Signature(types)[i]);
    }
  }

  lemma FilledByItself(types: uint32, params: seq<Param>)
    requires Values(params) && NoMemrefs(types) && AllSendable(Signature(types), params)
    ensures Fill(params, AllArrived(Signature(types), params)) == params
  {
  }
}
