/**
  Marshalling of one IPC message (android/linux/ipc/client/ipc_client_internal.c): a command id, a word
  of 4-bit parameter types, and the parameters. An ipc_param_t is a union of 16 bytes (an LP64 build).
 */
module IpcCodec {
  import opened Bits

  datatype Option<T> = None | Some(value: T)

  const IPC_NUM_PARAMS: nat := 6
  const REST_SIZE: nat := 8

  /** The union, as its type says it is to be read: two words and the bytes behind them, or a buffer. */
  datatype Param = Value(a: uint32, b: uint32, rest: seq<byte>) | Memref(buffer: seq<byte>, size: nat)

  const TYPE_NONE: nat := 0
  const VALUE_INPUT: nat := 1
  const VALUE_OUTPUT: nat := 2
  const VALUE_INOUT: nat := 3
  const MEMREF_INPUT: nat := 5
  const MEMREF_OUTPUT: nat := 6
  const MEMREF_INOUT: nat := 7

  /** IPC_PARAM_TYPE_GET: the word shifted right by i times 4 bits, and its low four bits. */
  function TypeAt(types: nat, i: nat): (t: nat)
    ensures t < 16
    decreases i
  {
    if i == 0 then types % 16 else TypeAt(types / 16, i - 1)
  }

  predicate IsValue(t: nat) {
    t == VALUE_INPUT || t == VALUE_OUTPUT || t == VALUE_INOUT
  }

  predicate IsMemref(t: nat) {
    t == MEMREF_INPUT || t == MEMREF_OUTPUT || t == MEMREF_INOUT
  }

  /** The types from number i on that precede the first type none. */
  function TypesFrom(types: uint32, i: nat): (ts: seq<nat>)
    requires i <= IPC_NUM_PARAMS
    ensures i + |ts| <= IPC_NUM_PARAMS
    decreases IPC_NUM_PARAMS - i
  {
    if i == IPC_NUM_PARAMS || TypeAt(types, i) == TYPE_NONE then [] else [TypeAt(types, i)] + TypesFrom(types, i + 1)
  }

  /** The signature of a call: one type per parameter, none of them none. */
  function Signature(types: uint32): (ts: seq<nat>)
    ensures |ts| <= IPC_NUM_PARAMS
  {
    TypesFrom(types, 0)
  }

  lemma {:induction false} TypesFromAt(types: uint32, i: nat, k: nat)
    requires i <= IPC_NUM_PARAMS && k <= |TypesFrom(types, i)|
    ensures k < |TypesFrom(types, i)| ==> TypesFrom(types, i)[k] == TypeAt(types, i + k) != TYPE_NONE
    ensures k == |TypesFrom(types, i)| && i + k < IPC_NUM_PARAMS ==> TypeAt(types, i + k) == TYPE_NONE
    decreases k
  {
    if k > 0 {
      TypesFromAt(types, i + 1, k - 1);
    }
  }

  /** The signature lists the types of the word in order, up to the first type none or the sixth. */
  lemma SignatureAt(types: uint32, k: nat)
    requires k <= |Signature(types)|
    ensures k < |Signature(types)| ==> Signature(types)[k] == TypeAt(types, k) != TYPE_NONE
    ensures k == |Signature(types)| < IPC_NUM_PARAMS ==> TypeAt(types, k) == TYPE_NONE
  {
    TypesFromAt(types, 0, k);
  }

  /** get_param_count */
  method GetParamCount(types: uint32) returns (count: nat)
    ensures count == |Signature(types)|
  {
    count := 0;
    for i := 0 to IPC_NUM_PARAMS
      invariant count == i && |TypesFrom(types, 0)| == i + |TypesFrom(types, i)|
    {
      if TypeAt(types, i) == TYPE_NONE {
        break;
      }
      count := count + 1;
    }
  }

  const CALLBACK: nat := 0x8000_0000

  /** types | IPC_PARAM_TYPE_CALLBABK */
  function WithCallback(types: uint32): uint32 {
    if types < CALLBACK then types + CALLBACK else types
  }

  /** Bits above type i do not show in it. */
  lemma {:induction false} HighBitsHidden(types: nat, k: nat, m: nat, i: nat)
    requires i < k
    ensures TypeAt(types + Pow16(k) * m, i) == TypeAt(types, i)
    decreases i
  {
    var z := Pow16(k - 1) * m;
    assert Pow16(k) * m == 16 * z;
    if i > 0 {
      assert (types + 16 * z) / 16 == types / 16 + z;
      HighBitsHidden(types / 16, k - 1, m, i - 1);
    }
  }

  /** The callback bit lies above the six types. */
  lemma CallbackKeepsTypes(types: uint32, i: nat)
    requires i < IPC_NUM_PARAMS
    ensures TypeAt(WithCallback(types), i) == TypeAt(types, i)
  {
    assert Pow16(2) == 256 && Pow16(4) == 0x1_0000 && Pow16(6) == 0x100_0000 && Pow16(7) == 0x1000_0000;
    HighBitsHidden(types, 7, 8, i);
  }

  /** Marking a call as asynchronous does not change its signature. */
  lemma {:induction false} CallbackKeepsSignature(types: uint32, i: nat)
    requires i <= IPC_NUM_PARAMS
    ensures TypesFrom(WithCallback(types), i) == TypesFrom(types, i)
    decreases IPC_NUM_PARAMS - i
  {
    if i < IPC_NUM_PARAMS {
      CallbackKeepsTypes(types, i);
      CallbackKeepsSignature(types, i + 1);
    }
  }

  /** A word in memory, low byte first. */
  function Word(x: uint32): (w: seq<byte>)
    ensures |w| == 4
  {
    var q1 := x / 256;
    var q2 := q1 / 256;
    var q3 := q2 / 256;
    [x % 256, q1 % 256, q2 % 256, q3]
  }

  function Join(b0: byte, b1: byte, b2: byte, b3: byte): uint32 {
    b0 as int + 256 * (b1 as int + 256 * (b2 as int + 256 * (b3 as int)))
  }

  function ReadWord(b: seq<byte>, pos: nat): uint32
    requires pos + 4 <= |b|
  {
    Join(b[pos], b[pos + 1], b[pos + 2], b[pos + 3])
  }

  lemma WordBack(b: seq<byte>, pos: nat, x: uint32)
    requires pos + 4 <= |b| && b[pos..pos + 4] == Word(x)
    ensures ReadWord(b, pos) == x
  {
    var w := Word(x);
    assert b[pos] == w[0] && b[pos + 1] == w[1] && b[pos + 2] == w[2] && b[pos + 3] == w[3];
  }

  /** Parameter i can be sent under the type word: the union holds what its type says, and a buffer is
      as long as its size claims. */
  predicate Sendable(t: nat, p: Param) {
    && (IsValue(t) ==> p.Value? && |p.rest| == REST_SIZE)
    && (IsMemref(t) ==> p.Memref? && p.size <= |p.buffer| && p.size < WORD)
  }

  predicate AllSendable(ts: seq<nat>, params: seq<Param>) {
    |ts| <= |params| == IPC_NUM_PARAMS && forall i | 0 <= i < |ts| :: Sendable(ts[i], params[i])
  }

  /** The bytes of one parameter in a message; a parameter of an unknown type has none. */
  function Field(t: nat, p: Param): seq<byte>
    requires Sendable(t, p)
  {
    if IsValue(t) then Word(p.a) + Word(p.b) + p.rest
    else if IsMemref(t) then Word(p.size) + p.buffer[..p.size]
    else []
  }

  /** The bytes of every parameter. */
  function Pieces(ts: seq<nat>, params: seq<Param>): (fs: seq<seq<byte>>)
    requires AllSendable(ts, params)
    ensures |fs| == |ts|
  {
    seq(|ts|, i requires 0 <= i < |ts| => Field(ts[i], params[i]))
  }

  function Concat(fs: seq<seq<byte>>, n: nat): seq<byte>
    requires n <= |fs|
  {
    if n == 0 then [] else Concat(fs, n - 1) + fs[n - 1]
  }

  /** A whole message. */
  function Message(cmd: uint32, types: uint32, params: seq<Param>): seq<byte>
    requires AllSendable(Signature(types), params)
  {
    var ts := Signature(types);
    Word(cmd) + Word(types) + Concat(Pieces(ts, params), |ts|)
  }

  // Reading. None stands for a read, or a claimed buffer, behind the end of the message.

  /** One parameter at pos: the position behind it, and its value if its type is known. */
  function ReadField(t: nat, b: seq<byte>, pos: nat): Option<(nat, Option<Param>)> {
    if IsValue(t) then
      if pos + 8 + REST_SIZE > |b| then None
      else Some((pos + 8 + REST_SIZE,
                 Some(Value(ReadWord(b, pos), ReadWord(b, pos + 4), b[pos + 8..pos + 8 + REST_SIZE]))))
    else if IsMemref(t) then
      if pos + 4 > |b| || pos + 4 + ReadWord(b, pos) > |b| then None
      else var size := ReadWord(b, pos);
        Some((pos + 4 + size, Some(Memref(b[pos + 4..pos + 4 + size], size))))
    else Some((pos, None))
  }

  /** The first n parameters of a message. */
  function ReadFields(b: seq<byte>, ts: seq<nat>, n: nat): (r: Option<(nat, seq<Option<Param>>)>)
    requires n <= |ts|
    ensures r.Some? ==> |r.value.1| == n
  {
    if n == 0 then Some((8, []))
    else match ReadFields(b, ts, n - 1)
      case None => None
      case Some((pos, params)) =>
        match ReadField(ts[n - 1], b, pos)
        case None => None
        case Some((end, p)) => Some((end, params + [p]))
  }

  /** A message as the receiver understands it: a parameter of an unknown type is left as it was. */
  datatype Received = Received(cmd: uint32, types: uint32, params: seq<Option<Param>>, end: nat)

  function Read(b: seq<byte>): Option<Received> {
    if |b| < 8 then None
    else
      var ts := Signature(ReadWord(b, 4));
      match ReadFields(b, ts, |ts|)
      case None => None
      case Some((end, params)) => Some(Received(ReadWord(b, 0), ReadWord(b, 4), params, end))
  }

  /** A parameter after its journey: the bytes of a buffer beyond its size stay behind. */
  function Arrived(t: nat, p: Param): Option<Param>
    requires Sendable(t, p)
  {
    if IsValue(t) then Some(p)
    else if IsMemref(t) then Some(Memref(p.buffer[..p.size], p.size))
    else None
  }

  function AllArrived(ts: seq<nat>, params: seq<Param>): (r: seq<Option<Param>>)
    requires AllSendable(ts, params)
    ensures |r| == |ts|
  {
    seq(|ts|, i requires 0 <= i < |ts| => Arrived(ts[i], params[i]))
  }

  lemma Slice(b: seq<byte>, pos: nat, f: seq<byte>, i: nat, j: nat)
    requires i <= j <= |f| && pos + |f| <= |b| && b[pos..pos + |f|] == f
    ensures b[pos + i..pos + j] == f[i..j]
  {
    forall k | i <= k < j
      ensures b[pos + k] == f[k]
    {
      assert f[k] == b[pos..pos + |f|][k];
    }
    assert forall k | 0 <= k < j - i :: b[pos + i..pos + j][k] == b[pos + (i + k)] && f[i..j][k] == f[i + k];
  }

  lemma ValueBack(t: nat, p: Param, b: seq<byte>, pos: nat)
    requires IsValue(t) && Sendable(t, p) && pos + 16 <= |b| && b[pos..pos + 16] == Field(t, p)
    ensures ReadField(t, b, pos) == Some((pos + 16, Some(p)))
  {
    var f := Field(t, p);
    Slice(b, pos, f, 0, 4);
    Slice(b, pos, f, 4, 8);
    Slice(b, pos, f, 8, 16);
    assert f[0..4] == Word(p.a) && f[4..8] == Word(p.b) && f[8..16] == p.rest;
    WordBack(b, pos, p.a);
    WordBack(b, pos + 4, p.b);
  }

  lemma MemrefBack(t: nat, p: Param, b: seq<byte>, pos: nat)
    requires IsMemref(t) && Sendable(t, p) && pos + 4 + p.size <= |b| && b[pos..pos + 4 + p.size] == Field(t, p)
    ensures ReadField(t, b, pos) == Some((pos + 4 + p.size, Some(Memref(p.buffer[..p.size], p.size))))
  {
    var f := Field(t, p);
    Slice(b, pos, f, 0, 4);
    Slice(b, pos, f, 4, 4 + p.size);
    assert f[0..4] == Word(p.size) && f[4..4 + p.size] == p.buffer[..p.size];
    WordBack(b, pos, p.size);
  }

  lemma FieldBack(t: nat, p: Param, b: seq<byte>, pos: nat)
    requires Sendable(t, p) && HasAt(b, pos, Field(t, p))
    ensures ReadField(t, b, pos) == Some((pos + |Field(t, p)|, Arrived(t, p)))
  {
    if IsValue(t) {
      ValueBack(t, p, b, pos);
    } else if IsMemref(t) {
      MemrefBack(t, p, b, pos);
    }
  }

  ghost predicate ReadsTo(b: seq<byte>, ts: seq<nat>, n: nat, end: nat, got: seq<Option<Param>>) {
    n <= |ts| && ReadFields(b, ts, n) == Some((end, got))
  }

  ghost predicate HasAt(b: seq<byte>, pos: nat, f: seq<byte>) {
    pos + |f| <= |b| && b[pos..pos + |f|] == f
  }

  /** Wherever the bytes f stand, they are read as parameter p. */
  ghost predicate Means(t: nat, f: seq<byte>, p: Option<Param>) {
    forall b: seq<byte>, pos: nat :: HasAt(b, pos, f) ==> ReadField(t, b, pos) == Some((pos + |f|, p))
  }

  lemma FieldMeans(t: nat, p: Param)
    requires Sendable(t, p)
    ensures Means(t, Field(t, p), Arrived(t, p))
  {
    forall b: seq<byte>, pos: nat | HasAt(b, pos, Field(t, p))
      ensures ReadField(t, b, pos) == Some((pos + |Field(t, p)|, Arrived(t, p)))
    {
      FieldBack(t, p, b, pos);
    }
  }

  lemma {:induction false} FieldsBack(ts: seq<nat>, fs: seq<seq<byte>>, got: seq<Option<Param>>, n: nat, b: seq<byte>)
    requires |ts| == |fs| == |got| && n <= |ts| && forall i | 0 <= i < |ts| :: Means(ts[i], fs[i], got[i])
    requires HasAt(b, 8, Concat(fs, n))
    ensures ReadsTo(b, ts, n, 8 + |Concat(fs, n)|, got[..n])
    decreases n
  {
    if n > 0 {
      var before := Concat(fs, n - 1);
      HasBoth(b, 8, before, fs[n - 1]);
      FieldsBack(ts, fs, got, n - 1, b);
      OneMoreField(ts, n, b, 8 + |before|, got[..n - 1], fs[n - 1], got[n - 1]);
      assert got[..n] == got[..n - 1] + [got[n - 1]];
    }
  }

  lemma OneMoreField(ts: seq<nat>, n: nat, b: seq<byte>, pos: nat, got: seq<Option<Param>>, f: seq<byte>,
                     p: Option<Param>)
    requires 0 < n <= |ts| && Means(ts[n - 1], f, p) && HasAt(b, pos, f) && ReadsTo(b, ts, n - 1, pos, got)
    ensures ReadsTo(b, ts, n, pos + |f|, got + [p])
  {
  }

  lemma HasBoth(b: seq<byte>, pos: nat, f: seq<byte>, g: seq<byte>)
    requires HasAt(b, pos, f + g)
    ensures HasAt(b, pos, f) && HasAt(b, pos + |f|, g)
  {
    Slice(b, pos, f + g, 0, |f|);
    Slice(b, pos, f + g, |f|, |f| + |g|);
    assert (f + g)[0..|f|] == f && (f + g)[|f|..|f| + |g|] == g;
  }

  lemma HeadBack(cmd: uint32, types: uint32, fields: seq<byte>, junk: seq<byte>)
    ensures var b := Word(cmd) + Word(types) + fields + junk; ReadWord(b, 0) == cmd && ReadWord(b, 4) == types
  {
    var b := Word(cmd) + Word(types) + fields + junk;
    assert b[0..4] == Word(cmd) && b[4..8] == Word(types);
    WordBack(b, 0, cmd);
    WordBack(b, 4, types);
  }

  /** ipc_convert_data undoes ipc_convert_param, whatever follows the message in the receive buffer:
      command, types and all parameters come back, and reading ends where the message ends. */
  lemma MessageBack(cmd: uint32, types: uint32, params: seq<Param>, junk: seq<byte>)
    requires AllSendable(Signature(types), params)
    ensures Read(Message(cmd, types, params) + junk)
            == Some(Received(cmd, types, AllArrived(Signature(types), params), |Message(cmd, types, params)|))
  {
    var ts := Signature(types);
    var fs, got := Pieces(ts, params), AllArrived(ts, params);
    forall i | 0 <= i < |ts|
      ensures Means(ts[i], fs[i], got[i])
    {
      FieldMeans(ts[i], params[i]);
    }
    WholeBack(cmd, types, fs, got, junk);
  }

  lemma WholeBack(cmd: uint32, types: uint32, fs: seq<seq<byte>>, got: seq<Option<Param>>, junk: seq<byte>)
    requires var ts := Signature(types);
             |ts| == |fs| == |got| && forall i | 0 <= i < |ts| :: Means(ts[i], fs[i], got[i])
    ensures var m := Word(cmd) + Word(types) + Concat(fs, |fs|);
            Read(m + junk) == Some(Received(cmd, types, got, |m|))
  {
    var ts := Signature(types);
    var b := Word(cmd) + Word(types) + Concat(fs, |fs|) + junk;
    HeadBack(cmd, types, Concat(fs, |fs|), junk);
    assert HasAt(b, 8, Concat(fs, |fs|));
    FieldsBack(ts, fs, got, |ts|, b);
    assert got[..|ts|] == got;
  }

  /** The first n parameters have been read into `now`; the others are as they were. */
  ghost predicate Filled(now: seq<Param>, was: seq<Param>, got: seq<Option<Param>>) {
    |now| == |was| == IPC_NUM_PARAMS && |got| <= IPC_NUM_PARAMS
    && forall i | 0 <= i < IPC_NUM_PARAMS ::
         now[i] == if i < |got| && got[i].Some? then got[i].value else was[i]
  }

  lemma FillOne(now: seq<Param>, was: seq<Param>, got: seq<Option<Param>>, p: Option<Param>)
    requires Filled(now, was, got) && |got| < IPC_NUM_PARAMS
    ensures Filled(if p.Some? then now[|got| := p.value] else now, was, got + [p])
  {
  }

  /** The body of the loop below, for parameter i. */
  method ConvertOne(buff: seq<byte>, t: nat, params: array<Param>, i: nat, pos: nat) returns (end: nat)
    requires params.Length == IPC_NUM_PARAMS && i < IPC_NUM_PARAMS && ReadField(t, buff, pos).Some?
    modifies params
    ensures end == ReadField(t, buff, pos).value.0
    ensures params[..] == var p := ReadField(t, buff, pos).value.1;
                          if p.Some? then old(params[..])[i := p.value] else old(params[..])
  {
    end := pos;
    if IsValue(t) {
      params[i] := Value(ReadWord(buff, end), ReadWord(buff, end + 4), buff[end + 8..end + 8 + REST_SIZE]);
      end := end + 8 + REST_SIZE;
    } else if IsMemref(t) {
      var size := ReadWord(buff, end);
      end := end + 4;
      params[i] := Memref(buff[end..end + size], size);
      end := end + size;
    }
  }

  /** ipc_convert_data on the whole receive buffer; reading ends at `end`. */
  method ConvertData(buff: seq<byte>, params: array<Param>) returns (cmd: uint32, types: uint32, end: nat)
    requires Read(buff).Some? && params.Length == IPC_NUM_PARAMS
    modifies params
    ensures var r := Read(buff).value;
            cmd == r.cmd && types == r.types && end == r.end && Filled(params[..], old(params[..]), r.params)
  {
    cmd := ReadWord(buff, 0);
    end := 4;
    types := ReadWord(buff, end);
    end := end + 4;
    var count := GetParamCount(types);
    ghost var ts := Signature(types);
    for i := 0 to count
      invariant ReadFields(buff, ts, i).Some? && end == ReadFields(buff, ts, i).value.0
      invariant Filled(params[..], old(params[..]), ReadFields(buff, ts, i).value.1)
    {
      SignatureAt(types, i);
      ReadsOn(buff, ts, i + 1, count);
      ghost var before, got := params[..], ReadFields(buff, ts, i).value.1;
      end := ConvertOne(buff, TypeAt(types, i), params, i, end);
      FillOne(before, old(params[..]), got, ReadFields(buff, ts, i + 1).value.1[i]);
    }
  }

  lemma {:induction false} ReadsOn(b: seq<byte>, ts: seq<nat>, m: nat, n: nat)
    requires m <= n <= |ts| && ReadFields(b, ts, n).Some?
    ensures ReadFields(b, ts, m).Some?
  {
    if m < n {
      ReadsOn(b, ts, m, n - 1);
    }
  }

  // Writing.

  /** memcpy of a whole byte string to the end of what is there. */
  method PutBytes(buff: array<byte>, pos: nat, bytes: seq<byte>) returns (end: nat)
    requires pos + |bytes| <= buff.Length
    modifies buff
    ensures end == pos + |bytes| && buff[..end] == old(buff[..pos]) + bytes
  {
    Memcpy(buff, pos, bytes, 0, |bytes|);
    end := pos + |bytes|;
  }

  /** The body of the copying loop, for one parameter, whose bytes are f. */
  method PutField(buff: array<byte>, pos: nat, t: nat, p: Param, ghost head: seq<byte>, ghost before: seq<byte>,
                  ghost f: seq<byte>)
    returns (end: nat)
    requires Sendable(t, p) && f == Field(t, p) && pos + |f| <= buff.Length && buff[..pos] == head + before
    modifies buff
    ensures end == pos + |f| && buff[..end] == head + (before + f)
  {
    end := pos;
    if IsValue(t) {
      end := PutBytes(buff, pos, Word(p.a) + Word(p.b) + p.rest);
    } else if IsMemref(t) {
      end := PutBytes(buff, pos, Word(p.size));
      end := PutBytes(buff, end, p.buffer[..p.size]);
      Assoc(head + before, Word(p.size), p.buffer[..p.size]);
    }
    Assoc(head, before, f);
  }

  lemma Assoc(a: seq<byte>, b: seq<byte>, c: seq<byte>)
    ensures a + b + c == a + (b + c)
  {
  }

  lemma {:induction false} ConcatGrows(fs: seq<seq<byte>>, m: nat, n: nat)
    requires m <= n <= |fs|
    ensures |Concat(fs, m)| <= |Concat(fs, n)|
  {
    if m < n {
      ConcatGrows(fs, m, n - 1);
    }
  }

  lemma PieceAt(ts: seq<nat>, params: seq<Param>, i: nat)
    requires AllSendable(ts, params) && i < |ts|
    ensures var f := Pieces(ts, params)[i];
            && f == Field(ts[i], params[i])
            && |f| == if IsValue(ts[i]) then 8 + REST_SIZE else if IsMemref(ts[i]) then 4 + params[i].size else 0
  {
  }

  /** The sizing loop of ipc_convert_param. */
  method MessageSize(params: seq<Param>, types: uint32, count: nat) returns (size: nat)
    requires AllSendable(Signature(types), params) && count == |Signature(types)|
    ensures size == 8 + |Concat(Pieces(Signature(types), params), count)|
  {
    ghost var ts := Signature(types);
    ghost var fs := Pieces(ts, params);
    size := 8;
    for i := 0 to count
      invariant size == 8 + |Concat(fs, i)|
    {
      SignatureAt(types, i);
      PieceAt(ts, params, i);
      var t := TypeAt(types, i);
      if IsValue(t) {
        size := size + 8 + REST_SIZE;
      } else if IsMemref(t) {
        size := size + 4 + params[i].size;
      }
    }
  }

  /** The copying loop of ipc_convert_param, behind the two leading words. */
  method PutFields(buff: array<byte>, params: seq<Param>, types: uint32, count: nat) returns (pos: nat)
    requires AllSendable(Signature(types), params) && count == |Signature(types)|
    requires buff.Length == 8 + |Concat(Pieces(Signature(types), params), count)|
    modifies buff
    ensures pos == buff.Length && buff[..pos] == old(buff[..8]) + Concat(Pieces(Signature(types), params), count)
  {
    ghost var ts := Signature(types);
    ghost var fs := Pieces(ts, params);
    ghost var head := buff[..8];
    pos := 8;
    for i := 0 to count
      invariant pos == 8 + |Concat(fs, i)| && pos <= buff.Length
      invariant buff[..pos] == head + Concat(fs, i)
    {
      SignatureAt(types, i);
      ConcatGrows(fs, i + 1, count);
      pos := PutField(buff, pos, TypeAt(types, i), params[i], head, Concat(fs, i), fs[i]);
    }
  }

  /** ipc_convert_param: the size computed first is the size of the buffer and of what is written. */
  method ConvertParam(cmd: uint32, params: seq<Param>, types: uint32) returns (buff: array<byte>, outSize: nat)
    requires AllSendable(Signature(types), params) && |Message(cmd, types, params)| < 0x8000_0000
    ensures fresh(buff) && outSize == buff.Length && buff[..] == Message(cmd, types, params)
  {
    var count := GetParamCount(types);
    outSize := MessageSize(params, types, count);
    buff := new byte[outSize];
    var pos := PutBytes(buff, 0, Word(cmd));
    pos := PutBytes(buff, pos, Word(types));
    assert buff[..8] == Word(cmd) + Word(types);
    pos := PutFields(buff, params, types, count);
    assert buff[..] == buff[..pos];
  }
}
