/**
  What client and server do with one message (android/linux/ipc/client/ipc_client.c,
  android/linux/ipc/server/ipc_server.c and ipc_server_command.c), for calls without buffers.
 */
module IpcCalls {
  import opened Bits
  import opened IpcCodec

  /** cmd_id & IPC_CMD_RESPOND: the lowest bit. */
  predicate IsRespond(cmd: uint32) {
    cmd % 2 == 1
  }

  /** cmd_id | IPC_CMD_RESPOND */
  function RespondTo(cmd: uint32): uint32 {
    if cmd % 2 == 1 then cmd else cmd + 1
  }

  /** cmd_id & IPC_CMD_RESPOND_MASK: all but the low byte. */
  function RequestOf(cmd: uint32): uint32 {
    cmd - cmd % 256
  }

  /** cmd_id & IPC_CMD_UNSOLICITE_MASK: the low byte but its lowest bit. */
  predicate IsRegistration(cmd: uint32) {
    cmd % 256 >= 2
  }

  predicate IsAsync(types: uint32) {
    types >= CALLBACK
  }

  predicate IsOutput(t: nat) {
    t == VALUE_OUTPUT || t == VALUE_INOUT
  }

  predicate NoMemrefs(types: uint32) {
    forall i | 0 <= i < |Signature(types)| :: !IsMemref(Signature(types)[i])
  }

  /** A parameter array read as values throughout. */
  predicate Values(params: seq<Param>) {
    |params| == IPC_NUM_PARAMS && forall i | 0 <= i < |params| :: params[i].Value? && |params[i].rest| == REST_SIZE
  }

  lemma ValuesAreSendable(types: uint32, params: seq<Param>)
    requires NoMemrefs(types) && Values(params)
    ensures AllSendable(Signature(types), params)
  {
  }

  lemma CallbackKeepsNoMemrefs(types: uint32)
    requires NoMemrefs(types)
    ensures NoMemrefs(WithCallback(types)) && Signature(WithCallback(types)) == Signature(types)
  {
    CallbackKeepsSignature(types, 0);
    assert Signature(WithCallback(types)) == Signature(types);
  }

  lemma {:induction false} ConcatIsShort(fs: seq<seq<byte>>, n: nat, size: nat)
    requires n <= |fs| && forall i | 0 <= i < n :: |fs[i]| <= size
    ensures |Concat(fs, n)| <= n * size
    decreases n
  {
    if n > 0 {
      ConcatIsShort(fs, n - 1, size);
      assert n * size == (n - 1) * size + size;
    }
  }

  /** A message without buffers fits the receive buffers of client and server (BUFF_MAX_NUM). */
  lemma MessageIsShort(cmd: uint32, types: uint32, params: seq<Param>)
    requires NoMemrefs(types) && Values(params)
    ensures AllSendable(Signature(types), params) && |Message(cmd, types, params)| <= 104
  {
    ValuesAreSendable(types, params);
    var ts := Signature(types);
    var fs := Pieces(ts, params);
    forall i | 0 <= i < |fs|
      ensures |fs[i]| <= 16
    {
      PieceAt(ts, params, i);
    }
    ConcatIsShort(fs, |fs|, 16);
  }

  /** A receiver's parameter array after ipc_convert_data. */
  function Fill(was: seq<Param>, got: seq<Option<Param>>): (now: seq<Param>)
    requires |was| == IPC_NUM_PARAMS
    ensures |now| == IPC_NUM_PARAMS
  {
    seq(IPC_NUM_PARAMS, i requires 0 <= i < IPC_NUM_PARAMS =>
      if i < |got| && got[i].Some? then got[i].value else was[i])
  }

  /** What process_sync_command leaves in the parameters: two words of the second are set. */
  function Answer(params: seq<Param>): (r: seq<Param>)
    requires Values(params)
    ensures Values(r)
  {
    params[1 := params[1].(a := 80, b := 90)]
  }

  /** `own` after the output parameters have been copied from `got`. */
  function Merge(types: uint32, own: seq<Param>, got: seq<Param>): (r: seq<Param>)
    requires |own| == |got| == IPC_NUM_PARAMS
    ensures |r| == IPC_NUM_PARAMS
  {
    MergeTo(Signature(types), |Signature(types)|, own, got)
  }

  function MergeTo(ts: seq<nat>, n: nat, own: seq<Param>, got: seq<Param>): (r: seq<Param>)
    requires |own| == |got| == IPC_NUM_PARAMS && n <= |ts|
    ensures |r| == IPC_NUM_PARAMS
  {
    seq(IPC_NUM_PARAMS, i requires 0 <= i < IPC_NUM_PARAMS => if i < n && IsOutput(ts[i]) then got[i] else own[i])
  }

  lemma MergeNext(ts: seq<nat>, n: nat, own: seq<Param>, got: seq<Param>)
    requires |own| == |got| == IPC_NUM_PARAMS && n < |ts| <= IPC_NUM_PARAMS
    ensures var r := MergeTo(ts, n, own, got);
            MergeTo(ts, n + 1, own, got) == if IsOutput(ts[n]) then r[n := got[n]] else r
  {
  }

  /** The first position of id in the list, or its length. */
  function Lookup(cmds: seq<uint32>, id: uint32): (r: nat)
    ensures r <= |cmds| && (r < |cmds| ==> cmds[r] == id) && forall i | 0 <= i < r :: cmds[i] != id
  {
    if cmds == [] || cmds[0] == id then 0 else 1 + Lookup(cmds[1..], id)
  }

  /** What the server does with a message: keep it as a registration, keep it as an asynchronous call,
      or reply. */
  datatype Reaction =
    | Registered(cmd: uint32, types: uint32, params: seq<Param>)
    | Parked(cmd: uint32, types: uint32, params: seq<Param>)
    | Reply(message: seq<byte>)

  /** The reaction, and the receiver's parameter array behind it. None: a message with buffers, or one that
      ends before its parameters do. */
  function React(b: seq<byte>, locals: seq<Param>): Option<(Reaction, seq<Param>)>
    requires |locals| == IPC_NUM_PARAMS
  {
    match Read(b)
    case None => None
    case Some(r) =>
      var now := Fill(locals, r.params);
      if !Values(now) || !NoMemrefs(r.types) then None
      else if IsRegistration(r.cmd) then Some((Registered(r.cmd, r.types, now), now))
      else if IsAsync(r.types) then Some((Parked(r.cmd, r.types, now), Answer(now)))
      else
        ValuesAreSendable(r.types, Answer(now));
        Some((Reply(Message(RespondTo(r.cmd), r.types, Answer(now))), Answer(now)))
  }

  // The code, on arrays and lists that it updates.

  class CallbackNode {
    const cmdId: uint32
    const hasCallback: bool
    const params: array<Param>
    const paramTypes: uint32

    constructor (cmdId: uint32, hasCallback: bool, params: array<Param>, paramTypes: uint32)
      ensures this.cmdId == cmdId && this.hasCallback == hasCallback && this.params == params
      ensures this.paramTypes == paramTypes
    {
      this.cmdId := cmdId;
      this.hasCallback := hasCallback;
      this.params := params;
      this.paramTypes := paramTypes;
    }
  }

  function CmdIds(nodes: seq<CallbackNode>): (r: seq<uint32>)
    ensures |r| == |nodes| && forall i | 0 <= i < |r| :: r[i] == nodes[i].cmdId
  {
    if nodes == [] then [] else [nodes[0].cmdId] + CmdIds(nodes[1..])
  }

  /** A fresh node with a copy of the parameters. */
  method NewNode(cmd: uint32, hasCallback: bool, params: array<Param>, types: uint32) returns (node: CallbackNode)
    requires params.Length == IPC_NUM_PARAMS
    ensures fresh(node) && fresh(node.params) && node.params.Length == IPC_NUM_PARAMS
    ensures node.cmdId == cmd && node.hasCallback == hasCallback && node.paramTypes == types
    ensures node.params[..] == params[..]
  {
    var copy := new Param[IPC_NUM_PARAMS](i => Value(0, 0, []));
    for i := 0 to IPC_NUM_PARAMS
      modifies copy
      invariant forall j | 0 <= j < i :: copy[j] == params[j]
    {
      copy[i] := params[i];
    }
    node := new CallbackNode(cmd, hasCallback, copy, types);
  }

  /** The copying loop of process_sync_call, of process_async_call and of the end of ipc_client_request. */
  method CopyOutputs(types: uint32, own: array<Param>, got: array<Param>)
    requires own.Length == got.Length == IPC_NUM_PARAMS && own != got && NoMemrefs(types)
    modifies own
    ensures own[..] == Merge(types, old(own[..]), got[..])
  {
    var count := GetParamCount(types);
    ghost var ts := Signature(types);
    for i := 0 to count
      invariant own[..] == MergeTo(ts, i, old(own[..]), got[..])
    {
      SignatureAt(types, i);
      MergeNext(ts, i, old(own[..]), got[..]);
      if IsOutput(TypeAt(types, i)) {
        own[i] := got[i];
      }
    }
  }

  /** The list_for_every loop over a list of nodes. */
  method FindNode(nodes: seq<CallbackNode>, id: uint32) returns (k: nat)
    ensures k == Lookup(CmdIds(nodes), id)
  {
    k := 0;
    while k < |nodes|
      invariant k <= |nodes| && forall i | 0 <= i < k :: nodes[i].cmdId != id
    {
      if nodes[k].cmdId == id {
        break;
      }
      k := k + 1;
    }
  }

  /** Different nodes, with parameter arrays of their own. */
  ghost predicate Apart(nodes: seq<CallbackNode>, locals: array<Param>) {
    && (forall i | 0 <= i < |nodes| :: nodes[i].params.Length == IPC_NUM_PARAMS && nodes[i].params != locals)
    && forall i, j | 0 <= i < j < |nodes| :: nodes[i] != nodes[j] && nodes[i].params != nodes[j].params
  }

  lemma ApartWithout(nodes: seq<CallbackNode>, locals: array<Param>, k: nat)
    requires Apart(nodes, locals) && k < |nodes|
    ensures Apart(nodes[..k] + nodes[k + 1..], locals)
  {
    var t := nodes[..k] + nodes[k + 1..];
    assert forall i | 0 <= i < |t| :: t[i] == nodes[if i < k then i else i + 1];
  }

  lemma ApartFrom(nodes: seq<CallbackNode>, locals: array<Param>, current: CallbackNode?, id: uint32)
    requires Apart(nodes, locals)
    ensures var node := Chosen(nodes, current, id);
            && (node != null && node != current ==> node.params.Length == IPC_NUM_PARAMS && node.params != locals)
            && forall i | 0 <= i < |nodes| && nodes[i] != node :: node != null ==> nodes[i].params != node.params
  {
  }

  /** Where the list_for_every loop leaves callback_node: on the first node with the id, else on the last, and where
      it was if there is none. */
  function Chosen(nodes: seq<CallbackNode>, current: CallbackNode?, id: uint32): (node: CallbackNode?)
    ensures node == current || node in nodes
  {
    var k := Lookup(CmdIds(nodes), id);
    if k < |nodes| then nodes[k] else if nodes != [] then nodes[|nodes| - 1] else current
  }

  /** The list after it: without the first element with the id, if there is one. */
  function Rest<T>(list: seq<T>, ids: seq<uint32>, id: uint32): seq<T>
    requires |ids| == |list|
  {
    var k := Lookup(ids, id);
    if k < |list| then list[..k] + list[k + 1..] else list
  }

  lemma ApartRest(nodes: seq<CallbackNode>, locals: array<Param>, id: uint32)
    requires Apart(nodes, locals)
    ensures Apart(Rest(nodes, CmdIds(nodes), id), locals)
  {
    var k := Lookup(CmdIds(nodes), id);
    if k < |nodes| {
      ApartWithout(nodes, locals, k);
    }
  }

  class Client {
    var pending: seq<CallbackNode>
    var current: CallbackNode?  // the variable callback_node of start_receive; null before any response
    const locals: array<Param>

    ghost predicate Valid()
      reads this
    {
      && locals.Length == IPC_NUM_PARAMS && Apart(pending, locals)
      && (current != null ==> current.params.Length == IPC_NUM_PARAMS && current.params != locals)
    }

    constructor ()
      ensures Valid() && pending == [] && current == null && fresh(locals)
    {
      pending, current := [], null;
      locals := new Param[IPC_NUM_PARAMS](i => Value(0, 0, []));
    }

    /** ipc_client_request up to the sending of its message. */
    method Send(cmd: uint32, hasCallback: bool, params: array<Param>, types: uint32)
      returns (wire: uint32, buff: array<byte>)
      requires params.Length == IPC_NUM_PARAMS && AllSendable(Signature(types), params[..])
      requires |Message(cmd, types, params[..])| < 0x8000_0000
      ensures wire == if hasCallback then WithCallback(types) else types
      ensures fresh(buff) && AllSendable(Signature(wire), params[..]) && buff[..] == Message(cmd, wire, params[..])
    {
      wire := if hasCallback then WithCallback(types) else types;
      CallbackKeepsSignature(types, 0);
      SameLength(cmd, types, wire, params[..]);
      var size;
      buff, size := ConvertParam(cmd, params[..], wire);
    }

    /** ipc_client_request from there to its wait: the node is filled and appended to the list. */
    method Register(cmd: uint32, hasCallback: bool, params: array<Param>, wire: uint32) returns (node: CallbackNode)
      requires Valid() && params.Length == IPC_NUM_PARAMS
      modifies this`pending
      ensures Valid() && fresh(node) && fresh(node.params) && pending == old(pending) + [node]
      ensures node.cmdId == cmd && node.hasCallback == hasCallback && node.paramTypes == wire
      ensures node.params.Length == IPC_NUM_PARAMS && node.params[..] == params[..]
    {
      node := NewNode(cmd, hasCallback, params, wire);
      pending := pending + [node];
    }

    /** The search of start_receive: a node with the id leaves the list; the last one otherwise stays in it; and with
        an empty list the node of an earlier response is taken again. */
    method Choose(id: uint32)
      requires Valid()
      modifies this`pending, this`current
      ensures Valid() && current == Chosen(old(pending), old(current), id)
      ensures pending == Rest(old(pending), CmdIds(old(pending)), id)
    {
      ApartRest(pending, locals, id);
      var k := FindNode(pending, id);
      if k < |pending| {
        current := pending[k];
        pending := pending[..k] + pending[k + 1..];
      } else if |pending| > 0 {
        current := pending[|pending| - 1];
      }
    }

    /** start_receive on a response that has been read. If no node has its id, the last one in the list gets the
        outputs of the message all the same, and stays in the list; if the list is empty, the one before gets them.
        (If that one has a callback it has been freed or is freed in the list, and before any response there is
        none: these are excluded.) */
    method Respond(cmd: uint32) returns (node: CallbackNode)
      requires Valid() && Chosen(pending, current, RequestOf(cmd)) != null
      requires var id := RequestOf(cmd); var node := Chosen(pending, current, id);
               NoMemrefs(node.paramTypes) && (node.hasCallback ==> Lookup(CmdIds(pending), id) < |pending|)
      modifies this`pending, this`current, Chosen(pending, current, RequestOf(cmd)).params
      ensures Valid() && node == current == Chosen(old(pending), old(current), RequestOf(cmd))
      ensures pending == Rest(old(pending), CmdIds(old(pending)), RequestOf(cmd))
      ensures node.params[..] == Merge(node.paramTypes, old(node.params[..]), locals[..])
      ensures unchanged(locals)
      ensures forall i | 0 <= i < |old(pending)| && old(pending)[i] != node :: unchanged(old(pending)[i].params)
    {
      ApartFrom(pending, locals, current, RequestOf(cmd));
      Choose(RequestOf(cmd));
      node := current;
      CopyOutputs(node.paramTypes, node.params, locals);
    }

    /** The body of start_receive on a response. */
    method Receive(buff: seq<byte>) returns (node: CallbackNode)
      requires Valid() && Read(buff).Some? && IsRespond(Read(buff).value.cmd)
      requires Chosen(pending, current, RequestOf(Read(buff).value.cmd)) != null
      requires var id := RequestOf(Read(buff).value.cmd); var node := Chosen(pending, current, id);
               NoMemrefs(node.paramTypes) && (node.hasCallback ==> Lookup(CmdIds(pending), id) < |pending|)
      modifies this`pending, this`current, locals
      modifies Chosen(pending, current, RequestOf(Read(buff).value.cmd)).params
      ensures Valid()
      ensures var id := RequestOf(Read(buff).value.cmd);
              && node == current == Chosen(old(pending), old(current), id)
              && pending == Rest(old(pending), CmdIds(old(pending)), id)
      ensures locals[..] == Fill(old(locals[..]), Read(buff).value.params)
      ensures node.params[..] == Merge(node.paramTypes, old(node.params[..]), locals[..])
      ensures forall i | 0 <= i < |old(pending)| && old(pending)[i] != node :: unchanged(old(pending)[i].params)
    {
      ApartFrom(pending, locals, current, RequestOf(Read(buff).value.cmd));
      var cmd, types, end := ConvertData(buff, locals);
      assert locals[..] == Fill(old(locals[..]), Read(buff).value.params);
      node := Respond(cmd);
    }
  }

  lemma SameLength(cmd: uint32, types: uint32, wire: uint32, params: seq<Param>)
    requires Signature(wire) == Signature(types) && AllSendable(Signature(types), params)
    ensures |Message(cmd, wire, params)| == |Message(cmd, types, params)|
  {
  }

  /** The server's two lists, whose nodes nothing changes once they are listed: each is the message it keeps. */
  class Server {
    var parked: seq<Reaction>
    var registered: seq<Reaction>
    const locals: array<Param>

    constructor ()
      ensures parked == registered == [] && fresh(locals) && Values(locals[..])
    {
      parked, registered := [], [];
      locals := new Param[IPC_NUM_PARAMS](i => Value(0, 0, [0, 0, 0, 0, 0, 0, 0, 0]));
    }

    /** process_sync_command; its caller sends the reply. */
    method ProcessSyncCommand(cmd: uint32, types: uint32, isSync: bool) returns (reply: array?<byte>)
      requires Values(locals[..]) && NoMemrefs(types)
      modifies locals
      ensures locals[..] == Answer(old(locals[..])) && (isSync <==> reply != null)
      ensures AllSendable(Signature(types), locals[..])
      ensures reply != null ==> reply[..] == Message(RespondTo(cmd), types, locals[..])
    {
      locals[1] := locals[1].(a := 80);
      locals[1] := locals[1].(b := 90);
      assert locals[..] == Answer(old(locals[..]));
      MessageIsShort(RespondTo(cmd), types, locals[..]);
      reply := null;
      if isSync {
        var size;
        reply, size := ConvertParam(RespondTo(cmd), locals[..], types);
      }
    }

    /** The body of start_receive: registration, process_async_command or process_sync_command. */
    method Receive(buff: seq<byte>) returns (reply: array?<byte>)
      requires locals.Length == IPC_NUM_PARAMS && React(buff, locals[..]).Some?
      modifies this, locals
      ensures locals[..] == React(buff, old(locals[..])).value.1
      ensures var r := React(buff, old(locals[..])).value.0;
              && parked == old(parked) + (if r.Parked? then [r] else [])
              && registered == old(registered) + (if r.Registered? then [r] else [])
              && (reply != null <==> r.Reply?) && (reply != null ==> reply[..] == r.message)
    {
      var cmd, types, end := ConvertData(buff, locals);
      assert locals[..] == Fill(old(locals[..]), Read(buff).value.params);
      reply := null;
      if IsRegistration(cmd) {
        var node := NewNode(cmd, false, locals, types);
        registered := registered + [Registered(node.cmdId, node.paramTypes, node.params[..])];
      } else if IsAsync(types) {
        var node := NewNode(cmd, false, locals, types);
        parked := parked + [Parked(node.cmdId, node.paramTypes, node.params[..])];
        reply := ProcessSyncCommand(cmd, types, false);
      } else {
        reply := ProcessSyncCommand(cmd, types, true);
      }
    }
  }
}
