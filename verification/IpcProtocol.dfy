/**
  Requests and responses between the client's threads, its receiving thread, and the server, as steps that
  interleave freely. Every message travels on a connection of its own, so messages overtake each other; a
  connection is named here by the call it belongs to, which no step looks at to decide what to do.

  A step is possible if the code can take it. The runs in which calls are answered are those in which also every
  command id has a zero low byte and every response finds its call: the call waits, and no earlier node in the list
  has its id. For that it is enough that the ids of outstanding calls differ and that each response is received
  after its call has registered its node and begun to wait, though ipc_client_request sends first.
 */
module IpcProtocol {
  import opened Bits
  import opened IpcCodec
  import opened IpcCalls

  /** A call has sent its message; its node is in the list; its thread waits; it has been signalled; its callback has
      been called; it has returned. */
  datatype Stage = Sent | Listed | Waiting | Signalled | CalledBack | Returned

  /** One run of ipc_client_request: its arguments, its node's parameters, and the caller's parameters now. */
  datatype Call = Call(cmd: uint32, types: uint32, callback: bool, args: seq<Param>,
                       node: seq<Param>, caller: seq<Param>, stage: Stage)

  /** The client's list and the call whose node its variable callback_node points at, messages under way, what the
      server has put aside of each call and in which order, what it has taken for registrations, and the parameter
      arrays of the two receiving threads. */
  datatype State = State(calls: seq<Call>, pending: seq<nat>, current: Option<nat>, toServer: map<nat, seq<byte>>,
                         toClient: map<nat, seq<byte>>, parked: map<nat, Reaction>, asyncCalls: seq<Reaction>,
                         registrations: seq<Reaction>, serverLocals: seq<Param>, clientLocals: seq<Param>)

  /** `heap` is what malloc finds in a new node, `junk` what older messages left in a receive buffer. */
  datatype Step =
    | Issue(cmd: uint32, types: uint32, callback: bool, params: seq<Param>, heap: seq<Param>)
    | Register(id: nat)
    | Wait(id: nat)
    | Serve(id: nat, junk: seq<byte>)
    | Deliver(id: nat, junk: seq<byte>)
    | Return(id: nat)

  predicate Enlisted(c: Call) {
    c.stage == Listed || c.stage == Waiting
  }

  predicate Outstanding(c: Call) {
    c.stage == Sent || Enlisted(c)
  }

  predicate Shape(s: State) {
    && |s.serverLocals| == |s.clientLocals| == IPC_NUM_PARAMS
    && (forall id | 0 <= id < |s.calls| :: |s.calls[id].node| == |s.calls[id].caller| == IPC_NUM_PARAMS)
    && (forall k | 0 <= k < |s.pending| :: s.pending[k] < |s.calls|)
    && (s.current.Some? ==> s.current.value < |s.calls|)
  }

  /** What the code can do. (Calls have no buffers.) */
  predicate Possible(s: State, step: Step) {
    match step
    case Issue(_, types, _, params, heap) => NoMemrefs(types) && Values(params) && |heap| == IPC_NUM_PARAMS
    case Register(id) => id < |s.calls| && s.calls[id].stage == Sent
    case Wait(id) => id < |s.calls| && s.calls[id].stage == Listed && !s.calls[id].callback
    case Serve(id, _) => id in s.toServer
    case Deliver(id, _) => id in s.toClient
    case Return(id) => id < |s.calls| && s.calls[id].stage == Signalled
  }

  /** The call is in the list, and no call before it there has the same id. */
  predicate Foremost(calls: seq<Call>, pending: seq<nat>, id: nat)
    requires id < |calls|
  {
    exists k | 0 <= k < |pending| ::
      pending[k] == id
      && forall i | 0 <= i < k && pending[i] < |calls| :: calls[pending[i]].cmd != calls[id].cmd
  }

  /** A possible step in which a response finds its call. */
  predicate Legal(s: State, step: Step) {
    Possible(s, step) && match step
                         case Issue(cmd, _, _, _, _) => cmd % 256 == 0
                         case Deliver(id, _) =>
                           id < |s.calls| && s.calls[id].stage == Waiting && Foremost(s.calls, s.pending, id)
                         case _ => true
  }

  /** The command ids along the client's list. */
  function PendingIds(calls: seq<Call>, pending: seq<nat>): (r: seq<uint32>)
    requires forall k | 0 <= k < |pending| :: pending[k] < |calls|
    ensures |r| == |pending| && forall k | 0 <= k < |r| :: r[k] == calls[pending[k]].cmd
  {
    if pending == [] then [] else [calls[pending[0]].cmd] + PendingIds(calls, pending[1..])
  }

  function Sending(s: State, step: Step): State
    requires step.Issue? && Possible(s, step)
  {
    var wire := if step.callback then WithCallback(step.types) else step.types;
    CallbackKeepsNoMemrefs(step.types);
    ValuesAreSendable(wire, step.params);
    s.(calls := s.calls + [Call(step.cmd, wire, step.callback, step.params, step.heap, step.params, Sent)],
       toServer := s.toServer[|s.calls| := Message(step.cmd, wire, step.params)])
  }

  function Registering(s: State, id: nat): State
    requires Shape(s) && id < |s.calls|
  {
    s.(calls := s.calls[id := s.calls[id].(node := s.calls[id].caller, stage := Listed)],
       pending := s.pending + [id])
  }

  function Blocking(s: State, id: nat): State
    requires id < |s.calls|
  {
    s.(calls := s.calls[id := s.calls[id].(stage := Waiting)])
  }

  /** The server has taken the message of this call, and its reaction shows. */
  function Reacting(s: State, id: nat, reaction: Reaction, locals: seq<Param>): State {
    var t := s.(toServer := s.toServer - {id}, serverLocals := locals);
    match reaction
    case Reply(m) => t.(toClient := s.toClient[id := m])
    case Parked(_, _, _) => t.(parked := s.parked[id := reaction], asyncCalls := s.asyncCalls + [reaction])
    case Registered(_, _, _) => t.(registrations := s.registrations + [reaction])
  }

  function Serving(s: State, id: nat, junk: seq<byte>): Option<State>
    requires Shape(s) && id in s.toServer
  {
    match React(s.toServer[id] + junk, s.serverLocals)
    case None => None
    case Some((reaction, locals)) => Some(Reacting(s, id, reaction, locals))
  }

  /** A call whose node has got its outputs: its thread wakes up if it waits by then. */
  function Completed(c: Call, now: seq<Param>): Call
    requires |c.node| == |now| == IPC_NUM_PARAMS
  {
    c.(node := Merge(c.types, c.node, now),
       stage := if c.callback then CalledBack else if c.stage == Waiting then Signalled else c.stage)
  }

  /** The node of call `to` gets the output parameters of the message `now` holds, and this is the list then. */
  function Acting(s: State, id: nat, to: nat, pending: seq<nat>, now: seq<Param>): State
    requires Shape(s) && to < |s.calls| && |now| == IPC_NUM_PARAMS
  {
    s.(calls := s.calls[to := Completed(s.calls[to], now)], pending := pending, current := Some(to),
       toClient := s.toClient - {id}, clientLocals := now)
  }

  /** Where a search ends that finds no node with the id: on the last one in the list, and with an empty list where
      the search before has ended. */
  function LeftOn(s: State): Option<nat> {
    if s.pending != [] then Some(s.pending[|s.pending| - 1]) else s.current
  }

  /** The call on whose node the search for an id ends, if there is one. */
  function EndsOn(s: State, request: uint32): Option<nat>
    requires Shape(s)
  {
    var k := Lookup(PendingIds(s.calls, s.pending), request);
    if k < |s.pending| then Some(s.pending[k]) else LeftOn(s)
  }

  /** The client acts on a response: the node on which the search ends gets the outputs, and leaves the list if it has
      the id. None: it has not, but has a callback, so that it has been freed, or is freed though it stays in the list;
      or there has been none so far. */
  function Responding(s: State, id: nat, request: uint32, now: seq<Param>): Option<State>
    requires Shape(s) && |now| == IPC_NUM_PARAMS
  {
    var ids := PendingIds(s.calls, s.pending);
    match EndsOn(s, request)
    case None => None
    case Some(to) =>
      if s.calls[to].callback && Lookup(ids, request) == |ids| then None
      else Some(Acting(s, id, to, Rest(s.pending, ids, request), now))
  }

  /** The node at position k gets them and leaves the list. */
  function Completing(s: State, id: nat, k: nat, now: seq<Param>): State
    requires Shape(s) && k < |s.pending| && |now| == IPC_NUM_PARAMS
  {
    Acting(s, id, s.pending[k], s.pending[..k] + s.pending[k + 1..], now)
  }

  lemma RestAt<T>(list: seq<T>, ids: seq<uint32>, id: uint32, k: nat)
    requires |ids| == |list| && k == Lookup(ids, id) < |list|
    ensures Rest(list, ids, id) == list[..k] + list[k + 1..]
  {
  }

  lemma EndsOnFound(s: State, request: uint32, k: nat)
    requires Shape(s) && k == Lookup(PendingIds(s.calls, s.pending), request) < |s.pending|
    ensures EndsOn(s, request) == Some(s.pending[k])
    ensures Rest(s.pending, PendingIds(s.calls, s.pending), request) == s.pending[..k] + s.pending[k + 1..]
  {
    RestAt(s.pending, PendingIds(s.calls, s.pending), request, k);
  }

  lemma RespondingToFound(s: State, id: nat, k: nat, request: uint32, now: seq<Param>)
    requires Shape(s) && |now| == IPC_NUM_PARAMS && k == Lookup(PendingIds(s.calls, s.pending), request) < |s.pending|
    ensures Responding(s, id, request, now) == Some(Completing(s, id, k, now))
  {
    EndsOnFound(s, request, k);
    var to, rest := s.pending[k], s.pending[..k] + s.pending[k + 1..];
    assert Responding(s, id, request, now) == Some(Acting(s, id, to, rest, now));
  }

  lemma RespondingToLeft(s: State, id: nat, request: uint32, now: seq<Param>)
    requires Shape(s) && |now| == IPC_NUM_PARAMS && Lookup(PendingIds(s.calls, s.pending), request) == |s.pending|
    ensures Responding(s, id, request, now) ==
            if LeftOn(s).None? || s.calls[LeftOn(s).value].callback then None
            else Some(Acting(s, id, LeftOn(s).value, s.pending, now))
  {
  }

  /** None: not a response, or none that the client can act on. */
  function Delivering(s: State, id: nat, junk: seq<byte>): Option<State>
    requires Shape(s) && id in s.toClient
  {
    match Read(s.toClient[id] + junk)
    case None => None
    case Some(r) =>
      if !IsRespond(r.cmd) then None else Responding(s, id, RequestOf(r.cmd), Fill(s.clientLocals, r.params))
  }

  function Returning(s: State, id: nat): State
    requires Shape(s) && id < |s.calls|
  {
    var c := s.calls[id];
    s.(calls := s.calls[id := c.(caller := Merge(c.types, c.caller, c.node), stage := Returned)])
  }

  function Next(s: State, step: Step): Option<State>
    requires Shape(s) && Possible(s, step)
  {
    match step
    case Issue(_, _, _, _, _) => Some(Sending(s, step))
    case Register(id) => Some(Registering(s, id))
    case Wait(id) => Some(Blocking(s, id))
    case Serve(id, junk) => Serving(s, id, junk)
    case Deliver(id, junk) => Delivering(s, id, junk)
    case Return(id) => Some(Returning(s, id))
  }

  // What a message brings.

  /** Equal where the signature has values. */
  ghost predicate Agree(ts: seq<nat>, p: seq<Param>, q: seq<Param>) {
    && |ts| <= |p| == |q| == IPC_NUM_PARAMS
    && forall i | 0 <= i < |ts| :: IsValue(ts[i]) ==> p[i] == q[i]
  }

  lemma SamePieces(ts: seq<nat>, p: seq<Param>, q: seq<Param>)
    requires Agree(ts, p, q) && AllSendable(ts, p) && AllSendable(ts, q)
    requires forall i | 0 <= i < |ts| :: !IsMemref(ts[i])
    ensures Pieces(ts, p) == Pieces(ts, q)
  {
    forall i | 0 <= i < |ts|
      ensures Pieces(ts, p)[i] == Pieces(ts, q)[i]
    {
      PieceAt(ts, p, i);
      PieceAt(ts, q, i);
    }
  }

  /** A receiver's array after a message: the values sent, and values throughout if it held such before. */
  lemma Filling(types: uint32, params: seq<Param>, locals: seq<Param>)
    requires NoMemrefs(types) && Values(params) && |locals| == IPC_NUM_PARAMS
    ensures AllSendable(Signature(types), params)
    ensures var ts := Signature(types); var now := Fill(locals, AllArrived(ts, params));
            Agree(ts, now, params) && (Values(locals) ==> Values(now))
  {
    ValuesAreSendable(types, params);
  }

  ghost function Wire(c: Call): seq<byte>
    requires NoMemrefs(c.types) && Values(c.args)
  {
    ValuesAreSendable(c.types, c.args);
    Message(c.cmd, c.types, c.args)
  }

  /** The server's reply to a call. */
  ghost function ReplyTo(c: Call): seq<byte>
    requires NoMemrefs(c.types) && Values(c.args)
  {
    ValuesAreSendable(c.types, Answer(c.args));
    Message(RespondTo(c.cmd), c.types, Answer(c.args))
  }

  /** What a synchronous call is to leave in its caller's parameters. */
  ghost function Expected(c: Call): seq<Param>
    requires Values(c.args)
  {
    Merge(c.types, c.args, Answer(c.args))
  }

  ghost predicate Proper(c: Call) {
    c.cmd % 256 == 0 && NoMemrefs(c.types) && Values(c.args) && (c.callback ==> IsAsync(c.types))
  }

  ghost predicate RightReaction(c: Call, r: Reaction)
    requires Proper(c)
  {
    if IsAsync(c.types) then
      r.Parked? && r.cmd == c.cmd && r.types == c.types && Agree(Signature(c.types), r.params, c.args)
    else r == Reply(ReplyTo(c))
  }

  /** Whatever the server's array held and the buffer holds behind the message, a synchronous call gets its
      reply and an asynchronous one is parked. */
  lemma ServerUnderstands(c: Call, junk: seq<byte>, locals: seq<Param>)
    requires Proper(c) && Values(locals)
    ensures var r := React(Wire(c) + junk, locals);
            r.Some? && Values(r.value.1) && RightReaction(c, r.value.0)
  {
    var ts := Signature(c.types);
    Filling(c.types, c.args, locals);
    MessageBack(c.cmd, c.types, c.args, junk);
    var now := Fill(locals, AllArrived(ts, c.args));
    ValuesAreSendable(c.types, Answer(now));
    ValuesAreSendable(c.types, Answer(c.args));
    SamePieces(ts, Answer(now), Answer(c.args));
  }

  lemma SameMerge(types: uint32, own: seq<Param>, p: seq<Param>, q: seq<Param>)
    requires |own| == IPC_NUM_PARAMS && Agree(Signature(types), p, q)
    ensures Merge(types, own, p) == Merge(types, own, q)
  {
  }

  lemma ReplyId(cmd: uint32)
    requires cmd % 256 == 0
    ensures IsRespond(RespondTo(cmd)) && RequestOf(RespondTo(cmd)) == cmd
  {
    var q := cmd / 256;
    assert cmd == 2 * (128 * q) && cmd + 1 == 256 * q + 1;
    ModUnique(cmd, 2, 128 * q, 0);
    ModUnique(cmd + 1, 2, 128 * q, 1);
    ModUnique(cmd + 1, 256, q, 1);
  }

  /** Whatever the client's array held, a reply names its call and completes its parameters. */
  lemma ClientUnderstands(c: Call, junk: seq<byte>, locals: seq<Param>)
    requires Proper(c) && |locals| == IPC_NUM_PARAMS
    ensures var r := Read(ReplyTo(c) + junk);
            && r.Some? && IsRespond(r.value.cmd) && RequestOf(r.value.cmd) == c.cmd
            && Agree(Signature(c.types), Fill(locals, r.value.params), Answer(c.args))
            && Merge(c.types, c.args, Fill(locals, r.value.params)) == Expected(c)
  {
    Filling(c.types, Answer(c.args), locals);
    MessageBack(RespondTo(c.cmd), c.types, Answer(c.args), junk);
    ReplyId(c.cmd);
    var got := AllArrived(Signature(c.types), Answer(c.args));
    SameMerge(c.types, c.args, Fill(locals, got), Answer(c.args));
  }

  // The invariant.

  /** The call's message is with the server, its reply is on the way, or the server has put it aside. */
  ghost predicate InTransit(s: State, id: nat, c: Call)
    requires Proper(c)
  {
    if id in s.toServer then
      s.toServer[id] == Wire(c) && id !in s.toClient && id !in s.parked
    else if id in s.toClient then
      s.toClient[id] == ReplyTo(c) && id !in s.parked && !IsAsync(c.types)
    else
      id in s.parked && IsAsync(c.types) && RightReaction(c, s.parked[id])
  }

  ghost predicate Settled(s: State, id: nat) {
    id !in s.toServer && id !in s.toClient && id !in s.parked
  }

  ghost predicate CallOk(s: State, id: nat, c: Call) {
    && Proper(c) && |c.node| == IPC_NUM_PARAMS
    && match c.stage
       case Sent => c.caller == c.args && InTransit(s, id, c)
       case Listed => c.caller == c.node == c.args && InTransit(s, id, c)
       case Waiting => c.caller == c.node == c.args && InTransit(s, id, c)
       case Signalled => c.caller == c.args && c.node == Expected(c) && Settled(s, id) && !IsAsync(c.types)
       case Returned => c.caller == Expected(c) && Settled(s, id) && !IsAsync(c.types)
       case CalledBack => false
  }

  /** The list holds every registered and unanswered call once, and no other. */
  ghost predicate Lists(calls: seq<Call>, pending: seq<nat>) {
    && (forall k | 0 <= k < |pending| :: pending[k] < |calls|)
    && (forall j, k | 0 <= j < k < |pending| :: pending[j] != pending[k])
    && (forall id | 0 <= id < |calls| :: Enlisted(calls[id]) <==> id in pending)
  }

  /** The ids of outstanding calls differ. */
  ghost predicate Unambiguous(calls: seq<Call>) {
    forall i, j | 0 <= i < j < |calls| ::
      Outstanding(calls[i]) && Outstanding(calls[j]) ==> calls[i].cmd != calls[j].cmd
  }

  /** callback_node points at the node of a call that has been registered. */
  ghost predicate CurrentOk(s: State) {
    s.current.Some? ==> s.current.value < |s.calls| && s.calls[s.current.value].stage != Sent
  }

  ghost predicate Inv(s: State) {
    && Values(s.serverLocals) && |s.clientLocals| == IPC_NUM_PARAMS
    && (forall id | 0 <= id < |s.calls| :: CallOk(s, id, s.calls[id]))
    && (forall id | id in s.toServer || id in s.toClient || id in s.parked :: id < |s.calls|)
    && Lists(s.calls, s.pending) && CurrentOk(s)
  }

  /** Nothing about this call's messages differs between the two states. */
  ghost predicate SameTraffic(s: State, t: State, id: nat) {
    && (id in s.toServer <==> id in t.toServer) && (id in s.toServer ==> t.toServer[id] == s.toServer[id])
    && (id in s.toClient <==> id in t.toClient) && (id in s.toClient ==> t.toClient[id] == s.toClient[id])
    && (id in s.parked <==> id in t.parked) && (id in s.parked ==> t.parked[id] == s.parked[id])
  }

  lemma Untouched(s: State, t: State, id: nat, c: Call)
    requires CallOk(s, id, c) && SameTraffic(s, t, id)
    ensures CallOk(t, id, c)
  {
  }

  /** A step that is only about call id keeps the invariant of all others. */
  lemma OthersUntouched(s: State, t: State, id: nat)
    requires forall i | 0 <= i < |s.calls| :: CallOk(s, i, s.calls[i])
    requires |t.calls| == |s.calls| || (|t.calls| == |s.calls| + 1 && id == |s.calls|)
    requires forall i | 0 <= i < |s.calls| && i != id :: t.calls[i] == s.calls[i]
    requires forall i: nat | i != id :: SameTraffic(s, t, i)
    ensures forall i | 0 <= i < |t.calls| && i != id :: CallOk(t, i, t.calls[i])
  {
    forall i | 0 <= i < |t.calls| && i != id
      ensures CallOk(t, i, t.calls[i])
    {
      Untouched(s, t, i, s.calls[i]);
    }
  }

  lemma IssueKeeps(s: State, step: Step)
    requires Inv(s) && step.Issue? && Legal(s, step)
    ensures Inv(Sending(s, step))
  {
    var t := Sending(s, step);
    OthersUntouched(s, t, |s.calls|);
    CallbackKeepsNoMemrefs(step.types);
    assert CallOk(t, |s.calls|, t.calls[|s.calls|]);
  }

  lemma RegisterKeeps(s: State, id: nat)
    requires Inv(s) && id < |s.calls| && s.calls[id].stage == Sent
    ensures Inv(Registering(s, id))
  {
    var t := Registering(s, id);
    OthersUntouched(s, t, id);
    assert CallOk(s, id, s.calls[id]);
    assert InTransit(t, id, t.calls[id]);
    Listing(s.calls, s.pending, id, t.calls[id]);
  }

  lemma Listing(calls: seq<Call>, pending: seq<nat>, id: nat, c: Call)
    requires Lists(calls, pending) && id < |calls| && !Enlisted(calls[id]) && Enlisted(c)
    ensures Lists(calls[id := c], pending + [id])
  {
    assert forall i :: i in pending + [id] <==> i in pending || i == id;
  }

  lemma WaitKeeps(s: State, id: nat)
    requires Inv(s) && id < |s.calls| && s.calls[id].stage == Listed
    ensures Inv(Blocking(s, id))
  {
    var t := Blocking(s, id);
    OthersUntouched(s, t, id);
    assert CallOk(s, id, s.calls[id]);
    assert InTransit(t, id, t.calls[id]);
  }

  lemma ReactionMoves(s: State, id: nat, c: Call, reaction: Reaction, locals: seq<Param>)
    requires Proper(c) && id in s.toServer && InTransit(s, id, c) && RightReaction(c, reaction)
    ensures var t := Reacting(s, id, reaction, locals);
            && t.calls == s.calls && t.pending == s.pending && t.clientLocals == s.clientLocals
            && t.serverLocals == locals && InTransit(t, id, c)
            && forall i: nat | i != id :: SameTraffic(s, t, i)
  {
  }

  lemma ServeKeeps(s: State, id: nat, junk: seq<byte>)
    requires Inv(s) && id in s.toServer
    ensures Serving(s, id, junk).Some? && Inv(Serving(s, id, junk).value)
  {
    assert CallOk(s, id, s.calls[id]);
    ServerUnderstands(s.calls[id], junk, s.serverLocals);
    var r := React(s.toServer[id] + junk, s.serverLocals).value;
    ReactionMoves(s, id, s.calls[id], r.0, r.1);
    var t := Reacting(s, id, r.0, r.1);
    OthersUntouched(s, t, id);
    assert CallOk(t, id, s.calls[id]);
    forall i: nat | i in t.toServer || i in t.toClient || i in t.parked
      ensures i < |t.calls|
    {
      assert i == id || SameTraffic(s, t, i);
    }
  }

  lemma ReturnKeeps(s: State, id: nat)
    requires Inv(s) && id < |s.calls| && s.calls[id].stage == Signalled
    ensures Inv(Returning(s, id))
  {
    var t := Returning(s, id);
    OthersUntouched(s, t, id);
    assert CallOk(s, id, s.calls[id]);
  }

  /** The search by command id finds call number pending[k] exactly when no call before it in the list has
      the same id. */
  lemma LookupFindsOwn(calls: seq<Call>, pending: seq<nat>, k: nat)
    requires k < |pending| && forall i | 0 <= i < |pending| :: pending[i] < |calls|
    ensures Lookup(PendingIds(calls, pending), calls[pending[k]].cmd) == k
            <==> forall i | 0 <= i < k :: calls[pending[i]].cmd != calls[pending[k]].cmd
  {
    var ids := PendingIds(calls, pending);
    assert ids[k] == calls[pending[k]].cmd;
    assert forall i | 0 <= i < k :: ids[i] == calls[pending[i]].cmd;
  }

  lemma OwnNodeIsFound(s: State, id: nat) returns (k: nat)
    requires Shape(s) && id < |s.calls| && Foremost(s.calls, s.pending, id)
    ensures k < |s.pending| && s.pending[k] == id && k == Lookup(PendingIds(s.calls, s.pending), s.calls[id].cmd)
  {
    k :| 0 <= k < |s.pending| && s.pending[k] == id
         && forall i | 0 <= i < k :: s.calls[s.pending[i]].cmd != s.calls[id].cmd;
    LookupFindsOwn(s.calls, s.pending, k);
  }

  /** Of a call that is not foremost, the search finds another one. */
  lemma OtherNodeIsFound(s: State, id: nat, k: nat)
    requires Shape(s) && id < |s.calls| && !Foremost(s.calls, s.pending, id)
    requires k == Lookup(PendingIds(s.calls, s.pending), s.calls[id].cmd) < |s.pending|
    ensures s.pending[k] != id
  {
    var ids := PendingIds(s.calls, s.pending);
    assert forall i | 0 <= i < k :: ids[i] == s.calls[s.pending[i]].cmd;
  }

  lemma Unlisting(calls: seq<Call>, pending: seq<nat>, k: nat, c: Call)
    requires Lists(calls, pending) && k < |pending| && !Enlisted(c)
    ensures Lists(calls[pending[k] := c], pending[..k] + pending[k + 1..])
  {
    var t := pending[..k] + pending[k + 1..];
    forall x | x in pending && x != pending[k]
      ensures x in t
    {
      var i :| 0 <= i < |pending| && pending[i] == x;
      assert t[if i < k then i else i - 1] == x;
    }
  }

  /** A response that finds its call takes exactly its node out of the list, and completes it. */
  lemma ResponseFindsItsCall(s: State, id: nat, junk: seq<byte>) returns (k: nat, now: seq<Param>)
    requires Inv(s) && Shape(s) && id in s.toClient && Foremost(s.calls, s.pending, id)
    ensures k < |s.pending| && s.pending[k] == id && |now| == IPC_NUM_PARAMS
    ensures Delivering(s, id, junk) == Some(Completing(s, id, k, now))
    ensures !IsAsync(s.calls[id].types) && !s.calls[id].callback && Enlisted(s.calls[id])
    ensures Merge(s.calls[id].types, s.calls[id].node, now) == Expected(s.calls[id])
  {
    var c := s.calls[id];
    assert CallOk(s, id, c);
    k := OwnNodeIsFound(s, id);
    assert Enlisted(c);
    ClientUnderstands(c, junk, s.clientLocals);
    now := Fill(s.clientLocals, Read(ReplyTo(c) + junk).value.params);
    RespondingToFound(s, id, k, c.cmd, now);
  }

  lemma ResponseCompletesItsCall(s: State, id: nat, junk: seq<byte>) returns (k: nat, now: seq<Param>)
    requires Inv(s) && Legal(s, Deliver(id, junk))
    ensures Shape(s) && k < |s.pending| && s.pending[k] == id && |now| == IPC_NUM_PARAMS
    ensures Delivering(s, id, junk) == Some(Completing(s, id, k, now))
    ensures !IsAsync(s.calls[id].types) && !s.calls[id].callback && s.calls[id].stage == Waiting
    ensures Merge(s.calls[id].types, s.calls[id].node, now) == Expected(s.calls[id])
  {
    InvHasShape(s);
    k, now := ResponseFindsItsCall(s, id, junk);
  }

  /** A reply, whatever it finds, acts on the call in the list where its search ends. */
  lemma ReplyActs(s: State, id: nat, junk: seq<byte>) returns (now: seq<Param>)
    requires Inv(s) && Shape(s) && id in s.toClient
    ensures |now| == IPC_NUM_PARAMS && Agree(Signature(s.calls[id].types), now, Answer(s.calls[id].args))
    ensures Delivering(s, id, junk) == Responding(s, id, s.calls[id].cmd, now)
  {
    var c := s.calls[id];
    assert CallOk(s, id, c);
    ClientUnderstands(c, junk, s.clientLocals);
    now := Fill(s.clientLocals, Read(ReplyTo(c) + junk).value.params);
  }

  /** Nothing has happened to the call but the loss of its reply. */
  ghost predicate LeftAlone(s: State, t: State, id: nat) {
    && id < |s.calls| == |t.calls| && t.calls[id] == s.calls[id] && (id in s.pending ==> id in t.pending)
    && id !in t.toClient && t.toServer == s.toServer && t.parked == s.parked
  }

  lemma ActsOnFound(s: State, id: nat, k: nat, now: seq<Param>)
    requires Shape(s) && k < |s.pending| && s.pending[k] != id && id < |s.calls| && |now| == IPC_NUM_PARAMS
    ensures LeftAlone(s, Completing(s, id, k, now), id)
  {
    if id in s.pending {
      StaysListed(s.pending, id, k);
    }
  }

  lemma ActsOnOther(s: State, id: nat, to: nat, now: seq<Param>)
    requires Shape(s) && to < |s.calls| && id < |s.calls| && to != id && |now| == IPC_NUM_PARAMS
    ensures LeftAlone(s, Acting(s, id, to, s.pending, now), id)
  {
  }

  lemma LeftOnAnother(s: State, id: nat)
    requires Shape(s) && id < |s.calls| && LeftOn(s).Some? && (s.pending == [] ==> s.current != Some(id))
    requires Lookup(PendingIds(s.calls, s.pending), s.calls[id].cmd) == |s.pending|
    ensures LeftOn(s).value < |s.calls| && LeftOn(s).value != id
  {
    if s.pending != [] {
      assert PendingIds(s.calls, s.pending)[|s.pending| - 1] == s.calls[LeftOn(s).value].cmd;
    }
  }

  /** If its call is not the foremost one with its id, a reply acts on another. */
  lemma ActsOnAnother(s: State, id: nat, now: seq<Param>)
    requires Shape(s) && Lists(s.calls, s.pending) && id < |s.calls| && !Foremost(s.calls, s.pending, id)
    requires |now| == IPC_NUM_PARAMS && (s.pending == [] ==> s.current != Some(id))
    ensures var d := Responding(s, id, s.calls[id].cmd, now); d.Some? ==> LeftAlone(s, d.value, id)
  {
    var k := Lookup(PendingIds(s.calls, s.pending), s.calls[id].cmd);
    if k < |s.pending| {
      OtherNodeIsFound(s, id, k);
      ActsOnFound(s, id, k, now);
      RespondingToFound(s, id, k, s.calls[id].cmd, now);
    } else if LeftOn(s).Some? {
      LeftOnAnother(s, id);
      ActsOnOther(s, id, LeftOn(s).value, now);
      RespondingToLeft(s, id, s.calls[id].cmd, now);
    }
  }

  lemma StaysListed(pending: seq<nat>, id: nat, k: nat)
    requires k < |pending| && pending[k] != id && id in pending
    ensures id in pending[..k] + pending[k + 1..]
  {
    var i :| 0 <= i < |pending| && pending[i] == id;
    var t := pending[..k] + pending[k + 1..];
    assert t[if i < k then i else i - 1] == id;
  }

  /** A synchronous call that has been signalled. */
  ghost predicate Awake(s: State, id: nat) {
    id < |s.calls| && !s.calls[id].callback && (s.calls[id].stage == Signalled || s.calls[id].stage == Returned)
  }

  /** The call's node has got its outputs and is out of the list, and its thread has been signalled if it waited. */
  ghost predicate TakenOut(s: State, t: State, id: nat) {
    && id < |s.calls| == |t.calls| && id in s.pending && id !in t.pending && Values(s.calls[id].args)
    && t.calls[id] == s.calls[id].(node := Expected(s.calls[id]),
                                   stage := if s.calls[id].stage == Waiting then Signalled else Listed)
  }

  /**
    A reply reaches its own call if and only if that call is in the list and no call before it there has its id: then
    its node is taken out and completed, and otherwise the call stays as and where it is; in either case no message
    of it is left. And it wakes its thread if and only if, besides, the thread waits by then.
   */
  lemma ReplyReachesItsCall(s: State, id: nat, junk: seq<byte>)
    requires Inv(s) && Shape(s) && id in s.toClient
    ensures var d := Delivering(s, id, junk);
            && (Foremost(s.calls, s.pending, id) <==> d.Some? && TakenOut(s, d.value, id))
            && (Foremost(s.calls, s.pending, id) && s.calls[id].stage == Waiting <==> d.Some? && Awake(d.value, id))
            && (!Foremost(s.calls, s.pending, id) && d.Some? ==> LeftAlone(s, d.value, id))
            && (d.Some? ==> Settled(d.value, id))
  {
    assert CallOk(s, id, s.calls[id]);
    if Foremost(s.calls, s.pending, id) {
      ReplyIsTaken(s, id, junk);
    } else {
      ReplyIsAstray(s, id, junk);
    }
  }

  lemma ReplyIsTaken(s: State, id: nat, junk: seq<byte>)
    requires Inv(s) && Shape(s) && id in s.toClient && Foremost(s.calls, s.pending, id)
    ensures var d := Delivering(s, id, junk); d.Some? && TakenOut(s, d.value, id) && Settled(d.value, id)
  {
    assert CallOk(s, id, s.calls[id]);
    var k, now := ResponseFindsItsCall(s, id, junk);
    Taken(s.pending, k);
  }

  lemma ReplyIsAstray(s: State, id: nat, junk: seq<byte>)
    requires Inv(s) && Shape(s) && id in s.toClient && !Foremost(s.calls, s.pending, id)
    ensures var d := Delivering(s, id, junk); d.Some? ==> LeftAlone(s, d.value, id) && Settled(d.value, id)
  {
    assert CallOk(s, id, s.calls[id]);
    assert s.pending == [] ==> !Enlisted(s.calls[id]);
    var now := ReplyActs(s, id, junk);
    ActsOnAnother(s, id, now);
  }

  lemma Taken(pending: seq<nat>, k: nat)
    requires k < |pending| && forall i, j | 0 <= i < j < |pending| :: pending[i] != pending[j]
    ensures pending[k] in pending && pending[k] !in pending[..k] + pending[k + 1..]
  {
  }

  /** With different ids, a call is foremost if and only if it is in the list. */
  lemma UniqueIsForemost(calls: seq<Call>, pending: seq<nat>, id: nat)
    requires Lists(calls, pending) && Unambiguous(calls) && id < |calls|
    ensures Foremost(calls, pending, id) <==> Enlisted(calls[id])
  {
    if Enlisted(calls[id]) {
      var k :| 0 <= k < |pending| && pending[k] == id;
      forall i | 0 <= i < k
        ensures calls[pending[i]].cmd != calls[id].cmd
      {
        assert pending[i] in pending && pending[i] != pending[k];
      }
    }
  }

  /** With different ids, registration decides: a reply reaches its own call if and only if that has been registered
      by then, and wakes its thread if and only if that waits by then. */
  lemma RegistrationDecides(s: State, id: nat, junk: seq<byte>)
    requires Inv(s) && Shape(s) && Unambiguous(s.calls) && id in s.toClient
    ensures var d := Delivering(s, id, junk);
            && (d.Some? && TakenOut(s, d.value, id) <==> Enlisted(s.calls[id]))
            && (d.Some? && Awake(d.value, id) <==> s.calls[id].stage == Waiting)
  {
    assert CallOk(s, id, s.calls[id]);
    ReplyReachesItsCall(s, id, junk);
    UniqueIsForemost(s.calls, s.pending, id);
  }

  lemma CompletionIsOk(s: State, id: nat, k: nat, now: seq<Param>)
    requires Shape(s) && k < |s.pending| && s.pending[k] == id && |now| == IPC_NUM_PARAMS
    requires id in s.toClient && CallOk(s, id, s.calls[id]) && s.calls[id].stage == Waiting
    requires Merge(s.calls[id].types, s.calls[id].node, now) == Expected(s.calls[id])
    ensures var t := Completing(s, id, k, now); CallOk(t, id, t.calls[id])
  {
  }

  lemma CompletingKeeps(s: State, id: nat, k: nat, now: seq<Param>)
    requires Inv(s) && k < |s.pending| && s.pending[k] == id && id in s.toClient && |now| == IPC_NUM_PARAMS
    requires s.calls[id].stage == Waiting
    requires Merge(s.calls[id].types, s.calls[id].node, now) == Expected(s.calls[id])
    ensures Inv(Completing(s, id, k, now))
  {
    var t := Completing(s, id, k, now);
    assert CallOk(s, id, s.calls[id]);
    CompletionIsOk(s, id, k, now);
    OthersUntouched(s, t, id);
    Unlisting(s.calls, s.pending, k, t.calls[id]);
  }

  lemma DeliverKeeps(s: State, id: nat, junk: seq<byte>)
    requires Inv(s) && Legal(s, Deliver(id, junk))
    ensures Delivering(s, id, junk).Some? && Inv(Delivering(s, id, junk).value)
  {
    var k, now := ResponseCompletesItsCall(s, id, junk);
    CompletingKeeps(s, id, k, now);
  }

  // Runs.

  predicate Start(s: State) {
    && s.calls == [] && s.pending == [] && s.current == None
    && s.toServer == map[] && s.toClient == map[] && s.parked == map[] && s.asyncCalls == [] && s.registrations == []
    && Values(s.serverLocals) && |s.clientLocals| == IPC_NUM_PARAMS
  }

  lemma StartIsOk(s: State)
    requires Start(s)
    ensures Inv(s)
  {
  }

  lemma StepKeepsInv(s: State, step: Step)
    requires Inv(s) && Legal(s, step)
    ensures Shape(s) && Next(s, step).Some? && Inv(Next(s, step).value)
  {
    InvHasShape(s);
    match step
    case Issue(_, _, _, _, _) => IssueKeeps(s, step);
    case Register(id) => RegisterKeeps(s, id);
    case Wait(id) => WaitKeeps(s, id);
    case Serve(id, junk) => ServeKeeps(s, id, junk);
    case Deliver(id, junk) => DeliverKeeps(s, id, junk);
    case Return(id) => ReturnKeeps(s, id);
  }

  lemma InvHasShape(s: State)
    requires Inv(s)
    ensures Shape(s)
  {
    forall id | 0 <= id < |s.calls|
      ensures |s.calls[id].node| == |s.calls[id].caller| == IPC_NUM_PARAMS
    {
      assert CallOk(s, id, s.calls[id]);
    }
  }

  /** What the code makes of the steps. None: one of them is not possible, or cannot be carried out. */
  function Run(s: State, steps: seq<Step>): Option<State>
    decreases |steps|
  {
    if steps == [] then Some(s)
    else if !Shape(s) || !Possible(s, steps[0]) || Next(s, steps[0]).None? then None
    else Run(Next(s, steps[0]).value, steps[1..])
  }

  /** Every step is legal where it is taken; that it can be carried out is not part of this. */
  predicate LegalRun(s: State, steps: seq<Step>)
    decreases |steps|
  {
    steps == []
    || (Shape(s) && Legal(s, steps[0]) && (Next(s, steps[0]).Some? ==> LegalRun(Next(s, steps[0]).value, steps[1..])))
  }

  /** What is enough of the callers: new ids differ from those outstanding, and each response is received after its
      call has begun to wait. */
  predicate Careful(s: State, step: Step) {
    Possible(s, step) && match step
                         case Issue(cmd, _, _, _, _) =>
                           cmd % 256 == 0
                           && forall id | 0 <= id < |s.calls| :: Outstanding(s.calls[id]) ==> s.calls[id].cmd != cmd
                         case Deliver(id, _) => id < |s.calls| && s.calls[id].stage == Waiting
                         case _ => true
  }

  predicate CarefulRun(s: State, steps: seq<Step>)
    decreases |steps|
  {
    steps == []
    || (Shape(s) && Careful(s, steps[0])
        && (Next(s, steps[0]).Some? ==> CarefulRun(Next(s, steps[0]).value, steps[1..])))
  }

  /** A call that is no longer outstanding, or as outstanding as before, leaves the ids unambiguous. */
  lemma Restage(calls: seq<Call>, id: nat, c: Call)
    requires id < |calls| && Unambiguous(calls) && c.cmd == calls[id].cmd
    requires Outstanding(c) ==> Outstanding(calls[id])
    ensures Unambiguous(calls[id := c])
  {
  }

  lemma CarefulIsLegal(s: State, step: Step)
    requires Inv(s) && Shape(s) && Unambiguous(s.calls) && Careful(s, step)
    ensures Legal(s, step) && Next(s, step).Some? && Unambiguous(Next(s, step).value.calls)
  {
    if step.Deliver? {
      UniqueIsForemost(s.calls, s.pending, step.id);
      var k, now := ResponseCompletesItsCall(s, step.id, step.junk);
      Restage(s.calls, step.id, Completed(s.calls[step.id], now));
    } else {
      StepKeepsInv(s, step);
      OtherStepsKeepIds(s, step);
    }
  }

  lemma OtherStepsKeepIds(s: State, step: Step)
    requires Shape(s) && Unambiguous(s.calls) && Careful(s, step) && Next(s, step).Some? && !step.Deliver?
    ensures Unambiguous(Next(s, step).value.calls)
  {
    match step
    case Issue(_, _, _, _, _) =>
    case Register(id) => Restage(s.calls, id, Registering(s, id).calls[id]);
    case Wait(id) => Restage(s.calls, id, Blocking(s, id).calls[id]);
    case Serve(_, _) =>
    case Return(id) => Restage(s.calls, id, Returning(s, id).calls[id]);
  }

  lemma {:induction false} CarefulRunsAreLegal(s: State, steps: seq<Step>)
    requires Inv(s) && Unambiguous(s.calls) && CarefulRun(s, steps)
    ensures LegalRun(s, steps)
    decreases |steps|
  {
    if steps != [] {
      CarefulIsLegal(s, steps[0]);
      StepKeepsInv(s, steps[0]);
      CarefulRunsAreLegal(Next(s, steps[0]).value, steps[1..]);
    }
  }

  /** A step's effect on the list of the calls registered and not answered, in the order of registration. */
  function Noted(waiting: seq<nat>, step: Step): seq<nat> {
    match step
    case Register(id) => waiting + [id]
    case Deliver(id, _) => Remove(waiting, id)
    case _ => waiting
  }

  function Unanswered(waiting: seq<nat>, steps: seq<Step>): seq<nat>
    decreases |steps|
  {
    if steps == [] then waiting else Unanswered(Noted(waiting, steps[0]), steps[1..])
  }

  function Remove(s: seq<nat>, id: nat): seq<nat> {
    if s == [] then [] else if s[0] == id then s[1..] else [s[0]] + Remove(s[1..], id)
  }

  lemma {:induction false} RemoveAt(s: seq<nat>, k: nat)
    requires k < |s| && forall i | 0 <= i < k :: s[i] != s[k]
    ensures Remove(s, s[k]) == s[..k] + s[k + 1..]
  {
    if k > 0 {
      RemoveAt(s[1..], k - 1);
      assert s[..k] + s[k + 1..] == [s[0]] + (s[1..][..k - 1] + s[1..][k..]);
    }
  }

  lemma ResponseIsNoted(s: State, id: nat, junk: seq<byte>)
    requires Inv(s) && Legal(s, Deliver(id, junk))
    ensures Shape(s) && Delivering(s, id, junk).Some?
    ensures Delivering(s, id, junk).value.pending == Remove(s.pending, id)
  {
    var k, now := ResponseCompletesItsCall(s, id, junk);
    RemoveAt(s.pending, k);
  }

  lemma StepIsNoted(s: State, step: Step)
    requires Inv(s) && Legal(s, step)
    ensures Shape(s) && Next(s, step).Some? && Next(s, step).value.pending == Noted(s.pending, step)
  {
    if step.Deliver? {
      ResponseIsNoted(s, step.id, step.junk);
    } else {
      StepKeepsInv(s, step);
      OtherStepsAnswerNothing(s, step);
    }
  }

  lemma OtherStepsAnswerNothing(s: State, step: Step)
    requires Shape(s) && Possible(s, step) && Next(s, step).Some? && !step.Deliver?
    ensures Next(s, step).value.pending == Noted(s.pending, step)
  {
  }

  /** In every legal run every step can be carried out, the invariant holds, and the client's list is the
      list of the calls registered and not yet answered: each response has removed its own call's node. */
  lemma {:induction false} PendingIsUnanswered(s: State, steps: seq<Step>)
    requires Inv(s) && LegalRun(s, steps)
    ensures Run(s, steps).Some? && Inv(Run(s, steps).value)
    ensures Run(s, steps).value.pending == Unanswered(s.pending, steps)
    decreases |steps|
  {
    if steps != [] {
      StepKeepsInv(s, steps[0]);
      StepIsNoted(s, steps[0]);
      PendingIsUnanswered(Next(s, steps[0]).value, steps[1..]);
    }
  }

  /** What a call was asked to do. */
  datatype Request = Request(cmd: uint32, types: uint32, callback: bool, args: seq<Param>)

  function Requests(calls: seq<Call>): seq<Request> {
    seq(|calls|, i requires 0 <= i < |calls| =>
      Request(calls[i].cmd, calls[i].types, calls[i].callback, calls[i].args))
  }

  function AskedBy(step: Step): seq<Request> {
    match step
    case Issue(cmd, types, callback, params, _) =>
      [Request(cmd, if callback then WithCallback(types) else types, callback, params)]
    case _ => []
  }

  function Asked(steps: seq<Step>): seq<Request> {
    if steps == [] then [] else AskedBy(steps[0]) + Asked(steps[1..])
  }

  lemma RequestsStep(s: State, step: Step)
    requires Shape(s) && Possible(s, step) && Next(s, step).Some?
    ensures Requests(Next(s, step).value.calls) == Requests(s.calls) + AskedBy(step)
  {
    var t := Next(s, step).value;
    match step
    case Issue(_, _, _, _, _) =>
    case Register(id) => SameRequests(s.calls, id, t.calls[id]);
    case Wait(id) => SameRequests(s.calls, id, t.calls[id]);
    case Serve(_, _) =>
    case Deliver(id, junk) =>
      var r := Read(s.toClient[id] + junk).value;
      RespondingKeepsRequests(s, id, RequestOf(r.cmd), Fill(s.clientLocals, r.params));
    case Return(id) => SameRequests(s.calls, id, t.calls[id]);
  }

  lemma RespondingKeepsRequests(s: State, id: nat, request: uint32, now: seq<Param>)
    requires Shape(s) && |now| == IPC_NUM_PARAMS && Responding(s, id, request, now).Some?
    ensures Requests(Responding(s, id, request, now).value.calls) == Requests(s.calls)
  {
    var to := EndsOn(s, request).value;
    SameRequests(s.calls, to, Completed(s.calls[to], now));
  }

  lemma SameRequests(calls: seq<Call>, id: nat, c: Call)
    requires id < |calls| && c.cmd == calls[id].cmd && c.types == calls[id].types
    requires c.callback == calls[id].callback && c.args == calls[id].args
    ensures Requests(calls[id := c]) == Requests(calls)
  {
  }

  lemma {:induction false} RequestsAreAsked(s: State, steps: seq<Step>)
    requires Run(s, steps).Some?
    ensures Requests(Run(s, steps).value.calls) == Requests(s.calls) + Asked(steps)
    decreases |steps|
  {
    if steps != [] {
      RequestsStep(s, steps[0]);
      RequestsAreAsked(Next(s, steps[0]).value, steps[1..]);
      Chained(Requests(s.calls), AskedBy(steps[0]), Asked(steps[1..]));
    }
  }

  lemma Chained(a: seq<Request>, b: seq<Request>, c: seq<Request>)
    ensures a + b + c == a + (b + c)
  {
  }

  /** A synchronous call that has returned: its output parameters are those of the server's reply, which
      are its own but for two words of the second, and its input parameters are unchanged. */
  lemma ReturnedCallsHaveTheirAnswers(s: State, steps: seq<Step>, t: State, id: nat, i: nat)
    requires Start(s) && LegalRun(s, steps) && Run(s, steps) == Some(t)
    requires id < |t.calls| && t.calls[id].stage == Returned && i < IPC_NUM_PARAMS
    ensures id < |Asked(steps)|
    ensures var r, now := Asked(steps)[id], t.calls[id].caller;
            && |r.args| == |now| == IPC_NUM_PARAMS && !r.callback && r.args[1].Value?
            && var ts := Signature(r.types);
               now[i] == if i == 1 < |ts| && (ts[1] == 2 || ts[1] == 3) then Value(80, 90, r.args[1].rest)
                         else r.args[i]
  {
    StartIsOk(s);
    PendingIsUnanswered(s, steps);
    RequestsAreAsked(s, steps);
    assert CallOk(t, id, t.calls[id]);
    assert Requests(t.calls)[id] == Asked(steps)[id];
  }

  lemma RunCons(s: State, step: Step, rest: seq<Step>)
    requires Shape(s) && Possible(s, step) && Next(s, step).Some?
    ensures Run(s, [step] + rest) == Run(Next(s, step).value, rest)
  {
    assert ([step] + rest)[1..] == rest;
  }

  lemma ReactingLeaves(s: State, id: nat, reaction: Reaction, locals: seq<Param>)
    ensures var t := Reacting(s, id, reaction, locals);
            t.calls == s.calls && t.pending == s.pending && id !in t.toServer
  {
  }

  lemma Progress(s: State, id: nat) returns (step: Step)
    requires Inv(s) && Unambiguous(s.calls)
    requires id < |s.calls| && Outstanding(s.calls[id]) && !IsAsync(s.calls[id].types)
    ensures Shape(s) && Careful(s, step) && Next(s, step).Some?
    ensures var t := Next(s, step).value;
            && id < |t.calls| && t.calls[id].types == s.calls[id].types
            && if s.calls[id].stage == Sent then t.calls[id].stage == Listed
               else if s.calls[id].stage == Listed then t.calls[id].stage == Waiting
               else if id in s.toServer then t.calls[id].stage == Waiting && id !in t.toServer
               else t.calls[id].stage == Signalled
  {
    InvHasShape(s);
    assert CallOk(s, id, s.calls[id]);
    if s.calls[id].stage == Waiting && id !in s.toServer {
      step := Deliver(id, []);
      CarefulIsLegal(s, step);
      var k, now := ResponseCompletesItsCall(s, id, []);
    } else if s.calls[id].stage == Waiting {
      step := Serve(id, []);
      CarefulIsLegal(s, step);
      var r := React(s.toServer[id] + [], s.serverLocals).value;
      ReactingLeaves(s, id, r.0, r.1);
    } else {
      step := if s.calls[id].stage == Sent then Register(id) else Wait(id);
      CarefulIsLegal(s, step);
    }
  }

  /** Nothing gets lost: from wherever it is, a synchronous call can be carried on until it returns. */
  lemma CallsCanReturn(s: State, id: nat) returns (steps: seq<Step>, t: State)
    requires Inv(s) && Unambiguous(s.calls) && id < |s.calls| && !IsAsync(s.calls[id].types)
    requires Outstanding(s.calls[id]) || s.calls[id].stage == Signalled
    ensures Run(s, steps) == Some(t) && id < |t.calls| && t.calls[id].stage == Returned
    decreases match s.calls[id].stage case Sent => 3 case Listed => 2 case Waiting => 1 case _ => 0,
              if id in s.toServer then 1 else 0
  {
    var step;
    if s.calls[id].stage == Signalled {
      InvHasShape(s);
      step, steps, t := Return(id), [], Returning(s, id);
    } else {
      step := Progress(s, id);
      CarefulIsLegal(s, step);
      StepKeepsInv(s, step);
      steps, t := CallsCanReturn(Next(s, step).value, id);
    }
    RunCons(s, step, steps);
    steps := [step] + steps;
  }

  lemma StepLeavesAsynchronousCall(s: State, step: Step, id: nat)
    requires Inv(s) && Legal(s, step)
    requires id < |s.calls| && Enlisted(s.calls[id]) && IsAsync(s.calls[id].types)
    ensures Shape(s) && Next(s, step).Some?
    ensures var t := Next(s, step).value;
            id < |t.calls| && Enlisted(t.calls[id]) && t.calls[id] == s.calls[id].(stage := t.calls[id].stage)
  {
    StepKeepsInv(s, step);
    if step.Deliver? {
      var k, now := ResponseCompletesItsCall(s, step.id, step.junk);
    } else {
      OtherStepsLeaveCall(s, step, id);
    }
  }

  lemma OtherStepsLeaveCall(s: State, step: Step, id: nat)
    requires Shape(s) && Possible(s, step) && Next(s, step).Some? && !step.Deliver?
    requires id < |s.calls| && Enlisted(s.calls[id])
    ensures var t := Next(s, step).value;
            id < |t.calls| && Enlisted(t.calls[id]) && t.calls[id] == s.calls[id].(stage := t.calls[id].stage)
  {
  }

  /** An asynchronous call waits for ever: the code that would answer it is compiled out. */
  lemma {:induction false} AsynchronousCallsStay(s: State, steps: seq<Step>, id: nat)
    requires Inv(s) && LegalRun(s, steps)
    requires id < |s.calls| && Enlisted(s.calls[id]) && IsAsync(s.calls[id].types)
    ensures Run(s, steps).Some? && id in Run(s, steps).value.pending
    decreases |steps|
  {
    if steps != [] {
      StepKeepsInv(s, steps[0]);
      StepLeavesAsynchronousCall(s, steps[0], id);
      AsynchronousCallsStay(Next(s, steps[0]).value, steps[1..], id);
    }
  }
}
