/**
  The protocol run by the code: client and server objects with their lists, the parameter arrays of every call,
  and the messages under way. Each step of IpcProtocol is taken by the methods of IpcCalls, and any run of the
  protocol, the responses in it finding their calls or not, is a run of the code.
 */
module IpcSystem {
  import opened Bits
  import opened IpcCodec
  import opened IpcCalls
  import opened IpcProtocol

  /** One thread in ipc_client_request: its arguments, and its caller's array. */
  datatype Frame = Frame(cmd: uint32, wire: uint32, callback: bool, args: array<Param>)

  /** The system as values: the callers' arrays, the nodes of registered calls and their arrays, the client's list and
      its callback_node, the messages under way, the lists of the server, and the arrays of the receiving threads. */
  datatype Picture = Picture(frames: seq<Frame>, args: seq<seq<Param>>, nodes: map<nat, CallbackNode>,
                             params: map<nat, seq<Param>>, list: seq<CallbackNode>, current: CallbackNode?,
                             toServer: map<nat, seq<byte>>, toClient: map<nat, seq<byte>>,
                             asyncCalls: seq<Reaction>, registrations: seq<Reaction>,
                             serverLocals: seq<Param>, clientLocals: seq<Param>)

  ghost predicate CallMatches(p: Picture, id: nat, c: Call) {
    && id < |p.frames| == |p.args|
    && var f := p.frames[id];
    && f.cmd == c.cmd && f.wire == c.types && f.callback == c.callback && p.args[id] == c.caller
    && (id in p.nodes <==> c.stage != Sent)
    && (id in p.nodes ==>
          && id in p.params && p.params[id] == c.node
          && var n := p.nodes[id]; n.cmdId == c.cmd && n.paramTypes == c.types && n.hasCallback == c.callback)
  }

  ghost predicate CallsMatch(p: Picture, calls: seq<Call>) {
    && |p.frames| == |p.args| == |calls| && (forall id | id in p.nodes :: id < |calls|)
    && forall id | 0 <= id < |calls| :: CallMatches(p, id, calls[id])
  }

  ghost predicate ListMatches(nodes: map<nat, CallbackNode>, list: seq<CallbackNode>, pending: seq<nat>) {
    |list| == |pending| && forall k | 0 <= k < |pending| :: pending[k] in nodes && list[k] == nodes[pending[k]]
  }

  ghost predicate CurrentMatches(nodes: map<nat, CallbackNode>, node: CallbackNode?, current: Option<nat>) {
    match current
    case None => node == null
    case Some(id) => id in nodes && node == nodes[id]
  }

  /** The system is in this state of the protocol. */
  ghost predicate Matches(p: Picture, s: State) {
    && CallsMatch(p, s.calls) && ListMatches(p.nodes, p.list, s.pending)
    && CurrentMatches(p.nodes, p.current, s.current)
    && p.toServer == s.toServer && p.toClient == s.toClient
    && p.asyncCalls == s.asyncCalls && p.registrations == s.registrations
    && p.serverLocals == s.serverLocals && p.clientLocals == s.clientLocals
  }

  /** Only call id has changed. */
  lemma OneCallChanged(p: Picture, q: Picture, calls: seq<Call>, id: nat, c: Call)
    requires CallsMatch(p, calls) && id < |calls| && CallMatches(q, id, c)
    requires |q.frames| == |q.args| == |calls| && (forall other | other in q.nodes :: other in p.nodes || other == id)
    requires forall other: nat | other < |calls| && other != id ::
               && q.frames[other] == p.frames[other] && q.args[other] == p.args[other]
               && (other in q.nodes <==> other in p.nodes)
               && (other in p.nodes ==> q.nodes[other] == p.nodes[other])
               && (other in p.params ==> other in q.params && q.params[other] == p.params[other])
    ensures CallsMatch(q, calls[id := c])
  {
    forall other: nat | other < |calls| && other != id
      ensures CallMatches(q, other, calls[other])
    {
      assert CallMatches(p, other, calls[other]);
    }
  }

  lemma SendMatches(p: Picture, f: Frame, calls: seq<Call>, c: Call, q: Picture)
    requires CallsMatch(p, calls) && f.cmd == c.cmd && f.wire == c.types && f.callback == c.callback && c.stage == Sent
    requires q.frames == p.frames + [f] && q.args == p.args + [c.caller] && q.nodes == p.nodes && q.params == p.params
    ensures CallsMatch(q, calls + [c])
  {
    forall id: nat | id < |calls|
      ensures CallMatches(q, id, calls[id])
    {
      assert CallMatches(p, id, calls[id]);
    }
  }

  lemma NotYetThere(p: Picture, s: State, id: nat)
    requires Matches(p, s) && id < |s.calls| && s.calls[id].stage == Sent
    ensures id < |p.frames| == |p.args| && id !in p.nodes
  {
    assert CallMatches(p, id, s.calls[id]);
  }

  lemma RegisterMatches(p: Picture, s: State, id: nat, n: CallbackNode)
    requires Matches(p, s) && Shape(s) && id < |s.calls| && s.calls[id].stage == Sent
    requires id < |p.frames| == |p.args| && id !in p.nodes
    requires n.cmdId == p.frames[id].cmd && n.paramTypes == p.frames[id].wire && n.hasCallback == p.frames[id].callback
    ensures Matches(p.(nodes := p.nodes[id := n], params := p.params[id := p.args[id]], list := p.list + [n]),
                    Registering(s, id))
  {
    var q := p.(nodes := p.nodes[id := n], params := p.params[id := p.args[id]], list := p.list + [n]);
    assert CallMatches(p, id, s.calls[id]);
    OneCallChanged(p, q, s.calls, id, Registering(s, id).calls[id]);
  }

  lemma RestMatches(nodes: map<nat, CallbackNode>, list: seq<CallbackNode>, pending: seq<nat>, ids: seq<uint32>,
                    id: uint32)
    requires ListMatches(nodes, list, pending) && |ids| == |list|
    ensures ListMatches(nodes, Rest(list, ids, id), Rest(pending, ids, id))
  {
  }

  /** The ids along the list are those of the protocol's list, so the search ends at the same place. */
  lemma SameIds(p: Picture, s: State)
    requires Matches(p, s) && Shape(s)
    ensures CmdIds(p.list) == PendingIds(s.calls, s.pending)
  {
    forall k | 0 <= k < |s.pending|
      ensures CmdIds(p.list)[k] == PendingIds(s.calls, s.pending)[k]
    {
      assert CallMatches(p, s.pending[k], s.calls[s.pending[k]]);
    }
  }

  lemma SameSearch(p: Picture, s: State, request: uint32)
    requires Matches(p, s) && Shape(s)
    ensures CmdIds(p.list) == PendingIds(s.calls, s.pending)
    ensures CurrentMatches(p.nodes, Chosen(p.list, p.current, request), EndsOn(s, request))
  {
    SameIds(p, s);
  }

  /** Response r finds the node of call `to`, and with it all that the client asks of it; then the state is t. */
  ghost predicate Ready(p: Picture, s: State, id: nat, junk: seq<byte>, r: Received, to: nat, t: State)
    requires Shape(s)
  {
    && id in s.toClient && Read(s.toClient[id] + junk) == Some(r) && IsRespond(r.cmd)
    && Responding(s, id, RequestOf(r.cmd), Fill(s.clientLocals, r.params)) == Some(t)
    && EndsOn(s, RequestOf(r.cmd)) == Some(to) && to in p.nodes && to in p.params
    && Chosen(p.list, p.current, RequestOf(r.cmd)) == p.nodes[to] && NoMemrefs(p.nodes[to].paramTypes)
    && (p.nodes[to].hasCallback ==> Lookup(CmdIds(p.list), RequestOf(r.cmd)) < |p.list|)
  }

  lemma DeliverMatches(p: Picture, s: State, id: nat, junk: seq<byte>, r: Received, to: nat, t: State, q: Picture)
    requires Matches(p, s) && Shape(s) && Ready(p, s, id, junk, r, to, t) && |p.params[to]| == IPC_NUM_PARAMS
    requires var now := Fill(s.clientLocals, r.params);
             q == p.(toClient := p.toClient - {id}, list := Rest(p.list, CmdIds(p.list), RequestOf(r.cmd)),
                     current := p.nodes[to], clientLocals := now,
                     params := p.params[to := Merge(p.nodes[to].paramTypes, p.params[to], now)])
    ensures Matches(q, t)
  {
    var now := Fill(s.clientLocals, r.params);
    assert CallMatches(p, to, s.calls[to]);
    SameSearch(p, s, RequestOf(r.cmd));
    RestMatches(p.nodes, p.list, s.pending, CmdIds(p.list), RequestOf(r.cmd));
    OneCallChanged(p, q, s.calls, to, Completed(s.calls[to], now));
  }

  /** No call has a buffer. */
  ghost predicate Plain(s: State) {
    forall id | 0 <= id < |s.calls| :: NoMemrefs(s.calls[id].types)
  }

  lemma StepKeepsPlain(s: State, step: Step)
    requires Plain(s) && Shape(s) && Possible(s, step) && Next(s, step).Some?
    ensures Plain(Next(s, step).value)
  {
    if step.Issue? {
      CallbackKeepsNoMemrefs(step.types);
    } else {
      SameTypes(s, step);
    }
  }

  lemma SameTypes(s: State, step: Step)
    requires Shape(s) && Possible(s, step) && Next(s, step).Some? && !step.Issue?
    ensures var t := Next(s, step).value;
            |t.calls| == |s.calls| && forall id | 0 <= id < |t.calls| :: t.calls[id].types == s.calls[id].types
  {
    RequestsStep(s, step);
    var t := Next(s, step).value;
    assert Requests(t.calls) == Requests(s.calls);
    assert |t.calls| == |Requests(t.calls)| == |s.calls|;
    forall id | 0 <= id < |t.calls|
      ensures t.calls[id].types == s.calls[id].types
    {
      assert Requests(t.calls)[id].types == Requests(s.calls)[id].types;
    }
  }

  /** A response that the client can act on is one. */
  lemma ResponseIsReady(p: Picture, s: State, id: nat, junk: seq<byte>, t: State) returns (r: Received, to: nat)
    requires Matches(p, s) && Plain(s) && Shape(s) && id in s.toClient && Delivering(s, id, junk) == Some(t)
    ensures Ready(p, s, id, junk, r, to, t)
  {
    r := Read(s.toClient[id] + junk).value;
    to := EndsOn(s, RequestOf(r.cmd)).value;
    SameSearch(p, s, RequestOf(r.cmd));
    assert CallMatches(p, to, s.calls[to]);
  }

  lemma WaitMatches(p: Picture, s: State, id: nat)
    requires Matches(p, s) && Shape(s) && id < |s.calls| && s.calls[id].stage == Listed
    ensures Matches(p, Blocking(s, id))
  {
    assert CallMatches(p, id, s.calls[id]);
    OneCallChanged(p, p, s.calls, id, Blocking(s, id).calls[id]);
  }

  /** Every array is used for one thing. */
  ghost predicate SeparateArrays(frames: seq<Frame>, nodes: map<nat, CallbackNode>, a: array<Param>, b: array<Param>) {
    && a != b && a.Length == b.Length == IPC_NUM_PARAMS
    && (forall i | 0 <= i < |frames| ::
          frames[i].args.Length == IPC_NUM_PARAMS && frames[i].args != a && frames[i].args != b)
    && (forall i, j | 0 <= i < j < |frames| :: frames[i].args != frames[j].args)
    && (forall id | id in nodes ::
          nodes[id].params.Length == IPC_NUM_PARAMS && nodes[id].params != a && nodes[id].params != b)
    && (forall i, j | i in nodes && j in nodes && i != j :: nodes[i].params != nodes[j].params)
    && (forall i, id | 0 <= i < |frames| && id in nodes :: frames[i].args != nodes[id].params)
  }

  lemma FrameAdded(frames: seq<Frame>, nodes: map<nat, CallbackNode>, a: array<Param>, b: array<Param>, f: Frame)
    requires SeparateArrays(frames, nodes, a, b) && f.args.Length == IPC_NUM_PARAMS && f.args != a && f.args != b
    requires forall i | 0 <= i < |frames| :: frames[i].args != f.args
    requires forall id | id in nodes :: nodes[id].params != f.args
    ensures SeparateArrays(frames + [f], nodes, a, b)
  {
  }

  lemma NodeAdded(frames: seq<Frame>, nodes: map<nat, CallbackNode>, a: array<Param>, b: array<Param>, id: nat,
                  n: CallbackNode)
    requires SeparateArrays(frames, nodes, a, b) && n.params.Length == IPC_NUM_PARAMS && n.params != a && n.params != b
    requires forall i | 0 <= i < |frames| :: frames[i].args != n.params
    requires forall other | other in nodes :: nodes[other].params != n.params
    ensures SeparateArrays(frames, nodes[id := n], a, b)
  {
  }

  /** What the callers' arrays hold. */
  ghost function Contents(frames: seq<Frame>): (r: seq<seq<Param>>)
    reads set f | f in frames :: f.args
    ensures |r| == |frames| && forall i | 0 <= i < |r| :: r[i] == frames[i].args[..]
  {
    if frames == [] then [] else Contents(frames[..|frames| - 1]) + [frames[|frames| - 1].args[..]]
  }

  class System {
    const client: Client
    const server: Server
    var frames: seq<Frame>
    var nodes: map<nat, CallbackNode>
    var toServer: map<nat, seq<byte>>
    var toClient: map<nat, seq<byte>>

    constructor ()
      ensures Separate() && client.Valid() && fresh(client) && fresh(server)
      ensures fresh(client.locals) && fresh(server.locals)
      ensures var p := Now();
              && p.frames == [] && p.args == [] && p.nodes == map[] && p.params == map[] && p.list == []
              && p.current == null
              && p.toServer == p.toClient == map[] && p.asyncCalls == p.registrations == []
              && Values(p.serverLocals) && |p.clientLocals| == IPC_NUM_PARAMS
    {
      client := new Client();
      server := new Server();
      frames, nodes, toServer, toClient := [], map[], map[], map[];
    }

    ghost predicate Separate()
      reads this`frames, this`nodes
    {
      SeparateArrays(frames, nodes, client.locals, server.locals)
    }

    /** All arrays of calls. */
    ghost function Arrays(): set<array<Param>>
      reads this`frames, this`nodes
    {
      (set f | f in frames :: f.args) + (set id | id in nodes :: nodes[id].params)
    }

    ghost function Args(): seq<seq<Param>>
      reads this`frames, set f | f in frames :: f.args
    {
      Contents(frames)
    }

    ghost function Params(): map<nat, seq<Param>>
      reads this`nodes, set id | id in nodes :: nodes[id].params
    {
      map id | id in nodes :: nodes[id].params[..]
    }

    ghost function Now(): Picture
      reads this, client`pending, client`current, client.locals, server, server.locals
      reads set f | f in frames :: f.args
      reads set id | id in nodes :: nodes[id].params
    {
      Picture(frames, Args(), nodes, Params(), client.pending, client.current, toServer, toClient, server.parked,
              server.registered, server.locals[..], client.locals[..])
    }

    twostate lemma ArgsKept()
      requires frames == old(frames) && forall i | 0 <= i < |frames| :: unchanged(frames[i].args)
      ensures Args() == old(Args())
    {
    }

    twostate lemma ParamsKept()
      requires nodes == old(nodes) && forall id | id in nodes :: unchanged(nodes[id].params)
      ensures Params() == old(Params())
    {
    }

    twostate lemma ParamsChanged(id: nat)
      requires nodes == old(nodes) && id in nodes
      requires forall other | other in nodes && other != id :: unchanged(nodes[other].params)
      ensures Params() == old(Params())[id := nodes[id].params[..]]
    {
      var was, now := old(Params()), Params();
      assert now.Keys == was.Keys;
      assert forall other | other in now && other != id :: now[other] == was[other];
    }

    twostate lemma ParamsGrow(id: nat, new n: CallbackNode)
      requires nodes == old(nodes)[id := n] && id !in old(nodes)
      requires forall other | other in old(nodes) :: unchanged(old(nodes)[other].params)
      ensures Params() == old(Params())[id := n.params[..]]
    {
      var was, now := old(Params()), Params();
      assert now.Keys == was.Keys + {id};
      assert forall other | other in was :: now[other] == was[other];
    }

    twostate lemma ArgsGrow(f: Frame)
      requires frames == old(frames) + [f] && forall i | 0 <= i < |old(frames)| :: unchanged(old(frames)[i].args)
      ensures Args() == old(Args()) + [f.args[..]]
    {
    }

    /** A new call sends its message. */
    method Send(cmd: uint32, types: uint32, callback: bool, params: seq<Param>)
      requires Separate() && Values(params) && NoMemrefs(types)
      modifies this`frames, this`toServer
      ensures Separate() && fresh(Arrays() - old(Arrays()))
      ensures var wire, p := if callback then WithCallback(types) else types, old(Now());
              && AllSendable(Signature(wire), params) && |frames| == |p.frames| + 1
              && var f := frames[|p.frames|];
                 && f.cmd == cmd && f.wire == wire && f.callback == callback
                 && Now() == p.(frames := p.frames + [f], args := p.args + [params],
                                toServer := p.toServer[|p.frames| := Message(cmd, wire, params)])
    {
      MessageIsShort(cmd, types, params);
      var wire, args, message := Prepare(cmd, types, callback, params);
      ArgsKept();
      ParamsKept();
      Attach(Frame(cmd, wire, callback, args), message);
    }

    /** The caller's array, and the message about it. */
    method Prepare(cmd: uint32, types: uint32, callback: bool, params: seq<Param>)
      returns (wire: uint32, args: array<Param>, message: seq<byte>)
      requires |params| == IPC_NUM_PARAMS && AllSendable(Signature(types), params)
      requires |Message(cmd, types, params)| < 0x8000_0000
      ensures fresh(args) && args.Length == IPC_NUM_PARAMS && args[..] == params
      ensures wire == (if callback then WithCallback(types) else types) && AllSendable(Signature(wire), params)
      ensures message == Message(cmd, wire, params)
    {
      args := new Param[IPC_NUM_PARAMS](i requires 0 <= i < |params| => params[i]);
      assert args[..] == params;
      var buff;
      wire, buff := client.Send(cmd, callback, args, types);
      message := buff[..];
    }

    method Attach(f: Frame, message: seq<byte>)
      requires Separate() && f.args !in Arrays() && f.args != client.locals && f.args != server.locals
      requires f.args.Length == IPC_NUM_PARAMS
      modifies this`frames, this`toServer
      ensures Separate() && Arrays() == old(Arrays()) + {f.args}
      ensures var p := old(Now());
              Now() == p.(frames := p.frames + [f], args := p.args + [f.args[..]],
                          toServer := p.toServer[|p.frames| := message])
    {
      toServer := toServer[|frames| := message];
      frames := frames + [f];
      ArgsGrow(f);
      NewFrame(old(frames), f);
      FrameAdded(old(frames), nodes, client.locals, server.locals, f);
      ParamsKept();
    }

    lemma NewFrame(was: seq<Frame>, f: Frame)
      ensures (set g | g in was + [f] :: g.args) == (set g | g in was :: g.args) + {f.args}
    {
    }

    /** A call that has sent its message registers its node. */
    method Register(id: nat)
      requires Separate() && client.Valid() && id < |frames| && id !in nodes
      modifies this`nodes, client`pending
      ensures Separate() && client.Valid() && id in nodes && fresh(Arrays() - old(Arrays()))
      ensures var p, n := old(Now()), nodes[id];
              && n.cmdId == p.frames[id].cmd && n.paramTypes == p.frames[id].wire
              && n.hasCallback == p.frames[id].callback
              && Now() == p.(nodes := p.nodes[id := n], params := p.params[id := p.args[id]], list := p.list + [n])
    {
      var f := frames[id];
      var node := client.Register(f.cmd, f.callback, f.args, f.wire);
      nodes := nodes[id := node];
      assert Arrays() - old(Arrays()) <= {node.params};
      ArgsKept();
      ParamsGrow(id, node);
      NodeAdded(frames, old(nodes), client.locals, server.locals, id, node);
    }

    /** The server handles a message. */
    method Serve(id: nat, junk: seq<byte>, ghost r: (Reaction, seq<Param>))
      requires Separate() && id in toServer && React(toServer[id] + junk, server.locals[..]) == Some(r)
      modifies this`toServer, this`toClient, server, server.locals
      ensures var p := old(Now());
              Now() == p.(toServer := p.toServer - {id}, serverLocals := r.1,
                          toClient := if r.0.Reply? then p.toClient[id := r.0.message] else p.toClient,
                          asyncCalls := p.asyncCalls + (if r.0.Parked? then [r.0] else []),
                          registrations := p.registrations + (if r.0.Registered? then [r.0] else []))
    {
      var reply := server.Receive(toServer[id] + junk);
      toServer := toServer - {id};
      if reply != null {
        toClient := toClient[id := reply[..]];
      }
      ArgsKept();
      ParamsKept();
    }

    /** The client handles a response; its search ends at the node of call `to`. */
    method Deliver(id: nat, junk: seq<byte>, ghost request: uint32, ghost got: seq<Option<Param>>, ghost to: nat)
      requires Separate() && client.Valid() && id in toClient && Read(toClient[id] + junk).Some?
      requires var r := Read(toClient[id] + junk).value;
               request == RequestOf(r.cmd) && IsRespond(r.cmd) && got == r.params
      requires to in nodes && Chosen(client.pending, client.current, request) == nodes[to]
      requires NoMemrefs(nodes[to].paramTypes)
      requires nodes[to].hasCallback ==> Lookup(CmdIds(client.pending), request) < |client.pending|
      modifies this`toClient, client, client.locals, nodes[to].params
      ensures client.Valid()
      ensures var p := old(Now()); var now := Fill(p.clientLocals, got);
              && |p.params[to]| == IPC_NUM_PARAMS
              && Now() == p.(toClient := p.toClient - {id}, list := Rest(p.list, CmdIds(p.list), request),
                             current := p.nodes[to],
                             params := p.params[to := Merge(p.nodes[to].paramTypes, p.params[to], now)],
                             clientLocals := now)
    {
      var node := client.Receive(toClient[id] + junk);
      toClient := toClient - {id};
      ArgsKept();
      ParamsChanged(to);
    }

    /** A call whose node has been completed copies its outputs to its caller. */
    method Return(id: nat)
      requires Separate() && id < |frames| && id in nodes && NoMemrefs(frames[id].wire)
      modifies frames[id].args
      ensures var p := old(Now());
              && |p.args[id]| == |p.params[id]| == IPC_NUM_PARAMS
              && Now() == p.(args := p.args[id := Merge(p.frames[id].wire, p.args[id], p.params[id])])
    {
      CopyOutputs(frames[id].wire, frames[id].args, nodes[id].params);
      assert Args() == old(Args())[id := frames[id].args[..]];
      ParamsKept();
    }

    /** The system is in this state of the protocol. */
    ghost predicate Carries(s: State)
      reads this, client, client.locals, server, server.locals
      reads set f | f in frames :: f.args
      reads set id | id in nodes :: nodes[id].params
    {
      Separate() && client.Valid() && Matches(Now(), s)
    }

    // The steps of the protocol, taken by the code.

    method TakeIssue(step: Step, ghost s: State)
      requires Carries(s) && Shape(s) && step.Issue? && Possible(s, step)
      modifies this`frames, this`toServer
      ensures Carries(Sending(s, step))
      ensures fresh(Arrays() - old(Arrays()))
    {
      ghost var p := Now();
      Send(step.cmd, step.types, step.callback, step.params);
      SendMatches(p, frames[|p.frames|], s.calls, Sending(s, step).calls[|s.calls|], Now());
    }

    method TakeRegister(id: nat, ghost s: State)
      requires Carries(s) && Shape(s) && Possible(s, Step.Register(id))
      modifies this`nodes, client`pending
      ensures Carries(Registering(s, id))
      ensures fresh(Arrays() - old(Arrays()))
    {
      ghost var p := Now();
      NotYetThere(p, s, id);
      Register(id);
      RegisterMatches(p, s, id, nodes[id]);
    }

    method TakeServe(id: nat, junk: seq<byte>, ghost s: State)
      requires Carries(s) && Shape(s) && Possible(s, Step.Serve(id, junk)) && Serving(s, id, junk).Some?
      modifies this`toServer, this`toClient, server, server.locals
      ensures Matches(Now(), Serving(s, id, junk).value)
    {
      Serve(id, junk, React(toServer[id] + junk, server.locals[..]).value);
    }

    method TakeReturn(id: nat, ghost s: State)
      requires Carries(s) && Shape(s) && Possible(s, Step.Return(id)) && id < |frames| && NoMemrefs(s.calls[id].types)
      modifies frames[id].args
      ensures Carries(Returning(s, id))
    {
      ghost var p := Now();
      assert CallMatches(p, id, s.calls[id]);
      Return(id);
      OneCallChanged(p, Now(), s.calls, id, Returning(s, id).calls[id]);
    }

    /** A response, whatever node its search ends on. */
    method TakeDeliver(id: nat, junk: seq<byte>, ghost s: State, ghost r: Received, ghost to: nat, ghost t: State,
                       ghost p: Picture)
      requires Separate() && client.Valid() && p == Now() && Shape(s) && to in nodes
      requires Matches(p, s) && Ready(p, s, id, junk, r, to, t)
      modifies this`toClient, client, client.locals, nodes[to].params
      ensures Separate() && client.Valid() && Matches(Now(), t)
    {
      Deliver(id, junk, RequestOf(r.cmd), r.params, to);
      DeliverMatches(p, s, id, junk, r, to, t, Now());
    }

    /** A step on the way to the server and in it. */
    method TakeForth(step: Step, ghost s: State, ghost t: State)
      requires Carries(s) && Shape(s) && Possible(s, step) && Next(s, step) == Some(t)
      requires step.Issue? || step.Register? || step.Wait? || step.Serve?
      modifies this, client, client.locals, server, server.locals, Arrays()
      ensures Carries(t) && fresh(Arrays() - old(Arrays()))
    {
      match step {
        case Issue(_, _, _, _, _) => TakeIssue(step, s);
        case Register(id) => TakeRegister(id, s);
        case Wait(id) => WaitMatches(Now(), s, id);
        case Serve(id, junk) => TakeServe(id, junk, s);
      }
    }

    method TakeResponse(id: nat, junk: seq<byte>, ghost s: State, ghost t: State)
      requires Carries(s) && Plain(s) && Shape(s) && id in s.toClient && Delivering(s, id, junk) == Some(t)
      modifies this`toClient, client, client.locals, Arrays()
      ensures Carries(t)
    {
      ghost var p := Now();
      ghost var r, to := ResponseIsReady(p, s, id, junk, t);
      assert p.nodes == nodes;
      TakeDeliver(id, junk, s, r, to, t, p);
    }

    /** A step on the way back to the caller. */
    method TakeBack(step: Step, ghost s: State, ghost t: State)
      requires Carries(s) && Plain(s) && Shape(s) && Possible(s, step) && Next(s, step) == Some(t)
      requires step.Deliver? || step.Return?
      modifies this`toClient, client, client.locals, Arrays()
      ensures Carries(t)
    {
      if step.Deliver? {
        TakeResponse(step.id, step.junk, s, t);
      } else {
        TakeReturn(step.id, s);
      }
    }

    method TakeStep(step: Step, ghost s: State, ghost t: State)
      requires Carries(s) && Plain(s) && Shape(s) && Possible(s, step) && Next(s, step) == Some(t)
      modifies this, client, client.locals, server, server.locals, Arrays()
      ensures Carries(t) && fresh(Arrays() - old(Arrays()))
    {
      if step.Deliver? || step.Return? {
        TakeBack(step, s, t);
      } else {
        TakeForth(step, s, t);
      }
    }

    /** Any run of the protocol is one that the code takes, and ends in the same state. */
    method Execute(steps: seq<Step>, ghost s: State)
      requires Carries(s) && Plain(s) && Run(s, steps).Some?
      modifies this, client, client.locals, server, server.locals, Arrays()
      ensures Carries(Run(s, steps).value)
      decreases |steps|
    {
      if steps != [] {
        ghost var t := Next(s, steps[0]).value;
        StepKeepsPlain(s, steps[0]);
        TakeStep(steps[0], s, t);
        Execute(steps[1..], t);
      }
    }
  }

  /** From the start: a run that is possible whatever the receiving threads' arrays hold at first. */
  method RunSystem(steps: seq<Step>) returns (system: System, ghost s: State, ghost t: State)
    requires forall first: State | Start(first) :: Run(first, steps).Some?
    ensures Start(s) && Run(s, steps) == Some(t) && fresh(system) && system.Carries(t)
  {
    system := new System();
    s := State([], [], None, map[], map[], map[], [], [], system.server.locals[..], system.client.locals[..]);
    assert Start(s);
    t := Run(s, steps).value;
    system.Execute(steps, s);
  }

  /** Every legal run is such a run. */
  lemma LegalRunsArePossible(steps: seq<Step>)
    requires forall first: State | Start(first) :: LegalRun(first, steps)
    ensures forall first: State | Start(first) :: Run(first, steps).Some?
  {
    forall first: State | Start(first)
      ensures Run(first, steps).Some?
    {
      StartIsOk(first);
      PendingIsUnanswered(first, steps);
    }
  }
}
