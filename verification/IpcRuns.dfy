/**
  Runs of the protocol step by step: what a call returns in numbers, and what the server keeps over a run.
 */
module IpcRuns {
  import opened Bits
  import opened IpcCodec
  import opened IpcCalls
  import opened IpcProtocol
  import opened IpcWire

  /** A run with a legal beginning. */
  ghost predicate Ran(s: State, steps: seq<Step>, t: State) {
    LegalRun(s, steps) && Run(s, steps) == Some(t)
  }

  lemma {:induction false} RunSnoc(s: State, steps: seq<Step>, t: State, step: Step)
    requires Run(s, steps) == Some(t) && Shape(t) && Possible(t, step) && Next(t, step).Some?
    ensures Run(s, steps + [step]) == Next(t, step)
    ensures LegalRun(s, steps) && Legal(t, step) ==> LegalRun(s, steps + [step])
    decreases |steps|
  {
    if steps == [] {
      assert [step][1..] == [] && steps + [step] == [step];
    } else {
      assert (steps + [step])[1..] == steps[1..] + [step];
      RunSnoc(Next(s, steps[0]).value, steps[1..], t, step);
    }
  }

  lemma Enlisting(s: State, steps: seq<Step>, m: State, id: nat) returns (t: State)
    requires Ran(s, steps, m) && Inv(m) && id < |m.calls| && m.calls[id].stage == Sent
    ensures Ran(s, steps + [Register(id)], t) && Inv(t) && t.toServer == m.toServer
    ensures t.calls == m.calls[id := m.calls[id].(node := m.calls[id].caller, stage := Listed)]
    ensures t.pending == m.pending + [id]
  {
    StepKeepsInv(m, Register(id));
    RunSnoc(s, steps, m, Register(id));
    t := Registering(m, id);
  }

  lemma StartingToWait(s: State, steps: seq<Step>, m: State, id: nat) returns (t: State)
    requires Ran(s, steps, m) && Inv(m) && id < |m.calls| && m.calls[id].stage == Listed && !m.calls[id].callback
    ensures Ran(s, steps + [Wait(id)], t) && Inv(t) && t.toServer == m.toServer
    ensures t.calls == m.calls[id := m.calls[id].(stage := Waiting)] && t.pending == m.pending
  {
    StepKeepsInv(m, Wait(id));
    RunSnoc(s, steps, m, Wait(id));
    t := Blocking(m, id);
  }

  lemma Answering(s: State, steps: seq<Step>, m: State, id: nat) returns (t: State)
    requires Ran(s, steps, m) && Inv(m) && id < |m.calls| && id in m.toServer && Outstanding(m.calls[id])
    ensures Ran(s, steps + [Serve(id, [])], t) && Inv(t)
    ensures t.calls == m.calls && t.pending == m.pending && t.current == m.current
    ensures !IsAsync(t.calls[id].types) ==> id in t.toClient
  {
    var step := Serve(id, []);
    StepKeepsInv(m, step);
    RunSnoc(s, steps, m, step);
    t := Next(m, step).value;
    ServedIs(m, id, t);
  }

  lemma ServedIs(s: State, id: nat, t: State)
    requires Inv(t) && Shape(s) && id < |s.calls| && id in s.toServer && Serving(s, id, []) == Some(t)
    requires Outstanding(s.calls[id])
    ensures t.calls == s.calls && t.pending == s.pending && t.current == s.current
    ensures !IsAsync(t.calls[id].types) ==> id in t.toClient
  {
    var r := React(s.toServer[id] + [], s.serverLocals).value;
    ReactingLeaves(s, id, r.0, r.1);
    if !IsAsync(t.calls[id].types) {
      StillInTransit(t, id);
    }
  }

  lemma StillInTransit(s: State, id: nat)
    requires Inv(s) && id < |s.calls| && id !in s.toServer && Outstanding(s.calls[id]) && !IsAsync(s.calls[id].types)
    ensures id in s.toClient
  {
    assert CallOk(s, id, s.calls[id]);
  }

  /** The reply to a call that waits, alone in the list. */
  lemma Delivered(s: State, steps: seq<Step>, m: State, id: nat) returns (t: State)
    requires Ran(s, steps, m) && Inv(m) && id < |m.calls| && id in m.toClient && m.calls[id].stage == Waiting
    requires m.pending == [id]
    ensures Ran(s, steps + [Deliver(id, [])], t) && Inv(t)
    ensures |t.calls| == |m.calls| && t.pending == [] && t.current == Some(id)
    ensures t.calls[id] == m.calls[id].(node := t.calls[id].node, stage := Signalled)
  {
    assert m.pending[0] == id;
    StepKeepsInv(m, Deliver(id, []));
    RunSnoc(s, steps, m, Deliver(id, []));
    var k, now := ResponseCompletesItsCall(m, id, []);
    t := Completing(m, id, k, now);
  }

  /** A call of any signature without buffers goes through its six steps. What it returns is the server's value in the
      second parameter, if that is of type 2 or 3, and the caller's own everywhere else. */
  lemma CallReturns(s: State, cmd: uint32, types: uint32, params: seq<Param>, heap: seq<Param>) returns (t: State)
    requires Start(s) && Values(params) && |heap| == 6 && cmd % 0x100 == 0
    requires NoMemrefs(types) && types < 0x8000_0000
    ensures var steps := [Issue(cmd, types, false, params, heap)] + [Register(0)] + [Wait(0)] + [Serve(0, [])]
                         + [Deliver(0, [])] + [Return(0)];
            LegalRun(s, steps) && Run(s, steps) == Some(t)
    ensures |t.calls| == 1 && t.calls[0].stage == Returned && |t.calls[0].caller| == 6
    ensures forall i | 0 <= i < 6 ::
              t.calls[0].caller[i] == if i == 1 < Count(types, 0) && 2 <= Nibble(types, 1) <= 3
                                      then Value(80, 90, params[1].rest) else params[i]
  {
    var a := [Issue(cmd, types, false, params, heap)];
    var b, c := a + [Register(0)], a + [Register(0)] + [Wait(0)];
    var m := FirstRequest(s, cmd, types, params, heap);
    m := Enlisting(s, a, m, 0);
    m := StartingToWait(s, b, m, 0);
    m := Answering(s, c, m, 0);
    m := Delivered(s, c + [Serve(0, [])], m, 0);
    StepKeepsInv(m, Return(0));
    RunSnoc(s, c + [Serve(0, [])] + [Deliver(0, [])], m, Return(0));
    t := Returning(m, 0);
    ReturnedIs(t, types, params);
  }

  lemma FirstRequest(s: State, cmd: uint32, types: uint32, params: seq<Param>, heap: seq<Param>) returns (t: State)
    requires Start(s) && Values(params) && |heap| == 6 && cmd % 0x100 == 0 && NoMemrefs(types)
    ensures Ran(s, [Issue(cmd, types, false, params, heap)], t) && Inv(t) && 0 in t.toServer
    ensures t.calls == [Call(cmd, types, false, params, heap, params, Sent)] && t.pending == []
  {
    var step := Issue(cmd, types, false, params, heap);
    StartIsOk(s);
    StepKeepsInv(s, step);
    RunSnoc(s, [], s, step);
    assert [] + [step] == [step];
    t := Next(s, step).value;
  }

  lemma ReturnedIs(t: State, types: uint32, params: seq<Param>)
    requires Inv(t) && |t.calls| == 1 && t.calls[0].stage == Returned
    requires t.calls[0].types == types && t.calls[0].args == params && Values(params)
    ensures |t.calls[0].caller| == 6
    ensures forall i | 0 <= i < 6 ::
              t.calls[0].caller[i] == if i == 1 < Count(types, 0) && 2 <= Nibble(types, 1) <= 3
                                      then Value(80, 90, params[1].rest) else params[i]
  {
    assert CallOk(t, 0, t.calls[0]);
    forall i | 0 <= i < 6
      ensures Expected(t.calls[0])[i] == if i == 1 < Count(types, 0) && 2 <= Nibble(types, 1) <= 3
                                         then Value(80, 90, params[1].rest) else params[i]
    {
      OutputsInNumbers(types, params, Answer(params), i);
      AnswerInNumbers(params, i);
    }
  }

  /** The client's first call: an input (10, 20) and an output (30, 40), which comes back as (80, 90). */
  lemma FirstCall(s: State, params: seq<Param>, heap: seq<Param>) returns (t: State)
    requires Start(s) && Values(params) && |heap| == 6
    requires params[0].a == 10 && params[0].b == 20 && params[1].a == 30 && params[1].b == 40
    ensures var steps := [Issue(0x100, 0x21, false, params, heap)] + [Register(0)] + [Wait(0)] + [Serve(0, [])]
                         + [Deliver(0, [])] + [Return(0)];
            LegalRun(s, steps) && Run(s, steps) == Some(t)
    ensures |t.calls| == 1 && t.calls[0].stage == Returned && |t.calls[0].caller| == 6
    ensures t.calls[0].caller[0] == Value(10, 20, params[0].rest)
    ensures t.calls[0].caller[1] == Value(80, 90, params[1].rest)
  {
    InputAndOutput(0x21);
    t := CallReturns(s, 0x100, 0x21, params, heap);
  }

  lemma InputAndOutput(types: uint32)
    requires Nibble(types, 0) == 1 && Nibble(types, 1) == 2 && Nibble(types, 2) == 0
    ensures Count(types, 0) == 2 && NoMemrefs(types)
  {
    assert Count(types, 2) == 2 && Count(types, 1) == 2;
    SignatureInNumbers(types);
  }

  // The list of asynchronous calls.

  /** The calls whose messages the server has taken, in that order. */
  function Served(steps: seq<Step>): seq<nat> {
    if steps == [] then []
    else (if steps[0].Serve? then [steps[0].id] else []) + Served(steps[1..])
  }

  /** The asynchronous ones among these requests. */
  function Asynchronous(requests: seq<Request>, ids: seq<nat>): seq<Request> {
    if ids == [] then []
    else (if ids[0] < |requests| && IsAsync(requests[ids[0]].types) then [requests[ids[0]]] else [])
         + Asynchronous(requests, ids[1..])
  }

  ghost predicate KeptFor(kept: seq<Reaction>, requests: seq<Request>) {
    |kept| == |requests|
    && forall k | 0 <= k < |kept| ::
         && kept[k].Parked? && kept[k].cmd == requests[k].cmd && kept[k].types == requests[k].types
         && Agree(Signature(requests[k].types), kept[k].params, requests[k].args)
  }

  /** What one step adds to the list. */
  lemma StepParks(s: State, step: Step)
    requires Inv(s) && Legal(s, step)
    ensures Shape(s) && Next(s, step).Some?
    ensures var added, t := Asynchronous(Requests(s.calls), Served([step])), Next(s, step).value;
            && s.asyncCalls <= t.asyncCalls && KeptFor(t.asyncCalls[|s.asyncCalls|..], added)
  {
    StepKeepsInv(s, step);
    assert [step][1..] == [];
    if step.Serve? {
      assert Served([step]) == [step.id] && [step.id][1..] == [];
      ServingParks(s, step.id, step.junk);
    } else {
      assert Served([step]) == [];
      OtherStepsPark(s, step);
    }
  }

  lemma ServingParks(s: State, id: nat, junk: seq<byte>)
    requires Inv(s) && Shape(s) && id in s.toServer
    ensures id < |s.calls| && Serving(s, id, junk).Some?
    ensures var kept, q := Serving(s, id, junk).value.asyncCalls, Requests(s.calls)[id];
            && s.asyncCalls <= kept
            && KeptFor(kept[|s.asyncCalls|..], if IsAsync(q.types) then [q] else [])
  {
    assert CallOk(s, id, s.calls[id]);
    ServerUnderstands(s.calls[id], junk, s.serverLocals);
    var r := React(s.toServer[id] + junk, s.serverLocals).value;
    ReactingParks(s, id, s.calls[id], r.0, r.1);
  }

  lemma ReactingParks(s: State, id: nat, c: Call, r: Reaction, locals: seq<Param>)
    requires Proper(c) && RightReaction(c, r)
    ensures var kept, q := Reacting(s, id, r, locals).asyncCalls, Request(c.cmd, c.types, c.callback, c.args);
            s.asyncCalls <= kept && KeptFor(kept[|s.asyncCalls|..], if IsAsync(q.types) then [q] else [])
  {
  }

  lemma OtherStepsPark(s: State, step: Step)
    requires Shape(s) && Possible(s, step) && Next(s, step).Some? && !step.Serve?
    ensures Next(s, step).value.asyncCalls == s.asyncCalls
  {
  }

  lemma {:induction false} AsynchronousOfMore(requests: seq<Request>, more: seq<Request>, ids: seq<nat>)
    requires requests <= more && forall i | 0 <= i < |ids| :: ids[i] < |requests|
    ensures Asynchronous(more, ids) == Asynchronous(requests, ids)
  {
    if ids != [] {
      AsynchronousOfMore(requests, more, ids[1..]);
    }
  }

  lemma {:induction false} AsynchronousOfBoth(requests: seq<Request>, a: seq<nat>, b: seq<nat>)
    ensures Asynchronous(requests, a + b) == Asynchronous(requests, a) + Asynchronous(requests, b)
  {
    if a == [] {
      assert a + b == b;
    } else {
      assert (a + b)[1..] == a[1..] + b;
      AsynchronousOfBoth(requests, a[1..], b);
    }
  }

  lemma KeptTogether(was: seq<Reaction>, mid: seq<Reaction>, now: seq<Reaction>, a: seq<Request>, b: seq<Request>)
    requires was <= mid <= now && KeptFor(mid[|was|..], a) && KeptFor(now[|mid|..], b)
    ensures was <= now && KeptFor(now[|was|..], a + b)
  {
    var c := now[|was|..];
    forall k | 0 <= k < |c|
      ensures c[k] == if k < |a| then mid[|was|..][k] else now[|mid|..][k - |a|]
    {
    }
  }

  lemma ServedFirst(steps: seq<Step>)
    requires steps != []
    ensures Served(steps) == Served([steps[0]]) + Served(steps[1..])
  {
    assert [steps[0]][1..] == [];
  }

  lemma ServedCallsExist(s: State, step: Step)
    requires Inv(s) && Legal(s, step)
    ensures forall i | 0 <= i < |Served([step])| :: Served([step])[i] < |Requests(s.calls)|
  {
    assert [step][1..] == [];
  }

  lemma {:induction false} AsynchronousCallsFrom(s: State, steps: seq<Step>)
    requires Inv(s) && LegalRun(s, steps)
    ensures Run(s, steps).Some?
    ensures var t := Run(s, steps).value;
            && s.asyncCalls <= t.asyncCalls
            && KeptFor(t.asyncCalls[|s.asyncCalls|..], Asynchronous(Requests(t.calls), Served(steps)))
    decreases |steps|
  {
    PendingIsUnanswered(s, steps);
    if steps != [] {
      StepKeepsInv(s, steps[0]);
      StepParks(s, steps[0]);
      var u, t := Next(s, steps[0]).value, Run(s, steps).value;
      AsynchronousCallsFrom(u, steps[1..]);
      RequestsAreAsked(s, steps);
      ServedCallsExist(s, steps[0]);
      var all, first := Requests(t.calls), Served([steps[0]]);
      AsynchronousOfMore(Requests(s.calls), all, first);
      ServedFirst(steps);
      AsynchronousOfBoth(all, first, Served(steps[1..]));
      KeptTogether(s.asyncCalls, u.asyncCalls, t.asyncCalls, Asynchronous(all, first),
                   Asynchronous(all, Served(steps[1..])));
    }
  }

  /** Over every legal run, the server's list holds the asynchronous calls it has taken, in the order in which it took
      them, with their commands, types and values. */
  lemma AsynchronousCallsInOrder(s: State, steps: seq<Step>)
    requires Start(s) && LegalRun(s, steps)
    ensures Run(s, steps).Some?
    ensures KeptFor(Run(s, steps).value.asyncCalls, Asynchronous(Asked(steps), Served(steps)))
  {
    StartIsOk(s);
    AsynchronousCallsFrom(s, steps);
    RequestsAreAsked(s, steps);
    AllOfThem(s, Run(s, steps).value, Asked(steps), Served(steps));
  }

  lemma AllOfThem(s: State, t: State, asked: seq<Request>, served: seq<nat>)
    requires Start(s) && Requests(t.calls) == Requests(s.calls) + asked && s.asyncCalls <= t.asyncCalls
    requires KeptFor(t.asyncCalls[|s.asyncCalls|..], Asynchronous(Requests(t.calls), served))
    ensures KeptFor(t.asyncCalls, Asynchronous(asked, served))
  {
    assert Requests(s.calls) == [];
    assert [] + asked == asked;
    assert t.asyncCalls[|s.asyncCalls|..] == t.asyncCalls;
  }
}
