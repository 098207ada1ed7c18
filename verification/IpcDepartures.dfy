/**
  What happens when a response does not find its call: it is received before the call has registered its node, or
  before its thread waits, or another call in the list has the same id. Each comes with a run of the code.
 */
module IpcDepartures {
  import opened Bits
  import opened IpcCodec
  import opened IpcCalls
  import opened IpcProtocol
  import opened IpcRuns

  /** A synchronous call that is to be signalled, but is not in the list. */
  ghost predicate Forgotten(s: State, id: nat) {
    id < |s.calls| && Enlisted(s.calls[id]) && !s.calls[id].callback && id !in s.pending
  }

  /** A reply between the registration of its call and its wait completes the node, but signals nobody. */
  lemma SignalIsMissed(s: State, id: nat, junk: seq<byte>)
    requires Inv(s) && Shape(s) && id in s.toClient && s.calls[id].stage == Listed
    requires Foremost(s.calls, s.pending, id)
    ensures var d := Delivering(s, id, junk);
            d.Some? && TakenOut(s, d.value, id) && Forgotten(d.value, id) && Settled(d.value, id)
  {
    assert CallOk(s, id, s.calls[id]);
    ReplyIsTaken(s, id, junk);
    SynchronousReply(s, id, junk);
  }

  lemma SynchronousReply(s: State, id: nat, junk: seq<byte>)
    requires Inv(s) && Shape(s) && id in s.toClient
    ensures !s.calls[id].callback
  {
    assert CallOk(s, id, s.calls[id]);
  }

  /** A foreign response wakes such a call if it finds the list empty and callback_node still at that call's node,
      and the call waits by then. */
  ghost predicate Wakes(s: State, step: Step, id: nat) {
    step.Deliver? && s.pending == [] && s.current == Some(id) && id < |s.calls| && s.calls[id].stage == Waiting
  }

  lemma StepForgotten(s: State, step: Step, id: nat)
    requires Shape(s) && Possible(s, step) && Next(s, step).Some? && Forgotten(s, id)
    ensures Forgotten(Next(s, step).value, id) <==> !Wakes(s, step, id)
    ensures Wakes(s, step, id) ==> Awake(Next(s, step).value, id)
  {
    if step.Deliver? {
      var r := Read(s.toClient[step.id] + step.junk).value;
      RespondingForgotten(s, step.id, RequestOf(r.cmd), Fill(s.clientLocals, r.params), id);
    } else {
      OtherStepsLeave(s, step, id);
    }
  }

  lemma RespondingForgotten(s: State, id: nat, request: uint32, now: seq<Param>, other: nat)
    requires Shape(s) && |now| == IPC_NUM_PARAMS && Responding(s, id, request, now).Some? && Forgotten(s, other)
    ensures var t := Responding(s, id, request, now).value;
            if s.pending == [] && s.current == Some(other) && s.calls[other].stage == Waiting then Awake(t, other)
            else Forgotten(t, other)
  {
    assert forall i | 0 <= i < |s.pending| :: s.pending[i] in s.pending;
    RestHasNoOther(s.pending, PendingIds(s.calls, s.pending), request, other);
  }

  lemma RestHasNoOther(pending: seq<nat>, ids: seq<uint32>, request: uint32, other: nat)
    requires |ids| == |pending| && other !in pending
    ensures other !in Rest(pending, ids, request)
  {
    var k := Lookup(ids, request);
    if k < |pending| {
      assert other !in pending[..k] && other !in pending[k + 1..];
    }
  }

  lemma OtherStepsLeave(s: State, step: Step, id: nat)
    requires Shape(s) && Possible(s, step) && Next(s, step).Some? && !step.Deliver? && Forgotten(s, id)
    ensures Forgotten(Next(s, step).value, id)
  {
  }

  lemma StepAwake(s: State, step: Step, id: nat)
    requires Shape(s) && Possible(s, step) && Next(s, step).Some? && Awake(s, id)
    ensures Awake(Next(s, step).value, id)
  {
    if step.Deliver? {
      var r := Read(s.toClient[step.id] + step.junk).value;
      RespondingAwake(s, step.id, RequestOf(r.cmd), Fill(s.clientLocals, r.params), id);
    }
  }

  lemma RespondingAwake(s: State, id: nat, request: uint32, now: seq<Param>, other: nat)
    requires Shape(s) && |now| == IPC_NUM_PARAMS && Responding(s, id, request, now).Some? && Awake(s, other)
    ensures Awake(Responding(s, id, request, now).value, other)
  {
  }

  lemma {:induction false} AwakeForGood(s: State, id: nat, steps: seq<Step>)
    requires Awake(s, id) && Run(s, steps).Some?
    ensures Awake(Run(s, steps).value, id)
    decreases |steps|
  {
    if steps != [] {
      StepAwake(s, steps[0], id);
      AwakeForGood(Next(s, steps[0]).value, id, steps[1..]);
    }
  }

  /** No response of the run wakes the call. */
  ghost predicate Unwoken(s: State, id: nat, steps: seq<Step>)
    requires Run(s, steps).Some?
    decreases |steps|
  {
    steps == [] || (!Wakes(s, steps[0], id) && Unwoken(Next(s, steps[0]).value, id, steps[1..]))
  }

  /** Otherwise nobody ever does: in every run of the code the call is forgotten to the end (but for its time-out) if
      and only if no response of the run wakes it so. */
  lemma {:induction false} ForgottenUnlessWoken(s: State, id: nat, steps: seq<Step>)
    requires Forgotten(s, id) && Run(s, steps).Some?
    ensures Forgotten(Run(s, steps).value, id) <==> Unwoken(s, id, steps)
    decreases |steps|
  {
    if steps != [] {
      StepForgotten(s, steps[0], id);
      if Wakes(s, steps[0], id) {
        AwakeForGood(Next(s, steps[0]).value, id, steps[1..]);
      } else {
        ForgottenUnlessWoken(Next(s, steps[0]).value, id, steps[1..]);
      }
    }
  }

  /** And none does once a search has ended on another node. */
  lemma {:induction false} PassedByForEver(s: State, id: nat, steps: seq<Step>)
    requires Forgotten(s, id) && s.current != Some(id) && Run(s, steps).Some?
    ensures Unwoken(s, id, steps) && Forgotten(Run(s, steps).value, id)
    decreases |steps|
  {
    if steps != [] {
      StepForgotten(s, steps[0], id);
      StaysPassedBy(s, steps[0], id);
      PassedByForEver(Next(s, steps[0]).value, id, steps[1..]);
    }
  }

  lemma StaysPassedBy(s: State, step: Step, id: nat)
    requires Shape(s) && Possible(s, step) && Next(s, step).Some? && Forgotten(s, id) && s.current != Some(id)
    ensures Next(s, step).value.current != Some(id)
  {
    if step.Deliver? {
      var r := Read(s.toClient[step.id] + step.junk).value;
      RespondingPassesBy(s, step.id, RequestOf(r.cmd), Fill(s.clientLocals, r.params), id);
    }
  }

  lemma RespondingPassesBy(s: State, id: nat, request: uint32, now: seq<Param>, other: nat)
    requires Shape(s) && |now| == IPC_NUM_PARAMS && Responding(s, id, request, now).Some?
    requires Forgotten(s, other) && s.current != Some(other)
    ensures Responding(s, id, request, now).value.current != Some(other)
  {
    assert forall i | 0 <= i < |s.pending| :: s.pending[i] in s.pending;
  }

  /** The call `to` has got the outputs of the reply to call id, and wakes up if it waits, but the list is as before;
      and of the answered call no message is left. */
  ghost predicate Misplaced(s: State, id: nat, to: nat, t: State) {
    && Shape(s) && Shape(t) && id < |s.calls| && to < |s.calls| && to != id && Proper(s.calls[id])
    && t.pending == s.pending && t.calls == s.calls[to := Completed(s.calls[to], t.clientLocals)]
    && (s.calls[to].stage == Waiting ==> t.calls[to].stage == Signalled) && Settled(t, id)
    && Agree(Signature(s.calls[id].types), t.clientLocals, Answer(s.calls[id].args))
  }

  /** A response that overtakes the registration of its own call ends on the last call in the list, or, if that is
      empty, on the call on which the response before has ended. */
  lemma EarlyResponse(s: State, id: nat, junk: seq<byte>)
    requires Inv(s) && Shape(s) && Unambiguous(s.calls) && id in s.toClient && s.calls[id].stage == Sent
    ensures var to := if s.pending != [] then Some(s.pending[|s.pending| - 1]) else s.current;
            var d := Delivering(s, id, junk);
            if to == None || s.calls[to.value].callback then d == None
            else d.Some? && Misplaced(s, id, to.value, d.value)
  {
    assert CallOk(s, id, s.calls[id]);
    var now := ReplyActs(s, id, junk);
    EndsOnLast(s, id, now);
  }

  lemma EndsOnLast(s: State, id: nat, now: seq<Param>)
    requires Shape(s) && Lists(s.calls, s.pending) && Unambiguous(s.calls) && CurrentOk(s)
    requires id < |s.calls| && s.calls[id].stage == Sent && Proper(s.calls[id])
    requires id !in s.toServer && id !in s.parked && Agree(Signature(s.calls[id].types), now, Answer(s.calls[id].args))
    ensures var to, d := LeftOn(s), Responding(s, id, s.calls[id].cmd, now);
            if to == None || s.calls[to.value].callback then d == None
            else d.Some? && Misplaced(s, id, to.value, d.value)
  {
    NoNodeIsFound(s.calls, s.pending, id);
    RespondingToLeft(s, id, s.calls[id].cmd, now);
    if LeftOn(s).Some? && !s.calls[LeftOn(s).value].callback {
      ActingMisplaces(s, id, LeftOn(s).value, now);
    }
  }

  lemma ActingMisplaces(s: State, id: nat, to: nat, now: seq<Param>)
    requires Shape(s) && to < |s.calls| && s.calls[to].stage != Sent && !s.calls[to].callback && |now| == IPC_NUM_PARAMS
    requires id < |s.calls| && s.calls[id].stage == Sent && Proper(s.calls[id])
    requires id !in s.toServer && id !in s.parked && Agree(Signature(s.calls[id].types), now, Answer(s.calls[id].args))
    ensures Misplaced(s, id, to, Acting(s, id, to, s.pending, now))
  {
  }

  lemma NoNodeIsFound(calls: seq<Call>, pending: seq<nat>, id: nat)
    requires Lists(calls, pending) && Unambiguous(calls) && id < |calls| && calls[id].stage == Sent
    ensures Lookup(PendingIds(calls, pending), calls[id].cmd) == |pending|
    ensures forall k | 0 <= k < |pending| :: Enlisted(calls[pending[k]])
  {
    forall k | 0 <= k < |pending|
      ensures Enlisted(calls[pending[k]]) && calls[pending[k]].cmd != calls[id].cmd
    {
      var other := pending[k];
      assert other in pending;
      assert other < id || id < other;
    }
  }

  // Runs in which these things happen.

  lemma OneInOut()
    ensures Signature(3) == [VALUE_INOUT] && NoMemrefs(3) && !IsAsync(3)
  {
    assert TypeAt(3, 0) == 3 && TypeAt(3, 1) == TypeAt(0, 0) == 0;
    assert TypesFrom(3, 1) == [];
    assert TypesFrom(3, 0) == [3] + TypesFrom(3, 1);
  }

  /** A call with one in-out value. */
  function OneValue(cmd: uint32, callback: bool, p: seq<Param>, stage: Stage): Call {
    Call(cmd, if callback then WithCallback(3) else 3, callback, p, p, p, stage)
  }

  function Asking(cmd: uint32, callback: bool, p: seq<Param>): Step {
    Issue(cmd, 3, callback, p, p)
  }

  lemma Issuing(s: State, steps: seq<Step>, m: State, cmd: uint32, callback: bool, p: seq<Param>) returns (t: State)
    requires Ran(s, steps, m) && Inv(m) && Values(p) && cmd % 256 == 0
    ensures Ran(s, steps + [Asking(cmd, callback, p)], t) && Inv(t) && |m.calls| in t.toServer
    ensures t.calls == m.calls + [OneValue(cmd, callback, p, Sent)] && t.pending == m.pending && t.current == m.current
  {
    OneInOut();
    var step := Asking(cmd, callback, p);
    StepKeepsInv(m, step);
    RunSnoc(s, steps, m, step);
    t := Next(m, step).value;
  }

  /** A call is sent and registers its node. */
  lemma EnlistedCall(s: State, steps: seq<Step>, m: State, cmd: uint32, callback: bool, p: seq<Param>)
    returns (t: State)
    requires Ran(s, steps, m) && Inv(m) && Values(p) && cmd % 256 == 0
    ensures Ran(s, steps + [Asking(cmd, callback, p), Register(|m.calls|)], t) && Inv(t) && |m.calls| in t.toServer
    ensures t.calls == m.calls + [OneValue(cmd, callback, p, Listed)] && t.pending == m.pending + [|m.calls|]
  {
    var id := |m.calls|;
    var u := Issuing(s, steps, m, cmd, callback, p);
    t := Enlisting(s, steps + [Asking(cmd, callback, p)], u, id);
    assert steps + [Asking(cmd, callback, p)] + [Register(id)] == steps + [Asking(cmd, callback, p), Register(id)];
  }

  /** And its thread waits. */
  lemma WaitingCall(s: State, steps: seq<Step>, m: State, cmd: uint32, p: seq<Param>) returns (t: State)
    requires Ran(s, steps, m) && Inv(m) && Values(p) && cmd % 256 == 0
    ensures var id := |m.calls|;
            Ran(s, steps + [Asking(cmd, false, p), Register(id), Wait(id)], t) && Inv(t) && id in t.toServer
    ensures t.calls == m.calls + [OneValue(cmd, false, p, Waiting)] && t.pending == m.pending + [|m.calls|]
  {
    var id, two := |m.calls|, steps + [Asking(cmd, false, p), Register(|m.calls|)];
    var u := EnlistedCall(s, steps, m, cmd, false, p);
    t := StartingToWait(s, two, u, id);
    assert two + [Wait(id)] == steps + [Asking(cmd, false, p), Register(id), Wait(id)];
  }

  /** The reply of the second call goes to the first, which returns with it. */
  lemma Overtaken(t: State, p: seq<Param>, q: seq<Param>) returns (u: State)
    requires Inv(t) && Shape(t) && Values(p) && Values(q) && 1 in t.toClient && t.pending == [0]
    requires t.calls == [OneValue(0x100, false, p, Waiting), OneValue(0x200, false, q, Sent)]
    ensures Delivering(t, 1, []) == Some(u) && Shape(u) && Possible(u, Return(0)) && u.pending == [0]
    ensures |u.calls| == 2 && u.calls[1].stage == Sent && Settled(u, 1)
    ensures |Returning(u, 0).calls[0].caller| == IPC_NUM_PARAMS && Returning(u, 0).calls[0].caller[0] == q[0]
  {
    EarlyResponse(t, 1, []);
    u := Delivering(t, 1, []).value;
    OneInOut();
    assert u.clientLocals[0] == Answer(q)[0] == q[0];
  }

  /** A run in which the response to a second call overtakes its registration: the first call, which waits, returns
      with the value of the second, and of the second no message is left that could answer it. */
  lemma ReplyOvertakesRegistration(s: State, p: seq<Param>, q: seq<Param>) returns (t: State)
    requires Start(s) && Values(p) && Values(q)
    ensures var steps := [Asking(0x100, false, p), Register(0), Wait(0)] + [Asking(0x200, false, q), Serve(1, [])];
            LegalRun(s, steps) && Run(s, steps + [Deliver(1, []), Return(0)]) == Some(t)
    ensures |t.calls| == 2 && t.pending == [0] && t.calls[1].stage == Sent && Settled(t, 1)
    ensures t.calls[0].stage == Returned && |t.calls[0].caller| == IPC_NUM_PARAMS && t.calls[0].caller[0] == q[0]
  {
    StartIsOk(s);
    var one, two := [Asking(0x100, false, p), Register(0), Wait(0)], [Asking(0x200, false, q), Serve(1, [])];
    assert [] + one == one;
    var m := WaitingCall(s, [], s, 0x100, p);
    m := AnsweredCall(s, one, m, 0x200, q);
    var u := Overtaken(m, p, q);
    t := Returning(u, 0);
    TwoMore(s, one + two, m, Deliver(1, []), u, Return(0), t);
  }

  /** A call is sent and answered at once. */
  lemma AnsweredCall(s: State, steps: seq<Step>, m: State, cmd: uint32, p: seq<Param>) returns (t: State)
    requires Ran(s, steps, m) && Inv(m) && Values(p) && cmd % 256 == 0
    ensures Ran(s, steps + [Asking(cmd, false, p), Serve(|m.calls|, [])], t) && Inv(t) && Shape(t)
    ensures t.calls == m.calls + [OneValue(cmd, false, p, Sent)] && t.pending == m.pending && |m.calls| in t.toClient
  {
    var id := |m.calls|;
    var u := Issuing(s, steps, m, cmd, false, p);
    t := Answering(s, steps + [Asking(cmd, false, p)], u, id);
    OneInOut();
    InvHasShape(t);
    assert steps + [Asking(cmd, false, p)] + [Serve(id, [])] == steps + [Asking(cmd, false, p), Serve(id, [])];
  }

  lemma OneMore(s: State, steps: seq<Step>, m: State, step: Step)
    requires Run(s, steps) == Some(m) && Shape(m) && Possible(m, step) && Next(m, step).Some?
    ensures Run(s, steps + [step]) == Next(m, step)
  {
    RunSnoc(s, steps, m, step);
  }

  lemma TwoMore(s: State, steps: seq<Step>, m: State, a: Step, u: State, b: Step, t: State)
    requires Run(s, steps) == Some(m) && Shape(m) && Possible(m, a) && Next(m, a) == Some(u)
    requires Shape(u) && Possible(u, b) && Next(u, b) == Some(t)
    ensures Run(s, steps + [a, b]) == Some(t)
  {
    OneMore(s, steps, m, a);
    OneMore(s, steps + [a], u, b);
    assert steps + [a] + [b] == steps + [a, b];
  }

  /** A call is sent, registered, waited for, answered and signalled. */
  lemma SignalledCall(s: State, p: seq<Param>) returns (t: State)
    requires Start(s) && Values(p)
    ensures Ran(s, [Asking(0x100, false, p), Register(0), Wait(0)] + [Serve(0, []), Deliver(0, [])], t) && Inv(t)
    ensures |t.calls| == 1 && t.calls[0].stage == Signalled && t.calls[0].cmd == 0x100 && t.calls[0].types == 3
    ensures !t.calls[0].callback && t.calls[0].caller == p && t.pending == [] && t.current == Some(0)
  {
    StartIsOk(s);
    OneInOut();
    var one := [Asking(0x100, false, p), Register(0), Wait(0)];
    assert [] + one == one;
    var m := WaitingCall(s, [], s, 0x100, p);
    var u := Answering(s, one, m, 0);
    t := Delivered(s, one + [Serve(0, [])], u, 0);
    assert one + [Serve(0, [])] + [Deliver(0, [])] == one + [Serve(0, []), Deliver(0, [])];
  }

  /** A run in which a call has been answered and signalled, but before it returns, the reply to a second call, not
      registered yet, finds the list empty: the first call returns with the value of the second. */
  lemma ReplyFindsStaleNode(s: State, p: seq<Param>, q: seq<Param>) returns (t: State)
    requires Start(s) && Values(p) && Values(q)
    ensures var steps := [Asking(0x100, false, p), Register(0), Wait(0)] + [Serve(0, []), Deliver(0, [])]
                         + [Asking(0x200, false, q), Serve(1, [])];
            LegalRun(s, steps) && Run(s, steps + [Deliver(1, []), Return(0)]) == Some(t)
    ensures |t.calls| == 2 && t.pending == [] && t.calls[1].stage == Sent && Settled(t, 1)
    ensures t.calls[0].stage == Returned && |t.calls[0].caller| == IPC_NUM_PARAMS && t.calls[0].caller[0] == q[0]
  {
    var first := [Asking(0x100, false, p), Register(0), Wait(0)] + [Serve(0, []), Deliver(0, [])];
    var m := SignalledCall(s, p);
    var w := AnsweredAfterOther(s, first, m, q);
    var u := Overwritten(w, q);
    t := Returning(u, 0);
    TwoMore(s, first + [Asking(0x200, false, q), Serve(1, [])], w, Deliver(1, []), u, Return(0), t);
  }

  lemma AnsweredAfterOther(s: State, steps: seq<Step>, m: State, q: seq<Param>) returns (t: State)
    requires Ran(s, steps, m) && Inv(m) && Values(q) && |m.calls| == 1 && m.current == Some(0)
    ensures Ran(s, steps + [Asking(0x200, false, q), Serve(1, [])], t) && Inv(t) && Shape(t)
    ensures t.calls == m.calls + [OneValue(0x200, false, q, Sent)] && t.pending == m.pending && t.current == m.current
    ensures 1 in t.toClient
  {
    var u := Issuing(s, steps, m, 0x200, false, q);
    t := Answering(s, steps + [Asking(0x200, false, q)], u, 1);
    OneInOut();
    InvHasShape(t);
    assert steps + [Asking(0x200, false, q)] + [Serve(1, [])] == steps + [Asking(0x200, false, q), Serve(1, [])];
  }

  lemma Overwritten(t: State, q: seq<Param>) returns (u: State)
    requires Inv(t) && Shape(t) && Values(q) && 1 in t.toClient && t.pending == [] && t.current == Some(0)
    requires |t.calls| == 2 && t.calls[1] == OneValue(0x200, false, q, Sent)
    requires t.calls[0].cmd == 0x100 && t.calls[0].types == 3 && !t.calls[0].callback && t.calls[0].stage == Signalled
    ensures Delivering(t, 1, []) == Some(u) && Shape(u) && Possible(u, Return(0)) && u.pending == []
    ensures |u.calls| == 2 && u.calls[1].stage == Sent && Settled(u, 1)
    ensures |Returning(u, 0).calls[0].caller| == IPC_NUM_PARAMS && Returning(u, 0).calls[0].caller[0] == q[0]
  {
    EarlyResponse(t, 1, []);
    u := Delivering(t, 1, []).value;
    OneInOut();
    assert u.clientLocals[0] == Answer(q)[0] == q[0];
  }

  /** A run in which two calls share an id: the first, an asynchronous one, is put aside by the server and stays in
      the list; the reply to the second, which waits, goes to the callback of the first, and the second waits on with
      no message left. */
  lemma SharedIdsGoAstray(s: State, p: seq<Param>, q: seq<Param>) returns (t: State)
    requires Start(s) && Values(p) && Values(q)
    ensures var steps := [Asking(0x100, true, p), Register(0)] + [Serve(0, [])]
                         + [Asking(0x100, false, q), Register(1), Wait(1)] + [Serve(1, [])];
            LegalRun(s, steps) && Run(s, steps + [Deliver(1, [])]) == Some(t)
    ensures |t.calls| == 2 && t.pending == [1] && t.calls[1] == OneValue(0x100, false, q, Waiting) && Settled(t, 1)
    ensures t.calls[0].stage == CalledBack
  {
    var steps := [Asking(0x100, true, p), Register(0)] + [Serve(0, [])]
                 + [Asking(0x100, false, q), Register(1), Wait(1)] + [Serve(1, [])];
    var m := TwoUnderWay(s, p, q);
    t := GoesAstray(m, p, q);
    OneMore(s, steps, m, Deliver(1, []));
  }

  lemma TwoUnderWay(s: State, p: seq<Param>, q: seq<Param>) returns (m: State)
    requires Start(s) && Values(p) && Values(q)
    ensures Ran(s, [Asking(0x100, true, p), Register(0)] + [Serve(0, [])]
                   + [Asking(0x100, false, q), Register(1), Wait(1)] + [Serve(1, [])], m)
    ensures Inv(m) && Shape(m) && 1 in m.toClient && m.pending == [0, 1]
    ensures m.calls == [OneValue(0x100, true, p, Listed), OneValue(0x100, false, q, Waiting)]
  {
    var first := [Asking(0x100, true, p), Register(0)] + [Serve(0, [])];
    m := ParkedCall(s, p);
    m := WaitingCall(s, first, m, 0x100, q);
    m := Answering(s, first + [Asking(0x100, false, q), Register(1), Wait(1)], m, 1);
    OneInOut();
    InvHasShape(m);
  }

  /** An asynchronous call that the server has put aside. */
  lemma ParkedCall(s: State, p: seq<Param>) returns (t: State)
    requires Start(s) && Values(p)
    ensures Ran(s, [Asking(0x100, true, p), Register(0)] + [Serve(0, [])], t) && Inv(t)
    ensures t.calls == [OneValue(0x100, true, p, Listed)] && t.pending == [0]
  {
    StartIsOk(s);
    var one := [Asking(0x100, true, p), Register(0)];
    assert [] + one == one;
    t := EnlistedCall(s, [], s, 0x100, true, p);
    t := Answering(s, one, t, 0);
  }

  lemma GoesAstray(m: State, p: seq<Param>, q: seq<Param>) returns (t: State)
    requires Inv(m) && Shape(m) && Values(p) && Values(q) && 1 in m.toClient && m.pending == [0, 1]
    requires m.calls == [OneValue(0x100, true, p, Listed), OneValue(0x100, false, q, Waiting)]
    ensures Delivering(m, 1, []) == Some(t)
    ensures |t.calls| == 2 && t.pending == [1] && t.calls[1] == m.calls[1] && Settled(t, 1)
    ensures t.calls[0].stage == CalledBack
  {
    assert CallOk(m, 1, m.calls[1]);
    var now := ReplyActs(m, 1, []);
    assert PendingIds(m.calls, m.pending)[0] == 0x100;
    RespondingToFound(m, 1, 0, 0x100, now);
    t := Completing(m, 1, 0, now);
    assert m.pending[..0] + m.pending[1..] == [1];
  }

  /** A run in which the reply is handled before the caller waits: the node is completed and nobody signalled, and
      whatever the code does from there, the call does not return, unless a response to a call not yet registered
      wakes it by accident. */
  lemma ReplyOvertakesWait(s: State, p: seq<Param>, steps: seq<Step>) returns (t: State)
    requires Start(s) && Values(p)
    ensures var first := [Asking(0x100, false, p), Register(0)] + [Serve(0, [])];
            LegalRun(s, first) && Run(s, first + [Deliver(0, []), Wait(0)]) == Some(t)
    ensures |t.calls| == 1 && t.calls[0].stage == Waiting && t.pending == [] && Settled(t, 0)
    ensures Run(t, steps).Some? ==> (Forgotten(Run(t, steps).value, 0) <==> Unwoken(t, 0, steps))
  {
    StartIsOk(s);
    var one := [Asking(0x100, false, p), Register(0)];
    assert [] + one == one;
    var m := EnlistedCall(s, [], s, 0x100, false, p);
    m := Answering(s, one, m, 0);
    OneInOut();
    InvHasShape(m);
    assert m.pending == [0];
    var u := Unnoticed(m);
    t := Blocking(u, 0);
    TwoMore(s, one + [Serve(0, [])], m, Deliver(0, []), u, Wait(0), t);
    if Run(t, steps).Some? {
      ForgottenUnlessWoken(t, 0, steps);
    }
  }

  lemma Unnoticed(m: State) returns (t: State)
    requires Inv(m) && Shape(m) && |m.calls| == 1 && m.pending == [0] && 0 in m.toClient
    requires m.calls[0].stage == Listed && !m.calls[0].callback
    ensures Delivering(m, 0, []) == Some(t) && Shape(t) && |t.calls| == 1 && t.pending == [] && Settled(t, 0)
    ensures t.calls[0].stage == Listed && !t.calls[0].callback
  {
    assert m.pending[0] == 0;
    SignalIsMissed(m, 0, []);
    var k, now := ResponseFindsItsCall(m, 0, []);
    t := Completing(m, 0, k, now);
  }
}
