/** What the key-event state machine reports of one key, by events and by the clock. */
module KeyClicks {
  import opened KeyModel
  import opened KeySafety

  /** No key is down, and no click is waiting to be reported. */
  predicate Idle(s: State) {
    Inv(s) && forall i | 0 <= i < MAX_KEYS :: s.slots[i].status == RELEASE && s.slots[i].cnt == 0
  }

  lemma {:induction false} NoneClicked(slots: seq<KeyInfo>, n: nat)
    requires n <= |slots| && forall i | 0 <= i < n :: slots[i].cnt == 0
    ensures ClickedIn(slots, n) == 0
  {
    if n > 0 {
      NoneClicked(slots, n - 1);
    }
  }

  lemma {:induction false} OneClicked(slots: seq<KeyInfo>, i: nat, n: nat)
    requires i < |slots| && n <= |slots|
    requires forall k | 0 <= k < |slots| && k != i :: slots[k].cnt == 0
    ensures ClickedIn(slots, n) == if i < n && slots[i].cnt != 0 then 1 else 0
    ensures HeldClickedIn(slots, n) == if i < n && slots[i].cnt != 0 && slots[i].status != RELEASE then 1 else 0
  {
    if n > 0 {
      OneClicked(slots, i, n - 1);
    }
  }

  lemma {:induction false} OnePressed(slots: seq<KeyInfo>, i: nat, n: nat)
    requires i < |slots| && n <= |slots|
    requires forall k | 0 <= k < |slots| && k != i :: slots[k].status == RELEASE
    ensures PressedIn(slots, n) == if i < n then Bit(slots[i]) else 0
  {
    if n > 0 {
      OnePressed(slots, i, n - 1);
    }
  }

  // A single key, as its user sees it.

  /** The status of the key, its clicks not yet reported, and whether the next release ends a long press. */
  datatype OneKey = OneKey(status: int, cnt: nat, long: bool) {
    /** The key goes down when it is up, and repeats or goes up when it is down. */
    predicate Allows(code: int, e: Event) {
      match e
      case Key(c, value) =>
        c == code && if value == PRESS then status == RELEASE
                     else (value == REPEAT || value == RELEASE) && status != RELEASE
      case Poll(_) => true
      case Overflow => false
    }

    function After(e: Event): OneKey {
      match e
      case Key(_, value) =>
        if value == PRESS then OneKey(PRESS, cnt + 1, long)
        else if value == REPEAT then OneKey(REPEAT, cnt, long)
        else OneKey(RELEASE, cnt, false)
      case Poll(tm) =>
        if cnt > 0 && tm >= KEY_LONG_PRESS_TIME then OneKey(status, 0, true)
        else if status == RELEASE && tm >= KEY_CLICK_GAP then OneKey(status, 0, long)
        else this
      case Overflow => this
    }

    function Reports(code: int, e: Event): seq<Action> {
      match e
      case Key(_, value) => if value == RELEASE && long then [LongRelease(code)] else []
      case Poll(tm) =>
        if cnt == 0 then []
        else if tm >= KEY_LONG_PRESS_TIME then
          if status == RELEASE then [] else if cnt == 1 then [Long(1)] else [Single(code, status, cnt)]
        else if status == RELEASE && tm >= KEY_CLICK_GAP then [Single(code, RELEASE, cnt)]
        else []
      case Overflow => []
    }

    predicate AllowsAll(code: int, es: seq<Event>)
      decreases |es|
    {
      es == [] || (Allows(code, es[0]) && After(es[0]).AllowsAll(code, es[1..]))
    }

    function AfterAll(es: seq<Event>): OneKey
      decreases |es|
    {
      if es == [] then this else After(es[0]).AfterAll(es[1..])
    }

    function AllReports(code: int, es: seq<Event>): seq<Action>
      decreases |es|
    {
      if es == [] then [] else Reports(code, es[0]) + After(es[0]).AllReports(code, es[1..])
    }

    function Down(): nat {
      if status != RELEASE then 1 else 0
    }
  }

  /** The tracker sees no other key, and this one as it is. */
  predicate Shows(s: State, code: int, k: OneKey) {
    && Inv(s) && s.pressCnt == 0 && k.long == (s.keysStatus == LONG_KEY_PRESS)
    && (forall i | 0 <= i < MAX_KEYS && s.slots[i].code != code ::
          s.slots[i].status == RELEASE && s.slots[i].cnt == 0)
    && var i := FindCode(s.slots, code, 0);
       k.status == (if i < MAX_KEYS then s.slots[i].status else RELEASE)
       && k.cnt == if i < MAX_KEYS then s.slots[i].cnt else 0
  }

  /** A key at rest in an idle state. */
  function AtRest(s: State): OneKey {
    OneKey(RELEASE, 0, s.keysStatus == LONG_KEY_PRESS)
  }

  lemma IdleShows(s: State, code: int)
    requires Idle(s)
    ensures Shows(s, code, AtRest(s))
  {
    NonePressed(s.slots, MAX_KEYS);
  }

  lemma ShowsIdle(s: State, code: int, k: OneKey)
    requires Shows(s, code, k) && code != 0 && k.status == RELEASE && k.cnt == 0
    ensures Idle(s)
  {
    OtherSlots(s, code, k);
  }

  /** Where the key is, or would go. */
  function SlotFor(s: State, code: int): (i: nat)
    requires |s.slots| == MAX_KEYS
    ensures i < MAX_KEYS
  {
    var i := FindCode(s.slots, code, 0);
    if i < MAX_KEYS then i else 0
  }

  /** The slots in numbers. */
  lemma OtherSlots(s: State, code: int, k: OneKey)
    requires Shows(s, code, k) && code != 0
    ensures var i := SlotFor(s, code);
            && (forall j | 0 <= j < MAX_KEYS && j != i ::
                  s.slots[j].code != code && s.slots[j].status == RELEASE && s.slots[j].cnt == 0)
            && s.slots[i].status == k.status && s.slots[i].cnt == k.cnt
            && PressNum(s.slots) == k.Down()
            && ClickedIn(s.slots, MAX_KEYS) == (if k.cnt > 0 then 1 else 0)
            && HeldClickedIn(s.slots, MAX_KEYS) == (if k.cnt > 0 && k.status != RELEASE then 1 else 0)
            && NthClicked(s.slots, 0, 0) == if k.cnt > 0 then i else MAX_KEYS
  {
    var i := SlotFor(s, code);
    assert forall j | 0 <= j < MAX_KEYS && s.slots[j].code == code :: j == i;
    OnePressed(s.slots, i, MAX_KEYS);
    OneClicked(s.slots, i, MAX_KEYS);
    FirstClicked(s.slots, i, 0);
  }

  lemma {:induction false} FirstClicked(slots: seq<KeyInfo>, i: nat, from: nat)
    requires from <= i < |slots| && forall k | 0 <= k < |slots| && k != i :: slots[k].cnt == 0
    ensures NthClicked(slots, 0, from) == if slots[i].cnt != 0 then i else |slots|
    decreases i - from
  {
    if from < i {
      FirstClicked(slots, i, from + 1);
    } else {
      OneClicked(slots, i, i + 1);
      OneClicked(slots, i, |slots|);
    }
  }

  /** The key's slot has changed, and nothing else. */
  lemma SlotSet(s: State, t: State, code: int, k: OneKey, k': OneKey)
    requires Shows(s, code, k) && code != 0
    requires t.slots == s.slots[SlotFor(s, code) := KeyInfo(code, k'.status, k'.cnt)]
    requires k'.status == RELEASE || k'.status == PRESS || k'.status == REPEAT
    requires t.pressCnt == 0 && k'.long == (t.keysStatus == LONG_KEY_PRESS)
    ensures Shows(t, code, k')
  {
    OtherSlots(s, code, k);
    var i := SlotFor(s, code);
    assert t.slots[i].code == code;
  }

  /** A key event of this key picks its slot, and finds nothing to report there. */
  lemma PlaceOfKey(s: State, code: int, k: OneKey, value: int)
    requires Shows(s, code, k) && code != 0 && k.Allows(code, Key(code, value))
    ensures Place(s, code) == (s, SlotFor(s, code))
    ensures Discarded(s.slots, code, value) <==> value == k.status == REPEAT
  {
    OtherSlots(s, code, k);
    var i := SlotFor(s, code);
    if FindCode(s.slots, code, 0) == MAX_KEYS {
      assert FindFree(s.slots, 0) == 0;
      assert s.slots[0 := s.slots[0].(cnt := 0)] == s.slots;
    }
  }

  lemma PressShows(s: State, code: int, k: OneKey)
    requires Shows(s, code, k) && code != 0 && k.status == RELEASE
    ensures var t := OnKey(s, code, PRESS);
            && t == s.(slots := s.slots[SlotFor(s, code) := KeyInfo(code, PRESS, k.cnt + 1)], lockCnt := s.lockCnt + 1)
            && Shows(t, code, k.After(Key(code, PRESS)))
  {
    PlaceOfKey(s, code, k, PRESS);
    OtherSlots(s, code, k);
    var i, t := SlotFor(s, code), OnKey(s, code, PRESS);
    SlotSet(s, t, code, k, k.After(Key(code, PRESS)));
  }

  lemma RepeatShows(s: State, code: int, k: OneKey)
    requires Shows(s, code, k) && code != 0 && k.status != RELEASE
    ensures var t := OnKey(s, code, REPEAT);
            && t == s.(slots := s.slots[SlotFor(s, code) := KeyInfo(code, REPEAT, k.cnt)])
            && Shows(t, code, k.After(Key(code, REPEAT)))
  {
    PlaceOfKey(s, code, k, REPEAT);
    OtherSlots(s, code, k);
    var i, t := SlotFor(s, code), OnKey(s, code, REPEAT);
    assert s.slots[i].code == code;
    if Discarded(s.slots, code, REPEAT) {
      assert s.slots[i := s.slots[i]] == s.slots;
    }
    SlotSet(s, t, code, k, k.After(Key(code, REPEAT)));
  }

  lemma ReleaseShows(s: State, code: int, k: OneKey)
    requires Shows(s, code, k) && code != 0 && k.status != RELEASE
    ensures var t := OnKey(s, code, RELEASE);
            && t.actions == s.actions + (if k.long then [LongRelease(code)] else []) && t.lockCnt == s.lockCnt - 1
            && Shows(t, code, k.After(Key(code, RELEASE)))
  {
    PlaceOfKey(s, code, k, RELEASE);
    OtherSlots(s, code, k);
    var i, t := SlotFor(s, code), OnKey(s, code, RELEASE);
    assert s.slots[i].code == code;
    SlotSet(s, t, code, k, k.After(Key(code, RELEASE)));
  }

  lemma PollShows(s: State, code: int, k: OneKey, tm: int)
    requires Shows(s, code, k) && code != 0
    ensures var t := OnPoll(s, tm);
            && t.actions == s.actions + k.Reports(code, Poll(tm)) && t.lockCnt == s.lockCnt
            && Shows(t, code, k.After(Poll(tm)))
  {
    OtherSlots(s, code, k);
    if k.cnt > 0 && tm >= KEY_LONG_PRESS_TIME {
      LatePoll(s, code, k, tm);
    } else if k.cnt > 0 && tm >= KEY_CLICK_GAP && k.status == RELEASE {
      GapPoll(s, code, k, tm);
    }
  }

  /** The time-out of a long press; if the key is up, its clicks are forgotten. */
  lemma LatePoll(s: State, code: int, k: OneKey, tm: int)
    requires Shows(s, code, k) && code != 0 && k.cnt > 0 && tm >= KEY_LONG_PRESS_TIME
    ensures var t := OnPoll(s, tm);
            && t.actions == s.actions + k.Reports(code, Poll(tm)) && t.lockCnt == s.lockCnt
            && Shows(t, code, OneKey(k.status, 0, true))
  {
    OtherSlots(s, code, k);
    var i, t := SlotFor(s, code), OnPoll(s, tm);
    assert s.slots[i].code == code;
    assert t.slots == s.slots[i := s.slots[i].(cnt := 0)];
    SlotSet(s, t, code, k, OneKey(k.status, 0, true));
  }

  /** The time-out that ends the click gap. */
  lemma GapPoll(s: State, code: int, k: OneKey, tm: int)
    requires Shows(s, code, k) && code != 0 && k.cnt > 0 && k.status == RELEASE
    requires KEY_CLICK_GAP <= tm < KEY_LONG_PRESS_TIME
    ensures var t := OnPoll(s, tm);
            && t.actions == s.actions + [Single(code, RELEASE, k.cnt)] && t.lockCnt == s.lockCnt
            && Shows(t, code, OneKey(RELEASE, 0, k.long))
  {
    OtherSlots(s, code, k);
    var i, t := SlotFor(s, code), OnPoll(s, tm);
    assert s.slots[i].code == code;
    assert t.slots == s.slots[i := KeyInfo(0, RELEASE, 0)];
    assert FindCode(t.slots, code, 0) == MAX_KEYS;
  }

  /** One event of a single key: the tracker reports what the key says, and shows the key as it then is. */
  lemma StepShows(s: State, code: int, k: OneKey, e: Event)
    requires Shows(s, code, k) && code != 0 && k.Allows(code, e)
    ensures var t := Step(s, e);
            && t.actions == s.actions + k.Reports(code, e) && Shows(t, code, k.After(e))
            && t.lockCnt - k.After(e).Down() == s.lockCnt - k.Down()
  {
    match e
    case Key(_, value) =>
      if value == PRESS {
        PressShows(s, code, k);
      } else if value == REPEAT {
        RepeatShows(s, code, k);
      } else {
        ReleaseShows(s, code, k);
      }
    case Poll(tm) => PollShows(s, code, k, tm);
  }

  lemma Regroup<T>(a: seq<T>, b: seq<T>, c: seq<T>)
    ensures a + b + c == a + (b + c)
  {
  }

  /** Whatever a single key does, with time-outs at any times: the tracker reports what the key says. */
  lemma {:induction false} RunShows(s: State, code: int, k: OneKey, es: seq<Event>)
    requires Shows(s, code, k) && code != 0 && k.AllowsAll(code, es)
    ensures var t := Run(s, es);
            && t.actions == s.actions + k.AllReports(code, es) && Shows(t, code, k.AfterAll(es))
            && t.lockCnt - k.AfterAll(es).Down() == s.lockCnt - k.Down()
    decreases |es|
  {
    if es != [] {
      StepShows(s, code, k, es[0]);
      RunShows(Step(s, es[0]), code, k.After(es[0]), es[1..]);
      Regroup(s.actions, k.Reports(code, es[0]), k.After(es[0]).AllReports(code, es[1..]));
    }
  }

  lemma {:induction false} Append(code: int, k: OneKey, a: seq<Event>, b: seq<Event>)
    ensures var k1 := k.AfterAll(a);
            && k.AfterAll(a + b) == k1.AfterAll(b)
            && k.AllReports(code, a + b) == k.AllReports(code, a) + k1.AllReports(code, b)
            && (k.AllowsAll(code, a + b) <==> k.AllowsAll(code, a) && k1.AllowsAll(code, b))
    decreases |a|
  {
    if a == [] {
      assert a + b == b;
    } else {
      assert (a + b)[1..] == a[1..] + b;
      Append(code, k.After(a[0]), a[1..], b);
    }
  }

  lemma LastReport(code: int, k: OneKey, es: seq<Event>, e: Event)
    ensures var k1 := k.AfterAll(es);
            && k.AfterAll(es + [e]) == k1.After(e)
            && k.AllReports(code, es + [e]) == k.AllReports(code, es) + k1.Reports(code, e)
            && (k.AllowsAll(code, es + [e]) <==> k.AllowsAll(code, es) && k1.Allows(code, e))
  {
    Append(code, k, es, [e]);
    var k1 := k.AfterAll(es);
    assert [e][1..] == [];
    assert k1.AllReports(code, [e]) == k1.Reports(code, e) + k1.After(e).AllReports(code, []);
  }

  // Clicks.

  /** Time-outs before the first click come at any time, during a click before a long press would be noticed, and
      behind one before the gap has passed. */
  predicate InTime(k: OneKey, e: Event) {
    e.Poll? && k.cnt > 0 ==> e.tm < if k.status == RELEASE then KEY_CLICK_GAP else KEY_LONG_PRESS_TIME
  }

  /** Clicks of one key that follow each other in time, the key repeating or not while it is down. */
  predicate ClickTrain(code: int, k: OneKey, es: seq<Event>)
    decreases |es|
  {
    es == [] || (k.Allows(code, es[0]) && InTime(k, es[0]) && ClickTrain(code, k.After(es[0]), es[1..]))
  }

  function Presses(es: seq<Event>): nat {
    if es == [] then 0 else Presses(es[1..]) + if es[0].Key? && es[0].value == PRESS then 1 else 0
  }

  /** Clicks in time are counted; all that is reported is that an earlier long press ends. */
  lemma {:induction false} TrainCounts(code: int, k: OneKey, es: seq<Event>)
    requires ClickTrain(code, k, es)
    ensures var k' := k.AfterAll(es);
            && k.AllowsAll(code, es) && k'.cnt == k.cnt + Presses(es)
            && k'.cnt + k.Down() >= k.cnt + k'.Down()
            && (k'.long <==> k.long && k'.cnt + k.Down() == k.cnt + k'.Down())
            && k.AllReports(code, es) == if k.long && !k'.long then [LongRelease(code)] else []
    decreases |es|
  {
    if es != [] {
      TrainCounts(code, k.After(es[0]), es[1..]);
    }
  }

  /** What the key says of such clicks and a time-out behind them. */
  lemma ClickReports(code: int, k: OneKey, es: seq<Event>, tm: int)
    requires k.status == RELEASE && k.cnt == 0 && ClickTrain(code, k, es)
    requires k.AfterAll(es).status == RELEASE && Presses(es) > 0
    ensures var n, all := Presses(es), es + [Poll(tm)];
            && k.AllowsAll(code, all)
            && k.AfterAll(all) == OneKey(RELEASE, if tm >= KEY_CLICK_GAP then 0 else n, tm >= KEY_LONG_PRESS_TIME)
            && k.AllReports(code, all) == (if k.long then [LongRelease(code)] else [])
                 + (if KEY_CLICK_GAP <= tm < KEY_LONG_PRESS_TIME then [Single(code, RELEASE, n)] else [])
  {
    TrainCounts(code, k, es);
    LastReport(code, k, es, Poll(tm));
  }

  /**
    From an idle state, n clicks of a key that follow each other in time, and a time-out behind them. The clicks are
    reported once, by their number, if and only if the time-out comes after the gap and before the time of a long
    press; an earlier one leaves them waiting, and a later one forgets them and takes them for a long press. All
    else that is reported is the end of a long press that an earlier call has left behind.
   */
  lemma ClicksAreCounted(s: State, code: int, es: seq<Event>, tm: int)
    requires Idle(s) && code != 0 && ClickTrain(code, AtRest(s), es)
    requires AtRest(s).AfterAll(es).status == RELEASE && Presses(es) > 0
    ensures var n, t := Presses(es), Run(s, es + [Poll(tm)]);
            && t.actions == s.actions + (if s.keysStatus == LONG_KEY_PRESS then [LongRelease(code)] else [])
                            + (if KEY_CLICK_GAP <= tm < KEY_LONG_PRESS_TIME then [Single(code, RELEASE, n)] else [])
            && (t.actions == s.actions + [Single(code, RELEASE, n)] <==>
                s.keysStatus != LONG_KEY_PRESS && KEY_CLICK_GAP <= tm < KEY_LONG_PRESS_TIME)
            && t.lockCnt == s.lockCnt && (Idle(t) <==> tm >= KEY_CLICK_GAP)
            && (t.keysStatus == LONG_KEY_PRESS <==> tm >= KEY_LONG_PRESS_TIME)
  {
    var k, n, t := AtRest(s), Presses(es), Run(s, es + [Poll(tm)]);
    IdleShows(s, code);
    ClickReports(code, k, es, tm);
    RunShows(s, code, k, es + [Poll(tm)]);
    if tm >= KEY_CLICK_GAP {
      ShowsIdle(t, code, k.AfterAll(es + [Poll(tm)]));
    } else {
      OtherSlots(t, code, k.AfterAll(es + [Poll(tm)]));
    }
    Told(s.actions, if k.long then [LongRelease(code)] else [],
         if KEY_CLICK_GAP <= tm < KEY_LONG_PRESS_TIME then [Single(code, RELEASE, n)] else [],
         t.actions, Single(code, RELEASE, n));
  }

  /** Just one report, and nothing before it. */
  lemma Told(before: seq<Action>, a: seq<Action>, b: seq<Action>, after: seq<Action>, one: Action)
    requires after == before + (a + b) && (b == [] || b == [one])
    requires a == [] || (a[0].LongRelease? && !one.LongRelease?)
    ensures after == before + a + b
    ensures after == before + [one] <==> a == [] && b == [one]
  {
    assert before + (a + b) == before + a + b;
    assert a != [] ==> after[|before|] == a[0];
    assert a == [] && b == [] ==> after == before;
  }

  /** The key goes on repeating, or is just held, for any time. */
  predicate Holding(code: int, es: seq<Event>) {
    forall i | 0 <= i < |es| :: es[i].Poll? || es[i] == Key(code, REPEAT)
  }

  lemma {:induction false} HoldingIsSilent(code: int, k: OneKey, es: seq<Event>)
    requires k.status != RELEASE && k.cnt == 0 && Holding(code, es)
    ensures var k' := k.AfterAll(es);
            && k.AllowsAll(code, es) && k.AllReports(code, es) == []
            && k'.status != RELEASE && k'.cnt == 0 && k'.long == k.long
    decreases |es|
  {
    if es != [] {
      HoldingIsSilent(code, k.After(es[0]), es[1..]);
    }
  }

  /** What is reported of the n-th press when it turns out to be a long one. */
  function LongPress(code: int, status: int, n: nat): Action {
    if n == 1 then Long(1) else Single(code, status, n)
  }

  /** The n-th press of a train of clicks, held until a time-out takes it for a long press, and then let go. */
  lemma LongPressReports(code: int, k: OneKey, es: seq<Event>, tm: int, rest: seq<Event>)
    requires k.status == RELEASE && k.cnt == 0 && ClickTrain(code, k, es) && k.AfterAll(es).status != RELEASE
    requires tm >= KEY_LONG_PRESS_TIME && Holding(code, rest)
    ensures var n, all := Presses(es), es + [Poll(tm)] + rest + [Key(code, RELEASE)];
            && n > 0 && k.AllowsAll(code, all) && k.AfterAll(all) == OneKey(RELEASE, 0, false)
            && k.AllReports(code, all) == (if k.long && n > 1 then [LongRelease(code)] else [])
                                          + [LongPress(code, k.AfterAll(es).status, n)] + [LongRelease(code)]
  {
    var held := k.AfterAll(es + [Poll(tm)]);
    var all := es + [Poll(tm)] + rest;
    TrainCounts(code, k, es);
    LastReport(code, k, es, Poll(tm));
    HoldingIsSilent(code, held, rest);
    Append(code, k, es + [Poll(tm)], rest);
    LastReport(code, k, all, Key(code, RELEASE));
  }

  /** From an idle state, the n-th press of a train of clicks is held until a time-out takes it for a long press,
      then for any time with time-outs and repeats, and let go: the long press is reported once and its end once. */
  lemma LongPressIsReported(s: State, code: int, es: seq<Event>, tm: int, rest: seq<Event>)
    requires Idle(s) && code != 0 && ClickTrain(code, AtRest(s), es)
    requires AtRest(s).AfterAll(es).status != RELEASE && tm >= KEY_LONG_PRESS_TIME && Holding(code, rest)
    ensures var n, t := Presses(es), Run(s, es + [Poll(tm)] + rest + [Key(code, RELEASE)]);
            && n > 0 && t.lockCnt == s.lockCnt && Idle(t) && t.keysStatus != LONG_KEY_PRESS
            && t.actions == s.actions + ((if s.keysStatus == LONG_KEY_PRESS && n > 1 then [LongRelease(code)] else [])
                                         + [LongPress(code, AtRest(s).AfterAll(es).status, n)] + [LongRelease(code)])
  {
    var k, all := AtRest(s), es + [Poll(tm)] + rest + [Key(code, RELEASE)];
    IdleShows(s, code);
    LongPressReports(code, k, es, tm, rest);
    RunShows(s, code, k, all);
    ShowsIdle(Run(s, all), code, k.AfterAll(all));
  }

  // The same by the clock.

  /** The events of a history, each time-out with the time since the last press. */
  function Timed(history: seq<(int, Input)>, start: int): seq<Event>
    decreases |history|
  {
    if history == [] then []
    else
      var (now, input) := history[0];
      [EventOf(start, now, input)]
      + Timed(history[1..], if input.KeyInput? && input.value == PRESS then now else start)
  }

  /** The time of the last press, or the start time before any. */
  function LastPress(history: seq<(int, Input)>, start: int): int {
    if history == [] then start
    else LastPress(history[1..], if history[0].1.KeyInput? && history[0].1.value == PRESS then history[0].0 else start)
  }

  /** Of the events of a single key, the presses restart the clock, and they alone. */
  lemma PressesRestart(s: State, code: int, k: OneKey, value: int)
    requires Shows(s, code, k) && code != 0 && k.Allows(code, Key(code, value))
    ensures Restarts(s, code, value) <==> value == PRESS
  {
    PlaceOfKey(s, code, k, value);
    OtherSlots(s, code, k);
  }

  /** So the time the tracker goes by is the time since the last press. */
  lemma {:induction false} EventsAreTimed(s: State, code: int, k: OneKey, history: seq<(int, Input)>, start: int)
    requires Shows(s, code, k) && code != 0 && k.AllowsAll(code, Timed(history, start))
    ensures EventsOf(s, start, history) == Timed(history, start)
    decreases |history|
  {
    if history != [] {
      var (now, input) := history[0];
      var e, es := EventOf(start, now, input), Timed(history, start);
      if input.KeyInput? {
        PressesRestart(s, code, k, input.value);
      }
      StepShows(s, code, k, e);
      var next := StartAfter(s, start, now, input);
      assert es[1..] == Timed(history[1..], next);
      EventsAreTimed(Step(s, e), code, k.After(e), history[1..], next);
    }
  }

  lemma {:induction false} LastEvent(history: seq<(int, Input)>, start: int, now: int)
    ensures Timed(history + [(now, Timeout)], start) == Timed(history, start) + [Poll(now - LastPress(history, start))]
    decreases |history|
  {
    var longer := history + [(now, Timeout)];
    if history == [] {
      assert longer[1..] == [];
    } else {
      assert longer[1..] == history[1..] + [(now, Timeout)];
      var (at, input) := history[0];
      LastEvent(history[1..], if input.KeyInput? && input.value == PRESS then at else start, now);
    }
  }

  /** Any history of a single key: the tracker reports what the key says, by the time since its last press. */
  lemma OneKeyInTime(s: State, code: int, k: OneKey, history: seq<(int, Input)>, start: int)
    requires Shows(s, code, k) && code != 0 && k.AllowsAll(code, Timed(history, start))
    ensures var t := Run(s, EventsOf(s, start, history));
            && t.actions == s.actions + k.AllReports(code, Timed(history, start))
            && Shows(t, code, k.AfterAll(Timed(history, start)))
  {
    EventsAreTimed(s, code, k, history, start);
    RunShows(s, code, k, Timed(history, start));
  }

  /** From an idle state: clicks that follow each other in time, whatever time-outs and repeats come between, are
      reported once, by their number, if and only if the next time-out finds the gap passed since the last press but
      not yet the time of a long press, and no long press has been left behind. */
  lemma ClicksAreCountedInTime(s: State, code: int, history: seq<(int, Input)>, start: int, now: int)
    requires var es := Timed(history, start);
             && Idle(s) && code != 0 && ClickTrain(code, AtRest(s), es)
             && AtRest(s).AfterAll(es).status == RELEASE && Presses(es) > 0
    ensures var n, t := Presses(Timed(history, start)), Run(s, EventsOf(s, start, history + [(now, Timeout)]));
            var tm := now - LastPress(history, start);
            && t.actions == s.actions + (if s.keysStatus == LONG_KEY_PRESS then [LongRelease(code)] else [])
                            + (if KEY_CLICK_GAP <= tm < KEY_LONG_PRESS_TIME then [Single(code, RELEASE, n)] else [])
            && (t.actions == s.actions + [Single(code, RELEASE, n)] <==>
                s.keysStatus != LONG_KEY_PRESS && KEY_CLICK_GAP <= tm < KEY_LONG_PRESS_TIME)
            && t.lockCnt == s.lockCnt && (Idle(t) <==> tm >= KEY_CLICK_GAP)
            && (t.keysStatus == LONG_KEY_PRESS <==> tm >= KEY_LONG_PRESS_TIME)
  {
    var es, k, last := Timed(history, start), AtRest(s), Poll(now - LastPress(history, start));
    IdleShows(s, code);
    TrainCounts(code, k, es);
    LastReport(code, k, es, last);
    LastEvent(history, start, now);
    EventsAreTimed(s, code, k, history + [(now, Timeout)], start);
    ClicksAreCounted(s, code, es, last.tm);
  }
}
