/** Keys clicked one after another: every click is told once, in order, by runs of the same key. */
module KeyTyping {
  import opened KeyModel
  import opened KeySafety
  import opened KeyHands
  import KeyClicks
  import KeyChords

  /** One key is down at a time, and time-outs come before a long press would be noticed. */
  predicate OneAtATime(h: Hands, e: Event) {
    match e
    case Key(code, value) =>
      code != 0 && if value == PRESS then h.held == map[]
                   else (value == REPEAT || value == RELEASE) && code in h.held
    case Poll(tm) => tm < KEY_LONG_PRESS_TIME
    case Overflow => false
  }

  predicate Typing(h: Hands, es: seq<Event>)
    decreases |es|
  {
    es == [] || (OneAtATime(h, es[0]) && Typing(h.After(es[0]), es[1..]))
  }

  /** At most one key is held, and nothing is left of a chord or a long press. */
  predicate Solo(h: Hands) {
    && !h.chord && !h.long && |h.held| <= 1
    && (h.waiting.Clicks? ==> h.waiting.n > 0 && h.held == map[])
  }

  /** The keys pressed, in order. */
  function Pressed(es: seq<Event>): seq<int> {
    if es == [] then []
    else (if es[0].Key? && es[0].value == PRESS then [es[0].code] else []) + Pressed(es[1..])
  }

  function Times(code: int, n: nat): (cs: seq<int>)
    ensures |cs| == n && forall i | 0 <= i < n :: cs[i] == code
  {
    seq(n, _ => code)
  }

  /** The clicks not yet told, as the keys pressed. */
  ghost function Pending(h: Hands): seq<int> {
    if h.waiting.Clicks? then Times(h.waiting.code, h.waiting.n)
    else if c :| c in h.held then Times(c, h.held[c].cnt)
    else []
  }

  /** Reports of clicks of keys that are up. */
  predicate AllSingle(told: seq<Action>) {
    forall i | 0 <= i < |told| :: told[i].Single? && told[i].status == RELEASE && told[i].cnt > 0
  }

  /** The keys that such reports tell of, each as often as it was clicked. */
  function Spelled(told: seq<Action>): seq<int>
    requires AllSingle(told)
  {
    if told == [] then [] else Times(told[0].code, told[0].cnt) + Spelled(told[1..])
  }

  lemma {:induction false} SpelledAppend(a: seq<Action>, b: seq<Action>)
    requires AllSingle(a) && AllSingle(b)
    ensures AllSingle(a + b) && Spelled(a + b) == Spelled(a) + Spelled(b)
  {
    if a == [] {
      assert a + b == b;
    } else {
      assert (a + b)[1..] == a[1..] + b;
      SpelledAppend(a[1..], b);
    }
  }

  lemma OnlyPending(h: Hands, code: int)
    requires Solo(h) && code in h.held
    ensures h.held.Keys == {code} && h.held == map[code := h.held[code]]
    ensures Pending(h) == Times(code, h.held[code].cnt)
  {
    OnlyOne(h.held.Keys, code);
  }

  /** One event: what was pending and the key pressed, if any, is told or pending. */
  lemma StepSpells(h: Hands, e: Event)
    requires Solo(h) && OneAtATime(h, e)
    ensures Solo(h.After(e)) && AllSingle(h.Reports(e))
    ensures Spelled(h.Reports(e)) + Pending(h.After(e)) == Pending(h) + Pressed([e])
  {
    match e
    case Poll(tm) => PollSpells(h, tm);
    case Key(code, value) =>
      if value == PRESS {
        PressSpells(h, code);
      } else {
        HeldSpells(h, code, value);
      }
  }

  lemma HeldSpells(h: Hands, code: int, value: int)
    requires Solo(h) && code in h.held && (value == REPEAT || value == RELEASE)
    ensures var k := h.After(Key(code, value));
            Solo(k) && Pending(k) == Pending(h) && h.Reports(Key(code, value)) == []
  {
    OnlyPending(h, code);
    var k := h.After(Key(code, value));
    if value == REPEAT {
      assert k.held.Keys == h.held.Keys;
      OnlyPending(k, code);
    }
  }

  lemma PollSpells(h: Hands, tm: int)
    requires Solo(h) && tm < KEY_LONG_PRESS_TIME
    ensures Solo(h.TimesOut(tm)) && AllSingle(h.ToldByTimeOut(tm))
    ensures Spelled(h.ToldByTimeOut(tm)) + Pending(h.TimesOut(tm)) == Pending(h)
  {
  }

  lemma PressSpells(h: Hands, code: int)
    requires Solo(h) && h.held == map[]
    ensures Solo(h.GoesDown(code, PRESS)) && AllSingle(h.ToldByDown(code))
    ensures Spelled(h.ToldByDown(code)) + Pending(h.GoesDown(code, PRESS)) == Pending(h) + [code]
  {
  }

  lemma PressedFirst(es: seq<Event>)
    requires es != []
    ensures Pressed(es) == Pressed([es[0]]) + Pressed(es[1..])
  {
    assert [es[0]][1..] == [];
  }

  /** Nothing is lost and nothing is told twice, whatever keys are clicked one after another, with time-outs at any
      time before a long press: the clicks told and those pending are the clicks made, in order. */
  lemma {:induction false} TypingSpells(h: Hands, es: seq<Event>)
    requires Solo(h) && Typing(h, es)
    ensures Solo(h.AfterAll(es)) && AllSingle(h.AllReports(es))
    ensures Spelled(h.AllReports(es)) + Pending(h.AfterAll(es)) == Pending(h) + Pressed(es)
    decreases |es|
  {
    if es != [] {
      var h1, told := h.After(es[0]), h.Reports(es[0]);
      StepSpells(h, es[0]);
      TypingSpells(h1, es[1..]);
      SpelledAppend(told, h1.AllReports(es[1..]));
      PressedFirst(es);
      Regrouped(Spelled(told), Spelled(h1.AllReports(es[1..])), Pending(h.AfterAll(es)), Pending(h1), Pressed(es[1..]),
                Pending(h), Pressed([es[0]]));
    }
  }

  lemma Regrouped(a: seq<int>, b: seq<int>, c: seq<int>, d: seq<int>, e: seq<int>, f: seq<int>, g: seq<int>)
    requires b + c == d + e && a + d == f + g
    ensures (a + b) + c == f + (g + e)
  {
    calc {
      (a + b) + c;
      a + (b + c);
      (a + d) + e;
      f + (g + e);
    }
  }

  // Runs of the same key are told together.

  /** Neighbouring reports are of different keys. */
  predicate Apart(told: seq<Action>)
    requires AllSingle(told)
  {
    forall i | 0 < i < |told| :: told[i - 1].code != told[i].code
  }

  /** No time-out finds the click gap passed. */
  predicate Brisk(es: seq<Event>) {
    forall i | 0 <= i < |es| :: es[i].Poll? ==> es[i].tm < KEY_CLICK_GAP
  }

  lemma SpelledFirst(told: seq<Action>)
    requires AllSingle(told) && told != []
    ensures Spelled(told) != [] && Spelled(told)[0] == told[0].code
  {
  }

  /** What is told next is told of the keys that are pending next. */
  lemma StepIsApart(h: Hands, e: Event, rest: seq<Action>, left: seq<int>, more: seq<int>)
    requires Solo(h) && OneAtATime(h, e) && (e.Poll? ==> e.tm < KEY_CLICK_GAP)
    requires AllSingle(rest) && Apart(rest) && Spelled(rest) + left == Pending(h.After(e)) + more
    ensures AllSingle(h.Reports(e) + rest) && Apart(h.Reports(e) + rest)
  {
    if h.Reports(e) != [] && rest != [] {
      SpelledFirst(rest);
      assert Pending(h.After(e))[0] == e.code;
      assert (Spelled(rest) + left)[0] == rest[0].code;
    }
  }

  /** What a time-out tells of the clicks waiting. */
  function WaitingTold(h: Hands): seq<Action> {
    if h.waiting.Clicks? then [Single(h.waiting.code, RELEASE, h.waiting.n)] else []
  }

  /** All that is told of a run, the clicks that wait at its end included. */
  ghost function ToldInAll(h: Hands, es: seq<Event>): seq<Action> {
    h.AllReports(es) + WaitingTold(h.AfterAll(es))
  }

  lemma AllIsSpelled(h: Hands, es: seq<Event>)
    requires Solo(h) && Typing(h, es) && h.AfterAll(es).held == map[]
    ensures AllSingle(ToldInAll(h, es)) && Spelled(ToldInAll(h, es)) == Pending(h) + Pressed(es)
  {
    var k := h.AfterAll(es);
    TypingSpells(h, es);
    WaitingIsPending(k);
    SpelledAppend(h.AllReports(es), WaitingTold(k));
  }

  lemma WaitingIsPending(h: Hands)
    requires Solo(h) && h.held == map[]
    ensures AllSingle(WaitingTold(h)) && Spelled(WaitingTold(h)) == Pending(h)
  {
  }

  /** If no time-out finds the gap passed, neighbouring reports are of different keys. */
  lemma {:induction false} BriskIsApart(h: Hands, es: seq<Event>)
    requires Solo(h) && Typing(h, es) && Brisk(es) && h.AfterAll(es).held == map[]
    ensures AllSingle(ToldInAll(h, es)) && Apart(ToldInAll(h, es))
    decreases |es|
  {
    AllIsSpelled(h, es);
    if es != [] {
      var h1 := h.After(es[0]);
      var rest := ToldInAll(h1, es[1..]);
      StepSpells(h, es[0]);
      AllIsSpelled(h1, es[1..]);
      BriskIsApart(h1, es[1..]);
      StepIsApart(h, es[0], rest, [], Pressed(es[1..]));
      assert ToldInAll(h, es) == h.Reports(es[0]) + rest;
    }
  }

  lemma {:induction false} HandsAppend(h: Hands, a: seq<Event>, b: seq<Event>)
    ensures h.AfterAll(a + b) == h.AfterAll(a).AfterAll(b)
    ensures h.AllReports(a + b) == h.AllReports(a) + h.AfterAll(a).AllReports(b)
    decreases |a|
  {
    if a == [] {
      assert a + b == b;
    } else {
      assert (a + b)[1..] == a[1..] + b;
      HandsAppend(h.After(a[0]), a[1..], b);
    }
  }

  lemma {:induction false} TypingIsWellFormed(h: Hands, es: seq<Event>)
    requires Typing(h, es)
    ensures forall i | 0 <= i < |es| :: WellFormed(es[i])
    decreases |es|
  {
    if es != [] {
      TypingIsWellFormed(h.After(es[0]), es[1..]);
    }
  }

  /** What a time-out behind the gap tells in the end. */
  lemma GapTellsAll(h: Hands, es: seq<Event>, tm: int)
    requires Solo(h) && Typing(h, es) && KEY_CLICK_GAP <= tm < KEY_LONG_PRESS_TIME && h.AfterAll(es).held == map[]
    ensures h.AllReports(es + [Poll(tm)]) == ToldInAll(h, es)
    ensures h.AfterAll(es + [Poll(tm)]) == REST
  {
    var k := h.AfterAll(es);
    TypingSpells(h, es);
    HandsAppend(h, es, [Poll(tm)]);
    assert [Poll(tm)][1..] == [];
    assert k.AllReports([Poll(tm)]) == k.Reports(Poll(tm)) + k.After(Poll(tm)).AllReports([]);
  }

  /**
    From any state of the tracker in which all keys are up and no chord or long press is left: any keys are clicked
    one after another, with time-outs at any time before a long press, and in the end a time-out finds the gap passed.
    Only single keys are reported, and each click is reported once, in order, with those that waited first. If no
    time-out before finds the gap passed, neighbouring reports are of different keys.
   */
  lemma ClicksOfKeysAreTold(s: State, h: Hands, es: seq<Event>, tm: int)
    requires Sees(s, h) && Solo(h) && Typing(h, es) && h.AfterAll(es).held == map[]
    requires KEY_CLICK_GAP <= tm < KEY_LONG_PRESS_TIME
    ensures var t, told := Run(s, es + [Poll(tm)]), ToldInAll(h, es);
            && Sees(t, REST) && t.actions == s.actions + told
            && AllSingle(told) && Spelled(told) == Pending(h) + Pressed(es)
            && (Brisk(es) ==> Apart(told))
  {
    TypingIsWellFormed(h, es);
    RunSees(s, h, es + [Poll(tm)]);
    GapTellsAll(h, es, tm);
    AllIsSpelled(h, es);
    if Brisk(es) {
      BriskIsApart(h, es);
    }
  }

  /** The same by the clock, from the start of the tracker. */
  lemma TypedFromTheStart(history: seq<(int, Input)>, start: int, es: seq<Event>, tm: int)
    requires REST.Timed(history, start) == es + [Poll(tm)] && KEY_CLICK_GAP <= tm < KEY_LONG_PRESS_TIME
    requires Typing(REST, es) && REST.AfterAll(es).held == map[]
    requires forall i | 0 <= i < |history| :: WellFormed(EventOf(0, 0, history[i].1))
    ensures var told := Run(START, EventsOf(START, start, history)).actions;
            AllSingle(told) && Spelled(told) == Pressed(es) && (Brisk(es) ==> Apart(told))
  {
    StartSees();
    HistorySees(START, REST, history, start);
    ClicksOfKeysAreTold(START, REST, es, tm);
    assert Pending(REST) == [];
    assert START.actions + ToldInAll(REST, es) == ToldInAll(REST, es);
  }

  // Another key goes down while clicks wait, from any idle state.

  /** Clicks in time leave all slots but the key's own. */
  predicate OthersStay(s: State, t: State, code: int) {
    && |s.slots| == |t.slots| == MAX_KEYS && KeyClicks.SlotFor(t, code) == KeyClicks.SlotFor(s, code)
    && forall j | 0 <= j < MAX_KEYS && j != KeyClicks.SlotFor(s, code) :: t.slots[j] == s.slots[j]
  }

  lemma StepLeavesOthers(s: State, code: int, k: KeyClicks.OneKey, e: Event)
    requires KeyClicks.Shows(s, code, k) && code != 0 && k.Allows(code, e) && KeyClicks.InTime(k, e)
    ensures OthersStay(s, Step(s, e), code)
  {
    KeyClicks.OtherSlots(s, code, k);
    match e
    case Poll(tm) => assert Step(s, e) == s;
    case Key(_, value) =>
      KeyClicks.PlaceOfKey(s, code, k, value);
      if !Discarded(s.slots, code, value) {
        KeySlots(s, code, value);
      }
      KeyClicks.StepShows(s, code, k, e);
      KeyClicks.OtherSlots(Step(s, e), code, k.After(e));
  }

  lemma {:induction false} TrainLeavesOthers(s: State, code: int, k: KeyClicks.OneKey, es: seq<Event>)
    requires KeyClicks.Shows(s, code, k) && code != 0 && KeyClicks.ClickTrain(code, k, es)
    ensures OthersStay(s, Run(s, es), code)
    decreases |es|
  {
    if es != [] {
      StepLeavesOthers(s, code, k, es[0]);
      KeyClicks.StepShows(s, code, k, es[0]);
      TrainLeavesOthers(Step(s, es[0]), code, k.After(es[0]), es[1..]);
    }
  }

  /** The press of another key, which tells the clicks waiting unless a slot remembers that key. */
  lemma AnotherPress(s: State, a: int, k: KeyClicks.OneKey, b: int)
    requires KeyClicks.Shows(s, a, k) && a != 0 && b != 0 && b != a && k.status == RELEASE && k.cnt > 0 && !k.long
    ensures var t := OnKey(s, b, PRESS);
            if FindCode(s.slots, b, 0) == MAX_KEYS
            then t.actions == s.actions + [Single(a, RELEASE, k.cnt)]
                 && t.slots == s.slots[0 := KeyInfo(b, PRESS, 1)]
            else t.actions == s.actions
    ensures OnKey(s, b, PRESS).pressCnt == 0 && OnKey(s, b, PRESS).keysStatus == s.keysStatus
  {
    KeyClicks.OtherSlots(s, a, k);
    assert FindFree(s.slots, 0) == 0;
  }

  /** What a key going down starts from. */
  lemma StartsAtOne(s: State, t: State, a: int, k: KeyClicks.OneKey, b: int)
    requires KeyClicks.Shows(s, a, k) && a != 0 && b != 0 && !k.long && KeyClicks.SlotFor(s, a) == 0
    requires FindCode(s.slots, b, 0) == MAX_KEYS && t.slots == s.slots[0 := KeyInfo(b, PRESS, 1)]
    requires t.pressCnt == 0 && t.keysStatus == s.keysStatus
    ensures KeyClicks.Shows(t, b, KeyClicks.OneKey(PRESS, 1, false))
  {
    KeyClicks.OtherSlots(s, a, k);
  }

  /**
    From any idle state, n clicks of a key in time and then the press of another: the clicks are reported at once, by
    their number, if and only if no slot but the first key's remembers the other key. All else that is reported is the
    end of a long press left behind. Where slots are taken from the front, no slot does, and the other key then starts
    at one.
   */
  lemma AnotherKeyTells(s: State, a: int, es: seq<Event>, b: int)
    requires KeyClicks.Idle(s) && a != 0 && b != 0 && a != b && KeyClicks.ClickTrain(a, KeyClicks.AtRest(s), es)
    requires KeyClicks.AtRest(s).AfterAll(es).status == RELEASE && KeyClicks.Presses(es) > 0
    ensures var n, t := KeyClicks.Presses(es), Run(s, es + [Key(b, PRESS)]);
            var before := s.actions + if s.keysStatus == LONG_KEY_PRESS then [LongRelease(a)] else [];
            var known := exists i :: 0 <= i < MAX_KEYS && i != KeyClicks.SlotFor(s, a) && s.slots[i].code == b;
            && t.actions == before + (if known then [] else [Single(a, RELEASE, n)])
            && (Packed(s) ==> !known && KeyClicks.Shows(t, b, KeyClicks.OneKey(PRESS, 1, false)))
  {
    var k, m := KeyClicks.AtRest(s), Run(s, es);
    var k1 := k.AfterAll(es);
    KeyClicks.IdleShows(s, a);
    KeyClicks.TrainCounts(a, k, es);
    KeyClicks.RunShows(s, a, k, es);
    TrainLeavesOthers(s, a, k, es);
    AnotherPress(m, a, k1, b);
    KeyChords.RunAppend(s, es, [Key(b, PRESS)]);
    assert [Key(b, PRESS)][1..] == [];
    assert Run(m, [Key(b, PRESS)]) == OnKey(m, b, PRESS);
    Remembered(s, m, a, k1, b);
    if Packed(s) {
      PackedAtRest(s, a);
      StartsAtOne(m, OnKey(m, b, PRESS), a, k1, b);
    }
  }

  lemma Remembered(s: State, m: State, a: int, k: KeyClicks.OneKey, b: int)
    requires KeyClicks.Shows(m, a, k) && k.cnt > 0 && OthersStay(s, m, a) && a != 0 && a != b
    ensures FindCode(m.slots, b, 0) < MAX_KEYS
            <==> exists i :: 0 <= i < MAX_KEYS && i != KeyClicks.SlotFor(s, a) && s.slots[i].code == b
  {
    KeyClicks.OtherSlots(m, a, k);
    assert m.slots[KeyClicks.SlotFor(m, a)].code == a;
    var f := FindCode(m.slots, b, 0);
    if f < MAX_KEYS {
      assert s.slots[f].code == b;
    }
  }

  lemma PackedAtRest(s: State, code: int)
    requires KeyClicks.Idle(s) && Packed(s) && code != 0
    ensures KeyClicks.SlotFor(s, code) == 0 && forall i | 1 <= i < MAX_KEYS :: s.slots[i].code == 0
  {
    NonePressed(s.slots, MAX_KEYS);
  }

  /** Slots are taken from the front in every state that a run can reach. */
  lemma EveryRunIsPacked(es: seq<Event>)
    requires forall i | 0 <= i < |es| :: WellFormed(es[i])
    ensures Packed(Run(START, es))
  {
    EveryRun(es);
  }

  /** An idle state that no run reaches, in which the clicks are not told: the second slot remembers the other key. */
  lemma StrayCode()
    ensures var s := START.(slots := [FREE, KeyInfo(31, RELEASE, 0), FREE, FREE]);
            && KeyClicks.Idle(s) && !Packed(s)
            && Run(s, [Key(30, PRESS), Key(30, RELEASE), Key(31, PRESS)]).actions == []
  {
    var s := START.(slots := [FREE, KeyInfo(31, RELEASE, 0), FREE, FREE]);
    NonePressed(s.slots, MAX_KEYS);
    var click := [Key(30, PRESS), Key(30, RELEASE)];
    KeyChords.OneClick(KeyClicks.AtRest(s), 30);
    AnotherKeyTells(s, 30, click, 31);
    assert s.slots[1].code == 31;
    assert click + [Key(31, PRESS)] == [Key(30, PRESS), Key(30, RELEASE), Key(31, PRESS)];
  }

  // In numbers.

  lemma NextEvent(h: Hands, e: Event, es: seq<Event>)
    ensures h.AllReports([e] + es) == h.Reports(e) + h.After(e).AllReports(es)
  {
    assert ([e] + es)[1..] == es;
  }

  lemma TwoEvents(h: Hands, a: Event, b: Event)
    ensures h.AllReports([a, b]) == h.Reports(a) + h.After(a).Reports(b)
  {
    NextEvent(h, a, [b]);
    NextEvent(h.After(a), b, []);
    assert [a, b] == [a] + [b] && [b] == [b] + [];
  }

  lemma ThreeEvents(h: Hands, a: Event, b: Event, c: Event)
    ensures h.AllReports([a, b, c]) == h.Reports(a) + h.After(a).Reports(b) + h.After(a).After(b).Reports(c)
  {
    NextEvent(h, a, [b, c]);
    TwoEvents(h.After(a), b, c);
    assert [a, b, c] == [a] + [b, c];
  }

  /** A key goes down, with value 1, up, with value 0, and another goes down. */
  lemma ClickThenAnother()
    ensures Run(START, [Key(30, 1), Key(30, 0), Key(31, 1)]).actions == [Single(30, 0, 1)]
  {
    var es := [Key(30, 1), Key(30, 0), Key(31, 1)];
    EveryRun(es);
    ThreeEvents(REST, es[0], es[1], es[2]);
  }

  /** A click is told 0.2 seconds after its press, and forgotten after three. */
  lemma ClickInNumbers(tm: int)
    ensures Run(START, [Key(30, 1), Key(30, 0), Poll(tm)]).actions
            == if 200000 <= tm < 3000000 then [Single(30, 0, 1)] else []
  {
    var es := [Key(30, 1), Key(30, 0), Poll(tm)];
    EveryRun(es);
    ThreeEvents(REST, es[0], es[1], es[2]);
  }

  /** A key held is told three seconds after its press. */
  lemma LongPressInNumbers(tm: int)
    ensures Run(START, [Key(30, 1), Poll(tm)]).actions == if 3000000 <= tm then [Long(1)] else []
  {
    var es := [Key(30, 1), Poll(tm)];
    EveryRun(es);
    TwoEvents(REST, es[0], es[1]);
    assert REST.After(es[0]).Clicked() == {30};
  }

  /** Two keys go down and one goes up. */
  lemma ChordInNumbers()
    ensures Run(START, [Key(30, 1), Key(31, 1), Key(30, 0)]).actions == [Multiple(2)]
  {
    var es := [Key(30, 1), Key(31, 1), Key(30, 0)];
    EveryRun(es);
    ThreeEvents(REST, es[0], es[1], es[2]);
    assert |map[30 := Down(1, 1), 31 := Down(1, 1)].Keys| == |{30, 31}| == 2;
  }
}
