/**
  The key-event state machine without its slots: what all keys held, clicked and waiting come to in reports, and the
  proof that the tracker does just that from its start, whatever events arrive.
 */
module KeyHands {
  import opened KeyModel
  import opened KeySafety
  import KeyClicks

  /** A key that is down: the value of its last event, and its clicks not yet reported. */
  datatype Down = Down(status: int, cnt: nat)

  /** The clicks of the key that went up last, not yet reported. */
  datatype Waiting = NoClicks | Clicks(code: int, n: nat)

  /** The keys held, the clicks waiting, whether a chord is being let go, and whether a long press has been told. */
  datatype Hands = Hands(held: map<int, Down>, waiting: Waiting, chord: bool, long: bool) {
    /** The clicks that a key going down adds to. */
    function Before(code: int): nat {
      if waiting.Clicks? && waiting.code == code then waiting.n else 0
    }

    /** The keys held whose clicks are not yet reported. */
    function Clicked(): set<int> {
      set c | c in held && held[c].cnt != 0
    }

    function GoesDown(code: int, value: int): Hands {
      if code in held then this.(held := held[code := held[code].(status := value)])
      else if |held| == MAX_KEYS then this
      else this.(held := held[code := Down(value, Before(code) + if value == PRESS then 1 else 0)],
                 waiting := NoClicks)
    }

    function GoesUp(code: int): Hands {
      if code !in held then this
      else if |held| > 1 then this.(held := held - {code}, chord := true)
      else if chord then Hands(map[], NoClicks, false, long)
      else Hands(map[], if held[code].cnt == 0 then NoClicks else Clicks(code, held[code].cnt), false, false)
    }

    function TimesOut(tm: int): Hands {
      if tm >= KEY_LONG_PRESS_TIME && (waiting.Clicks? || Clicked() != {}) then
        Hands(map c | c in held :: held[c].(cnt := 0), NoClicks, chord, true)
      else if tm >= KEY_CLICK_GAP then this.(waiting := NoClicks)
      else this
    }

    function After(e: Event): Hands {
      match e
      case Key(code, value) => if value == RELEASE then GoesUp(code) else GoesDown(code, value)
      case Poll(tm) => TimesOut(tm)
      case Overflow => Hands(map[], NoClicks, false, long)
    }

    /** Another key going down tells the clicks waiting. */
    function ToldByDown(code: int): seq<Action> {
      if waiting.Clicks? && waiting.code != code then [Single(waiting.code, RELEASE, waiting.n)] else []
    }

    /** The first key of a chord going up tells their number, and the end of a long press is told. */
    function ToldByUp(code: int): seq<Action> {
      if code !in held || chord then []
      else if |held| > 1 then [Multiple(|held|)]
      else if long then [LongRelease(code)]
      else []
    }

    ghost function ToldByTimeOut(tm: int): seq<Action> {
      if tm >= KEY_LONG_PRESS_TIME then
        if Clicked() == {} then []
        else if c :| c in Clicked() && Clicked() == {c} && held[c].cnt > 1
        then [Single(c, held[c].status, held[c].cnt)]
        else [Long(|Clicked()|)]
      else if tm >= KEY_CLICK_GAP && waiting.Clicks? then [Single(waiting.code, RELEASE, waiting.n)]
      else []
    }

    ghost function Reports(e: Event): seq<Action> {
      match e
      case Key(code, value) => if value == RELEASE then ToldByUp(code) else ToldByDown(code)
      case Poll(tm) => ToldByTimeOut(tm)
      case Overflow => []
    }

    function AfterAll(es: seq<Event>): Hands
      decreases |es|
    {
      if es == [] then this else After(es[0]).AfterAll(es[1..])
    }

    ghost function AllReports(es: seq<Event>): seq<Action>
      decreases |es|
    {
      if es == [] then [] else Reports(es[0]) + After(es[0]).AllReports(es[1..])
    }

    /** The time counts anew from each press that is noticed and from the first release of a chord. */
    predicate Restarts(code: int, value: int) {
      || (value == PRESS && if code in held then held[code].status == REPEAT else |held| < MAX_KEYS)
      || (value == RELEASE && code in held && !chord && |held| > 1)
    }

    /** The events of a history, each time-out with the time since then. */
    function Timed(history: seq<(int, Input)>, start: int): seq<Event>
      decreases |history|
    {
      if history == [] then []
      else
        var (now, input) := history[0];
        var e := EventOf(start, now, input);
        [e] + After(e).Timed(history[1..], if input.KeyInput? && Restarts(input.code, input.value) then now else start)
    }
  }

  /** No key has ever been touched. */
  const REST := Hands(map[], NoClicks, false, false)

  /** Slots are taken from the front: outside multi-key mode, no slot behind the first remembers a key that is up, and
      none is taken while the first is not. In multi-key mode no key that is up has clicks waiting. */
  predicate Packed(s: State) {
    && |s.slots| == MAX_KEYS
    && (s.pressCnt == 0 ==> forall i | 1 <= i < MAX_KEYS ::
          if s.slots[i].status == RELEASE then s.slots[i].code == 0 && s.slots[i].cnt == 0
          else s.slots[0].status != RELEASE)
    && (s.pressCnt > 0 ==> forall i | 0 <= i < MAX_KEYS :: s.slots[i].status == RELEASE ==> s.slots[i].cnt == 0)
  }

  /** The clicks that wait in the first slot. */
  function WaitingIn(k: KeyInfo): Waiting
    requires k.cnt >= 0
  {
    if k.status == RELEASE && k.cnt > 0 then Clicks(k.code, k.cnt) else NoClicks
  }

  /** The pressed slots hold just these keys. */
  predicate HeldIn(slots: seq<KeyInfo>, held: map<int, Down>)
    requires |slots| == MAX_KEYS
  {
    && held.Keys == PressedCodes(slots, MAX_KEYS)
    && forall i | 0 <= i < MAX_KEYS && slots[i].status != RELEASE ::
         slots[i].cnt >= 0 && held[slots[i].code] == Down(slots[i].status, slots[i].cnt)
  }

  /** The tracker's state is that of these hands. */
  predicate Sees(s: State, h: Hands) {
    && Inv(s) && Packed(s) && HeldIn(s.slots, h.held) && h.waiting == WaitingIn(s.slots[0])
    && (h.chord <==> s.pressCnt > 0) && (h.long <==> s.keysStatus == LONG_KEY_PRESS)
  }

  lemma StartSees()
    ensures Sees(START, REST)
  {
    NonePressed(START.slots, MAX_KEYS);
  }

  lemma HowManyHeld(s: State, h: Hands)
    requires Sees(s, h)
    ensures PressNum(s.slots) == |h.held| <= MAX_KEYS
  {
    CountOfPressedCodes(s.slots, MAX_KEYS);
    assert |h.held| == |h.held.Keys|;
  }

  /** Where a held key is. */
  lemma SlotOfHeld(s: State, h: Hands, code: int) returns (i: nat)
    requires Sees(s, h) && code in h.held
    ensures i < MAX_KEYS && s.slots[i].code == code && s.slots[i].status != RELEASE
    ensures i == FindCode(s.slots, code, 0)
    ensures forall k | 0 <= k < MAX_KEYS && s.slots[k].code == code :: k == i
    ensures h.held[code] == Down(s.slots[i].status, s.slots[i].cnt)
  {
    i :| 0 <= i < MAX_KEYS && s.slots[i].status != RELEASE && s.slots[i].code == code;
  }

  // Keys going down.

  /** One key is held anew or has changed. */
  lemma HeldWith(slots: seq<KeyInfo>, t: seq<KeyInfo>, held: map<int, Down>, i: nat, k: KeyInfo)
    requires |slots| == MAX_KEYS && i < MAX_KEYS && t == slots[i := k]
    requires forall j | 0 <= j < MAX_KEYS :: SlotOk(slots[j])
    requires forall j | 0 <= j < MAX_KEYS :: SlotOk(t[j])
    requires DistinctCodes(slots) && DistinctCodes(t) && HeldIn(slots, held)
    requires k.status != RELEASE && k.cnt >= 0 && (slots[i].status == RELEASE || slots[i].code == k.code)
    ensures HeldIn(t, held[k.code := Down(k.status, k.cnt)])
  {
    CodesAfter(slots, t, i);
    assert held[k.code := Down(k.status, k.cnt)].Keys == held.Keys + {k.code};
  }

  /** One held key has changed. */
  lemma HeldSlotChanges(s: State, t: State, h: Hands, h': Hands, i: nat, k: KeyInfo)
    requires Sees(s, h) && Inv(t) && i < MAX_KEYS && s.slots[i].status != RELEASE
    requires t == s.(slots := s.slots[i := k], lockCnt := t.lockCnt)
    requires k.code == s.slots[i].code && k.status != RELEASE && k.cnt >= 0
    requires h' == h.(held := h.held[k.code := Down(k.status, k.cnt)])
    ensures Sees(t, h')
  {
    HeldWith(s.slots, t.slots, h.held, i, k);
  }

  /** A held key repeats, or is pressed once more after an event was missed. */
  lemma HeldGoesDown(s: State, h: Hands, code: int, value: int)
    requires Sees(s, h) && code != 0 && code in h.held && (value == PRESS || value == REPEAT)
    ensures var t := OnKey(s, code, value); Sees(t, h.GoesDown(code, value)) && t.actions == s.actions
    ensures Restarts(s, code, value) <==> h.Restarts(code, value)
  {
    var t := OnKey(s, code, value);
    var i := SlotOfHeld(s, h, code);
    KeyKeepsInv(s, code, value);
    assert Discarded(s.slots, code, value) <==> s.slots[i].status == value;
    assert Place(s, code) == (s, i);
    if !Discarded(s.slots, code, value) {
      HeldSlotChanges(s, t, h, h.GoesDown(code, value), i, s.slots[i].(status := value));
    } else {
      assert h.GoesDown(code, value).held == h.held;
    }
  }

  /** With no key held, at most the first slot is in use. */
  lemma HandsEmpty(s: State, h: Hands)
    requires Sees(s, h) && h.held == map[]
    ensures s.pressCnt == 0 && PressNum(s.slots) == 0
    ensures forall i | 0 <= i < MAX_KEYS :: s.slots[i].status == RELEASE
    ensures forall i | 1 <= i < MAX_KEYS :: s.slots[i].code == 0 && s.slots[i].cnt == 0
    ensures NthClicked(s.slots, 0, 0) == if h.waiting.Clicks? then 0 else MAX_KEYS
    ensures ClickedIn(s.slots, MAX_KEYS) == if h.waiting.Clicks? then 1 else 0
    ensures HeldClickedIn(s.slots, MAX_KEYS) == 0
  {
    HowManyHeld(s, h);
    KeyClicks.OneClicked(s.slots, 0, MAX_KEYS);
    KeyClicks.FirstClicked(s.slots, 0, 0);
    forall i | 0 <= i < MAX_KEYS ensures s.slots[i].status == RELEASE {
      PressedBound(s.slots, i, MAX_KEYS);
    }
  }

  /** With a key held, no clicks wait. */
  lemma HandsFull(s: State, h: Hands)
    requires Sees(s, h) && h.held != map[]
    ensures PressNum(s.slots) > 0 && h.waiting == NoClicks
    ensures forall i | 0 <= i < MAX_KEYS && s.slots[i].status == RELEASE :: s.slots[i].cnt == 0
    ensures s.pressCnt == 0 ==> s.slots[0].status != RELEASE
  {
    HowManyHeld(s, h);
    var c :| c in h.held;
    var i := SlotOfHeld(s, h, c);
  }

  /** Where a key that is up goes. */
  lemma SlotOfNew(s: State, h: Hands, code: int) returns (i: nat)
    requires Sees(s, h) && code != 0 && code !in h.held && |h.held| < MAX_KEYS
    ensures i == Place(s, code).1 < MAX_KEYS && s.slots[i].status == RELEASE
    ensures s.pressCnt == 0 ==> (i == 0 <==> h.held == map[])
    ensures Place(s, code).0.slots == s.slots[i := s.slots[i].(cnt := h.Before(code))]
    ensures Place(s, code).0.actions == s.actions + h.ToldByDown(code)
  {
    HowManyHeld(s, h);
    PlaceFacts(s, code);
    i := Place(s, code).1;
    forall k | 0 <= k < MAX_KEYS && s.slots[k].status != RELEASE ensures s.slots[k].code != code {
      assert s.slots[k].code in PressedCodes(s.slots, MAX_KEYS);
    }
    if FindFree(s.slots, 0) == MAX_KEYS {
      AllPressed(s.slots, MAX_KEYS);
    }
    if h.held == map[] {
      HandsEmpty(s, h);
    } else {
      HandsFull(s, h);
    }
  }

  /** A key that was up goes down, by its press or by its repeat after events were missed. */
  lemma NewGoesDown(s: State, h: Hands, code: int, value: int)
    requires Sees(s, h) && code != 0 && code !in h.held && |h.held| < MAX_KEYS && (value == PRESS || value == REPEAT)
    ensures var t := OnKey(s, code, value);
            Sees(t, h.GoesDown(code, value)) && t.actions == s.actions + h.ToldByDown(code)
    ensures Restarts(s, code, value) <==> h.Restarts(code, value)
  {
    var t := OnKey(s, code, value);
    var i := SlotOfNew(s, h, code);
    KeyKeepsInv(s, code, value);
    NotDropped(s, h, code, value);
    NewSlot(s, t, h, h.GoesDown(code, value), i,
            KeyInfo(code, value, h.Before(code) + if value == PRESS then 1 else 0));
  }

  lemma NotDropped(s: State, h: Hands, code: int, value: int)
    requires Sees(s, h) && code !in h.held
    ensures Discarded(s.slots, code, value) ==> value == RELEASE
    ensures value == RELEASE ==> Discarded(s.slots, code, value)
  {
    forall k | 0 <= k < MAX_KEYS && s.slots[k].status != RELEASE ensures s.slots[k].code != code {
      assert s.slots[k].code in PressedCodes(s.slots, MAX_KEYS);
    }
  }

  /** A free slot is taken. */
  lemma NewSlot(s: State, t: State, h: Hands, h': Hands, i: nat, k: KeyInfo)
    requires Sees(s, h) && Inv(t) && i < MAX_KEYS && s.slots[i].status == RELEASE
    requires s.pressCnt == 0 ==> (i == 0 <==> h.held == map[])
    requires t == s.(slots := s.slots[i := k], lockCnt := t.lockCnt, actions := t.actions)
    requires k.code !in h.held && k.status != RELEASE && k.cnt >= 0
    requires h' == h.(held := h.held[k.code := Down(k.status, k.cnt)], waiting := NoClicks)
    ensures Sees(t, h')
  {
    HeldWith(s.slots, t.slots, h.held, i, k);
    if h.held == map[] {
      HandsEmpty(s, h);
    } else {
      HandsFull(s, h);
    }
  }

  lemma {:induction false} OneFree(slots: seq<KeyInfo>, i: nat, n: nat)
    requires i < |slots| && n <= |slots| && IsFree(slots[i]) && SlotOk(slots[i])
    ensures PressedIn(slots, n) <= if i < n then n - 1 else n
  {
    if n > 0 {
      OneFree(slots, i, n - 1);
    }
  }

  /** A fifth key finds no slot. */
  lemma NoRoom(s: State, h: Hands, code: int, value: int)
    requires Sees(s, h) && code != 0 && code !in h.held && |h.held| == MAX_KEYS
    requires value == PRESS || value == REPEAT
    ensures var t := OnKey(s, code, value); t == s.(lockCnt := t.lockCnt) && h.ToldByDown(code) == []
    ensures !Restarts(s, code, value)
  {
    HowManyHeld(s, h);
    HandsFull(s, h);
    NotDropped(s, h, code, value);
    if FindCode(s.slots, code, 0) < MAX_KEYS {
      OneFree(s.slots, FindCode(s.slots, code, 0), MAX_KEYS);
    }
    if FindFree(s.slots, 0) < MAX_KEYS {
      OneFree(s.slots, FindFree(s.slots, 0), MAX_KEYS);
    }
  }

  // Keys going up.

  /** A key that is no longer held, outside the end of a chord. */
  lemma HeldSlotFrees(s: State, t: State, h: Hands, i: nat)
    requires Sees(s, h) && Inv(t) && i < MAX_KEYS && s.slots[i].status != RELEASE && |h.held| > 1
    requires t.slots == s.slots[i := KeyInfo(s.slots[i].code, RELEASE, 0)]
    requires t.pressCnt > 0 && t.keysStatus == s.keysStatus
    ensures Sees(t, h.(held := h.held - {s.slots[i].code}, chord := true))
  {
    CodesAfter(s.slots, t.slots, i);
    HandsFull(s, h);
  }

  /** One key of several goes up. */
  lemma ChordGoesUp(s: State, h: Hands, code: int)
    requires Sees(s, h) && code != 0 && code in h.held && |h.held| > 1
    ensures var t := OnKey(s, code, RELEASE);
            Sees(t, h.GoesUp(code)) && t.actions == s.actions + h.ToldByUp(code)
    ensures Restarts(s, code, RELEASE) <==> h.Restarts(code, RELEASE)
  {
    var t := OnKey(s, code, RELEASE);
    var i := SlotOfHeld(s, h, code);
    HowManyHeld(s, h);
    KeyKeepsInv(s, code, RELEASE);
    assert !Discarded(s.slots, code, RELEASE);
    assert Place(s, code) == (s, i);
    HeldSlotFrees(s, t, h, i);
  }

  lemma PressedIsHeld(s: State, h: Hands, i: nat)
    requires Sees(s, h) && i < MAX_KEYS && s.slots[i].status != RELEASE
    ensures s.slots[i].code in h.held
  {
    assert s.slots[i].code in PressedCodes(s.slots, MAX_KEYS);
  }

  /** The only key held goes up outside a chord. */
  lemma OnlySlotFrees(s: State, t: State, h: Hands, code: int)
    requires Sees(s, h) && Inv(t) && s.slots[0].code == code && h.held.Keys == {code}
    requires s.pressCnt == 0 && s.slots[0].status != RELEASE
    requires t.slots == s.slots[0 := s.slots[0].(status := RELEASE)]
    requires t.pressCnt == 0 && t.keysStatus != LONG_KEY_PRESS
    ensures Sees(t, Hands(map[], if h.held[code].cnt == 0 then NoClicks else Clicks(code, h.held[code].cnt),
                          false, false))
  {
    forall i | 1 <= i < MAX_KEYS ensures s.slots[i].status == RELEASE {
      if s.slots[i].status != RELEASE {
        PressedIsHeld(s, h, i);
      }
    }
    CodesAfter(s.slots, t.slots, 0);
  }

  lemma OnlyHeld(s: State, h: Hands, code: int)
    requires Sees(s, h) && code in h.held && |h.held| == 1
    ensures h.held.Keys == {code} && PressNum(s.slots) == 1
    ensures s.pressCnt == 0 ==> s.slots[0].code == code && FindCode(s.slots, code, 0) == 0
  {
    HowManyHeld(s, h);
    HandsFull(s, h);
    OnlyOne(h.held.Keys, code);
    if s.pressCnt == 0 {
      PressedIsHeld(s, h, 0);
    }
  }

  /** The last key goes up. */
  lemma LastGoesUp(s: State, h: Hands, code: int)
    requires Sees(s, h) && code != 0 && code in h.held && |h.held| == 1
    ensures var t := OnKey(s, code, RELEASE);
            Sees(t, h.GoesUp(code)) && t.actions == s.actions + h.ToldByUp(code)
    ensures Restarts(s, code, RELEASE) <==> h.Restarts(code, RELEASE)
  {
    var t := OnKey(s, code, RELEASE);
    var i := SlotOfHeld(s, h, code);
    OnlyHeld(s, h, code);
    KeyKeepsInv(s, code, RELEASE);
    assert !Discarded(s.slots, code, RELEASE);
    assert Place(s, code) == (s, i);
    if s.pressCnt == 0 {
      OnlySlotFrees(s, t, h, code);
    } else {
      NonePressed(t.slots, MAX_KEYS);
    }
  }

  lemma KeySees(s: State, h: Hands, code: int, value: int)
    requires Sees(s, h) && WellFormed(Key(code, value))
    ensures var t := OnKey(s, code, value);
            Sees(t, h.After(Key(code, value))) && t.actions == s.actions + h.Reports(Key(code, value))
    ensures Restarts(s, code, value) <==> h.Restarts(code, value)
  {
    if value == RELEASE {
      if code !in h.held {
        NotDropped(s, h, code, value);
      } else if |h.held| > 1 {
        ChordGoesUp(s, h, code);
      } else {
        LastGoesUp(s, h, code);
      }
    } else if code in h.held {
      HandsFull(s, h);
      HeldGoesDown(s, h, code, value);
    } else if |h.held| < MAX_KEYS {
      NewGoesDown(s, h, code, value);
    } else {
      HowManyHeld(s, h);
      NoRoom(s, h, code, value);
    }
  }

  // Time-outs.

  /** The codes in the first n slots that are held and clicked. */
  function ClickedCodes(slots: seq<KeyInfo>, n: nat): set<int>
    requires n <= |slots|
  {
    set i | 0 <= i < n && slots[i].status != RELEASE && slots[i].cnt != 0 :: slots[i].code
  }

  lemma {:induction false} CountOfClickedCodes(slots: seq<KeyInfo>, n: nat)
    requires n <= |slots| && DistinctCodes(slots) && forall i | 0 <= i < |slots| :: SlotOk(slots[i])
    requires forall i | 0 <= i < n && slots[i].status == RELEASE :: slots[i].cnt == 0
    ensures |ClickedCodes(slots, n)| == HeldClickedIn(slots, n) == ClickedIn(slots, n)
  {
    if n > 0 {
      CountOfClickedCodes(slots, n - 1);
      OneMoreClicked(slots, n);
    }
  }

  lemma OneMoreClicked(slots: seq<KeyInfo>, n: nat)
    requires 0 < n <= |slots| && DistinctCodes(slots) && forall i | 0 <= i < |slots| :: SlotOk(slots[i])
    ensures var before, k := ClickedCodes(slots, n - 1), slots[n - 1];
            if k.status != RELEASE && k.cnt != 0 then k.code !in before && ClickedCodes(slots, n) == before + {k.code}
            else ClickedCodes(slots, n) == before
  {
  }

  lemma HowManyClicked(s: State, h: Hands)
    requires Sees(s, h) && h.held != map[]
    ensures h.Clicked() == ClickedCodes(s.slots, MAX_KEYS)
    ensures |h.Clicked()| == HeldClickedIn(s.slots, MAX_KEYS) == ClickedIn(s.slots, MAX_KEYS)
  {
    HandsFull(s, h);
    CountOfClickedCodes(s.slots, MAX_KEYS);
    forall c | c in h.Clicked() ensures c in ClickedCodes(s.slots, MAX_KEYS) {
      var i := SlotOfHeld(s, h, c);
    }
    forall c | c in ClickedCodes(s.slots, MAX_KEYS) ensures c in h.Clicked() {
      var i :| 0 <= i < MAX_KEYS && s.slots[i].status != RELEASE && s.slots[i].cnt != 0 && s.slots[i].code == c;
      PressedIsHeld(s, h, i);
    }
  }

  /** A time-out while no key is held. */
  lemma EmptyTimesOut(s: State, h: Hands, tm: int)
    requires Sees(s, h) && h.held == map[]
    ensures var t := OnPoll(s, tm); Sees(t, h.TimesOut(tm)) && t.actions == s.actions + h.ToldByTimeOut(tm)
  {
    HandsEmpty(s, h);
    StepKeepsInv(s, Poll(tm));
  }

  lemma SameCodes(a: seq<KeyInfo>, b: seq<KeyInfo>)
    requires |a| == |b| == MAX_KEYS
    requires forall i | 0 <= i < MAX_KEYS :: a[i].code == b[i].code && a[i].status == b[i].status
    ensures PressedCodes(a, MAX_KEYS) == PressedCodes(b, MAX_KEYS)
  {
  }

  /** The clicks of the keys held are cleared. */
  lemma ClicksCleared(s: State, t: State, h: Hands)
    requires Sees(s, h) && Inv(t) && t.slots == Unclicked(s.slots) && t.pressCnt == s.pressCnt
    requires t.keysStatus == LONG_KEY_PRESS && h.held != map[]
    ensures Sees(t, Hands(map c | c in h.held :: h.held[c].(cnt := 0), NoClicks, h.chord, true))
  {
    HandsFull(s, h);
    SameCodes(s.slots, t.slots);
    forall i | 0 <= i < MAX_KEYS && s.slots[i].status != RELEASE ensures s.slots[i].code in h.held {
      PressedIsHeld(s, h, i);
    }
  }

  /** The one key held that has been clicked is the first that is found. */
  lemma TheClicked(s: State, h: Hands, c: int)
    requires Sees(s, h) && h.held != map[] && h.Clicked() == {c}
    ensures var i := NthClicked(s.slots, 0, 0);
            i < MAX_KEYS && s.slots[i].code == c && h.held[c] == Down(s.slots[i].status, s.slots[i].cnt)
  {
    HandsFull(s, h);
    HowManyClicked(s, h);
    var i := NthClicked(s.slots, 0, 0);
    assert s.slots[i].code in ClickedCodes(s.slots, MAX_KEYS);
  }

  /** What is told of a long press. */
  lemma LongTold(s: State, h: Hands, tm: int)
    requires Sees(s, h) && h.held != map[] && h.Clicked() != {} && tm >= KEY_LONG_PRESS_TIME
    ensures LongKey(s, |h.Clicked()|).actions == s.actions + h.ToldByTimeOut(tm)
  {
    if |h.Clicked()| == 1 {
      var c :| c in h.Clicked();
      OnlyOne(h.Clicked(), c);
      TheClicked(s, h, c);
    }
  }

  /** A time-out while keys are held. */
  lemma HeldTimesOut(s: State, h: Hands, tm: int)
    requires Sees(s, h) && h.held != map[]
    ensures var t := OnPoll(s, tm); Sees(t, h.TimesOut(tm)) && t.actions == s.actions + h.ToldByTimeOut(tm)
  {
    HandsFull(s, h);
    HowManyClicked(s, h);
    StepKeepsInv(s, Poll(tm));
    if h.Clicked() != {} && tm >= KEY_LONG_PRESS_TIME {
      LongTold(s, h, tm);
      ClicksCleared(s, OnPoll(s, tm), h);
    }
  }

  /** One event: the tracker reports what the hands say, and sees them as they then are. Its start time moves when
      theirs does. */
  lemma StepSees(s: State, h: Hands, e: Event)
    requires Sees(s, h) && WellFormed(e)
    ensures var t := Step(s, e); Sees(t, h.After(e)) && t.actions == s.actions + h.Reports(e)
    ensures e.Key? ==> (Restarts(s, e.code, e.value) <==> h.Restarts(e.code, e.value))
  {
    match e
    case Key(code, value) => KeySees(s, h, code, value);
    case Poll(tm) =>
      if h.held == map[] {
        EmptyTimesOut(s, h, tm);
      } else {
        HeldTimesOut(s, h, tm);
      }
    case Overflow =>
      NonePressed(Step(s, e).slots, MAX_KEYS);
  }

  /** Any events whatsoever. */
  lemma {:induction false} RunSees(s: State, h: Hands, es: seq<Event>)
    requires Sees(s, h) && forall i | 0 <= i < |es| :: WellFormed(es[i])
    ensures var t := Run(s, es); Sees(t, h.AfterAll(es)) && t.actions == s.actions + h.AllReports(es)
    decreases |es|
  {
    if es != [] {
      StepSees(s, h, es[0]);
      RunSees(Step(s, es[0]), h.After(es[0]), es[1..]);
      KeyClicks.Regroup(s.actions, h.Reports(es[0]), h.After(es[0]).AllReports(es[1..]));
    }
  }

  /** Any history by the clock, from any state that is seen: its events and its reports are those of the hands. */
  lemma {:induction false} HistorySees(s: State, h: Hands, history: seq<(int, Input)>, start: int)
    requires Sees(s, h) && forall i | 0 <= i < |history| :: WellFormed(EventOf(0, 0, history[i].1))
    ensures EventsOf(s, start, history) == h.Timed(history, start)
    ensures forall e | e in h.Timed(history, start) :: WellFormed(e)
    decreases |history|
  {
    if history != [] {
      var (now, input) := history[0];
      var e := EventOf(start, now, input);
      assert WellFormed(EventOf(0, 0, history[0].1));
      StepSees(s, h, e);
      HistorySees(Step(s, e), h.After(e), history[1..], StartAfter(s, start, now, input));
    }
  }

  /** From the start of the tracker, in every run: the reports are those of the hands. */
  lemma EveryRun(es: seq<Event>)
    requires forall i | 0 <= i < |es| :: WellFormed(es[i])
    ensures Run(START, es).actions == REST.AllReports(es) && Sees(Run(START, es), REST.AfterAll(es))
  {
    StartSees();
    RunSees(START, REST, es);
  }

  /** The same for every history by the clock. */
  lemma EveryHistory(history: seq<(int, Input)>, start: int)
    requires forall i | 0 <= i < |history| :: WellFormed(EventOf(0, 0, history[i].1))
    ensures Run(START, EventsOf(START, start, history)).actions == REST.AllReports(REST.Timed(history, start))
  {
    StartSees();
    HistorySees(START, REST, history, start);
    EveryRun(REST.Timed(history, start));
  }
}
