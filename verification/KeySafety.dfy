/** What every step of the key-event state machine keeps, and when the lock count is right. */
module KeySafety {
  import opened KeyModel

  /** Events as the input layer delivers them: key codes are not zero. */
  predicate WellFormed(e: Event) {
    e.Key? ==> e.code != 0 && (e.value == RELEASE || e.value == PRESS || e.value == REPEAT)
  }

  predicate SlotOk(k: KeyInfo) {
    && (k.status == RELEASE || k.status == PRESS || k.status == REPEAT)
    && k.cnt >= 0
    && (k.code == 0 ==> k.status == RELEASE)
  }

  predicate DistinctCodes(slots: seq<KeyInfo>) {
    forall i, j | 0 <= i < j < |slots| :: slots[i].code != 0 ==> slots[i].code != slots[j].code
  }

  /** Holds at the start and is kept by every event. */
  predicate Inv(s: State) {
    && |s.slots| == MAX_KEYS
    && (forall i | 0 <= i < |s.slots| :: SlotOk(s.slots[i]))
    && DistinctCodes(s.slots)
    && s.pressCnt >= 0
    && (s.pressCnt > 0 ==> PressNum(s.slots) > 0)
  }

  function Bit(k: KeyInfo): nat {
    if k.status != RELEASE then 1 else 0
  }

  lemma {:induction false} PressedUpdate(slots: seq<KeyInfo>, i: nat, k: KeyInfo, n: nat)
    requires i < |slots| && n <= |slots|
    ensures PressedIn(slots[i := k], n) == PressedIn(slots, n) + if i < n then Bit(k) - Bit(slots[i]) else 0
  {
    if n > 0 {
      PressedUpdate(slots, i, k, n - 1);
    }
  }

  lemma OneChanged(a: seq<KeyInfo>, b: seq<KeyInfo>, i: nat)
    requires |a| == |b| && i < |a| && forall k | 0 <= k < |a| && k != i :: b[k] == a[k]
    ensures PressedIn(b, |b|) == PressedIn(a, |a|) + Bit(b[i]) - Bit(a[i])
  {
    assert b == a[i := b[i]];
    PressedUpdate(a, i, b[i], |a|);
  }

  lemma {:induction false} PressedBound(slots: seq<KeyInfo>, i: nat, n: nat)
    requires i < n <= |slots|
    ensures PressedIn(slots, n) >= Bit(slots[i])
  {
    if i < n - 1 {
      PressedBound(slots, i, n - 1);
    }
  }

  lemma {:induction false} AllPressed(slots: seq<KeyInfo>, n: nat)
    requires n <= |slots| && forall i | 0 <= i < n :: slots[i].status != RELEASE
    ensures PressedIn(slots, n) == n
  {
    if n > 0 {
      AllPressed(slots, n - 1);
    }
  }

  lemma {:induction false} SameStatus(a: seq<KeyInfo>, b: seq<KeyInfo>, n: nat)
    requires n <= |a| == |b| && forall i | 0 <= i < n :: a[i].status == b[i].status
    ensures PressedIn(a, n) == PressedIn(b, n)
  {
    if n > 0 {
      SameStatus(a, b, n - 1);
    }
  }

  lemma {:induction false} NonePressed(slots: seq<KeyInfo>, n: nat)
    requires n <= |slots| && forall i | 0 <= i < n :: slots[i].status == RELEASE
    ensures PressedIn(slots, n) == 0
  {
    if n > 0 {
      NonePressed(slots, n - 1);
    }
  }

  /** How far the lock count is from the number of pressed slots. */
  function Drift(s: State): int {
    s.lockCnt - PressNum(s.slots)
  }

  /**
    How a key event changes that distance. It stays the same except for a press that finds its
    key repeating or finds no free slot (the count goes up alone), and for a repeat that finds its
    key released or unknown with a slot free (a slot becomes pressed alone).
   */
  function Imbalance(s: State, code: int, value: int): int {
    var i := FindCode(s.slots, code, 0);
    var f := FindFree(s.slots, 0);
    if i < |s.slots| then
      if value == PRESS && s.slots[i].status == REPEAT then 1
      else if value == REPEAT && s.slots[i].status == RELEASE then -1
      else 0
    else
      if value == PRESS && f == |s.slots| then 1
      else if value == REPEAT && f < |s.slots| then -1
      else 0
  }

  lemma PlaceFacts(s: State, code: int)
    requires Inv(s) && code != 0
    ensures var (p, i) := Place(s, code);
            && |p.slots| == MAX_KEYS && PressNum(p.slots) == PressNum(s.slots)
            && p.pressCnt == s.pressCnt && p.lockCnt == s.lockCnt && p.keysStatus == s.keysStatus
            && (forall k | 0 <= k < MAX_KEYS ::
                  p.slots[k] == s.slots[k] || (k == i && p.slots[k] == s.slots[k].(cnt := 0)))
            && (forall k | 0 <= k < MAX_KEYS && k != i :: p.slots[k].code != code)
            && (i < MAX_KEYS ==> p.slots[i].code == code || p.slots[i].status == RELEASE)
            && i == if FindCode(s.slots, code, 0) < MAX_KEYS then FindCode(s.slots, code, 0) else FindFree(s.slots, 0)
  {
    var (p, i) := Place(s, code);
    SameStatus(s.slots, p.slots, MAX_KEYS);
  }

  /** The slots after a key event that was neither dropped, nor out of room, nor the end of multi-key mode. */
  lemma ClickFacts(p: State, i: nat, code: int, value: int)
    requires |p.slots| == MAX_KEYS && i < MAX_KEYS && (value == PRESS || value == RELEASE)
    ensures var c := Click(p, i, value);
            && c.lockCnt == p.lockCnt
            && (forall k | 0 <= k < MAX_KEYS && k != i :: c.slots[k] == p.slots[k])
            && c.slots[i].status == p.slots[i].status
            && (p.slots[i].cnt >= 0 ==> c.slots[i].cnt >= 0)
            && (value == PRESS ==> c.pressCnt == p.pressCnt)
            && (p.pressCnt == 0 ==> c.pressCnt == 0 || (c.pressCnt == PressNum(p.slots) && PressNum(p.slots) > 1))
            && (p.pressCnt > 0 && value == RELEASE && PressNum(p.slots) > 0 ==> c.pressCnt == PressNum(p.slots) - 1)
  {
  }

  /** The slot a key event ends up in, and the other slots, when the event is not dropped. */
  lemma KeySlots(s: State, code: int, value: int)
    requires Inv(s) && WellFormed(Key(code, value)) && !Discarded(s.slots, code, value)
    requires !LeavesMultiKeyMode(s, value)
    ensures var (p, i) := Place(s, code); var t := OnKey(s, code, value);
            if i == MAX_KEYS then t.slots == s.slots && t.pressCnt == s.pressCnt
            else
              && |t.slots| == MAX_KEYS
              && t.slots[i].status == value && t.slots[i].code == code && t.slots[i].cnt >= 0
              && (forall k | 0 <= k < MAX_KEYS && k != i :: t.slots[k] == s.slots[k])
              && PressNum(t.slots) == PressNum(s.slots) + (if value != RELEASE then 1 else 0) - Bit(s.slots[i])
  {
    var (p, i) := Place(s, code);
    PlaceFacts(s, code);
    if i < MAX_KEYS {
      if value != REPEAT {
        ClickFacts(p, i, code, value);
      }
      OneChanged(s.slots, OnKey(s, code, value).slots, i);
    }
  }

  /** Dropped events change nothing; all others move the distance by exactly the imbalance. */
  lemma DriftOfKey(s: State, code: int, value: int)
    requires Inv(s) && WellFormed(Key(code, value))
    ensures Drift(OnKey(s, code, value)) ==
            Drift(s) + if Discarded(s.slots, code, value) then 0 else Imbalance(s, code, value)
  {
    if !Discarded(s.slots, code, value) {
      PlaceFacts(s, code);
      if LeavesMultiKeyMode(s, value) {
        NonePressed(Init(s).slots, MAX_KEYS);
      } else {
        KeySlots(s, code, value);
      }
    }
  }

  lemma PressCntFacts(s: State, code: int, value: int)
    requires Inv(s) && WellFormed(Key(code, value)) && !Discarded(s.slots, code, value)
    ensures var t := OnKey(s, code, value); t.pressCnt >= 0 && (t.pressCnt > 0 ==> PressNum(t.slots) > 0)
  {
    var (p, i) := Place(s, code);
    PlaceFacts(s, code);
    if i < MAX_KEYS && !LeavesMultiKeyMode(s, value) {
      KeySlots(s, code, value);
      if value != REPEAT {
        PressedBound(p.slots, i, MAX_KEYS);
        ClickFacts(p, i, code, value);
      }
    }
  }

  lemma KeyKeepsInv(s: State, code: int, value: int)
    requires Inv(s) && WellFormed(Key(code, value))
    ensures Inv(OnKey(s, code, value))
  {
    if !Discarded(s.slots, code, value) {
      PlaceFacts(s, code);
      PressCntFacts(s, code, value);
      if !LeavesMultiKeyMode(s, value) {
        KeySlots(s, code, value);
      }
    }
  }

  lemma PollFacts(s: State, tm: int)
    requires Inv(s)
    ensures var t := OnPoll(s, tm);
            && |t.slots| == MAX_KEYS && t.lockCnt == s.lockCnt && t.pressCnt == s.pressCnt
            && (forall k | 0 <= k < MAX_KEYS :: SlotOk(t.slots[k]) && t.slots[k].status == s.slots[k].status)
            && (forall k | 0 <= k < MAX_KEYS :: t.slots[k].code == s.slots[k].code
                                               || (t.slots[k].code == 0 && t.slots[k].status == RELEASE))
            && PressNum(t.slots) == PressNum(s.slots)
  {
    SameStatus(s.slots, OnPoll(s, tm).slots, MAX_KEYS);
  }

  /** Every event keeps the invariant. */
  lemma StepKeepsInv(s: State, e: Event)
    requires Inv(s) && WellFormed(e)
    ensures Inv(Step(s, e))
  {
    match e
    case Key(code, value) => KeyKeepsInv(s, code, value);
    case Poll(tm) => PollFacts(s, tm);
    case Overflow => 
  }

  function Run(s: State, es: seq<Event>): State
    decreases |es|
  {
    if es == [] then s else Run(Step(s, es[0]), es[1..])
  }

  /** What one event does to the distance between the lock count and the pressed slots: an overflow settles it,
      a key event adds its imbalance. */
  function Entry(s: State, e: Event, d: int): int {
    match e
    case Key(code, value) => d + if Discarded(s.slots, code, value) then 0 else Imbalance(s, code, value)
    case Poll(_) => d
    case Overflow => 0
  }

  lemma EntryIsExact(s: State, e: Event)
    requires Inv(s) && WellFormed(e)
    ensures Drift(Step(s, e)) == Entry(s, e, Drift(s))
  {
    match e
    case Key(code, value) => DriftOfKey(s, code, value);
    case Poll(tm) => PollFacts(s, tm);
    case Overflow => NonePressed(Step(s, e).slots, MAX_KEYS);
  }

  /** The distance kept as a ledger over the events. */
  function Ledger(s: State, es: seq<Event>, d: int): int
    decreases |es|
  {
    if es == [] then d else Ledger(Step(s, es[0]), es[1..], Entry(s, es[0], d))
  }

  /** In every run of well-formed events whatsoever, the ledger is exact. */
  lemma {:induction false} LedgerIsExact(s: State, es: seq<Event>)
    requires Inv(s) && forall i | 0 <= i < |es| :: WellFormed(es[i])
    ensures Inv(Run(s, es)) && Drift(Run(s, es)) == Ledger(s, es, Drift(s))
    decreases |es|
  {
    if es != [] {
      StepKeepsInv(s, es[0]);
      EntryIsExact(s, es[0]);
      LedgerIsExact(Step(s, es[0]), es[1..]);
    }
  }

  // Keys that are physically held.

  function Track(held: set<int>, e: Event): set<int> {
    if e.Key? && e.value == PRESS then held + {e.code}
    else if e.Key? && e.value == RELEASE then held - {e.code}
    else held
  }

  /** What a keyboard may send with at most MAX_KEYS keys held; the input layer may drop events in between. */
  predicate Legal(held: set<int>, e: Event) {
    e.Key? ==>
      e.code != 0 && if e.value == PRESS then e.code !in held && |held| < MAX_KEYS
                     else (e.value == REPEAT || e.value == RELEASE) && e.code in held
  }

  predicate LegalRun(held: set<int>, es: seq<Event>)
    decreases |es|
  {
    es == [] || (Legal(held, es[0]) && LegalRun(Track(held, es[0]), es[1..]))
  }

  predicate Lossless(es: seq<Event>) {
    forall i | 0 <= i < |es| :: !es[i].Overflow?
  }

  function TrackAll(held: set<int>, es: seq<Event>): set<int>
    decreases |es|
  {
    if es == [] then held else TrackAll(Track(held, es[0]), es[1..])
  }

  /** The codes in the first n slots that are not released. */
  function PressedCodes(slots: seq<KeyInfo>, n: nat): set<int>
    requires n <= |slots|
  {
    set i | 0 <= i < n && slots[i].status != RELEASE :: slots[i].code
  }

  lemma {:induction false} CountOfPressedCodes(slots: seq<KeyInfo>, n: nat)
    requires n <= |slots| && DistinctCodes(slots) && forall i | 0 <= i < |slots| :: SlotOk(slots[i])
    ensures |PressedCodes(slots, n)| == PressedIn(slots, n)
  {
    if n > 0 {
      CountOfPressedCodes(slots, n - 1);
      var k := slots[n - 1];
      if k.status != RELEASE {
        assert PressedCodes(slots, n) == PressedCodes(slots, n - 1) + {k.code};
      } else {
        assert PressedCodes(slots, n) == PressedCodes(slots, n - 1);
      }
    }
  }

  /** The tracker knows exactly these keys as pressed, and the lock count is their number plus d. */
  predicate Knows(s: State, known: set<int>, d: int) {
    Inv(s) && PressedCodes(s.slots, MAX_KEYS) == known && s.lockCnt == PressNum(s.slots) + d
  }

  /** The tracker knows exactly the held keys, and the lock count is their number. */
  predicate Tracks(s: State, held: set<int>) {
    Knows(s, held, 0)
  }

  /** No held key moves to another slot, and no other key takes its slot. */
  predicate HeldStay(s: State, t: State, held: set<int>) {
    |s.slots| == |t.slots| == MAX_KEYS
    && forall i | 0 <= i < MAX_KEYS && s.slots[i].status != RELEASE && s.slots[i].code in held ::
         t.slots[i].code == s.slots[i].code && t.slots[i].status != RELEASE
  }

  /** Where a known key is. */
  lemma SlotOfKnown(s: State, known: set<int>, d: int, code: int) returns (i: nat)
    requires Knows(s, known, d) && code in known
    ensures i < MAX_KEYS && s.slots[i].code == code && s.slots[i].status != RELEASE
    ensures i == FindCode(s.slots, code, 0)
    ensures forall k | 0 <= k < MAX_KEYS && s.slots[k].code == code :: k == i
  {
    i :| 0 <= i < MAX_KEYS && s.slots[i].status != RELEASE && s.slots[i].code == code;
  }

  /** With a key to spare, a slot is free. */
  lemma RoomForOneMore(s: State, known: set<int>, d: int)
    requires Knows(s, known, d) && |known| < MAX_KEYS
    ensures FindFree(s.slots, 0) < MAX_KEYS
  {
    CountOfPressedCodes(s.slots, MAX_KEYS);
    if FindFree(s.slots, 0) == MAX_KEYS {
      AllPressed(s.slots, MAX_KEYS);
    }
  }

  /** The pressed codes when one slot has changed. */
  lemma CodesAfter(a: seq<KeyInfo>, b: seq<KeyInfo>, i: nat)
    requires |a| == |b| == MAX_KEYS && i < MAX_KEYS && DistinctCodes(a) && DistinctCodes(b)
    requires forall k | 0 <= k < MAX_KEYS :: SlotOk(a[k]) && SlotOk(b[k])
    requires forall k | 0 <= k < MAX_KEYS && k != i :: b[k] == a[k]
    ensures PressedCodes(b, MAX_KEYS) ==
            PressedCodes(a, MAX_KEYS) - (if a[i].status != RELEASE then {a[i].code} else {})
            + (if b[i].status != RELEASE then {b[i].code} else {})
  {
  }

  lemma PressedIsKnown(s: State, known: set<int>, d: int, k: nat)
    requires Knows(s, known, d) && k < MAX_KEYS && s.slots[k].status != RELEASE
    ensures s.slots[k].code in known
  {
    assert s.slots[k].code in PressedCodes(s.slots, MAX_KEYS);
  }

  lemma NewKeySlot(s: State, known: set<int>, d: int, code: int, value: int) returns (i: nat)
    requires Knows(s, known, d) && code != 0 && code !in known && |known| < MAX_KEYS
    requires value == PRESS || value == REPEAT
    ensures !Discarded(s.slots, code, value)
    ensures i == Place(s, code).1 < MAX_KEYS && s.slots[i].status == RELEASE
  {
    RoomForOneMore(s, known, d);
    forall k | 0 <= k < MAX_KEYS && s.slots[k].status != RELEASE ensures s.slots[k].code != code {
      PressedIsKnown(s, known, d, k);
    }
    PlaceFacts(s, code);
    i := Place(s, code).1;
  }

  /** What is known when one slot has changed. */
  lemma OneSlot(s: State, t: State, known: set<int>, d: int, i: nat)
    requires Knows(s, known, d) && Inv(t) && i < MAX_KEYS
    requires forall k | 0 <= k < MAX_KEYS && k != i :: t.slots[k] == s.slots[k]
    ensures var gone := if s.slots[i].status != RELEASE then {s.slots[i].code} else {};
            && PressedCodes(t.slots, MAX_KEYS)
               == known - gone + (if t.slots[i].status != RELEASE then {t.slots[i].code} else {})
            && HeldStay(s, t, known - gone)
  {
    CodesAfter(s.slots, t.slots, i);
  }

  /** A key that was up is pressed, or an unknown key repeats: it becomes known, in the second case without a lock. */
  lemma NewKeyIsKnown(s: State, known: set<int>, d: int, code: int, value: int)
    requires Knows(s, known, d) && code != 0 && code !in known && |known| < MAX_KEYS
    requires value == PRESS || value == REPEAT
    ensures var t := OnKey(s, code, value);
            Knows(t, known + {code}, if value == PRESS then d else d - 1) && HeldStay(s, t, known)
  {
    var i := NewKeySlot(s, known, d, code, value);
    KeyKeepsInv(s, code, value);
    KeySlots(s, code, value);
    OneSlot(s, OnKey(s, code, value), known, d, i);
  }

  lemma RepeatTracks(s: State, known: set<int>, d: int, code: int)
    requires Knows(s, known, d) && code != 0 && code in known
    ensures var t := OnKey(s, code, REPEAT); Knows(t, known, d) && HeldStay(s, t, known)
  {
    var i := SlotOfKnown(s, known, d, code);
    if !Discarded(s.slots, code, REPEAT) {
      var t := OnKey(s, code, REPEAT);
      KeyKeepsInv(s, code, REPEAT);
      PlaceFacts(s, code);
      KeySlots(s, code, REPEAT);
      OneSlot(s, t, known, d, i);
    }
  }

  lemma ReleaseTracks(s: State, known: set<int>, d: int, code: int)
    requires Knows(s, known, d) && code != 0 && code in known
    ensures var t := OnKey(s, code, RELEASE); Knows(t, known - {code}, d) && HeldStay(s, t, known - {code})
  {
    var t := OnKey(s, code, RELEASE);
    var i := SlotOfKnown(s, known, d, code);
    assert !Discarded(s.slots, code, RELEASE);
    KeyKeepsInv(s, code, RELEASE);
    PlaceFacts(s, code);
    if LeavesMultiKeyMode(s, RELEASE) {
      CountOfPressedCodes(s.slots, MAX_KEYS);
      OnlyOne(known, code);
      NonePressed(t.slots, MAX_KEYS);
    } else {
      KeySlots(s, code, RELEASE);
      OneSlot(s, t, known, d, i);
    }
  }

  lemma OnlyOne(held: set<int>, code: int)
    requires code in held && |held| == 1
    ensures held == {code}
  {
    assert |held - {code}| == 0;
  }

  /** The release of an unknown key is dropped. */
  lemma UnknownRelease(s: State, known: set<int>, d: int, code: int)
    requires Knows(s, known, d) && code !in known
    ensures OnKey(s, code, RELEASE) == s
  {
    forall k | 0 <= k < MAX_KEYS && s.slots[k].status != RELEASE ensures s.slots[k].code != code {
      PressedIsKnown(s, known, d, k);
    }
  }

  lemma PollTracks(s: State, known: set<int>, d: int, tm: int)
    requires Knows(s, known, d)
    ensures var t := OnPoll(s, tm); Knows(t, known, d) && HeldStay(s, t, known)
  {
    PollFacts(s, tm);
    StepKeepsInv(s, Poll(tm));
    var t := OnPoll(s, tm);
    assert PressedCodes(t.slots, MAX_KEYS) == PressedCodes(s.slots, MAX_KEYS);
  }

  /** One event of a real keyboard. */
  lemma StepTracks(s: State, held: set<int>, e: Event)
    requires Tracks(s, held) && Legal(held, e) && !e.Overflow?
    ensures Tracks(Step(s, e), Track(held, e)) && HeldStay(s, Step(s, e), Track(held, e))
  {
    match e
    case Key(code, value) =>
      if value == PRESS {
        NewKeyIsKnown(s, held, 0, code, PRESS);
      } else if value == REPEAT {
        RepeatTracks(s, held, 0, code);
      } else {
        ReleaseTracks(s, held, 0, code);
      }
    case Poll(tm) =>
      PollTracks(s, held, 0, tm);
  }

  /** In every run of a real keyboard in which no event is lost, interleaved with polls at any times: the pressed
      slots are exactly the held keys, and the lock count is their number. */
  lemma {:induction false} RunTracks(s: State, held: set<int>, es: seq<Event>)
    requires Tracks(s, held) && LegalRun(held, es) && Lossless(es)
    ensures Tracks(Run(s, es), TrackAll(held, es)) && Run(s, es).lockCnt == |TrackAll(held, es)|
    decreases |es|
  {
    if es == [] {
      CountOfPressedCodes(s.slots, MAX_KEYS);
    } else {
      assert !es[0].Overflow?;
      StepTracks(s, held, es[0]);
      RunTracks(Step(s, es[0]), Track(held, es[0]), es[1..]);
    }
  }

  lemma StartTracks()
    ensures Tracks(START, {})
  {
    NonePressed(START.slots, MAX_KEYS);
  }

  // A real keyboard whose events may be lost.

  /** The keys held, those of them the tracker has lost sight of in an overflow, and the drift of the lock count. */
  datatype Keyboard = Keyboard(held: set<int>, lost: set<int>, drift: int) {
    predicate Valid() {
      lost <= held && |held| <= MAX_KEYS
    }

    function Known(): set<int> {
      held - lost
    }

    /** An overflow settles the drift and loses all keys; a lost key is found again by its repeat, at the price of
        a lock, or let go. */
    function After(e: Event): Keyboard {
      match e
      case Overflow => Keyboard(held, held, 0)
      case Poll(_) => this
      case Key(code, value) =>
        Keyboard(Track(held, e), lost - {code}, if value == REPEAT && code in lost then drift - 1 else drift)
    }

    function AfterAll(es: seq<Event>): Keyboard
      decreases |es|
    {
      if es == [] then this else After(es[0]).AfterAll(es[1..])
    }
  }

  lemma {:induction false} SizeOfPart(a: set<int>, b: set<int>)
    requires a <= b
    ensures |a| <= |b|
  {
    assert b == a + (b - a);
  }

  lemma KeyboardStaysValid(k: Keyboard, e: Event)
    requires k.Valid() && Legal(k.held, e)
    ensures k.After(e).Valid()
  {
    if e.Key? && e.value == RELEASE {
      SizeOfPart(k.held - {e.code}, k.held);
    }
  }

  /** The keys known after a key event: the tracker finds a lost key by its repeat. */
  lemma KnownAfterKey(k: Keyboard, code: int, value: int)
    requires k.Valid() && Legal(k.held, Key(code, value))
    ensures k.After(Key(code, value)).Known() ==
            if value == RELEASE then k.Known() - {code} else k.Known() + {code}
    ensures value != RELEASE && code !in k.Known() ==> |k.Known()| < MAX_KEYS
  {
    if value == REPEAT {
      SizeOfPart(k.Known() - {code}, k.held - {code});
    } else {
      SizeOfPart(k.Known(), k.held);
    }
  }

  lemma KeyFollows(s: State, known: set<int>, d: int, code: int, value: int)
    requires Knows(s, known, d) && code != 0 && (value == PRESS || value == REPEAT || value == RELEASE)
    requires value == PRESS ==> code !in known
    requires value != RELEASE && code !in known ==> |known| < MAX_KEYS
    ensures Knows(OnKey(s, code, value), if value == RELEASE then known - {code} else known + {code},
                  if value == REPEAT && code !in known then d - 1 else d)
  {
    if value == RELEASE {
      if code in known {
        ReleaseTracks(s, known, d, code);
      } else {
        UnknownRelease(s, known, d, code);
        assert known - {code} == known;
      }
    } else if code in known {
      RepeatTracks(s, known, d, code);
      assert known + {code} == known;
    } else {
      NewKeyIsKnown(s, known, d, code, value);
    }
  }

  lemma StepFollows(s: State, k: Keyboard, e: Event)
    requires k.Valid() && Legal(k.held, e) && Knows(s, k.Known(), k.drift)
    ensures var k' := k.After(e); Knows(Step(s, e), k'.Known(), k'.drift)
  {
    match e
    case Poll(tm) => PollTracks(s, k.Known(), k.drift, tm);
    case Overflow =>
      NonePressed(Step(s, e).slots, MAX_KEYS);
      assert k.After(e).Known() == {};
    case Key(code, value) =>
      KnownAfterKey(k, code, value);
      KeyFollows(s, k.Known(), k.drift, code, value);
  }

  /** In every run of a real keyboard, with polls and overflows anywhere: the pressed slots are the held keys that
      are not lost, and the lock count is their number plus the drift. */
  lemma {:induction false} RunFollows(s: State, k: Keyboard, es: seq<Event>)
    requires k.Valid() && LegalRun(k.held, es) && Knows(s, k.Known(), k.drift)
    ensures var k' := k.AfterAll(es);
            && k'.Valid() && k'.held == TrackAll(k.held, es)
            && Knows(Run(s, es), k'.Known(), k'.drift) && Run(s, es).lockCnt == |k'.Known()| + k'.drift
    decreases |es|
  {
    if es == [] {
      CountOfPressedCodes(s.slots, MAX_KEYS);
    } else {
      StepFollows(s, k, es[0]);
      KeyboardStaysValid(k, es[0]);
      RunFollows(Step(s, es[0]), k.After(es[0]), es[1..]);
    }
  }

  /** The value of the first event of the key, if there is one. */
  function FirstValue(es: seq<Event>, code: int): (v: int)
    decreases |es|
  {
    if es == [] then -1
    else if es[0].Key? && es[0].code == code then es[0].value
    else FirstValue(es[1..], code)
  }

  /** The keys of `held` whose first event is not a release. */
  function NotReleasedFirst(held: set<int>, es: seq<Event>): set<int> {
    set c | c in held && FirstValue(es, c) != RELEASE
  }

  /** What is missing after a run without overflow: a key lost before it is made up for only by its release. */
  lemma {:induction false} Deficit(k: Keyboard, es: seq<Event>)
    requires k.Valid() && LegalRun(k.held, es) && Lossless(es)
    ensures var k' := k.AfterAll(es); k'.drift - |k'.lost| == k.drift - |NotReleasedFirst(k.lost, es)|
    decreases |es|
  {
    var missing := NotReleasedFirst(k.lost, es);
    if es == [] {
      assert missing == k.lost;
    } else {
      var e, k1, rest := es[0], k.After(es[0]), es[1..];
      assert !e.Overflow?;
      KeyboardStaysValid(k, e);
      Deficit(k1, rest);
      var left := NotReleasedFirst(k1.lost, rest);
      if e.Key? && e.code in k.lost {
        assert e.code !in left;
        if e.value == RELEASE {
          assert missing == left;
        } else {
          assert missing == left + {e.code};
        }
      } else {
        assert k1.lost == k.lost;
        assert missing == left;
      }
    }
  }

  /** After the last overflow, said of the events alone: the lock count is the number of keys held, less the
      number of keys held at the overflow whose first event since was not their release. */
  lemma LockAfterOverflow(s: State, held: set<int>, es: seq<Event>)
    requires Inv(s) && |held| <= MAX_KEYS && LegalRun(held, es) && Lossless(es)
    ensures var t := Run(s, [Overflow] + es);
            && Inv(t) && PressedCodes(t.slots, MAX_KEYS) <= TrackAll(held, es)
            && t.lockCnt == |TrackAll(held, es)| - |NotReleasedFirst(held, es)|
  {
    var k := Keyboard(held, held, 0);
    var t := Step(s, Overflow);
    NonePressed(t.slots, MAX_KEYS);
    RunFollows(t, k, es);
    Deficit(k, es);
    var k' := k.AfterAll(es);
    assert k'.held == k'.lost + k'.Known();
    RunOne(s, Overflow, es);
  }

  lemma RunOne(s: State, e: Event, es: seq<Event>)
    ensures Run(s, [e] + es) == Run(Step(s, e), es)
  {
    assert ([e] + es)[1..] == es;
  }

  /** For example: a key is held over an overflow, repeats and is let go. Its repeat takes a slot without a lock, and
      its release then gives back a lock that was never taken. */
  lemma OverflowThenRepeat(code: int)
    requires code != 0
    ensures var t := Run(START, [Key(code, PRESS)] + ([Overflow] + [Key(code, REPEAT), Key(code, RELEASE)]));
            t.lockCnt == -1 && PressNum(t.slots) == 0
  {
    var s, es := Step(START, Key(code, PRESS)), [Key(code, REPEAT), Key(code, RELEASE)];
    StartTracks();
    StepKeepsInv(START, Key(code, PRESS));
    assert es[1..] == [Key(code, RELEASE)] && es[1..][1..] == [];
    assert {code} - {code} == {} && TrackAll({}, []) == {};
    assert NotReleasedFirst({code}, es) == {code};
    LockAfterOverflow(s, {code}, es);
    CountOfPressedCodes(Run(s, [Overflow] + es).slots, MAX_KEYS);
    RunOne(START, Key(code, PRESS), [Overflow] + es);
  }
}
