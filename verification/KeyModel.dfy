/**
  The key-event state machine of linux/src/key_app.c as a step function on values: four slots, click
  counts, multi-key mode and the wake-lock count. Elapsed times arrive with the events.
 */
module KeyModel {
  const MAX_KEYS: nat := 4
  const KEY_CLICK_GAP: int := 200000
  const KEY_LONG_PRESS_TIME: int := 3000000

  // Values of an event, and of a slot's status.
  const RELEASE: int := 0
  const PRESS: int := 1
  const REPEAT: int := 2

  const LONG_KEY_PRESS: int := 2

  datatype KeyInfo = KeyInfo(code: int, status: int, cnt: int)

  /** A call of one of the handlers, which only print. */
  datatype Action =
    | Single(code: int, status: int, cnt: int)
    | Multiple(cnt: int)
    | Long(cnt: int)
    | LongRelease(code: int)

  datatype State = State(slots: seq<KeyInfo>, pressCnt: int, keysStatus: int, lockCnt: int, actions: seq<Action>)

  datatype Event = Key(code: int, value: int) | Poll(tm: int) | Overflow

  const FREE := KeyInfo(0, RELEASE, 0)

  /** The static zero-initialised state. */
  const START := State([FREE, FREE, FREE, FREE], 0, 0, 0, [])

  /** How many of the first n slots are not released. */
  function PressedIn(slots: seq<KeyInfo>, n: nat): (c: nat)
    requires n <= |slots|
    ensures c <= n
  {
    if n == 0 then 0 else PressedIn(slots, n - 1) + if slots[n - 1].status != RELEASE then 1 else 0
  }

  /** get_key_press_num */
  function PressNum(slots: seq<KeyInfo>): nat {
    PressedIn(slots, |slots|)
  }

  /** How many of the first n slots have been clicked. */
  function ClickedIn(slots: seq<KeyInfo>, n: nat): (c: nat)
    requires n <= |slots|
    ensures c <= n
  {
    if n == 0 then 0 else ClickedIn(slots, n - 1) + if slots[n - 1].cnt != 0 then 1 else 0
  }

  /** How many of the first n slots have been clicked and are held. */
  function HeldClickedIn(slots: seq<KeyInfo>, n: nat): (c: nat)
    requires n <= |slots|
    ensures c <= ClickedIn(slots, n)
  {
    if n == 0 then 0
    else HeldClickedIn(slots, n - 1) + if slots[n - 1].cnt != 0 && slots[n - 1].status != RELEASE then 1 else 0
  }

  /** get_key_info, from slot `from` on: the slot of the clicked key number `index`, or |slots|. */
  function NthClicked(slots: seq<KeyInfo>, index: nat, from: nat): (i: nat)
    requires from <= |slots|
    ensures from <= i <= |slots|
    ensures i < |slots| ==> slots[i].cnt != 0 && ClickedIn(slots, i) == ClickedIn(slots, from) + index
    ensures i == |slots| <==> ClickedIn(slots, |slots|) <= ClickedIn(slots, from) + index
    decreases |slots| - from
  {
    if from == |slots| then from
    else if slots[from].cnt == 0 then NthClicked(slots, index, from + 1)
    else if index == 0 then (ClickedMono(slots, from + 1, |slots|); from)
    else NthClicked(slots, index - 1, from + 1)
  }

  lemma {:induction false} ClickedMono(slots: seq<KeyInfo>, m: nat, n: nat)
    requires m <= n <= |slots|
    ensures ClickedIn(slots, m) <= ClickedIn(slots, n)
  {
    if m < n {
      ClickedMono(slots, m, n - 1);
    }
  }

  /** The first slot from `from` on that holds the code, or |slots|. */
  function FindCode(slots: seq<KeyInfo>, code: int, from: nat): (i: nat)
    requires from <= |slots|
    ensures from <= i <= |slots| && (i < |slots| ==> slots[i].code == code)
    ensures forall k | from <= k < i :: slots[k].code != code
    decreases |slots| - from
  {
    if from == |slots| || slots[from].code == code then from else FindCode(slots, code, from + 1)
  }

  predicate IsFree(k: KeyInfo) {
    k.code == 0 || k.status == RELEASE
  }

  /** The first slot from `from` on that may be taken for a new key, or |slots|. */
  function FindFree(slots: seq<KeyInfo>, from: nat): (i: nat)
    requires from <= |slots|
    ensures from <= i <= |slots| && (i < |slots| ==> IsFree(slots[i]))
    ensures forall k | from <= k < i :: !IsFree(slots[k])
    decreases |slots| - from
  {
    if from == |slots| || IsFree(slots[from]) then from else FindFree(slots, from + 1)
  }

  /** keys_init: everything but the status of long presses, which it forgets to reset, and the lock count. */
  function Init(s: State): State {
    s.(slots := [FREE, FREE, FREE, FREE], pressCnt := 0)
  }

  /** The events that check_key_status drops: a status the key already has, and a release of an unknown key. */
  predicate Discarded(slots: seq<KeyInfo>, code: int, value: int) {
    || (exists i | 0 <= i < |slots| :: slots[i].code == code && slots[i].status == value)
    || ((forall i | 0 <= i < |slots| :: slots[i].code != code) && value == RELEASE)
  }

  /** Picks the slot for the event's key; taking a fresh one when no key is down reports the clicks waiting. */
  function Place(s: State, code: int): (r: (State, nat))
    ensures |r.0.slots| == |s.slots| && r.1 <= |s.slots|
  {
    var i := FindCode(s.slots, code, 0);
    if i < |s.slots| then (s, i) else
    var f := FindFree(s.slots, 0);
    if f == |s.slots| then (s, f) else
    var j := NthClicked(s.slots, 0, 0);
    var told := if PressNum(s.slots) == 0 && j < |s.slots|
                then s.(actions := s.actions + [Single(s.slots[j].code, s.slots[j].status, s.slots[j].cnt)])
                else s;
    (told.(slots := s.slots[f := s.slots[f].(cnt := 0)]), f)
  }

  /** The last key that goes up in multi-key mode empties all slots. (Any value but press and repeat counts as
      going up.) */
  predicate LeavesMultiKeyMode(s: State, value: int) {
    value != PRESS && value != REPEAT && s.pressCnt != 0 && PressNum(s.slots) == 1
  }

  /** What a press or release does to slot i before its new status is stored. */
  function Click(s: State, i: nat, value: int): (s': State)
    requires i < |s.slots|
    ensures |s'.slots| == |s.slots|
  {
    var j := PressNum(s.slots);
    var k := s.slots[i];
    var s1 :=
      if j == 0 || value == PRESS then s
      else if s.pressCnt == 0 && j > 1 then
        s.(pressCnt := j, slots := s.slots[i := k.(cnt := 0, code := 0)], actions := s.actions + [Multiple(j)])
      else if s.pressCnt != 0 then
        s.(pressCnt := j - 1, slots := s.slots[i := k.(cnt := 0, code := 0)])
      else if s.keysStatus == LONG_KEY_PRESS then
        s.(keysStatus := 0, actions := s.actions + [LongRelease(k.code)])
      else s;
    var k1 := s1.slots[i];
    if k1.status == RELEASE && value != RELEASE then s1.(slots := s1.slots[i := k1.(cnt := k1.cnt + 1)]) else s1
  }

  /** check_key_status for an event that is not dropped, but for the lock count. */
  function Handle(s: State, code: int, value: int): State {
    var (placed, i) := Place(s, code);
    if i == |s.slots| then s
    else if LeavesMultiKeyMode(placed, value) then Init(placed)
    else
      var clicked := if value == REPEAT then placed else Click(placed, i, value);
      clicked.(slots := clicked.slots[i := clicked.slots[i].(status := value, code := code)])
  }

  /** check_key_status */
  function OnKey(s: State, code: int, value: int): State {
    if Discarded(s.slots, code, value) then s
    else Handle(s, code, value).(
      lockCnt := s.lockCnt + if value == PRESS then 1 else if value == RELEASE then -1 else 0)
  }

  /** long_key_handle, told how many clicked keys are held */
  function LongKey(s: State, cnt: nat): State {
    var s1 := s.(keysStatus := LONG_KEY_PRESS);
    var i := NthClicked(s.slots, 0, 0);
    if cnt == 1 && i < |s.slots| && s.slots[i].cnt != 1
    then s1.(actions := s.actions + [Single(s.slots[i].code, s.slots[i].status, s.slots[i].cnt)])
    else if cnt == 0 then s1
    else s1.(actions := s.actions + [Long(cnt)])
  }

  /** All click counts cleared. */
  function Unclicked(slots: seq<KeyInfo>): (t: seq<KeyInfo>)
    ensures |t| == |slots|
  {
    seq(|slots|, i requires 0 <= i < |slots| => slots[i].(cnt := 0))
  }

  /** check_poll_timeout */
  function OnPoll(s: State, tm: int): State {
    var cnt := ClickedIn(s.slots, |s.slots|);
    if cnt == 0 then s
    else if tm >= KEY_LONG_PRESS_TIME then
      LongKey(s, HeldClickedIn(s.slots, |s.slots|)).(slots := Unclicked(s.slots))
    else if tm >= KEY_CLICK_GAP && cnt == 1 then
      var i := NthClicked(s.slots, 0, 0);
      var k := s.slots[i];
      if k.status == RELEASE
      then s.(actions := s.actions + [Single(k.code, k.status, k.cnt)], slots := s.slots[i := KeyInfo(0, k.status, 0)])
      else s
    else s
  }

  function Step(s: State, e: Event): State {
    match e
    case Key(code, value) => OnKey(s, code, value)
    case Poll(tm) => OnPoll(s, tm)
    case Overflow => Init(s).(lockCnt := 0)
  }

  /** The key events from which check_key_status measures time anew. */
  predicate Restarts(s: State, code: int, value: int) {
    !Discarded(s.slots, code, value) && value != REPEAT
    && var (placed, i) := Place(s, code);
       var j := PressNum(placed.slots);
       i < |s.slots| && (j == 0 || value == PRESS || (placed.pressCnt == 0 && j > 1))
  }

  /** What wakes input_keys_analyse, and when it does, by the clock. */
  datatype Input = KeyInput(code: int, value: int) | Timeout | Dropped

  /** One wake-up: the event with the time elapsed since the start time, and the start time from then on. */
  function EventOf(start: int, now: int, input: Input): Event {
    match input
    case KeyInput(code, value) => Key(code, value)
    case Timeout => Poll(now - start)
    case Dropped => Overflow
  }

  function StartAfter(s: State, start: int, now: int, input: Input): int {
    if input.KeyInput? && Restarts(s, input.code, input.value) then now else start
  }

  /** The events of a whole history, wake-up by wake-up with its time. */
  function EventsOf(s: State, start: int, history: seq<(int, Input)>): (es: seq<Event>)
    decreases |history|
  {
    if history == [] then []
    else
      var (now, input) := history[0];
      var e := EventOf(start, now, input);
      [e] + EventsOf(Step(s, e), StartAfter(s, start, now, input), history[1..])
  }
}
