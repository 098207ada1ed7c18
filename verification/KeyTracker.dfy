/** The functions of linux/src/key_app.c on the global slots, each proved to take the step of KeyModel. */
module KeyTracker {
  import opened KeyModel
  import opened KeySafety

  class Tracker {
    var key: array<KeyInfo>
    var pressCnt: int
    var keysStatus: int
    var lockCnt: int
    var startTime: int
    var actions: seq<Action>  // the handler calls, which only print

    ghost predicate Valid()
      reads this
    {
      key.Length == MAX_KEYS
    }

    ghost function Abs(): State
      requires Valid()
      reads this, key
    {
      State(key[..], pressCnt, keysStatus, lockCnt, actions)
    }

    constructor ()
      ensures Valid() && fresh(key) && Abs() == START
    {
      key := new KeyInfo[MAX_KEYS](_ => FREE);
      pressCnt, keysStatus, lockCnt, startTime, actions := 0, 0, 0, 0, [];
    }

    method GetKeyInfo(index: nat) returns (i: nat)
      requires Valid()
      ensures i == NthClicked(key[..], index, 0)
    {
      var cnt := 0;
      i := 0;
      ghost var slots := key[..];
      ghost var found := NthClicked(slots, index, 0);
      while i < MAX_KEYS
        invariant 0 <= i <= MAX_KEYS && 0 <= cnt <= index
        invariant found == NthClicked(slots, index - cnt, i)
      {
        assert slots[i] == key[i];
        NextClicked(slots, index - cnt, i);
        if key[i].cnt != 0 {
          if index == cnt {
            break;
          }
          cnt := cnt + 1;
        }
        i := i + 1;
      }
    }

    method GetKeyPressNum() returns (cnt: nat)
      requires Valid()
      ensures cnt == PressNum(key[..])
    {
      cnt := 0;
      for i := 0 to MAX_KEYS
        invariant cnt == PressedIn(key[..], i)
      {
        if key[i].status != RELEASE {
          cnt := cnt + 1;
        }
      }
    }

    method KeysInit()
      requires Valid()
      modifies this`pressCnt, key
      ensures Valid() && Abs() == Init(old(Abs()))
    {
      for i := 0 to MAX_KEYS
        invariant forall k | 0 <= k < i :: key[k] == FREE
      {
        key[i] := FREE;
      }
      pressCnt := 0;
    }

    method KeysBufferOverflowProcess()
      requires Valid()
      modifies this`pressCnt, this`lockCnt, key
      ensures Valid() && Abs() == Step(old(Abs()), Overflow)
    {
      KeysInit();
      lockCnt := 0;
    }

    /** long_key_handle; the copies it takes are of slots that exist. */
    method LongKeyHandle(cnt: nat)
      requires Valid() && cnt <= ClickedIn(key[..], MAX_KEYS)
      modifies this`keysStatus, this`actions
      ensures Abs() == LongKey(old(Abs()), cnt)
    {
      var keyInfo := new KeyInfo[MAX_KEYS](_ => FREE);
      keysStatus := LONG_KEY_PRESS;
      for i := 0 to cnt
        modifies keyInfo
        invariant i > 0 ==> keyInfo[0] == key[NthClicked(key[..], 0, 0)]
      {
        var index := GetKeyInfo(i);
        keyInfo[i] := key[index];
      }
      assert key[..] == old(key[..]);
      ghost var first := NthClicked(key[..], 0, 0);
      assert cnt > 0 ==> first < MAX_KEYS && keyInfo[0] == key[..][first];
      if cnt == 1 && keyInfo[0].cnt != 1 {
        actions := actions + [Single(keyInfo[0].code, keyInfo[0].status, keyInfo[0].cnt)];
      } else if cnt == 0 {
      } else {
        actions := actions + [Long(cnt)];
      }
    }

    method CheckPollTimeout(tm: int)
      requires Valid()
      modifies this`keysStatus, this`actions, key
      ensures Valid() && Abs() == OnPoll(old(Abs()), tm)
    {
      var cnt := 0;
      for i := 0 to MAX_KEYS
        modifies {}
        invariant cnt == ClickedIn(key[..], i)
      {
        if key[i].cnt != 0 {
          cnt := cnt + 1;
        }
      }
      if cnt == 0 {
        return;
      }
      if tm >= KEY_LONG_PRESS_TIME {
        cnt := 0;
        for i := 0 to MAX_KEYS
          modifies {}
          invariant cnt == HeldClickedIn(key[..], i)
        {
          if key[i].cnt != 0 && key[i].status != RELEASE {
            cnt := cnt + 1;
          }
        }
        LongKeyHandle(cnt);
        for i := 0 to MAX_KEYS
          modifies key
          invariant forall k | 0 <= k < MAX_KEYS ::
                      key[k] == if k < i then old(key[k]).(cnt := 0) else old(key[k])
        {
          key[i] := key[i].(cnt := 0);
        }
        assert key[..] == Unclicked(old(key[..]));
      } else if tm >= KEY_CLICK_GAP {
        if cnt == 1 {
          var index := GetKeyInfo(0);
          if index >= MAX_KEYS {
            return;
          } else if key[index].status == RELEASE {
            actions := actions + [Single(key[index].code, key[index].status, key[index].cnt)];
            key[index] := key[index].(cnt := 0);
            key[index] := key[index].(code := 0);
          }
        }
      }
    }

    /** check_key_status, first part: events that should not happen. */
    method ShouldDiscard(code: int, value: int) returns (discard: bool)
      requires Valid()
      ensures discard == Discarded(key[..], code, value)
    {
      var space := 0;
      for count := 0 to MAX_KEYS
        invariant 0 <= space <= count
        invariant space == count <==> forall k | 0 <= k < count :: key[k].code != code
        invariant forall k | 0 <= k < count :: key[k].code == code ==> key[k].status != value
      {
        if key[count].code == code {
          if key[count].status == value {
            assert key[..][count] == key[count];
            return true;
          }
        } else {
          space := space + 1;
        }
      }
      discard := space == MAX_KEYS && value == RELEASE;
    }

    /** check_key_status, second part: the slot of the key, or a free one. */
    method ChooseSlot(code: int) returns (i: nat)
      requires Valid()
      modifies this`actions, key
      ensures Valid() && (Abs(), i) == Place(old(Abs()), code)
    {
      i := 0;
      while i < MAX_KEYS
        modifies {}
        invariant 0 <= i <= MAX_KEYS && FindCode(key[..], code, 0) == FindCode(key[..], code, i)
      {
        if key[i].code == code {
          return;
        }
        i := i + 1;
      }
      i := 0;
      while i < MAX_KEYS
        modifies {}
        invariant 0 <= i <= MAX_KEYS && FindFree(key[..], 0) == FindFree(key[..], i)
      {
        if key[i].code == 0 || key[i].status == RELEASE {
          break;
        }
        i := i + 1;
      }
      if i < MAX_KEYS {
        var pressed := GetKeyPressNum();
        if pressed == 0 {
          var j := GetKeyInfo(0);
          if j < MAX_KEYS {
            actions := actions + [Single(key[j].code, key[j].status, key[j].cnt)];
          }
        }
        key[i] := key[i].(cnt := 0);
      }
    }

    /** check_key_status, third part: what a press or release does to the modes and click counts. */
    method CountClick(i: nat, code: int, value: int, now: int) returns (done: bool)
      requires Valid() && i < MAX_KEYS && value != REPEAT
      modifies this`pressCnt, this`keysStatus, this`startTime, this`actions, key
      ensures Valid() && done == LeavesMultiKeyMode(old(Abs()), value)
      ensures Abs() == if done then Init(old(Abs())) else Click(old(Abs()), i, value)
      ensures var j := PressNum(old(key[..]));
              startTime == if j == 0 || value == PRESS || (old(pressCnt) == 0 && j > 1) then now else old(startTime)
    {
      var j := GetKeyPressNum();
      if j == 0 || value == PRESS {
        startTime := now;
      } else if pressCnt == 0 && j > 1 {
        startTime := now;
        pressCnt := j;
        actions := actions + [Multiple(j)];
        key[i] := key[i].(cnt := 0);
        key[i] := key[i].(code := 0);
      } else if pressCnt != 0 && j >= 1 {
        pressCnt := j - 1;
        key[i] := key[i].(cnt := 0);
        key[i] := key[i].(code := 0);
        if j == 1 {
          KeysInit();
          return true;
        }
      } else if pressCnt == 0 && j == 1 {
        if keysStatus == LONG_KEY_PRESS {
          actions := actions + [LongRelease(key[i].code)];
          keysStatus := 0;
        }
      }
      if key[i].status == RELEASE {
        key[i] := key[i].(cnt := key[i].cnt + if value != 0 then 1 else 0);
      }
      done := false;
    }

    /** check_key_status after the lock count has been adjusted. */
    method HandleKey(code: int, value: int, now: int)
      requires Valid()
      modifies this`pressCnt, this`keysStatus, this`startTime, this`actions, key
      ensures Valid() && Abs() == Handle(old(Abs()), code, value)
      ensures !Discarded(old(key[..]), code, value) ==>
                startTime == if Restarts(old(Abs()), code, value) then now else old(startTime)
    {
      var i := ChooseSlot(code);
      if i == MAX_KEYS {
        return;
      }
      if value != REPEAT {
        var done := CountClick(i, code, value, now);
        if done {
          return;
        }
      }
      key[i] := key[i].(status := value);
      key[i] := key[i].(code := code);
    }

    method CheckKeyStatus(code: int, value: int, now: int)
      requires Valid()
      modifies this`pressCnt, this`keysStatus, this`lockCnt, this`startTime, this`actions, key
      ensures Valid() && Abs() == OnKey(old(Abs()), code, value)
      ensures startTime == if Restarts(old(Abs()), code, value) then now else old(startTime)
    {
      var discard := ShouldDiscard(code, value);
      if discard {
        return;
      }
      ghost var s := Abs();
      if value == PRESS {
        lockCnt := lockCnt + 1;
      } else if value == RELEASE {
        lockCnt := lockCnt - 1;
      }
      LockStandsApart(s, lockCnt, code, value);
      LockKeepsStart(s, lockCnt, code, value);
      HandleKey(code, value, now);
    }

    /** input_keys_analyse, and the overflow branch beside it in input_thread: elapsed times come off the clock. */
    method InputKeysAnalyse(input: Input, now: int)
      requires Valid()
      modifies this`pressCnt, this`keysStatus, this`lockCnt, this`startTime, this`actions, key
      ensures Valid() && Abs() == Step(old(Abs()), EventOf(old(startTime), now, input))
      ensures startTime == StartAfter(old(Abs()), old(startTime), now, input)
    {
      match input {
        case KeyInput(code, value) => CheckKeyStatus(code, value, now);
        case Timeout => CheckPollTimeout(now - startTime);
        case Dropped => KeysBufferOverflowProcess();
      }
    }

    /** input_thread, for as long as the history goes. */
    method InputThread(history: seq<(int, Input)>)
      requires Valid()
      modifies this`pressCnt, this`keysStatus, this`lockCnt, this`startTime, this`actions, key
      ensures Valid() && Abs() == Run(old(Abs()), EventsOf(old(Abs()), old(startTime), history))
      decreases |history|
    {
      if history != [] {
        var (now, input) := history[0];
        ghost var s, start := Abs(), startTime;
        InputKeysAnalyse(input, now);
        InputThread(history[1..]);
        FirstEvent(s, start, history);
      }
    }
  }

  lemma NextClicked(slots: seq<KeyInfo>, index: nat, i: nat)
    requires i < |slots|
    ensures NthClicked(slots, index, i) ==
            if slots[i].cnt == 0 then NthClicked(slots, index, i + 1)
            else if index == 0 then i
            else NthClicked(slots, index - 1, i + 1)
  {
  }

  lemma FirstEvent(s: State, start: int, history: seq<(int, Input)>)
    requires history != []
    ensures var (now, input) := history[0];
            var t, next := Step(s, EventOf(start, now, input)), StartAfter(s, start, now, input);
            Run(s, EventsOf(s, start, history)) == Run(t, EventsOf(t, next, history[1..]))
  {
    var es := EventsOf(s, start, history);
    var (now, input) := history[0];
    var t, next := Step(s, EventOf(start, now, input)), StartAfter(s, start, now, input);
    assert es[1..] == EventsOf(t, next, history[1..]);
  }

  lemma PlaceKeepsLock(s: State, lockCnt: int, code: int)
    ensures var (p, i) := Place(s, code); Place(s.(lockCnt := lockCnt), code) == (p.(lockCnt := lockCnt), i)
  {
  }

  lemma ClickKeepsLock(s: State, lockCnt: int, i: nat, value: int)
    requires i < |s.slots|
    ensures Click(s.(lockCnt := lockCnt), i, value) == Click(s, i, value).(lockCnt := lockCnt)
  {
  }

  lemma LockKeepsStart(s: State, lockCnt: int, code: int, value: int)
    ensures Restarts(s.(lockCnt := lockCnt), code, value) == Restarts(s, code, value)
  {
    PlaceKeepsLock(s, lockCnt, code);
  }

  lemma LockStandsApart(s: State, lockCnt: int, code: int, value: int)
    ensures Handle(s.(lockCnt := lockCnt), code, value) == Handle(s, code, value).(lockCnt := lockCnt)
  {
    PlaceKeepsLock(s, lockCnt, code);
    var (p, i) := Place(s, code);
    if i < |s.slots| {
      ClickKeepsLock(p, lockCnt, i, value);
    }
  }
}
