/** What the key-event state machine reports of several keys held together, and what stays behind in its state. */
module KeyChords {
  import opened KeyModel
  import opened KeySafety
  import opened KeyClicks

  /** No key that is up has clicks waiting. */
  predicate Quiet(s: State) {
    forall i | 0 <= i < |s.slots| && s.slots[i].status == RELEASE :: s.slots[i].cnt == 0
  }

  /** Exactly the keys that are down have clicks. */
  predicate JustClicked(s: State) {
    Quiet(s) && forall i | 0 <= i < |s.slots| && s.slots[i].status != RELEASE :: s.slots[i].cnt != 0
  }

  /** When time-outs come: before a limit, or whenever they like, but then no key goes down. */
  datatype Timing = Before(limit: int) | Whenever

  predicate Comes(e: Event, w: Timing) {
    !e.Overflow? && match w
                    case Before(limit) => e.Poll? ==> e.tm < limit
                    case Whenever => !(e.Key? && e.value == PRESS)
  }

  /** Such time-outs do nothing: any before the click gap; if no click waits, any before a long press would be
      noticed; and if there are no clicks at all, any whatsoever. */
  predicate Still(s: State, w: Timing) {
    match w
    case Before(limit) => limit <= KEY_CLICK_GAP || (limit <= KEY_LONG_PRESS_TIME && Quiet(s))
    case Whenever => forall i | 0 <= i < |s.slots| :: s.slots[i].cnt == 0
  }

  lemma PollIsSilent(s: State, tm: int, w: Timing)
    requires Still(s, w) && Comes(Poll(tm), w)
    ensures OnPoll(s, tm) == s
  {
    if w.Whenever? {
      NoneClicked(s.slots, |s.slots|);
    }
  }

  /** A press or repeat while no click waits to be reported, or while a key is down, reports nothing. */
  lemma PressIsSilent(s: State, held: set<int>, code: int, value: int, w: Timing)
    requires Tracks(s, held) && Legal(held, Key(code, value)) && (value == PRESS || value == REPEAT)
    requires Still(s, w) && (Quiet(s) || held != {})
    requires Comes(Key(code, value), w)
    ensures var t := OnKey(s, code, value);
            && t.actions == s.actions && t.keysStatus == s.keysStatus && t.pressCnt == s.pressCnt
            && Still(t, w) && (Quiet(s) ==> Quiet(t)) && (JustClicked(s) ==> JustClicked(t))
  {
    if value == REPEAT {
      var i := SlotOfKnown(s, held, 0, code);
    }
    if !Discarded(s.slots, code, value) {
      KeySlots(s, code, value);
      NothingToTell(s, held);
      PlaceFacts(s, code);
    }
  }

  lemma NothingToTell(s: State, held: set<int>)
    requires Tracks(s, held) && (Quiet(s) || held != {})
    ensures PressNum(s.slots) > 0 || NthClicked(s.slots, 0, 0) == MAX_KEYS
  {
    CountOfPressedCodes(s.slots, MAX_KEYS);
    if PressNum(s.slots) == 0 {
      NonePressedAtAll(s.slots, MAX_KEYS);
      NoneClicked(s.slots, MAX_KEYS);
    }
  }

  lemma {:induction false} NonePressedAtAll(slots: seq<KeyInfo>, n: nat)
    requires n <= |slots| && PressedIn(slots, n) == 0
    ensures forall i | 0 <= i < n :: slots[i].status == RELEASE
  {
    if n > 0 {
      NonePressedAtAll(slots, n - 1);
    }
  }

  /** A release of one of several held keys: the first reports their number and enters multi-key mode, the
      others report nothing, and the last one leaves the mode and empties all slots. */
  lemma MultiKeyRelease(s: State, held: set<int>, code: int)
    requires Tracks(s, held) && code != 0 && code in held && (s.pressCnt > 0 || |held| > 1)
    ensures var t := OnKey(s, code, RELEASE);
            && t.keysStatus == s.keysStatus
            && if s.pressCnt == 0 then t.actions == s.actions + [Multiple(|held|)] && t.pressCnt == |held|
               else if |held| > 1 then t.actions == s.actions && t.pressCnt == |held| - 1
               else t.actions == s.actions && t.pressCnt == 0 && t.slots == START.slots
  {
    var i := SlotOfKnown(s, held, 0, code);
    CountOfPressedCodes(s.slots, MAX_KEYS);
    assert !Discarded(s.slots, code, RELEASE);
    assert Place(s, code) == (s, i);
  }

  lemma ReleaseKeepsStill(s: State, held: set<int>, code: int, w: Timing)
    requires Tracks(s, held) && code != 0 && code in held && (s.pressCnt > 0 || |held| > 1) && Still(s, w)
    ensures Still(OnKey(s, code, RELEASE), w)
  {
    var i := SlotOfKnown(s, held, 0, code);
    CountOfPressedCodes(s.slots, MAX_KEYS);
    assert !Discarded(s.slots, code, RELEASE);
    assert Place(s, code) == (s, i);
  }

  lemma LastIsOut(held: set<int>, code: int)
    requires code in held
    ensures |held - {code}| == |held| - 1 && (|held| == 1 <==> held - {code} == {})
  {
    assert |held| == 1 ==> |held - {code}| == 0;
  }

  /** One event in multi-key mode. */
  lemma SilentStep(s: State, held: set<int>, e: Event, w: Timing)
    requires Tracks(s, held) && held != {} && s.pressCnt > 0 && Still(s, w)
    requires Legal(held, e) && Comes(e, w)
    ensures var t := Step(s, e);
            && t.actions == s.actions && t.keysStatus == s.keysStatus && Still(t, w)
            && if Track(held, e) == {} then t.slots == START.slots && t.pressCnt == 0 else t.pressCnt > 0
  {
    match e
    case Poll(tm) => PollIsSilent(s, tm, w);
    case Key(code, value) =>
      if value == RELEASE {
        MultiKeyRelease(s, held, code);
        ReleaseKeepsStill(s, held, code, w);
        LastIsOut(held, code);
      } else {
        PressIsSilent(s, held, code, value, w);
      }
  }

  /** Keys go down, repeat and go up, until all are up for the first time; time-outs come in time. */
  predicate UntilAllUp(held: set<int>, es: seq<Event>, w: Timing)
    decreases |es|
  {
    if es == [] then held == {}
    else held != {} && Legal(held, es[0]) && Comes(es[0], w) && UntilAllUp(Track(held, es[0]), es[1..], w)
  }

  lemma {:induction false} MultiKeyModeIsSilent(s: State, held: set<int>, es: seq<Event>, w: Timing)
    requires Tracks(s, held) && UntilAllUp(held, es, w) && Still(s, w)
    requires if held == {} then s.slots == START.slots && s.pressCnt == 0 else s.pressCnt > 0
    ensures var t := Run(s, es);
            && t.actions == s.actions && t.keysStatus == s.keysStatus
            && t.slots == START.slots && t.pressCnt == 0 && t.lockCnt == 0
    decreases |es|
  {
    if es == [] {
      CountOfPressedCodes(s.slots, MAX_KEYS);
    } else {
      SilentStep(s, held, es[0], w);
      StepTracks(s, held, es[0]);
      MultiKeyModeIsSilent(Step(s, es[0]), Track(held, es[0]), es[1..], w);
    }
  }

  /** Keys go down one by one and repeat, none goes up; time-outs come in time. */
  predicate BuildsUp(held: set<int>, es: seq<Event>, w: Timing)
    decreases |es|
  {
    es == [] || (Legal(held, es[0]) && Comes(es[0], w) && !(es[0].Key? && es[0].value == RELEASE)
                 && BuildsUp(Track(held, es[0]), es[1..], w))
  }

  lemma {:induction false} BuildUpIsSilent(s: State, held: set<int>, es: seq<Event>, w: Timing)
    requires Tracks(s, held) && BuildsUp(held, es, w) && Still(s, w) && (Quiet(s) || held != {})
    ensures var t, all := Run(s, es), TrackAll(held, es);
            && Tracks(t, all) && Still(t, w) && (Quiet(s) ==> Quiet(t)) && (JustClicked(s) ==> JustClicked(t))
            && t.actions == s.actions && t.keysStatus == s.keysStatus && t.pressCnt == s.pressCnt
    decreases |es|
  {
    if es != [] {
      var e := es[0];
      if e.Poll? {
        PollIsSilent(s, e.tm, w);
      } else {
        PressIsSilent(s, held, e.code, e.value, w);
      }
      StepTracks(s, held, e);
      BuildUpIsSilent(Step(s, e), Track(held, e), es[1..], w);
    }
  }

  lemma {:induction false} RunAppend(s: State, a: seq<Event>, b: seq<Event>)
    ensures Run(s, a + b) == Run(Run(s, a), b)
    decreases |a|
  {
    if a == [] {
      assert a + b == b;
    } else {
      assert (a + b)[1..] == a[1..] + b;
      RunAppend(Step(s, a[0]), a[1..], b);
    }
  }

  /**
    Several keys go down, one of them goes up, and then keys go up and down until all are up: the number of keys
    that were down at the first release is reported once, nothing else is, and in the end all slots are free and
    the lock count is zero. From a state in which no click waits, time-outs may come at any time before a long press.
   */
  lemma ChordIsReportedOnce(s: State, held: set<int>, build: seq<Event>, code: int, rest: seq<Event>, w: Timing)
    requires Tracks(s, held) && s.pressCnt == 0 && Still(s, w) && (Quiet(s) || held != {})
    requires BuildsUp(held, build, w)
    requires var down := TrackAll(held, build);
             |down| > 1 && code != 0 && code in down && UntilAllUp(down - {code}, rest, w)
    ensures var t := Run(s, build + ([Key(code, RELEASE)] + rest));
            && t.actions == s.actions + [Multiple(|TrackAll(held, build)|)] && t.keysStatus == s.keysStatus
            && t.slots == START.slots && t.pressCnt == 0 && t.lockCnt == 0
  {
    var down, m := TrackAll(held, build), Run(s, build);
    BuildUpIsSilent(s, held, build, w);
    MultiKeyRelease(m, down, code);
    ReleaseKeepsStill(m, down, code, w);
    LastIsOut(down, code);
    StepTracks(m, down, Key(code, RELEASE));
    MultiKeyModeIsSilent(Step(m, Key(code, RELEASE)), down - {code}, rest, w);
    RunAppend(s, build, [Key(code, RELEASE)] + rest);
    RunOne(m, Key(code, RELEASE), rest);
  }

  lemma {:induction false} AllDownClicked(slots: seq<KeyInfo>, n: nat)
    requires n <= |slots| && forall i | 0 <= i < n :: slots[i].status != RELEASE <==> slots[i].cnt != 0
    ensures HeldClickedIn(slots, n) == ClickedIn(slots, n) == PressedIn(slots, n)
  {
    if n > 0 {
      AllDownClicked(slots, n - 1);
    }
  }

  /** The time-out of a long chord. */
  lemma LongChordPoll(s: State, held: set<int>, tm: int)
    requires Tracks(s, held) && JustClicked(s) && |held| > 1 && tm >= KEY_LONG_PRESS_TIME
    ensures var t := OnPoll(s, tm);
            && t.actions == s.actions + [Long(|held|)] && t.keysStatus == LONG_KEY_PRESS
            && t.pressCnt == s.pressCnt && Still(t, Whenever)
  {
    CountOfPressedCodes(s.slots, MAX_KEYS);
    AllDownClicked(s.slots, MAX_KEYS);
  }

  /**
    The same for a chord that is held until a time-out takes it for a long press, and then for any time: it is
    reported as a long press and, at its first release, as a chord. But no release is taken for the end of the long
    press, and that status stays behind when all keys are up.
   */
  lemma LongChordLeavesItsStatus(s: State, build: seq<Event>, tm: int, more: seq<Event>, code: int, rest: seq<Event>)
    requires Idle(s) && Tracks(s, {}) && tm >= KEY_LONG_PRESS_TIME
    requires BuildsUp({}, build, Before(KEY_LONG_PRESS_TIME))
    requires var down := TrackAll({}, build);
             && |down| > 1 && code != 0 && code in down && BuildsUp(down, more, Whenever)
             && TrackAll(down, more) == down && UntilAllUp(down - {code}, rest, Whenever)
    ensures var n, t := |TrackAll({}, build)|, Run(s, build + ([Poll(tm)] + (more + ([Key(code, RELEASE)] + rest))));
            && t.actions == s.actions + [Long(n), Multiple(n)]
            && t.slots == START.slots && t.pressCnt == 0 && t.lockCnt == 0 && t.keysStatus == LONG_KEY_PRESS
  {
    var down, m := TrackAll({}, build), Run(s, build);
    NonePressed(s.slots, MAX_KEYS);
    BuildUpIsSilent(s, {}, build, Before(KEY_LONG_PRESS_TIME));
    LongChordPoll(m, down, tm);
    StepTracks(m, down, Poll(tm));
    ChordIsReportedOnce(Step(m, Poll(tm)), down, more, code, rest, Whenever);
    RunAppend(s, build, [Poll(tm)] + (more + ([Key(code, RELEASE)] + rest)));
    RunOne(m, Poll(tm), more + ([Key(code, RELEASE)] + rest));
  }

  lemma TwoKeys(a: int, b: int)
    requires a != b && a != 0 && b != 0
    ensures var build := [Key(a, PRESS), Key(b, PRESS)];
            BuildsUp({}, build, Before(KEY_LONG_PRESS_TIME)) && TrackAll({}, build) == {a, b}
    ensures UntilAllUp({b}, [Key(b, RELEASE)], Whenever)
  {
    var build := [Key(a, PRESS), Key(b, PRESS)];
    assert build[1..] == [Key(b, PRESS)] && build[1..][1..] == [];
    assert {} + {a} == {a} && {a} + {b} == {a, b} && {b} - {b} == {};
    assert TrackAll({a, b}, []) == {a, b};
    assert [Key(b, RELEASE)][1..] == [];
  }

  lemma OneClick(k: OneKey, code: int)
    requires k.status == RELEASE
    ensures var es := [Key(code, PRESS), Key(code, RELEASE)];
            ClickTrain(code, k, es) && Presses(es) == 1 && k.AfterAll(es).status == RELEASE
  {
    var es := [Key(code, PRESS), Key(code, RELEASE)];
    assert es[1..] == [Key(code, RELEASE)] && es[1..][1..] == [];
    assert Presses(es[1..]) == 0;
    assert k.After(es[0]).AfterAll(es[1..]) == k.After(es[0]).After(es[1]);
  }

  lemma LegalStep(held: set<int>, e: Event, held': set<int>, es: seq<Event>)
    requires Legal(held, e) && Track(held, e) == held' && LegalRun(held', es)
    ensures LegalRun(held, [e] + es)
  {
    assert ([e] + es)[1..] == es;
  }

  lemma LegalChord(a: int, b: int, tm: int)
    requires a != b && a != 0 && b != 0
    ensures LegalRun({}, [Key(a, PRESS), Key(b, PRESS), Poll(tm), Key(a, RELEASE), Key(b, RELEASE)])
  {
    LegalStep({b}, Key(b, RELEASE), {}, []);
    LegalStep({a, b}, Key(a, RELEASE), {b}, [Key(b, RELEASE)]);
    LegalStep({a, b}, Poll(tm), {a, b}, [Key(a, RELEASE), Key(b, RELEASE)]);
    LegalStep({a}, Key(b, PRESS), {a, b}, [Poll(tm), Key(a, RELEASE), Key(b, RELEASE)]);
    LegalStep({}, Key(a, PRESS), {a}, [Key(b, PRESS), Poll(tm), Key(a, RELEASE), Key(b, RELEASE)]);
  }

  /** From the start, two keys are held for three seconds and let go. */
  lemma LongChordOfTwo(a: int, b: int)
    requires a != b && a != 0 && b != 0
    ensures Run(START, [Key(a, PRESS), Key(b, PRESS), Poll(KEY_LONG_PRESS_TIME), Key(a, RELEASE), Key(b, RELEASE)])
            == START.(actions := [Long(2), Multiple(2)], keysStatus := LONG_KEY_PRESS)
    ensures Idle(START.(actions := [Long(2), Multiple(2)], keysStatus := LONG_KEY_PRESS))
  {
    var build, rest := [Key(a, PRESS), Key(b, PRESS)], [Key(b, RELEASE)];
    StartTracks();
    TwoKeys(a, b);
    LongChordLeavesItsStatus(START, build, KEY_LONG_PRESS_TIME, [], a, rest);
    assert [Key(a, PRESS), Key(b, PRESS), Poll(KEY_LONG_PRESS_TIME), Key(a, RELEASE), Key(b, RELEASE)]
           == build + ([Poll(KEY_LONG_PRESS_TIME)] + ([] + ([Key(a, RELEASE)] + rest)));
  }

  lemma OneClickReported(s: State, code: int)
    requires Idle(s) && code != 0
    ensures Run(s, [Key(code, PRESS), Key(code, RELEASE), Poll(KEY_CLICK_GAP)]).actions
            == s.actions + (if s.keysStatus == LONG_KEY_PRESS then [LongRelease(code)] else [])
               + [Single(code, RELEASE, 1)]
  {
    var click := [Key(code, PRESS), Key(code, RELEASE)];
    OneClick(AtRest(s), code);
    ClicksAreCounted(s, code, click, KEY_CLICK_GAP);
    assert click + [Poll(KEY_CLICK_GAP)] == [Key(code, PRESS), Key(code, RELEASE), Poll(KEY_CLICK_GAP)];
  }

  lemma ThenOneClick(es: seq<Event>, t: State, code: int)
    requires Run(START, es) == t && Idle(t) && code != 0
    ensures Run(START, es + [Key(code, PRESS), Key(code, RELEASE), Poll(KEY_CLICK_GAP)]).actions
            == t.actions + (if t.keysStatus == LONG_KEY_PRESS then [LongRelease(code)] else [])
               + [Single(code, RELEASE, 1)]
  {
    RunAppend(START, es, [Key(code, PRESS), Key(code, RELEASE), Poll(KEY_CLICK_GAP)]);
    OneClickReported(t, code);
  }

  /** A run of a real keyboard after which a click, of any key, is also reported as the end of a long press. */
  lemma LongReleaseOfAClick(a: int, b: int, c: int)
    requires a != b && a != 0 && b != 0 && c != 0
    ensures var chord := [Key(a, PRESS), Key(b, PRESS), Poll(KEY_LONG_PRESS_TIME), Key(a, RELEASE), Key(b, RELEASE)];
            var click := [Key(c, PRESS), Key(c, RELEASE), Poll(KEY_CLICK_GAP)];
            && LegalRun({}, chord) && Lossless(chord)
            && Run(START, chord) == START.(actions := [Long(2), Multiple(2)], keysStatus := LONG_KEY_PRESS)
            && Run(START, chord + click).actions == [Long(2), Multiple(2), LongRelease(c), Single(c, RELEASE, 1)]
  {
    var chord := [Key(a, PRESS), Key(b, PRESS), Poll(KEY_LONG_PRESS_TIME), Key(a, RELEASE), Key(b, RELEASE)];
    LegalChord(a, b, KEY_LONG_PRESS_TIME);
    LongChordOfTwo(a, b);
    ThenOneClick(chord, START.(actions := [Long(2), Multiple(2)], keysStatus := LONG_KEY_PRESS), c);
  }
}
