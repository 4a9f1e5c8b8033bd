/** Input stage zero of the keyboard: raw events, with the modifiers mask the
    input keyboard had just before each, become events that press and release
    every key in turn.  Presses and releases the caller missed are inferred from
    the mask. */
module KeyboardModifiers {
  import opened KeyboardTime
  import opened KeyboardEvents

  const MODIFIER_NONE := -1
  const MODIFIER_MAX := 7

  /** How a key is pressed in this stage, if it is. */
  datatype How = Up | ByUser | ByAuto

  /** The public event types, and the two this stage infers. */
  datatype EventType = ReleaseUser | PressUser | ReleaseAuto | PressAuto

  predicate IsPress(type_: EventType) { type_.PressUser? || type_.PressAuto? }

  /** The release that undoes a press. */
  function ReleaseOf(how: How): EventType {
    if how.ByAuto? then ReleaseAuto else ReleaseUser
  }

  datatype RawEvent = RawEvent(press: bool, modifiers: set<int>, key: Keysym, keycode: int, time: Time)

  /** Which keysyms are attached to which modifiers.  The keys of `modifierOf`
      are the keysyms the buffer has any state for. */
  datatype Attachments = Attachments(have: set<int>, modkeys: map<int, seq<Keysym>>,
                                     modifierOf: map<Keysym, int>, passthrough: bool)
  {
    function ModKeys(m: int): seq<Keysym> { if m in modkeys then modkeys[m] else [] }

    /** The modifier a keysym is attached to, if this stage has modifier information. */
    function ModifierOf(key: Keysym): int {
      if have != {} && key in modifierOf then modifierOf[key] else MODIFIER_NONE
    }

    /** The lists and the keysyms agree. */
    ghost predicate Valid() {
      && (forall m :: m in have ==> 0 <= m <= MODIFIER_MAX)
      && modkeys.Keys == have
      && (forall m, i :: m in have && 0 <= i < |ModKeys(m)| ==> ModifierOf(ModKeys(m)[i]) == m)
      && (forall key :: key in modifierOf && modifierOf[key] != MODIFIER_NONE ==>
            modifierOf[key] in have && key in ModKeys(modifierOf[key]))
      && KEYVAL_UNDEF !in modifierOf
    }
  }

  datatype KeyState = KeyState(how: How, pressTime: Time)

  datatype State = State(keys: map<Keysym, KeyState>, modifiers: set<int>, keycodes: map<int, Keysym>,
                         calls: seq<KeyEvent>, direct: seq<KeyEvent>)
  {
    function Key(key: Keysym): KeyState { if key in keys then keys[key] else KeyState(Up, UNDEF) }

    predicate Pressed(key: Keysym) { Key(key).how != Up }
  }

  const INITIAL := State(map[], {}, map[], [], [])

  // ---------------------------------------------------------------- the bottom half

  /** When the release was that must have come before a second press. */
  function PseudoTime(pressTime: Time, time: Time): Time {
    var t := EventTimeDiff(pressTime, SHORTEST_DOUBLE_MSEC);
    if EventTimeSubtract(t, time) <= 0 then EventTimeDiff(time, -1) else t
  }

  function Call(s: State, key: Keysym, time: Time): State {
    s.(calls := s.calls + [KeyEvent(key, s.Pressed(key), time)])
  }

  function Press(a: Attachments, s: State, key: Keysym, how: How, time: Time): State {
    var m := a.ModifierOf(key);
    Call(s.(keys := s.keys[key := KeyState(how, time)],
            modifiers := if m != MODIFIER_NONE then s.modifiers + {m} else s.modifiers), key, time)
  }

  function Release(a: Attachments, s: State, key: Keysym, time: Time): State {
    var m := a.ModifierOf(key);
    var s1 := s.(keys := s.keys[key := s.Key(key).(how := Up)]);
    Call(s1.(modifiers := if m != MODIFIER_NONE && AllUp(s1, a.ModKeys(m)) then s.modifiers - {m} else s.modifiers),
         key, time)
  }

  predicate AllUp(s: State, keys: seq<Keysym>) {
    forall i :: 0 <= i < |keys| ==> !s.Pressed(keys[i])
  }

  /** The state a press meets: a keysym that is pressed already is released first. */
  function AtPress(a: Attachments, s: State, key: Keysym, time: Time): State {
    if s.Pressed(key) then Release(a, s, key, PseudoTime(s.Key(key).pressTime, time)) else s
  }

  function Bottom(a: Attachments, s: State, key: Keysym, type_: EventType, time: Time): State {
    if IsPress(type_) then
      Press(a, AtPress(a, s, key, time), key, if type_.PressUser? then ByUser else ByAuto, time)
    else if s.Pressed(key) then Release(a, s, key, time)
    else s
  }

  // ---------------------------------------------------------------- the top half

  function ReleaseFrom(a: Attachments, s: State, keys: seq<Keysym>, time: Time): State
    decreases |keys|
  {
    if keys == [] then s
    else
      var s1 := if s.Pressed(keys[0]) then Bottom(a, s, keys[0], ReleaseOf(s.Key(keys[0]).how), time) else s;
      ReleaseFrom(a, s1, keys[1..], time)
  }

  function ClearFrom(a: Attachments, s: State, clear: set<int>, m: int, time: Time): State
    decreases MODIFIER_MAX + 1 - m
  {
    if m > MODIFIER_MAX then s
    else ClearFrom(a, if m in clear then ReleaseFrom(a, s, a.ModKeys(m), time) else s, clear, m + 1, time)
  }

  function SetFrom(a: Attachments, s: State, toSet: set<int>, m: int, time: Time): State
    decreases MODIFIER_MAX + 1 - m
  {
    if m > MODIFIER_MAX then s
    else SetFrom(a, if m in toSet && a.ModKeys(m) != [] then Bottom(a, s, a.ModKeys(m)[0], PressAuto, time) else s,
                 toSet, m + 1, time)
  }

  /** Brings the mask to the one the event carries, key by key. */
  function Synchronize(a: Attachments, s: State, modifiers: set<int>, time: Time): State {
    var toClear := (s.modifiers - modifiers) * a.have;
    var toSet := (modifiers - s.modifiers) * a.have;
    SetFrom(a, ClearFrom(a, s, toClear, 0, time), toSet, 0, time)
  }

  /** Releases another keysym that holds the event's keycode, and records who
      holds it now. */
  function TakeKeycode(a: Attachments, s: State, e: RawEvent): State {
    var s1 :=
      if e.keycode in s.keycodes && s.keycodes[e.keycode] != e.key && s.Pressed(s.keycodes[e.keycode]) then
        var other := s.keycodes[e.keycode];
        Bottom(a, s, other, ReleaseOf(s.Key(other).how), EventTimeDiff(e.time, -1))
      else s;
    s1.(keycodes := if e.press then s1.keycodes[e.keycode := e.key] else s1.keycodes - {e.keycode})
  }

  function Synchronized(a: Attachments, s: State, e: RawEvent): State {
    if a.have != {} then Synchronize(a, s, e.modifiers, EventTimeDiff(e.time, -1)) else s
  }

  /** The state the bottom half meets with the event itself. */
  function BeforeBottom(a: Attachments, s: State, e: RawEvent): State {
    var s1 := Synchronized(a, s, e);
    if e.keycode != KEYVAL_UNDEF then TakeKeycode(a, s1, e) else s1
  }

  function Top(a: Attachments, s: State, e: RawEvent): State {
    var s1 := Synchronized(a, s, e);
    if e.key == KEYVAL_UNDEF then s1
    else if e.key !in a.modifierOf then
      if a.passthrough then s1.(direct := s1.direct + [KeyEvent(e.key, e.press, e.time)]) else s1
    else
      Bottom(a, BeforeBottom(a, s, e), e.key, if e.press then PressUser else ReleaseUser, e.time)
  }

  // ---------------------------------------------------------------- the asserts that can fail

  /** The assert that a modifier the event has and the stage missed has a keysym
      that can be pressed for it. */
  predicate CanSynchronize(a: Attachments, s: State, modifiers: set<int>) {
    forall m :: m in (modifiers - s.modifiers) * a.have ==> a.ModKeys(m) != []
  }

  /** The assert that, at a press, the mask is the event's. */
  predicate MaskAgrees(a: Attachments, s: State, e: RawEvent) {
    e.press && e.key in a.modifierOf ==>
      AtPress(a, BeforeBottom(a, s, e), e.key, e.time).modifiers == e.modifiers
  }

  /** The stage goes on, or an assert has stopped the program. */
  datatype Outcome = Ran(state: State) | Aborted

  function Step(a: Attachments, s: State, e: RawEvent): Outcome {
    if CanSynchronize(a, s, e.modifiers) && MaskAgrees(a, s, e) then Ran(Top(a, s, e)) else Aborted
  }

  function Run(a: Attachments, events: seq<RawEvent>): Outcome {
    if events == [] then Ran(INITIAL)
    else
      var before := Run(a, events[..|events| - 1]);
      if before.Aborted? then Aborted else Step(a, before.state, events[|events| - 1])
  }

  // ---------------------------------------------------------------- what every step keeps

  /** Some keysym attached to the modifier is pressed. */
  ghost predicate Held(a: Attachments, s: State, m: int) {
    exists key :: a.ModifierOf(key) == m && s.Pressed(key)
  }

  ghost predicate MaskExact(a: Attachments, s: State) {
    && s.modifiers <= a.have
    && forall m :: m in a.have ==> (m in s.modifiers <==> Held(a, s, m))
  }

  /** The next stage has been told of every change, and of nothing else. */
  ghost predicate CallsExact(s: State) {
    && Alternating(s.calls)
    && Timed(s.calls)
    && forall key :: Down(s.calls, key) == s.Pressed(key)
  }

  ghost predicate KeysKnown(a: Attachments, s: State) {
    && (forall key :: key in s.keys ==> key in a.modifierOf)
    && (forall c :: c in s.keycodes ==> s.keycodes[c] in a.modifierOf)
    && (forall e :: e in s.calls ==> e.key in a.modifierOf)
  }

  ghost predicate Inv(a: Attachments, s: State) {
    MaskExact(a, s) && CallsExact(s) && KeysKnown(a, s)
  }

  lemma CallKeeps(s: State, s1: State, key: Keysym, time: Time)
    requires CallsExact(s) && time != UNDEF
    requires s1.calls == s.calls && s1.Pressed(key) != s.Pressed(key)
    requires forall k :: k != key ==> s1.Pressed(k) == s.Pressed(k)
    ensures CallsExact(Call(s1, key, time))
  {
    var e := KeyEvent(key, s1.Pressed(key), time);
    AlternatingAppend(s.calls, e);
    forall k ensures Down(s.calls + [e], k) == s1.Pressed(k) {
      DownAppend(s.calls, e, k);
    }
  }

  /** Nothing has changed but one key and its modifier. */
  ghost predicate Elsewhere(a: Attachments, s: State, s': State, key: Keysym) {
    && (forall k :: k != key ==> s'.Key(k) == s.Key(k))
    && (forall m :: m != a.ModifierOf(key) ==> (m in s'.modifiers <==> m in s.modifiers))
    && s'.keycodes == s.keycodes && s'.direct == s.direct
  }

  lemma PressKeeps(a: Attachments, s: State, key: Keysym, how: How, time: Time)
    requires a.Valid() && Inv(a, s) && key in a.modifierOf && time != UNDEF
    requires !s.Pressed(key) && how != Up
    ensures var s' := Press(a, s, key, how, time);
      Inv(a, s') && s'.Pressed(key) && Elsewhere(a, s, s', key)
  {
    var s' := Press(a, s, key, how, time);
    var s1 := s'.(calls := s.calls);
    CallKeeps(s, s1, key, time);
    assert s' == Call(s1, key, time);
    forall m | m in a.have ensures m in s'.modifiers <==> Held(a, s', m) {
      if m == a.ModifierOf(key) {
        assert s'.Pressed(key);
      } else if m in s.modifiers {
        var k :| a.ModifierOf(k) == m && s.Pressed(k);
        assert s'.Pressed(k);
      }
    }
  }

  lemma ReleaseKeeps(a: Attachments, s: State, key: Keysym, time: Time)
    requires a.Valid() && Inv(a, s) && key in a.modifierOf && time != UNDEF
    requires s.Pressed(key)
    ensures var s' := Release(a, s, key, time);
      Inv(a, s') && !s'.Pressed(key) && Elsewhere(a, s, s', key)
  {
    var s' := Release(a, s, key, time);
    var s1 := s'.(calls := s.calls);
    CallKeeps(s, s1, key, time);
    assert s' == Call(s1, key, time);
    var m0 := a.ModifierOf(key);
    assert forall k :: s'.Pressed(k) == (k != key && s.Pressed(k));
    if m0 != MODIFIER_NONE {
      ReleasedMask(a, s', m0);
    }
    forall m | m in a.have && m != m0 ensures m in s'.modifiers <==> Held(a, s', m) {
      if m in s.modifiers {
        var k :| a.ModifierOf(k) == m && s.Pressed(k);
        assert s'.Pressed(k);
      }
    }
  }

  /** The search through a modifier's list finds a pressed keysym iff there is one. */
  lemma ReleasedMask(a: Attachments, s: State, m: int)
    requires a.Valid() && m != MODIFIER_NONE && exists k :: a.ModifierOf(k) == m
    ensures AllUp(s, a.ModKeys(m)) <==> !Held(a, s, m)
  {
    var list := a.ModKeys(m);
    if !AllUp(s, list) {
      var i :| 0 <= i < |list| && s.Pressed(list[i]);
      assert a.ModifierOf(list[i]) == m;
    }
    if Held(a, s, m) {
      var k :| a.ModifierOf(k) == m && s.Pressed(k);
      assert k in list;
    }
  }

  /** One event through the bottom half: the key ends as the event says, no other
      key changes, and no modifier but its own. */
  lemma BottomKeeps(a: Attachments, s: State, key: Keysym, type_: EventType, time: Time)
    requires a.Valid() && Inv(a, s) && key in a.modifierOf && time != UNDEF
    ensures var s' := Bottom(a, s, key, type_, time);
      && Inv(a, s')
      && s'.Pressed(key) == IsPress(type_)
      && Elsewhere(a, s, s', key)
  {
    hide Press, Release, Inv;
    if IsPress(type_) {
      if s.Pressed(key) {
        ReleaseKeeps(a, s, key, PseudoTime(s.Key(key).pressTime, time));
      }
      PressKeeps(a, AtPress(a, s, key, time), key, if type_.PressUser? then ByUser else ByAuto, time);
    } else if s.Pressed(key) {
      ReleaseKeeps(a, s, key, time);
    }
  }

  lemma {:induction false} ReleaseFromKeeps(a: Attachments, s: State, keys: seq<Keysym>, m: int, time: Time)
    requires a.Valid() && Inv(a, s) && time != UNDEF && m != MODIFIER_NONE
    requires forall i :: 0 <= i < |keys| ==> a.ModifierOf(keys[i]) == m
    ensures var s' := ReleaseFrom(a, s, keys, time);
      && Inv(a, s')
      && AllUp(s', keys)
      && (forall k :: !s.Pressed(k) ==> !s'.Pressed(k))
      && Within(a, s, s', {m})
      && (forall m' :: m' != m ==> (m' in s'.modifiers <==> m' in s.modifiers))
    decreases |keys|
  {
    if keys != [] {
      var s1 := s;
      if s.Pressed(keys[0]) {
        s1 := Bottom(a, s, keys[0], ReleaseOf(s.Key(keys[0]).how), time);
        BottomKeeps(a, s, keys[0], ReleaseOf(s.Key(keys[0]).how), time);
      }
      ReleaseFromKeeps(a, s1, keys[1..], m, time);
      var s' := ReleaseFrom(a, s1, keys[1..], time);
      forall i | 0 <= i < |keys| ensures !s'.Pressed(keys[i]) {
        if i > 0 { assert keys[i] == keys[1..][i - 1]; }
      }
    }
  }

  lemma {:induction false} ClearFromKeeps(a: Attachments, s: State, clear: set<int>, m: int, time: Time)
    requires a.Valid() && Inv(a, s) && time != UNDEF && clear <= a.have && 0 <= m
    ensures var s' := ClearFrom(a, s, clear, m, time);
      && Inv(a, s')
      && Within(a, s, s', clear)
      && forall m' :: m' in s'.modifiers <==> m' in s.modifiers && (m' in clear ==> m' < m)
    decreases MODIFIER_MAX + 1 - m
  {
    hide ReleaseFrom, CallsExact;
    if m <= MODIFIER_MAX {
      var s1 := s;
      if m in clear {
        s1 := ReleaseFrom(a, s, a.ModKeys(m), time);
        ReleaseFromKeeps(a, s, a.ModKeys(m), m, time);
        assert m !in s1.modifiers by {
          if Held(a, s1, m) { ReleasedMask(a, s1, m); }
        }
      }
      ClearFromKeeps(a, s1, clear, m + 1, time);
    }
  }

  lemma PressedIsSet(a: Attachments, s: State, key: Keysym)
    requires Inv(a, s) && s.Pressed(key) && a.ModifierOf(key) in a.have
    ensures a.ModifierOf(key) in s.modifiers
  {
    assert Held(a, s, a.ModifierOf(key));
  }

  /** Pressing the first keysym of a modifier that is not in the mask. */
  lemma SetOneKeeps(a: Attachments, s: State, m: int, time: Time)
    requires a.Valid() && Inv(a, s) && time != UNDEF && m in a.have && a.ModKeys(m) != []
    ensures a.ModKeys(m)[0] in a.modifierOf && a.ModifierOf(a.ModKeys(m)[0]) == m
    ensures m !in s.modifiers ==> !s.Pressed(a.ModKeys(m)[0])
    ensures var s' := Bottom(a, s, a.ModKeys(m)[0], PressAuto, time);
      Inv(a, s') && m in s'.modifiers && Elsewhere(a, s, s', a.ModKeys(m)[0])
  {
    hide Inv, Bottom;
    var key := a.ModKeys(m)[0];
    assert a.ModifierOf(key) == m;
    if s.Pressed(key) { PressedIsSet(a, s, key); }
    BottomKeeps(a, s, key, PressAuto, time);
    PressedIsSet(a, Bottom(a, s, key, PressAuto, time), key);
  }

  /** The keysym that is pressed for its modifier. */
  predicate FirstOf(a: Attachments, key: Keysym) {
    var list := a.ModKeys(a.ModifierOf(key));
    list != [] && list[0] == key
  }

  lemma {:induction false} SetFromKeeps(a: Attachments, s: State, toSet: set<int>, m: int, time: Time)
    requires a.Valid() && Inv(a, s) && time != UNDEF && toSet <= a.have && 0 <= m
    requires forall m' :: m' in toSet ==> a.ModKeys(m') != []
    ensures var s' := SetFrom(a, s, toSet, m, time);
      && Inv(a, s')
      && Within(a, s, s', toSet)
      && (forall k :: s'.Key(k) != s.Key(k) ==> FirstOf(a, k))
      && forall m' :: m' in s'.modifiers <==> m' in s.modifiers || (m' in toSet && m <= m')
    decreases MODIFIER_MAX + 1 - m
  {
    hide Bottom, Inv;
    if m <= MODIFIER_MAX {
      var s1 := s;
      if m in toSet {
        s1 := Bottom(a, s, a.ModKeys(m)[0], PressAuto, time);
        SetOneKeeps(a, s, m, time);
      }
      SetFromKeeps(a, s1, toSet, m + 1, time);
    }
  }

  lemma MaskKnown(a: Attachments, s: State)
    requires Inv(a, s)
    ensures s.modifiers <= a.have
  {
  }

  /** After synchronizing, the mask is the event's over the modifiers known, and
      no keysym has changed but those of modifiers that differed. */
  lemma SynchronizeMatches(a: Attachments, s: State, modifiers: set<int>, time: Time)
    requires a.Valid() && Inv(a, s) && time != UNDEF && CanSynchronize(a, s, modifiers)
    ensures Inv(a, Synchronize(a, s, modifiers, time))
    ensures Synchronize(a, s, modifiers, time).modifiers == modifiers * a.have
    ensures Within(a, s, Synchronize(a, s, modifiers, time),
                   (s.modifiers - modifiers) * a.have + (modifiers - s.modifiers) * a.have)
  {
    hide ClearFrom, SetFrom, Inv;
    var toClear := (s.modifiers - modifiers) * a.have;
    var toSet := (modifiers - s.modifiers) * a.have;
    ClearFromKeeps(a, s, toClear, 0, time);
    var s1 := ClearFrom(a, s, toClear, 0, time);
    SetFromKeeps(a, s1, toSet, 0, time);
    var s' := SetFrom(a, s1, toSet, 0, time);
    MaskKnown(a, s);
    assert forall m :: m in s'.modifiers <==> m in modifiers * a.have;
  }

  /** What the stage asks of a caller: a defined time, and a keysym when there is no
      modifier information to bring. */
  predicate Given(a: Attachments, e: RawEvent) {
    e.time != UNDEF && (a.have == {} ==> e.key != KEYVAL_UNDEF)
  }

  /** A keycode is not held by two keysyms: the one it was recorded for is up
      unless it is the event's own. */
  lemma TakeKeycodeKeeps(a: Attachments, s: State, e: RawEvent)
    requires a.Valid() && Inv(a, s) && e.time != UNDEF && e.key in a.modifierOf
    ensures var s' := TakeKeycode(a, s, e);
      && Inv(a, s')
      && (e.keycode in s.keycodes && s.keycodes[e.keycode] != e.key ==> !s'.Pressed(s.keycodes[e.keycode]))
      && s'.keycodes == (if e.press then s.keycodes[e.keycode := e.key] else s.keycodes - {e.keycode})
  {
    hide Bottom, CallsExact, MaskExact;
    var s1 := s;
    if e.keycode in s.keycodes {
      var other := s.keycodes[e.keycode];
      if other != e.key && s.Pressed(other) {
        s1 := Bottom(a, s, other, ReleaseOf(s.Key(other).how), EventTimeDiff(e.time, -1));
        BottomKeeps(a, s, other, ReleaseOf(s.Key(other).how), EventTimeDiff(e.time, -1));
      }
    }
    RecordsKeep(a, s1, if e.press then s1.keycodes[e.keycode := e.key] else s1.keycodes - {e.keycode}, s1.direct);
  }

  /** Only keysyms attached to these modifiers have changed. */
  ghost predicate Within(a: Attachments, s: State, s': State, modifiers: set<int>) {
    && (forall k :: a.ModifierOf(k) !in modifiers ==> s'.Key(k) == s.Key(k))
    && s'.keycodes == s.keycodes && s'.direct == s.direct
  }

  /** Whether an event takes its keycode from another keysym. */
  predicate Takes(s: State, e: RawEvent) {
    e.keycode != KEYVAL_UNDEF && e.keycode in s.keycodes && s.keycodes[e.keycode] != e.key
  }

  /** One raw event keeps everything, leaves its keysym as the event says, and
      releases a keysym whose keycode it takes. */
  lemma TopKeeps(a: Attachments, s: State, e: RawEvent)
    requires a.Valid() && Inv(a, s) && Given(a, e) && Step(a, s, e).Ran?
    ensures var s' := Step(a, s, e).state;
      && Inv(a, s')
      && (e.key in a.modifierOf ==> s'.Pressed(e.key) == e.press)
      && (e.key in a.modifierOf && Takes(s, e) ==> !s'.Pressed(s.keycodes[e.keycode]))
      && (e.press && e.key in a.modifierOf ==> s'.modifiers == e.modifiers + OwnModifier(a, e.key))
  {
    hide Synchronize, TakeKeycode, CallsExact, MaskExact, Release;
    SynchronizedKeeps(a, s, e);
    var s1 := Synchronized(a, s, e);
    if e.key in a.modifierOf {
      if e.keycode != KEYVAL_UNDEF {
        TakeKeycodeKeeps(a, s1, e);
      }
      BottomKeeps(a, BeforeBottom(a, s, e), e.key, if e.press then PressUser else ReleaseUser, e.time);
    } else {
      RecordsKeep(a, s1, s1.keycodes, s1.direct + [KeyEvent(e.key, e.press, e.time)]);
    }
  }

  /** The modifier of a keysym, if it has one. */
  function OwnModifier(a: Attachments, key: Keysym): set<int> {
    if a.ModifierOf(key) == MODIFIER_NONE then {} else {a.ModifierOf(key)}
  }

  lemma SynchronizedKeeps(a: Attachments, s: State, e: RawEvent)
    requires a.Valid() && Inv(a, s) && e.time != UNDEF && CanSynchronize(a, s, e.modifiers)
    ensures var s1 := Synchronized(a, s, e);
      Inv(a, s1) && s1.keycodes == s.keycodes && s1.modifiers == e.modifiers * a.have
  {
    hide Synchronize, CallsExact;
    if a.have != {} {
      SynchronizeMatches(a, s, e.modifiers, EventTimeDiff(e.time, -1));
    }
  }

  lemma RecordsKeep(a: Attachments, s: State, keycodes: map<int, Keysym>, direct: seq<KeyEvent>)
    requires Inv(a, s) && forall c :: c in keycodes ==> keycodes[c] in a.modifierOf
    ensures Inv(a, s.(keycodes := keycodes, direct := direct))
  {
    var s' := s.(keycodes := keycodes, direct := direct);
    assert forall k :: s'.Pressed(k) == s.Pressed(k);
    assert forall m :: Held(a, s', m) == Held(a, s, m);
  }

  // ---------------------------------------------------------------- whole runs

  predicate Streams(a: Attachments, events: seq<RawEvent>) {
    forall i :: 0 <= i < |events| ==> Given(a, events[i])
  }

  lemma InitialInv(a: Attachments)
    requires a.Valid()
    ensures Inv(a, INITIAL)
  {
  }

  /** Whatever the raw events, as long as no assert stops the program the next stage
      sees every key pressed and released in turn, and a modifier is in the mask iff
      a keysym attached to it is down. */
  lemma {:induction false} RunKeeps(a: Attachments, events: seq<RawEvent>)
    requires a.Valid() && Streams(a, events) && Run(a, events).Ran?
    ensures Inv(a, Run(a, events).state)
  {
    if events == [] {
      InitialInv(a);
    } else {
      var front := events[..|events| - 1];
      RunKeeps(a, front);
      TopKeeps(a, Run(a, front).state, events[|events| - 1]);
    }
  }

  /** The events of keysyms the stage has no state for, if it is to pass these on. */
  function Unknown(a: Attachments, events: seq<RawEvent>): seq<KeyEvent> {
    if events == [] then []
    else
      var e := events[|events| - 1];
      Unknown(a, events[..|events| - 1])
        + if a.passthrough && e.key != KEYVAL_UNDEF && e.key !in a.modifierOf then [KeyEvent(e.key, e.press, e.time)] else []
  }

  /** Without output stages every event of a keysym that has no state is passed on as it
      is, in order; with them none is. */
  lemma {:induction false} DirectIsUnknown(a: Attachments, events: seq<RawEvent>)
    requires a.Valid() && Streams(a, events) && Run(a, events).Ran?
    ensures Run(a, events).state.direct == Unknown(a, events)
  {
    if events != [] {
      var front, e := events[..|events| - 1], events[|events| - 1];
      DirectIsUnknown(a, front);
      RunKeeps(a, front);
      TopDirect(a, Run(a, front).state, e);
    }
  }

  lemma TopDirect(a: Attachments, s: State, e: RawEvent)
    requires a.Valid() && Inv(a, s) && Given(a, e) && CanSynchronize(a, s, e.modifiers)
    ensures Top(a, s, e).direct
         == s.direct + if a.passthrough && e.key != KEYVAL_UNDEF && e.key !in a.modifierOf then [KeyEvent(e.key, e.press, e.time)] else []
  {
    hide Synchronize, TakeKeycode, Bottom, CallsExact, MaskExact;
    SynchronizedKeeps(a, s, e);
    if a.have != {} {
      SynchronizeMatches(a, s, e.modifiers, EventTimeDiff(e.time, -1));
    }
    var s1 := Synchronized(a, s, e);
    assert s1.direct == s.direct;
    if e.key in a.modifierOf {
      if e.keycode != KEYVAL_UNDEF {
        TakeKeycodeKeeps(a, s1, e);
        TakeKeycodeDirect(a, s1, e);
      }
      BottomKeeps(a, BeforeBottom(a, s, e), e.key, if e.press then PressUser else ReleaseUser, e.time);
    }
  }

  lemma TakeKeycodeDirect(a: Attachments, s: State, e: RawEvent)
    requires a.Valid() && Inv(a, s) && Given(a, e)
    ensures TakeKeycode(a, s, e).direct == s.direct
  {
    hide Bottom, CallsExact, MaskExact;
    if e.keycode in s.keycodes {
      var other := s.keycodes[e.keycode];
      BottomKeeps(a, s, other, ReleaseOf(s.Key(other).how), EventTimeDiff(e.time, -1));
    }
  }

  // ---------------------------------------------------------------- why and when each call is made

  /** A keysym that is pressed was pressed when the next stage was told. */
  ghost predicate Timely(s: State) {
    forall key :: s.Pressed(key) ==> s.Key(key).pressTime == LastTime(s.calls, key)
  }

  /** The calls that bring a keysym from as it is to as an event says: a press of one that
      is pressed is two, and a release of one that is not is none. */
  function CallsFor(s: State, key: Keysym, press: bool, time: Time): seq<KeyEvent> {
    if !press then
      if s.Pressed(key) then [KeyEvent(key, false, time)] else []
    else if s.Pressed(key) then
      [KeyEvent(key, false, PseudoTime(LastTime(s.calls, key), time)), KeyEvent(key, true, time)]
    else [KeyEvent(key, true, time)]
  }

  lemma PressTimely(a: Attachments, s: State, key: Keysym, how: How, time: Time)
    requires Timely(s) && how != Up
    ensures var s' := Press(a, s, key, how, time); Timely(s') && s'.calls == s.calls + [KeyEvent(key, true, time)]
  {
    var s' := Press(a, s, key, how, time);
    forall k | s'.Pressed(k) ensures s'.Key(k).pressTime == LastTime(s'.calls, k) {
      LastTimeAppend(s.calls, KeyEvent(key, true, time), k);
      if k != key { assert s.Pressed(k); }
    }
  }

  lemma ReleaseTimely(a: Attachments, s: State, key: Keysym, time: Time)
    requires Timely(s)
    ensures var s' := Release(a, s, key, time); Timely(s') && s'.calls == s.calls + [KeyEvent(key, false, time)]
  {
    var s' := Release(a, s, key, time);
    forall k | s'.Pressed(k) ensures s'.Key(k).pressTime == LastTime(s'.calls, k) {
      LastTimeAppend(s.calls, KeyEvent(key, false, time), k);
      assert k != key && s.Pressed(k);
    }
  }

  lemma BottomCalls(a: Attachments, s: State, key: Keysym, type_: EventType, time: Time)
    requires Timely(s)
    ensures var s' := Bottom(a, s, key, type_, time);
      Timely(s') && s'.calls == s.calls + CallsFor(s, key, IsPress(type_), time)
  {
    hide Press, Release, Timely, PseudoTime;
    if IsPress(type_) {
      if s.Pressed(key) {
        PressedSince(s, key);
        ReleaseTimely(a, s, key, PseudoTime(s.Key(key).pressTime, time));
      }
      PressTimely(a, AtPress(a, s, key, time), key, if type_.PressUser? then ByUser else ByAuto, time);
    } else if s.Pressed(key) {
      ReleaseTimely(a, s, key, time);
    } else {
      assert s.calls + [] == s.calls;
    }
  }

  lemma PressedSince(s: State, key: Keysym)
    requires Timely(s) && s.Pressed(key)
    ensures s.Key(key).pressTime == LastTime(s.calls, key)
  {
  }

  /** Calls made at one time for keysyms attached to these modifiers: presses of the first
      of each, or releases. */
  ghost predicate Brings(a: Attachments, s: State, s': State, press: bool, modifiers: set<int>, time: Time) {
    && s.calls <= s'.calls
    && forall i :: |s.calls| <= i < |s'.calls| ==> Brought(a, s'.calls[i], press, modifiers, time)
  }

  ghost predicate Brought(a: Attachments, c: KeyEvent, press: bool, modifiers: set<int>, time: Time) {
    c.press == press && c.time == time && a.ModifierOf(c.key) in modifiers && (press ==> FirstOf(a, c.key))
  }

  lemma BringsMore(a: Attachments, s: State, s1: State, s': State, press: bool, modifiers: set<int>, time: Time)
    requires Brings(a, s, s1, press, modifiers, time) && Brings(a, s1, s', press, modifiers, time)
    ensures Brings(a, s, s', press, modifiers, time)
  {
    forall i | |s.calls| <= i < |s'.calls| ensures Brought(a, s'.calls[i], press, modifiers, time) {
      if i < |s1.calls| { assert s'.calls[i] == s1.calls[i]; }
    }
  }

  lemma {:induction false} ReleaseFromCalls(a: Attachments, s: State, keys: seq<Keysym>, modifiers: set<int>, time: Time)
    requires Timely(s)
    requires forall i :: 0 <= i < |keys| ==> a.ModifierOf(keys[i]) in modifiers
    ensures var s' := ReleaseFrom(a, s, keys, time); Timely(s') && Brings(a, s, s', false, modifiers, time)
    decreases |keys|
  {
    hide Timely, Bottom, Brings;
    if keys == [] {
      BringsNothing(a, s, false, modifiers, time);
    } else {
      var s1 := s;
      if s.Pressed(keys[0]) {
        s1 := Bottom(a, s, keys[0], ReleaseOf(s.Key(keys[0]).how), time);
        BottomCalls(a, s, keys[0], ReleaseOf(s.Key(keys[0]).how), time);
        BringsOne(a, s, s1, keys[0], false, modifiers, time);
      } else {
        BringsNothing(a, s, false, modifiers, time);
      }
      ReleaseFromCalls(a, s1, keys[1..], modifiers, time);
      BringsMore(a, s, s1, ReleaseFrom(a, s, keys, time), false, modifiers, time);
    }
  }

  lemma BringsNothing(a: Attachments, s: State, press: bool, modifiers: set<int>, time: Time)
    ensures Brings(a, s, s, press, modifiers, time)
  {
  }

  lemma BringsOne(a: Attachments, s: State, s': State, key: Keysym, press: bool, modifiers: set<int>, time: Time)
    requires s'.calls == s.calls + [KeyEvent(key, press, time)]
    requires a.ModifierOf(key) in modifiers && (press ==> FirstOf(a, key))
    ensures Brings(a, s, s', press, modifiers, time)
  {
  }

  lemma {:induction false} ClearFromCalls(a: Attachments, s: State, clear: set<int>, m: int, time: Time)
    requires a.Valid() && Timely(s) && clear <= a.have
    ensures var s' := ClearFrom(a, s, clear, m, time); Timely(s') && Brings(a, s, s', false, clear, time)
    decreases MODIFIER_MAX + 1 - m
  {
    hide Timely, ReleaseFrom, Brings;
    BringsNothing(a, s, false, clear, time);
    if m <= MODIFIER_MAX {
      var s1 := s;
      if m in clear {
        s1 := ReleaseFrom(a, s, a.ModKeys(m), time);
        assert forall i :: 0 <= i < |a.ModKeys(m)| ==> a.ModifierOf(a.ModKeys(m)[i]) == m;
        ReleaseFromCalls(a, s, a.ModKeys(m), clear, time);
      }
      ClearFromCalls(a, s1, clear, m + 1, time);
      BringsMore(a, s, s1, ClearFrom(a, s, clear, m, time), false, clear, time);
    }
  }

  lemma {:induction false} SetFromCalls(a: Attachments, s: State, toSet: set<int>, m: int, time: Time)
    requires a.Valid() && Inv(a, s) && Timely(s) && time != UNDEF && toSet <= a.have && 0 <= m
    requires forall m' :: m' in toSet ==> a.ModKeys(m') != []
    requires forall m' :: m' in toSet && m <= m' ==> m' !in s.modifiers
    ensures var s' := SetFrom(a, s, toSet, m, time); Timely(s') && Brings(a, s, s', true, toSet, time)
    decreases MODIFIER_MAX + 1 - m
  {
    hide Timely, Bottom, Brings, Inv;
    BringsNothing(a, s, true, toSet, time);
    if m <= MODIFIER_MAX {
      var s1 := s;
      if m in toSet {
        var key := a.ModKeys(m)[0];
        s1 := Bottom(a, s, key, PressAuto, time);
        SetOneKeeps(a, s, m, time);
        BottomCalls(a, s, key, PressAuto, time);
        BringsOne(a, s, s1, key, true, toSet, time);
      }
      SetFromCalls(a, s1, toSet, m + 1, time);
      BringsMore(a, s, s1, SetFrom(a, s, toSet, m, time), true, toSet, time);
    }
  }

  /** A call made to bring the mask to the event's: a release of a keysym whose modifier
      the event no longer has, or a press of the first of one that it has now. */
  ghost predicate Missed(a: Attachments, s: State, e: RawEvent, c: KeyEvent) {
    && c.time == EventTimeDiff(e.time, -1)
    && a.ModifierOf(c.key) in a.have
    && (if c.press then a.ModifierOf(c.key) in e.modifiers && a.ModifierOf(c.key) !in s.modifiers && FirstOf(a, c.key)
        else a.ModifierOf(c.key) in s.modifiers && a.ModifierOf(c.key) !in e.modifiers)
  }

  ghost predicate MissedFrom(a: Attachments, s: State, e: RawEvent, s': State) {
    s.calls <= s'.calls && forall i :: |s.calls| <= i < |s'.calls| ==> Missed(a, s, e, s'.calls[i])
  }

  lemma SynchronizedCalls(a: Attachments, s: State, e: RawEvent)
    requires a.Valid() && Inv(a, s) && Timely(s) && e.time != UNDEF && CanSynchronize(a, s, e.modifiers)
    ensures Timely(Synchronized(a, s, e)) && MissedFrom(a, s, e, Synchronized(a, s, e))
  {
    if a.have != {} {
      hide Timely, ClearFrom, SetFrom, Inv;
      var time := EventTimeDiff(e.time, -1);
      var toClear := (s.modifiers - e.modifiers) * a.have;
      var toSet := (e.modifiers - s.modifiers) * a.have;
      ClearFromCalls(a, s, toClear, 0, time);
      ClearFromKeeps(a, s, toClear, 0, time);
      var s1 := ClearFrom(a, s, toClear, 0, time);
      SetFromCalls(a, s1, toSet, 0, time);
      var s' := SetFrom(a, s1, toSet, 0, time);
      forall i | |s.calls| <= i < |s'.calls| ensures Missed(a, s, e, s'.calls[i]) {
        if i < |s1.calls| {
          assert s'.calls[i] == s1.calls[i] && Brought(a, s1.calls[i], false, toClear, time);
        } else {
          assert Brought(a, s'.calls[i], true, toSet, time);
        }
      }
    }
  }

  /** Why the next stage is called: it is the event, or the release that must have come
      before a repeated press, or the release of the keysym whose keycode it takes, or it
      brings the mask to the event's. */
  ghost predicate Explained(a: Attachments, s: State, e: RawEvent, calls: seq<KeyEvent>, i: nat)
    requires i < |calls|
  {
    var c := calls[i];
    || (c == KeyEvent(e.key, e.press, e.time) && e.key in a.modifierOf)
    || (c == KeyEvent(e.key, false, PseudoTime(LastTime(calls[..i], e.key), e.time)) && e.press && Down(calls[..i], e.key))
    || (e.key in a.modifierOf && Takes(s, e) && c == KeyEvent(s.keycodes[e.keycode], false, EventTimeDiff(e.time, -1)))
    || Missed(a, s, e, c)
  }

  lemma TakeKeycodeCalls(a: Attachments, s: State, e: RawEvent)
    requires Timely(s) && e.time != UNDEF
    ensures var s' := TakeKeycode(a, s, e);
      && Timely(s')
      && (s'.calls == s.calls
          || (e.keycode in s.keycodes && s.keycodes[e.keycode] != e.key
              && s'.calls == s.calls + [KeyEvent(s.keycodes[e.keycode], false, EventTimeDiff(e.time, -1))]))
  {
    hide Bottom;
    if e.keycode in s.keycodes {
      var other := s.keycodes[e.keycode];
      if other != e.key && s.Pressed(other) {
        BottomCalls(a, s, other, ReleaseOf(s.Key(other).how), EventTimeDiff(e.time, -1));
      }
    }
  }

  /** The calls of an event whose keysym has state: those that bring the mask to its own,
      that for its keycode, and its own. */
  lemma ExplainedAll(a: Attachments, s: State, e: RawEvent, s1: State, s2: State, calls: seq<KeyEvent>)
    requires MissedFrom(a, s, e, s1) && e.key in a.modifierOf
    requires s2.calls == s1.calls
      || (Takes(s, e) && s2.calls == s1.calls + [KeyEvent(s.keycodes[e.keycode], false, EventTimeDiff(e.time, -1))])
    requires calls == s2.calls + CallsFor(s2, e.key, e.press, e.time) && s2.Pressed(e.key) == Down(s2.calls, e.key)
    ensures s.calls <= calls && forall i :: |s.calls| <= i < |calls| ==> Explained(a, s, e, calls, i)
  {
    hide Missed, Down, PseudoTime, LastTime, Takes;
    forall i | |s.calls| <= i < |calls| ensures Explained(a, s, e, calls, i) {
      if i < |s1.calls| {
        assert calls[i] == s1.calls[i];
      } else if i >= |s2.calls| {
        assert calls[..|s2.calls|] == s2.calls;
      }
    }
  }

  /** One event: why each call was made. */
  lemma TopCalls(a: Attachments, s: State, e: RawEvent)
    requires a.Valid() && Inv(a, s) && Timely(s) && Given(a, e) && CanSynchronize(a, s, e.modifiers)
    ensures var s' := Top(a, s, e);
      && Timely(s') && s.calls <= s'.calls
      && forall i :: |s.calls| <= i < |s'.calls| ==> Explained(a, s, e, s'.calls, i)
  {
    hide Synchronize, TakeKeycode, Bottom, CallsExact, MaskExact, Missed, PseudoTime, Explained, CallsFor, Timely;
    SynchronizedKeeps(a, s, e);
    SynchronizedCalls(a, s, e);
    var s1 := Synchronized(a, s, e);
    if e.key in a.modifierOf {
      if e.keycode != KEYVAL_UNDEF {
        TakeKeycodeKeeps(a, s1, e);
        TakeKeycodeCalls(a, s1, e);
      }
      var s2 := BeforeBottom(a, s, e);
      BottomCalls(a, s2, e.key, if e.press then PressUser else ReleaseUser, e.time);
      DownPressed(a, s2, e.key);
      ExplainedAll(a, s, e, s1, s2, Top(a, s, e).calls);
    } else {
      SameTimely(s1, s1.(direct := s1.direct + [KeyEvent(e.key, e.press, e.time)]));
      MissedExplained(a, s, e, s1);
    }
  }

  lemma SameTimely(s: State, s': State)
    requires Timely(s) && s'.keys == s.keys && s'.calls == s.calls
    ensures Timely(s')
  {
  }

  lemma MissedExplained(a: Attachments, s: State, e: RawEvent, s1: State)
    requires MissedFrom(a, s, e, s1)
    ensures s.calls <= s1.calls && forall i :: |s.calls| <= i < |s1.calls| ==> Explained(a, s, e, s1.calls, i)
  {
    hide Missed;
  }

  lemma DownPressed(a: Attachments, s: State, key: Keysym)
    requires Inv(a, s)
    ensures Down(s.calls, key) == s.Pressed(key)
  {
  }

  lemma {:induction false} RunTimely(a: Attachments, events: seq<RawEvent>)
    requires a.Valid() && Streams(a, events) && Run(a, events).Ran?
    ensures Timely(Run(a, events).state)
  {
    hide Timely, Top;
    if events == [] {
      InitialTimely();
    } else {
      var front := events[..|events| - 1];
      RunKeeps(a, front);
      RunTimely(a, front);
      TopCalls(a, Run(a, front).state, events[|events| - 1]);
    }
  }

  lemma InitialTimely()
    ensures Timely(INITIAL)
  {
  }

  /** In any run, why each call was made that came of an event, and its time. */
  lemma RunExplained(a: Attachments, events: seq<RawEvent>, e: RawEvent)
    requires a.Valid() && Streams(a, events + [e]) && Run(a, events + [e]).Ran?
    ensures Run(a, events).Ran? && Run(a, events).state.calls <= Run(a, events + [e]).state.calls
    ensures var s, calls := Run(a, events).state, Run(a, events + [e]).state.calls;
      forall i :: |s.calls| <= i < |calls| ==> Explained(a, s, e, calls, i)
  {
    hide Top, Explained;
    assert (events + [e])[..|events|] == events;
    assert (events + [e])[|events|] == e;
    assert forall i :: 0 <= i < |events| ==> events[i] == (events + [e])[i];
    RunKeeps(a, events);
    RunTimely(a, events);
    TopCalls(a, Run(a, events).state, e);
  }

  // ---------------------------------------------------------------- in which order calls are made

  /** The keysyms attached to the modifiers from one on, list by list. */
  function ListsFrom(a: Attachments, m: int): seq<Keysym>
    decreases MODIFIER_MAX + 1 - m
  {
    if m > MODIFIER_MAX then [] else a.ModKeys(m) + ListsFrom(a, m + 1)
  }

  /** The first of each list. */
  function FirstsFrom(a: Attachments, m: int): seq<Keysym>
    decreases MODIFIER_MAX + 1 - m
  {
    if m > MODIFIER_MAX then [] else (if a.ModKeys(m) == [] then [] else [a.ModKeys(m)[0]]) + FirstsFrom(a, m + 1)
  }

  lemma BottomTouches(a: Attachments, s: State, key: Keysym, type_: EventType, time: Time)
    requires Timely(s)
    ensures var s' := Bottom(a, s, key, type_, time);
      && Timely(s')
      && Touches(s.calls, s'.calls, if IsPress(type_) && s.Pressed(key) then [key, key] else [key])
  {
    hide Bottom, Timely, Touches, PseudoTime;
    BottomCalls(a, s, key, type_, time);
    var calls := CallsFor(s, key, IsPress(type_), time);
    if calls == [] {
      assert s.calls + [] == s.calls;
      TouchesNone(s.calls, [key]);
    } else {
      TouchesOne(s.calls, calls[0]);
      if |calls| == 2 {
        assert s.calls + calls == (s.calls + [calls[0]]) + [calls[1]];
        TouchesOne(s.calls + [calls[0]], calls[1]);
        TouchesMore(s.calls, s.calls + [calls[0]], s.calls + calls, [key], [key]);
        assert [key] + [key] == [key, key];
      }
    }
  }

  lemma {:induction false} ReleaseFromTouches(a: Attachments, s: State, keys: seq<Keysym>, time: Time)
    requires Timely(s)
    ensures var s' := ReleaseFrom(a, s, keys, time); Timely(s') && Touches(s.calls, s'.calls, keys)
    decreases |keys|
  {
    hide Timely, Bottom, Touches;
    if keys == [] {
      TouchesNone(s.calls, []);
    } else {
      var s1 := s;
      if s.Pressed(keys[0]) {
        s1 := Bottom(a, s, keys[0], ReleaseOf(s.Key(keys[0]).how), time);
        BottomTouches(a, s, keys[0], ReleaseOf(s.Key(keys[0]).how), time);
      } else {
        TouchesNone(s.calls, [keys[0]]);
      }
      ReleaseFromTouches(a, s1, keys[1..], time);
      TouchesMore(s.calls, s1.calls, ReleaseFrom(a, s, keys, time).calls, [keys[0]], keys[1..]);
      assert [keys[0]] + keys[1..] == keys;
    }
  }

  lemma {:induction false} ClearFromTouches(a: Attachments, s: State, clear: set<int>, m: int, time: Time)
    requires Timely(s)
    ensures var s' := ClearFrom(a, s, clear, m, time); Timely(s') && Touches(s.calls, s'.calls, ListsFrom(a, m))
    decreases MODIFIER_MAX + 1 - m
  {
    hide Timely, ReleaseFrom, Touches;
    if m <= MODIFIER_MAX {
      var s1 := s;
      if m in clear {
        s1 := ReleaseFrom(a, s, a.ModKeys(m), time);
        ReleaseFromTouches(a, s, a.ModKeys(m), time);
      } else {
        TouchesNone(s.calls, a.ModKeys(m));
      }
      ClearFromTouches(a, s1, clear, m + 1, time);
      TouchesMore(s.calls, s1.calls, ClearFrom(a, s, clear, m, time).calls, a.ModKeys(m), ListsFrom(a, m + 1));
    } else {
      TouchesNone(s.calls, []);
    }
  }

  lemma {:induction false} SetFromTouches(a: Attachments, s: State, toSet: set<int>, m: int, time: Time)
    requires a.Valid() && Inv(a, s) && Timely(s) && time != UNDEF && toSet <= a.have && 0 <= m
    requires forall m' :: m' in toSet ==> a.ModKeys(m') != []
    requires forall m' :: m' in toSet && m <= m' ==> m' !in s.modifiers
    ensures Touches(s.calls, SetFrom(a, s, toSet, m, time).calls, FirstsFrom(a, m))
    decreases MODIFIER_MAX + 1 - m
  {
    hide Timely, Bottom, Inv, Touches;
    if m <= MODIFIER_MAX {
      var first := if a.ModKeys(m) == [] then [] else [a.ModKeys(m)[0]];
      var s1 := s;
      if m in toSet {
        s1 := Bottom(a, s, a.ModKeys(m)[0], PressAuto, time);
        SetOneKeeps(a, s, m, time);
        BottomTouches(a, s, a.ModKeys(m)[0], PressAuto, time);
      } else {
        TouchesNone(s.calls, first);
      }
      SetFromTouches(a, s1, toSet, m + 1, time);
      TouchesMore(s.calls, s1.calls, SetFrom(a, s, toSet, m, time).calls, first, FirstsFrom(a, m + 1));
    } else {
      TouchesNone(s.calls, []);
    }
  }

  lemma SynchronizedTouches(a: Attachments, s: State, e: RawEvent)
    requires a.Valid() && Inv(a, s) && Timely(s) && e.time != UNDEF && CanSynchronize(a, s, e.modifiers)
    ensures Touches(s.calls, Synchronized(a, s, e).calls, ListsFrom(a, 0) + FirstsFrom(a, 0))
  {
    hide Timely, ClearFrom, SetFrom, Inv, Touches, ListsFrom, FirstsFrom;
    if a.have != {} {
      var time := EventTimeDiff(e.time, -1);
      var toClear := (s.modifiers - e.modifiers) * a.have;
      var toSet := (e.modifiers - s.modifiers) * a.have;
      ClearFromTouches(a, s, toClear, 0, time);
      ClearFromKeeps(a, s, toClear, 0, time);
      var s1 := ClearFrom(a, s, toClear, 0, time);
      SetFromTouches(a, s1, toSet, 0, time);
      TouchesMore(s.calls, s1.calls, SetFrom(a, s1, toSet, 0, time).calls, ListsFrom(a, 0), FirstsFrom(a, 0));
    } else {
      TouchesNone(s.calls, ListsFrom(a, 0) + FirstsFrom(a, 0));
    }
  }

  /** The keysyms an event's calls may be for: those to be released for modifiers, list by
      list, then those to be pressed, then the one it takes its keycode from, then its own. */
  function Order(a: Attachments, s: State, e: RawEvent): seq<Keysym> {
    ListsFrom(a, 0) + FirstsFrom(a, 0) + (if Takes(s, e) then [s.keycodes[e.keycode]] else []) + [e.key, e.key]
  }

  lemma TopTouches(a: Attachments, s: State, e: RawEvent)
    requires a.Valid() && Inv(a, s) && Timely(s) && Given(a, e) && CanSynchronize(a, s, e.modifiers)
    ensures Touches(s.calls, Top(a, s, e).calls, Order(a, s, e))
  {
    hide Synchronize, TakeKeycode, Bottom, CallsExact, MaskExact, Timely, Touches, ListsFrom, FirstsFrom, Missed;
    SynchronizedKeeps(a, s, e);
    SynchronizedCalls(a, s, e);
    SynchronizedTouches(a, s, e);
    var s1, s' := Synchronized(a, s, e), Top(a, s, e);
    var taken := if Takes(s, e) then [s.keycodes[e.keycode]] else [];
    var synced := ListsFrom(a, 0) + FirstsFrom(a, 0);
    var s2 := if e.key in a.modifierOf then BeforeBottom(a, s, e) else s1;
    TouchesNone(s1.calls, taken);
    if e.key in a.modifierOf {
      if e.keycode != KEYVAL_UNDEF {
        TakeKeycodeKeeps(a, s1, e);
        TakeKeycodeCalls(a, s1, e);
        if s2.calls != s1.calls {
          TouchesOne(s1.calls, s2.calls[|s1.calls|]);
        }
      }
      TouchesMore(s.calls, s1.calls, s2.calls, synced, taken);
      OwnTouches(a, s2, e);
    } else {
      TouchesMore(s.calls, s1.calls, s2.calls, synced, taken);
      TouchesNone(s1.calls, [e.key, e.key]);
    }
    TouchesMore(s.calls, s2.calls, s'.calls, synced + taken, [e.key, e.key]);
  }

  lemma OwnTouches(a: Attachments, s: State, e: RawEvent)
    requires Timely(s)
    ensures Touches(s.calls, Bottom(a, s, e.key, if e.press then PressUser else ReleaseUser, e.time).calls, [e.key, e.key])
  {
    hide Timely, Bottom, Touches;
    var s' := Bottom(a, s, e.key, if e.press then PressUser else ReleaseUser, e.time);
    BottomTouches(a, s, e.key, if e.press then PressUser else ReleaseUser, e.time);
    if !(e.press && s.Pressed(e.key)) {
      TouchesNone(s'.calls, [e.key]);
      TouchesMore(s.calls, s'.calls, s'.calls, [e.key], [e.key]);
      assert [e.key] + [e.key] == [e.key, e.key];
    }
  }

  /** In any run, the order of the calls that came of an event. */
  lemma RunOrdered(a: Attachments, events: seq<RawEvent>, e: RawEvent)
    requires a.Valid() && Streams(a, events + [e]) && Run(a, events + [e]).Ran?
    ensures Run(a, events).Ran?
    ensures var s := Run(a, events).state; Touches(s.calls, Run(a, events + [e]).state.calls, Order(a, s, e))
  {
    hide Top, Touches, Order;
    assert (events + [e])[..|events|] == events;
    assert (events + [e])[|events|] == e;
    assert forall i :: 0 <= i < |events| ==> events[i] == (events + [e])[i];
    RunKeeps(a, events);
    RunTimely(a, events);
    TopTouches(a, Run(a, events).state, e);
  }

  // ---------------------------------------------------------------- when a repeated press is released

  /** The time promised for the release that must have come before a repeated press: the
      shortest double press after the first, unless that is after the new press, and never
      after the new press. */
  predicate AsPromised(release: Time, pressTime: Time, time: Time) {
    var soonest := EventTimeDiff(pressTime, SHORTEST_DOUBLE_MSEC);
    && EventTimeSubtract(release, time) <= 0
    && (EventTimeSubtract(soonest, time) <= 0 ==> release == soonest)
  }

  /** The test for the new press takes the wrong branch.  The release is never after the
      new press iff the soonest time is not, and it is as promised only when the soonest
      time is just before the new press. */
  lemma PseudoTimeAsPromisedIff(pressTime: Time, time: Time)
    requires time != UNDEF
    ensures var soonest, release := EventTimeDiff(pressTime, SHORTEST_DOUBLE_MSEC), PseudoTime(pressTime, time);
      && (EventTimeSubtract(release, time) <= 0 <==> EventTimeSubtract(soonest, time) <= 0)
      && (AsPromised(release, pressTime, time) <==> soonest == EventTimeDiff(time, -1))
      && (EventTimeSubtract(soonest, time) <= 0 ==> release == EventTimeDiff(time, -1))
  {
    hide EventTimeSubtract, EventTimeDiff;
    DiffMoves(time, -1);
  }

  /** A key pressed again 50 ms after a press is released 30 ms after that. */
  lemma ReleasedAfterPress(a: Attachments)
    requires a == Attachments({}, map[], map[65 := MODIFIER_NONE], false)
    ensures a.Valid()
    ensures var events := [RawEvent(true, {}, 65, KEYVAL_UNDEF, 1000), RawEvent(true, {}, 65, KEYVAL_UNDEF, 1050)];
      && Streams(a, events) && Run(a, events).Ran?
      && Run(a, events).state.calls == [KeyEvent(65, true, 1000), KeyEvent(65, false, 1080), KeyEvent(65, true, 1050)]
  {
    var e1, e2 := RawEvent(true, {}, 65, KEYVAL_UNDEF, 1000), RawEvent(true, {}, 65, KEYVAL_UNDEF, 1050);
    assert [e1][..0] == [] && [e1, e2][..1] == [e1];
    var s1 := State(map[65 := KeyState(ByUser, 1000)], {}, map[], [KeyEvent(65, true, 1000)], []);
    assert Step(a, INITIAL, e1) == Ran(s1);
    assert Run(a, [e1]) == Ran(s1);
    assert PseudoTime(1000, 1050) == 1080;
    assert Run(a, [e1, e2]) == Step(a, s1, e2);
  }

  // ---------------------------------------------------------------- when the asserts hold

  /** Every modifier there is information about has a keysym that could be pressed. */
  ghost predicate NoneEmpty(a: Attachments) {
    forall m :: m in a.have ==> a.ModKeys(m) != []
  }

  /** The assert that a modifier to be set has a keysym holds in every state, for
      every mask, iff no modifier was given an empty list. */
  lemma CanSynchronizeIff(a: Attachments)
    requires a.Valid()
    ensures (forall s, modifiers :: Inv(a, s) ==> CanSynchronize(a, s, modifiers)) <==> NoneEmpty(a)
  {
    if !NoneEmpty(a) {
      var m :| m in a.have && a.ModKeys(m) == [];
      InitialInv(a);
      assert m in ({m} - INITIAL.modifiers) * a.have;
      assert !CanSynchronize(a, INITIAL, {m});
    }
  }

  /** Whether a keysym will be pressed once the mask has been brought to the event's:
      as before, if its modifier has not changed unseen; else only the first keysym
      of a modifier that is set. */
  predicate Will(a: Attachments, s: State, modifiers: set<int>, key: Keysym) {
    var m := a.ModifierOf(key);
    if m == MODIFIER_NONE || (m in modifiers && m in s.modifiers) then s.Pressed(key)
    else m in modifiers && FirstOf(a, key)
  }

  lemma ModifierKnown(a: Attachments, key: Keysym)
    requires a.Valid()
    ensures a.ModifierOf(key) == MODIFIER_NONE || (a.ModifierOf(key) in a.have && key in a.ModKeys(a.ModifierOf(key)))
    ensures MODIFIER_NONE !in a.have
  {
  }

  lemma SynchronizePresses(a: Attachments, s: State, modifiers: set<int>, time: Time, key: Keysym)
    requires a.Valid() && Inv(a, s) && time != UNDEF && CanSynchronize(a, s, modifiers)
    ensures Synchronize(a, s, modifiers, time).Pressed(key) <==> Will(a, s, modifiers, key)
  {
    hide ClearFrom, SetFrom, CallsExact;
    var m := a.ModifierOf(key);
    var toClear := (s.modifiers - modifiers) * a.have;
    var toSet := (modifiers - s.modifiers) * a.have;
    SynchronizeMatches(a, s, modifiers, time);
    ClearFromKeeps(a, s, toClear, 0, time);
    var s1 := ClearFrom(a, s, toClear, 0, time);
    SetFromKeeps(a, s1, toSet, 0, time);
    var s' := Synchronize(a, s, modifiers, time);
    ModifierKnown(a, key);
    if m != MODIFIER_NONE {
      if m !in modifiers {
        assert !Held(a, s', m);
      } else if m !in s.modifiers {
        assert !Held(a, s, m) && Held(a, s', m);
        assert s1.Key(key) == s.Key(key);
        var k :| a.ModifierOf(k) == m && s'.Pressed(k);
        assert s1.Key(k) == s.Key(k);
      }
    }
  }

  lemma SynchronizedPresses(a: Attachments, s: State, e: RawEvent, key: Keysym)
    requires a.Valid() && Inv(a, s) && e.time != UNDEF && CanSynchronize(a, s, e.modifiers)
    ensures Synchronized(a, s, e).Pressed(key) <==> Will(a, s, e.modifiers, key)
  {
    hide Synchronize, CallsExact;
    if a.have != {} {
      SynchronizePresses(a, s, e.modifiers, EventTimeDiff(e.time, -1), key);
    }
  }

  /** A keysym is pressed, and no other holds its modifier. */
  ghost predicate OnlyHolder(a: Attachments, s: State, key: Keysym) {
    && a.ModifierOf(key) != MODIFIER_NONE && s.Pressed(key)
    && forall k :: k != key && a.ModifierOf(k) == a.ModifierOf(key) ==> !s.Pressed(k)
  }

  /** A release takes a modifier out of the mask iff its keysym was the only holder. */
  lemma ReleaseMask(a: Attachments, s: State, key: Keysym, time: Time)
    requires a.Valid() && Inv(a, s) && key in a.modifierOf && time != UNDEF && s.Pressed(key)
    ensures var s' := Release(a, s, key, time);
      if OnlyHolder(a, s, key) then a.ModifierOf(key) in s.modifiers && s'.modifiers == s.modifiers - {a.ModifierOf(key)}
      else s'.modifiers == s.modifiers
  {
    ReleaseKeeps(a, s, key, time);
    hide Release, CallsExact;
    var s' := Release(a, s, key, time);
    var m := a.ModifierOf(key);
    ModifierKnown(a, key);
    assert forall k :: s'.Pressed(k) == (k != key && s.Pressed(k));
    if m != MODIFIER_NONE {
      PressedIsSet(a, s, key);
      if OnlyHolder(a, s, key) {
        assert !Held(a, s', m);
      } else {
        var k :| k != key && a.ModifierOf(k) == m && s.Pressed(k);
        assert s'.Pressed(k);
      }
    }
    assert forall m' :: m' in s'.modifiers <==> m' in s.modifiers && !(m' == m && OnlyHolder(a, s, key));
  }

  /** A keysym will be pressed, and hold its modifier alone but for those in `gone`. */
  predicate Alone(a: Attachments, s: State, modifiers: set<int>, key: Keysym, gone: set<Keysym>) {
    var list := a.ModKeys(a.ModifierOf(key));
    && a.ModifierOf(key) != MODIFIER_NONE && key !in gone && Will(a, s, modifiers, key)
    && forall i :: 0 <= i < |list| && list[i] != key && list[i] !in gone ==> !Will(a, s, modifiers, list[i])
  }

  /** The keysym whose keycode an event takes. */
  function TakenFrom(s: State, e: RawEvent): set<Keysym> {
    if Takes(s, e) then {s.keycodes[e.keycode]} else {}
  }

  /** What a caller can check before a press: the mask has only modifiers the stage
      knows; a keysym that loses its keycode does not hold a modifier alone; and the
      event's own keysym is not pressed already and alone in holding its modifier. */
  predicate MaskStays(a: Attachments, s: State, e: RawEvent) {
    && e.modifiers <= a.have
    && (Takes(s, e) ==> !Alone(a, s, e.modifiers, s.keycodes[e.keycode], {}))
    && !Alone(a, s, e.modifiers, e.key, TakenFrom(s, e))
  }

  lemma AloneIsOnly(a: Attachments, s: State, s1: State, modifiers: set<int>, key: Keysym, gone: set<Keysym>)
    requires a.Valid()
    requires forall k :: s1.Pressed(k) <==> k !in gone && Will(a, s, modifiers, k)
    ensures OnlyHolder(a, s1, key) <==> Alone(a, s, modifiers, key, gone)
  {
    hide Will;
    var m := a.ModifierOf(key);
    var list := a.ModKeys(m);
    ModifierKnown(a, key);
    if m != MODIFIER_NONE {
      assert forall i :: 0 <= i < |list| ==> a.ModifierOf(list[i]) == m;
      forall k | a.ModifierOf(k) == m ensures k in list {
        ModifierKnown(a, k);
      }
    }
  }

  /** What taking the keycode leaves in the mask, and which keysyms are pressed then. */
  lemma BeforeBottomMask(a: Attachments, s: State, e: RawEvent)
    requires a.Valid() && Inv(a, s) && e.time != UNDEF && CanSynchronize(a, s, e.modifiers) && e.key in a.modifierOf
    ensures var s2 := BeforeBottom(a, s, e);
      && Inv(a, s2)
      && (forall k :: s2.Pressed(k) <==> k !in TakenFrom(s, e) && Will(a, s, e.modifiers, k))
      && s2.modifiers <= e.modifiers * a.have
      && (s2.modifiers == e.modifiers * a.have <==>
            (Takes(s, e) ==> !Alone(a, s, e.modifiers, s.keycodes[e.keycode], {})))
  {
    hide Synchronize, CallsExact, MaskExact, Will, Alone, Release, Inv;
    SynchronizedKeeps(a, s, e);
    var s1 := Synchronized(a, s, e);
    forall k ensures s1.Pressed(k) <==> Will(a, s, e.modifiers, k) {
      SynchronizedPresses(a, s, e, k);
    }
    if e.keycode != KEYVAL_UNDEF {
      TakeKeycodeKeeps(a, s1, e);
      if Takes(s, e) {
        var other := s.keycodes[e.keycode];
        AloneIsOnly(a, s, s1, e.modifiers, other, {});
        TakenMask(a, s1, e, other);
      }
    }
  }

  /** Taking a keycode from another keysym releases that keysym. */
  lemma TakenMask(a: Attachments, s: State, e: RawEvent, other: Keysym)
    requires a.Valid() && Inv(a, s) && e.time != UNDEF && e.keycode in s.keycodes && s.keycodes[e.keycode] == other != e.key
    ensures var s' := TakeKeycode(a, s, e);
      && (forall k :: s'.Pressed(k) <==> k != other && s.Pressed(k))
      && s'.modifiers <= s.modifiers
      && (s'.modifiers == s.modifiers <==> !OnlyHolder(a, s, other))
  {
    hide CallsExact, MaskExact, Release;
    if s.Pressed(other) {
      ReleaseKeeps(a, s, other, EventTimeDiff(e.time, -1));
      ReleaseMask(a, s, other, EventTimeDiff(e.time, -1));
    }
  }

  /** The assert on the mask holds at a press iff the mask is within what is known,
      taking the keycode releases no last holder of a modifier, and the keysym is not
      itself pressed already as the only holder of its modifier. */
  lemma MaskAgreesIff(a: Attachments, s: State, e: RawEvent)
    requires a.Valid() && Inv(a, s) && Given(a, e) && CanSynchronize(a, s, e.modifiers)
    requires e.press && e.key in a.modifierOf
    ensures MaskAgrees(a, s, e) <==> MaskStays(a, s, e)
  {
    hide Will, Alone, Release, BeforeBottom, CallsExact;
    BeforeBottomMask(a, s, e);
    var s2 := BeforeBottom(a, s, e);
    AloneIsOnly(a, s, s2, e.modifiers, e.key, TakenFrom(s, e));
    if s2.Pressed(e.key) {
      ReleaseMask(a, s2, e.key, PseudoTime(s2.Key(e.key).pressTime, e.time));
    }
    assert e.modifiers * a.have == e.modifiers <==> e.modifiers <= a.have;
  }

  /** An event goes through iff what it sets unseen can be pressed and, if it is a
      press, the mask stays the event's. */
  predicate Goes(a: Attachments, s: State, e: RawEvent) {
    CanSynchronize(a, s, e.modifiers) && (e.press && e.key in a.modifierOf ==> MaskStays(a, s, e))
  }

  lemma StepRunsIff(a: Attachments, s: State, e: RawEvent)
    requires a.Valid() && Inv(a, s) && Given(a, e)
    ensures Step(a, s, e).Ran? <==> Goes(a, s, e)
  {
    hide MaskStays, Top;
    if CanSynchronize(a, s, e.modifiers) && e.press && e.key in a.modifierOf {
      MaskAgreesIff(a, s, e);
    }
  }

  /** With no empty list, a stream of events goes through iff every press in it meets
      a mask that stays. */
  lemma {:induction false} AnyStreamPlays(a: Attachments, events: seq<RawEvent>)
    requires a.Valid() && NoneEmpty(a) && Streams(a, events)
    ensures Run(a, events).Ran? <==> forall n :: 0 <= n < |events| ==> PressGoes(a, events, n)
  {
    hide Step, Inv, MaskStays;
    if events != [] {
      var last := |events| - 1;
      var front := events[..last];
      AnyStreamPlays(a, front);
      forall n | 0 <= n < last ensures PressGoes(a, front, n) == PressGoes(a, events, n) {
        assert front[..n] == events[..n];
      }
      if Run(a, front).Ran? {
        RunKeeps(a, front);
        CanSynchronizeIff(a);
        StepRunsIff(a, Run(a, front).state, events[last]);
        assert Run(a, events).Ran? <==> PressGoes(a, events, last);
      }
    }
  }

  /** The events before `n` go through and, if event `n` is a press, so does it. */
  predicate PressGoes(a: Attachments, events: seq<RawEvent>, n: nat)
    requires n < |events|
  {
    var before := Run(a, events[..n]);
    before.Ran? && (events[n].press && events[n].key in a.modifierOf ==> MaskStays(a, before.state, events[n]))
  }

  // streams that miss nothing

  /** Whether the last raw event of a keysym pressed it. */
  predicate RawDown(events: seq<RawEvent>, key: Keysym) {
    events != [] &&
    var last := events[|events| - 1];
    if last.key == key then last.press else RawDown(events[..|events| - 1], key)
  }

  /** The modifiers that a keyboard with these attachments truly has down. */
  function TrueMask(a: Attachments, events: seq<RawEvent>): set<int> {
    set m | m in a.have && HoldsModifier(a, events, m)
  }

  predicate HoldsModifier(a: Attachments, events: seq<RawEvent>, m: int) {
    exists i :: 0 <= i < |a.ModKeys(m)| && RawDown(events, a.ModKeys(m)[i])
  }

  /** An event a caller gives who has missed none: with the true mask, pressing what is
      up or releasing what is down, by a keycode no other keysym is down with. */
  predicate Truthful(a: Attachments, before: seq<RawEvent>, e: RawEvent) {
    && e.modifiers == TrueMask(a, before)
    && (e.key in a.modifierOf ==>
          && e.press != RawDown(before, e.key)
          && (e.keycode != KEYVAL_UNDEF ==>
                forall i :: 0 <= i < |before| && before[i].keycode == e.keycode && before[i].key != e.key ==>
                  !RawDown(before, before[i].key)))
  }

  predicate AllTruthful(a: Attachments, events: seq<RawEvent>) {
    events == [] ||
    (var front := events[..|events| - 1];
     AllTruthful(a, front) && Truthful(a, front, events[|events| - 1]))
  }

  /** The events of keysyms the stage knows. */
  function Known(a: Attachments, events: seq<RawEvent>): seq<KeyEvent> {
    if events == [] then []
    else
      var e := events[|events| - 1];
      Known(a, events[..|events| - 1]) + if e.key in a.modifierOf then [KeyEvent(e.key, e.press, e.time)] else []
  }

  /** The stage has each keysym as the raw events have it, and has passed them on. */
  ghost predicate Mirrors(a: Attachments, events: seq<RawEvent>, s: State) {
    && (forall key :: s.Pressed(key) <==> key in a.modifierOf && RawDown(events, key))
    && KeycodesGiven(events, s.keycodes)
    && s.calls == Known(a, events)
  }

  /** The true mask is the one the stage has. */
  lemma MirrorMask(a: Attachments, events: seq<RawEvent>, s: State)
    requires a.Valid() && Inv(a, s) && Mirrors(a, events, s)
    ensures s.modifiers == TrueMask(a, events)
  {
    hide CallsExact;
    forall m | m in a.have ensures Held(a, s, m) <==> HoldsModifier(a, events, m) {
      var list := a.ModKeys(m);
      assert forall i :: 0 <= i < |list| ==> a.ModifierOf(list[i]) == m && list[i] in a.modifierOf;
      if Held(a, s, m) {
        var key :| a.ModifierOf(key) == m && s.Pressed(key);
        ModifierKnown(a, key);
        var i :| 0 <= i < |list| && list[i] == key;
      }
      if HoldsModifier(a, events, m) {
        var i :| 0 <= i < |list| && RawDown(events, list[i]);
        assert s.Pressed(list[i]);
      }
    }
  }

  /** With the mask it has, the stage has nothing to bring about. */
  lemma NothingMissed(a: Attachments, s: State, e: RawEvent)
    requires e.modifiers == s.modifiers
    ensures Synchronized(a, s, e) == s && CanSynchronize(a, s, e.modifiers)
  {
    assert (s.modifiers - e.modifiers) * a.have == {} && (e.modifiers - s.modifiers) * a.have == {};
    ClearNone(a, s, 0, EventTimeDiff(e.time, -1));
    SetNone(a, s, 0, EventTimeDiff(e.time, -1));
  }

  lemma TruthfulTakesNone(a: Attachments, before: seq<RawEvent>, s: State, e: RawEvent)
    requires Mirrors(a, before, s) && Truthful(a, before, e) && e.key in a.modifierOf && Takes(s, e)
    ensures !s.Pressed(s.keycodes[e.keycode])
  {
    var i :| 0 <= i < |before| && before[i].keycode == e.keycode && before[i].key == s.keycodes[e.keycode];
  }

  /** One truthful event goes through, and is all that is passed on. */
  lemma TruthfulGoes(a: Attachments, before: seq<RawEvent>, s: State, e: RawEvent)
    requires a.Valid() && Inv(a, s) && Given(a, e) && Mirrors(a, before, s) && Truthful(a, before, e)
    ensures Step(a, s, e).Ran?
  {
    hide Inv, Step, TrueMask, Known;
    MirrorMask(a, before, s);
    NothingMissed(a, s, e);
    MaskKnown(a, s);
    StepRunsIff(a, s, e);
    if e.press && e.key in a.modifierOf {
      WillStay(a, s, e.key);
      if Takes(s, e) {
        TruthfulTakesNone(a, before, s, e);
        WillStay(a, s, s.keycodes[e.keycode]);
      }
    }
  }

  lemma WillStay(a: Attachments, s: State, key: Keysym)
    requires a.Valid() && Inv(a, s) && !s.Pressed(key)
    ensures !Alone(a, s, s.modifiers, key, {}) && !Will(a, s, s.modifiers, key)
  {
  }

  /** What a truthful event does: its keysym changes, and is passed on. */
  lemma TruthfulStep(a: Attachments, s: State, e: RawEvent)
    requires e.modifiers == s.modifiers && e.key in a.modifierOf && e.key != KEYVAL_UNDEF
    requires s.Pressed(e.key) != e.press && (Takes(s, e) ==> !s.Pressed(s.keycodes[e.keycode]))
    ensures var s' := Top(a, s, e);
      && (forall k :: s'.Pressed(k) == if k == e.key then e.press else s.Pressed(k))
      && s'.calls == s.calls + [KeyEvent(e.key, e.press, e.time)]
      && s'.keycodes == (if e.keycode == KEYVAL_UNDEF then s.keycodes
                         else if e.press then s.keycodes[e.keycode := e.key] else s.keycodes - {e.keycode})
  {
    NothingMissed(a, s, e);
    hide Synchronized;
    assert BeforeBottom(a, s, e) == s.(keycodes := BeforeBottom(a, s, e).keycodes);
  }

  lemma UnknownStep(a: Attachments, s: State, e: RawEvent)
    requires e.modifiers == s.modifiers && e.key !in a.modifierOf
    ensures var s' := Top(a, s, e);
      s'.calls == s.calls && s'.keycodes == s.keycodes && forall k :: s'.Pressed(k) == s.Pressed(k)
  {
    NothingMissed(a, s, e);
    hide Synchronized;
  }

  /** Keycodes are held by keysyms that raw events gave them to. */
  ghost predicate KeycodesGiven(events: seq<RawEvent>, keycodes: map<int, Keysym>) {
    forall c :: c in keycodes ==> exists i :: 0 <= i < |events| && events[i].keycode == c && events[i].key == keycodes[c]
  }

  lemma KeycodesGrow(before: seq<RawEvent>, e: RawEvent, keycodes: map<int, Keysym>)
    requires KeycodesGiven(before, keycodes)
    ensures KeycodesGiven(before + [e], keycodes)
    ensures KeycodesGiven(before + [e], keycodes[e.keycode := e.key])
    ensures KeycodesGiven(before + [e], keycodes - {e.keycode})
  {
    var after := before + [e];
    assert after[|before|] == e;
    forall c | c in keycodes ensures exists i :: 0 <= i < |after| && after[i].keycode == c && after[i].key == keycodes[c] {
      var i :| 0 <= i < |before| && before[i].keycode == c && before[i].key == keycodes[c];
      assert after[i] == before[i];
    }
  }

  lemma MirrorGrows(a: Attachments, before: seq<RawEvent>, s: State, e: RawEvent)
    requires a.Valid() && Inv(a, s) && Given(a, e) && Mirrors(a, before, s) && Truthful(a, before, e)
    ensures Mirrors(a, before + [e], Top(a, s, e))
  {
    hide Top, TrueMask, Inv, KeycodesGiven;
    MirrorMask(a, before, s);
    KeycodesGrow(before, e, s.keycodes);
    var after := before + [e];
    assert after[..|before|] == before;
    if e.key in a.modifierOf {
      if Takes(s, e) {
        TruthfulTakesNone(a, before, s, e);
      }
      TruthfulStep(a, s, e);
    } else {
      UnknownStep(a, s, e);
    }
  }

  /** A stream that misses nothing goes through, and stage zero passes on exactly what it
      is given. */
  lemma {:induction false} TruthfulStreamPlays(a: Attachments, events: seq<RawEvent>)
    requires a.Valid() && Streams(a, events) && AllTruthful(a, events)
    ensures Run(a, events).Ran?
    ensures Mirrors(a, events, Run(a, events).state)
  {
    if events == [] {
      InitialInv(a);
    } else {
      hide Mirrors, Truthful, Inv, Top, MaskAgrees, CanSynchronize;
      var front, last := events[..|events| - 1], events[|events| - 1];
      TruthfulStreamPlays(a, front);
      RunKeeps(a, front);
      TruthfulGoes(a, front, Run(a, front).state, last);
      MirrorGrows(a, front, Run(a, front).state, last);
      assert events == front + [last];
    }
  }

  /** A press repeated while its keysym holds a modifier alone stops the program, even
      with the very mask the stage has. */
  lemma RepeatedPressAborts(a: Attachments, s: State, e: RawEvent)
    requires a.Valid() && Inv(a, s) && Given(a, e) && e.press && e.key in a.modifierOf
    requires e.modifiers == s.modifiers && OnlyHolder(a, s, e.key)
    ensures Step(a, s, e) == Aborted
  {
    hide Step, Inv;
    StepRunsIff(a, s, e);
    ModifierKnown(a, e.key);
    PressedIsSet(a, s, e.key);
    assert forall i :: 0 <= i < |a.ModKeys(a.ModifierOf(e.key))| ==>
      a.ModifierOf(a.ModKeys(a.ModifierOf(e.key))[i]) == a.ModifierOf(e.key);
    assert Alone(a, s, e.modifiers, e.key, TakenFrom(s, e));
  }

  /** One keysym attached to one modifier. */
  const ONE := Attachments({0}, map[0 := [10]], map[10 := 0], true)

  /** The first press of that keysym. */
  lemma FirstPressGoes(e: RawEvent)
    requires e == RawEvent(true, {}, 10, KEYVAL_UNDEF, e.time) && e.time != UNDEF
    ensures ONE.Valid() && NoneEmpty(ONE) && Inv(ONE, INITIAL)
    ensures Step(ONE, INITIAL, e).Ran?
    ensures var s := Step(ONE, INITIAL, e).state;
      Inv(ONE, s) && s.modifiers == {0} && OnlyHolder(ONE, s, 10)
  {
    assert ONE.ModifierOf(10) == 0 && ONE.ModKeys(0) == [10];
    InitialInv(ONE);
    assert forall key :: ONE.ModifierOf(key) == 0 <==> key == 10;
    hide Step, Inv;
    StepRunsIff(ONE, INITIAL, e);
    assert !Will(ONE, INITIAL, {}, 10);
    TopKeeps(ONE, INITIAL, e);
  }

  /** A second press of the only keysym of a modifier, with the mask the first one
      left, stops the program, though no list is empty. */
  lemma RepeatedModifierAborts(t0: Time, t1: Time)
    requires t0 != UNDEF && t1 != UNDEF
    ensures var events := [RawEvent(true, {}, 10, KEYVAL_UNDEF, t0), RawEvent(true, {0}, 10, KEYVAL_UNDEF, t1)];
      && ONE.Valid() && NoneEmpty(ONE) && Streams(ONE, events)
      && Run(ONE, events[..1]).Ran? && Run(ONE, events) == Aborted
  {
    hide Step, Inv, OnlyHolder, NoneEmpty, Attachments.Valid;
    var e0, e1 := RawEvent(true, {}, 10, KEYVAL_UNDEF, t0), RawEvent(true, {0}, 10, KEYVAL_UNDEF, t1);
    var events := [e0, e1];
    assert events[..1] == [e0] && [e0][..0] == [];
    FirstPressGoes(e0);
    assert Run(ONE, []) == Ran(INITIAL);
    assert Run(ONE, [e0]) == Step(ONE, INITIAL, e0);
    RepeatedPressAborts(ONE, Step(ONE, INITIAL, e0).state, e1);
  }

  // ---------------------------------------------------------------- the stage

  /** The keysyms of `keys` attached to `m`, all others as they were. */
  function Attach(modifierOf: map<Keysym, int>, keys: seq<Keysym>, m: int): map<Keysym, int> {
    if keys == [] then modifierOf else Attach(modifierOf, keys[..|keys| - 1], m)[keys[|keys| - 1] := m]
  }

  lemma {:induction false} AttachAt(modifierOf: map<Keysym, int>, keys: seq<Keysym>, m: int, key: Keysym)
    ensures key in Attach(modifierOf, keys, m) <==> key in modifierOf || key in keys
    ensures key in keys ==> Attach(modifierOf, keys, m)[key] == m
    ensures key in modifierOf && key !in keys ==> Attach(modifierOf, keys, m)[key] == modifierOf[key]
  {
    if keys != [] {
      var front := keys[..|keys| - 1];
      AttachAt(modifierOf, front, m, key);
      assert keys == front + [keys[|keys| - 1]];
    }
  }

  // Keysyms attached to a modifier are on a list, linked through the keysyms.

  /** What follows the last place of a keysym in a list. */
  function AfterLast(list: seq<Keysym>, key: Keysym): (rest: seq<Keysym>)
    requires key in list
    ensures |rest| < |list| && rest == list[|list| - |rest|..]
  {
    if key in list[1..] then AfterLast(list[1..], key) else list[1..]
  }

  /** The list that linking these keysyms one after the other makes: a keysym that is
      there twice has one link, the one it was given last. */
  function Linked(list: seq<Keysym>): seq<Keysym>
    decreases |list|
  {
    if list == [] then [] else [list[0]] + Linked(AfterLast(list, list[0]))
  }

  /** What another list becomes, when some of its keysyms are linked anew. */
  function Rechained(chain: seq<Keysym>, list: seq<Keysym>): seq<Keysym> {
    if chain == [] then []
    else if chain[0] in list then [chain[0]] + Linked(AfterLast(list, chain[0]))
    else [chain[0]] + Rechained(chain[1..], list)
  }

  /** The links that are written, first to last; the last keysym has none. */
  function Links(next: map<Keysym, Keysym>, list: seq<Keysym>): map<Keysym, Keysym>
    decreases |list|
  {
    if list == [] then next
    else Links(next[list[0] := FirstKey(list[1..])], list[1..])
  }

  function FirstKey(list: seq<Keysym>): Keysym {
    if list == [] then KEYVAL_UNDEF else list[0]
  }

  /** What comes after a place in a list. */
  function Following(chain: seq<Keysym>, i: nat): Keysym {
    if i + 1 < |chain| then chain[i + 1] else KEYVAL_UNDEF
  }

  /** A list is what following the links from its first keysym visits. */
  predicate IsChain(next: map<Keysym, Keysym>, chain: seq<Keysym>) {
    forall i :: 0 <= i < |chain| ==> chain[i] in next && next[chain[i]] == Following(chain, i)
  }

  lemma {:induction false} LinksAt(next: map<Keysym, Keysym>, list: seq<Keysym>, key: Keysym)
    ensures key !in list ==> (key in Links(next, list) <==> key in next)
    ensures key !in list && key in next ==> Links(next, list)[key] == next[key]
    ensures key in list ==> key in Links(next, list) && Links(next, list)[key] == FirstKey(AfterLast(list, key))
    decreases |list|
  {
    if list != [] {
      assert list == [list[0]] + list[1..];
      LinksAt(next[list[0] := FirstKey(list[1..])], list[1..], key);
    }
  }

  /** Every keysym of a list has the link that a whole list gives it. */
  predicate LinkedBy(next: map<Keysym, Keysym>, list: seq<Keysym>) {
    forall key :: key in list ==> key in next && next[key] == FirstKey(AfterLast(list, key))
  }

  lemma {:induction false} AfterLastOfRest(list: seq<Keysym>, first: Keysym, key: Keysym)
    requires first in list && key in AfterLast(list, first)
    ensures key in list && AfterLast(list, key) == AfterLast(AfterLast(list, first), key)
  {
    if first in list[1..] {
      AfterLastOfRest(list[1..], first, key);
    }
    assert list == [list[0]] + list[1..];
  }

  lemma {:induction false} LinkedIsChain(next: map<Keysym, Keysym>, list: seq<Keysym>)
    requires LinkedBy(next, list)
    ensures IsChain(next, Linked(list))
    ensures Linked(list) == [] <==> list == []
    ensures FirstKey(Linked(list)) == FirstKey(list)
    decreases |list|
  {
    if list != [] {
      var rest := AfterLast(list, list[0]);
      forall key | key in rest ensures key in next && next[key] == FirstKey(AfterLast(rest, key)) {
        AfterLastOfRest(list, list[0], key);
      }
      LinkedIsChain(next, rest);
      ChainCons(next, list[0], Linked(rest));
    }
  }

  lemma ChainCons(next: map<Keysym, Keysym>, key: Keysym, chain: seq<Keysym>)
    requires IsChain(next, chain) && key in next && next[key] == FirstKey(chain)
    ensures IsChain(next, [key] + chain)
  {
    var whole := [key] + chain;
    forall i | 0 <= i < |whole| ensures whole[i] in next && next[whole[i]] == Following(whole, i) {
      if i > 0 { assert whole[i] == chain[i - 1] && Following(whole, i) == Following(chain, i - 1); }
    }
  }

  /** Writing the links of a list makes that list, and of every other what is said. */
  lemma {:induction false} LinksMake(next: map<Keysym, Keysym>, list: seq<Keysym>, chain: seq<Keysym>)
    requires IsChain(next, chain)
    ensures IsChain(Links(next, list), Linked(list))
    ensures IsChain(Links(next, list), Rechained(chain, list))
    ensures FirstKey(Rechained(chain, list)) == FirstKey(chain)
  {
    var next' := Links(next, list);
    forall key ensures key in list ==> key in next' && next'[key] == FirstKey(AfterLast(list, key)) {
      LinksAt(next, list, key);
    }
    LinkedIsChain(next', list);
    if chain != [] {
      if chain[0] in list {
        var rest := AfterLast(list, chain[0]);
        forall key | key in rest ensures key in next' && next'[key] == FirstKey(AfterLast(rest, key)) {
          AfterLastOfRest(list, chain[0], key);
        }
        LinkedIsChain(next', rest);
        ChainCons(next', chain[0], Linked(rest));
      } else {
        LinksAt(next, list, chain[0]);
        forall i | 0 <= i < |chain[1..]| ensures chain[1..][i] in next && next[chain[1..][i]] == Following(chain[1..], i) {
          assert chain[1..][i] == chain[i + 1] && Following(chain[1..], i) == Following(chain, i + 1);
        }
        LinksMake(next, list, chain[1..]);
        assert next[chain[0]] == Following(chain, 0);
        ChainCons(next', chain[0], Rechained(chain[1..], list));
      }
    }
  }

  lemma {:induction false} LinkedIn(list: seq<Keysym>)
    ensures forall key :: key in Linked(list) ==> key in list
    decreases |list|
  {
    if list != [] {
      var rest := AfterLast(list, list[0]);
      LinkedIn(rest);
      assert forall key :: key in rest ==> key in list;
    }
  }

  /** Every keysym of a list is still on it once it has been linked. */
  predicate Reaches(list: seq<Keysym>) {
    forall i :: 0 <= i < |list| ==> list[i] in Linked(list)
  }

  /** A list without repetition is linked as it is. */
  lemma {:induction false} DistinctReaches(list: seq<Keysym>)
    requires forall i, j :: 0 <= i < j < |list| ==> list[i] != list[j]
    ensures Linked(list) == list && Reaches(list)
  {
    if list != [] {
      forall i, j | 0 <= i < j < |list[1..]| ensures list[1..][i] != list[1..][j] {
        assert list[1..][i] == list[i + 1] && list[1..][j] == list[j + 1];
      }
      assert list[0] !in list[1..];
      DistinctReaches(list[1..]);
    }
  }

  /** A keysym between two places of another is lost. */
  lemma BetweenIsLost(k: Keysym, j: Keysym)
    requires k != j
    ensures Linked([k, j, k]) == [k] && !Reaches([k, j, k])
  {
    assert [k, j, k][1..] == [j, k] && [j, k][1..] == [k] && [k][1..] == [];
    assert AfterLast([k], k) == [] && AfterLast([j, k], k) == [] && AfterLast([k, j, k], k) == [];
    assert [k, j, k][1] == j;
  }

  lemma {:induction false} RechainedApart(chain: seq<Keysym>, list: seq<Keysym>)
    ensures (forall key :: key in chain ==> key !in list) ==> Rechained(chain, list) == chain
    ensures !(forall key :: key in chain ==> key !in list) ==> exists i :: 0 <= i < |Rechained(chain, list)| && Rechained(chain, list)[i] in list
  {
    if chain != [] {
      var rest := chain[1..];
      assert chain == [chain[0]] + rest;
      RechainedApart(rest, list);
      var now := Rechained(chain, list);
      if chain[0] in list {
        assert now[0] in list;
      } else if exists i :: 0 <= i < |Rechained(rest, list)| && Rechained(rest, list)[i] in list {
        var i :| 0 <= i < |Rechained(rest, list)| && Rechained(rest, list)[i] in list;
        assert now[i + 1] in list;
      }
    }
  }

  /** Attaching a list of keysyms to a modifier. */
  function Attaching(a: Attachments, m: int, list: seq<Keysym>): Attachments {
    Attachments(a.have + {m},
                map m' | m' in a.modkeys.Keys + {m} :: if m' == m then Linked(list) else Rechained(a.modkeys[m'], list),
                Attach(Attach(a.modifierOf, a.ModKeys(m), MODIFIER_NONE), list, m), a.passthrough)
  }

  /** None of these keysyms is attached to another modifier. */
  predicate NoneElsewhere(a: Attachments, m: int, list: seq<Keysym>) {
    forall i :: 0 <= i < |list| && list[i] in a.modifierOf ==> a.modifierOf[list[i]] == m || a.modifierOf[list[i]] == MODIFIER_NONE
  }

  lemma SetFromStep(a: Attachments, s: State, toSet: set<int>, m: int, time: Time)
    ensures SetFrom(a, s, toSet, m, time) ==
      if m > MODIFIER_MAX then s
      else if m in toSet && a.ModKeys(m) != [] then SetFrom(a, Bottom(a, s, a.ModKeys(m)[0], PressAuto, time), toSet, m + 1, time)
      else SetFrom(a, s, toSet, m + 1, time)
  {
  }

  class InputStage0 {
    var have: set<int>
    var modkeys: map<int, seq<Keysym>>
    var modifierOf: map<Keysym, int>
    var passthrough: bool
    var keys: map<Keysym, KeyState>
    var modifiers: set<int>
    var keycodes: map<int, Keysym>
    var calls: seq<KeyEvent>
    var direct: seq<KeyEvent>

    ghost function Attached(): Attachments
      reads this
    {
      Attachments(have, modkeys, modifierOf, passthrough)
    }

    ghost function View(): State
      reads this
    {
      State(keys, modifiers, keycodes, calls, direct)
    }

    constructor ()
      ensures View() == INITIAL
      ensures Attached() == Attachments({}, map[], map[], true) && Attached().Valid()
    {
      have, modkeys, modifierOf, passthrough := {}, map[], map[], true;
      keys, modifiers, keycodes, calls, direct := map[], {}, map[], [], [];
    }

    /** Changes the set of keysyms attached to a modifier, before any event. */
    method AttachModifier(modifier: int, list: seq<Keysym>)
      requires View() == INITIAL
      requires MODIFIER_NONE < modifier <= MODIFIER_MAX
      requires KEYVAL_UNDEF !in list
      modifies `have, `modkeys, `modifierOf
      ensures Attached() == Attaching(old(Attached()), modifier, list)
      ensures old(Attached().Valid()) ==>
        (Attached().Valid() <==> Reaches(list) && NoneElsewhere(old(Attached()), modifier, list))
    {
      hide Attachments.Valid, Linked, Rechained, Reaches;
      var was := if modifier in modkeys then modkeys[modifier] else [];
      var i := 0;
      while i < |was|
        invariant 0 <= i <= |was|
        invariant modifierOf == Attach(old(modifierOf), was[..i], MODIFIER_NONE)
        invariant have == old(have) && modkeys == old(modkeys)
      {
        modifierOf := modifierOf[was[i] := MODIFIER_NONE];
        assert was[..i + 1][..i] == was[..i];
        i := i + 1;
      }
      assert was[..i] == was;
      ghost var cleared := modifierOf;
      i := 0;
      while i < |list|
        invariant 0 <= i <= |list|
        invariant modifierOf == Attach(cleared, list[..i], modifier)
        invariant have == old(have) && modkeys == old(modkeys)
      {
        modifierOf := modifierOf[list[i] := modifier];
        assert list[..i + 1][..i] == list[..i];
        i := i + 1;
      }
      assert list[..i] == list;
      modkeys := map m | m in modkeys.Keys + {modifier} :: if m == modifier then Linked(list) else Rechained(modkeys[m], list);
      have := have + {modifier};
      if old(Attached().Valid()) {
        AttachingValidIff(old(Attached()), modifier, list);
      }
    }

    /** Whether the search through a list meets a pressed keysym. */
    method AnyPressed(list: seq<Keysym>) returns (pressed: bool)
      ensures pressed <==> !AllUp(View(), list)
    {
      var i := 0;
      while i < |list|
        invariant 0 <= i <= |list|
        invariant forall j :: 0 <= j < i ==> !View().Pressed(list[j])
      {
        if list[i] in keys && keys[list[i]].how != Up {
          assert View().Pressed(list[i]);
          return true;
        }
        i := i + 1;
      }
      pressed := false;
    }

    /** The bottom half, with the mask of its event.  An automatic press comes only to
        a key that is up, an automatic release only to one pressed automatically; at a
        press the mask must be the event's, or the program stops. */
    method BottomHalf(key: Keysym, type_: EventType, time: Time, mask: set<int>) returns (ok: bool)
      requires key in modifierOf
      requires Attached().Valid()
      requires type_.PressAuto? ==> !View().Pressed(key)
      requires type_.ReleaseAuto? ==> View().Key(key).how == ByAuto
      modifies `keys, `modifiers, `calls
      ensures ok == (IsPress(type_) ==> AtPress(Attached(), old(View()), key, time).modifiers == mask)
      ensures ok ==> View() == Bottom(Attached(), old(View()), key, type_, time)
      decreases IsPress(type_)
    {
      hide EventTimeDiff, EventTimeSubtract, AllUp;
      ok := true;
      var state := if key in keys then keys[key] else KeyState(Up, UNDEF);
      var modifier := if have != {} then modifierOf[key] else MODIFIER_NONE;
      if IsPress(type_) {
        if type_.PressAuto? {
          assert state.how == Up;
        }
        if state.how != Up {
          var time1 := EventTimeDiff(state.pressTime, SHORTEST_DOUBLE_MSEC);
          if EventTimeSubtract(time1, time) <= 0 {
            time1 := EventTimeDiff(time, -1);
          }
          ok := BottomHalf(key, ReleaseOf(state.how), time1, modifiers);
          assert ok;
        }
        keys := keys[key := KeyState(if type_.PressUser? then ByUser else ByAuto, time)];
        if modifiers != mask {
          return false;
        }
        if modifier != MODIFIER_NONE {
          modifiers := modifiers + {modifier};
        }
      } else {
        if type_.ReleaseAuto? {
          assert state.how == ByAuto;
        }
        if state.how == Up {
          return;
        }
        keys := keys[key := state.(how := Up)];
        if modifier != MODIFIER_NONE {
          var pressed := AnyPressed(modkeys[modifier]);
          if !pressed {
            modifiers := modifiers - {modifier};
          }
        }
      }
      calls := calls + [KeyEvent(key, keys[key].how != Up, time)];
    }

    /** Releases the keysyms of one modifier that are pressed. */
    method ReleaseList(list: seq<Keysym>, time: Time)
      requires Attached().Valid()
      requires forall i :: 0 <= i < |list| ==> list[i] in modifierOf
      modifies `keys, `modifiers, `calls
      ensures View() == ReleaseFrom(Attached(), old(View()), list, time)
    {
      var i := 0;
      while i < |list|
        invariant 0 <= i <= |list|
        invariant ReleaseFrom(Attached(), View(), list[i..], time) == ReleaseFrom(Attached(), old(View()), list, time)
      {
        var state := if list[i] in keys then keys[list[i]] else KeyState(Up, UNDEF);
        assert list[i..][0] == list[i] && list[i..][1..] == list[i + 1..];
        if state.how != Up {
          var ok := BottomHalf(list[i], ReleaseOf(state.how), time, modifiers);
          assert ok;
        }
        i := i + 1;
      }
    }

    /** Releases every keysym of the modifiers cleared unseen. */
    method ClearModifiers(toClear: set<int>, time: Time)
      requires Attached().Valid() && toClear <= have
      modifies `keys, `modifiers, `calls
      ensures View() == ClearFrom(Attached(), old(View()), toClear, 0, time)
    {
      var m := 0;
      while m <= MODIFIER_MAX
        invariant 0 <= m <= MODIFIER_MAX + 1
        invariant ClearFrom(Attached(), View(), toClear, m, time)
               == ClearFrom(Attached(), old(View()), toClear, 0, time)
      {
        if m in toClear {
          assert forall i :: 0 <= i < |modkeys[m]| ==> Attached().ModifierOf(Attached().ModKeys(m)[i]) == m;
          ReleaseList(modkeys[m], time);
        }
        m := m + 1;
      }
    }

    /** Presses the first keysym of one modifier that is not in the mask. */
    method SetModifier(m: int, time: Time)
      requires Attached().Valid() && Inv(Attached(), View()) && time != UNDEF
      requires m in have && m !in modifiers && Attached().ModKeys(m) != []
      modifies `keys, `modifiers, `calls
      ensures Attached().ModKeys(m) == old(Attached().ModKeys(m))
      ensures View() == Bottom(Attached(), old(View()), Attached().ModKeys(m)[0], PressAuto, time)
      ensures Inv(Attached(), View()) && forall m' :: m' !in old(modifiers) && m' != m ==> m' !in modifiers
    {
      hide Inv, Bottom, CallsExact;
      SetOneKeeps(Attached(), View(), m, time);
      var ok := BottomHalf(modkeys[m][0], PressAuto, time, modifiers);
      assert ok;
    }

    /** Presses the first keysym of each modifier set unseen, which must have one; none
        is pressed yet. */
    method SetModifiers(toSet: set<int>, time: Time) returns (ok: bool)
      requires Attached().Valid() && Inv(Attached(), View()) && time != UNDEF
      requires toSet <= have && forall m :: m in toSet ==> m !in modifiers
      modifies `keys, `modifiers, `calls
      ensures ok <==> forall m :: m in toSet ==> Attached().ModKeys(m) != []
      ensures ok ==> View() == SetFrom(Attached(), old(View()), toSet, 0, time)
    {
      hide Inv, Bottom, SetFrom;
      assert forall m :: m in toSet ==> 0 <= m <= MODIFIER_MAX;
      var m := 0;
      while m <= MODIFIER_MAX
        invariant 0 <= m <= MODIFIER_MAX + 1
        invariant forall m' :: m' in toSet && m' < m ==> Attached().ModKeys(m') != []
        invariant Inv(Attached(), View()) && forall m' :: m' in toSet && m <= m' ==> m' !in modifiers
        invariant SetFrom(Attached(), View(), toSet, m, time) == SetFrom(Attached(), old(View()), toSet, 0, time)
      {
        SetFromStep(Attached(), View(), toSet, m, time);
        if m in toSet {
          if |modkeys[m]| == 0 {
            return false;
          }
          SetModifier(m, time);
        }
        m := m + 1;
      }
      SetFromStep(Attached(), View(), toSet, m, time);
      ok := true;
    }

    /** Generates the releases and presses the mask shows were missed. */
    method MatchMask(mask: set<int>, time: Time) returns (ok: bool)
      requires Attached().Valid() && Inv(Attached(), View()) && time != UNDEF
      modifies `keys, `modifiers, `calls
      ensures ok == CanSynchronize(Attached(), old(View()), mask)
      ensures ok ==> View() == Synchronize(Attached(), old(View()), mask, time)
    {
      hide Inv, ClearFrom, SetFrom;
      var toClear := (modifiers - mask) * have;
      var toSet := (mask - modifiers) * have;
      ClearFromKeeps(Attached(), View(), toClear, 0, time);
      if toClear != {} {
        ClearModifiers(toClear, time);
        assert forall m :: m in toClear ==> m !in modifiers;
        assert modifiers * toClear == {};
      } else {
        ClearNone(Attached(), View(), 0, time);
      }
      if toSet != {} {
        ghost var cleared := View();
        ok := SetModifiers(toSet, time);
        if !ok {
          return;
        }
        SetFromKeeps(Attached(), cleared, toSet, 0, time);
        assert forall m :: m in toSet ==> m in modifiers;
        assert modifiers * toSet == toSet;
      } else {
        SetNone(Attached(), View(), 0, time);
        ok := true;
      }
    }

    /** Gives the event's keycode to its keysym, or takes it away. */
    method MoveKeycode(e: RawEvent)
      requires Attached().Valid() && e.time != UNDEF
      requires forall c :: c in keycodes ==> keycodes[c] in modifierOf
      modifies `keys, `modifiers, `keycodes, `calls
      ensures View() == TakeKeycode(Attached(), old(View()), e)
    {
      if e.keycode in keycodes {
        var other := keycodes[e.keycode];
        var state := if other in keys then keys[other] else KeyState(Up, UNDEF);
        if other != e.key && state.how != Up {
          var ok := BottomHalf(other, ReleaseOf(state.how), EventTimeDiff(e.time, -1), modifiers);
          assert ok;
        }
      }
      if e.press {
        keycodes := keycodes[e.keycode := e.key];
      } else {
        keycodes := keycodes - {e.keycode};
      }
    }

    /** The top half. */
    method Event(e: RawEvent) returns (ok: bool)
      requires Attached().Valid() && Inv(Attached(), View()) && Given(Attached(), e)
      modifies `keys, `modifiers, `keycodes, `calls, `direct
      ensures ok == Step(Attached(), old(View()), e).Ran?
      ensures ok ==> View() == Step(Attached(), old(View()), e).state
    {
      hide Inv, Bottom, Synchronize, TakeKeycode, AtPress;
      ghost var before := View();
      ok := true;
      if have != {} {
        ok := MatchMask(e.modifiers, EventTimeDiff(e.time, -1));
        if !ok {
          return;
        }
        if e.key == KEYVAL_UNDEF {
          return;
        }
      }
      assert e.key != KEYVAL_UNDEF;
      SynchronizedKeeps(Attached(), before, e);
      if e.key !in modifierOf {
        if passthrough {
          direct := direct + [KeyEvent(e.key, e.press, e.time)];
        }
        return;
      }
      if e.keycode != KEYVAL_UNDEF {
        KeycodesKnown(Attached(), View());
        MoveKeycode(e);
      }
      ok := BottomHalf(e.key, if e.press then PressUser else ReleaseUser, e.time, e.modifiers);
    }
  }

  lemma KeycodesKnown(a: Attachments, s: State)
    requires Inv(a, s)
    ensures forall c :: c in s.keycodes ==> s.keycodes[c] in a.modifierOf
  {
  }

  lemma {:induction false} ClearNone(a: Attachments, s: State, m: int, time: Time)
    ensures ClearFrom(a, s, {}, m, time) == s
    decreases MODIFIER_MAX + 1 - m
  {
    if m <= MODIFIER_MAX { ClearNone(a, s, m + 1, time); }
  }

  lemma {:induction false} SetNone(a: Attachments, s: State, m: int, time: Time)
    ensures SetFrom(a, s, {}, m, time) == s
    decreases MODIFIER_MAX + 1 - m
  {
    if m <= MODIFIER_MAX { SetNone(a, s, m + 1, time); }
  }

  /** `to` is `from` with the keysyms of `was` detached and those of `list` attached to `m`. */
  ghost predicate Reattached(from: map<Keysym, int>, to: map<Keysym, int>, was: seq<Keysym>, list: seq<Keysym>, m: int) {
    forall key ::
      && (key in to <==> key in from || key in was || key in list)
      && (key in to ==> to[key] == if key in list then m else if key in was then MODIFIER_NONE else from[key])
  }

  lemma ReattachedKeepsValid(a: Attachments, a': Attachments, m: int, list: seq<Keysym>, chain: seq<Keysym>)
    requires a.Valid() && MODIFIER_NONE < m <= MODIFIER_MAX
    requires forall key :: key in list ==>
      key != KEYVAL_UNDEF && (key in a.modifierOf ==> a.modifierOf[key] in {MODIFIER_NONE, m})
    requires forall key :: key in chain <==> key in list
    requires a'.have == a.have + {m} && a'.modkeys == a.modkeys[m := chain]
    requires Reattached(a.modifierOf, a'.modifierOf, a.ModKeys(m), list, m)
    ensures a'.Valid()
  {
    assert forall key :: key in a.ModKeys(m) ==> a.ModifierOf(key) == m;
    forall m', i | m' in a'.have && 0 <= i < |a'.ModKeys(m')| ensures a'.ModifierOf(a'.ModKeys(m')[i]) == m' {
      if m' != m {
        var key := a.ModKeys(m')[i];
        assert a.ModifierOf(key) == m';
        assert key !in list && key !in a.ModKeys(m);
      }
    }
    forall key | key in a'.modifierOf && a'.modifierOf[key] != MODIFIER_NONE
      ensures a'.modifierOf[key] in a'.have && key in a'.ModKeys(a'.modifierOf[key])
    {
      if key !in list {
        assert key !in a.ModKeys(m) && a'.modifierOf[key] != m;
      }
    }
  }

  lemma AttachingReattaches(a: Attachments, m: int, list: seq<Keysym>)
    ensures Reattached(a.modifierOf, Attaching(a, m, list).modifierOf, a.ModKeys(m), list, m)
  {
    hide Attach;
    var cleared := Attach(a.modifierOf, a.ModKeys(m), MODIFIER_NONE);
    forall key
      ensures key in Attach(cleared, list, m) <==> key in a.modifierOf || key in a.ModKeys(m) || key in list
      ensures key in list ==> Attach(cleared, list, m)[key] == m
      ensures key !in list && key in a.ModKeys(m) ==> Attach(cleared, list, m)[key] == MODIFIER_NONE
      ensures key !in list && key !in a.ModKeys(m) && key in a.modifierOf ==> Attach(cleared, list, m)[key] == a.modifierOf[key]
    {
      AttachAt(a.modifierOf, a.ModKeys(m), MODIFIER_NONE, key);
      AttachAt(cleared, list, m, key);
    }
  }

  /** Attaching keeps the lists and the keysyms in agreement iff linking the list loses
      none of its keysyms, and none of them is attached to another modifier. */
  lemma AttachingValidIff(a: Attachments, m: int, list: seq<Keysym>)
    requires a.Valid() && MODIFIER_NONE < m <= MODIFIER_MAX && KEYVAL_UNDEF !in list
    ensures Attaching(a, m, list).Valid() <==> Reaches(list) && NoneElsewhere(a, m, list)
  {
    hide Attach, Linked, Rechained, Attachments.Valid;
    var a' := Attaching(a, m, list);
    AttachingReattaches(a, m, list);
    LinkedIn(list);
    if !Reaches(list) {
      var i :| 0 <= i < |list| && list[i] !in Linked(list);
      LostKey(a', m, list[i]);
    } else if !NoneElsewhere(a, m, list) {
      var i :| 0 <= i < |list| && list[i] in a.modifierOf && a.modifierOf[list[i]] != m && a.modifierOf[list[i]] != MODIFIER_NONE;
      ElsewhereBreaks(a, m, list, list[i]);
    } else {
      OthersStay(a, m, list);
      ReattachedKeepsValid(a, a', m, list, Linked(list));
    }
  }

  lemma LostKey(a: Attachments, m: int, key: Keysym)
    requires key in a.modifierOf && a.modifierOf[key] == m != MODIFIER_NONE && key !in a.ModKeys(m)
    ensures !a.Valid()
  {
  }

  lemma OthersStay(a: Attachments, m: int, list: seq<Keysym>)
    requires a.Valid() && NoneElsewhere(a, m, list)
    ensures Attaching(a, m, list).modkeys == a.modkeys[m := Linked(list)]
  {
    hide Linked, Rechained;
    forall m' | m' in a.modkeys && m' != m ensures Rechained(a.modkeys[m'], list) == a.modkeys[m'] {
      var chain := a.modkeys[m'];
      assert chain == a.ModKeys(m');
      forall key | key in chain ensures key !in list {
        assert a.ModifierOf(key) == m';
      }
      RechainedApart(chain, list);
    }
  }

  lemma ElsewhereBreaks(a: Attachments, m: int, list: seq<Keysym>, key: Keysym)
    requires a.Valid() && m != MODIFIER_NONE && key in list
    requires key in a.modifierOf && a.modifierOf[key] != m && a.modifierOf[key] != MODIFIER_NONE
    ensures !Attaching(a, m, list).Valid()
  {
    hide Linked, Rechained, Attach;
    var a', m' := Attaching(a, m, list), a.modifierOf[key];
    assert key in a.ModKeys(m') && m' in a.modkeys;
    RechainedApart(a.ModKeys(m'), list);
    assert a'.ModKeys(m') == Rechained(a.ModKeys(m'), list);
    var i :| 0 <= i < |a'.ModKeys(m')| && a'.ModKeys(m')[i] in list;
    AttachingReattaches(a, m, list);
    assert a'.ModifierOf(a'.ModKeys(m')[i]) == m;
  }
}
