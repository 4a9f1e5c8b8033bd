/** The keymode stage of the keyboard, which is input stage one: it makes keys
    that lock, unlock or autorepeat behave alike for the stages after it.  Keys
    that may be autorepeating wait on a list until enough time has passed since
    their last raw release to believe it. */
module KeyboardModes {
  import opened KeyboardTime
  import opened KeyboardEvents

  // ---------------------------------------------------------------- modes

  const MODE_UNLOCK: bv8 := 1
  const MODE_LOCK: bv8 := 2
  const MODE_PASSTHROUGH: bv8 := 4
  const MODE_FLAG_NO_AUTOREPEATS: bv8 := 8
  const MODE_FLAG_NO_RELEASES: bv8 := 16
  const MODE_FLAG_LOCK_SOFT: bv8 := 32

  datatype Mode = Unlock | Lock | Passthrough(noAutorepeats: bool, noReleases: bool)
  {
    /** Keys of this mode wait on the list. */
    predicate Defers() { Lock? || (Passthrough? && noAutorepeats) }

    predicate Silent() { Passthrough? && noReleases }
  }

  /** What the stage does with a key of these mode bits. */
  function ModeOf(bits: bv8): Mode {
    if bits == MODE_UNLOCK then Unlock
    else if bits == MODE_LOCK then Lock
    else Passthrough(bits & MODE_FLAG_NO_AUTOREPEATS != 0, bits & MODE_FLAG_NO_RELEASES != 0)
  }

  /** Whether input stage one accepts these mode bits for a keysym. */
  predicate InModeAccepts(bits: bv8) {
    && !(bits & (MODE_UNLOCK | MODE_LOCK) != 0 && bits & (bits - 1) != 0)
    && !(bits & (MODE_FLAG_NO_AUTOREPEATS | MODE_FLAG_NO_RELEASES | MODE_FLAG_LOCK_SOFT) != 0
         && bits & MODE_PASSTHROUGH == 0)
    && bits & (MODE_FLAG_NO_RELEASES | MODE_FLAG_LOCK_SOFT) == 0
  }

  /** No key of input stage one may keep its releases back, and an unlock or lock
      bit decides alone. */
  lemma AcceptedModes(bits: bv8)
    requires InModeAccepts(bits)
    ensures !ModeOf(bits).Silent()
    ensures bits & MODE_UNLOCK != 0 <==> ModeOf(bits).Unlock?
    ensures bits & MODE_LOCK != 0 <==> ModeOf(bits).Lock?
    ensures ModeOf(bits).Passthrough? && ModeOf(bits).noAutorepeats ==> bits & MODE_PASSTHROUGH != 0
  {
    assert bits & MODE_UNLOCK != 0 && bits & (bits - 1) == 0 ==> bits == MODE_UNLOCK;
    assert bits & MODE_LOCK != 0 && bits & (bits - 1) == 0 ==> bits == MODE_LOCK;
  }

  /** Input stage one accepts the unlock bit or the lock bit by itself, and without these
      whatever keeps no releases back, is no soft lock, and withholds autorepeats only
      where events pass. */
  lemma AcceptedIff(bits: bv8)
    ensures InModeAccepts(bits) <==>
      || bits == MODE_UNLOCK || bits == MODE_LOCK
      || (&& bits & MODE_UNLOCK == 0 && bits & MODE_LOCK == 0
          && bits & MODE_FLAG_NO_RELEASES == 0 && bits & MODE_FLAG_LOCK_SOFT == 0
          && (bits & MODE_FLAG_NO_AUTOREPEATS != 0 ==> bits & MODE_PASSTHROUGH != 0))
  {
    assert bits & (MODE_UNLOCK | MODE_LOCK) != 0 && bits & (bits - 1) == 0 ==> bits == MODE_UNLOCK || bits == MODE_LOCK;
  }

  /** A keysym no mode was set for has the global mode, which is zero. */
  function ModeFor(modes: map<Keysym, Mode>, key: Keysym): Mode {
    if key in modes then modes[key] else Passthrough(false, false)
  }

  // ---------------------------------------------------------------- the stage

  datatype Keymode = Keymode(pressed: bool, lastRelease: Time, ignoreRelease: bool)

  datatype State = State(keys: map<Keysym, Keymode>, noAutorepeats: seq<Keysym>, calls: seq<KeyEvent>)
  {
    function Key(key: Keysym): Keymode { if key in keys then keys[key] else Keymode(false, UNDEF, false) }

    function With(key: Keysym, k: Keymode): State { this.(keys := keys[key := k]) }

    function Call(key: Keysym, time: Time): State {
      this.(calls := calls + [KeyEvent(key, Key(key).pressed, time)])
    }
  }

  const INITIAL := State(map[], [], [])

  /** Whether the call's own key has been taken care of during the walk. */
  datatype Caller = For(key: Keysym) | Handled

  /** The key at a position of the list has genuinely been released. */
  function Expire(modes: map<Keysym, Mode>, s: State, i: nat, time: Time): (s': State)
    requires i < |s.noAutorepeats|
    ensures |s'.noAutorepeats| == |s.noAutorepeats| - 1
  {
    var key := s.noAutorepeats[i];
    var k := s.Key(key);
    var s1 := s.(noAutorepeats := s.noAutorepeats[..i] + s.noAutorepeats[i + 1..]);
    if k.ignoreRelease then s1.With(key, k.(ignoreRelease := false))
    else
      var s2 := s1.With(key, k.(pressed := !k.pressed));
      if !k.pressed || !ModeFor(modes, key).Silent() then s2.Call(key, EventTimeDiff(time, -1)) else s2
  }

  /** Enough time has passed since the last raw release. */
  predicate Expired(k: Keymode, time: Time) {
    EventTimeSubtract(time, k.lastRelease) > SHORTEST_DOUBLE_MSEC
  }

  /** The walk over the list, from position `i`. */
  function Walk(modes: map<Keysym, Mode>, s: State, i: nat, caller: Caller, time: Time): (State, Caller)
    requires i <= |s.noAutorepeats|
    decreases |s.noAutorepeats| - i
  {
    if i == |s.noAutorepeats| then (s, caller)
    else
      var key := s.noAutorepeats[i];
      var k := s.Key(key);
      if k.lastRelease == UNDEF then
        if caller == For(key) then Walk(modes, s.With(key, k.(lastRelease := time)), i + 1, Handled, time)
        else Walk(modes, s, i + 1, caller, time)
      else if Expired(k, time) then Walk(modes, Expire(modes, s, i, time), i, caller, time)
      else if caller == For(key) then Walk(modes, s.With(key, k.(lastRelease := UNDEF)), i + 1, Handled, time)
      else Walk(modes, s, i + 1, caller, time)
  }

  /** A key that the walk did not take care of. */
  function Arrive(modes: map<Keysym, Mode>, s: State, e: KeyEvent): State {
    var k := s.Key(e.key);
    match ModeFor(modes, e.key)
    case Unlock =>
      var s1 := s.With(e.key, k.(pressed := true)).Call(e.key, EventTimeDiff(e.time, -1));
      s1.With(e.key, k.(pressed := false)).Call(e.key, e.time)
    case Lock =>
      var s1 := s.(noAutorepeats := [e.key] + s.noAutorepeats)
                 .With(e.key, Keymode(true, UNDEF, !k.pressed));
      if k.pressed then s1 else s1.Call(e.key, e.time)
    case Passthrough(noAutorepeats, noReleases) =>
      if e.press then
        var s1 := if noAutorepeats
          then s.(noAutorepeats := [e.key] + s.noAutorepeats).With(e.key, Keymode(true, UNDEF, false))
          else s.With(e.key, k.(pressed := true));
        if k.pressed then s1 else s1.Call(e.key, e.time)
      else
        var s1 := s.With(e.key, k.(pressed := false));
        if !k.pressed || noReleases then s1 else s1.Call(e.key, e.time)
  }

  function Stage(modes: map<Keysym, Mode>, s: State, e: KeyEvent): State {
    var walked := Walk(modes, s, 0, For(e.key), e.time);
    if walked.1.Handled? then walked.0 else Arrive(modes, walked.0, e)
  }

  function Run(modes: map<Keysym, Mode>, events: seq<KeyEvent>): State {
    if events == [] then INITIAL
    else Stage(modes, Run(modes, events[..|events| - 1]), events[|events| - 1])
  }

  // ---------------------------------------------------------------- what every step keeps

  /** The last raw event of a key released it, long enough before a time. */
  predicate Settled(raw: seq<KeyEvent>, key: Keysym, time: Time) {
    !Down(raw, key) && EventTimeSubtract(time, LastTime(raw, key)) > SHORTEST_DOUBLE_MSEC
  }

  /** What the stage knows of one key, given its mode, whether it is down in the
      raw events and since when, and whether it is on the list. */
  predicate KeyOk(mode: Mode, down: bool, since: Time, k: Keymode, listed: bool) {
    && (listed ==>
          && mode.Defers() && k.pressed
          && k.lastRelease == (if down then UNDEF else since)
          && (!down ==> since != UNDEF))
    && match mode
       case Unlock => !k.pressed
       case Lock => listed || !down
       case Passthrough(noAutorepeats, _) =>
         if noAutorepeats then (if listed then !k.ignoreRelease else !k.pressed && !down) else k.pressed == down
  }

  ghost predicate KeysOk(modes: map<Keysym, Mode>, raw: seq<KeyEvent>, s: State) {
    && NoDuplicates(s.noAutorepeats)
    && forall key {:trigger s.Key(key)} ::
         KeyOk(ModeFor(modes, key), Down(raw, key), LastTime(raw, key), s.Key(key), key in s.noAutorepeats)
  }

  predicate NoDuplicates(list: seq<Keysym>) {
    forall i, j :: 0 <= i < j < |list| ==> list[i] != list[j]
  }

  /** The next stage knows of every key that it is pressed, or that it is not. */
  ghost predicate CallsExact(s: State) {
    && Alternating(s.calls)
    && Timed(s.calls)
    && forall key :: Down(s.calls, key) == s.Key(key).pressed
  }

  ghost predicate NoneSilent(modes: map<Keysym, Mode>) {
    forall key :: !ModeFor(modes, key).Silent()
  }

  ghost predicate Inv(modes: map<Keysym, Mode>, raw: seq<KeyEvent>, s: State) {
    KeysOk(modes, raw, s) && (NoneSilent(modes) ==> CallsExact(s))
  }

  /** An event the earlier stages can deliver next. */
  predicate Next(raw: seq<KeyEvent>, e: KeyEvent) {
    e.press != Down(raw, e.key) && e.time != UNDEF
  }

  /** Between a key and the raw events, only the event's own key differs. */
  lemma RawAppend(raw: seq<KeyEvent>, e: KeyEvent)
    ensures forall key :: key != e.key ==>
      Down(raw + [e], key) == Down(raw, key) && LastTime(raw + [e], key) == LastTime(raw, key)
    ensures Down(raw + [e], e.key) == e.press && LastTime(raw + [e], e.key) == e.time
  {
    forall key
      ensures Down(raw + [e], key) == if e.key == key then e.press else Down(raw, key)
      ensures LastTime(raw + [e], key) == if e.key == key then e.time else LastTime(raw, key)
    {
      DownAppend(raw, e, key);
      LastTimeAppend(raw, e, key);
    }
  }

  lemma CallKeeps(s: State, s1: State, key: Keysym, time: Time)
    requires CallsExact(s) && time != UNDEF && s1.calls == s.calls
    requires s1.Key(key).pressed != s.Key(key).pressed
    requires forall k :: k != key ==> s1.Key(k) == s.Key(k)
    ensures CallsExact(s1.Call(key, time))
  {
    var e := KeyEvent(key, s1.Key(key).pressed, time);
    AlternatingAppend(s.calls, e);
    forall k ensures Down(s.calls + [e], k) == s1.Key(k).pressed {
      DownAppend(s.calls, e, k);
    }
  }

  lemma HandleKeeps(modes: map<Keysym, Mode>, raw: seq<KeyEvent>, e: KeyEvent, s: State, i: nat)
    requires Inv(modes, raw, s) && Next(raw, e)
    requires i < |s.noAutorepeats| && s.noAutorepeats[i] == e.key
    ensures e.press <==> s.Key(e.key).lastRelease != UNDEF
    ensures Inv(modes, raw + [e], s.With(e.key, s.Key(e.key).(lastRelease := if e.press then UNDEF else e.time)))
  {
    hide Down, LastTime;
    RawAppend(raw, e);
    var s' := s.With(e.key, s.Key(e.key).(lastRelease := if e.press then UNDEF else e.time));
    assert forall key :: s'.Key(key).pressed == s.Key(key).pressed;
  }

  lemma ExpireKeeps(modes: map<Keysym, Mode>, raw: seq<KeyEvent>, s: State, i: nat, time: Time)
    requires Inv(modes, raw, s) && time != UNDEF
    requires i < |s.noAutorepeats| && s.Key(s.noAutorepeats[i]).lastRelease != UNDEF
    ensures Inv(modes, raw, Expire(modes, s, i, time))
  {
    hide Down, LastTime;
    var key := s.noAutorepeats[i];
    var s' := Expire(modes, s, i, time);
    var list, list' := s.noAutorepeats, s'.noAutorepeats;
    assert forall j :: 0 <= j < |list'| ==> list'[j] == if j < i then list[j] else list[j + 1];
    forall k ensures k in list' <==> k in list && k != key {
      if k in list && k != key {
        var j :| 0 <= j < |list| && list[j] == k;
        assert list'[if j < i then j else j - 1] == k;
      }
    }
    assert forall k :: k != key ==> s'.Key(k) == s.Key(k);
    if NoneSilent(modes) {
      if s.Key(key).ignoreRelease {
        assert s'.Key(key).pressed == s.Key(key).pressed;
      } else {
        var s1 := s'.(calls := s.calls);
        assert s'.Key(key) == s1.Key(key);
        CallKeeps(s, s1, key, EventTimeDiff(time, -1));
        assert s' == s1.Call(key, EventTimeDiff(time, -1));
      }
    }
  }

  lemma ArriveKeeps(modes: map<Keysym, Mode>, raw: seq<KeyEvent>, e: KeyEvent, s: State)
    requires Inv(modes, raw, s) && Next(raw, e) && e.key !in s.noAutorepeats
    ensures Inv(modes, raw + [e], Arrive(modes, s, e))
  {
    hide Down, LastTime;
    RawAppend(raw, e);
    var s' := Arrive(modes, s, e);
    assert forall k :: k != e.key ==> s'.Key(k) == s.Key(k);
    assert KeysOk(modes, raw + [e], s');
    if NoneSilent(modes) {
      ArriveCalls(modes, s, e);
    }
  }

  /** A call is made when the key changes, and an unlocking key makes two. */
  lemma ArriveCalls(modes: map<Keysym, Mode>, s: State, e: KeyEvent)
    requires CallsExact(s) && e.time != UNDEF && !ModeFor(modes, e.key).Silent()
    requires ModeFor(modes, e.key).Unlock? ==> !s.Key(e.key).pressed
    ensures CallsExact(Arrive(modes, s, e))
  {
    hide Down, LastTime;
    var s' := Arrive(modes, s, e);
    var k := s.Key(e.key);
    assert forall key :: key != e.key ==> s'.Key(key) == s.Key(key);
    if ModeFor(modes, e.key).Unlock? {
      var t := EventTimeDiff(e.time, -1);
      var s1 := s.With(e.key, k.(pressed := true));
      CallKeeps(s, s1, e.key, t);
      var s2 := s1.Call(e.key, t);
      var s3 := s2.With(e.key, k.(pressed := false));
      CallKeeps(s2, s3, e.key, e.time);
      assert s' == s3.Call(e.key, e.time);
    } else if s'.Key(e.key).pressed != k.pressed {
      var s1 := s'.(calls := s.calls);
      assert s1.Key(e.key) == s'.Key(e.key);
      CallKeeps(s, s1, e.key, e.time);
      assert s' == s1.Call(e.key, e.time);
    } else {
      assert s'.calls == s.calls;
    }
  }

  // ---------------------------------------------------------------- the walk

  /** The raw events the state answers for: the event is one of them as soon as
      its key has been taken care of. */
  function Answered(raw: seq<KeyEvent>, e: KeyEvent, caller: Caller): seq<KeyEvent> {
    if caller.Handled? then raw + [e] else raw
  }

  ghost predicate Walking(modes: map<Keysym, Mode>, raw: seq<KeyEvent>, e: KeyEvent, s: State, i: nat, caller: Caller) {
    && i <= |s.noAutorepeats|
    && Inv(modes, Answered(raw, e, caller), s)
    && (caller.Handled? || caller == For(e.key))
    && (caller.Handled? <==> e.key in s.noAutorepeats[..i])
    && forall j :: 0 <= j < i && s.noAutorepeats[j] != e.key ==> !Settled(raw, s.noAutorepeats[j], e.time)
  }

  /** Why the stage may make a call when an event arrives.  A key that waits on
      the list is pressed only by the event itself, and released only when its
      last raw event before this one was a release that has settled. */
  ghost predicate Fits(modes: map<Keysym, Mode>, raw: seq<KeyEvent>, e: KeyEvent, c: KeyEvent) {
    var mode := ModeFor(modes, c.key);
    && (c.press || !mode.Silent())
    && (if mode.Unlock? then
          c.key == e.key && c.time == if c.press then EventTimeDiff(e.time, -1) else e.time
        else if mode.Defers() && !c.press then
          c.time == EventTimeDiff(e.time, -1) && Settled(raw, c.key, e.time)
        else c == e)
  }

  ghost predicate FitsFrom(modes: map<Keysym, Mode>, raw: seq<KeyEvent>, e: KeyEvent, calls: seq<KeyEvent>, calls': seq<KeyEvent>) {
    calls <= calls' && forall i :: |calls| <= i < |calls'| ==> Fits(modes, raw, e, calls'[i])
  }

  lemma ExpireFits(modes: map<Keysym, Mode>, raw: seq<KeyEvent>, e: KeyEvent, s: State, i: nat, caller: Caller)
    requires Walking(modes, raw, e, s, i, caller) && i < |s.noAutorepeats| && e.time != UNDEF
    requires s.Key(s.noAutorepeats[i]).lastRelease != UNDEF && Expired(s.Key(s.noAutorepeats[i]), e.time)
    ensures Settled(raw, s.noAutorepeats[i], e.time)
    ensures FitsFrom(modes, raw, e, s.calls, Expire(modes, s, i, e.time).calls)
    ensures Walking(modes, raw, e, Expire(modes, s, i, e.time), i, caller)
  {
    hide Down, LastTime;
    RawAppend(raw, e);
    var key := s.noAutorepeats[i];
    assert caller.Handled? ==> key != e.key;
    ExpireKeeps(modes, Answered(raw, e, caller), s, i, e.time);
    var list' := Expire(modes, s, i, e.time).noAutorepeats;
    assert list'[..i] == s.noAutorepeats[..i];
    assert forall j :: 0 <= j < i ==> list'[j] == s.noAutorepeats[j];
  }

  /** The walk takes care of the caller's key iff it is on the list and has not
      expired, and leaves no settled key there. */
  lemma {:induction false} WalkKeeps(modes: map<Keysym, Mode>, raw: seq<KeyEvent>, e: KeyEvent, s: State, i: nat, caller: Caller)
    requires Walking(modes, raw, e, s, i, caller) && Next(raw, e)
    ensures var (s', caller') := Walk(modes, s, i, caller, e.time);
      && Walking(modes, raw, e, s', |s'.noAutorepeats|, caller')
      && FitsFrom(modes, raw, e, s.calls, s'.calls)
    decreases |s.noAutorepeats| - i
  {
    hide Down, LastTime, Inv, Expire, Fits, Settled, Expired;
    if i < |s.noAutorepeats| {
      WalkStep(modes, raw, e, s, i, caller);
      var key := s.noAutorepeats[i];
      var k := s.Key(key);
      if k.lastRelease != UNDEF && Expired(k, e.time) {
        WalkKeeps(modes, raw, e, Expire(modes, s, i, e.time), i, caller);
      } else if caller == For(key) {
        WalkKeeps(modes, raw, e, s.With(key, k.(lastRelease := if e.press then UNDEF else e.time)), i + 1, Handled);
      } else {
        WalkKeeps(modes, raw, e, s, i + 1, caller);
      }
    } else {
      assert s.noAutorepeats[..i] == s.noAutorepeats;
    }
  }

  /** One position of the walk: the asserts made there hold. */
  lemma WalkStep(modes: map<Keysym, Mode>, raw: seq<KeyEvent>, e: KeyEvent, s: State, i: nat, caller: Caller)
    requires Walking(modes, raw, e, s, i, caller) && Next(raw, e) && i < |s.noAutorepeats|
    ensures var key, k := s.noAutorepeats[i], s.Key(s.noAutorepeats[i]);
      if k.lastRelease != UNDEF && Expired(k, e.time) then
        Walking(modes, raw, e, Expire(modes, s, i, e.time), i, caller)
        && FitsFrom(modes, raw, e, s.calls, Expire(modes, s, i, e.time).calls)
      else if caller == For(key) then
        (e.press <==> k.lastRelease != UNDEF)
        && Walking(modes, raw, e, s.With(key, k.(lastRelease := if e.press then UNDEF else e.time)), i + 1, Handled)
      else Walking(modes, raw, e, s, i + 1, caller)
  {
    hide Down, LastTime, Expire, Inv;
    var key, k := s.noAutorepeats[i], s.Key(s.noAutorepeats[i]);
    assert s.noAutorepeats[..i + 1] == s.noAutorepeats[..i] + [key];
    if k.lastRelease != UNDEF && Expired(k, e.time) {
      ExpireFits(modes, raw, e, s, i, caller);
    } else {
      NotSettled(modes, raw, e, s, i, caller);
      if caller == For(key) {
        HandleKeeps(modes, raw, e, s, i);
      }
    }
  }

  lemma NotSettled(modes: map<Keysym, Mode>, raw: seq<KeyEvent>, e: KeyEvent, s: State, i: nat, caller: Caller)
    requires Walking(modes, raw, e, s, i, caller) && i < |s.noAutorepeats|
    requires var k := s.Key(s.noAutorepeats[i]); k.lastRelease == UNDEF || !Expired(k, e.time)
    ensures s.noAutorepeats[i] != e.key ==> !Settled(raw, s.noAutorepeats[i], e.time)
  {
    hide Down, LastTime;
    RawAppend(raw, e);
    var k := s.Key(s.noAutorepeats[i]);
  }

  // ---------------------------------------------------------------- one event, and whole runs

  lemma ArriveFits(modes: map<Keysym, Mode>, raw: seq<KeyEvent>, e: KeyEvent, s: State)
    requires Inv(modes, raw, s) && Next(raw, e) && e.key !in s.noAutorepeats
    ensures FitsFrom(modes, raw, e, s.calls, Arrive(modes, s, e).calls)
  {
    hide Down, LastTime;
    assert KeyOk(ModeFor(modes, e.key), Down(raw, e.key), LastTime(raw, e.key), s.Key(e.key), false);
  }

  /** One event: what the stage keeps, why it made each call, and that no key but
      the event's is left waiting once its release has settled. */
  lemma StageKeeps(modes: map<Keysym, Mode>, raw: seq<KeyEvent>, e: KeyEvent, s: State)
    requires Inv(modes, raw, s) && Next(raw, e)
    ensures var s' := Stage(modes, s, e);
      && Inv(modes, raw + [e], s')
      && FitsFrom(modes, raw, e, s.calls, s'.calls)
      && forall key :: key in s'.noAutorepeats && key != e.key ==> !Settled(raw, key, e.time)
  {
    hide Down, LastTime, Inv, Walk;
    WalkKeeps(modes, raw, e, s, 0, For(e.key));
    var (s1, caller) := Walk(modes, s, 0, For(e.key), e.time);
    assert s1.noAutorepeats[..|s1.noAutorepeats|] == s1.noAutorepeats;
    if !caller.Handled? {
      ArriveKeeps(modes, raw, e, s1);
      ArriveFits(modes, raw, e, s1);
    }
  }

  predicate Plays(raw: seq<KeyEvent>) {
    Alternating(raw) && Timed(raw)
  }

  lemma PlaysPrefix(raw: seq<KeyEvent>)
    requires Plays(raw) && raw != []
    ensures Plays(raw[..|raw| - 1]) && Next(raw[..|raw| - 1], raw[|raw| - 1])
  {
  }

  lemma InitialInv(modes: map<Keysym, Mode>)
    ensures Inv(modes, [], INITIAL)
  {
  }

  /** Only a key whose mode defers waits on the list. */
  lemma ListedDefers(modes: map<Keysym, Mode>, raw: seq<KeyEvent>, s: State, key: Keysym)
    requires Inv(modes, raw, s) && key in s.noAutorepeats
    ensures ModeFor(modes, key).Defers() && s.Key(key).pressed
  {
    assert KeyOk(ModeFor(modes, key), Down(raw, key), LastTime(raw, key), s.Key(key), true);
  }

  /** Over every run of alternating raw events, the list never holds a key twice,
      each key on it is one that defers, is pressed, and remembers the time of its
      last raw release; and, where releases may pass, the next stage sees every
      key pressed and released in turn. */
  lemma {:induction false} RunKeeps(modes: map<Keysym, Mode>, raw: seq<KeyEvent>)
    requires Plays(raw)
    ensures Inv(modes, raw, Run(modes, raw))
  {
    hide Inv, Stage;
    if raw == [] {
      InitialInv(modes);
    } else {
      var front := raw[..|raw| - 1];
      PlaysPrefix(raw);
      RunKeeps(modes, front);
      StageKeeps(modes, front, raw[|raw| - 1], Run(modes, front));
      assert raw == front + [raw[|raw| - 1]];
    }
  }

  /** A deferred release, in any run: it comes only when the key's last raw event
      was a release, made more than the shortest double press before. */
  lemma DeferredReleases(modes: map<Keysym, Mode>, raw: seq<KeyEvent>, e: KeyEvent, i: nat)
    requires Plays(raw + [e])
    requires |Run(modes, raw).calls| <= i < |Run(modes, raw + [e]).calls|
    requires var c := Run(modes, raw + [e]).calls[i]; !c.press && ModeFor(modes, c.key).Defers()
    ensures var c := Run(modes, raw + [e]).calls[i];
      && !Down(raw, c.key)
      && EventTimeSubtract(e.time, LastTime(raw, c.key)) > SHORTEST_DOUBLE_MSEC
      && c.time == EventTimeDiff(e.time, -1)
  {
    hide Inv, Stage;
    assert (raw + [e])[..|raw|] == raw;
    PlaysPrefix(raw + [e]);
    RunKeeps(modes, raw);
    StageKeeps(modes, raw, e, Run(modes, raw));
    assert Fits(modes, raw, e, Run(modes, raw + [e]).calls[i]);
  }

  // ---------------------------------------------------------------- what a mode means

  /** A deferring key waits for its release to be believed: from a press on, until an
      event finds its last release long enough past. */
  predicate Waiting(raw: seq<KeyEvent>, key: Keysym) {
    raw != [] &&
    var front, e := raw[..|raw| - 1], raw[|raw| - 1];
    (e.key == key && e.press) || (Waiting(front, key) && !Settled(front, key, e.time))
  }

  /** How often a deferring key has genuinely been pressed and released. */
  function Pairs(raw: seq<KeyEvent>, key: Keysym): nat {
    if raw == [] then 0
    else
      var front, e := raw[..|raw| - 1], raw[|raw| - 1];
      Pairs(front, key) + if Waiting(front, key) && Settled(front, key, e.time) then 1 else 0
  }

  /** How many events there are of a key. */
  function CountOf(events: seq<KeyEvent>, key: Keysym): nat {
    if events == [] then 0
    else CountOf(events[..|events| - 1], key) + if events[|events| - 1].key == key then 1 else 0
  }

  /** Whether the next stage has a key as pressed: an unlocking key never between events,
      a locking key from the press of every other genuine pair to the release of the pair
      after, a key without autorepeats while it waits, any other key as it is. */
  predicate Means(mode: Mode, raw: seq<KeyEvent>, key: Keysym) {
    match mode
    case Unlock => false
    case Lock => Waiting(raw, key) || Pairs(raw, key) % 2 == 1
    case Passthrough(noAutorepeats, _) => if noAutorepeats then Waiting(raw, key) else Down(raw, key)
  }

  /** How many calls the next stage has had for a key: one for each genuine pair of a
      locking key, at its press or at its release in turn. */
  function MeantCalls(mode: Mode, raw: seq<KeyEvent>, key: Keysym): nat {
    match mode
    case Unlock => 2 * CountOf(raw, key)
    case Lock => Pairs(raw, key) + if Waiting(raw, key) && Pairs(raw, key) % 2 == 0 then 1 else 0
    case Passthrough(noAutorepeats, _) =>
      if noAutorepeats then 2 * Pairs(raw, key) + if Waiting(raw, key) then 1 else 0 else CountOf(raw, key)
  }

  /** The stage has a key as its mode means it. */
  ghost predicate Meant(mode: Mode, raw: seq<KeyEvent>, s: State, key: Keysym) {
    && (mode.Defers() ==> (key in s.noAutorepeats <==> Waiting(raw, key)))
    && s.Key(key).pressed == Means(mode, raw, key)
    && CountOf(s.calls, key) == MeantCalls(mode, raw, key)
    && (mode.Defers() && Waiting(raw, key) ==> s.Key(key).ignoreRelease == (mode.Lock? && Pairs(raw, key) % 2 == 0))
  }

  lemma CountOfAppend(events: seq<KeyEvent>, e: KeyEvent, key: Keysym)
    ensures CountOf(events + [e], key) == CountOf(events, key) + if e.key == key then 1 else 0
  {
    assert (events + [e])[..|events|] == events;
  }

  /** What the walk does with one key: it is let go if its last release has expired. */
  ghost predicate Walked(s: State, s': State, key: Keysym, gone: bool) {
    var k, k' := s.Key(key), s'.Key(key);
    && (key in s'.noAutorepeats <==> key in s.noAutorepeats && !gone)
    && k'.pressed == (if gone && !k.ignoreRelease then !k.pressed else k.pressed)
    && k'.ignoreRelease == (k.ignoreRelease && !gone)
    && CountOf(s'.calls, key) == CountOf(s.calls, key) + if gone && !k.ignoreRelease then 1 else 0
  }

  /** Whether a key of the list is due at a time. */
  predicate Due(s: State, key: Keysym, time: Time) {
    s.Key(key).lastRelease != UNDEF && Expired(s.Key(key), time)
  }

  /** A list of different keys, less the one at a position. */
  lemma Less(list: seq<Keysym>, i: nat, key: Keysym)
    requires i < |list| && NoDuplicates(list)
    ensures NoDuplicates(list[..i] + list[i + 1..])
    ensures key in list[..i] + list[i + 1..] <==> key in list && key != list[i]
    ensures (list[..i] + list[i + 1..])[i..] == list[i + 1..]
  {
    var less := list[..i] + list[i + 1..];
    assert forall j :: 0 <= j < |less| ==> less[j] == list[if j < i then j else j + 1];
    if key in list && key != list[i] {
      var j :| 0 <= j < |list| && list[j] == key;
      assert less[if j < i then j else j - 1] == key;
    }
  }

  lemma ExpireWalks(modes: map<Keysym, Mode>, s: State, i: nat, time: Time, key: Keysym)
    requires i < |s.noAutorepeats| && NoDuplicates(s.noAutorepeats) && NoneSilent(modes)
    ensures var s' := Expire(modes, s, i, time);
      && NoDuplicates(s'.noAutorepeats)
      && s'.noAutorepeats[i..] == s.noAutorepeats[i + 1..]
      && Walked(s, s', key, key == s.noAutorepeats[i])
      && (key != s.noAutorepeats[i] ==> s'.Key(key) == s.Key(key))
  {
    hide NoDuplicates, CountOf;
    Less(s.noAutorepeats, i, key);
    var s' := Expire(modes, s, i, time);
    if s'.calls != s.calls {
      CountOfAppend(s.calls, s'.calls[|s.calls|], key);
    }
  }

  lemma WalkedOn(s: State, s1: State, s': State, key: Keysym, gone: bool)
    requires Walked(s1, s', key, gone)
    requires s1.noAutorepeats == s.noAutorepeats && s1.calls == s.calls
    requires s1.Key(key).pressed == s.Key(key).pressed && s1.Key(key).ignoreRelease == s.Key(key).ignoreRelease
    ensures Walked(s, s', key, gone)
  {
  }

  lemma WalkedTwice(s: State, s1: State, s': State, key: Keysym, gone1: bool, gone2: bool)
    requires Walked(s, s1, key, gone1) && Walked(s1, s', key, gone2) && !(gone1 && gone2)
    ensures Walked(s, s', key, gone1 || gone2)
  {
  }

  /** The keys of the list from a position on, and the one there. */
  lemma ListAt(list: seq<Keysym>, i: nat, key: Keysym)
    requires i < |list| && NoDuplicates(list)
    ensures key in list[i..] <==> key == list[i] || key in list[i + 1..]
    ensures list[i] !in list[i + 1..]
  {
    assert list[i..] == [list[i]] + list[i + 1..];
  }

  lemma {:induction false} WalkWalks(modes: map<Keysym, Mode>, s: State, i: nat, caller: Caller, time: Time, key: Keysym)
    requires i <= |s.noAutorepeats| && NoDuplicates(s.noAutorepeats) && NoneSilent(modes)
    ensures var s' := Walk(modes, s, i, caller, time).0;
      NoDuplicates(s'.noAutorepeats) && Walked(s, s', key, key in s.noAutorepeats[i..] && Due(s, key, time))
    decreases |s.noAutorepeats| - i
  {
    hide Expired, CountOf, Expire, Walked, NoDuplicates, NoneSilent;
    if i == |s.noAutorepeats| {
      WalkedNone(s, key);
    } else {
      var at := s.noAutorepeats[i];
      var k := s.Key(at);
      ListAt(s.noAutorepeats, i, key);
      if k.lastRelease != UNDEF && Expired(k, time) {
        var s1 := Expire(modes, s, i, time);
        ExpireWalks(modes, s, i, time, key);
        WalkWalks(modes, s1, i, caller, time, key);
        WalkedTwice(s, s1, Walk(modes, s, i, caller, time).0, key, key == at, key in s1.noAutorepeats[i..] && Due(s1, key, time));
      } else if caller == For(at) {
        var s1 := s.With(at, k.(lastRelease := if k.lastRelease == UNDEF then time else UNDEF));
        WalkWalks(modes, s1, i + 1, Handled, time, key);
        WalkedOn(s, s1, Walk(modes, s, i, caller, time).0, key, key in s.noAutorepeats[i..] && Due(s, key, time));
      } else {
        WalkWalks(modes, s, i + 1, caller, time, key);
      }
    }
  }

  lemma WalkedNone(s: State, key: Keysym)
    ensures Walked(s, s, key, false)
  {
  }

  /** A key the walk does not take care of, in terms of its mode. */
  lemma ArriveMeans(modes: map<Keysym, Mode>, s: State, e: KeyEvent, key: Keysym)
    requires NoneSilent(modes) && e.key !in s.noAutorepeats
    requires !ModeFor(modes, e.key).Defers() && ModeFor(modes, e.key).Passthrough? ==> s.Key(e.key).pressed != e.press
    requires ModeFor(modes, e.key).Unlock? ==> !s.Key(e.key).pressed
    requires ModeFor(modes, e.key).Defers() ==> e.press
    requires ModeFor(modes, e.key).Passthrough? && e.press ==> !s.Key(e.key).pressed
    ensures var s', mode, k := Arrive(modes, s, e), ModeFor(modes, e.key), s.Key(e.key);
      if key != e.key then
        && s'.Key(key) == s.Key(key) && CountOf(s'.calls, key) == CountOf(s.calls, key)
        && (key in s'.noAutorepeats <==> key in s.noAutorepeats)
      else
        && (key in s'.noAutorepeats <==> mode.Defers())
        && s'.Key(key).pressed == (if mode.Unlock? then false else e.press)
        && (mode.Defers() ==> s'.Key(key).ignoreRelease == (mode.Lock? && !k.pressed))
        && CountOf(s'.calls, key) == CountOf(s.calls, key) + if mode.Unlock? then 2 else if mode.Lock? && k.pressed then 0 else 1
  {
    var s' := Arrive(modes, s, e);
    var k := s.Key(e.key);
    CountOfAppend(s.calls, KeyEvent(e.key, s'.Key(e.key).pressed, e.time), key);
    if ModeFor(modes, e.key).Unlock? {
      var c := KeyEvent(e.key, true, EventTimeDiff(e.time, -1));
      CountOfAppend(s.calls, c, key);
      CountOfAppend(s.calls + [c], KeyEvent(e.key, false, e.time), key);
    }
  }

  lemma MeaningAppend(raw: seq<KeyEvent>, e: KeyEvent, key: Keysym)
    ensures Waiting(raw + [e], key) == ((e.key == key && e.press) || (Waiting(raw, key) && !Settled(raw, key, e.time)))
    ensures Pairs(raw + [e], key) == Pairs(raw, key) + if Waiting(raw, key) && Settled(raw, key, e.time) then 1 else 0
  {
    assert (raw + [e])[..|raw|] == raw;
  }

  /** A key of the list is due just when its raw release has settled. */
  lemma DueSettled(modes: map<Keysym, Mode>, raw: seq<KeyEvent>, s: State, key: Keysym, time: Time)
    requires KeysOk(modes, raw, s)
    ensures key in s.noAutorepeats ==> ModeFor(modes, key).Defers() && (Due(s, key, time) <==> Settled(raw, key, time))
  {
    assert KeyOk(ModeFor(modes, key), Down(raw, key), LastTime(raw, key), s.Key(key), key in s.noAutorepeats);
  }

  /** A key the walk took care of. */
  lemma HandledMeans(modes: map<Keysym, Mode>, raw: seq<KeyEvent>, e: KeyEvent, s: State, s1: State, key: Keysym, gone: bool)
    requires Meant(ModeFor(modes, key), raw, s, key) && Walked(s, s1, key, gone)
    requires gone == (Waiting(raw, key) && Settled(raw, key, e.time) && ModeFor(modes, key).Defers())
    requires key == e.key ==> key in s1.noAutorepeats
    requires key in s.noAutorepeats ==> ModeFor(modes, key).Defers()
    ensures Meant(ModeFor(modes, key), raw + [e], s1, key)
  {
    hide Settled, Waiting, Pairs, CountOf, Down;
    MeaningAppend(raw, e, key);
    DownAppend(raw, e, key);
    CountOfAppend(raw, e, key);
  }

  /** The event's own key, when the walk did not take care of it. */
  lemma ArrivedMeans(modes: map<Keysym, Mode>, raw: seq<KeyEvent>, e: KeyEvent, s: State, s1: State, gone: bool)
    requires Meant(ModeFor(modes, e.key), raw, s, e.key) && Walked(s, s1, e.key, gone)
    requires gone == (Waiting(raw, e.key) && Settled(raw, e.key, e.time) && ModeFor(modes, e.key).Defers())
    requires KeysOk(modes, raw, s1) && Next(raw, e) && e.key !in s1.noAutorepeats && NoneSilent(modes)
    ensures Meant(ModeFor(modes, e.key), raw + [e], Arrive(modes, s1, e), e.key)
  {
    hide Settled, Waiting, Pairs, CountOf, Down, Arrive;
    MeaningAppend(raw, e, e.key);
    DownAppend(raw, e, e.key);
    CountOfAppend(raw, e, e.key);
    assert KeyOk(ModeFor(modes, e.key), Down(raw, e.key), LastTime(raw, e.key), s1.Key(e.key), false);
    ArriveMeans(modes, s1, e, e.key);
  }

  /** Any other key, when the walk did not take care of the event's. */
  lemma ArrivedOther(modes: map<Keysym, Mode>, raw: seq<KeyEvent>, e: KeyEvent, s1: State, key: Keysym)
    requires key != e.key && Meant(ModeFor(modes, key), raw + [e], s1, key)
    requires KeysOk(modes, raw, s1) && Next(raw, e) && e.key !in s1.noAutorepeats && NoneSilent(modes)
    ensures Meant(ModeFor(modes, key), raw + [e], Arrive(modes, s1, e), key)
  {
    hide Settled, Waiting, Pairs, CountOf, Down, LastTime, Arrive;
    assert KeyOk(ModeFor(modes, e.key), Down(raw, e.key), LastTime(raw, e.key), s1.Key(e.key), false);
    ArriveMeans(modes, s1, e, key);
  }

  /** One event keeps what every key means. */
  lemma StageMeans(modes: map<Keysym, Mode>, raw: seq<KeyEvent>, e: KeyEvent, s: State, key: Keysym)
    requires Inv(modes, raw, s) && Next(raw, e) && NoneSilent(modes)
    requires Meant(ModeFor(modes, key), raw, s, key)
    ensures Meant(ModeFor(modes, key), raw + [e], Stage(modes, s, e), key)
  {
    hide Settled, Waiting, Pairs, CountOf, Down, LastTime, Walk, Due;
    WalkKeeps(modes, raw, e, s, 0, For(e.key));
    WalkWalks(modes, s, 0, For(e.key), e.time, key);
    var (s1, caller) := Walk(modes, s, 0, For(e.key), e.time);
    assert s.noAutorepeats[0..] == s.noAutorepeats;
    assert s1.noAutorepeats[..|s1.noAutorepeats|] == s1.noAutorepeats;
    DueSettled(modes, raw, s, key, e.time);
    var gone := key in s.noAutorepeats && Due(s, key, e.time);
    if caller.Handled? || key != e.key {
      HandledMeans(modes, raw, e, s, s1, key, gone);
    }
    if !caller.Handled? {
      if key == e.key {
        ArrivedMeans(modes, raw, e, s, s1, gone);
      } else {
        ArrivedOther(modes, raw, e, s1, key);
      }
    }
  }

  /** Over every run, the next stage has every key as its mode means it, and has had
      just the calls that takes: one for each genuine pair of a locking key. */
  lemma {:induction false} RunMeans(modes: map<Keysym, Mode>, raw: seq<KeyEvent>, key: Keysym)
    requires Plays(raw) && NoneSilent(modes)
    ensures var s := Run(modes, raw);
      && Meant(ModeFor(modes, key), raw, s, key)
      && Down(s.calls, key) == Means(ModeFor(modes, key), raw, key)
      && CountOf(s.calls, key) == MeantCalls(ModeFor(modes, key), raw, key)
  {
    hide Stage, NoneSilent, Plays, Waiting, Pairs, CountOf, KeysOk;
    RunKeeps(modes, raw);
    if raw != [] {
      var front := raw[..|raw| - 1];
      PlaysPrefix(raw);
      RunMeans(modes, front, key);
      RunKeeps(modes, front);
      StageMeans(modes, front, raw[|raw| - 1], Run(modes, front), key);
      assert raw == front + [raw[|raw| - 1]];
    } else {
      MeantAtFirst(modes, key);
    }
  }

  lemma MeantAtFirst(modes: map<Keysym, Mode>, key: Keysym)
    ensures Meant(ModeFor(modes, key), [], INITIAL, key)
  {
  }

  /** No event of a stretch finds a key's last release settled. */
  predicate Unsettled(raw: seq<KeyEvent>, more: seq<KeyEvent>, key: Keysym) {
    more == [] ||
    (var front, e := more[..|more| - 1], more[|more| - 1];
     Unsettled(raw, front, key) && !Settled(raw + front, key, e.time))
  }

  lemma {:induction false} StaysWaiting(raw: seq<KeyEvent>, more: seq<KeyEvent>, key: Keysym)
    requires Waiting(raw, key) && Unsettled(raw, more, key)
    ensures Waiting(raw + more, key) && Pairs(raw + more, key) == Pairs(raw, key)
  {
    hide Settled, Pairs;
    if more == [] {
      assert raw + more == raw;
    } else {
      var front, e := more[..|more| - 1], more[|more| - 1];
      StaysWaiting(raw, front, key);
      MeaningAppend(raw + front, e, key);
      assert raw + more == raw + front + [e];
    }
  }

  /** A genuine press and release of a locking key, however many times it bounces and
      whatever other keys do between, makes one call for it and turns it over. */
  lemma PairToggles(modes: map<Keysym, Mode>, raw: seq<KeyEvent>, press: KeyEvent, more: seq<KeyEvent>, e: KeyEvent)
    requires NoneSilent(modes) && ModeFor(modes, press.key).Lock?
    requires !Waiting(raw, press.key) && press.press
    requires Unsettled(raw + [press], more, press.key)
    requires Settled(raw + [press] + more, press.key, e.time) && e.key != press.key
    requires Plays(raw) && Plays(raw + [press] + more + [e])
    ensures var before, after := Run(modes, raw).calls, Run(modes, raw + [press] + more + [e]).calls;
      && Down(after, press.key) == !Down(before, press.key)
      && CountOf(after, press.key) == CountOf(before, press.key) + 1
  {
    hide Settled, Unsettled, Run, CountOf, Down, Plays, NoneSilent, Waiting, Pairs;
    MeaningAppend(raw, press, press.key);
    StaysWaiting(raw + [press], more, press.key);
    MeaningAppend(raw + [press] + more, e, press.key);
    RunMeans(modes, raw, press.key);
    RunMeans(modes, raw + [press] + more + [e], press.key);
  }

  // ---------------------------------------------------------------- in which order keys are let go

  /** How many raw events there had been once a waiting key came to be on the list. */
  function Since(raw: seq<KeyEvent>, key: Keysym): nat {
    if raw == [] then 0
    else
      var front, e := raw[..|raw| - 1], raw[|raw| - 1];
      if e.key == key && e.press && (!Waiting(front, key) || Settled(front, key, e.time)) then |raw| else Since(front, key)
  }

  lemma {:induction false} SinceBounded(raw: seq<KeyEvent>, key: Keysym)
    ensures Since(raw, key) <= |raw|
  {
    if raw != [] {
      SinceBounded(raw[..|raw| - 1], key);
    }
  }

  lemma SinceAppend(raw: seq<KeyEvent>, e: KeyEvent, key: Keysym)
    ensures Since(raw + [e], key) ==
      if e.key == key && e.press && (!Waiting(raw, key) || Settled(raw, key, e.time)) then |raw| + 1 else Since(raw, key)
  {
    assert (raw + [e])[..|raw|] == raw;
  }

  ghost predicate LatestFirst(raw: seq<KeyEvent>, list: seq<Keysym>) {
    forall i, j :: 0 <= i < j < |list| ==> Since(raw, list[i]) > Since(raw, list[j])
  }

  /** The calls from the `n`th on are of keys that came onto the list one before the
      other, and before them all came what the list holds from a position on. */
  ghost predicate InOrder(raw: seq<KeyEvent>, calls: seq<KeyEvent>, n: nat, list: seq<Keysym>, i: nat) {
    && LatestFirst(raw, list)
    && (forall a, b :: n <= a < b < |calls| ==> Since(raw, calls[a].key) > Since(raw, calls[b].key))
    && forall a, j :: n <= a < |calls| && i <= j < |list| ==> Since(raw, calls[a].key) > Since(raw, list[j])
  }

  lemma ExpireOrder(modes: map<Keysym, Mode>, raw: seq<KeyEvent>, s: State, i: nat, time: Time, n: nat)
    requires i < |s.noAutorepeats| && n <= |s.calls| && InOrder(raw, s.calls, n, s.noAutorepeats, i)
    ensures var s' := Expire(modes, s, i, time);
      InOrder(raw, s'.calls, n, s'.noAutorepeats, i) && n <= |s'.calls|
  {
    hide Since;
    var list, s' := s.noAutorepeats, Expire(modes, s, i, time);
    assert forall j :: 0 <= j < |s'.noAutorepeats| ==> s'.noAutorepeats[j] == list[if j < i then j else j + 1];
    assert s'.calls == s.calls || (|s'.calls| == |s.calls| + 1 && s'.calls[|s.calls|].key == list[i]);
    assert forall a :: 0 <= a < |s.calls| ==> s'.calls[a] == s.calls[a];
  }

  lemma {:induction false} WalkOrder(modes: map<Keysym, Mode>, raw: seq<KeyEvent>, s: State, i: nat, caller: Caller, time: Time, n: nat)
    requires i <= |s.noAutorepeats| && n <= |s.calls| && InOrder(raw, s.calls, n, s.noAutorepeats, i)
    ensures var s' := Walk(modes, s, i, caller, time).0;
      InOrder(raw, s'.calls, n, s'.noAutorepeats, |s'.noAutorepeats|)
    decreases |s.noAutorepeats| - i
  {
    hide Since, Expire, Expired;
    if i < |s.noAutorepeats| {
      var key := s.noAutorepeats[i];
      var k := s.Key(key);
      if k.lastRelease != UNDEF && Expired(k, time) {
        ExpireOrder(modes, raw, s, i, time, n);
        WalkOrder(modes, raw, Expire(modes, s, i, time), i, caller, time, n);
      } else if caller == For(key) {
        var s1 := s.With(key, k.(lastRelease := if k.lastRelease == UNDEF then time else UNDEF));
        WalkOrder(modes, raw, s1, i + 1, Handled, time, n);
      } else {
        WalkOrder(modes, raw, s, i + 1, caller, time, n);
      }
    }
  }

  /** A key the walk leaves on the list stays where it was in the order. */
  lemma LeftSince(modes: map<Keysym, Mode>, raw: seq<KeyEvent>, e: KeyEvent, s: State, key: Keysym)
    requires KeysOk(modes, raw, s) && NoneSilent(modes)
    requires Meant(ModeFor(modes, key), raw, s, key)
    requires key in Walk(modes, s, 0, For(e.key), e.time).0.noAutorepeats
    ensures Since(raw + [e], key) == Since(raw, key)
  {
    hide Since, Settled, Waiting, Pairs, Due, Walk, KeyOk, Down, LastTime;
    WalkWalks(modes, s, 0, For(e.key), e.time, key);
    assert s.noAutorepeats[0..] == s.noAutorepeats;
    DueSettled(modes, raw, s, key, e.time);
    SinceAppend(raw, e, key);
  }

  /** What arrives goes to the front of the list, where the latest is. */
  lemma ArriveOrder(modes: map<Keysym, Mode>, raw: seq<KeyEvent>, e: KeyEvent, s1: State)
    requires LatestFirst(raw + [e], s1.noAutorepeats)
    requires forall j :: 0 <= j < |s1.noAutorepeats| ==> Since(raw + [e], s1.noAutorepeats[j]) <= |raw|
    requires ModeFor(modes, e.key).Defers() && e.press ==> Since(raw + [e], e.key) == |raw| + 1
    requires ModeFor(modes, e.key).Defers() ==> e.press
    ensures LatestFirst(raw + [e], Arrive(modes, s1, e).noAutorepeats)
  {
    hide Since;
    var list, list' := s1.noAutorepeats, Arrive(modes, s1, e).noAutorepeats;
    assert list' == list || (ModeFor(modes, e.key).Defers() && list' == [e.key] + list);
  }

  lemma StageOrder(modes: map<Keysym, Mode>, raw: seq<KeyEvent>, e: KeyEvent, s: State)
    requires Inv(modes, raw, s) && Next(raw, e) && NoneSilent(modes)
    requires forall key :: Meant(ModeFor(modes, key), raw, s, key)
    requires LatestFirst(raw, s.noAutorepeats)
    ensures LatestFirst(raw + [e], Stage(modes, s, e).noAutorepeats)
  {
    hide Since, Settled, Waiting, Pairs, Due, Walk, Arrive, Down, LastTime, KeyOk, Meant;
    var (s1, caller) := Walk(modes, s, 0, For(e.key), e.time);
    WalkOrder(modes, raw, s, 0, For(e.key), e.time, |s.calls|);
    forall j | 0 <= j < |s1.noAutorepeats|
      ensures Since(raw + [e], s1.noAutorepeats[j]) == Since(raw, s1.noAutorepeats[j]) <= |raw|
    {
      LeftSince(modes, raw, e, s, s1.noAutorepeats[j]);
      SinceBounded(raw, s1.noAutorepeats[j]);
    }
    if !caller.Handled? {
      if ModeFor(modes, e.key).Defers() {
        ArrivedSince(modes, raw, e, s);
      }
      ArriveOrder(modes, raw, e, s1);
    }
  }

  /** A deferring key that the walk did not take care of comes onto the list now. */
  lemma ArrivedSince(modes: map<Keysym, Mode>, raw: seq<KeyEvent>, e: KeyEvent, s: State)
    requires Inv(modes, raw, s) && Next(raw, e) && NoneSilent(modes)
    requires Meant(ModeFor(modes, e.key), raw, s, e.key)
    requires !Walk(modes, s, 0, For(e.key), e.time).1.Handled? && ModeFor(modes, e.key).Defers()
    ensures e.press && Since(raw + [e], e.key) == |raw| + 1
  {
    hide Since, Settled, Waiting, Pairs, Due, Walk, Down, LastTime;
    WalkKeeps(modes, raw, e, s, 0, For(e.key));
    WalkWalks(modes, s, 0, For(e.key), e.time, e.key);
    var (s1, caller) := Walk(modes, s, 0, For(e.key), e.time);
    assert s.noAutorepeats[0..] == s.noAutorepeats;
    assert s1.noAutorepeats[..|s1.noAutorepeats|] == s1.noAutorepeats;
    DueSettled(modes, raw, s, e.key, e.time);
    assert KeyOk(ModeFor(modes, e.key), Down(raw, e.key), LastTime(raw, e.key), s1.Key(e.key), false);
    SinceAppend(raw, e, e.key);
  }

  /** Over every run the list holds the latest arrivals first. */
  lemma {:induction false} RunOrder(modes: map<Keysym, Mode>, raw: seq<KeyEvent>)
    requires Plays(raw) && NoneSilent(modes)
    ensures LatestFirst(raw, Run(modes, raw).noAutorepeats)
  {
    hide Stage, NoneSilent, Plays, Since, KeysOk, Meant;
    if raw != [] {
      var front := raw[..|raw| - 1];
      PlaysPrefix(raw);
      RunOrder(modes, front);
      RunKeeps(modes, front);
      forall key ensures Meant(ModeFor(modes, key), front, Run(modes, front), key) {
        RunMeans(modes, front, key);
      }
      StageOrder(modes, front, raw[|raw| - 1], Run(modes, front));
      assert raw == front + [raw[|raw| - 1]];
    }
  }

  lemma ArrivePresses(modes: map<Keysym, Mode>, s: State, e: KeyEvent)
    requires ModeFor(modes, e.key).Defers() ==> e.press
    ensures var calls := Arrive(modes, s, e).calls;
      && s.calls <= calls
      && forall i :: |s.calls| <= i < |calls| ==> calls[i].key == e.key && (ModeFor(modes, e.key).Defers() ==> calls[i].press)
  {
  }

  /** Keys whose releases one event lets through are released in the order they are on the
      list, the one pressed last before the others. */
  lemma LatestReleasedFirst(modes: map<Keysym, Mode>, raw: seq<KeyEvent>, e: KeyEvent, i: nat, j: nat)
    requires Plays(raw + [e]) && NoneSilent(modes)
    requires |Run(modes, raw).calls| <= i < j < |Run(modes, raw + [e]).calls|
    requires var c := Run(modes, raw + [e]).calls[j]; !c.press && ModeFor(modes, c.key).Defers()
    ensures var calls := Run(modes, raw + [e]).calls; Since(raw, calls[i].key) > Since(raw, calls[j].key)
  {
    hide Since, Walk, Inv, Plays, NoneSilent, Waiting, Meant;
    assert (raw + [e])[..|raw|] == raw;
    PlaysPrefix(raw + [e]);
    RunKeeps(modes, raw);
    RunOrder(modes, raw);
    var s := Run(modes, raw);
    WalkOrder(modes, raw, s, 0, For(e.key), e.time, |s.calls|);
    var (s1, caller) := Walk(modes, s, 0, For(e.key), e.time);
    if !caller.Handled? {
      if ModeFor(modes, e.key).Defers() {
        RunMeans(modes, raw, e.key);
        ArrivedSince(modes, raw, e, s);
      }
      ArrivePresses(modes, s1, e);
    }
  }

  // ---------------------------------------------------------------- the stage as it runs

  class KeymodeStage {
    var modes: map<Keysym, Mode>
    var keys: map<Keysym, Keymode>
    var noAutorepeats: seq<Keysym>
    var calls: seq<KeyEvent>
    ghost var raw: seq<KeyEvent>

    ghost function View(): State
      reads this
    {
      State(keys, noAutorepeats, calls)
    }

    ghost predicate Valid()
      reads this
    {
      Inv(modes, raw, View())
    }

    constructor ()
      ensures Valid() && View() == INITIAL && raw == [] && modes == map[]
    {
      modes, keys, noAutorepeats, calls, raw := map[], map[], [], [], [];
    }

    /** Sets the mode of a keysym, before any event. */
    method InMode(key: Keysym, bits: bv8) returns (accepted: bool)
      requires View() == INITIAL && raw == []
      modifies `modes
      ensures accepted == InModeAccepts(bits)
      ensures modes == if accepted then old(modes)[key := ModeOf(bits)] else old(modes)
      ensures Valid()
    {
      if (bits & (MODE_UNLOCK | MODE_LOCK)) != 0 && (bits & (bits - 1)) != 0 {
        return false;
      }
      if (bits & (MODE_FLAG_NO_AUTOREPEATS | MODE_FLAG_NO_RELEASES | MODE_FLAG_LOCK_SOFT)) != 0
        && (bits & MODE_PASSTHROUGH) == 0 {
        return false;
      }
      if (bits & (MODE_FLAG_NO_RELEASES | MODE_FLAG_LOCK_SOFT)) != 0 {
        return false;
      }
      modes := modes[key := ModeOf(bits)];
      accepted := true;
    }

    method SetKey(key: Keysym, k: Keymode)
      modifies `keys
      ensures View() == old(View()).With(key, k)
    {
      keys := keys[key := k];
    }

    method NextStage(key: Keysym, time: Time)
      modifies `calls
      ensures View() == old(View()).Call(key, time)
    {
      calls := calls + [KeyEvent(key, if key in keys then keys[key].pressed else false, time)];
    }

    method ExpireAt(i: nat, time: Time)
      requires i < |noAutorepeats|
      modifies `keys, `noAutorepeats, `calls
      ensures View() == Expire(modes, old(View()), i, time)
    {
      var key := noAutorepeats[i];
      var k := if key in keys then keys[key] else Keymode(false, UNDEF, false);
      noAutorepeats := noAutorepeats[..i] + noAutorepeats[i + 1..];
      if k.ignoreRelease {
        SetKey(key, k.(ignoreRelease := false));
      } else {
        SetKey(key, k.(pressed := !k.pressed));
        if !k.pressed || !ModeFor(modes, key).Silent() {
          NextStage(key, EventTimeDiff(time, -1));
        }
      }
    }

    /** Checks every key on the list, and takes care of the event's if it is there. */
    method WalkList(e: KeyEvent) returns (handled: bool)
      requires Valid() && Next(raw, e)
      modifies `keys, `noAutorepeats, `calls
      ensures Walk(modes, old(View()), 0, For(e.key), e.time) == (View(), if handled then Handled else For(e.key))
    {
      hide Inv, Down, LastTime, Expire;
      var i := 0;
      handled := false;
      while i < |noAutorepeats|
        invariant i <= |noAutorepeats|
        invariant Walking(modes, raw, e, View(), i, if handled then Handled else For(e.key))
        invariant Walk(modes, View(), i, if handled then Handled else For(e.key), e.time)
               == Walk(modes, old(View()), 0, For(e.key), e.time)
        decreases |noAutorepeats| - i
      {
        var key := noAutorepeats[i];
        var k := if key in keys then keys[key] else Keymode(false, UNDEF, false);
        WalkStep(modes, raw, e, View(), i, if handled then Handled else For(e.key));
        if k.lastRelease == UNDEF {
          if !handled && key == e.key {
            assert !e.press;
            SetKey(key, k.(lastRelease := e.time));
            handled := true;
          }
        } else if EventTimeSubtract(e.time, k.lastRelease) > SHORTEST_DOUBLE_MSEC {
          ExpireAt(i, e.time);
          continue;
        } else if !handled && key == e.key {
          assert e.press;
          SetKey(key, k.(lastRelease := UNDEF));
          handled := true;
        }
        i := i + 1;
      }
    }

    method Event(e: KeyEvent)
      requires Valid() && Next(raw, e)
      modifies this
      ensures Valid() && modes == old(modes) && raw == old(raw) + [e]
      ensures View() == Stage(modes, old(View()), e)
    {
      StageKeeps(modes, raw, e, View());
      WalkKeeps(modes, raw, e, View(), 0, For(e.key));
      ghost var before := View();
      var handled := WalkList(e);
      assert !handled ==> e.key !in noAutorepeats && Inv(modes, raw, View()) by {
        assert noAutorepeats[..|noAutorepeats|] == noAutorepeats;
      }
      if !handled {
        ArriveNow(e);
      }
      raw := raw + [e];
    }

    /** The rest of the event, for a key the walk did not take care of. */
    method ArriveNow(e: KeyEvent)
      requires Valid() && Next(raw, e) && e.key !in noAutorepeats
      modifies `keys, `noAutorepeats, `calls
      ensures View() == Arrive(modes, old(View()), e)
    {
      hide Down, LastTime, CallsExact;
      assert KeyOk(ModeFor(modes, e.key), Down(raw, e.key), LastTime(raw, e.key), View().Key(e.key), false);
      var k := if e.key in keys then keys[e.key] else Keymode(false, UNDEF, false);
      var mode := ModeFor(modes, e.key);
      var pressedOld := k.pressed;
      if mode.Unlock? {
        assert !pressedOld;
        SetKey(e.key, k.(pressed := true));
        NextStage(e.key, EventTimeDiff(e.time, -1));
        SetKey(e.key, k.(pressed := false));
        pressedOld := true;
      } else if mode.Lock? {
        assert e.press;
        noAutorepeats := [e.key] + noAutorepeats;
        if pressedOld {
          SetKey(e.key, Keymode(k.pressed, UNDEF, false));
        } else {
          SetKey(e.key, Keymode(true, UNDEF, true));
        }
      } else {
        assert pressedOld == !e.press;
        if e.press {
          if mode.noAutorepeats {
            noAutorepeats := [e.key] + noAutorepeats;
            SetKey(e.key, Keymode(true, UNDEF, false));
          } else {
            SetKey(e.key, k.(pressed := true));
          }
        } else {
          SetKey(e.key, k.(pressed := false));
        }
      }
      var pressed := keys[e.key].pressed;
      if !(if pressed then pressedOld else !pressedOld || mode.Silent()) {
        NextStage(e.key, e.time);
      }
    }
  }
}
