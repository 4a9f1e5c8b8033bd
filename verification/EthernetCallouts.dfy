/** The callout protocol of the host Ethernet element.  One activation of the
    callout function works while others only leave flags for it; the mutex is
    dropped around every callout it makes.  A step here is what happens between
    taking the mutex and dropping it, so any interleaving of threads, and any
    re-entrant call made from inside a callout, is a sequence of these steps. */
module EthernetCallouts {

  datatype Flag = Running | Ctrl | Read | Config

  const CALLOUTS_MASK: set<Flag> := {Ctrl, Read, Config}

  /** Where an activation stands while it does not hold the mutex: in which
      callout, begun when, with which callouts of this pass still to make and
      which to leave for later. */
  datatype Frame =
    | InConfig(since: nat, todo: set<Flag>, later: set<Flag>)
    | InCtrl(since: nat, todo: set<Flag>, later: set<Flag>)
    | InRead(since: nat, todo: set<Flag>, later: set<Flag>)
    | InWrite(later: set<Flag>)
  {
    function Todo(): set<Flag> { if InWrite? then {} else todo }

    predicate Making(f: Flag) {
      (f == Config && InConfig?) || (f == Ctrl && InCtrl?) || (f == Read && InRead?)
    }
  }

  /** What happened, in order.  `Finished` names the position of its start. */
  datatype Event =
    | Requested(callouts: set<Flag>)
    | Started(callout: Flag)
    | Finished(callout: Flag, since: nat, ok: bool)

  datatype State = State(flags: set<Flag>, frames: map<nat, Frame>, log: seq<Event>)

  /** An element is made with a configuration callout already asked for. */
  const INITIAL := State({Config}, map[], [Requested({Config})])

  // ---------------------------------------------------------------- the stretches of code between mutex drops

  /** From the top of the loop to the next mutex drop, or out of the function. */
  function Loop(s: State, id: nat, later: set<Flag>): State
    decreases |s.flags * CALLOUTS_MASK|, 0
  {
    var callouts := s.flags;
    if callouts * CALLOUTS_MASK == {} then
      s.(flags := later, frames := s.frames - {id})
    else
      var s1 := s.(flags := callouts - CALLOUTS_MASK);
      assert s1.flags * CALLOUTS_MASK == {};
      AtConfig(s1, id, callouts * CALLOUTS_MASK, later)
  }

  function AtConfig(s: State, id: nat, todo: set<Flag>, later: set<Flag>): State
    decreases |s.flags * CALLOUTS_MASK|, 3
  {
    if Config in todo then
      s.(frames := s.frames[id := InConfig(|s.log|, todo - {Config}, later)], log := s.log + [Started(Config)])
    else
      AtCtrl(s, id, todo, later)
  }

  function AtCtrl(s: State, id: nat, todo: set<Flag>, later: set<Flag>): State
    decreases |s.flags * CALLOUTS_MASK|, 2
  {
    if Ctrl in todo then
      s.(frames := s.frames[id := InCtrl(|s.log|, todo - {Ctrl}, later)], log := s.log + [Started(Ctrl)])
    else
      AtRead(s, id, todo, later)
  }

  function AtRead(s: State, id: nat, todo: set<Flag>, later: set<Flag>): State
    decreases |s.flags * CALLOUTS_MASK|, 1
  {
    if Read in todo then
      s.(frames := s.frames[id := InRead(|s.log|, todo - {Read}, later)], log := s.log + [Started(Read)])
    else
      Loop(s, id, later)
  }

  // ---------------------------------------------------------------- the steps

  datatype Step =
    | Call(id: nat, callouts: set<Flag>)
    | ConfigReturned(id: nat)
    | CtrlReturned(id: nat, ok: bool)
    | ReadReturned(id: nat, gotFrame: bool)
    | WriteReturned(id: nat)

  /** A step that can be taken: a call is a new activation and asks for callouts
      only; a return comes to an activation that is out on that callout. */
  predicate Enabled(s: State, step: Step) {
    match step
    case Call(id, callouts) => id !in s.frames && callouts <= CALLOUTS_MASK
    case ConfigReturned(id) => id in s.frames && s.frames[id].InConfig?
    case CtrlReturned(id, _) => id in s.frames && s.frames[id].InCtrl?
    case ReadReturned(id, _) => id in s.frames && s.frames[id].InRead?
    case WriteReturned(id) => id in s.frames && s.frames[id].InWrite?
  }

  function Take(s: State, step: Step): State
    requires Enabled(s, step)
  {
    match step
    case Call(id, callouts) =>
      var s1 := s.(flags := s.flags + callouts, log := s.log + [Requested(callouts)]);
      if Running in s1.flags then s1
      else Loop(s1.(flags := s1.flags + {Running}), id, {})
    case ConfigReturned(id) =>
      var f := s.frames[id];
      AtCtrl(s.(log := s.log + [Finished(Config, f.since, true)]), id, f.todo, f.later)
    case CtrlReturned(id, ok) =>
      var f := s.frames[id];
      AtRead(s.(log := s.log + [Finished(Ctrl, f.since, ok)]), id, f.todo,
             if ok then f.later else f.later + {Ctrl})
    case ReadReturned(id, gotFrame) =>
      var f := s.frames[id];
      var s1 := s.(log := s.log + [Finished(Read, f.since, true)]);
      if gotFrame then s1.(frames := s1.frames[id := InWrite(f.later)])
      else Loop(s1, id, f.later)
    case WriteReturned(id) =>
      Loop(s.(flags := s.flags + {Read}), id, s.frames[id].later)
  }

  /** A run: from the initial state, one enabled step after another. */
  ghost predicate Run(states: seq<State>, steps: seq<Step>) {
    && |states| == |steps| + 1 && states[0] == INITIAL
    && forall i :: 0 <= i < |steps| ==> Enabled(states[i], steps[i]) && states[i + 1] == Take(states[i], steps[i])
  }

  // ---------------------------------------------------------------- what is promised

  /** At most one activation is inside the loop, and the RUNNING flag says so. */
  ghost predicate Exclusive(s: State) {
    && (Running in s.flags <==> s.frames != map[])
    && forall i, j :: i in s.frames && j in s.frames ==> i == j
  }

  ghost predicate IsRequest(s: State, i: nat, c: Flag) {
    i < |s.log| && s.log[i].Requested? && c in s.log[i].callouts && c in CALLOUTS_MASK
  }

  /** An action begun after position `i` has been performed. */
  ghost predicate Performed(s: State, i: nat, c: Flag) {
    exists k :: 0 <= k < |s.log| && s.log[k].Finished? && s.log[k].callout == c && s.log[k].ok && s.log[k].since > i
  }

  /** An action begun after position `i` has been tried, and may have failed. */
  ghost predicate Attempted(s: State, i: nat, c: Flag) {
    exists k :: 0 <= k < |s.log| && s.log[k].Finished? && s.log[k].callout == c && s.log[k].since > i
  }

  /** The activation that runs still has to see to a request made at `i`, or is
      out on an action begun after it. */
  ghost predicate InHand(s: State, i: nat, c: Flag) {
    exists id :: id in s.frames
      && (c in s.frames[id].Todo() || c in s.frames[id].later || (s.frames[id].Making(c) && s.frames[id].since > i))
  }

  ghost predicate Kept(s: State, i: nat, c: Flag) {
    Performed(s, i, c) || c in s.flags || InHand(s, i, c)
  }

  ghost predicate NothingLost(s: State) {
    forall i: nat, c :: IsRequest(s, i, c) ==> Kept(s, i, c)
  }

  /** The activation that runs is to try a request made at `i`, or is doing so. */
  ghost predicate Underway(s: State, i: nat, c: Flag) {
    exists id :: id in s.frames
      && (c in s.flags || c in s.frames[id].Todo() || (s.frames[id].Making(c) && s.frames[id].since > i))
  }

  /** What was put off for later has been tried once since it was asked for. */
  ghost predicate NoneSkipped(s: State) {
    forall i: nat, c :: IsRequest(s, i, c) ==> Attempted(s, i, c) || Underway(s, i, c)
  }

  /** The callouts an activation holds are callouts, and only CTRL is put off,
      and only after a CTRL callout failed that nothing has replaced since. */
  function After(c: Flag): set<Flag> {
    match c
    case Config => {Ctrl, Read}
    case Ctrl => {Read}
    case _ => {}
  }

  ghost predicate Sane(s: State) {
    && (forall id :: id in s.frames ==>
          && (forall c :: s.frames[id].Making(c) ==> s.frames[id].Todo() <= After(c))
          && s.frames[id].later <= {Ctrl}
          && (!s.frames[id].InWrite? ==> s.frames[id].since < |s.log|)
          && (s.frames[id].later != {} ==> FailedCtrl(s)))
    && (s.frames == map[] ==> s.flags <= {Ctrl})
    && (s.frames == map[] && s.flags != {} ==> FailedCtrl(s))
  }

  ghost predicate FailedCtrl(s: State) {
    exists k :: 0 <= k < |s.log| && s.log[k].Finished? && s.log[k].callout == Ctrl && !s.log[k].ok
  }

  ghost predicate Inv(s: State) {
    Exclusive(s) && NothingLost(s) && NoneSkipped(s) && Sane(s)
  }

  // ---------------------------------------------------------------- every step keeps the promises

  /** Inside the loop: activation `id`, alone, with `todo` to do in this pass. */
  ghost predicate Inside(s: State, id: nat, todo: set<Flag>, later: set<Flag>) {
    && Running in s.flags && todo <= CALLOUTS_MASK && later <= {Ctrl}
    && (later != {} ==> FailedCtrl(s))
    && (forall i :: i in s.frames ==> i == id)
    && (forall i: nat, c :: IsRequest(s, i, c) ==> Performed(s, i, c) || c in s.flags || c in todo || c in later)
    && (forall i: nat, c :: IsRequest(s, i, c) ==> Attempted(s, i, c) || c in s.flags || c in todo)
  }

  /** History only grows: what was performed, or failed, stays so. */
  lemma LogGrows(s: State, e: Event, s': State)
    requires s'.log == s.log + [e]
    ensures forall i: nat, c :: Performed(s, i, c) ==> Performed(s', i, c)
    ensures forall i: nat, c :: Attempted(s, i, c) ==> Attempted(s', i, c)
    ensures FailedCtrl(s) ==> FailedCtrl(s')
    ensures forall i: nat, c :: IsRequest(s', i, c) ==> IsRequest(s, i, c) || (i == |s.log| && e.Requested? && c in e.callouts)
  {
    assert forall k :: 0 <= k < |s.log| ==> s'.log[k] == s.log[k];
    forall i, c | Performed(s, i, c)
      ensures Performed(s', i, c)
    {
      var k :| 0 <= k < |s.log| && s.log[k].Finished? && s.log[k].callout == c && s.log[k].ok && s.log[k].since > i;
      assert s'.log[k] == s.log[k];
    }
    forall i, c | Attempted(s, i, c)
      ensures Attempted(s', i, c)
    {
      var k :| 0 <= k < |s.log| && s.log[k].Finished? && s.log[k].callout == c && s.log[k].since > i;
      assert s'.log[k] == s.log[k];
    }
    if FailedCtrl(s) {
      var k :| 0 <= k < |s.log| && s.log[k].Finished? && s.log[k].callout == Ctrl && !s.log[k].ok;
      assert s'.log[k] == s.log[k];
    }
  }

  /** Beginning a callout. */
  lemma StartKeeps(s: State, id: nat, c: Flag, todo: set<Flag>, later: set<Flag>, s': State)
    requires Inside(s, id, todo, later) && c in todo && todo <= After(c) + {c}
    requires s'.flags == s.flags && s'.log == s.log + [Started(c)]
    requires s'.frames.Keys == {id}
    requires var f := s'.frames[id];
      !f.InWrite? && f.Making(c) && f.since == |s.log| && f.todo == todo - {c} && f.later == later
    ensures Inv(s')
  {
    LogGrows(s, Started(c), s');
    forall i: nat, d | IsRequest(s', i, d)
      ensures Kept(s', i, d)
      ensures Attempted(s', i, d) || Underway(s', i, d)
    {
      assert IsRequest(s, i, d) && id in s'.frames;
      if !Performed(s, i, d) && d !in s.flags {
        assert InHand(s', i, d);
      }
      if !Attempted(s, i, d) {
        assert Underway(s', i, d);
      }
    }
  }

  lemma AtReadKeeps(s: State, id: nat, todo: set<Flag>, later: set<Flag>)
    requires Inside(s, id, todo, later) && todo <= {Read}
    ensures Inv(AtRead(s, id, todo, later))
    decreases |s.flags * CALLOUTS_MASK|, 1
  {
    if Read in todo {
      StartKeeps(s, id, Read, todo, later, AtRead(s, id, todo, later));
    } else {
      LoopKeeps(s, id, later);
    }
  }

  lemma AtCtrlKeeps(s: State, id: nat, todo: set<Flag>, later: set<Flag>)
    requires Inside(s, id, todo, later) && todo <= {Ctrl, Read}
    ensures Inv(AtCtrl(s, id, todo, later))
    decreases |s.flags * CALLOUTS_MASK|, 2
  {
    if Ctrl in todo {
      StartKeeps(s, id, Ctrl, todo, later, AtCtrl(s, id, todo, later));
    } else {
      AtReadKeeps(s, id, todo, later);
    }
  }

  lemma AtConfigKeeps(s: State, id: nat, todo: set<Flag>, later: set<Flag>)
    requires Inside(s, id, todo, later)
    ensures Inv(AtConfig(s, id, todo, later))
    decreases |s.flags * CALLOUTS_MASK|, 3
  {
    if Config in todo {
      StartKeeps(s, id, Config, todo, later, AtConfig(s, id, todo, later));
    } else {
      AtCtrlKeeps(s, id, todo, later);
    }
  }

  lemma SameLog(s: State, s': State, i: nat, c: Flag)
    requires s'.log == s.log
    ensures Performed(s, i, c) ==> Performed(s', i, c)
    ensures Attempted(s, i, c) ==> Attempted(s', i, c)
  {
  }

  lemma LoopKeeps(s: State, id: nat, later: set<Flag>)
    requires Inside(s, id, {}, later)
    ensures Inv(Loop(s, id, later))
    decreases |s.flags * CALLOUTS_MASK|, 0
  {
    if s.flags * CALLOUTS_MASK == {} {
      var s' := Loop(s, id, later);
      assert s'.frames == map[];
      forall i: nat, c | IsRequest(s', i, c)
        ensures Kept(s', i, c) && Attempted(s', i, c)
      {
        assert IsRequest(s, i, c);
        assert c in s.flags ==> c in s.flags * CALLOUTS_MASK;
        SameLog(s, s', i, c);
      }
    } else {
      var s1 := s.(flags := s.flags - CALLOUTS_MASK);
      assert s1.flags * CALLOUTS_MASK == {};
      forall i: nat, c | IsRequest(s1, i, c)
        ensures Performed(s1, i, c) || c in s1.flags || c in s.flags * CALLOUTS_MASK || c in later
        ensures Attempted(s1, i, c) || c in s1.flags || c in s.flags * CALLOUTS_MASK
      {
        assert IsRequest(s, i, c);
        SameLog(s, s1, i, c);
      }
      AtConfigKeeps(s1, id, s.flags * CALLOUTS_MASK, later);
    }
  }

  lemma CallKeeps(s: State, id: nat, callouts: set<Flag>)
    requires Inv(s) && Enabled(s, Call(id, callouts))
    ensures Inv(Take(s, Call(id, callouts)))
  {
    var e := Requested(callouts);
    var s1 := s.(flags := s.flags + callouts, log := s.log + [e]);
    LogGrows(s, e, s1);
    forall i: nat, c | IsRequest(s1, i, c)
      ensures Kept(s1, i, c)
      ensures Attempted(s1, i, c) || c in s1.flags || Underway(s1, i, c)
    {
      if i < |s.log| {
        assert IsRequest(s, i, c) && Kept(s, i, c);
        assert InHand(s, i, c) ==> InHand(s1, i, c);
        assert Underway(s, i, c) ==> Underway(s1, i, c);
      }
    }
    if Running !in s1.flags {
      assert s1.frames == map[];
      var s2 := s1.(flags := s1.flags + {Running});
      forall i: nat, c | IsRequest(s2, i, c)
        ensures Performed(s2, i, c) || c in s2.flags
        ensures Attempted(s2, i, c) || c in s2.flags
      {
        assert IsRequest(s1, i, c) && Kept(s1, i, c);
        SameLog(s1, s2, i, c);
      }
      LoopKeeps(s2, id, {});
    }
  }

  /** Coming back from a callout: what was in hand is performed, or still in hand. */
  lemma ReturnKeeps(s: State, id: nat, c: Flag, ok: bool, later: set<Flag>)
    requires Inv(s) && id in s.frames && !s.frames[id].InWrite? && s.frames[id].Making(c)
    requires later == if ok then s.frames[id].later else s.frames[id].later + {c}
    requires !ok ==> c == Ctrl
    ensures var s1 := s.(log := s.log + [Finished(c, s.frames[id].since, ok)]);
      Inside(s1, id, s.frames[id].todo, later) && s.frames[id].todo <= After(c)
  {
    var f := s.frames[id];
    var e := Finished(c, f.since, ok);
    var s1 := s.(log := s.log + [e]);
    LogGrows(s, e, s1);
    assert s1.log[|s.log|] == e;
    forall i: nat, d | IsRequest(s1, i, d)
      ensures Performed(s1, i, d) || d in s1.flags || d in f.todo || d in later
      ensures Attempted(s1, i, d) || d in s1.flags || d in f.todo
    {
      assert IsRequest(s, i, d) && Kept(s, i, d);
    }
  }

  lemma WriteKeeps(s: State, id: nat)
    requires Inv(s) && Enabled(s, WriteReturned(id))
    ensures Inv(Take(s, WriteReturned(id)))
  {
    var s1 := s.(flags := s.flags + {Read});
    forall i: nat, c | IsRequest(s1, i, c)
      ensures Performed(s1, i, c) || c in s1.flags || c in s.frames[id].later
      ensures Attempted(s1, i, c) || c in s1.flags
    {
      assert IsRequest(s, i, c) && Kept(s, i, c);
      SameLog(s, s1, i, c);
    }
    LoopKeeps(s1, id, s.frames[id].later);
  }

  /** The first call takes up the configuration callout with what it asks for itself. */
  lemma FirstCallKeeps(id: nat, callouts: set<Flag>)
    requires callouts <= CALLOUTS_MASK
    ensures Inv(Take(INITIAL, Call(id, callouts)))
  {
    var s := State({Config} + callouts + {Running}, map[], INITIAL.log + [Requested(callouts)]);
    assert Inside(s, id, {}, {});
    LoopKeeps(s, id, {});
  }

  /** Every step keeps the promises, and the first step makes them. */
  lemma StepKeeps(s: State, step: Step)
    requires (s == INITIAL || Inv(s)) && Enabled(s, step)
    ensures Inv(Take(s, step))
  {
    match step
    case Call(id, callouts) =>
      if s == INITIAL { FirstCallKeeps(id, callouts); } else { CallKeeps(s, id, callouts); }
    case ConfigReturned(id) =>
      var f := s.frames[id];
      ReturnKeeps(s, id, Config, true, f.later);
      AtCtrlKeeps(s.(log := s.log + [Finished(Config, f.since, true)]), id, f.todo, f.later);
    case CtrlReturned(id, ok) =>
      var f := s.frames[id];
      var later := if ok then f.later else f.later + {Ctrl};
      ReturnKeeps(s, id, Ctrl, ok, later);
      AtReadKeeps(s.(log := s.log + [Finished(Ctrl, f.since, ok)]), id, f.todo, later);
    case ReadReturned(id, gotFrame) =>
      var f := s.frames[id];
      var s1 := s.(log := s.log + [Finished(Read, f.since, true)]);
      ReturnKeeps(s, id, Read, true, f.later);
      if gotFrame {
        forall i: nat, c | IsRequest(Take(s, step), i, c)
          ensures Kept(Take(s, step), i, c)
          ensures Attempted(Take(s, step), i, c) || Underway(Take(s, step), i, c)
        {
          assert IsRequest(s1, i, c) && id in Take(s, step).frames;
          SameLog(s1, Take(s, step), i, c);
          assert c in f.later ==> InHand(Take(s, step), i, c);
        }
      } else {
        LoopKeeps(s1, id, f.later);
      }
    case WriteReturned(id) => WriteKeeps(s, id);
  }

  // ---------------------------------------------------------------- runs

  /** In every state of every run, in any interleaving, at most one activation
      is inside the loop and RUNNING says exactly whether one is, and no request is
      lost: it is in the flags, or in the hands of that activation, until an action
      begun after it has been performed.  From the first call on, what was put off
      has been tried, too. */
  lemma {:induction false} RunKeeps(states: seq<State>, steps: seq<Step>, i: nat)
    requires Run(states, steps) && i < |states|
    ensures Exclusive(states[i]) && NothingLost(states[i])
    ensures i > 0 ==> Inv(states[i])
  {
    if i > 0 {
      RunKeeps(states, steps, i - 1);
      assert Enabled(states[i - 1], steps[i - 1]) && states[i] == Take(states[i - 1], steps[i - 1]);
      StepKeeps(states[i - 1], steps[i - 1]);
    }
  }

  /** When nobody runs, then but for the configuration callout that waits for the first
      call every request has been tried by an action begun after it, and has been
      performed by one, but for CTRL requests while a failed CTRL callout waits in the
      flags to be tried again. */
  lemma QuietMeansServed(states: seq<State>, steps: seq<Step>, i: nat, r: nat, c: Flag)
    requires Run(states, steps) && i < |states| && states[i].frames == map[]
    requires IsRequest(states[i], r, c)
    ensures i == 0 ==> r == 0 && c == Config && states[i].flags == {Config} && !Attempted(states[i], r, c)
    ensures i > 0 ==> Attempted(states[i], r, c)
    ensures i > 0 && !Performed(states[i], r, c) ==>
      c == Ctrl && states[i].flags == {Ctrl} && FailedSince(states[i], r)
  {
    RunKeeps(states, steps, i);
    var s := states[i];
    assert Kept(s, r, c);
    if i > 0 && !Performed(s, r, c) {
      var k :| 0 <= k < |s.log| && s.log[k].Finished? && s.log[k].callout == c && s.log[k].since > r;
    }
  }

  /** A CTRL callout begun after position `i` has failed. */
  ghost predicate FailedSince(s: State, i: nat) {
    exists k :: 0 <= k < |s.log| && s.log[k].Finished? && s.log[k].callout == Ctrl && !s.log[k].ok && s.log[k].since > i
  }

  /** A call, even for nothing new, begins what waits in the flags: the configuration
      callout of a new element, or what an earlier failure left over. */
  lemma AnyCallRetries(s: State, id: nat, callouts: set<Flag>)
    requires (s == INITIAL || Inv(s)) && s.frames == map[] && Enabled(s, Call(id, callouts))
    ensures var s' := Take(s, Call(id, callouts));
      var wanted := (s.flags + callouts) * CALLOUTS_MASK;
      if wanted == {} then s'.frames == map[] && s'.flags == {}
      else
        && s'.frames.Keys == {id} && s'.flags == {Running}
        && (forall c :: c in wanted <==> s'.frames[id].Making(c) || c in s'.frames[id].Todo())
  {
    var wanted := (s.flags + callouts) * CALLOUTS_MASK;
    var s1 := s.(flags := s.flags + callouts + {Running}, log := s.log + [Requested(callouts)]);
    assert s1.flags * CALLOUTS_MASK == wanted;
    if wanted != {} {
      var s2 := s1.(flags := {Running});
      assert s1.flags - CALLOUTS_MASK == {Running};
      assert Take(s, Call(id, callouts)) == AtConfig(s2, id, wanted, {});
      if Config !in wanted {
        assert AtConfig(s2, id, wanted, {}) == AtCtrl(s2, id, wanted, {});
        if Ctrl !in wanted {
          assert wanted == {Read};
          assert AtCtrl(s2, id, wanted, {}) == AtRead(s2, id, wanted, {});
        }
      }
    }
  }

  /** Whatever it asks for, the first call begins with the configuration callout. */
  lemma FirstCallConfigures(id: nat, callouts: set<Flag>)
    requires callouts <= CALLOUTS_MASK
    ensures var s' := Take(INITIAL, Call(id, callouts));
      && s'.frames == map[id := InConfig(2, callouts - {Config}, {})] && s'.flags == {Running}
      && s'.log == [Requested({Config}), Requested(callouts), Started(Config)]
  {
    var s := State({Config} + callouts + {Running}, map[], INITIAL.log + [Requested(callouts)]);
    assert Take(INITIAL, Call(id, callouts)) == Loop(s, id, {});
    assert Config in s.flags * CALLOUTS_MASK;
    assert s.flags * CALLOUTS_MASK - {Config} == callouts - {Config};
    assert s.flags - CALLOUTS_MASK == {Running};
  }

  // ---------------------------------------------------------------- configured once

  /** How often a callout has been begun. */
  function Begun(log: seq<Event>, c: Flag): nat {
    if log == [] then 0
    else Begun(log[..|log| - 1], c) + if log[|log| - 1] == Started(c) then 1 else 0
  }

  lemma BegunAppend(log: seq<Event>, e: Event, c: Flag)
    ensures Begun(log + [e], c) == Begun(log, c) + if e == Started(c) then 1 else 0
  {
    assert (log + [e])[..|log|] == log;
  }

  /** Nobody is to begin the configuration callout again. */
  ghost predicate Configured(s: State) {
    && Begun(s.log, Config) == 1 && Config !in s.flags
    && forall id :: id in s.frames ==> Config !in s.frames[id].Todo() && Config !in s.frames[id].later
  }

  lemma StartConfigured(s: State, id: nat, c: Flag, frame: Frame)
    requires Configured(s) && c != Config && Config !in frame.Todo() && Config !in frame.later
    ensures Configured(s.(frames := s.frames[id := frame], log := s.log + [Started(c)]))
  {
    BegunAppend(s.log, Started(c), Config);
  }

  lemma AtReadConfigured(s: State, id: nat, todo: set<Flag>, later: set<Flag>)
    requires Configured(s) && Config !in todo && Config !in later
    ensures Configured(AtRead(s, id, todo, later))
    decreases |s.flags * CALLOUTS_MASK|, 1
  {
    if Read in todo {
      StartConfigured(s, id, Read, InRead(|s.log|, todo - {Read}, later));
    } else {
      LoopConfigured(s, id, later);
    }
  }

  lemma AtCtrlConfigured(s: State, id: nat, todo: set<Flag>, later: set<Flag>)
    requires Configured(s) && Config !in todo && Config !in later
    ensures Configured(AtCtrl(s, id, todo, later))
    decreases |s.flags * CALLOUTS_MASK|, 2
  {
    if Ctrl in todo {
      StartConfigured(s, id, Ctrl, InCtrl(|s.log|, todo - {Ctrl}, later));
    } else {
      AtReadConfigured(s, id, todo, later);
    }
  }

  lemma LoopConfigured(s: State, id: nat, later: set<Flag>)
    requires Configured(s) && Config !in later
    ensures Configured(Loop(s, id, later))
    decreases |s.flags * CALLOUTS_MASK|, 0
  {
    var todo := s.flags * CALLOUTS_MASK;
    if todo != {} {
      var s1 := s.(flags := s.flags - CALLOUTS_MASK);
      assert s1.flags * CALLOUTS_MASK == {};
      AtCtrlConfigured(s1, id, todo, later);
      assert Loop(s, id, later) == AtConfig(s1, id, todo, later) == AtCtrl(s1, id, todo, later);
    }
  }

  lemma FirstCallConfigured(id: nat, callouts: set<Flag>)
    requires callouts <= CALLOUTS_MASK
    ensures Configured(Take(INITIAL, Call(id, callouts)))
  {
    FirstCallConfigures(id, callouts);
    var log0, e := [Requested({Config})], Requested(callouts);
    assert [] + log0 == log0 && log0 + [e] == [Requested({Config}), e];
    BegunAppend([], Requested({Config}), Config);
    BegunAppend(log0, e, Config);
    BegunAppend([Requested({Config}), e], Started(Config), Config);
    hide Take;
    assert Take(INITIAL, Call(id, callouts)).log == [Requested({Config}), e] + [Started(Config)];
  }

  /** As no caller asks for the configuration callout, it is begun once: at the first call. */
  lemma {:induction false} ConfiguredOnce(states: seq<State>, steps: seq<Step>, i: nat)
    requires Run(states, steps) && i < |states|
    requires forall k :: 0 <= k < i && steps[k].Call? ==> Config !in steps[k].callouts
    ensures i > 0 ==> Configured(states[i])
  {
    if i > 0 {
      hide Take, Configured;
      var s, step := states[i - 1], steps[i - 1];
      ConfiguredOnce(states, steps, i - 1);
      assert Enabled(s, step) && states[i] == Take(s, step);
      if i == 1 {
        FirstCallConfigured(step.id, step.callouts);
      } else {
        StepConfigured(s, step);
      }
    }
  }

  lemma StepConfigured(s: State, step: Step)
    requires Configured(s) && Enabled(s, step) && (step.Call? ==> Config !in step.callouts)
    ensures Configured(Take(s, step))
  {
    match step
    case Call(id, callouts) =>
      BegunAppend(s.log, Requested(callouts), Config);
      var s1 := s.(flags := s.flags + callouts, log := s.log + [Requested(callouts)]);
      if Running !in s1.flags {
        LoopConfigured(s1.(flags := s1.flags + {Running}), id, {});
      }
    case ConfigReturned(id) =>
      var f := s.frames[id];
      BegunAppend(s.log, Finished(Config, f.since, true), Config);
      AtCtrlConfigured(s.(log := s.log + [Finished(Config, f.since, true)]), id, f.todo, f.later);
    case CtrlReturned(id, ok) =>
      var f := s.frames[id];
      BegunAppend(s.log, Finished(Ctrl, f.since, ok), Config);
      AtReadConfigured(s.(log := s.log + [Finished(Ctrl, f.since, ok)]), id, f.todo, if ok then f.later else f.later + {Ctrl});
    case ReadReturned(id, gotFrame) =>
      var f := s.frames[id];
      BegunAppend(s.log, Finished(Read, f.since, true), Config);
      if !gotFrame {
        LoopConfigured(s.(log := s.log + [Finished(Read, f.since, true)]), id, f.later);
      }
    case WriteReturned(id) =>
      LoopConfigured(s.(flags := s.flags + {Read}), id, s.frames[id].later);
  }

  // ---------------------------------------------------------------- every frame read is written

  /** With something to do the loop comes to a callout that is one of those, and has the
      others still to do. */
  lemma LoopStarts(s: State, id: nat, later: set<Flag>)
    requires s.flags * CALLOUTS_MASK != {} && forall j :: j in s.frames ==> j == id
    ensures var s' := Loop(s, id, later);
      && s'.frames.Keys == {id} && !s'.frames[id].InWrite? && s'.frames[id].later == later
      && forall c :: c in s.flags * CALLOUTS_MASK <==> s'.frames[id].Making(c) || c in s'.frames[id].Todo()
  {
    var todo := s.flags * CALLOUTS_MASK;
    var s1 := s.(flags := s.flags - CALLOUTS_MASK);
    assert s1.flags * CALLOUTS_MASK == {};
    assert Loop(s, id, later) == AtConfig(s1, id, todo, later);
    if Config !in todo {
      assert AtConfig(s1, id, todo, later) == AtCtrl(s1, id, todo, later);
      if Ctrl !in todo {
        assert todo == {Read};
        assert AtCtrl(s1, id, todo, later) == AtRead(s1, id, todo, later);
      }
    }
  }

  /** A read that got a frame leaves its activation out on the write of it. */
  lemma ReadIsWritten(states: seq<State>, steps: seq<Step>, i: nat)
    requires Run(states, steps) && i < |steps| && steps[i].ReadReturned? && steps[i].gotFrame
    ensures var id := steps[i].id;
      && id in states[i].frames && states[i].frames[id].InRead?
      && states[i + 1].frames.Keys == {id}
      && states[i + 1].frames[id] == InWrite(states[i].frames[id].later)
  {
    assert Enabled(states[i], steps[i]) && states[i + 1] == Take(states[i], steps[i]);
    RunKeeps(states, steps, i);
  }

  /** After a write the activation is on its way to another read. */
  lemma WriteReadsAgain(states: seq<State>, steps: seq<Step>, i: nat)
    requires Run(states, steps) && i < |steps| && steps[i].WriteReturned?
    ensures var id := steps[i].id;
      && states[i + 1].frames.Keys == {id}
      && (states[i + 1].frames[id].InRead? || Read in states[i + 1].frames[id].Todo())
  {
    assert Enabled(states[i], steps[i]) && states[i + 1] == Take(states[i], steps[i]);
    RunKeeps(states, steps, i);
    var s, id := states[i], steps[i].id;
    var s1 := s.(flags := s.flags + {Read});
    assert Read in s1.flags * CALLOUTS_MASK;
    LoopStarts(s1, id, s.frames[id].later);
  }

  /** How many reads have got a frame. */
  function FramesRead(steps: seq<Step>): nat {
    if steps == [] then 0
    else
      var last := steps[|steps| - 1];
      FramesRead(steps[..|steps| - 1]) + if last.ReadReturned? && last.gotFrame then 1 else 0
  }

  /** How many writes have been made. */
  function FramesWritten(steps: seq<Step>): nat {
    if steps == [] then 0
    else FramesWritten(steps[..|steps| - 1]) + if steps[|steps| - 1].WriteReturned? then 1 else 0
  }

  predicate Writing(s: State) {
    exists id :: id in s.frames && s.frames[id].InWrite?
  }

  lemma LoopWrites(s: State, id: nat, later: set<Flag>)
    requires forall j :: j in s.frames ==> j == id
    ensures !Writing(Loop(s, id, later))
  {
    if s.flags * CALLOUTS_MASK != {} {
      LoopStarts(s, id, later);
    }
  }

  /** Only a read that got a frame begins a write. */
  lemma LoopWritesNone(s: State, id: nat, todo: set<Flag>, later: set<Flag>)
    requires forall j :: j in s.frames ==> j == id
    ensures !Writing(Loop(s, id, later)) && !Writing(AtCtrl(s, id, todo, later)) && !Writing(AtRead(s, id, todo, later))
  {
    LoopWrites(s, id, later);
  }

  /** In every interleaving as many frames have been written as were read, but for one
      that is being written. */
  lemma {:induction false} ReadsAreWritten(states: seq<State>, steps: seq<Step>, i: nat)
    requires Run(states, steps) && i < |states|
    ensures FramesRead(steps[..i]) == FramesWritten(steps[..i]) + if Writing(states[i]) then 1 else 0
  {
    if i > 0 {
      ReadsAreWritten(states, steps, i - 1);
      RunKeeps(states, steps, i - 1);
      var s, step := states[i - 1], steps[i - 1];
      assert steps[..i][..i - 1] == steps[..i - 1];
      assert Enabled(s, step) && states[i] == Take(s, step);
      StepWrites(s, step);
    }
  }

  lemma StepWrites(s: State, step: Step)
    requires Exclusive(s) && Enabled(s, step)
    ensures Writing(Take(s, step)) <==> (step.ReadReturned? && step.gotFrame) || (step.Call? && Writing(s))
    ensures step.WriteReturned? ==> Writing(s)
    ensures step.ReadReturned? || step.CtrlReturned? || step.ConfigReturned? ==> !Writing(s)
  {
    hide Loop, AtCtrl, AtRead;
    match step
    case Call(id, callouts) =>
      var s1 := s.(flags := s.flags + callouts, log := s.log + [Requested(callouts)]);
      if Running !in s1.flags {
        LoopWritesNone(s1.(flags := s1.flags + {Running}), id, {}, {});
      }
    case ConfigReturned(id) =>
      var f := s.frames[id];
      LoopWritesNone(s.(log := s.log + [Finished(Config, f.since, true)]), id, f.todo, f.later);
    case CtrlReturned(id, ok) =>
      var f := s.frames[id];
      LoopWritesNone(s.(log := s.log + [Finished(Ctrl, f.since, ok)]), id, f.todo, if ok then f.later else f.later + {Ctrl});
    case ReadReturned(id, gotFrame) =>
      var f := s.frames[id];
      if gotFrame {
        assert Take(s, step).frames[id].InWrite?;
      } else {
        LoopWritesNone(s.(log := s.log + [Finished(Read, f.since, true)]), id, {}, f.later);
      }
    case WriteReturned(id) =>
      LoopWritesNone(s.(flags := s.flags + {Read}), id, {}, s.frames[id].later);
  }

  // ---------------------------------------------------------------- nothing is made up

  /** How often a callout has been asked for. */
  function Asked(log: seq<Event>, c: Flag): nat {
    if log == [] then 0
    else
      var last := log[|log| - 1];
      Asked(log[..|log| - 1], c) + if last.Requested? && c in last.callouts then 1 else 0
  }

  /** How often a callout has failed. */
  function Failures(log: seq<Event>, c: Flag): nat {
    if log == [] then 0
    else
      var last := log[|log| - 1];
      Failures(log[..|log| - 1], c) + if last.Finished? && last.callout == c && !last.ok then 1 else 0
  }

  lemma TalliesAppend(log: seq<Event>, e: Event, c: Flag)
    ensures Begun(log + [e], c) == Begun(log, c) + if e == Started(c) then 1 else 0
    ensures Asked(log + [e], c) == Asked(log, c) + if e.Requested? && c in e.callouts then 1 else 0
    ensures Failures(log + [e], c) == Failures(log, c) + if e.Finished? && e.callout == c && !e.ok then 1 else 0
  {
    assert (log + [e])[..|log|] == log;
  }

  function One(b: bool): nat { if b then 1 else 0 }

  /** How often a callout is still to be begun, as far as the flags and an activation tell. */
  function Owed(s: State, id: nat, c: Flag): nat {
    One(c in s.flags) + if id in s.frames then One(c in s.frames[id].Todo()) + One(c in s.frames[id].later) else 0
  }

  /** A stretch of code begins no callout but those it was to begin. */
  ghost predicate Pays(s: State, s': State, id: nat, owed: nat, c: Flag) {
    && Begun(s'.log, c) + Owed(s', id, c) <= Begun(s.log, c) + owed
    && Asked(s'.log, c) == Asked(s.log, c) && Failures(s'.log, c) == Failures(s.log, c)
    && s'.frames.Keys <= s.frames.Keys + {id}
  }

  lemma StartPays(s: State, id: nat, d: Flag, frame: Frame, c: Flag)
    ensures var s' := s.(frames := s.frames[id := frame], log := s.log + [Started(d)]);
      Pays(s, s', id, One(c in s.flags) + One(c in frame.Todo()) + One(c in frame.later) + One(c == d), c)
  {
    TalliesAppend(s.log, Started(d), c);
  }

  lemma AtReadPays(s: State, id: nat, todo: set<Flag>, later: set<Flag>, c: Flag)
    requires c in CALLOUTS_MASK
    ensures Pays(s, AtRead(s, id, todo, later), id, One(c in s.flags) + One(c in todo) + One(c in later), c)
    decreases |s.flags * CALLOUTS_MASK|, 1
  {
    if Read in todo {
      StartPays(s, id, Read, InRead(|s.log|, todo - {Read}, later), c);
    } else {
      LoopPays(s, id, later, c);
    }
  }

  lemma AtCtrlPays(s: State, id: nat, todo: set<Flag>, later: set<Flag>, c: Flag)
    requires c in CALLOUTS_MASK
    ensures Pays(s, AtCtrl(s, id, todo, later), id, One(c in s.flags) + One(c in todo) + One(c in later), c)
    decreases |s.flags * CALLOUTS_MASK|, 2
  {
    if Ctrl in todo {
      StartPays(s, id, Ctrl, InCtrl(|s.log|, todo - {Ctrl}, later), c);
    } else {
      AtReadPays(s, id, todo, later, c);
    }
  }

  lemma LoopPays(s: State, id: nat, later: set<Flag>, c: Flag)
    requires c in CALLOUTS_MASK
    ensures Pays(s, Loop(s, id, later), id, One(c in s.flags) + One(c in later), c)
    decreases |s.flags * CALLOUTS_MASK|, 0
  {
    var todo := s.flags * CALLOUTS_MASK;
    if todo != {} {
      var s1 := s.(flags := s.flags - CALLOUTS_MASK);
      assert s1.flags * CALLOUTS_MASK == {};
      assert Loop(s, id, later) == AtConfig(s1, id, todo, later);
      if Config in todo {
        StartPays(s1, id, Config, InConfig(|s.log|, todo - {Config}, later), c);
      } else {
        AtCtrlPays(s1, id, todo, later, c);
      }
    }
  }

  /** What was begun and is owed has been asked for, or failed, or is the read that
      follows a write. */
  ghost predicate Covered(s: State, id: nat, c: Flag, written: nat) {
    Begun(s.log, c) + Owed(s, id, c) <= Asked(s.log, c) + Failures(s.log, c) + if c == Read then written else 0
  }

  /** From a state with one activation, or none, into a stretch of its code. */
  lemma PaysCovers(s: State, s': State, id: nat, owed: nat, c: Flag, written: nat, j: nat)
    requires s.frames.Keys <= {id} && Pays(s, s', id, owed, c)
    requires Begun(s.log, c) + owed <= Asked(s.log, c) + Failures(s.log, c) + if c == Read then written else 0
    ensures Covered(s', j, c, written)
  {
    assert j in s'.frames ==> j == id;
  }

  lemma CallCovers(s: State, step: Step, c: Flag, written: nat, j: nat)
    requires Enabled(s, step) && step.Call? && c in CALLOUTS_MASK && Exclusive(s)
    requires Covered(s, j, c, written) && Covered(s, step.id, c, written)
    ensures Covered(Take(s, step), j, c, written)
  {
    TalliesAppend(s.log, Requested(step.callouts), c);
    var s1 := s.(flags := s.flags + step.callouts, log := s.log + [Requested(step.callouts)]);
    if Running !in s1.flags {
      var s2 := s1.(flags := s1.flags + {Running});
      LoopPays(s2, step.id, {}, c);
      PaysCovers(s2, Take(s, step), step.id, One(c in s2.flags) + One(c in {}), c, written, j);
    }
  }

  lemma ConfigCovers(s: State, id: nat, c: Flag, written: nat, j: nat)
    requires Enabled(s, ConfigReturned(id)) && c in CALLOUTS_MASK && s.frames.Keys == {id} && Covered(s, id, c, written)
    ensures Covered(Take(s, ConfigReturned(id)), j, c, written)
  {
    hide Begun, Asked, Failures, AtCtrl;
    var f := s.frames[id];
    TalliesAppend(s.log, Finished(Config, f.since, true), c);
    var s1 := s.(log := s.log + [Finished(Config, f.since, true)]);
    AtCtrlPays(s1, id, f.todo, f.later, c);
    PaysCovers(s1, AtCtrl(s1, id, f.todo, f.later), id, One(c in s.flags) + One(c in f.todo) + One(c in f.later), c, written, j);
  }

  lemma CtrlCovers(s: State, id: nat, ok: bool, c: Flag, written: nat, j: nat)
    requires Enabled(s, CtrlReturned(id, ok)) && c in CALLOUTS_MASK && s.frames.Keys == {id} && Covered(s, id, c, written)
    ensures Covered(Take(s, CtrlReturned(id, ok)), j, c, written)
  {
    hide Begun, Asked, Failures, AtRead;
    var f := s.frames[id];
    var later := if ok then f.later else f.later + {Ctrl};
    TalliesAppend(s.log, Finished(Ctrl, f.since, ok), c);
    var s1 := s.(log := s.log + [Finished(Ctrl, f.since, ok)]);
    AtReadPays(s1, id, f.todo, later, c);
    PaysCovers(s1, AtRead(s1, id, f.todo, later), id, One(c in s.flags) + One(c in f.todo) + One(c in later), c, written, j);
  }

  lemma ReadCovers(s: State, id: nat, gotFrame: bool, c: Flag, written: nat, j: nat)
    requires Enabled(s, ReadReturned(id, gotFrame)) && c in CALLOUTS_MASK && s.frames.Keys == {id} && Covered(s, id, c, written)
    ensures Covered(Take(s, ReadReturned(id, gotFrame)), j, c, written)
  {
    hide Begun, Asked, Failures, Loop;
    var f := s.frames[id];
    TalliesAppend(s.log, Finished(Read, f.since, true), c);
    var s1 := s.(log := s.log + [Finished(Read, f.since, true)]);
    if !gotFrame {
      LoopPays(s1, id, f.later, c);
      PaysCovers(s1, Loop(s1, id, f.later), id, One(c in s.flags) + One(c in f.later), c, written, j);
    }
  }

  lemma WriteCovers(s: State, id: nat, c: Flag, written: nat, j: nat)
    requires Enabled(s, WriteReturned(id)) && c in CALLOUTS_MASK && s.frames.Keys == {id} && Covered(s, id, c, written)
    ensures Covered(Take(s, WriteReturned(id)), j, c, written + 1)
  {
    hide Begun, Asked, Failures, Loop;
    var later := s.frames[id].later;
    var s1 := s.(flags := s.flags + {Read});
    LoopPays(s1, id, later, c);
    PaysCovers(s1, Loop(s1, id, later), id, One(c in s1.flags) + One(c in later), c, written + 1, j);
  }

  lemma ReturnCovers(s: State, step: Step, c: Flag, written: nat, j: nat)
    requires Enabled(s, step) && !step.Call? && c in CALLOUTS_MASK && s.frames.Keys == {step.id}
    requires Covered(s, step.id, c, written)
    ensures Covered(Take(s, step), j, c, written + One(step.WriteReturned?))
  {
    hide Covered, Take, Enabled;
    match step
    case ConfigReturned(id) => ConfigCovers(s, id, c, written, j);
    case CtrlReturned(id, ok) => CtrlCovers(s, id, ok, c, written, j);
    case ReadReturned(id, gotFrame) => ReadCovers(s, id, gotFrame, c, written, j);
    case WriteReturned(id) => WriteCovers(s, id, c, written, j);
  }

  /** In every interleaving a callout is begun no more often than it was asked for, had
      failed, or, for a read, than a frame was written; what the flags and the activation
      still hold counts as begun. */
  lemma {:induction false} NoneMadeUp(states: seq<State>, steps: seq<Step>, i: nat, id: nat, c: Flag)
    requires Run(states, steps) && i < |states| && c in CALLOUTS_MASK
    ensures Covered(states[i], id, c, FramesWritten(steps[..i]))
  {
    hide Begun, Asked, Failures, Take;
    if i == 0 {
      TalliesAppend([], Requested({Config}), c);
      assert [] + INITIAL.log == INITIAL.log;
      NoTallies(c);
    } else {
      var s, step := states[i - 1], steps[i - 1];
      NoneMadeUp(states, steps, i - 1, id, c);
      NoneMadeUp(states, steps, i - 1, step.id, c);
      RunKeeps(states, steps, i - 1);
      assert steps[..i][..i - 1] == steps[..i - 1];
      assert Enabled(s, step) && states[i] == Take(s, step);
      if step.Call? {
        CallCovers(s, step, c, FramesWritten(steps[..i - 1]), id);
      } else {
        ReturnCovers(s, step, c, FramesWritten(steps[..i - 1]), id);
      }
    }
  }

  lemma NoTallies(c: Flag)
    ensures Begun([], c) == 0 && Asked([], c) == 0 && Failures([], c) == 0
  {
  }

  // ---------------------------------------------------------------- the runner finishes

  /** A bound on the returns still needed before the activation leaves the loop. */
  function Ahead(s: State, id: nat): nat {
    if id !in s.frames then 0
    else (if s.frames[id].InWrite? then 3 else 1) + |s.frames[id].Todo()| + 4 * |s.flags * CALLOUTS_MASK|
  }

  /** A frame read asks for another read, so it buys three more returns. */
  function Bought(step: Step): nat {
    if step.ReadReturned? && step.gotFrame then 3 else 0
  }

  lemma LoopAhead(s: State, id: nat, later: set<Flag>)
    requires id in s.frames
    ensures Ahead(Loop(s, id, later), id) <= |s.flags * CALLOUTS_MASK|
    ensures Loop(s, id, later).frames.Keys <= s.frames.Keys
  {
    var wanted := s.flags * CALLOUTS_MASK;
    if wanted != {} {
      var s1 := s.(flags := s.flags - CALLOUTS_MASK);
      assert s1.flags * CALLOUTS_MASK == {};
      if Config in wanted {
        assert |wanted - {Config}| == |wanted| - 1;
      } else if Ctrl in wanted {
        assert AtConfig(s1, id, wanted, later) == AtCtrl(s1, id, wanted, later);
        assert |wanted - {Ctrl}| == |wanted| - 1;
      } else {
        assert wanted == {Read};
        assert AtConfig(s1, id, wanted, later) == AtCtrl(s1, id, wanted, later) == AtRead(s1, id, wanted, later);
        assert wanted - {Read} == {};
      }
    }
  }

  lemma CountLess(todo: set<Flag>, c: Flag)
    requires c in todo
    ensures |todo - {c}| == |todo| - 1
  {
  }

  lemma AtReadAhead(s: State, id: nat, todo: set<Flag>, later: set<Flag>)
    requires id in s.frames && todo <= {Read}
    ensures Ahead(AtRead(s, id, todo, later), id) <= |todo| + 4 * |s.flags * CALLOUTS_MASK|
    ensures AtRead(s, id, todo, later).frames.Keys <= s.frames.Keys
  {
    if Read in todo {
      CountLess(todo, Read);
    } else {
      LoopAhead(s, id, later);
    }
  }

  lemma AtCtrlAhead(s: State, id: nat, todo: set<Flag>, later: set<Flag>)
    requires id in s.frames && todo <= {Ctrl, Read}
    ensures Ahead(AtCtrl(s, id, todo, later), id) <= |todo| + 4 * |s.flags * CALLOUTS_MASK|
    ensures AtCtrl(s, id, todo, later).frames.Keys <= s.frames.Keys
  {
    if Ctrl in todo {
      CountLess(todo, Ctrl);
    } else {
      AtReadAhead(s, id, todo, later);
    }
  }

  lemma WriteAhead(s: State, id: nat)
    requires id in s.frames && s.frames[id].InWrite?
    ensures var s' := Take(s, WriteReturned(id));
      Ahead(s', id) + 1 <= Ahead(s, id) && s'.frames.Keys <= s.frames.Keys
  {
    var s1 := s.(flags := s.flags + {Read});
    assert s1.flags * CALLOUTS_MASK == s.flags * CALLOUTS_MASK + {Read};
    LoopAhead(s1, id, s.frames[id].later);
  }

  /** Every return of the runner brings it nearer to leaving. */
  lemma ReturnAhead(s: State, step: Step, id: nat)
    requires Inv(s) && id in s.frames && Enabled(s, step) && !step.Call?
    ensures Ahead(Take(s, step), id) + 1 <= Ahead(s, id) + Bought(step)
    ensures Take(s, step).frames.Keys <= {id}
  {
    var f := s.frames[id];
    OneRuns(s, step, id);
    hide Inv, AtRead, AtCtrl, Loop;
    match step
    case ConfigReturned(_) =>
      assert f.Making(Config);
      AtCtrlAhead(s.(log := s.log + [Finished(Config, f.since, true)]), id, f.todo, f.later);
    case CtrlReturned(_, ok) =>
      assert f.Making(Ctrl);
      AtReadAhead(s.(log := s.log + [Finished(Ctrl, f.since, ok)]), id, f.todo, if ok then f.later else f.later + {Ctrl});
    case ReadReturned(_, gotFrame) =>
      LoopAhead(s.(log := s.log + [Finished(Read, f.since, true)]), id, f.later);
    case WriteReturned(_) =>
      WriteAhead(s, id);
  }

  /** Only the runner returns, with no more to do than its callout leaves. */
  lemma OneRuns(s: State, step: Step, id: nat)
    requires Inv(s) && id in s.frames && Enabled(s, step) && !step.Call?
    ensures step.id == id && s.frames.Keys == {id}
    ensures forall c :: s.frames[id].Making(c) ==> s.frames[id].Todo() <= After(c)
  {
  }

  function TotalBought(steps: seq<Step>): nat {
    if steps == [] then 0 else Bought(steps[0]) + TotalBought(steps[1..])
  }

  /** Left alone by callers, an activation leaves the loop: the number of its
      returns is bounded by what was wanted and by the frames it is given. */
  lemma {:induction false} RunnerFinishes(states: seq<State>, steps: seq<Step>, id: nat)
    requires |states| == |steps| + 1 && Inv(states[0])
    requires forall i :: 0 <= i < |steps| ==> Enabled(states[i], steps[i]) && !steps[i].Call?
    requires forall i :: 0 <= i < |steps| ==> states[i + 1] == Take(states[i], steps[i])
    requires id in states[0].frames
    ensures |steps| <= Ahead(states[0], id) + TotalBought(steps)
  {
    if steps != [] {
      ReturnAhead(states[0], steps[0], id);
      StepKeeps(states[0], steps[0]);
      var states', steps' := states[1..], steps[1..];
      assert states'[0] == Take(states[0], steps[0]);
      assert forall i {:trigger steps'[i]} :: 0 <= i < |steps'| ==>
        steps'[i] == steps[i + 1] && states'[i] == states[i + 1] && states'[i + 1] == states[i + 2];
      if steps' != [] {
        assert Enabled(states'[0], steps'[0]) && steps'[0].id in states'[0].frames;
        RunnerFinishes(states', steps', id);
      }
    }
  }

  // ---------------------------------------------------------------- the element

  class Ethernet {
    var flags: set<Flag>
    var frames: map<nat, Frame>
    var log: seq<Event>

    ghost function View(): State
      reads this
    {
      State(flags, frames, log)
    }

    constructor ()
      ensures View() == INITIAL
    {
      flags, frames, log := {Config}, map[], [Requested({Config})];
    }

    /** The callout function, up to its first mutex drop or its return. */
    method Callout(id: nat, callouts: set<Flag>)
      requires Enabled(View(), Call(id, callouts))
      modifies this
      ensures View() == Take(old(View()), Call(id, callouts))
    {
      log := log + [Requested(callouts)];
      flags := flags + callouts;
      if Running in flags {
        return;
      }
      flags := flags + {Running};
      RunLoop(id, {});
    }

    /** The loop, from its test to the next mutex drop or its end. */
    method RunLoop(id: nat, later: set<Flag>)
      modifies this
      ensures View() == Loop(old(View()), id, later)
      decreases |flags * CALLOUTS_MASK|, 0
    {
      var todo := flags * CALLOUTS_MASK;
      if todo == {} {
        flags := later;
        frames := frames - {id};
        return;
      }
      flags := flags - CALLOUTS_MASK;
      assert flags * CALLOUTS_MASK == {};
      if Config in todo {
        frames := frames[id := InConfig(|log|, todo - {Config}, later)];
        log := log + [Started(Config)];
      } else {
        PassCtrl(id, todo, later);
      }
    }

    method PassCtrl(id: nat, todo: set<Flag>, later: set<Flag>)
      modifies this
      ensures View() == AtCtrl(old(View()), id, todo, later)
      decreases |flags * CALLOUTS_MASK|, 2
    {
      if Ctrl in todo {
        frames := frames[id := InCtrl(|log|, todo - {Ctrl}, later)];
        log := log + [Started(Ctrl)];
      } else {
        PassRead(id, todo, later);
      }
    }

    method PassRead(id: nat, todo: set<Flag>, later: set<Flag>)
      modifies this
      ensures View() == AtRead(old(View()), id, todo, later)
      decreases |flags * CALLOUTS_MASK|, 1
    {
      if Read in todo {
        frames := frames[id := InRead(|log|, todo - {Read}, later)];
        log := log + [Started(Read)];
      } else {
        RunLoop(id, later);
      }
    }

    method ConfigDone(id: nat)
      requires Enabled(View(), ConfigReturned(id))
      modifies this
      ensures View() == Take(old(View()), ConfigReturned(id))
    {
      var f := frames[id];
      log := log + [Finished(Config, f.since, true)];
      PassCtrl(id, f.todo, f.later);
    }

    method CtrlDone(id: nat, ok: bool)
      requires Enabled(View(), CtrlReturned(id, ok))
      modifies this
      ensures View() == Take(old(View()), CtrlReturned(id, ok))
    {
      var f := frames[id];
      log := log + [Finished(Ctrl, f.since, ok)];
      var later := f.later;
      if !ok {
        later := later + {Ctrl};
      }
      PassRead(id, f.todo, later);
    }

    method ReadDone(id: nat, gotFrame: bool)
      requires Enabled(View(), ReadReturned(id, gotFrame))
      modifies this
      ensures View() == Take(old(View()), ReadReturned(id, gotFrame))
    {
      var f := frames[id];
      log := log + [Finished(Read, f.since, true)];
      if gotFrame {
        frames := frames[id := InWrite(f.later)];
      } else {
        RunLoop(id, f.later);
      }
    }

    method WriteDone(id: nat)
      requires Enabled(View(), WriteReturned(id))
      modifies this
      ensures View() == Take(old(View()), WriteReturned(id))
    {
      flags := flags + {Read};
      RunLoop(id, frames[id].later);
    }

    /** The other side's control lines changed. */
    method ControlChanged(id: nat, readable: bool)
      requires id !in frames
      modifies this
      ensures View() == Take(old(View()), Call(id, if readable then {Read} else {}))
    {
      var newCallouts: set<Flag> := {};
      if readable {
        newCallouts := newCallouts + {Read};
        assert newCallouts == {Read};
      }
      Callout(id, newCallouts);
    }
  }
}
