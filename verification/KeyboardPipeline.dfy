/** The input stages of the keyboard together.  Each hands its events to the next
    as it makes them and no state goes back, so what the stage after them sees is
    found by running them one after the other. */
module KeyboardPipeline {
  import opened KeyboardTime
  import opened KeyboardEvents
  import opened KeyboardMacroTrie
  import Modifiers = KeyboardModifiers
  import Modes = KeyboardModes
  import Macros = KeyboardMacros

  /** How a keyboard is set up before its first event. */
  datatype Setup = Setup(attachments: Modifiers.Attachments, modeBits: map<Keysym, bv8>, additions: seq<Addition>, trie: Trie)
  {
    ghost function Accepted(): map<Path, seq<Entry>> { AcceptAll(additions) }

    function KeyModes(): map<Keysym, Modes.Mode> { map key | key in modeBits :: Modes.ModeOf(modeBits[key]) }

    /** Every mode was accepted, and the tree is that of the macros that were. */
    ghost predicate Valid() {
      && attachments.Valid()
      && (forall key :: key in modeBits ==> Modes.InModeAccepts(modeBits[key]))
      && Denotes(trie, Accepted())
    }
  }

  /** Raw events that no assert of stage zero stops. */
  predicate Plays(k: Setup, raw: seq<Modifiers.RawEvent>) {
    Modifiers.Streams(k.attachments, raw) && Modifiers.Run(k.attachments, raw).Ran?
  }

  function AfterStage0(k: Setup, raw: seq<Modifiers.RawEvent>): Modifiers.State
    requires Plays(k, raw)
  {
    Modifiers.Run(k.attachments, raw).state
  }

  function AfterStage1(k: Setup, raw: seq<Modifiers.RawEvent>): Modes.State
    requires Plays(k, raw)
  {
    Modes.Run(k.KeyModes(), AfterStage0(k, raw).calls)
  }

  ghost function AfterStage2(k: Setup, raw: seq<Modifiers.RawEvent>): Macros.State
    requires Plays(k, raw)
  {
    Macros.Run(k.trie, k.Accepted() != map[], AfterStage1(k, raw).calls)
  }

  lemma ModesNotSilent(k: Setup)
    requires k.Valid()
    ensures Modes.NoneSilent(k.KeyModes())
  {
    forall key ensures !Modes.ModeFor(k.KeyModes(), key).Silent() {
      if key in k.modeBits { Modes.AcceptedModes(k.modeBits[key]); }
    }
  }

  /** Whatever raw events stage zero goes through with, every stage is given what it
      relies on and keeps its invariant: the output stages see each keysym pressed and
      released in turn, and the stages agree on what is pressed. */
  lemma PipelineKeeps(k: Setup, raw: seq<Modifiers.RawEvent>)
    requires k.Valid() && Plays(k, raw)
    ensures var s0, s1, s2 := AfterStage0(k, raw), AfterStage1(k, raw), AfterStage2(k, raw);
      && Modifiers.Inv(k.attachments, s0)
      && Modes.Inv(k.KeyModes(), s0.calls, s1)
      && Macros.Inv(k.trie, s1.calls, s2)
      && Alternating(s2.calls) && Timed(s2.calls)
      && forall key :: s2.In1(key) == s1.Key(key).pressed
  {
    hide Denotes, Macros.ActiveExact, Macros.CountsExact, Modes.KeysOk, Modifiers.MaskExact;
    Modifiers.RunKeeps(k.attachments, raw);
    ModesNotSilent(k);
    Modes.RunKeeps(k.KeyModes(), AfterStage0(k, raw).calls);
    AcceptAllPrefixFree(k.additions);
    Macros.TreeIsShaped(k.trie, k.Accepted());
    if k.Accepted() == map[] {
      EmptyDenotes();
      DenotesUnique(k.trie, EMPTY, map[]);
    }
    Macros.RunKeeps(k.trie, k.Accepted() != map[], AfterStage1(k, raw).calls);
  }

  /** What the output stages have as pressed, told from the events before each stage: the
      first stage passes a key on as its mode means it, and over that the macros held in
      sequence press and release. */
  lemma KeyboardMeans(k: Setup, raw: seq<Modifiers.RawEvent>, key: Keysym)
    requires k.Valid() && Plays(k, raw)
    ensures var s0, s1, s2 := AfterStage0(k, raw), AfterStage1(k, raw), AfterStage2(k, raw);
      && Down(s1.calls, key) == Modes.Means(Modes.ModeFor(k.KeyModes(), key), s0.calls, key)
      && (Down(s2.calls, key) <==>
           || Macros.SomeMacro(k.Accepted(), s1.calls, Entry(key, true))
           || (!Macros.SomeMacro(k.Accepted(), s1.calls, Entry(key, false)) && Down(s1.calls, key)))
  {
    hide Denotes, Macros.ActiveExact, Macros.CountsExact, Modes.KeysOk, Modifiers.MaskExact;
    PipelineKeeps(k, raw);
    ModesNotSilent(k);
    Modes.RunMeans(k.KeyModes(), AfterStage0(k, raw).calls, key);
    AcceptAllPrefixFree(k.additions);
    Macros.RunMeans(k.trie, k.Accepted(), AfterStage1(k, raw).calls, key);
  }

  // ---------------------------------------------------------------- with no modes and no macros

  /** With no mode set the first stage passes on exactly what it is given. */
  lemma {:induction false} NoModesPass(events: seq<KeyEvent>)
    requires Alternating(events) && Timed(events)
    ensures Modes.Run(map[], events).calls == events
  {
    if events != [] {
      var front, e := events[..|events| - 1], events[|events| - 1];
      NoModesPass(front);
      Modes.RunKeeps(map[], front);
      var s := Modes.Run(map[], front);
      NoneWait(front, s);
      assert Modes.KeyOk(Modes.ModeFor(map[], e.key), Down(front, e.key), LastTime(front, e.key),
                         s.Key(e.key), e.key in s.noAutorepeats);
      assert events == front + [e];
    }
  }

  lemma NoneWait(events: seq<KeyEvent>, s: Modes.State)
    requires Modes.Inv(map[], events, s)
    ensures s.noAutorepeats == []
  {
    if s.noAutorepeats != [] {
      Modes.ListedDefers(map[], events, s, s.noAutorepeats[0]);
    }
  }

  /** With no macros the second stage passes on exactly what it is given. */
  lemma {:induction false} NoMacrosPass(events: seq<KeyEvent>)
    requires Alternating(events) && Timed(events)
    ensures var s := Macros.Run(EMPTY, false, events);
      s.calls == events && s.active == [] && s.pressed == map[] && s.released == map[]
  {
    if events != [] {
      var front, e := events[..|events| - 1], events[|events| - 1];
      NoMacrosPass(front);
      assert events == front + [e];
    }
  }

  /** With neither, the output stages see what stage zero made of the raw events. */
  lemma PlainKeyboardIsTransparent(k: Setup, raw: seq<Modifiers.RawEvent>)
    requires k.Valid() && Plays(k, raw)
    requires k.modeBits == map[] && k.Accepted() == map[]
    ensures AfterStage2(k, raw).calls == AfterStage0(k, raw).calls
  {
    PipelineKeeps(k, raw);
    assert k.KeyModes() == map[];
    NoModesPass(AfterStage0(k, raw).calls);
    EmptyDenotes();
    DenotesUnique(k.trie, EMPTY, map[]);
    NoMacrosPass(AfterStage0(k, raw).calls);
  }

  /** And when the raw events miss nothing, they see those events. */
  lemma TruthfulKeyboardIsTransparent(k: Setup, raw: seq<Modifiers.RawEvent>)
    requires k.Valid() && Modifiers.Streams(k.attachments, raw) && Modifiers.AllTruthful(k.attachments, raw)
    requires k.modeBits == map[] && k.Accepted() == map[]
    ensures Plays(k, raw) && AfterStage2(k, raw).calls == Modifiers.Known(k.attachments, raw)
  {
    Modifiers.TruthfulStreamPlays(k.attachments, raw);
    PlainKeyboardIsTransparent(k, raw);
  }
}
