/** Input stage two of the keyboard: recognizes macros.  A node of the macros tree
    is active while the keysyms on its path, pressed in that order, are all still
    pressed; an active leaf presses and releases the keysyms of its macro, over
    what the earlier stages say of them. */
module KeyboardMacros {
  import opened KeyboardTime
  import opened KeyboardEvents
  import opened KeyboardMacroTrie

  /** What the tree says of a node, for this stage. */
  predicate HasBranch(trie: Trie, p: Path, key: Keysym) {
    key in BranchKeys(trie, p)
  }

  function LeafEntries(trie: Trie, p: Path): seq<Entry> {
    if p in trie && trie[p].branches.None? then trie[p].entries else []
  }

  datatype State = State(in1: map<Keysym, bool>, active: seq<Path>,
                         pressed: map<Keysym, int>, released: map<Keysym, int>, calls: seq<KeyEvent>)
  {
    function In1(key: Keysym): bool { key in in1 && in1[key] }

    function Presses(key: Keysym): int { if key in pressed then pressed[key] else 0 }

    function Releases(key: Keysym): int { if key in released then released[key] else 0 }

    /** Whether a keysym is pressed in this stage: a macro presses it, or none
        releases it and it was pressed before. */
    predicate PressedIf(key: Keysym, prev: bool) {
      Presses(key) != 0 || (Releases(key) == 0 && prev)
    }

    predicate Pressed(key: Keysym) { PressedIf(key, In1(key)) }

    function Call(key: Keysym, time: Time): State {
      this.(calls := calls + [KeyEvent(key, Pressed(key), time)])
    }
  }

  /** The stage before any event; the root is active if there is any macro. */
  function Initial(anyMacro: bool): State {
    State(map[], if anyMacro then [ROOT] else [], map[], map[], [])
  }

  // ---------------------------------------------------------------- one event

  function Count(s: State, entry: Entry, update: int): State {
    if entry.press then s.(pressed := s.pressed[entry.key := s.Presses(entry.key) + update])
    else s.(released := s.released[entry.key := s.Releases(entry.key) + update])
  }

  /** One press or release of a macro, done or undone; `key` is told about later. */
  function ApplyOne(s: State, entry: Entry, update: int, key: Keysym, time: Time): State {
    var s1 := Count(s, entry, update);
    if entry.key != key && s1.Pressed(entry.key) != s.Pressed(entry.key) then s1.Call(entry.key, time) else s1
  }

  /** The entries of a macro, from the last to the first. */
  function Apply(s: State, entries: seq<Entry>, update: int, key: Keysym, time: Time): State
    decreases |entries|
  {
    if entries == [] then s
    else
      var n := |entries| - 1;
      Apply(ApplyOne(s, entries[n], update, key, time), entries[..n], update, key, time)
  }

  function Insert<T>(list: seq<T>, i: int, x: T): seq<T>
    requires 0 <= i <= |list|
  {
    list[..i] + [x] + list[i..]
  }

  function Remove<T>(list: seq<T>, i: int): seq<T>
    requires 0 <= i < |list|
  {
    list[..i] + list[i + 1..]
  }

  lemma {:induction false} ApplyKeepsList(s: State, entries: seq<Entry>, update: int, key: Keysym, time: Time)
    ensures Apply(s, entries, update, key, time).active == s.active
    ensures Apply(s, entries, update, key, time).in1 == s.in1
    decreases |entries|
  {
    if entries != [] {
      var n := |entries| - 1;
      ApplyKeepsList(ApplyOne(s, entries[n], update, key, time), entries[..n], update, key, time);
    }
  }

  /** A press at one position of the active list: the node's child is activated,
      and goes before it. */
  function PressAt(trie: Trie, s: State, i: nat, key: Keysym, time: Time): (s': State)
    requires i < |s.active|
    ensures s'.active == Insert(s.active, i, s.active[i] + [key])
  {
    var c := s.active[i] + [key];
    var s1 := s.(active := Insert(s.active, i, c));
    ApplyKeepsList(s1, LeafEntries(trie, c), 1, key, time);
    Apply(s1, LeafEntries(trie, c), 1, key, time)
  }

  /** A release at one position: the node is no longer active. */
  function ReleaseAt(trie: Trie, s: State, i: nat, key: Keysym, time: Time): (s': State)
    requires i < |s.active|
    ensures s'.active == Remove(s.active, i)
  {
    var s1 := s.(active := Remove(s.active, i));
    ApplyKeepsList(s1, LeafEntries(trie, s.active[i]), -1, key, time);
    Apply(s1, LeafEntries(trie, s.active[i]), -1, key, time)
  }

  /** A press, from position `i`: at each node with a branch for the keysym. */
  function PressFrom(trie: Trie, s: State, i: nat, key: Keysym, time: Time): State
    requires i <= |s.active|
    decreases |s.active| - i
  {
    if i == |s.active| then s
    else if HasBranch(trie, s.active[i], key) then PressFrom(trie, PressAt(trie, s, i, key, time), i + 2, key, time)
    else PressFrom(trie, s, i + 1, key, time)
  }

  /** A release, from position `i`: at each node with the keysym on its path. */
  function ReleaseFrom(trie: Trie, s: State, i: nat, key: Keysym, time: Time): State
    requires i <= |s.active|
    decreases |s.active| - i
  {
    if i == |s.active| then s
    else if key in s.active[i] then ReleaseFrom(trie, ReleaseAt(trie, s, i, key, time), i, key, time)
    else ReleaseFrom(trie, s, i + 1, key, time)
  }

  /** The keysym itself, last: told about if it has changed. */
  function Finish(s: State, pressedOld: bool, key: Keysym, time: Time): State {
    if s.Pressed(key) != pressedOld then s.Call(key, time) else s
  }

  function Stage(trie: Trie, s: State, e: KeyEvent): State {
    var s1 := s.(in1 := s.in1[e.key := e.press]);
    var pressedOld := s1.PressedIf(e.key, !e.press);
    var s2 := if e.press then PressFrom(trie, s1, 0, e.key, e.time) else ReleaseFrom(trie, s1, 0, e.key, e.time);
    Finish(s2, pressedOld, e.key, e.time)
  }

  function Run(trie: Trie, anyMacro: bool, events: seq<KeyEvent>): State {
    if events == [] then Initial(anyMacro)
    else Stage(trie, Run(trie, anyMacro, events[..|events| - 1]), events[|events| - 1])
  }

  // ---------------------------------------------------------------- the counters

  /** How often an entry occurs among those of a macro. */
  function Occurrences(entries: seq<Entry>, entry: Entry): nat {
    if entries == [] then 0
    else
      var n := |entries| - 1;
      Occurrences(entries[..n], entry) + if entries[n] == entry then 1 else 0
  }

  /** How often an entry occurs over the macros of the active leaves. */
  function ActiveOccurrences(trie: Trie, active: seq<Path>, entry: Entry): nat {
    if active == [] then 0
    else Occurrences(LeafEntries(trie, active[0]), entry) + ActiveOccurrences(trie, active[1..], entry)
  }

  lemma {:induction false} OccurrencesSplit(trie: Trie, a: seq<Path>, b: seq<Path>, entry: Entry)
    ensures ActiveOccurrences(trie, a + b, entry) == ActiveOccurrences(trie, a, entry) + ActiveOccurrences(trie, b, entry)
  {
    if a == [] {
      assert a + b == b;
    } else {
      assert (a + b)[1..] == a[1..] + b;
      OccurrencesSplit(trie, a[1..], b, entry);
    }
  }

  lemma OccurrencesInsert(trie: Trie, active: seq<Path>, i: nat, p: Path, entry: Entry)
    requires i <= |active|
    ensures ActiveOccurrences(trie, Insert(active, i, p), entry)
         == ActiveOccurrences(trie, active, entry) + Occurrences(LeafEntries(trie, p), entry)
  {
    assert active == active[..i] + active[i..];
    OccurrencesSplit(trie, active[..i], active[i..], entry);
    OccurrencesSplit(trie, active[..i] + [p], active[i..], entry);
    OccurrencesSplit(trie, active[..i], [p], entry);
    assert [p][1..] == [];
  }

  lemma OccurrencesRemove(trie: Trie, active: seq<Path>, i: nat, entry: Entry)
    requires i < |active|
    ensures ActiveOccurrences(trie, Remove(active, i), entry) + Occurrences(LeafEntries(trie, active[i]), entry)
         == ActiveOccurrences(trie, active, entry)
  {
    assert active == Insert(Remove(active, i), i, active[i]);
    OccurrencesInsert(trie, Remove(active, i), i, active[i], entry);
  }

  /** The counters of every keysym are exact: how many entries of the active
      leaves press it, and how many release it. */
  ghost predicate CountsExact(trie: Trie, s: State) {
    forall key ::
      && s.Presses(key) == ActiveOccurrences(trie, s.active, Entry(key, true))
      && s.Releases(key) == ActiveOccurrences(trie, s.active, Entry(key, false))
  }

  // ---------------------------------------------------------------- the next stage

  /** While an event is handled: the next stage has been told of every change but
      those of the event's own keysym, which it knows as it was. */
  ghost predicate CallsUpTo(s: State, key: Keysym, pressedOld: bool) {
    && Alternating(s.calls)
    && Timed(s.calls)
    && Down(s.calls, key) == pressedOld
    && forall k :: k != key ==> Down(s.calls, k) == s.Pressed(k)
  }

  ghost predicate CallsExact(s: State) {
    && Alternating(s.calls)
    && Timed(s.calls)
    && forall k :: Down(s.calls, k) == s.Pressed(k)
  }

  lemma CallAppends(s: State, key: Keysym, time: Time)
    requires Alternating(s.calls) && Timed(s.calls) && time != UNDEF
    requires s.Pressed(key) != Down(s.calls, key)
    ensures Alternating(s.Call(key, time).calls) && Timed(s.Call(key, time).calls)
    ensures forall k :: Down(s.Call(key, time).calls, k) == if k == key then s.Pressed(key) else Down(s.calls, k)
  {
    var e := KeyEvent(key, s.Pressed(key), time);
    AlternatingAppend(s.calls, e);
    forall k ensures Down(s.calls + [e], k) == if k == key then e.press else Down(s.calls, k) {
      DownAppend(s.calls, e, k);
    }
  }

  lemma CountAt(s: State, entry: Entry, update: int, k: Keysym)
    ensures var s' := Count(s, entry, update);
      && s'.Presses(k) == s.Presses(k) + (if entry == Entry(k, true) then update else 0)
      && s'.Releases(k) == s.Releases(k) + (if entry == Entry(k, false) then update else 0)
      && (k != entry.key ==> s'.Pressed(k) == s.Pressed(k))
  {
  }

  /** Counting leaves what the next stage knows, but for the entry's keysym. */
  lemma CountKeeps(s: State, entry: Entry, update: int, key: Keysym, time: Time, pressedOld: bool)
    requires CallsUpTo(s, key, pressedOld) && time != UNDEF
    ensures CallsUpTo(ApplyOne(s, entry, update, key, time), key, pressedOld)
  {
    hide Down, Alternating;
    var s1 := Count(s, entry, update);
    assert s1.calls == s.calls;
    forall k | k != entry.key ensures s1.Pressed(k) == s.Pressed(k) {
      CountAt(s, entry, update, k);
    }
    hide Count;
    if entry.key != key && s1.Pressed(entry.key) != s.Pressed(entry.key) {
      CallAppends(s1, entry.key, time);
      assert forall k :: s1.Call(entry.key, time).Pressed(k) == s1.Pressed(k);
    }
  }

  lemma ApplyOneKeeps(s: State, entry: Entry, update: int, key: Keysym, time: Time, pressedOld: bool)
    requires CallsUpTo(s, key, pressedOld) && time != UNDEF
    ensures var s' := ApplyOne(s, entry, update, key, time);
      && CallsUpTo(s', key, pressedOld)
      && forall k ::
        && s'.Presses(k) == s.Presses(k) + (if entry == Entry(k, true) then update else 0)
        && s'.Releases(k) == s.Releases(k) + (if entry == Entry(k, false) then update else 0)
  {
    CountKeeps(s, entry, update, key, time, pressedOld);
    hide CallsUpTo;
    var s' := ApplyOne(s, entry, update, key, time);
    forall k
      ensures s'.Presses(k) == s.Presses(k) + (if entry == Entry(k, true) then update else 0)
      ensures s'.Releases(k) == s.Releases(k) + (if entry == Entry(k, false) then update else 0)
    {
      CountAt(s, entry, update, k);
    }
  }

  function Signed(update: int, n: nat): int {
    if update == 1 then n else 0 - n
  }

  ghost predicate Counted(s: State, s': State, entries: seq<Entry>, update: int) {
    forall k ::
      && s'.Presses(k) == s.Presses(k) + Signed(update, Occurrences(entries, Entry(k, true)))
      && s'.Releases(k) == s.Releases(k) + Signed(update, Occurrences(entries, Entry(k, false)))
  }

  lemma CountedNone(s: State, update: int)
    ensures Counted(s, s, [], update)
  {
  }

  lemma CountedMore(s: State, s1: State, s': State, entries: seq<Entry>, update: int)
    requires entries != [] && Counted(s1, s', entries[..|entries| - 1], update) && (update == 1 || update == -1)
    requires forall k ::
      && s1.Presses(k) == s.Presses(k) + (if entries[|entries| - 1] == Entry(k, true) then update else 0)
      && s1.Releases(k) == s.Releases(k) + (if entries[|entries| - 1] == Entry(k, false) then update else 0)
    ensures Counted(s, s', entries, update)
  {
    hide State.Presses, State.Releases;
  }

  lemma {:induction false} ApplyKeeps(s: State, entries: seq<Entry>, update: int, key: Keysym, time: Time, pressedOld: bool)
    requires CallsUpTo(s, key, pressedOld) && time != UNDEF && (update == 1 || update == -1)
    ensures var s' := Apply(s, entries, update, key, time);
      && CallsUpTo(s', key, pressedOld)
      && s'.active == s.active && s'.in1 == s.in1
      && Counted(s, s', entries, update)
    decreases |entries|
  {
    hide CallsUpTo, ApplyOne, Counted;
    if entries != [] {
      var n := |entries| - 1;
      var s1 := ApplyOne(s, entries[n], update, key, time);
      ApplyOneKeeps(s, entries[n], update, key, time, pressedOld);
      ApplyKeeps(s1, entries[..n], update, key, time, pressedOld);
      ApplyKeepsList(s, entries, update, key, time);
      CountedMore(s, s1, Apply(s, entries, update, key, time), entries, update);
    } else {
      CountedNone(s, update);
    }
  }

  // ---------------------------------------------------------------- the walk over the active nodes

  /** The list after a press: every node with a branch for the keysym has its
      child before it. */
  function Advance(trie: Trie, active: seq<Path>, key: Keysym): seq<Path> {
    if active == [] then []
    else
      var p, rest := active[0], Advance(trie, active[1..], key);
      if HasBranch(trie, p, key) then [p + [key], p] + rest else [p] + rest
  }

  /** The list after a release: every node with the keysym on its path is gone. */
  function Retreat(active: seq<Path>, key: Keysym): seq<Path> {
    if active == [] then []
    else if key in active[0] then Retreat(active[1..], key)
    else [active[0]] + Retreat(active[1..], key)
  }

  ghost predicate Busy(trie: Trie, s: State, key: Keysym, pressedOld: bool) {
    CountsExact(trie, s) && CallsUpTo(s, key, pressedOld)
  }

  lemma PressAtKeeps(trie: Trie, s: State, i: nat, key: Keysym, time: Time, pressedOld: bool)
    requires Busy(trie, s, key, pressedOld) && time != UNDEF && i < |s.active|
    ensures var s' := PressAt(trie, s, i, key, time);
      && Busy(trie, s', key, pressedOld)
      && s'.active == Insert(s.active, i, s.active[i] + [key]) && s'.in1 == s.in1
  {
    hide Apply;
    var c := s.active[i] + [key];
    ApplyKeeps(s.(active := Insert(s.active, i, c)), LeafEntries(trie, c), 1, key, time, pressedOld);
    forall entry ensures ActiveOccurrences(trie, Insert(s.active, i, c), entry)
         == ActiveOccurrences(trie, s.active, entry) + Occurrences(LeafEntries(trie, c), entry)
    {
      OccurrencesInsert(trie, s.active, i, c, entry);
    }
  }

  lemma ReleaseAtKeeps(trie: Trie, s: State, i: nat, key: Keysym, time: Time, pressedOld: bool)
    requires Busy(trie, s, key, pressedOld) && time != UNDEF && i < |s.active|
    ensures var s' := ReleaseAt(trie, s, i, key, time);
      && Busy(trie, s', key, pressedOld)
      && s'.active == Remove(s.active, i) && s'.in1 == s.in1
  {
    hide Apply;
    ApplyKeeps(s.(active := Remove(s.active, i)), LeafEntries(trie, s.active[i]), -1, key, time, pressedOld);
    forall entry ensures ActiveOccurrences(trie, Remove(s.active, i), entry)
         == ActiveOccurrences(trie, s.active, entry) - Occurrences(LeafEntries(trie, s.active[i]), entry)
    {
      OccurrencesRemove(trie, s.active, i, entry);
    }
  }

  lemma InsertParts(list: seq<Path>, i: nat, p: Path)
    requires i < |list|
    ensures |Insert(list, i, p)| == |list| + 1
    ensures Insert(list, i, p)[..i + 2] == list[..i] + [p, list[i]]
    ensures Insert(list, i, p)[i + 2..] == list[i + 1..]
  {
  }

  lemma RemoveParts(list: seq<Path>, i: nat)
    requires i < |list|
    ensures |Remove(list, i)| == |list| - 1
    ensures Remove(list, i)[..i] == list[..i]
    ensures Remove(list, i)[i..] == list[i + 1..]
  {
  }

  /** A whole walk: what it keeps, and the list it leaves. */
  lemma {:induction false} PressFromKeeps(trie: Trie, s: State, i: nat, key: Keysym, time: Time, pressedOld: bool)
    requires Busy(trie, s, key, pressedOld) && time != UNDEF && i <= |s.active|
    ensures var s' := PressFrom(trie, s, i, key, time);
      && Busy(trie, s', key, pressedOld) && s'.in1 == s.in1
      && s'.active == s.active[..i] + Advance(trie, s.active[i..], key)
    decreases |s.active| - i
  {
    hide Busy, PressAt, HasBranch, Insert;
    if i < |s.active| {
      var p := s.active[i];
      assert s.active[i..][1..] == s.active[i + 1..];
      if HasBranch(trie, p, key) {
        var s1 := PressAt(trie, s, i, key, time);
        PressAtKeeps(trie, s, i, key, time, pressedOld);
        InsertParts(s.active, i, p + [key]);
        PressFromKeeps(trie, s1, i + 2, key, time, pressedOld);
      } else {
        PressFromKeeps(trie, s, i + 1, key, time, pressedOld);
        assert s.active[..i + 1] == s.active[..i] + [p];
      }
    }
  }

  lemma {:induction false} ReleaseFromKeeps(trie: Trie, s: State, i: nat, key: Keysym, time: Time, pressedOld: bool)
    requires Busy(trie, s, key, pressedOld) && time != UNDEF && i <= |s.active|
    ensures var s' := ReleaseFrom(trie, s, i, key, time);
      && Busy(trie, s', key, pressedOld) && s'.in1 == s.in1
      && s'.active == s.active[..i] + Retreat(s.active[i..], key)
    decreases |s.active| - i
  {
    hide Busy, ReleaseAt, Remove;
    if i < |s.active| {
      var p := s.active[i];
      assert s.active[i..][1..] == s.active[i + 1..];
      if key in p {
        var s1 := ReleaseAt(trie, s, i, key, time);
        ReleaseAtKeeps(trie, s, i, key, time, pressedOld);
        RemoveParts(s.active, i);
        ReleaseFromKeeps(trie, s1, i, key, time, pressedOld);
      } else {
        ReleaseFromKeeps(trie, s, i + 1, key, time, pressedOld);
        assert s.active[..i + 1] == s.active[..i] + [p];
      }
    }
  }

  // ---------------------------------------------------------------- which nodes are active

  predicate NoDuplicates(list: seq<Path>) {
    forall i, j :: 0 <= i < j < |list| ==> list[i] != list[j]
  }

  /** The child of an active node that a press activates. */
  predicate Activated(trie: Trie, active: seq<Path>, key: Keysym, p: Path) {
    p != ROOT && p[|p| - 1] == key && p[..|p| - 1] in active && HasBranch(trie, p[..|p| - 1], key)
  }

  lemma {:induction false} AdvanceMembers(trie: Trie, active: seq<Path>, key: Keysym, p: Path)
    ensures p in Advance(trie, active, key) <==> p in active || Activated(trie, active, key, p)
  {
    hide HasBranch;
    if active != [] {
      var q, rest := active[0], active[1..];
      AdvanceMembers(trie, rest, key, p);
      assert forall x :: x in active <==> x == q || x in rest;
      assert p == q + [key] <==> p != ROOT && p[|p| - 1] == key && p[..|p| - 1] == q;
      assert Activated(trie, active, key, p) <==>
        Activated(trie, rest, key, p) || (p == q + [key] && HasBranch(trie, q, key));
    }
  }

  lemma NoDuplicatesCons(p: Path, list: seq<Path>)
    ensures NoDuplicates([p] + list) <==> p !in list && NoDuplicates(list)
  {
    var whole := [p] + list;
    if NoDuplicates(whole) {
      forall i, j | 0 <= i < j < |list| ensures list[i] != list[j] {
        assert list[i] == whole[i + 1] && list[j] == whole[j + 1];
      }
      forall i | 0 <= i < |list| ensures list[i] != p {
        assert list[i] == whole[i + 1] && p == whole[0];
      }
    }
  }

  /** Neither a later node nor its child is among those the walk leaves before. */
  lemma AdvanceNew(trie: Trie, active: seq<Path>, key: Keysym, q: Path)
    requires key !in q && q !in active && forall p :: p in active ==> key !in p
    ensures q !in Advance(trie, active, key)
    ensures q + [key] !in Advance(trie, active, key)
  {
    hide HasBranch, Advance;
    var c := q + [key];
    AdvanceMembers(trie, active, key, q);
    AdvanceMembers(trie, active, key, c);
    assert c[..|q|] == q && c[|q|] in c;
    assert q != ROOT ==> q[|q| - 1] in q;
  }

  lemma {:induction false} AdvanceKeepsLast(trie: Trie, active: seq<Path>, key: Keysym)
    requires active != []
    ensures var next := Advance(trie, active, key); next != [] && next[|next| - 1] == active[|active| - 1]
  {
    hide HasBranch;
    if |active| > 1 { AdvanceKeepsLast(trie, active[1..], key); }
  }

  lemma {:induction false} AdvanceKeepsList(trie: Trie, active: seq<Path>, key: Keysym)
    requires NoDuplicates(active) && forall p :: p in active ==> key !in p
    ensures NoDuplicates(Advance(trie, active, key))
  {
    hide NoDuplicates, HasBranch;
    if active != [] {
      var q, rest := active[0], active[1..];
      var c := q + [key];
      assert active == [q] + rest;
      NoDuplicatesCons(q, rest);
      AdvanceKeepsList(trie, rest, key);
      var next := Advance(trie, rest, key);
      AdvanceNew(trie, rest, key, q);
      NoDuplicatesCons(q, next);
      NoDuplicatesCons(c, [q] + next);
      assert [c, q] + next == [c] + ([q] + next);
    }
  }

  lemma {:induction false} RetreatMembers(active: seq<Path>, key: Keysym, p: Path)
    ensures p in Retreat(active, key) <==> p in active && key !in p
  {
    if active != [] {
      RetreatMembers(active[1..], key, p);
      assert active == [active[0]] + active[1..];
    }
  }

  lemma {:induction false} RetreatKeepsList(active: seq<Path>, key: Keysym)
    requires NoDuplicates(active)
    ensures NoDuplicates(Retreat(active, key))
    ensures active != [] && key !in active[|active| - 1] ==>
      var next := Retreat(active, key); next != [] && next[|next| - 1] == active[|active| - 1]
  {
    hide NoDuplicates;
    if active != [] {
      var q, rest := active[0], active[1..];
      assert active == [q] + rest;
      NoDuplicatesCons(q, rest);
      RetreatKeepsList(rest, key);
      RetreatMembers(rest, key, q);
      NoDuplicatesCons(q, Retreat(rest, key));
    }
  }

  /** Where the last event of a key is, or -1. */
  function LastAt(events: seq<KeyEvent>, key: Keysym): int {
    if events == [] then -1
    else if events[|events| - 1].key == key then |events| - 1
    else LastAt(events[..|events| - 1], key)
  }

  /** The keysyms of a path are all pressed, and were pressed in that order. */
  ghost predicate InSequence(events: seq<KeyEvent>, p: Path) {
    && (forall i :: 0 <= i < |p| ==> Down(events, p[i]))
    && (forall i, j :: 0 <= i < j < |p| ==> LastAt(events, p[i]) < LastAt(events, p[j]))
  }

  lemma {:induction false} LastAtBelow(events: seq<KeyEvent>, key: Keysym)
    ensures LastAt(events, key) < |events|
  {
    if events != [] { LastAtBelow(events[..|events| - 1], key); }
  }

  lemma LastAppend(events: seq<KeyEvent>, e: KeyEvent, key: Keysym)
    ensures LastAt(events + [e], key) == if e.key == key then |events| else LastAt(events, key)
    ensures Down(events + [e], key) == if e.key == key then e.press else Down(events, key)
    ensures LastAt(events, key) < |events|
  {
    DownAppend(events, e, key);
    assert (events + [e])[..|events|] == events;
    LastAtBelow(events, key);
  }

  /** A release breaks the sequences its keysym is in, and no others. */
  lemma SequenceAfterRelease(events: seq<KeyEvent>, e: KeyEvent, p: Path)
    requires !e.press
    ensures InSequence(events + [e], p) <==> InSequence(events, p) && e.key !in p
  {
    forall key
      ensures Down(events + [e], key) == (e.key != key && Down(events, key))
      ensures e.key != key ==> LastAt(events + [e], key) == LastAt(events, key)
    {
      LastAppend(events, e, key);
    }
    if e.key in p {
      var i :| 0 <= i < |p| && p[i] == e.key;
      assert !Down(events + [e], p[i]);
    }
  }

  /** A press of a key that was up continues sequences it ends, and breaks none. */
  lemma SequenceAfterPress(events: seq<KeyEvent>, e: KeyEvent, p: Path)
    requires e.press && !Down(events, e.key)
    ensures InSequence(events, p) ==> e.key !in p
    ensures InSequence(events + [e], p) <==>
      InSequence(events, p) || (p != ROOT && p[|p| - 1] == e.key && InSequence(events, p[..|p| - 1]))
  {
    hide Down, LastAt;
    var next := events + [e];
    forall key
      ensures Down(next, key) == (e.key == key || Down(events, key))
      ensures LastAt(next, key) == if e.key == key then |events| else LastAt(events, key)
      ensures LastAt(events, key) < |events|
    {
      LastAppend(events, e, key);
    }
    if p != ROOT {
      var n := |p| - 1;
      if p[n] == e.key {
        assert forall i :: 0 <= i < n ==> p[..n][i] == p[i];
        if InSequence(next, p) {
          assert forall i :: 0 <= i < n ==> LastAt(next, p[i]) < LastAt(next, p[n]);
        }
      } else if InSequence(next, p) {
        assert forall i :: 0 <= i < n ==> LastAt(next, p[i]) < LastAt(next, p[n]);
      }
    }
  }

  /** The list of active nodes: no node twice, the root last, and exactly the
      nodes of the tree whose keysyms are held in sequence. */
  ghost predicate ActiveExact(trie: Trie, events: seq<KeyEvent>, active: seq<Path>) {
    && NoDuplicates(active)
    && (if active == [] then trie == EMPTY
        else
          && active[|active| - 1] == ROOT
          && forall p :: p in active <==> p in trie && InSequence(events, p))
  }

  /** What this stage needs of the tree. */
  ghost predicate Shaped(trie: Trie) {
    && ROOT in trie && LeafEntries(trie, ROOT) == []
    && (forall p, key :: HasBranch(trie, p, key) <==> p in trie && p + [key] in trie)
    && (forall p :: p in trie && p != ROOT ==> p[..|p| - 1] in trie)
  }

  lemma TreeIsShaped(trie: Trie, macros: Macros)
    requires Denotes(trie, macros) && PrefixFree(macros)
    ensures Shaped(trie)
  {
    hide Starts, Denotes;
    forall p, key ensures HasBranch(trie, p, key) <==> p in trie && p + [key] in trie {
      if p in trie {
        NodeAt(trie, macros, p, key);
        if p in macros && p + [key] in trie { LeafHasNoChild(trie, macros, p, key); }
      }
    }
    forall p | p in trie && p != ROOT ensures p[..|p| - 1] in trie {
      PrefixPresent(trie, macros, p, |p| - 1);
    }
    assert ROOT in trie && ROOT !in macros by { RootInner(trie, macros); }
    NodeAt(trie, macros, ROOT, 0);
  }

  lemma RootInner(trie: Trie, macros: Macros)
    requires Denotes(trie, macros)
    ensures ROOT in trie && ROOT !in macros
  {
  }

  lemma LeafHasNoChild(trie: Trie, macros: Macros, p: Path, key: Keysym)
    requires Denotes(trie, macros) && PrefixFree(macros) && p in macros
    ensures p + [key] !in trie
  {
    if p + [key] in trie {
      var lhs :| lhs in macros && p + [key] <= lhs;
      ShorterIsPrefix(p, key, lhs);
    }
  }

  lemma ShorterIsPrefix(p: Path, key: Keysym, q: Path)
    requires p + [key] <= q
    ensures p <= q && p != q
  {
  }

  lemma ShapedAt(trie: Trie, p: Path)
    requires Shaped(trie) && p != ROOT
    ensures HasBranch(trie, p[..|p| - 1], p[|p| - 1]) <==> p in trie
    ensures p in trie ==> p[..|p| - 1] in trie
  {
    var q, key := p[..|p| - 1], p[|p| - 1];
    assert p == q + [key];
    assert HasBranch(trie, q, key) <==> q in trie && q + [key] in trie;
  }

  /** One node after a press: active iff its keysyms are now held in sequence. */
  lemma AdvanceExact(trie: Trie, events: seq<KeyEvent>, e: KeyEvent, active: seq<Path>, p: Path)
    requires Shaped(trie) && ActiveExact(trie, events, active) && active != [] && e.press && !Down(events, e.key)
    ensures p in Advance(trie, active, e.key) <==> p in trie && InSequence(events + [e], p)
  {
    hide HasBranch, NoDuplicates, Advance, InSequence, Shaped, Down;
    AdvanceMembers(trie, active, e.key, p);
    SequenceAfterPress(events, e, p);
    if p != ROOT {
      ShapedAt(trie, p);
    }
  }

  lemma PressAdvances(trie: Trie, events: seq<KeyEvent>, e: KeyEvent, active: seq<Path>)
    requires Shaped(trie) && ActiveExact(trie, events, active) && e.press && !Down(events, e.key)
    ensures forall p :: p in active ==> e.key !in p
    ensures ActiveExact(trie, events + [e], Advance(trie, active, e.key))
  {
    hide HasBranch, NoDuplicates, Advance, InSequence, Shaped, Down;
    if active == [] {
      AdvanceNone(trie, e.key);
    } else {
      forall p | p in active ensures e.key !in p {
        SequenceAfterPress(events, e, p);
      }
      AdvanceKeepsList(trie, active, e.key);
      AdvanceKeepsLast(trie, active, e.key);
      forall p ensures p in Advance(trie, active, e.key) <==> p in trie && InSequence(events + [e], p) {
        AdvanceExact(trie, events, e, active, p);
      }
    }
  }

  lemma AdvanceNone(trie: Trie, key: Keysym)
    ensures Advance(trie, [], key) == []
  {
  }

  lemma ReleaseRetreats(trie: Trie, events: seq<KeyEvent>, e: KeyEvent, active: seq<Path>)
    requires ActiveExact(trie, events, active) && !e.press
    ensures ActiveExact(trie, events + [e], Retreat(active, e.key))
  {
    hide NoDuplicates;
    if active != [] {
      RetreatKeepsList(active, e.key);
      forall p ensures p in Retreat(active, e.key) <==> p in trie && InSequence(events + [e], p) {
        RetreatMembers(active, e.key, p);
        SequenceAfterRelease(events, e, p);
      }
    }
  }

  // ---------------------------------------------------------------- one event, and whole runs

  ghost predicate Inv(trie: Trie, events: seq<KeyEvent>, s: State) {
    && ActiveExact(trie, events, s.active)
    && CountsExact(trie, s)
    && CallsExact(s)
    && forall key :: s.In1(key) == Down(events, key)
  }

  predicate Next(events: seq<KeyEvent>, e: KeyEvent) {
    e.press != Down(events, e.key) && e.time != UNDEF
  }

  /** What holds when the walk over the active nodes begins. */
  lemma StageBegins(trie: Trie, events: seq<KeyEvent>, e: KeyEvent, s: State)
    requires Inv(trie, events, s) && Next(events, e)
    ensures var s1 := s.(in1 := s.in1[e.key := e.press]);
      && Busy(trie, s1, e.key, s1.PressedIf(e.key, !e.press))
      && forall key :: s1.In1(key) == Down(events + [e], key)
  {
    var s1 := s.(in1 := s.in1[e.key := e.press]);
    forall key ensures s1.In1(key) == Down(events + [e], key) {
      DownAppend(events, e, key);
    }
    assert s1.PressedIf(e.key, !e.press) == s.Pressed(e.key);
    forall key ensures s1.Presses(key) == s.Presses(key) && s1.Releases(key) == s.Releases(key) {
    }
    forall key | key != e.key ensures s1.Pressed(key) == s.Pressed(key) {
      assert s1.In1(key) == s.In1(key);
    }
  }

  lemma FinishKeeps(trie: Trie, s: State, pressedOld: bool, key: Keysym, time: Time)
    requires Busy(trie, s, key, pressedOld) && time != UNDEF
    ensures var s' := Finish(s, pressedOld, key, time);
      CountsExact(trie, s') && CallsExact(s') && s'.active == s.active && s'.in1 == s.in1
  {
    hide Down, Alternating;
    if s.Pressed(key) != pressedOld {
      CallAppends(s, key, time);
      var s' := s.Call(key, time);
      assert forall k :: s'.Pressed(k) == s.Pressed(k);
      assert forall k :: s'.Presses(k) == s.Presses(k) && s'.Releases(k) == s.Releases(k);
    }
  }

  lemma WalkKeeps(trie: Trie, events: seq<KeyEvent>, e: KeyEvent, s: State, pressedOld: bool)
    requires Shaped(trie) && ActiveExact(trie, events, s.active) && Next(events, e)
    requires Busy(trie, s, e.key, pressedOld)
    ensures var s' := if e.press then PressFrom(trie, s, 0, e.key, e.time) else ReleaseFrom(trie, s, 0, e.key, e.time);
      Busy(trie, s', e.key, pressedOld) && ActiveExact(trie, events + [e], s'.active) && s'.in1 == s.in1
  {
    hide Busy, ActiveExact, Shaped, Down, PressFrom, ReleaseFrom;
    if e.press {
      PressFromKeeps(trie, s, 0, e.key, e.time, pressedOld);
      PressAdvances(trie, events, e, s.active);
      assert s.active[..0] + Advance(trie, s.active, e.key) == Advance(trie, s.active, e.key);
    } else {
      ReleaseFromKeeps(trie, s, 0, e.key, e.time, pressedOld);
      ReleaseRetreats(trie, events, e, s.active);
      assert s.active[..0] + Retreat(s.active, e.key) == Retreat(s.active, e.key);
    }
  }

  /** One event keeps the active list, the counters and what the next stage knows. */
  lemma StageKeeps(trie: Trie, events: seq<KeyEvent>, e: KeyEvent, s: State)
    requires Shaped(trie) && Inv(trie, events, s) && Next(events, e)
    ensures Inv(trie, events + [e], Stage(trie, s, e))
  {
    hide Busy, CountsExact, CallsExact, ActiveExact, Shaped, Down, Finish, State.PressedIf, PressFrom, ReleaseFrom;
    var s1 := s.(in1 := s.in1[e.key := e.press]);
    var pressedOld := s1.PressedIf(e.key, !e.press);
    StageBegins(trie, events, e, s);
    WalkKeeps(trie, events, e, s1, pressedOld);
    var s2 := if e.press then PressFrom(trie, s1, 0, e.key, e.time) else ReleaseFrom(trie, s1, 0, e.key, e.time);
    FinishKeeps(trie, s2, pressedOld, e.key, e.time);
  }

  /** What has been called since is at one time, the event's. */
  ghost predicate CallsAt(s: State, s': State, time: Time) {
    s.calls <= s'.calls && forall i :: |s.calls| <= i < |s'.calls| ==> s'.calls[i].time == time
  }

  lemma {:induction false} ApplyCallsAt(s: State, entries: seq<Entry>, update: int, key: Keysym, time: Time)
    ensures CallsAt(s, Apply(s, entries, update, key, time), time)
    decreases |entries|
  {
    if entries != [] {
      var n := |entries| - 1;
      ApplyCallsAt(ApplyOne(s, entries[n], update, key, time), entries[..n], update, key, time);
    }
  }

  lemma {:induction false} WalkCallsAt(trie: Trie, s: State, i: nat, press: bool, key: Keysym, time: Time)
    requires i <= |s.active|
    ensures CallsAt(s, if press then PressFrom(trie, s, i, key, time) else ReleaseFrom(trie, s, i, key, time), time)
    decreases |s.active| - i
  {
    hide Apply, HasBranch, LeafEntries;
    if i < |s.active| {
      var p := s.active[i];
      if press && HasBranch(trie, p, key) {
        ApplyCallsAt(s.(active := Insert(s.active, i, p + [key])), LeafEntries(trie, p + [key]), 1, key, time);
        WalkCallsAt(trie, PressAt(trie, s, i, key, time), i + 2, press, key, time);
      } else if !press && key in p {
        ApplyCallsAt(s.(active := Remove(s.active, i)), LeafEntries(trie, p), -1, key, time);
        WalkCallsAt(trie, ReleaseAt(trie, s, i, key, time), i, press, key, time);
      } else {
        WalkCallsAt(trie, s, i + 1, press, key, time);
      }
    }
  }

  /** Every call an event makes has the event's time. */
  lemma StageCallsAt(trie: Trie, s: State, e: KeyEvent)
    ensures CallsAt(s, Stage(trie, s, e), e.time)
  {
    hide PressFrom, ReleaseFrom;
    WalkCallsAt(trie, s.(in1 := s.in1[e.key := e.press]), 0, e.press, e.key, e.time);
  }

  lemma InitialInv(trie: Trie, anyMacro: bool)
    requires Shaped(trie) && (!anyMacro ==> trie == EMPTY)
    ensures Inv(trie, [], Initial(anyMacro))
  {
    var s := Initial(anyMacro);
    forall p ensures p in [ROOT] <==> p in trie && InSequence([], p) {
      if p != ROOT { assert !Down([], p[0]); }
    }
    assert ActiveOccurrences(trie, [], Entry(0, true)) == 0;
    forall entry ensures ActiveOccurrences(trie, s.active, entry) == 0 {
      if anyMacro { assert [ROOT][1..] == []; }
    }
  }

  /** After every run of alternating presses and releases the active list, the
      counters and what the next stage has been told are exact. */
  lemma {:induction false} RunKeeps(trie: Trie, anyMacro: bool, events: seq<KeyEvent>)
    requires Shaped(trie) && (!anyMacro ==> trie == EMPTY)
    requires Alternating(events) && Timed(events)
    ensures Inv(trie, events, Run(trie, anyMacro, events))
  {
    hide Inv, Shaped, Stage;
    if events == [] {
      InitialInv(trie, anyMacro);
    } else {
      var front, last := events[..|events| - 1], events[|events| - 1];
      RunKeeps(trie, anyMacro, front);
      StageKeeps(trie, front, last, Run(trie, anyMacro, front));
      assert events == front + [last];
    }
  }

  // ---------------------------------------------------------------- in which order calls are made

  /** The keysyms of a macro, from the last to the first. */
  function Backwards(entries: seq<Entry>): seq<Keysym> {
    if entries == [] then [] else [entries[|entries| - 1].key] + Backwards(entries[..|entries| - 1])
  }

  lemma {:induction false} ApplyTouches(s: State, entries: seq<Entry>, update: int, key: Keysym, time: Time)
    ensures Touches(s.calls, Apply(s, entries, update, key, time).calls, Backwards(entries))
    decreases |entries|
  {
    hide Touches;
    if entries == [] {
      TouchesNone(s.calls, []);
    } else {
      var last := entries[|entries| - 1];
      var s1 := ApplyOne(s, last, update, key, time);
      if s1.calls == s.calls {
        TouchesNone(s.calls, [last.key]);
      } else {
        TouchesOne(s.calls, s1.calls[|s.calls|]);
      }
      ApplyTouches(s1, entries[..|entries| - 1], update, key, time);
      TouchesMore(s.calls, s1.calls, Apply(s, entries, update, key, time).calls, [last.key], Backwards(entries[..|entries| - 1]));
    }
  }

  /** The keysyms of the macros that an event does or undoes, as the walk comes to them. */
  function Walked(trie: Trie, active: seq<Path>, press: bool, key: Keysym): seq<Keysym> {
    if active == [] then []
    else
      var p := active[0];
      (if press then if HasBranch(trie, p, key) then Backwards(LeafEntries(trie, p + [key])) else []
       else if key in p then Backwards(LeafEntries(trie, p)) else [])
      + Walked(trie, active[1..], press, key)
  }

  lemma {:induction false} WalkTouches(trie: Trie, s: State, i: nat, press: bool, key: Keysym, time: Time)
    requires i <= |s.active|
    ensures var s' := if press then PressFrom(trie, s, i, key, time) else ReleaseFrom(trie, s, i, key, time);
      Touches(s.calls, s'.calls, Walked(trie, s.active[i..], press, key))
    decreases |s.active| - i
  {
    hide Touches, Apply, Insert, Remove, HasBranch, LeafEntries;
    if i == |s.active| {
      TouchesNone(s.calls, []);
    } else {
      var p := s.active[i];
      assert s.active[i..][1..] == s.active[i + 1..];
      var rest := Walked(trie, s.active[i + 1..], press, key);
      var s' := if press then PressFrom(trie, s, i, key, time) else ReleaseFrom(trie, s, i, key, time);
      if press && HasBranch(trie, p, key) {
        var s1 := PressAt(trie, s, i, key, time);
        InsertParts(s.active, i, p + [key]);
        ApplyTouches(s.(active := Insert(s.active, i, p + [key])), LeafEntries(trie, p + [key]), 1, key, time);
        WalkTouches(trie, s1, i + 2, press, key, time);
        TouchesMore(s.calls, s1.calls, s'.calls, Backwards(LeafEntries(trie, p + [key])), rest);
      } else if !press && key in p {
        var s1 := ReleaseAt(trie, s, i, key, time);
        RemoveParts(s.active, i);
        ApplyTouches(s.(active := Remove(s.active, i)), LeafEntries(trie, p), -1, key, time);
        WalkTouches(trie, s1, i, press, key, time);
        TouchesMore(s.calls, s1.calls, s'.calls, Backwards(LeafEntries(trie, p)), rest);
      } else {
        WalkTouches(trie, s, i + 1, press, key, time);
        assert [] + rest == rest;
      }
    }
  }

  /** One event: the next stage is told of the keysyms of the macros the walk comes to, each
      macro's from the last to the first, and of the event's own after all others. */
  lemma StageTouches(trie: Trie, s: State, e: KeyEvent)
    ensures Touches(s.calls, Stage(trie, s, e).calls, Walked(trie, s.active, e.press, e.key) + [e.key])
  {
    hide Touches, PressFrom, ReleaseFrom, Walked;
    var s1 := s.(in1 := s.in1[e.key := e.press]);
    var s2 := if e.press then PressFrom(trie, s1, 0, e.key, e.time) else ReleaseFrom(trie, s1, 0, e.key, e.time);
    WalkTouches(trie, s1, 0, e.press, e.key, e.time);
    assert s1.active[0..] == s.active;
    var s' := Stage(trie, s, e);
    if s'.calls == s2.calls {
      TouchesNone(s2.calls, [e.key]);
    } else {
      TouchesOne(s2.calls, s'.calls[|s2.calls|]);
    }
    TouchesMore(s.calls, s2.calls, s'.calls, Walked(trie, s.active, e.press, e.key), [e.key]);
  }

  /** Two paths part at a place, where the first of them has the keysym pressed earlier. */
  predicate Part(events: seq<KeyEvent>, p: Path, q: Path, d: nat) {
    d < |p| && d < |q| && p[..d] == q[..d] && LastAt(events, p[d]) < LastAt(events, q[d])
  }

  /** A path is walked to before another: the longer of two of which one begins the other,
      and of two that part the one that went on with the keysym pressed earlier. */
  ghost predicate Earlier(events: seq<KeyEvent>, p: Path, q: Path) {
    q < p || exists d: nat :: Part(events, p, q, d)
  }

  ghost predicate InOrder(events: seq<KeyEvent>, active: seq<Path>) {
    forall i, j :: 0 <= i < j < |active| ==> Earlier(events, active[i], active[j])
  }

  lemma InOrderCons(events: seq<KeyEvent>, p: Path, list: seq<Path>)
    ensures InOrder(events, [p] + list) <==> InOrder(events, list) && forall i :: 0 <= i < |list| ==> Earlier(events, p, list[i])
  {
    hide Earlier;
    var whole := [p] + list;
    assert forall i :: 0 <= i < |list| ==> whole[i + 1] == list[i];
    if InOrder(events, whole) {
      forall i | 0 <= i < |list| ensures Earlier(events, p, list[i]) {
        assert Earlier(events, whole[0], whole[i + 1]);
      }
      forall i, j | 0 <= i < j < |list| ensures Earlier(events, list[i], list[j]) {
        assert Earlier(events, whole[i + 1], whole[j + 1]);
      }
    }
  }

  /** An event keeps the order of paths without its keysym. */
  lemma EarlierSame(events: seq<KeyEvent>, e: KeyEvent, p: Path, q: Path)
    requires Earlier(events, p, q) && e.key !in p && e.key !in q
    ensures Earlier(events + [e], p, q)
  {
    if !(q < p) {
      var d: nat :| Part(events, p, q, d);
      LastAppend(events, e, p[d]);
      LastAppend(events, e, q[d]);
      assert Part(events + [e], p, q, d);
    }
  }

  /** And that of those that go on with it. */
  lemma EarlierGrown(events: seq<KeyEvent>, e: KeyEvent, p: Path, q: Path)
    requires Earlier(events, p, q) && e.key !in p && e.key !in q
    ensures Earlier(events + [e], p, q) && Earlier(events + [e], p + [e.key], q)
    ensures Earlier(events + [e], p, q + [e.key]) && Earlier(events + [e], p + [e.key], q + [e.key])
  {
    EarlierSame(events, e, p, q);
    var next, p', q' := events + [e], p + [e.key], q + [e.key];
    if q < p {
      var d := |q|;
      LastAppend(events, e, p[d]);
      LastAppend(events, e, e.key);
      assert Part(next, p, q', d) && Part(next, p', q', d);
      assert q < p';
    } else {
      var d: nat :| Part(events, p, q, d);
      LastAppend(events, e, p[d]);
      LastAppend(events, e, q[d]);
      assert Part(next, p', q, d) && Part(next, p, q', d) && Part(next, p', q', d);
    }
  }

  lemma {:induction false} AdvanceInOrder(trie: Trie, events: seq<KeyEvent>, e: KeyEvent, active: seq<Path>)
    requires InOrder(events, active) && forall i :: 0 <= i < |active| ==> e.key !in active[i]
    ensures InOrder(events + [e], Advance(trie, active, e.key))
  {
    hide HasBranch, Earlier, InOrder;
    if active == [] {
      InOrderNone(events + [e]);
    } else {
      var q, rest := active[0], active[1..];
      assert active == [q] + rest;
      InOrderCons(events, q, rest);
      AdvanceInOrder(trie, events, e, rest);
      var next := Advance(trie, rest, e.key);
      forall i | 0 <= i < |next| ensures Earlier(events + [e], q, next[i]) && Earlier(events + [e], q + [e.key], next[i]) {
        AdvanceMembers(trie, rest, e.key, next[i]);
        var r := if next[i] in rest then next[i] else next[i][..|next[i]| - 1];
        assert r in rest && (next[i] == r || next[i] == r + [e.key]);
        var j :| 0 <= j < |rest| && rest[j] == r;
        EarlierGrown(events, e, q, rest[j]);
      }
      InOrderCons(events + [e], q, next);
      ChildEarlier(events + [e], q, e.key);
      InOrderCons(events + [e], q + [e.key], [q] + next);
      assert [q + [e.key], q] + next == [q + [e.key]] + ([q] + next);
    }
  }

  lemma ChildEarlier(events: seq<KeyEvent>, p: Path, key: Keysym)
    ensures Earlier(events, p + [key], p)
  {
  }

  lemma InOrderNone(events: seq<KeyEvent>)
    ensures InOrder(events, [])
  {
  }

  lemma {:induction false} RetreatInOrder(events: seq<KeyEvent>, e: KeyEvent, active: seq<Path>)
    requires InOrder(events, active)
    ensures InOrder(events + [e], Retreat(active, e.key))
  {
    hide Earlier, InOrder;
    if active == [] {
      InOrderNone(events + [e]);
    } else {
      var q, rest := active[0], active[1..];
      assert active == [q] + rest;
      InOrderCons(events, q, rest);
      RetreatInOrder(events, e, rest);
      if e.key !in q {
        var next := Retreat(rest, e.key);
        forall i | 0 <= i < |next| ensures Earlier(events + [e], q, next[i]) {
          RetreatMembers(rest, e.key, next[i]);
          var j :| 0 <= j < |rest| && rest[j] == next[i];
          EarlierSame(events, e, q, rest[j]);
        }
        InOrderCons(events + [e], q, next);
      }
    }
  }

  /** One event keeps the order of the active list. */
  lemma StageInOrder(trie: Trie, events: seq<KeyEvent>, e: KeyEvent, s: State)
    requires Shaped(trie) && Inv(trie, events, s) && Next(events, e) && InOrder(events, s.active)
    ensures InOrder(events + [e], Stage(trie, s, e).active)
  {
    hide Busy, CountsExact, CallsExact, Shaped, Down, Finish, State.PressedIf, PressFrom, ReleaseFrom, InOrder, InSequence;
    var s1 := s.(in1 := s.in1[e.key := e.press]);
    var pressedOld := s1.PressedIf(e.key, !e.press);
    StageBegins(trie, events, e, s);
    FinishKeepsList(if e.press then PressFrom(trie, s1, 0, e.key, e.time) else ReleaseFrom(trie, s1, 0, e.key, e.time), pressedOld, e.key, e.time);
    if e.press {
      PressFromKeeps(trie, s1, 0, e.key, e.time, pressedOld);
      forall i | 0 <= i < |s.active| ensures e.key !in s.active[i] {
        SequenceAfterPress(events, e, s.active[i]);
      }
      AdvanceInOrder(trie, events, e, s.active);
      assert s.active[..0] + Advance(trie, s.active[0..], e.key) == Advance(trie, s.active, e.key);
    } else {
      ReleaseFromKeeps(trie, s1, 0, e.key, e.time, pressedOld);
      RetreatInOrder(events, e, s.active);
      assert s.active[..0] + Retreat(s.active[0..], e.key) == Retreat(s.active, e.key);
    }
  }

  lemma FinishKeepsList(s: State, pressedOld: bool, key: Keysym, time: Time)
    ensures Finish(s, pressedOld, key, time).active == s.active
  {
  }

  /** After every run the active nodes are walked in one order, told from the events alone:
      a node after those that go on from it, and of two that part, the one that went on with
      the keysym pressed earlier before the other. */
  lemma {:induction false} RunInOrder(trie: Trie, anyMacro: bool, events: seq<KeyEvent>)
    requires Shaped(trie) && (!anyMacro ==> trie == EMPTY)
    requires Alternating(events) && Timed(events)
    ensures InOrder(events, Run(trie, anyMacro, events).active)
  {
    hide Inv, Shaped, Stage, InOrder;
    if events == [] {
      InOrderAtFirst(anyMacro);
    } else {
      var front, last := events[..|events| - 1], events[|events| - 1];
      RunInOrder(trie, anyMacro, front);
      RunKeeps(trie, anyMacro, front);
      StageInOrder(trie, front, last, Run(trie, anyMacro, front));
      assert events == front + [last];
    }
  }

  lemma InOrderAtFirst(anyMacro: bool)
    ensures InOrder([], Initial(anyMacro).active)
  {
  }

  // ---------------------------------------------------------------- what the macros mean

  lemma {:induction false} OccursIff(entries: seq<Entry>, entry: Entry)
    ensures Occurrences(entries, entry) > 0 <==> entry in entries
  {
    if entries != [] {
      var n := |entries| - 1;
      OccursIff(entries[..n], entry);
      assert entries == entries[..n] + [entries[n]];
    }
  }

  lemma {:induction false} ActiveOccursIff(trie: Trie, active: seq<Path>, entry: Entry)
    ensures ActiveOccurrences(trie, active, entry) > 0 <==> exists p :: p in active && entry in LeafEntries(trie, p)
  {
    hide LeafEntries;
    if active != [] {
      OccursIff(LeafEntries(trie, active[0]), entry);
      ActiveOccursIff(trie, active[1..], entry);
      assert active == [active[0]] + active[1..];
    }
  }

  /** A macro whose left-hand side is held in sequence has this entry. */
  ghost predicate SomeMacro(macros: Macros, events: seq<KeyEvent>, entry: Entry) {
    exists lhs :: lhs in macros && InSequence(events, lhs) && entry in macros[lhs]
  }

  lemma LeafIff(trie: Trie, macros: Macros, p: Path, entry: Entry)
    requires Denotes(trie, macros)
    ensures entry in LeafEntries(trie, p) <==> p in macros && entry in macros[p]
    ensures p in macros ==> p in trie
  {
    if p in macros {
      assert Starts(macros, p);
    }
    if p in trie {
      assert NodeOk(trie, macros, p);
    }
  }

  lemma ActiveMeans(trie: Trie, macros: Macros, events: seq<KeyEvent>, active: seq<Path>, entry: Entry)
    requires Denotes(trie, macros) && ActiveExact(trie, events, active)
    ensures ActiveOccurrences(trie, active, entry) > 0 <==> SomeMacro(macros, events, entry)
  {
    hide Denotes, LeafEntries, ActiveOccurrences, InSequence;
    forall p ensures entry in LeafEntries(trie, p) <==> p in macros && entry in macros[p] {
      LeafIff(trie, macros, p, entry);
    }
    forall p | p in macros ensures p in trie {
      LeafIff(trie, macros, p, entry);
    }
    ActiveOccursIff(trie, active, entry);
    if active == [] {
      RootInner(trie, macros);
    }
  }

  /** The next stage has a keysym as pressed iff a macro that is held presses it, or none
      that is held releases it and it is pressed in the stages before. */
  lemma RunMeans(trie: Trie, macros: Macros, events: seq<KeyEvent>, key: Keysym)
    requires Denotes(trie, macros) && PrefixFree(macros)
    requires Alternating(events) && Timed(events)
    ensures Down(Run(trie, macros != map[], events).calls, key) <==>
      || SomeMacro(macros, events, Entry(key, true))
      || (!SomeMacro(macros, events, Entry(key, false)) && Down(events, key))
  {
    TreeIsShaped(trie, macros);
    if macros == map[] {
      EmptyDenotes();
      DenotesUnique(trie, EMPTY, macros);
    }
    hide Denotes, PrefixFree, ActiveExact, SomeMacro, Run;
    RunKeeps(trie, macros != map[], events);
    var s := Run(trie, macros != map[], events);
    ActiveMeans(trie, macros, events, s.active, Entry(key, true));
    ActiveMeans(trie, macros, events, s.active, Entry(key, false));
  }

  // ---------------------------------------------------------------- the stage as it runs

  class InputStage2 {
    const trie: Trie
    var in1: map<Keysym, bool>
    var active: seq<Path>
    var pressed: map<Keysym, int>
    var released: map<Keysym, int>
    var calls: seq<KeyEvent>
    ghost var events: seq<KeyEvent>

    ghost function View(): State
      reads this
    {
      State(in1, active, pressed, released, calls)
    }

    ghost predicate Valid()
      reads this
    {
      Shaped(trie) && Inv(trie, events, View())
    }

    /** The stage over a tree that will not change, before any event. */
    constructor (tree: MacroTree)
      requires tree.Valid()
      ensures Valid() && trie == tree.nodes && events == []
      ensures View() == Initial(tree.macros != map[])
    {
      trie, active := tree.nodes, tree.active;
      in1, pressed, released, calls, events := map[], map[], map[], [], [];
      new;
      TreeIsShaped(trie, tree.macros);
      if tree.macros == map[] {
        EmptyDenotes();
        DenotesUnique(trie, EMPTY, map[]);
      }
      InitialInv(trie, tree.macros != map[]);
    }

    method PressedIf(key: Keysym, prev: bool) returns (down: bool)
      ensures down == View().PressedIf(key, prev)
    {
      var presses := if key in pressed then pressed[key] else 0;
      var releases := if key in released then released[key] else 0;
      down := presses != 0 || (releases == 0 && prev);
    }

    /** One press or release of a macro, done or undone; the counter it changes
        does not underflow. */
    method ApplyEntry(entry: Entry, update: int, key: Keysym, time: Time)
      requires update == 1 || update == -1
      requires (if entry.press then View().Presses(entry.key) else View().Releases(entry.key)) + update >= 0
      modifies `pressed, `released, `calls
      ensures View() == ApplyOne(old(View()), entry, update, key, time)
    {
      var prev := entry.key in in1 && in1[entry.key];
      var before := PressedIf(entry.key, prev);
      if entry.press {
        var presses := if entry.key in pressed then pressed[entry.key] else 0;
        assert presses + update >= 0;
        pressed := pressed[entry.key := presses + update];
      } else {
        var releases := if entry.key in released then released[entry.key] else 0;
        assert releases + update >= 0;
        released := released[entry.key := releases + update];
      }
      var after := PressedIf(entry.key, prev);
      if entry.key != key && after != before {
        calls := calls + [KeyEvent(entry.key, after, time)];
      }
    }

    /** Does or undoes what a macro presses and releases. */
    method ApplyEntries(entries: seq<Entry>, update: int, key: Keysym, time: Time)
      requires (update == 1 && Covers(View(), [])) || (update == -1 && Covers(View(), entries))
      modifies `pressed, `released, `calls
      ensures View() == Apply(old(View()), entries, update, key, time)
    {
      hide Covers, ApplyOne;
      var i := |entries|;
      assert entries[..i] == entries;
      while i > 0
        invariant 0 <= i <= |entries|
        invariant Covers(View(), if update == 1 then [] else entries[..i])
        invariant Apply(View(), entries[..i], update, key, time) == Apply(old(View()), entries, update, key, time)
      {
        ghost var s := View();
        i := i - 1;
        assert entries[..i + 1][..i] == entries[..i];
        if update == 1 {
          CoversMore(View(), entries[i], key, time);
        } else {
          CoversStep(View(), entries[..i + 1], key, time);
        }
        ApplyEntry(entries[i], update, key, time);
      }
      assert entries[..i] == [];
    }

    /** Whether a keysym is on the path from the root to a node. */
    method OnPath(p: Path, key: Keysym) returns (found: bool)
      ensures found == (key in p)
    {
      var i := |p|;
      while i > 0
        invariant 0 <= i <= |p| && key !in p[i..]
      {
        i := i - 1;
        if p[i] == key {
          return true;
        }
      }
      found := false;
    }

    /** The walk of a press.  No child it activates is active already. */
    method WalkPress(key: Keysym, time: Time, ghost pressedOld: bool)
      requires Busy(trie, View(), key, pressedOld) && time != UNDEF
      requires NoDuplicates(active) && forall p :: p in active ==> key !in p
      modifies `active, `pressed, `released, `calls
      ensures View() == PressFrom(trie, old(View()), 0, key, time)
    {
      hide Busy, Advance, BranchKeys, NoDuplicates, Apply, LeafEntries, Covers;
      var i := 0;
      AdvanceKeepsList(trie, active, key);
      assert active[..0] + Advance(trie, active[0..], key) == Advance(trie, active, key) by { assert active[0..] == active; }
      while i < |active|
        invariant 0 <= i <= |active|
        invariant Busy(trie, View(), key, pressedOld)
        invariant NoDuplicates(active[..i] + Advance(trie, active[i..], key))
        invariant forall j :: i <= j < |active| ==> key !in active[j]
        invariant PressFrom(trie, View(), i, key, time) == PressFrom(trie, old(View()), 0, key, time)
        decreases |active| - i
      {
        var p := active[i];
        AdvanceStep(trie, active, i, key);
        if key !in BranchKeys(trie, p) {
          i := i + 1;
          continue;
        }
        var c := p + [key];
        assert c !in active;
        PressAtKeeps(trie, View(), i, key, time, pressedOld);
        ghost var s := View();
        active := Insert(active, i, c);
        BusyCovers(trie, s, key, pressedOld);
        SameCounters(s, View(), []);
        ApplyEntries(LeafEntries(trie, c), 1, key, time);
        assert View() == PressAt(trie, s, i, key, time);
        InsertParts(s.active, i, c);
        assert forall j :: i + 2 <= j < |active| ==> active[j] == active[i + 2..][j - i - 2] == s.active[i + 1..][j - i - 2];
        i := i + 2;
      }
    }

    /** The walk of a release. */
    method WalkRelease(key: Keysym, time: Time, ghost pressedOld: bool)
      requires Busy(trie, View(), key, pressedOld) && time != UNDEF
      modifies `active, `pressed, `released, `calls
      ensures View() == ReleaseFrom(trie, old(View()), 0, key, time)
    {
      hide Busy, Apply, LeafEntries, Covers;
      var i := 0;
      while i < |active|
        invariant 0 <= i <= |active|
        invariant Busy(trie, View(), key, pressedOld)
        invariant ReleaseFrom(trie, View(), i, key, time) == ReleaseFrom(trie, old(View()), 0, key, time)
        decreases |active| - i
      {
        var p := active[i];
        var onPath := OnPath(p, key);
        if !onPath {
          i := i + 1;
          continue;
        }
        ghost var s := View();
        ReleaseAtKeeps(trie, s, i, key, time, pressedOld);
        LeafCovered(trie, s, i, key, pressedOld);
        active := Remove(active, i);
        SameCounters(s, View(), LeafEntries(trie, p));
        ApplyEntries(LeafEntries(trie, p), -1, key, time);
        assert View() == ReleaseAt(trie, s, i, key, time);
      }
    }

    /** One event from the earlier stages, which have just set or cleared the
        keysym's pressed state. */
    method Event(e: KeyEvent)
      requires Valid() && Next(events, e)
      modifies this
      ensures Valid() && events == old(events) + [e]
      ensures View() == Stage(trie, old(View()), e)
    {
      StageKeeps(trie, events, e, View());
      StageBegins(trie, events, e, View());
      if e.press {
        PressAdvances(trie, events, e, active);
      }
      hide Busy, CountsExact, CallsExact, Shaped, Down, InSequence;
      in1 := in1[e.key := e.press];
      var pressedOld := PressedIf(e.key, !e.press);
      if e.press {
        WalkPress(e.key, e.time, pressedOld);
      } else {
        WalkRelease(e.key, e.time, pressedOld);
      }
      var now := PressedIf(e.key, e.key in in1 && in1[e.key]);
      if now != pressedOld {
        calls := calls + [KeyEvent(e.key, now, e.time)];
      }
      events := events + [e];
    }
  }

  /** The counters cover the entries of an active leaf. */
  lemma LeafCovered(trie: Trie, s: State, i: nat, key: Keysym, pressedOld: bool)
    requires Busy(trie, s, key, pressedOld) && i < |s.active|
    ensures Covers(s, LeafEntries(trie, s.active[i]))
  {
    forall entry ensures ActiveOccurrences(trie, s.active, entry) >= Occurrences(LeafEntries(trie, s.active[i]), entry) {
      OccurrencesRemove(trie, s.active, i, entry);
    }
  }

  lemma SameCounters(s: State, s': State, entries: seq<Entry>)
    requires Covers(s, entries) && s'.pressed == s.pressed && s'.released == s.released
    ensures Covers(s', entries)
  {
    assert forall k :: s'.Presses(k) == s.Presses(k) && s'.Releases(k) == s.Releases(k);
  }

  lemma BusyCovers(trie: Trie, s: State, key: Keysym, pressedOld: bool)
    requires Busy(trie, s, key, pressedOld)
    ensures Covers(s, [])
  {
  }

  /** The walk's list one position on; a child about to be activated is new to it. */
  lemma AdvanceStep(trie: Trie, active: seq<Path>, i: nat, key: Keysym)
    requires i < |active| && NoDuplicates(active[..i] + Advance(trie, active[i..], key))
    requires forall j :: i <= j < |active| ==> key !in active[j]
    ensures var c := active[i] + [key];
      if HasBranch(trie, active[i], key) then
        c !in active && NoDuplicates(active[..i] + [c, active[i]] + Advance(trie, active[i + 1..], key))
      else NoDuplicates(active[..i + 1] + Advance(trie, active[i + 1..], key))
  {
    hide HasBranch;
    var p, rest := active[i], active[i + 1..];
    var c := p + [key];
    assert active[i..][1..] == rest;
    var whole := active[..i] + Advance(trie, active[i..], key);
    if HasBranch(trie, p, key) {
      assert whole == active[..i] + [c, p] + Advance(trie, rest, key);
      assert whole[i] == c && key in c;
      forall j | 0 <= j < |active| ensures active[j] != c {
        if j < i { assert active[j] == whole[j]; }
      }
    } else {
      assert whole == active[..i + 1] + Advance(trie, rest, key);
    }
  }

  /** The counters hold at least what a macro's entries count for. */
  ghost predicate Covers(s: State, entries: seq<Entry>) {
    forall key ::
      && s.Presses(key) >= Occurrences(entries, Entry(key, true))
      && s.Releases(key) >= Occurrences(entries, Entry(key, false))
  }

  lemma CoversMore(s: State, entry: Entry, key: Keysym, time: Time)
    requires Covers(s, [])
    ensures s.Presses(entry.key) >= 0 && s.Releases(entry.key) >= 0
    ensures Covers(ApplyOne(s, entry, 1, key, time), [])
  {
    var s' := ApplyOne(s, entry, 1, key, time);
    forall k ensures s'.Presses(k) >= 0 && s'.Releases(k) >= 0 {
      CountAt(s, entry, 1, k);
      assert s.Presses(k) >= Occurrences([], Entry(k, true));
    }
  }

  lemma CoversStep(s: State, entries: seq<Entry>, key: Keysym, time: Time)
    requires Covers(s, entries) && entries != []
    ensures var last := entries[|entries| - 1];
      && (if last.press then s.Presses(last.key) > 0 else s.Releases(last.key) > 0)
      && Covers(ApplyOne(s, last, -1, key, time), entries[..|entries| - 1])
  {
    var last, front := entries[|entries| - 1], entries[..|entries| - 1];
    var s' := ApplyOne(s, last, -1, key, time);
    assert last == Entry(last.key, last.press);
    forall k
      ensures s'.Presses(k) >= Occurrences(front, Entry(k, true))
      ensures s'.Releases(k) >= Occurrences(front, Entry(k, false))
    {
      CountAt(s, last, -1, k);
    }
  }
}
