/** The mouse buffer: a ring of events in which a new event is merged into the last
    one waiting whenever that loses nothing.  Deltas are unbounded here. */
module MouseRing {
  import opened Bits
  import opened Words
  import opened RingSizes

  datatype Event = Event(dx: int, dy: int, buttons: nat, units: nat, time: nat)

  // ---------------------------------------------------------------- merging

  /** Whether both deltas are nonzero and have different signs, the way it is
      computed from their sign bits. */
  function DeltasOpposite(delta: int, last: int): (opposite: bool)
    ensures opposite <==> (delta > 0 && last < 0) || (delta < 0 && last > 0)
  {
    var signs := if (delta < 0) != (last < 0) then 1 else 0;
    signs - (if delta == 0 then 1 else 0) - (if last == 0 then 1 else 0) > 0
  }

  predicate Mergeable(last: Event, e: Event) {
    && !DeltasOpposite(e.dx, last.dx) && !DeltasOpposite(e.dy, last.dy)
    && e.buttons == last.buttons && e.units == last.units
  }

  function Merged(last: Event, e: Event): Event {
    Event(last.dx + e.dx, last.dy + e.dy, last.buttons, last.units, e.time)
  }

  // ---------------------------------------------------------------- the queue

  predicate Merges(queue: seq<Event>, e: Event) {
    queue != [] && Mergeable(queue[|queue| - 1], e)
  }

  /** Whether a new event is taken at all. */
  predicate Accepts(queue: seq<Event>, capacity: nat, e: Event) {
    Merges(queue, e) || |queue| < capacity
  }

  function Put(queue: seq<Event>, capacity: nat, e: Event): seq<Event> {
    if Merges(queue, e) then queue[|queue| - 1 := Merged(queue[|queue| - 1], e)]
    else if |queue| < capacity then queue + [e]
    else queue
  }

  // ---------------------------------------------------------------- runs

  datatype Operation = In(e: Event) | Out(count: nat)

  datatype History = History(queue: seq<Event>, accepted: seq<Event>, delivered: seq<Event>)

  function Operate(h: History, capacity: nat, op: Operation): History {
    match op
    case In(e) =>
      if Accepts(h.queue, capacity, e) then History(Put(h.queue, capacity, e), h.accepted + [e], h.delivered) else h
    case Out(count) =>
      var n := Min(count, |h.queue|);
      History(h.queue[n..], h.accepted, h.delivered + h.queue[..n])
  }

  function Run(capacity: nat, ops: seq<Operation>): History {
    if ops == [] then History([], [], []) else Operate(Run(capacity, ops[..|ops| - 1]), capacity, ops[|ops| - 1])
  }

  // ---------------------------------------------------------------- events in groups

  /** Nothing in the group moves against anything else in it, and all of it was done
      with the same buttons down and in the same units. */
  predicate Alike(group: seq<Event>) {
    && (forall i, j :: 0 <= i < |group| && 0 <= j < |group| ==>
          group[i].buttons == group[j].buttons && group[i].units == group[j].units)
    && ((forall i :: 0 <= i < |group| ==> group[i].dx >= 0) || (forall i :: 0 <= i < |group| ==> group[i].dx <= 0))
    && ((forall i :: 0 <= i < |group| ==> group[i].dy >= 0) || (forall i :: 0 <= i < |group| ==> group[i].dy <= 0))
  }

  function Abs(x: int): int { if x < 0 then -x else x }

  function SumX(events: seq<Event>): int {
    if events == [] then 0 else SumX(events[..|events| - 1]) + events[|events| - 1].dx
  }

  function SumY(events: seq<Event>): int {
    if events == [] then 0 else SumY(events[..|events| - 1]) + events[|events| - 1].dy
  }

  function PathX(events: seq<Event>): int {
    if events == [] then 0 else PathX(events[..|events| - 1]) + Abs(events[|events| - 1].dx)
  }

  function PathY(events: seq<Event>): int {
    if events == [] then 0 else PathY(events[..|events| - 1]) + Abs(events[|events| - 1].dy)
  }

  /** The event is what the group comes to: its deltas the sums, its time the last. */
  predicate SumsUp(e: Event, group: seq<Event>) {
    && group != [] && Alike(group)
    && e.dx == SumX(group) && e.dy == SumY(group)
    && e.buttons == group[0].buttons && e.units == group[0].units
    && e.time == group[|group| - 1].time
  }

  function Flatten(groups: seq<seq<Event>>): seq<Event> {
    if groups == [] then [] else Flatten(groups[..|groups| - 1]) + groups[|groups| - 1]
  }

  /** The events are those of `all`, in order, taken in groups of one or more. */
  predicate Grouped(groups: seq<seq<Event>>, events: seq<Event>, all: seq<Event>) {
    && |groups| == |events|
    && (forall i :: 0 <= i < |groups| ==> SumsUp(events[i], groups[i]))
    && Flatten(groups) == all
  }

  lemma SumAppend(events: seq<Event>, e: Event)
    ensures SumX(events + [e]) == SumX(events) + e.dx && SumY(events + [e]) == SumY(events) + e.dy
    ensures PathX(events + [e]) == PathX(events) + Abs(e.dx) && PathY(events + [e]) == PathY(events) + Abs(e.dy)
  {
    assert (events + [e])[..|events|] == events;
  }

  /** The sum of deltas that agree in sign has their sign, and is zero only if they are. */
  lemma {:induction false} SumSign(events: seq<Event>)
    ensures (forall i :: 0 <= i < |events| ==> events[i].dx >= 0) ==>
      SumX(events) >= 0 && PathX(events) == SumX(events) && (SumX(events) == 0 ==> forall i :: 0 <= i < |events| ==> events[i].dx == 0)
    ensures (forall i :: 0 <= i < |events| ==> events[i].dx <= 0) ==>
      SumX(events) <= 0 && PathX(events) == -SumX(events) && (SumX(events) == 0 ==> forall i :: 0 <= i < |events| ==> events[i].dx == 0)
    ensures (forall i :: 0 <= i < |events| ==> events[i].dy >= 0) ==>
      SumY(events) >= 0 && PathY(events) == SumY(events) && (SumY(events) == 0 ==> forall i :: 0 <= i < |events| ==> events[i].dy == 0)
    ensures (forall i :: 0 <= i < |events| ==> events[i].dy <= 0) ==>
      SumY(events) <= 0 && PathY(events) == -SumY(events) && (SumY(events) == 0 ==> forall i :: 0 <= i < |events| ==> events[i].dy == 0)
  {
    if events != [] { SumSign(events[..|events| - 1]); }
  }

  /** An event that merges makes its group one longer. */
  lemma MergeGrows(last: Event, group: seq<Event>, e: Event)
    requires SumsUp(last, group) && Mergeable(last, e)
    ensures SumsUp(Merged(last, e), group + [e])
  {
    SumAppend(group, e);
    SumSign(group);
  }

  lemma FlattenAppend(groups: seq<seq<Event>>, group: seq<Event>)
    ensures Flatten(groups + [group]) == Flatten(groups) + group
  {
    assert (groups + [group])[..|groups|] == groups;
  }

  lemma AloneSumsUp(e: Event)
    ensures SumsUp(e, [e])
  {
    SumAppend([], e);
    assert [] + [e] == [e];
  }

  lemma PutGroups(groups: seq<seq<Event>>, delivered: seq<Event>, queue: seq<Event>, capacity: nat, all: seq<Event>, e: Event)
    returns (groups': seq<seq<Event>>)
    requires Grouped(groups, delivered + queue, all) && Accepts(queue, capacity, e)
    ensures Grouped(groups', delivered + Put(queue, capacity, e), all + [e])
  {
    hide SumsUp, Flatten, Mergeable, Merged;
    var events := delivered + queue;
    if Merges(queue, e) {
      var n := |groups| - 1;
      var front := groups[..n];
      groups' := front + [groups[n] + [e]];
      MergeGrows(events[n], groups[n], e);
      FlattenAppend(front, groups[n] + [e]);
      assert groups == front + [groups[n]];
      FlattenAppend(front, groups[n]);
      assert Flatten(groups') == all + [e];
      assert delivered + Put(queue, capacity, e) == events[n := Merged(events[n], e)];
    } else {
      groups' := groups + [[e]];
      FlattenAppend(groups, [e]);
      AloneSumsUp(e);
      assert delivered + Put(queue, capacity, e) == events + [e];
    }
  }

  /** After any run, the events delivered and those waiting are the accepted ones,
      in order, taken in groups. */
  lemma {:induction false} RunGroups(capacity: nat, ops: seq<Operation>) returns (groups: seq<seq<Event>>)
    ensures var h := Run(capacity, ops); Grouped(groups, h.delivered + h.queue, h.accepted)
  {
    if ops == [] {
      groups := [];
    } else {
      var front, op := ops[..|ops| - 1], ops[|ops| - 1];
      groups := RunGroups(capacity, front);
      var h := Run(capacity, front);
      match op {
        case In(e) =>
          if Accepts(h.queue, capacity, e) {
            groups := PutGroups(groups, h.delivered, h.queue, capacity, h.accepted, e);
          }
        case Out(count) =>
          var n := Min(count, |h.queue|);
          assert (h.delivered + h.queue[..n]) + h.queue[n..] == h.delivered + h.queue;
      }
    }
  }

  // ---------------------------------------------------------------- what groups conserve

  lemma GroupedFront(groups: seq<seq<Event>>, events: seq<Event>, all: seq<Event>)
    requires Grouped(groups, events, all) && groups != []
    ensures var n := |groups| - 1;
      && Grouped(groups[..n], events[..n], Flatten(groups[..n]))
      && all == Flatten(groups[..n]) + groups[n]
      && SumsUp(events[n], groups[n]) && events == events[..n] + [events[n]]
  {
    hide SumsUp;
  }

  lemma {:induction false} SumSplit(a: seq<Event>, b: seq<Event>)
    ensures SumX(a + b) == SumX(a) + SumX(b) && SumY(a + b) == SumY(a) + SumY(b)
    ensures PathX(a + b) == PathX(a) + PathX(b) && PathY(a + b) == PathY(a) + PathY(b)
  {
    if b == [] {
      assert a + b == a;
    } else {
      SumSplit(a, b[..|b| - 1]);
      assert (a + b)[..|a + b| - 1] == a + b[..|b| - 1];
    }
  }

  lemma {:induction false} GroupedSums(groups: seq<seq<Event>>, events: seq<Event>, all: seq<Event>)
    requires Grouped(groups, events, all)
    ensures SumX(events) == SumX(all) && SumY(events) == SumY(all)
    ensures PathX(events) == PathX(all) && PathY(events) == PathY(all)
  {
    if groups != [] {
      var n := |groups| - 1;
      hide Flatten, Grouped;
      GroupedFront(groups, events, all);
      GroupedSums(groups[..n], events[..n], Flatten(groups[..n]));
      SumAppend(events[..n], events[n]);
      SumSplit(Flatten(groups[..n]), groups[n]);
      SumSign(groups[n]);
    }
  }

  /** The buttons and units of events, without repetition. */
  function Phases(events: seq<Event>): seq<(nat, nat)> {
    if events == [] then []
    else
      var front, e := events[..|events| - 1], events[|events| - 1];
      if front != [] && front[|front| - 1].buttons == e.buttons && front[|front| - 1].units == e.units then Phases(front)
      else Phases(front) + [(e.buttons, e.units)]
  }

  /** An event like the one before it adds no phase. */
  lemma SamePhase(events: seq<Event>, last: Event, e: Event)
    requires last.buttons == e.buttons && last.units == e.units
    ensures Phases(events + [last] + [e]) == Phases(events + [last])
  {
    var front := events + [last];
    assert (front + [e])[..|front|] == front;
  }

  /** A group adds the phase of its first event, and no other. */
  lemma {:induction false} GroupPhase(all: seq<Event>, group: seq<Event>)
    requires group != [] && Alike(group)
    ensures Phases(all + group) == Phases(all + [group[0]])
  {
    hide Phases;
    if |group| > 1 {
      var n := |group| - 1;
      var front := group[..n];
      GroupPhase(all, front);
      SamePhase(all + group[..n - 1], group[n - 1], group[n]);
      assert all + front == all + group[..n - 1] + [group[n - 1]];
      assert all + group == all + group[..n - 1] + [group[n - 1]] + [group[n]];
    } else {
      assert group == [group[0]];
    }
  }

  lemma LastPhase(a: seq<Event>, b: seq<Event>, e: Event, f: Event)
    requires Phases(a) == Phases(b) && (a == [] <==> b == []) && e.buttons == f.buttons && e.units == f.units
    requires a != [] ==> a[|a| - 1].buttons == b[|b| - 1].buttons && a[|a| - 1].units == b[|b| - 1].units
    ensures Phases(a + [e]) == Phases(b + [f])
  {
    assert (a + [e])[..|a|] == a && (b + [f])[..|b|] == b;
  }

  lemma {:induction false} GroupedPhases(groups: seq<seq<Event>>, events: seq<Event>, all: seq<Event>)
    requires Grouped(groups, events, all)
    ensures Phases(events) == Phases(all)
    ensures events == [] <==> all == []
    ensures events != [] ==>
      events[|events| - 1].buttons == all[|all| - 1].buttons && events[|events| - 1].units == all[|all| - 1].units
  {
    if groups == [] {
      assert events == [] && all == [];
    } else {
      var n := |groups| - 1;
      hide Flatten, Grouped, Phases;
      var before := Flatten(groups[..n]);
      GroupedFront(groups, events, all);
      GroupedPhases(groups[..n], events[..n], before);
      GroupPhase(before, groups[n]);
      LastPhase(events[..n], before, events[n], groups[n][0]);
      assert all[|all| - 1] == groups[n][|groups[n]| - 1];
    }
  }

  /** Over any run, delivered and waiting events together move as far, both ways, as
      the accepted ones, and go through the same buttons and units in the same order. */
  lemma RunConserves(capacity: nat, ops: seq<Operation>)
    ensures var h := Run(capacity, ops);
      var events := h.delivered + h.queue;
      && SumX(events) == SumX(h.accepted) && SumY(events) == SumY(h.accepted)
      && PathX(events) == PathX(h.accepted) && PathY(events) == PathY(h.accepted)
      && Phases(events) == Phases(h.accepted)
  {
    var h := Run(capacity, ops);
    var groups := RunGroups(capacity, ops);
    GroupedSums(groups, h.delivered + h.queue, h.accepted);
    GroupedPhases(groups, h.delivered + h.queue, h.accepted);
  }

  // ---------------------------------------------------------------- what is merged, and what is refused

  /** Two events can be taken for one: nothing of their movement is lost in the sum, and
      they have the same buttons and units. */
  predicate LoseNothing(last: Event, e: Event) {
    && Abs(last.dx + e.dx) == Abs(last.dx) + Abs(e.dx) && Abs(last.dy + e.dy) == Abs(last.dy) + Abs(e.dy)
    && last.buttons == e.buttons && last.units == e.units
  }

  /** A new event goes into the last one waiting iff nothing is lost by that; else it waits
      itself, if there is room, and is refused if there is none. */
  lemma RunMerges(capacity: nat, ops: seq<Operation>, e: Event)
    ensures var h, h' := Run(capacity, ops), Run(capacity, ops + [In(e)]);
      && |h.queue| <= capacity
      && h'.delivered == h.delivered
      && if h.queue != [] && LoseNothing(h.queue[|h.queue| - 1], e) then
           && |h'.queue| == |h.queue| && h'.accepted == h.accepted + [e]
           && h'.queue[..|h.queue| - 1] == h.queue[..|h.queue| - 1]
         else if |h.queue| < capacity then h'.queue == h.queue + [e] && h'.accepted == h.accepted + [e]
         else h' == h
  {
    assert (ops + [In(e)])[..|ops|] == ops;
    RunFits(capacity, ops);
  }

  lemma {:induction false} RunFits(capacity: nat, ops: seq<Operation>)
    ensures |Run(capacity, ops).queue| <= capacity
  {
    if ops != [] {
      RunFits(capacity, ops[..|ops| - 1]);
    }
  }

  // ---------------------------------------------------------------- the ring

  /** What a ring holds: `busy` events from the tail on. */
  function Held(slots: seq<Event>, tail: nat, busy: nat): (queue: seq<Event>)
    requires tail < |slots| && busy <= |slots|
    ensures |queue| == busy
  {
    seq(busy, i requires 0 <= i < busy => slots[Wrap(tail + i, |slots|)])
  }

  lemma HeldPut(slots: seq<Event>, tail: nat, busy: nat, e: Event)
    requires tail < |slots| && busy < |slots|
    ensures var size := |slots|;
      var head := Wrap(tail + busy, size);
      && 0 <= head < size && Held(slots[head := e], tail, busy + 1) == Held(slots, tail, busy) + [e]
  {
    var head := Wrap(tail + busy, |slots|);
    forall i | 0 <= i < busy + 1
      ensures Held(slots[head := e], tail, busy + 1)[i] == (Held(slots, tail, busy) + [e])[i]
    {
      if i < busy { assert Wrap(tail + i, |slots|) != head; }
    }
  }

  /** The last event is in the slot before the head. */
  lemma HeldLast(slots: seq<Event>, tail: nat, busy: nat, e: Event)
    requires tail < |slots| && 0 < busy < |slots|
    ensures var size := |slots|;
      var last := Wrap(Wrap(tail + busy, size) + (size - 1), size);
      && 0 <= last < size && Held(slots, tail, busy)[busy - 1] == slots[last]
      && Held(slots[last := e], tail, busy) == Held(slots, tail, busy)[busy - 1 := e]
  {
    var size := |slots|;
    var last := Wrap(Wrap(tail + busy, size) + (size - 1), size);
    assert last == Wrap(tail + (busy - 1), size);
    var held := Held(slots[last := e], tail, busy);
    forall i | 0 <= i < busy ensures held[i] == Held(slots, tail, busy)[busy - 1 := e][i] {
      if i < busy - 1 { assert Wrap(tail + i, size) != last; }
    }
  }

  lemma HeldAfter(slots: seq<Event>, tail: nat, busy: nat, n: nat)
    requires tail < |slots| && busy < |slots| && n <= busy
    ensures 0 <= Wrap(tail + n, |slots|) < |slots|
    ensures Held(slots, Wrap(tail + n, |slots|), busy - n) == Held(slots, tail, busy)[n..]
  {
    var after := Held(slots, Wrap(tail + n, |slots|), busy - n);
    forall i | 0 <= i < busy - n ensures after[i] == Held(slots, tail, busy)[n..][i] {
      assert Wrap(Wrap(tail + n, |slots|) + i, |slots|) == Wrap(tail + (n + i), |slots|);
    }
  }

  lemma HeldStretch(slots: seq<Event>, tail: nat, busy: nat, k: nat, n: nat)
    requires tail < |slots| && busy < |slots| && k + n <= busy
    requires 0 <= Wrap(tail + k, |slots|) && Wrap(tail + k, |slots|) + n <= |slots|
    requires IsPow2(|slots|)
    ensures var at := Wrap(tail + k, |slots|);
      && slots[at..at + n] == Held(slots, tail, busy)[k..k + n]
      && And(at + n, |slots| - 1) == Wrap(tail + (k + n), |slots|)
  {
    hide And, IsPow2;
    MaskWraps(Wrap(tail + k, |slots|) + n, |slots|);
    WrapOn(tail, k, n, |slots|);
    var at := Wrap(tail + k, |slots|);
    var stretch := slots[at..at + n];
    forall i | 0 <= i < n ensures stretch[i] == Held(slots, tail, busy)[k..k + n][i] {
      assert Wrap(tail + (k + i), |slots|) == at + i;
    }
  }

  class MouseBuffer {
    var size: nat
    var head: nat
    var tail: nat
    var events: array<Event>

    ghost predicate Valid()
      reads this, events
    {
      events.Length == size && IsPow2(size) && head < size && tail < size
    }

    ghost function Queue(): (queue: seq<Event>)
      reads this, events
      requires Valid()
      ensures |queue| == Busy(head, tail, size)
    {
      Held(events[..], tail, Busy(head, tail, size))
    }

    constructor (request: nat)
      requires request > 0
      ensures Valid() && LeastPow2(size, request) && Queue() == [] && fresh(events)
    {
      var rounded := RoundUp(request);
      size, head, tail := rounded, 0, 0;
      events := new Event[rounded](_ => Event(0, 0, 0, 0, 0));
    }

    /** The slot before the head, which holds the last event waiting. */
    method LastSlot(ghost e: Event) returns (at: nat)
      requires Valid() && head != tail
      ensures at < size && events[..][at] == Queue()[|Queue()| - 1]
      ensures var merged := Merged(events[..][at], e);
        Held(events[..][at := merged], tail, Busy(head, tail, size)) == Queue()[|Queue()| - 1 := merged]
    {
      hide IsPow2, Held, Merged;
      HeldLast(events[..], tail, Busy(head, tail, size), e);
      MaskWraps(head + (size - 1), size);
      at := And(head + (size - 1), size - 1);
      HeldLast(events[..], tail, Busy(head, tail, size), Merged(events[..][at], e));
    }

    /** Puts an event in the slot at the head. */
    method PutLast(e: Event)
      requires Valid() && Busy(head, tail, size) < size - 1
      modifies this`head, events
      ensures Valid() && Queue() == old(Queue()) + [e]
    {
      hide IsPow2, Held;
      HeldPut(events[..], tail, Busy(head, tail, size), e);
      ghost var slots := events[..];
      events[head] := e;
      assert events[..] == slots[head := e];
      MaskWraps(head + 1, size);
      head := And(head + 1, size - 1);
    }

    method IsFull() returns (full: bool)
      requires Valid()
      ensures full == (|Queue()| == size - 1)
    {
      hide IsPow2;
      MaskWraps(head + 1, size);
      full := And(head + 1, size - 1) == tail;
    }

    /** Takes an event, unless it can neither be merged nor waits in a free slot. */
    method CopyIn(e: Event) returns (ok: bool)
      requires Valid()
      modifies this`head, events
      ensures Valid()
      ensures ok == Accepts(old(Queue()), size - 1, e)
      ensures Queue() == if ok then Put(old(Queue()), size - 1, e) else old(Queue())
    {
      hide IsPow2, Mergeable, Merged, Held;
      if head != tail {
        var at := LastSlot(e);
        var last := events[at];
        if Mergeable(last, e) {
          ghost var slots := events[..];
          events[at] := Merged(last, e);
          assert events[..] == slots[at := Merged(last, e)];
          return true;
        }
      }
      var full := IsFull();
      if full {
        return false;
      }
      PutLast(e);
      ok := true;
    }

    /** Reads a stretch of at most `limit` events, from event `k` on. */
    method ReadStretch(at: nat, ghost k: nat, limit: nat) returns (piece: seq<Event>, at': nat)
      requires Valid() && k <= |Queue()| && at == Wrap(tail + k, size) && limit > 0
      ensures var n := |piece|;
        && n <= limit && k + n <= |Queue()| && at' == Wrap(tail + (k + n), size)
        && piece == Queue()[k..k + n] && (n == 0 <==> k == |Queue()|)
    {
      hide IsPow2, Held, Wrap, Busy, And;
      WhatFollows(tail, head, size, k);
      if at == head {
        return [], at;
      }
      var n: nat := Min(if at > head then size - 1 - at + 1 else head - at, limit);
      assert n > 0;
      HeldStretch(events[..], tail, Busy(head, tail, size), k, n);
      piece := events[..][at..at + n];
      at' := And(at + n, size - 1);
    }

    /** Gives the oldest events, as many as there are up to a count. */
    method CopyOut(count: nat) returns (out: seq<Event>)
      requires Valid()
      modifies this`tail
      ensures Valid()
      ensures var n := Min(count, |old(Queue())|);
        out == old(Queue())[..n] && Queue() == old(Queue())[n..]
    {
      hide IsPow2, Held, Wrap, Busy;
      ghost var queue := Queue();
      var at := tail;
      out := [];
      WrapNone(tail, size);
      while |out| < count
        invariant tail == old(tail) && |out| <= count && |out| <= |queue| && at == Wrap(tail + |out|, size)
        invariant out == queue[..|out|]
      {
        var piece;
        piece, at := ReadStretch(at, |out|, count - |out|);
        if piece == [] {
          break;
        }
        out := out + piece;
      }
      HeldAfter(events[..], tail, Busy(head, tail, size), |out|);
      BusyAfter(tail, head, size, |out|);
      tail := at;
    }
  }
}
