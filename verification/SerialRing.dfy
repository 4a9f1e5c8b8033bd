/** The serial buffer: a ring of bytes, each with flags, of which one slot is always
    empty.  It is a queue of bounded capacity, read in runs of equal flags. */
module SerialRing {
  import opened Bits
  import opened Words
  import opened RingSizes

  const COPY_FULL_IS_OVERRUN: bv8 := 1
  const COPY_PEEK: bv8 := 2
  const DATA_OVERRUN: bv8 := 4

  /** A byte as the queue holds it. */
  datatype Item = Item(byte: bv8, flags: bv8)

  function Items(bytes: seq<bv8>, flags: bv8): (items: seq<Item>)
    ensures |items| == |bytes|
  {
    seq(|bytes|, i requires 0 <= i < |bytes| => Item(bytes[i], flags))
  }

  // ---------------------------------------------------------------- the queue

  /** As much of the bytes as there is room for goes to the end of the queue. */
  function Append(queue: seq<Item>, capacity: nat, bytes: seq<bv8>, flags: bv8): seq<Item>
    requires |queue| <= capacity
  {
    queue + Items(bytes[..Min(|bytes|, capacity - |queue|)], flags)
  }

  /** How many items from position `i` on have the given flags, up to `count`. */
  function RunLength(queue: seq<Item>, i: nat, flags: bv8, count: nat): (n: nat)
    requires i <= |queue|
    ensures n <= count && i + n <= |queue|
    decreases |queue| - i
  {
    if count > 0 && i < |queue| && queue[i].flags == flags then 1 + RunLength(queue, i + 1, flags, count - 1) else 0
  }

  /** What a read of up to `count` bytes takes: the longest run of equal flags. */
  function Taken(queue: seq<Item>, count: nat): (n: nat)
    ensures n <= count && n <= |queue|
  {
    if queue == [] then 0 else RunLength(queue, 0, queue[0].flags, count)
  }

  /** It is the longest: all have the first one's flags, and it ends at the count,
      at the end of the queue, or where the flags change. */
  lemma TakenIsLongest(queue: seq<Item>, count: nat)
    ensures var n := Taken(queue, count);
      && (forall i :: 0 <= i < n ==> queue[i].flags == queue[0].flags)
      && (n == count || n == |queue| || queue[n].flags != queue[0].flags)
      && (n == 0 <==> queue == [] || count == 0)
  {
    if queue != [] { RunIsLongest(queue, 0, queue[0].flags, count); }
  }

  lemma {:induction false} RunIsLongest(queue: seq<Item>, i: nat, flags: bv8, count: nat)
    requires i <= |queue|
    ensures var n := RunLength(queue, i, flags, count);
      && (forall j :: i <= j < i + n ==> queue[j].flags == flags)
      && (n == count || i + n == |queue| || queue[i + n].flags != flags)
    decreases |queue| - i
  {
    if count > 0 && i < |queue| && queue[i].flags == flags {
      RunIsLongest(queue, i + 1, flags, count - 1);
    }
  }

  function BytesOf(queue: seq<Item>): (bytes: seq<bv8>)
    ensures |bytes| == |queue|
  {
    seq(|queue|, i requires 0 <= i < |queue| => queue[i].byte)
  }

  lemma BytesAppend(queue: seq<Item>, k: nat, m: nat)
    requires k + m <= |queue|
    ensures BytesOf(queue[..k]) + BytesOf(queue[k..k + m]) == BytesOf(queue[..k + m])
  {
  }

  lemma RunEnds(queue: seq<Item>, i: nat, flags: bv8, count: nat)
    requires i <= |queue| && (count == 0 || i == |queue| || queue[i].flags != flags)
    ensures RunLength(queue, i, flags, count) == 0
  {
  }

  /** A run can be read in parts. */
  lemma {:induction false} RunSplits(queue: seq<Item>, i: nat, flags: bv8, count: nat, part: nat)
    requires i <= |queue| && part <= RunLength(queue, i, flags, count)
    ensures RunLength(queue, i, flags, count) == part + RunLength(queue, i + part, flags, count - part)
    decreases part
  {
    if part > 0 {
      RunSplits(queue, i + 1, flags, count - 1, part - 1);
    }
  }

  // ---------------------------------------------------------------- the ring

  /** A slot: what was last written to it, and whether it was marked as overrun since. */
  datatype Slot = Slot(item: Item, marked: bool)
  {
    /** The flags a reader of the slot finds. */
    function Flags(): bv8 { if marked then Overrun(item.flags) else item.flags }
  }

  function Overrun(flags: bv8): bv8 { flags | DATA_OVERRUN }

  lemma OverrunTwice(flags: bv8)
    ensures Overrun(Overrun(flags)) == Overrun(flags)
  {
  }

  datatype Ring = Ring(slots: seq<Slot>, head: nat, tail: nat)

  /** The `i`th slot from the tail on. */
  function SlotAt(slots: seq<Slot>, tail: nat, i: nat): Slot
    requires tail < |slots| && i < |slots|
  {
    slots[Wrap(tail + i, |slots|)]
  }

  /** The items of the `busy` slots from the tail on. */
  function Held(slots: seq<Slot>, tail: nat, busy: nat): (queue: seq<Item>)
    requires tail < |slots| && busy <= |slots|
    ensures |queue| == busy
  {
    seq(busy, i requires 0 <= i < busy => SlotAt(slots, tail, i).item)
  }

  /** None of those slots is marked. */
  predicate Unmarked(slots: seq<Slot>, tail: nat, busy: nat)
    requires tail < |slots| && busy <= |slots|
  {
    forall i :: 0 <= i < busy ==> !SlotAt(slots, tail, i).marked
  }

  predicate Sound(r: Ring) {
    r.head < |r.slots| && r.tail < |r.slots| && Unmarked(r.slots, r.tail, Busy(r.head, r.tail, |r.slots|))
  }

  function QueueOf(r: Ring): (queue: seq<Item>)
    requires r.head < |r.slots| && r.tail < |r.slots|
    ensures |queue| == Busy(r.head, r.tail, |r.slots|)
  {
    Held(r.slots, r.tail, Busy(r.head, r.tail, |r.slots|))
  }

  // ---------------------------------------------------------------- copying in

  /** Items written one after the other, round the ring. */
  function PutAll(slots: seq<Slot>, at: nat, items: seq<Item>): (r: seq<Slot>)
    requires at < |slots|
    ensures |r| == |slots|
    decreases |items|
  {
    if items == [] then slots
    else PutAll(slots[at := Slot(items[0], false)], Wrap(at + 1, |slots|), items[1..])
  }

  /** How many bytes a copy counts as copied. */
  function Copied(r: Ring, count: nat): (n: nat)
    requires r.head < |r.slots| && r.tail < |r.slots|
    ensures n <= count
  {
    if Passes(r.head, r.tail, |r.slots|, count) then count
    else Min(count, |r.slots| - 1 - Busy(r.head, r.tail, |r.slots|))
  }

  function Mark(slots: seq<Slot>, at: nat): seq<Slot>
    requires at < |slots|
  {
    slots[at := slots[at].(marked := true)]
  }

  /** A copy of these bytes into the ring; a copy that finds the ring full may mark it. */
  function CopiedIn(r: Ring, bytes: seq<bv8>, flags: bv8, overrun: bool): (r': Ring)
    requires r.head < |r.slots| && r.tail < |r.slots|
    ensures |r'.slots| == |r.slots| && r'.head < |r.slots| && r'.tail == r.tail
  {
    var n := Copied(r, |bytes|);
    var slots := PutAll(r.slots, r.head, Items(bytes[..n], flags));
    var head := (r.head + n) % |r.slots|;
    Ring(if n < |bytes| && overrun then Mark(slots, head) else slots, head, r.tail)
  }

  /** What is left of items written round a ring: the last lap. */
  function Lap(items: seq<Item>, size: nat): (lap: seq<Item>)
    requires size > 0
    ensures |lap| == |items| % size
  {
    items[|items| - |items| % size..]
  }

  lemma ModStep(n: nat, size: nat)
    requires size > 0
    ensures (n + 1) % size == if n % size + 1 == size then 0 else n % size + 1
  {
    var q, r := n / size, n % size;
    assert n == q * size + r;
    if r + 1 == size {
      assert (q + 1) * size == q * size + size;
      DivisionUnique(n + 1, size, q + 1, 0);
    } else {
      DivisionUnique(n + 1, size, q, r + 1);
    }
  }

  lemma PutOne(slots: seq<Slot>, tail: nat, busy: nat, item: Item)
    requires tail < |slots| && busy < |slots| && Unmarked(slots, tail, busy)
    ensures var at := Wrap(tail + busy, |slots|);
      && 0 <= at < |slots|
      && var slots' := slots[at := Slot(item, false)];
         Held(slots', tail, busy + 1) == Held(slots, tail, busy) + [item] && Unmarked(slots', tail, busy + 1)
  {
    var size := |slots|;
    var at := Wrap(tail + busy, size);
    var slots' := slots[at := Slot(item, false)];
    forall i | 0 <= i < busy + 1
      ensures SlotAt(slots', tail, i) == if i < busy then SlotAt(slots, tail, i) else Slot(item, false)
    {
      if i < busy { assert Wrap(tail + i, size) != at; }
    }
  }

  lemma LapMore(whole: seq<Item>, item: Item, size: nat)
    requires size > 0
    ensures Lap(whole + [item], size) == if |whole| % size + 1 == size then [] else Lap(whole, size) + [item]
  {
    ModStep(|whole|, size);
  }

  /** However much is written, the ring holds the last lap of it all. */
  lemma {:induction false} PutLaps(slots: seq<Slot>, tail: nat, whole: seq<Item>, items: seq<Item>)
    requires tail < |slots| && Held(slots, tail, |whole| % |slots|) == Lap(whole, |slots|)
    requires Unmarked(slots, tail, |whole| % |slots|)
    ensures var size := |slots|;
      var at := Wrap(tail + |whole| % size, size);
      && 0 <= at < size
      && var slots' := PutAll(slots, at, items);
         && Held(slots', tail, |whole + items| % size) == Lap(whole + items, size)
         && Unmarked(slots', tail, |whole + items| % size)
    decreases |items|
  {
    hide Held, Unmarked, Lap;
    if items == [] {
      assert whole + items == whole;
    } else {
      var size, item := |slots|, items[0];
      var busy := |whole| % size;
      var at := Wrap(tail + busy, size);
      var slots1 := slots[at := Slot(item, false)];
      PutOne(slots, tail, busy, item);
      ModStep(|whole|, size);
      LapMore(whole, item, size);
      if busy + 1 == size {
        HeldNone(slots1, tail);
      }
      assert (whole + [item]) + items[1..] == whole + items;
      PutLaps(slots1, tail, whole + [item], items[1..]);
      assert Wrap(tail + |whole + [item]| % size, size) == Wrap(at + 1, size);
    }
  }

  lemma HeldNone(slots: seq<Slot>, tail: nat)
    requires tail < |slots|
    ensures Held(slots, tail, 0) == [] && Unmarked(slots, tail, 0)
  {
  }

  lemma ShortLap(items: seq<Item>, size: nat)
    requires size > 0
    ensures |items| < size ==> |items| % size == |items| && Lap(items, size) == items
    ensures |items| >= size ==> |Lap(items, size)| < |items|
  {
    if |items| < size { DivisionUnique(|items|, size, 0, |items|); }
  }

  /** Where the head comes to. */
  lemma HeadAfter(tail: nat, busy: nat, n: nat, size: nat)
    requires tail < size && busy < size
    ensures (Wrap(tail + busy, size) + n) % size == Wrap(tail + (busy + n) % size, size)
  {
    var at := Wrap(tail + busy, size);
    var q, r := (busy + n) / size, (busy + n) % size;
    assert busy + n == q * size + r;
    var to := Wrap(tail + r, size);
    var d := (if tail + busy < size then 0 else -1) + q + (if tail + r < size then 0 else 1);
    assert at + n == d * size + to;
    DivisionUnique(at + n, size, d, to);
  }

  lemma BusyAt(tail: nat, busy: nat, size: nat)
    requires tail < size && busy < size
    ensures 0 <= Wrap(tail + busy, size) < size && Busy(Wrap(tail + busy, size), tail, size) == busy
  {
  }

  /** A mark at the head is on no slot of the queue. */
  lemma MarkUnseen(slots: seq<Slot>, tail: nat, busy: nat)
    requires tail < |slots| && busy < |slots| && Unmarked(slots, tail, busy)
    ensures var at := Wrap(tail + busy, |slots|);
      && 0 <= at < |slots|
      && Held(Mark(slots, at), tail, busy) == Held(slots, tail, busy) && Unmarked(Mark(slots, at), tail, busy)
  {
    var at := Wrap(tail + busy, |slots|);
    forall i | 0 <= i < busy ensures SlotAt(Mark(slots, at), tail, i) == SlotAt(slots, tail, i) {
      assert Wrap(tail + i, |slots|) != at;
    }
  }

  /** After a copy the ring holds the last lap of what it held and what was copied; it
      is a queue with as much appended as there is room for iff the head did not pass
      the tail. */
  lemma CopyInMeaning(r: Ring, bytes: seq<bv8>, flags: bv8, overrun: bool)
    requires Sound(r)
    ensures var r', size, n := CopiedIn(r, bytes, flags, overrun), |r.slots|, Copied(r, |bytes|);
      var whole := QueueOf(r) + Items(bytes[..n], flags);
      && Sound(r') && QueueOf(r') == Lap(whole, size)
      && (QueueOf(r') == whole <==> !Passes(r.head, r.tail, size, |bytes|))
      && (!Passes(r.head, r.tail, size, |bytes|) ==>
            n == Min(|bytes|, size - 1 - |QueueOf(r)|) && QueueOf(r') == Append(QueueOf(r), size - 1, bytes, flags))
  {
    hide Held, Unmarked, Lap, PutAll, Wrap, Mark;
    var size, n := |r.slots|, Copied(r, |bytes|);
    var busy := Busy(r.head, r.tail, size);
    var items := Items(bytes[..n], flags);
    var whole := QueueOf(r) + items;
    ShortLap(QueueOf(r), size);
    PutLaps(r.slots, r.tail, QueueOf(r), items);
    HeadAfter(r.tail, busy, n, size);
    BusyAt(r.tail, (busy + n) % size, size);
    ShortLap(whole, size);
    MarkUnseen(PutAll(r.slots, r.head, items), r.tail, (busy + n) % size);
  }

  // ---------------------------------------------------------------- copying out

  /** The ring once `n` items have been taken off its queue. */
  function TakenOff(r: Ring, n: nat): Ring
    requires r.head < |r.slots| && r.tail < |r.slots| && n <= |QueueOf(r)|
  {
    r.(tail := Wrap(r.tail + n, |r.slots|))
  }

  lemma TakenOffMeaning(r: Ring, n: nat)
    requires Sound(r) && n <= |QueueOf(r)|
    ensures var r' := TakenOff(r, n);
      Sound(r') && QueueOf(r') == QueueOf(r)[n..]
  {
    var size := |r.slots|;
    var r' := TakenOff(r, n);
    BusyAfter(r.tail, r.head, size, n);
    forall i | 0 <= i < |QueueOf(r)| - n ensures SlotAt(r.slots, r'.tail, i) == SlotAt(r.slots, r.tail, n + i) {
      assert Wrap(r'.tail + i, size) == Wrap(r.tail + (n + i), size);
    }
  }

  /** The flags a read returns, whether there is anything to read or not. */
  function ReadFlags(r: Ring): bv8
    requires r.tail < |r.slots|
  {
    r.slots[r.tail].Flags()
  }

  /** Of a queue that is not empty a read returns the flags of its first item. */
  lemma ReadFlagsOfQueue(r: Ring)
    requires Sound(r) && QueueOf(r) != []
    ensures ReadFlags(r) == QueueOf(r)[0].flags
  {
    assert SlotAt(r.slots, r.tail, 0) == r.slots[r.tail];
  }

  // ---------------------------------------------------------------- whole runs

  datatype Operation = In(bytes: seq<bv8>, flags: bv8, overrun: bool) | Out(count: nat, peek: bool)

  /** The ring, what its callers were told has been copied in, and what they have read. */
  datatype History = History(ring: Ring, accepted: seq<Item>, delivered: seq<Item>)

  function Operate(h: History, op: Operation): (h': History)
    requires h.ring.head < |h.ring.slots| && h.ring.tail < |h.ring.slots|
    ensures h'.ring.head < |h'.ring.slots| == |h.ring.slots| && h'.ring.tail < |h'.ring.slots|
  {
    match op
    case In(bytes, flags, overrun) =>
      History(CopiedIn(h.ring, bytes, flags, overrun),
              h.accepted + Items(bytes[..Copied(h.ring, |bytes|)], flags), h.delivered)
    case Out(count, peek) =>
      var n := Taken(QueueOf(h.ring), count);
      if peek then h else History(TakenOff(h.ring, n), h.accepted, h.delivered + QueueOf(h.ring)[..n])
  }

  /** A ring nothing has been done with, whatever is in its memory. */
  predicate Fresh(r: Ring) {
    |r.slots| > 0 && r.head == r.tail == 0 && forall i :: 0 <= i < |r.slots| ==> !r.slots[i].marked
  }

  function Run(r: Ring, ops: seq<Operation>): (h: History)
    requires Fresh(r)
    ensures h.ring.head < |h.ring.slots| == |r.slots| && h.ring.tail < |h.ring.slots|
  {
    if ops == [] then History(r, [], []) else Operate(Run(r, ops[..|ops| - 1]), ops[|ops| - 1])
  }

  /** Operation `n` of a run is a copy in which the head passes the tail. */
  predicate PassesAt(r: Ring, ops: seq<Operation>, n: nat)
    requires Fresh(r) && n < |ops|
  {
    var ring := Run(r, ops[..n]).ring;
    ops[n].In? && Passes(ring.head, ring.tail, |ring.slots|, |ops[n].bytes|)
  }

  lemma {:induction false} RunSound(r: Ring, ops: seq<Operation>)
    requires Fresh(r)
    ensures Sound(Run(r, ops).ring)
  {
    if ops != [] {
      hide Sound;
      var front, op := ops[..|ops| - 1], ops[|ops| - 1];
      RunSound(r, front);
      var ring := Run(r, front).ring;
      match op {
        case In(bytes, flags, overrun) => CopyInMeaning(ring, bytes, flags, overrun);
        case Out(count, peek) => TakenOffMeaning(ring, Taken(QueueOf(ring), count));
      }
    }
  }

  /** How many items a run has lost. */
  function Lost(h: History): int
    requires h.ring.head < |h.ring.slots| && h.ring.tail < |h.ring.slots|
  {
    |h.accepted| - |h.delivered| - |QueueOf(h.ring)|
  }

  /** Whether what has been accepted is what has been read and what is queued. */
  predicate Conserved(h: History)
    requires h.ring.head < |h.ring.slots| && h.ring.tail < |h.ring.slots|
  {
    h.accepted == h.delivered + QueueOf(h.ring)
  }

  lemma InLoses(h: History, bytes: seq<bv8>, flags: bv8, overrun: bool)
    requires Sound(h.ring)
    ensures var h' := Operate(h, In(bytes, flags, overrun));
      if Passes(h.ring.head, h.ring.tail, |h.ring.slots|, |bytes|) then Lost(h') > Lost(h)
      else Lost(h') == Lost(h) && (Conserved(h) ==> Conserved(h'))
  {
    CopyInMeaning(h.ring, bytes, flags, overrun);
    ShortLap(QueueOf(h.ring) + Items(bytes[..Copied(h.ring, |bytes|)], flags), |h.ring.slots|);
    hide CopiedIn, QueueOf, Lap, Items, Copied, Append, Sound, Passes;
    if Conserved(h) {
      var items := Items(bytes[..Copied(h.ring, |bytes|)], flags);
      assert (h.delivered + QueueOf(h.ring)) + items == h.delivered + (QueueOf(h.ring) + items);
    }
  }

  lemma OutKeeps(h: History, count: nat, peek: bool)
    requires Sound(h.ring)
    ensures var h' := Operate(h, Out(count, peek));
      Lost(h') == Lost(h) && (Conserved(h) ==> Conserved(h'))
  {
    var queue := QueueOf(h.ring);
    var n := Taken(queue, count);
    TakenOffMeaning(h.ring, n);
    hide TakenOff, QueueOf, Taken, Sound;
    assert h.delivered + queue == (h.delivered + queue[..n]) + queue[n..];
  }

  /** One operation: it keeps what has been accepted, or loses some of it. */
  lemma OperateLoses(h: History, op: Operation)
    requires Sound(h.ring)
    ensures var h' := Operate(h, op);
      if op.In? && Passes(h.ring.head, h.ring.tail, |h.ring.slots|, |op.bytes|) then Lost(h') > Lost(h)
      else Lost(h') == Lost(h) && (Conserved(h) ==> Conserved(h'))
  {
    hide Operate, Lost, Conserved, Passes;
    match op
    case In(bytes, flags, overrun) => InLoses(h, bytes, flags, overrun);
    case Out(count, peek) => OutKeeps(h, count, peek);
  }

  /** Over a run of the ring nothing accepted is lost, doubled, reordered or given
      other flags, iff in no copy of it the head passes the tail. */
  lemma {:induction false} RunConservesIff(r: Ring, ops: seq<Operation>)
    requires Fresh(r)
    ensures var h := Run(r, ops);
      && (Conserved(h) <==> forall n :: 0 <= n < |ops| ==> !PassesAt(r, ops, n))
      && Lost(h) >= 0 && (Lost(h) == 0 <==> forall n :: 0 <= n < |ops| ==> !PassesAt(r, ops, n))
  {
    hide QueueOf, Operate, Passes;
    if ops == [] {
      assert |QueueOf(r)| == 0;
    } else {
      var last := |ops| - 1;
      var front := ops[..last];
      RunConservesIff(r, front);
      RunSound(r, front);
      OperateLoses(Run(r, front), ops[last]);
      forall n | 0 <= n < last ensures PassesAt(r, front, n) == PassesAt(r, ops, n) {
        assert front[..n] == ops[..n];
      }
      assert PassesAt(r, ops, last) ==> Lost(Run(r, ops)) > 0;
    }
  }

  /** It does happen: bytes enough to fill a fresh ring are all counted as copied, and
      some are lost. */
  lemma FillingLoses(r: Ring, bytes: seq<bv8>, flags: bv8, overrun: bool)
    requires Fresh(r) && |r.slots| >= 2 && |bytes| >= |r.slots|
    ensures PassesAt(r, [In(bytes, flags, overrun)], 0)
    ensures var h := Run(r, [In(bytes, flags, overrun)]);
      |h.accepted| == |bytes| && Lost(h) > 0 && !Conserved(h)
  {
    var ops := [In(bytes, flags, overrun)];
    assert ops[..0] == [];
    assert PassesAt(r, ops, 0);
    RunConservesIff(r, ops);
  }

  /** No byte is ever read that was not accepted with the very flags it is read with:
      a mark is never on it. */
  lemma {:induction false} ReadAsAccepted(r: Ring, ops: seq<Operation>)
    requires Fresh(r)
    ensures var h := Run(r, ops);
      && (forall item :: item in h.delivered ==> item in h.accepted)
      && (forall item :: item in QueueOf(h.ring) ==> item in h.accepted)
  {
    hide QueueOf;
    if ops == [] {
      assert |QueueOf(r)| == 0;
    } else {
      var front, op := ops[..|ops| - 1], ops[|ops| - 1];
      var h := Run(r, front);
      ReadAsAccepted(r, front);
      RunSound(r, front);
      match op {
        case In(bytes, flags, overrun) =>
          CopyInMeaning(h.ring, bytes, flags, overrun);
        case Out(count, peek) =>
          TakenOffMeaning(h.ring, Taken(QueueOf(h.ring), count));
      }
    }
  }

  // ---------------------------------------------------------------- marks

  /** An operation writes to slot `i`. */
  predicate Writes(ring: Ring, op: Operation, i: nat)
    requires ring.head < |ring.slots| && ring.tail < |ring.slots|
  {
    op.In? && exists k :: 0 <= k < Copied(ring, |op.bytes|) && InTurn(ring.head, k, |ring.slots|) == i
  }

  function InTurn(at: nat, k: nat, size: nat): nat
    requires size > 0
  {
    (at + k) % size
  }

  /** An operation finds the ring full and leaves slot `i` marked. */
  predicate Marks(ring: Ring, op: Operation, i: nat)
    requires ring.head < |ring.slots| && ring.tail < |ring.slots|
  {
    op.In? && op.overrun && Copied(ring, |op.bytes|) < |op.bytes|
    && i == (ring.head + Copied(ring, |op.bytes|)) % |ring.slots|
  }

  /** Operation `n` marked slot `i`, and no later one has written to it. */
  predicate MarkedBy(r: Ring, ops: seq<Operation>, n: nat, i: nat)
    requires Fresh(r) && n < |ops|
  {
    Marks(Run(r, ops[..n]).ring, ops[n], i) && forall m :: n < m < |ops| ==> !WrittenBy(r, ops, m, i)
  }

  predicate WrittenBy(r: Ring, ops: seq<Operation>, m: nat, i: nat)
    requires Fresh(r) && m < |ops|
  {
    Writes(Run(r, ops[..m]).ring, ops[m], i)
  }

  lemma {:induction false} PutAllMarks(slots: seq<Slot>, at: nat, items: seq<Item>, i: nat)
    requires at < |slots| && i < |slots|
    ensures PutAll(slots, at, items)[i].marked <==>
      slots[i].marked && forall k :: 0 <= k < |items| ==> InTurn(at, k, |slots|) != i
    decreases |items|
  {
    var size := |slots|;
    DivisionUnique(at, size, 0, at);
    if items != [] {
      var slots1, next := slots[at := Slot(items[0], false)], Wrap(at + 1, size);
      PutAllMarks(slots1, next, items[1..], i);
      assert InTurn(at, 0, size) == at;
      forall k | 0 < k < |items| ensures InTurn(at, k, size) == InTurn(next, k - 1, size) {
        TurnStep(at, k, size);
      }
      forall k | 0 <= k < |items| - 1 ensures InTurn(next, k, size) == InTurn(at, k + 1, size) {
        TurnStep(at, k + 1, size);
      }
    }
  }

  lemma TurnStep(at: nat, k: nat, size: nat)
    requires at < size && k > 0
    ensures InTurn(at, k, size) == InTurn(Wrap(at + 1, size), k - 1, size)
  {
    if at + 1 == size {
      var q, r := (k - 1) / size, (k - 1) % size;
      assert k - 1 == q * size + r;
      assert at + k == (q + 1) * size + r;
      DivisionUnique(at + k, size, q + 1, r);
    }
  }

  /** One operation: a slot is marked after it iff it marks it, or it was and is not
      written to. */
  lemma OperateMarks(h: History, op: Operation, i: nat)
    requires h.ring.head < |h.ring.slots| && h.ring.tail < |h.ring.slots| && i < |h.ring.slots|
    ensures Operate(h, op).ring.slots[i].marked <==>
      Marks(h.ring, op, i) || (h.ring.slots[i].marked && !Writes(h.ring, op, i))
  {
    if op.In? {
      PutAllMarks(h.ring.slots, h.ring.head, Items(op.bytes[..Copied(h.ring, |op.bytes|)], op.flags), i);
    }
  }

  /** A slot is marked iff some copy marked it and none has written to it since. */
  lemma {:induction false} MarkedIff(r: Ring, ops: seq<Operation>, i: nat)
    requires Fresh(r) && i < |r.slots|
    ensures Run(r, ops).ring.slots[i].marked <==> exists n :: 0 <= n < |ops| && MarkedBy(r, ops, n, i)
  {
    hide Operate, Marks, Writes;
    if ops != [] {
      var last := |ops| - 1;
      var front := ops[..last];
      MarkedIff(r, front, i);
      OperateMarks(Run(r, front), ops[last], i);
      assert ops[..last] == front;
      forall m | 0 <= m < last ensures WrittenBy(r, front, m, i) == WrittenBy(r, ops, m, i) && front[..m] == ops[..m] {
        assert front[..m] == ops[..m];
      }
      forall n | 0 <= n < last
        ensures MarkedBy(r, ops, n, i) <==> MarkedBy(r, front, n, i) && !WrittenBy(r, ops, last, i)
      {
        assert front[..n] == ops[..n];
      }
      assert MarkedBy(r, ops, last, i) <==> Marks(Run(r, front).ring, ops[last], i);
    }
  }

  /** A read of an empty ring returns no byte, and the overrun flag iff the tail stands
      at a slot that has been marked since it was written, or was written with it. */
  lemma EmptyReadIff(r: Ring, ops: seq<Operation>)
    requires Fresh(r) && QueueOf(Run(r, ops).ring) == []
    ensures var ring := Run(r, ops).ring;
      ReadFlags(ring) & DATA_OVERRUN != 0 <==>
        (exists n :: 0 <= n < |ops| && MarkedBy(r, ops, n, ring.tail))
        || ring.slots[ring.tail].item.flags & DATA_OVERRUN != 0
  {
    var ring := Run(r, ops).ring;
    MarkedIff(r, ops, ring.tail);
    OverrunShows(ring.slots[ring.tail].item.flags);
    hide Overrun, Run;
  }

  lemma OverrunShows(flags: bv8)
    ensures Overrun(flags) & DATA_OVERRUN != 0
  {
  }

  lemma FillSmallest(r: Ring, x: bv8)
    requires |r.slots| == 2 && r.head == r.tail == 0
    ensures CopiedIn(r, [x], 0, false) == Ring(r.slots[0 := Slot(Item(x, 0), false)], 1, 0)
  {
    var items := Items([x][..1], 0);
    assert items == [Item(x, 0)] && items[1..] == [];
    assert Copied(r, 1) == 1;
    assert PutAll(r.slots, 0, items) == r.slots[0 := Slot(Item(x, 0), false)];
  }

  lemma MarkSmallest(slots: seq<Slot>, y: bv8)
    requires |slots| == 2
    ensures CopiedIn(Ring(slots, 1, 0), [y], 0, true) == Ring(Mark(slots, 1), 1, 0)
  {
    assert Items([y][..0], 0) == [];
  }

  lemma DrainSmallest(slots: seq<Slot>)
    requires |slots| == 2
    ensures var r := Ring(slots, 1, 0);
      && QueueOf(r) == [slots[0].item] && Taken(QueueOf(r), 1) == 1
      && TakenOff(r, 1) == Ring(slots, 1, 1) && QueueOf(TakenOff(r, 1)) == []
  {
    assert SlotAt(slots, 0, 0) == slots[0];
  }

  lemma SmallestOut(h: History, slots: seq<Slot>)
    requires |slots| == 2 && h.ring == Ring(slots, 1, 0)
    ensures var h' := Operate(h, Out(1, false));
      h'.ring == Ring(slots, 1, 1) && QueueOf(h'.ring) == [] && h'.delivered == h.delivered + [slots[0].item]
  {
    DrainSmallest(slots);
    hide QueueOf, Taken, TakenOff;
    assert [slots[0].item][..1] == [slots[0].item];
  }

  lemma RunStep(r: Ring, front: seq<Operation>, op: Operation)
    requires Fresh(r)
    ensures Run(r, []) == History(r, [], [])
    ensures Run(r, front + [op]) == Operate(Run(r, front), op)
  {
    assert (front + [op])[..|front|] == front;
  }

  /** A byte fills the smallest ring, and another finds it full. */
  lemma SmallestFull(r: Ring, x: bv8, y: bv8)
    requires Fresh(r) && |r.slots| == 2
    ensures var h := Run(r, [In([x], 0, false), In([y], 0, true)]);
      h.ring == Ring(Mark(r.slots[0 := Slot(Item(x, 0), false)], 1), 1, 0) && h.delivered == []
  {
    hide CopiedIn, QueueOf, Taken, Items, Copied, Run, TakenOff, Mark;
    var op0, op1 := In([x], 0, false), In([y], 0, true);
    FillSmallest(r, x);
    MarkSmallest(r.slots[0 := Slot(Item(x, 0), false)], y);
    RunStep(r, [], op0);
    RunStep(r, [op0], op1);
    assert [] + [op0] == [op0] && [op0] + [op1] == [op0, op1];
  }

  /** It does happen: when that byte has been read, the next read finds nothing but the
      mark. */
  lemma EmptyReadOfMark(r: Ring, x: bv8, y: bv8)
    requires Fresh(r) && |r.slots| == 2
    ensures var h := Run(r, [In([x], 0, false), In([y], 0, true)] + [Out(1, false)]);
      && QueueOf(h.ring) == [] && h.delivered == [Item(x, 0)]
      && ReadFlags(h.ring) & DATA_OVERRUN != 0
  {
    hide CopiedIn, QueueOf, Taken, Items, Copied, Run, TakenOff, Mark, Operate, Overrun;
    var slots := r.slots[0 := Slot(Item(x, 0), false)];
    var ops := [In([x], 0, false), In([y], 0, true)];
    SmallestFull(r, x, y);
    RunStep(r, ops, Out(1, false));
    SmallestOut(Run(r, ops), Mark(slots, 1));
    MarkShows(slots, 1);
    assert [] + [Mark(slots, 1)[0].item] == [Item(x, 0)];
  }

  lemma MarkShows(slots: seq<Slot>, i: nat)
    requires i < |slots|
    ensures Mark(slots, i)[i].Flags() & DATA_OVERRUN != 0
    ensures forall j :: 0 <= j < |slots| ==> Mark(slots, i)[j].item == slots[j].item
  {
    OverrunShows(slots[i].item.flags);
    hide Overrun;
  }

  // ---------------------------------------------------------------- the arrays

  /** What arrays hold: `busy` items from the tail on. */
  function Contents(data: seq<bv8>, flags: seq<bv8>, tail: nat, busy: nat): (queue: seq<Item>)
    requires |flags| == |data| && tail < |data| && busy <= |data|
    ensures |queue| == busy
  {
    seq(busy, i requires 0 <= i < busy => Item(data[Wrap(tail + i, |data|)], flags[Wrap(tail + i, |data|)]))
  }

  /** Arrays hold the slots of a ring. */
  predicate Holds(data: seq<bv8>, flags: seq<bv8>, slots: seq<Slot>) {
    |data| == |flags| == |slots| && forall i :: 0 <= i < |slots| ==> data[i] == slots[i].item.byte && flags[i] == slots[i].Flags()
  }

  lemma ContentsAre(r: Ring, data: seq<bv8>, flags: seq<bv8>)
    requires Sound(r) && Holds(data, flags, r.slots)
    ensures Contents(data, flags, r.tail, Busy(r.head, r.tail, |r.slots|)) == QueueOf(r)
  {
    forall i | 0 <= i < |QueueOf(r)|
      ensures Contents(data, flags, r.tail, Busy(r.head, r.tail, |r.slots|))[i] == QueueOf(r)[i]
    {
      assert !SlotAt(r.slots, r.tail, i).marked;
    }
  }

  lemma {:induction false} PutAllSplits(slots: seq<Slot>, at: nat, a: seq<Item>, b: seq<Item>)
    requires at < |slots|
    ensures InTurn(at, |a|, |slots|) < |slots|
    ensures PutAll(slots, at, a + b) == PutAll(PutAll(slots, at, a), InTurn(at, |a|, |slots|), b)
    decreases |a|
  {
    var size := |slots|;
    if a == [] {
      DivisionUnique(at, size, 0, at);
      assert a + b == b;
    } else {
      PutAllSplits(slots[at := Slot(a[0], false)], Wrap(at + 1, size), a[1..], b);
      TurnStep(at, |a|, size);
      assert (a + b)[1..] == a[1..] + b;
    }
  }

  lemma ItemsFrom(bytes: seq<bv8>, flags: bv8, i: nat)
    requires i < |bytes|
    ensures Items(bytes[i..], flags)[0] == Item(bytes[i], flags) && Items(bytes[i..], flags)[1..] == Items(bytes[i + 1..], flags)
  {
  }

  lemma ItemsSplit(bytes: seq<bv8>, from: nat, n: nat, to: nat, flags: bv8)
    requires from + n <= to <= |bytes|
    ensures Items(bytes[from..to], flags) == Items(bytes[from..][..n], flags) + Items(bytes[from + n..to], flags)
  {
  }

  // ---------------------------------------------------------------- the buffer

  class SerialBuffer {
    var size: nat
    var head: nat
    var tail: nat
    var data: array<bv8>
    var flags: array<bv8>
    ghost var slots: seq<Slot>

    /** The arrays hold the slots. */
    ghost predicate Agree()
      reads this, data, flags
    {
      data.Length == size && flags.Length == size && data != flags && Holds(data[..], flags[..], slots)
    }

    ghost predicate Valid()
      reads this, data, flags
    {
      Agree() && IsPow2(size) && Sound(View())
    }

    ghost function View(): Ring
      reads this
    {
      Ring(slots, head, tail)
    }

    ghost function Queue(): seq<Item>
      reads this, data, flags
      requires Valid()
    {
      QueueOf(View())
    }

    /** The capacity is one less than the least power of two not less than the request. */
    constructor (request: nat)
      requires request > 0
      ensures Valid() && LeastPow2(size, request) && Fresh(View()) && Queue() == []
      ensures fresh(data) && fresh(flags)
    {
      var rounded := RoundUp(request);
      size, head, tail := rounded, 0, 0;
      data := new bv8[rounded];
      flags := new bv8[rounded];
      new;
      slots := seq(size, i requires 0 <= i < size reads this, data, flags requires data.Length == size && flags.Length == size =>
        Slot(Item(data[i], flags[i]), false));
    }

    method SpaceBusy() returns (busy: nat)
      requires Valid()
      ensures busy == |Queue()|
    {
      busy := if head >= tail then head - tail else size - (tail - head);
    }

    method SpaceFree() returns (free: nat)
      requires Valid()
      ensures free == size - 1 - |Queue()|
    {
      var busy := SpaceBusy();
      free := size - 1 - busy;
    }

    /** Writes one byte and its flags. */
    method WriteOne(at: nat, byte: bv8, dataFlags: bv8)
      requires Agree() && at < size
      modifies `slots, data, flags
      ensures Agree() && slots == old(slots)[at := Slot(Item(byte, dataFlags), false)]
    {
      data[at] := byte;
      flags[at] := dataFlags;
      slots := slots[at := Slot(Item(byte, dataFlags), false)];
    }

    /** Writes bytes and their flags to a stretch of the ring. */
    method WriteSegment(at: nat, bytes: seq<bv8>, dataFlags: bv8)
      requires Agree() && at < size && at + |bytes| <= size
      modifies `slots, data, flags
      ensures Agree() && slots == PutAll(old(slots), at, Items(bytes, dataFlags))
    {
      hide Items, Holds;
      var i := 0;
      SlotsMatch();
      assert bytes[0..] == bytes;
      while i < |bytes|
        invariant 0 <= i <= |bytes| && Agree() && |slots| == size
        invariant PutAll(slots, Wrap(at + i, size), Items(bytes[i..], dataFlags)) == PutAll(old(slots), at, Items(bytes, dataFlags))
      {
        ItemsFrom(bytes, dataFlags, i);
        WriteOne(at + i, bytes[i], dataFlags);
        i := i + 1;
      }
      assert |Items(bytes[i..], dataFlags)| == 0;
    }

    /** Marks the empty slot at the head of a full ring. */
    method MarkOverrun(at: nat)
      requires Agree() && at < size
      modifies `slots, flags
      ensures Agree() && |slots| == size && |old(slots)| == size && slots == Mark(old(slots), at)
    {
      hide Overrun;
      OverrunTwice(slots[at].item.flags);
      assert flags[at] == slots[at].Flags();
      slots := Mark(slots, at);
      flags[at] := Overrun(flags[at]);
    }

    /** Copies as much as goes in one stretch; nothing, when the ring is full. */
    method CopyStretch(at: nat, rest: seq<bv8>, dataFlags: bv8, copyFlags: bv8) returns (at': nat, n: nat)
      requires Agree() && IsPow2(size) && at < size && tail < size && rest != []
      modifies `slots, data, flags
      ensures Agree() && n == Stretch(at, tail, size, |rest|) <= |rest| && at' == Wrap(at + n, size) < size
      ensures |slots| == size && |old(slots)| == size
      ensures n > 0 ==> slots == PutAll(old(slots), at, Items(rest[..n], dataFlags))
      ensures n == 0 ==> slots == if copyFlags & COPY_FULL_IS_OVERRUN != 0 then Mark(old(slots), at) else old(slots)
    {
      hide IsPow2, Items, Holds, PutAll, Mark;
      SlotsMatch();
      MaskWraps(at + 1, size);
      if And(at + 1, size - 1) == tail {
        if copyFlags & COPY_FULL_IS_OVERRUN != 0 {
          MarkOverrun(at);
        }
        return at, 0;
      }
      n := Min(if at >= tail then size - 1 - at + 1 else tail - at - 1, |rest|);
      assert n > 0;
      WriteSegment(at, rest[..n], dataFlags);
      MaskWraps(at + n, size);
      at' := And(at + n, size - 1);
    }

    /** Copies bytes in, and counts those copied.  As much goes to the end of the queue as
        there is room for, unless the head passes the tail: then all are copied, and the
        queue is the last lap of what it held and what was copied. */
    method CopyIn(bytes: seq<bv8>, dataFlags: bv8, copyFlags: bv8) returns (copied: nat)
      requires Valid()
      modifies `head, `slots, data, flags
      ensures Valid()
      ensures copied == Copied(old(View()), |bytes|)
      ensures View() == CopiedIn(old(View()), bytes, dataFlags, copyFlags & COPY_FULL_IS_OVERRUN != 0)
      ensures Queue() == Lap(old(Queue()) + Items(bytes[..copied], dataFlags), size)
      ensures !Passes(old(head), tail, size, |bytes|) ==>
        copied == Min(|bytes|, size - 1 - |old(Queue())|) && Queue() == Append(old(Queue()), size - 1, bytes, dataFlags)
    {
      CopyInMeaning(View(), bytes, dataFlags, copyFlags & COPY_FULL_IS_OVERRUN != 0);
      SlotsMatch();
      hide IsPow2, Held, Unmarked, Lap, PutAll, Passes, Copied, CopiedIn, QueueOf, Append, Holds, Items;
      var at;
      copied, at := CopyLoop(bytes, dataFlags, copyFlags);
      head := at;
    }

    /** The loop: stretch by stretch, up to the end of the bytes or a full ring. */
    method CopyLoop(bytes: seq<bv8>, dataFlags: bv8, copyFlags: bv8) returns (copied: nat, at: nat)
      requires Agree() && IsPow2(size) && head < size && tail < size && |slots| == size
      modifies `slots, data, flags
      ensures Agree() && |slots| == size && at < size
      ensures copied == Copied(old(View()), |bytes|)
      ensures Ring(slots, at, tail) == CopiedIn(old(View()), bytes, dataFlags, copyFlags & COPY_FULL_IS_OVERRUN != 0)
    {
      hide IsPow2, Items, Wrap, Going, Stretch, Busy, PutAll, Holds, Mark, Left, InTurn, Passes, Copied, CopiedIn;
      ghost var passes := Passes(head, tail, size, |bytes|);
      ghost var total := Copied(View(), |bytes|);
      var resid: nat := |bytes|;
      at := head;
      GoingBegins(View(), |bytes|);
      assert bytes[0..total] == bytes[..total];
      while resid > 0
        invariant resid <= |bytes| && at < size && Agree() && |slots| == size
        invariant Going(head, at, tail, size, |bytes|, resid, passes)
        invariant |bytes| - resid <= total && total - (|bytes| - resid) == Left(at, tail, size, resid, passes)
        invariant PutAll(slots, at, Items(bytes[|bytes| - resid..total], dataFlags))
               == PutAll(old(slots), head, Items(bytes[..total], dataFlags))
      {
        var done := |bytes| - resid;
        ghost var at0, before := at, slots;
        GoingStep(head, at, tail, size, |bytes|, resid, passes);
        var n;
        at, n := CopyStretch(at, bytes[done..], dataFlags, copyFlags);
        if n == 0 {
          WrapNone(at0, size);
          GoingEnds(head, at, tail, size, |bytes|, resid, passes);
          PutNone(before, at, bytes[done..total], dataFlags);
          CopyEnds(old(View()), bytes, dataFlags, copyFlags & COPY_FULL_IS_OVERRUN != 0, before, at);
          return done, at;
        }
        ItemsSplit(bytes, done, n, total, dataFlags);
        PutAllSplits(before, at0, Items(bytes[done..][..n], dataFlags), Items(bytes[done + n..total], dataFlags));
        resid := resid - n;
      }
      GoingEnds(head, at, tail, size, |bytes|, resid, passes);
      PutNone(slots, at, bytes[|bytes| - resid..total], dataFlags);
      CopyEnds(old(View()), bytes, dataFlags, copyFlags & COPY_FULL_IS_OVERRUN != 0, slots, at);
      copied := |bytes|;
    }

    /** How many of `n` slots have the given flags before one that does not. */
    method ScanFlags(at: nat, n: nat, f: bv8) returns (m: nat)
      requires Valid() && at + n <= size && n > 0
      ensures m <= n && forall i :: at <= i < at + m ==> flags[..][i] == f
      ensures m == n || flags[..][at + m] != f
    {
      var scan, resid := at, n;
      while true
        invariant at <= scan && 0 < resid && scan - at + resid == n
        invariant forall i :: at <= i < scan ==> flags[i] == f
        decreases resid
      {
        var same := flags[scan] == f;
        scan := scan + 1;
        if !same {
          break;
        }
        resid := resid - 1;
        if resid == 0 {
          break;
        }
      }
      m := n - resid;
    }

    /** Reads one stretch, from item `k` on, as far as the flags stay the same. */
    method ReadStretch(at: nat, ghost k: nat, limit: nat, f: bv8) returns (piece: seq<bv8>, at': nat)
      requires Valid() && k <= |Queue()| && at == Wrap(tail + k, size) && limit > 0
      ensures var m := |piece|;
        && m <= limit && k + m <= |Queue()| && at' == Wrap(tail + (k + m), size)
        && piece == BytesOf(Queue()[k..k + m])
        && (m == 0 ==> RunLength(Queue(), k, f, limit) == 0)
        && RunLength(Queue(), k, f, limit) == m + RunLength(Queue(), k + m, f, limit - m)
    {
      hide IsPow2, Wrap, RunLength, BytesOf, And, Busy, QueueOf, Unmarked, Holds, Contents;
      SlotsMatch();
      ContentsAre(View(), data[..], flags[..]);
      ReadBegins(View(), data[..], flags[..], k);
      EmptyStretch(Queue(), k);
      if at == head {
        RunEnds(Queue(), k, f, limit);
        return [], at;
      }
      var n := Min(if at > head then size - 1 - at + 1 else head - at, limit);
      assert n > 0;
      var m := ScanFlags(at, n, f);
      if m == 0 {
        RunEnds(Queue(), k, f, limit);
        return [], at;
      }
      StretchRun(Queue(), data[..], flags[..], tail, head, k, m, f, limit);
      piece := data[..][at..at + m];
      at' := And(at + m, size - 1);
    }

    /** Copies bytes out: the longest run of equal flags, up to a count; and the flags of
        the slot at the tail, even when there is nothing to read. */
    method CopyOut(count: nat, copyFlags: bv8) returns (bytes: seq<bv8>, dataFlags: bv8)
      requires Valid()
      modifies `tail
      ensures Valid()
      ensures var n := Taken(old(Queue()), count);
        && bytes == BytesOf(old(Queue())[..n])
        && View() == (if copyFlags & COPY_PEEK != 0 then old(View()) else TakenOff(old(View()), n))
        && Queue() == if copyFlags & COPY_PEEK != 0 then old(Queue()) else old(Queue())[n..]
      ensures dataFlags == old(flags[tail]) == ReadFlags(old(View()))
      ensures old(Queue()) != [] ==> dataFlags == old(Queue())[0].flags
    {
      SlotsMatch();
      CopyOutMeaning(View(), count);
      hide IsPow2, Wrap, Busy, BytesOf, RunLength, Unmarked, Holds, QueueOf, Taken, Sound, Slot.Flags;
      dataFlags := FlagsAt(tail);
      var at;
      bytes, at := ReadRun(count, dataFlags);
      if copyFlags & COPY_PEEK == 0 {
        tail := at;
      }
    }

    /** Reads, stretch by stretch, as long as the flags are the same. */
    method ReadRun(count: nat, f: bv8) returns (bytes: seq<bv8>, at: nat)
      requires Valid()
      ensures |bytes| == RunLength(Queue(), 0, f, count) && at == Wrap(tail + |bytes|, size)
      ensures bytes == BytesOf(Queue()[..|bytes|])
    {
      hide IsPow2, Wrap, Busy, BytesOf, RunLength, Unmarked, Holds, QueueOf;
      at := tail;
      bytes := [];
      SlotsMatch();
      WrapNone(tail, size);
      EmptyStretch(Queue(), 0);
      while |bytes| < count
        invariant |bytes| <= count && |bytes| <= |Queue()| && at == Wrap(tail + |bytes|, size)
        invariant bytes == BytesOf(Queue()[..|bytes|])
        invariant RunLength(Queue(), 0, f, count) == |bytes| + RunLength(Queue(), |bytes|, f, count - |bytes|)
      {
        var piece;
        piece, at := ReadStretch(at, |bytes|, count - |bytes|, f);
        if piece == [] {
          break;
        }
        BytesAppend(Queue(), |bytes|, |piece|);
        bytes := bytes + piece;
      }
      RunEnds(Queue(), |bytes|, f, 0);
    }

    method FlagsAt(at: nat) returns (f: bv8)
      requires Agree() && at < size
      ensures |slots| == size && f == flags[at] == slots[at].Flags()
    {
      f := flags[at];
      assert f == flags[..][at];
    }

    lemma SlotsMatch()
      requires Agree()
      ensures |slots| == size
    {
    }
  }

  // the arithmetic of copying out

  /** Where the queue's item `k` is in the ring. */
  lemma PassedAt(data: seq<bv8>, flags: seq<bv8>, tail: nat, head: nat, k: nat)
    requires |flags| == |data| && tail < |data| && head < |data| && k <= Busy(head, tail, |data|)
    ensures var size := |data|;
      var at := Wrap(tail + k, size);
      var busy := Busy(head, tail, size);
      0 <= at < size && (k < busy ==> Contents(data, flags, tail, busy)[k] == Item(data[at], flags[at]))
  {
  }

  /** A stretch of the ring is a stretch of the queue. */
  lemma StretchAt(data: seq<bv8>, flags: seq<bv8>, tail: nat, head: nat, k: nat, n: nat)
    requires |flags| == |data| && tail < |data| && head < |data| && k + n <= Busy(head, tail, |data|)
    requires 0 <= Wrap(tail + k, |data|) && Wrap(tail + k, |data|) + n <= |data|
    ensures var at := Wrap(tail + k, |data|);
      var queue := Contents(data, flags, tail, Busy(head, tail, |data|));
      forall i {:trigger queue[i]} :: k <= i < k + n ==> queue[i] == Item(data[at + (i - k)], flags[at + (i - k)])
  {
    var at := Wrap(tail + k, |data|);
    var queue := Contents(data, flags, tail, Busy(head, tail, |data|));
    forall i | k <= i < k + n ensures queue[i] == Item(data[at + (i - k)], flags[at + (i - k)]) {
      assert Wrap(tail + i, |data|) == at + (i - k);
    }
  }

  /** Where the reading of item `k` begins. */
  lemma ReadBegins(r: Ring, data: seq<bv8>, flags: seq<bv8>, k: nat)
    requires Sound(r) && Holds(data, flags, r.slots) && k <= |QueueOf(r)|
    ensures var size := |r.slots|;
      var at := Wrap(r.tail + k, size);
      var busy := |QueueOf(r)|;
      && 0 <= at < size && (at == r.head <==> k == busy)
      && (at != r.head ==> 0 < (if at > r.head then size - at else r.head - at) <= busy - k)
      && (k < busy ==> QueueOf(r)[k] == Item(data[at], flags[at]))
  {
    ContentsAre(r, data, flags);
    PassedAt(data, flags, r.tail, r.head, k);
    WhatFollows(r.tail, r.head, |r.slots|, k);
    hide Contents, QueueOf, Unmarked;
  }

  /** What a read takes is the run of the flags it finds at the tail, and leaves the rest. */
  lemma CopyOutMeaning(r: Ring, count: nat)
    requires Sound(r)
    ensures var queue, n := QueueOf(r), Taken(QueueOf(r), count);
      && n == RunLength(queue, 0, ReadFlags(r), count)
      && (queue != [] ==> ReadFlags(r) == queue[0].flags)
      && Sound(TakenOff(r, n)) && QueueOf(TakenOff(r, n)) == queue[n..]
  {
    if QueueOf(r) != [] { ReadFlagsOfQueue(r); }
    TakenOffMeaning(r, Taken(QueueOf(r), count));
  }

  lemma EmptyStretch(queue: seq<Item>, k: nat)
    requires k <= |queue|
    ensures [] == BytesOf(queue[k..k + 0])
  {
  }

  /** A stretch of equal flags starts the run, and its bytes are the queue's. */
  lemma StretchRun(queue: seq<Item>, data: seq<bv8>, flags: seq<bv8>, tail: nat, head: nat, k: nat, m: nat, f: bv8, limit: nat)
    requires |flags| == |data| && tail < |data| && head < |data| && k + m <= Busy(head, tail, |data|) && m <= limit
    requires queue == Contents(data, flags, tail, Busy(head, tail, |data|))
    requires IsPow2(|data|) && 0 <= Wrap(tail + k, |data|) && Wrap(tail + k, |data|) + m <= |data|
    requires var at := Wrap(tail + k, |data|); forall i :: at <= i < at + m ==> flags[i] == f
    ensures var at := Wrap(tail + k, |data|);
      && data[at..at + m] == BytesOf(queue[k..k + m])
      && RunLength(queue, k, f, limit) == m + RunLength(queue, k + m, f, limit - m)
      && And(at + m, |data| - 1) == Wrap(tail + (k + m), |data|)
  {
    hide Contents, Wrap, Busy, IsPow2, And;
    MaskWraps(Wrap(tail + k, |data|) + m, |data|);
    WrapOn(tail, k, m, |data|);
    StretchAt(data, flags, tail, head, k, m);
    RunAtLeast(queue, k, f, limit, m);
    RunSplits(queue, k, f, limit, m);
  }

  lemma {:induction false} RunAtLeast(queue: seq<Item>, i: nat, flags: bv8, count: nat, m: nat)
    requires m <= count && i + m <= |queue| && forall j :: i <= j < i + m ==> queue[j].flags == flags
    ensures RunLength(queue, i, flags, count) >= m
    decreases m
  {
    if m > 0 { RunAtLeast(queue, i + 1, flags, count - 1, m - 1); }
  }

  // the arithmetic of copying in

  /** Whether the head passes the tail: the tail is at the start of the ring, and
      there is room for some of the bytes but not for all. */
  predicate Passes(head: nat, tail: nat, size: nat, count: nat)
    requires head < size && tail < size
  {
    tail == 0 && 0 < size - 1 - Busy(head, tail, size) < count
  }

  /** How many bytes go in one stretch. */
  function Stretch(at: nat, tail: nat, size: nat, count: nat): nat
    requires at < size && tail < size
  {
    if Busy(at, tail, size) == size - 1 then 0
    else Min(count, if at >= tail then size - at else tail - at - 1)
  }

  /** How many bytes are still to be copied. */
  function Left(at: nat, tail: nat, size: nat, resid: nat, passes: bool): nat
    requires at < size && tail < size
  {
    if passes then resid else Min(resid, size - 1 - Busy(at, tail, size))
  }

  /** Where a copy is; the head is going to pass the tail, or has passed it, or else
      there is room for what goes up to the end of the ring. */
  predicate Going(head: nat, at: nat, tail: nat, size: nat, count: nat, resid: nat, passes: bool) {
    && at < size && tail < size && resid <= count && at == InTurn(head, count - resid, size)
    && (tail == 0 ==>
          if passes then size > 1 && (resid == 0 || at == 0 || 0 < size - 1 - at < resid)
          else Busy(at, tail, size) == size - 1 || resid <= size - 1 - Busy(at, tail, size))
    && (passes ==> tail == 0)
  }

  lemma GoingBegins(r: Ring, count: nat)
    requires r.head < |r.slots| && r.tail < |r.slots|
    ensures var passes := Passes(r.head, r.tail, |r.slots|, count);
      && Going(r.head, r.head, r.tail, |r.slots|, count, count, passes)
      && Copied(r, count) == Left(r.head, r.tail, |r.slots|, count, passes)
  {
    DivisionUnique(r.head, |r.slots|, 0, r.head);
  }

  lemma GoingStep(head: nat, at: nat, tail: nat, size: nat, count: nat, resid: nat, passes: bool)
    requires Going(head, at, tail, size, count, resid, passes) && resid > 0
    ensures at < size && tail < size
    ensures var n, left := Stretch(at, tail, size, resid), Left(at, tail, size, resid, passes);
      var at' := Wrap(at + n, size);
      && n <= left && n <= resid && (n == 0 <==> left == 0) && 0 <= at' < size && at' == InTurn(at, n, size)
      && Going(head, at', tail, size, count, resid - n, passes)
      && Left(at', tail, size, resid - n, passes) == left - n
  {
    var n := Stretch(at, tail, size, resid);
    DivisionUnique(at, size, 0, at);
    WrapsAgain(at, size, at, n);
    WrapsAgain(head + (count - resid), size, at, n);
  }

  /** A copy ends with all bytes copied, or with a full ring. */
  lemma GoingEnds(head: nat, at: nat, tail: nat, size: nat, count: nat, resid: nat, passes: bool)
    requires Going(head, at, tail, size, count, resid, passes)
    ensures at < size && tail < size && at == (head + (count - resid)) % size
    ensures resid == 0 ==> Left(at, tail, size, resid, passes) == 0
  {
  }

  lemma PutNone(slots: seq<Slot>, at: nat, bytes: seq<bv8>, flags: bv8)
    requires at < |slots|
    ensures bytes == [] ==> PutAll(slots, at, Items(bytes, flags)) == slots
  {
  }

  /** With everything written that a copy counts, only the mark of a full ring is left. */
  lemma CopyEnds(r: Ring, bytes: seq<bv8>, flags: bv8, overrun: bool, slots: seq<Slot>, at: nat)
    requires r.head < |r.slots| && r.tail < |r.slots|
    requires var n := Copied(r, |bytes|);
      slots == PutAll(r.slots, r.head, Items(bytes[..n], flags)) && at == (r.head + n) % |r.slots|
    ensures CopiedIn(r, bytes, flags, overrun) ==
      Ring(if Copied(r, |bytes|) < |bytes| && overrun then Mark(slots, at) else slots, at, r.tail)
  {
  }

  lemma WrapsAgain(total: nat, size: nat, at: nat, n: nat)
    requires size > 0 && at == total % size && at + n <= size
    ensures Wrap(at + n, size) == (total + n) % size
  {
    var q := total / size;
    assert total == q * size + at;
    if at + n < size {
      DivisionUnique(total + n, size, q, at + n);
    } else {
      assert (q + 1) * size == q * size + size;
      DivisionUnique(total + n, size, q + 1, 0);
    }
  }
}
