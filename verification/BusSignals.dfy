/** The wired-OR signals of the generic bus.  Each connection has a bitmap of the
    signals it asserts, the bus an array counting, for each signal, how many do; an
    edge goes to the other connections when the OR of all of them changes. */
module BusSignals {

  // ---------------------------------------------------------------- signals and bitmaps

  const SIGNAL_UNIT := 32
  const SIGNAL_EDGE := 4
  const SIGNALS_INT := 256
  const SIGNALS_GENERIC := 384
  const SIGNAL_INT_UNSPEC := 256 * 32

  /** The signal of a signal word, without its level and edge. */
  function Which(x: nat): nat { x - x % SIGNAL_UNIT }

  function Index(x: nat): nat { x / SIGNAL_UNIT }

  datatype Level = Low | High | Negated | Asserted

  function LevelOf(x: nat): Level {
    if x % 4 == 0 then Low else if x % 4 == 1 then High else if x % 4 == 2 then Negated else Asserted
  }

  predicate HasEdge(x: nat) { x / SIGNAL_EDGE % 2 == 1 }

  function Code(level: Level): nat {
    match level
    case Low => 0
    case High => 1
    case Negated => 2
    case Asserted => 3
  }

  /** The word for an edge of a signal, as a device writes it. */
  function WordOf(index: nat, level: Level, edge: bool): nat {
    SIGNAL_UNIT * index + Code(level) + if edge then SIGNAL_EDGE else 0
  }

  lemma Quotient(x: nat, d: nat, q: nat, r: nat)
    requires d == 4 || d == SIGNAL_UNIT
    requires x == d * q + r && r < d
    ensures x / d == q && x % d == r
  {
  }

  lemma LowBits(index: nat, low: nat)
    requires low < 8
    ensures var x := SIGNAL_UNIT * index + low;
      && x / SIGNAL_UNIT == index && x % SIGNAL_UNIT == low
      && x % 4 == low % 4 && x / SIGNAL_EDGE == 8 * index + low / 4
  {
    Quotient(SIGNAL_UNIT * index + low, SIGNAL_UNIT, index, low);
    Quotient(SIGNAL_UNIT * index + low, 4, 8 * index + low / 4, low % 4);
  }

  /** A signal word is read back as it was written. */
  lemma WordReads(index: nat, level: Level, edge: bool)
    ensures var word := WordOf(index, level, edge);
      && Index(word) == index && Which(word) == SIGNAL_UNIT * index && LevelOf(word) == level && HasEdge(word) == edge
      && word % SIGNAL_UNIT == word - SIGNAL_UNIT * index
  {
    var low := Code(level) + if edge then SIGNAL_EDGE else 0;
    LowBits(index, low);
    assert low % 4 == Code(level) && low / 4 == if edge then 1 else 0;
    var word := WordOf(index, level, edge);
    assert word == SIGNAL_UNIT * index + low;
  }

  /** The bytes of a bitmap: the fewest that hold a bit for each signal. */
  function BitBytes(count: nat): (bytes: nat)
    ensures 8 * bytes - 8 < count <= 8 * bytes
  {
    (count + 7) / 8
  }

  /** A byte with bit `k` set. */
  function Mask(k: nat): bv8 {
    if k == 0 then 1 else if k == 1 then 2 else if k == 2 then 4 else if k == 3 then 8
    else if k == 4 then 16 else if k == 5 then 32 else if k == 6 then 64 else 128
  }

  predicate HasBit(b: bv8, k: nat) { b & Mask(k) != 0 }

  function WithBit(b: bv8, k: nat): bv8 { b | Mask(k) }

  function WithoutBit(b: bv8, k: nat): bv8 { b & !Mask(k) }

  lemma BitOps(b: bv8, k: nat, j: nat)
    requires k < 8 && j < 8
    ensures HasBit(WithBit(b, k), j) <==> j == k || HasBit(b, j)
    ensures HasBit(WithoutBit(b, k), j) <==> j != k && HasBit(b, j)
    ensures !HasBit(0, j)
  {
  }

  /** Bit `i` of a bitmap; there is none past its end. */
  predicate Bit(bits: seq<bv8>, i: nat) {
    i / 8 < |bits| && HasBit(bits[i / 8], i % 8)
  }

  function SetBit(bits: seq<bv8>, i: nat, on: bool): seq<bv8>
    requires i / 8 < |bits|
  {
    bits[i / 8 := if on then WithBit(bits[i / 8], i % 8) else WithoutBit(bits[i / 8], i % 8)]
  }

  lemma SetBitAt(bits: seq<bv8>, i: nat, on: bool, j: nat)
    requires i / 8 < |bits|
    ensures Bit(SetBit(bits, i, on), j) <==> if j == i then on else Bit(bits, j)
  {
    hide HasBit, WithBit, WithoutBit;
    if j / 8 == i / 8 {
      BitOps(bits[i / 8], i % 8, j % 8);
      assert j == i <==> j % 8 == i % 8;
    }
  }

  function Zeros(n: nat): (z: seq<bv8>)
    ensures |z| == n
  {
    seq(n, _ => 0)
  }

  lemma ZerosExtend(bits: seq<bv8>, n: nat, j: nat)
    ensures Bit(bits + Zeros(n), j) == Bit(bits, j)
  {
    hide HasBit;
    if |bits| <= j / 8 < |bits| + n { BitOps(0, 0, j % 8); }
  }

  // ---------------------------------------------------------------- the bus

  /** A connection: the interrupt signal and vector it was configured with, which
      handlers the other side has, and the bitmap of the signals it asserts. */
  datatype Connection = Connection(signalInt: nat, vectorInt: int, hasSignal: bool, hasIntack: bool, signals: seq<bv8>)

  /** A set of signals: `first` is a signal word, `current` and `age` its version. */
  datatype SignalSet = SignalSet(id: nat, current: nat, age: nat, count: nat, first: nat)

  /** An edge given to a connection. */
  datatype Edge = Edge(to: nat, signal: nat)

  datatype ReturnCode = Ok | Einval | Edeadlk

  /** The bus: the list of full connections, latest first, all connections by
      number, the assert counts, the signal sets, and the edges given so far. */
  datatype Bus = Bus(list: seq<nat>, connections: map<nat, Connection>, asserts: seq<nat>, sets: seq<SignalSet>, edges: seq<Edge>)
  {
    function Signals(c: nat): seq<bv8> { if c in connections then connections[c].signals else [] }

    predicate Asserting(c: nat, i: nat) { Bit(Signals(c), i) }

    /** The OR over all connections on the list. */
    predicate Line(i: nat) { exists k :: 0 <= k < |list| && Asserting(list[k], i) }
  }

  const GENERIC := SignalSet(0, 0, 0, SIGNALS_GENERIC, 0)

  function Initial(): Bus {
    Bus([], map[], seq(SIGNALS_GENERIC, _ => 0), [GENERIC], [])
  }

  /** How many signals the sets hold: one past the index of the last. */
  function Total(sets: seq<SignalSet>): nat {
    if sets == [] then 0 else Index(sets[|sets| - 1].first) + sets[|sets| - 1].count
  }

  /** Each set begins where the one before ends: the index ranges tile [0, total). */
  predicate Tiled(sets: seq<SignalSet>) {
    forall k :: 0 <= k < |sets| ==>
      && sets[k].first == SIGNAL_UNIT * Total(sets[..k])
      && sets[k].count > 0 && sets[k].age <= sets[k].current
  }

  /** How many of the connections assert a signal. */
  function Count(b: Bus, list: seq<nat>, i: nat): nat {
    if list == [] then 0 else (if b.Asserting(list[0], i) then 1 else 0) + Count(b, list[1..], i)
  }

  predicate NoDuplicates(list: seq<nat>) {
    forall i, j :: 0 <= i < j < |list| ==> list[i] != list[j]
  }

  ghost predicate Inv(b: Bus) {
    && Tiled(b.sets) && b.sets != []
    && NoDuplicates(b.list)
    && |b.asserts| == Total(b.sets)
    && (forall k :: 0 <= k < |b.list| ==> b.list[k] in b.connections)
    && (forall k {:trigger b.list[k]} :: 0 <= k < |b.list| ==>
          && |b.Signals(b.list[k])| == BitBytes(|b.asserts|)
          && forall i :: |b.asserts| <= i ==> !b.Asserting(b.list[k], i))
    && (forall i :: 0 <= i < |b.asserts| ==> b.asserts[i] == Count(b, b.list, i))
  }

  // ---------------------------------------------------------------- counting

  lemma {:induction false} CountIsLine(b: Bus, list: seq<nat>, i: nat)
    ensures Count(b, list, i) > 0 <==> exists k :: 0 <= k < |list| && b.Asserting(list[k], i)
  {
    if list != [] {
      CountIsLine(b, list[1..], i);
      assert forall k :: 0 <= k < |list| - 1 ==> list[1..][k] == list[k + 1];
      if Count(b, list[1..], i) > 0 {
        var k :| 0 <= k < |list[1..]| && b.Asserting(list[1..][k], i);
        assert b.Asserting(list[k + 1], i);
      }
    }
  }

  /** Connections that assert a signal alike are counted alike. */
  lemma {:induction false} CountAlike(b: Bus, b': Bus, list: seq<nat>, i: nat, j: nat)
    requires forall k :: 0 <= k < |list| ==> b'.Asserting(list[k], j) == b.Asserting(list[k], i)
    ensures Count(b', list, j) == Count(b, list, i)
  {
    if list != [] {
      assert forall k :: 0 <= k < |list| - 1 ==> list[1..][k] == list[k + 1];
      CountAlike(b, b', list[1..], i, j);
    }
  }

  /** When one connection of the list changes, the count changes by one. */
  lemma {:induction false} CountChanges(b: Bus, b': Bus, list: seq<nat>, c: nat, i: nat)
    requires NoDuplicates(list) && c in list && b'.Asserting(c, i) != b.Asserting(c, i)
    requires forall d :: d != c ==> b'.Asserting(d, i) == b.Asserting(d, i)
    ensures Count(b', list, i) == Count(b, list, i) + if b'.Asserting(c, i) then 1 else -1
  {
    hide Bus.Asserting;
    assert list == [list[0]] + list[1..];
    assert forall k :: 0 <= k < |list| - 1 ==> list[1..][k] == list[k + 1];
    if list[0] == c {
      CountAlike(b, b', list[1..], i, i);
    } else {
      assert c in list[1..];
      CountChanges(b, b', list[1..], c, i);
    }
  }

  // ---------------------------------------------------------------- an edge

  /** The signal an edge is for: a device that does not know its interrupt signal
      has the one its connection was configured with. */
  function Resolve(b: Bus, c: nat, word: nat): nat {
    if Which(word) == SIGNAL_INT_UNSPEC && c in b.connections then b.connections[c].signalInt else Which(word)
  }

  /** One connection starts or stops asserting a signal. */
  function Change(b: Bus, c: nat, i: nat, on: bool): Bus
    requires c in b.connections && i / 8 < |b.Signals(c)| && i < |b.asserts|
  {
    var conn := b.connections[c];
    var n := b.asserts[i];
    b.(connections := b.connections[c := conn.(signals := SetBit(conn.signals, i, on))],
       asserts := b.asserts[i := if on then n + 1 else if n > 0 then n - 1 else 0])
  }

  /** The connections an edge is given to: all that care but the one it is from. */
  predicate Hears(b: Bus, c: nat, edger: nat) {
    c != edger && c in b.connections && b.connections[c].hasSignal
  }

  function Broadcast(b: Bus, list: seq<nat>, edger: nat, signal: nat): seq<Edge> {
    if list == [] then []
    else (if Hears(b, list[0], edger) then [Edge(list[0], signal)] else []) + Broadcast(b, list[1..], edger, signal)
  }

  /** Some connection an edge is given to answers that it would deadlock. */
  predicate Deadlocks(b: Bus, list: seq<nat>, edger: nat, deadlocked: set<nat>) {
    exists k :: 0 <= k < |list| && Hears(b, list[k], edger) && list[k] in deadlocked
  }

  /** What an edge does to the bitmap of its connection and to the counts. */
  function Register(b: Bus, c: nat, i: nat, on: bool): Bus
    requires c in b.connections && i / 8 < |b.Signals(c)| && i < |b.asserts|
  {
    if b.Asserting(c, i) != on then Change(b, c, i, on) else b
  }

  /** Whether it goes to the other connections. */
  predicate Propagates(b: Bus, c: nat, i: nat, on: bool, edge: bool)
    requires c in b.connections && i / 8 < |b.Signals(c)| && i < |b.asserts|
  {
    var n := Register(b, c, i, on).asserts[i];
    if on then !b.Asserting(c, i) && n == 1
    else (b.Asserting(c, i) || edge) && n == 0
  }

  datatype SignalResult = SignalResult(bus: Bus, rc: ReturnCode)

  /** Gives an edge to the other connections. */
  function Tell(b: Bus, c: nat, signal: nat, deadlocked: set<nat>): SignalResult {
    SignalResult(b.(edges := b.edges + Broadcast(b, b.list, c, signal)),
                 if Deadlocks(b, b.list, c, deadlocked) then Edeadlk else Ok)
  }

  /** An edge whose signal is known; the word has its level and edge. */
  function Raise(b: Bus, c: nat, signal: nat, word: nat, deadlocked: set<nat>): SignalResult
    requires c in b.connections && Index(signal) / 8 < |b.Signals(c)| && Index(signal) < |b.asserts|
  {
    var i, on := Index(signal), LevelOf(word).Asserted?;
    var b1 := Register(b, c, i, on);
    if Propagates(b, c, i, on, HasEdge(word)) then Tell(b1, c, signal + word % SIGNAL_UNIT, deadlocked)
    else SignalResult(b1, Ok)
  }

  function Signal(b: Bus, c: nat, word: nat, deadlocked: set<nat>): SignalResult
    requires c in b.connections
    requires var i := Index(Resolve(b, c, word)); i / 8 < |b.Signals(c)| && i < |b.asserts|
  {
    Raise(b, c, Resolve(b, c, word), word, deadlocked)
  }

  /** A device can signal: its connection is full, its interrupt signal is known, the
      signal is one of the bus's, and the word says whether it is asserted or negated. */
  ghost predicate CanSignal(b: Bus, c: nat, word: nat) {
    && c in b.list
    && Resolve(b, c, word) != SIGNAL_INT_UNSPEC
    && Index(Resolve(b, c, word)) < |b.asserts|
    && (LevelOf(word).Asserted? || LevelOf(word).Negated?)
  }

  lemma InBitmap(b: Bus, c: nat, i: nat)
    requires Inv(b) && c in b.list && i < |b.asserts|
    ensures c in b.connections && i / 8 < |b.Signals(c)|
  {
    var k :| 0 <= k < |b.list| && b.list[k] == c;
  }

  lemma ChangeAt(b: Bus, c: nat, i: nat, on: bool, d: nat, j: nat)
    requires c in b.connections && i / 8 < |b.Signals(c)| && i < |b.asserts|
    ensures Change(b, c, i, on).Asserting(d, j) == if d == c && j == i then on else b.Asserting(d, j)
    ensures |Change(b, c, i, on).Signals(d)| == |b.Signals(d)|
  {
    hide Bit;
    SetBitAt(b.connections[c].signals, i, on, j);
  }

  /** A change of one connection keeps the counts exact and changes nothing else. */
  lemma ChangeKeeps(b: Bus, c: nat, i: nat, on: bool)
    requires Inv(b) && c in b.list && i < |b.asserts| && c in b.connections && i / 8 < |b.Signals(c)|
    requires b.Asserting(c, i) != on
    ensures Inv(Change(b, c, i, on))
    ensures b.asserts[i] > 0 || on
  {
    hide Bit, SetBit, Tiled, NoDuplicates, BitBytes;
    var b' := Change(b, c, i, on);
    forall d, j
      ensures b'.Asserting(d, j) == if d == c && j == i then on else b.Asserting(d, j)
      ensures |b'.Signals(d)| == |b.Signals(d)|
    {
      ChangeAt(b, c, i, on, d, j);
    }
    hide Bus.Asserting;
    CountChanges(b, b', b.list, c, i);
    forall j | 0 <= j < |b'.asserts| && j != i ensures b'.asserts[j] == Count(b', b.list, j) {
      CountAlike(b, b', b.list, j, j);
    }
  }

  lemma LineIsCount(b: Bus, i: nat)
    requires Inv(b) && i < |b.asserts|
    ensures b.Line(i) <==> b.asserts[i] > 0
  {
    hide Bus.Asserting;
    CountIsLine(b, b.list, i);
  }

  /** Every connection is wired as it was: only what it asserts may differ. */
  ghost predicate SameWiring(b: Bus, b': Bus) {
    && b'.connections.Keys == b.connections.Keys
    && forall d :: d in b.connections ==> b'.connections[d].(signals := b.connections[d].signals) == b.connections[d]
  }

  /** Nothing differs but whether one connection asserts one signal. */
  ghost predicate OnlyChanged(b: Bus, b': Bus, c: nat, i: nat, on: bool) {
    && SameWiring(b, b')
    && (forall d, j :: b'.Asserting(d, j) == if d == c && j == i then on else b.Asserting(d, j))
    && b'.list == b.list && b'.sets == b.sets
  }

  /** An edge: its connection asserts or negates the signal, no connection changes
      otherwise, and the other connections hear of it exactly when the line changes,
      or when it is a negating edge on a line nobody asserts. */
  lemma SignalKeeps(b: Bus, c: nat, word: nat, deadlocked: set<nat>)
    requires Inv(b) && CanSignal(b, c, word)
    ensures c in b.connections && var i := Index(Resolve(b, c, word)); i / 8 < |b.Signals(c)| && i < |b.asserts|
    ensures var signal := Resolve(b, c, word);
      var i, on := Index(signal), LevelOf(word).Asserted?;
      var SignalResult(b', rc) := Signal(b, c, word, deadlocked);
      var told := b'.Line(i) != b.Line(i) || (!on && HasEdge(word) && !b.Line(i));
      && Inv(b') && OnlyChanged(b, b', c, i, on)
      && b'.edges == b.edges + (if told then Broadcast(b, b.list, c, signal + word % SIGNAL_UNIT) else [])
      && rc == if told && Deadlocks(b, b.list, c, deadlocked) then Edeadlk else Ok
  {
    hide Bus.Line, Inv, Propagates, Register, Broadcast, Resolve, Index, LevelOf, HasEdge, Deadlocks, OnlyChanged, Hears;
    var signal := Resolve(b, c, word);
    var i, on := Index(signal), LevelOf(word).Asserted?;
    InBitmap(b, c, i);
    var b1 := Register(b, c, i, on);
    RegisterKeeps(b, c, i, on);
    PropagatesIffLineChanges(b, c, i, on, HasEdge(word));
    BroadcastAlike(b, b1, b.list, c, signal + word % SIGNAL_UNIT);
    DeadlocksAlike(b, b1, b.list, c, deadlocked);
    EdgesKeep(b, b1, b1.edges + Broadcast(b1, b1.list, c, signal + word % SIGNAL_UNIT), c, i, on);
    assert b.edges + [] == b.edges;
  }

  lemma EdgesKeep(b0: Bus, b: Bus, edges: seq<Edge>, c: nat, i: nat, on: bool)
    requires Inv(b) && OnlyChanged(b0, b, c, i, on)
    ensures var b' := b.(edges := edges);
      Inv(b') && OnlyChanged(b0, b', c, i, on) && forall j :: b'.Line(j) == b.Line(j)
  {
    hide Bit, Tiled, NoDuplicates, BitBytes;
    var b' := b.(edges := edges);
    assert forall d, j :: b'.Asserting(d, j) == b.Asserting(d, j);
    assert forall d :: b'.Signals(d) == b.Signals(d);
    hide Bus.Asserting;
    forall i | 0 <= i < |b.asserts| ensures Count(b', b.list, i) == Count(b, b.list, i) {
      CountAlike(b, b', b.list, i, i);
    }
  }

  lemma RegisterKeeps(b: Bus, c: nat, i: nat, on: bool)
    requires Inv(b) && c in b.list && i < |b.asserts| && c in b.connections && i / 8 < |b.Signals(c)|
    ensures var b' := Register(b, c, i, on);
      && Inv(b') && b'.list == b.list && b'.edges == b.edges && |b'.asserts| == |b.asserts|
      && OnlyChanged(b, b', c, i, on)
      && (forall d :: Hears(b', d, c) == Hears(b, d, c))
  {
    hide Bit, SetBit, Inv;
    if b.Asserting(c, i) != on {
      ChangeKeeps(b, c, i, on);
      forall d, j ensures Change(b, c, i, on).Asserting(d, j) == if d == c && j == i then on else b.Asserting(d, j) {
        ChangeAt(b, c, i, on, d, j);
      }
    }
  }

  lemma PropagatesIffLineChanges(b: Bus, c: nat, i: nat, on: bool, edge: bool)
    requires Inv(b) && c in b.list && i < |b.asserts| && c in b.connections && i / 8 < |b.Signals(c)|
    ensures Propagates(b, c, i, on, edge) <==>
      Register(b, c, i, on).Line(i) != b.Line(i) || (!on && edge && !b.Line(i))
  {
    hide Bit, SetBit, Inv;
    RegisterKeeps(b, c, i, on);
    LineIsCount(b, i);
    LineIsCount(Register(b, c, i, on), i);
    if b.Asserting(c, i) {
      ListedLine(b, c, i);
    }
  }

  lemma ListedLine(b: Bus, c: nat, i: nat)
    requires c in b.list && b.Asserting(c, i)
    ensures b.Line(i)
  {
    var k :| 0 <= k < |b.list| && b.list[k] == c;
  }

  lemma {:induction false} BroadcastAlike(b: Bus, b': Bus, list: seq<nat>, edger: nat, signal: nat)
    requires forall d :: Hears(b', d, edger) == Hears(b, d, edger)
    ensures Broadcast(b', list, edger, signal) == Broadcast(b, list, edger, signal)
  {
    if list != [] { BroadcastAlike(b, b', list[1..], edger, signal); }
  }

  lemma DeadlocksAlike(b: Bus, b': Bus, list: seq<nat>, edger: nat, deadlocked: set<nat>)
    requires forall d :: Hears(b', d, edger) == Hears(b, d, edger)
    ensures Deadlocks(b', list, edger, deadlocked) == Deadlocks(b, list, edger, deadlocked)
  {
  }

  /** An edge that is broadcast is given, once and in the order of the list, to every
      connection that hears it. */
  lemma {:induction false} BroadcastMeaning(b: Bus, list: seq<nat>, edger: nat, signal: nat)
    requires NoDuplicates(list)
    ensures var edges := Broadcast(b, list, edger, signal);
      && (forall e :: e in edges <==>
            e.signal == signal && e.to in list && e.to != edger && e.to in b.connections && b.connections[e.to].hasSignal)
      && (forall i, j :: 0 <= i < j < |edges| ==> edges[i] != edges[j])
  {
    if list != [] {
      var rest := list[1..];
      assert list == [list[0]] + rest;
      assert forall k :: 0 <= k < |rest| ==> rest[k] == list[k + 1];
      assert list[0] !in rest;
      BroadcastMeaning(b, rest, edger, signal);
    }
  }

  /** The edges given since: one with this word to each other connection of the list that
      has a signal handler, or none if they are not told. */
  ghost predicate Given(b: Bus, edges: seq<Edge>, edger: nat, word: nat, told: bool) {
    && b.edges <= edges
    && (forall e :: e in edges[|b.edges|..] <==>
          && told && e.signal == word && e.to in b.list && e.to != edger
          && e.to in b.connections && b.connections[e.to].hasSignal)
    && (forall j, k :: |b.edges| <= j < k < |edges| ==> edges[j] != edges[k])
  }

  lemma BroadcastGiven(b: Bus, edger: nat, word: nat, told: bool)
    requires NoDuplicates(b.list)
    ensures Given(b, b.edges + (if told then Broadcast(b, b.list, edger, word) else []), edger, word, told)
  {
    BroadcastMeaning(b, b.list, edger, word);
    var more := if told then Broadcast(b, b.list, edger, word) else [];
    assert (b.edges + more)[|b.edges|..] == more;
  }

  /** The signal an edge of this number from a connection is for. */
  function SignalFor(b: Bus, c: nat, index: nat): nat
    requires c in b.connections
  {
    if index == SIGNALS_INT then b.connections[c].signalInt else SIGNAL_UNIT * index
  }

  lemma WordResolves(b: Bus, c: nat, index: nat, level: Level, edge: bool)
    requires c in b.connections
    ensures Resolve(b, c, WordOf(index, level, edge)) == SignalFor(b, c, index)
  {
    hide Which;
    WordReads(index, level, edge);
  }

  /** An edge of a signal by its number, or of the interrupt signal the connection was
      configured with, in terms of what the connections assert: the others that have a
      signal handler are told, each once, of an edge that changes the line, or negates a
      line nobody asserts, and any of them can answer that it would deadlock. */
  lemma EdgeMeaning(b: Bus, c: nat, index: nat, on: bool, edge: bool, deadlocked: set<nat>)
    requires Inv(b) && c in b.list && c in b.connections
    requires SignalFor(b, c, index) != SIGNAL_INT_UNSPEC && SignalFor(b, c, index) / SIGNAL_UNIT < |b.asserts|
    ensures var word := WordOf(index, if on then Asserted else Negated, edge);
      var i := SignalFor(b, c, index) / SIGNAL_UNIT;
      && CanSignal(b, c, word) && InBounds(b, c, word)
      && var SignalResult(b', rc) := Signal(b, c, word, deadlocked);
         var told := b'.Line(i) != b.Line(i) || (!on && edge && !b.Line(i));
         && OnlyChanged(b, b', c, i, on)
         && Given(b, b'.edges, c, SignalFor(b, c, index) + (if on then 3 else 2) + (if edge then 4 else 0), told)
         && rc == if told && SomeoneDeadlocks(b, c, deadlocked) then Edeadlk else Ok
  {
    hide Bus.Line, OnlyChanged, Signal, Broadcast, WordOf, Inv, Given, Resolve, LevelOf, HasEdge, Which, SignalFor, Deadlocks, SomeoneDeadlocks;
    var level := if on then Asserted else Negated;
    var word := WordOf(index, level, edge);
    WordReads(index, level, edge);
    WordLow(index, level, edge);
    WordResolves(b, c, index, level, edge);
    InBitmap(b, c, SignalFor(b, c, index) / SIGNAL_UNIT);
    SignalKeeps(b, c, word, deadlocked);
    ListDiffers(b);
    BroadcastGiven(b, c, SignalFor(b, c, index) + word % SIGNAL_UNIT, true);
    BroadcastGiven(b, c, SignalFor(b, c, index) + word % SIGNAL_UNIT, false);
    DeadlocksMeaning(b, c, deadlocked);
  }

  lemma ListDiffers(b: Bus)
    requires Inv(b)
    ensures NoDuplicates(b.list)
  {
  }

  lemma WordLow(index: nat, level: Level, edge: bool)
    ensures WordOf(index, level, edge) - SIGNAL_UNIT * index == Code(level) + if edge then 4 else 0
  {
  }

  ghost predicate SomeoneDeadlocks(b: Bus, edger: nat, deadlocked: set<nat>) {
    exists d :: d in b.list && d != edger && d in b.connections && b.connections[d].hasSignal && d in deadlocked
  }

  lemma DeadlocksMeaning(b: Bus, edger: nat, deadlocked: set<nat>)
    ensures Deadlocks(b, b.list, edger, deadlocked) <==> SomeoneDeadlocks(b, edger, deadlocked)
  {
    if SomeoneDeadlocks(b, edger, deadlocked) {
      var d :| d in b.list && d != edger && d in b.connections && b.connections[d].hasSignal && d in deadlocked;
      var k :| 0 <= k < |b.list| && b.list[k] == d;
      assert Hears(b, b.list[k], edger);
    }
  }

  // ---------------------------------------------------------------- adding signal sets

  /** The sets are the same kind of signals, and their versions overlap. */
  predicate Matches(a: SignalSet, s: SignalSet) {
    a.id == s.id && s.current >= a.current - a.age && a.current >= s.current - s.age
  }

  function Find(sets: seq<SignalSet>, s: SignalSet): (i: nat)
    ensures i <= |sets|
  {
    if sets == [] then 0 else if Matches(sets[0], s) then 0 else 1 + Find(sets[1..], s)
  }

  function Longer(conn: Connection, n: nat): Connection {
    conn.(signals := conn.signals + Zeros(n))
  }

  /** Every connection on a list gets a longer bitmap. */
  function Extend(connections: map<nat, Connection>, list: seq<nat>, n: nat): map<nat, Connection> {
    map c | c in connections :: if c in list then Longer(connections[c], n) else connections[c]
  }

  /** The bus with room for `n` more signals, which nobody asserts. */
  function Grow(b: Bus, n: nat, sets: seq<SignalSet>): Bus {
    var total := |b.asserts|;
    Bus(b.list, Extend(b.connections, b.list, BitBytes(total + n) - BitBytes(total)), b.asserts + seq(n, _ => 0), sets, b.edges)
  }

  /** What adding a set leaves, answers and returns. */
  datatype AddResult = AddResult(bus: Bus, rc: ReturnCode, s: SignalSet)

  function AddNew(b: Bus, s: SignalSet): AddResult {
    var s' := s.(first := SIGNAL_UNIT * Total(b.sets));
    AddResult(Grow(b, s.count, b.sets + [s']), Ok, s')
  }

  function AddFound(b: Bus, s: SignalSet, i: nat): AddResult
    requires i < |b.sets|
  {
    if b.sets[i].current - b.sets[i].age != s.current - s.age then AddResult(b, Einval, s)
    else
      var found := if s.current > b.sets[i].current then b.sets[i].(current := s.current, age := s.age) else b.sets[i];
      AddResult(b.(sets := b.sets[i := found]), Ok, found)
  }

  function Add(b: Bus, s: SignalSet): AddResult {
    var i := Find(b.sets, s);
    if i == |b.sets| then AddNew(b, s) else AddFound(b, s, i)
  }

  predicate WellFormed(s: SignalSet) { s.count > 0 && s.age <= s.current }

  /** What is asked of a set that is offered: its version makes sense and, if it
      matches none that is there, it has signals. */
  predicate Addable(b: Bus, s: SignalSet) {
    s.age <= s.current && (Find(b.sets, s) == |b.sets| ==> s.count > 0)
  }

  lemma TotalAppend(sets: seq<SignalSet>, s: SignalSet)
    requires s.first == SIGNAL_UNIT * Total(sets)
    ensures Total(sets + [s]) == Total(sets) + s.count
  {
    assert SIGNAL_UNIT * Total(sets) / SIGNAL_UNIT == Total(sets);
  }

  lemma TiledAppend(sets: seq<SignalSet>, s: SignalSet)
    requires Tiled(sets) && WellFormed(s) && s.first == SIGNAL_UNIT * Total(sets)
    ensures Tiled(sets + [s])
  {
    hide Total;
    forall k | 0 <= k < |sets| ensures (sets + [s])[..k] == sets[..k] {
    }
    assert (sets + [s])[..|sets|] == sets;
  }

  /** Only the version of a set changes: the ranges are the same. */
  lemma TotalUpdate(sets: seq<SignalSet>, i: nat, found: SignalSet, k: nat)
    requires i < |sets| && found.first == sets[i].first && found.count == sets[i].count && k <= |sets|
    ensures Total(sets[i := found][..k]) == Total(sets[..k])
  {
    hide Index;
    if k > 0 {
      assert sets[i := found][..k][k - 1] == sets[i := found][k - 1] && sets[..k][k - 1] == sets[k - 1];
    }
  }

  lemma TiledUpdate(sets: seq<SignalSet>, i: nat, found: SignalSet)
    requires Tiled(sets) && i < |sets|
    requires WellFormed(found) && found.first == sets[i].first && found.count == sets[i].count
    ensures Tiled(sets[i := found]) && Total(sets[i := found]) == Total(sets)
  {
    hide Total;
    forall k | 0 <= k <= |sets| ensures Total(sets[i := found][..k]) == Total(sets[..k]) {
      TotalUpdate(sets, i, found, k);
    }
    assert sets[i := found][..|sets|] == sets[i := found] && sets[..|sets|] == sets;
  }

  lemma ExtendAt(b: Bus, n: nat, asserts: seq<nat>, sets: seq<SignalSet>, c: nat, j: nat)
    ensures var b' := Bus(b.list, Extend(b.connections, b.list, n), asserts, sets, b.edges);
      && b'.Asserting(c, j) == b.Asserting(c, j)
      && |b'.Signals(c)| == |b.Signals(c)| + if c in b.list && c in b.connections then n else 0
  {
    ZerosExtend(b.Signals(c), n, j);
  }

  /** Every existing signal is as it was: its place, its count and who asserts it. */
  ghost predicate Extends(b: Bus, b': Bus) {
    && SameWiring(b, b')
    && (forall c, j :: b'.Asserting(c, j) == b.Asserting(c, j))
    && |b.sets| <= |b'.sets|
    && (forall k :: 0 <= k < |b.sets| ==> b'.sets[k].first == b.sets[k].first && b'.sets[k].count == b.sets[k].count)
    && b.asserts <= b'.asserts && b'.list == b.list && b'.edges == b.edges
  }

  /** Adding a set keeps the ranges tiling and every existing signal as it was. */
  lemma AddKeeps(b: Bus, s: SignalSet)
    requires Inv(b) && Addable(b, s)
    ensures var r := Add(b, s);
      && Inv(r.bus) && Extends(b, r.bus)
      && (r.rc == Ok ==> r.s in r.bus.sets && r.s.id == s.id)
      && (r.rc != Ok ==> r.bus == b)
  {
    FindFound(b.sets, s);
    var i := Find(b.sets, s);
    FoundWellFormed(b, i);
    hide Total, Find, Extend, BitBytes, Inv, Tiled, Extends;
    if i == |b.sets| {
      AddNewKeeps(b, s);
    } else {
      var found := if s.current > b.sets[i].current then b.sets[i].(current := s.current, age := s.age) else b.sets[i];
      TiledUpdate(b.sets, i, found);
      SetsKeep(b, b.sets[i := found]);
      ExtendsSame(b);
    }
  }

  lemma ExtendsSame(b: Bus)
    ensures Extends(b, b)
  {
  }

  lemma AddNewKeeps(b: Bus, s: SignalSet)
    requires Inv(b) && WellFormed(s) && Find(b.sets, s) == |b.sets|
    ensures var r := AddNew(b, s);
      Inv(r.bus) && Extends(b, r.bus) && r.rc == Ok && r.s in r.bus.sets && r.s.id == s.id
  {
    FoundWellFormed(b, 0);
    hide Total, Find, Grow, Inv, Tiled, Extends;
    var s' := s.(first := SIGNAL_UNIT * Total(b.sets));
    TotalAppend(b.sets, s');
    TiledAppend(b.sets, s');
    AppendKeeps(b, s.count, b.sets + [s']);
    assert s' in b.sets + [s'];
  }

  lemma FoundWellFormed(b: Bus, i: nat)
    requires Inv(b)
    ensures Tiled(b.sets) && b.sets != [] && Total(b.sets) == |b.asserts|
    ensures i < |b.sets| ==> WellFormed(b.sets[i])
  {
  }

  lemma FindFound(sets: seq<SignalSet>, s: SignalSet)
    ensures var i := Find(sets, s);
      && (i < |sets| ==> Matches(sets[i], s))
      && forall k :: 0 <= k < i ==> !Matches(sets[k], s)
  {
    hide Matches;
    if sets != [] && !Matches(sets[0], s) {
      FindFound(sets[1..], s);
      assert forall k :: 0 <= k < |sets| - 1 ==> sets[1..][k] == sets[k + 1];
      var i := Find(sets[1..], s);
      forall k | 0 <= k < i + 1 ensures !Matches(sets[k], s) {
        if k > 0 { assert sets[k] == sets[1..][k - 1]; }
      }
    }
  }

  lemma SetsKeep(b: Bus, sets: seq<SignalSet>)
    requires Inv(b) && Tiled(sets) && sets != [] && Total(sets) == Total(b.sets)
    requires |sets| == |b.sets| && forall k :: 0 <= k < |sets| ==> sets[k].first == b.sets[k].first && sets[k].count == b.sets[k].count
    ensures Inv(b.(sets := sets)) && Extends(b, b.(sets := sets))
  {
    hide Bit, Tiled, NoDuplicates, BitBytes, Total;
    var b' := b.(sets := sets);
    assert forall d, j :: b'.Asserting(d, j) == b.Asserting(d, j);
    assert forall d :: b'.Signals(d) == b.Signals(d);
    hide Bus.Asserting;
    forall i | 0 <= i < |b.asserts| ensures Count(b', b.list, i) == Count(b, b.list, i) {
      CountAlike(b, b', b.list, i, i);
    }
  }

  lemma AppendKeeps(b: Bus, n: nat, sets: seq<SignalSet>)
    requires Inv(b) && n > 0 && Tiled(sets) && |sets| > |b.sets| && Total(sets) == Total(b.sets) + n
    requires sets[..|b.sets|] == b.sets
    ensures Inv(Grow(b, n, sets)) && Extends(b, Grow(b, n, sets))
  {
    hide Bit, Tiled, NoDuplicates, Total;
    var more := BitBytes(|b.asserts| + n) - BitBytes(|b.asserts|);
    var b' := Grow(b, n, sets);
    assert forall k :: 0 <= k < |b.sets| ==> sets[k] == sets[..|b.sets|][k];
    forall c, j
      ensures b'.Asserting(c, j) == b.Asserting(c, j)
      ensures |b'.Signals(c)| == |b.Signals(c)| + if c in b.list && c in b.connections then more else 0
    {
      ExtendAt(b, more, b'.asserts, sets, c, j);
    }
    hide Bus.Asserting, BitBytes, Bus.Signals;
    forall i | 0 <= i < |b'.asserts| ensures b'.asserts[i] == Count(b', b.list, i) {
      CountAlike(b, b', b.list, i, i);
      if i >= |b.asserts| { CountIsLine(b, b.list, i); }
    }
  }

  lemma {:induction false} FindAt(sets: seq<SignalSet>, s: SignalSet, i: nat)
    requires i < |sets| && Matches(sets[i], s) && forall k :: 0 <= k < i ==> !Matches(sets[k], s)
    ensures Find(sets, s) == i
  {
    hide Matches;
    if i > 0 {
      assert forall k :: 0 <= k < |sets| - 1 ==> sets[1..][k] == sets[k + 1];
      FindAt(sets[1..], s, i - 1);
    }
  }

  /** A set is of this version. */
  predicate Speaks(s: SignalSet, version: int) {
    s.current - s.age <= version <= s.current
  }

  lemma MatchesIff(a: SignalSet, s: SignalSet)
    requires a.age <= a.current && s.age <= s.current
    ensures Matches(a, s) <==> a.id == s.id && exists version :: Speaks(a, version) && Speaks(s, version)
  {
    if Matches(a, s) {
      var version := if a.current <= s.current then a.current else s.current;
      assert Speaks(a, version) && Speaks(s, version);
    }
  }

  /** What becomes of a set that is offered: with no set of its kind and of a version in
      common it is put after all the signals there are; else the first such set answers,
      which must go as far back and is made as new as the newer of them. */
  lemma AddMeaning(b: Bus, s: SignalSet, i: nat)
    requires Inv(b) && Addable(b, s) && i <= |b.sets|
    requires forall k :: 0 <= k < i ==> !Matches(b.sets[k], s)
    requires i < |b.sets| ==> Matches(b.sets[i], s)
    ensures var r := Add(b, s);
      if i == |b.sets| then
        && r.rc == Ok && r.s == s.(first := SIGNAL_UNIT * |b.asserts|)
        && r.bus.sets == b.sets + [r.s] && |r.bus.asserts| == |b.asserts| + s.count
      else
        var a := b.sets[i];
        if a.current - a.age != s.current - s.age then r == AddResult(b, Einval, s)
        else
          && r.rc == Ok && r.bus == b.(sets := b.sets[i := r.s])
          && r.s.id == a.id && r.s.first == a.first && r.s.count == a.count
          && forall version :: Speaks(r.s, version) <==> Speaks(a, version) || Speaks(s, version)
  {
    hide Total, Extend, BitBytes, Inv, Matches;
    FoundWellFormed(b, i);
    FindFound(b.sets, s);
    if i < |b.sets| {
      FindAt(b.sets, s, i);
    }
  }

  /** Adding the same set again finds it, and changes nothing. */
  lemma AddAgain(b: Bus, s: SignalSet)
    requires Inv(b) && Addable(b, s) && Add(b, s).rc == Ok
    ensures Add(Add(b, s).bus, s) == Add(b, s)
  {
    var r := Add(b, s);
    FindFound(b.sets, s);
    var i := Find(b.sets, s);
    AddedMatches(b, s);
    EarlierSame(b, s);
    hide Inv, Matches, Add;
    FindAt(r.bus.sets, s, i);
    AddFinds(r.bus, s, i);
  }

  lemma AddedMatches(b: Bus, s: SignalSet)
    requires Inv(b) && Addable(b, s) && Add(b, s).rc == Ok
    ensures var r := Add(b, s);
      var i := Find(b.sets, s);
      && i < |r.bus.sets| && r.bus.sets[i] == r.s && Matches(r.s, s)
      && s.current <= r.s.current && r.s.current - r.s.age == s.current - s.age
  {
    FindFound(b.sets, s);
    hide Total, Extend, BitBytes, Find, Inv;
  }

  lemma EarlierSame(b: Bus, s: SignalSet)
    ensures |b.sets| <= |Add(b, s).bus.sets|
    ensures forall k :: 0 <= k < Find(b.sets, s) ==> Add(b, s).bus.sets[k] == b.sets[k]
  {
    hide Total, Extend, BitBytes, Find, Matches;
  }

  /** A set that is there and at least as new is returned as it is. */
  lemma AddFinds(b: Bus, s: SignalSet, i: nat)
    requires Find(b.sets, s) == i < |b.sets|
    requires s.current <= b.sets[i].current && b.sets[i].current - b.sets[i].age == s.current - s.age
    ensures Add(b, s) == AddResult(b, Ok, b.sets[i])
  {
    hide Find, AddNew;
    assert b.sets[i := b.sets[i]] == b.sets;
  }

  // ---------------------------------------------------------------- connections

  /** A new full connection goes first on the list, asserting nothing. */
  function Make(b: Bus, c: nat, conn: Connection): Bus {
    b.(list := [c] + b.list, connections := b.connections[c := conn.(signals := Zeros(BitBytes(Total(b.sets))))])
  }

  lemma MakeKeeps(b: Bus, c: nat, conn: Connection)
    requires Inv(b) && c !in b.list
    ensures var b' := Make(b, c, conn);
      && Inv(b')
      && (forall d, j :: b'.Asserting(d, j) == (d != c && b.Asserting(d, j)))
      && b'.asserts == b.asserts && b'.edges == b.edges && b'.sets == b.sets
      && b'.list == [c] + b.list
      && b'.connections.Keys == b.connections.Keys + {c} && b'.connections[c].(signals := conn.signals) == conn
      && (forall d :: d in b.connections && d != c ==> b'.connections[d] == b.connections[d])
      && forall i: nat :: i < |b.asserts| ==> b'.Line(i) == b.Line(i)
  {
    var b' := Make(b, c, conn);
    forall j ensures !b'.Asserting(c, j) {
      ZerosExtend([], BitBytes(Total(b.sets)), j);
      assert [] + Zeros(BitBytes(Total(b.sets))) == Zeros(BitBytes(Total(b.sets)));
    }
    assert forall d, j :: d != c ==> b'.Asserting(d, j) == b.Asserting(d, j);
    assert forall d :: d != c ==> b'.Signals(d) == b.Signals(d);
    hide Bus.Asserting, Bit, Tiled, BitBytes, Total, Bus.Signals;
    assert forall k :: 0 < k < |b'.list| ==> b'.list[k] == b.list[k - 1];
    assert b'.list[1..] == b.list;
    assert forall k :: 0 <= k < |b.list| ==> b.list[k] != c;
    forall i | 0 <= i < |b.asserts| ensures b'.asserts[i] == Count(b', b'.list, i) && b'.Line(i) == b.Line(i) {
      CountAlike(b, b', b.list, i, i);
      CountIsLine(b, b.list, i);
      CountIsLine(b', b'.list, i);
    }
  }

  // ---------------------------------------------------------------- interrupt acknowledge

  /** The answer to an acknowledge: nobody asserts the signal, or the connection that
      answers gives its configured vector, or is asked for one itself. */
  datatype Acknowledge = Enoent | Vector(from: nat, vector: int) | Ask(asked: nat)

  function AnswerOf(b: Bus, c: nat): Acknowledge
    requires c in b.connections
  {
    if b.connections[c].hasIntack then Ask(c) else Vector(c, b.connections[c].vectorInt)
  }

  function Intack(b: Bus, list: seq<nat>, i: nat): Acknowledge
    requires forall k :: 0 <= k < |list| ==> list[k] in b.connections
  {
    if list == [] then Enoent
    else if b.Asserting(list[0], i) then AnswerOf(b, list[0])
    else Intack(b, list[1..], i)
  }

  /** The first of a list to assert a signal. */
  ghost predicate FirstAsserter(b: Bus, list: seq<nat>, i: nat, k: int) {
    0 <= k < |list| && b.Asserting(list[k], i) && forall j :: 0 <= j < k ==> !b.Asserting(list[j], i)
  }

  /** An acknowledge finds nobody iff the count is zero; otherwise the latest
      connection that asserts the signal answers. */
  lemma IntackKeeps(b: Bus, i: nat)
    requires Inv(b) && i < |b.asserts|
    ensures Intack(b, b.list, i) == Enoent <==> b.asserts[i] == 0
    ensures forall k :: FirstAsserter(b, b.list, i, k) ==> Intack(b, b.list, i) == AnswerOf(b, b.list[k])
  {
    hide Bus.Asserting;
    CountIsLine(b, b.list, i);
    IntackFirst(b, b.list, i);
  }

  lemma {:induction false} IntackFirst(b: Bus, list: seq<nat>, i: nat)
    requires forall k :: 0 <= k < |list| ==> list[k] in b.connections
    ensures Intack(b, list, i) == Enoent <==> forall k :: 0 <= k < |list| ==> !b.Asserting(list[k], i)
    ensures forall k :: FirstAsserter(b, list, i, k) ==> Intack(b, list, i) == AnswerOf(b, list[k])
  {
    hide Bus.Asserting;
    if list != [] {
      var rest := list[1..];
      assert forall k :: 0 <= k < |rest| ==> rest[k] == list[k + 1];
      if !b.Asserting(list[0], i) {
        IntackFirst(b, rest, i);
        forall k | FirstAsserter(b, list, i, k) ensures Intack(b, list, i) == AnswerOf(b, list[k]) {
          assert k > 0 && list[k] == rest[k - 1];
          assert forall j :: 0 <= j < k - 1 ==> rest[j] == list[j + 1];
          assert FirstAsserter(b, rest, i, k - 1);
        }
        assert Intack(b, list, i) == Enoent ==> forall k :: 0 < k < |list| ==> list[k] == rest[k - 1];
      }
    }
  }

  /** One that is asked for a vector asserts the signal and can answer; a vector given
      is the one configured for a connection that asserts it and cannot answer. */
  lemma {:induction false} IntackAnswers(b: Bus, list: seq<nat>, i: nat)
    requires forall k :: 0 <= k < |list| ==> list[k] in b.connections
    ensures var answer := Intack(b, list, i);
      && (answer.Ask? ==>
            && answer.asked in list && answer.asked in b.connections
            && b.Asserting(answer.asked, i) && b.connections[answer.asked].hasIntack)
      && (answer.Vector? ==>
            && answer.from in list && answer.from in b.connections
            && b.Asserting(answer.from, i) && !b.connections[answer.from].hasIntack
            && answer.vector == b.connections[answer.from].vectorInt)
  {
    hide Bus.Asserting;
    if list != [] && !b.Asserting(list[0], i) {
      assert forall k :: 0 <= k < |list| - 1 ==> list[1..][k] == list[k + 1];
      IntackAnswers(b, list[1..], i);
    }
  }

  // ---------------------------------------------------------------- whole runs

  datatype Event =
    | Made(c: nat, connection: Connection)
    | Signalled(c: nat, word: nat, deadlocked: set<nat>)
    | Added(s: SignalSet)

  /** The bit and the count of an edge's signal are there to be changed. */
  predicate InBounds(b: Bus, c: nat, word: nat) {
    var i := Index(Resolve(b, c, word));
    c in b.connections && i / 8 < |b.Signals(c)| && i < |b.asserts|
  }

  ghost predicate CanHappen(b: Bus, e: Event) {
    match e
    case Made(c, _) => c !in b.list
    case Signalled(c, word, _) => CanSignal(b, c, word) && InBounds(b, c, word)
    case Added(s) => Addable(b, s)
  }

  ghost function Happen(b: Bus, e: Event): Bus
    requires CanHappen(b, e)
  {
    match e
    case Made(c, conn) => Make(b, c, conn)
    case Signalled(c, word, deadlocked) => Signal(b, c, word, deadlocked).bus
    case Added(s) => Add(b, s).bus
  }

  ghost predicate Run(buses: seq<Bus>, events: seq<Event>) {
    && |buses| == |events| + 1
    && buses[0] == Initial()
    && forall i :: 0 <= i < |events| ==> CanHappen(buses[i], events[i]) && buses[i + 1] == Happen(buses[i], events[i])
  }

  lemma InitialInv()
    ensures Inv(Initial())
  {
    var b := Initial();
    assert b.sets[..0] == [];
    forall i | 0 <= i < |b.asserts| ensures Count(b, b.list, i) == 0 {
    }
  }

  /** In every reachable state the counts are exact and the ranges tile. */
  lemma {:induction false} RunKeeps(buses: seq<Bus>, events: seq<Event>, n: nat)
    requires Run(buses, events) && n < |buses|
    ensures Inv(buses[n])
  {
    hide Inv;
    if n == 0 {
      InitialInv();
    } else {
      RunKeeps(buses, events, n - 1);
      var b, e := buses[n - 1], events[n - 1];
      assert CanHappen(b, e) && buses[n - 1 + 1] == Happen(b, e);
      match e {
        case Made(c, conn) => MakeKeeps(b, c, conn);
        case Signalled(c, word, deadlocked) => SignalKeeps(b, c, word, deadlocked);
        case Added(s) => AddKeeps(b, s);
      }
    }
  }

  /** In every reachable state an edge from a device that can signal stays inside the
      bitmap and the counts. */
  lemma SignalInBounds(buses: seq<Bus>, events: seq<Event>, n: nat, c: nat, word: nat)
    requires Run(buses, events) && n < |buses| && CanSignal(buses[n], c, word)
    ensures InBounds(buses[n], c, word)
  {
    RunKeeps(buses, events, n);
    InBitmap(buses[n], c, Index(Resolve(buses[n], c, word)));
  }

  // ---------------------------------------------------------------- the bus as it runs

  lemma DeadlocksNone(b: Bus, edger: nat, deadlocked: set<nat>)
    ensures !Deadlocks(b, [], edger, deadlocked)
  {
  }

  /** One more connection is given an edge. */
  lemma DeadlocksMore(b: Bus, list: seq<nat>, i: nat, edger: nat, deadlocked: set<nat>)
    requires i < |list|
    ensures Deadlocks(b, list[..i + 1], edger, deadlocked) <==>
      Deadlocks(b, list[..i], edger, deadlocked) || (Hears(b, list[i], edger) && list[i] in deadlocked)
  {
    assert list[..i + 1] == list[..i] + [list[i]];
    if Hears(b, list[i], edger) && list[i] in deadlocked {
      assert list[..i + 1][i] == list[i];
    }
    forall k | 0 <= k < i ensures list[..i + 1][k] == list[..i][k] {
    }
  }

  lemma BroadcastMore(b: Bus, list: seq<nat>, i: nat, edger: nat, signal: nat, edges: seq<Edge>)
    requires i < |list|
    ensures edges + Broadcast(b, list[i..], edger, signal)
      == (edges + if Hears(b, list[i], edger) then [Edge(list[i], signal)] else []) + Broadcast(b, list[i + 1..], edger, signal)
  {
    assert list[i..][0] == list[i] && list[i..][1..] == list[i + 1..];
  }

  lemma BroadcastNone(b: Bus, edger: nat, signal: nat, edges: seq<Edge>)
    ensures edges + Broadcast(b, [], edger, signal) == edges
  {
  }

  class GenericBus {
    var list: seq<nat>
    var connections: map<nat, Connection>
    var asserts: seq<nat>
    var sets: seq<SignalSet>
    var edges: seq<Edge>

    ghost function View(): Bus
      reads this
    {
      Bus(list, connections, asserts, sets, edges)
    }

    ghost predicate Valid()
      reads this
    {
      Inv(View())
    }

    constructor ()
      ensures Valid() && View() == Initial()
    {
      list, connections, asserts, sets, edges := [], map[], seq(SIGNALS_GENERIC, _ => 0), [GENERIC], [];
      InitialInv();
    }

    /** Makes a connection; a half connection is not yet on the bus. */
    method ConnectionMake(c: nat, conn: Connection, full: bool)
      requires Valid() && c !in list
      modifies `list, `connections
      ensures Valid()
      ensures View() == if full then Make(old(View()), c, conn) else old(View())
    {
      hide Inv, Bit, Index, Bus.Line;
      if !full {
        return;
      }
      SomeSet(View());
      MakeKeeps(View(), c, conn);
      list := [c] + list;
      var last := sets[|sets| - 1];
      connections := connections[c := conn.(signals := Zeros(BitBytes(Index(last.first) + last.count)))];
    }

    /** Sets or clears a connection's bit for a signal and counts it; says whether the
        edge is to be propagated. */
    method CountEdge(c: nat, i: nat, on: bool, edge: bool) returns (propagate: bool)
      requires Valid() && c in list && i < |asserts| && c in connections && i / 8 < |connections[c].signals|
      modifies `connections, `asserts
      ensures View() == Register(old(View()), c, i, on)
      ensures propagate == Propagates(old(View()), c, i, on, edge)
    {
      hide Bit, SetBit;
      CountedOnce(View(), c, i);
      var conn := connections[c];
      var was := Bit(conn.signals, i);
      propagate := false;
      if on {
        if !was {
          connections := connections[c := conn.(signals := SetBit(conn.signals, i, true))];
          asserts := asserts[i := asserts[i] + 1];
          propagate := asserts[i] == 1;
        } else {
          assert asserts[i] > 0;
        }
      } else if was {
        connections := connections[c := conn.(signals := SetBit(conn.signals, i, false))];
        assert asserts[i] > 0;
        asserts := asserts[i := asserts[i] - 1];
        propagate := asserts[i] == 0;
      } else if edge && asserts[i] == 0 {
        propagate := true;
      }
    }

    /** Finds the interrupt signal of a device that does not know its own. */
    method ResolveSignal(c: nat, word: nat) returns (signal: nat)
      requires c in connections
      ensures signal == Resolve(View(), c, word)
    {
      signal := Which(word);
      if signal == SIGNAL_INT_UNSPEC {
        signal := connections[c].signalInt;
      }
    }

    /** An edge from a connection. */
    method SignalEdge(c: nat, word: nat, deadlocked: set<nat>) returns (rc: ReturnCode)
      requires Valid() && CanSignal(View(), c, word)
      requires c in View().connections
      requires var i := Index(Resolve(View(), c, word)); i / 8 < |View().Signals(c)| && i < |asserts|
      modifies `connections, `asserts, `edges
      ensures Valid()
      ensures SignalResult(View(), rc) == Signal(old(View()), c, word, deadlocked)
    {
      SignalValid(View(), c, word, deadlocked);
      hide Inv, Raise, HasEdge, LevelOf, Index, Resolve, Bus.Asserting;
      var signal := ResolveSignal(c, word);
      rc := RaiseSignal(c, signal, word, deadlocked);
    }

    /** An edge whose signal is known. */
    method RaiseSignal(c: nat, signal: nat, word: nat, deadlocked: set<nat>) returns (rc: ReturnCode)
      requires Valid() && c in list && c in View().connections
      requires Index(signal) / 8 < |View().Signals(c)| && Index(signal) < |asserts|
      modifies `connections, `asserts, `edges
      ensures SignalResult(View(), rc) == Raise(old(View()), c, signal, word, deadlocked)
    {
      hide Inv, Register, Propagates, HasEdge, LevelOf, Index, Tell;
      var propagate := CountEdge(c, Index(signal), LevelOf(word).Asserted?, HasEdge(word));
      rc := Ok;
      if propagate {
        rc := Propagate(c, signal + word % SIGNAL_UNIT, deadlocked);
      }
    }

    /** Gives an edge to each connection but its own that cares. */
    method Propagate(c: nat, signal: nat, deadlocked: set<nat>) returns (rc: ReturnCode)
      modifies `edges
      ensures SignalResult(View(), rc) == Tell(old(View()), c, signal, deadlocked)
    {
      hide Broadcast, Deadlocks;
      var i := 0;
      var deadlock := false;
      ghost var b := View();
      assert list[..0] == [] && list[0..] == list;
      DeadlocksNone(b, c, deadlocked);
      while i < |list|
        invariant 0 <= i <= |list|
        invariant edges + Broadcast(b, list[i..], c, signal) == old(edges) + Broadcast(b, list, c, signal)
        invariant deadlock == Deadlocks(b, list[..i], c, deadlocked)
      {
        var to := list[i];
        DeadlocksMore(b, list, i, c, deadlocked);
        BroadcastMore(b, list, i, c, signal, edges);
        if to != c && to in connections && connections[to].hasSignal {
          edges := edges + [Edge(to, signal)];
          if to in deadlocked {
            deadlock := true;
          }
        } else {
          assert edges + [] == edges;
        }
        i := i + 1;
      }
      assert list[..i] == list && list[i..] == [];
      BroadcastNone(b, c, signal, edges);
      rc := if deadlock then Edeadlk else Ok;
    }

    /** The first set that matches, if any. */
    method Search(s: SignalSet) returns (i: nat)
      ensures i == Find(sets, s)
    {
      hide Matches;
      i := 0;
      while i < |sets| && !Matches(sets[i], s)
        invariant 0 <= i <= |sets|
        invariant Find(sets, s) == i + Find(sets[i..], s)
      {
        assert sets[i..][1..] == sets[i + 1..];
        i := i + 1;
      }
    }

    /** Adds a signal set, or finds the one that is there. */
    method SignalsAdd(s: SignalSet) returns (rc: ReturnCode, s': SignalSet)
      requires Valid() && Addable(View(), s)
      modifies `connections, `asserts, `sets
      ensures Valid()
      ensures AddResult(View(), rc, s') == Add(old(View()), s)
    {
      AddKeeps(View(), s);
      var i := Search(s);
      hide AddNew, AddFound, Extends;
      if i == |sets| {
        s' := AddFresh(s);
        rc := Ok;
      } else {
        rc, s' := UseFound(s, i);
      }
    }

    /** Uses a set that matches, if it supports the same least version. */
    method UseFound(s: SignalSet, i: nat) returns (rc: ReturnCode, s': SignalSet)
      requires i < |sets|
      modifies `sets
      ensures AddResult(View(), rc, s') == AddFound(old(View()), s, i)
    {
      if sets[i].current - sets[i].age != s.current - s.age {
        return Einval, s;
      }
      if s.current > sets[i].current {
        sets := sets[i := sets[i].(current := s.current, age := s.age)];
      }
      assert old(sets)[i := old(sets)[i]] == old(sets);
      rc, s' := Ok, sets[i];
    }

    /** Adds a signal set that matches none. */
    method AddFresh(s: SignalSet) returns (s': SignalSet)
      requires Valid() && s.count > 0
      modifies `connections, `asserts, `sets
      ensures AddResult(View(), Ok, s') == AddNew(old(View()), s)
    {
      hide Bit, Index;
      var last := sets[|sets| - 1];
      var before := Index(last.first) + last.count;
      var after := before + s.count;
      assert after > before;
      s' := s.(first := SIGNAL_UNIT * before);
      sets := sets + [s'];
      asserts := asserts + seq(s.count, _ => 0);
      if BitBytes(after) > BitBytes(before) {
        ExtendAll(BitBytes(after) - BitBytes(before));
      } else {
        ExtendNone(connections, list);
      }
    }

    /** Lengthens the bitmap of each connection on the list. */
    method ExtendAll(n: nat)
      requires NoDuplicates(list) && forall k :: 0 <= k < |list| ==> list[k] in connections
      modifies `connections
      ensures connections == Extend(old(connections), list, n)
    {
      hide Longer;
      var i := 0;
      ExtendOne(connections, list, 0, n);
      while i < |list|
        invariant 0 <= i <= |list|
        invariant connections == Extend(old(connections), list[..i], n)
      {
        ExtendOne(old(connections), list, i, n);
        connections := connections[list[i] := Longer(connections[list[i]], n)];
        i := i + 1;
      }
      assert list[..i] == list;
    }

    /** Who answers an acknowledge of an interrupt signal. */
    method IntAck(word: nat) returns (answer: Acknowledge)
      requires Valid() && Index(word) < SIGNALS_INT && Index(word) < |asserts|
      ensures answer == Enoent <==> asserts[Index(word)] == 0
      ensures answer == Intack(View(), list, Index(word))
    {
      IntackKeeps(View(), Index(word));
      hide Bit;
      var i := 0;
      while i < |list|
        invariant 0 <= i <= |list|
        invariant Intack(View(), list[i..], Index(word)) == Intack(View(), list, Index(word))
      {
        var conn := connections[list[i]];
        assert list[i..][0] == list[i] && list[i..][1..] == list[i + 1..];
        if Bit(conn.signals, Index(word)) {
          if conn.hasIntack {
            return Ask(list[i]);
          }
          return Vector(list[i], conn.vectorInt);
        }
        i := i + 1;
      }
      answer := Enoent;
    }
  }

  lemma SignalValid(b: Bus, c: nat, word: nat, deadlocked: set<nat>)
    requires Inv(b) && CanSignal(b, c, word)
    ensures c in b.connections && var i := Index(Resolve(b, c, word)); i / 8 < |b.Signals(c)| && i < |b.asserts|
    ensures Inv(Signal(b, c, word, deadlocked).bus)
  {
    hide Inv, Bus.Line, OnlyChanged, Broadcast, Signal;
    SignalKeeps(b, c, word, deadlocked);
  }

  lemma SomeSet(b: Bus)
    requires Inv(b)
    ensures b.sets != []
  {
  }

  /** A signal a listed connection asserts is counted. */
  lemma CountedOnce(b: Bus, c: nat, i: nat)
    requires Inv(b) && c in b.list && i < |b.asserts|
    ensures b.Asserting(c, i) ==> b.asserts[i] > 0
  {
    hide Bus.Asserting;
    if b.Asserting(c, i) {
      ListedLine(b, c, i);
      LineIsCount(b, i);
    }
  }

  lemma ExtendOne(connections: map<nat, Connection>, list: seq<nat>, i: nat, n: nat)
    requires NoDuplicates(list) && i <= |list|
    ensures Extend(connections, [], n) == connections
    ensures i < |list| && list[i] in connections ==>
      var done := Extend(connections, list[..i], n);
      list[i] in done && Extend(connections, list[..i + 1], n) == done[list[i] := Longer(done[list[i]], n)]
  {
    hide Longer;
    if i < |list| {
      assert list[..i + 1] == list[..i] + [list[i]];
      assert list[i] !in list[..i];
    }
  }

  lemma ExtendNone(connections: map<nat, Connection>, list: seq<nat>)
    ensures Extend(connections, list, 0) == connections
  {
    forall c | c in connections ensures Longer(connections[c], 0) == connections[c] {
      assert connections[c].signals + Zeros(0) == connections[c].signals;
    }
  }
}
