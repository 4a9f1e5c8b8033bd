/** The descriptor rings of the LANCE Ethernet chip.  The host hands a descriptor
    over by setting its OWN bit; the chip hands it back by clearing the bit.  The
    host is taken not to touch the ring while the chip works, the buffers not to
    overlap it, and every DMA to succeed until one meets a bus error. */
module LanceRings {
  import opened Bits
  import opened Words

  type Word = bv16

  // ---------------------------------------------------------------- words

  const XMD1_OWN: Word := 0x8000
  const XMD1_ERR: Word := 0x4000
  const RMD1_BUFF: Word := 0x0400
  const XMD1_STP: Word := 0x0200
  const XMD1_ENP: Word := 0x0100
  const XMD1_HADR: Word := 0x00ff
  const XMD1_REST: Word := 0x38ff
  const XMD2_BCNT: Word := 0x0fff

  const CSR0_MISS: Word := 0x1000
  const CSR0_MERR: Word := 0x0800
  const CSR0_RINT: Word := 0x0400
  const CSR0_TINT: Word := 0x0200
  const CSR0_TXON: Word := 0x0010
  const CSR0_TDMD: Word := 0x0008

  const FRAME_MAX := 1518

  datatype Descriptor = Descriptor(rmd0: Word, rmd1: Word, rmd2: Word, rmd3: Word)

  predicate Owned(w: Word) { w & XMD1_OWN != 0 }

  function Released(w: Word): Word { w & !XMD1_OWN }

  function Starting(w: Word): Word { w | XMD1_STP }

  function Ending(w: Word): Word { w | XMD1_ENP }

  function Short(w: Word): Word { w | RMD1_BUFF | XMD1_ERR }

  function BusError(csr0: Word): Word { csr0 | CSR0_MERR }

  lemma OwnedFacts(w: Word)
    ensures !Owned(Released(w))
    ensures Owned(Starting(w)) == Owned(w)
  {
  }

  /** The 24-bit address of a buffer. */
  function BufferAddress(rmd0: Word, rmd1: Word): int {
    (rmd1 & XMD1_HADR) as int * 0x1_0000 + rmd0 as int
  }

  /** The length of a buffer, which RMD2 holds negated. */
  function BufferCount(rmd2: Word): nat {
    Negated(rmd2) as nat
  }

  function Negated(rmd2: Word): Word { (0 - rmd2) & XMD2_BCNT }

  /** A count is what the twelve low bits of RMD2 lack to their end, and nothing else is. */
  lemma CountNegates(rmd2: Word, count: Word)
    ensures count == Negated(rmd2) <==> count <= XMD2_BCNT && (count + rmd2) & XMD2_BCNT == 0
  {
  }

  /** An address has RMD0 for its low half and the low byte of RMD1 above that. */
  lemma AddressHalves(rmd0: Word, rmd1: Word)
    ensures BufferAddress(rmd0, rmd1) % 0x1_0000 == rmd0 as int
    ensures BufferAddress(rmd0, rmd1) / 0x1_0000 == (rmd1 & XMD1_HADR) as int
  {
  }

  // ---------------------------------------------------------------- addresses in the ring

  const DTE_SIZE := 8

  /** The address of a word of a descriptor, `offset` bytes after the start of the
      current one. */
  function DteAddress(base: nat, index: nat, mask: nat, offset: nat): nat {
    base + And(index * DTE_SIZE + offset, Or(mask * DTE_SIZE, DTE_SIZE - 1))
  }

  lemma TimesEight(n: nat)
    requires IsPow2(n)
    ensures IsPow2(8 * n)
  {
    hide IsPow2;
    Doubled(n);
    Doubled(2 * n);
    Doubled(4 * n);
    assert 2 * (2 * (2 * n)) == 8 * n;
  }

  lemma ModEight(q: nat, r: nat, n: nat)
    requires n > 0 && r < 8
    ensures (8 * q + r) % (8 * n) == 8 * (q % n) + r
  {
    var d := q / n;
    assert q == d * n + q % n;
    assert 8 * q + r == d * (8 * n) + (8 * (q % n) + r);
    DivisionUnique(8 * q + r, 8 * n, d, 8 * (q % n) + r);
  }

  lemma EightIsPow2()
    ensures IsPow2(8)
  {
    assert IsPow2(1) && IsPow2(2) && IsPow2(4);
  }

  /** A word of the current descriptor is in it, and the word one descriptor on is
      in the next, the ring wrapping; both at even addresses. */
  lemma DteAddressWraps(base: nat, index: nat, n: nat, offset: nat)
    requires IsPow2(n) && index < n && base % DTE_SIZE == 0 && offset < 2 * DTE_SIZE && offset % 2 == 0
    ensures DteAddress(base, index, n - 1, offset)
         == base + DTE_SIZE * ((index + offset / DTE_SIZE) % n) + offset % DTE_SIZE
    ensures DteAddress(base, index, n - 1, offset) % 2 == 0
  {
    hide And, Or, IsPow2;
    TimesEight(n);
    EightIsPow2();
    var high := (n - 1) * 8;
    OrIsAdd(high, 7, 8);
    AndMask(index * 8 + offset, 8 * n);
    var q, r := index + offset / 8, offset % 8;
    assert index * 8 + offset == 8 * q + r;
    ModEight(q, r, n);
    Even(base, q % n, offset);
  }

  lemma Even(base: nat, k: nat, offset: nat)
    requires base % DTE_SIZE == 0 && offset % 2 == 0
    ensures (base + DTE_SIZE * k + offset % DTE_SIZE) % 2 == 0
  {
    var q := 4 * (base / 8) + 4 * k + offset / 2 - 4 * (offset / 8);
    DivisionUnique(base + DTE_SIZE * k + offset % DTE_SIZE, 2, q, 0);
  }

  /** The next index of a ring. */
  function Next(index: nat, mask: nat): nat {
    And(index + 1, mask)
  }

  lemma NextWraps(index: nat, n: nat)
    requires IsPow2(n) && index < n
    ensures Next(index, n - 1) == if index + 1 == n then 0 else index + 1
  {
    hide And, IsPow2;
    AndMask(index + 1, n);
  }

  // ---------------------------------------------------------------- receiving a frame

  /** Bytes the chip wrote to memory with one DMA. */
  datatype Write = Write(address: int, bytes: seq<bv8>)

  /** The receive ring, the current index, CSR0, what has been written to memory,
      and how many DMA operations will succeed before one meets a bus error. */
  datatype State = State(ring: seq<Descriptor>, index: nat, csr0: Word, writes: seq<Write>, budget: nat)

  datatype Outcome = Outcome(state: State, cancelled: bool)

  function Cancel(s: State): Outcome {
    Outcome(s.(csr0 := BusError(s.csr0), budget := 0), true)
  }

  function Step(index: nat, n: nat): nat {
    if index + 1 == n then 0 else index + 1
  }

  /** Hands the current descriptor back, and moves to the next one. */
  function HandBack(s: State, rmd1: Word, spent: nat): State
    requires s.index < |s.ring| && spent <= s.budget
  {
    s.(ring := s.ring[s.index := s.ring[s.index].(rmd1 := Released(rmd1))],
       index := Step(s.index, |s.ring|), budget := s.budget - spent)
  }

  /** What a pass of the loop leaves: with the frame still going on, the rest of it
      and RMD1 of the descriptor it goes on in. */
  datatype Passed = Passed(state: State, cancelled: bool, stop: bool, rest: seq<bv8>, next: Word)

  /** Fills the current buffer, and hands its descriptor back. */
  function Pass(s: State, frame: seq<bv8>, rmd1: Word, resid: Word): (p: Passed)
    requires s.index < |s.ring|
    ensures p.state.index < |p.state.ring|
    ensures !p.cancelled ==> p.state.budget < s.budget
  {
    var d := s.ring[s.index];
    var count := Min(|frame|, BufferCount(d.rmd2));
    var w := if count > 0 then 1 else 0;
    var s1 := s.(writes := s.writes + if count > 0 then [Write(BufferAddress(d.rmd0, rmd1), frame[..count])] else []);
    var rest := frame[count..];
    if s.budget < 2 + w then Passed(Cancel(s).state, true, false, frame, 0)
    else if s.budget < 3 + w then Passed(Cancel(s1).state, true, false, rest, 0)
    else if count == |frame| then
      var s2 := s1.(ring := s1.ring[s.index := d.(rmd3 := resid)]);
      if s.budget < 4 + w then Passed(Cancel(s2).state, true, true, rest, 0)
      else Passed(HandBack(s2, Ending(rmd1), 4 + w), false, true, rest, 0)
    else
      var next := s.ring[Step(s.index, |s.ring|)].rmd1;
      if s.budget < 4 + w then Passed(Cancel(s1).state, true, !Owned(next), rest, next)
      else Passed(HandBack(s1, if Owned(next) then rmd1 else Short(rmd1), 4 + w), false, !Owned(next), rest, next)
  }

  /** Fills buffers with what is left of a frame, from the current descriptor,
      whose RMD1 has been read, on. */
  function Fill(s: State, frame: seq<bv8>, rmd1: Word, resid: Word): Outcome
    requires s.index < |s.ring|
    decreases s.budget
  {
    var p := Pass(s, frame, rmd1, resid);
    if p.cancelled || p.stop then Outcome(p.state, p.cancelled)
    else Fill(p.state, p.rest, p.next, resid)
  }

  function Receive(s: State, frame: seq<bv8>): State
    requires s.index < |s.ring| && 0 < |frame| <= FRAME_MAX
  {
    if s.budget == 0 then Cancel(s).state
    else
      var rmd1 := s.ring[s.index].rmd1;
      if !Owned(rmd1) then s.(csr0 := s.csr0 | CSR0_MISS, budget := s.budget - 1)
      else
        var r := Fill(s.(budget := s.budget - 1), frame, Starting(rmd1), |frame| as Word);
        if r.cancelled then r.state else r.state.(csr0 := r.state.csr0 | CSR0_RINT)
  }

  // ---------------------------------------------------------------- what a received frame leaves

  /** The descriptor `j` places after `first`. */
  function At(first: nat, j: nat, n: nat): nat
    requires first < n && j <= n
    ensures At(first, j, n) < n
  {
    if first + j < n then first + j else first + j - n
  }

  /** How many places after `first` a descriptor is. */
  function Place(i: nat, first: nat, n: nat): nat
    requires i < n && first < n
    ensures Place(i, first, n) < n
  {
    if first <= i then i - first else i + n - first
  }

  lemma PlaceAt(first: nat, j: nat, n: nat)
    requires first < n && j < n
    ensures Place(At(first, j, n), first, n) == j
    ensures Step(At(first, j, n), n) == At(first, j + 1, n)
  {
  }

  /** The room in the `k` buffers from `first` on. */
  function Room(ring: seq<Descriptor>, first: nat, k: nat): nat
    requires first < |ring| && k <= |ring|
  {
    if k == 0 then 0
    else Room(ring, first, k - 1) + BufferCount(ring[At(first, k - 1, |ring|)].rmd2)
  }

  /** RMD1 of a frame's descriptor before it is handed back: the first starts the frame. */
  function Taken(ring: seq<Descriptor>, first: nat, j: nat): Word
    requires first < |ring| && j < |ring|
  {
    var w := ring[At(first, j, |ring|)].rmd1;
    if j == 0 then Starting(w) else w
  }

  /** The ring once `k` descriptors from `first` on have been handed back, none of
      them the last of a frame. */
  function Used(ring: seq<Descriptor>, first: nat, k: nat): seq<Descriptor>
    requires first < |ring|
  {
    seq(|ring|, i requires 0 <= i < |ring| =>
      var j := Place(i, first, |ring|);
      if j < k then ring[i].(rmd1 := Released(if j == 0 then Starting(ring[i].rmd1) else ring[i].rmd1)) else ring[i])
  }

  /** The ring after a frame that used `k` descriptors. */
  function AfterFrame(ring: seq<Descriptor>, first: nat, k: nat, fits: bool, resid: Word): seq<Descriptor>
    requires first < |ring| && 0 < k <= |ring|
  {
    var p := At(first, k - 1, |ring|);
    var w := Taken(ring, first, k - 1);
    Used(ring, first, k)[p := ring[p].(rmd1 := Released(if fits then Ending(w) else Short(w)),
                                       rmd3 := if fits then resid else ring[p].rmd3)]
  }

  /** What goes into the `k` buffers from `first` on: each is filled before the next. */
  function Pieces(ring: seq<Descriptor>, first: nat, k: nat, frame: seq<bv8>): seq<Write>
    requires first < |ring| && k <= |ring|
  {
    if k == 0 then []
    else
      var d := ring[At(first, k - 1, |ring|)];
      var from := Min(|frame|, Room(ring, first, k - 1));
      var to := Min(|frame|, Room(ring, first, k));
      Pieces(ring, first, k - 1, frame)
      + if from < to then [Write(BufferAddress(d.rmd0, d.rmd1), frame[from..to])] else []
  }

  function Bytes(writes: seq<Write>): seq<bv8> {
    if writes == [] then [] else Bytes(writes[..|writes| - 1]) + writes[|writes| - 1].bytes
  }

  /** The buffers hold, one after the other, the longest prefix of the frame that
      has room in them. */
  lemma {:induction false} PiecesHoldPrefix(ring: seq<Descriptor>, first: nat, k: nat, frame: seq<bv8>)
    requires first < |ring| && k <= |ring|
    ensures Bytes(Pieces(ring, first, k, frame)) == frame[..Min(|frame|, Room(ring, first, k))]
  {
    hide BufferCount, BufferAddress, At, Bytes;
    if k > 0 {
      PiecesHoldPrefix(ring, first, k - 1, frame);
      var front := Pieces(ring, first, k - 1, frame);
      var d := ring[At(first, k - 1, |ring|)];
      var from := Min(|frame|, Room(ring, first, k - 1));
      var to := Min(|frame|, Room(ring, first, k));
      if from < to {
        BytesAppend(front, Write(BufferAddress(d.rmd0, d.rmd1), frame[from..to]));
        assert frame[..from] + frame[from..to] == frame[..to];
      } else {
        assert front + [] == front;
      }
    } else {
      BytesNone();
    }
  }

  lemma BytesNone()
    ensures Bytes([]) == []
  {
  }

  lemma BytesAppend(writes: seq<Write>, w: Write)
    ensures Bytes(writes + [w]) == Bytes(writes) + w.bytes
  {
    assert (writes + [w])[..|writes|] == writes;
  }

  /** A frame was received into `k` descriptors. */
  ghost predicate Received(s: State, frame: seq<bv8>, s': State, k: nat)
    requires s.index < |s.ring| && |frame| <= FRAME_MAX
  {
    var n := |s.ring|;
    && 0 < k <= n
    && (forall j :: 0 <= j < k ==> Owned(s.ring[At(s.index, j, n)].rmd1))
    && Room(s.ring, s.index, k - 1) < |frame|
    && (var fits := |frame| <= Room(s.ring, s.index, k);
        && (!fits ==> k == n || !Owned(s.ring[At(s.index, k, n)].rmd1))
        && s'.ring == AfterFrame(s.ring, s.index, k, fits, |frame| as Word))
    && s'.index == At(s.index, k, n)
    && s'.writes == s.writes + Pieces(s.ring, s.index, k, frame)
  }

  /** How many DMA operations it takes to see that the first descriptor is the chip's, and
      to fill `k` buffers: two words read, the data written if there is any, the byte count
      written or the next descriptor read, and RMD1 written. */
  function Cost(s: State, frame: seq<bv8>, k: nat): nat
    requires s.index < |s.ring| && k <= |s.ring|
  {
    1 + 4 * k + |Pieces(s.ring, s.index, k, frame)|
  }

  /** A frame on its way: `j` descriptors used, the rest of it still to go. */
  ghost predicate Under(s0: State, frame: seq<bv8>, s: State, j: nat, rest: seq<bv8>)
    requires s0.index < |s0.ring|
  {
    var n := |s0.ring|;
    && j < n
    && (forall i :: 0 <= i <= j ==> Owned(s0.ring[At(s0.index, i, n)].rmd1))
    && Room(s0.ring, s0.index, j) < |frame|
    && rest == frame[Room(s0.ring, s0.index, j)..]
    && s.ring == Used(s0.ring, s0.index, j)
    && s.index == At(s0.index, j, n)
    && s.writes == s0.writes + Pieces(s0.ring, s0.index, j, frame)
    && s.csr0 == s0.csr0
    && s.budget + Cost(s0, frame, j) == s0.budget
  }

  lemma StartingFacts(rmd0: Word, rmd1: Word)
    ensures Owned(Starting(rmd1)) == Owned(rmd1)
    ensures BufferAddress(rmd0, Starting(rmd1)) == BufferAddress(rmd0, rmd1)
  {
    assert (rmd1 | XMD1_STP) & XMD1_HADR == rmd1 & XMD1_HADR;
  }

  /** The descriptor a frame under way has come to is as the host left it, and so
      is the one after it, unless that is the first again. */
  lemma UnderAt(s0: State, frame: seq<bv8>, s: State, j: nat, rest: seq<bv8>)
    requires s0.index < |s0.ring| && Under(s0, frame, s, j, rest)
    ensures s.index < |s.ring| == |s0.ring|
    ensures s.ring[s.index] == s0.ring[At(s0.index, j, |s0.ring|)]
    ensures Step(s.index, |s.ring|) == At(s0.index, j + 1, |s0.ring|)
    ensures j + 1 < |s0.ring| ==> s.ring[At(s0.index, j + 1, |s0.ring|)] == s0.ring[At(s0.index, j + 1, |s0.ring|)]
    ensures j + 1 == |s0.ring| && j > 0 ==> !Owned(s.ring[At(s0.index, j + 1, |s0.ring|)].rmd1)
  {
    hide Owned, Released, Starting, Room, Pieces;
    var n := |s0.ring|;
    PlaceAt(s0.index, j, n);
    if j + 1 < n {
      PlaceAt(s0.index, j + 1, n);
    } else {
      PlaceAt(s0.index, 0, n);
      OwnedFacts(Starting(s0.ring[s0.index].rmd1));
    }
  }

  /** Handing back a descriptor that is not the last of the frame. */
  lemma UsedStep(ring: seq<Descriptor>, first: nat, j: nat)
    requires first < |ring| && j < |ring|
    ensures var p := At(first, j, |ring|);
      Used(ring, first, j)[p := Used(ring, first, j)[p].(rmd1 := Released(Taken(ring, first, j)))]
      == Used(ring, first, j + 1)
  {
    hide Released, Starting;
    var n, p := |ring|, At(first, j, |ring|);
    PlaceAt(first, j, n);
    forall i | 0 <= i < n && i != p ensures Place(i, first, n) != j {
    }
  }

  lemma UsedLast(ring: seq<Descriptor>, first: nat, j: nat, fits: bool, resid: Word)
    requires first < |ring| && j < |ring|
    ensures var p := At(first, j, |ring|);
      var w := Taken(ring, first, j);
      Used(ring, first, j)[p := ring[p].(rmd1 := Released(if fits then Ending(w) else Short(w)),
                                         rmd3 := if fits then resid else ring[p].rmd3)]
      == AfterFrame(ring, first, j + 1, fits, resid)
  {
    hide Released, Starting, Ending, Short;
    var n, p := |ring|, At(first, j, |ring|);
    UsedStep(ring, first, j);
  }

  lemma PiecesStep(ring: seq<Descriptor>, first: nat, j: nat, frame: seq<bv8>)
    requires first < |ring| && j < |ring| && Room(ring, first, j) < |frame|
    ensures var d := ring[At(first, j, |ring|)];
      var rest := frame[Room(ring, first, j)..];
      var count := Min(|rest|, BufferCount(d.rmd2));
      Pieces(ring, first, j + 1, frame) == Pieces(ring, first, j, frame)
        + if count > 0 then [Write(BufferAddress(d.rmd0, d.rmd1), rest[..count])] else []
  {
    hide BufferCount, BufferAddress, At, Pieces;
    var d := ring[At(first, j, |ring|)];
    var r := Room(ring, first, j);
    var rest := frame[r..];
    var count := Min(|rest|, BufferCount(d.rmd2));
    assert Room(ring, first, j + 1) == r + BufferCount(d.rmd2);
    assert rest[..count] == frame[r..r + count];
    PiecesMore(ring, first, j, frame);
  }

  lemma PiecesMore(ring: seq<Descriptor>, first: nat, j: nat, frame: seq<bv8>)
    requires first < |ring| && j < |ring|
    ensures var d := ring[At(first, j, |ring|)];
      var from, to := Min(|frame|, Room(ring, first, j)), Min(|frame|, Room(ring, first, j + 1));
      Pieces(ring, first, j + 1, frame) == Pieces(ring, first, j, frame)
        + if from < to then [Write(BufferAddress(d.rmd0, d.rmd1), frame[from..to])] else []
  {
  }

  /** The data a pass of the loop writes, and what is left of the frame after it. */
  lemma PassWrites(s0: State, frame: seq<bv8>, s: State, j: nat, rest: seq<bv8>)
    requires s0.index < |s0.ring| && Under(s0, frame, s, j, rest) && s.index < |s.ring|
    ensures var d := s.ring[s.index];
      var count := Min(|rest|, BufferCount(d.rmd2));
      && |rest| > 0
      && s.writes + (if count > 0 then [Write(BufferAddress(d.rmd0, Taken(s0.ring, s0.index, j)), rest[..count])] else [])
         == s0.writes + Pieces(s0.ring, s0.index, j + 1, frame)
      && (count == |rest| <==> |frame| <= Room(s0.ring, s0.index, j + 1))
      && (count < |rest| ==> rest[count..] == frame[Room(s0.ring, s0.index, j + 1)..])
      && Cost(s0, frame, j + 1) == Cost(s0, frame, j) + if count > 0 then 5 else 4
  {
    hide Pieces, BufferCount, BufferAddress, Used, Owned, Starting;
    UnderAt(s0, frame, s, j, rest);
    PiecesStep(s0.ring, s0.index, j, frame);
    var d := s.ring[s.index];
    StartingFacts(d.rmd0, d.rmd1);
    assert Room(s0.ring, s0.index, j + 1) == Room(s0.ring, s0.index, j) + BufferCount(d.rmd2);
  }

  lemma PassGoesOn(s0: State, frame: seq<bv8>, s: State, j: nat, rest: seq<bv8>, s': State, rest': seq<bv8>)
    requires s0.index < |s0.ring| && |s0.ring| >= 2 && Under(s0, frame, s, j, rest) && s.index < |s.ring|
    requires |rest'| > 0 && rest' == frame[Min(|frame|, Room(s0.ring, s0.index, j + 1))..]
    requires Owned(s.ring[Step(s.index, |s.ring|)].rmd1)
    requires s'.writes == s0.writes + Pieces(s0.ring, s0.index, j + 1, frame) && s'.csr0 == s.csr0
    requires s'.budget + Cost(s0, frame, j + 1) == s0.budget
    requires s'.index == Step(s.index, |s.ring|)
    requires s'.ring == s.ring[s.index := s.ring[s.index].(rmd1 := Released(Taken(s0.ring, s0.index, j)))]
    ensures j + 1 < |s0.ring| && Under(s0, frame, s', j + 1, rest')
    ensures s.ring[Step(s.index, |s.ring|)].rmd1 == Taken(s0.ring, s0.index, j + 1)
  {
    hide Pieces, BufferCount, Used, Owned, Starting, Released;
    UnderAt(s0, frame, s, j, rest);
    UsedStep(s0.ring, s0.index, j);
  }

  /** A bus error stopped a frame after `k` descriptors had been handed back: the
      next one is still the chip's, with RMD1 as the host wrote it. */
  ghost predicate Interrupted(s: State, frame: seq<bv8>, s': State, k: nat)
    requires s.index < |s.ring| && |frame| <= FRAME_MAX
  {
    var n := |s.ring|;
    && k < n
    && (forall j :: 0 <= j <= k ==> Owned(s.ring[At(s.index, j, n)].rmd1))
    && Room(s.ring, s.index, k) < |frame|
    && s'.index == At(s.index, k, n)
    && s'.csr0 == BusError(s.csr0)
    && (s.budget == k == 0 || Cost(s, frame, k) <= s.budget < Cost(s, frame, k + 1))
    && LeftAs(s, frame, s'.ring, s'.writes, k)
  }

  /** The error met the reads or the data, or the data was written, or so was the byte
      count, as the operations left for the last descriptor tell. */
  ghost predicate LeftAs(s: State, frame: seq<bv8>, ring: seq<Descriptor>, writes: seq<Write>, k: nat)
    requires s.index < |s.ring| && |frame| <= FRAME_MAX && k < |s.ring|
  {
    var p := At(s.index, k, |s.ring|);
    var used := Used(s.ring, s.index, k);
    var before := s.writes + Pieces(s.ring, s.index, k, frame);
    var after := s.writes + Pieces(s.ring, s.index, k + 1, frame);
    var short := Cost(s, frame, k + 1) - s.budget;
    if short > 2 then ring == used && writes == before
    else if short == 1 && |frame| <= Room(s.ring, s.index, k + 1) then
      ring == used[p := s.ring[p].(rmd3 := |frame| as Word)] && writes == after
    else ring == used && writes == after
  }

  /** How many DMA operations a pass of the loop makes; an empty buffer needs no write. */
  function PassCost(s: State, rest: seq<bv8>): nat
    requires s.index < |s.ring|
  {
    if Min(|rest|, BufferCount(s.ring[s.index].rmd2)) > 0 then 5 else 4
  }

  /** What a pass writes to memory. */
  function PassWrite(s: State, rest: seq<bv8>, rmd1: Word): seq<Write>
    requires s.index < |s.ring|
  {
    var d := s.ring[s.index];
    var count := Min(|rest|, BufferCount(d.rmd2));
    if count > 0 then [Write(BufferAddress(d.rmd0, rmd1), rest[..count])] else []
  }

  lemma FillCancelled(s: State, rest: seq<bv8>, rmd1: Word, resid: Word)
    requires s.index < |s.ring| && s.budget < PassCost(s, rest)
    ensures var r := Fill(s, rest, rmd1, resid);
      var d := s.ring[s.index];
      var s1 := s.(writes := s.writes + PassWrite(s, rest, rmd1));
      r == if s.budget + 2 < PassCost(s, rest) then Cancel(s)
           else if s.budget + 1 == PassCost(s, rest) && |rest| <= BufferCount(d.rmd2)
             then Cancel(s1.(ring := s.ring[s.index := d.(rmd3 := resid)]))
           else Cancel(s1)
  {
    hide BufferCount, BufferAddress, Owned, Released, Ending, Short;
  }

  lemma PassInterrupted(s0: State, frame: seq<bv8>, s: State, j: nat, rest: seq<bv8>)
    requires s0.index < |s0.ring| && |frame| <= FRAME_MAX
    requires Under(s0, frame, s, j, rest) && s.index < |s.ring| && s.budget < PassCost(s, rest)
    ensures var r := Fill(s, rest, Taken(s0.ring, s0.index, j), |frame| as Word);
      r.cancelled && Interrupted(s0, frame, r.state, j)
  {
    var r := Fill(s, rest, Taken(s0.ring, s0.index, j), |frame| as Word);
    PassLeaves(s0, frame, s, j, rest);
    hide Pieces, BufferCount, BufferAddress, Used, Taken, Room, At, Fill, LeftAs, Owned, BusError;
    FillCancelled(s, rest, Taken(s0.ring, s0.index, j), |frame| as Word);
  }

  lemma PassLeaves(s0: State, frame: seq<bv8>, s: State, j: nat, rest: seq<bv8>)
    requires s0.index < |s0.ring| && |frame| <= FRAME_MAX
    requires Under(s0, frame, s, j, rest) && s.index < |s.ring| && s.budget < PassCost(s, rest)
    ensures var r := Fill(s, rest, Taken(s0.ring, s0.index, j), |frame| as Word);
      LeftAs(s0, frame, r.state.ring, r.state.writes, j)
  {
    hide Pieces, BufferCount, BufferAddress, Used, Taken, Room, At, Fill, Owned;
    UnderAt(s0, frame, s, j, rest);
    PassWrites(s0, frame, s, j, rest);
    FillCancelled(s, rest, Taken(s0.ring, s0.index, j), |frame| as Word);
  }

  /** A pass that has the operations it needs and is the last. */
  lemma FillStops(s: State, rest: seq<bv8>, rmd1: Word, resid: Word)
    requires s.index < |s.ring| && s.budget >= PassCost(s, rest)
    requires |rest| <= BufferCount(s.ring[s.index].rmd2) || !Owned(s.ring[Step(s.index, |s.ring|)].rmd1)
    ensures var d, fits := s.ring[s.index], |rest| <= BufferCount(s.ring[s.index].rmd2);
      Fill(s, rest, rmd1, resid) ==
        Outcome(State(s.ring[s.index := d.(rmd1 := Released(if fits then Ending(rmd1) else Short(rmd1)),
                                           rmd3 := if fits then resid else d.rmd3)],
                      Step(s.index, |s.ring|), s.csr0, s.writes + PassWrite(s, rest, rmd1), s.budget - PassCost(s, rest)), false)
  {
    hide BufferCount, BufferAddress, Owned, Released, Ending, Short;
  }

  lemma PassEnds(s0: State, frame: seq<bv8>, s: State, j: nat, rest: seq<bv8>)
    requires s0.index < |s0.ring| && |s0.ring| >= 2 && |frame| <= FRAME_MAX
    requires Under(s0, frame, s, j, rest) && s.index < |s.ring| && s.budget >= PassCost(s, rest)
    requires |rest| <= BufferCount(s.ring[s.index].rmd2) || !Owned(s.ring[Step(s.index, |s.ring|)].rmd1)
    ensures var r := Fill(s, rest, Taken(s0.ring, s0.index, j), |frame| as Word);
      && !r.cancelled && Received(s0, frame, r.state, j + 1) && r.state.csr0 == s0.csr0
      && r.state.budget + Cost(s0, frame, j + 1) == s0.budget
  {
    hide Pieces, BufferCount, BufferAddress, Used, Owned, Starting, Released, Ending, Short, AfterFrame, Room, At, Fill, Cost;
    FillStops(s, rest, Taken(s0.ring, s0.index, j), |frame| as Word);
    UnderAt(s0, frame, s, j, rest);
    PassWrites(s0, frame, s, j, rest);
    UsedLast(s0.ring, s0.index, j, |rest| <= BufferCount(s.ring[s.index].rmd2), |frame| as Word);
  }

  /** The whole loop, on a ring of at least two descriptors: it ends, after no more
      descriptors than there are, unless a bus error stops it. */
  lemma {:induction false} FillResult(s0: State, frame: seq<bv8>, s: State, j: nat, rest: seq<bv8>) returns (k: nat)
    requires s0.index < |s0.ring| && |s0.ring| >= 2 && |frame| <= FRAME_MAX
    requires Under(s0, frame, s, j, rest) && s.index < |s.ring|
    ensures var r := Fill(s, rest, Taken(s0.ring, s0.index, j), |frame| as Word);
      && (s.budget >= 5 * (|s0.ring| - j) ==> !r.cancelled)
      && (r.cancelled ==> Interrupted(s0, frame, r.state, k))
      && (!r.cancelled ==> Received(s0, frame, r.state, k) && r.state.csr0 == s0.csr0
                           && r.state.budget + Cost(s0, frame, k) == s0.budget)
    decreases s.budget
  {
    hide Pieces, BufferCount, BufferAddress, Used, Owned, Starting, Released, Ending, Short, Room, At,
      Interrupted, Received;
    k := j + 1;
    var count := Min(|rest|, BufferCount(s.ring[s.index].rmd2));
    if s.budget < PassCost(s, rest) {
      PassInterrupted(s0, frame, s, j, rest);
      UnderAt(s0, frame, s, j, rest);
      k := j;
    } else if count == |rest| || !Owned(s.ring[Step(s.index, |s.ring|)].rmd1) {
      PassEnds(s0, frame, s, j, rest);
    } else {
      var s1 := s.(writes := s0.writes + Pieces(s0.ring, s0.index, j + 1, frame));
      var s2 := HandBack(s1, Taken(s0.ring, s0.index, j), PassCost(s, rest));
      UnderAt(s0, frame, s, j, rest);
      PassWrites(s0, frame, s, j, rest);
      PassGoesOn(s0, frame, s, j, rest, s2, rest[count..]);
      k := FillResult(s0, frame, s2, j + 1, rest[count..]);
    }
  }

  lemma UsedNone(ring: seq<Descriptor>, first: nat)
    requires first < |ring|
    ensures Used(ring, first, 0) == ring
  {
  }

  lemma FrameBegins(s: State, frame: seq<bv8>)
    requires s.index < |s.ring| && Owned(s.ring[s.index].rmd1) && 0 < |frame| && s.budget > 0
    ensures Under(s, frame, s.(budget := s.budget - 1), 0, frame)
    ensures Starting(s.ring[s.index].rmd1) == Taken(s.ring, s.index, 0)
  {
    hide Owned, Starting, Released;
    UsedNone(s.ring, s.index);
    assert Room(s.ring, s.index, 0) == 0;
    assert s.writes + Pieces(s.ring, s.index, 0, frame) == s.writes;
  }

  /** Receiving a frame on a ring of at least two descriptors, the current one the
      chip's: with no bus error the frame goes into as many owned buffers as it
      needs or there are, in ring order, within five DMA operations for each. */
  lemma ReceiveResult(s: State, frame: seq<bv8>) returns (k: nat)
    requires s.index < |s.ring| && |s.ring| >= 2 && 0 < |frame| <= FRAME_MAX
    requires Owned(s.ring[s.index].rmd1)
    ensures var s' := Receive(s, frame);
      || (Received(s, frame, s', k) && s'.csr0 == s.csr0 | CSR0_RINT && s'.budget == s.budget - Cost(s, frame, k))
      || (Interrupted(s, frame, s', k) && s.budget <= 5 * |s.ring|)
  {
    hide Pieces, BufferCount, BufferAddress, Used, Owned, Starting, Released, Ending, Short, Room, At, Fill,
      AfterFrame, LeftAs, Under, BusError;
    k := 0;
    if s.budget > 0 {
      FrameBegins(s, frame);
      k := FillResult(s, frame, s.(budget := s.budget - 1), 0, frame);
    } else {
      NothingDone(s, frame);
    }
  }

  lemma NothingDone(s: State, frame: seq<bv8>)
    requires s.index < |s.ring| && 0 < |frame| <= FRAME_MAX && Owned(s.ring[s.index].rmd1) && s.budget == 0
    ensures Interrupted(s, frame, Cancel(s).state, 0)
  {
    hide Owned, BusError, Starting, Released;
    UsedNone(s.ring, s.index);
    assert s.writes + Pieces(s.ring, s.index, 0, frame) == s.writes;
    PiecesMore(s.ring, s.index, 0, frame);
  }

  /** A frame that finds the current descriptor the host's is missed, and the host can
      see that it was. */
  lemma ReceiveMissed(s: State, frame: seq<bv8>)
    requires s.index < |s.ring| && 0 < |frame| <= FRAME_MAX && !Owned(s.ring[s.index].rmd1)
    ensures var s' := Receive(s, frame);
      && s'.ring == s.ring && s'.index == s.index && s'.writes == s.writes
      && (s.budget > 0 ==> OnlySets(s.csr0, s'.csr0, CSR0_MISS))
      && (s.budget == 0 ==> OnlySets(s.csr0, s'.csr0, CSR0_MERR))
      && s'.budget == if s.budget > 0 then s.budget - 1 else 0
  {
    ReceiveHosts(s, frame);
    hide Receive, OnlySets, BusError, Owned;
    SetsOne(s.csr0, CSR0_MISS);
    SetsError(s.csr0);
  }

  lemma SetsError(w: Word)
    ensures OnlySets(w, BusError(w), CSR0_MERR)
  {
    SetsOne(w, CSR0_MERR);
    hide OnlySets;
  }

  lemma ReceiveHosts(s: State, frame: seq<bv8>)
    requires s.index < |s.ring| && 0 < |frame| <= FRAME_MAX && !Owned(s.ring[s.index].rmd1)
    ensures Receive(s, frame) ==
      if s.budget == 0 then s.(csr0 := BusError(s.csr0), budget := 0)
      else s.(csr0 := s.csr0 | CSR0_MISS, budget := s.budget - 1)
  {
    hide Fill, Owned, Starting, BusError;
  }

  /** Some bits have been set in a register, and no other has changed. */
  predicate OnlySets(was: Word, w: Word, bits: Word) {
    w & bits == bits && w & !bits == was & !bits
  }

  lemma SetBits(w: Word, bits: Word)
    ensures (w | bits) & bits == bits
  {
  }

  lemma KeptBits(w: Word, bits: Word)
    ensures (w | bits) & !bits == w & !bits
  {
  }

  lemma SetsOne(w: Word, bits: Word)
    ensures OnlySets(w, w | bits, bits)
  {
    SetBits(w, bits);
    KeptBits(w, bits);
  }

  // the marks of RMD1

  predicate Starts(w: Word) { w & XMD1_STP != 0 }

  predicate Ends(w: Word) { w & XMD1_ENP != 0 }

  predicate LacksRoom(w: Word) { w & RMD1_BUFF != 0 }

  predicate Errs(w: Word) { w & XMD1_ERR != 0 }

  /** What else there is in RMD1, the high part of the address included. */
  function Rest(w: Word): Word { w & XMD1_REST }

  /** RMD1 with these marks, and else as it was. */
  predicate Marked(w: Word, was: Word, owned: bool, starts: bool, ends: bool, short: bool, errs: bool) {
    && Owned(w) == owned && Starts(w) == starts && Ends(w) == ends
    && LacksRoom(w) == short && Errs(w) == errs && Rest(w) == Rest(was)
  }

  lemma ReleasedOwned(w: Word)
    ensures !Owned(Released(w))
  {
  }

  lemma ReleasedStarts(w: Word)
    ensures Starts(Released(w)) == Starts(w)
  {
  }

  lemma ReleasedEnds(w: Word)
    ensures Ends(Released(w)) == Ends(w)
  {
  }

  lemma ReleasedLacksRoom(w: Word)
    ensures LacksRoom(Released(w)) == LacksRoom(w)
  {
  }

  lemma ReleasedErrs(w: Word)
    ensures Errs(Released(w)) == Errs(w)
  {
  }

  lemma ReleasedRest(w: Word)
    ensures Rest(Released(w)) == Rest(w)
  {
  }

  lemma MarksReleased(w: Word)
    ensures Marked(Released(w), w, false, Starts(w), Ends(w), LacksRoom(w), Errs(w))
  {
    hide Released, Owned, Starts, Ends, LacksRoom, Errs, Rest;
    ReleasedOwned(w);
    ReleasedStarts(w);
    ReleasedEnds(w);
    ReleasedLacksRoom(w);
    ReleasedErrs(w);
    ReleasedRest(w);
  }

  lemma StartingBits(w: Word)
    ensures var u := Starting(w);
      && u & XMD1_OWN == w & XMD1_OWN && u & XMD1_STP != 0 && u & XMD1_ENP == w & XMD1_ENP
      && u & RMD1_BUFF == w & RMD1_BUFF && u & XMD1_ERR == w & XMD1_ERR && u & XMD1_REST == w & XMD1_REST
  {
  }

  lemma MarksStarting(w: Word)
    ensures Marked(Starting(w), w, Owned(w), true, Ends(w), LacksRoom(w), Errs(w))
  {
    StartingBits(w);
    hide Starting;
  }

  lemma EndingBits(w: Word)
    ensures var u := Ending(w);
      && u & XMD1_OWN == w & XMD1_OWN && u & XMD1_STP == w & XMD1_STP && u & XMD1_ENP != 0
      && u & RMD1_BUFF == w & RMD1_BUFF && u & XMD1_ERR == w & XMD1_ERR && u & XMD1_REST == w & XMD1_REST
  {
  }

  lemma MarksEnding(w: Word)
    ensures Marked(Ending(w), w, Owned(w), Starts(w), true, LacksRoom(w), Errs(w))
  {
    EndingBits(w);
    hide Ending;
  }

  lemma ShortBits(w: Word)
    ensures var u := Short(w);
      && u & XMD1_OWN == w & XMD1_OWN && u & XMD1_STP == w & XMD1_STP && u & XMD1_ENP == w & XMD1_ENP
      && u & RMD1_BUFF != 0 && u & XMD1_ERR != 0 && u & XMD1_REST == w & XMD1_REST
  {
  }

  lemma MarksShort(w: Word)
    ensures Marked(Short(w), w, Owned(w), Starts(w), Ends(w), true, true)
  {
    ShortBits(w);
    hide Short;
  }

  /** RMD1 as it is written back to a descriptor that was used. */
  function Written(w: Word, begins: bool, last: bool, fits: bool): Word {
    var u := if begins then Starting(w) else w;
    Released(if !last then u else if fits then Ending(u) else Short(u))
  }

  lemma WrittenMarks(w: Word, begins: bool, last: bool, fits: bool)
    ensures Marked(Written(w, begins, last, fits), w, false, begins || Starts(w), (last && fits) || Ends(w),
                   (last && !fits) || LacksRoom(w), (last && !fits) || Errs(w))
  {
    hide Released, Starting, Ending, Short, Owned, Starts, Ends, LacksRoom, Errs, Rest;
    MarksStarting(w);
    var u := if begins then Starting(w) else w;
    MarksEnding(u);
    MarksShort(u);
    MarksReleased(if !last then u else if fits then Ending(u) else Short(u));
  }

  /** A frame changes RMD1 of the descriptors it used, and RMD3 of the last if it fits. */
  lemma AfterFrameAt(ring: seq<Descriptor>, first: nat, k: nat, fits: bool, resid: Word, i: nat)
    requires first < |ring| && 0 < k <= |ring| && i < |ring|
    ensures var j := Place(i, first, |ring|);
      var last := j == k - 1;
      AfterFrame(ring, first, k, fits, resid)[i]
        == ring[i].(rmd1 := if k <= j then ring[i].rmd1 else Written(ring[i].rmd1, j == 0, last, fits),
                    rmd3 := if last && fits then resid else ring[i].rmd3)
  {
    hide Released, Starting, Ending, Short;
    PlaceAt(first, k - 1, |ring|);
    assert At(first, Place(i, first, |ring|), |ring|) == i;
  }

  /** What the host finds in a descriptor of the ring after a frame.  The chip only
      adds marks to those the host left there: a descriptor that was used starts the
      frame iff it is the first or said so before, and so on for each mark. */
  lemma AfterFrameMeaning(ring: seq<Descriptor>, first: nat, k: nat, fits: bool, resid: Word, i: nat)
    requires first < |ring| && 0 < k <= |ring| && i < |ring|
    ensures var d, d' := ring[i], AfterFrame(ring, first, k, fits, resid)[i];
      var j := Place(i, first, |ring|);
      var w, last := d.rmd1, j == k - 1;
      && d'.rmd0 == d.rmd0 && d'.rmd2 == d.rmd2
      && d'.rmd3 == (if last && fits then resid else d.rmd3)
      && (if k <= j then d'.rmd1 == w
          else Marked(d'.rmd1, w, false, j == 0 || Starts(w), (last && fits) || Ends(w),
                      (last && !fits) || LacksRoom(w), (last && !fits) || Errs(w)))
  {
    AfterFrameAt(ring, first, k, fits, resid, i);
    hide AfterFrame, Place, Written, Marked;
    var j := Place(i, first, |ring|);
    WrittenMarks(ring[i].rmd1, j == 0, j == k - 1, fits);
  }

  /** The marks of a last descriptor say whether the frame fitted. */
  predicate Tells(w: Word, fits: bool) {
    Ends(w) == fits && LacksRoom(w) == !fits && Errs(w) == !fits
  }

  predicate SameMarks(w: Word, w': Word) {
    Ends(w) == Ends(w') && LacksRoom(w) == LacksRoom(w') && Errs(w) == Errs(w')
  }

  /** ENP says that a frame fitted, and BUFF and ERR that it did not, iff the host
      cleared these bits in the last descriptor before handing it over; and the host
      cannot tell at all iff it had set all three. */
  lemma MarksTellIff(ring: seq<Descriptor>, first: nat, k: nat, resid: Word)
    requires first < |ring| && 0 < k <= |ring|
    ensures var p := At(first, k - 1, |ring|);
      var w := ring[p].rmd1;
      var fitted, not := AfterFrame(ring, first, k, true, resid)[p].rmd1, AfterFrame(ring, first, k, false, resid)[p].rmd1;
      && (Tells(fitted, true) && Tells(not, false) <==> !Ends(w) && !LacksRoom(w) && !Errs(w))
      && (SameMarks(fitted, not) <==> Ends(w) && LacksRoom(w) && Errs(w))
  {
    var p := At(first, k - 1, |ring|);
    PlaceAt(first, k - 1, |ring|);
    AfterFrameMeaning(ring, first, k, true, resid, p);
    AfterFrameMeaning(ring, first, k, false, resid, p);
    hide AfterFrame, Owned, Starts, Ends, LacksRoom, Errs, Rest;
  }

  /** On a ring of one descriptor the loop comes to the same descriptor again, whose
      OWN bit it read before clearing it: a frame too long for the buffer goes on
      into the same buffer, over its own start, and the second hand-back loses STP. */
  lemma OneDescriptor(s: State, frame: seq<bv8>)
    requires |s.ring| == 1 && s.index == 0 && 0 < |frame| <= FRAME_MAX && Owned(s.ring[0].rmd1)
    requires s.budget >= 11 && |frame| > BufferCount(s.ring[0].rmd2)
    ensures var d := s.ring[0];
      var c := BufferCount(d.rmd2);
      var address := BufferAddress(d.rmd0, d.rmd1);
      var rest := frame[c..];
      var s' := Receive(s, frame);
      && s'.index == 0
      && s'.writes == (if c == 0 then s.writes
                       else s.writes + [Write(address, frame[..c]), Write(address, rest[..Min(|rest|, c)])])
      && s'.ring == [if |rest| <= c then d.(rmd1 := Released(Ending(d.rmd1)), rmd3 := |frame| as Word)
                     else d.(rmd1 := Released(Short(d.rmd1)))]
  {
    hide BufferCount, Owned, Starting, Released, Ending, Short, BufferAddress, Fill;
    var d := s.ring[0];
    var c := BufferCount(d.rmd2);
    var s2 := FirstPass(s.(budget := s.budget - 1), frame, d, |frame| as Word);
    SecondPass(s2, frame[c..], d, |frame| as Word);
  }

  lemma FirstPass(s: State, frame: seq<bv8>, d: Descriptor, resid: Word) returns (s': State)
    requires s.ring == [d] && s.index == 0 && Owned(d.rmd1) && s.budget >= 10 && |frame| > BufferCount(d.rmd2)
    ensures var c := BufferCount(d.rmd2);
      && s'.ring == [d.(rmd1 := Released(Starting(d.rmd1)))] && s'.index == 0 && s'.budget >= 5
      && s'.writes == (if c == 0 then s.writes else s.writes + [Write(BufferAddress(d.rmd0, d.rmd1), frame[..c])])
      && Fill(s, frame, Starting(d.rmd1), resid) == Fill(s', frame[c..], d.rmd1, resid)
  {
    hide BufferCount, Owned, Starting, Released, Ending, Short, BufferAddress;
    StartingFacts(d.rmd0, d.rmd1);
    s' := Pass(s, frame, Starting(d.rmd1), resid).state;
  }

  lemma SecondPass(s: State, rest: seq<bv8>, d: Descriptor, resid: Word)
    requires s.ring == [d.(rmd1 := Released(Starting(d.rmd1)))] && s.index == 0 && s.budget >= 5 && rest != []
    ensures var c := BufferCount(d.rmd2);
      var r := Fill(s, rest, d.rmd1, resid);
      && !r.cancelled && r.state.index == 0
      && r.state.writes == (if c == 0 then s.writes
                            else s.writes + [Write(BufferAddress(d.rmd0, d.rmd1), rest[..Min(|rest|, c)])])
      && r.state.ring == [if |rest| <= c then d.(rmd1 := Released(Ending(d.rmd1)), rmd3 := resid)
                          else d.(rmd1 := Released(Short(d.rmd1)))]
  {
    hide BufferCount, Owned, Starting, Released, Ending, Short, BufferAddress;
    OwnedFacts(Starting(d.rmd1));
  }

  /** With no bus error, a frame is received as it should be iff the ring has two
      descriptors or more, or the frame fits the one there is, or that one has no
      room at all and the host had left STP in it. */
  lemma ReceiveCorrectIff(s: State, frame: seq<bv8>)
    requires s.index < |s.ring| && 0 < |frame| <= FRAME_MAX && Owned(s.ring[s.index].rmd1)
    requires s.budget > 5 * |s.ring| && s.budget >= 11
    ensures (exists k :: Received(s, frame, Receive(s, frame), k)) <==>
      || |s.ring| >= 2
      || |frame| <= BufferCount(s.ring[0].rmd2)
      || (BufferCount(s.ring[0].rmd2) == 0 && Starting(s.ring[0].rmd1) == s.ring[0].rmd1)
  {
    hide BufferCount, Owned, Starting, Released, Ending, Short, BufferAddress, Fill;
    var s' := Receive(s, frame);
    if |s.ring| >= 2 {
      var k := ReceiveResult(s, frame);
      assert Received(s, frame, s', k);
    } else if |frame| <= BufferCount(s.ring[0].rmd2) {
      OneFits(s, frame);
      assert Received(s, frame, s', 1);
    } else {
      OneDescriptor(s, frame);
      OneReceived(s, frame, s');
      StpSeen(s.ring[0].rmd1);
      assert BufferCount(s.ring[0].rmd2) > 0 ==> |s'.writes| == |s.writes| + 2;
      if BufferCount(s.ring[0].rmd2) == 0 && Starting(s.ring[0].rmd1) == s.ring[0].rmd1 {
        assert Received(s, frame, s', 1);
      }
    }
  }

  lemma StpSeen(w: Word)
    ensures Released(Short(w)) == Released(Short(Starting(w))) ==> Starting(w) == w
  {
  }

  lemma OneFits(s: State, frame: seq<bv8>)
    requires |s.ring| == 1 && s.index == 0 && 0 < |frame| <= FRAME_MAX && Owned(s.ring[0].rmd1)
    requires s.budget >= 11 && |frame| <= BufferCount(s.ring[0].rmd2)
    ensures Received(s, frame, Receive(s, frame), 1)
  {
    hide BufferCount, Owned, Starting, Released, Ending, Short, BufferAddress;
    var d := s.ring[0];
    StartingFacts(d.rmd0, d.rmd1);
    assert Room(s.ring, 0, 0) == 0 && Room(s.ring, 0, 1) == BufferCount(d.rmd2);
    PiecesMore(s.ring, 0, 0, frame);
    assert frame[..|frame|] == frame[0..|frame|];
  }

  /** What a frame too long for the one descriptor would have to leave. */
  lemma OneReceived(s: State, frame: seq<bv8>, s': State)
    requires |s.ring| == 1 && s.index == 0 && 0 < |frame| <= FRAME_MAX && Owned(s.ring[0].rmd1)
    requires |frame| > BufferCount(s.ring[0].rmd2)
    ensures var d := s.ring[0];
      var c := BufferCount(d.rmd2);
      forall k :: Received(s, frame, s', k) <==>
        && k == 1 && s'.index == 0
        && s'.ring == [d.(rmd1 := Released(Short(Starting(d.rmd1))))]
        && s'.writes == (if c == 0 then s.writes else s.writes + [Write(BufferAddress(d.rmd0, d.rmd1), frame[..c])])
  {
    hide BufferCount, Owned, Starting, Released, Ending, Short, BufferAddress;
    var d := s.ring[0];
    var c := BufferCount(d.rmd2);
    assert Room(s.ring, 0, 0) == 0 && Room(s.ring, 0, 1) == c;
    PiecesMore(s.ring, 0, 0, frame);
    assert frame[0..c] == frame[..c];
    assert AfterFrame(s.ring, 0, 1, false, |frame| as Word) == [d.(rmd1 := Released(Short(Starting(d.rmd1))))];
  }

  // ---------------------------------------------------------------- scanning the transmit ring

  /** The transmit ring, with the RMD1 last read of the current descriptor. */
  datatype Scan = Scan(ring: seq<Descriptor>, index: nat, tmd1: Word, csr0: Word, budget: nat)

  datatype ScanOutcome = ScanOutcome(scan: Scan, cancelled: bool)

  predicate TransmitterOn(csr0: Word) { csr0 & CSR0_TXON != 0 }

  function Undemanded(csr0: Word): Word { csr0 & !CSR0_TDMD }

  function Interrupting(csr0: Word): Word { csr0 | CSR0_TINT }

  function ScanCancel(s: Scan): ScanOutcome {
    ScanOutcome(s.(csr0 := BusError(s.csr0), budget := 0), true)
  }

  /** Looks for a buffer that starts a packet, handing back those that do not. */
  function ScanLoop(s: Scan): ScanOutcome
    requires s.index < |s.ring|
    decreases s.budget
  {
    if Owned(s.tmd1) then
      if Starts(s.tmd1) then ScanOutcome(s, false)
      else if s.budget == 0 then ScanCancel(s)
      else ScanLoop(Scan(s.ring[s.index := s.ring[s.index].(rmd1 := Released(s.tmd1))],
                         Step(s.index, |s.ring|), 0, Interrupting(s.csr0), s.budget - 1))
    else if s.budget == 0 then ScanCancel(s)
    else
      var s1 := s.(tmd1 := s.ring[s.index].rmd1, budget := s.budget - 1);
      if Owned(s1.tmd1) then ScanLoop(s1) else ScanOutcome(s1, false)
  }

  function TransmitScan(s: Scan): Scan
    requires s.index < |s.ring|
  {
    if TransmitterOn(s.csr0) then ScanLoop(s.(csr0 := Undemanded(s.csr0))).scan else s
  }

  /** The ring with the `k` descriptors from `first` on handed back. */
  function Skipped(ring: seq<Descriptor>, first: nat, k: nat): (skipped: seq<Descriptor>)
    requires first < |ring|
    ensures |skipped| == |ring|
  {
    seq(|ring|, i requires 0 <= i < |ring| =>
      if Place(i, first, |ring|) < k then ring[i].(rmd1 := Released(ring[i].rmd1)) else ring[i])
  }

  /** `k` descriptors were skipped, all the chip's and none of them the start of a
      packet, and the scan stands at the next. */
  ghost predicate Skips(s: Scan, s': Scan, k: nat)
    requires s.index < |s.ring|
  {
    var n := |s.ring|;
    && k <= n
    && (forall j :: 0 <= j < k ==> var w := s.ring[At(s.index, j, n)].rmd1; Owned(w) && !Starts(w))
    && s'.ring == Skipped(s.ring, s.index, k)
    && s'.index == At(s.index, k, n)
  }

  /** CSR0 after a scan that skipped `k` descriptors. */
  function Flagged(csr0: Word, k: nat): Word {
    if k > 0 then Interrupting(csr0) else csr0
  }

  /** The scan stopped where it should: at the start of a packet, or at a
      descriptor of the host's, with its TMD1 at hand. */
  ghost predicate Stops(s: Scan, s': Scan, k: nat)
    requires s.index < |s.ring| && k <= |s.ring|
  {
    var w := s.ring[At(s.index, k, |s.ring|)].rmd1;
    if Owned(s'.tmd1) then k < |s.ring| && s'.tmd1 == w && Starts(w)
    else k == |s.ring| || (!Owned(w) && s'.tmd1 == w)
  }

  /** This is TMD1 of the `k`th descriptor, which is the chip's and starts no packet. */
  ghost predicate ToSkip(s: Scan, k: nat, tmd1: Word)
    requires s.index < |s.ring|
  {
    k < |s.ring| && tmd1 == s.ring[At(s.index, k, |s.ring|)].rmd1 && Owned(tmd1) && !Starts(tmd1)
  }

  lemma InterruptingTwice(w: Word)
    ensures Interrupting(Interrupting(w)) == Interrupting(w)
  {
  }

  lemma SkippedStep(ring: seq<Descriptor>, first: nat, j: nat)
    requires first < |ring| && j < |ring|
    ensures var p := At(first, j, |ring|);
      && Skipped(ring, first, j)[p] == ring[p]
      && Skipped(ring, first, j)[p := ring[p].(rmd1 := Released(ring[p].rmd1))] == Skipped(ring, first, j + 1)
  {
    hide Released;
    var n, p := |ring|, At(first, j, |ring|);
    PlaceAt(first, j, n);
    forall i | 0 <= i < n && i != p ensures Place(i, first, n) != j {
    }
  }

  /** Once every descriptor has been skipped, the first is the host's. */
  lemma SkippedAll(ring: seq<Descriptor>, first: nat)
    requires first < |ring|
    ensures !Owned(Skipped(ring, first, |ring|)[first].rmd1)
  {
    OwnedFacts(ring[first].rmd1);
  }

  /** What became of the rest of a scan, `j` descriptors having been skipped before and `k`
      at the end of it. */
  ghost predicate Ended(s0: Scan, s: Scan, j: nat, r: ScanOutcome, k: nat)
    requires s0.index < |s0.ring|
  {
    && Skips(s0, r.scan, k)
    && (r.cancelled || Stops(s0, r.scan, k))
    && r.scan.csr0 == (if r.cancelled then BusError(Flagged(s0.csr0, k)) else Flagged(s0.csr0, k))
    && k >= j
    && (var ops := 2 * (k - j) + if Owned(s.tmd1) then 0 else 1;
        if !r.cancelled then r.scan.budget == s.budget - ops
        else if s.budget < ops then s.budget == ops - 1 && !Owned(r.scan.tmd1)
        else s.budget == ops && ToSkip(s0, k, r.scan.tmd1))
    && (s.budget >= 2 * (|s0.ring| - j) + 1 - (if Owned(s.tmd1) then 1 else 0) ==> !r.cancelled)
  }

  /** The rest of a scan, `j` descriptors having been skipped; two DMA operations
      for each descriptor and one more are enough. */
  lemma {:induction false} ScanResult(s0: Scan, s: Scan, j: nat) returns (k: nat)
    requires s0.index < |s0.ring| && Skips(s0, s, j) && s.csr0 == Flagged(s0.csr0, j)
    requires Owned(s.tmd1) ==> j < |s0.ring| && s.tmd1 == s0.ring[At(s0.index, j, |s0.ring|)].rmd1
    ensures Ended(s0, s, j, ScanLoop(s), k)
    decreases s.budget
  {
    hide Owned, Starts, Released, Interrupting, Skipped, BusError, At;
    var n := |s0.ring|;
    k := j;
    if Owned(s.tmd1) {
      if !Starts(s.tmd1) && s.budget > 0 {
        SkippedStep(s0.ring, s0.index, j);
        PlaceAt(s0.index, j, n);
        InterruptingTwice(s0.csr0);
        NoneNotOwned();
        var s1 := Scan(s.ring[s.index := s.ring[s.index].(rmd1 := Released(s.tmd1))],
                       Step(s.index, n), 0, Interrupting(s.csr0), s.budget - 1);
        k := ScanResult(s0, s1, j + 1);
      }
    } else if s.budget > 0 {
      if j < n {
        SkippedStep(s0.ring, s0.index, j);
      } else {
        SkippedAll(s0.ring, s0.index);
        AtAll(s0.index, n);
      }
      var s1 := s.(tmd1 := s.ring[s.index].rmd1, budget := s.budget - 1);
      if Owned(s1.tmd1) {
        k := ScanResult(s0, s1, j);
      }
    }
  }

  lemma NoneNotOwned()
    ensures !Owned(0)
  {
  }

  lemma AtAll(first: nat, n: nat)
    requires first < n
    ensures At(first, n, n) == first
  {
  }

  /** A scan does nothing with the transmitter off.  With it on it skips what it should, clears TDMD, flags an
      interrupt iff it skipped anything, and makes two DMA operations for each descriptor
      it skips, and one more to read the first unless that was read before.  A bus error
      stops it when these run out. */
  lemma TransmitScanResult(s: Scan) returns (k: nat)
    requires s.index < |s.ring|
    requires TransmitterOn(s.csr0) && Owned(s.tmd1) ==> s.tmd1 == s.ring[s.index].rmd1
    ensures if !TransmitterOn(s.csr0) then TransmitScan(s) == s else Scanned(s, TransmitScan(s), k)
  {
    k := 0;
    if TransmitterOn(s.csr0) {
      k := ScanWhenOn(s);
    }
  }

  /** `k` descriptors were skipped, and the scan stopped where it should or at a bus error. */
  ghost predicate Scanned(s: Scan, s': Scan, k: nat)
    requires s.index < |s.ring|
  {
    var csr0, ops := Flagged(Undemanded(s.csr0), k), 2 * k + if Owned(s.tmd1) then 0 else 1;
    && Skips(s, s', k)
    && (|| (s'.csr0 == csr0 && Stops(s, s', k) && s'.budget == s.budget - ops)
        || (&& s'.csr0 == BusError(csr0) && s.budget <= 2 * |s.ring|
            && if s.budget < ops then s.budget == ops - 1 && !Owned(s'.tmd1)
               else s.budget == ops && ToSkip(s, k, s'.tmd1)))
  }

  lemma ScanWhenOn(s: Scan) returns (k: nat)
    requires s.index < |s.ring| && TransmitterOn(s.csr0)
    requires Owned(s.tmd1) ==> s.tmd1 == s.ring[s.index].rmd1
    ensures Scanned(s, TransmitScan(s), k)
  {
    var s1 := s.(csr0 := Undemanded(s.csr0));
    ScanBegins(s1);
    hide ScanLoop, At, Flagged, Owned, BusError, Undemanded, Skips, Ended, Scanned;
    k := ScanResult(s1, s1, 0);
    EndedScanned(s, ScanLoop(s1), k);
  }

  lemma EndedScanned(s: Scan, r: ScanOutcome, k: nat)
    requires s.index < |s.ring|
    requires var s1 := s.(csr0 := Undemanded(s.csr0)); Ended(s1, s1, 0, r, k)
    ensures Scanned(s, r.scan, k)
  {
    hide Flagged, Owned, Starts, BusError, Undemanded, At, Skipped;
  }

  lemma ScanBegins(s: Scan)
    requires s.index < |s.ring|
    ensures Skips(s, s, 0) && s.csr0 == Flagged(s.csr0, 0)
    ensures At(s.index, 0, |s.ring|) == s.index
  {
    SkippedNone(s.ring, s.index);
  }

  lemma SkippedNone(ring: seq<Descriptor>, first: nat)
    requires first < |ring|
    ensures Skipped(ring, first, 0) == ring
  {
  }

  // ---------------------------------------------------------------- the chip

  class Lance {
    var receiveRing: seq<Descriptor>
    var receiveIndex: nat
    var transmitRing: seq<Descriptor>
    var transmitIndex: nat
    var transmitTmd1: Word
    var csr0: Word
    var writes: seq<Write>
    var budget: nat

    ghost predicate Valid()
      reads this
    {
      && IsPow2(|receiveRing|) && receiveIndex < |receiveRing|
      && IsPow2(|transmitRing|) && transmitIndex < |transmitRing|
    }

    ghost function ReceiveView(): State
      reads this
    {
      State(receiveRing, receiveIndex, csr0, writes, budget)
    }

    ghost function ScanView(): Scan
      reads this
    {
      Scan(transmitRing, transmitIndex, transmitTmd1, csr0, budget)
    }

    constructor (receiveRing: seq<Descriptor>, transmitRing: seq<Descriptor>, csr0: Word, budget: nat)
      requires IsPow2(|receiveRing|) && IsPow2(|transmitRing|)
      ensures Valid()
      ensures ReceiveView() == State(receiveRing, 0, csr0, [], budget)
      ensures ScanView() == Scan(transmitRing, 0, 0, csr0, budget)
    {
      this.receiveRing, this.transmitRing := receiveRing, transmitRing;
      receiveIndex, transmitIndex, transmitTmd1 := 0, 0, 0;
      this.csr0, writes, this.budget := csr0, [], budget;
    }

    /** One DMA operation, cancelled by a bus error. */
    method Dma() returns (cancelled: bool)
      modifies `csr0, `budget
      ensures cancelled == (old(budget) == 0)
      ensures csr0 == if cancelled then BusError(old(csr0)) else old(csr0)
      ensures budget == if cancelled then 0 else old(budget) - 1
    {
      if budget == 0 {
        csr0 := BusError(csr0);
        return true;
      }
      budget := budget - 1;
      cancelled := false;
    }

    method ReceiveFrame(frame: seq<bv8>)
      requires Valid() && 0 < |frame| <= FRAME_MAX
      modifies `receiveRing, `receiveIndex, `csr0, `writes, `budget
      ensures Valid()
      ensures ReceiveView() == Receive(old(ReceiveView()), frame)
    {
      hide IsPow2, Owned, BusError;
      var cancelled := Dma();
      if cancelled {
        return;
      }
      var rmd1 := receiveRing[receiveIndex].rmd1;
      if !Owned(rmd1) {
        csr0 := csr0 | CSR0_MISS;
        return;
      }
      cancelled := FillBuffers(frame, Starting(rmd1), |frame| as Word);
      if !cancelled {
        csr0 := csr0 | CSR0_RINT;
      }
    }

    /** Writes a frame into buffers until it or they run out. */
    method FillBuffers(frame: seq<bv8>, first: Word, resid: Word) returns (cancelled: bool)
      requires Valid() && frame != []
      modifies `receiveRing, `receiveIndex, `csr0, `writes, `budget
      ensures Valid()
      ensures Outcome(ReceiveView(), cancelled) == Fill(old(ReceiveView()), frame, first, resid)
    {
      hide IsPow2, BufferCount, BufferAddress, Owned, Released, Ending, Short, BusError;
      var rest, rmd1, stop := frame, first, false;
      cancelled := false;
      while !stop && !cancelled
        invariant Valid()
        invariant Outcome(ReceiveView(), cancelled) == Fill(old(ReceiveView()), frame, first, resid)
               || (!stop && !cancelled
                   && Fill(ReceiveView(), rest, rmd1, resid) == Fill(old(ReceiveView()), frame, first, resid))
        invariant stop || cancelled ==> Outcome(ReceiveView(), cancelled) == Fill(old(ReceiveView()), frame, first, resid)
        invariant !stop && !cancelled ==>
          Fill(ReceiveView(), rest, rmd1, resid) == Fill(old(ReceiveView()), frame, first, resid)
        decreases !stop && !cancelled, budget
      {
        var next;
        cancelled, stop, rest, next := PassOnce(rest, rmd1, resid);
        rmd1 := next;
      }
    }

    /** Reads where the current buffer is and how long, and writes to it. */
    method FillBuffer(frame: seq<bv8>, rmd1: Word) returns (cancelled: bool, count: nat)
      requires Valid()
      modifies `csr0, `writes, `budget
      ensures count <= |frame|
      ensures var s := old(ReceiveView());
        var d := s.ring[s.index];
        var w := if BufferCount(d.rmd2) > 0 && |frame| > 0 then 1 else 0;
        && cancelled == (s.budget < 2 + w)
        && (cancelled ==> ReceiveView() == Cancel(s).state && count == 0)
        && (!cancelled ==>
              && count == Min(|frame|, BufferCount(d.rmd2))
              && ReceiveView() == s.(writes := s.writes + if count > 0 then [Write(BufferAddress(d.rmd0, rmd1), frame[..count])] else [],
                                     budget := s.budget - 2 - w))
    {
      hide IsPow2, BufferCount, BufferAddress, BusError;
      count := 0;
      cancelled := Dma();
      if cancelled { return; }
      var rmd0 := receiveRing[receiveIndex].rmd0;
      cancelled := Dma();
      if cancelled { return; }
      var rmd2 := receiveRing[receiveIndex].rmd2;
      var n := Min(|frame|, BufferCount(rmd2));
      if n > 0 {
        cancelled := Dma();
        if cancelled { return; }
        writes := writes + [Write(BufferAddress(rmd0, rmd1), frame[..n])];
      }
      count := n;
    }

    /** Hands the current descriptor back and moves on. */
    method HandBackNow(rmd1: Word) returns (cancelled: bool)
      requires Valid()
      modifies `receiveRing, `receiveIndex, `csr0, `budget
      ensures Valid()
      ensures cancelled == (old(budget) == 0)
      ensures ReceiveView() == if cancelled then Cancel(old(ReceiveView())).state
                               else HandBack(old(ReceiveView()), rmd1, 1)
    {
      hide IsPow2, Released, BusError;
      cancelled := Dma();
      if cancelled { return; }
      receiveRing := receiveRing[receiveIndex := receiveRing[receiveIndex].(rmd1 := Released(rmd1))];
      NextWraps(receiveIndex, |receiveRing|);
      receiveIndex := Next(receiveIndex, |receiveRing| - 1);
    }

    /** One pass of the loop. */
    method PassOnce(frame: seq<bv8>, rmd1: Word, resid: Word) returns (cancelled: bool, stop: bool, rest: seq<bv8>, next: Word)
      requires Valid()
      modifies `receiveRing, `receiveIndex, `csr0, `writes, `budget
      ensures Valid()
      ensures Passed(ReceiveView(), cancelled, stop, rest, next) == Pass(old(ReceiveView()), frame, rmd1, resid)
    {
      hide IsPow2, BufferCount, BufferAddress, Owned, Released, Ending, Short, BusError;
      stop, rest, next := false, frame, 0;
      var count, written;
      cancelled, count := FillBuffer(frame, rmd1);
      if cancelled { return; }
      rest := frame[count..];
      cancelled := Dma();
      if cancelled { return; }
      stop, next, written := EndPass(count == |frame|, rmd1, resid);
      cancelled := HandBackNow(written);
    }

    /** Writes MCNT after the last of a frame, or reads RMD1 of the next descriptor. */
    method EndPass(last: bool, rmd1: Word, resid: Word) returns (stop: bool, next: Word, written: Word)
      requires Valid()
      modifies `receiveRing
      ensures Valid() && |receiveRing| == |old(receiveRing)|
      ensures receiveRing == if last then old(receiveRing)[receiveIndex := old(receiveRing)[receiveIndex].(rmd3 := resid)]
                             else old(receiveRing)
      ensures next == if last then 0 else receiveRing[Step(receiveIndex, |receiveRing|)].rmd1
      ensures stop == (last || !Owned(next))
      ensures written == if last then Ending(rmd1) else if Owned(next) then rmd1 else Short(rmd1)
    {
      hide IsPow2, Owned, Ending, Short;
      if last {
        receiveRing := receiveRing[receiveIndex := receiveRing[receiveIndex].(rmd3 := resid)];
        next, written, stop := 0, Ending(rmd1), true;
      } else {
        NextWraps(receiveIndex, |receiveRing|);
        next := receiveRing[Next(receiveIndex, |receiveRing| - 1)].rmd1;
        stop := !Owned(next);
        written := if stop then Short(rmd1) else rmd1;
      }
    }

    /** Hands back a transmit descriptor that starts no packet. */
    method SkipNow(tmd1: Word)
      requires Valid()
      modifies `transmitRing, `transmitIndex, `transmitTmd1, `csr0
      ensures Valid()
      ensures ScanView() == Scan(old(transmitRing)[old(transmitIndex) := old(transmitRing)[old(transmitIndex)].(rmd1 := Released(tmd1))],
                                 Step(old(transmitIndex), |transmitRing|), 0, Interrupting(old(csr0)), budget)
    {
      hide IsPow2, Released, Interrupting;
      transmitRing := transmitRing[transmitIndex := transmitRing[transmitIndex].(rmd1 := Released(tmd1))];
      NextWraps(transmitIndex, |transmitRing|);
      transmitIndex := Next(transmitIndex, |transmitRing| - 1);
      transmitTmd1 := 0;
      csr0 := Interrupting(csr0);
    }

    /** Looks for a transmit buffer that starts a packet. */
    method ScanTransmit()
      requires Valid()
      modifies `transmitRing, `transmitIndex, `transmitTmd1, `csr0, `budget
      ensures Valid()
      ensures ScanView() == TransmitScan(old(ScanView()))
    {
      hide IsPow2, Owned, Starts, Released, Interrupting, BusError, TransmitterOn, Undemanded;
      if !TransmitterOn(csr0) {
        return;
      }
      csr0 := Undemanded(csr0);
      ghost var start := ScanView();
      while true
        invariant Valid()
        invariant ScanLoop(ScanView()) == ScanLoop(start)
        decreases budget
      {
        var tmd1 := transmitTmd1;
        if Owned(tmd1) {
          if Starts(tmd1) {
            return;
          }
          var cancelled := Dma();
          if cancelled {
            return;
          }
          SkipNow(tmd1);
        } else {
          var cancelled := Dma();
          if cancelled {
            return;
          }
          transmitTmd1 := transmitRing[transmitIndex].rmd1;
          if !Owned(transmitTmd1) {
            return;
          }
        }
      }
    }
  }
}
