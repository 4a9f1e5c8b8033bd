/** Two helpers every Ethernet element shares: the frame check sequence (section
    3.2.9 of IEEE 802.3) with a table for four bits at a time, and the copy from one
    list of chunks of memory to another. */
module EthernetFrames {
  import Words


  // ---------------------------------------------------------------- the frame check sequence

  /** The generator polynomial, its bits reversed. */
  const POLYNOMIAL: bv32 := 0xedb8_8320

  const ALL_ONES: bv32 := 0xffff_ffff

  function Xor(a: bv32, b: bv32): bv32 { a ^ b }

  function Down(w: bv32): bv32 { w >> 1 }

  predicate Low(w: bv32) { w & 1 != 0 }

  function Mix(w: bv32): bv32 { w ^ POLYNOMIAL }

  /** The register of a division by the polynomial, fed one bit of a message. */
  function FeedBit(register: bv32, bit: bool): bv32 {
    if Low(register) != bit then Mix(Down(register)) else Down(register)
  }

  function Feed(register: bv32, bits: seq<bool>): bv32
    decreases |bits|
  {
    if bits == [] then register else Feed(FeedBit(register, bits[0]), bits[1..])
  }

  /** The bits of a byte, least significant first, as they go on the wire. */
  function ByteBits(b: bv8): seq<bool> {
    [b & 1 != 0, b & 2 != 0, b & 4 != 0, b & 8 != 0, b & 16 != 0, b & 32 != 0, b & 64 != 0, b & 128 != 0]
  }

  function Bits(bytes: seq<bv8>): seq<bool> {
    if bytes == [] then [] else ByteBits(bytes[0]) + Bits(bytes[1..])
  }

  /** The frame check sequence of a message, without the final complement. */
  function Remainder(bits: seq<bool>): bv32 { Feed(ALL_ONES, bits) }

  lemma {:induction false} FeedSplit(register: bv32, a: seq<bool>, b: seq<bool>)
    ensures Feed(register, a + b) == Feed(Feed(register, a), b)
    decreases |a|
  {
    hide FeedBit;
    if a == [] {
      assert a + b == b;
    } else {
      assert (a + b)[1..] == a[1..] + b;
      FeedSplit(FeedBit(register, a[0]), a[1..], b);
    }
  }

  lemma {:induction false} BitsSplit(a: seq<bv8>, b: seq<bv8>)
    ensures Bits(a + b) == Bits(a) + Bits(b)
  {
    hide ByteBits;
    if a == [] {
      assert a + b == b;
    } else {
      assert (a + b)[1..] == a[1..] + b;
      BitsSplit(a[1..], b);
    }
  }

  // the table

  function Table(nibble: bv32): bv32 {
    if nibble == 0 then 0x0000_0000 else if nibble == 1 then 0x1db7_1064
    else if nibble == 2 then 0x3b6e_20c8 else if nibble == 3 then 0x26d9_30ac
    else if nibble == 4 then 0x76dc_4190 else if nibble == 5 then 0x6b6b_51f4
    else if nibble == 6 then 0x4db2_6158 else if nibble == 7 then 0x5005_713c
    else if nibble == 8 then 0xedb8_8320 else if nibble == 9 then 0xf00f_9344
    else if nibble == 10 then 0xd6d6_a3e8 else if nibble == 11 then 0xcb61_b38c
    else if nibble == 12 then 0x9b64_c2b0 else if nibble == 13 then 0x86d3_d2d4
    else if nibble == 14 then 0xa00a_e278 else 0xbdbd_f21c
  }

  function ByNibble(crc: bv32): bv32 { Xor(crc >> 4, Table(crc & 0xf)) }

  /** A byte fed through the table, both halves. */
  function ByTable(crc: bv32, b: bv8): bv32 {
    ByNibble(ByNibble(crc ^ (b as bv32)))
  }

  function FourZeros(crc: bv32): bv32 {
    FeedBit(FeedBit(FeedBit(FeedBit(crc, false), false), false), false)
  }

  lemma FeedFour(crc: bv32, bits: seq<bool>)
    requires |bits| >= 4
    ensures Feed(crc, bits) == Feed(Feed4(crc, bits), bits[4..])
  {
    hide FeedBit;
    var r1 := FeedBit(crc, bits[0]);
    var r2 := FeedBit(r1, bits[1]);
    var r3 := FeedBit(r2, bits[2]);
    assert bits[1..][1..] == bits[2..] && bits[2..][1..] == bits[3..] && bits[3..][1..] == bits[4..];
    assert Feed(crc, bits) == Feed(r1, bits[1..]);
    assert Feed(r1, bits[1..]) == Feed(r2, bits[2..]);
    assert Feed(r2, bits[2..]) == Feed(r3, bits[3..]);
  }

  /** A word put into the register before a step: its low bit is fed by the step,
      what is above comes down unchanged. */
  lemma StepWithWord(crc: bv32, w: bv32)
    ensures FeedBit(Xor(crc, w), false) == Xor(FeedBit(crc, Low(w)), Down(w))
  {
    hide Xor, Down, Low, Mix;
    DownXor(crc, w);
    MixOut(Down(crc), Down(w));
  }

  lemma DownXor(a: bv32, b: bv32)
    ensures Down(Xor(a, b)) == Xor(Down(a), Down(b))
    ensures Low(Xor(a, b)) <==> Low(a) != Low(b)
  {
  }

  lemma XorCommutes(a: bv32, b: bv32)
    ensures Xor(a, b) == Xor(b, a)
  {
  }

  lemma MixOut(a: bv32, b: bv32)
    ensures Xor(Mix(a), b) == Mix(Xor(a, b))
  {
  }

  lemma MixTwice(a: bv32)
    ensures Mix(Mix(a)) == a
  {
  }

  lemma ByteWord(b: bv8)
    ensures var w := b as bv32;
      var w1 := Down(w); var w2 := Down(w1); var w3 := Down(w2); var w4 := Down(w3);
      var w5 := Down(w4); var w6 := Down(w5); var w7 := Down(w6);
      ByteBits(b) == [Low(w), Low(w1), Low(w2), Low(w3), Low(w4), Low(w5), Low(w6), Low(w7)] && Down(w7) == 0
  {
  }

  lemma XorZero(a: bv32)
    ensures Xor(a, 0) == a
  {
  }

  /** Four steps with a word in the register. */
  lemma FourWithWord(crc: bv32, w: bv32)
    ensures var w1 := Down(w); var w2 := Down(w1); var w3 := Down(w2);
      FourZeros(Xor(crc, w))
      == Xor(FeedBit(FeedBit(FeedBit(FeedBit(crc, Low(w)), Low(w1)), Low(w2)), Low(w3)), Down(w3))
  {
    hide FeedBit, Xor, Down, Low;
    var w1 := Down(w);
    var w2 := Down(w1);
    var w3 := Down(w2);
    var r1 := FeedBit(crc, Low(w));
    var r2 := FeedBit(r1, Low(w1));
    StepWithWord(crc, w);
    StepWithWord(r1, w1);
    StepWithWord(r2, w2);
    StepWithWord(FeedBit(r2, Low(w2)), w3);
  }

  /** An entry of the table is what four bits leave of an empty register. */
  lemma TableEntry(b0: bool, b1: bool, b2: bool, b3: bool)
    ensures Table(NibbleOf(b0, b1, b2, b3)) == FeedBit(FeedBit(FeedBit(FeedBit(0, b0), b1), b2), b3)
  {
    assert FeedBit(0, b0) == if b0 then POLYNOMIAL else 0;
    assert FeedBit(FeedBit(0, b0), b1) ==
      if b0 then (if b1 then 0x9b64_c2b0 else 0x76dc_4190) else if b1 then POLYNOMIAL else 0;
  }

  function NibbleOf(b0: bool, b1: bool, b2: bool, b3: bool): bv32 {
    (if b0 then 1 else 0) + (if b1 then 2 else 0) + (if b2 then 4 else 0) + (if b3 then 8 else 0)
  }

  lemma NibbleBits(crc: bv32)
    ensures var c1 := Down(crc); var c2 := Down(c1); var c3 := Down(c2);
      crc & 0xf == NibbleOf(Low(crc), Low(c1), Low(c2), Low(c3)) && Down(c3) == crc >> 4
  {
  }

  /** Four bits through the table are four steps of the shift register. */
  lemma NibbleIsFourBits(crc: bv32)
    ensures ByNibble(crc) == FourZeros(crc)
  {
    NibbleBits(crc);
    XorCommutes(crc >> 4, Table(crc & 0xf));
    XorZero(crc);
    XorCommutes(crc, 0);
    hide FeedBit, Xor, Down, Low, NibbleOf, Table;
    FourWithWord(0, crc);
    TableEntry(Low(crc), Low(Down(crc)), Low(Down(Down(crc))), Low(Down(Down(Down(crc)))));
  }

  /** One byte through the table is its eight bits through the shift register. */
  lemma TableIsEightBits(crc: bv32, b: bv8)
    ensures ByTable(crc, b) == Feed(crc, ByteBits(b))
  {
    var w := b as bv32;
    ByteWord(b);
    assert ByTable(crc, b) == ByNibble(ByNibble(Xor(crc, w)));
    hide FeedBit, Xor, Down, Low, ByNibble, ByTable, FourZeros, ByteBits;
    var w4 := Down(Down(Down(Down(w))));
    var bits := ByteBits(b);
    var r := Feed4(crc, bits);
    FourWithWord(crc, w);
    FourWithWord(r, w4);
    FeedFour(crc, bits);
    FeedFour(r, bits[4..]);
    assert bits[4..][4..] == [];
    XorZero(Feed4(r, bits[4..]));
    NibbleIsFourBits(Xor(crc, w));
    NibbleIsFourBits(Xor(r, w4));
  }

  function Feed4(crc: bv32, bits: seq<bool>): bv32
    requires |bits| >= 4
  {
    FeedBit(FeedBit(FeedBit(FeedBit(crc, bits[0]), bits[1]), bits[2]), bits[3])
  }

  function ByTableAll(crc: bv32, bytes: seq<bv8>): bv32
    decreases |bytes|
  {
    if bytes == [] then crc else ByTableAll(ByTable(crc, bytes[0]), bytes[1..])
  }

  lemma {:induction false} TableIsFeed(crc: bv32, bytes: seq<bv8>)
    ensures ByTableAll(crc, bytes) == Feed(crc, Bits(bytes))
    decreases |bytes|
  {
    hide ByTable, ByteBits;
    if bytes != [] {
      TableIsEightBits(crc, bytes[0]);
      FeedSplit(crc, ByteBits(bytes[0]), Bits(bytes[1..]));
      TableIsFeed(ByTable(crc, bytes[0]), bytes[1..]);
    }
  }

  /** The checksum, a byte at a time with the table, is the remainder of the bits. */
  method Crc32(bytes: seq<bv8>) returns (crc: bv32)
    ensures crc == Remainder(Bits(bytes))
  {
    hide FeedBit, Table, ByNibble, ByteBits;
    crc := 0 - 1;
    assert crc == ALL_ONES;
    var i := 0;
    assert bytes[0..] == bytes;
    while i < |bytes|
      invariant 0 <= i <= |bytes|
      invariant ByTableAll(crc, bytes[i..]) == ByTableAll(ALL_ONES, bytes)
    {
      assert bytes[i..][0] == bytes[i] && bytes[i..][1..] == bytes[i + 1..];
      crc := crc ^ (bytes[i] as bv32);
      crc := ByNibble(crc);
      crc := ByNibble(crc);
      i := i + 1;
    }
    TableIsFeed(ALL_ONES, bytes);
  }

  /** It can be computed piece by piece, over any split. */
  lemma Piecewise(a: seq<bv8>, b: seq<bv8>)
    ensures Remainder(Bits(a + b)) == Feed(Remainder(Bits(a)), Bits(b))
  {
    BitsSplit(a, b);
    FeedSplit(ALL_ONES, Bits(a), Bits(b));
  }

  // ---------------------------------------------------------------- what the sequence detects

  /** Different registers stay different while they are fed the same bits. */
  lemma {:induction false} FeedInjective(r: bv32, s: bv32, bits: seq<bool>)
    requires Feed(r, bits) == Feed(s, bits)
    ensures r == s
    decreases |bits|
  {
    if bits != [] {
      FeedInjective(FeedBit(r, bits[0]), FeedBit(s, bits[0]), bits[1..]);
      BitInjective(r, s, bits[0]);
    }
  }

  lemma BitInjective(r: bv32, s: bv32, bit: bool)
    ensures FeedBit(r, bit) == FeedBit(s, bit) ==> r == s
  {
  }

  /** The word one bit up, with a bit at its foot. */
  function Up(w: bv32, bit: bool): bv32 { if bit then (w << 1) | 1 else w << 1 }

  predicate TopIsClear(w: bv32) { w & 0x8000_0000 == 0 }

  function And(a: bv32, b: bv32): bv32 { a & b }

  predicate Within(w: bv32, mask: bv32) { And(w, mask) == w }

  /** Where two bit strings differ, as a number, the first bit least significant. */
  function Difference(x: seq<bool>, y: seq<bool>): bv32
    requires |x| == |y|
  {
    if x == [] then 0 else Up(Difference(x[1..], y[1..]), x[0] != y[0])
  }

  /** A word with its low `n` bits set. */
  function LowBits(n: nat): bv32 {
    if n == 0 then 0 else Up(LowBits(n - 1), true)
  }

  lemma UpWithin(d: bv32, e: bv32, bit: bool)
    requires Within(d, e)
    ensures Within(Up(d, bit), Up(e, true))
  {
    hide Up, And;
    if bit { UpOne(d, e); } else { UpNone(d, e); }
  }

  lemma UpOne(d: bv32, e: bv32)
    ensures And(Up(d, true), Up(e, true)) == Up(And(d, e), true)
  {
  }

  lemma UpNone(d: bv32, e: bv32)
    ensures And(Up(d, false), Up(e, true)) == Up(And(d, e), false)
  {
  }

  lemma ZeroWithin(e: bv32)
    ensures Within(0, e)
  {
  }

  lemma {:induction false} DifferenceBelow(x: seq<bool>, y: seq<bool>)
    requires |x| == |y|
    ensures Within(Difference(x, y), LowBits(|x|))
  {
    hide Up, Within;
    if x == [] {
      ZeroWithin(LowBits(0));
    } else {
      DifferenceBelow(x[1..], y[1..]);
      UpWithin(Difference(x[1..], y[1..]), LowBits(|x| - 1), x[0] != y[0]);
    }
  }

  lemma {:induction false} LowBitsMonotone(n: nat, m: nat)
    requires n <= m
    ensures Within(LowBits(n), LowBits(m))
  {
    hide Up, Within;
    if n == 0 {
      ZeroWithin(LowBits(m));
    } else {
      LowBitsMonotone(n - 1, m - 1);
      UpWithin(LowBits(n - 1), LowBits(m - 1), true);
    }
  }

  lemma FourMore(n: nat)
    ensures LowBits(n + 4) == (LowBits(n) << 4) | 0xf
  {
    FourUp(LowBits(n));
    hide Up;
    assert LowBits(n + 1) == Up(LowBits(n), true);
    assert LowBits(n + 2) == Up(LowBits(n + 1), true);
    assert LowBits(n + 3) == Up(LowBits(n + 2), true);
    assert LowBits(n + 4) == Up(LowBits(n + 3), true);
  }

  lemma FourUp(w: bv32)
    ensures Up(Up(Up(Up(w, true), true), true), true) == (w << 4) | 0xf
  {
  }

  lemma LowBits31()
    ensures LowBits(31) == 0x7fff_ffff
  {
    FourMore(0);
    FourMore(4);
    FourMore(8);
    FourMore(12);
    FourMore(16);
    FourMore(20);
    FourMore(24);
    assert LowBits(29) == Up(LowBits(28), true);
    assert LowBits(30) == Up(LowBits(29), true);
    assert LowBits(31) == Up(LowBits(30), true);
  }

  /** Fewer than 32 bits leave the top bit of a word clear. */
  lemma FewLeaveTop(w: bv32, n: nat)
    requires n < 32 && Within(w, LowBits(n))
    ensures TopIsClear(w)
  {
    LowBits31();
    LowBitsMonotone(n, 31);
    TopOfWithin(w, LowBits(n));
  }

  lemma TopOfWithin(w: bv32, low: bv32)
    requires Within(w, low) && Within(low, 0x7fff_ffff)
    ensures TopIsClear(w)
  {
  }

  /** Feeding two registers is feeding their difference. */
  lemma FeedXor(r: bv32, s: bv32, x: bool, y: bool)
    ensures Xor(FeedBit(r, x), FeedBit(s, y)) == FeedBit(Xor(r, s), x != y)
  {
    hide Xor, Down, Low, Mix;
    DownXor(r, s);
    var a, b := Down(r), Down(s);
    MixOut(a, b);
    MixOut(b, a);
    MixOut(a, Mix(b));
    XorCommutes(a, b);
    XorCommutes(a, Mix(b));
    MixTwice(Xor(a, b));
  }

  /** When a step leaves the top bit clear, what it was fed was its low bit, and all
      it did was to shift. */
  lemma FeedUndone(d: bv32, bit: bool)
    requires TopIsClear(FeedBit(d, bit))
    ensures d == Up(FeedBit(d, bit), bit)
  {
  }

  lemma XorTwice(a: bv32, b: bv32)
    ensures Xor(Xor(a, b), b) == a && Xor(a, a) == 0
  {
  }

  lemma XorSelf(a: bv32, b: bv32)
    ensures Xor(a, b) == 0 <==> a == b
  {
    hide Xor;
    XorTwice(a, b);
    XorCommutes(0, b);
    XorZero(b);
  }

  /** Two registers that meet after at most 32 bits differ as those bits do. */
  lemma {:induction false} MeetDifference(r: bv32, s: bv32, x: seq<bool>, y: seq<bool>)
    requires |x| == |y| <= 32 && Feed(r, x) == Feed(s, y)
    ensures Xor(r, s) == Difference(x, y)
    decreases |x|
  {
    hide FeedBit, LowBits, Up, Within, TopIsClear, Xor;
    if x == [] {
      XorSelf(r, s);
    } else {
      MeetDifference(FeedBit(r, x[0]), FeedBit(s, y[0]), x[1..], y[1..]);
      DifferenceBelow(x[1..], y[1..]);
      FewLeaveTop(Difference(x[1..], y[1..]), |x| - 1);
      FeedXor(r, s, x[0], y[0]);
      FeedUndone(Xor(r, s), x[0] != y[0]);
    }
  }

  lemma {:induction false} DifferenceZero(x: seq<bool>, y: seq<bool>)
    requires |x| == |y| <= 32 && Difference(x, y) == 0
    ensures x == y
  {
    hide LowBits, Up, Within, TopIsClear;
    if x != [] {
      var d := Difference(x[1..], y[1..]);
      DifferenceBelow(x[1..], y[1..]);
      FewLeaveTop(d, |x| - 1);
      UpZero(d, x[0] != y[0]);
      DifferenceZero(x[1..], y[1..]);
      assert x == [x[0]] + x[1..] && y == [y[0]] + y[1..];
    }
  }

  lemma UpZero(d: bv32, bit: bool)
    requires TopIsClear(d) && Up(d, bit) == 0
    ensures d == 0 && !bit
  {
  }

  /** Every burst of errors at most 32 bits long changes the remainder, wherever in
      a message of whatever length it is. */
  lemma BurstDetected(before: seq<bool>, x: seq<bool>, y: seq<bool>, after: seq<bool>)
    requires |x| == |y| <= 32 && x != y
    ensures Remainder(before + x + after) != Remainder(before + y + after)
  {
    hide Difference, Xor;
    if Remainder(before + x + after) == Remainder(before + y + after) {
      FeedSplit(ALL_ONES, before + x, after);
      FeedSplit(ALL_ONES, before + y, after);
      FeedSplit(ALL_ONES, before, x);
      FeedSplit(ALL_ONES, before, y);
      var r := Feed(ALL_ONES, before);
      FeedInjective(Feed(r, x), Feed(r, y), after);
      MeetDifference(r, r, x, y);
      XorSelf(r, r);
      DifferenceZero(x, y);
    }
  }

  // ---------------------------------------------------------------- copying chunks

  /** A stretch of memory. */
  datatype Chunk = Chunk(first: nat, count: nat)

  function Range(first: nat, count: nat): (addresses: seq<nat>)
    ensures |addresses| == count
  {
    seq(count, i requires 0 <= i => first + i)
  }

  /** The addresses of a list of chunks, in order. */
  function Flat(chunks: seq<Chunk>): seq<nat> {
    if chunks == [] then [] else Range(chunks[0].first, chunks[0].count) + Flat(chunks[1..])
  }

  predicate NonZero(chunks: seq<Chunk>) {
    forall i :: 0 <= i < |chunks| ==> chunks[i].count > 0
  }

  /** A walk over both lists comes to a chunk of no bytes only when the other list
      has been used up; then it is not copied to or from. */
  predicate EmptyAtEnd(chunks: seq<Chunk>, other: seq<Chunk>) {
    forall i :: 0 <= i < |chunks| && chunks[i].count == 0 ==>
      |Flat(other)| + |Flat(chunks[i + 1..])| <= |Flat(chunks)|
  }

  /** No chunk the copy meets is empty: one list has none, and those of the other
      come after all that is copied. */
  predicate NoneEmptyMet(dst: seq<Chunk>, src: seq<Chunk>) {
    (NonZero(dst) && EmptyAtEnd(src, dst)) || (NonZero(src) && EmptyAtEnd(dst, src))
  }

  predicate InMemory(chunks: seq<Chunk>, length: nat) {
    forall i :: 0 <= i < |chunks| ==> chunks[i].first + chunks[i].count <= length
  }

  predicate Distinct(addresses: seq<nat>) {
    forall i, j :: 0 <= i < j < |addresses| ==> addresses[i] != addresses[j]
  }

  predicate Disjoint(a: seq<nat>, b: seq<nat>) {
    forall i, j :: 0 <= i < |a| && 0 <= j < |b| ==> a[i] != b[j]
  }

  /** Where a walk over a list of chunks stands: `at` bytes into it, `size` bytes
      left of chunk `i`, from address `p`. */
  ghost predicate Standing(chunks: seq<Chunk>, i: nat, p: nat, size: nat, at: nat) {
    && i <= |chunks| && at <= |Flat(chunks)|
    && (if i == |chunks| then at == |Flat(chunks)|
        else
          && p + size == chunks[i].first + chunks[i].count && chunks[i].first <= p
          && (size == 0 ==> chunks[i].count == 0)
          && Flat(chunks)[at..] == Range(p, size) + Flat(chunks[i + 1..]))
  }

  /** At a chunk of no bytes the other list has been used up. */
  lemma EmptyMet(chunks: seq<Chunk>, i: nat, p: nat, at: nat, other: seq<Chunk>)
    requires Standing(chunks, i, p, 0, at) && i < |chunks| && EmptyAtEnd(chunks, other)
    ensures |Flat(other)| <= at
  {
    assert |Flat(chunks)[at..]| == |Flat(chunks[i + 1..])|;
  }

  /** Two walks that have come equally far stand at bytes to copy. */
  lemma BytesToCopy(dst: seq<Chunk>, src: seq<Chunk>, d: Cursor, s: Cursor, at: nat)
    requires NoneEmptyMet(dst, src) && d.i < |dst| && s.i < |src|
    requires Standing(src, s.i, s.p, s.size, at) && Standing(dst, d.i, d.p, d.size, at)
    ensures d.size > 0 && s.size > 0
  {
    assert |Flat(dst)[at..]| == d.size + |Flat(dst[d.i + 1..])|;
    assert |Flat(src)[at..]| == s.size + |Flat(src[s.i + 1..])|;
    if NonZero(dst) && s.size == 0 {
      EmptyMet(src, s.i, s.p, at, dst);
    } else if NonZero(src) && d.size == 0 {
      EmptyMet(dst, d.i, d.p, at, src);
    }
  }

  lemma StandingStarts(chunks: seq<Chunk>)
    ensures chunks == [] ==> Standing(chunks, 0, 0, 0, 0)
    ensures chunks != [] ==> Standing(chunks, 0, chunks[0].first, chunks[0].count, 0)
  {
  }

  /** After `n` bytes: further into the same chunk, or at the start of the next. */
  lemma StandingMoves(chunks: seq<Chunk>, i: nat, p: nat, size: nat, at: nat, n: nat)
    requires i < |chunks| && Standing(chunks, i, p, size, at) && n <= size
    ensures at + n <= |Flat(chunks)|
    ensures Flat(chunks)[at..at + n] == Range(p, n)
    ensures n < size ==> Standing(chunks, i, p + n, size - n, at + n)
    ensures n == size && i + 1 < |chunks| ==> Standing(chunks, i + 1, chunks[i + 1].first, chunks[i + 1].count, at + n)
    ensures n == size && i + 1 == |chunks| ==> Standing(chunks, i + 1, p + n, 0, at + n)
  {
    hide Flat, Range;
    SplitTail(Flat(chunks), at, p, size, Flat(chunks[i + 1..]), n);
    if n == size {
      FlatFrom(chunks, i + 1);
    }
  }

  lemma SplitTail(flat: seq<nat>, at: nat, p: nat, size: nat, rest: seq<nat>, n: nat)
    requires at <= |flat| && flat[at..] == Range(p, size) + rest && n <= size
    ensures at + n <= |flat| && flat[at..at + n] == Range(p, n)
    ensures flat[at + n..] == Range(p + n, size - n) + rest
    ensures n == size ==> flat[at + n..] == rest
  {
    RangeSplits(p, size, n);
    hide Range;
    var whole, tail := Range(p, size), flat[at..];
    assert |tail| == |flat| - at;
    assert flat[at..at + n] == tail[..n];
    assert flat[at + n..] == tail[n..];
    assert tail[..n] == whole[..n];
    assert tail[n..] == whole[n..] + rest;
  }

  lemma RangeSplits(p: nat, size: nat, n: nat)
    requires n <= size
    ensures Range(p, size)[..n] == Range(p, n) && Range(p, size)[n..] == Range(p + n, size - n)
  {
  }

  lemma FlatFrom(chunks: seq<Chunk>, i: nat)
    requires i <= |chunks|
    ensures Flat(chunks[i..]) ==
      if i == |chunks| then [] else Range(chunks[i].first, chunks[i].count) + Flat(chunks[i + 1..])
  {
    if i < |chunks| { assert chunks[i..][1..] == chunks[i + 1..]; }
  }

  /** Memory after `n` bytes have been copied from the addresses `from` to the
      addresses `to`: those hold what was there, and nothing else has changed. */
  ghost predicate Copied(before: seq<bv8>, after: seq<bv8>, to: seq<nat>, from: seq<nat>, n: nat) {
    && |after| == |before| && n <= |to| && n <= |from|
    && (forall j :: 0 <= j < n ==> to[j] < |after| && from[j] < |before| && after[to[j]] == before[from[j]])
    && (forall a :: 0 <= a < |after| && a !in to[..n] ==> after[a] == before[a])
  }

  lemma RangeAt(s: seq<nat>, at: nat, n: nat, p: nat, i: nat)
    requires at <= i < at + n <= |s| && s[at..at + n] == Range(p, n)
    ensures s[i] == p + (i - at)
  {
    assert s[i] == s[at..at + n][i - at];
  }

  /** A stretch has been copied from `q` to `p`. */
  ghost predicate Stretched(before: seq<bv8>, after: seq<bv8>, p: nat, q: nat, n: nat) {
    && |after| == |before| && p + n <= |before| && q + n <= |before|
    && after[p..p + n] == before[q..q + n]
    && (forall a :: 0 <= a < |before| && !(p <= a < p + n) ==> after[a] == before[a])
  }

  lemma StretchedAt(before: seq<bv8>, after: seq<bv8>, p: nat, q: nat, n: nat, k: nat)
    requires Stretched(before, after, p, q, n) && k < n
    ensures after[p + k] == before[q + k]
  {
    assert after[p + k] == after[p..p + n][k] && before[q + k] == before[q..q + n][k];
  }

  /** One more stretch: it is read where nothing was written, and written where
      nothing that was copied is. */
  lemma CopiedMore(before: seq<bv8>, mid: seq<bv8>, after: seq<bv8>, to: seq<nat>, from: seq<nat>, at: nat, n: nat, p: nat, q: nat)
    requires Copied(before, mid, to, from, at) && Distinct(to) && Disjoint(to, from)
    requires at + n <= |to| && at + n <= |from| && to[at..at + n] == Range(p, n) && from[at..at + n] == Range(q, n)
    requires Stretched(mid, after, p, q, n)
    ensures Copied(before, after, to, from, at + n)
  {
    forall j | 0 <= j < at ensures to[j] < |after| && from[j] < |before| && after[to[j]] == before[from[j]] {
      var a := to[j];
      if p <= a < p + n { RangeAt(to, at, n, p, at + (a - p)); }
    }
    forall j | at <= j < at + n ensures to[j] < |after| && from[j] < |before| && after[to[j]] == before[from[j]] {
      RangeAt(to, at, n, p, j);
      RangeAt(from, at, n, q, j);
      StretchedAt(mid, after, p, q, n, j - at);
      assert from[j] !in to[..at];
    }
    forall a | 0 <= a < |after| && a !in to[..at + n] ensures after[a] == before[a] {
      Untouched(to, at, n, p, a);
    }
  }

  lemma Untouched(to: seq<nat>, at: nat, n: nat, p: nat, a: nat)
    requires at + n <= |to| && to[at..at + n] == Range(p, n) && a !in to[..at + n]
    ensures !(p <= a < p + n) && a !in to[..at]
  {
    if p <= a < p + n {
      RangeAt(to, at, n, p, at + (a - p));
      InPrefix(to, at + (a - p), at + n);
    }
    assert to[..at] == to[..at + n][..at];
  }

  lemma InPrefix(s: seq<nat>, i: nat, n: nat)
    requires i < n <= |s|
    ensures s[i] in s[..n]
  {
    assert s[i] == s[..n][i];
  }

  /** Copies a stretch of memory to one that does not overlap it. */
  method MemCopy(mem: array<bv8>, to: nat, from: nat, n: nat)
    requires to + n <= mem.Length && from + n <= mem.Length && (to + n <= from || from + n <= to)
    modifies mem
    ensures Stretched(old(mem[..]), mem[..], to, from, n)
  {
    var i := 0;
    while i < n
      invariant 0 <= i <= n
      invariant mem[to..to + i] == old(mem[from..from + i])
      invariant forall a :: 0 <= a < mem.Length && !(to <= a < to + i) ==> mem[a] == old(mem[a])
    {
      mem[to + i] := mem[from + i];
      assert mem[to..to + i + 1] == mem[to..to + i] + [mem[to + i]];
      assert old(mem[from..from + i + 1]) == old(mem[from..from + i]) + [old(mem[from + i])];
      i := i + 1;
    }
    assert mem[..][to..to + n] == mem[to..to + n] && old(mem[..])[from..from + n] == old(mem[from..from + n]);
  }

  /** Where a walk is. */
  datatype Cursor = Cursor(i: nat, p: nat, size: nat)

  /** Moves a cursor on, into the next chunk at the end of one. */
  method Advance(chunks: seq<Chunk>, c: Cursor, n: nat, ghost at: nat) returns (c': Cursor)
    requires c.i < |chunks| && Standing(chunks, c.i, c.p, c.size, at) && n <= c.size
    ensures Standing(chunks, c'.i, c'.p, c'.size, at + n)
    ensures c'.i == if n == c.size then c.i + 1 else c.i
  {
    StandingMoves(chunks, c.i, c.p, c.size, at, n);
    c' := Cursor(c.i, c.p + n, c.size - n);
    if c'.size == 0 {
      c' := c'.(i := c.i + 1);
      if c'.i < |chunks| {
        c' := Cursor(c'.i, chunks[c'.i].first, chunks[c'.i].count);
      }
    }
  }

  /** Copies as much of the source chunks as the destination chunks hold, and counts
      all of them. */
  method ChunksCopy(mem: array<bv8>, dst: seq<Chunk>, src: seq<Chunk>) returns (total: nat)
    requires src != [] && NoneEmptyMet(dst, src)
    requires InMemory(src, mem.Length) && InMemory(dst, mem.Length)
    requires Distinct(Flat(dst)) && Disjoint(Flat(dst), Flat(src))
    modifies mem
    ensures total == |Flat(src)|
    ensures Copied(old(mem[..]), mem[..], Flat(dst), Flat(src),
                   Words.Min(|Flat(dst)|, |Flat(src)|))
  {
    hide Copied, Flat, Distinct, Disjoint, InMemory, NoneEmptyMet;
    var s := Cursor(0, src[0].first, src[0].count);
    total := 0;
    StandingStarts(src);
    CopiedNone(mem[..], Flat(dst), Flat(src));
    if dst != [] {
      var d := Cursor(0, dst[0].first, dst[0].count);
      StandingStarts(dst);
      while d.i < |dst| && s.i < |src|
        invariant Standing(src, s.i, s.p, s.size, total) && Standing(dst, d.i, d.p, d.size, total)
        invariant Copied(old(mem[..]), mem[..], Flat(dst), Flat(src), total)
        decreases |Flat(src)| - total
      {
        BytesToCopy(dst, src, d, s, total);
        var n: nat := Words.Min(d.size, s.size);
        assert n > 0;
        CopyStretch(mem, dst, src, d, s, n, total, old(mem[..]));
        s := Advance(src, s, n, total);
        d := Advance(dst, d, n, total);
        total := total + n;
      }
    } else {
      FlatNone();
    }
    while s.i < |src|
      invariant Standing(src, s.i, s.p, s.size, total)
      invariant s.i < |src| ==> Copied(old(mem[..]), mem[..], Flat(dst), Flat(src), |Flat(dst)|)
      invariant s.i == |src| ==> Copied(old(mem[..]), mem[..], Flat(dst), Flat(src), Words.Min(|Flat(dst)|, |Flat(src)|))
      decreases |src| - s.i
    {
      CopiedWithin(old(mem[..]), mem[..], Flat(dst), Flat(src), |Flat(dst)|);
      var size := s.size;
      s := Advance(src, s, size, total);
      total := total + size;
    }
  }

  /** Copies a stretch that is whole in both lists. */
  method CopyStretch(mem: array<bv8>, dst: seq<Chunk>, src: seq<Chunk>, d: Cursor, s: Cursor, n: nat, ghost at: nat, ghost before: seq<bv8>)
    requires d.i < |dst| && s.i < |src| && 0 < n <= d.size && n <= s.size
    requires InMemory(src, mem.Length) && InMemory(dst, mem.Length)
    requires Distinct(Flat(dst)) && Disjoint(Flat(dst), Flat(src))
    requires Standing(src, s.i, s.p, s.size, at) && Standing(dst, d.i, d.p, d.size, at)
    requires Copied(before, mem[..], Flat(dst), Flat(src), at)
    modifies mem
    ensures Copied(before, mem[..], Flat(dst), Flat(src), at + n)
  {
    hide Copied, Flat, Distinct, Disjoint;
    StandingMoves(src, s.i, s.p, s.size, at, n);
    StandingMoves(dst, d.i, d.p, d.size, at, n);
    Apart(Flat(dst), Flat(src), at, n, d.p, s.p);
    ghost var mid := mem[..];
    MemCopy(mem, d.p, s.p, n);
    CopiedMore(before, mid, mem[..], Flat(dst), Flat(src), at, n, d.p, s.p);
  }

  lemma CopiedNone(mem: seq<bv8>, to: seq<nat>, from: seq<nat>)
    ensures Copied(mem, mem, to, from, 0)
  {
  }

  lemma FlatNone()
    ensures Flat([]) == []
  {
  }

  lemma CopiedWithin(before: seq<bv8>, after: seq<bv8>, to: seq<nat>, from: seq<nat>, n: nat)
    requires Copied(before, after, to, from, n)
    ensures n <= |to| && n <= |from|
  {
  }

  lemma Apart(to: seq<nat>, from: seq<nat>, at: nat, n: nat, p: nat, q: nat)
    requires Disjoint(to, from) && n > 0 && at + n <= |to| && at + n <= |from|
    requires to[at..at + n] == Range(p, n) && from[at..at + n] == Range(q, n)
    ensures p + n <= q || q + n <= p
  {
    if p <= q < p + n {
      RangeAt(to, at, n, p, at + (q - p));
      RangeAt(from, at, n, q, at);
    } else if q <= p < q + n {
      RangeAt(to, at, n, p, at);
      RangeAt(from, at, n, q, at + (p - q));
    }
  }
}
