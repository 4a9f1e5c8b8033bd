/** Event times of the keyboard stages: milliseconds in 32 bits, wrapping, with
    zero standing for no time at all. */
module KeyboardTime {
  import opened Words

  const MODULUS := 0x1_0000_0000
  const UNDEF := 0

  type Time = t: int | 0 <= t < MODULUS witness 0

  /** A difference, as the 32-bit word the C cast makes of it. */
  function AsWord(diff: int): int {
    if diff < 0 then diff + MODULUS else diff
  }

  /** A 32-bit word read as two's complement. */
  function Signed(w: int): int {
    if w < 0x8000_0000 then w else w - MODULUS
  }

  /** The integer in [-2^31, 2^31) congruent to `x` modulo 2^32. */
  predicate SignedReading(r: int, x: int) {
    -0x8000_0000 <= r < 0x8000_0000 && (r - x) % MODULUS == 0
  }

  lemma SignedReadingUnique(r: int, s: int, x: int)
    requires SignedReading(r, x) && SignedReading(s, x)
    ensures r == s
  {
    var p, q := (r - x) / MODULUS, (s - x) / MODULUS;
    assert r - s == MODULUS * (p - q);
  }

  /** Adds a difference to a time.  The result is never the undefined time,
      whatever the time and whichever the nonzero difference. */
  function EventTimeDiff(t: Time, diff: int): (r: Time)
    requires -0x8000_0000 <= diff < 0x8000_0000
    requires t == UNDEF ==> diff != 0
    ensures r != UNDEF
  {
    var t1 := WAdd(MODULUS, t, AsWord(diff));
    if t1 == UNDEF then WAdd(MODULUS, t1, if diff < 0 then AsWord(-1) else 1) else t1
  }

  /** The wrapped subtraction, branch for branch: the signed 32-bit reading of
      the true difference. */
  function EventTimeSubtract(t0: Time, t1: Time): (r: int)
    ensures SignedReading(r, t0 - t1)
  {
    if t0 == t1 then 0
    else
      var unwrapped := if t0 < t1 then t1 - t0 else t0 - t1;
      var wrapped := WSub(MODULUS, 0, unwrapped);
      var leastBefore := WSub(MODULUS, t0, 0x7fff_ffff);
      if leastBefore < t0 then
        Signed(if leastBefore <= t1 && t1 < t0 then unwrapped
               else if t1 > t0 then WSub(MODULUS, 0, unwrapped)
               else WSub(MODULUS, 0, wrapped))
      else
        Signed(if leastBefore <= t1 || t1 < t0 then
                 (if t1 < t0 then unwrapped else wrapped)
               else WSub(MODULUS, 0, unwrapped))
  }

  /** How far a time moves: by the difference, or by one more in the same
      direction when that would land on the undefined time. */
  lemma DiffMoves(t: Time, diff: int)
    requires diff != 0 && -0x7fff_ffff <= diff < 0x7fff_ffff
    ensures EventTimeSubtract(EventTimeDiff(t, diff), t)
         == if (t + diff) % MODULUS != UNDEF then diff else if diff < 0 then diff - 1 else diff + 1
  {
    var r := EventTimeDiff(t, diff);
    var d := if (t + diff) % MODULUS != UNDEF then diff else if diff < 0 then diff - 1 else diff + 1;
    assert SignedReading(d, r - t);
    SignedReadingUnique(EventTimeSubtract(r, t), d, r - t);
  }
}
