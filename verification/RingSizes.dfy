/** Ring buffers whose size is a power of two, so that a position wraps with a mask. */
module RingSizes {
  import opened Bits

  /** Clearing the lowest bit of a word. */
  function ClearLowest(a: nat): nat { if a == 0 then 0 else And(a, a - 1) }

  lemma AndSelf(a: nat)
    ensures And(a, a) == a
  {
  }

  lemma ClearLowestSteps(a: nat)
    requires a > 0
    ensures ClearLowest(a) == if a % 2 == 1 then a - 1 else 2 * ClearLowest(a / 2)
  {
    if a % 2 == 1 {
      AndSelf(a / 2);
      if a > 1 { assert (a - 1) / 2 == a / 2 && (a - 1) % 2 == 0; }
    } else {
      assert (a - 1) / 2 == a / 2 - 1;
    }
  }

  /** A number with one bit set is a power of two; clearing the lowest bit of any
      other number leaves its highest bit. */
  lemma {:induction false} ClearLowestKeepsTop(a: nat, top: nat)
    requires IsPow2(top) && top <= a < 2 * top
    ensures ClearLowest(a) == 0 <==> a == top
    ensures ClearLowest(a) != 0 ==> top <= ClearLowest(a) < a
  {
    ClearLowestSteps(a);
    if a % 2 == 0 {
      ClearLowestKeepsTop(a / 2, top / 2);
    }
  }

  /** The greatest power of two that is not greater. */
  lemma {:induction false} TopBit(a: nat) returns (top: nat)
    requires a > 0
    ensures IsPow2(top) && top <= a < 2 * top
  {
    if a == 1 {
      top := 1;
    } else {
      var half := TopBit(a / 2);
      top := 2 * half;
    }
  }

  /** There is no power of two strictly between one and its double. */
  lemma {:induction false} Pow2Gap(p: nat, q: nat)
    requires IsPow2(p) && IsPow2(q) && p < q
    ensures 2 * p <= q
  {
    if p > 1 { Pow2Gap(p / 2, q / 2); }
  }

  /** The least power of two that is not less than a request. */
  ghost predicate LeastPow2(size: nat, request: nat) {
    IsPow2(size) && request <= size && forall p {:trigger IsPow2(p)} :: IsPow2(p) && request <= p ==> size <= p
  }

  /** Rounds a size up to a power of two. */
  method RoundUp(request: nat) returns (size: nat)
    requires request > 0
    ensures LeastPow2(size, request)
  {
    hide IsPow2, ClearLowest;
    ghost var top := TopBit(request);
    size := request;
    ClearLowestKeepsTop(size, top);
    if ClearLowest(size) != 0 {
      while true
        invariant top < size <= request
        invariant ClearLowest(size) != 0 && top <= ClearLowest(size) < size
        decreases size
      {
        size := ClearLowest(size);
        ClearLowestKeepsTop(size, top);
        if ClearLowest(size) == 0 {
          break;
        }
      }
      size := 2 * size;
      Doubled(top);
      forall p | IsPow2(p) && request <= p ensures size <= p {
        Pow2Gap(top, p);
      }
    } else {
      forall p | IsPow2(p) && request <= p ensures size <= p {
      }
    }
  }

  /** A position `at` places on from the start, in a ring. */
  function Wrap(at: int, size: int): int {
    if at < size then at else at - size
  }

  lemma MaskWraps(at: nat, size: nat)
    requires IsPow2(size) && at < 2 * size
    ensures And(at, size - 1) == Wrap(at, size)
  {
    hide And, IsPow2;
    AndMask(at, size);
    if at >= size { DivisionUnique(at, size, 1, at - size); }
    else { DivisionUnique(at, size, 0, at); }
  }

  /** How many slots are taken, with the head where the next goes. */
  function Busy(head: nat, tail: nat, size: nat): (busy: nat)
    requires head < size && tail < size
    ensures busy < size && head == Wrap(tail + busy, size)
  {
    if head >= tail then head - tail else size - (tail - head)
  }

  lemma BusyAfter(tail: nat, head: nat, size: nat, k: nat)
    requires tail < size && head < size && k <= Busy(head, tail, size)
    ensures var at := Wrap(tail + k, size);
      0 <= at < size && Busy(head, at, size) == Busy(head, tail, size) - k
  {
  }

  /** Where the `k`th of the slots taken is, and how many follow it up to the end of
      the ring or to the head. */
  lemma WhatFollows(tail: nat, head: nat, size: nat, k: nat)
    requires tail < size && head < size && k <= Busy(head, tail, size)
    ensures var at := Wrap(tail + k, size);
      var busy := Busy(head, tail, size);
      && 0 <= at < size && (at == head <==> k == busy)
      && (at != head ==> 0 < (if at > head then size - at else head - at) <= busy - k)
  {
  }

  lemma WrapNone(at: nat, size: nat)
    requires at < size
    ensures Wrap(at + 0, size) == at
  {
  }

  lemma WrapOn(tail: nat, k: nat, m: nat, size: nat)
    requires tail < size && k + m < size && Wrap(tail + k, size) + m <= size
    ensures Wrap(Wrap(tail + k, size) + m, size) == Wrap(tail + (k + m), size)
  {
  }
}
