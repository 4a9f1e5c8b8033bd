/** A counter of the timer chip catching up with the ticks that have gone by since
    its thread last ran, however many times it has reached zero meanwhile. */
module CounterCatchUp {
  import opened Bits

  /** A counter that has reached zero `expired` times, and what it has left. */
  datatype Caught = Caught(expired: nat, counter: nat)

  /** A repeating counter: each time it reaches zero it starts again from its load
      register.  With zero in the register it would never stop starting again. */
  function Repeat(counter: nat, load: nat, elapsed: nat): Caught
    requires load > 0
    decreases elapsed + if counter == 0 then 1 else 0
  {
    if counter <= elapsed then
      var rest := Repeat(load, load, elapsed - counter);
      Caught(rest.expired + 1, rest.counter)
    else Caught(0, counter - elapsed)
  }

  /** In closed form: past the first zero, a division and its remainder. */
  lemma {:induction false} RepeatClosed(counter: nat, load: nat, elapsed: nat)
    requires load > 0
    ensures Repeat(counter, load, elapsed) ==
      if elapsed < counter then Caught(0, counter - elapsed)
      else Caught(1 + (elapsed - counter) / load, load - (elapsed - counter) % load)
    decreases elapsed + if counter == 0 then 1 else 0
  {
    if counter <= elapsed {
      var over := elapsed - counter;
      RepeatClosed(load, load, over);
      if over < load {
        DivisionUnique(over, load, 0, over);
      } else {
        var q, r := (over - load) / load, (over - load) % load;
        assert over == (q + 1) * load + r by { assert over - load == q * load + r; }
        DivisionUnique(over, load, q + 1, r);
      }
    }
  }

  /** What is left is never zero, and never more than there was or is loaded. */
  lemma RepeatLeaves(counter: nat, load: nat, elapsed: nat)
    requires load > 0
    ensures var c := Repeat(counter, load, elapsed).counter;
      0 < c && (c <= load || c <= counter) && (counter <= load ==> c <= load)
  {
    RepeatClosed(counter, load, elapsed);
  }

  /** Catching up in two goes is catching up in one. */
  lemma {:induction false} RepeatSplits(counter: nat, load: nat, first: nat, second: nat)
    requires load > 0
    ensures var a := Repeat(counter, load, first);
      var b := Repeat(a.counter, load, second);
      Repeat(counter, load, first + second) == Caught(a.expired + b.expired, b.counter)
    decreases first + if counter == 0 then 1 else 0
  {
    if counter <= first {
      RepeatSplits(load, load, first - counter, second);
      assert (first + second) - counter == (first - counter) + second;
    } else if counter <= first + second {
      assert second - (counter - first) == (first + second) - counter;
    }
  }

  // ---------------------------------------------------------------- when the loop ends

  /** The counter and the elapsed ticks after the loop body has run `n` times. */
  function After(counter: nat, load: nat, elapsed: int, n: nat): (nat, int)
    decreases n
  {
    if n == 0 then (counter, elapsed) else After(load, load, elapsed - counter, n - 1)
  }

  /** The loop ends after `n` rounds: it was entered each time before, and is not again. */
  ghost predicate EndsAfter(counter: nat, load: nat, elapsed: int, n: nat) {
    && (forall k :: 0 <= k < n ==> After(counter, load, elapsed, k).0 <= After(counter, load, elapsed, k).1)
    && After(counter, load, elapsed, n).0 > After(counter, load, elapsed, n).1
  }

  /** A repeating counter catches up iff its load register is not zero, or it does
      not reach zero in the first place. */
  lemma EndsIff(counter: nat, load: nat, elapsed: nat)
    ensures (exists n :: EndsAfter(counter, load, elapsed, n)) <==> load > 0 || counter > elapsed
  {
    if load > 0 {
      var n := Ends(counter, load, elapsed);
      assert EndsAfter(counter, load, elapsed, n);
    } else if counter > elapsed {
      assert EndsAfter(counter, load, elapsed, 0);
    } else {
      forall n: nat ensures !EndsAfter(counter, load, elapsed, n) {
        Forever(counter, elapsed, n);
      }
    }
  }

  lemma {:induction false} Ends(counter: nat, load: nat, elapsed: nat) returns (n: nat)
    requires load > 0
    ensures EndsAfter(counter, load, elapsed, n) && n == Repeat(counter, load, elapsed).expired
    decreases elapsed + if counter == 0 then 1 else 0
  {
    if counter <= elapsed {
      var m := Ends(load, load, elapsed - counter);
      n := m + 1;
      forall k | 0 <= k < n ensures After(counter, load, elapsed, k).0 <= After(counter, load, elapsed, k).1 {
        if k > 0 {
          assert After(counter, load, elapsed, k) == After(load, load, elapsed - counter, k - 1);
        }
      }
    } else {
      n := 0;
    }
  }

  lemma {:induction false} Forever(counter: nat, elapsed: nat, n: nat)
    requires counter <= elapsed
    ensures After(counter, 0, elapsed, n).0 <= After(counter, 0, elapsed, n).1
    decreases n
  {
    if n > 0 { Forever(0, elapsed - counter, n - 1); }
  }

  // ---------------------------------------------------------------- the counter

  datatype Output = Inactive | TcToggled

  /** The output pin after a number of expiries: an interrupt is only ever set, any
      other toggled output changes each time. */
  function Pin(output: Output, interrupt: bool, pin: bool, expired: nat): bool {
    if output.Inactive? then pin
    else if interrupt then pin || expired > 0
    else (expired % 2 == 1) != pin
  }

  /** One expiry more: it leaves an inactive output, sets an interrupt, and changes any
      other output. */
  lemma PinStep(output: Output, interrupt: bool, pin: bool, expired: nat)
    ensures Pin(output, interrupt, pin, 0) == pin
    ensures Pin(output, interrupt, pin, expired + 1) ==
      match output
      case Inactive => pin
      case TcToggled => interrupt || !Pin(output, interrupt, pin, expired)
  {
  }

  /** Catching up in two goes leaves the counter and the pin as one go does. */
  lemma CatchUpSplits(counter: nat, load: nat, first: nat, second: nat, output: Output, interrupt: bool, pin: bool)
    requires load > 0
    ensures var a := Repeat(counter, load, first);
      var b := Repeat(a.counter, load, second);
      var both := Repeat(counter, load, first + second);
      && both.counter == b.counter
      && Pin(output, interrupt, pin, both.expired)
         == Pin(output, interrupt, Pin(output, interrupt, pin, a.expired), b.expired)
  {
    RepeatSplits(counter, load, first, second);
  }

  class Counter {
    var counter: nat
    var load: nat
    var repeats: bool
    var armed: bool
    var output: Output
    var interrupt: bool
    var pin: bool
    var samples: nat

    constructor (load: nat, repeats: bool, output: Output, interrupt: bool)
      ensures this.counter == load && this.load == load && this.repeats == repeats && armed
      ensures this.output == output && this.interrupt == interrupt && !pin && samples == 0
    {
      this.counter, this.load, this.repeats, armed := load, load, repeats, true;
      this.output, this.interrupt, pin, samples := output, interrupt, false, 0;
    }

    /** The output of one expiry.  An interrupt found clear is sampled and set. */
    method Expire()
      modifies `pin, `samples
      ensures pin == Pin(output, interrupt, old(pin), 1)
      ensures samples == old(samples) + if output.TcToggled? && interrupt && !old(pin) then 1 else 0
    {
      if output.TcToggled? {
        if interrupt {
          if !pin {
            samples := samples + 1;
            pin := true;
          }
        } else {
          pin := !pin;
        }
      }
    }

    /** Catches up with a number of ticks of its own clock. */
    method CatchUp(elapsed: nat)
      requires repeats ==> load > 0 || counter > elapsed
      modifies `counter, `armed, `pin, `samples
      ensures !old(armed) ==> counter == old(counter) && pin == old(pin) && !armed
      ensures old(armed) && !repeats ==>
        && armed == (elapsed < old(counter)) && counter == (if armed then old(counter) - elapsed else 0)
        && pin == Pin(output, interrupt, old(pin), if armed then 0 else 1)
      ensures old(armed) && repeats && load > 0 ==>
        && armed && Caught(Expiries(old(counter), load, elapsed), counter) == Repeat(old(counter), load, elapsed)
        && pin == Pin(output, interrupt, old(pin), Expiries(old(counter), load, elapsed))
      ensures old(armed) && repeats && load == 0 ==> armed && counter == old(counter) - elapsed && pin == old(pin)
      ensures samples == old(samples) + if pin && !old(pin) && interrupt then 1 else 0
    {
      if !armed {
        return;
      }
      var left := elapsed;
      ghost var expired := 0;
      ghost var start := counter;
      while counter <= left
        invariant armed && 0 <= left
        invariant repeats ==> load > 0 || (counter > left && expired == 0)
        invariant !repeats ==> expired == 0 && counter == start && left == elapsed
        invariant pin == Pin(output, interrupt, old(pin), expired)
        invariant samples == old(samples) + if pin && !old(pin) && interrupt then 1 else 0
        invariant expired == 0 ==> counter == start && left == elapsed
        invariant repeats && load > 0 ==>
          var rest := Repeat(counter, load, left);
          Repeat(start, load, elapsed) == Caught(expired + rest.expired, rest.counter)
        decreases armed, left + if counter == 0 then 1 else 0
      {
        left := left - counter;
        Expire();
        expired := expired + 1;
        if repeats {
          counter := load;
        } else {
          left := counter;
          armed := false;
          break;
        }
      }
      counter := counter - left;
    }
  }

  /** How often a repeating counter reaches zero. */
  function Expiries(counter: nat, load: nat, elapsed: nat): nat
    requires load > 0
  {
    Repeat(counter, load, elapsed).expired
  }
}
