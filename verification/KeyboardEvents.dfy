/** What one stage of the keyboard hands to the next: a key, whether it is now
    pressed, and when. */
module KeyboardEvents {
  import opened KeyboardTime

  type Keysym = int

  /** The value that means no keysym and no keycode. */
  const KEYVAL_UNDEF := 0xffff_ffff

  /** The shortest time, in milliseconds, between two human transitions of one key. */
  const SHORTEST_DOUBLE_MSEC := 80

  datatype KeyEvent = KeyEvent(key: Keysym, press: bool, time: Time)

  /** Whether the last event for a key pressed it; before any event it is up. */
  predicate Down(events: seq<KeyEvent>, key: Keysym) {
    events != [] &&
    var last := events[|events| - 1];
    if last.key == key then last.press else Down(events[..|events| - 1], key)
  }

  /** Each key goes down, up, down, up, starting from up. */
  predicate Alternating(events: seq<KeyEvent>) {
    events == [] ||
    (var front, last := events[..|events| - 1], events[|events| - 1];
     Alternating(front) && last.press != Down(front, last.key))
  }

  /** Every event has a defined time. */
  predicate Timed(events: seq<KeyEvent>) {
    forall i :: 0 <= i < |events| ==> events[i].time != UNDEF
  }

  lemma DownAppend(events: seq<KeyEvent>, e: KeyEvent, key: Keysym)
    ensures Down(events + [e], key) == if e.key == key then e.press else Down(events, key)
  {
    assert (events + [e])[..|events|] == events;
  }

  lemma AlternatingAppend(events: seq<KeyEvent>, e: KeyEvent)
    ensures Alternating(events + [e]) == (Alternating(events) && e.press != Down(events, e.key))
  {
    assert (events + [e])[..|events|] == events;
  }

  /** When the last event of a key was. */
  function LastTime(events: seq<KeyEvent>, key: Keysym): Time {
    if events == [] then UNDEF
    else
      var last := events[|events| - 1];
      if last.key == key then last.time else LastTime(events[..|events| - 1], key)
  }

  lemma LastTimeAppend(events: seq<KeyEvent>, e: KeyEvent, key: Keysym)
    ensures LastTime(events + [e], key) == if e.key == key then e.time else LastTime(events, key)
  {
    assert (events + [e])[..|events|] == events;
  }

  /** In alternating events, two of the same kind for a key have one of the
      other kind for that key between them. */
  lemma {:induction false} BetweenTwo(events: seq<KeyEvent>, i: nat, j: nat) returns (k: nat)
    requires Alternating(events) && i < j < |events|
    requires events[i].key == events[j].key && events[i].press == events[j].press
    ensures i < k < j && events[k].key == events[i].key && events[k].press != events[i].press
    decreases |events|
  {
    var front := events[..|events| - 1];
    if j < |events| - 1 {
      k := BetweenTwo(front, i, j);
    } else {
      k := LastChange(front, i);
    }
  }

  /** The last event of the key of event `i`, when it went the other way. */
  lemma {:induction false} LastChange(events: seq<KeyEvent>, i: nat) returns (k: nat)
    requires i < |events|
    requires Down(events, events[i].key) != events[i].press
    ensures i < k < |events| && events[k].key == events[i].key && events[k].press != events[i].press
  {
    var n := |events| - 1;
    if events[n].key == events[i].key {
      k := n;
    } else {
      k := LastChange(events[..n], i);
    }
  }

  // ---------------------------------------------------------------- in which order calls are made

  /** Some of a sequence, in its order. */
  predicate Subsequence<T(==)>(xs: seq<T>, ys: seq<T>)
    decreases |ys|
  {
    xs == [] ||
    (ys != [] &&
     (var front, last := ys[..|ys| - 1], ys[|ys| - 1];
      (xs[|xs| - 1] == last && Subsequence(xs[..|xs| - 1], front)) || Subsequence(xs, front)))
  }

  lemma {:induction false} SubsequencesJoin<T>(a: seq<T>, b: seq<T>, c: seq<T>, d: seq<T>)
    requires Subsequence(a, b) && Subsequence(c, d)
    ensures Subsequence(a + c, b + d)
    decreases |d|
  {
    if d == [] {
      assert a + c == a && b + d == b;
    } else {
      var front, last := d[..|d| - 1], d[|d| - 1];
      assert (b + d)[..|b + d| - 1] == b + front && (b + d)[|b + d| - 1] == last;
      if c != [] && c[|c| - 1] == last && Subsequence(c[..|c| - 1], front) {
        SubsequencesJoin(a, b, c[..|c| - 1], front);
        assert (a + c)[..|a + c| - 1] == a + c[..|c| - 1];
      } else {
        SubsequencesJoin(a, b, c, front);
      }
    }
  }

  function KeysOf(events: seq<KeyEvent>): seq<Keysym> {
    seq(|events|, i requires 0 <= i < |events| => events[i].key)
  }

  /** The calls made since are for some of these keys, in their order. */
  predicate Touches(calls: seq<KeyEvent>, calls': seq<KeyEvent>, keys: seq<Keysym>) {
    calls <= calls' && Subsequence(KeysOf(calls'[|calls|..]), keys)
  }

  lemma TouchesNone(calls: seq<KeyEvent>, keys: seq<Keysym>)
    ensures Touches(calls, calls, keys)
  {
    assert KeysOf(calls[|calls|..]) == [];
  }

  lemma TouchesOne(calls: seq<KeyEvent>, e: KeyEvent)
    ensures Touches(calls, calls + [e], [e.key])
  {
    assert (calls + [e])[|calls|..] == [e] && KeysOf([e]) == [e.key];
    assert [e.key][..0] == [];
  }

  lemma TouchesMore(calls: seq<KeyEvent>, calls1: seq<KeyEvent>, calls': seq<KeyEvent>, keys: seq<Keysym>, keys': seq<Keysym>)
    requires Touches(calls, calls1, keys) && Touches(calls1, calls', keys')
    ensures Touches(calls, calls', keys + keys')
  {
    var a, c := calls1[|calls|..], calls'[|calls1|..];
    SubsequencesJoin(KeysOf(a), keys, KeysOf(c), keys');
    assert calls'[|calls|..] == a + c && KeysOf(a + c) == KeysOf(a) + KeysOf(c);
  }
}
