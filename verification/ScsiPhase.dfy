/** Finding how long a SCSI command or message is from its first bytes, as they
    arrive.  The bytes are those of a buffer that grows from call to call, and what
    has been seen of it is kept in one word between calls.  Message formats are those
    of section 6.5 of SCSI-2 (ANSI X3.131-1994). */
module ScsiPhase {
  import opened Words

  datatype Phase = Command | Message

  const MSG_EXTENDED: bv8 := 0x01
  const COUNT_MASK := 4095
  const COUNT_RANGE := 4096

  /** A two-byte message. */
  predicate IsTwoBytes(b: bv8) { b & 0xf0 == 0x20 }

  /** The length of a command with this operation code; groups 3, 6 and 7 have none. */
  function CommandLength(b: bv8): nat {
    var group := b & 0xe0;
    if group == 0x00 then 6
    else if group == 0x20 || group == 0x40 then 10
    else if group == 0x80 then 16
    else if group == 0xa0 then 12
    else 0
  }

  /** The operation codes of each length: the three high bits are the group. */
  lemma CommandLengthMeaning(b: bv8)
    ensures CommandLength(b) == 6 <==> b < 0x20
    ensures CommandLength(b) == 10 <==> 0x20 <= b < 0x60
    ensures CommandLength(b) == 16 <==> 0x80 <= b < 0xa0
    ensures CommandLength(b) == 12 <==> 0xa0 <= b < 0xc0
    ensures CommandLength(b) == 0 <==> 0x60 <= b < 0x80 || 0xc0 <= b
  {
  }

  /** The length byte of an extended message, in which zero stands for 256. */
  function ExtendedLength(b: bv8): nat {
    if b == 0 then 256 else b as nat
  }

  datatype Option<T> = None | Some(value: T)

  /** The length of the command or message that starts with these bytes, once they
      are enough to tell. */
  function Length(phase: Phase, bytes: seq<bv8>): Option<nat> {
    if bytes == [] then None
    else if phase.Command? then Some(CommandLength(bytes[0]))
    else if bytes[0] == MSG_EXTENDED then
      if |bytes| == 1 then None else Some(2 + ExtendedLength(bytes[1]))
    else if IsTwoBytes(bytes[0]) then Some(2)
    else Some(1)
  }

  // ---------------------------------------------------------------- the opaque state

  /** The internal state, from one on, and the bytes seen and transferred. */
  datatype State = State(state: nat, seen: nat, transferred: nat)

  const START: nat := 1
  const STOP: nat := 0

  predicate Packable(s: State) {
    1 <= s.state <= 2 && s.transferred <= s.seen < COUNT_RANGE
  }

  function Pack(s: State): nat
    requires s.state > 0
  {
    ((s.state - 1) * COUNT_RANGE + s.seen) * COUNT_RANGE + (s.transferred + 1) % COUNT_RANGE
  }

  function Unpack(word: nat): State
    requires word != STOP
  {
    State(word / COUNT_RANGE / COUNT_RANGE + 1, word / COUNT_RANGE % COUNT_RANGE, (word - 1) % COUNT_RANGE)
  }

  /** What was packed comes out again; it is never the stop state, and fits 32 bits. */
  lemma UnpackPack(s: State)
    requires Packable(s)
    ensures 0 < Pack(s) < 0x1_0000_0000
    ensures Unpack(Pack(s)) == s
  {
    var high := (s.state - 1) * COUNT_RANGE + s.seen;
    var low := (s.transferred + 1) % COUNT_RANGE;
    assert Pack(s) / COUNT_RANGE == high;
    if s.transferred == COUNT_MASK {
      assert (Pack(s) - 1) == (high - 1) * COUNT_RANGE + COUNT_MASK;
    } else {
      assert (Pack(s) - 1) == high * COUNT_RANGE + s.transferred;
    }
  }

  // ---------------------------------------------------------------- one call

  /** What a call answers: the residual, or zero, and the new opaque state; or it was
      stopped by an assert, or by an operation code of a group without a length. */
  datatype Answer = Answer(resid: nat, word: nat) | Aborted

  /** What one byte adds to the residual, and the internal state after it. */
  datatype Moved = Moved(added: nat, state: nat) | Stuck

  function Move(phase: Phase, state: nat, byte: bv8): Moved {
    match phase
    case Command =>
      if state != 1 || CommandLength(byte) == 0 then Stuck else Moved(CommandLength(byte), 0)
    case Message =>
      if state == 1 then
        if byte == MSG_EXTENDED then Moved(1, 2) else if IsTwoBytes(byte) then Moved(2, 0) else Moved(1, 0)
      else if state == 2 then Moved(if byte == 0 then 1 + 256 else 1 + byte as nat, 0)
      else Stuck
  }

  /** The bytes from position `i` on, in internal state `s.state`. */
  function Scan(phase: Phase, s: State, resid: nat, bytes: seq<bv8>, i: nat): Answer
    requires s.state > 0 && i <= |bytes|
    decreases |bytes| - i
  {
    if i == |bytes| then Answer(0, Pack(s))
    else
      match Move(phase, s.state, bytes[i])
      case Stuck => Aborted
      case Moved(added, state) =>
        if state == 0 then Answer(resid + added, STOP)
        else Scan(phase, State(state, s.seen + 1, s.transferred), resid + added, bytes, i + 1)
  }

  /** One call: it takes the opaque state apart, skips what has been seen, goes through
      the other bytes one at a time, and puts the state together again. */
  function Call(phase: Phase, word: nat, bytes: seq<bv8>): Answer
    requires word != STOP
  {
    var s := Unpack(word);
    if s.transferred > s.seen then Aborted
    else
      var resid := s.seen - s.transferred;
      Scan(phase, s, resid, bytes, Min(resid, |bytes|))
  }

  /** The function as it runs. */
  method PhaseResid(phase: Phase, word: nat, bytes: seq<bv8>) returns (answer: Answer)
    requires word != STOP
    ensures answer == Call(phase, word, bytes)
  {
    hide Pack, CommandLength, IsTwoBytes;
    var transferred := (word - 1) % COUNT_RANGE;
    var state: nat := word / COUNT_RANGE;
    var seen: nat := state % COUNT_RANGE;
    state := state / COUNT_RANGE + 1;
    if transferred > seen {
      return Aborted;
    }
    var resid: nat := seen - transferred;
    var i: nat := Min(resid, |bytes|);
    while i < |bytes|
      invariant i <= |bytes| && state > 0
      invariant Scan(phase, State(state, seen, transferred), resid, bytes, i) == Call(phase, word, bytes)
    {
      var byte := bytes[i];
      i, seen := i + 1, seen + 1;
      match phase {
        case Command =>
          if state != 1 || CommandLength(byte) == 0 {
            return Aborted;
          }
          resid := resid + CommandLength(byte);
          state := 0;
        case Message =>
          if state == 1 {
            if byte == MSG_EXTENDED {
              resid := resid + 1;
              state := 2;
            } else if IsTwoBytes(byte) {
              resid := resid + 2;
              state := 0;
            } else {
              resid := resid + 1;
              state := 0;
            }
          } else if state == 2 {
            resid := resid + (if byte == 0 then 1 + 256 else 1 + byte as nat);
            state := 0;
          } else {
            return Aborted;
          }
      }
      if state == 0 {
        return Answer(resid, STOP);
      }
    }
    answer := Answer(0, Pack(State(state, seen, transferred)));
  }

  // ---------------------------------------------------------------- what calls come to

  /** The state when the bytes seen do not tell the length. */
  function Undecided(bytes: seq<bv8>): State {
    State(if bytes == [] then 1 else 2, |bytes|, 0)
  }

  /** The answer for these bytes by what they mean: the length they tell, if they do. */
  function OneShot(phase: Phase, bytes: seq<bv8>): Answer {
    if phase.Command? && bytes != [] && CommandLength(bytes[0]) == 0 then Aborted
    else
      match Length(phase, bytes)
      case Some(n) => Answer(n, STOP)
      case None => Answer(0, Pack(Undecided(bytes)))
  }

  /** The bytes seen so far do not tell, and the opaque state says so. */
  predicate Waiting(phase: Phase, seen: seq<bv8>, word: nat) {
    Length(phase, seen) == None && word == Pack(Undecided(seen))
  }

  /** Only nothing, or the first byte of an extended message, leaves a call waiting; and
      the opaque state says so exactly then, and comes apart as what has been seen. */
  lemma WaitingMeaning(phase: Phase, seen: seq<bv8>)
    ensures Length(phase, seen) == None <==>
      seen == [] || (phase.Message? && |seen| == 1 && seen[0] == MSG_EXTENDED)
    ensures OneShot(phase, seen).Answer? ==>
      (OneShot(phase, seen).word != STOP <==> Waiting(phase, seen, OneShot(phase, seen).word))
    ensures Length(phase, seen) == None ==> Pack(Undecided(seen)) != STOP && Unpack(Pack(Undecided(seen))) == Undecided(seen)
    ensures Waiting(phase, [], START)
  {
    if Length(phase, seen) == None { UnpackPack(Undecided(seen)); }
  }

  /** A call with a buffer that has grown since its first `before` bytes were seen: it
      goes on where the last call stopped, and answers as if it had had all at once. */
  lemma CallIsOneShot(phase: Phase, word: nat, bytes: seq<bv8>, before: nat)
    requires before <= |bytes| && Waiting(phase, bytes[..before], word)
    ensures word != STOP && Call(phase, word, bytes) == OneShot(phase, bytes)
  {
    WaitingMeaning(phase, bytes[..before]);
    hide Pack, Unpack, CommandLength, IsTwoBytes;
    ScanTells(phase, bytes, before);
  }

  /** From any undecided prefix the scan finds the length the bytes tell. */
  lemma {:induction false} ScanTells(phase: Phase, bytes: seq<bv8>, i: nat)
    requires i <= |bytes| && Length(phase, bytes[..i]) == None
    ensures Scan(phase, Undecided(bytes[..i]), i, bytes, i) == OneShot(phase, bytes)
    decreases |bytes| - i
  {
    hide Pack, CommandLength, IsTwoBytes;
    if i == |bytes| {
      assert bytes[..i] == bytes;
    } else if Length(phase, bytes[..i + 1]) == None {
      ScanTells(phase, bytes, i + 1);
    }
  }

  /** The answer for bytes not seen before, in any state, by what they mean: the length they
      tell is added to the residual; else they are counted as seen, and the rest of the
      state is kept. */
  predicate Answers(phase: Phase, s: State, resid: nat, unseen: seq<bv8>, answer: Answer)
    requires s.state > 0
  {
    if unseen == [] then answer == Answer(0, Pack(s))
    else if s.state == 1 then
      if phase.Command? && CommandLength(unseen[0]) == 0 then answer == Aborted
      else
        match Length(phase, unseen)
        case Some(n) => answer == Answer(resid + n, STOP)
        case None => answer == Answer(0, Pack(State(2, s.seen + |unseen|, s.transferred)))
    else if s.state == 2 && phase.Message? then answer == Answer(resid + 1 + ExtendedLength(unseen[0]), STOP)
    else answer == Aborted
  }

  lemma ScanMeaning(phase: Phase, s: State, resid: nat, bytes: seq<bv8>, i: nat)
    requires s.state > 0 && i <= |bytes|
    ensures Answers(phase, s, resid, bytes[i..], Scan(phase, s, resid, bytes, i))
  {
    hide Pack, CommandLength, IsTwoBytes;
    if s.state == 1 && phase.Message? && i < |bytes| && bytes[i] == MSG_EXTENDED {
      var s1 := State(2, s.seen + 1, s.transferred);
      assert Scan(phase, s, resid, bytes, i) == Scan(phase, s1, resid + 1, bytes, i + 1);
      if i + 1 < |bytes| {
        assert bytes[i..][1] == bytes[i + 1];
      }
    }
  }

  /** A call in any state that can be packed: what was seen and not transferred is skipped
      and is the residual to begin with. */
  lemma CallMeaning(phase: Phase, s: State, bytes: seq<bv8>)
    requires Packable(s)
    ensures Pack(s) != STOP
    ensures var kept := s.seen - s.transferred;
      Answers(phase, s, kept, bytes[Min(kept, |bytes|)..], Call(phase, Pack(s), bytes))
  {
    hide Answers, Scan, Pack, Unpack;
    UnpackPack(s);
    ScanMeaning(phase, s, s.seen - s.transferred, bytes, Min(s.seen - s.transferred, |bytes|));
  }

  /** The answers of calls with a growing buffer, each given the opaque state that the
      call before it left, up to the first that stops. */
  function Calls(phase: Phase, bytes: seq<bv8>, counts: seq<nat>): Answer
    requires forall k :: 0 <= k < |counts| ==> counts[k] <= |bytes|
  {
    if counts == [] then Answer(0, START)
    else
      var last := Calls(phase, bytes, counts[..|counts| - 1]);
      if last.Aborted? || last.word == STOP then last
      else Call(phase, last.word, bytes[..counts[|counts| - 1]])
  }

  /** However a buffer grows, the answers come to that for all that was seen: the
      residual is found as soon as the bytes tell it, and is the same. */
  lemma {:induction false} CallsAreOneShot(phase: Phase, bytes: seq<bv8>, counts: seq<nat>)
    requires counts != []
    requires forall k :: 0 <= k < |counts| ==> counts[k] <= |bytes|
    requires forall j, k :: 0 <= j < k < |counts| ==> counts[j] <= counts[k]
    ensures Calls(phase, bytes, counts) == OneShot(phase, bytes[..counts[|counts| - 1]])
  {
    hide Pack, CommandLength, IsTwoBytes, Call;
    var front := counts[..|counts| - 1];
    var now := bytes[..counts[|counts| - 1]];
    var before := if front == [] then 0 else front[|front| - 1];
    assert now[..before] == bytes[..before];
    if front != [] {
      CallsAreOneShot(phase, bytes, front);
    }
    WaitingMeaning(phase, now[..before]);
    if Length(phase, now[..before]) == None {
      CallIsOneShot(phase, Pack(Undecided(now[..before])), now, before);
    }
  }
}
