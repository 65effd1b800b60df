/**
 How long an expedited request of the bridge can take.  The request loop, the 10 ms tick and the
 receive interrupt run interleaved; the request itself arms the state first and the timeout second,
 so that ticks and late replies can fall in between.
 */
module SdoWaiting {
  import opened Bytes
  import opened SdoClient

  const ATTEMPTS: nat := 3

  // Start: about to send a request.  Armed: the state is busy, the timeout not yet set.
  datatype Point = Start | Armed | Waiting | Done

  datatype Loop = Loop(at: Point, state: State, timeout: nat, fail: nat)

  datatype Event = Tick | Reply(first: byte) | Thread

  // One step of the loop around a request with this command byte.
  function ThreadStep(len: byte, l: Loop): Loop
  {
    match l.at
    case Start =>
      if Over(l.state) then l.(at := Armed, state := BusyState(len)) else l.(at := Waiting, state := Fail)
    case Armed => l.(at := Waiting, timeout := TIMEOUT_VAL)
    case Waiting =>
      if l.state == Fail then l.(fail := l.fail + 1, at := if l.fail + 1 < ATTEMPTS then Start else Done)
      else if l.state == Success then l.(at := Done)
      else l
    case Done => l
  }

  function Next(len: byte, l: Loop, e: Event): Loop
  {
    match e
    case Tick => var t := Ticked(l.state, l.timeout); l.(state := t.0, timeout := t.1)
    case Reply(first) => l.(state := Answered(l.state, first))
    case Thread => ThreadStep(len, l)
  }

  function RunLoop(len: byte, l: Loop, run: seq<Event>): Loop
    decreases |run|
  {
    if run == [] then l else RunLoop(len, Next(len, l, run[0]), run[1..])
  }

  // A tick that finds the loop waiting for an answer.
  predicate Waited(l: Loop, e: Event)
  {
    e == Tick && l.at == Waiting && !Over(l.state)
  }

  // A step of the loop that is not just another look at a busy state.
  predicate Moved(l: Loop, e: Event)
  {
    e == Thread && l.at != Done && !(l.at == Waiting && !Over(l.state))
  }

  function WaitedTicks(len: byte, l: Loop, run: seq<Event>): nat
    decreases |run|
  {
    if run == [] then 0 else (if Waited(l, run[0]) then 1 else 0) + WaitedTicks(len, Next(len, l, run[0]), run[1..])
  }

  function Moves(len: byte, l: Loop, run: seq<Event>): nat
    decreases |run|
  {
    if run == [] then 0 else (if Moved(l, run[0]) then 1 else 0) + Moves(len, Next(len, l, run[0]), run[1..])
  }

  // An expedited request; the one segmented entry of the table waits for another state.
  predicate Expedited(len: byte)
  {
    len != 0x21
  }

  predicate Sane(len: byte, l: Loop)
  {
    && (l.at == Start ==> l.fail < ATTEMPTS)
    && (l.at == Armed ==> l.fail < ATTEMPTS && (Over(l.state) || l.state == BusyState(len)))
    && (l.at == Waiting ==> l.fail < ATTEMPTS && (Over(l.state) || l.state == BusyState(len)))
    && (l.at == Waiting && !Over(l.state) ==> l.timeout <= TIMEOUT_VAL)
    && (l.at == Done ==> if l.fail < ATTEMPTS then l.state == Success else l.state == Fail && l.fail == ATTEMPTS)
  }

  // Ticks still to be waited for at most.
  function TicksLeft(l: Loop): int
  {
    match l.at
    case Done => 0
    case Waiting => (2 - l.fail) * (TIMEOUT_VAL + 1) + if Over(l.state) then 0 else l.timeout + 1
    case _ => (3 - l.fail) * (TIMEOUT_VAL + 1)
  }

  // Moves still to be made at most.
  function MovesLeft(l: Loop): int
  {
    match l.at
    case Done => 0
    case Waiting => 3 * (2 - l.fail) + 1
    case Armed => 3 * (2 - l.fail) + 2
    case Start => 3 * (3 - l.fail)
  }

  lemma StepBounded(len: byte, l: Loop, e: Event)
    requires Expedited(len) && Sane(len, l)
    ensures Sane(len, Next(len, l, e))
    ensures TicksLeft(Next(len, l, e)) + (if Waited(l, e) then 1 else 0) <= TicksLeft(l)
    ensures MovesLeft(Next(len, l, e)) + (if Moved(l, e) then 1 else 0) <= MovesLeft(l)
    ensures TicksLeft(l) >= 0 && MovesLeft(l) >= 0
  {
  }

  lemma {:induction false} RunBounded(len: byte, l: Loop, run: seq<Event>)
    requires Expedited(len) && Sane(len, l)
    ensures Sane(len, RunLoop(len, l, run))
    ensures WaitedTicks(len, l, run) + TicksLeft(RunLoop(len, l, run)) <= TicksLeft(l)
    ensures Moves(len, l, run) + MovesLeft(RunLoop(len, l, run)) <= MovesLeft(l)
    ensures TicksLeft(RunLoop(len, l, run)) >= 0 && MovesLeft(RunLoop(len, l, run)) >= 0
    decreases |run|
  {
    StepBounded(len, l, if run == [] then Tick else run[0]);
    if run != [] {
      RunBounded(len, Next(len, l, run[0]), run[1..]);
    }
  }

  function Begin(state: State, timeout: nat): Loop
  {
    Loop(Start, state, timeout, 0)
  }

  // Whatever state the client is in at first, and however ticks, replies and the loop interleave:
  // at most 3 * 21 ticks are waited for and 9 moves made; a loop that is not done has a move to
  // make or an answer to wait for; and it is done in Success or after the third failure.
  lemma BoundedWaiting(len: byte, state: State, timeout: nat, run: seq<Event>)
    requires Expedited(len)
    ensures var l := Begin(state, timeout); var t := RunLoop(len, l, run);
            && WaitedTicks(len, l, run) <= ATTEMPTS * (TIMEOUT_VAL + 1)
            && Moves(len, l, run) <= 3 * ATTEMPTS
            && (t.at != Done ==> Moved(t, Thread) || Waited(t, Tick))
            && (t.at == Done ==> (t.state == Success && t.fail < ATTEMPTS) || (t.state == Fail && t.fail == ATTEMPTS))
  {
    RunBounded(len, Begin(state, timeout), run);
  }

  // The bound is tight: with no reply at all it takes exactly that many ticks to give up.
  function Silence(n: nat): seq<Event>
  {
    if n == 0 then [] else [Tick] + Silence(n - 1)
  }

  lemma {:induction false} SilentWait(len: byte, l: Loop, n: nat, rest: seq<Event>)
    requires l.at == Waiting && !Over(l.state) && l.timeout + 1 >= n > 0
    ensures var t := if n == l.timeout + 1 then l.(state := Fail, timeout := 0xffff_ffff) else l.(timeout := l.timeout - n);
            RunLoop(len, l, Silence(n) + rest) == RunLoop(len, t, rest) &&
            WaitedTicks(len, l, Silence(n) + rest) == n + WaitedTicks(len, t, rest)
    decreases n
  {
    assert Silence(n) + rest == [Tick] + (Silence(n - 1) + rest);
    assert (Silence(n) + rest)[1..] == Silence(n - 1) + rest;
    if n == 1 {
      assert Silence(0) + rest == rest;
    } else {
      SilentWait(len, Next(len, l, Tick), n - 1, rest);
    }
  }

  lemma OneMove(len: byte, l: Loop, rest: seq<Event>)
    ensures RunLoop(len, l, [Thread] + rest) == RunLoop(len, ThreadStep(len, l), rest)
    ensures WaitedTicks(len, l, [Thread] + rest) == WaitedTicks(len, ThreadStep(len, l), rest)
  {
    assert ([Thread] + rest)[1..] == rest;
  }

  function SilentAttempt(): seq<Event>
  {
    [Thread] + ([Thread] + (Silence(TIMEOUT_VAL + 1) + [Thread]))
  }

  lemma OneAttempt(len: byte, l: Loop, rest: seq<Event>)
    requires Expedited(len) && l.at == Start && Over(l.state) && l.fail < ATTEMPTS
    ensures var t := Loop(if l.fail + 1 < ATTEMPTS then Start else Done, Fail, 0xffff_ffff, l.fail + 1);
            RunLoop(len, l, SilentAttempt() + rest) == RunLoop(len, t, rest) &&
            WaitedTicks(len, l, SilentAttempt() + rest) == TIMEOUT_VAL + 1 + WaitedTicks(len, t, rest)
  {
    var l1 := ThreadStep(len, l);
    var l2 := ThreadStep(len, l1);
    var l3 := l2.(state := Fail, timeout := 0xffff_ffff);
    var silence := Silence(TIMEOUT_VAL + 1);
    assert SilentAttempt() + rest == [Thread] + ([Thread] + (silence + ([Thread] + rest)));
    OneMove(len, l, [Thread] + (silence + ([Thread] + rest)));
    OneMove(len, l1, silence + ([Thread] + rest));
    SilentWait(len, l2, TIMEOUT_VAL + 1, [Thread] + rest);
    OneMove(len, l3, rest);
  }

  lemma NoReply(len: byte, state: State, timeout: nat)
    requires Expedited(len) && Over(state)
    ensures var l := Begin(state, timeout);
            var run := SilentAttempt() + (SilentAttempt() + (SilentAttempt() + []));
            RunLoop(len, l, run).at == Done && RunLoop(len, l, run).fail == ATTEMPTS &&
            WaitedTicks(len, l, run) == ATTEMPTS * (TIMEOUT_VAL + 1)
  {
    var l := Begin(state, timeout);
    OneAttempt(len, l, SilentAttempt() + (SilentAttempt() + []));
    OneAttempt(len, Loop(Start, Fail, 0xffff_ffff, 1), SilentAttempt() + []);
    OneAttempt(len, Loop(Start, Fail, 0xffff_ffff, 2), []);
  }

  // Bit 6 of the command byte marks a read.
  predicate IsRead(len: byte)
  {
    len / 0x40 % 2 == 1
  }

  // For every run up to a moment at which the loop waits for its answer: any reply to a read, and
  // the reply 0x60 to a write, ends the loop in success with its next step; any other reply to a
  // write changes nothing.
  lemma AnswerTaken(len: byte, state: State, timeout: nat, run: seq<Event>, first: byte)
    requires Expedited(len)
    ensures var l := RunLoop(len, Begin(state, timeout), run);
            l.at == Waiting && !Over(l.state) ==>
              if IsRead(len) || first == 0x60
              then var t := RunLoop(len, l, [Reply(first), Thread]); t.at == Done && t.state == Success
              else RunLoop(len, l, [Reply(first)]) == l
  {
    var l := RunLoop(len, Begin(state, timeout), run);
    RunBounded(len, Begin(state, timeout), run);
    if l.at == Waiting && !Over(l.state) {
      var answered := Next(len, l, Reply(first));
      assert [Reply(first), Thread][1..] == [Thread] && [Thread][1..] == [];
      assert RunLoop(len, l, [Reply(first)]) == answered;
      assert RunLoop(len, l, [Reply(first), Thread]) == Next(len, answered, Thread);
    }
  }

  // What the loop reports as success was confirmed: by some reply if it read, and by the reply 0x60
  // if it wrote.
  lemma SuccessConfirmed(len: byte, state: State, timeout: nat, run: seq<Event>)
    requires Expedited(len)
    ensures var t := RunLoop(len, Begin(state, timeout), run);
            t.at == Done && t.state == Success ==>
              exists k :: 0 <= k < |run| && run[k].Reply? && (IsRead(len) || run[k].first == 0x60)
  {
    ConfirmedFrom(len, Begin(state, timeout), run);
  }

  predicate Confirms(len: byte, e: Event)
  {
    e.Reply? && (IsRead(len) || e.first == 0x60)
  }

  lemma {:induction false} ConfirmedFrom(len: byte, l: Loop, run: seq<Event>)
    requires Expedited(len) && Sane(len, l) && (l.at == Armed || l.at == Waiting || l.at == Done ==> l.state != Success)
    ensures var t := RunLoop(len, l, run);
            t.at == Done && t.state == Success ==> exists k :: 0 <= k < |run| && Confirms(len, run[k])
    decreases |run|
  {
    if run != [] && !Confirms(len, run[0]) {
      var n := Next(len, l, run[0]);
      StepBounded(len, l, run[0]);
      ConfirmedFrom(len, n, run[1..]);
      if k :| 0 <= k < |run| - 1 && Confirms(len, run[1..][k]) {
        assert Confirms(len, run[k + 1]);
      }
    }
  }
}
