/**
 The circular receive buffer of a serial port.  The receive interrupt fills the buffer and restarts
 the transfer when it is full; the working thread copies the interrupt's count into tail and hands
 the bytes from head to tail to the parser one at a time.  Every access of either side is a step of
 its own, so that all interleavings are runs of the machine below.
 */
module UartRing {
  import opened Bytes
  import ConfigProtocol
  import ConfigComm

  // Where the thread stands inside UartComm::DataReceiver.  At Read it has read the driver's count
  // and not yet written tail.
  datatype Point = Idle | Read | Check | Test | Process | Advance

  // received and handed are histories: all bytes that arrived, and all bytes given to the parser.
  // target and seenTarget say how many bytes had arrived at the moment tail, and seen, stand for.
  datatype Ring = Ring(buffer: seq<byte>, count: nat, head: nat, tail: nat, at: Point, seen: nat,
                       parser: ConfigProtocol.Parser, dispatched: seq<ConfigProtocol.Message>,
                       received: seq<byte>, handed: seq<byte>, target: nat, seenTarget: nat)
  {
    function Size(): nat { |buffer| }

    function Backlog(): int { |received| - |handed| }
  }

  // A byte arrives; the full transfer is restarted; the UART reports an overflow; the thread moves.
  datatype Event = Arrive(b: byte) | Complete | Overflow | Thread

  predicate Enabled(r: Ring, e: Event)
  {
    match e
    case Arrive(_) => r.count < r.Size()
    case Complete => r.count == r.Size()
    case Overflow => true
    case Thread => r.head < r.Size()
  }

  function Started(size: nat, p: ConfigProtocol.Parser): Ring
  {
    Ring(Zeros(size), 0, 0, 0, Idle, 0, p, [], [], [], 0, 0)
  }

  function Step(r: Ring, e: Event): Ring
    requires Enabled(r, e)
  {
    match e
    case Arrive(b) => r.(buffer := r.buffer[r.count := b], count := r.count + 1, received := r.received + [b])
    case Complete => r.(count := 0, tail := 0, target := |r.received|)
    case Overflow => r.(parser := r.parser.(dataState := ConfigProtocol.Delimiter1))
    case Thread => ThreadStep(r)
  }

  // ++head, back to the start at the end of the buffer.
  function NextHead(r: Ring): nat
  {
    if r.head + 1 >= r.Size() then 0 else r.head + 1
  }

  // One access of the thread.
  function ThreadStep(r: Ring): (t: Ring)
    requires r.head < r.Size()
    ensures t.head < t.Size() == r.Size()
  {
    match r.at
    case Idle => r.(seen := r.count, seenTarget := |r.received|, at := Read)
    case Read => r.(tail := r.seen, target := r.seenTarget, at := Check)
    case Check => r.(at := if r.tail == r.Size() then Idle else Test)
    case Test => r.(at := if r.head != r.tail then Process else Idle)
    case Process =>
      var out := ConfigProtocol.Step(r.parser, r.buffer[r.head]);
      r.(parser := out.0, dispatched := r.dispatched + out.1, handed := r.handed + [r.buffer[r.head]], at := Advance)
    case Advance => r.(head := NextHead(r), at := Test)
  }

  predicate Possible(r: Ring, run: seq<Event>)
    decreases |run|
  {
    run == [] || (Enabled(r, run[0]) && Possible(Step(r, run[0]), run[1..]))
  }

  function After(r: Ring, run: seq<Event>): Ring
    requires Possible(r, run)
    decreases |run|
  {
    if run == [] then r else After(Step(r, run[0]), run[1..])
  }

  // A run in which the interrupt never gets more than a whole buffer ahead of the thread.
  predicate Kept(r: Ring, run: seq<Event>)
    decreases |run|
  {
    run == [] || (Enabled(r, run[0]) && Step(r, run[0]).Backlog() <= r.Size() && Kept(Step(r, run[0]), run[1..]))
  }

  lemma {:induction false} KeptIsPossible(r: Ring, run: seq<Event>)
    requires Kept(r, run)
    ensures Possible(r, run)
    decreases |run|
  {
    if run != [] {
      KeptIsPossible(Step(r, run[0]), run[1..]);
    }
  }

  // ----- What the ring holds -----

  // Where the p-th received byte lies, for p at most one lap behind the current transfer.
  function Slot(r: Ring, p: int): int
  {
    var q := p - |r.received| + r.count;
    if q < 0 then q + r.Size() else if q == r.Size() then 0 else q
  }

  // The next position head will take is that of the first byte not handed over.
  predicate HeadRight(r: Ring)
  {
    (if r.at == Advance then NextHead(r) else r.head) == Slot(r, |r.handed|)
  }

  // A position stands for a number of received bytes; a full transfer reads as the buffer's size.
  predicate Marks(r: Ring, position: nat, n: nat, orSize: bool)
  {
    position == Slot(r, n) || (orSize && position == r.Size() && Slot(r, n) == 0)
  }

  predicate TailRight(r: Ring)
  {
    match r.at
    case Idle => true
    case Read => |r.handed| <= r.seenTarget <= |r.received| && Marks(r, r.seen, r.seenTarget, true)
    case _ => Marks(r, r.tail, r.target, r.at == Check)
  }

  predicate Stored(r: Ring)
  {
    forall p :: |r.handed| <= p < |r.received| ==>
      0 <= Slot(r, p) < r.Size() && r.buffer[Slot(r, p)] == r.received[p]
  }

  predicate Faithful(r: Ring)
  {
    && r.head < r.Size() && r.count <= r.Size() && r.count <= |r.received|
    && |r.handed| <= r.target <= |r.received| && r.Backlog() <= r.Size()
    && r.handed == r.received[..|r.handed|]
    && HeadRight(r) && TailRight(r) && Stored(r)
    && (r.at == Process ==> |r.handed| < r.target)
  }

  lemma StartsFaithful(size: nat, p: ConfigProtocol.Parser)
    requires size > 0
    ensures var r := Started(size, p); Faithful(r) && r.Backlog() == 0 && r.head == r.tail == r.count == 0
  {
  }

  lemma ArriveKeeps(r: Ring, b: byte)
    requires Faithful(r) && Enabled(r, Arrive(b)) && Step(r, Arrive(b)).Backlog() <= r.Size()
    ensures Faithful(Step(r, Arrive(b)))
  {
    var t := Step(r, Arrive(b));
    forall p | |t.handed| <= p < |t.received|
      ensures 0 <= Slot(t, p) < t.Size() && t.buffer[Slot(t, p)] == t.received[p]
    {
      assert Slot(t, p) == Slot(r, p) || p == |r.received|;
    }
    assert t.handed == t.received[..|t.handed|];
  }

  lemma CompleteKeeps(r: Ring)
    requires Faithful(r) && Enabled(r, Complete)
    ensures Faithful(Step(r, Complete))
  {
    var t := Step(r, Complete);
    forall p | |t.handed| <= p < |t.received|
      ensures 0 <= Slot(t, p) < t.Size() && t.buffer[Slot(t, p)] == t.received[p]
    {
      assert Slot(t, p) == Slot(r, p);
    }
  }

  lemma StillStored(r: Ring, t: Ring)
    requires Stored(r) && t.buffer == r.buffer && t.count == r.count && t.received == r.received
    requires |t.handed| >= |r.handed|
    ensures Stored(t)
  {
    assert forall p :: Slot(t, p) == Slot(r, p);
  }

  lemma ProcessKeeps(r: Ring)
    requires Faithful(r) && r.at == Process
    ensures Faithful(ThreadStep(r)) && ThreadStep(r).handed == r.handed + [r.received[|r.handed|]]
  {
    StillStored(r, ThreadStep(r));
    assert Slot(r, |r.handed|) == r.head;
    assert r.handed + [r.received[|r.handed|]] == r.received[..|r.handed| + 1];
  }

  lemma ThreadKeeps(r: Ring)
    requires Faithful(r)
    ensures Faithful(ThreadStep(r))
  {
    if r.at == Process {
      ProcessKeeps(r);
    } else {
      StillStored(r, ThreadStep(r));
    }
  }

  lemma StepKeeps(r: Ring, e: Event)
    requires Faithful(r) && Enabled(r, e) && Step(r, e).Backlog() <= r.Size()
    ensures Faithful(Step(r, e))
  {
    match e {
      case Arrive(b) => ArriveKeeps(r, b);
      case Complete => CompleteKeeps(r);
      case Overflow => StillStored(r, Step(r, e));
      case Thread => ThreadKeeps(r);
    }
  }

  // Whatever the interleaving, as long as at most one whole buffer is unread: the parser has been
  // given a gap-free, duplicate-free prefix of what arrived.
  lemma {:induction false} RunHandsPrefix(r: Ring, run: seq<Event>)
    requires Faithful(r) && Kept(r, run)
    ensures Possible(r, run) && Faithful(After(r, run))
    ensures After(r, run).handed <= After(r, run).received
    decreases |run|
  {
    KeptIsPossible(r, run);
    if run != [] {
      StepKeeps(r, run[0]);
      RunHandsPrefix(Step(r, run[0]), run[1..]);
    }
  }

  // ----- What is dispatched -----

  // Since it had been given n bytes, the parser has answered as the parser alone answers the rest.
  predicate Answers(r: Ring, p: ConfigProtocol.Parser, before: seq<ConfigProtocol.Message>, n: nat)
  {
    && n <= |r.handed|
    && var out := Run(ConfigProtocol.Step, p, r.handed[n..]);
       r.parser == out.0 && r.dispatched == before + out.1
  }

  lemma AnswersNext(r: Ring, t: Ring, p: ConfigProtocol.Parser, before: seq<ConfigProtocol.Message>, n: nat, b: byte)
    requires Answers(r, p, before, n) && t.handed == r.handed + [b]
    requires var out := ConfigProtocol.Step(r.parser, b); t.parser == out.0 && t.dispatched == r.dispatched + out.1
    ensures Answers(t, p, before, n)
  {
    RunBehind(ConfigProtocol.Step, p, r.handed[n..], b, before);
    assert t.handed[n..] == r.handed[n..] + [b];
  }

  lemma RunBehind<S, I, E>(step: (S, I) -> (S, seq<E>), s: S, a: seq<I>, x: I, before: seq<E>)
    ensures var r := Run(step, s, a); var last := step(r.0, x); var all := Run(step, s, a + [x]);
            all.0 == last.0 && before + all.1 == before + r.1 + last.1
  {
    RunSnoc(step, s, a, x);
    var r := Run(step, s, a);
    var last := step(r.0, x);
    assert before + (r.1 + last.1) == before + r.1 + last.1;
  }

  lemma {:induction false} RunAnswers(r: Ring, run: seq<Event>, p: ConfigProtocol.Parser, before: seq<ConfigProtocol.Message>, n: nat)
    requires Possible(r, run) && Overflow !in run && Answers(r, p, before, n)
    ensures Answers(After(r, run), p, before, n)
    decreases |run|
  {
    if run != [] {
      var t := Step(r, run[0]);
      assert run[0] in run && forall e :: e in run[1..] ==> e in run;
      if run[0] == Thread && r.at == Process {
        AnswersNext(r, t, p, before, n, r.buffer[r.head]);
      } else {
        assert t.handed == r.handed;
      }
      RunAnswers(t, run[1..], p, before, n);
    }
  }

  // The stream of these messages has come in behind what r had received, or a part of it.
  predicate Arrived(r: Ring, t: Ring, messages: seq<ConfigProtocol.Message>)
    requires forall m :: m in messages ==> ConfigProtocol.Sendable(m)
  {
    t.received <= r.received + ConfigProtocol.Stream(messages)
  }

  // What a thread that started with nothing unread and the parser at rest owes for them.
  predicate Dispatches(r: Ring, t: Ring, messages: seq<ConfigProtocol.Message>)
    requires forall m :: m in messages ==> ConfigProtocol.Sendable(m)
  {
    && r.dispatched <= t.dispatched <= r.dispatched + messages
    && (t.handed == r.received + ConfigProtocol.Stream(messages) ==> t.dispatched == r.dispatched + messages)
  }

  // From the arrival of bytes to the dispatch of commands: a stream of well-formed messages, in
  // any interleaving, dispatches a prefix of them, and all of them once the thread has caught up.
  lemma StreamThroughRing(r: Ring, messages: seq<ConfigProtocol.Message>, run: seq<Event>)
    requires Faithful(r) && r.Backlog() == 0 && r.parser.dataState == ConfigProtocol.Delimiter1
    requires Kept(r, run) && Possible(r, run) && Overflow !in run
    requires forall m :: m in messages ==> ConfigProtocol.Sendable(m)
    requires Arrived(r, After(r, run), messages)
    ensures Dispatches(r, After(r, run), messages)
  {
    var t := After(r, run);
    var n := |r.handed|;
    RunHandsPrefix(r, run);
    NothingYet(r);
    RunAnswers(r, run, r.parser, r.dispatched, n);
    assert r.handed == r.received;
    HandedOfStream(r.received, t.handed, t.received, ConfigProtocol.Stream(messages));
    StreamPrefix(r.parser, messages, t.handed[n..]);
  }

  lemma NothingYet(r: Ring)
    ensures Answers(r, r.parser, r.dispatched, |r.handed|)
  {
    assert r.handed[|r.handed|..] == [];
    assert r.dispatched + [] == r.dispatched;
  }

  lemma HandedOfStream(before: seq<byte>, handed: seq<byte>, received: seq<byte>, s: seq<byte>)
    requires handed <= received <= before + s && |before| <= |handed|
    ensures handed[|before|..] <= s
    ensures handed == before + s ==> handed[|before|..] == s
  {
    var u, n := before + s, |before|;
    assert handed == u[..|handed|];
    assert handed[n..] == u[n..|handed|] == s[..|handed| - n];
  }

  lemma StreamPrefix(p: ConfigProtocol.Parser, messages: seq<ConfigProtocol.Message>, bytes: seq<byte>)
    requires p.dataState == ConfigProtocol.Delimiter1 && forall m :: m in messages ==> ConfigProtocol.Sendable(m)
    requires bytes <= ConfigProtocol.Stream(messages)
    ensures Run(ConfigProtocol.Step, p, bytes).1 <= messages
    ensures bytes == ConfigProtocol.Stream(messages) ==> Run(ConfigProtocol.Step, p, bytes).1 == messages
  {
    var s := ConfigProtocol.Stream(messages);
    var rest := s[|bytes|..];
    assert s == bytes + rest;
    RunConcat(ConfigProtocol.Step, p, bytes, rest);
    ConfigProtocol.StreamDispatched(p, messages);
  }

  // An overflow resets the parser wherever it stood: with nothing unread at that moment, the
  // messages that arrive after it are dispatched as from a fresh start.
  lemma OverflowRecovers(r: Ring, messages: seq<ConfigProtocol.Message>, run: seq<Event>)
    requires Faithful(r) && r.Backlog() == 0 && Kept(Step(r, Overflow), run) && Overflow !in run
    requires Possible(Step(r, Overflow), run)
    requires forall m :: m in messages ==> ConfigProtocol.Sendable(m)
    requires Arrived(r, After(Step(r, Overflow), run), messages)
    ensures Dispatches(r, After(Step(r, Overflow), run), messages)
  {
    StepKeeps(r, Overflow);
    StreamThroughRing(Step(r, Overflow), messages, run);
  }

  // ----- The thread catches up -----

  // n steps of the thread alone.
  function Spin(r: Ring, n: nat): (t: Ring)
    requires r.head < r.Size()
    ensures t.head < t.Size()
    decreases n
  {
    if n == 0 then r else Spin(ThreadStep(r), n - 1)
  }

  lemma {:induction false} SpinMore(r: Ring, m: nat, n: nat)
    requires r.head < r.Size()
    ensures Spin(r, m + n) == Spin(Spin(r, m), n)
    decreases m
  {
    if m > 0 {
      SpinMore(ThreadStep(r), m - 1, n);
    }
  }

  lemma SpinThree(r: Ring)
    requires r.head < r.Size()
    ensures Spin(r, 1) == ThreadStep(r) && Spin(r, 2) == ThreadStep(ThreadStep(r))
    ensures Spin(r, 3) == ThreadStep(ThreadStep(ThreadStep(r)))
  {
    var r1 := ThreadStep(r);
    var r2 := ThreadStep(r1);
    var r3 := ThreadStep(r2);
    assert Spin(r3, 0) == r3;
    assert Spin(r2, 0) == r2 && Spin(r2, 1) == r3;
    assert Spin(r1, 0) == r1 && Spin(r1, 1) == r2 && Spin(r1, 2) == r3;
  }

  // The loop's test is exact: it stops precisely when all bytes counted by the last write of tail
  // have been handed over, as long as they are fewer than a whole buffer.
  lemma DrainExact(r: Ring)
    requires Faithful(r) && r.at == Test && r.target - |r.handed| < r.Size()
    ensures ThreadStep(r).at == Idle <==> |r.handed| == r.target
  {
  }

  // Nothing has arrived between the two states.
  predicate NothingNew(r: Ring, t: Ring)
  {
    t.received == r.received && t.count == r.count && t.Size() == r.Size() && |t.handed| >= |r.handed|
  }

  // One turn of the drain loop.
  lemma TestRound(r: Ring)
    requires Faithful(r) && r.at == Test && r.Backlog() < r.Size() && |r.handed| < r.target
    ensures var t := Spin(r, 3);
            Faithful(t) && t.at == Test && NothingNew(r, t) && t.target == r.target && |t.handed| == |r.handed| + 1
  {
    DrainExact(r);
    ThreadKeeps(r);
    var p := ThreadStep(r);
    ProcessKeeps(p);
    ThreadKeeps(ThreadStep(p));
    SpinThree(r);
  }

  // Nothing has arrived, and everything counted by the last write of tail is handed over.
  predicate Drained(r: Ring, t: Ring)
  {
    Faithful(t) && t.at == Idle && NothingNew(r, t) && |t.handed| == r.target
  }

  lemma {:induction false} Drains(r: Ring) returns (n: nat)
    requires Faithful(r) && r.at == Test && r.Backlog() < r.Size()
    ensures n == 3 * (r.target - |r.handed|) + 1 && Drained(r, Spin(r, n))
    decreases r.target - |r.handed|
  {
    if |r.handed| < r.target {
      TestRound(r);
      var t := Spin(r, 3);
      var m := Drains(t);
      SpinMore(r, 3, m);
      n := 3 + m;
    } else {
      LastTest(r);
      n := 1;
    }
  }

  lemma LastTest(r: Ring)
    requires Faithful(r) && r.at == Test && r.Backlog() < r.Size() && |r.handed| == r.target
    ensures Drained(r, Spin(r, 1))
  {
    DrainExact(r);
    ThreadKeeps(r);
    SpinThree(r);
  }

  // From rest: the count is read and tail written.
  lemma Looks(r: Ring)
    requires Faithful(r) && r.at == Idle && r.count < r.Size()
    ensures var t := Spin(r, 3);
            Faithful(t) && t.at == Test && NothingNew(r, t) && t.target == |r.received| && t.handed == r.handed
  {
    var r1 := ThreadStep(r);
    ThreadKeeps(r);
    ThreadKeeps(r1);
    ThreadKeeps(ThreadStep(r1));
    SpinThree(r);
  }

  // From rest, a pass drains everything.
  lemma Pass(r: Ring) returns (n: nat)
    requires Faithful(r) && r.at == Idle && r.Backlog() < r.Size() && r.count < r.Size()
    ensures n == 3 * r.Backlog() + 4 && CaughtUp(r, Spin(r, n))
  {
    Looks(r);
    var l := Spin(r, 3);
    var m := Drains(l);
    AllHanded(Spin(l, m));
    SpinMore(r, 3, m);
    n := 3 + m;
  }

  predicate CaughtUp(r: Ring, t: Ring)
  {
    t.at == Idle && t.received == r.received && t.handed == r.received
  }

  lemma AllHanded(t: Ring)
    requires Faithful(t) && |t.handed| == |t.received|
    ensures t.handed == t.received
  {
    assert t.received[..|t.received|] == t.received;
  }

  // Drains what the last write of tail counted, then the rest in a pass of its own.
  lemma TestCatchesUp(r: Ring) returns (n: nat)
    requires Faithful(r) && r.at == Test && r.Backlog() < r.Size() && r.count < r.Size()
    ensures n <= 3 * r.Backlog() + 5
    ensures CaughtUp(r, Spin(r, n))
  {
    var k := Drains(r);
    var t := Spin(r, k);
    var m := Pass(t);
    SpinMore(r, k, m);
    n := k + m;
  }

  // Wherever the thread stands: without further arrivals it has handed everything over after a
  // number of steps linear in the backlog.
  lemma CatchesUp(r: Ring) returns (n: nat)
    requires Faithful(r) && r.Backlog() < r.Size() && r.count < r.Size()
    ensures n <= 3 * r.Backlog() + 7
    ensures CaughtUp(r, Spin(r, n))
  {
    if r.at == Idle || r.at == Test {
      n := RestCatchesUp(r);
    } else {
      var k, t := GetsToRest(r);
      var m := RestCatchesUp(t);
      ThenCaughtUp(r, t, k, m);
      n := k + m;
    }
  }

  lemma ThenCaughtUp(r: Ring, t: Ring, k: nat, m: nat)
    requires r.head < r.Size() && t == Spin(r, k) && NothingNew(r, t) && CaughtUp(t, Spin(t, m))
    ensures CaughtUp(r, Spin(r, k + m))
  {
    SpinMore(r, k, m);
  }

  // One step, or two by way of Check or Advance.
  lemma GetsToRest(r: Ring) returns (k: nat, t: Ring)
    requires Faithful(r) && r.at != Idle && r.at != Test
    ensures k <= 2 && t == Spin(r, k)
    ensures Faithful(t) && NothingNew(r, t) && (t.at == Idle || t.at == Test)
  {
    k, t := 1, ThreadStep(r);
    ThreadKeeps(r);
    SpinThree(r);
    if t.at != Idle && t.at != Test {
      ThreadKeeps(t);
      k, t := 2, ThreadStep(t);
    }
  }

  lemma RestCatchesUp(r: Ring) returns (n: nat)
    requires Faithful(r) && (r.at == Idle || r.at == Test) && r.Backlog() < r.Size() && r.count < r.Size()
    ensures n <= 3 * r.Backlog() + 5
    ensures CaughtUp(r, Spin(r, n))
  {
    if r.at == Test {
      n := TestCatchesUp(r);
    } else {
      n := Pass(r);
    }
  }

  // The same as a run.
  function Threads(n: nat): (run: seq<Event>)
  {
    if n == 0 then [] else [Thread] + Threads(n - 1)
  }

  lemma {:induction false} SpinIsRun(r: Ring, n: nat)
    requires r.head < r.Size()
    ensures Possible(r, Threads(n)) && After(r, Threads(n)) == Spin(r, n)
    decreases n
  {
    if n > 0 {
      SpinIsRun(ThreadStep(r), n - 1);
      OneStep(r, Thread, Threads(n - 1));
    }
  }

  lemma {:induction false} AfterBoth(r: Ring, a: seq<Event>, b: seq<Event>)
    requires Possible(r, a) && Possible(After(r, a), b)
    ensures Possible(r, a + b) && After(r, a + b) == After(After(r, a), b)
    decreases |a|
  {
    if a == [] {
      assert a + b == b;
    } else {
      AfterBoth(Step(r, a[0]), a[1..], b);
      assert (a + b)[1..] == a[1..] + b && (a + b)[0] == a[0];
    }
  }

  lemma {:induction false} OnlyThread(n: nat)
    ensures Overflow !in Threads(n)
  {
    if n > 0 {
      OnlyThread(n - 1);
    }
  }

  // A stream that has come in whole is dispatched whole: when the last byte has arrived, with less
  // than a buffer unread, a number of thread steps linear in the backlog does it.
  lemma StreamDispatchedWhole(r: Ring, messages: seq<ConfigProtocol.Message>, run: seq<Event>) returns (n: nat)
    requires Faithful(r) && r.Backlog() == 0 && r.parser.dataState == ConfigProtocol.Delimiter1
    requires Kept(r, run) && Possible(r, run) && Overflow !in run
    requires forall m :: m in messages ==> ConfigProtocol.Sendable(m)
    requires var t := After(r, run);
             t.received == r.received + ConfigProtocol.Stream(messages) && t.Backlog() < t.Size() && t.count < t.Size()
    ensures n <= 3 * After(r, run).Backlog() + 7
    ensures Possible(r, run + Threads(n)) && After(r, run + Threads(n)).dispatched == r.dispatched + messages
  {
    var t := After(r, run);
    RunHandsPrefix(r, run);
    n := CatchesUp(t);
    SpinIsRun(t, n);
    AfterBoth(r, run, Threads(n));
    OnlyThread(n);
    NothingYet(r);
    RunAnswers(r, run + Threads(n), r.parser, r.dispatched, |r.handed|);
    var s, stream := Spin(t, n), ConfigProtocol.Stream(messages);
    assert r.handed == r.received;
    assert s.handed[|r.handed|..] == stream;
    ConfigProtocol.StreamDispatched(r.parser, messages);
  }

  lemma OneStep(r: Ring, e: Event, rest: seq<Event>)
    requires Enabled(r, e) && Possible(Step(r, e), rest)
    ensures Possible(r, [e] + rest) && After(r, [e] + rest) == After(Step(r, e), rest)
  {
    assert ([e] + rest)[1..] == rest;
  }

  // ----- At one whole buffer, and above -----

  // With exactly one buffer unread, the ring looks empty: a pass hands nothing over.
  lemma FullStalls(r: Ring)
    requires Faithful(r) && r.at == Idle && r.Backlog() == r.Size()
    ensures var t := Spin(r, if r.count == r.Size() then 3 else 4); t.at == Idle && t.handed == r.handed
  {
    SpinThree(r);
    if r.count < r.Size() {
      SpinMore(r, 3, 1);
      SpinThree(Spin(r, 3));
    }
  }

  // The interrupt's side of one more arrival, with the restarts it may need.
  function OneMore(r: Ring, b: byte): seq<Event>
  {
    if r.count == r.Size() then [Complete, Arrive(b)]
    else if r.count + 1 == r.Size() then [Arrive(b), Complete]
    else [Arrive(b)]
  }

  // The position of the next byte to be handed over.
  function NextPosition(r: Ring): nat
  {
    if r.at == Advance then NextHead(r) else r.head
  }

  // One byte more, and it takes the place of the oldest unread one: from any state with a full
  // backlog, wherever the thread stands, the next byte it hands over is the new one.
  lemma OneMoreLoses(r: Ring, b: byte) returns (s: Ring, n: nat)
    requires Faithful(r) && r.Backlog() == r.Size() > 1
    ensures Possible(r, OneMore(r, b)) && s == After(r, OneMore(r, b)) && s.head < s.Size() && n <= 8
    ensures Spin(s, n).handed == r.handed + [b]
    ensures Spin(s, n).received == r.received + [b] && r.handed + [r.received[|r.handed|]] <= r.received
  {
    s := Overrun(r, b);
    n := HandsNext(s);
    assert r.handed + [r.received[|r.handed|]] == r.received[..|r.handed| + 1];
  }

  // s hands over, with its n-th step, the byte at the given position, and none before it.
  predicate Hands(s: Ring, n: nat, position: nat)
    requires s.head < s.Size()
  {
    position < s.Size() && Spin(s, n).handed == s.handed + [s.buffer[position]] && Spin(s, n).received == s.received
  }

  lemma HandsNext(s: Ring) returns (n: nat)
    requires s.head < s.Size() && s.count < s.Size() && s.count != NextPosition(s)
    ensures n <= 8 && Hands(s, n, NextPosition(s))
  {
    if s.at == Read || s.at == Check {
      var t := ThreadStep(s);
      if t.at == Check {
        n := SoonHands(ThreadStep(t));
        n := n + 2;
      } else {
        n := SoonHands(t);
        n := n + 1;
      }
    } else {
      n := SoonHands(s);
    }
  }

  lemma SoonHands(s: Ring) returns (n: nat)
    requires s.head < s.Size() && s.count < s.Size() && s.count != NextPosition(s) && s.at != Read && s.at != Check
    ensures (if s.at == Advance then n <= 7 else n <= 6) && Hands(s, n, NextPosition(s))
  {
    if s.at == Idle {
      IdleHands(s);
      n := 5;
    } else if s.at == Process {
      SpinThree(s);
      n := 1;
    } else if s.at == Test {
      n := TestHands(s);
    } else {
      n := TestHands(ThreadStep(s));
      n := n + 1;
    }
  }

  lemma TestHands(s: Ring) returns (n: nat)
    requires s.at == Test && s.head < s.Size() && s.count < s.Size() && s.count != s.head
    ensures n <= 6 && Hands(s, n, s.head)
  {
    if s.tail != s.head {
      SpinThree(s);
      n := 2;
    } else {
      IdleHands(ThreadStep(s));
      n := 6;
    }
  }

  lemma IdleHands(s: Ring)
    requires s.at == Idle && s.head < s.Size() && s.count < s.Size() && s.count != s.head
    ensures Hands(s, 5, s.head)
  {
    var t := s.(seen := s.count, seenTarget := |s.received|, tail := s.count, target := |s.received|, at := Test);
    SpinThree(s);
    assert Spin(s, 3) == t;
    SpinMore(s, 3, 2);
    SpinThree(t);
  }

  lemma Overrun(r: Ring, b: byte) returns (s: Ring)
    requires Faithful(r) && r.Backlog() == r.Size() > 1
    ensures Possible(r, OneMore(r, b)) && s == After(r, OneMore(r, b))
    ensures s.at == r.at && s.head == r.head < s.Size() == r.Size()
    ensures s.handed == r.handed && s.received == r.received + [b]
    ensures s.count < s.Size() && s.count != NextPosition(s) < s.Size() && s.buffer[NextPosition(s)] == b
  {
    if r.count == r.Size() {
      var c := Step(r, Complete);
      s := Step(c, Arrive(b));
      OneStep(c, Arrive(b), []);
      OneStep(r, Complete, [Arrive(b)]);
      assert [Complete] + [Arrive(b)] == OneMore(r, b) && [Arrive(b)] + [] == [Arrive(b)];
    } else if r.count + 1 == r.Size() {
      var a := Step(r, Arrive(b));
      s := Step(a, Complete);
      OneStep(a, Complete, []);
      OneStep(r, Arrive(b), [Complete]);
      assert [Arrive(b)] + [Complete] == OneMore(r, b) && [Complete] + [] == [Complete];
    } else {
      s := Step(r, Arrive(b));
      OneStep(r, Arrive(b), []);
      assert [Arrive(b)] + [] == OneMore(r, b);
    }
  }

  // ----- The thread's pass as one call -----

  // The bytes between two positions of the ring.
  function Unread(buffer: seq<byte>, head: nat, tail: nat): seq<byte>
    requires head < |buffer| && tail < |buffer|
  {
    if head <= tail then buffer[head..tail] else buffer[head..] + buffer[..tail]
  }

  // They are exactly the bytes received but not yet handed over.
  lemma UnreadIsBacklog(r: Ring)
    requires Faithful(r) && r.at == Idle && r.count < r.Size() && r.Backlog() < r.Size()
    ensures Unread(r.buffer, r.head, r.count) == r.received[|r.handed|..]
  {
    var c := |r.handed|;
    var u, v := Unread(r.buffer, r.head, r.count), r.received[c..];
    forall k | 0 <= k < |v| ensures k < |u| && u[k] == v[k] {
      assert v[k] == r.received[c + k];
      assert r.buffer[Slot(r, c + k)] == r.received[c + k];
    }
    assert |u| == |v|;
  }

  class UartComm {
    const buffer: array<byte>
    var head: nat
    var tail: nat
    const parser: ConfigComm.ConfigComm

    ghost predicate Valid()
      reads this
    {
      head < buffer.Length
    }

    constructor (bufferSize: nat, comm: ConfigComm.ConfigComm)
      requires bufferSize > 0
      ensures Valid() && fresh(buffer) && buffer.Length == bufferSize && parser == comm && head == 0
    {
      buffer := new byte[bufferSize];
      parser := comm;
      head, tail := 0, 0;
    }

    // DataReceiver when nothing interrupts it; rxBusy and rxCount are what the driver reports.
    method DataReceiver(rxBusy: bool, rxCount: nat) returns (events: seq<ConfigProtocol.Message>)
      requires Valid() && rxCount <= buffer.Length
      modifies this`head, this`tail, parser
      ensures Valid() && buffer[..] == old(buffer[..])
      ensures rxBusy && rxCount < buffer.Length ==> head == rxCount
      ensures rxBusy && rxCount < buffer.Length ==>
        (parser.Parsing(), events) == Run(ConfigProtocol.Step, old(parser.Parsing()), Unread(old(buffer[..]), old(head), rxCount))
      ensures !(rxBusy && rxCount < buffer.Length) ==>
        events == [] && head == old(head) && parser.Parsing() == old(parser.Parsing())
    {
      events := [];
      if !rxBusy {
        return;
      }
      tail := rxCount;
      if tail == buffer.Length {
        return;
      }
      events := Drain();
    }

    method Drain() returns (events: seq<ConfigProtocol.Message>)
      requires Valid() && tail < buffer.Length
      modifies this`head, parser
      ensures Valid() && head == tail && buffer[..] == old(buffer[..])
      ensures (parser.Parsing(), events) ==
              Run(ConfigProtocol.Step, old(parser.Parsing()), Unread(old(buffer[..]), old(head), tail))
    {
      ghost var ring, first := buffer[..], parser.Parsing();
      ghost var all := Unread(ring, head, tail);
      ghost var done := [];
      events := [];
      NoneHanded(ring, head, tail);
      while head != tail
        invariant Valid() && buffer[..] == ring && PartWay(ring, head, tail, done, all)
        invariant Fed(first, done, parser.Parsing(), events)
        decreases if head <= tail then tail - head else buffer.Length - head + tail
      {
        HandNext(ring, head, tail, done, all);
        ghost var b := ring[head];
        events := HandOne(first, done, events);
        done := done + [b];
      }
      AllOver(ring, head, done, all);
    }

    // One turn of the loop: the events so far, and those of the byte at head.
    method HandOne(ghost first: ConfigProtocol.Parser, ghost done: seq<byte>, before: seq<ConfigProtocol.Message>)
      returns (events: seq<ConfigProtocol.Message>)
      requires Valid() && Fed(first, done, parser.Parsing(), before)
      modifies this`head, parser
      ensures Valid() && buffer[..] == old(buffer[..]) && tail == old(tail)
      ensures head == if old(head) + 1 == buffer.Length then 0 else old(head) + 1
      ensures Fed(first, done + [old(buffer[head])], parser.Parsing(), events)
    {
      FedNext(first, done, parser.Parsing(), before, buffer[head]);
      var out := parser.DataProcess(buffer[head]);
      events := before + out;
      head := head + 1;
      if head >= buffer.Length {
        head := 0;
      }
    }

    // The receive events of UARTCallback: the driver starts the next transfer, or lost a byte.
    method UARTCallback(overflow: bool)
      requires Valid()
      modifies this`tail, parser`dataState
      ensures Valid() && head == old(head) && buffer[..] == old(buffer[..])
      ensures tail == if overflow then old(tail) else 0
      ensures parser.Parsing() ==
              if overflow then old(parser.Parsing()).(dataState := ConfigProtocol.Delimiter1) else old(parser.Parsing())
    {
      if overflow {
        parser.RxOverflow();
      } else {
        tail := 0;
      }
    }
  }

  // done is handed over, and the rest of all lies between head and tail.
  predicate PartWay(ring: seq<byte>, head: nat, tail: nat, done: seq<byte>, all: seq<byte>)
  {
    head < |ring| && tail < |ring| && done + Unread(ring, head, tail) == all
  }

  // What the parser is and has answered after these bytes.
  predicate Fed(first: ConfigProtocol.Parser, bytes: seq<byte>, p: ConfigProtocol.Parser, events: seq<ConfigProtocol.Message>)
  {
    (p, events) == Run(ConfigProtocol.Step, first, bytes)
  }

  lemma FedNext(first: ConfigProtocol.Parser, bytes: seq<byte>, p: ConfigProtocol.Parser, events: seq<ConfigProtocol.Message>, b: byte)
    requires Fed(first, bytes, p, events)
    ensures var out := ConfigProtocol.Step(p, b); Fed(first, bytes + [b], out.0, events + out.1)
  {
    RunSnoc(ConfigProtocol.Step, first, bytes, b);
  }

  lemma NoneHanded(ring: seq<byte>, head: nat, tail: nat)
    requires head < |ring| && tail < |ring|
    ensures PartWay(ring, head, tail, [], Unread(ring, head, tail))
  {
    var all := Unread(ring, head, tail);
    assert [] + all == all;
  }

  lemma AllOver(ring: seq<byte>, head: nat, done: seq<byte>, all: seq<byte>)
    requires PartWay(ring, head, head, done, all)
    ensures done == all
  {
    assert Unread(ring, head, head) == [] && done + [] == done;
  }

  // One turn of the drain loop.
  lemma HandNext(ring: seq<byte>, head: nat, tail: nat, done: seq<byte>, all: seq<byte>)
    requires PartWay(ring, head, tail, done, all) && head != tail
    ensures PartWay(ring, if head + 1 == |ring| then 0 else head + 1, tail, done + [ring[head]], all)
  {
    var next := if head + 1 == |ring| then 0 else head + 1;
    UnreadNext(ring, head, tail);
    assert done + ([ring[head]] + Unread(ring, next, tail)) == done + [ring[head]] + Unread(ring, next, tail);
  }

  lemma UnreadNext(buffer: seq<byte>, head: nat, tail: nat)
    requires head < |buffer| && tail < |buffer| && head != tail
    ensures Unread(buffer, head, tail) ==
            [buffer[head]] + Unread(buffer, if head + 1 == |buffer| then 0 else head + 1, tail)
  {
    if head < tail {
      assert buffer[head..tail] == [buffer[head]] + buffer[head + 1..tail];
    } else if head + 1 == |buffer| {
      assert buffer[head..] == [buffer[head]];
      assert buffer[..tail] == buffer[0..tail];
    } else {
      var u, v := buffer[head + 1..], buffer[..tail];
      assert buffer[head..] == [buffer[head]] + u;
      assert [buffer[head]] + u + v == [buffer[head]] + (u + v);
    }
  }
}
