/**
 The serial link between the controller and the CAN-ISP bridge.  Two firmwares each hold a printer
 and a parser: the controller prints 5A A5 frames that the bridge parses, the bridge prints 33 CC
 frames that the controller parses.  Both end a frame with a 16-bit byte sum.
 */
module IspProtocol {
  import opened Bytes

  // The side that parses.
  datatype Side = Controller | Bridge

  function First(side: Side): byte
  {
    if side.Bridge? then 0x5a else 0x33
  }

  function Second(side: Side): byte
  {
    if side.Bridge? then 0xa5 else 0xcc
  }

  // The bridge keeps a payload and one byte more in 300 bytes.
  const LONGEST: nat := 299

  datatype State = Delimiter1 | Delimiter2 | Command | ParameterLength | Parameters | Checksum

  // parameters holds the bytes stored so far, collected the two checksum bytes read so far.
  datatype Parser = Parser(dataState: State, checksum: word, command: byte, index: nat, parameterLen: nat,
                           parameters: seq<byte>, collected: nat)

  // Refused is the bridge's report of a wrong checksum.  TooLong marks where its buffers overflow;
  // what happens from there on is not part of this model.
  datatype Event = Accepted(command: byte, data: seq<byte>) | Refused | TooLong

  type word = x: int | 0 <= x < 0x1_0000

  // A 16-bit accumulator.
  function Add16(a: word, b: byte): word
  {
    (a as int + b as int) % 0x1_0000
  }

  function Acc16(start: word, s: seq<byte>): word
    decreases |s|
  {
    if s == [] then start else Acc16(Add16(start, s[0]), s[1..])
  }

  lemma {:induction false} Acc16IsSum(start: word, s: seq<byte>)
    ensures Acc16(start, s) == (start as int + Sum(s)) % 0x1_0000
    decreases |s|
  {
    if s != [] {
      Acc16IsSum(Add16(start, s[0]), s[1..]);
      SumHead(s);
      ReduceLater(0x1_0000, start as int + s[0] as int, Sum(s[1..]));
    }
  }

  lemma {:induction false} Acc16Snoc(start: word, s: seq<byte>, b: byte)
    ensures Acc16(start, s + [b]) == Add16(Acc16(start, s), b)
    decreases |s|
  {
    if s == [] {
      assert s + [b] == [b] && [b][1..] == [];
      assert Acc16(start, [b]) == Acc16(Add16(start, b), []);
    } else {
      Acc16Snoc(Add16(start, s[0]), s[1..], b);
      assert (s + [b])[1..] == s[1..] + [b];
    }
  }

  // Two byte strings accumulate alike exactly when their sums agree modulo 65536.
  lemma SameAcc16(start: word, a: seq<byte>, b: seq<byte>)
    ensures Acc16(start, a) == Acc16(start, b) <==> Sum(a) % 0x1_0000 == Sum(b) % 0x1_0000
  {
    Acc16IsSum(start, a);
    Acc16IsSum(start, b);
    SameResidue(0x1_0000, start, Sum(a), Sum(b));
  }

  // byte << (index * 8) for two bytes filling disjoint parts, so or-ing adds.
  function Placed(b: int, index: nat): int
  {
    if index == 0 then b else b * 0x100
  }

  function Step(side: Side, p: Parser, b: byte): (Parser, seq<Event>)
  {
    match p.dataState
    case Delimiter1 => (if b == First(side) then p.(dataState := Delimiter2) else p, [])
    case Delimiter2 => (p.(dataState := if b == Second(side) then Command else Delimiter1), [])
    case Command =>
      (p.(checksum := b, command := b, index := 0, parameterLen := 0, dataState := ParameterLength), [])
    case ParameterLength => LengthStep(side, p, b)
    case Parameters =>
      var q := p.(checksum := Add16(p.checksum, b), parameters := p.parameters + [b]);
      (if |q.parameters| >= p.parameterLen then q.(index := 0, collected := 0, dataState := Checksum) else q, [])
    case Checksum => ChecksumStep(side, p, b)
  }

  function LengthStep(side: Side, p: Parser, b: byte): (Parser, seq<Event>)
  {
    var q := p.(checksum := Add16(p.checksum, b), parameterLen := p.parameterLen + Placed(b, p.index), index := p.index + 1);
    if q.index < 2 then (q, [])
    else if q.parameterLen == 0 then
      (q.(dataState := Delimiter1), if side.Controller? then [Accepted(p.command, [])] else [])
    else
      (q.(parameters := [], dataState := Parameters), if side.Bridge? && q.parameterLen > LONGEST then [TooLong] else [])
  }

  function ChecksumStep(side: Side, p: Parser, b: byte): (Parser, seq<Event>)
  {
    var q := p.(collected := p.collected + Placed(b, p.index), index := p.index + 1);
    if q.index < 2 then (q, [])
    else
      (q.(parameters := [], collected := 0, dataState := Delimiter1),
       if q.collected == p.checksum then [Accepted(p.command, p.parameters)]
       else if side.Bridge? then [Refused] else [])
  }

  function Parse(side: Side): ((Parser, byte) -> (Parser, seq<Event>))
  {
    (p: Parser, b: byte) => Step(side, p, b)
  }

  // ----- The wire format -----

  function Info(command: byte, n: nat): (r: seq<byte>)
    ensures |r| == 3
  {
    var high := n / 0x100;
    [command, n % 0x100, high % 0x100]
  }

  function FrameSum(command: byte, data: seq<byte>): word
  {
    Acc16(Acc16(0, Info(command, |data|)), data)
  }

  function Tail(sum: word): (r: seq<byte>)
    ensures |r| == 2
  {
    [sum % 0x100, sum / 0x100]
  }

  function FrameWith(side: Side, command: byte, carried: seq<byte>, sum: word): seq<byte>
  {
    [First(side), Second(side)] + Info(command, |carried|) + carried + Tail(sum)
  }

  // A frame for the given side whose header and checksum announce the payload promised, whatever it carries.
  function FrameOf(side: Side, command: byte, promised: seq<byte>, carried: seq<byte>): seq<byte>
    requires |promised| == |carried|
  {
    FrameWith(side, command, carried, FrameSum(command, promised))
  }

  function Encoded(side: Side, command: byte, data: seq<byte>): seq<byte>
  {
    FrameOf(side, command, data, data)
  }

  predicate Sendable(side: Side, n: nat)
  {
    n <= if side.Bridge? then LONGEST else 0xffff
  }

  // ----- Parsing one frame -----

  lemma Opening(side: Side, p: Parser, command: byte, n: nat, rest: seq<byte>) returns (q: Parser)
    requires p.dataState == Delimiter1 && 0 < n && Sendable(side, n)
    ensures q == p.(dataState := Parameters, checksum := Acc16(0, Info(command, n)), command := command,
                    index := 2, parameterLen := n, parameters := [])
    ensures Run(Parse(side), p, [First(side), Second(side)] + Info(command, n) + rest) == Run(Parse(side), q, rest)
  {
    var h := Info(command, n);
    InfoBytes(command, n);
    assert [First(side), Second(side)] + h + rest == [First(side), Second(side), command] + ([h[1], h[2]] + rest);
    Announced(side, p, command, [h[1], h[2]] + rest);
    var p3 := p.(dataState := ParameterLength, checksum := command, command := command, index := 0, parameterLen := 0);
    AccThree(h);
    q := LengthBytes(side, p3, n, h[1], h[2], rest);
  }

  // What the bridge cannot keep shows as soon as it is announced.
  lemma OverlongAnnounced(p: Parser, command: byte, n: nat)
    requires p.dataState == Delimiter1 && n <= 0xffff
    ensures Run(Parse(Bridge), p, [0x5a, 0xa5] + Info(command, n)).1 == if n > 299 then [TooLong] else []
  {
    var h := Info(command, n);
    InfoBytes(command, n);
    assert [0x5a, 0xa5] + h == [First(Bridge), Second(Bridge), command] + [h[1], h[2]];
    Announced(Bridge, p, command, [h[1], h[2]]);
    var p3 := p.(dataState := ParameterLength, checksum := command, command := command, index := 0, parameterLen := 0);
    assert [h[1], h[2]] == [h[1]] + [h[2]];
    RunQuiet(Parse(Bridge), p3, h[1], [h[2]]);
    assert [h[2]][1..] == [];
  }

  lemma InfoBytes(command: byte, n: nat)
    requires n <= 0xffff
    ensures var h := Info(command, n); h[0] == command && n == h[1] as int + 0x100 * h[2] as int
    ensures n < 0x100 ==> Info(command, n) == [command, n, 0]
  {
  }

  lemma Announced(side: Side, p: Parser, command: byte, rest: seq<byte>)
    requires p.dataState == Delimiter1
    ensures var q := p.(dataState := ParameterLength, checksum := command, command := command, index := 0, parameterLen := 0);
            Run(Parse(side), p, [First(side), Second(side), command] + rest) == Run(Parse(side), q, rest)
  {
    var step := Parse(side);
    var p1 := step(p, First(side)).0;
    var p2 := step(p1, Second(side)).0;
    assert p1 == p.(dataState := Delimiter2) && p2 == p.(dataState := Command);
    assert [First(side), Second(side), command] + rest == [First(side)] + ([Second(side)] + ([command] + rest));
    RunQuiet(step, p, First(side), [Second(side)] + ([command] + rest));
    RunQuiet(step, p1, Second(side), [command] + rest);
    RunQuiet(step, p2, command, rest);
  }

  lemma LengthBytes(side: Side, p: Parser, n: nat, lo: byte, hi: byte, rest: seq<byte>) returns (q: Parser)
    requires p.dataState == ParameterLength && p.index == 0 && p.parameterLen == 0
    requires 0 < n && Sendable(side, n) && n == lo as int + 0x100 * hi as int
    ensures q == p.(dataState := Parameters, checksum := Add16(Add16(p.checksum, lo), hi), index := 2, parameterLen := n, parameters := [])
    ensures Run(Parse(side), p, [lo, hi] + rest) == Run(Parse(side), q, rest)
  {
    var step := Parse(side);
    var p1 := step(p, lo).0;
    q := step(p1, hi).0;
    assert [lo, hi] + rest == [lo] + ([hi] + rest);
    RunQuiet(step, p, lo, [hi] + rest);
    RunQuiet(step, p1, hi, rest);
  }

  lemma AccThree(h: seq<byte>)
    requires |h| == 3
    ensures Acc16(0, h) == Add16(Add16(h[0], h[1]), h[2])
  {
    var t, u := h[1..], h[2..];
    assert t[1..] == u && u[1..] == [];
    assert Acc16(0, h) == Acc16(h[0], t);
    assert Acc16(h[0], t) == Acc16(Add16(h[0], h[1]), u);
    assert Acc16(Add16(h[0], h[1]), u) == Add16(Add16(h[0], h[1]), h[2]);
  }

  lemma {:induction false} Body(side: Side, p: Parser, data: seq<byte>, rest: seq<byte>)
    requires p.dataState == Parameters && data != [] && |p.parameters| + |data| == p.parameterLen
    ensures Run(Parse(side), p, data + rest) ==
            Run(Parse(side), p.(dataState := Checksum, checksum := Acc16(p.checksum, data), index := 0, collected := 0,
                                parameters := p.parameters + data), rest)
    decreases |data|
  {
    var q := Step(side, p, data[0]).0;
    var tail := data[1..];
    assert data + rest == [data[0]] + (tail + rest);
    RunQuiet(Parse(side), p, data[0], tail + rest);
    assert q.parameters + tail == p.parameters + data;
    if tail == [] {
      assert tail + rest == rest;
    } else {
      Body(side, q, tail, rest);
    }
  }

  // What a frame is answered with, given the sum its checksum field holds and the sum of its bytes.
  function Verdict(side: Side, command: byte, data: seq<byte>, right: bool): seq<Event>
  {
    if right then [Accepted(command, data)] else if side.Bridge? then [Refused] else []
  }

  lemma Closing(side: Side, p: Parser, sum: word, rest: seq<byte>) returns (q: Parser)
    requires p.dataState == Checksum && p.index == 0 && p.collected == 0
    ensures q.dataState == Delimiter1
    ensures var after := Run(Parse(side), q, rest);
            Run(Parse(side), p, Tail(sum) + rest) ==
            (after.0, Verdict(side, p.command, p.parameters, sum == p.checksum) + after.1)
  {
    var t := Tail(sum);
    var p1 := Step(side, p, t[0]).0;
    q := Step(side, p1, t[1]).0;
    assert t + rest == [t[0]] + ([t[1]] + rest);
    RunQuiet(Parse(side), p, t[0], [t[1]] + rest);
    RunCons(Parse(side), p1, t[1], rest);
  }

  // A first delimiter that is not followed by the second is dropped together with the byte after it.
  lemma BrokenDelimiter(side: Side, p: Parser, b: byte, rest: seq<byte>)
    requires p.dataState == Delimiter1 && b != Second(side)
    ensures Run(Parse(side), p, [First(side), b] + rest) == Run(Parse(side), p, rest)
  {
    var p1 := Step(side, p, First(side)).0;
    assert [First(side), b] + rest == [First(side)] + ([b] + rest);
    RunQuiet(Parse(side), p, First(side), [b] + rest);
    RunQuiet(Parse(side), p1, b, rest);
  }

  // Bytes before a delimiter are skipped.
  lemma {:induction false} JunkSkipped(side: Side, p: Parser, junk: seq<byte>, rest: seq<byte>)
    requires p.dataState == Delimiter1 && First(side) !in junk
    ensures Run(Parse(side), p, junk + rest) == Run(Parse(side), p, rest)
    decreases |junk|
  {
    if junk == [] {
      assert junk + rest == rest;
    } else {
      assert junk[0] in junk && forall b :: b in junk[1..] ==> b in junk;
      assert junk + rest == [junk[0]] + (junk[1..] + rest);
      RunQuiet(Parse(side), p, junk[0], junk[1..] + rest);
      JunkSkipped(side, p, junk[1..], rest);
    }
  }

  // A frame with any payload and any checksum field: it is accepted exactly when the field is right.
  lemma AnyFrame(side: Side, p: Parser, command: byte, carried: seq<byte>, sum: word, rest: seq<byte>) returns (q: Parser)
    requires p.dataState == Delimiter1 && carried != [] && Sendable(side, |carried|)
    ensures q.dataState == Delimiter1
    ensures var after := Run(Parse(side), q, rest);
            Run(Parse(side), p, FrameWith(side, command, carried, sum) + rest) ==
            (after.0, Verdict(side, command, carried, sum == FrameSum(command, carried)) + after.1)
  {
    var n := |carried|;
    var head := [First(side), Second(side)] + Info(command, n);
    assert FrameWith(side, command, carried, sum) + rest == head + (carried + (Tail(sum) + rest));
    var body := Opening(side, p, command, n, carried + (Tail(sum) + rest));
    Body(side, body, carried, Tail(sum) + rest);
    var last := body.(dataState := Checksum, checksum := Acc16(body.checksum, carried), index := 0, collected := 0, parameters := carried);
    assert [] + carried == carried;
    q := Closing(side, last, sum, rest);
  }

  lemma FrameAlone(side: Side, p: Parser, command: byte, carried: seq<byte>, sum: word)
    requires p.dataState == Delimiter1 && carried != [] && Sendable(side, |carried|)
    ensures var out := Run(Parse(side), p, FrameWith(side, command, carried, sum));
            out.0.dataState == Delimiter1 && out.1 == Verdict(side, command, carried, sum == FrameSum(command, carried))
  {
    var q := AnyFrame(side, p, command, carried, sum, []);
    var frame := FrameWith(side, command, carried, sum);
    assert frame + [] == frame;
    var verdict := Verdict(side, command, carried, sum == FrameSum(command, carried));
    assert Run(Parse(side), q, []) == (q, []);
    assert verdict + [] == verdict;
  }

  // A frame whose payload was altered on the way, without changing its length: it is accepted
  // exactly when the byte sums agree modulo 65536, and either way the parser starts over behind it.
  lemma AlteredFrame(side: Side, p: Parser, command: byte, data: seq<byte>, carried: seq<byte>, rest: seq<byte>) returns (q: Parser)
    requires p.dataState == Delimiter1 && data != [] && |carried| == |data| && Sendable(side, |data|)
    ensures q.dataState == Delimiter1
    ensures var after := Run(Parse(side), q, rest);
            Run(Parse(side), p, FrameOf(side, command, data, carried) + rest) ==
            (after.0, Verdict(side, command, carried, Sum(carried) % 0x1_0000 == Sum(data) % 0x1_0000) + after.1)
  {
    q := AnyFrame(side, p, command, carried, FrameSum(command, data), rest);
    SameAcc16(Acc16(0, Info(command, |data|)), carried, data);
  }

  // One wrong byte is always noticed.
  lemma OneWrongByte(side: Side, p: Parser, command: byte, data: seq<byte>, k: nat, b: byte)
    requires p.dataState == Delimiter1 && k < |data| && Sendable(side, |data|) && b != data[k]
    ensures var out := Run(Parse(side), p, FrameOf(side, command, data, data[k := b]));
            out.0.dataState == Delimiter1 && out.1 == if side.Bridge? then [Refused] else []
  {
    var carried := data[k := b];
    var frame := FrameOf(side, command, data, carried);
    var q := AlteredFrame(side, p, command, data, carried, []);
    assert frame + [] == frame;
    OneByteShows(0x1_0000, data, k, b);
  }

  // A frame that carries no payload is dispatched by the controller as soon as its length is known,
  // and passed over by the bridge; the checksum bytes behind it disturb neither.
  lemma EmptyFrame(side: Side, p: Parser, command: byte, rest: seq<byte>) returns (q: Parser)
    requires p.dataState == Delimiter1
    ensures q.dataState == Delimiter1
    ensures var after := Run(Parse(side), q, rest);
            Run(Parse(side), p, Encoded(side, command, []) + rest) ==
            (after.0, (if side.Controller? then [Accepted(command, [])] else []) + after.1)
  {
    var step := Parse(side);
    var p1 := step(p, First(side)).0;
    var p2 := step(p1, Second(side)).0;
    var p3 := step(p2, command).0;
    var p4 := step(p3, 0).0;
    var p5 := step(p4, 0).0;
    var p6 := step(p5, command).0;
    q := step(p6, 0).0;
    EmptyFrameBytes(side, command);
    assert Encoded(side, command, []) + rest
        == [First(side)] + ([Second(side)] + ([command] + ([0] + ([0] + ([command] + ([0] + rest))))));
    RunQuiet(step, p, First(side), [Second(side)] + ([command] + ([0] + ([0] + ([command] + ([0] + rest))))));
    RunQuiet(step, p1, Second(side), [command] + ([0] + ([0] + ([command] + ([0] + rest)))));
    RunQuiet(step, p2, command, [0] + ([0] + ([command] + ([0] + rest))));
    RunQuiet(step, p3, 0, [0] + ([command] + ([0] + rest)));
    RunCons(step, p4, 0, [command] + ([0] + rest));
    RunQuiet(step, p5, command, [0] + rest);
    RunQuiet(step, p6, 0, rest);
  }

  lemma EmptyFrameBytes(side: Side, command: byte)
    ensures Encoded(side, command, []) == [First(side), Second(side), command, 0, 0, command, 0]
  {
    AccThree(Info(command, 0));
  }

  // ----- Streams -----

  datatype Message = Message(command: byte, data: seq<byte>)

  function Stream(side: Side, messages: seq<Message>): seq<byte>
  {
    if messages == [] then []
    else Encoded(side, messages[0].command, messages[0].data) + Stream(side, messages[1..])
  }

  // What a side makes of messages: the bridge passes over empty ones.
  function Heard(side: Side, messages: seq<Message>): seq<Event>
  {
    if messages == [] then []
    else
      (if side.Bridge? && messages[0].data == [] then [] else [Accepted(messages[0].command, messages[0].data)])
      + Heard(side, messages[1..])
  }

  // Each firmware understands the other: any concatenation of frames is accepted frame by frame,
  // each with the command and payload it was printed from, and nothing overflows or is refused.
  lemma {:induction false} StreamAccepted(side: Side, p: Parser, messages: seq<Message>)
    requires p.dataState == Delimiter1 && forall m :: m in messages ==> |m.data| <= if side.Bridge? then 299 else 0xffff
    ensures Run(Parse(side), p, Stream(side, messages)).1 == Heard(side, messages)
    ensures Run(Parse(side), p, Stream(side, messages)).0.dataState == Delimiter1
    decreases |messages|
  {
    if messages != [] {
      var m := messages[0];
      assert m in messages;
      var rest := Stream(side, messages[1..]);
      var q;
      if m.data == [] {
        assert m == Message(m.command, []);
        q := EmptyFrame(side, p, m.command, rest);
      } else {
        q := AlteredFrame(side, p, m.command, m.data, m.data, rest);
      }
      StreamAccepted(side, q, messages[1..]);
    }
  }

  // Messages that carry something are all heard.
  lemma {:induction false} NothingPassedOver(side: Side, messages: seq<Message>)
    requires forall m :: m in messages ==> m.data != []
    ensures |Heard(side, messages)| == |messages|
    ensures forall k :: 0 <= k < |messages| ==> Heard(side, messages)[k] == Accepted(messages[k].command, messages[k].data)
    decreases |messages|
  {
    if messages != [] {
      assert messages[0] in messages;
      NothingPassedOver(side, messages[1..]);
    }
  }

  // ----- The bridge's ready-made replies -----

  // A reply that carries one code, with its checksum written out by hand.
  function CodeReply(command: byte, code: byte, sum: byte): seq<byte>
  {
    [0x33, 0xcc, command, 0x01, 0x00, code, sum, 0x00]
  }

  // The controller hears such a reply exactly when the written checksum is right.
  lemma CodeReplyHeard(p: Parser, command: byte, code: byte, sum: byte)
    requires p.dataState == Delimiter1
    ensures var out := Run(Parse(Controller), p, CodeReply(command, code, sum));
            out.0.dataState == Delimiter1 &&
            out.1 == Verdict(Controller, command, [code], sum as int == command as int + code as int + 1)
  {
    var data := [code];
    CodeFrame(Controller, command, data, sum);
    FrameAlone(Controller, p, command, data, sum);
  }

  lemma CodeFrame(side: Side, command: byte, data: seq<byte>, sum: byte)
    requires |data| == 1
    ensures FrameWith(side, command, data, sum) == [First(side), Second(side), command, 1, 0, data[0], sum, 0]
    ensures FrameSum(command, data) == command as int + data[0] as int + 1
  {
    InfoBytes(command, 1);
    ShortTail(sum);
    AccThree(Info(command, 1));
    assert data[1..] == [];
    assert Acc16(Acc16(0, Info(command, 1)), data) == Add16(Acc16(0, Info(command, 1)), data[0]);
  }

  lemma ShortTail(sum: byte)
    ensures Tail(sum) == [sum, 0]
  {
  }

  const TARGET_LOSS := CodeReply(0x02, 0xe1, 0xe4)
  const CHECKSUM_ERROR := CodeReply(0x02, 0xe2, 0xe5)
  const TARGET_TIMEOUT := CodeReply(0x02, 0xe3, 0xe6)
  const TARGET_TIMEOUT1 := CodeReply(0x02, 0xe5, 0xe6)
  const TARGET_TIMEOUT2 := CodeReply(0x02, 0xe6, 0xe6)
  const TARGET_TIMEOUT3 := CodeReply(0x02, 0xe7, 0xe7)
  const PAGE_OVERFLOW := CodeReply(0x02, 0xe4, 0xe7)
  const ERASE_DONE := CodeReply(0x04, 0x01, 0x06)
  const GO_DONE := CodeReply(0x05, 0x01, 0x07)

  function HeardOf(p: Parser, reply: seq<byte>): seq<Event>
  {
    Run(Parse(Controller), p, reply).1
  }

  // Six of the nine arrive as written.
  lemma ReadyMadeReplies(p: Parser)
    requires p.dataState == Delimiter1
    ensures HeardOf(p, TARGET_LOSS) == [Accepted(2, [0xe1])] && HeardOf(p, CHECKSUM_ERROR) == [Accepted(2, [0xe2])]
    ensures HeardOf(p, TARGET_TIMEOUT) == [Accepted(2, [0xe3])] && HeardOf(p, PAGE_OVERFLOW) == [Accepted(2, [0xe4])]
    ensures HeardOf(p, ERASE_DONE) == [Accepted(4, [1])] && HeardOf(p, GO_DONE) == [Accepted(5, [1])]
  {
    CodeReplyHeard(p, 2, 0xe1, 0xe4);
    CodeReplyHeard(p, 2, 0xe2, 0xe5);
    CodeReplyHeard(p, 2, 0xe3, 0xe6);
    CodeReplyHeard(p, 2, 0xe4, 0xe7);
    CodeReplyHeard(p, 4, 1, 6);
    CodeReplyHeard(p, 5, 1, 7);
  }

  // The other three, all reports of a failed update step, carry a wrong checksum: the controller
  // never hears them and runs into its own timeout.
  lemma UnheardReplies(p: Parser)
    requires p.dataState == Delimiter1
    ensures HeardOf(p, TARGET_TIMEOUT1) == [] && HeardOf(p, TARGET_TIMEOUT2) == [] && HeardOf(p, TARGET_TIMEOUT3) == []
  {
    CodeReplyHeard(p, 2, 0xe5, 0xe6);
    CodeReplyHeard(p, 2, 0xe6, 0xe6);
    CodeReplyHeard(p, 2, 0xe7, 0xe7);
  }

  // The controller's ready-made requests are what its printer would send.
  lemma ReadyMadeRequests()
    ensures [0x5a, 0xa5, 0x01, 0x01, 0x00, 0x01, 0x03, 0x00] == Encoded(Bridge, 1, [1])
    ensures [0x5a, 0xa5, 0x04, 0x01, 0x00, 0x01, 0x06, 0x00] == Encoded(Bridge, 4, [1])
    ensures [0x5a, 0xa5, 0x05, 0x01, 0x00, 0x01, 0x07, 0x00] == Encoded(Bridge, 5, [1])
  {
    CodeFrame(Bridge, 1, [1], 3);
    CodeFrame(Bridge, 4, [1], 6);
    CodeFrame(Bridge, 5, [1], 7);
  }
}
