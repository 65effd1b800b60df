/**
 The frames of the server connection: AA 44, a 32-bit length, that many bytes starting with the
 command, and the sum of everything before it.  The sender cuts them into pieces of 1024 bytes;
 TCP may cut the stream anywhere else.
 */
module TcpFraming {
  import opened Bytes

  const HEADER0: byte := 0xAA
  const HEADER1: byte := 0x44

  // The static variables of DataReciever.
  datatype Parser = Parser(dataState: nat, readIndex: nat, payloadLen: nat, sumcheck: byte, payload: seq<byte>)

  // b << (i << 3)
  function Placed(b: int, i: nat): int
  {
    if i == 0 then b else if i == 1 then b * 0x100 else if i == 2 then b * 0x1_0000 else b * 0x100_0000
  }

  // One pass of the receive loop.  The length bytes fill disjoint bits, so or-ing adds.
  function Step(p: Parser, b: byte): (Parser, seq<seq<byte>>)
  {
    match p.dataState
    case 0 =>
      if b == HEADER0 then (p.(dataState := 1, payloadLen := 0, readIndex := 0), []) else (p, [])
    case 1 =>
      (p.(sumcheck := Add8(HEADER0, HEADER1), dataState := if b == HEADER1 then 2 else 0), [])
    case 2 =>
      var q := p.(sumcheck := Add8(p.sumcheck, b), payloadLen := p.payloadLen + Placed(b, p.readIndex));
      if p.readIndex + 1 >= 4 then (q.(dataState := 3, readIndex := 0, payload := []), [])
      else (q.(readIndex := p.readIndex + 1), [])
    case 3 =>
      var q := p.(sumcheck := Add8(p.sumcheck, b), payload := p.payload + [b]);
      if p.readIndex + 1 >= p.payloadLen then (q.(readIndex := 0, dataState := 4), [])
      else (q.(readIndex := p.readIndex + 1), [])
    case 4 =>
      (p.(dataState := 0, payload := [], payloadLen := 0),
       if b == p.sumcheck then [p.payload[..Min(|p.payload|, p.payloadLen)]] else [])
    case _ => (p, [])
  }

  function LengthBytes(n: nat): (r: seq<byte>)
    requires n < 0x1_0000_0000
    ensures |r| == 4
  {
    [n % 0x100, n / 0x100 % 0x100, n / 0x1_0000 % 0x100, n / 0x100_0000]
  }

  // The checksum of a frame around body, as the receiver accumulates it.
  function Checksum(body: seq<byte>): byte
    requires |body| < 0x1_0000_0000
  {
    Acc8(Acc8(Add8(HEADER0, HEADER1), LengthBytes(|body|)), body)
  }

  // A frame around body that ends in the given byte.
  function Framed(body: seq<byte>, last: byte): seq<byte>
    requires |body| < 0x1_0000_0000
  {
    [HEADER0, HEADER1] + LengthBytes(|body|) + body + [last]
  }

  function Frame(body: seq<byte>): seq<byte>
    requires |body| < 0x1_0000_0000
  {
    Framed(body, Checksum(body))
  }

  function Length(a: int, b: int, c: int, d: int): int
  {
    a + b * 0x100 + c * 0x1_0000 + d * 0x100_0000
  }

  lemma LengthValue(n: nat)
    requires n < 0x1_0000_0000
    ensures var l := LengthBytes(n); Length(l[0], l[1], l[2], l[3]) == n
  {
    var a := n / 0x100;
    var b := n / 0x1_0000;
    assert n == a * 0x100 + n % 0x100 && a == b * 0x100 + a % 0x100 && b == a / 0x100;
  }

  lemma LengthRun(p: Parser, l: seq<byte>, rest: seq<byte>) returns (q: Parser)
    requires p.dataState == 2 && p.readIndex == 0 && p.payloadLen == 0 && |l| == 4
    ensures q == Parser(3, 0, Length(l[0], l[1], l[2], l[3]), Acc8(p.sumcheck, l), [])
    ensures Run(Step, p, l + rest) == Run(Step, q, rest)
  {
    FourBytes(l, rest);
    q := ThreeLengthBytes(p, l[0], l[1], l[2], [l[3]] + rest);
    q := LastLengthByte(q, l[3], rest);
    AccFour(p.sumcheck, l);
  }

  lemma FourBytes(l: seq<byte>, rest: seq<byte>)
    requires |l| == 4
    ensures l + rest == [l[0]] + ([l[1]] + ([l[2]] + ([l[3]] + rest)))
  {
  }

  lemma ThreeLengthBytes(p: Parser, a: byte, b: byte, c: byte, rest: seq<byte>) returns (q: Parser)
    requires p.dataState == 2 && p.readIndex == 0 && p.payloadLen == 0
    ensures q == p.(readIndex := 3, payloadLen := Length(a, b, c, 0), sumcheck := Add8(Add8(Add8(p.sumcheck, a), b), c))
    ensures Run(Step, p, [a] + ([b] + ([c] + rest))) == Run(Step, q, rest)
  {
    q := LengthByte(p, 0, a, [b] + ([c] + rest));
    q := LengthByte(q, 1, b, [c] + rest);
    q := LengthByte(q, 2, c, rest);
  }

  lemma LengthByte(p: Parser, i: nat, b: byte, rest: seq<byte>) returns (q: Parser)
    requires p.dataState == 2 && p.readIndex == i < 3
    ensures q == p.(readIndex := i + 1, payloadLen := p.payloadLen + Placed(b, i), sumcheck := Add8(p.sumcheck, b))
    ensures Run(Step, p, [b] + rest) == Run(Step, q, rest)
  {
    RunQuiet(Step, p, b, rest);
    q := Step(p, b).0;
  }

  lemma LastLengthByte(p: Parser, b: byte, rest: seq<byte>) returns (q: Parser)
    requires p.dataState == 2 && p.readIndex == 3
    ensures q == Parser(3, 0, p.payloadLen + Placed(b, 3), Add8(p.sumcheck, b), [])
    ensures Run(Step, p, [b] + rest) == Run(Step, q, rest)
  {
    RunQuiet(Step, p, b, rest);
    q := Step(p, b).0;
  }

  lemma AccFour(start: byte, l: seq<byte>)
    requires |l| == 4
    ensures Acc8(start, l) == Add8(Add8(Add8(Add8(start, l[0]), l[1]), l[2]), l[3])
  {
    assert l == [l[0], l[1]] + [l[2], l[3]];
    Acc8Concat(start, [l[0], l[1]], [l[2], l[3]]);
    AccTwo(start, l[0], l[1]);
    AccTwo(Acc8(start, [l[0], l[1]]), l[2], l[3]);
  }

  lemma AccTwo(start: byte, a: byte, b: byte)
    ensures Acc8(start, [a, b]) == Add8(Add8(start, a), b)
  {
    assert [a, b][1..] == [b] && [b][1..] == [];
    assert Acc8(start, [a, b]) == Acc8(Add8(start, a), [b]) == Acc8(Add8(Add8(start, a), b), []);
  }

  // From the start state the six header bytes lead to the payload state, whatever was left over.
  lemma HeaderRun(p: Parser, n: nat, rest: seq<byte>)
    requires p.dataState == 0 && n < 0x1_0000_0000
    ensures Run(Step, p, [HEADER0, HEADER1] + LengthBytes(n) + rest) ==
            Run(Step, Parser(3, 0, n, Acc8(Add8(HEADER0, HEADER1), LengthBytes(n)), []), rest)
  {
    var l := LengthBytes(n);
    LengthValue(n);
    var p1 := Step(p, HEADER0).0;
    assert [HEADER0, HEADER1] + l + rest == [HEADER0] + ([HEADER1] + (l + rest));
    RunQuiet(Step, p, HEADER0, [HEADER1] + (l + rest));
    RunQuiet(Step, p1, HEADER1, l + rest);
    var q := LengthRun(Step(p1, HEADER1).0, l, rest);
  }

  // The payload state collects the rest of the body and its sum.
  lemma {:induction false} BodyRun(p: Parser, body: seq<byte>, rest: seq<byte>)
    requires p.dataState == 3 && body != [] && p.readIndex == |p.payload| && p.readIndex + |body| == p.payloadLen
    ensures Run(Step, p, body + rest) ==
            Run(Step, Parser(4, 0, p.payloadLen, Acc8(p.sumcheck, body), p.payload + body), rest)
    decreases |body|
  {
    var q := Step(p, body[0]).0;
    var tail := body[1..];
    assert body + rest == [body[0]] + (tail + rest);
    RunQuiet(Step, p, body[0], tail + rest);
    assert q.payload + tail == p.payload + body;
    if tail == [] {
      assert tail + rest == rest;
    } else {
      BodyRun(q, tail, rest);
    }
  }

  // A framed body is delivered exactly when its last byte is its checksum; either way the parser
  // is back at its start state at the end of the frame.
  lemma FramedRun(p: Parser, body: seq<byte>, last: byte, rest: seq<byte>) returns (q: Parser)
    requires p.dataState == 0 && 1 <= |body| < 0x1_0000_0000
    ensures q.dataState == 0
    ensures var after := Run(Step, q, rest);
            Run(Step, p, Framed(body, last) + rest) == (after.0, (if last == Checksum(body) then [body] else []) + after.1)
  {
    var n := |body|;
    var head := [HEADER0, HEADER1] + LengthBytes(n);
    var p3 := Parser(3, 0, n, Acc8(Add8(HEADER0, HEADER1), LengthBytes(n)), []);
    var p4 := Parser(4, 0, n, Checksum(body), [] + body);
    assert Framed(body, last) + rest == head + (body + ([last] + rest));
    HeaderRun(p, n, body + ([last] + rest));
    BodyRun(p3, body, [last] + rest);
    RunCons(Step, p4, last, rest);
    assert p4.payload[..Min(|p4.payload|, p4.payloadLen)] == body;
    q := Step(p4, last).0;
  }

  // ----- Whole streams -----

  predicate Sendable(bodies: seq<seq<byte>>)
  {
    forall b :: b in bodies ==> 1 <= |b| < 0x1_0000_0000
  }

  function Stream(bodies: seq<seq<byte>>): seq<byte>
    requires Sendable(bodies)
  {
    if bodies == [] then [] else Frame(bodies[0]) + Stream(bodies[1..])
  }

  // Any frames one after the other are delivered, each once and in order.
  lemma {:induction false} StreamDelivered(p: Parser, bodies: seq<seq<byte>>)
    requires p.dataState == 0 && Sendable(bodies)
    ensures Run(Step, p, Stream(bodies)).1 == bodies
    ensures Run(Step, p, Stream(bodies)).0.dataState == 0
    decreases |bodies|
  {
    if bodies != [] {
      assert bodies[0] in bodies;
      var q := FramedRun(p, bodies[0], Checksum(bodies[0]), Stream(bodies[1..]));
      StreamDelivered(q, bodies[1..]);
      assert [bodies[0]] + bodies[1..] == bodies;
    }
  }

  // Noise before the first frame is skipped as long as it has no 0xAA in it.
  lemma {:induction false} JunkSkipped(p: Parser, junk: seq<byte>, rest: seq<byte>)
    requires p.dataState == 0 && HEADER0 !in junk
    ensures Run(Step, p, junk + rest) == Run(Step, p, rest)
    decreases |junk|
  {
    if junk == [] {
      assert junk + rest == rest;
    } else {
      assert junk[0] in junk;
      assert junk + rest == [junk[0]] + (junk[1..] + rest);
      RunQuiet(Step, p, junk[0], junk[1..] + rest);
      JunkSkipped(p, junk[1..], rest);
    }
  }

  // A first header byte that is not followed by the second is dropped together with the byte after it.
  lemma BrokenHeader(p: Parser, b: byte, rest: seq<byte>) returns (q: Parser)
    requires p.dataState == 0 && b != HEADER1
    ensures q.dataState == 0 && Run(Step, p, [HEADER0, b] + rest) == Run(Step, q, rest)
  {
    var p1 := Step(p, HEADER0).0;
    assert [HEADER0, b] + rest == [HEADER0] + ([b] + rest);
    RunQuiet(Step, p, HEADER0, [b] + rest);
    RunQuiet(Step, p1, b, rest);
    q := Step(p1, b).0;
  }

  // The checksum is the sum of all bytes before it, header and length included, modulo 256.
  lemma ChecksumIsSum(body: seq<byte>)
    requires |body| < 0x1_0000_0000
    ensures Checksum(body) == Sum([HEADER0, HEADER1] + LengthBytes(|body|) + body) % 0x100
  {
    AccOfParts(HEADER0, HEADER1, LengthBytes(|body|), body);
  }

  // On the wire: a body of two bytes.
  lemma WireExample()
    ensures Frame([0x01, 0x02]) == [0xaa, 0x44, 0x02, 0x00, 0x00, 0x00, 0x01, 0x02, 0xf3]
  {
    var l: seq<byte> := [2, 0, 0, 0];
    assert LengthBytes(2) == l;
    AccFour(0xee, l);
    AccTwo(0xf0, 1, 2);
  }

  // A frame whose body was altered, at the same length: it is delivered, altered, exactly when the
  // alteration leaves the byte sum alone.  In every case the frames behind it are delivered.
  lemma AlteredFrame(p: Parser, body: seq<byte>, altered: seq<byte>, bodies: seq<seq<byte>>)
    requires p.dataState == 0 && 1 <= |body| < 0x1_0000_0000 && |altered| == |body| && Sendable(bodies)
    ensures Run(Step, p, Framed(altered, Checksum(body)) + Stream(bodies)).1 ==
            (if Sum(altered) % 0x100 == Sum(body) % 0x100 then [altered] else []) + bodies
  {
    var q := FramedRun(p, altered, Checksum(body), Stream(bodies));
    StreamDelivered(q, bodies);
    SameChecksum(body, altered);
  }

  lemma SameChecksum(body: seq<byte>, altered: seq<byte>)
    requires |altered| == |body| < 0x1_0000_0000
    ensures Checksum(body) == Checksum(altered) <==> Sum(altered) % 0x100 == Sum(body) % 0x100
  {
    var start := Acc8(Add8(HEADER0, HEADER1), LengthBytes(|body|));
    SameAcc8(start, altered, body);
  }

  // One wrong byte anywhere in the body is always noticed, and costs only that frame.
  lemma SingleErrorDetected(p: Parser, body: seq<byte>, k: nat, wrong: byte, bodies: seq<seq<byte>>)
    requires p.dataState == 0 && 1 <= |body| < 0x1_0000_0000 && Sendable(bodies)
    requires k < |body| && wrong != body[k]
    ensures Run(Step, p, Framed(body[k := wrong], Checksum(body)) + Stream(bodies)).1 == bodies
  {
    AlteredFrame(p, body, body[k := wrong], bodies);
    OneByteShows(0x100, body, k, wrong);
    assert [] + bodies == bodies;
  }

  // ----- Portions -----

  // The parser fed portion by portion, as DataReciever is.
  function Feed(p: Parser, portions: seq<seq<byte>>): (Parser, seq<seq<byte>>)
    decreases |portions|
  {
    if portions == [] then (p, [])
    else
      var first := Run(Step, p, portions[0]);
      var rest := Feed(first.0, portions[1..]);
      (rest.0, first.1 + rest.1)
  }

  // Where the stream is cut makes no difference.
  lemma {:induction false} FeedIsRun(p: Parser, portions: seq<seq<byte>>)
    ensures Feed(p, portions) == Run(Step, p, Flatten(portions))
    decreases |portions|
  {
    if portions != [] {
      FeedIsRun(Run(Step, p, portions[0]).0, portions[1..]);
      RunConcat(Step, p, portions[0], Flatten(portions[1..]));
    }
  }

  // The pieces a frame is queued in.
  function Pieces(frame: seq<byte>): (r: seq<seq<byte>>)
    ensures Flatten(r) == frame
    ensures forall c :: c in r ==> 0 < |c| <= 0x400
    decreases |frame|
  {
    if frame == [] then []
    else if |frame| <= 0x400 then
      assert Flatten([frame]) == frame + Flatten([][..]);
      [frame]
    else
      assert frame[..0x400] + frame[0x400..] == frame;
      [frame[..0x400]] + Pieces(frame[0x400..])
  }

  function Queued(bodies: seq<seq<byte>>): seq<seq<byte>>
    requires Sendable(bodies)
  {
    if bodies == [] then [] else Pieces(Frame(bodies[0])) + Queued(bodies[1..])
  }

  lemma {:induction false} QueuedStream(bodies: seq<seq<byte>>)
    requires Sendable(bodies)
    ensures Flatten(Queued(bodies)) == Stream(bodies)
    decreases |bodies|
  {
    if bodies != [] {
      FlattenConcat(Pieces(Frame(bodies[0])), Queued(bodies[1..]));
      QueuedStream(bodies[1..]);
    }
  }

  // Main result: the pieces queued for any messages, sent in order after some noise and cut anew
  // anywhere on the way, are delivered as exactly those messages.
  lemma RoundTrip(p: Parser, junk: seq<byte>, bodies: seq<seq<byte>>, portions: seq<seq<byte>>)
    requires p.dataState == 0 && HEADER0 !in junk && Sendable(bodies)
    requires Flatten(portions) == junk + Flatten(Queued(bodies))
    ensures Feed(p, portions).1 == bodies && Feed(p, portions).0.dataState == 0
  {
    FeedIsRun(p, portions);
    QueuedStream(bodies);
    JunkSkipped(p, junk, Stream(bodies));
    StreamDelivered(p, bodies);
  }
}
