/**
 The configuration link between the host tool and the controller.  The host sends short frames and
 checksummed file frames, which one parser on the controller tells apart; the controller answers
 with file frames of its own delimiter, which the host's parser reads.
 */
module ConfigProtocol {
  import opened Bytes

  const DELIMITER: byte := 0xfe
  const SHORT_REQUEST: byte := 0xfc
  const FILE_REQUEST: byte := 0xfa
  const FILE_REPLY: byte := 0xfb

  datatype State =
    | Delimiter1 | Delimiter2 | Command | ParameterLength | Parameters
    | FileCommand | FileDataLength | FileData | Checksum

  // The fields of ConfigComm.
  datatype Parser = Parser(dataState: State, checksum: byte, lenIndex: nat, command: byte,
                           parameterLen: nat, parameters: seq<byte>)

  datatype Message = Short(command: byte, data: seq<byte>) | File(command: byte, data: seq<byte>)

  // byte << (lenIndex << 3) for the two length bytes; they fill disjoint bits, so or-ing adds.
  function Placed(b: int, i: nat): int
  {
    if i == 0 then b else b * 0x100
  }

  // ConfigComm::DataProcess.  parameterIndex is the number of bytes stored.
  function Step(p: Parser, b: byte): (Parser, seq<Message>)
  {
    match p.dataState
    case Delimiter1 => (if b == DELIMITER then p.(dataState := Delimiter2) else p, [])
    case Delimiter2 =>
      (if b == SHORT_REQUEST then p.(dataState := Command)
       else if b == FILE_REQUEST then p.(checksum := Add8(DELIMITER, FILE_REQUEST), dataState := FileCommand)
       else p.(dataState := Delimiter1), [])
    case Command => (p.(command := b, dataState := ParameterLength), [])
    case ParameterLength =>
      var q := p.(parameterLen := b, parameters := []);
      if b == 0 then (q.(dataState := Delimiter1), [Short(p.command, [])])
      else (q.(dataState := Parameters), [])
    case Parameters =>
      var q := p.(parameters := p.parameters + [b]);
      if |q.parameters| >= p.parameterLen
      then (q.(dataState := Delimiter1, parameters := []), [Short(p.command, q.parameters)])
      else (q, [])
    case FileCommand =>
      (p.(checksum := Add8(p.checksum, b), command := b, lenIndex := 0, parameterLen := 0, dataState := FileDataLength), [])
    case FileDataLength =>
      var q := p.(checksum := Add8(p.checksum, b), parameterLen := p.parameterLen + Placed(b, p.lenIndex), lenIndex := p.lenIndex + 1);
      (if q.lenIndex <= 1 then q
       else if q.parameterLen == 0 then q.(parameters := [], dataState := Checksum)
       else q.(parameters := [], dataState := FileData), [])
    case FileData =>
      var q := p.(checksum := Add8(p.checksum, b), parameters := p.parameters + [b]);
      (if |q.parameters| >= p.parameterLen then q.(dataState := Checksum) else q, [])
    case Checksum =>
      (p.(parameters := [], dataState := Delimiter1),
       if p.checksum == b then [File(p.command, p.parameters)] else [])
  }

  // ----- The wire format -----

  // Lengths a frame can announce.
  predicate Sendable(m: Message)
  {
    match m
    case Short(_, data) => |data| <= 0xff
    case File(_, data) => |data| <= 0xffff
  }

  function FileFrame(delimiter: byte, command: byte, data: seq<byte>): seq<byte>
    requires |data| <= 0xffff
  {
    [DELIMITER, delimiter] + FileHead(command, |data|) + data + [FileChecksum(delimiter, command, data)]
  }

  function FileHead(command: byte, n: nat): (r: seq<byte>)
    requires n <= 0xffff
    ensures |r| == 3
  {
    [command, n % 0x100, n / 0x100]
  }

  function FileChecksum(delimiter: byte, command: byte, data: seq<byte>): byte
    requires |data| <= 0xffff
  {
    Acc8(Acc8(Add8(DELIMITER, delimiter), FileHead(command, |data|)), data)
  }

  function Encoded(m: Message): seq<byte>
    requires Sendable(m)
  {
    match m
    case Short(command, data) => [DELIMITER, SHORT_REQUEST, command, |data|] + data
    case File(command, data) => FileFrame(FILE_REQUEST, command, data)
  }

  // ----- The controller understands the host -----

  lemma ShortHead(p: Parser, command: byte, n: byte, rest: seq<byte>)
    requires p.dataState == Delimiter1 && n > 0
    ensures var q := p.(dataState := Parameters, command := command, parameterLen := n, parameters := []);
            Run(Step, p, [DELIMITER, SHORT_REQUEST, command, n] + rest) == Run(Step, q, rest)
  {
    var p1 := Step(p, DELIMITER).0;
    var p2 := Step(p1, SHORT_REQUEST).0;
    var p3 := Step(p2, command).0;
    assert [DELIMITER, SHORT_REQUEST, command, n] + rest == [DELIMITER] + ([SHORT_REQUEST] + ([command] + ([n] + rest)));
    RunQuiet(Step, p, DELIMITER, [SHORT_REQUEST] + ([command] + ([n] + rest)));
    RunQuiet(Step, p1, SHORT_REQUEST, [command] + ([n] + rest));
    RunQuiet(Step, p2, command, [n] + rest);
    RunQuiet(Step, p3, n, rest);
  }

  lemma ShortEmpty(p: Parser, command: byte, rest: seq<byte>) returns (q: Parser)
    requires p.dataState == Delimiter1
    ensures q.dataState == Delimiter1
    ensures var after := Run(Step, q, rest);
            Run(Step, p, [DELIMITER, SHORT_REQUEST, command, 0] + rest) == (after.0, [Short(command, [])] + after.1)
  {
    var p1 := Step(p, DELIMITER).0;
    var p2 := Step(p1, SHORT_REQUEST).0;
    var p3 := Step(p2, command).0;
    assert [DELIMITER, SHORT_REQUEST, command, 0] + rest == [DELIMITER] + ([SHORT_REQUEST] + ([command] + ([0] + rest)));
    RunQuiet(Step, p, DELIMITER, [SHORT_REQUEST] + ([command] + ([0] + rest)));
    RunQuiet(Step, p1, SHORT_REQUEST, [command] + ([0] + rest));
    RunQuiet(Step, p2, command, [0] + rest);
    RunCons(Step, p3, 0, rest);
    q := Step(p3, 0).0;
  }

  lemma {:induction false} ShortBody(p: Parser, data: seq<byte>, rest: seq<byte>) returns (q: Parser)
    requires p.dataState == Parameters && data != [] && |p.parameters| + |data| == p.parameterLen
    ensures q.dataState == Delimiter1
    ensures var after := Run(Step, q, rest);
            Run(Step, p, data + rest) == (after.0, [Short(p.command, p.parameters + data)] + after.1)
    decreases |data|
  {
    var tail := data[1..];
    q := Step(p, data[0]).0;
    assert data + rest == [data[0]] + (tail + rest);
    if tail == [] {
      assert tail + rest == rest && data == [data[0]];
      RunCons(Step, p, data[0], rest);
    } else {
      var p' := q;
      RunQuiet(Step, p, data[0], tail + rest);
      q := ShortBody(p', tail, rest);
      assert p'.parameters + tail == p.parameters + data;
    }
  }

  // The first five bytes of a file frame.
  lemma FileHeader(p: Parser, command: byte, n: nat, rest: seq<byte>) returns (q: Parser)
    requires p.dataState == Delimiter1 && n <= 0xffff
    ensures q == Parser(if n == 0 then Checksum else FileData,
                        Acc8(Add8(DELIMITER, FILE_REQUEST), FileHead(command, n)), 2, command, n, [])
    ensures Run(Step, p, [DELIMITER, FILE_REQUEST] + FileHead(command, n) + rest) == Run(Step, q, rest)
  {
    var h := FileHead(command, n);
    var p1 := Step(p, DELIMITER).0;
    var p2 := Step(p1, FILE_REQUEST).0;
    var p3 := Step(p2, h[0]).0;
    var p4 := Step(p3, h[1]).0;
    q := Step(p4, h[2]).0;
    assert [DELIMITER, FILE_REQUEST] + h + rest == [DELIMITER] + ([FILE_REQUEST] + ([h[0]] + ([h[1]] + ([h[2]] + rest))));
    RunQuiet(Step, p, DELIMITER, [FILE_REQUEST] + ([h[0]] + ([h[1]] + ([h[2]] + rest))));
    RunQuiet(Step, p1, FILE_REQUEST, [h[0]] + ([h[1]] + ([h[2]] + rest)));
    RunQuiet(Step, p2, h[0], [h[1]] + ([h[2]] + rest));
    RunQuiet(Step, p3, h[1], [h[2]] + rest);
    RunQuiet(Step, p4, h[2], rest);
    Acc8Three(Add8(DELIMITER, FILE_REQUEST), h);
  }

  lemma Acc8Three(start: byte, h: seq<byte>)
    requires |h| == 3
    ensures Acc8(start, h) == Add8(Add8(Add8(start, h[0]), h[1]), h[2])
  {
    assert h[1..][0] == h[1] && h[1..][1..] == [h[2]];
    assert Acc8(start, h) == Acc8(Add8(Add8(start, h[0]), h[1]), [h[2]]);
  }

  lemma {:induction false} FileBody(p: Parser, data: seq<byte>, rest: seq<byte>)
    requires p.dataState == FileData && data != [] && |p.parameters| + |data| == p.parameterLen
    ensures Run(Step, p, data + rest) ==
            Run(Step, p.(dataState := Checksum, checksum := Acc8(p.checksum, data), parameters := p.parameters + data), rest)
    decreases |data|
  {
    var q := Step(p, data[0]).0;
    var tail := data[1..];
    assert data + rest == [data[0]] + (tail + rest);
    RunQuiet(Step, p, data[0], tail + rest);
    assert q.parameters + tail == p.parameters + data;
    if tail == [] {
      assert tail + rest == rest;
    } else {
      FileBody(q, tail, rest);
    }
  }

  // A file frame that ends in the given byte.
  function FileWith(command: byte, data: seq<byte>, last: byte): seq<byte>
    requires |data| <= 0xffff
  {
    [DELIMITER, FILE_REQUEST] + FileHead(command, |data|) + data + [last]
  }

  // The checksum is the sum of all bytes before it, delimiters included, modulo 256.
  lemma ChecksumIsSum(delimiter: byte, command: byte, data: seq<byte>)
    requires |data| <= 0xffff
    ensures FileChecksum(delimiter, command, data) == Sum([DELIMITER, delimiter] + FileHead(command, |data|) + data) % 0x100
  {
    AccOfParts(DELIMITER, delimiter, FileHead(command, |data|), data);
  }

  // A file frame with any last byte is dispatched exactly when that byte is the sum of the bytes
  // before it, and either way the parser starts over behind it.
  lemma FileRun(p: Parser, command: byte, data: seq<byte>, last: byte, rest: seq<byte>) returns (q: Parser)
    requires p.dataState == Delimiter1 && |data| <= 0xffff
    ensures q.dataState == Delimiter1
    ensures var after := Run(Step, q, rest);
            var right := last as int == Sum([DELIMITER, FILE_REQUEST] + FileHead(command, |data|) + data) % 0x100;
            Run(Step, p, FileWith(command, data, last) + rest) == (after.0, (if right then [File(command, data)] else []) + after.1)
  {
    var sum := FileChecksum(FILE_REQUEST, command, data);
    ChecksumIsSum(FILE_REQUEST, command, data);
    var head := [DELIMITER, FILE_REQUEST] + FileHead(command, |data|);
    assert FileWith(command, data, last) + rest == head + (data + ([last] + rest));
    var body := FileHeader(p, command, |data|, data + ([last] + rest));
    var end := body.(dataState := Checksum, checksum := sum, parameters := data);
    if data == [] {
      assert data + ([last] + rest) == [last] + rest;
    } else {
      FileBody(body, data, [last] + rest);
      assert [] + data == data;
    }
    RunCons(Step, end, last, rest);
    q := Step(end, last).0;
  }

  lemma MessageRun(p: Parser, m: Message, rest: seq<byte>) returns (q: Parser)
    requires p.dataState == Delimiter1 && Sendable(m)
    ensures q.dataState == Delimiter1
    ensures var after := Run(Step, q, rest); Run(Step, p, Encoded(m) + rest) == (after.0, [m] + after.1)
  {
    match m {
      case File(command, data) =>
        ChecksumIsSum(FILE_REQUEST, command, data);
        q := FileRun(p, command, data, FileChecksum(FILE_REQUEST, command, data), rest);
      case Short(command, data) =>
        var head := [DELIMITER, SHORT_REQUEST, command, |data|];
        assert Encoded(m) + rest == head + (data + rest);
        if data == [] {
          assert data + rest == rest;
          q := ShortEmpty(p, command, rest);
        } else {
          ShortHead(p, command, |data|, data + rest);
          q := ShortBody(p.(dataState := Parameters, command := command, parameterLen := |data|, parameters := []), data, rest);
          assert [] + data == data;
        }
    }
  }

  function Stream(messages: seq<Message>): seq<byte>
    requires forall m :: m in messages ==> Sendable(m)
  {
    if messages == [] then [] else Encoded(messages[0]) + Stream(messages[1..])
  }

  // Short and file frames in any mixture are dispatched as sent, in order.
  lemma {:induction false} StreamDispatched(p: Parser, messages: seq<Message>)
    requires p.dataState == Delimiter1 && forall m :: m in messages ==> |m.data| <= if m.Short? then 0xff else 0xffff
    ensures Run(Step, p, Stream(messages)).1 == messages
    ensures Run(Step, p, Stream(messages)).0.dataState == Delimiter1
    decreases |messages|
  {
    if messages != [] {
      assert messages[0] in messages;
      var q := MessageRun(p, messages[0], Stream(messages[1..]));
      StreamDispatched(q, messages[1..]);
      assert [messages[0]] + messages[1..] == messages;
    }
  }

  // A file frame whose payload was altered, at the same length: it is dispatched, altered, exactly
  // when the byte sums agree modulo 256.  In every case the messages behind it are dispatched.
  lemma AlteredFile(p: Parser, command: byte, data: seq<byte>, altered: seq<byte>, messages: seq<Message>)
    requires p.dataState == Delimiter1 && |altered| == |data| <= 0xffff && forall m :: m in messages ==> Sendable(m)
    ensures Run(Step, p, FileWith(command, altered, FileChecksum(FILE_REQUEST, command, data)) + Stream(messages)).1 ==
            (if Sum(altered) % 0x100 == Sum(data) % 0x100 then [File(command, altered)] else []) + messages
  {
    var q := FileRun(p, command, altered, FileChecksum(FILE_REQUEST, command, data), Stream(messages));
    StreamDispatched(q, messages);
    ChecksumIsSum(FILE_REQUEST, command, altered);
    SameAcc8(Acc8(Add8(DELIMITER, FILE_REQUEST), FileHead(command, |data|)), altered, data);
  }

  // One wrong payload byte costs exactly its own frame.
  lemma OneWrongByte(p: Parser, command: byte, data: seq<byte>, k: nat, wrong: byte, messages: seq<Message>)
    requires p.dataState == Delimiter1 && k < |data| <= 0xffff && wrong != data[k] && forall m :: m in messages ==> Sendable(m)
    ensures Run(Step, p, FileWith(command, data[k := wrong], FileChecksum(FILE_REQUEST, command, data)) + Stream(messages)).1 == messages
  {
    AlteredFile(p, command, data, data[k := wrong], messages);
    OneByteShows(0x100, data, k, wrong);
    assert [] + messages == messages;
  }

  // A delimiter byte that is not followed by a frame kind is dropped together with the byte after it.
  lemma BrokenDelimiter(p: Parser, b: byte, rest: seq<byte>)
    requires p.dataState == Delimiter1 && b != SHORT_REQUEST && b != FILE_REQUEST
    ensures Run(Step, p, [DELIMITER, b] + rest) == Run(Step, p, rest)
  {
    var p1 := Step(p, DELIMITER).0;
    assert [DELIMITER, b] + rest == [DELIMITER] + ([b] + rest);
    RunQuiet(Step, p, DELIMITER, [b] + rest);
    RunQuiet(Step, p1, b, rest);
  }

  // Bytes before a delimiter are skipped.
  lemma {:induction false} JunkSkipped(p: Parser, junk: seq<byte>, rest: seq<byte>)
    requires p.dataState == Delimiter1 && DELIMITER !in junk
    ensures Run(Step, p, junk + rest) == Run(Step, p, rest)
    decreases |junk|
  {
    if junk == [] {
      assert junk + rest == rest;
    } else {
      assert junk[0] in junk && forall b :: b in junk[1..] ==> b in junk;
      assert junk + rest == [junk[0]] + (junk[1..] + rest);
      RunQuiet(Step, p, junk[0], junk[1..] + rest);
      JunkSkipped(p, junk[1..], rest);
    }
  }

  // On the wire: a short command with one byte, and a one-byte portion in a file frame.
  lemma WireExamples()
    ensures Encoded(Short(0xc1, [7])) == [0xfe, 0xfc, 0xc1, 0x01, 0x07]
    ensures Encoded(File(0xc4, [5])) == [0xfe, 0xfa, 0xc4, 0x01, 0x00, 0x05, 0xc2]
  {
    var h: seq<byte> := [0xc4, 1, 0];
    assert FileHead(0xc4, 1) == h;
    Acc8Three(Add8(0xfe, 0xfa), h);
    assert Acc8(0xbd, [5]) == Add8(0xbd, 5);
  }
}
