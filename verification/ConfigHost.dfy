/**
 The host tool's end of the configuration link: the parser of SerialComm and what it makes of the
 controller's replies.
 */
module ConfigHost {
  import opened Bytes
  import ConfigProtocol

  const DELIMITER := ConfigProtocol.DELIMITER
  const FILE_REPLY := ConfigProtocol.FILE_REPLY

  datatype State = Delimiter1 | Delimiter2 | FileCommand | FileDataLength | FileData | Checksum

  // receiveData keeps the last payload: a reply without data does not replace it, and before the
  // first payload it is null.  waiting says whether a SendCommand waits for its reply.
  datatype Parser = Parser(dataState: State, sumcheck: byte, command: byte, readIndex: nat, readLength: nat,
                           receiveData: Option<seq<byte>>, waiting: bool)

  datatype Reply = Reply(command: byte, data: seq<byte>)

  // Without any payload so far the event handler is given null, and a waiting SendCommand loses
  // its reply, since copying null throws.
  datatype Event = Read(reply: Reply) | NullPassed(command: byte) | NullCopied

  function Raised(p: Parser): Event
  {
    match p.receiveData
    case Some(data) => Read(Reply(p.command, data))
    case None => if p.waiting then NullCopied else NullPassed(p.command)
  }

  function Received(p: Parser): seq<byte>
  {
    if p.receiveData.Some? then p.receiveData.value else []
  }

  // The loop body of SerialDataReceived.
  function Step(p: Parser, b: byte): (Parser, seq<Event>)
  {
    match p.dataState
    case Delimiter1 => (if b == DELIMITER then p.(dataState := Delimiter2) else p, [])
    case Delimiter2 =>
      (if b == FILE_REPLY then p.(dataState := FileCommand, sumcheck := Add8(DELIMITER, FILE_REPLY))
       else p.(dataState := Delimiter1), [])
    case FileCommand =>
      (p.(sumcheck := Add8(p.sumcheck, b), command := b, readIndex := 0, readLength := 0, dataState := FileDataLength), [])
    case FileDataLength =>
      var q := p.(sumcheck := Add8(p.sumcheck, b), readLength := p.readLength + ConfigProtocol.Placed(b, p.readIndex),
                  readIndex := p.readIndex + 1);
      (if q.readIndex <= 1 then q
       else if q.readLength == 0 then q.(dataState := Checksum)
       else q.(dataState := FileData, receiveData := Some([]), readIndex := 0), [])
    case FileData =>
      var q := p.(sumcheck := Add8(p.sumcheck, b), receiveData := Some(Received(p) + [b]), readIndex := p.readIndex + 1);
      (if q.readIndex >= p.readLength then q.(dataState := Checksum) else q, [])
    case Checksum =>
      (p.(dataState := Delimiter1), if p.sumcheck == b then [Raised(p)] else [])
  }

  lemma HeaderRun(p: Parser, command: byte, n: nat, rest: seq<byte>) returns (q: Parser)
    requires p.dataState == Delimiter1 && n <= 0xffff
    ensures q.sumcheck == Acc8(Add8(DELIMITER, FILE_REPLY), ConfigProtocol.FileHead(command, n))
    ensures q.command == command && q.waiting == p.waiting
    ensures if n == 0 then q.dataState == Checksum && q.receiveData == p.receiveData
            else q.dataState == FileData && q.receiveData == Some([]) && q.readIndex == 0 && q.readLength == n
    ensures Run(Step, p, [DELIMITER, FILE_REPLY] + ConfigProtocol.FileHead(command, n) + rest) == Run(Step, q, rest)
  {
    var h := ConfigProtocol.FileHead(command, n);
    var p1 := Step(p, DELIMITER).0;
    var p2 := Step(p1, FILE_REPLY).0;
    var p3 := Step(p2, h[0]).0;
    var p4 := Step(p3, h[1]).0;
    q := Step(p4, h[2]).0;
    assert [DELIMITER, FILE_REPLY] + h + rest == [DELIMITER] + ([FILE_REPLY] + ([h[0]] + ([h[1]] + ([h[2]] + rest))));
    RunQuiet(Step, p, DELIMITER, [FILE_REPLY] + ([h[0]] + ([h[1]] + ([h[2]] + rest))));
    RunQuiet(Step, p1, FILE_REPLY, [h[0]] + ([h[1]] + ([h[2]] + rest)));
    RunQuiet(Step, p2, h[0], [h[1]] + ([h[2]] + rest));
    RunQuiet(Step, p3, h[1], [h[2]] + rest);
    RunQuiet(Step, p4, h[2], rest);
    ConfigProtocol.Acc8Three(Add8(DELIMITER, FILE_REPLY), h);
  }

  lemma {:induction false} BodyRun(p: Parser, data: seq<byte>, rest: seq<byte>) returns (q: Parser)
    requires p.dataState == FileData && data != [] && p.readIndex + |data| == p.readLength
    ensures q.dataState == Checksum && q.sumcheck == Acc8(p.sumcheck, data) && q.command == p.command
    ensures q.receiveData == Some(Received(p) + data) && q.waiting == p.waiting
    ensures Run(Step, p, data + rest) == Run(Step, q, rest)
    decreases |data|
  {
    q := Step(p, data[0]).0;
    var tail := data[1..];
    assert data + rest == [data[0]] + (tail + rest);
    RunQuiet(Step, p, data[0], tail + rest);
    assert Received(q) + tail == Received(p) + data;
    if tail == [] {
      assert tail + rest == rest;
    } else {
      var p' := q;
      q := BodyRun(p', tail, rest);
    }
  }

  // The payload on hand after a reply.
  function Kept(last: Option<seq<byte>>, data: seq<byte>): Option<seq<byte>>
  {
    if data == [] then last else Some(data)
  }

  // What a reply is raised as, given the payload before it.
  function Seen(waiting: bool, last: Option<seq<byte>>, r: Reply): Event
  {
    match Kept(last, r.data)
    case Some(data) => Read(Reply(r.command, data))
    case None => if waiting then NullCopied else NullPassed(r.command)
  }

  // A reply frame with any last byte is raised exactly when that byte is the sum of the bytes before
  // it; its payload is on hand either way.
  lemma ReplyEnding(p: Parser, r: Reply, last: byte, rest: seq<byte>) returns (q: Parser)
    requires p.dataState == Delimiter1 && |r.data| <= 0xffff
    ensures q.dataState == Delimiter1 && q.receiveData == Kept(p.receiveData, r.data) && q.waiting == p.waiting
    ensures var after := Run(Step, q, rest);
            var front := [DELIMITER, FILE_REPLY] + ConfigProtocol.FileHead(r.command, |r.data|) + r.data;
            Run(Step, p, front + [last] + rest)
            == (after.0, (if last as int == Sum(front) % 0x100 then [Seen(p.waiting, p.receiveData, r)] else []) + after.1)
  {
    ConfigProtocol.ChecksumIsSum(FILE_REPLY, r.command, r.data);
    var head := [DELIMITER, FILE_REPLY] + ConfigProtocol.FileHead(r.command, |r.data|);
    assert head + r.data + [last] + rest == head + (r.data + ([last] + rest));
    var end := HeaderRun(p, r.command, |r.data|, r.data + ([last] + rest));
    if r.data == [] {
      assert r.data + ([last] + rest) == [last] + rest;
    } else {
      end := BodyRun(end, r.data, [last] + rest);
      assert [] + r.data == r.data;
    }
    RunCons(Step, end, last, rest);
    q := Step(end, last).0;
  }

  lemma ReplyRun(p: Parser, r: Reply, rest: seq<byte>) returns (q: Parser)
    requires p.dataState == Delimiter1 && |r.data| <= 0xffff
    ensures q.dataState == Delimiter1 && q.receiveData == Kept(p.receiveData, r.data) && q.waiting == p.waiting
    ensures var after := Run(Step, q, rest);
            Run(Step, p, ConfigProtocol.FileFrame(FILE_REPLY, r.command, r.data) + rest)
            == (after.0, [Seen(p.waiting, p.receiveData, r)] + after.1)
  {
    ConfigProtocol.ChecksumIsSum(FILE_REPLY, r.command, r.data);
    q := ReplyEnding(p, r, ConfigProtocol.FileChecksum(FILE_REPLY, r.command, r.data), rest);
  }

  // The host's parser drops a delimiter that is not followed by a reply's.
  lemma BrokenDelimiter(p: Parser, b: byte, rest: seq<byte>)
    requires p.dataState == Delimiter1 && b != FILE_REPLY
    ensures Run(Step, p, [DELIMITER, b] + rest) == Run(Step, p, rest)
  {
    var p1 := Step(p, DELIMITER).0;
    assert [DELIMITER, b] + rest == [DELIMITER] + ([b] + rest);
    RunQuiet(Step, p, DELIMITER, [b] + rest);
    RunQuiet(Step, p1, b, rest);
  }

  predicate Sendable(replies: seq<Reply>)
  {
    forall r :: r in replies ==> |r.data| <= 0xffff
  }

  function Stream(replies: seq<Reply>): seq<byte>
    requires Sendable(replies)
  {
    if replies == [] then []
    else ConfigProtocol.FileFrame(FILE_REPLY, replies[0].command, replies[0].data) + Stream(replies[1..])
  }

  // What the host makes of a run of replies.
  function Perceived(waiting: bool, last: Option<seq<byte>>, replies: seq<Reply>): seq<Event>
    decreases |replies|
  {
    if replies == [] then []
    else [Seen(waiting, last, replies[0])] + Perceived(waiting, Kept(last, replies[0].data), replies[1..])
  }

  function AsSent(replies: seq<Reply>): (r: seq<Event>)
    ensures |r| == |replies| && forall k :: 0 <= k < |r| ==> r[k] == Read(replies[k])
  {
    seq(|replies|, k requires 0 <= k < |replies| => Read(replies[k]))
  }

  predicate NoneEmpty(replies: seq<Reply>)
  {
    forall r :: r in replies ==> r.data != []
  }

  // A host can hold a payload only if some reply carried one, so it is never empty.
  predicate Holding(last: Option<seq<byte>>)
  {
    last.Some? ==> last.value != []
  }

  lemma {:induction false} StreamPerceived(p: Parser, replies: seq<Reply>)
    requires p.dataState == Delimiter1 && Sendable(replies)
    ensures Run(Step, p, Stream(replies)).1 == Perceived(p.waiting, p.receiveData, replies)
    decreases |replies|
  {
    if replies != [] {
      assert replies[0] in replies;
      var q := ReplyRun(p, replies[0], Stream(replies[1..]));
      StreamPerceived(q, replies[1..]);
    }
  }

  // The host reads back exactly the controller's replies if and only if none of them is empty: an
  // empty reply is shown with the payload of an earlier one, or as null when there is none.
  lemma RepliesArrive(p: Parser, replies: seq<Reply>)
    requires p.dataState == Delimiter1 && Holding(p.receiveData) && Sendable(replies)
    ensures Run(Step, p, Stream(replies)).1 == AsSent(replies) <==> NoneEmpty(replies)
  {
    StreamPerceived(p, replies);
    PerceivedExactly(p.waiting, p.receiveData, replies);
  }

  lemma {:induction false} PerceivedExactly(waiting: bool, last: Option<seq<byte>>, replies: seq<Reply>)
    requires Holding(last)
    ensures Perceived(waiting, last, replies) == AsSent(replies) <==> NoneEmpty(replies)
    decreases |replies|
  {
    if replies != [] {
      var first, rest := replies[0], replies[1..];
      var later := Perceived(waiting, Kept(last, first.data), rest);
      PerceivedExactly(waiting, Kept(last, first.data), rest);
      HeadAndTail(Seen(waiting, last, first), later, Read(first), AsSent(rest));
      assert replies == [first] + rest;
      AsSentCons(first, rest);
      NoneEmptyCons(first, rest);
    }
  }

  lemma AsSentCons(first: Reply, rest: seq<Reply>)
    ensures AsSent([first] + rest) == [Read(first)] + AsSent(rest)
  {
  }

  lemma NoneEmptyCons(first: Reply, rest: seq<Reply>)
    ensures NoneEmpty([first] + rest) <==> first.data != [] && NoneEmpty(rest)
  {
    var all := [first] + rest;
    assert first in all && forall r :: r in rest ==> r in all;
  }

  lemma HeadAndTail<T>(x: T, s: seq<T>, y: T, t: seq<T>)
    ensures [x] + s == [y] + t <==> x == y && s == t
  {
    if [x] + s == [y] + t {
      assert ([x] + s)[0] == x && ([y] + t)[0] == y;
      assert ([x] + s)[1..] == s && ([y] + t)[1..] == t;
    }
  }
}
