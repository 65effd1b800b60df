/** Both ends of the bridge link as they run: parser fields, buffers and printers updated in place. */
module IspLink {
  import opened Bytes
  import opened IspProtocol

  // The controller's end.
  class ISPComm {
    var dataState: State
    var checksum: word
    var command: byte
    var index: nat
    var parameterLen: nat
    var parameterIndex: nat
    var parameters: seq<byte>

    // parameterIndex counts stored bytes first and gathers the checksum field afterwards.
    ghost predicate Valid()
      reads this
    {
      dataState == Parameters ==> parameterIndex == |parameters|
    }

    ghost function Parsing(): Parser
      reads this
    {
      Parser(dataState, checksum, command, index, parameterLen, parameters, if dataState == Checksum then parameterIndex else 0)
    }

    constructor ()
      ensures Valid() && Parsing() == Parser(Delimiter1, 0, 0, 0, 0, [], 0)
    {
      dataState, checksum, command, index := Delimiter1, 0, 0, 0;
      parameterLen, parameterIndex, parameters := 0, 0, [];
    }

    method DataProcess(b: byte) returns (events: seq<Event>)
      requires Valid()
      modifies this
      ensures Valid() && (Parsing(), events) == Step(Controller, old(Parsing()), b)
    {
      events := [];
      match dataState {
        case Delimiter1 =>
          if b == First(Controller) {
            dataState := Delimiter2;
          }
        case Delimiter2 =>
          dataState := if b == Second(Controller) then Command else Delimiter1;
        case Command =>
          command, checksum := b, b;
          index, parameterLen := 0, 0;
          dataState := ParameterLength;
        case ParameterLength =>
          events := LengthByte(b);
        case Parameters =>
          checksum := Add16(checksum, b);
          parameters, parameterIndex := parameters + [b], parameterIndex + 1;
          if parameterIndex >= parameterLen {
            index, parameterIndex := 0, 0;
            dataState := Checksum;
          }
        case Checksum =>
          events := ChecksumByte(b);
      }
    }

    method LengthByte(b: byte) returns (events: seq<Event>)
      requires Valid() && dataState == ParameterLength
      modifies this
      ensures Valid() && (Parsing(), events) == LengthStep(Controller, old(Parsing()), b)
    {
      events := [];
      checksum := Add16(checksum, b);
      parameterLen, index := parameterLen + Placed(b, index), index + 1;
      if index >= 2 {
        if parameterLen == 0 {
          dataState := Delimiter1;
          events := [Accepted(command, [])];
        } else {
          parameters, parameterIndex := [], 0;
          dataState := Parameters;
        }
      }
    }

    method ChecksumByte(b: byte) returns (events: seq<Event>)
      requires Valid() && dataState == Checksum
      modifies this
      ensures Valid() && (Parsing(), events) == ChecksumStep(Controller, old(Parsing()), b)
    {
      events := [];
      parameterIndex, index := parameterIndex + Placed(b, index), index + 1;
      if index >= 2 {
        if parameterIndex == checksum {
          events := [Accepted(command, parameters)];
        }
        parameters := [];
        dataState := Delimiter1;
      }
    }

    // The length field wraps at 65536; the checksum covers all bytes all the same.
    static method SendData(command: byte, data: seq<byte>) returns (sent: seq<byte>)
      ensures sent == Encoded(Bridge, command, data)
    {
      var pre := [First(Bridge), Second(Bridge)] + Info(command, |data|);
      var checksum: word := Add16(Add16(pre[2], pre[3]), pre[4]);
      ghost var head := checksum;
      for i := 0 to |data|
        invariant checksum == Acc16(head, data[..i])
      {
        AccNext(head, data, i);
        checksum := Add16(checksum, data[i]);
      }
      assert data[..|data|] == data;
      AccThree(Info(command, |data|));
      return pre + data + Tail(checksum);
    }
  }

  lemma AccNext(start: word, data: seq<byte>, i: nat)
    requires i < |data|
    ensures Acc16(start, data[..i + 1]) == Add16(Acc16(start, data[..i]), data[i])
  {
    assert data[..i + 1] == data[..i] + [data[i]];
    Acc16Snoc(start, data[..i], data[i]);
  }

  // The 16-bit byte sum of len bytes behind the two delimiters.
  method calcCheckSum(pbuff: seq<byte>, len: nat) returns (checkSum: word)
    requires len + 2 <= |pbuff|
    ensures checkSum == Sum(pbuff[2..2 + len]) % 0x1_0000
    ensures checkSum == Acc16(0, pbuff[2..2 + len])
  {
    var data := pbuff[2..2 + len];
    checkSum := 0;
    for i := 0 to len
      invariant checkSum == Acc16(0, data[..i])
    {
      AccNext(0, data, i);
      checkSum := Add16(checkSum, pbuff[i + 2]);
    }
    assert data[..len] == data;
    Acc16IsSum(0, data);
  }

  // The two replies the bridge completes at run time: a template with its payload and checksum patched.
  method Answer(template: seq<byte>, payload: seq<byte>) returns (reply: seq<byte>)
    requires |template| == |payload| + 7 && payload != [] && |payload| <= 0xffff
    requires template[..5] == [First(Controller), Second(Controller)] + Info(template[2], |payload|)
    ensures reply == Encoded(Controller, template[2], payload)
  {
    var n := |payload|;
    reply := Splice(template, 5, payload);
    assert reply[2..5 + n] == Info(template[2], n) + payload by {
      assert template[..5][2..5] == Info(template[2], n);
      assert reply[2..5] == template[..5][2..5];
      assert reply[5..5 + n] == payload;
    }
    AccConcat(0, Info(template[2], n), payload);
    var sum := calcCheckSum(reply, n + 3);
    reply := reply[n + 5 := sum % 0x100][n + 6 := sum / 0x100];
    assert reply[..5] == template[..5];
    assert reply[5..5 + n] == payload;
    assert reply == reply[..5] + reply[5..5 + n] + Tail(sum);
  }

  lemma {:induction false} AccConcat(start: word, a: seq<byte>, b: seq<byte>)
    ensures Acc16(start, a + b) == Acc16(Acc16(start, a), b)
    decreases |a|
  {
    if a == [] {
      assert a + b == b;
    } else {
      AccConcat(Add16(start, a[0]), a[1..], b);
      assert (a + b)[1..] == a[1..] + b;
    }
  }

  // The bridge's end: the parser's buffer, and the single place a finished command waits in.
  class BridgeReceiver {
    var dataState: State
    var checksum: word
    var command: byte
    var index: nat
    var parameterLen: nat
    var parameterIndex: nat
    const parameters: array<byte>
    const uartCMDBuff: array<byte>
    var uartcommand: byte
    var isVaildFrame: bool

    ghost predicate Valid()
      reads this
    {
      && parameters.Length == uartCMDBuff.Length == LONGEST + 1 && parameters != uartCMDBuff
      && (dataState == Parameters ==> parameterIndex < parameterLen <= LONGEST)
      && (dataState == Checksum ==> parameterLen <= LONGEST)
    }

    ghost function Stored(): seq<byte>
      reads this, parameters
      requires Valid()
    {
      if dataState == Parameters then parameters[..parameterIndex]
      else if dataState == Checksum then parameters[..parameterLen]
      else []
    }

    ghost function Parsing(): Parser
      reads this, parameters
      requires Valid()
    {
      Parser(dataState, checksum, command, index, parameterLen, Stored(), if dataState == Checksum then parameterIndex else 0)
    }

    // The waiting command is this one, its payload followed by a zero.
    ghost predicate Waiting(command: byte, data: seq<byte>)
      reads this, uartCMDBuff
      requires Valid()
    {
      isVaildFrame && uartcommand == command && |data| < uartCMDBuff.Length && uartCMDBuff[..|data| + 1] == data + [0]
    }

    constructor ()
      ensures Valid() && Parsing() == Parser(Delimiter1, 0, 0, 0, 0, [], 0) && !isVaildFrame
      ensures fresh(parameters) && fresh(uartCMDBuff)
    {
      dataState, checksum, command, index := Delimiter1, 0, 0, 0;
      parameterLen, parameterIndex, uartcommand, isVaildFrame := 0, 0, 0, false;
      parameters := new byte[LONGEST + 1];
      uartCMDBuff := new byte[LONGEST + 1];
    }

    // One byte of uartReceDataAnalysis.
    method Analyse(b: byte) returns (events: seq<Event>)
      requires Valid() && TooLong !in Step(Bridge, Parsing(), b).1
      modifies this, parameters, uartCMDBuff
      ensures Valid() && (Parsing(), events) == Step(Bridge, old(Parsing()), b)
      ensures |events| <= 1
      ensures Holds(LastAccepted(events))
      ensures LastAccepted(events).None? ==> Kept()
    {
      events := [];
      match dataState {
        case Delimiter1 =>
          if b == First(Bridge) {
            dataState := Delimiter2;
          }
        case Delimiter2 =>
          dataState := if b == Second(Bridge) then Command else Delimiter1;
        case Command =>
          command, checksum := b, b;
          index, parameterLen := 0, 0;
          dataState := ParameterLength;
        case ParameterLength =>
          LengthByte(b);
        case Parameters =>
          ParameterByte(b);
        case Checksum =>
          events := ChecksumByte(b);
      }
    }

    method LengthByte(b: byte)
      requires Valid() && dataState == ParameterLength && TooLong !in LengthStep(Bridge, Parsing(), b).1
      modifies this`checksum, this`parameterLen, this`index, this`parameterIndex, this`dataState
      ensures Valid() && (Parsing(), []) == LengthStep(Bridge, old(Parsing()), b)
    {
      checksum := Add16(checksum, b);
      parameterLen, index := parameterLen + Placed(b, index), index + 1;
      if index >= 2 {
        if parameterLen == 0 {
          dataState := Delimiter1;
        } else {
          parameterIndex := 0;
          dataState := Parameters;
        }
      }
    }

    method ParameterByte(b: byte)
      requires Valid() && dataState == Parameters
      modifies this`checksum, this`index, this`parameterIndex, this`dataState, parameters
      ensures Valid() && (Parsing(), []) == Step(Bridge, old(Parsing()), b)
    {
      ghost var stored := Stored();
      checksum := Add16(checksum, b);
      parameters[parameterIndex] := b;
      parameterIndex := parameterIndex + 1;
      assert parameters[..parameterIndex] == stored + [b];
      if parameterIndex >= parameterLen {
        index, parameterIndex := 0, 0;
        dataState := Checksum;
      }
    }

    method ChecksumByte(b: byte) returns (events: seq<Event>)
      requires Valid() && dataState == Checksum
      modifies this`index, this`parameterIndex, this`dataState, this`uartcommand, this`isVaildFrame, uartCMDBuff
      ensures Valid() && (Parsing(), events) == ChecksumStep(Bridge, old(Parsing()), b) && |events| <= 1
      ensures Holds(LastAccepted(events))
      ensures LastAccepted(events).None? ==> Kept()
    {
      ghost var data := Stored();
      assert data == parameters[..parameterLen];
      parameterIndex, index := parameterIndex + Placed(b, index), index + 1;
      if index < 2 {
        return [];
      }
      if parameterIndex == checksum {
        events := [Accepted(command, parameters[..parameterLen])];
        HandOver();
        assert Waiting(command, data);
      } else {
        events := [Refused];
      }
      dataState := Delimiter1;
      assert Stored() == [];
    }

    method HandOver()
      requires Valid() && dataState == Checksum
      modifies this`uartcommand, this`isVaildFrame, uartCMDBuff
      ensures Valid() && Waiting(command, parameters[..parameterLen])
    {
      var n := parameterLen;
      forall k | 0 <= k < n + 1 {
        uartCMDBuff[k] := 0;
      }
      forall k | 0 <= k < n {
        uartCMDBuff[k] := parameters[k];
      }
      assert uartCMDBuff[..n] == parameters[..n];
      assert uartCMDBuff[..n + 1] == uartCMDBuff[..n] + [uartCMDBuff[n]];
      uartcommand, isVaildFrame := command, true;
    }

    // What one byte's answer leaves in the waiting place.
    twostate predicate Kept()
      reads this, uartCMDBuff
    {
      uartCMDBuff[..] == old(uartCMDBuff[..]) && uartcommand == old(uartcommand) && isVaildFrame == old(isVaildFrame)
    }

    ghost predicate Holds(m: Option<Message>)
      reads this, uartCMDBuff
      requires Valid()
    {
      m.Some? ==> Waiting(m.value.command, m.value.data)
    }

    // All bytes the UART has buffered; of several commands finished in one pass the last one waits.
    method UartReceDataAnalysis(input: seq<byte>) returns (events: seq<Event>)
      requires Valid() && TooLong !in Run(Parse(Bridge), Parsing(), input).1
      modifies this, parameters, uartCMDBuff
      ensures Valid() && (Parsing(), events) == Run(Parse(Bridge), old(Parsing()), input)
      ensures Holds(LastAccepted(events))
      ensures LastAccepted(events).None? ==> Kept()
    {
      ghost var first := Parsing();
      events := [];
      for i := 0 to |input|
        invariant Valid() && (Parsing(), events) == Run(Parse(Bridge), first, input[..i])
        invariant Holds(LastAccepted(events))
        invariant LastAccepted(events).None? ==> Kept()
      {
        OnlyOneMore(first, input, i);
        var out := Analyse(input[i]);
        LastOfMore(events, out);
        assert out != [] ==> out[0] in out;
        events := events + out;
      }
      assert input[..|input|] == input;
    }
  }

  function LastAccepted(events: seq<Event>): (r: Option<Message>)
    ensures r.None? <==> forall e :: e in events ==> !e.Accepted?
  {
    if events == [] then None
    else
      var e := events[|events| - 1];
      if e.Accepted? then Some(Message(e.command, e.data)) else LastAccepted(events[..|events| - 1])
  }

  lemma LastOfMore(events: seq<Event>, more: seq<Event>)
    requires |more| <= 1
    ensures LastAccepted(events + more) ==
      if more != [] && more[0].Accepted? then Some(Message(more[0].command, more[0].data)) else LastAccepted(events)
  {
    if more == [] {
      assert events + more == events;
    } else {
      assert (events + more)[..|events|] == events;
    }
  }

  lemma SplitAt<T>(s: seq<T>, i: nat)
    requires i <= |s|
    ensures s[..i] + s[i..] == s
  {
  }

  lemma OnlyOneMore(first: Parser, input: seq<byte>, i: nat)
    requires i < |input| && TooLong !in Run(Parse(Bridge), first, input).1
    ensures var r := Run(Parse(Bridge), first, input[..i]); var out := Step(Bridge, r.0, input[i]);
            Run(Parse(Bridge), first, input[..i + 1]) == (out.0, r.1 + out.1) && TooLong !in out.1
  {
    RunSnoc(Parse(Bridge), first, input[..i], input[i]);
    assert input[..i + 1] == input[..i] + [input[i]];
    var done, rest := input[..i + 1], input[i + 1..];
    SplitAt(input, i + 1);
    RunConcat(Parse(Bridge), first, done, rest);
  }
}
