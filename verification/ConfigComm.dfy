/** The controller's configuration port as it runs: the parser's fields and the reply printer. */
module ConfigComm {
  import opened Bytes
  import opened ConfigProtocol

  class ConfigComm {
    var dataState: State
    var checksum: byte
    var lenIndex: nat
    var command: byte
    var parameterLen: nat
    var parameters: seq<byte>

    ghost function Parsing(): Parser
      reads this
    {
      Parser(dataState, checksum, lenIndex, command, parameterLen, parameters)
    }

    constructor ()
      ensures Parsing() == Parser(Delimiter1, 0, 0, 0, 0, [])
    {
      dataState, checksum, lenIndex, command, parameterLen, parameters := Delimiter1, 0, 0, 0, 0, [];
    }

    method DataProcess(b: byte) returns (events: seq<Message>)
      modifies this
      ensures (Parsing(), events) == Step(old(Parsing()), b)
    {
      events := [];
      match dataState {
        case Delimiter1 =>
          if b == DELIMITER {
            dataState := Delimiter2;
          }
        case Delimiter2 =>
          if b == SHORT_REQUEST {
            dataState := Command;
          } else if b == FILE_REQUEST {
            checksum := Add8(DELIMITER, FILE_REQUEST);
            dataState := FileCommand;
          } else {
            dataState := Delimiter1;
          }
        case Command =>
          command := b;
          dataState := ParameterLength;
        case ParameterLength =>
          parameterLen := b;
          parameters := [];
          if parameterLen == 0 {
            dataState := Delimiter1;
            events := [Short(command, [])];
          } else {
            dataState := Parameters;
          }
        case Parameters =>
          parameters := parameters + [b];
          if |parameters| >= parameterLen {
            events := [Short(command, parameters)];
            parameters := [];
            dataState := Delimiter1;
          }
        case FileCommand =>
          command := b;
          checksum := Add8(checksum, b);
          lenIndex := 0;
          dataState := FileDataLength;
          parameterLen := 0;
        case FileDataLength =>
          checksum := Add8(checksum, b);
          parameterLen := parameterLen + Placed(b, lenIndex);
          lenIndex := lenIndex + 1;
          if lenIndex > 1 {
            parameters := [];
            dataState := if parameterLen == 0 then Checksum else FileData;
          }
        case FileData =>
          parameters := parameters + [b];
          checksum := Add8(checksum, b);
          if |parameters| >= parameterLen {
            dataState := Checksum;
          }
        case Checksum =>
          if checksum == b {
            events := [File(command, parameters)];
          }
          parameters := [];
          dataState := Delimiter1;
      }
    }

    // The overflow event of the receive interrupt.
    method RxOverflow()
      modifies this`dataState
      ensures Parsing() == old(Parsing()).(dataState := Delimiter1)
    {
      dataState := Delimiter1;
    }

    // A reply: one frame on the wire, or none when the length does not fit its two bytes.
    static method SendFileData(command: byte, data: seq<byte>) returns (ok: bool, sent: seq<byte>)
      ensures ok <==> |data| <= 0xffff
      ensures sent == if ok then FileFrame(FILE_REPLY, command, data) else []
    {
      if |data| > 0xffff {
        return false, [];
      }
      var pre := [DELIMITER, FILE_REPLY, command, |data| % 0x100, |data| / 0x100 % 0x100];
      var checksum: byte := 0;
      for i := 0 to 5
        invariant checksum == Acc8(0, pre[..i])
      {
        Acc8Next(0, pre, i);
        checksum := Add8(checksum, pre[i]);
      }
      assert pre[..5] == pre;
      for i := 0 to |data|
        invariant checksum == Acc8(Acc8(0, pre), data[..i])
      {
        Acc8Next(Acc8(0, pre), data, i);
        checksum := Add8(checksum, data[i]);
      }
      assert data[..|data|] == data;
      ReplyFrame(command, data, pre);
      return true, pre + data + [checksum];
    }
  }

  // The five bytes of the prefix and the sum over them are those of the frame.
  lemma ReplyFrame(command: byte, data: seq<byte>, pre: seq<byte>)
    requires |data| <= 0xffff && pre == [DELIMITER, FILE_REPLY, command, |data| % 0x100, |data| / 0x100 % 0x100]
    ensures pre + data + [Acc8(Acc8(0, pre), data)] == FileFrame(FILE_REPLY, command, data)
  {
    assert pre == [DELIMITER, FILE_REPLY] + FileHead(command, |data|);
    PrefixSum(FileHead(command, |data|));
  }

  lemma PrefixSum(h: seq<byte>)
    ensures Acc8(0, [DELIMITER, FILE_REPLY] + h) == Acc8(Add8(DELIMITER, FILE_REPLY), h)
  {
    Acc8Concat(0, [DELIMITER, FILE_REPLY], h);
    assert [DELIMITER, FILE_REPLY][1..] == [FILE_REPLY];
    assert Acc8(0, [DELIMITER, FILE_REPLY]) == Acc8(DELIMITER, [FILE_REPLY]) == Add8(DELIMITER, FILE_REPLY);
  }
}
