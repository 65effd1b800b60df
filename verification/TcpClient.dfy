/**
 The connection to the server as the firmware runs it: the parser's static variables, two mail
 queues of TCP_BUFFER_NUM slots, and a semaphore token for every free slot.
 */
module TcpClient {
  import opened Bytes
  import opened TcpFraming

  const TCP_BUFFER_NUM: nat := 48

  class TcpClient {
    var dataState: nat
    var readIndex: nat
    var payloadLen: nat
    var sumcheck: byte
    var payload: seq<byte>

    var mailS: seq<seq<byte>>        // queued for sending
    var semaphoreS: nat
    var mailR: seq<seq<byte>>        // received, not yet parsed
    var semaphoreR: nat
    var rxCount: int
    var conn: bool
    var socket: bool                 // a socket is allocated
    var ack: bool                    // the last piece sent is acknowledged

    // Every slot is free or queued, on both sides; rxCount mirrors the receive tokens; only a socket
    // is ever connected.
    ghost predicate Valid()
      reads this
    {
      && semaphoreS + |mailS| == TCP_BUFFER_NUM && semaphoreR + |mailR| == TCP_BUFFER_NUM && rxCount == semaphoreR
      && (conn ==> socket)
    }

    ghost function Parsing(): Parser
      reads this
    {
      Parser(dataState, readIndex, payloadLen, sumcheck, payload)
    }

    constructor ()
      ensures Valid() && Parsing().dataState == 0 && mailS == mailR == [] && !conn
    {
      dataState, readIndex, payloadLen, sumcheck, payload := 0, 0, 0, 0, [];
      mailS, semaphoreS := [], TCP_BUFFER_NUM;
      mailR, semaphoreR, rxCount := [], TCP_BUFFER_NUM, TCP_BUFFER_NUM;
      conn, socket, ack := false, false, false;
    }

    method DataReciever(data: seq<byte>) returns (events: seq<seq<byte>>)
      modifies this`dataState, this`readIndex, this`payloadLen, this`sumcheck, this`payload
      ensures (Parsing(), events) == Run(Step, old(Parsing()), data)
    {
      events := [];
      var index := 0;
      while index < |data|
        invariant index <= |data| && (Parsing(), events) == Run(Step, old(Parsing()), data[..index])
      {
        RunSnoc(Step, old(Parsing()), data[..index], data[index]);
        assert data[..index + 1] == data[..index] + [data[index]];
        var event := ReceiveByte(data[index]);
        events := events + event;
        index := index + 1;
      }
      assert data[..index] == data;
    }

    // The switch of the receive loop.
    method ReceiveByte(b: byte) returns (event: seq<seq<byte>>)
      modifies this`dataState, this`readIndex, this`payloadLen, this`sumcheck, this`payload
      ensures (Parsing(), event) == Step(old(Parsing()), b)
    {
      event := [];
      match dataState {
        case 0 =>
          if b == HEADER0 {
            dataState := 1;
            payloadLen := 0;
            readIndex := 0;
          }
        case 1 =>
          sumcheck := Add8(HEADER0, HEADER1);
          dataState := if b == HEADER1 then 2 else 0;
        case 2 =>
          sumcheck := Add8(sumcheck, b);
          payloadLen := payloadLen + Placed(b, readIndex);
          readIndex := readIndex + 1;
          if readIndex >= 4 {
            dataState := 3;
            readIndex := 0;
            payload := [];
          }
        case 3 =>
          sumcheck := Add8(sumcheck, b);
          payload := payload + [b];
          readIndex := readIndex + 1;
          if readIndex >= payloadLen {
            readIndex := 0;
            dataState := 4;
          }
        case 4 =>
          dataState := 0;
          if b == sumcheck {
            event := [payload[..Min(|payload|, payloadLen)]];
          }
          payload := [];
          payloadLen := 0;
        case _ =>
      }
    }

    method AbortConnection()
      requires Valid()
      modifies this`mailS, this`semaphoreS, this`conn, this`socket
      ensures Valid() && mailS == [] && !conn && !socket
    {
      while mailS != []
        invariant Valid()
        decreases |mailS|
      {
        mailS := mailS[1..];
        semaphoreS := semaphoreS + 1;
      }
      if socket {
        conn := false;
        socket := false;
      }
    }

    // The byte string SendData transmits.
    static method BuildFrame(command: byte, buf: seq<byte>) returns (frame: seq<byte>)
      requires |buf| + 1 < 0x1_0000_0000
      ensures frame == Frame([command] + buf)
    {
      var len := |buf| + 1;
      var head := [HEADER0, HEADER1] + LengthBytes(len) + [command];
      var sum: byte := 0;
      for i := 0 to 7
        invariant sum == Acc8(0, head[..i])
      {
        Acc8Next(0, head, i);
        sum := Add8(sum, head[i]);
      }
      assert head[..7] == head;
      for i := 0 to |buf|
        invariant sum == Acc8(Acc8(0, head), buf[..i])
      {
        Acc8Next(Acc8(0, head), buf, i);
        sum := Add8(sum, buf[i]);
      }
      assert buf[..|buf|] == buf;
      FrameBytes(command, buf, head);
      return head + buf + [sum];
    }

    // All pieces of the frame are queued, or, when the tokens run out, the connection is dropped
    // and everything queued with it.
    method SendData(command: byte, buf: seq<byte>) returns (ok: bool)
      requires Valid() && |buf| + 8 < 0x1_0000_0000
      modifies this`mailS, this`semaphoreS, this`conn, this`socket
      ensures Valid()
      ensures ok <==> old(conn) && |Pieces(Frame([command] + buf))| <= old(semaphoreS)
      ensures ok ==> mailS == old(mailS) + Pieces(Frame([command] + buf)) && conn
      ensures !ok ==> if old(conn) then mailS == [] && !conn else mailS == old(mailS) && !conn
    {
      if !conn {
        return false;
      }
      var frame := BuildFrame(command, buf);
      var segment := |frame| / 0x400;
      var rem := |frame| % 0x400;
      if rem > 0 {
        segment := segment + 1;
      }
      PieceCount(frame);
      for i := 0 to segment
        invariant Valid() && conn && semaphoreS == old(semaphoreS) - i
        invariant mailS == old(mailS) + Pieces(frame)[..i]
      {
        if semaphoreS == 0 {
          AbortConnection();
          return false;
        }
        var segmentLen := if i < segment - 1 || rem == 0 then 0x400 else rem;
        assert i * 0x400 + segmentLen == PieceEnd(|frame|, i);
        TakeNext(old(mailS), Pieces(frame), i);
        QueuePiece(frame, i, segmentLen);
      }
      assert Pieces(frame)[..segment] == Pieces(frame);
      return true;
    }

    method QueuePiece(frame: seq<byte>, i: nat, segmentLen: nat)
      requires Valid() && semaphoreS > 0 && i < |Pieces(frame)|
      requires i * 0x400 + segmentLen == PieceEnd(|frame|, i)
      modifies this`mailS, this`semaphoreS
      ensures Valid() && semaphoreS == old(semaphoreS) - 1 && mailS == old(mailS) + [Pieces(frame)[i]]
    {
      PieceAt(frame, i);
      semaphoreS := semaphoreS - 1;
      mailS := mailS + [frame[i * 0x400..i * 0x400 + segmentLen]];
    }

    // The events tcpEventEstablished and tcpEventACK.
    method Acknowledged()
      modifies this`ack
      ensures ack
    {
      ack := true;
    }

    // Takes one queued piece; it goes to the stack unless it exceeds what the socket carries.  The
    // stack says whether it could send at once, and how much it takes.
    method TxProcessor(canSend: bool, maxDataSize: nat) returns (wire: seq<seq<byte>>)
      requires Valid()
      modifies this`mailS, this`semaphoreS, this`ack
      ensures Valid()
      ensures var ready := old(ack) || canSend;
              if !ready || old(mailS) == [] then wire == [] && mailS == old(mailS)
              else mailS == old(mailS)[1..] && wire == if |old(mailS)[0]| <= maxDataSize then [old(mailS)[0]] else []
      ensures ack == (old(ack) && wire == [])
    {
      wire := [];
      if !ack && !canSend {
        return;
      }
      if mailS == [] {
        return;
      }
      var buffer := mailS[0];
      mailS := mailS[1..];
      semaphoreS := semaphoreS + 1;
      if |buffer| > maxDataSize {
        return;
      }
      wire := [buffer];
      ack := false;
    }

    // tcpEventData: a free slot takes the data, without one they are lost.
    method DataArrived(buf: seq<byte>)
      requires Valid()
      modifies this`mailR, this`semaphoreR, this`rxCount
      ensures Valid() && mailR == if old(semaphoreR) == 0 then old(mailR) else old(mailR) + [buf]
    {
      if rxCount <= 0 {
        return;
      }
      semaphoreR := semaphoreR - 1;
      rxCount := rxCount - 1;
      mailR := mailR + [buf];
    }

    method DataReceiver() returns (events: seq<seq<byte>>)
      requires Valid()
      modifies this`mailR, this`semaphoreR, this`rxCount
      modifies this`dataState, this`readIndex, this`payloadLen, this`sumcheck, this`payload
      ensures Valid()
      ensures if old(mailR) == [] then mailR == [] && events == [] && Parsing() == old(Parsing())
              else mailR == old(mailR)[1..] && (Parsing(), events) == Run(Step, old(Parsing()), old(mailR)[0])
    {
      events := [];
      if mailR == [] {
        return;
      }
      events := DataReciever(mailR[0]);
      mailR := mailR[1..];
      semaphoreR := semaphoreR + 1;
      rxCount := rxCount + 1;
    }
  }

  // What the loops of BuildFrame have put together is the frame.
  lemma FrameBytes(command: byte, buf: seq<byte>, head: seq<byte>)
    requires |buf| + 1 < 0x1_0000_0000 && head == [HEADER0, HEADER1] + LengthBytes(|buf| + 1) + [command]
    ensures head + buf + [Acc8(Acc8(0, head), buf)] == Frame([command] + buf)
  {
    var l, body := LengthBytes(|buf| + 1), [command] + buf;
    SumOfFrame(l, command, buf);
    assert head + buf == [HEADER0, HEADER1] + l + body;
  }

  lemma SumOfFrame(l: seq<byte>, command: byte, buf: seq<byte>)
    ensures Acc8(Acc8(0, [HEADER0, HEADER1] + l + [command]), buf)
            == Acc8(Acc8(Add8(HEADER0, HEADER1), l), [command] + buf)
  {
    var start := Add8(HEADER0, HEADER1);
    assert [HEADER0, HEADER1] + l + [command] == [HEADER0, HEADER1] + (l + [command]);
    Acc8Concat(0, [HEADER0, HEADER1], l + [command]);
    AccTwo(0, HEADER0, HEADER1);
    Acc8Concat(start, l, [command]);
    Acc8Concat(Acc8(start, l), [command], buf);
  }

  lemma {:induction false} PieceCount(frame: seq<byte>)
    ensures |Pieces(frame)| == (|frame| + 0x3ff) / 0x400
    decreases |frame|
  {
    if |frame| > 0x400 {
      PieceCount(frame[0x400..]);
    }
  }

  // Piece i of a frame of n bytes ends here.
  function PieceEnd(n: nat, i: nat): nat
  {
    if i * 0x400 + 0x400 <= n then i * 0x400 + 0x400 else n
  }

  lemma {:induction false} PieceAt(frame: seq<byte>, i: nat)
    requires i < |Pieces(frame)|
    ensures i * 0x400 <= PieceEnd(|frame|, i) && Pieces(frame)[i] == frame[i * 0x400..PieceEnd(|frame|, i)]
    decreases |frame|
  {
    if |frame| > 0x400 && i > 0 {
      var tail := frame[0x400..];
      PieceAt(tail, i - 1);
      TailPiece(frame, i);
      assert Pieces(frame)[i] == Pieces(tail)[i - 1];
    }
  }

  lemma TailPiece(frame: seq<byte>, i: nat)
    requires 0 < i && i * 0x400 <= PieceEnd(|frame|, i)
    ensures (i - 1) * 0x400 <= PieceEnd(|frame| - 0x400, i - 1)
    ensures frame[0x400..][(i - 1) * 0x400..PieceEnd(|frame| - 0x400, i - 1)] == frame[i * 0x400..PieceEnd(|frame|, i)]
  {
    var end := PieceEnd(|frame| - 0x400, i - 1);
    assert PieceEnd(|frame|, i) == 0x400 + end;
    assert frame[0x400..] == frame[0x400..|frame|];
    SliceOfSlice(frame, 0x400, |frame|, (i - 1) * 0x400, end);
  }
}
