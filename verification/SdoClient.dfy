/** The bridge's SDO client: its request and segment senders, its receive interrupt and its tick. */
module SdoClient {
  import opened Bytes
  import opened SdoProtocol

  const TIMEOUT_VAL: nat := 20

  datatype State = Success | Fail | ExpReadBusy | ExpWriteBusy | SegReadBusy | SegWriteBusy | SegWriteOk

  predicate Over(s: State)
  {
    s == Success || s == Fail
  }

  // The state a request of the table waits in, by its command byte.
  function BusyState(len: byte): State
  {
    if len / 0x40 % 2 == 1 then ExpReadBusy else if len == 0x21 then SegWriteBusy else ExpWriteBusy
  }

  // What a received frame does to the state, by its first byte.
  function Answered(s: State, reply: byte): State
  {
    match s
    case ExpReadBusy => Success
    case ExpWriteBusy => if reply == 0x60 then Success else s
    case SegWriteBusy => SegWriteOk
    case _ => s
  }

  // The tick's effect on state and timeout, a 32-bit counter.
  function Ticked(s: State, timeout: nat): (State, nat)
  {
    if Over(s) then (s, timeout)
    else if timeout == 0 then (Fail, 0xffff_ffff)
    else (s, timeout - 1)
  }

  datatype OdEntry = OdEntry(index: nat, subindex: byte, len: byte, val: seq<byte>)

  // The request frame for a table entry, whose value is given as its four bytes from the lowest up.
  function Request(e: OdEntry): seq<byte>
    requires e.index < 0x1_0000 && |e.val| == 4
  {
    [e.len, e.index % 0x100, e.index / 0x100, e.subindex] + e.val
  }

  // Whoever reads the frame as section 7.2.4.3 of CiA 301 lays it out gets back command byte, index,
  // subindex and value.
  lemma RequestFields(e: OdEntry)
    requires e.index < 0x1_0000 && |e.val| == 4
    ensures var f := Request(e);
            |f| == 8 && f[0] == e.len && f[1] as int + 0x100 * f[2] as int == e.index && f[3] == e.subindex && f[4..8] == e.val
  {
  }

  // The two acknowledgements ispSegmentDown goes on from.
  predicate Initiated(reply: byte)
  {
    reply / 32 == 3
  }

  predicate Acknowledged(reply: byte)
  {
    (Initiated(reply) && reply / 2 % 2 == 0) || reply / 32 == 1
  }

  // The replies that let the next segment go: segment responses, and initiate responses whose bit 1
  // is clear; an abort never does.
  lemma RepliesThatGoOn(reply: byte)
    ensures Acknowledged(reply) <==> 0x20 <= reply < 0x40 || (0x60 <= reply < 0x80 && reply % 4 < 2)
    ensures Initiated(reply) <==> 0x60 <= reply < 0x80
    ensures Acknowledged(reply) ==> reply != ABORT
  {
  }

  function Toggle(command: byte): (t: nat)
    ensures t <= 1
  {
    command / 16 % 2
  }

  // The bytes unused in the last frame, from the size alone.
  function Unused(n: nat): nat
  {
    var i := 7 - n % 7;
    if i == 7 then 0 else i
  }

  // The frame sent from position from on.
  function SegmentFrame(toggle: nat, buf: seq<byte>, from: nat): (r: seq<byte>)
    requires toggle <= 1 && from < |buf|
    ensures |r| == PART + 1
  {
    var data := Chunk(buf, from);
    var last := from + |data| == |buf|;
    [CommandByte(toggle, if last then Unused(|buf|) else 0, last)] + data + Zeros(PART - |data|)
  }

  // It is the segment the standard asks for.
  lemma FrameIsSegment(buf: seq<byte>, k: nat)
    requires 7 * k < |buf|
    ensures k < SegmentCount(|buf|) && SegmentFrame(k % 2, buf, 7 * k) == Segment(buf, k)
  {
    var data := Chunk(buf, 7 * k);
    if 7 * k + |data| == |buf| {
      assert Unused(|buf|) == PART - |data|;
    }
  }

  class SdoClient {
    var state: State
    var timeout: nat
    var received: byte
    var buffCount: nat
    var segBuffSize: nat
    const buff: array<byte>
    const nmtData: array<byte>

    ghost predicate Valid()
      reads this
    {
      nmtData.Length == PART + 1 && segBuffSize <= buff.Length && nmtData != buff
    }

    // The segment under way: k segments are out, and the reply last received lets the next one go.
    ghost predicate InStep(k: nat)
      reads this, nmtData
      requires Valid()
    {
      && buffCount == Min(7 * k, segBuffSize)
      && (if k == 0 then Initiated(received) else received / 32 == 1 && Toggle(nmtData[0]) == (k + 1) % 2)
      && Acknowledged(received)
    }

    constructor (memory: array<byte>)
      ensures Valid() && fresh(nmtData) && buff == memory && segBuffSize == buffCount == 0
      ensures state == Fail
    {
      buff := memory;
      nmtData := new byte[PART + 1];
      state, timeout, received := Fail, 0, 0;
      buffCount, segBuffSize := 0, 0;
    }

    method Tick10ms()
      modifies this`state, this`timeout
      ensures (state, timeout) == Ticked(old(state), old(timeout))
    {
      if !(state == Success || state == Fail) {
        if timeout == 0 {
          state := Fail;
          timeout := 0xffff_ffff;
        } else {
          timeout := timeout - 1;
        }
      }
    }

    // The receive interrupt, for a frame that starts with this byte.
    method CAN_ISR_HANDLE(first: byte)
      modifies this`state, this`received
      ensures state == Answered(old(state), first)
      ensures received == if old(state) == ExpReadBusy || old(state) == SegWriteBusy then first else old(received)
    {
      if state == ExpReadBusy {
        state, received := Success, first;
      } else if state == ExpWriteBusy {
        if first == 0x60 {
          state := Success;
        }
      } else if state == SegWriteBusy {
        state, received := SegWriteOk, first;
      }
    }

    // A request that finds another one open fails it instead.
    method CANopen_SDOC_Exp_ReadWrite(e: OdEntry) returns (ok: bool)
      requires Valid() && e.index < 0x1_0000 && |e.val| == 4
      modifies this`state, this`timeout, nmtData
      ensures Valid() && ok == Over(old(state))
      ensures ok ==> state == BusyState(e.len) && timeout == TIMEOUT_VAL && nmtData[..] == Request(e)
      ensures !ok ==> state == Fail && timeout == old(timeout) && nmtData[..] == old(nmtData[..])
    {
      if state == Success || state == Fail {
        state := BusyState(e.len);
        nmtData[0], nmtData[1], nmtData[2], nmtData[3] := e.len, e.index % 0x100, e.index / 0x100, e.subindex;
        nmtData[4], nmtData[5], nmtData[6], nmtData[7] := e.val[0], e.val[1], e.val[2], e.val[3];
        timeout := TIMEOUT_VAL;
        return true;
      }
      state := Fail;
      return false;
    }

    // Sends the next segment if the reply last received allows it.
    method IspSegmentDown() returns (sent: bool)
      requires Valid() && buffCount < segBuffSize
      modifies this`state, this`buffCount, this`timeout, nmtData
      ensures Valid() && buff[..] == old(buff[..])
      ensures sent == Acknowledged(received)
      ensures sent ==>
        var from := if Initiated(received) then 0 else old(buffCount);
        var toggle := if Initiated(received) then 0 else 1 - old(Toggle(nmtData[0]));
        nmtData[..] == SegmentFrame(toggle, buff[..segBuffSize], from) &&
        buffCount == Min(from + PART, segBuffSize) && timeout == TIMEOUT_VAL &&
        state == if buffCount == segBuffSize then Success else SegWriteBusy
      ensures !sent ==> nmtData[..] == old(nmtData[..]) && buffCount == old(buffCount) &&
                        state == old(state) && timeout == old(timeout)
    {
      if !Acknowledged(received) {
        return false;
      }
      state := SegWriteBusy;
      NextToggle();
      ghost var from, toggle := buffCount, Toggle(nmtData[0]);
      FillFrame();
      if buffCount == segBuffSize {
        MarkLast();
        state := Success;
      }
      ghost var data := Chunk(buff[..segBuffSize], from);
      assert nmtData[..] == [nmtData[0]] + nmtData[1..];
      timeout := TIMEOUT_VAL;
      return true;
    }

    // A first frame starts the buffer over, with toggle 0; any other frame inverts the toggle.
    method NextToggle()
      requires Valid()
      modifies this`buffCount, nmtData
      ensures Valid() && buff[..] == old(buff[..])
      ensures buffCount == if Initiated(received) then 0 else old(buffCount)
      ensures var toggle := if Initiated(received) then 0 else 1 - old(Toggle(nmtData[0]));
              Toggle(nmtData[0]) == toggle && nmtData[0] == CommandByte(toggle, 0, false)
    {
      if Initiated(received) {
        buffCount := 0;
        nmtData[0] := 16;
      }
      nmtData[0] := if Toggle(nmtData[0]) == 1 then 0 else 16;
    }

    method MarkLast()
      requires Valid() && nmtData[0] == CommandByte(Toggle(nmtData[0]), 0, false)
      modifies nmtData
      ensures nmtData[0] == CommandByte(old(Toggle(nmtData[0])), Unused(segBuffSize), true)
      ensures nmtData[1..] == old(nmtData[1..]) && buff[..] == old(buff[..])
    {
      var i := 7 - segBuffSize % 7;
      if i == 7 {
        i := 0;
      }
      nmtData[0] := nmtData[0] + i * 2 + 1;
    }

    method FillFrame()
      requires Valid() && buffCount < segBuffSize
      modifies this`buffCount, nmtData
      ensures Valid() && buffCount == Min(old(buffCount) + PART, segBuffSize)
      ensures buff[..] == old(buff[..]) && nmtData[0] == old(nmtData[0])
      ensures var data := Chunk(buff[..segBuffSize], old(buffCount)); nmtData[1..] == data + Zeros(PART - |data|)
    {
      ghost var from := buffCount;
      ghost var want := Chunk(buff[..segBuffSize], from) + Zeros(PART - |Chunk(buff[..segBuffSize], from)|);
      for i := 0 to 7
        invariant buffCount == Min(from + i, segBuffSize)
        invariant nmtData[0] == old(nmtData[0]) && buff[..] == old(buff[..])
        invariant forall j :: 0 <= j < i ==> want[j] == nmtData[1 + j]
      {
        if buffCount < segBuffSize {
          assert want[i] == buff[buffCount];
          nmtData[i + 1] := buff[buffCount];
          buffCount := buffCount + 1;
        } else {
          assert want[i] == 0;
          nmtData[i + 1] := 0;
        }
      }
      forall j | 0 <= j < 7 ensures nmtData[1..][j] == want[j] {
        assert nmtData[1..][j] == nmtData[1 + j];
      }
      assert nmtData[1..] == want;
    }

    // One turn of the segment loop: a segment goes out and the server's answer comes back.
    method SegmentRound(server: Server, ghost buf: seq<byte>, ghost k: nat) returns (frame: seq<byte>, after: Server)
      requires Valid() && buf == buff[..segBuffSize] && 7 * k < |buf| && InStep(k)
      requires server == Halfway(server.size, buf, k)
      modifies this`state, this`buffCount, this`timeout, this`received, nmtData
      ensures Valid() && buff[..] == old(buff[..])
      ensures k < SegmentCount(|buf|) && frame == Segment(buf, k)
      ensures after == Serve(server, frame).0 && buffCount == Min(7 * k + 7, |buf|)
      ensures if buffCount < segBuffSize then InStep(k + 1) && after == Halfway(server.size, buf, k + 1) else state == Success
    {
      SendSegment(k);
      frame := nmtData[..];
      SegmentServed(server.size, buf, k);
      AcknowledgeGoesOn(k % 2);
      var answer := Serve(server, frame);
      after := answer.0;
      CAN_ISR_HANDLE(answer.1);
    }

    method SendSegment(ghost k: nat)
      requires Valid() && 7 * k < segBuffSize && InStep(k)
      modifies this`state, this`buffCount, this`timeout, nmtData
      ensures Valid() && buff[..] == old(buff[..])
      ensures k < SegmentCount(segBuffSize) && nmtData[..] == Segment(buff[..segBuffSize], k)
      ensures Toggle(nmtData[0]) == k % 2 && buffCount == Min(7 * k + 7, segBuffSize)
      ensures state == if buffCount == segBuffSize then Success else SegWriteBusy
    {
      ghost var buf := buff[..segBuffSize];
      FrameIsSegment(buf, k);
      var sent := IspSegmentDown();
      SegmentShape(buf, k);
    }

    // The segment loop of the program and go commands, with every segment answered by the server.
    // The frames are the buffer's segments.  The server completes, holding the buffer, exactly when
    // the buffer has the announced size; the client calls it a success either way, since it does not
    // wait for the answer to its last segment.
    method SegmentLoop(server: Server) returns (frames: seq<seq<byte>>, after: Server)
      requires Valid() && 0 < segBuffSize && server == Opened(server.size) && InStep(0)
      modifies this`state, this`buffCount, this`timeout, this`received, nmtData
      ensures Valid() && buff[..] == old(buff[..]) && state == Success
      ensures |frames| == SegmentCount(segBuffSize) && frames == SegmentsFrom(buff[..segBuffSize], 0)
      ensures after == ServeAll(server, frames)
      ensures after.progress == Complete <==> server.size == segBuffSize
      ensures after.progress == Complete ==> after.data == buff[..segBuffSize]
    {
      ghost var buf := buff[..segBuffSize];
      frames, after := [], server;
      ghost var k := 0;
      NoneSent(server, buf);
      while buffCount < segBuffSize
        invariant Valid() && buff[..] == old(buff[..]) && buffCount == Min(7 * k, |buf|)
        invariant if buffCount < segBuffSize then InStep(k) && after == Halfway(server.size, buf, k) else state == Success
        invariant Along(server, after, buf, frames, k)
      {
        OneMoreFrame(server, after, buf, frames, k);
        var frame, next := SegmentRound(after, buf, k);
        frames, after := frames + [frame], next;
        k := k + 1;
      }
      AllSent(server, after, buf, frames, k);
      TransferCompletes(server.size, buf);
    }

    // A download of n bytes of the buffer: the initiate request, its answer, and the segment loop.
    method Download(n: nat) returns (after: Server)
      requires Valid() && 0 < n <= buff.Length && Over(state)
      modifies this`state, this`buffCount, this`segBuffSize, this`timeout, this`received, nmtData
      ensures Valid() && buff[..] == old(buff[..]) && state == Success
      ensures after.progress == Complete <==> n == 0x100
      ensures after.progress == Complete ==> after.data == buff[..n]
    {
      buffCount := 0;
      segBuffSize := n;
      var _ := CANopen_SDOC_Exp_ReadWrite(START_DOWNLOAD);
      Announced();
      var answer := Initiate(nmtData[..]);
      CAN_ISR_HANDLE(answer.1);
      var _, s := SegmentLoop(answer.0);
      after := s;
    }
  }

  // An acknowledgement lets the next segment go, and starts no new download.
  lemma AcknowledgeGoesOn(toggle: nat)
    requires toggle <= 1
    ensures var r := Acknowledge(toggle); r / 32 == 1 && !Initiated(r) && Acknowledged(r)
  {
  }

  // After k segments: these frames are out, and s has what the first k of all frames leave.
  predicate Along(first: Server, s: Server, buf: seq<byte>, frames: seq<seq<byte>>, k: nat)
  {
    && k == |frames| <= SegmentCount(|buf|) && frames + SegmentsFrom(buf, k) == SegmentsFrom(buf, 0)
    && ServeAll(s, SegmentsFrom(buf, k)) == ServeAll(first, SegmentsFrom(buf, 0))
  }

  lemma NoneSent(first: Server, buf: seq<byte>)
    ensures Along(first, first, buf, [], 0)
    ensures first == Opened(first.size) ==> first == Halfway(first.size, buf, 0)
  {
    assert [] + SegmentsFrom(buf, 0) == SegmentsFrom(buf, 0);
  }

  lemma OneMoreFrame(first: Server, s: Server, buf: seq<byte>, frames: seq<seq<byte>>, k: nat)
    requires k < SegmentCount(|buf|) && Along(first, s, buf, frames, k)
    ensures Along(first, Serve(s, Segment(buf, k)).0, buf, frames + [Segment(buf, k)], k + 1)
  {
    var frame, rest := Segment(buf, k), SegmentsFrom(buf, k + 1);
    ServeCons(s, frame, rest);
    assert frames + ([frame] + rest) == frames + [frame] + rest;
  }

  lemma AllSent(first: Server, s: Server, buf: seq<byte>, frames: seq<seq<byte>>, k: nat)
    requires Along(first, s, buf, frames, k) && 7 * k >= |buf|
    ensures |frames| == SegmentCount(|buf|) && frames == SegmentsFrom(buf, 0) && s == ServeAll(first, frames)
  {
    assert frames + [] == frames;
  }

  // ----- What the bridge announces -----

  // The entry of the table that starts a download: 0x100 bytes into the program area.
  const START_DOWNLOAD: OdEntry := OdEntry(0x1f50, 0x01, 0x21, [0x00, 0x01, 0x00, 0x00])

  lemma Announced()
    ensures Initiate(Request(START_DOWNLOAD)) == (Opened(0x100), INITIATED)
  {
  }

  const PAGE_DOWNLOAD: nat := 0x100 + 4
  const GO_DOWNLOAD: nat := 32 + 10

  // Both uses of the loop send another number of bytes than they announce, so that a conforming
  // server aborts either transfer at its last segment.
  lemma PageDownloadAborts(buf: seq<byte>)
    requires |buf| == PAGE_DOWNLOAD
    ensures ServeAll(Initiate(Request(START_DOWNLOAD)).0, SegmentsFrom(buf, 0)).progress == Aborted
  {
    Announced();
    Rebuilt(0x100, buf, 0);
  }

  lemma GoDownloadAborts(buf: seq<byte>)
    requires |buf| == GO_DOWNLOAD
    ensures ServeAll(Initiate(Request(START_DOWNLOAD)).0, SegmentsFrom(buf, 0)).progress == Aborted
  {
    Announced();
    Rebuilt(0x100, buf, 0);
  }
}
