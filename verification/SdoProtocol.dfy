/**
 SDO segmented download, section 7.2.4.3 of CiA 301: the frames a client has to send for a buffer,
 and a server that follows the standard.  A segment frame holds a command byte (toggle in bit 4,
 number of unused data bytes in bits 3 to 1, last-segment flag in bit 0) and seven data bytes.
 */
module SdoProtocol {
  import opened Bytes

  const PART: nat := 7

  function SegmentCount(n: nat): nat
  {
    (n + 6) / 7
  }

  function Chunk(buf: seq<byte>, from: nat): (r: seq<byte>)
    requires from < |buf|
    ensures 1 <= |r| <= PART
  {
    buf[from..Min(from + PART, |buf|)]
  }

  function CommandByte(toggle: nat, unused: nat, last: bool): byte
    requires toggle <= 1 && unused < PART
  {
    toggle * 16 + unused * 2 + if last then 1 else 0
  }

  // The k-th segment of a buffer, counting from 0.
  function Segment(buf: seq<byte>, k: nat): (r: seq<byte>)
    requires k < SegmentCount(|buf|)
    ensures |r| == PART + 1
  {
    var data := Chunk(buf, 7 * k);
    [CommandByte(k % 2, PART - |data|, k + 1 == SegmentCount(|buf|))] + data + Zeros(PART - |data|)
  }

  // ----- The server -----

  datatype Progress = Receiving | Complete | Aborted

  // A transfer: the size the client announced, the toggle expected next, and the bytes so far.
  datatype Server = Server(size: nat, toggle: nat, data: seq<byte>, progress: Progress)

  const ABORT: byte := 0x80
  const INITIATED: byte := 0x60

  function Acknowledge(toggle: nat): byte
    requires toggle <= 1
  {
    0x20 + toggle * 16
  }

  function Opened(size: nat): Server
  {
    Server(size, 0, [], Receiving)
  }

  function Quit(s: Server): (Server, byte)
  {
    (s.(progress := Aborted), ABORT)
  }

  // An initiate request for a segmented transfer of announced size: command specifier 1, not
  // expedited, size indicated, and the size in the last four bytes.
  function Initiate(frame: seq<byte>): (Server, byte)
  {
    if |frame| == PART + 1 && frame[0] / 32 == 1 && frame[0] / 2 % 2 == 0 && frame[0] % 2 == 1
    then (Opened(Word16(frame[4], frame[5]) + 0x1_0000 * Word16(frame[6], frame[7])), INITIATED)
    else Quit(Opened(0))
  }

  // Takes one segment request; the reply is the first byte of the response frame.  The last segment
  // ends the transfer well only if it brings the data to the announced size.
  function Serve(s: Server, frame: seq<byte>): (Server, byte)
  {
    var command := if frame == [] then 0xff else frame[0];
    var unused := command / 2 % 8;
    if |frame| != PART + 1 || s.progress != Receiving || command / 32 != 0 || command / 16 % 2 != s.toggle || unused > PART then Quit(s)
    else
      var data := s.data + frame[1..8 - unused];
      var last := command % 2 == 1;
      if last && |data| != s.size then Quit(s)
      else (s.(toggle := 1 - s.toggle, data := data, progress := if last then Complete else Receiving), Acknowledge(s.toggle))
  }

  // Exactly the segmented requests that announce a size are taken, with the size they announce.
  lemma InitiateTaken(frame: seq<byte>)
    requires |frame| == 8
    ensures var (s, reply) := Initiate(frame);
            if 0x20 <= frame[0] < 0x40 && frame[0] % 4 == 1
            then s.progress == Receiving && s.data == [] && reply == 0x60
                 && s.size == frame[4] as int + 0x100 * frame[5] as int + 0x1_0000 * frame[6] as int + 0x100_0000 * frame[7] as int
            else s.progress == Aborted && reply == 0x80
  {
  }

  // A segment is taken exactly if its toggle is due and, being the last, it brings the data to the
  // announced size; its command byte says how many of its seven bytes count.
  lemma SegmentTaken(s: Server, frame: seq<byte>)
    requires |frame| == 8 && s.progress == Receiving && s.toggle <= 1
    ensures var c, used := frame[0], 7 - frame[0] % 16 / 2;
            if c / 16 == s.toggle && (c % 2 == 1 ==> |s.data| + used == s.size)
            then Serve(s, frame) == (Server(s.size, 1 - s.toggle, s.data + frame[1..1 + used], if c % 2 == 1 then Complete else Receiving),
                                     0x20 + 16 * s.toggle)
            else Serve(s, frame) == (s.(progress := Aborted), 0x80)
  {
    var c := frame[0];
    assert c / 2 % 8 == c % 16 / 2;
    assert c / 16 == s.toggle ==> c / 32 == 0 && c / 16 % 2 == s.toggle;
    assert c / 32 == 0 && c / 16 % 2 == s.toggle ==> c / 16 == s.toggle;
  }

  // What the server has after the first k segments of a buffer, while more are to come.
  function Halfway(size: nat, buf: seq<byte>, k: nat): Server
    requires 7 * k <= |buf|
  {
    Server(size, k % 2, buf[..7 * k], Receiving)
  }

  predicate IsLast(buf: seq<byte>, k: nat)
  {
    k + 1 == SegmentCount(|buf|)
  }

  lemma Fields(toggle: nat, unused: nat, last: bool)
    requires toggle <= 1 && unused < PART
    ensures var c := CommandByte(toggle, unused, last);
            c / 32 == 0 && c / 16 % 2 == toggle && c / 2 % 8 == unused && (c % 2 == 1 <==> last)
  {
  }

  // Every segment but the last is accepted, with an acknowledgement that repeats its toggle, and
  // adds its bytes.  The last one completes the transfer if the announced size was right, and is
  // answered with an abort if it was not.
  lemma SegmentServed(size: nat, buf: seq<byte>, k: nat)
    requires k < SegmentCount(|buf|)
    ensures var r := Serve(Halfway(size, buf, k), Segment(buf, k));
            if !IsLast(buf, k) then 7 * (k + 1) < |buf| && r == (Halfway(size, buf, k + 1), Acknowledge(k % 2))
            else if size == |buf| then r == (Server(size, (k + 1) % 2, buf, Complete), Acknowledge(k % 2))
            else r == Quit(Halfway(size, buf, k))
  {
    var data := Chunk(buf, 7 * k);
    Fields(k % 2, PART - |data|, IsLast(buf, k));
    var frame := Segment(buf, k);
    assert frame[1..1 + |data|] == data;
    assert buf[..7 * k] + data == buf[..Min(7 * k + PART, |buf|)];
    assert buf[..|buf|] == buf;
  }

  function ServeAll(s: Server, frames: seq<seq<byte>>): Server
    decreases |frames|
  {
    if frames == [] then s else ServeAll(Serve(s, frames[0]).0, frames[1..])
  }

  lemma ServeCons(s: Server, frame: seq<byte>, frames: seq<seq<byte>>)
    ensures ServeAll(s, [frame] + frames) == ServeAll(Serve(s, frame).0, frames)
  {
    assert ([frame] + frames)[1..] == frames;
  }

  function SegmentsFrom(buf: seq<byte>, k: nat): (r: seq<seq<byte>>)
    requires k <= SegmentCount(|buf|)
    decreases SegmentCount(|buf|) - k
  {
    if k == SegmentCount(|buf|) then [] else [Segment(buf, k)] + SegmentsFrom(buf, k + 1)
  }

  // A conforming server: what it has after all segments from the k-th on.
  lemma {:induction false} Rebuilt(size: nat, buf: seq<byte>, k: nat)
    requires k < SegmentCount(|buf|)
    ensures var s := ServeAll(Halfway(size, buf, k), SegmentsFrom(buf, k));
            if size == |buf| then s == Server(size, SegmentCount(|buf|) % 2, buf, Complete) else s.progress == Aborted
    decreases SegmentCount(|buf|) - k
  {
    var s, frame, rest := Halfway(size, buf, k), Segment(buf, k), SegmentsFrom(buf, k + 1);
    SegmentServed(size, buf, k);
    ServeCons(s, frame, rest);
    if !IsLast(buf, k) {
      Rebuilt(size, buf, k + 1);
    }
  }

  // The transfer of a buffer completes if and only if its length was announced, and then the server
  // holds exactly the buffer.
  lemma TransferCompletes(size: nat, buf: seq<byte>)
    requires buf != []
    ensures var s := ServeAll(Opened(size), SegmentsFrom(buf, 0));
            && (s.progress == Complete <==> size == |buf|)
            && (s.progress == Complete ==> s.data == buf)
  {
    Rebuilt(size, buf, 0);
  }

  // The same at the level of single frames: alternating toggles, the last flag on the final segment
  // only, and 7 data bytes per segment less the unused count.
  lemma SegmentShape(buf: seq<byte>, k: nat)
    requires k < SegmentCount(|buf|)
    ensures var c := Segment(buf, k)[0];
            c / 16 % 2 == k % 2 && (c % 2 == 1 <==> IsLast(buf, k)) &&
            c / 2 % 8 == if c % 2 == 1 then 7 * SegmentCount(|buf|) - |buf| else 0
    ensures forall j :: 1 <= j < 8 ==> Segment(buf, k)[j] == if 7 * k + j - 1 < |buf| then buf[7 * k + j - 1] else 0
  {
    Fields(k % 2, PART - |Chunk(buf, 7 * k)|, IsLast(buf, k));
  }
}
