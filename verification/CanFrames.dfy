/**
 The CANExtended wire format: object-dictionary entries, extended identifiers, and the cut of
 an entry into one head frame and up to 36 segment frames.  Both firmwares share it.
 */
module CanFrames {
  import opened Bytes

  // At most 255 bytes: the length travels in one byte.
  datatype RawEntry = RawEntry(index: nat, subIndex: byte, val: seq<byte>)
  type OdEntry = e: RawEntry | e.index < 0x1_0000 && |e.val| <= 255 witness RawEntry(0, 0, [])

  // A message buffer of a CAN controller.  Bytes from len on are whatever the buffer held before.
  datatype Message = Message(id: nat, len: nat, data: seq<byte>)
  type Frame = m: Message | |m.data| == 8 && m.len <= 8 witness Message(0, 0, [0, 0, 0, 0, 0, 0, 0, 0])

  const REQUEST := 0x100_0000
  const RESPONSE := 0x200_0000
  const BROADCAST := 0x300_0000
  const SYNC := 0x400_0000
  const HEARTBEAT := 0x700_0000
  const EXTENDED := 0x800_0000

  // The 29 identifier bits: extended flag, 3 command bits, 12 source bits, 12 target bits.
  function MakeId(command: nat, source: nat, target: nat): nat
  {
    command + source % 0x1000 * 0x1000 + target % 0x1000
  }

  function TargetOf(id: nat): nat { id % 0x1000 }

  function SourceOf(id: nat): nat { id / 0x1000 % 0x1000 }

  function CommandOf(id: nat): nat { id / 0x100_0000 % 8 * 0x100_0000 }

  predicate IsExtended(id: nat) { id / EXTENDED % 2 == 1 }

  predicate CarriesEntry(command: nat)
  {
    command == REQUEST || command == RESPONSE || command == BROADCAST
  }

  // The receiver's masks recover what the sender put into the identifier.
  lemma IdFields(command: nat, source: nat, target: nat)
    requires command % 0x100_0000 == 0 && command < EXTENDED
    ensures var id := MakeId(command, source, target);
            && TargetOf(id) == target % 0x1000 && SourceOf(id) == source % 0x1000
            && CommandOf(id) == command && !IsExtended(id)
            && TargetOf(id + EXTENDED) == target % 0x1000 && SourceOf(id + EXTENDED) == source % 0x1000
            && CommandOf(id + EXTENDED) == command && IsExtended(id + EXTENDED)
  {
    var id := MakeId(command, source, target);
    var c := command / 0x100_0000;
    assert command == c * 0x100_0000;
    assert id / 0x1000 == c * 0x1000 + source % 0x1000;
    assert id / 0x100_0000 == c;
    assert (id + EXTENDED) / 0x1000 == (c + 8) * 0x1000 + source % 0x1000;
    assert (id + EXTENDED) / 0x100_0000 == c + 8;
    assert (id + EXTENDED) / EXTENDED == 1;
  }

  // The flag and the command are read alike whatever the topmost identifier bit is.
  lemma TopBitIgnored(id: nat)
    ensures IsExtended(id + 2 * EXTENDED) <==> IsExtended(id)
    ensures CommandOf(id + 2 * EXTENDED) == CommandOf(id)
  {
    TwoMore(id, EXTENDED);
    TwoMore(id / 0x100_0000, 8);
    assert (id + 2 * EXTENDED) / 0x100_0000 == id / 0x100_0000 + 2 * 8;
  }

  lemma TwoMore(n: nat, d: nat)
    requires d == EXTENDED || d == 8
    ensures (n + 2 * d) / d == n / d + 2 && (n + 2 * d) % d == n % d
  {
  }

  // The number of segments that follow the head frame of an entry of the given length.
  function SegmentCount(len: nat): (n: nat)
    ensures len <= 255 ==> n <= 36
  {
    if len <= 4 then 0 else (len - 4 + 6) / 7
  }

  // The count as both receivers compute it from the announced length.
  method CountSegments(len: nat) returns (seg: nat)
    requires 4 < len <= 255
    ensures seg == SegmentCount(len) && seg <= 36
  {
    seg := (len - 4) / 7;
    if (len - 4) % 7 != 0 {
      seg := seg + 1;
    }
  }

  function SegmentLen(len: nat, i: nat): (n: nat)
    requires i < SegmentCount(len)
    ensures 1 <= n <= 7 && 4 + 7 * i + n <= len
  {
    if len - 4 - 7 * i < 7 then len - 4 - 7 * i else 7
  }

  predicate IsHead(f: Frame, e: OdEntry)
  {
    && f.len == 4 + Min(4, |e.val|)
    && f.data[0] == e.index % 0x100 && f.data[1] == e.index / 0x100
    && f.data[2] == e.subIndex && f.data[3] == |e.val|
    && forall k :: 4 <= k < f.len ==> f.data[k] == e.val[k - 4]
  }

  predicate IsSegment(f: Frame, e: OdEntry, i: nat)
  {
    && i < SegmentCount(|e.val|)
    && f.len == 1 + SegmentLen(|e.val|, i)
    && f.data[0] == i
    && forall k :: 1 <= k < f.len ==> f.data[k] == e.val[3 + 7 * i + k]
  }

  // What either firmware puts on the bus for one entry: the head, then every segment in order.
  predicate IsTransmission(sent: seq<Frame>, id: nat, segmentId: nat, e: OdEntry)
  {
    && |sent| == 1 + SegmentCount(|e.val|)
    && sent[0].id == id && IsHead(sent[0], e)
    && forall i :: 1 <= i < |sent| ==> sent[i].id == segmentId && IsSegment(sent[i], e, i - 1)
  }

  // Segments cut the value behind the head exactly: byte k belongs to segment (k - 4) / 7 alone.
  lemma SegmentOfByte(len: nat, i: nat, k: nat)
    requires i < SegmentCount(len) && 4 <= k < len
    ensures 4 + 7 * i <= k < 4 + 7 * i + SegmentLen(len, i) <==> i == (k - 4) / 7
    ensures (k - 4) / 7 < SegmentCount(len)
  {
  }

  // The set of segments named by the first bytes of a run of segment frames.
  function Named(fs: seq<Frame>): set<nat>
  {
    set f | f in fs :: f.data[0] as nat
  }

  predicate Covers(fs: seq<Frame>, e: OdEntry)
  {
    forall i :: 0 <= i < SegmentCount(|e.val|) ==> i in Named(fs)
  }

  // What arrives behind the head is some of what was sent there, in any order, perhaps repeated.
  predicate FromSegments(fs: seq<Frame>, sent: seq<Frame>)
  {
    forall f :: f in fs ==> exists i :: 1 <= i < |sent| && sent[i] == f
  }

  predicate AllArrived(fs: seq<Frame>, sent: seq<Frame>)
  {
    forall i :: 1 <= i < |sent| ==> sent[i] in fs
  }

  lemma ArrivedMeansCovered(late: seq<Frame>, sent: seq<Frame>, id: nat, segmentId: nat, e: OdEntry)
    requires IsTransmission(sent, id, segmentId, e) && FromSegments(late, sent)
    ensures AllArrived(late, sent) <==> Covers(late, e)
  {
    if AllArrived(late, sent) {
      forall i | 0 <= i < SegmentCount(|e.val|) ensures i in Named(late) {
        assert sent[i + 1] in late;
      }
    }
    if Covers(late, e) {
      forall i | 1 <= i < |sent| ensures sent[i] in late {
        assert i - 1 in Named(late);
        var f :| f in late && f.data[0] == i - 1;
        var j :| 1 <= j < |sent| && sent[j] == f;
        assert j == i;
      }
    }
  }

  // The two fills of the message buffer that both send loops consist of.

  method FillHead(data: array<byte>, id: nat, e: OdEntry) returns (msg: Frame)
    requires data.Length == 8
    modifies data
    ensures msg.id == id && IsHead(msg, e)
  {
    data[0] := e.index % 0x100;
    data[1] := e.index / 0x100;
    data[2] := e.subIndex;
    data[3] := |e.val|;
    var n := Min(4, |e.val|);
    forall k | 0 <= k < n {
      data[4 + k] := e.val[k];
    }
    msg := Message(id, 4 + n, data[..]);
    forall k | 4 <= k < msg.len ensures msg.data[k] == e.val[k - 4] {
      assert data[4 + (k - 4)] == e.val[k - 4];
    }
  }

  method FillSegment(data: array<byte>, id: nat, e: OdEntry, i: nat, offset: nat, dlc: nat) returns (msg: Frame)
    requires data.Length == 8 && i < SegmentCount(|e.val|)
    requires offset == 4 + 7 * i && dlc == 1 + SegmentLen(|e.val|, i)
    modifies data
    ensures msg.id == id && msg.len == dlc && IsSegment(msg, e, i)
  {
    data[0] := i;
    forall k | 0 <= k < dlc - 1 {
      data[1 + k] := e.val[offset + k];
    }
    msg := Message(id, dlc, data[..]);
    forall k | 1 <= k < dlc ensures msg.data[k] == e.val[3 + 7 * i + k] {
      assert data[1 + (k - 1)] == e.val[offset + (k - 1)];
    }
  }
}
