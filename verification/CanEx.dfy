/**
 The controller's CAN node: one RxStruct per source whose entry is incomplete, changed in place
 as frames arrive, and the loop that sends an entry.
 */
module CanEx {
  import opened Bytes
  import opened TagWords
  import opened CanFrames
  import opened CanReassembly

  class RxStruct {
    const index: nat
    const subIndex: byte
    var val: seq<byte>
    var tag: seq<bv32>
    ghost const source: nat          // the table slot this object was made for
    ghost var Contents: Partial      // what the fields stand for

    ghost predicate Valid()
      reads this
    {
      |tag| == 2 && 4 < |val| <= 255 && Contents == Partial(index, subIndex, val, Missing(tag))
    }

    // Everything is present except the segments announced by the length.
    constructor (index: nat, subIndex: byte, val: seq<byte>, ghost source: nat)
      requires 4 < |val| <= 255
      ensures Valid() && Contents == Partial(index, subIndex, val, Below(SegmentCount(|val|)))
      ensures this.source == source
    {
      var seg := CountSegments(|val|);
      var words := FirstTags(seg);
      this.index := index;
      this.subIndex := subIndex;
      this.val := val;
      this.tag := words;
      this.source := source;
      this.Contents := Partial(index, subIndex, val, Missing(words));
    }

    // memset to all ones, then one bit cleared per segment.
    static method FirstTags(seg: nat) returns (tag: seq<bv32>)
      requires seg <= 64
      ensures |tag| == 2 && Missing(tag) == Below(seg)
    {
      tag := [0xffffffff, 0xffffffff];
      NothingMissing(tag);
      for i := 0 to seg
        invariant |tag| == 2 && Missing(tag) == Below(i)
      {
        MarkMissing(tag, i);
        tag := tag[i / 32 := Without(tag[i / 32], i % 32)];
      }
    }

    method SetSegment(segmentIndex: byte, data: seq<byte>)
      requires Valid()
      modifies this
      ensures Valid() && Contents == Accept(old(Contents), segmentIndex, data)
    {
      var pos := 4 + segmentIndex * 7;
      if pos + |data| > |val| {
        return;
      }
      val := Splice(val, pos, data);
      TickOff(tag, segmentIndex);
      tag := tag[segmentIndex / 32 := With(tag[segmentIndex / 32], segmentIndex % 32)];
      Contents := Partial(index, subIndex, val, Missing(tag));
    }

    method IsComplete() returns (complete: bool)
      requires Valid()
      ensures complete <==> Contents.missing == {}
    {
      NothingMissing(tag);
      for i := 0 to 2
        invariant forall j :: 0 <= j < i ==> tag[j] == 0xffffffff
      {
        if tag[i] != 0xffffffff {
          return false;
        }
      }
      assert tag == [0xffffffff, 0xffffffff];
      return true;
    }
  }

  class CanEx {
    const deviceId: nat
    var devices: set<nat>            // the keys of DeviceNetwork
    var heartbeats: bool             // a heartbeat handler is bound
    var rxTable: map<nat, RxStruct>

    ghost var Contents: Table        // what rxTable stands for

    ghost predicate Valid()
      reads this, rxTable.Values
    {
      && Contents.Keys == rxTable.Keys
      && forall s :: s in rxTable ==>
           rxTable[s].source == s && rxTable[s].Valid() && Contents[s] == rxTable[s].Contents
    }

    ghost function Configuration(): Config
      reads this
    {
      Config(deviceId, devices, heartbeats)
    }

    constructor (id: nat)
      requires id < 0x1000
      ensures Valid() && Contents == map[] && Configuration() == Config(id, {}, false)
    {
      deviceId := id;
      devices := {};
      heartbeats := false;
      rxTable, Contents := map[], map[];
    }

    method MessageReceiver(f: Frame) returns (events: seq<Event>)
      requires Valid()
      modifies this`rxTable, this`Contents, rxTable.Values
      ensures Valid() && fresh(rxTable.Values - old(rxTable.Values))
      ensures (Contents, events) == Receive(Configuration(), old(Contents), f)
    {
      events := [];
      if TargetOf(f.id) != deviceId && TargetOf(f.id) != 0 {
        return;
      }
      var sourceId := SourceOf(f.id);
      var command := CommandOf(f.id);
      if command == REQUEST || command == RESPONSE || command == BROADCAST {
        if IsExtended(f.id) {
          events := SegmentReceiver(command, sourceId, f);
        } else if f.len >= 4 {
          events := HeadReceiver(command, sourceId, f);
        }
      } else if command == HEARTBEAT && heartbeats {
        events := [HeartbeatArrived(sourceId, f.data, f.len)];
      }
    }

    // The branch of MessageReceiver for frames that open an entry.
    method HeadReceiver(command: nat, sourceId: nat, f: Frame) returns (events: seq<Event>)
      requires Valid() && f.len >= 4
      modifies this`rxTable, this`Contents
      ensures Valid() && fresh(rxTable.Values - old(rxTable.Values))
      ensures if f.data[3] <= 4 then
                && Contents == old(Contents)
                && events == Raise(Configuration(), command, sourceId, Word16(f.data[0], f.data[1]), f.data[2],
                                   f.data[4..4 + f.data[3]])
              else
                && events == []
                && Contents == if sourceId in old(rxTable) then old(Contents)
                                 else old(Contents)[sourceId := Begin(f)]
    {
      events := [];
      var rxData := NewEntry(f);
      if f.data[3] <= 4 {
        events := Deliver(command, sourceId, Word16(f.data[0], f.data[1]), f.data[2], rxData);
      } else if sourceId !in rxTable {
        OpenEntry(sourceId, f, rxData);
      }
    }

    method OpenEntry(sourceId: nat, f: Frame, rxData: seq<byte>)
      requires Valid() && sourceId !in rxTable && f.data[3] > 4 && rxData == f.data[4..] + Zeros(f.data[3] - 4)
      modifies this`rxTable, this`Contents
      ensures Valid() && fresh(rxTable.Values - old(rxTable.Values))
      ensures Contents == old(Contents)[sourceId := Begin(f)]
    {
      var rx := new RxStruct(Word16(f.data[0], f.data[1]), f.data[2], rxData, sourceId);
      assert rx.Contents == Begin(f);
      Insert(sourceId, rx);
    }

    // A zeroed buffer of the announced length with the bytes of the head frame.
    static method NewEntry(f: Frame) returns (rxData: seq<byte>)
      ensures rxData == if f.data[3] <= 4 then f.data[4..4 + f.data[3]] else f.data[4..] + Zeros(f.data[3] - 4)
    {
      rxData := Splice(Zeros(f.data[3]), 0, f.data[4..4 + Min(f.data[3], 4)]);
    }

    method Insert(sourceId: nat, rx: RxStruct)
      requires Valid() && rx.Valid() && rx.source == sourceId && sourceId !in rxTable
      modifies this`rxTable, this`Contents
      ensures Valid() && rxTable == old(rxTable)[sourceId := rx]
      ensures Contents == old(Contents)[sourceId := rx.Contents]
    {
      rxTable := rxTable[sourceId := rx];
      Contents := Contents[sourceId := rx.Contents];
    }

    method Store(sourceId: nat, f: Frame)
      requires Valid() && sourceId in rxTable
      modifies this`Contents, rxTable[sourceId]
      ensures Valid()
      ensures Contents == old(Contents)[sourceId := Accept(old(Contents)[sourceId], f.data[0], SegmentData(f))]
    {
      var rx := rxTable[sourceId];
      rx.SetSegment(f.data[0], SegmentData(f));
      Contents := Contents[sourceId := rx.Contents];
    }

    method Remove(sourceId: nat)
      requires Valid() && sourceId in rxTable
      modifies this`rxTable, this`Contents
      ensures Valid() && rxTable == old(rxTable) - {sourceId}
      ensures Contents == old(Contents) - {sourceId}
    {
      rxTable := rxTable - {sourceId};
      Contents := Contents - {sourceId};
    }

    // The branch of MessageReceiver for frames that continue one.
    method SegmentReceiver(command: nat, sourceId: nat, f: Frame) returns (events: seq<Event>)
      requires Valid()
      modifies this`rxTable, this`Contents, rxTable.Values
      ensures Valid() && rxTable.Values <= old(rxTable.Values)
      ensures if sourceId !in old(rxTable) then Contents == old(Contents) && events == []
              else
                var p := Accept(old(Contents)[sourceId], f.data[0], SegmentData(f));
                if p.missing == {} then
                  && Contents == old(Contents) - {sourceId}
                  && events == Raise(Configuration(), command, sourceId, p.index, p.subIndex, p.val)
                else
                  Contents == old(Contents)[sourceId := p] && events == []
    {
      events := [];
      if sourceId in rxTable {
        Store(sourceId, f);
        events := Conclude(command, sourceId);
      }
    }

    // Delivers the entry under reassembly if it is complete.
    method Conclude(command: nat, sourceId: nat) returns (events: seq<Event>)
      requires Valid() && sourceId in rxTable
      modifies this`rxTable, this`Contents
      ensures Valid() && rxTable.Values <= old(rxTable.Values)
      ensures var p := old(Contents)[sourceId];
              if p.missing == {} then
                && Contents == old(Contents) - {sourceId}
                && events == Raise(Configuration(), command, sourceId, p.index, p.subIndex, p.val)
              else
                Contents == old(Contents) && events == []
    {
      events := [];
      var rx := rxTable[sourceId];
      var complete := rx.IsComplete();
      if complete {
        events := Deliver(command, sourceId, rx.index, rx.subIndex, rx.val);
        Remove(sourceId);
      }
    }

    method Deliver(command: nat, sourceId: nat, index: nat, subIndex: byte, val: seq<byte>) returns (events: seq<Event>)
      ensures events == Raise(Configuration(), command, sourceId, index, subIndex, val)
      ensures sourceId in devices && command == RESPONSE ==> events == [ResponseReceived(sourceId, index, subIndex, val)]
      ensures sourceId in devices && command == BROADCAST ==> events == [ProcessReceived(sourceId, index, subIndex, val)]
      ensures sourceId !in devices || (command != RESPONSE && command != BROADCAST) ==> events == []
    {
      events := [];
      if sourceId in devices {
        if command == RESPONSE {
          events := [ResponseReceived(sourceId, index, subIndex, val)];
        } else if command == BROADCAST {
          events := [ProcessReceived(sourceId, index, subIndex, val)];
        }
      }
    }

    method Transmit(command: nat, targetId: nat, entry: OdEntry) returns (sent: seq<Frame>)
      ensures IsTransmission(sent, MakeId(command, deviceId, targetId), MakeId(command, deviceId, targetId) + EXTENDED, entry)
    {
      var id := MakeId(command, deviceId, targetId);
      var entryLen := |entry.val|;
      var data := new byte[8](_ => 0);
      var msg := FillHead(data, id, entry);
      sent := [msg];
      if entryLen <= 4 {
        return;
      }
      var segment := (entryLen - 4) / 7;
      var remainder := (entryLen - 4) % 7;
      var offset := 4;
      if remainder != 0 {
        segment := segment + 1;
      }
      for i := 0 to segment
        invariant |sent| == 1 + i && offset == Min(4 + 7 * i, entryLen)
        invariant sent[0].id == id && IsHead(sent[0], entry)
        invariant forall j :: 1 <= j < |sent| ==> sent[j].id == id + EXTENDED && IsSegment(sent[j], entry, j - 1)
      {
        var len := if i < segment - 1 || remainder == 0 then 8 else remainder + 1;
        msg := FillSegment(data, id + EXTENDED, entry, i, offset, len);
        offset := offset + len - 1;
        sent := sent + [msg];
      }
    }
  }
}
