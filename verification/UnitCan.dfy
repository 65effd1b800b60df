/**
 The shelf unit's end of the CANExtended protocol: the single receive entry that the interrupt
 callback fills in place, and the loop that sends an entry to the controller.
 */
module UnitCan {
  import opened Bytes
  import opened TagWords
  import opened CanFrames

  // The receive entry: announced length, a buffer of 256 bytes, and the segments still missing.
  datatype RxEntry = RxEntry(index: nat, subIndex: byte, len: byte, val: seq<byte>, missing: set<nat>)

  datatype UnitEvent =
    | EntryReceived(source: nat, index: nat, subIndex: byte, val: seq<byte>)
    | SyncTriggered(index: nat, mode: byte)

  // The unit masks four bits, so the extended flag is part of its command.
  function UnitCommand(id: nat): nat
  {
    id / 0x100_0000 % 16 * 0x100_0000
  }

  // Where the source computes the position in eight bits.
  function RxIndex(i: byte): nat
  {
    (4 + i * 7) % 0x100
  }

  // Segment frames for which the source's accesses stay inside tag[2] and rxdata[0x100].
  predicate Defined(rx: RxEntry, f: Frame)
  {
    UnitCommand(f.id) == REQUEST + EXTENDED ==>
      && f.len >= 1 && f.data[0] < 64
      && (RxIndex(f.data[0]) < rx.len ==> RxIndex(f.data[0]) + f.len - 1 <= 0x100)
  }

  function Notify(rx: RxEntry, id: nat): seq<UnitEvent>
    requires |rx.val| == 0x100
  {
    [EntryReceived(SourceOf(id), rx.index, rx.subIndex, rx.val[..rx.len])]
  }

  // One callback.  Frames outside Defined are left without effect here; the method forbids them.
  function Receive(rx: RxEntry, f: Frame): (RxEntry, seq<UnitEvent>)
  {
    if |rx.val| != 0x100 || !Defined(rx, f) then (rx, [])
    else if UnitCommand(f.id) == REQUEST then
      if f.len < 4 then (rx, [])
      else
        var index, len := Word16(f.data[0], f.data[1]), f.data[3];
        if len <= 4 then
          var rx' := rx.(index := index, subIndex := f.data[2], len := len, val := Splice(rx.val, 0, f.data[4..4 + len]));
          (rx', Notify(rx', f.id))
        else
          (RxEntry(index, f.data[2], len, Splice(rx.val, 0, f.data[4..]), Below(SegmentCount(len))), [])
    else if UnitCommand(f.id) == REQUEST + EXTENDED then
      var i := f.data[0];
      var ticked := rx.(missing := rx.missing - {i as nat});
      if RxIndex(i) >= rx.len then (ticked, [])
      else
        var stored := ticked.(val := Splice(rx.val, RxIndex(i), f.data[1..f.len]));
        (stored, if stored.missing == {} then Notify(stored, f.id) else [])
    else if UnitCommand(f.id) == SYNC && f.data[3] == 0 then
      (rx, [SyncTriggered(Word16(f.data[0], f.data[1]), f.data[2])])
    else (rx, [])
  }

  // A sync frame is raised exactly if its last byte asks for a trigger.
  lemma SyncsTriggered(rx: RxEntry, f: Frame)
    requires |rx.val| == 0x100 && UnitCommand(f.id) == SYNC
    ensures Receive(rx, f) ==
            (rx, if f.data[3] == 0 then [SyncTriggered(f.data[0] as int + 0x100 * f.data[1] as int, f.data[2])] else [])
  {
  }

  // Other commands, and requests too short for a head, do nothing.
  lemma NothingForUs(rx: RxEntry, f: Frame)
    requires UnitCommand(f.id) != REQUEST + EXTENDED && UnitCommand(f.id) != SYNC
    requires UnitCommand(f.id) == REQUEST ==> f.len < 4
    ensures Receive(rx, f) == (rx, [])
  {
  }

  // A segment whose position lies behind the entry is ticked off and nothing else.
  lemma SegmentBehind(rx: RxEntry, f: Frame)
    requires |rx.val| == 0x100 && UnitCommand(f.id) == REQUEST + EXTENDED && f.len >= 1 && f.data[0] < 64
    requires (4 + 7 * f.data[0] as int) % 0x100 >= rx.len
    ensures Receive(rx, f) == (rx.(missing := rx.missing - {f.data[0] as nat}), [])
  {
  }

  // A segment whose position lies inside the entry is copied there, even beyond the entry's end; the
  // entry is raised exactly if no other segment is missing.
  lemma SegmentInside(rx: RxEntry, f: Frame)
    requires |rx.val| == 0x100 && UnitCommand(f.id) == REQUEST + EXTENDED && f.len >= 1 && f.data[0] < 64
    requires (4 + 7 * f.data[0] as int) % 0x100 < rx.len && (4 + 7 * f.data[0] as int) % 0x100 + f.len - 1 <= 0x100
    ensures var t := Receive(rx, f).0; var at := (4 + 7 * f.data[0] as int) % 0x100;
            && (forall k :: 0 <= k < 0x100 ==> t.val[k] == if at <= k < at + f.len - 1 then f.data[1 + k - at] else rx.val[k])
            && t.missing == rx.missing - {f.data[0] as nat} && t.len == rx.len
    ensures Receive(rx, f).1 != [] <==> rx.missing <= {f.data[0] as nat}
  {
    assert Defined(rx, f);
    assert rx.missing <= {f.data[0] as nat} <==> rx.missing - {f.data[0] as nat} == {};
  }

  // The position is computed in eight bits: a segment of index 36 is written over the head's bytes.
  lemma Index36Wraps(rx: RxEntry, f: Frame)
    requires |rx.val| == 0x100 && rx.len > 0 && UnitCommand(f.id) == REQUEST + EXTENDED && f.len >= 1 && f.data[0] == 36
    ensures forall k :: 0 <= k < f.len - 1 ==> Receive(rx, f).0.val[k] == f.data[1 + k]
  {
    assert Defined(rx, f);
  }

  function Receiver(rx: RxEntry, fs: seq<Frame>): (RxEntry, seq<UnitEvent>)
  {
    Run(Receive, rx, fs)
  }

  // ----- The round trip -----

  predicate Tracks(rx: RxEntry, e: OdEntry, got: set<nat>)
  {
    && rx.index == e.index && rx.subIndex == e.subIndex && rx.len == |e.val| > 4 && |rx.val| == 0x100
    && rx.missing == Below(SegmentCount(|e.val|)) - got
    && forall k :: 0 <= k < |e.val| && (k < 4 || (k - 4) / 7 in got) ==> rx.val[k] == e.val[k]
  }

  predicate IsSegmentOf(f: Frame, e: OdEntry, id: nat)
  {
    f.id == id && IsSegment(f, e, f.data[0])
  }

  lemma HeadTracks(rx: RxEntry, f: Frame, e: OdEntry)
    requires |rx.val| == 0x100 && UnitCommand(f.id) == REQUEST && IsHead(f, e) && |e.val| > 4
    ensures Receive(rx, f).1 == [] && Tracks(Receive(rx, f).0, e, {})
  {
    assert e.index / 0x100 * 0x100 + e.index % 0x100 == e.index;
    forall k | 0 <= k < 4 ensures Receive(rx, f).0.val[k] == e.val[k] {
      assert f.data[4 + k] == e.val[k];
    }
  }

  // A segment is stored where it belongs, and raises the entry iff nothing is missing after it.
  lemma SegmentTracks(rx: RxEntry, e: OdEntry, got: set<nat>, f: Frame)
    requires Tracks(rx, e, got) && UnitCommand(f.id) == REQUEST + EXTENDED && IsSegment(f, e, f.data[0])
    ensures var got' := got + {f.data[0] as nat};
            && Defined(rx, f) && Tracks(Receive(rx, f).0, e, got')
            && Receive(rx, f).1 == if Below(SegmentCount(|e.val|)) <= got'
                                   then [EntryReceived(SourceOf(f.id), e.index, e.subIndex, e.val)] else []
  {
    SegmentStored(rx, e, got, f);
    CompleteIsEntry(Receive(rx, f).0, e, got + {f.data[0] as nat});
  }

  lemma SegmentIndex(f: Frame, e: OdEntry)
    requires IsSegment(f, e, f.data[0])
    ensures RxIndex(f.data[0]) == 4 + 7 * f.data[0] as int < |e.val| && f.data[0] < 36
  {
  }

  lemma SegmentReceived(rx: RxEntry, e: OdEntry, got: set<nat>, f: Frame)
    requires Tracks(rx, e, got) && UnitCommand(f.id) == REQUEST + EXTENDED && IsSegment(f, e, f.data[0])
    ensures RxIndex(f.data[0]) == 4 + 7 * f.data[0] as int < rx.len && Defined(rx, f)
    ensures Receive(rx, f).0 ==
            rx.(missing := rx.missing - {f.data[0] as nat}, val := Splice(rx.val, 4 + 7 * f.data[0] as int, f.data[1..f.len]))
  {
    SegmentIndex(f, e);
  }

  lemma SegmentStored(rx: RxEntry, e: OdEntry, got: set<nat>, f: Frame)
    requires Tracks(rx, e, got) && UnitCommand(f.id) == REQUEST + EXTENDED && IsSegment(f, e, f.data[0])
    ensures RxIndex(f.data[0]) == 4 + 7 * f.data[0] as int < rx.len && Defined(rx, f)
    ensures Tracks(Receive(rx, f).0, e, got + {f.data[0] as nat})
  {
    var i: nat := f.data[0];
    SegmentReceived(rx, e, got, f);
    var rx' := Receive(rx, f).0;
    forall k | 0 <= k < |e.val| && (k < 4 || (k - 4) / 7 in got + {i}) ensures rx'.val[k] == e.val[k] {
      if k >= 4 {
        SegmentOfByte(|e.val|, i, k);
      }
    }
  }

  lemma CompleteIsEntry(rx: RxEntry, e: OdEntry, got: set<nat>)
    requires Tracks(rx, e, got)
    ensures rx.missing == {} <==> Below(SegmentCount(|e.val|)) <= got
    ensures rx.missing == {} ==> rx.val[..rx.len] == e.val
  {
    assert rx.missing == {} <==> Below(SegmentCount(|e.val|)) <= got;
    if rx.missing == {} {
      forall k | 0 <= k < |e.val| ensures rx.val[k] == e.val[k] {
        if k >= 4 {
          SegmentOfByte(|e.val|, 0, k);
        }
      }
    }
  }

  // One delivery for every segment frame at which the entry is, or already was, complete.
  function Deliveries(segments: seq<Frame>, source: nat, e: OdEntry): seq<UnitEvent>
  {
    if segments == [] then []
    else
      Deliveries(segments[..|segments| - 1], source, e)
      + if Covers(segments, e) then [EntryReceived(source, e.index, e.subIndex, e.val)] else []
  }

  lemma {:induction false} SegmentsDelivered(rx: RxEntry, e: OdEntry, fs: seq<Frame>, id: nat)
    requires Tracks(rx, e, {}) && UnitCommand(id) == REQUEST + EXTENDED
    requires forall f :: f in fs ==> IsSegmentOf(f, e, id)
    ensures Tracks(Receiver(rx, fs).0, e, Named(fs))
    ensures Receiver(rx, fs).1 == Deliveries(fs, SourceOf(id), e)
    decreases |fs|
  {
    if fs == [] {
      assert Named(fs) == {};
    } else {
      var n := |fs| - 1;
      assert fs == fs[..n] + [fs[n]];
      forall f | f in fs[..n] ensures IsSegmentOf(f, e, id) {
        assert f in fs;
      }
      SegmentsDelivered(rx, e, fs[..n], id);
      RunSnoc(Receive, rx, fs[..n], fs[n]);
      assert fs[n] in fs;
      SegmentTracks(Receiver(rx, fs[..n]).0, e, Named(fs[..n]), fs[n]);
      assert Named(fs) == Named(fs[..n]) + {fs[n].data[0] as nat};
      assert Covers(fs, e) <==> Below(SegmentCount(|e.val|)) <= Named(fs);
    }
  }

  lemma {:induction false} NothingBeforeCovered(segments: seq<Frame>, source: nat, e: OdEntry)
    requires !Covers(segments, e)
    ensures Deliveries(segments, source, e) == []
    decreases |segments|
  {
    if segments != [] {
      var before := segments[..|segments| - 1];
      forall i | i in Named(before) ensures i in Named(segments) {}
      NothingBeforeCovered(before, source, e);
    }
  }

  // A run of the head and then segments, in any order and multiplicity.
  lemma RequestAlone(rx: RxEntry, fs: seq<Frame>, e: OdEntry, id: nat, segmentId: nat)
    requires |rx.val| == 0x100 && |e.val| > 4 && |fs| >= 2
    requires UnitCommand(id) == REQUEST && UnitCommand(segmentId) == REQUEST + EXTENDED
    requires fs[0].id == id && IsHead(fs[0], e)
    requires forall f :: f in fs[1..] ==> IsSegmentOf(f, e, segmentId)
    ensures Receiver(rx, fs).1 == Deliveries(fs[1..], SourceOf(segmentId), e)
    ensures !Covers(fs[1..], e) ==> Receiver(rx, fs).1 == []
    ensures Covers(fs[1..], e) && !Covers(fs[1..|fs| - 1], e) ==>
              Receiver(rx, fs).1 == [EntryReceived(SourceOf(segmentId), e.index, e.subIndex, e.val)]
  {
    HeadTracks(rx, fs[0], e);
    SegmentsDelivered(Receive(rx, fs[0]).0, e, fs[1..], segmentId);
    assert Receiver(rx, fs).1 == [] + Receiver(Receive(rx, fs[0]).0, fs[1..]).1;
    assert fs[1..][..|fs| - 2] == fs[1..|fs| - 1];
    if !Covers(fs[1..], e) {
      NothingBeforeCovered(fs[1..], SourceOf(segmentId), e);
    } else if !Covers(fs[1..|fs| - 1], e) {
      NothingBeforeCovered(fs[1..|fs| - 1], SourceOf(segmentId), e);
    }
  }

  // ----- Amid other traffic -----

  // Frames the receive entry depends on.
  predicate IsRequest(f: Frame)
  {
    (UnitCommand(f.id) == REQUEST && f.len >= 4) || UnitCommand(f.id) == REQUEST + EXTENDED
  }

  function Requests(fs: seq<Frame>): seq<Frame>
  {
    if fs == [] then [] else (if IsRequest(fs[0]) then [fs[0]] else []) + Requests(fs[1..])
  }

  function Entries(es: seq<UnitEvent>): seq<UnitEvent>
  {
    if es == [] then [] else (if es[0].EntryReceived? then [es[0]] else []) + Entries(es[1..])
  }

  lemma {:induction false} EntriesConcat(a: seq<UnitEvent>, b: seq<UnitEvent>)
    ensures Entries(a + b) == Entries(a) + Entries(b)
  {
    if a == [] {
      assert a + b == b;
    } else {
      EntriesConcat(a[1..], b);
      assert (a + b)[1..] == a[1..] + b && (a + b)[0] == a[0];
      var first := if a[0].EntryReceived? then [a[0]] else [];
      assert first + (Entries(a[1..]) + Entries(b)) == first + Entries(a[1..]) + Entries(b);
    }
  }

  lemma OneFrame(rx: RxEntry, f: Frame)
    ensures if IsRequest(f) then Entries(Receive(rx, f).1) == Receive(rx, f).1
            else Receive(rx, f).0 == rx && Entries(Receive(rx, f).1) == []
  {
    var es := Receive(rx, f).1;
    assert Entries([]) == [];
    if es != [] {
      assert es == [es[0]];
      assert Entries(es) == (if es[0].EntryReceived? then [es[0]] else []) + Entries([]);
    }
  }

  // Syncs, heartbeats, responses and broadcasts change neither the receive entry nor the entries
  // that are raised.
  lemma {:induction false} OnlyRequestsMatter(rx: RxEntry, fs: seq<Frame>)
    ensures Receiver(rx, fs).0 == Receiver(rx, Requests(fs)).0
    ensures Entries(Receiver(rx, fs).1) == Receiver(rx, Requests(fs)).1
    decreases |fs|
  {
    if fs != [] {
      var f, rest := fs[0], fs[1..];
      var first := Receive(rx, f);
      OneFrame(rx, f);
      OnlyRequestsMatter(first.0, rest);
      assert fs == [f] + rest;
      RunCons(Receive, rx, f, rest);
      EntriesConcat(first.1, Receiver(first.0, rest).1);
      if IsRequest(f) {
        RunCons(Receive, rx, f, Requests(rest));
      } else {
        assert [] + Requests(rest) == Requests(rest);
        assert [] + Receiver(rx, Requests(rest)).1 == Receiver(rx, Requests(rest)).1;
      }
    }
  }

  // Main result.  Among the requests on the bus are the head of an entry and then segments of it,
  // in any order and multiplicity, amid any other traffic: the unit raises the entry for the first
  // time with the segment that completes it, unchanged.
  lemma RoundTrip(rx: RxEntry, fs: seq<Frame>, e: OdEntry, id: nat, segmentId: nat)
    requires |rx.val| == 0x100 && |e.val| > 4
    requires UnitCommand(id) == REQUEST && UnitCommand(segmentId) == REQUEST + EXTENDED
    requires var rs := Requests(fs);
             |rs| >= 2 && rs[0].id == id && IsHead(rs[0], e) && forall f :: f in rs[1..] ==> IsSegmentOf(f, e, segmentId)
    ensures var rs := Requests(fs); var raised := Entries(Receiver(rx, fs).1);
            && raised == Deliveries(rs[1..], SourceOf(segmentId), e)
            && (!Covers(rs[1..], e) ==> raised == [])
            && (Covers(rs[1..], e) && !Covers(rs[1..|rs| - 1], e) ==>
                  raised == [EntryReceived(SourceOf(segmentId), e.index, e.subIndex, e.val)])
  {
    OnlyRequestsMatter(rx, fs);
    RequestAlone(rx, Requests(fs), e, id, segmentId);
  }

  // Both ends together: a request of the controller is first raised by the frame that completes
  // the arrived segments, as it was sent.
  lemma RequestArrives(rx: RxEntry, sent: seq<Frame>, fs: seq<Frame>, controller: nat, unit: nat, e: OdEntry)
    requires |rx.val| == 0x100 && |e.val| > 4
    requires IsTransmission(sent, MakeId(REQUEST, controller, unit), MakeId(REQUEST, controller, unit) + EXTENDED, e)
    requires var rs := Requests(fs); |rs| >= 2 && rs[0] == sent[0] && FromSegments(rs[1..], sent)
    ensures var rs := Requests(fs); var raised := Entries(Receiver(rx, fs).1);
            && (!AllArrived(rs[1..], sent) ==> raised == [])
            && (AllArrived(rs[1..], sent) && !AllArrived(rs[1..|rs| - 1], sent) ==>
                  raised == [EntryReceived(controller % 0x1000, e.index, e.subIndex, e.val)])
  {
    var id := MakeId(REQUEST, controller, unit);
    var rs := Requests(fs);
    RequestIds(controller, unit);
    SegmentsOf(rs[1..], sent, id, id + EXTENDED, e);
    ArrivedMeansCovered(rs[1..], sent, id, id + EXTENDED, e);
    forall f | f in rs[1..|rs| - 1] ensures f in rs[1..] {}
    ArrivedMeansCovered(rs[1..|rs| - 1], sent, id, id + EXTENDED, e);
    RoundTrip(rx, fs, e, id, id + EXTENDED);
  }

  lemma SegmentsOf(late: seq<Frame>, sent: seq<Frame>, id: nat, segmentId: nat, e: OdEntry)
    requires IsTransmission(sent, id, segmentId, e) && FromSegments(late, sent)
    ensures forall f :: f in late ==> IsSegmentOf(f, e, segmentId)
  {
    forall f | f in late ensures IsSegmentOf(f, e, segmentId) {
      var i :| 1 <= i < |sent| && sent[i] == f;
    }
  }

  lemma ShortEntry(rx: RxEntry, f: Frame, e: OdEntry)
    requires |rx.val| == 0x100 && |e.val| <= 4 && IsHead(f, e) && UnitCommand(f.id) == REQUEST
    ensures Receive(rx, f).1 == [EntryReceived(SourceOf(f.id), e.index, e.subIndex, e.val)]
  {
    assert e.index / 0x100 * 0x100 + e.index % 0x100 == e.index;
    var rx' := Receive(rx, f).0;
    assert rx'.val[..rx'.len] == e.val;
  }

  // The identifiers the controller's requests carry are the ones the callback listens to.
  lemma RequestIds(source: nat, target: nat)
    ensures var id := MakeId(REQUEST, source, target);
            && UnitCommand(id) == REQUEST && UnitCommand(id + EXTENDED) == REQUEST + EXTENDED
            && SourceOf(id) == SourceOf(id + EXTENDED) == source % 0x1000
  {
    IdFields(REQUEST, source, target);
    var id := MakeId(REQUEST, source, target);
    assert id / 0x100_0000 == 1;
    assert (id + EXTENDED) / 0x100_0000 == 9;
  }

  lemma HeadReceived(rx: RxEntry, f: Frame, headed: RxEntry)
    requires |rx.val| == 0x100 && UnitCommand(f.id) == REQUEST && f.len >= 4
    requires var len := f.data[3];
             headed == RxEntry(Word16(f.data[0], f.data[1]), f.data[2], len, Splice(rx.val, 0, f.data[4..4 + Min(len, 4)]),
                                if len <= 4 then rx.missing else Below(SegmentCount(len)))
    ensures Receive(rx, f) == (headed, if f.data[3] <= 4 then Notify(headed, f.id) else [])
  {
    assert f.data[4..8] == f.data[4..];
  }

  // ----- The firmware's own code -----

  class Unit {
    var nodeId: nat
    var index: nat
    var subIndex: byte
    var len: byte
    var tag: array<bv32>
    var rxdata: array<byte>

    ghost predicate Valid()
      reads this, tag, rxdata
    {
      tag.Length == 2 && rxdata.Length == 0x100
    }

    ghost function Contents(): RxEntry
      requires Valid()
      reads this, tag, rxdata
    {
      RxEntry(index, subIndex, len, rxdata[..], Missing(tag[..]))
    }

    method CAN_rx(f: Frame) returns (events: seq<UnitEvent>)
      requires Valid() && Defined(Contents(), f)
      modifies this`index, this`subIndex, this`len, tag, rxdata
      ensures Valid() && (Contents(), events) == Receive(old(Contents()), f)
    {
      events := [];
      var command := UnitCommand(f.id);
      if command == REQUEST {
        if f.len >= 4 {
          events := OpenEntry(f);
        }
      } else if command == REQUEST + EXTENDED {
        events := ContinueEntry(f);
      } else if command == SYNC {
        if f.data[3] == 0 {
          events := [SyncTriggered(Word16(f.data[0], f.data[1]), f.data[2])];
        }
      }
    }

    // case COMMAND_REQUEST
    method OpenEntry(f: Frame) returns (events: seq<UnitEvent>)
      requires Valid() && UnitCommand(f.id) == REQUEST && f.len >= 4
      modifies this`index, this`subIndex, this`len, tag, rxdata
      ensures Valid() && (Contents(), events) == Receive(old(Contents()), f)
    {
      StoreHead(f);
      if len <= 4 {
        assert tag[..] == old(tag[..]);
        HeadReceived(old(Contents()), f, Contents());
        return [EntryReceived(SourceOf(f.id), index, subIndex, rxdata[..len])];
      }
      var seg := CountSegments(len);
      SetTags(seg);
      HeadReceived(old(Contents()), f, Contents());
      return [];
    }

    method StoreHead(f: Frame)
      requires Valid() && f.len >= 4
      modifies this`index, this`subIndex, this`len, rxdata
      ensures Valid() && index == Word16(f.data[0], f.data[1]) && subIndex == f.data[2] && len == f.data[3]
      ensures rxdata[..] == Splice(old(rxdata[..]), 0, f.data[4..4 + Min(len, 4)])
    {
      index := Word16(f.data[0], f.data[1]);
      subIndex := f.data[2];
      len := f.data[3];
      CopyIn(0, f.data[4..4 + Min(len, 4)]);
    }

    // case COMMAND_REQUEST | COMMAND_EXTENDED
    method ContinueEntry(f: Frame) returns (events: seq<UnitEvent>)
      requires Valid() && UnitCommand(f.id) == REQUEST + EXTENDED && Defined(Contents(), f)
      modifies tag, rxdata
      ensures Valid() && (Contents(), events) == Receive(old(Contents()), f)
    {
      events := [];
      Tick(f.data[0]);
      var i: int := f.data[0];
      var rxIndex := (4 + i * 7) % 0x100;
      if rxIndex < len {
        CopyIn(rxIndex, f.data[1..f.len]);
        var complete := AllTicked();
        if complete {
          events := [EntryReceived(SourceOf(f.id), index, subIndex, rxdata[..len])];
        }
      }
    }

    method AllTicked() returns (complete: bool)
      requires Valid()
      ensures complete <==> Missing(tag[..]) == {}
    {
      NothingMissing(tag[..]);
      assert tag[..] == [tag[0], tag[1]];
      complete := tag[0] == 0xffffffff && tag[1] == 0xffffffff;
    }

    method CopyIn(at: nat, src: seq<byte>)
      requires Valid() && at + |src| <= 0x100
      modifies rxdata
      ensures rxdata[..] == Splice(old(rxdata[..]), at, src)
    {
      forall k | 0 <= k < |src| {
        rxdata[at + k] := src[k];
      }
    }

    method Tick(i: byte)
      requires Valid() && i < 64
      modifies tag
      ensures Missing(tag[..]) == old(Missing(tag[..])) - {i as nat}
    {
      TickOff(tag[..], i);
      tag[i / 32] := With(tag[i / 32], i % 32);
      assert tag[..] == old(tag[..])[i / 32 := With(old(tag[i / 32]), i % 32)];
    }

    method SetTags(seg: nat)
      requires Valid() && seg <= 64
      modifies tag
      ensures Missing(tag[..]) == Below(seg)
    {
      tag[0], tag[1] := 0xffffffff, 0xffffffff;
      assert tag[..] == [0xffffffff, 0xffffffff];
      NothingMissing(tag[..]);
      for i := 0 to seg
        invariant Missing(tag[..]) == Below(i)
      {
        ghost var was := tag[..];
        MarkMissing(was, i);
        tag[i / 32] := Without(tag[i / 32], i % 32);
        assert tag[..] == was[i / 32 := Without(was[i / 32], i % 32)];
      }
    }

    // The head carries the source the caller asked for, the segments always this node's own.
    method CANTransmit(command: nat, targetId: nat, entry: OdEntry, sourceId: nat) returns (sent: seq<Frame>)
      modifies this`nodeId
      ensures nodeId == old(nodeId) % 0x1000
      ensures IsTransmission(sent, MakeId(command, if sourceId == 0xffff then nodeId else sourceId, targetId),
                             MakeId(command, nodeId, targetId) + EXTENDED, entry)
    {
      nodeId := nodeId % 0x1000;
      var segmentId := MakeId(command, nodeId, targetId) + EXTENDED;
      var data := new byte[8](_ => 0);
      var msg := FillHead(data, MakeId(command, if sourceId == 0xffff then nodeId else sourceId, targetId), entry);
      ghost var msg' := msg;
      sent := [msg];
      var len: byte := |entry.val|;
      if len <= 4 {
        return;
      }
      var segment: byte := (len - 4) / 7;
      var remainder: byte := (len - 4) % 7;
      var offset: byte := 4;
      if remainder != 0 {
        segment := segment + 1;
      }
      for i: byte := 0 to segment
        invariant nodeId == old(nodeId) % 0x1000 && |sent| == 1 + i && offset == Min(4 + 7 * i, len)
        invariant sent[0] == msg' && forall j :: 1 <= j < |sent| ==> sent[j].id == segmentId && IsSegment(sent[j], entry, j - 1)
      {
        var dlc := if i < segment - 1 || remainder == 0 then 8 else remainder + 1;
        msg := FillSegment(data, segmentId, entry, i, offset, dlc);
        sent := sent + [msg];
        offset := offset + (dlc - 1);
      }
    }
  }
}
