/**
 The controller rebuilds what a unit sent, whatever else is on the bus: segments may come in any
 order and more than once, between frames of other sources, short entries, syncs and heartbeats.
 */
module CanRoundTrip {
  import opened Bytes
  import opened CanFrames
  import opened CanReassembly

  // Frames that can start or continue the reassembly of a source's entry.
  predicate Concerns(cfg: Config, f: Frame, source: nat)
  {
    && SourceOf(f.id) == source
    && (TargetOf(f.id) == cfg.deviceId || TargetOf(f.id) == 0)
    && CarriesEntry(CommandOf(f.id))
    && (IsExtended(f.id) || (f.len >= 4 && f.data[3] > 4))
  }

  function Heard(cfg: Config, fs: seq<Frame>, source: nat): seq<Frame>
  {
    if fs == [] then []
    else (if Concerns(cfg, fs[0], source) then [fs[0]] else []) + Heard(cfg, fs[1..], source)
  }

  predicate IsLong(event: Event, source: nat)
  {
    event.source == source && !event.HeartbeatArrived? && |event.val| > 4
  }

  function LongEvents(es: seq<Event>, source: nat): seq<Event>
  {
    if es == [] then []
    else (if IsLong(es[0], source) then [es[0]] else []) + LongEvents(es[1..], source)
  }

  // Only long entries are ever under reassembly.
  predicate TableOk(table: Table)
  {
    forall s :: s in table ==> |table[s].val| > 4
  }

  // p holds the head of e and exactly the segments in got.
  predicate Tracks(p: Partial, e: OdEntry, got: set<nat>)
  {
    && p.index == e.index && p.subIndex == e.subIndex && |p.val| == |e.val| && |e.val| > 4
    && p.missing == Below(SegmentCount(|e.val|)) - got
    && forall k :: 0 <= k < |e.val| && (k < 4 || (k - 4) / 7 in got) ==> p.val[k] == e.val[k]
  }

  predicate IsSegmentOf(f: Frame, e: OdEntry)
  {
    IsSegment(f, e, f.data[0])
  }

  lemma BeginTracks(f: Frame, e: OdEntry)
    requires IsHead(f, e) && |e.val| > 4
    ensures Tracks(Begin(f), e, {})
  {
    assert e.index / 0x100 * 0x100 + e.index % 0x100 == e.index;
    forall k | 0 <= k < 4 ensures Begin(f).val[k] == e.val[k] {
      assert f.data[4 + k] == e.val[k];
    }
  }

  lemma AcceptTracks(p: Partial, e: OdEntry, got: set<nat>, f: Frame)
    requires Tracks(p, e, got) && IsSegmentOf(f, e)
    ensures SegmentData(f) == e.val[4 + 7 * f.data[0]..4 + 7 * f.data[0] + SegmentLen(|e.val|, f.data[0])]
    ensures Tracks(Accept(p, f.data[0], SegmentData(f)), e, got + {f.data[0] as nat})
  {
    var i: nat := f.data[0];
    var q := Accept(p, i, SegmentData(f));
    forall k | 0 <= k < |e.val| && (k < 4 || (k - 4) / 7 in got + {i}) ensures q.val[k] == e.val[k] {
      if k >= 4 {
        SegmentOfByte(|e.val|, i, k);
      }
    }
  }

  lemma CompleteIsEntry(p: Partial, e: OdEntry, got: set<nat>)
    requires Tracks(p, e, got)
    ensures p.missing == {} <==> Below(SegmentCount(|e.val|)) <= got
    ensures p.missing == {} ==> p.val == e.val
  {
    assert p.missing == {} <==> Below(SegmentCount(|e.val|)) <= got;
    if p.missing == {} {
      forall k | 0 <= k < |e.val| ensures p.val[k] == e.val[k] {
        if k >= 4 {
          SegmentOfByte(|e.val|, 0, k);
        }
      }
    }
  }

  // Once the entry has been delivered, late duplicates of its segments raise nothing.
  lemma {:induction false} LateSegments(cfg: Config, fs: seq<Frame>)
    requires forall f :: f in fs ==> IsExtended(f.id) && CarriesEntry(CommandOf(f.id))
    ensures Receiver(cfg, map[], fs) == (map[], [])
  {
    if fs != [] {
      assert fs[0] in fs;
      RunHead(cfg, map[], fs);
      LateSegments(cfg, fs[1..]);
      var none: seq<Event> := [];
      assert Receive(cfg, map[], fs[0]) == (map[], none);
      assert none + none == none;
    }
  }

  // Any run of segments completes the entry exactly when it names all that were missing.
  lemma {:induction false} SegmentsComplete(cfg: Config, p: Partial, fs: seq<Frame>, source: nat, command: nat,
                                            e: OdEntry, got: set<nat>)
    requires Tracks(p, e, got) && p.missing != {} && CarriesEntry(command)
    requires forall f :: f in fs ==> Concerns(cfg, f, source) && IsExtended(f.id) && CommandOf(f.id) == command
    requires forall f :: f in fs ==> IsSegmentOf(f, e)
    ensures Receiver(cfg, map[source := p], fs).1 ==
            if Below(SegmentCount(|e.val|)) <= got + Named(fs)
            then Raise(cfg, command, source, e.index, e.subIndex, e.val) else []
    ensures Below(SegmentCount(|e.val|)) <= got + Named(fs) ==> Receiver(cfg, map[source := p], fs).0 == map[]
    decreases fs
  {
    CompleteIsEntry(p, e, got);
    if fs == [] {
      assert got + Named(fs) == got;
    } else {
      var f := fs[0];
      var table := map[source := p];
      assert f in fs;
      AcceptTracks(p, e, got, f);
      var q := Accept(p, f.data[0], SegmentData(f));
      var got' := got + {f.data[0] as nat};
      CompleteIsEntry(q, e, got');
      assert got + Named(fs) == got' + Named(fs[1..]);
      RunHead(cfg, table, fs);
      if q.missing == {} {
        assert Receive(cfg, table, f) == (map[], Raise(cfg, command, source, e.index, e.subIndex, e.val));
        LateSegments(cfg, fs[1..]);
      } else {
        assert Receive(cfg, table, f).0 == map[source := q];
        SegmentsComplete(cfg, q, fs[1..], source, command, e, got');
      }
    }
  }

  // Frames that do not concern the reassembly of source leave it, and its long events, alone.
  lemma {:induction false} OnlyHeardMatters(cfg: Config, table: Table, fs: seq<Frame>, source: nat)
    requires TableOk(table)
    ensures LongEvents(Receiver(cfg, table, fs).1, source)
            == Receiver(cfg, Slot(table, source), Heard(cfg, fs, source)).1
    ensures Slot(Receiver(cfg, table, fs).0, source) == Receiver(cfg, Slot(table, source), Heard(cfg, fs, source)).0
    decreases fs
  {
    if fs != [] {
      var f := fs[0];
      var first := Receive(cfg, table, f);
      var heard := Heard(cfg, fs, source);
      HeardFrame(cfg, table, f, source);
      OnlyHeardMatters(cfg, first.0, fs[1..], source);
      RunHead(cfg, table, fs);
      LongEventsConcat(first.1, Receiver(cfg, first.0, fs[1..]).1, source);
      if Concerns(cfg, f, source) {
        assert heard == [f] + Heard(cfg, fs[1..], source);
        RunHead(cfg, Slot(table, source), heard);
      } else {
        assert heard == Heard(cfg, fs[1..], source);
      }
    }
  }

  lemma HeardFrame(cfg: Config, table: Table, f: Frame, source: nat)
    requires TableOk(table)
    ensures var shared := Receive(cfg, table, f);
            var alone := Receive(cfg, Slot(table, source), f);
            && TableOk(shared.0)
            && (if Concerns(cfg, f, source)
                then LongEvents(shared.1, source) == alone.1 && Slot(shared.0, source) == alone.0
                else LongEvents(shared.1, source) == [] && Slot(shared.0, source) == Slot(table, source))
  {
    var shared := Receive(cfg, table, f);
    if shared.1 != [] {
      assert |shared.1| == 1 && shared.1[0].source == SourceOf(f.id);
      assert shared.1 == [shared.1[0]];
      assert LongEvents(shared.1, source) == (if IsLong(shared.1[0], source) then shared.1 else []);
    }
  }

  lemma {:induction false} LongEventsConcat(a: seq<Event>, b: seq<Event>, source: nat)
    ensures LongEvents(a + b, source) == LongEvents(a, source) + LongEvents(b, source)
  {
    if a == [] {
      assert a + b == b;
    } else {
      LongEventsConcat(a[1..], b, source);
      assert (a + b)[1..] == a[1..] + b && (a + b)[0] == a[0];
      var first := if IsLong(a[0], source) then [a[0]] else [];
      Regroup(first, LongEvents(a[1..], source), LongEvents(b, source));
    }
  }

  // The head of e, then segments of e in any order and multiplicity.
  predicate HeadFirst(heard: seq<Frame>, command: nat, e: OdEntry)
  {
    && heard != [] && IsHead(heard[0], e) && !IsExtended(heard[0].id)
    && forall f :: f in heard[1..] ==> IsSegmentOf(f, e) && IsExtended(f.id) && CommandOf(f.id) == command
  }

  // Main result.  Take any run fs of the bus in which source's reassembly frames are the head of
  // e followed by segments of e, in any order and multiplicity.  The receiver raises the entry
  // once if the segments heard so far cover it, and nothing before that: as a response or as process
  // data, by its command, if the source is registered.  Since fs may be cut anywhere, the event comes
  // with the last missing segment.
  lemma RoundTrip(cfg: Config, table: Table, fs: seq<Frame>, source: nat, command: nat, e: OdEntry)
    requires TableOk(table) && source !in table && |e.val| > 4 && CarriesEntry(command)
    requires HeadFirst(Heard(cfg, fs, source), command, e)
    ensures var raised := LongEvents(Receiver(cfg, table, fs).1, source);
            var whole := Covers(Heard(cfg, fs, source)[1..], e) && source in cfg.devices;
            && (whole && command == RESPONSE ==> raised == [ResponseReceived(source, e.index, e.subIndex, e.val)])
            && (whole && command == BROADCAST ==> raised == [ProcessReceived(source, e.index, e.subIndex, e.val)])
            && (!whole || command == REQUEST ==> raised == [])
  {
    OnlyHeardMatters(cfg, table, fs, source);
    HeardConcerns(cfg, fs, source);
    HeadThenSegments(cfg, Heard(cfg, fs, source), source, command, e);
    RaisedExactly(cfg, command, source, e.index, e.subIndex, e.val);
  }

  // The same for a receiver that hears nothing else.
  lemma HeadThenSegments(cfg: Config, heard: seq<Frame>, source: nat, command: nat, e: OdEntry)
    requires |e.val| > 4 && CarriesEntry(command) && HeadFirst(heard, command, e)
    requires forall f :: f in heard ==> Concerns(cfg, f, source)
    ensures Receiver(cfg, map[], heard).1 ==
            if Covers(heard[1..], e) then Raise(cfg, command, source, e.index, e.subIndex, e.val) else []
    ensures Covers(heard[1..], e) ==> Receiver(cfg, map[], heard).0 == map[]
  {
    var head, segments := heard[0], heard[1..];
    assert head in heard;
    RunHead(cfg, map[], heard);
    BeginTracks(head, e);
    HeadOpens(cfg, head, source);
    assert 0 in Begin(head).missing;
    SegmentsComplete(cfg, Begin(head), segments, source, command, e, {});
    assert Covers(segments, e) <==> Below(SegmentCount(|e.val|)) <= {} + Named(segments);
  }

  lemma HeadOpens(cfg: Config, head: Frame, source: nat)
    requires Concerns(cfg, head, source) && !IsExtended(head.id)
    ensures Receive(cfg, map[], head) == (map[source := Begin(head)], [])
  {
  }

  lemma {:induction false} HeardConcerns(cfg: Config, fs: seq<Frame>, source: nat)
    ensures forall f :: f in Heard(cfg, fs, source) ==> Concerns(cfg, f, source)
  {
    if fs != [] {
      HeardConcerns(cfg, fs[1..], source);
    }
  }

  // ----- Many entries of one source -----

  // The frames of one long entry: its head, then segments until all have come, repeated or not.
  datatype Transfer = Transfer(command: nat, entry: OdEntry, frames: seq<Frame>)

  predicate Whole(cfg: Config, t: Transfer, source: nat)
  {
    && |t.entry.val| > 4 && CarriesEntry(t.command) && HeadFirst(t.frames, t.command, t.entry)
    && Covers(t.frames[1..], t.entry) && forall f :: f in t.frames ==> Concerns(cfg, f, source)
  }

  function FramesOfAll(ts: seq<Transfer>): seq<Frame>
  {
    if ts == [] then [] else ts[0].frames + FramesOfAll(ts[1..])
  }

  // What they are handed on as: responses and broadcasts of a registered source, one by one.
  function RaisedByAll(cfg: Config, source: nat, ts: seq<Transfer>): seq<Event>
  {
    if ts == [] then []
    else
      var e := ts[0].entry;
      (if source in cfg.devices && ts[0].command == RESPONSE then [ResponseReceived(source, e.index, e.subIndex, e.val)]
       else if source in cfg.devices && ts[0].command == BROADCAST then [ProcessReceived(source, e.index, e.subIndex, e.val)]
       else [])
      + RaisedByAll(cfg, source, ts[1..])
  }

  // For a registered source that sends responses only: one event per entry.
  lemma {:induction false} ResponsesOneByOne(cfg: Config, source: nat, ts: seq<Transfer>)
    requires source in cfg.devices && forall t :: t in ts ==> t.command == RESPONSE
    ensures |RaisedByAll(cfg, source, ts)| == |ts|
    ensures forall k :: 0 <= k < |ts| ==>
              (RaisedByAll(cfg, source, ts)[k] == ResponseReceived(source, ts[k].entry.index, ts[k].entry.subIndex, ts[k].entry.val))
    decreases |ts|
  {
    if ts != [] {
      assert ts[0] in ts && forall t :: t in ts[1..] ==> t in ts;
      ResponsesOneByOne(cfg, source, ts[1..]);
    }
  }

  lemma OneAfterTheOther(cfg: Config, table: Table, a: seq<Frame>, b: seq<Frame>)
    ensures var first := Receiver(cfg, table, a); var second := Receiver(cfg, first.0, b);
            Receiver(cfg, table, a + b) == (second.0, first.1 + second.1)
  {
    RunConcat(Step(cfg), table, a, b);
  }

  lemma {:induction false} TransfersAlone(cfg: Config, source: nat, ts: seq<Transfer>)
    requires forall t :: t in ts ==> Whole(cfg, t, source)
    ensures Receiver(cfg, map[], FramesOfAll(ts)) == (map[], RaisedByAll(cfg, source, ts))
    decreases |ts|
  {
    var none: Table := map[];
    if ts == [] {
      assert Receiver(cfg, none, []) == (none, []);
    } else {
      var t, rest := ts[0], ts[1..];
      assert t in ts && forall u :: u in rest ==> u in ts;
      HeadThenSegments(cfg, t.frames, source, t.command, t.entry);
      TransfersAlone(cfg, source, rest);
      OneAfterTheOther(cfg, none, t.frames, FramesOfAll(rest));
      var raised := Raise(cfg, t.command, source, t.entry.index, t.entry.subIndex, t.entry.val);
      RaisedExactly(cfg, t.command, source, t.entry.index, t.entry.subIndex, t.entry.val);
      assert Receiver(cfg, none, t.frames) == (none, raised);
      assert FramesOfAll(ts) == t.frames + FramesOfAll(rest);
      assert RaisedByAll(cfg, source, ts) == raised + RaisedByAll(cfg, source, rest);
    }
  }

  // Successive long entries of one source, amid any traffic, are raised as exactly those entries in
  // order, and leave the source's slot free.
  lemma EntriesInOrder(cfg: Config, table: Table, fs: seq<Frame>, source: nat, ts: seq<Transfer>)
    requires TableOk(table) && source !in table && forall t :: t in ts ==> Whole(cfg, t, source)
    requires Heard(cfg, fs, source) == FramesOfAll(ts)
    ensures LongEvents(Receiver(cfg, table, fs).1, source) == RaisedByAll(cfg, source, ts)
    ensures source !in Receiver(cfg, table, fs).0
  {
    OnlyHeardMatters(cfg, table, fs, source);
    TransfersAlone(cfg, source, ts);
    EmptySlot(Receiver(cfg, table, fs).0, source);
  }

  lemma EmptySlot(table: Table, source: nat)
    requires Slot(table, source) == map[]
    ensures source !in table
  {
    assert source in table ==> source in Slot(table, source);
  }

  // A short entry needs no reassembly: its one frame raises it at once, whatever is pending.
  lemma ShortEntry(cfg: Config, table: Table, f: Frame, e: OdEntry)
    requires |e.val| <= 4 && IsHead(f, e) && !IsExtended(f.id) && CarriesEntry(CommandOf(f.id))
    requires TargetOf(f.id) == cfg.deviceId || TargetOf(f.id) == 0
    ensures Receive(cfg, table, f).0 == table
    ensures var raised := Receive(cfg, table, f).1; var source := SourceOf(f.id); var known := source in cfg.devices;
            && (known && CommandOf(f.id) == RESPONSE ==> raised == [ResponseReceived(source, e.index, e.subIndex, e.val)])
            && (known && CommandOf(f.id) == BROADCAST ==> raised == [ProcessReceived(source, e.index, e.subIndex, e.val)])
            && (!known || CommandOf(f.id) == REQUEST ==> raised == [])
  {
    RaisedExactly(cfg, CommandOf(f.id), SourceOf(f.id), e.index, e.subIndex, e.val);
    assert e.index / 0x100 * 0x100 + e.index % 0x100 == e.index;
    assert f.data[4..4 + f.data[3]] == e.val;
  }

  // Both ends together.  A sender's frames reach the controller in any order after the head, with
  // duplicates, amid other traffic: once every segment has arrived the entry is raised exactly
  // once; while one is missing, not at all.
  lemma SentIsReceived(cfg: Config, table: Table, fs: seq<Frame>, sent: seq<Frame>, command: nat,
                       sender: nat, target: nat, e: OdEntry)
    requires TableOk(table) && sender % 0x1000 !in table && |e.val| > 4 && CarriesEntry(command)
    requires IsTransmission(sent, MakeId(command, sender, target), MakeId(command, sender, target) + EXTENDED, e)
    requires var heard := Heard(cfg, fs, sender % 0x1000);
             heard != [] && heard[0] == sent[0] && FromSegments(heard[1..], sent)
    ensures var source := sender % 0x1000; var raised := LongEvents(Receiver(cfg, table, fs).1, source);
            var whole := AllArrived(Heard(cfg, fs, source)[1..], sent) && source in cfg.devices;
            && (whole && command == RESPONSE ==> raised == [ResponseReceived(source, e.index, e.subIndex, e.val)])
            && (whole && command == BROADCAST ==> raised == [ProcessReceived(source, e.index, e.subIndex, e.val)])
            && (!whole || command == REQUEST ==> raised == [])
  {
    var late := Heard(cfg, fs, sender % 0x1000)[1..];
    IdFields(command, sender, target);
    SegmentsAreSegments(late, sent, command, sender, target, e);
    ArrivedMeansCovered(late, sent, MakeId(command, sender, target), MakeId(command, sender, target) + EXTENDED, e);
    RoundTrip(cfg, table, fs, sender % 0x1000, command, e);
  }

  lemma SegmentsAreSegments(late: seq<Frame>, sent: seq<Frame>, command: nat, sender: nat, target: nat, e: OdEntry)
    requires IsTransmission(sent, MakeId(command, sender, target), MakeId(command, sender, target) + EXTENDED, e)
    requires FromSegments(late, sent) && CarriesEntry(command)
    ensures forall f :: f in late ==> IsSegmentOf(f, e) && IsExtended(f.id) && CommandOf(f.id) == command
  {
    IdFields(command, sender, target);
    forall f | f in late
      ensures IsSegmentOf(f, e) && IsExtended(f.id) && CommandOf(f.id) == command
    {
      var i :| 1 <= i < |sent| && sent[i] == f;
    }
  }

  // The other half for the unit's CANTransmit, whose segments always carry the node's own id: when
  // the caller names a different source, the head opens a slot no segment ever reaches, and a long
  // entry is never raised under either id.
  lemma SplitSourceNeverArrives(cfg: Config, table: Table, fs: seq<Frame>, sent: seq<Frame>, command: nat,
                                headSource: nat, node: nat, target: nat, e: OdEntry)
    requires TableOk(table) && |e.val| > 4 && CarriesEntry(command) && headSource % 0x1000 != node % 0x1000
    requires headSource % 0x1000 !in table && node % 0x1000 !in table
    requires IsTransmission(sent, MakeId(command, headSource, target), MakeId(command, node, target) + EXTENDED, e)
    requires Heard(cfg, fs, headSource % 0x1000) == [sent[0]]
    requires FromSegments(Heard(cfg, fs, node % 0x1000), sent)
    ensures LongEvents(Receiver(cfg, table, fs).1, headSource % 0x1000) == []
    ensures LongEvents(Receiver(cfg, table, fs).1, node % 0x1000) == []
  {
    IdFields(command, headSource, target);
    HeadAlone(cfg, table, fs, sent[0], headSource % 0x1000);
    AllExtended(Heard(cfg, fs, node % 0x1000), sent, command, node, target);
    SegmentsAlone(cfg, table, fs, node % 0x1000);
  }

  lemma AllExtended(late: seq<Frame>, sent: seq<Frame>, command: nat, node: nat, target: nat)
    requires FromSegments(late, sent) && CarriesEntry(command)
    requires forall i :: 1 <= i < |sent| ==> sent[i].id == MakeId(command, node, target) + EXTENDED
    ensures forall f :: f in late ==> IsExtended(f.id) && CarriesEntry(CommandOf(f.id))
  {
    IdFields(command, node, target);
    forall f | f in late ensures IsExtended(f.id) && CarriesEntry(CommandOf(f.id)) {
      var i :| 1 <= i < |sent| && sent[i] == f;
    }
  }

  lemma HeadAlone(cfg: Config, table: Table, fs: seq<Frame>, head: Frame, source: nat)
    requires TableOk(table) && source !in table
    requires Heard(cfg, fs, source) == [head] && !IsExtended(head.id)
    ensures LongEvents(Receiver(cfg, table, fs).1, source) == []
  {
    OnlyHeardMatters(cfg, table, fs, source);
    HeardConcerns(cfg, fs, source);
    assert head in Heard(cfg, fs, source);
    RunHead(cfg, map[], [head]);
    assert Receive(cfg, map[], head).1 == [];
  }

  lemma SegmentsAlone(cfg: Config, table: Table, fs: seq<Frame>, source: nat)
    requires TableOk(table) && source !in table
    requires forall f :: f in Heard(cfg, fs, source) ==> IsExtended(f.id) && CarriesEntry(CommandOf(f.id))
    ensures LongEvents(Receiver(cfg, table, fs).1, source) == []
  {
    OnlyHeardMatters(cfg, table, fs, source);
    LateSegments(cfg, Heard(cfg, fs, source));
  }
}
