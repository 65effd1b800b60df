/**
 The controller's receiver as a function: one partly received entry per source, and what each
 frame does to that table.  The class in CanEx.dfy is proved against it; here are the
 properties of whole runs.
 */
module CanReassembly {
  import opened Bytes
  import opened CanFrames

  // An entry under reassembly.  missing holds the segments not yet accepted.
  datatype Partial = Partial(index: nat, subIndex: byte, val: seq<byte>, missing: set<nat>)

  datatype Config = Config(deviceId: nat, devices: set<nat>, heartbeats: bool)

  datatype Event =
    | ResponseReceived(source: nat, index: nat, subIndex: byte, val: seq<byte>)
    | ProcessReceived(source: nat, index: nat, subIndex: byte, val: seq<byte>)
    | HeartbeatArrived(source: nat, data: seq<byte>, len: nat)

  type Table = map<nat, Partial>

  // A segment that would end behind the entry is ignored; any other is stored and ticked off.
  function Accept(p: Partial, i: nat, data: seq<byte>): Partial
  {
    if 4 + 7 * i + |data| > |p.val| then p
    else p.(val := Splice(p.val, 4 + 7 * i, data), missing := p.missing - {i})
  }

  function Begin(f: Frame): Partial
    requires f.data[3] > 4
  {
    Partial(Word16(f.data[0], f.data[1]), f.data[2], f.data[4..] + Zeros(f.data[3] - 4), Below(SegmentCount(f.data[3])))
  }

  // Requests raise nothing; the other commands reach a device only when it is registered.
  function Raise(cfg: Config, command: nat, source: nat, index: nat, subIndex: byte, val: seq<byte>): seq<Event>
  {
    if source !in cfg.devices then []
    else if command == RESPONSE then [ResponseReceived(source, index, subIndex, val)]
    else if command == BROADCAST then [ProcessReceived(source, index, subIndex, val)]
    else []
  }

  // A registered device's responses and broadcasts, and nothing else, are handed on.
  lemma RaisedExactly(cfg: Config, command: nat, source: nat, index: nat, subIndex: byte, val: seq<byte>)
    ensures var raised := Raise(cfg, command, source, index, subIndex, val);
            && (source in cfg.devices && command == RESPONSE ==> raised == [ResponseReceived(source, index, subIndex, val)])
            && (source in cfg.devices && command == BROADCAST ==> raised == [ProcessReceived(source, index, subIndex, val)])
            && (source !in cfg.devices || (command != RESPONSE && command != BROADCAST) ==> raised == [])
  {
  }

  // The bytes behind a segment frame's index.  With no byte at all the driver's len - 1 wraps to
  // 255, which no entry can hold.
  function SegmentData(f: Frame): seq<byte>
  {
    if f.len == 0 then Zeros(255) else f.data[1..f.len]
  }

  function Receive(cfg: Config, table: Table, f: Frame): (Table, seq<Event>)
  {
    var source, command := SourceOf(f.id), CommandOf(f.id);
    if TargetOf(f.id) != cfg.deviceId && TargetOf(f.id) != 0 then (table, [])
    else if command == HEARTBEAT then
      (table, if cfg.heartbeats then [HeartbeatArrived(source, f.data, f.len)] else [])
    else if !CarriesEntry(command) then (table, [])
    else if !IsExtended(f.id) then
      if f.len < 4 then (table, [])
      else if f.data[3] <= 4 then
        (table, Raise(cfg, command, source, Word16(f.data[0], f.data[1]), f.data[2], f.data[4..4 + f.data[3]]))
      else if source in table then (table, [])
      else (table[source := Begin(f)], [])
    else if source !in table then (table, [])
    else
      var p := Accept(table[source], f.data[0], SegmentData(f));
      if p.missing == {} then
        (table - {source}, Raise(cfg, command, source, p.index, p.subIndex, p.val))
      else (table[source := p], [])
  }

  // ----- Frames that carry no entry, or that come at the wrong moment -----

  predicate Addressed(cfg: Config, f: Frame)
  {
    TargetOf(f.id) == cfg.deviceId || TargetOf(f.id) == 0
  }

  // A heartbeat is raised exactly by the heartbeat frames addressed to the node, while a handler is
  // bound, with the frame's own source and bytes; it comes alone and leaves the table as it is.
  lemma HeartbeatsRaised(cfg: Config, table: Table, f: Frame)
    ensures var r := Receive(cfg, table, f);
            if Addressed(cfg, f) && CommandOf(f.id) == HEARTBEAT && cfg.heartbeats
            then r == (table, [HeartbeatArrived(SourceOf(f.id), f.data, f.len)])
            else forall e :: e in r.1 ==> !e.HeartbeatArrived?
  {
  }

  // Frames for other nodes, syncs and unknown commands, and heads too short to be one do nothing.
  lemma NothingForUs(cfg: Config, table: Table, f: Frame)
    requires !Addressed(cfg, f) || (!CarriesEntry(CommandOf(f.id)) && CommandOf(f.id) != HEARTBEAT)
             || (CarriesEntry(CommandOf(f.id)) && !IsExtended(f.id) && f.len < 4)
    ensures Receive(cfg, table, f) == (table, [])
  {
  }

  // While an entry is incomplete, a new long head of the same source is dropped, and so is a segment
  // that would end behind the entry.
  lemma PendingStays(cfg: Config, table: Table, f: Frame)
    requires SourceOf(f.id) in table && CarriesEntry(CommandOf(f.id)) && table[SourceOf(f.id)].missing != {}
    requires if IsExtended(f.id) then f.len >= 1 && 4 + 7 * f.data[0] as int + f.len - 1 > |table[SourceOf(f.id)].val|
             else f.len >= 4 && f.data[3] > 4
    ensures Receive(cfg, table, f) == (table, [])
  {
    var source := SourceOf(f.id);
    assert table[source := table[source]] == table;
  }

  function Step(cfg: Config): (Table, Frame) -> (Table, seq<Event>)
  {
    (t, f) => Receive(cfg, t, f)
  }

  function Receiver(cfg: Config, table: Table, fs: seq<Frame>): (Table, seq<Event>)
  {
    Run(Step(cfg), table, fs)
  }

  // ----- Non-interference between sources -----

  function FramesOf(fs: seq<Frame>, source: nat): seq<Frame>
  {
    if fs == [] then []
    else (if SourceOf(fs[0].id) == source then [fs[0]] else []) + FramesOf(fs[1..], source)
  }

  function EventsOf(es: seq<Event>, source: nat): seq<Event>
  {
    if es == [] then []
    else (if es[0].source == source then [es[0]] else []) + EventsOf(es[1..], source)
  }

  function Slot(table: Table, source: nat): Table
  {
    if source in table then map[source := table[source]] else map[]
  }

  // However the frames of many sources interleave, each source sees the events, and leaves the
  // table slot, of a receiver that heard that source alone.
  lemma {:induction false} NonInterference(cfg: Config, table: Table, fs: seq<Frame>, source: nat)
    ensures var shared := Receiver(cfg, table, fs);
            var alone := Receiver(cfg, Slot(table, source), FramesOf(fs, source));
            EventsOf(shared.1, source) == alone.1 && Slot(shared.0, source) == alone.0
    decreases fs
  {
    if fs != [] {
      var f := fs[0];
      var first := Receive(cfg, table, f);
      OneFrame(cfg, table, f, source);
      NonInterference(cfg, first.0, fs[1..], source);
      EventsOfConcat(first.1, Receiver(cfg, first.0, fs[1..]).1, source);
      RunHead(cfg, table, fs);
      if SourceOf(f.id) == source {
        assert FramesOf(fs, source) == [f] + FramesOf(fs[1..], source);
        RunHead(cfg, Slot(table, source), FramesOf(fs, source));
      } else {
        assert FramesOf(fs, source) == FramesOf(fs[1..], source);
      }
    }
  }

  lemma RunHead(cfg: Config, table: Table, fs: seq<Frame>)
    requires fs != []
    ensures var first := Receive(cfg, table, fs[0]); var rest := Receiver(cfg, first.0, fs[1..]);
            Receiver(cfg, table, fs) == (rest.0, first.1 + rest.1)
  {
  }

  // One frame touches its own source's slot only, and reads no other.
  lemma OneFrame(cfg: Config, table: Table, f: Frame, source: nat)
    ensures var shared := Receive(cfg, table, f);
            var alone := Receive(cfg, Slot(table, source), f);
            if SourceOf(f.id) == source then
              EventsOf(shared.1, source) == alone.1 == shared.1 && Slot(shared.0, source) == alone.0
            else
              EventsOf(shared.1, source) == [] && Slot(shared.0, source) == Slot(table, source)
  {
    var shared := Receive(cfg, table, f);
    if shared.1 != [] {
      assert |shared.1| == 1 && shared.1[0].source == SourceOf(f.id);
      assert shared.1 == [shared.1[0]];
      assert EventsOf(shared.1, source) == (if SourceOf(f.id) == source then shared.1 else []);
    }
  }

  lemma Regroup<T>(a: seq<T>, b: seq<T>, c: seq<T>)
    ensures a + (b + c) == (a + b) + c
  {
  }

  lemma {:induction false} EventsOfConcat(a: seq<Event>, b: seq<Event>, source: nat)
    ensures EventsOf(a + b, source) == EventsOf(a, source) + EventsOf(b, source)
  {
    if a == [] {
      assert a + b == b;
    } else {
      EventsOfConcat(a[1..], b, source);
      assert (a + b)[1..] == a[1..] + b && (a + b)[0] == a[0];
      var first := if a[0].source == source then [a[0]] else [];
      Regroup(first, EventsOf(a[1..], source), EventsOf(b, source));
    }
  }

  // ----- The tag words against a set of segments -----

  datatype Call = Call(segmentIndex: byte, data: seq<byte>)

  function AcceptAll(p: Partial, calls: seq<Call>): Partial
  {
    if calls == [] then p
    else Accept(AcceptAll(p, calls[..|calls| - 1]), calls[|calls| - 1].segmentIndex, calls[|calls| - 1].data)
  }

  // A call whose bytes end inside the entry.
  predicate InRange(call: Call, len: nat)
  {
    4 + 7 * call.segmentIndex + |call.data| <= len
  }

  predicate Accepted(calls: seq<Call>, len: nat, i: nat)
  {
    exists k :: 0 <= k < |calls| && calls[k].segmentIndex == i && InRange(calls[k], len)
  }

  // After any calls, with any indices and lengths, segment i is ticked off iff it lies behind the
  // entry or a call for it was in range, and the length of the value never changes.
  lemma {:induction false} TagRefinement(p: Partial, calls: seq<Call>)
    requires p.missing == Below(SegmentCount(|p.val|))
    ensures |AcceptAll(p, calls).val| == |p.val|
    ensures forall i: nat :: i !in AcceptAll(p, calls).missing <==>
              i >= SegmentCount(|p.val|) || Accepted(calls, |p.val|, i)
    decreases |calls|
  {
    if calls != [] {
      var n := |calls| - 1;
      TagRefinement(p, calls[..n]);
      forall i: nat
        ensures Accepted(calls, |p.val|, i) <==>
                Accepted(calls[..n], |p.val|, i) || (calls[n].segmentIndex == i && InRange(calls[n], |p.val|))
      {
        if Accepted(calls[..n], |p.val|, i) {
          var k :| 0 <= k < n && calls[..n][k].segmentIndex == i && InRange(calls[..n][k], |p.val|);
          assert calls[k] == calls[..n][k];
        }
        if Accepted(calls, |p.val|, i) {
          var k :| 0 <= k <= n && calls[k].segmentIndex == i && InRange(calls[k], |p.val|);
          if k < n {
            assert calls[..n][k] == calls[k];
          }
        }
      }
    }
  }
}
