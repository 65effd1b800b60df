/**
 The Ethernet driver's transmit ring.  The CPU assembles a frame from fragments in the buffer of the
 next descriptor and hands the descriptor to the DMA by its OWN bit; the DMA sends the frames it
 owns in ring order and gives the descriptors back.  The machine below interleaves every copy step
 of the CPU with the DMA.
 */
module EmacRing {
  import opened Bytes

  const NUM_TX_BUF: nat := 2
  const ETH_BUF_SIZE: nat := 1536

  datatype Desc = Desc(own: bool, size: nat, data: seq<byte>)

  // What SendFrame works on.  frameEnd is the write position of a frame whose next fragment is due.
  datatype Device = Device(descs: seq<Desc>, txIndex: nat, frameEnd: Option<nat>)

  datatype Status = Ok | Busy | Parameter

  function Advanced(i: nat, n: nat): nat
  {
    if i + 1 == n then 0 else i + 1
  }

  // ----- The steps of SendFrame -----

  datatype Call = Call(frame: seq<byte>, more: bool)

  // Inside SendFrame: from dst on, rest is still to be copied.
  datatype Cpu = Idle | Copying(dst: nat, rest: seq<byte>, more: bool)

  // calls, committed, open and wire are histories: the fragments accepted, the frames given to the
  // DMA, the fragments of the frame being assembled, and the frames sent.
  datatype Ring = Ring(device: Device, cpu: Cpu, dmaIndex: nat, calls: seq<Call>,
                       committed: seq<seq<byte>>, open: seq<byte>, wire: seq<seq<byte>>)

  datatype Event = Begin(call: Call) | Copy | Commit | Complete

  // Where a call would write, and what it would answer.
  function Start(d: Device): nat
  {
    if d.frameEnd.Some? then d.frameEnd.value else 0
  }

  function Answer(d: Device, frame: seq<byte>): Status
    requires d.txIndex < |d.descs|
  {
    if frame == [] then Parameter
    else if d.frameEnd.None? && d.descs[d.txIndex].own then Busy
    else Ok
  }

  // Copying goes in words of eight, then of two bytes, then the last one.
  function Width(n: nat): (w: nat)
    requires n > 0
    ensures 0 < w <= n
  {
    if n > 7 then 8 else if n > 1 then 2 else 1
  }

  predicate Shaped(r: Ring)
  {
    r.device.txIndex < |r.device.descs| && r.dmaIndex < |r.device.descs|
  }

  predicate Enabled(r: Ring, e: Event)
  {
    && Shaped(r)
    && match e
       case Begin(call) =>
         r.cpu.Idle? && Start(r.device) + |call.frame| <= |r.device.descs[r.device.txIndex].data|
       case Copy =>
         r.cpu.Copying? && r.cpu.rest != [] && r.cpu.dst + |r.cpu.rest| <= |r.device.descs[r.device.txIndex].data|
       case Commit => r.cpu.Copying? && r.cpu.rest == []
       case Complete =>
         r.device.descs[r.dmaIndex].own && r.device.descs[r.dmaIndex].size <= |r.device.descs[r.dmaIndex].data|
  }

  function Changed(d: Device, i: nat, desc: Desc): Device
    requires i < |d.descs|
  {
    d.(descs := d.descs[i := desc])
  }

  function BeginStep(r: Ring, call: Call): Ring
    requires Enabled(r, Begin(call))
  {
    var d := r.device;
    var t := d.descs[d.txIndex];
    if Answer(d, call.frame) != Ok then r
    else
      r.(device := Changed(d, d.txIndex, t.(size := (if d.frameEnd.None? then 0 else t.size) + |call.frame|)),
         cpu := Copying(Start(d), call.frame, call.more), calls := r.calls + [call], open := r.open + call.frame)
  }

  function CopyStep(r: Ring): Ring
    requires Enabled(r, Copy)
  {
    var d := r.device;
    var t := d.descs[d.txIndex];
    var w := Width(|r.cpu.rest|);
    r.(device := Changed(d, d.txIndex, t.(data := Splice(t.data, r.cpu.dst, r.cpu.rest[..w]))),
       cpu := r.cpu.(dst := r.cpu.dst + w, rest := r.cpu.rest[w..]))
  }

  function CommitStep(r: Ring): Ring
    requires Enabled(r, Commit)
  {
    var d := r.device;
    if r.cpu.more then r.(device := d.(frameEnd := Some(r.cpu.dst)), cpu := Idle)
    else
      var given := Changed(d, d.txIndex, d.descs[d.txIndex].(own := true));
      r.(device := given.(txIndex := Advanced(d.txIndex, |d.descs|), frameEnd := None), cpu := Idle,
         committed := r.committed + [r.open], open := [])
  }

  function Sent(t: Desc): seq<byte>
  {
    if t.size <= |t.data| then t.data[..t.size] else t.data
  }

  function CompleteStep(r: Ring): Ring
    requires Enabled(r, Complete)
  {
    var t := r.device.descs[r.dmaIndex];
    r.(device := Changed(r.device, r.dmaIndex, t.(own := false)),
       dmaIndex := Advanced(r.dmaIndex, |r.device.descs|), wire := r.wire + [Sent(t)])
  }

  function Step(r: Ring, e: Event): Ring
    requires Enabled(r, e)
  {
    match e
    case Begin(call) => BeginStep(r, call)
    case Copy => CopyStep(r)
    case Commit => CommitStep(r)
    case Complete => CompleteStep(r)
  }

  // ----- What the ring holds -----

  function InFlight(r: Ring): int
  {
    |r.committed| - |r.wire|
  }

  // The descriptor of the j-th frame in flight; the one after the last is the CPU's next.
  function Slot(r: Ring, j: int): int
  {
    if r.dmaIndex + j < |r.device.descs| then r.dmaIndex + j else r.dmaIndex + j - |r.device.descs|
  }

  predicate Owned(r: Ring)
    requires Shaped(r) && 0 <= InFlight(r) <= |r.device.descs|
  {
    && (forall j :: 0 <= j < InFlight(r) ==>
          && r.device.descs[Slot(r, j)].own && r.device.descs[Slot(r, j)].size <= |r.device.descs[Slot(r, j)].data|
          && Sent(r.device.descs[Slot(r, j)]) == r.committed[|r.wire| + j])
    && (forall j :: InFlight(r) <= j < |r.device.descs| ==> !r.device.descs[Slot(r, j)].own)
  }

  predicate Assembling(r: Ring)
    requires Shaped(r)
  {
    var t := r.device.descs[r.device.txIndex];
    match r.cpu
    case Idle =>
      if r.device.frameEnd.None? then r.open == []
      else !t.own && t.size == |r.open| == r.device.frameEnd.value <= |t.data| && t.data[..t.size] == r.open
    case Copying(dst, rest, _) =>
      !t.own && t.size == |r.open| <= |t.data| && dst + |rest| == t.size && t.data[..dst] + rest == r.open
  }

  // The frames that the calls amount to: what is complete, and the fragments of the last one.
  function Frames(calls: seq<Call>): (seq<seq<byte>>, seq<byte>)
  {
    if calls == [] then ([], [])
    else
      var last := calls[|calls| - 1];
      var before := Frames(calls[..|calls| - 1]);
      if last.more then (before.0, before.1 + last.frame) else (before.0 + [before.1 + last.frame], [])
  }

  predicate Accounted(r: Ring)
  {
    Frames(r.calls) == if r.cpu.Copying? && !r.cpu.more then (r.committed + [r.open], []) else (r.committed, r.open)
  }

  predicate Faithful(r: Ring)
  {
    && Shaped(r) && 0 <= InFlight(r) <= |r.device.descs|
    && r.device.txIndex == Slot(r, InFlight(r))
    && Owned(r) && Assembling(r) && Accounted(r)
    && r.wire == r.committed[..|r.wire|]
  }

  function Initial(n: nat, size: nat): Ring
    requires n > 0
  {
    Ring(Device(seq(n, _ => Desc(false, 0, Zeros(size))), 0, None), Idle, 0, [], [], [], [])
  }

  lemma InitiallyFaithful(n: nat, size: nat)
    requires n > 0
    ensures Faithful(Initial(n, size))
  {
  }

  // The driver is busy exactly when every descriptor is in flight.
  lemma BusyExact(r: Ring)
    requires Faithful(r)
    ensures r.device.descs[r.device.txIndex].own <==> InFlight(r) == |r.device.descs|
  {
    assert Slot(r, 0) == r.dmaIndex;
    assert InFlight(r) == |r.device.descs| ==> Slot(r, InFlight(r)) == Slot(r, 0);
    assert InFlight(r) < |r.device.descs| ==> !r.device.descs[Slot(r, InFlight(r))].own;
  }

  // The driver's answer, for every state of the ring: a call with something to send is taken, and its
  // bytes start to be copied, exactly if a fragment is due or a descriptor is free; otherwise, and
  // for an empty frame, nothing changes.
  lemma TakenExactly(r: Ring, call: Call)
    requires Faithful(r) && Enabled(r, Begin(call))
    ensures var q := Step(r, Begin(call));
            if call.frame != [] && (r.device.frameEnd.Some? || InFlight(r) < |r.device.descs|)
            then q.calls == r.calls + [call] && q.cpu.Copying? && q.cpu.rest == call.frame && q.cpu.more == call.more
            else q == r
  {
    BusyExact(r);
  }

  // Rewriting the CPU's own descriptor leaves the frames in flight alone.
  lemma OthersStay(r: Ring, t: Desc)
    requires Faithful(r) && !r.device.descs[r.device.txIndex].own && !t.own
    ensures Owned(r.(device := Changed(r.device, r.device.txIndex, t)))
  {
    BusyExact(r);
    var q := r.(device := Changed(r.device, r.device.txIndex, t));
    forall j | 0 <= j < InFlight(q)
      ensures q.device.descs[Slot(q, j)].own && q.device.descs[Slot(q, j)].size <= |q.device.descs[Slot(q, j)].data|
      ensures Sent(q.device.descs[Slot(q, j)]) == q.committed[|q.wire| + j]
    {
      assert Slot(q, j) == Slot(r, j) != r.device.txIndex;
    }
    forall j | InFlight(q) <= j < |q.device.descs| ensures !q.device.descs[Slot(q, j)].own {
      assert Slot(q, j) == Slot(r, j);
    }
  }

  lemma OwnedSame(r: Ring, q: Ring)
    requires Shaped(r) && 0 <= InFlight(r) <= |r.device.descs| && Owned(r)
    requires Shaped(q) && q.device.descs == r.device.descs && q.dmaIndex == r.dmaIndex && q.wire == r.wire && q.committed == r.committed
    ensures Owned(q)
  {
    assert forall j :: Slot(q, j) == Slot(r, j);
  }

  lemma BeginKeeps(r: Ring, call: Call)
    requires Faithful(r) && Enabled(r, Begin(call))
    ensures Faithful(Step(r, Begin(call)))
  {
    var q := BeginStep(r, call);
    if Answer(r.device, call.frame) == Ok {
      var d := r.device;
      OthersStay(r, d.descs[d.txIndex].(size := (if d.frameEnd.None? then 0 else d.descs[d.txIndex].size) + |call.frame|));
      OwnedSame(r.(device := q.device), q);
      assert q.calls[..|r.calls|] == r.calls;
      if d.frameEnd.None? {
        assert d.descs[d.txIndex].data[..0] + call.frame == call.frame == r.open + call.frame;
      }
    }
  }

  lemma CopyKeeps(r: Ring)
    requires Faithful(r) && Enabled(r, Copy)
    ensures Faithful(Step(r, Copy))
  {
    var q := CopyStep(r);
    var t := r.device.descs[r.device.txIndex];
    var w := Width(|r.cpu.rest|);
    var part := r.cpu.rest[..w];
    OthersStay(r, t.(data := Splice(t.data, r.cpu.dst, part)));
    OwnedSame(r.(device := q.device), q);
    assert Splice(t.data, r.cpu.dst, part)[..r.cpu.dst + w] == t.data[..r.cpu.dst] + part;
    assert r.cpu.rest == part + r.cpu.rest[w..];
    assert t.data[..r.cpu.dst] + part + r.cpu.rest[w..] == t.data[..r.cpu.dst] + r.cpu.rest;
  }

  lemma CommitKeeps(r: Ring)
    requires Faithful(r) && Enabled(r, Commit)
    ensures Faithful(Step(r, Commit))
  {
    var q := CommitStep(r);
    var t := r.device.descs[r.device.txIndex];
    assert r.cpu.rest == [] && t.data[..r.cpu.dst] == r.open;
    if r.cpu.more {
      OwnedSame(r, q);
    } else {
      GivenOwned(r);
    }
  }

  // The descriptor given to the DMA joins those in flight.
  lemma GivenOwned(r: Ring)
    requires Faithful(r) && Enabled(r, Commit) && !r.cpu.more
    ensures var q := CommitStep(r);
            Shaped(q) && 0 <= InFlight(q) <= |q.device.descs| && q.device.txIndex == Slot(q, InFlight(q)) && Owned(q)
  {
    var q := CommitStep(r);
    var t := r.device.descs[r.device.txIndex];
    assert r.cpu.rest == [] && t.data[..r.cpu.dst] == r.open;
    BusyExact(r);
    forall j | 0 <= j < InFlight(q)
      ensures q.device.descs[Slot(q, j)].own && q.device.descs[Slot(q, j)].size <= |q.device.descs[Slot(q, j)].data|
      ensures Sent(q.device.descs[Slot(q, j)]) == q.committed[|q.wire| + j]
    {
      assert Slot(q, j) == Slot(r, j);
    }
    forall j | InFlight(q) <= j < |q.device.descs| ensures !q.device.descs[Slot(q, j)].own {
      assert Slot(q, j) == Slot(r, j) != r.device.txIndex;
    }
  }

  lemma CompleteKeeps(r: Ring)
    requires Faithful(r) && Enabled(r, Complete)
    ensures InFlight(r) > 0 && Faithful(Step(r, Complete))
  {
    CompletedOwned(r);
    assert r.wire + [r.committed[|r.wire|]] == r.committed[..|r.wire| + 1];
    BusyExact(r);
  }

  // The descriptor given back leaves those in flight.
  lemma CompletedOwned(r: Ring)
    requires Faithful(r) && Enabled(r, Complete)
    ensures var q := CompleteStep(r);
            && InFlight(r) > 0 && Shaped(q) && 0 <= InFlight(q) <= |q.device.descs|
            && q.device.txIndex == Slot(q, InFlight(q)) && Owned(q)
            && q.wire == r.wire + [r.committed[|r.wire|]]
  {
    var q := CompleteStep(r);
    var n := |r.device.descs|;
    assert Slot(r, 0) == r.dmaIndex;
    assert InFlight(r) > 0;
    forall j | 0 <= j < n - 1 ensures Slot(q, j) == Slot(r, j + 1) != r.dmaIndex {}
    forall j | 0 <= j < InFlight(q)
      ensures q.device.descs[Slot(q, j)].own && q.device.descs[Slot(q, j)].size <= |q.device.descs[Slot(q, j)].data|
      ensures Sent(q.device.descs[Slot(q, j)]) == q.committed[|q.wire| + j]
    {
      assert Slot(q, j) == Slot(r, j + 1);
    }
    forall j | InFlight(q) <= j < n ensures !q.device.descs[Slot(q, j)].own {
      if j < n - 1 {
        assert Slot(q, j) == Slot(r, j + 1);
      }
    }
  }

  // ----- Every run -----

  predicate Possible(r: Ring, run: seq<Event>)
    decreases |run|
  {
    run == [] || (Enabled(r, run[0]) && Possible(Step(r, run[0]), run[1..]))
  }

  function After(r: Ring, run: seq<Event>): Ring
    requires Possible(r, run)
    decreases |run|
  {
    if run == [] then r else After(Step(r, run[0]), run[1..])
  }

  lemma {:induction false} RunFaithful(r: Ring, run: seq<Event>)
    requires Faithful(r) && Possible(r, run)
    ensures Faithful(After(r, run))
    decreases |run|
  {
    if run != [] {
      match run[0] {
        case Begin(call) => BeginKeeps(r, call);
        case Copy => CopyKeeps(r);
        case Commit => CommitKeeps(r);
        case Complete => CompleteKeeps(r);
      }
      RunFaithful(Step(r, run[0]), run[1..]);
    }
  }

  // The frames in the descriptors the DMA owns, in ring order.
  function Pending(r: Ring): (s: seq<seq<byte>>)
    requires Shaped(r) && 0 <= InFlight(r) <= |r.device.descs|
    ensures |s| == InFlight(r)
  {
    seq(InFlight(r), j requires 0 <= j < InFlight(r) => Sent(r.device.descs[Slot(r, j)]))
  }

  // In every interleaving, what is on the wire followed by what the DMA owns is exactly the frames
  // the accepted calls amount to, in order, each the concatenation of its fragments.
  lemma NothingLost(n: nat, size: nat, run: seq<Event>)
    requires n > 0 && Possible(Initial(n, size), run)
    ensures var r := After(Initial(n, size), run);
            && Shaped(r) && 0 <= InFlight(r) <= n == |r.device.descs|
            && r.wire + Pending(r) == r.committed
            && (r.cpu.Idle? ==> r.wire + Pending(r) == Frames(r.calls).0)
  {
    InitiallyFaithful(n, size);
    RunFaithful(Initial(n, size), run);
    var r := After(Initial(n, size), run);
    SizeStays(Initial(n, size), run);
    assert r.wire + Pending(r) == r.committed by {
      forall k | 0 <= k < |r.committed| ensures (r.wire + Pending(r))[k] == r.committed[k] {
        if k >= |r.wire| {
          assert r.committed[|r.wire| + (k - |r.wire|)] == r.committed[k];
        }
      }
    }
  }

  // Left alone, the DMA puts every committed frame on the wire: one completion each, and never stuck.
  lemma {:induction false} Drains(r: Ring)
    requires Faithful(r)
    ensures var run := seq(InFlight(r), _ => Complete);
            Possible(r, run) && After(r, run).wire == r.committed && After(r, run).calls == r.calls
    decreases InFlight(r)
  {
    assert Slot(r, 0) == r.dmaIndex;
    if InFlight(r) == 0 {
      assert r.committed[..|r.wire|] == r.committed;
    } else {
      CompleteKeeps(r);
      Drains(Step(r, Complete));
      assert seq(InFlight(r), _ => Complete)[1..] == seq(InFlight(r) - 1, _ => Complete);
    }
  }

  lemma {:induction false} SizeStays(r: Ring, run: seq<Event>)
    requires Possible(r, run)
    ensures |After(r, run).device.descs| == |r.device.descs|
    decreases |run|
  {
    if run != [] {
      SizeStays(Step(r, run[0]), run[1..]);
    }
  }

  // No step of the CPU changes a descriptor, or a buffer, that the DMA owns.
  lemma DmaBuffersUntouched(r: Ring, e: Event, i: nat)
    requires Faithful(r) && Enabled(r, e) && e != Complete && i < |r.device.descs| && r.device.descs[i].own
    ensures Step(r, e).device.descs[i] == r.device.descs[i]
  {
    BusyExact(r);
  }
}
