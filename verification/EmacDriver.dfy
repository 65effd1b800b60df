/** SendFrame as one call, on the driver's descriptors and buffers. */
module EmacDriver {
  import opened Bytes
  import opened EmacRing

  predicate Fits(d: Device, n: nat)
  {
    d.txIndex < |d.descs| && Start(d) + n <= |d.descs[d.txIndex].data|
  }

  // The device after a call and what the call returns.
  function SendDone(d: Device, call: Call): (Device, Status)
    requires Fits(d, |call.frame|)
  {
    if Answer(d, call.frame) != Ok then (d, Answer(d, call.frame))
    else
      var t := d.descs[d.txIndex];
      var size := (if d.frameEnd.None? then 0 else t.size) + |call.frame|;
      var filled := Changed(d, d.txIndex, Desc(if call.more then t.own else true, size, Splice(t.data, Start(d), call.frame)));
      if call.more then (filled.(frameEnd := Some(Start(d) + |call.frame|)), Ok)
      else (filled.(txIndex := Advanced(d.txIndex, |d.descs|), frameEnd := None), Ok)
  }

  function Copies(n: nat): seq<Event>
    decreases n
  {
    if n == 0 then [] else [Copy] + Copies(n - Width(n))
  }

  predicate Roomy(r: Ring)
  {
    Shaped(r) && r.cpu.Copying? && r.cpu.dst + |r.cpu.rest| <= |r.device.descs[r.device.txIndex].data|
  }

  // All of rest copied at once.
  function Copied(r: Ring): Ring
    requires Roomy(r)
  {
    var t := r.device.descs[r.device.txIndex];
    r.(device := Changed(r.device, r.device.txIndex, t.(data := Splice(t.data, r.cpu.dst, r.cpu.rest))),
       cpu := r.cpu.(dst := r.cpu.dst + |r.cpu.rest|, rest := []))
  }

  lemma NothingToCopy(r: Ring)
    requires Roomy(r) && r.cpu.rest == []
    ensures Copied(r) == r
  {
    var t := r.device.descs[r.device.txIndex];
    assert Splice(t.data, r.cpu.dst, []) == t.data;
    assert Changed(r.device, r.device.txIndex, t) == r.device;
  }

  lemma OneCopy(r: Ring)
    requires Roomy(r) && r.cpu.rest != []
    ensures Roomy(CopyStep(r)) && Copied(CopyStep(r)) == Copied(r)
    ensures |CopyStep(r).cpu.rest| == |r.cpu.rest| - Width(|r.cpu.rest|)
  {
    var i := r.device.txIndex;
    var t := r.device.descs[i];
    var w := Width(|r.cpu.rest|);
    SpliceInTwo(t.data, r.cpu.dst, r.cpu.rest, w);
    ChangedTwice(r.device, i, t.(data := Splice(t.data, r.cpu.dst, r.cpu.rest[..w])), t.(data := Splice(t.data, r.cpu.dst, r.cpu.rest)));
  }

  lemma {:induction false} CopiesDone(r: Ring, n: nat, rest: seq<Event>)
    requires Roomy(r) && n == |r.cpu.rest|
    ensures Possible(r, Copies(n) + rest) == Possible(Copied(r), rest)
    ensures Possible(Copied(r), rest) ==> After(r, Copies(n) + rest) == After(Copied(r), rest)
    decreases n
  {
    if n == 0 {
      NothingToCopy(r);
      assert Copies(0) + rest == rest;
    } else {
      OneCopy(r);
      CopiesDone(CopyStep(r), n - Width(n), rest);
      var all := Copies(n) + rest;
      assert all[1..] == Copies(n - Width(n)) + rest && all[0] == Copy;
    }
  }

  lemma ChangedTwice(d: Device, i: nat, t: Desc, u: Desc)
    requires i < |d.descs|
    ensures Changed(Changed(d, i, t), i, u) == Changed(d, i, u)
  {
  }

  // The steps of an accepted call, taken without a break, do what the call does.
  lemma SendInSteps(r: Ring, call: Call)
    requires Shaped(r) && r.cpu.Idle? && Fits(r.device, |call.frame|) && Answer(r.device, call.frame) == Ok
    ensures var run := [Begin(call)] + (Copies(|call.frame|) + [Commit]);
            Possible(r, run) && After(r, run).device == SendDone(r.device, call).0 && After(r, run).cpu == Idle
  {
    var d := r.device;
    var i := d.txIndex;
    var t := d.descs[i];
    var r1 := BeginStep(r, call);
    var t1 := r1.device.descs[i];
    CopiesDone(r1, |call.frame|, [Commit]);
    var filled := t1.(data := Splice(t.data, Start(d), call.frame));
    ChangedTwice(d, i, t1, filled);
    CommitLast(Copied(r1));
    ChangedTwice(d, i, filled, filled.(own := true));
    var run := Copies(|call.frame|) + [Commit];
    assert ([Begin(call)] + run)[1..] == run;
  }

  lemma CommitLast(r: Ring)
    requires Enabled(r, Commit)
    ensures Possible(r, [Commit]) && After(r, [Commit]) == CommitStep(r)
  {
    assert [Commit][1..] == [];
  }

  class Emac {
    const bufs: seq<array<byte>>
    var own: seq<bool>
    var size: seq<nat>
    var txIndex: nat
    var frameEnd: Option<nat>

    ghost predicate Valid()
      reads this
    {
      && |bufs| == |own| == |size| == NUM_TX_BUF && txIndex < NUM_TX_BUF
      && bufs[0] != bufs[1] && forall b :: b in bufs ==> b.Length == ETH_BUF_SIZE
    }

    ghost function View(): (d: Device)
      reads this, bufs
      requires Valid()
      ensures |d.descs| == NUM_TX_BUF && d.txIndex == txIndex && d.frameEnd == frameEnd
      ensures forall i :: 0 <= i < NUM_TX_BUF ==> d.descs[i] == Desc(own[i], size[i], bufs[i][..])
    {
      Device([Desc(own[0], size[0], bufs[0][..]), Desc(own[1], size[1], bufs[1][..])], txIndex, frameEnd)
    }

    constructor ()
      ensures Valid() && View() == Initial(NUM_TX_BUF, ETH_BUF_SIZE).device
      ensures fresh(bufs[0]) && fresh(bufs[1])
    {
      var a, b := new byte[ETH_BUF_SIZE](_ => 0), new byte[ETH_BUF_SIZE](_ => 0);
      bufs := [a, b];
      own, size := [false, false], [0, 0];
      txIndex, frameEnd := 0, None;
      new;
      assert a[..] == Zeros(ETH_BUF_SIZE) && b[..] == Zeros(ETH_BUF_SIZE);
      assert View().descs == Initial(NUM_TX_BUF, ETH_BUF_SIZE).device.descs;
    }

    // None stands for the null pointer.  What is written beyond the buffer is not part of this model.
    method SendFrame(frame: Option<seq<byte>>, fragment: bool) returns (status: Status)
      requires Valid() && (frame.Some? ==> Fits(View(), |frame.value|))
      modifies this, bufs[txIndex]
      ensures Valid()
      ensures status == Parameter <==> frame.None? || frame.value == []
      ensures status == Busy <==> frame.Some? && frame.value != [] && old(frameEnd.None? && own[txIndex])
      ensures status != Ok ==> View() == old(View())
      ensures frame.Some? ==> (View(), status) == SendDone(old(View()), Call(frame.value, fragment))
    {
      if frame.None? || frame.value == [] {
        return Parameter;
      }
      var src, dst := frame.value, 0;
      if frameEnd.None? {
        if own[txIndex] {
          return Busy;
        }
        size := size[txIndex := |src|];
      } else {
        dst := frameEnd.value;
        size := size[txIndex := size[txIndex] + |src|];
      }
      CopyInto(bufs[txIndex], dst, src);
      if fragment {
        frameEnd := Some(dst + |src|);
      } else {
        own := own[txIndex := true];
        txIndex := txIndex + 1;
        if txIndex == NUM_TX_BUF {
          txIndex := 0;
        }
        frameEnd := None;
      }
      SameTwo(View().descs, SendDone(old(View()), Call(src, fragment)).0.descs);
      return Ok;
    }

    // Eight bytes at a time, then two, then the last one.
    method CopyInto(buf: array<byte>, start: nat, frame: seq<byte>)
      requires start + |frame| <= buf.Length
      modifies buf
      ensures buf[..] == Splice(old(buf[..]), start, frame)
    {
      ghost var before := buf[..];
      var i := 0;
      assert before == Splice(before, start, frame[..0]);
      while |frame| - i > 7
        invariant 0 <= i <= |frame| && buf[..] == Splice(before, start, frame[..i])
      {
        CopyPart(buf, start, frame, i, 8, before);
        i := i + 8;
      }
      while |frame| - i > 1
        invariant 0 <= i <= |frame| && buf[..] == Splice(before, start, frame[..i])
      {
        CopyPart(buf, start, frame, i, 2, before);
        i := i + 2;
      }
      if |frame| - i > 0 {
        CopyPart(buf, start, frame, i, 1, before);
      }
      assert frame[..|frame|] == frame;
    }

    method CopyPart(buf: array<byte>, start: nat, frame: seq<byte>, i: nat, w: nat, ghost before: seq<byte>)
      requires i + w <= |frame| && start + |frame| <= buf.Length == |before|
      requires buf[..] == Splice(before, start, frame[..i])
      modifies buf
      ensures buf[..] == Splice(before, start, frame[..i + w])
    {
      CopyWord(buf, start + i, frame[i..i + w]);
      SpliceNext(before, start, frame, i, w);
    }

    method CopyWord(buf: array<byte>, dst: nat, word: seq<byte>)
      requires dst + |word| <= buf.Length
      modifies buf
      ensures buf[..] == Splice(old(buf[..]), dst, word)
    {
      forall k | 0 <= k < |word| {
        buf[dst + k] := word[k];
      }
    }
  }

  lemma SameTwo(a: seq<Desc>, b: seq<Desc>)
    requires |a| == |b| == 2 && a[0] == b[0] && a[1] == b[1]
    ensures a == b
  {
  }

  lemma SpliceNext(data: seq<byte>, start: nat, s: seq<byte>, i: nat, w: nat)
    requires i + w <= |s| && start + |s| <= |data|
    ensures Splice(Splice(data, start, s[..i]), start + i, s[i..i + w]) == Splice(data, start, s[..i + w])
  {
  }
}
