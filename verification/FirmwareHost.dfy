/**
 The host's side of an upload: the replies it reads back, and the loop that sends each portion up
 to three times until a reply without an error arrives.
 */
module FirmwareHost {
  import opened Bytes
  import opened FirmwareBank
  import ConfigHost
  import FirmwareManager

  // ----- The controller's replies -----

  predicate Readable(r: Reply)
  {
    r.payload != [] && |r.payload| <= 0xffff
  }

  // Every write is answered with something in the payload.
  lemma {:induction false} RepliesReadable(crc: CrcUnit, u: Upload, chunks: seq<seq<byte>>)
    requires u.Ok()
    ensures forall r :: r in Session(crc, u, chunks).1 ==> Readable(r)
    decreases |chunks|
  {
    if chunks != [] {
      var step := WriteStep(crc, u, chunks[0]);
      RepliesReadable(crc, step.0, chunks[1..]);
      assert Session(crc, u, chunks).1 == [step.1] + Session(crc, step.0, chunks[1..]).1;
    }
  }

  // The arguments of SendFileData as the frame that goes out.
  function OnWire(r: Reply): ConfigHost.Reply
  {
    ConfigHost.Reply(r.command, r.payload)
  }

  // Whatever the host writes, it reads back every one of the controller's replies as it was sent.
  lemma SessionReadBack(p: ConfigHost.Parser, crc: CrcUnit, u: Upload, chunks: seq<seq<byte>>)
    requires p.dataState == ConfigHost.Delimiter1 && ConfigHost.Holding(p.receiveData) && u.Ok()
    ensures var replies := Map(OnWire, Session(crc, u, chunks).1);
            ConfigHost.Sendable(replies) && Run(ConfigHost.Step, p, ConfigHost.Stream(replies)).1 == ConfigHost.AsSent(replies)
  {
    var sent := Session(crc, u, chunks).1;
    var replies := Map(OnWire, sent);
    RepliesReadable(crc, u, chunks);
    forall r | r in replies ensures r.data != [] && |r.data| <= 0xffff {
      var k :| 0 <= k < |replies| && replies[k] == r;
      assert sent[k] in sent;
    }
    ConfigHost.RepliesArrive(p, replies);
  }

  predicate DotsThen(replies: seq<Reply>, last: Reply)
  {
    && replies != [] && replies[|replies| - 1] == last
    && forall k :: 0 <= k < |replies| - 1 ==> replies[k] == Reply(WRITE, [0])
  }

  lemma OneMoreDot(replies: seq<Reply>, last: Reply)
    requires DotsThen(replies, last)
    ensures DotsThen([Reply(WRITE, [0])] + replies, last)
  {
  }

  // The replies to an image that is taken: a dot for each portion, and the CRC for the last.
  lemma {:induction false} PortionReplies(crc: CrcUnit, u: Upload, info: seq<byte>, data: seq<byte>, rest: seq<byte>)
    requires Holds(u, crc, info, data) && |data| + |rest| == Word16(info[6], info[7]) && Uploadable(|rest|)
    ensures var (u', replies) := Session(crc, u, Portions(rest));
            DotsThen(replies, Reply(WRITE, [1] + CrcBytes(crc(u'.pushed))))
    decreases |rest|
  {
    var first, tail := rest[..Min(|rest|, 0x100)], rest[Min(|rest|, 0x100)..];
    PortionsStep(rest);
    FirstPortion(info, data, rest);
    WriteKeeps(crc, u, info, data, first);
    var step := WriteStep(crc, u, first);
    if |rest| <= 0x100 {
      SessionCons(crc, u, first, []);
      assert Session(crc, step.0, []) == (step.0, []);
      assert [step.1] + [] == [step.1];
    } else {
      SessionCons(crc, u, first, Portions(tail));
      PortionReplies(crc, step.0, info, data + first, tail);
      var (u', later) := Session(crc, step.0, Portions(tail));
      OneMoreDot(later, Reply(WRITE, [1] + CrcBytes(crc(u'.pushed))));
      assert step.1 == Reply(WRITE, [0]);
    }
  }

  // The first portion of what is left, and what is left behind it.
  lemma FirstPortion(info: seq<byte>, data: seq<byte>, rest: seq<byte>)
    requires |info| == 8 && |data| + |rest| == Word16(info[6], info[7])
    ensures var n := Min(|rest|, 0x100); var first, tail := rest[..n], rest[n..];
            if |rest| > 0x100 then
              && Fits(info, data, first) && !Done(info, data + first)
              && |data + first| + |tail| == Word16(info[6], info[7])
              && (Uploadable(|tail|) <==> Uploadable(|rest|))
            else
              && first == rest && (Fits(info, data, first) <==> Uploadable(|rest|))
              && (Uploadable(|rest|) ==> Done(info, data + first))
  {
    if |rest| > 0x100 {
      assert |rest[0x100..]| % 0x100 == |rest| % 0x100;
    }
  }

  lemma SessionCons(crc: CrcUnit, u: Upload, first: seq<byte>, later: seq<seq<byte>>)
    requires u.Ok()
    ensures var step := WriteStep(crc, u, first); var rest := Session(crc, step.0, later);
            Session(crc, u, [first] + later) == (rest.0, [step.1] + rest.1)
  {
    assert ([first] + later)[1..] == later;
  }

  function LastReply(crc: CrcUnit, u: Upload, image: seq<byte>): Reply
    requires u.Ok()
  {
    var replies := Session(crc, u, Portions(image)).1;
    replies[|replies| - 1]
  }

  // The reply that completes an upload reports the CRC of the image.
  lemma LastCarriesCrc(crc: CrcUnit, u: Upload, info: seq<byte>, image: seq<byte>)
    requires Holds(u, crc, info, []) && u.pushed == []
    requires |image| == Word16(info[6], info[7]) && Uploadable(|image|)
    ensures LastReply(crc, u, image) == Reply(WRITE, [1] + CrcBytes(crc(Words(image))))
  {
    PortionReplies(crc, u, info, [], image);
    HostUpload(crc, u, info, image);
  }

  // ----- Three tries per portion -----

  // What becomes of one SendCommand.
  datatype Attempt = Heard | ReplyLost | CommandLost

  // The controller after one try, and whether the host is content: a status reply, like a missing
  // one, raises an exception and makes it try again.
  function Try(crc: CrcUnit, u: Upload, portion: seq<byte>, a: Attempt): (r: (Upload, bool))
    requires u.Ok()
    ensures r.0.Ok()
  {
    match a
    case CommandLost => (u, false)
    case ReplyLost => (WriteStep(crc, u, portion).0, false)
    case Heard => var step := WriteStep(crc, u, portion); (step.0, step.1.command == WRITE)
  }

  function SendPortion(crc: CrcUnit, u: Upload, portion: seq<byte>, attempts: seq<Attempt>): (r: (Upload, bool))
    requires u.Ok()
    ensures r.0.Ok()
    decreases |attempts|
  {
    if attempts == [] then (u, false)
    else
      var first := Try(crc, u, portion, attempts[0]);
      if first.1 then first else SendPortion(crc, first.0, portion, attempts[1..])
  }

  // The upload loop, given what becomes of each portion's tries; it stops at the first failure.
  function SendAll(crc: CrcUnit, u: Upload, portions: seq<seq<byte>>, plan: seq<seq<Attempt>>): (r: (Upload, bool))
    requires u.Ok() && |plan| >= |portions|
    ensures r.0.Ok()
    decreases |portions|
  {
    if portions == [] then (u, true)
    else
      var first := SendPortion(crc, u, portions[0], plan[0]);
      if first.1 then SendAll(crc, first.0, portions[1..], plan[1..]) else first
  }

  // The first try that reaches the controller is answered and heard.
  predicate FirstHeard(attempts: seq<Attempt>)
  {
    attempts != [] && (attempts[0] == Heard || (attempts[0] == CommandLost && FirstHeard(attempts[1..])))
  }

  // A write is answered as such exactly when the portion fits; a refused one changes nothing.
  lemma WriteVerdict(crc: CrcUnit, u: Upload, info: seq<byte>, data: seq<byte>, portion: seq<byte>)
    requires Holds(u, crc, info, data) && |portion| < 0x1_0000
    ensures WriteStep(crc, u, portion).1.command == WRITE <==> Fits(info, data, portion)
    ensures !Fits(info, data, portion) ==> WriteStep(crc, u, portion).0 == u
  {
    WriteKeeps(crc, u, info, data, portion);
  }

  lemma {:induction false} HeardPortion(crc: CrcUnit, u: Upload, info: seq<byte>, data: seq<byte>, portion: seq<byte>, attempts: seq<Attempt>)
    requires Holds(u, crc, info, data) && |portion| < 0x1_0000 && FirstHeard(attempts)
    ensures SendPortion(crc, u, portion, attempts) == (WriteStep(crc, u, portion).0, Fits(info, data, portion))
    decreases |attempts|
  {
    WriteVerdict(crc, u, info, data, portion);
    if attempts[0] != Heard {
      HeardPortion(crc, u, info, data, portion, attempts[1..]);
    } else if !Fits(info, data, portion) {
      Refused(crc, u, info, data, portion, attempts[1..]);
    }
  }

  // A portion refused once is refused at every further try.
  lemma {:induction false} Refused(crc: CrcUnit, u: Upload, info: seq<byte>, data: seq<byte>, portion: seq<byte>, attempts: seq<Attempt>)
    requires Holds(u, crc, info, data) && |portion| < 0x1_0000 && !Fits(info, data, portion)
    ensures SendPortion(crc, u, portion, attempts) == (u, false)
    decreases |attempts|
  {
    if attempts != [] {
      WriteVerdict(crc, u, info, data, portion);
      Refused(crc, u, info, data, portion, attempts[1..]);
    }
  }

  lemma SendCons(crc: CrcUnit, u: Upload, first: seq<byte>, later: seq<seq<byte>>, plan: seq<seq<Attempt>>)
    requires u.Ok() && |plan| > |later|
    ensures var r := SendPortion(crc, u, first, plan[0]);
            SendAll(crc, u, [first] + later, plan) == if r.1 then SendAll(crc, r.0, later, plan[1..]) else r
  {
    assert ([first] + later)[1..] == later;
  }

  // ----- What is stored, for any losses -----

  // The accepted bytes after the tries for one portion, and whether the host goes on.
  function Outcome(info: seq<byte>, data: seq<byte>, portion: seq<byte>, attempts: seq<Attempt>): (seq<byte>, bool)
    requires |info| == 8
    decreases |attempts|
  {
    if attempts == [] then (data, false)
    else
      match attempts[0]
      case CommandLost => Outcome(info, data, portion, attempts[1..])
      case ReplyLost => Outcome(info, Next(info, data, portion), portion, attempts[1..])
      case Heard =>
        if Fits(info, data, portion) then (data + portion, true) else Outcome(info, data, portion, attempts[1..])
  }

  function Landed(info: seq<byte>, data: seq<byte>, portions: seq<seq<byte>>, plan: seq<seq<Attempt>>): (seq<byte>, bool)
    requires |info| == 8 && |plan| >= |portions|
    decreases |portions|
  {
    if portions == [] then (data, true)
    else
      var first := Outcome(info, data, portions[0], plan[0]);
      if first.1 then Landed(info, first.0, portions[1..], plan[1..]) else first
  }

  lemma {:induction false} PortionOutcome(crc: CrcUnit, u: Upload, info: seq<byte>, data: seq<byte>, portion: seq<byte>, attempts: seq<Attempt>)
    requires Holds(u, crc, info, data) && |portion| < 0x1_0000
    ensures var r := SendPortion(crc, u, portion, attempts); var o := Outcome(info, data, portion, attempts);
            Holds(r.0, crc, info, o.0) && r.1 == o.1
    decreases |attempts|
  {
    if attempts != [] {
      NextHolds(crc, u, info, data, portion);
      WriteVerdict(crc, u, info, data, portion);
      var next := Try(crc, u, portion, attempts[0]);
      if !next.1 {
        PortionOutcome(crc, next.0, info, if attempts[0] == CommandLost then data else Next(info, data, portion), portion, attempts[1..]);
      }
    }
  }

  lemma NextHolds(crc: CrcUnit, u: Upload, info: seq<byte>, data: seq<byte>, portion: seq<byte>)
    requires Holds(u, crc, info, data) && |portion| < 0x1_0000
    ensures Holds(WriteStep(crc, u, portion).0, crc, info, Next(info, data, portion))
  {
    WriteKeeps(crc, u, info, data, portion);
  }

  // After any tries, heard or lost, the bank holds exactly this, and the host goes on or gives up.
  lemma {:induction false} UploadOutcome(crc: CrcUnit, u: Upload, info: seq<byte>, data: seq<byte>, portions: seq<seq<byte>>, plan: seq<seq<Attempt>>)
    requires Holds(u, crc, info, data) && |plan| >= |portions| && forall p :: p in portions ==> |p| < 0x1_0000
    ensures var r := SendAll(crc, u, portions, plan); var o := Landed(info, data, portions, plan);
            Holds(r.0, crc, info, o.0) && r.1 == o.1
    decreases |portions|
  {
    if portions != [] {
      assert portions[0] in portions && forall p :: p in portions[1..] ==> p in portions;
      PortionOutcome(crc, u, info, data, portions[0], plan[0]);
      var first := SendPortion(crc, u, portions[0], plan[0]);
      if first.1 {
        UploadOutcome(crc, first.0, info, Outcome(info, data, portions[0], plan[0]).0, portions[1..], plan[1..]);
      }
    }
  }

  // What is stored only grows, by the portion once if the host goes on, and by more than that unless
  // the first try to arrive was heard.
  lemma {:induction false} OutcomeGrows(info: seq<byte>, data: seq<byte>, portion: seq<byte>, attempts: seq<Attempt>)
    requires |info| == 8
    ensures var o := Outcome(info, data, portion, attempts);
            && |o.0| >= |data|
            && (o.1 ==> |portion| > 2 && |o.0| >= |data| + |portion|)
            && (o.1 && !FirstHeard(attempts) ==> |o.0| > |data| + |portion|)
    decreases |attempts|
  {
    if attempts != [] {
      OutcomeGrows(info, if attempts[0] == ReplyLost then Next(info, data, portion) else data, portion, attempts[1..]);
      if attempts[0] == ReplyLost && !Fits(info, data, portion) {
        NeverFits(info, data, portion, attempts[1..]);
      }
      if attempts[0] == Heard && !Fits(info, data, portion) {
        NeverFits(info, data, portion, attempts[1..]);
      }
    }
  }

  lemma {:induction false} NeverFits(info: seq<byte>, data: seq<byte>, portion: seq<byte>, attempts: seq<Attempt>)
    requires |info| == 8 && !Fits(info, data, portion)
    ensures Outcome(info, data, portion, attempts) == (data, false)
    decreases |attempts|
  {
    if attempts != [] {
      NeverFits(info, data, portion, attempts[1..]);
    }
  }

  lemma LandedCons(info: seq<byte>, data: seq<byte>, first: seq<byte>, later: seq<seq<byte>>, plan: seq<seq<Attempt>>)
    requires |info| == 8 && |plan| > |later|
    ensures var o := Outcome(info, data, first, plan[0]);
            Landed(info, data, [first] + later, plan) == if o.1 then Landed(info, o.0, later, plan[1..]) else o
  {
    assert ([first] + later)[1..] == later;
  }

  // A host with more stored than it has sent never gets through.
  lemma {:induction false} TooMuchStored(info: seq<byte>, data: seq<byte>, rest: seq<byte>, plan: seq<seq<Attempt>>)
    requires |info| == 8 && |plan| >= |Portions(rest)| && |data| + |rest| > Word16(info[6], info[7])
    ensures !Landed(info, data, Portions(rest), plan).1
    decreases |rest|
  {
    var first, tail := rest[..Min(|rest|, 0x100)], rest[Min(|rest|, 0x100)..];
    PortionsStep(rest);
    if |rest| <= 0x100 {
      NeverFits(info, data, first, plan[0]);
      LandedCons(info, data, first, [], plan);
    } else {
      OutcomeGrows(info, data, first, plan[0]);
      LandedCons(info, data, first, Portions(tail), plan);
      if Outcome(info, data, first, plan[0]).1 {
        TooMuchStored(info, Outcome(info, data, first, plan[0]).0, tail, plan[1..]);
      }
    }
  }

  // ----- When an upload gets through -----

  predicate AllFirstHeard(plan: seq<seq<Attempt>>, n: nat)
    requires n <= |plan|
  {
    forall k :: 0 <= k < n ==> FirstHeard(plan[k])
  }

  lemma AllFirstHeardStep(plan: seq<seq<Attempt>>, n: nat)
    requires 0 < n <= |plan|
    ensures AllFirstHeard(plan, n) <==> FirstHeard(plan[0]) && AllFirstHeard(plan[1..], n - 1)
  {
    if FirstHeard(plan[0]) && AllFirstHeard(plan[1..], n - 1) {
      forall k | 0 <= k < n ensures FirstHeard(plan[k]) {
        assert k > 0 ==> plan[k] == plan[1..][k - 1];
      }
    }
  }

  // If the first try to arrive is heard for every portion, the losses leave no mark.
  lemma {:induction false} HeardUpload(crc: CrcUnit, u: Upload, info: seq<byte>, data: seq<byte>, rest: seq<byte>, plan: seq<seq<Attempt>>)
    requires Holds(u, crc, info, data) && |data| + |rest| == Word16(info[6], info[7])
    requires |plan| >= |Portions(rest)| && AllFirstHeard(plan, |Portions(rest)|)
    ensures SendAll(crc, u, Portions(rest), plan) == (Session(crc, u, Portions(rest)).0, Uploadable(|rest|))
    decreases |rest|
  {
    var first, tail := rest[..Min(|rest|, 0x100)], rest[Min(|rest|, 0x100)..];
    PortionsStep(rest);
    FirstPortion(info, data, rest);
    AllFirstHeardStep(plan, |Portions(rest)|);
    HeardPortion(crc, u, info, data, first, plan[0]);
    WriteKeeps(crc, u, info, data, first);
    var next := WriteStep(crc, u, first).0;
    if |rest| <= 0x100 {
      SessionCons(crc, u, first, []);
      SendCons(crc, u, first, [], plan);
    } else {
      SessionCons(crc, u, first, Portions(tail));
      SendCons(crc, u, first, Portions(tail), plan);
      HeardUpload(crc, next, info, data + first, tail, plan[1..]);
    }
  }

  // If the host gets through, the first try to arrive was heard for every portion.
  lemma {:induction false} ThroughMeansHeard(info: seq<byte>, data: seq<byte>, rest: seq<byte>, plan: seq<seq<Attempt>>)
    requires |info| == 8 && |data| + |rest| == Word16(info[6], info[7]) && |plan| >= |Portions(rest)|
    requires Landed(info, data, Portions(rest), plan).1
    ensures AllFirstHeard(plan, |Portions(rest)|)
    decreases |rest|
  {
    var first, tail := rest[..Min(|rest|, 0x100)], rest[Min(|rest|, 0x100)..];
    PortionsStep(rest);
    AllFirstHeardStep(plan, |Portions(rest)|);
    OutcomeGrows(info, data, first, plan[0]);
    var o := Outcome(info, data, first, plan[0]);
    if |rest| <= 0x100 {
      LandedCons(info, data, first, [], plan);
      StoredFits(info, data, first, plan[0]);
    } else {
      LandedCons(info, data, first, Portions(tail), plan);
      if !FirstHeard(plan[0]) {
        TooMuchStored(info, o.0, tail, plan[1..]);
      } else {
        HeardOutcome(info, data, first, plan[0]);
        ThroughMeansHeard(info, o.0, tail, plan[1..]);
      }
    }
  }

  lemma {:induction false} StoredFits(info: seq<byte>, data: seq<byte>, portion: seq<byte>, attempts: seq<Attempt>)
    requires |info| == 8 && |data| <= Word16(info[6], info[7])
    ensures |Outcome(info, data, portion, attempts).0| <= Word16(info[6], info[7])
    decreases |attempts|
  {
    if attempts != [] {
      StoredFits(info, if attempts[0] == ReplyLost then Next(info, data, portion) else data, portion, attempts[1..]);
    }
  }

  lemma {:induction false} HeardOutcome(info: seq<byte>, data: seq<byte>, portion: seq<byte>, attempts: seq<Attempt>)
    requires |info| == 8 && FirstHeard(attempts) && Outcome(info, data, portion, attempts).1
    ensures Outcome(info, data, portion, attempts).0 == data + portion
    decreases |attempts|
  {
    if attempts[0] == CommandLost {
      HeardOutcome(info, data, portion, attempts[1..]);
    } else if !Fits(info, data, portion) {
      NeverFits(info, data, portion, attempts[1..]);
    }
  }

  // For every plan of losses: the host gets through exactly when the image can be uploaded and, for
  // each portion, the first try that reaches the controller is heard; and then the controller is as
  // after a session without losses.
  lemma UploadExact(crc: CrcUnit, u: Upload, info: seq<byte>, image: seq<byte>, plan: seq<seq<Attempt>>)
    requires Holds(u, crc, info, []) && |image| == Word16(info[6], info[7]) && |plan| >= |Portions(image)|
    ensures SendAll(crc, u, Portions(image), plan).1 <==> Uploadable(|image|) && AllFirstHeard(plan, |Portions(image)|)
    ensures SendAll(crc, u, Portions(image), plan).1 ==>
              SendAll(crc, u, Portions(image), plan).0 == Session(crc, u, Portions(image)).0
  {
    UploadOutcome(crc, u, info, [], Portions(image), plan);
    if SendAll(crc, u, Portions(image), plan).1 {
      ThroughMeansHeard(info, [], image, plan);
    }
    if AllFirstHeard(plan, |Portions(image)|) {
      HeardUpload(crc, u, info, [], image, plan);
    }
  }

  // One lost reply can leave a wrong image that counts as complete: the host gives up on the second
  // of two portions, since the first is stored twice, and units are sent the first one doubled.
  lemma WrongImageServed(crc: CrcUnit, u: Upload, info: seq<byte>, a: seq<byte>, b: seq<byte>, plan: seq<seq<Attempt>>)
    requires Holds(u, crc, info, []) && Word16(info[6], info[7]) == 0x200 && |a| == |b| == 0x100 && a != b
    requires plan == [[ReplyLost, Heard, Heard], [Heard, Heard, Heard]]
    ensures |Portions(a + b)| == 2
    ensures var r := SendAll(crc, u, Portions(a + b), plan);
            && !r.1 && Holds(r.0, crc, info, a + a) && a + a != a + b && r.0.bank[3] == 0
            && FirmwareManager.Serves(r.0.bank, info[2]) && FirmwareManager.Stored(r.0.bank) == a + a
  {
    TwoPortions(a, b);
    assert Portions(a + b) == [a] + [b];
    var o := Landed(info, [], [a] + [b], plan);
    StoredTwice(info, a, plan[0]);
    assert !Fits(info, a + a, b);
    NeverFits(info, a + a, b, plan[1]);
    LandedCons(info, [], a, [b], plan);
    LandedCons(info, a + a, b, [], plan[1..]);
    assert [b] + [] == [b];
    UploadOutcome(crc, u, info, [], [a] + [b], plan);
    var r := SendAll(crc, u, Portions(a + b), plan);
    DoneTag(r.0, crc, info, a + a);
    FirmwareManager.CompleteMeansServed(r.0, crc, info, a + a, info[2]);
    assert (a + a)[0x100..] == a && (a + b)[0x100..] == b;
  }

  lemma TwoPortions(a: seq<byte>, b: seq<byte>)
    requires |a| == |b| == 0x100
    ensures Portions(a + b) == [a, b]
  {
    assert (a + b)[..0x100] == a && (a + b)[0x100..] == b;
    PortionsStep(a + b);
    PortionsStep(b);
  }

  lemma StoredTwice(info: seq<byte>, a: seq<byte>, attempts: seq<Attempt>)
    requires |info| == 8 && Word16(info[6], info[7]) == 0x200 && |a| == 0x100 && attempts == [ReplyLost, Heard, Heard]
    ensures Outcome(info, [], a, attempts) == (a + a, true)
  {
    assert [] + a == a;
    assert attempts[1..] == [Heard, Heard];
    assert Outcome(info, a, a, [Heard, Heard]) == (a + a, true);
  }

  // ----- The host's code -----

  // The inner loop: count tries are left.
  method SendOne(crc: CrcUnit, u: Upload, portion: seq<byte>, attempts: seq<Attempt>) returns (after: Upload, ok: bool)
    requires u.Ok() && |attempts| == 3
    ensures (after, ok) == SendPortion(crc, u, portion, attempts) && after.Ok()
  {
    after := u;
    var count := 3;
    assert attempts[0..] == attempts;
    while count > 0
      invariant 0 <= count <= 3 && after.Ok()
      invariant SendPortion(crc, u, portion, attempts) == SendPortion(crc, after, portion, attempts[3 - count..])
    {
      assert attempts[3 - count..][1..] == attempts[3 - (count - 1)..];
      var try := Try(crc, after, portion, attempts[3 - count]);
      after := try.0;
      if try.1 {
        return after, true;
      }
      count := count - 1;
    }
    assert attempts[3..] == [];
    return after, false;
  }

  // SendFile from its upload loop on.  What becomes of the tries is given portion by portion.
  method SendFile(crc: CrcUnit, u: Upload, file: seq<byte>, plan: seq<seq<Attempt>>) returns (after: Upload, ok: bool)
    requires u.Ok() && |plan| >= |Portions(file)| && forall attempts :: attempts in plan ==> |attempts| == 3
    ensures (after, ok) == SendAll(crc, u, Portions(file), plan)
  {
    after := u;
    var position, n := 0, 0;
    ghost var whole := SendAll(crc, u, Portions(file), plan);
    assert file[0..] == file && plan[0..] == plan;
    while true
      invariant 0 <= position <= |file| && n + |Portions(file[position..])| <= |plan| && after.Ok()
      invariant SendAll(crc, after, Portions(file[position..]), plan[n..]) == whole
      decreases |file| - position, |plan| - n
    {
      var len := |file| - position;
      if len >= 0x100 {
        len := 0x100;
      }
      assert plan[n] in plan;
      LoopStep(crc, after, file, position, len, plan, n);
      after, ok := SendOne(crc, after, file[position..position + len], plan[n]);
      if !ok {
        return after, false;
      }
      position := position + len;
      n := n + 1;
      if position >= |file| {
        return after, true;
      }
    }
  }

  // One turn of the upload loop.
  lemma LoopStep(crc: CrcUnit, u: Upload, file: seq<byte>, position: nat, len: nat, plan: seq<seq<Attempt>>, n: nat)
    requires position <= |file| && len == Min(|file| - position, 0x100) && u.Ok()
    requires n + |Portions(file[position..])| <= |plan|
    ensures position + len < |file| ==> n + 1 + |Portions(file[position + len..])| <= |plan|
    ensures var r := SendPortion(crc, u, file[position..position + len], plan[n]);
            SendAll(crc, u, Portions(file[position..]), plan[n..]) ==
            if r.1 && position + len < |file| then SendAll(crc, r.0, Portions(file[position + len..]), plan[n + 1..]) else r
  {
    var rest := file[position..];
    var later := if position + len < |file| then Portions(file[position + len..]) else [];
    PortionsStep(rest);
    RestOf(file, position, len);
    SendCons(crc, u, rest[..len], later, plan[n..]);
    RestOf(plan, n, 1);
  }

  lemma RestOf<T>(s: seq<T>, from: nat, n: nat)
    requires from + n <= |s|
    ensures s[from..][..n] == s[from..from + n] && s[from..][n..] == s[from + n..]
  {
  }

  lemma PortionsStep(rest: seq<byte>)
    ensures var n := Min(|rest|, 0x100);
            Portions(rest) == [rest[..n]] + if |rest| > 0x100 then Portions(rest[n..]) else []
  {
    if |rest| <= 0x100 {
      assert rest[..|rest|] == rest;
    }
  }
}
