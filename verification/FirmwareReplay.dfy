/**
 Where the pages of an update land.  The controller numbers the pages it sends and sends each up to
 three times; the bridge ignores the number and programs every page that arrives at a counter of its
 own, which it raises with each page it has programmed.
 */
module FirmwareReplay {
  import opened Bytes

  // What becomes of one page sent: programmed and acknowledged; programmed, but no acknowledgement
  // is heard; not programmed and nothing heard; not programmed, and the error is heard.
  datatype Attempt = Acknowledged | AckLost | NothingDone | Failed

  // The pages programmed so far; the next one goes to number |flash|.
  type Flash = seq<seq<byte>>

  function Programmed(flash: Flash, page: seq<byte>, a: Attempt): Flash
  {
    if a == Acknowledged || a == AckLost then flash + [page] else flash
  }

  // ISPProgram::ProgramData: any message ends the tries, and an error is a failure.
  function Sent(flash: Flash, page: seq<byte>, attempts: seq<Attempt>): (Flash, bool)
    decreases |attempts|
  {
    if attempts == [] then (flash, false)
    else
      var next := Programmed(flash, page, attempts[0]);
      if attempts[0] == Acknowledged then (next, true)
      else if attempts[0] == Failed then (next, false)
      else Sent(next, page, attempts[1..])
  }

  // The page loop of UpdateOne.
  function Replayed(flash: Flash, pages: seq<seq<byte>>, plan: seq<seq<Attempt>>): (Flash, bool)
    requires |plan| >= |pages|
    decreases |pages|
  {
    if pages == [] then (flash, true)
    else
      var first := Sent(flash, pages[0], plan[0]);
      if first.1 then Replayed(first.0, pages[1..], plan[1..]) else first
  }

  // The first try that does anything is acknowledged.
  predicate FirstAcknowledged(attempts: seq<Attempt>)
  {
    attempts != [] && (attempts[0] == Acknowledged || (attempts[0] == NothingDone && FirstAcknowledged(attempts[1..])))
  }

  predicate AllFirst(plan: seq<seq<Attempt>>, n: nat)
    requires n <= |plan|
  {
    forall k :: 0 <= k < n ==> FirstAcknowledged(plan[k])
  }

  lemma AllFirstStep(plan: seq<seq<Attempt>>, n: nat)
    requires 0 < n <= |plan|
    ensures AllFirst(plan, n) <==> FirstAcknowledged(plan[0]) && AllFirst(plan[1..], n - 1)
  {
    if FirstAcknowledged(plan[0]) && AllFirst(plan[1..], n - 1) {
      forall k | 0 <= k < n ensures FirstAcknowledged(plan[k]) {
        assert k > 0 ==> plan[k] == plan[1..][k - 1];
      }
    }
  }

  // A page that is sent well has been programmed once, or more often unless the first try that did
  // anything was acknowledged.
  lemma {:induction false} SentGrows(flash: Flash, page: seq<byte>, attempts: seq<Attempt>)
    ensures var s := Sent(flash, page, attempts);
            && |s.0| >= |flash|
            && (FirstAcknowledged(attempts) ==> s == (flash + [page], true))
            && (s.1 ==> |s.0| > |flash|)
            && (s.1 && !FirstAcknowledged(attempts) ==> |s.0| > |flash| + 1)
    decreases |attempts|
  {
    if attempts != [] {
      SentGrows(Programmed(flash, page, attempts[0]), page, attempts[1..]);
    }
  }

  lemma {:induction false} ReplayGrows(flash: Flash, pages: seq<seq<byte>>, plan: seq<seq<Attempt>>)
    requires |plan| >= |pages|
    ensures var r := Replayed(flash, pages, plan);
            && (AllFirst(plan, |pages|) ==> r == (flash + pages, true))
            && (r.1 ==> |r.0| >= |flash| + |pages|)
            && (r.1 && !AllFirst(plan, |pages|) ==> |r.0| > |flash| + |pages|)
    decreases |pages|
  {
    if pages == [] {
      assert flash + pages == flash;
    } else {
      SentGrows(flash, pages[0], plan[0]);
      AllFirstStep(plan, |pages|);
      ReplayGrows(Sent(flash, pages[0], plan[0]).0, pages[1..], plan[1..]);
      assert flash + [pages[0]] + pages[1..] == flash + pages;
    }
  }

  // For every plan of losses: the update is reported well and every page is at its own number, and
  // nothing else, exactly when for each page the first try that does anything is acknowledged.
  lemma PagesInPlace(pages: seq<seq<byte>>, plan: seq<seq<Attempt>>)
    requires |plan| >= |pages|
    ensures Replayed([], pages, plan) == (pages, true) <==> AllFirst(plan, |pages|)
  {
    ReplayGrows([], pages, plan);
    assert [] + pages == pages;
  }

  // One lost acknowledgement: the update is still reported well, but the page is programmed twice
  // and all later ones land one number too far.
  lemma LostAckShifts(before: seq<seq<byte>>, page: seq<byte>, after: seq<seq<byte>>, plan: seq<seq<Attempt>>)
    requires |plan| == |before| + 1 + |after| && |plan[|before|]| > 1
    requires forall k :: 0 <= k < |plan| && k != |before| ==> FirstAcknowledged(plan[k])
    requires plan[|before|][0] == AckLost && FirstAcknowledged(plan[|before|][1..])
    ensures Replayed([], before + [page] + after, plan) == (before + [page] + [page] + after, true)
  {
    ShiftsFrom([], before, page, after, plan);
    assert [] + before + [page] + [page] + after == before + [page] + [page] + after;
  }

  lemma {:induction false} ShiftsFrom(flash: Flash, before: seq<seq<byte>>, page: seq<byte>, after: seq<seq<byte>>, plan: seq<seq<Attempt>>)
    requires |plan| == |before| + 1 + |after| && |plan[|before|]| > 1
    requires forall k :: 0 <= k < |plan| && k != |before| ==> FirstAcknowledged(plan[k])
    requires plan[|before|][0] == AckLost && FirstAcknowledged(plan[|before|][1..])
    ensures Replayed(flash, before + [page] + after, plan) == (flash + before + [page] + [page] + after, true)
    decreases |before|
  {
    var pages := before + [page] + after;
    if before == [] {
      SentGrows(flash + [page], page, plan[0][1..]);
      assert pages[0] == page && pages[1..] == after;
      ReplayGrows(flash + [page] + [page], after, plan[1..]);
      assert flash + before == flash;
    } else {
      SentGrows(flash, before[0], plan[0]);
      assert pages[0] == before[0] && pages[1..] == before[1..] + [page] + after;
      ShiftsFrom(flash + [before[0]], before[1..], page, after, plan[1..]);
      assert flash + [before[0]] + before[1..] == flash + before;
    }
  }

  // The bridge, and the controller's three tries.
  class Bridge {
    var flash: Flash

    constructor ()
      ensures flash == []
    {
      flash := [];
    }

    method ProgramData(page: seq<byte>, attempts: seq<Attempt>) returns (ok: bool)
      requires |attempts| == 3
      modifies this
      ensures (flash, ok) == Sent(old(flash), page, attempts)
    {
      assert attempts[0..] == attempts;
      for j := 0 to 3
        invariant Sent(flash, page, attempts[j..]) == Sent(old(flash), page, attempts)
      {
        assert attempts[j..][1..] == attempts[j + 1..];
        flash := Programmed(flash, page, attempts[j]);
        if attempts[j] == Acknowledged {
          return true;
        }
        if attempts[j] == Failed {
          return false;
        }
      }
      assert attempts[3..] == [];
      return false;
    }
  }
}
