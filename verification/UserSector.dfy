/**
 PrepareWriteFlash: blank a window of the user sector while keeping everything around it, by way
 of the backup sector.
 */
module UserSector {
  import opened Bytes
  import opened FlashMemory

  const USER_SIZE: nat := 0x4000

  predicate Outside(addr: nat, limit: nat, k: nat)
  {
    k < USER_SIZE && !(addr <= k < limit)
  }

  // Everything outside the window is intact in the sector that starts at base.
  ghost predicate Intact(cells: seq<byte>, base: nat, user: seq<byte>, addr: nat, limit: nat)
    requires |user| == USER_SIZE
  {
    base + USER_SIZE <= |cells| && forall k :: base <= k < base + USER_SIZE && Outside(addr, limit, k - base) ==> cells[k] == user[k - base]
  }

  ghost predicate CrashSafe(cells: seq<byte>, user: seq<byte>, addr: nat, limit: nat)
    requires |user| == USER_SIZE
  {
    Intact(cells, 0, user, addr, limit) || Intact(cells, USER_SIZE, user, addr, limit)
  }

  // The call leaves the two sectors: the copy loop starts behind the window, at or past the end.
  predicate Strays(addr: nat, size: nat)
  {
    addr < USER_SIZE <= addr + size
  }

  predicate WithinSectors(op: Op)
  {
    match op
    case Erase(from, to) => to <= 2 * USER_SIZE
    case Program(at, bytes) => at + |bytes| <= 2 * USER_SIZE
  }

  ghost predicate Good(step: Step, user: seq<byte>, addr: nat, size: nat)
    requires |user| == USER_SIZE
  {
    && CrashSafe(step.before, user, addr, addr + size)
    && (WithinSectors(step.op) && step.op.Program? ==>
          IsBlank(step.before, step.op.at, step.op.at + |step.op.bytes|))
    && (!Strays(addr, size) ==> WithinSectors(step.op))
  }

  // One call: the flash contents it found, and its arguments.
  datatype Job = Job(before: seq<byte>, addr: nat, size: nat)
  {
    function Limit(): nat { addr + size }
  }

  predicate Fits(job: Job)
  {
    2 * USER_SIZE <= |job.before| && job.Limit() + USER_SIZE + 4 <= |job.before|
  }

  // While the backup is filled: the user sector is untouched, and the backup holds the bytes below
  // lo and those from the limit up to hi.
  ghost predicate Held(cells: seq<byte>, job: Job, lo: nat, hi: nat)
    requires Fits(job)
  {
    && |cells| == |job.before|
    && (forall k :: 0 <= k < USER_SIZE ==> cells[k] == job.before[k])
    && (forall k :: USER_SIZE <= k < 2 * USER_SIZE ==>
          cells[k] == if k - USER_SIZE < lo || job.Limit() <= k - USER_SIZE < hi then job.before[k - USER_SIZE] else BLANK)
    && (!Strays(job.addr, job.size) ==> forall k :: 2 * USER_SIZE <= k < |cells| ==> cells[k] == job.before[k])
  }

  ghost predicate AllGood(trace: seq<Step>, prev: seq<Step>, job: Job)
    requires Fits(job)
  {
    prev <= trace &&
    forall j :: |prev| <= j < |trace| ==> Good(trace[j], job.before[..USER_SIZE], job.addr, job.size)
  }

  ghost predicate LeftSectors(trace: seq<Step>, prev: seq<Step>)
  {
    exists j :: |prev| <= j < |trace| && !WithinSectors(trace[j].op)
  }

  // HAL_FLASH_Program of the byte or word read from one place to another.
  method CopyUnit(flash: Flash, from: nat, to: nat, n: nat)
    requires from + n <= flash.cells.Length && to + n <= flash.cells.Length
    modifies flash`Trace, flash.cells
    ensures flash.cells[..] == Programmed(old(flash.cells[..]), to, old(flash.cells[from..from + n]))
    ensures flash.Trace == old(flash.Trace) + [Step(Program(to, old(flash.cells[from..from + n])), old(flash.cells[..]))]
  {
    flash.ProgramBytes(to, flash.cells[from..from + n]);
  }

  lemma AllGoodSnoc(trace: seq<Step>, prev: seq<Step>, job: Job, step: Step)
    requires Fits(job) && AllGood(trace, prev, job)
    requires Good(step, job.before[..USER_SIZE], job.addr, job.size)
    ensures AllGood(trace + [step], prev, job)
    ensures LeftSectors(trace, prev) || !WithinSectors(step.op) ==> LeftSectors(trace + [step], prev)
  {
    var longer := trace + [step];
    if LeftSectors(trace, prev) {
      var j :| |prev| <= j < |trace| && !WithinSectors(trace[j].op);
      assert !WithinSectors(longer[j].op);
    } else if !WithinSectors(step.op) {
      assert !WithinSectors(longer[|trace|].op);
    }
  }

  lemma HeldIsSafe(cells: seq<byte>, job: Job, lo: nat, hi: nat)
    requires Fits(job) && Held(cells, job, lo, hi)
    ensures CrashSafe(cells, job.before[..USER_SIZE], job.addr, job.Limit())
  {
    assert Intact(cells, 0, job.before[..USER_SIZE], job.addr, job.Limit());
  }

  lemma LowBlank(was: seq<byte>, job: Job, i: nat, n: nat)
    requires Fits(job) && i + n <= job.addr && i + n <= USER_SIZE && Held(was, job, i, job.Limit())
    ensures IsBlank(was, USER_SIZE + i, USER_SIZE + i + n)
  {
  }

  lemma LowHeld(was: seq<byte>, job: Job, i: nat, n: nat)
    requires Fits(job) && i + n <= job.addr && i + n <= USER_SIZE && Held(was, job, i, job.Limit())
    ensures Held(Programmed(was, USER_SIZE + i, was[i..i + n]), job, i + n, job.Limit())
    ensures Good(Step(Program(USER_SIZE + i, was[i..i + n]), was), job.before[..USER_SIZE], job.addr, job.size)
  {
    LowBlank(was, job, i, n);
    HeldIsSafe(was, job, i, job.Limit());
    LowProgrammed(was, job, i, n);
  }

  lemma LowProgrammed(was: seq<byte>, job: Job, i: nat, n: nat)
    requires Fits(job) && i + n <= job.addr && i + n <= USER_SIZE && Held(was, job, i, job.Limit())
    ensures Held(Programmed(was, USER_SIZE + i, was[i..i + n]), job, i + n, job.Limit())
  {
    LowBlank(was, job, i, n);
    ProgrammedBlank(was, USER_SIZE + i, was[i..i + n]);
  }

  lemma HighHeld(was: seq<byte>, job: Job, i: nat, n: nat)
    requires Fits(job) && job.Limit() <= i && i + n <= USER_SIZE && Held(was, job, job.addr, i)
    ensures Held(Programmed(was, USER_SIZE + i, was[i..i + n]), job, job.addr, i + n)
    ensures Good(Step(Program(USER_SIZE + i, was[i..i + n]), was), job.before[..USER_SIZE], job.addr, job.size)
  {
    HighProgrammed(was, job, i, n);
    HeldIsSafe(was, job, job.addr, i);
  }

  lemma HighProgrammed(was: seq<byte>, job: Job, i: nat, n: nat)
    requires Fits(job) && job.Limit() <= i && i + n <= USER_SIZE && Held(was, job, job.addr, i)
    ensures IsBlank(was, USER_SIZE + i, USER_SIZE + i + n)
    ensures Held(Programmed(was, USER_SIZE + i, was[i..i + n]), job, job.addr, i + n)
  {
    ProgrammedBlank(was, USER_SIZE + i, was[i..i + n]);
  }

  lemma StrayHeld(was: seq<byte>, job: Job, i: nat, n: nat)
    requires Fits(job) && USER_SIZE <= job.Limit() <= i && i + n <= |job.before| - USER_SIZE && n > 0
    requires Strays(job.addr, job.size) && Held(was, job, job.addr, i)
    ensures Held(Programmed(was, USER_SIZE + i, was[i..i + n]), job, job.addr, i + n)
    ensures Good(Step(Program(USER_SIZE + i, was[i..i + n]), was), job.before[..USER_SIZE], job.addr, job.size)
    ensures !WithinSectors(Program(USER_SIZE + i, was[i..i + n]))
  {
    HeldIsSafe(was, job, job.addr, i);
  }

  // Copies below the window.
  method CopyLow(flash: Flash, i: nat, n: nat, ghost job: Job, ghost prev: seq<Step>)
    requires Fits(job) && i + n <= job.addr && i + n <= USER_SIZE
    requires Held(flash.cells[..], job, i, job.Limit()) && AllGood(flash.Trace, prev, job)
    modifies flash`Trace, flash.cells
    ensures Held(flash.cells[..], job, i + n, job.Limit()) && AllGood(flash.Trace, prev, job)
  {
    ghost var was := flash.cells[..];
    assert flash.cells[i..i + n] == was[i..i + n];
    LowHeld(was, job, i, n);
    AllGoodSnoc(flash.Trace, prev, job, Step(Program(USER_SIZE + i, was[i..i + n]), was));
    CopyUnit(flash, i, USER_SIZE + i, n);
  }

  // Copies above the window; past the end of the sector when the window reaches it.
  method CopyHigh(flash: Flash, i: nat, n: nat, ghost job: Job, ghost prev: seq<Step>)
    requires Fits(job) && job.Limit() <= i && i + n <= |job.before| - USER_SIZE && n > 0
    requires i + n <= USER_SIZE || Strays(job.addr, job.size)
    requires Held(flash.cells[..], job, job.addr, i) && AllGood(flash.Trace, prev, job)
    modifies flash`Trace, flash.cells
    ensures Held(flash.cells[..], job, job.addr, i + n) && AllGood(flash.Trace, prev, job)
    ensures Strays(job.addr, job.size) || old(LeftSectors(flash.Trace, prev)) ==> LeftSectors(flash.Trace, prev)
  {
    ghost var was := flash.cells[..];
    assert flash.cells[i..i + n] == was[i..i + n];
    if Strays(job.addr, job.size) {
      StrayHeld(was, job, i, n);
    } else {
      HighHeld(was, job, i, n);
    }
    AllGoodSnoc(flash.Trace, prev, job, Step(Program(USER_SIZE + i, was[i..i + n]), was));
    CopyUnit(flash, i, USER_SIZE + i, n);
  }

  // The byte loop up to an address that is not a multiple of four.
  method CopyEdge(flash: Flash, from: nat, addr: nat, ghost job: Job, ghost prev: seq<Step>)
    requires Fits(job) && job.addr == addr && from <= addr <= USER_SIZE
    requires Held(flash.cells[..], job, from, job.Limit()) && AllGood(flash.Trace, prev, job)
    modifies flash`Trace, flash.cells
    ensures Held(flash.cells[..], job, addr, job.Limit()) && AllGood(flash.Trace, prev, job)
  {
    var i := from;
    while i < addr
      invariant i <= addr
      invariant Held(flash.cells[..], job, i, job.Limit()) && AllGood(flash.Trace, prev, job)
    {
      CopyLow(flash, i, 1, job, prev);
      i := i + 1;
    }
  }

  // The byte loop from a limit that is not a multiple of four to the next one.
  method CopyTail(flash: Flash, limit: nat, count: nat, ghost job: Job, ghost prev: seq<Step>)
    requires Fits(job) && job.Limit() == limit && 0 < count <= 4
    requires limit + count <= USER_SIZE || Strays(job.addr, job.size)
    requires Held(flash.cells[..], job, job.addr, limit) && AllGood(flash.Trace, prev, job)
    modifies flash`Trace, flash.cells
    ensures Held(flash.cells[..], job, job.addr, limit + count) && AllGood(flash.Trace, prev, job)
    ensures Strays(job.addr, job.size) ==> LeftSectors(flash.Trace, prev)
  {
    var i, error := limit, count;
    while error > 0
      invariant i + error == limit + count && limit <= i
      invariant Held(flash.cells[..], job, job.addr, i) && AllGood(flash.Trace, prev, job)
      invariant i > limit && Strays(job.addr, job.size) ==> LeftSectors(flash.Trace, prev)
    {
      CopyHigh(flash, i, 1, job, prev);
      error := error - 1;
      i := i + 1;
    }
  }

  // x & ~0x3
  function AlignDown(x: nat): (r: nat)
    ensures r == 4 * (x / 4) && r <= x < r + 4
  {
    x / 4 * 4
  }

  // The backup loop at its head: either still below the window, or past it.
  ghost predicate Progress(cells: seq<byte>, trace: seq<Step>, job: Job, prev: seq<Step>, i: nat)
    requires Fits(job)
  {
    && AllGood(trace, prev, job)
    && if i <= job.addr then Held(cells, job, i, job.Limit())
       else i >= job.Limit() && Held(cells, job, job.addr, i)
            && (Strays(job.addr, job.size) ==> i >= USER_SIZE && LeftSectors(trace, prev))
  }

  // One word at or past the limit, or what of it lies past the limit.
  method CopyPast(flash: Flash, i: nat, ghost q: nat, limit: nat, ghost job: Job, ghost prev: seq<Step>)
    requires Fits(job) && job.Limit() == limit && i == 4 * q && limit < i + 4
    requires i < USER_SIZE || (Strays(job.addr, job.size) && i <= limit)
    requires Held(flash.cells[..], job, job.addr, if i < limit then limit else i) && AllGood(flash.Trace, prev, job)
    modifies flash`Trace, flash.cells
    ensures Held(flash.cells[..], job, job.addr, i + 4) && AllGood(flash.Trace, prev, job)
    ensures Strays(job.addr, job.size) ==> LeftSectors(flash.Trace, prev)
  {
    if i < limit {
      CopyTail(flash, limit, i + 4 - limit, job, prev);
    } else {
      CopyHigh(flash, i, 4, job, prev);
    }
  }

  // The first half of PrepareWriteFlash: everything outside the window goes to the backup sector.
  // At the window i jumps to the word that holds the limit, which can lie before i; the measure is
  // which side of the window the loop is on.
  method FillBackup(flash: Flash, addr: nat, size: nat, ghost job: Job, ghost prev: seq<Step>)
    requires Fits(job) && job.addr == addr && job.size == size
    requires Progress(flash.cells[..], flash.Trace, job, prev, 0)
    modifies flash`Trace, flash.cells
    ensures AllGood(flash.Trace, prev, job)
    ensures exists i :: i >= USER_SIZE && Progress(flash.cells[..], flash.Trace, job, prev, i)
  {
    var i := 0;
    ghost var q := 0;
    var limit := addr + size;
    while i < USER_SIZE
      invariant i == 4 * q && Progress(flash.cells[..], flash.Trace, job, prev, i)
      decreases i <= addr, USER_SIZE - i
    {
      if i < addr {
        if i + 4 <= addr {
          CopyLow(flash, i, 4, job, prev);
          i, q := i + 4, q + 1;
          continue;
        } else {
          CopyEdge(flash, i, addr, job, prev);
          i, q := AlignDown(limit), limit / 4;
        }
      } else if i == addr {
        i, q := AlignDown(limit), limit / 4;
      }
      CopyPast(flash, i, q, limit, job, prev);
      i, q := i + 4, q + 1;
    }
  }

  // While the user sector is rewritten: the backup is complete, the user sector holds its first i bytes.
  ghost predicate Restored(cells: seq<byte>, job: Job, i: nat)
    requires Fits(job)
  {
    && |cells| == |job.before|
    && (forall k :: USER_SIZE <= k < 2 * USER_SIZE ==>
          cells[k] == if Outside(job.addr, job.Limit(), k - USER_SIZE) then job.before[k - USER_SIZE] else BLANK)
    && (forall k :: 0 <= k < USER_SIZE ==>
          cells[k] == if k < i && Outside(job.addr, job.Limit(), k) then job.before[k] else BLANK)
    && (!Strays(job.addr, job.size) ==> forall k :: 2 * USER_SIZE <= k < |cells| ==> cells[k] == job.before[k])
  }

  lemma FilledIsComplete(cells: seq<byte>, trace: seq<Step>, job: Job, prev: seq<Step>, i: nat)
    requires Fits(job) && i >= USER_SIZE && Progress(cells, trace, job, prev, i)
    ensures Restored(Splice(cells, 0, Blank(USER_SIZE)), job, 0)
    ensures Good(Step(Erase(0, USER_SIZE), cells), job.before[..USER_SIZE], job.addr, job.size)
  {
    if i <= job.addr {
      HeldIsSafe(cells, job, i, job.Limit());
    } else {
      HeldIsSafe(cells, job, job.addr, i);
    }
  }

  lemma RestoreStep(was: seq<byte>, job: Job, i: nat)
    requires Fits(job) && i + 4 <= USER_SIZE && Restored(was, job, i)
    ensures var word := was[USER_SIZE + i..USER_SIZE + i + 4];
            && Restored(Programmed(was, i, word), job, i + 4)
            && Good(Step(Program(i, word), was), job.before[..USER_SIZE], job.addr, job.size)
  {
    ProgrammedBlank(was, i, was[USER_SIZE + i..USER_SIZE + i + 4]);
    assert Intact(was, USER_SIZE, job.before[..USER_SIZE], job.addr, job.Limit());
  }

  method RestoreWord(flash: Flash, i: nat, ghost job: Job, ghost prev: seq<Step>)
    requires Fits(job) && i + 4 <= USER_SIZE && Restored(flash.cells[..], job, i) && AllGood(flash.Trace, prev, job)
    modifies flash`Trace, flash.cells
    ensures Restored(flash.cells[..], job, i + 4) && AllGood(flash.Trace, prev, job)
    ensures old(LeftSectors(flash.Trace, prev)) ==> LeftSectors(flash.Trace, prev)
  {
    ghost var was := flash.cells[..];
    assert flash.cells[USER_SIZE + i..USER_SIZE + i + 4] == was[USER_SIZE + i..USER_SIZE + i + 4];
    RestoreStep(was, job, i);
    AllGoodSnoc(flash.Trace, prev, job, Step(Program(i, was[USER_SIZE + i..USER_SIZE + i + 4]), was));
    CopyUnit(flash, USER_SIZE + i, i, 4);
  }

  // The second half of PrepareWriteFlash.
  method Restore(flash: Flash, ghost job: Job, ghost prev: seq<Step>)
    requires Fits(job) && Restored(flash.cells[..], job, 0) && AllGood(flash.Trace, prev, job)
    requires Strays(job.addr, job.size) ==> LeftSectors(flash.Trace, prev)
    modifies flash`Trace, flash.cells
    ensures Restored(flash.cells[..], job, USER_SIZE) && AllGood(flash.Trace, prev, job)
    ensures Strays(job.addr, job.size) ==> LeftSectors(flash.Trace, prev)
  {
    var i := 0;
    ghost var q := 0;
    while i < USER_SIZE
      invariant i == 4 * q && i <= USER_SIZE && Restored(flash.cells[..], job, i)
      invariant AllGood(flash.Trace, prev, job)
      invariant Strays(job.addr, job.size) ==> LeftSectors(flash.Trace, prev)
    {
      RestoreWord(flash, i, job, prev);
      i, q := i + 4, q + 1;
    }
  }

  // The user sector is blank inside the window and as before around it; unless the call strays,
  // nothing behind the two sectors changes.
  predicate Blanked(after: seq<byte>, before: seq<byte>, addr: nat, size: nat)
  {
    && |after| == |before| >= 2 * USER_SIZE
    && (forall k :: 0 <= k < USER_SIZE ==> after[k] == if addr <= k < addr + size then BLANK else before[k])
    && (!Strays(addr, size) ==> forall k :: 2 * USER_SIZE <= k < |after| ==> after[k] == before[k])
  }

  // What a power cut leaves before any step: one of the two sectors has every byte outside the window.
  lemma LeftByPowerCut(step: Step, user: seq<byte>, addr: nat, size: nat)
    requires |user| == USER_SIZE && Good(step, user, addr, size)
    ensures exists base :: base in [0, USER_SIZE] && base + USER_SIZE <= |step.before|
              && forall k :: 0 <= k < USER_SIZE && (k < addr || addr + size <= k) ==> step.before[base + k] == user[k]
  {
    var base := if Intact(step.before, 0, user, addr, addr + size) then 0 else USER_SIZE;
    assert base in [0, USER_SIZE];
    forall k | 0 <= k < USER_SIZE && (k < addr || addr + size <= k) ensures step.before[base + k] == user[k] {
      assert Outside(addr, addr + size, base + k - base);
    }
  }

  // Blanks [addr, addr + size) of the user sector and keeps the rest of it.  At every step on the
  // way all bytes outside the window are intact in one of the two sectors, and only blank cells of
  // the two sectors are programmed.  It stays inside the two sectors exactly when the window ends
  // before the end of the sector, or starts behind it.
  method PrepareWriteFlash(flash: Flash, addr: nat, size: nat)
    requires 2 * USER_SIZE <= flash.cells.Length && addr + size + USER_SIZE + 4 <= flash.cells.Length
    modifies flash`Trace, flash.cells
    ensures forall k :: 0 <= k < USER_SIZE ==>
              flash.cells[k] == if addr <= k < addr + size then BLANK else old(flash.cells[k])
    ensures addr >= USER_SIZE || addr + size < USER_SIZE ==> flash.cells[2 * USER_SIZE..] == old(flash.cells[2 * USER_SIZE..])
    ensures old(flash.Trace) <= flash.Trace
    ensures forall j :: |old(flash.Trace)| <= j < |flash.Trace| ==>
              Good(flash.Trace[j], old(flash.cells[..USER_SIZE]), addr, size)
    ensures LeftSectors(flash.Trace, old(flash.Trace)) <==> addr < USER_SIZE <= addr + size
  {
    ghost var job := Job(flash.cells[..], addr, size);
    ghost var prev := flash.Trace;
    FirstErase(job);
    AllGoodSnoc(prev, prev, job, Step(Erase(USER_SIZE, 2 * USER_SIZE), job.before));
    flash.EraseRange(USER_SIZE, 2 * USER_SIZE);
    FillBackup(flash, addr, size, job, prev);
    SecondErase(flash, job, prev);
    Restore(flash, job, prev);
    Summary(flash.cells[..], flash.Trace, prev, job);
  }

  lemma Summary(cells: seq<byte>, trace: seq<Step>, prev: seq<Step>, job: Job)
    requires Fits(job) && AllGood(trace, prev, job) && Restored(cells, job, USER_SIZE)
    ensures Blanked(cells, job.before, job.addr, job.size)
    ensures !Strays(job.addr, job.size) ==> !LeftSectors(trace, prev)
  {
  }

  lemma FirstErase(job: Job)
    requires Fits(job)
    ensures Good(Step(Erase(USER_SIZE, 2 * USER_SIZE), job.before), job.before[..USER_SIZE], job.addr, job.size)
    ensures Held(Splice(job.before, USER_SIZE, Blank(USER_SIZE)), job, 0, job.Limit())
  {
    assert Intact(job.before, 0, job.before[..USER_SIZE], job.addr, job.Limit());
  }

  method SecondErase(flash: Flash, ghost job: Job, ghost prev: seq<Step>)
    requires Fits(job) && AllGood(flash.Trace, prev, job)
    requires exists i :: i >= USER_SIZE && Progress(flash.cells[..], flash.Trace, job, prev, i)
    modifies flash`Trace, flash.cells
    ensures Restored(flash.cells[..], job, 0) && AllGood(flash.Trace, prev, job)
    ensures Strays(job.addr, job.size) ==> LeftSectors(flash.Trace, prev)
  {
    ghost var i :| i >= USER_SIZE && Progress(flash.cells[..], flash.Trace, job, prev, i);
    FilledIsComplete(flash.cells[..], flash.Trace, job, prev, i);
    AllGoodSnoc(flash.Trace, prev, job, Step(Erase(0, USER_SIZE), flash.cells[..]));
    flash.EraseRange(0, USER_SIZE);
  }
}
