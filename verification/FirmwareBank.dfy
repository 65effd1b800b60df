/**
 Firmware upload: the host opens a bank, writes its header, then the image in portions; a
 completed bank is replayed to a unit page by page.
 */
module FirmwareBank {
  import opened Bytes
  import opened FlashMemory

  const BANK_SIZE: nat := 0x2_0000
  const FILE_HEADER_SIZE: nat := 12
  const TAG1: byte := 0xAA
  const TAG2: byte := 0xBB

  const ACCESS: byte := 0xc2
  const WRITE: byte := 0xc4
  const WRITE_INFO: byte := 0xce
  const STATUS: byte := 0xfe
  const NO_ERROR: byte := 0x00
  const ERROR_PARAMETER: byte := 0x02
  const ERROR_LENGTH: byte := 0x06

  // The arguments of one SendFileData call.
  datatype Reply = Reply(command: byte, payload: seq<byte>)

  // One bank, the 16-bit write offset, and the bytes of the words pushed into the CRC unit since
  // its reset.
  datatype Upload = Upload(bank: seq<byte>, offset: nat, pushed: seq<byte>)
  {
    predicate Ok()
    {
      |bank| == BANK_SIZE && offset < 0x1_0000
    }
  }

  function Size(bank: seq<byte>): nat
    requires |bank| == BANK_SIZE
  {
    Word16(bank[6], bank[7])
  }

  // The CRC unit's register, low byte first.  The unit itself is a parameter; Crc.dfy has the one
  // the hardware implements.
  datatype CrcValue = CrcValue(b0: byte, b1: byte, b2: byte, b3: byte)
  type CrcUnit = seq<byte> -> CrcValue

  function CrcBytes(c: CrcValue): seq<byte>
  {
    [c.b0, c.b1, c.b2, c.b3]
  }

  // A final part of one to three bytes is filled up to a word with 0xff.
  function Filled(part: seq<byte>): (w: seq<byte>)
    requires |part| <= 4
    ensures |w| == 4
  {
    part + seq(4 - |part|, _ => BLANK)
  }

  // The words of a portion, as pushed into the CRC unit.
  function Words(chunk: seq<byte>): seq<byte>
  {
    if chunk == [] then []
    else if |chunk| < 4 then Filled(chunk)
    else chunk[..4] + Words(chunk[4..])
  }

  // The program loop: whole words, then the filled rest.  The offset wraps at 16 bits.
  function Flashed(u: Upload, chunk: seq<byte>): (r: Upload)
    requires u.Ok()
    ensures r.Ok()
    decreases |chunk|
  {
    if chunk == [] then u
    else if |chunk| < 4 then
      Upload(Programmed(u.bank, u.offset, Filled(chunk)), (u.offset + |chunk|) % 0x1_0000, u.pushed + Filled(chunk))
    else
      Flashed(Upload(Programmed(u.bank, u.offset, chunk[..4]), (u.offset + 4) % 0x1_0000, u.pushed + chunk[..4]), chunk[4..])
  }

  lemma FlashedWord(u: Upload, chunk: seq<byte>)
    requires u.Ok() && |chunk| >= 4
    ensures Flashed(u, chunk) ==
      Flashed(Upload(Programmed(u.bank, u.offset, chunk[..4]), (u.offset + 4) % 0x1_0000, u.pushed + chunk[..4]), chunk[4..])
  {
  }

  // offset + len - FILE_HEADER_SIZE in the 32-bit unsigned arithmetic of size_t.
  function Total(u: Upload, len: nat): nat
  {
    (u.offset + len - FILE_HEADER_SIZE) % 0x1_0000_0000
  }

  function Completed(u: Upload, crc: CrcUnit): (r: Upload)
    requires u.Ok()
    ensures r.Ok()
  {
    u.(bank := Programmed(Programmed(u.bank, 3, [0]), 8, CrcBytes(crc(u.pushed))))
  }

  // CommandWrite.
  function WriteStep(crc: CrcUnit, u: Upload, chunk: seq<byte>): (r: (Upload, Reply))
    requires u.Ok()
    ensures r.0.Ok()
  {
    if |chunk| <= 2 then (u, Reply(STATUS, [WRITE, ERROR_PARAMETER]))
    else if Total(u, |chunk|) > Size(u.bank) then (u, Reply(STATUS, [WRITE, ERROR_LENGTH]))
    else
      var flashed := Flashed(u, chunk);
      if Total(u, |chunk|) == Size(u.bank) then
        var done := Completed(flashed, crc);
        (done, Reply(WRITE, [1] + done.bank[8..12]))
      else (flashed, Reply(WRITE, [0]))
  }

  // CommandAccess with a bank number below 4.
  function AccessStep(u: Upload): (r: Upload)
    requires u.Ok()
    ensures r.Ok()
  {
    Upload(Blank(BANK_SIZE), 0, [])
  }

  // CommandWriteInfo.
  function InfoStep(u: Upload, info: seq<byte>): (r: (Upload, Reply))
    requires u.Ok()
    ensures r.0.Ok()
  {
    if |info| < 8 || info[0] != TAG1 || info[1] != TAG2 then (u, Reply(STATUS, [WRITE_INFO, ERROR_PARAMETER]))
    else
      (u.(bank := Programmed(Programmed(u.bank, 0, info[..3] + [BLANK]), 4, info[4..8]), offset := FILE_HEADER_SIZE),
       Reply(WRITE_INFO, [NO_ERROR]))
  }

  // A header that is too short or lacks the tags changes nothing and is answered with an error.
  lemma MalformedInfo(u: Upload, info: seq<byte>)
    requires u.Ok() && (|info| < 8 || info[0] != 0xAA || info[1] != 0xBB)
    ensures InfoStep(u, info) == (u, Reply(STATUS, [WRITE_INFO, ERROR_PARAMETER]))
  {
  }

  // ----- The invariant of an upload -----

  // A bank with its header, the CRC word, and an image; the rest is blank.
  function Image(header: seq<byte>, crc: seq<byte>, data: seq<byte>): (r: seq<byte>)
    requires |header| == 8 && |crc| == 4 && FILE_HEADER_SIZE + |data| <= BANK_SIZE
    ensures |r| == BANK_SIZE
  {
    header + crc + data + Blank(BANK_SIZE - FILE_HEADER_SIZE - |data|)
  }

  // data has been accepted so far under the header info.
  ghost predicate Holds(u: Upload, crc: CrcUnit, info: seq<byte>, data: seq<byte>)
  {
    && |info| == 8 && info[0] == TAG1 && info[1] == TAG2
    && |data| <= Word16(info[6], info[7]) <= 65523
    && u.offset == FILE_HEADER_SIZE + |data|
    && u.bank == if Done(info, data) then Image(info[3 := 0], CrcBytes(crc(u.pushed)), data)
                 else Image(info[3 := BLANK], Blank(4), data)
  }

  // The declared size has been reached by a write.
  predicate Done(info: seq<byte>, data: seq<byte>)
    requires |info| == 8
  {
    data != [] && |data| == Word16(info[6], info[7])
  }

  predicate Fits(info: seq<byte>, data: seq<byte>, chunk: seq<byte>)
    requires |info| == 8
  {
    |chunk| > 2 && |data| + |chunk| <= Word16(info[6], info[7])
  }

  // On blank cells the program loop writes exactly the portion.
  lemma {:induction false} FlashedBlank(u: Upload, chunk: seq<byte>)
    requires u.Ok() && u.offset + |chunk| < 0x1_0000 && IsBlank(u.bank, u.offset, BANK_SIZE)
    ensures Flashed(u, chunk) == Upload(Splice(u.bank, u.offset, chunk), u.offset + |chunk|, u.pushed + Words(chunk))
    decreases |chunk|
  {
    if chunk == [] {
      assert Splice(u.bank, u.offset, chunk) == u.bank;
    } else if |chunk| < 4 {
      FilledSplice(u.bank, u.offset, chunk);
    } else {
      var next := FirstWord(u, chunk);
      FlashedBlank(next, chunk[4..]);
      SpliceInTwo(u.bank, u.offset, chunk, 4);
      ConcatAssociates(u.pushed, chunk[..4], Words(chunk[4..]));
    }
  }

  lemma FirstWord(u: Upload, chunk: seq<byte>) returns (next: Upload)
    requires u.Ok() && |chunk| >= 4 && u.offset + |chunk| < 0x1_0000 && IsBlank(u.bank, u.offset, BANK_SIZE)
    ensures next == Upload(Splice(u.bank, u.offset, chunk[..4]), u.offset + 4, u.pushed + chunk[..4])
    ensures next.Ok() && IsBlank(next.bank, next.offset, BANK_SIZE)
    ensures Flashed(u, chunk) == Flashed(next, chunk[4..])
  {
    var word := chunk[..4];
    assert (u.offset + 4) % 0x1_0000 == u.offset + 4;
    FlashedWord(u, chunk);
    ProgrammedBlank(u.bank, u.offset, word);
    next := Upload(Splice(u.bank, u.offset, word), u.offset + 4, u.pushed + word);
  }

  lemma FilledSplice(s: seq<byte>, at: nat, chunk: seq<byte>)
    requires |chunk| <= 4 && at + 4 <= |s| && IsBlank(s, at, |s|)
    ensures Programmed(s, at, Filled(chunk)) == Splice(s, at, chunk)
  {
    ProgrammedBlank(s, at, Filled(chunk));
  }

  // One write keeps the invariant: accepted portions are appended, others change nothing.
  lemma WriteKeeps(crc: CrcUnit, u: Upload, info: seq<byte>, data: seq<byte>, chunk: seq<byte>)
    requires Holds(u, crc, info, data) && |chunk| < 0x1_0000
    ensures var (u', reply) := WriteStep(crc, u, chunk);
            if Fits(info, data, chunk) then
              && Holds(u', crc, info, data + chunk)
              && u'.pushed == u.pushed + Words(chunk)
              && reply == Reply(WRITE, if Done(info, data + chunk) then [1] + CrcBytes(crc(u'.pushed)) else [0])
            else
              && u' == u
              && reply == Reply(STATUS, [WRITE, if |chunk| <= 2 then ERROR_PARAMETER else ERROR_LENGTH])
  {
    HeaderRead(crc, u, info, data, |chunk|);
    if Fits(info, data, chunk) {
      WriteTaken(crc, u, info, data, chunk);
    }
  }

  // What the controller reads back of the header, and how it measures a portion.
  lemma HeaderRead(crc: CrcUnit, u: Upload, info: seq<byte>, data: seq<byte>, n: nat)
    requires Holds(u, crc, info, data) && n < 0x1_0000
    ensures Size(u.bank) == Word16(info[6], info[7])
    ensures n > 2 ==> Total(u, n) == |data| + n
  {
  }

  lemma WriteTaken(crc: CrcUnit, u: Upload, info: seq<byte>, data: seq<byte>, chunk: seq<byte>)
    requires Holds(u, crc, info, data) && |chunk| < 0x1_0000 && Fits(info, data, chunk)
    ensures var (u', reply) := WriteStep(crc, u, chunk);
            && Holds(u', crc, info, data + chunk)
            && u'.pushed == u.pushed + Words(chunk)
            && reply == Reply(WRITE, if Done(info, data + chunk) then [1] + CrcBytes(crc(u'.pushed)) else [0])
  {
    HeaderRead(crc, u, info, data, |chunk|);
    TakenKeeps(crc, u, info, data, chunk);
    assert WriteStep(crc, u, chunk).0 ==
      if Done(info, data + chunk) then Completed(Flashed(u, chunk), crc) else Flashed(u, chunk);
  }

  // The portion fits: what programming it, and completing the bank with it, leave.
  lemma TakenKeeps(crc: CrcUnit, u: Upload, info: seq<byte>, data: seq<byte>, chunk: seq<byte>)
    requires Holds(u, crc, info, data) && |chunk| < 0x1_0000 && Fits(info, data, chunk)
    ensures var header := info[3 := BLANK];
            Flashed(u, chunk) == Upload(Image(header, Blank(4), data + chunk), u.offset + |chunk|, u.pushed + Words(chunk))
    ensures var next := Flashed(u, chunk); var c := CrcBytes(crc(next.pushed));
            Completed(next, crc).bank == Image(info[3 := 0], c, data + chunk) && Completed(next, crc).bank[8..12] == c
  {
    var header := info[3 := BLANK];
    FlashedImage(u, header, data, chunk);
    CompletedImage(Flashed(u, chunk), crc, header, data + chunk);
    assert header[3 := 0] == info[3 := 0];
  }

  lemma FlashedImage(u: Upload, header: seq<byte>, data: seq<byte>, chunk: seq<byte>)
    requires |header| == 8 && u.offset == FILE_HEADER_SIZE + |data| && u.offset + |chunk| < 0x1_0000
    requires u.bank == Image(header, Blank(4), data)
    ensures Flashed(u, chunk) == Upload(Image(header, Blank(4), data + chunk), u.offset + |chunk|, u.pushed + Words(chunk))
  {
    FlashedBlank(u, chunk);
    SplicedImage(header, data, chunk);
  }

  lemma SplicedImage(header: seq<byte>, data: seq<byte>, chunk: seq<byte>)
    requires |header| == 8 && FILE_HEADER_SIZE + |data| + |chunk| <= BANK_SIZE
    ensures Splice(Image(header, Blank(4), data), FILE_HEADER_SIZE + |data|, chunk) == Image(header, Blank(4), data + chunk)
  {
    var before := header + Blank(4) + data;
    SpliceIntoBlank(before, BANK_SIZE - |before|, chunk);
    ConcatAssociates(header + Blank(4), data, chunk);
  }

  lemma ConcatAssociates(a: seq<byte>, b: seq<byte>, c: seq<byte>)
    ensures a + b + c == a + (b + c)
  {
  }

  lemma SpliceIntoBlank(before: seq<byte>, n: nat, chunk: seq<byte>)
    requires |chunk| <= n
    ensures Splice(before + Blank(n), |before|, chunk) == before + chunk + Blank(n - |chunk|)
  {
  }

  lemma CompletedImage(u: Upload, crc: CrcUnit, header: seq<byte>, data: seq<byte>)
    requires |header| == 8 && header[3] == BLANK && FILE_HEADER_SIZE + |data| <= BANK_SIZE && u.offset < 0x1_0000
    requires u.bank == Image(header, Blank(4), data)
    ensures Completed(u, crc).bank == Image(header[3 := 0], CrcBytes(crc(u.pushed)), data)
    ensures Completed(u, crc).bank[8..12] == CrcBytes(crc(u.pushed))
  {
    var c := CrcBytes(crc(u.pushed));
    TagImage(header, data);
    CrcImage(header[3 := 0], c, data);
  }

  lemma TagImage(header: seq<byte>, data: seq<byte>)
    requires |header| == 8 && header[3] == BLANK && FILE_HEADER_SIZE + |data| <= BANK_SIZE
    ensures Programmed(Image(header, Blank(4), data), 3, [0]) == Image(header[3 := 0], Blank(4), data)
  {
    var before, after := Image(header, Blank(4), data), Image(header[3 := 0], Blank(4), data);
    ProgrammedBlank(before, 3, [0]);
    assert after == Splice(before, 3, [0]);
  }

  lemma CrcImage(header: seq<byte>, c: seq<byte>, data: seq<byte>)
    requires |header| == 8 && |c| == 4 && FILE_HEADER_SIZE + |data| <= BANK_SIZE
    ensures Programmed(Image(header, Blank(4), data), 8, c) == Image(header, c, data)
    ensures Image(header, c, data)[8..12] == c
  {
    var before, after := Image(header, Blank(4), data), Image(header, c, data);
    ProgrammedBlank(before, 8, c);
    assert after == Splice(before, 8, c);
  }

  // ----- Whole sessions -----

  // Access, then WriteInfo, on a bank in any state: an empty upload under the given header.
  lemma OpenedHolds(crc: CrcUnit, u: Upload, info: seq<byte>)
    requires u.Ok() && |info| == 8 && info[0] == TAG1 && info[1] == TAG2 && Word16(info[6], info[7]) <= 65523
    ensures var (u', reply) := InfoStep(AccessStep(u), info);
            && Holds(u', crc, info, []) && u'.pushed == [] && reply == Reply(WRITE_INFO, [NO_ERROR])
  {
    var blank := Blank(BANK_SIZE);
    var first := info[..3] + [BLANK];
    ProgrammedBlank(blank, 0, first);
    ProgrammedBlank(Splice(blank, 0, first), 4, info[4..8]);
    assert Splice(Splice(blank, 0, first), 4, info[4..8]) == Image(info[3 := BLANK], Blank(4), []);
  }

  // Without a header the write position is the header's own place: a portion shorter than the
  // header is refused as too long, any other is burnt over the header and answered as a part.
  lemma WithoutHeader(crc: CrcUnit, u: Upload, chunk: seq<byte>)
    requires u.Ok() && 2 < |chunk| < 0x1_0000
    ensures var (u', reply) := WriteStep(crc, AccessStep(u), chunk);
            if |chunk| < 12 then u' == AccessStep(u) && reply == Reply(STATUS, [WRITE, ERROR_LENGTH])
            else u'.bank == chunk + Blank(BANK_SIZE - |chunk|) && u'.offset == |chunk| && reply == Reply(WRITE, [0])
  {
    var erased := AccessStep(u);
    assert Size(erased.bank) == 0xffff;
    assert Total(erased, |chunk|) == if |chunk| < 12 then 0x1_0000_0000 + |chunk| - 12 else |chunk| - 12;
    if |chunk| >= 12 {
      BurntFromStart(erased, chunk);
    }
  }

  lemma BurntFromStart(u: Upload, chunk: seq<byte>)
    requires u == Upload(Blank(BANK_SIZE), 0, []) && |chunk| < 0x1_0000
    ensures Flashed(u, chunk) == Upload(chunk + Blank(BANK_SIZE - |chunk|), |chunk|, Words(chunk))
  {
    FlashedBlank(u, chunk);
    assert Splice(u.bank, 0, chunk) == chunk + Blank(BANK_SIZE - |chunk|);
  }

  function Session(crc: CrcUnit, u: Upload, chunks: seq<seq<byte>>): (r: (Upload, seq<Reply>))
    requires u.Ok()
    ensures r.0.Ok() && |r.1| == |chunks|
    decreases |chunks|
  {
    if chunks == [] then (u, [])
    else
      var (next, reply) := WriteStep(crc, u, chunks[0]);
      var rest := Session(crc, next, chunks[1..]);
      (rest.0, [reply] + rest.1)
  }

  // The portions that are taken, in order.
  function Accepted(info: seq<byte>, data: seq<byte>, chunks: seq<seq<byte>>): seq<byte>
    requires |info| == 8
    decreases |chunks|
  {
    if chunks == [] then data
    else Accepted(info, Next(info, data, chunks[0]), chunks[1..])
  }

  // After any writes the bank holds exactly the accepted bytes; it is tagged complete, with its
  // CRC, exactly when they reach the declared size.
  lemma {:induction false} SessionKeeps(crc: CrcUnit, u: Upload, info: seq<byte>, data: seq<byte>, chunks: seq<seq<byte>>)
    requires Holds(u, crc, info, data) && forall c :: c in chunks ==> |c| < 0x1_0000
    ensures Holds(Session(crc, u, chunks).0, crc, info, Accepted(info, data, chunks))
    decreases |chunks|
  {
    if chunks != [] {
      assert chunks[0] in chunks;
      WriteKeeps(crc, u, info, data, chunks[0]);
      SessionKeeps(crc, WriteStep(crc, u, chunks[0]).0, info,
                   Next(info, data, chunks[0]), chunks[1..]);
    }
  }

  lemma {:induction false} WordsConcat(a: seq<byte>, b: seq<byte>)
    requires |a| % 4 == 0
    ensures Words(a + b) == Words(a) + Words(b)
    decreases |a|
  {
    if a == [] {
      assert a + b == b;
    } else {
      WordsConcat(a[4..], b);
      assert (a + b)[..4] == a[..4] && (a + b)[4..] == a[4..] + b;
    }
  }

  lemma {:induction false} WordsFill(chunk: seq<byte>)
    ensures Words(chunk) == FillUp(chunk, BLANK)
    decreases |chunk|
  {
    if |chunk| >= 4 {
      WordsFill(chunk[4..]);
    }
  }

  lemma StepPushes(crc: CrcUnit, u: Upload, info: seq<byte>, data: seq<byte>, chunk: seq<byte>)
    requires Holds(u, crc, info, data) && |chunk| < 0x1_0000
    requires |data| % 4 == 0 && u.pushed == Words(data)
    ensures var next := Next(info, data, chunk);
            var u' := WriteStep(crc, u, chunk).0;
            Holds(u', crc, info, next) && u'.pushed == Words(next)
  {
    WriteKeeps(crc, u, info, data, chunk);
    WordsConcat(data, chunk);
  }

  // When only the last portion may end inside a word, the CRC unit has seen the image, filled up
  // to whole words.
  lemma {:induction false} SessionPushes(crc: CrcUnit, u: Upload, info: seq<byte>, data: seq<byte>, chunks: seq<seq<byte>>)
    requires Holds(u, crc, info, data) && forall c :: c in chunks ==> |c| < 0x1_0000
    requires forall k :: 0 <= k < |chunks| - 1 ==> |chunks[k]| % 4 == 0
    requires |data| % 4 == 0 && u.pushed == Words(data)
    ensures Session(crc, u, chunks).0.pushed == Words(Accepted(info, data, chunks))
    decreases |chunks|
  {
    if chunks != [] {
      var c, rest := chunks[0], chunks[1..];
      assert c in chunks;
      StepPushes(crc, u, info, data, c);
      SessionHead(crc, u, info, data, chunks);
      if rest == [] {
        SessionNone(crc, WriteStep(crc, u, c).0, info, Next(info, data, c));
      } else {
        NextAligned(info, data, c);
        SessionPushes(crc, WriteStep(crc, u, c).0, info, Next(info, data, c), rest);
      }
    }
  }

  // What has been accepted after one more portion.
  function Next(info: seq<byte>, data: seq<byte>, chunk: seq<byte>): seq<byte>
    requires |info| == 8
  {
    if Fits(info, data, chunk) then data + chunk else data
  }

  lemma NextAligned(info: seq<byte>, data: seq<byte>, chunk: seq<byte>)
    requires |info| == 8 && |data| % 4 == 0 && |chunk| % 4 == 0
    ensures |Next(info, data, chunk)| % 4 == 0
  {
  }

  lemma SessionHead(crc: CrcUnit, u: Upload, info: seq<byte>, data: seq<byte>, chunks: seq<seq<byte>>)
    requires |info| == 8 && chunks != [] && u.Ok() && forall c :: c in chunks ==> |c| < 0x1_0000
    ensures chunks[0] in chunks && Session(crc, u, chunks).0 == Session(crc, WriteStep(crc, u, chunks[0]).0, chunks[1..]).0
    ensures Accepted(info, data, chunks) == Accepted(info, Next(info, data, chunks[0]), chunks[1..])
  {
  }

  lemma SessionNone(crc: CrcUnit, u: Upload, info: seq<byte>, data: seq<byte>)
    requires |info| == 8 && u.Ok()
    ensures Session(crc, u, []).0 == u && Accepted(info, data, []) == data
  {
  }

  // ----- The host's portions -----

  // The upload loop of the host: 256 bytes at a time, at least one write.
  function Portions(image: seq<byte>): (r: seq<seq<byte>>)
    ensures r != []
    ensures forall c :: c in r ==> |c| <= 0x100
    ensures forall k :: 0 <= k < |r| - 1 ==> |r[k]| == 0x100
    decreases |image|
  {
    if |image| <= 0x100 then [image] else [image[..0x100]] + Portions(image[0x100..])
  }

  // The images whose last portion the controller does not refuse for being shorter than three bytes.
  predicate Uploadable(n: nat)
  {
    n > 0 && n % 0x100 != 1 && n % 0x100 != 2
  }

  // What gets through of an image.
  function Taken(image: seq<byte>): seq<byte>
  {
    if Uploadable(|image|) then image else image[..|image| - |image| % 0x100]
  }

  lemma TakenStep(image: seq<byte>)
    requires |image| > 0x100
    ensures Taken(image) == image[..0x100] + Taken(image[0x100..])
  {
    assert |image[0x100..]| % 0x100 == |image| % 0x100;
  }

  lemma {:induction false} PortionsAccepted(info: seq<byte>, data: seq<byte>, rest: seq<byte>)
    requires |info| == 8 && |data| + |rest| <= Word16(info[6], info[7])
    ensures Accepted(info, data, Portions(rest)) == data + Taken(rest)
    decreases |rest|
  {
    if |rest| <= 0x100 {
      LastPortion(info, data, rest);
    } else {
      var head, tail := rest[..0x100], rest[0x100..];
      PortionsAccepted(info, data + head, tail);
      AcceptedCons(info, data, head, Portions(tail));
      TakenStep(rest);
      ConcatAssociates(data, head, Taken(tail));
    }
  }

  lemma AcceptedCons(info: seq<byte>, data: seq<byte>, head: seq<byte>, later: seq<seq<byte>>)
    requires |info| == 8
    ensures Accepted(info, data, [head] + later) == Accepted(info, Next(info, data, head), later)
  {
    assert ([head] + later)[1..] == later;
  }

  lemma LastPortion(info: seq<byte>, data: seq<byte>, rest: seq<byte>)
    requires |info| == 8 && |data| + |rest| <= Word16(info[6], info[7]) && |rest| <= 0x100
    ensures Accepted(info, data, [rest]) == data + Taken(rest)
  {
    AcceptedCons(info, data, rest, []);
    assert [rest] + [] == [rest];
    assert Accepted(info, Next(info, data, rest), []) == Next(info, data, rest);
    TakenWhole(rest);
    assert data + [] == data;
  }

  lemma TakenWhole(rest: seq<byte>)
    requires |rest| <= 0x100
    ensures Taken(rest) == if |rest| > 2 then rest else []
  {
    var n := |rest|;
    if n < 0x100 {
      assert n % 0x100 == n;
      assert rest[..0] == [];
    }
  }

  // The host's upload of an image of the declared size completes the bank if and only if the image
  // is not empty and does not leave one or two bytes for the last portion.
  lemma HostUpload(crc: CrcUnit, u: Upload, info: seq<byte>, image: seq<byte>)
    requires Holds(u, crc, info, []) && u.pushed == [] && |image| == Word16(info[6], info[7])
    ensures var (u', replies) := Session(crc, u, Portions(image));
            && (Uploadable(|image|) ==> Holds(u', crc, info, image) && u'.pushed == Words(image))
            && (u'.bank[3] == 0 <==> Uploadable(|image|))
  {
    PortionsAccepted(info, [], image);
    assert [] + Taken(image) == Taken(image);
    SessionTakes(crc, u, info, image);
    DoneTag(Session(crc, u, Portions(image)).0, crc, info, Taken(image));
  }

  lemma DoneTag(u: Upload, crc: CrcUnit, info: seq<byte>, data: seq<byte>)
    requires Holds(u, crc, info, data)
    ensures u.bank[3] == 0 <==> Done(info, data)
  {
  }

  lemma SessionTakes(crc: CrcUnit, u: Upload, info: seq<byte>, image: seq<byte>)
    requires Holds(u, crc, info, []) && u.pushed == []
    ensures var u' := Session(crc, u, Portions(image)).0;
            Holds(u', crc, info, Accepted(info, [], Portions(image))) && u'.pushed == Words(Accepted(info, [], Portions(image)))
  {
    PortionsAligned(image);
    SessionKeeps(crc, u, info, [], Portions(image));
    SessionPushes(crc, u, info, [], Portions(image));
  }

  lemma PortionsAligned(image: seq<byte>)
    ensures forall c :: c in Portions(image) ==> |c| < 0x1_0000
    ensures forall k :: 0 <= k < |Portions(image)| - 1 ==> |Portions(image)[k]| % 4 == 0
    ensures Words([]) == []
  {
  }
}
