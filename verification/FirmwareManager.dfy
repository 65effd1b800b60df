/**
 The controller's side of a firmware upload as it runs: the static offset and bank index, the
 programming loop, and the page loop that replays a completed bank to a unit.
 */
module FirmwareManager {
  import opened Bytes
  import opened FlashMemory
  import opened FirmwareBank

  class UnitManager {
    const banks: seq<Flash>
    const crc: CrcUnit
    var index: nat
    var offset: nat
    var pushed: seq<byte>

    ghost predicate Valid()
      reads this, banks
    {
      && |banks| == 4 && index < 4 && offset < 0x1_0000
      && (forall i :: 0 <= i < 4 ==> banks[i].cells.Length == BANK_SIZE)
      && (forall i, j :: 0 <= i < j < 4 ==> banks[i] != banks[j] && banks[i].cells != banks[j].cells)
    }

    // The upload in progress.
    ghost function Now(): Upload
      requires Valid()
      reads this, banks, banks[index].cells
    {
      Upload(banks[index].cells[..], offset, pushed)
    }

    method ProgramWord(at: nat, w: seq<byte>)
      requires Valid() && |w| == 4 && at + 4 <= BANK_SIZE
      modifies banks[index], banks[index].cells, this`pushed
      ensures Now() == Upload(Programmed(old(Now().bank), at, w), offset, old(pushed) + w)
    {
      banks[index].ProgramBytes(at, w);
      pushed := pushed + w;
    }

    // The loop of CommandWrite over whole words, then the filled rest.
    method ProgramPortion(parameters: seq<byte>)
      requires Valid()
      modifies this`offset, this`pushed, banks[index], banks[index].cells
      ensures Valid() && Now() == Flashed(old(Now()), parameters)
    {
      var ptr := 0;
      while ptr + 4 <= |parameters|
        invariant ptr <= |parameters| && Valid()
        invariant Flashed(Now(), parameters[ptr..]) == Flashed(old(Now()), parameters)
      {
        NextWord(parameters, ptr);
        ptr := ptr + 4;
      }
      if ptr < |parameters| {
        var len := |parameters| - ptr;
        ProgramWord(offset, Filled(parameters[ptr..]));
        offset := (offset + len) % 0x1_0000;
      }
    }

    method NextWord(parameters: seq<byte>, ptr: nat)
      requires Valid() && ptr + 4 <= |parameters|
      modifies this`offset, this`pushed, banks[index], banks[index].cells
      ensures Valid() && Flashed(Now(), parameters[ptr + 4..]) == old(Flashed(Now(), parameters[ptr..]))
    {
      ghost var u := Now();
      FlashedWord(u, parameters[ptr..]);
      assert parameters[ptr..][..4] == parameters[ptr..ptr + 4];
      assert parameters[ptr..][4..] == parameters[ptr + 4..];
      ProgramWord(offset, parameters[ptr..ptr + 4]);
      offset := (offset + 4) % 0x1_0000;
    }

    method CommandWrite(parameters: seq<byte>) returns (reply: Reply)
      requires Valid()
      modifies this`offset, this`pushed, banks[index], banks[index].cells
      ensures Valid() && (Now(), reply) == WriteStep(crc, old(Now()), parameters)
    {
      if |parameters| <= 2 {
        return Reply(STATUS, [WRITE, ERROR_PARAMETER]);
      }
      var flash := banks[index];
      var size := Word16(flash.cells[6], flash.cells[7]);
      var total := (offset + |parameters| - FILE_HEADER_SIZE) % 0x1_0000_0000;
      if total > size {
        return Reply(STATUS, [WRITE, ERROR_LENGTH]);
      }
      ProgramPortion(parameters);
      if total == size {
        flash.ProgramBytes(3, [0x00]);
        flash.ProgramBytes(8, CrcBytes(crc(pushed)));
        assert flash.cells[8..12] == Now().bank[8..12];
        return Reply(WRITE, [1] + flash.cells[8..12]);
      }
      return Reply(WRITE, [0]);
    }

    method CommandAccess(parameters: seq<byte>) returns (reply: Reply)
      requires Valid()
      modifies this`index, this`offset, this`pushed
      modifies if |parameters| < 1 || parameters[0] >= 4 then {} else {banks[parameters[0]]}
      modifies if |parameters| < 1 || parameters[0] >= 4 then {} else {banks[parameters[0]].cells}
      ensures Valid()
      ensures if |parameters| < 1 || parameters[0] >= 4 then
                && reply == Reply(STATUS, [ACCESS, ERROR_PARAMETER])
                && Now() == old(Now())
              else
                && reply == Reply(ACCESS, [parameters[0]])
                && index == parameters[0] && Now() == Upload(Blank(BANK_SIZE), 0, [])
    {
      if |parameters| < 1 || parameters[0] >= 4 {
        return Reply(STATUS, [ACCESS, ERROR_PARAMETER]);
      }
      index := parameters[0];
      offset := 0;
      banks[index].EraseRange(0, BANK_SIZE);
      pushed := [];
      return Reply(ACCESS, [parameters[0]]);
    }

    method CommandWriteInfo(parameters: seq<byte>) returns (reply: Reply)
      requires Valid()
      modifies this`offset, banks[index], banks[index].cells
      ensures Valid() && (Now(), reply) == InfoStep(old(Now()), parameters)
    {
      if |parameters| < 8 {
        return Reply(STATUS, [WRITE_INFO, ERROR_PARAMETER]);
      }
      if parameters[0] == TAG1 && parameters[1] == TAG2 {
        var info := parameters[3 := 0xff];
        assert info[..4] == parameters[..3] + [BLANK];
        banks[index].ProgramBytes(0, info[..4]);
        banks[index].ProgramBytes(4, info[4..8]);
        assert info[4..8] == parameters[4..8];
        offset := FILE_HEADER_SIZE;
        return Reply(WRITE_INFO, [NO_ERROR]);
      }
      return Reply(STATUS, [WRITE_INFO, ERROR_PARAMETER]);
    }

    // ----- Replay -----

    // The first bank holding a completed image for the unit type.
    method FindBank(unitType: byte) returns (i: nat)
      requires Valid()
      ensures i <= 4
      ensures forall j :: 0 <= j < i ==> !Serves(banks[j].cells[..], unitType)
      ensures i < 4 ==> Serves(banks[i].cells[..], unitType)
    {
      i := 0;
      while i < 4
        invariant i <= 4
        invariant forall j :: 0 <= j < i ==> !Serves(banks[j].cells[..], unitType)
      {
        var ptr := banks[i].cells;
        if ptr[0] == TAG1 && ptr[1] == TAG2 && ptr[3] == 0x00 && ptr[2] == unitType {
          return;
        }
        i := i + 1;
      }
    }

    // One ProgramData call.
    static method AddPage(pages: seq<(byte, seq<byte>)>, page: byte, cells: seq<byte>, ptr: nat, n: nat,
                          ghost image: seq<byte>) returns (more: seq<(byte, seq<byte>)>)
      requires FILE_HEADER_SIZE <= ptr && ptr + n <= FILE_HEADER_SIZE + |image| <= |cells|
      requires image == cells[FILE_HEADER_SIZE..FILE_HEADER_SIZE + |image|]
      requires Bodies(pages) == image[..ptr - FILE_HEADER_SIZE]
      ensures more == pages + [(page, cells[ptr..ptr + n])]
      ensures Bodies(more) == image[..ptr + n - FILE_HEADER_SIZE]
    {
      BodiesSnoc(pages, (page, cells[ptr..ptr + n]));
      var at := ptr - FILE_HEADER_SIZE;
      SliceOfSlice(cells, FILE_HEADER_SIZE, FILE_HEADER_SIZE + |image|, at, at + n);
      assert image[..at] + image[at..at + n] == image[..at + n];
      more := pages + [(page, cells[ptr..ptr + n])];
    }

    // The page loop of UpdateOne.  outcomes says how the unit's programmer answers each page.
    method SendPages(i: nat, outcomes: seq<bool>) returns (pages: seq<(byte, seq<byte>)>, ok: bool)
      requires Valid() && i < 4 && |outcomes| >= 0x100 && FILE_HEADER_SIZE + Size(banks[i].cells[..]) <= BANK_SIZE
      ensures |pages| <= 0x100
      ensures forall k :: 0 <= k < |pages| ==> pages[k].0 == k
      ensures var image := Stored(banks[i].cells[..]);
              && Bodies(pages) <= image
              && (ok ==> Bodies(pages) == image)
              && (forall k :: 0 <= k < |pages| ==> 0 < |pages[k].1| <= 0x100)
              && (forall k :: 0 <= k < |pages| - 1 ==> |pages[k].1| == 0x100 && outcomes[k])
      ensures ok <==> forall k :: 0 <= k < |pages| ==> outcomes[k]
    {
      var cells := banks[i].cells[..];
      pages, ok := SendImage(cells, Word16(cells[6], cells[7]), outcomes, Stored(cells));
    }

    static method SendImage(cells: seq<byte>, size: nat, outcomes: seq<bool>, ghost image: seq<byte>)
      returns (pages: seq<(byte, seq<byte>)>, ok: bool)
      requires |image| == size < 0x1_0000 && FILE_HEADER_SIZE + size <= |cells| && |outcomes| >= 0x100
      requires image == cells[FILE_HEADER_SIZE..FILE_HEADER_SIZE + size]
      ensures |pages| <= 0x100 && Bodies(pages) <= image && (ok ==> Bodies(pages) == image)
      ensures forall k :: 0 <= k < |pages| ==> pages[k].0 == k && 0 < |pages[k].1| <= 0x100
      ensures forall k :: 0 <= k < |pages| - 1 ==> |pages[k].1| == 0x100 && outcomes[k]
      ensures ok <==> forall k :: 0 <= k < |pages| ==> outcomes[k]
    {
      pages, ok := SendFull(cells, size, outcomes, image);
      if ok && size % 0x100 != 0 {
        ghost var full := pages;
        pages := SendLast(cells, size, pages, image);
        ok := outcomes[|pages| - 1];
        assert pages == full + [pages[|full|]];
      } else if ok {
        assert image[..|image|] == image;
      }
    }

    // The bytes behind the full pages.
    static method SendLast(cells: seq<byte>, size: nat, full: seq<(byte, seq<byte>)>, ghost image: seq<byte>)
      returns (pages: seq<(byte, seq<byte>)>)
      requires |image| == size < 0x1_0000 && FILE_HEADER_SIZE + size <= |cells| && size % 0x100 != 0
      requires image == cells[FILE_HEADER_SIZE..FILE_HEADER_SIZE + size]
      requires |full| == size / 0x100 && Bodies(full) == image[..|full| * 0x100]
      ensures |pages| == |full| + 1 && pages[..|full|] == full && Bodies(pages) == image
      ensures pages[|full|].0 == |full| && 0 < |pages[|full|].1| < 0x100
    {
      assert |full| * 0x100 + size % 0x100 == size;
      pages := AddPage(full, |full|, cells, FILE_HEADER_SIZE + |full| * 0x100, size % 0x100, image);
      assert image[..|image|] == image;
    }

    // Pages of 256 bytes, up to the first one that fails.
    static method SendFull(cells: seq<byte>, size: nat, outcomes: seq<bool>, ghost image: seq<byte>)
      returns (pages: seq<(byte, seq<byte>)>, ok: bool)
      requires |image| == size < 0x1_0000 && FILE_HEADER_SIZE + size <= |cells| && |outcomes| >= 0x100
      requires image == cells[FILE_HEADER_SIZE..FILE_HEADER_SIZE + size]
      ensures |pages| <= size / 0x100 && Bodies(pages) == image[..|pages| * 0x100]
      ensures forall k :: 0 <= k < |pages| ==> pages[k].0 == k && |pages[k].1| == 0x100
      ensures forall k :: 0 <= k < |pages| - 1 ==> outcomes[k]
      ensures if ok then |pages| == size / 0x100 && (pages != [] ==> outcomes[|pages| - 1]) else pages != [] && !outcomes[|pages| - 1]
    {
      pages := [];
      var ptr := FILE_HEADER_SIZE;
      var page: byte := 0;
      while page < size / 0x100
        invariant page <= size / 0x100 && ptr == FILE_HEADER_SIZE + page * 0x100 && |pages| == page
        invariant Bodies(pages) == image[..ptr - FILE_HEADER_SIZE]
        invariant forall k :: 0 <= k < |pages| ==> pages[k].0 == k && |pages[k].1| == 0x100 && outcomes[k]
      {
        pages := AddPage(pages, page, cells, ptr, 0x100, image);
        if !outcomes[page] {
          return pages, false;
        }
        page := page + 1;
        ptr := ptr + 0x100;
      }
      return pages, true;
    }
  }

  predicate Serves(bank: seq<byte>, unitType: byte)
  {
    |bank| == BANK_SIZE && bank[0] == TAG1 && bank[1] == TAG2 && bank[3] == 0 && bank[2] == unitType
  }

  // The image a bank's header announces.
  function Stored(bank: seq<byte>): (image: seq<byte>)
    requires |bank| == BANK_SIZE && FILE_HEADER_SIZE + Size(bank) <= BANK_SIZE
    ensures |image| == Size(bank)
  {
    bank[FILE_HEADER_SIZE..FILE_HEADER_SIZE + Size(bank)]
  }

  function Bodies(pages: seq<(byte, seq<byte>)>): seq<byte>
  {
    if pages == [] then [] else Bodies(pages[..|pages| - 1]) + pages[|pages| - 1].1
  }

  lemma BodiesSnoc(pages: seq<(byte, seq<byte>)>, page: (byte, seq<byte>))
    ensures Bodies(pages + [page]) == Bodies(pages) + page.1
  {
    assert (pages + [page])[..|pages|] == pages;
  }

  // A bank is offered to units exactly when its upload is complete, and what it then holds is the
  // uploaded image.
  lemma CompleteMeansServed(u: Upload, crc: CrcUnit, info: seq<byte>, data: seq<byte>, unitType: byte)
    requires Holds(u, crc, info, data)
    ensures Serves(u.bank, unitType) <==> Done(info, data) && info[2] == unitType
    ensures Done(info, data) ==> Stored(u.bank) == data
  {
  }
}
