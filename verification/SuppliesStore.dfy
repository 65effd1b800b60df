/**
 The shelf unit's store of article texts: ten pages of 256 bytes in one flash sector, mirrored in
 a second one.  A used page cannot be rewritten in place, so changing a text rebuilds both sectors.
 */
module SuppliesStore {
  import opened Bytes
  import opened FlashMemory

  const SUPPLIES_NUM: nat := 10
  const PAGES: nat := 16
  const PAGE_SIZE: nat := 0x100

  // A page either was never used, or is deleted, or starts with the length of its text.
  predicate PageOk(p: seq<byte>)
  {
    |p| == PAGE_SIZE && (p[0] == BLANK ==> IsBlank(p, 0, PAGE_SIZE))
  }

  predicate SectorOk(pages: seq<seq<byte>>)
  {
    |pages| == PAGES && forall i :: 0 <= i < PAGES ==> PageOk(pages[i])
  }

  // What GetString finds on a page.
  function Text(p: seq<byte>): Option<seq<byte>>
    requires PageOk(p)
  {
    if p[0] == BLANK || p[0] == 0 then None else Some(p[2..2 + p[0]])
  }

  // The store as its users see it.
  function Texts(pages: seq<seq<byte>>): (t: seq<Option<seq<byte>>>)
    requires SectorOk(pages)
    ensures |t| == SUPPLIES_NUM && forall i :: 0 <= i < SUPPLIES_NUM ==> t[i] == Text(pages[i])
  {
    seq(SUPPLIES_NUM, i requires 0 <= i < SUPPLIES_NUM => Text(pages[i]))
  }

  // What CopyFromSource puts before a text: the ordinal on independent units (the digits of 10 in
  // reversed order), a bullet on the others.  UTF-16, low byte first.
  function Prefix(independent: bool, index: nat): (p: seq<byte>)
    requires index < SUPPLIES_NUM
    ensures 2 <= |p| <= 6
  {
    if !independent then [0x22, 0x20]
    else if index + 1 < 10 then [0x30 + (index + 1), 0, 0x2e, 0]
    else [0x30 + (index + 1) % 10, 0, 0x30 + (index + 1) / 10, 0, 0x2e, 0]
  }

  // A number in decimal, most significant digit first.
  function Decimal(n: nat): seq<byte>
  {
    if n < 10 then [0x30 + n, 0] else Decimal(n / 10) + [0x30 + n % 10, 0]
  }

  // The prefix a reader expects.
  function Ordinal(independent: bool, index: nat): seq<byte>
  {
    if independent then Decimal(index + 1) + [0x2e, 0] else [0x22, 0x20]
  }

  // On independent units the ordinal is spelled right up to 9; the 10 of the tenth text comes out
  // as "01".
  lemma OrdinalSpelled(independent: bool, index: nat)
    requires index < SUPPLIES_NUM
    ensures Prefix(independent, index) == Ordinal(independent, index) <==> !independent || index + 1 < 10
    ensures independent && index + 1 == 10 ==> Prefix(independent, index) == Decimal(0) + Decimal(1) + [0x2e, 0]
  {
    if independent && index + 1 == 10 {
      assert Decimal(1) == [0x31, 0];
      assert Decimal(10) == [0x31, 0] + [0x30, 0];
      assert Ordinal(true, 9)[0] == 0x31 && Prefix(true, 9)[0] == 0x30;
    }
  }

  datatype Sectors = Sectors(main: seq<seq<byte>>, backup: seq<seq<byte>>)

  // At this moment one of the two sectors holds the whole store, as before the edit or as after it.
  ghost predicate CrashSafe(s: Sectors, before: seq<Option<seq<byte>>>, after: seq<Option<seq<byte>>>)
  {
    && SectorOk(s.main) && SectorOk(s.backup)
    && (Texts(s.main) == before || Texts(s.main) == after || Texts(s.backup) == before || Texts(s.backup) == after)
  }

  // Every step of an edit was taken in such a moment.
  ghost predicate SafeSteps(trace: seq<Sectors>, start: nat, before: seq<Option<seq<byte>>>, after: seq<Option<seq<byte>>>)
  {
    forall k :: start <= k < |trace| ==> CrashSafe(trace[k], before, after)
  }

  // What is left after a power cut during an edit of one text: one sector still has every other
  // text, and this one as it was or as it was to become.
  lemma LeftByPowerCut(trace: seq<Sectors>, before: seq<Option<seq<byte>>>, index: nat, edited: Option<seq<byte>>, k: nat)
    requires index < |before| == SUPPLIES_NUM && k < |trace| && SafeSteps(trace, 0, before, before[index := edited])
    ensures SectorOk(trace[k].main) && SectorOk(trace[k].backup)
    ensures exists pages :: pages in [trace[k].main, trace[k].backup] && SectorOk(pages)
              && (forall i :: 0 <= i < SUPPLIES_NUM && i != index ==> Texts(pages)[i] == before[i])
              && (Texts(pages)[index] == before[index] || Texts(pages)[index] == edited)
  {
    assert CrashSafe(trace[k], before, before[index := edited]);
    var s := trace[k];
    var pages := if Texts(s.main) == before || Texts(s.main) == before[index := edited] then s.main else s.backup;
    assert pages in [s.main, s.backup];
  }

  class SuppliesDisplay {
    const independent: bool                 // UNIT_TYPE == UNIT_TYPE_INDEPENDENT
    var tempBuffer: array<byte>
    var main: array<seq<byte>>              // SUPPLIES_FLASH_SECTOR
    var backup: array<seq<byte>>            // BACKUP_FLASH_SECTOR
    ghost var Trace: seq<Sectors>           // the contents before each erase or program step

    ghost predicate Valid()
      reads this, tempBuffer, main, backup
    {
      && Shaped()
      && SectorOk(main[..]) && main[..] == backup[..]
    }

    ghost predicate Shaped()
      reads this
    {
      tempBuffer.Length == PAGE_SIZE && main.Length == PAGES && backup.Length == PAGES && main != backup
    }

    ghost function Now(): Sectors
      reads this, main, backup
    {
      Sectors(main[..], backup[..])
    }

    method CopyFromSource(index: nat, source: seq<byte>, len: byte)
      requires Shaped() && index < SUPPLIES_NUM && len <= 200 && len <= |source|
      modifies tempBuffer
      ensures PageOk(tempBuffer[..])
      ensures Text(tempBuffer[..]) == Some(Prefix(independent, index) + source[..len])
    {
      if !independent {
        tempBuffer[0] := len + 2;
        tempBuffer[1] := 0;
        tempBuffer[2] := 0x22;
        tempBuffer[3] := 0x20;
        CopyText(4, source, len);
        PrefixedText(tempBuffer[..], [0x22, 0x20], source[..len]);
      } else if index + 1 < 10 {
        tempBuffer[0] := len + 4;
        tempBuffer[1] := 0;
        tempBuffer[2] := 0x30 + (index + 1);
        tempBuffer[3] := 0;
        tempBuffer[4] := 0x2e;
        tempBuffer[5] := 0;
        CopyText(6, source, len);
        PrefixedText(tempBuffer[..], [0x30 + (index + 1), 0, 0x2e, 0], source[..len]);
      } else {
        tempBuffer[0] := len + 6;
        tempBuffer[1] := 0;
        tempBuffer[2] := 0x30 + (index + 1) % 10;
        tempBuffer[3] := 0;
        tempBuffer[4] := 0x30 + (index + 1) / 10;
        tempBuffer[5] := 0;
        tempBuffer[6] := 0x2e;
        tempBuffer[7] := 0;
        CopyText(8, source, len);
        PrefixedText(tempBuffer[..], [0x30 + (index + 1) % 10, 0, 0x30 + (index + 1) / 10, 0, 0x2e, 0], source[..len]);
      }
    }

    method CopyText(at: nat, source: seq<byte>, len: byte)
      requires Shaped() && at + len <= PAGE_SIZE && len <= |source|
      modifies tempBuffer
      ensures forall k :: 0 <= k < at ==> tempBuffer[k] == old(tempBuffer[k])
      ensures tempBuffer[at..at + len] == source[..len]
    {
      forall k | 0 <= k < len {
        tempBuffer[at + k] := source[k];
      }
    }

    // Programs one page from the buffer.
    method CopyToFlash256(sector: array<seq<byte>>, i: nat)
      requires Shaped() && (sector == main || sector == backup) && i < PAGES && |sector[i]| == PAGE_SIZE
      modifies this`Trace, sector
      ensures sector[..] == old(sector[..])[i := Programmed(old(sector[i]), 0, tempBuffer[..])]
      ensures Trace == old(Trace) + [old(Now())]
    {
      Trace := Trace + [Now()];
      sector[i] := Programmed(sector[i], 0, tempBuffer[..]);
    }

    method EraseSectors(sector: array<seq<byte>>)
      requires Shaped() && (sector == main || sector == backup)
      modifies this`Trace, sector
      ensures sector[..] == seq(PAGES, _ => Blank(PAGE_SIZE))
      ensures Trace == old(Trace) + [old(Now())]
    {
      Trace := Trace + [Now()];
      forall i | 0 <= i < PAGES {
        sector[i] := Blank(PAGE_SIZE);
      }
    }

    // memcpy of a whole page.
    method LoadPage(p: seq<byte>)
      requires Shaped() && |p| == PAGE_SIZE
      modifies tempBuffer
      ensures tempBuffer[..] == p
    {
      forall k | 0 <= k < PAGE_SIZE {
        tempBuffer[k] := p[k];
      }
    }

    // The store's own indices, and the pages of the sector that it leaves blank.
    method GetString(index: nat) returns (text: Option<seq<byte>>)
      requires Valid() && index < PAGES
      ensures text == Text(main[index])
      ensures index < SUPPLIES_NUM ==> text == Texts(main[..])[index]
    {
      var status := main[index][0];
      if status == 0xff || status == 0x00 {
        return None;
      }
      return Some(main[index][2..2 + status]);
    }

    // Writes the buffer to the same page of both sectors.
    method WriteThrough(index: nat)
      requires Valid() && index < SUPPLIES_NUM && PageOk(Programmed(main[index], 0, tempBuffer[..]))
      modifies this`Trace, main, backup
      ensures Valid() && main[..] == old(main[..])[index := Programmed(old(main[index]), 0, tempBuffer[..])]
      ensures old(Trace) <= Trace && SafeSteps(Trace, |old(Trace)|, old(Texts(main[..])), Texts(main[..]))
    {
      CopyToFlash256(main, index);
      CopyToFlash256(backup, index);
    }

    method DeleteString(index: nat) returns (ok: bool)
      requires Valid()
      modifies this`Trace, tempBuffer, main, backup
      ensures Valid() && ok == (index < SUPPLIES_NUM) && old(Trace) <= Trace
      ensures Texts(main[..]) == if ok then old(Texts(main[..]))[index := None] else old(Texts(main[..]))
      ensures SafeSteps(Trace, |old(Trace)|, old(Texts(main[..])), Texts(main[..]))
    {
      if index >= SUPPLIES_NUM {
        return false;
      }
      var status := main[index][0];
      if status == 0xff || status == 0x00 {
        return true;
      }
      LoadPage(main[index]);
      tempBuffer[0] := 0x00;
      Cleared(main[index], tempBuffer[..]);
      WriteThrough(index);
      return true;
    }

    method ModifyString(index: nat, source: seq<byte>, len: byte) returns (ok: bool)
      requires Valid() && len <= |source|
      modifies this`Trace, tempBuffer, main, backup
      ensures Valid() && ok == (index < SUPPLIES_NUM && len <= 200) && old(Trace) <= Trace
      ensures Texts(main[..]) == if ok then old(Texts(main[..]))[index := Some(Prefix(independent, index) + source[..len])]
                                 else old(Texts(main[..]))
      ensures SafeSteps(Trace, |old(Trace)|, old(Texts(main[..])), Texts(main[..]))
    {
      if index >= SUPPLIES_NUM || len > 200 {
        return false;
      }
      if main[index][0] == 0xff {
        WriteNew(index, source, len);
        return true;
      }
      RebuildMain(index, source, len);
      RebuildBackup(index, old(main[..]), Prefix(independent, index) + source[..len]);
      return true;
    }

    // A page never used takes the text without an erase.
    method WriteNew(index: nat, source: seq<byte>, len: byte)
      requires Valid() && index < SUPPLIES_NUM && len <= 200 && len <= |source| && main[index][0] == BLANK
      modifies this`Trace, tempBuffer, main, backup
      ensures Valid() && old(Trace) <= Trace
      ensures Texts(main[..]) == old(Texts(main[..]))[index := Some(Prefix(independent, index) + source[..len])]
      ensures SafeSteps(Trace, |old(Trace)|, old(Texts(main[..])), Texts(main[..]))
    {
      CopyFromSource(index, source, len);
      ProgrammedBlank(main[index], 0, tempBuffer[..]);
      assert Splice(main[index], 0, tempBuffer[..]) == tempBuffer[..];
      WriteThrough(index);
    }

    // Erases the main sector and fills it from the backup and the new text.  Deleted pages are
    // skipped and so become usable again.
    method RebuildMain(index: nat, source: seq<byte>, len: byte)
      requires Valid() && index < SUPPLIES_NUM && len <= 200 && len <= |source|
      modifies this`Trace, tempBuffer, main
      ensures Shaped() && backup[..] == old(backup[..]) && old(Trace) <= Trace
      ensures Rebuilt(main[..], backup[..], SUPPLIES_NUM, index, Prefix(independent, index) + source[..len])
      ensures SafeSteps(Trace, |old(Trace)|, old(Texts(main[..])),
                        old(Texts(main[..]))[index := Some(Prefix(independent, index) + source[..len])])
    {
      ghost var pages := backup[..];
      ghost var text := Prefix(independent, index) + source[..len];
      ghost var after := Texts(pages)[index := Some(text)];
      EraseSectors(main);
      for i := 0 to SUPPLIES_NUM
        invariant backup[..] == pages && old(Trace) <= Trace
        invariant Rebuilt(main[..], pages, i, index, text)
        invariant SafeSteps(Trace, |old(Trace)|, Texts(pages), after)
      {
        if i == index {
          CopyFromSource(i, source, len);
        } else {
          if backup[i][0] == 0x00 {
            continue;
          }
          LoadPage(backup[i]);
        }
        BlankPage(main[i], tempBuffer[..]);
        MirrorIsSafe(Now(), pages, after);
        CopyToFlash256(main, i);
      }
    }

    // Copies the rebuilt main sector to the erased backup.
    method RebuildBackup(index: nat, ghost pages: seq<seq<byte>>, ghost text: seq<byte>)
      requires Shaped() && index < SUPPLIES_NUM && SectorOk(pages) && SectorOk(backup[..])
      requires Rebuilt(main[..], pages, SUPPLIES_NUM, index, text)
      modifies this`Trace, tempBuffer, backup
      ensures Valid() && main[..] == old(main[..]) && old(Trace) <= Trace
      ensures Texts(main[..]) == Texts(pages)[index := Some(text)]
      ensures SafeSteps(Trace, |old(Trace)|, Texts(pages), Texts(main[..]))
    {
      RebuiltTexts(main[..], pages, index, text);
      EraseSectors(backup);
      for i := 0 to SUPPLIES_NUM
        invariant main[..] == old(main[..]) && old(Trace) <= Trace
        invariant forall j :: 0 <= j < PAGES ==> backup[j] == if j < i then main[j] else Blank(PAGE_SIZE)
        invariant SafeSteps(Trace, |old(Trace)|, Texts(pages), Texts(main[..]))
      {
        LoadPage(main[i]);
        BlankPage(backup[i], tempBuffer[..]);
        CopyToFlash256(backup, i);
      }
    }
  }

  // A page that survives a rebuild; a deleted one comes back blank.
  function Kept(p: seq<byte>): seq<byte>
    requires |p| == PAGE_SIZE
  {
    if p[0] == 0 then Blank(PAGE_SIZE) else p
  }

  // The main sector once its first i pages are rebuilt from pages, with text at index.
  ghost predicate Rebuilt(main: seq<seq<byte>>, pages: seq<seq<byte>>, i: nat, index: nat, text: seq<byte>)
  {
    && |main| == PAGES && SectorOk(pages)
    && forall j :: 0 <= j < PAGES ==>
         if j >= i then main[j] == Blank(PAGE_SIZE)
         else if j == index then PageOk(main[j]) && Text(main[j]) == Some(text)
         else main[j] == Kept(pages[j])
  }

  lemma RebuiltTexts(main: seq<seq<byte>>, pages: seq<seq<byte>>, index: nat, text: seq<byte>)
    requires Rebuilt(main, pages, SUPPLIES_NUM, index, text) && index < SUPPLIES_NUM
    ensures SectorOk(main) && Texts(main) == Texts(pages)[index := Some(text)]
  {
    forall j | 0 <= j < SUPPLIES_NUM && j != index ensures Text(main[j]) == Text(pages[j]) {
      assert main[j] == Kept(pages[j]);
    }
  }

  lemma MirrorIsSafe(s: Sectors, pages: seq<seq<byte>>, after: seq<Option<seq<byte>>>)
    requires SectorOk(s.main) && s.backup == pages && SectorOk(pages)
    ensures CrashSafe(s, Texts(pages), after)
  {
  }

  lemma BlankPage(p: seq<byte>, buffer: seq<byte>)
    requires p == Blank(PAGE_SIZE) && |buffer| == PAGE_SIZE
    ensures Programmed(p, 0, buffer) == buffer
  {
    ProgrammedBlank(p, 0, buffer);
    assert Splice(p, 0, buffer) == buffer;
  }

  // Programming a page with itself, first byte zeroed, deletes it.
  lemma Cleared(p: seq<byte>, buffer: seq<byte>)
    requires PageOk(p) && |buffer| == PAGE_SIZE && buffer == p[0 := 0]
    ensures Programmed(p, 0, buffer) == buffer && PageOk(buffer) && Text(buffer) == None
  {
    forall k | 0 <= k < PAGE_SIZE ensures Burn(p[k], buffer[k]) == buffer[k] {
      AndSame(p[k]);
    }
  }

  lemma PrefixedText(p: seq<byte>, prefix: seq<byte>, text: seq<byte>)
    requires |p| == PAGE_SIZE && 0 < |prefix| + |text| < 0xff && |prefix| + |text| + 2 <= PAGE_SIZE
    requires p[0] == |prefix| + |text|
    requires forall k :: 0 <= k < |prefix| ==> p[2 + k] == prefix[k]
    requires p[2 + |prefix|..2 + |prefix| + |text|] == text
    ensures PageOk(p) && Text(p) == Some(prefix + text)
  {
    assert p[2..2 + |prefix|] == prefix;
    assert p[2..2 + p[0]] == p[2..2 + |prefix|] + p[2 + |prefix|..2 + |prefix| + |text|];
  }

  // ----- Whole histories -----

  datatype Edit = Modify(index: nat, source: seq<byte>) | Delete(index: nat)

  // Edits the store accepts; it answers false to the others.
  predicate Effective(edit: Edit)
  {
    edit.index < SUPPLIES_NUM && (edit.Modify? ==> |edit.source| <= 200)
  }

  function Result(independent: bool, edit: Edit): Option<seq<byte>>
    requires Effective(edit)
  {
    match edit
    case Modify(index, source) => Some(Prefix(independent, index) + source)
    case Delete(_) => None
  }

  // The map from index to text that the store is meant to be.
  function Edited(independent: bool, texts: seq<Option<seq<byte>>>, edits: seq<Edit>): (r: seq<Option<seq<byte>>>)
    requires |texts| == SUPPLIES_NUM
    ensures |r| == SUPPLIES_NUM
  {
    if edits == [] then texts
    else
      var before := Edited(independent, texts, edits[..|edits| - 1]);
      var edit := edits[|edits| - 1];
      if Effective(edit) then before[edit.index := Result(independent, edit)] else before
  }

  method Replay(store: SuppliesDisplay, edits: seq<Edit>)
    requires store.Valid() && forall e :: e in edits && e.Modify? ==> |e.source| < 0x100
    modifies store`Trace, store.tempBuffer, store.main, store.backup
    ensures store.Valid()
    ensures Texts(store.main[..]) == Edited(store.independent, old(Texts(store.main[..])), edits)
  {
    for n := 0 to |edits|
      invariant store.Valid()
      invariant Texts(store.main[..]) == Edited(store.independent, old(Texts(store.main[..])), edits[..n])
    {
      assert edits[..n + 1][..n] == edits[..n] && edits[n] in edits;
      match edits[n] {
        case Modify(index, source) =>
          var _ := store.ModifyString(index, source, |source|);
          assert source[..|source|] == source;
        case Delete(index) =>
          var _ := store.DeleteString(index);
      }
    }
    assert edits[..|edits|] == edits;
  }

  // An index reads as its last accepted edit left it, and is untouched by all edits of others.
  lemma {:induction false} LastEditWins(independent: bool, texts: seq<Option<seq<byte>>>, edits: seq<Edit>, i: nat, k: nat)
    requires |texts| == SUPPLIES_NUM && i < SUPPLIES_NUM && k <= |edits|
    requires forall j :: k <= j < |edits| && edits[j].index == i ==> edits[j].Modify? && |edits[j].source| > 200
    requires k > 0 ==> edits[k - 1].index == i && (edits[k - 1].Modify? ==> |edits[k - 1].source| <= 200)
    ensures Edited(independent, texts, edits)[i] ==
            if k == 0 then texts[i] else Result(independent, edits[k - 1])
    decreases |edits|
  {
    if |edits| > k {
      LastEditWins(independent, texts, edits[..|edits| - 1], i, k);
    }
  }
}
