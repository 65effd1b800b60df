/**
 NOR flash: erasing sets bytes to 0xff, programming can only clear bits.  A ghost trace keeps the
 contents before every single operation, so that "at every moment" can be stated.
 */
module FlashMemory {
  import opened Bytes

  const BLANK: byte := 0xff

  // Bitwise conjunction.
  function And(a: nat, b: nat): (r: nat)
    ensures r <= a && r <= b
  {
    if a == 0 || b == 0 then 0 else 2 * And(a / 2, b / 2) + (if a % 2 == 1 && b % 2 == 1 then 1 else 0)
  }

  // Programming v into a cell that holds c.
  function Burn(c: byte, v: byte): byte
  {
    And(c, v)
  }

  lemma {:induction false} AndOnes(n: nat, ones: nat, v: nat)
    requires Ones(n) == ones && v <= ones
    ensures And(ones, v) == v
  {
    if n > 0 {
      AndOnes(n - 1, ones / 2, v / 2);
    }
  }

  // The number whose n low bits are set.
  function Ones(n: nat): nat
  {
    if n == 0 then 0 else 2 * Ones(n - 1) + 1
  }

  function Bit(a: nat, k: nat): nat
  {
    if k == 0 then a % 2 else Bit(a / 2, k - 1)
  }

  // Conjunction bit by bit: programming leaves a bit set exactly if it was set and is to stay set.
  lemma {:induction false} AndBits(a: nat, b: nat, k: nat)
    ensures Bit(And(a, b), k) == if Bit(a, k) == 1 && Bit(b, k) == 1 then 1 else 0
    decreases k
  {
    if a == 0 || b == 0 {
      ZeroBits(k);
    } else {
      var low := if a % 2 == 1 && b % 2 == 1 then 1 else 0;
      assert And(a, b) / 2 == And(a / 2, b / 2) && And(a, b) % 2 == low;
      if k > 0 {
        AndBits(a / 2, b / 2, k - 1);
      }
    }
  }

  lemma {:induction false} ZeroBits(k: nat)
    ensures Bit(0, k) == 0
  {
    if k > 0 {
      ZeroBits(k - 1);
    }
  }

  lemma BurnBlank(v: byte)
    ensures Burn(BLANK, v) == v
  {
    assert Ones(4) == 15;
    assert Ones(8) == 255;
    AndOnes(8, 255, v);
  }

  lemma {:induction false} AndSame(v: nat)
    ensures And(v, v) == v
  {
    if v > 0 {
      AndSame(v / 2);
    }
  }

  predicate IsBlank(s: seq<byte>, from: nat, to: nat)
  {
    forall k :: from <= k < to && k < |s| ==> s[k] == BLANK
  }

  function Blank(n: nat): (s: seq<byte>)
    ensures |s| == n && IsBlank(s, 0, n)
  {
    seq(n, _ => BLANK)
  }

  // The contents after programming bytes at a position.
  function Programmed(s: seq<byte>, at: nat, bytes: seq<byte>): (r: seq<byte>)
    requires at + |bytes| <= |s|
    ensures |r| == |s|
    ensures forall k :: 0 <= k < |s| ==>
              r[k] == if at <= k < at + |bytes| then Burn(s[k], bytes[k - at]) else s[k]
  {
    seq(|s|, k requires 0 <= k < |s| => if at <= k < at + |bytes| then Burn(s[k], bytes[k - at]) else s[k])
  }

  lemma ProgrammedBlank(s: seq<byte>, at: nat, bytes: seq<byte>)
    requires at + |bytes| <= |s| && IsBlank(s, at, at + |bytes|)
    ensures Programmed(s, at, bytes) == Splice(s, at, bytes)
  {
    forall v: byte ensures Burn(BLANK, v) == v {
      BurnBlank(v);
    }
  }

  datatype Op = Erase(from: nat, to: nat) | Program(at: nat, bytes: seq<byte>)
  datatype Step = Step(op: Op, before: seq<byte>)

  class Flash {
    const cells: array<byte>
    ghost var Trace: seq<Step>

    constructor (contents: seq<byte>)
      ensures fresh(cells) && cells[..] == contents && Trace == []
    {
      cells := new byte[|contents|](i requires 0 <= i < |contents| => contents[i]);
      Trace := [];
    }

    method EraseRange(from: nat, to: nat)
      requires from <= to <= cells.Length
      modifies this`Trace, cells
      ensures cells[..] == Splice(old(cells[..]), from, Blank(to - from))
      ensures Trace == old(Trace) + [Step(Erase(from, to), old(cells[..]))]
    {
      Trace := Trace + [Step(Erase(from, to), cells[..])];
      forall k | from <= k < to {
        cells[k] := BLANK;
      }
    }

    method ProgramBytes(at: nat, bytes: seq<byte>)
      requires at + |bytes| <= cells.Length
      modifies this`Trace, cells
      ensures cells[..] == Programmed(old(cells[..]), at, bytes)
      ensures Trace == old(Trace) + [Step(Program(at, bytes), old(cells[..]))]
    {
      Trace := Trace + [Step(Program(at, bytes), cells[..])];
      forall k | at <= k < at + |bytes| {
        cells[k] := Burn(cells[k], bytes[k - at]);
      }
    }
  }
}
