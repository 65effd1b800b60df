/**
 The two CRC-32 computations of a firmware upload: the controller's hardware unit, fed with whole
 words, and the host's table, fed with bytes.  They agree on every image.
 */
module Crc {
  import opened Bytes

  const POLY: bv32 := 0x04C11DB7
  const INITIAL: bv32 := 0xFFFFFFFF

  function TopBit(x: bv32): bv32
  {
    x & 0x8000_0000
  }

  // The polynomial enters when a set bit leaves the register.
  function Carry(x: bv32): bv32
  {
    if TopBit(x) != 0 then POLY else 0
  }

  function Left(x: bv32): bv32
  {
    x << 1
  }

  function Xor(x: bv32, y: bv32): bv32
  {
    x ^ y
  }

  // One shift of the CRC register.
  function Shift(x: bv32): bv32
  {
    Xor(Left(x), Carry(x))
  }

  function Shifts(x: bv32, n: nat): bv32
    decreases n
  {
    if n == 0 then x else Shifts(Shift(x), n - 1)
  }

  // The hardware unit: a word enters with its most significant bit first.
  function PushWord(crc: bv32, word: bv32): bv32
  {
    Shifts(Xor(crc, word), 32)
  }

  // The host: a byte enters through a table of 256 values.
  function TableEntry(i: bv32): bv32
  {
    Shifts(High8(i), 8)
  }

  function High8(x: bv32): bv32
  {
    x << 24
  }

  function Low24(x: bv32): bv32
  {
    x & 0x00FF_FFFF
  }

  function PushByte(crc: bv32, b: bv32): bv32
  {
    Xor(Left8(crc), TableEntry(Xor(Top(crc), b)))
  }

  function Top(x: bv32): bv32
  {
    x >> 24
  }

  function Left8(x: bv32): bv32
  {
    x << 8
  }

  // __REV of a word read from memory: its first byte becomes the most significant.
  function Reversed(b0: bv32, b1: bv32, b2: bv32, b3: bv32): bv32
  {
    (b0 << 24) | (b1 << 16) | (b2 << 8) | b3
  }

  // ----- Shifting is linear -----

  lemma CarryXor(x: bv32, y: bv32)
    ensures Carry(Xor(x, y)) == Xor(Carry(x), Carry(y))
  {
    TopBitXor(x, y);
    TwoTopBits(x);
    TwoTopBits(y);
    CarryIs(Xor(x, y), Xor(TopBit(x), TopBit(y)));
    CarryIs(x, TopBit(x));
    CarryIs(y, TopBit(y));
    CarryCases(Carry(x), Carry(y), Carry(Xor(x, y)), TopBit(x), TopBit(y));
  }

  lemma CarryIs(x: bv32, bit: bv32)
    requires bit == TopBit(x)
    ensures Carry(x) == if bit == 0 then 0 else POLY
  {
  }

  lemma CarryCases(a: bv32, b: bv32, c: bv32, s: bv32, t: bv32)
    requires (s == 0 || s == 0x8000_0000) && (t == 0 || t == 0x8000_0000)
    requires a == (if s == 0 then 0 else POLY) && b == (if t == 0 then 0 else POLY)
    requires c == if Xor(s, t) == 0 then 0 else POLY
    ensures c == Xor(a, b)
  {
  }

  lemma TopBitXor(x: bv32, y: bv32)
    ensures TopBit(Xor(x, y)) == Xor(TopBit(x), TopBit(y))
  {
  }

  lemma TwoTopBits(x: bv32)
    ensures TopBit(x) == 0 || TopBit(x) == 0x8000_0000
  {
  }

  lemma LeftXor(x: bv32, y: bv32)
    ensures Left(Xor(x, y)) == Xor(Left(x), Left(y))
  {
  }

  lemma XorSwap(a: bv32, b: bv32, c: bv32, d: bv32)
    ensures Xor(Xor(a, b), Xor(c, d)) == Xor(Xor(a, c), Xor(b, d))
  {
    calc {
      Xor(Xor(a, b), Xor(c, d));
      { XorAssoc(a, b, Xor(c, d)); XorAssoc(b, c, d); }
      Xor(a, Xor(Xor(b, c), d));
      { XorCommutes(b, c); XorAssoc(c, b, d); }
      Xor(a, Xor(c, Xor(b, d)));
      { XorAssoc(a, c, Xor(b, d)); }
      Xor(Xor(a, c), Xor(b, d));
    }
  }

  lemma XorAssoc(a: bv32, b: bv32, c: bv32)
    ensures Xor(Xor(a, b), c) == Xor(a, Xor(b, c))
  {
  }

  lemma XorCommutes(a: bv32, b: bv32)
    ensures Xor(a, b) == Xor(b, a)
  {
  }

  lemma ShiftXor(x: bv32, y: bv32)
    ensures Shift(Xor(x, y)) == Xor(Shift(x), Shift(y))
  {
    CarryXor(x, y);
    LeftXor(x, y);
    XorSwap(Left(x), Left(y), Carry(x), Carry(y));
  }

  lemma {:induction false} ShiftsXor(x: bv32, y: bv32, n: nat)
    ensures Shifts(Xor(x, y), n) == Xor(Shifts(x, n), Shifts(y, n))
    decreases n
  {
    if n > 0 {
      ShiftXor(x, y);
      ShiftsXor(Shift(x), Shift(y), n - 1);
    }
  }

  lemma {:induction false} ShiftsSum(x: bv32, m: nat, n: nat)
    ensures Shifts(x, m + n) == Shifts(Shifts(x, m), n)
    decreases m
  {
    if m > 0 {
      ShiftsSum(Shift(x), m - 1, n);
    }
  }

  // ----- A word is four bytes -----

  lemma ShiftPlain(x: bv32)
    requires x & 0x8000_0000 == 0
    ensures Shift(x) == x << 1
  {
  }

  // Eight shifts of a register whose top byte is clear never meet the polynomial.
  lemma ShiftsClear(x: bv32)
    requires x & 0xFF00_0000 == 0
    ensures Shifts(x, 8) == x << 8
  {
    ShiftsSum(x, 4, 4);
    Shift4Clear(x);
    Shift4Clear(x << 4);
    ShiftTwice4(x);
  }

  lemma Shift4Clear(x: bv32)
    requires x & 0xF000_0000 == 0
    ensures Shifts(x, 4) == x << 4
  {
    ShiftsSum(x, 2, 2);
    Shift2Clear(x);
    Shift2Clear(x << 2);
    ShiftTwice2(x);
  }

  lemma ShiftTwice4(x: bv32)
    ensures (x << 4) << 4 == x << 8
  {
  }

  lemma ShiftTwice2(x: bv32)
    ensures (x << 2) << 2 == x << 4
  {
  }

  lemma Shift2Clear(x: bv32)
    requires x & 0xC000_0000 == 0
    ensures Shifts(x, 2) == x << 2
  {
    ShiftPlain(x);
    ShiftPlain(x << 1);
  }

  lemma SplitTop(crc: bv32, w: bv32)
    ensures Xor(crc, w) == Xor(High8(Xor(Top(crc), Top(w))), Low24(Xor(crc, w)))
  {
    TopXor(crc, w);
    TopAndLow(Xor(crc, w));
  }

  lemma TopXor(x: bv32, y: bv32)
    ensures Top(Xor(x, y)) == Xor(Top(x), Top(y))
  {
  }

  lemma TopAndLow(x: bv32)
    ensures x == Xor(High8(Top(x)), Low24(x))
  {
  }

  lemma LowShifts(x: bv32)
    ensures Shifts(Low24(x), 8) == Left8(x)
  {
    DropTop(x);
    ShiftsClear(Low24(x));
  }

  lemma DropTop(x: bv32)
    ensures Low24(x) << 8 == Left8(x)
    ensures Low24(x) & 0xFF00_0000 == 0
  {
  }

  lemma Left8Xor(x: bv32, y: bv32)
    ensures Left8(Xor(x, y)) == Xor(Left8(x), Left8(y))
  {
  }

  lemma XorRotate(t: bv32, a: bv32, b: bv32)
    ensures Xor(t, Xor(a, b)) == Xor(Xor(a, t), b)
  {
    XorAssoc(t, a, b);
    XorCommutes(t, a);
  }

  // Eight shifts of register and word: the word's top byte has gone through the table, and the
  // rest of the word has moved up.
  lemma PushTop(crc: bv32, w: bv32)
    ensures Shifts(Xor(crc, w), 8) == Xor(PushByte(crc, Top(w)), Left8(w))
  {
    var high := Xor(Top(crc), Top(w));
    SplitTop(crc, w);
    ShiftsXor(High8(high), Low24(Xor(crc, w)), 8);
    LowShifts(Xor(crc, w));
    Left8Xor(crc, w);
    XorRotate(TableEntry(high), Left8(crc), Left8(w));
  }

  lemma BytesOfWord(b0: bv32, b1: bv32, b2: bv32, b3: bv32)
    requires b0 < 0x100 && b1 < 0x100 && b2 < 0x100 && b3 < 0x100
    ensures var w := Reversed(b0, b1, b2, b3);
            && Top(w) == b0 && Top(Left8(w)) == b1 && Top(Left8(Left8(w))) == b2
            && Top(Left8(Left8(Left8(w)))) == b3 && Left8(Left8(Left8(Left8(w)))) == 0
  {
  }

  lemma XorZero(x: bv32)
    ensures Xor(x, 0) == x
  {
  }

  // One push of a reversed word is four pushes of its bytes in memory order.
  lemma WordIsBytes(crc: bv32, b0: bv32, b1: bv32, b2: bv32, b3: bv32)
    requires b0 < 0x100 && b1 < 0x100 && b2 < 0x100 && b3 < 0x100
    ensures PushWord(crc, Reversed(b0, b1, b2, b3)) == PushByte(PushByte(PushByte(PushByte(crc, b0), b1), b2), b3)
  {
    var w := Reversed(b0, b1, b2, b3);
    BytesOfWord(b0, b1, b2, b3);
    var c1 := PushByte(crc, b0);
    var c2 := PushByte(c1, b1);
    var c3 := PushByte(c2, b2);
    FourTops(crc, w);
    XorZero(PushByte(c3, b3));
  }

  lemma FourTops(crc: bv32, w: bv32)
    ensures var w1 := Left8(w); var w2 := Left8(w1); var w3 := Left8(w2);
            var c1 := PushByte(crc, Top(w)); var c2 := PushByte(c1, Top(w1)); var c3 := PushByte(c2, Top(w2));
            PushWord(crc, w) == Xor(PushByte(c3, Top(w3)), Left8(w3))
  {
    var w1 := Left8(w);
    var w2 := Left8(w1);
    var w3 := Left8(w2);
    var c1 := PushByte(crc, Top(w));
    var c2 := PushByte(c1, Top(w1));
    var c3 := PushByte(c2, Top(w2));
    ShiftsSum(Xor(crc, w), 8, 24);
    PushTop(crc, w);
    ShiftsSum(Xor(c1, w1), 8, 16);
    PushTop(c1, w1);
    ShiftsSum(Xor(c2, w2), 8, 8);
    PushTop(c2, w2);
    PushTop(c3, w3);
  }

  // ----- Whole images -----

  // A byte widened to a word, as C does it.
  type Octet = w: bv32 | w < 0x100

  function Fold<S, I>(push: (S, I) -> S, crc: S, data: seq<I>): S
  {
    if data == [] then crc else push(Fold(push, crc, data[..|data| - 1]), data[|data| - 1])
  }

  // The host's Crc32.UpdateByte over a sequence.
  function HostCrc(crc: bv32, data: seq<Octet>): bv32
  {
    Fold((c: bv32, b: Octet) => PushByte(c, b), crc, data)
  }

  // CRCPush(__REV(word)) for the words of a memory block, the last one padded with 0xff.
  function DeviceCrc(crc: bv32, data: seq<Octet>): bv32
  {
    if data == [] then crc
    else
      var last := LastWord(data);
      PushWord(DeviceCrc(crc, data[..LastStart(|data|)]), Reversed(last[0], last[1], last[2], last[3]))
  }

  function LastStart(len: nat): (n: nat)
    requires len > 0
    ensures n < len <= n + 4 && n % 4 == 0
  {
    (len - 1) / 4 * 4
  }

  function LastWord(data: seq<Octet>): (r: seq<Octet>)
    requires data != []
    ensures |r| == 4
  {
    Pad(data[LastStart(|data|)..])
  }

  function Pad(data: seq<Octet>): (r: seq<Octet>)
    ensures |r| == (|data| + 3) / 4 * 4
  {
    FillUp(data, 0xff)
  }

  // The controller's CRC of an uploaded image is the one the host computes over the same image
  // padded to whole words.
  lemma {:induction false} DeviceAgreesWithHost(crc: bv32, data: seq<Octet>)
    ensures DeviceCrc(crc, data) == HostCrc(crc, Pad(data))
    decreases |data|
  {
    if data != [] {
      var n := LastStart(|data|);
      var last := LastWord(data);
      DeviceAgreesWithHost(crc, data[..n]);
      PadLast(data);
      HostFour(crc, data[..n], last);
      WordIsBytes(DeviceCrc(crc, data[..n]), last[0], last[1], last[2], last[3]);
    } else {
      assert Pad(data) == [];
    }
  }

  lemma PadLast(data: seq<Octet>)
    requires data != []
    ensures var n := LastStart(|data|); Pad(data[..n]) == data[..n] && Pad(data) == data[..n] + LastWord(data)
  {
    var n := LastStart(|data|);
    assert data == data[..n] + data[n..];
    assert |data[n..]| % 4 == |data| % 4;
  }

  lemma FoldFour<S, I>(push: (S, I) -> S, crc: S, a: seq<I>, w: seq<I>)
    requires |w| == 4
    ensures Fold(push, crc, a + w) == push(push(push(push(Fold(push, crc, a), w[0]), w[1]), w[2]), w[3])
  {
    var half := a + [w[0], w[1]];
    FoldTwo(push, crc, a, w[0], w[1]);
    FoldTwo(push, crc, half, w[2], w[3]);
    assert a + w == half + [w[2], w[3]];
  }

  lemma FoldTwo<S, I>(push: (S, I) -> S, crc: S, a: seq<I>, b: I, c: I)
    ensures Fold(push, crc, a + [b, c]) == push(push(Fold(push, crc, a), b), c)
  {
    var s := a + [b, c];
    assert s[..|s| - 1] == a + [b];
    assert (a + [b])[..|a|] == a;
  }

  lemma HostFour(crc: bv32, a: seq<Octet>, w: seq<Octet>)
    requires |w| == 4
    ensures HostCrc(crc, a + w) == PushByte(PushByte(PushByte(PushByte(HostCrc(crc, a), w[0]), w[1]), w[2]), w[3])
  {
    FoldFour((c: bv32, b: Octet) => PushByte(c, b), crc, a, w);
  }

  // The table as the host's static constructor fills it, one entry.
  method ComputeEntry(i: Octet) returns (crc: bv32)
    ensures crc == TableEntry(i)
  {
    crc := High8(i);
    for j := 0 to 8
      invariant Shifts(crc, 8 - j) == TableEntry(i)
    {
      var bit := TopBit(crc);
      crc := Left(crc);
      if bit != 0 {
        crc := Xor(crc, POLY);
      }
    }
  }
}
