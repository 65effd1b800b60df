/**
 What padding does to the host's CRC.  Pushing 0xff is an affine map of the register, and shifting
 is multiplication in a field whose non-zero elements never come back within 24 shifts: up to three
 padding bytes leave the register as it was only at the one fixed point of pushing 0xff.
 */
module CrcPadding {
  import opened Bytes
  import opened Crc

  const FIXED: bv32 := 0x03BF0B6D

  // ----- No register but 0 returns after 1, 2, 4, 8, 16 or 24 shifts -----

  function Moved(d: bv32, n: nat): bv32
  {
    Xor(d, Shifts(d, n))
  }

  function Spread(d: bv32, n: nat): bv32
  {
    Xor(Moved(d, n), Shifts(d, n + n))
  }

  lemma EqualXor(x: bv32, y: bv32)
    ensures Xor(x, y) == 0 <==> x == y
  {
    SelfXor(y);
    if Xor(x, y) == 0 {
      XorAssoc(x, y, y);
      XorZero(x);
      XorZero(y);
      XorCommutes(y, 0);
    }
  }

  lemma SelfXor(x: bv32)
    ensures Xor(x, x) == 0
  {
  }

  lemma CancelMiddle(a: bv32, b: bv32, c: bv32)
    ensures Xor(Xor(a, b), Xor(b, c)) == Xor(a, c)
  {
    XorSwap(a, b, b, c);
    XorAssoc(a, b, Xor(b, c));
    XorAssoc(b, b, c);
    SelfXor(b);
    XorCommutes(0, c);
    XorZero(c);
  }

  lemma CancelThree(a: bv32, b: bv32, c: bv32, d: bv32)
    ensures Xor(Xor(Xor(a, b), c), Xor(Xor(b, c), d)) == Xor(a, d)
  {
    XorAssoc(a, b, c);
    CancelMiddle(a, Xor(b, c), d);
  }

  lemma CancelFive(a: bv32, b: bv32, c: bv32, d: bv32, e: bv32)
    ensures Xor(Xor(Xor(Xor(a, b), c), Xor(Xor(b, c), d)), Xor(Xor(c, d), e)) == Xor(Xor(a, c), e)
  {
    CancelThree(a, b, c, d);
    XorCommutes(c, d);
    XorAssoc(d, c, e);
    CancelMiddle(a, d, Xor(c, e));
    XorAssoc(a, c, e);
  }

  lemma OneShift(d: bv32)
    requires Shift(d) == d
    ensures d == 0
  {
  }

  lemma OneSpread(d: bv32)
    requires Xor(Xor(d, Shift(d)), Shift(Shift(d))) == 0
    ensures d == 0
  {
  }

  lemma MovedTwice(d: bv32, n: nat)
    ensures Moved(Moved(d, n), n) == Moved(d, n + n)
  {
    ShiftsXor(d, Shifts(d, n), n);
    ShiftsSum(d, n, n);
    CancelMiddle(d, Shifts(d, n), Shifts(d, n + n));
  }

  function Power2(k: nat): (n: nat)
    ensures n > 0
  {
    if k == 0 then 1 else Power2(k - 1) + Power2(k - 1)
  }

  lemma {:induction false} NeverBack(d: bv32, k: nat)
    requires Shifts(d, Power2(k)) == d
    ensures d == 0
    decreases k
  {
    if k == 0 {
      ShiftsOne(d);
      OneShift(d);
    } else {
      var m := Power2(k - 1);
      MovedTwice(d, m);
      EqualXor(d, Shifts(d, m + m));
      EqualXor(Moved(d, m), Shifts(Moved(d, m), m));
      NeverBack(Moved(d, m), k - 1);
      EqualXor(d, Shifts(d, m));
      NeverBack(d, k - 1);
    }
  }

  lemma ShiftsOne(d: bv32)
    ensures Shifts(d, 1) == Shift(d) && Shifts(d, 2) == Shift(Shift(d))
  {
    assert Shifts(Shift(d), 0) == Shift(d);
    assert Shifts(Shift(d), 1) == Shifts(Shift(Shift(d)), 0);
  }

  // The shifts of Spread(d, n) by n, spelled out.
  lemma ShiftedSpread(d: bv32, n: nat)
    ensures Shifts(Spread(d, n), n) == Xor(Xor(Shifts(d, n), Shifts(d, n + n)), Shifts(d, n + n + n))
  {
    ShiftsXor(Moved(d, n), Shifts(d, n + n), n);
    ShiftsXor(d, Shifts(d, n), n);
    ShiftsSum(d, n, n);
    ShiftsSum(d, n + n, n);
  }

  lemma SpreadTwice(d: bv32, n: nat)
    ensures Spread(Spread(d, n), n) == Spread(d, n + n)
  {
    var s1, s2, s3, s4 := Shifts(d, n), Shifts(d, n + n), Shifts(d, n + n + n), Shifts(d, n + n + n + n);
    ShiftedSpread(d, n);
    ShiftsSum(Spread(d, n), n, n);
    ShiftsXor(Xor(s1, s2), s3, n);
    ShiftsXor(s1, s2, n);
    ShiftsSum(d, n, n);
    ShiftsSum(d, n + n, n);
    ShiftsSum(d, n + n + n, n);
    CancelFive(d, s1, s2, s3, s4);
  }

  lemma {:induction false} NeverSpread(d: bv32, k: nat)
    requires Spread(d, Power2(k)) == 0
    ensures d == 0
    decreases k
  {
    if k == 0 {
      ShiftsOne(d);
      OneSpread(d);
    } else {
      SpreadTwice(d, Power2(k - 1));
      NeverSpread(Spread(d, Power2(k - 1)), k - 1);
      NeverSpread(d, k - 1);
    }
  }

  lemma NeverBackThrice(d: bv32, k: nat)
    requires Shifts(d, Power2(k) + Power2(k) + Power2(k)) == d
    ensures d == 0
  {
    var n := Power2(k);
    ShiftedSpread(d, n);
    CancelThree(d, Shifts(d, n), Shifts(d, n + n), Shifts(d, n + n + n));
    EqualXor(d, d);
    EqualXor(Spread(d, n), Shifts(Spread(d, n), n));
    NeverBack(Spread(d, n), k);
    NeverSpread(d, k);
  }

  lemma Eight()
    ensures Power2(3) == 8 && Power2(4) == 16
  {
    assert Power2(0) == 1 && Power2(1) == 2 && Power2(2) == 4;
  }

  // ----- Padding -----

  lemma PushIsShifts(crc: bv32, b: bv32)
    requires b < 0x100
    ensures PushByte(crc, b) == Shifts(Xor(crc, High8(b)), 8)
  {
    HighByte(b);
    PushTop(crc, High8(b));
    XorZero(PushByte(crc, b));
  }

  lemma HighByte(b: bv32)
    requires b < 0x100
    ensures Top(High8(b)) == b && Left8(High8(b)) == 0
  {
  }

  lemma FixedStays()
    ensures PushByte(FIXED, 0xff) == FIXED
  {
    PushIsShifts(FIXED, 0xff);
    EightShifts(0xfcbf0b6d, 0xfdbf0b6d, 0xffbf0b6d, 0xfbbf0b6d, 0xf3bf0b6d, 0xe3bf0b6d, 0xc3bf0b6d, 0x83bf0b6d, FIXED);
  }

  lemma EightShifts(x0: bv32, x1: bv32, x2: bv32, x3: bv32, x4: bv32, x5: bv32, x6: bv32, x7: bv32, x8: bv32)
    requires Shift(x0) == x1 && Shift(x1) == x2 && Shift(x2) == x3 && Shift(x3) == x4
    requires Shift(x4) == x5 && Shift(x5) == x6 && Shift(x6) == x7 && Shift(x7) == x8
    ensures Shifts(x0, 8) == x8
  {
    assert Shifts(x8, 0) == x8;
    assert Shifts(x6, 2) == x8;
    assert Shifts(x4, 4) == x8;
    assert Shifts(x2, 6) == x8;
  }

  function PushBlank(crc: bv32): bv32
  {
    PushByte(crc, 0xff)
  }

  function Repeated(push: bv32 -> bv32, crc: bv32, k: nat): bv32
  {
    if k == 0 then crc else push(Repeated(push, crc, k - 1))
  }

  function Blanks(crc: bv32, k: nat): bv32
  {
    Repeated(PushBlank, crc, k)
  }

  // Measured from the fixed point, a padding byte is eight shifts.
  lemma BlankIsShift(crc: bv32)
    ensures Xor(PushByte(crc, 0xff), FIXED) == Shifts(Xor(crc, FIXED), 8)
  {
    var k := High8(0xff);
    FixedStays();
    PushIsShifts(crc, 0xff);
    PushIsShifts(FIXED, 0xff);
    ShiftsXor(Xor(crc, k), Xor(FIXED, k), 8);
    XorCommutes(FIXED, k);
    CancelMiddle(crc, k, FIXED);
  }

  function Offset(crc: bv32): bv32
  {
    Xor(crc, FIXED)
  }

  lemma BlankShifts(crc: bv32, n: nat)
    requires n == 8
    ensures Offset(PushByte(crc, 0xff)) == Shifts(Offset(crc), n)
  {
    BlankIsShift(crc);
  }

  function Times(k: nat, n: nat): nat
  {
    if k == 0 then 0 else Times(k - 1, n) + n
  }

  lemma {:induction false} RepeatedShifts(push: bv32 -> bv32, crc: bv32, k: nat, n: nat)
    requires forall c :: Offset(push(c)) == Shifts(Offset(c), n)
    ensures Offset(Repeated(push, crc, k)) == Shifts(Offset(crc), Times(k, n))
  {
    if k > 0 {
      RepeatedShifts(push, crc, k - 1, n);
      ShiftsSum(Offset(crc), Times(k - 1, n), n);
    }
  }

  lemma BlanksAreShifts(crc: bv32, k: nat, n: nat)
    requires n == 8
    ensures Offset(Blanks(crc, k)) == Shifts(Offset(crc), Times(k, n))
  {
    forall c ensures Offset(PushBlank(c)) == Shifts(Offset(c), n) {
      BlankShifts(c, n);
    }
    RepeatedShifts(PushBlank, crc, k, n);
  }

  lemma AtFixed(crc: bv32)
    ensures Offset(crc) == 0 <==> crc == FIXED
  {
    EqualXor(crc, FIXED);
  }

  lemma TimesPower(k: nat, n: nat)
    requires n == 8 && 1 <= k <= 3
    ensures Power2(3) == n && Power2(4) == n + n
    ensures Times(k, n) == if k == 1 then n else if k == 2 then n + n else n + n + n
  {
    Eight();
  }

  lemma NeverBackSoon(d: bv32, k: nat, n: nat)
    requires n == 8 && 1 <= k <= 3 && Shifts(d, Times(k, n)) == d
    ensures d == 0
  {
    TimesPower(k, n);
    if k == 1 {
      NeverBack(d, 3);
    } else if k == 2 {
      NeverBack(d, 4);
    } else {
      NeverBackThrice(d, 3);
    }
  }

  // One, two or three padding bytes leave the register alone at the fixed point and nowhere else.
  lemma BlanksStay(crc: bv32, k: nat, n: nat)
    requires n == 8 && 1 <= k <= 3
    ensures Blanks(crc, k) == crc <==> crc == FIXED
  {
    if Blanks(crc, k) == crc {
      BlanksAreShifts(crc, k, n);
      NeverBackSoon(Offset(crc), k, n);
      AtFixed(crc);
    }
    FixedBlanks(k);
  }

  lemma {:induction false} FixedBlanks(k: nat)
    ensures Blanks(FIXED, k) == FIXED
  {
    if k > 0 {
      FixedBlanks(k - 1);
      FixedStays();
    }
  }

  // ----- Images -----

  lemma HostNext(crc: bv32, data: seq<Octet>, b: Octet)
    ensures HostCrc(crc, data + [b]) == PushByte(HostCrc(crc, data), b)
  {
    assert (data + [b])[..|data|] == data;
  }

  function Missing(n: nat): (k: nat)
    ensures k < 4 && (k == 0 <==> n % 4 == 0)
  {
    (4 - n % 4) % 4
  }

  function Ones(k: nat): (r: seq<Octet>)
    ensures |r| == k
  {
    seq(k, _ => 0xff)
  }

  lemma OnesNext(data: seq<Octet>, k: nat)
    requires k > 0
    ensures data + Ones(k) == data + Ones(k - 1) + [0xff]
  {
    var a, b := data + Ones(k), data + Ones(k - 1) + [0xff];
    assert |a| == |b| && forall i :: 0 <= i < |a| ==> a[i] == b[i];
  }

  lemma {:induction false} HostBlanks(crc: bv32, data: seq<Octet>, k: nat)
    ensures HostCrc(crc, data + Ones(k)) == Blanks(HostCrc(crc, data), k)
  {
    if k == 0 {
      assert data + Ones(k) == data;
    } else {
      HostBlanks(crc, data, k - 1);
      HostNext(crc, data + Ones(k - 1), 0xff);
      OnesNext(data, k);
    }
  }

  lemma PadOnes(data: seq<Octet>)
    ensures Pad(data) == data + Ones(Missing(|data|))
  {
  }

  // The register over an image and over the padded image agree exactly when there is nothing to
  // pad, or the register has reached the fixed point.
  lemma PaddingShows(crc: bv32, data: seq<Octet>)
    ensures HostCrc(crc, Pad(data)) == HostCrc(crc, data) <==> |data| % 4 == 0 || HostCrc(crc, data) == FIXED
  {
    var k := Missing(|data|);
    PadOnes(data);
    HostBlanks(crc, data, k);
    if k > 0 {
      BlanksStay(HostCrc(crc, data), k, 8);
    }
  }
}
