/**
 The 32-bit words in which both CAN firmwares keep one bit per segment of the entry being
 reassembled.  A set bit means "nothing missing here"; the receivers test a whole word
 against 0xffffffff.
 */
module TagWords {
  import opened Bytes

  // The C expression 1 << k, for the bit positions of one word.
  function Mask(k: nat): bv32
  {
    Shifted(k)
  }

  function Shifted(k: nat): bv32
  {
    if k == 0 then 1 else Shifted(k - 1) << 1
  }

  function Common(a: bv32, b: bv32): bv32
  {
    a & b
  }

  predicate BitSet(w: bv32, k: nat)
  {
    Common(w, Mask(k)) != 0
  }

  // tag |= 1 << k
  function With(w: bv32, k: nat): bv32
  {
    w | Mask(k)
  }

  // tag &= ~(1 << k)
  function Without(w: bv32, k: nat): bv32
  {
    w & !Mask(k)
  }

  lemma SetBit(w: bv32, k: nat, j: nat)
    requires k < 32 && j < 32
    ensures BitSet(With(w, k), j) <==> j == k || BitSet(w, j)
  {
    MaskPair(j, k);
    if j == k {
      OrSame(w, Mask(j));
    } else {
      OrOther(w, Mask(k), Mask(j));
    }
  }

  lemma ClearBit(w: bv32, k: nat, j: nat)
    requires k < 32 && j < 32
    ensures BitSet(Without(w, k), j) <==> j != k && BitSet(w, j)
  {
    MaskPair(j, k);
    if j == k {
      ClearSame(w, Mask(j));
    } else {
      ClearOther(w, Mask(k), Mask(j));
    }
  }

  // The segments still missing according to the two words.
  function Missing(words: seq<bv32>): set<nat>
    requires |words| == 2
  {
    set i | i in Below(64) && !BitSet(words[i / 32], i % 32)
  }

  lemma TickOff(words: seq<bv32>, i: nat)
    requires |words| == 2 && i < 64
    ensures Missing(words[i / 32 := With(words[i / 32], i % 32)]) == Missing(words) - {i}
  {
    var w := words[i / 32 := With(words[i / 32], i % 32)];
    forall j | j in Below(64) ensures j in Missing(w) <==> j in Missing(words) - {i} {
      if j / 32 == i / 32 {
        SetBit(words[i / 32], i % 32, j % 32);
      }
    }
  }

  lemma MarkMissing(words: seq<bv32>, i: nat)
    requires |words| == 2 && i < 64
    ensures Missing(words[i / 32 := Without(words[i / 32], i % 32)]) == Missing(words) + {i}
  {
    var w := words[i / 32 := Without(words[i / 32], i % 32)];
    forall j | j in Below(64) ensures j in Missing(w) <==> j in Missing(words) + {i} {
      if j / 32 == i / 32 {
        ClearBit(words[i / 32], i % 32, j % 32);
      }
    }
  }

  // Both words read 0xffffffff exactly when nothing is missing.
  lemma NothingMissing(words: seq<bv32>)
    requires |words| == 2
    ensures words == [0xffffffff, 0xffffffff] <==> Missing(words) == {}
  {
    if Missing(words) == {} {
      HalfTicked(words, 0);
      HalfTicked(words, 1);
    } else {
      var i :| i in Missing(words);
      AllBits(words[i / 32]);
    }
  }

  lemma HalfTicked(words: seq<bv32>, h: nat)
    requires |words| == 2 && h < 2 && Missing(words) == {}
    ensures words[h] == 0xffffffff
  {
    forall j | 0 <= j < 32 ensures BitSet(words[h], j) {
      var i := 32 * h + j;
      assert i / 32 == h && i % 32 == j;
      assert i in Below(64) && i !in Missing(words);
    }
    AllBits(words[h]);
  }

  // The comparison with 0xffffffff is a conjunction over the 32 bits.
  lemma AllBits(w: bv32)
    ensures w == 0xffffffff <==> forall j :: 0 <= j < 32 ==> BitSet(w, j)
  {
    MaskTable();
    if w == 0xffffffff {
      forall j | 0 <= j < 32 ensures BitSet(w, j) {}
    }
    if forall j :: 0 <= j < 32 ==> BitSet(w, j) {
      assert BitSet(w, 0) && BitSet(w, 1) && BitSet(w, 2) && BitSet(w, 3);
      assert BitSet(w, 4) && BitSet(w, 5) && BitSet(w, 6) && BitSet(w, 7);
      assert BitSet(w, 8) && BitSet(w, 9) && BitSet(w, 10) && BitSet(w, 11);
      assert BitSet(w, 12) && BitSet(w, 13) && BitSet(w, 14) && BitSet(w, 15);
      assert BitSet(w, 16) && BitSet(w, 17) && BitSet(w, 18) && BitSet(w, 19);
      assert BitSet(w, 20) && BitSet(w, 21) && BitSet(w, 22) && BitSet(w, 23);
      assert BitSet(w, 24) && BitSet(w, 25) && BitSet(w, 26) && BitSet(w, 27);
      assert BitSet(w, 28) && BitSet(w, 29) && BitSet(w, 30) && BitSet(w, 31);
    }
  }

  lemma MaskTable()
    ensures Mask(0) == 0x1 && Mask(1) == 0x2 && Mask(2) == 0x4 && Mask(3) == 0x8
    ensures Mask(4) == 0x10 && Mask(5) == 0x20 && Mask(6) == 0x40 && Mask(7) == 0x80
    ensures Mask(8) == 0x100 && Mask(9) == 0x200 && Mask(10) == 0x400 && Mask(11) == 0x800
    ensures Mask(12) == 0x1000 && Mask(13) == 0x2000 && Mask(14) == 0x4000 && Mask(15) == 0x8000
    ensures Mask(16) == 0x1_0000 && Mask(17) == 0x2_0000 && Mask(18) == 0x4_0000 && Mask(19) == 0x8_0000
    ensures Mask(20) == 0x10_0000 && Mask(21) == 0x20_0000 && Mask(22) == 0x40_0000 && Mask(23) == 0x80_0000
    ensures Mask(24) == 0x100_0000 && Mask(25) == 0x200_0000 && Mask(26) == 0x400_0000 && Mask(27) == 0x800_0000
    ensures Mask(28) == 0x1000_0000 && Mask(29) == 0x2000_0000 && Mask(30) == 0x4000_0000 && Mask(31) == 0x8000_0000
  {
  }

  lemma MaskNonZero(k: nat)
    requires k < 32
    ensures Mask(k) != 0
  {
    MaskTable();
  }

  lemma {:induction false} MasksDisjoint(j: nat, k: nat)
    requires j < k
    ensures Mask(j) & Mask(k) == 0
  {
    if j == 0 {
      ShiftEven(Mask(k - 1));
    } else {
      MasksDisjoint(j - 1, k - 1);
      ShiftAnd(Mask(j - 1), Mask(k - 1));
    }
  }

  lemma MaskPair(j: nat, k: nat)
    requires j < 32 && k < 32
    ensures Mask(j) != 0 && Mask(k) != 0
    ensures j != k ==> Common(Mask(k), Mask(j)) == 0
  {
    MaskNonZero(j);
    MaskNonZero(k);
    if j < k {
      MasksDisjoint(j, k);
      AndCommutes(Mask(j), Mask(k));
    } else if k < j {
      MasksDisjoint(k, j);
    }
  }

  // Facts about two or three words, free of Mask, that the solver decides bit by bit.

  lemma ShiftAnd(a: bv32, b: bv32)
    requires a & b == 0
    ensures (a << 1) & (b << 1) == 0
  {}

  lemma ShiftEven(a: bv32)
    ensures 1 & (a << 1) == 0
  {}

  lemma AndCommutes(a: bv32, b: bv32)
    ensures a & b == b & a
  {}

  lemma OrSame(w: bv32, m: bv32)
    ensures Common(w | m, m) == m
  {}

  lemma OrOther(w: bv32, m: bv32, n: bv32)
    requires Common(m, n) == 0
    ensures Common(w | m, n) == Common(w, n)
  {
    assert (w | m) & n == (w & n) | (m & n);
  }

  lemma ClearSame(w: bv32, m: bv32)
    ensures Common(w & !m, m) == 0
  {}

  lemma ClearOther(w: bv32, m: bv32, n: bv32)
    requires Common(m, n) == 0
    ensures Common(w & !m, n) == Common(w, n)
  {
    assert (w & !m) & n == w & (n & !m);
    NoOverlap(m, n);
  }

  lemma NoOverlap(m: bv32, n: bv32)
    requires m & n == 0
    ensures n & !m == n
  {}
}
