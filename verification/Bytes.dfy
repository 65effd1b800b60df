/** Bytes, byte sums and runs of a byte-driven state machine, shared by every protocol here. */
module Bytes {

  type byte = x: int | 0 <= x < 0x100

  datatype Option<+T> = None | Some(value: T)

  function Min(a: int, b: int): int
  {
    if a <= b then a else b
  }

  // A 16-bit value from its low and high byte.
  function Word16(lo: byte, hi: byte): (w: nat)
    ensures w < 0x1_0000
  {
    var high: int := hi;
    high * 0x100 + lo
  }

  // The numbers below n.
  function Below(n: nat): (s: set<nat>)
    ensures forall i: nat :: i in s <==> i < n
  {
    if n == 0 then {} else Below(n - 1) + {n - 1}
  }

  function Zeros(n: nat): (s: seq<byte>)
    ensures |s| == n && forall k :: 0 <= k < n ==> s[k] == 0
  {
    seq(n, _ => 0)
  }

  // dst with the bytes from pos on replaced by src, as memcpy(dst + pos, src, |src|) leaves it.
  function Splice<T>(dst: seq<T>, pos: nat, src: seq<T>): (r: seq<T>)
    requires pos + |src| <= |dst|
    ensures |r| == |dst|
    ensures forall k :: 0 <= k < |r| ==> r[k] == if pos <= k < pos + |src| then src[k - pos] else dst[k]
  {
    dst[..pos] + src + dst[pos + |src|..]
  }

  lemma SliceOfSlice<T>(s: seq<T>, lo: nat, hi: nat, a: nat, b: nat)
    requires lo <= hi <= |s| && a <= b <= hi - lo
    ensures s[lo..hi][a..b] == s[lo + a..lo + b]
  {
    var x, y := s[lo..hi][a..b], s[lo + a..lo + b];
    forall k | 0 <= k < |x| ensures x[k] == y[k] {}
  }

  // Writing src in two parts, one behind the other.
  lemma SpliceInTwo<T>(dst: seq<T>, pos: nat, src: seq<T>, w: nat)
    requires w <= |src| && pos + |src| <= |dst|
    ensures Splice(Splice(dst, pos, src[..w]), pos + w, src[w..]) == Splice(dst, pos, src)
  {
  }

  // Adding the next element of pieces to what has been taken of them.
  lemma TakeNext<T>(before: seq<T>, pieces: seq<T>, i: nat)
    requires i < |pieces|
    ensures before + pieces[..i + 1] == before + pieces[..i] + [pieces[i]]
  {
  }

  // The sum an 8- or 16-bit checksum accumulates, before reduction.
  function Sum(s: seq<byte>): nat
  {
    if s == [] then 0 else Sum(s[..|s| - 1]) + s[|s| - 1]
  }

  lemma {:induction false} SumConcat(a: seq<byte>, b: seq<byte>)
    ensures Sum(a + b) == Sum(a) + Sum(b)
  {
    if b == [] {
      assert a + b == a;
    } else {
      var c := b[..|b| - 1];
      SumConcat(a, c);
      assert (a + b)[..|a + b| - 1] == a + c;
    }
  }

  // An 8-bit accumulator.
  function Add8(a: byte, b: byte): byte
  {
    (a as int + b as int) % 0x100
  }

  function Acc8(start: byte, s: seq<byte>): byte
    decreases |s|
  {
    if s == [] then start else Acc8(Add8(start, s[0]), s[1..])
  }

  lemma {:induction false} Acc8IsSum(start: byte, s: seq<byte>)
    ensures Acc8(start, s) == (start as int + Sum(s)) % 0x100
    decreases |s|
  {
    if s != [] {
      Acc8IsSum(Add8(start, s[0]), s[1..]);
      SumHead(s);
      ReduceLater(0x100, start as int + s[0] as int, Sum(s[1..]));
    }
  }

  // Two byte strings accumulate alike exactly when their sums agree modulo 256.
  lemma SameAcc8(start: byte, a: seq<byte>, b: seq<byte>)
    ensures Acc8(start, a) == Acc8(start, b) <==> Sum(a) % 0x100 == Sum(b) % 0x100
  {
    Acc8IsSum(start, a);
    Acc8IsSum(start, b);
    SameResidue(0x100, start, Sum(a), Sum(b));
  }

  // The two moduli of the checksums.
  predicate Wraps(m: int)
  {
    m == 0x100 || m == 0x1_0000
  }

  lemma SameResidue(m: int, a: int, x: int, y: int)
    requires Wraps(m)
    ensures (a + x) % m == (a + y) % m <==> x % m == y % m
  {
    ReduceLater(m, a + x, -a);
    ReduceLater(m, a + y, -a);
    ReduceLater(m, x, a);
    ReduceLater(m, y, a);
  }

  lemma ReduceLater(m: int, a: int, b: int)
    requires Wraps(m)
    ensures (a % m + b) % m == (a + b) % m
  {
    if m == 0x100 {
      Rounds8(a % 0x100 + b, a / 0x100);
    } else {
      Rounds16(a % 0x1_0000 + b, a / 0x1_0000);
    }
  }

  lemma Rounds8(x: int, k: int)
    ensures (x + 0x100 * k) % 0x100 == x % 0x100
  {
  }

  lemma Rounds16(x: int, k: int)
    ensures (x + 0x1_0000 * k) % 0x1_0000 == x % 0x1_0000
  {
  }

  lemma {:induction false} Acc8Concat(start: byte, a: seq<byte>, b: seq<byte>)
    ensures Acc8(start, a + b) == Acc8(Acc8(start, a), b)
    decreases |a|
  {
    if a == [] {
      assert a + b == b;
    } else {
      Acc8Concat(Add8(start, a[0]), a[1..], b);
      assert (a + b)[1..] == a[1..] + b;
    }
  }

  lemma Acc8Next(start: byte, s: seq<byte>, i: nat)
    requires i < |s|
    ensures Acc8(start, s[..i + 1]) == Add8(Acc8(start, s[..i]), s[i])
  {
    Acc8Concat(start, s[..i], [s[i]]);
    assert s[..i + 1] == s[..i] + [s[i]];
    assert Acc8(Acc8(start, s[..i]), [s[i]]) == Acc8(Add8(Acc8(start, s[..i]), s[i]), []);
  }

  // A checksum accumulated over two delimiters, a header and a body is the sum of all their bytes.
  lemma AccOfParts(a: byte, b: byte, header: seq<byte>, body: seq<byte>)
    ensures Acc8(Acc8(Add8(a, b), header), body) == Sum([a, b] + header + body) % 0x100
  {
    var front := [a, b];
    assert front[1..] == [b] && [b][1..] == [];
    assert Acc8(0, front) == Acc8(Add8(0, a), [b]) == Acc8(Add8(Add8(0, a), b), []) == Add8(a, b);
    Acc8Concat(0, front, header);
    Acc8Concat(0, front + header, body);
    Acc8IsSum(0, front + header + body);
  }

  lemma SumHead(s: seq<byte>)
    requires s != []
    ensures Sum(s) == s[0] as int + Sum(s[1..])
  {
    SumConcat([s[0]], s[1..]);
    assert s == [s[0]] + s[1..];
    assert [s[0]][..0] == [];
  }

  lemma {:induction false} SumUpdate(s: seq<byte>, k: nat, b: byte)
    requires k < |s|
    ensures Sum(s[k := b]) == Sum(s) - s[k] as int + b as int
    decreases |s|
  {
    SumHead(s);
    SumHead(s[k := b]);
    if k == 0 {
      assert s[k := b][1..] == s[1..];
    } else {
      SumUpdate(s[1..], k - 1, b);
      assert s[k := b][1..] == s[1..][k - 1 := b];
    }
  }

  // One wrong byte always shows in a checksum.
  lemma OneByteShows(m: int, s: seq<byte>, k: nat, wrong: byte)
    requires Wraps(m) && k < |s| && wrong != s[k]
    ensures Sum(s[k := wrong]) % m != Sum(s) % m
  {
    SumUpdate(s, k, wrong);
    if Sum(s[k := wrong]) % m == Sum(s) % m {
      CloseResidues(m, Sum(s[k := wrong]), Sum(s));
    }
  }

  lemma CloseResidues(m: int, x: int, y: int)
    requires Wraps(m) && x % m == y % m && -0x100 < x - y < 0x100
    ensures x == y
  {
    if m == 0x100 {
      assert x - y == (x / 0x100 - y / 0x100) * 0x100;
    } else {
      assert x - y == (x / 0x1_0000 - y / 0x1_0000) * 0x1_0000;
    }
  }

  function Flatten<T>(ss: seq<seq<T>>): seq<T>
  {
    if ss == [] then [] else ss[0] + Flatten(ss[1..])
  }

  lemma {:induction false} FlattenConcat<T>(a: seq<seq<T>>, b: seq<seq<T>>)
    ensures Flatten(a + b) == Flatten(a) + Flatten(b)
  {
    if a == [] {
      assert a + b == b;
    } else {
      FlattenConcat(a[1..], b);
      assert (a + b)[1..] == a[1..] + b && (a + b)[0] == a[0];
      var ra, rb := Flatten(a[1..]), Flatten(b);
      assert a[0] + (ra + rb) == (a[0] + ra) + rb;
    }
  }

  function Map<A, B>(f: A -> B, s: seq<A>): (r: seq<B>)
    ensures |r| == |s| && forall k :: 0 <= k < |s| ==> r[k] == f(s[k])
  {
    seq(|s|, k requires 0 <= k < |s| => f(s[k]))
  }

  // Extends a sequence to a multiple of four.
  function FillUp<T>(s: seq<T>, x: T): (r: seq<T>)
    ensures |r| == (|s| + 3) / 4 * 4
    ensures forall k :: 0 <= k < |r| ==> r[k] == if k < |s| then s[k] else x
  {
    s + seq((4 - |s| % 4) % 4, _ => x)
  }

  // Feeding inputs to a machine one after the other: the last state, and all outputs in order.
  function Run<S, I, E>(step: (S, I) -> (S, seq<E>), s: S, input: seq<I>): (S, seq<E>)
  {
    if input == [] then (s, [])
    else
      var first := step(s, input[0]);
      var rest := Run(step, first.0, input[1..]);
      (rest.0, first.1 + rest.1)
  }

  // How the input is cut into portions does not matter.
  lemma {:induction false} RunConcat<S, I, E>(step: (S, I) -> (S, seq<E>), s: S, a: seq<I>, b: seq<I>)
    ensures Run(step, s, a + b) == (Run(step, Run(step, s, a).0, b).0,
                                    Run(step, s, a).1 + Run(step, Run(step, s, a).0, b).1)
  {
    if a == [] {
      assert a + b == b;
      var rb := Run(step, s, b);
      assert [] + rb.1 == rb.1;
    } else {
      var first := step(s, a[0]);
      RunConcat(step, first.0, a[1..], b);
      assert (a + b)[1..] == a[1..] + b;
      var ra := Run(step, first.0, a[1..]);
      var rb := Run(step, ra.0, b);
      assert first.1 + (ra.1 + rb.1) == (first.1 + ra.1) + rb.1;
    }
  }

  lemma RunCons<S, I, E>(step: (S, I) -> (S, seq<E>), s: S, x: I, rest: seq<I>)
    ensures var first := step(s, x); var after := Run(step, first.0, rest);
            Run(step, s, [x] + rest) == (after.0, first.1 + after.1)
  {
    assert ([x] + rest)[1..] == rest;
  }

  // A first input that puts nothing out.
  lemma RunQuiet<S, I, E>(step: (S, I) -> (S, seq<E>), s: S, x: I, rest: seq<I>)
    requires step(s, x).1 == []
    ensures Run(step, s, [x] + rest) == Run(step, step(s, x).0, rest)
  {
    RunCons(step, s, x, rest);
    var after := Run(step, step(s, x).0, rest);
    assert [] + after.1 == after.1;
  }

  lemma RunSnoc<S, I, E>(step: (S, I) -> (S, seq<E>), s: S, a: seq<I>, x: I)
    ensures var r := Run(step, s, a); var last := step(r.0, x);
            Run(step, s, a + [x]) == (last.0, r.1 + last.1)
  {
    RunConcat(step, s, a, [x]);
    var r := Run(step, s, a);
    var last := step(r.0, x);
    assert Run(step, last.0, []) == (last.0, []);
    assert Run(step, r.0, [x]) == (last.0, last.1 + []);
    assert last.1 + [] == last.1;
  }
}
