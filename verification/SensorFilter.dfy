/**
 The load cells' filter: three readings make an average, and a channel is stable after six averages
 in a row that each moved by at most a limit.  The state machine is compared with the whole history
 of readings.
 */
module SensorFilter {

  const AVG_WINDOW: nat := 3
  const STABLE_WINDOW: nat := 5
  const LIMIT_SPEED: int := 64

  // A 17-bit converter value.
  type reading = x: int | -0x1_0000 <= x < 0x1_0000

  type int8 = x: int | -0x80 <= x < 0x80
  type int32 = x: int | -0x8000_0000 <= x < 0x8000_0000

  datatype Channel = Channel(tempData: int, tempCount: int, currentData: int, lastData: int, count: int, stable: bool)

  // C's division, which rounds toward zero.
  function Average(total: int): (q: int)
    ensures total - 3 < 3 * q < total + 3 && (total >= 0 ==> 0 <= 3 * q <= total) && (total <= 0 ==> total <= 3 * q <= 0)
  {
    if total >= 0 then total / AVG_WINDOW else -(-total / AVG_WINDOW)
  }

  function Distance(a: int, b: int): nat
  {
    if a >= b then a - b else b - a
  }

  lemma DistanceWithin(a: int, b: int, n: int)
    ensures Distance(a, b) <= n <==> -n <= a - b <= n
  {
  }

  function Settled(c: Channel, average: int): Channel
  {
    var moved := Distance(c.lastData, average) > LIMIT_SPEED;
    var d := c.(currentData := average, lastData := average, tempCount := 0, tempData := 0);
    if moved then d.(stable := false, count := 0)
    else if c.stable then d
    else d.(count := c.count + 1, stable := c.count + 1 > STABLE_WINDOW)
  }

  function Step(c: Channel, x: int): Channel
  {
    if c.tempCount + 1 >= AVG_WINDOW then Settled(c, Average(c.tempData + x))
    else c.(tempData := c.tempData + x, tempCount := c.tempCount + 1)
  }

  const FRESH := Channel(0, 0, 0, 0, 0, false)

  function Fold(c: Channel, readings: seq<reading>): Channel
    decreases |readings|
  {
    if readings == [] then c else Step(Fold(c, readings[..|readings| - 1]), readings[|readings| - 1])
  }

  // ----- The history -----

  function Total(readings: seq<reading>): int
  {
    if readings == [] then 0 else Total(readings[..|readings| - 1]) + readings[|readings| - 1]
  }

  // The averages of consecutive groups of three readings.
  function Averages(readings: seq<reading>): (r: seq<int>)
    ensures |r| == |readings| / 3
  {
    seq(|readings| / 3, k requires 0 <= k < |readings| / 3 => Average(Total(readings[3 * k..3 * k + 3])))
  }

  // An average that moved by at most the limit; the first one is compared with 0.
  predicate Calm(averages: seq<int>, k: nat)
    requires k < |averages|
  {
    var previous := if k == 0 then 0 else averages[k - 1];
    -LIMIT_SPEED <= previous - averages[k] <= LIMIT_SPEED
  }

  function Last(averages: seq<int>): int
  {
    if averages == [] then 0 else averages[|averages| - 1]
  }

  // The number of calm averages at the end.
  function CalmRun(averages: seq<int>): (n: nat)
    ensures n <= |averages|
    ensures forall k :: |averages| - n <= k < |averages| ==> Calm(averages, k)
    ensures n < |averages| ==> !Calm(averages, |averages| - n - 1)
  {
    if averages == [] then 0
    else
      var m := |averages| - 1;
      var before := averages[..m];
      assert forall k :: 0 <= k < m ==> Calm(before, k) == Calm(averages, k);
      if Calm(averages, m) then CalmRun(before) + 1 else 0
  }

  // The readings of the group not yet complete.
  function Left(readings: seq<reading>): (r: seq<reading>)
    ensures |r| == |readings| % 3
  {
    readings[|readings| / 3 * 3..]
  }

  // What the channel holds after these averages and these readings of an open group.
  predicate Holds(c: Channel, averages: seq<int>, left: seq<reading>)
  {
    && c.tempCount == |left| < AVG_WINDOW && c.tempData == Total(left)
    && c.lastData == Last(averages) == c.currentData
    && (c.stable <==> CalmRun(averages) > STABLE_WINDOW)
    && c.count == if CalmRun(averages) > STABLE_WINDOW then STABLE_WINDOW + 1 else CalmRun(averages)
  }

  predicate Reflects(c: Channel, readings: seq<reading>)
  {
    Holds(c, Averages(readings), Left(readings))
  }

  // A reading that completes no group leaves the averages as they are.
  lemma AveragesSame(readings: seq<reading>, x: reading)
    requires |Left(readings)| != 2
    ensures Averages(readings + [x]) == Averages(readings)
    ensures Left(readings + [x]) == Left(readings) + [x]
  {
    var a, b := Averages(readings + [x]), Averages(readings);
    assert |a| == |b|;
    forall k | 0 <= k < |b| ensures a[k] == b[k] {
      assert (readings + [x])[3 * k..3 * k + 3] == readings[3 * k..3 * k + 3];
    }
  }

  lemma AveragesNext(readings: seq<reading>, x: reading)
    requires |Left(readings)| == 2
    ensures Averages(readings + [x]) == Averages(readings) + [Average(Total(Left(readings) + [x]))]
    ensures Left(readings + [x]) == []
  {
    var m := |readings| / 3;
    var a, b := Averages(readings + [x]), Averages(readings);
    assert |a| == m + 1 && |b| == m;
    forall k | 0 <= k < m ensures a[k] == b[k] {
      assert (readings + [x])[3 * k..3 * k + 3] == readings[3 * k..3 * k + 3];
    }
    assert (readings + [x])[3 * m..3 * m + 3] == readings[3 * m..] + [x];
  }

  lemma TotalNext(s: seq<reading>, x: reading)
    ensures Total(s + [x]) == Total(s) + x
  {
    assert (s + [x])[..|s|] == s;
  }

  lemma CalmRunNext(averages: seq<int>, a: int)
    ensures CalmRun(averages + [a]) == if -LIMIT_SPEED <= Last(averages) - a <= LIMIT_SPEED then CalmRun(averages) + 1 else 0
  {
    assert (averages + [a])[..|averages|] == averages;
  }

  lemma SettledHolds(c: Channel, averages: seq<int>, left: seq<reading>, average: int)
    requires Holds(c, averages, left)
    ensures Holds(Settled(c, average), averages + [average], [])
  {
    CalmRunNext(averages, average);
    DistanceWithin(c.lastData, average, LIMIT_SPEED);
  }

  lemma StepReflects(c: Channel, readings: seq<reading>, x: reading)
    requires Reflects(c, readings)
    ensures Reflects(Step(c, x), readings + [x])
  {
    var averages, left := Averages(readings), Left(readings);
    TotalNext(left, x);
    if |left| == 2 {
      AveragesNext(readings, x);
      StepSettles(c, x);
      SettledHolds(c, averages, left, Average(Total(left + [x])));
    } else {
      AveragesSame(readings, x);
      StepGathers(c, averages, left, x);
    }
  }

  lemma StepSettles(c: Channel, x: int)
    requires c.tempCount == 2
    ensures Step(c, x) == Settled(c, Average(c.tempData + x))
  {
  }

  lemma StepGathers(c: Channel, averages: seq<int>, left: seq<reading>, x: reading)
    requires Holds(c, averages, left) && |left| < 2
    ensures Holds(Step(c, x), averages, left + [x])
  {
    TotalNext(left, x);
  }

  lemma NothingReflected()
    ensures Reflects(FRESH, [])
  {
    assert Averages([]) == [] && Left([]) == [];
  }

  lemma FoldNext(c: Channel, readings: seq<reading>, x: reading)
    ensures Fold(c, readings + [x]) == Step(Fold(c, readings), x)
  {
    assert (readings + [x])[..|readings|] == readings;
  }

  lemma {:induction false} FoldReflects(readings: seq<reading>)
    ensures Reflects(Fold(FRESH, readings), readings)
    decreases |readings|
  {
    if readings == [] {
      NothingReflected();
    } else {
      var before, x := readings[..|readings| - 1], readings[|readings| - 1];
      assert before + [x] == readings;
      FoldReflects(before);
      FoldNext(FRESH, before, x);
      StepReflects(Fold(FRESH, before), before, x);
    }
  }

  // For every sequence of readings: stable means that each of the last six averages (at least)
  // differed from its predecessor by at most the limit; the counter never leaves 0 to 6.
  lemma StableExact(readings: seq<reading>)
    ensures Fold(FRESH, readings).stable <==> LastCalm(Averages(readings))
    ensures 0 <= Fold(FRESH, readings).count <= STABLE_WINDOW + 1
  {
    FoldReflects(readings);
    RunIsLong(Averages(readings));
  }

  // At least six averages, and each of the last six calm.
  predicate LastCalm(a: seq<int>)
  {
    |a| > STABLE_WINDOW && forall k :: |a| - STABLE_WINDOW - 1 <= k < |a| ==> Calm(a, k)
  }

  lemma RunIsLong(a: seq<int>)
    ensures CalmRun(a) > STABLE_WINDOW <==> LastCalm(a)
  {
    var n := CalmRun(a);
    if n <= STABLE_WINDOW < |a| {
      assert !Calm(a, |a| - n - 1);
    }
  }

  // ----- Several channels -----

  datatype Sample = Sample(ch: nat, value: reading)

  function FoldAll(channels: seq<Channel>, samples: seq<Sample>): (r: seq<Channel>)
    requires forall s :: s in samples ==> s.ch < |channels|
    ensures |r| == |channels|
    decreases |samples|
  {
    if samples == [] then channels
    else
      var last := samples[|samples| - 1];
      var before := FoldAll(channels, samples[..|samples| - 1]);
      before[last.ch := Step(before[last.ch], last.value)]
  }

  function Own(samples: seq<Sample>, ch: nat): seq<reading>
    decreases |samples|
  {
    if samples == [] then []
    else
      var last := samples[|samples| - 1];
      Own(samples[..|samples| - 1], ch) + if last.ch == ch then [last.value] else []
  }

  // However the channels' readings interleave, each channel follows its own alone.
  lemma {:induction false} ChannelsIndependent(channels: seq<Channel>, samples: seq<Sample>, ch: nat)
    requires ch < |channels| && forall s :: s in samples ==> s.ch < |channels|
    ensures FoldAll(channels, samples)[ch] == Fold(channels[ch], Own(samples, ch))
    decreases |samples|
  {
    if samples != [] {
      var last := samples[|samples| - 1];
      assert last in samples;
      ChannelsIndependent(channels, samples[..|samples| - 1], ch);
      var own := Own(samples[..|samples| - 1], ch);
      if last.ch == ch {
        assert (own + [last.value])[..|own|] == own;
      } else {
        assert own + [] == own;
      }
    }
  }

  // ----- The array of channels -----

  // Bounds under which nothing overflows.
  predicate Bounded(c: Channel)
  {
    0 <= c.tempCount < AVG_WINDOW && 0 <= c.count <= STABLE_WINDOW + 1 && (!c.stable ==> c.count <= STABLE_WINDOW)
    && Distance(c.tempData, 0) <= c.tempCount * 0x1_0000
    && Distance(c.lastData, 0) <= 0x1_0000 && Distance(c.currentData, 0) <= 0x1_0000
  }

  lemma StepBounded(c: Channel, x: reading)
    requires Bounded(c)
    ensures Bounded(Step(c, x)) && Distance(c.tempData + x, 0) <= 3 * 0x1_0000
  {
  }

  class SensorArray {
    const tempData: array<int32>
    const tempCount: array<int8>
    const currentData: array<int32>
    const lastData: array<int32>
    const count: array<int8>
    const stable: array<bool>

    ghost predicate Apart()
    {
      tempData != currentData && tempData != lastData && currentData != lastData && tempCount != count
    }

    ghost predicate Sized(n: nat)
    {
      && tempData.Length == n && tempCount.Length == n && currentData.Length == n
      && lastData.Length == n && count.Length == n && stable.Length == n
    }

    function View(ch: nat): Channel
      requires Sized(stable.Length) && ch < stable.Length
      reads tempData, tempCount, currentData, lastData, count, stable
    {
      Channel(tempData[ch], tempCount[ch], currentData[ch], lastData[ch], count[ch], stable[ch])
    }

    constructor (n: nat)
      ensures Apart() && Sized(n) && forall ch :: 0 <= ch < n ==> View(ch) == FRESH
      ensures fresh(tempData) && fresh(tempCount) && fresh(currentData) && fresh(lastData) && fresh(count) && fresh(stable)
    {
      tempData := new int32[n](_ => 0);
      currentData := new int32[n](_ => 0);
      lastData := new int32[n](_ => 0);
      tempCount := new int8[n](_ => 0);
      count := new int8[n](_ => 0);
      stable := new bool[n](_ => false);
    }

    // One reading of one channel; the other channels keep theirs.
    method Update(ch: nat, value: reading)
      requires Apart() && Sized(stable.Length) && ch < stable.Length && Bounded(View(ch))
      modifies tempData, tempCount, currentData, lastData, count, stable
      ensures View(ch) == Step(old(View(ch)), value) && Bounded(View(ch))
      ensures forall i :: 0 <= i < stable.Length && i != ch ==> View(i) == old(View(i))
    {
      StepBounded(View(ch), value);
      tempData[ch] := tempData[ch] + value;
      tempCount[ch] := tempCount[ch] + 1;
      if tempCount[ch] >= AVG_WINDOW {
        currentData[ch] := Average(tempData[ch]);
        tempCount[ch] := 0;
        tempData[ch] := 0;
        Judge(ch);
        lastData[ch] := currentData[ch];
      }
    }

    method Judge(ch: nat)
      requires Apart() && Sized(stable.Length) && ch < stable.Length && 0 <= count[ch] <= STABLE_WINDOW + 1
      modifies count, stable
      ensures var moved := !(-LIMIT_SPEED <= lastData[ch] - currentData[ch] <= LIMIT_SPEED);
              count[ch] == (if moved then 0 else if old(stable[ch]) then old(count[ch]) else old(count[ch]) + 1) &&
              stable[ch] == (!moved && (old(stable[ch]) || old(count[ch]) + 1 > STABLE_WINDOW))
      ensures forall i :: 0 <= i < stable.Length && i != ch ==> count[i] == old(count[i]) && stable[i] == old(stable[i])
    {
      if stable[ch] {
        if Distance(lastData[ch], currentData[ch]) > LIMIT_SPEED {
          stable[ch] := false;
          count[ch] := 0;
        }
      } else if Distance(lastData[ch], currentData[ch]) > LIMIT_SPEED {
        count[ch] := 0;
      } else {
        count[ch] := count[ch] + 1;
        if count[ch] > STABLE_WINDOW {
          stable[ch] := true;
        }
      }
    }
  }
}
