/** Three statistical tests on a bit sequence from section 4.11.1 of FIPS
    PUB 140-1, as this program implements them: the monobit test, the long
    run test and the runs test. The sequence is a vector of `int`; the tests
    classify its elements themselves (the monobit test counts the value 1,
    the long run test separates 0 from every other value, the runs test
    cuts the sequence where the value changes and files a run under "zeros"
    when its value is 0 and under "ones" otherwise). */
module RngTests {

  // ---------------------------------------------------------------------
  // monobitTest
  // ---------------------------------------------------------------------

  const MonobitLower := 9654
  const MonobitUpper := 10346

  /** The number of elements equal to 1. */
  function CountOnes(s: seq<int>): nat
    decreases |s|
  {
    if s == [] then 0 else CountOnes(s[..|s| - 1]) + (if s[|s| - 1] == 1 then 1 else 0)
  }

  /** The number of elements other than 1 (what the test calls zeros). */
  function CountZeros(s: seq<int>): nat
    decreases |s|
  {
    if s == [] then 0 else CountZeros(s[..|s| - 1]) + (if s[|s| - 1] == 1 then 0 else 1)
  }

  /** Every element is counted exactly once. */
  lemma {:induction false} CountsPartition(s: seq<int>)
    ensures CountOnes(s) + CountZeros(s) == |s|
    decreases |s|
  {
    if s != [] {
      CountsPartition(s[..|s| - 1]);
    }
  }

  predicate MonobitPasses(s: seq<int>) {
    MonobitLower <= CountOnes(s) <= MonobitUpper && MonobitLower <= CountZeros(s) <= MonobitUpper
  }

  /** `monobitTest`: counts ones and zeros in one pass and accepts when both
      counts lie in the inclusive range [9654, 10346]. */
  method MonobitTest(s: seq<int>) returns (pass: bool)
    ensures pass <==> MonobitPasses(s)
  {
    var ones := 0;
    var zeros := 0;
    var i := 0;
    while i < |s|
      invariant 0 <= i <= |s|
      invariant ones == CountOnes(s[..i]) && zeros == CountZeros(s[..i])
    {
      assert s[..i + 1][..i] == s[..i];
      if s[i] == 1 {
        ones := ones + 1;
      } else {
        zeros := zeros + 1;
      }
      i := i + 1;
    }
    assert s[..i] == s;
    pass := ones >= MonobitLower && ones <= MonobitUpper && zeros >= MonobitLower && zeros <= MonobitUpper;
  }

  /** A sequence that passes has between 2 * 9654 and 2 * 10346 elements;
      shorter or longer sequences always fail. */
  lemma MonobitLength(s: seq<int>)
    ensures MonobitPasses(s) ==> 2 * MonobitLower <= |s| <= 2 * MonobitUpper
  {
    CountsPartition(s);
  }

  // ---------------------------------------------------------------------
  // maxSeriesLengthTest
  // ---------------------------------------------------------------------

  const MaxSeriesLength := 36

  /** The class an element belongs to in the long run test: `zero` for 0,
      `!zero` for every other value. */
  predicate InClass(x: int, zero: bool) {
    (x == 0) == zero
  }

  /** `s[i..i + n]` is a block of `n` elements of the class `zero`. */
  predicate BlockAt(s: seq<int>, i: nat, n: nat, zero: bool) {
    i + n <= |s| && forall k :: i <= k < i + n ==> InClass(s[k], zero)
  }

  /** The length of the run of class `zero` that ends the sequence. */
  function TrailingRun(s: seq<int>, zero: bool): (t: nat)
    ensures t <= |s|
    decreases |s|
  {
    if s == [] || !InClass(s[|s| - 1], zero) then 0 else TrailingRun(s[..|s| - 1], zero) + 1
  }

  /** The length of the longest run of class `zero`. */
  function LongestRun(s: seq<int>, zero: bool): (m: nat)
    ensures TrailingRun(s, zero) <= m <= |s|
    decreases |s|
  {
    if s == [] then 0
    else
      var m := LongestRun(s[..|s| - 1], zero);
      var t := TrailingRun(s, zero);
      if t > m then t else m
  }

  /** The trailing run is a block at the end of the sequence. */
  lemma {:induction false} TrailingRunIsBlock(s: seq<int>, zero: bool)
    ensures BlockAt(s, |s| - TrailingRun(s, zero), TrailingRun(s, zero), zero)
    decreases |s|
  {
    if s != [] && InClass(s[|s| - 1], zero) {
      var p := s[..|s| - 1];
      TrailingRunIsBlock(p, zero);
      var t := TrailingRun(p, zero);
      forall k | |s| - (t + 1) <= k < |s|
        ensures InClass(s[k], zero)
      {
        if k < |s| - 1 {
          assert s[k] == p[k];
        }
      }
    }
  }

  /** A block of length `n` that ends the sequence makes the trailing run at
      least `n` long. */
  lemma {:induction false} BlockAtEnd(s: seq<int>, n: nat, zero: bool)
    requires n <= |s| && BlockAt(s, |s| - n, n, zero)
    ensures TrailingRun(s, zero) >= n
    decreases n
  {
    if n > 0 {
      var p := s[..|s| - 1];
      assert BlockAt(p, |p| - (n - 1), n - 1, zero) by {
        forall k | |p| - (n - 1) <= k < |p|
          ensures InClass(p[k], zero)
        {
          assert p[k] == s[k];
        }
      }
      BlockAtEnd(p, n - 1, zero);
    }
  }

  /** A block inside a prefix is a block of the whole sequence. */
  lemma BlockInPrefix(s: seq<int>, m: nat, i: nat, n: nat, zero: bool)
    requires m <= |s| && BlockAt(s[..m], i, n, zero)
    ensures BlockAt(s, i, n, zero)
  {
    forall k | i <= k < i + n
      ensures InClass(s[k], zero)
    {
      assert s[..m][k] == s[k];
    }
  }

  /** The longest run is at least `n` (for `n >= 1`) exactly when the
      sequence holds a block of `n` elements of the class. */
  lemma {:induction false} LongestRunBlock(s: seq<int>, n: nat, zero: bool)
    requires n >= 1
    ensures LongestRun(s, zero) >= n <==> exists i: nat :: BlockAt(s, i, n, zero)
    decreases |s|
  {
    if s == [] {
      assert forall i: nat :: !BlockAt(s, i, n, zero);
    } else {
      var p := s[..|s| - 1];
      LongestRunBlock(p, n, zero);
      if LongestRun(s, zero) >= n {
        if LongestRun(p, zero) >= n {
          var i: nat :| BlockAt(p, i, n, zero);
          BlockInPrefix(s, |s| - 1, i, n, zero);
        } else {
          var t := TrailingRun(s, zero);
          TrailingRunIsBlock(s, zero);
          assert BlockAt(s, |s| - n, n, zero);
        }
      }
      if exists i: nat :: BlockAt(s, i, n, zero) {
        var i: nat :| BlockAt(s, i, n, zero);
        if i + n < |s| {
          assert BlockAt(p, i, n, zero) by {
            forall k | i <= k < i + n
              ensures InClass(p[k], zero)
            {
              assert p[k] == s[k];
            }
          }
        } else {
          BlockAtEnd(s, n, zero);
        }
      }
    }
  }

  /** `maxSeriesLengthTest`: tracks the current and the longest run of
      zeros and of non-zeros and accepts when neither longest run exceeds
      36. */
  method MaxSeriesLengthTest(s: seq<int>) returns (pass: bool)
    ensures pass <==> LongestRun(s, true) <= MaxSeriesLength && LongestRun(s, false) <= MaxSeriesLength
  {
    var maxZeroSeries := 0;
    var maxOneSeries := 0;
    var currentZeroSeries := 0;
    var currentOneSeries := 0;
    var i := 0;
    while i < |s|
      invariant 0 <= i <= |s|
      invariant currentZeroSeries == TrailingRun(s[..i], true) && currentOneSeries == TrailingRun(s[..i], false)
      invariant maxZeroSeries == LongestRun(s[..i], true) && maxOneSeries == LongestRun(s[..i], false)
      invariant currentZeroSeries <= maxZeroSeries <= i && currentOneSeries <= maxOneSeries <= i
      invariant currentZeroSeries == 0 || currentOneSeries == 0
    {
      assert s[..i + 1][..i] == s[..i];
      if s[i] == 0 {
        currentZeroSeries := currentZeroSeries + 1;
        currentOneSeries := 0;
        if currentZeroSeries > maxZeroSeries {
          maxZeroSeries := currentZeroSeries;
        }
      } else {
        currentOneSeries := currentOneSeries + 1;
        currentZeroSeries := 0;
        if currentOneSeries > maxOneSeries {
          maxOneSeries := currentOneSeries;
        }
      }
      i := i + 1;
    }
    assert s[..i] == s;
    pass := maxZeroSeries <= MaxSeriesLength && maxOneSeries <= MaxSeriesLength;
  }

  /** No block of `n` elements of the class `zero`. */
  ghost predicate NoBlock(s: seq<int>, n: nat, zero: bool) {
    forall i: nat :: !BlockAt(s, i, n, zero)
  }

  /** The long run test passes exactly when there is no block of 37 zeros
      and no block of 37 non-zero elements; in particular the empty
      sequence passes. */
  lemma MaxSeriesPassesIff(s: seq<int>)
    ensures LongestRun(s, true) <= MaxSeriesLength && LongestRun(s, false) <= MaxSeriesLength
      <==> NoBlock(s, MaxSeriesLength + 1, true) && NoBlock(s, MaxSeriesLength + 1, false)
  {
    LongestRunBlock(s, MaxSeriesLength + 1, true);
    LongestRunBlock(s, MaxSeriesLength + 1, false);
  }

  // ---------------------------------------------------------------------
  // seriesLengthTest
  // ---------------------------------------------------------------------

  /** A run length: at least one element. */
  type Length = n: nat | n >= 1 witness 1

  /** A maximal run of equal elements. */
  datatype Run = Run(value: int, len: Length)

  /** The runs of the first `n` elements of `s`, left to right: the prefix
      cut wherever an element differs from the one before it. */
  function Runs(s: seq<int>, n: nat): (rs: seq<Run>)
    requires 1 <= n <= |s|
    ensures |rs| >= 1 && rs[|rs| - 1].value == s[n - 1]
  {
    if n == 1 then [Run(s[0], 1)]
    else
      var rs := Runs(s, n - 1);
      var last := rs[|rs| - 1];
      if s[n - 1] == last.value then rs[..|rs| - 1] + [Run(last.value, last.len + 1)]
      else rs + [Run(s[n - 1], 1)]
  }

  /** The elements the runs stand for, in order. */
  function Flatten(rs: seq<Run>): seq<int>
    decreases |rs|
  {
    if rs == [] then [] else Flatten(rs[..|rs| - 1]) + Repeat(rs[|rs| - 1].value, rs[|rs| - 1].len)
  }

  /** `n` copies of `x`. */
  function Repeat(x: int, n: nat): (r: seq<int>)
    ensures |r| == n
  {
    if n == 0 then [] else Repeat(x, n - 1) + [x]
  }

  /** Neighbouring runs have different values. */
  predicate Separated(rs: seq<Run>) {
    forall k :: 0 < k < |rs| ==> rs[k - 1].value != rs[k].value
  }

  lemma FlattenAppend(rs: seq<Run>, r: Run)
    ensures Flatten(rs + [r]) == Flatten(rs) + Repeat(r.value, r.len)
  {
    assert (rs + [r])[..|rs|] == rs;
  }

  /** Lengthening the last run by one appends its value to the elements. */
  lemma FlattenLonger(rs: seq<Run>)
    requires |rs| > 0
    ensures var last := rs[|rs| - 1];
      Flatten(rs[..|rs| - 1] + [Run(last.value, last.len + 1)]) == Flatten(rs) + [last.value]
  {
    var init, last := rs[..|rs| - 1], rs[|rs| - 1];
    assert Flatten(rs) == Flatten(init) + Repeat(last.value, last.len);
    FlattenAppend(init, Run(last.value, last.len + 1));
    var a, b := Flatten(init), Repeat(last.value, last.len);
    assert Repeat(last.value, last.len + 1) == b + [last.value];
    assert a + (b + [last.value]) == (a + b) + [last.value];
  }

  /** A new run of length 1 appends its value to the elements. */
  lemma FlattenNewRun(rs: seq<Run>, x: int)
    ensures Flatten(rs + [Run(x, 1)]) == Flatten(rs) + [x]
  {
    FlattenAppend(rs, Run(x, 1));
    assert Repeat(x, 1) == [x];
  }

  /** The runs spell out the prefix they are taken from. */
  lemma {:induction false} FlattenRuns(s: seq<int>, n: nat)
    requires 1 <= n <= |s|
    ensures Flatten(Runs(s, n)) == s[..n]
  {
    if n > 1 {
      FlattenRuns(s, n - 1);
      var rs := Runs(s, n - 1);
      var last := rs[|rs| - 1];
      assert s[..n] == s[..n - 1] + [s[n - 1]];
      if s[n - 1] == last.value {
        FlattenLonger(rs);
      } else {
        FlattenNewRun(rs, s[n - 1]);
      }
    }
  }

  /** Neighbouring runs differ, so the runs are maximal. */
  lemma {:induction false} RunsSeparated(s: seq<int>, n: nat)
    requires 1 <= n <= |s|
    ensures Separated(Runs(s, n))
  {
    if n > 1 {
      RunsSeparated(s, n - 1);
    }
  }

  /** The number of positions `0 < i < n` where `s[i] != s[i - 1]`. */
  function Changes(s: seq<int>, n: nat): nat
    requires n <= |s|
  {
    if n <= 1 then 0 else Changes(s, n - 1) + (if s[n - 1] != s[n - 2] then 1 else 0)
  }

  /** There is one run more than there are changes of value. */
  lemma {:induction false} RunCount(s: seq<int>, n: nat)
    requires 1 <= n <= |s|
    ensures |Runs(s, n)| == 1 + Changes(s, n)
  {
    if n > 1 {
      RunCount(s, n - 1);
    }
  }

  /** The histogram slot of a run: lengths 1 to 5 go to slots 0 to 4 and
      lengths of 6 or more to slot 6. */
  function Slot(len: Length): (k: nat)
    ensures k < 7 && k != 5
  {
    if len >= 6 then 6 else len - 1
  }

  function EmptyHistogram(): seq<int> {
    [0, 0, 0, 0, 0, 0, 0]
  }

  /** The histogram of the lengths of the runs with value 0 (`zero`) or
      with any other value (`!zero`). */
  function Tally(rs: seq<Run>, zero: bool): (t: seq<int>)
    ensures |t| == 7
    decreases |rs|
  {
    if rs == [] then EmptyHistogram()
    else
      var t := Tally(rs[..|rs| - 1], zero);
      var r := rs[|rs| - 1];
      if InClass(r.value, zero) then t[Slot(r.len) := t[Slot(r.len)] + 1] else t
  }

  /** The total of a 7-slot histogram. */
  function Sum(t: seq<int>): int
    requires |t| == 7
  {
    t[0] + t[1] + t[2] + t[3] + t[4] + t[5] + t[6]
  }

  /** Every run is recorded in exactly one histogram. */
  lemma {:induction false} TallyTotal(rs: seq<Run>)
    ensures Sum(Tally(rs, true)) + Sum(Tally(rs, false)) == |rs|
    decreases |rs|
  {
    if rs != [] {
      var init := rs[..|rs| - 1];
      var r := rs[|rs| - 1];
      TallyTotal(init);
      var zeros, ones := Tally(init, true), Tally(init, false);
      if r.value == 0 {
        assert Tally(rs, true) == zeros[Slot(r.len) := zeros[Slot(r.len)] + 1] && Tally(rs, false) == ones;

      } else {
        assert Tally(rs, false) == ones[Slot(r.len) := ones[Slot(r.len)] + 1] && Tally(rs, true) == zeros;

      }
    }
  }

  /** The runs recorded over both histograms number one more than the
      changes of value in the sequence. */
  lemma RunsRecorded(s: seq<int>)
    requires |s| > 0
    ensures Sum(Tally(Runs(s, |s|), true)) + Sum(Tally(Runs(s, |s|), false)) == 1 + Changes(s, |s|)
  {
    RunCount(s, |s|);
    TallyTotal(Runs(s, |s|));
  }

  /** Slot 5 of either histogram stays 0. */
  lemma {:induction false} SlotFiveEmpty(rs: seq<Run>, zero: bool)
    ensures Tally(rs, zero)[5] == 0
    decreases |rs|
  {
    if rs == [] {
      assert EmptyHistogram()[5] == 0;
    } else {
      var init := rs[..|rs| - 1];
      var r := rs[|rs| - 1];
      SlotFiveEmpty(init, zero);
      var t := Tally(init, zero);
      assert Tally(rs, zero) == if InClass(r.value, zero) then t[Slot(r.len) := t[Slot(r.len)] + 1] else t;
    }
  }

  const OnesLowerBound := [2267, 1079, 502, 223, 90, 90, 90]
  const OnesUpperBound := [2733, 1421, 748, 402, 223, 223, 223]
  const ZerosLowerBound := [2267, 1079, 502, 223, 90, 90, 90]
  const ZerosUpperBound := [2733, 1421, 748, 402, 223, 223, 223]

  /** Every slot of both histograms lies within its bounds. */
  predicate WithinBounds(ones: seq<int>, zeros: seq<int>)
    requires |ones| == 7 && |zeros| == 7
  {
    forall i :: 0 <= i < 7 ==>
      OnesLowerBound[i] <= ones[i] <= OnesUpperBound[i] && ZerosLowerBound[i] <= zeros[i] <= ZerosUpperBound[i]
  }

  /** No sequence passes the runs test as written: slot 5 is never
      incremented, and its lower bound is 90. */
  lemma SeriesLengthNeverPasses(s: seq<int>)
    requires |s| > 0
    ensures !WithinBounds(Tally(Runs(s, |s|), false), Tally(Runs(s, |s|), true))
  {
    var rs := Runs(s, |s|);
    NeverInBounds(rs);
  }

  lemma NeverInBounds(rs: seq<Run>)
    ensures !WithinBounds(Tally(rs, false), Tally(rs, true))
  {
    SlotFiveEmpty(rs, false);
    SlotFiveBelowBound(Tally(rs, false), Tally(rs, true));
  }

  lemma SlotFiveBelowBound(ones: seq<int>, zeros: seq<int>)
    requires |ones| == 7 && |zeros| == 7 && ones[5] == 0
    ensures !WithinBounds(ones, zeros)
  {
    assert OnesLowerBound[5] > ones[5];
  }

  /** Records a finished run in the histogram of its class: after the
      histograms of the runs `closed` come those of `closed` and the run. */
  method RecordRun(onesCounts: array<int>, zerosCounts: array<int>, ghost closed: seq<Run>, value: int, len: Length)
    requires onesCounts.Length == 7 && zerosCounts.Length == 7 && onesCounts != zerosCounts
    requires onesCounts[..] == Tally(closed, false) && zerosCounts[..] == Tally(closed, true)
    modifies onesCounts, zerosCounts
    ensures onesCounts[..] == Tally(closed + [Run(value, len)], false)
    ensures zerosCounts[..] == Tally(closed + [Run(value, len)], true)
  {
    var rs := closed + [Run(value, len)];
    assert rs[..|rs| - 1] == closed;
    if value == 0 {
      if len >= 6 {
        zerosCounts[6] := zerosCounts[6] + 1;
      } else {
        zerosCounts[len - 1] := zerosCounts[len - 1] + 1;
      }
    } else {
      if len >= 6 {
        onesCounts[6] := onesCounts[6] + 1;
      } else {
        onesCounts[len - 1] := onesCounts[len - 1] + 1;
      }
    }
  }

  /** How the runs grow by one element: the last run gets longer when the
      element repeats its value, otherwise a new run of length 1 starts. */
  lemma RunsGrow(s: seq<int>, i: nat, closed: seq<Run>, current: Run)
    requires 1 <= i < |s| && Runs(s, i) == closed + [current]
    ensures s[i] == current.value ==> Runs(s, i + 1) == closed + [Run(current.value, current.len + 1)]
    ensures s[i] != current.value ==> Runs(s, i + 1) == (closed + [current]) + [Run(s[i], 1)]
  {
    var rs := closed + [current];
    assert rs[|rs| - 1] == current;
    assert rs[..|rs| - 1] == closed;
  }

  /** `seriesLengthTest`: files every run of the sequence in the 7-slot
      histogram of its class, then accepts when every slot lies within its
      bounds. */
  method SeriesLengthTest(s: seq<int>) returns (pass: bool)
    requires |s| > 0
    ensures pass <==> WithinBounds(Tally(Runs(s, |s|), false), Tally(Runs(s, |s|), true))
  {
    var onesCounts, zerosCounts := TallyRuns(s);
    pass := CheckBounds(onesCounts, zerosCounts);
  }

  /** The counting loop of `seriesLengthTest`: walks the sequence keeping the
      current run, files each finished run when the value changes, and files
      the last run after the loop. */
  method TallyRuns(s: seq<int>) returns (onesCounts: array<int>, zerosCounts: array<int>)
    requires |s| > 0
    ensures onesCounts.Length == 7 && zerosCounts.Length == 7
    ensures onesCounts[..] == Tally(Runs(s, |s|), false) && zerosCounts[..] == Tally(Runs(s, |s|), true)
  {
    onesCounts := new int[] [0, 0, 0, 0, 0, 0, 0];
    zerosCounts := new int[] [0, 0, 0, 0, 0, 0, 0];
    var currentCount: Length := 1;
    var currentBit := s[0];
    ghost var closed: seq<Run> := [];
    var i := 1;
    while i < |s|
      invariant 1 <= i <= |s|
      invariant Runs(s, i) == closed + [Run(currentBit, currentCount)]
      invariant onesCounts[..] == Tally(closed, false) && zerosCounts[..] == Tally(closed, true)
    {
      RunsGrow(s, i, closed, Run(currentBit, currentCount));
      if s[i] == currentBit {
        currentCount := currentCount + 1;
      } else {
        RecordRun(onesCounts, zerosCounts, closed, currentBit, currentCount);
        closed := closed + [Run(currentBit, currentCount)];
        currentCount := 1;
        currentBit := s[i];
      }
      i := i + 1;
    }
    RecordRun(onesCounts, zerosCounts, closed, currentBit, currentCount);
  }

  /** The final loop of `seriesLengthTest`: rejects at the first slot of
      either histogram outside its bounds. */
  method CheckBounds(onesCounts: array<int>, zerosCounts: array<int>) returns (pass: bool)
    requires onesCounts.Length == 7 && zerosCounts.Length == 7
    ensures pass <==> WithinBounds(onesCounts[..], zerosCounts[..])
  {
    var onesLower := OnesLowerBound;
    var onesUpper := OnesUpperBound;
    var zerosLower := ZerosLowerBound;
    var zerosUpper := ZerosUpperBound;
    var i := 0;
    while i < 7
      invariant 0 <= i <= 7
      invariant forall j :: 0 <= j < i ==>
        onesLower[j] <= onesCounts[j] <= onesUpper[j] && zerosLower[j] <= zerosCounts[j] <= zerosUpper[j]
    {
      if onesCounts[i] < onesLower[i] || onesCounts[i] > onesUpper[i]
        || zerosCounts[i] < zerosLower[i] || zerosCounts[i] > zerosUpper[i]
      {
        return false;
      }
      i := i + 1;
    }
    return true;
  }
}
