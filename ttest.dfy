/**
 * The t-test reducer: per qualifying window, the moments of each set's in-play replicates
 * and Welch's statistic, up to (not including) the square root and the Student-t tail.
 * Doubles are idealised as exact reals.
 */
module TTest {
  import opened Windows

  /** Sum of the values of the in-play replicates. */
  function InPlaySum(inplay: seq<bool>, values: seq<real>): real
    requires |inplay| == |values|
  {
    if |inplay| == 0 then 0.0
    else
      var n := |inplay| - 1;
      InPlaySum(inplay[..n], values[..n]) + (if inplay[n] then values[n] else 0.0)
  }

  /** Sum of the squared values of the in-play replicates. */
  function InPlaySumSq(inplay: seq<bool>, values: seq<real>): real
    requires |inplay| == |values|
  {
    if |inplay| == 0 then 0.0
    else
      var n := |inplay| - 1;
      InPlaySumSq(inplay[..n], values[..n]) + (if inplay[n] then values[n] * values[n] else 0.0)
  }

  /** mean = sum / count, over the set's full replicate count. */
  function Mean(g: Group): real
    requires Consistent(g) && |g.inplay| > 0
  {
    InPlaySum(g.inplay, g.values) / |g.inplay| as real
  }

  /** var = sumSq / count - mean^2, over the set's full replicate count. */
  function Variance(g: Group): real
    requires Consistent(g) && |g.inplay| > 0
  {
    InPlaySumSq(g.inplay, g.values) / |g.inplay| as real - Mean(g) * Mean(g)
  }

  /** Welch's statistic before the square root: t = numerator / sqrt(radicand). */
  datatype TStat = TStat(numerator: real, radicand: real)

  function Welch(a: Group, b: Group): TStat
    requires Consistent(a) && |a.inplay| > 0 && Consistent(b) && |b.inplay| > 0
  {
    TStat(Abs(Mean(a) - Mean(b)),
          Variance(a) / |a.inplay| as real + Variance(b) / |b.inplay| as real)
  }

  /** Both sets usable (lines 65, 101) and the variances not both zero (line 115). */
  predicate TTestQualifies(w: Window)
  {
    BothInPlay(w) && |w.groups| >= 2 &&
    Consistent(w.groups[0]) && |w.groups[0].inplay| > 0 &&
    Consistent(w.groups[1]) && |w.groups[1].inplay| > 0 &&
    Variance(w.groups[0]) + Variance(w.groups[1]) != 0.0
  }

  function WindowStat(w: Window): TStat
    requires TTestQualifies(w)
  {
    Welch(w.groups[0], w.groups[1])
  }

  /** The window a pull of the t-test reducer publishes, starting from window `from`. */
  function NextTTest(ws: seq<Window>, from: nat): nat
    requires from <= |ws|
  {
    FirstFrom(ws, from, TTestQualifies)
  }

  // ---------------------------------------------------------------------------
  // What the sums take in

  /** A replicate that is not in play does not contribute, whatever its value. */
  lemma {:induction false} SumsIgnoreOutOfPlay(inplay: seq<bool>, values: seq<real>, i: nat, x: real)
    requires |inplay| == |values| && i < |inplay| && !inplay[i]
    ensures InPlaySum(inplay, values[i := x]) == InPlaySum(inplay, values)
    ensures InPlaySumSq(inplay, values[i := x]) == InPlaySumSq(inplay, values)
  {
    var n := |inplay| - 1;
    if i < n {
      assert values[i := x][..n] == values[..n][i := x];
      SumsIgnoreOutOfPlay(inplay[..n], values[..n], i, x);
    } else {
      assert values[i := x][..n] == values[..n];
    }
  }

  /** An in-play replicate contributes its value: raising it by d raises the sum by d. */
  lemma {:induction false} SumCountsInPlay(inplay: seq<bool>, values: seq<real>, i: nat, d: real)
    requires |inplay| == |values| && i < |inplay| && inplay[i]
    ensures InPlaySum(inplay, values[i := values[i] + d]) == InPlaySum(inplay, values) + d
  {
    var n := |inplay| - 1;
    if i < n {
      assert values[i := values[i] + d][..n] == values[..n][i := values[..n][i] + d];
      SumCountsInPlay(inplay[..n], values[..n], i, d);
    } else {
      assert values[i := values[i] + d][..n] == values[..n];
    }
  }

  // ---------------------------------------------------------------------------
  // The variance is never negative, so a non-degenerate window has a positive radicand

  lemma {:induction false} SumSqNonNegative(inplay: seq<bool>, values: seq<real>)
    requires |inplay| == |values|
    ensures InPlaySumSq(inplay, values) >= 0.0
  {
    if |inplay| > 0 {
      var n := |inplay| - 1;
      SumSqNonNegative(inplay[..n], values[..n]);
    }
  }

  /** The induction step of Cauchy-Schwarz, on plain reals. */
  lemma SquareBoundStep(s: real, q: real, x: real, m: real)
    requires m >= 0.0 && q >= 0.0 && s * s <= m * q
    ensures (s + x) * (s + x) <= (m + 1.0) * (q + x * x)
  {
    var d := s - m * x;
    assert d * d >= 0.0;
    var r := q + m * x * x - 2.0 * s * x;
    if m == 0.0 {
      if s > 0.0 {
        assert s * s > 0.0;
      } else if s < 0.0 {
        assert (-s) * (-s) > 0.0;
      }
      assert r == q;
    } else {
      assert m * r == m * q + m * m * x * x - 2.0 * m * s * x;
      assert d * d == s * s + m * m * x * x - 2.0 * m * s * x;
      assert m * r >= d * d;
      assert r >= 0.0;
    }
    assert (m + 1.0) * (q + x * x) - (s + x) * (s + x) == (m * q - s * s) + r;
  }

  /** Cauchy-Schwarz over the replicates: sum^2 <= count * sumSq. */
  lemma {:induction false} SumSquaredBound(inplay: seq<bool>, values: seq<real>)
    requires |inplay| == |values|
    ensures InPlaySum(inplay, values) * InPlaySum(inplay, values)
            <= |inplay| as real * InPlaySumSq(inplay, values)
  {
    if |inplay| > 0 {
      var n := |inplay| - 1;
      SumSquaredBound(inplay[..n], values[..n]);
      SumSqNonNegative(inplay[..n], values[..n]);
      var x := if inplay[n] then values[n] else 0.0;
      SquareBoundStep(InPlaySum(inplay[..n], values[..n]), InPlaySumSq(inplay[..n], values[..n]), x, n as real);
    }
  }

  /** q / n - (s / n)^2 >= 0 when s^2 <= n q. */
  lemma MomentBound(s: real, q: real, n: real)
    requires n > 0.0 && s * s <= n * q
    ensures q / n - (s / n) * (s / n) >= 0.0
  {
    var a := s / n;
    assert s == a * n;
    assert n * q >= n * (n * (a * a));
    assert q >= n * (a * a);
    assert q / n >= a * a;
  }

  lemma VarianceNonNegative(g: Group)
    requires Consistent(g) && |g.inplay| > 0
    ensures Variance(g) >= 0.0
  {
    SumSquaredBound(g.inplay, g.values);
    MomentBound(InPlaySum(g.inplay, g.values), InPlaySumSq(g.inplay, g.values), |g.inplay| as real);
  }

  /** A published statistic is well defined: t = numerator / sqrt(radicand) >= 0. */
  lemma WelchDefined(w: Window)
    requires TTestQualifies(w)
    ensures WindowStat(w).numerator >= 0.0
    ensures WindowStat(w).radicand > 0.0
  {
    var a, b := w.groups[0], w.groups[1];
    VarianceNonNegative(a);
    VarianceNonNegative(b);
    var na, nb := |a.inplay| as real, |b.inplay| as real;
    assert Variance(a) / na >= 0.0 && Variance(b) / nb >= 0.0;
    assert Variance(a) > 0.0 || Variance(b) > 0.0;
    if Variance(a) > 0.0 {
      assert Variance(a) / na > 0.0;
    } else {
      assert Variance(b) / nb > 0.0;
    }
  }

  /**
   * Mean and variance divide by the full replicate count: a replicate out of play weighs
   * in as a zero.  One replicate at 2 and one out of play give mean 1 and variance 1, not 2 and 0.
   */
  lemma OutOfPlayCountsAsZero(x: real)
    ensures Mean(Group([true, false], [2.0, x])) == 1.0
    ensures Variance(Group([true, false], [2.0, x])) == 1.0
  {
    var g := Group([true, false], [2.0, x]);
    assert g.inplay[..1] == [true] && g.values[..1] == [2.0];
    assert [true][..0] == [] && [2.0][..0] == [];
    assert InPlaySum(g.inplay, g.values) == 2.0;
    assert InPlaySumSq(g.inplay, g.values) == 4.0;
  }

  /** The statistic does not depend on which set is called the first. */
  lemma WelchSymmetric(a: Group, b: Group)
    requires Consistent(a) && |a.inplay| > 0 && Consistent(b) && |b.inplay| > 0
    ensures Welch(a, b) == Welch(b, a)
  {
  }

  /** Qualifying does not depend on the order of the two sets either. */
  lemma QualifiesSymmetric(w: Window)
    requires |w.inplay| == 2 && |w.groups| == 2
    ensures TTestQualifies(w)
        <==> TTestQualifies(w.(inplay := [w.inplay[1], w.inplay[0]], groups := [w.groups[1], w.groups[0]]))
  {
  }

  lemma {:induction false} ConstantSums(inplay: seq<bool>, values: seq<real>, c: real)
    requires |inplay| == |values|
    requires forall i :: 0 <= i < |inplay| ==> inplay[i] && values[i] == c
    ensures InPlaySum(inplay, values) == |inplay| as real * c
    ensures InPlaySumSq(inplay, values) == |inplay| as real * (c * c)
  {
    if |inplay| > 0 {
      var n := |inplay| - 1;
      ConstantSums(inplay[..n], values[..n], c);
    }
  }

  /** Two sets holding one and the same value in every replicate publish nothing. */
  lemma IdenticalConstantSkipped(w: Window, c: real)
    requires |w.inplay| == 2 && |w.groups| == 2
    requires forall k :: 0 <= k < 2 ==>
      Consistent(w.groups[k]) && |w.groups[k].inplay| > 0 &&
      forall i :: 0 <= i < |w.groups[k].inplay| ==> w.groups[k].inplay[i] && w.groups[k].values[i] == c
    ensures !TTestQualifies(w)
  {
    forall k | 0 <= k < 2
      ensures Variance(w.groups[k]) == 0.0
    {
      var g := w.groups[k];
      ConstantSums(g.inplay, g.values, c);
      var n := |g.inplay| as real;
      assert Mean(g) == c;
      assert InPlaySumSq(g.inplay, g.values) / n == c * c;
    }
  }

  /**
   * The skip needs every replicate in play: with one replicate of the first set out of play,
   * the same in-play value 2 in both sets still gives var1 = 1, so the window publishes
   * |1 - 2| / sqrt(1/2 + 0/2).
   */
  lemma OutOfPlayBreaksConstantSkip(x: real)
    ensures var w := Window("c", 0, 1, [true, true], [Group([true, false], [2.0, x]), Group([true, true], [2.0, 2.0])]);
      TTestQualifies(w) && WindowStat(w) == TStat(1.0, 0.5)
  {
    OutOfPlayCountsAsZero(x);
    var g := Group([true, true], [2.0, 2.0]);
    ConstantSums(g.inplay, g.values, 2.0);
    assert Mean(g) == 2.0;
    assert Variance(g) == 0.0;
  }

  /** The window a pull publishes is found by first skipping to both sets in play. */
  lemma NextTTestAfterSkip(ws: seq<Window>, from: nat)
    requires from <= |ws|
    ensures var k := NextBothInPlay(ws, from);
      NextTTest(ws, from) == NextTTest(ws, k) &&
      (k < |ws| && !TTestQualifies(ws[k]) ==> NextTTest(ws, from) == NextTTest(ws, k + 1))
  {
    FirstFromRefines(ws, from, BothInPlay, TTestQualifies);
  }

  // ---------------------------------------------------------------------------
  // The reducer

  /**
   * The coordinates a run of pulls over windows [from, hi) leaves behind when none of them
   * yields a value: Pop2 publishes the coordinates of each window where both sets are in
   * play before it finds the variances zero, so they are those of the last such window, or
   * the coordinates held before (`prior`) when there is none.
   */
  function LeftCoords(ws: seq<Window>, from: nat, hi: nat, prior: (string, int, int)): (string, int, int)
    requires from <= hi <= |ws|
  {
    var k := LastIn(ws, from, hi, BothInPlay);
    if k < 0 then prior else Coords(ws[k])
  }

  /** One attempt of Pop2 from window `before` moves the coordinates left behind as it should. */
  lemma LeftCoordsStep(ws: seq<Window>, from: nat, before: nat, prior: (string, int, int))
    requires from <= before <= |ws|
    ensures var k := NextBothInPlay(ws, before);
      (k < |ws| ==> LeftCoords(ws, from, k + 1, prior) == Coords(ws[k])) &&
      (k == |ws| ==> LeftCoords(ws, from, |ws|, prior) == LeftCoords(ws, from, before, prior))
  {
    var k := NextBothInPlay(ws, before);
    if k == |ws| {
      LastInSkip(ws, from, before, |ws|, BothInPlay);
    }
  }

  /** Sum and sum of squares over the in-play replicates of one set (lines 86-98). */
  method Accumulate(g: Group) returns (sum: real, sumSq: real)
    requires Consistent(g)
    ensures sum == InPlaySum(g.inplay, g.values)
    ensures sumSq == InPlaySumSq(g.inplay, g.values)
  {
    sum, sumSq := 0.0, 0.0;
    for index := 0 to |g.inplay|
      invariant sum == InPlaySum(g.inplay[..index], g.values[..index])
      invariant sumSq == InPlaySumSq(g.inplay[..index], g.values[..index])
    {
      assert g.inplay[..index + 1][..index] == g.inplay[..index];
      assert g.values[..index + 1][..index] == g.values[..index];
      if g.inplay[index] {
        sum := sum + g.values[index];
        sumSq := sumSq + g.values[index] * g.values[index];
      }
    }
    assert g.inplay[..|g.inplay|] == g.inplay && g.values[..|g.values|] == g.values;
  }

  /** Mean and variance of one set over its full replicate count (lines 107-112). */
  method Moments(g: Group) returns (mean: real, variance: real)
    requires Consistent(g) && |g.inplay| > 0
    ensures mean == Mean(g) && variance == Variance(g)
    ensures variance >= 0.0
  {
    var count := |g.inplay|;
    var sum, sumSq := Accumulate(g);
    mean := sum / count as real;
    var meanSq := sumSq / count as real;
    variance := meanSq - mean * mean;
    VarianceNonNegative(g);
  }

  /** The t-test output iterator: the published window and value, and the synchroniser. */
  class TTestReducer {
    const multi: Multiset
    var done: bool
    var chrom: string
    var start: int
    var finish: int
    var value: TStat

    ghost predicate Valid()
      reads this, multi
    {
      multi.Valid() && |multi.counts| == 2 && multi.counts[0] + multi.counts[1] >= 3
    }

    /** The coordinates currently published. */
    function Published(): (string, int, int)
      reads this
    {
      (chrom, start, finish)
    }

    ghost predicate AtWindow(w: Window)
      reads this
    {
      Published() == Coords(w)
    }

    /** The state after a pull whose answer is window k (|ws| meaning: none, the stream is done). */
    ghost predicate Reports(k: nat)
      reads this, multi
    {
      if k >= |multi.windows| then done && multi.cursor == |multi.windows|
      else
        !done && multi.cursor == k + 1 && AtWindow(multi.windows[k]) &&
        TTestQualifies(multi.windows[k]) && value == WindowStat(multi.windows[k])
    }

    constructor (m: Multiset)
      requires m.Valid() && |m.counts| == 2 && m.counts[0] + m.counts[1] >= 3
      ensures Valid() && multi == m && !done
    {
      multi := m;
      done := false;
      chrom, start, finish := [], 0, 0;
      value := TStat(0.0, 0.0);
    }

    /** TTestReductionPop2: one attempt; false when the window found had zero variance. */
    method Pop2() returns (produced: bool)
      requires Valid()
      modifies this, multi
      ensures Valid()
      ensures old(done) ==> produced && unchanged(this) && unchanged(multi)
      ensures !old(done) ==>
        var ws, k := multi.windows, NextBothInPlay(multi.windows, old(multi.cursor));
        old(multi.cursor) <= multi.cursor &&
        multi.consumed == old(multi.consumed) + Range(old(multi.cursor), multi.cursor) &&
        (k == |ws| ==>
          produced && done && multi.cursor == |ws| &&
          Published() == old(Published()) && value == old(value)) &&
        (k < |ws| ==>
          !done && multi.cursor == k + 1 && AtWindow(ws[k]) &&
          (produced <==> TTestQualifies(ws[k])) &&
          (produced ==> value == WindowStat(ws[k])) &&
          (!produced ==> value == old(value)))
    {
      if done {
        return true;
      }
      ghost var from := multi.cursor;
      var found := SkipToBothInPlay(multi);
      if !found {
        done := true;
        return true;
      }
      var w := multi.Current();
      assert WellFormed(w, multi.counts);
      chrom, start, finish := w.chrom, w.start, w.finish;

      var count1, count2 := multi.counts[0], multi.counts[1];
      // A set flagged in play has an in-play replicate, so neither count is zero and the
      // guard of lines 101-105 never fires.
      assert true in w.groups[0].inplay && true in w.groups[1].inplay;
      assert count1 > 0 && count2 > 0;
      var mean1, var1 := Moments(w.groups[0]);
      var mean2, var2 := Moments(w.groups[1]);

      if var1 + var2 == 0.0 {
        RangeExtend(from, multi.cursor);
        multi.Pop();
        return false;
      }

      var t := mean1 - mean2;
      if t < 0.0 {
        t := -t;
      }
      value := TStat(t, var1 / count1 as real + var2 / count2 as real);
      RangeExtend(from, multi.cursor);
      multi.Pop();
      return true;
    }

    /** TTestReductionPop: retry until a value is published or the stream is done. */
    method Pop()
      requires Valid()
      modifies this, multi
      ensures Valid()
      ensures old(done) ==> unchanged(this) && unchanged(multi)
      ensures !old(done) ==>
        Reports(NextTTest(multi.windows, old(multi.cursor))) &&
        multi.consumed == old(multi.consumed) + Range(old(multi.cursor), multi.cursor)
      ensures !old(done) && done ==>
        value == old(value) &&
        Published() == LeftCoords(multi.windows, old(multi.cursor), |multi.windows|, old(Published()))
    {
      if done {
        return;
      }
      while true
        invariant Valid() && !done
        invariant old(multi.cursor) <= multi.cursor <= |multi.windows|
        invariant NextTTest(multi.windows, multi.cursor) == NextTTest(multi.windows, old(multi.cursor))
        invariant multi.consumed == old(multi.consumed) + Range(old(multi.cursor), multi.cursor)
        invariant value == old(value)
        invariant Published() == LeftCoords(multi.windows, old(multi.cursor), multi.cursor, old(Published()))
        decreases |multi.windows| - multi.cursor
      {
        ghost var before := multi.cursor;
        NextTTestAfterSkip(multi.windows, before);
        var produced := Pop2();
        RangeConcat(old(multi.cursor), before, multi.cursor);
        LeftCoordsStep(multi.windows, old(multi.cursor), before, old(Published()));
        if produced {
          break;
        }
      }
    }

    /** SetComparisonSeek: reposition the synchroniser, then pull once. */
    method Seek(chrom: string, start: int, finish: int)
      requires Valid()
      modifies this, multi
      ensures Valid()
      ensures old(done) ==> unchanged(this) && multi.cursor == SeekIndex(multi.windows, chrom, start)
      ensures !old(done) ==> Reports(NextTTest(multi.windows, SeekIndex(multi.windows, chrom, start)))
      ensures !old(done) && done ==>
        value == old(value) &&
        Published() == LeftCoords(multi.windows, SeekIndex(multi.windows, chrom, start), |multi.windows|, old(Published()))
      ensures old(done) ==> multi.consumed == old(multi.consumed)
      ensures !old(done) ==>
        SeekIndex(multi.windows, chrom, start) <= multi.cursor &&
        multi.consumed == old(multi.consumed) + Range(SeekIndex(multi.windows, chrom, start), multi.cursor)
    {
      multi.Seek(chrom, start, finish);
      Pop();
    }
  }

  /** TTestReduction: refuse anything but two sets with at least three replicates in all. */
  method TTestReduction(multi: Multiset) returns (r: Option<TTestReducer>)
    requires multi.Valid()
    ensures r.None? <==> |multi.counts| != 2 || multi.counts[0] + multi.counts[1] < 3
    ensures r.Some? ==> fresh(r.value) && r.value.Valid() && r.value.multi == multi && !r.value.done
  {
    if |multi.counts| != 2 || multi.counts[0] + multi.counts[1] < 3 {
      return None;
    }
    var reducer := new TTestReducer(multi);
    return Some(reducer);
  }
}
