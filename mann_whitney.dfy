/**
 * The Mann-Whitney U reducer: its construction-time constants, the normal approximation
 * up to (not including) erf and sqrt, and the output iterator that fills, sorts and scans
 * the ranking table for every window where both sets are in play.
 */
module MannWhitney {
  import opened Windows
  import opened RankTable
  import opened RankSumScan

  /** mu_U = n1 * n2 / 2 in C int arithmetic: the quotient is truncated. */
  function MuU(n1: nat, n2: nat): (mu: nat)
    ensures 2 * mu <= n1 * n2 < 2 * mu + 2
  {
    n1 * n2 / 2
  }

  /** The radicand of sigma_U, n1 * n2 * (n1 + n2 + 1) / 12, also truncated by int division. */
  function SigmaURadicand(n1: nat, n2: nat): (r: nat)
    ensures 12 * r <= n1 * n2 * (n1 + n2 + 1) < 12 * r + 12
  {
    n1 * n2 * (n1 + n2 + 1) / 12
  }

  /** With n1 * n2 odd, mu_U is half a unit below n1 * n2 / 2. */
  lemma MuUTruncates(n1: nat, n2: nat)
    requires (n1 * n2) % 2 == 1
    ensures MuU(n1, n2) as real == (n1 * n2) as real / 2.0 - 0.5
  {
  }

  /** For the smallest sets the radicand truncates to 0, so sigma_U is 0. */
  lemma SigmaUVanishes(n1: nat, n2: nat)
    requires 1 <= n1 && 1 <= n2 && n1 + n2 <= 3
    ensures SigmaURadicand(n1, n2) == 0
  {
    assert n1 * n2 * (n1 + n2 + 1) < 12 by {
      if n1 == 1 && n2 == 1 {
      } else if n1 == 1 {
        assert n2 == 2;
      } else {
        assert n1 == 2 && n2 == 1;
      }
    }
  }

  /** The p-value is 2 * erf(numerator / sqrt(radicand)). */
  datatype ErfArgument = ErfArgument(numerator: real, radicand: nat)

  /** Lines 276-279: the erf argument is -|U1 - mu_U| / sigma_U, never positive. */
  function NormalApproximation(u1: real, mu: nat, radicand: nat): (e: ErfArgument)
    ensures e.numerator == -Abs(u1 - mu as real)
    ensures e.numerator <= 0.0
    ensures e.radicand == radicand
  {
    if u1 > mu as real then ErfArgument(mu as real - u1, radicand)
    else ErfArgument(u1 - mu as real, radicand)
  }

  /** The Mann-Whitney output iterator and its preallocated ranking table. */
  class MWUReducer {
    const multi: Multiset
    const n1: nat
    const n2: nat
    const N: nat
    const rankingTable: array<ValueSetPair>
    const normalApproximation: bool
    const muU: nat
    const sigmaURadicand: nat
    var done: bool
    var chrom: string
    var start: int
    var finish: int
    var value: ErfArgument

    ghost predicate Valid()
      reads this, multi
    {
      multi.Valid() && |multi.counts| == 2 &&
      n1 == multi.counts[0] && n2 == multi.counts[1] && n1 > 0 && n2 > 0 &&
      N == n1 + n2 && rankingTable.Length == N &&
      normalApproximation && muU == MuU(n1, n2) && sigmaURadicand == SigmaURadicand(n1, n2)
    }

    ghost predicate AtWindow(w: Window)
      reads this
    {
      (chrom, start, finish) == Coords(w)
    }

    /** The table holds the window's entries in value order, and the value is computed from it. */
    ghost predicate Evaluated(w: Window)
      reads this, rankingTable
      requires |w.groups| == 2 && Consistent(w.groups[0])
      requires Consistent(w.groups[1])
    {
      SortedByValue(rankingTable[..]) &&
      multiset(rankingTable[..]) == multiset(Entries(w.groups[0], w.groups[1])) &&
      value == NormalApproximation(Scan(rankingTable[..], n1).u1, muU, sigmaURadicand)
    }

    /** The state after a pull whose answer is window k (|ws| meaning: none, the stream is done). */
    ghost predicate Reports(k: nat)
      reads this, multi, rankingTable
      requires Valid()
    {
      if k >= |multi.windows| then done && multi.cursor == |multi.windows|
      else
        assert WellFormed(multi.windows[k], multi.counts);
        !done && multi.cursor == k + 1 && AtWindow(multi.windows[k]) && Evaluated(multi.windows[k])
    }

    constructor (m: Multiset)
      requires m.Valid() && |m.counts| == 2 && m.counts[0] > 0 && m.counts[1] > 0
      ensures Valid() && multi == m && !done && fresh(rankingTable)
    {
      multi := m;
      n1 := m.counts[0];
      n2 := m.counts[1];
      N := m.counts[0] + m.counts[1];
      rankingTable := new ValueSetPair[m.counts[0] + m.counts[1]](_ => ValueSetPair(0.0, false));
      normalApproximation := true;
      muU := MuU(m.counts[0], m.counts[1]);
      sigmaURadicand := SigmaURadicand(m.counts[0], m.counts[1]);
      done := false;
      chrom, start, finish := [], 0, 0;
      value := ErfArgument(0.0, 0);
    }

    /**
     * The body of MWUReductionPop2 for one window: publish its coordinates, then fill the
     * table, sort it, scan it and approximate.
     */
    method Publish(w: Window)
      requires Valid() && WellFormed(w, multi.counts)
      modifies `chrom, `start, `finish, `value, rankingTable
      ensures AtWindow(w) && Evaluated(w)
    {
      chrom, start, finish := w.chrom, w.start, w.finish;
      Fill(rankingTable, w.groups[0], w.groups[1]);
      SortByValue(rankingTable);
      var u1, prev := RankScan(rankingTable, n1);

      if normalApproximation {
        if u1 > muU as real {
          value := ErfArgument(muU as real - u1, sigmaURadicand);
        } else {
          value := ErfArgument(u1 - muU as real, sigmaURadicand);
        }
      }
    }

    /** MWUReductionPop2: every window where both sets are in play yields a value. */
    method Pop2() returns (produced: bool)
      requires Valid()
      modifies this, multi, rankingTable
      ensures Valid() && produced
      ensures old(done) ==> unchanged(this) && unchanged(multi) && unchanged(rankingTable)
      ensures !old(done) ==>
        Reports(NextBothInPlay(multi.windows, old(multi.cursor))) &&
        old(multi.cursor) <= multi.cursor &&
        multi.consumed == old(multi.consumed) + Range(old(multi.cursor), multi.cursor)
      ensures !old(done) && done ==>
        chrom == old(chrom) && start == old(start) && finish == old(finish) && value == old(value) &&
        unchanged(rankingTable)
    {
      if done {
        return true;
      }
      ghost var from := multi.cursor;
      var found := SkipToBothInPlay(multi);
      if !found {
        done := true;
        return true;
      }
      var w := multi.Current();
      assert WellFormed(w, multi.counts);
      Publish(w);
      RangeExtend(from, multi.cursor);
      multi.Pop();
      return true;
    }

    /**
     * MWUReductionPop.  Its retry loop ends after one call, because a call that finds a
     * window always yields a value.
     */
    method Pop()
      requires Valid()
      modifies this, multi, rankingTable
      ensures Valid()
      ensures old(done) ==> unchanged(this) && unchanged(multi) && unchanged(rankingTable)
      ensures !old(done) ==>
        Reports(NextBothInPlay(multi.windows, old(multi.cursor))) &&
        old(multi.cursor) <= multi.cursor &&
        multi.consumed == old(multi.consumed) + Range(old(multi.cursor), multi.cursor)
      ensures !old(done) && done ==>
        chrom == old(chrom) && start == old(start) && finish == old(finish) && value == old(value) &&
        unchanged(rankingTable)
    {
      if !done {
        var _ := Pop2();
      }
    }

    /** MWUSeek: reposition the synchroniser, then pull once. */
    method Seek(chrom: string, start: int, finish: int)
      requires Valid()
      modifies this, multi, rankingTable
      ensures Valid()
      ensures old(done) ==> unchanged(this) && unchanged(rankingTable) && multi.cursor == SeekIndex(multi.windows, chrom, start)
      ensures !old(done) ==> Reports(NextBothInPlay(multi.windows, SeekIndex(multi.windows, chrom, start)))
      ensures !old(done) && done ==>
        this.chrom == old(this.chrom) && this.start == old(this.start) && this.finish == old(this.finish) &&
        value == old(value) && unchanged(rankingTable)
      ensures old(done) ==> multi.consumed == old(multi.consumed)
      ensures !old(done) ==>
        SeekIndex(multi.windows, chrom, start) <= multi.cursor &&
        multi.consumed == old(multi.consumed) + Range(SeekIndex(multi.windows, chrom, start), multi.cursor)
    {
      multi.Seek(chrom, start, finish);
      Pop();
    }
  }

  /** MWUReduction: refuse anything but two non-empty sets. */
  method MWUReduction(multi: Multiset) returns (r: Option<MWUReducer>)
    requires multi.Valid()
    ensures r.None? <==> |multi.counts| != 2 || multi.counts[0] == 0 || multi.counts[1] == 0
    ensures r.Some? ==> fresh(r.value) && r.value.Valid() && r.value.multi == multi && !r.value.done
    ensures r.Some? ==> r.value.muU == MuU(multi.counts[0], multi.counts[1])
  {
    if |multi.counts| != 2 || multi.counts[0] == 0 || multi.counts[1] == 0 {
      return None;
    }
    var reducer := new MWUReducer(multi);
    return Some(reducer);
  }

  /**
   * What a published value says when the window's N table values are distinct: the erf
   * argument's numerator is -|U1 - mu_U| with U1 the number of pairs (a, b), a from the first
   * set and b from the second, with b < a.
   */
  lemma DistinctWindowValue(r: MWUReducer, w: Window)
    requires r.Valid() && WellFormed(w, r.multi.counts) && r.Evaluated(w)
    requires forall i, j :: 0 <= i < j < r.rankingTable.Length ==> r.rankingTable[i].value != r.rankingTable[j].value
    ensures var u := CrossBelow(Masked(w.groups[0]), Masked(w.groups[1]));
      r.value == ErfArgument(-Abs(u as real - r.muU as real), r.sigmaURadicand) &&
      u <= r.n1 * r.n2
  {
    DistinctValuesCountPairs(w.groups[0], w.groups[1], r.rankingTable[..]);
  }
}
