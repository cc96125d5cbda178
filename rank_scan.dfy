/**
 * The Mann-Whitney rank scan over the sorted ranking table (lines 241-273): the counters
 * U1, prev, ties and previousTies, one table entry at a time.  U1 is a double in which only
 * integers and halves are ever added, so an exact real models it exactly.
 *
 * The tie correction looks forward only, so the result depends on the order qsort leaves
 * equal values in; the lemmas at the end pin that down on concrete tables.
 */
module RankSumScan {
  import opened Windows
  import opened RankTable

  datatype ScanState = ScanState(u1: real, prev: int, ties: int, previousTies: int)

  const Start := ScanState(0.0, 0, 0, 0)

  /** Line 255's look-ahead: the run of second-set entries of value v starting at position i. */
  function RunB(t: seq<ValueSetPair>, i: nat, v: real): nat
    decreases |t| - i
  {
    if i < |t| && t[i].value == v && t[i].secondSet then 1 + RunB(t, i + 1, v) else 0
  }

  /** Line 264's look-ahead: the second-set entries among the run of value v starting at i. */
  function TiedB(t: seq<ValueSetPair>, i: nat, v: real): nat
    decreases |t| - i
  {
    if i < |t| && t[i].value == v then (if t[i].secondSet then 1 else 0) + TiedB(t, i + 1, v) else 0
  }

  /** One iteration of the scan loop, at table position `index`. */
  function Visit(t: seq<ValueSetPair>, index: nat, s: ScanState): ScanState
    requires index < |t|
  {
    if t[index].secondSet then s
    else
      var v := t[index].value;
      var u := s.u1 + (index - s.prev) as real;
      if s.ties != 0 then
        var pt := s.previousTies + RunB(t, index + 1, v);
        var u' := u - pt as real / 2.0 + (s.ties - pt) as real / 2.0;
        if pt == s.ties then ScanState(u', s.prev + 1, 0, 0)
        else ScanState(u', s.prev + 1, s.ties, pt)
      else
        var ties := TiedB(t, index + 1, v);
        ScanState(if ties != 0 then u + ties as real / 2.0 else u, s.prev + 1, ties, s.previousTies)
  }

  /** The scan from position `index` on, until the table or the first set's entries run out. */
  function ScanFrom(t: seq<ValueSetPair>, n1: int, index: nat, s: ScanState): ScanState
    requires index <= |t|
    decreases |t| - index
  {
    if index < |t| && s.prev < n1 then ScanFrom(t, n1, index + 1, Visit(t, index, s)) else s
  }

  function Scan(t: seq<ValueSetPair>, n1: int): ScanState
  {
    ScanFrom(t, n1, 0, Start)
  }

  /** Lines 242-273 over the sorted table. */
  method RankScan(table: array<ValueSetPair>, n1: int) returns (u1: real, prev: int)
    ensures u1 == Scan(table[..], n1).u1
    ensures prev == Scan(table[..], n1).prev
  {
    ghost var t := table[..];
    u1, prev := 0.0, 0;
    var ties, previousTies := 0, 0;
    var index := 0;
    while index < table.Length && prev < n1
      invariant 0 <= index <= table.Length
      invariant ScanFrom(t, n1, index, ScanState(u1, prev, ties, previousTies)) == Scan(t, n1)
    {
      ghost var before := ScanState(u1, prev, ties, previousTies);
      if !table[index].secondSet {
        u1 := u1 + (index - prev) as real;
        if ties != 0 {
          var index2 := index + 1;
          while index2 < table.Length && table[index2].value == table[index].value && table[index2].secondSet
            invariant index + 1 <= index2 <= table.Length
            invariant previousTies + RunB(t, index2, t[index].value)
                   == before.previousTies + RunB(t, index + 1, t[index].value)
            decreases table.Length - index2
          {
            previousTies := previousTies + 1;
            index2 := index2 + 1;
          }
          u1 := u1 - previousTies as real / 2.0;
          u1 := u1 + (ties - previousTies) as real / 2.0;
          if previousTies == ties {
            previousTies, ties := 0, 0;
          }
        } else {
          var index2 := index + 1;
          while index2 < table.Length && table[index2].value == table[index].value
            invariant index + 1 <= index2 <= table.Length
            invariant ties + TiedB(t, index2, t[index].value) == TiedB(t, index + 1, t[index].value)
            decreases table.Length - index2
          {
            if table[index2].secondSet {
              ties := ties + 1;
            }
            index2 := index2 + 1;
          }
          if ties != 0 {
            u1 := u1 + ties as real / 2.0;
          }
        }
        prev := prev + 1;
      }
      assert ScanState(u1, prev, ties, previousTies) == Visit(t, index, before);
      index := index + 1;
    }
  }

  // ---------------------------------------------------------------------------
  // The scan stops once every first-set entry has been seen

  lemma PrefixStep(t: seq<ValueSetPair>, index: nat)
    requires index < |t|
    ensures CountA(t[..index + 1]) == CountA(t[..index]) + (if t[index].secondSet then 0 else 1)
    ensures CountA(t[..index + 1]) <= CountA(t)
  {
    assert t[..index + 1] == t[..index] + [t[index]];
    CountAAppend(t[..index], [t[index]]);
    assert t == t[..index + 1] + t[index + 1..];
    CountAAppend(t[..index + 1], t[index + 1..]);
  }

  lemma {:induction false} ScanFromPrev(t: seq<ValueSetPair>, n1: int, index: nat, s: ScanState)
    requires index <= |t| && n1 == CountA(t)
    requires s.prev == CountA(t[..index])
    ensures ScanFrom(t, n1, index, s).prev == n1
    decreases |t| - index
  {
    if index == |t| {
      assert t[..index] == t;
    } else if s.prev < n1 {
      PrefixStep(t, index);
      ScanFromPrev(t, n1, index + 1, Visit(t, index, s));
    } else {
      PrefixStep(t, index);
    }
  }

  /** With n1 first-set entries in the table, the scan ends with prev == n1. */
  lemma ScanEndsAtN1(t: seq<ValueSetPair>, n1: int)
    requires n1 == CountA(t)
    ensures Scan(t, n1).prev == n1
  {
    assert t[..0] == [];
    ScanFromPrev(t, n1, 0, Start);
  }

  // ---------------------------------------------------------------------------
  // Distinct values: the scan counts the pairs (a, b) with b < a

  ghost predicate StrictlyIncreasing(t: seq<ValueSetPair>)
  {
    forall i, j :: 0 <= i < j < |t| ==> t[i].value < t[j].value
  }

  /** In a strictly increasing table, the entries below position i are exactly those before it. */
  lemma BelowAtPosition(t: seq<ValueSetPair>, i: nat)
    requires StrictlyIncreasing(t) && i < |t|
    ensures BelowB(t, t[i].value) == i - CountA(t[..i])
  {
    var v := t[i].value;
    assert t == t[..i] + t[i..];
    BelowBAppend(t[..i], t[i..], v);
    BelowBAllBelow(t[..i], v);
    BelowBNoneBelow(t[i..], v);
  }

  /** One step of the scan over a strictly increasing table adds the visited entry's pairs. */
  lemma DistinctVisit(t: seq<ValueSetPair>, index: nat)
    requires StrictlyIncreasing(t) && index < |t|
    ensures Visit(t, index, ScanState(PairCount(t[..index], t) as real, CountA(t[..index]), 0, 0))
         == ScanState(PairCount(t[..index + 1], t) as real, CountA(t[..index + 1]), 0, 0)
  {
    PrefixStep(t, index);
    assert t[..index + 1] == t[..index] + [t[index]];
    PairCountAppend(t[..index], [t[index]], t);
    assert PairCount([t[index]], t) == if t[index].secondSet then 0 else BelowB(t, t[index].value);
    if !t[index].secondSet {
      BelowAtPosition(t, index);
      assert TiedB(t, index + 1, t[index].value) == 0;
    }
  }

  /** Once every first-set entry is behind position `index`, no pair is left to count. */
  lemma DistinctTail(t: seq<ValueSetPair>, index: nat)
    requires index <= |t| && CountA(t[..index]) >= CountA(t)
    ensures PairCount(t[..index], t) == PairCount(t, t)
    ensures CountA(t[..index]) == CountA(t)
  {
    assert t == t[..index] + t[index..];
    CountAAppend(t[..index], t[index..]);
    PairCountAppend(t[..index], t[index..], t);
    PairCountNoA(t[index..], t);
  }

  lemma {:induction false} ScanFromDistinct(t: seq<ValueSetPair>, n1: int, index: nat)
    requires StrictlyIncreasing(t) && n1 == CountA(t) && index <= |t|
    ensures ScanFrom(t, n1, index, ScanState(PairCount(t[..index], t) as real, CountA(t[..index]), 0, 0))
         == ScanState(PairCount(t, t) as real, n1, 0, 0)
    decreases |t| - index
  {
    if index == |t| {
      assert t[..index] == t;
    } else if CountA(t[..index]) < n1 {
      DistinctVisit(t, index);
      ScanFromDistinct(t, n1, index + 1);
    } else {
      DistinctTail(t, index);
    }
  }

  lemma ScanDistinct(t: seq<ValueSetPair>, n1: int)
    requires StrictlyIncreasing(t) && n1 == CountA(t)
    ensures Scan(t, n1).u1 == PairCount(t, t) as real
  {
    assert t[..0] == [];
    ScanFromDistinct(t, n1, 0);
  }

  /**
   * When all N table values are distinct, whatever value-sorted permutation qsort returns,
   * the scan yields U1 = #{(a, b) : b < a} over the first set's values a and the second
   * set's values b (0 standing for a replicate not in play), so 0 <= U1 <= n1 * n2, and it
   * stops with prev == n1.
   */
  lemma DistinctValuesCountPairs(a: Group, b: Group, t: seq<ValueSetPair>)
    requires Consistent(a) && Consistent(b)
    requires SortedByValue(t) && multiset(t) == multiset(Entries(a, b))
    requires forall i, j :: 0 <= i < j < |t| ==> t[i].value != t[j].value
    ensures Scan(t, |a.inplay|).u1 == CrossBelow(Masked(a), Masked(b)) as real
    ensures 0.0 <= Scan(t, |a.inplay|).u1 <= (|a.inplay| * |b.inplay|) as real
    ensures Scan(t, |a.inplay|).prev == |a.inplay|
  {
    EntriesCountA(a, b);
    CountAPermutation(t, Entries(a, b));
    ScanDistinct(t, |a.inplay|);
    ScanEndsAtN1(t, |a.inplay|);
    TablePairCountPermutation(t, Entries(a, b));
    EntriesPairCount(a, b);
    CrossBelowBound(Masked(a), Masked(b));
  }

  /** One replicate per set, distinct values: U1 is 1 if the first set's value is the larger, else 0. */
  lemma SingleReplicates(a: Group, b: Group, t: seq<ValueSetPair>)
    requires Consistent(a) && Consistent(b) && |a.inplay| == 1 && |b.inplay| == 1
    requires SortedByValue(t) && multiset(t) == multiset(Entries(a, b))
    requires forall i, j :: 0 <= i < j < |t| ==> t[i].value != t[j].value
    ensures Scan(t, 1).u1 == if Masked(b)[0] < Masked(a)[0] then 1.0 else 0.0
  {
    DistinctValuesCountPairs(a, b, t);
    var x, y := Masked(a)[0], Masked(b)[0];
    assert Masked(a) == [x] && Masked(b) == [y];
    assert CountBelow([y], x) == if y < x then 1 else 0 by {
      assert [y][1..] == [];
    }
    assert CrossBelow([x], [y]) == CountBelow([y], x) + CrossBelow([], [y]) by {
      assert [x][1..] == [];
    }
  }

  // ---------------------------------------------------------------------------
  // Ties: the outcome depends on where qsort leaves equal values

  /** Two equal values, the first set's entry first: U1 = 1/2. */
  lemma TieFirstSetFirst(v: real)
    ensures Scan([ValueSetPair(v, false), ValueSetPair(v, true)], 1).u1 == 0.5
  {
    var t := [ValueSetPair(v, false), ValueSetPair(v, true)];
    assert TiedB(t, 1, v) == 1 by {
      assert TiedB(t, 2, v) == 0;
    }
    var s1 := Visit(t, 0, Start);
    assert s1 == ScanState(0.5, 1, 1, 0);
    assert ScanFrom(t, 1, 1, s1) == s1;
  }

  /** The same two equal values the other way round: U1 = 1. */
  lemma TieSecondSetFirst(v: real)
    ensures Scan([ValueSetPair(v, true), ValueSetPair(v, false)], 1).u1 == 1.0
  {
    var t := [ValueSetPair(v, true), ValueSetPair(v, false)];
    assert Visit(t, 0, Start) == Start;
    assert TiedB(t, 2, v) == 0;
    var s2 := Visit(t, 1, Start);
    assert s2 == ScanState(1.0, 1, 0, 0);
    assert ScanFrom(t, 1, 2, s2) == s2;
    assert ScanFrom(t, 1, 1, Start) == ScanFrom(t, 1, 2, s2);
    assert ScanFrom(t, 1, 0, Start) == ScanFrom(t, 1, 1, Start);
  }

  /** Four equal values, both first-set entries first: U1 = 0, not n1 * n2 / 2 = 2. */
  lemma AllEqualFirstSetFirst(v: real)
    ensures Scan([ValueSetPair(v, false), ValueSetPair(v, false), ValueSetPair(v, true), ValueSetPair(v, true)], 2).u1 == 0.0
  {
    var t := [ValueSetPair(v, false), ValueSetPair(v, false), ValueSetPair(v, true), ValueSetPair(v, true)];
    assert TiedB(t, 1, v) == 2 by {
      assert TiedB(t, 4, v) == 0;
      assert TiedB(t, 3, v) == 1;
      assert TiedB(t, 2, v) == 2;
    }
    var s1 := Visit(t, 0, Start);
    assert s1 == ScanState(1.0, 1, 2, 0);
    assert RunB(t, 2, v) == 2 by {
      assert RunB(t, 4, v) == 0;
      assert RunB(t, 3, v) == 1;
    }
    var s2 := Visit(t, 1, s1);
    assert s2 == ScanState(0.0, 2, 0, 0);
    assert ScanFrom(t, 2, 2, s2) == s2;
    assert ScanFrom(t, 2, 1, s1) == ScanFrom(t, 2, 2, s2);
  }

  /**
   * The tie count is not reset when a later first-set entry has a different value: with
   * A(1), B(1), A(2), B(3) the scan yields U1 = 2, where counting the tied pair as one half
   * gives 1.5.
   */
  lemma TiesCarryOver()
    ensures Scan([ValueSetPair(1.0, false), ValueSetPair(1.0, true), ValueSetPair(2.0, false), ValueSetPair(3.0, true)], 2).u1 == 2.0
  {
    var t := [ValueSetPair(1.0, false), ValueSetPair(1.0, true), ValueSetPair(2.0, false), ValueSetPair(3.0, true)];
    assert TiedB(t, 1, 1.0) == 1 by {
      assert TiedB(t, 2, 1.0) == 0;
    }
    var s1 := Visit(t, 0, Start);
    assert s1 == ScanState(0.5, 1, 1, 0);
    var s2 := Visit(t, 1, s1);
    assert s2 == s1;
    assert RunB(t, 3, 2.0) == 0;
    var s3 := Visit(t, 2, s2);
    assert s3 == ScanState(2.0, 2, 1, 0);
    assert ScanFrom(t, 2, 3, s3) == s3;
  }
}
