/**
 * The Mann-Whitney ranking table: (value, set) entries, the comparator the table is sorted
 * with, the filling of the table from a window, the sort, and the pair count that the
 * rank scan is compared against.
 */
module RankTable {
  import opened Windows

  /** One entry of the ranking table; `secondSet` (the field `set`) is false for the first set, true for the second. */
  datatype ValueSetPair = ValueSetPair(value: real, secondSet: bool)

  /** compareValueSetPairs: orders entries by value alone; the set tag never breaks a tie. */
  function CompareValueSetPairs(a: ValueSetPair, b: ValueSetPair): (r: int)
    ensures -1 <= r <= 1
    ensures r < 0 <==> a.value < b.value
    ensures r > 0 <==> b.value < a.value
  {
    if a.value < b.value then -1
    else if a.value > b.value then 1
    else 0
  }

  /** The comparator is antisymmetric and ignores the tags, as qsort requires. */
  lemma CompareConsistent(a: ValueSetPair, b: ValueSetPair, c: ValueSetPair)
    ensures CompareValueSetPairs(a, b) == -CompareValueSetPairs(b, a)
    ensures CompareValueSetPairs(a, b) == 0 <==> a.value == b.value
    ensures CompareValueSetPairs(a, b) <= 0 && CompareValueSetPairs(b, c) <= 0 ==> CompareValueSetPairs(a, c) <= 0
  {
  }

  ghost predicate SortedByValue(s: seq<ValueSetPair>)
  {
    forall i, j :: 0 <= i < j < |s| ==> s[i].value <= s[j].value
  }

  /** The table is sorted exactly when the comparator never puts a later entry first. */
  lemma SortedMeansComparatorOrder(s: seq<ValueSetPair>)
    ensures SortedByValue(s) <==> forall i, j :: 0 <= i < j < |s| ==> CompareValueSetPairs(s[i], s[j]) <= 0
  {
  }

  // ---------------------------------------------------------------------------
  // Filling the table

  /** A set's values with 0 in place of every replicate that is not in play. */
  function Masked(g: Group): seq<real>
    requires Consistent(g)
  {
    seq(|g.inplay|, i requires 0 <= i < |g.inplay| => if g.inplay[i] then g.values[i] else 0.0)
  }

  function Tagged(xs: seq<real>, secondSet: bool): seq<ValueSetPair>
  {
    seq(|xs|, i requires 0 <= i < |xs| => ValueSetPair(xs[i], secondSet))
  }

  /** The table before sorting: the first set's entries, then the second set's. */
  function Entries(a: Group, b: Group): seq<ValueSetPair>
    requires Consistent(a) && Consistent(b)
  {
    Tagged(Masked(a), false) + Tagged(Masked(b), true)
  }

  /** Lines 219-237: write the table entry by entry, first set then second set. */
  method Fill(table: array<ValueSetPair>, a: Group, b: Group)
    requires Consistent(a) && Consistent(b)
    requires table.Length == |a.inplay| + |b.inplay|
    modifies table
    ensures forall i :: 0 <= i < |a.inplay| ==>
      table[i] == ValueSetPair(if a.inplay[i] then a.values[i] else 0.0, false)
    ensures forall i :: 0 <= i < |b.inplay| ==>
      table[|a.inplay| + i] == ValueSetPair(if b.inplay[i] then b.values[i] else 0.0, true)
    ensures table[..] == Entries(a, b)
  {
    var n1, n2 := |a.inplay|, |b.inplay|;
    var ptr := 0;
    for index := 0 to n1
      invariant ptr == index
      invariant forall i :: 0 <= i < index ==>
        table[i] == ValueSetPair(if a.inplay[i] then a.values[i] else 0.0, false)
    {
      if a.inplay[index] {
        table[ptr] := ValueSetPair(a.values[index], false);
      } else {
        table[ptr] := ValueSetPair(0.0, false);
      }
      ptr := ptr + 1;
    }
    for index := 0 to n2
      invariant ptr == n1 + index
      invariant forall i :: 0 <= i < n1 ==>
        table[i] == ValueSetPair(if a.inplay[i] then a.values[i] else 0.0, false)
      invariant forall i :: 0 <= i < index ==>
        table[n1 + i] == ValueSetPair(if b.inplay[i] then b.values[i] else 0.0, true)
    {
      if b.inplay[index] {
        table[ptr] := ValueSetPair(b.values[index], true);
      } else {
        table[ptr] := ValueSetPair(0.0, true);
      }
      ptr := ptr + 1;
    }
    assert forall i :: 0 <= i < n1 + n2 ==> table[..][i] == Entries(a, b)[i];
  }

  // ---------------------------------------------------------------------------
  // Sorting the table (qsort): only its contract is used downstream

  method SwapAdjacent(a: array<ValueSetPair>, j: nat)
    requires 0 < j < a.Length
    modifies a
    ensures a[j - 1] == old(a[j]) && a[j] == old(a[j - 1])
    ensures forall m :: 0 <= m < a.Length && m != j - 1 && m != j ==> a[m] == old(a[m])
    ensures multiset(a[..]) == old(multiset(a[..]))
  {
    a[j - 1], a[j] := a[j], a[j - 1];
  }

  /**
   * Line 239.  qsort promises a value-sorted permutation and nothing about the order of
   * equal values; this insertion sort is one way to meet that promise, and callers rely on
   * nothing more than its postconditions.
   */
  method SortByValue(a: array<ValueSetPair>)
    modifies a
    ensures SortedByValue(a[..])
    ensures forall i, j :: 0 <= i < j < a.Length ==> CompareValueSetPairs(a[i], a[j]) <= 0
    ensures multiset(a[..]) == old(multiset(a[..]))
  {
    var i := 0;
    while i < a.Length
      invariant 0 <= i <= a.Length
      invariant forall p, q :: 0 <= p < q < i ==> a[p].value <= a[q].value
      invariant multiset(a[..]) == old(multiset(a[..]))
    {
      var j := i;
      while 0 < j && CompareValueSetPairs(a[j - 1], a[j]) > 0
        invariant 0 <= j <= i
        invariant forall p, q :: 0 <= p < q <= i && q != j ==> a[p].value <= a[q].value
        invariant multiset(a[..]) == old(multiset(a[..]))
      {
        SwapAdjacent(a, j);
        j := j - 1;
      }
      i := i + 1;
    }
    SortedMeansComparatorOrder(a[..]);
  }

  // ---------------------------------------------------------------------------
  // Counting

  /** Number of first-set entries. */
  function CountA(s: seq<ValueSetPair>): nat
  {
    if s == [] then 0 else (if s[0].secondSet then 0 else 1) + CountA(s[1..])
  }

  /** Number of second-set entries whose value is strictly below v. */
  function BelowB(s: seq<ValueSetPair>, v: real): nat
  {
    if s == [] then 0 else (if s[0].secondSet && s[0].value < v then 1 else 0) + BelowB(s[1..], v)
  }

  /** For every first-set entry of s, the number of second-set entries of u strictly below it. */
  function PairCount(s: seq<ValueSetPair>, u: seq<ValueSetPair>): nat
  {
    if s == [] then 0 else (if s[0].secondSet then 0 else BelowB(u, s[0].value)) + PairCount(s[1..], u)
  }

  /** Number of values in ys strictly below v. */
  function CountBelow(ys: seq<real>, v: real): nat
  {
    if ys == [] then 0 else (if ys[0] < v then 1 else 0) + CountBelow(ys[1..], v)
  }

  /** #{(a, b) : a in xs, b in ys, b < a}: the Mann-Whitney U of xs against ys, ties aside. */
  function CrossBelow(xs: seq<real>, ys: seq<real>): nat
  {
    if xs == [] then 0 else CountBelow(ys, xs[0]) + CrossBelow(xs[1..], ys)
  }

  lemma {:induction false} CountAAppend(s: seq<ValueSetPair>, t: seq<ValueSetPair>)
    ensures CountA(s + t) == CountA(s) + CountA(t)
  {
    if s == [] {
      assert s + t == t;
    } else {
      assert (s + t)[0] == s[0] && (s + t)[1..] == s[1..] + t;
      CountAAppend(s[1..], t);
    }
  }

  lemma {:induction false} BelowBAppend(s: seq<ValueSetPair>, t: seq<ValueSetPair>, v: real)
    ensures BelowB(s + t, v) == BelowB(s, v) + BelowB(t, v)
  {
    if s == [] {
      assert s + t == t;
    } else {
      assert (s + t)[0] == s[0] && (s + t)[1..] == s[1..] + t;
      BelowBAppend(s[1..], t, v);
    }
  }

  lemma {:induction false} PairCountAppend(s: seq<ValueSetPair>, t: seq<ValueSetPair>, u: seq<ValueSetPair>)
    ensures PairCount(s + t, u) == PairCount(s, u) + PairCount(t, u)
  {
    if s == [] {
      assert s + t == t;
    } else {
      assert (s + t)[0] == s[0] && (s + t)[1..] == s[1..] + t;
      PairCountAppend(s[1..], t, u);
    }
  }

  lemma {:induction false} CountABound(s: seq<ValueSetPair>)
    ensures CountA(s) <= |s|
  {
    if s != [] {
      CountABound(s[1..]);
    }
  }

  /** Below every value of s, BelowB counts exactly the second-set entries of s. */
  lemma {:induction false} BelowBAllBelow(s: seq<ValueSetPair>, v: real)
    requires forall i :: 0 <= i < |s| ==> s[i].value < v
    ensures BelowB(s, v) == |s| - CountA(s)
  {
    if s != [] {
      BelowBAllBelow(s[1..], v);
      CountABound(s[1..]);
    }
  }

  lemma {:induction false} BelowBNoneBelow(s: seq<ValueSetPair>, v: real)
    requires forall i :: 0 <= i < |s| ==> s[i].value >= v
    ensures BelowB(s, v) == 0
  {
    if s != [] {
      BelowBNoneBelow(s[1..], v);
    }
  }

  lemma {:induction false} PairCountNoA(s: seq<ValueSetPair>, u: seq<ValueSetPair>)
    requires CountA(s) == 0
    ensures PairCount(s, u) == 0
  {
    if s != [] {
      PairCountNoA(s[1..], u);
    }
  }

  /** Removing the entry at position k from a sequence takes one copy out of its multiset. */
  lemma RemoveAt(t: seq<ValueSetPair>, k: nat)
    requires k < |t|
    ensures t == t[..k] + [t[k]] + t[k + 1..]
    ensures multiset(t[..k] + t[k + 1..]) == multiset(t) - multiset{t[k]}
  {
    assert t == t[..k] + [t[k]] + t[k + 1..];
  }

  lemma BelowBRemove(t: seq<ValueSetPair>, k: nat, v: real)
    requires k < |t|
    ensures BelowB(t, v) == BelowB([t[k]], v) + BelowB(t[..k] + t[k + 1..], v)
  {
    assert t == t[..k] + ([t[k]] + t[k + 1..]);
    BelowBAppend(t[..k], [t[k]] + t[k + 1..], v);
    BelowBAppend([t[k]], t[k + 1..], v);
    BelowBAppend(t[..k], t[k + 1..], v);
  }

  lemma PairCountRemove(t: seq<ValueSetPair>, k: nat, u: seq<ValueSetPair>)
    requires k < |t|
    ensures PairCount(t, u) == PairCount([t[k]], u) + PairCount(t[..k] + t[k + 1..], u)
  {
    assert t == t[..k] + ([t[k]] + t[k + 1..]);
    PairCountAppend(t[..k], [t[k]] + t[k + 1..], u);
    PairCountAppend([t[k]], t[k + 1..], u);
    PairCountAppend(t[..k], t[k + 1..], u);
  }

  /** A non-empty s whose entries t also holds: t less one copy of s[0] holds the rest of s. */
  lemma MatchHead(s: seq<ValueSetPair>, t: seq<ValueSetPair>) returns (k: nat)
    requires s != [] && multiset(s) == multiset(t)
    ensures k < |t| && t[k] == s[0]
    ensures multiset(s[1..]) == multiset(t[..k] + t[k + 1..])
  {
    assert s[0] in multiset(t);
    k :| 0 <= k < |t| && t[k] == s[0];
    RemoveAt(t, k);
    assert s == [s[0]] + s[1..];
  }

  lemma CountARemove(t: seq<ValueSetPair>, k: nat)
    requires k < |t|
    ensures CountA(t) == CountA([t[k]]) + CountA(t[..k] + t[k + 1..])
  {
    assert t == t[..k] + ([t[k]] + t[k + 1..]);
    CountAAppend(t[..k], [t[k]] + t[k + 1..]);
    CountAAppend([t[k]], t[k + 1..]);
    CountAAppend(t[..k], t[k + 1..]);
  }

  lemma {:induction false} CountAPermutation(s: seq<ValueSetPair>, t: seq<ValueSetPair>)
    requires multiset(s) == multiset(t)
    ensures CountA(s) == CountA(t)
    decreases |s|
  {
    if s == [] {
      assert |t| == |multiset(t)| == 0;
    } else {
      var k := MatchHead(s, t);
      CountAPermutation(s[1..], t[..k] + t[k + 1..]);
      CountARemove(t, k);
    }
  }

  lemma {:induction false} BelowBPermutation(s: seq<ValueSetPair>, t: seq<ValueSetPair>, v: real)
    requires multiset(s) == multiset(t)
    ensures BelowB(s, v) == BelowB(t, v)
    decreases |s|
  {
    if s == [] {
      assert |t| == |multiset(t)| == 0;
    } else {
      var k := MatchHead(s, t);
      BelowBPermutation(s[1..], t[..k] + t[k + 1..], v);
      BelowBRemove(t, k, v);
    }
  }

  lemma {:induction false} PairCountPermutation(s: seq<ValueSetPair>, t: seq<ValueSetPair>, u: seq<ValueSetPair>)
    requires multiset(s) == multiset(t)
    ensures PairCount(s, u) == PairCount(t, u)
    decreases |s|
  {
    if s == [] {
      assert |t| == |multiset(t)| == 0;
    } else {
      var k := MatchHead(s, t);
      PairCountPermutation(s[1..], t[..k] + t[k + 1..], u);
      PairCountRemove(t, k, u);
    }
  }

  /** The pair count of a table depends only on which entries it holds, not on their order. */
  lemma TablePairCountPermutation(s: seq<ValueSetPair>, t: seq<ValueSetPair>)
    requires multiset(s) == multiset(t)
    ensures PairCount(s, s) == PairCount(t, t)
  {
    PairCountPermutation(s, t, s);
    PairCountUnder(t, s, t);
  }

  /** PairCount(s, u) depends on u only through BelowB(u, _). */
  lemma {:induction false} PairCountUnder(s: seq<ValueSetPair>, u: seq<ValueSetPair>, u': seq<ValueSetPair>)
    requires multiset(u) == multiset(u')
    ensures PairCount(s, u) == PairCount(s, u')
  {
    if s != [] {
      BelowBPermutation(u, u', s[0].value);
      PairCountUnder(s[1..], u, u');
    }
  }

  lemma {:induction false} CountATagged(xs: seq<real>, secondSet: bool)
    ensures CountA(Tagged(xs, secondSet)) == if secondSet then 0 else |xs|
  {
    if xs != [] {
      assert Tagged(xs, secondSet)[1..] == Tagged(xs[1..], secondSet);
      CountATagged(xs[1..], secondSet);
    }
  }

  /** The filled table holds n1 first-set entries. */
  lemma EntriesCountA(a: Group, b: Group)
    requires Consistent(a) && Consistent(b)
    ensures |Entries(a, b)| == |a.inplay| + |b.inplay|
    ensures CountA(Entries(a, b)) == |a.inplay|
  {
    CountAAppend(Tagged(Masked(a), false), Tagged(Masked(b), true));
    CountATagged(Masked(a), false);
    CountATagged(Masked(b), true);
  }

  lemma {:induction false} BelowBTagged(xs: seq<real>, secondSet: bool, v: real)
    ensures BelowB(Tagged(xs, secondSet), v) == if secondSet then CountBelow(xs, v) else 0
  {
    if xs != [] {
      assert Tagged(xs, secondSet)[1..] == Tagged(xs[1..], secondSet);
      BelowBTagged(xs[1..], secondSet, v);
    }
  }

  lemma {:induction false} PairCountTagged(xs: seq<real>, secondSet: bool, u: seq<ValueSetPair>, ys: seq<real>)
    requires forall v :: BelowB(u, v) == CountBelow(ys, v)
    ensures PairCount(Tagged(xs, secondSet), u) == if secondSet then 0 else CrossBelow(xs, ys)
  {
    if xs != [] {
      assert Tagged(xs, secondSet)[1..] == Tagged(xs[1..], secondSet);
      PairCountTagged(xs[1..], secondSet, u, ys);
    }
  }

  /** Counted on the filled table, the pairs are those of the two sets' (masked) values. */
  lemma EntriesPairCount(a: Group, b: Group)
    requires Consistent(a) && Consistent(b)
    ensures PairCount(Entries(a, b), Entries(a, b)) == CrossBelow(Masked(a), Masked(b))
  {
    var e, ta, tb := Entries(a, b), Tagged(Masked(a), false), Tagged(Masked(b), true);
    forall v
      ensures BelowB(e, v) == CountBelow(Masked(b), v)
    {
      BelowBAppend(ta, tb, v);
      BelowBTagged(Masked(a), false, v);
      BelowBTagged(Masked(b), true, v);
    }
    PairCountAppend(ta, tb, e);
    PairCountTagged(Masked(a), false, e, Masked(b));
    PairCountTagged(Masked(b), true, e, Masked(b));
  }

  lemma {:induction false} CountBelowBound(ys: seq<real>, v: real)
    ensures CountBelow(ys, v) <= |ys|
  {
    if ys != [] {
      CountBelowBound(ys[1..], v);
    }
  }

  /** 0 <= U <= |xs| * |ys|. */
  lemma {:induction false} CrossBelowBound(xs: seq<real>, ys: seq<real>)
    ensures CrossBelow(xs, ys) <= |xs| * |ys|
  {
    if xs != [] {
      CountBelowBound(ys, xs[0]);
      CrossBelowBound(xs[1..], ys);
      assert |xs| * |ys| == |ys| + (|xs| - 1) * |ys|;
    }
  }
}
