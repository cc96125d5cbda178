/**
 * The window synchroniser ("Multiset") that both set-comparison reducers pull from,
 * modelled as a finite sequence of aligned windows and a cursor on it.  The merging
 * of tracks into windows happens outside this model: the windows are given.
 */
module Windows {

  datatype Option<T> = None | Some(value: T)

  /** One set of replicate tracks at the current window: per replicate, whether it has a
      value here, and that value (meaningless where the replicate is not in play). */
  datatype Group = Group(inplay: seq<bool>, values: seq<real>)

  /** One value slot per replicate. */
  predicate Consistent(g: Group)
  {
    |g.inplay| == |g.values|
  }

  /** An aligned window: its coordinates, one flag per set ("some replicate of this set is
      in play here") and the replicate data of every set. */
  datatype Window = Window(chrom: string, start: int, finish: int, inplay: seq<bool>, groups: seq<Group>)

  /** The coordinates a window publishes. */
  function Coords(w: Window): (string, int, int)
  {
    (w.chrom, w.start, w.finish)
  }

  /** What the synchroniser guarantees of every window, given the replicate count of each set. */
  ghost predicate WellFormed(w: Window, counts: seq<nat>)
  {
    |w.inplay| == |counts| && |w.groups| == |counts| &&
    forall k :: 0 <= k < |counts| ==>
      |w.groups[k].inplay| == counts[k] && |w.groups[k].values| == counts[k] &&
      (w.inplay[k] <==> true in w.groups[k].inplay)
  }

  /** The skip condition shared by both reducers: the first two sets both have a value. */
  predicate BothInPlay(w: Window)
  {
    |w.inplay| >= 2 && w.inplay[0] && w.inplay[1]
  }

  /** The first window at or after `from` that satisfies `q`, or |ws| when there is none. */
  function FirstFrom(ws: seq<Window>, from: nat, q: Window -> bool): (r: nat)
    requires from <= |ws|
    ensures from <= r <= |ws|
    ensures r < |ws| ==> q(ws[r])
    ensures forall j :: from <= j < r ==> !q(ws[j])
    decreases |ws| - from
  {
    if from == |ws| || q(ws[from]) then from else FirstFrom(ws, from + 1, q)
  }

  /** Searching for a stronger condition can first jump to the next window meeting a weaker one. */
  lemma {:induction false} FirstFromRefines(ws: seq<Window>, from: nat, p: Window -> bool, q: Window -> bool)
    requires from <= |ws|
    requires forall j :: from <= j < |ws| && q(ws[j]) ==> p(ws[j])
    ensures FirstFrom(ws, from, p) <= FirstFrom(ws, from, q)
    ensures FirstFrom(ws, from, q) == FirstFrom(ws, FirstFrom(ws, from, p), q)
    decreases |ws| - from
  {
    if from < |ws| && !p(ws[from]) {
      FirstFromRefines(ws, from + 1, p, q);
    }
  }

  /** The last window in [lo, hi) that satisfies `q`, or -1 when there is none. */
  function LastIn(ws: seq<Window>, lo: nat, hi: nat, q: Window -> bool): (r: int)
    requires lo <= hi <= |ws|
    ensures r == -1 || (lo <= r < hi && q(ws[r]))
    ensures forall j :: lo <= j < hi && r < j ==> !q(ws[j])
    decreases hi - lo
  {
    if hi == lo then -1 else if q(ws[hi - 1]) then hi - 1 else LastIn(ws, lo, hi - 1, q)
  }

  /** Windows that fail `q` do not move the last one that satisfies it. */
  lemma {:induction false} LastInSkip(ws: seq<Window>, lo: nat, mid: nat, hi: nat, q: Window -> bool)
    requires lo <= mid <= hi <= |ws|
    requires forall j :: mid <= j < hi ==> !q(ws[j])
    ensures LastIn(ws, lo, hi, q) == LastIn(ws, lo, mid, q)
    decreases hi - mid
  {
    if mid < hi {
      LastInSkip(ws, lo, mid, hi - 1, q);
    }
  }

  /** The window the skip loop stops at, starting from window `from`. */
  function NextBothInPlay(ws: seq<Window>, from: nat): nat
    requires from <= |ws|
  {
    FirstFrom(ws, from, BothInPlay)
  }

  /** Where the synchroniser lands after a seek: the first window on `chrom` that ends after `start`. */
  function SeekIndex(ws: seq<Window>, chrom: string, start: int): nat
  {
    FirstFrom(ws, 0, (w: Window) => w.chrom == chrom && w.finish > start)
  }

  /** |x|, which both reducers take: the t-test at lines 124-125, Mann-Whitney at lines 276-279. */
  function Abs(x: real): real
  {
    if x < 0.0 then -x else x
  }

  /** The indices lo, lo+1, ..., hi-1, in order. */
  function Range(lo: nat, hi: nat): seq<nat>
    requires lo <= hi
  {
    seq(hi - lo, i => lo + i)
  }

  lemma RangeExtend(lo: nat, hi: nat)
    requires lo <= hi
    ensures Range(lo, hi) + [hi] == Range(lo, hi + 1)
  {
  }

  lemma RangeConcat(lo: nat, mid: nat, hi: nat)
    requires lo <= mid <= hi
    ensures Range(lo, mid) + Range(mid, hi) == Range(lo, hi)
  {
  }

  /** The synchroniser: its windows, its position, and (ghost) the log of the windows it popped. */
  class Multiset {
    const counts: seq<nat>
    const windows: seq<Window>
    var cursor: nat
    ghost var consumed: seq<nat>

    ghost predicate Valid()
      reads this
    {
      cursor <= |windows| && forall i :: 0 <= i < |windows| ==> WellFormed(windows[i], counts)
    }

    /** multi->done: the stream is exhausted. */
    predicate Done()
      reads this
    {
      cursor >= |windows|
    }

    function Current(): Window
      reads this
      requires !Done()
    {
      windows[cursor]
    }

    constructor (counts: seq<nat>, windows: seq<Window>)
      requires forall i :: 0 <= i < |windows| ==> WellFormed(windows[i], counts)
      ensures Valid()
      ensures this.counts == counts && this.windows == windows
      ensures cursor == 0 && consumed == []
    {
      this.counts := counts;
      this.windows := windows;
      cursor := 0;
      consumed := [];
    }

    /** popMultiset: consume the current window. */
    method Pop()
      requires Valid() && !Done()
      modifies this
      ensures Valid()
      ensures cursor == old(cursor) + 1
      ensures consumed == old(consumed) + [old(cursor)]
    {
      consumed := consumed + [cursor];
      cursor := cursor + 1;
    }

    /** seekMultiset: reposition the stream (the region's end is not modelled). */
    method Seek(chrom: string, start: int, finish: int)
      requires Valid()
      modifies this
      ensures Valid()
      ensures cursor == SeekIndex(windows, chrom, start)
      ensures consumed == old(consumed)
    {
      cursor := SeekIndex(windows, chrom, start);
    }
  }

  /**
   * The loop both reducers open with: pop windows until both sets are in play, and report
   * whether such a window was found before the stream ran out.  Each skipped window is
   * popped exactly once, and the window found is not popped.
   */
  method SkipToBothInPlay(multi: Multiset) returns (found: bool)
    requires multi.Valid()
    modifies multi
    ensures multi.Valid()
    ensures multi.cursor == NextBothInPlay(multi.windows, old(multi.cursor))
    ensures found <==> !multi.Done()
    ensures multi.consumed == old(multi.consumed) + Range(old(multi.cursor), multi.cursor)
  {
    if multi.Done() {
      return false;
    }
    while !BothInPlay(multi.Current())
      invariant multi.Valid() && !multi.Done()
      invariant old(multi.cursor) <= multi.cursor
      invariant NextBothInPlay(multi.windows, multi.cursor) == NextBothInPlay(multi.windows, old(multi.cursor))
      invariant multi.consumed == old(multi.consumed) + Range(old(multi.cursor), multi.cursor)
      decreases |multi.windows| - multi.cursor
    {
      RangeExtend(old(multi.cursor), multi.cursor);
      multi.Pop();
      if multi.Done() {
        return false;
      }
    }
    return true;
  }
}
