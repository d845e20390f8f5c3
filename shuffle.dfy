/** The shuffle window: a list of candidate files visited in a random order,
    one at a time, with "next" and "previous" wrapping around; and the
    preview sizes of the shuffle and main windows. */
module Shuffle {
  import opened Options

  /** A candidate: the file's name and the folder it was found in. */
  datatype Candidate = Candidate(name: string, folder: string)

  datatype Size = Size(w: int, h: int)

  /** `list(range(n))`. */
  function Range(n: nat): (r: seq<nat>)
    ensures |r| == n && forall i :: 0 <= i < n ==> r[i] == i
  {
    seq(n, i requires 0 <= i < n => i)
  }

  /** What `random.shuffle(list(range(n)))` can leave: the numbers below `n`,
      each once, in some order. */
  ghost predicate IsPermutation(order: seq<nat>, n: nat)
  {
    multiset(order) == multiset(Range(n))
  }

  /** `(i + 1) % n`. */
  function NextIndex(i: nat, n: nat): (r: nat)
    requires n > 0
    ensures r < n
    ensures i < n - 1 ==> r == i + 1
    ensures i == n - 1 ==> r == 0
  {
    (i + 1) % n
  }

  /** `(i - 1) % n` with Python's floored remainder, which for a positive
      `n` agrees with Dafny's: from 0 it wraps to `n - 1`. */
  function PrevIndex(i: nat, n: nat): (r: nat)
    requires n > 0
    ensures r < n
    ensures 0 < i <= n ==> r == i - 1
    ensures i == 0 ==> r == n - 1
  {
    (i - 1) % n
  }

  /** The index after `k` presses of "next" from `i`. */
  function NextTimes(i: nat, k: nat, n: nat): (r: nat)
    requires i < n
    ensures r < n
  {
    if k == 0 then i else NextIndex(NextTimes(i, k - 1, n), n)
  }

  class ShuffleView {
    var candidates: seq<Candidate>
    var order: seq<nat>
    var index: nat
    var open: bool

    ghost predicate Valid()
      reads this
    {
      && IsPermutation(order, |candidates|)
      && (index < |order| || index == 0)
    }

    /** No shuffle window yet. */
    constructor ()
      ensures Valid() && candidates == [] && order == [] && index == 0 && !open
    {
      candidates := [];
      order := [];
      index := 0;
      open := false;
    }

    /** `_open_shuffle_window`: `shuffled` is the order `random.shuffle`
        produced from `list(range(len(cands)))`. */
    method OpenWindow(cands: seq<Candidate>, shuffled: seq<nat>)
      requires IsPermutation(shuffled, |cands|)
      modifies this
      ensures Valid()
      ensures candidates == cands && order == shuffled && index == 0 && open
    {
      candidates := cands;
      order := shuffled;
      index := 0;
      open := true;
    }

    /** `close_shuffle_window`: the candidates and the order stay. */
    method CloseWindow()
      modifies this
      ensures !open
      ensures candidates == old(candidates) && order == old(order) && index == old(index)
    {
      open := false;
    }

    /** `shuffle_next_image`. */
    method NextImage()
      requires Valid()
      modifies this
      ensures Valid()
      ensures candidates == old(candidates) && order == old(order) && open == old(open)
      ensures index == (if |candidates| == 0 then old(index) else NextIndex(old(index), |order|))
    {
      if |candidates| == 0 {
        return;
      }
      PermutationLength(order, |candidates|);
      index := (index + 1) % |order|;
    }

    /** `shuffle_prev_image`. */
    method PrevImage()
      requires Valid()
      modifies this
      ensures Valid()
      ensures candidates == old(candidates) && order == old(order) && open == old(open)
      ensures index == (if |candidates| == 0 then old(index) else PrevIndex(old(index), |order|))
    {
      if |candidates| == 0 {
        return;
      }
      PermutationLength(order, |candidates|);
      index := (index - 1) % |order|;
    }

    /** The candidate `shuffle_show_current` shows: none without candidates
        or without a window. */
    function Current(): (c: Option<Candidate>)
      requires Valid()
      reads this
      ensures c.Some? <==> |candidates| > 0 && open
      ensures c.Some? ==> c.value in candidates
    {
      if |candidates| == 0 || !open then None
      else
        PermutationLength(order, |candidates|);
        PermutationBounded(order, |candidates|, index);
        Some(candidates[order[index]])
    }
  }

  // ------------------------------------------------------------ properties

  lemma PermutationLength(order: seq<nat>, n: nat)
    requires IsPermutation(order, n)
    ensures |order| == n
  {
    assert |order| == |multiset(order)| == |multiset(Range(n))| == n;
  }

  /** Every entry of a shuffled order indexes a candidate. */
  lemma PermutationBounded(order: seq<nat>, n: nat, i: nat)
    requires IsPermutation(order, n) && i < |order|
    ensures order[i] < n
  {
    assert order[i] in multiset(Range(n));
  }

  /** Every candidate has a place in the shuffled order. */
  lemma PermutationCovers(order: seq<nat>, n: nat, t: nat)
    requires IsPermutation(order, n) && t < n
    ensures exists p :: 0 <= p < |order| && order[p] == t
  {
    assert Range(n)[t] == t;
    assert t in multiset(order);
  }

  /** "Previous" undoes "next", and "next" undoes "previous". */
  lemma PrevNextInverse(i: nat, n: nat)
    requires i < n
    ensures PrevIndex(NextIndex(i, n), n) == i
    ensures NextIndex(PrevIndex(i, n), n) == i
  {
  }

  /** Fewer than `n` presses of "next" add their number, wrapping once past
      the end. */
  lemma {:induction false} NextTimesIsAdd(i: nat, k: nat, n: nat)
    requires i < n && k < n
    ensures NextTimes(i, k, n) == if i + k < n then i + k else i + k - n
  {
    if k > 0 {
      NextTimesIsAdd(i, k - 1, n);
    }
  }

  /** Pressing "next" `n` times comes back to the start. */
  lemma NextCycle(i: nat, n: nat)
    requires i < n
    ensures NextTimes(i, n, n) == i
  {
    NextTimesIsAdd(i, n - 1, n);
  }

  /** From any position, each candidate is shown within `n` presses of "next". */
  lemma EveryCandidateShown(order: seq<nat>, n: nat, start: nat, t: nat)
    requires IsPermutation(order, n) && start < n && t < n
    ensures exists k :: 0 <= k < n && NextTimes(start, k, n) < |order| && order[NextTimes(start, k, n)] == t
  {
    PermutationLength(order, n);
    PermutationCovers(order, n, t);
    var p :| 0 <= p < |order| && order[p] == t;
    var k := if start <= p then p - start else p + n - start;
    NextTimesIsAdd(start, k, n);
    assert NextTimes(start, k, n) == p;
  }

  /** `_get_shuffle_preview_size`: 800 by 600 without a window; otherwise the
      window's size less 40 across and 120 down, but never below 100. */
  function ShufflePreviewSize(window: Option<Size>): (r: Size)
    ensures window.None? ==> r == Size(800, 600)
    ensures window.Some? ==>
              && r.w >= 100 && r.w >= window.value.w - 40 && (r.w == 100 || r.w == window.value.w - 40)
              && r.h >= 100 && r.h >= window.value.h - 120 && (r.h == 100 || r.h == window.value.h - 120)
  {
    match window
    case None => Size(800, 600)
    case Some(s) =>
      Size(if s.w - 40 > 100 then s.w - 40 else 100, if s.h - 120 > 100 then s.h - 120 else 100)
  }

  /** `_get_preview_size`: the label's width and the frame's height, or 800
      by 600 while either is not yet laid out (at most one pixel). */
  function MainPreviewSize(labelWidth: int, frameHeight: int): (r: Size)
    ensures r.w > 1 && r.h > 1
    ensures labelWidth > 1 && frameHeight > 1 ==> r == Size(labelWidth, frameHeight)
    ensures labelWidth <= 1 || frameHeight <= 1 ==> r == Size(800, 600)
  {
    if labelWidth <= 1 || frameHeight <= 1 then Size(800, 600) else Size(labelWidth, frameHeight)
  }
}
