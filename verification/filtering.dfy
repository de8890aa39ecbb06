/**
 * Vocabulary for order-preserving filters, such as a `WHERE` clause that
 * keeps the order of the rows it reads: the kept elements sit at strictly
 * increasing positions of the input.
 */
module Filtering {

  /** Positions listed in strictly increasing order. */
  ghost predicate Ascending(idx: seq<nat>) {
    forall m, n :: 0 <= m < n < |idx| ==> idx[m] < idx[n]
  }

  /** `r[m]` is the element of `s` at position `idx[m]`. */
  ghost predicate PicksAt<T>(s: seq<T>, r: seq<T>, idx: seq<nat>) {
    |idx| == |r| && forall m :: 0 <= m < |idx| ==> idx[m] < |s| && r[m] == s[idx[m]]
  }

  /** The same positions, one further on. */
  function Shifted(idx: seq<nat>): (r: seq<nat>)
    ensures |r| == |idx|
    ensures forall m :: 0 <= m < |idx| ==> r[m] == idx[m] + 1
  {
    seq(|idx|, m requires 0 <= m < |idx| => idx[m] + 1)
  }

  /** A position listed for the tail is listed, one further on, for the whole. */
  lemma ShiftedHas(idx: seq<nat>, i: nat)
    requires i in idx
    ensures i + 1 in Shifted(idx)
  {
    var m :| 0 <= m < |idx| && idx[m] == i;
    assert Shifted(idx)[m] == i + 1;
  }

  /** Positions in the tail `s[1..]` are positions in `s`, one further on. */
  lemma ShiftedPicks<T>(s: seq<T>, r: seq<T>, idx: seq<nat>)
    requires |s| > 0 && PicksAt(s[1..], r, idx) && Ascending(idx)
    ensures PicksAt(s, r, Shifted(idx)) && Ascending(Shifted(idx))
  {
    var sh := Shifted(idx);
    forall m | 0 <= m < |sh| ensures sh[m] < |s| && r[m] == s[sh[m]] {
      assert s[1..][idx[m]] == s[idx[m] + 1];
    }
  }

  /** Keeping the first element too puts position 0 in front. */
  lemma FirstThenShifted<T>(s: seq<T>, r: seq<T>, idx: seq<nat>)
    requires |s| > 0 && PicksAt(s, r, idx) && Ascending(idx)
    requires forall m :: 0 <= m < |idx| ==> idx[m] > 0
    ensures PicksAt(s, [s[0]] + r, [0] + idx) && Ascending([0] + idx)
  {
    var r' := [s[0]] + r;
    var idx' := [0] + idx;
    forall m | 0 <= m < |idx'| ensures idx'[m] < |s| && r'[m] == s[idx'[m]] {
      if m > 0 {
        assert idx'[m] == idx[m - 1] && r'[m] == r[m - 1];
      }
    }
    forall m, n | 0 <= m < n < |idx'| ensures idx'[m] < idx'[n] {
      assert idx'[n] == idx[n - 1];
      if m > 0 {
        assert idx'[m] == idx[m - 1];
      }
    }
  }

  /** The elements that pass `keep`, in their order. */
  function Filter<T(!new)>(s: seq<T>, keep: T -> bool): (r: seq<T>)
    ensures forall x :: x in r <==> x in s && keep(x)
    ensures |r| <= |s|
  {
    if |s| == 0 then []
    else if keep(s[0]) then [s[0]] + Filter(s[1..], keep)
    else Filter(s[1..], keep)
  }

  /** Every position whose element passes `keep` is listed. */
  ghost predicate Covers<T>(s: seq<T>, keep: T -> bool, idx: seq<nat>) {
    forall i :: 0 <= i < |s| && keep(s[i]) ==> i in idx
  }

  /**
   * One step of an order-preserving filter that tests the first element and
   * then filters the rest: the positions for `s` from those for `s[1..]`.
   */
  lemma FilterStep<T>(s: seq<T>, keep: T -> bool, r: seq<T>, rTail: seq<T>, tailIdx: seq<nat>)
    returns (idx: seq<nat>)
    requires |s| > 0 && r == (if keep(s[0]) then [s[0]] + rTail else rTail)
    requires PicksAt(s[1..], rTail, tailIdx) && Ascending(tailIdx) && Covers(s[1..], keep, tailIdx)
    ensures PicksAt(s, r, idx) && Ascending(idx) && Covers(s, keep, idx)
  {
    ShiftedPicks(s, rTail, tailIdx);
    var shifted := Shifted(tailIdx);
    forall i | 1 <= i < |s| && keep(s[i]) ensures i in shifted {
      assert s[1..][i - 1] == s[i];
      ShiftedHas(tailIdx, i - 1);
    }
    if keep(s[0]) {
      FirstThenShifted(s, rTail, shifted);
      idx := [0] + shifted;
      forall i | 0 <= i < |s| && keep(s[i]) ensures i in idx {
        if i == 0 {
          assert idx[0] == 0;
        } else {
          assert i in shifted;
        }
      }
    } else {
      idx := shifted;
      forall i | 0 <= i < |s| && keep(s[i]) ensures i in idx {
        assert i != 0;
      }
    }
  }
}
