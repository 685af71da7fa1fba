/**
 The change currency: an ordered list of edits, and the one position map every derived
 position flows through.
 */
module Patches {
  import opened Base

  /** The pre-edit range `os..oe` became the post-edit range `ns..ne`, in final coordinates. */
  datatype Edit = Edit(os: nat, oe: nat, ns: nat, ne: nat)

  type Patch = seq<Edit>

  function Delta(e: Edit): int { (e.ne - e.ns) - (e.oe - e.os) }

  /** The net length change of the first `k` edits. */
  function Shift(p: Patch, k: nat): int
    requires k <= |p|
  {
    if k == 0 then 0 else Shift(p, k - 1) + Delta(p[k - 1])
  }

  /** An edit's new start is its old start moved by the edits before it. */
  ghost predicate Anchored(p: Patch, i: nat)
    requires i < |p|
  {
    p[i].ns == p[i].os + Shift(p, i)
  }

  /** Ascending and disjoint in both coordinate spaces; touching is allowed. */
  ghost predicate WellFormed(p: Patch) {
    && (forall i | 0 <= i < |p| :: p[i].os <= p[i].oe && p[i].ns <= p[i].ne)
    && (forall i {:trigger Anchored(p, i)} | 0 <= i < |p| :: Anchored(p, i))
    && (forall i, j | 0 <= i < j < |p| :: p[i].oe <= p[j].os)
  }

  /** Gap `k` is the untouched text just before edit `k` (the last gap follows every edit). */
  function GapStart(p: Patch, k: nat): nat
    requires k <= |p|
  {
    if k == 0 then 0 else p[k - 1].oe
  }

  function GapEnd(p: Patch, n: nat, k: nat): nat
    requires k <= |p|
  {
    if k == |p| then n else p[k].os
  }

  function NewGapStart(p: Patch, k: nat): nat
    requires k <= |p|
  {
    if k == 0 then 0 else p[k - 1].ne
  }

  function NewGapEnd(p: Patch, n: nat, k: nat): nat
    requires k <= |p|
  {
    if k == |p| then n else p[k].ns
  }

  ghost predicate GapKept(p: Patch, before: Text, after: Text, k: nat)
    requires k <= |p|
  {
    && GapStart(p, k) <= GapEnd(p, |before|, k) <= |before|
    && NewGapStart(p, k) <= NewGapEnd(p, |after|, k) <= |after|
    && before[GapStart(p, k)..GapEnd(p, |before|, k)] == after[NewGapStart(p, k)..NewGapEnd(p, |after|, k)]
  }

  /** `p` turns `before` into `after`: every gap is carried over unchanged. */
  ghost predicate Rewrites(p: Patch, before: Text, after: Text) {
    && WellFormed(p)
    && |after| == |before| + Shift(p, |p|)
    && forall k | 0 <= k <= |p| :: GapKept(p, before, after, k)
  }

  lemma {:induction false} GapShift(p: Patch, k: nat)
    requires WellFormed(p) && k <= |p|
    ensures NewGapStart(p, k) == GapStart(p, k) + Shift(p, k)
    ensures k < |p| ==> p[k].ns == p[k].os + Shift(p, k) && p[k].ne == p[k].oe + Shift(p, k + 1)
  {
    if k > 0 { assert Anchored(p, k - 1); }
    if k < |p| { assert Anchored(p, k); }
  }

  lemma {:induction false} EditsAscend(p: Patch, i: nat, j: nat)
    requires WellFormed(p) && i <= j < |p|
    ensures p[i].os <= p[j].os && p[i].oe <= p[j].oe
    ensures i < j ==> p[i].oe <= p[j].os
  {}

  /** New gaps ascend too. */
  lemma {:induction false} NewAscend(p: Patch, i: nat, j: nat)
    requires WellFormed(p) && i < j < |p|
    ensures p[i].ne <= p[j].ns
    decreases j
  {
    hide Shift;
    GapShift(p, j);
    GapShift(p, j - 1);
    if i < j - 1 {
      NewAscend(p, i, j - 1);
    }
  }

  lemma {:induction false} GapOf(p: Patch, before: Text, after: Text, k: nat)
    requires Rewrites(p, before, after) && k <= |p|
    ensures GapKept(p, before, after, k)
  {}

  lemma {:induction false} GapBounds(p: Patch, before: Text, after: Text, k: nat)
    requires Rewrites(p, before, after) && k <= |p|
    ensures GapStart(p, k) <= GapEnd(p, |before|, k) <= |before|
    ensures NewGapStart(p, k) == GapStart(p, k) + Shift(p, k)
    ensures NewGapEnd(p, |after|, k) == GapEnd(p, |before|, k) + Shift(p, k) <= |after|
  {
    hide Shift;
    GapOf(p, before, after, k);
    GapShift(p, k);
  }

  /** A byte of a gap is found again, moved by the gap's shift. */
  lemma {:induction false} GapByte(p: Patch, before: Text, after: Text, k: nat, x: nat)
    requires Rewrites(p, before, after) && k <= |p| && GapStart(p, k) <= x < GapEnd(p, |before|, k)
    ensures x < |before| && 0 <= x + Shift(p, k) < |after| && before[x] == after[x + Shift(p, k)]
    ensures NewGapStart(p, k) <= x + Shift(p, k) < NewGapEnd(p, |after|, k)
  {
    hide Rewrites, Shift;
    GapOf(p, before, after, k);
    RewritesWellFormed(p, before, after);
    GapShift(p, k);
    var i := x - GapStart(p, k);
    assert before[GapStart(p, k)..GapEnd(p, |before|, k)][i] == after[NewGapStart(p, k)..NewGapEnd(p, |after|, k)][i];
  }

  lemma {:induction false} RewritesWellFormed(p: Patch, before: Text, after: Text)
    requires Rewrites(p, before, after)
    ensures WellFormed(p) && |after| == |before| + Shift(p, |p|)
  {}

  // ----- the position map -----

  /** The transit table for a position inside one edit. */
  function MapWithin(pos: nat, e: Edit, sn: int, bias: Bias): int {
    var l := e.ne - e.ns;
    if pos == e.os then if bias == Right then sn + l else sn
    else if pos < e.oe then if pos - e.os <= l then sn + (pos - e.os) else sn + l
    else sn + l
  }

  /** The first edit whose old end reaches `pos`. */
  function FirstReaching(p: Patch, pos: nat): (k: nat)
    ensures k <= |p|
    ensures forall i | 0 <= i < k :: p[i].oe < pos
    ensures k < |p| ==> p[k].oe >= pos
  {
    if p == [] || p[0].oe >= pos then 0 else 1 + FirstReaching(p[1..], pos)
  }

  /** One position through the patch, by binary search and prefix shifts. */
  function MapOffset(p: Patch, pos: nat, bias: Bias): int {
    var k := FirstReaching(p, pos);
    if k == |p| || pos < p[k].os then pos + Shift(p, k)
    else MapWithin(pos, p[k], p[k].os + Shift(p, k), bias)
  }

  /** The single-position form: walk the edits, accumulating the shift. */
  method MapOffsetScan(p: Patch, pos: nat, bias: Bias) returns (r: int)
    requires WellFormed(p)
    ensures r == MapOffset(p, pos, bias)
  {
    var shift := 0;
    for i := 0 to |p|
      invariant shift == Shift(p, i)
      invariant forall j | 0 <= j < i :: p[j].oe < pos
    {
      var e := p[i];
      if pos < e.os {
        assert FirstReaching(p, pos) == i;
        return pos + shift;
      }
      if pos <= e.oe {
        assert FirstReaching(p, pos) == i;
        return MapWithin(pos, e, e.os + shift, bias);
      }
      shift := shift + Delta(e);
    }
    assert FirstReaching(p, pos) == |p|;
    return pos + shift;
  }

  lemma {:induction false} FirstReachingIs(p: Patch, pos: nat, k: nat)
    requires k <= |p| && (k < |p| ==> p[k].oe >= pos)
    requires forall i | 0 <= i < k :: p[i].oe < pos
    ensures FirstReaching(p, pos) == k
  {}

  /** A position strictly inside a gap moves by the gap's shift. */
  lemma {:induction false} MapInGap(p: Patch, pos: nat, k: nat, bias: Bias)
    requires WellFormed(p) && k <= |p|
    requires k == 0 || GapStart(p, k) < pos
    requires k < |p| ==> pos < p[k].os
    ensures MapOffset(p, pos, bias) == pos + Shift(p, k)
  {
    forall i | 0 <= i < k ensures p[i].oe < pos {
      EditsAscend(p, i, k - 1);
    }
    FirstReachingIs(p, pos, k);
  }

  /** A position at the start of an edit no earlier edit touches. */
  lemma {:induction false} MapAtStart(p: Patch, k: nat, bias: Bias)
    requires WellFormed(p) && k < |p|
    requires k == 0 || GapStart(p, k) < p[k].os
    ensures MapOffset(p, p[k].os, bias) == if bias == Left then p[k].ns else p[k].ne
  {
    GapShift(p, k);
    forall i | 0 <= i < k ensures p[i].oe < p[k].os {
      EditsAscend(p, i, k - 1);
    }
    FirstReachingIs(p, p[k].os, k);
  }

  /** No position is mapped below zero. */
  lemma {:induction false} MapNonNegative(p: Patch, pos: nat, bias: Bias)
    requires WellFormed(p)
    ensures MapOffset(p, pos, bias) >= 0
  {
    var k := FirstReaching(p, pos);
    if k > 0 { GapShift(p, k); }
    if k < |p| { GapShift(p, k); }
  }

  /** Where a position lands, as an offset. */
  function Mapped(p: Patch, pos: nat, bias: Bias): nat
    requires WellFormed(p)
  {
    MapNonNegative(p, pos, bias);
    MapOffset(p, pos, bias)
  }

  /** `partition_point` over the old ends, by bisection. */
  method PartitionPoint(p: Patch, pos: nat) returns (k: nat)
    requires WellFormed(p)
    ensures k == FirstReaching(p, pos)
  {
    var lo, hi := 0, |p|;
    while lo < hi
      invariant lo <= hi <= |p|
      invariant forall i | 0 <= i < lo :: p[i].oe < pos
      invariant hi < |p| ==> p[hi].oe >= pos
    {
      var mid := (lo + hi) / 2;
      if p[mid].oe < pos {
        forall i | 0 <= i <= mid ensures p[i].oe < pos { EditsAscend(p, i, mid); }
        lo := mid + 1;
      } else {
        hi := mid;
      }
    }
    k := lo;
    FirstReachingIs(p, pos, k);
  }

  /** A batch of positions: one prefix table of shifts, one bisection a position. */
  method MapMany(p: Patch, queries: seq<(nat, Bias)>) returns (out: seq<nat>)
    requires WellFormed(p)
    ensures |out| == |queries|
    ensures forall i | 0 <= i < |queries| :: out[i] == Mapped(p, queries[i].0, queries[i].1)
  {
    if p == [] {
      out := seq(|queries|, i requires 0 <= i < |queries| => queries[i].0);
      return;
    }
    var table := PrefixShifts(p);
    out := [];
    for q := 0 to |queries|
      invariant |out| == q
      invariant forall i | 0 <= i < q :: out[i] == Mapped(p, queries[i].0, queries[i].1)
    {
      var pos, bias := queries[q].0, queries[q].1;
      var k := PartitionPoint(p, pos);
      MapNonNegative(p, pos, bias);
      var mapped := if k == |p| || pos < p[k].os then pos + table[k]
                    else MapWithin(pos, p[k], p[k].os + table[k], bias);
      out := out + [mapped];
    }
  }

  lemma {:induction false} ShiftStep(p: Patch, k: nat)
    requires k <= |p|
    ensures Shift(p, k) == if k == 0 then 0 else Shift(p, k - 1) + Delta(p[k - 1])
  {}

  method PrefixShifts(p: Patch) returns (table: seq<int>)
    ensures |table| == |p| + 1 && forall k | 0 <= k <= |p| :: table[k] == Shift(p, k)
  {
    hide Shift;
    ShiftStep(p, 0);
    table := [0];
    for i := 0 to |p|
      invariant |table| == i + 1 && forall k | 0 <= k <= i :: table[k] == Shift(p, k)
    {
      ShiftStep(p, i + 1);
      table := table + [table[i] + Delta(p[i])];
    }
  }

  /** The map of one edit. */
  lemma {:induction false} MapSingle(e: Edit, pos: nat, bias: Bias)
    requires WellFormed([e])
    ensures e.ns == e.os
    ensures Mapped([e], pos, bias) == if pos < e.os then pos
                                      else if pos <= e.oe then MapWithin(pos, e, e.os, bias)
                                      else pos + Delta(e)
  {
    GapShift([e], 0);
    assert Shift([e], 1) == Delta([e][0]);
    FirstReachingIs([e], pos, if pos <= e.oe then 0 else 1);
  }

  /** A position inside a replaced range lands as far into the new text as it was into the old, or at the
      new text's end. */
  lemma {:induction false} MapReplaced(p: Patch, k: nat, pos: nat, bias: Bias)
    requires WellFormed(p) && k < |p| && p[k].os < pos <= p[k].oe
    ensures Mapped(p, pos, bias) == if pos == p[k].oe then p[k].ne else Min(p[k].ns + (pos - p[k].os), p[k].ne)
  {
    GapShift(p, k);
    hide Shift;
    forall i | 0 <= i < k ensures p[i].oe < pos { EditsAscend(p, i, k); }
    FirstReachingIs(p, pos, k);
  }

  /** One edit replaces a stretch of a text. */
  lemma {:induction false} OneEdit(left: Text, gone: Text, put: Text, right: Text)
    ensures var p := [Edit(|left|, |left| + |gone|, |left|, |left| + |put|)];
            WellFormed(p) && Rewrites(p, left + gone + right, left + put + right)
  {
    var before, after := left + gone + right, left + put + right;
    assert before[..|left|] == left == after[..|left|];
    assert before[|left| + |gone|..] == right == after[|left| + |put|..];
    OneEditRewrites(Edit(|left|, |left| + |gone|, |left|, |left| + |put|), before, after);
  }

  lemma {:induction false} OneEditRewrites(e: Edit, before: Text, after: Text)
    requires e.ns == e.os <= e.oe <= |before| && e.ns <= e.ne <= |after| && |after| == |before| + Delta(e)
    requires before[..e.os] == after[..e.ns] && before[e.oe..] == after[e.ne..]
    ensures WellFormed([e]) && Rewrites([e], before, after)
  {
    assert Shift([e], 0) == 0 && Shift([e], 1) == Delta([e][0]);
    hide Shift;
    assert Anchored([e], 0);
    assert GapKept([e], before, after, 0) && GapKept([e], before, after, 1);
  }
}
