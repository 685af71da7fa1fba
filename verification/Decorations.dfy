/**
 The tracked-range store.  Every windowed operation leaves exactly what the whole-store
 operation would: the same ranges, the same identities, in the same order.
 */
module Decorations {
  import opened Base
  import opened Patches
  import opened SumTrees
  import opened DecorationItems
  import opened DecorationQueries
  import opened DecorationMoves
  import opened DecorationBands

  /** An ordered list of upright ranges with distinct identities below `next`. */
  ghost predicate IsStore(v: seq<Tracked>, next: nat) {
    && Ordered(v) && DistinctIds(v) && UprightRanges(v)
    && forall i | 0 <= i < |v| :: v[i].id < next
  }

  /** A batch as it is minted: identities in span order. */
  function Minted(spans: seq<Span>, kind: Kind, stickiness: Stickiness, next: nat): (v: seq<Tracked>)
    ensures |v| == |spans|
  {
    seq(|spans|, i requires 0 <= i < |spans| => Tracked(next + i, spans[i].start, spans[i].end, kind, stickiness))
  }

  ghost predicate Upright(spans: seq<Span>) { forall i | 0 <= i < |spans| :: spans[i].start <= spans[i].end }

  ghost predicate Rising(spans: seq<Span>) {
    forall i, j | 0 <= i < j < |spans| :: spans[i].start <= spans[j].start
  }

  // ----- adding -----

  lemma {:induction false} WithMinted(v: seq<Tracked>, next: nat, spans: seq<Span>, kind: Kind, stickiness: Stickiness)
    requires IsStore(v, next) && Upright(spans)
    ensures DistinctIds(v + Minted(spans, kind, stickiness, next))
    ensures UprightRanges(v + Minted(spans, kind, stickiness, next))
    ensures IsStore(SortRanges(v + Minted(spans, kind, stickiness, next)), next + |spans|)
  {
    hide Ordered;
    var m := Minted(spans, kind, stickiness, next);
    assert DistinctIds(v + m);
    SortedIsStore(v + m, next + |spans|);
  }

  lemma {:induction false} SortedIsStore(v: seq<Tracked>, next: nat)
    requires DistinctIds(v) && UprightRanges(v) && forall i | 0 <= i < |v| :: v[i].id < next
    ensures IsStore(SortRanges(v), next)
  {
    hide SortRanges, DistinctIds, Ordered;
    SortOrders(v);
    SortedDistinct(v);
    var w := SortRanges(v);
    forall i | 0 <= i < |w| ensures w[i].id < next && w[i].start <= w[i].end {
      MemberOf(w[i], w, v);
      assert w[i] in w;
    }
  }

  /** Merging a rising batch into the band of ranges starting within its extent sorts the whole. */
  lemma {:induction false} BandMergeIsSort(v: seq<Tracked>, m: seq<Tracked>, a: nat, b: nat, lo: nat, hi: nat)
    requires Ordered(v) && DistinctIds(v + m) && a <= b <= |v|
    requires StartsBefore(v, lo, a) && StartsBefore(v, hi + 1, b)
    requires forall i | 0 <= i < |m| :: lo <= m[i].start <= hi
    ensures SortRanges(v + m) == v[..a] + SortRanges(v[a..b] + m) + v[b..]
  {
    hide SortRanges, Ordered;
    var mid := SortRanges(v[a..b] + m);
    OrderedParts(v, a, b);
    BandDistinct(v, m, a, b);
    SortOrders(v[a..b] + m);
    BandBetween(v, m, a, b, lo, hi);
    OrderedConcat(v[..a], mid);
    OrderedConcat(v[..a] + mid, v[b..]);
    assert multiset(v[..a] + mid + v[b..]) == multiset(v + m);
    SortOfOrdered(v + m, v[..a] + mid + v[b..]);
  }

  lemma {:induction false} BandDistinct(v: seq<Tracked>, m: seq<Tracked>, a: nat, b: nat)
    requires a <= b <= |v| && DistinctIds(v + m)
    ensures DistinctIds(v[a..b] + m)
  {
    var w, x := v + m, v[a..b] + m;
    forall i, j | 0 <= i < j < |x| ensures x[i].id != x[j].id {
      var i', j' := if i < b - a then a + i else |v| + i - (b - a), if j < b - a then a + j else |v| + j - (b - a);
      assert x[i] == w[i'] && x[j] == w[j'];
    }
  }

  lemma {:induction false} BandBetween(v: seq<Tracked>, m: seq<Tracked>, a: nat, b: nat, lo: nat, hi: nat)
    requires a <= b <= |v| && StartsBefore(v, lo, a) && StartsBefore(v, hi + 1, b)
    requires forall i | 0 <= i < |m| :: lo <= m[i].start <= hi
    ensures forall r | r in SortRanges(v[a..b] + m) :: lo <= r.start <= hi
    ensures forall r, s | r in v[..a] && s in SortRanges(v[a..b] + m) :: Before(r, s)
    ensures lo <= hi + 1 ==> forall r, s | r in v[..a] + SortRanges(v[a..b] + m) && s in v[b..] :: Before(r, s)
  {
    hide SortRanges;
    var mid := SortRanges(v[a..b] + m);
    forall r | r in mid ensures lo <= r.start <= hi {
      MemberOf(r, mid, v[a..b] + m);
    }
  }

  // ----- the touched band -----

  predicate Accepts(qs: nat, qe: nat, pred: Tracked -> bool, r: Tracked) { Touches(r, qs, qe) && pred(r) }

  function Accepted(qs: nat, qe: nat, pred: Tracked -> bool): Tracked -> bool { r => Accepts(qs, qe, pred, r) }

  function Refused(qs: nat, qe: nat, pred: Tracked -> bool): Tracked -> bool { r => !Accepts(qs, qe, pred, r) }

  /** Where the touched band begins: the leftmost touching start. */
  ghost predicate BandFrom(v: seq<Tracked>, qs: nat, qe: nat, wl: Option<nat>) {
    && (wl.None? ==> forall i | 0 <= i < |v| :: !Touches(v[i], qs, qe))
    && (wl.Some? ==> wl.value <= qe && forall i | 0 <= i < |v| && Touches(v[i], qs, qe) :: wl.value <= v[i].start)
    && (wl.Some? ==> exists i :: 0 <= i < |v| && Touches(v[i], qs, qe) && v[i].start == wl.value)
  }

  method LeftmostTouching(t: DTree, qs: nat, qe: nat) returns (wl: Option<nat>)
    requires Valid(DECOS, t)
    ensures BandFrom(Ranges(t), qs, qe, wl)
  {
    hide Valid, AddSummary, MeasureItem, Ranges, Decode, Items, DecorationsIn, Select, Touching, Touches;
    DecorationsInIsLinear(t, qs, qe);
    var hits := DecorationsIn(t, qs, qe);
    wl := MinStart(hits);
    forall i | 0 <= i < |Ranges(t)| && Touches(Ranges(t)[i], qs, qe)
      ensures wl.Some? && wl.value <= Ranges(t)[i].start
    {
      InTouching(Ranges(t), Ranges(t)[i], qs, qe);
    }
    if wl.Some? {
      var r :| r in hits && r.start == wl.value;
      TouchingIn(Ranges(t), r, qs, qe);
      var i :| 0 <= i < |Ranges(t)| && Ranges(t)[i] == r;
      assert Touches(Ranges(t)[i], qs, qe);
    }
  }

  lemma {:induction false} InTouching(v: seq<Tracked>, r: Tracked, qs: nat, qe: nat)
    requires r in v && Touches(r, qs, qe)
    ensures r in Select(v, Touching(qs, qe))
  {
    SelectMembers(v, Touching(qs, qe), r);
  }

  lemma {:induction false} TouchingIn(v: seq<Tracked>, r: Tracked, qs: nat, qe: nat)
    requires r in Select(v, Touching(qs, qe))
    ensures r in v && r.start <= qe && r.end >= qs && Touches(r, qs, qe)
  {
    SelectMembers(v, Touching(qs, qe), r);
  }

  method MinStart(v: seq<Tracked>) returns (m: Option<nat>)
    ensures m.None? <==> v == []
    ensures m.Some? ==> (exists r :: r in v && r.start == m.value) && forall r | r in v :: m.value <= r.start
  {
    m := None;
    for i := 0 to |v|
      invariant m.None? <==> i == 0
      invariant m.Some? ==> (exists r :: r in v && r.start == m.value) && forall j | 0 <= j < i :: m.value <= v[j].start
    {
      if m.None? || v[i].start < m.value {
        assert v[i] in v;
        m := Some(v[i].start);
      }
    }
  }

  /** Outside the band nothing touches. */
  lemma {:induction false} OutsideBand(v: seq<Tracked>, qs: nat, qe: nat, wl: Option<nat>, a: nat, b: nat)
    requires BandFrom(v, qs, qe, wl) && StartsBefore(v, qe + 1, b)
    requires if wl.Some? then StartsBefore(v, wl.value, a) else a == b
    ensures a <= b
    ensures forall i | 0 <= i < a :: v[i].start <= qe && !Touches(v[i], qs, qe)
    ensures forall i | b <= i < |v| :: v[i].start > qe
  {
    if b < |v| { assert v[b].start > qe; }
  }

  lemma {:induction false} SelectInBand(v: seq<Tracked>, a: nat, b: nat, f: Tracked -> bool)
    requires a <= b <= |v|
    requires forall i | 0 <= i < a || b <= i < |v| :: !f(v[i])
    ensures Select(v, f) == Select(v[a..b], f)
  {
    hide Select;
    SelectConcat(v[..a], v[a..b] + v[b..], f);
    SelectConcat(v[a..b], v[b..], f);
    SelectNone(v[..a], f);
    SelectNone(v[b..], f);
    assert v == v[..a] + (v[a..b] + v[b..]);
  }

  lemma {:induction false} SelectOutsideBand(v: seq<Tracked>, a: nat, b: nat, f: Tracked -> bool)
    requires a <= b <= |v|
    requires forall i | 0 <= i < a || b <= i < |v| :: f(v[i])
    ensures Select(v, f) == v[..a] + Select(v[a..b], f) + v[b..]
  {
    hide Select;
    SelectConcat(v[..a], v[a..b] + v[b..], f);
    SelectConcat(v[a..b], v[b..], f);
    SelectAll(v[..a], f);
    SelectAll(v[b..], f);
    assert v == v[..a] + (v[a..b] + v[b..]);
  }

  lemma {:induction false} SelectIsStore(v: seq<Tracked>, f: Tracked -> bool, next: nat)
    requires IsStore(v, next)
    ensures IsStore(Select(v, f), next)
  {
    hide Ordered;
    SelectOrdered(v, f);
    SelectDistinct(v, f);
    var w := Select(v, f);
    forall i | 0 <= i < |w| ensures w[i].id < next && w[i].start <= w[i].end {
      SelectMembers(v, f, w[i]);
      var k :| 0 <= k < |v| && v[k] == w[i];
    }
  }

  lemma {:induction false} SelectDistinct(v: seq<Tracked>, f: Tracked -> bool)
    requires DistinctIds(v)
    ensures DistinctIds(Select(v, f))
    decreases |v|
  {
    if v != [] {
      var s := Select(v[1..], f);
      SelectDistinct(v[1..], f);
      forall j | 0 <= j < |s| ensures s[j].id != v[0].id {
        SelectMembers(v[1..], f, s[j]);
        var k :| 0 <= k < |v[1..]| && v[1..][k] == s[j];
        assert v[k + 1] == s[j];
      }
    }
  }

  lemma {:induction false} StoreSorted(v: seq<Tracked>, next: nat)
    requires IsStore(v, next)
    ensures Sorted(v, 0)
  {
    OrderedIsSorted(v);
  }

  /** A part of an ordered list, counted from the last start before it. */
  lemma {:induction false} SortedAfter(left: seq<Tracked>, mid: seq<Tracked>)
    requires Ordered(left + mid) && UprightRanges(mid)
    ensures Sorted(mid, LastStart(left, 0))
  {
    var w := left + mid;
    forall i | 0 <= i < |mid| ensures LastStart(left, 0) <= mid[i].start {
      assert mid[i] == w[|left| + i];
      if left != [] { assert left[|left| - 1] == w[|left| - 1]; }
    }
    forall i, j | 0 <= i < j < |mid| ensures mid[i].start <= mid[j].start {
      assert Before(w[|left| + i], w[|left| + j]);
    }
  }

  /** The seam: the last start of the head does not pass the suffix's first. */
  lemma {:induction false} SeamOrdered(left: seq<Tracked>, mid: seq<Tracked>, tail: seq<Tracked>)
    requires Ordered(left + mid + tail) && tail != []
    ensures LastStart(mid, LastStart(left, 0)) <= tail[0].start
  {
    var w := left + mid + tail;
    var n := |left + mid|;
    assert w[n] == tail[0];
    if n > 0 { assert Before(w[n - 1], w[n]) && w[n - 1] == (left + mid)[n - 1]; }
  }

  lemma {:induction false} MovedByZero(v: seq<Tracked>)
    requires UprightRanges(v)
    ensures Moved(v, 0) == v
  {}

  lemma {:induction false} StoreIds(v: seq<Tracked>, next: nat)
    requires IsStore(v, next)
    ensures forall i | 0 <= i < |v| :: v[i].id < next
  {}

  lemma {:induction false} SortOfStore(v: seq<Tracked>, next: nat)
    requires IsStore(v, next)
    ensures SortRanges(v) == v
  {
    hide Ordered, DistinctIds, SortRanges;
    SortOfOrdered(v, v);
  }

  lemma {:induction false} MergedParts(v: seq<Tracked>, m: seq<Tracked>, a: nat, b: nat, lo: nat, hi: nat)
    requires Ordered(v) && UprightRanges(v) && DistinctIds(v + m) && UprightRanges(m)
    requires StartsBefore(v, lo, a) && StartsBefore(v, hi + 1, b) && lo <= hi
    requires forall i | 0 <= i < |m| :: lo <= m[i].start <= hi
    ensures a <= b <= |v|
    ensures var mid := SortRanges(v[a..b] + m);
            && Sorted(mid, LastStart(v[..a], 0))
            && (b < |v| ==> LastStart(mid, LastStart(v[..a], 0)) <= v[b].start)
            && SortRanges(v + m) == v[..a] + mid + v[b..]
  {
    hide SortRanges, Ordered, DistinctIds;
    if b < |v| { assert v[b].start > hi; }
    BandMergeIsSort(v, m, a, b, lo, hi);
    var mid := SortRanges(v[a..b] + m);
    SortOrders(v + m);
    UprightMiddle(v, m, a, b);
    OrderedHead(v[..a] + mid, v[b..]);
    SortedAfter(v[..a], mid);
    if b < |v| { SeamOrdered(v[..a], mid, v[b..]); }
  }

  lemma {:induction false} OrderedHead(x: seq<Tracked>, y: seq<Tracked>)
    requires Ordered(x + y)
    ensures Ordered(x)
  {
    hide Before;
    forall i, j | 0 <= i < j < |x| ensures Before(x[i], x[j]) {
      assert (x + y)[i] == x[i] && (x + y)[j] == x[j];
    }
  }

  lemma {:induction false} UprightMiddle(v: seq<Tracked>, m: seq<Tracked>, a: nat, b: nat)
    requires a <= b <= |v| && UprightRanges(v) && UprightRanges(m)
    ensures UprightRanges(SortRanges(v[a..b] + m))
  {
    hide SortRanges;
    var mid := SortRanges(v[a..b] + m);
    forall i | 0 <= i < |mid| ensures mid[i].start <= mid[i].end {
      MemberOf(mid[i], mid, v[a..b] + m);
    }
  }

  /** Merge a batch into the band of ranges that start within `lo..=hi`. */
  method MergeBand(t: DTree, batch: seq<Tracked>, lo: nat, hi: nat) returns (r: DTree)
    requires SumTrees.Valid(DECOS, t) && Ordered(Ranges(t)) && DistinctIds(Ranges(t) + batch) && UprightRanges(batch)
    requires lo <= hi && forall i | 0 <= i < |batch| :: lo <= batch[i].start <= hi
    ensures SumTrees.Valid(DECOS, r) && Ranges(r) == SortRanges(Ranges(t) + batch)
  {
    hide Items, Decode, SumTrees.Valid, SortRanges, Ordered, DistinctIds, Sorted, LastStart, SummaryBefore, Fold;
    ghost var v := Ranges(t);
    TreeUpright(t);
    ghost var a := PrefixOfStarts(t, lo);
    ghost var b := PrefixOfStarts(t, hi + 1);
    MergedParts(v, batch, a, b, lo, hi);
    var kLo := SummaryBefore(DECOS, StartDim, t, lo).count;
    var kHi := SummaryBefore(DECOS, StartDim, t, hi + 1).count;
    var left, middle, zoneC, from := SplitBand(t, kLo, kHi);
    var band := Materialize(middle, from);
    var merged := SortRanges(band + batch);
    r := Reassemble(t, left, zoneC, from, kLo, kHi, merged, 0);
    UprightSlice(v, b);
    MovedByZero(v[b..]);
  }

  lemma {:induction false} BatchExtent(spans: seq<Span>, kind: Kind, stickiness: Stickiness, next: nat)
    requires spans != [] && Rising(spans) && Upright(spans)
    ensures var m := Minted(spans, kind, stickiness, next);
            var lo, hi := spans[0].start, spans[|spans| - 1].start;
            UprightRanges(m) && lo <= hi && forall i | 0 <= i < |m| :: lo <= m[i].start <= hi
  {
    var m := Minted(spans, kind, stickiness, next);
    forall i | 0 <= i < |m| ensures spans[0].start <= m[i].start <= spans[|spans| - 1].start {
      if i > 0 { assert spans[0].start <= spans[i].start; }
      if i < |m| - 1 { assert spans[i].start <= spans[|spans| - 1].start; }
    }
    assert |m| > 0 && m[0].start <= spans[|spans| - 1].start;
  }

  lemma {:induction false} TreeUpright(t: DTree)
    ensures UprightRanges(Ranges(t)) && |Ranges(t)| == |Items(t)|
  {
    hide Items;
    DecodeSorted(Items(t), 0);
  }

  lemma {:induction false} UprightSlice(v: seq<Tracked>, b: nat)
    requires b <= |v| && UprightRanges(v)
    ensures UprightRanges(v[b..])
  {}

  // ----- removal -----

  /** Split a band into the ranges removed and the ranges that stay. */
  method Partition(band: seq<Tracked>, qs: nat, qe: nat, pred: Tracked -> bool)
    returns (removed: seq<Tracked>, survivors: seq<Tracked>)
    ensures removed == Select(band, Accepted(qs, qe, pred)) && survivors == Select(band, Refused(qs, qe, pred))
  {
    hide Touches;
    removed, survivors := [], [];
    for i := 0 to |band|
      invariant removed == Select(band[..i], Accepted(qs, qe, pred))
      invariant survivors == Select(band[..i], Refused(qs, qe, pred))
    {
      var r := band[i];
      assert band[..i + 1] == band[..i] + [r];
      SelectSnoc(band[..i], r, Accepted(qs, qe, pred));
      SelectSnoc(band[..i], r, Refused(qs, qe, pred));
      if Touches(r, qs, qe) && pred(r) {
        removed := removed + [r];
      } else {
        survivors := survivors + [r];
      }
    }
    assert band[..|band|] == band;
  }

  lemma {:induction false} SelectSnoc(v: seq<Tracked>, r: Tracked, f: Tracked -> bool)
    ensures Select(v + [r], f) == Select(v, f) + if f(r) then [r] else []
  {
    SelectConcat(v, [r], f);
    assert [r][1..] == [];
  }

  lemma {:induction false} RefusedIsComplement(v: seq<Tracked>, qs: nat, qe: nat, pred: Tracked -> bool)
    requires Select(v, Accepted(qs, qe, pred)) == []
    ensures Select(v, Refused(qs, qe, pred)) == v
  {
    if v != [] { RefusedIsComplement(v[1..], qs, qe, pred); }
  }

  /** Removing from the band removes from the whole. */
  lemma {:induction false} BandRemovalIsRemoval(v: seq<Tracked>, next: nat, qs: nat, qe: nat, pred: Tracked -> bool,
                                                wl: Option<nat>, a: nat, b: nat)
    requires IsStore(v, next) && BandFrom(v, qs, qe, wl) && StartsBefore(v, qe + 1, b)
    requires if wl.Some? then StartsBefore(v, wl.value, a) else a == b
    ensures a <= b <= |v|
    ensures var kept := Select(v[a..b], Refused(qs, qe, pred));
            && Select(v, Accepted(qs, qe, pred)) == Select(v[a..b], Accepted(qs, qe, pred))
            && Select(v, Refused(qs, qe, pred)) == v[..a] + kept + v[b..]
            && Sorted(kept, LastStart(v[..a], 0))
            && (b < |v| ==> LastStart(kept, LastStart(v[..a], 0)) <= v[b].start)
  {
    hide Select, Sorted, Ordered, LastStart, DistinctIds;
    OutsideBand(v, qs, qe, wl, a, b);
    SelectInBand(v, a, b, Accepted(qs, qe, pred));
    SelectOutsideBand(v, a, b, Refused(qs, qe, pred));
    var kept := Select(v[a..b], Refused(qs, qe, pred));
    SelectIsStore(v, Refused(qs, qe, pred), next);
    OrderedHead(v[..a] + kept, v[b..]);
    OrderedParts(v, a, b);
    SelectUpright(v[a..b], Refused(qs, qe, pred));
    SortedAfter(v[..a], kept);
    if b < |v| { SeamOrdered(v[..a], kept, v[b..]); }
  }

  lemma {:induction false} SelectUpright(v: seq<Tracked>, f: Tracked -> bool)
    requires UprightRanges(v)
    ensures UprightRanges(Select(v, f))
  {
    var w := Select(v, f);
    forall i | 0 <= i < |w| ensures w[i].start <= w[i].end {
      SelectMembers(v, f, w[i]);
    }
  }

  // ----- the mover -----

  /** The bands the windowed mover cuts are the bands of the edit. */
  lemma {:induction false} CutIsBands(e: Edit, v: seq<Tracked>, wl: Option<nat>, a: nat, b: nat)
    requires WellFormed([e]) && BandFrom(v, e.os, e.oe, wl) && StartsBefore(v, e.oe + 1, b)
    requires if wl.Some? then StartsBefore(v, wl.value, a) else a == b
    ensures Bands(e, v, a, b)
  {
    assert [e][0].os <= [e][0].oe;
    OutsideBand(v, e.os, e.oe, wl, a, b);
  }

  /** Every empty range of a dropping kind starts no later than the edit's old end, and no earlier
      than some range touching the edit. */
  ghost predicate QuietAway(v: seq<Tracked>, e: Edit) {
    forall i | 0 <= i < |v| && EmptyDrop(v[i]) ::
      v[i].start <= e.oe && exists j :: 0 <= j < |v| && Touches(v[j], e.os, e.oe) && v[j].start <= v[i].start
  }

  /** The band the mover cuts leaves no empty dropping range outside exactly then. */
  lemma {:induction false} QuietAwayIsQuiet(e: Edit, v: seq<Tracked>, wl: Option<nat>, a: nat, b: nat)
    requires BandFrom(v, e.os, e.oe, wl) && StartsBefore(v, e.oe + 1, b)
    requires if wl.Some? then StartsBefore(v, wl.value, a) else a == b
    ensures QuietOutside(v, a, b) <==> QuietAway(v, e)
  {
    hide EmptyDrop, Touches;
    if QuietAway(v, e) {
      forall i | 0 <= i < |v| && EmptyDrop(v[i]) ensures a <= i < b {
        var j :| 0 <= j < |v| && Touches(v[j], e.os, e.oe) && v[j].start <= v[i].start;
      }
    }
    if QuietOutside(v, a, b) {
      forall i | 0 <= i < |v| && EmptyDrop(v[i])
        ensures v[i].start <= e.oe && exists j :: 0 <= j < |v| && Touches(v[j], e.os, e.oe) && v[j].start <= v[i].start
      {
        var j :| 0 <= j < |v| && Touches(v[j], e.os, e.oe) && v[j].start == wl.value;
      }
    }
  }

  lemma {:induction false} NoneIsQuiet(v: seq<Tracked>, e: Edit)
    requires NoEmptyDrops(v)
    ensures QuietAway(v, e)
  {}

  lemma {:induction false} WindowedFits(e: Edit, v: seq<Tracked>, next: nat, a: nat, b: nat)
    requires WellFormed([e]) && IsStore(v, next) && Bands(e, v, a, b)
    ensures var mid := MovedBy([e], v[a..b]);
            && Sorted(mid, LastStart(v[..a], 0))
            && (b < |v| ==> LastStart(mid, LastStart(v[..a], 0)) <= v[b].start + Delta(e))
  {
    hide Remap, MovedBy, Ordered, DistinctIds, Sorted, LastStart, UprightRanges;
    var mid := MovedBy([e], v[a..b]);
    WindowedIsOrdered(e, v, a, b);
    ShiftFits(e, v, a, b);
    var tail := Moved(v[b..], Delta(e));
    OrderedHead(v[..a] + mid, tail);
    OrderedParts(v, a, b);
    MovedByIsAStore([e], v[a..b]);
    SortedAfter(v[..a], mid);
    if b < |v| {
      SeamOrdered(v[..a], mid, tail);
      assert tail[0] == Shifted(v[b], Delta(e));
    }
  }

  lemma {:induction false} StoreDistinct(v: seq<Tracked>, next: nat)
    requires IsStore(v, next)
    ensures DistinctIds(v)
  {}

  lemma {:induction false} GoneFrom(p: Patch, v: seq<Tracked>, next: nat, w: seq<Tracked>)
    requires IsStore(v, next) && WellFormed(p) && MovedAlike(p, v, w)
    ensures forall r | r in v && (r.start < r.end || !r.kind.DropsWhenEmpty()) ::
              (exists m :: m in w && m.id == r.id) <==> !Goes(p, r)
  {
    hide MovedAlike, WellFormed, Goes, Ordered;
    forall r | r in v && (r.start < r.end || !r.kind.DropsWhenEmpty())
      ensures (exists m :: m in w && m.id == r.id) <==> !Goes(p, r)
    {
      GoneAlike(p, v, w, r);
    }
  }

  lemma {:induction false} NothingInside(v: seq<Tracked>, b: nat, f: Tracked -> bool)
    requires b <= |v|
    ensures Select(v[b..b], f) == []
  {}

  lemma {:induction false} WindowedParts(e: Edit, v: seq<Tracked>, a: nat, b: nat)
    requires WellFormed([e]) && UprightRanges(v) && Bands(e, v, a, b)
    ensures a <= b <= |v|
    ensures forall i | 0 <= i < |v[b..]| :: v[b..][i].start + Delta(e) >= 0 && v[b..][i].start <= v[b..][i].end
    ensures Windowed(e, v, a, b) == v[..a] + SortRanges(Remap([e], v[a..b])) + Moved(v[b..], Delta(e))
  {
    hide WellFormed, Remap, SortRanges;
    ShiftFits(e, v, a, b);
  }

  /** Whatever it leaves behind, the windowed mover leaves a store. */
  lemma {:induction false} WindowedIsStore(e: Edit, v: seq<Tracked>, next: nat, a: nat, b: nat)
    requires WellFormed([e]) && IsStore(v, next) && Bands(e, v, a, b)
    ensures IsStore(Windowed(e, v, a, b), next)
  {
    hide Ordered, Before, MovedBy, DistinctIds, WellFormed;
    WindowedIsOrdered(e, v, a, b);
    OrderedParts(v, a, b);
    ShiftFits(e, v, a, b);
    SliceIsStore(v, next, a, b);
    MovedIsStore([e], v[a..b], next);
    MovedByIsAStore([e], v[a..b]);
    WindowedDistinct(v, a, b, MovedBy([e], v[a..b]), Moved(v[b..], Delta(e)));
  }

  lemma {:induction false} SliceIsStore(v: seq<Tracked>, next: nat, a: nat, b: nat)
    requires IsStore(v, next) && a <= b <= |v|
    ensures IsStore(v[a..b], next)
  {
    hide Before;
    OrderedParts(v, a, b);
  }

  lemma {:induction false} WindowedDistinct(v: seq<Tracked>, a: nat, b: nat, mid: seq<Tracked>, tail: seq<Tracked>)
    requires a <= b <= |v| && DistinctIds(v) && DistinctIds(mid)
    requires forall r | r in mid :: exists i | 0 <= i < |v[a..b]| :: v[a..b][i].id == r.id
    requires |tail| == |v| - b && forall i | 0 <= i < |tail| :: tail[i].id == v[b + i].id
    ensures DistinctIds(v[..a] + mid + tail)
  {
    forall j | 0 <= j < |mid| ensures exists k :: a <= k < b && v[k].id == mid[j].id {
      assert mid[j] in mid;
      var i :| 0 <= i < |v[a..b]| && v[a..b][i].id == mid[j].id;
      assert v[a + i].id == mid[j].id;
    }
    var w := v[..a] + mid + tail;
    forall i, j | 0 <= i < j < |w| ensures w[i].id != w[j].id {
      var n := |mid|;
      if i < a && a <= j < a + n { assert w[j] == mid[j - a]; }
      if a <= i < a + n {
        assert w[i] == mid[i - a];
        if j < a + n { assert w[j] == mid[j - a]; } else { assert w[j] == tail[j - a - n]; }
      }
      if i >= a + n { assert w[i] == tail[i - a - n] && w[j] == tail[j - a - n]; }
      if i < a && j >= a + n { assert w[j] == tail[j - a - n]; }
    }
  }

  lemma {:induction false} MovedIsStore(p: Patch, v: seq<Tracked>, next: nat)
    requires WellFormed(p) && IsStore(v, next)
    ensures IsStore(MovedBy(p, v), next)
    ensures DistinctIds(Remap(p, v)) && UprightRanges(Remap(p, v))
    ensures forall i | 0 <= i < |Remap(p, v)| :: Remap(p, v)[i].id < next
    ensures Ordered(SortRanges(Remap(p, v)))
    ensures Ordered(Remap(p, v)) ==> IsStore(Remap(p, v), next)
  {
    hide Ordered, DistinctIds, SortRanges, Survives, Ride;
    var w := Remap(p, v);
    RemapDistinct(p, v);
    forall i | 0 <= i < |w| ensures w[i].id < next && w[i].start <= w[i].end {
      var k := RemapOrigin(p, v, w[i]);
    }
    SortedIsStore(w, next);
  }

  /** Whether some neighbours are out of `(start, id)` order. */
  method OutOfOrder(v: seq<Tracked>) returns (r: bool)
    requires DistinctIds(v)
    ensures !r ==> Ordered(v)
  {
    r := false;
    for i := 0 to |v|
      invariant !r ==> Ordered(v[..i])
    {
      assert v[..i + 1] == v[..i] + [v[i]];
      if i > 0 {
        if Before(v[i], v[i - 1]) {
          r := true;
        } else if !r {
          assert v[i].id != v[i - 1].id;
          OrderedSnoc(v[..i], v[i]);
        }
      }
    }
    assert v[..|v|] == v;
  }

  lemma {:induction false} OrderedSnoc(v: seq<Tracked>, r: Tracked)
    requires Ordered(v) && v != [] && Before(v[|v| - 1], r)
    ensures Ordered(v + [r])
  {
    forall i | 0 <= i < |v| ensures Before(v[i], r) {
      if i < |v| - 1 { assert Before(v[i], v[|v| - 1]); }
    }
  }

  // ----- the store -----

  class DecorationStore {
    /** Delta-gap items in `(start, id)` order. */
    var tree: DTree

    /** The next identity; never handed out twice. */
    var nextId: nat

    ghost predicate Valid()
      reads this
    {
      SumTrees.Valid(DECOS, tree) && IsStore(Ranges(tree), nextId)
    }

    ghost function Contents(): seq<Tracked>
      reads this
    {
      Ranges(tree)
    }

    constructor ()
      ensures Valid() && Contents() == [] && nextId == 1
    {
      tree := Empty(DECOS);
      nextId := 1;
    }

    method Mint() returns (id: nat)
      modifies this`nextId
      ensures id == old(nextId) && nextId == id + 1
    {
      id := nextId;
      nextId := nextId + 1;
    }

    method MintBatch(spans: seq<Span>, kind: Kind, stickiness: Stickiness) returns (batch: seq<Tracked>, ids: seq<nat>)
      modifies this`nextId
      ensures batch == Minted(spans, kind, stickiness, old(nextId)) && nextId == old(nextId) + |spans|
      ensures |ids| == |spans| && forall i | 0 <= i < |ids| :: ids[i] == old(nextId) + i
    {
      batch, ids := [], [];
      for i := 0 to |spans|
        invariant nextId == old(nextId) + i && |ids| == i && |batch| == i
        invariant forall j | 0 <= j < i :: ids[j] == old(nextId) + j
        invariant forall j | 0 <= j < i ::
                    batch[j] == Tracked(old(nextId) + j, spans[j].start, spans[j].end, kind, stickiness)
      {
        var id := Mint();
        ids := ids + [id];
        batch := batch + [Tracked(id, spans[i].start, spans[i].end, kind, stickiness)];
      }
    }

    method SetSorted(v: seq<Tracked>)
      requires DistinctIds(v) && UprightRanges(v) && forall i | 0 <= i < |v| :: v[i].id < nextId
      modifies this`tree
      ensures Valid() && Contents() == SortRanges(v)
    {
      hide Items, Decode, SumTrees.Valid, SortRanges, Ordered, DistinctIds, UprightRanges;
      SortedIsStore(v, nextId);
      StoreSorted(SortRanges(v), nextId);
      tree := Rebuild(SortRanges(v), 0);
    }

    /** Insert one range under a new identity. */
    method AddDecoration(span: Span, kind: Kind, stickiness: Stickiness) returns (id: nat)
      requires Valid() && span.start <= span.end
      modifies this
      ensures Valid() && id == old(nextId) && nextId == id + 1
      ensures Contents() == SortRanges(old(Contents()) + [Tracked(id, span.start, span.end, kind, stickiness)])
    {
      hide Items, Decode, SumTrees.Valid, SortRanges, Ordered, DistinctIds, UprightRanges;
      var v := Materialize(tree, 0);
      WithMinted(v, nextId, [span], kind, stickiness);
      id := Mint();
      var added := Tracked(id, span.start, span.end, kind, stickiness);
      assert Minted([span], kind, stickiness, id) == [added];
      StoreIds(v, id);
      SetSorted(v + [added]);
    }

    /** Insert a batch by sorting the whole store once. */
    method AddSortedBatch(spans: seq<Span>, kind: Kind, stickiness: Stickiness) returns (ids: seq<nat>)
      requires Valid() && Upright(spans)
      modifies this
      ensures Valid() && nextId == old(nextId) + |spans|
      ensures |ids| == |spans| && forall i | 0 <= i < |ids| :: ids[i] == old(nextId) + i
      ensures Contents() == SortRanges(old(Contents()) + Minted(spans, kind, stickiness, old(nextId)))
    {
      hide Items, Decode, SumTrees.Valid, SortRanges, Ordered, DistinctIds, UprightRanges;
      var v := Materialize(tree, 0);
      WithMinted(v, nextId, spans, kind, stickiness);
      StoreIds(v, nextId);
      var batch;
      batch, ids := MintBatch(spans, kind, stickiness);
      if ids != [] {
        SetSorted(v + batch);
      } else {
        assert v + Minted(spans, kind, stickiness, old(nextId)) == v;
        SortOfStore(v, nextId);
      }
    }

    /** Insert a rising batch into its index band, sharing everything outside: the same identities
        and the same store as sorting the whole. */
    method SpliceSortedBatch(spans: seq<Span>, kind: Kind, stickiness: Stickiness) returns (ids: seq<nat>)
      requires Valid() && Upright(spans) && Rising(spans)
      modifies this
      ensures Valid() && nextId == old(nextId) + |spans|
      ensures |ids| == |spans| && forall i | 0 <= i < |ids| :: ids[i] == old(nextId) + i
      ensures Contents() == SortRanges(old(Contents()) + Minted(spans, kind, stickiness, old(nextId)))
    {
      hide Upright, Rising, SortRanges, Minted, Decode, Items, DistinctIds, UprightRanges, Ordered;
      ghost var v := Ranges(tree);
      WithMinted(v, nextId, spans, kind, stickiness);
      if spans == [] {
        assert v + Minted(spans, kind, stickiness, old(nextId)) == v;
        SortOfStore(v, nextId);
        return [];
      }
      var batch;
      batch, ids := MintBatch(spans, kind, stickiness);
      BatchExtent(spans, kind, stickiness, old(nextId));
      var lo, hi := spans[0].start, spans[|spans| - 1].start;
      tree := MergeBand(tree, batch, lo, hi);
    }

    /** Remove and return, in order, the ranges touching the window that `pred` accepts; only the
        band that can touch is rewritten. */
    method TakeMatchingIn(qs: nat, qe: nat, pred: Tracked -> bool) returns (removed: seq<Tracked>)
      requires Valid()
      modifies this`tree
      ensures Valid()
      ensures removed == Select(old(Contents()), Accepted(qs, qe, pred))
      ensures Contents() == Select(old(Contents()), Refused(qs, qe, pred))
    {
      hide Select, Accepted, Accepts, Refused, Decode, Items, IsStore, BandFrom, StartsBefore, SummaryBefore,
           StartDim, Fold, Sorted, LastStart, UprightRanges, AddSummary, MeasureItem, Moved;
      ghost var v := Ranges(tree);
      SelectIsStore(v, Refused(qs, qe, pred), nextId);
      var wl := LeftmostTouching(tree, qs, qe);
      ghost var b := PrefixOfStarts(tree, qe + 1);
      if wl == None {
        BandRemovalIsRemoval(v, nextId, qs, qe, pred, wl, b, b);
        NothingInside(v, b, Accepted(qs, qe, pred));
        RefusedIsComplement(v, qs, qe, pred);
        return [];
      }
      ghost var a := PrefixOfStarts(tree, wl.value);
      BandRemovalIsRemoval(v, nextId, qs, qe, pred, wl, a, b);
      TreeUpright(tree);
      var kHi := SummaryBefore(DECOS, StartDim, tree, qe + 1).count;
      var kLo := SummaryBefore(DECOS, StartDim, tree, wl.value).count;
      var left, middle, zoneC, from := SplitBand(tree, kLo, kHi);
      var band := Materialize(middle, from);
      var survivors;
      removed, survivors := Partition(band, qs, qe, pred);
      if removed == [] {
        RefusedIsComplement(v, qs, qe, pred);
        return;
      }
      tree := Reassemble(tree, left, zoneC, from, kLo, kHi, survivors, 0);
      UprightSlice(v, b);
      MovedByZero(v[b..]);
    }

    /** The mover: ride every range across the patch.  Every range the whole-store rewrite keeps is
        there; beside them at most an empty range of a dropping kind stays.  With none in the store
        before, the result is the whole-store rewrite, and again holds none. */
    method ApplyPatch(p: Patch)
      requires Valid() && WellFormed(p)
      modifies this`tree
      ensures Valid()
      ensures p == [] ==> Contents() == old(Contents())
      ensures p != [] ==>
                (Contents() == MovedBy(p, old(Contents())) <==> |p| > 1 || QuietAway(old(Contents()), p[0]))
      ensures p != [] ==> MovedAlike(p, old(Contents()), Contents())
      ensures old(NoEmptyDrops(Contents())) ==>
                NoEmptyDrops(Contents()) && (p != [] ==> Contents() == MovedBy(p, old(Contents())))
      ensures p != [] ==>
                forall r | r in old(Contents()) && (r.start < r.end || !r.kind.DropsWhenEmpty()) ::
                  (exists m :: m in Contents() && m.id == r.id) <==> !Goes(p, r)
    {
      hide WellFormed, Goes, NoEmptyDrops, MovedBy, DistinctIds, Ordered, UprightRanges, Bands, QuietAway, Windowed,
           LeftBehind;
      if p == [] { return; }
      ghost var v0 := Contents();
      StoreDistinct(Contents(), nextId);
      MovedByIsAStore(p, Contents());
      if |p| == 1 {
        assert p == [p[0]];
        ghost var v := Contents();
        ghost var a, b := ApplySingleEdit(p[0]);
        if NoEmptyDrops(v) { NoneIsQuiet(v, p[0]); }
      } else {
        ApplyPatchNaive(p);
      }
      GoneFrom(p, v0, nextId, Contents());
    }

    /** Rewrite the whole store, sorting only if the starts came out of order. */
    method ApplyPatchNaive(p: Patch)
      requires Valid() && WellFormed(p)
      modifies this`tree
      ensures Valid() && Contents() == MovedBy(p, old(Contents()))
    {
      hide WellFormed, Decode, Items, DistinctIds, Remap, UprightRanges, Ordered, SortRanges, Sorted;
      var v := Materialize(tree, 0);
      MovedIsStore(p, v, nextId);
      var w := RemapRanges(p, v);
      var disordered := OutOfOrder(w);
      if disordered {
        SetSorted(w);
      } else {
        OrderIsUnique(SortRanges(w), w);
        StoreSorted(w, nextId);
        tree := Rebuild(w, 0);
      }
    }

    /** The windowed mover of one edit: the left band shared, the middle remapped, the right band
        moved at one seam.  It is the whole-store rewrite exactly when every empty range of a dropping
        kind starts between the leftmost range touching the edit and the edit's old end. */
    method ApplySingleEdit(e: Edit) returns (ghost a: nat, ghost b: nat)
      requires Valid() && WellFormed([e])
      modifies this`tree
      ensures UprightRanges(old(Contents())) && Bands(e, old(Contents()), a, b)
      ensures Contents() == Windowed(e, old(Contents()), a, b)
      ensures Valid()
      ensures Contents() == MovedBy([e], old(Contents())) <==> QuietAway(old(Contents()), e)
      ensures MovedAlike([e], old(Contents()), Contents())
    {
      hide MovedAlike, QuietAway, Windowed, Touches, WellFormed, Bands, AddSummary, MeasureItem, Ordered, QuietOutside,
           Decode, Items, BandFrom, StartsBefore, SummaryBefore, StartDim, Fold, Mapped, MapWithin, Delta, Sorted,
           LastStart, UprightRanges, DistinctIds, Remap, SortRanges, Moved;
      ghost var v := Ranges(tree);
      var wl := LeftmostTouching(tree, e.os, e.oe);
      b := PrefixOfStarts(tree, e.oe + 1);
      var kHi := SummaryBefore(DECOS, StartDim, tree, e.oe + 1).count;
      var kLo := kHi;
      a := b;
      if wl.Some? {
        kLo := SummaryBefore(DECOS, StartDim, tree, wl.value).count;
        a := PrefixOfStarts(tree, wl.value);
      }
      MapSingle(e, e.os, Left);
      CutIsBands(e, v, wl, a, b);
      QuietAwayIsQuiet(e, v, wl, a, b);
      WindowedFits(e, v, nextId, a, b);
      WindowedIsStore(e, v, nextId, a, b);
      WindowedIsWholeStore(e, v, a, b);
      WindowedAlike(e, v, a, b);
      TreeUpright(tree);
      WindowedParts(e, v, a, b);
      var left, middle, zoneC, from := SplitBand(tree, kLo, kHi);
      var band := Materialize(middle, from);
      var mv := RemapRanges([e], band);
      var mid := SortRanges(mv);
      MovedIsStore([e], v, nextId);
      tree := Reassemble(tree, left, zoneC, from, kLo, kHi, mid, Delta(e));
    }
  }
}
