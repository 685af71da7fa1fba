/**
 The memoised fold map: built afresh from the folded pairs, then shifted in place through edits.
 Whenever the in-place shift is taken for an edit outside every folded pair, the map is the one a
 fresh build would give; of any edits that replace no folded bracket it is said exactly which folds
 go with their brackets, and when together they are the fresh ones.
 */
module FoldMaps {
  import opened Base
  import opened Patches
  import opened SumTrees
  import opened TextRows
  import opened FoldPairs
  import opened FoldCarries
  import C = PatchCarries
  import R = FoldRows
  import B = FoldRoots
  import I = FoldInlines

  // ----- encoding blocks -----

  /** Ascending blocks, the first at or below `from`. */
  ghost predicate Encodable(bs: seq<R.FoldedRegion>, from: nat) {
    && (forall i | 0 <= i < |bs| :: bs[i].header <= bs[i].last)
    && (forall i, j | 0 <= i < j < |bs| :: bs[i].last <= bs[j].header)
    && (bs != [] ==> from <= bs[0].header)
  }

  lemma {:induction false} DisjoinedEncodable(bs: seq<R.FoldedRegion>)
    requires R.Disjoined(bs)
    ensures Encodable(bs, 0)
  {}

  /** Delta-gap encode ascending blocks. */
  method EncodeBlocks(bs: seq<R.FoldedRegion>) returns (items: seq<R.Region>)
    requires Encodable(bs, 0)
    ensures R.Decode(items, 0) == bs
  {
    hide R.Decode, Fold;
    var prevLast: nat := 0;
    items := [];
    DecodeNothing(0);
    LastOfNothing();
    for i := 0 to |bs|
      invariant R.Decode(items, 0) == bs[..i]
      invariant prevLast == R.LastDim(Fold(R.REGIONS, items))
      invariant prevLast == if i == 0 then 0 else bs[i - 1].last
    {
      var r := bs[i];
      if i > 0 { assert bs[i - 1].last <= bs[i].header; }
      var item := R.Region(r.header - prevLast, r.last - r.header);
      DecodeSnoc(items, item);
      assert bs[..i + 1] == bs[..i] + [r];
      items := items + [item];
      prevLast := r.last;
    }
    assert bs[..|bs|] == bs;
  }

  lemma {:induction false} DecodeNothing(from: nat)
    ensures R.Decode([], from) == []
  {}

  lemma {:induction false} LastOfNothing()
    ensures R.LastDim(Fold(R.REGIONS, [])) == 0
  {}

  lemma {:induction false} DecodeSnoc(items: seq<R.Region>, it: R.Region)
    ensures var last := R.LastDim(Fold(R.REGIONS, items));
            && R.Decode(items + [it], 0) == R.Decode(items,
                                                     0) + [R.FoldedRegion(last + it.vgap, last + it.vgap + it.span)]
            && R.LastDim(Fold(R.REGIONS, items + [it])) == last + it.vgap + it.span
  {
    hide Fold, R.LastDim;
    R.DecodeConcat(items, [it], 0);
    assert [it][1..] == [];
    LastSnoc(items, it);
  }

  lemma {:induction false} LastSnoc(items: seq<R.Region>, it: R.Region)
    ensures R.LastDim(Fold(R.REGIONS, items + [it])) == R.LastDim(Fold(R.REGIONS, items)) + it.vgap + it.span
  {
    hide R.LastDim;
    assert (items + [it])[..|items|] == items;
    R.LastSum(Fold(R.REGIONS, items), R.MeasureRegion(it));
    LastOfOne(it);
  }

  lemma {:induction false} LastOfOne(it: R.Region)
    ensures R.LastDim(R.MeasureRegion(it)) == it.vgap + it.span
  {}

  // ----- encoding inline folds -----

  /** Delta-gap encode ascending inline folds. */
  method BuildInline(fs: seq<I.InlineFold>) returns (t: I.ITree)
    requires I.Ascending(fs)
    ensures Valid(I.INLINES, t) && I.Folds(t) == fs
  {
    hide I.Encode, I.Decode, FromItems, Valid, Items;
    InlineFromZero(fs);
    I.DecodeEncode(fs, 0, 0);
    t := FromItems(I.INLINES, I.Encode(fs, 0, 0));
    FromItemsCorrect(I.INLINES, I.Encode(fs, 0, 0));
  }

  lemma {:induction false} InlineFromZero(fs: seq<I.InlineFold>)
    requires I.Ascending(fs)
    ensures I.AscendingFrom(fs, 0, 0)
  {}

  // ----- reanchoring a suffix of blocks -----

  /** A suffix of blocks with its first gap rewritten moves as one. */
  lemma {:induction false} RegapMoves(items: seq<R.Region>, k: nat, d: int)
    requires k < |items| && items[k].vgap + d >= 0
    ensures var fixed := [R.Region(items[k].vgap + d, items[k].span)] + items[k + 1..];
            R.Decode(items[..k] + fixed, 0) == R.Decode(items, 0)[..k] + B.ShiftRows(R.Decode(items, 0)[k..], d)
  {
    hide Fold;
    var fixed := [R.Region(items[k].vgap + d, items[k].span)] + items[k + 1..];
    R.DecodeConcat(items[..k], fixed, 0);
    R.DecodeConcat(items[..k], items[k..], 0);
    assert items[..k] + items[k..] == items;
    var from := R.LastDim(Fold(R.REGIONS, items[..k]));
    assert fixed[1..] == items[k + 1..] && items[k..][1..] == items[k + 1..] && items[k..][0] == items[k];
    DecodeShift(items[k + 1..], from + items[k].vgap + items[k].span, d);
  }

  lemma {:induction false} DecodeShift(items: seq<R.Region>, from: nat, d: int)
    requires from + d >= 0
    ensures R.Decode(items, from + d) == B.ShiftRows(R.Decode(items, from), d)
    decreases |items|
  {
    if items != [] {
      DecodeShift(items[1..], from + items[0].vgap + items[0].span, d);
      assert R.Decode(items, from)[1..] == R.Decode(items[1..], from + items[0].vgap + items[0].span);
    }
  }

  /** Rewrite the first gap of the blocks from `k` on. */
  method RegapRegions(t: R.RTree, k: nat, d: int) returns (r: R.RTree)
    requires Valid(R.REGIONS, t) && k < |Items(t)| && Items(t)[k].vgap + d >= 0
    ensures Valid(R.REGIONS, r) && R.Blocks(r) == R.Blocks(t)[..k] + B.ShiftRows(R.Blocks(t)[k..], d)
  {
    hide R.Decode, Fold, Valid, Items, SplitAt, Append, Replace, B.ShiftRows, Seek;
    R.RegionsAreAMonoid();
    R.RegionsCount();
    ghost var items := Items(t);
    var cut := SplitAt(R.REGIONS, R.RegionCount, t, k);
    var before, suffix := cut.0, cut.1;
    R.HiddenAdds();
    SeekByCount(R.REGIONS, R.RegionCount, R.HiddenDim, suffix, 0);
    var first := Seek(R.REGIONS, R.RegionCount, R.HiddenDim, suffix, 0).value.item;
    var fixed := R.Region(first.vgap + d, first.span);
    var moved := Replace(R.REGIONS, R.RegionCount, suffix, 0, 1, [fixed]);
    assert items[k..][1..] == items[k + 1..] && items[k..][..0] + [fixed] == [fixed];
    RegapMoves(items, k, d);
    r := Append(R.REGIONS, before, moved);
  }

  // ----- reanchoring a suffix of inline folds -----

  lemma {:induction false} InlineRegapMoves(items: seq<I.InlineItem>, k: nat, delta: int, d: int)
    requires k < |items| && items[k].openGap + delta >= 0 && items[k].rowGap + d >= 0
    ensures var fixed := [I.InlineItem(items[k].openGap + delta, items[k].width, items[k].rowGap + d)] + items[k + 1..];
            I.Decode(items[..k] + fixed, 0, 0) == I.Decode(items, 0, 0)[..k] + I.ShiftFolds(I.Decode(items, 0, 0)[k..],
              delta, d)
  {
    hide Fold;
    var fixed := [I.InlineItem(items[k].openGap + delta, items[k].width, items[k].rowGap + d)] + items[k + 1..];
    I.DecodeConcat(items[..k], fixed, 0, 0);
    I.DecodeConcat(items[..k], items[k..], 0, 0);
    assert items[..k] + items[k..] == items;
    var o, w := I.OpenDim(Fold(I.INLINES, items[..k])), I.RowDim(Fold(I.INLINES, items[..k]));
    assert fixed[1..] == items[k + 1..] && items[k..][1..] == items[k + 1..] && items[k..][0] == items[k];
    InlineDecodeShift(items[k + 1..], o + items[k].openGap, w + items[k].rowGap, delta, d);
  }

  lemma {:induction false} InlineDecodeShift(items: seq<I.InlineItem>, open: nat, row: nat, delta: int, d: int)
    requires open + delta >= 0 && row + d >= 0
    ensures I.Decode(items, open + delta, row + d) == I.ShiftFolds(I.Decode(items, open, row), delta, d)
    decreases |items|
  {
    if items != [] {
      InlineDecodeShift(items[1..], open + items[0].openGap, row + items[0].rowGap, delta, d);
      assert I.Decode(items, open, row)[1..] == I.Decode(items[1..], open + items[0].openGap, row + items[0].rowGap);
    }
  }

  method RegapInlines(t: I.ITree, k: nat, delta: int, d: int) returns (r: I.ITree)
    requires Valid(I.INLINES, t) && k < |Items(t)| && Items(t)[k].openGap + delta >= 0 && Items(t)[k].rowGap + d >= 0
    ensures Valid(I.INLINES, r) && I.Folds(r) == I.Folds(t)[..k] + I.ShiftFolds(I.Folds(t)[k..], delta, d)
  {
    hide I.Decode, Fold, Valid, Items, SplitAt, Append, Replace, I.ShiftFolds, Seek;
    I.InlinesAreAMonoid();
    I.InlinesCount();
    I.OpenAdds();
    ghost var items := Items(t);
    var cut := SplitAt(I.INLINES, I.InlineCount, t, k);
    var before, suffix := cut.0, cut.1;
    SeekByCount(I.INLINES, I.InlineCount, I.OpenDim, suffix, 0);
    var it := Seek(I.INLINES, I.InlineCount, I.OpenDim, suffix, 0).value.item;
    var fixed := I.InlineItem(it.openGap + delta, it.width, it.rowGap + d);
    var moved := Replace(I.INLINES, I.InlineCount, suffix, 0, 1, [fixed]);
    assert items[k..][1..] == items[k + 1..] && items[k..][..0] + [fixed] == [fixed];
    InlineRegapMoves(items, k, delta, d);
    r := Append(I.INLINES, before, moved);
  }

  // ----- the edit, on the decoded lists -----

  /** What the seam probe of a row-changing edit finds. */
  ghost predicate CutByRow(bs: seq<R.FoldedRegion>, row: nat, k: nat) {
    k <= |bs| && forall i | 0 <= i < |bs| :: bs[i].last <= row <==> i < k
  }

  /** The roots above the edit are the ones before the seam. */
  lemma {:induction false} SeamIsCut(ra: seq<R.FoldedRegion>, rb: seq<R.FoldedRegion>, row: nat, k: nat)
    requires CutByRow(ra + rb, row, k)
    requires (forall x | x in ra :: x.last <= row) && (forall y | y in rb :: row <= y.header < y.last)
    ensures k == |ra| && (ra + rb)[..k] == ra && (ra + rb)[k..] == rb
  {
    var bs := ra + rb;
    if |ra| < |bs| {
      assert bs[|ra|] == rb[0] && rb[0] in rb;
    }
    if |ra| > 0 {
      assert bs[|ra| - 1] == ra[|ra| - 1] && ra[|ra| - 1] in ra;
    }
  }

  /** A block's gap, from its neighbours' rows. */
  lemma {:induction false} GapOfBlock(t: R.RTree, k: nat)
    requires k < |Items(t)|
    ensures Items(t)[k].vgap == R.Blocks(t)[k].header - if k == 0 then 0 else R.Blocks(t)[k - 1].last
  {
    hide R.Decode, Fold;
    R.DecodeAt(Items(t), k);
    if k > 0 { R.DecodeAt(Items(t), k - 1); } else { assert Items(t)[..0] == []; LastOfNothing(); }
  }

  lemma {:induction false} GapOfInline(t: I.ITree, k: nat)
    requires k < |Items(t)|
    ensures Items(t)[k].openGap == I.Folds(t)[k].open - if k == 0 then 0 else I.Folds(t)[k - 1].open
    ensures Items(t)[k].rowGap == I.Folds(t)[k].row - if k == 0 then 0 else I.Folds(t)[k - 1].row
  {
    hide I.Decode;
    I.DecodeAt(Items(t), k);
    if k > 0 {
      I.DecodeAt(Items(t), k - 1);
      assert Items(t)[..k][..k - 1] == Items(t)[..k - 1];
    } else {
      assert Items(t)[..0] == [];
    }
  }

  /** The first inline fold after an edit that touches none has room to move. */
  lemma {:induction false} InlineRoom(e: Edit, before: Text, after: Text, ps: seq<FoldPair>, t: I.ITree, k: nat)
    requires Rewrites([e], before, after) && PairsIn(|before|, ps) && Nested(ps)
             && I.Folds(t) == FreshInline(before, ps)
    requires !(exists f :: f in I.Folds(t) && f.open <= e.oe && f.close >= e.os)
    requires k < |I.Folds(t)| && forall i | 0 <= i < |I.Folds(t)| :: I.Folds(t)[i].open < e.os <==> i < k
    ensures |Items(t)| == |I.Folds(t)|
    ensures Items(t)[k].openGap + Delta(e) >= 0 && Items(t)[k].rowGap + RowDelta(before, after) >= 0
  {
    hide Rewrites, I.Decode, FreshInline, RowOf, Nested, InlinesOf;
    var fs := I.Folds(t);
    LengthAfter(e, before, after);
    GapOfInline(t, k);
    FreshInlineShape(before, ps);
    assert fs[k] in fs && !(fs[k].open < e.os);
    I.FoldUpright(t, k);
    var p := InlineSource(before, ps, fs[k]);
    RowsAfter(e, before, after, p.open);
    if k > 0 {
      assert fs[k - 1] in fs && fs[k - 1].open < e.os;
      var q := InlineSource(before, ps, fs[k - 1]);
      RowsBefore(e, before, after, q.open);
      RowMonotone(after, q.open, p.open + Delta(e));
    } else {
      assert p.open + Delta(e) >= 0;
    }
  }

  lemma {:induction false} ResolveStep(t: Text, ps: seq<FoldPair>, i: nat, blocks: seq<R.FoldedRegion>,
                                       inline: seq<I.InlineFold>)
    requires i < |ps| && PairsIn(|t|, ps[i..])
    ensures PairsIn(|t|, ps[i + 1..]) && ps[i].open < ps[i].close < |t|
    ensures (blocks + BlockOf(t, ps[i])) + BlocksOf(t, ps[i + 1..]) == blocks + BlocksOf(t, ps[i..])
    ensures (inline + InlineOf(t, ps[i])) + InlinesOf(t, ps[i + 1..]) == inline + InlinesOf(t, ps[i..])
    ensures blocks + [] == blocks && inline + [] == inline
  {
    hide *;
    assert ps[i..][0] == ps[i] && ps[i..][1..] == ps[i + 1..];
    BlocksCons(t, ps[i..]);
    Regroup(blocks, BlockOf(t, ps[i]), BlocksOf(t, ps[i + 1..]));
    Regroup(inline, InlineOf(t, ps[i]), InlinesOf(t, ps[i + 1..]));
  }

  /** Resolve every pair: a block if it spans rows, an inline fold if it has an interior. */
  method Resolve(t: Text, ps: seq<FoldPair>) returns (blocks: seq<R.FoldedRegion>, inline: seq<I.InlineFold>)
    requires PairsIn(|t|, ps)
    ensures blocks == BlocksOf(t, ps) && inline == InlinesOf(t, ps)
  {
    hide PairsIn, BlocksOf, InlinesOf, RowOf;
    blocks, inline := [], [];
    assert ps[0..] == ps;
    for i := 0 to |ps|
      invariant PairsIn(|t|, ps[i..])
      invariant blocks + BlocksOf(t, ps[i..]) == BlocksOf(t, ps) && inline + InlinesOf(t, ps[i..]) == InlinesOf(t, ps)
    {
      ResolveStep(t, ps, i, blocks, inline);
      var header, last := RowOf(t, ps[i].open), RowOf(t, ps[i].close);
      if last > header {
        blocks := blocks + [R.FoldedRegion(header, last)];
      } else if ps[i].close > ps[i].open + 1 {
        inline := inline + [I.InlineFold(header, ps[i].open, ps[i].close)];
      }
    }
    NothingLeft(t, ps);
  }

  lemma {:induction false} NothingLeft(t: Text, ps: seq<FoldPair>)
    requires PairsIn(|t|, ps[|ps|..])
    ensures BlocksOf(t, ps[|ps|..]) == [] && InlinesOf(t, ps[|ps|..]) == []
  {}

  method RideAll(p: Patch, fs: seq<I.InlineFold>) returns (v: seq<I.InlineFold>)
    requires WellFormed(p)
    ensures v == RideFolds(p, fs)
  {
    hide Mapped, WellFormed;
    v := [];
    for i := 0 to |fs|
      invariant |v| == i && forall j | 0 <= j < i :: v[j] == RideFold(p, fs[j])
    {
      v := v + [RideFold(p, fs[i])];
    }
  }

  lemma {:induction false} InlineCountIs(t: I.ITree)
    requires Valid(I.INLINES, t)
    ensures t.summary.count == |I.Folds(t)|
  {
    hide Fold;
    I.InlinesAreAMonoid();
    I.InlinesCount();
    RootCount(I.INLINES, I.InlineCount, t);
  }

  /** The seam shift takes every fold with its brackets. */
  lemma {:induction false} SeamShift(e: Edit, before: Text, after: Text, ps: seq<FoldPair>, t: I.ITree, k: nat)
    requires Rewrites([e], before, after) && PairsIn(|before|, ps) && Nested(ps)
             && I.Folds(t) == FreshInline(before, ps)
    requires !(exists f :: f in I.Folds(t) && f.open <= e.oe && f.close >= e.os)
    requires k <= |I.Folds(t)| && forall i | 0 <= i < |I.Folds(t)| :: I.Folds(t)[i].open < e.os <==> i < k
    ensures var w := I.Folds(t)[..k] + I.ShiftFolds(I.Folds(t)[k..], Delta(e), RowDelta(before, after));
            && (k == |I.Folds(t)| ==> w == I.Folds(t))
            && (Spared([e], ps) ==> Moved([e], before, after, ps, true, w))
  {
    hide Rewrites, FreshInline, Nested, I.Decode, RowDelta, Tracks, Follows, KeepsShown, Spared, PairsIn, WellFormed;
    var fs := I.Folds(t);
    var w := fs[..k] + I.ShiftFolds(fs[k..], Delta(e), RowDelta(before, after));
    RewritesWellFormed([e], before, after);
    if Spared([e], ps) {
      FreshSpared([e], before, ps);
      SeamFollows(e, before, after, fs, k);
      FollowTracks([e], before, after, ps, w);
      MovedIsFresh([e], before, after, ps, w);
      CarriedIn([e], before, after, ps);
    }
  }

  /** What becomes of the folds under edits that replace no bracket of a folded pair: each goes with
      its brackets where the seam takes it or where it is steady, and together they are the fresh
      folds exactly when all do and the pairs that show are the ones that did. */
  ghost predicate Moved(p: Patch, before: Text, after: Text, ps: seq<FoldPair>, seam: bool, w: seq<I.InlineFold>)
    requires Rewrites(p, before, after) && PairsIn(|before|, ps) && Nested(ps) && Spared(p, ps)
  {
    RewritesWellFormed(p, before, after);
    CarriedIn(p, before, after, ps);
    var fs := FreshInline(before, ps);
    && |w| == |fs|
    && (forall i | 0 <= i < |fs| :: Follows(p, after, fs[i], w[i]) <==> seam || Steady(p, after, fs[i]))
    && (w == FreshInline(after, CarriedPairs(p, ps))
        <==> KeepsShown(p, before, after, ps) && (seam || forall f | f in fs :: Steady(p, after, f)))
  }

  /** The fallback takes exactly the steady folds with their brackets. */
  lemma {:induction false} FallbackRides(p: Patch, before: Text, after: Text, ps: seq<FoldPair>)
    requires Rewrites(p, before, after) && WellFormed(p) && PairsIn(|before|, ps) && Nested(ps) && Spared(p, ps)
    ensures Moved(p, before, after, ps, false, RideFolds(p, FreshInline(before, ps)))
    ensures I.Ascending(RideFolds(p, FreshInline(before, ps)))
  {
    hide Rewrites, FreshInline, Nested, Tracks, KeepsShown, Spared, PairsIn, WellFormed, Follows, Steady, I.Ascending,
         RideFold;
    CarriedIn(p, before, after, ps);
    RideTracks(p, before, ps);
    RideIsFresh(p, before, after, ps);
    var fs := FreshInline(before, ps);
    forall i | 0 <= i < |fs| ensures fs[i] in fs && RideFolds(p, fs)[i] == RideFold(p, fs[i]) {}
  }

  /** Around one edit outside every pair, the moved pairs are the carried ones, and the folds that
      move with their brackets are the fresh ones. */
  lemma {:induction false} MovedOutside(e: Edit, before: Text, after: Text, ps: seq<FoldPair>, seam: bool,
                                        w: seq<I.InlineFold>)
    requires Rewrites([e], before, after) && PairsIn(|before|, ps) && Nested(ps) && Outside(e, ps)
    requires !seam ==> RowDelta(before, after) == 0
    ensures Spared([e], ps)
    ensures Moved([e], before, after, ps, seam, w) && PairsIn(|after|, MovedPairs(e, ps)) ==>
              w == FreshInline(after, MovedPairs(e, ps))
  {
    hide Rewrites, FreshInline, Nested, Tracks, KeepsShown, WellFormed, Follows, Steady, RowDelta, FoldsSpared,
         PairsIn, Outside, Spared;
    RewritesWellFormed([e], before, after);
    assert [e][0] == e;
    OutsideKeeps([e], before, after, ps);
    FreshSpared([e], before, ps);
    if !seam { OneEditSteady([e], before, after, FreshInline(before, ps)); }
    CarriedIn([e], before, after, ps);
    MovedIsCarried(e, before, after, ps);
  }

  lemma {:induction false} MovedIsCarried(e: Edit, before: Text, after: Text, ps: seq<FoldPair>)
    requires Rewrites([e], before, after) && WellFormed([e]) && PairsIn(|before|, ps) && Nested(ps)
    requires Outside(e, ps) && Spared([e], ps)
    ensures MovedPairs(e, ps) == CarriedPairs([e], ps)
  {
    hide Rewrites, WellFormed, RowDelta, RowOf, C.Outside, C.Carried;
    AroundEdit(e, before, after, ps);
    var k := CutAt(ps, e.os);
    hide Outside, Nested, CutAt, Spared, ShiftPairs, PairsIn;
    var w, c := MovedPairs(e, ps), CarriedPairs([e], ps);
    forall i | 0 <= i < |ps| ensures w[i] == c[i] {
      MovedAt(e, before, after, ps, i);
    }
  }

  lemma {:induction false} MovedAt(e: Edit, before: Text, after: Text, ps: seq<FoldPair>, i: nat)
    requires Rewrites([e], before, after) && WellFormed([e]) && Spared([e], ps) && i < |ps|
    requires var k := CutAt(ps, e.os);
             && (forall p | p in ps[..k] :: p.open < p.close < e.os)
             && (forall p | p in ps[k..] :: e.oe <= p.open < p.close < |before|)
    ensures MovedPairs(e, ps)[i] == CarriedPairs([e], ps)[i]
  {
    hide Rewrites, WellFormed, RowDelta, RowOf, C.Outside, C.Carried;
    LengthAfter(e, before, after);
    var k := CutAt(ps, e.os);
    assert ps[i] in ps;
    if i < k {
      assert ps[..k][i] == ps[i] && ps[i] in ps[..k];
    } else {
      assert ps[k..][i - k] == ps[i] && ps[i] in ps[k..];
      PairShiftAt(ps[k..], Delta(e), i - k);
    }
    CarriedByOne(e, before, after, ps[i].open);
    CarriedByOne(e, before, after, ps[i].close);
  }

  // ----- the map -----

  /** An edit outside every folded pair, whose folded blocks are nested or share no row before and
      after it. */
  ghost predicate Faithful(p: Patch, before: Text, after: Text, ps: seq<FoldPair>)
    requires Rewrites(p, before, after) && PairsIn(|before|, ps) && Nested(ps)
  {
    && |p| == 1 && Outside(p[0], ps) && RowsNest(before, ps)
    && (p == [p[0]] ==> (MovedIn(p[0], before, after, ps); RowsNest(after, MovedPairs(p[0], ps))))
  }

  lemma {:induction false} RowsDiffer(before: Text, after: Text)
    ensures RowDelta(before, after) == RowOf(after, |after|) + 1 - (RowOf(before, |before|) + 1)
  {
    hide RowOf;
  }

  lemma {:induction false} NotOneEdit(p: Patch, before: Text, after: Text, ps: seq<FoldPair>)
    requires Rewrites(p, before, after) && PairsIn(|before|, ps) && Nested(ps) && |p| != 1
    ensures !Faithful(p, before, after, ps)
  {
    hide Rewrites, PairsIn, Nested;
  }

  lemma {:induction false} FaithfulParts(p: Patch, before: Text, after: Text, ps: seq<FoldPair>)
    requires Rewrites(p, before, after) && PairsIn(|before|, ps) && Nested(ps)
    ensures Faithful(p, before, after, ps) ==> |p| == 1 && p == [p[0]] && Outside(p[0], ps)
                                               && PairsIn(|after|, MovedPairs(p[0], ps))
  {
    hide Rewrites, Nested, Outside, MovedPairs, RowsNest, PairsIn;
    if Faithful(p, before, after, ps) {
      assert p == [p[0]];
      MovedIn(p[0], before, after, ps);
    }
  }

  /** Where the edit begins and ends, in rows. */
  lemma {:induction false} EditRows(e: Edit, before: Text, after: Text)
    requires Rewrites([e], before, after)
    ensures e.ns == e.os && e.os <= e.oe <= |before| && e.ns <= e.ne <= |after|
    ensures RowOf(after, e.ns) == RowOf(before, e.os)
    ensures RowOf(after, e.ne) == RowOf(before, e.oe) + RowDelta(before, after)
  {
    hide Rewrites, RowOf, RowDelta;
    LengthAfter(e, before, after);
    RowsBefore(e, before, after, e.os);
    RowsAfter(e, before, after, e.oe);
  }

  /** The seam shift of the blocks, where the edit lies outside the pairs: the fresh blocks, moved,
      and the first of them past the edit's old range. */
  lemma {:induction false} BlocksMove(e: Edit, before: Text, after: Text, ps: seq<FoldPair>, bs: seq<R.FoldedRegion>,
                                      k: nat)
    requires Rewrites([e], before, after) && PairsIn(|before|, ps) && Nested(ps) && bs == FreshBlocks(before, ps)
    requires e.os <= e.oe <= |before| && RowOf(after, |after|) >= 0
    requires k <= |bs| && e.ns <= |after| && forall i | 0 <= i < |bs| :: bs[i].last < RowOf(after, e.ns) + 1 <==> i < k
    ensures Faithful([e], before, after, ps) ==>
              && PairsIn(|after|, MovedPairs(e, ps))
              && bs[..k] + B.ShiftRows(bs[k..], RowDelta(before, after)) == FreshBlocks(after, MovedPairs(e, ps))
              && (k < |bs| ==> bs[k].header >= RowOf(before, e.oe))
    ensures k == |bs| ==> bs[..k] + B.ShiftRows(bs[k..], RowDelta(before, after)) == bs
  {
    hide Rewrites, FreshBlocks, Nested, Outside, MovedPairs, RowsNest, RowOf, RowDelta, R.Disjoined;
    if Faithful([e], before, after, ps) {
      FaithfulParts([e], before, after, ps);
      EditRows(e, before, after);
      RowsAscend(before, e.os, e.oe);
      var ra, rb := FreshBlocksMove(e, before, after, ps);
      SeamIsCut(ra, rb, RowOf(before, e.os), k);
      if k < |bs| { assert bs[k] == rb[0] && rb[0] in rb; }
    }
  }

  lemma {:induction false} RegionCountIs(t: R.RTree)
    requires Valid(R.REGIONS, t)
    ensures t.summary.count == |R.Blocks(t)| == |Items(t)|
  {
    hide Fold;
    R.RegionsAreAMonoid();
    R.RegionsCount();
    RootCount(R.REGIONS, R.RegionCount, t);
  }

  /** Past the straddle guard, the first moved block still starts at or below its neighbour. */
  lemma {:induction false} RoomForBlocks(e: Edit, before: Text, after: Text, t: R.RTree, k: nat, header: nat)
    requires Rewrites([e], before, after) && k < |R.Blocks(t)| && header == R.Blocks(t)[k].header
    requires e.ns <= e.ne <= |after| && header >= RowOf(after, e.ne) - RowDelta(before, after)
    requires forall i | 0 <= i < |R.Blocks(t)| :: R.Blocks(t)[i].last < RowOf(after, e.ns) + 1 <==> i < k
    ensures k < |Items(t)| && Items(t)[k].vgap + RowDelta(before, after) >= 0
  {
    hide Rewrites, RowOf, RowDelta, R.Decode;
    GapOfBlock(t, k);
    RowsAscend(after, e.ns, e.ne);
    if k > 0 { assert R.Blocks(t)[k - 1].last < RowOf(after, e.ns) + 1; }
  }

  /** An edit that adds no row leaves the blocks as they are. */
  lemma {:induction false} SameRows(p: Patch, before: Text, after: Text, ps: seq<FoldPair>)
    requires Rewrites(p, before, after) && PairsIn(|before|, ps) && Nested(ps) && RowDelta(before, after) == 0
    ensures Faithful(p, before, after, ps) ==>
              PairsIn(|after|, MovedPairs(p[0], ps)) && FreshBlocks(after, MovedPairs(p[0], ps)) == FreshBlocks(before,
                ps)
  {
    hide Rewrites, FreshBlocks, Nested, Outside, MovedPairs, RowsNest, RowOf, RowDelta, R.Disjoined, PairsIn;
    if Faithful(p, before, after, ps) {
      FaithfulParts(p, before, after, ps);
      var ra, rb := FreshBlocksMove(p[0], before, after, ps);
      UnshiftedRows(rb);
    }
  }

  lemma {:induction false} UnshiftedRows(rs: seq<R.FoldedRegion>)
    ensures B.ShiftRows(rs, 0) == rs
  {
    if rs != [] { UnshiftedRows(rs[1..]); }
  }

  lemma {:induction false} SameBlocks(p: Patch, before: Text, after: Text, ps: seq<FoldPair>)
    requires Rewrites(p, before, after) && PairsIn(|before|, ps) && Spared(p, ps) && RowsKept(p, before, after, ps)
    ensures WellFormed(p) && PairsIn(|after|, CarriedPairs(p, ps))
    ensures FreshBlocks(after, CarriedPairs(p, ps)) == FreshBlocks(before, ps)
  {
    hide Rewrites, PairsIn, Spared, RowsKept, B.Roots;
    CarriedIn(p, before, after, ps);
    BlocksStay(p, before, after, ps);
  }

  lemma {:induction false} MovedParts(p: Patch, before: Text, after: Text, ps: seq<FoldPair>, seam: bool,
                                      w: seq<I.InlineFold>)
    requires Rewrites(p, before, after) && PairsIn(|before|, ps) && Nested(ps) && Spared(p, ps)
    requires Moved(p, before, after, ps, seam, w)
    ensures WellFormed(p) && PairsIn(|after|, CarriedPairs(p, ps))
    ensures w == FreshInline(after, CarriedPairs(p, ps))
            <==> KeepsShown(p, before, after, ps)
                 && (seam || forall f | f in FreshInline(before, ps) :: Steady(p, after, f))
  {
    hide Rewrites, PairsIn, Spared, Nested, FreshInline, KeepsShown, Steady, Follows;
    RewritesWellFormed(p, before, after);
    CarriedIn(p, before, after, ps);
  }

  /** Edits outside every pair that change no row count: the moved folds are the fresh ones exactly
      when each is steady. */
  lemma {:induction false} MovedAroundPairs(p: Patch, before: Text, after: Text, ps: seq<FoldPair>, seam: bool,
                                            w: seq<I.InlineFold>)
    requires Rewrites(p, before, after) && PairsIn(|before|, ps) && Nested(ps) && RowDelta(before, after) == 0
    requires forall i | 0 <= i < |p| :: Outside(p[i], ps)
    requires seam ==> |p| == 1
    ensures WellFormed(p) && Spared(p, ps) && PairsIn(|after|, CarriedPairs(p, ps))
    ensures Moved(p, before, after, ps, seam, w) ==>
              (w == FreshInline(after, CarriedPairs(p, ps))
               <==> forall f | f in FreshInline(before, ps) :: Steady(p, after, f))
  {
    hide Rewrites, PairsIn, Spared, Nested, FreshInline, KeepsShown, Steady, Follows, Outside, WellFormed, RowDelta;
    RewritesWellFormed(p, before, after);
    OutsideKeeps(p, before, after, ps);
    CarriedIn(p, before, after, ps);
    FreshSpared(p, before, ps);
    if |p| == 1 { OneEditSteady(p, before, after, FreshInline(before, ps)); }
  }

  /** One edit that changes no row count and replaces no bracket, inside a fold or out: the moved
      folds go with their brackets, and are the fresh ones exactly when the pairs that show are the
      ones that did. */
  lemma {:induction false} MovedByOne(p: Patch, before: Text, after: Text, ps: seq<FoldPair>, seam: bool,
                                      w: seq<I.InlineFold>)
    requires Rewrites(p, before, after) && PairsIn(|before|, ps) && Nested(ps) && RowDelta(before, after) == 0
    requires |p| == 1 && Spared(p, ps) && Moved(p, before, after, ps, seam, w)
    ensures WellFormed(p) && PairsIn(|after|, CarriedPairs(p, ps)) && RowsKept(p, before, after, ps)
    ensures |w| == |FreshInline(before, ps)| && AllFollow(p, after, FreshInline(before, ps), w)
    ensures w == FreshInline(after, CarriedPairs(p, ps)) <==> KeepsShown(p, before, after, ps)
  {
    hide Rewrites, PairsIn, Spared, Nested, FreshInline, KeepsShown, Steady, Follows, WellFormed, RowDelta, RowsKept;
    RewritesWellFormed(p, before, after);
    CarriedIn(p, before, after, ps);
    FreshSpared(p, before, ps);
    OneEditSteady(p, before, after, FreshInline(before, ps));
    OneEditKeepsRows(p, before, after, ps);
    forall i | 0 <= i < |w| ensures FreshInline(before, ps)[i] in FreshInline(before, ps) {}
  }

  // ----- where the fallback misses -----

  lemma {:induction false} OneLineFresh(t: Text, q: FoldPair)
    requires q.open + 1 < q.close < |t| && NoNewline(t, q.open, q.close)
    ensures PairsIn(|t|, [q]) && Nested([q]) && FreshInline(t, [q]) == [FoldOf(t, q)]
  {
    RowAcross(t, q.open, q.close);
    assert [q][1..] == [];
    hide RowOf;
    var f := FoldOf(t, q);
    assert InlineOf(t, q) == [f] && InlinesOf(t, [q][1..]) == [];
    assert [f][1..] == [];
    I.SortOfRising([f]);
    assert I.RootsInline([f], None) == [f] + I.RootsInline([], Some(f));
  }

  lemma {:induction false} TwoEdits(p: Patch, before: Text, after: Text)
    requires |p| == 2 && p[0].os <= p[0].oe <= p[1].os <= p[1].oe <= |before|
    requires p[0].ns <= p[0].ne <= p[1].ns <= p[1].ne <= |after|
    requires p[0].ns == p[0].os && p[1].ns == p[1].os + Delta(p[0])
    requires |after| == |before| + Delta(p[0]) + Delta(p[1])
    requires before[..p[0].os] == after[..p[0].ns] && before[p[0].oe..p[1].os] == after[p[0].ne..p[1].ns]
    requires before[p[1].oe..] == after[p[1].ne..]
    ensures Rewrites(p, before, after) && WellFormed(p)
    ensures Shift(p, 0) == 0 && Shift(p, 1) == Delta(p[0]) && Shift(p, 2) == Delta(p[0]) + Delta(p[1])
  {
    assert Shift(p, 0) == 0 && Shift(p, 1) == Delta(p[0]) && Shift(p, 2) == Delta(p[0]) + Delta(p[1]);
    assert Anchored(p, 0) && Anchored(p, 1);
    assert GapKept(p, before, after, 0) && GapKept(p, before, after, 1) && GapKept(p, before, after, 2);
  }

  /** Where two edits take and carry a position. */
  lemma {:induction false} TwoEditsMap(p: Patch, x: nat, k: nat, c: nat)
    requires WellFormed(p) && |p| == 2 && k <= 2 && c <= 2
    requires (forall i | 0 <= i < k :: p[i].oe < x) && (k < 2 ==> p[k].oe >= x)
    requires (forall i | 0 <= i < c :: p[i].oe <= x) && (c < 2 ==> p[c].oe > x)
    ensures C.Carried(p, x) == x + Shift(p, c)
    ensures Mapped(p, x, Right) == if k == 2 || x < p[k].os then x + Shift(p, k)
                                   else MapWithin(x, p[k], p[k].os + Shift(p, k), Right)
  {
    FirstReachingIs(p, x, k);
    assert p[1..] == [p[1]] && p[1..][1..] == [];
    assert C.EndsBy(p, x) == c;
  }

  /** Two carets around the folded line `(ab)`, one adding a line break above it and one removing the
      break below it: no row is added, so the fold rides, and stays on row 0 where it stands on row 1. */
  lemma {:induction false} RowLeftBehind(before: Text, after: Text, p: Patch)
    requires before == [40, 97, 98, 41, 10] && after == [10, 40, 97, 98, 41]
    requires p == [Edit(0, 0, 0, 1), Edit(4, 5, 5, 5)]
    ensures Rewrites(p, before, after) && WellFormed(p) && RowDelta(before, after) == 0
    ensures PairsIn(|before|, [FoldPair(0, 3)]) && Outside(p[0], [FoldPair(0, 3)]) && Outside(p[1], [FoldPair(0, 3)])
    ensures C.Carried(p, 0) == 1 && C.Carried(p, 3) == 4
    ensures RideFolds(p, FreshInline(before, [FoldPair(0, 3)])) == [I.InlineFold(0, 1, 4)]
    ensures PairsIn(|after|, [FoldPair(1, 4)]) && FreshInline(after, [FoldPair(1, 4)]) == [I.InlineFold(1, 1, 4)]
  {
    TwoEdits(p, before, after);
    hide Rewrites, FreshInline, RowOf, C.Carried, MapOffset;
    TwoEditsMap(p, 0, 0, 1);
    TwoEditsMap(p, 3, 1, 1);
    LineRows(before, 0, 4);
    LineRows(after, 1, 5);
    OneLineFresh(before, FoldPair(0, 3));
    OneLineFresh(after, FoldPair(1, 4));
  }

  lemma {:induction false} LineRows(t: Text, a: nat, b: nat)
    requires a <= b <= |t| <= b + 1 && a <= 1 && NoNewline(t, a, b)
    ensures RowOf(t, 0) == 0 && RowOf(t, a) == RowOf(t, b) == (if a == 1 && t[0] == NEWLINE then 1 else 0)
    ensures RowOf(t, |t|) == RowOf(t, b) + if b < |t| && t[b] == NEWLINE then 1 else 0
  {
    RowAcross(t, a, b);
    assert RowOf(t, 0) == 0;
  }

  /** The byte before the fold is deleted and another typed in its place as a second edit: the map
      sees only the first edit, and the fold's opener lands on the byte typed. */
  lemma {:induction false} OpenerLeftBehind(before: Text, after: Text, p: Patch)
    requires before == [120, 40, 97, 98, 41] && after == [121, 40, 97, 98, 41]
    requires p == [Edit(0, 1, 0, 0), Edit(1, 1, 0, 1)]
    ensures Rewrites(p, before, after) && WellFormed(p) && RowDelta(before, after) == 0
    ensures PairsIn(|before|, [FoldPair(1, 4)]) && Outside(p[0], [FoldPair(1, 4)]) && Outside(p[1], [FoldPair(1, 4)])
    ensures C.Carried(p, 1) == 1 && C.Carried(p, 4) == 4
    ensures RideFolds(p, FreshInline(before, [FoldPair(1, 4)])) == [I.InlineFold(0, 0, 4)]
    ensures PairsIn(|after|, [FoldPair(1, 4)]) && FreshInline(after, [FoldPair(1, 4)]) == [I.InlineFold(0, 1, 4)]
  {
    TwoEdits(p, before, after);
    hide Rewrites, FreshInline, RowOf, C.Carried, MapOffset;
    TwoEditsMap(p, 1, 0, 2);
    TwoEditsMap(p, 4, 2, 2);
    LineRows(before, 1, 5);
    LineRows(after, 1, 5);
    OneLineFresh(before, FoldPair(1, 4));
    OneLineFresh(after, FoldPair(1, 4));
  }

  class FoldMap {
    /** Root blocks, delta-gap. */
    var regions: R.RTree

    /** Root single-line folds, delta-gap. */
    var inline: I.ITree

    var bufferRowCount: nat

    ghost predicate Valid()
      reads this
    {
      SumTrees.Valid(R.REGIONS, regions) && SumTrees.Valid(I.INLINES, inline)
    }

    /** The map is what the pairs resolve to in this text. */
    ghost predicate Resolves(t: Text, ps: seq<FoldPair>)
      requires PairsIn(|t|, ps)
      reads this
    {
      && R.Blocks(regions) == FreshBlocks(t, ps) && I.Folds(inline) == FreshInline(t, ps)
      && bufferRowCount == RowOf(t, |t|) + 1
    }

    /** Resolve the folded pairs afresh. */
    constructor (t: Text, ps: seq<FoldPair>)
      requires PairsIn(|t|, ps) && Nested(ps)
      ensures Valid() && Resolves(t, ps)
    {
      hide RowOf, R.Decode, I.Decode, B.Roots, I.InlineRoots, FromItems, I.Rising, I.LaminarPairs, Nested,
           SumTrees.Valid, Items;
      var raw, rawInline := Resolve(t, ps);
      var blocks := B.RootRegions(raw);
      BlocksAreBlocks(t, ps);
      B.RootsFrom(raw);
      DisjoinedEncodable(blocks);
      var items := EncodeBlocks(blocks);
      FromItemsCorrect(R.REGIONS, items);
      var roots := I.RootInline(rawInline);
      FreshInlineShape(t, ps);
      regions := FromItems(R.REGIONS, items);
      var inl := BuildInline(roots);
      inline := inl;
      bufferRowCount := RowOf(t, |t|) + 1;
    }

    /** One edit that touches no stored single-line fold. */
    ghost predicate SeamTaken(p: Patch)
      requires Valid()
      reads this
    {
      |p| == 1 && !I.Overlaps(inline, p[0].os, p[0].oe)
    }

    /** Shift the single-line folds: one seam for a single edit touching none of them, otherwise
        each fold rides the patch. */
    method ShiftInline(p: Patch, d: int, ghost before: Text, ghost after: Text, ghost ps: seq<FoldPair>)
      requires WellFormed(p) && Rewrites(p, before, after) && Valid() && PairsIn(|before|, ps) && Nested(ps)
      requires I.Folds(inline) == FreshInline(before, ps) && d == RowDelta(before, after)
      requires !Spared(p, ps) && !SeamTaken(p) ==> I.Ascending(RideFolds(p, I.Folds(inline)))
      requires |p| == 1 && d != 0 ==> SeamTaken(p)
      modifies this`inline
      ensures Valid()
      ensures Spared(p, ps) ==> Moved(p, before, after, ps, old(SeamTaken(p)), I.Folds(inline))
      ensures |p| == 1 && Outside(p[0], ps) && PairsIn(|after|, MovedPairs(p[0], ps)) ==>
                I.Folds(inline) == FreshInline(after, MovedPairs(p[0], ps))
    {
      hide WellFormed, Rewrites, PairsIn, Nested, I.Folds, I.Decode, Items, FreshInline, RowDelta, RowOf,
           Outside, I.Ascending, RideFolds, RideFold, I.Overlaps, MovedPairs, I.Apart, InlinesOf,
           SummaryBefore, I.OpenDim, Delta, I.AddInline, I.MeasureInline, I.ShiftFolds, Moved, Spared;
      FreshInlineShape(before, ps);
      if |p| == 1 {
        var e := p[0];
        assert p == [e];
        I.OverlapsCorrect(inline, e.os, e.oe);
        if !I.Overlaps(inline, e.os, e.oe) {
          ghost var k := I.OpensBefore(inline, e.os);
          var byteDelta := Delta(e);
          var kk := SummaryBefore(I.INLINES, I.OpenDim, inline, e.os).count;
          InlineCountIs(inline);
          SeamShift(e, before, after, ps, inline, k);
          if kk < inline.summary.count {
            InlineRoom(e, before, after, ps, inline, k);
            inline := RegapInlines(inline, kk, byteDelta, d);
          }
          if Outside(e, ps) { MovedOutside(e, before, after, ps, true, I.Folds(inline)); }
          return;
        }
      }
      var folds := DecodedInline();
      if Spared(p, ps) { FallbackRides(p, before, after, ps); }
      if |p| == 1 && Outside(p[0], ps) {
        assert p == [p[0]];
        MovedOutside(p[0], before, after, ps, false, RideFolds(p, folds));
        FallbackRides(p, before, after, ps);
      }
      var v := RideAll(p, folds);
      inline := BuildInline(v);
    }

    method DecodedInline() returns (out: seq<I.InlineFold>)
      ensures out == I.Folds(inline)
    {
      hide I.Decode, Items;
      var items := Items(inline);
      out := [];
      var open: nat, row: nat := 0, 0;
      assert items[0..] == items;
      for i := 0 to |items|
        invariant out + I.Decode(items[i..], open, row) == I.Decode(items, 0, 0)
      {
        I.DecodeStep(items, i, open, row, out);
        open := open + items[i].openGap;
        row := row + items[i].rowGap;
        out := out + [I.InlineFold(row, open, open + items[i].width)];
      }
      assert out + I.Decode(items[|items|..], open, row) == out;
      assert I.Folds(inline) == I.Decode(items, 0, 0);
    }

    /** Shift the blocks past a row-changing edit: one seam; `false` when the edit's old range
        reaches into the first block past it. */
    method ShiftBlocks(e: Edit, d: int, after: Text, ghost before: Text, ghost ps: seq<FoldPair>) returns (ok: bool)
      requires Rewrites([e], before, after) && Valid() && PairsIn(|before|, ps) && Nested(ps)
      requires R.Blocks(regions) == FreshBlocks(before, ps) && d == RowDelta(before, after)
      modifies this`regions
      ensures Valid()
      ensures !ok ==> regions == old(regions)
      ensures Faithful([e], before, after, ps) ==>
                ok && PairsIn(|after|, MovedPairs(e, ps)) && R.Blocks(regions) == FreshBlocks(after, MovedPairs(e, ps))
    {
      hide Rewrites, PairsIn, Nested, R.Blocks, R.Decode, Items, FreshBlocks, RowDelta, RowOf, Faithful,
           MovedPairs, Delta, SummaryBefore, R.LastDim, R.AddRegions, R.MeasureRegion, B.ShiftRows, Seek,
           R.RegionCount;
      LengthAfter(e, before, after);
      EditRows(e, before, after);
      var rOs: nat := RowOf(after, e.ns);
      var rOeOld := RowOf(after, e.ne) - d;
      ghost var k := R.TailCount(regions, rOs + 1);
      var kk := SummaryBefore(R.REGIONS, R.LastDim, regions, rOs + 1).count;
      BlocksMove(e, before, after, ps, R.Blocks(regions), k);
      RegionCountIs(regions);
      if kk < regions.summary.count {
        R.SeekTail(regions, kk);
        var first := Seek(R.REGIONS, R.RegionCount, R.LastDim, regions, kk).value;
        var header := first.also + first.item.vgap;
        if header < rOeOld { return false; }
        RoomForBlocks(e, before, after, regions, k, header);
        regions := RegapRegions(regions, kk, d);
      }
      return true;
    }

    /** Shift the map through a committed patch, in place; `false` asks for a fresh build.  A build is
        asked for only when the patch adds or removes rows and is no single edit clear of the
        single-line folds.  Otherwise the folds move as `Moved` says; for an edit outside every
        folded pair the shifted map is the fresh one, and so it is, for any edits that leave every
        bracket on its row, exactly when the pairs that show are the ones that did and nothing is
        inserted stacked on a fold's bracket. */
    method ApplyPatch(p: Patch, after: Text, ghost before: Text, ghost ps: seq<FoldPair>) returns (ok: bool)
      requires WellFormed(p) && Rewrites(p, before, after) && Valid()
      requires PairsIn(|before|, ps) && Nested(ps) && Resolves(before, ps)
      requires RowDelta(before, after) == 0 && !Spared(p, ps) && !SeamTaken(p) ==>
               I.Ascending(RideFolds(p, I.Folds(inline)))
      modifies this
      ensures Valid()
      ensures RowDelta(before, after) == 0 ==> ok
      ensures RowDelta(before, after) != 0 && !old(SeamTaken(p)) ==> !ok
      ensures !ok ==> regions == old(regions) && inline == old(inline) && bufferRowCount == old(bufferRowCount)
      ensures ok && Faithful(p, before, after, ps) ==>
                PairsIn(|after|, MovedPairs(p[0], ps)) && Resolves(after, MovedPairs(p[0], ps))
      ensures Faithful(p, before, after, ps) ==>
                (ok <==> RowDelta(before, after) == 0 || !I.Overlaps(old(inline), p[0].os, p[0].oe))
      ensures ok && Spared(p, ps) ==> Moved(p, before, after, ps, old(SeamTaken(p)), I.Folds(inline))
      ensures RowDelta(before, after) == 0 && Spared(p, ps) && RowsKept(p, before, after, ps) ==>
                && PairsIn(|after|, CarriedPairs(p, ps))
                && (Resolves(after, CarriedPairs(p, ps))
                    <==> KeepsShown(p, before, after, ps)
                         && (old(SeamTaken(p)) || forall f | f in FreshInline(before, ps) :: Steady(p, after, f)))
      ensures RowDelta(before, after) == 0 && |p| == 1 && Spared(p, ps) ==>
                && PairsIn(|after|, CarriedPairs(p, ps))
                && (Resolves(after, CarriedPairs(p, ps)) <==> KeepsShown(p, before, after, ps))
      ensures RowDelta(before, after) == 0 && (forall i | 0 <= i < |p| :: Outside(p[i], ps)) ==>
                && Spared(p, ps) && PairsIn(|after|, CarriedPairs(p, ps))
                && (I.Folds(inline) == FreshInline(after, CarriedPairs(p, ps))
                    <==> forall f | f in FreshInline(before, ps) :: Steady(p, after, f))
    {
      hide WellFormed, Rewrites, PairsIn, Nested, RowDelta, RowOf, Outside, I.Ascending, RideFolds, RideFold,
           I.Folds, I.Decode, Items, Faithful, MovedPairs, I.Overlaps, R.Blocks, FreshBlocks, FreshInline, Spared,
           Moved, RowsKept, KeepsShown, Steady;
      var newRows := RowOf(after, |after|) + 1;
      var d := newRows - bufferRowCount;
      RowsDiffer(before, after);
      if d != 0 {
        if |p| != 1 {
          NotOneEdit(p, before, after, ps);
          return false;
        }
        var e := p[0];
        assert p == [e];
        if I.Overlaps(inline, e.os, e.oe) { return false; }
        ok := ShiftBlocks(e, d, after, before, ps);
        if !ok { return; }
        bufferRowCount := newRows;
      } else {
        SameRows(p, before, after, ps);
        if |p| == 1 && Spared(p, ps) { OneEditKeepsRows(p, before, after, ps); }
        if Spared(p, ps) && RowsKept(p, before, after, ps) { SameBlocks(p, before, after, ps); }
      }
      ShiftInline(p, d, before, after, ps);
      FaithfulParts(p, before, after, ps);
      if Spared(p, ps) {
        MovedParts(p, before, after, ps, old(SeamTaken(p)), I.Folds(inline));
        if d == 0 && |p| == 1 { MovedByOne(p, before, after, ps, old(SeamTaken(p)), I.Folds(inline)); }
      }
      if d == 0 && forall i | 0 <= i < |p| :: Outside(p[i], ps) {
        MovedAroundPairs(p, before, after, ps, old(SeamTaken(p)), I.Folds(inline));
      }
      return true;
    }
  }
}
