/**
 Folded bracket pairs, what they resolve to in a text, and how one edit outside all of them moves
 that.
 */
module FoldPairs {
  import opened Base
  import opened Patches
  import opened TextRows
  import R = FoldRows
  import B = FoldRoots
  import I = FoldInlines

  /** A folded pair: its opener and its closer. */
  datatype FoldPair = FoldPair(open: nat, close: nat)

  ghost predicate PairsIn(n: nat, ps: seq<FoldPair>) {
    forall p | p in ps :: p.open < p.close < n
  }

  /** Openers ascend; pairs nest or lie apart. */
  ghost predicate Nested(ps: seq<FoldPair>) {
    forall i, j | 0 <= i < j < |ps| ::
      ps[i].open < ps[j].open && (ps[i].close < ps[j].open || ps[j].close < ps[i].close)
  }

  /** The pairs spanning rows, as blocks. */
  function BlocksOf(t: Text, ps: seq<FoldPair>): seq<R.FoldedRegion>
    requires PairsIn(|t|, ps)
  {
    if ps == [] then []
    else
      assert ps[0] in ps;
      BlockOf(t, ps[0]) + BlocksOf(t, ps[1..])
  }

  /** The single-line pairs with an interior, as inline folds. */
  function InlinesOf(t: Text, ps: seq<FoldPair>): seq<I.InlineFold>
    requires PairsIn(|t|, ps)
  {
    if ps == [] then []
    else
      assert ps[0] in ps;
      InlineOf(t, ps[0]) + InlinesOf(t, ps[1..])
  }

  /** One pair's part in each. */
  function BlockOf(t: Text, p: FoldPair): seq<R.FoldedRegion>
    requires p.open < p.close < |t|
  {
    if RowOf(t, p.close) > RowOf(t, p.open) then [R.FoldedRegion(RowOf(t, p.open), RowOf(t, p.close))] else []
  }

  function InlineOf(t: Text, p: FoldPair): seq<I.InlineFold>
    requires p.open < p.close < |t|
  {
    if RowOf(t, p.close) <= RowOf(t, p.open) && p.close > p.open + 1
    then [I.InlineFold(RowOf(t, p.open), p.open, p.close)] else []
  }

  lemma {:induction false} PairsTail(n: nat, ps: seq<FoldPair>)
    requires PairsIn(n, ps) && ps != []
    ensures PairsIn(n, ps[1..]) && ps[0].open < ps[0].close < n
  {
    assert ps[0] in ps;
  }

  lemma {:induction false} PairsConcat(n: nat, a: seq<FoldPair>, b: seq<FoldPair>)
    ensures PairsIn(n, a + b) <==> PairsIn(n, a) && PairsIn(n, b)
  {
    if PairsIn(n, a + b) {
      forall p | p in a ensures p.open < p.close < n { assert p in a + b; }
      forall p | p in b ensures p.open < p.close < n { assert p in a + b; }
    }
  }

  lemma {:induction false} BlocksConcat(t: Text, a: seq<FoldPair>, b: seq<FoldPair>)
    requires PairsIn(|t|, a) && PairsIn(|t|, b) && PairsIn(|t|, a + b)
    ensures BlocksOf(t, a + b) == BlocksOf(t, a) + BlocksOf(t, b)
    ensures InlinesOf(t, a + b) == InlinesOf(t, a) + InlinesOf(t, b)
    decreases |a|
  {
    if a == [] {
      assert a + b == b;
    } else {
      assert (a + b)[0] == a[0] && (a + b)[1..] == a[1..] + b;
      PairsTail(|t|, a);
      PairsTail(|t|, a + b);
      BlocksCons(t, a);
      BlocksCons(t, a + b);
      hide *;
      BlocksConcat(t, a[1..], b);
      Regroup(BlockOf(t, a[0]), BlocksOf(t, a[1..]), BlocksOf(t, b));
      Regroup(InlineOf(t, a[0]), InlinesOf(t, a[1..]), InlinesOf(t, b));
    }
  }

  lemma {:induction false} BlocksCons(t: Text, ps: seq<FoldPair>)
    requires PairsIn(|t|, ps) && ps != []
    ensures PairsIn(|t|, ps[1..]) && ps[0].open < ps[0].close < |t|
    ensures BlocksOf(t, ps) == BlockOf(t, ps[0]) + BlocksOf(t, ps[1..])
    ensures InlinesOf(t, ps) == InlineOf(t, ps[0]) + InlinesOf(t, ps[1..])
  {
    hide RowOf, BlockOf, InlineOf;
    PairsTail(|t|, ps);
  }

  /** Every block and inline fold comes from a pair. */
  lemma {:induction false} BlockSource(t: Text, ps: seq<FoldPair>, x: R.FoldedRegion) returns (p: FoldPair)
    requires PairsIn(|t|, ps) && x in BlocksOf(t, ps)
    ensures p in ps && p.open < p.close < |t| && x == R.FoldedRegion(RowOf(t, p.open), RowOf(t, p.close))
            && x.header < x.last
    decreases |ps|
  {
    hide RowOf;
    PairsTail(|t|, ps);
    if x in BlockOf(t, ps[0]) { p := ps[0]; } else { p := BlockSource(t, ps[1..], x); }
  }

  lemma {:induction false} InlineSource(t: Text, ps: seq<FoldPair>, x: I.InlineFold) returns (p: FoldPair)
    requires PairsIn(|t|, ps) && x in InlinesOf(t, ps)
    ensures p in ps && p.open < p.close < |t| && x == I.InlineFold(RowOf(t, p.open), p.open, p.close)
    ensures RowOf(t, p.close) <= RowOf(t, p.open) && p.open + 1 < p.close
    decreases |ps|
  {
    hide RowOf;
    PairsTail(|t|, ps);
    if x in InlineOf(t, ps[0]) { p := ps[0]; } else { p := InlineSource(t, ps[1..], x); }
  }

  /** What the pairs resolve to, afresh. */
  ghost function FreshBlocks(t: Text, ps: seq<FoldPair>): seq<R.FoldedRegion>
    requires PairsIn(|t|, ps)
  {
    B.Roots(BlocksOf(t, ps))
  }

  ghost function FreshInline(t: Text, ps: seq<FoldPair>): seq<I.InlineFold>
    requires PairsIn(|t|, ps)
  {
    I.InlineRoots(InlinesOf(t, ps))
  }

  // ----- which pairs show -----

  /** A pair on one row, with something between its brackets. */
  predicate SingleLine(t: Text, p: FoldPair)
    requires p.open < p.close < |t|
  {
    RowOf(t, p.open) == RowOf(t, p.close) && p.open + 1 < p.close
  }

  /** A pair on one row, around which no other such pair stands. */
  ghost predicate ShowsInline(t: Text, ps: seq<FoldPair>, p: FoldPair)
    requires PairsIn(|t|, ps)
  {
    && p in ps && SingleLine(t, p)
    && forall r | r in ps && r.open < p.open && p.close < r.close :: !SingleLine(t, r)
  }

  function FoldOf(t: Text, p: FoldPair): I.InlineFold
    requires p.open < |t|
  {
    I.InlineFold(RowOf(t, p.open), p.open, p.close)
  }

  lemma {:induction false} InlineMember(t: Text, ps: seq<FoldPair>, p: FoldPair)
    requires PairsIn(|t|, ps) && p in ps
    ensures SingleLine(t, p) ==> FoldOf(t, p) in InlinesOf(t, ps)
    decreases |ps|
  {
    hide RowOf;
    PairsTail(|t|, ps);
    BlocksCons(t, ps);
    if p != ps[0] {
      assert p in ps[1..];
      InlineMember(t, ps[1..], p);
    }
  }

  /** The folded blocks are nested or share no row. */
  ghost predicate RowsNest(t: Text, ps: seq<FoldPair>)
    requires PairsIn(|t|, ps)
  {
    B.Laminar(BlocksOf(t, ps))
  }

  // ----- rows under one edit -----

  /** How many rows the edit adds. */
  function RowDelta(before: Text, after: Text): int { RowOf(after, |after|) - RowOf(before, |before|) }

  lemma {:induction false} RowsCopied(p: Patch, before: Text, after: Text, g: nat, a: nat, b: nat)
    requires Rewrites(p, before, after) && g <= |p| && GapStart(p, g) <= a <= b <= GapEnd(p, |before|, g)
             && b <= |before|
    ensures 0 <= a + Shift(p, g) && b + Shift(p, g) <= |after|
    ensures RowOf(after, b + Shift(p, g)) - RowOf(after, a + Shift(p, g)) == RowOf(before, b) - RowOf(before, a)
    decreases b - a
  {
    hide Shift, Rewrites;
    GapBounds(p, before, after, g);
    if a < b {
      RowsCopied(p, before, after, g, a, b - 1);
      GapByte(p, before, after, g, b - 1);
    }
  }

  lemma {:induction false} RowsBefore(e: Edit, before: Text, after: Text, x: nat)
    requires Rewrites([e], before, after) && x <= e.os
    ensures x <= |before| && x <= |after| && RowOf(after, x) == RowOf(before, x)
  {
    hide Rewrites;
    GapBounds([e], before, after, 0);
    RowsCopied([e], before, after, 0, 0, x);
  }

  lemma {:induction false} RowsAfter(e: Edit, before: Text, after: Text, x: nat)
    requires Rewrites([e], before, after) && e.oe <= x <= |before|
    ensures 0 <= x + Delta(e) <= |after| && e.ne <= x + Delta(e)
    ensures RowOf(after, x + Delta(e)) == RowOf(before, x) + RowDelta(before, after)
  {
    hide Rewrites, RowOf;
    GapBounds([e], before, after, 1);
    RewritesWellFormed([e], before, after);
    OneShift(e);
    RowsCopied([e], before, after, 1, x, |before|);
    LengthAfter(e, before, after);
  }

  lemma {:induction false} OneShift(e: Edit)
    ensures Shift([e], 1) == Delta(e) && Shift([e], 0) == 0
  {
    assert Shift([e], 1) == Shift([e], 0) + Delta([e][0]);
  }

  lemma {:induction false} LengthAfter(e: Edit, before: Text, after: Text)
    requires Rewrites([e], before, after)
    ensures |after| == |before| + Delta(e) && e.ns == e.os && e.os <= e.oe <= |before| && e.ns <= e.ne <= |after|
  {
    OneShift(e);
    GapOf([e], before, after, 0);
    GapOf([e], before, after, 1);
    GapShift([e], 0);
  }

  // ----- pairs under one edit -----

  /** The edit lies outside every pair's brackets. */
  ghost predicate Outside(e: Edit, ps: seq<FoldPair>) {
    forall p | p in ps :: p.close < e.os || e.oe <= p.open
  }

  /** How many pairs open before the edit. */
  function CutAt(ps: seq<FoldPair>, os: nat): (k: nat)
    ensures k <= |ps|
  {
    if ps == [] || ps[0].open >= os then 0 else 1 + CutAt(ps[1..], os)
  }

  lemma {:induction false} CutSpec(ps: seq<FoldPair>, os: nat)
    requires Nested(ps)
    ensures forall i | 0 <= i < |ps| :: ps[i].open < os <==> i < CutAt(ps, os)
    decreases |ps|
  {
    if ps != [] {
      assert forall i, j | 0 <= i < j < |ps[1..]| :: ps[1..][i] == ps[i + 1] && ps[1..][j] == ps[j + 1];
      CutSpec(ps[1..], os);
      forall i | 0 <= i < |ps| ensures ps[i].open < os <==> i < CutAt(ps, os) {
        if i > 0 {
          assert ps[0].open < ps[i].open && ps[i] == ps[1..][i - 1];
        }
      }
    }
  }

  function ShiftPair(p: FoldPair, d: int): FoldPair { FoldPair(I.By(p.open, d), I.By(p.close, d)) }

  function ShiftPairs(ps: seq<FoldPair>, d: int): (w: seq<FoldPair>)
    ensures |w| == |ps|
  {
    if ps == [] then [] else [ShiftPair(ps[0], d)] + ShiftPairs(ps[1..], d)
  }

  /** The pairs once the edit is made: those after it move by the length change. */
  ghost function MovedPairs(e: Edit, ps: seq<FoldPair>): seq<FoldPair> {
    ps[..CutAt(ps, e.os)] + ShiftPairs(ps[CutAt(ps, e.os)..], Delta(e))
  }

  /** Pairs before the edit keep their rows. */
  lemma {:induction false} BeforeKept(e: Edit, before: Text, after: Text, ps: seq<FoldPair>)
    requires Rewrites([e], before, after) && forall p | p in ps :: p.open < p.close < e.os
    ensures PairsIn(|before|, ps) && PairsIn(|after|, ps)
    ensures BlocksOf(after, ps) == BlocksOf(before, ps) && InlinesOf(after, ps) == InlinesOf(before, ps)
    decreases |ps|
  {
    hide Rewrites, RowOf;
    LengthAfter(e, before, after);
    if ps != [] {
      assert ps[0] in ps;
      RowsBefore(e, before, after, ps[0].open);
      RowsBefore(e, before, after, ps[0].close);
      forall p | p in ps[1..] ensures p in ps {}
      BeforeKept(e, before, after, ps[1..]);
    }
  }

  /** Pairs after the edit move rigidly: offsets by the length change, rows by the row change. */
  lemma {:induction false} AfterMoved(e: Edit, before: Text, after: Text, ps: seq<FoldPair>)
    requires Rewrites([e], before, after) && forall p | p in ps :: e.oe <= p.open < p.close < |before|
    ensures PairsIn(|before|, ps) && PairsIn(|after|, ShiftPairs(ps, Delta(e)))
    ensures BlocksOf(after, ShiftPairs(ps, Delta(e))) == B.ShiftRows(BlocksOf(before, ps), RowDelta(before, after))
    ensures B.Shiftable(BlocksOf(before, ps), RowDelta(before, after))
    ensures InlinesOf(after, ShiftPairs(ps, Delta(e))) == I.ShiftFolds(InlinesOf(before, ps), Delta(e),
                                                                       RowDelta(before, after))
    ensures I.Shiftable(InlinesOf(before, ps), Delta(e), RowDelta(before, after))
    decreases |ps|
  {
    hide Rewrites, RowOf, RowDelta;
    if ps != [] {
      assert ps[0] in ps;
      forall p | p in ps[1..] ensures p in ps {}
      AfterMoved(e, before, after, ps[1..]);
      PairMoved(e, before, after, ps[0]);
      var w := ShiftPairs(ps, Delta(e));
      assert w[1..] == ShiftPairs(ps[1..], Delta(e)) && w[0] == ShiftPair(ps[0], Delta(e));
      JoinMoved(BlockOf(before, ps[0]), BlocksOf(before, ps[1..]), InlineOf(before, ps[0]), InlinesOf(before, ps[1..]),
                Delta(e), RowDelta(before, after));
      forall p | p in w ensures p.open < p.close < |after| { assert p == w[0] || p in w[1..]; }
    }
  }

  lemma {:induction false} PairMoved(e: Edit, before: Text, after: Text, p: FoldPair)
    requires Rewrites([e], before, after) && e.oe <= p.open < p.close < |before|
    ensures var w := ShiftPair(p, Delta(e)); var d := RowDelta(before, after);
            && w == FoldPair(p.open + Delta(e), p.close + Delta(e)) && w.open < w.close < |after|
            && BlockOf(after, w) == B.ShiftRows(BlockOf(before, p), d) && B.Shiftable(BlockOf(before, p), d)
            && InlineOf(after, w) == I.ShiftFolds(InlineOf(before, p), Delta(e), d)
              && I.Shiftable(InlineOf(before, p), Delta(e), d)
  {
    hide Rewrites, RowOf, RowDelta;
    RowsAfter(e, before, after, p.open);
    RowsAfter(e, before, after, p.close);
    LengthAfter(e, before, after);
    var b, i := BlockOf(before, p), InlineOf(before, p);
    assert b != [] ==> b[1..] == [];
    assert i != [] ==> i[1..] == [];
  }

  lemma {:induction false} JoinMoved(b: seq<R.FoldedRegion>, bs: seq<R.FoldedRegion>, i: seq<I.InlineFold>,
                                     inls: seq<I.InlineFold>, delta: int, d: int)
    requires |b| <= 1 && B.Shiftable(b, d) && B.Shiftable(bs, d) && I.Shiftable(i, delta, d)
             && I.Shiftable(inls, delta, d)
    ensures B.ShiftRows(b + bs, d) == B.ShiftRows(b, d) + B.ShiftRows(bs, d) && B.Shiftable(b + bs, d)
    ensures I.ShiftFolds(i + inls, delta, d) == I.ShiftFolds(i, delta, d) + I.ShiftFolds(inls, delta, d)
    ensures I.Shiftable(i + inls, delta, d)
  {
    I.ShiftConcat(i, inls, delta, d);
    if b == [] {
      assert b + bs == bs;
    } else {
      assert (b + bs)[1..] == bs && b[1..] == [];
    }
  }

  // ----- the pairs around the edit -----

  /** The pairs before the edit, and those after it. */
  lemma {:induction false} AroundEdit(e: Edit, before: Text, after: Text, ps: seq<FoldPair>)
    requires Rewrites([e], before, after) && PairsIn(|before|, ps) && Nested(ps) && Outside(e, ps)
    ensures var k := CutAt(ps, e.os);
            && (forall p | p in ps[..k] :: p.open < p.close < e.os)
            && (forall p | p in ps[k..] :: e.oe <= p.open < p.close < |before|)
            && ps == ps[..k] + ps[k..]
  {
    hide Rewrites;
    LengthAfter(e, before, after);
    var k := CutAt(ps, e.os);
    forall p | p in ps[..k] ensures p.open < p.close < e.os { PairBefore(e, |before|, ps, p); }
    forall p | p in ps[k..] ensures e.oe <= p.open < p.close < |before| { PairAfter(e, |before|, ps, p); }
  }

  lemma {:induction false} PairBefore(e: Edit, n: nat, ps: seq<FoldPair>, p: FoldPair)
    requires PairsIn(n, ps) && Nested(ps) && Outside(e, ps) && e.os <= e.oe && p in ps[..CutAt(ps, e.os)]
    ensures p.open < p.close < e.os
  {
    CutSpec(ps, e.os);
    hide Nested, CutAt;
    var k := CutAt(ps, e.os);
    var i :| 0 <= i < k && ps[..k][i] == p;
    assert ps[i] == p && p in ps && p.open < e.os;
  }

  lemma {:induction false} PairAfter(e: Edit, n: nat, ps: seq<FoldPair>, p: FoldPair)
    requires PairsIn(n, ps) && Nested(ps) && Outside(e, ps) && e.os <= e.oe && p in ps[CutAt(ps, e.os)..]
    ensures e.oe <= p.open < p.close < n
  {
    CutSpec(ps, e.os);
    hide Nested, CutAt;
    var k := CutAt(ps, e.os);
    var i :| 0 <= i < |ps[k..]| && ps[k..][i] == p;
    assert ps[k + i] == p && p in ps && !(p.open < e.os);
  }

  /** The moved pairs are pairs of the new text. */
  lemma {:induction false} MovedIn(e: Edit, before: Text, after: Text, ps: seq<FoldPair>)
    requires Rewrites([e], before, after) && PairsIn(|before|, ps) && Nested(ps) && Outside(e, ps)
    ensures PairsIn(|after|, MovedPairs(e, ps))
  {
    hide Rewrites;
    AroundEdit(e, before, after, ps);
    var k := CutAt(ps, e.os);
    BeforeKept(e, before, after, ps[..k]);
    AfterMoved(e, before, after, ps[k..]);
    PairsConcat(|after|, ps[..k], ShiftPairs(ps[k..], Delta(e)));
  }

  lemma {:induction false} RowsAscend(t: Text, a: nat, b: nat)
    requires a <= b <= |t|
    ensures RowOf(t, a) <= RowOf(t, b)
  {
    RowMonotone(t, a, b);
  }

  /** Nested or sharing no row, a block before the edit ends above every block after it. */
  lemma {:induction false} BeforeAboveAfter(t: Text, a: seq<FoldPair>, b: seq<FoldPair>, at: nat)
    requires PairsIn(|t|, a) && PairsIn(|t|, b) && B.Laminar(BlocksOf(t, a) + BlocksOf(t, b))
    requires (forall p | p in a :: p.close < at) && (forall p | p in b :: at <= p.open)
    ensures B.AllAbove(BlocksOf(t, a), BlocksOf(t, b))
    ensures B.AllBlocks(BlocksOf(t, a)) && B.AllBlocks(BlocksOf(t, b))
  {
    hide RowOf, BlocksOf;
    var u, v := BlocksOf(t, a), BlocksOf(t, b);
    forall x | x in u ensures x.header < x.last { var p := BlockSource(t, a, x); }
    forall y | y in v ensures y.header < y.last { var q := BlockSource(t, b, y); }
    forall x, y | x in u && y in v ensures x.last < y.header {
      var p := BlockSource(t, a, x);
      var q := BlockSource(t, b, y);
      RowsAscend(t, p.close, q.open);
      assert x in u + v && y in u + v;
    }
  }

  /** What fresh maps before and after the edit have in common: the same roots above it, and the
      same roots below it, shifted. */
  lemma {:induction false} FreshBlocksMove(e: Edit, before: Text, after: Text, ps: seq<FoldPair>)
    returns (ra: seq<R.FoldedRegion>, rb: seq<R.FoldedRegion>)
    requires Rewrites([e], before, after) && PairsIn(|before|, ps) && Nested(ps) && Outside(e, ps)
    requires PairsIn(|after|, MovedPairs(e, ps)) && RowsNest(before, ps) && RowsNest(after, MovedPairs(e, ps))
    ensures e.os <= e.oe <= |before|
    ensures FreshBlocks(before, ps) == ra + rb && R.Disjoined(ra + rb)
    ensures FreshBlocks(after, MovedPairs(e, ps)) == ra + B.ShiftRows(rb, RowDelta(before, after))
    ensures R.Disjoined(ra + B.ShiftRows(rb, RowDelta(before, after)))
    ensures forall x | x in ra :: x.last <= RowOf(before, e.os)
    ensures forall y | y in rb :: RowOf(before, e.oe) <= y.header < y.last && y.header + RowDelta(before, after) >= 0
  {
    hide Rewrites, RowOf, BlocksOf, B.Roots, Outside, Nested, B.Laminar, R.Disjoined, B.ShiftRows;
    LengthAfter(e, before, after);
    AroundEdit(e, before, after, ps);
    var k, d := CutAt(ps, e.os), RowDelta(before, after);
    var a, b := ps[..k], ps[k..];
    var w := ShiftPairs(b, Delta(e));
    BeforeKept(e, before, after, a);
    AfterMoved(e, before, after, b);
    BlocksConcat(before, a, b);
    BlocksConcat(after, a, w);
    ShiftedOpens(b, Delta(e), e.oe);
    BeforeAboveAfter(before, a, b, e.os);
    BeforeAboveAfter(after, a, w, e.os);
    ra, rb := B.Roots(BlocksOf(before, a)), B.Roots(BlocksOf(before, b));
    B.RootsSplit(BlocksOf(before, a), BlocksOf(before, b));
    B.RootsSplit(BlocksOf(after, a), BlocksOf(after, w));
    B.RootsShift(BlocksOf(before, b), d);
    RootsOfConcat(BlocksOf(before, a), BlocksOf(before, b));
    RootsOfConcat(BlocksOf(after, a), BlocksOf(after, w));
    RootBounds(before, a, b, e.os, e.oe);
    forall y | y in rb ensures y.header + d >= 0 {
      B.RootsFrom(BlocksOf(before, b));
    }
  }

  lemma {:induction false} ShiftedOpens(ps: seq<FoldPair>, d: int, from: nat)
    requires from + d >= 0 && forall p | p in ps :: from <= p.open
    ensures forall p | p in ShiftPairs(ps, d) :: from + d <= p.open
  {
    if ps != [] {
      assert ps[0] in ps;
      forall p | p in ps[1..] ensures p in ps {}
      ShiftedOpens(ps[1..], d, from);
    }
  }

  lemma {:induction false} RootsOfConcat(a: seq<R.FoldedRegion>, b: seq<R.FoldedRegion>)
    requires B.AllBlocks(a) && B.AllBlocks(b)
    ensures R.Disjoined(B.Roots(a + b))
  {
    hide B.Roots, R.Disjoined;
    forall x | x in a + b ensures x.header < x.last {}
    B.RootsFrom(a + b);
  }

  lemma {:induction false} RootBounds(t: Text, a: seq<FoldPair>, b: seq<FoldPair>, os: nat, oe: nat)
    requires PairsIn(|t|, a) && PairsIn(|t|, b) && os <= oe <= |t|
    requires (forall p | p in a :: p.close < os) && (forall p | p in b :: oe <= p.open)
    ensures forall x | x in B.Roots(BlocksOf(t, a)) :: x in BlocksOf(t, a) && x.last <= RowOf(t, os)
    ensures forall y | y in B.Roots(BlocksOf(t, b)) :: y in BlocksOf(t, b) && RowOf(t, oe) <= y.header < y.last
  {
    hide RowOf, BlocksOf, B.Roots, R.Disjoined;
    BlocksAreBlocks(t, a);
    BlocksAreBlocks(t, b);
    B.RootsFrom(BlocksOf(t, a));
    B.RootsFrom(BlocksOf(t, b));
    forall x | x in B.Roots(BlocksOf(t, a)) ensures x.last <= RowOf(t, os) {
      var p := BlockSource(t, a, x);
      RowsAscend(t, p.close, os);
    }
    forall y | y in B.Roots(BlocksOf(t, b)) ensures RowOf(t, oe) <= y.header < y.last {
      var q := BlockSource(t, b, y);
      RowsAscend(t, oe, q.open);
    }
  }

  lemma {:induction false} BlocksAreBlocks(t: Text, ps: seq<FoldPair>)
    requires PairsIn(|t|, ps)
    ensures B.AllBlocks(BlocksOf(t, ps))
  {
    hide RowOf, BlocksOf;
    forall x | x in BlocksOf(t, ps) ensures x.header < x.last { var p := BlockSource(t, ps, x); }
  }

  // ----- the inline folds around the edit -----

  /** Resolved single-line pairs rise, and nest or lie apart, as the pairs do. */
  lemma {:induction false} InlinesNest(t: Text, ps: seq<FoldPair>)
    requires PairsIn(|t|, ps) && Nested(ps)
    ensures I.Rising(InlinesOf(t, ps)) && I.LaminarPairs(InlinesOf(t, ps))
    decreases |ps|
  {
    hide RowOf, I.NestOrApart;
    if ps != [] {
      PairsTail(|t|, ps);
      var tail := ps[1..];
      forall i, j | 0 <= i < j < |tail| ensures tail[i] == ps[i + 1] && tail[j] == ps[j + 1] {}
      assert Nested(tail);
      BlocksCons(t, ps);
      hide InlinesOf, Nested, I.Rising, I.LaminarPairs;
      InlinesNest(t, tail);
      var rest := InlinesOf(t, tail);
      if InlineOf(t, ps[0]) != [] {
        var f := InlineOf(t, ps[0])[0];
        forall y | y in rest ensures f.open < y.open && I.NestOrApart(f, y) { InlinePair(t, ps, f, y); }
        RisingCons(f, rest);
      }
    }
  }

  lemma {:induction false} InlinePair(t: Text, ps: seq<FoldPair>, f: I.InlineFold, y: I.InlineFold)
    requires PairsIn(|t|, ps) && Nested(ps) && ps != [] && PairsIn(|t|, ps[1..])
    requires ps[0].open < ps[0].close < |t| && f in InlineOf(t, ps[0]) && y in InlinesOf(t, ps[1..])
    ensures f.open < y.open && I.NestOrApart(f, y)
  {
    hide RowOf, InlinesOf;
    var q := InlineSource(t, ps[1..], y);
    var k :| 0 <= k < |ps[1..]| && ps[1..][k] == q;
    assert ps[k + 1] == q && ps[0].open < ps[k + 1].open;
    RowsAscend(t, f.open, y.open);
    if y.close < f.close { RowsAscend(t, y.open, f.close); }
  }

  lemma {:induction false} RisingCons(f: I.InlineFold, rest: seq<I.InlineFold>)
    requires I.Rising(rest) && I.LaminarPairs(rest) && f.open < f.close
    requires forall y | y in rest :: f.open < y.open && I.NestOrApart(f, y)
    ensures I.Rising([f] + rest) && I.LaminarPairs([f] + rest)
  {
    hide I.NestOrApart;
    forall j | 0 <= j < |rest| ensures f.open < rest[j].open && I.NestOrApart(f, rest[j]) { assert rest[j] in rest; }
  }

  lemma {:induction false} FreshInlineShape(t: Text, ps: seq<FoldPair>)
    requires PairsIn(|t|, ps) && Nested(ps)
    ensures I.Apart(FreshInline(t, ps)) && I.Ascending(FreshInline(t, ps))
    ensures forall f | f in FreshInline(t, ps) :: f in InlinesOf(t, ps)
  {
    hide InlinesOf, I.Rising, I.LaminarPairs, I.RootsInline, I.SortInline, I.Apart, I.Ascending, Nested;
    InlinesNest(t, ps);
    I.SortOfRising(InlinesOf(t, ps));
    I.RootsApart(InlinesOf(t, ps), None);
  }

  lemma {:induction false} ShiftNested(ps: seq<FoldPair>, d: int)
    requires Nested(ps) && forall p | p in ps :: p.open + d >= 0 && p.close + d >= 0
    ensures Nested(ShiftPairs(ps, d))
  {
    var w := ShiftPairs(ps, d);
    forall i, j | 0 <= i < j < |w|
      ensures w[i].open < w[j].open && (w[i].close < w[j].open || w[j].close < w[i].close)
    {
      PairShiftAt(ps, d, i);
      PairShiftAt(ps, d, j);
      assert ps[i] in ps && ps[j] in ps && ps[i].open < ps[j].open;
    }
  }

  lemma {:induction false} NestedConcat(a: seq<FoldPair>, b: seq<FoldPair>)
    requires Nested(a) && Nested(b) && forall p, q | p in a && q in b :: p.open < q.open && p.close < q.open
    ensures Nested(a + b)
  {
    var w := a + b;
    forall i, j | 0 <= i < j < |w|
      ensures w[i].open < w[j].open && (w[i].close < w[j].open || w[j].close < w[i].close)
    {
      if i < |a| <= j { assert a[i] in a && b[j - |a|] in b; }
      if |a| <= i { assert b[i - |a|].open < b[j - |a|].open; }
    }
  }

  lemma {:induction false} NestedParts(ps: seq<FoldPair>, k: nat)
    requires Nested(ps) && k <= |ps|
    ensures Nested(ps[..k]) && Nested(ps[k..])
  {
    var w := ps[k..];
    forall i, j | 0 <= i < j < |w|
      ensures w[i].open < w[j].open && (w[i].close < w[j].open || w[j].close < w[i].close)
    {
      assert ps[k + i].open < ps[k + j].open;
    }
  }

  lemma {:induction false} MovedNest(e: Edit, before: Text, after: Text, ps: seq<FoldPair>)
    requires Rewrites([e], before, after) && PairsIn(|before|, ps) && Nested(ps) && Outside(e, ps)
    ensures Nested(MovedPairs(e, ps))
  {
    hide Rewrites, Nested, Outside;
    LengthAfter(e, before, after);
    AroundEdit(e, before, after, ps);
    var k := CutAt(ps, e.os);
    NestedParts(ps, k);
    ShiftNested(ps[k..], Delta(e));
    ShiftedOpens(ps[k..], Delta(e), e.oe);
    NestedConcat(ps[..k], ShiftPairs(ps[k..], Delta(e)));
  }

  lemma {:induction false} PairShiftAt(ps: seq<FoldPair>, d: int, i: nat)
    requires i < |ps|
    ensures ShiftPairs(ps, d)[i] == ShiftPair(ps[i], d)
  {
    if i > 0 { PairShiftAt(ps[1..], d, i - 1); }
  }

  lemma {:induction false} FreshInlineMoves(e: Edit, before: Text, after: Text, ps: seq<FoldPair>)
    returns (u: seq<I.InlineFold>, v: seq<I.InlineFold>)
    requires Rewrites([e], before, after) && PairsIn(|before|, ps) && Nested(ps) && Outside(e, ps)
    requires PairsIn(|after|, MovedPairs(e, ps))
    ensures FreshInline(before, ps) == u + v
    ensures FreshInline(after, MovedPairs(e, ps)) == u + I.ShiftFolds(v, Delta(e), RowDelta(before, after))
    ensures forall f | f in u :: f.close < e.os
    ensures forall f | f in v :: e.oe <= f.open && I.Shiftable([f], Delta(e), RowDelta(before, after))
    ensures e.os <= e.oe && e.oe + Delta(e) == e.ne
  {
    hide Rewrites, RowOf, InlinesOf, Outside, Nested, I.Rising, I.RootsInline, I.SortInline, I.ShiftFolds,
         I.LaminarPairs;
    LengthAfter(e, before, after);
    AroundEdit(e, before, after, ps);
    MovedNest(e, before, after, ps);
    var k, d := CutAt(ps, e.os), RowDelta(before, after);
    var a, b := ps[..k], ps[k..];
    BeforeKept(e, before, after, a);
    AfterMoved(e, before, after, b);
    BlocksConcat(before, a, b);
    BlocksConcat(after, a, ShiftPairs(b, Delta(e)));
    InlinesNest(before, ps);
    InlinesNest(after, MovedPairs(e, ps));
    var x, y := InlinesOf(before, a), InlinesOf(before, b);
    forall f | f in x ensures f.close < e.os { var p := InlineSource(before, a, f); }
    forall f | f in y ensures e.oe <= f.open <= f.close { var p := InlineSource(before, b, f); }
    I.RootsMove(x, y, Delta(e), d);
    u, v := I.RootsInline(x, None), I.RootsInline(y, None);
    I.RootsInlineFrom(x, None);
    I.RootsInlineFrom(y, None);
  }

  /** The fresh inline folds are exactly the single-line pairs inside no other. */
  lemma {:induction false} FreshMembers(t: Text, ps: seq<FoldPair>, f: I.InlineFold)
    requires PairsIn(|t|, ps) && Nested(ps)
    ensures f in FreshInline(t, ps) <==> exists p :: ShowsInline(t, ps, p) && f == FoldOf(t, p)
  {
    hide RowOf, Nested, I.Rising, I.LaminarPairs, I.RootsInline, I.SortInline, InlinesOf, SingleLine, I.Inside;
    var fs := InlinesOf(t, ps);
    InlinesNest(t, ps);
    I.SortOfRising(fs);
    I.RootsMembers(fs, None, f);
    if f in fs {
      var p := InlineSource(t, ps, f);
      RootShows(t, ps, p);
    }
    forall p | p in ps && ShowsInline(t, ps, p) && f == FoldOf(t, p) ensures f in fs { ShownMember(t, ps, p); }
    forall p | p in ps && ShowsInline(t, ps, p) && f == FoldOf(t, p)
      ensures forall y | y in fs :: !I.Inside(f, y)
    {
      RootShows(t, ps, p);
    }
  }

  lemma {:induction false} ShownMember(t: Text, ps: seq<FoldPair>, p: FoldPair)
    requires PairsIn(|t|, ps) && ShowsInline(t, ps, p)
    ensures FoldOf(t, p) in InlinesOf(t, ps)
  {
    InlineMember(t, ps, p);
  }

  /** A single-line pair's fold is inside no other exactly when the pair shows. */
  lemma {:induction false} RootShows(t: Text, ps: seq<FoldPair>, p: FoldPair)
    requires PairsIn(|t|, ps) && Nested(ps) && p in ps && FoldOf(t, p) in InlinesOf(t, ps)
    ensures ShowsInline(t, ps, p) <==> forall y | y in InlinesOf(t, ps) :: !I.Inside(FoldOf(t, p), y)
  {
    hide RowOf, InlinesOf, Nested;
    var fs, f := InlinesOf(t, ps), FoldOf(t, p);
    var q := InlineSource(t, ps, f);
    RowsAscend(t, q.open, q.close);
    if y :| y in fs && I.Inside(f, y) {
      var r := InlineSource(t, ps, y);
      RowsAscend(t, r.open, r.close);
      assert r.open < p.open && p.close < r.close && SingleLine(t, r);
    } else {
      forall r | r in ps && r.open < p.open && p.close < r.close ensures !SingleLine(t, r) {
        InlineMember(t, ps, r);
        RowsAscend(t, r.open, p.open);
        RowsAscend(t, p.open, r.close);
      }
    }
  }

  /** Every single-line pair with an interior lies in a stored fold. */
  lemma {:induction false} SingleLineHidden(t: Text, ps: seq<FoldPair>, p: FoldPair) returns (f: I.InlineFold)
    requires PairsIn(|t|, ps) && Nested(ps) && p in ps && SingleLine(t, p)
    ensures f in FreshInline(t, ps) && f.row == RowOf(t, p.open) && f.open <= p.open && p.close <= f.close
    decreases p.open
  {
    hide RowOf, Nested, FreshInline;
    if ShowsInline(t, ps, p) {
      f := FoldOf(t, p);
      FreshMembers(t, ps, f);
    } else {
      var r :| r in ps && r.open < p.open && p.close < r.close && SingleLine(t, r);
      RowsAscend(t, r.open, p.open);
      RowsAscend(t, p.open, r.close);
      f := SingleLineHidden(t, ps, r);
    }
  }

  lemma {:induction false} BlockMember(t: Text, ps: seq<FoldPair>, p: FoldPair)
    requires PairsIn(|t|, ps) && p in ps && RowOf(t, p.open) < RowOf(t, p.close)
    ensures R.FoldedRegion(RowOf(t, p.open), RowOf(t, p.close)) in BlocksOf(t, ps)
    decreases |ps|
  {
    hide RowOf;
    PairsTail(|t|, ps);
    BlocksCons(t, ps);
    if p != ps[0] {
      assert p in ps[1..];
      BlockMember(t, ps[1..], p);
    }
  }

  /** While the folded blocks nest or share no row, the rows a fresh build hides are exactly the ones a
      folded pair spans below its opener's. */
  lemma {:induction false} SpannedRowsHidden(t: Text, ps: seq<FoldPair>, row: nat)
    requires PairsIn(|t|, ps) && RowsNest(t, ps)
    ensures R.IsHidden(FreshBlocks(t, ps), row)
            <==> exists p :: p in ps && RowOf(t, p.open) < row <= RowOf(t, p.close)
  {
    hide RowOf, BlocksOf, B.Roots, B.Laminar;
    var bs := BlocksOf(t, ps);
    BlocksAreBlocks(t, ps);
    B.LaminarHidesTheSame(bs, row);
    if R.IsHidden(bs, row) {
      var i :| 0 <= i < |bs| && bs[i].header < row <= bs[i].last;
      var p := BlockSource(t, ps, bs[i]);
      assert p in ps && RowOf(t, p.open) < row <= RowOf(t, p.close);
    }
    if p :| p in ps && RowOf(t, p.open) < row <= RowOf(t, p.close) {
      BlockMember(t, ps, p);
      var i :| 0 <= i < |bs| && bs[i] == R.FoldedRegion(RowOf(t, p.open), RowOf(t, p.close));
    }
  }
}
