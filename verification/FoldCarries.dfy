/**
 What a patch that spares every folded bracket does to the single-line folds: where the position
 map takes each stored fold, and exactly when that is the fold a fresh build would give.
 */
module FoldCarries {
  import opened Base
  import opened Patches
  import opened TextRows
  import opened FoldPairs
  import C = PatchCarries
  import I = FoldInlines

  // ----- the pairs, carried with their brackets -----

  /** No bracket of a folded pair is replaced. */
  ghost predicate Spared(p: Patch, ps: seq<FoldPair>) {
    forall q | q in ps :: C.Outside(p, q.open) && C.Outside(p, q.close)
  }

  /** Each bracket where its own gap carries it. */
  ghost function CarriedPair(p: Patch, q: FoldPair): (r: FoldPair)
    requires WellFormed(p) && C.Outside(p, q.open) && C.Outside(p, q.close)
    ensures r.open == C.Carried(p, q.open) && r.close == C.Carried(p, q.close)
  {
    C.CarriedAbove(p, q.open);
    C.CarriedAbove(p, q.close);
    FoldPair(C.Carried(p, q.open), C.Carried(p, q.close))
  }

  ghost function CarriedPairs(p: Patch, ps: seq<FoldPair>): (w: seq<FoldPair>)
    requires WellFormed(p) && Spared(p, ps)
    ensures |w| == |ps|
  {
    seq(|ps|, i requires 0 <= i < |ps| => (assert ps[i] in ps; CarriedPair(p, ps[i])))
  }

  lemma {:induction false} CarriedFrom(p: Patch, ps: seq<FoldPair>, c: FoldPair) returns (q: FoldPair)
    requires WellFormed(p) && Spared(p, ps) && c in CarriedPairs(p, ps)
    ensures q in ps && c == CarriedPair(p, q)
  {
    var i :| 0 <= i < |ps| && CarriedPairs(p, ps)[i] == c;
    q := ps[i];
  }

  lemma {:induction false} CarriedTo(p: Patch, ps: seq<FoldPair>, q: FoldPair)
    requires WellFormed(p) && Spared(p, ps) && q in ps
    ensures CarriedPair(p, q) in CarriedPairs(p, ps)
  {
    var i :| 0 <= i < |ps| && ps[i] == q;
    assert CarriedPairs(p, ps)[i] == CarriedPair(p, q);
  }

  /** The carried pairs are pairs of the new text, nested as before. */
  lemma {:induction false} CarriedIn(p: Patch, before: Text, after: Text, ps: seq<FoldPair>)
    requires Rewrites(p, before, after) && PairsIn(|before|, ps) && Spared(p, ps)
    ensures WellFormed(p) && PairsIn(|after|, CarriedPairs(p, ps))
    ensures Nested(ps) ==> Nested(CarriedPairs(p, ps))
  {
    hide Rewrites, C.Carried, C.Outside, WellFormed;
    RewritesWellFormed(p, before, after);
    var w := CarriedPairs(p, ps);
    forall c | c in w ensures c.open < c.close < |after| {
      var q := CarriedFrom(p, ps, c);
      C.CarriedByte(p, before, after, q.close);
      C.CarriedKeepsOrder(p, q.open, q.close);
    }
    if Nested(ps) {
      forall i, j | 0 <= i < j < |w|
        ensures w[i].open < w[j].open && (w[i].close < w[j].open || w[j].close < w[i].close)
      {
        assert ps[i] in ps && ps[j] in ps;
        C.CarriedKeepsOrder(p, ps[i].open, ps[j].open);
        if ps[i].close < ps[j].open {
          C.CarriedKeepsOrder(p, ps[i].close, ps[j].open);
        } else {
          C.CarriedKeepsOrder(p, ps[j].close, ps[i].close);
        }
      }
    }
  }

  // ----- the fallback -----

  /** Ride each inline fold through the patch. */
  function RideFold(p: Patch, f: I.InlineFold): I.InlineFold
    requires WellFormed(p)
  {
    I.InlineFold(f.row, Mapped(p, f.open, Right), Mapped(p, f.close, Right))
  }

  function RideFolds(p: Patch, fs: seq<I.InlineFold>): (w: seq<I.InlineFold>)
    requires WellFormed(p)
    ensures |w| == |fs| && forall i | 0 <= i < |w| :: w[i] == RideFold(p, fs[i])
  {
    seq(|fs|, i requires 0 <= i < |fs| => RideFold(p, fs[i]))
  }

  /** `g` is the fold `f`, its brackets where their bytes went and its row the row they are on now. */
  ghost predicate Follows(p: Patch, after: Text, f: I.InlineFold, g: I.InlineFold) {
    && g.open == C.Carried(p, f.open) && g.close == C.Carried(p, f.close)
    && g.open <= |after| && g.row == RowOf(after, g.open)
  }

  /** The fold's row is still the row of its opener, and nothing is inserted stacked on a bracket. */
  ghost predicate Steady(p: Patch, after: Text, f: I.InlineFold) {
    && 0 <= C.Carried(p, f.open) <= |after| && f.row == RowOf(after, C.Carried(p, f.open))
    && !C.StackedInsert(p, f.open) && !C.StackedInsert(p, f.close)
  }

  /** The brackets of the folds are in no replaced range. */
  ghost predicate FoldsSpared(p: Patch, t: Text, fs: seq<I.InlineFold>) {
    forall f | f in fs ::
      f.open < f.close < |t| && f.row == RowOf(t, f.open) && C.Outside(p, f.open) && C.Outside(p, f.close)
  }

  lemma {:induction false} FreshSpared(p: Patch, t: Text, ps: seq<FoldPair>)
    requires PairsIn(|t|, ps) && Nested(ps) && Spared(p, ps)
    ensures FoldsSpared(p, t, FreshInline(t, ps))
  {
    hide FreshInline, C.Outside, RowOf, Nested, InlinesOf;
    FreshInlineShape(t, ps);
    forall f | f in FreshInline(t, ps)
      ensures f.open < f.close < |t| && f.row == RowOf(t, f.open) && C.Outside(p, f.open) && C.Outside(p, f.close)
    {
      var q := InlineSource(t, ps, f);
    }
  }

  /** A ridden fold goes with its brackets exactly when it is steady. */
  lemma {:induction false} RideFollows(p: Patch, before: Text, after: Text, f: I.InlineFold)
    requires Rewrites(p, before, after) && WellFormed(p) && FoldsSpared(p, before, [f])
    ensures Follows(p, after, f, RideFold(p, f)) <==> Steady(p, after, f)
  {
    hide Rewrites, MapOffset, C.Carried, C.Outside, RowOf, WellFormed, C.StackedInsert;
    assert f in [f];
    C.CarriedByte(p, before, after, f.open);
    C.MapIsCarried(p, f.open);
    C.MapIsCarried(p, f.close);
  }

  /** The ridden folds ascend. */
  lemma {:induction false} RideAscends(p: Patch, t: Text, fs: seq<I.InlineFold>)
    requires WellFormed(p) && FoldsSpared(p, t, fs) && I.Ascending(fs) && I.Apart(fs)
    ensures I.Ascending(RideFolds(p, fs)) && I.Rising(RideFolds(p, fs))
  {
    hide MapOffset, C.Outside, WellFormed;
    var w := RideFolds(p, fs);
    forall i | 0 <= i < |w| ensures w[i].open <= w[i].close {
      assert fs[i] in fs;
      C.MapKeepsOrder(p, fs[i].open, fs[i].close);
    }
    forall i, j | 0 <= i < j < |w| ensures w[i].open < w[j].open && w[i].row <= w[j].row {
      assert fs[i] in fs && fs[j] in fs;
      assert fs[i].open <= fs[i].close < fs[j].open && fs[i].row <= fs[j].row;
      C.MapKeepsOrder(p, fs[i].open, fs[j].open);
    }
  }

  // ----- against a fresh build -----

  /** The pairs that show as folds are the ones that did. */
  ghost predicate KeepsShown(p: Patch, before: Text, after: Text, ps: seq<FoldPair>)
    requires Rewrites(p, before, after) && WellFormed(p) && PairsIn(|before|, ps) && Spared(p, ps)
  {
    CarriedIn(p, before, after, ps);
    forall q | q in ps ::
      ShowsInline(before, ps, q) <==> ShowsInline(after, CarriedPairs(p, ps), CarriedPair(p, q))
  }

  /** Each fold of `w` is one of `fs`, moved: none lands on another pair's opener. */
  ghost predicate Tracks(p: Patch, ps: seq<FoldPair>, fs: seq<I.InlineFold>, w: seq<I.InlineFold>) {
    && |w| == |fs| && I.Rising(w)
    && forall i, q | 0 <= i < |w| && q in ps :: w[i].open == C.Carried(p, q.open) ==> fs[i].open == q.open
  }

  ghost predicate AllFollow(p: Patch, after: Text, fs: seq<I.InlineFold>, w: seq<I.InlineFold>)
    requires |w| == |fs|
  {
    forall i | 0 <= i < |fs| :: Follows(p, after, fs[i], w[i])
  }

  /** What a pair's fold becomes, if it goes with its brackets. */
  lemma {:induction false} FollowsPair(p: Patch, before: Text, after: Text, ps: seq<FoldPair>, q: FoldPair,
                                       g: I.InlineFold)
    requires Rewrites(p, before, after) && WellFormed(p) && PairsIn(|before|, ps) && Spared(p, ps) && q in ps
    ensures CarriedPair(p, q).open < |after|
    ensures Follows(p, after, FoldOf(before, q), g) <==> g == FoldOf(after, CarriedPair(p, q))
  {
    hide Rewrites, C.Carried, C.Outside, RowOf, WellFormed;
    C.CarriedByte(p, before, after, q.open);
  }

  lemma {:induction false} SameOpener(ps: seq<FoldPair>, a: FoldPair, b: FoldPair)
    requires Nested(ps) && a in ps && b in ps && a.open == b.open
    ensures a == b
  {
    var i :| 0 <= i < |ps| && ps[i] == a;
    var j :| 0 <= j < |ps| && ps[j] == b;
  }

  /** The fold list of a fresh build rises, and holds the folds of the pairs that show. */
  lemma {:induction false} FreshRises(t: Text, ps: seq<FoldPair>)
    requires PairsIn(|t|, ps) && Nested(ps)
    ensures I.Rising(FreshInline(t, ps))
  {
    hide FreshInline, Nested;
    FreshInlineShape(t, ps);
    var fs := FreshInline(t, ps);
    forall i, j | 0 <= i < j < |fs| ensures fs[i].open < fs[j].open {
      assert fs[i].open <= fs[i].close < fs[j].open;
    }
  }

  /** A moved fold that a fresh build also gives goes with its brackets, and its pair still shows. */
  lemma {:induction false} StillShows(p: Patch, before: Text, after: Text, ps: seq<FoldPair>, w: seq<I.InlineFold>,
                                      q: FoldPair, i: nat)
    requires Rewrites(p, before, after) && WellFormed(p) && PairsIn(|before|, ps) && Nested(ps) && Spared(p, ps)
    requires PairsIn(|after|, CarriedPairs(p, ps)) && Nested(CarriedPairs(p, ps))
    requires Tracks(p, ps, FreshInline(before, ps), w) && i < |w| && q in ps
    requires FreshInline(before, ps)[i] == FoldOf(before, q) && w[i] in FreshInline(after, CarriedPairs(p, ps))
    requires CarriedPair(p, q).open < |after|
    ensures w[i] == FoldOf(after, CarriedPair(p, q)) && ShowsInline(after, CarriedPairs(p, ps), CarriedPair(p, q))
  {
    hide Rewrites, FreshInline, Nested, C.Carried, C.Outside, RowOf, WellFormed, SingleLine;
    FreshMembers(after, CarriedPairs(p, ps), w[i]);
    var c :| ShowsInline(after, CarriedPairs(p, ps), c) && w[i] == FoldOf(after, c);
    var r := CarriedFrom(p, ps, c);
    SameOpener(ps, q, r);
  }

  /** A pair whose carried fold is in the moved list showed before. */
  lemma {:induction false} ShowedBefore(p: Patch, before: Text, after: Text, ps: seq<FoldPair>, w: seq<I.InlineFold>,
                                        q: FoldPair)
    requires Rewrites(p, before, after) && WellFormed(p) && PairsIn(|before|, ps) && Nested(ps) && Spared(p, ps)
    requires Tracks(p, ps, FreshInline(before, ps), w) && q in ps
    requires CarriedPair(p, q).open < |after| && FoldOf(after, CarriedPair(p, q)) in w
    ensures ShowsInline(before, ps, q)
  {
    hide Rewrites, FreshInline, Nested, C.Carried, C.Outside, RowOf, WellFormed, SingleLine;
    var i :| 0 <= i < |w| && w[i] == FoldOf(after, CarriedPair(p, q));
    var f := FreshInline(before, ps)[i];
    assert f in FreshInline(before, ps);
    FreshMembers(before, ps, f);
    var r :| ShowsInline(before, ps, r) && f == FoldOf(before, r);
    SameOpener(ps, q, r);
  }

  /** The moved folds are the fresh ones exactly when each goes with its brackets and the pairs that
      show are the ones that did. */
  lemma {:induction false} MovedIsFresh(p: Patch, before: Text, after: Text, ps: seq<FoldPair>, w: seq<I.InlineFold>)
    requires Rewrites(p, before, after) && WellFormed(p) && PairsIn(|before|, ps) && Nested(ps) && Spared(p, ps)
    requires Tracks(p, ps, FreshInline(before, ps), w)
    ensures PairsIn(|after|, CarriedPairs(p, ps))
    ensures w == FreshInline(after, CarriedPairs(p, ps))
            <==> KeepsShown(p, before, after, ps) && AllFollow(p, after, FreshInline(before, ps), w)
  {
    CarriedIn(p, before, after, ps);
    if w == FreshInline(after, CarriedPairs(p, ps)) {
      FreshThenFollows(p, before, after, ps, w);
    } else if KeepsShown(p, before, after, ps) && AllFollow(p, after, FreshInline(before, ps), w) {
      FollowsThenFresh(p, before, after, ps, w);
    }
  }

  lemma {:induction false} FreshThenFollows(p: Patch, before: Text, after: Text, ps: seq<FoldPair>,
                                            w: seq<I.InlineFold>)
    requires Rewrites(p, before, after) && WellFormed(p) && PairsIn(|before|, ps) && Nested(ps) && Spared(p, ps)
    requires Tracks(p, ps, FreshInline(before, ps), w)
    requires PairsIn(|after|, CarriedPairs(p, ps)) && Nested(CarriedPairs(p, ps))
    requires w == FreshInline(after, CarriedPairs(p, ps))
    ensures KeepsShown(p, before, after, ps) && AllFollow(p, after, FreshInline(before, ps), w)
  {
    hide Rewrites, FreshInline, Nested, C.Carried, C.Outside, RowOf, WellFormed, ShowsInline, Tracks, Follows, FoldOf;
    var fs := FreshInline(before, ps);
    TracksLength(p, ps, fs, w);
    forall i | 0 <= i < |fs| ensures Follows(p, after, fs[i], w[i]) {
      assert fs[i] in fs && w[i] in w;
      var q := ShownPair(before, ps, fs[i]);
      FollowsPair(p, before, after, ps, q, w[i]);
      StillShows(p, before, after, ps, w, q, i);
    }
    forall q | q in ps
      ensures ShowsInline(before, ps, q) <==> ShowsInline(after, CarriedPairs(p, ps), CarriedPair(p, q))
    {
      FollowsPair(p, before, after, ps, q, FoldOf(before, q));
      if ShowsInline(before, ps, q) {
        FreshMembers(before, ps, FoldOf(before, q));
        var i :| 0 <= i < |fs| && fs[i] == FoldOf(before, q);
        assert w[i] in w;
        StillShows(p, before, after, ps, w, q, i);
      }
      if ShowsInline(after, CarriedPairs(p, ps), CarriedPair(p, q)) {
        FreshMembers(after, CarriedPairs(p, ps), FoldOf(after, CarriedPair(p, q)));
        ShowedBefore(p, before, after, ps, w, q);
      }
    }
  }

  lemma {:induction false} TracksLength(p: Patch, ps: seq<FoldPair>, fs: seq<I.InlineFold>, w: seq<I.InlineFold>)
    requires Tracks(p, ps, fs, w)
    ensures |w| == |fs| && I.Rising(w)
  {}

  lemma {:induction false} ShownPair(t: Text, ps: seq<FoldPair>, f: I.InlineFold) returns (q: FoldPair)
    requires PairsIn(|t|, ps) && Nested(ps) && f in FreshInline(t, ps)
    ensures ShowsInline(t, ps, q) && q in ps && f == FoldOf(t, q)
  {
    hide FreshInline, Nested, RowOf, SingleLine;
    FreshMembers(t, ps, f);
    q :| ShowsInline(t, ps, q) && f == FoldOf(t, q);
  }

  lemma {:induction false} FollowsThenFresh(p: Patch, before: Text, after: Text, ps: seq<FoldPair>,
                                            w: seq<I.InlineFold>)
    requires Rewrites(p, before, after) && WellFormed(p) && PairsIn(|before|, ps) && Nested(ps) && Spared(p, ps)
    requires Tracks(p, ps, FreshInline(before, ps), w)
    requires PairsIn(|after|, CarriedPairs(p, ps)) && Nested(CarriedPairs(p, ps))
    requires KeepsShown(p, before, after, ps) && AllFollow(p, after, FreshInline(before, ps), w)
    ensures w == FreshInline(after, CarriedPairs(p, ps))
  {
    hide Rewrites, FreshInline, Nested, C.Carried, C.Outside, RowOf, WellFormed, ShowsInline, Tracks, Follows, FoldOf,
         I.Rising;
    var fs, now := FreshInline(before, ps), FreshInline(after, CarriedPairs(p, ps));
    TracksLength(p, ps, fs, w);
    FreshRises(after, CarriedPairs(p, ps));
    forall f ensures f in w <==> f in now {
      if f in w {
        var i :| 0 <= i < |w| && w[i] == f;
        assert fs[i] in fs && Follows(p, after, fs[i], w[i]);
        var q := ShownPair(before, ps, fs[i]);
        FollowsPair(p, before, after, ps, q, f);
        FreshMembers(after, CarriedPairs(p, ps), f);
      }
      if f in now {
        var c := ShownPair(after, CarriedPairs(p, ps), f);
        var q := CarriedFrom(p, ps, c);
        FollowsPair(p, before, after, ps, q, f);
        FreshMembers(before, ps, FoldOf(before, q));
        var i :| 0 <= i < |fs| && fs[i] == FoldOf(before, q);
        FollowsPair(p, before, after, ps, q, w[i]);
        assert Follows(p, after, fs[i], w[i]) && w[i] in w;
      }
    }
    I.RisingUnique(w, now);
  }

  // ----- which moves track -----

  /** Ridden folds track their pairs. */
  lemma {:induction false} RideTracks(p: Patch, t: Text, ps: seq<FoldPair>)
    requires WellFormed(p) && PairsIn(|t|, ps) && Nested(ps) && Spared(p, ps)
    ensures Tracks(p, ps, FreshInline(t, ps), RideFolds(p, FreshInline(t, ps)))
    ensures I.Ascending(RideFolds(p, FreshInline(t, ps)))
  {
    hide FreshInline, Nested, C.Carried, C.Outside, RowOf, WellFormed, MapOffset, I.Rising, I.Ascending, I.Apart;
    var fs := FreshInline(t, ps);
    FreshInlineShape(t, ps);
    FreshSpared(p, t, ps);
    RideAscends(p, t, fs);
    var w := RideFolds(p, fs);
    forall i, q | 0 <= i < |w| && q in ps && w[i].open == C.Carried(p, q.open) ensures fs[i].open == q.open {
      assert fs[i] in fs;
      C.MapNamesByte(p, fs[i].open, q.open);
    }
  }

  /** The fallback gives the fresh folds exactly when every fold is steady and the pairs that show
      are the ones that did. */
  lemma {:induction false} RideIsFresh(p: Patch, before: Text, after: Text, ps: seq<FoldPair>)
    requires Rewrites(p, before, after) && WellFormed(p) && PairsIn(|before|, ps) && Nested(ps) && Spared(p, ps)
    ensures PairsIn(|after|, CarriedPairs(p, ps))
    ensures RideFolds(p, FreshInline(before, ps)) == FreshInline(after, CarriedPairs(p, ps))
            <==> KeepsShown(p, before, after, ps) && forall f | f in FreshInline(before, ps) :: Steady(p, after, f)
    ensures forall f | f in FreshInline(before, ps) :: Follows(p, after, f, RideFold(p, f)) <==> Steady(p, after, f)
  {
    hide FreshInline, Nested, C.Outside, WellFormed, Rewrites, Follows, Steady, KeepsShown, Tracks, Spared, PairsIn,
         FoldsSpared;
    var fs := FreshInline(before, ps);
    RideTracks(p, before, ps);
    MovedIsFresh(p, before, after, ps, RideFolds(p, fs));
    FreshSpared(p, before, ps);
    forall f | f in fs ensures Follows(p, after, f, RideFold(p, f)) <==> Steady(p, after, f) {
      SparedOne(p, before, fs, f);
      RideFollows(p, before, after, f);
    }
    forall i | 0 <= i < |fs| ensures fs[i] in fs {}
  }

  lemma {:induction false} SparedOne(p: Patch, t: Text, fs: seq<I.InlineFold>, f: I.InlineFold)
    requires FoldsSpared(p, t, fs) && f in fs
    ensures FoldsSpared(p, t, [f]) && f.open < f.close < |t| && f.row == RowOf(t, f.open)
    ensures C.Outside(p, f.open) && C.Outside(p, f.close)
  {}

  /** Folds that go with their brackets track their pairs. */
  lemma {:induction false} FollowTracks(p: Patch, before: Text, after: Text, ps: seq<FoldPair>, w: seq<I.InlineFold>)
    requires Rewrites(p, before, after) && WellFormed(p) && PairsIn(|before|, ps) && Nested(ps) && Spared(p, ps)
    requires |w| == |FreshInline(before, ps)| && AllFollow(p, after, FreshInline(before, ps), w)
    ensures Tracks(p, ps, FreshInline(before, ps), w)
  {
    hide FreshInline, Nested, C.Carried, C.Outside, RowOf, WellFormed, Rewrites;
    var fs := FreshInline(before, ps);
    FreshRises(before, ps);
    FreshSpared(p, before, ps);
    forall i, j | 0 <= i < j < |w| ensures w[i].open < w[j].open {
      assert fs[i] in fs && fs[j] in fs && fs[i].open < fs[j].open;
      assert Follows(p, after, fs[i], w[i]) && Follows(p, after, fs[j], w[j]);
      C.CarriedKeepsOrder(p, fs[i].open, fs[j].open);
    }
    forall i, q | 0 <= i < |w| && q in ps && w[i].open == C.Carried(p, q.open) ensures fs[i].open == q.open {
      assert fs[i] in fs && Follows(p, after, fs[i], w[i]);
      if fs[i].open < q.open { C.CarriedKeepsOrder(p, fs[i].open, q.open); }
      if q.open < fs[i].open { C.CarriedKeepsOrder(p, q.open, fs[i].open); }
    }
  }

  // ----- one edit -----

  lemma {:induction false} CarriedByOne(e: Edit, before: Text, after: Text, x: nat)
    requires Rewrites([e], before, after) && C.Outside([e], x) && x <= |before|
    ensures x < e.os ==> C.Carried([e], x) == x
    ensures x >= e.os ==> e.oe <= x && C.Carried([e], x) == x + Delta(e)
    ensures 0 <= C.Carried([e], x) <= |after|
    ensures RowOf(after, C.Carried([e], x)) == RowOf(before, x) + if x < e.os then 0 else RowDelta(before, after)
  {
    LengthAfter(e, before, after);
    OneShift(e);
    assert [e][0] == e && ([e][0].os <= x < [e][0].oe || [e][0].os > x || [e][0].oe <= x);
    var k := C.EndsBy([e], x);
    assert k == if x < e.os then 0 else 1;
    hide Rewrites, RowOf, RowDelta, Shift, C.EndsBy;
    if x < e.os { RowsBefore(e, before, after, x); } else { RowsAfter(e, before, after, x); }
  }

  /** The seam shift of an edit touching no fold takes every fold with its brackets. */
  lemma {:induction false} SeamFollows(e: Edit, before: Text, after: Text, fs: seq<I.InlineFold>, k: nat)
    requires Rewrites([e], before, after) && FoldsSpared([e], before, fs)
    requires !(exists f :: f in fs && f.open <= e.oe && f.close >= e.os)
    requires k <= |fs| && forall i | 0 <= i < |fs| :: fs[i].open < e.os <==> i < k
    ensures AllFollow([e], after, fs, fs[..k] + I.ShiftFolds(fs[k..], Delta(e), RowDelta(before, after)))
  {
    hide Rewrites, RowOf, RowDelta, C.Outside, C.Carried, I.ShiftFolds;
    LengthAfter(e, before, after);
    var d := RowDelta(before, after);
    var w := fs[..k] + I.ShiftFolds(fs[k..], Delta(e), d);
    forall i | 0 <= i < |fs| ensures Follows([e], after, fs[i], w[i]) {
      assert fs[i] in fs;
      CarriedByOne(e, before, after, fs[i].open);
      CarriedByOne(e, before, after, fs[i].close);
      if i >= k { I.ShiftAt(fs[k..], Delta(e), d, i - k); }
    }
  }

  /** One edit that changes no row count leaves every spared row where it was, and stacks nothing. */
  lemma {:induction false} OneEditSteady(p: Patch, before: Text, after: Text, fs: seq<I.InlineFold>)
    requires Rewrites(p, before, after) && |p| == 1 && RowDelta(before, after) == 0 && FoldsSpared(p, before, fs)
    ensures forall f | f in fs :: Steady(p, after, f)
  {
    assert p == [p[0]];
    hide Rewrites, RowOf, RowDelta, C.Outside, C.Carried;
    forall f | f in fs ensures Steady(p, after, f) { CarriedByOne(p[0], before, after, f.open); }
  }

  // ----- edits outside every pair -----

  lemma {:induction false} SameGap(p: Patch, q: FoldPair)
    requires WellFormed(p) && q.open < q.close && forall i | 0 <= i < |p| :: q.close < p[i].os || p[i].oe <= q.open
    ensures C.Outside(p, q.open) && C.Outside(p, q.close) && C.EndsBy(p, q.open) == C.EndsBy(p, q.close)
    ensures GapStart(p, C.EndsBy(p, q.open)) <= q.open
    ensures C.EndsBy(p, q.open) < |p| ==> q.close < p[C.EndsBy(p, q.open)].os
  {
    C.EndsAscend(p, q.open, q.close);
  }

  /** A pair no edit reaches into keeps its width and its kind. */
  lemma {:induction false} PairKeepsKind(p: Patch, before: Text, after: Text, q: FoldPair)
    requires Rewrites(p, before, after) && WellFormed(p) && q.open < q.close < |before|
    requires forall i | 0 <= i < |p| :: q.close < p[i].os || p[i].oe <= q.open
    ensures C.Outside(p, q.open) && C.Outside(p, q.close)
    ensures CarriedPair(p, q).open < CarriedPair(p, q).close < |after|
    ensures SingleLine(after, CarriedPair(p, q)) <==> SingleLine(before, q)
  {
    SameGap(p, q);
    hide Rewrites, RowOf, Shift, WellFormed, C.Outside, C.EndsBy;
    C.CarriedByte(p, before, after, q.close);
    RowsCopied(p, before, after, C.EndsBy(p, q.open), q.open, q.close);
  }

  /** Edits outside every pair replace no bracket and change no pair that shows. */
  lemma {:induction false} OutsideKeeps(p: Patch, before: Text, after: Text, ps: seq<FoldPair>)
    requires Rewrites(p, before, after) && WellFormed(p) && PairsIn(|before|, ps)
    requires forall i | 0 <= i < |p| :: Outside(p[i], ps)
    ensures Spared(p, ps) && KeepsShown(p, before, after, ps)
  {
    hide Rewrites, RowOf, WellFormed, C.Outside, C.Carried, SingleLine;
    forall q | q in ps
      ensures C.Outside(p, q.open) && C.Outside(p, q.close)
      ensures CarriedPair(p, q).open < CarriedPair(p, q).close < |after|
      ensures SingleLine(after, CarriedPair(p, q)) <==> SingleLine(before, q)
    {
      PairKeepsKind(p, before, after, q);
    }
    CarriedIn(p, before, after, ps);
    forall q | q in ps
      ensures ShowsInline(before, ps, q) <==> ShowsInline(after, CarriedPairs(p, ps), CarriedPair(p, q))
    {
      AroundCarried(p, before, after, ps, q);
    }
  }

  /** What stands around a pair stands around it still, and nothing else does. */
  lemma {:induction false} AroundCarried(p: Patch, before: Text, after: Text, ps: seq<FoldPair>, q: FoldPair)
    requires WellFormed(p) && PairsIn(|before|, ps) && Spared(p, ps) && PairsIn(|after|, CarriedPairs(p, ps)) && q in ps
    requires forall r | r in ps ::
               CarriedPair(p, r).open < CarriedPair(p, r).close < |after|
               && (SingleLine(after, CarriedPair(p, r)) <==> SingleLine(before, r))
    ensures ShowsInline(before, ps, q) <==> ShowsInline(after, CarriedPairs(p, ps), CarriedPair(p, q))
  {
    hide RowOf, WellFormed, C.Outside, C.Carried, SingleLine, CarriedPairs;
    CarriedTo(p, ps, q);
    var c := CarriedPair(p, q);
    if ShowsInline(before, ps, q) {
      forall b | b in CarriedPairs(p, ps) && b.open < c.open && c.close < b.close ensures !SingleLine(after, b) {
        var r := CarriedFrom(p, ps, b);
        CarriedOrder(p, r.open, q.open);
        CarriedOrder(p, q.close, r.close);
      }
    }
    if ShowsInline(after, CarriedPairs(p, ps), c) {
      forall r | r in ps && r.open < q.open && q.close < r.close ensures !SingleLine(before, r) {
        CarriedTo(p, ps, r);
        CarriedOrder(p, r.open, q.open);
        CarriedOrder(p, q.close, r.close);
      }
    }
  }

  lemma {:induction false} CarriedOrder(p: Patch, a: nat, b: nat)
    requires WellFormed(p) && C.Outside(p, a) && C.Outside(p, b)
    ensures C.Carried(p, a) < C.Carried(p, b) <==> a < b
  {
    hide WellFormed, C.Outside, C.Carried;
    if a < b { C.CarriedKeepsOrder(p, a, b); }
    if b < a { C.CarriedKeepsOrder(p, b, a); }
  }

  // ----- the blocks of an edit that changes no row count -----

  /** Every bracket is still on its row. */
  ghost predicate RowsKept(p: Patch, before: Text, after: Text, ps: seq<FoldPair>)
    requires PairsIn(|before|, ps)
  {
    forall q | q in ps ::
      && 0 <= C.Carried(p, q.open) <= |after| && RowOf(after, C.Carried(p, q.open)) == RowOf(before, q.open)
      && 0 <= C.Carried(p, q.close) <= |after| && RowOf(after, C.Carried(p, q.close)) == RowOf(before, q.close)
  }

  /** Brackets on their rows make the blocks they made. */
  lemma {:induction false} BlocksStay(p: Patch, before: Text, after: Text, ps: seq<FoldPair>)
    requires WellFormed(p) && PairsIn(|before|, ps) && Spared(p, ps) && RowsKept(p, before, after, ps)
    requires PairsIn(|after|, CarriedPairs(p, ps))
    ensures BlocksOf(after, CarriedPairs(p, ps)) == BlocksOf(before, ps)
    decreases |ps|
  {
    hide RowOf, WellFormed, C.Outside, C.Carried;
    if ps != [] {
      PairsTail(|before|, ps);
      forall q | q in ps[1..] ensures q in ps {}
      var w := CarriedPairs(p, ps);
      assert w[1..] == CarriedPairs(p, ps[1..]);
      assert ps[0] in ps && w[0] == CarriedPair(p, ps[0]);
      PairsTail(|after|, w);
      BlocksStay(p, before, after, ps[1..]);
    }
  }

  lemma {:induction false} OneEditKeepsRows(p: Patch, before: Text, after: Text, ps: seq<FoldPair>)
    requires Rewrites(p, before, after) && |p| == 1 && RowDelta(before, after) == 0
    requires PairsIn(|before|, ps) && Spared(p, ps)
    ensures RowsKept(p, before, after, ps)
  {
    assert p == [p[0]];
    hide Rewrites, RowOf, RowDelta, C.Outside, C.Carried;
    forall q | q in ps
      ensures 0 <= C.Carried(p, q.open) <= |after| && RowOf(after, C.Carried(p, q.open)) == RowOf(before, q.open)
      ensures 0 <= C.Carried(p, q.close) <= |after| && RowOf(after, C.Carried(p, q.close)) == RowOf(before, q.close)
    {
      CarriedByOne(p[0], before, after, q.open);
      CarriedByOne(p[0], before, after, q.close);
    }
  }
}
