/**
 The scope a search keeps to: a stretch of the text whose edges ride every patch.
 */
module FindScopes {
  import opened Base
  import opened Patches
  import opened FindSets

  /** A match of gap `g` may end here. */
  ghost predicate EndsInGap(p: Patch, g: nat, x: nat) {
    g <= |p| && (g == 0 || GapStart(p, g) < x) && (g < |p| ==> x <= p[g].os)
  }

  /** A match of gap `g` may start here. */
  ghost predicate StartsInGap(p: Patch, g: nat, x: nat) {
    g <= |p| && GapStart(p, g) <= x && (g < |p| ==> x < p[g].os)
  }

  /** Left-biased, the end of what lies in a gap moves with the gap. */
  lemma {:induction false} EndInGap(p: Patch, e: nat, g: nat)
    requires WellFormed(p) && EndsInGap(p, g, e)
    ensures Mapped(p, e, Left) == e + Shift(p, g)
  {
    hide Shift;
    if g < |p| && e == p[g].os {
      MapAtStart(p, g, Left);
      GapShift(p, g);
    } else {
      MapInGap(p, e, g, Left);
    }
  }

  /** An end rides: what ended by it lands by it, and what a gap brings in front of it ended by it. */
  ghost predicate EndRides(p: Patch, n: nat, a0: nat, a: nat)
    requires WellFormed(p)
  {
    && (forall x: nat | x <= a0 :: Mapped(p, x, Left) <= a)
    && (forall g: nat, x: nat | EndsInGap(p, g, x) && x <= n && x + Shift(p, g) <= a :: x <= a0)
  }

  /** A start rides: what started from it, inside a text of `n` bytes, lands from it, and what a gap
      brings behind it started from it. */
  ghost predicate StartRides(p: Patch, n: nat, a0: nat, a: nat)
    requires WellFormed(p)
  {
    && (forall x: nat | a0 <= x < n :: a <= Mapped(p, x, Right))
    && (forall g: nat, x: nat | StartsInGap(p, g, x) && a <= x + Shift(p, g) :: a0 <= x)
  }

  /** The scope rides from a text of `n` bytes. */
  ghost predicate ScopeRides(p: Patch, n: nat, was: Span, now: Span)
    requires WellFormed(p)
  {
    StartRides(p, n, was.start, now.start) && EndRides(p, n, was.end, now.end)
  }

  lemma {:induction false} MappedEndRides(p: Patch, n: nat, a0: nat, bias: Bias)
    requires WellFormed(p)
    ensures Mapped(p, a0, bias) >= 0 && EndRides(p, n, a0, Mapped(p, a0, bias))
  {
    hide Shift, Mapped, WellFormed;
    forall x: nat | x <= a0 ensures Mapped(p, x, Left) <= Mapped(p, a0, bias) {
      MapMonotone(p, x, a0);
    }
    forall g: nat, x: nat | EndsInGap(p, g, x) && x + Shift(p, g) <= Mapped(p, a0, bias) ensures x <= a0 {
      if a0 < x { EarlierEnd(p, a0, bias, g, x); }
    }
  }

  lemma {:induction false} EarlierEnd(p: Patch, a0: nat, bias: Bias, g: nat, x: nat)
    requires WellFormed(p) && EndsInGap(p, g, x) && a0 < x
    ensures Mapped(p, a0, bias) < x + Shift(p, g)
  {
    hide Shift, MapOffset;
    if g > 0 && a0 <= GapStart(p, g) {
      var k := FirstReaching(p, a0);
      assert p[g - 1].oe >= a0;
      MapUpper(p, a0, bias);
      NewAscendTo(p, k, g);
      GapShift(p, g);
    } else {
      MapInGap(p, a0, g, bias);
    }
  }

  lemma {:induction false} MappedStartRides(p: Patch, n: nat, a0: nat)
    requires WellFormed(p)
    ensures StartRides(p, n, a0, Mapped(p, a0, Left))
  {
    hide Shift, Mapped, WellFormed;
    forall x: nat | a0 <= x < n ensures Mapped(p, a0, Left) <= Mapped(p, x, Right) {
      MapMonotone(p, a0, x);
    }
    forall g: nat, x: nat | StartsInGap(p, g, x) && Mapped(p, a0, Left) <= x + Shift(p, g) ensures a0 <= x {
      if x < a0 { LaterStart(p, a0, g, x); }
    }
  }

  lemma {:induction false} LaterStart(p: Patch, a0: nat, g: nat, x: nat)
    requires WellFormed(p) && StartsInGap(p, g, x) && x < a0
    ensures x + Shift(p, g) < Mapped(p, a0, Left)
  {
    hide Shift, Mapped;
    if g < |p| && p[g].os < a0 {
      EndInGap(p, p[g].os, g);
      MapMonotone(p, p[g].os, a0);
    } else {
      EndInGap(p, a0, g);
    }
  }

  /** The end of the text rides to the end of the text. */
  lemma {:induction false} WholeEndRides(p: Patch, before: Text, after: Text)
    requires Rewrites(p, before, after)
    ensures WellFormed(p) && EndRides(p, |before|, |before|, |after|)
  {
    hide Shift, Mapped, MapOffset, EndsInGap;
    forall x: nat | x <= |before| ensures Mapped(p, x, Left) <= |after| { MappedInText(p, before, after, x, Left); }
  }

  lemma {:induction false} MappedInText(p: Patch, before: Text, after: Text, x: nat, bias: Bias)
    requires Rewrites(p, before, after) && WellFormed(p) && x <= |before|
    ensures Mapped(p, x, bias) <= |after|
  {
    hide Shift, Rewrites;
    var k := FirstReaching(p, x);
    GapBounds(p, before, after, k);
    if k < |p| {
      MapUpper(p, x, bias);
      GapOf(p, before, after, k + 1);
    }
  }

  /** The earlier of two ends rides to the earlier of where they land. */
  lemma {:induction false} EarlierEndRides(p: Patch, n: nat, a0: nat, a: nat, b0: nat, b: nat)
    requires WellFormed(p) && EndRides(p, n, a0, a) && EndRides(p, n, b0, b)
    ensures EndRides(p, n, Min(a0, b0), Min(a, b))
  {
    hide Shift, Mapped, WellFormed, EndsInGap;
  }

  /** A match of the scope that survives the mover lies in the ridden scope. */
  lemma {:induction false} RidesWithin(p: Patch, n: nat, was: Span, now: Span, s: Span)
    requires WellFormed(p) && ScopeRides(p, n, was, now) && Within(s, was) && s.start < s.end <= n
    requires RideSpan(p, s).start < RideSpan(p, s).end
    ensures Within(RideSpan(p, s), now)
  {
    hide Shift, Mapped, WellFormed, EndsInGap, StartsInGap;
  }

  // ----- the stretch a match set covers -----

  /** Where the matches in a text of `n` bytes are to be complete: in the scope if there is one, and up
      to where a capped set covers. */
  function Reach(scope: Option<Span>, capped: bool, end: nat, n: nat): (r: Span)
    ensures r.start <= r.end <= n
  {
    var stop := Min(Min(if scope.Some? then scope.value.end else n, if capped then end else n), n);
    Span(Min(if scope.Some? then scope.value.start else 0, stop), stop)
  }

  /** Both edges of a scope ride, outward; a scope whose text is gone is dropped. */
  function RideScope(p: Patch, scope: Option<Span>): Option<Span>
    requires WellFormed(p)
  {
    match scope
    case None => None
    case Some(s) =>
      var lo, hi := Mapped(p, s.start, Left), Mapped(p, s.end, Right);
      if lo < hi then Some(Span(lo, hi)) else None
  }

  /** How far a capped set covers rides; an uncapped one covers the new text. */
  function RideCover(p: Patch, capped: bool, end: nat, n: nat): nat
    requires WellFormed(p)
  {
    if capped then Mapped(p, end, Left) else n
  }

  /** The stretch after a patch to a text of `n` bytes. */
  function RideReach(p: Patch, scope: Option<Span>, capped: bool, end: nat, n: nat): Span
    requires WellFormed(p)
  {
    Reach(RideScope(p, scope), capped, RideCover(p, capped, end, n), n)
  }

  /** The scope is a stretch, which may reach past the text, and what a capped set covers lies in both. */
  predicate Bounded(scope: Option<Span>, capped: bool, end: nat, n: nat) {
    && (scope.Some? ==> scope.value.start < scope.value.end)
    && (capped ==> end <= n && (scope.Some? ==> scope.value.start <= end))
  }

  /** The patch takes away all the scope holds. */
  predicate Collapses(p: Patch, scope: Option<Span>)
    requires WellFormed(p)
  {
    scope.Some? && RideScope(p, scope).None?
  }

  lemma {:induction false} TextStart(p: Patch)
    requires WellFormed(p)
    ensures Mapped(p, 0, Left) == 0
  {
    if p != [] {
      GapShift(p, 0);
      FirstReachingIs(p, 0, 0);
    }
  }

  /** A place past the text moves with the text's end. */
  lemma {:induction false} PastText(p: Patch, before: Text, after: Text, x: nat, bias: Bias)
    requires Rewrites(p, before, after) && WellFormed(p) && x > |before|
    ensures Mapped(p, x, bias) == x - |before| + |after|
  {
    hide Shift;
    GapBounds(p, before, after, |p|);
    MapInGap(p, x, |p|, bias);
  }

  /** The scope's end lands at or before the text's end, or past it if it lay past it. */
  lemma {:induction false} ScopeEndRides(p: Patch, before: Text, after: Text, x: nat)
    requires Rewrites(p, before, after) && WellFormed(p)
    ensures EndRides(p, |before|, Min(x, |before|), Min(Mapped(p, x, Right), |after|))
  {
    hide Rewrites, WellFormed, Mapped, Shift, EndRides;
    if x <= |before| {
      MappedEndRides(p, |before|, x, Right);
      MappedInText(p, before, after, x, Right);
    } else {
      PastText(p, before, after, x, Right);
      WholeEndRides(p, before, after);
    }
  }

  /** Unless the scope collapses, the stretch rides. */
  lemma {:induction false} ReachRides(p: Patch, before: Text, after: Text, scope: Option<Span>, capped: bool, end: nat)
    requires Rewrites(p, before, after) && WellFormed(p) && Bounded(scope, capped, end, |before|)
             && !Collapses(p, scope)
    ensures ScopeRides(p, |before|, Reach(scope, capped, end, |before|), RideReach(p, scope, capped, end, |after|))
  {
    hide Rewrites, WellFormed, Mapped, Shift, StartRides, EndRides;
    var n, m := |before|, |after|;
    WholeEndRides(p, before, after);
    if scope.Some? { ScopeEndRides(p, before, after, scope.value.end); }
    if capped {
      MappedEndRides(p, n, end, Left);
      MappedInText(p, before, after, end, Left);
    }
    var a0 := if scope.Some? then Min(scope.value.end, n) else n;
    var a := if scope.Some? then Min(Mapped(p, scope.value.end, Right), m) else m;
    var b0 := if capped then end else n;
    var b := if capped then Mapped(p, end, Left) else m;
    EarlierEndRides(p, n, a0, a, b0, b);
    StretchStartRides(p, before, after, scope, capped, end);
  }

  /** So does its start. */
  lemma {:induction false} StretchStartRides(p: Patch, before: Text, after: Text, scope: Option<Span>, capped: bool,
                                             end: nat)
    requires Rewrites(p, before, after) && WellFormed(p) && Bounded(scope, capped, end, |before|)
             && !Collapses(p, scope)
    ensures StartRides(p, |before|, Reach(scope, capped, end, |before|).start,
                       RideReach(p, scope, capped, end, |after|).start)
  {
    hide Rewrites, WellFormed, Mapped, Shift, StartRides, EndRides;
    var n, m := |before|, |after|;
    StartRode(p, n, scope);
    if scope.Some? {
      if capped { MapMonotone(p, scope.value.start, end); MappedInText(p, before, after, end, Left); }
      if scope.value.start <= n {
        MappedInText(p, before, after, scope.value.start, Left);
      } else {
        PastText(p, before, after, scope.value.start, Left);
        NothingPast(p, before, after);
      }
    }
  }

  /** From the text's end on there is nothing to start. */
  lemma {:induction false} NothingPast(p: Patch, before: Text, after: Text)
    requires Rewrites(p, before, after) && WellFormed(p)
    ensures StartRides(p, |before|, |before|, |after|)
  {
    hide Mapped, Shift, Rewrites, WellFormed;
    forall g: nat, x: nat | StartsInGap(p, g, x) && |after| <= x + Shift(p, g) ensures |before| <= x {
      GapBounds(p, before, after, g);
    }
  }

  /** The ridden scope and cover are bounded again, whatever became of the scope. */
  lemma {:induction false} RidesBounded(p: Patch, before: Text, after: Text, scope: Option<Span>, capped: bool,
                                        end: nat)
    requires Rewrites(p, before, after) && WellFormed(p) && Bounded(scope, capped, end, |before|)
    ensures Bounded(RideScope(p, scope), capped, RideCover(p, capped, end, |after|), |after|)
  {
    hide Rewrites, WellFormed, Mapped, Shift;
    if capped {
      MappedInText(p, before, after, end, Left);
      if scope.Some? { MapMonotone(p, scope.value.start, end); }
    }
  }

  lemma {:induction false} StartRode(p: Patch, n: nat, scope: Option<Span>)
    requires WellFormed(p)
    ensures scope.Some? ==> StartRides(p, n, scope.value.start, Mapped(p, scope.value.start, Left))
    ensures StartRides(p, n, 0, 0)
  {
    hide Mapped, StartRides, WellFormed;
    TextStart(p);
    MappedStartRides(p, n, 0);
    if scope.Some? { MappedStartRides(p, n, scope.value.start); }
  }

  /** Nothing of a collapsing scope survives the mover. */
  lemma {:induction false} CollapseTakesAll(p: Patch, scope: Option<Span>, capped: bool, end: nat, n: nat, f: set<Span>)
    requires WellFormed(p) && Bounded(scope, capped, end, n) && Collapses(p, scope)
    requires forall s | s in f :: Within(s, Reach(scope, capped, end, n)) && s.start < s.end
    ensures RideSet(p, f) == {}
  {
    hide Mapped, WellFormed;
    forall s | s in f ensures RideSpan(p, s).start >= RideSpan(p, s).end {
      MapMonotone(p, scope.value.start, s.start);
      MapMonotone(p, s.end, scope.value.end);
    }
  }

  // ----- text typed into the scope -----

  /** An earlier edit ends at the scope's end, where edit `i` starts. */
  ghost predicate StackedAtEnd(p: Patch, b: nat, i: nat)
    requires i < |p|
  {
    p[i].os == b && exists k :: 0 <= k < i && p[k].oe == b
  }

  /** Where edit `i` puts its text, against a scope `was` that became `now`: typed inside the scope or at
      either of its edges it is in the scope, unless another edit already ended where the scope does;
      before the scope or after it, it is outside. */
  ghost predicate TakesText(p: Patch, was: Span, now: Option<Span>, i: nat)
    requires i < |p|
  {
    var e := p[i];
    var inside := was.start <= e.os && (e.oe <= was.end || e.os == was.end);
    && (inside && !StackedAtEnd(p, was.end, i) ==> now.Some? && now.value.start <= e.ns && e.ne <= now.value.end)
    && (now.Some? && inside && StackedAtEnd(p, was.end, i) ==> now.value.end <= e.ns)
    && (now.Some? && e.os < was.start && e.oe <= was.start ==> e.ne <= now.value.start)
    && (now.Some? && was.end < e.os ==> now.value.end <= e.ns)
  }

  /** The scope takes in exactly what is typed in it. */
  ghost predicate TakesTyped(p: Patch, was: Option<Span>, now: Option<Span>) {
    was.Some? && was.value.start < was.value.end ==>
      forall i | 0 <= i < |p| && p[i].ns < p[i].ne :: TakesText(p, was.value, now, i)
  }

  /** Where the scope's end lands, against the new text of an edit before it, at it or after it. */
  lemma {:induction false} EndTakes(p: Patch, b: nat, i: nat)
    requires WellFormed(p) && i < |p|
    ensures (p[i].oe <= b || p[i].os == b) && !StackedAtEnd(p, b, i) ==> p[i].ne <= Mapped(p, b, Right)
    ensures StackedAtEnd(p, b, i) || b < p[i].os ==> Mapped(p, b, Right) <= p[i].ns
  {
    hide Shift, MapOffset;
    var k := FirstReaching(p, b);
    MapUpper(p, b, Right);
    MapLower(p, b, Right);
    if k < i {
      NewAscendTo(p, k, i);
      assert p[i].os >= p[k].oe >= b;
      NewAscend(p, k, i);
      assert p[i].oe <= b || p[i].os == b ==> StackedAtEnd(p, b, i);
    } else if i < k {
      NewAscendTo(p, i, k);
      assert p[i].oe < b;
    } else {
      LastReached(p, b, i);
    }
  }

  lemma {:induction false} LastReached(p: Patch, b: nat, i: nat)
    requires WellFormed(p) && i < |p| && FirstReaching(p, b) == i
    ensures !StackedAtEnd(p, b, i)
    ensures p[i].oe <= b || p[i].os == b ==> Mapped(p, b, Right) == p[i].ne
    ensures b < p[i].os ==> Mapped(p, b, Right) <= p[i].ns
  {
    GapShift(p, i);
    hide Shift;
  }

  /** Where the scope's start lands. */
  lemma {:induction false} StartTakes(p: Patch, a: nat, i: nat)
    requires WellFormed(p) && i < |p|
    ensures a <= p[i].os ==> Mapped(p, a, Left) <= p[i].ns
    ensures p[i].os < a && p[i].oe <= a ==> p[i].ne <= Mapped(p, a, Left)
  {
    hide Shift, MapOffset;
    var k := FirstReaching(p, a);
    MapUpper(p, a, Left);
    MapLower(p, a, Left);
    if k < i {
      NewAscend(p, k, i);
      assert p[i].os >= p[k].oe >= a;
    } else if i < k {
      NewAscendTo(p, i, k);
      assert p[i].oe < a;
    } else {
      FirstReached(p, a, i);
    }
  }

  lemma {:induction false} FirstReached(p: Patch, a: nat, i: nat)
    requires WellFormed(p) && i < |p| && FirstReaching(p, a) == i
    ensures a <= p[i].os ==> Mapped(p, a, Left) <= p[i].ns
    ensures p[i].os < a && p[i].oe <= a ==> p[i].ne == Mapped(p, a, Left)
  {
    GapShift(p, i);
    hide Shift;
  }

  /** A ridden scope takes in exactly what is typed in it. */
  lemma {:induction false} ScopeTakesTyped(p: Patch, scope: Option<Span>)
    requires WellFormed(p)
    ensures TakesTyped(p, scope, RideScope(p, scope))
  {
    hide Mapped, StackedAtEnd;
    assert forall i | 0 <= i < |p| :: p[i].os <= p[i].oe;
    hide WellFormed;
    if scope.Some? && scope.value.start < scope.value.end {
      forall i | 0 <= i < |p| && p[i].ns < p[i].ne ensures TakesText(p, scope.value, RideScope(p, scope), i) {
        StartTakes(p, scope.value.start, i);
        EndTakes(p, scope.value.end, i);
        StackedFollows(p, scope.value.end, i);
      }
    }
  }

  lemma {:induction false} StackedFollows(p: Patch, b: nat, i: nat)
    requires i < |p|
    ensures StackedAtEnd(p, b, i) ==> p[i].os == b
  {}

  /** What a capped set covers takes in what is typed before its end, and nothing typed at it or after. */
  lemma {:induction false} CoverLeavesTyped(p: Patch, end: nat, n: nat, i: nat)
    requires WellFormed(p) && i < |p|
    ensures p[i].os < end && p[i].oe <= end ==> p[i].ne <= RideCover(p, true, end, n)
    ensures end <= p[i].os ==> RideCover(p, true, end, n) <= p[i].ns
  {
    hide Mapped, WellFormed;
    StartTakes(p, end, i);
  }

  /** The scope's last byte is deleted and a byte typed at its end as a second edit: the map sees only
      the first, and what was typed at the edge is left out. */
  lemma {:induction false} TypedPastTheScope()
    ensures var p := [Edit(1, 2, 1, 1), Edit(2, 2, 1, 2)];
            WellFormed(p) && StackedAtEnd(p, 2, 1) && RideScope(p, Some(Span(0, 2))) == Some(Span(0, 1))
  {
    var p := [Edit(1, 2, 1, 1), Edit(2, 2, 1, 2)];
    assert Shift(p, 0) == 0 && Shift(p, 1) == Delta(p[0]);
    assert Anchored(p, 0) && Anchored(p, 1);
    FirstReachingIs(p, 0, 0);
    FirstReachingIs(p, 2, 0);
    assert p[0].oe == 2;
  }
}
