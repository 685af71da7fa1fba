/**
 Phases: the repair puts a literal set where a fresh scan would, on every text and patch, exactly when the
 needle cannot overlap itself.
 */
module FindPhases {
  import opened Base
  import opened Patches
  import opened TextBounds
  import opened FindScans
  import opened FindSets
  import opened FindScopes
  import opened FindRepair
  import opened FindCaps
  import opened FindMends
  import opened FindMatches
  import opened FindResults
  import opened FindCommits

  /** The fresh scan of a text. */
  ghost function Fresh(q: Query, t: Text): set<Span>
    requires q.needle != []
  {
    SpanSet(Greedy(t, q, 0, |t|))
  }

  /** Repairing the moved fresh scan of the old text gives the fresh scan of the new one. */
  ghost predicate RepairsFresh(q: Query, p: Patch, before: Text, t: Text)
    requires q.needle != [] && Rewrites(p, before, t)
  {
    EditsInText(p, before, t);
    MendAll(Literal, q, p, t, Whole(t), |p|, RideSet(p, Fresh(q, before))) == Fresh(q, t)
  }

  /** An edit between texts that both fit the cap. */
  ghost predicate Fitting(q: Query, p: Patch, before: Text, t: Text)
    requires q.needle != []
  {
    && Rewrites(p, before, t) && WholeChars(before) && WholeChars(t)
    && |Greedy(before, q, 0, |before|)| <= FIND_MATCH_CAP && |Greedy(t, q, 0, |t|)| <= FIND_MATCH_CAP
  }

  /** The whole text rides. */
  lemma {:induction false} WholeRides(p: Patch, before: Text, t: Text)
    requires Rewrites(p, before, t) && WellFormed(p)
    ensures ScopeRides(p, |before|, Whole(before), Whole(t))
  {
    hide Rewrites, WellFormed, StartRides, EndRides, Mapped;
    ReachRides(p, before, t, None, false, 0);
  }

  lemma {:induction false} FreshMends(q: Query, p: Patch, before: Text, t: Text)
    requires q.needle != [] && NeverSelfOverlaps(q) && WholeChars(q.needle) && Fitting(q, p, before, t)
    ensures RepairsFresh(q, p, before, t)
  {
    hide WholeChars, Rewrites, Greedy, NeverSelfOverlaps, MaximalMatches, ScopeRides, MendAll, CompleteBelow, Promised,
         FIND_MATCH_CAP, RideSet, SparedDecide, Spared;
    EditsInText(p, before, t);
    RewritesWellFormed(p, before, t);
    FreshIsMaximal(before, q, Whole(before));
    WholeRides(p, before, t);
    var top := LiteralKeeps(p, before, t, q, Whole(before), Whole(t), Fresh(q, before));
    WholeMaximal(t, q, MendAll(Literal, q, p, t, Whole(t), |p|, RideSet(p, Fresh(q, before))), top);
  }

  lemma {:induction false} WholeMaximal(t: Text, q: Query, f: set<Span>, top: nat)
    requires q.needle != [] && NeverSelfOverlaps(q) && CompleteBelow(Literal, q, t, Whole(t), f, top)
             && Promised(t, top)
    requires |Greedy(t, q, 0, |t|)| <= FIND_MATCH_CAP
    ensures f == Fresh(q, t)
  {
    hide Greedy, NeverSelfOverlaps, MaximalBelow, Crowded, Promised, FIND_MATCH_CAP, MaximalMatches;
    LiteralWhole(t, q, Whole(t), f, top);
    MaximalIsFresh(t, q, Whole(t), f);
  }

  // ----- the input that shows the other half -----

  /** The needle's first `d` bytes, over and over. */
  function Rep(u: Text, r: nat): Text { if r == 0 then [] else u + Rep(u, r - 1) }

  lemma {:induction false} RepLength(u: Text, r: nat)
    ensures |Rep(u, r)| == r * |u|
  {
    if r > 0 { RepLength(u, r - 1); }
  }

  lemma {:induction false} RepCommutes(u: Text, r: nat)
    ensures u + Rep(u, r) == Rep(u, r) + u
  {
    if r > 0 {
      RepCommutes(u, r - 1);
      assert u + Rep(u, r) == u + (Rep(u, r - 1) + u) == (u + Rep(u, r - 1)) + u;
    }
  }

  lemma {:induction false} RepStarts(u: Text, r: nat, c: nat)
    requires c < r && u != []
    ensures c * |u| < |Rep(u, r)| && Rep(u, r)[c * |u|] == u[0]
    decreases r
  {
    RepLength(u, r);
    if c > 0 {
      RepStarts(u, r - 1, c - 1);
      RepLength(u, r - 1);
      assert c * |u| - |u| == (c - 1) * |u|;
      assert Rep(u, r)[c * |u|] == Rep(u, r - 1)[c * |u| - |u|];
    }
  }

  lemma {:induction false} WholeCons(t: Text)
    requires t != [] && !Continuation(t[0]) && CharLen(t[0]) <= |t| && WholeChars(t[CharLen(t[0])..])
    requires forall j | 1 <= j < CharLen(t[0]) :: Continuation(t[j])
    ensures WholeChars(t)
  {}

  lemma {:induction false} WholeConcat(a: Text, b: Text)
    requires WholeChars(a) && WholeChars(b)
    ensures WholeChars(a + b)
    decreases |a|
  {
    if a == [] {
      assert a + b == b;
    } else {
      var n := CharLen(a[0]);
      WholeConcat(a[n..], b);
      assert (a + b)[n..] == a[n..] + b;
      assert (a + b)[0] == a[0] && forall j | 1 <= j < n :: (a + b)[j] == a[j];
      hide WholeChars;
      WholeCons(a + b);
    }
  }

  lemma {:induction false} WholePrefix(a: Text, i: nat)
    requires WholeChars(a) && i <= |a| && Boundary(a, i)
    ensures WholeChars(a[..i])
    decreases |a|
  {
    if 0 < i {
      var n := CharLen(a[0]);
      assert i >= n;
      if n < i { assert Boundary(a[n..], i - n); } else { assert a[n..][..0] == []; }
      WholePrefix(a[n..], i - n);
      assert a[..i][n..] == a[n..][..i - n];
    }
  }

  lemma {:induction false} WholeRep(u: Text, r: nat)
    requires WholeChars(u)
    ensures WholeChars(Rep(u, r))
  {
    if r > 0 {
      WholeRep(u, r - 1);
      WholeConcat(u, Rep(u, r - 1));
    }
  }

  /** The needle repeats from a character on. */
  lemma {:induction false} OverlapOnChar(q: Query, d: nat)
    requires WholeChars(q.needle) && 1 <= d < |q.needle| && SelfOverlapsAt(q, d)
    ensures WholeChars(q.needle[..d]) && !Continuation(q.needle[0])
  {
    var n := q.needle;
    assert Same(n[d + 0], n[0], q.caseSensitive);
    SameClass(n[d], n[0], q.caseSensitive);
    WholePrefix(n, d);
  }

  /** Texts that agree under the query's case rule. */
  ghost predicate Alike(q: Query, a: Text, b: Text) {
    |b| <= |a| && forall i | 0 <= i < |b| :: Same(a[i], b[i], q.caseSensitive)
  }

  lemma {:induction false} AlikeHits(q: Query, a: Text, b: Text, x: nat)
    requires Alike(q, a, b) && x + |q.needle| <= |b|
    ensures HitAt(a, q, x) <==> HitAt(b, q, x)
  {
    if HitAt(a, q, x) {
      forall j | 0 <= j < |q.needle| ensures Same(b[x + j], q.needle[j], q.caseSensitive) {
        assert Same(a[x + j], q.needle[j], q.caseSensitive) && Same(a[x + j], b[x + j], q.caseSensitive);
      }
    }
    if HitAt(b, q, x) {
      forall j | 0 <= j < |q.needle| ensures Same(a[x + j], q.needle[j], q.caseSensitive) {
        assert Same(b[x + j], q.needle[j], q.caseSensitive) && Same(a[x + j], b[x + j], q.caseSensitive);
      }
    }
  }

  lemma {:induction false} AlikeScans(q: Query, a: Text, b: Text, from: nat)
    requires q.needle != [] && Alike(q, a, b)
    ensures Greedy(a, q, from, |b|) == Greedy(b, q, from, |b|)
    decreases SatSub(|b|, from)
  {
    hide HitAt, Alike;
    if from + |q.needle| <= |b| {
      AlikeLength(q, a, b);
      AlikeHits(q, a, b, from);
      AlikeScans(q, a, b, from + |q.needle|);
      AlikeScans(q, a, b, from + 1);
    }
  }

  lemma {:induction false} AlikeLength(q: Query, a: Text, b: Text)
    requires Alike(q, a, b)
    ensures |b| <= |a|
  {}

  /** The scan of a longer text begins with the scan of a text it agrees with. */
  lemma {:induction false} AlikeFresh(q: Query, a: Text, b: Text, m: Span)
    requires q.needle != [] && Alike(q, a, b) && m in Fresh(q, b)
    ensures m in Fresh(q, a)
  {
    hide HitAt, Alike, Greedy;
    AlikeLength(q, a, b);
    AlikeScans(q, a, b, 0);
    var w := Greedy(a, q, 0, |b|);
    GreedyPrefix(a, q, 0, |b|, |a|, |w|);
    assert w[..|w|] == w && m in w;
  }

  /** The old text: the needle's first `d` bytes `2c + 4` times, then the needle. */
  function Stuttered(q: Query, d: nat, c: nat): Text
    requires d <= |q.needle|
  {
    Rep(q.needle[..d], 2 * c + 4) + q.needle
  }

  /** With those bytes typed in front it reads like itself. */
  lemma {:induction false} StutteredAlike(q: Query, d: nat, c: nat)
    requires 1 <= d < |q.needle| && SelfOverlapsAt(q, d)
    ensures Alike(q, q.needle[..d] + Stuttered(q, d, c), Stuttered(q, d, c))
  {
    hide SelfOverlapsAt, Rep;
    var n, u, rep := q.needle, q.needle[..d], Rep(q.needle[..d], 2 * c + 4);
    RepCommutes(u, 2 * c + 4);
    var a, b := u + (rep + n), rep + n;
    assert u + (rep + n) == (u + rep) + n && (rep + u) + n == rep + (u + n);
    assert a == rep + Stutter(q, d);
    StutterHits(q, d);
    forall i | 0 <= i < |b| ensures Same(a[i], b[i], q.caseSensitive) {
      if i >= |rep| {
        assert a[i] == Stutter(q, d)[0 + (i - |rep|)] && b[i] == n[i - |rep|];
      }
    }
  }

  /** The needle's first `d` bytes, typed in front. */
  function Front(d: nat): Patch { [Edit(0, 0, 0, d)] }

  lemma {:induction false} FrontRides(d: nat, x: nat)
    requires WellFormed(Front(d))
    ensures Mapped(Front(d), x, Right) == x + d && (x > 0 ==> Mapped(Front(d), x, Left) == x + d)
  {
    MapSingle(Edit(0, 0, 0, d), x, Right);
    MapSingle(Edit(0, 0, 0, d), x, Left);
  }

  lemma {:induction false} FrontRidesSet(d: nat, f: set<Span>, m: Span)
    requires WellFormed(Front(d)) && forall s | s in f :: s.start < s.end
    ensures m in RideSet(Front(d), f) <==> m.start >= d && m.start < m.end && Span(m.start - d, m.end - d) in f
  {
    hide Mapped, WellFormed;
    forall s | s in f ensures RideSpan(Front(d), s) == Span(s.start + d, s.end + d) {
      FrontRides(d, s.start);
      FrontRides(d, s.end);
    }
    if m.start >= d && m.start < m.end && Span(m.start - d, m.end - d) in f {
      assert RideSpan(Front(d), Span(m.start - d, m.end - d)) == m;
    }
  }

  lemma {:induction false} FreshSolid(q: Query, t: Text)
    requires q.needle != []
    ensures Disjoint(Fresh(q, t)) && forall s | s in Fresh(q, t) :: TrueMatch(t, q, s) && s.start < s.end <= |t|
  {
    hide Greedy, HitAt, Disjoint;
    FreshIsMaximal(t, q, Whole(t));
    FreshFits(q, t);
  }

  lemma {:induction false} FreshFits(q: Query, t: Text)
    requires q.needle != [] && MaximalMatches(t, q, Whole(t), Fresh(q, t))
    ensures Disjoint(Fresh(q, t)) && forall s | s in Fresh(q, t) :: TrueMatch(t, q, s) && s.start < s.end <= |t|
  {
    hide Greedy, HitAt, Covered;
  }

  /** The first match that the window spares ends up in another phase: a fresh scan finds it where it was,
      the repair neither keeps nor finds it there. */
  lemma {:induction false} SparedMoves(q: Query, d: nat, before: Text, m0: Span)
    requires 1 <= d < |q.needle| && Rewrites(Front(d), before, q.needle[..d] + before)
    requires Alike(q, q.needle[..d] + before, before)
    requires var t := q.needle[..d] + before;
             m0 in Fresh(q, before) && m0.start + d > WinHi(t, q, Whole(t), Edit(0, 0, 0, d))
    ensures !RepairsFresh(q, Front(d), before, q.needle[..d] + before)
  {
    hide Greedy, HitAt, Alike, Disjoint, Rewrites, WinHi, WinLo, RideSet, MendAll, Fresh, WellFormed, Mended;
    var t, e := q.needle[..d] + before, Edit(0, 0, 0, d);
    var we := WinHi(t, q, Whole(t), e);
    FreshSolid(q, before);
    var later := set m | m in Fresh(q, before) && m.start + d > we;
    assert m0 in later;
    FirstExists(later);
    var y :| y in later && forall r | r in later :: y.start <= r.start;
    AlikeFresh(q, t, before, y);
    EditsInText(Front(d), before, t);
    RewritesWellFormed(Front(d), before, t);
    MendsOnce(Literal, q, Front(d), t, Whole(t), RideSet(Front(d), Fresh(q, before)));
    FirstSpared(q, d, before, t, y, we);
    assert y in Fresh(q, t) && y !in MendAll(Literal, q, Front(d), t, Whole(t), 1, RideSet(Front(d), Fresh(q, before)));
  }

  lemma {:induction false} FirstSpared(q: Query, d: nat, before: Text, t: Text, y: Span, we: nat)
    requires 1 <= d < |q.needle| && WellFormed(Front(d)) && t == q.needle[..d] + before
    requires we == WinHi(t, q, Whole(t), Edit(0, 0, 0, d)) && y in Fresh(q, before) && y.start + d > we
    requires forall m | m in Fresh(q, before) && m.start + d > we :: y.start <= m.start
    requires (forall s | s in Fresh(q, before) :: TrueMatch(before, q, s) && s.start < s.end <= |before|)
             && Disjoint(Fresh(q, before))
    ensures y !in Mended(t, q, Whole(t), Edit(0, 0, 0, d), RideSet(Front(d), Fresh(q, before)))
  {
    hide Greedy, HitAt, Disjoint, WinHi, WinLo, RideSet, Fresh, WellFormed, Refound, ZoneAround, Zone;
    var e, f := Edit(0, 0, 0, d), RideSet(Front(d), Fresh(q, before));
    var ws, moved := WinLo(t, q, Whole(t), e), Span(y.start + d, y.end + d);
    WindowBounds(t, q, Whole(t), e);
    FrontWindow(t, q, d);
    FrontRidesSet(d, Fresh(q, before), moved);
    FrontRidesSet(d, Fresh(q, before), y);
    RideSetDisjoint(Front(d), Fresh(q, before));
    forall s | s in f ensures Within(s, Whole(t)) { FrontRidesSet(d, Fresh(q, before), s); }
    ZoneHolds(t, q, Whole(t), f, ws, we);
    var z := ZoneAround(t, q, Whole(t), f, ws, we);
    LimitBefore(t, q, Whole(t), f, ws, we, moved);
    NotRefound(t, q, z, y);
  }

  lemma {:induction false} FrontWindow(t: Text, q: Query, d: nat)
    requires q.needle != []
    ensures WinLo(t, q, Whole(t), Edit(0, 0, 0, d)) == 0
  {}

  lemma {:induction false} NotRefound(t: Text, q: Query, z: Bounds, y: Span)
    requires q.needle != [] && z.hi <= |t| && y.end > z.limit
    ensures y !in Refound(t, q, z)
  {
    hide Greedy;
  }

  /** The guard comes no later than any survivor right of the window. */
  lemma {:induction false} LimitBefore(t: Text, q: Query, scope: Span, f: set<Span>, ws: nat, we: nat, s: Span)
    requires q.needle != [] && Disjoint(f) && s in f && s.start > we && scope.start <= ws <= we <= scope.end <= |t|
    requires forall s | s in f :: Within(s, scope)
    ensures ZoneAround(t, q, scope, f, ws, we).limit <= s.start
  {
    hide Disjoint, Zone, FromAnchor, ZoneLo, ZoneHi;
    var z := ZoneAround(t, q, scope, f, ws, we);
    ZoneHolds(t, q, scope, f, ws, we);
    assert s in WithoutTouching(f, ws, we);
    SurvivorsOutside(f, ws, we, z.extLo, z.extHi, s);
    ZoneUpright(f, ws, we, z.extLo, z.extHi);
  }

  // ----- sizes -----

  lemma {:induction false} FewMatches(t: Text, q: Query, from: nat, to: nat)
    requires q.needle != [] && to <= |t|
    ensures |Greedy(t, q, from, to)| * |q.needle| <= SatSub(to, from)
    decreases SatSub(to, from)
  {
    hide HitAt;
    if from + |q.needle| <= to {
      FewMatches(t, q, from + |q.needle|, to);
      FewMatches(t, q, from + 1, to);
    }
  }

  lemma {:induction false} Few(n: nat, k: nat)
    requires k > 0 && n * k <= 8 * k
    ensures n <= FIND_MATCH_CAP
  {
    assert n > 8 ==> n * k >= 9 * k;
  }

  lemma {:induction false} StutteredSizes(q: Query, d: nat, c: nat)
    requires 1 <= d < |q.needle| && c * d <= |q.needle| < c * d + d
    ensures var k, rep := |q.needle|, |Rep(q.needle[..d], 2 * c + 4)|;
            rep == 2 * (c * d) + 4 * d && |Stuttered(q, d, c)| == rep + k && d + |Stuttered(q, d, c)| <= 8 * k
  {
    hide Rep;
    RepLength(q.needle[..d], 2 * c + 4);
    assert (2 * c + 4) * d == 2 * (c * d) + 4 * d;
  }

  /** The window of the typed bytes ends within the repeats. */
  lemma {:induction false} StutteredWindow(q: Query, d: nat, c: nat)
    requires 1 <= d < |q.needle| && c * d <= |q.needle| < c * d + d && !Continuation(q.needle[0])
    ensures var t := q.needle[..d] + Stuttered(q, d, c);
            WinHi(t, q, Whole(t), Edit(0, 0, 0, d)) <= c * d + 2 * d
  {
    hide Rep;
    var u := q.needle[..d];
    var t, b := u + Stuttered(q, d, c), (c + 2) * d;
    StutteredSizes(q, d, c);
    RepUnfold(u, 2 * c + 5);
    assert t == Rep(u, 2 * c + 5) + q.needle by {
      assert u + (Rep(u, 2 * c + 4) + q.needle) == (u + Rep(u, 2 * c + 4)) + q.needle;
    }
    RepStarts(u, 2 * c + 5, c + 2);
    assert b == c * d + 2 * d && t[b] == q.needle[0];
    hide Boundary;
    BoundaryStops(t, d + (|q.needle| - 1), b);
  }

  lemma {:induction false} RepUnfold(u: Text, r: nat)
    requires r > 0
    ensures Rep(u, r) == u + Rep(u, r - 1)
  {}

  lemma {:induction false} BoundaryStops(t: Text, off: nat, b: nat)
    requires off <= b < |t| && !Continuation(t[b])
    ensures ClipRight(t, off) <= b && Boundary(t, b)
  {
    assert Boundary(t, b);
  }

  /** For a needle that can overlap itself, an edit between two texts that fit the cap after which the
      repaired set is in another phase than a fresh scan. */
  lemma {:induction false} PhaseMoves(q: Query, d: nat, c: nat)
    requires WholeChars(q.needle) && 1 <= d < |q.needle| && SelfOverlapsAt(q, d)
    requires c * d <= |q.needle| < c * d + d
    ensures var before, t := Stuttered(q, d, c), q.needle[..d] + Stuttered(q, d, c);
            Fitting(q, Front(d), before, t) && !RepairsFresh(q, Front(d), before, t)
  {
    hide Rep, Rewrites, WholeChars, Greedy, HitAt, SelfOverlapsAt, RepairsFresh, Alike, WinHi, FIND_MATCH_CAP, Fresh;
    var u, before, k := q.needle[..d], Stuttered(q, d, c), |q.needle|;
    var t := u + before;
    var rep := Rep(u, 2 * c + 4);
    OverlapOnChar(q, d);
    WholeRep(u, 2 * c + 4);
    WholeConcat(rep, q.needle);
    WholeConcat(u, before);
    FrontRewrites(u, before);
    StutteredSizes(q, d, c);
    FewMatches(before, q, 0, |before|);
    FewMatches(t, q, 0, |t|);
    Few(|Greedy(before, q, 0, |before|)|, k);
    Few(|Greedy(t, q, 0, |t|)|, k);
    StutteredAlike(q, d, c);
    StutteredWindow(q, d, c);
    EndsWithHit(q, rep);
    var m0 := GreedyCovers(before, q, 0, |before|, |rep|);
    MatchLength(before, q, m0);
    SparedMoves(q, d, before, m0);
  }

  lemma {:induction false} EndsWithHit(q: Query, rep: Text)
    ensures HitAt(rep + q.needle, q, |rep|)
  {}

  lemma {:induction false} MatchLength(t: Text, q: Query, m: Span)
    requires q.needle != [] && m in Greedy(t, q, 0, |t|)
    ensures m.end == m.start + |q.needle| && m in Fresh(q, t)
  {
    hide Greedy, HitAt;
    GreedyHit(t, q, 0, |t|, m);
  }

  lemma {:induction false} FrontRewrites(u: Text, before: Text)
    ensures Rewrites(Front(|u|), before, u + before)
  {
    hide Rewrites;
    OneEdit([], [], u, before);
    assert [] + [] + before == before && [] + u + before == u + before;
  }

  /** Between texts that fit the cap the repair always gives the fresh scan, if and only if the needle
      cannot overlap itself. */
  lemma {:induction false} RepairIsFreshIff(q: Query)
    requires q.needle != [] && WholeChars(q.needle)
    ensures NeverSelfOverlaps(q)
            <==> forall p: Patch, before: Text, t: Text | Fitting(q, p, before, t) :: RepairsFresh(q, p, before, t)
  {
    hide SelfOverlapsAt, RepairsFresh, WholeChars, Stuttered;
    if NeverSelfOverlaps(q) {
      forall p: Patch, before: Text, t: Text | Fitting(q, p, before, t) ensures RepairsFresh(q, p, before, t) {
        FreshMends(q, p, before, t);
      }
    } else {
      var d :| 1 <= d < |q.needle| && SelfOverlapsAt(q, d);
      var c := |q.needle| / d;
      PhaseMoves(q, d, c);
    }
  }
}
