/**
 What a commit makes of a match set, edit by edit: the window cleared and its zone scanned again, as
 a function of text, scope, edit and set.  And where the code slices the text on the way.
 */
module FindMends {
  import opened Base
  import opened Patches
  import opened TextBounds
  import opened TextRows
  import opened FindScans
  import opened FindSets
  import opened FindRepair
  import opened FindLines
  import opened FindLineRepair
  import opened FindCaps

  /** How the query matches: a literal byte scan, or a compiled line-scoped pattern. */
  datatype Matcher = Literal | Lines(engine: LineMatcher)

  /** The least of some places and one more. */
  ghost function Least(xs: set<nat>, x: nat): (r: nat)
    ensures r <= x && (r == x || r in xs) && forall y | y in xs :: r <= y
  {
    if xs == {} then x
    else
      var y :| y in xs;
      assert forall z | z in xs :: z == y || z in xs - {y};
      Least(xs - {y}, Min(x, y))
  }

  /** The greatest of some places and one more. */
  ghost function Greatest(xs: set<nat>, x: nat): (r: nat)
    ensures r >= x && (r == x || r in xs) && forall y | y in xs :: r >= y
  {
    if xs == {} then x
    else
      var y :| y in xs;
      assert forall z | z in xs :: z == y || z in xs - {y};
      Greatest(xs - {y}, Max(x, y))
  }

  // ----- the zone of one repair -----

  /** Where the re-scan around a window starts and stops when no stored match is near. */
  function ZoneLo(t: Text, q: Query, scope: Span, ws: nat): (r: nat)
    requires q.needle != []
    ensures r >= scope.start
  {
    Max(ClipLeft(t, SatSub(ws, |q.needle| - 1)), scope.start)
  }

  function ZoneHi(t: Text, q: Query, scope: Span, we: nat): (r: nat)
    requires q.needle != []
    ensures r <= scope.end
  {
    Min(ClipRight(t, Min(we + (|q.needle| - 1), Min(scope.end, |t|))), scope.end)
  }

  /** The window widened to what it removed, where the scan starts and stops, and where its matches
      must end. */
  datatype Bounds = Bounds(extLo: nat, extHi: nat, lo: nat, hi: nat, limit: nat)

  /** The scan starts `k - 1` bytes before the removed extents, but not before the end of a match that
      survives there; it stops `k - 1` bytes after them, and keeps nothing past the first match that
      survives there. */
  ghost function ZoneAround(t: Text, q: Query, scope: Span, f: set<Span>, ws: nat, we: nat): (z: Bounds)
    requires q.needle != []
    ensures z.hi <= scope.end
  {
    var g := WithoutTouching(f, ws, we);
    var extLo := Least(set s | s in f && TouchesSpan(s, ws, we) :: s.start, ws);
    var extHi := Greatest(set s | s in f && TouchesSpan(s, ws, we) :: s.end, we);
    var lo, hi := ZoneLo(t, q, scope, extLo), ZoneHi(t, q, scope, extHi);
    Bounds(extLo, extHi, Greatest(set s | s in g && s.start <= extLo && s.end >= lo :: s.end, lo), hi,
           Least(set s | s in g && extHi <= s.start <= hi :: s.start, hi))
  }

  /** What the zone's scan adds. */
  ghost function Refound(t: Text, q: Query, z: Bounds): set<Span>
    requires q.needle != [] && z.hi <= |t|
  {
    set m | m in FirstMatches(Greedy(t, q, z.lo, z.hi)) && m.end <= z.limit
  }

  /** A literal set after the repair of one edit. */
  ghost function Mended(t: Text, q: Query, scope: Span, e: Edit, f: set<Span>): set<Span>
    requires q.needle != [] && scope.end <= |t|
  {
    var ws, we := WinLo(t, q, scope, e), WinHi(t, q, scope, e);
    if ws > we then f else WithoutTouching(f, ws, we) + Refound(t, q, ZoneAround(t, q, scope, f, ws, we))
  }

  /** A slice between these places is a string: it is empty, or begins and ends on characters. */
  predicate Sliceable(t: Text, lo: nat, hi: nat) { lo >= hi || (Boundary(t, lo) && Boundary(t, hi)) }

  /** The repair of one edit slices the text on characters, or not at all. */
  ghost predicate SlicesWell(t: Text, q: Query, scope: Span, e: Edit, f: set<Span>)
    requires q.needle != []
  {
    var ws, we := WinLo(t, q, scope, e), WinHi(t, q, scope, e);
    var z := ZoneAround(t, q, scope, f, ws, we);
    ws <= we ==> Sliceable(t, z.lo, z.hi)
  }

  lemma {:induction false} ExtentsHold(f: set<Span>, ws: nat, we: nat, extLo: nat, extHi: nat)
    requires ws <= we && extLo == Least(set s | s in f && TouchesSpan(s, ws, we) :: s.start, ws)
    requires extHi == Greatest(set s | s in f && TouchesSpan(s, ws, we) :: s.end, we)
    ensures Zone(f, ws, we, extLo, extHi)
  {
    var los := set s | s in f && TouchesSpan(s, ws, we) :: s.start;
    var his := set s | s in f && TouchesSpan(s, ws, we) :: s.end;
    forall s | Removed(f, ws, we, s) ensures extLo <= s.start && s.end <= extHi {
      assert s.start in los && s.end in his;
    }
    if extLo != ws {
      var s :| s in f && TouchesSpan(s, ws, we) && s.start == extLo;
      assert Removed(f, ws, we, s);
    }
    if extHi != we {
      var s :| s in f && TouchesSpan(s, ws, we) && s.end == extHi;
      assert Removed(f, ws, we, s);
    }
  }

  lemma {:induction false} AnchorIs(t: Text, q: Query, scope: Span, f: set<Span>, ws: nat, we: nat, extLo: nat,
                                    extHi: nat, lo: nat)
    requires q.needle != [] && Disjoint(f) && Zone(f, ws, we, extLo, extHi) && scope.start <= extLo
    requires lo == Greatest(set s | s in WithoutTouching(f, ws, we) && s.start <= extLo
                              && s.end >= ZoneLo(t, q, scope, extLo) :: s.end, ZoneLo(t, q, scope, extLo))
    ensures FromAnchor(WithoutTouching(f, ws, we), q, scope, extLo, lo)
  {
    hide Boundary, Zone, Disjoint;
    var g, lo0 := WithoutTouching(f, ws, we), ZoneLo(t, q, scope, extLo);
    var ends := set s | s in g && s.start <= extLo && s.end >= lo0 :: s.end;
    if lo != lo0 {
      var s :| s in g && s.start <= extLo && s.end >= lo0 && s.end == lo;
      SurvivorsOutside(f, ws, we, extLo, extHi, s);
      ZoneUpright(f, ws, we, extLo, extHi);
    }
    forall s | s in g && s.end <= extLo ensures s.end <= lo {
      SurvivorsOutside(f, ws, we, extLo, extHi, s);
      if s.end >= lo0 { assert s.end in ends; }
    }
  }

  lemma {:induction false} ZoneUpright(f: set<Span>, ws: nat, we: nat, extLo: nat, extHi: nat)
    requires Zone(f, ws, we, extLo, extHi)
    ensures extLo <= ws <= we <= extHi
  {}

  lemma {:induction false} GuardIs(t: Text, q: Query, scope: Span, f: set<Span>, ws: nat, we: nat, extLo: nat,
                                   extHi: nat, limit: nat)
    requires q.needle != [] && Disjoint(f) && Zone(f, ws, we, extLo, extHi) && extHi <= scope.end <= |t|
    requires limit == Least(set s | s in WithoutTouching(f, ws, we) && extHi <= s.start <= ZoneHi(t, q, scope, extHi)
                              :: s.start, ZoneHi(t, q, scope, extHi))
    ensures UpToGuard(WithoutTouching(f, ws, we), q, scope, extHi, ZoneHi(t, q, scope, extHi), limit)
    ensures forall y: nat | extHi + (|q.needle| - 1) <= y < ZoneHi(t, q, scope, extHi) :: !Boundary(t, y)
  {
    hide Boundary, Zone, Disjoint;
    var g, hi := WithoutTouching(f, ws, we), ZoneHi(t, q, scope, extHi);
    var starts := set s | s in g && extHi <= s.start <= hi :: s.start;
    if limit != hi {
      var s :| s in g && extHi <= s.start <= hi && s.start == limit;
    }
    forall s | s in g && s.start >= extHi ensures s.start >= limit {
      if s.start <= hi { assert s.start in starts; }
    }
  }

  /** The zone is anchored and guarded, inside the scope. */
  lemma {:induction false} ZoneHolds(t: Text, q: Query, scope: Span, f: set<Span>, ws: nat, we: nat)
    requires q.needle != [] && Disjoint(f) && forall s | s in f :: Within(s, scope)
    requires scope.start <= ws <= we <= scope.end <= |t|
    ensures var z, g := ZoneAround(t, q, scope, f, ws, we), WithoutTouching(f, ws, we);
            && Zone(f, ws, we, z.extLo, z.extHi) && FromAnchor(g, q, scope, z.extLo, z.lo)
            && UpToGuard(g, q, scope, z.extHi, z.hi, z.limit) && scope.start <= z.lo <= z.hi <= scope.end
            && forall y: nat | z.extHi + (|q.needle| - 1) <= y < z.hi :: !Boundary(t, y)
  {
    hide Disjoint, Boundary, WithoutTouching, ClipLeft, ClipRight;
    var z := ZoneAround(t, q, scope, f, ws, we);
    ExtentsHold(f, ws, we, z.extLo, z.extHi);
    ZoneStays(f, scope, ws, we, z.extLo, z.extHi);
    AnchorIs(t, q, scope, f, ws, we, z.extLo, z.extHi, z.lo);
    GuardIs(t, q, scope, f, ws, we, z.extLo, z.extHi, z.limit);
  }

  lemma {:induction false} ZoneStays(f: set<Span>, scope: Span, ws: nat, we: nat, a: nat, b: nat)
    requires Zone(f, ws, we, a, b) && scope.start <= ws && we <= scope.end && forall s | s in f :: Within(s, scope)
    ensures scope.start <= a <= ws <= we <= b <= scope.end
  {}

  lemma {:induction false} RefoundIsKept(t: Text, q: Query, z: Bounds)
    requires q.needle != [] && z.hi <= |t|
    ensures Refound(t, q, z) <= Kept(t, q, z.lo, z.hi, z.limit)
  {
    hide Greedy;
    forall m | m in Refound(t, q, z) ensures m in Greedy(t, q, z.lo, z.hi) {
      assert m in FirstMatches(Greedy(t, q, z.lo, z.hi));
    }
  }

  /** The scan stays clear of the survivors and of the scope's edges. */
  lemma {:induction false} RefoundFits(t: Text, q: Query, scope: Span, f: set<Span>, ws: nat, we: nat)
    requires q.needle != [] && Disjoint(f) && forall s | s in f :: Within(s, scope)
    requires scope.start <= ws <= we <= scope.end <= |t|
    ensures var g, found := WithoutTouching(f, ws, we), Refound(t, q, ZoneAround(t, q, scope, f, ws, we));
            && Disjoint(g + found) && (forall s | s in g + found :: Within(s, scope))
            && (forall s | s in found :: s !in g && TrueMatch(t, q, s))
  {
    hide HitAt, Kept, Zone, FromAnchor, UpToGuard, Disjoint, Refound, Boundary, ZoneAround;
    var z, g := ZoneAround(t, q, scope, f, ws, we), WithoutTouching(f, ws, we);
    var found := Refound(t, q, z);
    ZoneHolds(t, q, scope, f, ws, we);
    RefoundIsKept(t, q, z);
    RepairedDisjoint(f, t, q, scope, ws, we, z.extLo, z.extHi, z.lo, z.hi, z.limit);
    SubsetDisjoint(g + found, g + Kept(t, q, z.lo, z.hi, z.limit));
    ZoneInScope(g, q, scope, z.extLo, z.extHi, z.lo, z.hi, z.limit);
    forall s | s in found ensures Within(s, scope) && s !in g && TrueMatch(t, q, s) {
      KeptIsHit(t, q, z.lo, z.hi, z.limit, s);
      if s in g { KeptClear(f, t, q, scope, ws, we, z.extLo, z.extHi, z.lo, z.hi, z.limit, s, s); }
    }
  }

  lemma {:induction false} MendedFits(t: Text, q: Query, scope: Span, e: Edit, f: set<Span>)
    requires q.needle != [] && Disjoint(f) && forall s | s in f :: Within(s, scope)
    requires e.ns <= e.ne <= |t| && scope.start <= scope.end <= |t|
    ensures Disjoint(Mended(t, q, scope, e, f)) && forall s | s in Mended(t, q, scope, e, f) :: Within(s, scope)
  {
    hide Disjoint, WinLo, WinHi, ZoneAround, Refound, WithoutTouching;
    WindowBounds(t, q, scope, e);
    if WinLo(t, q, scope, e) <= WinHi(t, q, scope, e) {
      RefoundFits(t, q, scope, f, WinLo(t, q, scope, e), WinHi(t, q, scope, e));
    }
  }

  // ----- where the repair slices -----

  /** The scan would begin on the scope's start, inside a character: no character begins between it and
      the scan's margin, and no match survives before the zone. */
  ghost predicate StartCut(t: Text, q: Query, scope: Span, f: set<Span>, extLo: nat) {
    && !Boundary(t, scope.start)
    && (forall y: nat | scope.start < y <= extLo - (|q.needle| - 1) :: !Boundary(t, y))
    && (forall s | s in f :: extLo <= s.start)
  }

  /** The scan would stop on the scope's end, inside a character: none ends between its margin and the
      scope's end. */
  ghost predicate EndCut(t: Text, q: Query, scope: Span, extHi: nat) {
    !Boundary(t, scope.end) && forall y: nat | extHi + (|q.needle| - 1) <= y < scope.end :: !Boundary(t, y)
  }

  lemma {:induction false} ClipLeftMonotone(t: Text, a: nat, b: nat)
    requires a <= b
    ensures ClipLeft(t, a) <= ClipLeft(t, b)
  {}

  lemma {:induction false} WindowsAscend(p: Patch, before: Text, t: Text, q: Query, scope: Span, i: nat, j: nat)
    requires q.needle != [] && Rewrites(p, before, t) && WellFormed(p) && i <= j < |p|
    ensures WinLo(t, q, scope, p[i]) <= WinLo(t, q, scope, p[j])
  {
    hide Rewrites, WellFormed, ClipLeft;
    if i < j {
      NewAscend(p, i, j);
      NewUpright(p, i);
      ClipLeftMonotone(t, SatSub(p[i].ns, |q.needle| - 1), SatSub(p[j].ns, |q.needle| - 1));
    }
  }

  /** A survivor left of the window is a true match: no later window reaches back to it. */
  lemma {:induction false} LeftSurvivorIsTrue(p: Patch, before: Text, t: Text, q: Query, scope: Span, i: nat,
                                              f: set<Span>, s: Span)
    requires q.needle != [] && Rewrites(p, before, t) && WellFormed(p) && i < |p| && Sound(p, t, q, scope, i, f)
    requires s in f && s.end < WinLo(t, q, scope, p[i])
    ensures TrueMatch(t, q, s)
  {
    hide Rewrites, WellFormed, WinLo, WinHi, HitAt;
    if j :| i <= j < |p| && InWindow(t, q, scope, p[j], s) {
      WindowsAscend(p, before, t, q, scope, i, j);
    }
  }

  lemma {:induction false} LeftSurvivorCuts(p: Patch, before: Text, t: Text, q: Query, scope: Span, i: nat,
                                            f: set<Span>, z: Bounds, s: Span)
    requires q.needle != [] && Rewrites(p, before, t) && WellFormed(p) && i < |p| && Sound(p, t, q, scope, i, f)
    requires WholeChars(t) && WholeChars(q.needle)
    requires Zone(f, WinLo(t, q, scope, p[i]), WinHi(t, q, scope, p[i]), z.extLo, z.extHi)
    requires s in WithoutTouching(f, WinLo(t, q, scope, p[i]), WinHi(t, q, scope, p[i])) && s.start <= z.extLo
    ensures s.start < z.extLo && Boundary(t, s.end)
  {
    hide Rewrites, WellFormed, WinLo, WinHi, HitAt, WholeChars, Zone, Sound, Boundary;
    var ws, we := WinLo(t, q, scope, p[i]), WinHi(t, q, scope, p[i]);
    SoundFits(p, t, q, scope, i, f);
    ZoneUpright(f, ws, we, z.extLo, z.extHi);
    SurvivorsOutside(f, ws, we, z.extLo, z.extHi, s);
    LeftSurvivorIsTrue(p, before, t, q, scope, i, f, s);
    HitOnBoundaries(t, q, s.start);
  }

  lemma {:induction false} SoundFits(p: Patch, t: Text, q: Query, scope: Span, i: nat, f: set<Span>)
    requires q.needle != [] && Sound(p, t, q, scope, i, f)
    ensures Disjoint(f) && forall s | s in f :: Within(s, scope)
  {}

  /** Where no stored match lies in the way, the scan begins on the scope's edge only if no character
      begins between it and the margin. */
  lemma {:induction false} MarginCuts(t: Text, q: Query, scope: Span, extLo: nat)
    requires q.needle != [] && extLo <= |t|
    ensures !Boundary(t, ZoneLo(t, q, scope, extLo))
            <==> !Boundary(t, scope.start) && forall y: nat | scope.start < y <= extLo - (|q.needle| - 1) ::
              !Boundary(t, y)
  {
    hide Boundary;
    var c := SatSub(extLo, |q.needle| - 1);
    if ClipLeft(t, c) > scope.start { assert ClipLeft(t, c) <= extLo - (|q.needle| - 1); }
  }

  lemma {:induction false} StartCuts(p: Patch, before: Text, t: Text, q: Query, scope: Span, i: nat, f: set<Span>,
                                     z: Bounds)
    requires q.needle != [] && Rewrites(p, before, t) && WellFormed(p) && i < |p| && Sound(p, t, q, scope, i, f)
    requires WholeChars(t) && WholeChars(q.needle) && z.extLo <= |t|
    requires var ws, we := WinLo(t, q, scope, p[i]), WinHi(t, q, scope, p[i]);
             && Zone(f, ws, we, z.extLo, z.extHi) && z == ZoneAround(t, q, scope, f, ws, we)
    ensures !Boundary(t, z.lo) <==> StartCut(t, q, scope, f, z.extLo)
  {
    hide Rewrites, WellFormed, WinLo, WinHi, HitAt, WholeChars, Zone, Sound, Boundary, ZoneLo;
    var ws, we := WinLo(t, q, scope, p[i]), WinHi(t, q, scope, p[i]);
    var g, lo0 := WithoutTouching(f, ws, we), ZoneLo(t, q, scope, z.extLo);
    var ends := set s | s in g && s.start <= z.extLo && s.end >= lo0 :: s.end;
    assert z.lo == Greatest(ends, lo0);
    MarginCuts(t, q, scope, z.extLo);
    if s :| s in g && s.start <= z.extLo {
      LeftSurvivorCuts(p, before, t, q, scope, i, f, z, s);
      LeftSurvivorAnchors(p, before, t, q, scope, i, f, z, s, ends);
    } else {
      assert z.lo == lo0;
      AllFromZone(f, ws, we, z.extLo, z.extHi);
    }
  }

  lemma {:induction false} AllFromZone(f: set<Span>, ws: nat, we: nat, extLo: nat, extHi: nat)
    requires Zone(f, ws, we, extLo, extHi) && forall s | s in WithoutTouching(f, ws, we) :: s.start > extLo
    ensures forall s | s in f :: extLo <= s.start
  {
    forall s | s in f ensures extLo <= s.start {
      if TouchesSpan(s, ws, we) { assert Removed(f, ws, we, s); }
    }
  }

  lemma {:induction false} LeftSurvivorAnchors(p: Patch, before: Text, t: Text, q: Query, scope: Span, i: nat,
                                               f: set<Span>, z: Bounds, s: Span, ends: set<nat>)
    requires q.needle != [] && Rewrites(p, before, t) && WellFormed(p) && i < |p| && Sound(p, t, q, scope, i, f)
    requires WholeChars(t) && WholeChars(q.needle)
    requires var ws, we, g, lo0 := WinLo(t, q, scope, p[i]), WinHi(t, q, scope, p[i]),
               WithoutTouching(f, WinLo(t, q, scope, p[i]), WinHi(t, q, scope, p[i])), ZoneLo(t, q, scope, z.extLo);
             && Zone(f, ws, we, z.extLo, z.extHi) && z.lo == Greatest(ends, lo0)
             && ends == (set s | s in g && s.start <= z.extLo && s.end >= lo0 :: s.end)
             && s in g && s.start <= z.extLo
    ensures Boundary(t, z.lo)
  {
    hide Rewrites, WellFormed, WinLo, WinHi, HitAt, WholeChars, Zone, Sound, Boundary;
    var ws, we := WinLo(t, q, scope, p[i]), WinHi(t, q, scope, p[i]);
    var g, lo0 := WithoutTouching(f, ws, we), ZoneLo(t, q, scope, z.extLo);
    SoundFits(p, t, q, scope, i, f);
    if z.lo != lo0 {
      var r :| r in g && r.start <= z.extLo && r.end >= lo0 && r.end == z.lo;
      LeftSurvivorCuts(p, before, t, q, scope, i, f, z, r);
    } else if s.end >= lo0 {
      assert s.end in ends;
      LeftSurvivorCuts(p, before, t, q, scope, i, f, z, s);
    } else {
      SurvivorSolid(f, s, scope);
    }
  }

  lemma {:induction false} SurvivorSolid(f: set<Span>, s: Span, scope: Span)
    requires Disjoint(f) && s in f && Within(s, scope)
    ensures scope.start < s.end
  {}

  lemma {:induction false} EndCuts(t: Text, q: Query, scope: Span, extHi: nat)
    requires q.needle != [] && scope.end <= |t|
    ensures !Boundary(t, ZoneHi(t, q, scope, extHi)) <==> EndCut(t, q, scope, extHi)
  {
    hide Boundary;
    var c := Min(extHi + (|q.needle| - 1), scope.end);
    var r := ClipRight(t, c);
    if r < scope.end { assert extHi + (|q.needle| - 1) <= r; }
  }

  /** Exactly when the repair of an edit slices inside a character: its window lies in the scope, there is
      something to scan, and the scan begins or stops on a scope edge that lies inside one. */
  lemma {:induction false} SlicesBadlyWhen(p: Patch, before: Text, t: Text, q: Query, scope: Span, i: nat, f: set<Span>)
    requires q.needle != [] && Rewrites(p, before, t) && WellFormed(p) && i < |p| && Sound(p, t, q, scope, i, f)
    requires WholeChars(t) && WholeChars(q.needle) && scope.start <= scope.end <= |t|
    ensures var ws, we := WinLo(t, q, scope, p[i]), WinHi(t, q, scope, p[i]);
            var z := ZoneAround(t, q, scope, f, ws, we);
            !SlicesWell(t, q, scope, p[i], f)
            <==> ws <= we && z.lo < z.hi && (StartCut(t, q, scope, f, z.extLo) || EndCut(t, q, scope, z.extHi))
  {
    hide Rewrites, WellFormed, WinLo, WinHi, WholeChars, Zone, Sound, Boundary, StartCut, EndCut, FromAnchor, UpToGuard;
    var ws, we := WinLo(t, q, scope, p[i]), WinHi(t, q, scope, p[i]);
    if ws <= we {
      var z := ZoneAround(t, q, scope, f, ws, we);
      EditInText(p, before, t, i);
      WindowBounds(t, q, scope, p[i]);
      SoundFits(p, t, q, scope, i, f);
      ZoneHolds(t, q, scope, f, ws, we);
      ZoneStays(f, scope, ws, we, z.extLo, z.extHi);
      StartCuts(p, before, t, q, scope, i, f, z);
      EndCuts(t, q, scope, z.extHi);
    }
  }

  /** With both edges of the scope on characters the repair never slices inside one. */
  lemma {:induction false} EdgesSliceWell(p: Patch, before: Text, t: Text, q: Query, scope: Span, i: nat, f: set<Span>)
    requires q.needle != [] && Rewrites(p, before, t) && WellFormed(p) && i < |p| && Sound(p, t, q, scope, i, f)
    requires WholeChars(t) && WholeChars(q.needle) && scope.start <= scope.end <= |t|
    requires Boundary(t, scope.start) && Boundary(t, scope.end)
    ensures SlicesWell(t, q, scope, p[i], f)
  {
    hide Rewrites, WellFormed, WinLo, WinHi, WholeChars, Sound, Boundary, SlicesWell, ZoneAround;
    SlicesBadlyWhen(p, before, t, q, scope, i, f);
  }

  // ----- what one literal repair promises -----

  /** A list longer than the cap, cut after the cap's last. */
  ghost predicate StopsAt(all: seq<Span>, cut: nat) {
    |all| > FIND_MATCH_CAP && cut == all[FIND_MATCH_CAP - 1].start + 1
  }

  lemma {:induction false} ZoneFacts(t: Text, q: Query, scanLo: nat, scanHi: nat)
    requires q.needle != [] && scanHi <= |t|
    ensures var all := Greedy(t, q, scanLo, scanHi);
            Apart(all) && Solids(all) && forall s | s in all ::
              TrueMatch(t, q, s) && scanLo <= s.start && s.end <= scanHi
  {
    hide Greedy, HitAt, Apart;
    GreedyApart(t, q, scanLo, scanHi);
    forall s | s in Greedy(t, q, scanLo, scanHi)
      ensures s.start < s.end && TrueMatch(t, q, s) && scanLo <= s.start && s.end <= scanHi
    {
      GreedyHit(t, q, scanLo, scanHi, s);
    }
  }

  /** Every occurrence before the cut is held, for a needle that cannot overlap itself. */
  lemma {:induction false} BelowIsAll(t: Text, q: Query, scope: Span, f: set<Span>, top: nat, x: nat)
    requires NeverSelfOverlaps(q) && MaximalBelow(t, q, scope, f, top) && HitWithin(t, q, scope, x) && x < top
    ensures HitSpan(q, x) in f
  {
    hide HitAt, NeverSelfOverlaps;
    assert Covered(f, q, x);
    var m :| m in f && Overlap(m, HitSpan(q, x));
    assert TrueMatch(t, q, m);
    OneHitAPlace(t, q, m.start, x);
  }

  /** A survivor is none of the zone's first matches when there are more of them. */
  lemma {:induction false} SurvivorNotScanned(t: Text, q: Query, scope: Span, f: set<Span>, ws: nat, we: nat,
                                              extLo: nat, extHi: nat, scanLo: nat, scanHi: nat, s: Span)
    requires q.needle != [] && WholeChars(q.needle) && scanHi <= |t|
    requires Disjoint(f) && Zone(f, ws, we, extLo, extHi) && s in WithoutTouching(f, ws, we)
    requires FromAnchor(WithoutTouching(f, ws, we), q, scope, extLo, scanLo)
    requires forall y: nat | extHi + (|q.needle| - 1) <= y < scanHi :: !Boundary(t, y)
    requires |Greedy(t, q, scanLo, scanHi)| > FIND_MATCH_CAP
    ensures s !in Greedy(t, q, scanLo, scanHi)[..FIND_MATCH_CAP]
  {
    hide Greedy, Zone, HitAt, Boundary, WholeChars, Disjoint;
    var all := Greedy(t, q, scanLo, scanHi);
    SurvivorsOutside(f, ws, we, extLo, extHi, s);
    ZoneFacts(t, q, scanLo, scanHi);
    if s in all[..FIND_MATCH_CAP] {
      var j :| 0 <= j < FIND_MATCH_CAP && all[..FIND_MATCH_CAP][j] == s;
      var n := all[j + 1];
      assert all[j] == s && s in all && n in all && s.end <= n.start;
      HitOnBoundaries(t, q, n.start);
    }
  }

  /** Past the cap, one survivor beside the zone's first matches is more than the cap holds. */
  lemma {:induction false} ZoneOverflows(p: Patch, t: Text, q: Query, scope: Span, f: set<Span>, now: set<Span>,
                                         ws: nat, we: nat, extLo: nat, extHi: nat, scanLo: nat, scanHi: nat,
                                         kept: set<Span>, cut: nat)
    requires q.needle != [] && WholeChars(q.needle) && scanHi <= |t| && NeverSelfOverlaps(q) && scanHi <= scope.end
    requires Disjoint(f) && Zone(f, ws, we, extLo, extHi) && FromAnchor(WithoutTouching(f, ws, we), q, scope, extLo,
                                                                        scanLo)
    requires forall y: nat | extHi + (|q.needle| - 1) <= y < scanHi :: !Boundary(t, y)
    requires WithoutTouching(f, ws, we) != {} && now == WithoutTouching(f, ws, we) + kept
    requires StopsAt(Greedy(t, q, scanLo, scanHi), cut) && Repairing(p, t, q, scope, |p|, now, cut)
    ensures |now| > FIND_MATCH_CAP
  {
    hide Greedy, Zone, HitAt, Boundary, WholeChars, Disjoint, FromAnchor, Repairing, WithoutTouching, NeverSelfOverlaps,
         MaximalBelow, Apart, Solids;
    var s :| s in WithoutTouching(f, ws, we);
    var first := Greedy(t, q, scanLo, scanHi)[..FIND_MATCH_CAP];
    SurvivorNotScanned(t, q, scope, f, ws, we, extLo, extHi, scanLo, scanHi, s);
    AnchorStays(WithoutTouching(f, ws, we), q, scope, extLo, scanLo);
    FirstHeld(p, t, q, scope, now, scanLo, scanHi, cut);
    ZoneFacts(t, q, scanLo, scanHi);
    PrefixSolid(Greedy(t, q, scanLo, scanHi), FIND_MATCH_CAP);
    ApartCard(first);
    InSpanSet(first);
    assert s !in SpanSet(first);
    assert |SpanSet(first) + {s}| == FIND_MATCH_CAP + 1;
    SubsetCard(SpanSet(first) + {s}, now);
  }

  lemma {:induction false} AnchorStays(g: set<Span>, q: Query, scope: Span, extLo: nat, scanLo: nat)
    requires FromAnchor(g, q, scope, extLo, scanLo)
    ensures scope.start <= scanLo
  {}

  lemma {:induction false} PrefixSolid(l: seq<Span>, n: nat)
    requires Apart(l) && Solids(l) && n <= |l|
    ensures Apart(l[..n]) && Solids(l[..n])
  {
    forall s | s in l[..n] ensures s in l {}
  }

  lemma {:induction false} FirstHeld(p: Patch, t: Text, q: Query, scope: Span, now: set<Span>, scanLo: nat, scanHi: nat,
                                     cut: nat)
    requires q.needle != [] && scanHi <= |t| && NeverSelfOverlaps(q) && scope.start <= scanLo && scanHi <= scope.end
    requires StopsAt(Greedy(t, q, scanLo, scanHi), cut) && Repairing(p, t, q, scope, |p|, now, cut)
    ensures forall m | m in Greedy(t, q, scanLo, scanHi)[..FIND_MATCH_CAP] :: m in now
  {
    hide Greedy, HitAt, Repairing, NeverSelfOverlaps, MaximalBelow, Apart;
    var all := Greedy(t, q, scanLo, scanHi);
    ZoneFacts(t, q, scanLo, scanHi);
    RepairedIsMaximal(p, t, q, scope, now, cut);
    forall m | m in all[..FIND_MATCH_CAP] ensures m in now {
      assert m in all;
      PrefixByLast(all, FIND_MATCH_CAP, m);
      BelowIsAll(t, q, scope, now, cut, m.start);
    }
  }

  lemma {:induction false} InSpanSet(spans: seq<Span>)
    ensures forall s :: s in spans <==> s in SpanSet(spans)
  {}

  /** How far the zone's scan got. */
  ghost function ZoneCut(t: Text, all: seq<Span>): nat {
    if |all| > FIND_MATCH_CAP then all[FIND_MATCH_CAP - 1].start + 1 else |t|
  }

  lemma {:induction false} RefoundBelow(t: Text, q: Query, scope: Span, z: Bounds)
    requires q.needle != [] && z.hi <= |t| && scope.start <= z.lo && z.hi <= scope.end
    ensures var cut := ZoneCut(t, Greedy(t, q, z.lo, z.hi));
            KeptBelow(t, q, z.lo, z.hi, z.limit, Refound(t, q, z), cut) && Crowded(t, q, scope, cut)
  {
    hide Greedy, HitAt, Apart;
    var all := Greedy(t, q, z.lo, z.hi);
    ZoneFacts(t, q, z.lo, z.hi);
    RefoundIsKept(t, q, z);
    if |all| > FIND_MATCH_CAP {
      forall m | m in Kept(t, q, z.lo, z.hi, z.limit) && m.start < ZoneCut(t, all) ensures m in Refound(t, q, z) {
        PrefixByLast(all, FIND_MATCH_CAP, m);
      }
      assert Crowd(all, ZoneCut(t, all)) && forall s | s in all :: TrueMatch(t, q, s) && Within(s, scope);
    }
  }

  lemma {:induction false} KeptBelowLess(t: Text, q: Query, scanLo: nat, scanHi: nat, limit: nat, kept: set<Span>,
                                         top: nat, cut: nat)
    requires q.needle != [] && scanHi <= |t| && KeptBelow(t, q, scanLo, scanHi, limit, kept, top) && cut <= top
    ensures KeptBelow(t, q, scanLo, scanHi, limit, kept, cut)
  {}

  /** A scan adds no more than the cap. */
  lemma {:induction false} RefoundCard(t: Text, q: Query, z: Bounds)
    requires q.needle != [] && z.hi <= |t|
    ensures |Refound(t, q, z)| <= FIND_MATCH_CAP
  {
    hide Greedy, Apart, Solids;
    var all := Greedy(t, q, z.lo, z.hi);
    ZoneFacts(t, q, z.lo, z.hi);
    PrefixSolid(all, |FirstMatches(all)|);
    ApartCard(FirstMatches(all));
    SubsetCard(Refound(t, q, z), SpanSet(FirstMatches(all)));
  }

  /** With nothing stored a repair is a scan of the zone. */
  lemma {:induction false} MendsNothing(t: Text, q: Query, scope: Span, e: Edit)
    requires q.needle != [] && scope.end <= |t| && WinLo(t, q, scope, e) <= WinHi(t, q, scope, e)
    ensures Mended(t, q, scope, e, {})
            == SpanSet(FirstMatches(Greedy(t, q, ZoneLo(t, q, scope, WinLo(t, q, scope, e)),
                                           ZoneHi(t, q, scope, WinHi(t, q, scope, e)))))
  {
    hide WinLo, WinHi, ZoneLo, ZoneHi, Greedy;
    var ws, we := WinLo(t, q, scope, e), WinHi(t, q, scope, e);
    var z := ZoneAround(t, q, scope, {}, ws, we);
    assert z == Bounds(ws, we, ZoneLo(t, q, scope, ws), ZoneHi(t, q, scope, we), ZoneHi(t, q, scope, we));
    ZoneFacts(t, q, z.lo, z.hi);
    forall m | m in FirstMatches(Greedy(t, q, z.lo, z.hi)) ensures m.end <= z.limit {
      assert m in Greedy(t, q, z.lo, z.hi);
    }
  }

  /** The literal repair of one edit moves the invariant on.  The set is repaired up to `cut`; a cut past
      which nothing is promised comes with more matches than the cap. */
  lemma {:induction false} LiteralStep(p: Patch, t: Text, q: Query, scope: Span, i: nat, f: set<Span>, top: nat)
    returns (cut: nat)
    requires q.needle != [] && i < |p| && p[i].ns <= p[i].ne <= |t| && scope.start <= scope.end <= |t|
    requires Repairing(p, t, q, scope, i, f, top) && Crowded(t, q, scope, top) && top <= |t|
    ensures Repairing(p, t, q, scope, i + 1, Mended(t, q, scope, p[i], f), cut) && Crowded(t, q, scope, cut)
    ensures cut <= top && (Promised(t, top) ==> Promised(t, cut))
    ensures cut < top && WholeChars(q.needle) && i + 1 == |p| && NeverSelfOverlaps(q)
            && WithoutTouching(f, WinLo(t, q, scope, p[i]), WinHi(t, q, scope, p[i])) != {} ==>
              |Mended(t, q, scope, p[i], f)| > FIND_MATCH_CAP
  {
    hide WinLo, WinHi, Zone, FromAnchor, UpToGuard, Disjoint, Repairing, Greedy, Refound, ZoneAround, Crowded,
         KeptBelow, NeverSelfOverlaps, WholeChars, Boundary, FIND_MATCH_CAP, WithoutTouching;
    var ws, we := WinLo(t, q, scope, p[i]), WinHi(t, q, scope, p[i]);
    cut := top;
    if ws > we {
      RepairSkips(p, t, q, scope, i, f, top);
    } else {
      var z, g := ZoneAround(t, q, scope, f, ws, we), WithoutTouching(f, ws, we);
      var all := Greedy(t, q, z.lo, z.hi);
      RepairingFits(p, t, q, scope, i, f, top);
      WindowBounds(t, q, scope, p[i]);
      ZoneHolds(t, q, scope, f, ws, we);
      RefoundBelow(t, q, scope, z);
      CapPositive();
      if ZoneCut(t, all) < top { cut := ZoneCut(t, all); }
      KeptBelowLess(t, q, z.lo, z.hi, z.limit, Refound(t, q, z), ZoneCut(t, all), cut);
      RepairStep(p, t, q, scope, i, f, z.extLo, z.extHi, z.lo, z.hi, z.limit, Refound(t, q, z), top, cut);
      if cut < top && WholeChars(q.needle) && i + 1 == |p| && NeverSelfOverlaps(q) && g != {} {
        ZoneOverflows(p, t, q, scope, f, g + Refound(t, q, z), ws, we, z.extLo, z.extHi, z.lo, z.hi, Refound(t, q, z),
                      cut);
      }
    }
  }

  lemma {:induction false} RepairingFits(p: Patch, t: Text, q: Query, scope: Span, i: nat, f: set<Span>, top: nat)
    requires q.needle != [] && Repairing(p, t, q, scope, i, f, top)
    ensures Disjoint(f) && forall s | s in f :: Within(s, scope)
  {}

  lemma {:induction false} CapPositive()
    ensures FIND_MATCH_CAP > 0
  {}

  lemma {:induction false} NothingSpared(t: Text, q: Query, scope: Span, e: Edit, f: set<Span>)
    requires q.needle != [] && e.ns <= e.ne <= |t| && scope.start <= scope.end <= |t|
    requires forall s | s in f :: Within(s, scope) && s.start <= s.end
    requires WithoutTouching(f, WinLo(t, q, scope, e), WinHi(t, q, scope, e)) == {}
    ensures |Mended(t, q, scope, e, f)| <= FIND_MATCH_CAP
  {
    hide WinLo, WinHi, ZoneAround, Refound, FIND_MATCH_CAP, WithoutTouching;
    var ws, we := WinLo(t, q, scope, e), WinHi(t, q, scope, e);
    if ws > we {
      OutsideSpares(t, q, scope, e, f);
    } else {
      var z := ZoneAround(t, q, scope, f, ws, we);
      RefoundCard(t, q, z);
      assert {} + Refound(t, q, z) == Refound(t, q, z);
    }
  }

  // ----- a line-scoped repair -----

  /** A line-scoped set after the repair of one edit: the edit's lines cleared and scanned again. */
  ghost function LinesMended(t: Text, m: LineMatcher, scope: Span, e: Edit, f: set<Span>): set<Span>
    requires e.ns <= e.ne <= |t|
  {
    var w := LinesWindow(t, scope, e);
    if w.start > w.end then f
    else WithoutTouching(f, w.start, w.end) + SpanSet(FirstMatches(Scoped(t, m, LineLo(t, w.start), w)))
  }

  lemma {:induction false} WindowWithin(t: Text, scope: Span, e: Edit)
    requires e.ns <= e.ne <= |t|
    ensures Within(LinesWindow(t, scope, e), scope)
  {
    hide LineLo, LineHi;
  }

  lemma {:induction false} SolidsAll(spans: seq<Span>)
    requires forall s | s in spans :: s.start < s.end
    ensures Solids(spans)
  {}

  lemma {:induction false} AddedCard(g: set<Span>, spans: seq<Span>)
    requires Apart(spans) && Solids(spans) && forall s | s in spans :: s !in g
    ensures |g + SpanSet(spans)| == |g| + |spans|
  {
    hide Apart, Solids;
    ApartCard(spans);
    assert g !! SpanSet(spans);
  }

  lemma {:induction false} ScopedAreMatches(t: Text, m: LineMatcher, w: Span)
    requires IsMatcher(m) && w.start <= w.end <= |t|
    ensures forall s | s in Scoped(t, m, LineLo(t, w.start), w) :: LineMatch(t, m, s) && Within(s, w)
  {
    hide Scoped, LineMatch, LineLo;
    forall s | s in Scoped(t, m, LineLo(t, w.start), w) ensures LineMatch(t, m, s) && Within(s, w) {
      ScopedMembers(t, m, w, s);
    }
  }

  lemma {:induction false} LinesStopped(t: Text, m: LineMatcher, scope: Span, w: Span, cut: nat)
    requires IsMatcher(m) && w.start <= w.end <= |t| && Within(w, scope)
    requires var all := Scoped(t, m, LineLo(t, w.start), w);
             Apart(all) && Solids(all) && |all| > FIND_MATCH_CAP && cut <= all[FIND_MATCH_CAP - 1].start + 1
    ensures ScopedBelow(t, m, w, Scoped(t, m, LineLo(t, w.start), w)[..FIND_MATCH_CAP], cut)
    ensures cut == Scoped(t, m, LineLo(t, w.start), w)[FIND_MATCH_CAP - 1].start + 1 ==> LinesCrowded(t, m, scope, cut)
  {
    hide Scoped, LineMatch, Apart, LineLo;
    var all := Scoped(t, m, LineLo(t, w.start), w);
    ScopedAreMatches(t, m, w);
    forall s | s in all && s.start < cut ensures s in all[..FIND_MATCH_CAP] { PrefixByLast(all, FIND_MATCH_CAP, s); }
    forall s | s in all[..FIND_MATCH_CAP] ensures s in all {}
    assert cut == all[FIND_MATCH_CAP - 1].start + 1 ==> Crowd(all, cut) && forall s | s in all ::
      LineMatch(t, m, s) && Within(s, scope);
  }

  lemma {:induction false} PrefixFits(g: set<Span>, all: seq<Span>, n: nat)
    requires Apart(all) && (forall s | s in all ::
                            s.start < s.end && s !in g) && Disjoint(g + SpanSet(all)) && n <= |all|
    ensures Apart(all[..n]) && (forall s | s in all[..n] ::
                                s.start < s.end && s !in g) && Disjoint(g + SpanSet(all[..n]))
  {
    hide Apart, Disjoint;
    ApartPrefix(all, n);
    forall s | s in all[..n] ensures s in all {}
    SubsetDisjoint(g + SpanSet(all[..n]), g + SpanSet(all));
  }

  lemma {:induction false} FitsFacts(f: set<Span>, w: Span, added: seq<Span>)
    requires Fits(f, w, added)
    ensures Apart(added) && (forall s | s in added :: s.start < s.end && s !in WithoutTouching(f, w.start, w.end))
    ensures Disjoint(WithoutTouching(f, w.start, w.end) + SpanSet(added))
  {
    forall s | s in added ensures s.start < s.end {
      assert s in SpanSet(added);
    }
  }

  /** A window outside the scope spares every match. */
  lemma {:induction false} OutsideSpares(t: Text, q: Query, scope: Span, e: Edit, f: set<Span>)
    requires q.needle != [] && e.ns <= e.ne <= |t| && scope.start <= scope.end <= |t|
    requires WinLo(t, q, scope, e) > WinHi(t, q, scope, e) && forall s | s in f :: Within(s, scope) && s.start <= s.end
    ensures WithoutTouching(f, WinLo(t, q, scope, e), WinHi(t, q, scope, e)) == f
  {
    hide WinLo, WinHi;
    WindowOutside(t, q, scope, e);
  }

  lemma {:induction false} OutsideLinesSpare(t: Text, scope: Span, e: Edit, f: set<Span>)
    requires e.ns <= e.ne <= |t| && scope.start <= scope.end
    requires LinesWindow(t, scope, e).start > LinesWindow(t, scope, e).end
    requires forall s | s in f :: Within(s, scope) && s.start <= s.end
    ensures WithoutTouching(f, LinesWindow(t, scope, e).start, LinesWindow(t, scope, e).end) == f
  {
    hide LineLo, LineHi;
  }


  lemma {:induction false} LinesFitted(t: Text, m: LineMatcher, scope: Span, e: Edit, f: set<Span>)
    requires IsMatcher(m) && Disjoint(f) && e.ns <= e.ne <= |t|
    requires LinesWindow(t, scope, e).start <= LinesWindow(t, scope, e).end <= |t|
    ensures var w := LinesWindow(t, scope, e);
            var all := Scoped(t, m, LineLo(t, w.start), w);
            && Apart(FirstMatches(all)) && (forall s | s in FirstMatches(all) ::
                  s.start < s.end && s !in WithoutTouching(f, w.start, w.end))
            && Disjoint(WithoutTouching(f, w.start, w.end) + SpanSet(FirstMatches(all)))
            && Apart(all) && Solids(all)
            && forall s | s in all :: LineMatch(t, m, s) && Within(s, scope)
  {
    hide Scoped, LineLo, LineHi, Disjoint, WithoutTouching, Fits, IsMatcher, LineMatch, Apart, FIND_MATCH_CAP;
    var w := LinesWindow(t, scope, e);
    var all := Scoped(t, m, LineLo(t, w.start), w);
    AddedFits(t, m, f, w);
    FitsFacts(f, w, all);
    PrefixFits(WithoutTouching(f, w.start, w.end), all, |FirstMatches(all)|);
    ScopedAreMatches(t, m, w);
  }

  lemma {:induction false} LinesMendedFits(t: Text, m: LineMatcher, scope: Span, e: Edit, f: set<Span>)
    requires IsMatcher(m) && Disjoint(f) && (forall s | s in f :: Within(s, scope)) && e.ns <= e.ne <= |t|
    ensures Disjoint(LinesMended(t, m, scope, e, f)) && forall s | s in LinesMended(t, m, scope, e, f) ::
            Within(s, scope)
  {
    hide Scoped, LineLo, LineHi, Disjoint, WithoutTouching, IsMatcher, LineMatch, Apart, FIND_MATCH_CAP, LinesWindow;
    var w := LinesWindow(t, scope, e);
    if w.start <= w.end {
      LinesEnd(t, scope, e);
      LinesFitted(t, m, scope, e, f);
      hide FirstMatches;
      var found := FirstMatches(Scoped(t, m, LineLo(t, w.start), w));
      FirstAreIn(Scoped(t, m, LineLo(t, w.start), w));
      WithoutIsIn(f, w.start, w.end);
      forall s | s in LinesMended(t, m, scope, e, f) ensures Within(s, scope) {
        InSpanSet(found);
      }
    }
  }

  lemma {:induction false} FirstAreIn(l: seq<Span>)
    ensures forall s | s in FirstMatches(l) :: s in l
  {}

  lemma {:induction false} WithoutIsIn(f: set<Span>, ws: nat, we: nat)
    ensures WithoutTouching(f, ws, we) <= f
  {}

  lemma {:induction false} SomeMember(f: set<Span>)
    ensures f != {} ==> |f| > 0
  {}

  lemma {:induction false} LinesEnd(t: Text, scope: Span, e: Edit)
    requires e.ns <= e.ne <= |t|
    ensures LinesWindow(t, scope, e).end <= |t|
  {
    hide LineLo, LineHi;
  }

  lemma {:induction false} LinesMendedIs(t: Text, m: LineMatcher, scope: Span, e: Edit, f: set<Span>)
    requires e.ns <= e.ne <= |t|
    ensures LinesWindow(t, scope, e).end <= |t|
    ensures var w := LinesWindow(t, scope, e);
            LinesMended(t, m, scope, e, f)
            == if w.start > w.end then f
               else WithoutTouching(f, w.start, w.end) + SpanSet(FirstMatches(Scoped(t, m, LineLo(t, w.start), w)))
  {
    hide LineLo, LineHi, WithoutTouching, SpanSet, FirstMatches, Scoped;
  }

  /** How far the scan of the edit's lines got. */
  lemma {:induction false} LinesCut(t: Text, m: LineMatcher, scope: Span, w: Span, all: seq<Span>, top: nat, cut: nat)
    requires IsMatcher(m) && w.start <= w.end <= |t| && Within(w, scope) && LinesCrowded(t, m, scope, top)
    requires all == Scoped(t, m, LineLo(t, w.start), w) && Apart(all) && Solids(all) && top <= |t|
    requires cut == if ZoneCut(t, all) < top then ZoneCut(t, all) else top
    ensures ScopedBelow(t, m, w, FirstMatches(all), cut) && LinesCrowded(t, m, scope, cut)
    ensures Promised(t, top) ==> Promised(t, cut)
    ensures |FirstMatches(all)| <= FIND_MATCH_CAP && (cut < top ==> |FirstMatches(all)| == FIND_MATCH_CAP)
  {
    hide Scoped, LineLo, Apart, LineMatch, LinesCrowded, IsMatcher;
    if |all| > FIND_MATCH_CAP { LinesStopped(t, m, scope, w, cut); }
  }

  /** The line-scoped repair of one edit moves the invariant on, likewise. */
  lemma {:induction false} LinesStep(p: Patch, t: Text, m: LineMatcher, scope: Span, i: nat, rides: set<Span>,
                                     f: set<Span>, top: nat)
    returns (cut: nat)
    requires IsMatcher(m) && i < |p| && p[i].ns <= p[i].ne <= |t| && scope.start <= scope.end && top <= |t|
    requires LinesRepairing(p, t, m, scope, i, rides, f, top) && LinesCrowded(t, m, scope, top)
    ensures LinesRepairing(p, t, m, scope, i + 1, rides, LinesMended(t, m, scope, p[i], f), cut)
    ensures LinesCrowded(t, m, scope, cut) && cut <= top && (Promised(t, top) ==> Promised(t, cut))
    ensures var w := LinesWindow(t, scope, p[i]);
            cut < top && WithoutTouching(f, w.start, w.end) != {} ==>
              |LinesMended(t, m, scope, p[i], f)| > FIND_MATCH_CAP
  {
    hide *;
    var w := LinesWindow(t, scope, p[i]);
    cut := top;
    LinesMendedIs(t, m, scope, p[i], f);
    if w.start > w.end {
      LinesSkip(p, t, m, scope, i, rides, f, top);
    } else {
      var all := Scoped(t, m, LineLo(t, w.start), w);
      LinesDisjoint(p, t, m, scope, i, rides, f, top);
      LinesEnd(t, scope, p[i]);
      LinesFitted(t, m, scope, p[i], f);
      WindowWithin(t, scope, p[i]);
      if ZoneCut(t, all) < top { cut := ZoneCut(t, all); }
      LinesCut(t, m, scope, w, all, top, cut);
      LinesRepairStep(p, t, m, scope, i, rides, f, FirstMatches(all), top, cut);
      SolidsAll(FirstMatches(all));
      AddedCard(WithoutTouching(f, w.start, w.end), FirstMatches(all));
      SomeMember(WithoutTouching(f, w.start, w.end));
    }
  }
}
