/**
 Repairing a literal match set around each edit of a patch.

 A set is maximal when its members are disjoint true matches and every occurrence overlaps one.
 While the edits are repaired one by one, what is still wrong lies near an edit to come.
 */
module FindRepair {
  import opened Base
  import opened Patches
  import opened TextBounds
  import opened FindScans
  import opened FindSets
  import opened FindScopes

  predicate TrueMatch(t: Text, q: Query, s: Span) { HitAt(t, q, s.start) && s == HitSpan(q, s.start) }

  ghost predicate Covered(f: set<Span>, q: Query, x: nat) {
    exists s :: s in f && Overlap(s, HitSpan(q, x))
  }

  /** An occurrence inside the scope. */
  predicate HitWithin(t: Text, q: Query, scope: Span, x: nat) {
    HitAt(t, q, x) && scope.start <= x && x + |q.needle| <= scope.end
  }

  /** The scope of a search without one. */
  function Whole(t: Text): Span { Span(0, |t|) }

  /** Disjoint true matches of the scope, and no occurrence in it left that overlaps none of them. */
  ghost predicate MaximalMatches(t: Text, q: Query, scope: Span, f: set<Span>) {
    && Disjoint(f)
    && (forall s | s in f :: TrueMatch(t, q, s) && Within(s, scope))
    && (forall x: nat | HitWithin(t, q, scope, x) :: Covered(f, q, x))
  }

  // ----- the influence window of an edit -----

  function WinLo(t: Text, q: Query, scope: Span, e: Edit): nat
    requires q.needle != []
  {
    Max(ClipLeft(t, SatSub(e.ns, |q.needle| - 1)), scope.start)
  }

  function WinHi(t: Text, q: Query, scope: Span, e: Edit): nat
    requires q.needle != []
  {
    Min(ClipRight(t, Min(e.ne + (|q.needle| - 1), Min(scope.end, |t|))), scope.end)
  }

  predicate InWindow(t: Text, q: Query, scope: Span, e: Edit, s: Span)
    requires q.needle != []
  {
    TouchesSpan(s, WinLo(t, q, scope, e), WinHi(t, q, scope, e))
  }

  predicate Near(t: Text, q: Query, scope: Span, e: Edit, x: nat)
    requires q.needle != []
  {
    x < WinHi(t, q, scope, e) && x + |q.needle| > WinLo(t, q, scope, e)
  }

  lemma {:induction false} WindowBounds(t: Text, q: Query, scope: Span, e: Edit)
    requires q.needle != [] && e.ns <= e.ne <= |t| && scope.start <= scope.end <= |t|
    ensures WinLo(t, q, scope, e) <= Max(e.ns, scope.start)
            && Min(e.ne, scope.end) <= WinHi(t, q, scope, e) <= scope.end
    ensures WinLo(t, q, scope, e) + |q.needle| - 1 <= e.ns || WinLo(t, q, scope, e) == scope.start
    ensures e.ne + |q.needle| - 1 <= WinHi(t, q, scope, e) || WinHi(t, q, scope, e) == scope.end
    ensures scope.start <= WinLo(t, q, scope, e)
  {
    hide Boundary;
  }

  // ----- the set under repair -----

  ghost predicate Pending(p: Patch, t: Text, q: Query, scope: Span, i: nat, s: Span)
    requires q.needle != []
  {
    exists j | i <= j < |p| :: InWindow(t, q, scope, p[j], s)
  }

  ghost predicate NearLater(p: Patch, t: Text, q: Query, scope: Span, i: nat, x: nat)
    requires q.needle != []
  {
    exists j | i <= j < |p| :: Near(t, q, scope, p[j], x)
  }

  /** Disjoint spans of the scope, each a true match or in the window of an edit from `i` on. */
  ghost predicate Sound(p: Patch, t: Text, q: Query, scope: Span, i: nat, f: set<Span>)
    requires q.needle != []
  {
    && Disjoint(f)
    && (forall s | s in f :: Within(s, scope) && (TrueMatch(t, q, s) || Pending(p, t, q, scope, i, s)))
  }

  /** Once edits before `i` are repaired: a member that is no match lies in a later edit's window,
      and an uncovered occurrence lies near a later edit or starts at `top` or after. */
  ghost predicate Repairing(p: Patch, t: Text, q: Query, scope: Span, i: nat, f: set<Span>, top: nat)
    requires q.needle != []
  {
    && Sound(p, t, q, scope, i, f)
    && (forall x: nat | HitWithin(t, q, scope, x) && x < top :: Covered(f, q, x) || NearLater(p, t, q, scope, i, x))
  }

  /** Disjoint true matches, and no occurrence before `top` left that overlaps none of them. */
  ghost predicate MaximalBelow(t: Text, q: Query, scope: Span, f: set<Span>, top: nat) {
    && Disjoint(f)
    && (forall s | s in f :: TrueMatch(t, q, s) && Within(s, scope))
    && (forall x: nat | HitWithin(t, q, scope, x) && x < top :: Covered(f, q, x))
  }

  /** With no edit left the set is maximal, as far as nothing was cut. */
  lemma {:induction false} RepairedIsMaximal(p: Patch, t: Text, q: Query, scope: Span, f: set<Span>, top: nat)
    requires q.needle != [] && Repairing(p, t, q, scope, |p|, f, top)
    ensures MaximalBelow(t, q, scope, f, top) && (top >= |t| ==> MaximalMatches(t, q, scope, f))
  {
    hide Same;
  }

  // ----- one repair -----

  ghost predicate Removed(f: set<Span>, ws: nat, we: nat, s: Span) { s in f && TouchesSpan(s, ws, we) }

  /** The zone: the window widened to the removed matches. */
  ghost predicate Zone(f: set<Span>, ws: nat, we: nat, extLo: nat, extHi: nat) {
    && extLo <= ws <= we <= extHi
    && (forall s | Removed(f, ws, we, s) :: extLo <= s.start && s.end <= extHi)
    && (extLo == ws || exists s | Removed(f, ws, we, s) :: s.start == extLo)
    && (extHi == we || exists s | Removed(f, ws, we, s) :: s.end == extHi)
  }

  /** A surviving match lies wholly to one side of the zone. */
  lemma {:induction false} SurvivorsOutside(f: set<Span>, ws: nat, we: nat, extLo: nat, extHi: nat, s: Span)
    requires Disjoint(f) && Zone(f, ws, we, extLo, extHi) && s in WithoutTouching(f, ws, we)
    ensures s.end <= extLo || s.start >= extHi
    ensures s.start < s.end && (s.end < ws || s.start > we)
  {
    if s.end < ws {
      if extLo != ws {
        var r :| Removed(f, ws, we, r) && r.start == extLo;
        assert !Overlap(s, r);
      }
    } else {
      if extHi != we {
        var r :| Removed(f, ws, we, r) && r.end == extHi;
        assert !Overlap(s, r);
      }
    }
  }

  /** Where the re-scan starts: at the widened margin, or at the end of the last match surviving in
      it. */
  ghost predicate FromAnchor(g: set<Span>, q: Query, scope: Span, extLo: nat, scanLo: nat) {
    && scope.start <= scanLo <= extLo
    && (forall s | s in g && s.end <= extLo :: s.end <= scanLo)
    && (scanLo + |q.needle| <= extLo + 1 || scanLo == scope.start || exists s | s in g :: s.end == scanLo)
  }

  /** Where the re-scan's matches must end: the widened margin, or the first match surviving right
      of the zone. */
  ghost predicate UpToGuard(g: set<Span>, q: Query, scope: Span, extHi: nat, scanHi: nat, limit: nat) {
    && extHi <= limit <= scanHi <= scope.end
    && (extHi + |q.needle| <= scanHi + 1 || scanHi == scope.end)
    && (forall s | s in g && s.start >= extHi :: s.start >= limit)
    && (limit == scanHi || exists s | s in g :: s.start == limit)
  }

  ghost function Kept(t: Text, q: Query, scanLo: nat, scanHi: nat, limit: nat): set<Span>
    requires q.needle != [] && scanHi <= |t|
  {
    set m | m in Greedy(t, q, scanLo, scanHi) && m.end <= limit
  }

  /** What a re-scan that may have stopped early adds: matches of the zone, all of those starting
      before `top` among them. */
  ghost predicate KeptBelow(t: Text, q: Query, scanLo: nat, scanHi: nat, limit: nat, kept: set<Span>, top: nat)
    requires q.needle != [] && scanHi <= |t|
  {
    && kept <= Kept(t, q, scanLo, scanHi, limit)
    && forall m | m in Kept(t, q, scanLo, scanHi, limit) && m.start < top :: m in kept
  }

  lemma {:induction false} KeptIsHit(t: Text, q: Query, scanLo: nat, scanHi: nat, limit: nat, m: Span)
    requires q.needle != [] && scanHi <= |t| && m in Kept(t, q, scanLo, scanHi, limit)
    ensures TrueMatch(t, q, m) && scanLo <= m.start < m.end <= limit
  {
    hide HitAt, Greedy;
    GreedyHit(t, q, scanLo, scanHi, m);
  }

  /** The re-scan never double-owns a survivor's text. */
  lemma {:induction false} KeptClear(f: set<Span>, t: Text, q: Query, scope: Span, ws: nat, we: nat, extLo: nat,
                                     extHi: nat, scanLo: nat, scanHi: nat, limit: nat, m: Span, s: Span)
    requires q.needle != [] && Disjoint(f) && Zone(f, ws, we, extLo, extHi) && scanHi <= |t|
    requires FromAnchor(WithoutTouching(f, ws, we), q, scope, extLo, scanLo)
    requires UpToGuard(WithoutTouching(f, ws, we), q, scope, extHi, scanHi, limit)
    requires m in Kept(t, q, scanLo, scanHi, limit) && s in WithoutTouching(f, ws, we)
    ensures !Overlap(m, s) && m != s
  {
    hide Kept, Zone, Disjoint, HitAt;
    KeptIsHit(t, q, scanLo, scanHi, limit, m);
    SurvivorsOutside(f, ws, we, extLo, extHi, s);
  }

  lemma {:induction false} KeptApart(t: Text, q: Query, scanLo: nat, scanHi: nat, limit: nat)
    requires q.needle != [] && scanHi <= |t|
    ensures Disjoint(Kept(t, q, scanLo, scanHi, limit))
  {
    hide Greedy, HitAt;
    var g := Greedy(t, q, scanLo, scanHi);
    GreedyApart(t, q, scanLo, scanHi);
    forall a | a in Kept(t, q, scanLo, scanHi, limit) ensures a.start < a.end {
      KeptIsHit(t, q, scanLo, scanHi, limit, a);
    }
    forall a, b | a in g && b in g && a != b ensures !Overlap(a, b) {
      var i :| 0 <= i < |g| && g[i] == a;
      var j :| 0 <= j < |g| && g[j] == b;
      if i < j { assert a.end <= b.start; } else { assert b.end <= a.start; }
    }
  }

  lemma {:induction false} RepairedDisjoint(f: set<Span>, t: Text, q: Query, scope: Span, ws: nat, we: nat, extLo: nat,
                                            extHi: nat, scanLo: nat, scanHi: nat, limit: nat)
    requires q.needle != [] && Disjoint(f) && Zone(f, ws, we, extLo, extHi) && scanHi <= |t|
    requires FromAnchor(WithoutTouching(f, ws, we), q, scope, extLo, scanLo)
    requires UpToGuard(WithoutTouching(f, ws, we), q, scope, extHi, scanHi, limit)
    ensures Disjoint(WithoutTouching(f, ws, we) + Kept(t, q, scanLo, scanHi, limit))
  {
    hide Kept, Zone, FromAnchor;
    var g, kept := WithoutTouching(f, ws, we), Kept(t, q, scanLo, scanHi, limit);
    KeptApart(t, q, scanLo, scanHi, limit);
    forall m, s | m in kept && s in g ensures !Overlap(m, s) && m != s {
      KeptClear(f, t, q, scope, ws, we, extLo, extHi, scanLo, scanHi, limit, m, s);
    }
  }

  /** Any occurrence reaching into the zone, and starting before the cut, is covered afterwards. */
  lemma {:induction false} ZoneCovered(f: set<Span>, t: Text, q: Query, scope: Span, ws: nat, we: nat, extLo: nat,
                                       extHi: nat, scanLo: nat, scanHi: nat, limit: nat, kept: set<Span>, top: nat,
                                       x: nat)
    requires q.needle != [] && Disjoint(f) && Zone(f, ws, we, extLo, extHi) && scanHi <= |t|
    requires FromAnchor(WithoutTouching(f, ws, we), q, scope, extLo, scanLo)
    requires UpToGuard(WithoutTouching(f, ws, we), q, scope, extHi, scanHi, limit)
    requires KeptBelow(t, q, scanLo, scanHi, limit, kept, top) && x < top
    requires HitWithin(t, q, scope, x) && x < extHi && x + |q.needle| > extLo
    ensures Covered(WithoutTouching(f, ws, we) + kept, q, x)
  {
    hide HitAt, Greedy;
    var g := WithoutTouching(f, ws, we);
    var o := HitSpan(q, x);
    if s :| s in g && Overlap(s, o) {
      assert s in g + kept;
    } else {
      HitEnds(t, q, x);
      HitInZone(f, t, q, scope, ws, we, extLo, extHi, scanLo, scanHi, limit, x);
      var m := GreedyCovers(t, q, scanLo, scanHi, x);
      GreedyHit(t, q, scanLo, scanHi, m);
      assert m in Kept(t, q, scanLo, scanHi, limit) && Overlap(m, o);
    }
  }

  lemma {:induction false} HitEnds(t: Text, q: Query, x: nat)
    requires HitAt(t, q, x)
    ensures x + |q.needle| <= |t|
  {}

  lemma {:induction false} HitInZone(f: set<Span>, t: Text, q: Query, scope: Span, ws: nat, we: nat, extLo: nat,
                                     extHi: nat, scanLo: nat, scanHi: nat, limit: nat, x: nat)
    requires q.needle != [] && Disjoint(f) && Zone(f, ws, we, extLo, extHi)
    requires FromAnchor(WithoutTouching(f, ws, we), q, scope, extLo, scanLo)
    requires UpToGuard(WithoutTouching(f, ws, we), q, scope, extHi, scanHi, limit)
    requires scope.start <= x && x + |q.needle| <= scope.end && x < extHi && x + |q.needle| > extLo
    requires forall s | s in WithoutTouching(f, ws, we) :: !Overlap(s, HitSpan(q, x))
    ensures scanLo <= x && x + |q.needle| <= limit
  {
    var g, o := WithoutTouching(f, ws, we), HitSpan(q, x);
    if s :| s in g && s.end == scanLo { assert !Overlap(s, o); }
    if s :| s in g && s.start == limit { assert !Overlap(s, o); }
  }

  /** One edit repaired, with all the re-scan found or with a part of it: what the set holds is
      still sound. */
  lemma {:induction false} SoundStep(p: Patch, t: Text, q: Query, scope: Span, i: nat, f: set<Span>, extLo: nat,
                                     extHi: nat, scanLo: nat, scanHi: nat, limit: nat, kept: set<Span>)
    requires q.needle != [] && i < |p| && scanHi <= scope.end <= |t| && Sound(p, t, q, scope, i, f)
    requires Zone(f, WinLo(t, q, scope, p[i]), WinHi(t, q, scope, p[i]), extLo, extHi)
    requires FromAnchor(WithoutTouching(f, WinLo(t, q, scope, p[i]), WinHi(t, q, scope, p[i])), q, scope, extLo, scanLo)
    requires UpToGuard(WithoutTouching(f, WinLo(t, q, scope, p[i]), WinHi(t, q, scope, p[i])), q, scope, extHi, scanHi,
                       limit)
    requires kept <= Kept(t, q, scanLo, scanHi, limit)
    ensures Sound(p, t, q, scope, i + 1, WithoutTouching(f, WinLo(t, q, scope, p[i]), WinHi(t, q, scope, p[i])) + kept)
    ensures forall s | s in kept :: s !in WithoutTouching(f, WinLo(t, q, scope, p[i]), WinHi(t, q, scope, p[i]))
  {
    hide HitAt, WinLo, WinHi, Kept, Zone, FromAnchor, UpToGuard, Disjoint, Pending;
    var ws, we := WinLo(t, q, scope, p[i]), WinHi(t, q, scope, p[i]);
    var g, all := WithoutTouching(f, ws, we), Kept(t, q, scanLo, scanHi, limit);
    RepairedDisjoint(f, t, q, scope, ws, we, extLo, extHi, scanLo, scanHi, limit);
    SubsetDisjoint(g + kept, g + all);
    forall s | s in g + kept ensures Within(s, scope) && (TrueMatch(t, q, s) || Pending(p, t, q, scope, i + 1, s)) {
      if s in kept {
        KeptIsHit(t, q, scanLo, scanHi, limit, s);
        ZoneInScope(g, q, scope, extLo, extHi, scanLo, scanHi, limit);
      } else {
        PendingMovesOn(p, t, q, scope, i, s);
      }
    }
    forall s | s in kept ensures s !in g {
      if s in g { KeptClear(f, t, q, scope, ws, we, extLo, extHi, scanLo, scanHi, limit, s, s); }
    }
  }

  lemma {:induction false} ZoneInScope(g: set<Span>, q: Query, scope: Span, extLo: nat, extHi: nat, scanLo: nat,
                                       scanHi: nat, limit: nat)
    requires FromAnchor(g, q, scope, extLo, scanLo) && UpToGuard(g, q, scope, extHi, scanHi, limit)
    ensures scope.start <= scanLo && limit <= scanHi <= scope.end
  {}

  lemma {:induction false} SubsetDisjoint(f: set<Span>, g: set<Span>)
    requires f <= g && Disjoint(g)
    ensures Disjoint(f)
  {}

  /** One edit repaired: the invariant moves on to the next, up to where its scan was cut. */
  lemma {:induction false} RepairStep(p: Patch, t: Text, q: Query, scope: Span, i: nat, f: set<Span>, extLo: nat,
                                      extHi: nat, scanLo: nat, scanHi: nat, limit: nat, kept: set<Span>, top: nat,
                                      cut: nat)
    requires q.needle != [] && i < |p| && scanHi <= scope.end <= |t| && Repairing(p, t, q, scope, i, f, top)
             && cut <= top
    requires KeptBelow(t, q, scanLo, scanHi, limit, kept, cut)
    requires Zone(f, WinLo(t, q, scope, p[i]), WinHi(t, q, scope, p[i]), extLo, extHi)
    requires FromAnchor(WithoutTouching(f, WinLo(t, q, scope, p[i]), WinHi(t, q, scope, p[i])), q, scope, extLo, scanLo)
    requires UpToGuard(WithoutTouching(f, WinLo(t, q, scope, p[i]), WinHi(t, q, scope, p[i])), q, scope, extHi, scanHi,
                       limit)
    ensures Repairing(p, t, q, scope, i + 1,
                      WithoutTouching(f, WinLo(t, q, scope, p[i]), WinHi(t, q, scope, p[i])) + kept, cut)
  {
    hide HitAt, WinLo, WinHi, Kept, Zone, FromAnchor, UpToGuard, Disjoint, Pending, NearLater, Covered;
    var ws, we := WinLo(t, q, scope, p[i]), WinHi(t, q, scope, p[i]);
    var g := WithoutTouching(f, ws, we);
    SoundStep(p, t, q, scope, i, f, extLo, extHi, scanLo, scanHi, limit, kept);
    forall x: nat | HitWithin(t, q, scope, x) && x < cut
      ensures Covered(g + kept, q, x) || NearLater(p, t, q, scope, i + 1, x)
    {
      StepCovers(p, t, q, scope, i, f, extLo, extHi, scanLo, scanHi, limit, kept, cut, x);
    }
  }

  lemma {:induction false} PendingMovesOn(p: Patch, t: Text, q: Query, scope: Span, i: nat, s: Span)
    requires q.needle != [] && i < |p| && !InWindow(t, q, scope, p[i], s)
    ensures Pending(p, t, q, scope, i, s) ==> Pending(p, t, q, scope, i + 1, s)
  {
    hide InWindow;
  }

  lemma {:induction false} NearMovesOn(p: Patch, t: Text, q: Query, scope: Span, i: nat, x: nat)
    requires q.needle != [] && i < |p| && !Near(t, q, scope, p[i], x)
    ensures NearLater(p, t, q, scope, i, x) ==> NearLater(p, t, q, scope, i + 1, x)
  {
    hide Near;
  }

  lemma {:induction false} StepCovers(p: Patch, t: Text, q: Query, scope: Span, i: nat, f: set<Span>, extLo: nat,
                                      extHi: nat, scanLo: nat, scanHi: nat, limit: nat, kept: set<Span>, cut: nat,
                                      x: nat)
    requires q.needle != [] && i < |p| && scanHi <= scope.end <= |t| && Disjoint(f) && HitWithin(t, q, scope, x)
             && x < cut
    requires KeptBelow(t, q, scanLo, scanHi, limit, kept, cut)
    requires Covered(f, q, x) || NearLater(p, t, q, scope, i, x)
    requires Zone(f, WinLo(t, q, scope, p[i]), WinHi(t, q, scope, p[i]), extLo, extHi)
    requires FromAnchor(WithoutTouching(f, WinLo(t, q, scope, p[i]), WinHi(t, q, scope, p[i])), q, scope, extLo, scanLo)
    requires UpToGuard(WithoutTouching(f, WinLo(t, q, scope, p[i]), WinHi(t, q, scope, p[i])), q, scope, extHi, scanHi,
                       limit)
    ensures Covered(WithoutTouching(f, WinLo(t, q, scope, p[i]), WinHi(t, q, scope, p[i])) + kept, q, x)
            || NearLater(p, t, q, scope, i + 1, x)
  {
    hide HitAt, WinLo, WinHi, Kept, KeptBelow, FromAnchor, UpToGuard, Disjoint, NearLater;
    var ws, we := WinLo(t, q, scope, p[i]), WinHi(t, q, scope, p[i]);
    var g := WithoutTouching(f, ws, we);
    if x < extHi && x + |q.needle| > extLo {
      ZoneCovered(f, t, q, scope, ws, we, extLo, extHi, scanLo, scanHi, limit, kept, cut, x);
    } else {
      if s :| s in f && Overlap(s, HitSpan(q, x)) {
        assert !Removed(f, ws, we, s);
        assert s in g + kept;
      } else {
        NearMovesOn(p, t, q, scope, i, x);
      }
    }
  }

  // ----- where a repair starts: the mover has run -----

  /** A match touching some edit touches that edit's new text once moved. */
  lemma {:induction false} MovedTouches(p: Patch, s: Span, j: nat)
    requires WellFormed(p) && s.start < s.end && j == FirstReaching(p, s.start) < |p| && p[j].os <= s.end
    ensures TouchesSpan(RideSpan(p, s), p[j].ns, p[j].ne)
  {
    hide Mapped, MapOffset, Shift;
    MapUpper(p, s.start, Right);
    ReachingMonotone(p, s.start, s.end);
    var l := FirstReaching(p, s.end);
    if l == j {
      MapUpper(p, s.end, Left);
    } else {
      MapLower(p, s.end, Left);
      NewAscendTo(p, j, l);
      NewUpright(p, j);
    }
  }

  lemma {:induction false} NewUpright(p: Patch, j: nat)
    requires WellFormed(p) && j < |p|
    ensures p[j].ns <= p[j].ne && p[j].os <= p[j].oe
  {}

  /** A match touching no edit lies inside one gap, and moves with it. */
  lemma {:induction false} MovedWithGap(p: Patch, s: Span, j: nat)
    requires WellFormed(p) && s.start < s.end && j == FirstReaching(p, s.start) && (j < |p| ==> s.end < p[j].os)
    ensures j > 0 ==> GapStart(p, j) < s.start
    ensures s.start + Shift(p, j) >= 0
    ensures RideSpan(p, s) == Span(s.start + Shift(p, j), s.end + Shift(p, j))
  {
    hide Shift, MapWithin;
    if j > 0 { assert p[j - 1].oe < s.start; }
    MapInGap(p, s.start, j, Right);
    MapInGap(p, s.end, j, Left);
    MapNonNegative(p, s.start, Right);
  }

  lemma {:induction false} GapHit(p: Patch, before: Text, after: Text, q: Query, g: nat, x: nat)
    requires Rewrites(p, before, after) && g <= |p| && q.needle != []
    requires GapStart(p, g) <= x && x + |q.needle| <= GapEnd(p, |before|, g)
    ensures x + Shift(p, g) >= 0
    ensures HitAt(before, q, x) <==> HitAt(after, q, x + Shift(p, g))
  {
    hide Shift, Same, Rewrites;
    GapByte(p, before, after, g, x);
    GapByte(p, before, after, g, x + |q.needle| - 1);
    var d := Shift(p, g);
    forall j | 0 <= j < |q.needle|
      ensures Same(before[x + j], q.needle[j], q.caseSensitive)
              <==> Same(after[x + d + j], q.needle[j], q.caseSensitive)
    {
      GapByte(p, before, after, g, x + j);
    }
  }

  /** A moved match is a match of the new text, or lies in some edit's window. */
  lemma {:induction false} MovedTrueOrPending(p: Patch, before: Text, after: Text, q: Query, scope: Span, s: Span)
    requires q.needle != [] && Rewrites(p, before, after) && TrueMatch(before, q, s)
    requires Within(RideSpan(p, s), scope) && scope.start <= scope.end <= |after|
    ensures TrueMatch(after, q, RideSpan(p, s)) || Pending(p, after, q, scope, 0, RideSpan(p, s))
  {
    hide Shift, HitAt, RideSpan, WinLo, WinHi;
    RewritesWellFormed(p, before, after);
    HitEnds(before, q, s.start);
    var j := FirstReaching(p, s.start);
    if j < |p| && p[j].os <= s.end {
      MovedTouches(p, s, j);
      RideUpright(p, s);
      EditInText(p, before, after, j);
      WindowBounds(after, q, scope, p[j]);
      assert InWindow(after, q, scope, p[j], RideSpan(p, s));
    } else {
      MovedWithGap(p, s, j);
      GapHit(p, before, after, q, j, s.start);
    }
  }

  lemma {:induction false} EditInText(p: Patch, before: Text, after: Text, j: nat)
    requires Rewrites(p, before, after) && j < |p|
    ensures p[j].ns <= p[j].ne <= |after| && p[j].os <= p[j].oe <= |before|
  {
    hide Shift;
    GapOf(p, before, after, j + 1);
  }

  ghost predicate Crosses(p: Patch, q: Query, j: nat, x: nat)
    requires j < |p|
  {
    p[j].ns < x + |q.needle| && x < p[j].ne
  }

  /** A run that no edit's new text reaches into lies inside one new gap. */
  lemma {:induction false} InNewGap(p: Patch, after: Text, q: Query, x: nat, n: nat) returns (g: nat)
    requires WellFormed(p) && q.needle != [] && x + |q.needle| <= |after| && n <= |p|
    requires forall j | 0 <= j < |p| :: !Crosses(p, q, j, x)
    requires forall j | n <= j < |p| :: x + |q.needle| <= p[j].ns
    ensures g <= |p| && NewGapStart(p, g) <= x && x + |q.needle| <= NewGapEnd(p, |after|, g)
    decreases n
  {
    if n == 0 || p[n - 1].ne <= x {
      g := n;
    } else {
      assert !Crosses(p, q, n - 1, x);
      g := InNewGap(p, after, q, x, n - 1);
    }
  }

  /** A match wholly inside a gap, its ends included, still covers what it covered there. */
  lemma {:induction false} RideInGap(p: Patch, s: Span, g: nat)
    requires WellFormed(p) && g <= |p| && s.start < s.end
    requires g == 0 || GapStart(p, g) <= s.start
    requires g < |p| ==> s.end <= p[g].os
    ensures RideSpan(p, s).end == s.end + Shift(p, g) && RideSpan(p, s).start <= s.start + Shift(p, g)
  {
    hide Shift, MapOffset;
    var k := FirstReaching(p, s.start);
    EndInGap(p, s.end, g);
    if g > 0 && s.start == GapStart(p, g) {
      MapUpper(p, s.start, Right);
      ReachingGap(p, s.start, g);
      if k < g - 1 { NewAscend(p, k, g - 1); NewUpright(p, g - 1); }
      GapShift(p, g);
    } else {
      MapInGap(p, s.start, g, Right);
    }
  }

  lemma {:induction false} ReachingGap(p: Patch, x: nat, g: nat)
    requires WellFormed(p) && 0 < g <= |p| && x == GapStart(p, g)
    ensures FirstReaching(p, x) < g
  {
    assert p[g - 1].oe >= x;
  }

  /** Every occurrence in the new text overlaps a moved match or lies near an edit. */
  lemma {:induction false} MovedCoversOrNear(p: Patch, before: Text, after: Text, q: Query, was: Span, scope: Span,
                                             f: set<Span>, x: nat)
    requires q.needle != [] && Rewrites(p, before, after) && MaximalMatches(before, q, was, f)
             && HitWithin(after, q, scope, x)
    requires WellFormed(p) && ScopeRides(p, |before|, was, scope) && scope.end <= |after|
    ensures Covered(RideSet(p, f), q, x) || NearLater(p, after, q, scope, 0, x)
  {
    hide Shift, HitAt, RideSpan, WinLo, WinHi, Rewrites, Covered;
    RewritesWellFormed(p, before, after);
    HitEnds(after, q, x);
    if j: nat :| j < |p| && Crosses(p, q, j, x) {
      EditInText(p, before, after, j);
      WindowBounds(after, q, scope, p[j]);
      assert Near(after, q, scope, p[j], x);
    } else {
      var g := InNewGap(p, after, q, x, |p|);
      GapBounds(p, before, after, g);
      GapCovers(p, before, after, q, was, scope, f, x, g);
    }
  }

  lemma {:induction false} GapCovers(p: Patch, before: Text, after: Text, q: Query, was: Span, scope: Span,
                                     f: set<Span>, x: nat, g: nat)
    requires q.needle != [] && Rewrites(p, before, after) && MaximalMatches(before, q, was, f)
             && HitWithin(after, q, scope, x)
    requires WellFormed(p) && g <= |p| && ScopeRides(p, |before|, was, scope) && scope.end <= |after|
    requires GapStart(p, g) <= x - Shift(p, g) && x - Shift(p, g) + |q.needle| <= GapEnd(p, |before|, g)
    ensures Covered(RideSet(p, f), q, x) || NearLater(p, after, q, scope, 0, x)
  {
    hide Shift, HitAt, RideSpan, RideSet, WinLo, WinHi, Rewrites, WellFormed, Disjoint, NearLater;
    GapHit(p, before, after, q, g, x - Shift(p, g));
    GapBounds(p, before, after, g);
    ScopeHeld(p, before, was, scope, g, x - Shift(p, g), x - Shift(p, g) + |q.needle|);
    var m := CoveringMatch(before, q, was, f, x - Shift(p, g));
    if (g == 0 || GapStart(p, g) <= m.start) && (g < |p| ==> m.end <= p[g].os) {
      GapMatchCovers(p, q, f, m, x, g);
    } else {
      NearTheGap(p, before, after, q, scope, m, x, g);
    }
  }

  /** What lies in a gap, and in the ridden scope after it moved, lay in the scope. */
  lemma {:induction false} ScopeHeld(p: Patch, before: Text, was: Span, scope: Span, g: nat, a: nat, b: nat)
    requires WellFormed(p) && g <= |p| && GapStart(p, g) <= a < b <= GapEnd(p, |before|, g) && b <= |before|
    requires ScopeRides(p, |before|, was, scope) && scope.start <= a + Shift(p, g) && b + Shift(p, g) <= scope.end
    ensures was.start <= a && b <= was.end
  {
    hide Shift, Mapped, WellFormed;
    assert StartsInGap(p, g, a) && EndsInGap(p, g, b);
  }

  lemma {:induction false} CoveringMatch(t: Text, q: Query, scope: Span, f: set<Span>, x: nat) returns (m: Span)
    requires MaximalMatches(t, q, scope, f) && HitWithin(t, q, scope, x)
    ensures m in f && m == HitSpan(q, m.start) && Overlap(m, HitSpan(q, x)) && m.start < m.end
  {
    hide HitAt;
    assert Covered(f, q, x);
    m :| m in f && Overlap(m, HitSpan(q, x));
    assert TrueMatch(t, q, m);
  }

  lemma {:induction false} GapMatchCovers(p: Patch, q: Query, f: set<Span>, m: Span, x: nat, g: nat)
    requires q.needle != [] && WellFormed(p) && g <= |p| && m in f && m.start < m.end
    requires x - Shift(p, g) >= 0 && Overlap(m, HitSpan(q, x - Shift(p, g)))
    requires (g == 0 || GapStart(p, g) <= m.start) && (g < |p| ==> m.end <= p[g].os)
    ensures Covered(RideSet(p, f), q, x)
  {
    hide Shift, RideSpan, WellFormed;
    RideInGap(p, m, g);
    var r := RideSpan(p, m);
    assert r in RideSet(p, f) && Overlap(r, HitSpan(q, x));
  }

  lemma {:induction false} NearTheGap(p: Patch, before: Text, after: Text, q: Query, scope: Span, m: Span, x: nat,
                                      g: nat)
    requires q.needle != [] && Rewrites(p, before, after) && WellFormed(p) && g <= |p|
    requires scope.start <= x && x + |q.needle| <= scope.end <= |after|
    requires GapStart(p, g) <= x - Shift(p, g) && x - Shift(p, g) + |q.needle| <= GapEnd(p, |before|, g)
    requires m == HitSpan(q, m.start) && Overlap(m, HitSpan(q, x - Shift(p, g)))
    requires (g > 0 && m.start < GapStart(p, g)) || (g < |p| && p[g].os < m.end)
    ensures NearLater(p, after, q, scope, 0, x)
  {
    hide Shift, WinLo, WinHi, Rewrites;
    GapShift(p, g);
    if g > 0 && m.start < GapStart(p, g) {
      EditInText(p, before, after, g - 1);
      WindowBounds(after, q, scope, p[g - 1]);
      assert Near(after, q, scope, p[g - 1], x);
    } else {
      EditInText(p, before, after, g);
      WindowBounds(after, q, scope, p[g]);
      assert Near(after, q, scope, p[g], x);
    }
  }

  /** After the mover, before the first repair: what was a match is still one or lies near an edit. */
  lemma {:induction false} MovedIsSound(p: Patch, before: Text, after: Text, q: Query, was: Span, scope: Span,
                                        f: set<Span>)
    requires q.needle != [] && Rewrites(p, before, after) && WellFormed(p) && Disjoint(f)
    requires (forall s | s in f :: TrueMatch(before, q, s) && Within(s, was))
    requires ScopeRides(p, |before|, was, scope) && scope.start <= scope.end <= |after|
    ensures Sound(p, after, q, scope, 0, RideSet(p, f))
  {
    hide HitAt, RideSpan, Disjoint, Pending, Rewrites, ScopeRides;
    RideSetDisjoint(p, f);
    forall s | s in RideSet(p, f)
      ensures Within(s, scope) && (TrueMatch(after, q, s) || Pending(p, after, q, scope, 0, s))
    {
      var o :| o in f && s == RideSpan(p, o) && s.start < s.end;
      assert TrueMatch(before, q, o);
      HitEnds(before, q, o.start);
      RidesWithin(p, |before|, was, scope, o);
      MovedTrueOrPending(p, before, after, q, scope, o);
    }
  }

  /** And of a maximal set nothing is missing but near an edit. */
  lemma {:induction false} RepairStarts(p: Patch, before: Text, after: Text, q: Query, was: Span, scope: Span,
                                        f: set<Span>)
    requires q.needle != [] && Rewrites(p, before, after) && MaximalMatches(before, q, was, f) && WellFormed(p)
    requires ScopeRides(p, |before|, was, scope) && scope.start <= scope.end <= |after|
    ensures Repairing(p, after, q, scope, 0, RideSet(p, f), |after|)
  {
    hide HitAt, RideSpan, Disjoint, Pending, NearLater, Rewrites, Covered, ScopeRides;
    MovedIsSound(p, before, after, q, was, scope, f);
    forall x: nat | HitWithin(after, q, scope, x)
      ensures Covered(RideSet(p, f), q, x) || NearLater(p, after, q, scope, 0, x)
    {
      MovedCoversOrNear(p, before, after, q, was, scope, f, x);
    }
  }

  /** An edit whose window lies outside the scope has nothing to repair. */
  lemma {:induction false} RepairSkips(p: Patch, t: Text, q: Query, scope: Span, i: nat, f: set<Span>, top: nat)
    requires q.needle != [] && i < |p| && p[i].ns <= p[i].ne <= |t| && scope.start <= scope.end <= |t|
    requires Repairing(p, t, q, scope, i, f, top) && WinLo(t, q, scope, p[i]) > WinHi(t, q, scope, p[i])
    ensures Repairing(p, t, q, scope, i + 1, f, top)
  {
    hide HitAt, Disjoint, Covered, Pending, NearLater, WinLo, WinHi;
    WindowOutside(t, q, scope, p[i]);
    forall s | s in f ensures TrueMatch(t, q, s) || Pending(p, t, q, scope, i + 1, s) {
      assert Within(s, scope);
      PendingMovesOn(p, t, q, scope, i, s);
    }
    forall x: nat | HitWithin(t, q, scope, x) && x < top
      ensures Covered(f, q, x) || NearLater(p, t, q, scope, i + 1, x)
    {
      NearMovesOn(p, t, q, scope, i, x);
    }
  }

  lemma {:induction false} WindowOutside(t: Text, q: Query, scope: Span, e: Edit)
    requires q.needle != [] && e.ns <= e.ne <= |t| && scope.start <= scope.end <= |t|
    requires WinLo(t, q, scope, e) > WinHi(t, q, scope, e)
    ensures WinLo(t, q, scope, e) > scope.end || WinHi(t, q, scope, e) < scope.start
  {
    hide Boundary;
  }

  // ----- maximal sets and the fresh scan -----

  /** The fresh scan is maximal. */
  lemma {:induction false} FreshIsMaximal(t: Text, q: Query, scope: Span)
    requires q.needle != [] && scope.end <= |t|
    ensures MaximalMatches(t, q, scope, SpanSet(Greedy(t, q, scope.start, scope.end)))
  {
    hide HitAt, Greedy;
    var lo, hi := scope.start, scope.end;
    var f := SpanSet(Greedy(t, q, lo, hi));
    KeptApart(t, q, lo, hi, hi);
    forall s | s in f ensures TrueMatch(t, q, s) && Within(s, scope) && s in Kept(t, q, lo, hi, hi) {
      GreedyHit(t, q, lo, hi, s);
    }
    forall x: nat | HitWithin(t, q, scope, x) ensures Covered(f, q, x) {
      var m := GreedyCovers(t, q, lo, hi, x);
      GreedyHit(t, q, lo, hi, m);
      assert m in f && Overlap(m, HitSpan(q, x));
    }
  }

  /** The needle matches itself `d` bytes along. */
  predicate SelfOverlapsAt(q: Query, d: nat)
    requires d <= |q.needle|
  {
    forall j | 0 <= j < |q.needle| - d :: Same(q.needle[d + j], q.needle[j], q.caseSensitive)
  }

  /** A needle no two occurrences of which can overlap. */
  predicate NeverSelfOverlaps(q: Query) {
    forall d | 1 <= d < |q.needle| :: !SelfOverlapsAt(q, d)
  }

  lemma {:induction false} OverlappingHits(t: Text, q: Query, x: nat, y: nat)
    requires HitAt(t, q, x) && HitAt(t, q, y) && x < y < x + |q.needle|
    ensures SelfOverlapsAt(q, y - x)
  {
    var d := y - x;
    forall j | 0 <= j < |q.needle| - d ensures Same(q.needle[d + j], q.needle[j], q.caseSensitive) {
      assert Same(t[x + (d + j)], q.needle[d + j], q.caseSensitive);
      assert Same(t[y + j], q.needle[j], q.caseSensitive);
    }
  }

  lemma {:induction false} OneHitAPlace(t: Text, q: Query, x: nat, y: nat)
    requires NeverSelfOverlaps(q) && HitAt(t, q, x) && HitAt(t, q, y) && Overlap(HitSpan(q, x), HitSpan(q, y))
    ensures x == y
  {
    hide HitAt;
    if x < y { OverlappingHits(t, q, x, y); }
    if y < x { OverlappingHits(t, q, y, x); }
  }

  /** For a needle that cannot overlap itself, a maximal set is the set of all occurrences. */
  lemma {:induction false} MaximalIsAll(t: Text, q: Query, scope: Span, f: set<Span>, x: nat)
    requires NeverSelfOverlaps(q) && MaximalMatches(t, q, scope, f) && HitWithin(t, q, scope, x)
    ensures HitSpan(q, x) in f
  {
    hide HitAt, NeverSelfOverlaps;
    var m := CoveringMatch(t, q, scope, f, x);
    assert TrueMatch(t, q, m);
    OneHitAPlace(t, q, m.start, x);
  }

  /** For a needle that cannot overlap itself, a maximal set is the fresh scan. */
  lemma {:induction false} MaximalIsFresh(t: Text, q: Query, scope: Span, f: set<Span>)
    requires q.needle != [] && NeverSelfOverlaps(q) && MaximalMatches(t, q, scope, f) && scope.end <= |t|
    ensures f == SpanSet(Greedy(t, q, scope.start, scope.end))
  {
    hide HitAt, Greedy, NeverSelfOverlaps, Disjoint;
    var g := SpanSet(Greedy(t, q, scope.start, scope.end));
    FreshIsMaximal(t, q, scope);
    forall s | s in f ensures s in g {
      assert TrueMatch(t, q, s);
      MaximalIsAll(t, q, scope, g, s.start);
    }
    forall s | s in g ensures s in f {
      assert TrueMatch(t, q, s);
      MaximalIsAll(t, q, scope, f, s.start);
    }
  }

  /** The needle begun, and begun again `d` bytes along. */
  function Stutter(q: Query, d: nat): Text
    requires d <= |q.needle|
  {
    q.needle[..d] + q.needle
  }

  lemma {:induction false} StutterHits(q: Query, d: nat)
    requires 1 <= d < |q.needle| && SelfOverlapsAt(q, d)
    ensures HitAt(Stutter(q, d), q, 0) && HitAt(Stutter(q, d), q, d)
  {
    var n, t := q.needle, Stutter(q, d);
    forall j | 0 <= j < |n| ensures Same(t[j], n[j], q.caseSensitive) {
      if j >= d { assert Same(n[d + (j - d)], n[j - d], q.caseSensitive); }
    }
  }

  /** No disjoint choice of matches is longer than the greedy one. */
  lemma {:induction false} GreedyIsLongest(t: Text, q: Query, from: nat, to: nat, l: seq<Span>)
    requires q.needle != [] && to <= |t| && Apart(l) && forall m | m in l :: IsHitIn(t, q, from, to, m)
    ensures |l| <= |Greedy(t, q, from, to)|
    decreases SatSub(to, from)
  {
    hide HitAt;
    if l != [] {
      assert IsHitIn(t, q, from, to, l[0]);
      if HitAt(t, q, from) {
        forall m | m in l[1..] ensures IsHitIn(t, q, from + |q.needle|, to, m) {
          var j :| 0 <= j < |l[1..]| && l[1..][j] == m;
          assert l[j + 1] == m && m in l && l[0].end <= l[j + 1].start;
        }
        GreedyIsLongest(t, q, from + |q.needle|, to, l[1..]);
      } else {
        forall m | m in l ensures IsHitIn(t, q, from + 1, to, m) {
          assert IsHitIn(t, q, from, to, m);
        }
        GreedyIsLongest(t, q, from + 1, to, l);
      }
    }
  }

  /** A needle that overlaps itself need not be repaired to the fresh scan: with `aa`, an `a` typed
      before `aaaa` leaves the later match in its old phase. */
  lemma {:induction false} PhaseMayDiffer()
    ensures var q := Query([97, 97], true);
            var t: Text := [97, 97, 97, 97, 97];
            var f := {Span(1, 3), Span(3, 5)};
            && WinLo(t, q, Whole(t), Edit(0, 0, 0, 1)) == 0 && WinHi(t, q, Whole(t), Edit(0, 0, 0, 1)) == 2
            && Zone(f, 0, 2, 0, 3) && FromAnchor(WithoutTouching(f, 0, 2), q, Whole(t), 0, 0)
            && UpToGuard(WithoutTouching(f, 0, 2), q, Whole(t), 3, 4, 3)
            && WithoutTouching(f, 0, 2) + Kept(t, q, 0, 4, 3) != SpanSet(Greedy(t, q, 0, 5))
  {
    var q := Query([97, 97], true);
    var t: Text := [97, 97, 97, 97, 97];
    var f := {Span(1, 3), Span(3, 5)};
    assert Removed(f, 0, 2, Span(1, 3));
    assert WithoutTouching(f, 0, 2) == {Span(3, 5)};
    assert HitAt(t, q, 0) && HitAt(t, q, 2);
    assert Greedy(t, q, 4, 5) == [];
    assert Greedy(t, q, 2, 5) == [Span(2, 4)];
    assert Greedy(t, q, 0, 5) == [Span(0, 2), Span(2, 4)];
    assert Span(3, 5) in WithoutTouching(f, 0, 2) + Kept(t, q, 0, 4, 3);
  }
}
