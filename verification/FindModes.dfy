/**
 The search as a machine over texts: what it keeps, and what a fresh scan and a commit make of it.
 */
module FindModes {
  import opened Base
  import opened Patches
  import opened TextBounds
  import opened TextRows
  import opened FindScans
  import opened FindSets
  import opened FindScopes
  import opened FindRepair
  import opened FindLines
  import opened FindCaps
  import opened FindMends
  import opened FindMatches
  import opened FindResults
  import opened FindCommits

  /** The compiled query, the scope, how far a capped set covers, when it was last scanned, and the
      matches in order. */
  datatype Mode = Mode(matcher: Option<Matcher>, query: Option<Query>, scope: Option<Span>, capped: bool, stale: bool,
                       end: nat, last: nat, found: seq<Span>)
  {
    /** Where the matches are to be complete in a text of `n` bytes. */
    function Covers(n: nat): (r: Span)
      ensures r.start <= r.end <= n
    {
      Reach(scope, capped, end, n)
    }

    /** That stretch after a patch to a text of `n` bytes. */
    function Ridden(p: Patch, n: nat): (r: Span)
      requires WellFormed(p)
      ensures r.start <= r.end <= n
    {
      RideReach(p, scope, capped, end, n)
    }
  }

  /** What every reachable search keeps: nothing is listed but matches, in order, no more than the cap. */
  ghost predicate Held(m: Mode, t: Text) {
    && Configured(m.matcher, m.query) && Bounded(m.scope, m.capped, m.end, |t|)
      && (Idle(m.matcher, m.query) ==> !m.capped)
    && Listing(m.found) && |m.found| <= FIND_MATCH_CAP
    && Stored(m.matcher, m.query, t, m.Covers(|t|), SpanSet(m.found))
  }

  /** It lists every match of the stretch it covers. */
  ghost predicate IsComplete(m: Mode, t: Text) {
    Complete(m.matcher, m.query, t, m.Covers(|t|), SpanSet(m.found))
  }

  // ----- a fresh scan -----

  /** A fresh scan of the scope: its first matches up to the cap, and a flag that says whether there are
      more. */
  ghost function Anew(matcher: Option<Matcher>, query: Option<Query>, scope: Option<Span>, t: Text, at: nat): Mode {
    var all := FreshScan(matcher, query, t, Reach(scope, false, 0, |t|));
    var over := |all| > FIND_MATCH_CAP;
    Mode(matcher, query, scope, over, false, if over then LastEnd(FirstMatches(all)) else |t|, at, FirstMatches(all))
  }

  /** A fresh scan is complete as far as it says it is. */
  lemma {:induction false} AnewCompletes(matcher: Option<Matcher>, query: Option<Query>, scope: Option<Span>, t: Text,
                                         at: nat)
    requires Configured(matcher, query) && (scope.Some? ==> scope.value.start < scope.value.end)
    ensures var m := Anew(matcher, query, scope, t, at); Held(m, t) && IsComplete(m, t)
  {
    hide FreshScan, Complete, Configured, Stored, Apart, LastEnd, SpanSet, Idle;
    var m, within := Anew(matcher, query, scope, t, at), Reach(scope, false, 0, |t|);
    var all := FreshScan(matcher, query, t, within);
    FreshFacts(matcher, query, t, within);
    FirstListing(all);
    FirstIsFew(all);
    IdleScan(matcher, query, t, within);
    if |all| > FIND_MATCH_CAP {
      CapPositive();
      PrefixIsComplete(matcher, query, t, within, FIND_MATCH_CAP);
      LastInside(within, FirstMatches(all));
      TrimmedReach(scope, false, 0, |t|, m.end);
    } else {
      WholeCover(scope, |t|);
    }
    CompleteIsStored(matcher, query, t, m.Covers(|t|), SpanSet(m.found));
  }

  lemma {:induction false} IdleScan(matcher: Option<Matcher>, query: Option<Query>, t: Text, scope: Span)
    requires scope.end <= |t|
    ensures Idle(matcher, query) ==> FreshScan(matcher, query, t, scope) == []
  {}

  lemma {:induction false} WholeCover(scope: Option<Span>, n: nat)
    ensures Reach(scope, false, 0, n) == Reach(scope, false, n, n)
  {}

  /** A list in a stretch ends in it. */
  lemma {:induction false} LastInside(now: Span, l: seq<Span>)
    requires l != [] && forall s | s in l :: s.start < s.end && Within(s, now)
    ensures now.start < LastEnd(l) <= now.end
  {
    assert l[|l| - 1] in l;
  }

  /** Trimmed to end at `e`, a set covers the stretch up to there. */
  lemma {:induction false} TrimmedReach(scope: Option<Span>, capped: bool, end: nat, n: nat, e: nat)
    requires Reach(scope, capped, end, n).start < e <= Reach(scope, capped, end, n).end
    requires Bounded(scope, capped, end, n)
    ensures Reach(scope, true, e, n) == Span(Reach(scope, capped, end, n).start, e) && Bounded(scope, true, e, n)
  {}

  // ----- a commit -----

  /** The matches after the mover and every edit's repair, before the cap is settled. */
  ghost function Restored(m: Mode, p: Patch, t: Text): set<Span>
    requires WellFormed(p) && EditsIn(p, |t|) && !Idle(m.matcher, m.query)
  {
    MendAll(m.matcher.value, m.query.value, p, t, m.Ridden(p, |t|), |p|, RideSet(p, SpanSet(m.found)))
  }

  /** The repair would slice the text inside a character. */
  ghost predicate Breaks(m: Mode, p: Patch, t: Text)
    requires WellFormed(p) && EditsIn(p, |t|)
  {
    p != [] && !Idle(m.matcher, m.query)
    && !SlicesAll(m.matcher.value, m.query.value, p, t, m.Ridden(p, |t|), |p|, RideSet(p, SpanSet(m.found)))
  }

  /** Scope and cover ride; past the cap the list is cut, the cover ends with it and the flag comes up;
      below it a capped set notes that it has room. */
  ghost function Settled(m: Mode, p: Patch, n: nat, all: seq<Span>): Mode
    requires WellFormed(p)
  {
    var scope := RideScope(p, m.scope);
    if |all| > FIND_MATCH_CAP then
      Mode(m.matcher, m.query, scope, true, false, LastEnd(FirstMatches(all)), m.last, FirstMatches(all))
    else
      Mode(m.matcher, m.query, scope, m.capped, if m.capped then |all| < FIND_MATCH_CAP else m.stale,
           RideCover(p, m.capped, m.end, n), m.last, all)
  }

  /** A commit. */
  ghost function Rode(m: Mode, p: Patch, t: Text): Mode
    requires WellFormed(p) && EditsIn(p, |t|)
  {
    if p == [] || Idle(m.matcher, m.query) then m else Settled(m, p, |t|, Listed(Restored(m, p, t)))
  }

  /** The scope a commit leaves takes in exactly what was typed in it. */
  lemma {:induction false} CommitTakesTyped(m: Mode, p: Patch, t: Text)
    requires WellFormed(p) && EditsIn(p, |t|) && !Idle(m.matcher, m.query)
    ensures TakesTyped(p, m.scope, Rode(m, p, t).scope)
  {
    hide WellFormed, EditsIn, Idle, Restored, Listed, RideScope, TakesText;
    ScopeTakesTyped(p, m.scope);
  }

  /** An empty patch moves nothing. */
  lemma {:induction false} EmptyPatch(before: Text, t: Text, f: set<Span>)
    requires Rewrites([], before, t) && Disjoint(f)
    ensures before == t && WellFormed([]) && RideSet([], f) == f
  {
    GapOf([], before, t, 0);
    assert before[0..|before|] == before && t[0..|t|] == t;
    forall s | s in f ensures RideSpan([], s) == s {}
    forall s ensures s in RideSet([], f) <==> s in f {}
  }

  lemma {:induction false} RideNothing(p: Patch)
    requires WellFormed(p)
    ensures RideSet(p, {}) == {}
  {
    hide RideSpan;
  }

  lemma {:induction false} HeldParts(m: Mode, t: Text)
    requires Held(m, t)
    ensures Configured(m.matcher, m.query) && Bounded(m.scope, m.capped, m.end, |t|)
    ensures Idle(m.matcher, m.query) ==> !m.capped && m.found == []
    ensures Listing(m.found) && |m.found| <= FIND_MATCH_CAP && Disjoint(SpanSet(m.found))
    ensures Stored(m.matcher, m.query, t, m.Covers(|t|), SpanSet(m.found))
    ensures forall s | s in SpanSet(m.found) :: Within(s, m.Covers(|t|))
  {
    hide Configured, FIND_MATCH_CAP, IsMatch;
    ListedIs(m.found);
    StoredInScope(m.matcher, m.query, t, m.Covers(|t|), SpanSet(m.found));
    if m.found != [] { SomeSpan(m.found); }
  }

  /** The stretch rides, or the mover takes every match. */
  lemma {:induction false} StretchRides(m: Mode, p: Patch, before: Text, t: Text)
    requires Held(m, before) && Rewrites(p, before, t) && WellFormed(p)
    ensures !Collapses(p, m.scope) ==> ScopeRides(p, |before|, m.Covers(|before|), m.Ridden(p, |t|))
    ensures Collapses(p, m.scope) ==> RideSet(p, SpanSet(m.found)) == {}
    ensures Bounded(RideScope(p, m.scope), m.capped, RideCover(p, m.capped, m.end, |t|), |t|)
  {
    hide Held, Rewrites, WellFormed, Collapses, Bounded, ScopeRides, RideSet, RideScope, RideCover, Stored, Disjoint;
    HeldParts(m, before);
    RidesBounded(p, before, t, m.scope, m.capped, m.end);
    if Collapses(p, m.scope) {
      SolidList(m.found);
      CollapseTakesAll(p, m.scope, m.capped, m.end, |before|, SpanSet(m.found));
    } else {
      ReachRides(p, before, t, m.scope, m.capped, m.end);
    }
  }

  lemma {:induction false} SolidList(l: seq<Span>)
    requires Listing(l)
    ensures forall s | s in SpanSet(l) :: s.start < s.end
  {
    hide Apart;
  }

  /** A commit leaves nothing listed but matches of the ridden stretch. */
  lemma {:induction false} RestoredIsStored(m: Mode, p: Patch, before: Text, t: Text)
    requires Held(m, before) && Rewrites(p, before, t) && WellFormed(p) && EditsIn(p, |t|) && !Idle(m.matcher, m.query)
    ensures Disjoint(Restored(m, p, t)) && Listing(Listed(Restored(m, p, t)))
    ensures forall s | s in Restored(m, p, t) :: IsMatch(m.matcher.value, m.query.value, t, m.Ridden(p, |t|), s)
  {
    hide Held, Rewrites, WellFormed, Collapses, Bounded, ScopeRides, RideSet, Configured, Disjoint, Stored, MendAll,
         IsMatch, Reach, EditsIn, Apart, SpanSet;
    HeldParts(m, before);
    Compiled(m.matcher, m.query);
    StretchRides(m, p, before, t);
    StoredMends(m.matcher, m.query, p, before, t, m.Covers(|before|), m.Ridden(p, |t|), SpanSet(m.found));
    ListedApart(Restored(m, p, t));
  }

  /** What a commit leaves is held, and covers the ridden stretch, or what the cut left of it. */
  lemma {:induction false} SettledHolds(m: Mode, p: Patch, n: nat, t: Text, all: seq<Span>)
    requires Configured(m.matcher, m.query) && !Idle(m.matcher, m.query) && WellFormed(p) && n == |t|
    requires Bounded(RideScope(p, m.scope), m.capped, RideCover(p, m.capped, m.end, n), n) && Listing(all)
    requires forall s | s in all :: IsMatch(m.matcher.value, m.query.value, t, m.Ridden(p, n), s)
    ensures Held(Settled(m, p, n, all), t)
    ensures Settled(m, p, n, all).Covers(n)
            == if |all| > FIND_MATCH_CAP then Span(m.Ridden(p, n).start, LastEnd(FirstMatches(all))) else m.Ridden(p, n)
    ensures Settled(m, p, n, all).found == FirstMatches(all)
  {
    hide Configured, RideScope, RideCover, Apart, LastEnd, Mapped, TrueMatch, LineMatch;
    var now, l := m.Ridden(p, n), FirstMatches(all);
    FirstListing(all);
    FirstAreIn(all);
    if |all| > FIND_MATCH_CAP {
      CapPositive();
      LastInside(now, l);
      TrimmedReach(RideScope(p, m.scope), m.capped, RideCover(p, m.capped, m.end, n), n, LastEnd(l));
      EndsByLast(l);
    } else {
      CoversRidden(m, p, n);
    }
  }

  lemma {:induction false} EndsByLast(l: seq<Span>)
    requires Listing(l) && l != []
    ensures forall s | s in l :: s.end <= LastEnd(l)
  {
    forall s | s in l ensures s.end <= LastEnd(l) {
      var i :| 0 <= i < |l| && l[i] == s;
      if i < |l| - 1 { assert l[i].end <= l[|l| - 1].start && l[|l| - 1] in l; }
    }
  }

  lemma {:induction false} CoversRidden(m: Mode, p: Patch, n: nat)
    requires WellFormed(p)
    ensures Reach(RideScope(p, m.scope), m.capped, RideCover(p, m.capped, m.end, n), n) == m.Ridden(p, n)
  {}

  /** Every commit leaves what every search keeps. */
  lemma {:induction false} RodeHolds(m: Mode, p: Patch, before: Text, t: Text)
    requires Held(m, before) && Rewrites(p, before, t) && WellFormed(p) && EditsIn(p, |t|)
    ensures Held(Rode(m, p, t), t)
  {
    hide Held, Rewrites, WellFormed, EditsIn, Restored, Settled, Idle;
    if p == [] {
      EmptyPatch(before, t, {});
    } else if Idle(m.matcher, m.query) {
      IdleHolds(m, before, t);
    } else {
      RodeSettles(m, p, before, t);
    }
  }

  lemma {:induction false} IdleHolds(m: Mode, before: Text, t: Text)
    requires Held(m, before) && Idle(m.matcher, m.query)
    ensures Held(m, t)
  {
    hide Configured, Apart, FIND_MATCH_CAP;
  }

  lemma {:induction false} RodeSettles(m: Mode, p: Patch, before: Text, t: Text)
    requires Held(m, before) && Rewrites(p, before, t) && WellFormed(p) && EditsIn(p, |t|)
    requires p != [] && !Idle(m.matcher, m.query)
    ensures var all := Listed(Restored(m, p, t));
            && Rode(m, p, t) == Settled(m, p, |t|, all) && Held(Rode(m, p, t), t)
            && Rode(m, p, t).Covers(|t|)
               == (if |all| > FIND_MATCH_CAP then Span(m.Ridden(p, |t|).start, LastEnd(FirstMatches(all)))
                   else m.Ridden(p, |t|))
            && Rode(m, p, t).found == FirstMatches(all) && Listing(all) && SpanSet(all) == Restored(m, p, t)
  {
    hide Held, Rewrites, WellFormed, EditsIn, Restored, Settled, Idle, Bounded, RideScope, RideCover, IsMatch,
         FirstMatches, FIND_MATCH_CAP, LastEnd, Apart, Disjoint, Reach, Configured, Stored;
    HeldParts(m, before);
    StretchRides(m, p, before, t);
    RestoredIsStored(m, p, before, t);
    ListedApart(Restored(m, p, t));
    SettledHolds(m, p, |t|, t, Listed(Restored(m, p, t)));
  }

  // ----- where a commit slices inside a character -----

  /** Exactly when a commit slices the text inside a character: the search is a literal one, and the repair
      of some edit begins or stops its scan on an edge of the ridden stretch that lies inside one. */
  lemma {:induction false} BreaksWhen(m: Mode, p: Patch, before: Text, t: Text)
    requires Held(m, before) && Rewrites(p, before, t) && WellFormed(p) && EditsIn(p, |t|) && WholeChars(t)
    requires p != [] && !Idle(m.matcher, m.query)
    ensures var now, rides := m.Ridden(p, |t|), RideSet(p, SpanSet(m.found));
            && (Breaks(m, p, t)
                <==> m.matcher.value.Literal? && exists i | 0 <= i < |p| ::
                       CutsAChar(p, t, m.query.value, now, i, MendAll(Literal, m.query.value, p, t, now, i, rides)))
            && (Boundary(t, now.start) && Boundary(t, now.end) ==> !Breaks(m, p, t))
  {
    hide Held, Rewrites, WellFormed, EditsIn, MendAll, RideSet, Configured, Disjoint, Stored, Collapses, Bounded,
         ScopeRides, Reach, RideReach, Boundary, CutsAChar, SlicesAll, WholeChars;
    HeldParts(m, before);
    Compiled(m.matcher, m.query);
    StretchRides(m, p, before, t);
    if m.matcher.value.Literal? {
      StoredLiteral(m, before);
      CommitBreaksWhen(p, before, t, m.query.value, m.Covers(|before|), m.Ridden(p, |t|), SpanSet(m.found));
    } else {
      LinesSlice(m.matcher.value, m.query.value, p, t, m.Ridden(p, |t|), RideSet(p, SpanSet(m.found)));
    }
  }

  lemma {:induction false} StoredLiteral(m: Mode, t: Text)
    requires Stored(m.matcher, m.query, t, m.Covers(|t|), SpanSet(m.found)) && !Idle(m.matcher, m.query)
    requires m.matcher.value.Literal?
    ensures forall s | s in SpanSet(m.found) :: TrueMatch(t, m.query.value, s) && Within(s, m.Covers(|t|))
  {
    hide HitAt, Reach;
  }

  lemma {:induction false} LinesSlice(matcher: Matcher, q: Query, p: Patch, t: Text, scope: Span, f: set<Span>)
    requires matcher.Lines? && scope.end <= |t| && EditsIn(p, |t|)
    ensures SlicesAll(matcher, q, p, t, scope, |p|, f)
  {
    hide MendAll;
  }

  // ----- what a commit makes of a complete set -----

  /** A commit of a complete set, its scope not taken away, repairs it as far as the cap lets it. */
  lemma {:induction false} CommitRepairs(m: Mode, p: Patch, before: Text, t: Text) returns (top: nat)
    requires Held(m, before) && IsComplete(m, before) && Rewrites(p, before, t) && WellFormed(p) && EditsIn(p, |t|)
    requires !Idle(m.matcher, m.query) && !Collapses(p, m.scope)
    ensures CompleteBelow(m.matcher.value, m.query.value, t, m.Ridden(p, |t|), Restored(m, p, t), top)
            && Promised(t, top)
    ensures |p| == 1 ==>
              Works(m.matcher.value, m.query.value)
              && SparedDecide(Spared(m.matcher.value, m.query.value, p, before, t, m.Ridden(p, |t|),
                                     RideSet(p, SpanSet(m.found))),
                              Restored(m, p, t), top < |t| && OnePhase(m.matcher, m.query))
  {
    hide Held, Rewrites, WellFormed, EditsIn, MendAll, Complete, Configured, Collapses, Bounded, Stored, Disjoint,
         ScopeRides, CompleteBelow, Promised, SparedDecide, Spared, RideSet, OnePhase, Reach, RideReach;
    HeldParts(m, before);
    Compiled(m.matcher, m.query);
    StretchRides(m, p, before, t);
    top := CompleteMends(m.matcher, m.query, p, before, t, m.Covers(|before|), m.Ridden(p, |t|), SpanSet(m.found));
  }

  /** The moved matches that the window of a single edit spares. */
  ghost function SparedBy(m: Mode, p: Patch, before: Text, t: Text): set<Span>
    requires |p| == 1 && Rewrites(p, before, t) && !Idle(m.matcher, m.query)
  {
    Spared(m.matcher.value, m.query.value, p, before, t, m.Ridden(p, |t|), RideSet(p, SpanSet(m.found)))
  }

  /** With matches that never overlap a commit lists the fresh scan's first matches of the ridden stretch,
      whatever was repaired.  It outgrows the cap only if a fresh scan does; after a single edit exactly
      when a fresh scan does and the edit's window spared a match. */
  lemma {:induction false} CommitFollows(m: Mode, p: Patch, before: Text, t: Text)
    requires Held(m, before) && IsComplete(m, before) && Rewrites(p, before, t) && WellFormed(p) && EditsIn(p, |t|)
    requires p != [] && !Idle(m.matcher, m.query) && !Collapses(p, m.scope)
    ensures OnePhase(m.matcher, m.query) ==>
              Rode(m, p, t).found == FirstMatches(FreshScan(m.matcher, m.query, t, m.Ridden(p, |t|)))
    ensures |Restored(m, p, t)| > FIND_MATCH_CAP ==> !WithinCap(m.matcher, m.query, t, m.Ridden(p, |t|))
    ensures |p| == 1 && SparedBy(m, p, before, t) == {} ==> |Restored(m, p, t)| <= FIND_MATCH_CAP
    ensures |p| == 1 && OnePhase(m.matcher, m.query) ==>
              (|Restored(m, p, t)| > FIND_MATCH_CAP
               <==> !WithinCap(m.matcher, m.query, t, m.Ridden(p, |t|)) && SparedBy(m, p, before, t) != {})
  {
    hide Held, Rewrites, WellFormed, EditsIn, Restored, Settled, Configured, Complete, Collapses, CompleteBelow, Idle,
         Promised, SparedDecide, Spared, RideSet, OnePhase, FreshScan, FirstMatches, FIND_MATCH_CAP, Mode.Ridden, Rode,
         BeginsAs, Apart, SpanSet;
    var top := CommitRepairs(m, p, before, t);
    HeldParts(m, before);
    RodeSettles(m, p, before, t);
    var all := Listed(Restored(m, p, t));
    CompleteUpToCap(m.matcher, m.query, t, m.Ridden(p, |t|), all, top);
    if |p| == 1 { OutgrowsWhen(m.matcher, m.query, t, m.Ridden(p, |t|), all, top, SparedBy(m, p, before, t)); }
    if OnePhase(m.matcher, m.query) { CutIsFirst(all, FreshScan(m.matcher, m.query, t, m.Ridden(p, |t|))); }
  }

  /** A complete set stays complete over what it then covers if a fresh scan of the ridden stretch fits the
      cap; with matches that never overlap, exactly when that holds or the set was cut. */
  lemma {:induction false} CommitCompletes(m: Mode, p: Patch, before: Text, t: Text)
    requires Held(m, before) && IsComplete(m, before) && Rewrites(p, before, t) && WellFormed(p) && EditsIn(p, |t|)
    requires p != [] && !Idle(m.matcher, m.query) && !Collapses(p, m.scope)
    ensures WithinCap(m.matcher, m.query, t, m.Ridden(p, |t|)) ==> IsComplete(Rode(m, p, t), t)
    ensures OnePhase(m.matcher, m.query) ==>
              (IsComplete(Rode(m, p, t), t)
               <==> WithinCap(m.matcher, m.query, t, m.Ridden(p, |t|)) || |Restored(m, p, t)| > FIND_MATCH_CAP)
  {
    hide Held, Rewrites, WellFormed, EditsIn, Restored, Configured, Complete, Collapses, CompleteBelow, Idle, Promised,
         OnePhase, FreshScan, FIND_MATCH_CAP, Mode.Ridden, Mode.Covers, Rode, LastEnd, Apart, Settled, BeginsAs;
    var top := CommitRepairs(m, p, before, t);
    var now, all := m.Ridden(p, |t|), Listed(Restored(m, p, t));
    HeldParts(m, before);
    RodeSettles(m, p, before, t);
    RodeKeepsQuery(m, p, t);
    CompleteUpToCap(m.matcher, m.query, t, now, all, top);
    if OnePhase(m.matcher, m.query) {
      CutIsFirst(all, FreshScan(m.matcher, m.query, t, now));
      if |all| > FIND_MATCH_CAP {
        CapPositive();
        PrefixIsComplete(m.matcher, m.query, t, now, FIND_MATCH_CAP);
      } else if IsComplete(Rode(m, p, t), t) {
        CompleteIsFresh(m.matcher, m.query, t, now, all);
      }
    }
  }

  lemma {:induction false} RodeKeepsQuery(m: Mode, p: Patch, t: Text)
    requires WellFormed(p) && EditsIn(p, |t|)
    ensures Rode(m, p, t).matcher == m.matcher && Rode(m, p, t).query == m.query && Rode(m, p, t).last == m.last
  {
    hide Restored, RideScope, RideCover, Listed;
  }

  /** How the flag comes out: raised exactly when the list was cut, and otherwise as it was. */
  lemma {:induction false} CommitFlags(m: Mode, p: Patch, t: Text)
    requires WellFormed(p) && EditsIn(p, |t|) && p != [] && !Idle(m.matcher, m.query)
    ensures Rode(m, p, t).capped <==> m.capped || |Restored(m, p, t)| > FIND_MATCH_CAP
    ensures Rode(m, p, t).capped && Rode(m, p, t).stale ==> |Rode(m, p, t).found| < FIND_MATCH_CAP
  {
    hide Restored, RideScope, RideCover;
    var all := Listed(Restored(m, p, t));
  }

  /** Matches are missing and nothing is flagged exactly when nothing was flagged before, the new text does
      not fit the cap, and the repaired set does; after a single edit, exactly when its window spared no
      match. */
  lemma {:induction false} SilentWhen(m: Mode, p: Patch, before: Text, t: Text)
    requires Held(m, before) && IsComplete(m, before) && Rewrites(p, before, t) && WellFormed(p) && EditsIn(p, |t|)
    requires p != [] && !Idle(m.matcher, m.query) && !Collapses(p, m.scope) && OnePhase(m.matcher, m.query)
    ensures !Rode(m, p, t).capped && !IsComplete(Rode(m, p, t), t)
            <==> !m.capped && !WithinCap(m.matcher, m.query, t, m.Ridden(p, |t|))
                 && |Restored(m, p, t)| <= FIND_MATCH_CAP
    ensures |p| == 1 ==>
              (!Rode(m, p, t).capped && !IsComplete(Rode(m, p, t), t)
               <==> !m.capped && !WithinCap(m.matcher, m.query, t, m.Ridden(p, |t|)) && SparedBy(m, p, before, t) == {})
  {
    hide Held, IsComplete, Rewrites, WellFormed, EditsIn, Restored, Collapses, Idle, OnePhase, FreshScan,
         FIND_MATCH_CAP, Mode.Ridden, Rode, SparedBy;
    CommitFollows(m, p, before, t);
    CommitCompletes(m, p, before, t);
    CommitFlags(m, p, t);
  }

  // ----- a scope taken away -----

  /** A single edit that takes the scope away lies in the stretch the search is then of. */
  lemma {:induction false} CollapseMeets(m: Mode, p: Patch, before: Text, t: Text)
    requires |p| == 1 && Rewrites(p, before, t) && WellFormed(p) && Bounded(m.scope, m.capped, m.end, |before|)
    requires Collapses(p, m.scope)
    ensures m.Ridden(p, |t|).start == 0 && p[0].ns <= m.Ridden(p, |t|).end
  {
    hide Mapped, Rewrites;
    EditInText(p, before, t, 0);
    var e := p[0];
    assert p == [e];
    MapSingle(e, m.scope.value.start, Left);
    MapSingle(e, m.scope.value.end, Right);
    if m.capped { MapSingle(e, m.end, Left); }
  }

  lemma {:induction false} WindowMeets(matcher: Matcher, q: Query, t: Text, scope: Span, e: Edit)
    requires Works(matcher, q) && e.ns <= e.ne <= |t| && scope.start == 0 && e.ns <= scope.end <= |t|
    ensures RepairWindow(matcher, q, t, scope, e).start <= RepairWindow(matcher, q, t, scope, e).end
  {
    hide LineLo, LineHi, Boundary;
  }

  /** After an edit took the scope away, the search is of the whole text again but lists only what the
      edit's stretch holds.  Its set is complete exactly when that holds every match there is, and no more
      than the cap. */
  lemma {:induction false} CollapseCompletes(m: Mode, p: Patch, before: Text, t: Text)
    requires Held(m, before) && |p| == 1 && Rewrites(p, before, t) && WellFormed(p) && EditsIn(p, |t|)
    requires !Idle(m.matcher, m.query) && Collapses(p, m.scope)
    ensures Rode(m, p, t).scope == None && Rode(m, p, t).Covers(|t|) == m.Ridden(p, |t|)
    ensures Works(m.matcher.value, m.query.value)
    ensures var now, z := m.Ridden(p, |t|), Rescanned(m.matcher.value, m.query.value, t, m.Ridden(p, |t|), p[0]);
            && Within(z, now) && z.end <= |t|
            && Rode(m, p, t).found == FirstMatches(FreshScan(m.matcher, m.query, t, z))
            && (OnePhase(m.matcher, m.query) ==>
                  (IsComplete(Rode(m, p, t), t)
                   <==> WithinCap(m.matcher, m.query, t, z)
                        && forall s | s in FreshScan(m.matcher, m.query, t, now) :: Within(s, z)))
  {
    hide Held, Rewrites, WellFormed, EditsIn, Configured, Complete, OnePhase, FreshScan, FIND_MATCH_CAP, Idle,
         Mode.Ridden, Rode, Apart, RepairWindow, Rescanned, RideSet, MendAll, Stored, Bounded, RideScope, RideCover,
         SpanSet;
    var now := m.Ridden(p, |t|);
    HeldParts(m, before);
    Compiled(m.matcher, m.query);
    EditInText(p, before, t, 0);
    StretchRides(m, p, before, t);
    CollapseMeets(m, p, before, t);
    WindowMeets(m.matcher.value, m.query.value, t, now, p[0]);
    EmptyMends(m.matcher, m.query, p, t, now);
    RodeSettles(m, p, before, t);
    RodeKeepsQuery(m, p, t);
    ScannedList(m, p, t, now);
    var z := Rescanned(m.matcher.value, m.query.value, t, now, p[0]);
    if OnePhase(m.matcher, m.query) { StretchCompletes(m.matcher, m.query, t, now, z, Rode(m, p, t).found); }
  }

  lemma {:induction false} ScannedList(m: Mode, p: Patch, t: Text, now: Span)
    requires Configured(m.matcher, m.query) && !Idle(m.matcher, m.query) && Works(m.matcher.value, m.query.value)
    requires |p| == 1 && WellFormed(p) && EditsIn(p, |t|) && now == m.Ridden(p, |t|)
             && RideSet(p, SpanSet(m.found)) == {}
    requires var z := Rescanned(m.matcher.value, m.query.value, t, now, p[0]);
             && z.end <= |t|
             && MendAll(m.matcher.value, m.query.value, p, t, now, 1, {})
                == SpanSet(FirstMatches(FreshScan(m.matcher, m.query, t, z)))
    ensures var z := Rescanned(m.matcher.value, m.query.value, t, now, p[0]);
            && Listed(Restored(m, p, t)) == FirstMatches(FreshScan(m.matcher, m.query, t, z))
            && FirstMatches(Listed(Restored(m, p, t))) == FirstMatches(FreshScan(m.matcher, m.query, t, z))
            && |Listed(Restored(m, p, t))| <= FIND_MATCH_CAP
  {
    hide WellFormed, Configured, Complete, FreshScan, Mode.Ridden, Apart, Rescanned, RideSet, MendAll, SpanSet;
    var z := Rescanned(m.matcher.value, m.query.value, t, now, p[0]);
    assert m.matcher == Some(m.matcher.value) && m.query == Some(m.query.value);
    FreshFacts(m.matcher, m.query, t, z);
    FirstListing(FreshScan(m.matcher, m.query, t, z));
    ListedIs(FirstMatches(FreshScan(m.matcher, m.query, t, z)));
  }
}
