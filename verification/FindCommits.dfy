/**
 A whole commit's repair: every edit of the patch mended in order.
 */
module FindCommits {
  import opened Base
  import opened Patches
  import opened TextBounds
  import opened TextRows
  import opened FindScans
  import opened FindSets
  import opened FindScopes
  import opened FindRepair
  import opened FindLines
  import opened FindLineRepair
  import opened FindCaps
  import opened FindMends
  import opened FindResults

  /** Every edit's new text lies in a text of `n` bytes. */
  ghost predicate EditsIn(p: Patch, n: nat) { forall j | 0 <= j < |p| :: p[j].ns <= p[j].ne <= n }

  lemma {:induction false} EditsInText(p: Patch, before: Text, t: Text)
    requires Rewrites(p, before, t)
    ensures EditsIn(p, |t|)
  {
    hide Rewrites;
    forall j | 0 <= j < |p| ensures p[j].ns <= p[j].ne <= |t| { EditInText(p, before, t, j); }
  }

  /** There is something to look for. */
  predicate Works(matcher: Matcher, q: Query) { matcher.Literal? ==> q.needle != [] }

  /** The set after the repair of one edit. */
  ghost function MendedBy(matcher: Matcher, q: Query, t: Text, scope: Span, e: Edit, f: set<Span>): set<Span>
    requires Works(matcher, q) && scope.end <= |t| && e.ns <= e.ne <= |t|
  {
    match matcher
    case Literal => Mended(t, q, scope, e, f)
    case Lines(m) => LinesMended(t, m, scope, e, f)
  }

  /** The set after the repairs of the first `i` edits. */
  ghost function MendAll(matcher: Matcher, q: Query, p: Patch, t: Text, scope: Span, i: nat, f: set<Span>): set<Span>
    requires Works(matcher, q) && scope.end <= |t| && EditsIn(p, |t|) && i <= |p|
  {
    if i == 0 then f else MendedBy(matcher, q, t, scope, p[i - 1], MendAll(matcher, q, p, t, scope, i - 1, f))
  }

  /** The repair of one edit slices the text on characters; a line-scoped one slices nothing. */
  ghost predicate Slices(matcher: Matcher, q: Query, t: Text, scope: Span, e: Edit, f: set<Span>)
    requires Works(matcher, q)
  {
    matcher.Literal? ==> SlicesWell(t, q, scope, e, f)
  }

  /** So do the repairs of the first `i` edits. */
  ghost predicate SlicesAll(matcher: Matcher, q: Query, p: Patch, t: Text, scope: Span, i: nat, f: set<Span>)
    requires Works(matcher, q) && scope.end <= |t| && EditsIn(p, |t|) && i <= |p|
  {
    forall j | 0 <= j < i :: Slices(matcher, q, t, scope, p[j], MendAll(matcher, q, p, t, scope, j, f))
  }

  lemma {:induction false} MendNext(matcher: Matcher, q: Query, p: Patch, t: Text, scope: Span, i: nat, f: set<Span>)
    requires Works(matcher, q) && scope.end <= |t| && EditsIn(p, |t|) && i < |p|
    ensures MendAll(matcher, q, p, t, scope, i + 1, f)
            == MendedBy(matcher, q, t, scope, p[i], MendAll(matcher, q, p, t, scope, i, f))
    ensures SlicesAll(matcher, q, p, t, scope, i + 1, f)
            <==> SlicesAll(matcher, q, p, t, scope, i, f)
                 && Slices(matcher, q, t, scope, p[i], MendAll(matcher, q, p, t, scope, i, f))
  {
    hide MendedBy, Slices;
  }

  lemma {:induction false} MendsOnce(matcher: Matcher, q: Query, p: Patch, t: Text, scope: Span, f: set<Span>)
    requires Works(matcher, q) && scope.end <= |t| && EditsIn(p, |t|) && |p| == 1
    ensures MendAll(matcher, q, p, t, scope, 1, f) == MendedBy(matcher, q, t, scope, p[0], f)
  {
    hide MendedBy;
    MendNext(matcher, q, p, t, scope, 0, f);
  }

  /** Disjoint spans of the scope stay that. */
  lemma {:induction false} MendFits(matcher: Matcher, q: Query, t: Text, scope: Span, e: Edit, f: set<Span>)
    requires Works(matcher, q) && (matcher.Lines? ==> IsMatcher(matcher.engine))
    requires scope.start <= scope.end <= |t| && e.ns <= e.ne <= |t|
    requires Disjoint(f) && forall s | s in f :: Within(s, scope)
    ensures var now := MendedBy(matcher, q, t, scope, e, f); Disjoint(now) && forall s | s in now :: Within(s, scope)
  {
    hide Disjoint, IsMatcher, Within, Mended, LinesMended;
    match matcher
    case Literal => MendedFits(t, q, scope, e, f);
    case Lines(m) => LinesMendedFits(t, m, scope, e, f);
  }

  lemma {:induction false} MendAllFits(matcher: Matcher, q: Query, p: Patch, t: Text, scope: Span, i: nat, f: set<Span>)
    requires Works(matcher, q) && (matcher.Lines? ==> IsMatcher(matcher.engine))
    requires scope.start <= scope.end <= |t| && EditsIn(p, |t|) && i <= |p|
    requires Disjoint(f) && forall s | s in f :: Within(s, scope)
    ensures var now := MendAll(matcher, q, p, t, scope, i, f); Disjoint(now) && forall s | s in now :: Within(s, scope)
    decreases i
  {
    hide Disjoint, IsMatcher, Within, MendedBy, Works;
    if i > 0 {
      MendAllFits(matcher, q, p, t, scope, i - 1, f);
      MendFits(matcher, q, t, scope, p[i - 1], MendAll(matcher, q, p, t, scope, i - 1, f));
    }
  }

  // ----- what a commit promises -----

  /** Repaired edit by edit, a literal set is maximal as far as nothing was cut. */
  lemma {:induction false} LiteralMends(p: Patch, t: Text, q: Query, scope: Span, i: nat, f: set<Span>, top0: nat)
    returns (top: nat)
    requires q.needle != [] && EditsIn(p, |t|) && scope.start <= scope.end <= |t| && i <= |p| && top0 <= |t|
    requires Repairing(p, t, q, scope, 0, f, top0) && Crowded(t, q, scope, top0)
    ensures Repairing(p, t, q, scope, i, MendAll(Literal, q, p, t, scope, i, f), top) && Crowded(t, q, scope, top)
    ensures top <= top0 && (Promised(t, top0) ==> Promised(t, top))
    decreases i
  {
    hide Repairing, Crowded, Promised, Mended;
    top := top0;
    if i > 0 {
      var was := LiteralMends(p, t, q, scope, i - 1, f, top0);
      top := LiteralStep(p, t, q, scope, i - 1, MendAll(Literal, q, p, t, scope, i - 1, f), was);
    }
  }

  lemma {:induction false} LinesMend(p: Patch, t: Text, m: LineMatcher, q: Query, scope: Span, i: nat, f: set<Span>,
                                     top0: nat)
    returns (top: nat)
    requires IsMatcher(m) && EditsIn(p, |t|) && scope.start <= scope.end <= |t| && i <= |p| && top0 <= |t|
    requires LinesRepairing(p, t, m, scope, 0, f, f, top0) && LinesCrowded(t, m, scope, top0)
    ensures LinesRepairing(p, t, m, scope, i, f, MendAll(Lines(m), q, p, t, scope, i, f), top)
    ensures LinesCrowded(t, m, scope, top) && top <= top0 && (Promised(t, top0) ==> Promised(t, top))
    decreases i
  {
    hide LinesRepairing, LinesCrowded, Promised, IsMatcher, LinesMended;
    top := top0;
    if i > 0 {
      var was := LinesMend(p, t, m, q, scope, i - 1, f, top0);
      top := LinesStep(p, t, m, scope, i - 1, f, MendAll(Lines(m), q, p, t, scope, i - 1, f), was);
    }
  }

  lemma {:induction false} LiteralCloses(p: Patch, t: Text, q: Query, scope: Span, f: set<Span>, top: nat)
    requires q.needle != [] && Repairing(p, t, q, scope, |p|, f, top) && Crowded(t, q, scope, top)
    ensures CompleteBelow(Literal, q, t, scope, f, top)
  {
    hide Repairing, MaximalMatches, MaximalBelow, Sound, Crowded;
    RepairedIsMaximal(p, t, q, scope, f, top);
  }

  lemma {:induction false} WholePromised(t: Text, q: Query, scope: Span)
    ensures Crowded(t, q, scope, |t|) && Promised(t, |t|)
  {}

  lemma {:induction false} WholeLinesPromised(t: Text, m: LineMatcher, scope: Span)
    ensures LinesCrowded(t, m, scope, |t|) && Promised(t, |t|)
  {}

  /** From a maximal set, a literal repair leaves a set complete as far as the cap let it. */
  lemma {:induction false} LiteralKeeps(p: Patch, before: Text, t: Text, q: Query, was: Span, now: Span, f: set<Span>)
    returns (top: nat)
    requires q.needle != [] && WholeChars(q.needle) && Rewrites(p, before, t) && WellFormed(p) && EditsIn(p, |t|)
    requires MaximalMatches(before, q, was, f) && ScopeRides(p, |before|, was, now) && now.start <= now.end <= |t|
    ensures CompleteBelow(Literal, q, t, now, MendAll(Literal, q, p, t, now, |p|, RideSet(p, f)), top)
    ensures Promised(t, top)
    ensures |p| == 1 ==>
              SparedDecide(Spared(Literal, q, p, before, t, now, RideSet(p, f)),
                           MendAll(Literal, q, p, t, now, |p|, RideSet(p, f)), top < |t| && NeverSelfOverlaps(q))
  {
    hide Rewrites, WellFormed, MaximalMatches, ScopeRides, Repairing, Crowded, CompleteBelow, RideSet, Promised, Spared,
         NeverSelfOverlaps, WholeChars, SparedDecide, Mended;
    RepairStarts(p, before, t, q, was, now, f);
    WholePromised(t, q, now);
    if |p| == 1 {
      top := LiteralStep(p, t, q, now, 0, RideSet(p, f), |t|);
      MendsOnce(Literal, q, p, t, now, RideSet(p, f));
      LiteralSpares(p, before, t, q, now, RideSet(p, f), top);
    } else {
      top := LiteralMends(p, t, q, now, |p|, RideSet(p, f), |t|);
    }
    LiteralCloses(p, t, q, now, MendAll(Literal, q, p, t, now, |p|, RideSet(p, f)), top);
  }

  lemma {:induction false} LiteralSpares(p: Patch, before: Text, t: Text, q: Query, scope: Span, f: set<Span>, cut: nat)
    requires q.needle != [] && |p| == 1 && Rewrites(p, before, t) && EditsIn(p, |t|) && scope.start <= scope.end <= |t|
    requires Repairing(p, t, q, scope, 0, f, |t|)
    requires cut < |t| && NeverSelfOverlaps(q)
             && WithoutTouching(f, WinLo(t, q, scope, p[0]), WinHi(t, q, scope, p[0])) != {} ==>
               |Mended(t, q, scope, p[0], f)| > FIND_MATCH_CAP
    ensures SparedDecide(Spared(Literal, q, p, before, t, scope, f), Mended(t, q, scope, p[0], f),
                         cut < |t| && NeverSelfOverlaps(q))
  {
    hide Rewrites, WinLo, WinHi, WithoutTouching, NeverSelfOverlaps, FIND_MATCH_CAP, Mended, Repairing;
    RepairingUpright(p, t, q, scope, f);
    if WithoutTouching(f, WinLo(t, q, scope, p[0]), WinHi(t, q, scope, p[0])) == {} {
      NothingSpared(t, q, scope, p[0], f);
    }
  }

  lemma {:induction false} RepairingUpright(p: Patch, t: Text, q: Query, scope: Span, f: set<Span>)
    requires q.needle != [] && Repairing(p, t, q, scope, 0, f, |t|)
    ensures forall s | s in f :: Within(s, scope) && s.start <= s.end
  {
    hide Pending, TrueMatch, Covered, NearLater;
  }

  /** So does a line-scoped one. */
  lemma {:induction false} LinesKeep(p: Patch, before: Text, t: Text, m: LineMatcher, q: Query, was: Span, now: Span,
                                     f: set<Span>)
    returns (top: nat)
    requires IsMatcher(m) && Rewrites(p, before, t) && WellFormed(p) && EditsIn(p, |t|) && Disjoint(f)
    requires (forall s :: s in f <==> LineMatch(before, m, s) && Within(s, was))
    requires ScopeRides(p, |before|, was, now) && now.start <= now.end <= |t|
    ensures CompleteBelow(Lines(m), q, t, now, MendAll(Lines(m), q, p, t, now, |p|, RideSet(p, f)), top)
    ensures Promised(t, top)
    ensures |p| == 1 ==>
              SparedDecide(Spared(Lines(m), q, p, before, t, now, RideSet(p, f)),
                           MendAll(Lines(m), q, p, t, now, |p|, RideSet(p, f)), top < |t|)
  {
    hide Rewrites, WellFormed, ScopeRides, LinesRepairing, LinesCrowded, RideSet, Promised, Spared, IsMatcher,
         SparedDecide, LineMatch, LinesMended, Disjoint;
    var rides := RideSet(p, f);
    LinesBegun(p, before, t, m, was, now, f);
    WholeLinesPromised(t, m, now);
    LinesRepairStarts(p, t, m, now, rides, |t|);
    if |p| == 1 {
      top := LinesStep(p, t, m, now, 0, rides, rides, |t|);
      MendsOnce(Lines(m), q, p, t, now, rides);
      LinesSpare(p, before, t, m, q, now, rides, top);
    } else {
      top := LinesMend(p, t, m, q, now, |p|, rides, |t|);
    }
    LinesRestored(p, before, t, m, was, now, f, MendAll(Lines(m), q, p, t, now, |p|, rides), top);
  }

  /** The moved matches lie disjoint in the ridden scope. */
  lemma {:induction false} LinesBegun(p: Patch, before: Text, t: Text, m: LineMatcher, was: Span, now: Span,
                                      f: set<Span>)
    requires Rewrites(p, before, t) && WellFormed(p) && Disjoint(f) && ScopeRides(p, |before|, was, now)
    requires forall s | s in f :: LineMatch(before, m, s) && Within(s, was)
    ensures Disjoint(RideSet(p, f)) && forall s | s in RideSet(p, f) :: Within(s, now)
  {
    hide Rewrites, WellFormed, ScopeRides, RideSpan, LineMatch, Disjoint;
    RideSetDisjoint(p, f);
    forall s | s in RideSet(p, f) ensures Within(s, now) {
      var o :| o in f && s == RideSpan(p, o) && s.start < s.end;
      LineMatchSolid(before, m, o);
      RidesWithin(p, |before|, was, now, o);
    }
  }

  lemma {:induction false} LinesSpare(p: Patch, before: Text, t: Text, m: LineMatcher, q: Query, scope: Span,
                                      f: set<Span>, cut: nat)
    requires IsMatcher(m) && |p| == 1 && Rewrites(p, before, t) && EditsIn(p, |t|) && scope.start <= scope.end <= |t|
    requires Disjoint(f) && forall s | s in f :: Within(s, scope)
    requires var w := LinesWindow(t, scope, p[0]);
             cut < |t| && WithoutTouching(f, w.start, w.end) != {} ==>
               |LinesMended(t, m, scope, p[0], f)| > FIND_MATCH_CAP
    ensures SparedDecide(Spared(Lines(m), q, p, before, t, scope, f), LinesMended(t, m, scope, p[0], f), cut < |t|)
  {
    hide Rewrites, LinesWindow, WithoutTouching, FIND_MATCH_CAP, LinesMended, IsMatcher;
    var w := LinesWindow(t, scope, p[0]);
    if WithoutTouching(f, w.start, w.end) == {} { NoLinesSpared(t, m, scope, p[0], f); }
  }

  lemma {:induction false} NoLinesSpared(t: Text, m: LineMatcher, scope: Span, e: Edit, f: set<Span>)
    requires IsMatcher(m) && e.ns <= e.ne <= |t| && scope.start <= scope.end <= |t|
    requires Disjoint(f) && forall s | s in f :: Within(s, scope)
    requires WithoutTouching(f, LinesWindow(t, scope, e).start, LinesWindow(t, scope, e).end) == {}
    ensures |LinesMended(t, m, scope, e, f)| <= FIND_MATCH_CAP
  {
    hide *;
    var w := LinesWindow(t, scope, e);
    LinesMendedIs(t, m, scope, e, f);
    DisjointUpright(f);
    if w.start > w.end {
      OutsideLinesSpare(t, scope, e, f);
      NoneIsFew(f);
    } else {
      var all := Scoped(t, m, LineLo(t, w.start), w);
      LinesFitted(t, m, scope, e, f);
      SolidsAll(FirstMatches(all));
      AddedCard({}, FirstMatches(all));
      FirstIsFew(all);
    }
  }

  lemma {:induction false} DisjointUpright(f: set<Span>)
    requires Disjoint(f)
    ensures forall s | s in f :: s.start <= s.end
  {}

  lemma {:induction false} NoneIsFew(f: set<Span>)
    ensures f == {} ==> |f| <= FIND_MATCH_CAP
  {}

  lemma {:induction false} FirstIsFew(l: seq<Span>)
    ensures |FirstMatches(l)| <= FIND_MATCH_CAP
  {}

  lemma {:induction false} Compiled(matcher: Option<Matcher>, query: Option<Query>)
    requires Configured(matcher, query) && !Idle(matcher, query)
    ensures matcher.Some? && query.Some? && WholeChars(query.value.needle) && Works(matcher.value, query.value)
    ensures matcher.value.Lines? ==> IsMatcher(matcher.value.engine)
  {
    hide WholeChars, IsMatcher;
  }

  /** A complete set, its scope having ridden the patch, is repaired to one complete as far as the cap let
      it; around a single edit the spared matches decide whether it outgrows the cap. */
  lemma {:induction false} CompleteMends(matcher: Option<Matcher>, query: Option<Query>, p: Patch, before: Text,
                                         t: Text, was: Span, now: Span, f: set<Span>)
    returns (top: nat)
    requires Configured(matcher, query) && !Idle(matcher, query) && Works(matcher.value, query.value)
    requires Rewrites(p, before, t) && WellFormed(p) && EditsIn(p, |t|) && Disjoint(f)
    requires Complete(matcher, query, before, was, f)
    requires ScopeRides(p, |before|, was, now) && now.start <= now.end <= |t|
    ensures var all := MendAll(matcher.value, query.value, p, t, now, |p|, RideSet(p, f));
            && CompleteBelow(matcher.value, query.value, t, now, all, top) && Promised(t, top)
            && (|p| == 1 ==>
                  SparedDecide(Spared(matcher.value, query.value, p, before, t, now, RideSet(p, f)), all,
                               top < |t| && OnePhase(matcher, query)))
  {
    hide Rewrites, WellFormed, ScopeRides, MaximalMatches, RideSet, Promised, Spared, IsMatcher, SparedDecide,
         LineMatch, MendAll, CompleteBelow, Disjoint, WholeChars, NeverSelfOverlaps;
    match matcher.value {
      case Literal => top := LiteralKeeps(p, before, t, query.value, was, now, f);
      case Lines(m) => top := LinesKeep(p, before, t, m, query.value, was, now, f);
    }
  }

  lemma {:induction false} FromNothing(p: Patch, t: Text, q: Query, scope: Span)
    requires q.needle != []
    ensures Sound(p, t, q, scope, 0, {})
  {}

  lemma {:induction false} SoundIsRepairing(p: Patch, t: Text, q: Query, scope: Span, i: nat, f: set<Span>)
    requires q.needle != []
    ensures Sound(p, t, q, scope, i, f) <==> Repairing(p, t, q, scope, i, f, 0)
    ensures Crowded(t, q, scope, 0)
  {}

  /** What the mover hands to a literal repair is sound, whatever became of the scope. */
  lemma {:induction false} StoredStarts(p: Patch, before: Text, t: Text, q: Query, was: Span, now: Span, f: set<Span>)
    requires q.needle != [] && Rewrites(p, before, t) && WellFormed(p) && Disjoint(f)
    requires forall s | s in f :: TrueMatch(before, q, s) && Within(s, was)
    requires ScopeRides(p, |before|, was, now) || RideSet(p, f) == {}
    requires now.start <= now.end <= |t|
    ensures Sound(p, t, q, now, 0, RideSet(p, f))
  {
    hide Rewrites, WellFormed, ScopeRides, RideSet, TrueMatch, Sound, Disjoint;
    if RideSet(p, f) == {} { FromNothing(p, t, q, now); } else { MovedIsSound(p, before, t, q, was, now, f); }
  }

  /** Every literal repair finds the set sound: disjoint spans, each a match or near an edit to come. */
  lemma {:induction false} SoundThroughout(p: Patch, before: Text, t: Text, q: Query, was: Span, now: Span,
                                           f: set<Span>, i: nat)
    requires q.needle != [] && Rewrites(p, before, t) && WellFormed(p) && EditsIn(p, |t|) && Disjoint(f) && i <= |p|
    requires forall s | s in f :: TrueMatch(before, q, s) && Within(s, was)
    requires ScopeRides(p, |before|, was, now) || RideSet(p, f) == {}
    requires now.start <= now.end <= |t|
    ensures Sound(p, t, q, now, i, MendAll(Literal, q, p, t, now, i, RideSet(p, f)))
  {
    hide Rewrites, WellFormed, ScopeRides, RideSet, TrueMatch, Sound, Repairing, MendAll, Disjoint, Crowded;
    StoredStarts(p, before, t, q, was, now, f);
    SoundIsRepairing(p, t, q, now, 0, RideSet(p, f));
    var top := LiteralMends(p, t, q, now, i, RideSet(p, f), 0);
    SoundIsRepairing(p, t, q, now, i, MendAll(Literal, q, p, t, now, i, RideSet(p, f)));
  }

  /** A repair leaves nothing but matches, whatever it started from and whatever became of the scope. */
  lemma {:induction false} StoredMends(matcher: Option<Matcher>, query: Option<Query>, p: Patch, before: Text, t: Text,
                                       was: Span, now: Span, f: set<Span>)
    requires Configured(matcher, query) && !Idle(matcher, query) && Works(matcher.value, query.value)
    requires Rewrites(p, before, t) && WellFormed(p) && EditsIn(p, |t|) && Disjoint(f)
    requires Stored(matcher, query, before, was, f)
    requires ScopeRides(p, |before|, was, now) || RideSet(p, f) == {}
    requires now.start <= now.end <= |t|
    ensures forall s | s in MendAll(matcher.value, query.value, p, t, now, |p|, RideSet(p, f)) ::
              IsMatch(matcher.value, query.value, t, now, s)
    ensures Disjoint(MendAll(matcher.value, query.value, p, t, now, |p|, RideSet(p, f)))
  {
    hide Rewrites, WellFormed, ScopeRides, RideSet, IsMatcher, TrueMatch, LineMatch, MendAll, Disjoint, WholeChars,
         Sound;
    match matcher.value {
      case Literal =>
        SoundThroughout(p, before, t, query.value, was, now, f, |p|);
        SoundIsDone(p, t, query.value, now, MendAll(Literal, query.value, p, t, now, |p|, RideSet(p, f)));
      case Lines(m) => LinesStored(p, before, t, m, query.value, was, now, f);
    }
  }

  lemma {:induction false} SoundIsDone(p: Patch, t: Text, q: Query, scope: Span, f: set<Span>)
    requires q.needle != [] && Sound(p, t, q, scope, |p|, f)
    ensures Disjoint(f) && forall s | s in f :: TrueMatch(t, q, s) && Within(s, scope)
  {
    hide TrueMatch, InWindow;
  }

  lemma {:induction false} LinesStored(p: Patch, before: Text, t: Text, m: LineMatcher, q: Query, was: Span, now: Span,
                                       f: set<Span>)
    requires IsMatcher(m) && Rewrites(p, before, t) && WellFormed(p) && EditsIn(p, |t|) && Disjoint(f)
    requires forall s | s in f :: LineMatch(before, m, s) && Within(s, was)
    requires ScopeRides(p, |before|, was, now) || RideSet(p, f) == {}
    requires now.start <= now.end <= |t|
    ensures var all := MendAll(Lines(m), q, p, t, now, |p|, RideSet(p, f));
            Disjoint(all) && forall s | s in all :: LineMatch(t, m, s) && Within(s, now)
  {
    hide Rewrites, WellFormed, ScopeRides, RideSet, IsMatcher, LineMatch, MendAll, Disjoint, LinesRepairing,
         LinesCrowded;
    var rides := RideSet(p, f);
    if rides == {} { NothingWithin(rides, now); } else { LinesBegun(p, before, t, m, was, now, f); }
    LinesRepairStarts(p, t, m, now, rides, 0);
    NothingPromised(t, m, now);
    var top := LinesMend(p, t, m, q, now, |p|, rides, 0);
    LinesSound(p, before, t, m, now, f, MendAll(Lines(m), q, p, t, now, |p|, rides), top);
    LinesDisjoint(p, t, m, now, |p|, rides, MendAll(Lines(m), q, p, t, now, |p|, rides), top);
  }

  lemma {:induction false} NothingWithin(f: set<Span>, scope: Span)
    requires f == {}
    ensures Disjoint(f) && forall s | s in f :: Within(s, scope)
  {}

  lemma {:induction false} NothingPromised(t: Text, m: LineMatcher, scope: Span)
    ensures LinesCrowded(t, m, scope, 0)
  {}

  // ----- where a commit slices inside a character -----

  /** The repair of edit `i` would begin or stop its scan on a scope edge that lies inside a character. */
  ghost predicate CutsAChar(p: Patch, t: Text, q: Query, scope: Span, i: nat, f: set<Span>)
    requires q.needle != [] && i < |p|
  {
    var ws, we := WinLo(t, q, scope, p[i]), WinHi(t, q, scope, p[i]);
    var z := ZoneAround(t, q, scope, f, ws, we);
    ws <= we && z.lo < z.hi && (StartCut(t, q, scope, f, z.extLo) || EndCut(t, q, scope, z.extHi))
  }

  /** Exactly when a commit slices inside a character. */
  lemma {:induction false} CommitBreaksWhen(p: Patch, before: Text, t: Text, q: Query, was: Span, now: Span,
                                            f: set<Span>)
    requires q.needle != [] && Rewrites(p, before, t) && WellFormed(p) && EditsIn(p, |t|) && Disjoint(f)
    requires WholeChars(t) && WholeChars(q.needle) && now.start <= now.end <= |t|
    requires forall s | s in f :: TrueMatch(before, q, s) && Within(s, was)
    requires ScopeRides(p, |before|, was, now) || RideSet(p, f) == {}
    ensures !SlicesAll(Literal, q, p, t, now, |p|, RideSet(p, f))
            <==> exists i | 0 <= i < |p| :: CutsAChar(p, t, q, now, i, MendAll(Literal, q, p, t, now, i, RideSet(p, f)))
    ensures Boundary(t, now.start) && Boundary(t, now.end) ==> SlicesAll(Literal, q, p, t, now, |p|, RideSet(p, f))
  {
    hide Rewrites, WellFormed, ScopeRides, RideSet, TrueMatch, Sound, MendAll, Disjoint, WholeChars, SlicesWell,
         CutsAChar, Boundary;
    forall i | 0 <= i < |p|
      ensures !SlicesWell(t, q, now, p[i], MendAll(Literal, q, p, t, now, i, RideSet(p, f)))
              <==> CutsAChar(p, t, q, now, i, MendAll(Literal, q, p, t, now, i, RideSet(p, f)))
      ensures Boundary(t, now.start) && Boundary(t, now.end) ==>
              SlicesWell(t, q, now, p[i], MendAll(Literal, q, p, t, now, i, RideSet(p, f)))
    {
      SoundThroughout(p, before, t, q, was, now, f, i);
      CutsWhen(p, before, t, q, now, i, MendAll(Literal, q, p, t, now, i, RideSet(p, f)));
      if Boundary(t, now.start) && Boundary(t, now.end) {
        EdgesSliceWell(p, before, t, q, now, i, MendAll(Literal, q, p, t, now, i, RideSet(p, f)));
      }
    }
    var rides := RideSet(p, f);
    if i :| 0 <= i < |p| && CutsAChar(p, t, q, now, i, MendAll(Literal, q, p, t, now, i, rides)) {
      assert !Slices(Literal, q, t, now, p[i], MendAll(Literal, q, p, t, now, i, rides));
    }
    if !SlicesAll(Literal, q, p, t, now, |p|, rides) {
      var i :| 0 <= i < |p| && !Slices(Literal, q, t, now, p[i], MendAll(Literal, q, p, t, now, i, rides));
      assert CutsAChar(p, t, q, now, i, MendAll(Literal, q, p, t, now, i, rides));
    }
  }

  lemma {:induction false} CutsWhen(p: Patch, before: Text, t: Text, q: Query, scope: Span, i: nat, f: set<Span>)
    requires q.needle != [] && Rewrites(p, before, t) && WellFormed(p) && i < |p| && Sound(p, t, q, scope, i, f)
    requires WholeChars(t) && WholeChars(q.needle) && scope.start <= scope.end <= |t|
    ensures !SlicesWell(t, q, scope, p[i], f) <==> CutsAChar(p, t, q, scope, i, f)
  {
    hide Rewrites, WellFormed, WinLo, WinHi, WholeChars, Sound, StartCut, EndCut, SlicesWell, ZoneAround;
    SlicesBadlyWhen(p, before, t, q, scope, i, f);
  }

  // ----- a single edit from nothing -----

  /** From nothing, the repair of one edit leaves what a fresh scan of its stretch finds. */
  lemma {:induction false} EmptyMends(matcher: Option<Matcher>, query: Option<Query>, p: Patch, t: Text, now: Span)
    requires Configured(matcher, query) && !Idle(matcher, query) && Works(matcher.value, query.value)
    requires |p| == 1 && EditsIn(p, |t|) && now.start <= now.end <= |t|
    requires var w := RepairWindow(matcher.value, query.value, t, now, p[0]); w.start <= w.end
    ensures var z := Rescanned(matcher.value, query.value, t, now, p[0]);
            && Within(z, now) && z.end <= |t|
            && MendAll(matcher.value, query.value, p, t, now, 1, {})
               == SpanSet(FirstMatches(FreshScan(matcher, query, t, z)))
  {
    hide WinLo, WinHi, ZoneLo, ZoneHi, Greedy, LinesWindow, Scoped, Inside, AllLines, LineLo, IsMatcher, FirstMatches,
         Mended, LinesMended, SpanSet, WholeChars;
    MendsOnce(matcher.value, query.value, p, t, now, {});
    match matcher.value {
      case Literal => MendsNothing(t, query.value, now, p[0]);
      case Lines(m) => NothingInLines(t, m, now, p[0]);
    }
  }

  lemma {:induction false} NothingInLines(t: Text, m: LineMatcher, scope: Span, e: Edit)
    requires IsMatcher(m) && e.ns <= e.ne <= |t| && LinesWindow(t, scope, e).start <= LinesWindow(t, scope, e).end
    ensures var w := LinesWindow(t, scope, e);
            && Within(w, scope) && w.end <= |t|
            && LinesMended(t, m, scope, e, {}) == SpanSet(FirstMatches(Inside(AllLines(t, m), w)))
  {
    hide *;
    var w := LinesWindow(t, scope, e);
    WindowWithin(t, scope, e);
    LinesMendedIs(t, m, scope, e, {});
    ScopedIsInside(t, m, w);
    NothingWithout(w.start, w.end, SpanSet(FirstMatches(Inside(AllLines(t, m), w))));
  }

  lemma {:induction false} NothingWithout(ws: nat, we: nat, g: set<Span>)
    ensures WithoutTouching({}, ws, we) + g == g
  {}
}
