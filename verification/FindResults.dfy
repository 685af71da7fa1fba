/**
 What the match set should be: complete for the query's matcher, and as a list the fresh scan's
 first matches up to the cap.
 */
module FindResults {
  import opened Base
  import opened Patches
  import opened TextBounds
  import opened TextRows
  import opened FindScans
  import opened FindSets
  import opened FindRepair
  import opened FindLines
  import opened FindLineRepair
  import opened FindCaps
  import opened FindMends
  import opened FindMatches

  const SCAN_WINDOW: nat := 65536

  /** A query that compiled: one line-scoped engine, or a needle of whole characters. */
  ghost predicate Configured(matcher: Option<Matcher>, query: Option<Query>) {
    matcher.Some? ==> query.Some? && WholeChars(query.value.needle)
                      && (matcher.value.Lines? ==> IsMatcher(matcher.value.engine))
  }

  /** Nothing to match: no query, a pattern that does not parse, or an empty needle. */
  predicate Idle(matcher: Option<Matcher>, query: Option<Query>) {
    matcher.None? || query.None? || (matcher.value.Literal? && query.value.needle == [])
  }

  /** Two matches never overlap: any line-scoped pattern's, and a literal's that cannot overlap
      itself. */
  predicate OnePhase(matcher: Option<Matcher>, query: Option<Query>) {
    matcher.Some? && query.Some? && matcher.value.Literal? ==> NeverSelfOverlaps(query.value)
  }

  /** The whole match set of a scope: maximal for a literal, exact for a line-scoped pattern. */
  ghost predicate Complete(matcher: Option<Matcher>, query: Option<Query>, t: Text, scope: Span, f: set<Span>) {
    if Idle(matcher, query) then f == {}
    else match matcher.value
      case Literal => MaximalMatches(t, query.value, scope, f)
      case Lines(m) => forall s :: s in f <==> LineMatch(t, m, s) && Within(s, scope)
  }

  /** The fresh scan of a scope, as a list. */
  ghost function FreshScan(matcher: Option<Matcher>, query: Option<Query>, t: Text, scope: Span): seq<Span>
    requires scope.end <= |t|
  {
    if Idle(matcher, query) then []
    else match matcher.value
      case Literal => Greedy(t, query.value, scope.start, scope.end)
      case Lines(m) => Inside(AllLines(t, m), scope)
  }

  /** A fresh scan of the scope stays within the cap. */
  ghost predicate WithinCap(matcher: Option<Matcher>, query: Option<Query>, t: Text, scope: Span)
    requires scope.end <= |t|
  {
    |FreshScan(matcher, query, t, scope)| <= FIND_MATCH_CAP
  }

  /** A match of the scope. */
  ghost predicate IsMatch(matcher: Matcher, query: Query, t: Text, scope: Span, s: Span) {
    Within(s, scope) && match matcher case Literal => TrueMatch(t, query, s) case Lines(m) => LineMatch(t, m, s)
  }

  /** Nothing but matches, all of them that start before `top`, and a cut there only for a match past
      the cap. */
  ghost predicate CompleteBelow(matcher: Matcher, query: Query, t: Text, scope: Span, f: set<Span>, top: nat) {
    match matcher
    case Literal => MaximalBelow(t, query, scope, f, top) && Crowded(t, query, scope, top)
    case Lines(m) =>
      && (forall s | s in f :: LineMatch(t, m, s) && Within(s, scope))
      && (forall s | LineMatch(t, m, s) && Within(s, scope) && s.start < top :: s in f)
      && LinesCrowded(t, m, scope, top)
  }

  /** Every span listed is a match of the scope; while there is nothing to match, none is. */
  ghost predicate Stored(matcher: Option<Matcher>, query: Option<Query>, t: Text, scope: Span, f: set<Span>) {
    if Idle(matcher, query) then f == {} else forall s | s in f :: IsMatch(matcher.value, query.value, t, scope, s)
  }

  /** A list of matches: in order, apart, none empty. */
  ghost predicate Listing(l: seq<Span>) { Apart(l) && forall s | s in l :: s.start < s.end }

  // ----- complete sets and the fresh scan -----

  /** A complete set is the fresh scan, in order, unless the needle can overlap itself. */
  lemma {:induction false} CompleteIsFresh(matcher: Option<Matcher>, query: Option<Query>, t: Text, scope: Span,
                                           l: seq<Span>)
    requires Configured(matcher, query) && Listing(l) && Complete(matcher, query, t, scope, SpanSet(l))
    requires OnePhase(matcher, query) && scope.end <= |t|
    ensures l == FreshScan(matcher, query, t, scope)
  {
    hide MaximalMatches, LineMatch, NeverSelfOverlaps, Greedy, AllLines, Inside, SpanSet, Apart;
    if Idle(matcher, query) {
      if l != [] { SomeSpan(l); }
    } else {
      match matcher.value
      case Literal => MaximalIsFreshList(t, query.value, scope, l);
      case Lines(m) => LinesAreFreshList(t, m, scope, l);
    }
  }

  lemma {:induction false} FreshFacts(matcher: Option<Matcher>, query: Option<Query>, t: Text, scope: Span)
    requires Configured(matcher, query) && scope.end <= |t|
    ensures var all := FreshScan(matcher, query, t, scope);
            && Apart(all) && (forall s | s in all :: s.start < s.end && Within(s, scope))
            && Complete(matcher, query, t, scope, SpanSet(all))
  {
    hide Greedy, AllLines, LineMatch, HitAt, MaximalMatches, Inside;
    var all := FreshScan(matcher, query, t, scope);
    if Idle(matcher, query) {
    } else if matcher.value.Literal? {
      GreedyApart(t, query.value, scope.start, scope.end);
      FreshIsMaximal(t, query.value, scope);
      forall s | s in all ensures s.start < s.end && Within(s, scope) {
        GreedyHit(t, query.value, scope.start, scope.end, s);
      }
    } else {
      InsideLines(t, matcher.value.engine, scope);
      forall s | s in all ensures s.start < s.end { LineMatchSolid(t, matcher.value.engine, s); }
    }
  }

  /** A complete set holds nothing but matches. */
  lemma {:induction false} CompleteIsStored(matcher: Option<Matcher>, query: Option<Query>, t: Text, scope: Span,
                                            f: set<Span>)
    requires Complete(matcher, query, t, scope, f)
    ensures Stored(matcher, query, t, scope, f)
  {
    hide LineMatch, HitAt, Disjoint, Covered;
  }

  /** A stored set lies in the scope. */
  lemma {:induction false} StoredInScope(matcher: Option<Matcher>, query: Option<Query>, t: Text, scope: Span,
                                         f: set<Span>)
    requires Stored(matcher, query, t, scope, f)
    ensures forall s | s in f :: Within(s, scope)
  {
    hide LineMatch, TrueMatch;
  }

  // ----- sets complete as far as the cap let them -----

  /** The stored list begins as the fresh scan does, up to the cap. */
  ghost predicate BeginsAs(f: seq<Span>, g: seq<Span>) {
    if |g| <= FIND_MATCH_CAP then f == g
    else |f| >= FIND_MATCH_CAP && f[..FIND_MATCH_CAP] == g[..FIND_MATCH_CAP]
  }

  /** Within the cap nothing was cut. */
  lemma {:induction false} LiteralWhole(t: Text, q: Query, scope: Span, f: set<Span>, top: nat)
    requires q.needle != [] && MaximalBelow(t, q, scope, f, top) && Crowded(t, q, scope, top) && Promised(t, top)
    requires scope.end <= |t| && |Greedy(t, q, scope.start, scope.end)| <= FIND_MATCH_CAP
    ensures MaximalMatches(t, q, scope, f)
  {
    hide HitAt, Greedy, Disjoint, FIND_MATCH_CAP;
    if top < |t| {
      var l: seq<Span> :| Crowd(l, top) && forall s | s in l :: TrueMatch(t, q, s) && Within(s, scope);
      CrowdOfHits(t, q, scope, l);
    }
  }

  lemma {:induction false} CrowdOfHits(t: Text, q: Query, scope: Span, l: seq<Span>)
    requires q.needle != [] && scope.end <= |t| && Apart(l) && forall s | s in l ::
             TrueMatch(t, q, s) && Within(s, scope)
    ensures |l| <= |Greedy(t, q, scope.start, scope.end)|
  {
    hide HitAt, Greedy, Apart;
    GreedyIsLongest(t, q, scope.start, scope.end, l);
  }

  lemma {:induction false} HitsAreGreedy(t: Text, q: Query, scope: Span, s: Span)
    requires q.needle != [] && NeverSelfOverlaps(q) && scope.end <= |t|
    ensures TrueMatch(t, q, s) && Within(s, scope) <==> s in Greedy(t, q, scope.start, scope.end)
  {
    hide HitAt, Greedy, NeverSelfOverlaps;
    var g := Greedy(t, q, scope.start, scope.end);
    if TrueMatch(t, q, s) && Within(s, scope) {
      FreshIsMaximal(t, q, scope);
      MaximalIsAll(t, q, scope, SpanSet(g), s.start);
    } else if s in g {
      GreedyHit(t, q, scope.start, scope.end, s);
    }
  }

  lemma {:induction false} LiteralBegins(t: Text, q: Query, scope: Span, f: seq<Span>, top: nat)
    requires q.needle != [] && NeverSelfOverlaps(q) && Listing(f) && scope.end <= |t|
    requires MaximalBelow(t, q, scope, SpanSet(f), top) && Crowded(t, q, scope, top) && Promised(t, top)
    ensures var g := Greedy(t, q, scope.start, scope.end);
            BeginsAs(f, g) && |f| <= |g| && (top >= |t| ==> f == g)
  {
    hide HitAt, Greedy, Disjoint, FIND_MATCH_CAP, Apart, Solids, Crowd, NeverSelfOverlaps;
    var g := Greedy(t, q, scope.start, scope.end);
    ZoneFacts(t, q, scope.start, scope.end);
    forall s ensures TrueMatch(t, q, s) && Within(s, scope) <==> s in g { HitsAreGreedy(t, q, scope, s); }
    InSpanSet(f);
    forall s | s in g && s.start < top ensures s in f { BelowIsAll(t, q, scope, SpanSet(f), top, s.start); }
    forall s | s in g ensures s.start < |t| { SolidStarts(g, s, |t|); }
    FoundSolid(f);
    BeginsFresh(f, g, top);
  }

  lemma {:induction false} SolidStarts(l: seq<Span>, s: Span, n: nat)
    requires Solids(l) && s in l && s.end <= n
    ensures s.start < n
  {}

  lemma {:induction false} FoundSolid(l: seq<Span>)
    requires forall s | s in l :: s.start < s.end
    ensures Solids(l)
  {}

  lemma {:induction false} LinesBegin(t: Text, m: LineMatcher, scope: Span, f: seq<Span>, top: nat)
    requires IsMatcher(m) && Listing(f) && (forall s | s in SpanSet(f) :: LineMatch(t, m, s) && Within(s, scope))
    requires forall s | LineMatch(t, m, s) && Within(s, scope) && s.start < top :: s in SpanSet(f)
    requires LinesCrowded(t, m, scope, top) && Promised(t, top)
    ensures var g := Inside(AllLines(t, m), scope);
            BeginsAs(f, g) && |f| <= |g| && (top >= |t| ==> f == g)
  {
    hide LineMatch, AllLines, FIND_MATCH_CAP, Apart, Crowd, IsMatcher, Inside;
    var g := Inside(AllLines(t, m), scope);
    InsideLines(t, m, scope);
    InSpanSet(f);
    forall s | s in g ensures s.start < s.end <= |t| { LineMatchSolid(t, m, s); }
    BeginsFresh(f, g, top);
  }

  /** A set complete as far as the cap let it: complete if a fresh scan fits the cap, never longer than
      one, and beginning as one does unless the needle can overlap itself. */
  lemma {:induction false} CompleteUpToCap(matcher: Option<Matcher>, query: Option<Query>, t: Text, scope: Span,
                                           l: seq<Span>, top: nat)
    requires Configured(matcher, query) && !Idle(matcher, query) && Listing(l) && scope.end <= |t|
    requires CompleteBelow(matcher.value, query.value, t, scope, SpanSet(l), top) && Promised(t, top)
    ensures |l| <= |FreshScan(matcher, query, t, scope)|
    ensures WithinCap(matcher, query, t, scope) ==> Complete(matcher, query, t, scope, SpanSet(l))
    ensures OnePhase(matcher, query) ==>
              BeginsAs(l, FreshScan(matcher, query, t, scope))
              && (top >= |t| ==> l == FreshScan(matcher, query, t, scope))
  {
    hide Greedy, AllLines, LineMatch, Crowded, LinesCrowded, BeginsAs, FIND_MATCH_CAP, MaximalMatches,
         NeverSelfOverlaps, TrueMatch, Covered, Disjoint, WholeChars, IsMatcher, Inside, Within, Promised, Apart;
    match matcher.value {
      case Literal =>
        InSpanSet(l);
        MatchesFit(t, query.value, scope, l);
        if WithinCap(matcher, query, t, scope) { LiteralWhole(t, query.value, scope, SpanSet(l), top); }
        if OnePhase(matcher, query) { LiteralBegins(t, query.value, scope, l, top); }
      case Lines(m) =>
        LinesBegin(t, m, scope, l, top);
        if WithinCap(matcher, query, t, scope) { LinesWithin(t, m, scope, l); }
    }
  }

  lemma {:induction false} LinesWithin(t: Text, m: LineMatcher, scope: Span, l: seq<Span>)
    requires IsMatcher(m)
    requires BeginsAs(l, Inside(AllLines(t, m), scope)) && |Inside(AllLines(t, m), scope)| <= FIND_MATCH_CAP
    ensures forall s :: s in SpanSet(l) <==> LineMatch(t, m, s) && Within(s, scope)
  {
    hide LineMatch, AllLines, FIND_MATCH_CAP, IsMatcher, Inside, Apart;
    InsideLines(t, m, scope);
    InSpanSet(l);
  }

  /** Cut at the cap, the list is the fresh scan's first matches. */
  lemma {:induction false} CutIsFirst(f: seq<Span>, g: seq<Span>)
    requires BeginsAs(f, g) && |f| <= |g|
    ensures FirstMatches(f) == FirstMatches(g)
  {
    hide FIND_MATCH_CAP;
    if |f| == FIND_MATCH_CAP < |g| { assert f[..FIND_MATCH_CAP] == f; }
  }

  // ----- a capped set is complete up to its last match -----

  /** Where a list of matches ends. */
  function LastEnd(l: seq<Span>): nat { if l == [] then 0 else l[|l| - 1].end }

  /** The first `n` matches are the matches of the scope up to where the last of them ends. */
  lemma {:induction false} PrefixIsComplete(matcher: Option<Matcher>, query: Option<Query>, t: Text, scope: Span,
                                            n: nat)
    requires Configured(matcher, query) && scope.end <= |t| && 0 < n <= |FreshScan(matcher, query, t, scope)|
    ensures var l := FreshScan(matcher, query, t, scope)[..n];
            scope.start <= LastEnd(l) <= scope.end && Complete(matcher, query, t, Span(scope.start, LastEnd(l)),
                                                               SpanSet(l))
  {
    hide FreshScan, Complete, Configured, Apart;
    var g := FreshScan(matcher, query, t, scope);
    FreshFacts(matcher, query, t, scope);
    assert g[n - 1] in g && g[..n][n - 1] == g[n - 1];
    forall s ensures s in g[..n] <==> s in g && s.end <= LastEnd(g[..n]) { PrefixByEnd(g, n, s); }
    FrontIsComplete(matcher, query, t, scope, g, g[..n], LastEnd(g[..n]));
  }

  lemma {:induction false} PrefixByEnd(l: seq<Span>, n: nat, s: Span)
    requires Apart(l) && (forall r | r in l :: r.start < r.end) && 0 < n <= |l|
    ensures s in l[..n] <==> s in l && s.end <= l[n - 1].end
  {
    if s in l {
      var i :| 0 <= i < |l| && l[i] == s;
      if i < n {
        assert l[..n][i] == s && l[n - 1] in l;
        if i < n - 1 { assert l[i].end <= l[n - 1].start; }
      } else {
        assert l[n - 1].end <= l[i].start;
        PastPrefix(l, n, s, i);
      }
    }
  }

  lemma {:induction false} PastPrefix(l: seq<Span>, n: nat, s: Span, i: nat)
    requires Apart(l) && (forall r | r in l :: r.start < r.end) && 0 < n <= i < |l| && l[i] == s
    ensures s !in l[..n]
  {
    forall j | 0 <= j < n ensures l[..n][j] != s {
      assert l[j] in l && l[j].end <= l[i].start;
    }
  }

  lemma {:induction false} FrontIsComplete(matcher: Option<Matcher>, query: Option<Query>, t: Text, scope: Span,
                                           g: seq<Span>, l: seq<Span>, end: nat)
    requires Configured(matcher, query) && Complete(matcher, query, t, scope, SpanSet(g)) && end <= scope.end
    requires Apart(g) && forall s :: s in l <==> s in g && s.end <= end
    requires exists s :: s in g && s.end == end
    ensures Complete(matcher, query, t, Span(scope.start, end), SpanSet(l))
  {
    hide Configured, Apart, LineMatch, HitAt;
    var front := Span(scope.start, end);
    if !Idle(matcher, query) {
      match matcher.value {
        case Literal =>
          hide Disjoint;
          SubsetDisjoint(SpanSet(l), SpanSet(g));
          forall x: nat | HitWithin(t, query.value, front, x) ensures Covered(SpanSet(l), query.value, x) {
            FrontCovered(t, query.value, scope, g, l, end, x);
          }
        case Lines(m) =>
      }
    }
  }

  lemma {:induction false} FrontCovered(t: Text, q: Query, scope: Span, g: seq<Span>, l: seq<Span>, end: nat, x: nat)
    requires MaximalMatches(t, q, scope, SpanSet(g)) && end <= scope.end && HitWithin(t, q, Span(scope.start, end), x)
    requires (forall s :: s in l <==> s in g && s.end <= end) && exists s :: s in g && s.end == end
    ensures Covered(SpanSet(l), q, x)
  {
    hide HitAt;
    var m := CoveringMatch(t, q, scope, SpanSet(g), x);
    var z :| z in g && z.end == end;
    assert m in SpanSet(g) && z in SpanSet(g);
    assert m.end <= end;
  }

  // ----- the survivors of a single repair -----

  /** The stretch of the new text that the repair of one edit clears. */
  function RepairWindow(matcher: Matcher, query: Query, t: Text, scope: Span, e: Edit): Span
    requires e.ns <= e.ne <= |t| && (matcher.Literal? ==> query.needle != [])
  {
    match matcher
    case Literal => Span(WinLo(t, query, scope, e), WinHi(t, query, scope, e))
    case Lines(_) => LinesWindow(t, scope, e)
  }

  /** The stretch that the repair of one edit scans afresh when no stored match is near. */
  function Rescanned(matcher: Matcher, query: Query, t: Text, scope: Span, e: Edit): Span
    requires e.ns <= e.ne <= |t| && (matcher.Literal? ==> query.needle != [])
  {
    match matcher
    case Literal =>
      Span(ZoneLo(t, query, scope, WinLo(t, query, scope, e)), ZoneHi(t, query, scope, WinHi(t, query, scope, e)))
    case Lines(_) => LinesWindow(t, scope, e)
  }

  /** Moved matches that the window of a single edit spares. */
  function Spared(matcher: Matcher, query: Query, p: Patch, before: Text, t: Text, scope: Span,
                  rides: set<Span>): set<Span>
    requires |p| == 1 && Rewrites(p, before, t) && (matcher.Literal? ==> query.needle != [])
  {
    EditInText(p, before, t, 0);
    var w := RepairWindow(matcher, query, t, scope, p[0]);
    WithoutTouching(rides, w.start, w.end)
  }

  /** Around a single window, the spared matches decide whether the set outgrows the cap. */
  ghost predicate SparedDecide(spared: set<Span>, now: set<Span>, cut: bool) {
    && (spared == {} ==> |now| <= FIND_MATCH_CAP)
    && (cut && spared != {} ==> |now| > FIND_MATCH_CAP)
  }

  /** The set outgrows the cap exactly when a fresh scan does and a match was spared. */
  lemma {:induction false} OutgrowsWhen(matcher: Option<Matcher>, query: Option<Query>, t: Text, scope: Span,
                                        l: seq<Span>, top: nat, spared: set<Span>)
    requires Configured(matcher, query) && !Idle(matcher, query) && Listing(l) && scope.end <= |t|
    requires CompleteBelow(matcher.value, query.value, t, scope, SpanSet(l), top) && Promised(t, top)
    requires SparedDecide(spared, SpanSet(l), top < |t| && OnePhase(matcher, query))
    ensures spared == {} ==> |l| <= FIND_MATCH_CAP
    ensures OnePhase(matcher, query) ==>
            (|l| > FIND_MATCH_CAP <==> !WithinCap(matcher, query, t, scope) && spared != {})
  {
    hide SpanSet, FreshScan, CompleteBelow, OnePhase, FIND_MATCH_CAP, Configured, Apart, Promised;
    CompleteUpToCap(matcher, query, t, scope, l, top);
    FoundSolid(l);
    ApartCard(l);
  }

  // ----- a scope that collapses -----

  /** With matches that never overlap, a fresh scan lists exactly the matches. */
  lemma {:induction false} FreshMembers(matcher: Option<Matcher>, query: Option<Query>, t: Text, scope: Span, s: Span)
    requires Configured(matcher, query) && !Idle(matcher, query) && OnePhase(matcher, query) && scope.end <= |t|
    ensures s in FreshScan(matcher, query, t, scope) <==> IsMatch(matcher.value, query.value, t, scope, s)
  {
    hide NeverSelfOverlaps, LineMatch, HitAt, Greedy, Inside, AllLines, Apart, IsMatcher, WholeChars;
    match matcher.value
    case Literal => HitsAreGreedy(t, query.value, scope, s);
    case Lines(m) => InsideLines(t, m, scope);
  }

  /** A set that lists a stretch's first matches is complete over more than the stretch exactly when the
      stretch holds every match there is, and no more than the cap. */
  lemma {:induction false} StretchCompletes(matcher: Option<Matcher>, query: Option<Query>, t: Text, now: Span, z: Span,
                                            l: seq<Span>)
    requires Configured(matcher, query) && !Idle(matcher, query) && OnePhase(matcher, query)
    requires Within(z, now) && now.end <= |t| && l == FirstMatches(FreshScan(matcher, query, t, z))
    ensures Complete(matcher, query, t, now, SpanSet(l))
            <==> WithinCap(matcher, query, t, z) && forall s | s in FreshScan(matcher, query, t, now) :: Within(s, z)
  {
    hide Configured, Idle, OnePhase, FreshScan, Complete, FIND_MATCH_CAP, SpanSet, Apart;
    StretchMembers(matcher, query, t, now, z);
    FreshFacts(matcher, query, t, z);
    FreshFacts(matcher, query, t, now);
    FirstListing(FreshScan(matcher, query, t, z));
    if Complete(matcher, query, t, now, SpanSet(l)) {
      CompleteIsFresh(matcher, query, t, now, l);
      if !WithinCap(matcher, query, t, z) { PastTheCap(FreshScan(matcher, query, t, z),
                                                       FreshScan(matcher, query, t, now)); }
      forall s | s in FreshScan(matcher, query, t, now) ensures Within(s, z) {
        FirstAre(FreshScan(matcher, query, t, z), s);
      }
    } else if WithinCap(matcher, query, t, z) && forall s | s in FreshScan(matcher, query, t, now) :: Within(s, z) {
      SameMembers(FreshScan(matcher, query, t, z), FreshScan(matcher, query, t, now));
    }
  }

  lemma {:induction false} FirstListing(l: seq<Span>)
    requires Listing(l)
    ensures Listing(FirstMatches(l))
  {
    ApartPrefix(l, |FirstMatches(l)|);
    forall s | s in FirstMatches(l) ensures s in l {}
  }

  lemma {:induction false} StretchMembers(matcher: Option<Matcher>, query: Option<Query>, t: Text, now: Span, z: Span)
    requires Configured(matcher, query) && !Idle(matcher, query) && OnePhase(matcher, query) && Within(z, now)
             && now.end <= |t|
    ensures forall s :: s in FreshScan(matcher, query, t, z) <==> s in FreshScan(matcher, query, t, now) && Within(s, z)
  {
    hide Configured, OnePhase, FreshScan, TrueMatch, LineMatch, Idle;
    forall s ensures s in FreshScan(matcher, query, t, z) <==> s in FreshScan(matcher, query, t, now) && Within(s, z) {
      FreshMembers(matcher, query, t, z, s);
      FreshMembers(matcher, query, t, now, s);
    }
  }

  lemma {:induction false} FirstAre(l: seq<Span>, s: Span)
    ensures s in FirstMatches(l) ==> s in l
  {}

  lemma {:induction false} PastTheCap(l: seq<Span>, g: seq<Span>)
    requires Apart(l) && (forall r | r in l :: r.start < r.end) && |l| > FIND_MATCH_CAP && forall s | s in l :: s in g
    ensures g != FirstMatches(l)
  {
    var s := l[FIND_MATCH_CAP];
    assert s in l;
    PastPrefix(l, FIND_MATCH_CAP, s, FIND_MATCH_CAP);
  }

  lemma {:induction false} SameMembers(l: seq<Span>, g: seq<Span>)
    requires Apart(l) && Apart(g) && (forall s | s in l :: s.start < s.end) && forall s :: s in l <==> s in g
    ensures l == g && SpanSet(l) == SpanSet(g)
  {
    hide Apart;
    ApartUnique(l, g);
  }

  // ----- the display scan -----

  /** Of a scope's first line on, the lines' matches in the scope are those of the whole text. */
  lemma {:induction false} ScopedIsInside(t: Text, m: LineMatcher, scope: Span)
    requires IsMatcher(m) && scope.start <= scope.end <= |t|
    ensures Scoped(t, m, LineLo(t, scope.start), scope) == Inside(AllLines(t, m), scope)
  {
    hide LineMatch, Scoped, LineLo, Apart, AllLines, Inside, IsMatcher;
    var l := Scoped(t, m, LineLo(t, scope.start), scope);
    ScopedIsApart(t, m, scope);
    InsideLines(t, m, scope);
    forall s ensures s in l <==> s in Inside(AllLines(t, m), scope) { ScopedMembers(t, m, scope, s); }
    forall s | s in l ensures s.start < s.end { LineMatchSolid(t, m, s); }
    InSpanSet(l);
    InSpanSet(Inside(AllLines(t, m), scope));
    ApartUnique(l, Inside(AllLines(t, m), scope));
  }

  /** After a one-byte character another begins, or the text ends. */
  lemma {:induction false} AsciiEndsAChar(t: Text, i: nat)
    requires WholeChars(t) && 0 < i <= |t| && t[i - 1] < 128
    ensures Boundary(t, i)
    decreases |t|
  {
    var n := FirstChar(t);
    hide WholeChars, CharLen;
    if i > n {
      assert t[n..][i - n - 1] == t[i - 1];
      AsciiEndsAChar(t[n..], i - n);
      assert i < |t| ==> t[n..][i - n] == t[i];
    }
  }

  lemma {:induction false} FirstChar(t: Text) returns (n: nat)
    requires WholeChars(t) && t != []
    ensures 0 < n <= |t| && WholeChars(t[n..]) && Boundary(t, n)
    ensures forall j | 0 <= j < n - 1 :: t[j] >= 128
  {
    n := CharLen(t[0]);
    if n < |t| { assert t[n..][0] == t[n]; }
  }

  /** A line's matches begin and end on characters of the text. */
  lemma {:induction false} LineMatchOnBoundaries(t: Text, m: LineMatcher, s: Span)
    requires WholeChars(t) && IsMatcher(m) && LineMatch(t, m, s)
    ensures Boundary(t, s.start) && Boundary(t, s.end)
  {
    hide WholeChars, Apart;
    var ls: nat, le: nat :| MatchOn(t, m, ls, le, s);
    if ls > 0 { AsciiEndsAChar(t, ls); }
    LineBoundary(t, ls, le, s.start - ls);
    LineBoundary(t, ls, le, s.end - ls);
  }

  lemma {:induction false} LineBoundary(t: Text, ls: nat, le: nat, x: nat)
    requires IsLine(t, ls, le) && Boundary(t, ls) && x <= le - ls && Boundary(t[ls..le], x)
    ensures Boundary(t, ls + x)
  {}

  /** Snapping a scope inward to characters loses no line match. */
  lemma {:induction false} SnappedLines(t: Text, m: LineMatcher, scope: Span)
    requires WholeChars(t) && IsMatcher(m) && scope.start <= scope.end <= |t|
    ensures Inside(AllLines(t, m), Span(ScanLo(t, scope), ScanHi(t, scope))) == Inside(AllLines(t, m), scope)
  {
    hide WholeChars, IsMatcher, LineMatch, Apart, AllLines, Inside, ScanLo, ScanHi;
    var snapped := Span(ScanLo(t, scope), ScanHi(t, scope));
    var a, b := Inside(AllLines(t, m), snapped), Inside(AllLines(t, m), scope);
    InsideLines(t, m, snapped);
    InsideLines(t, m, scope);
    forall s ensures s in a <==> s in b {
      if LineMatch(t, m, s) {
        LineMatchSolid(t, m, s);
        LineMatchOnBoundaries(t, m, s);
        SnappedWithin(t, scope, s);
      }
    }
    forall s | s in a ensures s.start < s.end { LineMatchSolid(t, m, s); }
    SameMembers(a, b);
  }

  lemma {:induction false} SnappedWithin(t: Text, scope: Span, s: Span)
    requires scope.start <= scope.end <= |t| && s.start < s.end <= |t| && Boundary(t, s.start) && Boundary(t, s.end)
    ensures Within(s, Span(ScanLo(t, scope), ScanHi(t, scope))) <==> Within(s, scope)
  {
    hide Boundary;
    var hi := ScanHi(t, scope);
    ClipRightStays(t, Min(scope.start, hi), hi);
  }

  /** The display scan: a windowed literal scan, or the lines one by one, of the scope snapped inward to
      characters. */
  method FreshSpans(matcher: Option<Matcher>, query: Option<Query>, t: Text, scope: Span)
    returns (spans: seq<Span>, capped: bool)
    requires WholeChars(t) && Configured(matcher, query) && scope.start <= scope.end <= |t|
    ensures StoppedAt(FreshScan(matcher, query, t, scope), FIND_MATCH_CAP, spans, capped)
    ensures Apart(spans) && forall s | s in spans :: s.start < s.end && Within(s, scope)
  {
    hide WholeChars, Apart, ScanLo, ScanHi, LineLo, Complete, SpanSet, IsMatcher, Scoped, AllLines, Greedy, Inside;
    FreshFacts(matcher, query, t, scope);
    if query.None? || matcher.None? {
      spans, capped := [], false;
      assert StoppedAt(FreshScan(matcher, query, t, scope), FIND_MATCH_CAP, spans, capped);
    } else {
      if matcher.value.Literal? {
        if query.value.needle != [] { SnappedScan(t, query.value, scope); }
        spans, capped := ScanBufferCapped(t, query.value, SCAN_WINDOW, FIND_MATCH_CAP, scope);
        assert StoppedAt(FreshScan(matcher, query, t, scope), FIND_MATCH_CAP, spans, capped);
      } else {
        var snapped := Span(ScanLo(t, scope), ScanHi(t, scope));
        SnappedLines(t, matcher.value.engine, scope);
        ScopedIsInside(t, matcher.value.engine, snapped);
        spans, capped := ScanBufferLines(t, matcher.value.engine, FIND_MATCH_CAP, snapped);
      }
    }
    assert StoppedAt(FreshScan(matcher, query, t, scope), FIND_MATCH_CAP, spans, capped);
    StoppedFacts(FreshScan(matcher, query, t, scope), FIND_MATCH_CAP, spans, capped);
    ApartPrefix(FreshScan(matcher, query, t, scope), |spans|);
  }
}
