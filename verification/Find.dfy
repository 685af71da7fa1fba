/**
 Find: the query, the active match, and the repair of the match set at every commit.
 */
module Find {
  import opened Base
  import opened Patches
  import opened TextBounds
  import opened DecorationItems
  import opened DecorationQueries
  import opened DecorationBands
  import opened Decorations
  import opened FindScans
  import opened FindSets
  import opened FindScopes
  import opened FindRepair
  import opened FindLines
  import opened FindLineRepair
  import opened FindCaps
  import opened FindMends
  import opened FindMatches
  import opened FindResults
  import opened FindCommits
  import opened FindModes
  import opened FindCases
  import opened FindZones
  import opened FindHandles
  import opened FindWalks
  import SumTrees

  /** A refill waits this many milliseconds after the last scan. */
  const FIND_DEBOUNCE: nat := 100

  // ----- the parts of a commit -----

  /** The next repair, or the slice that fails. */
  lemma {:induction false} LiteralNext(p: Patch, q: Query, t: Text, scope: Span, i: nat, f0: set<Span>)
    requires q.needle != [] && scope.start <= scope.end <= |t| && EditsIn(p, |t|) && i < |p|
    ensures var f := MendAll(Literal, q, p, t, scope, i, f0);
            var ws, we := WinLo(t, q, scope, p[i]), WinHi(t, q, scope, p[i]);
            var z := ZoneAround(t, q, scope, f, ws, we);
            && scope.start <= ws && we <= scope.end
            && MendAll(Literal, q, p, t, scope, i + 1, f0)
               == (if ws > we then f else WithoutTouching(f, ws, we) + Refound(t, q, z))
            && (SlicesAll(Literal, q, p, t, scope, i, f0) ==>
                  (SlicesAll(Literal, q, p, t, scope, i + 1, f0) <==> ws > we || Sliceable(t, z.lo, z.hi)))
            && (ws <= we && !Sliceable(t, z.lo, z.hi) ==> !SlicesAll(Literal, q, p, t, scope, |p|, f0))
  {
    hide WinLo, WinHi, ZoneAround, Refound, WithoutTouching, Sliceable, MendAll;
    WindowBounds(t, q, scope, p[i]);
    MendNext(Literal, q, p, t, scope, i, f0);
  }

  lemma {:induction false} NoneYet(matcher: Matcher, q: Query, p: Patch, t: Text, scope: Span, f: set<Span>)
    requires Works(matcher, q) && scope.end <= |t| && EditsIn(p, |t|)
    ensures MendAll(matcher, q, p, t, scope, 0, f) == f && SlicesAll(matcher, q, p, t, scope, 0, f)
    ensures matcher.Lines? ==> SlicesAll(matcher, q, p, t, scope, |p|, f)
  {
    hide MendedBy;
  }

  lemma {:induction false} LinesNext(p: Patch, m: LineMatcher, q: Query, t: Text, scope: Span, i: nat, f0: set<Span>)
    requires scope.end <= |t| && EditsIn(p, |t|) && i < |p|
    ensures MendAll(Lines(m), q, p, t, scope, i + 1, f0)
            == LinesMended(t, m, scope, p[i], MendAll(Lines(m), q, p, t, scope, i, f0))
  {
    hide LinesMended;
  }

  lemma {:induction false} LinesWork(m: LineMatcher, q: Query)
    ensures Works(Lines(m), q)
  {}

  lemma {:induction false} EditWithin(p: Patch, n: nat, i: nat)
    requires EditsIn(p, n) && i < |p|
    ensures p[i].ns <= p[i].ne <= n
  {}

  lemma {:induction false} NotIdle(matcher: Option<Matcher>, query: Option<Query>)
    ensures Idle(matcher, query)
            <==> query.None? || matcher.None? || (matcher.value.Literal? && query.value.needle == [])
  {}

  /** The moved matches are disjoint spans of the ridden stretch. */
  lemma {:induction false} RidesFit(m: Mode, p: Patch, before: Text, t: Text)
    requires Held(m, before) && Rewrites(p, before, t) && WellFormed(p) && !Idle(m.matcher, m.query)
    ensures var f := RideSet(p, SpanSet(m.found)); Disjoint(f) && forall s | s in f :: Within(s, m.Ridden(p, |t|))
  {
    hide Held, Rewrites, WellFormed, Disjoint, ScopeRides, Collapses, Bounded, Stored, Reach, RideReach, RideSpan,
         Configured, IsMatch;
    HeldParts(m, before);
    StretchRides(m, p, before, t);
    RideSetDisjoint(p, SpanSet(m.found));
    forall s | s in RideSet(p, SpanSet(m.found)) ensures Within(s, m.Ridden(p, |t|)) {
      var o :| o in SpanSet(m.found) && s == RideSpan(p, o) && s.start < s.end;
      SolidList(m.found);
      RidesWithin(p, |before|, m.Covers(|before|), m.Ridden(p, |t|), o);
    }
  }

  lemma {:induction false} WithinEnds(f: set<Span>, scope: Span)
    requires forall s | s in f :: Within(s, scope)
    ensures EndsBy(f, scope.end)
  {}

  /** A store's list is its set's. */
  lemma {:induction false} FoundIsListed(v: seq<Tracked>)
    requires Ordered(v) && FindsWell(v)
    ensures Found(v) == Listed(FindSet(v)) && Listing(Found(v)) && SpanSet(Found(v)) == FindSet(v)
  {
    hide Ordered, FindsWell, Found, Apart, FindSet;
    FoundApart(v);
    ListedIs(Found(v));
  }

  /** Nothing to repair: nothing moved, or there was nothing to move. */
  lemma {:induction false} NothingToRepair(m: Mode, p: Patch, before: Text, t: Text, v: seq<Tracked>)
    requires Held(m, before) && Rewrites(p, before, t) && WellFormed(p) && (p == [] || Idle(m.matcher, m.query))
    requires Ordered(v) && FindsWell(v) && FindSet(v) == RideSet(p, SpanSet(m.found))
    ensures Found(v) == m.found
    ensures Idle(m.matcher, m.query) ==> m.found == []
  {
    hide Rewrites, WellFormed, Disjoint, RideSet, FindSet, Held, Ordered, FindsWell, Found, Bounded, Configured, Stored,
         Listing, Idle;
    HeldParts(m, before);
    FoundIsListed(v);
    ListingIs(m.found);
    if p == [] {
      EmptyPatch(before, t, SpanSet(m.found));
    } else {
      RideNothing(p);
      NothingListed();
    }
  }

  lemma {:induction false} ListingIs(l: seq<Span>)
    requires Listing(l)
    ensures Listed(SpanSet(l)) == l
  {
    hide Apart;
    ListedIs(l);
  }

  lemma {:induction false} NothingListed()
    ensures SpanSet([]) == {}
  {}

  lemma {:induction false} NoFindNoActive(m: Mode, t: Text, v: seq<Tracked>, active: Option<nat>, start: Option<nat>)
    requires Held(m, t) && Found(v) == m.found && ActiveLives(v, active, start)
    ensures Idle(m.matcher, m.query) ==> active == None && start == None
  {
    hide Held, Idle, Found, Configured;
    HeldParts(m, t);
    if Idle(m.matcher, m.query) && active.Some? {
      var r :| r in v && IsFind(r) && r.id == active.value && r.start == start.value;
      SpanInFindSet(v, r);
      FoundMember(v, SpanOf(r));
    }
  }

  /** The settled list and flags are the machine's. */
  lemma {:induction false} SettledIs(m: Mode, p: Patch, t: Text, v: seq<Tracked>, w: seq<Tracked>, capped: bool,
                                     stale: bool, end: nat)
    requires WellFormed(p) && EditsIn(p, |t|) && p != [] && !Idle(m.matcher, m.query)
    requires Ordered(v) && FindsWell(v) && FindSet(v) == Restored(m, p, t) && Found(w) == FirstMatches(Found(v))
    requires if |Found(v)| > FIND_MATCH_CAP then capped && !stale && end == LastEnd(Found(w))
             else capped == m.capped && end == RideCover(p, m.capped, m.end, |t|)
                  && stale == if capped then |Found(w)| < FIND_MATCH_CAP else m.stale
    ensures Mode(m.matcher, m.query, RideScope(p, m.scope), capped, stale, end, m.last, Found(w)) == Rode(m, p, t)
  {
    hide Ordered, FindsWell, FindSet, Restored, Found, RideScope, RideCover, LastEnd, EditsIn, WellFormed, Idle;
    FoundIsListed(v);
  }

  /** The store lists a fresh scan. */
  lemma {:induction false} FreshInstalled(matcher: Option<Matcher>, query: Option<Query>, t: Text, scope: Span,
                                          v: seq<Tracked>, spans: seq<Span>, capped: bool)
    requires Ordered(v) && FindsWell(v) && FindSet(v) == SpanSet(spans) && scope.end <= |t|
    requires Apart(spans) && forall s | s in spans :: s.start < s.end && Within(s, scope)
    requires StoppedAt(FreshScan(matcher, query, t, scope), FIND_MATCH_CAP, spans, capped)
    ensures Found(v) == spans == FirstMatches(FreshScan(matcher, query, t, scope)) && EndsBy(FindSet(v), |t|)
    ensures capped <==> |FreshScan(matcher, query, t, scope)| > FIND_MATCH_CAP
  {
    hide Ordered, FindsWell, Apart, Found, FreshScan;
    StoppedIsFirst(FreshScan(matcher, query, t, scope), spans, capped);
    FoundApart(v);
    ApartUnique(Found(v), spans);
  }

  // ----- the state -----

  class FindState {
    var query: Option<Query>

    /** The query compiled, in step with it; none when there is no query or it does not parse. */
    var matcher: Option<Matcher>

    /** The highlighted match, and its tracked start: both or neither. */
    var active: Option<nat>

    var activeStart: Option<nat>

    /** The set is only a prefix of the document's matches. */
    var capped: bool

    var cappedStale: bool

    /** How far the scan has covered. */
    var coverageEnd: nat

    /** Matches exist only in here, if anywhere is named. */
    var scope: Option<Span>

    /** When the last scan ran, in milliseconds. */
    var lastScan: nat

    constructor ()
      ensures query == None && matcher == None && active == None && activeStart == None && scope == None
      ensures !capped && !cappedStale && coverageEnd == 0 && lastScan == 0
    {
      query, matcher, active, activeStart, scope := None, None, None, None, None;
      capped, cappedStale, coverageEnd, lastScan := false, false, 0, 0;
    }

    /** The search, with the matches the store holds for it. */
    ghost function AsMode(store: DecorationStore): Mode
      reads this, store
    {
      Mode(matcher, query, scope, capped, cappedStale, coverageEnd, lastScan, Found(store.Contents()))
    }

    /** The search stands where the machine does, its matches aside. */
    ghost predicate Stands(m: Mode)
      reads this
    {
      && matcher == m.matcher && query == m.query && scope == m.scope && capped == m.capped && cappedStale == m.stale
      && coverageEnd == m.end && lastScan == m.last
    }

    lemma {:induction false} ModeParts(store: DecorationStore)
      ensures Stands(AsMode(store)) && AsMode(store).found == Found(store.Contents())
    {
      hide Found;
    }

    lemma {:induction false} ModeJoins(store: DecorationStore, m: Mode)
      requires matcher == m.matcher && query == m.query && scope == m.scope && capped == m.capped
               && cappedStale == m.stale && coverageEnd == m.end && lastScan == m.last
      requires Found(store.Contents()) == m.found
      ensures AsMode(store) == m
    {
      hide Found;
    }

    /** An active match that a window carries off leaves its start behind. */
    method ReleaseActive(removed: seq<Tracked>, was: Option<nat>) returns (start: Option<nat>)
      modifies this`active, this`activeStart
      ensures Released(removed, old(active), old(activeStart), was, active, activeStart, start)
    {
      start := was;
      if active.Some? {
        var at := StartOf(removed, active.value);
        if at.Some? {
          start := at;
          active, activeStart := None, None;
        }
      }
    }

    /** Repair a literal set around every edit of the patch, in order, inside the scope.  It fails where the
        source slices the text inside a character. */
    method RepairLiteral(p: Patch, q: Query, t: Text, within: Span, store: DecorationStore,
                         ghost held: Option<(nat, nat)>)
      returns (ok: bool, released: Option<nat>)
      requires q.needle != [] && EditsIn(p, |t|) && within.start <= within.end <= |t|
      requires store.Valid() && FindsWell(store.Contents())
      requires forall s | s in FindSet(store.Contents()) :: Within(s, within)
      requires ActiveTracked(store.Contents(), store.nextId, active, activeStart)
      requires HandleKept(store.Contents(), held, active, activeStart, None)
      modifies this`active, this`activeStart, store
      ensures store.Valid()
      ensures ok <==> SlicesAll(Literal, q, p, t, within, |p|, old(FindSet(store.Contents())))
      ensures ok ==>
                && FindsWell(store.Contents())
                && FindSet(store.Contents()) == MendAll(Literal, q, p, t, within, |p|, old(FindSet(store.Contents())))
                && ActiveTracked(store.Contents(), store.nextId, active, activeStart)
                && HandleKept(store.Contents(), held, active, activeStart, released)
                && OthersKept(old(store.Contents()), store.Contents())
    {
      hide FindsWell, FindSet, ActiveTracked, HandleKept, OthersKept, MendAll, SlicesAll, EditsIn, WinLo, WinHi,
           ZoneAround, Refound, WithoutTouching, IsStore, Accepted, Refused, Select, Released, Grown, RemovedIs,
           Disjoint, IsFind, Sliceable;
      released := None;
      ghost var v0 := store.Contents();
      ghost var f0 := FindSet(v0);
      OthersSame(v0);
      FindsDisjoint(v0);
      NoneYet(Literal, q, p, t, within, f0);
      for i := 0 to |p|
        invariant store.Valid() && FindsWell(store.Contents())
        invariant FindSet(store.Contents()) == MendAll(Literal, q, p, t, within, i, f0)
        invariant SlicesAll(Literal, q, p, t, within, i, f0)
        invariant ActiveTracked(store.Contents(), store.nextId, active, activeStart)
        invariant HandleKept(store.Contents(), held, active, activeStart, released)
        invariant OthersKept(v0, store.Contents())
      {
        EditWithin(p, |t|, i);
        LiteralNext(p, q, t, within, i, f0);
        MendAllFits(Literal, q, p, t, within, i, f0);
        var ws, we := WinLo(t, q, within, p[i]), WinHi(t, q, within, p[i]);
        ghost var v := store.Contents();
        if ws <= we {
          var removed := store.TakeMatchingIn(ws, we, IsFind);
          AfterTake(v, ws, we, removed, store.Contents());
          ghost var active0, start0, was := active, activeStart, released;
          released := ReleaseActive(removed, released);
          ghost var g, next := store.Contents(), store.nextId;
          HandleStep(v, next, removed, g, held, active0, start0, was, active, activeStart, released);
          ok := RescanZone(t, q, within, store, ws, we, removed, FindSet(v));
          if !ok { return; }
          HandleGrown(g, store.Contents(), next, store.nextId, held, active, activeStart, released);
          OthersStep(v0, v, g, store.Contents(), next);
        }
      }
      ok := true;
    }

    /** Repair a line-scoped set around every edit of the patch, in order, inside the scope. */
    method RepairLines(p: Patch, m: LineMatcher, t: Text, within: Span, store: DecorationStore, ghost q: Query,
                       ghost held: Option<(nat, nat)>)
      returns (released: Option<nat>)
      requires IsMatcher(m) && EditsIn(p, |t|) && within.start <= within.end <= |t|
      requires store.Valid() && FindsWell(store.Contents())
      requires forall s | s in FindSet(store.Contents()) :: Within(s, within)
      requires ActiveTracked(store.Contents(), store.nextId, active, activeStart)
      requires HandleKept(store.Contents(), held, active, activeStart, None)
      modifies this`active, this`activeStart, store
      ensures store.Valid() && FindsWell(store.Contents())
      ensures FindSet(store.Contents()) == MendAll(Lines(m), q, p, t, within, |p|, old(FindSet(store.Contents())))
      ensures ActiveTracked(store.Contents(), store.nextId, active, activeStart)
      ensures HandleKept(store.Contents(), held, active, activeStart, released)
      ensures OthersKept(old(store.Contents()), store.Contents())
    {
      hide FindsWell, FindSet, ActiveTracked, HandleKept, OthersKept, MendAll, EditsIn, WithoutTouching, IsStore,
           Accepted, Refused, Select, Released, Grown, RemovedIs, Disjoint, IsFind, LinesWindow, LinesMended, IsMatcher,
           WholeLines;
      released := None;
      ghost var v0 := store.Contents();
      ghost var f0 := FindSet(v0);
      OthersSame(v0);
      FindsDisjoint(v0);
      LinesWork(m, q);
      NoneYet(Lines(m), q, p, t, within, f0);
      for i := 0 to |p|
        invariant store.Valid() && FindsWell(store.Contents())
        invariant FindSet(store.Contents()) == MendAll(Lines(m), q, p, t, within, i, f0)
        invariant ActiveTracked(store.Contents(), store.nextId, active, activeStart)
        invariant HandleKept(store.Contents(), held, active, activeStart, released)
        invariant OthersKept(v0, store.Contents())
      {
        EditWithin(p, |t|, i);
        LinesNext(p, m, q, t, within, i, f0);
        ClampedLines(t, within, p[i]);
        LinesMendedIs(t, m, within, p[i], FindSet(store.Contents()));
        var lines := WholeLines(t, Span(p[i].ns, p[i].ne));
        var w := Span(Max(lines.start, within.start), Min(lines.end, within.end));
        ghost var v := store.Contents();
        if w.start <= w.end {
          var removed := store.TakeMatchingIn(w.start, w.end, IsFind);
          AfterTake(v, w.start, w.end, removed, store.Contents());
          ghost var active0, start0, was := active, activeStart, released;
          released := ReleaseActive(removed, released);
          ghost var g, next := store.Contents(), store.nextId;
          HandleStep(v, next, removed, g, held, active0, start0, was, active, activeStart, released);
          FindsDisjoint(v);
          RescanLines(t, m, within, store, w, p[i], FindSet(v));
          HandleGrown(g, store.Contents(), next, store.nextId, held, active, activeStart, released);
          OthersStep(v0, v, g, store.Contents(), next);
        }
      }
    }

    /** Repair the set around every edit, by the query's matcher. */
    method Repair(p: Patch, t: Text, within: Span, store: DecorationStore, ghost held: Option<(nat, nat)>)
      returns (ok: bool, released: Option<nat>)
      requires EditsIn(p, |t|) && within.start <= within.end <= |t|
      requires Configured(matcher, query) && !Idle(matcher, query) && Works(matcher.value, query.value)
      requires store.Valid() && FindsWell(store.Contents())
      requires forall s | s in FindSet(store.Contents()) :: Within(s, within)
      requires ActiveTracked(store.Contents(), store.nextId, active, activeStart)
      requires HandleKept(store.Contents(), held, active, activeStart, None)
      modifies this`active, this`activeStart, store
      ensures store.Valid()
      ensures ok <==>
              SlicesAll(matcher.value, query.value, p, t, within, |p|, old(FindSet(store.Contents())))
      ensures ok ==>
                && FindsWell(store.Contents())
                && FindSet(store.Contents())
                   == MendAll(matcher.value, query.value, p, t, within, |p|, old(FindSet(store.Contents())))
                && ActiveTracked(store.Contents(), store.nextId, active, activeStart)
                && HandleKept(store.Contents(), held, active, activeStart, released)
                && OthersKept(old(store.Contents()), store.Contents())
    {
      hide FindsWell, FindSet, ActiveTracked, HandleKept, OthersKept, MendAll, SlicesAll, EditsIn, IsMatcher,
           WholeChars;
      ghost var f0 := FindSet(store.Contents());
      match matcher.value {
        case Literal =>
          ok, released := RepairLiteral(p, query.value, t, within, store, held);
        case Lines(m) =>
          released := RepairLines(p, m, t, within, store, query.value, held);
          NoneYet(Lines(m), query.value, p, t, within, f0);
          ok := true;
      }
    }

    /** A released handle passes to the match re-created at its exact start. */
    method TransferActive(store: DecorationStore, released: Option<nat>, ghost held: Option<(nat, nat)>)
      requires store.Valid() && FindsWell(store.Contents())
      requires ActiveTracked(store.Contents(), store.nextId, active, activeStart)
      requires HandleKept(store.Contents(), held, active, activeStart, released)
      modifies this`active, this`activeStart
      ensures ActiveTracked(store.Contents(), store.nextId, active, activeStart)
      ensures held.Some? && (exists s :: s in FindSet(store.Contents()) && s.start == held.value.1) ==>
                active.Some? && activeStart == Some(held.value.1)
      ensures held.Some? && active.Some? ==> exists r :: r in store.Contents() && IsFind(r) && r.id == active.value
    {
      hide FindsWell, ActiveTracked, HandleKept, FindSet, IsFind, Ranges, IsStore;
      if released.Some? {
        var found := MatchAt(store.tree, released.value);
        Transferred(store.Contents(), store.nextId, held, active, activeStart, released, found);
        if found.Some? {
          active, activeStart := Some(found.value.id), Some(found.value.start);
        } else {
          active, activeStart := None, None;
        }
      } else {
        Untransferred(store.Contents(), held, active, activeStart);
      }
    }

    /** A handle whose match is gone clears. */
    method DropStaleActive(store: DecorationStore)
      requires store.Valid() && ActiveTracked(store.Contents(), store.nextId, active, activeStart)
      modifies this`active, this`activeStart
      ensures ActiveLives(store.Contents(), active, activeStart)
      ensures (active == old(active) && activeStart == old(activeStart)) || active == None
      ensures old(active).Some? && (exists r :: r in store.Contents() && IsFind(r) && r.id == old(active).value) ==>
                active == old(active) && activeStart == old(activeStart)
    {
      hide ActiveTracked, IsFind, IsStore, Touches, Ranges;
      PresenceDecides(store.Contents(), store.nextId, active, activeStart);
      if active.Some? && activeStart.Some? {
        var present := IsPresent(store.tree, activeStart.value, active.value);
        if !present {
          active, activeStart := None, None;
        }
      }
    }

    /** Cap bookkeeping after a repair: past the cap the tail goes and the flag comes up. */
    method SettleCap(store: DecorationStore)
      requires store.Valid() && FindsWell(store.Contents()) && EndsBy(FindSet(store.Contents()), U32_MAX)
      requires ActiveTracked(store.Contents(), store.nextId, active, activeStart)
      modifies this`capped, this`coverageEnd, this`cappedStale, store`tree
      ensures store.Valid() && FindsWell(store.Contents()) && EndsBy(FindSet(store.Contents()), U32_MAX)
      ensures ActiveTracked(store.Contents(), store.nextId, active, activeStart)
      ensures Found(store.Contents()) == FirstMatches(old(Found(store.Contents())))
      ensures if |old(Found(store.Contents()))| > FIND_MATCH_CAP then
                capped && !cappedStale && coverageEnd == LastEnd(Found(store.Contents()))
              else
                && capped == old(capped) && coverageEnd == old(coverageEnd)
                && cappedStale == if capped then |Found(store.Contents())| < FIND_MATCH_CAP else old(cappedStale)
      ensures |old(Found(store.Contents()))| <= FIND_MATCH_CAP ==> store.Contents() == old(store.Contents())
      ensures OthersKept(old(store.Contents()), store.Contents())
      ensures forall r | r in store.Contents() :: r in old(store.Contents())
    {
      hide FindsWell, EndsBy, FindSet, ActiveTracked, Finds, Select, IsFind, Found, Spans, FindCount, Ranges,
           OthersKept, FIND_MATCH_CAP;
      ghost var v := store.Contents();
      OthersSame(v);
      FoundLength(v);
      FindCountCorrect(store.tree);
      var fc := FindCount(store.tree);
      if fc > FIND_MATCH_CAP {
        CapPositive();
        var keptEnd := TrimToCap(store);
        ShrunkTracked(v, store.Contents(), store.nextId, active, activeStart);
        ShrunkEnds(v, store.Contents(), U32_MAX);
        FoundLength(store.Contents());
        capped, coverageEnd, cappedStale := true, keptEnd, false;
      } else if capped {
        cappedStale := fc < FIND_MATCH_CAP;
      }
    }

    /** Repair the match set around a committed patch, the store having ridden it already.  It fails exactly
        when the code slices the text inside a character; otherwise the search ends where the machine does.
        (A patch between texts always has its edits in the new one: `EditsInText`.) */
    method OnCommit(p: Patch, t: Text, store: DecorationStore, ghost before: Text, ghost m: Mode)
      returns (ok: bool)
      requires WellFormed(p) && Rewrites(p, before, t) && |t| <= U32_MAX && EditsIn(p, |t|)
      requires Held(m, before) && Stands(m)
      requires Idle(matcher, query) ==> active == None && activeStart == None
      requires store.Valid() && FindsWell(store.Contents()) && FindSet(store.Contents()) == RideSet(p, SpanSet(m.found))
      requires ActiveTracked(store.Contents(), store.nextId, active,
                             if activeStart.Some? then Some(Mapped(p, activeStart.value, Right)) else None)
      requires p == [] ==> ActiveLives(store.Contents(), active, activeStart)
      modifies this, store
      ensures store.Valid() && (ok <==> !Breaks(m, p, t))
      ensures ok ==>
                && FindsWell(store.Contents()) && AsMode(store) == Rode(m, p, t)
                && OthersKept(old(store.Contents()), store.Contents())
                && ActiveLives(store.Contents(), active, activeStart)
      ensures p == [] || Idle(m.matcher, m.query) ==> unchanged(this) && unchanged(store)
      ensures ok && !Idle(m.matcher, m.query) ==> TakesTyped(p, m.scope, scope)
      ensures ok && p != [] && !Idle(m.matcher, m.query) ==>
                ActivePersists(p, old(store.Contents()), FindSet(store.Contents()), old(active), old(activeStart),
                               active, activeStart)
    {
      hide *;
      ghost var v0 := store.Contents();
      OthersSame(v0);
      StoreParts(store);
      NotIdle(matcher, query);
      StandsParts(m);
      if query.None? || matcher.None? || p == [] || (matcher.value.Literal? && query.value.needle == []) {
        NothingToRepair(m, p, before, t, v0);
        RodeNothing(m, p, t);
        ModeJoins(store, m);
        ScopeTaken(m, p, t, store);
        NoneLives(v0);
        return true;
      }
      ghost var start0 := activeStart;
      RodeStretch(m, p, |t|);
      coverageEnd := if capped then Mapped(p, coverageEnd, Left) else |t|;
      activeStart := match activeStart case None => None case Some(s) => Some(Mapped(p, s, Right));
      scope := RideScope(p, scope);
      ghost var held := HeldIn(v0, active, activeStart);
      ok := RepairRidden(p, t, store, before, m, held);
      Persists(p, v0, FindSet(store.Contents()), old(active), start0, held, active, activeStart);
      if ok { ScopeTaken(m, p, t, store); }
    }

    lemma {:induction false} ScopeTaken(m: Mode, p: Patch, t: Text, store: DecorationStore)
      requires WellFormed(p) && EditsIn(p, |t|) && AsMode(store) == Rode(m, p, t)
      ensures !Idle(m.matcher, m.query) ==> TakesTyped(p, m.scope, scope)
    {
      hide Rode, EditsIn, WellFormed, Idle, TakesTyped, Found;
      if !Idle(m.matcher, m.query) { CommitTakesTyped(m, p, t); }
    }

    lemma {:induction false} StandsParts(m: Mode)
      requires Stands(m)
      ensures matcher == m.matcher && query == m.query && scope == m.scope && capped == m.capped
              && cappedStale == m.stale && coverageEnd == m.end && lastScan == m.last
    {}

    /** Repair and settle the set, once the store, the scope and the cover have ridden the patch. */
    method RepairRidden(p: Patch, t: Text, store: DecorationStore, ghost before: Text, ghost m: Mode,
                        ghost held: Option<(nat, nat)>)
      returns (ok: bool)
      requires WellFormed(p) && Rewrites(p, before, t) && |t| <= U32_MAX && EditsIn(p, |t|) && p != []
      requires Held(m, before) && !Idle(m.matcher, m.query)
      requires matcher == m.matcher && query == m.query && lastScan == m.last && scope == RideScope(p, m.scope)
               && capped == m.capped && cappedStale == m.stale && coverageEnd == RideCover(p, m.capped, m.end, |t|)
      requires store.Valid() && FindsWell(store.Contents()) && FindSet(store.Contents()) == RideSet(p, SpanSet(m.found))
      requires ActiveTracked(store.Contents(), store.nextId, active, activeStart)
      requires held == HeldIn(store.Contents(), active, activeStart)
      modifies this, store
      ensures store.Valid() && (ok <==> !Breaks(m, p, t))
      ensures ok ==>
                && FindsWell(store.Contents()) && AsMode(store) == Rode(m, p, t)
                && OthersKept(old(store.Contents()), store.Contents())
                && ActiveLives(store.Contents(), active, activeStart)
                && (held.Some? && (exists s :: s in FindSet(store.Contents()) && s.start == held.value.1) ==>
                      active.Some? && activeStart == Some(held.value.1))
    {
      hide *;
      var within := Reach(scope, capped, coverageEnd, |t|);
      StretchIs(m, p, |t|, within);
      HeldParts(m, before);
      Compiled(matcher, query);
      RidesFit(m, p, before, t);
      BreaksIs(m, p, t, within);
      ghost var v0 := store.Contents();
      HandleStarts(v0, store.nextId, active, activeStart);
      var released;
      ok, released := Repair(p, t, within, store, held);
      if !ok { return; }
      MendAllFits(matcher.value, query.value, p, t, within, |p|, FindSet(v0));
      WithinEnds(FindSet(store.Contents()), within);
      EndsLater(FindSet(store.Contents()), within.end, U32_MAX);
      TransferActive(store, released, held);
      ghost var v1 := store.Contents();
      StoreParts(store);
      SettleCap(store);
      OthersChain(v0, v1, store.Contents());
      SettledIs(m, p, t, v1, store.Contents(), capped, cappedStale, coverageEnd);
      TrimSparesActive(v1, store.Contents(), held, active, activeStart, store.nextId);
      DropStaleActive(store);
      RodeStands(m, p, t, store);
    }

    lemma {:induction false} RodeStands(m: Mode, p: Patch, t: Text, store: DecorationStore)
      requires WellFormed(p) && EditsIn(p, |t|)
      requires Mode(matcher, query, scope, capped, cappedStale, coverageEnd, lastScan,
                    Found(store.Contents())) == Rode(m, p, t)
      ensures AsMode(store) == Rode(m, p, t)
    {
      hide Rode, Found, EditsIn, WellFormed;
    }

    /** Make the match that starts at a place active again, if one does. */
    method PickUp(oldStart: Option<nat>, spans: seq<Span>, ids: seq<nat>, store: DecorationStore,
                  ghost v0: seq<Tracked>,
                  ghost next: nat, ghost active0: Option<nat>)
      requires active == None && activeStart == None && IsStore(v0, next)
      requires Found(store.Contents()) == spans && |ids| == |spans|
      requires forall i | 0 <= i < |ids| :: IsInstalled(store.Contents(), ids[i], spans[i].start)
      requires oldStart.Some? ==> active0.Some? && exists r ::
               r in v0 && r.id == active0.value && r.start == oldStart.value
      requires oldStart.None? ==> forall r | r in v0 :: active0 != Some(r.id)
      modifies this`active, this`activeStart
      ensures ActiveLives(store.Contents(), active, activeStart)
      ensures active0 == None ==> active == None && activeStart == None
      ensures forall r | r in v0 && active0 == Some(r.id) ::
                activeStart == if StartsAMatch(store.Contents(), r.start) then Some(r.start) else None
    {
      hide *;
      NoneLives(store.Contents());
      var i := None;
      if oldStart.Some? {
        i := PositionOf(spans, oldStart.value);
        if i.Some? {
          active, activeStart := Some(ids[i.value]), Some(spans[i.value].start);
          InstalledLives(store.Contents(), ids[i.value], spans[i.value].start);
        }
      }
      ActiveSurvives(v0, next, active0, oldStart, store.Contents(), i, activeStart);
    }

    /** Drop every match and scan the scope afresh; the active match survives if a match starts where it
        started. */
    method Rescan(t: Text, store: DecorationStore, at: nat)
      requires WholeChars(t) && |t| <= U32_MAX && Configured(matcher, query)
      requires store.Valid() && FindsWell(store.Contents()) && EndsBy(FindSet(store.Contents()), U32_MAX)
      modifies this, store
      ensures store.Valid() && FindsWell(store.Contents()) && ActiveLives(store.Contents(), active, activeStart)
      ensures EndsBy(FindSet(store.Contents()), U32_MAX) && OthersKept(old(store.Contents()), store.Contents())
      ensures AsMode(store) == old(Anew(matcher, query, scope, t, at))
      ensures old(active) == None ==> active == None && activeStart == None
      ensures forall r | r in old(store.Contents()) && old(active) == Some(r.id) ::
                activeStart == if StartsAMatch(store.Contents(), r.start) then Some(r.start) else None
    {
      hide *;
      ghost var v0, next, active0 := store.Contents(), store.nextId, active;
      StoreParts(store);
      var oldStart := ActiveStartIn(store);
      ClearMatches(store);
      ghost var v1 := store.Contents();
      active, activeStart := None, None;
      var within := Reach(scope, false, 0, |t|);
      ReachFits(scope, |t|);
      var spans, over := FreshSpans(matcher, query, t, within);
      capped := over;
      coverageEnd := if capped then LastEnd(spans) else |t|;
      var ids := InstallFresh(store, spans);
      OthersChain(v0, v1, store.Contents());
      StoreParts(store);
      FreshInstalled(matcher, query, t, within, store.Contents(), spans, capped);
      EndsLater(FindSet(store.Contents()), |t|, U32_MAX);
      PickUp(oldStart, spans, ids, store, v0, next, active0);
      cappedStale, lastScan := false, at;
      AnewIs(matcher, query, scope, t, at);
      ModeJoins(store, Anew(matcher, query, scope, t, at));
    }

    /** Where the active match starts now. */
    method ActiveStartIn(store: DecorationStore) returns (start: Option<nat>)
      requires store.Valid()
      ensures start.Some? ==> active.Some? && exists r ::
              r in store.Contents() && r.id == active.value && r.start == start.value
      ensures start.None? ==> forall r | r in store.Contents() :: active != Some(r.id)
    {
      if active.None? { return None; }
      var v := Materialize(store.tree, 0);
      for i := 0 to |v|
        invariant forall j | 0 <= j < i :: active != Some(v[j].id)
      {
        assert v[i] in v;
        if v[i].id == active.value { return Some(v[i].start); }
      }
      return None;
    }

    /** A new query, compiled (or not, when the pattern does not parse), scanned at once.  The query in
        force already is left alone, and so are its matches. */
    method SetQuery(q: Option<Query>, compiled: Option<Matcher>, t: Text, store: DecorationStore, at: nat)
      requires WholeChars(t) && |t| <= U32_MAX && Configured(compiled, q) && (q == query ==> compiled == matcher)
      requires store.Valid() && FindsWell(store.Contents()) && EndsBy(FindSet(store.Contents()), U32_MAX)
      modifies this, store
      ensures store.Valid() && FindsWell(store.Contents()) && EndsBy(FindSet(store.Contents()), U32_MAX)
      ensures OthersKept(old(store.Contents()), store.Contents())
      ensures q == old(query) ==> unchanged(this) && unchanged(store)
      ensures q != old(query) ==>
                active == None && activeStart == None && AsMode(store) == Anew(compiled, q, old(scope), t, at)
      ensures q != old(query) && q.Some? && compiled == Some(Literal) && q.value.needle != [] ==>
                forall l | LeftmostFirst(t, q.value, Reach(old(scope), false, 0, |t|), l) ::
                  AsMode(store).found == (if |l| > FIND_MATCH_CAP then l[..FIND_MATCH_CAP] else l)
                  && (capped <==> |l| > FIND_MATCH_CAP)
    {
      hide *;
      if q == query {
        OthersSame(store.Contents());
        return;
      }
      query, matcher := q, compiled;
      active, activeStart := None, None;
      Rescan(t, store, at);
      ModeParts(store);
      StandsParts(AsMode(store));
      if q.Some? && compiled == Some(Literal) && q.value.needle != [] {
        forall l | LeftmostFirst(t, q.value, Reach(old(scope), false, 0, |t|), l)
          ensures AsMode(store).found == (if |l| > FIND_MATCH_CAP then l[..FIND_MATCH_CAP] else l)
                  && (capped <==> |l| > FIND_MATCH_CAP)
        {
          AnewReads(q.value, old(scope), t, at, l);
        }
      }
    }

    /** Keep the search to a stretch of the text, or let it go; an empty stretch lets it go, and the one
        in force already is left alone. */
    method SetScope(stretch: Option<Span>, t: Text, store: DecorationStore, at: nat)
      requires WholeChars(t) && |t| <= U32_MAX && Configured(matcher, query)
      requires store.Valid() && FindsWell(store.Contents()) && EndsBy(FindSet(store.Contents()), U32_MAX)
      modifies this, store
      ensures store.Valid() && FindsWell(store.Contents()) && EndsBy(FindSet(store.Contents()), U32_MAX)
      ensures OthersKept(old(store.Contents()), store.Contents())
      ensures var wanted := if stretch.Some? && stretch.value.start < stretch.value.end then stretch else None;
              if wanted == old(scope) then unchanged(this) && unchanged(store)
              else AsMode(store) == Anew(old(matcher), old(query), wanted, t, at)
                   && ActiveLives(store.Contents(), active, activeStart)
    {
      hide *;
      var wanted := if stretch.Some? && stretch.value.start < stretch.value.end then stretch else None;
      if wanted == scope {
        OthersSame(store.Contents());
        return;
      }
      scope := wanted;
      Rescan(t, store, at);
    }

    /** Refill a capped set that has room below the cap, once the debounce has run out. */
    method MaybeRescan(t: Text, store: DecorationStore, at: nat) returns (scanned: bool)
      requires WholeChars(t) && |t| <= U32_MAX && Configured(matcher, query)
      requires store.Valid() && FindsWell(store.Contents()) && EndsBy(FindSet(store.Contents()), U32_MAX)
      modifies this, store
      ensures scanned == (old(query).Some? && old(capped) && old(cappedStale)
                          && SatSub(at, old(lastScan)) >= FIND_DEBOUNCE)
      ensures store.Valid() && FindsWell(store.Contents()) && EndsBy(FindSet(store.Contents()), U32_MAX)
      ensures OthersKept(old(store.Contents()), store.Contents())
      ensures !scanned ==> unchanged(this) && unchanged(store)
      ensures scanned ==>
                AsMode(store) == old(Anew(matcher, query, scope, t, at))
                && ActiveLives(store.Contents(), active, activeStart)
    {
      hide *;
      if query.None? || !(capped && cappedStale) || SatSub(at, lastScan) < FIND_DEBOUNCE {
        OthersSame(store.Contents());
        return false;
      }
      Rescan(t, store, at);
      return true;
    }

    /** Pick the next or previous match from the caret, by three ordinal queries, and make it
        active. */
    method Navigate(head: nat, selection: Span, store: DecorationStore, forward: bool) returns (r: Option<Span>)
      requires store.Valid() && FindsWell(store.Contents())
      modifies this`active, this`activeStart
      ensures var l := Found(store.Contents());
              if l == [] then r == None && active == None && activeStart == None
              else var i := Walk(l, head, selection, forward);
                   r == Some(l[i]) && activeStart == Some(l[i].start) && active == Some(Finds(store.Contents())[i].id)
      ensures ActiveLives(store.Contents(), active, activeStart)
    {
      hide FindsWell, Found, Spans, Finds, Walk, Select, IsFind, IsStore, Ordered, Apart, SpanSet, FindSet,
           FindCount, Ranges, FindRankBefore, SumTrees.SummaryBefore, StartDim, FirstFrom, NthFind, PlaceOf;
      var t := store.tree;
      ghost var v, l := store.Contents(), Found(store.Contents());
      StoreParts(store);
      FoundApart(v);
      FoundLength(v);
      FindCountCorrect(t);
      var count := FindCount(t);
      if count == 0 {
        active, activeStart := None, None;
        return None;
      }
      var at := FindRankBefore(t, selection.start);
      RankIsFirstFrom(t, selection.start);
      NthFindCorrect(t, at);
      var there := NthFind(t, at);
      var on := there.Some? && there.value.1 == selection;
      OnAMatch(l, selection, at);
      FoundAt(v, at);
      var rank := FindRankBefore(t, head);
      RankIsFirstFrom(t, head);
      var pick := if on then (if forward then (at + 1) % count else (at + count - 1) % count)
                  else if forward then rank % count else (rank + count - 1) % count;
      PickIsWalk(l, head, selection, forward, at, rank, on, pick);
      NthFindCorrect(t, pick);
      FoundAt(v, pick);
      var picked := NthFind(t, pick);
      active, activeStart := Some(picked.value.0), Some(picked.value.1.start);
      PickedLives(v, pick);
      return Some(picked.value.1);
    }

    /** A committed edit reaches the store and then the match set, in that order. */
    method Commit(p: Patch, t: Text, store: DecorationStore, ghost before: Text) returns (ok: bool)
      requires WellFormed(p) && Rewrites(p, before, t) && |t| <= U32_MAX && EditsIn(p, |t|)
      requires store.Valid() && FindsWell(store.Contents()) && Held(AsMode(store), before)
      requires ActiveLives(store.Contents(), active, activeStart)
      modifies this, store
      ensures store.Valid() && (ok <==> !old(Breaks(AsMode(store), p, t)))
      ensures ok ==>
                && FindsWell(store.Contents()) && AsMode(store) == old(Rode(AsMode(store), p, t))
                && ActiveLives(store.Contents(), active, activeStart)
                && (if p == [] then store.Contents() == old(store.Contents())
                    else OthersMoved(p, old(store.Contents()), store.Contents()))
      ensures p == [] || Idle(old(matcher), old(query)) ==> unchanged(this)
      ensures ok && !Idle(old(matcher), old(query)) ==> TakesTyped(p, old(scope), scope)
    {
      hide *;
      ghost var v, m0 := store.Contents(), AsMode(store);
      StoreParts(store);
      ModeParts(store);
      StandsParts(m0);
      NoFindNoActive(m0, before, v, active, activeStart);
      FoundIsListed(v);
      store.ApplyPatch(p);
      ghost var w := store.Contents();
      MoverHandsOn(p, before, t, v, w, store.nextId, active, activeStart);
      ok := OnCommit(p, t, store, before, m0);
      if ok && p != [] { OthersRide(p, v, w, store.Contents()); }
    }
  }

  lemma {:induction false} ReachFits(scope: Option<Span>, n: nat)
    ensures Reach(scope, false, 0, n).start <= Reach(scope, false, 0, n).end <= n
  {}

  lemma {:induction false} AnewIs(matcher: Option<Matcher>, query: Option<Query>, scope: Option<Span>, t: Text, at: nat)
    ensures var all := FreshScan(matcher, query, t, Reach(scope, false, 0, |t|));
            Anew(matcher, query, scope, t, at)
            == Mode(matcher, query, scope, |all| > FIND_MATCH_CAP, false,
                    if |all| > FIND_MATCH_CAP then LastEnd(FirstMatches(all)) else |t|, at, FirstMatches(all))
  {
    hide FreshScan, LastEnd, FirstMatches, FIND_MATCH_CAP;
  }

  lemma {:induction false} RodeNothing(m: Mode, p: Patch, t: Text)
    requires WellFormed(p) && EditsIn(p, |t|) && (p == [] || Idle(m.matcher, m.query))
    ensures Rode(m, p, t) == m && !Breaks(m, p, t)
  {
    hide WellFormed, EditsIn, Idle;
  }

  lemma {:induction false} RodeStretch(m: Mode, p: Patch, n: nat)
    requires WellFormed(p)
    ensures RideCover(p, m.capped, m.end, n) == if m.capped then Mapped(p, m.end, Left) else n
  {
    hide Mapped;
  }

  lemma {:induction false} StretchIs(m: Mode, p: Patch, n: nat, within: Span)
    requires WellFormed(p) && within == Reach(RideScope(p, m.scope), m.capped, RideCover(p, m.capped, m.end, n), n)
    ensures within == m.Ridden(p, n) && within.start <= within.end <= n
  {}

  lemma {:induction false} BreaksIs(m: Mode, p: Patch, t: Text, within: Span)
    requires WellFormed(p) && EditsIn(p, |t|) && p != [] && !Idle(m.matcher, m.query) && within == m.Ridden(p, |t|)
    requires Works(m.matcher.value, m.query.value)
    ensures Breaks(m, p, t)
            <==> !SlicesAll(m.matcher.value, m.query.value, p, t, within, |p|, RideSet(p, SpanSet(m.found)))
    ensures Restored(m, p, t) == MendAll(m.matcher.value, m.query.value, p, t, within, |p|,
                                         RideSet(p, SpanSet(m.found)))
  {
    hide WellFormed, EditsIn, SlicesAll, MendAll, RideSet, Idle;
  }
}
