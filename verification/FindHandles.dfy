/**
 The match set in the store: the active match under its handle, the trimming to the cap, and what the
 mover, a removal and an insertion do to both.
 */
module FindHandles {
  import opened Base
  import opened Patches
  import opened DecorationItems
  import opened DecorationQueries
  import opened DecorationMoves
  import opened Decorations
  import opened FindScans
  import opened FindSets
  import opened FindRepair
  import opened FindLineRepair
  import opened FindCaps
  import opened FindMatches
  import opened FindModes
  import opened FindZones

  /** The live match a store holds for the active handle. */
  ghost predicate ActiveLives(v: seq<Tracked>, active: Option<nat>, start: Option<nat>) {
    && (active.Some? <==> start.Some?)
    && (active.Some? ==> exists r :: r in v && IsFind(r) && r.id == active.value && r.start == start.value)
  }

  /** If the store still holds the active identity, it is a match at the tracked start. */
  ghost predicate ActiveTracked(v: seq<Tracked>, next: nat, active: Option<nat>, start: Option<nat>) {
    && (active.Some? <==> start.Some?)
    && (active.Some? ==> active.value < next
                         && forall r | r in v && r.id == active.value :: IsFind(r) && r.start == start.value)
  }

  lemma {:induction false} LivesIsTracked(v: seq<Tracked>, next: nat, active: Option<nat>, start: Option<nat>)
    requires IsStore(v, next) && ActiveLives(v, active, start)
    ensures ActiveTracked(v, next, active, start)
  {
    if active.Some? {
      var r :| r in v && IsFind(r) && r.id == active.value && r.start == start.value;
      SameId(v, next, r);
    }
  }

  lemma {:induction false} SameId(v: seq<Tracked>, next: nat, r: Tracked)
    requires IsStore(v, next) && r in v
    ensures r.id < next && forall s | s in v && s.id == r.id :: s == r
  {
    hide Ordered;
    var i :| 0 <= i < |v| && v[i] == r;
    forall s | s in v && s.id == r.id ensures s == r {
      var j :| 0 <= j < |v| && v[j] == s;
    }
  }

  /** The active handle's start rides the same patch, with a match's own start bias. */
  lemma {:induction false} ActiveRides(p: Patch, v: seq<Tracked>, w: seq<Tracked>, next: nat, active: Option<nat>,
                                       start: Option<nat>)
    requires WellFormed(p) && IsStore(v, next) && FindsWell(v) && ActiveLives(v, active, start) && MovedAlike(p, v, w)
    ensures ActiveTracked(w, next, active, if start.Some? then Some(Mapped(p, start.value, Right)) else None)
  {
    hide Survives, MovedBy, Ride, Mapped, FindSet, Disjoint, IsStore;
    LivesIsTracked(v, next, active, start);
    if active.Some? {
      forall m | m in w && m.id == active.value ensures IsFind(m) && m.start == Mapped(p, start.value, Right) {
        if m in MovedBy(p, v) {
          MoveMembers(p, v, m);
          var i :| 0 <= i < |v| && Survives(p, v[i]) && m == Ride(p, v[i]);
          assert v[i] in v;
          RideStart(p, v[i]);
        } else {
          var r :| r in v && EmptyDrop(r) && r.id == m.id && r.kind == m.kind;
          FindNotEmpty(v, r);
        }
      }
    }
  }

  lemma {:induction false} FindNotEmpty(v: seq<Tracked>, r: Tracked)
    requires FindsWell(v) && r in v && IsFind(r)
    ensures r.start < r.end && !EmptyDrop(r)
  {
    SpanInFindSet(v, r);
    SolidFind(v, SpanOf(r));
  }

  /** The mover moves every match as the whole-store rewrite does, whatever else the store holds. */
  lemma {:induction false} FindsMoved(p: Patch, v: seq<Tracked>, w: seq<Tracked>)
    requires WellFormed(p) && FindsWell(v) && MovedAlike(p, v, w)
    ensures FindsWell(w) && FindSet(w) == RideSet(p, FindSet(v))
  {
    hide MovedBy, FindsWell, RideSet, FindSet;
    MoveEffect(p, v);
    forall m | IsFind(m) ensures m in w <==> m in MovedBy(p, v) {
      if m in w && m !in MovedBy(p, v) {
        var r :| r in v && EmptyDrop(r) && r.id == m.id && r.kind == m.kind;
        FindNotEmpty(v, r);
      }
    }
    SameFinds(MovedBy(p, v), w);
  }

  lemma {:induction false} SameFinds(v: seq<Tracked>, w: seq<Tracked>)
    requires FindsWell(v) && forall m | IsFind(m) :: m in w <==> m in v
    ensures FindsWell(w) && FindSet(w) == FindSet(v)
  {
    assert FindSet(w) == FindSet(v);
  }

  lemma {:induction false} RideStart(p: Patch, r: Tracked)
    requires WellFormed(p) && Survives(p, r)
    ensures Ride(p, r).id == r.id && (IsFind(Ride(p, r)) <==> IsFind(r))
    ensures IsFind(r) && r.stickiness.NeverGrows? ==> Ride(p, r).start == Mapped(p, r.start, Right)
  {
    hide Mapped, ReplacesWhole;
  }

  /** The match starting exactly at `start`. */
  method MatchAt(t: DTree, start: nat) returns (found: Option<Tracked>)
    requires SumTreesValid(t)
    ensures found.Some? ==> found.value in Ranges(t) && IsFind(found.value) && found.value.start == start
    ensures found.None? ==> forall r | r in Ranges(t) && IsFind(r) && r.end >= start :: r.start != start
  {
    hide DecorationsIn, Ranges, SumTreesValid;
    HitsIn(t, start, start);
    var hits := DecorationsIn(t, start, start);
    for i := 0 to |hits|
      invariant forall j | 0 <= j < i && IsFind(hits[j]) :: hits[j].start != start
    {
      assert hits[i] in hits;
      if IsFind(hits[i]) && hits[i].start == start { return Some(hits[i]); }
    }
    return None;
  }

  /** Whether a match with this identity touches `s`. */
  method IsPresent(t: DTree, s: nat, id: nat) returns (present: bool)
    requires SumTreesValid(t)
    ensures present <==> exists r :: r in Ranges(t) && Touches(r, s, s) && IsFind(r) && r.id == id
  {
    hide DecorationsIn, Ranges, SumTreesValid;
    HitsIn(t, s, s);
    var hits := DecorationsIn(t, s, s);
    for i := 0 to |hits|
      invariant forall j | 0 <= j < i :: !(IsFind(hits[j]) && hits[j].id == id)
    {
      assert hits[i] in hits;
      if IsFind(hits[i]) && hits[i].id == id { return true; }
    }
    return false;
  }

  /** Look an identity up among removed ranges. */
  method StartOf(removed: seq<Tracked>, id: nat) returns (start: Option<nat>)
    ensures start.Some? <==> exists r :: r in removed && r.id == id
    ensures start.Some? ==> exists r :: r in removed && r.id == id && r.start == start.value
  {
    for i := 0 to |removed|
      invariant forall j | 0 <= j < i :: removed[j].id != id
    {
      assert removed[i] in removed;
      if removed[i].id == id { return Some(removed[i].start); }
    }
    return None;
  }

  lemma {:induction false} TakenIsRemoved(v: seq<Tracked>, f: set<Span>, ws: nat, we: nat, removed: seq<Tracked>)
    requires FindSet(v) == f && removed == Select(v, Accepted(ws, we, IsFind))
    requires forall r :: r in removed <==> r in v && IsFind(r) && TouchesSpan(SpanOf(r), ws, we)
    ensures RemovedIs(removed, f, ws, we)
  {
    forall r | r in removed ensures Removed(f, ws, we, SpanOf(r)) {
      SpanInFindSet(v, r);
    }
    forall s | Removed(f, ws, we, s) ensures exists r :: r in removed && SpanOf(r) == s {
      var r := InFindSet(v, s);
    }
  }

  lemma {:induction false} RefusedIn(v: seq<Tracked>, qs: nat, qe: nat, pred: Tracked -> bool)
    ensures forall r | r in Select(v, Refused(qs, qe, pred)) :: r in v
  {
    forall r | r in Select(v, Refused(qs, qe, pred)) ensures r in v {
      SelectMembers(v, Refused(qs, qe, pred), r);
    }
  }

  ghost predicate EndsBy(f: set<Span>, n: nat) { forall s | s in f :: s.end <= n }

  // ----- the ranges that are no matches -----

  /** Every range that is no match is left alone. */
  ghost predicate OthersKept(v: seq<Tracked>, w: seq<Tracked>) {
    forall r | !IsFind(r) :: r in w <==> r in v
  }

  lemma {:induction false} OthersSame(v: seq<Tracked>)
    ensures OthersKept(v, v)
  {}

  lemma {:induction false} OthersChain(u: seq<Tracked>, v: seq<Tracked>, w: seq<Tracked>)
    requires OthersKept(u, v) && OthersKept(v, w)
    ensures OthersKept(u, w)
  {}

  lemma {:induction false} OthersStep(u: seq<Tracked>, v: seq<Tracked>, g: seq<Tracked>, w: seq<Tracked>, next: nat)
    requires OthersKept(u, v) && OthersKept(v, g) && Grown(g, w, next)
    ensures OthersKept(u, w)
  {}

  /** The mover moves the ranges that are no matches: none is lost, and beside them stay at most empty
      ranges of a dropping kind. */
  ghost predicate OthersMoved(p: Patch, v: seq<Tracked>, w: seq<Tracked>)
    requires WellFormed(p)
  {
    && (forall r | !IsFind(r) && r in MovedBy(p, v) :: r in w)
    && (forall r | !IsFind(r) && r in w :: r in MovedBy(p, v) || LeftBehind(v, r))
  }

  lemma {:induction false} OthersRide(p: Patch, v: seq<Tracked>, m: seq<Tracked>, w: seq<Tracked>)
    requires WellFormed(p) && MovedAlike(p, v, m) && OthersKept(m, w)
    ensures OthersMoved(p, v, w)
  {
    hide MovedBy, LeftBehind;
  }

  // ----- trimming to the cap -----

  /** The matches from a start on, as removal sees them. */
  function StartsFrom(from: nat): Tracked -> bool { r => IsFind(r) && r.start >= from }

  lemma {:induction false} TrimEffect(v: seq<Tracked>, from: nat)
    requires FindsWell(v) && EndsBy(FindSet(v), U32_MAX)
    ensures var w := Select(v, Refused(from, U32_MAX, StartsFrom(from)));
            FindsWell(w) && FindSet(w) == (set s | s in FindSet(v) && s.start < from) && OthersKept(v, w)
  {
    hide Select, Disjoint;
    var w := Select(v, Refused(from, U32_MAX, StartsFrom(from)));
    forall r ensures r in w <==> r in v && !(IsFind(r) && r.start >= from) {
      SelectMembers(v, Refused(from, U32_MAX, StartsFrom(from)), r);
      if r in v && IsFind(r) {
        SpanInFindSet(v, r);
        SolidFind(v, SpanOf(r));
      }
    }
    TrimmedSet(v, w, from);
    SubsetDisjoint(FindSet(w), FindSet(v));
  }

  lemma {:induction false} SolidFind(v: seq<Tracked>, s: Span)
    requires FindsWell(v) && s in FindSet(v)
    ensures s.start < s.end
  {}

  lemma {:induction false} TrimmedSet(v: seq<Tracked>, w: seq<Tracked>, from: nat)
    requires forall r :: r in w <==> r in v && !(IsFind(r) && r.start >= from)
    ensures FindSet(w) == set s | s in FindSet(v) && s.start < from
  {
    forall s | s in FindSet(w) ensures s in FindSet(v) && s.start < from {
      var r := InFindSet(w, s);
      SpanInFindSet(v, r);
    }
    forall s | s in FindSet(v) && s.start < from ensures s in FindSet(w) {
      var r := InFindSet(v, s);
      SpanInFindSet(w, r);
    }
  }

  lemma {:induction false} PrefixByStart(l: seq<Span>, n: nat)
    requires Apart(l) && n < |l| && forall s | s in l :: s.start < s.end
    ensures forall s :: s in l[..n] <==> s in l && s.start < l[n].start
  {
    forall i | 0 <= i < |l| ensures i < n <==> l[i].start < l[n].start {
      assert l[i] in l && l[n] in l;
      if i < n { assert l[i].end <= l[n].start; }
      if n < i { assert l[n].end <= l[i].start; }
    }
    forall s | s in l && s.start < l[n].start ensures s in l[..n] {
      var i :| 0 <= i < |l| && l[i] == s;
      assert l[..n][i] == s;
    }
    forall s | s in l[..n] ensures s in l && s.start < l[n].start {
      var i :| 0 <= i < n && l[..n][i] == s;
      assert l[i] == s;
    }
  }

  /** Cutting at the `n`-th match leaves the first `n`. */
  lemma {:induction false} TrimKeepsPrefix(v: seq<Tracked>, w: seq<Tracked>, n: nat)
    requires Ordered(v) && FindsWell(v) && Ordered(w) && FindsWell(w) && n < |Finds(v)|
    requires FindSet(w) == set s | s in FindSet(v) && s.start < Finds(v)[n].start
    ensures Found(w) == Found(v)[..n] && |Finds(w)| == n
  {
    hide Ordered, FindsWell, Apart, FindSet, Finds;
    FoundApart(v);
    FoundApart(w);
    var l := Found(v);
    PrefixByStart(l, n);
    ApartPrefix(l, n);
    forall s ensures s in SpanSet(l[..n]) <==> s in FindSet(w) {
      assert s in l <==> s in SpanSet(l);
    }
    ApartUnique(Found(w), l[..n]);
    assert |Found(w)| == |Finds(w)|;
  }

  /** Trim the tail so that the set stays a prefix of the document, a cap's worth long. */
  method TrimToCap(store: DecorationStore) returns (keptEnd: nat)
    requires store.Valid() && FindsWell(store.Contents()) && |Finds(store.Contents())| > FIND_MATCH_CAP
    requires EndsBy(FindSet(store.Contents()), U32_MAX)
    modifies store`tree
    ensures store.Valid() && FindsWell(store.Contents())
    ensures Found(store.Contents()) == old(Found(store.Contents()))[..FIND_MATCH_CAP]
    ensures |Finds(store.Contents())| == FIND_MATCH_CAP
    ensures forall r | r in store.Contents() :: r in old(store.Contents())
    ensures OthersKept(old(store.Contents()), store.Contents())
    ensures |Found(store.Contents())| == FIND_MATCH_CAP && keptEnd == Found(store.Contents())[FIND_MATCH_CAP - 1].end
  {
    hide FindsWell, Finds, Select, IsFind, EndsBy, FindSet, Found, Spans, Ranges, NthFind, Refused,
         StartsFrom, IsStore, Ordered, Accepted, OthersKept;
    ghost var v := store.Contents();
    NthFindCorrect(store.tree, FIND_MATCH_CAP - 1);
    NthFindCorrect(store.tree, FIND_MATCH_CAP);
    var kept := NthFind(store.tree, FIND_MATCH_CAP - 1);
    var firstTrimmed := NthFind(store.tree, FIND_MATCH_CAP);
    keptEnd := kept.value.1.end;
    var trimFrom := firstTrimmed.value.1.start;
    TrimEffect(v, trimFrom);
    RefusedIn(v, trimFrom, U32_MAX, StartsFrom(trimFrom));
    StoreOrdered(v, store.nextId);
    var trimmed := store.TakeMatchingIn(trimFrom, U32_MAX, StartsFrom(trimFrom));
    StoreOrdered(store.Contents(), store.nextId);
    TrimKeepsPrefix(v, store.Contents(), FIND_MATCH_CAP);
    FoundAt(v, FIND_MATCH_CAP - 1);
    FoundLength(store.Contents());
  }

  lemma {:induction false} StoreOrdered(v: seq<Tracked>, next: nat)
    requires IsStore(v, next)
    ensures Ordered(v)
  {}

  lemma {:induction false} ClampedLines(t: Text, scope: Span, e: Edit)
    requires e.ns <= e.ne <= |t|
    ensures var lines := WholeLines(t, Span(e.ns, e.ne));
            Span(Max(lines.start, scope.start), Min(lines.end, scope.end)) == LinesWindow(t, scope, e)
    ensures LinesWindow(t, scope, e).end <= |t|
  {
    WholeLinesIs(t, Span(e.ns, e.ne));
  }

  lemma {:induction false} AfterTake(v: seq<Tracked>, ws: nat, we: nat, removed: seq<Tracked>, w: seq<Tracked>)
    requires FindsWell(v) && removed == Select(v, Accepted(ws, we, IsFind)) && w == Select(v, Refused(ws, we, IsFind))
    ensures FindsWell(w) && FindSet(w) == WithoutTouching(FindSet(v), ws, we) && RemovedIs(removed, FindSet(v), ws, we)
    ensures forall r | r in w :: r in v
    ensures forall r | r in removed :: r in v
    ensures forall r | r in v :: r in w || r in removed
    ensures OthersKept(v, w)
  {
    hide Select, FindsWell, FindSet;
    TakeEffect(v, ws, we);
    TakenIsRemoved(v, FindSet(v), ws, we, removed);
    RefusedIn(v, ws, we, IsFind);
    forall r | r in v ensures r in w || r in removed {
      SelectMembers(v, Refused(ws, we, IsFind), r);
      SelectMembers(v, Accepted(ws, we, IsFind), r);
    }
  }

  /** The active match as the mover left it: still in the store under its handle, or carried off by
      a window with its start remembered. */
  ghost predicate HandleKept(v: seq<Tracked>, held: Option<(nat, nat)>, active: Option<nat>, start: Option<nat>,
                             released: Option<nat>) {
    if held.None? then released == None && (active.Some? ==> forall r | r in v :: r.id != active.value)
    else
      || (active == Some(held.value.0) && start == Some(held.value.1) && released == None
          && exists r :: r in v && IsFind(r) && r.id == held.value.0 && r.start == held.value.1)
      || (active == None && start == None && released == Some(held.value.1))
  }

  /** What releasing the handle does. */
  ghost predicate Released(removed: seq<Tracked>, active0: Option<nat>, start0: Option<nat>, was: Option<nat>,
                           active: Option<nat>, start: Option<nat>, released: Option<nat>) {
    if active0.Some? && exists r :: r in removed && r.id == active0.value then
      && active == None && start == None
      && exists r :: r in removed && r.id == active0.value && released == Some(r.start)
    else active == active0 && start == start0 && released == was
  }

  lemma {:induction false} HandleStep(v: seq<Tracked>, next: nat, removed: seq<Tracked>, w: seq<Tracked>,
                                      held: Option<(nat, nat)>, active0: Option<nat>, start0: Option<nat>,
                                      was: Option<nat>, active: Option<nat>, start: Option<nat>, released: Option<nat>)
    requires ActiveTracked(v, next, active0, start0) && HandleKept(v, held, active0, start0, was)
    requires (forall r | r in removed :: r in v) && (forall r | r in w :: r in v)
    requires forall r | r in v :: r in w || r in removed
    requires Released(removed, active0, start0, was, active, start, released)
    ensures HandleKept(w, held, active, start, released)
    ensures ActiveTracked(w, next, active, start)
  {}

  lemma {:induction false} HandleGrown(v: seq<Tracked>, w: seq<Tracked>, next: nat, next': nat,
                                       held: Option<(nat, nat)>, active: Option<nat>, start: Option<nat>,
                                       released: Option<nat>)
    requires ActiveTracked(v, next, active, start) && next <= next' && Grown(v, w, next)
    requires HandleKept(v, held, active, start, released)
    ensures HandleKept(w, held, active, start, released) && ActiveTracked(w, next', active, start)
  {}

  /** The handle as the mover leaves it. */
  ghost function HeldIn(v: seq<Tracked>, active: Option<nat>, start: Option<nat>): Option<(nat, nat)> {
    if active.Some? && start.Some? && exists r :: r in v && r.id == active.value
    then Some((active.value, start.value)) else None
  }

  lemma {:induction false} HandleStarts(v: seq<Tracked>, next: nat, active: Option<nat>, start: Option<nat>)
    requires ActiveTracked(v, next, active, start)
    ensures HandleKept(v, HeldIn(v, active, start), active, start, None)
  {}

  lemma {:induction false} Transferred(v: seq<Tracked>, next: nat, held: Option<(nat, nat)>, active: Option<nat>,
                                       start: Option<nat>, released: Option<nat>, found: Option<Tracked>)
    requires IsStore(v, next) && FindsWell(v) && HandleKept(v, held, active, start, released) && released.Some?
    requires found.Some? ==> found.value in v && IsFind(found.value) && found.value.start == released.value
    requires found.None? ==> forall r | r in v && IsFind(r) && r.end >= released.value :: r.start != released.value
    ensures held.Some? && held.value.1 == released.value && active == None
    ensures found.Some? ==> ActiveTracked(v, next, Some(found.value.id), Some(found.value.start))
    ensures found.None? ==> ActiveTracked(v, next, None, None)
    ensures found.None? ==> forall s | s in FindSet(v) :: s.start != released.value
  {
    hide Disjoint, IsStore;
    if found.Some? { SameId(v, next, found.value); }
    if found.None? {
      forall s | s in FindSet(v) ensures s.start != released.value {
        var r := InFindSet(v, s);
        SolidFind(v, s);
      }
    }
  }

  lemma {:induction false} Untransferred(v: seq<Tracked>, held: Option<(nat, nat)>, active: Option<nat>,
                                         start: Option<nat>)
    requires HandleKept(v, held, active, start, None)
    ensures held.Some? ==> active == Some(held.value.0) && start == Some(held.value.1)
    ensures held.Some? ==> exists r :: r in v && IsFind(r) && r.id == active.value
  {}

  lemma {:induction false} PresenceDecides(v: seq<Tracked>, next: nat, active: Option<nat>, start: Option<nat>)
    requires IsStore(v, next) && ActiveTracked(v, next, active, start)
    ensures active.Some? <==> start.Some?
    ensures active.Some? ==>
              ((exists r :: r in v && Touches(r, start.value, start.value) && IsFind(r) && r.id == active.value)
               ==> ActiveLives(v, active, start))
    ensures active.Some? ==>
              ((exists r :: r in v && IsFind(r) && r.id == active.value)
               ==> exists r :: r in v && Touches(r, start.value, start.value) && IsFind(r) && r.id == active.value)
  {
    hide Ordered, DistinctIds;
    forall r | r in v ensures r.start <= r.end {
      var i :| 0 <= i < |v| && v[i] == r;
    }
  }

  lemma {:induction false} ShrunkTracked(v: seq<Tracked>, w: seq<Tracked>, next: nat, active: Option<nat>,
                                         start: Option<nat>)
    requires ActiveTracked(v, next, active, start) && forall r | r in w :: r in v
    ensures ActiveTracked(w, next, active, start)
  {}

  lemma {:induction false} PickedLives(v: seq<Tracked>, i: nat)
    requires i < |Finds(v)|
    ensures ActiveLives(v, Some(Finds(v)[i].id), Some(Finds(v)[i].start))
  {
    hide Finds;
    assert Finds(v)[i] in Finds(v);
    FindsMembers(v, Finds(v)[i]);
  }

  lemma {:induction false} UnmovedActive(v: seq<Tracked>, next: nat, active: Option<nat>, start: Option<nat>)
    requires IsStore(v, next) && ActiveLives(v, active, start)
    ensures ActiveTracked(v, next, active, if start.Some? then Some(Mapped([], start.value, Right)) else None)
  {
    hide IsStore;
    LivesIsTracked(v, next, active, start);
    assert Shift([], 0) == 0;
  }

  /** What the mover hands to the repair, whatever else the store holds. */
  lemma {:induction false} MoverHandsOn(p: Patch, before: Text, t: Text, v: seq<Tracked>, w: seq<Tracked>, next: nat,
                                        active: Option<nat>, start: Option<nat>)
    requires WellFormed(p) && Rewrites(p, before, t) && IsStore(v, next) && FindsWell(v)
             && ActiveLives(v, active, start)
    requires if p == [] then w == v else MovedAlike(p, v, w)
    ensures FindsWell(w) && FindSet(w) == RideSet(p, FindSet(v)) && Disjoint(FindSet(v))
    ensures ActiveTracked(w, next, active, if start.Some? then Some(Mapped(p, start.value, Right)) else None)
  {
    hide Rewrites, WellFormed, MovedAlike, IsStore, FindSet, RideSet, ActiveTracked, Disjoint, Mapped;
    FindsDisjoint(v);
    if p == [] {
      EmptyPatch(before, t, FindSet(v));
      UnmovedActive(v, next, active, start);
    } else {
      FindsMoved(p, v, w);
      ActiveRides(p, v, w, next, active, start);
    }
  }

  lemma {:induction false} FindsDisjoint(v: seq<Tracked>)
    requires FindsWell(v)
    ensures Disjoint(FindSet(v))
  {}

  // ----- a fresh scan installed -----

  lemma {:induction false} StoreParts(store: DecorationStore)
    requires store.Valid()
    ensures IsStore(store.Contents(), store.nextId) && Ordered(store.Contents())
  {}

  lemma {:induction false} AllTaken(v: seq<Tracked>)
    requires FindsWell(v) && EndsBy(FindSet(v), U32_MAX)
    ensures WithoutTouching(FindSet(v), 0, U32_MAX) == {}
  {
    forall s | s in FindSet(v) ensures TouchesSpan(s, 0, U32_MAX) {
      assert s.start < s.end;
    }
  }

  /** Remove every match. */
  method ClearMatches(store: DecorationStore)
    requires store.Valid() && FindsWell(store.Contents()) && EndsBy(FindSet(store.Contents()), U32_MAX)
    modifies store`tree
    ensures store.Valid() && FindsWell(store.Contents()) && FindSet(store.Contents()) == {}
    ensures OthersKept(old(store.Contents()), store.Contents())
  {
    hide *;
    ghost var v := store.Contents();
    var removed := store.TakeMatchingIn(0, U32_MAX, IsFind);
    AfterTake(v, 0, U32_MAX, removed, store.Contents());
    AllTaken(v);
  }

  /** Where a span starting at `start` sits in a list. */
  method PositionOf(spans: seq<Span>, start: nat) returns (i: Option<nat>)
    ensures i.Some? ==> i.value < |spans| && spans[i.value].start == start
    ensures i.None? ==> forall s | s in spans :: s.start != start
  {
    for k := 0 to |spans|
      invariant forall j | 0 <= j < k :: spans[j].start != start
    {
      if spans[k].start == start { return Some(k); }
    }
    return None;
  }

  lemma {:induction false} MintedPresent(w: seq<Tracked>, spans: seq<Span>, next: nat, i: nat)
    requires i < |spans|
    ensures var r := Tracked(next + i, spans[i].start, spans[i].end, FindMatch, NeverGrows);
            r in SortRanges(w + Minted(spans, FindMatch, NeverGrows, next)) && IsFind(r)
  {
    hide SortRanges;
    InsertMembers(w, spans, next, Tracked(next + i, spans[i].start, spans[i].end, FindMatch, NeverGrows));
  }

  lemma {:induction false} InsertAllFresh(w: seq<Tracked>, spans: seq<Span>, next: nat)
    requires FindsWell(w) && FindSet(w) == {} && Apart(spans) && forall s | s in spans :: s.start < s.end
    ensures Upright(spans)
    ensures var x := SortRanges(w + Minted(spans, FindMatch, NeverGrows, next));
            FindsWell(x) && FindSet(x) == SpanSet(spans) && OthersKept(w, x)
  {
    hide FindsWell, Disjoint, SortRanges, Apart;
    ApartIsDisjoint(spans);
    assert FindSet(w) + SpanSet(spans) == SpanSet(spans);
    InsertAll(w, spans, next);
  }

  ghost predicate IsInstalled(v: seq<Tracked>, id: nat, start: nat) {
    exists r :: r in v && IsFind(r) && r.id == id && r.start == start
  }

  lemma {:induction false} InstalledLives(v: seq<Tracked>, id: nat, start: nat)
    requires IsInstalled(v, id, start)
    ensures ActiveLives(v, Some(id), Some(start))
  {}

  /** Some match starts here. */
  ghost predicate StartsAMatch(v: seq<Tracked>, start: nat) {
    exists s :: s in Found(v) && s.start == start
  }

  /** A fresh scan keeps the active match exactly when a match still starts where it started. */
  lemma {:induction false} ActiveSurvives(v0: seq<Tracked>, next: nat, active: Option<nat>, oldStart: Option<nat>,
                                          v: seq<Tracked>, i: Option<nat>, start: Option<nat>)
    requires IsStore(v0, next)
    requires oldStart.Some? ==> active.Some? && exists r :: r in v0 && r.id == active.value && r.start == oldStart.value
    requires oldStart.None? ==> forall r | r in v0 :: active != Some(r.id)
    requires oldStart.None? ==> start == None
    requires oldStart.Some? && i.Some? ==>
             i.value < |Found(v)| && Found(v)[i.value].start == oldStart.value && start == oldStart
    requires oldStart.Some? && i.None? ==> start == None && forall s | s in Found(v) :: s.start != oldStart.value
    ensures forall r | r in v0 && active == Some(r.id) ::
              start == if StartsAMatch(v, r.start) then Some(r.start) else None
  {
    hide Found, Ordered, UprightRanges;
    forall r | r in v0 && active == Some(r.id)
      ensures start == if StartsAMatch(v, r.start) then Some(r.start) else None
    {
      var q :| q in v0 && q.id == active.value && q.start == oldStart.value;
      SameIdSameRange(v0, q, r);
      if i.Some? { assert Found(v)[i.value] in Found(v); }
    }
  }

  lemma {:induction false} SameIdSameRange(v: seq<Tracked>, a: Tracked, b: Tracked)
    requires DistinctIds(v) && a in v && b in v && a.id == b.id
    ensures a == b
  {
    var i :| 0 <= i < |v| && v[i] == a;
    var j :| 0 <= j < |v| && v[j] == b;
  }

  lemma {:induction false} NoneLives(v: seq<Tracked>)
    ensures ActiveLives(v, None, None)
  {}

  /** Install a fresh set in a store without matches. */
  method InstallFresh(store: DecorationStore, spans: seq<Span>) returns (ids: seq<nat>)
    requires store.Valid() && FindsWell(store.Contents()) && FindSet(store.Contents()) == {}
    requires Apart(spans) && forall s | s in spans :: s.start < s.end
    modifies store
    ensures store.Valid() && FindsWell(store.Contents()) && FindSet(store.Contents()) == SpanSet(spans)
    ensures |ids| == |spans| && forall i | 0 <= i < |ids| :: IsInstalled(store.Contents(), ids[i], spans[i].start)
    ensures OthersKept(old(store.Contents()), store.Contents())
  {
    hide FindsWell, DecorationStore.Contents, FindSet, Apart, SpanSet, Upright, SortRanges, Minted,
         DecorationStore.Valid, IsFind, OthersKept;
    ghost var w, next := store.Contents(), store.nextId;
    InsertAllFresh(w, spans, next);
    ids := store.AddSortedBatch(spans, FindMatch, NeverGrows);
    forall i | 0 <= i < |ids| ensures IsInstalled(store.Contents(), ids[i], spans[i].start) {
      MintedPresent(w, spans, next, i);
    }
  }

  /** An active match the mover kept is still active if a match starts where it now starts. */
  ghost predicate ActivePersists(p: Patch, v0: seq<Tracked>, f: set<Span>, active0: Option<nat>, start0: Option<nat>,
                                 active: Option<nat>, start: Option<nat>)
    requires WellFormed(p)
  {
    active0.Some? && start0.Some? && (exists r :: r in v0 && r.id == active0.value)
    && (exists s :: s in f && s.start == Mapped(p, start0.value, Right))
    ==> active.Some? && start == Some(Mapped(p, start0.value, Right))
  }

  lemma {:induction false} Persists(p: Patch, v0: seq<Tracked>, f: set<Span>, active0: Option<nat>, start0: Option<nat>,
                                    held: Option<(nat, nat)>, active: Option<nat>, start: Option<nat>)
    requires WellFormed(p)
    requires held == HeldIn(v0, active0, match start0 case None => None case Some(s) => Some(Mapped(p, s, Right)))
    ensures (held.Some? && (exists s :: s in f && s.start == held.value.1) ==>
             active.Some? && start == Some(held.value.1))
            ==> ActivePersists(p, v0, f, active0, start0, active, start)
  {
    hide Mapped;
  }

  /** Trimming the tail leaves the active match alone if a match still starts where it does. */
  lemma {:induction false} TrimSparesActive(v: seq<Tracked>, w: seq<Tracked>, held: Option<(nat, nat)>,
                                            active: Option<nat>, start: Option<nat>, next: nat)
    requires FindsWell(v) && (forall r | r in w :: r in v) && ActiveTracked(v, next, active, start)
    requires held.Some? && (exists s :: s in FindSet(v) && s.start == held.value.1) ==>
             active.Some? && start == Some(held.value.1)
    requires held.Some? && active.Some? ==> exists r :: r in v && IsFind(r) && r.id == active.value
    ensures held.Some? && (exists s :: s in FindSet(w) && s.start == held.value.1) ==>
              active.Some? && start == Some(held.value.1) && exists r :: r in w && IsFind(r) && r.id == active.value
  {
    hide Disjoint;
    if held.Some? && exists s :: s in FindSet(w) && s.start == held.value.1 {
      var s :| s in FindSet(w) && s.start == held.value.1;
      var m := InFindSet(w, s);
      SpanInFindSet(v, m);
      var r :| r in v && IsFind(r) && r.id == active.value;
      OneFindAStart(v, r, m);
    }
  }

  lemma {:induction false} OneFindAStart(v: seq<Tracked>, a: Tracked, b: Tracked)
    requires FindsWell(v) && a in v && b in v && IsFind(a) && IsFind(b) && a.start == b.start
    ensures a == b
  {
    SpanInFindSet(v, a);
    SpanInFindSet(v, b);
    if SpanOf(a) != SpanOf(b) { assert Overlap(SpanOf(a), SpanOf(b)); }
  }

  lemma {:induction false} EndsLater(f: set<Span>, a: nat, b: nat)
    requires EndsBy(f, a) && a <= b
    ensures EndsBy(f, b)
  {}

  lemma {:induction false} ShrunkEnds(v: seq<Tracked>, w: seq<Tracked>, n: nat)
    requires EndsBy(FindSet(v), n) && forall r | r in w :: r in v
    ensures EndsBy(FindSet(w), n)
  {
    forall s | s in FindSet(w) ensures s.end <= n {
      var r := InFindSet(w, s);
      SpanInFindSet(v, r);
    }
  }
}
