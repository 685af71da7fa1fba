/**
 The repair of one edit on the store, through its windowed queries, removal and insertion.
 */
module FindZones {
  import opened Base
  import opened Patches
  import opened TextBounds
  import opened DecorationItems
  import opened DecorationQueries
  import opened Decorations
  import opened TextRows
  import opened FindScans
  import opened FindSets
  import opened FindRepair
  import opened FindLines
  import opened FindLineRepair
  import opened FindCaps
  import opened FindMends
  import SumTrees

  // ----- reading the store -----

  lemma {:induction false} HitsIn(t: DTree, qs: nat, qe: nat)
    requires SumTreesValid(t)
    ensures forall r :: r in DecorationsIn(t, qs, qe) <==> r in Ranges(t) && Touches(r, qs, qe)
  {
    hide SumTrees.Valid, DecorationsIn, Ranges, Decode, SumTrees.Items, Touches, Select, Touching;
    DecorationsInIsLinear(t, qs, qe);
    forall r ensures r in DecorationsIn(t, qs, qe) <==> r in Ranges(t) && Touches(r, qs, qe) {
      TouchMember(Ranges(t), r, qs, qe);
    }
  }

  ghost predicate SumTreesValid(t: DTree) { SumTrees.Valid(DECOS, t) }

  lemma {:induction false} TouchMember(v: seq<Tracked>, r: Tracked, qs: nat, qe: nat)
    ensures r in Select(v, Touching(qs, qe)) <==> r in v && Touches(r, qs, qe)
  {
    SelectMembers(v, Touching(qs, qe), r);
  }

  /** The lowest start, and the highest end, of some ranges, if beyond the given bounds. */
  method Extents(rs: seq<Tracked>, lo: nat, hi: nat) returns (a: nat, b: nat)
    ensures a <= lo && hi <= b
    ensures forall r | r in rs :: a <= r.start && r.end <= b
    ensures a == lo || exists r :: r in rs && r.start == a
    ensures b == hi || exists r :: r in rs && r.end == b
    ensures rs == [] ==> a == lo && b == hi
  {
    a, b := lo, hi;
    for i := 0 to |rs|
      invariant a <= lo && hi <= b
      invariant forall j | 0 <= j < i :: a <= rs[j].start && rs[j].end <= b
      invariant a == lo || exists r :: r in rs && r.start == a
      invariant b == hi || exists r :: r in rs && r.end == b
    {
      assert rs[i] in rs;
      if rs[i].start < a { a := rs[i].start; }
      if rs[i].end > b { b := rs[i].end; }
    }
  }

  /** The last end among the matches touching `qs..=qe`. */
  method LastFindEnd(t: DTree, qs: nat, qe: nat) returns (e: Option<nat>)
    requires SumTreesValid(t)
    ensures e.Some? ==> exists r :: r in Ranges(t) && IsFind(r) && Touches(r, qs, qe) && r.end == e.value
    ensures forall r | r in Ranges(t) && IsFind(r) && Touches(r, qs, qe) :: e.Some? && r.end <= e.value
  {
    hide DecorationsIn, Ranges, SumTreesValid;
    HitsIn(t, qs, qe);
    var hits := DecorationsIn(t, qs, qe);
    e := None;
    for i := 0 to |hits|
      invariant e.Some? ==> exists r :: r in Ranges(t) && IsFind(r) && Touches(r, qs, qe) && r.end == e.value
      invariant forall j | 0 <= j < i && IsFind(hits[j]) :: e.Some? && hits[j].end <= e.value
    {
      assert hits[i] in hits;
      if IsFind(hits[i]) && (e.None? || hits[i].end > e.value) {
        e := Some(hits[i].end);
      }
    }
  }

  /** The first start at or after `qs` among the matches touching `qs..=qe`. */
  method FirstFindStart(t: DTree, qs: nat, qe: nat) returns (s: Option<nat>)
    requires SumTreesValid(t)
    ensures s.Some? ==> exists r :: r in Ranges(t) && IsFind(r) && qs <= r.start <= qe && r.start == s.value
    ensures forall r | r in Ranges(t) && IsFind(r) && qs <= r.start <= qe && r.end >= qs ::
            s.Some? && s.value <= r.start
  {
    hide DecorationsIn, Ranges, SumTreesValid;
    HitsIn(t, qs, qe);
    var hits := DecorationsIn(t, qs, qe);
    s := None;
    for i := 0 to |hits|
      invariant s.Some? ==> exists r :: r in Ranges(t) && IsFind(r) && qs <= r.start <= qe && r.start == s.value
      invariant forall j | 0 <= j < i && IsFind(hits[j]) && hits[j].start >= qs :: s.Some? && s.value <= hits[j].start
    {
      assert hits[i] in hits;
      if IsFind(hits[i]) && hits[i].start >= qs && (s.None? || hits[i].start < s.value) {
        s := Some(hits[i].start);
      }
    }
  }

  /** Drop the matches that end past the guard. */
  method KeepBefore(spans: seq<Span>, limit: nat) returns (r: seq<Span>)
    requires Apart(spans)
    ensures Apart(r) && forall s :: s in r <==> s in spans && s.end <= limit
    ensures (forall s | s in spans :: s.end <= limit) ==> r == spans
  {
    r := [];
    for i := 0 to |spans|
      invariant Apart(r) && forall s :: s in r <==> s in spans[..i] && s.end <= limit
      invariant (forall s | s in spans :: s.end <= limit) ==> r == spans[..i]
    {
      assert spans[..i + 1] == spans[..i] + [spans[i]];
      if spans[i].end <= limit {
        forall s | s in r ensures s.end <= spans[i].start {
          var j :| 0 <= j < i && spans[..i][j] == s;
          assert spans[j].end <= spans[i].start;
        }
        ApartSnoc(r, spans[i]);
        r := r + [spans[i]];
      }
    }
    assert spans[..|spans|] == spans;
  }

  lemma {:induction false} ApartSnoc(g: seq<Span>, m: Span)
    requires Apart(g) && forall s | s in g :: s.end <= m.start
    ensures Apart(g + [m])
  {
    ApartConcat(g, [m]);
  }

  // ----- the zone -----

  /** Removed matches, as the store returned them. */
  ghost predicate RemovedIs(removed: seq<Tracked>, f: set<Span>, ws: nat, we: nat) {
    && (forall r | r in removed :: Removed(f, ws, we, SpanOf(r)))
    && (forall s | Removed(f, ws, we, s) :: exists r :: r in removed && SpanOf(r) == s)
  }

  /** The extents of what was removed are the zone's. */
  lemma {:induction false} ExtentsAre(t: Text, q: Query, scope: Span, removed: seq<Tracked>, f: set<Span>, ws: nat,
                                      we: nat, a: nat, b: nat)
    requires q.needle != [] && RemovedIs(removed, f, ws, we) && a <= ws && we <= b
    requires forall r | r in removed :: a <= r.start && r.end <= b
    requires a == ws || exists r :: r in removed && r.start == a
    requires b == we || exists r :: r in removed && r.end == b
    ensures ZoneAround(t, q, scope, f, ws, we).extLo == a && ZoneAround(t, q, scope, f, ws, we).extHi == b
  {
    hide ZoneLo, ZoneHi;
    var los := set s | s in f && TouchesSpan(s, ws, we) :: s.start;
    var his := set s | s in f && TouchesSpan(s, ws, we) :: s.end;
    forall s | s in f && TouchesSpan(s, ws, we) ensures a <= s.start && s.end <= b {
      assert Removed(f, ws, we, s);
      var r :| r in removed && SpanOf(r) == s;
    }
    if a != ws {
      var r :| r in removed && r.start == a;
      assert Removed(f, ws, we, SpanOf(r)) && SpanOf(r).start in los;
    }
    if b != we {
      var r :| r in removed && r.end == b;
      assert Removed(f, ws, we, SpanOf(r)) && SpanOf(r).end in his;
    }
  }

  /** The last end found in the left margin is where the scan starts. */
  lemma {:induction false} AnchorFound(v: seq<Tracked>, g: set<Span>, lo0: nat, extLo: nat, anchor: Option<nat>)
    requires FindSet(v) == g
    requires anchor.Some? ==> exists r :: r in v && IsFind(r) && Touches(r, lo0, extLo) && r.end == anchor.value
    requires forall r | r in v && IsFind(r) && Touches(r, lo0, extLo) :: anchor.Some? && r.end <= anchor.value
    ensures (if anchor.Some? then Max(anchor.value, lo0) else lo0)
            == Greatest(set s | s in g && s.start <= extLo && s.end >= lo0 :: s.end, lo0)
  {
    var ends := set s | s in g && s.start <= extLo && s.end >= lo0 :: s.end;
    forall s | s in g && s.start <= extLo && s.end >= lo0 ensures anchor.Some? && s.end <= anchor.value {
      var r := InFindSet(v, s);
    }
    if anchor.Some? {
      var r :| r in v && IsFind(r) && Touches(r, lo0, extLo) && r.end == anchor.value;
      SpanInFindSet(v, r);
      assert SpanOf(r).end in ends;
    }
  }

  /** The first start found from the zone on is where its matches must end. */
  lemma {:induction false} GuardFound(v: seq<Tracked>, g: set<Span>, extHi: nat, hi: nat, guard: Option<nat>)
    requires FindSet(v) == g && FindsWell(v)
    requires guard.Some? ==> exists r :: r in v && IsFind(r) && extHi <= r.start <= hi && r.start == guard.value
    requires forall r | r in v && IsFind(r) && extHi <= r.start <= hi && r.end >= extHi ::
             guard.Some? && guard.value <= r.start
    ensures (if guard.Some? then guard.value else hi)
            == Least(set s | s in g && extHi <= s.start <= hi :: s.start, hi)
  {
    var starts := set s | s in g && extHi <= s.start <= hi :: s.start;
    forall s | s in g && extHi <= s.start <= hi ensures guard.Some? && guard.value <= s.start {
      var r := InFindSet(v, s);
      assert s.start < s.end;
    }
    if guard.Some? {
      var r :| r in v && IsFind(r) && extHi <= r.start <= hi && r.start == guard.value;
      SpanInFindSet(v, r);
      assert SpanOf(r).start in starts;
    }
  }

  /** The zone's scan bounds: `k - 1` bytes beyond the removed extents, from the last match surviving in the
      left margin to the first surviving right of the zone. */
  method ZoneBounds(t: Text, q: Query, scope: Span, store: DecorationStore, extLo: nat, extHi: nat, ghost ws: nat,
                    ghost we: nat, ghost f: set<Span>)
    returns (scanLo: nat, scanHi: nat, limit: nat)
    requires q.needle != [] && scope.end <= |t|
    requires ZoneAround(t, q, scope, f, ws, we).extLo == extLo && ZoneAround(t, q, scope, f, ws, we).extHi == extHi
    requires store.Valid() && FindsWell(store.Contents()) && FindSet(store.Contents()) == WithoutTouching(f, ws, we)
    ensures ZoneAround(t, q, scope, f, ws, we) == Bounds(extLo, extHi, scanLo, scanHi, limit)
  {
    hide Zone, FindSet, WithoutTouching, ClipLeft, SatSub, ClipRight, Ranges, IsFind, Touches, FindsWell;
    var k := |q.needle|;
    var scanLo0 := Max(ClipLeft(t, SatSub(extLo, k - 1)), scope.start);
    scanHi := Min(ClipRight(t, Min(extHi + (k - 1), scope.end)), scope.end);
    var anchor := LastFindEnd(store.tree, scanLo0, extLo);
    scanLo := if anchor.Some? then Max(anchor.value, scanLo0) else scanLo0;
    AnchorFound(store.Contents(), WithoutTouching(f, ws, we), scanLo0, extLo, anchor);
    var guard := FirstFindStart(store.tree, extHi, scanHi);
    GuardFound(store.Contents(), WithoutTouching(f, ws, we), extHi, scanHi, guard);
    limit := if guard.Some? then guard.value else scanHi;
  }

  // ----- the re-scan and the insertion -----

  /** Everything stays; what is new is a match under a new identity. */
  ghost predicate Grown(v: seq<Tracked>, w: seq<Tracked>, next: nat) {
    && (forall r | r in v :: r in w)
    && (forall r | r in w :: r in v || (IsFind(r) && r.id >= next))
  }

  /** Install a batch of new matches. */
  method InstallMatches(store: DecorationStore, spans: seq<Span>)
    requires store.Valid() && FindsWell(store.Contents()) && Apart(spans) && (forall s | s in spans :: s.start < s.end)
    requires Disjoint(FindSet(store.Contents()) + SpanSet(spans))
    requires forall s | s in spans :: s !in FindSet(store.Contents())
    modifies store
    ensures store.Valid() && FindsWell(store.Contents()) && store.nextId >= old(store.nextId)
    ensures FindSet(store.Contents()) == old(FindSet(store.Contents())) + SpanSet(spans)
    ensures Grown(old(store.Contents()), store.Contents(), old(store.nextId))
  {
    hide *;
    ghost var v := store.Contents();
    InsertAll(v, spans, store.nextId);
    var ids := store.SpliceSortedBatch(spans, FindMatch, NeverGrows);
  }

  lemma {:induction false} InsertAll(v: seq<Tracked>, spans: seq<Span>, next: nat)
    requires FindsWell(v) && Apart(spans) && (forall s | s in spans :: s.start < s.end)
    requires Disjoint(FindSet(v) + SpanSet(spans)) && forall s | s in spans :: s !in FindSet(v)
    ensures Upright(spans) && Rising(spans)
    ensures var w := SortRanges(v + Minted(spans, FindMatch, NeverGrows, next));
            FindsWell(w) && FindSet(w) == FindSet(v) + SpanSet(spans) && Grown(v, w, next)
  {
    hide SortRanges, FindsWell, Disjoint, FindSet;
    ApartRises(spans);
    InsertEffect(v, spans, next);
    var w := SortRanges(v + Minted(spans, FindMatch, NeverGrows, next));
    forall r ensures r in w <==> r in v || exists k | 0 <= k < |spans| ::
        r == Tracked(next + k, spans[k].start, spans[k].end, FindMatch, NeverGrows)
    {
      InsertMembers(v, spans, next, r);
    }
  }

  lemma {:induction false} ApartRises(spans: seq<Span>)
    requires Apart(spans) && forall s | s in spans :: s.start < s.end
    ensures Upright(spans) && Rising(spans) && DistinctSpans(spans)
  {
    forall i | 0 <= i < |spans| ensures spans[i].start < spans[i].end {
      assert spans[i] in spans;
    }
    forall i, j | 0 <= i < j < |spans| ensures spans[i].start < spans[j].start {
      assert spans[i].end <= spans[j].start;
    }
  }

  /** The zone's greedy matches up to the guard, at most a cap's worth of them scanned. */
  method ScanZone(t: Text, q: Query, scanLo: nat, scanHi: nat, limit: nat) returns (spans: seq<Span>)
    requires q.needle != [] && scanLo <= scanHi <= |t| && Sliceable(t, scanLo, scanHi)
    ensures Apart(spans) && Solids(spans)
    ensures forall s :: s in spans <==> s in FirstMatches(Greedy(t, q, scanLo, scanHi)) && s.end <= limit
  {
    if scanLo == scanHi { return []; }
    hide HitAt, Apart, Solids, Boundary, Greedy, FIND_MATCH_CAP;
    var found, capped := ScanWindow(t, q, scanLo, scanHi, FIND_MATCH_CAP);
    ghost var all := Greedy(t, q, scanLo, scanHi);
    ZoneFacts(t, q, scanLo, scanHi);
    StoppedIsFirst(all, found, capped);
    PrefixSolid(all, |FirstMatches(all)|);
    spans := KeepBefore(found, limit);
    KeptSolid(found, spans);
  }

  /** A scan that stops at the cap lists its first matches, and says whether there are more. */
  lemma {:induction false} StoppedIsFirst(all: seq<Span>, spans: seq<Span>, capped: bool)
    requires StoppedAt(all, FIND_MATCH_CAP, spans, capped)
    ensures spans == FirstMatches(all) && (capped <==> |all| > FIND_MATCH_CAP)
    ensures |FirstMatches(all)| <= |all| && FirstMatches(all) == all[..|FirstMatches(all)|]
  {}

  lemma {:induction false} KeptSolid(found: seq<Span>, spans: seq<Span>)
    requires Solids(found) && forall s | s in spans :: s in found
    ensures Solids(spans)
  {}

  /** The literal repair of one edit, once its window has been cleared.  It fails where the source slices
      the text inside a character. */
  method RescanZone(t: Text, q: Query, scope: Span, store: DecorationStore, ws: nat, we: nat, removed: seq<Tracked>,
                    ghost f: set<Span>)
    returns (ok: bool)
    requires q.needle != [] && scope.start <= ws <= we <= scope.end <= |t|
    requires Disjoint(f) && forall s | s in f :: Within(s, scope)
    requires store.Valid() && FindsWell(store.Contents())
    requires FindSet(store.Contents()) == WithoutTouching(f, ws, we) && RemovedIs(removed, f, ws, we)
    modifies store
    ensures store.Valid() && FindsWell(store.Contents()) && store.nextId >= old(store.nextId)
    ensures var z := ZoneAround(t, q, scope, f, ws, we);
            && (ok <==> Sliceable(t, z.lo, z.hi))
            && (ok ==> FindSet(store.Contents()) == WithoutTouching(f, ws, we) + Refound(t, q, z))
    ensures Grown(old(store.Contents()), store.Contents(), old(store.nextId))
  {
    hide Zone, FindSet, WithoutTouching, Boundary, Disjoint, FindsWell, ZoneAround, Greedy, Refound, Grown, Apart,
         Solids, FromAnchor, UpToGuard, FirstMatches, RemovedIs, IsStore;
    var extLo, extHi := Extents(removed, ws, we);
    ExtentsAre(t, q, scope, removed, f, ws, we, extLo, extHi);
    var scanLo, scanHi, limit := ZoneBounds(t, q, scope, store, extLo, extHi, ws, we, f);
    ZoneHolds(t, q, scope, f, ws, we);
    GrownNot(store.Contents(), store.nextId);
    ok := Sliceable(t, scanLo, scanHi);
    if !ok { return; }
    var spans := ScanZone(t, q, scanLo, scanHi, limit);
    RefoundListed(t, q, Bounds(extLo, extHi, scanLo, scanHi, limit), spans);
    RefoundFits(t, q, scope, f, ws, we);
    SolidAll(spans);
    InstallMatches(store, spans);
  }

  lemma {:induction false} GrownNot(v: seq<Tracked>, next: nat)
    ensures Grown(v, v, next)
  {}

  lemma {:induction false} RefoundListed(t: Text, q: Query, z: Bounds, spans: seq<Span>)
    requires q.needle != [] && z.hi <= |t|
    requires forall s :: s in spans <==> s in FirstMatches(Greedy(t, q, z.lo, z.hi)) && s.end <= z.limit
    ensures SpanSet(spans) == Refound(t, q, z) && forall s :: s in spans <==> s in Refound(t, q, z)
  {
    hide Greedy, FirstMatches;
  }

  lemma {:induction false} SolidAll(spans: seq<Span>)
    requires Solids(spans)
    ensures forall s | s in spans :: s.start < s.end
  {}

  /** The line-scoped repair of one edit, once its lines have been cleared. */
  method RescanLines(t: Text, m: LineMatcher, scope: Span, store: DecorationStore, w: Span, ghost e: Edit,
                     ghost f: set<Span>)
    requires IsMatcher(m) && e.ns <= e.ne <= |t| && w == LinesWindow(t, scope, e) && w.start <= w.end <= |t|
    requires Disjoint(f) && store.Valid() && FindsWell(store.Contents())
    requires FindSet(store.Contents()) == WithoutTouching(f, w.start, w.end)
    modifies store
    ensures store.Valid() && FindsWell(store.Contents()) && store.nextId >= old(store.nextId)
    ensures FindSet(store.Contents()) == LinesMended(t, m, scope, e, f)
    ensures Grown(old(store.Contents()), store.Contents(), old(store.nextId))
  {
    hide *;
    LinesMendedIs(t, m, scope, e, f);
    LinesFitted(t, m, scope, e, f);
    var spans, capped := ScanBufferLines(t, m, FIND_MATCH_CAP, w);
    StoppedIsFirst(Scoped(t, m, LineLo(t, w.start), w), spans, capped);
    InstallMatches(store, spans);
  }
}
