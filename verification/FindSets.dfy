/**
 The match set lives only in the decoration store.  This module says what each store operation
 does to it.
 */
module FindSets {
  import opened Base
  import opened Patches
  import opened DecorationItems
  import opened DecorationQueries
  import opened DecorationMoves
  import opened Decorations

  predicate Overlap(a: Span, b: Span) { a.start < b.end && b.start < a.end }

  predicate TouchesSpan(s: Span, qs: nat, qe: nat) { s.start <= qe && s.end >= qs }

  predicate Within(s: Span, scope: Span) { scope.start <= s.start && s.end <= scope.end }

  function SpanOf(r: Tracked): Span { Span(r.start, r.end) }

  /** The find matches of a store, as spans. */
  ghost function FindSet(v: seq<Tracked>): set<Span> {
    set r | r in v && IsFind(r) :: SpanOf(r)
  }

  /** Pairwise disjoint, none empty. */
  ghost predicate Disjoint(f: set<Span>) {
    && (forall a | a in f :: a.start < a.end)
    && (forall a, b | a in f && b in f && a != b :: !Overlap(a, b))
  }

  /** The finds of a store are non-empty, pairwise disjoint, and grow at neither edge. */
  ghost predicate FindsWell(v: seq<Tracked>) {
    && (forall r | r in v && IsFind(r) :: r.stickiness.NeverGrows?)
    && (forall r, s | r in v && s in v && IsFind(r) && IsFind(s) && SpanOf(r) == SpanOf(s) :: r == s)
    && Disjoint(FindSet(v))
  }

  lemma {:induction false} InFindSet(v: seq<Tracked>, s: Span) returns (r: Tracked)
    requires s in FindSet(v)
    ensures r in v && IsFind(r) && SpanOf(r) == s
  {
    r :| r in v && IsFind(r) && SpanOf(r) == s;
  }

  lemma {:induction false} SpanInFindSet(v: seq<Tracked>, r: Tracked)
    requires r in v && IsFind(r)
    ensures SpanOf(r) in FindSet(v)
  {}

  // ----- removal -----

  function WithoutTouching(f: set<Span>, qs: nat, qe: nat): set<Span> {
    set s | s in f && !TouchesSpan(s, qs, qe)
  }

  lemma {:induction false} TakeEffect(v: seq<Tracked>, qs: nat, qe: nat)
    requires FindsWell(v)
    ensures var w := Select(v, Refused(qs, qe, IsFind));
            FindsWell(w) && FindSet(w) == WithoutTouching(FindSet(v), qs, qe)
    ensures forall r ::
              r in Select(v, Accepted(qs, qe, IsFind)) <==> r in v && IsFind(r) && TouchesSpan(SpanOf(r), qs, qe)
  {
    hide Select;
    var w := Select(v, Refused(qs, qe, IsFind));
    forall r ensures r in w <==> r in v && !(IsFind(r) && TouchesSpan(SpanOf(r), qs, qe)) {
      SelectMembers(v, Refused(qs, qe, IsFind), r);
    }
    forall r
      ensures r in Select(v, Accepted(qs, qe, IsFind)) <==> r in v && IsFind(r) && TouchesSpan(SpanOf(r), qs, qe)
    {
      SelectMembers(v, Accepted(qs, qe, IsFind), r);
    }
    assert FindSet(w) == WithoutTouching(FindSet(v), qs, qe);
  }

  // ----- insertion -----

  function SpanSet(spans: seq<Span>): set<Span> { set s | s in spans }

  lemma {:induction false} InsertMembers(v: seq<Tracked>, spans: seq<Span>, next: nat, r: Tracked)
    ensures r in SortRanges(v + Minted(spans, FindMatch, NeverGrows, next)) <==>
              r in v || exists i | 0 <= i < |spans| ::
                r == Tracked(next + i, spans[i].start, spans[i].end, FindMatch, NeverGrows)
  {
    hide SortRanges;
    var m := Minted(spans, FindMatch, NeverGrows, next);
    MemberOf(r, SortRanges(v + m), v + m);
    if i: nat :| i < |spans| && r == Tracked(next + i, spans[i].start, spans[i].end, FindMatch, NeverGrows) {
      assert m[i] == r;
    }
  }

  ghost predicate DistinctSpans(spans: seq<Span>) {
    forall i, j | 0 <= i < j < |spans| :: spans[i] != spans[j]
  }

  lemma {:induction false} InsertEffect(v: seq<Tracked>, spans: seq<Span>, next: nat)
    requires FindsWell(v) && DistinctSpans(spans)
    requires forall s | s in spans :: s !in FindSet(v)
    requires Disjoint(FindSet(v) + SpanSet(spans))
    ensures var w := SortRanges(v + Minted(spans, FindMatch, NeverGrows, next));
            FindsWell(w) && FindSet(w) == FindSet(v) + SpanSet(spans)
  {
    hide SortRanges, Disjoint;
    var w := SortRanges(v + Minted(spans, FindMatch, NeverGrows, next));
    forall r ensures r in w <==> r in v || exists i | 0 <= i < |spans| ::
        r == Tracked(next + i, spans[i].start, spans[i].end, FindMatch, NeverGrows)
    {
      InsertMembers(v, spans, next, r);
    }
    InsertedSet(v, spans, next, w);
    forall r, s | r in w && s in w && IsFind(r) && IsFind(s) && SpanOf(r) == SpanOf(s) ensures r == s {
      if r in v { SpanInFindSet(v, r); }
      if s in v { SpanInFindSet(v, s); }
    }
  }

  lemma {:induction false} InsertedSet(v: seq<Tracked>, spans: seq<Span>, next: nat, w: seq<Tracked>)
    requires forall r :: r in w <==> r in v || exists i | 0 <= i < |spans| ::
                r == Tracked(next + i, spans[i].start, spans[i].end, FindMatch, NeverGrows)
    ensures FindSet(w) == FindSet(v) + SpanSet(spans)
  {
    forall s | s in SpanSet(spans) ensures s in FindSet(w) {
      var i :| 0 <= i < |spans| && spans[i] == s;
      var r := Tracked(next + i, s.start, s.end, FindMatch, NeverGrows);
      assert r in w;
      SpanInFindSet(w, r);
    }
    forall s | s in FindSet(v) ensures s in FindSet(w) {
      var r := InFindSet(v, s);
      SpanInFindSet(w, r);
    }
    forall s | s in FindSet(w) ensures s in FindSet(v) + SpanSet(spans) {
      var r := InFindSet(w, s);
      if r in v { SpanInFindSet(v, r); }
    }
  }

  // ----- the mover -----

  /** A match rides a patch. */
  function RideSpan(p: Patch, s: Span): Span
    requires WellFormed(p)
  {
    var e := Mapped(p, s.end, Left);
    Span(Min(Mapped(p, s.start, Right), e), e)
  }

  /** The matches that survive the mover. */
  ghost function RideSet(p: Patch, f: set<Span>): set<Span>
    requires WellFormed(p)
  {
    set s | s in f && RideSpan(p, s).start < RideSpan(p, s).end :: RideSpan(p, s)
  }

  /** Left-biased, the map never reorders. */
  lemma {:induction false} MapMonotone(p: Patch, x: nat, y: nat)
    requires WellFormed(p) && x <= y
    ensures Mapped(p, x, Left) <= Mapped(p, y, Left) <= Mapped(p, y, Right)
  {
    hide Shift, Mapped, MapOffset;
    var k, l := FirstReaching(p, x), FirstReaching(p, y);
    ReachingMonotone(p, x, y);
    if k < l {
      MapUpper(p, x, Left);
      MapLower(p, y, Left);
      NewAscendTo(p, k, l);
    } else {
      SameEditMonotone(p, x, y);
    }
    MapBias(p, y);
  }

  lemma {:induction false} ReachingMonotone(p: Patch, x: nat, y: nat)
    requires x <= y
    ensures FirstReaching(p, x) <= FirstReaching(p, y)
  {
    var l := FirstReaching(p, y);
    if l < |p| { assert p[l].oe >= x; }
  }

  lemma {:induction false} SameEditMonotone(p: Patch, x: nat, y: nat)
    requires WellFormed(p) && x <= y && FirstReaching(p, x) == FirstReaching(p, y)
    ensures Mapped(p, x, Left) <= Mapped(p, y, Left)
  {
    hide Shift;
    var k := FirstReaching(p, x);
    if k < |p| { GapShift(p, k); }
  }

  lemma {:induction false} MapBias(p: Patch, y: nat)
    requires WellFormed(p)
    ensures Mapped(p, y, Left) <= Mapped(p, y, Right)
  {
    hide Shift;
  }

  lemma {:induction false} NewAscendTo(p: Patch, k: nat, l: nat)
    requires WellFormed(p) && k < l <= |p|
    ensures p[k].ne <= NewGapStart(p, l)
  {
    hide Shift;
    if k < l - 1 { NewAscend(p, k, l - 1); }
  }

  /** A position that an edit's old end reaches lands no later than its new end. */
  lemma {:induction false} MapUpper(p: Patch, x: nat, bias: Bias)
    requires WellFormed(p)
    ensures var k := FirstReaching(p, x); k < |p| ==> Mapped(p, x, bias) <= p[k].ne
    ensures var k := FirstReaching(p, x); k < |p| && x >= p[k].os ==> p[k].ns <= Mapped(p, x, bias)
  {
    hide Shift;
    var k := FirstReaching(p, x);
    if k < |p| { GapShift(p, k); }
  }

  lemma {:induction false} MapLower(p: Patch, x: nat, bias: Bias)
    requires WellFormed(p)
    ensures NewGapStart(p, FirstReaching(p, x)) <= Mapped(p, x, bias)
  {
    hide Shift;
    var k := FirstReaching(p, x);
    GapShift(p, k);
    if k < |p| { EditsAscendTo(p, k); }
  }

  lemma {:induction false} EditsAscendTo(p: Patch, k: nat)
    requires WellFormed(p) && k < |p|
    ensures GapStart(p, k) <= p[k].os
  {}

  lemma {:induction false} RideIsRideSpan(p: Patch, r: Tracked)
    requires WellFormed(p) && IsFind(r) && r.stickiness.NeverGrows?
    ensures SpanOf(Ride(p, r)) == RideSpan(p, SpanOf(r)) && IsFind(Ride(p, r)) && Ride(p, r).stickiness.NeverGrows?
    ensures Survives(p, r) <==> RideSpan(p, SpanOf(r)).start < RideSpan(p, SpanOf(r)).end
  {
    hide Mapped, ReplacesWhole;
  }

  /** Disjoint matches stay disjoint. */
  lemma {:induction false} RideApart(p: Patch, a: Span, b: Span)
    requires WellFormed(p) && a.end <= b.start <= b.end
    ensures RideSpan(p, a).end <= RideSpan(p, b).start
  {
    hide Mapped;
    MapMonotone(p, a.end, b.start);
    MapMonotone(p, a.end, b.end);
  }

  lemma {:induction false} RideDisjoint(p: Patch, a: Span, b: Span)
    requires WellFormed(p) && a.start < a.end && b.start < b.end && !Overlap(a, b)
    ensures !Overlap(RideSpan(p, a), RideSpan(p, b))
    ensures RideSpan(p, a).start < RideSpan(p, a).end ==> RideSpan(p, a) != RideSpan(p, b)
  {
    hide RideSpan;
    if a.end <= b.start { RideApart(p, a, b); } else { RideApart(p, b, a); }
    RideUpright(p, a);
    RideUpright(p, b);
  }

  lemma {:induction false} RideUpright(p: Patch, a: Span)
    requires WellFormed(p)
    ensures RideSpan(p, a).start <= RideSpan(p, a).end
  {}

  lemma {:induction false} MoveEffect(p: Patch, v: seq<Tracked>)
    requires WellFormed(p) && FindsWell(v)
    ensures FindsWell(MovedBy(p, v)) && FindSet(MovedBy(p, v)) == RideSet(p, FindSet(v))
  {
    hide Survives, Ride, MovedBy, RideSpan;
    var w := MovedBy(p, v);
    forall m | m in w && IsFind(m)
      ensures exists r :: r in v && IsFind(r) && m == Ride(p, r) && Rides(p, r, m)
    {
      MoveMembers(p, v, m);
      var i :| 0 <= i < |v| && Survives(p, v[i]) && m == Ride(p, v[i]);
      RideKind(p, v[i]);
      RideIsRideSpan(p, v[i]);
      assert v[i] in v && Rides(p, v[i], m);
    }
    MovedSet(p, v, w);
    MovedUnique(p, v, w);
    RideSetDisjoint(p, FindSet(v));
  }

  ghost predicate Rides(p: Patch, r: Tracked, m: Tracked)
    requires WellFormed(p)
  {
    && m.stickiness.NeverGrows? && SpanOf(m) == RideSpan(p, SpanOf(r))
    && RideSpan(p, SpanOf(r)).start < RideSpan(p, SpanOf(r)).end
  }

  lemma {:induction false} RideKind(p: Patch, r: Tracked)
    requires WellFormed(p)
    ensures IsFind(Ride(p, r)) <==> IsFind(r)
  {}

  lemma {:induction false} MovedSet(p: Patch, v: seq<Tracked>, w: seq<Tracked>)
    requires WellFormed(p) && FindsWell(v) && w == MovedBy(p, v)
    requires forall m | m in w && IsFind(m) :: exists r :: r in v && IsFind(r) && m == Ride(p, r) && Rides(p, r, m)
    ensures FindSet(w) == RideSet(p, FindSet(v))
  {
    hide Survives, Ride, MovedBy, RideSpan, Disjoint;
    forall s | s in FindSet(w) ensures s in RideSet(p, FindSet(v)) {
      var m := InFindSet(w, s);
      var r :| r in v && IsFind(r) && m == Ride(p, r) && Rides(p, r, m);
      SpanInFindSet(v, r);
    }
    forall s | s in RideSet(p, FindSet(v)) ensures s in FindSet(w) {
      var o :| o in FindSet(v) && s == RideSpan(p, o) && s.start < s.end;
      var r := InFindSet(v, o);
      RideIsRideSpan(p, r);
      var i :| 0 <= i < |v| && v[i] == r;
      MoveMembers(p, v, Ride(p, r));
      SpanInFindSet(w, Ride(p, r));
    }
  }

  lemma {:induction false} MovedUnique(p: Patch, v: seq<Tracked>, w: seq<Tracked>)
    requires WellFormed(p) && FindsWell(v)
    requires forall m | m in w && IsFind(m) :: exists r :: r in v && IsFind(r) && m == Ride(p, r) && Rides(p, r, m)
    ensures forall m, n | m in w && n in w && IsFind(m) && IsFind(n) && SpanOf(m) == SpanOf(n) :: m == n
  {
    hide Survives, Ride, RideSpan;
    forall m, n | m in w && n in w && IsFind(m) && IsFind(n) && SpanOf(m) == SpanOf(n) ensures m == n {
      var r :| r in v && IsFind(r) && m == Ride(p, r) && Rides(p, r, m);
      var s :| s in v && IsFind(s) && n == Ride(p, s) && Rides(p, s, n);
      SpanInFindSet(v, r);
      SpanInFindSet(v, s);
      if SpanOf(r) != SpanOf(s) {
        RideDisjoint(p, SpanOf(r), SpanOf(s));
      }
    }
  }

  lemma {:induction false} RideSetDisjoint(p: Patch, f: set<Span>)
    requires WellFormed(p) && Disjoint(f)
    ensures Disjoint(RideSet(p, f))
  {
    hide RideSpan;
    var g := RideSet(p, f);
    forall a, b | a in g && b in g && a != b ensures !Overlap(a, b) {
      var s :| s in f && a == RideSpan(p, s);
      var r :| r in f && b == RideSpan(p, r);
      RideDisjoint(p, s, r);
    }
  }
}
