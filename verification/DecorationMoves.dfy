/**
 Riding a patch: how one range moves, how a whole list moves, and why remapping only the band
 an edit can touch moves the list the same way.
 */
module DecorationMoves {
  import opened Base
  import opened Patches
  import opened DecorationItems
  import opened DecorationQueries

  // ----- one range -----

  /** Both ends through the patch with their own bias, never inverting: a collapse pins the
      start to the mapped end. */
  function Ride(p: Patch, r: Tracked): (m: Tracked)
    requires WellFormed(p)
    ensures m.start <= m.end && m.id == r.id
  {
    var ms := Mapped(p, r.start, r.stickiness.StartBias());
    var me := Mapped(p, r.end, r.stickiness.EndBias());
    Tracked(r.id, Min(ms, me), me, r.kind, r.stickiness)
  }

  /** One edit replaces all of `start..end` with new text. */
  predicate ReplacesWhole(p: Patch, start: nat, end: nat) {
    var k := FirstReaching(p, end);
    k < |p| && p[k].os <= start && p[k].ns < p[k].ne
  }

  predicate EmptyDrop(r: Tracked) { r.start == r.end && r.kind.DropsWhenEmpty() }

  /** The ranges that stay in the store after the patch. */
  predicate Survives(p: Patch, r: Tracked)
    requires WellFormed(p)
  {
    !(r.kind.RidesAToken() && ReplacesWhole(p, r.start, r.end)) && !EmptyDrop(Ride(p, r))
  }

  // ----- a list -----

  function Remap(p: Patch, v: seq<Tracked>): seq<Tracked>
    requires WellFormed(p)
  {
    if v == [] then [] else (if Survives(p, v[0]) then [Ride(p, v[0])] else []) + Remap(p, v[1..])
  }

  lemma {:induction false} RemapConcat(p: Patch, a: seq<Tracked>, b: seq<Tracked>)
    requires WellFormed(p)
    ensures Remap(p, a + b) == Remap(p, a) + Remap(p, b)
    decreases |a|
  {
    hide Survives, Ride;
    if a == [] {
      assert a + b == b;
    } else {
      assert (a + b)[1..] == a[1..] + b;
      RemapConcat(p, a[1..], b);
    }
  }

  lemma {:induction false} RemapSnoc(p: Patch, a: seq<Tracked>, r: Tracked)
    requires WellFormed(p)
    ensures Remap(p, a + [r]) == Remap(p, a) + if Survives(p, r) then [Ride(p, r)] else []
  {
    hide Survives, Ride;
    RemapConcat(p, a, [r]);
    assert [r][1..] == [];
  }

  /** Where a remapped range came from. */
  lemma {:induction false} RemapOrigin(p: Patch, v: seq<Tracked>, m: Tracked) returns (i: nat)
    requires WellFormed(p) && m in Remap(p, v)
    ensures i < |v| && Survives(p, v[i]) && m == Ride(p, v[i])
    decreases |v|
  {
    hide Survives, Ride;
    if Survives(p, v[0]) && m == Ride(p, v[0]) {
      i := 0;
    } else {
      i := RemapOrigin(p, v[1..], m);
      i := i + 1;
    }
  }

  lemma {:induction false} RemapDistinct(p: Patch, v: seq<Tracked>)
    requires WellFormed(p) && DistinctIds(v)
    ensures DistinctIds(Remap(p, v))
    decreases |v|
  {
    hide Survives;
    if v != [] {
      RemapDistinct(p, v[1..]);
      var rest := Remap(p, v[1..]);
      forall i | 0 <= i < |rest| ensures rest[i].id != v[0].id {
        var k := RemapOrigin(p, v[1..], rest[i]);
        assert v[1..][k] == v[k + 1];
      }
    }
  }

  /** The in-place remap: the old text's questions are asked before the ranges are overwritten. */
  method RemapRanges(p: Patch, v: seq<Tracked>) returns (out: seq<Tracked>)
    requires WellFormed(p)
    ensures out == Remap(p, v)
  {
    hide Mapped, ReplacesWhole;
    var queries: seq<(nat, Bias)> := [];
    var replaced: seq<bool> := [];
    for i := 0 to |v|
      invariant |queries| == 2 * i && |replaced| == i
      invariant forall j | 0 <= j < i :: Asked(p, v[j], queries[2 * j], queries[2 * j + 1], replaced[j])
    {
      var r := v[i];
      queries := queries + [(r.start, r.stickiness.StartBias()), (r.end, r.stickiness.EndBias())];
      replaced := replaced + [r.kind.RidesAToken() && ReplacesWhole(p, r.start, r.end)];
    }
    var mapped := MapMany(p, queries);
    out := [];
    for i := 0 to |v|
      invariant out == Remap(p, v[..i])
    {
      var r := v[i];
      assert Asked(p, r, queries[2 * i], queries[2 * i + 1], replaced[i]);
      var ms, me := mapped[2 * i], mapped[2 * i + 1];
      var m := Tracked(r.id, Min(ms, me), me, r.kind, r.stickiness);
      RemapSnoc(p, v[..i], r);
      assert v[..i + 1] == v[..i] + [r];
      if !(replaced[i] || (m.start == m.end && m.kind.DropsWhenEmpty())) {
        out := out + [m];
      }
    }
    assert v[..|v|] == v;
  }

  predicate Asked(p: Patch, r: Tracked, s: (nat, Bias), e: (nat, Bias), replaced: bool) {
    && s == (r.start, r.stickiness.StartBias()) && e == (r.end, r.stickiness.EndBias())
    && replaced == (r.kind.RidesAToken() && ReplacesWhole(p, r.start, r.end))
  }

  /** The whole-store mover: ride every range, drop what goes, restore the order. */
  function MovedBy(p: Patch, v: seq<Tracked>): seq<Tracked>
    requires WellFormed(p)
  {
    SortRanges(Remap(p, v))
  }

  ghost predicate NoEmptyDrops(v: seq<Tracked>) {
    forall i | 0 <= i < |v| :: !EmptyDrop(v[i])
  }

  /** What the mover leaves behind is a store again, holding no empty range of a dropping kind. */
  lemma {:induction false} MovedByIsAStore(p: Patch, v: seq<Tracked>)
    requires WellFormed(p) && DistinctIds(v)
    ensures var w := MovedBy(p, v);
            Ordered(w) && DistinctIds(w) && UprightRanges(w) && NoEmptyDrops(w)
    ensures forall r | r in MovedBy(p, v) :: exists i | 0 <= i < |v| :: v[i].id == r.id
  {
    hide Survives, Ride, EmptyDrop;
    var m, w := Remap(p, v), MovedBy(p, v);
    RemapDistinct(p, v);
    SortOrders(m);
    SortedDistinct(m);
    forall r | r in w
      ensures (exists i | 0 <= i < |v| :: v[i].id == r.id) && r.start <= r.end && !EmptyDrop(r)
    {
      MemberOf(r, w, m);
      var i := RemapOrigin(p, v, r);
      assert v[i].id == r.id;
      SurvivorsAreKept(p, v[i]);
    }
    forall i | 0 <= i < |w| ensures w[i].start <= w[i].end && !EmptyDrop(w[i]) {
      assert w[i] in w;
    }
  }

  lemma {:induction false} MovedByMembers(p: Patch, v: seq<Tracked>, m: Tracked)
    requires WellFormed(p)
    ensures m in MovedBy(p, v) <==> m in Remap(p, v)
  {
    hide Remap, SortRanges;
    MemberOf(m, MovedBy(p, v), Remap(p, v));
  }

  lemma {:induction false} RemapHas(p: Patch, v: seq<Tracked>, i: nat)
    requires WellFormed(p) && i < |v| && Survives(p, v[i])
    ensures Ride(p, v[i]) in Remap(p, v)
    decreases |v|
  {
    hide Survives, Ride;
    if i > 0 { RemapHas(p, v[1..], i - 1); }
  }

  lemma {:induction false} MoveMembers(p: Patch, v: seq<Tracked>, m: Tracked)
    requires WellFormed(p)
    ensures m in MovedBy(p, v) <==> exists i | 0 <= i < |v| :: Survives(p, v[i]) && m == Ride(p, v[i])
  {
    hide Survives, Ride, MovedBy;
    MovedByMembers(p, v, m);
    if m in Remap(p, v) {
      var i := RemapOrigin(p, v, m);
    }
    if i :| 0 <= i < |v| && Survives(p, v[i]) && m == Ride(p, v[i]) {
      RemapHas(p, v, i);
    }
  }

  lemma {:induction false} SurvivorsAreKept(p: Patch, r: Tracked)
    requires WellFormed(p) && Survives(p, r)
    ensures !EmptyDrop(Ride(p, r))
  {
    hide EmptyDrop, Ride;
  }

  lemma {:induction false} InsertDistinct(r: Tracked, v: seq<Tracked>)
    requires DistinctIds(v) && forall i | 0 <= i < |v| :: v[i].id != r.id
    ensures DistinctIds(InsertSorted(r, v))
    decreases |v|
  {
    hide Before;
    if v != [] && !Before(r, v[0]) {
      var w := InsertSorted(r, v[1..]);
      InsertDistinct(r, v[1..]);
      forall j | 0 <= j < |w| ensures w[j].id != v[0].id {
        assert w[j] in multiset(w);
        if w[j] != r {
          assert w[j] in v[1..];
          var k :| 0 <= k < |v[1..]| && v[1..][k] == w[j];
          assert v[k + 1] == w[j];
        }
      }
    }
  }

  lemma {:induction false} SortedDistinct(v: seq<Tracked>)
    requires DistinctIds(v)
    ensures DistinctIds(SortRanges(v))
    decreases |v|
  {
    hide InsertSorted;
    if v != [] {
      var w := SortRanges(v[1..]);
      SortedDistinct(v[1..]);
      forall i | 0 <= i < |w| ensures w[i].id != v[0].id {
        MemberOf(w[i], w, v[1..]);
        var k :| 0 <= k < |v[1..]| && v[1..][k] == w[i];
        assert v[k + 1] == w[i];
      }
      InsertDistinct(v[0], w);
    }
  }

  // ----- a single edit -----

  /** A range ending before the edit does not move. */
  lemma {:induction false} RideBefore(e: Edit, r: Tracked)
    requires WellFormed([e]) && r.start <= r.end < e.os
    ensures Ride([e], r) == r && (Survives([e], r) <==> !EmptyDrop(r))
  {
    MapSingle(e, r.start, r.stickiness.StartBias());
    MapSingle(e, r.end, r.stickiness.EndBias());
    FirstReachingIs([e], r.end, 0);
  }

  /** A range starting after the edit moves by the length change. */
  lemma {:induction false} RideAfter(e: Edit, r: Tracked)
    requires WellFormed([e]) && e.oe < r.start <= r.end
    ensures r.start + Delta(e) > e.ne - 0 && r.start + Delta(e) >= 0
    ensures Ride([e], r) == Shifted(r, Delta(e)) && (Survives([e], r) <==> !EmptyDrop(r))
  {
    MapSingle(e, r.start, r.stickiness.StartBias());
    MapSingle(e, r.end, r.stickiness.EndBias());
    FirstReachingIs([e], r.end, 1);
  }

  /** A range starting at or before the edit's end starts, moved, no earlier than it did or than
      the edit, and no later than the new text's end. */
  lemma {:induction false} RideTouched(e: Edit, r: Tracked)
    requires WellFormed([e]) && r.start <= r.end && r.start <= e.oe
    ensures var m := Ride([e], r);
            m.start <= e.ne && (if r.start < e.os then m.start == r.start else e.os <= m.start)
  {
    MapSingle(e, r.start, r.stickiness.StartBias());
    MapSingle(e, r.end, r.stickiness.EndBias());
  }

  /** Text inserted strictly inside a range always grows it; on an edge, stickiness decides. */
  lemma {:induction false} StickinessDecidesTheEdges(at: nat, len: nat, r: Tracked)
    requires r.start < r.end && len > 0
    ensures WellFormed([Edit(at, at, at, at + len)])
    ensures var m := Ride([Edit(at, at, at, at + len)], r);
            var growsBefore := r.stickiness.AlwaysGrows? || r.stickiness.GrowsOnlyBefore?;
            var growsAfter := r.stickiness.AlwaysGrows? || r.stickiness.GrowsOnlyAfter?;
            && m.start == (if at < r.start || (at == r.start && !growsBefore) then r.start + len else r.start)
            && m.end == (if at < r.end || (at == r.end && growsAfter) then r.end + len else r.end)
  {
    var e := Edit(at, at, at, at + len);
    assert Anchored([e], 0);
    MapSingle(e, r.start, r.stickiness.StartBias());
    MapSingle(e, r.end, r.stickiness.EndBias());
  }

  /** Text inserted on an empty range: the range takes it in only if both edges grow; otherwise it stays
      empty, after the text if it grows after and before the text if not. */
  lemma {:induction false} StickinessOfTheEmpty(len: nat, r: Tracked)
    requires r.start == r.end && len > 0
    ensures WellFormed([Edit(r.start, r.start, r.start, r.start + len)])
    ensures var m := Ride([Edit(r.start, r.start, r.start, r.start + len)], r);
            && m.start == (if r.stickiness.GrowsOnlyAfter? then r.start + len else r.start)
            && m.end == (if r.stickiness.AlwaysGrows? || r.stickiness.GrowsOnlyAfter? then r.start + len else r.start)
  {
    var e := Edit(r.start, r.start, r.start, r.start + len);
    assert Anchored([e], 0);
    MapSingle(e, r.start, Left);
    MapSingle(e, r.start, Right);
  }

  // ----- the band a single edit can touch -----

  function KeepsShape(r: Tracked): bool { !EmptyDrop(r) }

  lemma {:induction false} RemapBefore(e: Edit, v: seq<Tracked>)
    requires WellFormed([e]) && forall i | 0 <= i < |v| :: v[i].start <= v[i].end < e.os
    ensures Remap([e], v) == Select(v, KeepsShape)
    decreases |v|
  {
    hide Ride, Survives, EmptyDrop;
    if v != [] {
      RideBefore(e, v[0]);
      RemapBefore(e, v[1..]);
    }
  }

  lemma {:induction false} RemapAfterLength(e: Edit, v: seq<Tracked>)
    requires WellFormed([e]) && forall i | 0 <= i < |v| :: e.oe < v[i].start <= v[i].end
    ensures |Remap([e], v)| == |Select(v, KeepsShape)|
    decreases |v|
  {
    hide Ride, Survives, EmptyDrop;
    if v != [] {
      RideAfter(e, v[0]);
      RemapAfterLength(e, v[1..]);
    }
  }

  lemma {:induction false} RemapAfter(e: Edit, v: seq<Tracked>)
    requires WellFormed([e]) && forall i | 0 <= i < |v| :: e.oe < v[i].start <= v[i].end
    requires NoEmptyDrops(v)
    ensures forall i | 0 <= i < |v| :: v[i].start + Delta(e) >= 0
    ensures Remap([e], v) == Moved(v, Delta(e))
    decreases |v|
  {
    hide Ride, Survives, EmptyDrop;
    if v != [] {
      RideAfter(e, v[0]);
      RemapAfter(e, v[1..]);
      assert Moved(v, Delta(e)) == [Shifted(v[0], Delta(e))] + Moved(v[1..], Delta(e));
    }
  }

  lemma {:induction false} SelectLength(v: seq<Tracked>, f: Tracked -> bool)
    ensures |Select(v, f)| <= |v|
    ensures |Select(v, f)| == |v| <==> forall i | 0 <= i < |v| :: f(v[i])
    decreases |v|
  {
    if v != [] {
      SelectLength(v[1..], f);
      if forall i | 0 <= i < |v| :: f(v[i]) {
        forall i | 0 <= i < |v[1..]| ensures f(v[1..][i]) { assert v[1..][i] == v[i + 1]; }
      }
      if |Select(v, f)| == |v| {
        forall i | 0 <= i < |v| ensures f(v[i]) { if i > 0 { assert v[i] == v[1..][i - 1]; } }
      }
    }
  }

  /** The bands of a single edit: everything before `a` ends before it, everything from `b` on
      starts after it, and what lies between starts at or before its end. */
  ghost predicate Bands(e: Edit, v: seq<Tracked>, a: nat, b: nat) {
    && a <= b <= |v|
    && (forall i | 0 <= i < a :: v[i].end < e.os)
    && (forall i | b <= i < |v| :: e.oe < v[i].start)
    && (forall i | a <= i < b :: v[i].start <= e.oe)
  }

  /** What the windowed mover leaves: the left band shared, the middle remapped and sorted, the
      right band shifted as one. */
  ghost function Windowed(e: Edit, v: seq<Tracked>, a: nat, b: nat): seq<Tracked>
    requires WellFormed([e]) && UprightRanges(v) && Bands(e, v, a, b)
  {
    ShiftFits(e, v, a, b);
    v[..a] + MovedBy([e], v[a..b]) + Moved(v[b..], Delta(e))
  }

  lemma {:induction false} ShiftFits(e: Edit, v: seq<Tracked>, a: nat, b: nat)
    requires WellFormed([e]) && UprightRanges(v) && Bands(e, v, a, b)
    ensures forall i | 0 <= i < |v[b..]| :: v[b..][i].start + Delta(e) > e.ne && v[b..][i].start <= v[b..][i].end
  {
    forall i | 0 <= i < |v[b..]| ensures v[b..][i].start + Delta(e) > e.ne && v[b..][i].start <= v[b..][i].end {
      assert v[b..][i] == v[b + i];
      MapSingle(e, e.os, Left);
    }
  }

  /** The remapped middle stays between its neighbours. */
  lemma {:induction false} MiddleStays(e: Edit, v: seq<Tracked>, a: nat, b: nat)
    requires WellFormed([e]) && UprightRanges(v) && Ordered(v) && Bands(e, v, a, b)
    ensures forall m | m in MovedBy([e], v[a..b]) :: m.start <= e.ne && m.start <= m.end
    ensures forall m, i | m in MovedBy([e], v[a..b]) && 0 <= i < a :: Before(v[i], m)
  {
    hide Survives, Ride, Remap, MovedBy;
    var mid := v[a..b];
    forall m | m in MovedBy([e], mid)
      ensures m.start <= e.ne && m.start <= m.end
      ensures forall i | 0 <= i < a :: Before(v[i], m)
    {
      MovedByMembers([e], mid, m);
      var k := RemapOrigin([e], mid, m);
      var r := mid[k];
      assert r == v[a + k];
      RideTouched(e, r);
      forall i | 0 <= i < a ensures Before(v[i], m) {
        assert Before(v[i], v[a + k]);
      }
    }
  }

  lemma {:induction false} OrderedParts(v: seq<Tracked>, a: nat, b: nat)
    requires a <= b <= |v|
    ensures Ordered(v) ==> Ordered(v[..a]) && Ordered(v[a..b]) && Ordered(v[b..])
    ensures DistinctIds(v) ==> DistinctIds(v[..a]) && DistinctIds(v[a..b]) && DistinctIds(v[b..])
    ensures UprightRanges(v) ==> UprightRanges(v[..a]) && UprightRanges(v[a..b]) && UprightRanges(v[b..])
    ensures v == v[..a] + (v[a..b] + v[b..])
  {
    hide Before;
  }

  lemma {:induction false} OrderedConcat(x: seq<Tracked>, y: seq<Tracked>)
    requires Ordered(x) && Ordered(y)
    requires forall r, s | r in x && s in y :: Before(r, s)
    ensures Ordered(x + y)
  {
    hide Before;
    var w := x + y;
    forall i, j | 0 <= i < j < |w| ensures Before(w[i], w[j]) {
      assert i < |x| ==> x[i] in x;
      assert j >= |x| ==> y[j - |x|] in y;
    }
  }

  lemma {:induction false} MovedOrdered(v: seq<Tracked>, d: int)
    requires Ordered(v) && forall i | 0 <= i < |v| :: v[i].start + d >= 0 && v[i].start <= v[i].end
    ensures Ordered(Moved(v, d))
  {
    forall i, j | 0 <= i < j < |v| ensures Before(Moved(v, d)[i], Moved(v, d)[j]) {
      assert Before(v[i], v[j]);
    }
  }

  /** The windowed result is in the store's order. */
  lemma {:induction false} WindowedIsOrdered(e: Edit, v: seq<Tracked>, a: nat, b: nat)
    requires WellFormed([e]) && UprightRanges(v) && Ordered(v) && DistinctIds(v) && Bands(e, v, a, b)
    ensures Ordered(Windowed(e, v, a, b))
  {
    hide Remap, MovedBy, Ordered, DistinctIds, UprightRanges;
    OrderedParts(v, a, b);
    MovedByIsAStore([e], v[a..b]);
    MiddleStays(e, v, a, b);
    ShiftFits(e, v, a, b);
    MovedOrdered(v[b..], Delta(e));
    LeftBeforeMiddle(e, v, a, b);
    OrderedConcat(v[..a], MovedBy([e], v[a..b]));
    HeadBeforeTail(e, v, a, b);
    OrderedConcat(v[..a] + MovedBy([e], v[a..b]), Moved(v[b..], Delta(e)));
  }

  lemma {:induction false} LeftBeforeMiddle(e: Edit, v: seq<Tracked>, a: nat, b: nat)
    requires WellFormed([e]) && UprightRanges(v) && Ordered(v) && Bands(e, v, a, b)
    ensures forall r, s | r in v[..a] && s in MovedBy([e], v[a..b]) :: Before(r, s)
  {
    hide MovedBy, Remap, Before;
    MiddleStays(e, v, a, b);
    forall r, s | r in v[..a] && s in MovedBy([e], v[a..b]) ensures Before(r, s) {
      var i :| 0 <= i < a && v[..a][i] == r;
      assert v[i] == r;
    }
  }

  lemma {:induction false} HeadBeforeTail(e: Edit, v: seq<Tracked>, a: nat, b: nat)
    requires WellFormed([e]) && UprightRanges(v) && Ordered(v) && Bands(e, v, a, b)
    ensures forall i | 0 <= i < |v[b..]| :: v[b..][i].start + Delta(e) >= 0 && v[b..][i].start <= v[b..][i].end
    ensures forall r, s | r in v[..a] + MovedBy([e], v[a..b]) && s in Moved(v[b..], Delta(e)) :: Before(r, s)
  {
    hide MovedBy, Remap, Ordered;
    MiddleStays(e, v, a, b);
    ShiftFits(e, v, a, b);
    MapSingle(e, e.os, Left);
    forall r, s | r in v[..a] + MovedBy([e], v[a..b]) && s in Moved(v[b..], Delta(e)) ensures Before(r, s) {
      var j :| 0 <= j < |v[b..]| && Moved(v[b..], Delta(e))[j] == s;
      if r in v[..a] {
        var i :| 0 <= i < a && v[..a][i] == r;
        assert v[i] == r;
      }
    }
  }

  /** Remapping the whole list, band by band. */
  lemma {:induction false} RemapByBands(e: Edit, v: seq<Tracked>, a: nat, b: nat)
    requires WellFormed([e]) && UprightRanges(v) && Bands(e, v, a, b)
    ensures Remap([e], v) == Select(v[..a], KeepsShape) + (Remap([e], v[a..b]) + Remap([e], v[b..]))
    ensures |Remap([e], v[b..])| == |Select(v[b..], KeepsShape)|
  {
    hide Remap, Select, KeepsShape;
    OrderedParts(v, a, b);
    RemapConcat([e], v[..a], v[a..b] + v[b..]);
    RemapConcat([e], v[a..b], v[b..]);
    RemapBefore(e, v[..a]);
    RemapAfterLength(e, v[b..]);
  }

  /** Outside the band no empty range is of a dropping kind. */
  ghost predicate QuietOutside(v: seq<Tracked>, a: nat, b: nat) {
    forall i | 0 <= i < |v| && EmptyDrop(v[i]) :: a <= i < b
  }

  lemma {:induction false} QuietParts(v: seq<Tracked>, a: nat, b: nat)
    requires a <= b <= |v|
    ensures QuietOutside(v, a, b) <==> NoEmptyDrops(v[..a]) && NoEmptyDrops(v[b..])
  {
    hide EmptyDrop;
    QuietSlice(v, 0, a);
    QuietSlice(v, b, |v|);
  }

  lemma {:induction false} QuietSlice(v: seq<Tracked>, lo: nat, hi: nat)
    requires lo <= hi <= |v|
    ensures NoEmptyDrops(v[lo..hi]) <==> forall i | lo <= i < hi :: !EmptyDrop(v[i])
  {
    hide EmptyDrop;
    var w := v[lo..hi];
    if NoEmptyDrops(w) {
      forall i | lo <= i < hi ensures !EmptyDrop(v[i]) { assert w[i - lo] == v[i]; }
    }
  }

  lemma {:induction false} QuietSelect(v: seq<Tracked>)
    ensures |Select(v, KeepsShape)| <= |v|
    ensures NoEmptyDrops(v) <==> |Select(v, KeepsShape)| == |v|
    ensures NoEmptyDrops(v) ==> Select(v, KeepsShape) == v
  {
    hide EmptyDrop, Select;
    SelectLength(v, KeepsShape);
    if NoEmptyDrops(v) { SelectAll(v, KeepsShape); }
  }

  /** The windowed mover equals the whole-store mover exactly when no empty range of a dropping
      kind lies outside the band: the whole-store pass would drop it, the windowed one shares it. */
  lemma {:induction false} WindowedIsWholeStore(e: Edit, v: seq<Tracked>, a: nat, b: nat)
    requires WellFormed([e]) && UprightRanges(v) && Ordered(v) && DistinctIds(v) && Bands(e, v, a, b)
    ensures Windowed(e, v, a, b) == MovedBy([e], v) <==> QuietOutside(v, a, b)
  {
    hide Remap, SortRanges, Ordered, DistinctIds, Select, Windowed, MovedBy, NoEmptyDrops, QuietOutside;
    QuietParts(v, a, b);
    if QuietOutside(v, a, b) {
      QuietIsEqual(e, v, a, b);
    } else {
      LoudIsShorter(e, v, a, b);
    }
  }

  lemma {:induction false} LoudIsShorter(e: Edit, v: seq<Tracked>, a: nat, b: nat)
    requires WellFormed([e]) && UprightRanges(v) && Bands(e, v, a, b)
    requires !(NoEmptyDrops(v[..a]) && NoEmptyDrops(v[b..]))
    ensures |MovedBy([e], v)| < |Windowed(e, v, a, b)|
  {
    hide Remap, SortRanges, NoEmptyDrops, Select;
    RemapByBands(e, v, a, b);
    QuietSelect(v[..a]);
    QuietSelect(v[b..]);
    SortLength(Remap([e], v));
    SortLength(Remap([e], v[a..b]));
  }

  lemma {:induction false} SortLength(v: seq<Tracked>)
    ensures |SortRanges(v)| == |v|
  {
    assert |multiset(SortRanges(v))| == |multiset(v)|;
  }

  lemma {:induction false} QuietIsEqual(e: Edit, v: seq<Tracked>, a: nat, b: nat)
    requires WellFormed([e]) && UprightRanges(v) && Ordered(v) && DistinctIds(v) && Bands(e, v, a, b)
    requires NoEmptyDrops(v[..a]) && NoEmptyDrops(v[b..])
    ensures MovedBy([e], v) == Windowed(e, v, a, b)
  {
    hide Remap, SortRanges, Ordered, DistinctIds, Select, KeepsShape;
    RemapByBands(e, v, a, b);
    QuietSelect(v[..a]);
    ShiftFits(e, v, a, b);
    forall i | 0 <= i < |v[b..]| ensures e.oe < v[b..][i].start <= v[b..][i].end {
      assert v[b..][i] == v[b + i];
    }
    RemapAfter(e, v[b..]);
    WindowedIsOrdered(e, v, a, b);
    RemapDistinct([e], v);
    assert multiset(Windowed(e, v, a, b)) == multiset(Remap([e], v));
    SortOfOrdered(Remap([e], v), Windowed(e, v, a, b));
  }

  // ----- what the two movers agree on -----

  /** An empty range of a dropping kind that no rewrite visited: still here, still empty. */
  ghost predicate LeftBehind(v: seq<Tracked>, m: Tracked) {
    EmptyDrop(m) && exists r :: r in v && EmptyDrop(r) && r.id == m.id && r.kind == m.kind
  }

  /** The whole-store rewrite, and beside it at most some empty dropping ranges. */
  ghost predicate MovedAlike(p: Patch, v: seq<Tracked>, w: seq<Tracked>)
    requires WellFormed(p)
  {
    && (forall m | m in MovedBy(p, v) :: m in w)
    && (forall m | m in w :: m in MovedBy(p, v) || LeftBehind(v, m))
  }

  /** Whatever the store holds, the windowed mover loses nothing and leaves only empty ranges more. */
  lemma {:induction false} WindowedAlike(e: Edit, v: seq<Tracked>, a: nat, b: nat)
    requires WellFormed([e]) && UprightRanges(v) && Bands(e, v, a, b)
    ensures MovedAlike([e], v, Windowed(e, v, a, b))
  {
    hide MovedBy, Survives, Ride, EmptyDrop, WellFormed;
    ShiftFits(e, v, a, b);
    var w := Windowed(e, v, a, b);
    forall m | m in MovedBy([e], v) ensures m in w {
      MoveMembers([e], v, m);
      var i :| 0 <= i < |v| && Survives([e], v[i]) && m == Ride([e], v[i]);
      MovedLands(e, v, a, b, i);
    }
    forall m | m in w ensures m in MovedBy([e], v) || LeftBehind(v, m) {
      if m in v[..a] {
        var i :| 0 <= i < a && v[..a][i] == m;
        BeforeAlike(e, v, i);
      } else if m in MovedBy([e], v[a..b]) {
        MoveMembers([e], v[a..b], m);
        var i :| 0 <= i < b - a && Survives([e], v[a..b][i]) && m == Ride([e], v[a..b][i]);
        assert v[a + i] == v[a..b][i];
        MoveMembers([e], v, m);
      } else {
        var i :| 0 <= i < |v[b..]| && Shifted(v[b..][i], Delta(e)) == m;
        assert v[b + i] == v[b..][i];
        AfterAlike(e, v, b + i);
      }
    }
  }

  lemma {:induction false} MovedLands(e: Edit, v: seq<Tracked>, a: nat, b: nat, i: nat)
    requires WellFormed([e]) && UprightRanges(v) && Bands(e, v, a, b) && i < |v| && Survives([e], v[i])
    ensures Ride([e], v[i]) in Windowed(e, v, a, b)
  {
    hide MovedBy, Survives, Ride, WellFormed;
    ShiftFits(e, v, a, b);
    if i < a {
      RideBefore(e, v[i]);
      assert v[..a][i] == v[i];
    } else if i < b {
      assert v[a..b][i - a] == v[i];
      MoveMembers([e], v[a..b], Ride([e], v[i]));
    } else {
      RideAfter(e, v[i]);
      assert v[b..][i - b] == v[i];
      assert Moved(v[b..], Delta(e))[i - b] == Shifted(v[i], Delta(e));
    }
  }

  lemma {:induction false} BeforeAlike(e: Edit, v: seq<Tracked>, i: nat)
    requires WellFormed([e]) && UprightRanges(v) && i < |v| && v[i].end < e.os
    ensures v[i] in MovedBy([e], v) || LeftBehind(v, v[i])
  {
    hide MovedBy, Survives, Ride, EmptyDrop, WellFormed;
    RideBefore(e, v[i]);
    MoveMembers([e], v, v[i]);
  }

  lemma {:induction false} AfterAlike(e: Edit, v: seq<Tracked>, i: nat)
    requires WellFormed([e]) && UprightRanges(v) && i < |v| && e.oe < v[i].start
    ensures v[i].start + Delta(e) >= 0 && v[i].start <= v[i].end
    ensures var m := Shifted(v[i], Delta(e)); m in MovedBy([e], v) || LeftBehind(v, m)
  {
    hide MovedBy, Survives, Ride, WellFormed;
    RideAfter(e, v[i]);
    var m := Shifted(v[i], Delta(e));
    MoveMembers([e], v, m);
    if EmptyDrop(v[i]) { assert v[i] in v; }
  }

  /** The two movers do differ: an empty find match at 9 outlives an insertion at 0 only in the
      windowed one. */
  lemma {:induction false} EmptyMatchOutlivesTheWindow()
    ensures var e := Edit(0, 0, 0, 1);
            var v := [Tracked(1, 9, 9, FindMatch, NeverGrows)];
            && WellFormed([e]) && UprightRanges(v) && Ordered(v) && DistinctIds(v) && Bands(e, v, 0, 0)
            && Windowed(e, v, 0, 0) != MovedBy([e], v)
  {
    var e := Edit(0, 0, 0, 1);
    var v := [Tracked(1, 9, 9, FindMatch, NeverGrows)];
    assert Anchored([e], 0);
    assert EmptyDrop(v[0]);
    WindowedIsWholeStore(e, v, 0, 0);
  }

  // ----- which ranges go -----

  /** One edit puts new text in place of all of the range; an empty range only the first edit to reach
      it replaces. */
  ghost predicate Covered(p: Patch, start: nat, end: nat) {
    exists i ::
      && 0 <= i < |p| && p[i].os <= start && end <= p[i].oe && p[i].ns < p[i].ne
      && (start < end || forall k | 0 <= k < i :: p[k].oe < end)
  }

  /** The hint whose whole token was retyped goes, and so does a match or an anchored hint nothing is
      left of; no other range does. */
  ghost predicate Goes(p: Patch, r: Tracked)
    requires WellFormed(p)
  {
    || (r.kind == InlayHint(true) && Covered(p, r.start, r.end))
    || ((r.kind == InlayHint(true) || r.kind == FindMatch)
        && Mapped(p, r.end, r.stickiness.EndBias()) <= Mapped(p, r.start, r.stickiness.StartBias()))
  }

  lemma {:induction false} ReplacedIsCovered(p: Patch, start: nat, end: nat)
    requires WellFormed(p) && start <= end
    ensures ReplacesWhole(p, start, end) <==> Covered(p, start, end)
  {
    var k := FirstReaching(p, end);
    if Covered(p, start, end) {
      var i :| && 0 <= i < |p| && p[i].os <= start && end <= p[i].oe && p[i].ns < p[i].ne
               && (start < end || forall k | 0 <= k < i :: p[k].oe < end);
      assert start < end ==> i == k;
    }
  }

  lemma {:induction false} GoesUnlessKept(p: Patch, r: Tracked)
    requires WellFormed(p) && r.start <= r.end
    ensures Goes(p, r) <==> !Survives(p, r)
  {
    ReplacedIsCovered(p, r.start, r.end);
    hide Mapped, Covered, ReplacesWhole;
  }

  /** After the move a range is there exactly when it does not go. */
  lemma {:induction false} GoneExactly(p: Patch, v: seq<Tracked>, r: Tracked)
    requires WellFormed(p) && DistinctIds(v) && UprightRanges(v) && r in v
    ensures (exists m :: m in MovedBy(p, v) && m.id == r.id) <==> !Goes(p, r)
  {
    hide Survives, Goes, MovedBy, WellFormed;
    var i :| 0 <= i < |v| && v[i] == r;
    GoesUnlessKept(p, r);
    MoveMembers(p, v, Ride(p, r));
    if m :| m in MovedBy(p, v) && m.id == r.id {
      MoveMembers(p, v, m);
      var j :| 0 <= j < |v| && Survives(p, v[j]) && m == Ride(p, v[j]);
      assert v[j].id == v[i].id;
    }
  }

  /** The same of the windowed mover, of every range that was not empty under a dropping kind already. */
  lemma {:induction false} GoneAlike(p: Patch, v: seq<Tracked>, w: seq<Tracked>, r: Tracked)
    requires WellFormed(p) && DistinctIds(v) && UprightRanges(v) && r in v && MovedAlike(p, v, w)
    requires r.start < r.end || !r.kind.DropsWhenEmpty()
    ensures (exists m :: m in w && m.id == r.id) <==> !Goes(p, r)
  {
    hide Goes, MovedBy, WellFormed;
    GoneExactly(p, v, r);
    if m :| m in w && m.id == r.id && m !in MovedBy(p, v) {
      var q :| q in v && EmptyDrop(q) && q.id == m.id && q.kind == m.kind;
      OneOfAnId(v, q, r);
    }
  }

  lemma {:induction false} OneOfAnId(v: seq<Tracked>, q: Tracked, r: Tracked)
    requires DistinctIds(v) && q in v && r in v && q.id == r.id
    ensures q == r
  {
    var i :| 0 <= i < |v| && v[i] == q;
    var j :| 0 <= j < |v| && v[j] == r;
  }
}
