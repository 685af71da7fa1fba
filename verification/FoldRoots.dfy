/**
 Reducing folds to their roots.  Only outermost blocks drive the row arithmetic, only outermost
 single-line folds are drawn.
 */
module FoldRoots {
  import opened Base
  import opened FoldRows

  // ----- blocks -----

  /** Outer before inner. */
  predicate OuterFirst(a: FoldedRegion, b: FoldedRegion) {
    a.header < b.header || (a.header == b.header && a.last > b.last)
  }

  function InsertRegion(r: FoldedRegion, rs: seq<FoldedRegion>): (w: seq<FoldedRegion>)
    ensures |w| == |rs| + 1
  {
    if rs == [] || !OuterFirst(rs[0], r) then [r] + rs else [rs[0]] + InsertRegion(r, rs[1..])
  }

  function SortRegions(rs: seq<FoldedRegion>): (w: seq<FoldedRegion>)
    ensures |w| == |rs|
  {
    if rs == [] then [] else InsertRegion(rs[0], SortRegions(rs[1..]))
  }

  /** The roots of a sorted list, after a root whose last row is `last`. */
  function RootsAfter(rs: seq<FoldedRegion>, last: Option<nat>): seq<FoldedRegion> {
    if rs == [] then []
    else if last.None? || rs[0].header > last.value then [rs[0]] + RootsAfter(rs[1..], Some(rs[0].last))
    else RootsAfter(rs[1..], last)
  }

  function Roots(rs: seq<FoldedRegion>): seq<FoldedRegion> { RootsAfter(SortRegions(rs), None) }

  /** The reduction as it runs: push a region past the last root, skip one inside it. */
  method RootRegions(regions: seq<FoldedRegion>) returns (roots: seq<FoldedRegion>)
    ensures roots == Roots(regions)
  {
    hide SortRegions;
    var sorted := SortRegions(regions);
    roots := [];
    for i := 0 to |sorted|
      invariant Roots(regions) == roots + RootsAfter(sorted[i..], if roots == [] then None
                                                     else Some(roots[|roots| - 1].last))
    {
      var r := sorted[i];
      assert sorted[i..][0] == r && sorted[i..][1..] == sorted[i + 1..];
      if roots == [] || r.header > roots[|roots| - 1].last {
        roots := roots + [r];
      }
    }
    assert sorted[|sorted|..] == [];
  }

  ghost predicate Contains(a: FoldedRegion, b: FoldedRegion) { a.header <= b.header && b.last <= a.last }

  /** Any two blocks are nested, or share no row. */
  ghost predicate Laminar(rs: seq<FoldedRegion>) {
    forall a, b | a in rs && b in rs ::
      Contains(a, b) || Contains(b, a) || a.last < b.header || b.last < a.header
  }

  ghost predicate AllBlocks(rs: seq<FoldedRegion>) { forall a | a in rs :: a.header < a.last }

  lemma {:induction false} InsertMembers(r: FoldedRegion, rs: seq<FoldedRegion>, x: FoldedRegion)
    ensures x in InsertRegion(r, rs) <==> x == r || x in rs
  {
    if rs != [] && OuterFirst(rs[0], r) { InsertMembers(r, rs[1..], x); }
  }

  lemma {:induction false} SortMembers(rs: seq<FoldedRegion>, x: FoldedRegion)
    ensures x in SortRegions(rs) <==> x in rs
  {
    if rs != [] {
      SortMembers(rs[1..], x);
      InsertMembers(rs[0], SortRegions(rs[1..]), x);
    }
  }

  ghost predicate SortedOuter(rs: seq<FoldedRegion>) {
    forall i, j | 0 <= i < j < |rs| :: !OuterFirst(rs[j], rs[i])
  }

  lemma {:induction false} InsertSorts(r: FoldedRegion, rs: seq<FoldedRegion>)
    requires SortedOuter(rs)
    ensures SortedOuter(InsertRegion(r, rs))
  {
    if rs == [] {
    } else if !OuterFirst(rs[0], r) {
      forall j | 0 <= j < |rs| ensures !OuterFirst(rs[j], r) {
        if j > 0 { assert !OuterFirst(rs[j], rs[0]); }
      }
    } else {
      InsertSorts(r, rs[1..]);
      var w := InsertRegion(r, rs[1..]);
      forall j | 0 <= j < |w| ensures !OuterFirst(w[j], rs[0]) {
        InsertMembers(r, rs[1..], w[j]);
        assert w[j] in w;
        if w[j] != r {
          var k :| 0 <= k < |rs[1..]| && rs[1..][k] == w[j];
          assert rs[k + 1] == w[j];
        }
      }
    }
  }

  lemma {:induction false} SortSorts(rs: seq<FoldedRegion>)
    ensures SortedOuter(SortRegions(rs))
  {
    if rs != [] {
      SortSorts(rs[1..]);
      InsertSorts(rs[0], SortRegions(rs[1..]));
    }
  }

  /** Roots come from the list, in order, sharing no row. */
  lemma {:induction false} RootsDisjoined(rs: seq<FoldedRegion>, last: Option<nat>)
    requires AllBlocks(rs)
    ensures Disjoined(RootsAfter(rs, last))
    ensures forall x | x in RootsAfter(rs, last) :: x in rs && (last.Some? ==> x.header > last.value)
    decreases |rs|
  {
    if rs != [] {
      assert rs[0] in rs;
      if last.None? || rs[0].header > last.value {
        RootsDisjoined(rs[1..], Some(rs[0].last));
        var rest := RootsAfter(rs[1..], Some(rs[0].last));
        forall j | 0 <= j < |rest| ensures rs[0].last < rest[j].header { assert rest[j] in rest; }
      } else {
        RootsDisjoined(rs[1..], last);
      }
    }
  }

  /** Every block the reduction skips ends inside the root that swallows it. */
  ghost predicate SkipsInside(rs: seq<FoldedRegion>, last: Option<nat>) {
    rs == []
    || if last.None? || rs[0].header > last.value then SkipsInside(rs[1..], Some(rs[0].last))
       else rs[0].last <= last.value && SkipsInside(rs[1..], last)
  }

  function LastOf(prev: Option<FoldedRegion>): Option<nat> { if prev.Some? then Some(prev.value.last) else None }

  ghost predicate StartsFrom(rs: seq<FoldedRegion>, header: nat) { forall y | y in rs :: header <= y.header }

  lemma {:induction false} SortedTail(rs: seq<FoldedRegion>)
    requires rs != [] && SortedOuter(rs)
    ensures SortedOuter(rs[1..]) && StartsFrom(rs[1..], rs[0].header)
  {
    forall y | y in rs[1..] ensures rs[0].header <= y.header {
      var k :| 0 <= k < |rs[1..]| && rs[1..][k] == y;
      assert rs[k + 1] == y && !OuterFirst(rs[k + 1], rs[0]);
    }
  }

  /** Every block lies inside some root. */
  lemma {:induction false} RootsCover(rs: seq<FoldedRegion>, prev: Option<FoldedRegion>, x: FoldedRegion)
    requires SortedOuter(rs) && SkipsInside(rs, LastOf(prev)) && x in rs
    requires prev.Some? ==> StartsFrom(rs, prev.value.header)
    ensures (prev.Some? && Contains(prev.value, x)) || exists y :: y in RootsAfter(rs, LastOf(prev)) && Contains(y, x)
    decreases |rs|
  {
    var r, tail := rs[0], rs[1..];
    assert r in rs;
    SortedTail(rs);
    if prev.None? || r.header > prev.value.last {
      assert r in RootsAfter(rs, LastOf(prev));
      if x != r {
        RootsCover(tail, Some(r), x);
        if y :| y in RootsAfter(tail, Some(r.last)) && Contains(y, x) { assert y in RootsAfter(rs, LastOf(prev)); }
      }
    } else if x != r {
      RootsCover(tail, prev, x);
    }
  }

  /** A skipped block that outlasts its root loses a row. */
  lemma {:induction false} OutlastingLosesARow(rs: seq<FoldedRegion>, last: Option<nat>) returns (row: nat)
    requires AllBlocks(rs) && !SkipsInside(rs, last)
    ensures last.Some? ==> row > last.value
    ensures IsHidden(rs, row) && forall y | y in RootsAfter(rs, last) :: !HiddenBy(y, row)
    decreases |rs|
  {
    var r, tail := rs[0], rs[1..];
    assert r in rs && AllBlocks(tail);
    if last.None? || r.header > last.value {
      row := OutlastingLosesARow(tail, Some(r.last));
      HiddenInTail(rs, row);
    } else if r.last <= last.value {
      row := OutlastingLosesARow(tail, last);
      HiddenInTail(rs, row);
    } else {
      row := last.value + 1;
      assert HiddenBy(rs[0], row);
      RootsDisjoined(rs, last);
    }
  }

  lemma {:induction false} HiddenInTail(rs: seq<FoldedRegion>, row: nat)
    requires rs != [] && IsHidden(rs[1..], row)
    ensures IsHidden(rs, row)
  {
    var i :| 0 <= i < |rs[1..]| && HiddenBy(rs[1..][i], row);
    assert rs[i + 1] == rs[1..][i];
  }

  lemma {:induction false} HiddenByMember(rs: seq<FoldedRegion>, row: nat)
    ensures IsHidden(rs, row) <==> exists a :: a in rs && HiddenBy(a, row)
  {
    if a :| a in rs && HiddenBy(a, row) {
      var i :| 0 <= i < |rs| && rs[i] == a;
    }
    if i :| 0 <= i < |rs| && HiddenBy(rs[i], row) { assert rs[i] in rs; }
  }

  /** The reduction hides exactly the rows the blocks hide if and only if no block it skips outlasts
      the root that swallows it. */
  lemma {:induction false} RootsHideTheSame(rs: seq<FoldedRegion>)
    requires AllBlocks(rs)
    ensures Disjoined(Roots(rs))
    ensures (forall row: nat :: IsHidden(Roots(rs), row) <==> IsHidden(rs, row)) <==> SkipsInside(SortRegions(rs), None)
  {
    hide RootsAfter, SortRegions, Disjoined, SortedOuter, IsHidden, SkipsInside;
    var sorted := SortRegions(rs);
    forall x ensures x in sorted <==> x in rs { SortMembers(rs, x); }
    SortSorts(rs);
    RootsDisjoined(sorted, None);
    if SkipsInside(sorted, None) {
      forall row: nat ensures IsHidden(Roots(rs), row) <==> IsHidden(rs, row) { SameRowHidden(rs, row); }
    } else {
      var row := OutlastingLosesARow(sorted, None);
      HiddenByMember(sorted, row);
      HiddenByMember(rs, row);
      HiddenByMember(Roots(rs), row);
      assert IsHidden(rs, row) && !IsHidden(Roots(rs), row);
    }
  }

  lemma {:induction false} SameRowHidden(rs: seq<FoldedRegion>, row: nat)
    requires AllBlocks(rs) && SkipsInside(SortRegions(rs), None)
    ensures IsHidden(Roots(rs), row) <==> IsHidden(rs, row)
  {
    hide RootsAfter, SortRegions, Disjoined, SortedOuter, IsHidden, SkipsInside;
    var sorted, roots := SortRegions(rs), Roots(rs);
    forall x ensures x in sorted <==> x in rs { SortMembers(rs, x); }
    SortSorts(rs);
    RootsDisjoined(sorted, None);
    HiddenByMember(rs, row);
    HiddenByMember(roots, row);
    if a :| a in rs && HiddenBy(a, row) {
      RootsCover(sorted, None, a);
      var y :| y in roots && Contains(y, a);
      assert HiddenBy(y, row);
    }
  }

  /** Blocks that nest or share no row are never outlasted. */
  lemma {:induction false} LaminarSkipsInside(rs: seq<FoldedRegion>, prev: Option<FoldedRegion>)
    requires SortedOuter(rs) && Laminar(rs) && AllBlocks(rs)
    requires prev.Some? ==> forall y | y in rs :: Contains(prev.value, y) || prev.value.last < y.header
    ensures SkipsInside(rs, LastOf(prev))
    decreases |rs|
  {
    if rs != [] {
      var r, tail := rs[0], rs[1..];
      assert r in rs;
      SortedTail(rs);
      if prev.None? || r.header > prev.value.last {
        forall y | y in tail ensures Contains(r, y) || r.last < y.header { InsideOrBelow(rs, y); }
        LaminarSkipsInside(tail, Some(r));
      } else {
        LaminarSkipsInside(tail, prev);
      }
    }
  }

  lemma {:induction false} InsideOrBelow(rs: seq<FoldedRegion>, y: FoldedRegion)
    requires rs != [] && SortedOuter(rs) && Laminar(rs) && AllBlocks(rs) && y in rs[1..]
    ensures Contains(rs[0], y) || rs[0].last < y.header
  {
    var k :| 0 <= k < |rs[1..]| && rs[1..][k] == y;
    assert rs[k + 1] == y && !OuterFirst(rs[k + 1], rs[0]) && rs[0] in rs && y in rs;
  }

  /** In particular, blocks that nest or share no row lose nothing. */
  lemma {:induction false} LaminarHidesTheSame(rs: seq<FoldedRegion>, row: nat)
    requires AllBlocks(rs) && Laminar(rs)
    ensures IsHidden(Roots(rs), row) <==> IsHidden(rs, row)
  {
    hide SortRegions, SortedOuter, IsHidden, SkipsInside, Roots;
    var sorted := SortRegions(rs);
    forall x ensures x in sorted <==> x in rs { SortMembers(rs, x); }
    SortSorts(rs);
    LaminarSkipsInside(sorted, None);
    SameRowHidden(rs, row);
  }

  /** Blocks sharing a row are not laminar, and the reduction drops one: with rows 1 to 3 and 3 to 5
      folded, row 5 stays visible. */
  lemma {:induction false} SharedRowLosesABlock()
    ensures var rs := [FoldedRegion(1, 3), FoldedRegion(3, 5)];
            !Laminar(rs) && HiddenBy(rs[1], 5) && !IsHidden(Roots(rs), 5)
  {
    var rs := [FoldedRegion(1, 3), FoldedRegion(3, 5)];
    assert rs[1..] == [rs[1]] && [rs[1]][1..] == [];
    assert SortRegions([rs[1]]) == [rs[1]];
    assert SortRegions(rs) == rs;
    assert Roots(rs) == [rs[0]];
    assert rs[0] in rs && rs[1] in rs;
  }

  // ----- splitting and shifting -----

  /** A row moved, clamped at zero. */
  function RowBy(r: nat, d: int): nat { if r + d < 0 then 0 else r + d }

  function ShiftRegion(r: FoldedRegion, d: int): FoldedRegion { FoldedRegion(RowBy(r.header, d), RowBy(r.last, d)) }

  function ShiftRows(rs: seq<FoldedRegion>, d: int): (w: seq<FoldedRegion>)
    ensures |w| == |rs|
  {
    if rs == [] then [] else [ShiftRegion(rs[0], d)] + ShiftRows(rs[1..], d)
  }

  /** No row of the list would move above the first. */
  ghost predicate Shiftable(rs: seq<FoldedRegion>, d: int) {
    forall r | r in rs :: r.header + d >= 0 && r.last + d >= 0
  }

  lemma {:induction false} ShiftAt(rs: seq<FoldedRegion>, d: int, i: nat)
    requires i < |rs|
    ensures ShiftRows(rs, d)[i] == ShiftRegion(rs[i], d)
  {
    if i > 0 { ShiftAt(rs[1..], d, i - 1); }
  }

  lemma {:induction false} ShiftableTail(rs: seq<FoldedRegion>, d: int)
    requires rs != [] && Shiftable(rs, d)
    ensures Shiftable(rs[1..], d) && rs[0].header + d >= 0 && rs[0].last + d >= 0
  {
    assert rs[0] in rs;
  }

  lemma {:induction false} ShiftKeepsOrder(a: FoldedRegion, b: FoldedRegion, d: int)
    requires a.header + d >= 0 && a.last + d >= 0 && b.header + d >= 0 && b.last + d >= 0
    ensures OuterFirst(ShiftRegion(a, d), ShiftRegion(b, d)) <==> OuterFirst(a, b)
  {}

  lemma {:induction false} ShiftInsert(r: FoldedRegion, rs: seq<FoldedRegion>, d: int)
    requires Shiftable(rs, d) && r.header + d >= 0 && r.last + d >= 0
    ensures InsertRegion(ShiftRegion(r, d), ShiftRows(rs, d)) == ShiftRows(InsertRegion(r, rs), d)
    decreases |rs|
  {
    hide ShiftRegion, OuterFirst, Shiftable;
    if rs != [] {
      ShiftableTail(rs, d);
      ShiftKeepsOrder(rs[0], r, d);
      if OuterFirst(rs[0], r) {
        ShiftInsert(r, rs[1..], d);
        assert ([rs[0]] + InsertRegion(r, rs[1..]))[1..] == InsertRegion(r, rs[1..]);
      } else {
        assert ([r] + rs)[1..] == rs;
      }
    }
  }

  lemma {:induction false} ShiftSort(rs: seq<FoldedRegion>, d: int)
    requires Shiftable(rs, d)
    ensures Shiftable(SortRegions(rs), d) && SortRegions(ShiftRows(rs, d)) == ShiftRows(SortRegions(rs), d)
    decreases |rs|
  {
    hide InsertRegion, ShiftRegion;
    forall x | x in SortRegions(rs) ensures x in rs { SortMembers(rs, x); }
    if rs != [] {
      ShiftableTail(rs, d);
      ShiftSort(rs[1..], d);
      ShiftInsert(rs[0], SortRegions(rs[1..]), d);
    }
  }

  lemma {:induction false} ShiftRootsAfter(rs: seq<FoldedRegion>, last: Option<nat>, d: int)
    requires Shiftable(rs, d) && (last.Some? ==> last.value + d >= 0)
    ensures RootsAfter(ShiftRows(rs, d), if last.None? then None else Some(RowBy(last.value, d)))
            == ShiftRows(RootsAfter(rs, last), d)
    decreases |rs|
  {
    hide Shiftable;
    if rs != [] {
      ShiftableTail(rs, d);
      if last.None? || rs[0].header > last.value {
        ShiftRootsAfter(rs[1..], Some(rs[0].last), d);
        var rest := RootsAfter(rs[1..], Some(rs[0].last));
        assert ([rs[0]] + rest)[1..] == rest;
      } else {
        ShiftRootsAfter(rs[1..], last, d);
      }
    }
  }

  /** A uniform row shift passes through the reduction. */
  lemma {:induction false} RootsShift(rs: seq<FoldedRegion>, d: int)
    requires Shiftable(rs, d)
    ensures Roots(ShiftRows(rs, d)) == ShiftRows(Roots(rs), d)
  {
    hide SortRegions, RootsAfter, ShiftRows, Shiftable;
    ShiftSort(rs, d);
    ShiftRootsAfter(SortRegions(rs), None, d);
  }

  /** Every block of `a` ends above every block of `b`. */
  ghost predicate AllAbove(a: seq<FoldedRegion>, b: seq<FoldedRegion>) {
    forall x, y | x in a && y in b :: x.last < y.header
  }

  lemma {:induction false} InsertInFirst(r: FoldedRegion, u: seq<FoldedRegion>, v: seq<FoldedRegion>)
    requires forall y | y in v :: r.header < y.header
    ensures InsertRegion(r, u + v) == InsertRegion(r, u) + v
    decreases |u|
  {
    if u == [] {
      assert u + v == v;
      if v != [] { assert v[0] in v; }
    } else {
      assert (u + v)[1..] == u[1..] + v;
      InsertInFirst(r, u[1..], v);
    }
  }

  lemma {:induction false} SortSplit(a: seq<FoldedRegion>, b: seq<FoldedRegion>)
    requires AllAbove(a, b) && AllBlocks(a)
    ensures SortRegions(a + b) == SortRegions(a) + SortRegions(b)
    decreases |a|
  {
    hide InsertRegion;
    if a == [] {
      assert a + b == b;
    } else {
      assert (a + b)[1..] == a[1..] + b;
      SortSplit(a[1..], b);
      forall y | y in SortRegions(b) ensures a[0].header < y.header {
        SortMembers(b, y);
        assert a[0] in a;
      }
      InsertInFirst(a[0], SortRegions(a[1..]), SortRegions(b));
    }
  }

  lemma {:induction false} RootsAfterSplit(u: seq<FoldedRegion>, v: seq<FoldedRegion>, last: Option<nat>)
    requires AllAbove(u, v) && (last.Some? ==> forall y | y in v :: y.header > last.value)
    ensures RootsAfter(u + v, last) == RootsAfter(u, last) + RootsAfter(v, None)
    decreases |u|
  {
    if u == [] {
      assert u + v == v;
      if v != [] { assert v[0] in v; }
    } else {
      assert (u + v)[1..] == u[1..] + v;
      assert u[0] in u;
      if last.None? || u[0].header > last.value {
        RootsAfterSplit(u[1..], v, Some(u[0].last));
      } else {
        RootsAfterSplit(u[1..], v, last);
      }
    }
  }

  /** Blocks wholly above others reduce apart. */
  lemma {:induction false} RootsSplit(a: seq<FoldedRegion>, b: seq<FoldedRegion>)
    requires AllAbove(a, b) && AllBlocks(a)
    ensures Roots(a + b) == Roots(a) + Roots(b)
  {
    hide SortRegions, RootsAfter;
    SortSplit(a, b);
    forall x, y | x in SortRegions(a) && y in SortRegions(b) ensures x.last < y.header {
      SortMembers(a, x);
      SortMembers(b, y);
    }
    RootsAfterSplit(SortRegions(a), SortRegions(b), None);
  }

  lemma {:induction false} RootsFrom(rs: seq<FoldedRegion>)
    requires AllBlocks(rs)
    ensures Disjoined(Roots(rs)) && forall x | x in Roots(rs) :: x in rs
  {
    hide SortRegions, RootsAfter, Disjoined;
    forall x | x in SortRegions(rs) ensures x in rs { SortMembers(rs, x); }
    RootsDisjoined(SortRegions(rs), None);
  }
}
