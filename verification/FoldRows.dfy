/**
 The fold projection: buffer rows to display rows and back, by descents of the delta-gap region
 tree.
 */
module FoldRows {
  import opened Base
  import opened SumTrees

  /** A collapsed block: it hides the rows after its header, its last row included. */
  datatype FoldedRegion = FoldedRegion(header: nat, last: nat)

  /** `vgap`: rows from the previous block's last row; `span`: the rows hidden. */
  datatype Region = Region(vgap: nat, span: nat)

  datatype RegionSummary = RegionSummary(vgapSum: nat, spanSum: nat, count: nat)

  type RTree = Tree<Region, RegionSummary>

  function AddRegions(a: RegionSummary, b: RegionSummary): RegionSummary {
    RegionSummary(a.vgapSum + b.vgapSum, a.spanSum + b.spanSum, a.count + b.count)
  }

  function MeasureRegion(r: Region): RegionSummary { RegionSummary(r.vgap, r.span, 1) }

  const NO_REGIONS := RegionSummary(0, 0, 0)

  const REGIONS: Algebra<Region, RegionSummary> := Algebra(NO_REGIONS, AddRegions, MeasureRegion)

  /** The last row of a block. */
  function LastDim(s: RegionSummary): nat { s.vgapSum + s.spanSum }

  /** The display row of a block's header. */
  function DispDim(s: RegionSummary): nat { s.vgapSum }

  /** Rows hidden. */
  function HiddenDim(s: RegionSummary): nat { s.spanSum }

  function RegionCount(s: RegionSummary): nat { s.count }

  lemma {:induction false} RegionsAreAMonoid()
    ensures IsMonoid(REGIONS)
  {
    forall a, b, c ensures Assoc(REGIONS, a, b, c) {}
    forall a ensures Unit(REGIONS, a) {}
  }

  lemma {:induction false} RegionsCount()
    ensures Counts(REGIONS, RegionCount)
  {}

  lemma {:induction false} LastSum(a: RegionSummary, b: RegionSummary)
    ensures LastDim(AddRegions(a, b)) == LastDim(a) + LastDim(b)
    ensures LastDim(NO_REGIONS) == 0
  {}

  lemma {:induction false} LastAdds()
    ensures Additive(REGIONS, LastDim)
  {
    hide LastDim, AddRegions, NO_REGIONS;
    forall a, b ensures LastDim(REGIONS.add(a, b)) == LastDim(a) + LastDim(b) { LastSum(a, b); }
    LastSum(NO_REGIONS, NO_REGIONS);
  }

  lemma {:induction false} HiddenAdds()
    ensures Additive(REGIONS, HiddenDim)
  {}

  /** The blocks, decoded to absolute rows from `from`. */
  function Decode(items: seq<Region>, from: nat): (r: seq<FoldedRegion>)
    ensures |r| == |items|
  {
    if items == [] then []
    else
      var header := from + items[0].vgap;
      [FoldedRegion(header, header + items[0].span)] + Decode(items[1..], header + items[0].span)
  }

  function Blocks(t: RTree): seq<FoldedRegion> { Decode(Items(t), 0) }

  /** Blocks in order, none sharing a row with the next, each hiding at least one row. */
  ghost predicate Disjoined(bs: seq<FoldedRegion>) {
    && (forall i | 0 <= i < |bs| :: bs[i].header < bs[i].last)
    && (forall i, j | 0 <= i < j < |bs| :: bs[i].last < bs[j].header)
  }

  /** A map's blocks lie within its rows. */
  ghost predicate Within(bs: seq<FoldedRegion>, rows: nat) {
    Disjoined(bs) && forall i | 0 <= i < |bs| :: bs[i].last < rows
  }

  ghost predicate HiddenBy(b: FoldedRegion, r: nat) { b.header < r <= b.last }

  ghost predicate IsHidden(bs: seq<FoldedRegion>, r: nat) {
    exists i | 0 <= i < |bs| :: HiddenBy(bs[i], r)
  }

  /** Rows hidden by the first `k` blocks. */
  function HiddenIn(bs: seq<FoldedRegion>, k: nat): int
    requires k <= |bs|
  {
    if k == 0 then 0 else HiddenIn(bs, k - 1) + (bs[k - 1].last - bs[k - 1].header)
  }

  lemma {:induction false} EndStep(items: seq<Region>, k: nat)
    requires k < |items|
    ensures End(REGIONS, LastDim, items, k + 1) == End(REGIONS, LastDim, items, k) + items[k].vgap + items[k].span
    ensures End(REGIONS, DispDim, items, k + 1) == End(REGIONS, DispDim, items, k) + items[k].vgap
    ensures End(REGIONS, HiddenDim, items, k + 1) == End(REGIONS, HiddenDim, items, k) + items[k].span
    ensures End(REGIONS, LastDim, items, k) == End(REGIONS, DispDim, items, k) + End(REGIONS, HiddenDim, items, k)
  {
    assert items[..k + 1][..k] == items[..k];
  }

  lemma {:induction false} FoldHead(items: seq<Region>)
    requires items != []
    ensures LastDim(Fold(REGIONS, items)) == items[0].vgap + items[0].span + LastDim(Fold(REGIONS, items[1..]))
  {
    hide Fold;
    RegionsAreAMonoid();
    FoldCons(REGIONS, items);
  }

  lemma {:induction false} DecodeConcat(a: seq<Region>, b: seq<Region>, from: nat)
    ensures Decode(a + b, from) == Decode(a, from) + Decode(b, from + LastDim(Fold(REGIONS, a)))
    decreases |a|
  {
    hide Fold;
    if a == [] {
      FoldNil(REGIONS);
      assert a + b == b;
    } else {
      FoldHead(a);
      assert (a + b)[1..] == a[1..] + b;
      DecodeConcat(a[1..], b, from + a[0].vgap + a[0].span);
    }
  }

  /** A block, from the dimensions accumulated before it. */
  lemma {:induction false} DecodeAt(items: seq<Region>, k: nat)
    requires k < |items|
    ensures var h := End(REGIONS, LastDim, items, k) + items[k].vgap;
            Decode(items, 0)[k] == FoldedRegion(h, h + items[k].span)
    ensures Decode(items, 0)[k].last == End(REGIONS, LastDim, items, k + 1)
  {
    hide Fold;
    assert items == items[..k] + items[k..];
    DecodeConcat(items[..k], items[k..], 0);
    assert Decode(items, 0)[k] == Decode(items[k..], End(REGIONS, LastDim, items, k))[0];
    EndStep(items, k);
  }

  lemma {:induction false} HiddenIsEnd(items: seq<Region>, k: nat)
    requires k <= |items|
    ensures HiddenIn(Decode(items, 0), k) == End(REGIONS, HiddenDim, items, k)
    decreases k
  {
    hide Decode;
    if k > 0 {
      HiddenIsEnd(items, k - 1);
      EndStep(items, k - 1);
      DecodeAt(items, k - 1);
    }
  }

  /** A header's display row. */
  lemma {:induction false} DisplayIsEnd(items: seq<Region>, k: nat)
    requires k < |items|
    ensures Decode(items, 0)[k].header - HiddenIn(Decode(items, 0), k) == End(REGIONS, DispDim, items, k + 1)
  {
    hide Decode, Fold;
    HiddenIsEnd(items, k);
    DecodeAt(items, k);
    EndStep(items, k);
  }

  // ----- seeking a row -----

  /** The first block ending after `r`, or the last block. */
  ghost predicate FirstEndingAfter(bs: seq<FoldedRegion>, r: nat, k: nat) {
    && k < |bs|
    && (forall i | 0 <= i < k :: bs[i].last <= r)
    && (k < |bs| - 1 ==> bs[k].last > r)
  }

  datatype Located = Located(header: nat, last: nat, span: nat, hiddenBefore: nat)

  lemma {:induction false} SeekIndexSpec(items: seq<Region>, start: nat, r: nat)
    requires items != []
    ensures var k := SeekIndex(REGIONS, LastDim, items, start, r);
            && (forall i | 0 <= i < k :: Decode(items, start)[i].last <= r)
            && (k < |items| - 1 ==> Decode(items, start)[k].last > r)
    decreases |items|
  {
    var end := start + items[0].vgap + items[0].span;
    if end <= r && |items| > 1 {
      SeekIndexSpec(items[1..], end, r);
    }
  }

  /** The block bracketing a row, found by one descent. */
  function Locate(t: RTree, r: nat): Option<Located>
    requires Valid(REGIONS, t)
  {
    match Seek(REGIONS, LastDim, HiddenDim, t, r)
    case None => None
    case Some(s) =>
      var header := s.at + s.item.vgap;
      Some(Located(header, header + s.item.span, s.item.span, s.also))
  }

  lemma {:induction false} LocateCorrect(t: RTree, r: nat) returns (k: nat)
    requires Valid(REGIONS, t)
    ensures var bs := Blocks(t);
            if bs == [] then Locate(t, r) == None
            else FirstEndingAfter(bs, r, k) && HiddenIn(bs, k) >= 0 && bs[k].header <= bs[k].last
                 && Locate(t, r) == Some(Located(bs[k].header, bs[k].last, bs[k].last - bs[k].header, HiddenIn(bs, k)))
  {
    hide Fold, Decode, SeekFrom, HiddenIn, SeekIndex;
    var items := Items(t);
    RegionsAreAMonoid();
    LastAdds();
    HiddenAdds();
    EmptyIffNoItems(REGIONS, t);
    k := 0;
    if items != [] {
      SeekCorrect(REGIONS, LastDim, HiddenDim, t, 0, 0, r);
      k := SeekIndex(REGIONS, LastDim, items, 0, r);
      SeekIndexSpec(items, 0, r);
      DecodeAt(items, k);
      HiddenIsEnd(items, k);
    }
  }

  // ----- the projection -----

  /** Buffer row to display row; a hidden row clips to its header. */
  function ToDisplayRow(t: RTree, r: nat): int
    requires Valid(REGIONS, t)
  {
    match Locate(t, r)
    case None => r
    case Some(l) =>
      if l.header < r <= l.last then l.header - l.hiddenBefore
      else if r <= l.header then r - l.hiddenBefore
      else r - l.hiddenBefore - l.span
  }

  /** Display row to buffer row: add back what the headers displayed above hide. */
  function ToBufferRow(t: RTree, d: nat): nat { d + SummaryBefore(REGIONS, DispDim, t, d).spanSum }

  function DisplayRowCount(t: RTree, rows: nat): int { rows - t.summary.spanSum }

  /** How many headers display strictly above `d`. */
  ghost predicate HeadersAbove(bs: seq<FoldedRegion>, d: int, j: nat) {
    j <= |bs| && forall i | 0 <= i < |bs| :: bs[i].header - HiddenIn(bs, i) < d <==> i < j
  }

  lemma {:induction false} ToBufferRowCorrect(t: RTree, d: nat) returns (j: nat)
    requires Valid(REGIONS, t)
    ensures HeadersAbove(Blocks(t), d, j) && ToBufferRow(t, d) == d + HiddenIn(Blocks(t), j)
  {
    hide Fold, Decode, SummaryBefore, HiddenIn, Rank;
    var items := Items(t);
    RegionsAreAMonoid();
    SummaryBeforeCorrect(REGIONS, DispDim, t, d);
    j := Rank(REGIONS, DispDim, items, 0, d);
    HiddenIsEnd(items, j);
    forall i | 0 <= i < |items| ensures Blocks(t)[i].header - HiddenIn(Blocks(t), i) < d <==> i < j {
      RankSpec(REGIONS, DispDim, items, 0, d, i);
      DisplayIsEnd(items, i);
    }
  }

  lemma {:induction false} TotalHidden(t: RTree)
    requires Valid(REGIONS, t)
    ensures HiddenIn(Blocks(t), |Blocks(t)|) == t.summary.spanSum
  {
    hide Fold, Decode, HiddenIn;
    var items := Items(t);
    RegionsAreAMonoid();
    SummaryIsFold(REGIONS, t);
    HiddenIsEnd(items, |items|);
    assert items[..|items|] == items;
  }

  // ----- arithmetic of disjoint blocks -----

  lemma {:induction false} HiddenStep(bs: seq<FoldedRegion>, k: nat)
    requires k < |bs|
    ensures HiddenIn(bs, k + 1) == HiddenIn(bs, k) + (bs[k].last - bs[k].header)
  {}

  /** Header display rows rise. */
  lemma {:induction false} HeadersRise(bs: seq<FoldedRegion>, i: nat, j: nat)
    requires Disjoined(bs) && i < j < |bs|
    ensures bs[i].header - HiddenIn(bs, i) < bs[j].header - HiddenIn(bs, j)
    decreases j - i
  {
    hide HiddenIn;
    HiddenStep(bs, j - 1);
    if i < j - 1 { HeadersRise(bs, i, j - 1); }
  }

  /** Every row a block list does not hide: how many blocks end before it, and its display row. */
  ghost predicate Above(bs: seq<FoldedRegion>, r: nat, k: nat) {
    && k <= |bs|
    && (forall i | 0 <= i < k :: bs[i].last < r)
    && (forall i | k <= i < |bs| :: r <= bs[i].header)
  }

  lemma {:induction false} VisibleIsAbove(bs: seq<FoldedRegion>, r: nat, n: nat) returns (k: nat)
    requires Disjoined(bs) && !IsHidden(bs, r) && n <= |bs| && forall i | 0 <= i < n :: bs[i].last < r
    ensures Above(bs, r, k)
    decreases |bs| - n
  {
    if n == |bs| || r <= bs[n].header {
      k := n;
    } else {
      assert !HiddenBy(bs[n], r);
      k := VisibleIsAbove(bs, r, n + 1);
    }
  }

  lemma {:induction false} HeadersAboveLeast(bs: seq<FoldedRegion>, d: int, j: nat, k: nat)
    requires HeadersAbove(bs, d, j) && HeadersAbove(bs, d, k)
    ensures k <= j
  {
    hide HiddenIn;
    if j < |bs| {
      assert !(bs[j].header - HiddenIn(bs, j) < d);
    }
  }

  /** For a visible row, the headers displayed above it are the blocks ending before it. */
  lemma {:induction false} AboveIsHeaders(bs: seq<FoldedRegion>, r: nat, k: nat)
    requires Disjoined(bs) && Above(bs, r, k)
    ensures HeadersAbove(bs, r - HiddenIn(bs, k), k)
  {
    hide HiddenIn;
    if k > 0 { HiddenStep(bs, k - 1); }
    forall i | 0 <= i < |bs| ensures bs[i].header - HiddenIn(bs, i) < r - HiddenIn(bs, k) <==> i < k {
      if i < k - 1 { HeadersRise(bs, i, k - 1); }
      if k < i { HeadersRise(bs, k, i); }
    }
  }

  lemma {:induction false} AboveHeaders(bs: seq<FoldedRegion>, r: nat, k: nat, j: nat)
    requires Disjoined(bs) && Above(bs, r, k) && HeadersAbove(bs, r - HiddenIn(bs, k), j)
    ensures j == k
  {
    hide HiddenIn;
    AboveIsHeaders(bs, r, k);
    HeadersAboveLeast(bs, r - HiddenIn(bs, k), j, k);
    HeadersAboveLeast(bs, r - HiddenIn(bs, k), k, j);
  }

  /** Disjoint blocks' spans fit between the first header and the last row. */
  lemma {:induction false} SpansFit(bs: seq<FoldedRegion>, k: nat, n: nat)
    requires Disjoined(bs) && k < n <= |bs|
    ensures HiddenIn(bs, n) - HiddenIn(bs, k) <= bs[n - 1].last - bs[k].header
    ensures HiddenIn(bs, n) > HiddenIn(bs, k)
    decreases n - k
  {
    hide HiddenIn;
    HiddenStep(bs, n - 1);
    if k < n - 1 {
      SpansFit(bs, k, n - 1);
      assert bs[n - 2].last < bs[n - 1].header;
    }
  }

  lemma {:induction false} HiddenBounds(bs: seq<FoldedRegion>, k: nat)
    requires Disjoined(bs) && k <= |bs|
    ensures HiddenIn(bs, 0) == 0 <= HiddenIn(bs, k)
    ensures k > 0 ==> HiddenIn(bs, k) <= bs[k - 1].last
  {
    if k > 0 {
      SpansFit(bs, 0, k);
    }
  }

  lemma {:induction false} HiddenRises(bs: seq<FoldedRegion>, i: nat, j: nat)
    requires Disjoined(bs) && i <= j <= |bs|
    ensures HiddenIn(bs, i) <= HiddenIn(bs, j)
  {
    hide HiddenIn;
    if i < j { SpansFit(bs, i, j); }
  }

  lemma {:induction false} AboveIsVisible(bs: seq<FoldedRegion>, r: nat, k: nat)
    requires Disjoined(bs) && Above(bs, r, k)
    ensures !IsHidden(bs, r)
  {
    forall i | 0 <= i < |bs| ensures !HiddenBy(bs[i], r) {
      if i < k { assert bs[i].last < r; } else { assert r <= bs[i].header; }
    }
  }

  lemma {:induction false} LocateAbove(bs: seq<FoldedRegion>, r: nat, k: nat, m: nat)
    requires Disjoined(bs) && Above(bs, r, m) && FirstEndingAfter(bs, r, k)
    ensures if m < |bs| then k == m else k == |bs| - 1 && bs[k].last < r
  {
    if m < |bs| { assert bs[m].last > r; }
    if k < m { assert bs[k].last < r; }
  }

  /** A visible row's display row: what the blocks above hide is taken off. */
  lemma {:induction false} VisibleDisplay(t: RTree, r: nat, m: nat)
    requires Valid(REGIONS, t) && Disjoined(Blocks(t)) && Above(Blocks(t), r, m)
    ensures ToDisplayRow(t, r) == r - HiddenIn(Blocks(t), m)
  {
    hide Decode, HiddenIn, Seek, Valid, Items;
    var bs := Blocks(t);
    var k := LocateCorrect(t, r);
    HiddenBounds(bs, 0);
    if bs != [] {
      LocateAbove(bs, r, k, m);
      HiddenStep(bs, k);
    }
  }

  /** Buffer to display and back: every visible row has a display row of its own. */
  lemma {:induction false} VisibleRoundTrip(t: RTree, rows: nat, r: nat)
    requires Valid(REGIONS, t) && Within(Blocks(t), rows) && r < rows && !IsHidden(Blocks(t), r)
    ensures 0 <= ToDisplayRow(t, r) < DisplayRowCount(t, rows)
    ensures ToBufferRow(t, ToDisplayRow(t, r)) == r
  {
    hide Decode, HiddenIn, Seek, Valid, Items, ToBufferRow, ToDisplayRow, IsHidden;
    var bs := Blocks(t);
    var m := VisibleIsAbove(bs, r, 0);
    VisibleDisplay(t, r, m);
    HiddenBounds(bs, m);
    TotalHidden(t);
    if m < |bs| { SpansFit(bs, m, |bs|); }
    var j := ToBufferRowCorrect(t, r - HiddenIn(bs, m));
    AboveHeaders(bs, r, m, j);
  }

  lemma {:induction false} HeadersBracket(bs: seq<FoldedRegion>, d: nat, j: nat)
    requires Disjoined(bs) && HeadersAbove(bs, d, j) && HiddenIn(bs, j) >= 0
    ensures Above(bs, d + HiddenIn(bs, j), j)
  {
    hide HiddenIn;
    var b := d + HiddenIn(bs, j);
    if j > 0 {
      HiddenStep(bs, j - 1);
      assert bs[j - 1].header - HiddenIn(bs, j - 1) < d;
    }
    if j < |bs| { assert !(bs[j].header - HiddenIn(bs, j) < d); }
    forall i | 0 <= i < j ensures bs[i].last < b {
      if i < j - 1 { assert bs[i].last < bs[j - 1].header; }
    }
    forall i | j <= i < |bs| ensures b <= bs[i].header {
      if j < i { assert bs[j].last < bs[i].header; }
    }
  }

  /** Display to buffer and back: every display row shows one visible row. */
  lemma {:induction false} DisplayRoundTrip(t: RTree, rows: nat, d: nat)
    requires Valid(REGIONS, t) && Within(Blocks(t), rows) && d < DisplayRowCount(t, rows)
    ensures ToBufferRow(t, d) < rows && !IsHidden(Blocks(t), ToBufferRow(t, d))
    ensures ToDisplayRow(t, ToBufferRow(t, d)) == d
  {
    hide Decode, HiddenIn, Seek, Valid, Items, ToBufferRow, ToDisplayRow, IsHidden, HeadersAbove;
    var bs := Blocks(t);
    var j := ToBufferRowCorrect(t, d);
    HeadersBound(bs, d, j);
    HiddenBounds(bs, j);
    HeadersBracket(bs, d, j);
    AboveIsVisible(bs, ToBufferRow(t, d), j);
    VisibleDisplay(t, ToBufferRow(t, d), j);
    TotalHidden(t);
    if j < |bs| { assert ToBufferRow(t, d) <= bs[j].header; }
  }

  lemma {:induction false} HeadersBound(bs: seq<FoldedRegion>, d: int, j: nat)
    requires HeadersAbove(bs, d, j)
    ensures j <= |bs|
  {}

  /** Display order is buffer order. */
  lemma {:induction false} ToBufferRowRises(t: RTree, d: nat, e: nat)
    requires Valid(REGIONS, t) && Disjoined(Blocks(t)) && d < e
    ensures ToBufferRow(t, d) < ToBufferRow(t, e)
  {
    hide Decode, HiddenIn, Valid, Items, ToBufferRow;
    var bs := Blocks(t);
    var i := ToBufferRowCorrect(t, d);
    var j := ToBufferRowCorrect(t, e);
    MoreHeadersAbove(bs, d, e, i, j);
    HiddenRises(bs, i, j);
  }

  lemma {:induction false} MoreHeadersAbove(bs: seq<FoldedRegion>, d: int, e: int, i: nat, j: nat)
    requires HeadersAbove(bs, d, i) && HeadersAbove(bs, e, j) && d <= e
    ensures i <= j
  {
    hide HiddenIn;
    if j < |bs| { assert !(bs[j].header - HiddenIn(bs, j) < e); }
  }

  lemma {:induction false} HeaderIsAbove(bs: seq<FoldedRegion>, i: nat)
    requires Disjoined(bs) && i < |bs|
    ensures Above(bs, bs[i].header, i)
  {
    forall j | i <= j < |bs| ensures bs[i].header <= bs[j].header {
      if i < j { assert bs[i].last < bs[j].header; }
    }
  }

  lemma {:induction false} LocateHidden(bs: seq<FoldedRegion>, r: nat, i: nat, k: nat)
    requires Disjoined(bs) && i < |bs| && HiddenBy(bs[i], r) && FirstEndingAfter(bs, r, k)
    ensures if r < bs[i].last || i == |bs| - 1 then k == i else k == i + 1 && r < bs[k].header
  {
    var n: nat := i + 1;
    if n < |bs| { LastsRise(bs, i, n); }
    if k < i { LastsRise(bs, k, i); }
    if k > i { EndedBy(bs, r, k, i); }
    if k > n { EndedBy(bs, r, k, n); }
  }

  lemma {:induction false} LastsRise(bs: seq<FoldedRegion>, i: nat, j: nat)
    requires Disjoined(bs) && i < j < |bs|
    ensures bs[i].header < bs[i].last < bs[j].header < bs[j].last
  {}

  lemma {:induction false} EndedBy(bs: seq<FoldedRegion>, r: nat, k: nat, i: nat)
    requires FirstEndingAfter(bs, r, k) && i < k
    ensures bs[i].last <= r
  {}

  /** Every hidden row, the closing row included, shows at its header, even with another block just
      below. */
  lemma {:induction false} HiddenClipsToHeader(t: RTree, r: nat, i: nat)
    requires Valid(REGIONS, t) && Disjoined(Blocks(t)) && i < |Blocks(t)| && HiddenBy(Blocks(t)[i], r)
    ensures ToDisplayRow(t, r) == ToDisplayRow(t, Blocks(t)[i].header)
    ensures !IsHidden(Blocks(t), Blocks(t)[i].header)
  {
    hide Decode, HiddenIn, Seek, Valid, Items, IsHidden;
    var bs := Blocks(t);
    HeaderIsAbove(bs, i);
    AboveIsVisible(bs, bs[i].header, i);
    VisibleDisplay(t, bs[i].header, i);
    var k := LocateCorrect(t, r);
    LocateHidden(bs, r, i, k);
    HiddenStep(bs, i);
  }

  // ----- containment, headers and tails -----

  /** The tail-inclusive descent: the first block ending at or after `r`, or the last block. */
  function Containing(t: RTree, r: nat): Option<Located>
    requires Valid(REGIONS, t)
  {
    Locate(t, SatSub(r, 1))
  }

  function FoldContaining(t: RTree, r: nat): Option<FoldedRegion>
    requires Valid(REGIONS, t)
  {
    match Containing(t, r)
    case None => None
    case Some(l) => if l.header < r <= l.last then Some(FoldedRegion(l.header, l.last)) else None
  }

  /** A row is folded exactly when some block hides it, and that block is found. */
  lemma {:induction false} FoldContainingCorrect(t: RTree, r: nat)
    requires Valid(REGIONS, t) && Disjoined(Blocks(t))
    ensures FoldContaining(t, r).None? <==> !IsHidden(Blocks(t), r)
    ensures FoldContaining(t, r).Some? ==>
            FoldContaining(t, r).value in Blocks(t) && HiddenBy(FoldContaining(t, r).value, r)
  {
    hide Decode, HiddenIn, Seek, Valid, Items;
    var bs := Blocks(t);
    var k: nat := LocateCorrect(t, SatSub(r, 1));
    var q: nat := SatSub(r, 1);
    if i: nat :| 0 <= i < |bs| && HiddenBy(bs[i], r) {
      if k < i { LastsRise(bs, k, i); }
      if i < k { EndedBy(bs, q, k, i); }
    }
    if bs != [] { assert bs[k] in bs; }
  }

  function FoldAtHeader(t: RTree, r: nat): Option<nat>
    requires Valid(REGIONS, t)
  {
    match Locate(t, r)
    case None => None
    case Some(l) => if l.header == r then Some(l.last) else None
  }

  lemma {:induction false} FoldAtHeaderCorrect(t: RTree, h: nat, l: nat)
    requires Valid(REGIONS, t) && Disjoined(Blocks(t))
    ensures FoldAtHeader(t, h) == Some(l) <==> FoldedRegion(h, l) in Blocks(t)
  {
    hide Decode, HiddenIn, Seek, Valid, Items;
    var bs := Blocks(t);
    var k: nat := LocateCorrect(t, h);
    if bs != [] { assert bs[k] in bs; }
    if FoldedRegion(h, l) in bs {
      var i: nat :| i < |bs| && bs[i] == FoldedRegion(h, l);
      if k < i { LastsRise(bs, k, i); }
      if i < k { EndedBy(bs, h, k, i); }
    }
  }

  function HeaderOfTail(t: RTree, r: nat): Option<nat>
    requires Valid(REGIONS, t)
  {
    var j := SummaryBefore(REGIONS, LastDim, t, r).count;
    match Seek(REGIONS, RegionCount, LastDim, t, j)
    case None => None
    case Some(s) =>
      var last := s.also + s.item.vgap + s.item.span;
      if last == r then Some(last - s.item.span) else None
  }

  lemma {:induction false} CountOf(s: RegionSummary)
    ensures RegionCount(s) == s.count
  {}

  /** How many blocks end strictly before `r`, and the block the count seek lands on. */
  lemma {:induction false} TailCount(t: RTree, r: nat) returns (j: nat)
    requires Valid(REGIONS, t)
    ensures var bs := Blocks(t);
            && j <= |bs|
            && (forall i | 0 <= i < |bs| :: bs[i].last < r <==> i < j)
            && SummaryBefore(REGIONS, LastDim, t, r).count == j
  {
    hide Fold, Decode, SummaryBefore, Rank, LastDim, RegionCount;
    var items := Items(t);
    RegionsAreAMonoid();
    RegionsCount();
    LastAdds();
    CountOf(SummaryBefore(REGIONS, LastDim, t, r));
    SummaryBeforeCorrect(REGIONS, LastDim, t, r);
    j := Rank(REGIONS, LastDim, items, 0, r);
    CountIsLength(REGIONS, RegionCount, items[..j]);
    forall i | 0 <= i < |items| ensures Blocks(t)[i].last < r <==> i < j {
      RankSpec(REGIONS, LastDim, items, 0, r, i);
      DecodeAt(items, i);
    }
  }

  lemma {:induction false} SeekTail(t: RTree, j: nat)
    requires Valid(REGIONS, t)
    ensures var bs := Blocks(t); var s := Seek(REGIONS, RegionCount, LastDim, t, j);
            if bs == [] then s == None
            else s.Some? && var i := if j < |bs| then j else |bs| - 1;
                 bs[i] == FoldedRegion(s.value.also + s.value.item.vgap,
                                       s.value.also + s.value.item.vgap + s.value.item.span)
  {
    hide Fold, Decode, Seek, LastDim, RegionCount;
    var items := Items(t);
    RegionsAreAMonoid();
    RegionsCount();
    LastAdds();
    SeekByCount(REGIONS, RegionCount, LastDim, t, j);
    if items != [] { DecodeAt(items, if j < |items| then j else |items| - 1); }
  }

  lemma {:induction false} HeaderOfTailCorrect(t: RTree, h: nat, l: nat)
    requires Valid(REGIONS, t) && Disjoined(Blocks(t))
    ensures HeaderOfTail(t, l) == Some(h) <==> FoldedRegion(h, l) in Blocks(t)
  {
    hide Decode, Seek, Valid, Items, SummaryBefore;
    var bs := Blocks(t);
    var j := TailCount(t, l);
    SeekTail(t, j);
    if bs != [] {
      var k: nat := if j < |bs| then j else |bs| - 1;
      assert bs[k] in bs;
      if FoldedRegion(h, l) in bs {
        var i: nat :| i < |bs| && bs[i] == FoldedRegion(h, l);
        assert !(bs[i].last < l);
        if i < k { LastsRise(bs, i, k); }
        if k < i { LastsRise(bs, k, i); }
      }
    }
  }

  /** `HeaderOfTail` inverts `FoldAtHeader`. */
  lemma {:induction false} TailInvertsHeader(t: RTree, h: nat, l: nat)
    requires Valid(REGIONS, t) && Disjoined(Blocks(t))
    ensures FoldAtHeader(t, h) == Some(l) <==> HeaderOfTail(t, l) == Some(h)
  {
    hide FoldAtHeader, HeaderOfTail, Valid, Disjoined;
    FoldAtHeaderCorrect(t, h, l);
    HeaderOfTailCorrect(t, h, l);
  }
}
