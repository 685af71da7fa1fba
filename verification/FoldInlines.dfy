/**
 Single-line folds: a delta-gap tree keyed by opener, and their reduction to roots.
 */
module FoldInlines {
  import opened Base
  import opened SumTrees

  /** A collapsed single-line pair: the bytes between its brackets are hidden. */
  datatype InlineFold = InlineFold(row: nat, open: nat, close: nat)

  datatype InlineItem = InlineItem(openGap: nat, width: nat, rowGap: nat)

  datatype InlineSummary = InlineSummary(openSpan: nat, rowSpan: nat, count: nat)

  type ITree = Tree<InlineItem, InlineSummary>

  const NO_INLINE := InlineSummary(0, 0, 0)

  function AddInline(a: InlineSummary, b: InlineSummary): InlineSummary {
    InlineSummary(a.openSpan + b.openSpan, a.rowSpan + b.rowSpan, a.count + b.count)
  }

  function MeasureInline(it: InlineItem): InlineSummary { InlineSummary(it.openGap, it.rowGap, 1) }

  const INLINES: Algebra<InlineItem, InlineSummary> := Algebra(NO_INLINE, AddInline, MeasureInline)

  function OpenDim(s: InlineSummary): nat { s.openSpan }

  function RowDim(s: InlineSummary): nat { s.rowSpan }

  function InlineCount(s: InlineSummary): nat { s.count }

  lemma {:induction false} InlinesAreAMonoid()
    ensures IsMonoid(INLINES)
  {
    forall a, b, c ensures Assoc(INLINES, a, b, c) {}
    forall a ensures Unit(INLINES, a) {}
  }

  lemma {:induction false} InlinesCount()
    ensures Counts(INLINES, InlineCount)
  {}

  lemma {:induction false} OpenAdds()
    ensures Additive(INLINES, OpenDim)
  {}

  function Decode(items: seq<InlineItem>, open: nat, row: nat): (r: seq<InlineFold>)
    ensures |r| == |items|
  {
    if items == [] then []
    else
      var o, w := open + items[0].openGap, row + items[0].rowGap;
      [InlineFold(w, o, o + items[0].width)] + Decode(items[1..], o, w)
  }

  /** Decoding one item at a time. */
  lemma {:induction false} DecodeStep(items: seq<InlineItem>, i: nat, open: nat, row: nat, out: seq<InlineFold>)
    requires i < |items|
    ensures var o, w := open + items[i].openGap, row + items[i].rowGap;
            out + Decode(items[i..], open, row)
            == out + [InlineFold(w, o, o + items[i].width)] + Decode(items[i + 1..], o, w)
  {
    assert items[i..][0] == items[i] && items[i..][1..] == items[i + 1..];
  }

  function Folds(t: ITree): seq<InlineFold> { Decode(Items(t), 0, 0) }

  /** Openers and rows ascend, and no fold closes before it opens. */
  ghost predicate Ascending(fs: seq<InlineFold>) {
    && (forall i | 0 <= i < |fs| :: fs[i].open <= fs[i].close)
    && (forall i, j | 0 <= i < j < |fs| :: fs[i].open <= fs[j].open && fs[i].row <= fs[j].row)
  }

  ghost predicate AscendingFrom(fs: seq<InlineFold>, open: nat, row: nat) {
    Ascending(fs) && (fs != [] ==> open <= fs[0].open && row <= fs[0].row)
  }

  function Encode(fs: seq<InlineFold>, open: nat, row: nat): (r: seq<InlineItem>)
    requires AscendingFrom(fs, open, row)
    ensures |r| == |fs|
  {
    if fs == [] then []
    else
      EncodeTail(fs, open, row);
      [InlineItem(fs[0].open - open, fs[0].close - fs[0].open, fs[0].row - row)] + Encode(fs[1..], fs[0].open,
        fs[0].row)
  }

  lemma {:induction false} EncodeTail(fs: seq<InlineFold>, open: nat, row: nat)
    requires fs != [] && AscendingFrom(fs, open, row)
    ensures AscendingFrom(fs[1..], fs[0].open, fs[0].row)
  {
    forall i, j | 0 <= i < j < |fs[1..]|
      ensures fs[1..][i].open <= fs[1..][j].open && fs[1..][i].row <= fs[1..][j].row
    {
      assert fs[i + 1].open <= fs[j + 1].open;
    }
    if |fs| > 1 { assert fs[0].open <= fs[1].open; }
  }

  lemma {:induction false} DecodeEncode(fs: seq<InlineFold>, open: nat, row: nat)
    requires AscendingFrom(fs, open, row)
    ensures Decode(Encode(fs, open, row), open, row) == fs
    decreases |fs|
  {
    if fs != [] {
      EncodeTail(fs, open, row);
      DecodeEncode(fs[1..], fs[0].open, fs[0].row);
      assert Encode(fs, open, row)[1..] == Encode(fs[1..], fs[0].open, fs[0].row);
    }
  }

  lemma {:induction false} FoldHead(items: seq<InlineItem>)
    requires items != []
    ensures OpenDim(Fold(INLINES, items)) == items[0].openGap + OpenDim(Fold(INLINES, items[1..]))
    ensures RowDim(Fold(INLINES, items)) == items[0].rowGap + RowDim(Fold(INLINES, items[1..]))
  {
    hide Fold;
    InlinesAreAMonoid();
    FoldCons(INLINES, items);
  }

  lemma {:induction false} DecodeConcat(a: seq<InlineItem>, b: seq<InlineItem>, open: nat, row: nat)
    ensures Decode(a + b, open, row)
            == Decode(a, open, row) + Decode(b, open + OpenDim(Fold(INLINES, a)), row + RowDim(Fold(INLINES, a)))
    decreases |a|
  {
    hide Fold;
    if a == [] {
      FoldNil(INLINES);
      assert a + b == b;
    } else {
      FoldHead(a);
      assert (a + b)[1..] == a[1..] + b;
      DecodeConcat(a[1..], b, open + a[0].openGap, row + a[0].rowGap);
    }
  }

  lemma {:induction false} DecodeCut(items: seq<InlineItem>, k: nat)
    requires k <= |items|
    ensures Decode(items, 0, 0)[..k] == Decode(items[..k], 0, 0)
    ensures Decode(items, 0, 0)[k..] == Decode(items[k..], End(INLINES, OpenDim, items, k),
                                               End(INLINES, RowDim, items, k))
  {
    assert items == items[..k] + items[k..];
    DecodeConcat(items[..k], items[k..], 0, 0);
  }

  lemma {:induction false} DecodeAt(items: seq<InlineItem>, k: nat)
    requires k < |items|
    ensures var o, w := End(INLINES, OpenDim, items, k) + items[k].openGap,
            End(INLINES, RowDim, items, k) + items[k].rowGap;
            Decode(items, 0, 0)[k] == InlineFold(w, o, o + items[k].width)
    ensures End(INLINES, OpenDim, items, k + 1) == Decode(items, 0, 0)[k].open
  {
    DecodeCut(items, k);
    assert Decode(items, 0, 0)[k] == Decode(items, 0, 0)[k..][0];
    assert items[..k + 1][..k] == items[..k];
  }

  lemma {:induction false} DecodeAscends(items: seq<InlineItem>, open: nat, row: nat)
    ensures AscendingFrom(Decode(items, open, row), open, row)
    ensures forall f | f in Decode(items, open, row) :: open <= f.open && row <= f.row
    decreases |items|
  {
    if items != [] {
      var o, w := open + items[0].openGap, row + items[0].rowGap;
      DecodeAscends(items[1..], o, w);
      var rest := Decode(items[1..], o, w);
      forall j | 0 <= j < |rest| ensures o <= rest[j].open && w <= rest[j].row { assert rest[j] in rest; }
    }
  }

  // ----- counting and seeking -----

  /** How many folds open strictly before an offset. */
  lemma {:induction false} OpensBefore(t: ITree, off: nat) returns (k: nat)
    requires Valid(INLINES, t)
    ensures k <= |Folds(t)| && SummaryBefore(INLINES, OpenDim, t, off).count == k
    ensures forall i | 0 <= i < |Folds(t)| :: Folds(t)[i].open < off <==> i < k
  {
    hide Fold, Decode, SummaryBefore, Rank;
    var items := Items(t);
    InlinesAreAMonoid();
    InlinesCount();
    OpenAdds();
    SummaryBeforeCorrect(INLINES, OpenDim, t, off);
    k := Rank(INLINES, OpenDim, items, 0, off);
    CountIsLength(INLINES, InlineCount, items[..k]);
    forall i | 0 <= i < |items| ensures Folds(t)[i].open < off <==> i < k {
      RankSpec(INLINES, OpenDim, items, 0, off, i);
      DecodeAt(items, i);
    }
  }

  /** The `k`-th fold's opener and closer. */
  function OpenAt(t: ITree, k: nat): Option<(nat, nat)>
    requires Valid(INLINES, t)
  {
    match Seek(INLINES, InlineCount, OpenDim, t, k)
    case None => None
    case Some(s) => Some((s.also + s.item.openGap, s.also + s.item.openGap + s.item.width))
  }

  lemma {:induction false} OpenAtCorrect(t: ITree, k: nat)
    requires Valid(INLINES, t) && k < |Folds(t)|
    ensures OpenAt(t, k) == Some((Folds(t)[k].open, Folds(t)[k].close))
  {
    hide Fold, Decode, Seek;
    var items := Items(t);
    InlinesAreAMonoid();
    InlinesCount();
    OpenAdds();
    SeekByCount(INLINES, InlineCount, OpenDim, t, k);
    DecodeAt(items, k);
  }

  /** Folds are apart: each closes before the next opens. */
  ghost predicate Apart(fs: seq<InlineFold>) {
    forall i, j | 0 <= i < j < |fs| :: fs[i].close < fs[j].open
  }

  /** Whether some fold's brackets touch `os..=oe`: only the last fold opening at or before `oe`
      needs a look. */
  function Overlaps(t: ITree, os: nat, oe: nat): bool
    requires Valid(INLINES, t)
  {
    var j := SummaryBefore(INLINES, OpenDim, t, oe + 1).count;
    if j == 0 then false
    else match OpenAt(t, j - 1) case None => false case Some(f) => f.1 >= os
  }

  lemma {:induction false} OverlapsCorrect(t: ITree, os: nat, oe: nat)
    requires Valid(INLINES, t) && Apart(Folds(t))
    ensures Overlaps(t, os, oe) <==> exists f :: f in Folds(t) && f.open <= oe && f.close >= os
  {
    hide Decode, Valid, Items, SummaryBefore, OpenAt;
    var fs := Folds(t);
    var j := OpensBefore(t, oe + 1);
    if j > 0 {
      OpenAtCorrect(t, j - 1);
      FoldUpright(t, j - 1);
      assert fs[j - 1] in fs;
    }
    if f :| f in fs && f.open <= oe && f.close >= os {
      var i :| 0 <= i < |fs| && fs[i] == f;
      assert fs[i].open < oe + 1;
      if i < j - 1 {
        FoldUpright(t, j - 1);
        assert fs[i].close < fs[j - 1].open;
      }
    }
  }

  lemma {:induction false} FoldUpright(t: ITree, k: nat)
    requires k < |Folds(t)|
    ensures Folds(t)[k].open <= Folds(t)[k].close
  {
    DecodeAscends(Items(t), 0, 0);
  }

  // ----- roots -----

  predicate Inside(f: InlineFold, r: InlineFold) { r.row == f.row && r.open < f.open && f.close < r.close }

  predicate OpensFirst(a: InlineFold, b: InlineFold) { a.open < b.open || (a.open == b.open && a.close > b.close) }

  function InsertInline(f: InlineFold, fs: seq<InlineFold>): seq<InlineFold> {
    if fs == [] || !OpensFirst(fs[0], f) then [f] + fs else [fs[0]] + InsertInline(f, fs[1..])
  }

  function SortInline(fs: seq<InlineFold>): seq<InlineFold> {
    if fs == [] then [] else InsertInline(fs[0], SortInline(fs[1..]))
  }

  function RootsInline(fs: seq<InlineFold>, last: Option<InlineFold>): seq<InlineFold> {
    if fs == [] then []
    else if last.None? || !Inside(fs[0], last.value) then [fs[0]] + RootsInline(fs[1..], Some(fs[0]))
    else RootsInline(fs[1..], last)
  }

  function InlineRoots(fs: seq<InlineFold>): seq<InlineFold> { RootsInline(SortInline(fs), None) }

  /** `a` may stand before `b`: it opens first, or they open together and it closes no earlier. */
  ghost predicate OuterFirst(a: InlineFold, b: InlineFold) {
    a.open < b.open || (a.open == b.open && b.close <= a.close)
  }

  ghost predicate SortedInline(fs: seq<InlineFold>) {
    forall i, j | 0 <= i < j < |fs| :: OuterFirst(fs[i], fs[j])
  }

  /** The sort keeps every fold and puts the outer ones first. */
  lemma {:induction false} SortInlineSorts(fs: seq<InlineFold>)
    ensures multiset(SortInline(fs)) == multiset(fs) && SortedInline(SortInline(fs))
    decreases |fs|
  {
    if fs != [] {
      hide InsertInline, OuterFirst;
      SortInlineSorts(fs[1..]);
      InsertInlineSorts(fs[0], SortInline(fs[1..]));
      assert fs == [fs[0]] + fs[1..];
    }
  }

  lemma {:induction false} InsertInlineSorts(f: InlineFold, fs: seq<InlineFold>)
    requires SortedInline(fs)
    ensures multiset(InsertInline(f, fs)) == multiset(fs) + multiset{f} && SortedInline(InsertInline(f, fs))
    decreases |fs|
  {
    if fs == [] || !OpensFirst(fs[0], f) {
      forall j | 0 <= j < |fs| ensures OuterFirst(f, fs[j]) { assert j > 0 ==> OuterFirst(fs[0], fs[j]); }
      assert multiset([f] + fs) == multiset(fs) + multiset{f};
    } else {
      var h, rest := fs[0], fs[1..];
      assert fs == [h] + rest;
      forall i, j | 0 <= i < j < |rest| ensures OuterFirst(rest[i], rest[j]) {
        assert OuterFirst(fs[i + 1], fs[j + 1]);
      }
      InsertInlineSorts(f, rest);
      var w := InsertInline(f, rest);
      forall x | x in w ensures OuterFirst(h, x) {
        assert x in multiset(w);
        if x != f {
          assert x in rest;
          var k :| 0 <= k < |rest| && rest[k] == x;
          assert OuterFirst(fs[0], fs[k + 1]);
        }
      }
      forall j | 0 <= j < |w| ensures OuterFirst(h, w[j]) { assert w[j] in w; }
    }
  }

  /** The reduction as it runs. */
  method RootInline(inline: seq<InlineFold>) returns (roots: seq<InlineFold>)
    ensures roots == InlineRoots(inline)
  {
    hide SortInline, Inside;
    var sorted := SortInline(inline);
    roots := [];
    for i := 0 to |sorted|
      invariant InlineRoots(inline) == roots + RootsInline(sorted[i..], if roots == [] then None
                                                           else Some(roots[|roots| - 1]))
    {
      var f := sorted[i];
      assert sorted[i..][0] == f && sorted[i..][1..] == sorted[i + 1..];
      if roots == [] || !Inside(f, roots[|roots| - 1]) {
        roots := roots + [f];
      }
    }
    assert sorted[|sorted|..] == [];
  }

  /** Openers strictly ascend. */
  ghost predicate Rising(fs: seq<InlineFold>) { forall i, j | 0 <= i < j < |fs| :: fs[i].open < fs[j].open }

  /** Pairs nest or lie apart; a pair inside another is on its row; each opens before it closes, and
      rows follow openers. */
  ghost predicate LaminarPairs(fs: seq<InlineFold>) {
    && (forall i | 0 <= i < |fs| :: fs[i].open < fs[i].close)
    && (forall i, j | 0 <= i < j < |fs| :: NestOrApart(fs[i], fs[j]))
  }

  predicate NestOrApart(a: InlineFold, b: InlineFold) {
    a.row <= b.row && (a.close < b.open || (b.close < a.close && a.row == b.row))
  }

  lemma {:induction false} SortOfRising(fs: seq<InlineFold>)
    requires Rising(fs)
    ensures SortInline(fs) == fs
    decreases |fs|
  {
    if fs != [] {
      SortOfRising(fs[1..]);
      if |fs| > 1 { assert fs[0].open < fs[1].open; }
    }
  }

  lemma {:induction false} RootsInlineFrom(fs: seq<InlineFold>, last: Option<InlineFold>)
    ensures forall x | x in RootsInline(fs, last) :: x in fs
  {
    if fs != [] {
      RootsInlineFrom(fs[1..], Some(fs[0]));
      RootsInlineFrom(fs[1..], last);
    }
  }

  /** Pairs nest or lie apart, so the roots lie apart, in order. */
  lemma {:induction false} RootsApart(fs: seq<InlineFold>, last: Option<InlineFold>)
    requires Rising(fs) && LaminarPairs(fs)
    requires last.Some? ==> forall f | f in fs :: Inside(f, last.value) || last.value.close < f.open
    ensures var r := RootsInline(fs, last);
            Apart(r) && Ascending(r) && forall x | x in r :: x in fs && (last.Some? ==> last.value.close < x.open)
    decreases |fs|
  {
    hide Inside;
    if fs == [] {
    } else {
      var f := fs[0];
      var tail := fs[1..];
      assert f in fs;
      TailLaminar(fs);
      if last.None? || !Inside(f, last.value) {
        forall x | x in tail ensures Inside(x, f) || f.close < x.open { TailInside(fs, x); }
        RootsApart(tail, Some(f));
        var rest := RootsInline(tail, Some(f));
        forall x | x in rest ensures f.row <= x.row { TailInside(fs, x); }
        ApartCons(f, rest);
      } else {
        RootsApart(tail, last);
      }
    }
  }

  lemma {:induction false} TailLaminar(fs: seq<InlineFold>)
    requires fs != [] && Rising(fs) && LaminarPairs(fs)
    ensures Rising(fs[1..]) && LaminarPairs(fs[1..])
  {
    forall i, j | 0 <= i < j < |fs[1..]|
      ensures fs[1..][i].open < fs[1..][j].open && NestOrApart(fs[1..][i], fs[1..][j])
    {
      assert fs[i + 1].open < fs[j + 1].open && NestOrApart(fs[i + 1], fs[j + 1]);
    }
  }

  lemma {:induction false} TailInside(fs: seq<InlineFold>, x: InlineFold)
    requires fs != [] && Rising(fs) && LaminarPairs(fs) && x in fs[1..]
    ensures Inside(x, fs[0]) || fs[0].close < x.open
    ensures fs[0].row <= x.row && fs[0].open < fs[0].close
  {
    var k :| 0 <= k < |fs[1..]| && fs[1..][k] == x;
    assert fs[k + 1] == x && fs[0].open < fs[k + 1].open;
  }

  lemma {:induction false} ApartCons(f: InlineFold, rest: seq<InlineFold>)
    requires Apart(rest) && Ascending(rest) && f.open <= f.close
    requires forall x | x in rest :: f.close < x.open && f.row <= x.row
    ensures Apart([f] + rest) && Ascending([f] + rest)
  {
    forall j | 0 <= j < |rest| ensures f.close < rest[j].open && f.row <= rest[j].row { assert rest[j] in rest; }
  }

  /** The roots are exactly the folds inside no other. */
  lemma {:induction false} RootsMembers(fs: seq<InlineFold>, last: Option<InlineFold>, x: InlineFold)
    requires Rising(fs) && LaminarPairs(fs)
    requires last.Some? ==> forall f | f in fs :: Inside(f, last.value) || last.value.close < f.open
    ensures x in RootsInline(fs, last)
            <==> x in fs && (last.Some? ==> !Inside(x, last.value)) && forall y | y in fs :: !Inside(x, y)
    decreases |fs|
  {
    if fs != [] {
      var f := fs[0];
      var tail := fs[1..];
      assert f in fs;
      TailLaminar(fs);
      forall y | y in tail ensures f.open < y.open && (Inside(y, f) || f.close < y.open) { TailRises(fs, y); }
      assert f !in tail;
      if last.None? || !Inside(f, last.value) {
        RootsMembers(tail, Some(f), x);
      } else {
        RootsMembers(tail, last, x);
      }
    }
  }

  lemma {:induction false} TailRises(fs: seq<InlineFold>, y: InlineFold)
    requires fs != [] && Rising(fs) && LaminarPairs(fs) && y in fs[1..]
    ensures fs[0].open < y.open && (Inside(y, fs[0]) || fs[0].close < y.open)
  {
    TailInside(fs, y);
    var k :| 0 <= k < |fs[1..]| && fs[1..][k] == y;
    assert fs[k + 1] == y && fs[0].open < fs[k + 1].open;
  }

  /** Rising lists of the same folds are the same list. */
  lemma {:induction false} RisingUnique(a: seq<InlineFold>, b: seq<InlineFold>)
    requires Rising(a) && Rising(b) && forall x :: x in a <==> x in b
    ensures a == b
    decreases |a|
  {
    if a == [] || b == [] {
      if a != [] { HasFirst(a); }
      if b != [] { HasFirst(b); }
    } else {
      assert a[0] in b && b[0] in a;
      RisingHead(a, b[0]);
      RisingHead(b, a[0]);
      assert a[0] == b[0];
      forall x ensures x in a[1..] <==> x in b[1..] {
        RisingRest(a, x);
        RisingRest(b, x);
      }
      forall i, j | 0 <= i < j < |a[1..]| ensures a[1..][i].open < a[1..][j].open {
        assert a[i + 1].open < a[j + 1].open;
      }
      forall i, j | 0 <= i < j < |b[1..]| ensures b[1..][i].open < b[1..][j].open {
        assert b[i + 1].open < b[j + 1].open;
      }
      RisingUnique(a[1..], b[1..]);
      assert a == [a[0]] + a[1..] && b == [b[0]] + b[1..];
    }
  }

  lemma {:induction false} HasFirst(a: seq<InlineFold>)
    requires a != []
    ensures exists x :: x in a
  {
    assert a[0] in a;
  }

  lemma {:induction false} RisingHead(a: seq<InlineFold>, x: InlineFold)
    requires Rising(a) && x in a
    ensures x == a[0] || a[0].open < x.open
  {}

  lemma {:induction false} RisingRest(a: seq<InlineFold>, x: InlineFold)
    requires Rising(a) && a != []
    ensures x in a[1..] <==> x in a && x != a[0]
  {
    assert a == [a[0]] + a[1..];
    if x in a[1..] {
      var k :| 0 <= k < |a[1..]| && a[1..][k] == x;
      assert a[0].open < a[k + 1].open;
    }
  }

  // ----- splitting and shifting -----

  function By(x: nat, d: int): nat { if x + d < 0 then 0 else x + d }

  function ShiftFold(f: InlineFold, delta: int, d: int): InlineFold {
    InlineFold(By(f.row, d), By(f.open, delta), By(f.close, delta))
  }

  function ShiftFolds(fs: seq<InlineFold>, delta: int, d: int): (w: seq<InlineFold>)
    ensures |w| == |fs|
  {
    if fs == [] then [] else [ShiftFold(fs[0], delta, d)] + ShiftFolds(fs[1..], delta, d)
  }

  ghost predicate Shiftable(fs: seq<InlineFold>, delta: int, d: int) {
    forall f | f in fs :: f.row + d >= 0 && f.open + delta >= 0 && f.close + delta >= 0
  }

  lemma {:induction false} ShiftAt(fs: seq<InlineFold>, delta: int, d: int, i: nat)
    requires i < |fs|
    ensures ShiftFolds(fs, delta, d)[i] == ShiftFold(fs[i], delta, d)
  {
    if i > 0 { ShiftAt(fs[1..], delta, d, i - 1); }
  }

  lemma {:induction false} ShiftableTail(fs: seq<InlineFold>, delta: int, d: int)
    requires fs != [] && Shiftable(fs, delta, d)
    ensures Shiftable(fs[1..], delta, d) && fs[0].row + d >= 0 && fs[0].open + delta >= 0 && fs[0].close + delta >= 0
  {
    assert fs[0] in fs;
  }

  lemma {:induction false} ShiftConcat(a: seq<InlineFold>, b: seq<InlineFold>, delta: int, d: int)
    ensures ShiftFolds(a + b, delta, d) == ShiftFolds(a, delta, d) + ShiftFolds(b, delta, d)
    decreases |a|
  {
    if a == [] {
      assert a + b == b;
    } else {
      assert (a + b)[1..] == a[1..] + b;
      ShiftConcat(a[1..], b, delta, d);
    }
  }

  lemma {:induction false} ShiftInside(f: InlineFold, r: InlineFold, delta: int, d: int)
    requires f.row + d >= 0 && f.open + delta >= 0 && f.close + delta >= 0
    requires r.row + d >= 0 && r.open + delta >= 0 && r.close + delta >= 0
    ensures Inside(ShiftFold(f, delta, d), ShiftFold(r, delta, d)) <==> Inside(f, r)
  {}

  lemma {:induction false} ShiftRoots(fs: seq<InlineFold>, last: Option<InlineFold>, delta: int, d: int)
    requires Shiftable(fs, delta, d)
    requires last.Some? ==> last.value.row + d >= 0 && last.value.open + delta >= 0 && last.value.close + delta >= 0
    ensures RootsInline(ShiftFolds(fs, delta, d), if last.None? then None else Some(ShiftFold(last.value, delta, d)))
            == ShiftFolds(RootsInline(fs, last), delta, d)
    decreases |fs|
  {
    hide Shiftable, Inside, ShiftFold;
    if fs != [] {
      ShiftableTail(fs, delta, d);
      if last.Some? { ShiftInside(fs[0], last.value, delta, d); }
      if last.None? || !Inside(fs[0], last.value) {
        ShiftRoots(fs[1..], Some(fs[0]), delta, d);
        var rest := RootsInline(fs[1..], Some(fs[0]));
        assert ([fs[0]] + rest)[1..] == rest;
      } else {
        ShiftRoots(fs[1..], last, delta, d);
      }
    }
  }

  lemma {:induction false} RootsInlineSplit(u: seq<InlineFold>, v: seq<InlineFold>, last: Option<InlineFold>)
    requires forall x, y | x in u && y in v :: x.close < y.open && y.open <= y.close
    requires last.Some? ==> forall y | y in v :: last.value.close < y.open && y.open <= y.close
    ensures RootsInline(u + v, last) == RootsInline(u, last) + RootsInline(v, None)
    decreases |u|
  {
    if u == [] {
      assert u + v == v;
      if v != [] { assert v[0] in v; }
    } else {
      assert (u + v)[1..] == u[1..] + v;
      assert u[0] in u;
      if last.None? || !Inside(u[0], last.value) {
        RootsInlineSplit(u[1..], v, Some(u[0]));
      } else {
        RootsInlineSplit(u[1..], v, last);
      }
    }
  }

  /** Roots of pairs before an edit stay, roots of pairs after it shift as one. */
  lemma {:induction false} RootsMove(u: seq<InlineFold>, v: seq<InlineFold>, delta: int, d: int)
    requires Rising(u + v) && Rising(u + ShiftFolds(v, delta, d)) && Shiftable(v, delta, d)
    requires forall x, y | x in u && y in v :: x.close < y.open && y.open <= y.close && x.close < y.open + delta
    ensures InlineRoots(u + v) == RootsInline(u, None) + RootsInline(v, None)
    ensures InlineRoots(u + ShiftFolds(v, delta, d)) == RootsInline(u, None) + ShiftFolds(RootsInline(v, None), delta,
            d)
  {
    hide RootsInline, SortInline, Rising, ShiftFolds;
    SortOfRising(u + v);
    SortOfRising(u + ShiftFolds(v, delta, d));
    RootsInlineSplit(u, v, None);
    ShiftRoots(v, None, delta, d);
    forall x, y | x in u && y in ShiftFolds(v, delta, d) ensures x.close < y.open && y.open <= y.close {
      var i :| 0 <= i < |ShiftFolds(v, delta, d)| && ShiftFolds(v, delta, d)[i] == y;
      ShiftAt(v, delta, d, i);
      assert v[i] in v;
    }
    RootsInlineSplit(u, ShiftFolds(v, delta, d), None);
  }
}
