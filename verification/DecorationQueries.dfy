/**
 Reading the decoration tree: the interval query, counts, ranks and selection, each equal to
 walking the whole ordered list.
 */
module DecorationQueries {
  import opened Base
  import opened SumTrees
  import opened DecorationItems

  /** The ranges `f` accepts, in order. */
  function Select(v: seq<Tracked>, f: Tracked -> bool): seq<Tracked> {
    if v == [] then [] else SelectOne(v[0], f) + Select(v[1..], f)
  }

  function SelectOne(r: Tracked, f: Tracked -> bool): seq<Tracked> { if f(r) then [r] else [] }

  lemma {:induction false} SelectCons(v: seq<Tracked>, f: Tracked -> bool)
    requires v != []
    ensures Select(v, f) == SelectOne(v[0], f) + Select(v[1..], f)
  {}

  lemma {:induction false} SelectConcat(a: seq<Tracked>, b: seq<Tracked>, f: Tracked -> bool)
    ensures Select(a + b, f) == Select(a, f) + Select(b, f)
    decreases |a|
  {
    if a == [] {
      assert a + b == b;
    } else {
      assert (a + b)[0] == a[0] && (a + b)[1..] == a[1..] + b;
      SelectCons(a, f);
      SelectCons(a + b, f);
      hide *;
      SelectConcat(a[1..], b, f);
      Regroup(SelectOne(a[0], f), Select(a[1..], f), Select(b, f));
    }
  }

  lemma {:induction false} SelectNone(v: seq<Tracked>, f: Tracked -> bool)
    requires forall i | 0 <= i < |v| :: !f(v[i])
    ensures Select(v, f) == []
  {
    if v != [] { SelectNone(v[1..], f); }
  }

  lemma {:induction false} SelectAll(v: seq<Tracked>, f: Tracked -> bool)
    requires forall i | 0 <= i < |v| :: f(v[i])
    ensures Select(v, f) == v
  {
    if v != [] { SelectAll(v[1..], f); }
  }

  lemma {:induction false} SelectSame(v: seq<Tracked>, f: Tracked -> bool, g: Tracked -> bool)
    requires forall i | 0 <= i < |v| :: f(v[i]) == g(v[i])
    ensures Select(v, f) == Select(v, g)
  {
    if v != [] { SelectSame(v[1..], f, g); }
  }

  lemma {:induction false} SelectMembers(v: seq<Tracked>, f: Tracked -> bool, r: Tracked)
    ensures r in Select(v, f) <==> r in v && f(r)
  {
    if v != [] { SelectMembers(v[1..], f, r); }
  }

  lemma {:induction false} SelectOrdered(v: seq<Tracked>, f: Tracked -> bool)
    requires Ordered(v)
    ensures Ordered(Select(v, f))
  {
    if v != [] {
      var s := Select(v[1..], f);
      SelectOrdered(v[1..], f);
      forall j | 0 <= j < |s| ensures Before(v[0], s[j]) {
        SelectMembers(v[1..], f, s[j]);
        var k :| 0 <= k < |v[1..]| && v[1..][k] == s[j];
        assert Before(v[0], v[k + 1]);
      }
    }
  }

  // ----- the interval query -----

  /** Touching counts, so an empty range on the boundary still does. */
  predicate Touches(r: Tracked, qs: nat, qe: nat) { r.start <= qe && r.end >= qs }

  function Touching(qs: nat, qe: nat): Tracked -> bool { r => Touches(r, qs, qe) }

  function Resolve(v: Visit<DecoItem>): Tracked {
    var start := v.before + v.item.gap;
    Tracked(v.item.id, start, start + v.item.len, v.item.kind, v.item.stickiness)
  }

  function ResolveAll(vs: seq<Visit<DecoItem>>): (r: seq<Tracked>)
    ensures |r| == |vs|
  {
    if vs == [] then [] else [Resolve(vs[0])] + ResolveAll(vs[1..])
  }

  /** Enter a run only if it can hold a start at or below `qe` and an end at or above `qs`. */
  function MayTouch(qs: nat, qe: nat): (nat, DecoSummary) -> bool {
    (before: nat, sum: DecoSummary) => before <= qe && before + sum.maxEnd >= qs
  }

  function ItemTouches(qs: nat, qe: nat): (DecoItem, nat) -> bool {
    (it: DecoItem, before: nat) => Touches(Resolve(Visit(it, before)), qs, qe)
  }

  /** The interval descent. */
  function DecorationsIn(t: DTree, qs: nat, qe: nat): seq<Tracked> {
    ResolveAll(Keep(FilterVisit(DECOS, StartDim, t, 0, MayTouch(qs, qe)), ItemTouches(qs, qe)))
  }

  /** Nothing ends beyond a run's cached furthest end, or starts before its base. */
  lemma {:induction false} PrunedRunHasNoTouch(items: seq<DecoItem>, start: nat, qs: nat, qe: nat)
    requires !MayTouch(qs, qe)(start, Fold(DECOS, items))
    ensures Keep(VisitItems(DECOS, StartDim, items, start), ItemTouches(qs, qe)) == []
    decreases |items|
  {
    hide Fold;
    if items != [] {
      FoldStep(items);
      PrunedRunHasNoTouch(items[1..], start + items[0].gap, qs, qe);
    }
  }

  lemma {:induction false} TouchPruningIsSafe(qs: nat, qe: nat)
    ensures PruningIsSafe(DECOS, StartDim, MayTouch(qs, qe), ItemTouches(qs, qe))
  {
    hide Fold, MayTouch, ItemTouches;
    forall items: seq<DecoItem>, start: nat | !MayTouch(qs, qe)(start, Fold(DECOS, items))
      ensures Keep(VisitItems(DECOS, StartDim, items, start), ItemTouches(qs, qe)) == []
    {
      PrunedRunHasNoTouch(items, start, qs, qe);
    }
  }

  lemma {:induction false} KeptVisitsResolve(items: seq<DecoItem>, start: nat, qs: nat, qe: nat)
    ensures ResolveAll(Keep(VisitItems(DECOS, StartDim, items, start), ItemTouches(qs, qe)))
            == Select(Decode(items, start), Touching(qs, qe))
    decreases |items|
  {
    if items != [] {
      KeptVisitsResolve(items[1..], start + items[0].gap, qs, qe);
      var first := Visit(items[0], start);
      var rest := VisitItems(DECOS, StartDim, items[1..], start + items[0].gap);
      assert VisitItems(DECOS, StartDim, items, start)[1..] == rest;
      var kept := Keep(rest, ItemTouches(qs, qe));
      assert ([first] + kept)[1..] == kept && [] + kept == kept;
      assert Decode(items, start)[1..] == Decode(items[1..], start + items[0].gap);
    }
  }

  /** The pruned query yields exactly the ranges a linear touch filter would, in order. */
  lemma {:induction false} DecorationsInIsLinear(t: DTree, qs: nat, qe: nat)
    requires Valid(DECOS, t)
    ensures DecorationsIn(t, qs, qe) == Select(Ranges(t), Touching(qs, qe))
  {
    hide Valid, AddSummary, MeasureItem, Select, Decode, Items, Touching, Touches, IsMonoid, Counts,
         CountDim, Additive, StartDim, FindDim, PruningIsSafe, MayTouch, ItemTouches, Keep, FilterVisit,
         VisitItems, ResolveAll;
    DecosAreAMonoid();
    TouchPruningIsSafe(qs, qe);
    FilterVisitCorrect(DECOS, StartDim, t, 0, MayTouch(qs, qe), ItemTouches(qs, qe));
    KeptVisitsResolve(Items(t), 0, qs, qe);
  }

  /** A position between a range's ends, the ends included. */
  ghost predicate Reaches(r: Tracked, x: nat) { r.start <= x <= r.end }

  /** The query yields exactly the ranges that share a position with the stretch asked for, ends
      included on both sides. */
  lemma {:induction false} DecorationsInMembers(t: DTree, qs: nat, qe: nat, r: Tracked)
    requires Valid(DECOS, t) && qs <= qe
    ensures r in DecorationsIn(t, qs, qe) <==> r in Ranges(t) && exists x | qs <= x <= qe :: Reaches(r, x)
  {
    hide Valid, DecorationsIn, Select;
    DecorationsInIsLinear(t, qs, qe);
    SelectMembers(Ranges(t), Touching(qs, qe), r);
    if r in Ranges(t) && Touches(r, qs, qe) {
      RangeUpright(t, r);
      assert Reaches(r, Max(r.start, qs));
    }
  }

  lemma {:induction false} RangeUpright(t: DTree, r: Tracked)
    requires r in Ranges(t)
    ensures r.start <= r.end
  {
    DecodeUpright(Items(t), 0, r);
  }

  lemma {:induction false} DecodeUpright(items: seq<DecoItem>, from: nat, r: Tracked)
    requires r in Decode(items, from)
    ensures r.start <= r.end
    decreases |items|
  {
    var start := from + items[0].gap;
    if r in Decode(items[1..], start) { DecodeUpright(items[1..], start, r); }
  }

  // ----- counting starts -----

  /** `k` ranges, a prefix, start before `off`. */
  ghost predicate StartsBefore(v: seq<Tracked>, off: nat, k: nat) {
    && k <= |v|
    && (forall i | 0 <= i < k :: v[i].start < off)
    && (forall i | k <= i < |v| :: v[i].start >= off)
  }

  /** The prefix fold before an offset, and how many ranges it holds. */
  lemma {:induction false} PrefixOfStarts(t: DTree, off: nat) returns (k: nat)
    requires Valid(DECOS, t)
    ensures StartsBefore(Ranges(t), off, k)
    ensures SummaryBefore(DECOS, StartDim, t, off) == Fold(DECOS, Items(t)[..k])
    ensures SummaryBefore(DECOS, StartDim, t, off).count == k
  {
    hide Fold, SummaryBefore, Decode, Rank;
    var items := Items(t);
    DecosAreAMonoid();
    SummaryBeforeCorrect(DECOS, StartDim, t, off);
    k := Rank(DECOS, StartDim, items, 0, off);
    CountIsLength(DECOS, CountDim, items[..k]);
    forall i | 0 <= i < |items| ensures i < k <==> Ranges(t)[i].start < off {
      RankSpec(DECOS, StartDim, items, 0, off, i);
      DecodeAt(items, 0, i);
    }
  }

  // ----- find matches: count, rank, select -----

  predicate IsFind(r: Tracked) { r.kind.FindMatch? }

  /** The find matches of an ordered list, in order. */
  function Finds(v: seq<Tracked>): seq<Tracked> { Select(v, IsFind) }

  lemma {:induction false} FindCountIs(items: seq<DecoItem>, from: nat)
    ensures Fold(DECOS, items).findCount == |Finds(Decode(items, from))|
    decreases |items|
  {
    if items == [] {
    } else {
      hide Fold;
      FoldStep(items);
      FindCountIs(items[1..], from + items[0].gap);
    }
  }

  /** How many find matches there are: a read of the root. */
  function FindCount(t: DTree): nat { t.summary.findCount }

  lemma {:induction false} FindCountCorrect(t: DTree)
    requires Valid(DECOS, t)
    ensures FindCount(t) == |Finds(Ranges(t))|
  {
    hide Valid, AddSummary, MeasureItem, Finds, Select, IsFind, Decode, Items, IsMonoid, Counts, CountDim,
         Additive, StartDim, FindDim, Fold;
    DecosAreAMonoid();
    SummaryIsFold(DECOS, t);
    FindCountIs(Items(t), 0);
  }

  /** How many find matches start strictly before `off`. */
  function FindRankBefore(t: DTree, off: nat): nat { SummaryBefore(DECOS, StartDim, t, off).findCount }

  predicate FindBefore(r: Tracked, off: nat) { IsFind(r) && r.start < off }

  lemma {:induction false} FindsOfPrefix(v: seq<Tracked>, off: nat, k: nat)
    requires StartsBefore(v, off, k)
    ensures Finds(v[..k]) == Select(v, r => FindBefore(r, off))
  {
    var f := r => FindBefore(r, off);
    SelectConcat(v[..k], v[k..], f);
    assert v[..k] + v[k..] == v;
    SelectSame(v[..k], IsFind, f);
    SelectNone(v[k..], f);
  }

  lemma {:induction false} FindRankBeforeCorrect(t: DTree, off: nat)
    requires Valid(DECOS, t)
    ensures FindRankBefore(t, off) == |Select(Ranges(t), r => FindBefore(r, off))|
  {
    hide Fold, SummaryBefore, Decode, Select, Finds;
    var k := PrefixOfStarts(t, off);
    FindCountIs(Items(t)[..k], 0);
    DecodeCut(Items(t), 0, k);
    FindsOfPrefix(Ranges(t), off, k);
  }

  /** The `r`-th find match, by an order-statistic seek. */
  function NthFind(t: DTree, r: nat): Option<(nat, Span)>
    requires Valid(DECOS, t)
  {
    if r >= FindCount(t) then None
    else
      match Seek(DECOS, FindDim, StartDim, t, r)
      case None => None
      case Some(s) => Some((s.item.id, Span(s.also + s.item.gap, s.also + s.item.gap + s.item.len)))
  }

  /** The seek lands on the item carrying the `r`-th find increment, which is the `r`-th find. */
  lemma {:induction false} SeekLandsOnFind(items: seq<DecoItem>, from: nat, a: nat, r: nat)
    requires items != [] && a <= r < a + |Finds(Decode(items, from))|
    ensures var k := SeekIndex(DECOS, FindDim, items, a, r);
            Decode(items, from)[k] == Finds(Decode(items, from))[r - a]
    decreases |items|
  {
    var rest, next := items[1..], from + items[0].gap;
    var s := FindDim(MeasureItem(items[0]));
    assert Finds(Decode(items, from)) == (if s == 1 then [Decode(items, from)[0]] else []) + Finds(Decode(rest, next));
    if a + s <= r {
      SeekLandsOnFind(rest, next, a + s, r);
    }
  }

  lemma {:induction false} NthFindCorrect(t: DTree, r: nat)
    requires Valid(DECOS, t)
    ensures var finds := Finds(Ranges(t));
            NthFind(t, r) == if r >= |finds| then None
                             else Some((finds[r].id, Span(finds[r].start, finds[r].end)))
  {
    hide Fold, Decode, Finds, SeekIndex;
    var items, finds := Items(t), Finds(Ranges(t));
    FindCountCorrect(t);
    if r < |finds| {
      DecosAreAMonoid();
      EmptyIffNoItems(DECOS, t);
      NoFindsInNothing(items);
      SeekCorrect(DECOS, FindDim, StartDim, t, 0, 0, r);
      SeekLandsOnFind(items, 0, 0, r);
      DecodeAt(items, 0, SeekIndex(DECOS, FindDim, items, 0, r));
    }
  }

  lemma {:induction false} NoFindsInNothing(items: seq<DecoItem>)
    ensures items == [] ==> Finds(Decode(items, 0)) == []
  {}

  /** Finds are numbered by start: the rank of a find is its index. */
  lemma {:induction false} FindsOrdered(v: seq<Tracked>)
    requires Ordered(v)
    ensures Ordered(Finds(v)) && forall i | 0 <= i < |Finds(v)| :: IsFind(Finds(v)[i]) && Finds(v)[i] in v
  {
    hide Ordered;
    SelectOrdered(v, IsFind);
    forall i | 0 <= i < |Finds(v)| ensures IsFind(Finds(v)[i]) && Finds(v)[i] in v {
      SelectMembers(v, IsFind, Finds(v)[i]);
    }
  }
}
