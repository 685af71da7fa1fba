/**
 The tracked ranges a store holds, and the delta-gap items that encode them.

 An item stores only its gap from the previous start and its length.  The store's order is
 ascending start, ties by identity.
 */
module DecorationItems {
  import opened Base
  import opened SumTrees

  datatype Severity = Hint | Info | Warning | Error

  /** How the two ends react to text inserted exactly on them. */
  datatype Stickiness = AlwaysGrows | NeverGrows | GrowsOnlyBefore | GrowsOnlyAfter
  {
    function StartBias(): Bias { if AlwaysGrows? || GrowsOnlyBefore? then Left else Right }

    function EndBias(): Bias { if AlwaysGrows? || GrowsOnlyAfter? then Right else Left }
  }

  datatype Kind =
    | Diagnostic(severity: Severity, message: string, code: Option<string>)
    | FindMatch
    | SnippetStop(index: nat)
    | AutoClosePair
    | InlayHint(anchored: bool)
  {
    /** A range of this kind goes when it collapses to empty. */
    predicate DropsWhenEmpty() { FindMatch? || (InlayHint? && anchored) }

    /** A hint that goes when one edit replaces all of its token. */
    predicate RidesAToken() { InlayHint? && anchored }

    function SeverityCode(): nat {
      if !Diagnostic? then 0
      else match severity case Hint => 1 case Info => 2 case Warning => 3 case Error => 4
    }
  }

  datatype Tracked = Tracked(id: nat, start: nat, end: nat, kind: Kind, stickiness: Stickiness)

  datatype DecoItem = DecoItem(gap: nat, len: nat, id: nat, kind: Kind, stickiness: Stickiness)

  datatype RawSummary = RawSummary(span: nat, count: nat, maxEnd: nat, findCount: nat, sevMax: nat)

  /** Relative coordinates: the run's width, and its furthest end from the run's base. */
  type DecoSummary = s: RawSummary | s.span <= s.maxEnd witness RawSummary(0, 0, 0, 0, 0)

  const NO_ITEMS: DecoSummary := RawSummary(0, 0, 0, 0, 0)

  type DTree = Tree<DecoItem, DecoSummary>

  function AddSummary(a: DecoSummary, b: DecoSummary): DecoSummary {
    RawSummary(a.span + b.span, a.count + b.count, Max(a.maxEnd, a.span + b.maxEnd),
               a.findCount + b.findCount, Max(a.sevMax, b.sevMax))
  }

  function MeasureItem(it: DecoItem): DecoSummary {
    RawSummary(it.gap, 1, it.gap + it.len, if it.kind.FindMatch? then 1 else 0, it.kind.SeverityCode())
  }

  const DECOS: Algebra<DecoItem, DecoSummary> := Algebra(NO_ITEMS, AddSummary, MeasureItem)

  function StartDim(s: DecoSummary): nat { s.span }

  function CountDim(s: DecoSummary): nat { s.count }

  function FindDim(s: DecoSummary): nat { s.findCount }

  lemma {:induction false} DecosAreAMonoid()
    ensures IsMonoid(DECOS)
    ensures Counts(DECOS, CountDim) && Additive(DECOS, StartDim) && Additive(DECOS, FindDim)
  {
    forall a: DecoSummary, b: DecoSummary, c: DecoSummary ensures Assoc(DECOS, a, b, c) {}
    forall a: DecoSummary ensures Unit(DECOS, a) {}
  }

  // ----- decoding and encoding -----

  /** The items as ranges at absolute offsets, the first gap counted from `from`. */
  function Decode(items: seq<DecoItem>, from: nat): (r: seq<Tracked>)
    ensures |r| == |items|
  {
    if items == [] then []
    else
      var start := from + items[0].gap;
      [Tracked(items[0].id, start, start + items[0].len, items[0].kind, items[0].stickiness)]
      + Decode(items[1..], start)
  }

  /** The ranges a tree holds. */
  function Ranges(t: DTree): seq<Tracked> { Decode(Items(t), 0) }

  /** A start and an end the right way round, none starting before `from` or the one before it. */
  ghost predicate Sorted(v: seq<Tracked>, from: nat) {
    && (forall i | 0 <= i < |v| :: from <= v[i].start <= v[i].end)
    && (forall i, j | 0 <= i < j < |v| :: v[i].start <= v[j].start)
  }

  /** The start of the last range placed, or where the next gap counts from. */
  function LastStart(v: seq<Tracked>, from: nat): nat {
    if v == [] then from else v[|v| - 1].start
  }

  function Encode(v: seq<Tracked>, from: nat): (r: seq<DecoItem>)
    requires Sorted(v, from)
    ensures |r| == |v|
  {
    if v == [] then []
    else
      [DecoItem(v[0].start - from, v[0].end - v[0].start, v[0].id, v[0].kind, v[0].stickiness)]
      + Encode(v[1..], v[0].start)
  }

  function Shifted(r: Tracked, d: int): Tracked
    requires 0 <= r.start + d && r.start <= r.end
  {
    Tracked(r.id, r.start + d, r.end + d, r.kind, r.stickiness)
  }

  function Moved(v: seq<Tracked>, d: int): (r: seq<Tracked>)
    requires forall i | 0 <= i < |v| :: v[i].start + d >= 0 && v[i].start <= v[i].end
    ensures |r| == |v|
  {
    seq(|v|, i requires 0 <= i < |v| => Shifted(v[i], d))
  }

  lemma {:induction false} FoldStep(items: seq<DecoItem>)
    requires items != []
    ensures Fold(DECOS, items) == AddSummary(MeasureItem(items[0]), Fold(DECOS, items[1..]))
  {
    hide Fold;
    DecosAreAMonoid();
    FoldCons(DECOS, items);
  }

  lemma {:induction false} DecodeSorted(items: seq<DecoItem>, from: nat)
    ensures Sorted(Decode(items, from), from)
  {
    if items != [] {
      DecodeSorted(items[1..], from + items[0].gap);
    }
  }

  lemma {:induction false} DecodeConcat(a: seq<DecoItem>, b: seq<DecoItem>, from: nat)
    ensures Decode(a + b, from) == Decode(a, from) + Decode(b, from + Fold(DECOS, a).span)
    decreases |a|
  {
    hide Fold;
    if a == [] {
      FoldNil(DECOS);
      assert a + b == b;
    } else {
      FoldStep(a);
      assert (a + b)[1..] == a[1..] + b;
      DecodeConcat(a[1..], b, from + a[0].gap);
    }
  }

  lemma {:induction false} DecodeCut(items: seq<DecoItem>, from: nat, k: nat)
    requires k <= |items|
    ensures Decode(items, from)[..k] == Decode(items[..k], from)
    ensures Decode(items, from)[k..] == Decode(items[k..], from + End(DECOS, StartDim, items, k))
  {
    assert items == items[..k] + items[k..];
    DecodeConcat(items[..k], items[k..], from);
  }

  /** A range starts at the end of its own gap. */
  lemma {:induction false} DecodeAt(items: seq<DecoItem>, from: nat, k: nat)
    requires k < |items|
    ensures var it := items[k]; var s := from + End(DECOS, StartDim, items, k) + it.gap;
            Decode(items, from)[k] == Tracked(it.id, s, s + it.len, it.kind, it.stickiness)
    ensures End(DECOS, StartDim, items, k + 1) == End(DECOS, StartDim, items, k) + items[k].gap
  {
    DecodeCut(items, from, k);
    assert Decode(items, from)[k] == Decode(items, from)[k..][0];
    assert items[..k + 1][..k] == items[..k];
  }

  lemma {:induction false} SpanIsLastStart(items: seq<DecoItem>)
    ensures Fold(DECOS, items).span == LastStart(Decode(items, 0), 0)
  {
    if items != [] {
      var k := |items| - 1;
      DecodeAt(items, 0, k);
      assert items[..k + 1] == items;
    }
  }

  lemma {:induction false} DecodeEncode(v: seq<Tracked>, from: nat)
    requires Sorted(v, from)
    ensures Decode(Encode(v, from), from) == v
    decreases |v|
  {
    if v != [] {
      DecodeEncode(v[1..], v[0].start);
      assert Encode(v, from)[1..] == Encode(v[1..], v[0].start);
    }
  }

  lemma {:induction false} DecodeMoved(items: seq<DecoItem>, from: nat, to: nat)
    ensures Sorted(Decode(items, from), from)
    ensures Decode(items, to) == Moved(Decode(items, from), to - from)
    decreases |items|
  {
    DecodeSorted(items, from);
    if items != [] {
      DecodeMoved(items[1..], from + items[0].gap, to + items[0].gap);
    }
  }

  // ----- the store's order -----

  predicate Before(a: Tracked, b: Tracked) {
    a.start < b.start || (a.start == b.start && a.id < b.id)
  }

  ghost predicate Ordered(v: seq<Tracked>) {
    forall i, j | 0 <= i < j < |v| :: Before(v[i], v[j])
  }

  ghost predicate DistinctIds(v: seq<Tracked>) {
    forall i, j | 0 <= i < j < |v| :: v[i].id != v[j].id
  }

  ghost predicate UprightRanges(v: seq<Tracked>) {
    forall i | 0 <= i < |v| :: v[i].start <= v[i].end
  }

  lemma {:induction false} OrderedIsSorted(v: seq<Tracked>)
    requires Ordered(v) && UprightRanges(v)
    ensures Sorted(v, 0)
  {
    forall i, j | 0 <= i < j < |v| ensures v[i].start <= v[j].start {
      assert Before(v[i], v[j]);
    }
  }

  /** Insert by `(start, id)`. */
  function InsertSorted(r: Tracked, v: seq<Tracked>): (w: seq<Tracked>)
    ensures multiset(w) == multiset{r} + multiset(v)
  {
    if v == [] || Before(r, v[0]) then [r] + v
    else
      assert v == [v[0]] + v[1..];
      [v[0]] + InsertSorted(r, v[1..])
  }

  /** The `(start, id)` sort. */
  function SortRanges(v: seq<Tracked>): (w: seq<Tracked>)
    ensures multiset(w) == multiset(v)
  {
    if v == [] then []
    else
      assert v == [v[0]] + v[1..];
      InsertSorted(v[0], SortRanges(v[1..]))
  }

  lemma {:induction false} MemberOf(r: Tracked, v: seq<Tracked>, w: seq<Tracked>)
    requires multiset(v) == multiset(w)
    ensures r in v <==> r in w
  {
    assert r in v <==> r in multiset(v);
  }

  lemma {:induction false} InsertKeepsOrder(r: Tracked, v: seq<Tracked>)
    requires Ordered(v) && forall i | 0 <= i < |v| :: v[i].id != r.id
    ensures Ordered(InsertSorted(r, v))
    decreases |v|
  {
    if v == [] || Before(r, v[0]) {
    } else {
      var rest := v[1..];
      InsertKeepsOrder(r, rest);
      var w := InsertSorted(r, rest);
      forall j | 0 <= j < |w| ensures Before(v[0], w[j]) {
        assert w[j] in multiset(w);
        assert w[j] == r || w[j] in rest;
        if w[j] != r {
          var k :| 0 <= k < |rest| && rest[k] == w[j];
          assert v[k + 1] == w[j];
        }
      }
    }
  }

  /** Distinct identities make the sort a total order. */
  lemma {:induction false} SortOrders(v: seq<Tracked>)
    requires DistinctIds(v)
    ensures Ordered(SortRanges(v))
    decreases |v|
  {
    if v != [] {
      SortOrders(v[1..]);
      var w := SortRanges(v[1..]);
      forall i | 0 <= i < |w| ensures w[i].id != v[0].id {
        assert w[i] in multiset(w);
        assert w[i] in v[1..];
        var k :| 0 <= k < |v[1..]| && v[1..][k] == w[i];
        assert v[k + 1] == w[i];
      }
      InsertKeepsOrder(v[0], w);
    }
  }

  lemma {:induction false} OrderedLeast(v: seq<Tracked>, r: Tracked)
    requires Ordered(v) && r in v
    ensures r == v[0] || Before(v[0], r)
  {
    var i :| 0 <= i < |v| && v[i] == r;
    if i > 0 { assert Before(v[0], v[i]); }
  }

  lemma {:induction false} SameLeast(v: seq<Tracked>, w: seq<Tracked>)
    requires Ordered(v) && Ordered(w) && multiset(v) == multiset(w) && v != []
    ensures w != [] && v[0] == w[0]
  {
    MemberOf(v[0], v, w);
    MemberOf(w[0], v, w);
    OrderedLeast(w, v[0]);
    OrderedLeast(v, w[0]);
  }

  /** An order has one arrangement. */
  lemma {:induction false} OrderIsUnique(v: seq<Tracked>, w: seq<Tracked>)
    requires Ordered(v) && Ordered(w) && multiset(v) == multiset(w)
    ensures v == w
    decreases |v|
  {
    hide Before;
    if v == [] {
      assert |w| == |multiset(w)|;
    } else {
      SameLeast(v, w);
      assert v == [v[0]] + v[1..] && w == [w[0]] + w[1..];
      assert multiset(v[1..]) == multiset(v) - multiset{v[0]};
      assert multiset(w[1..]) == multiset(w) - multiset{v[0]};
      OrderIsUnique(v[1..], w[1..]);
    }
  }

  lemma {:induction false} SortOfOrdered(v: seq<Tracked>, w: seq<Tracked>)
    requires DistinctIds(v) && Ordered(w) && multiset(v) == multiset(w)
    ensures SortRanges(v) == w
  {
    SortOrders(v);
    OrderIsUnique(SortRanges(v), w);
  }
}
