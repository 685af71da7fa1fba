/**
 Rewriting an index band of the tree: the ranges outside are shared, the ranges inside are
 re-encoded, and the suffix follows by rewriting one gap.
 */
module DecorationBands {
  import opened SumTrees
  import opened DecorationItems

  /** The ranges of a subtree that starts at `from`. */
  method Materialize(t: DTree, from: nat) returns (out: seq<Tracked>)
    ensures out == Decode(Items(t), from)
  {
    hide Items;
    var items := Items(t);
    out := [];
    var start: nat := from;
    for i := 0 to |items|
      invariant out + Decode(items[i..], start) == Decode(items, from)
    {
      assert items[i..][0] == items[i] && items[i..][1..] == items[i + 1..];
      start := start + items[i].gap;
      out := out + [Tracked(items[i].id, start, start + items[i].len, items[i].kind, items[i].stickiness)];
    }
    assert items[|items|..] == [];
  }

  /** A tree over the ranges of an ordered list, the first gap counted from `from`. */
  method Rebuild(v: seq<Tracked>, from: nat) returns (t: DTree)
    requires Sorted(v, from)
    ensures Valid(DECOS, t) && Decode(Items(t), from) == v
  {
    hide Valid, Items, FromItems, Encode, Decode;
    t := FromItems(DECOS, Encode(v, from));
    FromItemsCorrect(DECOS, Encode(v, from));
    DecodeEncode(v, from);
  }

  lemma {:induction false} TreeSpan(t: DTree)
    requires Valid(DECOS, t)
    ensures t.summary.span == LastStart(Ranges(t), 0)
  {
    hide Fold, Decode;
    DecosAreAMonoid();
    SummaryIsFold(DECOS, t);
    SpanIsLastStart(Items(t));
  }

  // ----- the suffix -----

  /** What a re-anchored suffix holds: nothing, or its first item with a new gap. */
  ghost predicate Reanchored(items: seq<DecoItem>, b: nat, delta: int, prev: nat, fixed: seq<DecoItem>)
    requires b <= |items|
  {
    if b == |items| then fixed == []
    else
      && prev <= Decode(items, 0)[b].start + delta
      && fixed == [items[b].(gap := Decode(items, 0)[b].start + delta - prev)] + items[b + 1..]
  }

  lemma {:induction false} DecodeTail(items: seq<DecoItem>, b: nat)
    requires b < |items|
    ensures Decode(items, 0)[b..] == Decode([items[b].(gap := Decode(items, 0)[b].start)] + items[b + 1..], 0)
  {
    hide Fold;
    DecodeAt(items, 0, b);
    DecodeCut(items, 0, b);
    var from := End(DECOS, StartDim, items, b);
    assert items[b..][0] == items[b] && items[b..][1..] == items[b + 1..];
    var t := [items[b].(gap := Decode(items, 0)[b].start)] + items[b + 1..];
    assert t[1..] == items[b + 1..];
    assert Decode(t, 0) == Decode(items[b..], from);
  }

  lemma {:induction false} DecodeRegap(it: DecoItem, rest: seq<DecoItem>, at: nat, delta: int, prev: nat)
    requires prev <= at + delta
    ensures var v := Decode([it.(gap := at)] + rest, 0);
            && (forall i | 0 <= i < |v| :: v[i].start + delta >= 0 && v[i].start <= v[i].end)
            && Decode([it.(gap := at + delta - prev)] + rest, prev) == Moved(v, delta)
  {
    var v := Decode([it.(gap := at)] + rest, 0);
    var w := Decode([it.(gap := at + delta - prev)] + rest, prev);
    assert ([it.(gap := at)] + rest)[1..] == rest && ([it.(gap := at + delta - prev)] + rest)[1..] == rest;
    DecodeMoved(rest, at, at + delta);
    DecodeSorted(rest, at);
    assert v[1..] == Decode(rest, at) && w[1..] == Decode(rest, at + delta);
    forall i | 0 <= i < |v| ensures v[i].start + delta >= 0 && v[i].start <= v[i].end {
      if i > 0 { assert v[i] == Decode(rest, at)[i - 1]; }
    }
    forall i | 0 <= i < |v| ensures w[i] == Shifted(v[i], delta) {
      if i > 0 {
        assert v[i] == Decode(rest, at)[i - 1] && w[i] == Decode(rest, at + delta)[i - 1];
      }
    }
  }

  /** One re-anchored gap moves a whole suffix. */
  lemma {:induction false} DecodeReanchored(items: seq<DecoItem>, b: nat, delta: int, prev: nat, fixed: seq<DecoItem>)
    requires b <= |items| && Reanchored(items, b, delta, prev, fixed)
    ensures var tail := Decode(items, 0)[b..];
            && (forall i | 0 <= i < |tail| :: tail[i].start + delta >= 0 && tail[i].start <= tail[i].end)
            && Decode(fixed, prev) == Moved(tail, delta)
  {
    if b < |items| {
      hide Decode;
      DecodeTail(items, b);
      DecodeRegap(items[b], items[b + 1..], Decode(items, 0)[b].start, delta, prev);
    }
  }

  /** Re-anchor a split-off suffix: its first range, the `b`-th of `orig`, starts at its old
      start plus `delta`; every later gap and length is relative and stays. */
  method Reanchor(suffix: DTree, orig: DTree, b: nat, delta: int, prev: nat) returns (r: DTree)
    requires Valid(DECOS, suffix) && Valid(DECOS, orig) && b <= |Items(orig)| && Items(suffix) == Items(orig)[b..]
    requires b < |Items(orig)| ==> prev <= Ranges(orig)[b].start + delta
    ensures Valid(DECOS, r) && Reanchored(Items(orig), b, delta, prev, Items(r))
  {
    hide Decode, Fold, Valid, Items, ItemsOf, Replace, Seek;
    DecosAreAMonoid();
    EmptyIffNoItems(DECOS, suffix);
    if suffix.IsEmpty() { return suffix; }
    SeekByCount(DECOS, CountDim, StartDim, orig, b);
    DecodeAt(Items(orig), 0, b);
    var s := Seek(DECOS, CountDim, StartDim, orig, b).value;
    var firstOldStart := s.also + s.item.gap;
    var fixed := s.item.(gap := firstOldStart + delta - prev);
    r := Replace(DECOS, CountDim, suffix, 0, 1, [fixed]);
    assert Items(suffix)[1..] == Items(orig)[b + 1..];
    assert Items(suffix)[..0] + [fixed] == [fixed];
  }

  // ----- the band -----

  /** Split the tree around the ranges `a..b`; `from` is where the band's first gap counts from. */
  method SplitBand(t: DTree, a: nat, b: nat) returns (left: DTree, middle: DTree, zoneC: DTree, from: nat)
    requires Valid(DECOS, t) && a <= b <= |Items(t)|
    ensures Valid(DECOS, left) && Valid(DECOS, middle) && Valid(DECOS, zoneC)
    ensures Items(left) == Items(t)[..a] && Items(middle) == Items(t)[a..b] && Items(zoneC) == Items(t)[b..]
    ensures Ranges(left) == Ranges(t)[..a] && from == LastStart(Ranges(t)[..a], 0)
    ensures Decode(Items(middle), from) == Ranges(t)[a..b]
  {
    hide Decode, Fold, Valid, Items, LastStart;
    var rest;
    left, rest := CutAt(t, a);
    BandSlices(Items(t), a, b);
    middle, zoneC := CutAt(rest, b - a);
    from := left.summary.span;
    TreeSpan(left);
    DecodeBand(Items(t), a, b);
  }

  method CutAt(t: DTree, k: nat) returns (l: DTree, r: DTree)
    requires Valid(DECOS, t) && k <= |Items(t)|
    ensures Valid(DECOS, l) && Valid(DECOS, r) && Items(l) == Items(t)[..k] && Items(r) == Items(t)[k..]
  {
    hide Fold, Valid, Items, SplitAt;
    DecosAreAMonoid();
    var cut := SplitAt(DECOS, CountDim, t, k);
    l, r := cut.0, cut.1;
  }

  lemma {:induction false} BandSlices(items: seq<DecoItem>, a: nat, b: nat)
    requires a <= b <= |items|
    ensures items[a..][..b - a] == items[a..b] && items[a..][b - a..] == items[b..]
  {}

  lemma {:induction false} DecodeBand(items: seq<DecoItem>, a: nat, b: nat)
    requires a <= b <= |items|
    ensures Decode(items[..a], 0) == Decode(items, 0)[..a]
    ensures Decode(items[a..b], LastStart(Decode(items, 0)[..a], 0)) == Decode(items, 0)[a..b]
  {
    hide Decode, Fold;
    DecodeCut(items, 0, a);
    SpanIsLastStart(items[..a]);
    var from := End(DECOS, StartDim, items, a);
    DecodeCut(items[a..], from, b - a);
    assert items[a..][..b - a] == items[a..b];
    assert Decode(items, 0)[a..][..b - a] == Decode(items, 0)[a..b];
  }

  /** Runs decoded one after the other. */
  lemma {:induction false} DecodeAfter(x: seq<DecoItem>, y: seq<DecoItem>)
    ensures Decode(x + y, 0) == Decode(x, 0) + Decode(y, LastStart(Decode(x, 0), 0))
  {
    hide Decode, Fold;
    SpanIsLastStart(x);
    DecodeConcat(x, y, 0);
  }

  /** Put a rewritten band back between its neighbours, the suffix moved by `delta`. */
  method Reassemble(t: DTree, left: DTree, zoneC: DTree, from: nat, a: nat, b: nat, mid: seq<Tracked>, delta: int)
    returns (r: DTree)
    requires Valid(DECOS, t) && a <= b <= |Items(t)|
    requires Valid(DECOS, left) && Ranges(left) == Ranges(t)[..a] && from == LastStart(Ranges(t)[..a], 0)
    requires Valid(DECOS, zoneC) && Items(zoneC) == Items(t)[b..]
    requires Sorted(mid, from)
    requires b < |Items(t)| ==> LastStart(mid, from) <= Ranges(t)[b].start + delta
    ensures forall i | 0 <= i < |Ranges(t)[b..]| ::
              Ranges(t)[b..][i].start + delta >= 0 && Ranges(t)[b..][i].start <= Ranges(t)[b..][i].end
    ensures Valid(DECOS, r) && Ranges(r) == Ranges(t)[..a] + mid + Moved(Ranges(t)[b..], delta)
  {
    hide Decode, Fold, Valid, Items, ItemsOf, Append, Sorted, Reanchored, LastStart;
    var middle := Rebuild(mid, from);
    var head := Append(DECOS, left, middle);
    DecodeAfter(Items(left), Items(middle));
    LastOfHead(Ranges(t)[..a], mid);
    var prev := head.summary.span;
    TreeSpan(head);
    var fixed := Reanchor(zoneC, t, b, delta, prev);
    r := Append(DECOS, head, fixed);
    DecodeAfter(Items(head), Items(fixed));
    DecodeReanchored(Items(t), b, delta, prev, Items(fixed));
  }

  lemma {:induction false} LastOfHead(x: seq<Tracked>, y: seq<Tracked>)
    ensures LastStart(x + y, 0) == LastStart(y, LastStart(x, 0))
  {
    if y == [] { assert x + y == x; }
  }
}
