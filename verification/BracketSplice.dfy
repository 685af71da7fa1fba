/**
 The incremental edit: splice a committed patch into the bracket tree.  The result decodes to
 exactly the brackets of the post-edit text, region by region and, where its precondition
 holds, through the bulk shift.
 */
module BracketSplice {
  import opened SumTrees
  import opened BracketShapes
  import opened BracketQueries
  import opened BracketText

  // ----- one region, on the brackets -----

  /** The offset of the last bracket placed, or where the next gap counts from. */
  function LastOff(es: seq<Entry>, from: nat): nat {
    if es == [] then from else es[|es| - 1].off
  }

  /** The brackets once the `oldLen` bytes at `rs` have become the bytes `rs..reNew`, which hold
      `found`. */
  ghost function Spliced(es: seq<Entry>, rs: nat, oldLen: nat, reNew: nat, found: seq<Entry>): seq<Entry>
    requires Ascending(es) && rs <= reNew
  {
    CountsOrdered(es, rs, oldLen);
    es[..CountBefore(es, rs)] + found + Move(es[CountBefore(es, rs + oldLen)..], reNew - (rs + oldLen))
  }

  lemma {:induction false} CountsOrdered(es: seq<Entry>, rs: nat, oldLen: nat)
    requires Ascending(es)
    ensures CountBefore(es, rs) <= CountBefore(es, rs + oldLen)
    ensures forall i | CountBefore(es, rs + oldLen) <= i < |es| :: es[i].off >= rs + oldLen
    ensures forall i | 0 <= i < CountBefore(es, rs) :: es[i].off < rs
  {
    hide CountBefore;
    CountBeforeSpec(es, rs);
    CountBeforeSpec(es, rs + oldLen);
    var k, b := CountBefore(es, rs), CountBefore(es, rs + oldLen);
    if b < |es| {
      assert es[b].off < rs <==> b < k;
    }
  }

  lemma {:induction false} LastOffBounds(es: seq<Entry>, rs: nat, oldLen: nat, reNew: nat, found: seq<Entry>)
    requires Ascending(es) && rs <= reNew && Sorted(found, rs, reNew)
    ensures LastOff(es[..CountBefore(es, rs)], 0) <= rs
    ensures LastOff(found, LastOff(es[..CountBefore(es, rs)], 0)) <= reNew
  {
    hide CountBefore;
    CountsOrdered(es, rs, oldLen);
  }

  lemma {:induction false} SpanIsLastOff(items: seq<Item>)
    ensures Fold(SHAPES, items).span == LastOff(Decode(items, 0), 0)
  {
    if items != [] {
      var k := |items| - 1;
      DecodeAt(items, 0, k);
      assert items[..k + 1] == items;
    } else {
      FoldNil(SHAPES);
    }
  }

  lemma {:induction false} TreeSpan(t: BTree)
    requires Valid(SHAPES, t)
    ensures ByteDim(t.summary) == LastOff(Brackets(t), 0)
  {
    hide Fold;
    ShapesAreAMonoid();
    SummaryIsFold(SHAPES, t);
    SpanIsLastOff(Items(t));
  }

  lemma {:induction false} DecodeMoved(items: seq<Item>, from: nat, to: nat)
    ensures forall i | 0 <= i < |items| :: Decode(items, from)[i].off >= from
    ensures Decode(items, to) == Move(Decode(items, from), to - from)
    decreases |items|
  {
    if items != [] {
      DecodeMoved(items[1..], from + items[0].gap, to + items[0].gap);
    }
  }

  /** Decoding a run and then `tail`: the tail counts its first gap from the run's last bracket. */
  lemma {:induction false} DecodeAfter(items: seq<Item>, tail: seq<Item>)
    ensures Decode(items + tail, 0) == Decode(items, 0) + Decode(tail, LastOff(Decode(items, 0), 0))
  {
    hide Fold, Decode;
    SpanIsLastOff(items);
    DecodeConcat(items, tail, 0);
  }

  /** A run re-encoded after `items`. */
  lemma {:induction false} DecodeEncodedAfter(items: seq<Item>, found: seq<Entry>)
    requires Ascending(found)
    requires found != [] ==> LastOff(Decode(items, 0), 0) <= found[0].off
    ensures Decode(items + Encode(found, LastOff(Decode(items, 0), 0)), 0) == Decode(items, 0) + found
  {
    hide Decode;
    var from := LastOff(Decode(items, 0), 0);
    DecodeAfter(items, Encode(found, from));
    DecodeEncode(found, from);
  }

  lemma {:induction false} DecodeTail(items: seq<Item>, b: nat)
    requires b < |items|
    ensures Decode(items, 0)[b..] == [Decode(items, 0)[b]] + Decode(items[b + 1..], Decode(items, 0)[b].off)
    ensures Decode(items, 0)[b].ch == items[b].ch
  {
    hide Decode, Fold;
    DecodeAt(items, 0, b);
    DecodePrefix(items, 0, b + 1);
    var es := Decode(items, 0);
    assert es[b..] == [es[b]] + es[b + 1..];
  }

  lemma {:induction false} DecodeFirst(it: Item, rest: seq<Item>, from: nat)
    ensures Decode([it] + rest, from) == [Entry(from + it.gap, it.ch)] + Decode(rest, from + it.gap)
  {
    assert ([it] + rest)[1..] == rest;
  }

  lemma {:induction false} MoveCons(e: Entry, es: seq<Entry>, d: int)
    requires e.off + d >= 0 && forall i | 0 <= i < |es| :: es[i].off >= e.off
    ensures Move([e] + es, d) == [Entry(e.off + d, e.ch)] + Move(es, d)
  {}

  /** What a re-anchored suffix holds: nothing, or its first item with a new gap. */
  ghost predicate Reanchored(items: seq<Item>, b: nat, delta: int, last: nat, fixed: seq<Item>)
    requires b <= |items|
  {
    if b == |items| then fixed == []
    else
      && last <= Decode(items, 0)[b].off + delta
      && fixed == [Item(Decode(items, 0)[b].off + delta - last, items[b].ch)] + items[b + 1..]
  }

  /** One re-anchored gap moves a whole suffix. */
  lemma {:induction false} DecodeReanchored(items: seq<Item>, b: nat, delta: int, last: nat, fixed: seq<Item>)
    requires b <= |items| && Reanchored(items, b, delta, last, fixed)
    ensures forall i | b <= i < |items| :: Decode(items, 0)[i].off + delta >= 0
    ensures Decode(fixed, last) == Move(Decode(items, 0)[b..], delta)
  {
    if b < |items| {
      var off, tail := Decode(items, 0)[b].off, items[b + 1..];
      DecodeTail(items, b);
      DecodeFirst(fixed[0], tail, last);
      DecodeMoved(tail, off, off + delta);
      hide Decode;
      MoveCons(Decode(items, 0)[b], Decode(tail, off), delta);
      forall i | b <= i < |items| ensures Decode(items, 0)[i].off + delta >= 0 {
        assert Decode(items, 0)[i] == Decode(items, 0)[b..][i - b];
      }
    }
  }

  /** The three parts of a splice, put together. */
  lemma {:induction false} Assembled(items: seq<Item>, a: nat, b: nat, found: seq<Entry>, delta: int,
                                     mid: seq<Item>, fixed: seq<Item>)
    requires a <= b <= |items| && Decode(mid, 0) == Decode(items, 0)[..a] + found
    requires Reanchored(items, b, delta, LastOff(found, LastOff(Decode(items, 0)[..a], 0)), fixed)
    ensures forall i | b <= i < |items| :: Decode(items, 0)[i].off + delta >= 0
    ensures Decode(mid + fixed, 0) == Decode(items, 0)[..a] + found + Move(Decode(items, 0)[b..], delta)
  {
    hide Decode, Reanchored;
    DecodeAfter(mid, fixed);
    DecodeReanchored(items, b, delta, LastOff(found, LastOff(Decode(items, 0)[..a], 0)), fixed);
  }

  // ----- one region, on the tree -----

  /** Re-anchor a split-off suffix: its first bracket, the `k`-th of `cur`, lands at its old
      offset plus `delta`; every later gap is relative and stays. */
  method Reanchor(suffix: BTree, cur: BTree, k: nat, delta: int, lastOff: nat) returns (r: BTree)
    requires Valid(SHAPES, suffix) && Valid(SHAPES, cur) && k <= |Items(cur)| && Items(suffix) == Items(cur)[k..]
    requires k < |Items(cur)| ==> lastOff <= Brackets(cur)[k].off + delta
    ensures Valid(SHAPES, r) && Reanchored(Items(cur), k, delta, lastOff, Items(r))
  {
    hide Decode, Fold, Valid, Items, ItemsOf, Replace, Seek;
    ShapesAreAMonoid();
    EmptyIffNoItems(SHAPES, suffix);
    if suffix.IsEmpty() { return suffix; }
    SeekByCount(SHAPES, CountDim, ByteDim, cur, k);
    DecodeAt(Items(cur), 0, k);
    var s := Seek(SHAPES, CountDim, ByteDim, cur, k).value;
    var firstOldOff := s.also + s.item.gap;
    var fixed := Item(firstOldOff + delta - lastOff, s.item.ch);
    r := Replace(SHAPES, CountDim, suffix, 0, 1, [fixed]);
    assert Items(suffix)[1..] == Items(cur)[k + 1..];
    assert Items(suffix)[..0] + [fixed] == [fixed];
  }

  /** Replace the brackets of the `oldLen` bytes at `rs` by `found`, the brackets of the bytes
      `rs..reNew` that took their place. */
  method SpliceRegion(cur: BTree, rs: nat, oldLen: nat, reNew: nat, found: seq<Entry>) returns (r: BTree, removed: nat)
    requires BracketQueries.WellFormed(cur) && rs <= reNew && Sorted(found, rs, reNew)
    ensures Valid(SHAPES, r) && Brackets(r) == Spliced(Brackets(cur), rs, oldLen, reNew, found)
    ensures removed == CountBefore(Brackets(cur), rs + oldLen) - CountBefore(Brackets(cur), rs)
  {
    hide Fold, Valid, Items, ItemsOf, SplitAt, Append, FromItems, Decode, CountBefore, Encode, LastOff, MeasureBefore,
         Reanchored;
    ghost var es, items := Brackets(cur), Items(cur);
    ShapesAreAMonoid();
    CountMeasure(cur, rs);
    CountMeasure(cur, rs + oldLen);
    CountsOrdered(es, rs, oldLen);
    LastOffBounds(es, rs, oldLen, reNew, found);
    var reOld := rs + oldLen;
    var delta := reNew - reOld;
    var k := MeasureBefore(SHAPES, ByteDim, CountDim, cur, rs);
    var b := MeasureBefore(SHAPES, ByteDim, CountDim, cur, reOld);
    removed := b - k;
    var left := SplitAt(SHAPES, CountDim, cur, k).0;
    var beforeEnd := ByteDim(left.summary);
    TreeSpan(left);
    DecodePrefix(items, 0, k);
    var prev := LastOff(found, beforeEnd);
    var region := FromItems(SHAPES, Encode(found, beforeEnd));
    FromItemsCorrect(SHAPES, Encode(found, beforeEnd));
    var suffix := SplitAt(SHAPES, CountDim, cur, b).1;
    var mid := Append(SHAPES, left, region);
    DecodeEncodedAfter(Items(left), found);
    var fixed := Reanchor(suffix, cur, b, delta, prev);
    r := Append(SHAPES, mid, fixed);
    Assembled(items, k, b, found, delta, Items(mid), Items(fixed));
  }
}
