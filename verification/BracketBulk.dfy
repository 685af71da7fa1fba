/**
 The bulk fast path: a patch that adds and removes no bracket only shifts offsets, so the tree
 is rebuilt in one pass through the position map.  The position map sees only the first edit
 that reaches a position, so the fast path is exact precisely when no bracket sits where an
 edit ends and a later edit inserts.
 */
module BracketBulk {
  import opened Base
  import opened SumTrees
  import opened Patches
  import opened PatchCarries
  import opened BracketShapes
  import opened BracketQueries
  import opened BracketText
  import opened BracketSplice
  import opened BracketEdits

  predicate NoBrackets(text: Text) { forall i | 0 <= i < |text| :: !IsBracket(text[i]) }

  /** Whether the patch inserts no bracket and deletes none. */
  predicate IsStructureNeutral(t: BTree, p: Patch, text: Text)
    requires forall i | 0 <= i < |p| :: p[i].ns <= p[i].ne <= |text|
  {
    forall i | 0 <= i < |p| ::
      && (p[i].ns == p[i].ne || NoBrackets(text[p[i].ns..p[i].ne]))
      && MeasureBefore(SHAPES, ByteDim, CountDim, t, p[i].os) == MeasureBefore(SHAPES, ByteDim, CountDim, t, p[i].oe)
  }

  /** The same, read off the brackets. */
  ghost predicate Neutral(es: seq<Entry>, p: Patch, text: Text) {
    forall i | 0 <= i < |p| ::
      && p[i].ns <= p[i].ne <= |text| && NoBrackets(text[p[i].ns..p[i].ne])
      && forall j | 0 <= j < |es| :: !(p[i].os <= es[j].off < p[i].oe)
  }

  lemma {:induction false} NeutralIs(t: BTree, p: Patch, text: Text)
    requires BracketQueries.WellFormed(t)
    requires forall i | 0 <= i < |p| :: p[i].ns <= p[i].ne <= |text| && p[i].os <= p[i].oe
    ensures IsStructureNeutral(t, p, text) <==> Neutral(Brackets(t), p, text)
  {
    hide Decode, CountBefore;
    var es := Brackets(t);
    forall i | 0 <= i < |p|
      ensures MeasureBefore(SHAPES, ByteDim, CountDim, t, p[i].os) == MeasureBefore(SHAPES, ByteDim, CountDim, t,
              p[i].oe)
              <==> forall j | 0 <= j < |es| :: !(p[i].os <= es[j].off < p[i].oe)
    {
      CountMeasure(t, p[i].os);
      CountMeasure(t, p[i].oe);
      CountBeforeSpec(es, p[i].os);
      CountBeforeSpec(es, p[i].oe);
      var a, b := CountBefore(es, p[i].os), CountBefore(es, p[i].oe);
      if a < |es| && a < b { assert p[i].os <= es[a].off < p[i].oe; }
      CountsOrdered(es, p[i].os, p[i].oe - p[i].os);
    }
  }

  // ----- the bulk shift -----

  /** Every bracket at its mapped offset. */
  ghost function MappedBrackets(p: Patch, es: seq<Entry>): seq<Entry>
    requires Patches.WellFormed(p) && forall j | 0 <= j < |es| :: Outside(p, es[j].off)
  {
    MappedNonNegative(p, es);
    seq(|es|, j requires 0 <= j < |es| => Entry(MapOffset(p, es[j].off, Right), es[j].ch))
  }

  lemma {:induction false} MappedNonNegative(p: Patch, es: seq<Entry>)
    requires Patches.WellFormed(p) && forall j | 0 <= j < |es| :: Outside(p, es[j].off)
    ensures forall j | 0 <= j < |es| :: MapOffset(p, es[j].off, Right) >= 0
  {
    hide MapOffset, Outside;
    forall j | 0 <= j < |es| ensures MapOffset(p, es[j].off, Right) >= 0 {
      MapAbove(p, es[j].off);
    }
  }

  /** The mapped brackets ascend as the brackets do, with the same characters. */
  lemma {:induction false} MappedAscend(p: Patch, es: seq<Entry>)
    requires Patches.WellFormed(p)
             && (forall j | 0 <= j < |es| :: Outside(p, es[j].off)) && Ascending(es) && AllBrackets(es)
    ensures Ascending(MappedBrackets(p, es)) && AllBrackets(MappedBrackets(p, es))
    ensures CharsOf(MappedBrackets(p, es)) == CharsOf(es)
  {
    hide MapOffset, Outside;
    var now := MappedBrackets(p, es);
    forall i, j | 0 <= i < j < |now| ensures now[i].off < now[j].off { MapKeepsOrder(p, es[i].off, es[j].off); }
  }

  lemma {:induction false} NeutralOutside(es: seq<Entry>, p: Patch, text: Text)
    requires Neutral(es, p, text)
    ensures forall j | 0 <= j < |es| :: Outside(p, es[j].off)
  {}

  lemma {:induction false} DecodeSnoc(items: seq<Item>, it: Item)
    ensures Decode(items + [it], 0) == Decode(items, 0) + [Entry(LastOff(Decode(items, 0), 0) + it.gap, it.ch)]
  {
    DecodeAfter(items, [it]);
  }

  /** Shift every bracket through the patch and rebuild the tree in one pass. */
  method BulkShift(t: BTree, p: Patch) returns (r: BTree)
    requires BracketQueries.WellFormed(t) && Patches.WellFormed(p)
    requires forall j | 0 <= j < |Brackets(t)| :: Outside(p, Brackets(t)[j].off)
    ensures Valid(SHAPES, r) && Brackets(r) == MappedBrackets(p, Brackets(t))
  {
    hide Valid, Decode, Outside, MapOffset, Fold;
    var items := Items(t);
    ghost var es := Brackets(t);
    if items == [] {
      return t;
    }
    var off := 0;
    var prev := 0;
    var rebuilt: seq<Item> := [];
    MappedNonNegative(p, es);
    DecodeNil();
    FoldNil(SHAPES);
    assert items[..0] == [];
    for k := 0 to |items|
      invariant off == End(SHAPES, ByteDim, items, k)
      invariant Decode(rebuilt, 0) == MappedBrackets(p, es)[..k]
      invariant prev == LastOff(Decode(rebuilt, 0), 0)
    {
      DecodeAt(items, 0, k);
      off := off + items[k].gap;
      var o := MapOffset(p, off, Right);
      if k > 0 { MapKeepsOrder(p, es[k - 1].off, es[k].off); }
      var it := Item(o - prev, items[k].ch);
      DecodeSnoc(rebuilt, it);
      rebuilt := rebuilt + [it];
      prev := o;
    }
    FromItemsCorrect(SHAPES, rebuilt);
    r := FromItems(SHAPES, rebuilt);
  }

  lemma {:induction false} DecodeNil()
    ensures Decode([], 0) == []
  {}

  // ----- what a neutral patch really does -----

  /** Where the first `k` edits carry `pos`. */
  ghost function CarriedBy(p: Patch, k: nat, pos: nat): int
    requires k <= |p|
  {
    pos + Shift(p, if EndsBy(p, pos) < k then EndsBy(p, pos) else k)
  }

  /** `now` is `es` carried by the first `k` edits. */
  ghost predicate AllCarried(p: Patch, k: nat, es: seq<Entry>, now: seq<Entry>)
    requires k <= |p|
  {
    |now| == |es| && forall j | 0 <= j < |es| :: now[j].off == CarriedBy(p, k, es[j].off) && now[j].ch == es[j].ch
  }

  /** Around edit `k`, a carried position lies wholly before or wholly after the replaced bytes. */
  lemma {:induction false} CarriedSide(p: Patch, k: nat, pos: nat)
    requires Patches.WellFormed(p) && Outside(p, pos) && k < |p|
    ensures EndsBy(p, pos) <= k ==> CarriedBy(p, k, pos) < p[k].ns && CarriedBy(p, k + 1, pos) == CarriedBy(p, k, pos)
    ensures EndsBy(p, pos) > k ==> CarriedBy(p, k, pos) >= p[k].ns + (p[k].oe - p[k].os)
                                   && CarriedBy(p, k + 1, pos) == CarriedBy(p, k, pos) + Delta(p[k])
  {
    var c := EndsBy(p, pos);
    assert Shift(p, k + 1) == Shift(p, k) + Delta(p[k]);
    hide Shift;
    GapShift(p, k);
    if c <= k {
      GapShift(p, c);
      assert pos < p[c].os;
      assert p[c].ns <= p[c].ne;
      if c < k { NewAscend(p, c, k); }
    }
  }

  /** A splice that touches no bracket shifts the ones after it. */
  lemma {:induction false} NeutralStep(p: Patch, k: nat, es: seq<Entry>, now: seq<Entry>)
    requires Patches.WellFormed(p) && k < |p| && AllCarried(p, k, es, now) && Ascending(now)
    requires forall j | 0 <= j < |es| :: Outside(p, es[j].off)
    requires p[k].os <= p[k].oe && p[k].ns <= p[k].ne
    ensures AllCarried(p, k + 1, es, Spliced(now, p[k].ns, p[k].oe - p[k].os, p[k].ne, []))
  {
    hide CarriedBy, Outside, CountBefore;
    var rs, len := p[k].ns, p[k].oe - p[k].os;
    CountsOrdered(now, rs, len);
    CountBeforeSpec(now, rs);
    CountBeforeSpec(now, rs + len);
    var a, b := CountBefore(now, rs), CountBefore(now, rs + len);
    if a < |es| { CarriedSide(p, k, es[a].off); }
    forall j | 0 <= j < |es|
      ensures j < a ==> now[j].off == CarriedBy(p, k + 1, es[j].off)
      ensures j >= b ==> now[j].off + Delta(p[k]) == CarriedBy(p, k + 1, es[j].off)
    {
      CarriedSide(p, k, es[j].off);
    }
    assert a == b;
  }

  lemma {:induction false} ScanNoBrackets(text: Text, at: nat)
    requires NoBrackets(text)
    ensures Scan(text, at) == []
    decreases |text|
  {
    if text != [] {
      assert NoBrackets(text[1..]) by {
        forall i | 0 <= i < |text[1..]| ensures !IsBracket(text[1..][i]) { assert text[1..][i] == text[i + 1]; }
      }
      ScanNoBrackets(text[1..], at + 1);
    }
  }

  lemma {:induction false} NeutralPiece(cfg: Config, es: seq<Entry>, p: Patch, text: Text, k: nat)
    requires !cfg.IsActive() && Neutral(es, p, text) && k < |p|
    ensures p[k].ns <= p[k].ne <= |text| && BracketsOf(cfg, text[p[k].ns..p[k].ne], p[k].ns) == []
  {
    hide NoBrackets;
    ScanNoBrackets(text[p[k].ns..p[k].ne], p[k].ns);
  }

  /** One more edit of a neutral patch carries every bracket on. */
  lemma {:induction false} NeutralNext(cfg: Config, p: Patch, before: Text, after: Text, k: nat)
    requires !cfg.IsActive() && LineLocal(cfg) && Rewrites(p, before, after) && k < |p|
    requires Neutral(BracketsOf(cfg, before, 0), p, after)
    requires AllCarried(p, k, BracketsOf(cfg, before, 0), BracketsOf(cfg, Mixed(p, before, after, k), 0))
    ensures AllCarried(p, k + 1, BracketsOf(cfg, before, 0), BracketsOf(cfg, Mixed(p, before, after, k + 1), 0))
  {
    hide Shift, Neutral, BracketsOf, Spliced, Mixed, AllCarried, Rewrites, LineLocal, Outside, Patches.WellFormed,
         AlignedEdit;
    var es := BracketsOf(cfg, before, 0);
    RewritesWellFormed(p, before, after);
    EditInText(p, before, after, k);
    PlainAligned(cfg, p, before, after);
    StepBrackets(cfg, p, before, after, k);
    NeutralPiece(cfg, es, p, after, k);
    NeutralOutside(es, p, after);
    NeutralStep(p, k, es, BracketsOf(cfg, Mixed(p, before, after, k), 0));
  }

  /** A neutral patch carries every bracket with its text. */
  lemma {:induction false} NeutralCarries(cfg: Config, p: Patch, before: Text, after: Text, k: nat)
    requires !cfg.IsActive() && LineLocal(cfg) && Rewrites(p, before, after) && k <= |p|
    requires Neutral(BracketsOf(cfg, before, 0), p, after)
    ensures AllCarried(p, k, BracketsOf(cfg, before, 0), BracketsOf(cfg, Mixed(p, before, after, k), 0))
    decreases k
  {
    if k == 0 {
      hide Neutral, BracketsOf, Rewrites, LineLocal;
      MixedEnds(p, before, after);
    } else {
      hide *;
      NeutralCarries(cfg, p, before, after, k - 1);
      NeutralNext(cfg, p, before, after, k - 1);
    }
  }

  /** A neutral patch keeps the text's bracket characters. */
  lemma {:induction false} NeutralKeepsChars(cfg: Config, p: Patch, before: Text, after: Text)
    requires !cfg.IsActive() && LineLocal(cfg) && Rewrites(p, before, after)
    requires Neutral(BracketsOf(cfg, before, 0), p, after)
    ensures CharsOf(BracketsOf(cfg, after, 0)) == CharsOf(BracketsOf(cfg, before, 0))
  {
    hide BracketsOf, Shift, Neutral, Rewrites, LineLocal;
    NeutralCarries(cfg, p, before, after, |p|);
    MixedEnds(p, before, after);
  }

  /** The bulk shift equals a rescan exactly when no bracket has an insertion stacked on it. */
  lemma {:induction false} BulkShiftIsRescan(cfg: Config, p: Patch, before: Text, after: Text)
    requires !cfg.IsActive() && LineLocal(cfg) && Rewrites(p, before, after)
    requires Neutral(BracketsOf(cfg, before, 0), p, after)
    ensures forall j | 0 <= j < |BracketsOf(cfg, before, 0)| :: Outside(p, BracketsOf(cfg, before, 0)[j].off)
    ensures MappedBrackets(p, BracketsOf(cfg, before, 0)) == BracketsOf(cfg, after, 0)
            <==> forall j | 0 <= j < |BracketsOf(cfg, before, 0)| ::
              !StackedInsert(p, BracketsOf(cfg, before, 0)[j].off)
  {
    hide BracketsOf, Shift, MapOffset, StackedInsert, Neutral, Outside;
    var es := BracketsOf(cfg, before, 0);
    NeutralOutside(es, p, after);
    NeutralCarries(cfg, p, before, after, |p|);
    MixedEnds(p, before, after);
    var now := BracketsOf(cfg, after, 0);
    forall j | 0 <= j < |es|
      ensures MappedBrackets(p, es)[j] == now[j] <==> !StackedInsert(p, es[j].off)
    {
      MapIsCarried(p, es[j].off);
      assert now[j].off == CarriedBy(p, |p|, es[j].off);
    }
  }
}
