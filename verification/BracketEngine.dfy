/**
 The bracket structure a document keeps, ridden through every committed patch, and the window
 of openers a fold reconcile has to look at afterwards.
 */
module BracketEngine {
  import opened Base
  import opened SumTrees
  import opened Patches
  import opened PatchCarries
  import opened BracketShapes
  import opened BracketQueries
  import opened BracketText
  import opened BracketTokens
  import opened BracketSplice
  import opened BracketEdits
  import opened BracketBulk

  /** Above this many edits a neutral patch is shifted in bulk. */
  const BULK_EDITS: nat := 64

  /** The patch is shifted in bulk. */
  ghost predicate ShiftedInBulk(cfg: Config, es: seq<Entry>, p: Patch, text: Text) {
    !cfg.IsActive() && |p| > BULK_EDITS && Neutral(es, p, text)
  }

  /** A bracket the position map leaves behind: an edit ends on it and a later one inserts there. */
  ghost predicate LeavesBehind(es: seq<Entry>, p: Patch) {
    exists j :: 0 <= j < |es| && StackedInsert(p, es[j].off)
  }

  /** The outermost opener enclosing the first region, or the region's start. */
  ghost function SeedOf(es: seq<Entry>, at: nat): nat {
    var stack := StackOf(es[..CountBefore(es, at)]);
    if stack == [] then at else stack[0].off
  }

  /** The reconcile window for the regions `q`. */
  ghost function WindowOf(es: seq<Entry>, q: Patch): (nat, nat)
    requires q != []
  {
    (SeedOf(es, q[0].ns), q[|q| - 1].ne + 1)
  }

  /** Splice `t` through `p`; `text` is the post-edit text.  Returns the new tree and the
      reconcile window, `(0, 0)` when no bracket structure changed. */
  method ApplyEdit(t: BTree, p: Patch, text: Text, cfg: Config, ghost before: Text)
    returns (r: BTree, window: (nat, nat), ghost q: Patch)
    requires Valid(SHAPES, t) && Brackets(t) == BracketsOf(cfg, before, 0)
    requires LineLocal(cfg) && Rewrites(p, before, text)
    ensures Valid(SHAPES, r)
    ensures Brackets(r) == BracketsOf(cfg, text, 0)
            <==> !(ShiftedInBulk(cfg, Brackets(t), p, text) && LeavesBehind(Brackets(t), p))
    ensures Rewrites(q, before, text) && Aligned(cfg, q, before, text)
    ensures window == (0, 0) || (q != [] && window == WindowOf(Brackets(t), q))
    ensures window == (0, 0) ==>
              SameMatching(Brackets(t), Brackets(r)) && SameMatching(Brackets(t), BracketsOf(cfg, text, 0))
  {
    hide Valid, Decode, Items, ItemsOf, BracketsOf, Neutral, Rewrites, LineLocal, Aligned, IsStructureNeutral,
         LeavesBehind, EnclosingOpeners, ShapeOf, SameMatching;
    BracketsSorted(cfg, before, 0);
    RewritesWellFormed(p, before, text);
    if p == [] {
      MixedEnds(p, before, text);
      BulkNeedsEdits(cfg, Brackets(t), p, text);
      NoneAligned(cfg, before, text);
      RescanMatches(cfg, before, text);
      return t, (0, 0), p;
    }
    PatchInText(p, before, text);
    NeutralIs(t, p, text);
    if !cfg.IsActive() && |p| > BULK_EDITS && IsStructureNeutral(t, p, text) {
      NeutralOutside(Brackets(t), p, text);
      BulkIffLeft(cfg, p, before, text);
      BulkMatches(cfg, p, before, text);
      r := BulkShift(t, p);
      PlainAligned(cfg, p, before, text);
      return r, (0, 0), p;
    }
    var regions: seq<Region>;
    if cfg.IsActive() {
      regions, q := LineAlignedRegions(p, text, cfg, before);
    } else {
      q := p;
      PlainAligned(cfg, p, before, text);
      regions := seq(|p|, i requires 0 <= i < |p| => Region(p[i].ns, p[i].ne, p[i].oe - p[i].os));
    }
    var at := regions[0].start;
    var stack := EnclosingOpeners(t, at);
    EnclosingOpenersCorrect(t, at);
    var seed := if stack == [] then at else stack[0].off;
    var end := regions[|regions| - 1].end;
    var structural: bool;
    r, structural := SpliceAll(t, regions, cfg, text, q, before);
    window := if structural then (seed, end + 1) else (0, 0);
    if !structural { RescanMatches(cfg, before, text); }
  }

  /** The bulk path matches as before, in the tree and in the text. */
  lemma {:induction false} BulkMatches(cfg: Config, p: Patch, before: Text, text: Text)
    requires !cfg.IsActive() && LineLocal(cfg) && Rewrites(p, before, text) && Patches.WellFormed(p)
    requires Neutral(BracketsOf(cfg, before, 0), p, text)
    ensures var es := BracketsOf(cfg, before, 0);
            && (forall j | 0 <= j < |es| :: Outside(p, es[j].off))
            && SameMatching(es, MappedBrackets(p, es)) && SameMatching(es, BracketsOf(cfg, text, 0))
  {
    hide BracketsOf, Neutral, Rewrites, LineLocal, Patches.WellFormed, SameMatching, MappedBrackets, Outside;
    var es := BracketsOf(cfg, before, 0);
    BracketsSorted(cfg, before, 0);
    BracketsSorted(cfg, text, 0);
    NeutralOutside(es, p, text);
    MappedAscend(p, es);
    NeutralKeepsChars(cfg, p, before, text);
    SameCharsSameMatching(es, MappedBrackets(p, es));
    SameCharsSameMatching(es, BracketsOf(cfg, text, 0));
  }

  /** A rescan that keeps the characters matches as before. */
  lemma {:induction false} RescanMatches(cfg: Config, before: Text, text: Text)
    requires CharsOf(BracketsOf(cfg, before, 0)) == CharsOf(BracketsOf(cfg, text, 0))
    ensures SameMatching(BracketsOf(cfg, before, 0), BracketsOf(cfg, text, 0))
  {
    hide BracketsOf, SameMatching;
    BracketsSorted(cfg, before, 0);
    BracketsSorted(cfg, text, 0);
    SameCharsSameMatching(BracketsOf(cfg, before, 0), BracketsOf(cfg, text, 0));
  }

  lemma {:induction false} BulkNeedsEdits(cfg: Config, es: seq<Entry>, p: Patch, text: Text)
    requires p == []
    ensures !ShiftedInBulk(cfg, es, p, text)
  {}

  lemma {:induction false} NoneAligned(cfg: Config, before: Text, text: Text)
    ensures Aligned(cfg, [], before, text)
  {}

  lemma {:induction false} PatchInText(p: Patch, before: Text, text: Text)
    requires Rewrites(p, before, text)
    ensures forall i | 0 <= i < |p| :: p[i].os <= p[i].oe && p[i].ns <= p[i].ne <= |text|
  {
    hide Rewrites;
    forall i | 0 <= i < |p| ensures p[i].os <= p[i].oe && p[i].ns <= p[i].ne <= |text| {
      EditInText(p, before, text, i);
    }
  }

  lemma {:induction false} BulkIffLeft(cfg: Config, p: Patch, before: Text, text: Text)
    requires !cfg.IsActive() && LineLocal(cfg) && Rewrites(p, before, text)
    requires Neutral(BracketsOf(cfg, before, 0), p, text)
    ensures forall j | 0 <= j < |BracketsOf(cfg, before, 0)| :: Outside(p, BracketsOf(cfg, before, 0)[j].off)
    ensures MappedBrackets(p, BracketsOf(cfg, before, 0)) == BracketsOf(cfg, text, 0)
            <==> !LeavesBehind(BracketsOf(cfg, before, 0), p)
    ensures CharsOf(MappedBrackets(p, BracketsOf(cfg, before, 0))) == CharsOf(BracketsOf(cfg, before, 0))
  {
    hide BracketsOf, Neutral, Rewrites, StackedInsert;
    BulkShiftIsRescan(cfg, p, before, text);
  }

  // ----- the object a document owns -----

  /** Every bracket of a document, riding one tree. */
  class BracketStore {
    var tree: BTree

    /** The store holds exactly the brackets of `text`. */
    ghost predicate Holds(cfg: Config, text: Text)
      reads this
    {
      Valid(SHAPES, tree) && Brackets(tree) == BracketsOf(cfg, text, 0)
    }

    constructor MatchText(cfg: Config, text: Text)
      ensures Holds(cfg, text)
      ensures forall ts | IsTokens(cfg, text, ts) :: Brackets(tree) == CodeBrackets(text, ts, 0)
    {
      hide IsTokens, CodeBrackets;
      var t := TreeFromText(cfg, text);
      tree := t;
    }

    /** Ride one committed patch; `before` is the text the store held. */
    method Apply(p: Patch, text: Text, cfg: Config, ghost before: Text) returns (window: (nat, nat), ghost q: Patch)
      requires Holds(cfg, before) && LineLocal(cfg) && Rewrites(p, before, text)
      modifies this
      ensures Holds(cfg, text)
              <==> !(ShiftedInBulk(cfg, BracketsOf(cfg, before, 0), p, text)
                     && LeavesBehind(BracketsOf(cfg, before, 0), p))
      ensures Valid(SHAPES, tree)
      ensures Rewrites(q, before, text) && Aligned(cfg, q, before, text)
      ensures window == (0, 0) || (q != [] && window == WindowOf(BracketsOf(cfg, before, 0), q))
      ensures window == (0, 0) ==>
                && SameMatching(BracketsOf(cfg, before, 0), Brackets(tree))
                && SameMatching(BracketsOf(cfg, before, 0), BracketsOf(cfg, text, 0))
    {
      var t: BTree;
      t, window, q := ApplyEdit(tree, p, text, cfg, before);
      tree := t;
    }

    /** The matched partner of the opener at `off`, if there is one. */
    method FoldablePartner(off: nat) returns (r: Option<nat>)
      requires BracketQueries.WellFormed(tree)
      ensures forall i | 0 <= i < |Brackets(tree)| && Brackets(tree)[i].off == off && IsOpener(Brackets(tree)[i].ch) ::
                r == Derive(Brackets(tree)).out[i].partner
      ensures (forall i | 0 <= i < |Brackets(tree)| ::
               !(Brackets(tree)[i].off == off && IsOpener(Brackets(tree)[i].ch)))
              ==> r == None
    {
      hide Valid, Decode, Items, ItemsOf, ItemCharAt, OpenerPartner, Derive;
      var ch := ItemCharAt(tree, off);
      ItemCharAtCorrect(tree, off);
      if ch == None || !IsOpener(ch.value) {
        return None;
      }
      r := ScanForPartner(tree, off, ch.value);
      forall i | 0 <= i < |Brackets(tree)| && Brackets(tree)[i].off == off
        ensures r == Derive(Brackets(tree)).out[i].partner
      {
        OpenerPartnerCorrect(tree, i);
      }
    }
  }

  // ----- the reconcile window -----

  /** Before and after an edit: a common prefix, a common suffix moved by `d`, and anything
      in between. */
  ghost predicate SharedEnds(es: seq<Entry>, now: seq<Entry>, a: nat, b: nat, b': nat, d: int) {
    && a <= b <= |es| && a <= b' <= |now| && |es| - b == |now| - b'
    && es[..a] == now[..a]
    && (forall x | b' <= x < |now| :: now[x].off == es[x - b' + b].off + d && now[x].ch == es[x - b' + b].ch)
  }

  lemma {:induction false} HuntByChars(ch: byte, x: seq<Entry>, y: seq<Entry>)
    requires |x| == |y| && forall i | 0 <= i < |x| :: x[i].ch == y[i].ch
    ensures HuntFlat(ch, Open([]), x).Open? <==> HuntFlat(ch, Open([]), y).Open?
    ensures HuntFlat(ch, Open([]), x).Open? ==> HuntFlat(ch, Open([]), x) == HuntFlat(ch, Open([]), y)
    decreases |x|
  {
    if x != [] { HuntByChars(ch, x[..|x| - 1], y[..|y| - 1]); }
  }

  /** A bond depends only on the characters it spans. */
  lemma {:induction false} BondByChars(es: seq<Entry>, now: seq<Entry>, i: nat, j: nat, i': nat, j': nat)
    requires i < j < |es| && i' < j' < |now| && CharsOf(es[i..j + 1]) == CharsOf(now[i'..j' + 1])
    ensures Bonded(es, i, j) <==> Bonded(now, i', j')
  {
    hide HuntFlat;
    var x, y := es[i..j + 1], now[i'..j' + 1];
    assert |x| == |CharsOf(x)| == |y|;
    assert es[i] == x[0] && es[j] == x[j - i] && now[i'] == y[0] && now[j'] == y[j - i];
    assert CharsOf(x)[0] == CharsOf(y)[0] && CharsOf(x)[j - i] == CharsOf(y)[j - i];
    var p, r := es[i + 1..j], now[i' + 1..j'];
    forall k | 0 <= k < |p| ensures p[k].ch == r[k].ch {
      assert p[k] == x[k + 1] && r[k] == y[k + 1];
      assert CharsOf(x)[k + 1] == CharsOf(y)[k + 1];
    }
    HuntByChars(es[i].ch, p, r);
  }

  /** Right of the edit, bonds only move. */
  lemma {:induction false} SuffixBonds(es: seq<Entry>, now: seq<Entry>, a: nat, b: nat, b': nat, d: int, x: nat, y: nat)
    requires SharedEnds(es, now, a, b, b', d) && b' <= x < y < |now|
    ensures Bonded(es, x - b' + b, y - b' + b) <==> Bonded(now, x, y)
  {
    hide Bonded;
    var p, r := es[x - b' + b..y - b' + b + 1], now[x..y + 1];
    forall k | 0 <= k < |p| ensures p[k].ch == r[k].ch {
      assert r[k] == now[x + k];
    }
    assert CharsOf(p) == CharsOf(r);
    BondByChars(es, now, x - b' + b, y - b' + b, x, y);
  }

  /** Left of the edit, a bond that closes there stays. */
  lemma {:induction false} PrefixBonds(es: seq<Entry>, now: seq<Entry>, a: nat, b: nat, b': nat, d: int, i: nat, j: nat)
    requires SharedEnds(es, now, a, b, b', d) && i < j < a
    ensures Bonded(es, i, j) <==> Bonded(now, i, j)
  {
    hide Bonded;
    assert es[i..j + 1] == es[..a][i..j + 1] && now[i..j + 1] == now[..a][i..j + 1];
    BondByChars(es, now, i, j, i, j);
  }

  /** An opener still open at the cut is at or after the outermost enclosing one. */
  lemma {:induction false} OpenIsAfterSeed(es: seq<Entry>, at: nat, i: nat)
    requires Ascending(es) && AllBrackets(es) && i < CountBefore(es, at) && IsOpener(es[i].ch)
    requires HuntFlat(es[i].ch, Open([]), es[..CountBefore(es, at)][i + 1..]).Open?
    ensures SeedOf(es, at) <= es[i].off
  {
    hide Derive, HuntFlat, ShapeOf, CountBefore;
    var front := es[..CountBefore(es, at)];
    DeriveOpener(front, i);
    DeriveStack(front);
    DeriveStackAscends(front);
    var s := Derive(front).stack;
    assert s[|StackOf(front[..i])|] == i;
    assert front[s[0]] == StackOf(front)[0];
    assert s[0] <= i;
  }

  /** An opener left of the outermost enclosing one closes before the cut. */
  lemma {:induction false} ClosedBeforeSeed(es: seq<Entry>, at: nat, i: nat) returns (j: nat)
    requires Ascending(es) && AllBrackets(es) && i < CountBefore(es, at) && IsOpener(es[i].ch)
    requires es[i].off < SeedOf(es, at)
    ensures i < j < CountBefore(es, at) && Bonded(es, i, j)
  {
    hide HuntFlat, SeedOf, CountBefore;
    var front := es[..CountBefore(es, at)];
    var tail := front[i + 1..];
    if HuntFlat(es[i].ch, Open([]), tail).Open? {
      OpenIsAfterSeed(es, at, i);
    }
    var m := HuntFindsCloser(es[i].ch, [], tail);
    j := i + 1 + m;
    assert tail[..m] == es[i + 1..j];
  }

  /** Cutting a text where it may be lexed apart cuts its brackets. */
  lemma {:induction false} CutAt(cfg: Config, t: Text, x: nat)
    requires LineLocal(cfg) && x <= |t| && CutOk(cfg, t[..x], t[x..])
    ensures var es, k := BracketsOf(cfg, t, 0), CountBefore(BracketsOf(cfg, t, 0), x);
            && es[..k] == BracketsOf(cfg, t[..x], 0) && es[k..] == BracketsOf(cfg, t[x..], x)
  {
    hide BracketsOf, CountBefore, CutOk, LineLocal;
    var l, r := BracketsOf(cfg, t[..x], 0), BracketsOf(cfg, t[x..], x);
    assert t == t[..x] + t[x..];
    BracketsConcat(cfg, t[..x], t[x..], 0);
    BracketsSorted(cfg, t, 0);
    BracketsSorted(cfg, t[..x], 0);
    BracketsSorted(cfg, t[x..], x);
    CountBeforeIs(l + r, x, |l|);
  }

  lemma {:induction false} OuterGaps(q: Patch, before: Text, text: Text)
    requires Rewrites(q, before, text) && q != []
    ensures var first, last := q[0], q[|q| - 1];
            && first.os <= last.oe <= |before| && first.ns <= last.ne <= |text|
            && first.os == first.ns && before[..first.os] == text[..first.ns]
            && last.ne == last.oe + Shift(q, |q|) && before[last.oe..] == text[last.ne..]
  {
    GapOf(q, before, text, 0);
    assert Anchored(q, 0);
    hide Shift, Rewrites, Anchored;
    GapOf(q, before, text, |q|);
    GapBounds(q, before, text, |q|);
    EditsAscend(q, 0, |q| - 1);
    assert q[0].ns <= q[0].ne;
    assert before[q[|q| - 1].oe..] == before[GapStart(q, |q|)..GapEnd(q, |before|, |q|)];
    assert text[q[|q| - 1].ne..] == text[NewGapStart(q, |q|)..NewGapEnd(q, |text|, |q|)];
    if |q| > 1 { NewAscend(q, 0, |q| - 1); }
  }

  lemma {:induction false} AlignedAt(cfg: Config, q: Patch, before: Text, text: Text, k: nat)
    requires Aligned(cfg, q, before, text) && k < |q|
    ensures AlignedEdit(cfg, q[k], before, text)
  {}

  /** The two bracket lists around a run of regions share their ends. */
  lemma {:induction false} RegionsShareEnds(cfg: Config, q: Patch, before: Text, text: Text)
    requires LineLocal(cfg) && Rewrites(q, before, text) && Aligned(cfg, q, before, text) && q != []
    ensures var es, now, last := BracketsOf(cfg, before, 0), BracketsOf(cfg, text, 0), q[|q| - 1];
            SharedEnds(es, now, CountBefore(es, q[0].ns), CountBefore(es, last.oe), CountBefore(now, last.ne),
                       Shift(q, |q|))
            && CountBefore(now, q[0].ns) == CountBefore(es, q[0].ns)
  {
    hide *;
    var first, last := q[0], q[|q| - 1];
    AlignedAt(cfg, q, before, text, 0);
    AlignedAt(cfg, q, before, text, |q| - 1);
    OuterGaps(q, before, text);
    AlignedCuts(cfg, first, before, text);
    AlignedCuts(cfg, last, before, text);
    CutsHold(cfg, before, text, first.ns, last.oe, last.ne);
    EndsShared(cfg, before, text, first.ns, last.oe, last.ne);
  }

  lemma {:induction false} CutsHold(cfg: Config, before: Text, text: Text, x: nat, y: nat, y': nat)
    requires LineLocal(cfg) && x <= |before| && x <= |text| && y <= |before| && y' <= |text|
    requires CutOk(cfg, before[..x], before[x..]) && CutOk(cfg, text[..x], text[x..])
    requires CutOk(cfg, before[..y], before[y..]) && CutOk(cfg, text[..y'], text[y'..])
    ensures CutsInto(cfg, before, x) && CutsInto(cfg, text, x) && CutsInto(cfg, before, y) && CutsInto(cfg, text, y')
  {
    hide BracketsOf, CountBefore, CutOk, LineLocal;
    CutAt(cfg, before, x);
    CutAt(cfg, text, x);
    CutAt(cfg, before, y);
    CutAt(cfg, text, y');
  }

  /** The brackets of `t` before and from `x` are the brackets of its two parts. */
  ghost predicate CutsInto(cfg: Config, t: Text, x: nat)
    requires x <= |t|
  {
    var es, k := BracketsOf(cfg, t, 0), CountBefore(BracketsOf(cfg, t, 0), x);
    es[..k] == BracketsOf(cfg, t[..x], 0) && es[k..] == BracketsOf(cfg, t[x..], x)
  }

  lemma {:induction false} EndsShared(cfg: Config, before: Text, text: Text, x: nat, y: nat, y': nat)
    requires x <= |before| && x <= |text| && x <= y <= |before| && x <= y' <= |text|
    requires before[..x] == text[..x] && before[y..] == text[y'..]
    requires CutsInto(cfg, before, x) && CutsInto(cfg, text, x) && CutsInto(cfg, before, y) && CutsInto(cfg, text, y')
    ensures var es, now := BracketsOf(cfg, before, 0), BracketsOf(cfg, text, 0);
            && SharedEnds(es, now, CountBefore(es, x), CountBefore(es, y), CountBefore(now, y'), y' - y)
            && CountBefore(now, x) == CountBefore(es, x)
  {
    hide BracketsOf, CountBefore;
    var es, now := BracketsOf(cfg, before, 0), BracketsOf(cfg, text, 0);
    BracketsSorted(cfg, before, 0);
    BracketsSorted(cfg, text, 0);
    CountsOrdered(es, x, y - x);
    CountsOrdered(now, x, y' - x);
    BracketsMoved(cfg, before[y..], y, y');
    var b, b' := CountBefore(es, y), CountBefore(now, y');
    assert |es[..CountBefore(es, x)]| == |now[..CountBefore(now, x)]|;
    assert |es[b..]| == |now[b'..]|;
    forall i | b' <= i < |now| ensures now[i].off == es[i - b' + b].off + (y' - y) && now[i].ch == es[i - b' + b].ch {
      assert now[i] == now[b'..][i - b'] && es[i - b' + b] == es[b..][i - b'];
    }
  }

  lemma {:induction false} LeftOfWindow(es: seq<Entry>, now: seq<Entry>, b: nat, b': nat, d: int, at: nat, i: nat)
    requires Ascending(es) && AllBrackets(es) && Ascending(now) && AllBrackets(now)
    requires SharedEnds(es, now, CountBefore(es, at), b, b', d)
    requires i < CountBefore(es, at) && IsOpener(now[i].ch) && now[i].off < SeedOf(es, at)
    ensures es[i] == now[i] && Derive(now).out[i].partner == Derive(es).out[i].partner
  {
    hide Derive, CountBefore, SeedOf, Bonded;
    var a := CountBefore(es, at);
    assert forall x | 0 <= x < a :: es[x] == es[..a][x] == now[..a][x] == now[x];
    var j := ClosedBeforeSeed(es, at, i);
    PrefixBonds(es, now, a, b, b', d, i, j);
    PartnerIsBond(es, i, j);
    PartnerIsBond(now, i, j);
  }

  lemma {:induction false} RightOfWindow(es: seq<Entry>, now: seq<Entry>, a: nat, b: nat, b': nat, d: int, i: nat)
    requires Ascending(es) && AllBrackets(es) && Ascending(now) && AllBrackets(now)
    requires SharedEnds(es, now, a, b, b', d) && b' <= i < |now| && IsOpener(now[i].ch)
    ensures var k := i - b' + b;
            && es[k].off + d == now[i].off && es[k].ch == now[i].ch
            && PartnerMoved(Derive(es).out[k].partner, Derive(now).out[i].partner, d)
  {
    hide Derive, Bonded;
    var k := i - b' + b;
    if Derive(now).out[i].partner.Some? {
      var j := BondOf(now, i);
      SuffixBonds(es, now, a, b, b', d, i, j);
      PartnerIsBond(es, k, j - b' + b);
    } else if Derive(es).out[k].partner.Some? {
      var j := BondOf(es, k);
      var j' := j - b + b';
      assert now[j'].off == es[j].off + d;
      SuffixBonds(es, now, a, b, b', d, i, j');
      PartnerIsBond(now, i, j');
    }
  }

  /** After any edit, every opener outside the reconcile window is an old opener, moved with its
      text, whose partner (or lack of one) is the old one moved with it. */
  lemma {:induction false} WindowIsComplete(cfg: Config, q: Patch, before: Text, text: Text, i: nat)
    requires LineLocal(cfg) && Rewrites(q, before, text) && Aligned(cfg, q, before, text) && q != []
    requires i < |BracketsOf(cfg, text, 0)| && IsOpener(BracketsOf(cfg, text, 0)[i].ch)
    requires var (lo, hi) := WindowOf(BracketsOf(cfg, before, 0), q); !(lo <= BracketsOf(cfg, text, 0)[i].off < hi)
    ensures var es, now := BracketsOf(cfg, before, 0), BracketsOf(cfg, text, 0);
            var off := now[i].off;
            if off < q[0].ns then
              i < |es| && es[i] == now[i] && Derive(now).out[i].partner == Derive(es).out[i].partner
            else
              exists k: nat :: k < |es| && es[k].off + Shift(q, |q|) == off && es[k].ch == now[i].ch
                && PartnerMoved(Derive(es).out[k].partner, Derive(now).out[i].partner, Shift(q, |q|))
  {
    hide BracketsOf, Shift, CountBefore, LineLocal, AlignedEdit, Rewrites, Aligned, Derive, SeedOf;
    var es, now := BracketsOf(cfg, before, 0), BracketsOf(cfg, text, 0);
    var last := q[|q| - 1];
    BracketsSorted(cfg, before, 0);
    BracketsSorted(cfg, text, 0);
    RegionsShareEnds(cfg, q, before, text);
    OuterGaps(q, before, text);
    var a, b, b' := CountBefore(es, q[0].ns), CountBefore(es, last.oe), CountBefore(now, last.ne);
    CountBeforeSpec(now, q[0].ns);
    CountBeforeSpec(now, last.ne);
    if now[i].off < q[0].ns {
      LeftOfWindow(es, now, b, b', Shift(q, |q|), q[0].ns, i);
    } else {
      SeedIsLeft(es, q[0].ns);
      RightOfWindow(es, now, a, b, b', Shift(q, |q|), i);
    }
  }

  // ----- the folds -----

  /** A fold may stay: its opener is matched and there is something between the two. */
  ghost predicate Foldable(es: seq<Entry>, off: nat) {
    exists i :: 0 <= i < |es| && es[i].off == off && IsOpener(es[i].ch)
      && Derive(es).out[i].partner.Some? && Derive(es).out[i].partner.value > off + 1
  }

  /** Every fold reconciled. */
  ghost function Reconciled(es: seq<Entry>, folds: set<nat>): set<nat> { set o | o in folds && Foldable(es, o) }

  /** Only the folds whose opener lies in the window reconciled. */
  ghost function ReconciledIn(es: seq<Entry>, folds: set<nat>, window: (nat, nat)): set<nat> {
    set o | o in folds && (window.0 <= o < window.1 ==> Foldable(es, o))
  }

  /** Folds ride a patch with their openers. */
  ghost function FoldsRidden(p: Patch, folds: set<nat>): set<nat>
    requires Patches.WellFormed(p)
  {
    set o | o in folds :: Mapped(p, o, Right)
  }

  /** An offset left of every edit stays, one right of every edit moves with the text, and one among the
      edits lands among their new texts. */
  lemma {:induction false} RideBounds(p: Patch, x: nat)
    requires Patches.WellFormed(p) && p != []
    ensures x < p[0].os ==> Mapped(p, x, Right) == x
    ensures x >= p[0].os ==> Mapped(p, x, Right) >= p[0].ns
    ensures x <= p[|p| - 1].oe ==> Mapped(p, x, Right) <= p[|p| - 1].ne
    ensures x > p[|p| - 1].oe ==> Mapped(p, x, Right) == x + Shift(p, |p|)
  {
    hide Shift;
    var k, last := FirstReaching(p, x), |p| - 1;
    GapShift(p, k);
    NoShift(p);
    NewTextsAscend(p, 0, last);
    if k < |p| {
      EditsAscend(p, 0, k);
      NewTextsAscend(p, 0, k);
      NewTextsAscend(p, k, last);
      if 0 < k { NewTextsAscend(p, 0, k - 1); }
    }
  }

  lemma {:induction false} NewTextsAscend(p: Patch, i: nat, j: nat)
    requires Patches.WellFormed(p) && i <= j < |p|
    ensures p[i].ns <= p[i].ne <= p[j].ne && p[i].ns <= p[j].ns <= p[j].ne
  {
    if i < j { NewAscend(p, i, j); }
  }

  lemma {:induction false} NoShift(p: Patch)
    ensures Shift(p, 0) == 0
  {}

  /** A fold that rides out of the window is foldable still. */
  lemma {:induction false} FoldOutsideStays(cfg: Config, p: Patch, before: Text, text: Text, o: nat)
    requires LineLocal(cfg) && Rewrites(p, before, text) && Aligned(cfg, p, before, text) && p != []
    requires Patches.WellFormed(p) && Foldable(BracketsOf(cfg, before, 0), o)
    requires var (lo, hi) := WindowOf(BracketsOf(cfg, before, 0), p); !(lo <= Mapped(p, o, Right) < hi)
    ensures Foldable(BracketsOf(cfg, text, 0), Mapped(p, o, Right))
  {
    hide BracketsOf, Shift, CountBefore, LineLocal, AlignedEdit, Rewrites, Aligned, Derive, SeedOf, Mapped;
    var es, now := BracketsOf(cfg, before, 0), BracketsOf(cfg, text, 0);
    var last, d := p[|p| - 1], Shift(p, |p|);
    BracketsSorted(cfg, before, 0);
    BracketsSorted(cfg, text, 0);
    RegionsShareEnds(cfg, p, before, text);
    OuterGaps(p, before, text);
    RideBounds(p, o);
    SeedIsLeft(es, p[0].ns);
    var a, b, b' := CountBefore(es, p[0].ns), CountBefore(es, last.oe), CountBefore(now, last.ne);
    CountBeforeSpec(es, p[0].ns);
    CountBeforeSpec(es, last.oe);
    var k :| 0 <= k < |es| && es[k].off == o && IsOpener(es[k].ch)
             && Derive(es).out[k].partner.Some? && Derive(es).out[k].partner.value > o + 1;
    if Mapped(p, o, Right) < p[0].ns {
      assert es[k] == es[..a][k] == now[..a][k] == now[k];
      LeftOfWindow(es, now, b, b', d, p[0].ns, k);
    } else {
      var i := k - b + b';
      RightOfWindow(es, now, a, b, b', d, i);
      assert now[i].off == Mapped(p, o, Right);
    }
  }

  /** After an edit path's commit it is enough to reconcile the folds in the window: those reconciling all
      of them would drop are there.  With nothing configured the regions are the commit's own edits. */
  lemma {:induction false} WindowReconciles(cfg: Config, p: Patch, before: Text, text: Text, folds: set<nat>)
    requires !cfg.IsActive() && Rewrites(p, before, text) && Patches.WellFormed(p) && p != []
    requires forall o | o in folds :: Foldable(BracketsOf(cfg, before, 0), o)
    ensures var now, window := BracketsOf(cfg, text, 0), WindowOf(BracketsOf(cfg, before, 0), p);
            ReconciledIn(now, FoldsRidden(p, folds), window) == Reconciled(now, FoldsRidden(p, folds))
  {
    hide BracketsOf, Rewrites, Foldable, Mapped, WindowOf, LineLocal;
    var es, now, ridden := BracketsOf(cfg, before, 0), BracketsOf(cfg, text, 0), FoldsRidden(p, folds);
    InactiveAligned(cfg, p, before, text);
    var window := WindowOf(es, p);
    forall r | r in ridden && !(window.0 <= r < window.1) ensures Foldable(now, r) {
      var o :| o in folds && r == Mapped(p, o, Right);
      FoldOutsideStays(cfg, p, before, text, o);
    }
  }

  lemma {:induction false} InactiveAligned(cfg: Config, p: Patch, before: Text, text: Text)
    requires !cfg.IsActive() && Rewrites(p, before, text)
    ensures LineLocal(cfg) && Aligned(cfg, p, before, text)
  {
    hide Rewrites;
    forall k | 0 <= k < |p| ensures AlignedEdit(cfg, p[k], before, text) {
      GapBounds(p, before, text, k);
      GapBounds(p, before, text, k + 1);
      RewritesWellFormed(p, before, text);
    }
  }

  /** The same characters, matched the same way: each bracket keeps its partner by index, or its lack
      of one. */
  ghost predicate SameMatching(es: seq<Entry>, now: seq<Entry>) {
    && CharsOf(es) == CharsOf(now)
    && (forall i | 0 <= i < |es| :: Derive(now).out[i].partner.Some? <==> Derive(es).out[i].partner.Some?)
    && (forall i, j | 0 <= i < |es| && 0 <= j < |es| ::
          Derive(now).out[i].partner == Some(now[j].off) <==> Derive(es).out[i].partner == Some(es[j].off))
  }

  /** Matching depends only on the characters. */
  lemma {:induction false} SameCharsSameMatching(es: seq<Entry>, now: seq<Entry>)
    requires Ascending(es) && AllBrackets(es) && Ascending(now) && AllBrackets(now) && CharsOf(es) == CharsOf(now)
    ensures SameMatching(es, now)
  {
    hide Derive, Bonded, CharsOf;
    assert |CharsOf(es)| == |CharsOf(now)|;
    forall i | 0 <= i < |es| ensures es[i].ch == now[i].ch { assert CharsOf(es)[i] == CharsOf(now)[i]; }
    forall i, j | 0 <= i < |es| && 0 <= j < |es|
      ensures Derive(now).out[i].partner == Some(now[j].off) <==> Derive(es).out[i].partner == Some(es[j].off)
    {
      PartnerByChars(es, now, i, j);
    }
    forall i | 0 <= i < |es| ensures Derive(now).out[i].partner.Some? <==> Derive(es).out[i].partner.Some? {
      if Derive(es).out[i].partner.Some? {
        var j := SomePartner(es, i);
        PartnerByChars(es, now, i, j);
      }
      if Derive(now).out[i].partner.Some? {
        var j := SomePartner(now, i);
        PartnerByChars(es, now, i, j);
      }
    }
  }

  /** A matched closer's partner is an opener before it. */
  lemma {:induction false} CloserTop(es: seq<Entry>, i: nat) returns (j: nat)
    requires i < |es| && !IsOpener(es[i].ch) && Derive(es).out[i].partner.Some?
    ensures j < i && IsOpener(es[j].ch) && Derive(es).out[i].partner == Some(es[j].off)
  {
    hide Derive, ShapeOf;
    DeriveCloser(es, i);
    DeriveStack(es[..i]);
    var s := Derive(es[..i]).stack;
    j := s[|s| - 1];
    assert es[..i][j] == es[j];
  }

  /** A recorded partner is a bracket of the list. */
  lemma {:induction false} SomePartner(es: seq<Entry>, i: nat) returns (j: nat)
    requires Ascending(es) && AllBrackets(es) && i < |es| && Derive(es).out[i].partner.Some?
    ensures j < |es| && Derive(es).out[i].partner == Some(es[j].off)
  {
    hide Derive;
    if IsOpener(es[i].ch) { j := BondOf(es, i); } else { j := CloserTop(es, i); }
  }

  lemma {:induction false} OffsetsDistinct(es: seq<Entry>, k: nat, j: nat)
    requires Ascending(es) && k < |es| && j < |es| && es[k].off == es[j].off
    ensures k == j
  {}

  lemma {:induction false} CloserPartner(es: seq<Entry>, i: nat, j: nat)
    requires Ascending(es) && AllBrackets(es) && i < |es| && j < |es| && !IsOpener(es[i].ch)
    ensures Derive(es).out[i].partner == Some(es[j].off) <==> Bonded(es, j, i)
  {
    hide Derive, HuntFlat, ShapeOf;
    if Derive(es).out[i].partner == Some(es[j].off) {
      var k := CloserTop(es, i);
      OffsetsDistinct(es, k, j);
    }
    if IsOpener(es[j].ch) {
      DeriveCloser(es, i);
      CloserBond(es, j, i);
    }
  }

  lemma {:induction false} BondAlike(es: seq<Entry>, now: seq<Entry>, i: nat, j: nat)
    requires |es| == |now| && i < |es| && j < |es| && forall k | 0 <= k < |es| :: es[k].ch == now[k].ch
    ensures Bonded(es, i, j) <==> Bonded(now, i, j)
  {
    hide HuntFlat;
    if i < j {
      assert CharsOf(es[i..j + 1]) == CharsOf(now[i..j + 1]);
      BondByChars(es, now, i, j, i, j);
    }
  }

  lemma {:induction false} OpenIsOpener(es: seq<Entry>, i: nat)
    requires AllBrackets(es) && i < |es|
    ensures Derive(es).out[i].open <==> IsOpener(es[i].ch)
  {
    hide Derive, HuntFlat, ShapeOf;
    if IsOpener(es[i].ch) { DeriveOpener(es, i); } else { DeriveCloser(es, i); }
  }

  lemma {:induction false} PartnerByChars(es: seq<Entry>, now: seq<Entry>, i: nat, j: nat)
    requires Ascending(es) && AllBrackets(es) && Ascending(now) && AllBrackets(now) && |es| == |now|
    requires (forall k | 0 <= k < |es| :: es[k].ch == now[k].ch) && i < |es| && j < |es|
    ensures Derive(now).out[i].partner == Some(now[j].off) <==> Derive(es).out[i].partner == Some(es[j].off)
  {
    hide Derive;
    OpenIsOpener(es, i);
    OpenIsOpener(now, i);
    if IsOpener(es[i].ch) {
      PartnerIsBond(es, i, j);
      PartnerIsBond(now, i, j);
      BondAlike(es, now, i, j);
    } else {
      CloserPartner(es, i, j);
      CloserPartner(now, i, j);
      BondAlike(es, now, j, i);
    }
  }

  /** The same partner, moved by `d`, or none on both sides. */
  ghost predicate PartnerMoved(was: Option<nat>, now: Option<nat>, d: int) {
    match was
    case None => now == None
    case Some(o) => now.Some? && now.value == o + d
  }

  lemma {:induction false} SeedIsLeft(es: seq<Entry>, at: nat)
    requires Ascending(es)
    ensures SeedOf(es, at) <= at
  {
    hide ShapeOf, CountBefore, Derive;
    var k := CountBefore(es, at);
    CountBeforeSpec(es, at);
    DeriveStack(es[..k]);
    var s := Derive(es[..k]).stack;
    if s != [] { assert es[..k][s[0]] == StackOf(es[..k])[0]; }
  }

  // ----- where the bulk shift goes wrong -----

  const PLAIN := Config([], [], None)

  /** Sixty-five one-byte insertions at offset 0, in front of a lone "(". */
  function Flood(): Patch { seq(65, i requires 0 <= i < 65 => Edit(0, 0, i, i + 1)) }

  function Water(): (xs: Text)
    ensures |xs| == 65 && forall i | 0 <= i < 65 :: xs[i] == 120
  {
    seq(65, i requires 0 <= i < 65 => 120)
  }

  function Flooded(): Text { Water() + [40] }

  lemma {:induction false} WaterIsPlain()
    ensures NoBrackets(Water())
  {
    hide Water;
  }

  lemma {:induction false} FloodShift(k: nat)
    requires k <= 65
    ensures Shift(Flood(), k) == k
    decreases k
  {
    if k > 0 { FloodShift(k - 1); }
  }

  lemma {:induction false} FloodRewrites()
    ensures Rewrites(Flood(), [40], Flooded())
  {
    hide Shift;
    var p := Flood();
    forall i | 0 <= i < |p| ensures Anchored(p, i) { FloodShift(i); }
    FloodShift(65);
    forall k | 0 <= k <= |p| ensures GapKept(p, [40], Flooded(), k) {
      if k == 65 { assert Flooded()[65..66] == [40]; }
    }
  }

  lemma {:induction false} FloodBrackets()
    ensures BracketsOf(PLAIN, [40], 0) == [Entry(0, 40)]
    ensures BracketsOf(PLAIN, Flooded(), 0) == [Entry(65, 40)]
  {
    hide Flooded, Scan;
    FloodScan();
    ScanOne(0);
  }

  lemma {:induction false} FloodScan()
    ensures Scan(Flooded(), 0) == [Entry(65, 40)]
  {
    WaterIsPlain();
    hide Scan, Water, NoBrackets;
    LoneBracket(Water());
  }

  lemma {:induction false} LoneBracket(xs: Text)
    requires NoBrackets(xs)
    ensures Scan(xs + [40], 0) == [Entry(|xs|, 40)]
  {
    hide *;
    ScanNoBrackets(xs, 0);
    ScanConcat(xs, [40], 0);
    ScanOne(|xs|);
    assert [] + [Entry(|xs|, 40)] == [Entry(|xs|, 40)];
  }

  lemma {:induction false} ScanOne(at: nat)
    ensures Scan([40], at) == [Entry(at, 40)]
  {
    ScanCons([40], at);
    assert [40][1..] == [];
  }

  lemma {:induction false} FloodPiece(i: nat)
    requires i < 65
    ensures Flood()[i] == Edit(0, 0, i, i + 1)
    ensures i + 1 <= |Flooded()| && NoBrackets(Flooded()[i..i + 1])
  {
    var piece := Flooded()[i..i + 1];
    assert |piece| == 1 && piece[0] == 120;
    assert piece == [120];
  }

  /** A patch of stacked insertions takes the bulk path and leaves its bracket behind: the tree
      says offset 1, the text says 65. */
  lemma {:induction false} BulkShiftLeavesABracketBehind()
    ensures Rewrites(Flood(), [40], Flooded())
    ensures ShiftedInBulk(PLAIN, BracketsOf(PLAIN, [40], 0), Flood(), Flooded())
    ensures MapOffset(Flood(), 0, Right) == 1
    ensures BracketsOf(PLAIN, [40], 0) == [Entry(0, 40)]
    ensures BracketsOf(PLAIN, Flooded(), 0) == [Entry(65, 40)]
  {
    FloodRewrites();
    FloodBrackets();
    var p := Flood();
    forall i | 0 <= i < |p| ensures NoBrackets(Flooded()[p[i].ns..p[i].ne]) { FloodPiece(i); }
    FirstReachingIs(p, 0, 0);
    FloodShift(0);
  }
}
