/**
 Riding a committed patch through the bracket tree: the region loop, the line-aligned regions
 of the comment-aware scan, the bulk shift, and the reconcile window.
 */
module BracketEdits {
  import opened Base
  import opened SumTrees
  import opened Patches
  import opened BracketShapes
  import opened BracketQueries
  import opened BracketText
  import opened BracketTokens
  import opened BracketSplice

  // ----- text, half rewritten -----

  /** The text once the first `k` edits are applied. */
  ghost function Mixed(p: Patch, before: Text, after: Text, k: nat): Text
    requires Rewrites(p, before, after) && k <= |p|
  {
    assert GapKept(p, before, after, k);
    after[..NewGapStart(p, k)] + before[GapStart(p, k)..]
  }

  lemma {:induction false} MixedEnds(p: Patch, before: Text, after: Text)
    requires Rewrites(p, before, after)
    ensures Mixed(p, before, after, 0) == before
    ensures Mixed(p, before, after, |p|) == after
  {
    assert GapKept(p, before, after, 0);
    assert GapKept(p, before, after, |p|);
    var n := |p|;
    assert after == after[..NewGapStart(p, n)] + after[NewGapStart(p, n)..NewGapEnd(p, |after|, n)];
  }

  lemma {:induction false} EditInText(p: Patch, before: Text, after: Text, k: nat)
    requires Rewrites(p, before, after) && k < |p|
    ensures p[k].os <= p[k].oe <= |before| && p[k].ns <= p[k].ne <= |after|
  {
    assert GapKept(p, before, after, k);
    assert GapKept(p, before, after, k + 1);
  }

  /** Around edit `k` the two half-rewritten texts differ only in the edit itself. */
  lemma {:induction false} MixedStep(p: Patch, before: Text, after: Text, k: nat)
    requires Rewrites(p, before, after) && k < |p|
    requires p[k].os <= p[k].oe <= |before| && p[k].ns <= p[k].ne <= |after|
    ensures Mixed(p, before, after, k) == after[..p[k].ns] + (before[p[k].os..p[k].oe] + before[p[k].oe..])
    ensures Mixed(p, before, after, k + 1) == after[..p[k].ns] + (after[p[k].ns..p[k].ne] + before[p[k].oe..])
  {
    assert GapKept(p, before, after, k);
    var g, ng := GapStart(p, k), NewGapStart(p, k);
    assert after[..p[k].ns] == after[..ng] + after[ng..p[k].ns];
    assert before[g..] == before[g..p[k].os] + (before[p[k].os..p[k].oe] + before[p[k].oe..]);
    assert after[..p[k].ne] == after[..p[k].ns] + after[p[k].ns..p[k].ne];
  }

  /** An edit in whole lines of both texts, as far as the lexer needs it. */
  ghost predicate AlignedEdit(cfg: Config, e: Edit, before: Text, after: Text) {
    && e.os <= e.oe <= |before| && e.ns <= e.ne <= |after|
    && (cfg.IsActive() ==>
          && (e.ns > 0 ==> after[e.ns - 1] == NEWLINE)
          && (e.oe == |before|
              || (e.ns < e.ne && e.os < e.oe && after[e.ne - 1] == NEWLINE && before[e.oe - 1] == NEWLINE)))
  }

  /** The cuts around an aligned edit may be lexed apart. */
  lemma {:induction false} AlignedCuts(cfg: Config, e: Edit, before: Text, after: Text)
    requires AlignedEdit(cfg, e, before, after)
    ensures forall rest: Text :: CutOk(cfg, after[..e.ns], rest)
    ensures CutOk(cfg, after[e.ns..e.ne], before[e.oe..]) && CutOk(cfg, after[..e.ne], before[e.oe..])
    ensures CutOk(cfg, before[e.os..e.oe], before[e.oe..]) && CutOk(cfg, before[..e.oe], before[e.oe..])
  {
    if cfg.IsActive() && e.oe < |before| {
      assert before[e.os..e.oe][e.oe - e.os - 1] == before[e.oe - 1];
      assert after[e.ns..e.ne][e.ne - e.ns - 1] == after[e.ne - 1];
    }
  }

  ghost predicate Aligned(cfg: Config, p: Patch, before: Text, after: Text) {
    forall k | 0 <= k < |p| :: AlignedEdit(cfg, p[k], before, after)
  }

  lemma {:induction false} CutThree(x: seq<Entry>, y: seq<Entry>, z: seq<Entry>, lo: nat, hi: nat)
    requires lo <= hi && Ascending(x + (y + z)) && Within(x, 0, lo) && Within(y, lo, hi)
    requires forall i | 0 <= i < |z| :: hi <= z[i].off
    ensures var es := x + (y + z);
            es[..CountBefore(es, lo)] == x && es[CountBefore(es, hi)..] == z
  {
    var es := x + (y + z);
    CountBeforeIs(es, lo, |x|);
    CountBeforeIs(es, hi, |x| + |y|);
  }

  /** A splice of a bracket list cut in three. */
  lemma {:induction false} SplicedParts(x: seq<Entry>, y: seq<Entry>, z: seq<Entry>, lo: nat, hi: nat, top: nat,
                                        to: nat, found: seq<Entry>)
    requires lo <= hi && lo <= to && Ascending(x + (y + z)) && Within(x, 0, lo) && Within(y, lo, hi)
             && Within(z, hi, top)
    ensures Spliced(x + (y + z), lo, hi - lo, to, found) == x + (found + Move(z, to - hi))
  {
    hide CountBefore, Move;
    CutThree(x, y, z, lo, hi);
  }

  lemma {:induction false} BracketsOfThree(cfg: Config, a: Text, r: Text, c: Text)
    requires LineLocal(cfg) && CutOk(cfg, a, r + c) && CutOk(cfg, r, c)
    ensures BracketsOf(cfg, a + (r + c), 0)
            == BracketsOf(cfg, a, 0) + (BracketsOf(cfg, r, |a|) + BracketsOf(cfg, c, |a| + |r|))
    ensures Ascending(BracketsOf(cfg, a + (r + c), 0))
  {
    hide BracketsOf;
    BracketsConcat(cfg, a, r + c, 0);
    BracketsConcat(cfg, r, c, |a|);
    BracketsSorted(cfg, a + (r + c), 0);
  }

  /** Replacing the middle of a text splices its brackets. */
  lemma {:induction false} SplicedText(cfg: Config, a: Text, r: Text, r': Text, c: Text)
    requires LineLocal(cfg) && CutOk(cfg, a, r + c) && CutOk(cfg, a, r' + c) && CutOk(cfg, r, c) && CutOk(cfg, r', c)
    ensures Ascending(BracketsOf(cfg, a + (r + c), 0))
    ensures Spliced(BracketsOf(cfg, a + (r + c), 0), |a|, |r|, |a| + |r'|, BracketsOf(cfg, r', |a|))
            == BracketsOf(cfg, a + (r' + c), 0)
  {
    hide BracketsOf, Spliced, Move, CutOk;
    BracketsOfThree(cfg, a, r, c);
    BracketsOfThree(cfg, a, r', c);
    BracketsMoved(cfg, c, |a| + |r|, |a| + |r'|);
    BracketsSorted(cfg, a, 0);
    BracketsSorted(cfg, r, |a|);
    SplicedParts(BracketsOf(cfg, a, 0), BracketsOf(cfg, r, |a|), BracketsOf(cfg, c, |a| + |r|),
                 |a|, |a| + |r|, |a| + |r| + |c|, |a| + |r'|, BracketsOf(cfg, r', |a|));
  }

  lemma {:induction false} StepBrackets(cfg: Config, p: Patch, before: Text, after: Text, k: nat)
    requires LineLocal(cfg) && Rewrites(p, before, after) && k < |p| && AlignedEdit(cfg, p[k], before, after)
    ensures Ascending(BracketsOf(cfg, Mixed(p, before, after, k), 0))
    ensures Spliced(BracketsOf(cfg, Mixed(p, before, after, k), 0), p[k].ns, p[k].oe - p[k].os, p[k].ne,
                    BracketsOf(cfg, after[p[k].ns..p[k].ne], p[k].ns))
            == BracketsOf(cfg, Mixed(p, before, after, k + 1), 0)
  {
    hide BracketsOf, Spliced;
    AlignedCuts(cfg, p[k], before, after);
    MixedStep(p, before, after, k);
    var a, c := after[..p[k].ns], before[p[k].oe..];
    SplicedText(cfg, a, before[p[k].os..p[k].oe], after[p[k].ns..p[k].ne], c);
  }

  // ----- the region loop -----

  /** A stretch of the post-edit text to rescan, and how many pre-edit bytes it replaces. */
  datatype Region = Region(start: nat, end: nat, oldLen: nat)

  /** `regions` are the edits of the patch `q`. */
  ghost predicate RegionsOf(regions: seq<Region>, q: Patch) {
    && |regions| == |q|
    && forall i | 0 <= i < |q| :: q[i].os <= q[i].oe && regions[i] == Region(q[i].ns, q[i].ne, q[i].oe - q[i].os)
  }

  /** The code brackets of `slice`, whose first byte is at `start`, lexing as it goes. */
  method ScanLexed(cfg: Config, slice: Text, start: nat) returns (found: seq<Entry>)
    ensures found == Lex(cfg, slice, START, start)
  {
    hide Lex, LexStep;
    found := [];
    var lexer := new SkipContext(slice, cfg);
    assert slice[0..] == slice;
    while lexer.i < |slice|
      invariant lexer.Valid() && lexer.bytes == slice && lexer.cfg == cfg
      invariant Lex(cfg, slice, START, start) == found + Lex(cfg, slice[lexer.i..], lexer.State(), start + lexer.i)
      decreases |slice| - lexer.i
    {
      LexCons(cfg, slice[lexer.i..], lexer.State(), start + lexer.i);
      assert slice[lexer.i..][1..] == slice[lexer.i + 1..];
      var next := lexer.Next();
      var (i, b, skip) := next.value;
      if !skip && IsBracket(b) {
        found := found + [Entry(start + i, b)];
      }
    }
    LexNil(cfg, slice[|slice|..], lexer.State(), start + |slice|);
  }

  lemma {:induction false} LexNil(cfg: Config, text: Text, st: LexState, at: nat)
    requires text == []
    ensures Lex(cfg, text, st, at) == []
  {}

  /** Every bracket of `slice`, whose first byte is at `start`. */
  method ScanPlain(slice: Text, start: nat) returns (found: seq<Entry>)
    ensures found == Scan(slice, start)
  {
    hide Scan;
    found := [];
    assert slice[0..] == slice;
    for i := 0 to |slice|
      invariant Scan(slice, start) == found + Scan(slice[i..], start + i)
    {
      ScanCons(slice[i..], start + i);
      assert slice[i..][1..] == slice[i + 1..];
      if IsBracket(slice[i]) {
        found := found + [Entry(start + i, slice[i])];
      }
    }
    ScanCons(slice[|slice|..], start + |slice|);
  }

  /** The brackets of a stretch of text, as the region scan collects them. */
  method ScanRegion(cfg: Config, text: Text, start: nat, end: nat) returns (found: seq<Entry>)
    requires start <= end <= |text|
    ensures found == BracketsOf(cfg, text[start..end], start)
  {
    if cfg.IsActive() {
      found := ScanLexed(cfg, text[start..end], start);
    } else {
      found := ScanPlain(text[start..end], start);
    }
  }

  /** The load-time constructor: a tree holding exactly the document's brackets, the ones in no
      comment and no literal. */
  method TreeFromText(cfg: Config, text: Text) returns (t: BTree)
    ensures Valid(SHAPES, t) && Brackets(t) == BracketsOf(cfg, text, 0)
    ensures forall ts | IsTokens(cfg, text, ts) :: Brackets(t) == CodeBrackets(text, ts, 0)
  {
    hide IsTokens, CodeBrackets;
    forall ts | IsTokens(cfg, text, ts) ensures BracketsOf(cfg, text, 0) == CodeBrackets(text, ts, 0) {
      BracketsAreTokens(cfg, text, ts, 0);
    }
    var found := ScanRegion(cfg, text, 0, |text|);
    assert text[0..|text|] == text;
    BracketsSorted(cfg, text, 0);
    FromItemsCorrect(SHAPES, Encode(found, 0));
    DecodeEncode(found, 0);
    t := FromItems(SHAPES, Encode(found, 0));
  }

  /** One region: rescan its stretch and splice it into the running tree. */
  method SpliceOne(cur: BTree, region: Region, cfg: Config, text: Text, ghost q: Patch, ghost before: Text,
                   ghost i: nat)
    returns (r: BTree, structural: bool)
    requires LineLocal(cfg) && Rewrites(q, before, text) && i < |q| && AlignedEdit(cfg, q[i], before, text)
    requires region == Region(q[i].ns, q[i].ne, q[i].oe - q[i].os)
    requires Valid(SHAPES, cur) && Brackets(cur) == BracketsOf(cfg, Mixed(q, before, text, i), 0)
    ensures Valid(SHAPES, r) && Brackets(r) == BracketsOf(cfg, Mixed(q, before, text, i + 1), 0)
    ensures !structural ==> CharsOf(Brackets(r)) == CharsOf(Brackets(cur))
  {
    hide Valid, Decode, Items, ItemsOf, BracketsOf, Spliced, CountBefore, Shift, Mixed, Rewrites, CutOk;
    var rs, reNew := region.start, region.end;
    StepBrackets(cfg, q, before, text, i);
    var found := ScanRegion(cfg, text, rs, reNew);
    BracketsSorted(cfg, text[rs..reNew], rs);
    BracketsSorted(cfg, Mixed(q, before, text, i), 0);
    var removed: nat;
    r, removed := SpliceRegion(cur, rs, region.oldLen, reNew, found);
    structural := removed > 0 || found != [];
    if !structural { NothingSpliced(Brackets(cur), rs, region.oldLen, reNew); }
  }

  /** Splice the regions left to right on the running tree. */
  method SpliceAll(t: BTree, regions: seq<Region>, cfg: Config, text: Text, ghost q: Patch, ghost before: Text)
    returns (cur: BTree, structural: bool)
    requires Valid(SHAPES, t) && Brackets(t) == BracketsOf(cfg, before, 0)
    requires LineLocal(cfg) && Rewrites(q, before, text) && Aligned(cfg, q, before, text) && RegionsOf(regions, q)
    ensures Valid(SHAPES, cur) && Brackets(cur) == BracketsOf(cfg, text, 0)
    ensures !structural ==> CharsOf(Brackets(cur)) == CharsOf(Brackets(t))
  {
    hide Valid, Decode, Items, ItemsOf, BracketsOf, Rewrites, Mixed, AlignedEdit, LineLocal;
    cur, structural := t, false;
    MixedEnds(q, before, text);
    for i := 0 to |regions|
      invariant Valid(SHAPES, cur) && Brackets(cur) == BracketsOf(cfg, Mixed(q, before, text, i), 0)
      invariant !structural ==> CharsOf(Brackets(cur)) == CharsOf(Brackets(t))
    {
      var changed;
      cur, changed := SpliceOne(cur, regions[i], cfg, text, q, before, i);
      structural := structural || changed;
    }
  }

  ghost function CharsOf(es: seq<Entry>): (r: seq<byte>)
    ensures |r| == |es| && forall i | 0 <= i < |es| :: r[i] == es[i].ch
  {
    seq(|es|, i requires 0 <= i < |es| => es[i].ch)
  }

  /** A splice that removes nothing and adds nothing keeps the bracket sequence. */
  lemma {:induction false} NothingSpliced(es: seq<Entry>, rs: nat, oldLen: nat, reNew: nat)
    requires Ascending(es) && rs <= reNew && CountBefore(es, rs + oldLen) == CountBefore(es, rs)
    ensures CharsOf(Spliced(es, rs, oldLen, reNew, [])) == CharsOf(es)
  {
    CountsOrdered(es, rs, oldLen);
    var k := CountBefore(es, rs);
    assert es == es[..k] + es[k..];
  }

  // ----- line-aligned regions -----

  /** The start of the line holding `off`. */
  function LineStart(text: Text, off: nat): (r: nat)
    requires off <= |text|
    ensures r <= off
    ensures r > 0 ==> text[r - 1] == NEWLINE
    ensures forall i | r <= i < off :: text[i] != NEWLINE
  {
    if off == 0 || text[off - 1] == NEWLINE then off else LineStart(text, off - 1)
  }

  /** The start of the line after the one holding `off`, or the end of the text. */
  function NextLineStart(text: Text, off: nat): (r: nat)
    requires off <= |text|
    ensures off <= r <= |text|
    ensures r == |text| || (r > off && text[r - 1] == NEWLINE)
    decreases |text| - off
  {
    if off == |text| then off else if text[off] == NEWLINE then off + 1 else NextLineStart(text, off + 1)
  }

  lemma {:induction false} NextLineMonotone(text: Text, a: nat, b: nat)
    requires a <= b <= |text|
    ensures NextLineStart(text, a) <= NextLineStart(text, b)
    decreases b - a
  {
    if a < b && text[a] != NEWLINE { NextLineMonotone(text, a + 1, b); }
  }

  /** The edits `lo..hi`, rescanned together as the stretch `start..end`. */
  datatype Group = Group(lo: nat, hi: nat, start: nat, end: nat)

  /** A group covers its edits, from the first one's line start to the last one's next line. */
  ghost predicate GroupOk(p: Patch, text: Text, g: Group) {
    && g.lo < g.hi <= |p|
    && p[g.lo].ns <= |text| && p[g.hi - 1].ne <= |text|
    && g.start == LineStart(text, p[g.lo].ns) && g.end == NextLineStart(text, p[g.hi - 1].ne)
  }

  /** The groups partition the edits `0..n`, with text between them. */
  ghost predicate GroupsOk(p: Patch, text: Text, gs: seq<Group>, n: nat) {
    && (forall i | 0 <= i < |gs| :: GroupOk(p, text, gs[i]))
    && (if gs == [] then n == 0 else gs[0].lo == 0 && gs[|gs| - 1].hi == n)
    && (forall i | 0 <= i < |gs| - 1 :: gs[i].hi == gs[i + 1].lo && gs[i].end < gs[i + 1].start)
  }

  /** A group as one edit: its stretch, and the pre-edit stretch it replaces. */
  ghost function Coarse(p: Patch, g: Group): Edit
    requires g.lo < g.hi <= |p|
  {
    var os := p[g.lo].os - (p[g.lo].ns - g.start);
    var oe := p[g.hi - 1].oe + (g.end - p[g.hi - 1].ne);
    Edit(if os < 0 then 0 else os, if oe < 0 then 0 else oe, g.start, g.end)
  }

  /** A group stays between its neighbours' edits. */
  ghost predicate InRange(p: Patch, before: Text, text: Text, g: Group) {
    && g.lo < g.hi <= |p|
    && NewGapStart(p, g.lo) <= g.start <= p[g.lo].ns
    && p[g.hi - 1].ne <= g.end <= NewGapEnd(p, |text|, g.hi)
  }

  lemma {:induction false} GroupInRange(p: Patch, before: Text, text: Text, gs: seq<Group>, j: nat)
    requires Rewrites(p, before, text) && GroupsOk(p, text, gs, |p|) && j < |gs|
    ensures InRange(p, before, text, gs[j])
  {
    hide LineStart, NextLineStart, Rewrites;
    GroupLoHi(p, text, gs, j);
  }

  lemma {:induction false} GroupLoHi(p: Patch, text: Text, gs: seq<Group>, j: nat)
    requires GroupsOk(p, text, gs, |p|) && j < |gs|
    ensures gs[j].lo > 0 ==> j > 0 && gs[j - 1].hi == gs[j].lo && gs[j - 1].end < gs[j].start
    ensures gs[j].hi < |p| ==> j < |gs| - 1 && gs[j + 1].lo == gs[j].hi && gs[j].end < gs[j + 1].start
  {
    if j > 0 { assert gs[j - 1].hi == gs[j - 1 + 1].lo; }
    if j < |gs| - 1 { assert gs[j].hi == gs[j + 1].lo; }
  }

  /** The coarse edit of a group, in terms of the fine patch's shifts. */
  lemma {:induction false} CoarseIs(p: Patch, before: Text, text: Text, g: Group)
    requires Rewrites(p, before, text) && InRange(p, before, text, g)
    ensures var e := Coarse(p, g);
            && e.os == g.start - Shift(p, g.lo) && e.oe == g.end - Shift(p, g.hi)
            && GapStart(p, g.lo) <= e.os <= p[g.lo].os && p[g.hi - 1].oe <= e.oe <= GapEnd(p, |before|, g.hi)
            && e.os <= e.oe && e.ns <= e.ne && e.ns == g.start && e.ne == g.end
            && Delta(e) == Shift(p, g.hi) - Shift(p, g.lo)
  {
    hide Shift;
    GapShift(p, g.lo);
    GapShift(p, g.hi);
    GapShift(p, g.hi - 1);
    EditsAscend(p, g.lo, g.hi - 1);
    assert GapKept(p, before, text, g.hi);
    if g.lo < g.hi - 1 { NewAscend(p, g.lo, g.hi - 1); }
  }

  ghost function CoarsePatch(p: Patch, gs: seq<Group>): Patch
    requires forall i | 0 <= i < |gs| :: gs[i].lo < gs[i].hi <= |p|
  {
    seq(|gs|, i requires 0 <= i < |gs| => Coarse(p, gs[i]))
  }

  ghost predicate GroupsInRange(p: Patch, before: Text, text: Text, gs: seq<Group>) {
    && (forall i | 0 <= i < |gs| :: InRange(p, before, text, gs[i]))
    && (if gs == [] then p == [] else gs[0].lo == 0 && gs[|gs| - 1].hi == |p|)
    && (forall i | 0 <= i < |gs| - 1 :: gs[i].hi == gs[i + 1].lo && gs[i].end < gs[i + 1].start)
  }

  /** The fine index where coarse gap `j` lies. */
  ghost function LoOf(p: Patch, gs: seq<Group>, j: nat): nat
    requires j <= |gs|
  {
    if j == |gs| then |p| else gs[j].lo
  }

  lemma {:induction false} CoarseShift(p: Patch, before: Text, text: Text, gs: seq<Group>, j: nat)
    requires Rewrites(p, before, text) && GroupsInRange(p, before, text, gs) && j <= |gs|
    ensures LoOf(p, gs, j) <= |p| && Shift(CoarsePatch(p, gs), j) == Shift(p, LoOf(p, gs, j))
    decreases j
  {
    if j > 0 {
      CoarseShift(p, before, text, gs, j - 1);
      CoarseIs(p, before, text, gs[j - 1]);
      assert gs[j - 1].hi == LoOf(p, gs, j) by {
        if j < |gs| { assert gs[j - 1].hi == gs[j - 1 + 1].lo; }
      }
    }
  }

  lemma {:induction false} CoarseAdjacent(p: Patch, before: Text, text: Text, gs: seq<Group>, i: nat, j: nat)
    requires Rewrites(p, before, text) && GroupsInRange(p, before, text, gs) && i < j < |gs|
    ensures Coarse(p, gs[i]).oe <= Coarse(p, gs[j]).os
    decreases j - i
  {
    CoarseIs(p, before, text, gs[i]);
    CoarseIs(p, before, text, gs[i + 1]);
    assert gs[i].hi == gs[i + 1].lo;
    hide Coarse, Shift;
    if i + 1 < j { CoarseAdjacent(p, before, text, gs, i + 1, j); }
  }

  lemma {:induction false} SubSlice(a: Text, b: Text, lo: nat, hi: nat, lo': nat, hi': nat, x: nat, y: nat, x': nat,
                                    y': nat)
    requires lo <= x <= y <= hi <= |a| && lo' <= x' <= y' <= hi' <= |b|
    requires a[lo..hi] == b[lo'..hi'] && x - lo == x' - lo' && y - x == y' - x'
    ensures a[x..y] == b[x'..y']
  {
    forall i | 0 <= i < y - x ensures a[x..y][i] == b[x'..y'][i] {
      assert a[lo..hi][x - lo + i] == b[lo'..hi'][x - lo + i];
    }
  }

  /** A coarse gap starts inside the matching fine gap. */
  lemma {:induction false} CoarseGapStart(p: Patch, before: Text, text: Text, gs: seq<Group>, k: nat)
    requires Rewrites(p, before, text) && GroupsInRange(p, before, text, gs) && k <= |gs|
    ensures var q, f := CoarsePatch(p, gs), LoOf(p, gs, k);
            && f <= |p| && GapStart(p, f) <= GapStart(q, k) && NewGapStart(q, k) == GapStart(q, k) + Shift(p, f)
  {
    hide GapKept, Shift, Coarse, Rewrites;
    var f := LoOf(p, gs, k);
    if k > 0 {
      CoarseIs(p, before, text, gs[k - 1]);
      assert k < |gs| ==> gs[k - 1].hi == gs[k - 1 + 1].lo;
    }
    GapBounds(p, before, text, f);
  }

  /** A coarse gap ends inside the matching fine gap. */
  lemma {:induction false} CoarseGapEnd(p: Patch, before: Text, text: Text, gs: seq<Group>, k: nat)
    requires Rewrites(p, before, text) && GroupsInRange(p, before, text, gs) && k <= |gs|
    ensures var q, f := CoarsePatch(p, gs), LoOf(p, gs, k);
            && f <= |p| && GapEnd(q, |before|, k) <= GapEnd(p, |before|, f)
            && NewGapEnd(q, |text|, k) == GapEnd(q, |before|, k) + Shift(p, f)
            && NewGapStart(q, k) <= NewGapEnd(q, |text|, k)
  {
    hide GapKept, Shift, Coarse, Rewrites;
    var f := LoOf(p, gs, k);
    if k < |gs| { CoarseIs(p, before, text, gs[k]); }
    if k > 0 {
      CoarseIs(p, before, text, gs[k - 1]);
      assert k < |gs| ==> gs[k - 1].end < gs[k - 1 + 1].start;
    }
    GapBounds(p, before, text, f);
  }

  lemma {:induction false} CoarseGap(p: Patch, before: Text, text: Text, gs: seq<Group>, k: nat)
    requires Rewrites(p, before, text) && GroupsInRange(p, before, text, gs) && k <= |gs|
    ensures GapKept(CoarsePatch(p, gs), before, text, k)
  {
    hide Rewrites, LoOf, Coarse, Shift;
    var q, f := CoarsePatch(p, gs), LoOf(p, gs, k);
    CoarseGapStart(p, before, text, gs, k);
    CoarseGapEnd(p, before, text, gs, k);
    GapBounds(p, before, text, f);
    GapOf(p, before, text, f);
    SubSlice(before, text, GapStart(p, f), GapEnd(p, |before|, f), NewGapStart(p, f), NewGapEnd(p, |text|, f),
             GapStart(q, k), GapEnd(q, |before|, k), NewGapStart(q, k), NewGapEnd(q, |text|, k));
  }

  /** Widening and merging edits to whole stretches is still a patch between the same texts. */
  lemma {:induction false} CoarseRewrites(p: Patch, before: Text, text: Text, gs: seq<Group>)
    requires Rewrites(p, before, text) && GroupsInRange(p, before, text, gs)
    ensures Rewrites(CoarsePatch(p, gs), before, text)
  {
    hide Shift, Coarse, GapKept;
    var q := CoarsePatch(p, gs);
    forall i | 0 <= i < |q| ensures q[i].os <= q[i].oe && q[i].ns <= q[i].ne {
      CoarseIs(p, before, text, gs[i]);
    }
    forall i, j | 0 <= i < j < |q| ensures q[i].oe <= q[j].os {
      CoarseAdjacent(p, before, text, gs, i, j);
    }
    forall i | 0 <= i < |q| ensures Anchored(q, i) {
      CoarseIs(p, before, text, gs[i]);
      CoarseShift(p, before, text, gs, i);
    }
    CoarseShift(p, before, text, gs, |gs|);
    forall k | 0 <= k <= |q| ensures GapKept(q, before, text, k) {
      CoarseGap(p, before, text, gs, k);
    }
  }

  /** The newline that ends a group is in the untouched text after its last edit. */
  lemma {:induction false} GroupEndsLine(p: Patch, before: Text, text: Text, g: Group)
    requires Rewrites(p, before, text) && GroupOk(p, text, g) && InRange(p, before, text, g) && g.end < |text|
    ensures var e := Coarse(p, g);
            && p[g.hi - 1].ne < g.end && p[g.hi - 1].oe < e.oe <= |before|
            && text[g.end - 1] == NEWLINE && before[e.oe - 1] == NEWLINE
  {
    CoarseIs(p, before, text, g);
    var e := Coarse(p, g);
    hide Shift, Rewrites, Coarse, NextLineStart, LineStart;
    RewritesWellFormed(p, before, text);
    GapShift(p, g.hi);
    GapByte(p, before, text, g.hi, e.oe - 1);
  }

  lemma {:induction false} GroupEndsText(p: Patch, before: Text, text: Text, gs: seq<Group>, k: nat)
    requires Rewrites(p, before, text) && GroupsOk(p, text, gs, |p|) && k < |gs|
    requires InRange(p, before, text, gs[k]) && gs[k].end == |text|
    ensures Coarse(p, gs[k]).oe == |before|
  {
    CoarseIs(p, before, text, gs[k]);
    hide Shift, Rewrites, Coarse, NextLineStart, LineStart;
    assert k + 1 < |gs| ==> GroupOk(p, text, gs[k + 1]);
    GroupLoHi(p, text, gs, k);
    RewritesWellFormed(p, before, text);
  }

  /** The line boundaries of the groups are line boundaries of both texts. */
  lemma {:induction false} CoarseAligned(cfg: Config, p: Patch, before: Text, text: Text, gs: seq<Group>, k: nat)
    requires Rewrites(p, before, text) && GroupsOk(p, text, gs, |p|) && k < |gs|
    requires GroupsInRange(p, before, text, gs)
    ensures AlignedEdit(cfg, CoarsePatch(p, gs)[k], before, text)
  {
    hide Rewrites, GroupsOk, GroupsInRange, GroupOk, InRange, Coarse, Shift, GapStart, GapEnd, Delta;
    var g := gs[k];
    GroupAt(p, before, text, gs, k);
    CoarseIs(p, before, text, g);
    CoarseEndInText(p, before, text, g);
    if g.end == |text| {
      GroupEndsText(p, before, text, gs, k);
    } else {
      GroupEndsLine(p, before, text, g);
      GroupNonEmpty(p, before, text, g);
    }
  }

  lemma {:induction false} GroupAt(p: Patch, before: Text, text: Text, gs: seq<Group>, k: nat)
    requires GroupsOk(p, text, gs, |p|) && GroupsInRange(p, before, text, gs) && k < |gs|
    ensures var g := gs[k];
            && GroupOk(p, text, g) && InRange(p, before, text, g) && g.lo < g.hi <= |p|
            && g.start <= |text| && (g.start > 0 ==> text[g.start - 1] == NEWLINE)
  {
    assert GroupOk(p, text, gs[k]);
  }

  lemma {:induction false} CoarseEndInText(p: Patch, before: Text, text: Text, g: Group)
    requires Rewrites(p, before, text) && InRange(p, before, text, g)
    ensures Coarse(p, g).oe <= |before| && g.end <= |text|
  {
    CoarseIs(p, before, text, g);
    hide Coarse, Rewrites, Shift;
    GapOf(p, before, text, g.hi);
  }

  lemma {:induction false} GroupNonEmpty(p: Patch, before: Text, text: Text, g: Group)
    requires Rewrites(p, before, text) && InRange(p, before, text, g)
    ensures g.start <= p[g.hi - 1].ne && Coarse(p, g).os <= p[g.hi - 1].oe
  {
    CoarseIs(p, before, text, g);
    hide Coarse, Shift;
    EditsAscend(p, g.lo, g.hi - 1);
    if g.lo < g.hi - 1 { NewAscend(p, g.lo, g.hi - 1); }
  }

  lemma {:induction false} PlainAligned(cfg: Config, p: Patch, before: Text, text: Text)
    requires Rewrites(p, before, text) && !cfg.IsActive()
    ensures Aligned(cfg, p, before, text)
  {
    forall k | 0 <= k < |p| ensures AlignedEdit(cfg, p[k], before, text) {
      EditInText(p, before, text, k);
    }
  }

  /** Appending a stretch that does not touch the last one. */
  lemma {:induction false} GroupAppended(p: Patch, text: Text, gs: seq<Group>, i: nat)
    requires i < |p| && GroupsOk(p, text, gs, i) && p[i].ns <= |text| && p[i].ne <= |text|
    requires gs != [] ==> gs[|gs| - 1].end < LineStart(text, p[i].ns)
    ensures GroupsOk(p, text, gs + [Group(i, i + 1, LineStart(text, p[i].ns), NextLineStart(text, p[i].ne))], i + 1)
  {
    hide LineStart, NextLineStart;
  }

  /** Extending the last stretch over one more edit. */
  lemma {:induction false} GroupExtended(p: Patch, text: Text, gs: seq<Group>, i: nat)
    requires i < |p| && GroupsOk(p, text, gs, i) && gs != [] && p[i].ne <= |text|
    ensures var g := gs[|gs| - 1];
            GroupsOk(p, text, gs[|gs| - 1 := Group(g.lo, i + 1, g.start, NextLineStart(text, p[i].ne))], i + 1)
  {
    hide LineStart, NextLineStart;
  }

  /** What `merged` records of the groups. */
  ghost predicate Records(p: Patch, merged: seq<(nat, nat, int)>, gs: seq<Group>) {
    && |merged| == |gs|
    && forall j | 0 <= j < |gs| ::
         && gs[j].lo < gs[j].hi <= |p|
         && merged[j].0 == gs[j].start && merged[j].1 == gs[j].end
         && merged[j].2 == Shift(p, gs[j].hi) - Shift(p, gs[j].lo)
  }

  /** The old length of a stretch: its new length less the net change, never negative. */
  function StretchOf(m: (nat, nat, int)): Region {
    var oldLen := m.1 - m.0 - m.2;
    Region(m.0, m.1, if oldLen < 0 then 0 else oldLen)
  }

  lemma {:induction false} StretchesAreRegions(p: Patch, before: Text, text: Text, gs: seq<Group>,
                                               merged: seq<(nat, nat, int)>)
    requires Rewrites(p, before, text) && GroupsInRange(p, before, text, gs) && Records(p, merged, gs)
    ensures RegionsOf(seq(|merged|, i requires 0 <= i < |merged| => StretchOf(merged[i])), CoarsePatch(p, gs))
  {
    hide Shift, Coarse;
    forall i | 0 <= i < |gs|
      ensures var e := CoarsePatch(p, gs)[i];
              e.os <= e.oe && StretchOf(merged[i]) == Region(e.ns, e.ne, e.oe - e.os)
    {
      CoarseIs(p, before, text, gs[i]);
    }
  }

  lemma {:induction false} GroupsFinished(cfg: Config, p: Patch, before: Text, text: Text, gs: seq<Group>)
    requires Rewrites(p, before, text) && GroupsOk(p, text, gs, |p|)
    ensures GroupsInRange(p, before, text, gs)
    ensures Rewrites(CoarsePatch(p, gs), before, text) && Aligned(cfg, CoarsePatch(p, gs), before, text)
  {
    hide Rewrites, GroupOk, Coarse, AlignedEdit;
    forall j | 0 <= j < |gs| ensures InRange(p, before, text, gs[j]) {
      GroupInRange(p, before, text, gs, j);
    }
    CoarseRewrites(p, before, text, gs);
    forall k | 0 <= k < |gs| ensures AlignedEdit(cfg, CoarsePatch(p, gs)[k], before, text) {
      CoarseAligned(cfg, p, before, text, gs, k);
    }
  }

  /** Widen each edit to its lines, merging stretches that touch. */
  method LineAlignedRegions(p: Patch, text: Text, ghost cfg: Config, ghost before: Text)
    returns (regions: seq<Region>, ghost q: Patch)
    requires Rewrites(p, before, text)
    ensures Rewrites(q, before, text) && Aligned(cfg, q, before, text) && RegionsOf(regions, q)
    ensures p != [] ==> q != []
  {
    hide LineStart, NextLineStart, Rewrites, GroupsOk, Aligned, RegionsOf, CoarsePatch;
    // (new start, new end, net length change) of each merged stretch
    var merged: seq<(nat, nat, int)> := [];
    ghost var gs: seq<Group> := [];
    GroupsNone(p, text);
    for i := 0 to |p|
      invariant GroupsOk(p, text, gs, i)
      invariant Records(p, merged, gs) && (i > 0 ==> gs != [])
    {
      var e := p[i];
      EditInText(p, before, text, i);
      var start := LineStart(text, e.ns);
      var end := NextLineStart(text, e.ne);
      var d := Delta(e);
      if merged != [] && start <= merged[|merged| - 1].1 {
        var last := |merged| - 1;
        LastGroup(p, before, text, gs, i);
        GroupExtended(p, text, gs, i);
        merged := merged[last := (merged[last].0, Max(merged[last].1, end), merged[last].2 + d)];
        gs := gs[last := Group(gs[last].lo, i + 1, gs[last].start, end)];
      } else {
        GroupAppended(p, text, gs, i);
        merged := merged + [(start, end, d)];
        gs := gs + [Group(i, i + 1, start, end)];
      }
    }
    GroupsFinished(cfg, p, before, text, gs);
    StretchesAreRegions(p, before, text, gs, merged);
    q := CoarsePatch(p, gs);
    if p != [] { CoarseNonEmpty(p, gs); }
    regions := seq(|merged|, i requires 0 <= i < |merged| => StretchOf(merged[i]));
  }

  lemma {:induction false} GroupsNone(p: Patch, text: Text)
    ensures GroupsOk(p, text, [], 0)
  {}

  lemma {:induction false} CoarseNonEmpty(p: Patch, gs: seq<Group>)
    requires gs != [] && forall i | 0 <= i < |gs| :: gs[i].lo < gs[i].hi <= |p|
    ensures CoarsePatch(p, gs) != []
  {}

  /** The last stretch ends at or before the next edit's next line. */
  lemma {:induction false} LastGroup(p: Patch, before: Text, text: Text, gs: seq<Group>, i: nat)
    requires Rewrites(p, before, text) && i < |p| && GroupsOk(p, text, gs, i) && gs != []
    ensures p[i].ne <= |text| && gs[|gs| - 1].hi == i && gs[|gs| - 1].end <= NextLineStart(text, p[i].ne)
  {
    EditInText(p, before, text, i);
    NewAscend(p, i - 1, i);
    NextLineMonotone(text, p[i - 1].ne, p[i].ne);
  }
}
