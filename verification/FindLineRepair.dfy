/**
 Repairing a line-scoped match set: scanning the lines each edit touches restores every match,
 whatever lines the patch joins or splits.
 */
module FindLineRepair {
  import opened Base
  import opened Patches
  import opened TextRows
  import opened FindScans
  import opened FindSets
  import opened FindScopes
  import opened FindRepair
  import opened FindLines

  /** The whole lines a range touches, the last line's newline excluded. */
  function WholeLines(t: Text, r: Span): Span
    requires r.start <= |t| && r.end <= |t|
  {
    var base := RowStart(t, RowOf(t, r.end));
    Span(RowStart(t, RowOf(t, r.start)), LineHi(t, base))
  }

  lemma {:induction false} WholeLinesIs(t: Text, r: Span)
    requires r.start <= r.end <= |t|
    ensures WholeLines(t, r) == Span(LineLo(t, r.start), LineHi(t, r.end))
    ensures WholeLines(t, r).start <= r.start && r.end <= WholeLines(t, r).end <= |t|
    ensures StartsLine(t, WholeLines(t, r).start) && EndsLine(t, WholeLines(t, r).end)
  {
    RowStartIsLineLo(t, r.start);
    RowStartIsLineLo(t, r.end);
    LineAround(t, r.end);
    LineIs(t, LineLo(t, r.end), LineHi(t, r.end), LineLo(t, r.end));
  }

  function WindowOf(t: Text, e: Edit): Span
    requires e.ns <= e.ne <= |t|
  {
    Span(LineLo(t, e.ns), LineHi(t, e.ne))
  }

  /** The part of the edit's lines that lies in the scope. */
  function LinesWindow(t: Text, scope: Span, e: Edit): Span
    requires e.ns <= e.ne <= |t|
  {
    Span(Max(WindowOf(t, e).start, scope.start), Min(WindowOf(t, e).end, scope.end))
  }

  predicate InLines(t: Text, e: Edit, s: Span)
    requires e.ns <= e.ne <= |t|
  {
    TouchesSpan(s, WindowOf(t, e).start, WindowOf(t, e).end)
  }

  /** A match touches a run of whole lines only if it lies in it. */
  lemma {:induction false} MatchInLines(t: Text, m: LineMatcher, lo: nat, hi: nat, s: Span)
    requires lo <= hi <= |t| && StartsLine(t, lo) && EndsLine(t, hi) && LineMatch(t, m, s)
    ensures TouchesSpan(s, lo, hi) <==> lo <= s.start && s.end <= hi
  {
    var a: nat, b: nat :| MatchOn(t, m, a, b, s);
    MatchBounds(t, m, a, b, s);
    if a < lo <= b { StartBlocks(t, a, lo, b); }
    if a <= hi < b { EndBlocks(t, a, hi, b); }
  }

  /** The scan of a stretch, begun at its first line, yields exactly the matches in it. */
  lemma {:induction false} ScopedMembers(t: Text, m: LineMatcher, w: Span, s: Span)
    requires IsMatcher(m) && w.start <= w.end <= |t|
    ensures s in Scoped(t, m, LineLo(t, w.start), w) <==> LineMatch(t, m, s) && Within(s, w)
  {
    hide LinesFrom, Inside, MatchOn, LineHi, LineLo;
    var ls := LineLo(t, w.start);
    LineAround(t, w.start);
    InsideMembers(LinesFrom(t, m, ls, w.end), w, s);
    LinesMembers(t, m, ls, w.end, s);
    if a: nat, b: nat :| MatchOn(t, m, a, b, s) {
      MatchBounds(t, m, a, b, s);
      if ls <= s.start { LineNotBefore(t, a, b, ls, s.start); }
    }
  }

  /** A line reaching a place at or after a line's start does not begin before it. */
  lemma {:induction false} LineNotBefore(t: Text, a: nat, b: nat, ls: nat, x: nat)
    requires IsLine(t, a, b) && ls <= x <= |t| && StartsLine(t, ls) && a <= x <= b
    ensures ls <= a
  {
    LineQuiet(t, a, b, x);
    if a < ls { StartBlocks(t, a, ls, x); }
  }

  lemma {:induction false} LineQuiet(t: Text, a: nat, b: nat, x: nat)
    requires IsLine(t, a, b) && a <= x <= b
    ensures NoNewline(t, a, x) && NoNewline(t, x, b)
  {}

  lemma {:induction false} ScopedIsApart(t: Text, m: LineMatcher, w: Span)
    requires IsMatcher(m) && w.start <= w.end <= |t|
    ensures Apart(Scoped(t, m, LineLo(t, w.start), w))
  {
    hide LineLo;
    var ls := LineLo(t, w.start);
    LineAround(t, w.start);
    LinesApart(t, m, ls, w.end);
    InsideApart(LinesFrom(t, m, ls, w.end), w);
  }

  // ----- the set under repair -----

  ghost predicate Repaired(p: Patch, t: Text, i: nat, s: Span) {
    exists j | 0 <= j < i && j < |p| :: p[j].ns <= p[j].ne <= |t| && InLines(t, p[j], s)
  }

  /** What belongs in the set: on the lines of the edits repaired so far the scope's matches,
      elsewhere what the mover left. */
  ghost predicate Belongs(p: Patch, t: Text, m: LineMatcher, scope: Span, i: nat, rides: set<Span>, s: Span) {
    Within(s, scope) && if Repaired(p, t, i, s) then LineMatch(t, m, s) else s in rides
  }

  /** The set holds nothing else, and everything of it that starts before `top`. */
  ghost predicate LinesRepairing(p: Patch, t: Text, m: LineMatcher, scope: Span, i: nat, rides: set<Span>, f: set<Span>,
                                 top: nat) {
    && Disjoint(f)
    && (forall s | s in f :: Belongs(p, t, m, scope, i, rides, s))
    && (forall s | Belongs(p, t, m, scope, i, rides, s) && s.start < top :: s in f)
  }

  lemma {:induction false} LinesRepairStarts(p: Patch, t: Text, m: LineMatcher, scope: Span, rides: set<Span>, top: nat)
    requires Disjoint(rides) && forall s | s in rides :: Within(s, scope)
    ensures LinesRepairing(p, t, m, scope, 0, rides, rides, top)
  {
    hide Disjoint;
  }

  lemma {:induction false} RepairedNext(p: Patch, t: Text, i: nat, s: Span)
    requires i < |p| && p[i].ns <= p[i].ne <= |t|
    ensures Repaired(p, t, i + 1, s) <==> Repaired(p, t, i, s) || InLines(t, p[i], s)
  {
    hide InLines;
  }

  /** What a re-scan of lines that may have stopped early adds: matches of the lines, all of those
      starting before `top` among them. */
  ghost predicate ScopedBelow(t: Text, m: LineMatcher, w: Span, added: seq<Span>, top: nat)
    requires w.start <= |t|
  {
    && (forall s | s in added :: s in Scoped(t, m, LineLo(t, w.start), w))
    && (forall s | s in Scoped(t, m, LineLo(t, w.start), w) && s.start < top :: s in added)
  }

  lemma {:induction false} LinesRepairStep(p: Patch, t: Text, m: LineMatcher, scope: Span, i: nat, rides: set<Span>,
                                           f: set<Span>, added: seq<Span>, top: nat, cut: nat)
    requires i < |p| && p[i].ns <= p[i].ne <= |t| && IsMatcher(m) && cut <= top
    requires LinesRepairing(p, t, m, scope, i, rides, f, top)
    requires var w := LinesWindow(t, scope, p[i]);
             && w.start <= w.end <= |t| && ScopedBelow(t, m, w, added, cut)
             && Disjoint(WithoutTouching(f, w.start, w.end) + SpanSet(added))
    ensures var w := LinesWindow(t, scope, p[i]);
            LinesRepairing(p, t, m, scope, i + 1, rides, WithoutTouching(f, w.start, w.end) + SpanSet(added), cut)
  {
    hide Disjoint, Scoped, Repaired, LineMatch, StartsLine, EndsLine, LineLo, LineHi, ScopedBelow, LinesWindow, InLines;
    var w := LinesWindow(t, scope, p[i]);
    var g := WithoutTouching(f, w.start, w.end);
    var f' := g + SpanSet(added);
    LinesAdded(t, m, scope, p[i], added, cut);
    LinesDisjoint(p, t, m, scope, i, rides, f, top);
    forall s | s in f' ensures Belongs(p, t, m, scope, i + 1, rides, s) {
      RepairedNext(p, t, i, s);
      if s in g { UntouchedLines(t, scope, p[i], s); }
    }
    forall s | Belongs(p, t, m, scope, i + 1, rides, s) && s.start < cut ensures s in f' {
      RepairedNext(p, t, i, s);
      TouchedLines(t, scope, p[i], s);
    }
  }

  lemma {:induction false} LinesDisjoint(p: Patch, t: Text, m: LineMatcher, scope: Span, i: nat, rides: set<Span>,
                                         f: set<Span>, top: nat)
    requires LinesRepairing(p, t, m, scope, i, rides, f, top)
    ensures Disjoint(f) && forall s | s in f :: s.start < s.end && Within(s, scope)
  {
    hide Repaired, LineMatch;
  }

  lemma {:induction false} UntouchedLines(t: Text, scope: Span, e: Edit, s: Span)
    requires e.ns <= e.ne <= |t| && Within(s, scope) && s.start <= s.end
    requires var w := LinesWindow(t, scope, e); !TouchesSpan(s, w.start, w.end)
    ensures !InLines(t, e, s)
  {}

  lemma {:induction false} TouchedLines(t: Text, scope: Span, e: Edit, s: Span)
    requires e.ns <= e.ne <= |t|
    ensures var w := LinesWindow(t, scope, e); TouchesSpan(s, w.start, w.end) ==> InLines(t, e, s)
  {}

  lemma {:induction false} LinesAdded(t: Text, m: LineMatcher, scope: Span, e: Edit, added: seq<Span>, cut: nat)
    requires e.ns <= e.ne <= |t| && IsMatcher(m)
    requires var w := LinesWindow(t, scope, e); w.start <= w.end <= |t| && ScopedBelow(t, m, w, added, cut)
    ensures forall s | s in added :: LineMatch(t, m, s) && InLines(t, e, s) && Within(s, scope)
    ensures forall s | LineMatch(t, m, s) && InLines(t, e, s) && Within(s, scope) && s.start < cut :: s in added
  {
    hide Scoped, LineMatch, StartsLine, EndsLine, LineLo, LineHi;
    var w := LinesWindow(t, scope, e);
    forall s
      ensures s in Scoped(t, m, LineLo(t, w.start), w) <==> LineMatch(t, m, s) && InLines(t, e, s) && Within(s, scope)
    {
      ScopedMembers(t, m, w, s);
      if LineMatch(t, m, s) {
        LineMatchSolid(t, m, s);
        MatchInLines(t, m, WindowOf(t, e).start, WindowOf(t, e).end, s);
      }
    }
  }

  /** An edit whose lines lie outside the scope has nothing to repair. */
  lemma {:induction false} LinesSkip(p: Patch, t: Text, m: LineMatcher, scope: Span, i: nat, rides: set<Span>,
                                     f: set<Span>, top: nat)
    requires i < |p| && p[i].ns <= p[i].ne <= |t| && scope.start <= scope.end
    requires LinesRepairing(p, t, m, scope, i, rides, f, top)
    requires LinesWindow(t, scope, p[i]).start > LinesWindow(t, scope, p[i]).end
    ensures LinesRepairing(p, t, m, scope, i + 1, rides, f, top)
  {
    hide Disjoint, Repaired, LineMatch, LinesWindow, InLines, LineLo, LineHi;
    LinesDisjoint(p, t, m, scope, i, rides, f, top);
    forall s | s in f ensures Belongs(p, t, m, scope, i + 1, rides, s) {
      RepairedNext(p, t, i, s);
      OutsideLines(t, scope, p[i], s);
    }
    forall s | Belongs(p, t, m, scope, i + 1, rides, s) && s.start < top ensures s in f {
      RepairedNext(p, t, i, s);
      if InLines(t, p[i], s) && LineMatch(t, m, s) {
        LineMatchSolid(t, m, s);
        OutsideLines(t, scope, p[i], s);
      }
    }
  }

  lemma {:induction false} OutsideLines(t: Text, scope: Span, e: Edit, s: Span)
    requires e.ns <= e.ne <= |t| && scope.start <= scope.end && Within(s, scope) && s.start <= s.end
    requires LinesWindow(t, scope, e).start > LinesWindow(t, scope, e).end
    ensures !InLines(t, e, s)
  {}

  /** The re-scanned lines' matches can be inserted beside the survivors. */
  ghost predicate Fits(f: set<Span>, w: Span, added: seq<Span>) {
    && Apart(added) && DistinctSpans(added)
    && (forall s | s in added :: s !in WithoutTouching(f, w.start, w.end))
    && Disjoint(WithoutTouching(f, w.start, w.end) + SpanSet(added))
  }

  lemma {:induction false} AddedFits(t: Text, m: LineMatcher, f: set<Span>, w: Span)
    requires w.start <= w.end <= |t| && IsMatcher(m) && Disjoint(f)
    ensures Fits(f, w, Scoped(t, m, LineLo(t, w.start), w))
  {
    hide Scoped, LineMatch, LineLo;
    var added := Scoped(t, m, LineLo(t, w.start), w);
    ScopedIsApart(t, m, w);
    forall s | s in added ensures w.start <= s.start < s.end <= w.end {
      ScopedMembers(t, m, w, s);
      LineMatchSolid(t, m, s);
    }
    ApartIsDisjoint(added);
  }

  lemma {:induction false} LineMatchSolid(t: Text, m: LineMatcher, s: Span)
    requires LineMatch(t, m, s)
    ensures s.start < s.end <= |t|
  {}

  lemma {:induction false} ApartIsDisjoint(l: seq<Span>)
    requires Apart(l) && forall s | s in l :: s.start < s.end
    ensures Disjoint(SpanSet(l)) && DistinctSpans(l)
  {
    forall i, j | 0 <= i < j < |l| ensures l[i] != l[j] {
      assert l[i] in l && l[i].end <= l[j].start;
    }
    forall a, b | a in l && b in l && a != b ensures !Overlap(a, b) {
      var i :| 0 <= i < |l| && l[i] == a;
      var j :| 0 <= j < |l| && l[j] == b;
      if i < j { assert a.end <= b.start; } else { assert b.end <= a.start; }
    }
  }

  // ----- lines no edit touches -----

  /** The line, with the newlines around it, lies inside gap `g`. */
  ghost predicate LineInGap(p: Patch, before: Text, g: nat, ls: nat, le: nat) {
    && g <= |p| && ls <= le <= |before|
    && (g > 0 ==> GapStart(p, g) < ls)
    && (g < |p| ==> le < p[g].os)
  }

  lemma {:induction false} GapEnds(p: Patch, before: Text, after: Text)
    requires Rewrites(p, before, after)
    ensures |before| + Shift(p, |p|) == |after| && Shift(p, 0) == 0
  {}

  /** Inside a gap a newline is a newline, and a text end a text end. */
  lemma {:induction false} GapLine(p: Patch, before: Text, after: Text, g: nat, ls: nat, le: nat)
    requires Rewrites(p, before, after) && LineInGap(p, before, g, ls, le)
    ensures 0 <= ls + Shift(p, g) && le + Shift(p, g) <= |after|
    ensures IsLine(before, ls, le) <==> IsLine(after, ls + Shift(p, g), le + Shift(p, g))
    ensures before[ls..le] == after[ls + Shift(p, g)..le + Shift(p, g)]
  {
    hide Shift, Rewrites;
    var d := Shift(p, g);
    GapBounds(p, before, after, g);
    GapEnds(p, before, after);
    GapSlice(p, before, after, g, ls, le);
    GapStartsLine(p, before, after, g, ls);
    GapEndsLine(p, before, after, g, le);
    forall x | ls <= x < le ensures before[x] == after[x + d] {
      GapByte(p, before, after, g, x);
    }
    QuietCopy(before, after, ls, le, d);
  }

  lemma {:induction false} QuietCopy(before: Text, after: Text, ls: nat, le: nat, d: int)
    requires ls <= le <= |before| && 0 <= ls + d && le + d <= |after|
    requires forall x | ls <= x < le :: before[x] == after[x + d]
    ensures NoNewline(before, ls, le) <==> NoNewline(after, ls + d, le + d)
  {
    if NoNewline(before, ls, le) {
      forall y: nat | ls + d <= y < le + d ensures after[y] != NEWLINE {
        assert before[y - d] == after[y - d + d];
      }
    }
  }

  lemma {:induction false} GapSlice(p: Patch, before: Text, after: Text, g: nat, ls: nat, le: nat)
    requires Rewrites(p, before, after) && LineInGap(p, before, g, ls, le)
    ensures 0 <= ls + Shift(p, g) && le + Shift(p, g) <= |after|
    ensures before[ls..le] == after[ls + Shift(p, g)..le + Shift(p, g)]
  {
    hide Shift, Rewrites;
    var d := Shift(p, g);
    GapBounds(p, before, after, g);
    var x, y := before[ls..le], after[ls + d..le + d];
    forall i | 0 <= i < |x| ensures x[i] == y[i] {
      GapByte(p, before, after, g, ls + i);
    }
  }

  lemma {:induction false} GapStartsLine(p: Patch, before: Text, after: Text, g: nat, ls: nat)
    requires Rewrites(p, before, after) && g <= |p| && (g > 0 ==> GapStart(p, g) < ls) && ls <= GapEnd(p, |before|, g)
    requires ls <= |before| && 0 <= ls + Shift(p, g) <= |after|
    ensures StartsLine(before, ls) <==> StartsLine(after, ls + Shift(p, g))
  {
    hide Shift, Rewrites;
    GapEnds(p, before, after);
    if ls > 0 {
      GapByte(p, before, after, g, ls - 1);
    }
  }

  lemma {:induction false} GapEndsLine(p: Patch, before: Text, after: Text, g: nat, le: nat)
    requires Rewrites(p, before, after) && g <= |p| && (g < |p| ==> le < p[g].os) && GapStart(p, g) <= le
    requires le <= |before| && 0 <= le + Shift(p, g) <= |after|
    ensures EndsLine(before, le) <==> EndsLine(after, le + Shift(p, g))
  {
    hide Shift, Rewrites;
    GapEnds(p, before, after);
    GapBounds(p, before, after, g);
    if le < |before| {
      GapByte(p, before, after, g, le);
    }
  }

  /** A match on such a line is a match of the other text, moved by the gap's shift. */
  lemma {:induction false} GapLineMatch(p: Patch, before: Text, after: Text, m: LineMatcher, g: nat, ls: nat, le: nat,
                                        s: Span)
    requires Rewrites(p, before, after) && LineInGap(p, before, g, ls, le) && ls <= s.start < s.end <= le
    ensures s.start + Shift(p, g) >= 0 && 0 <= ls + Shift(p, g)
    ensures MatchOn(before, m, ls, le, s) <==>
              MatchOn(after, m, ls + Shift(p, g), le + Shift(p, g), Span(s.start + Shift(p, g), s.end + Shift(p, g)))
  {
    hide Shift, Rewrites, IsLine, LineInGap;
    GapLine(p, before, after, g, ls, le);
  }

  // ----- matches no window touches -----

  ghost predicate Untouched(p: Patch, t: Text, s: Span) {
    forall j | 0 <= j < |p| && p[j].ns <= p[j].ne <= |t| :: !InLines(t, p[j], s)
  }

  /** With no newline between an edit's new text and a match after it, its window touches the
      match. */
  lemma {:induction false} WindowReachesRight(t: Text, e: Edit, s: Span)
    requires e.ns <= e.ne <= s.start <= s.end <= |t| && NoNewline(t, e.ne, s.start)
    ensures InLines(t, e, s)
  {
    if LineHi(t, e.ne) < s.start { EndBlocks(t, e.ne, LineHi(t, e.ne), s.start); }
  }

  lemma {:induction false} WindowReachesLeft(t: Text, e: Edit, s: Span)
    requires s.start <= s.end <= e.ns <= e.ne <= |t| && NoNewline(t, s.end, e.ns)
    ensures InLines(t, e, s)
  {
    if s.end < LineLo(t, e.ns) { StartBlocks(t, s.end, LineLo(t, e.ns), e.ns); }
  }

  lemma {:induction false} WindowMeets(t: Text, e: Edit, s: Span)
    requires e.ns <= e.ne <= |t| && TouchesSpan(s, e.ns, e.ne)
    ensures InLines(t, e, s)
  {}

  lemma {:induction false} GapQuiet(p: Patch, before: Text, after: Text, g: nat, a: nat, b: nat)
    requires Rewrites(p, before, after) && g <= |p| && GapStart(p, g) <= a <= b <= GapEnd(p, |before|, g)
    requires b <= |before| && NoNewline(before, a, b)
    ensures 0 <= a + Shift(p, g) && b + Shift(p, g) <= |after| && NoNewline(after, a + Shift(p, g), b + Shift(p, g))
  {
    hide Shift, Rewrites;
    var d := Shift(p, g);
    GapBounds(p, before, after, g);
    forall x: nat | a + d <= x < b + d ensures after[x] != NEWLINE {
      GapByte(p, before, after, g, x - d);
      assert before[x - d] != NEWLINE;
    }
  }

  /** A moved match no window touches sat on a line no edit touched. */
  lemma {:induction false} LineUntouched(p: Patch, before: Text, after: Text, ls: nat, le: nat, o: Span, j: nat)
    requires Rewrites(p, before, after) && WellFormed(p) && IsLine(before, ls, le) && ls <= o.start < o.end <= le
    requires j <= |p| && (j > 0 ==> GapStart(p, j) < o.start) && (j < |p| ==> o.end < p[j].os)
    requires o.start + Shift(p, j) >= 0 && Untouched(p, after, Span(o.start + Shift(p, j), o.end + Shift(p, j)))
    ensures LineInGap(p, before, j, ls, le)
  {
    hide Shift, Rewrites, InLines, WellFormed, StartsLine, EndsLine;
    var s := Span(o.start + Shift(p, j), o.end + Shift(p, j));
    GapBounds(p, before, after, j);
    if j > 0 && GapStart(p, j) >= ls {
      EditInText(p, before, after, j - 1);
      LineQuiet(before, ls, le, o.start);
      GapQuiet(p, before, after, j, GapStart(p, j), o.start);
      WindowReachesRight(after, p[j - 1], s);
    }
    if j < |p| && p[j].os <= le {
      EditInText(p, before, after, j);
      LineQuiet(before, ls, le, o.end);
      GapQuiet(p, before, after, j, o.end, p[j].os);
      WindowReachesLeft(after, p[j], s);
    }
  }

  lemma {:induction false} RideIsMatch(p: Patch, before: Text, after: Text, m: LineMatcher, o: Span)
    requires Rewrites(p, before, after) && LineMatch(before, m, o) && WellFormed(p)
             && Untouched(p, after, RideSpan(p, o))
    ensures LineMatch(after, m, RideSpan(p, o))
  {
    hide Shift, Rewrites, InLines, WellFormed, RideSpan, MatchOn, LineInGap;
    var ls: nat, le: nat :| MatchOn(before, m, ls, le, o);
    MatchBounds(before, m, ls, le, o);
    var j := FirstReaching(p, o.start);
    if j < |p| && p[j].os <= o.end {
      MovedTouches(p, o, j);
      EditInText(p, before, after, j);
      WindowMeets(after, p[j], RideSpan(p, o));
    } else {
      MovedWithGap(p, o, j);
      LineUntouched(p, before, after, ls, le, o, j);
      GapLineMatch(p, before, after, m, j, ls, le, o);
    }
  }

  ghost predicate Meets(p: Patch, j: nat, a: nat, b: nat)
    requires j < |p|
  {
    p[j].ns <= b && p[j].ne >= a
  }

  /** A line no edit's new text touches lies inside one new gap. */
  lemma {:induction false} LineInNewGap(p: Patch, a: nat, b: nat, n: nat) returns (g: nat)
    requires n <= |p| && a <= b
    requires forall j | 0 <= j < |p| :: !Meets(p, j, a, b)
    requires forall j | n <= j < |p| :: b < p[j].ns
    ensures g <= |p| && (g > 0 ==> p[g - 1].ne < a) && (g < |p| ==> b < p[g].ns)
    decreases n
  {
    if n == 0 || p[n - 1].ne < a {
      g := n;
    } else {
      assert !Meets(p, n - 1, a, b);
      g := LineInNewGap(p, a, b, n - 1);
    }
  }

  lemma {:induction false} MeetsIsTouched(t: Text, m: LineMatcher, e: Edit, ls: nat, le: nat, s: Span)
    requires IsLine(t, ls, le) && ls <= s.start < s.end <= le && e.ns <= e.ne <= |t|
    requires e.ns <= le && e.ne >= ls
    ensures InLines(t, e, s)
  {
    if e.ns > s.end { LineIs(t, ls, le, e.ns); }
    if e.ne < s.start { LineIs(t, ls, le, e.ne); }
  }

  lemma {:induction false} NewLineGap(p: Patch, before: Text, after: Text, m: LineMatcher, ls: nat, le: nat, s: Span)
    returns (g: nat)
    requires Rewrites(p, before, after) && WellFormed(p) && MatchOn(after, m, ls, le, s) && Untouched(p, after, s)
    ensures g <= |p| && ls - Shift(p, g) >= 0 && le - Shift(p, g) >= 0
    ensures LineInGap(p, before, g, ls - Shift(p, g), le - Shift(p, g))
  {
    hide Shift, Rewrites, InLines, WellFormed, MatchOn, StartsLine, EndsLine, NoNewline;
    MatchBounds(after, m, ls, le, s);
    forall j | 0 <= j < |p| ensures !Meets(p, j, ls, le) {
      EditInText(p, before, after, j);
      if Meets(p, j, ls, le) { MeetsIsTouched(after, m, p[j], ls, le, s); }
    }
    g := LineInNewGap(p, ls, le, |p|);
    GapBounds(p, before, after, g);
  }

  lemma {:induction false} MatchIsRide(p: Patch, before: Text, after: Text, m: LineMatcher, s: Span)
    returns (o: Span, g: nat)
    requires Rewrites(p, before, after) && LineMatch(after, m, s) && WellFormed(p) && Untouched(p, after, s)
    ensures LineMatch(before, m, o) && RideSpan(p, o) == s
    ensures g <= |p| && GapStart(p, g) <= o.start < o.end <= GapEnd(p, |before|, g) && o.end <= |before|
    ensures s.start == o.start + Shift(p, g) && s.end == o.end + Shift(p, g)
  {
    hide Shift, Rewrites, Untouched, RideSpan, MatchOn;
    var ls: nat, le: nat :| MatchOn(after, m, ls, le, s);
    MatchBounds(after, m, ls, le, s);
    g := NewLineGap(p, before, after, m, ls, le, s);
    var d := Shift(p, g);
    GapBounds(p, before, after, g);
    o := Span(s.start - d, s.end - d);
    GapLineMatch(p, before, after, m, g, ls - d, le - d, o);
    GapReached(p, o.start, g);
    MovedWithGap(p, o, g);
  }

  lemma {:induction false} GapReached(p: Patch, x: nat, g: nat)
    requires WellFormed(p) && g <= |p| && (g > 0 ==> GapStart(p, g) < x) && (g < |p| ==> x <= p[g].os)
    ensures FirstReaching(p, x) == g
  {
    forall i | 0 <= i < g ensures p[i].oe < x { EditsAscend(p, i, g - 1); }
    FirstReachingIs(p, x, g);
  }

  /** From matches, the repair leaves nothing but matches. */
  lemma {:induction false} LinesSound(p: Patch, before: Text, after: Text, m: LineMatcher, scope: Span, f0: set<Span>,
                                      f: set<Span>, top: nat)
    requires Rewrites(p, before, after) && WellFormed(p) && forall s | s in f0 :: LineMatch(before, m, s)
    requires LinesRepairing(p, after, m, scope, |p|, RideSet(p, f0), f, top)
    ensures forall s | s in f :: LineMatch(after, m, s) && Within(s, scope)
  {
    hide Rewrites, WellFormed, RideSpan, LineMatch, Disjoint, InLines;
    forall s | s in f ensures LineMatch(after, m, s) && Within(s, scope) {
      assert Belongs(p, after, m, scope, |p|, RideSet(p, f0), s);
      if !Repaired(p, after, |p|, s) {
        var o :| o in f0 && s == RideSpan(p, o);
        RideIsMatch(p, before, after, m, o);
      }
    }
  }

  /** Every line's matches, restored: once each edit's lines are scanned again, the set is exactly the
      new text's matches in the ridden scope, as far as nothing was cut. */
  lemma {:induction false} LinesRestored(p: Patch, before: Text, after: Text, m: LineMatcher, was: Span, scope: Span,
                                         f0: set<Span>, f: set<Span>, top: nat)
    requires Rewrites(p, before, after) && WellFormed(p) && ScopeRides(p, |before|, was, scope)
    requires forall s :: s in f0 <==> LineMatch(before, m, s) && Within(s, was)
    requires LinesRepairing(p, after, m, scope, |p|, RideSet(p, f0), f, top)
    ensures forall s | s in f :: LineMatch(after, m, s) && Within(s, scope)
    ensures forall s | LineMatch(after, m, s) && Within(s, scope) && s.start < top :: s in f
    ensures top >= |after| ==> forall s :: s in f <==> LineMatch(after, m, s) && Within(s, scope)
  {
    hide Rewrites, WellFormed, RideSpan, LineMatch, Disjoint, InLines, ScopeRides;
    forall s | Within(s, scope)
      ensures Belongs(p, after, m, scope, |p|, RideSet(p, f0), s) <==> LineMatch(after, m, s)
    {
      if !Repaired(p, after, |p|, s) {
        UntouchedRides(p, before, after, m, was, scope, f0, s);
      }
    }
    forall s | LineMatch(after, m, s) ensures s.start < |after| { LineMatchSolid(after, m, s); }
  }

  lemma {:induction false} UntouchedRides(p: Patch, before: Text, after: Text, m: LineMatcher, was: Span, scope: Span,
                                          f0: set<Span>, s: Span)
    requires Rewrites(p, before, after) && WellFormed(p) && Untouched(p, after, s) && Within(s, scope)
    requires ScopeRides(p, |before|, was, scope)
    requires forall s :: s in f0 <==> LineMatch(before, m, s) && Within(s, was)
    ensures s in RideSet(p, f0) <==> LineMatch(after, m, s)
  {
    hide Rewrites, WellFormed, RideSpan, LineMatch, Untouched, ScopeRides, Shift;
    if s in RideSet(p, f0) {
      var o :| o in f0 && s == RideSpan(p, o);
      RideIsMatch(p, before, after, m, o);
    }
    if LineMatch(after, m, s) {
      var o, g := MatchIsRide(p, before, after, m, s);
      LineMatchSolid(after, m, s);
      ScopeHeld(p, before, was, scope, g, o.start, o.end);
      assert o in f0;
    }
  }
}
