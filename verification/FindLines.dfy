/**
 The line-scoped scan: the engine sees one line at a time, so no match crosses a newline, and the
 lines an edit touches are all its repair must scan again.
 */
module FindLines {
  import opened Base
  import opened TextBounds
  import opened TextRows
  import opened FindScans

  /** A compiled pattern: the spans it finds in one line, relative to the line. */
  type LineMatcher = Text -> seq<Span>

  /** The engine reports ordered, disjoint spans of the line, between its characters; some may be empty. */
  ghost predicate IsMatcher(m: LineMatcher) {
    forall line {:trigger m(line)} :: Apart(m(line)) && forall s | s in m(line) ::
      s.start <= s.end <= |line| && Boundary(line, s.start) && Boundary(line, s.end)
  }

  // ----- the matches of a text -----

  /** The non-empty spans, in order. */
  function Solid(spans: seq<Span>): seq<Span> {
    if spans == [] then [] else (if spans[0].start < spans[0].end then [spans[0]] else []) + Solid(spans[1..])
  }

  /** The line's matches, at their offsets in the text. */
  function LineSpans(t: Text, m: LineMatcher, ls: nat, le: nat): seq<Span>
    requires ls <= le <= |t|
  {
    ShiftSpans(Solid(m(t[ls..le])), ls)
  }

  /** The matches of every line from the one starting at `ls` to the one holding `stop`. */
  function LinesFrom(t: Text, m: LineMatcher, ls: nat, stop: nat): seq<Span>
    requires ls <= |t|
    decreases |t| - ls
  {
    var le := LineHi(t, ls);
    LineSpans(t, m, ls, le) + if le < stop && le < |t| then LinesFrom(t, m, le + 1, stop) else []
  }

  /** The reference: every match of every line. */
  function AllLines(t: Text, m: LineMatcher): seq<Span> { LinesFrom(t, m, 0, |t|) }

  ghost predicate MatchOn(t: Text, m: LineMatcher, ls: nat, le: nat, s: Span) {
    && IsLine(t, ls, le) && ls <= s.start < s.end <= le
    && Span(s.start - ls, s.end - ls) in m(t[ls..le])
  }

  ghost predicate LineMatch(t: Text, m: LineMatcher, s: Span) {
    exists ls: nat, le: nat :: MatchOn(t, m, ls, le, s)
  }

  lemma {:induction false} SolidMembers(spans: seq<Span>, s: Span)
    ensures s in Solid(spans) <==> s in spans && s.start < s.end
  {
    if spans != [] { SolidMembers(spans[1..], s); }
  }

  lemma {:induction false} SolidApart(spans: seq<Span>)
    requires Apart(spans)
    ensures Apart(Solid(spans))
  {
    if spans != [] {
      SolidApart(spans[1..]);
      var rest := Solid(spans[1..]);
      forall r | r in rest ensures spans[0].end <= r.start {
        SolidMembers(spans[1..], r);
        var k :| 0 <= k < |spans[1..]| && spans[1..][k] == r;
        assert spans[k + 1] == r;
      }
      if spans[0].start < spans[0].end { ApartCons(spans[0], rest); }
    }
  }

  lemma {:induction false} ShiftMembers(spans: seq<Span>, d: nat, s: Span)
    ensures s in ShiftSpans(spans, d) <==> s.start >= d && s.end >= d && Span(s.start - d, s.end - d) in spans
  {
    var w := ShiftSpans(spans, d);
    if s in w {
      var i :| 0 <= i < |w| && w[i] == s;
      assert spans[i] == Span(s.start - d, s.end - d);
    }
    if s.start >= d && s.end >= d && Span(s.start - d, s.end - d) in spans {
      var i :| 0 <= i < |spans| && spans[i] == Span(s.start - d, s.end - d);
      assert w[i] == s;
    }
  }

  lemma {:induction false} LineSpansMembers(t: Text, m: LineMatcher, ls: nat, le: nat, s: Span)
    requires IsMatcher(m) && IsLine(t, ls, le)
    ensures s in LineSpans(t, m, ls, le) <==> MatchOn(t, m, ls, le, s)
  {
    hide StartsLine, EndsLine, NoNewline, ShiftSpans, Solid, Apart;
    var line := m(t[ls..le]);
    ShiftMembers(Solid(line), ls, s);
    if s.start >= ls && s.end >= ls {
      SolidMembers(line, Span(s.start - ls, s.end - ls));
    }
  }

  /** A match on a line from the one starting at `ls` to the one holding `stop`. */
  ghost predicate InRun(t: Text, m: LineMatcher, ls: nat, stop: nat, s: Span) {
    exists a: nat, b: nat :: MatchOn(t, m, a, b, s) && ls <= a && (a == ls || a <= stop)
  }

  /** What a run of lines yields: exactly the matches on lines from the first to the one holding
      `stop`. */
  lemma {:induction false} LinesMembers(t: Text, m: LineMatcher, ls: nat, stop: nat, s: Span)
    requires IsMatcher(m) && ls <= |t| && StartsLine(t, ls)
    ensures s in LinesFrom(t, m, ls, stop) <==> InRun(t, m, ls, stop, s)
    decreases |t| - ls
  {
    hide *;
    var le := LineHi(t, ls);
    FirstLine(t, ls);
    LinesFromSplits(t, m, ls, stop, s);
    LineSpansMembers(t, m, ls, le, s);
    RunSplits(t, m, ls, le, stop, s);
    if le < stop && le < |t| { LinesMembers(t, m, le + 1, stop, s); }
  }

  lemma {:induction false} FirstLine(t: Text, ls: nat)
    requires ls <= |t| && StartsLine(t, ls)
    ensures IsLine(t, ls, LineHi(t, ls)) && (LineHi(t, ls) < |t| ==> StartsLine(t, LineHi(t, ls) + 1))
  {}

  lemma {:induction false} LinesFromSplits(t: Text, m: LineMatcher, ls: nat, stop: nat, s: Span)
    requires ls <= |t|
    ensures var le := LineHi(t, ls);
            s in LinesFrom(t, m, ls, stop) <==>
              s in LineSpans(t, m, ls, le) || (le < stop && le < |t| && s in LinesFrom(t, m, le + 1, stop))
  {
    hide LineSpans, LineHi;
  }

  lemma {:induction false} RunSplits(t: Text, m: LineMatcher, ls: nat, le: nat, stop: nat, s: Span)
    requires IsLine(t, ls, le)
    ensures InRun(t, m, ls, stop, s) <==>
              MatchOn(t, m, ls, le, s) || (le < stop && le < |t| && InRun(t, m, le + 1, stop, s))
  {
    if InRun(t, m, ls, stop, s) {
      var a: nat, b: nat :| MatchOn(t, m, a, b, s) && ls <= a && (a == ls || a <= stop);
      MatchOnLine(t, m, a, b, s);
      hide MatchOn, IsLine;
      SameOrLater(t, ls, le, a, b);
    }
  }

  lemma {:induction false} MatchOnLine(t: Text, m: LineMatcher, a: nat, b: nat, s: Span)
    requires MatchOn(t, m, a, b, s)
    ensures IsLine(t, a, b) && a <= b <= |t|
  {}

  lemma {:induction false} SameOrLater(t: Text, ls: nat, le: nat, a: nat, b: nat)
    requires IsLine(t, ls, le) && IsLine(t, a, b) && ls <= a
    ensures (a == ls && b == le) || le < a
  {
    if a <= le {
      LineIs(t, ls, le, a);
      LineIs(t, a, b, a);
    }
  }

  /** The reference list holds exactly the text's matches. */
  lemma {:induction false} AllLinesMembers(t: Text, m: LineMatcher, s: Span)
    requires IsMatcher(m)
    ensures s in AllLines(t, m) <==> LineMatch(t, m, s)
  {
    LinesMembers(t, m, 0, |t|, s);
    if ls: nat, le: nat :| MatchOn(t, m, ls, le, s) {
    }
  }

  lemma {:induction false} ApartConcat(x: seq<Span>, y: seq<Span>)
    requires Apart(x) && Apart(y) && forall r, s | r in x && s in y :: r.end <= s.start
    ensures Apart(x + y)
  {
    var w := x + y;
    forall i, j | 0 <= i < j < |w| ensures w[i].end <= w[j].start {
      if i < |x| <= j { assert x[i] in x && y[j - |x|] in y; }
    }
  }

  lemma {:induction false} LineSpansApart(t: Text, m: LineMatcher, ls: nat, le: nat)
    requires IsMatcher(m) && ls <= le <= |t|
    ensures Apart(LineSpans(t, m, ls, le))
  {
    assert Apart(m(t[ls..le]));
    SolidApart(m(t[ls..le]));
  }

  lemma {:induction false} MatchBounds(t: Text, m: LineMatcher, ls: nat, le: nat, s: Span)
    requires MatchOn(t, m, ls, le, s)
    ensures IsLine(t, ls, le) && ls <= s.start < s.end <= le
  {}

  lemma {:induction false} LinesApart(t: Text, m: LineMatcher, ls: nat, stop: nat)
    requires IsMatcher(m) && ls <= |t| && StartsLine(t, ls)
    ensures Apart(LinesFrom(t, m, ls, stop))
    decreases |t| - ls
  {
    hide LineSpans, Apart, MatchOn;
    var le := LineHi(t, ls);
    LineAround(t, ls);
    LineIs(t, LineLo(t, ls), le, ls);
    LineSpansApart(t, m, ls, le);
    var x := LineSpans(t, m, ls, le);
    if le < stop && le < |t| {
      LinesApart(t, m, le + 1, stop);
      var y := LinesFrom(t, m, le + 1, stop);
      forall r, s | r in x && s in y ensures r.end <= s.start {
        LineSpansMembers(t, m, ls, le, r);
        LinesMembers(t, m, le + 1, stop, s);
        var a: nat, b: nat :| MatchOn(t, m, a, b, s) && le + 1 <= a && (a == le + 1 || a <= stop);
        MatchBounds(t, m, ls, le, r);
        MatchBounds(t, m, a, b, s);
      }
      ApartConcat(x, y);
    } else {
      assert x + [] == x;
    }
  }

  // ----- the scan -----

  /** The spans a scope keeps. */
  function Inside(spans: seq<Span>, within: Span): seq<Span> {
    if spans == [] then []
    else (if within.start <= spans[0].start && spans[0].end <= within.end then [spans[0]] else [])
         + Inside(spans[1..], within)
  }

  lemma {:induction false} InsideConcat(x: seq<Span>, y: seq<Span>, within: Span)
    ensures Inside(x + y, within) == Inside(x, within) + Inside(y, within)
    decreases |x|
  {
    if x == [] {
      assert x + y == y;
    } else {
      assert (x + y)[1..] == x[1..] + y;
      InsideConcat(x[1..], y, within);
    }
  }

  lemma {:induction false} InsideMembers(spans: seq<Span>, within: Span, s: Span)
    ensures s in Inside(spans, within) <==> s in spans && within.start <= s.start && s.end <= within.end
  {
    if spans != [] { InsideMembers(spans[1..], within, s); }
  }

  lemma {:induction false} InsideApart(spans: seq<Span>, within: Span)
    requires Apart(spans)
    ensures Apart(Inside(spans, within))
  {
    if spans != [] {
      InsideApart(spans[1..], within);
      var rest := Inside(spans[1..], within);
      forall r | r in rest ensures spans[0].end <= r.start {
        InsideMembers(spans[1..], within, r);
        var k :| 0 <= k < |spans[1..]| && spans[1..][k] == r;
        assert spans[k + 1] == r;
      }
      ApartCons(spans[0], rest);
    }
  }

  /** What a line adds to a scoped scan. */
  function Adds(found: seq<Span>, base: nat, within: Span): seq<Span> {
    Inside(ShiftSpans(Solid(found), base), within)
  }

  lemma {:induction false} AddsSnoc(found: seq<Span>, s: Span, base: nat, within: Span)
    ensures Adds(found + [s], base, within) == Adds(found, base, within)
            + if s.start < s.end && within.start <= base + s.start && base + s.end <= within.end
              then [Span(base + s.start, base + s.end)] else []
  {
    hide Inside, Solid, ShiftSpans;
    SolidConcat(found, [s]);
    var x, y := Solid(found), Solid([s]);
    ShiftConcat(x, y, base);
    InsideConcat(ShiftSpans(x, base), ShiftSpans(y, base), within);
    AddsOne(s, base, within);
  }

  lemma {:induction false} ShiftConcat(x: seq<Span>, y: seq<Span>, base: nat)
    ensures ShiftSpans(x + y, base) == ShiftSpans(x, base) + ShiftSpans(y, base)
  {}

  lemma {:induction false} AddsOne(s: Span, base: nat, within: Span)
    ensures Adds([s], base, within)
            == if s.start < s.end && within.start <= base + s.start && base + s.end <= within.end
               then [Span(base + s.start, base + s.end)] else []
  {
    assert Solid([s][1..]) == [];
    if s.start < s.end {
      assert Solid([s]) == [s];
      var one := ShiftSpans([s], base);
      assert one == [Span(base + s.start, base + s.end)] && Inside(one[1..], within) == [];
    }
  }

  lemma {:induction false} SolidConcat(x: seq<Span>, y: seq<Span>)
    ensures Solid(x + y) == Solid(x) + Solid(y)
    decreases |x|
  {
    if x == [] {
      assert x + y == y;
    } else {
      assert (x + y)[1..] == x[1..] + y;
      SolidConcat(x[1..], y);
    }
  }

  /** Append one line's matches, stopping at the cap. */
  method PushLine(spans: seq<Span>, found: seq<Span>, base: nat, within: Span, cap: nat)
    returns (r: seq<Span>, full: bool)
    requires |spans| <= cap
    ensures full <==> |spans + Adds(found, base, within)| > cap
    ensures r == if full then (spans + Adds(found, base, within))[..cap] else spans + Adds(found, base, within)
  {
    hide Adds;
    AddsNothing(base, within);
    r := spans;
    for i := 0 to |found|
      invariant r == spans + Adds(found[..i], base, within) && |r| <= cap
    {
      var s := found[i];
      assert found[..i + 1] == found[..i] + [s];
      AddsSnoc(found[..i], s, base, within);
      if s.start >= s.end { continue; }
      var a, b := base + s.start, base + s.end;
      if a < within.start || b > within.end { continue; }
      if |r| == cap {
        AddsPrefix(found, i + 1, base, within);
        return r, true;
      }
      r := r + [Span(a, b)];
    }
    assert found[..|found|] == found;
    full := false;
  }

  lemma {:induction false} AddsNothing(base: nat, within: Span)
    ensures Adds([], base, within) == []
  {}

  lemma {:induction false} AddsPrefix(found: seq<Span>, i: nat, base: nat, within: Span)
    requires i <= |found|
    ensures Adds(found[..i], base, within) <= Adds(found, base, within)
  {
    hide Inside, Solid;
    SolidConcat(found[..i], found[i..]);
    assert found[..i] + found[i..] == found;
    var x, y := Solid(found[..i]), Solid(found[i..]);
    assert ShiftSpans(x + y, base) == ShiftSpans(x, base) + ShiftSpans(y, base);
    InsideConcat(ShiftSpans(x, base), ShiftSpans(y, base), within);
  }

  /** What the lines of a scope hold. */
  function Scoped(t: Text, m: LineMatcher, ls: nat, within: Span): seq<Span>
    requires ls <= |t|
  {
    Inside(LinesFrom(t, m, ls, within.end), within)
  }

  lemma {:induction false} ScopedStep(t: Text, m: LineMatcher, ls: nat, within: Span)
    requires ls <= |t|
    ensures var le := LineHi(t, ls);
            Scoped(t, m, ls, within) == Adds(m(t[ls..le]), ls, within)
                                        + if le < within.end && le < |t| then Scoped(t, m, le + 1, within) else []
  {
    hide Solid;
    var le := LineHi(t, ls);
    InsideConcat(LineSpans(t, m, ls, le), if le < within.end && le < |t| then LinesFrom(t, m, le + 1, within.end)
                 else [], within);
  }

  /** The next row starts after this row's newline; there is one exactly when the scope goes on. */
  lemma {:induction false} NextRow(t: Text, row: nat, end: nat)
    requires end <= |t| && RowOf(t, RowStart(t, row)) == row && RowStart(t, row) <= end
    ensures var le := LineHi(t, RowStart(t, row));
            && (row < RowOf(t, end) <==> le < end)
            && (le < end ==> RowStart(t, row + 1) == le + 1 && RowOf(t, le + 1) == row + 1)
  {
    hide LineHi;
    var base := RowStart(t, row);
    var le := LineHi(t, base);
    RowAcross(t, base, le);
    if le < end {
      assert t[le] == NEWLINE;
      RowMonotone(t, le + 1, end);
    } else {
      RowAcross(t, base, end);
    }
  }

  /** Every line's matches inside `within`, row by row. */
  method ScanBufferLines(t: Text, m: LineMatcher, cap: nat, within: Span) returns (spans: seq<Span>, capped: bool)
    requires within.start <= within.end <= |t| && IsMatcher(m)
    ensures StoppedAt(Scoped(t, m, LineLo(t, within.start), within), cap, spans, capped)
  {
    hide IsMatcher, Scoped, LineLo, StartsLine, NoNewline, RowOf, RowStart, LineHi, EndsLine, Adds;
    spans, capped := [], false;
    if within.start >= within.end {
      NothingScoped(t, m, LineLo(t, within.start), within);
      return;
    }
    ghost var all := Scoped(t, m, LineLo(t, within.start), within);
    var row, last := RowOf(t, within.start), RowOf(t, within.end);
    FirstRow(t, within.start);
    while true
      invariant RowStart(t, row) <= within.end && RowOf(t, RowStart(t, row)) == row
      invariant |spans| <= cap && spans + Scoped(t, m, RowStart(t, row), within) == all
      decreases |t| - RowStart(t, row)
    {
      var base := RowStart(t, row);
      var le := LineHi(t, base);
      var line := t[base..le];
      NextRow(t, row, within.end);
      ScopedStep(t, m, base, within);
      var full;
      ghost var was := spans;
      spans, full := PushLine(spans, m(line), base, within, cap);
      if full {
        ScopeFull(all, was, Adds(m(line), base, within),
                  if le < within.end && le < |t| then Scoped(t, m, le + 1, within) else [], cap);
        return spans, true;
      }
      if row >= last {
        return;
      }
      row := row + 1;
    }
  }

  lemma {:induction false} FirstRow(t: Text, x: nat)
    requires x <= |t|
    ensures RowStart(t, RowOf(t, x)) == LineLo(t, x) && RowOf(t, LineLo(t, x)) == RowOf(t, x)
  {
    hide LineLo;
    RowStartIsLineLo(t, x);
    RowAcross(t, LineLo(t, x), x);
  }

  lemma {:induction false} ScopeFull(all: seq<Span>, was: seq<Span>, added: seq<Span>, rest: seq<Span>, cap: nat)
    requires was + (added + rest) == all && |was + added| > cap
    ensures StoppedAt(all, cap, (was + added)[..cap], true)
  {}

  /** An empty scope holds nothing. */
  lemma {:induction false} NothingScoped(t: Text, m: LineMatcher, ls: nat, within: Span)
    requires ls <= |t| && StartsLine(t, ls) && IsMatcher(m) && within.start >= within.end
    ensures Scoped(t, m, ls, within) == []
  {
    hide LinesFrom, Inside, MatchOn;
    var r := Scoped(t, m, ls, within);
    if r != [] {
      assert r[0] in r;
      InsideMembers(LinesFrom(t, m, ls, within.end), within, r[0]);
      LinesMembers(t, m, ls, within.end, r[0]);
      var a: nat, b: nat :| MatchOn(t, m, a, b, r[0]) && ls <= a && (a == ls || a <= within.end);
      MatchBounds(t, m, a, b, r[0]);
    }
  }
}
