/**
 The literal scan.  `Greedy` is the reference: leftmost-first, non-overlapping.  The windowed
 scan, which never holds more than one window of text, returns the same matches.
 */
module FindScans {
  import opened Base
  import opened TextBounds

  /** A literal query. */
  datatype Query = Query(needle: Text, caseSensitive: bool)

  function Lower(b: byte): byte { if 65 <= b <= 90 then b + 32 else b }

  function Upper(b: byte): byte { if 97 <= b <= 122 then b - 32 else b }

  /** Byte equality under the query's case rule, an ASCII-only fold. */
  predicate Same(a: byte, b: byte, caseSensitive: bool) {
    if caseSensitive then a == b else Lower(a) == Lower(b)
  }

  predicate HitAt(t: Text, q: Query, i: nat) {
    i + |q.needle| <= |t|
    && forall j | 0 <= j < |q.needle| :: Same(t[i + j], q.needle[j], q.caseSensitive)
  }

  function HitSpan(q: Query, i: nat): Span { Span(i, i + |q.needle|) }

  /** Leftmost-first non-overlapping matches inside `from..to`. */
  function Greedy(t: Text, q: Query, from: nat, to: nat): seq<Span>
    requires q.needle != [] && to <= |t|
    decreases SatSub(to, from)
  {
    if from + |q.needle| > to then []
    else if HitAt(t, q, from) then [HitSpan(q, from)] + Greedy(t, q, from + |q.needle|, to)
    else Greedy(t, q, from + 1, to)
  }

  /** All matches in a stretch of text; an empty needle has none. */
  function Matches(t: Text, q: Query, from: nat, to: nat): seq<Span>
    requires to <= |t|
  {
    if q.needle == [] then [] else Greedy(t, q, from, to)
  }

  /** A scan that stops at the cap: the first `cap` matches, and whether there were more. */
  predicate StoppedAt(all: seq<Span>, cap: nat, spans: seq<Span>, capped: bool) {
    if |all| > cap then spans == all[..cap] && capped else spans == all && !capped
  }

  // ----- facts about the greedy scan -----

  predicate NoHitIn(t: Text, q: Query, a: nat, b: nat, to: nat) {
    forall x | a <= x < b :: !(HitAt(t, q, x) && x + |q.needle| <= to)
  }

  lemma {:induction false} GreedySkip(t: Text, q: Query, a: nat, b: nat, to: nat)
    requires q.needle != [] && to <= |t| && a <= b && NoHitIn(t, q, a, b, to)
    ensures Greedy(t, q, a, to) == Greedy(t, q, b, to)
    decreases b - a
  {
    if a < b && a + |q.needle| <= to {
      GreedySkip(t, q, a + 1, b, to);
    }
  }

  predicate IsHitIn(t: Text, q: Query, from: nat, to: nat, m: Span) {
    from <= m.start && m.end <= to && HitAt(t, q, m.start) && m == HitSpan(q, m.start)
  }

  lemma {:induction false} GreedyHit(t: Text, q: Query, from: nat, to: nat, m: Span)
    requires q.needle != [] && to <= |t| && m in Greedy(t, q, from, to)
    ensures IsHitIn(t, q, from, to, m)
    decreases SatSub(to, from)
  {
    hide HitAt;
    if from + |q.needle| <= to {
      if !HitAt(t, q, from) {
        GreedyHit(t, q, from + 1, to, m);
      } else if m != HitSpan(q, from) {
        GreedyHit(t, q, from + |q.needle|, to, m);
      }
    }
  }

  ghost predicate Apart(g: seq<Span>) { forall i, j | 0 <= i < j < |g| :: g[i].end <= g[j].start }

  lemma {:induction false} ApartCons(m: Span, rest: seq<Span>)
    requires Apart(rest) && forall r | r in rest :: m.end <= r.start
    ensures Apart([m] + rest)
  {
    var g := [m] + rest;
    forall i, j | 0 <= i < j < |g| ensures g[i].end <= g[j].start {
      assert g[j] == rest[j - 1] && rest[j - 1] in rest;
    }
  }

  /** The matches are in order and do not overlap. */
  lemma {:induction false} GreedyApart(t: Text, q: Query, from: nat, to: nat)
    requires q.needle != [] && to <= |t|
    ensures Apart(Greedy(t, q, from, to))
    decreases SatSub(to, from)
  {
    hide HitAt;
    if from + |q.needle| > to {
    } else if HitAt(t, q, from) {
      var rest := Greedy(t, q, from + |q.needle|, to);
      GreedyApart(t, q, from + |q.needle|, to);
      forall r | r in rest ensures HitSpan(q, from).end <= r.start {
        GreedyHit(t, q, from + |q.needle|, to, r);
      }
      ApartCons(HitSpan(q, from), rest);
    } else {
      GreedyApart(t, q, from + 1, to);
    }
  }

  /** Leftmost-first: every hit in the stretch is covered by a match starting at or before it. */
  lemma {:induction false} GreedyCovers(t: Text, q: Query, from: nat, to: nat, x: nat) returns (m: Span)
    requires q.needle != [] && to <= |t| && from <= x && x + |q.needle| <= to && HitAt(t, q, x)
    ensures m in Greedy(t, q, from, to) && m.start <= x < m.end
    decreases SatSub(to, from)
  {
    if HitAt(t, q, from) {
      if x < from + |q.needle| {
        m := HitSpan(q, from);
      } else {
        m := GreedyCovers(t, q, from + |q.needle|, to, x);
      }
    } else {
      m := GreedyCovers(t, q, from + 1, to, x);
    }
  }

  /** A slice's matches are the stretch's, moved. */
  lemma {:induction false} HitInSlice(t: Text, q: Query, lo: nat, hi: nat, i: nat)
    requires lo <= hi <= |t|
    ensures HitAt(t[lo..hi], q, i) <==> lo + i + |q.needle| <= hi && HitAt(t, q, lo + i)
  {
    var s := t[lo..hi];
    if i + |q.needle| <= |s| {
      if HitAt(t, q, lo + i) {
        forall j | 0 <= j < |q.needle| ensures Same(s[i + j], q.needle[j], q.caseSensitive) {
          assert Same(t[lo + i + j], q.needle[j], q.caseSensitive);
        }
      }
      if HitAt(s, q, i) {
        forall j | 0 <= j < |q.needle| ensures Same(t[lo + i + j], q.needle[j], q.caseSensitive) {
          assert Same(s[i + j], q.needle[j], q.caseSensitive);
        }
      }
    }
  }

  function ShiftSpans(spans: seq<Span>, d: nat): (r: seq<Span>)
    ensures |r| == |spans| && forall i | 0 <= i < |r| :: r[i] == Span(spans[i].start + d, spans[i].end + d)
  {
    seq(|spans|, i requires 0 <= i < |spans| => Span(spans[i].start + d, spans[i].end + d))
  }

  lemma {:induction false} GreedyInSlice(t: Text, q: Query, lo: nat, hi: nat, from: nat)
    requires q.needle != [] && lo <= hi <= |t|
    ensures ShiftSpans(Greedy(t[lo..hi], q, from, hi - lo), lo) == Greedy(t, q, lo + from, hi)
    decreases SatSub(hi - lo, from)
  {
    hide HitAt;
    if from + |q.needle| <= hi - lo {
      HitInSlice(t, q, lo, hi, from);
      if HitAt(t[lo..hi], q, from) {
        GreedyInSlice(t, q, lo, hi, from + |q.needle|);
      } else {
        GreedyInSlice(t, q, lo, hi, from + 1);
      }
    }
  }

  /** A prefix of the window's matches is a prefix of the stretch's, the rest found by resuming at
      its end. */
  lemma {:induction false} GreedyPrefix(t: Text, q: Query, from: nat, win: nat, to: nat, n: nat)
    requires q.needle != [] && win <= to <= |t| && 0 < n <= |Greedy(t, q, from, win)|
    ensures var w := Greedy(t, q, from, win);
            Greedy(t, q, from, to) == w[..n] + Greedy(t, q, w[n - 1].end, to)
    decreases SatSub(win, from)
  {
    hide HitAt;
    var w := Greedy(t, q, from, win);
    if HitAt(t, q, from) {
      var rest := Greedy(t, q, from + |q.needle|, win);
      assert w == [HitSpan(q, from)] + rest;
      if n > 1 {
        GreedyPrefix(t, q, from + |q.needle|, win, to, n - 1);
        assert w[..n] == [HitSpan(q, from)] + rest[..n - 1];
      } else {
        assert w[..1] == [HitSpan(q, from)];
      }
    } else {
      GreedyPrefix(t, q, from + 1, win, to, n);
    }
  }

  lemma {:induction false} NoMatchNoHit(t: Text, q: Query, from: nat, to: nat)
    requires q.needle != [] && to <= |t| && Greedy(t, q, from, to) == []
    ensures NoHitIn(t, q, from, to + 1, to)
  {
    hide HitAt;
    forall x | from <= x < to + 1 ensures !(HitAt(t, q, x) && x + |q.needle| <= to) {
      if HitAt(t, q, x) && x + |q.needle| <= to {
        var m := GreedyCovers(t, q, from, to, x);
      }
    }
  }

  // ----- matches and character boundaries -----

  lemma {:induction false} SameClass(a: byte, b: byte, cs: bool)
    requires Same(a, b, cs)
    ensures Continuation(a) == Continuation(b) && CharLen(a) == CharLen(b)
  {}

  lemma {:induction false} AfterNeedle(t: Text, n: Text, cs: bool)
    requires WholeChars(t) && WholeChars(n) && |n| <= |t| && forall j | 0 <= j < |n| :: Same(t[j], n[j], cs)
    ensures WholeChars(t[|n|..])
    decreases |n|
  {
    if n == [] {
      assert t[0..] == t;
    } else {
      SameClass(t[0], n[0], cs);
      var c := CharLen(n[0]);
      forall j | 0 <= j < |n[c..]| ensures Same(t[c..][j], n[c..][j], cs) {
        assert Same(t[c + j], n[c + j], cs);
      }
      AfterNeedle(t[c..], n[c..], cs);
      assert t[c..][|n[c..]|..] == t[|n|..];
    }
  }

  /** A hit begins and ends on character boundaries. */
  lemma {:induction false} HitOnBoundaries(t: Text, q: Query, i: nat)
    requires WholeChars(q.needle) && q.needle != [] && HitAt(t, q, i)
    ensures Boundary(t, i)
    ensures WholeChars(t) ==> Boundary(t, i + |q.needle|)
  {
    var n := q.needle;
    SameClass(t[i + 0], n[0], q.caseSensitive);
    if WholeChars(t) {
      hide WholeChars, Boundary;
      HitStopsWhole(t, q, i);
    }
  }

  lemma {:induction false} HitStopsWhole(t: Text, q: Query, i: nat)
    requires WholeChars(t) && WholeChars(q.needle) && q.needle != [] && HitAt(t, q, i) && Boundary(t, i)
    ensures Boundary(t, i + |q.needle|)
  {
    hide WholeChars, Boundary;
    WholeFrom(t, i);
    HitHere(t, q, i);
    AfterNeedle(t[i..], q.needle, q.caseSensitive);
    WholeStarts(t, i + |q.needle|);
  }

  lemma {:induction false} HitHere(t: Text, q: Query, i: nat)
    requires HitAt(t, q, i)
    ensures |q.needle| <= |t[i..]| && t[i..][|q.needle|..] == t[i + |q.needle|..]
    ensures forall j | 0 <= j < |q.needle| :: Same(t[i..][j], q.needle[j], q.caseSensitive)
  {
    hide Same;
    forall j | 0 <= j < |q.needle| ensures Same(t[i..][j], q.needle[j], q.caseSensitive) {
      assert t[i..][j] == t[i + j];
    }
  }

  // ----- the literal scan of one text -----

  /** The next exact occurrence, the `memmem` probe. */
  method NextExact(hay: Text, q: Query, from: nat) returns (r: Option<nat>)
    requires q.needle != []
    ensures r.Some? ==> from <= r.value && HitAt(hay, q, r.value) && NoHitIn(hay, q, from, r.value, |hay|)
    ensures r.None? ==> NoHitIn(hay, q, from, |hay| + 1, |hay|)
  {
    hide HitAt;
    var i := from;
    while i + |q.needle| <= |hay|
      invariant i >= from && NoHitIn(hay, q, from, i, |hay|)
      decreases |hay| - i
    {
      if HitAt(hay, q, i) { return Some(i); }
      i := i + 1;
    }
    return None;
  }

  /** The next of two bytes, the `memchr2` probe. */
  method NextOf(a: byte, b: byte, hay: Text, from: nat) returns (r: Option<nat>)
    requires from <= |hay|
    ensures r.Some? ==> from <= r.value < |hay| && forall x | from <= x < r.value :: hay[x] != a && hay[x] != b
    ensures r.None? ==> forall x | from <= x < |hay| :: hay[x] != a && hay[x] != b
  {
    var i := from;
    while i < |hay|
      invariant from <= i <= |hay|
      invariant forall x | from <= x < i :: hay[x] != a && hay[x] != b
    {
      if hay[i] == a || hay[i] == b { return Some(i); }
      i := i + 1;
    }
    return None;
  }

  /** A folded hit begins with one of the first byte's two case forms. */
  lemma {:induction false} NoCandidateNoHit(hay: Text, q: Query, from: nat, to: nat)
    requires q.needle != [] && !q.caseSensitive && to <= |hay|
    requires forall x | from <= x < to :: hay[x] != Lower(q.needle[0]) && hay[x] != Upper(q.needle[0])
    ensures NoHitIn(hay, q, from, to, |hay|)
  {
    forall x | from <= x < to ensures !HitAt(hay, q, x) {
      if HitAt(hay, q, x) { FirstByte(hay, q, x); }
    }
  }

  lemma {:induction false} FirstByte(t: Text, q: Query, x: nat)
    requires q.needle != [] && HitAt(t, q, x)
    ensures Same(t[x], q.needle[0], q.caseSensitive)
  {
    assert Same(t[x + 0], q.needle[0], q.caseSensitive);
  }

  lemma {:induction false} GreedyStep(t: Text, q: Query, from: nat, at: nat)
    requires q.needle != [] && from <= at && NoHitIn(t, q, from, at, |t|) && HitAt(t, q, at)
    ensures at + |q.needle| <= |t|
    ensures Greedy(t, q, from, |t|) == [HitSpan(q, at)] + Greedy(t, q, at + |q.needle|, |t|)
  {
    GreedySkip(t, q, from, at, |t|);
  }

  lemma {:induction false} GreedyDone(t: Text, q: Query, from: nat)
    requires q.needle != [] && NoHitIn(t, q, from, |t| + 1, |t|)
    ensures Greedy(t, q, from, |t|) == []
  {
    if from <= |t| { GreedySkip(t, q, from, |t| + 1, |t|); }
  }

  /** The literal byte scan: exact through `memmem`, folded by probing the first byte's two case
      forms and verifying the rest. */
  method ScanLiteral(hay: Text, q: Query, cap: nat) returns (spans: seq<Span>, capped: bool)
    ensures StoppedAt(Matches(hay, q, 0, |hay|), cap, spans, capped)
  {
    if q.needle == [] { return [], false; }
    if q.caseSensitive {
      spans, capped := ScanExact(hay, q, cap);
    } else {
      spans, capped := ScanFolded(hay, q, cap);
    }
  }

  method ScanExact(hay: Text, q: Query, cap: nat) returns (spans: seq<Span>, capped: bool)
    requires q.needle != []
    ensures StoppedAt(Greedy(hay, q, 0, |hay|), cap, spans, capped)
  {
    hide HitAt, Greedy, NoHitIn;
    spans := [];
    var i: nat := 0;
    while true
      invariant |spans| <= cap && spans + Greedy(hay, q, i, |hay|) == Greedy(hay, q, 0, |hay|)
      decreases SatSub(|hay|, i) + 1
    {
      var next := NextExact(hay, q, i);
      if next == None {
        GreedyDone(hay, q, i);
        return spans, false;
      }
      GreedyStep(hay, q, i, next.value);
      if |spans| == cap { return spans, true; }
      spans := spans + [Span(next.value, next.value + |q.needle|)];
      i := next.value + |q.needle|;
    }
  }

  method ScanFolded(hay: Text, q: Query, cap: nat) returns (spans: seq<Span>, capped: bool)
    requires q.needle != [] && !q.caseSensitive
    ensures StoppedAt(Greedy(hay, q, 0, |hay|), cap, spans, capped)
  {
    hide HitAt, Greedy, NoHitIn;
    spans := [];
    var lo, up := Lower(q.needle[0]), Upper(q.needle[0]);
    var i: nat := 0;
    while i + |q.needle| <= |hay|
      invariant |spans| <= cap && spans + Greedy(hay, q, i, |hay|) == Greedy(hay, q, 0, |hay|)
      decreases SatSub(|hay|, i)
    {
      var next := NextOf(lo, up, hay, i);
      NoCandidateNoHit(hay, q, i, if next.Some? then next.value else |hay|);
      if next == None {
        NoHitPast(hay, q, i, |hay|);
        GreedyDone(hay, q, i);
        return spans, false;
      }
      var c := next.value;
      if c + |q.needle| > |hay| {
        NoHitPast(hay, q, i, c);
        GreedyDone(hay, q, i);
        return spans, false;
      }
      if HitAt(hay, q, c) {
        GreedyStep(hay, q, i, c);
        if |spans| == cap { return spans, true; }
        spans := spans + [Span(c, c + |q.needle|)];
        i := c + |q.needle|;
      } else {
        NoHitNext(hay, q, i, c);
        i := c + 1;
      }
    }
    GreedyShort(hay, q, i);
    capped := false;
  }

  lemma {:induction false} NoHitPast(t: Text, q: Query, from: nat, at: nat)
    requires q.needle != [] && at <= |t| < at + |q.needle| && NoHitIn(t, q, from, at, |t|)
    ensures NoHitIn(t, q, from, |t| + 1, |t|)
  {
    hide HitAt;
  }

  lemma {:induction false} NoHitNext(t: Text, q: Query, from: nat, at: nat)
    requires q.needle != [] && from <= at && NoHitIn(t, q, from, at, |t|) && !HitAt(t, q, at)
    ensures Greedy(t, q, from, |t|) == Greedy(t, q, at + 1, |t|)
  {
    hide HitAt, Greedy;
    GreedySkip(t, q, from, at + 1, |t|);
  }

  lemma {:induction false} GreedyShort(t: Text, q: Query, from: nat)
    requires q.needle != [] && from + |q.needle| > |t|
    ensures Greedy(t, q, from, |t|) == []
  {}

  // ----- the windowed scan -----

  /** Where the scan resumes after the window `pos..winEnd`: past the last match, or as far as no
      match can start, but always forward. */
  function ScanResume(t: Text, pos: nat, winEnd: nat, k: nat, lastEnd: Option<nat>): nat
    requires 0 < k <= winEnd
  {
    match lastEnd
    case Some(end) => end
    case None => Max(ClipLeft(t, winEnd - (k - 1)), ClipRight(t, pos + 1))
  }

  /** Read a stretch of text; both ends are character boundaries. */
  function Slice(t: Text, lo: nat, hi: nat): Text
    requires lo <= hi <= |t| && Boundary(t, lo) && Boundary(t, hi)
  {
    t[lo..hi]
  }

  lemma {:induction false} ClipRightStays(t: Text, off: nat, hi: nat)
    requires off <= hi <= |t| && Boundary(t, hi)
    ensures off <= ClipRight(t, off) <= hi
  {}

  /** A window without a match: nothing starts before the resume point. */
  lemma {:induction false} ResumeSkipsNothing(t: Text, q: Query, pos: nat, winEnd: nat, hi: nat)
    requires q.needle != [] && WholeChars(q.needle) && pos + |q.needle| <= winEnd <= hi <= |t|
    requires Greedy(t, q, pos, winEnd) == []
    ensures pos < ScanResume(t, pos, winEnd, |q.needle|, None) <= |t|
    ensures Greedy(t, q, pos, hi) == Greedy(t, q, ScanResume(t, pos, winEnd, |q.needle|, None), hi)
  {
    hide HitAt, Greedy, Boundary;
    NoMatchNoHit(t, q, pos, winEnd);
    var resume := ScanResume(t, pos, winEnd, |q.needle|, None);
    forall x | pos <= x < resume ensures !(HitAt(t, q, x) && x + |q.needle| <= hi) {
      if HitAt(t, q, x) { HitOnBoundaries(t, q, x); }
    }
    GreedySkip(t, q, pos, resume, hi);
  }

  /** Scan one window, in absolute offsets. */
  method ScanWindow(t: Text, q: Query, pos: nat, winEnd: nat, cap: nat) returns (local: seq<Span>, capped: bool)
    requires q.needle != [] && pos <= winEnd <= |t| && Boundary(t, pos) && Boundary(t, winEnd)
    ensures StoppedAt(Greedy(t, q, pos, winEnd), cap, local, capped)
  {
    hide HitAt, Greedy, Boundary;
    var found;
    found, capped := ScanLiteral(Slice(t, pos, winEnd), q, cap);
    GreedyInSlice(t, q, pos, winEnd, 0);
    local := ShiftSpans(found, pos);
  }

  /** Append a window's matches, stopping at the cap. */
  method PushAll(spans: seq<Span>, local: seq<Span>, cap: nat) returns (r: seq<Span>, full: bool)
    requires |spans| <= cap
    ensures full <==> |spans + local| > cap
    ensures r == if full then (spans + local)[..cap] else spans + local
  {
    r := spans;
    for i := 0 to |local|
      invariant r == spans + local[..i] && |r| <= cap
    {
      if |r| == cap { return r, true; }
      r := r + [local[i]];
    }
    full := false;
  }

  /** The bounds of a scan, snapped inward to character boundaries. */
  function ScanHi(t: Text, within: Span): (r: nat)
    ensures r <= |t| && Boundary(t, r)
  {
    ClipLeft(t, Min(within.end, |t|))
  }

  function ScanLo(t: Text, within: Span): (r: nat)
    ensures r <= ScanHi(t, within) && Boundary(t, r)
  {
    ClipRightStays(t, Min(within.start, ScanHi(t, within)), ScanHi(t, within));
    ClipRight(t, Min(within.start, ScanHi(t, within)))
  }

  /** The window's end snaps right, so a window is never empty and never splits a character. */
  function WindowEnd(t: Text, pos: nat, wide: nat, hi: nat): (r: nat)
    requires hi <= |t| && Boundary(t, hi)
    ensures Min(pos + wide, hi) <= r <= hi && Boundary(t, r)
  {
    ClipRightStays(t, Min(pos + wide, hi), hi);
    ClipRight(t, Min(pos + wide, hi))
  }

  /** Every match inside `within`, one window of text at a time.  The result is the whole-text
      greedy scan, matches and cap flag alike, unless the cap is zero and there is a match: then
      the windowed scan reports a complete, empty set. */
  method ScanBufferCapped(t: Text, q: Query, window: nat, cap: nat, within: Span)
    returns (spans: seq<Span>, capped: bool)
    requires WholeChars(t) && WholeChars(q.needle)
    ensures var all := Matches(t, q, ScanLo(t, within), ScanHi(t, within));
            StoppedAt(all, cap, spans, capped) <==> cap > 0 || all == []
  {
    hide WholeChars, ScanLo, ScanHi, Boundary, Greedy, SatSub, WindowEnd, Min, ScanResume;
    var hi, lo := ScanHi(t, within), ScanLo(t, within);
    spans, capped := [], false;
    if q.needle == [] {
      return;
    }
    var k := |q.needle|;
    ghost var all := Greedy(t, q, lo, hi);
    var wide := if window < k * 2 then k * 2 else window;
    var pos: nat := lo;
    while pos + k <= hi
      invariant Boundary(t, pos) && pos <= |t|
      invariant |spans| <= cap && !capped
      invariant cap > 0 ==> spans + Greedy(t, q, pos, hi) == all
      decreases |t| - pos
    {
      var winEnd := WindowEnd(t, pos, wide, hi);
      WindowHolds(t, pos, wide, k, hi);
      var local, localCapped := ScanWindow(t, q, pos, winEnd, cap);
      var full;
      ghost var was := spans;
      spans, full := PushAll(spans, local, cap);
      WindowStep(t, q, pos, winEnd, hi, cap, local, localCapped);
      ghost var rest := Greedy(t, q, NextPos(t, q, pos, winEnd, local), hi);
      Regroup(was, local, rest);
      if full {
        CapReached(all, was, local, rest, cap);
        return spans, true;
      }
      if winEnd == hi && !localCapped {
        StoppedAll(all, cap, spans);
        return;
      }
      var lastEnd := if local != [] then Some(spans[|spans| - 1].end) else None;
      assert local != [] ==> spans[|spans| - 1] == local[|local| - 1];
      pos := ScanResume(t, pos, winEnd, k, lastEnd);
    }
    GreedyPastEnd(t, q, pos, hi);
    StoppedAll(all, cap, spans);
  }

  /** No occurrence ends past `a` and by `b`: both ends scan alike. */
  lemma {:induction false} GreedyEndSnaps(t: Text, q: Query, from: nat, a: nat, b: nat)
    requires q.needle != [] && a <= b <= |t|
    requires forall x: nat | HitAt(t, q, x) && x + |q.needle| <= b :: x + |q.needle| <= a
    ensures Greedy(t, q, from, b) == Greedy(t, q, from, a)
    decreases SatSub(b, from)
  {
    hide HitAt;
    if from + |q.needle| <= b {
      if HitAt(t, q, from) {
        GreedyEndSnaps(t, q, from + |q.needle|, a, b);
      } else {
        GreedyEndSnaps(t, q, from + 1, a, b);
      }
    }
  }

  /** Snapping a scope's edges inward to character boundaries loses no occurrence. */
  lemma {:induction false} SnappedScan(t: Text, q: Query, within: Span)
    requires WholeChars(t) && WholeChars(q.needle) && q.needle != [] && within.start <= within.end <= |t|
    ensures Greedy(t, q, ScanLo(t, within), ScanHi(t, within)) == Greedy(t, q, within.start, within.end)
  {
    hide HitAt, Greedy, WholeChars, Boundary;
    var hi, lo := ScanHi(t, within), ScanLo(t, within);
    forall x: nat | HitAt(t, q, x) && x + |q.needle| <= within.end ensures x + |q.needle| <= hi {
      HitOnBoundaries(t, q, x);
    }
    GreedyEndSnaps(t, q, within.start, hi, within.end);
    if within.start <= hi {
      forall x | within.start <= x < lo ensures !(HitAt(t, q, x) && x + |q.needle| <= hi) {
        if HitAt(t, q, x) { HitOnBoundaries(t, q, x); }
      }
      GreedySkip(t, q, within.start, lo, hi);
    } else {
      GreedyPastEnd(t, q, within.start, hi);
      GreedyPastEnd(t, q, lo, hi);
    }
  }

  lemma {:induction false} WindowHolds(t: Text, pos: nat, wide: nat, k: nat, hi: nat)
    requires hi <= |t| && Boundary(t, hi) && pos + k <= hi && wide >= k
    ensures pos + k <= WindowEnd(t, pos, wide, hi)
  {
    hide Boundary;
  }

  function NextPos(t: Text, q: Query, pos: nat, winEnd: nat, local: seq<Span>): nat
    requires 0 < |q.needle| <= winEnd
  {
    ScanResume(t, pos, winEnd, |q.needle|, if local != [] then Some(local[|local| - 1].end) else None)
  }

  /** One window: its matches, then everything from the resume point, are everything from its
      start. */
  lemma {:induction false} WindowStep(t: Text, q: Query, pos: nat, winEnd: nat, hi: nat, cap: nat,
                                      local: seq<Span>, localCapped: bool)
    requires WholeChars(t) && WholeChars(q.needle) && q.needle != []
    requires pos + |q.needle| <= winEnd <= hi <= |t|
    requires StoppedAt(Greedy(t, q, pos, winEnd), cap, local, localCapped)
    ensures |local| <= cap && (winEnd == hi && !localCapped ==> local == Greedy(t, q, pos, hi))
    ensures var next := NextPos(t, q, pos, winEnd, local);
            && pos < next <= |t| && Boundary(t, next)
            && (cap > 0 ==> Greedy(t, q, pos, hi) == local + Greedy(t, q, next, hi))
  {
    hide HitAt, Greedy, Boundary, WholeChars, StoppedAt;
    var g := Greedy(t, q, pos, winEnd);
    StoppedFacts(g, cap, local, localCapped);
    if local == [] {
      ResumeAdvances(t, pos, winEnd, |q.needle|);
      if cap > 0 { ResumeSkipsNothing(t, q, pos, winEnd, hi); }
    } else {
      MatchesEnd(t, q, pos, winEnd, local);
      GreedyPrefix(t, q, pos, winEnd, hi, |local|);
    }
  }

  lemma {:induction false} GreedyPastEnd(t: Text, q: Query, pos: nat, hi: nat)
    requires q.needle != [] && hi <= |t| && pos + |q.needle| > hi
    ensures Greedy(t, q, pos, hi) == []
  {}

  lemma {:induction false} StoppedFacts(all: seq<Span>, cap: nat, spans: seq<Span>, capped: bool)
    requires StoppedAt(all, cap, spans, capped)
    ensures |spans| <= |all| && spans == all[..|spans|]
    ensures !capped ==> spans == all
    ensures cap > 0 && spans == [] ==> all == [] && !capped
    ensures |spans| <= cap
  {}

  lemma {:induction false} CapReached(all: seq<Span>, was: seq<Span>, local: seq<Span>, rest: seq<Span>, cap: nat)
    requires cap > 0 ==> was + (local + rest) == all
    requires cap > 0 && |was + local| > cap
    ensures StoppedAt(all, cap, (was + local)[..cap], true)
  {}

  /** Ending with everything and no cap flag. */
  lemma {:induction false} StoppedAll(all: seq<Span>, cap: nat, spans: seq<Span>)
    requires |spans| <= cap && (cap > 0 ==> spans == all)
    ensures StoppedAt(all, cap, spans, false) <==> cap > 0 || all == []
  {}

  lemma {:induction false} ResumeAdvances(t: Text, pos: nat, winEnd: nat, k: nat)
    requires 0 < k && pos + k <= winEnd <= |t|
    ensures pos < ScanResume(t, pos, winEnd, k, None) <= |t| && Boundary(t, ScanResume(t, pos, winEnd, k, None))
  {}

  lemma {:induction false} MatchesEnd(t: Text, q: Query, from: nat, to: nat, local: seq<Span>)
    requires q.needle != [] && to <= |t| && WholeChars(t) && WholeChars(q.needle)
    requires local != [] && |local| <= |Greedy(t, q, from, to)| && local == Greedy(t, q, from, to)[..|local|]
    ensures from < local[|local| - 1].end <= to && Boundary(t, local[|local| - 1].end)
  {
    hide HitAt, Greedy, Boundary;
    var m := local[|local| - 1];
    assert m == Greedy(t, q, from, to)[|local| - 1];
    GreedyHit(t, q, from, to, m);
    HitOnBoundaries(t, q, m.start);
  }
}
