/**
 What a literal query matches, read off the bytes: the needle itself, or with case ignored whatever
 differs from it in the case of ASCII letters only; and which of the places it reads at are listed.
 */
module FindCases {
  import opened Base
  import opened FindScans
  import opened FindScopes
  import opened FindCaps
  import opened FindMends
  import opened FindResults
  import opened FindModes

  /** The same byte, or the two cases of one ASCII letter. */
  predicate Agree(a: byte, b: byte) {
    a == b || (65 <= a <= 90 && b == a + 32) || (65 <= b <= 90 && a == b + 32)
  }

  predicate SameButCase(s: Text, u: Text) { |s| == |u| && forall j | 0 <= j < |s| :: Agree(s[j], u[j]) }

  /** The needle stands at `i`. */
  predicate ReadsAt(t: Text, q: Query, i: nat) {
    && i + |q.needle| <= |t|
    && var s := t[i..i + |q.needle|];
       if q.caseSensitive then s == q.needle else SameButCase(s, q.needle)
  }

  /** Every span is a place the needle stands at. */
  ghost predicate AllRead(t: Text, q: Query, within: Span, l: seq<Span>) {
    forall m | m in l ::
      within.start <= m.start && m.end == m.start + |q.needle| <= within.end && ReadsAt(t, q, m.start)
  }

  /** A place the needle stands at is covered by a span starting at it or before it. */
  ghost predicate AllCovered(t: Text, q: Query, within: Span, l: seq<Span>) {
    forall x | within.start <= x && x + |q.needle| <= within.end && ReadsAt(t, q, x) :: CoveredBy(l, x)
  }

  ghost predicate CoveredBy(l: seq<Span>, x: nat) { exists m :: m in l && m.start <= x < m.end }

  /** Places where the needle stands, in order and not overlapping, and none of those left out but what
      one starting earlier covers. */
  ghost predicate LeftmostFirst(t: Text, q: Query, within: Span, l: seq<Span>) {
    Apart(l) && AllRead(t, q, within, l) && AllCovered(t, q, within, l)
  }

  lemma {:induction false} AgreeIsFold(a: byte, b: byte)
    ensures Same(a, b, false) <==> Agree(a, b)
  {}

  lemma {:induction false} AgreeChains(a: byte, b: byte, c: byte)
    ensures Agree(a, b) <==> Agree(b, a)
    ensures Agree(a, b) ==> (Agree(a, c) <==> Agree(b, c))
  {}

  lemma {:induction false} CaseChains(s: Text, u: Text, w: Text)
    requires SameButCase(s, u)
    ensures SameButCase(u, s) && (SameButCase(s, w) <==> SameButCase(u, w))
  {
    hide Agree;
    forall j | 0 <= j < |s| ensures Agree(u[j], s[j]) { AgreeChains(s[j], u[j], s[j]); }
    if |s| == |w| {
      forall j | 0 <= j < |s| ensures Agree(s[j], w[j]) <==> Agree(u[j], w[j]) { AgreeChains(s[j], u[j], w[j]); }
    }
  }

  lemma {:induction false} HitReads(t: Text, q: Query, i: nat)
    ensures HitAt(t, q, i) <==> ReadsAt(t, q, i)
  {
    if i + |q.needle| <= |t| {
      var s := t[i..i + |q.needle|];
      assert |s| == |q.needle| && forall j | 0 <= j < |s| :: s[j] == t[i + j];
      if q.caseSensitive {
        if HitAt(t, q, i) { assert forall j | 0 <= j < |s| :: Same(t[i + j], q.needle[j], true); }
      } else {
        forall j | 0 <= j < |s| ensures Same(t[i + j], q.needle[j], false) <==> Agree(s[j], q.needle[j]) {
          AgreeIsFold(s[j], q.needle[j]);
        }
      }
    }
  }

  /** The scan lists the places the needle stands at, leftmost first. */
  lemma {:induction false} ScanIsLeftmost(t: Text, q: Query, from: nat, to: nat)
    requires q.needle != [] && to <= |t|
    ensures LeftmostFirst(t, q, Span(from, to), Greedy(t, q, from, to))
  {
    hide HitAt, Greedy, ReadsAt;
    var l := Greedy(t, q, from, to);
    GreedyApart(t, q, from, to);
    forall m | m in l
      ensures from <= m.start && m.end == m.start + |q.needle| <= to && ReadsAt(t, q, m.start)
    {
      GreedyHit(t, q, from, to, m);
      HitReads(t, q, m.start);
    }
    forall x: nat | from <= x && x + |q.needle| <= to && ReadsAt(t, q, x)
      ensures CoveredBy(l, x)
    {
      HitReads(t, q, x);
      var m := GreedyCovers(t, q, from, to, x);
    }
  }

  /** There is one such list. */
  lemma {:induction false} LeftmostIsScan(t: Text, q: Query, from: nat, to: nat, l: seq<Span>)
    requires q.needle != [] && to <= |t| && LeftmostFirst(t, q, Span(from, to), l)
    ensures l == Greedy(t, q, from, to)
    decreases SatSub(to, from)
  {
    hide HitAt, ReadsAt, LeftmostFirst;
    HitReads(t, q, from);
    if from + |q.needle| > to {
      NothingListed(t, q, from, to, l);
    } else if HitAt(t, q, from) {
      LeftmostHead(t, q, from, to, l);
      LeftmostIsScan(t, q, from + |q.needle|, to, l[1..]);
      assert l == [l[0]] + l[1..];
    } else {
      LeftmostSkips(t, q, from, to, l);
      LeftmostIsScan(t, q, from + 1, to, l);
    }
  }

  lemma {:induction false} NothingListed(t: Text, q: Query, from: nat, to: nat, l: seq<Span>)
    requires LeftmostFirst(t, q, Span(from, to), l) && from + |q.needle| > to
    ensures l == []
  {
    hide AllRead, AllCovered;
    if l != [] { FirstReads(t, q, from, to, l); }
  }

  lemma {:induction false} FirstReads(t: Text, q: Query, from: nat, to: nat, l: seq<Span>)
    requires AllRead(t, q, Span(from, to), l) && l != []
    ensures from <= l[0].start && l[0].end == l[0].start + |q.needle| <= to && ReadsAt(t, q, l[0].start)
  {
    hide ReadsAt;
    assert l[0] in l;
  }

  /** The needle stands where the stretch begins: that place is the first listed. */
  lemma {:induction false} LeftmostHead(t: Text, q: Query, from: nat, to: nat, l: seq<Span>)
    requires q.needle != [] && LeftmostFirst(t, q, Span(from, to), l) && from + |q.needle| <= to && ReadsAt(t, q, from)
    ensures l != [] && l[0] == HitSpan(q, from)
    ensures LeftmostFirst(t, q, Span(from + |q.needle|, to), l[1..])
  {
    assert CoveredBy(l, from);
    hide ReadsAt, AllCovered;
    var m :| m in l && m.start <= from < m.end;
    var i :| 0 <= i < |l| && l[i] == m;
    FirstReads(t, q, from, to, l);
    HeadFollows(l);
    ApartTail(l);
    TailCovers(t, q, from, to, l);
  }

  lemma {:induction false} HeadFollows(l: seq<Span>)
    requires Apart(l) && l != []
    ensures forall r | r in l[1..] :: r in l && l[0].end <= r.start
  {
    forall r | r in l[1..] ensures r in l && l[0].end <= r.start {
      var k :| 0 <= k < |l[1..]| && l[1..][k] == r;
      assert l[k + 1] == r && l[0].end <= l[k + 1].start;
    }
  }

  lemma {:induction false} ApartTail(l: seq<Span>)
    requires Apart(l) && l != []
    ensures Apart(l[1..])
  {
    forall j, k | 0 <= j < k < |l[1..]| ensures l[1..][j].end <= l[1..][k].start {
      assert l[j + 1].end <= l[k + 1].start;
    }
  }

  lemma {:induction false} TailCovers(t: Text, q: Query, from: nat, to: nat, l: seq<Span>)
    requires AllCovered(t, q, Span(from, to), l) && l != [] && l[0].end == from + |q.needle|
    ensures AllCovered(t, q, Span(from + |q.needle|, to), l[1..])
  {
    hide ReadsAt;
    forall x: nat | from + |q.needle| <= x && x + |q.needle| <= to && ReadsAt(t, q, x) ensures CoveredBy(l[1..], x) {
      assert CoveredBy(l, x);
      var r :| r in l && r.start <= x < r.end;
      var k :| 0 <= k < |l| && l[k] == r;
      assert k > 0 && l[1..][k - 1] == r;
    }
  }

  /** The needle does not stand where the stretch begins: nothing is lost by starting later. */
  lemma {:induction false} LeftmostSkips(t: Text, q: Query, from: nat, to: nat, l: seq<Span>)
    requires LeftmostFirst(t, q, Span(from, to), l) && !ReadsAt(t, q, from)
    ensures LeftmostFirst(t, q, Span(from + 1, to), l)
  {
    hide ReadsAt, CoveredBy;
  }

  // ----- a fresh scan -----

  /** A fresh scan of a literal query lists exactly the places the needle stands at, leftmost first. */
  lemma {:induction false} FreshIsLeftmost(q: Query, t: Text, within: Span, l: seq<Span>)
    requires q.needle != [] && within.end <= |t|
    ensures l == FreshScan(Some(Literal), Some(q), t, within) <==> LeftmostFirst(t, q, within, l)
  {
    hide Greedy, LeftmostFirst;
    ScanIsLeftmost(t, q, within.start, within.end);
    if LeftmostFirst(t, q, within, l) { LeftmostIsScan(t, q, within.start, within.end, l); }
  }

  /** With case ignored, texts that differ only in the case of ASCII letters have the same matches. */
  lemma {:induction false} CaselessTexts(q: Query, t: Text, u: Text, within: Span)
    requires !q.caseSensitive && SameButCase(t, u) && within.end <= |t|
    ensures FreshScan(Some(Literal), Some(q), t, within) == FreshScan(Some(Literal), Some(q), u, within)
  {
    if q.needle != [] {
      forall i: nat ensures ReadsAt(t, q, i) <==> ReadsAt(u, q, i) {
        if i + |q.needle| <= |t| {
          var s, w := t[i..i + |q.needle|], u[i..i + |q.needle|];
          forall j | 0 <= j < |s| ensures Agree(s[j], w[j]) { assert s[j] == t[i + j] && w[j] == u[i + j]; }
          CaseChains(s, w, q.needle);
        }
      }
      SameReads(q, t, q, u, within);
    }
  }

  /** So have needles that do. */
  lemma {:induction false} CaselessNeedles(q: Query, r: Query, t: Text, within: Span)
    requires !q.caseSensitive && !r.caseSensitive && SameButCase(q.needle, r.needle) && within.end <= |t|
    ensures FreshScan(Some(Literal), Some(q), t, within) == FreshScan(Some(Literal), Some(r), t, within)
  {
    if q.needle != [] {
      forall i: nat ensures ReadsAt(t, q, i) <==> ReadsAt(t, r, i) {
        if i + |q.needle| <= |t| {
          var s := t[i..i + |q.needle|];
          CaseChains(q.needle, r.needle, s);
          if SameButCase(s, q.needle) { CaseChains(s, q.needle, s); }
          if SameButCase(s, r.needle) { CaseChains(s, r.needle, s); }
          if SameButCase(q.needle, s) { CaseChains(q.needle, s, s); CaseChains(r.needle, s, s); }
        }
      }
      SameReads(q, t, r, t, within);
    }
  }

  lemma {:induction false} SameReads(q: Query, t: Text, r: Query, u: Text, within: Span)
    requires q.needle != [] && |q.needle| == |r.needle| && within.end <= |t| && within.end <= |u|
    requires forall i: nat :: ReadsAt(t, q, i) <==> ReadsAt(u, r, i)
    ensures FreshScan(Some(Literal), Some(q), t, within) == FreshScan(Some(Literal), Some(r), u, within)
  {
    hide ReadsAt, FreshScan;
    var l := FreshScan(Some(Literal), Some(q), t, within);
    FreshIsLeftmost(q, t, within, l);
    assert LeftmostFirst(u, r, within, l);
    FreshIsLeftmost(r, u, within, l);
  }

  /** What a search that starts anew on a literal query lists: the places the needle stands at, leftmost
      first, up to the cap. */
  lemma {:induction false} AnewReads(q: Query, scope: Option<Span>, t: Text, at: nat, l: seq<Span>)
    requires q.needle != [] && LeftmostFirst(t, q, Reach(scope, false, 0, |t|), l)
    ensures var m := Anew(Some(Literal), Some(q), scope, t, at);
            && m.found == (if |l| > FIND_MATCH_CAP then l[..FIND_MATCH_CAP] else l)
            && (m.capped <==> |l| > FIND_MATCH_CAP)
  {
    hide LeftmostFirst, FreshScan;
    FreshIsLeftmost(q, t, Reach(scope, false, 0, |t|), l);
  }
}
