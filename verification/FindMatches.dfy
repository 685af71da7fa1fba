/**
 The match set read as a list: the finds in document order are disjoint spans, and a set of
 disjoint spans has one such list.
 */
module FindMatches {
  import opened Base
  import opened DecorationItems
  import opened DecorationQueries
  import opened FindScans
  import opened FindSets
  import opened FindRepair
  import opened FindLines
  import opened FindLineRepair
  import opened FindCaps
  import opened FindMends

  function Spans(rs: seq<Tracked>): (r: seq<Span>)
    ensures |r| == |rs| && forall i | 0 <= i < |r| :: r[i] == SpanOf(rs[i])
  {
    seq(|rs|, i requires 0 <= i < |rs| => SpanOf(rs[i]))
  }

  /** The matches, in document order. */
  function Found(v: seq<Tracked>): seq<Span> { Spans(Finds(v)) }

  lemma {:induction false} FindsMembers(v: seq<Tracked>, r: Tracked)
    ensures r in Finds(v) <==> r in v && IsFind(r)
  {
    SelectMembers(v, IsFind, r);
  }

  lemma {:induction false} FoundApart(v: seq<Tracked>)
    requires Ordered(v) && FindsWell(v)
    ensures Apart(Found(v)) && SpanSet(Found(v)) == FindSet(v) && forall s | s in Found(v) :: s.start < s.end
  {
    hide Finds;
    var fs, l := Finds(v), Found(v);
    FindsOrdered(v);
    forall i, j | 0 <= i < j < |l| ensures l[i].end <= l[j].start {
      FindsMembers(v, fs[i]);
      FindsMembers(v, fs[j]);
      assert Before(fs[i], fs[j]);
      FindPair(v, fs[i], fs[j]);
    }
    forall s ensures s in SpanSet(l) <==> s in FindSet(v) {
      FoundMember(v, s);
    }
  }

  lemma {:induction false} FindPair(v: seq<Tracked>, r: Tracked, s: Tracked)
    requires FindsWell(v) && r in v && s in v && IsFind(r) && IsFind(s) && Before(r, s)
    ensures r.end <= s.start
  {
    SpanInFindSet(v, r);
    SpanInFindSet(v, s);
    assert SpanOf(r) != SpanOf(s);
  }

  lemma {:induction false} FoundMember(v: seq<Tracked>, s: Span)
    ensures s in Found(v) <==> s in FindSet(v)
  {
    hide Finds;
    var fs, l := Finds(v), Found(v);
    if s in l {
      var i :| 0 <= i < |l| && l[i] == s;
      FindsMembers(v, fs[i]);
      SpanInFindSet(v, fs[i]);
    }
    if s in FindSet(v) {
      var r := InFindSet(v, s);
      FindsMembers(v, r);
      var i :| 0 <= i < |fs| && fs[i] == r;
      assert l[i] == s;
    }
  }

  lemma {:induction false} ApartLeast(l: seq<Span>, s: Span)
    requires Apart(l) && s in l && forall r | r in l :: r.start < r.end
    ensures l[0].start <= s.start && (l[0].start == s.start ==> s == l[0])
  {
    var i :| 0 <= i < |l| && l[i] == s;
    assert l[0] in l;
    if i > 0 { assert l[0].end <= l[i].start; }
  }

  lemma {:induction false} SomeSpan(l: seq<Span>)
    requires l != []
    ensures l[0] in SpanSet(l)
  {}

  /** One list for one set. */
  lemma {:induction false} ApartUnique(a: seq<Span>, b: seq<Span>)
    requires Apart(a) && Apart(b) && SpanSet(a) == SpanSet(b) && forall s | s in a :: s.start < s.end
    ensures a == b
    decreases |a|
  {
    InSpanSet(a);
    InSpanSet(b);
    if a == [] {
      if b != [] { SomeSpan(b); }
    } else {
      assert a[0] in a && a[0] in b;
      ApartLeast(b, a[0]);
      assert b[0] in b;
      ApartLeast(a, b[0]);
      ApartTail(a);
      ApartTail(b);
      ApartUnique(a[1..], b[1..]);
    }
  }

  lemma {:induction false} ApartTail(l: seq<Span>)
    requires l != [] && Apart(l) && forall s | s in l :: s.start < s.end
    ensures Apart(l[1..]) && SpanSet(l[1..]) == SpanSet(l) - {l[0]}
    ensures forall s | s in l[1..] :: s.start < s.end
  {
    ApartRest(l);
    hide Apart;
    var rest := l[1..];
    assert l[0] in l;
    forall s | s in SpanSet(rest) ensures s in SpanSet(l) - {l[0]} { assert s in rest; }
    forall s | s in SpanSet(l) - {l[0]} ensures s in SpanSet(rest) { assert s in l; }
  }

  // ----- a set as a list -----

  /** A set of spans in order. */
  ghost function Listed(f: set<Span>): (l: seq<Span>)
    ensures |l| == |f| && forall s :: s in l <==> s in f
  {
    if f == {} then []
    else
      FirstExists(f);
      var s :| s in f && forall r | r in f :: s.start <= r.start;
      [s] + Listed(f - {s})
  }

  lemma {:induction false} FirstExists(f: set<Span>)
    requires f != {}
    ensures exists s :: s in f && forall r | r in f :: s.start <= r.start
    decreases |f|
  {
    var a :| a in f;
    var rest := f - {a};
    if rest == {} {
      assert forall r | r in f :: r == a || r in rest;
    } else {
      FirstExists(rest);
      var b :| b in rest && forall r | r in rest :: b.start <= r.start;
      var s := if a.start <= b.start then a else b;
      assert forall r | r in f :: r == a || r in rest;
      assert s in f && forall r | r in f :: s.start <= r.start;
    }
  }

  /** Disjoint spans in order lie apart. */
  lemma {:induction false} ListedApart(f: set<Span>)
    requires Disjoint(f)
    ensures Apart(Listed(f)) && SpanSet(Listed(f)) == f && forall s | s in Listed(f) :: s.start < s.end
    decreases |f|
  {
    if f != {} {
      FirstExists(f);
      var l := Listed(f);
      var rest := f - {l[0]};
      ListedHead(f);
      SubsetDisjoint(rest, f);
      ListedApart(rest);
      forall r | r in Listed(rest) ensures l[0].end <= r.start {
        assert r in rest && !Overlap(l[0], r);
      }
      ApartCons(l[0], Listed(rest));
    }
  }

  lemma {:induction false} ListedHead(f: set<Span>)
    requires f != {}
    ensures var l := Listed(f); l[0] in f && l == [l[0]] + Listed(f - {l[0]}) && forall r | r in f ::
            l[0].start <= r.start
  {
    FirstExists(f);
  }

  /** A list of disjoint spans is its set's. */
  lemma {:induction false} ListedIs(l: seq<Span>)
    requires Apart(l) && forall s | s in l :: s.start < s.end
    ensures Listed(SpanSet(l)) == l && Disjoint(SpanSet(l))
  {
    hide Apart, Disjoint;
    ApartIsDisjoint(l);
    ListedApart(SpanSet(l));
    ApartUnique(l, Listed(SpanSet(l)));
  }

  /** True matches of the scope fit wherever its fresh scan does. */
  lemma {:induction false} MatchesFit(t: Text, q: Query, scope: Span, l: seq<Span>)
    requires q.needle != [] && scope.end <= |t| && Apart(l)
    requires forall s | s in l :: TrueMatch(t, q, s) && Within(s, scope)
    ensures |l| <= |Greedy(t, q, scope.start, scope.end)|
  {
    hide HitAt, Greedy, Apart;
    forall s | s in l ensures IsHitIn(t, q, scope.start, scope.end, s) {
      assert TrueMatch(t, q, s) && Within(s, scope);
    }
    GreedyIsLongest(t, q, scope.start, scope.end, l);
  }

  /** For a needle that cannot overlap itself, the list is the scope's fresh scan. */
  lemma {:induction false} MaximalIsFreshList(t: Text, q: Query, scope: Span, l: seq<Span>)
    requires q.needle != [] && NeverSelfOverlaps(q) && scope.end <= |t|
    requires Apart(l) && (forall s | s in l :: s.start < s.end) && MaximalMatches(t, q, scope, SpanSet(l))
    ensures l == Greedy(t, q, scope.start, scope.end)
  {
    hide *;
    MaximalIsFresh(t, q, scope, SpanSet(l));
    GreedyApart(t, q, scope.start, scope.end);
    ApartUnique(l, Greedy(t, q, scope.start, scope.end));
  }

  lemma {:induction false} AllLinesApart(t: Text, m: LineMatcher)
    requires IsMatcher(m)
    ensures Apart(AllLines(t, m))
  {
    LinesApart(t, m, 0, |t|);
  }

  /** The reference list of a scope holds exactly its line matches, in order. */
  lemma {:induction false} InsideLines(t: Text, m: LineMatcher, scope: Span)
    requires IsMatcher(m)
    ensures Apart(Inside(AllLines(t, m), scope))
    ensures forall s :: s in Inside(AllLines(t, m), scope) <==> LineMatch(t, m, s) && Within(s, scope)
  {
    hide LineMatch, AllLines, Apart, Inside;
    AllLinesApart(t, m);
    InsideApart(AllLines(t, m), scope);
    forall s ensures s in Inside(AllLines(t, m), scope) <==> LineMatch(t, m, s) && Within(s, scope) {
      InsideMembers(AllLines(t, m), scope, s);
      AllLinesMembers(t, m, s);
    }
  }

  /** Exactly every line match of the scope, in order. */
  lemma {:induction false} LinesAreFreshList(t: Text, m: LineMatcher, scope: Span, l: seq<Span>)
    requires IsMatcher(m) && Apart(l) && forall s | s in l :: s.start < s.end
    requires forall s :: s in SpanSet(l) <==> LineMatch(t, m, s) && Within(s, scope)
    ensures l == Inside(AllLines(t, m), scope)
  {
    hide LineMatch, AllLines, Apart, Inside;
    var g := Inside(AllLines(t, m), scope);
    InsideLines(t, m, scope);
    InSpanSet(g);
    ApartUnique(l, g);
  }

  lemma {:induction false} FoundLength(v: seq<Tracked>)
    ensures |Found(v)| == |Finds(v)|
  {}

  lemma {:induction false} FoundAt(v: seq<Tracked>, i: nat)
    ensures i < |Finds(v)| ==> |Found(v)| == |Finds(v)| && Found(v)[i] == Span(Finds(v)[i].start, Finds(v)[i].end)
  {}
}
