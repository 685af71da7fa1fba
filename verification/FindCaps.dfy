/**
 What a capped scan leaves out: when it stops, how far it is complete, and why a set complete that
 far still begins as the fresh scan does.
 */
module FindCaps {
  import opened Base
  import opened FindScans
  import opened FindSets
  import opened FindRepair
  import opened FindLines

  /** A scan stops after this many matches. */
  const FIND_MATCH_CAP: nat := 10000

  /** A list up to the cap. */
  function FirstMatches(l: seq<Span>): seq<Span> {
    if |l| > FIND_MATCH_CAP then l[..FIND_MATCH_CAP] else l
  }

  ghost predicate Solids(l: seq<Span>) { forall s | s in l :: s.start < s.end }

  /** More disjoint spans than the cap, a cap's worth of them starting before `top`. */
  ghost predicate Crowd(l: seq<Span>, top: nat) {
    Apart(l) && Solids(l) && |l| > FIND_MATCH_CAP && l[FIND_MATCH_CAP - 1].start < top
  }

  /** Nothing was cut before `top`, or nothing was promised, or the scope holds matches past the cap. */
  ghost predicate Crowded(t: Text, q: Query, scope: Span, top: nat) {
    top >= |t| || top == 0 || exists l: seq<Span> :: Crowd(l, top) && forall s | s in l ::
      TrueMatch(t, q, s) && Within(s, scope)
  }

  ghost predicate LinesCrowded(t: Text, m: LineMatcher, scope: Span, top: nat) {
    top >= |t| || top == 0 || exists l: seq<Span> :: Crowd(l, top) && forall s | s in l ::
      LineMatch(t, m, s) && Within(s, scope)
  }

  /** Something was promised. */
  predicate Promised(t: Text, top: nat) { top >= |t| || top > 0 }

  // ----- lists of disjoint spans -----

  lemma {:induction false} ApartPrefix(g: seq<Span>, n: nat)
    requires Apart(g) && n <= |g|
    ensures Apart(g[..n])
  {}

  lemma {:induction false} SubsetCard(a: set<Span>, b: set<Span>)
    requires a <= b
    ensures |a| <= |b|
  {
    var c := b - a;
    assert b == a + c && a !! c;
  }

  lemma {:induction false} ApartCard(l: seq<Span>)
    requires Apart(l) && Solids(l)
    ensures |SpanSet(l)| == |l|
    decreases |l|
  {
    if l != [] {
      var rest := l[1..];
      ApartRest(l);
      hide Apart;
      ApartCard(rest);
      SpanSetCons(l);
      hide SpanSet;
      assert l[0] in l;
    }
  }

  lemma {:induction false} ApartRest(l: seq<Span>)
    requires Apart(l) && l != []
    ensures Apart(l[1..]) && forall s | s in l[1..] :: s in l && l[0].end <= s.start
    ensures forall s | s in l :: s == l[0] || s in l[1..]
  {
    var rest := l[1..];
    forall s | s in rest ensures s in l && l[0].end <= s.start {
      var k :| 0 <= k < |rest| && rest[k] == s;
      assert l[k + 1] == s;
    }
    assert l == [l[0]] + rest;
  }

  lemma {:induction false} SpanSetCons(l: seq<Span>)
    requires l != []
    ensures SpanSet(l) == {l[0]} + SpanSet(l[1..])
    ensures l[0] in SpanSet(l[1..]) <==> l[0] in l[1..]
  {
    assert l == [l[0]] + l[1..];
  }

  /** Up to the `n`-th span lie exactly the first `n`. */
  lemma {:induction false} PrefixByLast(l: seq<Span>, n: nat, s: Span)
    requires Apart(l) && Solids(l) && 0 < n <= |l| && s in l
    ensures s.start <= l[n - 1].start <==> s in l[..n]
  {
    var i :| 0 <= i < |l| && l[i] == s;
    assert l[n - 1] in l && (i < n ==> l[..n][i] == s);
    if s in l[..n] {
      var j :| 0 <= j < n && l[..n][j] == s;
      if j < n - 1 { assert l[j].end <= l[n - 1].start; }
    } else {
      assert l[n - 1].end <= l[i].start;
    }
  }

  /** A sublist never runs ahead of the list. */
  lemma {:induction false} Ahead(l: seq<Span>, g: seq<Span>)
    requires Apart(l) && Apart(g) && Solids(l) && Solids(g) && forall s | s in l :: s in g
    ensures |l| <= |g| && forall i | 0 <= i < |l| :: g[i].start <= l[i].start
    decreases |g|
  {
    if l != [] {
      assert l[0] in l;
      ApartRest(l);
      ApartRest(g);
      if l[0] == g[0] {
        forall s | s in l[1..] ensures s in g[1..] { assert s in l && s != g[0]; }
        Ahead(l[1..], g[1..]);
        forall i | 0 <= i < |l| ensures g[i].start <= l[i].start {
          if i > 0 { assert g[1..][i - 1].start <= l[1..][i - 1].start; }
        }
      } else {
        forall s | s in l ensures s in g[1..] { AheadOfHead(l, g, s); }
        Ahead(l, g[1..]);
        forall i | 0 <= i < |l| ensures g[i].start <= l[i].start { GapOrStep(l, g, i); }
      }
    }
  }

  lemma {:induction false} AheadOfHead(l: seq<Span>, g: seq<Span>, s: Span)
    requires Apart(l) && Apart(g) && Solids(l) && Solids(g) && l != [] && g != [] && l[0] in g && l[0] != g[0]
    requires s in l && s in g
    ensures s in g[1..]
  {
    ApartRest(l);
    ApartRest(g);
    assert l[0] in l && l[0] in g[1..];
  }

  lemma {:induction false} GapOrStep(l: seq<Span>, g: seq<Span>, i: nat)
    requires Apart(g) && Solids(g) && i < |l| < |g| && g[1..][i].start <= l[i].start
    ensures g[i].start <= l[i].start
  {
    assert g[i] in g && g[i].end <= g[i + 1].start;
  }

  /** A sublist holding every span that starts before `top` begins as the list does. */
  lemma {:induction false} PrefixAgrees(f: seq<Span>, g: seq<Span>, top: nat, n: nat)
    requires Apart(f) && Apart(g) && Solids(f) && Solids(g) && forall s | s in f :: s in g
    requires forall s | s in g && s.start < top :: s in f
    requires n <= |g| && (n > 0 ==> g[n - 1].start < top)
    ensures n <= |f| && f[..n] == g[..n]
    decreases n
  {
    if n > 0 {
      assert g[0] in g;
      if n > 1 { assert g[0].end <= g[n - 1].start; }
      HeadsAgree(f, g);
      TailsAgree(f, g, top);
      hide Apart, Solids;
      PrefixAgrees(f[1..], g[1..], top, n - 1);
      TakeCons(f, n);
      TakeCons(g, n);
    }
  }

  lemma {:induction false} TakeCons(l: seq<Span>, n: nat)
    requires 0 < n && n - 1 <= |l| - 1
    ensures l[..n] == [l[0]] + l[1..][..n - 1]
  {}

  lemma {:induction false} TailsAgree(f: seq<Span>, g: seq<Span>, top: nat)
    requires Apart(f) && Apart(g) && Solids(f) && Solids(g)
             && (forall s | s in f :: s in g) && f != [] && g != [] && f[0] == g[0]
    requires forall s | s in g && s.start < top :: s in f
    ensures Apart(f[1..]) && Apart(g[1..]) && Solids(f[1..]) && Solids(g[1..]) && forall s | s in f[1..] :: s in g[1..]
    ensures forall s | s in g[1..] && s.start < top :: s in f[1..]
  {
    ApartRest(f);
    ApartRest(g);
    hide Apart;
    assert f[0] in f;
    forall s | s in f[1..] ensures s in g[1..] { assert s in f && s != g[0]; }
    forall s | s in g[1..] && s.start < top ensures s in f[1..] { assert s in g && s != f[0]; }
  }

  lemma {:induction false} HeadsAgree(f: seq<Span>, g: seq<Span>)
    requires Apart(f) && Apart(g) && Solids(f) && Solids(g) && (forall s | s in f :: s in g) && g != [] && g[0] in f
    ensures f != [] && f[0] == g[0]
  {
    assert f[0] in f && f[0] in g;
    ApartRest(f);
    ApartRest(g);
  }

  /** A set complete as far as it was cut with reason begins with the fresh scan's first matches, up
      to the cap, and past the cap holds at least a cap's worth. */
  lemma {:induction false} BeginsFresh(f: seq<Span>, g: seq<Span>, top: nat)
    requires Apart(f) && Apart(g) && Solids(f) && Solids(g) && forall s | s in f :: s in g
    requires forall s | s in g && s.start < top :: s in f
    requires (forall s | s in g :: s.start < top) || exists l :: Crowd(l, top) && forall s | s in l :: s in g
    ensures |f| <= |g|
    ensures (forall s | s in g :: s.start < top) ==> f == g
    ensures |g| <= FIND_MATCH_CAP ==> f == g
    ensures |g| > FIND_MATCH_CAP ==> |f| >= FIND_MATCH_CAP && f[..FIND_MATCH_CAP] == g[..FIND_MATCH_CAP]
  {
    hide Apart, FIND_MATCH_CAP, Solids, Crowd;
    Ahead(f, g);
    if forall s | s in g :: s.start < top {
      WholeAgrees(f, g, top);
    } else {
      var l :| Crowd(l, top) && forall s | s in l :: s in g;
      CrowdAhead(l, g, top);
      PrefixAgrees(f, g, top, FIND_MATCH_CAP);
    }
  }

  lemma {:induction false} CrowdAhead(l: seq<Span>, g: seq<Span>, top: nat)
    requires Crowd(l, top) && Apart(g) && Solids(g) && forall s | s in l :: s in g
    ensures |g| > FIND_MATCH_CAP && g[FIND_MATCH_CAP - 1].start < top
  {
    hide Apart, Solids;
    Ahead(l, g);
  }

  lemma {:induction false} WholeAgrees(f: seq<Span>, g: seq<Span>, top: nat)
    requires Apart(f) && Apart(g) && Solids(f) && Solids(g) && |f| <= |g| && forall s | s in f :: s in g
    requires (forall s | s in g && s.start < top :: s in f) && forall s | s in g :: s.start < top
    ensures f == g
  {
    hide Apart, Solids;
    if g != [] { assert g[|g| - 1] in g; }
    PrefixAgrees(f, g, top, |g|);
    assert f[..|g|] == f && g[..|g|] == g;
  }
}
