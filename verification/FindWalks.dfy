/**
 Navigation: what walking the list of matches picks, and the ordinal queries that pick the same.
 */
module FindWalks {
  import opened Base
  import opened DecorationItems
  import opened DecorationQueries
  import opened FindScans
  import opened FindMatches
  import SumTrees

  /** The first match starting at or after an offset, or the length of the list. */
  function FirstFrom(l: seq<Span>, off: nat): (i: nat)
    ensures i <= |l|
  {
    if l == [] || l[0].start >= off then 0 else 1 + FirstFrom(l[1..], off)
  }

  /** The place of a span in the list. */
  function PlaceOf(l: seq<Span>, s: Span): Option<nat> {
    if l == [] then None
    else if l[0] == s then Some(0)
    else match PlaceOf(l[1..], s) case None => None case Some(i) => Some(i + 1)
  }

  /** The last match starting before an offset. */
  function LastBefore(l: seq<Span>, off: nat): Option<nat> {
    if l == [] then None
    else if l[|l| - 1].start < off then Some(|l| - 1)
    else LastBefore(l[..|l| - 1], off)
  }

  /** Walking the whole list: from a selected match to its neighbour, otherwise from the caret to
      the next match or the one before it, wrapping at both ends. */
  function Walk(l: seq<Span>, head: nat, selection: Span, forward: bool): (i: nat)
    requires l != []
    ensures i < |l|
  {
    PlaceBound(l, selection);
    LastBound(l, head);
    match PlaceOf(l, selection)
    case Some(i) => if forward then (if i + 1 == |l| then 0 else i + 1) else (if i == 0 then |l| - 1 else i - 1)
    case None =>
      if forward then (if FirstFrom(l, head) == |l| then 0 else FirstFrom(l, head))
      else match LastBefore(l, head) case None => |l| - 1 case Some(i) => i
  }

  lemma {:induction false} PlaceBound(l: seq<Span>, s: Span)
    ensures PlaceOf(l, s).Some? ==> PlaceOf(l, s).value < |l| && l[PlaceOf(l, s).value] == s
    ensures PlaceOf(l, s).None? ==> s !in l
  {
    if l != [] { PlaceBound(l[1..], s); }
  }

  lemma {:induction false} LastBound(l: seq<Span>, off: nat)
    ensures var r := LastBefore(l, off); r.Some? ==> r.value < |l| && l[r.value].start < off
    ensures var r := LastBefore(l, off);
            forall i | (if r.Some? then r.value + 1 else 0) <= i < |l| :: l[i].start >= off
    decreases |l|
  {
    if l != [] && l[|l| - 1].start >= off {
      LastBound(l[..|l| - 1], off);
      var r := LastBefore(l, off);
      forall i | (if r.Some? then r.value + 1 else 0) <= i < |l| ensures l[i].start >= off {
        if i < |l| - 1 { assert l[..|l| - 1][i] == l[i]; }
      }
    }
  }

  lemma {:induction false} FirstFromSpec(l: seq<Span>, off: nat)
    requires Apart(l) && forall s | s in l :: s.start < s.end
    ensures forall i | 0 <= i < |l| :: l[i].start < off <==> i < FirstFrom(l, off)
    decreases |l|
  {
    if l != [] {
      ApartTail(l);
      FirstFromSpec(l[1..], off);
      forall i | 0 <= i < |l| ensures l[i].start < off <==> i < FirstFrom(l, off) {
        assert l[0] in l;
        if i > 0 {
          assert l[i] == l[1..][i - 1];
          assert l[0].end <= l[i].start;
        }
      }
    }
  }

  /** The rank before an offset is the index of the first match from it. */
  lemma {:induction false} RankIsFirstFrom(t: DTree, off: nat)
    requires SumTrees.Valid(DECOS, t) && Ordered(Ranges(t))
    ensures FindRankBefore(t, off) == FirstFrom(Found(Ranges(t)), off)
  {
    hide FindRankBefore, Select, Ordered, Ranges;
    FindRankBeforeCorrect(t, off);
    var v := Ranges(t);
    SelectFinds(v, off);
    FindsOrdered(v);
    CountFirst(Finds(v), off);
  }

  lemma {:induction false} SelectFinds(v: seq<Tracked>, off: nat)
    ensures Select(v, r => FindBefore(r, off)) == Select(Finds(v), r => FindBefore(r, off))
  {
    if v != [] {
      SelectFinds(v[1..], off);
      if IsFind(v[0]) { assert Finds(v)[1..] == Finds(v[1..]) && Finds(v)[0] == v[0]; }
      else { assert Finds(v) == Finds(v[1..]); }
    }
  }

  lemma {:induction false} CountFirst(fs: seq<Tracked>, off: nat)
    requires Ordered(fs) && forall i | 0 <= i < |fs| :: IsFind(fs[i])
    ensures |Select(fs, r => FindBefore(r, off))| == FirstFrom(Spans(fs), off)
    decreases |fs|
  {
    if fs != [] {
      var f := r => FindBefore(r, off);
      assert Spans(fs)[1..] == Spans(fs[1..]);
      if fs[0].start < off {
        CountFirst(fs[1..], off);
      } else {
        forall i | 0 <= i < |fs| ensures !f(fs[i]) {
          if i > 0 { assert Before(fs[0], fs[i]); }
        }
        SelectNone(fs, f);
      }
    }
  }

  /** A selection is a match exactly when the match of that rank is it. */
  lemma {:induction false} OnAMatch(l: seq<Span>, selection: Span, at: nat)
    requires Apart(l) && (forall s | s in l :: s.start < s.end) && at == FirstFrom(l, selection.start)
    ensures at < |l| && l[at] == selection ==> PlaceOf(l, selection) == Some(at)
    ensures !(at < |l| && l[at] == selection) ==> PlaceOf(l, selection) == None
  {
    FirstFromSpec(l, selection.start);
    PlaceBound(l, selection);
    var i := PlaceOf(l, selection);
    if i.Some? {
      assert l[i.value].start == selection.start;
      SameStart(l, i.value, at);
    } else if at < |l| {
      assert l[at] in l;
    }
  }

  lemma {:induction false} SameStart(l: seq<Span>, i: nat, at: nat)
    requires Apart(l) && (forall s | s in l :: s.start < s.end) && i < |l|
    requires at <= i && (at < |l| ==> l[at].start >= l[i].start)
    ensures at == i
  {
    if at < i { EarlierStarts(l, at, i); }
  }

  lemma {:induction false} EarlierStarts(l: seq<Span>, a: nat, b: nat)
    requires Apart(l) && (forall s | s in l :: s.start < s.end) && a < b < |l|
    ensures l[a].start < l[b].start
  {
    assert l[a] in l && l[a].end <= l[b].start;
  }

  /** The ordinal arithmetic lands where the walk does. */
  lemma {:induction false} PickIsWalk(l: seq<Span>, head: nat, selection: Span, forward: bool, at: nat, rank: nat,
                                      on: bool, pick: nat)
    requires l != [] && Apart(l) && (forall s | s in l :: s.start < s.end) && rank == FirstFrom(l, head)
    requires if on then at < |l| && PlaceOf(l, selection) == Some(at) else PlaceOf(l, selection) == None
    requires pick == if on then (if forward then (at + 1) % |l| else (at + |l| - 1) % |l|)
                     else if forward then rank % |l| else (rank + |l| - 1) % |l|
    ensures pick == Walk(l, head, selection, forward)
  {
    if on {
      Wrap(at, |l|);
    } else {
      FirstFromSpec(l, head);
      LastBound(l, head);
      LastIsRank(l, head, rank);
      WrapRank(rank, |l|);
    }
  }

  lemma {:induction false} LastIsRank(l: seq<Span>, head: nat, rank: nat)
    requires rank <= |l| && forall i | 0 <= i < |l| :: l[i].start < head <==> i < rank
    ensures LastBefore(l, head) == if rank == 0 then None else Some(rank - 1)
  {
    LastBound(l, head);
    var r := LastBefore(l, head);
    if rank > 0 { assert l[rank - 1].start < head; }
  }

  lemma {:induction false} Wrap(i: nat, n: nat)
    requires i < n
    ensures (i + 1) % n == if i + 1 == n then 0 else i + 1
    ensures (i + n - 1) % n == if i == 0 then n - 1 else i - 1
  {
    if i > 0 { assert (i + n - 1) == n + (i - 1); Mod1(i - 1, n); }
  }

  lemma {:induction false} Mod1(i: nat, n: nat)
    requires i < n
    ensures (n + i) % n == i
  {}

  lemma {:induction false} WrapRank(r: nat, n: nat)
    requires r <= n && n > 0
    ensures r % n == if r == n then 0 else r
    ensures (r + n - 1) % n == if r == 0 then n - 1 else r - 1
  {
    if r > 0 { assert (r + n - 1) == n + (r - 1); Mod1(r - 1, n); }
  }
}
