/**
 Runs that leave the match set behind the text, or fail: a paste past the cap, a scope whose text is taken
 away, a scope that an idle search forgets to move, and scopes whose edge lies inside a character.
 */
module FindLapses {
  import opened Base
  import opened Patches
  import opened TextBounds
  import opened FindScans
  import opened FindSets
  import opened FindScopes
  import opened FindRepair
  import opened FindCaps
  import opened FindMends
  import opened FindMatches
  import opened FindResults
  import opened FindCommits
  import opened FindModes
  import opened FindRuns

  const A_QUERY := Query([97], true)

  lemma {:induction false} LiteralA()
    ensures OnePhase(Some(Literal), Some(A_QUERY)) && Configured(Some(Literal), Some(A_QUERY))
            && !Idle(Some(Literal), Some(A_QUERY))
  {
    assert WholeChars(A_QUERY.needle);
  }

  /** One-byte characters are whole. */
  lemma {:induction false} WholeAscii(t: Text)
    requires forall i | 0 <= i < |t| :: t[i] < 128
    ensures WholeChars(t)
    decreases |t|
  {
    if t != [] {
      WholeAscii(t[1..]);
      assert CharLen(t[0]) == 1;
    }
  }

  /** A query asked of a search without one scans. */
  lemma {:induction false} FirstAsked(m: Mode, t: Text, q: Query, at: nat)
    requires Held(m, t) && m.query == None && Configured(Some(Literal), Some(q))
    ensures var act, next := Asked(Some(q), Some(Literal), at), Anew(Some(Literal), Some(q), m.scope, t, at);
            && Received(m, t, act) && !Fails(m, t, act) && After(m, t, act) == next && TextAfter(t, act) == t
            && Held(next, t) && IsComplete(next, t)
  {
    hide Held, IsComplete, Configured, Anew;
    HeldParts(m, t);
    ScopeSolid(m, t);
    AnewCompletes(Some(Literal), Some(q), m.scope, t, at);
  }

  /** A new scope scans. */
  lemma {:induction false} ScopeKept(m: Mode, t: Text, stretch: Span, at: nat)
    requires Held(m, t) && m.scope == None && stretch.start < stretch.end
    ensures var act, next := Kept(Some(stretch), at), Anew(m.matcher, m.query, Some(stretch), t, at);
            && Received(m, t, act) && !Fails(m, t, act) && After(m, t, act) == next && TextAfter(t, act) == t
            && Held(next, t) && IsComplete(next, t)
  {
    hide Held, IsComplete, Configured, Anew;
    HeldParts(m, t);
    AnewCompletes(m.matcher, m.query, Some(stretch), t, at);
  }

  lemma {:induction false} TypedThen(m: Mode, t: Text, p: Patch, after: Text)
    requires Rewrites(p, t, after) && WholeChars(after) && |after| <= U32_MAX
    ensures var act := Typed(p, after);
            && Received(m, t, act) && WellFormed(p) && EditsIn(p, |after|)
              && (Fails(m, t, act) <==> Breaks(m, p, after))
            && After(m, t, act) == Rode(m, p, after) && TextAfter(t, act) == after
  {
    hide Rewrites, WholeChars, Rode, Breaks, WellFormed, EditsIn;
    ReceivedTyped(m, t, p, after);
  }

  /** The scope of an unscoped or freshly scoped search. */
  lemma {:induction false} AnewFields(q: Query, scope: Option<Span>, t: Text, at: nat)
    ensures var m, all := Anew(Some(Literal), Some(q), scope, t, at),
                          FreshScan(Some(Literal), Some(q), t, Reach(scope, false, 0, |t|));
            && m.matcher == Some(Literal) && m.query == Some(q) && m.scope == scope
            && (|all| <= FIND_MATCH_CAP ==> !m.capped && m.found == all)
  {
    hide FreshScan, FIND_MATCH_CAP;
  }

  // ----- past the cap -----

  function Pasted(n: nat): Text { seq(n, i requires 0 <= i < n => 97) }

  lemma {:induction false} PastedScan(n: nat, from: nat)
    requires from <= n
    ensures |Greedy(Pasted(n), A_QUERY, from, n)| == n - from
    decreases n - from
  {
    if from < n {
      PastedScan(n, from + 1);
      assert HitAt(Pasted(n), A_QUERY, from);
    }
  }

  /** A paste of so many letters into an empty text. */
  function Paste(n: nat): Patch { [Edit(0, 0, 0, n)] }

  lemma {:induction false} PasteFacts(n: nat)
    requires n <= U32_MAX
    ensures Rewrites(Paste(n), [], Pasted(n)) && WellFormed(Paste(n)) && WholeChars(Pasted(n)) && |Pasted(n)| == n
    ensures |FreshScan(Some(Literal), Some(A_QUERY), Pasted(n), Span(0, n))| == n
  {
    WholeAscii(Pasted(n));
    PastedScan(n, 0);
    OneEdit([], [], Pasted(n), []);
    assert [] + Pasted(n) + [] == Pasted(n);
  }

  lemma {:induction false} Unscoped(m: Mode, p: Patch, n: nat)
    requires WellFormed(p) && m.scope == None && !m.capped
    ensures m.Ridden(p, n) == Span(0, n) && !Collapses(p, m.scope)
  {}

  lemma {:induction false} EmptyScan()
    ensures FreshScan(Some(Literal), Some(A_QUERY), [], Reach(None, false, 0, 0)) == []
  {}

  /** Pasting more matches than the cap into an empty text: the commit flags nothing, and what is past the
      cap is missing. */
  lemma {:induction false} PasteOverTheCap(n: nat)
    requires FIND_MATCH_CAP < n <= U32_MAX
    ensures var acts := [Asked(Some(A_QUERY), Some(Literal), 0)] + ([Typed(Paste(n), Pasted(n))] + []);
            AllReceived(BEGUN, [], acts)
            && match RunFrom(BEGUN, [], acts)
               case Broken => false
               case At(m, t) =>
                 var all := FreshScan(m.matcher, m.query, t, m.Covers(|t|));
                 t == Pasted(n) && |all| == n && m.found == all[..FIND_MATCH_CAP] && !m.capped && !IsComplete(m, t)
  {
    hide Held, IsComplete, FreshScan, Anew, Rode, Rewrites, WellFormed, EditsIn, WholeChars, Breaks, FIND_MATCH_CAP,
         OnePhase, Configured, Idle, Received, Fails, After, TextAfter, AllReceived, RunFrom, Mode.Ridden, Mode.Covers,
         Collapses, Pasted, Reach;
    var m := Anew(Some(Literal), Some(A_QUERY), None, [], 0);
    LiteralA();
    PasteFacts(n);
    BegunHolds([]);
    FirstAsked(BEGUN, [], A_QUERY, 0);
    EmptyScan();
    AnewFields(A_QUERY, None, [], 0);
    TypedThen(m, [], Paste(n), Pasted(n));
    Unscoped(m, Paste(n), n);
    PastedWhole(m, n);
    var end := Rode(m, Paste(n), Pasted(n));
    RunStays(end, Pasted(n));
    RunNext(m, [], Typed(Paste(n), Pasted(n)), []);
    RunNext(BEGUN, [], Asked(Some(A_QUERY), Some(Literal), 0), [Typed(Paste(n), Pasted(n))] + []);
    PastedCut(m, n);
  }

  lemma {:induction false} PastedWhole(m: Mode, n: nat)
    requires Rewrites(Paste(n), [], Pasted(n)) && WellFormed(Paste(n)) && EditsIn(Paste(n), |Pasted(n)|)
    requires WholeChars(Pasted(n)) && Held(m, []) && !Idle(m.matcher, m.query)
    requires m.Ridden(Paste(n), |Pasted(n)|) == Span(0, |Pasted(n)|)
    ensures !Breaks(m, Paste(n), Pasted(n))
  {
    hide Held, Rewrites, WellFormed, EditsIn, WholeChars, Breaks, Idle, Mode.Ridden, Pasted;
    BreaksWhen(m, Paste(n), [], Pasted(n));
  }

  lemma {:induction false} PastedCut(m: Mode, n: nat)
    requires FIND_MATCH_CAP < n == |Pasted(n)| && WellFormed(Paste(n)) && EditsIn(Paste(n), |Pasted(n)|)
    requires Rewrites(Paste(n), [], Pasted(n)) && Held(m, []) && IsComplete(m, []) && m.found == [] && !m.capped
    requires m.matcher == Some(Literal) && m.query == Some(A_QUERY) && OnePhase(m.matcher, m.query)
             && !Idle(m.matcher, m.query)
    requires |FreshScan(m.matcher, m.query, Pasted(n), Span(0, n))| == n
    requires m.Ridden(Paste(n), n) == Span(0, n) && !Collapses(Paste(n), m.scope)
    ensures var end, all := Rode(m, Paste(n), Pasted(n)), FreshScan(m.matcher, m.query, Pasted(n), Span(0, n));
            && end.matcher == m.matcher && end.query == m.query && end.Covers(n) == Span(0, n)
            && end.found == all[..FIND_MATCH_CAP] && !end.capped && !IsComplete(end, Pasted(n))
  {
    hide Held, IsComplete, FreshScan, Rode, Rewrites, WellFormed, EditsIn, FIND_MATCH_CAP, OnePhase, Idle, Mode.Ridden,
         Mode.Covers, Collapses, Pasted, Restored, LastEnd;
    var p, t := Paste(n), Pasted(n);
    NothingRides(m, p, [], t);
    CommitFollows(m, p, [], t);
    SilentWhen(m, p, [], t);
    RodeKeepsQuery(m, p, t);
    RodeSettles(m, p, [], t);
  }

  lemma {:induction false} NothingRides(m: Mode, p: Patch, before: Text, t: Text)
    requires |p| == 1 && Rewrites(p, before, t) && WellFormed(p) && !Idle(m.matcher, m.query) && m.found == []
    ensures SparedBy(m, p, before, t) == {}
  {
    hide Rewrites, WellFormed, RepairWindow;
    assert SpanSet([]) == {};
    RideNothing(p);
  }

  // ----- a scope taken away -----

  const AB: Text := [97, 98]

  const DROP_B: Patch := [Edit(1, 2, 1, 1)]

  lemma {:induction false} DropFacts()
    ensures Rewrites(DROP_B, AB, [97]) && WellFormed(DROP_B) && WholeChars(AB) && WholeChars([97])
    ensures |AB| == 2 && |DROP_B| == 1
  {
    hide WholeChars, Rewrites, WellFormed;
    OneEdit([97], [98], [], []);
    assert [97] + [98] + [] == AB && [97] + [] + [] == [97];
    WholeAscii(AB);
    WholeAscii([97]);
  }

  lemma {:induction false} DropRides(m: Mode)
    requires WellFormed(DROP_B) && m.scope == Some(Span(1, 2)) && !m.capped
    ensures Collapses(DROP_B, m.scope) && m.Ridden(DROP_B, 1) == Span(0, 1)
  {}

  /** The one edit's stretch is the empty one at the text's end. */
  lemma {:induction false} DropStretch()
    ensures Rescanned(Literal, A_QUERY, [97], Span(0, 1), Edit(1, 2, 1, 1)) == Span(1, 1)
    ensures FreshScan(Some(Literal), Some(A_QUERY), [97], Span(1, 1)) == []
    ensures FreshScan(Some(Literal), Some(A_QUERY), [97], Span(0, 1)) == [Span(0, 1)]
  {
    assert HitAt([97], A_QUERY, 0);
    assert Greedy([97], A_QUERY, 1, 1) == [];
  }

  /** A short text's matches are few. */
  lemma {:induction false} FewHits(t: Text, from: nat, to: nat)
    requires to <= |t|
    ensures |Greedy(t, A_QUERY, from, to)| <= SatSub(to, from)
    decreases SatSub(to, from)
  {
    if from < to { FewHits(t, from + 1, to); }
  }

  lemma {:induction false} AbFits(scope: Option<Span>)
    ensures |FreshScan(Some(Literal), Some(A_QUERY), AB, Reach(scope, false, 0, |AB|))| <= FIND_MATCH_CAP
  {
    hide Greedy;
    var r := Reach(scope, false, 0, |AB|);
    FewHits(AB, r.start, r.end);
  }

  /** The search after asking for a letter and keeping to the second of two. */
  ghost function Scoped(t: Text, q: Query, stretch: Span): Mode { Anew(Some(Literal), Some(q), Some(stretch), t, 0) }

  /** Asking, keeping to a stretch, and then a commit. */
  function AskKeepType(q: Query, stretch: Span, p: Patch, after: Text): seq<Act> {
    [Asked(Some(q), Some(Literal), 0)] + ([Kept(Some(stretch), 0)] + ([Typed(p, after)] + []))
  }

  lemma {:induction false} AskedAndKept(t: Text, q: Query, stretch: Span, p: Patch, after: Text)
    requires Configured(Some(Literal), Some(q)) && stretch.start < stretch.end
    requires Rewrites(p, t, after) && WholeChars(after) && |after| <= U32_MAX
    ensures var m := Scoped(t, q, stretch);
            && Held(m, t) && m.matcher == Some(Literal) && m.query == Some(q) && m.scope == Some(stretch)
            && WellFormed(p) && EditsIn(p, |after|)
            && AllReceived(BEGUN, t, AskKeepType(q, stretch, p, after))
            && RunFrom(BEGUN, t, AskKeepType(q, stretch, p, after))
               == if Breaks(m, p, after) then Broken else At(Rode(m, p, after), after)
  {
    hide Held, IsComplete, Anew, Rode, Rewrites, WellFormed, EditsIn, WholeChars, Breaks, Configured, Received, Fails,
         After, TextAfter, AllReceived, RunFrom, FreshScan;
    var m1, m2 := Anew(Some(Literal), Some(q), None, t, 0), Scoped(t, q, stretch);
    BegunHolds(t);
    FirstAsked(BEGUN, t, q, 0);
    AnewFields(q, None, t, 0);
    ScopeKept(m1, t, stretch, 0);
    AnewFields(q, Some(stretch), t, 0);
    TypedThen(m2, t, p, after);
    var act := Typed(p, after);
    if Breaks(m2, p, after) {
      RunFails(m2, t, act, []);
    } else {
      RunStays(Rode(m2, p, after), after);
      RunNext(m2, t, act, []);
    }
    RunNext(m1, t, Kept(Some(stretch), 0), [act] + []);
    RunNext(BEGUN, t, Asked(Some(q), Some(Literal), 0), [Kept(Some(stretch), 0)] + ([act] + []));
  }

  /** Deleting a scope's text drops the scope and scans nothing else: the search is then of the whole text,
      says it is complete, and misses the text's only match. */
  lemma {:induction false} TakeScopeAway()
    ensures var acts := AskKeepType(A_QUERY, Span(1, 2), DROP_B, [97]);
            AllReceived(BEGUN, AB, acts)
            && match RunFrom(BEGUN, AB, acts)
               case Broken => false
               case At(m, t) =>
                 t == [97] && m.scope == None && !m.capped && m.found == []
                 && FreshScan(m.matcher, m.query, t, m.Covers(|t|)) == [Span(0, 1)]
  {
    hide Held, IsComplete, Rode, Rewrites, WellFormed, EditsIn, WholeChars, Breaks, Configured, AllReceived, RunFrom,
         FreshScan, Idle, Anew, Collapses, Mode.Ridden, Rescanned, Mode.Covers, OnePhase, Restored, FIND_MATCH_CAP;
    var m := Scoped(AB, A_QUERY, Span(1, 2));
    LiteralA();
    DropFacts();
    AskedAndKept(AB, A_QUERY, Span(1, 2), DROP_B, [97]);
    AbFits(Some(Span(1, 2)));
    AnewFields(A_QUERY, Some(Span(1, 2)), AB, 0);
    DropRides(m);
    DropStretch();
    BreaksWhen(m, DROP_B, AB, [97]);
    CollapseCompletes(m, DROP_B, AB, [97]);
    CommitFlags(m, DROP_B, [97]);
    RodeKeepsQuery(m, DROP_B, [97]);
    RodeSettles(m, DROP_B, AB, [97]);
    NothingFirst(Rode(m, DROP_B, [97]).found, Listed(Restored(m, DROP_B, [97])));
  }

  lemma {:induction false} NothingFirst(l: seq<Span>, all: seq<Span>)
    requires l == FirstMatches(all) && l == FirstMatches([])
    ensures l == [] && |all| <= FIND_MATCH_CAP
  {}

  // ----- a scope left behind -----

  const TYPE_A: Patch := [Edit(0, 0, 0, 1)]

  lemma {:induction false} TypeFacts()
    ensures Rewrites(TYPE_A, AB, [97, 97, 98]) && WellFormed(TYPE_A) && WholeChars([97, 97, 98]) && WholeChars(AB)
  {
    hide WholeChars, Rewrites, WellFormed;
    OneEdit([], [], [97], AB);
    assert [] + [] + AB == AB && [] + [97] + AB == [97, 97, 98];
    WholeAscii(AB);
    WholeAscii([97, 97, 98]);
  }

  lemma {:induction false} TypeRides()
    requires WellFormed(TYPE_A)
    ensures RideScope(TYPE_A, Some(Span(1, 2))) == Some(Span(2, 3))
  {
    hide Mapped, WellFormed;
    MapSingle(Edit(0, 0, 0, 1), 1, Left);
    MapSingle(Edit(0, 0, 0, 1), 2, Right);
  }

  /** While nothing is searched for, a scope does not ride: typing before it leaves it on other text. */
  lemma {:induction false} LeaveScopeBehind()
    ensures var acts := [Kept(Some(Span(1, 2)), 0)] + ([Typed(TYPE_A, [97, 97, 98])] + []);
            && WellFormed(TYPE_A) && RideScope(TYPE_A, Some(Span(1, 2))) == Some(Span(2, 3))
            && AllReceived(BEGUN, AB, acts)
            && match RunFrom(BEGUN, AB, acts)
               case Broken => false
               case At(m, t) => t == [97, 97, 98] && m.scope == Some(Span(1, 2))
  {
    hide Held, IsComplete, Rode, Rewrites, WellFormed, EditsIn, WholeChars, Breaks, AllReceived, RunFrom, Received,
         Fails, After, TextAfter, FreshScan, RideScope, Anew;
    var m, act := Anew(None, None, Some(Span(1, 2)), AB, 0), Typed(TYPE_A, [97, 97, 98]);
    TypeFacts();
    TypeRides();
    BegunHolds(AB);
    ScopeKept(BEGUN, AB, Span(1, 2), 0);
    TypedThen(m, AB, TYPE_A, [97, 97, 98]);
    IdleRides(m, TYPE_A, [97, 97, 98], Some(Span(1, 2)));
    RunStays(m, [97, 97, 98]);
    RunNext(m, AB, act, []);
    RunNext(BEGUN, AB, Kept(Some(Span(1, 2)), 0), [act] + []);
  }

  lemma {:induction false} IdleRides(m: Mode, p: Patch, t: Text, scope: Option<Span>)
    requires WellFormed(p) && EditsIn(p, |t|) && m == Anew(None, None, scope, AB, 0)
    ensures !Breaks(m, p, t) && Rode(m, p, t) == m && m.scope == scope
  {}

  // ----- an edge inside a character -----

  /** Where the edits' new texts begin and end on characters, an edge lands on one exactly when it lay on one
      or at an edit, and, if it lay strictly inside an edit's old text, the place it is clamped to in the
      new one is on a character. */
  lemma {:induction false} EdgeStays(p: Patch, before: Text, after: Text, x: nat, bias: Bias)
    requires Rewrites(p, before, after) && WellFormed(p) && x <= |before|
    requires forall j | 0 <= j < |p| ::
             p[j].ns <= p[j].ne <= |after| && Boundary(after, p[j].ns) && Boundary(after, p[j].ne)
    ensures Boundary(after, Mapped(p, x, bias))
            <==> (Boundary(before, x) || exists j | 0 <= j < |p| :: p[j].os <= x <= p[j].oe)
                 && forall j | 0 <= j < |p| && p[j].os < x < p[j].oe :: Boundary(after, Clamped(p[j], x))
  {
    hide Shift, Rewrites, Boundary;
    var k := FirstReaching(p, x);
    GapBounds(p, before, after, k);
    GapShift(p, k);
    forall j | k < j < |p| ensures x <= p[j].os { EditsAscend(p, k, j); }
    if k == |p| || x < p[k].os {
      forall j | k <= j < |p| ensures x < p[j].os { EditsAscend(p, k, j); }
      InsideGap(p, before, after, k, x);
    }
  }

  /** Where an offset inside an edit's old text is put in the new one. */
  function Clamped(e: Edit, x: nat): nat
    requires e.os <= x && e.ns <= e.ne
  {
    Min(e.ns + (x - e.os), e.ne)
  }

  /** Inside a gap a character boundary stays one, and nothing else becomes one. */
  lemma {:induction false} InsideGap(p: Patch, before: Text, after: Text, g: nat, x: nat)
    requires Rewrites(p, before, after) && g <= |p| && (g == 0 || GapStart(p, g) < x) && x <= |before|
    requires g < |p| ==> x < p[g].os
    ensures 0 <= x + Shift(p, g) <= |after| && (Boundary(after, x + Shift(p, g)) <==> Boundary(before, x))
  {
    hide Shift, Rewrites;
    GapBounds(p, before, after, g);
    if g < |p| { EditInText(p, before, after, g); }
    if x < |before| {
      GapByte(p, before, after, g, x);
      TextStarts(p, before, after, g);
      assert x > 0 ==> x + Shift(p, g) > 0;
    } else {
      TextEnds(p, before, after);
    }
  }

  lemma {:induction false} TextStarts(p: Patch, before: Text, after: Text, g: nat)
    requires Rewrites(p, before, after) && g <= |p|
    ensures NewGapStart(p, g) == GapStart(p, g) + Shift(p, g) && (g == 0 ==> Shift(p, g) == 0)
  {
    hide Rewrites;
    GapBounds(p, before, after, g);
  }

  lemma {:induction false} TextEnds(p: Patch, before: Text, after: Text)
    requires Rewrites(p, before, after)
    ensures |before| + Shift(p, |p|) == |after|
  {}

  /** A commit of one edit fails exactly when its one slice does. */
  lemma {:induction false} BreaksOnce(m: Mode, p: Patch, t: Text, q: Query)
    requires WellFormed(p) && EditsIn(p, |t|) && |p| == 1 && m.matcher == Some(Literal) && m.query == Some(q)
             && q.needle != []
    ensures Breaks(m, p, t) <==> !SlicesWell(t, q, m.Ridden(p, |t|), p[0], RideSet(p, SpanSet(m.found)))
  {
    hide SlicesWell, RideSet, EditsIn, WellFormed, Mode.Ridden, MendedBy;
    var f, now := RideSet(p, SpanSet(m.found)), m.Ridden(p, |t|);
    MendNext(Literal, q, p, t, now, 0, f);
    assert MendAll(Literal, q, p, t, now, 0, f) == f;
    assert SlicesAll(Literal, q, p, t, now, 1, f) <==> Slices(Literal, q, t, now, p[0], f);
  }

  const E_ACUTE: Text := [195, 169]

  const TYPE_E: Patch := [Edit(0, 2, 0, 2)]

  lemma {:induction false} AcuteFacts()
    ensures WellFormed(TYPE_E) && Rewrites(TYPE_E, AB, E_ACUTE) && WholeChars(E_ACUTE)
  {
    hide WellFormed, Rewrites;
    OneEdit([], AB, E_ACUTE, []);
    assert [] + AB + [] == AB && [] + E_ACUTE + [] == E_ACUTE;
    assert E_ACUTE[2..] == [];
  }

  lemma {:induction false} AcuteMaps()
    requires WellFormed(TYPE_E)
    ensures Mapped(TYPE_E, 1, Left) == 1 && Mapped(TYPE_E, 2, Right) == 2
  {
    hide Mapped, WellFormed;
    MapSingle(Edit(0, 2, 0, 2), 1, Left);
    MapSingle(Edit(0, 2, 0, 2), 2, Right);
  }

  lemma {:induction false} AcuteRides(m: Mode)
    requires WellFormed(TYPE_E) && m.scope == Some(Span(1, 2)) && !m.capped
    ensures m.Ridden(TYPE_E, 2) == Span(1, 2)
  {
    hide Mapped, WellFormed, TYPE_E;
    AcuteMaps();
  }

  lemma {:induction false} NothingBeside()
    ensures FreshScan(Some(Literal), Some(A_QUERY), AB, Reach(Some(Span(1, 2)), false, 0, |AB|)) == []
  {
    assert !Same(AB[1 + 0], A_QUERY.needle[0], true);
    assert !HitAt(AB, A_QUERY, 1);
    assert Greedy(AB, A_QUERY, 2, 2) == [];
  }

  /** The repair would scan from the scope's start, inside the new character. */
  lemma {:induction false} AcuteCuts()
    ensures !SlicesWell(E_ACUTE, A_QUERY, Span(1, 2), TYPE_E[0], {})
  {
    var z := ZoneAround(E_ACUTE, A_QUERY, Span(1, 2), {}, 1, 2);
    assert z.extLo == 1 && z.extHi == 2;
  }

  /** Replacing two letters by one character of two bytes puts the scope's start, which lay between them,
      inside it, and the commit fails. */
  lemma {:induction false} EdgeInsideACharacter()
    ensures var acts := AskKeepType(A_QUERY, Span(1, 2), TYPE_E, E_ACUTE);
            WholeChars(AB) && AllReceived(BEGUN, AB, acts) && RunFrom(BEGUN, AB, acts) == Broken
  {
    hide Held, IsComplete, Rode, Rewrites, WellFormed, EditsIn, WholeChars, Breaks, Configured, AllReceived, RunFrom,
         FreshScan, Idle, Anew, Mode.Ridden, OnePhase, FIND_MATCH_CAP, SlicesWell;
    var m := Scoped(AB, A_QUERY, Span(1, 2));
    LiteralA();
    AcuteFacts();
    WholeAscii(AB);
    AskedAndKept(AB, A_QUERY, Span(1, 2), TYPE_E, E_ACUTE);
    NothingBeside();
    AbFits(Some(Span(1, 2)));
    AnewFields(A_QUERY, Some(Span(1, 2)), AB, 0);
    AcuteRides(m);
    assert SpanSet([]) == {};
    RideNothing(TYPE_E);
    BreaksOnce(m, TYPE_E, E_ACUTE, A_QUERY);
    AcuteCuts();
  }

  const AB_QUERY := Query([97, 98], true)

  const E_AB: Text := [195, 169, 97, 98]

  const E_XAB: Text := [195, 169, 120, 97, 98]

  const TYPE_X: Patch := [Edit(2, 2, 2, 3)]

  lemma {:induction false} TypedBesideFacts()
    ensures WellFormed(TYPE_X) && Rewrites(TYPE_X, E_AB, E_XAB) && WholeChars(E_AB) && WholeChars(E_XAB)
    ensures Configured(Some(Literal), Some(AB_QUERY))
  {
    hide WellFormed, Rewrites;
    OneEdit(E_ACUTE, [], [120], AB);
    assert E_ACUTE + [] + AB == E_AB && E_ACUTE + [120] + AB == E_XAB;
    WholeAscii(AB);
    WholeAscii([120, 97, 98]);
    assert E_AB[2..] == AB && E_XAB[2..] == [120, 97, 98];
  }

  lemma {:induction false} TypedBesideRides(m: Mode)
    requires WellFormed(TYPE_X) && m.scope == Some(Span(1, 4)) && !m.capped
    ensures m.Ridden(TYPE_X, 5) == Span(1, 5)
    ensures RideSet(TYPE_X, {Span(2, 4)}) == {Span(3, 5)}
  {
    hide Mapped, WellFormed;
    MapSingle(Edit(2, 2, 2, 3), 1, Left);
    MapSingle(Edit(2, 2, 2, 3), 2, Right);
    MapSingle(Edit(2, 2, 2, 3), 4, Left);
    MapSingle(Edit(2, 2, 2, 3), 4, Right);
    assert RideSpan(TYPE_X, Span(2, 4)) == Span(3, 5);
  }

  lemma {:induction false} OneBeside()
    ensures FreshScan(Some(Literal), Some(AB_QUERY), E_AB, Reach(Some(Span(1, 4)), false, 0, |E_AB|)) == [Span(2, 4)]
  {
    assert !Same(E_AB[1 + 0], AB_QUERY.needle[0], true);
    assert HitAt(E_AB, AB_QUERY, 2) && !HitAt(E_AB, AB_QUERY, 1);
    assert Greedy(E_AB, AB_QUERY, 4, 4) == [];
    assert Greedy(E_AB, AB_QUERY, 2, 4) == [Span(2, 4)];
  }

  lemma {:induction false} BesideCuts()
    ensures !SlicesWell(E_XAB, AB_QUERY, Span(1, 5), TYPE_X[0], {Span(3, 5)})
  {
    var t, q, f := E_XAB, AB_QUERY, {Span(3, 5)};
    assert Boundary(t, 4) && Boundary(t, 0) && !Boundary(t, 1) && Boundary(t, 5);
    assert WinLo(t, q, Span(1, 5), TYPE_X[0]) == 1 && WinHi(t, q, Span(1, 5), TYPE_X[0]) == 4;
    var z := ZoneAround(t, q, Span(1, 5), f, 1, 4);
    assert Removed(f, 1, 4, Span(3, 5)) && WithoutTouching(f, 1, 4) == {};
    assert z.extLo == 1 && z.lo == 1;
    assert z.hi > 1;
  }

  /** A scope may be given any edges, and typing beside one inside a character fails the same way, though
      the edit replaces nothing. */
  lemma {:induction false} EdgeBesideTyping()
    ensures var acts := AskKeepType(AB_QUERY, Span(1, 4), TYPE_X, E_XAB);
            WholeChars(E_AB) && AllReceived(BEGUN, E_AB, acts) && RunFrom(BEGUN, E_AB, acts) == Broken
  {
    hide Held, IsComplete, Rode, Rewrites, WellFormed, EditsIn, WholeChars, Breaks, Configured, AllReceived, RunFrom,
         FreshScan, Idle, Anew, Mode.Ridden, FIND_MATCH_CAP, SlicesWell, RideSet;
    var m := Scoped(E_AB, AB_QUERY, Span(1, 4));
    TypedBesideFacts();
    AskedAndKept(E_AB, AB_QUERY, Span(1, 4), TYPE_X, E_XAB);
    OneBeside();
    OneFits();
    AnewFields(AB_QUERY, Some(Span(1, 4)), E_AB, 0);
    TypedBesideRides(m);
    assert SpanSet([Span(2, 4)]) == {Span(2, 4)};
    BreaksOnce(m, TYPE_X, E_XAB, AB_QUERY);
    BesideCuts();
  }

  lemma {:induction false} OneFits()
    ensures FIND_MATCH_CAP >= 1
  {}
}
