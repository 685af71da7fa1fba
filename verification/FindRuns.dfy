/**
 Whole runs: commits, queries, scopes, refills, navigation and other decorations, in any order, leave the
 search and its matches where the machine is, or stop where the machine does.
 */
module FindRuns {
  import opened Base
  import opened Patches
  import opened TextBounds
  import opened DecorationItems
  import opened Decorations
  import opened FindScans
  import opened FindSets
  import opened FindScopes
  import opened FindCaps
  import opened FindMatches
  import opened FindMends
  import opened FindResults
  import opened FindCommits
  import opened FindModes
  import opened FindHandles
  import opened Find

  /** What can happen to the text, the search and the store; scans and refills come with their time. */
  datatype Act =
    | Typed(patch: Patch, text: Text)
    | Asked(query: Option<Query>, matcher: Option<Matcher>, at: nat)
    | Kept(stretch: Option<Span>, at: nat)
    | Refilled(at: nat)
    | Stepped(head: nat, selection: Span, forward: bool)
    | Marked(span: Span, kind: Kind, stickiness: Stickiness)

  /** An act the editor can hand over: a patch between texts, a query with what it compiles to, and a
      range of another kind. */
  ghost predicate Received(m: Mode, t: Text, act: Act) {
    match act
    case Typed(p, after) => Rewrites(p, t, after) && WholeChars(after) && |after| <= U32_MAX
    case Asked(q, c, _) => Configured(c, q) && (q == m.query ==> c == m.matcher)
    case Kept(_, _) => true
    case Refilled(_) => true
    case Stepped(_, _, _) => true
    case Marked(span, kind, _) => span.start <= span.end && kind != FindMatch
  }

  function TextAfter(t: Text, act: Act): Text { if act.Typed? then act.text else t }

  /** The commit would slice the text inside a character. */
  ghost predicate Fails(m: Mode, t: Text, act: Act)
    requires Received(m, t, act)
  {
    act.Typed? && (EditsInText(act.patch, t, act.text); Breaks(m, act.patch, act.text))
  }

  /** A stretch to search in; an empty one is none. */
  function Wanted(stretch: Option<Span>): Option<Span> {
    if stretch.Some? && stretch.value.start < stretch.value.end then stretch else None
  }

  /** A refill has something to do, and has waited long enough. */
  predicate Due(m: Mode, at: nat) { m.query.Some? && m.capped && m.stale && SatSub(at, m.last) >= FIND_DEBOUNCE }

  /** What the machine does. */
  ghost function After(m: Mode, t: Text, act: Act): Mode
    requires Received(m, t, act)
  {
    match act
    case Typed(p, after) => EditsInText(p, t, after); Rode(m, p, after)
    case Asked(q, c, at) => if q == m.query then m else Anew(c, q, m.scope, t, at)
    case Kept(stretch, at) => if Wanted(stretch) == m.scope then m else Anew(m.matcher, m.query, Wanted(stretch), t, at)
    case Refilled(at) => if Due(m, at) then Anew(m.matcher, m.query, m.scope, t, at) else m
    case Stepped(_, _, _) => m
    case Marked(_, _, _) => m
  }

  /** Where a run ends: at a search and a text, or at a commit that failed. */
  datatype Outcome = At(mode: Mode, text: Text) | Broken

  ghost predicate AllReceived(m: Mode, t: Text, acts: seq<Act>)
    decreases |acts|
  {
    acts != [] ==>
      Received(m, t, acts[0])
      && (!Fails(m, t, acts[0]) ==> AllReceived(After(m, t, acts[0]), TextAfter(t, acts[0]), acts[1..]))
  }

  ghost function RunFrom(m: Mode, t: Text, acts: seq<Act>): Outcome
    requires AllReceived(m, t, acts)
    decreases |acts|
  {
    if acts == [] then At(m, t)
    else if Fails(m, t, acts[0]) then Broken
    else RunFrom(After(m, t, acts[0]), TextAfter(t, acts[0]), acts[1..])
  }

  lemma {:induction false} RunNext(m: Mode, t: Text, act: Act, rest: seq<Act>)
    requires Received(m, t, act) && !Fails(m, t, act) && AllReceived(After(m, t, act), TextAfter(t, act), rest)
    ensures AllReceived(m, t, [act] + rest)
    ensures RunFrom(m, t, [act] + rest) == RunFrom(After(m, t, act), TextAfter(t, act), rest)
  {
    hide Received, Fails, After, TextAfter;
    assert ([act] + rest)[0] == act && ([act] + rest)[1..] == rest;
  }

  lemma {:induction false} RunFails(m: Mode, t: Text, act: Act, rest: seq<Act>)
    requires Received(m, t, act) && Fails(m, t, act)
    ensures AllReceived(m, t, [act] + rest) && RunFrom(m, t, [act] + rest) == Broken
  {
    hide Received, Fails, After, TextAfter;
    assert ([act] + rest)[0] == act && ([act] + rest)[1..] == rest;
  }

  lemma {:induction false} RunStays(m: Mode, t: Text)
    ensures AllReceived(m, t, []) && RunFrom(m, t, []) == At(m, t)
  {}

  // ----- what every run keeps -----

  lemma {:induction false} ReceivedTyped(m: Mode, t: Text, p: Patch, after: Text)
    requires Received(m, t, Typed(p, after))
    ensures Rewrites(p, t, after) && WellFormed(p) && EditsIn(p, |after|) && WholeChars(after) && |after| <= U32_MAX
    ensures Fails(m, t, Typed(p, after)) <==> Breaks(m, p, after)
    ensures After(m, t, Typed(p, after)) == Rode(m, p, after)
  {
    hide Rewrites, WholeChars, Breaks, Rode;
    EditsInText(p, t, after);
    RewritesWellFormed(p, t, after);
  }

  lemma {:induction false} AfterHolds(m: Mode, t: Text, act: Act)
    requires Held(m, t) && Received(m, t, act)
    ensures Held(After(m, t, act), TextAfter(t, act))
  {
    hide Held, Anew, Rode, Rewrites, Configured;
    HeldParts(m, t);
    ScopeSolid(m, t);
    match act {
      case Typed(p, after) =>
        ReceivedTyped(m, t, p, after);
        RodeHolds(m, p, t, after);
      case Asked(q, c, at) => AnewCompletes(c, q, m.scope, t, at);
      case Kept(stretch, at) => AnewCompletes(m.matcher, m.query, Wanted(stretch), t, at);
      case Refilled(at) => AnewCompletes(m.matcher, m.query, m.scope, t, at);
      case Stepped(_, _, _) =>
      case Marked(_, _, _) =>
    }
  }

  lemma {:induction false} ScopeSolid(m: Mode, t: Text)
    requires Held(m, t)
    ensures m.scope.Some? ==> m.scope.value.start < m.scope.value.end
  {
    hide Configured, Stored, Listing;
  }

  /** Wherever a run ends, nothing is listed but matches, in order, no more than the cap. */
  lemma {:induction false} RunHolds(m: Mode, t: Text, acts: seq<Act>)
    requires Held(m, t) && AllReceived(m, t, acts) && RunFrom(m, t, acts).At?
    ensures Held(RunFrom(m, t, acts).mode, RunFrom(m, t, acts).text)
    decreases |acts|
  {
    hide Held, After, Received, Fails;
    if acts != [] {
      AfterHolds(m, t, acts[0]);
      RunHolds(After(m, t, acts[0]), TextAfter(t, acts[0]), acts[1..]);
    }
  }

  // ----- runs the repair keeps up with -----

  /** A commit the repair keeps up with: it leaves the scope some text, and the new text's matches fit the
      cap, or, matches never overlapping, the repaired set does not and is cut. */
  ghost predicate KeepsUp(m: Mode, p: Patch, after: Text)
    requires WellFormed(p) && EditsIn(p, |after|)
  {
    p == [] || Idle(m.matcher, m.query)
    || (!Collapses(p, m.scope)
        && (WithinCap(m.matcher, m.query, after, m.Ridden(p, |after|))
            || (OnePhase(m.matcher, m.query) && |Restored(m, p, after)| > FIND_MATCH_CAP)))
  }

  ghost predicate AllKeepUp(m: Mode, t: Text, acts: seq<Act>)
    requires AllReceived(m, t, acts)
    decreases |acts|
  {
    acts != [] && !Fails(m, t, acts[0]) ==>
      (acts[0].Typed? ==> (EditsInText(acts[0].patch, t, acts[0].text); KeepsUp(m, acts[0].patch, acts[0].text)))
      && AllKeepUp(After(m, t, acts[0]), TextAfter(t, acts[0]), acts[1..])
  }

  /** A complete set with nothing to repair stays complete. */
  lemma {:induction false} NothingTyped(m: Mode, p: Patch, t: Text, after: Text)
    requires Held(m, t) && IsComplete(m, t) && Rewrites(p, t, after) && (p == [] || Idle(m.matcher, m.query))
    ensures IsComplete(m, after)
  {
    hide Held, Rewrites, Complete;
    if p == [] {
      EmptyPatch(t, after, {});
    } else {
      IdleComplete(m, t, after);
    }
  }

  lemma {:induction false} IdleComplete(m: Mode, t: Text, after: Text)
    requires IsComplete(m, t) && Idle(m.matcher, m.query)
    ensures IsComplete(m, after)
  {}

  /** Of a complete set, a commit the repair keeps up with makes a complete one; with matches that never
      overlap, no other commit does that leaves the scope some text. */
  lemma {:induction false} KeepsUpCompletes(m: Mode, p: Patch, t: Text, after: Text)
    requires Held(m, t) && IsComplete(m, t) && Rewrites(p, t, after) && WellFormed(p) && EditsIn(p, |after|)
    ensures KeepsUp(m, p, after) ==> IsComplete(Rode(m, p, after), after)
    ensures OnePhase(m.matcher, m.query) && !Collapses(p, m.scope) ==>
              (IsComplete(Rode(m, p, after), after) <==> KeepsUp(m, p, after))
  {
    hide Held, IsComplete, Rewrites, WellFormed, EditsIn, OnePhase, Restored, FreshScan, Idle, Settled, Collapses,
         Mode.Ridden, FIND_MATCH_CAP, WithinCap;
    if p == [] || Idle(m.matcher, m.query) {
      NothingTyped(m, p, t, after);
    } else if !Collapses(p, m.scope) {
      CommitCompletes(m, p, t, after);
    }
  }

  lemma {:induction false} AfterCompletes(m: Mode, t: Text, act: Act)
    requires Held(m, t) && IsComplete(m, t) && Received(m, t, act)
    requires act.Typed? ==> (EditsInText(act.patch, t, act.text); KeepsUp(m, act.patch, act.text))
    ensures IsComplete(After(m, t, act), TextAfter(t, act))
  {
    hide Held, IsComplete, Anew, Rode, Rewrites, Configured, KeepsUp;
    HeldParts(m, t);
    ScopeSolid(m, t);
    match act {
      case Typed(p, after) =>
        ReceivedTyped(m, t, p, after);
        KeepsUpCompletes(m, p, t, after);
      case Asked(q, c, at) => AnewCompletes(c, q, m.scope, t, at);
      case Kept(stretch, at) => AnewCompletes(m.matcher, m.query, Wanted(stretch), t, at);
      case Refilled(at) => AnewCompletes(m.matcher, m.query, m.scope, t, at);
      case Stepped(_, _, _) =>
      case Marked(_, _, _) =>
    }
  }

  /** After a run the repair keeps up with, the matches are complete as far as the search says, and, if they
      never overlap, exactly a fresh scan of what it covers. */
  lemma {:induction false} RunCompletes(m: Mode, t: Text, acts: seq<Act>)
    requires Held(m, t) && IsComplete(m, t) && AllReceived(m, t, acts) && AllKeepUp(m, t, acts)
             && RunFrom(m, t, acts).At?
    ensures var (end, last) := (RunFrom(m, t, acts).mode, RunFrom(m, t, acts).text);
            && IsComplete(end, last)
            && (OnePhase(end.matcher, end.query) ==>
                  end.found == FreshScan(end.matcher, end.query, last, end.Covers(|last|)))
    decreases |acts|
  {
    hide Held, IsComplete, After, Received, Fails, OnePhase, FreshScan, KeepsUp;
    if acts == [] {
      if OnePhase(m.matcher, m.query) { CompleteIsList(m, t); }
    } else {
      AfterHolds(m, t, acts[0]);
      AfterCompletes(m, t, acts[0]);
      RunCompletes(After(m, t, acts[0]), TextAfter(t, acts[0]), acts[1..]);
    }
  }

  lemma {:induction false} CompleteIsList(m: Mode, t: Text)
    requires Held(m, t) && IsComplete(m, t) && OnePhase(m.matcher, m.query)
    ensures m.found == FreshScan(m.matcher, m.query, t, m.Covers(|t|))
  {
    hide Held, OnePhase, Configured, Complete, FreshScan, Stored, Bounded, Reach;
    HeldParts(m, t);
    CompleteIsFresh(m.matcher, m.query, t, m.Covers(|t|), m.found);
  }

  // ----- the store and the state follow -----

  /** State and store stand for a search the machine can be in, and the active match is one of its matches. */
  ghost predicate InStep(find: FindState, store: DecorationStore, t: Text)
    reads find, store
  {
    && Held(find.AsMode(store), t) && WholeChars(t) && |t| <= U32_MAX
    && store.Valid() && FindsWell(store.Contents())
    && ActiveLives(store.Contents(), find.active, find.activeStart)
  }

  lemma {:induction false} StepParts(find: FindState, store: DecorationStore, t: Text)
    requires InStep(find, store, t)
    ensures Held(find.AsMode(store), t) && WholeChars(t) && |t| <= U32_MAX
    ensures Configured(find.matcher, find.query)
    ensures store.Valid() && FindsWell(store.Contents()) && EndsBy(FindSet(store.Contents()), U32_MAX)
    ensures ActiveLives(store.Contents(), find.active, find.activeStart)
  {
    hide Held, FindsWell, FindSet, Found, ActiveLives, WholeChars, Configured, Bounded, Stored, Listing, IsStore, Reach;
    HeldParts(find.AsMode(store), t);
    StoreParts(store);
    FoundIsListed(store.Contents());
  }

  lemma {:induction false} StepJoins(find: FindState, store: DecorationStore, t: Text)
    requires Held(find.AsMode(store), t) && WholeChars(t) && |t| <= U32_MAX
    requires store.Valid() && FindsWell(store.Contents())
             && ActiveLives(store.Contents(), find.active, find.activeStart)
    ensures InStep(find, store, t)
  {}

  lemma {:induction false} AddedOther(v: seq<Tracked>, added: Tracked, active: Option<nat>, start: Option<nat>)
    requires Ordered(v) && FindsWell(v) && added.kind != FindMatch && ActiveLives(v, active, start)
    requires Ordered(SortRanges(v + [added]))
    ensures var w := SortRanges(v + [added]);
            FindsWell(w) && Found(w) == Found(v) && ActiveLives(w, active, start)
  {
    hide SortRanges, FindsWell, Ordered, Found;
    var w := SortRanges(v + [added]);
    forall r ensures r in w <==> r in v || r == added { MemberOf(r, w, v + [added]); }
    SameFinds(v, w);
    FoundIsListed(v);
    FoundIsListed(w);
  }

  method Type(find: FindState, store: DecorationStore, p: Patch, after: Text, t: Text) returns (ok: bool)
    requires InStep(find, store, t) && Received(find.AsMode(store), t, Typed(p, after))
    modifies find, store
    ensures ok <==> !old(Fails(find.AsMode(store), t, Typed(p, after)))
    ensures ok ==> InStep(find, store, after)
                   && find.AsMode(store) == old(After(find.AsMode(store), t, Typed(p, after)))
  {
    hide *;
    ghost var m := find.AsMode(store);
    StepParts(find, store, t);
    ReceivedTyped(m, t, p, after);
    ok := find.Commit(p, after, store, t);
    if ok {
      RodeHolds(m, p, t, after);
      StepJoins(find, store, after);
    }
  }

  method Ask(find: FindState, store: DecorationStore, q: Option<Query>, c: Option<Matcher>, at: nat, t: Text)
    requires InStep(find, store, t) && Received(find.AsMode(store), t, Asked(q, c, at))
    modifies find, store
    ensures InStep(find, store, t) && find.AsMode(store) == old(After(find.AsMode(store), t, Asked(q, c, at)))
  {
    hide *;
    ghost var m := find.AsMode(store);
    StepParts(find, store, t);
    find.ModeParts(store);
    find.StandsParts(m);
    AfterHolds(m, t, Asked(q, c, at));
    AfterAsked(m, t, q, c, at);
    find.SetQuery(q, c, t, store, at);
    if q != m.query { NoneLives(store.Contents()); }
    StepJoins(find, store, t);
  }

  lemma {:induction false} AfterAsked(m: Mode, t: Text, q: Option<Query>, c: Option<Matcher>, at: nat)
    requires Received(m, t, Asked(q, c, at))
    ensures Configured(c, q) && (q == m.query ==> c == m.matcher) && TextAfter(t, Asked(q, c, at)) == t
    ensures After(m, t, Asked(q, c, at)) == if q == m.query then m else Anew(c, q, m.scope, t, at)
  {
    hide Anew, Configured;
  }

  method Keep(find: FindState, store: DecorationStore, stretch: Option<Span>, at: nat, t: Text)
    requires InStep(find, store, t)
    modifies find, store
    ensures InStep(find, store, t) && find.AsMode(store) == old(After(find.AsMode(store), t, Kept(stretch, at)))
  {
    hide *;
    ghost var m := find.AsMode(store);
    StepParts(find, store, t);
    find.ModeParts(store);
    find.StandsParts(m);
    AfterKept(m, t, stretch, at);
    AfterHolds(m, t, Kept(stretch, at));
    find.SetScope(stretch, t, store, at);
    StepJoins(find, store, t);
  }

  lemma {:induction false} AfterKept(m: Mode, t: Text, stretch: Option<Span>, at: nat)
    ensures Received(m, t, Kept(stretch, at)) && TextAfter(t, Kept(stretch, at)) == t
    ensures var wanted := if stretch.Some? && stretch.value.start < stretch.value.end then stretch else None;
            After(m, t, Kept(stretch, at)) == if wanted == m.scope then m else Anew(m.matcher, m.query, wanted, t, at)
  {
    hide Anew;
  }

  method Refill(find: FindState, store: DecorationStore, at: nat, t: Text)
    requires InStep(find, store, t)
    modifies find, store
    ensures InStep(find, store, t) && find.AsMode(store) == old(After(find.AsMode(store), t, Refilled(at)))
  {
    hide *;
    ghost var m := find.AsMode(store);
    StepParts(find, store, t);
    find.ModeParts(store);
    find.StandsParts(m);
    AfterRefilled(m, t, at);
    AfterHolds(m, t, Refilled(at));
    var scanned := find.MaybeRescan(t, store, at);
    StepJoins(find, store, t);
  }

  lemma {:induction false} AfterRefilled(m: Mode, t: Text, at: nat)
    ensures Received(m, t, Refilled(at)) && TextAfter(t, Refilled(at)) == t
    ensures After(m, t, Refilled(at))
            == if m.query.Some? && m.capped && m.stale && SatSub(at, m.last) >= FIND_DEBOUNCE
               then Anew(m.matcher, m.query, m.scope, t, at) else m
  {
    hide Anew;
  }

  method Step(find: FindState, store: DecorationStore, head: nat, selection: Span, forward: bool, t: Text)
    requires InStep(find, store, t)
    modifies find, store
    ensures InStep(find, store, t) && find.AsMode(store) == old(find.AsMode(store))
  {
    hide *;
    ghost var m := find.AsMode(store);
    StepParts(find, store, t);
    find.ModeParts(store);
    find.StandsParts(m);
    var r := find.Navigate(head, selection, store, forward);
    find.ModeJoins(store, m);
    StepJoins(find, store, t);
  }

  method Mark(find: FindState, store: DecorationStore, span: Span, kind: Kind, stickiness: Stickiness, t: Text)
    requires InStep(find, store, t) && span.start <= span.end && kind != FindMatch
    modifies store
    ensures InStep(find, store, t) && find.AsMode(store) == old(find.AsMode(store))
  {
    hide *;
    ghost var m := find.AsMode(store);
    StepParts(find, store, t);
    StoreParts(store);
    find.ModeParts(store);
    find.StandsParts(m);
    ghost var v := store.Contents();
    var id := store.AddDecoration(span, kind, stickiness);
    StoreParts(store);
    AddedOther(v, Tracked(id, span.start, span.end, kind, stickiness), find.active, find.activeStart);
    find.ModeJoins(store, m);
    StepJoins(find, store, t);
  }

  /** One act, whatever it is: the search ends where the machine does, or fails where it does. */
  method Take(find: FindState, store: DecorationStore, act: Act, t: Text) returns (ok: bool)
    requires InStep(find, store, t) && Received(find.AsMode(store), t, act)
    modifies find, store
    ensures ok <==> !old(Fails(find.AsMode(store), t, act))
    ensures ok ==>
              InStep(find, store, TextAfter(t, act)) && find.AsMode(store) == old(After(find.AsMode(store), t, act))
  {
    hide InStep, Anew, Rode, Breaks, FindState.AsMode, Rewrites, WholeChars, Configured, Due;
    ok := true;
    match act {
      case Typed(p, after) => ok := Type(find, store, p, after, t);
      case Asked(q, c, at) => Ask(find, store, q, c, at, t);
      case Kept(stretch, at) => Keep(find, store, stretch, at, t);
      case Refilled(at) => Refill(find, store, at, t);
      case Stepped(head, selection, forward) => Step(find, store, head, selection, forward, t);
      case Marked(span, kind, stickiness) => Mark(find, store, span, kind, stickiness, t);
    }
  }

  /** Any run of acts, whatever they are: state and store end where the machine does, matches and flags
      alike, or the run fails where the machine does. */
  method Play(find: FindState, store: DecorationStore, acts: seq<Act>, t: Text) returns (ok: bool)
    requires InStep(find, store, t) && AllReceived(find.AsMode(store), t, acts)
    modifies find, store
    ensures var end := old(RunFrom(find.AsMode(store), t, acts));
            && (ok <==> end.At?)
            && (ok ==> find.AsMode(store) == end.mode && InStep(find, store, end.text))
  {
    hide InStep, Received, After, TextAfter, Fails, FindState.AsMode;
    var now := t;
    ghost var end := RunFrom(find.AsMode(store), t, acts);
    for i := 0 to |acts|
      invariant InStep(find, store, now) && AllReceived(find.AsMode(store), now, acts[i..])
      invariant RunFrom(find.AsMode(store), now, acts[i..]) == end
    {
      assert acts[i..][0] == acts[i] && acts[i..][1..] == acts[i + 1..];
      ok := Take(find, store, acts[i], now);
      if !ok { return; }
      now := TextAfter(now, acts[i]);
    }
    ok := true;
  }

  /** Where a run starts: no query, an empty store. */
  const BEGUN: Mode := Mode(None, None, None, false, false, 0, 0, [])

  lemma {:induction false} BegunHolds(t: Text)
    ensures Held(BEGUN, t) && IsComplete(BEGUN, t)
  {}

  lemma {:induction false} BegunEmpty(v: seq<Tracked>)
    requires v == []
    ensures FindsWell(v) && Found(v) == BEGUN.found
  {}

  method Open(t: Text) returns (find: FindState, store: DecorationStore)
    requires WholeChars(t) && |t| <= U32_MAX
    ensures fresh(find) && fresh(store) && InStep(find, store, t) && find.AsMode(store) == BEGUN
  {
    hide Held, WholeChars, FindsWell, Found, ActiveLives, InStep, IsStore, FindState.AsMode, DecorationStore.Contents;
    BegunHolds(t);
    store := new DecorationStore();
    find := new FindState();
    BegunEmpty(store.Contents());
    NoneLives(store.Contents());
    find.ModeJoins(store, BEGUN);
    StepJoins(find, store, t);
  }

  /** A whole session, from an empty store on. */
  method Session(acts: seq<Act>, t: Text) returns (ok: bool, find: FindState, store: DecorationStore)
    requires WholeChars(t) && |t| <= U32_MAX && AllReceived(BEGUN, t, acts)
    ensures ok <==> RunFrom(BEGUN, t, acts).At?
    ensures ok ==>
              var end := RunFrom(BEGUN, t, acts); find.AsMode(store) == end.mode && InStep(find, store, end.text)
  {
    hide InStep, FindState.AsMode, AllReceived, RunFrom;
    find, store := Open(t);
    ok := Play(find, store, acts, t);
  }
}
