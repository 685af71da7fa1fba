/**
 The document: one buffer, its history and its change log, kept in step by every command.
 */
module Documents {
  import opened Base
  import opened Patches
  import opened EditBatches
  import opened Transactions
  import opened UndoTrees
  import opened UndoPruning
  import opened Histories
  import opened ChangeLogs
  import TextBounds

  class Document {
    const buffer: Buffer
    const history: History
    const changes: ChangeLog

    /** The history stands at the live text, and the log, if it has a start, chains to it. */
    ghost predicate Valid()
      reads this, buffer, history, changes
    {
      && buffer.Valid() && history.Valid() && buffer.text == history.Text()
      && changes.Valid(buffer.text, buffer.revision)
    }

    constructor (t: Text)
      requires Held(t) && |t| < U32_MAX
      ensures Valid() && fresh(buffer) && fresh(history) && fresh(changes) && buffer.text == t && !changes.on
    {
      hide Held;
      buffer := new Buffer(t);
      history := new History(t);
      changes := new ChangeLog();
    }

    /** Apply a batch under a grouping hint: one commit in the buffer, one entry in the log, one record
        in the history.  A failed or empty batch changes nothing. */
    method EditGrouped(ops: Batch, hint: GroupingHint)
      returns (r: Outcome, ghost pruned: bool, ghost base: nat, ghost order: seq<nat>)
      requires Valid() && forall i | 0 <= i < |ops| :: TextBounds.WholeChars(ops[i].text)
      modifies buffer, history, changes
      ensures Valid() && history.meaning.saved == old(history.meaning.saved)
      ensures !r.Committed? || r.forward == [] ==>
                buffer.text == old(buffer.text) && buffer.revision == old(buffer.revision)
                && history.AsState() == old(history.AsState())
                && changes.from == old(changes.from) && changes.entries == old(changes.entries)
      ensures r.Committed? && r.forward != [] ==>
                Ready(old(buffer.text), r.forward) && buffer.text == Applied(old(buffer.text), r.forward)
                && buffer.revision == old(buffer.revision) + 1 && Rewrites(r.patch, old(buffer.text), buffer.text)
      ensures r.Committed? && r.forward != [] ==>
                && old(history.current) < |old(history.nodes)|
                && if pruned then Follows(Recorded(old(history.AsState()), r.forward, r.inverse, hint),
                                          history.AsState(), base, order)
                   else history.AsState() == Recorded(old(history.AsState()), r.forward, r.inverse, hint)
      ensures changes.on == old(changes.on)
      ensures r.Committed? && r.forward != [] ==>
                (changes.from, changes.entries)
                == Logged(old(changes.from), old(changes.entries),
                          [Landing(old(buffer.text), old(buffer.revision), r.forward)])
    {
      pruned, base, order := false, 0, [];
      hide Logged, Rewrites, Ready, Applied, Inverts, Held, Good, IsChain, Recorded, Depth, Follows, CleanOp,
           InOrder, Normal, SortOps, FirstOverlap, Growth, PatchOf;
      ghost var was := buffer.text;
      var before := changes.Capture(buffer);
      r := buffer.Apply(ops);
      if r.Committed? && r.forward != [] {
        ReadyOrder(was, r.forward);
        LogCommit(before, r.forward, was, old(buffer.revision));
        pruned, base, order := history.Record(r.forward, r.inverse, hint);
      }
    }

    /** Record one commit, if a snapshot was taken for it. */
    method LogCommit(before: Option<Snapshot>, applied: Batch, ghost live: Text, ghost rev: nat)
      requires changes.Valid(live, rev) && InOrder(applied, 0, |live|)
      requires before == if changes.on && changes.from.Some? then Some(Snapshot(live, rev)) else None
      modifies changes
      ensures changes.Valid(Applied(live, applied), rev + 1) && changes.on == old(changes.on)
      ensures (changes.from, changes.entries)
              == Logged(old(changes.from), old(changes.entries), [Landing(live, rev, applied)])
    {
      hide IsChain, Applied, InOrder, Logged;
      ghost var one := [Landing(live, rev, applied)];
      assert one[0..] == one && one[1..] == [];
      LoggedStep(changes.from, changes.entries, one, 0);
      LoggedNothing(changes.from, changes.entries);
      LoggedNothing(None, []);
      if before.Some? {
        changes.Record(before.value, applied);
        LoggedNothing(changes.from, changes.entries);
      } else {
        StillBroken(changes, live, rev, Applied(live, applied), rev + 1);
      }
    }

    /** Record each replayed step. */
    method LogTrail(trail: seq<Landing>, logging: bool, ghost t0: Text, ghost rev0: nat, ghost target: Text)
      requires changes.Valid(t0, rev0) && Chain(trail, t0, rev0, target)
      requires logging == (changes.on && changes.from.Some?)
      modifies changes
      ensures changes.Valid(target, rev0 + |trail|) && changes.on == old(changes.on)
      ensures (changes.from, changes.entries) == Logged(old(changes.from), old(changes.entries), trail)
    {
      hide IsChain, Applied, CleanOp, InOrder, Chain;
      if !logging {
        StillBroken(changes, t0, rev0, target, rev0 + |trail|);
        return;
      }
      ghost var t := t0;
      assert trail[0..] == trail;
      for i := 0 to |trail|
        invariant changes.Valid(t, rev0 + i) && Chain(trail[i..], t, rev0 + i, target) && changes.on == old(changes.on)
        invariant Logged(changes.from, changes.entries, trail[i..]) == Logged(old(changes.from), old(changes.entries),
                  trail)
      {
        LoggedStep(changes.from, changes.entries, trail, i);
        ChainHead(trail, i, t, rev0 + i, target);
        changes.Record(Snapshot(trail[i].before, trail[i].revision), trail[i].applied);
        t := Applied(t, trail[i].applied);
      }
      ChainEnd(trail[|trail|..], t, rev0 + |trail|, target);
    }

    /** Undo, the open undo unit sealed first: each reverted step is a commit of its own, and is logged as
        one. */
    method Undo() returns (done: bool, ghost trail: seq<Landing>)
      requires Valid()
      modifies buffer, history, changes
      ensures Chain(trail, old(buffer.text), old(buffer.revision), buffer.text)
      ensures changes.on == old(changes.on)
      ensures (changes.from, changes.entries) == Logged(old(changes.from), old(changes.entries), trail)
      ensures Valid() && history.meaning == old(history.meaning) && done == (old(history.current) != 0)
      ensures IsTree(old(history.nodes)) && old(history.current) < |old(history.nodes)|
              && history.AsState() == Undone(old(history.AsState()).(isOpen := false))
    {
      hide IsChain, Good, Held, Chain, IsTree, Undone;
      history.Seal();
      var before := changes.Capture(buffer);
      ghost var t0, rev0 := buffer.text, buffer.revision;
      var steps;
      done, steps := history.Undo(buffer);
      trail := steps;
      LogTrail(steps, before.Some?, t0, rev0, buffer.text);
    }

    /** Redo, the mirror. */
    method Redo() returns (done: bool, ghost trail: seq<Landing>)
      requires Valid()
      modifies buffer, history, changes
      ensures Chain(trail, old(buffer.text), old(buffer.revision), buffer.text)
      ensures changes.on == old(changes.on)
      ensures (changes.from, changes.entries) == Logged(old(changes.from), old(changes.entries), trail)
      ensures Valid() && history.meaning == old(history.meaning)
      ensures IsTree(old(history.nodes)) && old(history.current) < |old(history.nodes)|
              && history.AsState() == Redone(old(history.AsState()).(isOpen := false))
      ensures done == old(history.nodes[history.current].preferred.Some?)
    {
      hide IsChain, Good, Held, Chain, IsTree, Redone;
      history.Seal();
      var before := changes.Capture(buffer);
      ghost var t0, rev0 := buffer.text, buffer.revision;
      var steps;
      done, steps := history.Redo(buffer);
      trail := steps;
      LogTrail(steps, before.Some?, t0, rev0, buffer.text);
    }

    /** Turn the change log on or off. */
    method ObserveChanges(on: bool)
      requires Valid()
      modifies changes
      ensures Valid() && changes.on == on && changes.entries == []
      ensures changes.from == if on then Some(buffer.revision) else None
    {
      hide IsChain, Good, Held;
      changes.Set(on, buffer.text, buffer.revision);
    }

    /** Drain the log: when a start is named, the entries chain from it to the live document. */
    method DrainChanges() returns (c: Changes)
      requires Valid()
      modifies changes
      ensures Valid() && changes.on == old(changes.on) && changes.entries == []
      ensures changes.from == if changes.on then Some(buffer.revision) else None
      ensures c == Changes(old(changes.from), old(changes.entries))
      ensures c.from.Some? ==> IsChain(c.entries, c.from.value, buffer.text, buffer.revision)
      ensures c.from.None? ==> c.entries == []
    {
      hide IsChain, Good, Held;
      c := changes.Drain(buffer.text, buffer.revision);
    }

    /** How many redo branches part from the current position. */
    method RedoBranchCount() returns (n: nat)
      requires Valid()
      ensures history.current < |history.nodes| && n == |history.nodes[history.current].children|
    {
      hide IsChain, Good, Held;
      n := history.RedoBranchCount();
    }

    /** Steer the next redo to a branch; an index out of range is refused and changes nothing. */
    method SelectRedoBranch(index: nat) returns (done: bool)
      requires Valid()
      modifies history
      ensures Valid() && history.meaning == old(history.meaning)
      ensures old(history.current) < |old(history.nodes)|
              && history.AsState() == Selected(old(history.AsState()), index)
      ensures done == (index < |old(history.nodes[history.current].children)|)
    {
      hide IsChain, Good, Held, IsTree, Selected;
      done := history.SelectRedoBranch(index);
    }

    /** A caret move, a click or a jump: the open undo group takes no more edits. */
    method SealUndo()
      requires Valid()
      modifies history
      ensures Valid() && history.meaning == old(history.meaning)
      ensures history.AsState() == old(history.AsState()).(isOpen := false)
    {
      hide IsChain, Good, Held;
      history.Seal();
    }

    /** Bound the undo depth, pruning at once as far as the bound asks; the text and what was saved stay. */
    method SetUndoLimit(limit: Option<nat>) returns (ghost pruned: bool, ghost base: nat, ghost order: seq<nat>)
      requires Valid()
      modifies history
      ensures Valid() && history.meaning.saved == old(history.meaning.saved)
      ensures history.maxUndo == limit
              && pruned == (limit.Some? && old(Depth(history.nodes, history.current)) > limit.value)
      ensures var was := old(history.AsState()).(maxUndo := limit);
              if pruned then Follows(was, history.AsState(), base, order)
                && Depth(history.nodes, history.current) == limit.value
              else history.AsState() == was
    {
      hide IsChain, Good, Held, Depth, Follows;
      pruned, base, order := history.SetMaxUndo(limit);
    }

    /** Make the live text the saved one. */
    method MarkSaved()
      requires Valid()
      modifies history
      ensures Valid() && history.meaning.saved == buffer.text
    {
      hide IsChain, Good, Held;
      history.MarkSaved();
    }

    /** Dirty is a difference of version identities; if the document is not, its text is the text last
        saved. */
    method IsDirty() returns (dirty: bool)
      requires Valid()
      ensures dirty == (history.alt != history.savedAlt)
      ensures !dirty ==> buffer.text == history.meaning.saved
    {
      hide IsChain, Good, Held;
      dirty := history.IsDirty();
    }
  }

  /** What a log holds after recording some replayed steps: a full log breaks and stays broken. */
  function Logged(from: Option<nat>, entries: seq<Change>, trail: seq<Landing>): (Option<nat>, seq<Change>)
    decreases |trail|
  {
    if trail == [] || from.None? then (from, entries)
    else if |entries| >= CHANGE_LOG_CAP then (None, [])
    else
      var step := trail[0];
      Logged(from, entries + [Change(Snapshot(step.before, step.revision), Reversed(step.applied))], trail[1..])
  }

  lemma {:induction false} StillBroken(log: ChangeLog, t: Text, rev: nat, t': Text, rev': nat)
    requires log.Valid(t, rev) && !(log.on && log.from.Some?)
    ensures log.Valid(t', rev')
  {}

  lemma {:induction false} ChainHead(trail: seq<Landing>, i: nat, t: Text, rev: nat, target: Text)
    requires i < |trail| && Chain(trail[i..], t, rev, target)
    ensures trail[i].before == t && trail[i].revision == rev && Ready(t, trail[i].applied)
            && InOrder(trail[i].applied, 0, |t|)
    ensures Chain(trail[i + 1..], Applied(t, trail[i].applied), rev + 1, target)
  {
    assert trail[i..][1..] == trail[i + 1..];
  }

  lemma {:induction false} LoggedNothing(from: Option<nat>, entries: seq<Change>)
    ensures Logged(from, entries, []) == (from, entries)
  {}

  lemma {:induction false} LoggedStep(from: Option<nat>, entries: seq<Change>, trail: seq<Landing>, i: nat)
    requires i < |trail| && (from.None? ==> entries == [])
    ensures var step := trail[i];
            Logged(from, entries, trail[i..])
            == if from.None? || |entries| >= CHANGE_LOG_CAP then Logged(None, [], trail[i + 1..])
               else Logged(from, entries + [Change(Snapshot(step.before, step.revision), Reversed(step.applied))],
                           trail[i + 1..])
  {
    assert trail[i..][1..] == trail[i + 1..];
  }

  lemma {:induction false} ChainEnd(trail: seq<Landing>, t: Text, rev: nat, target: Text)
    requires trail == [] && Chain(trail, t, rev, target)
    ensures t == target
  {}
}
