/**
 Undo, redo, branches, grouping and dirtiness over a live buffer.
 */
module Histories {
  import opened Base
  import opened EditBatches
  import opened Transactions
  import opened UndoTrees
  import opened UndoPruning
  import TextBounds

  // ----- replaying -----

  /** One replayed step, as an observer sees it: the text and revision it started from, and the batch
      it applied. */
  datatype Landing = Landing(before: Text, revision: nat, applied: Batch)

  /** The batches lead from `t` to `r`. */
  ghost predicate Leads(t: Text, batches: seq<Batch>, r: Text)
    decreases |batches|
  {
    if batches == [] then r == t
    else Ready(t, batches[0]) && |Applied(t, batches[0])| < U32_MAX && Leads(Applied(t, batches[0]), batches[1..], r)
  }

  /** The landings form a chain from `t` at revision `rev` to `r`. */
  ghost predicate Chain(trail: seq<Landing>, t: Text, rev: nat, r: Text)
    decreases |trail|
  {
    if trail == [] then r == t
    else
      && trail[0].before == t && trail[0].revision == rev && Ready(t, trail[0].applied)
      && Chain(trail[1..], Applied(t, trail[0].applied), rev + 1, r)
  }

  lemma {:induction false} ChainOn(trail: seq<Landing>, t: Text, rev: nat, m: Text, l: Landing)
    requires Chain(trail, t, rev, m) && l.before == m && l.revision == rev + |trail| && Ready(m, l.applied)
    ensures Chain(trail + [l], t, rev, Applied(m, l.applied))
    decreases |trail|
  {
    hide CleanOp, InOrder, Applied;
    if trail == [] {
      assert [] + [l] == [l] && [l][1..] == [];
    } else {
      assert (trail + [l])[1..] == trail[1..] + [l];
      ChainOn(trail[1..], Applied(t, trail[0].applied), rev + 1, m, l);
    }
  }

  lemma {:induction false} LeadsConcat(t: Text, a: seq<Batch>, b: seq<Batch>, m: Text, r: Text)
    requires Leads(t, a, m) && Leads(m, b, r)
    ensures Leads(t, a + b, r)
    decreases |a|
  {
    hide CleanOp, InOrder, Applied;
    if a == [] {
      assert a + b == b;
    } else {
      assert (a + b)[1..] == a[1..] + b;
      LeadsConcat(Applied(t, a[0]), a[1..], b, m, r);
    }
  }

  /** A unit's forward batches redo it. */
  lemma {:induction false} ForwardsLead(t: Text, steps: seq<Step>, r: Text)
    requires StepsLead(t, steps, r)
    ensures Leads(t, Forwards(steps), r)
    decreases |steps|
  {
    hide CleanOp, InOrder, Applied, Inverts;
    if steps != [] {
      ForwardsLead(Applied(t, steps[0].forward), steps[1..], r);
      assert Forwards(steps)[1..] == Forwards(steps[1..]);
    }
  }

  /** A unit's inverse batches, newest first, undo it. */
  lemma {:induction false} InversesLead(t: Text, steps: seq<Step>, r: Text)
    requires StepsLead(t, steps, r) && Held(t) && |t| < U32_MAX
    ensures Leads(r, Inverses(steps), t)
    decreases |steps|
  {
    hide CleanOp, InOrder, Applied, Inverts, Held;
    if steps != [] {
      var s := steps[0];
      ApplyThenUndo(t, s.forward, s.inverse);
      InversesLead(Applied(t, s.forward), steps[1..], r);
      assert [s.inverse][1..] == [];
      assert Leads(Applied(t, s.forward), [s.inverse], t);
      LeadsConcat(r, Inverses(steps[1..]), [s.inverse], Applied(t, s.forward), t);
    }
  }

  lemma {:induction false} LeadsUnfold(t: Text, batches: seq<Batch>, r: Text)
    requires Leads(t, batches, r)
    ensures batches == [] ==> r == t
    ensures batches != [] ==> Ready(t, batches[0]) && InOrder(batches[0], 0, |t|) && |Applied(t, batches[0])| < U32_MAX
                              && Leads(Applied(t, batches[0]), batches[1..], r)
  {}

  lemma {:induction false} ReadyTexts(t: Text, ops: Batch)
    requires Ready(t, ops)
    ensures ops != [] && forall i | 0 <= i < |ops| :: WholeCharsOf(ops[i])
  {}

  ghost predicate WholeCharsOf(op: EditOp) { TextBounds.WholeChars(op.text) }

  /** Apply each batch in order, through the one engine. */
  method Replay(buffer: Buffer, batches: seq<Batch>, ghost target: Text) returns (trail: seq<Landing>)
    requires buffer.Valid() && Leads(buffer.text, batches, target)
    modifies buffer
    ensures buffer.Valid() && buffer.text == target && buffer.revision == old(buffer.revision) + |batches|
    ensures |trail| == |batches| && Chain(trail, old(buffer.text), old(buffer.revision), target)
  {
    hide Ready, Applied, CleanOp, InOrder, Normal, SortOps, FirstOverlap, Growth, Leads, Inverts;
    ghost var t0, rev0 := buffer.text, buffer.revision;
    trail := [];
    assert batches[0..] == batches;
    for i := 0 to |batches|
      invariant buffer.Valid() && Leads(buffer.text, batches[i..], target)
      invariant buffer.revision == rev0 + i && |trail| == i
      invariant Chain(trail, t0, rev0, buffer.text)
    {
      var was, rev := buffer.text, buffer.revision;
      assert batches[i..][0] == batches[i] && batches[i..][1..] == batches[i + 1..];
      LeadsUnfold(was, batches[i..], target);
      ReadyTexts(was, batches[i]);
      ReadyCommits(was, batches[i]);
      var r := buffer.Apply(batches[i]);
      ChainOn(trail, t0, rev0, was, Landing(was, rev, batches[i]));
      trail := trail + [Landing(was, rev, r.forward)];
    }
    LeadsUnfold(buffer.text, batches[|batches|..], target);
  }

  // ----- the line to the base -----

  lemma {:induction false} DepthStep(ns: Arena, i: nat)
    requires IsTree(ns) && 0 < i < |ns|
    ensures ns[i].parent.Some? && ns[i].parent.value < i && Depth(ns, i) == 1 + Depth(ns, ns[i].parent.value)
  {
    hide IsTree;
    ParentOf(ns, i);
  }

  /** `up` steps above `i`, on the line to the base. */
  lemma {:induction false} OnLineUp(ns: Arena, at: nat, i: nat)
    requires IsTree(ns) && i < |ns| && 0 < at && OnLine(ns, at, i)
    ensures at < |ns| && ns[at].parent.Some? && OnLine(ns, ns[at].parent.value, i)
    decreases i
  {
    hide IsTree;
    if at == i {
      ParentOf(ns, i);
      assert OnLine(ns, ns[at].parent.value, ns[at].parent.value);
    } else {
      if ns[i].parent.Some? { OnLineUp(ns, at, ns[i].parent.value); }
      LineAboveBase(ns, ns[at].parent.value, ns[i].parent.value);
    }
  }

  /** The node `steps` above `from`. */
  method Ancestor(ns: Arena, from: nat, steps: nat) returns (up: nat)
    requires IsTree(ns) && from < |ns| && steps < Depth(ns, from)
    ensures up < |ns| && OnLine(ns, up, from) && Depth(ns, up) + steps == Depth(ns, from)
  {
    hide IsTree;
    up := from;
    for i := 0 to steps
      invariant up < |ns| && OnLine(ns, up, from) && Depth(ns, up) + i == Depth(ns, from)
    {
      DepthAbove(ns, up);
      DepthStep(ns, up);
      OnLineUp(ns, up, from);
      up := ns[up].parent.value;
    }
  }

  lemma {:induction false} DepthAbove(ns: Arena, i: nat)
    requires Depth(ns, i) > 0
    ensures 0 < i < |ns|
  {}

  lemma {:induction false} MeantLength(ns: Arena, m: Meaning)
    requires Meant(ns, m)
    ensures |m.texts| == |ns|
  {}

  lemma {:induction false} InTree(s: State, m: Meaning)
    requires Good(s, m)
    ensures IsTree(s.nodes) && s.current < |s.nodes| == |m.texts| && Held(m.texts[s.current])
            && |m.texts[s.current]| < U32_MAX
  {
    hide IsTree, Held;
  }

  lemma {:induction false} MaxUndoFree(s: State, m: Meaning, limit: Option<nat>)
    requires Good(s, m)
    ensures Good(s.(maxUndo := limit), m)
  {
    hide IsTree, Meant, PreferredLine, Versioned, SavedIs;
  }

  lemma {:induction false} RecordedText(s: State, m: Meaning, after: Text, forward: Batch, inverse: Batch,
                                        hint: GroupingHint)
    requires s.current < |s.nodes| == |m.texts|
    ensures var n := RecordedMeaning(s, m, after, hint); var r := Recorded(s, forward, inverse, hint);
            r.current < |n.texts| && n.texts[r.current] == after && n.saved == m.saved && r.maxUndo == s.maxUndo
  {}

  /** The fields after recording are those of the recorded state. */
  lemma {:induction false} RecordedFields(s: State, forward: Batch, inverse: Batch, hint: GroupingHint, r: State)
    requires s.current < |s.nodes| && r.savedAlt == s.savedAlt && r.maxUndo == s.maxUndo
    requires r.alt == r.altSeq == s.altSeq + 1 && r.isOpen == !hint.sealAfter
    requires var wasOpen := s.isOpen && !hint.sealBefore;
             var node := s.nodes[s.current];
             if wasOpen && hint.op != Other && node.elem.Some? && node.elem.value.op == hint.op then
               && r.current == s.current
               && r.nodes == s.nodes[s.current := node.(elem :=
                    Some(node.elem.value.(steps := node.elem.value.steps + [Step(forward, inverse)],
                                          altAfter := r.alt)))]
             else
               && r.current == |s.nodes|
               && r.nodes == s.nodes[s.current := node.(children := node.children + [|s.nodes|],
                                                        preferred := Some(|s.nodes|))]
                             + [UndoNode(Some(s.current), [], None,
                                         Some(Element([Step(forward, inverse)], hint.op, s.alt, r.alt)))]
    ensures r == Recorded(s, forward, inverse, hint)
  {}

  lemma {:induction false} ReadyOrder(t: Text, ops: Batch)
    requires Ready(t, ops)
    ensures InOrder(ops, 0, |t|)
  {}

  lemma {:induction false} NoSteps(t: Text, rev: nat)
    ensures Chain([], t, rev, t)
  {}

  lemma {:induction false} UndoLeads(s: State, m: Meaning)
    requires Good(s, m) && s.current > 0
    ensures s.nodes[s.current].elem.Some? && s.nodes[s.current].parent.Some?
            && s.nodes[s.current].parent.value < |m.texts| == |s.nodes|
    ensures Leads(m.texts[s.current], Inverses(s.nodes[s.current].elem.value.steps),
                  m.texts[s.nodes[s.current].parent.value])
  {
    hide IsTree, StepsLead, Held, Inverses, Leads, PreferredLine, Versioned, SavedIs;
    ParentOf(s.nodes, s.current);
    EdgeOf(s.nodes, m, s.current);
    InversesLead(m.texts[s.nodes[s.current].parent.value], s.nodes[s.current].elem.value.steps, m.texts[s.current]);
  }

  lemma {:induction false} RedoLeads(s: State, m: Meaning)
    requires Good(s, m) && s.nodes[s.current].preferred.Some?
    ensures var c := s.nodes[s.current].preferred.value;
            && c < |s.nodes| == |m.texts| && s.nodes[c].elem.Some?
            && Leads(m.texts[s.current], Forwards(s.nodes[c].elem.value.steps), m.texts[c])
  {
    hide IsTree, StepsLead, Held, Forwards, Leads, PreferredLine, Versioned, SavedIs;
    var c := s.nodes[s.current].preferred.value;
    LinkOf(s.nodes, s.current);
    ChildOf(s.nodes, s.current, c);
    EdgeOf(s.nodes, m, c);
    ForwardsLead(m.texts[s.current], s.nodes[c].elem.value.steps, m.texts[c]);
  }

  // ----- the history -----

  class History {
    var nodes: Arena
    var current: nat
    var isOpen: bool
    var alt: nat
    var altSeq: nat
    var savedAlt: nat
    var maxUndo: Option<nat>

    /** What the nodes stand for. */
    ghost var meaning: Meaning

    ghost function AsState(): State
      reads this
    {
      State(nodes, current, isOpen, alt, altSeq, savedAlt, maxUndo)
    }

    ghost predicate Valid()
      reads this
    {
      Good(AsState(), meaning)
    }

    /** The text at the current node. */
    ghost function Text(): Text
      requires Valid()
      reads this
    {
      meaning.texts[current]
    }

    constructor (t: Base.Text)
      requires Held(t) && |t| < U32_MAX
      ensures Valid() && Text() == t && meaning.saved == t && current == 0 && alt == 0 == savedAlt && maxUndo == None
      ensures |nodes| == 1 && nodes[0] == UndoNode(None, [], None, None)
    {
      hide Held;
      nodes := [UndoNode(None, [], None, None)];
      current, isOpen, alt, altSeq, savedAlt, maxUndo := 0, false, 0, 0, 0, None;
      meaning := Meaning([t], 0, t);
      new;
      assert Linked(nodes, 0);
      assert Edge(nodes, meaning, 0);
    }

    /** How many units can be undone. */
    method UndoDepth() returns (depth: nat)
      requires Valid()
      ensures depth == Depth(nodes, current)
    {
      hide IsTree, Meant, PreferredLine, Versioned, SavedIs;
      depth := 0;
      var node: nat := current;
      while nodes[node].parent.Some?
        invariant node < |nodes| && depth + Depth(nodes, node) == Depth(nodes, current)
        decreases node
      {
        LinkOf(nodes, node);
        DepthStep(nodes, node);
        node := nodes[node].parent.value;
        depth := depth + 1;
      }
      LinkOf(nodes, node);
      if node > 0 { ParentOf(nodes, node); }
    }

    /** Drop the oldest units so that at most the limit can be undone. */
    method PruneIfNeeded() returns (ghost pruned: bool, ghost base: nat, ghost order: seq<nat>)
      requires Valid()
      modifies this
      ensures Valid() && Text() == old(Text()) && meaning.saved == old(meaning.saved)
      ensures maxUndo == old(maxUndo)
      ensures pruned == (maxUndo.Some? && old(Depth(nodes, current)) > maxUndo.value)
      ensures if pruned then Follows(old(AsState()), AsState(), base, order) && Depth(nodes, current) == maxUndo.value
              else AsState() == old(AsState())
    {
      hide Text, Depth, Follows, IsTree, OnLine;
      pruned, base, order := false, 0, [];
      if maxUndo.None? { return; }
      var max := maxUndo.value;
      var depth := UndoDepth();
      if depth <= max { return; }
      var newBase := Ancestor(nodes, current, max);
      pruned, base := true, newBase;
      order := RebuildFrom(newBase);
    }

    /** Keep only the subtree under `newBase`, renumbered densely. */
    method RebuildFrom(newBase: nat) returns (ghost order: seq<nat>)
      requires Valid() && newBase < |nodes| && OnLine(nodes, newBase, current)
      modifies this
      ensures Valid() && Text() == old(Text()) && meaning.saved == old(meaning.saved)
      ensures maxUndo == old(maxUndo)
      ensures Follows(old(AsState()), AsState(), newBase, order)
      ensures old(Depth(nodes, current)) == old(Depth(nodes, newBase)) + Depth(nodes, current)
    {
      hide IsTree, Meant, PreferredLine, Versioned, SavedIs, SubtreeOrder, Depth, OnLine;
      var listed, remap := ListSubtree(nodes, newBase);
      order := listed;
      PrunedGood(AsState(), meaning, newBase, order);
      MeantLength(nodes, meaning);
      meaning := RebuiltMeaning(nodes, meaning, order);
      var newNodes := RebuildArena(nodes, newBase, listed, remap);
      current := remap[current].value;
      nodes := newNodes;
    }

    /** Set the reach of undo, and prune to it at once. */
    method SetMaxUndo(limit: Option<nat>) returns (ghost pruned: bool, ghost base: nat, ghost order: seq<nat>)
      requires Valid()
      modifies this
      ensures Valid() && Text() == old(Text()) && meaning.saved == old(meaning.saved)
      ensures maxUndo == limit && pruned == (limit.Some? && old(Depth(nodes, current)) > limit.value)
      ensures var was := old(AsState()).(maxUndo := limit);
              if pruned then Follows(was, AsState(), base, order) && Depth(nodes, current) == limit.value
              else AsState() == was
    {
      hide Depth, Good, Follows;
      ghost var was := AsState();
      MaxUndoFree(was, meaning, limit);
      maxUndo := limit;
      pruned, base, order := PruneIfNeeded();
    }

    /** Record a committed transaction, merging it into the open unit if their classes match. */
    method Record(forward: Batch, inverse: Batch, hint: GroupingHint)
      returns (ghost pruned: bool, ghost base: nat, ghost order: seq<nat>)
      requires Valid() && Ready(Text(), forward) && Inverts(Text(), forward, inverse)
               && |Applied(Text(), forward)| < U32_MAX
      modifies this
      ensures Valid() && Text() == old(Applied(Text(), forward)) && meaning.saved == old(meaning.saved)
      ensures maxUndo == old(maxUndo) && (maxUndo.Some? ==> Depth(nodes, current) <= maxUndo.value)
      ensures old(current) < |old(nodes)| && (pruned ==> maxUndo.Some? && Depth(nodes, current) == maxUndo.value)
      ensures if pruned then Follows(Recorded(old(AsState()), forward, inverse, hint), AsState(), base, order)
              else AsState() == Recorded(old(AsState()), forward, inverse, hint)
    {
      hide Ready, Inverts, Applied, InOrder, Depth, Follows, Recorded, Good, IsTree, Held, RecordedMeaning;
      ghost var was, m := AsState(), meaning;
      InTree(was, m);
      ReadyOrder(m.texts[was.current], forward);
      RecordedGood(was, m, forward, inverse, hint);
      RecordedText(was, m, Applied(m.texts[was.current], forward), forward, inverse, hint);
      if hint.sealBefore { isOpen := false; }
      var altBefore := alt;
      altSeq := altSeq + 1;
      alt := altSeq;
      var step := Step(forward, inverse);
      var canMerge := isOpen && hint.op != Other && nodes[current].elem.Some?
        && nodes[current].elem.value.op == hint.op;
      if canMerge {
        var e := nodes[current].elem.value;
        nodes := nodes[current := nodes[current].(elem := Some(e.(steps := e.steps + [step], altAfter := alt)))];
      } else {
        var parent, newId := current, |nodes|;
        var linked := nodes[parent].(children := nodes[parent].children + [newId], preferred := Some(newId));
        nodes := nodes[parent := linked] + [UndoNode(Some(parent), [], None,
                                                     Some(Element([step], hint.op, altBefore, alt)))];
        current := newId;
        isOpen := true;
      }
      if hint.sealAfter { isOpen := false; }
      meaning := RecordedMeaning(was, m, Applied(m.texts[was.current], forward), hint);
      RecordedFields(was, forward, inverse, hint, AsState());
      pruned, base, order := PruneIfNeeded();
    }

    /** Revert the unit at the current node and move to its parent. */
    method Undo(buffer: Buffer) returns (done: bool, trail: seq<Landing>)
      requires Valid() && buffer.Valid() && buffer.text == Text()
      modifies this`current, this`alt, this`isOpen, buffer
      ensures Valid() && buffer.Valid() && buffer.text == Text() && meaning == old(meaning)
      ensures done == (old(current) != 0)
      ensures IsTree(old(nodes)) && old(current) < |old(nodes)| && AsState() == Undone(old(AsState()))
      ensures Chain(trail, old(buffer.text), old(buffer.revision), buffer.text)
      ensures buffer.revision == old(buffer.revision) + |trail|
    {
      hide IsTree, Chain, Good, Held, Leads, Inverses;
      ghost var was := AsState();
      InTree(was, meaning);
      UndoneGood(was, meaning);
      if current == 0 {
        NoSteps(buffer.text, buffer.revision);
        return false, [];
      }
      ParentOf(nodes, current);
      UndoLeads(was, meaning);
      var elem := nodes[current].elem.value;
      var parent := nodes[current].parent.value;
      var batches := Inverses(elem.steps);
      trail := Replay(buffer, batches, meaning.texts[parent]);
      current := parent;
      alt := elem.altBefore;
      isOpen := false;
      done := true;
    }

    /** Replay the preferred child's unit and move there. */
    method Redo(buffer: Buffer) returns (done: bool, trail: seq<Landing>)
      requires Valid() && buffer.Valid() && buffer.text == Text()
      modifies this`current, this`alt, this`isOpen, buffer
      ensures Valid() && buffer.Valid() && buffer.text == Text() && meaning == old(meaning)
      ensures IsTree(old(nodes)) && old(current) < |old(nodes)| && AsState() == Redone(old(AsState()))
      ensures done == old(nodes[current].preferred.Some?)
      ensures Chain(trail, old(buffer.text), old(buffer.revision), buffer.text)
      ensures buffer.revision == old(buffer.revision) + |trail|
    {
      hide IsTree, Chain, Good, Held, Leads, Forwards;
      ghost var was := AsState();
      InTree(was, meaning);
      RedoneGood(was, meaning);
      if nodes[current].preferred.None? {
        NoSteps(buffer.text, buffer.revision);
        return false, [];
      }
      var child := nodes[current].preferred.value;
      RedoLeads(was, meaning);
      var elem := nodes[child].elem.value;
      var batches := Forwards(elem.steps);
      trail := Replay(buffer, batches, meaning.texts[child]);
      current := child;
      alt := elem.altAfter;
      isOpen := false;
      done := true;
    }

    /** How many branches can be redone. */
    method RedoBranchCount() returns (n: nat)
      requires Valid()
      ensures current < |nodes| && n == |nodes[current].children|
    {
      hide Good, IsTree, Held;
      InTree(AsState(), meaning);
      n := |nodes[current].children|;
    }

    /** Steer the next redo to a branch. */
    method SelectRedoBranch(index: nat) returns (done: bool)
      requires Valid()
      modifies this`nodes
      ensures Valid() && Text() == old(Text()) && meaning == old(meaning)
      ensures old(current) < |old(nodes)| && AsState() == Selected(old(AsState()), index)
      ensures done == (index < |old(nodes[current].children)|)
      ensures done ==> nodes[current].preferred == Some(old(nodes[current].children)[index])
    {
      hide Good, IsTree, Held;
      ghost var was := AsState();
      InTree(was, meaning);
      SelectedGood(was, meaning, index);
      if index >= |nodes[current].children| { return false; }
      var child := nodes[current].children[index];
      nodes := nodes[current := nodes[current].(preferred := Some(child))];
      return true;
    }

    /** Close the open unit. */
    method Seal()
      requires Valid()
      modifies this`isOpen
      ensures Valid() && Text() == old(Text()) && AsState() == old(AsState()).(isOpen := false)
    {
      hide IsTree, Meant, PreferredLine, Versioned, SavedIs;
      isOpen := false;
    }

    /** Whether the document differs from the last save point; if not, its text is the text last
        saved. */
    method IsDirty() returns (dirty: bool)
      requires Valid()
      ensures dirty == (alt != savedAlt)
      ensures !dirty ==> Text() == meaning.saved
    {
      hide Good;
      dirty := alt != savedAlt;
      if !dirty { CleanIsSaved(AsState(), meaning); }
    }

    /** Make the current state the save point. */
    method MarkSaved()
      requires Valid()
      modifies this`savedAlt, this`meaning
      ensures Valid() && Text() == old(Text()) && meaning.saved == Text()
      ensures AsState() == old(AsState()).(savedAlt := alt)
    {
      hide Good, IsTree, Held;
      InTree(AsState(), meaning);
      SavedGood(AsState(), meaning);
      meaning := meaning.(saved := meaning.texts[current]);
      savedAlt := alt;
    }
  }

  /** Build the renumbered arena. */
  method RebuildArena(ns: Arena, base: nat, order: seq<nat>, remap: seq<Option<nat>>) returns (r: Arena)
    requires IsTree(ns) && SubtreeOrder(ns, base, order) && InArena(ns, order) && |remap| == |ns|
    requires forall x | x in order :: x < |ns| && remap[x] == Some(IndexOf(order, x))
    ensures r == Rebuild(ns, order)
  {
    hide IsTree, SubtreeOrder, Renumber, IndexOf, ParentEarlier;
    r := [];
    for k := 0 to |order|
      invariant |r| == k && forall j | 0 <= j < k :: r[j] == NodeFrom(ns, order, j)
    {
      var node := ns[order[k]];
      OrderAt(ns, base, order, k);
      LinkOf(ns, order[k]);
      if k > 0 { ParentIndex(ns, base, order, k); }
      var children := RenumberChildren(ns, order, remap, node.children);
      var parent := if k == 0 then None else Some(remap[node.parent.value].value);
      var preferred := if node.preferred.None? then None else Some(remap[node.preferred.value].value);
      r := r + [UndoNode(parent, children, preferred, if k == 0 then None else node.elem)];
    }
  }

  method RenumberChildren(ns: Arena, order: seq<nat>, remap: seq<Option<nat>>, xs: seq<nat>) returns (r: seq<nat>)
    requires |remap| == |ns| && (forall x | x in order :: x < |ns| && remap[x] == Some(IndexOf(order, x)))
    requires forall x | x in xs :: x in order
    ensures r == Renumber(order, xs)
  {
    hide IndexOf, Renumber;
    r := [];
    for i := 0 to |xs|
      invariant |r| == i && forall j | 0 <= j < i :: r[j] == IndexOf(order, xs[j])
    {
      assert xs[i] in xs;
      r := r + [remap[xs[i]].value];
    }
    Renumbered(order, xs, r);
  }

  lemma {:induction false} Renumbered(order: seq<nat>, xs: seq<nat>, r: seq<nat>)
    requires |r| == |xs| && forall j | 0 <= j < |xs| :: r[j] == IndexOf(order, xs[j])
    ensures r == Renumber(order, xs)
  {
    forall j | 0 <= j < |xs| ensures r[j] == Renumber(order, xs)[j] { RenumberAt(order, xs, j); }
  }
}
