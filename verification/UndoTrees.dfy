/**
 The undo tree as values: an arena of nodes, the moves over it, and what every move keeps.
 */
module UndoTrees {
  import opened Base
  import opened EditBatches
  import opened Transactions

  /** Edit classes; a discrete edit never merges. */
  datatype OpClass = Typing | Deleting | Other

  datatype GroupingHint = GroupingHint(op: OpClass, sealBefore: bool, sealAfter: bool)

  /** One transaction, in both directions. */
  datatype Step = Step(forward: Batch, inverse: Batch)

  /** One undo unit, with the document versions on either side of it. */
  datatype Element = Element(steps: seq<Step>, op: OpClass, altBefore: nat, altAfter: nat)

  datatype UndoNode = UndoNode(parent: Option<nat>, children: seq<nat>, preferred: Option<nat>, elem: Option<Element>)

  /** Node 0 is the base state. */
  type Arena = seq<UndoNode>

  datatype State = State(nodes: Arena, current: nat, isOpen: bool, alt: nat, altSeq: nat, savedAlt: nat,
                         maxUndo: Option<nat>)

  // ----- the shape of the arena -----

  ghost predicate NoDup(s: seq<nat>) { forall i, j | 0 <= i < j < |s| :: s[i] != s[j] }

  ghost predicate Linked(ns: Arena, i: nat)
    requires i < |ns|
  {
    && (if i == 0 then ns[i].parent == None && ns[i].elem == None
        else ns[i].elem.Some? && ns[i].parent.Some? && ns[i].parent.value < i && i in ns[ns[i].parent.value].children)
    && (forall c | c in ns[i].children :: i < c < |ns| && ns[c].parent == Some(i))
    && NoDup(ns[i].children)
    && (ns[i].preferred.Some? ==> ns[i].preferred.value in ns[i].children)
    && (ns[i].children != [] ==> ns[i].preferred.Some?)
  }

  ghost predicate IsTree(ns: Arena) {
    |ns| > 0 && forall i {:trigger Linked(ns, i)} | 0 <= i < |ns| :: Linked(ns, i)
  }

  lemma {:induction false} LinkOf(ns: Arena, i: nat)
    requires IsTree(ns) && i < |ns|
    ensures Linked(ns, i)
  {}

  lemma {:induction false} ParentOf(ns: Arena, i: nat)
    requires IsTree(ns) && 0 < i < |ns|
    ensures ns[i].elem.Some? && ns[i].parent.Some? && ns[i].parent.value < i && i in ns[ns[i].parent.value].children
  {
    LinkOf(ns, i);
  }

  lemma {:induction false} ChildOf(ns: Arena, i: nat, c: nat)
    requires IsTree(ns) && i < |ns| && c in ns[i].children
    ensures i < c < |ns| && ns[c].parent == Some(i) && ns[c].elem.Some?
  {
    LinkOf(ns, i);
    LinkOf(ns, c);
  }

  /** Every node on the line from the base is its parent's preferred child. */
  ghost predicate PreferredLine(ns: Arena, i: nat)
    decreases i
  {
    i == 0
    || (i < |ns| && ns[i].parent.Some? && ns[i].parent.value < i && ns[ns[i].parent.value].preferred == Some(i)
        && PreferredLine(ns, ns[i].parent.value))
  }

  /** How many units lie on the line from the base. */
  ghost function Depth(ns: Arena, i: nat): nat
    decreases i
  {
    if i == 0 || i >= |ns| || ns[i].parent.None? || ns[i].parent.value >= i then 0
    else 1 + Depth(ns, ns[i].parent.value)
  }

  /** The version of a node's document. */
  ghost function Version(ns: Arena, base: nat, i: nat): nat
    requires i < |ns|
  {
    if ns[i].elem.None? then base else ns[i].elem.value.altAfter
  }

  // ----- texts -----

  /** The steps, forward, lead from `t` to `r`; each carries its own inverse. */
  ghost predicate StepsLead(t: Text, steps: seq<Step>, r: Text)
    decreases |steps|
  {
    if steps == [] then r == t
    else
      && Ready(t, steps[0].forward) && Inverts(t, steps[0].forward, steps[0].inverse)
      && |Applied(t, steps[0].forward)| < U32_MAX
      && StepsLead(Applied(t, steps[0].forward), steps[1..], r)
  }

  lemma {:induction false} LeadsOn(t: Text, steps: seq<Step>, m: Text, s: Step)
    requires StepsLead(t, steps, m) && Ready(m, s.forward) && Inverts(m, s.forward, s.inverse)
             && |Applied(m, s.forward)| < U32_MAX
    ensures StepsLead(t, steps + [s], Applied(m, s.forward))
    decreases |steps|
  {
    hide CleanOp, InOrder, Inverts, Applied;
    if steps == [] {
      assert [] + [s] == [s] && [s][1..] == [];
    } else {
      assert (steps + [s])[1..] == steps[1..] + [s];
      LeadsOn(Applied(t, steps[0].forward), steps[1..], m, s);
    }
  }

  // ----- the whole invariant -----

  /** What the tree stands for: each node's text, the base state's version, and the text last
      saved. */
  datatype Meaning = Meaning(texts: seq<Text>, base: nat, saved: Text)

  /** Node `i`'s edge: it starts from its parent's version and text, and leads to its own. */
  ghost predicate Edge(ns: Arena, m: Meaning, i: nat)
    requires i < |ns| == |m.texts|
  {
    ns[i].elem.Some? ==>
      && ns[i].parent.Some? && ns[i].parent.value < |ns|
      && ns[i].elem.value.altBefore == Version(ns, m.base, ns[i].parent.value)
      && StepsLead(m.texts[ns[i].parent.value], ns[i].elem.value.steps, m.texts[i])
  }

  ghost predicate Meant(ns: Arena, m: Meaning) {
    && |m.texts| == |ns|
    && (forall i {:trigger Edge(ns, m, i)} | 0 <= i < |ns| :: Edge(ns, m, i))
    && (forall i | 0 <= i < |ns| :: Held(m.texts[i]) && |m.texts[i]| < U32_MAX)
  }

  /** Versions are distinct, and none is newer than the last one minted. */
  ghost predicate Versioned(ns: Arena, base: nat, newest: nat) {
    && (forall i | 0 <= i < |ns| :: Version(ns, base, i) <= newest)
    && (forall i, j | 0 <= i < j < |ns| :: Version(ns, base, i) != Version(ns, base, j))
  }

  /** The saved version, where it still is, stands for the saved text. */
  ghost predicate SavedIs(ns: Arena, m: Meaning, saved: nat) {
    |m.texts| == |ns| && forall i | 0 <= i < |ns| && Version(ns, m.base, i) == saved :: m.texts[i] == m.saved
  }

  ghost predicate Good(s: State, m: Meaning) {
    && IsTree(s.nodes) && s.current < |s.nodes| && PreferredLine(s.nodes, s.current)
    && Meant(s.nodes, m) && Versioned(s.nodes, m.base, s.altSeq)
    && s.alt == Version(s.nodes, m.base, s.current) && s.savedAlt <= s.altSeq && SavedIs(s.nodes, m, s.savedAlt)
    && (s.isOpen ==> s.nodes[s.current].children == [])
  }

  // ----- the moves -----

  predicate Merges(s: State, hint: GroupingHint)
    requires s.current < |s.nodes|
  {
    s.isOpen && !hint.sealBefore && hint.op != Other
    && s.nodes[s.current].elem.Some? && s.nodes[s.current].elem.value.op == hint.op
  }

  /** Record a transaction: into the open unit if the classes match, otherwise as a new child. */
  function Recorded(s: State, forward: Batch, inverse: Batch, hint: GroupingHint): State
    requires s.current < |s.nodes|
  {
    var alt := s.altSeq + 1;
    var step := Step(forward, inverse);
    if Merges(s, hint) then
      var e := s.nodes[s.current].elem.value;
      var merged := s.nodes[s.current].(elem := Some(e.(steps := e.steps + [step], altAfter := alt)));
      s.(nodes := s.nodes[s.current := merged], isOpen := !hint.sealAfter, alt := alt, altSeq := alt)
    else
      var id := |s.nodes|;
      var parent := s.nodes[s.current];
      var linked := parent.(children := parent.children + [id], preferred := Some(id));
      var node := UndoNode(Some(s.current), [], None, Some(Element([step], hint.op, s.alt, alt)));
      s.(nodes := s.nodes[s.current := linked] + [node], current := id, isOpen := !hint.sealAfter, alt := alt,
         altSeq := alt)
  }

  /** What recording means: the current text becomes the edited one, in place or in a new node. */
  ghost function RecordedMeaning(s: State, m: Meaning, after: Text, hint: GroupingHint): Meaning
    requires s.current < |s.nodes| == |m.texts|
  {
    if Merges(s, hint) then m.(texts := m.texts[s.current := after]) else m.(texts := m.texts + [after])
  }

  /** Undo moves to the parent; at the base it does nothing. */
  function Undone(s: State): State
    requires IsTree(s.nodes) && s.current < |s.nodes|
  {
    if s.current == 0 then s
    else
      ParentOf(s.nodes, s.current);
      s.(current := s.nodes[s.current].parent.value, alt := s.nodes[s.current].elem.value.altBefore, isOpen := false)
  }

  /** Redo moves to the preferred child, if there is one. */
  function Redone(s: State): State
    requires IsTree(s.nodes) && s.current < |s.nodes|
  {
    match s.nodes[s.current].preferred
    case None => s
    case Some(c) =>
      LinkOf(s.nodes, s.current);
      ChildOf(s.nodes, s.current, c);
      s.(current := c, alt := s.nodes[c].elem.value.altAfter, isOpen := false)
  }

  function Selected(s: State, index: nat): State
    requires s.current < |s.nodes|
  {
    var node := s.nodes[s.current];
    if index >= |node.children| then s
    else s.(nodes := s.nodes[s.current := node.(preferred := Some(node.children[index]))])
  }

  // ----- what the moves keep -----

  lemma {:induction false} UndoneGood(s: State, m: Meaning)
    requires Good(s, m)
    ensures Good(Undone(s), m)
  {
    hide IsTree, Meant, Versioned, SavedIs, StepsLead;
    if s.current > 0 {
      ParentOf(s.nodes, s.current);
      EdgeOf(s.nodes, m, s.current);
    }
  }

  lemma {:induction false} EdgeOf(ns: Arena, m: Meaning, i: nat)
    requires Meant(ns, m) && i < |ns|
    ensures Edge(ns, m, i)
  {}

  lemma {:induction false} RedoneGood(s: State, m: Meaning)
    requires Good(s, m)
    ensures Good(Redone(s), m)
  {
    hide IsTree, Meant, Versioned, SavedIs;
    var p := s.nodes[s.current].preferred;
    if p.Some? {
      LinkOf(s.nodes, s.current);
      ChildOf(s.nodes, s.current, p.value);
    }
  }

  lemma {:induction false} SelectedGood(s: State, m: Meaning, index: nat)
    requires Good(s, m)
    ensures Good(Selected(s, index), m)
  {
    var r := Selected(s, index);
    if index < |s.nodes[s.current].children| {
      SelectedTree(s, index);
      SameLine(s.nodes, r.nodes, s.current, s.current);
      SelectedMeant(s, m, index);
    }
  }

  /** Redo after steering stands at the branch chosen, in its order of recording, whichever branch was
      preferred before. */
  lemma {:induction false} SelectThenRedo(s: State, m: Meaning, index: nat)
    requires Good(s, m) && index < |s.nodes[s.current].children|
    ensures Good(Selected(s, index), m)
    ensures var r := Redone(Selected(s, index));
            && Good(r, m) && r.current == s.nodes[s.current].children[index] && !r.isOpen
            && r.nodes[r.current] == s.nodes[r.current]
            && forall i | 0 <= i < |s.nodes| ::
              r.nodes[i].children == s.nodes[i].children && r.nodes[i].elem == s.nodes[i].elem
  {
    SelectedGood(s, m, index);
    RedoneGood(Selected(s, index), m);
    hide Meant, Versioned, SavedIs, PreferredLine;
    ChildOf(s.nodes, s.current, s.nodes[s.current].children[index]);
  }

  /** A new branch is the youngest: it goes after those there are, and redo would take it. */
  lemma {:induction false} YoungestBranch(s: State, forward: Batch, inverse: Batch, hint: GroupingHint)
    requires IsTree(s.nodes) && s.current < |s.nodes| && !Merges(s, hint)
    ensures var r := Recorded(s, forward, inverse, hint);
            && r.current == |s.nodes| && r.current !in s.nodes[s.current].children
            && r.nodes[s.current].children == s.nodes[s.current].children + [r.current]
            && r.nodes[s.current].preferred == Some(r.current)
            && forall i | 0 <= i < |s.nodes| && i != s.current :: r.nodes[i] == s.nodes[i]
  {
    LinkOf(s.nodes, s.current);
  }

  lemma {:induction false} SelectedTree(s: State, index: nat)
    requires IsTree(s.nodes) && s.current < |s.nodes| && index < |s.nodes[s.current].children|
    ensures IsTree(Selected(s, index).nodes)
  {
    var r := Selected(s, index).nodes;
    forall i | 0 <= i < |r| ensures Linked(r, i) {
      LinkOf(s.nodes, i);
    }
  }

  /** The line to a node depends only on the nodes strictly above it. */
  lemma {:induction false} SameLine(ns: Arena, r: Arena, at: nat, i: nat)
    requires PreferredLine(ns, i) && i <= at && |r| >= |ns| && at < |ns|
    requires forall k | 0 <= k < |ns| :: r[k].parent == ns[k].parent
    requires forall k | 0 <= k < at :: r[k] == ns[k]
    ensures PreferredLine(r, i)
    decreases i
  {
    if i > 0 { SameLine(ns, r, at, ns[i].parent.value); }
  }

  lemma {:induction false} SelectedMeant(s: State, m: Meaning, index: nat)
    requires Good(s, m) && index < |s.nodes[s.current].children|
    ensures var r := Selected(s, index);
            Meant(r.nodes, m) && Versioned(r.nodes, m.base, r.altSeq) && SavedIs(r.nodes, m, r.savedAlt)
            && r.alt == Version(r.nodes, m.base, r.current)
  {
    hide IsTree, StepsLead, PreferredLine;
    var ns, r := s.nodes, Selected(s, index).nodes;
    forall i | 0 <= i < |r| ensures Version(r, m.base, i) == Version(ns, m.base, i) {}
    forall i | 0 <= i < |r| ensures Edge(r, m, i) { EdgeOf(ns, m, i); }
  }

  // ----- recording -----

  lemma {:induction false} MergedGood(s: State, m: Meaning, forward: Batch, inverse: Batch, hint: GroupingHint)
    requires Good(s, m) && Merges(s, hint) && Ready(m.texts[s.current], forward)
    requires Inverts(m.texts[s.current], forward, inverse) && |Applied(m.texts[s.current], forward)| < U32_MAX
    ensures Good(Recorded(s, forward, inverse, hint),
                 RecordedMeaning(s, m, Applied(m.texts[s.current], forward), hint))
  {
    hide StepsLead, Inverts, IsTree, Applied, CleanOp, InOrder, PreferredLine;
    var after := Applied(m.texts[s.current], forward);
    var r, n := Recorded(s, forward, inverse, hint), RecordedMeaning(s, m, after, hint);
    MergedTree(s, forward, inverse, hint);
    SameLine(s.nodes, r.nodes, s.current, s.current);
    MergedVersions(s, m, forward, inverse, hint);
    AppliedHeld(m.texts[s.current], forward);
    forall i | 0 <= i < |r.nodes| ensures Edge(r.nodes, n, i) {
      MergedEdge(s, m, forward, inverse, hint, i);
    }
  }

  lemma {:induction false} MergedTree(s: State, forward: Batch, inverse: Batch, hint: GroupingHint)
    requires IsTree(s.nodes) && s.current < |s.nodes| && Merges(s, hint)
    ensures IsTree(Recorded(s, forward, inverse, hint).nodes)
  {
    var r := Recorded(s, forward, inverse, hint).nodes;
    forall i | 0 <= i < |r| ensures Linked(r, i) {
      LinkOf(s.nodes, i);
    }
  }

  lemma {:induction false} MergedVersions(s: State, m: Meaning, forward: Batch, inverse: Batch, hint: GroupingHint)
    requires Good(s, m) && Merges(s, hint)
    ensures var r := Recorded(s, forward, inverse, hint);
            && (forall i | 0 <= i < |r.nodes| :: Version(r.nodes, m.base, i)
                  == if i == s.current then s.altSeq + 1 else Version(s.nodes, m.base, i))
            && Versioned(r.nodes, m.base, r.altSeq) && r.alt == Version(r.nodes, m.base, r.current)
  {
    hide IsTree, Meant, PreferredLine, SavedIs;
    var r := Recorded(s, forward, inverse, hint);
    forall i | 0 <= i < |r.nodes|
      ensures Version(r.nodes, m.base, i) == if i == s.current then s.altSeq + 1 else Version(s.nodes, m.base, i) {}
  }

  lemma {:induction false} MergedEdge(s: State, m: Meaning, forward: Batch, inverse: Batch, hint: GroupingHint, i: nat)
    requires Good(s, m) && Merges(s, hint) && Ready(m.texts[s.current], forward) && i < |s.nodes|
    requires Inverts(m.texts[s.current], forward, inverse) && |Applied(m.texts[s.current], forward)| < U32_MAX
    ensures Edge(Recorded(s, forward, inverse, hint).nodes,
                 RecordedMeaning(s, m, Applied(m.texts[s.current], forward), hint), i)
  {
    hide StepsLead, Ready, Inverts, IsTree, Applied, PreferredLine, Versioned, SavedIs, Held;
    EdgeOf(s.nodes, m, i);
    LinkOf(s.nodes, i);
    LinkOf(s.nodes, s.current);
    if i == s.current {
      var e := s.nodes[i].elem.value;
      LeadsOn(m.texts[s.nodes[i].parent.value], e.steps, m.texts[i], Step(forward, inverse));
    } else if i > 0 {
      ParentOf(s.nodes, i);
      assert s.nodes[i].parent.value != s.current;
    }
  }

  lemma {:induction false} GrownGood(s: State, m: Meaning, forward: Batch, inverse: Batch, hint: GroupingHint)
    requires Good(s, m) && !Merges(s, hint) && Ready(m.texts[s.current], forward)
    requires Inverts(m.texts[s.current], forward, inverse) && |Applied(m.texts[s.current], forward)| < U32_MAX
    ensures Good(Recorded(s, forward, inverse, hint),
                 RecordedMeaning(s, m, Applied(m.texts[s.current], forward), hint))
  {
    hide StepsLead, Inverts, IsTree, Applied, CleanOp, InOrder;
    var after := Applied(m.texts[s.current], forward);
    var r, n := Recorded(s, forward, inverse, hint), RecordedMeaning(s, m, after, hint);
    GrownTree(s, forward, inverse, hint);
    SameLine(s.nodes, r.nodes, s.current, s.current);
    GrownVersions(s, m, forward, inverse, hint);
    AppliedHeld(m.texts[s.current], forward);
    forall i | 0 <= i < |r.nodes| ensures Edge(r.nodes, n, i) {
      GrownEdge(s, m, forward, inverse, hint, i);
    }
  }

  lemma {:induction false} GrownTree(s: State, forward: Batch, inverse: Batch, hint: GroupingHint)
    requires IsTree(s.nodes) && s.current < |s.nodes| && !Merges(s, hint)
    ensures IsTree(Recorded(s, forward, inverse, hint).nodes)
  {
    var ns, r := s.nodes, Recorded(s, forward, inverse, hint).nodes;
    forall i | 0 <= i < |r| ensures Linked(r, i) {
      if i < |ns| {
        LinkOf(ns, i);
        GrownLink(s, forward, inverse, hint, i);
      } else {
        LinkOf(ns, s.current);
      }
    }
  }

  lemma {:induction false} GrownLink(s: State, forward: Batch, inverse: Batch, hint: GroupingHint, i: nat)
    requires s.current < |s.nodes| && !Merges(s, hint) && i < |s.nodes| && Linked(s.nodes, i)
    ensures Linked(Recorded(s, forward, inverse, hint).nodes, i)
  {
    var ns, r := s.nodes, Recorded(s, forward, inverse, hint).nodes;
    if i > 0 { assert ns[i].parent.value < |ns|; }
    if i == s.current {
      forall c | c in r[i].children ensures i < c < |r| && r[c].parent == Some(i) {
        if c < |ns| { assert c in ns[i].children || c == |ns|; }
      }
      SnocNoDup(ns[i].children, |ns|);
    }
  }

  lemma {:induction false} SnocNoDup(s: seq<nat>, x: nat)
    requires NoDup(s) && forall c | c in s :: c < x
    ensures NoDup(s + [x])
  {
    forall i | 0 <= i < |s| ensures s[i] != x { assert s[i] in s; }
  }

  lemma {:induction false} GrownVersions(s: State, m: Meaning, forward: Batch, inverse: Batch, hint: GroupingHint)
    requires Good(s, m) && !Merges(s, hint)
    ensures var r := Recorded(s, forward, inverse, hint);
            && (forall i | 0 <= i < |r.nodes| :: Version(r.nodes, m.base, i)
                  == if i == |s.nodes| then s.altSeq + 1 else Version(s.nodes, m.base, i))
            && Versioned(r.nodes, m.base, r.altSeq) && r.alt == Version(r.nodes, m.base, r.current)
  {
    hide IsTree, Meant, PreferredLine, SavedIs;
    var r := Recorded(s, forward, inverse, hint);
    forall i | 0 <= i < |r.nodes|
      ensures Version(r.nodes, m.base, i) == if i == |s.nodes| then s.altSeq + 1 else Version(s.nodes, m.base, i) {}
  }

  lemma {:induction false} GrownEdge(s: State, m: Meaning, forward: Batch, inverse: Batch, hint: GroupingHint, i: nat)
    requires Good(s, m) && !Merges(s, hint) && Ready(m.texts[s.current], forward) && i <= |s.nodes|
    requires Inverts(m.texts[s.current], forward, inverse) && |Applied(m.texts[s.current], forward)| < U32_MAX
    ensures Edge(Recorded(s, forward, inverse, hint).nodes,
                 RecordedMeaning(s, m, Applied(m.texts[s.current], forward), hint), i)
  {
    hide Inverts, IsTree, Rebuilt, InOrder, CleanOp, PreferredLine, SavedIs, Held;
    if i < |s.nodes| {
      hide StepsLead;
      EdgeOf(s.nodes, m, i);
      LinkOf(s.nodes, i);
    } else {
      var step := Step(forward, inverse);
      assert [step][1..] == [];
      var r := Recorded(s, forward, inverse, hint).nodes;
      assert Version(r, m.base, s.current) == Version(s.nodes, m.base, s.current);
      var after := Applied(m.texts[s.current], forward);
      assert StepsLead(after, [], after);
      assert StepsLead(m.texts[s.current], [step], after);
    }
  }

  /** Recording keeps the invariant. */
  lemma {:induction false} RecordedGood(s: State, m: Meaning, forward: Batch, inverse: Batch, hint: GroupingHint)
    requires Good(s, m) && Ready(m.texts[s.current], forward)
    requires Inverts(m.texts[s.current], forward, inverse) && |Applied(m.texts[s.current], forward)| < U32_MAX
    ensures Good(Recorded(s, forward, inverse, hint),
                 RecordedMeaning(s, m, Applied(m.texts[s.current], forward), hint))
  {
    hide IsTree, Meant, PreferredLine, Versioned, SavedIs, InOrder, CleanOp, Inverts, Recorded, RecordedMeaning,
         Applied;
    if Merges(s, hint) {
      MergedGood(s, m, forward, inverse, hint);
    } else {
      GrownGood(s, m, forward, inverse, hint);
    }
  }

  // ----- what the invariant gives -----

  /** Not dirty means the text is the one last saved. */
  lemma {:induction false} CleanIsSaved(s: State, m: Meaning)
    requires Good(s, m) && s.alt == s.savedAlt
    ensures m.texts[s.current] == m.saved
  {
    hide IsTree, Meant, PreferredLine;
  }

  /** Saving here: the current version and text become the saved ones. */
  lemma {:induction false} SavedGood(s: State, m: Meaning)
    requires Good(s, m)
    ensures Good(s.(savedAlt := s.alt), m.(saved := m.texts[s.current]))
  {
    hide IsTree, PreferredLine, StepsLead, Held;
    var n := m.(saved := m.texts[s.current]);
    forall i | 0 <= i < |s.nodes| ensures Edge(s.nodes, n, i) { EdgeOf(s.nodes, m, i); }
  }

  /** Undo, then redo: the same node, version and tree. */
  lemma {:induction false} UndoRedo(s: State, m: Meaning)
    requires Good(s, m) && s.current > 0
    ensures IsTree(Undone(s).nodes) && Undone(s).current < |Undone(s).nodes|
    ensures Redone(Undone(s)) == s.(isOpen := false)
  {
    hide IsTree, Meant, Versioned, SavedIs;
    ParentOf(s.nodes, s.current);
  }

  /** Redo, then undo: the same node, version and tree. */
  lemma {:induction false} RedoUndo(s: State, m: Meaning)
    requires Good(s, m) && s.nodes[s.current].preferred.Some?
    ensures IsTree(Redone(s).nodes) && Redone(s).current < |Redone(s).nodes|
    ensures Redone(s).current != 0 && Undone(Redone(s)) == s.(isOpen := false)
  {
    hide IsTree, Versioned, SavedIs, StepsLead, Held;
    var c := s.nodes[s.current].preferred.value;
    LinkOf(s.nodes, s.current);
    ChildOf(s.nodes, s.current, c);
    EdgeOf(s.nodes, m, c);
  }
}
