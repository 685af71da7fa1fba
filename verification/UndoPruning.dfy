/**
 Pruning the undo tree by rebuilding its arena from a new base, and why nobody at or below the new
 base can tell.
 */
module UndoPruning {
  import opened Base
  import opened EditBatches
  import opened Transactions
  import opened UndoTrees

  /** Where `x` first occurs, or the length of the list. */
  function IndexOf(order: seq<nat>, x: nat): (k: nat)
    ensures k <= |order|
    ensures x in order ==> k < |order| && order[k] == x
    ensures x !in order ==> k == |order|
  {
    if order == [] || order[0] == x then 0 else 1 + IndexOf(order[1..], x)
  }

  lemma {:induction false} IndexIs(order: seq<nat>, k: nat)
    requires NoDup(order) && k < |order|
    ensures IndexOf(order, order[k]) == k
  {
    var j := IndexOf(order, order[k]);
    assert order[k] in order && order[j] == order[k];
  }

  ghost predicate InArena(ns: Arena, order: seq<nat>) { forall k | 0 <= k < |order| :: order[k] < |ns| }

  /** `order` lists the subtree under `base`, each node after its parent. */
  ghost predicate SubtreeOrder(ns: Arena, base: nat, order: seq<nat>) {
    && order != [] && order[0] == base && NoDup(order)
    && InArena(ns, order)
    && (forall x, c | x in order && c in ns[x].children :: c in order)
    && (forall k | 0 < k < |order| :: ParentEarlier(ns, order, k))
  }

  ghost predicate ParentEarlier(ns: Arena, order: seq<nat>, k: nat)
    requires k < |order|
  {
    order[k] < |ns| && ns[order[k]].parent.Some? && ns[order[k]].parent.value in order[..k]
  }

  function Renumber(order: seq<nat>, xs: seq<nat>): (r: seq<nat>)
    ensures |r| == |xs|
  {
    if xs == [] then [] else [IndexOf(order, xs[0])] + Renumber(order, xs[1..])
  }

  function RenumberOne(order: seq<nat>, x: Option<nat>): Option<nat> {
    match x case None => None case Some(v) => Some(IndexOf(order, v))
  }

  /** Old node `order[k]` as new node `k`; the base loses its parent and its edit. */
  function NodeFrom(ns: Arena, order: seq<nat>, k: nat): UndoNode
    requires k < |order| && order[k] < |ns|
  {
    var node := ns[order[k]];
    UndoNode(if k == 0 then None else RenumberOne(order, node.parent), Renumber(order, node.children),
             RenumberOne(order, node.preferred), if k == 0 then None else node.elem)
  }

  ghost function Rebuild(ns: Arena, order: seq<nat>): (r: Arena)
    requires InArena(ns, order)
    ensures |r| == |order|
  {
    seq(|order|, k requires 0 <= k < |order| => NodeFrom(ns, order, k))
  }

  // ----- renumbering -----

  lemma {:induction false} RenumberAt(order: seq<nat>, xs: seq<nat>, i: nat)
    requires i < |xs|
    ensures Renumber(order, xs)[i] == IndexOf(order, xs[i])
  {
    if i > 0 { RenumberAt(order, xs[1..], i - 1); }
  }

  lemma {:induction false} RenumberMembers(order: seq<nat>, xs: seq<nat>, j: nat)
    requires NoDup(order) && j < |order| && forall x | x in xs :: x in order
    ensures j in Renumber(order, xs) <==> order[j] in xs
  {
    var r := Renumber(order, xs);
    if j in r {
      var i :| 0 <= i < |r| && r[i] == j;
      RenumberAt(order, xs, i);
      assert xs[i] in xs;
    }
    if order[j] in xs {
      var i :| 0 <= i < |xs| && xs[i] == order[j];
      RenumberAt(order, xs, i);
      IndexIs(order, j);
    }
  }

  lemma {:induction false} RenumberInside(order: seq<nat>, xs: seq<nat>, j: nat)
    requires (forall x | x in xs :: x in order) && j in Renumber(order, xs)
    ensures j < |order| && order[j] in xs
  {
    var r := Renumber(order, xs);
    var i :| 0 <= i < |r| && r[i] == j;
    RenumberAt(order, xs, i);
    assert xs[i] in xs;
  }

  lemma {:induction false} RenumberNoDup(order: seq<nat>, xs: seq<nat>)
    requires NoDup(xs) && forall x | x in xs :: x in order
    ensures NoDup(Renumber(order, xs))
  {
    var r := Renumber(order, xs);
    forall i, j | 0 <= i < j < |r| ensures r[i] != r[j] {
      RenumberAt(order, xs, i);
      RenumberAt(order, xs, j);
      assert xs[i] in xs && xs[j] in xs && xs[i] != xs[j];
    }
  }

  // ----- the rebuilt arena is a tree -----

  lemma {:induction false} OrderAt(ns: Arena, base: nat, order: seq<nat>, k: nat)
    requires SubtreeOrder(ns, base, order) && k < |order|
    ensures order[k] < |ns| && order[k] in order && IndexOf(order, order[k]) == k
    ensures k > 0 ==> ParentEarlier(ns, order, k)
    ensures forall c | c in ns[order[k]].children :: c in order
  {
    assert order[k] in order;
    IndexIs(order, k);
  }

  lemma {:induction false} ParentIndex(ns: Arena, base: nat, order: seq<nat>, k: nat)
    requires SubtreeOrder(ns, base, order) && 0 < k < |order|
    ensures order[k] < |ns| && ns[order[k]].parent.Some?
    ensures IndexOf(order, ns[order[k]].parent.value) < k && ns[order[k]].parent.value in order
  {
    OrderAt(ns, base, order, k);
    var p := ns[order[k]].parent.value;
    var j :| 0 <= j < k && order[..k][j] == p;
    assert order[j] == p;
    IndexIs(order, j);
  }

  /** A child's new number comes after its parent's. */
  lemma {:induction false} ChildIndex(ns: Arena, base: nat, order: seq<nat>, k: nat, c: nat)
    requires IsTree(ns) && SubtreeOrder(ns, base, order) && k < |order| && c in Renumber(order, ns[order[k]].children)
    ensures k < c < |order| && order[c] in ns[order[k]].children && ns[order[c]].parent == Some(order[k])
  {
    hide IsTree;
    OrderAt(ns, base, order, k);
    RenumberInside(order, ns[order[k]].children, c);
    ChildOf(ns, order[k], order[c]);
    if c > 0 {
      ParentIndex(ns, base, order, c);
    } else {
      BaseIsNoChild(ns, base, order, k);
    }
  }

  /** The base is nobody's child in its own subtree. */
  lemma {:induction false} BaseIsNoChild(ns: Arena, base: nat, order: seq<nat>, k: nat)
    requires IsTree(ns) && SubtreeOrder(ns, base, order) && k < |order|
    ensures order[k] >= base
    ensures base !in ns[order[k]].children
    decreases k
  {
    hide IsTree;
    OrderAt(ns, base, order, k);
    if k > 0 {
      ParentIndex(ns, base, order, k);
      var p := IndexOf(order, ns[order[k]].parent.value);
      BaseIsNoChild(ns, base, order, p);
      LinkOf(ns, order[k]);
    }
    if base in ns[order[k]].children { ChildOf(ns, order[k], base); }
  }

  lemma {:induction false} RebuiltLink(ns: Arena, base: nat, order: seq<nat>, k: nat)
    requires IsTree(ns) && SubtreeOrder(ns, base, order) && k < |order|
    ensures Linked(Rebuild(ns, order), k)
  {
    hide IsTree, SubtreeOrder, Renumber, ParentEarlier;
    OrderIn(ns, base, order);
    var r := Rebuild(ns, order);
    OrderAt(ns, base, order, k);
    LinkOf(ns, order[k]);
    var node := ns[order[k]];
    forall c | c in r[k].children ensures k < c < |r| && r[c].parent == Some(k) {
      ChildIndex(ns, base, order, k, c);
    }
    RenumberNoDup(order, node.children);
    if node.preferred.Some? {
      var j := IndexOf(order, node.preferred.value);
      RenumberMembers(order, node.children, j);
    }
    if k > 0 {
      ParentIndex(ns, base, order, k);
      var p := IndexOf(order, node.parent.value);
      ParentOf(ns, order[k]);
      OrderAt(ns, base, order, p);
      RenumberMembers(order, ns[order[p]].children, k);
    }
  }

  lemma {:induction false} OrderIn(ns: Arena, base: nat, order: seq<nat>)
    requires SubtreeOrder(ns, base, order)
    ensures InArena(ns, order) && NoDup(order) && order != [] && order[0] == base
  {}

  lemma {:induction false} RebuiltTree(ns: Arena, base: nat, order: seq<nat>)
    requires IsTree(ns) && SubtreeOrder(ns, base, order)
    ensures IsTree(Rebuild(ns, order))
  {
    hide SubtreeOrder, Linked;
    OrderIn(ns, base, order);
    forall k | 0 <= k < |order| ensures Linked(Rebuild(ns, order), k) { RebuiltLink(ns, base, order, k); }
  }

  // ----- the line to the current node -----

  /** `base` lies on the line from the root to `i`. */
  ghost predicate OnLine(ns: Arena, base: nat, i: nat)
    decreases i
  {
    i == base || (i < |ns| && ns[i].parent.Some? && ns[i].parent.value < i && OnLine(ns, base, ns[i].parent.value))
  }

  lemma {:induction false} LineListed(ns: Arena, base: nat, order: seq<nat>, i: nat)
    requires IsTree(ns) && SubtreeOrder(ns, base, order) && i < |ns| && OnLine(ns, base, i)
    ensures i in order
    decreases i
  {
    hide IsTree;
    if i != base {
      LinkOf(ns, i);
      LineListed(ns, base, order, ns[i].parent.value);
      if i > 0 { ParentOf(ns, i); }
    }
  }

  lemma {:induction false} LineAboveBase(ns: Arena, base: nat, i: nat)
    requires OnLine(ns, base, i)
    ensures base <= i
    decreases i
  {
    if i != base { LineAboveBase(ns, base, ns[i].parent.value); }
  }

  /** The line below the base stays preferred, and keeps its length. */
  lemma {:induction false} LineKept(ns: Arena, base: nat, order: seq<nat>, i: nat)
    requires IsTree(ns) && SubtreeOrder(ns, base, order) && i < |ns| && OnLine(ns, base, i) && PreferredLine(ns, i)
    ensures i in order && InArena(ns, order)
    ensures PreferredLine(Rebuild(ns, order), IndexOf(order, i))
    ensures Depth(ns, i) == Depth(ns, base) + Depth(Rebuild(ns, order), IndexOf(order, i))
    decreases i
  {
    hide IsTree, SubtreeOrder;
    OrderIn(ns, base, order);
    LineListed(ns, base, order, i);
    var k := IndexOf(order, i);
    if i == base {
      IndexIs(order, 0);
    } else {
      var p := ns[i].parent.value;
      LineKept(ns, base, order, p);
      LineAboveBase(ns, base, p);
      assert k > 0;
      ParentIndex(ns, base, order, k);
      assert Rebuild(ns, order)[k] == NodeFrom(ns, order, k);
    }
  }

  // ----- the invariant -----

  ghost function RebuiltMeaning(ns: Arena, m: Meaning, order: seq<nat>): Meaning
    requires |m.texts| == |ns| && order != [] && InArena(ns, order)
  {
    Meaning(seq(|order|, k requires 0 <= k < |order| => m.texts[order[k]]),
            Version(ns, m.base, order[0]), m.saved)
  }

  lemma {:induction false} RebuiltVersion(ns: Arena, m: Meaning, base: nat, order: seq<nat>, k: nat)
    requires IsTree(ns) && SubtreeOrder(ns, base, order) && |m.texts| == |ns| && k < |order|
    ensures order != [] && InArena(ns, order)
    ensures Version(Rebuild(ns, order), RebuiltMeaning(ns, m, order).base, k) == Version(ns, m.base, order[k])
  {
    hide IsTree, SubtreeOrder;
    OrderIn(ns, base, order);
    OrderAt(ns, base, order, k);
    if k > 0 {
      ParentIndex(ns, base, order, k);
      LinkOf(ns, order[k]);
    }
  }

  lemma {:induction false} RebuiltEdge(ns: Arena, m: Meaning, base: nat, order: seq<nat>, k: nat)
    requires IsTree(ns) && SubtreeOrder(ns, base, order) && Meant(ns, m) && k < |order|
    ensures order != [] && InArena(ns, order)
    ensures Edge(Rebuild(ns, order), RebuiltMeaning(ns, m, order), k)
  {
    hide IsTree, SubtreeOrder, StepsLead, Held, Version;
    OrderIn(ns, base, order);
    OrderAt(ns, base, order, k);
    EdgeOf(ns, m, order[k]);
    if k > 0 {
      ParentIndex(ns, base, order, k);
      var p := IndexOf(order, ns[order[k]].parent.value);
      RebuiltVersion(ns, m, base, order, p);
    }
  }

  /** Keep only the subtree under `base`. */
  ghost function Pruned(s: State, order: seq<nat>): State
    requires InArena(s.nodes, order)
  {
    s.(nodes := Rebuild(s.nodes, order), current := IndexOf(order, s.current))
  }

  lemma {:induction false} PrunedVersions(s: State, m: Meaning, base: nat, order: seq<nat>)
    requires Good(s, m) && SubtreeOrder(s.nodes, base, order) && s.current in order
    ensures order != [] && InArena(s.nodes, order)
    ensures var r, n := Pruned(s, order), RebuiltMeaning(s.nodes, m, order);
            && Versioned(r.nodes, n.base, r.altSeq) && SavedIs(r.nodes, n, r.savedAlt)
            && r.alt == Version(r.nodes, n.base, r.current)
  {
    hide IsTree, SubtreeOrder, PreferredLine, Version;
    OrderIn(s.nodes, base, order);
    forall k | 0 <= k < |order|
      ensures order[k] in order
              && Version(Rebuild(s.nodes, order), RebuiltMeaning(s.nodes, m, order).base, k) == Version(s.nodes, m.base,
                order[k])
    {
      RebuiltVersion(s.nodes, m, base, order, k);
    }
    forall i, j | 0 <= i < j < |order|
      ensures Version(s.nodes, m.base, order[i]) != Version(s.nodes, m.base, order[j])
    {
      assert order[i] != order[j];
    }
  }

  lemma {:induction false} PrunedMeant(ns: Arena, m: Meaning, base: nat, order: seq<nat>)
    requires IsTree(ns) && SubtreeOrder(ns, base, order) && Meant(ns, m)
    ensures order != [] && InArena(ns, order)
    ensures Meant(Rebuild(ns, order), RebuiltMeaning(ns, m, order))
  {
    hide IsTree, SubtreeOrder, Edge, Held, Version;
    OrderIn(ns, base, order);
    var r, n := Rebuild(ns, order), RebuiltMeaning(ns, m, order);
    forall k | 0 <= k < |order| ensures Edge(r, n, k) && Held(n.texts[k]) && |n.texts[k]| < U32_MAX {
      assert order[k] in order;
      RebuiltEdge(ns, m, base, order, k);
    }
  }

  /** Pruning to a base on the current line keeps the invariant, and shortens the line by the
      base's depth. */
  lemma {:induction false} PrunedGood(s: State, m: Meaning, base: nat, order: seq<nat>)
    requires Good(s, m) && SubtreeOrder(s.nodes, base, order) && OnLine(s.nodes, base, s.current)
    ensures s.current in order && order != [] && InArena(s.nodes, order)
    ensures Good(Pruned(s, order), RebuiltMeaning(s.nodes, m, order))
    ensures Depth(s.nodes, s.current) == Depth(s.nodes, base) + Depth(Pruned(s, order).nodes, Pruned(s, order).current)
    ensures RebuiltMeaning(s.nodes, m, order).texts[Pruned(s, order).current] == m.texts[s.current]
  {
    hide IsTree, SubtreeOrder, PreferredLine, Version, Versioned, SavedIs, Depth;
    OrderIn(s.nodes, base, order);
    LineKept(s.nodes, base, order, s.current);
    PrunedVersions(s, m, base, order);
    PrunedMeant(s.nodes, m, base, order);
    RebuiltTree(s.nodes, base, order);
    LeafStays(s.nodes, order, IndexOf(order, s.current));
  }

  lemma {:induction false} LeafStays(ns: Arena, order: seq<nat>, k: nat)
    requires k < |order| && InArena(ns, order)
    ensures order[k] in order && |Rebuild(ns, order)[k].children| == |ns[order[k]].children|
  {
    assert order[k] in order;
  }

  // ----- the rebuild, as it runs -----

  /** The worklist so far: numbered nodes, and the ones whose children are all listed. */
  ghost predicate Listing(ns: Arena, base: nat, order: seq<nat>, remap: seq<Option<nat>>, finished: nat) {
    && order != [] && order[0] == base && NoDup(order) && InArena(ns, order) && |remap| == |ns| && finished <= |order|
    && (forall k | 0 < k < |order| :: ParentEarlier(ns, order, k))
    && (forall k | 0 <= k < |order| :: remap[order[k]] == Some(k))
    && (forall x | 0 <= x < |ns| && remap[x].Some? :: remap[x].value < |order| && order[remap[x].value] == x)
    && (forall k, c | 0 <= k < finished && c in ns[order[k]].children :: c in order)
  }

  lemma {:induction false} NoDupBound(order: seq<nat>, n: nat)
    requires NoDup(order) && forall k | 0 <= k < |order| :: order[k] < n
    ensures |order| <= n
    decreases n
  {
    if n == 0 {
      if order != [] { FirstBelow(order, n); }
    } else if k :| 0 <= k < |order| && order[k] == n - 1 {
      var rest := order[..k] + order[k + 1..];
      forall i | 0 <= i < |rest| ensures rest[i] < n - 1 && rest[i] == order[if i < k then i else i + 1] {}
      NoDupBound(rest, n - 1);
    } else {
      NoDupBound(order, n - 1);
    }
  }

  lemma {:induction false} FirstBelow(order: seq<nat>, n: nat)
    requires order != [] && forall k | 0 <= k < |order| :: order[k] < n
    ensures n > 0
  {
    assert order[0] < n;
  }

  /** Number the subtree under `base`, breadth first. */
  method ListSubtree(ns: Arena, base: nat) returns (order: seq<nat>, remap: seq<Option<nat>>)
    requires IsTree(ns) && base < |ns|
    ensures SubtreeOrder(ns, base, order) && |remap| == |ns|
    ensures forall x | x in order :: x < |ns| && remap[x] == Some(IndexOf(order, x))
  {
    hide IsTree, Linked, ParentEarlier;
    remap := seq(|ns|, i => None);
    order := [base];
    remap := remap[base := Some(0)];
    var i: nat := 0;
    while i < |order|
      invariant Listing(ns, base, order, remap, i)
      decreases |ns| - i
    {
      ListingBound(ns, base, order, remap, i);
      var cur := order[i];
      order, remap := ListChildren(ns, base, order, remap, i);
      i := i + 1;
    }
    Listed(ns, base, order, remap);
  }

  lemma {:induction false} ListingBound(ns: Arena, base: nat, order: seq<nat>, remap: seq<Option<nat>>, i: nat)
    requires Listing(ns, base, order, remap, i)
    ensures |order| <= |ns|
  {
    NoDupBound(order, |ns|);
  }

  lemma {:induction false} Listed(ns: Arena, base: nat, order: seq<nat>, remap: seq<Option<nat>>)
    requires Listing(ns, base, order, remap, |order|)
    ensures SubtreeOrder(ns, base, order)
    ensures forall x | x in order :: x < |ns| && remap[x] == Some(IndexOf(order, x))
  {
    hide ParentEarlier;
    forall x | x in order ensures x < |ns| && remap[x] == Some(IndexOf(order, x)) {
      var k := IndexOf(order, x);
      assert order[k] == x;
    }
    forall x, c | x in order && c in ns[x].children ensures c in order {
      var k := IndexOf(order, x);
      assert order[k] == x;
    }
  }

  /** Number the children of the `i`-th listed node that are not numbered yet. */
  method ListChildren(ns: Arena, base: nat, order0: seq<nat>, remap0: seq<Option<nat>>, i: nat)
    returns (order: seq<nat>, remap: seq<Option<nat>>)
    requires IsTree(ns) && Listing(ns, base, order0, remap0, i) && i < |order0|
    ensures Listing(ns, base, order, remap, i + 1)
  {
    hide IsTree, Linked, ParentEarlier;
    order, remap := order0, remap0;
    var cur := order[i];
    for j := 0 to |ns[cur].children|
      invariant Listing(ns, base, order, remap, i) && i < |order| && order[i] == cur
      invariant forall c | c in ns[cur].children[..j] :: c in order
    {
      var child := ns[cur].children[j];
      assert child in ns[cur].children && ns[cur].children[..j + 1] == ns[cur].children[..j] + [child];
      ChildOf(ns, cur, child);
      if remap[child].None? {
        ListOne(ns, base, order, remap, i, child);
        remap := remap[child := Some(|order|)];
        order := order + [child];
      } else {
        assert order[remap[child].value] == child;
      }
    }
    assert ns[cur].children[..|ns[cur].children|] == ns[cur].children;
  }

  lemma {:induction false} ListOne(ns: Arena, base: nat, order: seq<nat>, remap: seq<Option<nat>>, i: nat, child: nat)
    requires Listing(ns, base, order, remap, i) && i < |order| && child < |ns| && remap[child].None?
    requires ns[child].parent == Some(order[i])
    ensures Listing(ns, base, order + [child], remap[child := Some(|order|)], i)
    ensures child !in order && forall x | x in order :: x in order + [child]
  {
    forall k | 0 <= k < |order| ensures order[k] != child { assert remap[order[k]].Some?; }
    var w := order + [child];
    forall k | 0 < k < |w| ensures ParentEarlier(ns, w, k) {
      if k < |order| {
        assert ParentEarlier(ns, order, k);
        assert w[..k] == order[..k];
      } else {
        assert w[..k] == order && order[i] in order;
      }
    }
  }

  // ----- pruning is invisible below the new base -----

  /** What a user does without editing. */
  datatype Move = Undo | Redo | Select(index: nat)

  function Moved(s: State, mv: Move): State
    requires IsTree(s.nodes) && s.current < |s.nodes|
  {
    match mv
    case Undo => Undone(s)
    case Redo => Redone(s)
    case Select(index) => Selected(s, index)
  }

  /** The batches a move replays, in order. */
  function Replays(s: State, mv: Move): seq<Batch>
    requires IsTree(s.nodes) && s.current < |s.nodes|
  {
    match mv
    case Undo =>
      if s.current == 0 then []
      else
        ParentOf(s.nodes, s.current);
        Inverses(s.nodes[s.current].elem.value.steps)
    case Redo =>
      (match s.nodes[s.current].preferred
       case None => []
       case Some(c) =>
         LinkOf(s.nodes, s.current);
         ChildOf(s.nodes, s.current, c);
         Forwards(s.nodes[c].elem.value.steps))
    case Select(_) => []
  }

  function Forwards(steps: seq<Step>): seq<Batch> {
    if steps == [] then [] else [steps[0].forward] + Forwards(steps[1..])
  }

  /** Newest first. */
  function Inverses(steps: seq<Step>): seq<Batch> {
    if steps == [] then [] else Inverses(steps[1..]) + [steps[0].inverse]
  }

  /** What can be seen: the batches replayed, the version, whether the state is dirty, and how many
      branches there are to redo. */
  datatype Sight = Sight(replays: seq<Batch>, alt: nat, dirty: bool, branches: nat)

  function Seen(s: State, mv: Move): Sight
    requires IsTree(s.nodes) && s.current < |s.nodes|
  {
    MovedTree(s, mv);
    var r := Moved(s, mv);
    Sight(Replays(s, mv), r.alt, r.alt != r.savedAlt, |r.nodes[r.current].children|)
  }

  lemma {:induction false} MovedTree(s: State, mv: Move)
    requires IsTree(s.nodes) && s.current < |s.nodes|
    ensures IsTree(Moved(s, mv).nodes) && Moved(s, mv).current < |Moved(s, mv).nodes|
  {
    hide IsTree;
    match mv
    case Undo => if s.current > 0 { ParentOf(s.nodes, s.current); }
    case Redo =>
      var p := s.nodes[s.current].preferred;
      if p.Some? {
        LinkOf(s.nodes, s.current);
        ChildOf(s.nodes, s.current, p.value);
      }
    case Select(index) =>
      if index < |s.nodes[s.current].children| { SelectedTree(s, index); }
  }

  /** The pruned tree follows the whole one. */
  ghost predicate Follows(s: State, r: State, base: nat, order: seq<nat>) {
    && IsTree(s.nodes) && s.current < |s.nodes| && SubtreeOrder(s.nodes, base, order) && s.current in order
    && InArena(s.nodes, order) && r == Pruned(s, order)
  }

  lemma {:induction false} FollowsNode(s: State, r: State, base: nat, order: seq<nat>)
    requires Follows(s, r, base, order)
    ensures IsTree(r.nodes) && r.current < |r.nodes| == |order| && order[r.current] == s.current
    ensures r.current == 0 <==> s.current == base
    ensures r.nodes[r.current] == NodeFrom(s.nodes, order, r.current)
  {
    hide IsTree;
    RebuiltTree(s.nodes, base, order);
    IndexIs(order, 0);
  }

  lemma {:induction false} UndoFollows(s: State, r: State, base: nat, order: seq<nat>)
    requires Follows(s, r, base, order) && s.current != base
    ensures IsTree(r.nodes) && r.current < |r.nodes|
    ensures Follows(Undone(s), Undone(r), base, order) && Replays(r, Undo) == Replays(s, Undo)
  {
    hide IsTree, Inverses;
    FollowsNode(s, r, base, order);
    ParentIndex(s.nodes, base, order, r.current);
    BelowBase(s.nodes, base, order, r.current);
    ParentOf(s.nodes, s.current);
    ParentOf(r.nodes, r.current);
  }

  lemma {:induction false} BelowBase(ns: Arena, base: nat, order: seq<nat>, k: nat)
    requires IsTree(ns) && SubtreeOrder(ns, base, order) && k < |order|
    ensures order[k] >= base && (k > 0 ==> order[k] > 0)
  {
    hide IsTree;
    BaseIsNoChild(ns, base, order, k);
    if k > 0 {
      assert order[0] != order[k];
    }
  }

  lemma {:induction false} RedoFollows(s: State, r: State, base: nat, order: seq<nat>)
    requires Follows(s, r, base, order)
    ensures IsTree(r.nodes) && r.current < |r.nodes|
    ensures Follows(Redone(s), Redone(r), base, order) && Replays(r, Redo) == Replays(s, Redo)
  {
    hide IsTree, Forwards, Renumber;
    FollowsNode(s, r, base, order);
    var p := s.nodes[s.current].preferred;
    if p.Some? {
      LinkOf(s.nodes, s.current);
      ChildOf(s.nodes, s.current, p.value);
      OrderAt(s.nodes, base, order, r.current);
      var c := IndexOf(order, p.value);
      LinkOf(r.nodes, r.current);
      ChildOf(r.nodes, r.current, c);
    }
  }

  lemma {:induction false} SelectFollows(s: State, r: State, base: nat, order: seq<nat>, index: nat)
    requires Follows(s, r, base, order)
    ensures r.current < |r.nodes|
    ensures Follows(Selected(s, index), Selected(r, index), base, order)
  {
    hide IsTree, Renumber;
    FollowsNode(s, r, base, order);
    var cs := s.nodes[s.current].children;
    if index < |cs| {
      SelectedTree(s, index);
      RenumberAt(order, cs, index);
      SelectedOrder(s, base, order, index);
      var w := Selected(s, index);
      forall k | 0 <= k < |order|
        ensures Rebuild(w.nodes, order)[k] == Selected(r, index).nodes[k]
      {
        if order[k] == s.current { IndexIs(order, k); }
      }
    }
  }

  lemma {:induction false} SelectedOrder(s: State, base: nat, order: seq<nat>, index: nat)
    requires SubtreeOrder(s.nodes, base, order) && s.current < |s.nodes|
    ensures SubtreeOrder(Selected(s, index).nodes, base, order) && InArena(Selected(s, index).nodes, order)
  {
    var w := Selected(s, index).nodes;
    forall k | 0 < k < |order| ensures ParentEarlier(w, order, k) { assert ParentEarlier(s.nodes, order, k); }
  }

  lemma {:induction false} BranchesAgree(s: State, r: State, base: nat, order: seq<nat>)
    requires Follows(s, r, base, order)
    ensures r.current < |r.nodes| && |r.nodes[r.current].children| == |s.nodes[s.current].children|
    ensures r.alt == s.alt && r.savedAlt == s.savedAlt
  {
    hide IsTree, Renumber;
    FollowsNode(s, r, base, order);
  }

  /** The moves never climb above the base. */
  ghost predicate StaysBelow(s: State, moves: seq<Move>, base: nat)
    requires IsTree(s.nodes) && s.current < |s.nodes|
    decreases |moves|
  {
    moves == []
    || (!(moves[0] == Undo && s.current == base)
        && (MovedTree(s, moves[0]); StaysBelow(Moved(s, moves[0]), moves[1..], base)))
  }

  /** Everything seen over a run of moves. */
  ghost function Run(s: State, moves: seq<Move>): seq<Sight>
    requires IsTree(s.nodes) && s.current < |s.nodes|
    decreases |moves|
  {
    if moves == [] then []
    else
      MovedTree(s, moves[0]);
      [Seen(s, moves[0])] + Run(Moved(s, moves[0]), moves[1..])
  }

  lemma {:induction false} StepFollows(s: State, r: State, base: nat, order: seq<nat>, mv: Move)
    requires Follows(s, r, base, order) && !(mv == Undo && s.current == base)
    ensures IsTree(r.nodes) && r.current < |r.nodes|
    ensures Follows(Moved(s, mv), Moved(r, mv), base, order) && Seen(r, mv) == Seen(s, mv)
  {
    hide IsTree, Follows, Undone, Redone, Selected;
    TreesFollow(s, r, base, order);
    MovedTree(s, mv);
    MovedTree(r, mv);
    match mv {
      case Undo => UndoFollows(s, r, base, order);
      case Redo => RedoFollows(s, r, base, order);
      case Select(index) => SelectFollows(s, r, base, order, index);
    }
    BranchesAgree(Moved(s, mv), Moved(r, mv), base, order);
    SeenAgree(s, r, mv);
  }

  lemma {:induction false} SeenAgree(s: State, r: State, mv: Move)
    requires IsTree(s.nodes) && s.current < |s.nodes| && IsTree(r.nodes) && r.current < |r.nodes|
    requires Replays(r, mv) == Replays(s, mv)
    requires Moved(s, mv).current < |Moved(s, mv).nodes| && Moved(r, mv).current < |Moved(r, mv).nodes|
    requires |Moved(r, mv).nodes[Moved(r, mv).current].children| == |Moved(s, mv).nodes[Moved(s, mv).current].children|
    requires Moved(r, mv).alt == Moved(s, mv).alt && Moved(r, mv).savedAlt == Moved(s, mv).savedAlt
    ensures Seen(r, mv) == Seen(s, mv)
  {
    hide IsTree, Moved, Replays;
  }

  lemma {:induction false} TreesFollow(s: State, r: State, base: nat, order: seq<nat>)
    requires Follows(s, r, base, order)
    ensures IsTree(s.nodes) && s.current < |s.nodes| && IsTree(r.nodes) && r.current < |r.nodes|
  {
    hide IsTree;
    FollowsNode(s, r, base, order);
  }

  /** Pruning is invisible: any run of undo, redo and branch choices that never climbs above the new
      base shows the same batches, versions, dirtiness and branch counts. */
  lemma {:induction false} PruningIsInvisible(s: State, r: State, base: nat, order: seq<nat>, moves: seq<Move>)
    requires Follows(s, r, base, order) && IsTree(s.nodes) && s.current < |s.nodes| && StaysBelow(s, moves, base)
    ensures IsTree(r.nodes) && r.current < |r.nodes| && Run(r, moves) == Run(s, moves)
    decreases |moves|
  {
    hide IsTree, Follows, Seen, Moved;
    TreesFollow(s, r, base, order);
    if moves != [] {
      StepFollows(s, r, base, order, moves[0]);
      MovedTree(s, moves[0]);
      PruningIsInvisible(Moved(s, moves[0]), Moved(r, moves[0]), base, order, moves[1..]);
    }
  }

  lemma {:induction false} MovedGood(s: State, m: Meaning, mv: Move)
    requires Good(s, m) && IsTree(s.nodes) && s.current < |s.nodes|
    ensures Good(Moved(s, mv), m)
  {
    hide Good, Undone, Redone, Selected, IsTree;
    match mv {
      case Undo => UndoneGood(s, m);
      case Redo => RedoneGood(s, m);
      case Select(index) => SelectedGood(s, m, index);
    }
  }

  lemma {:induction false} GoodParts(s: State, m: Meaning)
    requires Good(s, m)
    ensures IsTree(s.nodes) && s.current < |s.nodes| == |m.texts|
  {
    hide IsTree;
  }

  /** The texts a run stands at, the first and the one after each move. */
  ghost function Texts(s: State, m: Meaning, moves: seq<Move>): seq<Text>
    requires Good(s, m)
    decreases |moves|
  {
    GoodParts(s, m);
    [m.texts[s.current]] + if moves == [] then []
      else (MovedGood(s, m, moves[0]); Texts(Moved(s, moves[0]), m, moves[1..]))
  }

  /** Two meanings name the same texts, one through the new numbering. */
  ghost predicate SameTexts(m: Meaning, n: Meaning, order: seq<nat>) {
    |n.texts| == |order| && forall k | 0 <= k < |order| :: order[k] < |m.texts| && n.texts[k] == m.texts[order[k]]
  }

  lemma {:induction false} FollowingTexts(s: State, m: Meaning, r: State, n: Meaning, base: nat, order: seq<nat>,
                                          moves: seq<Move>)
    requires Good(s, m) && Good(r, n) && SameTexts(m, n, order) && Follows(s, r, base, order)
    requires IsTree(s.nodes) && s.current < |s.nodes| && StaysBelow(s, moves, base)
    ensures Texts(r, n, moves) == Texts(s, m, moves)
    decreases |moves|
  {
    hide IsTree, Good, Follows, Seen, Moved;
    GoodParts(s, m);
    GoodParts(r, n);
    FollowsNode(s, r, base, order);
    if moves != [] {
      MovedGood(s, m, moves[0]);
      MovedGood(r, n, moves[0]);
      StepFollows(s, r, base, order, moves[0]);
      MovedTree(s, moves[0]);
      FollowingTexts(Moved(s, moves[0]), m, Moved(r, moves[0]), n, base, order, moves[1..]);
    }
  }

  /** And it shows the same texts: over any such run the pruned tree stands where the whole one does. */
  lemma {:induction false} PruningKeepsTheTexts(s: State, m: Meaning, base: nat, order: seq<nat>, moves: seq<Move>)
    requires IsTree(s.nodes) && s.current < |s.nodes| && StaysBelow(s, moves, base)
    requires Good(s, m) && SubtreeOrder(s.nodes, base, order) && OnLine(s.nodes, base, s.current)
    ensures |m.texts| == |s.nodes| && order != [] && InArena(s.nodes, order)
    ensures var r, n := Pruned(s, order), RebuiltMeaning(s.nodes, m, order);
            Good(r, n) && Texts(r, n, moves) == Texts(s, m, moves)
  {
    hide IsTree, Good, SubtreeOrder, StaysBelow, Texts, Pruned;
    GoodParts(s, m);
    PrunedGood(s, m, base, order);
    PrunedFollows(s, base, order);
    FollowingTexts(s, m, Pruned(s, order), RebuiltMeaning(s.nodes, m, order), base, order, moves);
  }

  lemma {:induction false} PrunedFollows(s: State, base: nat, order: seq<nat>)
    requires IsTree(s.nodes) && s.current < |s.nodes| && SubtreeOrder(s.nodes, base, order) && s.current in order
    requires InArena(s.nodes, order)
    ensures Follows(s, Pruned(s, order), base, order)
  {}
}
