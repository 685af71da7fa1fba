/**
 The one augmented tree every derived view rides.

 A tree caches, in each node, the fold of its items under an algebra.  Seeks and prefix
 folds descend by a *dimension*: an additive projection of the summary to a number.  The
 lemmas state each descent against the plain sequence of items, for every tree shape.
 */
module SumTrees {
  import opened Base

  /** How items are summarised: identity, combine, and the summary of one item. */
  datatype Algebra<!T, !S> = Algebra(zero: S, add: (S, S) -> S, measure: T -> S)

  datatype Tree<T, S> =
    | Leaf(summary: S, items: seq<T>)
    | Internal(height: nat, summary: S, children: seq<Tree<T, S>>)
  {
    function Height(): nat { if Leaf? then 0 else height }

    predicate IsEmpty() { Leaf? && items == [] }
  }

  /** Fan-out of a node. */
  const MAX: nat := 12

  // ----- laws -----

  ghost predicate Assoc<T, S>(m: Algebra<T, S>, a: S, b: S, c: S) {
    m.add(m.add(a, b), c) == m.add(a, m.add(b, c))
  }

  ghost predicate Unit<T, S>(m: Algebra<T, S>, a: S) {
    m.add(m.zero, a) == a && m.add(a, m.zero) == a
  }

  ghost predicate IsMonoid<T, S(!new)>(m: Algebra<T, S>) {
    && (forall a: S, b: S, c: S {:trigger Assoc(m, a, b, c)} :: Assoc(m, a, b, c))
    && (forall a: S {:trigger Unit(m, a)} :: Unit(m, a))
  }

  /** A dimension is an additive projection. */
  ghost predicate Additive<T, S(!new)>(m: Algebra<T, S>, d: S -> nat) {
    && d(m.zero) == 0
    && forall a: S, b: S {:trigger d(m.add(a, b))} :: d(m.add(a, b)) == d(a) + d(b)
  }

  /** A dimension under which every item weighs one: the item index. */
  ghost predicate Counts<T(!new), S(!new)>(m: Algebra<T, S>, c: S -> nat) {
    && Additive(m, c)
    && forall x: T {:trigger m.measure(x)} :: c(m.measure(x)) == 1
  }

  // ----- folds over sequences -----

  /** The left-to-right fold of the items' summaries. */
  function Fold<T, S>(m: Algebra<T, S>, items: seq<T>): S {
    if items == [] then m.zero else m.add(Fold(m, items[..|items| - 1]), m.measure(items[|items| - 1]))
  }

  function FoldTrees<T, S>(m: Algebra<T, S>, ts: seq<Tree<T, S>>): S {
    if ts == [] then m.zero else m.add(FoldTrees(m, ts[..|ts| - 1]), ts[|ts| - 1].summary)
  }

  lemma {:induction false} FoldConcat<T, S(!new)>(m: Algebra<T, S>, a: seq<T>, b: seq<T>)
    requires IsMonoid(m)
    ensures Fold(m, a + b) == m.add(Fold(m, a), Fold(m, b))
    decreases |b|
  {
    if b == [] {
      assert a + b == a;
      assert Unit(m, Fold(m, a));
    } else {
      var b' := b[..|b| - 1];
      assert (a + b)[..|a + b| - 1] == a + b';
      FoldConcat(m, a, b');
      assert Assoc(m, Fold(m, a), Fold(m, b'), m.measure(b[|b| - 1]));
    }
  }

  lemma {:induction false} FoldNil<T, S>(m: Algebra<T, S>)
    ensures Fold<T, S>(m, []) == m.zero
  {}

  lemma {:induction false} FoldOne<T, S(!new)>(m: Algebra<T, S>, x: T)
    requires IsMonoid(m)
    ensures Fold(m, [x]) == m.measure(x)
  {
    assert [x][..0] == [];
    assert Unit(m, m.measure(x));
  }

  lemma {:induction false} FoldCons<T, S(!new)>(m: Algebra<T, S>, items: seq<T>)
    requires IsMonoid(m) && items != []
    ensures Fold(m, items) == m.add(m.measure(items[0]), Fold(m, items[1..]))
  {
    assert items == [items[0]] + items[1..];
    FoldConcat(m, [items[0]], items[1..]);
    FoldOne(m, items[0]);
  }

  // ----- contents and validity -----

  function Items<T, S>(t: Tree<T, S>): seq<T>
    decreases t, 0
  {
    match t
    case Leaf(_, items) => items
    case Internal(_, _, children) => ItemsOf(children)
  }

  function ItemsOf<T, S>(ts: seq<Tree<T, S>>): seq<T>
    decreases ts, 1
  {
    if ts == [] then [] else Items(ts[0]) + ItemsOf(ts[1..])
  }

  /** Every cached summary is the fold of the items below it, and the children of a node are
      non-empty and one level lower. */
  ghost predicate Valid<T, S>(m: Algebra<T, S>, t: Tree<T, S>)
    decreases t, 0
  {
    match t
    case Leaf(s, items) => s == Fold(m, items)
    case Internal(h, s, children) =>
      h > 0 && children != [] && s == FoldTrees(m, children) && ValidRow(m, children, h - 1)
  }

  ghost predicate ValidRow<T, S>(m: Algebra<T, S>, ts: seq<Tree<T, S>>, h: nat)
    decreases ts, 1
  {
    ts == [] || (Valid(m, ts[0]) && ts[0].Height() == h && !ts[0].IsEmpty() && ValidRow(m, ts[1..], h))
  }

  lemma {:induction false} RowAt<T, S>(m: Algebra<T, S>, ts: seq<Tree<T, S>>, h: nat, i: nat)
    requires ValidRow(m, ts, h) && i < |ts|
    ensures Valid(m, ts[i]) && ts[i].Height() == h && !ts[i].IsEmpty()
  {
    if i > 0 { RowAt(m, ts[1..], h, i - 1); }
  }

  lemma {:induction false} RowConcat<T, S>(m: Algebra<T, S>, a: seq<Tree<T, S>>, b: seq<Tree<T, S>>, h: nat)
    ensures ValidRow(m, a + b, h) <==> ValidRow(m, a, h) && ValidRow(m, b, h)
    ensures ItemsOf(a + b) == ItemsOf(a) + ItemsOf(b)
    decreases |a|
  {
    if a == [] {
      assert a + b == b;
    } else {
      assert (a + b)[1..] == a[1..] + b;
      RowConcat(m, a[1..], b, h);
    }
  }

  lemma {:induction false} RowOne<T, S>(m: Algebra<T, S>, t: Tree<T, S>)
    requires Valid(m, t) && !t.IsEmpty()
    ensures ValidRow(m, [t], t.Height()) && ItemsOf([t]) == Items(t)
  {
    assert [t][1..] == [];
  }

  lemma {:induction false} RowTwo<T, S>(m: Algebra<T, S>, l: Tree<T, S>, r: Tree<T, S>)
    requires Valid(m, l) && !l.IsEmpty() && Valid(m, r) && !r.IsEmpty() && l.Height() == r.Height()
    ensures ValidRow(m, [l, r], l.Height()) && ItemsOf([l, r]) == Items(l) + Items(r)
  {
    RowOne(m, r);
    assert [l, r][1..] == [r];
  }

  lemma {:induction false} RowCons<T, S>(m: Algebra<T, S>, t: Tree<T, S>, ts: seq<Tree<T, S>>)
    requires Valid(m, t) && !t.IsEmpty() && ValidRow(m, ts, t.Height())
    ensures ValidRow(m, [t] + ts, t.Height()) && ItemsOf([t] + ts) == Items(t) + ItemsOf(ts)
  {
    assert ([t] + ts)[1..] == ts;
  }

  lemma {:induction false} FoldTreesConcat<T, S(!new)>(m: Algebra<T, S>, a: seq<Tree<T, S>>, b: seq<Tree<T, S>>)
    requires IsMonoid(m)
    ensures FoldTrees(m, a + b) == m.add(FoldTrees(m, a), FoldTrees(m, b))
    decreases |b|
  {
    if b == [] {
      assert a + b == a;
      assert Unit(m, FoldTrees(m, a));
    } else {
      var b' := b[..|b| - 1];
      assert (a + b)[..|a + b| - 1] == a + b';
      FoldTreesConcat(m, a, b');
      assert Assoc(m, FoldTrees(m, a), FoldTrees(m, b'), b[|b| - 1].summary);
    }
  }

  lemma {:induction false} FoldTreesCons<T, S(!new)>(m: Algebra<T, S>, ts: seq<Tree<T, S>>)
    requires IsMonoid(m) && ts != []
    ensures FoldTrees(m, ts) == m.add(ts[0].summary, FoldTrees(m, ts[1..]))
  {
    assert ts == [ts[0]] + ts[1..];
    FoldTreesConcat(m, [ts[0]], ts[1..]);
    assert [ts[0]][..0] == [];
    assert Unit(m, ts[0].summary);
  }

  /** The cached root summary is the fold of all the items, whatever the tree's shape. */
  lemma {:induction false} SummaryIsFold<T, S(!new)>(m: Algebra<T, S>, t: Tree<T, S>)
    requires IsMonoid(m) && Valid(m, t)
    ensures t.summary == Fold(m, Items(t))
    decreases t, 0
  {
    if t.Internal? { RowSummaryIsFold(m, t.children, t.height - 1); }
  }

  lemma {:induction false} RowSummaryIsFold<T, S(!new)>(m: Algebra<T, S>, ts: seq<Tree<T, S>>, h: nat)
    requires IsMonoid(m) && ValidRow(m, ts, h)
    ensures FoldTrees(m, ts) == Fold(m, ItemsOf(ts))
    decreases ts, 1
  {
    if ts != [] {
      SummaryIsFold(m, ts[0]);
      RowSummaryIsFold(m, ts[1..], h);
      FoldTreesCons(m, ts);
      FoldConcat(m, Items(ts[0]), ItemsOf(ts[1..]));
    }
  }

  lemma {:induction false} EmptyIffNoItems<T, S>(m: Algebra<T, S>, t: Tree<T, S>)
    requires Valid(m, t)
    ensures t.IsEmpty() <==> Items(t) == []
    decreases t
  {
    if t.Internal? {
      var c := t.children[0];
      EmptyIffNoItems(m, c);
    }
  }

  // ----- construction -----

  function MakeLeaf<T, S>(m: Algebra<T, S>, items: seq<T>): Tree<T, S> {
    Leaf(Fold(m, items), items)
  }

  function Empty<T, S>(m: Algebra<T, S>): Tree<T, S> { MakeLeaf(m, []) }

  function MakeInternal<T, S>(m: Algebra<T, S>, h: nat, children: seq<Tree<T, S>>): Tree<T, S> {
    Internal(h, FoldTrees(m, children), children)
  }

  function LeavesOf<T, S>(m: Algebra<T, S>, items: seq<T>): seq<Tree<T, S>>
    decreases |items|
  {
    if items == [] then []
    else if |items| <= MAX then [MakeLeaf(m, items)]
    else [MakeLeaf(m, items[..MAX])] + LeavesOf(m, items[MAX..])
  }

  function NextLevel<T, S>(m: Algebra<T, S>, h: nat, level: seq<Tree<T, S>>): (up: seq<Tree<T, S>>)
    ensures level != [] ==> up != []
    ensures |level| > 1 ==> |up| < |level|
    decreases |level|
  {
    if level == [] then []
    else if |level| <= MAX then [MakeInternal(m, h, level)]
    else [MakeInternal(m, h, level[..MAX])] + NextLevel(m, h, level[MAX..])
  }

  function BuildUp<T, S>(m: Algebra<T, S>, h: nat, level: seq<Tree<T, S>>): Tree<T, S>
    requires level != []
    decreases |level|
  {
    if |level| == 1 then level[0] else BuildUp(m, h + 1, NextLevel(m, h, level))
  }

  /** Leaves of `MAX` items, then levels of `MAX` children, bottom-up. */
  function FromItems<T, S>(m: Algebra<T, S>, items: seq<T>): Tree<T, S> {
    if items == [] then Empty(m) else BuildUp(m, 1, LeavesOf(m, items))
  }

  lemma {:induction false} LeavesOfCorrect<T, S>(m: Algebra<T, S>, items: seq<T>)
    ensures ItemsOf(LeavesOf(m, items)) == items && ValidRow(m, LeavesOf(m, items), 0)
    ensures items != [] ==> LeavesOf(m, items) != []
    decreases |items|
  {
    if items == [] {
    } else if |items| <= MAX {
      RowOne(m, MakeLeaf(m, items));
    } else {
      LeavesOfCorrect(m, items[MAX..]);
      RowCons(m, MakeLeaf(m, items[..MAX]), LeavesOf(m, items[MAX..]));
    }
  }

  lemma {:induction false} NextLevelCorrect<T, S>(m: Algebra<T, S>, h: nat, level: seq<Tree<T, S>>)
    requires h > 0 && ValidRow(m, level, h - 1)
    ensures ItemsOf(NextLevel(m, h, level)) == ItemsOf(level) && ValidRow(m, NextLevel(m, h, level), h)
    decreases |level|
  {
    if level == [] {
    } else if |level| <= MAX {
      RowOne(m, MakeInternal(m, h, level));
    } else {
      assert level == level[..MAX] + level[MAX..];
      RowConcat(m, level[..MAX], level[MAX..], h - 1);
      NextLevelCorrect(m, h, level[MAX..]);
      RowCons(m, MakeInternal(m, h, level[..MAX]), NextLevel(m, h, level[MAX..]));
    }
  }

  lemma {:induction false} BuildUpCorrect<T, S>(m: Algebra<T, S>, h: nat, level: seq<Tree<T, S>>)
    requires h > 0 && level != [] && ValidRow(m, level, h - 1)
    ensures Items(BuildUp(m, h, level)) == ItemsOf(level) && Valid(m, BuildUp(m, h, level))
    decreases |level|
  {
    if |level| == 1 {
      assert ItemsOf(level[1..]) == [];
    } else {
      NextLevelCorrect(m, h, level);
      BuildUpCorrect(m, h + 1, NextLevel(m, h, level));
    }
  }

  /** The bulk constructor holds exactly the given items. */
  lemma {:induction false} FromItemsCorrect<T, S>(m: Algebra<T, S>, items: seq<T>)
    ensures Items(FromItems(m, items)) == items && Valid(m, FromItems(m, items))
  {
    if items != [] {
      LeavesOfCorrect(m, items);
      BuildUpCorrect(m, 1, LeavesOf(m, items));
    }
  }

  // ----- concatenation -----

  function LeafOrTwo<T, S>(m: Algebra<T, S>, items: seq<T>): seq<Tree<T, S>> {
    if |items| <= MAX then [MakeLeaf(m, items)]
    else [MakeLeaf(m, items[..|items| / 2]), MakeLeaf(m, items[|items| / 2..])]
  }

  function NodeOrTwo<T, S>(m: Algebra<T, S>, h: nat, children: seq<Tree<T, S>>): seq<Tree<T, S>> {
    if |children| <= MAX then [MakeInternal(m, h, children)]
    else [MakeInternal(m, h, children[..|children| / 2]), MakeInternal(m, h, children[|children| / 2..])]
  }

  lemma {:induction false} NodeOrTwoCorrect<T, S>(m: Algebra<T, S>, h: nat, children: seq<Tree<T, S>>)
    requires h > 0 && children != [] && ValidRow(m, children, h - 1)
    ensures NodeOrTwo(m, h, children) != []
    ensures ValidRow(m, NodeOrTwo(m, h, children), h) && ItemsOf(NodeOrTwo(m, h, children)) == ItemsOf(children)
  {
    var k := |children| / 2;
    RowConcat(m, children[..k], children[k..], h - 1);
    assert children == children[..k] + children[k..];
    if |children| <= MAX {
      RowOne(m, MakeInternal(m, h, children));
    } else {
      RowTwo(m, MakeInternal(m, h, children[..k]), MakeInternal(m, h, children[k..]));
    }
  }

  lemma {:induction false} LeafOrTwoCorrect<T, S>(m: Algebra<T, S>, items: seq<T>)
    requires items != []
    ensures LeafOrTwo(m, items) != []
    ensures ValidRow(m, LeafOrTwo(m, items), 0) && ItemsOf(LeafOrTwo(m, items)) == items
  {
    var k := |items| / 2;
    assert items == items[..k] + items[k..];
    if |items| <= MAX {
      RowOne(m, MakeLeaf(m, items));
    } else {
      RowTwo(m, MakeLeaf(m, items[..k]), MakeLeaf(m, items[k..]));
    }
  }

  lemma {:induction false} LastChild<T, S>(m: Algebra<T, S>, a: Tree<T, S>)
    requires Valid(m, a) && a.Internal?
    ensures var n := |a.children| - 1;
            && Valid(m, a.children[n]) && !a.children[n].IsEmpty() && a.children[n].Height() == a.height - 1
            && ValidRow(m, a.children[..n], a.height - 1)
            && Items(a) == ItemsOf(a.children[..n]) + Items(a.children[n])
  {
    var n := |a.children| - 1;
    RowAt(m, a.children, a.height - 1, n);
    RowOne(m, a.children[n]);
    RowConcat(m, a.children[..n], [a.children[n]], a.height - 1);
    assert a.children == a.children[..n] + [a.children[n]];
  }

  lemma {:induction false} FirstChild<T, S>(m: Algebra<T, S>, a: Tree<T, S>)
    requires Valid(m, a) && a.Internal?
    ensures Valid(m, a.children[0]) && !a.children[0].IsEmpty() && a.children[0].Height() == a.height - 1
    ensures ValidRow(m, a.children[1..], a.height - 1)
    ensures Items(a) == Items(a.children[0]) + ItemsOf(a.children[1..])
  {}

  /** Two trees of one height, packed into one or two nodes of that height. */
  function ConcatSame<T, S>(m: Algebra<T, S>, a: Tree<T, S>, b: Tree<T, S>): seq<Tree<T, S>>
    requires Valid(m, a) && Valid(m, b) && a.Height() == b.Height()
  {
    if a.Leaf? then LeafOrTwo(m, a.items + b.items) else NodeOrTwo(m, a.height, a.children + b.children)
  }

  lemma {:induction false} ConcatSameCorrect<T, S>(m: Algebra<T, S>, a: Tree<T, S>, b: Tree<T, S>)
    requires Valid(m, a) && Valid(m, b) && !a.IsEmpty() && a.Height() == b.Height()
    ensures var r := ConcatSame(m, a, b);
            r != [] && ValidRow(m, r, a.Height()) && ItemsOf(r) == Items(a) + Items(b)
  {
    if a.Leaf? {
      LeafOrTwoCorrect(m, a.items + b.items);
    } else {
      RowConcat(m, a.children, b.children, a.height - 1);
      NodeOrTwoCorrect(m, a.height, a.children + b.children);
    }
  }

  lemma {:induction false} PackRows<T, S>(m: Algebra<T, S>, h: nat, a: seq<Tree<T, S>>, b: seq<Tree<T, S>>,
                                          items: seq<T>)
    requires h > 0 && a + b != [] && ValidRow(m, a, h - 1) && ValidRow(m, b, h - 1)
    requires items == ItemsOf(a) + ItemsOf(b)
    ensures var r := NodeOrTwo(m, h, a + b); r != [] && ValidRow(m, r, h) && ItemsOf(r) == items
  {
    RowConcat(m, a, b, h - 1);
    NodeOrTwoCorrect(m, h, a + b);
  }

  lemma {:induction false} GraftOnLast<T, S>(m: Algebra<T, S>, a: Tree<T, S>, grafted: seq<Tree<T, S>>, more: seq<T>)
    requires Valid(m, a) && a.Internal? && grafted != [] && ValidRow(m, grafted, a.height - 1)
    requires ItemsOf(grafted) == Items(a.children[|a.children| - 1]) + more
    ensures var r := NodeOrTwo(m, a.height, a.children[..|a.children| - 1] + grafted);
            r != [] && ValidRow(m, r, a.height) && ItemsOf(r) == Items(a) + more
  {
    LastChild(m, a);
    PackRows(m, a.height, a.children[..|a.children| - 1], grafted, Items(a) + more);
  }

  lemma {:induction false} GraftOnFirst<T, S>(m: Algebra<T, S>, a: Tree<T, S>, grafted: seq<Tree<T, S>>, more: seq<T>)
    requires Valid(m, a) && a.Internal? && grafted != [] && ValidRow(m, grafted, a.height - 1)
    requires ItemsOf(grafted) == more + Items(a.children[0])
    ensures var r := NodeOrTwo(m, a.height, grafted + a.children[1..]);
            r != [] && ValidRow(m, r, a.height) && ItemsOf(r) == more + Items(a)
  {
    FirstChild(m, a);
    PackRows(m, a.height, grafted, a.children[1..], more + Items(a));
  }

  /** Graft the shorter `b` onto the right edge of `a`: one or two trees of `a`'s height. */
  function ConcatRight<T, S>(m: Algebra<T, S>, a: Tree<T, S>, b: Tree<T, S>): seq<Tree<T, S>>
    requires Valid(m, a) && Valid(m, b) && a.Height() >= b.Height()
    decreases a
  {
    if a.Height() == b.Height() then ConcatSame(m, a, b)
    else
      LastChild(m, a);
      var n := |a.children| - 1;
      NodeOrTwo(m, a.height, a.children[..n] + ConcatRight(m, a.children[n], b))
  }

  lemma {:induction false} ConcatRightCorrect<T, S>(m: Algebra<T, S>, a: Tree<T, S>, b: Tree<T, S>)
    requires Valid(m, a) && Valid(m, b) && !a.IsEmpty() && !b.IsEmpty() && a.Height() >= b.Height()
    ensures var r := ConcatRight(m, a, b);
            r != [] && ValidRow(m, r, a.Height()) && ItemsOf(r) == Items(a) + Items(b)
    decreases a
  {
    if a.Height() == b.Height() {
      ConcatSameCorrect(m, a, b);
    } else {
      LastChild(m, a);
      var n := |a.children| - 1;
      var grafted := ConcatRight(m, a.children[n], b);
      ConcatRightCorrect(m, a.children[n], b);
      GraftOnLast(m, a, grafted, Items(b));
    }
  }

  /** Graft the shorter `b` onto the left edge of `a`. */
  function ConcatLeft<T, S>(m: Algebra<T, S>, a: Tree<T, S>, b: Tree<T, S>): seq<Tree<T, S>>
    requires Valid(m, a) && Valid(m, b) && a.Height() >= b.Height()
    decreases a
  {
    if a.Height() == b.Height() then ConcatSame(m, b, a)
    else
      FirstChild(m, a);
      NodeOrTwo(m, a.height, ConcatLeft(m, a.children[0], b) + a.children[1..])
  }

  lemma {:induction false} ConcatLeftCorrect<T, S>(m: Algebra<T, S>, a: Tree<T, S>, b: Tree<T, S>)
    requires Valid(m, a) && Valid(m, b) && !a.IsEmpty() && !b.IsEmpty() && a.Height() >= b.Height()
    ensures var r := ConcatLeft(m, a, b);
            r != [] && ValidRow(m, r, a.Height()) && ItemsOf(r) == Items(b) + Items(a)
    decreases a
  {
    if a.Height() == b.Height() {
      ConcatSameCorrect(m, b, a);
    } else {
      FirstChild(m, a);
      var grafted := ConcatLeft(m, a.children[0], b);
      ConcatLeftCorrect(m, a.children[0], b);
      GraftOnFirst(m, a, grafted, Items(b));
    }
  }

  function Finalize<T, S>(m: Algebra<T, S>, parts: seq<Tree<T, S>>): Tree<T, S>
    requires parts != []
  {
    if |parts| == 1 then parts[0] else MakeInternal(m, parts[0].Height() + 1, parts)
  }

  lemma {:induction false} FinalizeCorrect<T, S>(m: Algebra<T, S>, parts: seq<Tree<T, S>>, h: nat)
    requires parts != [] && ValidRow(m, parts, h)
    ensures Valid(m, Finalize(m, parts)) && Items(Finalize(m, parts)) == ItemsOf(parts)
  {
    if |parts| == 1 { assert ItemsOf(parts[1..]) == []; }
  }

  /** Concatenate two trees, whatever their heights: the items are concatenated and every
      cached summary stays exact. */
  function Append<T, S>(m: Algebra<T, S>, a: Tree<T, S>, b: Tree<T, S>): (r: Tree<T, S>)
    requires Valid(m, a) && Valid(m, b)
    ensures Valid(m, r) && Items(r) == Items(a) + Items(b)
  {
    if a.IsEmpty() then b
    else if b.IsEmpty() then a
    else if a.Height() >= b.Height() then
      ConcatRightCorrect(m, a, b);
      FinalizeCorrect(m, ConcatRight(m, a, b), a.Height());
      Finalize(m, ConcatRight(m, a, b))
    else
      ConcatLeftCorrect(m, b, a);
      FinalizeCorrect(m, ConcatLeft(m, b, a), b.Height());
      Finalize(m, ConcatLeft(m, b, a))
  }

  // ----- splitting by item index -----

  function WrapChildren<T, S>(m: Algebra<T, S>, h: nat, children: seq<Tree<T, S>>): (r: Tree<T, S>)
    requires h > 0 && ValidRow(m, children, h - 1)
    ensures Valid(m, r) && Items(r) == ItemsOf(children)
  {
    if children == [] then Empty(m)
    else
      NodeOrTwoCorrect(m, h, children);
      FinalizeCorrect(m, NodeOrTwo(m, h, children), h);
      Finalize(m, NodeOrTwo(m, h, children))
  }

  ghost predicate SplitsAt<T, S>(m: Algebra<T, S>, items: seq<T>, k: int, r: (Tree<T, S>, Tree<T, S>)) {
    && Valid(m, r.0) && Valid(m, r.1)
    && Items(r.0) == items[..Clamp(k, |items|)]
    && Items(r.1) == items[Clamp(k, |items|)..]
  }

  ghost function Clamp(k: int, n: nat): nat { if k <= 0 then 0 else if k >= n then n else k }

  lemma {:induction false} CountIsLength<T(!new), S(!new)>(m: Algebra<T, S>, c: S -> nat, items: seq<T>)
    requires Counts(m, c)
    ensures c(Fold(m, items)) == |items|
    decreases |items|
  {
    if items != [] {
      CountIsLength(m, c, items[..|items| - 1]);
    }
  }

  lemma {:induction false} RootCount<T(!new), S(!new)>(m: Algebra<T, S>, c: S -> nat, t: Tree<T, S>)
    requires IsMonoid(m) && Counts(m, c) && Valid(m, t)
    ensures c(t.summary) == |Items(t)|
  {
    SummaryIsFold(m, t);
    CountIsLength(m, c, Items(t));
  }

  /** Split so that the first `k` items go left; `k` outside the tree clamps. */
  function SplitAt<T(!new), S(!new)>(m: Algebra<T, S>, c: S -> nat, t: Tree<T, S>,
                                     k: int): (r: (Tree<T, S>, Tree<T, S>))
    requires IsMonoid(m) && Counts(m, c) && Valid(m, t)
    ensures SplitsAt(m, Items(t), k, r)
    decreases t, 0
  {
    RootCount(m, c, t);
    if k <= 0 then (Empty(m), t)
    else if k >= c(t.summary) then (t, Empty(m))
    else if t.Leaf? then (MakeLeaf(m, t.items[..k]), MakeLeaf(m, t.items[k..]))
    else
      assert [] + t.children == t.children;
      SplitRow(m, c, t.height, 0, [], t.children, k)
  }

  /** Walk the children of a node of height `h`; `done` holds the `acc` items' worth of
      children wholly left of the cut. */
  function SplitRow<T(!new), S(!new)>(m: Algebra<T, S>, c: S -> nat, h: nat, acc: nat, done: seq<Tree<T, S>>,
                                      rest: seq<Tree<T, S>>, k: int): (r: (Tree<T, S>, Tree<T, S>))
    requires IsMonoid(m) && Counts(m, c)
    requires h > 0 && ValidRow(m, done, h - 1) && ValidRow(m, rest, h - 1)
    requires acc == |ItemsOf(done)| <= k < acc + |ItemsOf(rest)|
    ensures SplitsAt(m, ItemsOf(done) + ItemsOf(rest), k, r)
    decreases rest, 1
  {
    var child := rest[0];
    RowHead(m, rest, h - 1);
    RootCount(m, c, child);
    if acc + c(child.summary) > k then
      var halves := SplitAt(m, c, child, k - acc);
      var r := (Append(m, WrapChildren(m, h, done), halves.0), Append(m, halves.1, WrapChildren(m, h, rest[1..])));
      SplitHere(m, done, child, rest[1..], k, halves, r);
      r
    else
      RowSnoc(m, done, child);
      RowTurns(m, done, child, rest);
      SplitRow(m, c, h, acc + c(child.summary), done + [child], rest[1..], k)
  }

  lemma {:induction false} RowHead<T, S>(m: Algebra<T, S>, rest: seq<Tree<T, S>>, h: nat)
    requires rest != [] && ValidRow(m, rest, h)
    ensures Valid(m, rest[0]) && !rest[0].IsEmpty() && rest[0].Height() == h && ValidRow(m, rest[1..], h)
    ensures ItemsOf(rest) == Items(rest[0]) + ItemsOf(rest[1..])
  {}

  /** The cut falls in `child`: its halves, joined with what lies on either side. */
  lemma {:induction false} SplitHere<T, S>(m: Algebra<T, S>, done: seq<Tree<T, S>>, child: Tree<T, S>,
                                           after: seq<Tree<T, S>>, k: int, halves: (Tree<T, S>, Tree<T, S>),
                                           r: (Tree<T, S>, Tree<T, S>))
    requires |ItemsOf(done)| <= k < |ItemsOf(done)| + |Items(child)|
    requires SplitsAt(m, Items(child), k - |ItemsOf(done)|, halves) && Valid(m, r.0) && Valid(m, r.1)
    requires Items(r.0) == ItemsOf(done) + Items(halves.0) && Items(r.1) == Items(halves.1) + ItemsOf(after)
    ensures SplitsAt(m, ItemsOf(done) + (Items(child) + ItemsOf(after)), k, r)
  {
    hide Items, ItemsOf, Valid;
    CutInChild(ItemsOf(done), Items(child), ItemsOf(after), k);
  }

  lemma {:induction false} RowTurns<T, S>(m: Algebra<T, S>, done: seq<Tree<T, S>>, child: Tree<T, S>, rest: seq<Tree<T,
                                          S>>)
    requires rest != [] && rest[0] == child && ItemsOf(done + [child]) == ItemsOf(done) + Items(child)
    ensures ItemsOf(done + [child]) + ItemsOf(rest[1..]) == ItemsOf(done) + ItemsOf(rest)
  {
    assert ItemsOf(rest) == Items(child) + ItemsOf(rest[1..]);
  }

  lemma {:induction false} RowSnoc<T, S>(m: Algebra<T, S>, ts: seq<Tree<T, S>>, t: Tree<T, S>)
    requires Valid(m, t) && !t.IsEmpty() && ValidRow(m, ts, t.Height())
    ensures ValidRow(m, ts + [t], t.Height()) && ItemsOf(ts + [t]) == ItemsOf(ts) + Items(t)
  {
    RowOne(m, t);
    RowConcat(m, ts, [t], t.Height());
  }

  lemma {:induction false} CutInChild<T>(done: seq<T>, child: seq<T>, rest: seq<T>, k: int)
    requires |done| <= k < |done| + |child|
    ensures var all := done + (child + rest);
            && all[..k] == done + child[..k - |done|]
            && all[k..] == child[k - |done|..] + rest
  {}

  // ----- prefix folds -----

  /** Where an item ends: the dimension accumulated over the first `k` items. */
  function End<T, S>(m: Algebra<T, S>, d: S -> nat, items: seq<T>, k: nat): nat
    requires k <= |items|
  {
    d(Fold(m, items[..k]))
  }

  /** How many leading items end strictly below `target`, starting at `start`. */
  function Rank<T, S>(m: Algebra<T, S>, d: S -> nat, items: seq<T>, start: nat, target: nat): (k: nat)
    ensures k <= |items|
  {
    if items == [] then 0
    else
      var end := start + d(m.measure(items[0]));
      if end < target then 1 + Rank(m, d, items[1..], end, target) else 0
  }

  /** `Rank` characterised: exactly the items whose end is below the target, a prefix. */
  lemma {:induction false} RankSpec<T(!new), S(!new)>(m: Algebra<T, S>, d: S -> nat, items: seq<T>, start: nat,
                                                      target: nat, k: nat)
    requires IsMonoid(m) && Additive(m, d) && k < |items|
    ensures k < Rank(m, d, items, start, target) <==> start + End(m, d, items, k + 1) < target
  {
    FoldCons(m, items[..k + 1]);
    assert items[..k + 1][0] == items[0] && items[..k + 1][1..] == items[1..][..k];
    if k == 0 {
      assert items[1..][..0] == [];
    } else {
      RankSpec(m, d, items[1..], start + d(m.measure(items[0])), target, k - 1);
      assert items[1..][..k - 1 + 1] == items[1..][..k];
    }
  }

  lemma {:induction false} RankPast<T, S(!new)>(m: Algebra<T, S>, d: S -> nat, a: seq<T>, b: seq<T>,
                                                start: nat, target: nat)
    requires IsMonoid(m) && Additive(m, d)
    ensures start + d(Fold(m, a)) < target ==>
              Rank(m, d, a + b, start, target) == |a| + Rank(m, d, b, start + d(Fold(m, a)), target)
    ensures start + d(Fold(m, a)) >= target ==> Rank(m, d, a + b, start, target) == Rank(m, d, a, start, target)
    decreases |a|
  {
    if a == [] {
      assert a + b == b;
    } else {
      FoldCons(m, a);
      assert (a + b)[1..] == a[1..] + b;
      RankPast(m, d, a[1..], b, start + d(m.measure(a[0])), target);
    }
  }

  /** Fold into `acc` every item ending strictly below `target`. */
  function AccumulateBefore<T, S>(m: Algebra<T, S>, d: S -> nat, t: Tree<T, S>, start: nat, acc: S, target: nat): S
    decreases t, 1
  {
    if start + d(t.summary) < target then m.add(acc, t.summary)
    else
      match t
      case Leaf(_, items) => AccumulateItems(m, d, items, start, acc, target)
      case Internal(_, _, children) => AccumulateRow(m, d, children, start, acc, target)
  }

  function AccumulateItems<T, S>(m: Algebra<T, S>, d: S -> nat, items: seq<T>, start: nat, acc: S, target: nat): S
    decreases |items|
  {
    if items == [] then acc
    else
      var end := start + d(m.measure(items[0]));
      if end < target then AccumulateItems(m, d, items[1..], end, m.add(acc, m.measure(items[0])), target) else acc
  }

  function AccumulateRow<T, S>(m: Algebra<T, S>, d: S -> nat, ts: seq<Tree<T, S>>, start: nat, acc: S, target: nat): S
    decreases ts, 0
  {
    if ts == [] then acc
    else
      var end := start + d(ts[0].summary);
      if end < target then AccumulateRow(m, d, ts[1..], end, m.add(acc, ts[0].summary), target)
      else AccumulateBefore(m, d, ts[0], start, acc, target)
  }

  function SummaryBefore<T, S>(m: Algebra<T, S>, d: S -> nat, t: Tree<T, S>, target: nat): S {
    AccumulateBefore(m, d, t, 0, m.zero, target)
  }

  /** The prefix fold projected to one dimension. */
  function MeasureBefore<T, S>(m: Algebra<T, S>, d: S -> nat, e: S -> nat, t: Tree<T, S>, target: nat): nat {
    e(SummaryBefore(m, d, t, target))
  }

  ghost predicate IsPrefixFold<T, S>(m: Algebra<T, S>, d: S -> nat, items: seq<T>, start: nat, acc: S, target: nat,
                                     r: S) {
    r == m.add(acc, Fold(m, items[..Rank(m, d, items, start, target)]))
  }

  lemma {:induction false} AccumulateItemsCorrect<T, S(!new)>(m: Algebra<T, S>, d: S -> nat, items: seq<T>, start: nat,
                                                              acc: S, target: nat)
    requires IsMonoid(m) && Additive(m, d)
    ensures IsPrefixFold(m, d, items, start, acc, target, AccumulateItems(m, d, items, start, acc, target))
    decreases |items|
  {
    var k := Rank(m, d, items, start, target);
    if k == 0 {
      assert items[..0] == [];
      assert Unit(m, acc);
    } else {
      var x := m.measure(items[0]);
      AccumulateItemsCorrect(m, d, items[1..], start + d(x), m.add(acc, x), target);
      FoldCons(m, items[..k]);
      assert items[..k][1..] == items[1..][..k - 1];
      assert Assoc(m, acc, x, Fold(m, items[1..][..k - 1]));
    }
  }

  lemma {:induction false} FoldOfPrefix<T, S(!new)>(m: Algebra<T, S>, a: seq<T>, b: seq<T>, k: nat)
    requires IsMonoid(m) && k <= |b|
    ensures Fold(m, (a + b)[..|a| + k]) == m.add(Fold(m, a), Fold(m, b[..k]))
  {
    assert (a + b)[..|a| + k] == a + b[..k];
    FoldConcat(m, a, b[..k]);
  }

  lemma {:induction false} PrefixFoldStep<T, S(!new)>(m: Algebra<T, S>, d: S -> nat, a: seq<T>, b: seq<T>, start: nat,
                                                      acc: S, target: nat, r: S)
    requires IsMonoid(m) && Additive(m, d)
    requires start + d(Fold(m, a)) < target
    requires IsPrefixFold(m, d, b, start + d(Fold(m, a)), m.add(acc, Fold(m, a)), target, r)
    ensures IsPrefixFold(m, d, a + b, start, acc, target, r)
  {
    hide Fold, Rank;
    RankPast(m, d, a, b, start, target);
    var k := Rank(m, d, b, start + d(Fold(m, a)), target);
    FoldOfPrefix(m, a, b, k);
    assert Assoc(m, acc, Fold(m, a), Fold(m, b[..k]));
  }

  lemma {:induction false} PrefixFoldWhole<T, S(!new)>(m: Algebra<T, S>, d: S -> nat, a: seq<T>, start: nat, acc: S,
                                                       target: nat)
    requires IsMonoid(m) && Additive(m, d)
    requires start + d(Fold(m, a)) < target
    ensures IsPrefixFold(m, d, a, start, acc, target, m.add(acc, Fold(m, a)))
  {
    RankPast(m, d, a, [], start, target);
    assert a + [] == a && a[..|a|] == a;
  }

  lemma {:induction false} AccumulateCorrect<T, S(!new)>(m: Algebra<T, S>, d: S -> nat, t: Tree<T, S>, start: nat,
                                                         acc: S, target: nat)
    requires IsMonoid(m) && Additive(m, d) && Valid(m, t)
    ensures IsPrefixFold(m, d, Items(t), start, acc, target, AccumulateBefore(m, d, t, start, acc, target))
    decreases t, 1
  {
    SummaryIsFold(m, t);
    if start + d(t.summary) < target {
      PrefixFoldWhole(m, d, Items(t), start, acc, target);
    } else if t.Leaf? {
      AccumulateItemsCorrect(m, d, t.items, start, acc, target);
    } else {
      AccumulateRowCorrect(m, d, t.children, t.height - 1, start, acc, target);
    }
  }

  lemma {:induction false} AccumulateRowCorrect<T, S(!new)>(m: Algebra<T, S>, d: S -> nat, ts: seq<Tree<T, S>>, h: nat,
                                                            start: nat, acc: S, target: nat)
    requires IsMonoid(m) && Additive(m, d) && ValidRow(m, ts, h)
    ensures IsPrefixFold(m, d, ItemsOf(ts), start, acc, target, AccumulateRow(m, d, ts, start, acc, target))
    decreases ts, 0
  {
    if ts == [] {
      assert Unit(m, acc);
      assert ItemsOf(ts)[..0] == [];
    } else {
      var a, b := Items(ts[0]), ItemsOf(ts[1..]);
      SummaryIsFold(m, ts[0]);
      if start + d(ts[0].summary) < target {
        AccumulateRowCorrect(m, d, ts[1..], h, start + d(ts[0].summary), m.add(acc, ts[0].summary), target);
        PrefixFoldStep(m, d, a, b, start, acc, target, AccumulateRow(m, d, ts, start, acc, target));
      } else {
        AccumulateCorrect(m, d, ts[0], start, acc, target);
        RankPast(m, d, a, b, start, target);
        var k := Rank(m, d, a, start, target);
        assert (a + b)[..k] == a[..k];
      }
    }
  }

  /** The prefix fold of a tree of any shape is the fold of the items ending below the target. */
  lemma {:induction false} SummaryBeforeCorrect<T, S(!new)>(m: Algebra<T, S>, d: S -> nat, t: Tree<T, S>, target: nat)
    requires IsMonoid(m) && Additive(m, d) && Valid(m, t)
    ensures SummaryBefore(m, d, t, target) == Fold(m, Items(t)[..Rank(m, d, Items(t), 0, target)])
  {
    AccumulateCorrect(m, d, t, 0, m.zero, target);
    assert Unit(m, Fold(m, Items(t)[..Rank(m, d, Items(t), 0, target)]));
  }

  // ----- seeks -----

  /** The first item whose end exceeds `target`, or the last item. */
  function SeekIndex<T, S>(m: Algebra<T, S>, d: S -> nat, items: seq<T>, start: nat, target: nat): (k: nat)
    requires items != []
    ensures k < |items|
  {
    var end := start + d(m.measure(items[0]));
    if end > target || |items| == 1 then 0 else 1 + SeekIndex(m, d, items[1..], end, target)
  }

  /** What a seek reports: the item, and two dimensions accumulated at its start. */
  datatype Sought<T> = Sought(item: T, at: nat, also: nat)

  function Seek<T, S>(m: Algebra<T, S>, d: S -> nat, e: S -> nat, t: Tree<T, S>, target: nat): Option<Sought<T>>
    requires Valid(m, t)
  {
    if t.IsEmpty() then None else Some(SeekFrom(m, d, e, t, 0, 0, target))
  }

  function SeekFrom<T, S>(m: Algebra<T, S>, d: S -> nat, e: S -> nat, t: Tree<T, S>, a: nat, b: nat,
                          target: nat): Sought<T>
    requires Valid(m, t) && !t.IsEmpty()
    decreases t, 1
  {
    match t
    case Leaf(_, items) => SeekItems(m, d, e, items, a, b, target)
    case Internal(h, _, children) => SeekRow(m, d, e, children, h - 1, a, b, target)
  }

  function SeekItems<T, S>(m: Algebra<T, S>, d: S -> nat, e: S -> nat, items: seq<T>, a: nat, b: nat,
                           target: nat): Sought<T>
    requires items != []
  {
    var s := m.measure(items[0]);
    if a + d(s) > target || |items| == 1 then Sought(items[0], a, b)
    else SeekItems(m, d, e, items[1..], a + d(s), b + e(s), target)
  }

  function SeekRow<T, S>(m: Algebra<T, S>, d: S -> nat, e: S -> nat, ts: seq<Tree<T, S>>, ghost h: nat,
                         a: nat, b: nat, target: nat): Sought<T>
    requires ts != [] && ValidRow(m, ts, h)
    decreases ts, 0
  {
    var s := ts[0].summary;
    if a + d(s) > target || |ts| == 1 then SeekFrom(m, d, e, ts[0], a, b, target)
    else SeekRow(m, d, e, ts[1..], h, a + d(s), b + e(s), target)
  }

  ghost predicate IsSought<T, S>(m: Algebra<T, S>, d: S -> nat, e: S -> nat, items: seq<T>, a: nat, b: nat,
                                 target: nat, r: Sought<T>)
    requires items != []
  {
    var k := SeekIndex(m, d, items, a, target);
    r == Sought(items[k], a + End(m, d, items, k), b + End(m, e, items, k))
  }

  lemma {:induction false} EndCons<T, S(!new)>(m: Algebra<T, S>, d: S -> nat, items: seq<T>, k: nat)
    requires IsMonoid(m) && Additive(m, d) && 0 < k <= |items|
    ensures End(m, d, items, k) == d(m.measure(items[0])) + End(m, d, items[1..], k - 1)
  {
    FoldCons(m, items[..k]);
    assert items[..k][1..] == items[1..][..k - 1];
  }

  lemma {:induction false} SeekItemsCorrect<T, S(!new)>(m: Algebra<T, S>, d: S -> nat, e: S -> nat, items: seq<T>,
                                                        a: nat, b: nat, target: nat)
    requires IsMonoid(m) && Additive(m, d) && Additive(m, e) && items != []
    ensures IsSought(m, d, e, items, a, b, target, SeekItems(m, d, e, items, a, b, target))
    decreases |items|
  {
    var s := m.measure(items[0]);
    if a + d(s) > target || |items| == 1 {
      assert items[..0] == [];
    } else {
      SeekItemsCorrect(m, d, e, items[1..], a + d(s), b + e(s), target);
      var k := SeekIndex(m, d, items, a, target);
      EndCons(m, d, items, k);
      EndCons(m, e, items, k);
    }
  }

  lemma {:induction false} SeekIndexConcat<T, S(!new)>(m: Algebra<T, S>, d: S -> nat, x: seq<T>, y: seq<T>, a: nat,
                                                       target: nat)
    requires IsMonoid(m) && Additive(m, d) && x != []
    ensures a + d(Fold(m, x)) > target || y == [] ==> SeekIndex(m, d, x + y, a, target) == SeekIndex(m, d, x, a, target)
    ensures a + d(Fold(m, x)) <= target && y != [] ==>
              SeekIndex(m, d, x + y, a, target) == |x| + SeekIndex(m, d, y, a + d(Fold(m, x)), target)
    decreases |x|
  {
    FoldCons(m, x);
    assert (x + y)[1..] == x[1..] + y;
    if |x| == 1 {
      assert x[1..] == [] && x[1..] + y == y;
      assert x + [] == x;
    } else {
      SeekIndexConcat(m, d, x[1..], y, a + d(m.measure(x[0])), target);
    }
  }

  lemma {:induction false} SeekCorrect<T, S(!new)>(m: Algebra<T, S>, d: S -> nat, e: S -> nat, t: Tree<T, S>,
                                                   a: nat, b: nat, target: nat)
    requires IsMonoid(m) && Additive(m, d) && Additive(m, e) && Valid(m, t) && !t.IsEmpty()
    ensures Items(t) != [] && IsSought(m, d, e, Items(t), a, b, target, SeekFrom(m, d, e, t, a, b, target))
    decreases t, 1
  {
    EmptyIffNoItems(m, t);
    if t.Leaf? {
      SeekItemsCorrect(m, d, e, t.items, a, b, target);
    } else {
      SeekRowCorrect(m, d, e, t.children, t.height - 1, a, b, target);
    }
  }

  lemma {:induction false} EndConcat<T, S(!new)>(m: Algebra<T, S>, d: S -> nat, x: seq<T>, y: seq<T>, k: nat)
    requires IsMonoid(m) && Additive(m, d) && k <= |x| + |y|
    ensures k <= |x| ==> End(m, d, x + y, k) == End(m, d, x, k)
    ensures k >= |x| ==> End(m, d, x + y, k) == d(Fold(m, x)) + End(m, d, y, k - |x|)
  {
    if k <= |x| {
      assert (x + y)[..k] == x[..k];
    }
    if k >= |x| {
      assert (x + y)[..k] == x + y[..k - |x|];
      FoldConcat(m, x, y[..k - |x|]);
    }
  }

  lemma {:induction false} SoughtInFirst<T, S(!new)>(m: Algebra<T, S>, d: S -> nat, e: S -> nat, x: seq<T>, y: seq<T>,
                                                     a: nat, b: nat, target: nat, r: Sought<T>)
    requires IsMonoid(m) && Additive(m, d) && Additive(m, e) && x != []
    requires a + d(Fold(m, x)) > target || y == []
    requires IsSought(m, d, e, x, a, b, target, r)
    ensures IsSought(m, d, e, x + y, a, b, target, r)
  {
    SeekIndexConcat(m, d, x, y, a, target);
    var k := SeekIndex(m, d, x, a, target);
    EndConcat(m, d, x, y, k);
    EndConcat(m, e, x, y, k);
  }

  lemma {:induction false} SoughtInRest<T, S(!new)>(m: Algebra<T, S>, d: S -> nat, e: S -> nat, x: seq<T>, y: seq<T>,
                                                    a: nat, b: nat, target: nat, r: Sought<T>)
    requires IsMonoid(m) && Additive(m, d) && Additive(m, e) && x != [] && y != []
    requires a + d(Fold(m, x)) <= target
    requires IsSought(m, d, e, y, a + d(Fold(m, x)), b + e(Fold(m, x)), target, r)
    ensures IsSought(m, d, e, x + y, a, b, target, r)
  {
    hide Fold;
    SeekIndexConcat(m, d, x, y, a, target);
    var k := |x| + SeekIndex(m, d, y, a + d(Fold(m, x)), target);
    EndConcat(m, d, x, y, k);
    EndConcat(m, e, x, y, k);
  }

  lemma {:induction false} SeekRowCorrect<T, S(!new)>(m: Algebra<T, S>, d: S -> nat, e: S -> nat, ts: seq<Tree<T, S>>,
                                                      h: nat, a: nat, b: nat, target: nat)
    requires IsMonoid(m) && Additive(m, d) && Additive(m, e) && ts != [] && ValidRow(m, ts, h)
    ensures ItemsOf(ts) != [] && IsSought(m, d, e, ItemsOf(ts), a, b, target, SeekRow(m, d, e, ts, h, a, b, target))
    decreases ts, 0
  {
    hide Fold, IsSought, SeekFrom;
    var x, y, s := Items(ts[0]), ItemsOf(ts[1..]), ts[0].summary;
    SummaryIsFold(m, ts[0]);
    EmptyIffNoItems(m, ts[0]);
    if a + d(s) > target || |ts| == 1 {
      SeekCorrect(m, d, e, ts[0], a, b, target);
      SoughtInFirst(m, d, e, x, y, a, b, target, SeekFrom(m, d, e, ts[0], a, b, target));
    } else {
      SeekRowCorrect(m, d, e, ts[1..], h, a + d(s), b + e(s), target);
      SoughtInRest(m, d, e, x, y, a, b, target, SeekRow(m, d, e, ts[1..], h, a + d(s), b + e(s), target));
    }
  }

  /** Seeking by the item index lands on that item. */
  lemma {:induction false} SeekIndexByCount<T(!new), S(!new)>(m: Algebra<T, S>, c: S -> nat, items: seq<T>, start: nat,
                                                              k: nat)
    requires IsMonoid(m) && Counts(m, c) && items != [] && start <= k
    ensures SeekIndex(m, c, items, start, k) == if k - start < |items| then k - start else |items| - 1
    decreases |items|
  {
    if k > start && |items| > 1 {
      SeekIndexByCount(m, c, items[1..], start + 1, k);
    }
  }

  /** The `k`-th item and where it starts, found by a count seek in a tree of any shape. */
  lemma {:induction false} SeekByCount<T(!new), S(!new)>(m: Algebra<T, S>, c: S -> nat, e: S -> nat, t: Tree<T, S>,
                                                         k: nat)
    requires IsMonoid(m) && Counts(m, c) && Additive(m, e) && Valid(m, t)
    ensures var items := Items(t);
            var r := Seek(m, c, e, t, k);
            if items == [] then r == None
            else var i := if k < |items| then k else |items| - 1;
                 r == Some(Sought(items[i], i, End(m, e, items, i)))
  {
    EmptyIffNoItems(m, t);
    var items := Items(t);
    if items != [] {
      SeekCorrect(m, c, e, t, 0, 0, k);
      SeekIndexByCount(m, c, items, 0, k);
      var i := SeekIndex(m, c, items, 0, k);
      CountIsLength(m, c, items[..i]);
    }
  }

  // ----- suffix walks -----

  /** One visit of a suffix walk: a run's cached summary and where the run starts. */
  datatype Part<S> = Part(summary: S, start: nat)

  /** The maximal subtrees covering every item that ends at or after `target`, in order.  A
      subtree wholly in the suffix is handed over as its one cached summary. */
  function SuffixParts<T, S>(m: Algebra<T, S>, d: S -> nat, t: Tree<T, S>, start: nat, target: nat): seq<Part<S>>
    decreases t, 1
  {
    match t
    case Leaf(_, items) => SuffixItems(m, d, items, start, target)
    case Internal(_, _, children) => SuffixRow(m, d, children, start, target)
  }

  function SuffixItems<T, S>(m: Algebra<T, S>, d: S -> nat, items: seq<T>, start: nat, target: nat): seq<Part<S>>
    decreases |items|
  {
    if items == [] then []
    else
      var s := m.measure(items[0]);
      (if start + d(s) >= target then [Part(s, start)] else []) + SuffixItems(m, d, items[1..], start + d(s), target)
  }

  function SuffixRow<T, S>(m: Algebra<T, S>, d: S -> nat, ts: seq<Tree<T, S>>, start: nat, target: nat): seq<Part<S>>
    decreases ts, 0
  {
    if ts == [] then []
    else
      var s := ts[0].summary;
      (if start + d(s) < target then []
       else if start >= target then [Part(s, start)]
       else SuffixParts(m, d, ts[0], start, target))
      + SuffixRow(m, d, ts[1..], start + d(s), target)
  }

  /** `parts` are the summaries of consecutive runs of `items`, the first starting at `start`. */
  ghost predicate Covers<T, S>(m: Algebra<T, S>, d: S -> nat, parts: seq<Part<S>>, items: seq<T>, start: nat)
    decreases |parts|
  {
    if parts == [] then items == []
    else exists k: nat ::
           && k <= |items|
           && parts[0] == Part(Fold(m, items[..k]), start)
           && Covers(m, d, parts[1..], items[k..], start + d(Fold(m, items[..k])))
  }

  /** The first run a list of parts stands for. */
  lemma {:induction false} CoversHead<T, S>(m: Algebra<T, S>, d: S -> nat, parts: seq<Part<S>>, items: seq<T>,
                                            start: nat) returns (k: nat)
    requires parts != [] && Covers(m, d, parts, items, start)
    ensures k <= |items| && parts[0] == Part(Fold(m, items[..k]), start)
    ensures Covers(m, d, parts[1..], items[k..], start + d(Fold(m, items[..k])))
  {
    k :| k <= |items| && parts[0] == Part(Fold(m, items[..k]), start)
         && Covers(m, d, parts[1..], items[k..], start + d(Fold(m, items[..k])));
  }

  lemma {:induction false} CoversConcat<T, S(!new)>(m: Algebra<T, S>, d: S -> nat, p: seq<Part<S>>, q: seq<Part<S>>,
                                                    x: seq<T>, y: seq<T>, start: nat)
    requires IsMonoid(m) && Additive(m, d)
    requires Covers(m, d, p, x, start) && Covers(m, d, q, y, start + d(Fold(m, x)))
    ensures Covers(m, d, p + q, x + y, start)
    decreases |p|
  {
    hide Fold;
    if p == [] {
      FoldNil(m);
      assert p + q == q && x + y == y;
    } else {
      var k := CoversHead(m, d, p, x, start);
      EndRest(m, d, x, k);
      CoversConcat(m, d, p[1..], q, x[k..], y, start + d(Fold(m, x[..k])));
      assert (p + q)[1..] == p[1..] + q;
      assert (x + y)[..k] == x[..k] && (x + y)[k..] == x[k..] + y;
    }
  }

  lemma {:induction false} EndRest<T, S(!new)>(m: Algebra<T, S>, d: S -> nat, x: seq<T>, k: nat)
    requires IsMonoid(m) && Additive(m, d) && k <= |x|
    ensures d(Fold(m, x)) == d(Fold(m, x[..k])) + d(Fold(m, x[k..]))
  {
    hide Fold;
    FoldConcat(m, x[..k], x[k..]);
    assert x[..k] + x[k..] == x;
  }

  lemma {:induction false} CoversOne<T, S(!new)>(m: Algebra<T, S>, d: S -> nat, items: seq<T>, start: nat)
    ensures Covers(m, d, [Part(Fold(m, items), start)], items, start)
  {
    hide Fold;
    assert items[..|items|] == items && items[|items|..] == [];
    assert [Part(Fold(m, items), start)][1..] == [];
    assert Covers<T, S>(m, d, [], items[|items|..], start + d(Fold(m, items)));
  }

  ghost predicate CoversSuffix<T, S>(m: Algebra<T, S>, d: S -> nat, parts: seq<Part<S>>, items: seq<T>,
                                     start: nat, target: nat)
  {
    var k := Rank(m, d, items, start, target);
    Covers(m, d, parts, items[k..], start + End(m, d, items, k))
  }

  lemma {:induction false} AllInSuffix<T, S>(m: Algebra<T, S>, d: S -> nat, items: seq<T>, start: nat, target: nat)
    requires start >= target
    ensures Rank(m, d, items, start, target) == 0
  {}

  lemma {:induction false} CoversSuffixSkip<T, S(!new)>(m: Algebra<T, S>, d: S -> nat, x: seq<T>, y: seq<T>, start: nat,
                                                        target: nat, parts: seq<Part<S>>)
    requires IsMonoid(m) && Additive(m, d) && start + d(Fold(m, x)) < target
    requires CoversSuffix(m, d, parts, y, start + d(Fold(m, x)), target)
    ensures CoversSuffix(m, d, parts, x + y, start, target)
  {
    hide Fold, Rank;
    RankPast(m, d, x, y, start, target);
    var k := Rank(m, d, y, start + d(Fold(m, x)), target);
    EndConcat(m, d, x, y, |x| + k);
    assert (x + y)[|x| + k..] == y[k..];
  }

  lemma {:induction false} CoversSuffixJoin<T, S(!new)>(m: Algebra<T, S>, d: S -> nat, x: seq<T>, y: seq<T>, start: nat,
                                                        target: nat, p: seq<Part<S>>, q: seq<Part<S>>)
    requires IsMonoid(m) && Additive(m, d) && start + d(Fold(m, x)) >= target
    requires CoversSuffix(m, d, p, x, start, target)
    requires CoversSuffix(m, d, q, y, start + d(Fold(m, x)), target)
    ensures CoversSuffix(m, d, p + q, x + y, start, target)
  {
    hide Fold, Rank, Covers;
    var k := Rank(m, d, x, start, target);
    RankPast(m, d, x, y, start, target);
    AllInSuffix(m, d, y, start + d(Fold(m, x)), target);
    JoinAt(m, d, x, y, start, k, p, q);
  }

  lemma {:induction false} JoinAt<T, S(!new)>(m: Algebra<T, S>, d: S -> nat, x: seq<T>, y: seq<T>, start: nat, k: nat,
                           p: seq<Part<S>>, q: seq<Part<S>>)
    requires IsMonoid(m) && Additive(m, d) && k <= |x|
    requires Covers(m, d, p, x[k..], start + End(m, d, x, k))
    requires Covers(m, d, q, y[0..], start + d(Fold(m, x)) + End(m, d, y, 0))
    ensures Covers(m, d, p + q, (x + y)[k..], start + End(m, d, x + y, k))
  {
    hide Fold, Covers;
    assert y[..0] == [] && y[0..] == y;
    FoldNil(m);
    EndRest(m, d, x, k);
    CoversConcat(m, d, p, q, x[k..], y, start + End(m, d, x, k));
    assert (x + y)[k..] == x[k..] + y;
    assert (x + y)[..k] == x[..k];
  }

  lemma {:induction false} CoversSuffixNil<T, S>(m: Algebra<T, S>, d: S -> nat, start: nat, target: nat)
    ensures CoversSuffix<T, S>(m, d, [], [], start, target)
  {}

  lemma {:induction false} CoversSuffixOne<T, S(!new)>(m: Algebra<T, S>, d: S -> nat, x: T, start: nat, target: nat)
    requires IsMonoid(m) && Additive(m, d) && start + d(m.measure(x)) >= target
    ensures CoversSuffix(m, d, [Part(m.measure(x), start)], [x], start, target)
  {
    FoldOne(m, x);
    CoversOne(m, d, [x], start);
    assert [x][..0] == [] && [x][0..] == [x];
  }

  lemma {:induction false} SuffixItemsCorrect<T, S(!new)>(m: Algebra<T, S>, d: S -> nat, items: seq<T>, start: nat,
                                                          target: nat)
    requires IsMonoid(m) && Additive(m, d)
    ensures CoversSuffix(m, d, SuffixItems(m, d, items, start, target), items, start, target)
    decreases |items|
  {
    hide Covers, CoversSuffix;
    if items == [] {
      CoversSuffixNil(m, d, start, target);
    } else {
      var x := [items[0]];
      FoldOne(m, items[0]);
      assert items == x + items[1..];
      var rest := SuffixItems(m, d, items[1..], start + d(m.measure(items[0])), target);
      SuffixItemsCorrect(m, d, items[1..], start + d(m.measure(items[0])), target);
      if start + d(m.measure(items[0])) < target {
        CoversSuffixSkip(m, d, x, items[1..], start, target, rest);
        assert [] + rest == rest;
      } else {
        CoversSuffixOne(m, d, items[0], start, target);
        CoversSuffixJoin(m, d, x, items[1..], start, target, [Part(m.measure(items[0]), start)], rest);
      }
    }
  }

  lemma {:induction false} SuffixPartsCorrect<T, S(!new)>(m: Algebra<T, S>, d: S -> nat, t: Tree<T, S>, start: nat,
                                                          target: nat)
    requires IsMonoid(m) && Additive(m, d) && Valid(m, t)
    ensures CoversSuffix(m, d, SuffixParts(m, d, t, start, target), Items(t), start, target)
    decreases t, 1
  {
    if t.Leaf? {
      SuffixItemsCorrect(m, d, t.items, start, target);
    } else {
      SuffixRowCorrect(m, d, t.children, t.height - 1, start, target);
    }
  }

  lemma {:induction false} CoversWhole<T, S(!new)>(m: Algebra<T, S>, d: S -> nat, x: seq<T>, start: nat, target: nat)
    requires Additive(m, d) && start >= target
    ensures CoversSuffix(m, d, [Part(Fold(m, x), start)], x, start, target)
  {
    AllInSuffix(m, d, x, start, target);
    CoversOne(m, d, x, start);
    assert x[0..] == x && x[..0] == [];
  }

  /** The walk of a tree of any shape covers exactly the items ending at or after the target. */
  lemma {:induction false} SuffixRowCorrect<T, S(!new)>(m: Algebra<T, S>, d: S -> nat, ts: seq<Tree<T, S>>, h: nat,
                                                        start: nat, target: nat)
    requires IsMonoid(m) && Additive(m, d) && ValidRow(m, ts, h)
    ensures CoversSuffix(m, d, SuffixRow(m, d, ts, start, target), ItemsOf(ts), start, target)
    decreases ts, 0
  {
    hide Fold, Covers, CoversSuffix, Rank, SuffixParts;
    if ts == [] {
      CoversSuffixNil(m, d, start, target);
    } else {
      var x, y, s := Items(ts[0]), ItemsOf(ts[1..]), ts[0].summary;
      SummaryIsFold(m, ts[0]);
      var rest := SuffixRow(m, d, ts[1..], start + d(s), target);
      SuffixRowCorrect(m, d, ts[1..], h, start + d(s), target);
      if start + d(s) < target {
        CoversSuffixSkip(m, d, x, y, start, target, rest);
        assert [] + rest == rest;
      } else if start >= target {
        CoversWhole(m, d, x, start, target);
        CoversSuffixJoin(m, d, x, y, start, target, [Part(s, start)], rest);
      } else {
        SuffixPartsCorrect(m, d, ts[0], start, target);
        CoversSuffixJoin(m, d, x, y, start, target, SuffixParts(m, d, ts[0], start, target), rest);
      }
    }
  }

  // ----- pruned visits -----

  /** One item and the dimension accumulated before it. */
  datatype Visit<T> = Visit(item: T, before: nat)

  /** Visit, in order, the items of every leaf whose path `descend` accepts. */
  function FilterVisit<T, S>(m: Algebra<T, S>, d: S -> nat, t: Tree<T, S>, start: nat,
                             descend: (nat, S) -> bool): seq<Visit<T>>
    decreases t, 1
  {
    if !descend(start, t.summary) then []
    else
      match t
      case Leaf(_, items) => VisitItems(m, d, items, start)
      case Internal(_, _, children) => VisitRow(m, d, children, start, descend)
  }

  function VisitItems<T, S>(m: Algebra<T, S>, d: S -> nat, items: seq<T>, start: nat): seq<Visit<T>> {
    if items == [] then []
    else [Visit(items[0], start)] + VisitItems(m, d, items[1..], start + d(m.measure(items[0])))
  }

  function VisitRow<T, S>(m: Algebra<T, S>, d: S -> nat, ts: seq<Tree<T, S>>, start: nat,
                          descend: (nat, S) -> bool): seq<Visit<T>>
    decreases ts, 0
  {
    if ts == [] then []
    else FilterVisit(m, d, ts[0], start, descend) + VisitRow(m, d, ts[1..], start + d(ts[0].summary), descend)
  }

  function Keep<T>(vs: seq<Visit<T>>, hit: (T, nat) -> bool): seq<Visit<T>> {
    if vs == [] then []
    else KeepOne(vs[0], hit) + Keep(vs[1..], hit)
  }

  /** A pruned run holds no hit. */
  ghost predicate PruningIsSafe<T(!new), S(!new)>(m: Algebra<T, S>, d: S -> nat, descend: (nat, S) -> bool,
                                                  hit: (T, nat) -> bool) {
    forall items: seq<T>, start: nat {:trigger Keep(VisitItems(m, d, items, start), hit)} ::
      !descend(start, Fold(m, items)) ==> Keep(VisitItems(m, d, items, start), hit) == []
  }

  lemma {:induction false} KeepConcat<T>(a: seq<Visit<T>>, b: seq<Visit<T>>, hit: (T, nat) -> bool)
    ensures Keep(a + b, hit) == Keep(a, hit) + Keep(b, hit)
    decreases |a|
  {
    if a == [] {
      assert a + b == b;
    } else {
      assert (a + b)[0] == a[0] && (a + b)[1..] == a[1..] + b;
      KeepCons(a, hit);
      KeepCons(a + b, hit);
      hide Keep;
      KeepConcat(a[1..], b, hit);
      var first := KeepOne(a[0], hit);
      assert first + (Keep(a[1..], hit) + Keep(b, hit)) == first + Keep(a[1..], hit) + Keep(b, hit);
    }
  }

  function KeepOne<T>(v: Visit<T>, hit: (T, nat) -> bool): seq<Visit<T>> {
    if hit(v.item, v.before) then [v] else []
  }

  lemma {:induction false} KeepCons<T>(vs: seq<Visit<T>>, hit: (T, nat) -> bool)
    requires vs != []
    ensures Keep(vs, hit) == KeepOne(vs[0], hit) + Keep(vs[1..], hit)
  {}

  lemma {:induction false} VisitItemsConcat<T, S(!new)>(m: Algebra<T, S>, d: S -> nat, a: seq<T>, b: seq<T>, start: nat)
    requires IsMonoid(m) && Additive(m, d)
    ensures VisitItems(m, d, a + b, start) == VisitItems(m, d, a, start) + VisitItems(m, d, b, start + d(Fold(m, a)))
    decreases |a|
  {
    if a == [] {
      assert a + b == b;
    } else {
      FoldCons(m, a);
      assert (a + b)[1..] == a[1..] + b;
      VisitItemsConcat(m, d, a[1..], b, start + d(m.measure(a[0])));
    }
  }

  /** Pruning is invisible: the hits of a pruned visit are the hits of a full scan, in order. */
  lemma {:induction false} FilterVisitCorrect<T(!new), S(!new)>(m: Algebra<T, S>, d: S -> nat, t: Tree<T, S>,
                                                                start: nat, descend: (nat, S) -> bool,
                                                                hit: (T, nat) -> bool)
    requires IsMonoid(m) && Additive(m, d) && Valid(m, t) && PruningIsSafe(m, d, descend, hit)
    ensures Keep(FilterVisit(m, d, t, start, descend), hit) == Keep(VisitItems(m, d, Items(t), start), hit)
    decreases t, 1
  {
    SummaryIsFold(m, t);
    if descend(start, t.summary) && t.Internal? {
      VisitRowCorrect(m, d, t.children, t.height - 1, start, descend, hit);
    }
  }

  lemma {:induction false} VisitRowCons<T, S>(m: Algebra<T, S>, d: S -> nat, ts: seq<Tree<T, S>>, start: nat,
                                              descend: (nat, S) -> bool)
    requires ts != []
    ensures VisitRow(m, d, ts, start, descend)
            == FilterVisit(m, d, ts[0], start, descend) + VisitRow(m, d, ts[1..], start + d(ts[0].summary), descend)
  {}

  lemma {:induction false} VisitItemsRow<T(!new), S(!new)>(m: Algebra<T, S>, d: S -> nat, ts: seq<Tree<T, S>>, h: nat,
                                                           start: nat)
    requires IsMonoid(m) && Additive(m, d) && ts != [] && ValidRow(m, ts, h)
    ensures VisitItems(m, d, ItemsOf(ts), start)
            == VisitItems(m, d, Items(ts[0]), start) + VisitItems(m, d, ItemsOf(ts[1..]), start + d(ts[0].summary))
  {
    RowHead(m, ts, h);
    SummaryIsFold(m, ts[0]);
    hide *;
    VisitItemsConcat(m, d, Items(ts[0]), ItemsOf(ts[1..]), start);
  }

  lemma {:induction false} VisitRowCorrect<T(!new), S(!new)>(m: Algebra<T, S>, d: S -> nat, ts: seq<Tree<T, S>>, h: nat,
                                                             start: nat, descend: (nat, S) -> bool,
                                                             hit: (T, nat) -> bool)
    requires IsMonoid(m) && Additive(m, d) && ValidRow(m, ts, h) && PruningIsSafe(m, d, descend, hit)
    ensures Keep(VisitRow(m, d, ts, start, descend), hit) == Keep(VisitItems(m, d, ItemsOf(ts), start), hit)
    decreases ts, 0
  {
    if ts == [] {
      hide IsMonoid, Additive, PruningIsSafe;
    } else {
      var next := start + d(ts[0].summary);
      RowHead(m, ts, h);
      hide *;
      VisitRowCons(m, d, ts, start, descend);
      VisitItemsRow(m, d, ts, h, start);
      FilterVisitCorrect(m, d, ts[0], start, descend, hit);
      VisitRowCorrect(m, d, ts[1..], h, next, descend, hit);
      KeepConcat(FilterVisit(m, d, ts[0], start, descend), VisitRow(m, d, ts[1..], next, descend), hit);
      KeepConcat(VisitItems(m, d, Items(ts[0]), start), VisitItems(m, d, ItemsOf(ts[1..]), next), hit);
    }
  }

  // ----- replacement -----

  /** Replace the items `lo..hi` by `incoming`. */
  function Replace<T(!new), S(!new)>(m: Algebra<T, S>, c: S -> nat, t: Tree<T, S>, lo: nat, hi: nat,
                                     incoming: seq<T>): (r: Tree<T, S>)
    requires IsMonoid(m) && Counts(m, c) && Valid(m, t) && lo <= hi <= |Items(t)|
    ensures Valid(m, r) && Items(r) == Items(t)[..lo] + incoming + Items(t)[hi..]
  {
    FromItemsCorrect(m, incoming);
    Append(m, Append(m, SplitAt(m, c, t, lo).0, FromItems(m, incoming)), SplitAt(m, c, t, hi).1)
  }
}
