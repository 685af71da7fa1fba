/**
 Partners, depths and enclosing pairs, derived by tree descents and equal to the one-pass
 automaton over the decoded brackets.
 */
module BracketQueries {
  import opened Base
  import opened SumTrees
  import opened BracketShapes

  type BTree = Tree<Item, Shape>

  /** The items as brackets at absolute offsets, the first gap counted from `from`. */
  function Decode(items: seq<Item>, from: nat): (r: seq<Entry>)
    ensures |r| == |items|
  {
    if items == [] then []
    else
      var off := from + items[0].gap;
      [Entry(off, items[0].ch)] + Decode(items[1..], off)
  }

  /** The brackets a tree holds. */
  function Brackets(t: BTree): seq<Entry> { Decode(Items(t), 0) }

  ghost predicate Ascending(es: seq<Entry>) {
    forall i, j | 0 <= i < j < |es| :: es[i].off < es[j].off
  }

  ghost predicate AllBrackets(es: seq<Entry>) {
    forall i | 0 <= i < |es| :: IsBracket(es[i].ch)
  }

  /** A tree as the document keeps it: exact caches, brackets at ascending offsets. */
  ghost predicate WellFormed(t: BTree) {
    Valid(SHAPES, t) && Ascending(Brackets(t)) && AllBrackets(Brackets(t))
  }

  // ----- decoding -----

  lemma {:induction false} SpanConcat(a: seq<Item>, b: seq<Item>)
    ensures Fold(SHAPES, a + b).span == Fold(SHAPES, a).span + Fold(SHAPES, b).span
  {
    hide Fold, Combine;
    ShapesAreAMonoid();
    FoldConcat(SHAPES, a, b);
    assert ByteDim(SHAPES.add(Fold(SHAPES, a), Fold(SHAPES, b))) == ByteDim(Fold(SHAPES, a)) + ByteDim(Fold(SHAPES, b));
  }

  lemma {:induction false} SpanOne(it: Item)
    ensures Fold(SHAPES, [it]) == Measure(it)
  {
    ShapesAreAMonoid();
    FoldOne(SHAPES, it);
  }

  lemma {:induction false} SpanCons(a: seq<Item>)
    requires a != []
    ensures Fold(SHAPES, a).span == a[0].gap + Fold(SHAPES, a[1..]).span
  {
    assert a == [a[0]] + a[1..];
    SpanConcat([a[0]], a[1..]);
    SpanOne(a[0]);
  }

  lemma {:induction false} DecodeConcat(a: seq<Item>, b: seq<Item>, from: nat)
    ensures Decode(a + b, from) == Decode(a, from) + Decode(b, from + Fold(SHAPES, a).span)
    decreases |a|
  {
    hide Fold;
    if a == [] {
      FoldNil(SHAPES);
      assert a + b == b;
    } else {
      SpanCons(a);
      assert (a + b)[1..] == a[1..] + b;
      DecodeConcat(a[1..], b, from + a[0].gap);
    }
  }

  lemma {:induction false} DecodePrefix(items: seq<Item>, from: nat, k: nat)
    requires k <= |items|
    ensures Decode(items, from)[..k] == Decode(items[..k], from)
    ensures Decode(items, from)[k..] == Decode(items[k..], from + Fold(SHAPES, items[..k]).span)
  {
    assert items == items[..k] + items[k..];
    DecodeConcat(items[..k], items[k..], from);
  }

  /** A bracket sits at the end of its own gap. */
  lemma {:induction false} DecodeAt(items: seq<Item>, from: nat, k: nat)
    requires k < |items|
    ensures Decode(items, from)[k] == Entry(from + End(SHAPES, ByteDim, items, k) + items[k].gap, items[k].ch)
    ensures End(SHAPES, ByteDim, items, k + 1) == End(SHAPES, ByteDim, items, k) + items[k].gap
  {
    DecodePrefix(items, from, k);
    assert Decode(items, from)[k] == Decode(items, from)[k..][0];
    assert items[..k + 1][..k] == items[..k];
  }

  /** How many brackets lie strictly before `off`. */
  function CountBefore(es: seq<Entry>, off: nat): (k: nat)
    ensures k <= |es|
  {
    if es == [] || es[0].off >= off then 0 else 1 + CountBefore(es[1..], off)
  }

  lemma {:induction false} CountBeforeSpec(es: seq<Entry>, off: nat)
    requires Ascending(es)
    ensures forall i | 0 <= i < |es| :: es[i].off < off <==> i < CountBefore(es, off)
    decreases |es|
  {
    if es != [] && es[0].off < off {
      CountBeforeSpec(es[1..], off);
      forall i | 0 < i < |es| ensures es[i].off < off <==> i < CountBefore(es, off) {
        assert es[i] == es[1..][i - 1];
      }
    }
  }

  lemma {:induction false} CountBeforeIs(es: seq<Entry>, off: nat, k: nat)
    requires Ascending(es) && k <= |es|
    requires forall i | 0 <= i < k :: es[i].off < off
    requires forall i | k <= i < |es| :: es[i].off >= off
    ensures CountBefore(es, off) == k
  {
    CountBeforeSpec(es, off);
    var c := CountBefore(es, off);
    var i := if c < k then c else k;
    if i < |es| {
      assert es[i].off < off <==> i < c;
    }
  }

  lemma {:induction false} RankIsCount(items: seq<Item>, from: nat, target: nat)
    ensures Rank(SHAPES, ByteDim, items, from, target) == CountBefore(Decode(items, from), target)
    decreases |items|
  {
    if items != [] {
      RankIsCount(items[1..], from + items[0].gap, target);
    }
  }

  /** The prefix fold at a byte offset is the fold of the brackets strictly before it. */
  lemma {:induction false} PrefixShape(t: BTree, off: nat)
    requires Valid(SHAPES, t)
    ensures SummaryBefore(SHAPES, ByteDim, t, off) == Fold(SHAPES, Items(t)[..CountBefore(Brackets(t), off)])
  {
    ShapesAreAMonoid();
    SummaryBeforeCorrect(SHAPES, ByteDim, t, off);
    RankIsCount(Items(t), 0, off);
  }

  // ----- the flat automaton -----

  /** The stack machine over a bracket list: unmatched leading closers, open openers. */
  datatype Scratch = Scratch(pending: seq<Entry>, stack: seq<Entry>)

  function ShapeOf(es: seq<Entry>): Scratch {
    if es == [] then Scratch([], [])
    else
      var s, e := ShapeOf(es[..|es| - 1]), es[|es| - 1];
      if IsOpener(e.ch) then s.(stack := s.stack + [e])
      else if s.stack == [] then s.(pending := s.pending + [e])
      else if Pairs(s.stack[|s.stack| - 1].ch, e.ch) then s.(stack := s.stack[..|s.stack| - 1])
      else s
  }

  /** The openers still open after a run, innermost last. */
  function StackOf(es: seq<Entry>): seq<Entry> { ShapeOf(es).stack }

  /** The cached shape of a run, chars and offsets, is what one left-to-right pass computes. */
  lemma {:induction false} FoldIsScratch(items: seq<Item>)
    ensures var f := Fold(SHAPES, items);
            ShapeOf(Decode(items, 0)) == Scratch(f.pending, f.stack) && f.count == |items|
    decreases |items|
  {
    hide Combine;
    if items != [] {
      var front, last := items[..|items| - 1], items[|items| - 1];
      FoldIsScratch(front);
      DecodeConcat(front, [last], 0);
      assert items == front + [last];
      var f := Fold(SHAPES, front);
      CombineOne(f, last);
      assert Decode(items, 0) == Decode(front, 0) + [Entry(f.span + last.gap, last.ch)];
      assert Decode(items, 0)[..|items| - 1] == Decode(front, 0);
    }
  }

  /** Appending one bracket to a shape is one step of the stack machine. */
  lemma {:induction false} CombineOne(f: Shape, it: Item)
    ensures var r := Combine(f, Measure(it));
            var e := Entry(f.span + it.gap, it.ch);
            && r.span == f.span + it.gap && r.count == f.count + 1
            && Scratch(r.pending, r.stack) ==
                 if IsOpener(it.ch) then Scratch(f.pending, f.stack + [e])
                 else if f.stack == [] then Scratch(f.pending + [e], [])
                 else if Pairs(f.stack[|f.stack| - 1].ch, e.ch) then Scratch(f.pending, f.stack[..|f.stack| - 1])
                 else Scratch(f.pending, f.stack)
  {
    var e := Entry(f.span + it.gap, it.ch);
    assert ShiftBy([], f.span) == [];
    assert ShiftBy([Entry(it.gap, it.ch)], f.span) == [e];
    assert f.pending + [] == f.pending;
    if IsOpener(it.ch) {
      assert Feed(f.stack, []) == Fed(f.stack, []);
    } else {
      FeedOne(f.stack, e);
      var fed := Feed(f.stack, [e]);
      assert fed.stack + [] == fed.stack;
    }
  }

  lemma {:induction false} FeedOne(stack: seq<Entry>, e: Entry)
    ensures Feed(stack, [e]) ==
              if stack == [] then Fed([], [e])
              else if Pairs(stack[|stack| - 1].ch, e.ch) then Fed(stack[..|stack| - 1], [])
              else Fed(stack, [])
  {
    assert [e][1..] == [];
    if stack == [] { FeedEmptyStack([e]); }
  }

  /** The open brackets enclosing `off`, innermost last. */
  function EnclosingOpeners(t: BTree, off: nat): seq<Entry> {
    SummaryBefore(SHAPES, ByteDim, t, off).stack
  }

  lemma {:induction false} EnclosingOpenersCorrect(t: BTree, off: nat)
    requires Valid(SHAPES, t)
    ensures EnclosingOpeners(t, off) == StackOf(Brackets(t)[..CountBefore(Brackets(t), off)])
  {
    var k := CountBefore(Brackets(t), off);
    PrefixShape(t, off);
    DecodePrefix(Items(t), 0, k);
    FoldIsScratch(Items(t)[..k]);
  }

  // ----- an opener's partner -----

  /** A right scan for the closer of an opener: found, or the openers seen and still open. */
  datatype Hunt = Found(off: nat) | Open(ls: seq<byte>)

  function HuntPending(ch: byte, ls: seq<byte>, pending: seq<Entry>, start: nat): Hunt
    decreases |pending|
  {
    if pending == [] then Open(ls)
    else
      var c := pending[0];
      if ls != [] then
        if Pairs(ls[|ls| - 1], c.ch) then HuntPending(ch, ls[..|ls| - 1], pending[1..], start)
        else HuntPending(ch, ls, pending[1..], start)
      else if Pairs(ch, c.ch) then Found(start + c.off)
      else HuntPending(ch, ls, pending[1..], start)
  }

  function Chars(es: seq<Entry>): (r: seq<byte>)
    ensures |r| == |es|
    ensures forall i | 0 <= i < |es| :: r[i] == es[i].ch
  {
    seq(|es|, i requires 0 <= i < |es| => es[i].ch)
  }

  /** Ride one run's cached shape: its pending closers, then its openers. */
  function HuntShape(ch: byte, ls: seq<byte>, s: Shape, start: nat): Hunt {
    match HuntPending(ch, ls, s.pending, start)
    case Found(o) => Found(o)
    case Open(ls') => Open(ls' + Chars(s.stack))
  }

  function HuntParts(ch: byte, ls: seq<byte>, parts: seq<Part<Shape>>): Hunt
    decreases |parts|
  {
    if parts == [] then Open(ls)
    else
      match HuntShape(ch, ls, parts[0].summary, parts[0].start)
      case Found(o) => Found(o)
      case Open(ls') => HuntParts(ch, ls', parts[1..])
  }

  function OnStack(stack: seq<Entry>, off: nat): bool { exists i | 0 <= i < |stack| :: stack[i].off == off }

  /** The partner of the opener `ch` at `off`. */
  function OpenerPartner(t: BTree, off: nat, ch: byte): Option<nat> {
    if OnStack(t.summary.stack, off) then None
    else
      match HuntParts(ch, [], SuffixParts(SHAPES, ByteDim, t, 0, off + 1))
      case Found(o) => Some(o)
      case Open(_) => None
  }

  /** The scan as it runs: a local stack, and the walk stops at the first match. */
  method ScanForPartner(t: BTree, off: nat, ch: byte) returns (r: Option<nat>)
    ensures r == OpenerPartner(t, off, ch)
  {
    if OnStack(t.summary.stack, off) { return None; }
    var ls: seq<byte> := [];
    var parts := SuffixParts(SHAPES, ByteDim, t, 0, off + 1);
    for i := 0 to |parts|
      invariant HuntParts(ch, [], parts) == HuntParts(ch, ls, parts[i..])
    {
      var shape, start := parts[i].summary, parts[i].start;
      ghost var ls0 := ls;
      for j := 0 to |shape.pending|
        invariant HuntPending(ch, ls0, shape.pending, start) == HuntPending(ch, ls, shape.pending[j..], start)
      {
        var c := shape.pending[j];
        assert shape.pending[j..][0] == c && shape.pending[j..][1..] == shape.pending[j + 1..];
        if ls != [] {
          if Pairs(ls[|ls| - 1], c.ch) { ls := ls[..|ls| - 1]; }
        } else if Pairs(ch, c.ch) {
          assert parts[i..][0] == parts[i];
          return Some(start + c.off);
        }
      }
      assert shape.pending[|shape.pending|..] == [];
      ls := ls + Chars(shape.stack);
      assert parts[i..][0] == parts[i] && parts[i..][1..] == parts[i + 1..];
    }
    assert parts[|parts|..] == [];
    return None;
  }

  /** One bracket of the hunt. */
  function HuntStep(ch: byte, h: Hunt, e: Entry): Hunt {
    match h
    case Found(o) => Found(o)
    case Open(ls) =>
      if IsOpener(e.ch) then Open(ls + [e.ch])
      else if ls == [] then if Pairs(ch, e.ch) then Found(e.off) else Open(ls)
      else if Pairs(ls[|ls| - 1], e.ch) then Open(ls[..|ls| - 1])
      else Open(ls)
  }

  /** The same hunt, bracket by bracket. */
  function HuntFlat(ch: byte, h: Hunt, es: seq<Entry>): Hunt {
    if es == [] then h else HuntStep(ch, HuntFlat(ch, h, es[..|es| - 1]), es[|es| - 1])
  }

  lemma {:induction false} HuntFlatConcat(ch: byte, h: Hunt, a: seq<Entry>, b: seq<Entry>)
    ensures HuntFlat(ch, h, a + b) == HuntFlat(ch, HuntFlat(ch, h, a), b)
    decreases |b|
  {
    if b == [] {
      assert a + b == a;
    } else {
      assert (a + b)[..|a + b| - 1] == a + b[..|b| - 1];
      HuntFlatConcat(ch, h, a, b[..|b| - 1]);
    }
  }

  lemma {:induction false} HuntFlatFound(ch: byte, o: nat, es: seq<Entry>)
    ensures HuntFlat(ch, Found(o), es) == Found(o)
    decreases |es|
  {
    if es != [] { HuntFlatFound(ch, o, es[..|es| - 1]); }
  }

  lemma {:induction false} HuntPendingSnoc(ch: byte, ls: seq<byte>, pending: seq<Entry>, c: Entry, start: nat)
    requires IsCloser(c.ch)
    ensures HuntPending(ch, ls, pending + [c], start)
            == HuntStep(ch, HuntPending(ch, ls, pending, start), Entry(start + c.off, c.ch))
    decreases |pending|
  {
    if pending == [] {
      assert [] + [c] == [c] && [c][1..] == [];
    } else {
      assert (pending + [c])[1..] == pending[1..] + [c];
      var p := pending[0];
      if ls != [] {
        HuntPendingSnoc(ch, if Pairs(ls[|ls| - 1], p.ch) then ls[..|ls| - 1] else ls, pending[1..], c, start);
      } else if !Pairs(ch, p.ch) {
        HuntPendingSnoc(ch, ls, pending[1..], c, start);
      }
    }
  }

  lemma {:induction false} CharsSnoc(es: seq<Entry>, e: Entry)
    ensures Chars(es + [e]) == Chars(es) + [e.ch]
  {}

  lemma {:induction false} CharsFront(es: seq<Entry>)
    requires es != []
    ensures Chars(es[..|es| - 1]) == Chars(es)[..|es| - 1]
  {}

  lemma {:induction false} HuntShapeSnoc(ch: byte, ls: seq<byte>, f: Shape, it: Item, start: nat)
    requires IsBracket(it.ch)
    ensures HuntShape(ch, ls, Combine(f, Measure(it)), start)
            == HuntStep(ch, HuntShape(ch, ls, f, start), Entry(start + f.span + it.gap, it.ch))
  {
    hide Combine, HuntPending, Chars;
    CombineOne(f, it);
    var r := Combine(f, Measure(it));
    var e := Entry(f.span + it.gap, it.ch);
    var h := HuntPending(ch, ls, f.pending, start);
    if IsOpener(it.ch) {
      CharsSnoc(f.stack, e);
      if h.Open? {
        assert (h.ls + Chars(f.stack)) + [e.ch] == h.ls + (Chars(f.stack) + [e.ch]);
      }
    } else if f.stack == [] {
      HuntPendingSnoc(ch, ls, f.pending, e, start);
      assert Chars([]) == [];
      if h.Open? { assert h.ls + [] == h.ls; }
      var h' := HuntStep(ch, h, Entry(start + e.off, e.ch));
      if h'.Open? { assert h'.ls + [] == h'.ls; }
    } else if h.Open? {
      CharsFront(f.stack);
      var all := h.ls + Chars(f.stack);
      assert all[|all| - 1] == f.stack[|f.stack| - 1].ch;
      assert all[..|all| - 1] == h.ls + Chars(f.stack)[..|f.stack| - 1];
    }
  }

  ghost predicate BracketItems(items: seq<Item>) {
    forall i | 0 <= i < |items| :: IsBracket(items[i].ch)
  }

  lemma {:induction false} DecodeSnoc(items: seq<Item>, last: Item, start: nat)
    ensures Decode(items + [last], start)
              == Decode(items, start) + [Entry(start + Fold(SHAPES, items).span + last.gap, last.ch)]
  {
    DecodeConcat(items, [last], start);
    assert [last][1..] == [];
  }

  /** Riding one cached summary is hunting bracket by bracket through the run it stands for. */
  lemma {:induction false} HuntShapeIsFlat(ch: byte, ls: seq<byte>, items: seq<Item>, start: nat)
    requires BracketItems(items)
    ensures HuntShape(ch, ls, Fold(SHAPES, items), start) == HuntFlat(ch, Open(ls), Decode(items, start))
    decreases |items|
  {
    if items == [] {
      assert Chars([]) == [] && ls + [] == ls;
    } else {
      var front, last := items[..|items| - 1], items[|items| - 1];
      assert items == front + [last] && BracketItems(front) && IsBracket(last.ch);
      var f := Fold(SHAPES, front);
      assert Fold(SHAPES, items) == Combine(f, Measure(last));
      hide *;
      HuntShapeIsFlat(ch, ls, front, start);
      var e := Entry(start + f.span + last.gap, last.ch);
      DecodeSnoc(front, last, start);
      HuntShapeSnoc(ch, ls, f, last, start);
      HuntFlatConcat(ch, Open(ls), Decode(front, start), [e]);
      HuntFlatOne(ch, HuntFlat(ch, Open(ls), Decode(front, start)), e);
    }
  }

  lemma {:induction false} HuntFlatOne(ch: byte, h: Hunt, e: Entry)
    ensures HuntFlat(ch, h, [e]) == HuntStep(ch, h, e)
  {
    assert [e][..0] == [];
  }

  lemma {:induction false} HuntRun(ch: byte, ls: seq<byte>, items: seq<Item>, k: nat, start: nat)
    requires BracketItems(items) && k <= |items|
    ensures HuntFlat(ch, Open(ls), Decode(items, start))
            == HuntFlat(ch, HuntShape(ch, ls, Fold(SHAPES, items[..k]), start),
                        Decode(items[k..], start + ByteDim(Fold(SHAPES, items[..k]))))
  {
    hide HuntFlat, HuntShape, Decode;
    assert items == items[..k] + items[k..];
    DecodeConcat(items[..k], items[k..], start);
    HuntShapeIsFlat(ch, ls, items[..k], start);
    HuntFlatConcat(ch, Open(ls), Decode(items[..k], start),
                   Decode(items[k..], start + Fold(SHAPES, items[..k]).span));
  }

  lemma {:induction false} BracketItemsSlice(items: seq<Item>, k: nat)
    requires BracketItems(items) && k <= |items|
    ensures BracketItems(items[..k]) && BracketItems(items[k..])
  {}

  lemma {:induction false} HuntNothing(ch: byte, ls: seq<byte>, items: seq<Item>, start: nat)
    requires Covers(SHAPES, ByteDim, [], items, start)
    ensures HuntParts(ch, ls, []) == HuntFlat(ch, Open(ls), Decode(items, start))
  {}

  lemma {:induction false} HuntPartsStep(ch: byte, ls: seq<byte>, parts: seq<Part<Shape>>)
    requires parts != []
    ensures HuntParts(ch, ls, parts) ==
              match HuntShape(ch, ls, parts[0].summary, parts[0].start)
              case Found(o) => Found(o)
              case Open(ls') => HuntParts(ch, ls', parts[1..])
  {}

  /** Skipping whole subtrees by their summaries hunts the same brackets. */
  lemma {:induction false} HuntPartsIsFlat(ch: byte, ls: seq<byte>, parts: seq<Part<Shape>>, items: seq<Item>,
                                           start: nat)
    requires BracketItems(items) && Covers(SHAPES, ByteDim, parts, items, start)
    ensures HuntParts(ch, ls, parts) == HuntFlat(ch, Open(ls), Decode(items, start))
    decreases |parts|
  {
    hide *;
    if parts == [] {
      HuntNothing(ch, ls, items, start);
    } else {
      var k := CoversHead(SHAPES, ByteDim, parts, items, start);
      BracketItemsSlice(items, k);
      HuntPartsStep(ch, ls, parts);
      HuntRun(ch, ls, items, k, start);
      var start' := start + ByteDim(Fold(SHAPES, items[..k]));
      var h := HuntShape(ch, ls, parts[0].summary, start);
      if h.Found? {
        HuntFlatFound(ch, h.off, Decode(items[k..], start'));
      } else {
        HuntPartsIsFlat(ch, h.ls, parts[1..], items[k..], start');
      }
    }
  }

  lemma {:induction false} BracketItemsOf(items: seq<Item>, from: nat)
    requires AllBrackets(Decode(items, from))
    ensures BracketItems(items)
  {
    forall i | 0 <= i < |items| ensures IsBracket(items[i].ch) {
      DecodeAt(items, from, i);
    }
  }

  /** The suffix fold from a byte offset hunts exactly the brackets at or after it. */
  lemma {:induction false} SuffixHunt(t: BTree, off: nat, ch: byte)
    requires WellFormed(t)
    ensures HuntParts(ch, [], SuffixParts(SHAPES, ByteDim, t, 0, off))
            == HuntFlat(ch, Open([]), Brackets(t)[CountBefore(Brackets(t), off)..])
  {
    hide Covers, HuntParts, HuntFlat;
    ShapesAreAMonoid();
    var items := Items(t);
    var k := CountBefore(Brackets(t), off);
    SuffixPartsCorrect(SHAPES, ByteDim, t, 0, off);
    RankIsCount(items, 0, off);
    BracketItemsOf(items, 0);
    DecodePrefix(items, 0, k);
    HuntPartsIsFlat(ch, [], SuffixParts(SHAPES, ByteDim, t, 0, off), items[k..], End(SHAPES, ByteDim, items, k));
  }

  // ----- the one-pass derivation -----

  /** One bracket, fully derived. */
  datatype Bracket = Bracket(offset: nat, open: bool, depth: nat, partner: Option<nat>)

  /** The state of the one-pass sweep: what is derived so far, and the open openers' indices. */
  datatype Sweep = Sweep(out: seq<Bracket>, stack: seq<nat>)

  function Derive(es: seq<Entry>): (s: Sweep)
    ensures |s.out| == |es|
    ensures forall i | 0 <= i < |s.stack| :: s.stack[i] < |es|
  {
    if es == [] then Sweep([], []) else Swept(es, |es| - 1, Derive(es[..|es| - 1]))
  }

  /** The sweep's step: the bracket at `k`, after the state its predecessors left. */
  function Swept(es: seq<Entry>, k: nat, s: Sweep): (r: Sweep)
    requires k < |es| && |s.out| == k && forall i | 0 <= i < |s.stack| :: s.stack[i] < k
    ensures |r.out| == k + 1 && forall i | 0 <= i < |r.stack| :: r.stack[i] <= k
  {
    var e := es[k];
    if IsOpener(e.ch) then Sweep(s.out + [Bracket(e.off, true, |s.stack|, None)], s.stack + [k])
    else if s.stack != [] && Pairs(es[s.stack[|s.stack| - 1]].ch, e.ch) then
      var top := s.stack[|s.stack| - 1];
      Sweep(s.out[top := s.out[top].(partner := Some(e.off))]
              + [Bracket(e.off, false, |s.stack| - 1, Some(es[top].off))],
            s.stack[..|s.stack| - 1])
    else Sweep(s.out + [Bracket(e.off, false, 0, None)], s.stack)
  }

  lemma {:induction false} DeriveStep(es: seq<Entry>, k: nat)
    requires k < |es|
    ensures Derive(es[..k + 1]) == Swept(es, k, Derive(es[..k]))
  {
    hide IsOpener, Pairs;
    assert es[..k + 1][..k] == es[..k];
  }

  /** The open openers with their offsets and characters. */
  ghost predicate Tracks(es: seq<Entry>, open: seq<nat>, stack: seq<(nat, byte, nat)>) {
    |stack| == |open|
    && forall i | 0 <= i < |stack| ::
         stack[i].2 == open[i] < |es| && stack[i].0 == es[open[i]].off && stack[i].1 == es[open[i]].ch
  }

  /** The sweep's step, read off the tracked stack. */
  lemma {:induction false} SweptTracked(es: seq<Entry>, k: nat, s: Sweep, stack: seq<(nat, byte, nat)>)
    requires k < |es| && |s.out| == k && (forall i | 0 <= i < |s.stack| :: s.stack[i] < k)
    requires Tracks(es, s.stack, stack)
    ensures var e, r, n := es[k], Swept(es, k, s), |stack| - 1;
            if IsOpener(e.ch) then
              r.out == s.out + [Bracket(e.off, true, |stack|, None)] && Tracks(es, r.stack, stack + [(e.off, e.ch, k)])
            else if stack != [] && Pairs(stack[n].1, e.ch) then
              && stack[n].2 < k && Tracks(es, r.stack, stack[..n])
              && r.out == s.out[stack[n].2 := s.out[stack[n].2].(partner := Some(e.off))]
                            + [Bracket(e.off, false, n, Some(stack[n].0))]
            else r.out == s.out + [Bracket(e.off, false, 0, None)] && Tracks(es, r.stack, stack)
  {
    hide IsOpener, Pairs;
  }

  lemma {:induction false} SweepStart(t: BTree)
    ensures var es := Decode(Items(t), 0);
            && es == Brackets(t) && End(SHAPES, ByteDim, Items(t), 0) == 0
            && Derive(es[..0]) == Sweep([], []) && Tracks(es, [], [])
  {}

  /** Every bracket in document order, in one stack sweep over the items. */
  method DeriveAll(t: BTree) returns (out: seq<Bracket>)
    ensures out == Derive(Brackets(t)).out
  {
    hide *;
    var items := Items(t);
    ghost var es := Decode(items, 0);
    SweepStart(t);
    out := [];
    var stack: seq<(nat, byte, nat)> := [];
    var off := 0;
    for k := 0 to |items|
      invariant off == End(SHAPES, ByteDim, items, k)
      invariant out == Derive(es[..k]).out && Tracks(es, Derive(es[..k]).stack, stack)
    {
      var ch := items[k].ch;
      off := off + items[k].gap;
      DecodeAt(items, 0, k);
      DeriveStep(es, k);
      SweptTracked(es, k, Derive(es[..k]), stack);
      if IsOpener(ch) {
        stack, out := stack + [(off, ch, |out|)], out + [Bracket(off, true, |stack|, None)];
      } else if stack != [] && Pairs(stack[|stack| - 1].1, ch) {
        var top := stack[|stack| - 1];
        stack := stack[..|stack| - 1];
        out := out[top.2 := out[top.2].(partner := Some(off))] + [Bracket(off, false, |stack|, Some(top.0))];
      } else {
        out := out + [Bracket(off, false, 0, None)];
      }
    }
    assert es[..|items|] == es;
  }

  /** The sweep's index stack is the automaton's opener stack. */
  lemma {:induction false} DeriveStack(es: seq<Entry>)
    ensures var s := Derive(es).stack;
            && |s| == |StackOf(es)|
            && forall i | 0 <= i < |s| :: es[s[i]] == StackOf(es)[i] && IsOpener(es[s[i]].ch)
    decreases |es|
  {
    if es != [] {
      DeriveStack(es[..|es| - 1]);
    }
  }

  /** Where the opener at `i` stands after the sweep of `es`, given the hunt through the rest. */
  ghost predicate OpenerState(es: seq<Entry>, i: nat, below: nat, h: Hunt)
    requires i < |es|
  {
    var s := Derive(es);
    match h
    case Found(o) => s.out[i] == Bracket(es[i].off, true, below, Some(o)) && i !in s.stack
    case Open(ls) =>
      && s.out[i] == Bracket(es[i].off, true, below, None)
      && |s.stack| == below + 1 + |ls|
      && s.stack[below] == i
      && (forall j | 0 <= j < |s.stack| && j != below :: s.stack[j] != i)
      && forall j | 0 <= j < |ls| :: es[s.stack[below + 1 + j]].ch == ls[j]
  }

  lemma {:induction false} OpenerStepPush(es: seq<Entry>, i: nat, below: nat, h: Hunt)
    requires i < |es| - 1 && IsOpener(es[|es| - 1].ch)
    requires OpenerState(es[..|es| - 1], i, below, h)
    ensures OpenerState(es, i, below, HuntStep(es[i].ch, h, es[|es| - 1]))
  {}

  /** How a closer changes the sweep's stack and the entry of an opener that is not its top. */
  lemma {:induction false} DeriveClosing(es: seq<Entry>, i: nat)
    requires i < |es| - 1 && !IsOpener(es[|es| - 1].ch)
    requires var s := Derive(es[..|es| - 1]); s.stack != [] && s.stack[|s.stack| - 1] != i
    ensures var n := |es| - 1;
            var s := Derive(es[..n]);
            && Derive(es).out[i] == s.out[i]
            && Derive(es).stack == if Pairs(es[s.stack[|s.stack| - 1]].ch, es[n].ch) then s.stack[..|s.stack| - 1]
              else s.stack
  {}

  lemma {:induction false} OpenerStepClose(es: seq<Entry>, i: nat, below: nat, h: Hunt)
    requires i < |es| - 1 && IsCloser(es[|es| - 1].ch) && h.Open? && h.ls != []
    requires OpenerState(es[..|es| - 1], i, below, h)
    ensures OpenerState(es, i, below, HuntStep(es[i].ch, h, es[|es| - 1]))
  {
    hide Derive;
    var n := |es| - 1;
    var s := Derive(es[..n]);
    var top := s.stack[|s.stack| - 1];
    assert es[..n][top].ch == h.ls[|h.ls| - 1];
    DeriveClosing(es, i);
  }

  lemma {:induction false} OpenerStepBottom(es: seq<Entry>, i: nat, below: nat)
    requires i < |es| - 1 && IsCloser(es[|es| - 1].ch)
    requires OpenerState(es[..|es| - 1], i, below, Open([]))
    ensures OpenerState(es, i, below, HuntStep(es[i].ch, Open([]), es[|es| - 1]))
  {
    var s := Derive(es[..|es| - 1]);
    assert s.stack[|s.stack| - 1] == i;
  }

  lemma {:induction false} OpenerStep(es: seq<Entry>, i: nat, below: nat, h: Hunt)
    requires AllBrackets(es) && i < |es| - 1
    requires OpenerState(es[..|es| - 1], i, below, h)
    ensures OpenerState(es, i, below, HuntStep(es[i].ch, h, es[|es| - 1]))
  {
    if IsOpener(es[|es| - 1].ch) {
      OpenerStepPush(es, i, below, h);
    } else if h.Open? && h.ls != [] {
      OpenerStepClose(es, i, below, h);
    } else if h.Open? {
      OpenerStepBottom(es, i, below);
    } else {
      OpenerStepDone(es, i, below, h.off);
    }
  }

  lemma {:induction false} OpenerStepDone(es: seq<Entry>, i: nat, below: nat, o: nat)
    requires i < |es| - 1 && IsCloser(es[|es| - 1].ch)
    requires OpenerState(es[..|es| - 1], i, below, Found(o))
    ensures OpenerState(es, i, below, Found(o))
  {}

  /** An opener is still open after a run exactly when the hunt through the rest of the run is
      still open; the openers above it are then the hunt's local stack.  Otherwise its partner
      is what the hunt found. */
  lemma {:induction false} DeriveOpener(es: seq<Entry>, i: nat)
    requires AllBrackets(es) && i < |es| && IsOpener(es[i].ch)
    ensures OpenerState(es, i, |StackOf(es[..i])|, HuntFlat(es[i].ch, Open([]), es[i + 1..]))
    decreases |es|
  {
    var n := |es| - 1;
    if i == n {
      assert es[i + 1..] == [];
      DeriveStack(es[..i]);
    } else {
      DeriveOpener(es[..n], i);
      assert es[..n][..i] == es[..i];
      assert es[..n][i + 1..] == es[i + 1..][..n - (i + 1)];
      OpenerStep(es, i, |StackOf(es[..i])|, HuntFlat(es[i].ch, Open([]), es[..n][i + 1..]));
    }
  }

  ghost function CloserView(e: Entry, stack: seq<Entry>): Bracket {
    if stack != [] && Pairs(stack[|stack| - 1].ch, e.ch)
    then Bracket(e.off, false, |stack| - 1, Some(stack[|stack| - 1].off))
    else Bracket(e.off, false, 0, None)
  }

  lemma {:induction false} DeriveNewCloser(es: seq<Entry>)
    requires es != [] && !IsOpener(es[|es| - 1].ch)
    ensures Derive(es).out[|es| - 1] == CloserView(es[|es| - 1], StackOf(es[..|es| - 1]))
  {
    var n := |es| - 1;
    var s := Derive(es[..n]);
    DeriveStack(es[..n]);
    if s.stack != [] {
      assert es[s.stack[|s.stack| - 1]] == StackOf(es[..n])[|s.stack| - 1];
    }
  }

  lemma {:induction false} DeriveKeepsCloser(es: seq<Entry>, j: nat)
    requires j < |es| - 1 && !IsOpener(es[j].ch)
    ensures Derive(es).out[j] == Derive(es[..|es| - 1]).out[j]
  {
    DeriveStack(es[..|es| - 1]);
  }

  /** A closer's entry never changes once the sweep has passed it. */
  lemma {:induction false} DeriveCloser(es: seq<Entry>, j: nat)
    requires j < |es| && !IsOpener(es[j].ch)
    ensures Derive(es).out[j] == CloserView(es[j], StackOf(es[..j]))
    decreases |es|
  {
    hide Derive, ShapeOf;
    var n := |es| - 1;
    if j < n {
      DeriveCloser(es[..n], j);
      DeriveKeepsCloser(es, j);
      assert es[..n][..j] == es[..j];
    } else {
      DeriveNewCloser(es);
    }
  }

  /** The fully derived bracket for the character `ch` at `off`. */
  function BracketView(t: BTree, off: nat, ch: byte): Bracket {
    var stack := EnclosingOpeners(t, off);
    if IsOpener(ch) then Bracket(off, true, |stack|, OpenerPartner(t, off, ch))
    else if stack != [] && Pairs(stack[|stack| - 1].ch, ch) then
      Bracket(off, false, |stack| - 1, Some(stack[|stack| - 1].off))
    else Bracket(off, false, 0, None)
  }

  lemma {:induction false} CountBeforeAt(es: seq<Entry>, i: nat)
    requires Ascending(es) && i < |es|
    ensures CountBefore(es, es[i].off) == i && CountBefore(es, es[i].off + 1) == i + 1
  {
    CountBeforeIs(es, es[i].off, i);
    CountBeforeIs(es, es[i].off + 1, i + 1);
  }

  lemma {:induction false} RootStack(t: BTree)
    requires WellFormed(t)
    ensures t.summary.stack == StackOf(Brackets(t))
  {
    ShapesAreAMonoid();
    SummaryIsFold(SHAPES, t);
    FoldIsScratch(Items(t));
  }

  /** The tree's partner of an opener is the one the sweep records. */
  lemma {:induction false} OpenerPartnerCorrect(t: BTree, i: nat)
    requires WellFormed(t) && i < |Brackets(t)| && IsOpener(Brackets(t)[i].ch)
    ensures OpenerPartner(t, Brackets(t)[i].off, Brackets(t)[i].ch) == Derive(Brackets(t)).out[i].partner
  {
    hide HuntParts, HuntFlat, Derive, ShapeOf;
    var es := Brackets(t);
    CountBeforeAt(es, i);
    SuffixHunt(t, es[i].off + 1, es[i].ch);
    DeriveOpener(es, i);
    RootStack(t);
    DeriveStack(es);
    StackedIffOpen(es, i);
  }

  lemma {:induction false} StackedIffOpen(es: seq<Entry>, i: nat)
    requires Ascending(es) && i < |es|
    ensures OnStack(StackOf(es), es[i].off) <==> i in Derive(es).stack
  {
    hide Derive, ShapeOf;
    DeriveStack(es);
    var s := Derive(es).stack;
    if i in s {
      var j :| 0 <= j < |s| && s[j] == i;
      assert StackOf(es)[j].off == es[i].off;
    }
    if OnStack(StackOf(es), es[i].off) {
      var j :| 0 <= j < |StackOf(es)| && StackOf(es)[j].off == es[i].off;
      assert es[s[j]].off == es[i].off;
      assert s[j] == i;
    }
  }

  /** For every bracket of every tree, the descents derive what the one-pass sweep derives. */
  lemma {:induction false} ViewIsSweep(t: BTree, i: nat)
    requires WellFormed(t) && i < |Brackets(t)|
    ensures BracketView(t, Brackets(t)[i].off, Brackets(t)[i].ch) == Derive(Brackets(t)).out[i]
  {
    hide OpenerPartner, EnclosingOpeners, Derive;
    var es := Brackets(t);
    CountBeforeAt(es, i);
    EnclosingOpenersCorrect(t, es[i].off);
    if IsOpener(es[i].ch) {
      OpenerPartnerCorrect(t, i);
      DeriveOpener(es, i);
    } else {
      DeriveCloser(es, i);
    }
  }

  // ----- what the sweep means -----

  /** A hunt that finds something finds the offset of a closer it passed. */
  lemma {:induction false} HuntFindsCloser(ch: byte, ls: seq<byte>, es: seq<Entry>) returns (j: nat)
    requires AllBrackets(es) && HuntFlat(ch, Open(ls), es).Found?
    ensures j < |es| && HuntFlat(ch, Open(ls), es) == Found(es[j].off) && IsCloser(es[j].ch) && Pairs(ch, es[j].ch)
    ensures HuntFlat(ch, Open(ls), es[..j]) == Open([])
    decreases |es|
  {
    var n := |es| - 1;
    if HuntFlat(ch, Open(ls), es[..n]).Found? {
      j := HuntFindsCloser(ch, ls, es[..n]);
      assert es[..n][..j] == es[..j];
    } else {
      j := n;
    }
  }

  /** While an inner opener is still open, the outer opener's hunt carries it on its stack. */
  lemma {:induction false} HuntAbove(outer: byte, ls: seq<byte>, inner: byte, es: seq<Entry>)
    requires HuntFlat(inner, Open([]), es).Open?
    ensures HuntFlat(outer, Open(ls + [inner]), es) == Open(ls + [inner] + HuntFlat(inner, Open([]), es).ls)
    decreases |es|
  {
    if es == [] {
      assert ls + [inner] + [] == ls + [inner];
    } else {
      HuntAbove(outer, ls, inner, es[..|es| - 1]);
      var up, e := HuntFlat(inner, Open([]), es[..|es| - 1]).ls, es[|es| - 1];
      var all := ls + [inner] + up;
      if IsOpener(e.ch) {
        assert all + [e.ch] == ls + [inner] + (up + [e.ch]);
      } else if up != [] {
        assert all[|all| - 1] == up[|up| - 1];
        assert all[..|all| - 1] == ls + [inner] + up[..|up| - 1];
      } else {
        assert all[|all| - 1] == inner;
      }
    }
  }

  /** Two brackets are bonded: the opener at `i` closes at `j`. */
  ghost predicate Bonded(es: seq<Entry>, i: nat, j: nat) {
    && i < j < |es| && IsOpener(es[i].ch) && Pairs(es[i].ch, es[j].ch)
    && HuntFlat(es[i].ch, Open([]), es[i + 1..j]) == Open([])
  }

  /** The sweep's partners are exactly the bonds. */
  lemma {:induction false} PartnerIsBond(es: seq<Entry>, i: nat, j: nat)
    requires Ascending(es) && AllBrackets(es) && i < |es| && j < |es|
    ensures Derive(es).out[i].open && Derive(es).out[i].partner == Some(es[j].off) <==> Bonded(es, i, j)
  {
    hide Derive, HuntFlat;
    if IsOpener(es[i].ch) {
      DeriveOpener(es, i);
      var tail := es[i + 1..];
      var h := HuntFlat(es[i].ch, Open([]), tail);
      if h.Found? {
        var k := HuntFindsCloser(es[i].ch, [], tail);
        assert tail[k] == es[i + 1 + k] && tail[..k] == es[i + 1..i + 1 + k];
        if Bonded(es, i, j) { BondIsFound(es, i, j); }
      }
      if Bonded(es, i, j) { BondIsFound(es, i, j); }
    } else {
      DeriveCloser(es, i);
    }
  }

  lemma {:induction false} BondIsFound(es: seq<Entry>, i: nat, j: nat)
    requires AllBrackets(es) && Bonded(es, i, j)
    ensures HuntFlat(es[i].ch, Open([]), es[i + 1..]) == Found(es[j].off)
  {
    var ch := es[i].ch;
    assert es[i + 1..] == es[i + 1..j] + ([es[j]] + es[j + 1..]);
    HuntFlatConcat(ch, Open([]), es[i + 1..j], [es[j]] + es[j + 1..]);
    HuntFlatConcat(ch, Open([]), [es[j]], es[j + 1..]);
    HuntFlatOne(ch, Open([]), es[j]);
    HuntFlatFound(ch, es[j].off, es[j + 1..]);
  }

  /** An opener with a partner is bonded. */
  lemma {:induction false} BondOf(es: seq<Entry>, i: nat) returns (j: nat)
    requires Ascending(es) && AllBrackets(es) && i < |es| && IsOpener(es[i].ch) && Derive(es).out[i].partner.Some?
    ensures i < j < |es| && Bonded(es, i, j) && Derive(es).out[i].partner == Some(es[j].off)
  {
    hide Derive, HuntFlat;
    DeriveOpener(es, i);
    var tail := es[i + 1..];
    var k := HuntFindsCloser(es[i].ch, [], tail);
    j := i + 1 + k;
    assert tail[k] == es[j] && tail[..k] == es[i + 1..j];
  }

  /** A bond is seen from both of its ends. */
  lemma {:induction false} PartnerIsMutual(es: seq<Entry>, i: nat, j: nat)
    requires Ascending(es) && AllBrackets(es) && i < |es| && j < |es| && IsOpener(es[i].ch)
    ensures Derive(es).out[i].partner == Some(es[j].off)
            <==> !Derive(es).out[j].open && Derive(es).out[j].partner == Some(es[i].off)
  {
    hide Derive, HuntFlat;
    DeriveOpener(es, i);
    PartnerIsBond(es, i, j);
    if IsOpener(es[j].ch) {
      DeriveOpener(es, j);
    } else {
      DeriveCloser(es, j);
      CloserBond(es, i, j);
    }
  }

  lemma {:induction false} CloserBond(es: seq<Entry>, i: nat, j: nat)
    requires Ascending(es) && AllBrackets(es) && i < |es| && j < |es| && IsOpener(es[i].ch) && IsCloser(es[j].ch)
    ensures CloserView(es[j], StackOf(es[..j])).partner == Some(es[i].off) <==> Bonded(es, i, j)
  {
    hide Derive, HuntFlat, ShapeOf;
    var front := es[..j];
    DeriveStack(front);
    var s, stack := Derive(front).stack, StackOf(front);
    if i < j {
      DeriveOpener(front, i);
      assert front[i + 1..] == es[i + 1..j];
      if stack != [] && stack[|stack| - 1].off == es[i].off {
        assert front[s[|s| - 1]] == es[s[|s| - 1]];
        assert s[|s| - 1] == i;
      }
    } else if stack != [] {
      assert front[s[|s| - 1]] == es[s[|s| - 1]];
    }
  }

  /** Bonds nest: an opener inside a bonded pair closes inside it. */
  lemma {:induction false} BondsNest(es: seq<Entry>, i: nat, j: nat, i2: nat) returns (j2: nat)
    requires AllBrackets(es) && Bonded(es, i, j) && i < i2 < j && IsOpener(es[i2].ch)
    ensures i2 < j2 < j && Bonded(es, i2, j2)
  {
    hide HuntFlat;
    var inner := es[i2 + 1..j];
    assert es[i + 1..j] == es[i + 1..i2] + ([es[i2]] + inner);
    var h := HuntFlat(es[i].ch, Open([]), es[i + 1..i2]);
    HuntFlatConcat(es[i].ch, Open([]), es[i + 1..i2], [es[i2]] + inner);
    HuntFlatConcat(es[i].ch, h, [es[i2]], inner);
    HuntFlatOne(es[i].ch, h, es[i2]);
    if h.Found? {
      HuntFlatFound(es[i].ch, h.off, inner);
    } else if HuntFlat(es[i2].ch, Open([]), inner).Open? {
      HuntAbove(es[i].ch, h.ls, es[i2].ch, inner);
    }
    var k := HuntFindsCloser(es[i2].ch, [], inner);
    j2 := i2 + 1 + k;
    assert inner[..k] == es[i2 + 1..j2];
  }

  // ----- point lookups -----

  /** The bracket character at exactly `off`: as many brackets lie before it as its index. */
  function ItemCharAt(t: BTree, off: nat): Option<byte>
    requires Valid(SHAPES, t)
  {
    var k := MeasureBefore(SHAPES, ByteDim, CountDim, t, off);
    match Seek(SHAPES, CountDim, ByteDim, t, k)
    case None => None
    case Some(s) => if s.also + s.item.gap == off then Some(s.item.ch) else None
  }

  lemma {:induction false} CountMeasure(t: BTree, off: nat)
    requires Valid(SHAPES, t)
    ensures MeasureBefore(SHAPES, ByteDim, CountDim, t, off) == CountBefore(Brackets(t), off)
  {
    hide Fold, SummaryBefore;
    PrefixShape(t, off);
    FoldIsScratch(Items(t)[..CountBefore(Brackets(t), off)]);
  }

  /** A lookup answers exactly where a bracket is. */
  lemma {:induction false} ItemCharAtCorrect(t: BTree, off: nat)
    requires WellFormed(t)
    ensures forall i | 0 <= i < |Brackets(t)| ::
              Brackets(t)[i].off == off ==> ItemCharAt(t, off) == Some(Brackets(t)[i].ch)
    ensures ItemCharAt(t, off).Some? ==> Entry(off, ItemCharAt(t, off).value) in Brackets(t)
  {
    hide Decode, Seek, MeasureBefore;
    var es, items := Brackets(t), Items(t);
    ShapesAreAMonoid();
    CountMeasure(t, off);
    var k := CountBefore(es, off);
    SeekByCount(SHAPES, CountDim, ByteDim, t, k);
    CountBeforeSpec(es, off);
    if items != [] {
      var i := if k < |items| then k else |items| - 1;
      DecodeAt(items, 0, i);
      assert es[i].off == End(SHAPES, ByteDim, items, i) + items[i].gap;
      assert es[i] in es;
    }
  }

  /** The bracket at exactly `off`, fully derived. */
  function At(t: BTree, off: nat): Option<Bracket>
    requires Valid(SHAPES, t)
  {
    match ItemCharAt(t, off)
    case None => None
    case Some(ch) => Some(BracketView(t, off, ch))
  }

  /** `At` is the sweep's entry where there is a bracket, and nothing elsewhere. */
  lemma {:induction false} AtIsSweep(t: BTree, off: nat)
    requires WellFormed(t)
    ensures forall i | 0 <= i < |Brackets(t)| :: Brackets(t)[i].off == off ==>
            At(t, off) == Some(Derive(Brackets(t)).out[i])
    ensures (forall i | 0 <= i < |Brackets(t)| :: Brackets(t)[i].off != off) ==> At(t, off) == None
  {
    hide Derive, ItemCharAt, BracketView;
    ItemCharAtCorrect(t, off);
    forall i | 0 <= i < |Brackets(t)| && Brackets(t)[i].off == off
      ensures At(t, off) == Some(Derive(Brackets(t)).out[i])
    {
      ViewIsSweep(t, i);
    }
  }

  // ----- enclosing pairs -----

  /** The matched openers of a stack with their partners, top first. */
  function ClosedOf(t: BTree, stack: seq<Entry>): seq<(nat, nat)>
    decreases |stack|
  {
    if stack == [] then []
    else
      var e := stack[|stack| - 1];
      (match OpenerPartner(t, e.off, e.ch) case Some(c) => [(e.off, c)] case None => [])
      + ClosedOf(t, stack[..|stack| - 1])
  }

  /** The matched pairs strictly enclosing `caret`, innermost first. */
  function EnclosingPairs(t: BTree, caret: nat): seq<(nat, nat)> {
    ClosedOf(t, EnclosingOpeners(t, caret))
  }

  /** `p` is a bond over the cut before bracket `k`. */
  ghost predicate Spans(es: seq<Entry>, k: nat, p: (nat, nat)) {
    exists i: nat, j: nat :: Bonded(es, i, j) && i < k <= j && p == (es[i].off, es[j].off)
  }

  /** Each pair lies inside the next. */
  ghost predicate InsideOut(ps: seq<(nat, nat)>) {
    forall a, b | 0 <= a < b < |ps| :: ps[b].0 < ps[a].0 && ps[a].1 < ps[b].1
  }

  ghost predicate Rising(s: seq<nat>) {
    forall a, b | 0 <= a < b < |s| :: s[a] < s[b]
  }

  lemma {:induction false} DeriveStackAscends(es: seq<Entry>)
    ensures Rising(Derive(es).stack)
    decreases |es|
  {
    if es != [] {
      DeriveStackAscends(es[..|es| - 1]);
    }
  }

  lemma {:induction false} BondUnique(es: seq<Entry>, i: nat, j: nat, j2: nat)
    requires Ascending(es) && AllBrackets(es) && Bonded(es, i, j) && Bonded(es, i, j2)
    ensures j == j2
  {
    hide HuntFlat;
    BondIsFound(es, i, j);
    BondIsFound(es, i, j2);
    assert es[j].off == es[j2].off;
  }

  /** An opener is on the stack at a cut exactly when it does not close before the cut. */
  lemma {:induction false} StackedIffSpans(es: seq<Entry>, k: nat, i: nat, j: nat)
    requires Ascending(es) && AllBrackets(es) && k <= |es| && Bonded(es, i, j) && i < k
    ensures i in Derive(es[..k]).stack <==> k <= j
  {
    hide HuntFlat, Derive;
    var front := es[..k];
    DeriveOpener(front, i);
    if j < k {
      assert front[i + 1..j] == es[i + 1..j];
      assert Bonded(front, i, j);
      BondIsFound(front, i, j);
    } else if HuntFlat(es[i].ch, Open([]), front[i + 1..]).Found? {
      var m := HuntFindsCloser(es[i].ch, [], front[i + 1..]);
      assert front[i + 1..][..m] == es[i + 1..i + 1 + m];
      assert Bonded(es, i, i + 1 + m);
      BondUnique(es, i, j, i + 1 + m);
    }
  }

  ghost predicate SpansStacked(es: seq<Entry>, k: nat, s: seq<nat>, p: (nat, nat)) {
    exists a: nat, j: nat :: a < |s| && Bonded(es, s[a], j) && k <= j && p == (es[s[a]].off, es[j].off)
  }

  /** The stack of a cut, as indices into the brackets. */
  ghost predicate CutStack(es: seq<Entry>, k: nat, s: seq<nat>, stack: seq<Entry>) {
    && Ascending(es) && AllBrackets(es) && k <= |es| && |s| == |stack|
    && (forall a | 0 <= a < |s| :: s[a] < k && es[s[a]] == stack[a] && IsOpener(es[s[a]].ch))
    && Rising(s)
    && (forall a, j: nat | 0 <= a < |s| :: Bonded(es, s[a], j) ==> k <= j)
  }

  lemma {:induction false} CutStackHolds(es: seq<Entry>, k: nat)
    requires Ascending(es) && AllBrackets(es) && k <= |es|
    ensures CutStack(es, k, Derive(es[..k]).stack, StackOf(es[..k]))
  {
    hide Derive, ShapeOf, Bonded;
    var s := Derive(es[..k]).stack;
    DeriveStack(es[..k]);
    DeriveStackAscends(es[..k]);
    forall a, j: nat | 0 <= a < |s| && Bonded(es, s[a], j) ensures k <= j {
      BondedInRange(es, s[a], j);
      StackedIffSpans(es, k, s[a], j);
    }
  }

  lemma {:induction false} BondedInRange(es: seq<Entry>, i: nat, j: nat)
    requires Bonded(es, i, j)
    ensures i < j < |es| && IsOpener(es[i].ch)
  {}

  /** The tree's partner of the opener at `i`: the bond, if there is one. */
  lemma {:induction false} OpenerPartnerIsBond(t: BTree, i: nat)
    requires WellFormed(t) && i < |Brackets(t)| && IsOpener(Brackets(t)[i].ch)
    ensures forall j: nat | Bonded(Brackets(t), i, j) ::
            OpenerPartner(t, Brackets(t)[i].off, Brackets(t)[i].ch) == Some(Brackets(t)[j].off)
    ensures OpenerPartner(t, Brackets(t)[i].off, Brackets(t)[i].ch).Some? ==>
              exists j: nat :: Bonded(Brackets(t), i, j)
    {
    hide Derive, HuntFlat, OpenerPartner;
    var es := Brackets(t);
    OpenerPartnerCorrect(t, i);
    DeriveOpener(es, i);
    forall j: nat | Bonded(es, i, j)
      ensures OpenerPartner(t, es[i].off, es[i].ch) == Some(es[j].off)
    {
      PartnerIsBond(es, i, j);
    }
    var tail := es[i + 1..];
    if HuntFlat(es[i].ch, Open([]), tail).Found? {
      var k := HuntFindsCloser(es[i].ch, [], tail);
      assert tail[..k] == es[i + 1..i + 1 + k] && tail[k] == es[i + 1 + k];
      assert Bonded(es, i, i + 1 + k);
    }
  }

  /** One opener of the walk: its pair, if matched, spans the cut and lies inside every pair of
      the openers below it. */
  lemma {:induction false} ClosedOfCorrect(t: BTree, k: nat, s: seq<nat>, stack: seq<Entry>)
    requires WellFormed(t) && CutStack(Brackets(t), k, s, stack)
    ensures forall p :: p in ClosedOf(t, stack) <==> SpansStacked(Brackets(t), k, s, p)
    ensures InsideOut(ClosedOf(t, stack))
    decreases |s|
  {
    var es := Brackets(t);
    if s != [] {
      var n := |s| - 1;
      var top := s[n];
      hide OpenerPartner, HuntFlat, Decode, Derive;
      CutStackPop(es, k, s, stack);
      ClosedOfCorrect(t, k, s[..n], stack[..n]);
      OpenerPartnerIsBond(t, top);
      var rest := ClosedOf(t, stack[..n]);
      var partner := OpenerPartner(t, es[top].off, es[top].ch);
      if partner.Some? {
        var j: nat :| Bonded(es, top, j);
        TopSpan(es, k, s, stack, j, rest);
        assert ClosedOf(t, stack) == [(es[top].off, es[j].off)] + rest;
      } else {
        NoTopSpan(es, k, s, top);
        assert ClosedOf(t, stack) == [] + rest == rest;
      }
    }
  }

  lemma {:induction false} CutStackPop(es: seq<Entry>, k: nat, s: seq<nat>, stack: seq<Entry>)
    requires CutStack(es, k, s, stack) && s != []
    ensures CutStack(es, k, s[..|s| - 1], stack[..|s| - 1])
  {
    hide HuntFlat;
    var s' := s[..|s| - 1];
    forall a, j: nat | 0 <= a < |s'| && Bonded(es, s'[a], j) ensures k <= j {
      assert s'[a] == s[a];
    }
  }

  lemma {:induction false} NoTopSpan(es: seq<Entry>, k: nat, s: seq<nat>, top: nat)
    requires s != [] && s[|s| - 1] == top && forall j: nat :: !Bonded(es, top, j)
    ensures forall p :: SpansStacked(es, k, s, p) <==> SpansStacked(es, k, s[..|s| - 1], p)
  {
    hide HuntFlat;
    var n := |s| - 1;
    forall p ensures SpansStacked(es, k, s, p) <==> SpansStacked(es, k, s[..n], p) {
      if SpansStacked(es, k, s, p) {
        var a: nat, j: nat :| a < |s| && Bonded(es, s[a], j) && k <= j && p == (es[s[a]].off, es[j].off);
        assert a != n;
        assert s[..n][a] == s[a];
      }
      if SpansStacked(es, k, s[..n], p) {
        var a: nat, j: nat :| a < n && Bonded(es, s[..n][a], j) && k <= j && p == (es[s[..n][a]].off, es[j].off);
        assert s[..n][a] == s[a];
      }
    }
  }

  /** The innermost matched opener of a cut: its pair joins the others. */
  lemma {:induction false} TopSpan(es: seq<Entry>, k: nat, s: seq<nat>, stack: seq<Entry>, j: nat,
                                   rest: seq<(nat, nat)>)
    requires CutStack(es, k, s, stack) && s != [] && Bonded(es, s[|s| - 1], j)
    requires forall p :: p in rest <==> SpansStacked(es, k, s[..|s| - 1], p)
    requires InsideOut(rest)
    ensures var r := [(es[s[|s| - 1]].off, es[j].off)] + rest;
            (forall p :: p in r <==> SpansStacked(es, k, s, p)) && InsideOut(r)
  {
    hide HuntFlat;
    var n := |s| - 1;
    var top := (es[s[n]].off, es[j].off);
    var r := [top] + rest;
    forall p ensures p in r <==> SpansStacked(es, k, s, p) {
      if SpansStacked(es, k, s, p) {
        var a: nat, j': nat :| a < |s| && Bonded(es, s[a], j') && k <= j' && p == (es[s[a]].off, es[j'].off);
        if a == n {
          BondUnique(es, s[n], j, j');
        } else {
          assert s[..n][a] == s[a];
          assert SpansStacked(es, k, s[..n], p);
        }
      }
      if p in rest {
        var a: nat, j': nat :| a < n && Bonded(es, s[..n][a], j') && k <= j' && p == (es[s[..n][a]].off, es[j'].off);
        assert s[..n][a] == s[a];
      }
    }
    forall b | 0 <= b < |rest| ensures rest[b].0 < top.0 && top.1 < rest[b].1 {
      assert rest[b] in rest;
      TopSpanInside(es, k, s, stack, j, rest[b]);
    }
  }

  /** The innermost pair of a cut lies inside every other pair of the cut. */
  lemma {:induction false} TopSpanInside(es: seq<Entry>, k: nat, s: seq<nat>, stack: seq<Entry>, j: nat, p: (nat, nat))
    requires CutStack(es, k, s, stack) && s != [] && Bonded(es, s[|s| - 1], j)
    requires SpansStacked(es, k, s[..|s| - 1], p)
    ensures p.0 < es[s[|s| - 1]].off && es[j].off < p.1
  {
    hide HuntFlat;
    var n := |s| - 1;
    var a: nat, j': nat :| a < n && Bonded(es, s[..n][a], j') && k <= j' && p == (es[s[..n][a]].off, es[j'].off);
    assert s[..n][a] == s[a];
    var j2 := BondsNest(es, s[a], j', s[n]);
    BondUnique(es, s[n], j, j2);
  }

  lemma {:induction false} SpansIffStacked(es: seq<Entry>, k: nat)
    requires Ascending(es) && AllBrackets(es) && k <= |es|
    ensures forall p :: Spans(es, k, p) <==> SpansStacked(es, k, Derive(es[..k]).stack, p)
  {
    hide HuntFlat, Derive, ShapeOf;
    var s := Derive(es[..k]).stack;
    forall p ensures Spans(es, k, p) <==> SpansStacked(es, k, s, p) {
      if Spans(es, k, p) {
        var i: nat, j: nat :| Bonded(es, i, j) && i < k <= j && p == (es[i].off, es[j].off);
        BondedInRange(es, i, j);
        StackedIffSpans(es, k, i, j);
        var a :| 0 <= a < |s| && s[a] == i;
        assert Bonded(es, s[a], j);
      }
      if SpansStacked(es, k, s, p) {
        var a: nat, j: nat :| a < |s| && Bonded(es, s[a], j) && k <= j && p == (es[s[a]].off, es[j].off);
      }
    }
  }

  /** The enclosing pairs of a caret are exactly the bonds that open before it and close at or
      after it, innermost first. */
  lemma {:induction false} EnclosingPairsCorrect(t: BTree, caret: nat)
    requires WellFormed(t)
    ensures forall p :: p in EnclosingPairs(t, caret) <==>
              exists i: nat, j: nat :: && Bonded(Brackets(t), i, j) && p == (Brackets(t)[i].off, Brackets(t)[j].off)
                                       && Brackets(t)[i].off < caret <= Brackets(t)[j].off
    ensures InsideOut(EnclosingPairs(t, caret))
  {
    hide HuntFlat, Decode, ClosedOf, ShapeOf, Derive, CountBefore;
    var es := Brackets(t);
    var k := CountBefore(es, caret);
    EnclosingOpenersCorrect(t, caret);
    CutStackHolds(es, k);
    ClosedOfCorrect(t, k, Derive(es[..k]).stack, StackOf(es[..k]));
    SpansIffStacked(es, k);
    CountBeforeSpec(es, caret);
    forall i: nat, j: nat | Bonded(es, i, j)
      ensures i < k <= j <==> es[i].off < caret <= es[j].off
    {
      BondedInRange(es, i, j);
    }
  }
}
