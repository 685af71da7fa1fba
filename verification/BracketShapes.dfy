/**
 Bracket matching over a tree of bracket positions.

 The tree stores only each bracket's character and its gap from the previous one.  Each
 node caches the boundary state of the matching automaton over its run; partners, depths
 and enclosing pairs are derived by descents.  Everything here is stated against the flat
 one-pass automaton over the decoded brackets.
 */
module BracketShapes {
  import opened Base
  import opened SumTrees

  predicate IsOpener(c: byte) { c == 40 || c == 91 || c == 123 }

  predicate IsCloser(c: byte) { c == 41 || c == 93 || c == 125 }

  predicate IsBracket(c: byte) { IsOpener(c) || IsCloser(c) }

  /** Whether opener `o` is closed by closer `c`. */
  predicate Pairs(o: byte, c: byte) {
    (o == 40 && c == 41) || (o == 91 && c == 93) || (o == 123 && c == 125)
  }

  /** A stored bracket: its gap from the previous bracket, and its character. */
  datatype Item = Item(gap: nat, ch: byte)

  /** A bracket at an offset. */
  datatype Entry = Entry(off: nat, ch: byte)

  /** The boundary state of a run: leading unmatched closers, trailing unmatched openers. */
  datatype Shape = Shape(span: nat, count: nat, pending: seq<Entry>, stack: seq<Entry>)

  const EMPTY_SHAPE := Shape(0, 0, [], [])

  // ----- the shape monoid -----

  function ShiftBy(es: seq<Entry>, d: nat): (r: seq<Entry>)
    ensures |r| == |es|
    ensures forall i | 0 <= i < |es| :: r[i] == Entry(es[i].off + d, es[i].ch)
  {
    seq(|es|, i requires 0 <= i < |es| => Entry(es[i].off + d, es[i].ch))
  }

  datatype Fed = Fed(stack: seq<Entry>, rest: seq<Entry>)

  /** Closers tried against an opener stack: a match pops, a mismatch is dropped for good, and
      a closer that finds the stack empty stays pending. */
  function Feed(stack: seq<Entry>, closers: seq<Entry>): Fed
    decreases |closers|
  {
    if closers == [] then Fed(stack, [])
    else if stack == [] then
      var r := Feed([], closers[1..]);
      Fed(r.stack, [closers[0]] + r.rest)
    else if Pairs(stack[|stack| - 1].ch, closers[0].ch) then Feed(stack[..|stack| - 1], closers[1..])
    else Feed(stack, closers[1..])
  }

  function Combine(a: Shape, b: Shape): Shape {
    var fed := Feed(a.stack, ShiftBy(b.pending, a.span));
    Shape(a.span + b.span, a.count + b.count, a.pending + fed.rest, fed.stack + ShiftBy(b.stack, a.span))
  }

  /** The in-place combine: `o` is appended on the right of `s`. */
  method AddSummary(s: Shape, o: Shape) returns (r: Shape)
    ensures r == Combine(s, o)
  {
    var stack, pending := s.stack, s.pending;
    ghost var shifted := ShiftBy(o.pending, s.span);
    for i := 0 to |o.pending|
      invariant |pending| >= |s.pending| && pending[..|s.pending|] == s.pending
      invariant Feed(s.stack, shifted)
                == Fed(Feed(stack, shifted[i..]).stack, pending[|s.pending|..] + Feed(stack, shifted[i..]).rest)
    {
      var c := Entry(o.pending[i].off + s.span, o.pending[i].ch);
      assert shifted[i..][0] == c && shifted[i..][1..] == shifted[i + 1..];
      if stack != [] {
        if Pairs(stack[|stack| - 1].ch, c.ch) {
          stack := stack[..|stack| - 1];
        }
      } else {
        pending := pending + [c];
      }
    }
    assert shifted[|o.pending|..] == [];
    assert pending == s.pending + pending[|s.pending|..];
    stack := stack + ShiftBy(o.stack, s.span);
    r := Shape(s.span + o.span, s.count + o.count, pending, stack);
  }

  function Measure(it: Item): Shape {
    var e := Entry(it.gap, it.ch);
    if IsOpener(it.ch) then Shape(it.gap, 1, [], [e]) else Shape(it.gap, 1, [e], [])
  }

  const SHAPES: Algebra<Item, Shape> := Algebra(EMPTY_SHAPE, Combine, Measure)

  /** Seek by byte offset. */
  function ByteDim(s: Shape): nat { s.span }

  /** Seek by bracket index. */
  function CountDim(s: Shape): nat { s.count }

  lemma {:induction false} FeedEmptyStack(closers: seq<Entry>)
    ensures Feed([], closers) == Fed([], closers)
    decreases |closers|
  {
    if closers != [] { FeedEmptyStack(closers[1..]); }
  }

  /** Closers fall through the upper stack first; only what it leaves reaches the lower. */
  lemma {:induction false} FeedStacked(lower: seq<Entry>, upper: seq<Entry>, closers: seq<Entry>)
    ensures var up := Feed(upper, closers);
            && (up.rest != [] ==> up.stack == [])
            && Feed(lower + upper, closers) == Fed(Feed(lower, up.rest).stack + up.stack, Feed(lower, up.rest).rest)
    decreases |closers|
  {
    if closers == [] {
    } else if upper == [] {
      FeedEmptyStack(closers);
      assert lower + upper == lower;
    } else {
      assert (lower + upper)[..|lower + upper| - 1] == lower + upper[..|upper| - 1];
      if Pairs(upper[|upper| - 1].ch, closers[0].ch) {
        FeedStacked(lower, upper[..|upper| - 1], closers[1..]);
      } else {
        FeedStacked(lower, upper, closers[1..]);
      }
    }
  }

  lemma {:induction false} FeedConcat(stack: seq<Entry>, a: seq<Entry>, b: seq<Entry>)
    ensures var f := Feed(stack, a);
            Feed(stack, a + b) == Fed(Feed(f.stack, b).stack, f.rest + Feed(f.stack, b).rest)
    decreases |a|
  {
    if a == [] {
      assert a + b == b;
    } else {
      assert (a + b)[1..] == a[1..] + b;
      if stack == [] {
        FeedConcat([], a[1..], b);
      } else if Pairs(stack[|stack| - 1].ch, a[0].ch) {
        FeedConcat(stack[..|stack| - 1], a[1..], b);
      } else {
        FeedConcat(stack, a[1..], b);
      }
    }
  }

  lemma {:induction false} FeedShifted(stack: seq<Entry>, closers: seq<Entry>, d: nat)
    ensures Feed(ShiftBy(stack, d), ShiftBy(closers, d))
            == Fed(ShiftBy(Feed(stack, closers).stack, d), ShiftBy(Feed(stack, closers).rest, d))
    decreases |closers|
  {
    if closers != [] {
      assert ShiftBy(closers, d)[1..] == ShiftBy(closers[1..], d);
      if stack == [] {
        FeedShifted([], closers[1..], d);
        assert ShiftBy([], d) == [];
        assert ShiftBy([closers[0]] + Feed([], closers[1..]).rest, d)
            == [ShiftBy(closers, d)[0]] + ShiftBy(Feed([], closers[1..]).rest, d);
      } else if Pairs(stack[|stack| - 1].ch, closers[0].ch) {
        FeedShifted(stack[..|stack| - 1], closers[1..], d);
        assert ShiftBy(stack, d)[..|stack| - 1] == ShiftBy(stack[..|stack| - 1], d);
      } else {
        FeedShifted(stack, closers[1..], d);
      }
    }
  }

  lemma {:induction false} ShiftConcat(a: seq<Entry>, b: seq<Entry>, d: nat)
    ensures ShiftBy(a + b, d) == ShiftBy(a, d) + ShiftBy(b, d)
  {}

  lemma {:induction false} ShiftTwice(a: seq<Entry>, x: nat, y: nat)
    ensures ShiftBy(ShiftBy(a, x), y) == ShiftBy(a, y + x)
  {}

  /** Where the subtree boundaries are drawn does not matter. */
  lemma {:induction false} CombineAssociative(a: Shape, b: Shape, c: Shape)
    ensures Combine(Combine(a, b), c) == Combine(a, Combine(b, c))
  {
    hide Feed, ShiftBy;
    var pb, sb := ShiftBy(b.pending, a.span), ShiftBy(b.stack, a.span);
    var pc, sc := ShiftBy(c.pending, a.span + b.span), ShiftBy(c.stack, a.span + b.span);
    var ab := Feed(a.stack, pb);
    var inner := Feed(b.stack, ShiftBy(c.pending, b.span));
    // the inner combine, seen in the outer frame
    FeedShifted(b.stack, ShiftBy(c.pending, b.span), a.span);
    ShiftTwice(c.pending, b.span, a.span);
    ShiftTwice(c.stack, b.span, a.span);
    var outer := Feed(sb, pc);
    assert outer == Fed(ShiftBy(inner.stack, a.span), ShiftBy(inner.rest, a.span));
    ShiftConcat(b.pending, inner.rest, a.span);
    ShiftConcat(inner.stack, ShiftBy(c.stack, b.span), a.span);
    FeedConcat(a.stack, pb, outer.rest);
    FeedStacked(ab.stack, sb, pc);
  }

  lemma {:induction false} ShiftZero(a: seq<Entry>)
    ensures ShiftBy(a, 0) == a
  {}

  lemma {:induction false} ShapesAreAMonoid()
    ensures IsMonoid(SHAPES) && Additive(SHAPES, ByteDim) && Counts(SHAPES, CountDim)
  {
    forall a: Shape, b: Shape, c: Shape ensures Assoc(SHAPES, a, b, c) {
      CombineAssociative(a, b, c);
    }
    forall a: Shape ensures Unit(SHAPES, a) {
      FeedEmptyStack(ShiftBy(a.pending, 0));
      ShiftZero(a.pending);
      ShiftZero(a.stack);
      assert ShiftBy([], a.span) == [];
    }
  }
}
