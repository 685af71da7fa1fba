/**
 Edit batches: what a sorted batch makes of a text, the patch it yields, and the batch that undoes
 it.
 */
module EditBatches {
  import opened Base
  import opened Patches

  /** Put `text` where `start..end` is. */
  datatype EditOp = EditOp(start: nat, end: nat, text: Text)

  type Batch = seq<EditOp>

  /** Ascending, disjoint and inside a text of `n` bytes, none before `from`; touching is allowed. */
  ghost predicate InOrder(ops: Batch, from: nat, n: nat)
    decreases |ops|
  {
    if ops == [] then from <= n
    else from <= ops[0].start <= ops[0].end <= n && InOrder(ops[1..], ops[0].end, n)
  }

  lemma {:induction false} InOrderBounds(ops: Batch, from: nat, n: nat)
    requires InOrder(ops, from, n)
    ensures from <= n
    decreases |ops|
  {
    if ops != [] { InOrderBounds(ops[1..], ops[0].end, n); }
  }

  /** The text from `pos` on with the batch applied: gaps copied, ranges replaced. */
  ghost function Rebuilt(t: Text, ops: Batch, pos: nat): Text
    requires InOrder(ops, pos, |t|)
    decreases |ops|
  {
    InOrderBounds(ops, pos, |t|);
    if ops == [] then t[pos..]
    else t[pos..ops[0].start] + ops[0].text + Rebuilt(t, ops[1..], ops[0].end)
  }

  ghost function Applied(t: Text, ops: Batch): Text
    requires InOrder(ops, 0, |t|)
  {
    Rebuilt(t, ops, 0)
  }

  /** The net growth of a batch. */
  function Growth(ops: Batch): int {
    if ops == [] then 0 else |ops[0].text| - (ops[0].end - ops[0].start) + Growth(ops[1..])
  }

  lemma {:induction false} RebuiltLength(t: Text, ops: Batch, pos: nat)
    requires InOrder(ops, pos, |t|)
    ensures pos <= |t| && |Rebuilt(t, ops, pos)| == |t| - pos + Growth(ops)
    decreases |ops|
  {
    InOrderBounds(ops, pos, |t|);
    if ops != [] { RebuiltLength(t, ops[1..], ops[0].end); }
  }

  // ----- one op at a time -----

  /** One replacement. */
  function Replaced(t: Text, op: EditOp): Text
    requires op.start <= op.end <= |t|
  {
    t[..op.start] + op.text + t[op.end..]
  }

  /** Ops one after the other, each in the coordinates its predecessors left. */
  ghost predicate Sequential(t: Text, ops: Batch, r: Text)
    decreases |ops|
  {
    if ops == [] then r == t
    else ops[0].start <= ops[0].end <= |t| && Sequential(Replaced(t, ops[0]), ops[1..], r)
  }

  function Reversed(ops: Batch): (r: Batch)
    ensures |r| == |ops|
  {
    if ops == [] then [] else Reversed(ops[1..]) + [ops[0]]
  }

  lemma {:induction false} SequentialConcat(t: Text, a: Batch, b: Batch, m: Text, r: Text)
    requires Sequential(t, a, m) && Sequential(m, b, r)
    ensures Sequential(t, a + b, r)
    decreases |a|
  {
    if a == [] {
      assert a + b == b;
    } else {
      assert (a + b)[1..] == a[1..] + b;
      SequentialConcat(Replaced(t, a[0]), a[1..], b, m, r);
    }
  }

  /** Back to front, earlier offsets stay valid: the reversed batch, replayed one op at a time, is the
      batch, several inserts at one offset included. */
  lemma {:induction false} ReversedReplays(t: Text, ops: Batch, pos: nat)
    requires InOrder(ops, pos, |t|)
    ensures pos <= |t| && Sequential(t, Reversed(ops), t[..pos] + Rebuilt(t, ops, pos))
    decreases |ops|
  {
    InOrderBounds(ops, pos, |t|);
    if ops == [] {
      assert t[..pos] + t[pos..] == t;
    } else {
      var op := ops[0];
      ReversedReplays(t, ops[1..], op.end);
      var m := t[..op.end] + Rebuilt(t, ops[1..], op.end);
      var r := t[..pos] + Rebuilt(t, ops, pos);
      FrontOpLast(t, ops, pos);
      hide Sequential, Rebuilt, InOrder, Replaced;
      SequentialConcat(t, Reversed(ops[1..]), [op], m, r);
    }
  }

  /** Replacing the first op's range in the text whose later ops are done finishes the batch. */
  lemma {:induction false} FrontOpLast(t: Text, ops: Batch, pos: nat)
    requires InOrder(ops, pos, |t|) && ops != []
    ensures ops[0].end <= |t| && pos <= |t| && InOrder(ops[1..], ops[0].end, |t|)
    ensures Sequential(t[..ops[0].end] + Rebuilt(t, ops[1..], ops[0].end), [ops[0]], t[..pos] + Rebuilt(t, ops, pos))
  {
    var op := ops[0];
    InOrderBounds(ops, pos, |t|);
    InOrderBounds(ops[1..], op.end, |t|);
    var rest := Rebuilt(t, ops[1..], op.end);
    assert Rebuilt(t, ops, pos) == t[pos..op.start] + op.text + rest;
    hide *;
    FrontSplice(t, op, pos, rest);
    SequentialOne(t[..op.end] + rest, op);
  }

  lemma {:induction false} FrontSplice(t: Text, op: EditOp, pos: nat, rest: Text)
    requires pos <= op.start <= op.end <= |t|
    ensures Replaced(t[..op.end] + rest, op) == t[..pos] + (t[pos..op.start] + op.text + rest)
  {
    var m := t[..op.end] + rest;
    assert m[..op.start] == t[..op.start] && m[op.end..] == rest;
    assert t[..op.start] == t[..pos] + t[pos..op.start];
  }

  lemma {:induction false} SequentialOne(m: Text, op: EditOp)
    requires op.start <= op.end <= |m|
    ensures Sequential(m, [op], Replaced(m, op))
  {
    assert [op][1..] == [];
  }

  // ----- the two ways of applying a batch -----

  /** Splice each op, back to front. */
  method SpliceDescending(t: Text, ops: Batch) returns (r: Text)
    requires InOrder(ops, 0, |t|)
    ensures r == Applied(t, ops)
  {
    hide InOrder, Rebuilt;
    r := t;
    var i: nat := |ops|;
    AllInOrder(ops, |ops|, |t|);
    SplitRebuilt(t, ops, |ops|);
    while i > 0
      invariant i <= |ops| && EndOf(ops, i) <= |t| && InOrder(ops[i..], EndOf(ops, i), |t|)
      invariant r == t[..EndOf(ops, i)] + Rebuilt(t, ops[i..], EndOf(ops, i))
    {
      i := i - 1;
      AllInOrder(ops, i, |t|);
      AllInOrder(ops, i + 1, |t|);
      RebuiltStep(t, ops, i, r);
      r := Replaced(r, ops[i]);
    }
    assert ops[0..] == ops && t[..0] == [];
  }

  /** Where the gap before op `i` begins. */
  function EndOf(ops: Batch, i: nat): nat
    requires i <= |ops|
  {
    if i == 0 then 0 else ops[i - 1].end
  }

  lemma {:induction false} AllInOrder(ops: Batch, i: nat, n: nat)
    requires InOrder(ops, 0, n) && i <= |ops|
    ensures InOrder(ops[i..], EndOf(ops, i), n) && EndOf(ops, i) <= n
    decreases i
  {
    if i == 0 {
      assert ops[0..] == ops;
      InOrderBounds(ops, 0, n);
    } else {
      AllInOrder(ops, i - 1, n);
      assert ops[i - 1..][1..] == ops[i..] && ops[i - 1..][0] == ops[i - 1];
      InOrderBounds(ops[i..], ops[i - 1].end, n);
    }
  }

  lemma {:induction false} SplitRebuilt(t: Text, ops: Batch, i: nat)
    requires i == |ops| && InOrder(ops[i..], EndOf(ops, i), |t|) && EndOf(ops, i) <= |t|
    ensures t == t[..EndOf(ops, i)] + Rebuilt(t, ops[i..], EndOf(ops, i))
  {
    assert ops[i..] == [];
  }

  lemma {:induction false} RebuiltStep(t: Text, ops: Batch, i: nat, r: Text)
    requires i < |ops| && InOrder(ops[i..], EndOf(ops, i), |t|) && InOrder(ops[i + 1..], ops[i].end, |t|)
    requires ops[i].end <= |t| && r == t[..ops[i].end] + Rebuilt(t, ops[i + 1..], ops[i].end)
    ensures ops[i].start <= ops[i].end <= |r| && EndOf(ops, i) <= |t|
    ensures Replaced(r, ops[i]) == t[..EndOf(ops, i)] + Rebuilt(t, ops[i..], EndOf(ops, i))
  {
    var op, rest := ops[i], Rebuilt(t, ops[i + 1..], ops[i].end);
    assert ops[i..][0] == op && ops[i..][1..] == ops[i + 1..];
    assert r[..op.start] == t[..op.start] && r[op.end..] == rest;
    assert t[..op.start] == t[..EndOf(ops, i)] + t[EndOf(ops, i)..op.start];
  }

  lemma {:induction false} RebuildStep(t: Text, ops: Batch, i: nat, pos: nat, r: Text)
    requires i < |ops| && InOrder(ops[i..], pos, |t|)
    ensures pos <= ops[i].start <= ops[i].end <= |t| && InOrder(ops[i + 1..], ops[i].end, |t|)
    ensures r + Rebuilt(t, ops[i..], pos)
            == r + t[pos..ops[i].start] + ops[i].text + Rebuilt(t, ops[i + 1..], ops[i].end)
  {
    assert ops[i..][0] == ops[i] && ops[i..][1..] == ops[i + 1..];
  }

  /** Rebuild the text once, copying the gaps. */
  method RebuildOnce(t: Text, ops: Batch) returns (r: Text)
    requires InOrder(ops, 0, |t|)
    ensures r == Applied(t, ops)
  {
    hide InOrder;
    r := [];
    var pos: nat := 0;
    assert ops[0..] == ops;
    for i := 0 to |ops|
      invariant InOrder(ops[i..], pos, |t|) && r + Rebuilt(t, ops[i..], pos) == Applied(t, ops)
    {
      var op := ops[i];
      RebuildStep(t, ops, i, pos, r);
      r := r + t[pos..op.start] + op.text;
      pos := op.end;
    }
    InOrderBounds(ops[|ops|..], pos, |t|);
    assert Rebuilt(t, ops[|ops|..], pos) == t[pos..];
    r := r + t[pos..];
  }

  // ----- the patch and the inverse -----

  /** The position currency of a batch: old ranges, and new ranges in final coordinates. */
  function PatchOf(ops: Batch, delta: int): Patch {
    if ops == [] then []
    else
      var op := ops[0];
      var ns := Nat(op.start + delta);
      [Edit(op.start, op.end, ns, ns + |op.text|)] + PatchOf(ops[1..], delta + |op.text| - (op.end - op.start))
  }

  /** A post-edit offset; the batch keeps it from going below zero. */
  function Nat(x: int): nat { if x < 0 then 0 else x }

  /** The batch that puts the old text back, in post-edit coordinates. */
  function InverseOf(t: Text, ops: Batch, delta: int): Batch
    requires forall i | 0 <= i < |ops| :: ops[i].start <= ops[i].end <= |t|
  {
    if ops == [] then []
    else
      var op := ops[0];
      var ns := Nat(op.start + delta);
      [EditOp(ns, ns + |op.text|, t[op.start..op.end])] + InverseOf(t, ops[1..],
                                                                    delta + |op.text| - (op.end - op.start))
  }

  lemma {:induction false} InOrderRanges(ops: Batch, from: nat, n: nat)
    requires InOrder(ops, from, n)
    ensures forall i | 0 <= i < |ops| :: from <= ops[i].start <= ops[i].end <= n
    decreases |ops|
  {
    if ops != [] {
      InOrderRanges(ops[1..], ops[0].end, n);
      forall i | 0 <= i < |ops| ensures from <= ops[i].start <= ops[i].end <= n {
        if i > 0 { assert ops[i] == ops[1..][i - 1]; }
      }
    }
  }

  // ----- round trips -----

  lemma {:induction false} RebuiltUnfold(t: Text, ops: Batch, pos: nat)
    requires InOrder(ops, pos, |t|) && ops != []
    ensures pos <= ops[0].start <= ops[0].end <= |t| && InOrder(ops[1..], ops[0].end, |t|)
    ensures Rebuilt(t, ops, pos) == t[pos..ops[0].start] + ops[0].text + Rebuilt(t, ops[1..], ops[0].end)
  {}

  lemma {:induction false} InverseUnfold(t: Text, ops: Batch, delta: int)
    requires ops != [] && forall i | 0 <= i < |ops| :: ops[i].start <= ops[i].end <= |t|
    ensures var ns := Nat(ops[0].start + delta);
            && (forall i | 0 <= i < |ops[1..]| :: ops[1..][i].start <= ops[1..][i].end <= |t|)
            && InverseOf(t, ops, delta)
               == [EditOp(ns, ns + |ops[0].text|, t[ops[0].start..ops[0].end])]
                  + InverseOf(t, ops[1..], delta + |ops[0].text| - (ops[0].end - ops[0].start))
  {}

  lemma {:induction false} InverseJoin(r: Text, op: EditOp, inv: Batch, pos: nat)
    requires pos <= op.start <= op.end <= |r| && InOrder(inv, op.end, |r|)
    ensures InOrder([op] + inv, pos, |r|)
    ensures Rebuilt(r, [op] + inv, pos) == r[pos..op.start] + op.text + Rebuilt(r, inv, op.end)
  {
    assert ([op] + inv)[1..] == inv;
  }

  /** From `pos` on, with what precedes it already rewritten: the inverse batch is in order, and puts
      the old text back. */
  lemma {:induction false} InverseUndoes(t: Text, ops: Batch, pos: nat, delta: int, pre: Text)
    requires InOrder(ops, pos, |t|) && |pre| == pos + delta
    ensures forall i | 0 <= i < |ops| :: ops[i].start <= ops[i].end <= |t|
    ensures var r := pre + Rebuilt(t, ops, pos); var inv := InverseOf(t, ops, delta);
            && pos <= |t| && InOrder(inv, |pre|, |r|) && Rebuilt(r, inv, |pre|) == t[pos..]
    decreases |ops|
  {
    hide Rebuilt, InverseOf, InOrder;
    InOrderRanges(ops, pos, |t|);
    InOrderBounds(ops, pos, |t|);
    if ops == [] {
      NothingToUndo(t, pos, delta, pre);
    } else {
      var op := ops[0];
      var delta' := delta + |op.text| - (op.end - op.start);
      var pre' := pre + t[pos..op.start] + op.text;
      RebuiltUnfold(t, ops, pos);
      InverseUnfold(t, ops, delta);
      InverseUndoes(t, ops[1..], op.end, delta', pre');
      var r, rest := pre + Rebuilt(t, ops, pos), Rebuilt(t, ops[1..], op.end);
      assert r == pre' + rest;
      InverseStep(t, op, pos, delta, pre, rest, r);
      InverseJoin(r, EditOp(Nat(op.start + delta), Nat(op.start + delta) + |op.text|, t[op.start..op.end]),
                  InverseOf(t, ops[1..], delta'), |pre|);
    }
  }

  lemma {:induction false} NothingToUndo(t: Text, pos: nat, delta: int, pre: Text)
    requires pos <= |t| && |pre| == pos + delta
    ensures var r := pre + Rebuilt(t, [], pos); var inv := InverseOf(t, [], delta);
            InOrder([], pos, |t|) && InOrder(inv, |pre|, |r|) && Rebuilt(r, inv, |pre|) == t[pos..]
  {
    var r := pre + t[pos..];
    assert r[|pre|..] == t[pos..];
  }

  lemma {:induction false} InverseStep(t: Text, op: EditOp, pos: nat, delta: int, pre: Text, rest: Text, r: Text)
    requires pos <= op.start <= op.end <= |t| && |pre| == pos + delta
    requires r == pre + t[pos..op.start] + op.text + rest
    ensures op.start + delta >= 0 && |pre| <= op.start + delta <= |r|
    ensures r[|pre|..op.start + delta] == t[pos..op.start]
    ensures r[op.start + delta..op.start + delta + |op.text|] == op.text
    ensures t[pos..op.start] + t[op.start..op.end] + t[op.end..] == t[pos..]
  {}

  /** Undoing restores the text. */
  lemma {:induction false} UndoRestores(t: Text, ops: Batch)
    requires InOrder(ops, 0, |t|)
    ensures forall i | 0 <= i < |ops| :: ops[i].start <= ops[i].end <= |t|
    ensures InOrder(InverseOf(t, ops, 0), 0, |Applied(t, ops)|)
    ensures Applied(Applied(t, ops), InverseOf(t, ops, 0)) == t
  {
    hide InOrder, Rebuilt, InverseOf;
    InverseUndoes(t, ops, 0, 0, []);
    assert [] + Rebuilt(t, ops, 0) == Rebuilt(t, ops, 0) && t[0..] == t;
  }

  /** The inverse of the inverse is the batch itself: redo replays what was applied. */
  lemma {:induction false} InverseTwice(t: Text, ops: Batch, pos: nat, delta: int, pre: Text)
    requires InOrder(ops, pos, |t|) && |pre| == pos + delta
    ensures forall i | 0 <= i < |ops| :: ops[i].start <= ops[i].end <= |t|
    ensures var r := pre + Rebuilt(t, ops, pos); var inv := InverseOf(t, ops, delta);
            && (forall i | 0 <= i < |inv| :: inv[i].start <= inv[i].end <= |r|)
            && InverseOf(r, inv, -delta) == ops
    decreases |ops|
  {
    hide Rebuilt, InOrder, Nat;
    InOrderRanges(ops, pos, |t|);
    InverseUndoes(t, ops, pos, delta, pre);
    var r, inv := pre + Rebuilt(t, ops, pos), InverseOf(t, ops, delta);
    InOrderRanges(inv, |pre|, |r|);
    if ops != [] {
      var op := ops[0];
      var delta' := delta + |op.text| - (op.end - op.start);
      var pre' := pre + t[pos..op.start] + op.text;
      RebuiltUnfold(t, ops, pos);
      InverseUnfold(t, ops, delta);
      InverseTwice(t, ops[1..], op.end, delta', pre');
      var rest := Rebuilt(t, ops[1..], op.end);
      assert r == pre' + rest;
      InverseStep(t, op, pos, delta, pre, rest, r);
      var restInv := InverseOf(t, ops[1..], delta');
      RangesTail(inv, restInv, |r|);
      TwiceStep(t, ops, delta, r, inv, restInv);
    } else {
    }
  }

  lemma {:induction false} RangesTail(inv: Batch, rest: Batch, n: nat)
    requires inv != [] && rest == inv[1..] && forall i | 0 <= i < |inv| :: inv[i].start <= inv[i].end <= n
    ensures forall i | 0 <= i < |rest| :: rest[i].start <= rest[i].end <= n
  {}

  lemma {:induction false} TwiceStep(t: Text, ops: Batch, delta: int, r: Text, inv: Batch, rest: Batch)
    requires ops != [] && forall i | 0 <= i < |inv| :: inv[i].start <= inv[i].end <= |r|
    requires ops[0].start <= ops[0].end <= |t| && ops[0].start + delta >= 0
    requires inv == [EditOp(Nat(ops[0].start + delta), Nat(ops[0].start + delta) + |ops[0].text|,
                            t[ops[0].start..ops[0].end])] + rest
    requires ops[0].start + delta + |ops[0].text| <= |r|
    requires r[ops[0].start + delta..ops[0].start + delta + |ops[0].text|] == ops[0].text
    requires forall i | 0 <= i < |rest| :: rest[i].start <= rest[i].end <= |r|
    requires InverseOf(r, rest, -(delta + |ops[0].text| - (ops[0].end - ops[0].start))) == ops[1..]
    ensures InverseOf(r, inv, -delta) == ops
  {
    hide InverseOf;
    assert inv[1..] == rest && inv[0].start == ops[0].start + delta;
    InverseUnfold(r, inv, -delta);
    assert |t[ops[0].start..ops[0].end]| == ops[0].end - ops[0].start;
    assert ops == [ops[0]] + ops[1..];
  }

  lemma {:induction false} InverseOfInverse(t: Text, ops: Batch)
    requires InOrder(ops, 0, |t|)
    ensures forall i | 0 <= i < |ops| :: ops[i].start <= ops[i].end <= |t|
    ensures var r := Applied(t, ops); var inv := InverseOf(t, ops, 0);
            && (forall i | 0 <= i < |inv| :: inv[i].start <= inv[i].end <= |r|)
            && InverseOf(r, inv, 0) == ops
  {
    hide InOrder, Rebuilt, InverseOf;
    InverseTwice(t, ops, 0, 0, []);
    assert [] + Rebuilt(t, ops, 0) == Rebuilt(t, ops, 0);
  }

  // ----- the patch -----

  lemma {:induction false} PatchAt(ops: Batch, delta: int, from: nat, n: nat, i: nat)
    requires InOrder(ops, from, n) && from + delta >= 0 && i < |ops|
    ensures |PatchOf(ops, delta)| == |ops|
    ensures var ns := ops[i].start + delta + Growth(ops[..i]);
            ns >= 0 && PatchOf(ops, delta)[i] == Edit(ops[i].start, ops[i].end, ns, ns + |ops[i].text|)
    decreases |ops|
  {
    var op := ops[0];
    var delta' := delta + |op.text| - (op.end - op.start);
    if i > 0 {
      PatchAt(ops[1..], delta', op.end, n, i - 1);
      assert ops[..i][0] == op && ops[..i][1..] == ops[1..][..i - 1];
    } else {
      PatchLength(ops, delta);
    }
  }

  lemma {:induction false} PatchLength(ops: Batch, delta: int)
    ensures |PatchOf(ops, delta)| == |ops|
    decreases |ops|
  {
    if ops != [] { PatchLength(ops[1..], delta + |ops[0].text| - (ops[0].end - ops[0].start)); }
  }

  lemma {:induction false} GrowthSnoc(ops: Batch, op: EditOp)
    ensures Growth(ops + [op]) == Growth(ops) + |op.text| - (op.end - op.start)
    decreases |ops|
  {
    if ops == [] {
      assert [op][1..] == [];
    } else {
      assert (ops + [op])[1..] == ops[1..] + [op];
      GrowthSnoc(ops[1..], op);
    }
  }

  /** The patch's prefix shifts are the batch's growth. */
  lemma {:induction false} ShiftIsGrowth(ops: Batch, n: nat, k: nat)
    requires InOrder(ops, 0, n) && k <= |ops|
    ensures |PatchOf(ops, 0)| == |ops| && Shift(PatchOf(ops, 0), k) == Growth(ops[..k])
    decreases k
  {
    hide PatchOf, InOrder;
    PatchLength(ops, 0);
    if k > 0 {
      ShiftIsGrowth(ops, n, k - 1);
      PatchAt(ops, 0, 0, n, k - 1);
      assert ops[..k] == ops[..k - 1] + [ops[k - 1]];
      GrowthSnoc(ops[..k - 1], ops[k - 1]);
    } else {
    }
  }

  lemma {:induction false} OpsAscend(ops: Batch, n: nat, i: nat, j: nat)
    requires InOrder(ops, 0, n) && i < j < |ops|
    ensures ops[i].end <= ops[j].start
  {
    AllInOrder(ops, i + 1, n);
    InOrderRanges(ops[i + 1..], ops[i].end, n);
    assert ops[i + 1..][j - i - 1] == ops[j];
  }

  lemma {:induction false} PatchWellFormed(t: Text, ops: Batch)
    requires InOrder(ops, 0, |t|)
    ensures WellFormed(PatchOf(ops, 0))
  {
    hide InOrder, PatchOf, Shift, Growth;
    var p := PatchOf(ops, 0);
    PatchLength(ops, 0);
    InOrderRanges(ops, 0, |t|);
    forall i | 0 <= i < |p| ensures p[i].os <= p[i].oe && p[i].ns <= p[i].ne && Patches.Anchored(p, i) {
      PatchAt(ops, 0, 0, |t|, i);
      ShiftIsGrowth(ops, |t|, i);
    }
    forall i, j | 0 <= i < j < |p| ensures p[i].oe <= p[j].os {
      PatchAt(ops, 0, 0, |t|, i);
      PatchAt(ops, 0, 0, |t|, j);
      OpsAscend(ops, |t|, i, j);
    }
  }

  /** The rebuilt text up to op `k`, and from its gap on. */
  lemma {:induction false} RebuiltFrom(t: Text, ops: Batch, k: nat) returns (pre: Text)
    requires InOrder(ops, 0, |t|) && k <= |ops|
    ensures InOrder(ops[k..], EndOf(ops, k), |t|) && EndOf(ops, k) <= |t|
    ensures |pre| == EndOf(ops, k) + Growth(ops[..k])
    ensures Applied(t, ops) == pre + Rebuilt(t, ops[k..], EndOf(ops, k))
    decreases k
  {
    hide InOrder, Rebuilt;
    AllInOrder(ops, k, |t|);
    if k == 0 {
      pre := [];
      assert ops[0..] == ops;
    } else {
      var before := RebuiltFrom(t, ops, k - 1);
      var op := ops[k - 1];
      RebuiltUnfold(t, ops[k - 1..], EndOf(ops, k - 1));
      assert ops[k - 1..][0] == op && ops[k - 1..][1..] == ops[k..];
      pre := before + t[EndOf(ops, k - 1)..op.start] + op.text;
      assert ops[..k] == ops[..k - 1] + [op];
      GrowthSnoc(ops[..k - 1], op);
    }
  }

  /** The head of what follows a gap. */
  lemma {:induction false} RebuiltHead(t: Text, ops: Batch, pos: nat)
    requires InOrder(ops, pos, |t|)
    ensures var stop := if ops == [] then |t| else ops[0].start;
            pos <= stop <= |t| && stop - pos <= |Rebuilt(t, ops, pos)|
              && Rebuilt(t, ops, pos)[..stop - pos] == t[pos..stop]
  {
    InOrderBounds(ops, pos, |t|);
  }

  /** A batch's patch turns the old text into the new. */
  lemma {:induction false} PatchRewrites(t: Text, ops: Batch)
    requires InOrder(ops, 0, |t|)
    ensures Rewrites(PatchOf(ops, 0), t, Applied(t, ops))
  {
    hide InOrder, PatchOf, Shift, Growth, Rebuilt, WellFormed, GapKept;
    var p, r := PatchOf(ops, 0), Applied(t, ops);
    PatchWellFormed(t, ops);
    PatchLength(ops, 0);
    ShiftIsGrowth(ops, |t|, |ops|);
    assert ops[..|ops|] == ops;
    RebuiltLength(t, ops, 0);
    forall k | 0 <= k <= |p| ensures GapKept(p, t, r, k) {
      BatchKeepsGap(t, ops, k);
    }
  }

  lemma {:induction false} BatchKeepsGap(t: Text, ops: Batch, k: nat)
    requires InOrder(ops, 0, |t|) && k <= |ops| == |PatchOf(ops, 0)| && WellFormed(PatchOf(ops, 0))
    ensures GapKept(PatchOf(ops, 0), t, Applied(t, ops), k)
  {
    hide InOrder, PatchOf, Shift, Growth, Rebuilt, WellFormed;
    var p, r := PatchOf(ops, 0), Applied(t, ops);
    if k > 0 { PatchAt(ops, 0, 0, |t|, k - 1); }
    if k < |ops| { PatchAt(ops, 0, 0, |t|, k); }
    ShiftIsGrowth(ops, |t|, k);
    GapShift(p, k);
    var pre := RebuiltFrom(t, ops, k);
    RebuiltHead(t, ops[k..], EndOf(ops, k));
    TailGrowth(t, ops, k, pre);
    var from, stop := EndOf(ops, k), if k == |ops| then |t| else ops[k].start;
    var rest := Rebuilt(t, ops[k..], from);
    assert stop - from <= |rest|;
    SliceAfter(pre, rest, stop - from);
  }

  lemma {:induction false} SliceAfter(pre: Text, rest: Text, n: nat)
    requires n <= |rest|
    ensures (pre + rest)[|pre|..|pre| + n] == rest[..n]
  {}

  lemma {:induction false} TailGrowth(t: Text, ops: Batch, k: nat, pre: Text)
    requires InOrder(ops, 0, |t|) && k <= |ops| && InOrder(ops[k..], EndOf(ops, k), |t|) && EndOf(ops, k) <= |t|
    requires |pre| == EndOf(ops, k) + Growth(ops[..k]) && Applied(t, ops) == pre + Rebuilt(t, ops[k..], EndOf(ops, k))
    ensures k == |ops| ==> |Applied(t, ops)| == |t| + Growth(ops[..k])
  {
    if k == |ops| { assert ops[k..] == []; }
  }
}
