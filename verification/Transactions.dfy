/**
 The transaction engine: the one way a text changes.  A batch is clipped, folded to LF, sorted and
 checked, then applied whole or not at all, and its inverse is read off the same batch.
 */
module Transactions {
  import opened Base
  import opened Patches
  import opened TextBounds
  import opened EditBatches

  const CR: byte := 13

  predicate LfOnly(t: Text) { CR !in t }

  /** CRLF and lone CR become LF. */
  function FoldLineEnds(t: Text): Text {
    if t == [] then []
    else if t[0] != CR then [t[0]] + FoldLineEnds(t[1..])
    else if |t| > 1 && t[1] == NEWLINE then [NEWLINE] + FoldLineEnds(t[2..])
    else [NEWLINE] + FoldLineEnds(t[1..])
  }

  lemma {:induction false} FoldedIsLf(t: Text)
    ensures LfOnly(FoldLineEnds(t))
    decreases |t|
  {
    if t != [] {
      FoldedIsLf(t[1..]);
      if |t| > 1 { FoldedIsLf(t[2..]); }
    }
  }

  lemma {:induction false} FoldOfLf(t: Text)
    requires LfOnly(t)
    ensures FoldLineEnds(t) == t
    decreases |t|
  {
    if t != [] {
      assert t[0] in t;
      forall b | b in t[1..] ensures b in t {}
      FoldOfLf(t[1..]);
    }
  }

  /** Each line end, however it is written, becomes one newline: what precedes it holds no CR, and a CR
      alone is followed by no newline. */
  lemma {:induction false} LineEndFolds(a: Text, e: Text, b: Text)
    requires LfOnly(a) && e in {[CR, NEWLINE], [CR], [NEWLINE]} && (e == [CR] ==> b == [] || b[0] != NEWLINE)
    ensures FoldLineEnds(a + e + b) == a + [NEWLINE] + FoldLineEnds(b)
    decreases |a|
  {
    var t := a + e + b;
    if a == [] {
      assert t[|e|..] == b && t[0] == e[0];
      assert |t| > 1 && |e| == 1 ==> t[1] == b[0];
    } else {
      assert a[0] in a;
      forall x | x in a[1..] ensures x in a {}
      LineEndFolds(a[1..], e, b);
      assert t[1..] == a[1..] + e + b;
    }
  }

  // ----- whole characters -----

  lemma {:induction false} WholeConcat(a: Text, b: Text)
    requires WholeChars(a) && WholeChars(b)
    ensures WholeChars(a + b)
    decreases |a|
  {
    if a == [] {
      assert a + b == b;
    } else {
      var n := CharLen(a[0]);
      hide CharLen;
      WholeConcat(a[n..], b);
      assert (a + b)[n..] == a[n..] + b;
      assert forall j | 1 <= j < n :: (a + b)[j] == a[j];
    }
  }

  lemma {:induction false} WholeUpTo(t: Text, p: nat)
    requires WholeChars(t) && p <= |t| && Boundary(t, p)
    ensures WholeChars(t[..p])
    decreases |t|
  {
    if p > 0 {
      var n := CharLen(t[0]);
      assert p >= n;
      assert Boundary(t[n..], p - n);
      WholeUpTo(t[n..], p - n);
      assert t[..p][n..] == t[n..][..p - n];
    }
  }

  lemma {:induction false} WholeBetween(t: Text, p: nat, q: nat)
    requires WholeChars(t) && p <= q <= |t| && Boundary(t, p) && Boundary(t, q)
    ensures WholeChars(t[p..q])
  {
    WholeFrom(t, p);
    assert Boundary(t[p..], q - p);
    WholeUpTo(t[p..], q - p);
    assert t[p..][..q - p] == t[p..q];
  }

  lemma {:induction false} WholeJoint(a: Text, b: Text)
    requires WholeChars(b)
    ensures Boundary(a + b, |a|)
  {
    if b != [] { assert (a + b)[|a|] == b[0]; }
  }

  lemma {:induction false} FoldKeepsWhole(t: Text)
    requires WholeChars(t)
    ensures WholeChars(FoldLineEnds(t))
    decreases |t|
  {
    if t != [] {
      var n := CharLen(t[0]);
      if t[0] == CR {
        FoldKeepsWhole(t[1..]);
        WholeCons(NEWLINE, FoldLineEnds(t[1..]));
        if |t| > 1 && t[1] == NEWLINE {
          assert t[1..][1..] == t[2..] && t[1..][0] == NEWLINE;
          FoldKeepsWhole(t[2..]);
          WholeCons(NEWLINE, FoldLineEnds(t[2..]));
        }
      } else {
        FoldKeepsWhole(t[n..]);
        FoldSkips(t, n);
        WholePrefix(t, n);
        WholeConcat(t[..n], FoldLineEnds(t[n..]));
      }
    }
  }

  lemma {:induction false} WholeCons(b: byte, t: Text)
    requires WholeChars(t) && b < 128
    ensures WholeChars([b] + t)
  {
    assert ([b] + t)[1..] == t;
  }

  lemma {:induction false} WholePrefix(t: Text, n: nat)
    requires WholeChars(t) && t != [] && n == CharLen(t[0])
    ensures n <= |t| && WholeChars(t[..n])
  {
    assert t[..n][n..] == [];
  }

  /** No CR among the bytes of one character that is not CR. */
  lemma {:induction false} FoldSkips(t: Text, n: nat)
    requires n <= |t| && forall j | 0 <= j < n :: t[j] != CR
    ensures FoldLineEnds(t) == t[..n] + FoldLineEnds(t[n..])
    decreases n
  {
    if n == 0 {
      assert t[0..] == t;
    } else {
      FoldSkips(t[1..], n - 1);
      assert t[1..][n - 1..] == t[n..] && [t[0]] + t[1..][..n - 1] == t[..n];
    }
  }

  // ----- normalising a batch -----

  /** Clip to the text, outward to whole characters, and fold the replacement to LF. */
  function NormalOp(t: Text, op: EditOp): EditOp {
    EditOp(ClipLeft(t, Min(op.start, op.end)), ClipRight(t, Max(op.start, op.end)), FoldLineEnds(op.text))
  }

  predicate IsNoOp(op: EditOp) { op.start == op.end && op.text == [] }

  function Normal(t: Text, ops: Batch): Batch {
    if ops == [] then []
    else (if IsNoOp(NormalOp(t, ops[0])) then [] else [NormalOp(t, ops[0])]) + Normal(t, ops[1..])
  }

  /** The last character boundary at or before a place, or the first at or after it, in the text. */
  ghost predicate SnapsDown(t: Text, x: nat, r: nat) {
    r <= x && r <= |t| && Boundary(t, r) && forall y: nat | y <= x && y <= |t| && Boundary(t, y) :: y <= r
  }

  ghost predicate SnapsUp(t: Text, x: nat, r: nat) {
    r <= |t| && Boundary(t, r) && if x <= |t| then x <= r && forall y: nat | x <= y && Boundary(t, y) ::
      r <= y else r == |t|
  }

  /** The range is snapped outward, whichever way round it was given. */
  lemma {:induction false} NormalOpSpan(t: Text, op: EditOp, lo: nat, hi: nat)
    requires SnapsDown(t, Min(op.start, op.end), lo) && SnapsUp(t, Max(op.start, op.end), hi)
    ensures NormalOp(t, op).start == lo <= hi == NormalOp(t, op).end
  {
    hide Boundary;
    var a, b := Min(op.start, op.end), Max(op.start, op.end);
    var l: nat, h: nat := ClipLeft(t, a), ClipRight(t, b);
    assert l <= lo && !(l < lo <= a && lo <= |t|);
    assert b <= |t| ==> hi <= h && !(b <= hi < h);
  }

  function InsertOp(op: EditOp, ops: Batch): Batch {
    if ops == [] || ops[0].start >= op.start then [op] + ops else [ops[0]] + InsertOp(op, ops[1..])
  }

  /** Stable, ascending by start: ties keep caller order. */
  function SortOps(ops: Batch): Batch {
    if ops == [] then [] else InsertOp(ops[0], SortOps(ops[1..]))
  }

  /** An op as the engine applies it. */
  ghost predicate CleanOp(t: Text, op: EditOp) {
    && op.start <= op.end <= |t| && Boundary(t, op.start) && Boundary(t, op.end)
    && WholeChars(op.text) && LfOnly(op.text) && !IsNoOp(op)
  }

  /** A batch as the engine applies it: clean ops, ascending, none overlapping. */
  ghost predicate Ready(t: Text, ops: Batch) {
    && ops != [] && InOrder(ops, 0, |t|)
    && forall i | 0 <= i < |ops| :: CleanOp(t, ops[i])
  }

  /** A text as the buffer holds it. */
  ghost predicate Held(t: Text) { WholeChars(t) && LfOnly(t) }

  lemma {:induction false} NormalOpClean(t: Text, op: EditOp)
    requires WholeChars(op.text) && !IsNoOp(NormalOp(t, op))
    ensures CleanOp(t, NormalOp(t, op))
  {
    FoldedIsLf(op.text);
    FoldKeepsWhole(op.text);
    var a, b := Min(op.start, op.end), Max(op.start, op.end);
    if b <= |t| { assert ClipRight(t, b) >= b; }
  }

  lemma {:induction false} NormalClean(t: Text, ops: Batch)
    requires forall i | 0 <= i < |ops| :: WholeChars(ops[i].text)
    ensures forall op | op in Normal(t, ops) :: CleanOp(t, op)
  {
    hide CleanOp, NormalOp;
    if ops != [] {
      assert forall i | 0 <= i < |ops[1..]| :: ops[1..][i] == ops[i + 1];
      NormalClean(t, ops[1..]);
      if !IsNoOp(NormalOp(t, ops[0])) { NormalOpClean(t, ops[0]); }
    }
  }

  lemma {:induction false} InsertOpMembers(op: EditOp, ops: Batch, x: EditOp)
    ensures x in InsertOp(op, ops) <==> x == op || x in ops
  {
    if ops != [] && ops[0].start < op.start { InsertOpMembers(op, ops[1..], x); }
  }

  lemma {:induction false} SortOpsMembers(ops: Batch, x: EditOp)
    ensures x in SortOps(ops) <==> x in ops
  {
    if ops != [] {
      SortOpsMembers(ops[1..], x);
      InsertOpMembers(ops[0], SortOps(ops[1..]), x);
    }
  }

  /** The ops that start at one place, in order. */
  function StartingAt(ops: Batch, x: nat): Batch {
    if ops == [] then [] else (if ops[0].start == x then [ops[0]] else []) + StartingAt(ops[1..], x)
  }

  ghost predicate Ascend(ops: Batch) { forall i, j | 0 <= i < j < |ops| :: ops[i].start <= ops[j].start }

  /** The sort orders the ops by start and leaves those at one place in caller order. */
  lemma {:induction false} SortOpsStable(ops: Batch, x: nat)
    ensures Ascend(SortOps(ops)) && StartingAt(SortOps(ops), x) == StartingAt(ops, x)
    decreases |ops|
  {
    if ops != [] {
      hide InsertOp, Ascend;
      SortOpsStable(ops[1..], x);
      InsertOpStable(ops[0], SortOps(ops[1..]), x);
    }
  }

  lemma {:induction false} InsertOpStable(op: EditOp, ops: Batch, x: nat)
    requires Ascend(ops)
    ensures Ascend(InsertOp(op, ops))
    ensures StartingAt(InsertOp(op, ops), x) == (if op.start == x then [op] else []) + StartingAt(ops, x)
    decreases |ops|
  {
    if ops == [] || ops[0].start >= op.start {
      assert ([op] + ops)[1..] == ops;
      forall j | 0 <= j < |ops| ensures op.start <= ops[j].start { assert j > 0 ==> ops[0].start <= ops[j].start; }
    } else {
      var rest := ops[1..];
      forall i, j | 0 <= i < j < |rest| ensures rest[i].start <= rest[j].start {
        assert ops[i + 1].start <= ops[j + 1].start;
      }
      InsertOpStable(op, rest, x);
      var w := InsertOp(op, rest);
      assert ([ops[0]] + w)[1..] == w;
      forall j | 0 <= j < |w| ensures ops[0].start <= w[j].start {
        InsertOpMembers(op, rest, w[j]);
        if w[j] in rest {
          var k :| 0 <= k < |rest| && rest[k] == w[j];
          assert ops[0].start <= ops[k + 1].start;
        }
      }
      Together(ops, rest, x);
      assert op.start == x ==> ops[0].start != x;
    }
  }

  lemma {:induction false} Together(ops: Batch, rest: Batch, x: nat)
    requires ops != [] && rest == ops[1..]
    ensures StartingAt(ops, x) == (if ops[0].start == x then [ops[0]] else []) + StartingAt(rest, x)
  {}

  /** A clean op normalises to itself. */
  lemma {:induction false} CleanIsNormal(t: Text, op: EditOp)
    requires CleanOp(t, op)
    ensures NormalOp(t, op) == op
  {
    FoldOfLf(op.text);
  }

  lemma {:induction false} ReadyIsNormal(t: Text, ops: Batch, from: nat)
    requires InOrder(ops, from, |t|) && forall i | 0 <= i < |ops| :: CleanOp(t, ops[i])
    ensures Normal(t, ops) == ops && SortOps(ops) == ops
    decreases |ops|
  {
    hide NormalOp;
    if ops != [] {
      CleanIsNormal(t, ops[0]);
      assert forall i | 0 <= i < |ops[1..]| :: ops[1..][i] == ops[i + 1];
      ReadyIsNormal(t, ops[1..], ops[0].end);
    }
  }

  /** The first neighbours that overlap. */
  function FirstOverlap(ops: Batch): Option<(EditOp, EditOp)> {
    if |ops| < 2 then None
    else if ops[0].end > ops[1].start then Some((ops[0], ops[1]))
    else FirstOverlap(ops[1..])
  }

  lemma {:induction false} NoOverlapInOrder(t: Text, ops: Batch, from: nat)
    requires (forall i | 0 <= i < |ops| :: CleanOp(t, ops[i])) && FirstOverlap(ops) == None
    requires from <= |t| && (ops != [] ==> from <= ops[0].start)
    ensures InOrder(ops, from, |t|)
    decreases |ops|
  {
    if ops != [] {
      assert forall i | 0 <= i < |ops[1..]| :: ops[1..][i] == ops[i + 1];
      assert CleanOp(t, ops[0]);
      NoOverlapInOrder(t, ops[1..], ops[0].end);
    }
  }

  lemma {:induction false} InOrderNoOverlap(ops: Batch, from: nat, n: nat)
    requires InOrder(ops, from, n)
    ensures FirstOverlap(ops) == None
    decreases |ops|
  {
    if |ops| >= 2 { InOrderNoOverlap(ops[1..], ops[0].end, n); }
  }

  // ----- the inverse of a ready batch is ready -----

  lemma {:induction false} RebuiltHeld(t: Text, ops: Batch, pos: nat)
    requires Held(t) && InOrder(ops, pos, |t|) && pos <= |t| && Boundary(t, pos)
    requires forall i | 0 <= i < |ops| :: CleanOp(t, ops[i])
    ensures Held(Rebuilt(t, ops, pos))
    decreases |ops|
  {
    hide CleanOp, WholeChars, InOrder, Boundary;
    if ops == [] {
      WholeFrom(t, pos);
    } else {
      RebuiltUnfold(t, ops, pos);
      var op := ops[0];
      assert forall i | 0 <= i < |ops[1..]| :: ops[1..][i] == ops[i + 1];
      CleanParts(t, op);
      RebuiltHeld(t, ops[1..], op.end);
      WholeBetween(t, pos, op.start);
      WholeConcat(t[pos..op.start], op.text);
      WholeConcat(t[pos..op.start] + op.text, Rebuilt(t, ops[1..], op.end));
    }
  }

  lemma {:induction false} CleanParts(t: Text, op: EditOp)
    requires CleanOp(t, op)
    ensures op.start <= op.end <= |t| && Boundary(t, op.start) && Boundary(t, op.end)
    ensures WholeChars(op.text) && LfOnly(op.text) && !IsNoOp(op)
  {}

  lemma {:induction false} AppliedHeld(t: Text, ops: Batch)
    requires Held(t) && Ready(t, ops)
    ensures Held(Applied(t, ops))
  {
    hide CleanOp;
    RebuiltHeld(t, ops, 0);
  }

  /** Each inverse op is clean in the new text. */
  lemma {:induction false} InverseClean(t: Text, ops: Batch, pos: nat, delta: int, pre: Text)
    requires Held(t) && InOrder(ops, pos, |t|) && pos <= |t| && Boundary(t, pos) && |pre| == pos + delta
             && WholeChars(pre)
    requires forall i | 0 <= i < |ops| :: CleanOp(t, ops[i])
    ensures forall i | 0 <= i < |ops| :: ops[i].start <= ops[i].end <= |t|
    ensures var inv := InverseOf(t, ops, delta); forall x | x in inv :: CleanOp(pre + Rebuilt(t, ops, pos), x)
    decreases |ops|
  {
    hide CleanOp, Rebuilt, WholeChars, InOrder, Boundary, Nat;
    InOrderRanges(ops, pos, |t|);
    if ops == [] {
    } else {
      var op := ops[0];
      var delta' := delta + |op.text| - (op.end - op.start);
      var pre' := pre + t[pos..op.start] + op.text;
      RebuiltUnfold(t, ops, pos);
      InverseUnfold(t, ops, delta);
      assert forall i | 0 <= i < |ops[1..]| :: ops[1..][i] == ops[i + 1];
      CleanParts(t, op);
      WholeBetween(t, pos, op.start);
      WholeConcat(pre, t[pos..op.start]);
      WholeConcat(pre + t[pos..op.start], op.text);
      InverseClean(t, ops[1..], op.end, delta', pre');
      var rest := Rebuilt(t, ops[1..], op.end);
      RebuiltHeld(t, ops[1..], op.end);
      var r := pre + Rebuilt(t, ops, pos);
      assert r == pre' + rest;
      FirstInverseClean(t, op, pre + t[pos..op.start], rest, delta, r);
    }
  }

  lemma {:induction false} FirstInverseClean(t: Text, op: EditOp, head: Text, rest: Text, delta: int, r: Text)
    requires Held(t) && CleanOp(t, op) && |head| == op.start + delta && WholeChars(head) && WholeChars(rest)
    requires r == head + op.text + rest
    ensures CleanOp(r, EditOp(Nat(op.start + delta), Nat(op.start + delta) + |op.text|, t[op.start..op.end]))
  {
    hide WholeChars;
    WholeConcat(op.text, rest);
    assert r == head + (op.text + rest);
    WholeJoint(head, op.text + rest);
    WholeJoint(head + op.text, rest);
    WholeBetween(t, op.start, op.end);
    forall b | b in t[op.start..op.end] ensures b in t {}
  }

  /** The inverse batch is one the engine applies as it stands, to the new text. */
  lemma {:induction false} InverseReady(t: Text, ops: Batch)
    requires Held(t) && Ready(t, ops)
    ensures Held(Applied(t, ops)) && (forall i | 0 <= i < |ops| :: ops[i].start <= ops[i].end <= |t|)
    ensures Ready(Applied(t, ops), InverseOf(t, ops, 0))
  {
    hide CleanOp, Rebuilt, InOrder, WholeChars, Boundary;
    AppliedHeld(t, ops);
    UndoRestores(t, ops);
    NothingWhole(t);
    InverseClean(t, ops, 0, 0, []);
    assert [] + Rebuilt(t, ops, 0) == Applied(t, ops);
    var inv := InverseOf(t, ops, 0);
    forall i | 0 <= i < |inv| ensures CleanOp(Applied(t, ops), inv[i]) { assert inv[i] in inv; }
  }

  lemma {:induction false} NothingWhole(t: Text)
    ensures WholeChars([]) && Boundary(t, 0)
  {}

  // ----- applying -----

  /** What a transaction reports. */
  datatype Outcome =
    | Committed(patch: Patch, forward: Batch, inverse: Batch)
    | Overlap(first: EditOp, second: EditOp)
    | WouldOverflow(len: int)

  /** Past one edit for this many bytes, a batch is applied by one rebuild. */
  const REBUILD_BYTES_PER_EDIT: nat := 2048

  class Buffer {
    var text: Text

    /** Commits so far. */
    var revision: nat

    ghost predicate Valid()
      reads this
    {
      Held(text) && |text| < U32_MAX
    }

    constructor (t: Text)
      requires Held(t) && |t| < U32_MAX
      ensures Valid() && text == t && revision == 0
    {
      text, revision := t, 0;
    }

    /** Apply a sorted, disjoint batch: one splice, or for many edits either splices back to front
        or, when they are dense in the text, one rebuild. */
    method EditMany(ops: Batch)
      requires InOrder(ops, 0, |text|)
      modifies this`text
      ensures text == Applied(old(text), ops)
    {
      var r;
      if |ops| > 1 && |ops| * REBUILD_BYTES_PER_EDIT > |text| {
        r := RebuildOnce(text, ops);
      } else {
        r := SpliceDescending(text, ops);
      }
      text := r;
    }

    /** Apply a batch atomically.  A failed or empty batch changes nothing; a committed one moves the
        revision by one, and reports the batch it applied, its patch and its inverse. */
    method Apply(ops: Batch) returns (r: Outcome)
      requires Valid() && forall i | 0 <= i < |ops| :: WholeChars(ops[i].text)
      modifies this
      ensures Valid()
      ensures r.Overlap? <==> FirstOverlap(SortOps(Normal(old(text), ops))).Some?
      ensures r.Overlap? ==> FirstOverlap(SortOps(Normal(old(text), ops))) == Some((r.first, r.second))
      ensures r.WouldOverflow? <==> FirstOverlap(SortOps(Normal(old(text), ops))).None?
                                    && |old(text)| + Growth(SortOps(Normal(old(text), ops))) >= U32_MAX
      ensures r.WouldOverflow? ==> r.len == |old(text)| + Growth(SortOps(Normal(old(text), ops)))
      ensures !r.Committed? || r.forward == [] ==> text == old(text) && revision == old(revision)
      ensures r.Committed? ==> r.forward == SortOps(Normal(old(text), ops)) && r.patch == PatchOf(r.forward, 0)
      ensures r.Committed? && r.forward != [] ==>
                && Ready(old(text), r.forward) && revision == old(revision) + 1
                && text == Applied(old(text), r.forward) && Inverts(old(text), r.forward, r.inverse)
                && Rewrites(r.patch, old(text), text)
    {
      hide WholeChars, FirstOverlap, SortOps, Normal, Growth, PatchOf, Ready, Applied, InOrder, CleanOp,
           InverseOf, Held;
      var norm := NormalBatch(text, ops);
      NormalClean(text, ops);
      if norm == [] {
        NothingNormal();
        return Committed([], [], []);
      }
      var sorted := SortOps(norm);
      ghost var was := text;
      SortedClean(was, norm);
      var clash := FirstOverlap(sorted);
      if clash.Some? {
        return Overlap(clash.value.0, clash.value.1);
      }
      NowReady(was, sorted);
      var len := |text| + Growth(sorted);
      if len >= U32_MAX {
        return WouldOverflow(len);
      }
      var inverse := InverseOf(text, sorted, 0);
      var patch := PatchOf(sorted, 0);
      EditMany(sorted);
      AppliedHeld(was, sorted);
      AppliedLength(was, sorted);
      PatchRewrites(was, sorted);
      revision := revision + 1;
      return Committed(patch, sorted, inverse);
    }
  }

  /** `inverse` undoes `forward`. */
  ghost predicate Inverts(t: Text, forward: Batch, inverse: Batch) {
    && (forall i | 0 <= i < |forward| :: forward[i].start <= forward[i].end <= |t|)
    && inverse == InverseOf(t, forward, 0)
  }

  /** Clip and fold each op, dropping those that change nothing. */
  method NormalBatch(t: Text, ops: Batch) returns (norm: Batch)
    ensures norm == Normal(t, ops)
  {
    hide NormalOp, IsNoOp;
    norm := [];
    for i := 0 to |ops|
      invariant norm + Normal(t, ops[i..]) == Normal(t, ops)
    {
      assert ops[i..][0] == ops[i] && ops[i..][1..] == ops[i + 1..];
      var op := NormalOp(t, ops[i]);
      if IsNoOp(op) { continue; }
      norm := norm + [op];
    }
    assert ops[|ops|..] == [];
  }

  lemma {:induction false} NothingNormal()
    ensures SortOps([]) == [] && FirstOverlap([]) == None && Growth([]) == 0 && PatchOf([], 0) == [] && U32_MAX > 0
  {}

  lemma {:induction false} SortedClean(t: Text, ops: Batch)
    requires ops != [] && forall op | op in ops :: CleanOp(t, op)
    ensures SortOps(ops) != [] && forall i | 0 <= i < |SortOps(ops)| :: CleanOp(t, SortOps(ops)[i])
  {
    hide CleanOp, SortOps;
    var s := SortOps(ops);
    SortOpsMembers(ops, ops[0]);
    forall i | 0 <= i < |s| ensures CleanOp(t, s[i]) { SortOpsMembers(ops, s[i]); }
  }

  lemma {:induction false} NowReady(t: Text, ops: Batch)
    requires ops != [] && (forall i | 0 <= i < |ops| :: CleanOp(t, ops[i])) && FirstOverlap(ops) == None
    ensures Ready(t, ops) && InOrder(ops, 0, |t|) && forall i | 0 <= i < |ops| :: ops[i].start <= ops[i].end <= |t|
  {
    hide CleanOp, InOrder;
    NoOverlapInOrder(t, ops, 0);
    InOrderRanges(ops, 0, |t|);
  }

  lemma {:induction false} AppliedLength(t: Text, ops: Batch)
    requires InOrder(ops, 0, |t|)
    ensures |Applied(t, ops)| == |t| + Growth(ops)
  {
    RebuiltLength(t, ops, 0);
  }

  /** One op puts its text, line ends folded, in place of the whole characters its range touches. */
  lemma {:induction false} OneOpApplied(t: Text, op: EditOp, lo: nat, hi: nat)
    requires SnapsDown(t, Min(op.start, op.end), lo) && SnapsUp(t, Max(op.start, op.end), hi)
    requires lo < hi || op.text != []
    ensures var ops := SortOps(Normal(t, [op]));
            lo <= hi <= |t| && InOrder(ops, 0, |t|) && Applied(t, ops) == t[..lo] + FoldLineEnds(op.text) + t[hi..]
  {
    NormalOpSpan(t, op, lo, hi);
    FoldedSome(op.text);
    hide FoldLineEnds, SnapsDown, SnapsUp, ClipLeft, ClipRight, Boundary;
    var n := NormalOp(t, op);
    OneNormal(t, op);
    assert [n][1..] == [];
    assert Rebuilt(t, [n], 0) == t[0..lo] + n.text + Rebuilt(t, [], hi);
  }

  lemma {:induction false} FoldedSome(t: Text)
    ensures t != [] ==> FoldLineEnds(t) != []
  {}

  /** Text pasted at a character boundary arrives with each of its line ends one newline. */
  lemma {:induction false} PastedLineEnd(t: Text, at: nat, a: Text, e: Text, b: Text)
    requires at <= |t| && Boundary(t, at) && LfOnly(a) && LfOnly(b)
    requires e in {[CR, NEWLINE], [CR], [NEWLINE]} && (e == [CR] ==> b == [] || b[0] != NEWLINE)
    ensures var ops := SortOps(Normal(t, [EditOp(at, at, a + e + b)]));
            InOrder(ops, 0, |t|) && Applied(t, ops) == t[..at] + (a + [NEWLINE] + b) + t[at..]
  {
    LineEndFolds(a, e, b);
    FoldOfLf(b);
    hide FoldLineEnds, LfOnly, Boundary, Applied, Normal, SortOps;
    OneOpApplied(t, EditOp(at, at, a + e + b), at, at);
  }

  lemma {:induction false} OneNormal(t: Text, op: EditOp)
    requires !IsNoOp(NormalOp(t, op))
    ensures SortOps(Normal(t, [op])) == [NormalOp(t, op)]
  {
    hide NormalOp, IsNoOp;
    assert [op][1..] == [] && Normal(t, []) == [];
    assert Normal(t, [op]) == [NormalOp(t, op)] && [NormalOp(t, op)][1..] == [];
    assert SortOps([]) == [];
  }

  /** A ready batch within the size bound is applied exactly as it stands. */
  lemma {:induction false} ReadyCommits(t: Text, ops: Batch)
    requires Ready(t, ops)
    ensures SortOps(Normal(t, ops)) == ops && FirstOverlap(ops) == None
    ensures |t| + Growth(ops) == |Applied(t, ops)|
  {
    hide CleanOp;
    ReadyIsNormal(t, ops, 0);
    InOrderNoOverlap(ops, 0, |t|);
    AppliedLength(t, ops);
  }

  /** Applying a batch and then its inverse restores the text, and reports the batch as the inverse of
      the inverse: undo and redo are the same engine fed its own reports. */
  lemma {:induction false} ApplyThenUndo(t: Text, forward: Batch, inverse: Batch)
    requires Held(t) && Ready(t, forward) && Inverts(t, forward, inverse)
    ensures Held(Applied(t, forward)) && Ready(Applied(t, forward), inverse)
    ensures Applied(Applied(t, forward), inverse) == t && Inverts(Applied(t, forward), inverse, forward)
  {
    hide CleanOp, Rebuilt, InverseOf, InOrder;
    InverseReady(t, forward);
    UndoRestores(t, forward);
    InverseOfInverse(t, forward);
  }
}
