/**
 Where a patch carries the text: a position outside every edit goes with its byte, and the
 position map follows it unless an insertion is stacked on an edit that ends there.
 */
module PatchCarries {
  import opened Base
  import opened Patches

  /** `pos` is in no replaced range. */
  ghost predicate Outside(p: Patch, pos: nat) {
    forall i | 0 <= i < |p| :: !(p[i].os <= pos < p[i].oe)
  }

  /** How many edits end at or before `pos`: the gap it lies in. */
  function EndsBy(p: Patch, pos: nat): (k: nat)
    ensures k <= |p|
    ensures forall i | 0 <= i < k :: p[i].oe <= pos
    ensures k < |p| ==> p[k].oe > pos
  {
    if p == [] || p[0].oe > pos then 0 else 1 + EndsBy(p[1..], pos)
  }

  /** Where the text at `pos` really goes. */
  ghost function Carried(p: Patch, pos: nat): int { pos + Shift(p, EndsBy(p, pos)) }

  /** How many of the edits ending by `pos` the position map accounts for. */
  ghost function Reached(p: Patch, pos: nat): (k: nat)
    ensures k <= |p|
  {
    var k := FirstReaching(p, pos);
    if k < |p| && p[k].oe == pos then k + 1 else k
  }

  lemma {:induction false} MapOutside(p: Patch, pos: nat)
    requires WellFormed(p) && Outside(p, pos)
    ensures MapOffset(p, pos, Right) == pos + Shift(p, Reached(p, pos))
    ensures Reached(p, pos) <= EndsBy(p, pos)
  {
    var k := FirstReaching(p, pos);
    if k < |p| && p[k].oe == pos {
      assert Shift(p, k + 1) == Shift(p, k) + Delta(p[k]);
    }
    hide Shift;
    var c := EndsBy(p, pos);
    if c < |p| && c < Reached(p, pos) { ReachedEnds(p, pos, c); }
  }

  lemma {:induction false} ReachedEnds(p: Patch, pos: nat, i: nat)
    requires i < Reached(p, pos)
    ensures p[i].oe <= pos
  {}

  /** An edit between the two counts sits exactly at `pos`: a pure insertion there. */
  lemma {:induction false} BetweenIsInsertion(p: Patch, pos: nat, m: nat)
    requires WellFormed(p) && Outside(p, pos) && Reached(p, pos) <= m < EndsBy(p, pos)
    ensures p[m].os == p[m].oe == pos && Delta(p[m]) == p[m].ne - p[m].ns >= 0
    ensures FirstReaching(p, pos) < m && p[FirstReaching(p, pos)].oe == pos
  {
    var k := FirstReaching(p, pos);
    EditsAscend(p, k, m);
  }

  /** An edit ends at `pos` and a later one inserts there. */
  ghost predicate StackedInsert(p: Patch, pos: nat) {
    exists i, m :: 0 <= i < m < |p| && p[i].oe == pos && p[m].os == pos && p[m].ns < p[m].ne
  }

  lemma {:induction false} ShiftBetween(p: Patch, pos: nat, b: nat)
    requires WellFormed(p) && Outside(p, pos) && Reached(p, pos) <= b <= EndsBy(p, pos)
    ensures Shift(p, Reached(p, pos)) <= Shift(p, b)
    ensures Shift(p, Reached(p, pos)) == Shift(p, b) <==> forall m | Reached(p, pos) <= m < b :: p[m].ns == p[m].ne
    decreases b
  {
    if b > Reached(p, pos) {
      ShiftBetween(p, pos, b - 1);
      BetweenIsInsertion(p, pos, b - 1);
    }
  }

  /** The position map carries a position with its text unless an insertion is stacked there. */
  lemma {:induction false} MapIsCarried(p: Patch, pos: nat)
    requires WellFormed(p) && Outside(p, pos)
    ensures MapOffset(p, pos, Right) == Carried(p, pos) <==> !StackedInsert(p, pos)
  {
    hide Shift, MapOffset;
    MapOutside(p, pos);
    ShiftBetween(p, pos, EndsBy(p, pos));
    if StackedInsert(p, pos) {
      var i, m :| 0 <= i < m < |p| && p[i].oe == pos && p[m].os == pos && p[m].ns < p[m].ne;
      StackedIsBetween(p, pos, i, m);
    } else {
      forall m | Reached(p, pos) <= m < EndsBy(p, pos) ensures p[m].ns == p[m].ne {
        BetweenIsInsertion(p, pos, m);
      }
    }
  }

  lemma {:induction false} StackedIsBetween(p: Patch, pos: nat, i: nat, m: nat)
    requires WellFormed(p) && Outside(p, pos)
    requires i < m < |p| && p[i].oe == pos && p[m].os == pos
    ensures Reached(p, pos) <= m < EndsBy(p, pos)
  {
    assert p[m].os <= p[m].oe;
    var c := EndsBy(p, pos);
    if c <= m { EditsAscend(p, c, m); }
  }

  lemma {:induction false} ReachedAscends(p: Patch, a: nat, b: nat)
    requires WellFormed(p) && a < b
    ensures Reached(p, a) <= Reached(p, b)
  {
    if Reached(p, b) < Reached(p, a) {
      ReachedEnds(p, a, Reached(p, b));
      EditsAscend(p, FirstReaching(p, b), Reached(p, b));
    }
  }

  /** A mapped position stays after the new text of the edits before it. */
  lemma {:induction false} MapAbove(p: Patch, pos: nat)
    requires WellFormed(p) && Outside(p, pos)
    ensures MapOffset(p, pos, Right) >= 0
    ensures Reached(p, pos) > 0 ==> MapOffset(p, pos, Right) >= p[Reached(p, pos) - 1].ne
  {
    hide Shift, MapOffset;
    MapOutside(p, pos);
    var r := Reached(p, pos);
    GapShift(p, r);
    if r > 0 { ReachedEnds(p, pos, r - 1); }
  }

  /** Positions outside every edit keep their order, and stay apart. */
  lemma {:induction false} MapKeepsOrder(p: Patch, a: nat, b: nat)
    requires WellFormed(p) && Outside(p, a) && Outside(p, b) && a < b
    ensures 0 <= MapOffset(p, a, Right) < MapOffset(p, b, Right)
  {
    hide Shift, MapOffset, Reached;
    MapAbove(p, a);
    MapOutside(p, a);
    MapOutside(p, b);
    ReachedAscends(p, a, b);
    var ra, rb, c := Reached(p, a), Reached(p, b), EndsBy(p, a);
    if rb <= c {
      ShiftBetween(p, a, rb);
    } else {
      ShiftBetween(p, a, c);
      MapAbove(p, b);
      GapShift(p, c);
      assert a < p[c].os && p[c].ns <= p[c].ne;
      if c < rb - 1 { NewAscend(p, c, rb - 1); }
    }
  }

  // ----- what is carried -----

  lemma {:induction false} CarriedGap(p: Patch, pos: nat)
    requires WellFormed(p) && Outside(p, pos)
    ensures GapStart(p, EndsBy(p, pos)) <= pos
    ensures EndsBy(p, pos) < |p| ==> pos < p[EndsBy(p, pos)].os
  {}

  /** The byte itself is found again where its position is carried. */
  lemma {:induction false} CarriedByte(p: Patch, before: Text, after: Text, pos: nat)
    requires Rewrites(p, before, after) && Outside(p, pos) && pos < |before|
    ensures 0 <= Carried(p, pos) < |after| && after[Carried(p, pos)] == before[pos]
  {
    hide Shift, Rewrites, Outside;
    RewritesWellFormed(p, before, after);
    CarriedGap(p, pos);
    GapByte(p, before, after, EndsBy(p, pos), pos);
  }

  lemma {:induction false} EndsAscend(p: Patch, a: nat, b: nat)
    requires a <= b
    ensures EndsBy(p, a) <= EndsBy(p, b)
  {
    if p != [] && p[0].oe <= a { EndsAscend(p[1..], a, b); }
  }

  /** A carried position lies before the new text of every later edit. */
  lemma {:induction false} CarriedBelow(p: Patch, pos: nat, k: nat)
    requires WellFormed(p) && Outside(p, pos) && EndsBy(p, pos) <= k < |p|
    ensures Carried(p, pos) < p[k].ns
  {
    hide Shift, Outside;
    var c := EndsBy(p, pos);
    CarriedGap(p, pos);
    GapShift(p, c);
    assert p[c].ns <= p[c].ne;
    if c < k { NewAscend(p, c, k); }
  }

  lemma {:induction false} CarriedAbove(p: Patch, pos: nat)
    requires WellFormed(p) && Outside(p, pos)
    ensures NewGapStart(p, EndsBy(p, pos)) <= Carried(p, pos)
  {
    hide Shift, Outside;
    CarriedGap(p, pos);
    GapShift(p, EndsBy(p, pos));
  }

  /** The text outside the edits keeps its order. */
  lemma {:induction false} CarriedKeepsOrder(p: Patch, a: nat, b: nat)
    requires WellFormed(p) && Outside(p, a) && Outside(p, b) && a < b
    ensures 0 <= Carried(p, a) < Carried(p, b)
  {
    assert Carried(p, a) == a + Shift(p, EndsBy(p, a)) && Carried(p, b) == b + Shift(p, EndsBy(p, b));
    hide Shift, Outside, Carried;
    EndsAscend(p, a, b);
    CarriedAbove(p, a);
    CarriedAbove(p, b);
    var c, e := EndsBy(p, a), EndsBy(p, b);
    if c < e {
      CarriedBelow(p, a, e - 1);
      assert p[e - 1].ns <= p[e - 1].ne;
    }
  }

  /** The map takes a position to where another byte went only if they are the same. */
  lemma {:induction false} MapNamesByte(p: Patch, a: nat, b: nat)
    requires WellFormed(p) && Outside(p, a) && Outside(p, b) && MapOffset(p, a, Right) == Carried(p, b)
    ensures a == b
  {
    hide Shift, Outside, MapOffset, Reached;
    MapOutside(p, a);
    ShiftBetween(p, a, EndsBy(p, a));
    if a < b {
      CarriedKeepsOrder(p, a, b);
    } else if b < a {
      BelowTheMap(p, b, a);
    }
  }

  lemma {:induction false} BelowTheMap(p: Patch, b: nat, a: nat)
    requires WellFormed(p) && Outside(p, a) && Outside(p, b) && b < a
    ensures Carried(p, b) < MapOffset(p, a, Right)
  {
    MapOutside(p, a);
    MapAbove(p, a);
    assert EndsBy(p, b) <= Reached(p, a) by {
      var r := Reached(p, a);
      if r < EndsBy(p, b) { assert p[r].oe <= b; }
    }
    hide Shift, Outside, MapOffset, Reached;
    var c, r := EndsBy(p, b), Reached(p, a);
    if c < r { CarriedBelow(p, b, r - 1); }
  }
}
