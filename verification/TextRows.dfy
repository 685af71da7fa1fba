/**
 Lines and rows of a text.
 */
module TextRows {
  import opened Base

  predicate StartsLine(t: Text, x: nat)
    requires x <= |t|
  {
    x == 0 || t[x - 1] == NEWLINE
  }

  predicate EndsLine(t: Text, x: nat)
    requires x <= |t|
  {
    x == |t| || t[x] == NEWLINE
  }

  predicate NoNewline(t: Text, a: nat, b: nat)
    requires b <= |t|
  {
    forall x | a <= x < b :: t[x] != NEWLINE
  }

  /** `ls..le` is a line, its newline excluded. */
  predicate IsLine(t: Text, ls: nat, le: nat) {
    ls <= le <= |t| && StartsLine(t, ls) && EndsLine(t, le) && NoNewline(t, ls, le)
  }

  function LineLo(t: Text, x: nat): (r: nat)
    requires x <= |t|
    ensures r <= x && StartsLine(t, r) && NoNewline(t, r, x)
  {
    if StartsLine(t, x) then x else LineLo(t, x - 1)
  }

  function LineHi(t: Text, x: nat): (r: nat)
    requires x <= |t|
    ensures x <= r <= |t| && EndsLine(t, r) && NoNewline(t, x, r)
    decreases |t| - x
  {
    if EndsLine(t, x) then x else LineHi(t, x + 1)
  }

  lemma {:induction false} LineAround(t: Text, x: nat)
    requires x <= |t|
    ensures IsLine(t, LineLo(t, x), LineHi(t, x))
  {}

  lemma {:induction false} LineIs(t: Text, ls: nat, le: nat, x: nat)
    requires IsLine(t, ls, le) && ls <= x <= le
    ensures LineLo(t, x) == ls && LineHi(t, x) == le
  {
    var a: nat, b: nat := LineLo(t, x), LineHi(t, x);
    if a < ls { StartBlocks(t, a, ls, x); }
    if ls < a { StartBlocks(t, ls, a, x); }
    if b < le { EndBlocks(t, x, b, le); }
    if le < b { EndBlocks(t, x, le, b); }
  }

  lemma {:induction false} StartBlocks(t: Text, a: nat, ls: nat, x: nat)
    requires a < ls <= x <= |t| && StartsLine(t, ls)
    ensures !NoNewline(t, a, x)
  {
    assert t[ls - 1] == NEWLINE;
  }

  lemma {:induction false} EndBlocks(t: Text, x: nat, le: nat, b: nat)
    requires x <= le < b <= |t| && EndsLine(t, le)
    ensures !NoNewline(t, x, b)
  {
    assert t[le] == NEWLINE;
  }

  /** Which row an offset is on: the newlines before it. */
  function RowOf(t: Text, x: nat): nat
    requires x <= |t|
  {
    if x == 0 then 0 else RowOf(t, x - 1) + if t[x - 1] == NEWLINE then 1 else 0
  }

  /** Where a row starts; rows past the last clamp to it. */
  function RowStart(t: Text, row: nat): (r: nat)
    ensures r <= |t| && StartsLine(t, r)
  {
    if row == 0 then 0
    else
      var e := LineHi(t, RowStart(t, row - 1));
      if e < |t| then e + 1 else RowStart(t, row - 1)
  }

  lemma {:induction false} RowAcross(t: Text, a: nat, b: nat)
    requires a <= b <= |t| && NoNewline(t, a, b)
    ensures RowOf(t, a) == RowOf(t, b)
    decreases b - a
  {
    if a < b { RowAcross(t, a, b - 1); }
  }

  /** The start of a row is the start of the line of any offset on it. */
  lemma {:induction false} RowStartIsLineLo(t: Text, x: nat)
    requires x <= |t|
    ensures RowStart(t, RowOf(t, x)) == LineLo(t, x)
    decreases x
  {
    var ls := LineLo(t, x);
    RowAcross(t, ls, x);
    if ls > 0 {
      var y := ls - 1;
      RowStartIsLineLo(t, y);
      LineAround(t, y);
      LineIs(t, LineLo(t, y), y, LineLo(t, y));
    }
  }

  lemma {:induction false} RowMonotone(t: Text, a: nat, b: nat)
    requires a <= b <= |t|
    ensures RowOf(t, a) <= RowOf(t, b)
    decreases b - a
  {
    if a < b { RowMonotone(t, a, b - 1); }
  }
}
