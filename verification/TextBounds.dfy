/**
 Character boundaries of a text held as UTF-8 bytes.
 */
module TextBounds {
  import opened Base

  /** A byte that continues a character. */
  predicate Continuation(b: byte) { 128 <= b < 192 }

  predicate Boundary(t: Text, i: nat) {
    i == 0 || i == |t| || (i < |t| && !Continuation(t[i]))
  }

  /** The last boundary at or before `off`, clamped to the text. */
  function ClipLeft(t: Text, off: nat): (r: nat)
    ensures r <= off && r <= |t| && Boundary(t, r)
    ensures forall x | r < x <= off && x <= |t| :: !Boundary(t, x)
    decreases off
  {
    if off > |t| then |t|
    else if Boundary(t, off) then off else ClipLeft(t, off - 1)
  }

  /** The first boundary at or after `off`, clamped to the text. */
  function ClipRight(t: Text, off: nat): (r: nat)
    ensures r <= |t| && Boundary(t, r) && (off <= |t| ==> off <= r)
    ensures forall x | off <= x < r :: !Boundary(t, x)
    decreases |t| - off
  {
    if off >= |t| then |t|
    else if Boundary(t, off) then off else ClipRight(t, off + 1)
  }

  /** How many bytes the character led by `b` takes. */
  function CharLen(b: byte): nat {
    if b < 128 then 1 else if b < 224 then 2 else if b < 240 then 3 else 4
  }

  /** The text is whole characters, each a lead byte and its continuations. */
  predicate WholeChars(t: Text) {
    t == []
    || (!Continuation(t[0]) && CharLen(t[0]) <= |t|
        && (forall j | 1 <= j < CharLen(t[0]) :: Continuation(t[j]))
        && WholeChars(t[CharLen(t[0])..]))
  }

  lemma {:induction false} WholeFrom(t: Text, i: nat)
    requires WholeChars(t) && i <= |t| && Boundary(t, i)
    ensures WholeChars(t[i..])
    decreases |t|
  {
    if i == 0 {
      assert t[0..] == t;
    } else {
      var n := CharLen(t[0]);
      assert i >= n;
      WholeFrom(t[n..], i - n);
      assert t[n..][i - n..] == t[i..];
    }
  }

  lemma {:induction false} WholeStarts(t: Text, i: nat)
    requires i <= |t| && WholeChars(t[i..])
    ensures Boundary(t, i)
  {
    if i < |t| { assert t[i] == t[i..][0]; }
  }
}
