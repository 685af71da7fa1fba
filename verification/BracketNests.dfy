/**
 What matching means on balanced text: brackets that nest properly are matched as they nest, wherever
 they stand, and only a closer of an opener's own kind is ever its partner.
 */
module BracketNests {
  import opened Base
  import opened BracketShapes
  import opened BracketQueries

  datatype Kind = Round | Square | Curly
  {
    function Opening(): byte { match this case Round => 40 case Square => 91 case Curly => 123 }

    function Closing(): byte { match this case Round => 41 case Square => 93 case Curly => 125 }
  }

  /** Properly nested brackets: nothing, or a pair around such, followed by such. */
  datatype Nest = Nothing | Around(kind: Kind, inner: Nest, rest: Nest)

  function Written(n: Nest): Text {
    match n
    case Nothing => []
    case Around(k, inner, rest) => [k.Opening()] + Written(inner) + [k.Closing()] + Written(rest)
  }

  /** The entries are these characters. */
  ghost predicate Reads(es: seq<Entry>, chars: Text) {
    |es| == |chars| && forall i | 0 <= i < |es| :: es[i].ch == chars[i]
  }

  lemma {:induction false} ReadsParts(es: seq<Entry>, a: Text, b: Text)
    requires Reads(es, a + b)
    ensures es == es[..|a|] + es[|a|..] && Reads(es[..|a|], a) && Reads(es[|a|..], b)
  {
    forall i | 0 <= i < |a| ensures es[..|a|][i].ch == a[i] { assert (a + b)[i] == a[i]; }
    forall i | 0 <= i < |b| ensures es[|a|..][i].ch == b[i] { assert (a + b)[|a| + i] == b[i]; }
  }

  /** A hunt for a closer passes over balanced brackets as if they were not there. */
  lemma {:induction false} NestPassed(ch: byte, ls: seq<byte>, es: seq<Entry>, n: Nest)
    requires Reads(es, Written(n))
    ensures HuntFlat(ch, Open(ls), es) == Open(ls)
    decreases n, 0
  {
    hide HuntFlat;
    match n
    case Nothing => NothingPassed(ch, ls);
    case Around(k, inner, rest) =>
      var head := [k.Opening()] + Written(inner) + [k.Closing()];
      ReadsParts(es, head, Written(rest));
      AroundPassed(ch, ls, es[..|head|], k, inner);
      NestPassed(ch, ls, es[|head|..], rest);
      HuntFlatConcat(ch, Open(ls), es[..|head|], es[|head|..]);
  }

  lemma {:induction false} NothingPassed(ch: byte, ls: seq<byte>)
    ensures HuntFlat(ch, Open(ls), []) == Open(ls)
  {}

  /** A pair around something, part by part. */
  lemma {:induction false} AroundParts(es: seq<Entry>, k: Kind, mid: Text)
    requires Reads(es, [k.Opening()] + mid + [k.Closing()])
    ensures |es| == |mid| + 2 && es[0].ch == k.Opening() && es[|mid| + 1].ch == k.Closing()
    ensures Reads(es[1..|mid| + 1], mid) && es == [es[0]] + es[1..|mid| + 1] + [es[|mid| + 1]]
  {
    var chars := [k.Opening()] + mid + [k.Closing()];
    assert chars[0] == k.Opening() && chars[|mid| + 1] == k.Closing();
    forall i | 0 <= i < |mid| ensures es[1..|mid| + 1][i].ch == mid[i] { assert chars[i + 1] == mid[i]; }
  }

  lemma {:induction false} AroundPassed(ch: byte, ls: seq<byte>, es: seq<Entry>, k: Kind, inner: Nest)
    requires Reads(es, [k.Opening()] + Written(inner) + [k.Closing()])
    ensures HuntFlat(ch, Open(ls), es) == Open(ls)
    decreases inner, 1
  {
    hide HuntFlat, Written;
    AroundParts(es, k, Written(inner));
    var n := |Written(inner)|;
    var mid, last := es[1..n + 1], es[n + 1];
    hide Reads;
    var up := ls + [k.Opening()];
    NestPassed(ch, up, mid, inner);
    HuntFlatOne(ch, Open(ls), es[0]);
    HuntFlatConcat(ch, Open(ls), [es[0]], mid);
    HuntFlatOne(ch, Open(up), last);
    assert up[..|up| - 1] == ls && up[|up| - 1] == k.Opening();
    HuntFlatConcat(ch, Open(ls), [es[0]] + mid, [last]);
  }

  /** In brackets `es` a pair stands at `i` around balanced brackets: its opener and its closer are
      partners. */
  lemma {:induction false} BalancedIsMatched(es: seq<Entry>, i: nat, k: Kind, inner: Nest)
    requires Ascending(es) && AllBrackets(es)
    requires i + |Written(inner)| + 1 < |es|
    requires Reads(es[i..i + |Written(inner)| + 2], [k.Opening()] + Written(inner) + [k.Closing()])
    ensures var j := i + |Written(inner)| + 1;
            && Derive(es).out[i].open && Derive(es).out[i].partner == Some(es[j].off)
            && !Derive(es).out[j].open && Derive(es).out[j].partner == Some(es[i].off)
  {
    hide HuntFlat, Written, Derive;
    var n := |Written(inner)|;
    var j := i + n + 1;
    AroundParts(es[i..j + 1], k, Written(inner));
    assert es[i..j + 1][1..n + 1] == es[i + 1..j] && es[i..j + 1][0] == es[i] && es[i..j + 1][n + 1] == es[j];
    hide Reads;
    NestPassed(es[i].ch, [], es[i + 1..j], inner);
    assert Bonded(es, i, j);
    hide Ascending, AllBrackets, Bonded;
    PartnerIsBond(es, i, j);
    PartnerIsMutual(es, i, j);
  }

  /** Partners are of a kind. */
  lemma {:induction false} PartnersOfAKind(es: seq<Entry>, i: nat, j: nat) returns (k: Kind)
    requires Ascending(es) && AllBrackets(es) && i < |es| && j < |es| && IsOpener(es[i].ch)
    requires Derive(es).out[i].partner == Some(es[j].off)
    ensures i < j && es[i].ch == k.Opening() && es[j].ch == k.Closing()
  {
    hide Derive, HuntFlat;
    DeriveOpener(es, i);
    PartnerIsBond(es, i, j);
    k := if es[i].ch == 40 then Round else if es[i].ch == 91 then Square else Curly;
  }
}
