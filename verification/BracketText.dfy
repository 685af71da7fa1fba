/**
 Reading brackets off text: the plain scan, and the line-local lexer that skips brackets
 inside line comments, strings and char literals.
 */
module BracketText {
  import opened Base
  import opened BracketShapes
  import opened BracketQueries

  const BACKSLASH: byte := 92

  /** Which delimiters open a comment, a string or a char literal. */
  datatype Config = Config(lineComments: seq<Text>, stringDelims: seq<byte>, charDelim: Option<byte>)
  {
    predicate IsActive() { lineComments != [] || stringDelims != [] || charDelim.Some? }
  }

  // ----- the plain scan -----

  /** Every bracket of `text`, the text starting at offset `at`. */
  function Scan(text: Text, at: nat): seq<Entry> {
    if text == [] then []
    else (if IsBracket(text[0]) then [Entry(at, text[0])] else []) + Scan(text[1..], at + 1)
  }

  // ----- the lexer -----

  /** Code, a line comment, or inside a string or char literal opened by a delimiter. */
  datatype Skip = Code | LineComment | Quoted(delim: byte)

  datatype LexState = LexState(skip: Skip, escaped: bool)

  const START := LexState(Code, false)

  predicate StartsWith(text: Text, m: Text) { |m| <= |text| && text[..|m|] == m }

  predicate OpensComment(cfg: Config, rest: Text) {
    exists i | 0 <= i < |cfg.lineComments| :: cfg.lineComments[i] != [] && StartsWith(rest, cfg.lineComments[i])
  }

  /** Whether the first byte of `rest` is in a skip context, and the state after it. */
  function LexStep(cfg: Config, rest: Text, st: LexState): (bool, LexState)
    requires rest != []
  {
    var b := rest[0];
    if b == NEWLINE then (st.skip != Code, START)
    else
      match st.skip
      case LineComment => (true, st)
      case Quoted(delim) =>
        if st.escaped then (true, LexState(st.skip, false))
        else if b == BACKSLASH then (true, LexState(st.skip, true))
        else if b == delim then (true, LexState(Code, false))
        else (true, st)
      case Code =>
        if OpensComment(cfg, rest) then (true, LexState(LineComment, st.escaped))
        else if b in cfg.stringDelims then (true, LexState(Quoted(b), st.escaped))
        else if cfg.charDelim == Some(b) then (true, LexState(Quoted(b), st.escaped))
        else (false, st)
  }

  /** The brackets of `text` that are in code, lexing from `st`. */
  function Lex(cfg: Config, text: Text, st: LexState, at: nat): seq<Entry> {
    if text == [] then []
    else
      var (skip, st') := LexStep(cfg, text, st);
      (if !skip && IsBracket(text[0]) then [Entry(at, text[0])] else []) + Lex(cfg, text[1..], st', at + 1)
  }

  /** The brackets a document holds under a configuration. */
  function BracketsOf(cfg: Config, text: Text, at: nat): seq<Entry> {
    if cfg.IsActive() then Lex(cfg, text, START, at) else Scan(text, at)
  }

  // ----- the lexer as it runs -----

  /** Annotates bytes with "is this byte in a skip context", one byte at a time. */
  class SkipContext {
    const bytes: Text
    const cfg: Config
    var i: nat
    var state: Skip
    var escaped: bool

    ghost predicate Valid()
      reads this
    {
      i <= |bytes|
    }

    ghost function State(): LexState
      reads this
    {
      LexState(state, escaped)
    }

    constructor (bytes: Text, cfg: Config)
      ensures Valid() && this.bytes == bytes && this.cfg == cfg && i == 0 && State() == START
    {
      this.bytes, this.cfg := bytes, cfg;
      i, state, escaped := 0, Code, false;
    }

    /** Advance the state over the byte `b` at `i`. */
    method Step(b: byte) returns (skip: bool)
      requires Valid() && i < |bytes| && b == bytes[i]
      modifies this`state, this`escaped
      ensures (skip, State()) == LexStep(cfg, bytes[i..], old(State()))
    {
      if b == NEWLINE {
        skip := state != Code;
        state, escaped := Code, false;
        return;
      }
      match state {
        case LineComment => skip := true;
        case Quoted(delim) =>
          if escaped {
            escaped := false;
          } else if b == BACKSLASH {
            escaped := true;
          } else if b == delim {
            state := Code;
          }
          skip := true;
        case Code =>
          var opens := false;
          for k := 0 to |cfg.lineComments|
            invariant opens <==> exists j | 0 <= j < k ::
                      cfg.lineComments[j] != [] && StartsWith(bytes[i..], cfg.lineComments[j])
          {
            var m := cfg.lineComments[k];
            if m != [] && m[0] == b && StartsWith(bytes[i..], m) { opens := true; }
          }
          if opens {
            state := LineComment;
            return true;
          }
          if b in cfg.stringDelims {
            state := Quoted(b);
            return true;
          }
          if cfg.charDelim == Some(b) {
            state := Quoted(b);
            return true;
          }
          skip := false;
      }
    }

    /** The next byte, its offset and whether it is skipped. */
    method Next() returns (r: Option<(nat, byte, bool)>)
      requires Valid()
      modifies this
      ensures Valid()
      ensures old(i) == |bytes| ==> r == None && i == old(i) && State() == old(State())
      ensures old(i) < |bytes| ==>
                && i == old(i) + 1
                && (var step := LexStep(cfg, bytes[old(i)..], old(State()));
                    r == Some((old(i), bytes[old(i)], step.0)) && State() == step.1)
    {
      if i == |bytes| { return None; }
      var b := bytes[i];
      var skip := Step(b);
      r := Some((i, b, skip));
      i := i + 1;
    }
  }

  // ----- building a tree from text -----

  /** Gaps from the previous bracket; the first gap is counted from `from`. */
  function Encode(es: seq<Entry>, from: nat): seq<Item>
    requires es != [] ==> from <= es[0].off
    requires Ascending(es)
  {
    if es == [] then []
    else
      assert forall i, j | 0 <= i < j < |es[1..]| :: es[1..][i] == es[i + 1] && es[1..][j] == es[j + 1];
      [Item(es[0].off - from, es[0].ch)] + Encode(es[1..], es[0].off)
  }

  lemma {:induction false} AscendingTail(es: seq<Entry>)
    requires Ascending(es) && es != []
    ensures Ascending(es[1..]) && (|es| > 1 ==> es[0].off < es[1..][0].off)
  {
    forall i, j | 0 <= i < j < |es[1..]| ensures es[1..][i].off < es[1..][j].off {
      assert es[1..][i] == es[i + 1] && es[1..][j] == es[j + 1];
    }
  }

  /** Encoding loses nothing. */
  lemma {:induction false} DecodeEncode(es: seq<Entry>, from: nat)
    requires es != [] ==> from <= es[0].off
    requires Ascending(es)
    ensures Decode(Encode(es, from), from) == es
    decreases |es|
  {
    if es != [] {
      AscendingTail(es);
      DecodeEncode(es[1..], es[0].off);
    }
  }

  // ----- what a scan yields -----

  ghost predicate Within(es: seq<Entry>, lo: nat, hi: nat) {
    forall i | 0 <= i < |es| :: lo <= es[i].off < hi
  }

  /** Brackets at ascending offsets inside `lo..hi`. */
  ghost predicate Sorted(es: seq<Entry>, lo: nat, hi: nat) {
    Ascending(es) && AllBrackets(es) && Within(es, lo, hi)
  }

  lemma {:induction false} SortedCons(e: Entry, es: seq<Entry>, hi: nat)
    requires IsBracket(e.ch) && Sorted(es, e.off + 1, hi) && e.off < hi
    ensures Sorted([e] + es, e.off, hi)
  {}

  lemma {:induction false} ScanSorted(text: Text, at: nat)
    ensures Sorted(Scan(text, at), at, at + |text|)
    decreases |text|
  {
    if text != [] {
      ScanSorted(text[1..], at + 1);
      var rest := Scan(text[1..], at + 1);
      if IsBracket(text[0]) {
        SortedCons(Entry(at, text[0]), rest, at + |text|);
      } else {
        assert [] + rest == rest;
      }
    }
  }

  lemma {:induction false} LexSorted(cfg: Config, text: Text, st: LexState, at: nat)
    ensures Sorted(Lex(cfg, text, st, at), at, at + |text|)
    decreases |text|
  {
    if text != [] {
      var (skip, st') := LexStep(cfg, text, st);
      hide LexStep;
      LexSorted(cfg, text[1..], st', at + 1);
      var rest := Lex(cfg, text[1..], st', at + 1);
      if !skip && IsBracket(text[0]) {
        SortedCons(Entry(at, text[0]), rest, at + |text|);
      } else {
        assert [] + rest == rest;
      }
    }
  }

  lemma {:induction false} BracketsSorted(cfg: Config, text: Text, at: nat)
    ensures Sorted(BracketsOf(cfg, text, at), at, at + |text|)
  {
    ScanSorted(text, at);
    LexSorted(cfg, text, START, at);
  }

  // ----- cutting text -----

  lemma {:induction false} ScanConcat(a: Text, b: Text, at: nat)
    ensures Scan(a + b, at) == Scan(a, at) + Scan(b, at + |a|)
    decreases |a|
  {
    hide Scan;
    ScanCons(a, at);
    if a == [] {
      assert a + b == b;
    } else {
      ScanCons(a + b, at);
      assert (a + b)[1..] == a[1..] + b;
      ScanConcat(a[1..], b, at + 1);
    }
  }

  /** No marker contains a newline: a comment is a line-local construct. */
  ghost predicate LineLocal(cfg: Config) {
    forall i | 0 <= i < |cfg.lineComments| :: NEWLINE !in cfg.lineComments[i]
  }

  /** `a` and `b` may be lexed apart: the cut is at a line boundary, or the lexer is off. */
  ghost predicate CutOk(cfg: Config, a: Text, b: Text) {
    !cfg.IsActive() || a == [] || b == [] || a[|a| - 1] == NEWLINE
  }

  lemma {:induction false} LongMarkerHasNewline(m: Text, a: Text, b: Text)
    requires a != [] && a[|a| - 1] == NEWLINE && |a| < |m| && StartsWith(a + b, m)
    ensures NEWLINE in m
  {
    assert m[|a| - 1] == (a + b)[..|m|][|a| - 1];
  }

  /** A marker cannot see past the newline that ends its line. */
  lemma {:induction false} MarkerStaysInLine(m: Text, a: Text, b: Text)
    requires NEWLINE !in m && a != [] && a[|a| - 1] == NEWLINE
    ensures StartsWith(a + b, m) <==> StartsWith(a, m)
  {
    if |m| <= |a| {
      assert (a + b)[..|m|] == a[..|m|];
    } else if StartsWith(a + b, m) {
      LongMarkerHasNewline(m, a, b);
    }
  }

  lemma {:induction false} StepStaysInLine(cfg: Config, a: Text, b: Text, st: LexState)
    requires LineLocal(cfg) && a != [] && a[|a| - 1] == NEWLINE
    ensures LexStep(cfg, a + b, st) == LexStep(cfg, a, st)
  {
    assert OpensComment(cfg, a + b) <==> OpensComment(cfg, a) by {
      forall i | 0 <= i < |cfg.lineComments|
        ensures StartsWith(a + b, cfg.lineComments[i]) <==> StartsWith(a, cfg.lineComments[i])
      {
        MarkerStaysInLine(cfg.lineComments[i], a, b);
      }
    }
  }

  /** The lexer restarts at every line boundary. */
  lemma {:induction false} LexConcat(cfg: Config, a: Text, b: Text, st: LexState, at: nat)
    requires LineLocal(cfg) && a != [] && a[|a| - 1] == NEWLINE
    ensures Lex(cfg, a + b, st, at) == Lex(cfg, a, st, at) + Lex(cfg, b, START, at + |a|)
    decreases |a|
  {
    StepStaysInLine(cfg, a, b, st);
    var st' := LexStep(cfg, a, st).1;
    assert (a + b)[1..] == a[1..] + b;
    if |a| == 1 {
      assert a[1..] == [] && [] + b == b;
      assert st' == START;
    } else {
      hide LexStep;
      LexConcat(cfg, a[1..], b, st', at + 1);
    }
  }

  lemma {:induction false} BracketsConcat(cfg: Config, a: Text, b: Text, at: nat)
    requires LineLocal(cfg) && CutOk(cfg, a, b)
    ensures BracketsOf(cfg, a + b, at) == BracketsOf(cfg, a, at) + BracketsOf(cfg, b, at + |a|)
  {
    if !cfg.IsActive() {
      ScanConcat(a, b, at);
    } else if a == [] {
      assert a + b == b;
    } else if b == [] {
      assert a + b == a;
    } else {
      LexConcat(cfg, a, b, START, at);
    }
  }

  // ----- moving brackets -----

  function Move(es: seq<Entry>, d: int): (r: seq<Entry>)
    requires forall i | 0 <= i < |es| :: es[i].off + d >= 0
    ensures |r| == |es|
    ensures forall i | 0 <= i < |es| :: r[i] == Entry(es[i].off + d, es[i].ch)
  {
    seq(|es|, i requires 0 <= i < |es| => Entry(es[i].off + d, es[i].ch))
  }

  lemma {:induction false} MoveConcat(a: seq<Entry>, b: seq<Entry>, d: int, lo: nat, hi: nat)
    requires Within(a, lo, hi) && Within(b, lo, hi) && lo + d >= 0
    ensures Within(a + b, lo, hi) && Move(a + b, d) == Move(a, d) + Move(b, d)
  {}

  lemma {:induction false} HeadMoved(code: bool, ch: byte, rest: seq<Entry>, at: nat, to: nat, n: nat)
    requires n > 0 && Within(rest, at + 1, at + n)
    ensures var h, h' := if code then [Entry(at, ch)] else [], if code then [Entry(to, ch)] else [];
            Within(h + rest, at, at + n) && Move(h + rest, to - at) == h' + Move(rest, to - at)
  {
    MoveConcat(if code then [Entry(at, ch)] else [], rest, to - at, at, at + n);
  }

  lemma {:induction false} ScanMoved(text: Text, at: nat, to: nat)
    ensures Within(Scan(text, at), at, at + |text|)
    ensures Scan(text, to) == Move(Scan(text, at), to - at)
    decreases |text|
  {
    hide Scan;
    ScanSorted(text, at);
    if text == [] {
      ScanCons(text, at);
      ScanCons(text, to);
    } else {
      ScanMoved(text[1..], at + 1, to + 1);
      ScanCons(text, at);
      ScanCons(text, to);
      HeadMoved(IsBracket(text[0]), text[0], Scan(text[1..], at + 1), at, to, |text|);
    }
  }

  lemma {:induction false} ScanCons(text: Text, at: nat)
    ensures text == [] ==> Scan(text, at) == []
    ensures text != [] ==>
              Scan(text, at) == (if IsBracket(text[0]) then [Entry(at, text[0])] else []) + Scan(text[1..], at + 1)
  {}

  lemma {:induction false} LexMoved(cfg: Config, text: Text, st: LexState, at: nat, to: nat)
    ensures Within(Lex(cfg, text, st, at), at, at + |text|)
    ensures Lex(cfg, text, st, to) == Move(Lex(cfg, text, st, at), to - at)
    decreases |text|
  {
    LexSorted(cfg, text, st, at);
    if text != [] {
      var (skip, st') := LexStep(cfg, text, st);
      hide LexStep, Lex;
      LexMoved(cfg, text[1..], st', at + 1, to + 1);
      LexCons(cfg, text, st, at);
      LexCons(cfg, text, st, to);
      hide IsBracket;
      HeadMoved(!skip && IsBracket(text[0]), text[0], Lex(cfg, text[1..], st', at + 1), at, to, |text|);
    }
  }

  lemma {:induction false} LexCons(cfg: Config, text: Text, st: LexState, at: nat)
    requires text != []
    ensures var (skip, st') := LexStep(cfg, text, st);
            Lex(cfg, text, st, at)
            == (if !skip && IsBracket(text[0]) then [Entry(at, text[0])] else []) + Lex(cfg, text[1..], st', at + 1)
  {}

  lemma {:induction false} BracketsMoved(cfg: Config, text: Text, at: nat, to: nat)
    ensures Within(BracketsOf(cfg, text, at), at, at + |text|)
    ensures BracketsOf(cfg, text, to) == Move(BracketsOf(cfg, text, at), to - at)
  {
    ScanMoved(text, at, to);
    LexMoved(cfg, text, START, at, to);
  }

  /** With nothing configured the lexer skips nothing. */
  lemma {:induction false} LexInactive(cfg: Config, text: Text, at: nat)
    requires !cfg.IsActive()
    ensures Lex(cfg, text, START, at) == Scan(text, at)
    decreases |text|
  {
    if text != [] { LexInactive(cfg, text[1..], at + 1); }
  }
}
