/**
 What the lexer computes, said of the text alone: a text is cut into tokens, each closed by what
 stands in it, and the brackets a document holds are the ones that are tokens by themselves.
 */
module BracketTokens {
  import opened Base
  import opened BracketShapes
  import opened BracketText

  /** One byte of code, a comment, a closed literal, or a literal its line leaves open. */
  datatype Token = Plain | Comment(n: nat) | Literal(n: nat) | OpenLiteral(n: nat)
  {
    function Length(): nat { if Plain? then 1 else n }
  }

  predicate MarkerStarts(cfg: Config, rest: Text) { exists m | m in cfg.lineComments :: m != [] && m <= rest }

  predicate Delimits(cfg: Config, b: byte) { b in cfg.stringDelims || cfg.charDelim == Some(b) }

  /** A backslash that is not itself escaped stands just before `i`. */
  predicate Escaped(s: Text, i: nat)
    requires i <= |s|
  {
    i > 0 && s[i - 1] == BACKSLASH && !Escaped(s, i - 1)
  }

  /** The delimiter stands unescaped at `i` of the literal's text; a backslash closes nothing. */
  predicate Closes(s: Text, d: byte, i: nat)
    requires i < |s|
  {
    s[i] == d && d != BACKSLASH && !Escaped(s, i)
  }

  predicate NoneCloses(s: Text, d: byte, n: nat)
    requires n <= |s|
  {
    forall i | 0 <= i < n :: !Closes(s, d, i)
  }

  /** The first `n` bytes are what is left of the line. */
  predicate RestOfLine(rest: Text, n: nat) {
    0 < n <= |rest| && NEWLINE !in rest[..n] && (n == |rest| || rest[n] == NEWLINE)
  }

  predicate IsToken(cfg: Config, rest: Text, t: Token)
    requires rest != []
  {
    match t
    case Plain => rest[0] == NEWLINE || (!MarkerStarts(cfg, rest) && !Delimits(cfg, rest[0]))
    case Comment(n) => MarkerStarts(cfg, rest) && RestOfLine(rest, n)
    case Literal(n) =>
      && !MarkerStarts(cfg, rest) && Delimits(cfg, rest[0])
      && 2 <= n <= |rest| && NEWLINE !in rest[..n]
      && Closes(rest[1..], rest[0], n - 2) && NoneCloses(rest[1..], rest[0], n - 2)
    case OpenLiteral(n) =>
      && !MarkerStarts(cfg, rest) && Delimits(cfg, rest[0])
      && RestOfLine(rest, n) && NoneCloses(rest[1..], rest[0], n - 1)
  }

  /** The tokens cut up the text. */
  predicate IsTokens(cfg: Config, text: Text, ts: seq<Token>)
    decreases |ts|
  {
    if ts == [] then text == []
    else
      && text != [] && IsToken(cfg, text, ts[0]) && ts[0].Length() <= |text|
      && IsTokens(cfg, text[ts[0].Length()..], ts[1..])
  }

  /** The brackets that are tokens by themselves. */
  function CodeBrackets(text: Text, ts: seq<Token>, at: nat): seq<Entry>
    decreases |ts|
  {
    if ts == [] || text == [] || ts[0].Length() > |text| then []
    else
      (if ts[0].Plain? && IsBracket(text[0]) then [Entry(at, text[0])] else [])
      + CodeBrackets(text[ts[0].Length()..], ts[1..], at + ts[0].Length())
  }

  // ----- one cutting, and only one -----

  lemma {:induction false} LineEnds(rest: Text) returns (n: nat)
    requires rest != [] && rest[0] != NEWLINE
    ensures RestOfLine(rest, n)
  {
    n := 1;
    while n < |rest| && rest[n] != NEWLINE
      invariant 0 < n <= |rest| && NEWLINE !in rest[..n]
    {
      n := n + 1;
    }
  }

  /** Some token starts every text. */
  lemma {:induction false} TokenExists(cfg: Config, rest: Text) returns (t: Token)
    requires rest != []
    ensures IsToken(cfg, rest, t) && 0 < t.Length() <= |rest|
  {
    hide MarkerStarts, Delimits, Closes;
    if rest[0] == NEWLINE || (!MarkerStarts(cfg, rest) && !Delimits(cfg, rest[0])) { return Plain; }
    var n := LineEnds(rest);
    if MarkerStarts(cfg, rest) { return Comment(n); }
    var i := 0;
    while i < n - 1 && !Closes(rest[1..], rest[0], i)
      invariant i <= n - 1 && NoneCloses(rest[1..], rest[0], i)
    {
      i := i + 1;
    }
    t := if i == n - 1 then OpenLiteral(n) else Literal(i + 2);
    assert rest[..i + 1] <= rest[..n];
  }

  /** Every text is cut into tokens. */
  lemma {:induction false} TokensExist(cfg: Config, text: Text) returns (ts: seq<Token>)
    ensures IsTokens(cfg, text, ts)
    decreases |text|
  {
    if text == [] { return []; }
    var t := TokenExists(cfg, text);
    var rest := TokensExist(cfg, text[t.Length()..]);
    ts := [t] + rest;
  }

  lemma {:induction false} TokenUnique(cfg: Config, rest: Text, t: Token, u: Token)
    requires rest != [] && IsToken(cfg, rest, t) && IsToken(cfg, rest, u)
    ensures t == u
  {
    hide MarkerStarts, Delimits, Closes;
    assert t.Length() > 0 && u.Length() > 0;
    assert !t.Plain? ==> rest[0] == rest[..t.Length()][0];
    assert !u.Plain? ==> rest[0] == rest[..u.Length()][0];
  }

  /** A text is cut into tokens in one way only. */
  lemma {:induction false} TokensUnique(cfg: Config, text: Text, ts: seq<Token>, us: seq<Token>)
    requires IsTokens(cfg, text, ts) && IsTokens(cfg, text, us)
    ensures ts == us
    decreases |ts|
  {
    if ts != [] {
      TokenUnique(cfg, text, ts[0], us[0]);
      TokensUnique(cfg, text[ts[0].Length()..], ts[1..], us[1..]);
    }
  }

  // ----- the lexer walks the tokens -----

  lemma {:induction false} OpensIsMarker(cfg: Config, rest: Text)
    ensures OpensComment(cfg, rest) <==> MarkerStarts(cfg, rest)
  {
    if MarkerStarts(cfg, rest) {
      var m :| m in cfg.lineComments && m != [] && m <= rest;
      var i :| 0 <= i < |cfg.lineComments| && cfg.lineComments[i] == m;
      assert rest[..|m|] == m;
      assert OpensComment(cfg, rest);
    }
    if OpensComment(cfg, rest) {
      var i :| 0 <= i < |cfg.lineComments| && cfg.lineComments[i] != [] && StartsWith(rest, cfg.lineComments[i]);
      assert cfg.lineComments[i] in cfg.lineComments && cfg.lineComments[i] <= rest;
    }
  }

  lemma {:induction false} LexNothing(cfg: Config, st: LexState, at: nat)
    ensures Lex(cfg, [], st, at) == []
  {}

  lemma {:induction false} LexPlain(cfg: Config, text: Text, at: nat)
    requires text != [] && IsToken(cfg, text, Plain)
    ensures Lex(cfg, text, START, at)
            == (if IsBracket(text[0]) then [Entry(at, text[0])] else []) + Lex(cfg, text[1..], START, at + 1)
  {
    OpensIsMarker(cfg, text);
    hide OpensComment, MarkerStarts, Lex;
    LexCons(cfg, text, START, at);
  }

  /** What is left of a comment's line is skipped. */
  lemma {:induction false} LexComment(cfg: Config, text: Text, n: nat, st: LexState, at: nat)
    requires n <= |text| && NEWLINE !in text[..n] && st.skip == LineComment
    ensures Lex(cfg, text, st, at) == Lex(cfg, text[n..], st, at + n)
    decreases n
  {
    hide OpensComment;
    if n > 0 {
      assert text[0] == text[..n][0];
      forall b | b in text[1..][..n - 1] ensures b in text[..n] {}
      LexComment(cfg, text[1..], n - 1, st, at + 1);
      assert text[1..][n - 1..] == text[n..];
      LexSkips(cfg, text, st, at);
    } else {
      assert text[0..] == text;
    }
  }

  lemma {:induction false} LexSkips(cfg: Config, text: Text, st: LexState, at: nat)
    requires text != [] && LexStep(cfg, text, st).0
    ensures Lex(cfg, text, st, at) == Lex(cfg, text[1..], LexStep(cfg, text, st).1, at + 1)
  {
    hide LexStep;
  }

  /** Inside a literal, the bytes up to where it may close are skipped. */
  lemma {:induction false} LexQuoted(cfg: Config, s: Text, d: byte, i: nat, n: nat, at: nat)
    requires i <= n <= |s| && NEWLINE !in s[..n] && d != NEWLINE && NoneCloses(s, d, n)
    ensures Lex(cfg, s[i..], LexState(Quoted(d), Escaped(s, i)), at)
            == Lex(cfg, s[n..], LexState(Quoted(d), Escaped(s, n)), at + (n - i))
    decreases n - i
  {
    hide Lex, OpensComment;
    if i < n {
      var st := LexState(Quoted(d), Escaped(s, i));
      assert s[i] == s[..n][i] && s[i..][0] == s[i] && s[i..][1..] == s[i + 1..];
      assert !Closes(s, d, i);
      LexSkips(cfg, s[i..], st, at);
      LexQuoted(cfg, s, d, i + 1, n, at + 1);
    }
  }

  /** A newline, or the end of the text, leaves whatever it ends. */
  lemma {:induction false} LexLineEnd(cfg: Config, text: Text, st: LexState, at: nat)
    requires text == [] || text[0] == NEWLINE
    ensures Lex(cfg, text, st, at) == Lex(cfg, text, START, at)
  {
    hide OpensComment;
    if text == [] {
      LexNothing(cfg, st, at);
      LexNothing(cfg, START, at);
    } else {
      LexCons(cfg, text, st, at);
      LexCons(cfg, text, START, at);
    }
  }

  lemma {:induction false} LexOpens(cfg: Config, text: Text, at: nat)
    requires text != [] && text[0] != NEWLINE && (MarkerStarts(cfg, text) || Delimits(cfg, text[0]))
    ensures Lex(cfg, text, START, at)
            == Lex(cfg, text[1..],
                   LexState(if MarkerStarts(cfg, text) then LineComment else Quoted(text[0]), false), at + 1)
  {
    OpensIsMarker(cfg, text);
    hide OpensComment, MarkerStarts, Lex;
    LexSkips(cfg, text, START, at);
  }

  lemma {:induction false} LexHidden(cfg: Config, text: Text, t: Token, at: nat)
    requires text != [] && IsToken(cfg, text, t) && !t.Plain?
    ensures Lex(cfg, text, START, at) == Lex(cfg, text[t.n..], START, at + t.n)
  {
    hide Lex, LexStep, MarkerStarts, Delimits, Closes, OpensComment;
    var n := t.n;
    assert text[..n][0] == text[0];
    assert text[1..][..n - 1] == text[1..n] && text[1..][n - 1..] == text[n..];
    forall b | b in text[1..n] ensures b in text[..n] {}
    LexOpens(cfg, text, at);
    var d, s := text[0], text[1..];
    match t
    case Comment(_) =>
      var st := LexState(LineComment, false);
      LexComment(cfg, s, n - 1, st, at + 1);
      LexLineEnd(cfg, text[n..], st, at + n);
    case Literal(_) =>
      assert s[0..] == s && s[..n - 2] <= s[..n - 1] && s[n - 2..][1..] == text[n..];
      LexQuoted(cfg, s, d, 0, n - 2, at + 1);
      LexCloses(cfg, s, d, n - 2, at + n - 1);
    case OpenLiteral(_) =>
      assert s[0..] == s;
      LexQuoted(cfg, s, d, 0, n - 1, at + 1);
      LexLineEnd(cfg, text[n..], LexState(Quoted(d), Escaped(s, n - 1)), at + n);
  }

  lemma {:induction false} LexCloses(cfg: Config, s: Text, d: byte, i: nat, at: nat)
    requires i < |s| && Closes(s, d, i) && d != NEWLINE
    ensures Lex(cfg, s[i..], LexState(Quoted(d), Escaped(s, i)), at) == Lex(cfg, s[i..][1..], START, at + 1)
  {
    hide Lex, OpensComment;
    LexSkips(cfg, s[i..], LexState(Quoted(d), Escaped(s, i)), at);
  }

  lemma {:induction false} LexIsTokens(cfg: Config, text: Text, ts: seq<Token>, at: nat)
    requires IsTokens(cfg, text, ts)
    ensures Lex(cfg, text, START, at) == CodeBrackets(text, ts, at)
    decreases |ts|
  {
    hide IsToken, Lex, LexStep;
    if ts == [] {
      LexNothing(cfg, START, at);
    } else {
      var n := ts[0].Length();
      LexIsTokens(cfg, text[n..], ts[1..], at + n);
      if ts[0].Plain? {
        LexPlain(cfg, text, at);
      } else {
        LexHidden(cfg, text, ts[0], at);
      }
    }
  }

  /** A document holds exactly the brackets that are tokens by themselves, in text order. */
  lemma {:induction false} BracketsAreTokens(cfg: Config, text: Text, ts: seq<Token>, at: nat)
    requires IsTokens(cfg, text, ts)
    ensures BracketsOf(cfg, text, at) == CodeBrackets(text, ts, at)
  {
    hide Lex, Scan, IsTokens, CodeBrackets;
    LexIsTokens(cfg, text, ts, at);
    if !cfg.IsActive() { LexInactive(cfg, text, at); }
  }

  // ----- reading a line -----

  /** No literal and no comment starts in the first `n` bytes. */
  ghost predicate CodeOnly(cfg: Config, text: Text, n: nat)
    requires n <= |text|
  {
    forall i | 0 <= i < n :: text[i] == NEWLINE || (!Delimits(cfg, text[i]) && !MarkerStarts(cfg, text[i..]))
  }

  /** Every bracket of a stretch of code is found. */
  lemma {:induction false} CodeShows(cfg: Config, a: Text, b: Text, at: nat)
    requires CodeOnly(cfg, a + b, |a|)
    ensures Lex(cfg, a + b, START, at) == Scan(a, at) + Lex(cfg, b, START, at + |a|)
    decreases |a|
  {
    hide Lex, LexStep, MarkerStarts, Delimits;
    if a == [] {
      assert a + b == b;
      ScanCons(a, at);
    } else {
      var text := a + b;
      assert text[0..] == text && text[1..] == a[1..] + b && text[0] == a[0];
      assert text[0] == NEWLINE || (!Delimits(cfg, text[0]) && !MarkerStarts(cfg, text[0..]));
      forall i | 0 <= i < |a[1..]|
        ensures var r := text[1..];
                r[i] == NEWLINE || (!Delimits(cfg, r[i]) && !MarkerStarts(cfg, r[i..]))
      {
        assert text[1..][i] == text[i + 1] && text[1..][i..] == text[i + 1..];
      }
      CodeShows(cfg, a[1..], b, at + 1);
      LexPlain(cfg, text, at);
      ScanCons(a, at);
    }
  }

  lemma {:induction false} BracketsLexed(cfg: Config, text: Text, at: nat)
    ensures BracketsOf(cfg, text, at) == Lex(cfg, text, START, at)
  {
    if !cfg.IsActive() { LexInactive(cfg, text, at); }
  }

  /** After a stretch of code, a token that is no byte of code hides all it holds. */
  lemma {:induction false} TokenHides(cfg: Config, a: Text, c: Text, b: Text, t: Token, at: nat)
    requires CodeOnly(cfg, a + (c + b), |a|) && c != [] && IsToken(cfg, c + b, t) && !t.Plain? && t.n == |c|
    ensures BracketsOf(cfg, a + (c + b), at) == Scan(a, at) + BracketsOf(cfg, b, at + |a| + |c|)
  {
    hide Lex, LexStep, IsToken, CodeOnly, Scan;
    CodeShows(cfg, a, c + b, at);
    LexHidden(cfg, c + b, t, at + |a|);
    assert (c + b)[|c|..] == b;
    BracketsLexed(cfg, a + (c + b), at);
    BracketsLexed(cfg, b, at + |a| + |c|);
  }

  /** A closed literal hides the brackets in it and no others: after `a`, in which nothing starts,
      a delimiter `d`, then `s` in which every `d` is escaped, then `d` unescaped. */
  lemma {:induction false} LiteralHides(cfg: Config, a: Text, d: byte, s: Text, b: Text, at: nat)
    requires CodeOnly(cfg, a + ([d] + s + [d] + b), |a|)
    requires Delimits(cfg, d) && d != BACKSLASH && d != NEWLINE && !MarkerStarts(cfg, [d] + s + [d] + b)
    requires NEWLINE !in s && !Escaped(s, |s|) && forall i | 0 <= i < |s| && s[i] == d :: Escaped(s, i)
    ensures BracketsOf(cfg, a + ([d] + s + [d] + b), at) == Scan(a, at) + BracketsOf(cfg, b, at + |a| + |s| + 2)
  {
    hide Lex, LexStep, MarkerStarts, Delimits, Scan, CodeOnly, BracketsOf, Escaped;
    var c := [d] + s + [d];
    var rest := c + b;
    var body := rest[1..];
    assert rest[0] == d && body[..|s|] == s && body[|s|] == d && rest[..|c|] == c;
    forall i | 0 <= i <= |s| ensures Escaped(body, i) == Escaped(s, i) { EscapedPrefix(body, s, i); }
    assert NoneCloses(body, d, |s|);
    assert IsToken(cfg, rest, Literal(|c|));
    TokenHides(cfg, a, c, b, Literal(|c|), at);
  }

  /** What escapes a byte stands before it. */
  lemma {:induction false} EscapedPrefix(s: Text, u: Text, i: nat)
    requires i <= |u| && u <= s
    ensures Escaped(s, i) == Escaped(u, i)
    decreases i
  {
    if i > 0 { EscapedPrefix(s, u, i - 1); }
  }

  lemma {:induction false} NothingEscaped(s: Text, i: nat)
    requires i <= |s| && (i == 0 || s[i - 1] != BACKSLASH)
    ensures !Escaped(s, i)
  {}

  /** A quote after a backslash does not close the literal. */
  lemma {:induction false} EscapedQuoteStays(cfg: Config, a: Text, d: byte, u: Text, v: Text, b: Text, at: nat)
    requires var s := u + [BACKSLASH, d] + v;
             && CodeOnly(cfg, a + ([d] + s + [d] + b), |a|)
             && Delimits(cfg, d) && d != BACKSLASH && d != NEWLINE && !MarkerStarts(cfg, [d] + s + [d] + b)
             && NEWLINE !in u + v && d !in u + v && BACKSLASH !in u + v
    ensures BracketsOf(cfg, a + ([d] + (u + [BACKSLASH, d] + v) + [d] + b), at)
            == Scan(a, at) + BracketsOf(cfg, b, at + |a| + |u| + |v| + 4)
  {
    hide MarkerStarts, Delimits, Scan, CodeOnly, BracketsOf;
    var s := u + [BACKSLASH, d] + v;
    var k := |u| + 1;
    assert s[k - 1] == BACKSLASH && s[k] == d;
    forall i | 0 <= i < k - 1 ensures s[i] != d && s[i] != BACKSLASH { assert s[i] == u[i] && (u + v)[i] == u[i]; }
    forall i | k < i < |s| ensures s[i] != d && s[i] != BACKSLASH {
      assert s[i] == v[i - k - 1] && (u + v)[i - 2] == v[i - k - 1];
    }
    NothingEscaped(s, |u|);
    NothingEscaped(s, |s|);
    assert Escaped(s, k);
    forall x | x in s ensures x != NEWLINE { assert x in u + v || x == BACKSLASH || x == d; }
    LiteralHides(cfg, a, d, s, b, at);
  }

  /** A marker in code hides the rest of its line. */
  lemma {:induction false} CommentHides(cfg: Config, a: Text, c: Text, b: Text, at: nat)
    requires CodeOnly(cfg, a + (c + b), |a|)
    requires c != [] && NEWLINE !in c && MarkerStarts(cfg, c + b) && (b == [] || b[0] == NEWLINE)
    ensures BracketsOf(cfg, a + (c + b), at) == Scan(a, at) + BracketsOf(cfg, b, at + |a| + |c|)
  {
    hide Lex, LexStep, MarkerStarts, Delimits, Scan, CodeOnly, BracketsOf;
    assert (c + b)[..|c|] == c;
    assert IsToken(cfg, c + b, Comment(|c|));
    TokenHides(cfg, a, c, b, Comment(|c|), at);
  }

  /** A literal its line leaves open hides the rest of the line. */
  lemma {:induction false} OpenLiteralHides(cfg: Config, a: Text, d: byte, s: Text, b: Text, at: nat)
    requires CodeOnly(cfg, a + ([d] + s + b), |a|)
    requires Delimits(cfg, d) && d != NEWLINE && !MarkerStarts(cfg, [d] + s + b)
    requires NEWLINE !in s && (b == [] || b[0] == NEWLINE)
    requires d != BACKSLASH ==> forall i | 0 <= i < |s| && s[i] == d :: Escaped(s, i)
    ensures BracketsOf(cfg, a + ([d] + s + b), at) == Scan(a, at) + BracketsOf(cfg, b, at + |a| + |s| + 1)
  {
    hide Lex, LexStep, MarkerStarts, Delimits, Scan, CodeOnly, BracketsOf, Escaped;
    var c := [d] + s;
    var rest := c + b;
    var body := rest[1..];
    assert rest[0] == d && body[..|s|] == s && rest[..|c|] == c;
    forall i | 0 <= i < |s| ensures Escaped(body, i) == Escaped(s, i) { EscapedPrefix(body, s, i); }
    assert NoneCloses(body, d, |s|);
    assert IsToken(cfg, rest, OpenLiteral(|c|));
    TokenHides(cfg, a, c, b, OpenLiteral(|c|), at);
  }
}
