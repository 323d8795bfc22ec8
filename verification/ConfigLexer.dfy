/**
 The tokens of a configuration file, as a function of the text.  A character is one byte of
 seven-bit ASCII; the end of the text plays the role of EOF.
*/
module ConfigLexer {
  const STR_LEN: nat := 128

  predicate IsSpace(c: char) {
    c == ' ' || '\t' <= c <= '\r'
  }

  predicate IsDigit(c: char) {
    '0' <= c <= '9'
  }

  predicate IsAlpha(c: char) {
    'a' <= c <= 'z' || 'A' <= c <= 'Z' || c == '-' || c == '_'
  }

  predicate IsWord(c: char) {
    IsAlpha(c) || IsDigit(c)
  }

  predicate IsPrint(c: char) {
    ' ' <= c <= '~'
  }

  datatype Keyword = Region | Sync | Fname | Pattern | Date | Type | Threshold

  /** What gettoken can return; `Str` carries the text it leaves in the caller's buffer. */
  datatype Token =
    | ErrLen
    | ErrChr
    | Int
    | Pos
    | Str(s: string)
    | Bgn
    | End
    | Equ
    | Key(k: Keyword)
  {
    /** The source's test `> TKN_OK`. */
    predicate Positive() {
      !ErrLen? && !ErrChr?
    }
  }

  function KeyName(k: Keyword): string {
    match k
    case Region => "region"
    case Sync => "sync"
    case Fname => "fname"
    case Pattern => "pattern"
    case Date => "date"
    case Type => "type"
    case Threshold => "threshold"
  }

  /** A word is a keyword if it is one of the seven names, and plain text otherwise. */
  function WordToken(w: string): Token {
    if w == KeyName(Region) then Key(Region)
    else if w == KeyName(Sync) then Key(Sync)
    else if w == KeyName(Fname) then Key(Fname)
    else if w == KeyName(Pattern) then Key(Pattern)
    else if w == KeyName(Date) then Key(Date)
    else if w == KeyName(Type) then Key(Type)
    else if w == KeyName(Threshold) then Key(Threshold)
    else Str(w)
  }

  /** The text after the current line. */
  function AfterLine(s: string): (r: string)
    ensures |r| <= |s| && (s != "" ==> |r| < |s|)
  {
    if s == "" then "" else if s[0] == '\n' then s[1..] else AfterLine(s[1..])
  }

  /** Blanks, comments and semicolons before a token are skipped. */
  function SkipLayout(s: string): (r: string)
    ensures |r| <= |s|
    decreases |s|
  {
    if s == "" then ""
    else if IsSpace(s[0]) || s[0] == ';' then SkipLayout(s[1..])
    else if s[0] == '#' then SkipLayout(AfterLine(s))
    else s
  }

  /** The number of word characters, or of digits, at the start of `s`. */
  function WordSpan(s: string): (n: nat)
    ensures n <= |s|
  {
    if s == "" || !IsWord(s[0]) then 0 else 1 + WordSpan(s[1..])
  }

  function DigitSpan(s: string): (n: nat)
    ensures n <= |s|
  {
    if s == "" || !IsDigit(s[0]) then 0 else 1 + DigitSpan(s[1..])
  }

  datatype Lexed = Lexed(tok: Token, rest: string)

  /** A name or a keyword; a word of STR_LEN characters or more is cut with an error. */
  function LexWord(t: string): Lexed {
    var n := WordSpan(t);
    if n < STR_LEN then Lexed(WordToken(t[..n]), t[n..]) else Lexed(ErrLen, t[STR_LEN..])
  }

  /** The text after `k` more characters, or the end. */
  function Skip(t: string, k: nat): (r: string)
    ensures |r| == if k <= |t| then |t| - k else 0
  {
    if k <= |t| then t[k..] else ""
  }

  /** A number that starts with the first character of `t`, whatever that is. */
  function LexNumber(t: string, tok: Token): Lexed {
    if t == "" then Lexed(tok, "")
    else
      var n := 1 + DigitSpan(t[1..]);
      if n < STR_LEN then Lexed(tok, t[n..]) else Lexed(ErrLen, Skip(t, STR_LEN + 1))
  }

  /** What a quoted text consists of after `i` characters: its remainder, the rest, the final count. */
  datatype Quoted = Quoted(text: string, rest: string, count: nat)

  function LexQuoted(s: string, i: nat): (q: Quoted)
    ensures |q.rest| <= |s| && (s != "" ==> |q.rest| < |s|)
    decreases |s|
  {
    if s == "" || s == "\\" then Quoted("", "", i + 1)
    else
      var c, r := if s[0] == '\\' then s[1] else s[0], if s[0] == '\\' then s[2..] else s[1..];
      if i + 1 < STR_LEN && IsPrint(c) && c != '"' then
        var q := LexQuoted(r, i + 1);
        Quoted([c] + q.text, q.rest, q.count)
      else Quoted("", r, i + 1)
  }

  function LexString(t: string): Lexed {
    var q := LexQuoted(t, 0);
    if q.count >= STR_LEN then Lexed(ErrLen, q.rest) else Lexed(Str(q.text), q.rest)
  }

  /** The token at the start of a text without leading layout. */
  function LexAt(t: string): (r: Lexed)
    requires t != ""
    ensures |r.rest| < |t|
  {
    var c := t[0];
    if IsAlpha(c) then LexWord(t)
    else if IsDigit(c) then LexNumber(t, Int)
    else if c == '$' then LexNumber(t[1..], Pos)
    else if c == '"' then LexString(t[1..])
    else Lexed(if c == '{' then Bgn else if c == '}' then End else if c == '=' then Equ else ErrChr, t[1..])
  }

  /** One call of gettoken: at the end of the text it fails without consuming anything. */
  function Lex(s: string): (r: Lexed)
    ensures |r.rest| <= |s|
    ensures r.tok.Positive() ==> |r.rest| < |s|
    ensures SkipLayout(s) != "" ==> |r.rest| < |s|
  {
    var t := SkipLayout(s);
    if t == "" then Lexed(ErrChr, "") else LexAt(t)
  }

  /** All tokens of a text, error tokens included. */
  function Tokens(s: string): seq<Token>
    decreases |s|, 1
  {
    if s == "" then []
    else if IsSpace(s[0]) || s[0] == ';' then Tokens(s[1..])
    else if s[0] == '#' then Tokens(AfterLine(s))
    else TokensAt(s)
  }

  function TokensAt(t: string): seq<Token>
    requires t != ""
    decreases |t|, 0
  {
    [LexAt(t).tok] + Tokens(LexAt(t).rest)
  }

  /** The tokens are what repeated calls of gettoken return until the text is used up. */
  lemma {:induction false} TokensByCalls(s: string)
    ensures Tokens(s) == if SkipLayout(s) == "" then [] else [Lex(s).tok] + Tokens(Lex(s).rest)
    decreases |s|
  {
    if s == "" {
    } else {
      if IsSpace(s[0]) || s[0] == ';' {
        TokensByCalls(s[1..]);
      } else if s[0] == '#' {
        TokensByCalls(AfterLine(s));
      }
    }
  }

  // ----- Layout -----

  /** Blanks, semicolons and comments that end with a newline. */
  predicate IsLayout(s: string)
    decreases |s|
  {
    if s == "" then true
    else if IsSpace(s[0]) || s[0] == ';' then IsLayout(s[1..])
    else s[0] == '#' && '\n' in s && IsLayout(AfterLine(s))
  }

  lemma {:induction false} AfterLineAppend(s: string, r: string)
    requires '\n' in s
    ensures AfterLine(s + r) == AfterLine(s) + r
  {
    assert (s + r)[1..] == s[1..] + r;
    if s[0] == '\n' {
    } else {
      AfterLineAppend(s[1..], r);
    }
  }

  lemma {:induction false} SkipLayoutAppend(l: string, r: string)
    requires IsLayout(l)
    ensures SkipLayout(l + r) == SkipLayout(r)
    decreases |l|
  {
    if l == "" {
      assert l + r == r;
    } else {
      assert (l + r)[1..] == l[1..] + r && (l + r)[0] == l[0];
      if IsSpace(l[0]) || l[0] == ';' {
        SkipLayoutAppend(l[1..], r);
      } else {
        AfterLineAppend(l, r);
        SkipLayoutAppend(AfterLine(l), r);
      }
    }
  }

  /** Layout in front of a text does not change its tokens. */
  lemma LeadingLayout(l: string, r: string)
    requires IsLayout(l)
    ensures SkipLayout(l + r) == SkipLayout(r) && Lex(l + r) == Lex(r) && Tokens(l + r) == Tokens(r)
  {
    SkipLayoutAppend(l, r);
    TokensByCalls(l + r);
    TokensByCalls(r);
  }

  /** A text that is nothing but layout has no tokens. */
  lemma OnlyLayout(l: string)
    requires IsLayout(l)
    ensures Tokens(l) == []
  {
    LeadingLayout(l, "");
    assert l + "" == l;
  }

  predicate Delimiter(c: char) {
    IsSpace(c) || c == ';' || c == '#'
  }

  /** A following text, or the end of the file, that ends a token just as well as the present one does. */
  predicate EndsLike(x: string, y: string) {
    y != "" && (x == "" || x[0] == y[0] || Delimiter(x[0]))
  }

  lemma {:induction false} AfterLineBeyond(c: string, y: string)
    requires '\n' !in c
    ensures |AfterLine(c + y)| <= |y|
  {
    if c == "" {
      assert c + y == y;
    } else {
      assert (c + y)[1..] == c[1..] + y;
      AfterLineBeyond(c[1..], y);
    }
  }

  /** If the next token starts inside `c`, it does so whatever follows. */
  lemma {:induction false} SkipLocal(c: string, y: string, x: string) returns (d: string)
    requires |SkipLayout(c + y)| > |y|
    ensures d != "" && SkipLayout(c + y) == d + y && SkipLayout(c + x) == d + x
    decreases |c|
  {
    assert c == "" ==> c + y == y;
    if c == "" {
      assert false;
    } else {
      assert (c + y)[1..] == c[1..] + y && (c + x)[1..] == c[1..] + x;
      if IsSpace(c[0]) || c[0] == ';' {
        d := SkipLocal(c[1..], y, x);
      } else if c[0] == '#' {
        if '\n' in c {
          AfterLineAppend(c, y);
          AfterLineAppend(c, x);
          d := SkipLocal(AfterLine(c), y, x);
        } else {
          AfterLineBeyond(c, y);
          assert false;
        }
      } else {
        d := c;
      }
    }
  }

  lemma {:induction false} WordSpanLocal(d: string, y: string, x: string)
    requires EndsLike(x, y)
    ensures WordSpan(d + y) == |d| ==> WordSpan(d + x) == |d|
    ensures WordSpan(d + y) >= |d| ==> WordSpan(d + x) >= |d|
  {
    if d == "" {
      assert d + y == y && d + x == x;
      assert WordSpan(y) == 0 <==> !IsWord(y[0]);
      assert WordSpan(x) == 0 <==> x == "" || !IsWord(x[0]);
    } else {
      assert (d + y)[1..] == d[1..] + y && (d + x)[1..] == d[1..] + x;
      WordSpanLocal(d[1..], y, x);
    }
  }

  lemma {:induction false} DigitSpanLocal(d: string, y: string, x: string)
    requires EndsLike(x, y)
    ensures DigitSpan(d + y) == |d| ==> DigitSpan(d + x) == |d|
    ensures DigitSpan(d + y) >= |d| ==> DigitSpan(d + x) >= |d|
  {
    if d == "" {
      assert d + y == y && d + x == x;
      assert DigitSpan(y) == 0 <==> !IsDigit(y[0]);
      assert DigitSpan(x) == 0 <==> x == "" || !IsDigit(x[0]);
    } else {
      assert (d + y)[1..] == d[1..] + y && (d + x)[1..] == d[1..] + x;
      DigitSpanLocal(d[1..], y, x);
    }
  }

  /** The quoted text goes on after its `i`th character `c`. */
  predicate GoesOn(c: char, i: nat) {
    i + 1 < STR_LEN && IsPrint(c) && c != '"'
  }

  /** If what is left is `y`, the characters of `e` are used one by one until the text ends. */
  lemma QuotedInside(e: string, y: string, i: nat)
    requires y != "" && e != "" && LexQuoted(e + y, i).rest == y
    ensures
      var k := if e[0] == '\\' then 2 else 1;
      k <= |e| && (k < |e| <==> GoesOn(e[k - 1], i))
  {
    var s := e + y;
    var k := if e[0] == '\\' then 2 else 1;
    assert |s[k..]| == |e| + |y| - k;
  }

  lemma {:induction false} LexQuotedLocal(e: string, y: string, x: string, i: nat)
    requires y != "" && LexQuoted(e + y, i).rest == y && e != ""
    ensures LexQuoted(e + x, i) == LexQuoted(e + y, i).(rest := x)
    decreases |e|
  {
    var s, u := e + y, e + x;
    var k := if e[0] == '\\' then 2 else 1;
    QuotedInside(e, y, i);
    assert s[0] == u[0] == e[0] && s[k - 1] == u[k - 1] == e[k - 1];
    assert s[k..] == e[k..] + y && u[k..] == e[k..] + x;
    if k < |e| {
      LexQuotedLocal(e[k..], y, x, i + 1);
    } else {
      assert e[k..] + x == x && e[k..] + y == y;
    }
  }

  lemma LexWordLocal(d: string, y: string, x: string)
    requires d != "" && EndsLike(x, y) && LexWord(d + y).rest == y
    ensures LexWord(d + x) == Lexed(LexWord(d + y).tok, x)
  {
    WordSpanLocal(d, y, x);
    var n := WordSpan(d + y);
    if n < STR_LEN {
      assert |(d + y)[n..]| == |y|;
      assert (d + y)[..n] == d == (d + x)[..n] && (d + x)[n..] == x;
    } else {
      assert |(d + y)[STR_LEN..]| == |y|;
      assert (d + x)[STR_LEN..] == x;
    }
  }

  lemma LexNumberLocal(d: string, y: string, x: string, tok: Token)
    requires d != "" && EndsLike(x, y) && LexNumber(d + y, tok).rest == y
    ensures LexNumber(d + x, tok) == Lexed(LexNumber(d + y, tok).tok, x)
  {
    assert (d + y)[1..] == d[1..] + y && (d + x)[1..] == d[1..] + x;
    DigitSpanLocal(d[1..], y, x);
    var n := 1 + DigitSpan(d[1..] + y);
    if n < STR_LEN {
      assert |(d + y)[n..]| == |y|;
      assert (d + x)[n..] == x;
    } else {
      assert |Skip(d + y, STR_LEN + 1)| == |y|;
      assert |d| == STR_LEN + 1 && (d + x)[STR_LEN + 1..] == x;
      DigitSpanPrefix(d[1..], y, x);
    }
  }

  lemma {:induction false} DigitSpanPrefix(d: string, y: string, x: string)
    ensures DigitSpan(d + y) < |d| ==> DigitSpan(d + x) == DigitSpan(d + y)
    ensures DigitSpan(d + y) >= |d| ==> DigitSpan(d + x) >= |d|
  {
    if d == "" {
    } else {
      assert (d + y)[1..] == d[1..] + y && (d + x)[1..] == d[1..] + x;
      DigitSpanPrefix(d[1..], y, x);
    }
  }

  lemma LexStringLocal(e: string, y: string, x: string)
    requires y != "" && LexString(e + y).rest == y
    ensures e != "" && LexString(e + x) == Lexed(LexString(e + y).tok, x)
  {
    assert e == "" ==> e + y == y;
    if e == "" {
      assert false;
    } else {
      LexQuotedLocal(e, y, x, 0);
    }
  }

  lemma LexDollarLocal(e: string, y: string, x: string)
    requires EndsLike(x, y) && LexNumber(e + y, Pos).rest == y
    ensures e != "" && LexNumber(e + x, Pos) == Lexed(LexNumber(e + y, Pos).tok, x)
  {
    assert e == "" ==> e + y == y;
    if e == "" {
      assert false;
    } else {
      LexNumberLocal(e, y, x, Pos);
    }
  }

  lemma LexSymbolLocal(d: string, y: string, x: string)
    requires d != "" && LexAt(d + y).rest == y && !IsAlpha(d[0]) && !IsDigit(d[0]) && d[0] != '$' && d[0] != '"'
    ensures LexAt(d + x) == Lexed(LexAt(d + y).tok, x)
  {
    assert (d + y)[1..] == d[1..] + y && (d + x)[1..] == d[1..] + x;
    assert |d[1..] + y| == |y|;
    assert d[1..] + x == x;
  }

  lemma LexAtLocal(d: string, y: string, x: string)
    requires d != "" && EndsLike(x, y) && LexAt(d + y).rest == y
    ensures LexAt(d + x) == Lexed(LexAt(d + y).tok, x)
  {
    var c := d[0];
    assert (d + y)[0] == c && (d + x)[0] == c;
    if IsAlpha(c) {
      LexWordLocal(d, y, x);
    } else if IsDigit(c) {
      LexNumberLocal(d, y, x, Int);
    } else if c == '$' || c == '"' {
      assert (d + y)[1..] == d[1..] + y && (d + x)[1..] == d[1..] + x;
      if c == '$' {
        LexDollarLocal(d[1..], y, x);
      } else {
        LexStringLocal(d[1..], y, x);
      }
    } else {
      LexSymbolLocal(d, y, x);
    }
  }

  /** A token that ends before `y` is read the same way if another delimiter follows it. */
  lemma LexLocal(c: string, y: string, x: string)
    requires EndsLike(x, y) && SkipLayout(c + y) != "" && Lex(c + y).rest == y
    ensures SkipLayout(c + x) != "" && Lex(c + x) == Lexed(Lex(c + y).tok, x)
  {
    assert LexAt(SkipLayout(c + y)).rest == y;
    var d := SkipLocal(c, y, x);
    LexAtLocal(d, y, x);
  }

  // ----- Inserting layout between two tokens -----

  predicate Suffix(r: string, s: string) {
    |r| <= |s| && r == s[|s| - |r|..]
  }

  lemma SuffixOfRest(r: string, s: string, k: nat)
    requires k <= |s| && Suffix(r, s[k..])
    ensures Suffix(r, s)
  {
    assert s[k..][|s| - k - |r|..] == s[|s| - |r|..];
  }

  lemma SuffixTransitive(q: string, r: string, s: string)
    requires Suffix(q, r) && Suffix(r, s)
    ensures Suffix(q, s)
  {
    SuffixOfRest(q, s, |s| - |r|);
  }

  lemma {:induction false} AfterLineSuffix(s: string)
    ensures Suffix(AfterLine(s), s)
  {
    if s == "" || s[0] == '\n' {
    } else {
      AfterLineSuffix(s[1..]);
      SuffixOfRest(AfterLine(s), s, 1);
    }
  }

  lemma {:induction false} SkipLayoutSuffix(s: string)
    ensures Suffix(SkipLayout(s), s)
    decreases |s|
  {
    if s == "" {
    } else {
      if IsSpace(s[0]) || s[0] == ';' {
        SkipLayoutSuffix(s[1..]);
        SuffixOfRest(SkipLayout(s), s, 1);
      } else if s[0] == '#' {
        SkipLayoutSuffix(AfterLine(s));
        AfterLineSuffix(s);
        SuffixTransitive(SkipLayout(s), AfterLine(s), s);
      }
    }
  }

  lemma {:induction false} LexQuotedSuffix(s: string, i: nat)
    ensures Suffix(LexQuoted(s, i).rest, s)
    decreases |s|
  {
    if s == "" || s == "\\" {
    } else {
      var k := if s[0] == '\\' then 2 else 1;
      LexQuotedSuffix(s[k..], i + 1);
      SuffixOfRest(LexQuoted(s, i).rest, s, k);
    }
  }

  lemma LexNumberSuffix(t: string, tok: Token)
    ensures Suffix(LexNumber(t, tok).rest, t)
  {
  }

  lemma LexWordSuffix(t: string)
    ensures Suffix(LexWord(t).rest, t)
  {
  }

  lemma LexAtSuffix(t: string)
    requires t != ""
    ensures Suffix(LexAt(t).rest, t)
  {
    if IsAlpha(t[0]) {
      LexWordSuffix(t);
    } else if IsDigit(t[0]) {
      LexNumberSuffix(t, Int);
    } else if t[0] == '"' {
      LexQuotedSuffix(t[1..], 0);
      SuffixOfRest(LexString(t[1..]).rest, t, 1);
    } else if t[0] == '$' {
      LexNumberSuffix(t[1..], Pos);
      SuffixOfRest(LexNumber(t[1..], Pos).rest, t, 1);
    }
  }

  lemma LexSuffix(s: string)
    ensures Suffix(Lex(s).rest, s)
  {
    SkipLayoutSuffix(s);
    var t := SkipLayout(s);
    if t != "" {
      LexAtSuffix(t);
      SuffixTransitive(LexAt(t).rest, t, s);
    }
  }

  /** The text that remains after `k` tokens, if there are that many. */
  function AfterTokens(s: string, k: nat): string
    decreases k
  {
    if k == 0 || SkipLayout(s) == "" then s else AfterTokens(Lex(s).rest, k - 1)
  }

  lemma {:induction false} AfterTokensSuffix(s: string, k: nat)
    ensures Suffix(AfterTokens(s, k), s)
    decreases k
  {
    if k == 0 || SkipLayout(s) == "" {
    } else {
      LexSuffix(s);
      AfterTokensSuffix(Lex(s).rest, k - 1);
      SuffixTransitive(AfterTokens(s, k), Lex(s).rest, s);
    }
  }

  /** A suffix of a + b that still contains b cuts a in two. */
  lemma CutText(a: string, b: string, rest: string) returns (c: string, a': string)
    requires Suffix(rest, a + b) && |b| <= |rest|
    ensures a == c + a' && rest == a' + b
  {
    var n := |rest| - |b|;
    c, a' := a[..|a| - n], a[|a| - n..];
    assert (a + b)[|a| - n..] == a' + b;
  }

  /** One token and what follows it. */
  lemma FirstToken(c: string, x: string, y: string)
    requires EndsLike(x, y) && SkipLayout(c + y) != "" && Lex(c + y).rest == y
    ensures Tokens(c + x) == [Lex(c + y).tok] + Tokens(x) && Tokens(c + y) == [Lex(c + y).tok] + Tokens(y)
  {
    TokensByCalls(c + x);
    TokensByCalls(c + y);
    LexLocal(c, y, x);
  }

  /** The first token ends inside a. */
  lemma CutToken(a: string, b: string, k: nat) returns (c: string, a': string)
    requires k > 0 && SkipLayout(a + b) != "" && AfterTokens(a + b, k) == b
    ensures a == c + a' && Lex(a + b).rest == a' + b && AfterTokens(a' + b, k - 1) == b
  {
    var rest := Lex(a + b).rest;
    LexSuffix(a + b);
    AfterTokensSuffix(rest, k - 1);
    c, a' := CutText(a, b, rest);
  }

  lemma Regroup(c: string, a: string, x: string)
    ensures c + a + x == c + (a + x)
  {
  }

  /** A text whose first character is one of `a`'s, or of what follows. */
  lemma EndsLikeBehind(a: string, x: string, y: string)
    requires EndsLike(x, y)
    ensures EndsLike(a + x, a + y)
  {
    if a == "" {
      assert a + x == x && a + y == y;
    } else {
      assert (a + x)[0] == a[0] == (a + y)[0];
    }
  }

  lemma ReplaceAfter(c: string, a: string, x: string, y: string)
    requires EndsLike(x, y) && SkipLayout(c + a + y) != "" && Lex(c + a + y).rest == a + y
    requires Tokens(a + x) == Tokens(a + y)
    ensures Tokens(c + a + x) == Tokens(c + a + y)
  {
    Regroup(c, a, x);
    Regroup(c, a, y);
    EndsLikeBehind(a, x, y);
    FirstToken(c, a + x, a + y);
  }

  lemma NothingBefore(a: string, x: string)
    requires a == ""
    ensures a + x == x
  {
  }

  lemma SomeTokenBefore(a: string, b: string, k: nat)
    requires a != "" && AfterTokens(a + b, k) == b
    ensures k > 0 && SkipLayout(a + b) != ""
  {
    assert |a + b| > |b|;
  }

  /**
   What follows the k-th token may be replaced by any other text with the same tokens that ends that
   token just as well: the tokens of the file stay the same.
  */
  lemma {:induction false} ReplaceRest(a: string, x: string, y: string, k: nat)
    requires EndsLike(x, y) && Tokens(x) == Tokens(y) && AfterTokens(a + y, k) == y
    ensures Tokens(a + x) == Tokens(a + y)
    decreases k
  {
    if a == "" {
      NothingBefore(a, x);
      NothingBefore(a, y);
    } else {
      SomeTokenBefore(a, y, k);
      var c, a' := CutToken(a, y, k);
      ReplaceRest(a', x, y, k - 1);
      ReplaceAfter(c, a', x, y);
    }
  }

  /**
   Blanks, comments and semicolons may be inserted after any token that is followed by more text:
   the tokens stay the same.
  */
  lemma InsertLayout(a: string, l: string, b: string, k: nat)
    requires IsLayout(l) && b != "" && AfterTokens(a + b, k) == b
    ensures Tokens(a + l + b) == Tokens(a + b)
  {
    LeadingLayout(l, b);
    if l == "" {
      assert a + l + b == a + b;
    } else {
      ReplaceRest(a, l + b, b, k);
      Regroup(a, l, b);
    }
  }

  // ----- Writing tokens -----

  /** A text that is a name: it starts like a word, is one, and is short enough. */
  predicate IsName(w: string) {
    0 < |w| < STR_LEN && IsAlpha(w[0]) && forall i :: 0 <= i < |w| ==> IsWord(w[i])
  }

  /** A text that can be written between quotes; at most STR_LEN - 2 characters fit. */
  predicate IsQuotable(s: string) {
    |s| <= STR_LEN - 2 && forall i :: 0 <= i < |s| ==> IsPrint(s[i]) && s[i] != '"'
  }

  function Escape(s: string): string {
    if s == "" then "" else (if s[0] == '\\' then "\\\\" else [s[0]]) + Escape(s[1..])
  }

  function Quote(s: string): string {
    "\"" + Escape(s) + "\""
  }

  /** A number of at most STR_LEN - 1 digits. */
  predicate IsNumber(text: string) {
    0 < |text| < STR_LEN && forall i :: 0 <= i < |text| ==> IsDigit(text[i])
  }

  /** `text` is a way to write the token. */
  ghost predicate Spells(text: string, tok: Token) {
    match tok
    case Key(k) => text == KeyName(k)
    case Str(s) => (text == s && IsName(s) && WordToken(s) == tok) || (text == Quote(s) && IsQuotable(s))
    case Bgn => text == "{"
    case End => text == "}"
    case Equ => text == "="
    case Int => IsNumber(text)
    case Pos => text != "" && text[0] == '$' && IsNumber(text[1..])
    case _ => false
  }

  /** A name or a number goes on as long as more of its characters follow. */
  predicate NeedsEnd(text: string) {
    text != "" && (IsWord(text[0]) || text[0] == '$')
  }

  /** The text may follow a word without becoming part of it. */
  predicate NotWord(r: string) {
    r == "" || !IsWord(r[0])
  }

  lemma {:induction false} WordSpanOf(w: string, r: string)
    requires (forall i :: 0 <= i < |w| ==> IsWord(w[i])) && NotWord(r)
    ensures WordSpan(w + r) == |w|
  {
    if w == "" {
      assert w + r == r;
    } else {
      assert (w + r)[1..] == w[1..] + r;
      WordSpanOf(w[1..], r);
    }
  }

  lemma LexNameAt(w: string, r: string)
    requires IsName(w) && NotWord(r)
    ensures SkipLayout(w + r) == w + r && Lex(w + r) == Lexed(WordToken(w), r)
  {
    WordSpanOf(w, r);
    assert (w + r)[0] == w[0];
    assert (w + r)[..|w|] == w && (w + r)[|w|..] == r;
  }

  lemma {:induction false} LexEscaped(s: string, r: string, i: nat)
    requires i + |s| + 1 < STR_LEN && forall j :: 0 <= j < |s| ==> IsPrint(s[j]) && s[j] != '"'
    ensures LexQuoted(Escape(s) + "\"" + r, i) == Quoted(s, r, i + |s| + 1)
  {
    var t := Escape(s) + "\"" + r;
    if s == "" {
      assert t == "\"" + r && t[1..] == r;
    } else {
      var k := if s[0] == '\\' then 2 else 1;
      assert t[k..] == Escape(s[1..]) + "\"" + r;
      LexEscaped(s[1..], r, i + 1);
      assert s == [s[0]] + s[1..];
    }
  }

  lemma LexQuoteAt(s: string, r: string)
    requires IsQuotable(s)
    ensures SkipLayout(Quote(s) + r) == Quote(s) + r && Lex(Quote(s) + r) == Lexed(Str(s), r)
  {
    LexEscaped(s, r, 0);
    var t := Quote(s) + r;
    assert t[0] == '"' && t[1..] == Escape(s) + "\"" + r;
  }

  lemma {:induction false} DigitSpanOf(w: string, r: string)
    requires (forall i :: 0 <= i < |w| ==> IsDigit(w[i])) && NotWord(r)
    ensures DigitSpan(w + r) == |w|
  {
    if w == "" {
      assert w + r == r;
    } else {
      assert (w + r)[1..] == w[1..] + r;
      DigitSpanOf(w[1..], r);
    }
  }

  lemma LexNumberAt(w: string, r: string, tok: Token)
    requires IsNumber(w) && NotWord(r)
    ensures LexNumber(w + r, tok) == Lexed(tok, r)
  {
    assert (w + r)[1..] == w[1..] + r;
    DigitSpanOf(w[1..], r);
    assert (w + r)[|w|..] == r;
  }

  lemma KeywordNames(k: Keyword)
    ensures IsName(KeyName(k)) && WordToken(KeyName(k)) == Key(k)
  {
  }

  /** A written token is read back, and nothing after it is consumed. */
  lemma LexSpelled(text: string, tok: Token, r: string)
    requires Spells(text, tok) && (NeedsEnd(text) ==> NotWord(r))
    ensures text != "" && SkipLayout(text + r) == text + r && Lex(text + r) == Lexed(tok, r)
  {
    match tok
    case Key(k) =>
      KeywordNames(k);
      LexNameAt(text, r);
    case Str(s) =>
      if text == Quote(s) && IsQuotable(s) {
        LexQuoteAt(s, r);
      } else {
        LexNameAt(text, r);
      }
    case Bgn => assert (text + r)[1..] == r;
    case End => assert (text + r)[1..] == r;
    case Equ => assert (text + r)[1..] == r;
    case Int => LexNumberAt(text, r, Int);
    case Pos =>
      assert (text + r)[1..] == text[1..] + r;
      LexNumberAt(text[1..], r, Pos);
    case _ =>
  }

  /** A token with the layout in front of it. */
  datatype Piece = Piece(layout: string, text: string, tok: Token)

  function Render(ps: seq<Piece>, trailer: string): string {
    if ps == [] then trailer else ps[0].layout + ps[0].text + Render(ps[1..], trailer)
  }

  function ToksOf(ps: seq<Piece>): seq<Token> {
    if ps == [] then [] else [ps[0].tok] + ToksOf(ps[1..])
  }

  /** Every piece is well written, and words are kept apart. */
  ghost predicate WellWritten(ps: seq<Piece>, trailer: string) {
    if ps == [] then IsLayout(trailer)
    else
      && IsLayout(ps[0].layout) && Spells(ps[0].text, ps[0].tok)
      && (NeedsEnd(ps[0].text) ==> NotWord(Render(ps[1..], trailer)))
      && WellWritten(ps[1..], trailer)
  }

  /** Whatever the layout, a written token sequence is read back as it was. */
  lemma {:induction false} RenderRoundTrip(ps: seq<Piece>, trailer: string)
    requires WellWritten(ps, trailer)
    ensures Tokens(Render(ps, trailer)) == ToksOf(ps)
  {
    if ps == [] {
      OnlyLayout(trailer);
    } else {
      var r := Render(ps[1..], trailer);
      RenderRoundTrip(ps[1..], trailer);
      TokensByCalls(ps[0].text + r);
      LexSpelled(ps[0].text, ps[0].tok, r);
      LeadingLayout(ps[0].layout, ps[0].text + r);
      assert Render(ps, trailer) == ps[0].layout + (ps[0].text + r);
    }
  }
}
