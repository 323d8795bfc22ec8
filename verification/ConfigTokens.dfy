/**
 What one call of gettoken does with any text, character by character: how far each kind of token goes,
 which token it is, and in which cases it is an error.
*/
module ConfigTokens {
  import opened ConfigLexer

  lemma Front(a: string, l: string, c: string, t: string)
    ensures a + (l + c + t) == a + l + c + t
  {
  }

  /** `l` is layout, `c` nothing or an unfinished comment; behind them a token starts, or nothing is left. */
  ghost predicate SplitAt(s: string, l: string, c: string, t: string) {
    && s == l + c + t && IsLayout(l)
    && (t != "" ==> c == "" && !Delimiter(t[0]))
    && (c != "" ==> c[0] == '#' && '\n' !in c)
  }

  lemma SplitLater(s: string, a: string, r: string, l: string, c: string, t: string)
    requires s == a + r && SplitAt(r, l, c, t) && IsLayout(a + l)
    ensures SplitAt(s, a + l, c, t)
  {
    Front(a, l, c, t);
  }

  /** What a call skips before the token is exactly the layout there. */
  lemma {:induction false} LayoutExactly(s: string) returns (l: string, c: string)
    ensures SplitAt(s, l, c, SkipLayout(s))
    decreases |s|
  {
    if s == "" {
      l, c := "", "";
    } else if IsSpace(s[0]) || s[0] == ';' {
      l, c := LayoutExactly(s[1..]);
      assert ([s[0]] + l)[1..] == l;
      SplitLater(s, [s[0]], s[1..], l, c, SkipLayout(s));
      l := [s[0]] + l;
    } else if s[0] != '#' {
      l, c := "", "";
      assert s == "" + "" + s;
    } else if '\n' in s {
      l, c := LayoutExactly(AfterLine(s));
      var line := LineOf(s);
      LineIsLayout(line, l);
      SplitLater(s, line, AfterLine(s), l, c, SkipLayout(s));
      l := line + l;
    } else {
      l, c := "", s;
      NoLine(s);
      assert s == l + c + "";
    }
  }

  /** The text up to and including its first newline. */
  lemma {:induction false} LineOf(s: string) returns (line: string)
    requires '\n' in s
    ensures line != "" && line[0] == s[0] && s == line + AfterLine(s) && '\n' in line && AfterLine(line) == ""
  {
    if s[0] == '\n' {
      line := "\n";
      assert s == line + s[1..];
    } else {
      line := LineOf(s[1..]);
      var more := [s[0]] + line;
      assert more[1..] == line;
      line := more;
    }
  }

  lemma LineIsLayout(line: string, l: string)
    requires line != "" && line[0] == '#' && '\n' in line && AfterLine(line) == "" && IsLayout(l)
    ensures IsLayout(line + l)
  {
    AfterLineAppend(line, l);
    assert (line + l)[0] == '#' && '\n' in line + l;
    assert "" + l == l;
  }

  lemma {:induction false} NoLine(s: string)
    requires '\n' !in s
    ensures AfterLine(s) == ""
  {
    if s == "" {
    } else {
      NoLine(s[1..]);
    }
  }

  // ----- Words and numbers -----

  lemma {:induction false} WordSpanIs(s: string)
    ensures forall i :: 0 <= i < WordSpan(s) ==> IsWord(s[i])
    ensures WordSpan(s) == |s| || !IsWord(s[WordSpan(s)])
  {
    if s == "" || !IsWord(s[0]) {
    } else {
      WordSpanIs(s[1..]);
      assert forall i :: 1 <= i < WordSpan(s) ==> s[i] == s[1..][i - 1];
    }
  }

  lemma {:induction false} DigitSpanIs(s: string)
    ensures forall i :: 0 <= i < DigitSpan(s) ==> IsDigit(s[i])
    ensures DigitSpan(s) == |s| || !IsDigit(s[DigitSpan(s)])
  {
    if s == "" || !IsDigit(s[0]) {
    } else {
      DigitSpanIs(s[1..]);
      assert forall i :: 1 <= i < DigitSpan(s) ==> s[i] == s[1..][i - 1];
    }
  }

  /** A keyword is exactly one of the seven names, any other word is text. */
  lemma KeywordExactly(w: string, k: Keyword)
    ensures WordToken(w) == Key(k) <==> w == KeyName(k)
    ensures (forall j :: w != KeyName(j)) ==> WordToken(w) == Str(w)
  {
    assert |KeyName(Region)| == 6 && |KeyName(Sync)| == 4 && |KeyName(Fname)| == 5 && |KeyName(Pattern)| == 7;
    assert |KeyName(Date)| == 4 && |KeyName(Type)| == 4 && |KeyName(Threshold)| == 9;
    assert KeyName(Sync)[0] == 's' && KeyName(Date)[0] == 'd' && KeyName(Type)[0] == 't';
  }

  /** A word goes on as far as it can, but not beyond STR_LEN characters, and that many are an error. */
  lemma WordExactly(t: string) returns (n: nat)
    requires t != "" && IsAlpha(t[0])
    ensures 0 < n <= |t| && n <= STR_LEN && forall i :: 0 <= i < n ==> IsWord(t[i])
    ensures n < STR_LEN ==> n == |t| || !IsWord(t[n])
    ensures LexAt(t) == Lexed(if n < STR_LEN then WordToken(t[..n]) else ErrLen, t[n..])
  {
    WordSpanIs(t);
    n := if WordSpan(t) < STR_LEN then WordSpan(t) else STR_LEN;
  }

  /** So does a number, but there the character behind the last one that fits is lost. */
  lemma NumberExactly(t: string, tok: Token) returns (n: nat)
    requires t != ""
    ensures 0 < n <= |t| && n <= STR_LEN && forall i :: 1 <= i < n ==> IsDigit(t[i])
    ensures n < STR_LEN ==> (n == |t| || !IsDigit(t[n])) && LexNumber(t, tok) == Lexed(tok, t[n..])
    ensures
      n == STR_LEN ==> LexNumber(t, tok) == Lexed(ErrLen, if n < |t| then t[n + 1..] else "")
  {
    DigitSpanIs(t[1..]);
    n := if 1 + DigitSpan(t[1..]) < STR_LEN then 1 + DigitSpan(t[1..]) else STR_LEN;
    assert forall i :: 1 <= i < n ==> t[i] == t[1..][i - 1];
  }

  /** A number starts with a digit; behind a dollar sign it may start with anything, or be missing. */
  lemma NumberStarts(t: string)
    requires t != ""
    ensures IsDigit(t[0]) ==> LexAt(t) == LexNumber(t, Int)
    ensures t[0] == '$' && |t| > 1 ==> LexAt(t) == LexNumber(t[1..], Pos)
    ensures t == "$" ==> LexAt(t) == Lexed(Pos, "")
  {
  }

  // ----- Quoted texts -----

  /** A character that a quoted text may contain. */
  predicate Inner(c: char) {
    IsPrint(c) && c != '"'
  }

  /** One character of a quoted text as it is written: with a backslash in front of it or, if it is none, without. */
  predicate Unit(u: string) {
    (|u| == 1 && u[0] != '\\') || (|u| == 2 && u[0] == '\\')
  }

  function CharOf(u: string): char
    requires Unit(u)
  {
    u[|u| - 1]
  }

  ghost predicate InnerUnits(us: seq<string>) {
    forall i :: 0 <= i < |us| ==> Unit(us[i]) && Inner(CharOf(us[i]))
  }

  function Written(us: seq<string>): string {
    if us == [] then "" else us[0] + Written(us[1..])
  }

  function TextOf(us: seq<string>): string
    requires InnerUnits(us)
  {
    if us == [] then "" else [CharOf(us[0])] + TextOf(us[1..])
  }

  /** What a quoted text ends with: any unit that is not of its inside, or the end of the file. */
  predicate Closes(last: string, rest: string) {
    (Unit(last) && !Inner(CharOf(last))) || (rest == "" && (last == "" || last == "\\"))
  }

  lemma {:induction false} QuotedExactly(s: string, i: nat) returns (us: seq<string>, last: string)
    requires i < STR_LEN
    ensures
      var q := LexQuoted(s, i);
      && InnerUnits(us) && s == Written(us) + last + q.rest && q.text == TextOf(us)
      && q.count == i + |us| + 1 <= STR_LEN
      && (q.count < STR_LEN ==> Closes(last, q.rest))
      && (Unit(last) || Closes(last, q.rest))
    decreases |s|
  {
    if s == "" || s == "\\" {
      us, last := [], s;
      assert s == "" + s + "";
    } else {
      var k := if s[0] == '\\' then 2 else 1;
      var u := s[..k];
      assert Unit(u) && s == u + s[k..];
      if i + 1 < STR_LEN && Inner(CharOf(u)) {
        us, last := QuotedExactly(s[k..], i + 1);
        var q := LexQuoted(s[k..], i + 1);
        OneUnit(u, us);
        Front(u, Written(us), last, q.rest);
        us := [u] + us;
      } else {
        us, last := [], u;
        assert s == "" + u + s[k..];
      }
    }
  }

  lemma OneUnit(u: string, us: seq<string>)
    requires Unit(u) && Inner(CharOf(u)) && InnerUnits(us)
    ensures InnerUnits([u] + us) && Written([u] + us) == u + Written(us)
    ensures TextOf([u] + us) == [CharOf(u)] + TextOf(us)
  {
    assert ([u] + us)[1..] == us;
  }

  /**
   A quoted text consists of printable characters other than the quote, a backslash taken off each that
   has one.  It ends with the first other character, even if that has a backslash or is no quote, or with
   the file; if STR_LEN - 1 characters came before, it is an error instead, whatever comes next.
  */
  lemma StringExactly(t: string) returns (us: seq<string>, last: string)
    requires t != "" && t[0] == '"'
    ensures InnerUnits(us) && |us| < STR_LEN
    ensures
      var r := LexAt(t);
      && t == "\"" + Written(us) + last + r.rest
      && r.tok == (if |us| == STR_LEN - 1 then ErrLen else Str(TextOf(us)))
      && (|us| < STR_LEN - 1 ==> Closes(last, r.rest))
      && (Unit(last) || Closes(last, r.rest))
  {
    us, last := QuotedExactly(t[1..], 0);
    assert t == "\"" + t[1..];
    var rest := LexAt(t).rest;
    Front("\"", Written(us), last, rest);
  }

  // ----- Single characters -----

  /** Braces and equal signs are tokens, any other character is an error of its own. */
  lemma SymbolExactly(t: string)
    requires t != "" && !IsWord(t[0]) && t[0] != '$' && t[0] != '"'
    ensures LexAt(t).rest == t[1..]
    ensures LexAt(t).tok.Bgn? <==> t[0] == '{'
    ensures LexAt(t).tok.End? <==> t[0] == '}'
    ensures LexAt(t).tok.Equ? <==> t[0] == '='
    ensures LexAt(t).tok.ErrChr? <==> t[0] != '{' && t[0] != '}' && t[0] != '='
  {
  }
}
