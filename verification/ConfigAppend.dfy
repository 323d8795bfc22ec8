/**
 Layout at the end of a file.  Appending it changes no token, whatever it is, if and only if the last
 token of the file is not open, that is, would not take up a semicolon behind the file.
*/
module ConfigAppend {
  import opened ConfigLexer

  /** The last token would take up a semicolon behind the text. */
  predicate Open(a: string)
    decreases |a|
  {
    var t := SkipLayout(a);
    t != "" && (LexAt(t + ";").rest == "" || Open(LexAt(t).rest))
  }

  /** A comment that takes up its first character as part of the token before it becomes a name. */
  const COMMENT: string := "#c\n"

  // ----- Texts without a token -----

  lemma {:induction false} LayoutBehindLine(c: string, l: string)
    requires IsLayout(l) && '\n' !in c
    ensures IsLayout(AfterLine(c + l))
    decreases |c|, |l|
  {
    if c == "" {
      assert c + l == l;
      if l == "" {
      } else if l[0] == '\n' {
      } else if IsSpace(l[0]) || l[0] == ';' {
        LayoutBehindLine(c, l[1..]);
        assert c + l[1..] == l[1..];
      } else if l[0] == '#' {
        assert AfterLine(l) == AfterLine(l[1..]);
      }
    } else {
      assert (c + l)[1..] == c[1..] + l && (c + l)[0] == c[0];
      LayoutBehindLine(c[1..], l);
    }
  }

  lemma LayoutHasNoToken(l: string)
    requires IsLayout(l)
    ensures SkipLayout(l) == ""
  {
    SkipLayoutAppend(l, "");
    assert l + "" == l;
  }

  /** A text without tokens, even one that ends inside a comment, absorbs layout. */
  lemma {:induction false} AbsorbsLayout(a: string, l: string)
    requires SkipLayout(a) == "" && IsLayout(l)
    ensures SkipLayout(a + l) == ""
    decreases |a|
  {
    if a == "" {
      assert a + l == l;
      LayoutHasNoToken(l);
    } else {
      assert (a + l)[1..] == a[1..] + l && (a + l)[0] == a[0];
      if IsSpace(a[0]) || a[0] == ';' {
        AbsorbsLayout(a[1..], l);
      } else if '\n' in a {
        AfterLineAppend(a, l);
        AbsorbsLayout(AfterLine(a), l);
      } else {
        LayoutBehindLine(a, l);
        LayoutHasNoToken(AfterLine(a + l));
      }
    }
  }

  /** If a token starts in `a`, it starts there whatever follows. */
  lemma {:induction false} SkipKept(a: string, x: string)
    requires SkipLayout(a) != ""
    ensures SkipLayout(a + x) == SkipLayout(a) + x
    decreases |a|
  {
    assert (a + x)[1..] == a[1..] + x && (a + x)[0] == a[0] && a + "" == a;
    if IsSpace(a[0]) || a[0] == ';' {
      SkipKept(a[1..], x);
    } else if a[0] == '#' {
      if '\n' in a {
        AfterLineAppend(a, x);
        SkipKept(AfterLine(a), x);
      } else {
        AfterLineBeyond(a, "");
        assert false;
      }
    }
  }

  // ----- A token that is not open -----

  lemma StartsWithDelimiter(l: string)
    requires IsLayout(l)
    ensures l == "" || Delimiter(l[0])
  {
  }

  /** Such a token ends inside the text. */
  lemma ClosedEnd(t: string) returns (d: string, e: string)
    requires t != "" && LexAt(t + ";").rest != ""
    ensures d != "" && t == d + e && LexAt(d + (e + ";")).rest == e + ";"
  {
    var y := LexAt(t + ";").rest;
    LexAtSuffix(t + ";");
    var n := |t| + 1 - |y|;
    d, e := t[..n], t[n..];
    assert y == (t + ";")[n..] == e + ";" && t + ";" == d + (e + ";");
  }

  lemma SameToken(d: string, y: string, x: string, tok: Token, t: string)
    requires d != "" && LexAt(d + y) == Lexed(tok, y) && EndsLike(x, y) && t == d + x
    ensures t != "" && LexAt(t) == Lexed(tok, x)
  {
    LexAtLocal(d, y, x);
  }

  lemma EndsLikeEnd(e: string, l: string)
    requires IsLayout(l)
    ensures EndsLike(e, e + ";") && EndsLike(e + l, e + ";")
  {
    StartsWithDelimiter(l);
    if e == "" {
      assert e + l == l && e + ";" == ";";
    } else {
      assert (e + l)[0] == e[0] == (e + ";")[0];
    }
  }

  /** A token that does not take up a semicolon is followed by the same text whatever is appended. */
  lemma ClosedToken(t: string, l: string) returns (e: string, tok: Token)
    requires t != "" && LexAt(t + ";").rest != "" && IsLayout(l)
    ensures |e| < |t| && LexAt(t) == Lexed(tok, e) && LexAt(t + l) == Lexed(tok, e + l)
  {
    var d;
    d, e := ClosedEnd(t);
    tok := LexAt(d + (e + ";")).tok;
    EndsLikeEnd(e, l);
    assert d + (e + l) == t + l;
    SameToken(d, e + ";", e, tok, t);
    SameToken(d, e + ";", e + l, tok, t + l);
  }

  lemma TokensFrom(a: string)
    requires SkipLayout(a) != ""
    ensures Tokens(a) == [LexAt(SkipLayout(a)).tok] + Tokens(LexAt(SkipLayout(a)).rest)
  {
    TokensByCalls(a);
  }

  // ----- A token that is open -----

  /** A quoted text without its end takes up the comment, or as much of it as there is room for. */
  ghost predicate TakesUp(q: Quoted, r: Quoted) {
    && q.rest == ""
    && (r.rest == "c\n"
        || (r.rest in ["", "\n"] && q.count < STR_LEN && (r.count < STR_LEN ==> r.text == q.text + "#c")))
  }

  lemma OpenEnd(i: nat, s: string, l: string)
    requires i < STR_LEN && (s == "" || s == "\\") && l == COMMENT
    ensures TakesUp(LexQuoted(s, i), LexQuoted(s + l, i))
  {
    var b, c := l[1..], l[1..][1..];
    assert b == "c\n" && c == "\n" && c[1..] == "";
    assert s == "" ==> s + l == l;
    assert s == "\\" ==> (s + l)[2..] == b && (s + l)[1] == '#';
    var after2 := LexQuoted(c, i + 2);
    assert after2 == Quoted("", "", i + 3);
    assert LexQuoted(b, i + 1)
        == if i + 2 < STR_LEN then Quoted(['c'] + after2.text, "", i + 3) else Quoted("", c, i + 2);
    assert ['#'] + (['c'] + after2.text) == "" + "#c";
  }

  lemma {:induction false} OpenQuote(s: string, l: string, i: nat)
    requires i < STR_LEN && LexQuoted(s + ";", i).rest == "" && l == COMMENT
    ensures TakesUp(LexQuoted(s, i), LexQuoted(s + l, i))
    decreases |s|
  {
    if s == "" || s == "\\" {
      OpenEnd(i, s, l);
    } else {
      var k := if s[0] == '\\' then 2 else 1;
      assert (s + ";")[0] == (s + l)[0] == s[0] && (s + ";")[k - 1] == (s + l)[k - 1] == s[k - 1];
      assert (s + ";")[k..] == s[k..] + ";" && (s + l)[k..] == s[k..] + l;
      if GoesOn(s[k - 1], i) {
        OpenQuote(s[k..], l, i + 1);
        var q := LexQuoted(s[k..], i + 1);
        assert [s[k - 1]] + (q.text + "#c") == [s[k - 1]] + q.text + "#c";
      } else {
        assert false;
      }
    }
  }

  /** A number is open if it has exactly as many characters as the buffer. */
  lemma OpenNumber(t: string, l: string, tok: Token)
    requires t != "" && LexNumber(t + ";", tok).rest == "" && l == COMMENT
    ensures LexNumber(t, tok).rest == "" && LexNumber(t + l, tok).rest == "c\n"
  {
    var d := t[1..];
    assert (t + ";")[1..] == d + ";" && (t + l)[1..] == d + l;
    DigitSpanOfOpen(d, ";");
    DigitSpanOfOpen(d, l);
    assert |t| == STR_LEN;
    assert (t + l)[STR_LEN + 1..] == "c\n";
  }

  /** What follows does not add to a run of digits unless it is one. */
  lemma {:induction false} DigitSpanOfOpen(d: string, x: string)
    requires x != "" && !IsDigit(x[0])
    ensures DigitSpan(d + x) == DigitSpan(d)
  {
    if d == "" {
      assert d + x == x;
    } else {
      assert (d + x)[1..] == d[1..] + x;
      DigitSpanOfOpen(d[1..], x);
    }
  }

  lemma {:induction false} WordSpanOfOpen(d: string, x: string)
    requires x != "" && !IsWord(x[0])
    ensures WordSpan(d + x) == WordSpan(d)
  {
    if d == "" {
      assert d + x == x;
    } else {
      assert (d + x)[1..] == d[1..] + x;
      WordSpanOfOpen(d[1..], x);
    }
  }

  /** The comment changes the last token, or leaves a new one behind it. */
  ghost predicate Changed(t: string, l: string)
    requires t != ""
  {
    && LexAt(t).rest == ""
    && (LexAt(t + l).rest == "c\n" || (LexAt(t + l).rest in ["", "\n"] && LexAt(t + l).tok != LexAt(t).tok))
  }

  lemma DollarAlone(l: string, r: string)
    requires l == COMMENT && r == l[1..]
    ensures r == "c\n" && LexNumber(l, Pos).rest == r
  {
    assert DigitSpan(r) == 0;
  }

  lemma OpenDollar(t: string, l: string)
    requires t != "" && t[0] == '$' && LexAt(t + ";").rest == "" && l == COMMENT
    ensures Changed(t, l)
  {
    assert (t + ";")[1..] == t[1..] + ";" && (t + l)[1..] == t[1..] + l;
    if t[1..] == "" {
      assert t[1..] + l == l;
      DollarAlone(l, l[1..]);
    } else {
      OpenNumber(t[1..], l, Pos);
    }
  }

  lemma OpenString(t: string, l: string)
    requires t != "" && t[0] == '"' && LexAt(t + ";").rest == "" && l == COMMENT
    ensures Changed(t, l)
  {
    assert (t + ";")[1..] == t[1..] + ";" && (t + l)[1..] == t[1..] + l;
    OpenQuote(t[1..], l, 0);
    var q := LexQuoted(t[1..], 0);
    assert |q.text + "#c"| != |q.text|;
  }

  lemma OpenToken(t: string, l: string)
    requires t != "" && LexAt(t + ";").rest == "" && l == COMMENT
    ensures Changed(t, l)
  {
    assert (t + ";")[0] == t[0] == (t + l)[0];
    if IsAlpha(t[0]) {
      WordSpanOfOpen(t, ";");
      assert false;
    } else if IsDigit(t[0]) {
      OpenNumber(t, l, Int);
    } else if t[0] == '$' {
      OpenDollar(t, l);
    } else if t[0] == '"' {
      OpenString(t, l);
    } else {
      assert false;
    }
  }

  lemma CommentIsLayout(l: string)
    requires l == COMMENT
    ensures IsLayout(l)
  {
    assert '\n' in l && AfterLine(l) == "" by {
      assert l[2] == '\n' && l[1..][1..][1..] == "";
    }
  }

  lemma NameLeft(r: string)
    requires r == "c\n"
    ensures Tokens(r) == [Str("c")]
  {
    TokensByCalls(r);
    assert r[1..] == "\n" && WordSpan(r) == 1 && r[..1] == "c";
    NewlineLeft(r[1..]);
  }

  lemma NewlineLeft(r: string)
    requires r in ["", "\n"]
    ensures Tokens(r) == []
  {
    assert r == "\n" ==> r[1..] == "";
    OnlyLayout(r);
  }

  // ----- Whole files -----

  /** Layout behind a file whose last token is not open changes no token. */
  lemma {:induction false} ClosedAbsorbs(a: string, l: string)
    requires !Open(a) && IsLayout(l)
    ensures Tokens(a + l) == Tokens(a)
    decreases |a|
  {
    var t := SkipLayout(a);
    if t == "" {
      AbsorbsLayout(a, l);
      TokensByCalls(a);
      TokensByCalls(a + l);
    } else {
      SkipKept(a, l);
      var e, tok := ClosedToken(t, l);
      TokensFrom(a);
      TokensFrom(a + l);
      ClosedAbsorbs(e, l);
    }
  }

  lemma SameHead(x: Token, u: seq<Token>, v: seq<Token>)
    ensures [x] + u == [x] + v ==> u == v
  {
    assert ([x] + u)[1..] == u && ([x] + v)[1..] == v;
  }

  lemma OpenTail(t: string, l: string)
    requires t != "" && LexAt(t + ";").rest == "" && l == COMMENT
    ensures [LexAt(t + l).tok] + Tokens(LexAt(t + l).rest) != [LexAt(t).tok] + Tokens(LexAt(t).rest)
  {
    OpenToken(t, l);
    var u, v := LexAt(t + l), LexAt(t);
    NewlineLeft(v.rest);
    if u.rest == "c\n" {
      NameLeft(u.rest);
      assert |[u.tok] + Tokens(u.rest)| == 2;
    } else {
      NewlineLeft(u.rest);
      assert ([u.tok] + Tokens(u.rest))[0] != ([v.tok] + Tokens(v.rest))[0];
    }
  }

  /** A comment behind a file whose last token is open changes the tokens. */
  lemma {:induction false} OpenChanges(a: string, l: string)
    requires Open(a) && l == COMMENT
    ensures Tokens(a + l) != Tokens(a)
    decreases |a|
  {
    var t := SkipLayout(a);
    CommentIsLayout(l);
    SkipKept(a, l);
    TokensFrom(a);
    TokensFrom(a + l);
    if LexAt(t + ";").rest == "" {
      OpenTail(t, l);
    } else {
      var e, tok := ClosedToken(t, l);
      OpenChanges(e, l);
      SameHead(tok, Tokens(e + l), Tokens(e));
    }
  }

  /**
   Appending layout to a file never changes its tokens if and only if its last token is not open: no
   final dollar sign, no quoted text without its end, no number that just fills the buffer.
  */
  lemma AppendExactly(a: string)
    ensures (forall l :: IsLayout(l) ==> Tokens(a + l) == Tokens(a)) <==> !Open(a)
  {
    if Open(a) {
      OpenChanges(a, COMMENT);
      CommentIsLayout(COMMENT);
    } else {
      forall l | IsLayout(l)
        ensures Tokens(a + l) == Tokens(a)
      {
        ClosedAbsorbs(a, l);
      }
    }
  }

  /** A dollar sign at the end of a file takes up the next character, whatever it is. */
  lemma AppendedComment(a: string, l: string)
    requires a == "$" && l == "#c\n"
    ensures IsLayout(l) && Tokens(a) == [Pos] && Tokens(a + l) == [Pos, Str("c")]
  {
    assert '\n' in l && AfterLine(l) == "" by {
      assert l[2] == '\n' && l[1..][1..][1..] == "";
    }
    OnlyLayout("");
    TokensByCalls(a);
    assert a[1..] == "";
    TokensByCalls(a + l);
    assert (a + l)[1..] == l && l[1..] == "c\n";
    TokensByCalls("c\n");
    assert WordSpan("c\n") == 1 && "c\n"[..1] == "c" && "c\n"[1..] == "\n";
    OnlyLayout("\n");
  }
}
