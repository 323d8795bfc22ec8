/** The configuration reader as it works on a character stream, proved to compute the parser's table. */
module ConfigReader {
  import opened ConfigLexer
  import opened ConfigParser
  import G = ConfigGrammar
  import opened Wrappers

  /** The order of the keyword table; a keyword's token number is its place here. */
  const KEYS: seq<Keyword> := [Region, Sync, Fname, Pattern, Date, Type, Threshold]

  /** What the char variable holds after EOF has been stored in it. */
  const EOF_CHAR: char := '\U{FF}'

  lemma TokensNext(s: string)
    ensures Next(Tokens(s)) == Lex(s).tok && Rest(Tokens(s)) == Tokens(Lex(s).rest)
  {
    TokensByCalls(s);
  }

  lemma {:induction false} WordSpanExact(t: string, i: nat)
    requires i <= |t| && forall k :: 0 <= k < i ==> IsWord(t[k])
    ensures WordSpan(t) >= i && (i == |t| || !IsWord(t[i]) ==> WordSpan(t) == i)
  {
    if i == 0 {
    } else {
      WordSpanExact(t[1..], i - 1);
    }
  }

  /** A word that has been read up to its end, or up to the limit. */
  lemma WordEnds(t: string, i: nat)
    requires 0 < i <= |t| && i <= STR_LEN && forall k :: 0 <= k < i ==> IsWord(t[k])
    requires i == STR_LEN || i == |t| || !IsWord(t[i])
    ensures LexWord(t) == if i == STR_LEN then Lexed(ErrLen, t[i..]) else Lexed(WordToken(t[..i]), t[i..])
  {
    WordSpanExact(t, i);
  }

  lemma {:induction false} DigitSpanExact(t: string, i: nat)
    requires i <= |t| && forall k :: 0 <= k < i ==> IsDigit(t[k])
    ensures DigitSpan(t) >= i && (i == |t| || !IsDigit(t[i]) ==> DigitSpan(t) == i)
  {
    if i == 0 {
    } else {
      DigitSpanExact(t[1..], i - 1);
    }
  }

  lemma KeywordOrText(w: string)
    ensures (forall k :: 0 <= k < |KEYS| ==> w != KeyName(KEYS[k])) ==> WordToken(w) == Str(w)
    ensures forall k :: 0 <= k < |KEYS| && w == KeyName(KEYS[k]) ==> WordToken(w) == Key(KEYS[k])
  {
    assert KEYS[0] == Region && KEYS[1] == Sync && KEYS[2] == Fname && KEYS[3] == Pattern;
    assert KEYS[4] == Date && KEYS[5] == Type && KEYS[6] == Threshold;
  }

  /** A quoted text behind characters that have been read already. */
  function Behind(read: string, q: Quoted): Quoted {
    Quoted(read + q.text, q.rest, q.count)
  }

  lemma QuotedStep(read: string, s: string, i: nat)
    ensures
      if s == "" || s == "\\" then Behind(read, LexQuoted(s, i)) == Quoted(read, "", i + 1)
      else
        var c, r := if s[0] == '\\' then s[1] else s[0], if s[0] == '\\' then s[2..] else s[1..];
        Behind(read, LexQuoted(s, i))
        == if i + 1 < STR_LEN && IsPrint(c) && c != '"' then Behind(read + [c], LexQuoted(r, i + 1))
           else Quoted(read, r, i + 1)
  {
    if s == "" || s == "\\" {
      assert read + "" == read;
    } else {
      var c, r := if s[0] == '\\' then s[1] else s[0], if s[0] == '\\' then s[2..] else s[1..];
      assert read + [c] + LexQuoted(r, i + 1).text == read + ([c] + LexQuoted(r, i + 1).text);
      assert read + "" == read;
    }
  }

  /** An open file: its text and the position of the next character. */
  class Stream {
    const text: string
    var pos: nat

    ghost predicate Valid()
      reads this
    {
      pos <= |text|
    }

    ghost function Left(): string
      requires Valid()
      reads this
    {
      text[pos..]
    }

    constructor (text: string)
      ensures Valid() && Left() == text
    {
      this.text := text;
      pos := 0;
    }

    /** The character was just read from place `j`, or the end is there. */
    ghost predicate ReadAt(j: nat, c: Option<char>)
      reads this
    {
      if c.None? then j == pos == |text| else j < |text| && c.value == text[j] && pos == j + 1
    }

    /** getc: the next character, or nothing at the end. */
    method GetC() returns (c: Option<char>)
      requires Valid()
      modifies this
      ensures Valid() && ReadAt(old(pos), c)
    {
      if pos == |text| {
        c := None;
      } else {
        c := Some(text[pos]);
        pos := pos + 1;
      }
    }

    /** ungetc: the character is read again; nothing happens at the end. */
    method UngetC(c: Option<char>, ghost j: nat)
      requires Valid() && ReadAt(j, c)
      modifies this
      ensures Valid() && pos == j
    {
      if c.Some? {
        pos := pos - 1;
      }
    }

    /** The rest of a comment whose mark has been read at place `h`. */
    method SkipComment(ghost h: nat)
      requires Valid() && h < |text| && text[h] == '#' && pos == h + 1
      modifies this
      ensures Valid() && pos > h && Left() == AfterLine(text[h..])
    {
      ghost var j := pos;
      assert AfterLine(text[h..]) == AfterLine(text[h..][1..]) && text[h..][1..] == text[j..];
      var c := GetC();
      while c.Some? && c.value != '\n'
        invariant Valid() && h < j <= |text| && ReadAt(j, c) && AfterLine(text[h..]) == AfterLine(text[j..])
        decreases |text| - j
      {
        assert AfterLine(text[j..]) == AfterLine(text[j..][1..]) && text[j..][1..] == text[j + 1..];
        j := pos;
        c := GetC();
      }
      assert c.Some? ==> text[j..][1..] == text[j + 1..];
    }

    /** The blanks from the present place on; the character behind them has been read. */
    method SkipSpaces() returns (c: Option<char>, ghost j: nat)
      requires Valid()
      modifies this
      ensures Valid() && old(pos) <= j <= |text| && ReadAt(j, c) && (c.Some? ==> !IsSpace(c.value))
      ensures SkipLayout(old(Left())) == SkipLayout(text[j..])
    {
      j := pos;
      c := GetC();
      while c.Some? && IsSpace(c.value)
        invariant Valid() && old(pos) <= j <= |text| && ReadAt(j, c)
        invariant SkipLayout(old(Left())) == SkipLayout(text[j..])
        decreases |text| - j
      {
        assert SkipLayout(text[j..]) == SkipLayout(text[j..][1..]) && text[j..][1..] == text[j + 1..];
        j := pos;
        c := GetC();
      }
    }

    /** skipblank: the first character that is no blank and in no comment, read from place `j`. */
    method SkipBlank() returns (c: Option<char>, ghost j: nat)
      requires Valid()
      modifies this
      ensures Valid() && old(pos) <= j <= |text| && ReadAt(j, c)
      ensures c.Some? ==> !IsSpace(c.value) && c.value != '#'
      ensures SkipLayout(old(Left())) == SkipLayout(text[j..])
    {
      c, j := SkipSpaces();
      while c == Some('#')
        invariant Valid() && old(pos) <= j <= |text| && ReadAt(j, c) && (c.Some? ==> !IsSpace(c.value))
        invariant SkipLayout(old(Left())) == SkipLayout(text[j..])
        decreases |text| - j
      {
        SkipComment(j);
        c, j := SkipSpaces();
      }
    }

    /** Collects word characters after the first one, which has been read from place `j`. */
    method ReadWord(buf: array<char>, first: char, ghost j: nat) returns (i: nat)
      requires Valid() && ReadAt(j, Some(first)) && IsAlpha(first) && buf.Length == STR_LEN
      modifies this, buf
      ensures Valid() && 0 < i <= STR_LEN && j + i <= |text| && pos == j + i
      ensures buf[..i] == text[j..][..i] && forall k :: 0 <= k < i ==> IsWord(text[j..][k])
      ensures i == STR_LEN || j + i == |text| || !IsWord(text[j..][i])
    {
      buf[0] := first;
      ghost var t := text[j..];
      assert buf[..1] == t[..1];
      var c := GetC();
      i := 1;
      while i < STR_LEN && c.Some? && IsWord(c.value)
        invariant Valid() && 1 <= i <= STR_LEN && j + i <= |text| && ReadAt(j + i, c)
        invariant buf[..i] == t[..i] && forall k :: 0 <= k < i ==> IsWord(t[k])
        decreases STR_LEN - i
      {
        buf[i] := c.value;
        assert t[..i + 1] == t[..i] + [c.value];
        i := i + 1;
        c := GetC();
      }
      UngetC(c, j + i);
    }

    /** A name or keyword whose first character has been read from place `j`. */
    method GetWord(first: char, ghost j: nat) returns (tok: Token)
      requires Valid() && ReadAt(j, Some(first)) && IsAlpha(first)
      modifies this
      ensures Valid() && tok == LexWord(text[j..]).tok && Left() == LexWord(text[j..]).rest
    {
      var buf := new char[STR_LEN];
      var i := ReadWord(buf, first, j);
      WordEnds(text[j..], i);
      assert text[j..][i..] == text[j + i..];
      if i == STR_LEN {
        return ErrLen;
      }
      tok := FindKey(buf[..i]);
    }

    /** The place of a word in the keyword table, or the word itself. */
    method FindKey(w: string) returns (tok: Token)
      ensures tok == WordToken(w)
    {
      KeywordOrText(w);
      var i := 0;
      while i < |KEYS|
        invariant i <= |KEYS| && forall k :: 0 <= k < i ==> w != KeyName(KEYS[k])
      {
        if w == KeyName(KEYS[i]) {
          return Key(KEYS[i]);
        }
        i := i + 1;
      }
      tok := Str(w);
    }

    /** numhandling: a number whose first character, a digit or what follows a dollar, is at place `j`. */
    method GetNumber(first: Option<char>, ghost j: nat, kind: Token) returns (tok: Token)
      requires Valid() && ReadAt(j, first)
      modifies this
      ensures Valid() && tok == LexNumber(text[j..], kind).tok && Left() == LexNumber(text[j..], kind).rest
    {
      var c := GetC();
      if first.None? {
        return kind;
      }
      ghost var t := text[j..][1..];
      var i := 1;
      while i < STR_LEN && c.Some? && IsDigit(c.value)
        invariant Valid() && 1 <= i <= STR_LEN && j + i <= |text| && ReadAt(j + i, c)
        invariant forall k :: 0 <= k < i - 1 ==> IsDigit(t[k])
        decreases STR_LEN - i
      {
        i := i + 1;
        c := GetC();
      }
      DigitSpanExact(t, i - 1);
      if i == STR_LEN {
        return ErrLen;
      }
      UngetC(c, j + i);
      assert text[j..][i..] == text[j + i..];
      tok := kind;
    }

    /** One character of a quoted text; a backslash is dropped and what follows it taken. */
    method QuotedChar() returns (c: Option<char>)
      requires Valid()
      modifies this
      ensures Valid()
      ensures
        var s := old(Left());
        if s == "" || s == "\\" then c == None && Left() == ""
        else if s[0] == '\\' then c == Some(s[1]) && Left() == s[2..]
        else c == Some(s[0]) && Left() == s[1..]
    {
      c := GetC();
      if c == Some('\\') {
        c := GetC();
      }
    }

    /** Collects a quoted text and the character that ends it. */
    method ReadString(buf: array<char>) returns (i: nat)
      requires Valid() && buf.Length == STR_LEN
      modifies this, buf
      ensures Valid() && 0 < i <= STR_LEN && LexQuoted(old(Left()), 0) == Quoted(buf[..i - 1], Left(), i)
    {
      i := 0;
      var more := true;
      ghost var q, read := LexQuoted(Left(), 0), "";
      while more
        invariant Valid() && i <= STR_LEN
        invariant more ==> i < STR_LEN && q == Behind(read, LexQuoted(Left(), i)) && read == buf[..i]
        invariant !more ==> i > 0 && q == Quoted(read, Left(), i) && read == buf[..i - 1]
        decreases more, STR_LEN - i
      {
        QuotedStep(read, Left(), i);
        var c := QuotedChar();
        buf[i] := if c.Some? then c.value else EOF_CHAR;
        assert buf[..i] == read;
        i := i + 1;
        more := i < STR_LEN && c.Some? && IsPrint(c.value) && c.value != '"';
        if more {
          read := read + [c.value];
        }
      }
    }

    /** A quoted text whose opening quote has been read. */
    method GetString() returns (tok: Token)
      requires Valid()
      modifies this
      ensures Valid() && tok == LexString(old(Left())).tok && Left() == LexString(old(Left())).rest
    {
      var buf := new char[STR_LEN];
      var i := ReadString(buf);
      tok := if i == STR_LEN then ErrLen else Str(buf[..i - 1]);
    }

    /** The token whose first character has been read from place `j`. */
    method GetTokenAt(c: Option<char>, ghost j: nat) returns (tok: Token)
      requires Valid() && ReadAt(j, c)
      modifies this
      ensures Valid()
      ensures
        if c.None? then tok == ErrChr && Left() == ""
        else tok == LexAt(text[j..]).tok && Left() == LexAt(text[j..]).rest
    {
      if c.None? {
        return ErrChr;
      }
      assert text[j..][1..] == text[j + 1..] && text[j..][0] == c.value;
      if IsAlpha(c.value) {
        tok := GetWord(c.value, j);
      } else if IsDigit(c.value) {
        tok := GetNumber(c, j, Int);
      } else if c.value == '$' {
        var d := GetC();
        tok := GetNumber(d, j + 1, Pos);
      } else if c.value == '"' {
        tok := GetString();
      } else if c.value == '{' {
        tok := Bgn;
      } else if c.value == '}' {
        tok := End;
      } else if c.value == '=' {
        tok := Equ;
      } else {
        tok := ErrChr;
      }
    }

    /** The next token; semicolons are skipped like blanks. */
    method LexToken() returns (tok: Token)
      requires Valid()
      modifies this
      ensures Valid() && tok == Lex(old(Left())).tok && Left() == Lex(old(Left())).rest
    {
      var c, j := SkipBlank();
      while c == Some(';')
        invariant Valid() && old(pos) <= j <= |text| && ReadAt(j, c)
        invariant c.Some? ==> !IsSpace(c.value) && c.value != '#'
        invariant SkipLayout(old(Left())) == SkipLayout(text[j..])
        decreases |text| - j
      {
        assert SkipLayout(text[j..]) == SkipLayout(text[j..][1..]) && text[j..][1..] == text[j + 1..];
        c, j := SkipBlank();
      }
      assert c.Some? ==> SkipLayout(text[j..]) == text[j..];
      tok := GetTokenAt(c, j);
    }

    /** gettoken: the next token; `str` is the caller's buffer before and `str'` after the call. */
    method GetToken(str: string) returns (tok: Token, str': string)
      requires Valid()
      modifies this
      ensures Valid() && tok == Next(old(Tokens(Left()))) && Tokens(Left()) == Rest(old(Tokens(Left())))
      ensures |Left()| <= old(|Left()|) && (tok.Positive() ==> |Left()| < old(|Left()|))
      ensures str' == Buf(str, tok)
    {
      TokensNext(Left());
      tok := LexToken();
      str' := if tok.Str? then tok.s else str;
    }
  }

  /** The global table. */
  class Config {
    const conf: array<Conf>
    const synctype: array<string>
    var confent: nat
    var syncent: nat

    ghost predicate Valid()
      reads this
    {
      conf.Length == MAX_CONF + 1 && synctype.Length == MAX_SYNCFILES && confent <= MAX_CONF && syncent <= MAX_SYNCFILES
    }

    constructor ()
      ensures Valid() && conf[..] == Init("").conf && confent == syncent == 0 && fresh(conf) && fresh(synctype)
    {
      conf := new Conf[MAX_CONF + 1](i => BLANK);
      synctype := new string[MAX_SYNCFILES];
      confent, syncent := 0, 0;
    }

    /** The parser's state for the counters and the text buffer of the reader. */
    ghost function Now(cent: nat, sent: nat, buf: string): (s: State)
      requires Valid() && cent <= MAX_CONF && sent <= MAX_SYNCFILES
      reads this, conf, synctype
      ensures ValidState(s)
    {
      State(conf[..], cent, synctype[..sent], buf)
    }

    /** Two calls of gettoken in a row. */
    method ReadPair(fp: Stream, buf: string) returns (t1: Token, t2: Token, buf': string)
      requires fp.Valid()
      modifies fp
      ensures fp.Valid() && |fp.Left()| <= old(|fp.Left()|)
      ensures Two(t1, t2, buf', Tokens(fp.Left())) == ReadTwo(old(Tokens(fp.Left())), buf)
    {
      t1, buf' := fp.GetToken(buf);
      t2, buf' := fp.GetToken(buf');
    }

    /** PARSE_KEYSTRING's copy into the field that the keyword names. */
    method SetSlot(cent: nat, k: Keyword, v: string)
      requires Valid() && cent < MAX_CONF && IsField(k)
      modifies conf
      ensures forall i :: 0 <= i < conf.Length && i != cent ==> conf[i] == old(conf[i])
      ensures conf[cent].area == old(conf[cent].area)
      ensures conf[cent].pattern == if k.Pattern? then v else old(conf[cent].pattern)
      ensures conf[cent].date == if k.Date? then v else old(conf[cent].date)
      ensures conf[cent].typ == if k.Type? then v else old(conf[cent].typ)
      ensures conf[cent].fnam == if k.Fname? then v else old(conf[cent].fnam)
      ensures conf[cent].thrh == if k.Threshold? then v else old(conf[cent].thrh)
    {
      match k
      case Pattern => conf[cent] := conf[cent].(pattern := v);
      case Date => conf[cent] := conf[cent].(date := v);
      case Type => conf[cent] := conf[cent].(typ := v);
      case Fname => conf[cent] := conf[cent].(fnam := v);
      case Threshold => conf[cent] := conf[cent].(thrh := v);
    }

    /** A text is copied into the current record. */
    method StoreSetting(cent: nat, k: Keyword, ghost sent: nat, v: string, ghost s: State)
      requires Valid() && cent < MAX_CONF && sent <= MAX_SYNCFILES && IsField(k)
      requires s.conf == conf[..] && s.cent == cent && s.sync == synctype[..sent]
      modifies conf
      ensures Now(cent, sent, v) == With(s, SetField(s.conf[cent], k, v), v)
    {
      SetSlot(cent, k, v);
      assert conf[cent] == SetField(s.conf[cent], k, v);
    }

    /** One setting of a region whose keyword has been read. */
    method ReadSetting(fp: Stream, k: Keyword, cent: nat, ghost sent: nat, buf: string, ghost s: State)
      returns (ok: bool, buf': string)
      requires Valid() && fp.Valid() && cent < MAX_CONF && sent <= MAX_SYNCFILES && IsField(k)
      requires s == Now(cent, sent, buf)
      modifies fp, conf
      ensures fp.Valid() && |fp.Left()| <= old(|fp.Left()|)
      ensures
        ParseRegion([Key(k)] + old(Tokens(fp.Left())), s)
        == if ok then ParseRegion(Tokens(fp.Left()), Now(cent, sent, buf')) else FormatError
    {
      ghost var ts := [Key(k)] + Tokens(fp.Left());
      assert ts[1..] == Tokens(fp.Left());
      var t1, t2;
      t1, t2, buf' := ReadPair(fp, buf);
      ok := t1.Equ? || t2.Str?;
      if ok {
        StoreSetting(cent, k, sent, buf', s);
      }
    }

    /** One setting of a region, or its end, or a token that ends it as well. */
    method RegionStep(fp: Stream, cent: nat, ghost sent: nat, buf: string, ghost s: State)
      returns (failed: bool, going: bool, cent': nat, buf': string)
      requires Valid() && fp.Valid() && cent < MAX_CONF && sent <= MAX_SYNCFILES && s == Now(cent, sent, buf)
      modifies fp, conf
      ensures fp.Valid() && cent' <= MAX_CONF && (going ==> cent' == cent && |fp.Left()| < old(|fp.Left()|))
      ensures |fp.Left()| <= old(|fp.Left()|)
      ensures failed ==> ParseRegion(old(Tokens(fp.Left())), s) == FormatError
      ensures
        !failed && going ==>
          ParseRegion(old(Tokens(fp.Left())), s) == ParseRegion(Tokens(fp.Left()), Now(cent', sent, buf'))
      ensures
        !failed && !going ==>
          ParseRegion(old(Tokens(fp.Left())), s) == ParseTop(Tokens(fp.Left()), Now(cent', sent, buf'))
    {
      var tok;
      tok, buf' := fp.GetToken(buf);
      failed, going, cent' := false, false, cent;
      assert tok.Positive() ==> old(Tokens(fp.Left())) == [tok] + Tokens(fp.Left());
      if tok.End? {
        cent' := cent + 1;
      } else if tok.Key? && IsField(tok.k) {
        var ok;
        ok, buf' := ReadSetting(fp, tok.k, cent, sent, buf', s);
        failed, going := !ok, true;
      } else if tok.Positive() {
        failed := true;
      }
    }

    /** The body of a region; reading it stops at its end, or at a token that is not understood. */
    method ReadRegion(fp: Stream, cent: nat, ghost sent: nat, buf: string)
      returns (failed: bool, cent': nat, buf': string)
      requires Valid() && fp.Valid() && cent < MAX_CONF && sent <= MAX_SYNCFILES
      modifies fp, conf
      ensures fp.Valid() && |fp.Left()| <= old(|fp.Left()|) && cent' <= MAX_CONF
      ensures
        old(ParseRegion(Tokens(fp.Left()), Now(cent, sent, buf)))
        == if failed then FormatError else ParseTop(Tokens(fp.Left()), Now(cent', sent, buf'))
    {
      ghost var goal := ParseRegion(Tokens(fp.Left()), Now(cent, sent, buf));
      buf', cent', failed := buf, cent, false;
      var going := true;
      while going && !failed
        invariant fp.Valid() && |fp.Left()| <= old(|fp.Left()|) && cent' <= MAX_CONF && (going ==> cent' == cent)
        invariant failed ==> goal == FormatError
        invariant !failed && going ==> goal == ParseRegion(Tokens(fp.Left()), Now(cent, sent, buf'))
        invariant !failed && !going ==> goal == ParseTop(Tokens(fp.Left()), Now(cent', sent, buf'))
        decreases going, |fp.Left()|
      {
        failed, going, cent', buf' := RegionStep(fp, cent, sent, buf', Now(cent, sent, buf'));
      }
    }

    /** One type of the sync section, or its end, or a token that ends it as well. */
    method SyncStep(fp: Stream, ghost cent: nat, sent: nat, buf: string, ghost s: State)
      returns (failed: Option<Outcome>, going: bool, sent': nat, buf': string)
      requires Valid() && fp.Valid() && cent <= MAX_CONF && sent <= MAX_SYNCFILES && s == Now(cent, sent, buf)
      modifies fp, synctype
      ensures fp.Valid() && sent' <= MAX_SYNCFILES && (going ==> |fp.Left()| < old(|fp.Left()|))
      ensures |fp.Left()| <= old(|fp.Left()|)
      ensures failed.Some? ==> ParseSync(old(Tokens(fp.Left())), s) == failed.value && !failed.value.Table?
      ensures
        failed.None? && going ==>
          ParseSync(old(Tokens(fp.Left())), s) == ParseSync(Tokens(fp.Left()), Now(cent, sent', buf'))
      ensures
        failed.None? && !going ==>
          ParseSync(old(Tokens(fp.Left())), s) == ParseTop(Tokens(fp.Left()), Now(cent, sent', buf'))
    {
      var tok;
      tok, buf' := fp.GetToken(buf);
      failed, going, sent' := None, false, sent;
      if tok == Key(Type) {
        var t1, t2;
        t1, t2, buf' := ReadPair(fp, buf');
        going := true;
        if !t1.Equ? && !t2.Str? {
          failed := Some(FormatError);
        } else if sent >= MAX_SYNCFILES {
          failed := Some(TooMany);
        } else {
          synctype[sent] := buf';
          sent' := sent + 1;
          assert synctype[..sent'] == s.sync + [buf'];
        }
      } else if tok.Positive() && !tok.End? {
        failed := Some(FormatError);
      }
    }

    /** The body of the sync section. */
    method ReadSync(fp: Stream, ghost cent: nat, sent: nat, buf: string)
      returns (failed: Option<Outcome>, sent': nat, buf': string)
      requires Valid() && fp.Valid() && cent <= MAX_CONF && sent <= MAX_SYNCFILES
      modifies fp, synctype
      ensures fp.Valid() && |fp.Left()| <= old(|fp.Left()|) && sent' <= MAX_SYNCFILES
      ensures
        old(ParseSync(Tokens(fp.Left()), Now(cent, sent, buf)))
        == if failed.Some? then failed.value else ParseTop(Tokens(fp.Left()), Now(cent, sent', buf'))
      ensures failed.Some? ==> !failed.value.Table?
    {
      ghost var goal := ParseSync(Tokens(fp.Left()), Now(cent, sent, buf));
      buf', sent', failed := buf, sent, None;
      var going := true;
      while going && failed.None?
        invariant fp.Valid() && |fp.Left()| <= old(|fp.Left()|) && sent' <= MAX_SYNCFILES
        invariant failed.Some? ==> goal == failed.value && !failed.value.Table?
        invariant failed.None? && going ==> goal == ParseSync(Tokens(fp.Left()), Now(cent, sent', buf'))
        invariant failed.None? && !going ==> goal == ParseTop(Tokens(fp.Left()), Now(cent, sent', buf'))
        decreases going, |fp.Left()|
      {
        failed, going, sent', buf' := SyncStep(fp, cent, sent', buf', Now(cent, sent', buf'));
      }
    }

    /** A region whose keyword has been read. */
    method RegionSectionStep(fp: Stream, cent: nat, ghost sent: nat, buf: string, ghost s: State)
      returns (failed: Option<Outcome>, cent': nat, buf': string)
      requires Valid() && fp.Valid() && cent <= MAX_CONF && sent <= MAX_SYNCFILES && s == Now(cent, sent, buf)
      modifies fp, conf
      ensures fp.Valid() && |fp.Left()| <= old(|fp.Left()|) && cent' <= MAX_CONF
      ensures
        ParseTop([Key(Region)] + old(Tokens(fp.Left())), s)
        == if failed.Some? then failed.value else ParseTop(Tokens(fp.Left()), Now(cent', sent, buf'))
      ensures failed.Some? ==> !failed.value.Table?
    {
      ghost var ts := [Key(Region)] + Tokens(fp.Left());
      assert ts[1..] == Tokens(fp.Left());
      if cent >= MAX_CONF {
        return Some(TooMany), cent, buf;
      }
      var t1, t2, bad;
      t1, t2, buf' := ReadPair(fp, buf);
      if !t1.Str? && !t2.Bgn? {
        return Some(FormatError), cent, buf';
      }
      conf[cent] := conf[cent].(area := buf');
      assert Now(cent, sent, buf') == With(s, s.conf[cent].(area := buf'), buf');
      bad, cent', buf' := ReadRegion(fp, cent, sent, buf');
      failed := if bad then Some(FormatError) else None;
    }

    /** The sync section, its keyword has been read. */
    method SyncSectionStep(fp: Stream, ghost cent: nat, sent: nat, buf: string, ghost s: State)
      returns (failed: Option<Outcome>, sent': nat, buf': string)
      requires Valid() && fp.Valid() && cent <= MAX_CONF && sent <= MAX_SYNCFILES && s == Now(cent, sent, buf)
      modifies fp, synctype
      ensures fp.Valid() && |fp.Left()| <= old(|fp.Left()|) && sent' <= MAX_SYNCFILES
      ensures
        ParseTop([Key(Sync)] + old(Tokens(fp.Left())), s)
        == if failed.Some? then failed.value else ParseTop(Tokens(fp.Left()), Now(cent, sent', buf'))
      ensures failed.Some? ==> !failed.value.Table?
    {
      ghost var ts := [Key(Sync)] + Tokens(fp.Left());
      assert ts[1..] == Tokens(fp.Left());
      var tok;
      tok, buf' := fp.GetToken(buf);
      if !tok.Bgn? {
        return Some(FormatError), sent, buf';
      }
      failed, sent', buf' := ReadSync(fp, cent, sent, buf');
    }

    /**
     readconf: the whole file.  `junk` is what the uninitialised text buffer holds.  The table is
     what the parser makes of the tokens; the program exits if there is none.
    */
    method ReadConf(fp: Stream, junk: string) returns (failed: Option<Outcome>)
      requires Valid() && fp.Valid()
      modifies this, conf, synctype, fp
      ensures Valid()
      ensures
        old(ParseTop(Tokens(fp.Left()), Now(0, 0, junk)))
        == if failed.Some? then failed.value else Table(conf[..], confent, synctype[..syncent])
      ensures failed.None? <==> G.Accepted(old(Tokens(fp.Left())))
      ensures failed == Some(TooMany) <==> G.Overfull(old(Tokens(fp.Left())))
      ensures failed.Some? ==> !failed.value.Table?
    {
      G.AcceptedExactly(Tokens(fp.Left()), Now(0, 0, junk));
      ghost var goal := ParseTop(Tokens(fp.Left()), Now(0, 0, junk));
      var cent: nat, sent: nat, buf, tok := 0, 0, junk, ErrChr;
      failed := None;
      var going := true;
      while going && failed.None?
        invariant Valid() && fp.Valid() && cent <= MAX_CONF && sent <= MAX_SYNCFILES
        invariant failed.Some? ==> !failed.value.Table?
        invariant goal == if failed.Some? then failed.value
                          else if going then ParseTop(Tokens(fp.Left()), Now(cent, sent, buf))
                          else Table(conf[..], cent, synctype[..sent])
        decreases going, |fp.Left()|
      {
        ghost var ts, s := Tokens(fp.Left()), Now(cent, sent, buf);
        tok, buf := fp.GetToken(buf);
        assert tok.Positive() ==> ts == [tok] + Tokens(fp.Left());
        if !tok.Positive() {
          going := false;
        } else if tok == Key(Region) {
          failed, cent, buf := RegionSectionStep(fp, cent, sent, buf, s);
        } else if tok == Key(Sync) {
          failed, sent, buf := SyncSectionStep(fp, cent, sent, buf, s);
        } else {
          failed := Some(FormatError);
        }
      }
      if failed.None? {
        confent, syncent := cent, sent;
      }
    }

    /** sync_entry: the column of a type. */
    method SyncEntry(typ: string) returns (r: int)
      requires Valid()
      ensures -1 <= r < syncent && (r == -1 <==> typ !in synctype[..syncent])
      ensures r >= 0 ==> synctype[r] == typ && forall k :: 0 <= k < r ==> synctype[k] != typ
    {
      var i := 0;
      while i < syncent
        invariant i <= syncent && forall k :: 0 <= k < i ==> synctype[k] != typ
      {
        if synctype[i] == typ {
          return i;
        }
        i := i + 1;
      }
      r := -1;
    }
  }
}
