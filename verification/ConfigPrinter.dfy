/** Which tables a configuration file can express, and that printing one and reading it gives it back. */
module ConfigPrinter {
  import opened ConfigLexer
  import opened ConfigParser

  /** Texts that can be written as a token: names that are no keywords, and quotable texts. */
  predicate Writable(v: string) {
    (IsName(v) && WordToken(v) == Str(v)) || IsQuotable(v)
  }

  lemma {:induction false} WordSpanIsWord(s: string)
    ensures forall i :: 0 <= i < WordSpan(s) ==> IsWord(s[i])
  {
    if s == "" || !IsWord(s[0]) {
    } else {
      WordSpanIsWord(s[1..]);
    }
  }

  /** Even an escaped quote ends a quoted text. */
  lemma {:induction false} QuotedIsPlain(s: string, i: nat)
    requires LexQuoted(s, i).count < STR_LEN
    ensures
      var q := LexQuoted(s, i);
      q.count == i + |q.text| + 1 && forall j :: 0 <= j < |q.text| ==> IsPrint(q.text[j]) && q.text[j] != '"'
    decreases |s|
  {
    if s == "" || s == "\\" {
    } else {
      var c := if s[0] == '\\' then s[1] else s[0];
      if i + 1 < STR_LEN && IsPrint(c) && c != '"' {
        QuotedIsPlain(if s[0] == '\\' then s[2..] else s[1..], i + 1);
      }
    }
  }

  lemma WordIsName(t: string)
    requires t != "" && IsAlpha(t[0]) && LexWord(t).tok.Str?
    ensures IsName(LexWord(t).tok.s) && WordToken(LexWord(t).tok.s) == LexWord(t).tok
  {
    WordSpanIsWord(t);
  }

  /** The texts that some configuration file can hold are exactly the writable ones. */
  lemma ReadableTexts(v: string)
    ensures Writable(v) <==> exists s :: Lex(s).tok == Str(v)
  {
    if Writable(v) {
      var text := TextOf(Str(v));
      LexSpelled(text, Str(v), "");
      assert Lex(text + "").tok == Str(v);
    }
    if s :| Lex(s).tok == Str(v) {
      var t := SkipLayout(s);
      if IsAlpha(t[0]) {
        WordIsName(t);
      } else {
        QuotedIsPlain(t[1..], 0);
      }
    }
  }

  predicate WritableToken(t: Token) {
    match t
    case Str(v) => Writable(v)
    case Key(k) => true
    case _ => t.Bgn? || t.End? || t.Equ?
  }

  function TextOf(t: Token): string
    requires WritableToken(t)
  {
    match t
    case Str(v) => if IsName(v) && WordToken(v) == t then v else Quote(v)
    case Key(k) => KeyName(k)
    case Bgn => "{"
    case End => "}"
    case _ => "="
  }

  ghost predicate AllWritable(ts: seq<Token>) {
    forall i :: 0 <= i < |ts| ==> WritableToken(ts[i])
  }

  /** The plainest way to write a sequence of tokens: one to a line. */
  function Lines(ts: seq<Token>): (ps: seq<Piece>)
    requires AllWritable(ts)
  {
    if ts == [] then [] else [Piece("\n", TextOf(ts[0]), ts[0])] + Lines(ts[1..])
  }

  lemma {:induction false} LinesWellWritten(ts: seq<Token>)
    requires AllWritable(ts)
    ensures WellWritten(Lines(ts), "\n") && ToksOf(Lines(ts)) == ts
    ensures NotWord(Render(Lines(ts), "\n"))
  {
    assert IsLayout("\n") by {
      assert "\n"[1..] == "";
    }
    if ts == [] {
    } else {
      var ps := Lines(ts);
      LinesWellWritten(ts[1..]);
      assert ps[1..] == Lines(ts[1..]);
      assert Render(ps, "\n")[0] == '\n';
    }
  }

  // ----- Printing a table -----

  predicate WritableConf(c: Conf) {
    && Writable(c.area) && Writable(c.pattern) && Writable(c.typ)
    && Writable(c.date) && Writable(c.fnam) && Writable(c.thrh)
  }

  /** A section that gives the whole record. */
  function FullSection(c: Conf): (n: Section)
    ensures ValidSection(n)
  {
    RegionSection(c.area, [Field(Pattern, c.pattern), Field(Date, c.date), Field(Type, c.typ),
                           Field(Fname, c.fnam), Field(Threshold, c.thrh)])
  }

  /** A section for every record, then the sync types. */
  function TableSections(cs: seq<Conf>, types: seq<string>): (ns: seq<Section>)
    ensures forall i :: 0 <= i < |ns| ==> ValidSection(ns[i])
  {
    if cs == [] then [SyncSection(types)] else [FullSection(cs[0])] + TableSections(cs[1..], types)
  }

  lemma ApplyFirst(c: Conf, f: Field, fs: seq<Field>)
    ensures Apply(c, [f] + fs) == Apply(SetField(c, f.k, f.v), fs)
  {
  }

  lemma FullSectionMeans(c: Conf)
    ensures Apply(BLANK.(area := c.area), FullSection(c).fields) == c
  {
    var f1, f2, f3 := Field(Pattern, c.pattern), Field(Date, c.date), Field(Type, c.typ);
    var f4, f5 := Field(Fname, c.fnam), Field(Threshold, c.thrh);
    var b := BLANK.(area := c.area);
    assert FullSection(c).fields == [f1] + ([f2] + ([f3] + ([f4] + ([f5] + []))));
    ApplyFirst(b, f1, [f2] + ([f3] + ([f4] + ([f5] + []))));
    ApplyFirst(b.(pattern := c.pattern), f2, [f3] + ([f4] + ([f5] + [])));
    ApplyFirst(b.(pattern := c.pattern, date := c.date), f3, [f4] + ([f5] + []));
    ApplyFirst(c.(fnam := "", thrh := ""), f4, [f5] + []);
    ApplyFirst(c.(thrh := ""), f5, []);
  }

  lemma {:induction false} TableSectionsMean(cs: seq<Conf>, types: seq<string>)
    ensures Regions(TableSections(cs, types)) == cs && SyncTypes(TableSections(cs, types)) == types
  {
    Unfold(TableSections(cs, types), []);
    if cs == [] {
      assert TableSections(cs, types)[1..] == [];
    } else {
      FullSectionMeans(cs[0]);
      TableSectionsMean(cs[1..], types);
      assert TableSections(cs, types)[1..] == TableSections(cs[1..], types);
    }
  }

  lemma {:induction false} TypesWritable(types: seq<string>, r: seq<Token>)
    requires (forall i :: 0 <= i < |types| ==> Writable(types[i])) && AllWritable(r)
    ensures AllWritable(TypesThen(types, r))
  {
    if types == [] {
    } else {
      TypesWritable(types[1..], r);
    }
  }

  lemma {:induction false} FieldsWritable(fs: seq<Field>, r: seq<Token>)
    requires (forall i :: 0 <= i < |fs| ==> Writable(fs[i].v)) && AllWritable(r)
    ensures AllWritable(FieldsThen(fs, r))
  {
    if fs == [] {
    } else {
      FieldsWritable(fs[1..], r);
    }
  }

  ghost predicate WritableSection(n: Section) {
    match n
    case RegionSection(area, fs) => Writable(area) && forall i :: 0 <= i < |fs| ==> Writable(fs[i].v)
    case SyncSection(types) => forall i :: 0 <= i < |types| ==> Writable(types[i])
  }

  ghost predicate WritableSections(ns: seq<Section>) {
    ns == [] || (WritableSection(ns[0]) && WritableSections(ns[1..]))
  }

  lemma {:induction false} SectionsWritable(ns: seq<Section>)
    requires WritableSections(ns)
    ensures AllWritable(SectionTokens(ns))
  {
    if ns == [] {
    } else {
      var r := SectionTokens(ns[1..]);
      SectionsWritable(ns[1..]);
      match ns[0]
      case RegionSection(area, fs) => FieldsWritable(fs, [End] + r);
      case SyncSection(types) => TypesWritable(types, [End] + r);
    }
  }

  lemma {:induction false} TableWritable(cs: seq<Conf>, types: seq<string>)
    requires (forall i :: 0 <= i < |cs| ==> WritableConf(cs[i])) && forall i :: 0 <= i < |types| ==> Writable(types[i])
    ensures WritableSections(TableSections(cs, types))
  {
    var ns := TableSections(cs, types);
    if cs == [] {
      assert WritableSection(SyncSection(types)) && ns[1..] == [];
    } else {
      TableWritable(cs[1..], types);
      assert WritableSection(FullSection(cs[0])) && ns[1..] == TableSections(cs[1..], types);
    }
  }

  /** Sections as a text. */
  function Print(ns: seq<Section>): string
    requires AllWritable(SectionTokens(ns))
  {
    Render(Lines(SectionTokens(ns)), "\n")
  }

  /** A printed configuration is read back as what it means. */
  lemma PrintRoundTrip(ns: seq<Section>, buf: string)
    requires WritableSections(ns) && forall i :: 0 <= i < |ns| ==> ValidSection(ns[i])
    ensures AllWritable(SectionTokens(ns))
    ensures
      var cs, types := Regions(ns), SyncTypes(ns);
      ParseTop(Tokens(Print(ns)), Init(buf))
      == if |cs| > MAX_CONF || |types| > MAX_SYNCFILES then TooMany
         else Table(cs + seq(MAX_CONF + 1 - |cs|, i => BLANK), |cs|, types)
  {
    var ts := SectionTokens(ns);
    SectionsWritable(ns);
    LinesWellWritten(ts);
    ConfigRoundTrip(ns, Lines(ts), "\n", buf);
  }

  /** A printed table is read back: the same regions in the same order, the same sync types, and the same counts. */
  lemma TableRoundTrip(cs: seq<Conf>, types: seq<string>, buf: string)
    requires forall i :: 0 <= i < |cs| ==> WritableConf(cs[i])
    requires forall i :: 0 <= i < |types| ==> Writable(types[i])
    requires |cs| <= MAX_CONF && |types| <= MAX_SYNCFILES
    ensures AllWritable(SectionTokens(TableSections(cs, types)))
    ensures
      ParseTop(Tokens(Print(TableSections(cs, types))), Init(buf))
      == Table(cs + seq(MAX_CONF + 1 - |cs|, i => BLANK), |cs|, types)
  {
    TableWritable(cs, types);
    TableSectionsMean(cs, types);
    PrintRoundTrip(TableSections(cs, types), buf);
  }

  // ----- Malformed settings -----

  /** A region with one setting that has a second equals sign in place of its value. */
  function NoValue(area: string, k: Keyword): seq<Token> {
    [Key(Region), Str(area), Bgn] + ([Key(k)] + ([Equ, Equ] + [End]))
  }

  /** Such a file is accepted for every setting, and the name of the region becomes its value. */
  lemma NoValueAccepted(area: string, k: Keyword, buf: string)
    requires Writable(area) && IsField(k)
    ensures AllWritable(NoValue(area, k))
    ensures
      var o := ParseTop(Tokens(Render(Lines(NoValue(area, k)), "\n")), Init(buf));
      o.Table? && o.confent == 1 && |o.conf| == MAX_CONF + 1 && o.conf[0] == SetField(BLANK.(area := area), k, area)
  {
    var ts := NoValue(area, k);
    var r := [Equ, Equ] + [End];
    var s := Init(buf);
    var c := BLANK.(area := area);
    LinesWellWritten(ts);
    RenderRoundTrip(Lines(ts), "\n");
    HeadParses(area, [Key(k)] + r, s);
    LooseSetting(k, Equ, Equ, [End], With(s, c, area));
    EndParses([], s, SetField(c, k, area), area);
    assert [End] + [] == [End];
  }
}
