/** The configuration table that a sequence of tokens denotes. */
module ConfigParser {
  import opened ConfigLexer

  const MAX_CONF: nat := 40
  const MAX_SYNCFILES: nat := 10

  /** One region of the table. */
  datatype Conf = Conf(area: string, pattern: string, typ: string, date: string, fnam: string, thrh: string)

  const BLANK: Conf := Conf("", "", "", "", "", "")

  /** The table while it is read: `conf` has one spare record, `buf` is the last text that was read. */
  datatype State = State(conf: seq<Conf>, cent: nat, sync: seq<string>, buf: string)

  /** A finished table, or one of the two error exits. */
  datatype Outcome =
    | Table(conf: seq<Conf>, confent: nat, sync: seq<string>)
    | FormatError
    | TooMany

  ghost predicate ValidState(s: State) {
    |s.conf| == MAX_CONF + 1 && s.cent <= MAX_CONF && |s.sync| <= MAX_SYNCFILES
  }

  function Init(buf: string): State {
    State(seq(MAX_CONF + 1, i => BLANK), 0, [], buf)
  }

  /** The next token; at the end of the text gettoken keeps failing. */
  function Next(ts: seq<Token>): Token {
    if ts == [] then ErrChr else ts[0]
  }

  function Rest(ts: seq<Token>): (r: seq<Token>)
    ensures |r| <= |ts| && (ts != [] ==> |r| < |ts|)
  {
    if ts == [] then [] else ts[1..]
  }

  /** A text token overwrites the caller's buffer, any other one leaves it. */
  function Buf(buf: string, t: Token): string {
    if t.Str? then t.s else buf
  }

  function SetField(c: Conf, k: Keyword, v: string): Conf {
    match k
    case Pattern => c.(pattern := v)
    case Date => c.(date := v)
    case Type => c.(typ := v)
    case Fname => c.(fnam := v)
    case Threshold => c.(thrh := v)
    case _ => c
  }

  predicate IsField(k: Keyword) {
    !k.Region? && !k.Sync?
  }

  /** Two calls of gettoken, the text they leave in the buffer and the tokens behind them. */
  datatype Two = Two(t1: Token, t2: Token, buf: string, rest: seq<Token>)

  function ReadTwo(ts: seq<Token>, buf: string): (w: Two)
    ensures |w.rest| <= |ts|
  {
    var t1, t2 := Next(ts), Next(Rest(ts));
    Two(t1, t2, Buf(Buf(buf, t1), t2), Rest(Rest(ts)))
  }

  /** The state with a new current record and buffer. */
  function With(s: State, c: Conf, buf: string): (t: State)
    requires ValidState(s) && s.cent < MAX_CONF
    ensures ValidState(t) && t.cent == s.cent && t.conf[t.cent] == c
  {
    s.(conf := s.conf[s.cent := c], buf := buf)
  }

  /** The state after one more sync type. */
  function Added(s: State, v: string): State {
    s.(sync := s.sync + [v], buf := v)
  }

  /**
   Reading on between two sections, inside a region, and inside the sync section.  Note the checks
   of two tokens at a time: they fail only if both tokens are wrong.
  */
  function ParseTop(ts: seq<Token>, s: State): Outcome
    requires ValidState(s)
    decreases |ts|, 0
  {
    var t, r, b := Next(ts), Rest(ts), Buf(s.buf, Next(ts));
    if !t.Positive() then Table(s.conf, s.cent, s.sync)
    else if t == Key(Region) then
      if s.cent >= MAX_CONF then TooMany
      else
        var w := ReadTwo(r, b);
        if !w.t1.Str? && !w.t2.Bgn? then FormatError
        else ParseRegion(w.rest, With(s, s.conf[s.cent].(area := w.buf), w.buf))
    else if t == Key(Sync) then
      if !Next(r).Bgn? then FormatError else ParseSync(Rest(r), s.(buf := Buf(b, Next(r))))
    else FormatError
  }

  function ParseRegion(ts: seq<Token>, s: State): Outcome
    requires ValidState(s) && s.cent < MAX_CONF
    decreases |ts|, 1
  {
    var t, r, b := Next(ts), Rest(ts), Buf(s.buf, Next(ts));
    if !t.Positive() then ParseTop(r, s.(buf := b))
    else if t.End? then ParseTop(r, s.(cent := s.cent + 1, buf := b))
    else if !t.Key? || !IsField(t.k) then FormatError
    else
      var w := ReadTwo(r, b);
      if !w.t1.Equ? && !w.t2.Str? then FormatError
      else ParseRegion(w.rest, With(s, SetField(s.conf[s.cent], t.k, w.buf), w.buf))
  }

  function ParseSync(ts: seq<Token>, s: State): Outcome
    requires ValidState(s)
    decreases |ts|, 1
  {
    var t, r, b := Next(ts), Rest(ts), Buf(s.buf, Next(ts));
    if !t.Positive() || t.End? then ParseTop(r, s.(buf := b))
    else if t != Key(Type) then FormatError
    else
      var w := ReadTwo(r, b);
      if !w.t1.Equ? && !w.t2.Str? then FormatError
      else if |s.sync| >= MAX_SYNCFILES then TooMany
      else ParseSync(w.rest, Added(s, w.buf))
  }

  // ----- Writing a configuration -----

  datatype Field = Field(k: Keyword, v: string)

  /** A section: a region with its settings in any order, or a list of sync types. */
  datatype Section = RegionSection(area: string, fields: seq<Field>) | SyncSection(types: seq<string>)

  ghost predicate ValidSection(n: Section) {
    n.RegionSection? ==> forall i :: 0 <= i < |n.fields| ==> IsField(n.fields[i].k)
  }

  /** The record that settings make of a given one: the last setting of a keyword wins. */
  function Apply(c: Conf, fs: seq<Field>): (d: Conf)
    ensures d.area == c.area
    decreases |fs|
  {
    if fs == [] then c else Apply(SetField(c, fs[0].k, fs[0].v), fs[1..])
  }

  function FieldThen(k: Keyword, v: string, r: seq<Token>): seq<Token> {
    [Key(k), Equ, Str(v)] + r
  }

  function FieldsThen(fs: seq<Field>, r: seq<Token>): seq<Token> {
    if fs == [] then r else FieldThen(fs[0].k, fs[0].v, FieldsThen(fs[1..], r))
  }

  function TypesThen(types: seq<string>, r: seq<Token>): seq<Token> {
    if types == [] then r else FieldThen(Type, types[0], TypesThen(types[1..], r))
  }

  function SectionThen(n: Section, r: seq<Token>): seq<Token> {
    match n
    case RegionSection(area, fs) => [Key(Region), Str(area), Bgn] + FieldsThen(fs, [End] + r)
    case SyncSection(types) => [Key(Sync), Bgn] + TypesThen(types, [End] + r)
  }

  /** The tokens of a configuration. */
  function SectionTokens(ns: seq<Section>): seq<Token> {
    if ns == [] then [] else SectionThen(ns[0], SectionTokens(ns[1..]))
  }

  /** The record a region is read into: the next one of `base`, or a blank one behind them. */
  function FirstOf(base: seq<Conf>): Conf {
    if base == [] then BLANK else base[0]
  }

  function NextBase(base: seq<Conf>): seq<Conf> {
    if base == [] then [] else base[1..]
  }

  /** The regions of a configuration, in order, each read over the next record of `base`. */
  function RegionsOver(ns: seq<Section>, base: seq<Conf>): seq<Conf> {
    if ns == [] then []
    else
      var n := ns[0];
      if n.RegionSection? then
        [Apply(FirstOf(base).(area := n.area), n.fields)] + RegionsOver(ns[1..], NextBase(base))
      else RegionsOver(ns[1..], base)
  }

  /** What a configuration means: its regions and its sync types, in order. */
  function Regions(ns: seq<Section>): seq<Conf> {
    RegionsOver(ns, [])
  }

  function SyncTypes(ns: seq<Section>): seq<string> {
    if ns == [] then [] else (if ns[0].SyncSection? then ns[0].types else []) + SyncTypes(ns[1..])
  }

  // ----- Reading it back -----

  lemma ReadPair(t1: Token, t2: Token, r: seq<Token>, buf: string)
    ensures ReadTwo([t1, t2] + r, buf) == Two(t1, t2, Buf(Buf(buf, t1), t2), r)
  {
    assert ([t1, t2] + r)[1..] == [t2] + r && ([t2] + r)[1..] == r;
  }

  lemma FieldRest(k: Keyword, v: string, r: seq<Token>)
    ensures FieldThen(k, v, r)[0] == Key(k) && FieldThen(k, v, r)[1..] == [Equ, Str(v)] + r
  {
  }

  /** A written setting is read into its own place, the rest of the record is kept. */
  lemma FieldParses(k: Keyword, v: string, r: seq<Token>, s: State, c: Conf, buf: string)
    requires ValidState(s) && s.cent < MAX_CONF && IsField(k)
    ensures ParseRegion(FieldThen(k, v, r), With(s, c, buf)) == ParseRegion(r, With(s, SetField(c, k, v), v))
  {
    FieldRest(k, v, r);
    ReadPair(Equ, Str(v), r, buf);
    assert With(s, c, buf).conf[s.cent := SetField(c, k, v)] == s.conf[s.cent := SetField(c, k, v)];
  }

  /**
   What a setting does in general, error tokens included.  It is refused only if both tokens behind
   the keyword are wrong; if just the second one is, an older text is stored.
  */
  lemma LooseSetting(k: Keyword, t1: Token, t2: Token, r: seq<Token>, s: State)
    requires ValidState(s) && s.cent < MAX_CONF && IsField(k)
    ensures
      var stored := if t2.Str? then t2.s else if t1.Str? then t1.s else s.buf;
      ParseRegion([Key(k)] + ([t1, t2] + r), s)
      == if t1.Equ? || t2.Str? then ParseRegion(r, With(s, SetField(s.conf[s.cent], k, stored), stored))
         else FormatError
  {
    assert ([Key(k)] + ([t1, t2] + r))[1..] == [t1, t2] + r;
    ReadPair(t1, t2, r, s.buf);
  }

  /** The same in the head of a region: its name is an older text if only the second token is right. */
  lemma LooseRegion(t1: Token, t2: Token, r: seq<Token>, s: State)
    requires ValidState(s) && s.cent < MAX_CONF
    ensures
      var stored := if t2.Str? then t2.s else if t1.Str? then t1.s else s.buf;
      ParseTop([Key(Region)] + ([t1, t2] + r), s)
      == if t1.Str? || t2.Bgn? then ParseRegion(r, With(s, s.conf[s.cent].(area := stored), stored)) else FormatError
  {
    assert ([Key(Region)] + ([t1, t2] + r))[1..] == [t1, t2] + r;
    ReadPair(t1, t2, r, s.buf);
  }

  /** And in the list of sync types. */
  lemma LooseType(t1: Token, t2: Token, r: seq<Token>, s: State)
    requires ValidState(s) && |s.sync| < MAX_SYNCFILES
    ensures
      var stored := if t2.Str? then t2.s else if t1.Str? then t1.s else s.buf;
      ParseSync([Key(Type)] + ([t1, t2] + r), s)
      == if t1.Equ? || t2.Str? then ParseSync(r, Added(s, stored)) else FormatError
  {
    assert ([Key(Type)] + ([t1, t2] + r))[1..] == [t1, t2] + r;
    ReadPair(t1, t2, r, s.buf);
  }

  lemma {:induction false} FieldsParse(fs: seq<Field>, r: seq<Token>, s: State, c: Conf, buf: string)
    returns (b: string)
    requires ValidState(s) && s.cent < MAX_CONF && forall i :: 0 <= i < |fs| ==> IsField(fs[i].k)
    ensures ParseRegion(FieldsThen(fs, r), With(s, c, buf)) == ParseRegion(r, With(s, Apply(c, fs), b))
  {
    if fs == [] {
      b := buf;
    } else {
      FieldParses(fs[0].k, fs[0].v, FieldsThen(fs[1..], r), s, c, buf);
      b := FieldsParse(fs[1..], r, s, SetField(c, fs[0].k, fs[0].v), fs[0].v);
    }
  }

  /** The state after a whole region. */
  function Stored(s: State, c: Conf, buf: string): (t: State)
    requires ValidState(s) && s.cent < MAX_CONF
    ensures ValidState(t) && t.cent == s.cent + 1
  {
    With(s, c, buf).(cent := s.cent + 1)
  }

  lemma EndParses(r: seq<Token>, s: State, c: Conf, buf: string)
    requires ValidState(s) && s.cent < MAX_CONF
    ensures ParseRegion([End] + r, With(s, c, buf)) == ParseTop(r, Stored(s, c, buf))
  {
    assert ([End] + r)[1..] == r;
  }

  lemma HeadParses(area: string, r: seq<Token>, s: State)
    requires ValidState(s)
    ensures
      ParseTop([Key(Region), Str(area), Bgn] + r, s)
      == if s.cent >= MAX_CONF then TooMany else ParseRegion(r, With(s, s.conf[s.cent].(area := area), area))
  {
    var ts := [Key(Region), Str(area), Bgn] + r;
    assert ts[1..] == [Str(area), Bgn] + r;
    ReadPair(Str(area), Bgn, r, s.buf);
  }

  /** A written region is read into the next record, if there is one. */
  lemma RegionParses(n: Section, r: seq<Token>, s: State) returns (b: string)
    requires ValidState(s) && n.RegionSection? && ValidSection(n)
    ensures
      ParseTop(SectionThen(n, r), s)
      == if s.cent >= MAX_CONF then TooMany
         else ParseTop(r, Stored(s, Apply(s.conf[s.cent].(area := n.area), n.fields), b))
  {
    b := s.buf;
    HeadParses(n.area, FieldsThen(n.fields, [End] + r), s);
    if s.cent < MAX_CONF {
      var c := s.conf[s.cent].(area := n.area);
      b := FieldsParse(n.fields, [End] + r, s, c, n.area);
      EndParses(r, s, Apply(c, n.fields), b);
    }
  }

  lemma TypeParses(v: string, r: seq<Token>, s: State)
    requires ValidState(s)
    ensures
      ParseSync(FieldThen(Type, v, r), s)
      == if |s.sync| >= MAX_SYNCFILES then TooMany else ParseSync(r, Added(s, v))
  {
    FieldRest(Type, v, r);
    ReadPair(Equ, Str(v), r, s.buf);
  }

  lemma SyncEndParses(r: seq<Token>, s: State)
    requires ValidState(s)
    ensures ParseSync([End] + r, s) == ParseTop(r, s)
  {
    assert ([End] + r)[1..] == r;
  }

  /** The state after a whole list of sync types. */
  function AddedAll(s: State, types: seq<string>, b: string): State {
    s.(sync := s.sync + types, buf := b)
  }

  lemma AddedFirst(s: State, types: seq<string>, b: string)
    requires types != []
    ensures AddedAll(Added(s, types[0]), types[1..], b) == AddedAll(s, types, b)
  {
    assert s.sync + [types[0]] + types[1..] == s.sync + types;
  }

  lemma {:induction false} TypesParse(types: seq<string>, r: seq<Token>, s: State) returns (b: string)
    requires ValidState(s)
    ensures
      ParseSync(TypesThen(types, r), s)
      == if |s.sync| + |types| > MAX_SYNCFILES then TooMany else ParseSync(r, AddedAll(s, types, b))
    decreases |types|
  {
    b := s.buf;
    if types == [] {
      assert AddedAll(s, types, b) == s;
    } else {
      TypeParses(types[0], TypesThen(types[1..], r), s);
      if |s.sync| < MAX_SYNCFILES {
        b := TypesParse(types[1..], r, Added(s, types[0]));
        AddedFirst(s, types, b);
      }
    }
  }

  lemma SyncParses(n: Section, r: seq<Token>, s: State) returns (b: string)
    requires ValidState(s) && n.SyncSection?
    ensures
      ParseTop(SectionThen(n, r), s)
      == if |s.sync| + |n.types| > MAX_SYNCFILES then TooMany else ParseTop(r, AddedAll(s, n.types, b))
  {
    var q := TypesThen(n.types, [End] + r);
    assert SectionThen(n, r)[1..] == [Bgn] + q && ([Bgn] + q)[1..] == q;
    b := TypesParse(n.types, [End] + r, s);
    if |s.sync| + |n.types| <= MAX_SYNCFILES {
      SyncEndParses(r, AddedAll(s, n.types, b));
    }
    assert s.(buf := s.buf) == s;
  }

  /** The records after `cs` has been stored from record `n` on. */
  function Over(conf: seq<Conf>, n: nat, cs: seq<Conf>): seq<Conf>
    requires n + |cs| <= |conf|
  {
    conf[..n] + cs + conf[n + |cs|..]
  }

  lemma OverOne(conf: seq<Conf>, n: nat, c: Conf, cs: seq<Conf>)
    requires n + 1 + |cs| <= |conf|
    ensures Over(conf[n := c], n + 1, cs) == Over(conf, n, [c] + cs)
  {
  }

  /** What a state becomes by regions and sync types: a table, or an error if there is no room for them. */
  function Result(s: State, cs: seq<Conf>, types: seq<string>): Outcome
    requires ValidState(s)
  {
    if s.cent + |cs| > MAX_CONF || |s.sync| + |types| > MAX_SYNCFILES then TooMany
    else Table(Over(s.conf, s.cent, cs), s.cent + |cs|, s.sync + types)
  }

  lemma ResultRegion(s: State, c: Conf, b: string, cs: seq<Conf>, types: seq<string>)
    requires ValidState(s) && s.cent < MAX_CONF
    ensures Result(Stored(s, c, b), cs, types) == Result(s, [c] + cs, types)
  {
    if s.cent + 1 + |cs| <= MAX_CONF {
      OverOne(s.conf, s.cent, c, cs);
    }
  }

  lemma ResultSync(s: State, added: seq<string>, b: string, cs: seq<Conf>, types: seq<string>)
    requires ValidState(s) && |s.sync| + |added| <= MAX_SYNCFILES
    ensures Result(AddedAll(s, added, b), cs, types) == Result(s, cs, added + types)
  {
    assert s.sync + added + types == s.sync + (added + types);
  }

  lemma ResultEnd(s: State)
    requires ValidState(s)
    ensures ParseTop([], s) == Result(s, [], [])
  {
    assert Over(s.conf, s.cent, []) == s.conf && s.sync + [] == s.sync;
  }

  /** A region in front of sections that are understood is understood. */
  lemma RegionStep(n: Section, r: seq<Token>, s: State, cs: seq<Conf>, types: seq<string>, c: Conf) returns (b: string)
    requires ValidState(s) && n.RegionSection? && ValidSection(n)
    requires c == Apply(s.conf[s.cent].(area := n.area), n.fields)
    ensures
      s.cent < MAX_CONF && ParseTop(r, Stored(s, c, b)) == Result(Stored(s, c, b), cs, types)
      ==> ParseTop(SectionThen(n, r), s) == Result(s, [c] + cs, types)
    ensures s.cent >= MAX_CONF ==> ParseTop(SectionThen(n, r), s) == Result(s, [c] + cs, types)
  {
    b := RegionParses(n, r, s);
    if s.cent < MAX_CONF {
      ResultRegion(s, c, b, cs, types);
    }
  }

  lemma SyncStep(n: Section, r: seq<Token>, s: State, cs: seq<Conf>, types: seq<string>) returns (b: string)
    requires ValidState(s) && n.SyncSection?
    ensures
      var t := AddedAll(s, n.types, b);
      |t.sync| <= MAX_SYNCFILES && ParseTop(r, t) == Result(t, cs, types)
      ==> ParseTop(SectionThen(n, r), s) == Result(s, cs, n.types + types)
    ensures
      |s.sync| + |n.types| > MAX_SYNCFILES ==> ParseTop(SectionThen(n, r), s) == Result(s, cs, n.types + types)
  {
    b := SyncParses(n, r, s);
    if |s.sync| + |n.types| <= MAX_SYNCFILES {
      ResultSync(s, n.types, b, cs, types);
    }
  }

  lemma Unfold(ns: seq<Section>, base: seq<Conf>)
    requires ns != []
    ensures SectionTokens(ns) == SectionThen(ns[0], SectionTokens(ns[1..]))
    ensures
      ns[0].RegionSection? ==>
        RegionsOver(ns, base)
        == [Apply(FirstOf(base).(area := ns[0].area), ns[0].fields)] + RegionsOver(ns[1..], NextBase(base))
        && SyncTypes(ns) == SyncTypes(ns[1..])
    ensures
      ns[0].SyncSection? ==>
        RegionsOver(ns, base) == RegionsOver(ns[1..], base) && SyncTypes(ns) == ns[0].types + SyncTypes(ns[1..])
  {
  }

  /** The records from the current one on. */
  function Base(s: State): seq<Conf>
    requires ValidState(s)
  {
    s.conf[s.cent..]
  }

  lemma BaseStored(s: State, c: Conf, b: string)
    requires ValidState(s) && s.cent < MAX_CONF
    ensures FirstOf(Base(s)) == s.conf[s.cent] && Base(Stored(s, c, b)) == NextBase(Base(s))
  {
  }

  /**
   The reader understands every written configuration, from any state of the table: each region is
   read over the record it meets, the sync types are appended.
  */
  lemma {:induction false} SectionsParse(ns: seq<Section>, s: State)
    requires ValidState(s) && forall i :: 0 <= i < |ns| ==> ValidSection(ns[i])
    ensures ParseTop(SectionTokens(ns), s) == Result(s, RegionsOver(ns, Base(s)), SyncTypes(ns))
    decreases |ns|, 1
  {
    if ns == [] {
      ResultEnd(s);
    } else if ns[0].RegionSection? {
      RegionFirst(ns, s);
    } else {
      SyncFirst(ns, s);
    }
  }

  lemma {:induction false} RegionFirst(ns: seq<Section>, s: State)
    requires ValidState(s) && ns != [] && ns[0].RegionSection? && forall i :: 0 <= i < |ns| ==> ValidSection(ns[i])
    ensures ParseTop(SectionTokens(ns), s) == Result(s, RegionsOver(ns, Base(s)), SyncTypes(ns))
    decreases |ns|, 0
  {
    var n, r, types := ns[0], SectionTokens(ns[1..]), SyncTypes(ns[1..]);
    var c := Apply(s.conf[s.cent].(area := n.area), n.fields);
    var cs := RegionsOver(ns[1..], NextBase(Base(s)));
    Unfold(ns, Base(s));
    var b := RegionStep(n, r, s, cs, types, c);
    if s.cent < MAX_CONF {
      BaseStored(s, c, b);
      SectionsParse(ns[1..], Stored(s, c, b));
    }
  }

  lemma {:induction false} SyncFirst(ns: seq<Section>, s: State)
    requires ValidState(s) && ns != [] && ns[0].SyncSection? && forall i :: 0 <= i < |ns| ==> ValidSection(ns[i])
    ensures ParseTop(SectionTokens(ns), s) == Result(s, RegionsOver(ns, Base(s)), SyncTypes(ns))
    decreases |ns|, 0
  {
    var n, r, cs, types := ns[0], SectionTokens(ns[1..]), RegionsOver(ns[1..], Base(s)), SyncTypes(ns[1..]);
    Unfold(ns, Base(s));
    var b := SyncStep(n, r, s, cs, types);
    if |s.sync| + |n.types| <= MAX_SYNCFILES {
      SectionsParse(ns[1..], AddedAll(s, n.types, b));
    }
  }

  /** Over blank records, and behind them, regions are what they say. */
  lemma {:induction false} RegionsOverBlank(ns: seq<Section>, base: seq<Conf>)
    requires forall i :: 0 <= i < |base| ==> base[i] == BLANK
    ensures RegionsOver(ns, base) == Regions(ns)
  {
    if ns == [] {
    } else if ns[0].RegionSection? {
      RegionsOverBlank(ns[1..], NextBase(base));
    } else {
      RegionsOverBlank(ns[1..], base);
    }
  }

  lemma OverBlank(cs: seq<Conf>, buf: string)
    requires |cs| <= MAX_CONF
    ensures Over(Init(buf).conf, 0, cs) == cs + seq(MAX_CONF + 1 - |cs|, i => BLANK)
  {
    assert Init(buf).conf[|cs|..] == seq(MAX_CONF + 1 - |cs|, i => BLANK);
  }

  /** What a configuration means for a fresh table. */
  function Meaning(ns: seq<Section>): Outcome {
    var cs, types := Regions(ns), SyncTypes(ns);
    if |cs| > MAX_CONF || |types| > MAX_SYNCFILES then TooMany
    else Table(cs + seq(MAX_CONF + 1 - |cs|, i => BLANK), |cs|, types)
  }

  lemma ResultFresh(cs: seq<Conf>, types: seq<string>, s: State, buf: string)
    requires s == Init(buf)
    ensures
      Result(s, cs, types)
      == if |cs| > MAX_CONF || |types| > MAX_SYNCFILES then TooMany
         else Table(cs + seq(MAX_CONF + 1 - |cs|, i => BLANK), |cs|, types)
  {
    if |cs| <= MAX_CONF {
      OverBlank(cs, buf);
    }
  }

  lemma SectionsMean(ns: seq<Section>, s: State, buf: string)
    requires s == Init(buf) && forall i :: 0 <= i < |ns| ==> ValidSection(ns[i])
    ensures ParseTop(SectionTokens(ns), s) == Meaning(ns)
  {
    SectionsParse(ns, s);
    RegionsOverBlank(ns, Base(s));
    ResultFresh(Regions(ns), SyncTypes(ns), s, buf);
  }

  /**
   However a configuration is laid out, reading it gives its regions in the first records, blank
   ones behind them, and its sync types; and it is refused exactly if there are too many of either.
  */
  lemma ConfigRoundTrip(ns: seq<Section>, ps: seq<Piece>, trailer: string, buf: string)
    requires forall i :: 0 <= i < |ns| ==> ValidSection(ns[i])
    requires WellWritten(ps, trailer) && ToksOf(ps) == SectionTokens(ns)
    ensures ParseTop(Tokens(Render(ps, trailer)), Init(buf)) == Meaning(ns)
  {
    RenderRoundTrip(ps, trailer);
    SectionsMean(ns, Init(buf), buf);
  }
}
