/**
 Which token sequences the reader accepts at all, as a grammar: sections of a region or of sync types,
 with the looseness of the two-token checks, sections that an error token or the end of the file cuts
 short, and whatever comes behind an error token between two sections.  Every other sequence is refused,
 and it is said for which of the two reasons.
*/
module ConfigGrammar {
  import opened ConfigLexer
  import opened ConfigParser

  // ----- The grammar -----

  /** A keyword and the two tokens behind it. */
  datatype Setting = Setting(k: Keyword, t1: Token, t2: Token)

  /** A section; `last` is what ends it. */
  datatype Item =
    | RegionItem(t1: Token, t2: Token, body: seq<Setting>, last: Token)
    | SyncItem(body: seq<Setting>, last: Token)

  predicate Ends(t: Token) {
    t.End? || !t.Positive()
  }

  /** Not both tokens behind the keyword are wrong. */
  predicate Passes(x: Setting) {
    x.t1.Equ? || x.t2.Str?
  }

  predicate RegionSetting(x: Setting) {
    IsField(x.k) && Passes(x)
  }

  predicate SyncSetting(x: Setting) {
    x.k == Type && Passes(x)
  }

  ghost predicate RegionBody(body: seq<Setting>) {
    forall i :: 0 <= i < |body| ==> RegionSetting(body[i])
  }

  ghost predicate SyncBody(body: seq<Setting>) {
    forall i :: 0 <= i < |body| ==> SyncSetting(body[i])
  }

  ghost predicate ValidItem(n: Item) {
    match n
    case RegionItem(t1, t2, body, last) => (t1.Str? || t2.Bgn?) && RegionBody(body) && Ends(last)
    case SyncItem(body, last) => SyncBody(body) && Ends(last)
  }

  ghost predicate ValidItems(ns: seq<Item>) {
    forall i :: 0 <= i < |ns| ==> ValidItem(ns[i])
  }

  function BodyTokens(body: seq<Setting>): seq<Token> {
    if body == [] then [] else [Key(body[0].k), body[0].t1, body[0].t2] + BodyTokens(body[1..])
  }

  function ItemTokens(n: Item): seq<Token> {
    match n
    case RegionItem(t1, t2, body, last) => [Key(Region), t1, t2] + BodyTokens(body) + [last]
    case SyncItem(body, last) => [Key(Sync), Bgn] + BodyTokens(body) + [last]
  }

  function ItemsTokens(ns: seq<Item>): seq<Token> {
    if ns == [] then [] else ItemTokens(ns[0]) + ItemsTokens(ns[1..])
  }

  /** The regions that count: those that end as they should. */
  function Closed(ns: seq<Item>): nat {
    if ns == [] then 0
    else (if ns[0].RegionItem? && ns[0].last.End? then 1 else 0) + Closed(ns[1..])
  }

  function Types(ns: seq<Item>): nat {
    if ns == [] then 0 else (if ns[0].SyncItem? then |ns[0].body| else 0) + Types(ns[1..])
  }

  /** Each region finds a free record, even one that does not count; all sync types find a place. */
  ghost predicate Room(ns: seq<Item>, cent: nat, sent: nat) {
    && (forall i :: 0 <= i < |ns| && ns[i].RegionItem? ==> cent + Closed(ns[..i]) < MAX_CONF)
    && sent + Types(ns) <= MAX_SYNCFILES
  }

  /** Reading ends well here, whatever follows. */
  predicate Stops(tail: seq<Token>) {
    tail != [] && !tail[0].Positive()
  }

  /** The sync section has one type more than there is place for. */
  ghost predicate TypeTooMany(tail: seq<Token>, sent: nat, body: seq<Setting>, junk: seq<Token>) {
    && SyncBody(body) && body != [] && sent + |body| == MAX_SYNCFILES + 1
    && tail == [Key(Sync), Bgn] + BodyTokens(body) + junk
  }

  /** A region without a free record, or a sync type without a place. */
  ghost predicate Overflows(tail: seq<Token>, cent: nat, sent: nat) {
    || (cent >= MAX_CONF && tail != [] && tail[0] == Key(Region))
    || exists body: seq<Setting>, junk: seq<Token> :: TypeTooMany(tail, sent, body, junk)
  }

  /** Behind its end a text gives error tokens for ever; `us` has some of them. */
  ghost predicate Padded(ts: seq<Token>, us: seq<Token>) {
    && |ts| <= |us| && us[..|ts|] == ts
    && forall i :: |ts| <= i < |us| ==> us[i] == ErrChr
  }

  ghost predicate Derives(ts: seq<Token>, ns: seq<Item>, tail: seq<Token>, cent: nat, sent: nat) {
    ValidItems(ns) && Room(ns, cent, sent) && Padded(ts, ItemsTokens(ns) + tail)
  }

  /** The token sequences of the files that are read. */
  ghost predicate Accepted(ts: seq<Token>) {
    exists ns: seq<Item>, tail: seq<Token> :: Derives(ts, ns, tail, 0, 0) && Stops(tail)
  }

  /** Those of the files that are refused because there is too much in them. */
  ghost predicate Overfull(ts: seq<Token>) {
    exists ns: seq<Item>, tail: seq<Token> ::
      Derives(ts, ns, tail, 0, 0) && Overflows(tail, Closed(ns), Types(ns))
  }

  // ----- Token by token -----

  /** Between sections only the two section keywords go on; an error token, or the end, finishes the table. */
  lemma TopToken(t: Token, r: seq<Token>, s: State)
    requires ValidState(s)
    ensures !t.Positive() ==> ParseTop([t] + r, s) == Table(s.conf, s.cent, s.sync)
    ensures t.Positive() && t != Key(Region) && t != Key(Sync) ==> ParseTop([t] + r, s) == FormatError
    ensures t == Key(Region) && s.cent >= MAX_CONF ==> ParseTop([t] + r, s) == TooMany
    ensures t == Key(Sync) && !Next(r).Bgn? ==> ParseTop([t] + r, s) == FormatError
    ensures t == Key(Sync) ==> ParseTop([t] + ([Bgn] + r), s) == ParseSync(r, s)
  {
    assert ([t] + r)[1..] == r;
    assert ([t] + ([Bgn] + r))[1..] == [Bgn] + r && ([Bgn] + r)[1..] == r;
    assert s.(buf := s.buf) == s;
  }

  /** In a region: a closing brace counts it, an error token ends it uncounted, settings go on. */
  lemma RegionToken(t: Token, r: seq<Token>, s: State)
    requires ValidState(s) && s.cent < MAX_CONF
    ensures t.End? ==> ParseRegion([t] + r, s) == ParseTop(r, s.(cent := s.cent + 1))
    ensures !t.Positive() ==> ParseRegion([t] + r, s) == ParseTop(r, s)
    ensures t.Positive() && !t.End? && !(t.Key? && IsField(t.k)) ==> ParseRegion([t] + r, s) == FormatError
  {
    assert ([t] + r)[1..] == r;
    assert s.(buf := s.buf) == s;
  }

  /** In the list of sync types a closing brace or an error token ends it, types go on. */
  lemma SyncToken(t: Token, r: seq<Token>, s: State)
    requires ValidState(s)
    ensures Ends(t) ==> ParseSync([t] + r, s) == ParseTop(r, s)
    ensures !Ends(t) && t != Key(Type) ==> ParseSync([t] + r, s) == FormatError
  {
    assert ([t] + r)[1..] == r;
    assert s.(buf := s.buf) == s;
  }

  // ----- Tokens behind the end -----

  lemma PadRest(ts: seq<Token>, us: seq<Token>)
    requires Padded(ts, us)
    ensures Next(ts) == Next(us) && Padded(Rest(ts), Rest(us))
  {
    if ts != [] {
      assert us[..|ts|][0] == us[0];
      assert us[1..][..|ts| - 1] == us[..|ts|][1..];
    }
  }

  lemma PadTwo(ts: seq<Token>, us: seq<Token>, buf: string)
    requires Padded(ts, us)
    ensures
      var v, w := ReadTwo(ts, buf), ReadTwo(us, buf);
      w == v.(rest := w.rest) && Padded(v.rest, w.rest)
  {
    PadRest(ts, us);
    PadRest(Rest(ts), Rest(us));
  }

  /** Error tokens behind the end make no difference. */
  lemma {:induction false} PadTop(ts: seq<Token>, us: seq<Token>, s: State)
    requires ValidState(s) && Padded(ts, us)
    ensures ParseTop(ts, s) == ParseTop(us, s)
    decreases |us|, 0
  {
    PadRest(ts, us);
    var t, r, q, b := Next(us), Rest(ts), Rest(us), Buf(s.buf, Next(us));
    if t == Key(Region) && s.cent < MAX_CONF {
      PadTwo(r, q, b);
      var v, w := ReadTwo(r, b), ReadTwo(q, b);
      if w.t1.Str? || w.t2.Bgn? {
        PadRegion(v.rest, w.rest, With(s, s.conf[s.cent].(area := w.buf), w.buf));
      }
    } else if t == Key(Sync) {
      PadRest(r, q);
      if Next(q).Bgn? {
        PadSync(Rest(r), Rest(q), s.(buf := Buf(b, Next(q))));
      }
    }
  }

  lemma {:induction false} PadRegion(ts: seq<Token>, us: seq<Token>, s: State)
    requires ValidState(s) && s.cent < MAX_CONF && Padded(ts, us)
    ensures ParseRegion(ts, s) == ParseRegion(us, s)
    decreases |us|, 1
  {
    PadRest(ts, us);
    var t, r, q, b := Next(us), Rest(ts), Rest(us), Buf(s.buf, Next(us));
    if !t.Positive() {
      PadTop(r, q, s.(buf := b));
    } else if t.End? {
      PadTop(r, q, s.(cent := s.cent + 1, buf := b));
    } else if t.Key? && IsField(t.k) {
      PadTwo(r, q, b);
      var v, w := ReadTwo(r, b), ReadTwo(q, b);
      if w.t1.Equ? || w.t2.Str? {
        PadRegion(v.rest, w.rest, With(s, SetField(s.conf[s.cent], t.k, w.buf), w.buf));
      }
    }
  }

  lemma {:induction false} PadSync(ts: seq<Token>, us: seq<Token>, s: State)
    requires ValidState(s) && Padded(ts, us)
    ensures ParseSync(ts, s) == ParseSync(us, s)
    decreases |us|, 1
  {
    PadRest(ts, us);
    var t, r, q, b := Next(us), Rest(ts), Rest(us), Buf(s.buf, Next(us));
    if Ends(t) {
      PadTop(r, q, s.(buf := b));
    } else if t == Key(Type) {
      PadTwo(r, q, b);
      var v, w := ReadTwo(r, b), ReadTwo(q, b);
      if (w.t1.Equ? || w.t2.Str?) && |s.sync| < MAX_SYNCFILES {
        PadSync(v.rest, w.rest, Added(s, w.buf));
      }
    }
  }

  // ----- Room -----

  function Counts(n: Item): nat {
    if n.RegionItem? && n.last.End? then 1 else 0
  }

  function Adds(n: Item): nat {
    if n.SyncItem? then |n.body| else 0
  }

  predicate RoomForOne(n: Item, cent: nat, sent: nat) {
    if n.RegionItem? then cent < MAX_CONF else sent + |n.body| <= MAX_SYNCFILES
  }

  lemma ClosedFirst(n: Item, ns: seq<Item>)
    ensures Closed([n] + ns) == Counts(n) + Closed(ns) && Types([n] + ns) == Adds(n) + Types(ns)
    ensures ItemsTokens([n] + ns) == ItemTokens(n) + ItemsTokens(ns)
  {
    assert ([n] + ns)[1..] == ns;
  }

  lemma RoomFirst(n: Item, ns: seq<Item>, cent: nat, sent: nat)
    requires cent <= MAX_CONF && sent <= MAX_SYNCFILES
    ensures Room([n] + ns, cent, sent) <==> RoomForOne(n, cent, sent) && Room(ns, cent + Counts(n), sent + Adds(n))
  {
    var more := [n] + ns;
    ClosedFirst(n, ns);
    forall i | 0 <= i < |ns|
      ensures Closed(more[..i + 1]) == Counts(n) + Closed(ns[..i]) && more[i + 1] == ns[i]
    {
      assert more[..i + 1] == [n] + ns[..i];
      ClosedFirst(n, ns[..i]);
    }
    assert more[..0] == [] && more[0] == n;
    if Room(more, cent, sent) {
      forall i | 0 <= i < |ns| && ns[i].RegionItem?
        ensures cent + Counts(n) + Closed(ns[..i]) < MAX_CONF
      {
        assert more[i + 1].RegionItem?;
      }
    }
    if RoomForOne(n, cent, sent) && Room(ns, cent + Counts(n), sent + Adds(n)) {
      forall i | 0 <= i < |more| && more[i].RegionItem?
        ensures cent + Closed(more[..i]) < MAX_CONF
      {
        if i > 0 {
          assert more[i] == ns[i - 1] && more[..i - 1 + 1] == more[..i];
        }
      }
    }
  }

  // ----- Reading what is in the grammar -----

  /** The text that two tokens leave in the buffer. */
  function Latest(t1: Token, t2: Token, buf: string): string {
    if t2.Str? then t2.s else if t1.Str? then t1.s else buf
  }

  function BodyDone(body: seq<Setting>, s: State): (t: State)
    requires ValidState(s) && s.cent < MAX_CONF
    ensures ValidState(t) && t.cent == s.cent && t.sync == s.sync
    decreases |body|
  {
    if body == [] then s
    else
      var v := Latest(body[0].t1, body[0].t2, s.buf);
      BodyDone(body[1..], With(s, SetField(s.conf[s.cent], body[0].k, v), v))
  }

  function SyncDone(body: seq<Setting>, s: State): (t: State)
    requires ValidState(s) && |s.sync| + |body| <= MAX_SYNCFILES
    ensures ValidState(t) && t.cent == s.cent && |t.sync| == |s.sync| + |body|
    decreases |body|
  {
    if body == [] then s else SyncDone(body[1..], Added(s, Latest(body[0].t1, body[0].t2, s.buf)))
  }

  /** The record counts only if the region ends as it should. */
  function Ended(last: Token, s: State): State {
    if last.End? then s.(cent := s.cent + 1) else s
  }

  function ItemDone(n: Item, s: State): (t: State)
    requires ValidState(s) && RoomForOne(n, s.cent, |s.sync|)
    ensures ValidState(t) && t.cent == s.cent + Counts(n) && |t.sync| == |s.sync| + Adds(n)
  {
    match n
    case RegionItem(t1, t2, body, last) =>
      var v := Latest(t1, t2, s.buf);
      Ended(last, BodyDone(body, With(s, s.conf[s.cent].(area := v), v)))
    case SyncItem(body, _) => SyncDone(body, s)
  }

  /** The table that the sections make of a given one. */
  function ItemsDone(ns: seq<Item>, s: State): (t: State)
    requires ValidState(s) && Room(ns, s.cent, |s.sync|)
    ensures ValidState(t) && t.cent == s.cent + Closed(ns) && |t.sync| == |s.sync| + Types(ns)
    decreases |ns|
  {
    if ns == [] then s
    else
      assert ns == [ns[0]] + ns[1..];
      RoomFirst(ns[0], ns[1..], s.cent, |s.sync|);
      ItemsDone(ns[1..], ItemDone(ns[0], s))
  }

  lemma BodyFirst(body: seq<Setting>, r: seq<Token>)
    requires body != []
    ensures
      BodyTokens(body) + r == [Key(body[0].k)] + ([body[0].t1, body[0].t2] + (BodyTokens(body[1..]) + r))
  {
  }

  lemma {:induction false} RegionReads(body: seq<Setting>, last: Token, r: seq<Token>, s: State)
    requires ValidState(s) && s.cent < MAX_CONF && RegionBody(body) && Ends(last)
    ensures ParseRegion(BodyTokens(body) + ([last] + r), s) == ParseTop(r, Ended(last, BodyDone(body, s)))
    decreases |body|
  {
    if body == [] {
      assert BodyTokens(body) + ([last] + r) == [last] + r;
      RegionToken(last, r, s);
    } else {
      var x, q := body[0], BodyTokens(body[1..]) + ([last] + r);
      var v := Latest(x.t1, x.t2, s.buf);
      BodyFirst(body, [last] + r);
      LooseSetting(x.k, x.t1, x.t2, q, s);
      RegionReads(body[1..], last, r, With(s, SetField(s.conf[s.cent], x.k, v), v));
    }
  }

  /** The list of sync types is read up to its end, or up to the type that has no place. */
  lemma {:induction false} SyncReads(body: seq<Setting>, q: seq<Token>, s: State)
    requires ValidState(s) && SyncBody(body) && |s.sync| + |body| <= MAX_SYNCFILES
    ensures ParseSync(BodyTokens(body) + q, s) == ParseSync(q, SyncDone(body, s))
    decreases |body|
  {
    if body == [] {
      assert BodyTokens(body) + q == q;
    } else {
      var x, r := body[0], BodyTokens(body[1..]) + q;
      BodyFirst(body, q);
      LooseType(x.t1, x.t2, r, s);
      SyncReads(body[1..], q, Added(s, Latest(x.t1, x.t2, s.buf)));
    }
  }

  lemma ItemTokensThen(n: Item, r: seq<Token>)
    ensures
      var q := BodyTokens(n.body) + ([n.last] + r);
      ItemTokens(n) + r == [if n.RegionItem? then Key(Region) else Key(Sync)]
                           + ((if n.RegionItem? then [n.t1, n.t2] else [Bgn]) + q)
  {
  }

  lemma RegionItemReads(n: Item, r: seq<Token>, s: State)
    requires ValidState(s) && ValidItem(n) && n.RegionItem? && s.cent < MAX_CONF
    ensures ParseTop(ItemTokens(n) + r, s) == ParseTop(r, ItemDone(n, s))
  {
    var v := Latest(n.t1, n.t2, s.buf);
    var q := BodyTokens(n.body) + ([n.last] + r);
    ItemTokensThen(n, r);
    LooseRegion(n.t1, n.t2, q, s);
    RegionReads(n.body, n.last, r, With(s, s.conf[s.cent].(area := v), v));
  }

  lemma SyncItemReads(n: Item, r: seq<Token>, s: State)
    requires ValidState(s) && ValidItem(n) && n.SyncItem? && |s.sync| + |n.body| <= MAX_SYNCFILES
    ensures ParseTop(ItemTokens(n) + r, s) == ParseTop(r, ItemDone(n, s))
  {
    var q := BodyTokens(n.body) + ([n.last] + r);
    ItemTokensThen(n, r);
    TopToken(Key(Sync), q, s);
    SyncReads(n.body, [n.last] + r, s);
    SyncToken(n.last, r, SyncDone(n.body, s));
  }

  lemma ItemsDoneFirst(n: Item, ns: seq<Item>, s: State)
    requires ValidState(s) && Room([n] + ns, s.cent, |s.sync|)
    ensures RoomForOne(n, s.cent, |s.sync|) && Room(ns, s.cent + Counts(n), |s.sync| + Adds(n))
    ensures ItemsDone([n] + ns, s) == ItemsDone(ns, ItemDone(n, s))
  {
    RoomFirst(n, ns, s.cent, |s.sync|);
    assert ([n] + ns)[1..] == ns && ([n] + ns)[0] == n;
  }

  lemma ItemsTokensThen(n: Item, ns: seq<Item>, r: seq<Token>)
    ensures ItemsTokens([n] + ns) + r == ItemTokens(n) + (ItemsTokens(ns) + r)
  {
    ClosedFirst(n, ns);
    Associate(ItemTokens(n), ItemsTokens(ns), r);
  }

  lemma Associate(a: seq<Token>, b: seq<Token>, c: seq<Token>)
    ensures a + b + c == a + (b + c)
  {
  }

  /** Sections of the grammar are read, from any table that has room for them. */
  lemma {:induction false} ItemsRead(ns: seq<Item>, r: seq<Token>, s: State)
    requires ValidState(s) && ValidItems(ns) && Room(ns, s.cent, |s.sync|)
    ensures ParseTop(ItemsTokens(ns) + r, s) == ParseTop(r, ItemsDone(ns, s))
    decreases |ns|
  {
    if ns == [] {
      assert ItemsTokens(ns) + r == r;
    } else {
      var n, rest := ns[0], ns[1..];
      assert ns == [n] + rest;
      ItemsDoneFirst(n, rest, s);
      ItemsTokensThen(n, rest, r);
      if n.RegionItem? {
        RegionItemReads(n, ItemsTokens(rest) + r, s);
      } else {
        SyncItemReads(n, ItemsTokens(rest) + r, s);
      }
      ItemsRead(rest, r, ItemDone(n, s));
    }
  }

  lemma OverflowRefused(tail: seq<Token>, s: State)
    requires ValidState(s) && Overflows(tail, s.cent, |s.sync|)
    ensures ParseTop(tail, s) == TooMany
  {
    if s.cent >= MAX_CONF && tail != [] && tail[0] == Key(Region) {
    } else {
      var body: seq<Setting>, junk: seq<Token> :| TypeTooMany(tail, |s.sync|, body, junk);
      LastTypeRefused(tail, body, junk, s);
    }
  }

  lemma LastTypeRefused(tail: seq<Token>, body: seq<Setting>, junk: seq<Token>, s: State)
    requires ValidState(s) && TypeTooMany(tail, |s.sync|, body, junk)
    ensures ParseTop(tail, s) == TooMany
  {
    var init, x := LastSetting(body);
    TypeRefused(init, x, junk, s);
  }

  lemma LastSetting(body: seq<Setting>) returns (init: seq<Setting>, x: Setting)
    requires SyncBody(body) && body != []
    ensures body == init + [x] && SyncBody(init) && SyncSetting(x)
  {
    init, x := body[..|body| - 1], body[|body| - 1];
  }

  lemma TypeRefused(body: seq<Setting>, x: Setting, junk: seq<Token>, s: State)
    requires ValidState(s) && SyncBody(body) && SyncSetting(x) && |s.sync| + |body| == MAX_SYNCFILES
    ensures ParseTop([Key(Sync), Bgn] + BodyTokens(body + [x]) + junk, s) == TooMany
  {
    BodyLast(body, x, junk);
    var last := [Key(Type)] + ([x.t1, x.t2] + junk);
    Associate([Key(Sync), Bgn], BodyTokens(body + [x]), junk);
    HeadSplit(BodyTokens(body) + last);
    TopToken(Key(Sync), BodyTokens(body) + last, s);
    SyncReads(body, last, s);
    NoPlace(x, junk, SyncDone(body, s));
  }

  lemma HeadSplit(q: seq<Token>)
    ensures [Key(Sync), Bgn] + q == [Key(Sync)] + ([Bgn] + q)
  {
  }

  lemma NoPlace(x: Setting, junk: seq<Token>, s: State)
    requires ValidState(s) && Passes(x) && |s.sync| == MAX_SYNCFILES
    ensures ParseSync([Key(Type)] + ([x.t1, x.t2] + junk), s) == TooMany
  {
    assert ([Key(Type)] + ([x.t1, x.t2] + junk))[1..] == [x.t1, x.t2] + junk;
    ReadPair(x.t1, x.t2, junk, s.buf);
  }

  lemma {:induction false} BodyLast(body: seq<Setting>, x: Setting, r: seq<Token>)
    ensures BodyTokens(body + [x]) + r == BodyTokens(body) + ([Key(x.k)] + ([x.t1, x.t2] + r))
    decreases |body|
  {
    if body == [] {
      assert body + [x] == [x] && [x][1..] == [];
    } else {
      assert (body + [x])[1..] == body[1..] + [x];
      BodyFirst(body + [x], r);
      BodyFirst(body, [Key(x.k)] + ([x.t1, x.t2] + r));
      BodyLast(body[1..], x, r);
    }
  }

  // ----- What is read is in the grammar -----

  lemma PadSwap(a: seq<Token>, p: seq<Token>, r: seq<Token>, x: seq<Token>)
    requires Padded(a, p + r) && Padded(r, x)
    ensures Padded(a, p + x)
  {
    assert x[..|r|] == r;
    assert forall i :: |a| <= i < |p| ==> p[i] == (p + r)[i];
    assert forall i :: 0 <= i < |r| && |a| <= |p| + i ==> r[i] == (p + r)[|p| + i];
    if |a| <= |p| {
      assert (p + x)[..|a|] == (p + r)[..|a|];
    } else {
      assert (p + x)[..|a|] == (p + r)[..|a|];
    }
  }

  lemma PadOne(ts: seq<Token>)
    ensures Padded(ts, [Next(ts)] + Rest(ts))
  {
  }

  lemma PadThree(ts: seq<Token>, buf: string)
    ensures
      var w := ReadTwo(Rest(ts), buf);
      Padded(ts, [Next(ts), w.t1, w.t2] + w.rest)
  {
    var r := Rest(ts);
    PadOne(ts);
    PadOne(r);
    PadOne(Rest(r));
    PadSwap(r, [Next(r)], Rest(r), [Next(Rest(r))] + Rest(Rest(r)));
    PadSwap(ts, [Next(ts)], r, [Next(r)] + ([Next(Rest(r))] + Rest(Rest(r))));
    var w := ReadTwo(r, buf);
    assert [Next(ts)] + ([Next(r)] + ([Next(Rest(r))] + Rest(Rest(r)))) == [Next(ts), w.t1, w.t2] + w.rest;
  }

  /** One more setting in front of a body. */
  lemma PadSetting(ts: seq<Token>, x: Setting, r: seq<Token>, body: seq<Setting>, q: seq<Token>)
    requires Padded(ts, [Key(x.k), x.t1, x.t2] + r) && Padded(r, BodyTokens(body) + q)
    ensures Padded(ts, BodyTokens([x] + body) + q)
  {
    PadSwap(ts, [Key(x.k), x.t1, x.t2], r, BodyTokens(body) + q);
    assert ([x] + body)[1..] == body;
    Associate([Key(x.k), x.t1, x.t2], BodyTokens(body), q);
  }

  lemma NoSetting(ts: seq<Token>)
    ensures Padded(ts, BodyTokens([]) + ([Next(ts)] + Rest(ts)))
  {
    PadOne(ts);
    assert BodyTokens([]) + ([Next(ts)] + Rest(ts)) == [Next(ts)] + Rest(ts);
  }

  lemma {:induction false} RegionDerives(ts: seq<Token>, s: State)
    returns (body: seq<Setting>, last: Token, r: seq<Token>, t: State)
    requires ValidState(s) && s.cent < MAX_CONF && !ParseRegion(ts, s).FormatError?
    ensures RegionBody(body) && Ends(last) && Padded(ts, BodyTokens(body) + ([last] + r)) && |r| <= |ts|
    ensures ValidState(t) && t.cent == s.cent + (if last.End? then 1 else 0) && t.sync == s.sync
    ensures ParseTop(r, t) == ParseRegion(ts, s)
    decreases |ts|
  {
    var k, b := Next(ts), Buf(s.buf, Next(ts));
    if Ends(k) {
      body, last, r, t := [], k, Rest(ts), Ended(k, s.(buf := b));
      NoSetting(ts);
    } else {
      var w := ReadTwo(Rest(ts), b);
      var x := Setting(k.k, w.t1, w.t2);
      body, last, r, t := RegionDerives(w.rest, With(s, SetField(s.conf[s.cent], k.k, w.buf), w.buf));
      PadThree(ts, b);
      PadSetting(ts, x, w.rest, body, [last] + r);
      body := [x] + body;
    }
  }

  /** The list of sync types, up to its end, or up to the type `x` that has no place. */
  lemma {:induction false} SyncDerives(ts: seq<Token>, s: State)
    returns (body: seq<Setting>, over: bool, last: Token, r: seq<Token>, t: State)
    requires ValidState(s) && !ParseSync(ts, s).FormatError?
    ensures SyncBody(body)
    ensures
      if over then
        && body != [] && |s.sync| + |body| == MAX_SYNCFILES + 1 && ParseSync(ts, s) == TooMany
        && Padded(ts, BodyTokens(body) + r)
      else
        && Ends(last) && |s.sync| + |body| <= MAX_SYNCFILES && |r| <= |ts|
        && Padded(ts, BodyTokens(body) + ([last] + r))
        && ValidState(t) && t.cent == s.cent && |t.sync| == |s.sync| + |body|
        && ParseTop(r, t) == ParseSync(ts, s)
    decreases |ts|
  {
    var k, b := Next(ts), Buf(s.buf, Next(ts));
    over, last, t := false, k, s.(buf := b);
    if Ends(k) {
      body, r := [], Rest(ts);
      NoSetting(ts);
    } else {
      var w := ReadTwo(Rest(ts), b);
      var x := Setting(Type, w.t1, w.t2);
      PadThree(ts, b);
      if |s.sync| == MAX_SYNCFILES {
        body, over, r := [x], true, w.rest;
        assert BodyTokens([x]) == [Key(Type), w.t1, w.t2] by {
          assert [x][1..] == [];
        }
      } else {
        body, over, last, r, t := SyncDerives(w.rest, Added(s, w.buf));
        PadSetting(ts, x, w.rest, body, if over then r else [last] + r);
        body := [x] + body;
      }
    }
  }

  lemma OneMore(ts: seq<Token>, n: Item, r: seq<Token>, ns: seq<Item>, tail: seq<Token>, cent: nat, sent: nat)
    requires cent <= MAX_CONF && sent <= MAX_SYNCFILES && ValidItem(n) && RoomForOne(n, cent, sent)
    requires Padded(ts, ItemTokens(n) + r) && Derives(r, ns, tail, cent + Counts(n), sent + Adds(n))
    ensures Derives(ts, [n] + ns, tail, cent, sent)
  {
    RoomFirst(n, ns, cent, sent);
    PadSwap(ts, ItemTokens(n), r, ItemsTokens(ns) + tail);
    ItemsTokensThen(n, ns, tail);
  }

  lemma NothingFirst(ts: seq<Token>, tail: seq<Token>, cent: nat, sent: nat)
    requires Padded(ts, tail) && sent <= MAX_SYNCFILES
    ensures Derives(ts, [], tail, cent, sent)
  {
    assert ItemsTokens([]) + tail == tail;
  }

  /** How reading ends, if not with a format error, after so many regions and types. */
  ghost predicate Finishes(o: Outcome, tail: seq<Token>, cent: nat, sent: nat) {
    match o
    case Table(_, _, _) => Stops(tail)
    case TooMany => Overflows(tail, cent, sent)
    case FormatError => false
  }

  /** A first section that is read, and what is left. */
  ghost predicate FirstRead(ts: seq<Token>, s: State, n: Item, r: seq<Token>, t: State)
    requires ValidState(s)
  {
    && ValidItem(n) && RoomForOne(n, s.cent, |s.sync|) && Padded(ts, ItemTokens(n) + r) && |r| < |ts|
    && ValidState(t) && t.cent == s.cent + Counts(n) && |t.sync| == |s.sync| + Adds(n)
  }

  function HeadTokens(n: Item): seq<Token> {
    if n.RegionItem? then [Key(Region), n.t1, n.t2] else [Key(Sync), Bgn]
  }

  lemma PadItem(ts: seq<Token>, n: Item, q: seq<Token>, r: seq<Token>)
    requires Padded(ts, HeadTokens(n) + q) && Padded(q, BodyTokens(n.body) + ([n.last] + r))
    ensures Padded(ts, ItemTokens(n) + r)
  {
    PadSwap(ts, HeadTokens(n), q, BodyTokens(n.body) + ([n.last] + r));
    assert ItemTokens(n) == HeadTokens(n) + BodyTokens(n.body) + [n.last];
    Associate(HeadTokens(n), BodyTokens(n.body), [n.last] + r);
    Associate(HeadTokens(n) + BodyTokens(n.body), [n.last], r);
  }

  lemma RegionHead(ts: seq<Token>, s: State)
    requires ValidState(s) && !ParseTop(ts, s).FormatError? && Next(ts) == Key(Region) && s.cent < MAX_CONF
    ensures
      var w := ReadTwo(Rest(ts), s.buf);
      && (w.t1.Str? || w.t2.Bgn?) && |w.rest| < |ts|
      && ParseTop(ts, s) == ParseRegion(w.rest, With(s, s.conf[s.cent].(area := w.buf), w.buf))
  {
  }

  lemma RegionItemDerives(ts: seq<Token>, s: State) returns (n: Item, r: seq<Token>, t: State)
    requires ValidState(s) && !ParseTop(ts, s).FormatError? && Next(ts) == Key(Region) && s.cent < MAX_CONF
    ensures FirstRead(ts, s, n, r, t) && ParseTop(r, t) == ParseTop(ts, s)
  {
    var w := ReadTwo(Rest(ts), s.buf);
    var body, last;
    RegionHead(ts, s);
    body, last, r, t := RegionDerives(w.rest, With(s, s.conf[s.cent].(area := w.buf), w.buf));
    n := RegionItem(w.t1, w.t2, body, last);
    PadThree(ts, s.buf);
    PadItem(ts, n, w.rest, r);
  }

  lemma SyncHead(ts: seq<Token>, s: State)
    requires ValidState(s) && !ParseTop(ts, s).FormatError? && Next(ts) == Key(Sync)
    ensures ts == [Key(Sync), Bgn] + Rest(Rest(ts)) && ParseTop(ts, s) == ParseSync(Rest(Rest(ts)), s)
  {
    assert s.(buf := s.buf) == s;
  }

  /** Either the list of types is read, or one type too many is reached. */
  lemma SyncItemDerives(ts: seq<Token>, s: State)
    returns (over: bool, n: Item, r: seq<Token>, t: State, tail: seq<Token>)
    requires ValidState(s) && !ParseTop(ts, s).FormatError? && Next(ts) == Key(Sync)
    ensures !over ==> FirstRead(ts, s, n, r, t) && ParseTop(r, t) == ParseTop(ts, s)
    ensures over ==> ParseTop(ts, s) == TooMany && Padded(ts, tail) && Overflows(tail, s.cent, |s.sync|)
  {
    var q := Rest(Rest(ts));
    var body, last;
    SyncHead(ts, s);
    body, over, last, r, t := SyncDerives(q, s);
    n, tail := SyncItem(body, last), [Key(Sync), Bgn] + BodyTokens(body) + r;
    if over {
      PadSwap(ts, [Key(Sync), Bgn], q, BodyTokens(body) + r);
      Associate([Key(Sync), Bgn], BodyTokens(body), r);
      assert TypeTooMany(tail, |s.sync|, body, r);
    } else {
      PadItem(ts, n, q, r);
    }
  }

  lemma TailDerives(ts: seq<Token>, s: State, tail: seq<Token>)
    requires ValidState(s) && Padded(ts, tail)
    ensures Derives(ts, [], tail, s.cent, |s.sync|)
  {
    NothingFirst(ts, tail, s.cent, |s.sync|);
  }

  lemma ItemDerives(ts: seq<Token>, s: State, n: Item, r: seq<Token>, t: State, ns: seq<Item>, tail: seq<Token>)
    requires ValidState(s) && FirstRead(ts, s, n, r, t) && Derives(r, ns, tail, t.cent, |t.sync|)
    ensures Derives(ts, [n] + ns, tail, s.cent, |s.sync|)
    ensures t.cent + Closed(ns) == s.cent + Closed([n] + ns) && |t.sync| + Types(ns) == |s.sync| + Types([n] + ns)
  {
    ClosedFirst(n, ns);
    ItemMore(ts, n, r, ns, tail, s.cent, |s.sync|, t.cent, |t.sync|);
  }

  lemma ItemMore(ts: seq<Token>, n: Item, r: seq<Token>, ns: seq<Item>, tail: seq<Token>,
                 cent: nat, sent: nat, cent': nat, sent': nat)
    requires cent <= MAX_CONF && sent <= MAX_SYNCFILES && ValidItem(n) && RoomForOne(n, cent, sent)
    requires Padded(ts, ItemTokens(n) + r) && cent' == cent + Counts(n) && sent' == sent + Adds(n)
    requires Derives(r, ns, tail, cent', sent')
    ensures Derives(ts, [n] + ns, tail, cent, sent)
  {
    OneMore(ts, n, r, ns, tail, cent, sent);
  }

  /** The first section, or `over`: reading ends before one is complete. */
  lemma FirstDerives(ts: seq<Token>, s: State, o: Outcome)
    returns (over: bool, n: Item, r: seq<Token>, t: State, tail: seq<Token>)
    requires ValidState(s) && o == ParseTop(ts, s) && !o.FormatError?
    ensures !over ==> FirstRead(ts, s, n, r, t) && ParseTop(r, t) == o
    ensures over ==> Derives(ts, [], tail, s.cent, |s.sync|) && Finishes(o, tail, s.cent, |s.sync|)
  {
    var k := Next(ts);
    over, n, r, t, tail := true, RegionItem(k, k, [], k), ts, s, [k] + Rest(ts);
    if k == Key(Region) && s.cent < MAX_CONF {
      over := false;
      n, r, t := RegionItemDerives(ts, s);
    } else {
      PadOne(ts);
      if k == Key(Sync) {
        over, n, r, t, tail := SyncItemDerives(ts, s);
      }
      if over {
        TailDerives(ts, s, tail);
      }
    }
  }

  lemma {:induction false} TopDerives(ts: seq<Token>, s: State, o: Outcome)
    returns (ns: seq<Item>, tail: seq<Token>, cent: nat, sent: nat)
    requires ValidState(s) && o == ParseTop(ts, s) && !o.FormatError?
    ensures Derives(ts, ns, tail, s.cent, |s.sync|) && Finishes(o, tail, cent, sent)
    ensures cent == s.cent + Closed(ns) && sent == |s.sync| + Types(ns)
    decreases |ts|
  {
    var over, n, r, t;
    over, n, r, t, tail := FirstDerives(ts, s, o);
    ns, cent, sent := [], s.cent, |s.sync|;
    if !over {
      ns, tail, cent, sent := TopDerives(r, t, o);
      ItemDerives(ts, s, n, r, t, ns, tail);
      ns := [n] + ns;
    }
  }

  // ----- The exact language -----

  lemma StopReads(tail: seq<Token>, s: State)
    requires ValidState(s) && Stops(tail)
    ensures ParseTop(tail, s) == Table(s.conf, s.cent, s.sync)
  {
    assert tail == [tail[0]] + tail[1..];
    TopToken(tail[0], tail[1..], s);
  }

  lemma TailReads(tail: seq<Token>, s: State)
    requires ValidState(s)
    ensures Stops(tail) ==> ParseTop(tail, s) == Table(s.conf, s.cent, s.sync)
    ensures Overflows(tail, s.cent, |s.sync|) ==> ParseTop(tail, s) == TooMany
  {
    if Stops(tail) {
      StopReads(tail, s);
    }
    if Overflows(tail, s.cent, |s.sync|) {
      OverflowRefused(tail, s);
    }
  }

  lemma TailIsLeft(ts: seq<Token>, ns: seq<Item>, tail: seq<Token>, s: State)
    requires ValidState(s) && Derives(ts, ns, tail, s.cent, |s.sync|)
    ensures ParseTop(ts, s) == ParseTop(tail, ItemsDone(ns, s))
  {
    PadTop(ts, ItemsTokens(ns) + tail, s);
    ItemsRead(ns, tail, s);
  }

  /** For each derivation: the table it means, or the refusal. */
  lemma DerivationIsRead(ts: seq<Token>, ns: seq<Item>, tail: seq<Token>, s: State, cent: nat, sent: nat)
    requires ValidState(s) && Derives(ts, ns, tail, s.cent, |s.sync|)
    requires cent == s.cent + Closed(ns) && sent == |s.sync| + Types(ns)
    ensures
      var t := ItemsDone(ns, s);
      && t.cent == cent && |t.sync| == sent
      && (Stops(tail) ==> ParseTop(ts, s) == Table(t.conf, t.cent, t.sync))
      && (Overflows(tail, cent, sent) ==> ParseTop(ts, s) == TooMany)
  {
    TailIsLeft(ts, ns, tail, s);
    TailReads(tail, ItemsDone(ns, s));
  }

  /** Whatever is not a format error has a derivation. */
  lemma ReadIsDerived(ts: seq<Token>, s: State)
    requires ValidState(s) && s.cent == 0 && s.sync == []
    ensures ParseTop(ts, s).Table? ==> Accepted(ts)
    ensures ParseTop(ts, s).TooMany? ==> Overfull(ts)
  {
    if !ParseTop(ts, s).FormatError? {
      var ns, tail, cent, sent := TopDerives(ts, s, ParseTop(ts, s));
    }
  }

  /** What is derived has the outcome of its derivation. */
  lemma AcceptedIsRead(ts: seq<Token>, s: State)
    requires ValidState(s) && s.cent == 0 && s.sync == [] && Accepted(ts)
    ensures ParseTop(ts, s).Table?
  {
    var ns: seq<Item>, tail: seq<Token> :| Derives(ts, ns, tail, 0, 0) && Stops(tail);
    DerivationIsRead(ts, ns, tail, s, Closed(ns), Types(ns));
  }

  lemma OverfullIsRefused(ts: seq<Token>, s: State)
    requires ValidState(s) && s.cent == 0 && s.sync == [] && Overfull(ts)
    ensures ParseTop(ts, s).TooMany?
  {
    var ns: seq<Item>, tail: seq<Token> :| Derives(ts, ns, tail, 0, 0) && Overflows(tail, Closed(ns), Types(ns));
    DerivationIsRead(ts, ns, tail, s, Closed(ns), Types(ns));
  }

  /**
   A file is read if and only if its tokens are in the grammar with enough room, it is refused for
   having too much in it if and only if they are up to a section or type without room, and refused as
   malformed in all other cases.  What the table contains for a given derivation is said by `ItemsDone`.
  */
  lemma AcceptedExactly(ts: seq<Token>, s: State)
    requires ValidState(s) && s.cent == 0 && s.sync == []
    ensures ParseTop(ts, s).Table? <==> Accepted(ts)
    ensures ParseTop(ts, s).TooMany? <==> Overfull(ts)
    ensures ParseTop(ts, s).FormatError? <==> !Accepted(ts) && !Overfull(ts)
  {
    ReadIsDerived(ts, s);
    if Accepted(ts) {
      AcceptedIsRead(ts, s);
    }
    if Overfull(ts) {
      OverfullIsRefused(ts, s);
    }
  }
}
