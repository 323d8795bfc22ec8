/**
 How `kwatcher` groups arriving files by date.  A small ring of slots with a current index that
 moves back for late files; a file whose slot becomes complete publishes the whole set.
*/
module Collector {
  import opened Wrappers
  import opened HistoryLog
  import opened HistorySafety
  import Modulo

  /** What the file name patterns and the sync section say about an arriving file. */
  datatype Arrival =
    | Unparsable
    | OtherType(path: Path)
    | File(path: Path)   // its date and the column of its type are those of the path

  /**
   The slots, the current one, and what happened to the files: `others` had an unknown type and
   were deleted at once; of the renamed files `puts`, `unlinked` were deleted by an eviction and
   `refused` came a second time.  `published` are the dates of the sets handed on.
  */
  datatype Hist = Hist(
    slots: seq<Entry>,
    cur: nat,
    others: seq<Path>,
    puts: seq<Path>,
    unlinked: seq<Path>,
    refused: seq<Path>,
    published: seq<nat>)

  function Init(n: nat): Hist {
    Hist(seq(n, i => UNUSED), 0, [], [], [], [], [])
  }

  function Succ(n: nat, i: nat): (r: nat)
    requires i < n
    ensures r < n
  {
    if i + 1 == n then 0 else i + 1
  }

  function Pred(n: nat, i: nat): (r: nat)
    requires i < n
    ensures r < n
  {
    if i == 0 then n - 1 else i - 1
  }

  ghost predicate Shape(h: Hist) {
    h.cur < |h.slots| && ThreeNames(h.slots)
  }

  /** The slot that already collects date `dt`; a late file may go up to two slots back. */
  function Target(h: Hist, dt: nat): (r: Option<nat>)
    requires Shape(h)
    ensures r.Some? ==> r.value < |h.slots| && h.slots[r.value].date == dt
  {
    var n := |h.slots|;
    var p1 := Pred(n, h.cur);
    var p2 := Pred(n, p1);
    if h.slots[h.cur].date == dt then Some(h.cur)
    else if dt < h.slots[h.cur].date && h.slots[p1].date == dt then Some(p1)
    else if dt < h.slots[h.cur].date && h.slots[p2].date == dt then Some(p2)
    else if h.slots[Succ(n, h.cur)].date == dt then Some(Succ(n, h.cur))
    else None
  }

  predicate Complete(e: Entry, entries: nat)
    requires |e.fname| == FNAME_MAX && entries <= FNAME_MAX
  {
    forall i :: 0 <= i < entries ==> e.fname[i].Some?
  }

  /** Adding a file to slot `s`, which has its date. */
  function AddTo(h: Hist, s: nat, path: Path, entries: nat): Hist
    requires Shape(h) && s < |h.slots| && 0 <= path.kind < entries <= FNAME_MAX
  {
    var e := h.slots[s];
    if e.fname[path.kind].Some? then h.(cur := s, refused := h.refused + [path])
    else
      var e' := e.(fname := e.fname[path.kind := Some(path)]);
      h.(cur := s, slots := h.slots[s := e'],
      published := h.published + if Complete(e', entries) then [e.date] else [])
  }

  /** Starting a new date in the slot after the current one, whose files are unlinked. */
  function StartNew(h: Hist, path: Path, entries: nat): Hist
    requires Shape(h) && 0 <= path.kind < entries <= FNAME_MAX
  {
    var s := Succ(|h.slots|, h.cur);
    var e := h.slots[s];
    var kept := if e.date > 0 then NO_NAMES else e.fname;
    h.(cur := s,
    slots := h.slots[s := Entry(path.date, kept[path.kind := Some(path)])],
    unlinked := h.unlinked + if e.date > 0 then NamesOf(e.fname) else [])
  }

  /** One file: unknown types are unlinked, a known date is completed, another one is started. */
  function Collect(h: Hist, a: Arrival, entries: nat): Hist
    requires Shape(h) && entries <= FNAME_MAX
    requires a.File? ==> 0 <= a.path.kind < entries
  {
    match a
    case Unparsable => h
    case OtherType(path) => h.(others := h.others + [path])
    case File(path) =>
      var b := h.(puts := h.puts + [path]);
      match Target(h, path.date)
      case Some(s) => AddTo(b, s, path, entries)
      case None => StartNew(b, path, entries)
  }

  // ----- Where a file goes -----

  lemma Around(n: nat, i: nat)
    requires i < n
    ensures Succ(n, i) == (i + 1) % n
    ensures Pred(n, i) == (i + n - 1) % n && Pred(n, Pred(n, i)) == (i + n - 2) % n
  {
    if i + 1 < n {
      Modulo.Small(i + 1, n);
    }
    Modulo.Small(i, n);
    Modulo.Previous(i, n);
    Modulo.Previous(i - 1, n);
    Modulo.Back(i, n, 1);
    Modulo.Back(i, n, 2);
  }

  /** All slots but one are as before. */
  ghost predicate OnlySlot(was: seq<Entry>, now: seq<Entry>, s: nat) {
    |now| == |was| && s < |was| && forall u :: 0 <= u < |was| && u != s ==> now[u] == was[u]
  }

  /** All columns but one. */
  ghost predicate OnlyColumn(was: seq<Option<Path>>, now: seq<Option<Path>>, t: nat, path: Path) {
    && |now| == |was| && t < |was| && now[t] == Some(path)
    && forall u :: 0 <= u < |was| && u != t ==> now[u] == was[u]
  }

  /** The file joins slot `s`, which has its date, unless its column is taken. */
  ghost predicate Joins(h: Hist, r: Hist, s: nat, path: Path, entries: nat)
    requires Shape(h) && 0 <= path.kind < entries <= FNAME_MAX
  {
    && s < |h.slots| && h.slots[s].date == path.date && r.cur == s
    && r.puts == h.puts + [path] && r.unlinked == h.unlinked && r.others == h.others
    && if h.slots[s].fname[path.kind].Some? then
         r.slots == h.slots && r.refused == h.refused + [path] && r.published == h.published
       else
         && OnlySlot(h.slots, r.slots, s) && r.slots[s].date == path.date
         && OnlyColumn(h.slots[s].fname, r.slots[s].fname, path.kind, path) && r.refused == h.refused
         && r.published == h.published + (if forall t :: 0 <= t < entries ==> r.slots[s].fname[t].Some?
                                          then [path.date] else [])
  }

  /** The file starts its date in slot `s`; what that slot collected is unlinked. */
  ghost predicate StartsIn(h: Hist, r: Hist, s: nat, path: Path)
    requires Shape(h) && 0 <= path.kind < FNAME_MAX
  {
    && r.cur == s && OnlySlot(h.slots, r.slots, s) && r.slots[s].date == path.date
    && OnlyColumn(if h.slots[s].date > 0 then NO_NAMES else h.slots[s].fname, r.slots[s].fname, path.kind, path)
    && r.puts == h.puts + [path] && r.others == h.others
    && r.unlinked == h.unlinked + (if h.slots[s].date > 0 then NamesOf(h.slots[s].fname) else [])
    && r.refused == h.refused && r.published == h.published
  }

  lemma AddJoins(h: Hist, s: nat, path: Path, entries: nat)
    requires Shape(h) && 0 <= path.kind < entries <= FNAME_MAX && s < |h.slots|
    requires h.slots[s].date == path.date && Target(h, path.date) == Some(s)
    ensures Joins(h, Collect(h, File(path), entries), s, path, entries)
  {
    assert h.published + [] == h.published;
  }

  lemma StartStarts(h: Hist, path: Path, entries: nat)
    requires Shape(h) && 0 <= path.kind < entries <= FNAME_MAX && Target(h, path.date).None?
    ensures StartsIn(h, Collect(h, File(path), entries), Succ(|h.slots|, h.cur), path)
  {
    assert h.unlinked + [] == h.unlinked;
  }

  /** A file of the date of the current slot joins it; a late one joins a slot up to two back. */
  lemma FileJoins(h: Hist, path: Path, entries: nat)
    requires Shape(h) && 0 <= path.kind < entries <= FNAME_MAX
    ensures
      var r, n, c, d := Collect(h, File(path), entries), |h.slots|, h.cur, path.date;
      var p1, p2 := (c + n - 1) % n, (c + n - 2) % n;
      && (h.slots[c].date == d ==> Joins(h, r, c, path, entries))
      && (d < h.slots[c].date && h.slots[p1].date == d ==> Joins(h, r, p1, path, entries))
      && (d < h.slots[c].date && h.slots[p1].date != d && h.slots[p2].date == d ==> Joins(h, r, p2, path, entries))
  {
    Around(|h.slots|, h.cur);
    var o := Target(h, path.date);
    if o.Some? {
      AddJoins(h, o.value, path, entries);
    }
  }

  /** Any other file joins the next slot if that has its date, and otherwise starts its date there. */
  lemma FileMovesOn(h: Hist, path: Path, entries: nat)
    requires Shape(h) && 0 <= path.kind < entries <= FNAME_MAX && h.slots[h.cur].date != path.date
    requires
      var n, c, d := |h.slots|, h.cur, path.date;
      d < h.slots[c].date ==> h.slots[(c + n - 1) % n].date != d && h.slots[(c + n - 2) % n].date != d
    ensures
      var r, s := Collect(h, File(path), entries), (h.cur + 1) % |h.slots|;
      if h.slots[s].date == path.date then Joins(h, r, s, path, entries) else StartsIn(h, r, s, path)
  {
    Around(|h.slots|, h.cur);
    if h.slots[(h.cur + 1) % |h.slots|].date == path.date {
      AddJoins(h, (h.cur + 1) % |h.slots|, path, entries);
    } else {
      StartStarts(h, path, entries);
    }
  }

  /** What is no file of a known type changes no slot; a file of another type is deleted. */
  lemma OtherArrivals(h: Hist, a: Arrival, entries: nat)
    requires Shape(h) && entries <= FNAME_MAX && !a.File?
    ensures Collect(h, a, entries) == h.(others := h.others + if a.OtherType? then [a.path] else [])
  {
    assert h.others + [] == h.others;
  }

  ghost predicate ValidArrival(a: Arrival, entries: nat) {
    a.File? ==> 0 <= a.path.kind < entries && a.path.date != 0
  }

  /** Every name sits under its own date and type; only used slots have names, and those have one. */
  ghost predicate Grouped(h: Hist, entries: nat) {
    && Shape(h) && entries <= FNAME_MAX
    && (forall s, t :: 0 <= s < |h.slots| && 0 <= t < FNAME_MAX && h.slots[s].fname[t].Some? ==>
                         && h.slots[s].fname[t].value.date == h.slots[s].date
                         && h.slots[s].fname[t].value.kind == t < entries
                         && h.slots[s].fname[t].value in h.puts)
    && (forall s :: 0 <= s < |h.slots| ==> (h.slots[s].fname == NO_NAMES <==> h.slots[s].date == 0))
  }

  lemma InitGrouped(n: nat, entries: nat)
    requires 0 < n && entries <= FNAME_MAX
    ensures Grouped(Init(n), entries)
  {
  }

  /** Grouping holds after any call, late files included. */
  lemma CollectGrouped(h: Hist, a: Arrival, entries: nat)
    requires Grouped(h, entries) && ValidArrival(a, entries)
    ensures Grouped(Collect(h, a, entries), entries)
    ensures |Collect(h, a, entries).slots| == |h.slots|
  {
    if a.File? {
      var r := Collect(h, a, entries);
      var t := a.path.kind;
      assert Target(h, a.path.date).Some? ==> h.slots[Target(h, a.path.date).value].date != 0;
      assert r.slots[r.cur].fname[t].Some?;
      assert r.slots[r.cur].fname != NO_NAMES;
    }
  }

  /** A set that is published is complete, and all its files are of its date. */
  lemma PublishedComplete(h: Hist, a: Arrival, entries: nat)
    requires Grouped(h, entries) && ValidArrival(a, entries)
    requires Collect(h, a, entries).published != h.published
    ensures
      var r := Collect(h, a, entries);
      && a.File? && r.cur < |r.slots| && |r.slots[r.cur].fname| == FNAME_MAX
      && r.published == h.published + [a.path.date] && r.slots[r.cur].date == a.path.date
      && forall t :: 0 <= t < entries ==>
                       && r.slots[r.cur].fname[t].Some?
                       && r.slots[r.cur].fname[t].value.date == a.path.date
                       && r.slots[r.cur].fname[t].value.kind == t
                       && r.slots[r.cur].fname[t].value in r.puts
  {
    CollectGrouped(h, a, entries);
  }

  lemma OtherSlots(h: Hist, a: Arrival, entries: nat, s: nat)
    requires Shape(h) && entries <= FNAME_MAX && (a.File? ==> 0 <= a.path.kind < entries) && s < |h.slots|
    ensures
      var r := Collect(h, a, entries);
      |r.slots| == |h.slots| && (s != r.cur ==> r.slots[s] == h.slots[s])
  {
  }

  lemma NamesLost(h: Hist, a: Arrival, entries: nat, s: nat, t: nat)
    requires Grouped(h, entries) && ValidArrival(a, entries) && s < |h.slots| && t < FNAME_MAX
    requires Grouped(Collect(h, a, entries), entries) && s < |Collect(h, a, entries).slots|
    requires h.slots[s].fname[t].Some? && Collect(h, a, entries).slots[s].fname[t] != h.slots[s].fname[t]
    ensures a.File? && s == Succ(|h.slots|, h.cur)
    ensures Collect(h, a, entries).slots[s].date == a.path.date != h.slots[s].date
  {
  }

  /** One call touches at most one slot, and takes names away only from the one after the current. */
  lemma OneSlotChanges(h: Hist, a: Arrival, entries: nat, s: nat)
    requires Grouped(h, entries) && ValidArrival(a, entries) && s < |h.slots|
    ensures
      var r := Collect(h, a, entries);
      && |r.slots| == |h.slots| && |r.slots[s].fname| == FNAME_MAX
      && (s != r.cur ==> r.slots[s] == h.slots[s])
      && ((exists t :: 0 <= t < FNAME_MAX && h.slots[s].fname[t].Some? && r.slots[s].fname[t] != h.slots[s].fname[t])
          ==> s == Succ(|h.slots|, h.cur) && r.slots[s].date == a.path.date != h.slots[s].date)
  {
    CollectGrouped(h, a, entries);
    OtherSlots(h, a, entries, s);
    var r := Collect(h, a, entries);
    if t :| 0 <= t < FNAME_MAX && h.slots[s].fname[t].Some? && r.slots[s].fname[t] != h.slots[s].fname[t] {
      NamesLost(h, a, entries, s, t);
    }
  }

  // ----- Conservation -----

  function Balance(h: Hist, p: Path): int
    requires ThreeNames(h.slots)
  {
    Held(h.slots, p) + Times(h.unlinked, p) + Times(h.refused, p) - Times(h.puts, p)
  }

  lemma AddBalance(h: Hist, s: nat, path: Path, entries: nat, p: Path)
    requires Shape(h) && s < |h.slots| && 0 <= path.kind < entries <= FNAME_MAX
    ensures
      var r := AddTo(h, s, path, entries);
      ThreeNames(r.slots) && Balance(r, p) == Balance(h, p) + Is(Some(path), p)
  {
    var e := h.slots[s];
    HeldUpdate(h.slots, s, e.(fname := e.fname[path.kind := Some(path)]), p);
    TimesAppend(h.refused, [path], p);
    OneTime(path, p);
  }

  lemma StartBalance(h: Hist, path: Path, entries: nat, p: Path)
    requires Grouped(h, entries) && 0 <= path.kind < entries
    ensures
      var r := StartNew(h, path, entries);
      ThreeNames(r.slots) && Balance(r, p) == Balance(h, p) + Is(Some(path), p)
  {
    var s := Succ(|h.slots|, h.cur);
    var e := h.slots[s];
    HeldUpdate(h.slots, s, Entry(path.date, NO_NAMES[path.kind := Some(path)]), p);
    NamesTimes(e.fname, p);
    TimesAppend(h.unlinked, if e.date > 0 then NamesOf(e.fname) else [], p);
  }

  lemma FileBalance(h: Hist, path: Path, entries: nat, p: Path)
    requires Grouped(h, entries) && 0 <= path.kind < entries
    ensures ThreeNames(Collect(h, File(path), entries).slots)
    ensures Balance(Collect(h, File(path), entries), p) == Balance(h, p)
  {
    var b := h.(puts := h.puts + [path]);
    TimesAppend(h.puts, [path], p);
    OneTime(path, p);
    assert Balance(b, p) == Balance(h, p) - Is(Some(path), p);
    match Target(h, path.date)
    case Some(s) => AddBalance(b, s, path, entries, p);
    case None => StartBalance(b, path, entries, p);
  }

  /** Each renamed file is in one slot, unlinked, or refused, counted with multiplicity. */
  lemma CollectBalance(h: Hist, a: Arrival, entries: nat, p: Path)
    requires Grouped(h, entries) && ValidArrival(a, entries)
    ensures ThreeNames(Collect(h, a, entries).slots)
    ensures Balance(Collect(h, a, entries), p) == Balance(h, p)
  {
    if a.File? {
      FileBalance(h, a.path, entries, p);
    }
  }

  // ----- Whole runs -----

  ghost predicate ValidArrivals(fs: seq<Arrival>, entries: nat) {
    forall i :: 0 <= i < |fs| ==> ValidArrival(fs[i], entries)
  }

  /** The state after a sequence of calls on a ring of `n` slots. */
  function CollectAll(n: nat, entries: nat, fs: seq<Arrival>): (h: Hist)
    requires 0 < n && entries <= FNAME_MAX && ValidArrivals(fs, entries)
    ensures Grouped(h, entries) && |h.slots| == n
  {
    if fs == [] then
      InitGrouped(n, entries);
      Init(n)
    else
      var b := CollectAll(n, entries, fs[..|fs| - 1]);
      CollectGrouped(b, fs[|fs| - 1], entries);
      Collect(b, fs[|fs| - 1], entries)
  }

  lemma {:induction false} EmptySlots(n: nat, p: Path)
    ensures Held(seq(n, i => UNUSED), p) == 0
  {
    if n == 0 {
    } else {
      EmptySlots(n - 1, p);
      assert seq(n, i => UNUSED)[..n - 1] == seq(n - 1, i => UNUSED);
    }
  }

  /** No renamed file is lost track of in any run. */
  lemma {:induction false} RunConserves(n: nat, entries: nat, fs: seq<Arrival>, p: Path)
    requires 0 < n && entries <= FNAME_MAX && ValidArrivals(fs, entries)
    ensures
      var h := CollectAll(n, entries, fs);
      Times(h.puts, p) == Held(h.slots, p) + Times(h.unlinked, p) + Times(h.refused, p)
  {
    if fs == [] {
      EmptySlots(n, p);
    } else {
      RunConserves(n, entries, fs[..|fs| - 1], p);
      CollectBalance(CollectAll(n, entries, fs[..|fs| - 1]), fs[|fs| - 1], entries, p);
    }
  }

  /** A file of this date and type has arrived. */
  ghost predicate Seen(h: Hist, date: nat, kind: int) {
    exists i :: 0 <= i < |h.puts| && h.puts[i].date == date && h.puts[i].kind == kind
  }

  ghost predicate AllSeen(h: Hist, date: nat, entries: nat) {
    forall t :: 0 <= t < entries ==> Seen(h, date, t)
  }

  /** No two files of the same date and type arrived. */
  ghost predicate OncePerType(h: Hist) {
    forall i, j :: 0 <= i < j < |h.puts| ==>
                     h.puts[i].date != h.puts[j].date || h.puts[i].kind != h.puts[j].kind
  }

  ghost predicate PublishedSeen(h: Hist, entries: nat) {
    && (forall k :: 0 <= k < |h.published| ==> AllSeen(h, h.published[k], entries))
    && (forall j, k :: 0 <= j < k < |h.published| ==> h.published[j] != h.published[k])
  }

  lemma SeenGrows(h: Hist, a: Arrival, entries: nat, date: nat, kind: int)
    requires Grouped(h, entries) && ValidArrival(a, entries)
    ensures
      Seen(Collect(h, a, entries), date, kind)
      <==> Seen(h, date, kind) || (a.File? && a.path.date == date && a.path.kind == kind)
  {
    var r := Collect(h, a, entries);
    if a.File? {
      assert r.puts == h.puts + [a.path];
      assert r.puts[|h.puts|] == a.path;
      assert forall i :: 0 <= i < |h.puts| ==> r.puts[i] == h.puts[i];
    } else {
      assert r.puts == h.puts;
    }
  }

  lemma OncePerTypeBefore(h: Hist, a: Arrival, entries: nat)
    requires Grouped(h, entries) && ValidArrival(a, entries) && OncePerType(Collect(h, a, entries))
    ensures OncePerType(h)
    ensures a.File? ==> !Seen(h, a.path.date, a.path.kind)
  {
    var r := Collect(h, a, entries);
    assert forall i :: 0 <= i < |h.puts| ==> r.puts[i] == h.puts[i];
    if a.File? {
      assert r.puts[|h.puts|] == a.path;
    }
  }

  lemma CollectPublishes(h: Hist, a: Arrival, entries: nat)
    requires Grouped(h, entries) && ValidArrival(a, entries) && 0 < entries
    requires PublishedSeen(h, entries) && OncePerType(Collect(h, a, entries))
    ensures PublishedSeen(Collect(h, a, entries), entries)
  {
    var r := Collect(h, a, entries);
    OncePerTypeBefore(h, a, entries);
    forall date, kind | Seen(h, date, kind)
      ensures Seen(r, date, kind)
    {
      SeenGrows(h, a, entries, date, kind);
    }
    if r.published != h.published {
      PublishedComplete(h, a, entries);
      assert AllSeen(r, a.path.date, entries) by {
        forall t | 0 <= t < entries
          ensures Seen(r, a.path.date, t)
        {
          var i :| 0 <= i < |r.puts| && r.puts[i] == r.slots[r.cur].fname[t].value;
        }
      }
      forall j | 0 <= j < |h.published|
        ensures h.published[j] != a.path.date
      {
        assert AllSeen(h, h.published[j], entries);
        assert Seen(h, h.published[j], a.path.kind);
      }
    }
  }

  /** If no file of the same date and type arrives twice, no date is published twice. */
  lemma {:induction false} PublishedOnce(n: nat, entries: nat, fs: seq<Arrival>)
    requires 0 < n && 0 < entries <= FNAME_MAX && ValidArrivals(fs, entries)
    requires OncePerType(CollectAll(n, entries, fs))
    ensures PublishedSeen(CollectAll(n, entries, fs), entries)
  {
    if fs == [] {
    } else {
      var b := CollectAll(n, entries, fs[..|fs| - 1]);
      OncePerTypeBefore(b, fs[|fs| - 1], entries);
      PublishedOnce(n, entries, fs[..|fs| - 1]);
      CollectPublishes(b, fs[|fs| - 1], entries);
    }
  }

  /** With a single sync type nothing is ever published: a new date is stored without the check. */
  lemma {:induction false} SingleTypeNeverPublishes(n: nat, fs: seq<Arrival>)
    requires 0 < n && ValidArrivals(fs, 1)
    ensures CollectAll(n, 1, fs).published == []
  {
    if fs == [] {
    } else {
      var b := CollectAll(n, 1, fs[..|fs| - 1]);
      var a := fs[|fs| - 1];
      SingleTypeNeverPublishes(n, fs[..|fs| - 1]);
      if a.File? && Target(b, a.path.date).Some? {
        var e := b.slots[Target(b, a.path.date).value];
        assert e.fname != NO_NAMES && e.fname[1].None? && e.fname[2].None?;
        assert e.fname[0].None? ==> e.fname == NO_NAMES;
      }
    }
  }
}
