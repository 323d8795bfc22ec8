/**
 Which dates are published, by the order of arrival alone.  As long as each file is of a date close
 enough to that of the file before it, and dates are started one after the other, no date is started
 twice; and a file that is too far from its predecessor costs its date the publication.
*/
module ArrivalOrder {
  import opened Wrappers
  import opened HistoryLog
  import opened Collector
  import opened Publishing
  import R = HistoryRing
  import Modulo

  /** The dates of the files, in the order of arrival. */
  function Dates(fs: seq<Arrival>): (r: seq<nat>)
    ensures forall i :: 0 <= i < |fs| && fs[i].File? ==> fs[i].path.date in r
  {
    if fs == [] then []
    else
      var a := fs[|fs| - 1];
      Dates(fs[..|fs| - 1]) + if a.File? then [a.path.date] else []
  }

  /** The dates without repetitions, behind a 0 for the time before the first one. */
  function Started(ds: seq<nat>): (st: seq<nat>)
    ensures |st| > 0 && st[0] == 0
    ensures forall i :: 0 <= i < |ds| ==> ds[i] in st
  {
    if ds == [] then [0]
    else
      var st := Started(ds[..|ds| - 1]);
      if ds[|ds| - 1] in st then st else st + [ds[|ds| - 1]]
  }

  /** The date of the last file. */
  function Latest(ds: seq<nat>): nat {
    if ds == [] then 0 else ds[|ds| - 1]
  }

  /**
   Date number `r` can be continued after a file of date number `c`: it is the same date, the next
   one, or one of the two before among the last `n`; or it is the oldest of the last `n` dates and
   `c` the newest.
  */
  predicate Near(m: nat, n: nat, c: nat, r: nat) {
    r == c || r == c + 1 || (m - n <= r < c <= r + 2) || (c + 1 == m && r == m - n)
  }

  /** A file of a known date `d` may follow one of date `p`. */
  ghost predicate Follows(st: seq<nat>, n: nat, p: nat, d: nat) {
    exists c: nat, r: nat :: c < |st| && r < |st| && st[c] == p && st[r] == d && Near(|st|, n, c, r)
  }

  /** A condition on the order of arrival: known dates follow closely, new ones follow the newest. */
  ghost predicate Steady(n: nat, ds: seq<nat>) {
    if ds == [] then true
    else
      var init, d := ds[..|ds| - 1], ds[|ds| - 1];
      var st := Started(init);
      && Steady(n, init)
      && if d in st then Follows(st, n, Latest(init), d)
         else st[|st| - 1] == Latest(init) && d > Latest(init)
  }

  // ----- Where the dates are -----

  ghost predicate Rising(st: seq<nat>) {
    |st| > 0 && st[0] == 0 && forall i, j :: 0 <= i < j < |st| ==> st[i] < st[j]
  }

  /** The dates as entries of a log, so that what is known about its slots can be used. */
  function Log(st: seq<nat>): (r: seq<Entry>)
    ensures |r| == |st| && forall i :: 0 <= i < |r| ==> r[i] == Entry(st[i], NO_NAMES)
  {
    seq(|st|, i requires 0 <= i < |st| => Entry(st[i], NO_NAMES))
  }

  /** Slot number i mod n has date number i, for the last `n` dates; the current slot has date number `c`. */
  ghost predicate Track(h: Hist, st: seq<nat>, n: nat, c: nat) {
    && Shape(h) && Rising(st) && |h.slots| == n && |st| - n <= c < |st| && h.cur == c % n
    && forall s :: 0 <= s < n ==> h.slots[s].date == R.SlotAt(Log(st), n, s).date
  }

  /** A date is in a slot exactly if it is among the last `n`, and then in its own. */
  lemma DateSits(h: Hist, st: seq<nat>, n: nat, c: nat, r: nat, s: nat)
    requires Track(h, st, n, c) && 0 < r < |st| && s < n
    ensures h.slots[s].date == st[r] <==> |st| - n <= r && s == r % n
  {
    R.SlotIndexRange(|st|, n, s);
    if |st| - n <= r && s == r % n {
      R.SlotHolds(Log(st), n, r);
    }
    if h.slots[s].date == st[r] {
      var i := R.SlotIndex(|st|, n, s);
      assert 0 <= i && st[i] == st[r];
      assert i == r;
    }
  }

  /** The slots around the current one, by date number. */
  lemma Neighbours(h: Hist, st: seq<nat>, n: nat, c: nat)
    requires Track(h, st, n, c)
    ensures (h.cur + 1) % n == (c + 1) % n
    ensures (h.cur + n - 1) % n == (c - 1) % n && (h.cur + n - 2) % n == (c - 2) % n
  {
    Modulo.Next(c, n);
    Modulo.Back(c, n, 1);
    Modulo.Back(c, n, 2);
  }

  lemma NextSlot(m: nat, n: nat, c: nat, r: nat)
    requires 0 < n && m - n <= c < m && m - n <= r < m
    ensures r % n == (c + 1) % n <==> r == c + 1 || (c + 1 == m && r == m - n)
  {
    if c + 1 < m {
      if r % n == (c + 1) % n {
        Modulo.SameSlot(r, c + 1, n);
      }
      if n == 1 {
        assert false;
      }
    } else {
      Modulo.Shift(m - n, n, 1);
      if r % n == (c + 1) % n {
        Modulo.SameSlot(r, m - n, n);
      }
    }
  }

  lemma EarlierSlot(m: nat, n: nat, c: nat, r: nat, k: nat)
    requires 0 < n && m - n <= c < m && m - n <= r < c && 1 <= k <= 2
    ensures r % n == (c - k) % n <==> r == c - k
  {
    if r % n == (c - k) % n {
      Modulo.SameSlot(r, c - k, n);
    }
  }

  /** A date that was started is out of reach exactly if it is not near. */
  lemma NearIsInReach(h: Hist, st: seq<nat>, n: nat, c: nat, r: nat)
    requires Track(h, st, n, c) && 0 < r < |st|
    ensures OutOfReach(h, st[r]) <==> !Near(|st|, n, c, r)
  {
    var m := |st|;
    Neighbours(h, st, n, c);
    R.SlotHolds(Log(st), n, c);
    assert h.slots[h.cur].date == st[c];
    DateSits(h, st, n, c, r, (c + 1) % n);
    if m - n <= r {
      NextSlot(m, n, c, r);
    }
    if r < c {
      DateSits(h, st, n, c, r, (c - 1) % n);
      DateSits(h, st, n, c, r, (c - 2) % n);
      if m - n <= r {
        EarlierSlot(m, n, c, r, 1);
        EarlierSlot(m, n, c, r, 2);
      }
    }
  }

  // ----- One file -----

  /** A file of a date in reach joins its slot, which becomes the current one. */
  lemma JoinKeepsTrack(h: Hist, st: seq<nat>, n: nat, c: nat, r: nat, path: Path, entries: nat)
    requires Track(h, st, n, c) && 0 < r < |st| && st[r] == path.date && Near(|st|, n, c, r)
    requires 0 <= path.kind < entries <= FNAME_MAX
    ensures Track(Collect(h, File(path), entries), st, n, r)
  {
    NearIsInReach(h, st, n, c, r);
    NoTarget(h, path.date);
    DateSits(h, st, n, c, r, Target(h, path.date).value);
    AddJoins(h, Target(h, path.date).value, path, entries);
  }

  lemma OlderDates(h: Hist, st: seq<nat>, n: nat, c: nat, d: nat)
    requires Track(h, st, n, c) && d > st[|st| - 1]
    ensures forall s :: 0 <= s < n ==> h.slots[s].date < d
  {
    forall s | 0 <= s < n
      ensures h.slots[s].date < d
    {
      R.SlotIndexRange(|st|, n, s);
    }
  }

  /** A date newer than all others is started in the next slot. */
  lemma NewDateStarts(h: Hist, path: Path, entries: nat)
    requires Shape(h) && 0 <= path.kind < entries <= FNAME_MAX
    requires forall s :: 0 <= s < |h.slots| ==> h.slots[s].date < path.date
    ensures
      var r, s := Collect(h, File(path), entries), (h.cur + 1) % |h.slots|;
      && Shape(r) && |r.slots| == |h.slots| && r.cur == s
      && forall u :: 0 <= u < |h.slots| ==> r.slots[u].date == if u == s then path.date else h.slots[u].date
  {
    FileMovesOn(h, path, entries);
  }

  lemma TrackMore(st: seq<nat>, n: nat, d: nat, s: nat)
    requires s < n && |st| > 0
    ensures
      R.SlotAt(Log(st + [d]), n, s).date == if s == |st| % n then d else R.SlotAt(Log(st), n, s).date
  {
    assert Log(st + [d]) == Log(st) + [Entry(d, NO_NAMES)];
    R.SlotAppend(Log(st), n, Entry(d, NO_NAMES), s);
  }

  /** A new date that follows the newest one gets the next slot. */
  lemma StartKeepsTrack(h: Hist, st: seq<nat>, n: nat, c: nat, path: Path, entries: nat)
    requires Track(h, st, n, c) && c == |st| - 1 && path.date > st[c]
    requires 0 <= path.kind < entries <= FNAME_MAX
    ensures Track(Collect(h, File(path), entries), st + [path.date], n, c + 1)
  {
    OlderDates(h, st, n, c, path.date);
    NewDateStarts(h, path, entries);
    Neighbours(h, st, n, c);
    forall s | 0 <= s < n {
      TrackMore(st, n, path.date, s);
    }
  }

  // ----- Whole runs -----

  lemma {:induction false} PutsAreFiles(n: nat, entries: nat, fs: seq<Arrival>)
    requires 0 < n && entries <= FNAME_MAX && ValidArrivals(fs, entries)
    ensures
      var h := CollectAll(n, entries, fs);
      |h.puts| == |Dates(fs)| && forall i :: 0 <= i < |h.puts| ==> h.puts[i].date == Dates(fs)[i]
  {
    if fs == [] {
    } else {
      PutsAreFiles(n, entries, fs[..|fs| - 1]);
    }
  }

  /** The dates of which a file has arrived are those that were started. */
  lemma SeenIsStarted(n: nat, entries: nat, fs: seq<Arrival>, d: nat)
    requires 0 < n && entries <= FNAME_MAX && ValidArrivals(fs, entries) && d != 0
    ensures SeenDate(CollectAll(n, entries, fs), d, entries) <==> d in Started(Dates(fs))
  {
    PutsAreFiles(n, entries, fs);
    var h, ds := CollectAll(n, entries, fs), Dates(fs);
    if SeenDate(h, d, entries) {
      var t :| 0 <= t < entries && Seen(h, d, t);
      var i :| 0 <= i < |h.puts| && h.puts[i].date == d;
      assert ds[i] == d;
    }
    if d in Started(ds) {
      StartedIsDate(ds, d);
      var i :| 0 <= i < |ds| && ds[i] == d;
      KindInRange(n, entries, fs, i);
      assert Seen(h, d, h.puts[i].kind);
    }
  }

  lemma {:induction false} StartedIsDate(ds: seq<nat>, d: nat)
    requires d in Started(ds) && d != 0
    ensures d in ds
  {
    if ds == [] {
    } else if d != ds[|ds| - 1] {
      StartedIsDate(ds[..|ds| - 1], d);
    }
  }

  lemma {:induction false} KindInRange(n: nat, entries: nat, fs: seq<Arrival>, i: nat)
    requires 0 < n && entries <= FNAME_MAX && ValidArrivals(fs, entries) && i < |CollectAll(n, entries, fs).puts|
    ensures 0 <= CollectAll(n, entries, fs).puts[i].kind < entries
  {
    if fs == [] {
    } else if i < |CollectAll(n, entries, fs[..|fs| - 1]).puts| {
      KindInRange(n, entries, fs[..|fs| - 1], i);
    }
  }

  lemma LastStep(st: seq<nat>, h: Hist, n: nat, c: nat, path: Path, entries: nat) returns (c': nat)
    requires Track(h, st, n, c) && 0 <= path.kind < entries <= FNAME_MAX && path.date != 0
    requires if path.date in st then Follows(st, n, st[c], path.date) else st[|st| - 1] == st[c] && path.date > st[c]
    ensures
      var st' := if path.date in st then st else st + [path.date];
      c' < |st'| && st'[c'] == path.date && Track(Collect(h, File(path), entries), st', n, c')
    ensures path.date in st ==> !OutOfReach(h, path.date)
  {
    if path.date in st {
      var c1: nat, r: nat :| c1 < |st| && r < |st| && st[c1] == st[c] && st[r] == path.date && Near(|st|, n, c1, r);
      assert c1 == c;
      NearIsInReach(h, st, n, c, r);
      JoinKeepsTrack(h, st, n, c, r, path, entries);
      c' := r;
    } else {
      assert c == |st| - 1;
      StartKeepsTrack(h, st, n, c, path, entries);
      c' := c + 1;
    }
  }

  lemma EmptyTrack(n: nat)
    requires 0 < n
    ensures Track(Init(n), [0], n, 0)
  {
    Modulo.Small(0, n);
    forall s | 0 <= s < n {
      R.SlotIndexRange(1, n, s);
    }
  }

  /** In a steady run the last dates are in their slots, and no date was started again. */
  lemma {:induction false} SteadyTrack(n: nat, entries: nat, fs: seq<Arrival>, d: nat) returns (c: nat)
    requires 0 < n && entries <= FNAME_MAX && ValidArrivals(fs, entries) && d != 0 && Steady(n, Dates(fs))
    ensures c < |Started(Dates(fs))| && Started(Dates(fs))[c] == Latest(Dates(fs))
    ensures Track(CollectAll(n, entries, fs), Started(Dates(fs)), n, c) && !Restarted(n, entries, fs, d)
  {
    if fs == [] {
      EmptyTrack(n);
      c := 0;
    } else {
      var init, a := fs[..|fs| - 1], fs[|fs| - 1];
      if a.File? {
        assert Dates(fs)[..|Dates(fs)| - 1] == Dates(init);
        c := SteadyTrack(n, entries, init, d);
        SeenIsStarted(n, entries, init, a.path.date);
        c := LastStep(Started(Dates(init)), CollectAll(n, entries, init), n, c, a.path, entries);
      } else {
        assert Dates(fs) == Dates(init);
        c := SteadyTrack(n, entries, init, d);
        OtherArrivals(CollectAll(n, entries, init), a, entries);
      }
    }
  }

  /** In a steady run a date is published if and only if all its types arrived. */
  lemma SteadyPublishesAll(n: nat, entries: nat, fs: seq<Arrival>, d: nat)
    requires 0 < n && 2 <= entries <= FNAME_MAX && ValidArrivals(fs, entries) && d != 0
    requires OncePerType(CollectAll(n, entries, fs)) && Steady(n, Dates(fs))
    ensures d in CollectAll(n, entries, fs).published <==> AllSeen(CollectAll(n, entries, fs), d, entries)
  {
    var c := SteadyTrack(n, entries, fs, d);
    PublishedExactly(n, entries, fs, d);
  }

  /** After a steady run, a file of a known date starts it again exactly if it does not follow closely. */
  lemma RestartsExactly(n: nat, entries: nat, fs: seq<Arrival>, a: Arrival)
    requires 0 < n && entries <= FNAME_MAX && ValidArrivals(fs, entries) && Steady(n, Dates(fs))
    requires a.File? && ValidArrival(a, entries) && a.path.date in Started(Dates(fs))
    ensures
      Restarts(CollectAll(n, entries, fs), a, a.path.date, entries)
      <==> !Follows(Started(Dates(fs)), n, Latest(Dates(fs)), a.path.date)
  {
    var h, st, d := CollectAll(n, entries, fs), Started(Dates(fs)), a.path.date;
    var c := SteadyTrack(n, entries, fs, d);
    SeenIsStarted(n, entries, fs, d);
    var r :| 0 <= r < |st| && st[r] == d;
    NearIsInReach(h, st, n, c, r);
    if Follows(st, n, st[c], d) {
      var c1: nat, r1: nat :| c1 < |st| && r1 < |st| && st[c1] == st[c] && st[r1] == d && Near(|st|, n, c1, r1);
      assert c1 == c && r1 == r;
    }
  }

  lemma {:induction false} RestartedStays(n: nat, entries: nat, fs: seq<Arrival>, k: nat, d: nat)
    requires 0 < n && entries <= FNAME_MAX && ValidArrivals(fs, entries) && k <= |fs|
    requires Restarted(n, entries, fs[..k], d)
    ensures Restarted(n, entries, fs, d)
  {
    if k == |fs| {
      assert fs[..k] == fs;
    } else {
      assert fs[..|fs| - 1][..k] == fs[..k];
      RestartedStays(n, entries, fs[..|fs| - 1], k, d);
    }
  }

  /**
   A file of a known date that does not follow closely, after a steady run, costs its date: it is not
   published, whatever else arrives.
  */
  lemma TooFarIsLost(n: nat, entries: nat, fs: seq<Arrival>, k: nat)
    requires 0 < n && 2 <= entries <= FNAME_MAX && ValidArrivals(fs, entries) && k < |fs| && fs[k].File?
    requires OncePerType(CollectAll(n, entries, fs)) && Steady(n, Dates(fs[..k]))
    requires fs[k].path.date in Started(Dates(fs[..k]))
    requires !Follows(Started(Dates(fs[..k])), n, Latest(Dates(fs[..k])), fs[k].path.date)
    ensures fs[k].path.date !in CollectAll(n, entries, fs).published
  {
    var d, upTo := fs[k].path.date, fs[..k + 1];
    RestartsExactly(n, entries, fs[..k], fs[k]);
    assert upTo[..|upTo| - 1] == fs[..k];
    RestartedStays(n, entries, fs, k + 1, d);
    PublishedExactly(n, entries, fs, d);
  }
}
