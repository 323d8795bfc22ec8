/**
 Which dates the collector publishes.  A date is lost exactly if it is started a second time: one of
 its files arrives when the slot that has the earlier ones is out of reach.
*/
module Publishing {
  import opened Wrappers
  import opened HistoryLog
  import opened Collector

  /** Some file of the date has arrived. */
  ghost predicate SeenDate(h: Hist, d: nat, entries: nat) {
    exists t :: 0 <= t < entries && Seen(h, d, t)
  }

  /**
   Neither the current slot nor the next one has the date, and, if it is older than the current one,
   neither do the two slots before.
  */
  ghost predicate OutOfReach(h: Hist, d: nat)
    requires Shape(h)
  {
    var n, c := |h.slots|, h.cur;
    && h.slots[c].date != d && h.slots[(c + 1) % n].date != d
    && (d < h.slots[c].date ==> h.slots[(c + n - 1) % n].date != d && h.slots[(c + n - 2) % n].date != d)
  }

  lemma NoTarget(h: Hist, d: nat)
    requires Shape(h)
    ensures OutOfReach(h, d) <==> Target(h, d).None?
  {
    Around(|h.slots|, h.cur);
  }

  /** The file starts its date although the date was started before; known before the call. */
  ghost predicate Restarts(h: Hist, a: Arrival, d: nat, entries: nat)
    requires Shape(h)
  {
    a.File? && a.path.date == d && SeenDate(h, d, entries) && OutOfReach(h, d)
  }

  /** Date `d` was started again by one of the files. */
  ghost predicate Restarted(n: nat, entries: nat, fs: seq<Arrival>, d: nat)
    requires 0 < n && entries <= FNAME_MAX && ValidArrivals(fs, entries)
  {
    if fs == [] then false
    else
      var init := fs[..|fs| - 1];
      Restarted(n, entries, init, d) || Restarts(CollectAll(n, entries, init), fs[|fs| - 1], d, entries)
  }

  // ----- One date through one call -----

  /** The date is collected in one place. */
  ghost predicate InOnePlace(h: Hist, d: nat, entries: nat)
    requires ThreeNames(h.slots) && entries <= FNAME_MAX
  {
    && (forall s, u :: 0 <= s < u < |h.slots| ==> h.slots[s].date != d || h.slots[u].date != d)
    && (forall s, t :: 0 <= s < |h.slots| && h.slots[s].date == d && 0 <= t < entries ==>
                         (h.slots[s].fname[t].Some? <==> Seen(h, d, t)))
    && (d in h.published <==> AllSeen(h, d, entries))
  }

  /** A file of a type that came before is missing in the slot. */
  ghost predicate Lacks(h: Hist, d: nat, entries: nat, e: Entry)
    requires |e.fname| == FNAME_MAX && entries <= FNAME_MAX
  {
    exists t :: 0 <= t < entries && Seen(h, d, t) && e.fname[t].None?
  }

  /** The files of the date are in several places, or partly gone. */
  ghost predicate Scattered(h: Hist, d: nat, entries: nat)
    requires ThreeNames(h.slots) && entries <= FNAME_MAX
  {
    && SeenDate(h, d, entries) && d !in h.published
    && forall s :: 0 <= s < |h.slots| && h.slots[s].date == d ==> Lacks(h, d, entries, h.slots[s])
  }

  lemma SeenAfter(h: Hist, a: Arrival, entries: nat)
    requires Grouped(h, entries) && ValidArrival(a, entries)
    ensures forall d, k :: Seen(Collect(h, a, entries), d, k)
                           <==> Seen(h, d, k) || (a.File? && a.path.date == d && a.path.kind == k)
  {
    forall d: nat, k: int
      ensures Seen(Collect(h, a, entries), d, k)
              <==> Seen(h, d, k) || (a.File? && a.path.date == d && a.path.kind == k)
    {
      SeenGrows(h, a, entries, d, k);
    }
  }

  /** A used slot has a file of its date that has arrived. */
  lemma UsedIsSeen(h: Hist, d: nat, entries: nat, s: nat)
    requires Grouped(h, entries) && s < |h.slots| && h.slots[s].date == d != 0
    ensures SeenDate(h, d, entries)
  {
    var f := h.slots[s].fname;
    assert f != NO_NAMES;
    var t :| 0 <= t < FNAME_MAX && f[t].Some?;
    assert Seen(h, d, t);
  }

  /** Other dates: their slots can only be lost, and nothing of them is published. */
  lemma OtherDate(h: Hist, a: Arrival, entries: nat, d: nat)
    requires Grouped(h, entries) && ValidArrival(a, entries) && d != 0 && (a.File? ==> a.path.date != d)
    ensures
      var r := Collect(h, a, entries);
      && Grouped(r, entries) && |r.slots| == |h.slots|
      && (forall s :: 0 <= s < |r.slots| && r.slots[s].date == d ==> r.slots[s] == h.slots[s])
      && (d in r.published <==> d in h.published)
      && (forall k :: Seen(r, d, k) <==> Seen(h, d, k))
  {
    CollectGrouped(h, a, entries);
    SeenAfter(h, a, entries);
  }

  lemma OtherOnePlace(h: Hist, a: Arrival, entries: nat, d: nat)
    requires Grouped(h, entries) && ValidArrival(a, entries) && d != 0 && (a.File? ==> a.path.date != d)
    requires InOnePlace(h, d, entries)
    ensures Grouped(Collect(h, a, entries), entries) && InOnePlace(Collect(h, a, entries), d, entries)
  {
    OtherDate(h, a, entries, d);
    assert AllSeen(Collect(h, a, entries), d, entries) <==> AllSeen(h, d, entries);
  }

  lemma OtherScattered(h: Hist, a: Arrival, entries: nat, d: nat)
    requires Grouped(h, entries) && ValidArrival(a, entries) && d != 0 && (a.File? ==> a.path.date != d)
    requires Scattered(h, d, entries)
    ensures Grouped(Collect(h, a, entries), entries) && Scattered(Collect(h, a, entries), d, entries)
  {
    var r := Collect(h, a, entries);
    OtherDate(h, a, entries, d);
    var t :| 0 <= t < entries && Seen(h, d, t);
    assert Seen(r, d, t);
    forall s | 0 <= s < |r.slots| && r.slots[s].date == d
      ensures Lacks(r, d, entries, r.slots[s])
    {
      assert Lacks(h, d, entries, h.slots[s]);
      var u :| 0 <= u < entries && Seen(h, d, u) && h.slots[s].fname[u].None?;
      assert Seen(r, d, u);
    }
  }

  /** A file that is added to a slot of its date. */
  lemma AddOnePlace(h: Hist, a: Arrival, entries: nat)
    requires Grouped(h, entries) && ValidArrival(a, entries) && a.File? && Target(h, a.path.date).Some?
    requires !Seen(h, a.path.date, a.path.kind) && InOnePlace(h, a.path.date, entries)
    ensures
      var r := Collect(h, a, entries);
      Grouped(r, entries) && InOnePlace(r, a.path.date, entries)
  {
    var r, d, t := Collect(h, a, entries), a.path.date, a.path.kind;
    var s := Target(h, d).value;
    CollectGrouped(h, a, entries);
    SeenAfter(h, a, entries);
    assert r.slots[s].fname == h.slots[s].fname[t := Some(a.path)];
    assert Complete(r.slots[s], entries) <==> AllSeen(r, d, entries) by {
      assert forall k :: 0 <= k < entries ==> (r.slots[s].fname[k].Some? <==> Seen(r, d, k));
    }
    assert !AllSeen(h, d, entries);
    assert r.published == h.published + if Complete(r.slots[s], entries) then [d] else [];
  }

  lemma AddScattered(h: Hist, a: Arrival, entries: nat)
    requires Grouped(h, entries) && ValidArrival(a, entries) && a.File? && Target(h, a.path.date).Some?
    requires !Seen(h, a.path.date, a.path.kind) && Scattered(h, a.path.date, entries)
    ensures
      var r := Collect(h, a, entries);
      Grouped(r, entries) && Scattered(r, a.path.date, entries)
  {
    var r, d, k := Collect(h, a, entries), a.path.date, a.path.kind;
    var s := Target(h, d).value;
    CollectGrouped(h, a, entries);
    SeenAfter(h, a, entries);
    forall u | 0 <= u < |r.slots| && r.slots[u].date == d
      ensures Lacks(r, d, entries, r.slots[u])
    {
      assert Lacks(h, d, entries, h.slots[u]);
      var t :| 0 <= t < entries && Seen(h, d, t) && h.slots[u].fname[t].None?;
      assert Seen(r, d, t) && r.slots[u].fname[t].None?;
    }
    assert Lacks(r, d, entries, r.slots[s]);
    assert r.published == h.published;
    assert SeenDate(r, d, entries) by {
      assert Seen(r, d, k);
    }
  }

  /** A date that is started for the first time is in one place. */
  lemma StartOnePlace(h: Hist, a: Arrival, entries: nat)
    requires Grouped(h, entries) && ValidArrival(a, entries) && a.File? && Target(h, a.path.date).None?
    requires 2 <= entries && !SeenDate(h, a.path.date, entries) && InOnePlace(h, a.path.date, entries)
    ensures
      var r := Collect(h, a, entries);
      Grouped(r, entries) && InOnePlace(r, a.path.date, entries)
  {
    var r, d, k := Collect(h, a, entries), a.path.date, a.path.kind;
    CollectGrouped(h, a, entries);
    SeenAfter(h, a, entries);
    forall s | 0 <= s < |h.slots|
      ensures h.slots[s].date != d
    {
      if h.slots[s].date == d {
        UsedIsSeen(h, d, entries, s);
      }
    }
    var other := if k == 0 then 1 else 0;
    assert !Seen(h, d, other) && !Seen(r, d, other);
    assert !AllSeen(h, d, entries) && !AllSeen(r, d, entries) && r.published == h.published;
    assert r.slots[r.cur].fname == NO_NAMES[k := Some(a.path)];
  }

  /** A date that is started again is scattered from then on. */
  lemma StartScattered(h: Hist, a: Arrival, entries: nat)
    requires Grouped(h, entries) && ValidArrival(a, entries) && a.File? && Restarts(h, a, a.path.date, entries)
    requires !Seen(h, a.path.date, a.path.kind)
    requires InOnePlace(h, a.path.date, entries) || Scattered(h, a.path.date, entries)
    ensures
      var r := Collect(h, a, entries);
      Grouped(r, entries) && Scattered(r, a.path.date, entries)
  {
    var r, d, k := Collect(h, a, entries), a.path.date, a.path.kind;
    NoTarget(h, d);
    CollectGrouped(h, a, entries);
    SeenAfter(h, a, entries);
    var t0 :| 0 <= t0 < entries && Seen(h, d, t0);
    assert Seen(r, d, t0) && Seen(r, d, k);
    assert r.slots[r.cur].fname == NO_NAMES[k := Some(a.path)];
    assert !AllSeen(h, d, entries) && r.published == h.published;
    forall u | 0 <= u < |r.slots| && r.slots[u].date == d
      ensures Lacks(r, d, entries, r.slots[u])
    {
      if u == r.cur {
        assert r.slots[u].fname[t0].None?;
      } else if InOnePlace(h, d, entries) {
        assert r.slots[u] == h.slots[u] && r.slots[u].fname[k].None?;
      } else {
        assert Lacks(h, d, entries, h.slots[u]);
        var t :| 0 <= t < entries && Seen(h, d, t) && h.slots[u].fname[t].None?;
        assert Seen(r, d, t);
      }
    }
  }

  /** One call: the date stays in one place unless this file starts it again. */
  lemma CollectPlaces(h: Hist, a: Arrival, entries: nat, d: nat)
    requires Grouped(h, entries) && ValidArrival(a, entries) && 2 <= entries && d != 0
    requires OncePerType(Collect(h, a, entries))
    ensures Grouped(Collect(h, a, entries), entries)
    ensures
      InOnePlace(h, d, entries) && !Restarts(h, a, d, entries) ==> InOnePlace(Collect(h, a, entries), d, entries)
    ensures
      Scattered(h, d, entries) || (InOnePlace(h, d, entries) && Restarts(h, a, d, entries)) ==>
        Scattered(Collect(h, a, entries), d, entries)
  {
    CollectGrouped(h, a, entries);
    OncePerTypeBefore(h, a, entries);
    NoTarget(h, d);
    if !a.File? || a.path.date != d {
      if InOnePlace(h, d, entries) {
        OtherOnePlace(h, a, entries, d);
      }
      if Scattered(h, d, entries) {
        OtherScattered(h, a, entries, d);
      }
    } else if Target(h, d).Some? {
      if InOnePlace(h, d, entries) {
        AddOnePlace(h, a, entries);
      }
      if Scattered(h, d, entries) {
        AddScattered(h, a, entries);
      }
    } else if SeenDate(h, d, entries) {
      if InOnePlace(h, d, entries) || Scattered(h, d, entries) {
        StartScattered(h, a, entries);
      }
    } else if InOnePlace(h, d, entries) {
      StartOnePlace(h, a, entries);
    }
  }

  // ----- Whole runs -----

  lemma {:induction false} Places(n: nat, entries: nat, fs: seq<Arrival>, d: nat)
    requires 0 < n && 2 <= entries <= FNAME_MAX && ValidArrivals(fs, entries) && d != 0
    requires OncePerType(CollectAll(n, entries, fs))
    ensures
      if Restarted(n, entries, fs, d) then Scattered(CollectAll(n, entries, fs), d, entries)
      else InOnePlace(CollectAll(n, entries, fs), d, entries)
  {
    if fs == [] {
      assert !Seen(Init(n), d, 0);
    } else {
      var init := fs[..|fs| - 1];
      var b := CollectAll(n, entries, init);
      OncePerTypeBefore(b, fs[|fs| - 1], entries);
      Places(n, entries, init, d);
      CollectPlaces(b, fs[|fs| - 1], entries, d);
    }
  }

  /**
   With at least two sync types and no file twice, a date is published if and only if all its types
   arrived and none of its files started it again.
  */
  lemma PublishedExactly(n: nat, entries: nat, fs: seq<Arrival>, d: nat)
    requires 0 < n && 2 <= entries <= FNAME_MAX && ValidArrivals(fs, entries) && d != 0
    requires OncePerType(CollectAll(n, entries, fs))
    ensures
      var h := CollectAll(n, entries, fs);
      d in h.published <==> AllSeen(h, d, entries) && !Restarted(n, entries, fs, d)
  {
    Places(n, entries, fs, d);
  }

  // ----- Files in date order -----

  ghost predicate DateOrder(h: Hist) {
    forall i, j :: 0 <= i < j < |h.puts| ==> h.puts[i].date <= h.puts[j].date
  }

  lemma DateOrderBefore(h: Hist, a: Arrival, entries: nat)
    requires Grouped(h, entries) && ValidArrival(a, entries) && DateOrder(Collect(h, a, entries))
    ensures DateOrder(h)
    ensures a.File? ==> forall i :: 0 <= i < |h.puts| ==> h.puts[i].date <= a.path.date
  {
    var r := Collect(h, a, entries);
    assert forall i :: 0 <= i < |h.puts| ==> r.puts[i] == h.puts[i];
    if a.File? {
      assert r.puts[|h.puts|] == a.path;
    }
  }

  /** The current slot is that of the last file. */
  ghost predicate LastIsCurrent(h: Hist)
    requires Shape(h)
  {
    h.puts != [] ==> h.slots[h.cur].date == h.puts[|h.puts| - 1].date
  }

  /** If no file that came is of a newer date, a date that was started is the current one. */
  lemma SeenIsCurrent(h: Hist, d: nat, entries: nat)
    requires Shape(h) && LastIsCurrent(h) && DateOrder(h) && SeenDate(h, d, entries)
    requires forall i :: 0 <= i < |h.puts| ==> h.puts[i].date <= d
    ensures Target(h, d) == Some(h.cur)
  {
    var t :| 0 <= t < entries && Seen(h, d, t);
    var i :| 0 <= i < |h.puts| && h.puts[i].date == d;
    assert h.puts[i].date <= h.puts[|h.puts| - 1].date;
  }

  lemma NextInOrder(h: Hist, a: Arrival, entries: nat, d: nat)
    requires Grouped(h, entries) && ValidArrival(a, entries) && DateOrder(Collect(h, a, entries))
    requires LastIsCurrent(h)
    ensures Shape(Collect(h, a, entries)) && LastIsCurrent(Collect(h, a, entries)) && !Restarts(h, a, d, entries)
  {
    CollectGrouped(h, a, entries);
    DateOrderBefore(h, a, entries);
    NoTarget(h, d);
    if a.File? && SeenDate(h, a.path.date, entries) {
      SeenIsCurrent(h, a.path.date, entries);
    }
  }

  /** In date order no file starts its date again. */
  lemma {:induction false} InOrderNeverRestarts(n: nat, entries: nat, fs: seq<Arrival>, d: nat)
    requires 0 < n && entries <= FNAME_MAX && ValidArrivals(fs, entries)
    requires DateOrder(CollectAll(n, entries, fs))
    ensures LastIsCurrent(CollectAll(n, entries, fs)) && !Restarted(n, entries, fs, d)
  {
    if fs == [] {
      assert CollectAll(n, entries, fs) == Init(n);
    } else {
      var init, a := fs[..|fs| - 1], fs[|fs| - 1];
      var b := CollectAll(n, entries, init);
      DateOrderBefore(b, a, entries);
      InOrderNeverRestarts(n, entries, init, d);
      NextInOrder(b, a, entries, d);
    }
  }

  /** So with files in date order exactly the dates are published of which every type arrived. */
  lemma InOrderPublishesAll(n: nat, entries: nat, fs: seq<Arrival>, d: nat)
    requires 0 < n && 2 <= entries <= FNAME_MAX && ValidArrivals(fs, entries) && d != 0
    requires OncePerType(CollectAll(n, entries, fs)) && DateOrder(CollectAll(n, entries, fs))
    ensures d in CollectAll(n, entries, fs).published <==> AllSeen(CollectAll(n, entries, fs), d, entries)
  {
    InOrderNeverRestarts(n, entries, fs, d);
    PublishedExactly(n, entries, fs, d);
  }

  // ----- A late file can cost a complete set -----

  function F(date: nat, kind: int): Arrival {
    File(Path("f", date, kind))
  }

  /** A slot with one file. */
  function E(date: nat, kind: nat): Entry
    requires kind < FNAME_MAX
  {
    Entry(date, NO_NAMES[kind := Some(Path("f", date, kind))])
  }

  /** A slot with the files of the first two types. */
  function Both(date: nat): Entry {
    Entry(date, E(date, 0).fname[1 := Some(Path("f", date, 1))])
  }

  lemma Starts(h: Hist, date: nat, kind: nat)
    requires Shape(h) && date != 0 && kind < 2 && Target(h, date) == None
    requires h.slots[Succ(|h.slots|, h.cur)].date == 0 ==> h.slots[Succ(|h.slots|, h.cur)] == UNUSED
    ensures
      var s, r := Succ(|h.slots|, h.cur), Collect(h, F(date, kind), 2);
      && r.slots == h.slots[s := E(date, kind)] && r.cur == s && r.published == h.published
      && r.puts == h.puts + [F(date, kind).path]
  {
  }

  /** One more file at the end of a run. */
  lemma OneMore(n: nat, fs: seq<Arrival>, k: nat)
    requires 0 < n && k < |fs| && ValidArrivals(fs, 2)
    ensures ValidArrivals(fs[..k], 2) && ValidArrivals(fs[..k + 1], 2)
    ensures CollectAll(n, 2, fs[..k + 1]) == Collect(CollectAll(n, 2, fs[..k]), fs[k], 2)
  {
    assert fs[..k + 1][..k] == fs[..k];
  }

  /** After one file of type 0 for each of the first `k` multiples of ten. */
  ghost predicate Tens(h: Hist, n: nat, k: nat) {
    && |h.slots| == n && k < 4 <= n && h.cur == k && h.published == [] && |h.puts| == k
    && (forall i :: 0 <= i < n ==> h.slots[i] == if 1 <= i <= k then E(10 * i, 0) else UNUSED)
    && (forall i :: 0 <= i < k ==> h.puts[i] == F(10 * i + 10, 0).path)
  }

  lemma NextTen(h: Hist, n: nat, k: nat)
    requires Tens(h, n, k) && k < 3
    ensures Shape(h) && Tens(Collect(h, F(10 * k + 10, 0), 2), n, k + 1)
  {
    Starts(h, 10 * k + 10, 0);
  }

  lemma TenMore(n: nat, fs: seq<Arrival>, k: nat)
    requires 4 <= n && k < 3 && k < |fs| && ValidArrivals(fs, 2) && fs[k] == F(10 * k + 10, 0)
    requires ValidArrivals(fs[..k], 2) && Tens(CollectAll(n, 2, fs[..k]), n, k)
    ensures ValidArrivals(fs[..k + 1], 2) && Tens(CollectAll(n, 2, fs[..k + 1]), n, k + 1)
  {
    OneMore(n, fs, k);
    NextTen(CollectAll(n, 2, fs[..k]), n, k);
  }

  lemma {:induction false} ThreeDates(n: nat, fs: seq<Arrival>, k: nat)
    requires 4 <= n && k <= 3 && |fs| >= k && ValidArrivals(fs, 2)
    requires forall i :: 0 <= i < k ==> fs[i] == F(10 * i + 10, 0)
    ensures ValidArrivals(fs[..k], 2) && Tens(CollectAll(n, 2, fs[..k]), n, k)
  {
    if k == 0 {
      assert fs[..k] == [];
    } else {
      ThreeDates(n, fs, k - 1);
      TenMore(n, fs, k - 1);
    }
  }

  lemma LateThenLost(h: Hist, n: nat)
    requires Tens(h, n, 3)
    ensures
      var r := Collect(h, F(10, 1), 2);
      && Shape(r)
      && var t := Collect(r, F(30, 1), 2);
      && t.slots == h.slots[1 := Both(10)][2 := E(30, 1)] && t.published == [10]
      && t.puts == h.puts + [F(10, 1).path, F(30, 1).path]
  {
    var r := Collect(h, F(10, 1), 2);
    assert Target(h, 10) == Some(1);
    assert r.slots == h.slots[1 := Both(10)];
    assert Complete(Both(10), 2);
    Starts(r, 30, 1);
  }

  lemma FivePuts(h: Hist, t: Hist, n: nat)
    requires Tens(h, n, 3) && t.puts == h.puts + [F(10, 1).path, F(30, 1).path]
    ensures OncePerType(t) && AllSeen(t, 30, 2)
  {
    assert t.puts[2] == F(30, 0).path && t.puts[3] == F(10, 1).path && t.puts[4] == F(30, 1).path;
    assert Seen(t, 30, 0) && Seen(t, 30, 1);
  }

  lemma FiveFiles(n: nat, fs: seq<Arrival>, k: nat) returns (h: Hist)
    requires 4 <= n && |fs| == 5 && k == 3
    requires fs[0] == F(10, 0) && fs[1] == F(20, 0) && fs[2] == F(30, 0)
    requires fs[3] == F(10, 1) && fs[4] == F(30, 1)
    ensures ValidArrivals(fs, 2) && Tens(h, n, 3) && Shape(Collect(h, fs[3], 2))
    ensures CollectAll(n, 2, fs) == Collect(Collect(h, fs[3], 2), fs[4], 2)
  {
    ThreeDates(n, fs, k);
    h := CollectAll(n, 2, fs[..k]);
    LateThenLost(h, n);
    LastTwo(n, fs, k);
  }

  lemma LastTwo(n: nat, fs: seq<Arrival>, k: nat)
    requires 0 < n && k + 2 == |fs| && ValidArrivals(fs, 2)
    ensures ValidArrivals(fs[..k], 2)
    ensures CollectAll(n, 2, fs) == Collect(Collect(CollectAll(n, 2, fs[..k]), fs[k], 2), fs[k + 1], 2)
  {
    OneMore(n, fs, k);
    OneMore(n, fs, k + 1);
    assert fs[..k + 2] == fs;
  }

  /**
   In any ring of four or more slots: two files for each of the dates 10 and 30 arrive, none twice,
   yet date 30 is never published.  The late file moves the current slot back, and date 30 is started
   a second time.
  */
  lemma LateFileCostsSet(n: nat, fs: seq<Arrival>)
    requires 4 <= n && |fs| == 5
    requires fs[0] == F(10, 0) && fs[1] == F(20, 0) && fs[2] == F(30, 0)
    requires fs[3] == F(10, 1) && fs[4] == F(30, 1)
    ensures ValidArrivals(fs, 2)
    ensures
      var h := CollectAll(n, 2, fs);
      && h.published == [10] && OncePerType(h) && AllSeen(h, 30, 2) && Restarted(n, 2, fs, 30)
      && |h.slots| == n && h.slots[2] == E(30, 1) && h.slots[3] == E(30, 0)
  {
    var h := FiveFiles(n, fs, 3);
    LateThenLost(h, n);
    FivePuts(h, CollectAll(n, 2, fs), n);
    PublishedExactly(n, 2, fs, 30);
  }
}
