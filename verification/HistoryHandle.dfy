/**
 How long the consumer may use the head of the queue without holding the mutex, and what
 happens to a name that was stored in an emptied entry.
*/
module HistoryHandle {
  import opened Wrappers
  import opened HistoryLog
  import opened HistoryRing
  import opened HistoryNames

  /** One call of the producer. */
  datatype Arrival = Arrival(path: Path, dt: nat, tent: int)

  ghost predicate Dated(ps: seq<Arrival>) {
    forall i :: 0 <= i < |ps| ==> ps[i].dt != 0
  }

  /** The log after any number of puts. */
  function PutAll(l: Log, n: nat, ps: seq<Arrival>): (r: Log)
    requires ValidLog(l, n) && Dated(ps)
    ensures ValidLog(r, n)
  {
    if ps == [] then l
    else
      var a := ps[|ps| - 1];
      var b := PutAll(l, n, ps[..|ps| - 1]);
      PutValid(b, n, a.path, a.dt, a.tent);
      Put(b, n, a.path, a.dt, a.tent)
  }

  /** One put: at most one new entry, older entries keep their dates, evictions only from a full queue. */
  lemma PutGrows(l: Log, n: nat, a: Arrival)
    requires ValidLog(l, n) && a.dt != 0
    ensures
      var r := Put(l, n, a.path, a.dt, a.tent);
      && ValidLog(r, n)
      && |r.entries| == |l.entries| + (if InRange(a.tent) && a.dt > l.Newest() then 1 else 0)
      && (forall i :: 0 <= i < |l.entries| ==> r.entries[i].date == l.entries[i].date)
      && (if |r.entries| - l.removed <= n - KEEP_FILE_COUNT
          then r.removed == l.removed
          else r.removed == l.removed + 1 && r.Queued() == n - KEEP_FILE_COUNT)
      && r.evicted - l.evicted == r.removed - l.removed
  {
    PutValid(l, n, a.path, a.dt, a.tent);
  }

  /** Evictions start when the queue is full, and keep it full. */
  lemma {:induction false} PutAllGrows(l: Log, n: nat, ps: seq<Arrival>)
    requires ValidLog(l, n) && Dated(ps)
    ensures
      var r := PutAll(l, n, ps);
      && |l.entries| <= |r.entries|
      && (forall i :: 0 <= i < |l.entries| ==> r.entries[i].date == l.entries[i].date)
      && r.removed == (if |r.entries| - l.removed <= n - KEEP_FILE_COUNT
                       then l.removed else |r.entries| - (n - KEEP_FILE_COUNT))
  {
    if ps == [] {
    } else {
      PutAllGrows(l, n, ps[..|ps| - 1]);
      PutGrows(PutAll(l, n, ps[..|ps| - 1]), n, ps[|ps| - 1]);
    }
  }

  /** The number of new dates among the puts. */
  function NewDates(l: Log, n: nat, ps: seq<Arrival>): int
    requires ValidLog(l, n) && Dated(ps)
  {
    |PutAll(l, n, ps).entries| - |l.entries|
  }

  /** A put that neither retires entry `h` KEEP_FILE_COUNT deep nor reuses its slot keeps its names. */
  lemma PutKeepsNames(l: Log, n: nat, a: Arrival, h: nat, t: nat)
    requires ValidLog(l, n) && a.dt != 0 && h < |l.entries| && t < FNAME_MAX
    requires !Emptied(Put(l, n, a.path, a.dt, a.tent), h)
    requires l.entries[h].fname[t].Some?
    ensures h < |Put(l, n, a.path, a.dt, a.tent).entries|
    ensures |Put(l, n, a.path, a.dt, a.tent).entries[h].fname| == FNAME_MAX
    ensures Put(l, n, a.path, a.dt, a.tent).entries[h].fname[t].Some?
  {
    PutValid(l, n, a.path, a.dt, a.tent);
  }

  /**
   The handle returned by `histget` while `q` entries are queued: the head is emptied exactly
   when n - q new dates have arrived, and until then its slot keeps its date and all its names.
  */
  lemma {:induction false} HandleSafe(l: Log, n: nat, ps: seq<Arrival>)
    requires ValidLog(l, n) && Dated(ps) && l.Queued() > 0
    ensures
      var r := PutAll(l, n, ps);
      && (Emptied(r, l.removed) <==> NewDates(l, n, ps) >= n - l.Queued())
      && (NewDates(l, n, ps) < n - l.Queued() ==>
            && l.removed < |r.entries| && l.removed % n < n
            && SlotAt(r.entries, n, l.removed % n) == r.entries[l.removed]
            && r.entries[l.removed].date == l.entries[l.removed].date
            && forall t :: 0 <= t < FNAME_MAX && l.entries[l.removed].fname[t].Some? ==>
                             r.entries[l.removed].fname[t].Some?)
  {
    var h := l.removed;
    PutAllGrows(l, n, ps);
    var r := PutAll(l, n, ps);
    if NewDates(l, n, ps) < n - l.Queued() {
      SlotHolds(r.entries, n, h);
      if ps != [] {
        var b := PutAll(l, n, ps[..|ps| - 1]);
        PutAllGrows(l, n, ps[..|ps| - 1]);
        PutGrows(b, n, ps[|ps| - 1]);
        HandleSafe(l, n, ps[..|ps| - 1]);
        forall t | 0 <= t < FNAME_MAX && l.entries[h].fname[t].Some?
          ensures r.entries[h].fname[t].Some?
        {
          PutKeepsNames(b, n, ps[|ps| - 1], h, t);
        }
      }
    }
  }

  /** Whatever is queued, KEEP_FILE_COUNT - 1 new dates never disturb the head. */
  lemma HandleAlwaysTolerates(l: Log, n: nat, ps: seq<Arrival>)
    requires ValidLog(l, n) && Dated(ps) && l.Queued() > 0
    requires NewDates(l, n, ps) <= KEEP_FILE_COUNT - 1
    ensures !Emptied(PutAll(l, n, ps), l.removed)
  {
    HandleSafe(l, n, ps);
  }

  /** The bound is exact: the put that brings the last tolerated date plus one empties the head. */
  lemma HandleLost(l: Log, n: nat, ps: seq<Arrival>)
    requires ValidLog(l, n) && Dated(ps) && l.Queued() > 0 && ps != []
    requires NewDates(l, n, ps) == n - l.Queued()
    requires NewDates(l, n, ps[..|ps| - 1]) == n - l.Queued() - 1
    ensures PutAll(l, n, ps).entries[l.removed].fname == NO_NAMES
  {
    var b := PutAll(l, n, ps[..|ps| - 1]);
    PutAllGrows(l, n, ps[..|ps| - 1]);
    PutGrows(b, n, ps[|ps| - 1]);
  }

  /** Entry `k` was emptied, and yet a file of its date sits in column `t`. */
  ghost predicate Stale(l: Log, k: nat, t: nat) {
    && k < |l.entries| && t < FNAME_MAX == |l.entries[k].fname| && Emptied(l, k)
    && l.entries[k].fname[t].Some? && l.entries[k].fname[t].value.date == l.entries[k].date
  }

  /** Every file is registered under its own date. */
  ghost predicate OwnDates(ps: seq<Arrival>) {
    forall i :: 0 <= i < |ps| ==> ps[i].path.date == ps[i].dt != 0
  }

  /** Until the slot is reused, a stale name stays, or another one of the same date takes its place. */
  lemma PutKeepsStale(l: Log, n: nat, k: nat, t: nat, a: Arrival)
    requires ValidLog(l, n) && a.path.date == a.dt != 0 && Stale(l, k, t)
    requires |Put(l, n, a.path, a.dt, a.tent).entries| <= k + n
    ensures Stale(Put(l, n, a.path, a.dt, a.tent), k, t)
    ensures Put(l, n, a.path, a.dt, a.tent).entries[k].date == l.entries[k].date
  {
    PutValid(l, n, a.path, a.dt, a.tent);
    PutGrows(l, n, a);
  }

  lemma {:induction false} PutAllKeepsStale(l: Log, n: nat, k: nat, t: nat, ps: seq<Arrival>)
    requires ValidLog(l, n) && Dated(ps) && OwnDates(ps) && Stale(l, k, t)
    requires |PutAll(l, n, ps).entries| <= k + n
    ensures Stale(PutAll(l, n, ps), k, t)
    ensures PutAll(l, n, ps).entries[k].date == l.entries[k].date
  {
    if ps == [] {
    } else {
      var init, a := ps[..|ps| - 1], ps[|ps| - 1];
      PutGrows(PutAll(l, n, init), n, a);
      PutAllKeepsStale(l, n, k, t, init);
      PutKeepsStale(PutAll(l, n, init), n, k, t, a);
    }
  }

  /** Reusing the slot of an emptied entry carries a name stored there into the new entry. */
  lemma CarriesName(l: Log, n: nat, k: nat, t: nat, a: Arrival)
    requires ValidLog(l, n) && InRange(a.tent) && a.dt > l.Newest()
    requires k < |l.entries| == k + n && t < FNAME_MAX && Emptied(l, k)
    ensures
      var r := Put(l, n, a.path, a.dt, a.tent);
      && |r.entries| == k + n + 1 && |r.entries[k + n].fname| == FNAME_MAX && r.entries[k + n].date == a.dt
      && r.entries[k + n].fname[t] == if t == a.tent then Some(a.path) else l.entries[k].fname[t]
  {
    PutValid(l, n, a.path, a.dt, a.tent);
    EvictValid(Arrived(l, a.path), n);
  }

  /**
   A name stored in an emptied entry `k` comes back.  Whatever is put in between, when the slot of the
   entry is reused for a newer date, a file of the old date sits under the new one, if and only if the
   file that brings the new date is not of the same type.
  */
  lemma EmptiedNameResurfaces(l: Log, n: nat, k: nat, t: nat, ps: seq<Arrival>, a: Arrival)
    requires ValidLog(l, n) && Dated(ps) && OwnDates(ps) && Stale(l, k, t)
    requires |PutAll(l, n, ps).entries| == k + n
    requires InRange(a.tent) && a.path.date == a.dt > PutAll(l, n, ps).Newest()
    ensures
      var r := Put(PutAll(l, n, ps), n, a.path, a.dt, a.tent);
      && |r.entries| == k + n + 1 && |r.entries[k + n].fname| == FNAME_MAX && r.entries[k + n].date == a.dt
      && r.entries[k + n].fname[t].Some?
      && (a.tent != t ==> r.entries[k + n].fname[t].value.date == l.entries[k].date < a.dt)
      && (a.tent == t ==> r.entries[k + n].fname[t].value.date == a.dt)
  {
    PutAllKeepsStale(l, n, k, t, ps);
    CarriesName(PutAll(l, n, ps), n, k, t, a);
  }

  /** A file of date `dt` and type `tent`, registered the way `watcher` does. */
  function File(dt: nat, tent: nat): Arrival {
    Arrival(Path("f", dt, tent), dt, tent)
  }

  function FileEntry(dt: nat): Entry {
    Entry(dt, [Some(Path("f", dt, 0)), None, None])
  }

  /** After one file for each of the dates 1 to `d`, in a ring of five slots. */
  ghost predicate OneEach(l: Log, d: nat) {
    && ValidLog(l, 5) && d <= 5
    && l.removed == (if d <= 2 then 0 else d - 2)
    && |l.entries| == d
    && forall i :: 0 <= i < d ==>
                     l.entries[i] == if i == 0 && d == 5 then Entry(1, NO_NAMES) else FileEntry(i + 1)
  }

  /** A new date: what is left after making room, and behind it an entry with the one file. */
  lemma FirstOfDate(l: Log, d: nat, e: Log)
    requires ValidLog(l, 5) && |l.entries| < 5 && l.Newest() < d + 1
    requires e == Evict(Arrived(l, File(d + 1, 0).path), 5)
    ensures Put(l, 5, File(d + 1, 0).path, d + 1, 0).entries == e.entries + [FileEntry(d + 1)]
    ensures Put(l, 5, File(d + 1, 0).path, d + 1, 0).removed == e.removed
  {
    EvictValid(Arrived(l, File(d + 1, 0).path), 5);
    var o := Open(e, 5, d + 1);
    assert o.entries == e.entries + [Entry(d + 1, NO_NAMES)];
    assert NO_NAMES[0 := Some(File(d + 1, 0).path)] == FileEntry(d + 1).fname;
  }

  /** Making room empties the first entry exactly when the fifth date comes. */
  lemma RoomForNext(l: Log, d: nat, e: Log)
    requires OneEach(l, d) && d < 5 && e == Evict(Arrived(l, File(d + 1, 0).path), 5)
    ensures |e.entries| == d && e.removed == if d + 1 <= 2 then 0 else d - 1
    ensures forall i :: 0 <= i < d ==> e.entries[i] == if i == 0 && d == 4 then Entry(1, NO_NAMES) else FileEntry(i + 1)
  {
  }

  lemma OneMoreIs(l: Log, d: nat, e: Log, r: Log)
    requires OneEach(l, d) && d < 5 && e == Evict(Arrived(l, File(d + 1, 0).path), 5) && ValidLog(r, 5)
    requires r.entries == e.entries + [FileEntry(d + 1)] && r.removed == e.removed
    ensures OneEach(r, d + 1)
  {
    RoomForNext(l, d, e);
  }

  lemma OneMore(l: Log, d: nat)
    requires OneEach(l, d) && d < 5
    ensures OneEach(Put(l, 5, File(d + 1, 0).path, d + 1, 0), d + 1)
  {
    var e := Evict(Arrived(l, File(d + 1, 0).path), 5);
    var r := Put(l, 5, File(d + 1, 0).path, d + 1, 0);
    PutValid(l, 5, File(d + 1, 0).path, d + 1, 0);
    FirstOfDate(l, d, e);
    OneMoreIs(l, d, e, r);
  }

  lemma {:induction false} FirstDates(ps: seq<Arrival>)
    requires |ps| <= 5 && forall i :: 0 <= i < |ps| ==> ps[i] == File(i + 1, 0)
    ensures ValidLog(EMPTY, 5) && Dated(ps) && OneEach(PutAll(EMPTY, 5, ps), |ps|)
  {
    if ps == [] {
    } else {
      FirstDates(ps[..|ps| - 1]);
      OneMore(PutAll(EMPTY, 5, ps[..|ps| - 1]), |ps| - 1);
    }
  }

  lemma LateFile(l: Log)
    requires OneEach(l, 5)
    ensures
      var r := Put(l, 5, File(1, 0).path, 1, 0);
      ValidLog(r, 5) && r.removed == 3 && r.entries == l.entries[0 := FileEntry(1)]
  {
    PutValid(l, 5, File(1, 0).path, 1, 0);
    LookupUnique(l, 5, 0);
    assert NO_NAMES[0 := Some(File(1, 0).path)] == FileEntry(1).fname;
  }

  /**
   Seven correctly dated files after which the entry of date 6 looks complete for two sync types
   although no date-6 file of type 0 ever arrived: the late file of date 1 sits in its column.
  */
  lemma LateFileMixesDates(ps: seq<Arrival>)
    requires ps == [File(1, 0), File(2, 0), File(3, 0), File(4, 0), File(5, 0), File(1, 0), File(6, 1)]
    ensures ValidLog(EMPTY, 5) && Dated(ps)
    ensures
      var es := PutAll(EMPTY, 5, ps).entries;
      && |es| == 6 && |es[5].fname| == FNAME_MAX && es[5].date == 6
      && es[5].fname[0] == Some(File(1, 0).path) && es[5].fname[1] == Some(File(6, 1).path)
  {
    var six := ps[..6];
    assert six[..5] == ps[..5];
    FirstDates(ps[..5]);
    var l5 := PutAll(EMPTY, 5, ps[..5]);
    LateFile(l5);
    var l6 := PutAll(EMPTY, 5, six);
    CarriesName(l6, 5, 0, 0, ps[6]);
    StoresName(l6, 5, ps[6]);
  }

  /** The file that brings a new date is stored in that date's entry. */
  lemma StoresName(l: Log, n: nat, a: Arrival)
    requires ValidLog(l, n) && InRange(a.tent) && a.dt > l.Newest()
    ensures
      var r := Put(l, n, a.path, a.dt, a.tent);
      && |r.entries| == |l.entries| + 1 && |r.entries[|l.entries|].fname| == FNAME_MAX
      && r.entries[|l.entries|].fname[a.tent] == Some(a.path)
  {
    EvictValid(Arrived(l, a.path), n);
  }
}
