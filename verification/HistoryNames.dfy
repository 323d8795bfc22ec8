/**
 Which file names an entry can hold.  The good states are the *clean* ones: every name sits
 under its own date and type, everything old enough is emptied, and nothing newer is unlinked.
 A put keeps a log clean exactly when it does not revive an entry that has been emptied.
*/
module HistoryNames {
  import opened Wrappers
  import opened HistoryLog

  /** Every name is stored under its own date and in its own column. */
  ghost predicate Homogeneous(es: seq<Entry>)
    requires ThreeNames(es)
  {
    forall k, t :: 0 <= k < |es| && 0 <= t < FNAME_MAX && es[k].fname[t].Some? ==>
                     es[k].fname[t].value.date == es[k].date && es[k].fname[t].value.kind == t
  }

  /** Entry `k` has lost its names: KEEP_FILE_COUNT entries were retired from it on. */
  predicate Emptied(l: Log, k: int) {
    k <= l.removed - KEEP_FILE_COUNT
  }

  ghost predicate Cleared(l: Log) {
    forall k :: 0 <= k < |l.entries| && Emptied(l, k) ==> l.entries[k].fname == NO_NAMES
  }

  /** No file of an entry that still has its names was unlinked: the last retired ones included. */
  ghost predicate Retained(l: Log) {
    forall p, k :: p in l.puts && 0 <= k < |l.entries| && !Emptied(l, k) && l.entries[k].date == p.date ==>
                     p in l.disk
  }

  ghost predicate HeldWerePut(l: Log)
    requires ThreeNames(l.entries)
  {
    forall k, t :: 0 <= k < |l.entries| && 0 <= t < FNAME_MAX && l.entries[k].fname[t].Some? ==>
                     l.entries[k].fname[t].value in l.puts
  }

  ghost predicate Clean(l: Log, n: nat) {
    && ValidLog(l, n)
    && Homogeneous(l.entries)
    && Cleared(l)
    && Retained(l)
    && HeldWerePut(l)
    && forall p :: p in l.puts ==> p.date <= l.Newest()
  }

  /** The check a caller can make before a put: the entry a late file belongs to still has its names. */
  predicate OnTime(l: Log, n: nat, dt: nat) {
    var k := Lookup(l, n, dt);
    k.Some? ==> !Emptied(l, k.value)
  }

  lemma {:induction false} NamesMember(f: seq<Option<Path>>, p: Path)
    requires p in NamesOf(f)
    ensures exists t :: 0 <= t < |f| && f[t] == Some(p)
  {
    var n := |f| - 1;
    if f[n] == Some(p) {
    } else {
      NamesMember(f[..n], p);
      var t :| 0 <= t < n && f[..n][t] == Some(p);
      assert f[t] == Some(p);
    }
  }

  /** The names that a removal unlinks all carry the date of the entry that is emptied. */
  lemma RemoveDates(l: Log, n: nat, p: Path)
    requires Clean(l, n) && l.Queued() > 0
    requires p in l.disk && p !in Remove(l).disk
    ensures 0 <= l.removed + 1 - KEEP_FILE_COUNT && p.date == l.entries[l.removed + 1 - KEEP_FILE_COUNT].date
  {
    var k := l.removed + 1 - KEEP_FILE_COUNT;
    NamesMember(l.entries[k].fname, p);
    var t :| 0 <= t < FNAME_MAX && l.entries[k].fname[t] == Some(p);
  }

  lemma RemoveRetained(l: Log, n: nat)
    requires Clean(l, n) && l.Queued() > 0
    ensures Retained(Remove(l))
  {
    var r := Remove(l);
    forall p, k | p in r.puts && 0 <= k < |r.entries| && !Emptied(r, k) && r.entries[k].date == p.date
      ensures p in r.disk
    {
      assert l.entries[k].date == p.date && p in l.disk;
      if p !in r.disk {
        RemoveDates(l, n, p);
      }
    }
  }

  lemma RemoveCleared(l: Log, n: nat)
    requires Clean(l, n) && l.Queued() > 0
    ensures Cleared(Remove(l))
  {
    var r := Remove(l);
    forall k | 0 <= k < |r.entries| && Emptied(r, k)
      ensures r.entries[k].fname == NO_NAMES
    {
      if k != l.removed + 1 - KEEP_FILE_COUNT {
        assert Emptied(l, k) && r.entries[k] == l.entries[k];
      }
    }
  }

  /** A removal empties and unlinks exactly one entry, and keeps the log clean. */
  lemma RemoveClean(l: Log, n: nat)
    requires Clean(l, n) && l.Queued() > 0
    ensures Clean(Remove(l), n)
  {
    RemoveValid(l, n);
    RemoveCleared(l, n);
    RemoveRetained(l, n);
  }

  /** A log in which one more date may be opened without exceeding the queue. */
  ghost predicate Room(l: Log, n: nat) {
    Clean(l, n) && l.Queued() < n - KEEP_FILE_COUNT
  }

  lemma EvictClean(l: Log, n: nat)
    requires Clean(l, n)
    ensures Room(Evict(l, n), n)
    ensures Evict(l, n).Newest() == l.Newest() && |Evict(l, n).entries| == |l.entries|
  {
    EvictValid(l, n);
    if l.Queued() + 1 > n - KEEP_FILE_COUNT {
      RemoveClean(l, n);
    }
  }

  /** The slot reused for a new date has no names left. */
  lemma OpenEmpty(l: Log, n: nat, dt: nat)
    requires Room(l, n) && dt > l.Newest()
    ensures Open(l, n, dt) == l.(entries := l.entries + [Entry(dt, NO_NAMES)])
  {
    var k := |l.entries| - n;
    if 0 <= k {
      assert Emptied(l, k) && l.entries[k].fname == NO_NAMES;
      assert l.entries[k := l.entries[k]] == l.entries;
    }
  }

  lemma OpenClean(l: Log, n: nat, dt: nat)
    requires Room(l, n) && dt > l.Newest()
    ensures Clean(Open(l, n, dt), n)
  {
    OpenEmpty(l, n, dt);
    OpenValid(l, n, dt);
    var r := Open(l, n, dt);
    forall p, k | p in r.puts && 0 <= k < |r.entries| && !Emptied(r, k) && r.entries[k].date == p.date
      ensures p in r.disk
    {
      assert k < |l.entries| && l.entries[k] == r.entries[k];
    }
  }

  /** Storing a file under its own date and type is clean exactly if that entry was not emptied. */
  lemma StoreClean(l: Log, n: nat, k: nat, path: Path, tent: nat)
    requires Clean(l, n) && k < |l.entries| && tent < FNAME_MAX
    requires path.date == l.entries[k].date && path.kind == tent
    ensures
      var r := Store(Arrived(l, path), k, path, tent);
      ThreeNames(r.entries) && (Clean(r, n) <==> !Emptied(l, k))
  {
    var a := Arrived(l, path);
    var r := Store(a, k, path, tent);
    StoreValid(a, k, path, tent);
    assert r.entries[k].fname[tent] == Some(path);
    if Emptied(l, k) {
      assert NO_NAMES[tent] == None;
      assert !Cleared(r);
    } else {
      forall j | 0 <= j < |r.entries| && Emptied(r, j)
        ensures r.entries[j].fname == NO_NAMES
      {
        assert j != k && r.entries[j] == l.entries[j];
      }
      forall p, j | p in r.puts && 0 <= j < |r.entries| && !Emptied(r, j) && r.entries[j].date == p.date
        ensures p in r.disk
      {
        assert l.entries[j].date == p.date && !Emptied(l, j);
      }
      assert forall p :: p in r.puts ==> p.date <= r.Newest();
    }
  }

  /** For a new date it does not matter whether the file arrives before or after the eviction. */
  lemma EvictArrived(l: Log, n: nat, path: Path)
    requires Clean(l, n) && path.date > l.Newest()
    ensures Evict(Arrived(l, path), n) == Arrived(Evict(l, n), path)
  {
    var k := l.removed + 1 - KEEP_FILE_COUNT;
    if l.Queued() + 1 > n - KEEP_FILE_COUNT && 0 <= k {
      var gone := NamesOf(l.entries[k].fname);
      if path in gone {
        NamesMember(l.entries[k].fname, path);
      }
      assert l.disk + {path} - (set p | p in gone) == l.disk - (set p | p in gone) + {path};
    }
  }

  lemma PutNewDate(l: Log, n: nat, path: Path, tent: nat)
    requires Clean(l, n) && path.date > l.Newest() && tent < FNAME_MAX
    ensures
      var o := Open(Evict(l, n), n, path.date);
      && ThreeNames(Evict(l, n).entries) && ThreeNames(o.entries) && |o.entries| == |l.entries| + 1
      && Clean(o, n) && o.entries[|l.entries|] == Entry(path.date, NO_NAMES)
      && Put(l, n, path, path.date, tent) == Store(Arrived(o, path), |l.entries|, path, tent)
  {
    EvictClean(l, n);
    OpenClean(Evict(l, n), n, path.date);
    OpenEmpty(Evict(l, n), n, path.date);
    EvictArrived(l, n, path);
  }

  /** A file too late for every slot is unlinked at once, and changes nothing else. */
  lemma RefusedClean(l: Log, n: nat, path: Path, tent: nat)
    requires Clean(l, n) && 0 < path.date < l.Newest() && Lookup(l, n, path.date).None? && tent < FNAME_MAX
    ensures
      var r := Put(l, n, path, path.date, tent);
      && Clean(r, n) && path !in r.disk
      && r == l.(puts := l.puts + [path], unlinked := l.unlinked + [path], disk := l.disk - {path})
  {
    var r := Put(l, n, path, path.date, tent);
    assert l.disk + {path} - {path} == l.disk - {path};
    forall p, k | p in r.puts && 0 <= k < |r.entries| && !Emptied(r, k) && r.entries[k].date == p.date
      ensures p in r.disk
    {
      assert k >= |l.entries| - n;
      assert p != path;
    }
  }

  /**
   The names are right after a put exactly when the put is on time: a file that belongs to an
   entry whose names were already removed is the only thing that spoils the log.
  */
  lemma PutClean(l: Log, n: nat, path: Path, tent: int)
    requires Clean(l, n) && path.date != 0 && path.kind == tent
    ensures
      ThreeNames(Put(l, n, path, path.date, tent).entries)
    ensures
      Clean(Put(l, n, path, path.date, tent), n) <==> !InRange(tent) || OnTime(l, n, path.date)
  {
    PutValid(l, n, path, path.date, tent);
    var r := Put(l, n, path, path.date, tent);
    if InRange(tent) {
      if path.date > l.Newest() {
        PutNewDate(l, n, path, tent);
        StoreClean(Open(Evict(l, n), n, path.date), n, |l.entries|, path, tent);
        assert Emptied(Evict(l, n), |l.entries|) == false;
      } else if Lookup(l, n, path.date).Some? {
        StoreClean(l, n, Lookup(l, n, path.date).value, path, tent);
      } else {
        RefusedClean(l, n, path, tent);
      }
    } else {
      assert r == l.(disk := l.disk + {path});
    }
  }

  /** In a clean log a name is only ever replaced by a later file of the same date and type. */
  lemma ReplacedBySame(l: Log, n: nat, path: Path, tent: int)
    requires Clean(l, n) && path.date != 0 && path.kind == tent
    ensures
      var r := Put(l, n, path, path.date, tent);
      r.replaced == l.replaced
      || exists q :: r.replaced == l.replaced + [q] && q.date == path.date && q.kind == path.kind
  {
    if InRange(tent) {
      if path.date > l.Newest() {
        PutNewDate(l, n, path, tent);
        assert l.replaced + [] == l.replaced;
      } else if Lookup(l, n, path.date).Some? {
        var f := l.entries[Lookup(l, n, path.date).value].fname;
        assert l.replaced + [] == l.replaced;
        if f[tent].Some? {
          assert f[tent].value.date == path.date && f[tent].value.kind == path.kind;
        }
      }
    }
  }

  /** Every name in a clean log is still on disk, and its entry was not emptied. */
  lemma HeldOnDisk(l: Log, n: nat, k: nat, t: nat)
    requires Clean(l, n) && k < |l.entries| && t < FNAME_MAX && l.entries[k].fname[t].Some?
    ensures !Emptied(l, k) && l.entries[k].fname[t].value in l.disk
  {
    assert NO_NAMES[t] == None;
  }

  /** The removal that makes KEEP_FILE_COUNT entries retired since `k` is the one that unlinks the names of `k`. */
  lemma UnlinkedExactlyThen(l: Log, n: nat, k: nat, t: nat)
    requires Clean(l, n) && l.Queued() > 0
    requires k < |l.entries| && t < FNAME_MAX && l.entries[k].fname[t].Some?
    ensures
      var p := l.entries[k].fname[t].value;
      && p in l.disk
      && (p !in Remove(l).disk <==> l.removed + 1 == k + KEEP_FILE_COUNT)
      && (Remove(l).entries[k].fname[t].None? <==> l.removed + 1 == k + KEEP_FILE_COUNT)
  {
    HeldOnDisk(l, n, k, t);
    var p := l.entries[k].fname[t].value;
    var i := l.removed + 1 - KEEP_FILE_COUNT;
    if i == k {
      NameIn(l.entries[k].fname, t);
    } else if p !in Remove(l).disk {
      RemoveDates(l, n, p);
    }
  }

  lemma {:induction false} NameIn(f: seq<Option<Path>>, t: nat)
    requires t < |f| && f[t].Some?
    ensures f[t].value in NamesOf(f)
  {
    if t == |f| - 1 {
    } else {
      NameIn(f[..|f| - 1], t);
    }
  }
}
