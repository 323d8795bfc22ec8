/**
 The history ring of `lwatcher`: a fixed array of slots with a producer and a consumer index,
 updated in place.  Every operation is proved against the unbounded log of `HistoryLog`.
*/
module HistoryRing {
  import opened Wrappers
  import opened HistoryLog
  import Modulo

  const MAX_HISTORY: nat := 20

  /** The newest log index below `m` that lives in slot `s`; negative if the slot was never used. */
  function SlotIndex(m: int, n: nat, s: nat): int
    requires n > 0
  {
    m - 1 - (m - 1 - s) % n
  }

  /** The content of slot `s` of a ring with `n` slots that represents the log entries `es`. */
  function SlotAt(es: seq<Entry>, n: nat, s: nat): Entry
    requires 0 < n
  {
    var i := SlotIndex(|es|, n, s);
    if 0 <= i < |es| then es[i] else UNUSED
  }

  /** The slots hold exactly the last `n` entries: slot and index determine each other. */
  lemma SlotIndexRange(m: int, n: nat, s: nat)
    requires s < n
    ensures m - n <= SlotIndex(m, n, s) < m && SlotIndex(m, n, s) % n == s
  {
    var q := (m - 1 - s) / n;
    assert m - 1 - s == q * n + (m - 1 - s) % n;
    Modulo.DivModUnique(SlotIndex(m, n, s), n, q, s);
  }

  lemma SlotIndexOf(m: int, n: nat, i: int)
    requires 0 < n && m - n <= i < m
    ensures i % n < n && SlotIndex(m, n, i % n) == i
  {
    SlotIndexRange(m, n, i % n);
    Modulo.SameSlot(SlotIndex(m, n, i % n), i, n);
  }

  /** The slot of a log entry among the last `n` holds that entry. */
  lemma SlotHolds(es: seq<Entry>, n: nat, i: nat)
    requires 0 < n && |es| - n <= i < |es|
    ensures i % n < n && SlotAt(es, n, i % n) == es[i]
  {
    SlotIndexOf(|es|, n, i);
  }

  /** Changing an entry among the last `n` changes exactly its slot. */
  lemma SlotUpdate(es: seq<Entry>, n: nat, k: nat, e: Entry, s: nat)
    requires s < n && |es| - n <= k < |es|
    ensures SlotAt(es[k := e], n, s) == if s == k % n then e else SlotAt(es, n, s)
  {
    SlotIndexRange(|es|, n, s);
    SlotIndexOf(|es|, n, k);
  }

  /** Appending an entry changes exactly the slot of the entry that is `n` older. */
  lemma SlotAppend(es: seq<Entry>, n: nat, e: Entry, s: nat)
    requires s < n
    ensures SlotAt(es + [e], n, s) == if s == |es| % n then e else SlotAt(es, n, s)
  {
    var m := |es|;
    SlotIndexRange(m + 1, n, s);
    if s == m % n {
      SlotIndexOf(m + 1, n, m);
    } else {
      var i := SlotIndex(m + 1, n, s);
      if i == m - n {
        Modulo.Shift(i, n, 1);
      }
      SlotIndexOf(m, n, i);
    }
  }

  /** The slot that is reused for a new date holds the entry that is `n` older. */
  lemma SlotReused(es: seq<Entry>, n: nat)
    requires 0 < n
    ensures |es| % n < n
    ensures SlotAt(es, n, |es| % n) == if |es| >= n then es[|es| - n] else UNUSED
  {
    Modulo.Shift(|es| - n, n, 1);
    SlotIndexOf(|es|, n, |es| - n);
  }

  /** The source compares a signed argument with an unsigned field. */
  function Unsigned(dt: int): (u: nat)
    requires -0x8000_0000_0000_0000 <= dt < 0x8000_0000_0000_0000
  {
    if dt < 0 then dt + 0x1_0000_0000_0000_0000 else dt
  }

  /** A date among the last `n` accepted ones is found at its only index. */
  lemma LookupUnique(l: Log, n: nat, k: nat)
    requires Increasing(l.entries) && |l.entries| - n <= k < |l.entries|
    ensures Lookup(l, n, l.entries[k].date) == Some(k)
  {
  }

  lemma NoNames()
    ensures NamesOf(NO_NAMES) == []
  {
    assert NO_NAMES[..2] == [None, None];
    assert NO_NAMES[..2][..1] == [None];
    assert NO_NAMES[..2][..1][..0] == [];
    assert NamesOf(NO_NAMES[..2][..1]) == [];
  }

  /** The slot emptied by a removal is the one KEEP_FILE_COUNT behind the new consumer index. */
  lemma RemoveRefines(l: Log, n: nat, s: nat)
    requires KEEP_FILE_COUNT + 2 <= n && ThreeNames(l.entries)
    requires 0 < l.Queued() <= n - KEEP_FILE_COUNT && s < n
    ensures
      SlotAt(Remove(l).entries, n, s)
      == if s == (l.removed + 1 - KEEP_FILE_COUNT) % n
         then SlotAt(l.entries, n, s).(fname := NO_NAMES)
         else SlotAt(l.entries, n, s)
  {
    var k := l.removed + 1 - KEEP_FILE_COUNT;
    if 0 <= k {
      SlotHolds(l.entries, n, k);
      SlotUpdate(l.entries, n, k, l.entries[k].(fname := NO_NAMES), s);
    } else if s == k % n {
      SlotIndexOf(|l.entries|, n, k);
    }
  }

  lemma RemoveUnlinks(l: Log, n: nat)
    requires KEEP_FILE_COUNT + 2 <= n && ThreeNames(l.entries)
    requires 0 < l.Queued() <= n - KEEP_FILE_COUNT
    ensures
      var rm := (l.removed + 1 - KEEP_FILE_COUNT) % n;
      rm < n && Remove(l).unlinked == l.unlinked + NamesOf(SlotAt(l.entries, n, rm).fname)
  {
    NoNames();
    SlotIndexOf(|l.entries|, n, l.removed + 1 - KEEP_FILE_COUNT);
  }

  /** A new date takes over the slot of the entry `n` older, names included. */
  lemma OpenRefines(l: Log, n: nat, dt: nat, s: nat)
    requires ThreeNames(l.entries) && s < n
    ensures
      SlotAt(Open(l, n, dt).entries, n, s)
      == if s == |l.entries| % n then Entry(dt, SlotAt(l.entries, n, s).fname) else SlotAt(l.entries, n, s)
  {
    var k := |l.entries| - n;
    SlotReused(l.entries, n);
    if k < 0 {
      SlotAppend(l.entries, n, Entry(dt, NO_NAMES), s);
    } else {
      var e := l.entries[k].(fname := NO_NAMES);
      SlotAppend(l.entries[k := e], n, Entry(dt, l.entries[k].fname), s);
      if s != |l.entries| % n {
        Modulo.Shift(k, n, 1);
        SlotUpdate(l.entries, n, k, e, s);
      }
    }
  }

  /** All slots of the ring. */
  function Slots(es: seq<Entry>, n: nat): (r: seq<Entry>)
    ensures |r| == n
    ensures forall s :: 0 <= s < n ==> r[s] == SlotAt(es, n, s)
  {
    seq(n, s requires 0 <= s < n => SlotAt(es, n, s))
  }

  /** A removal advances the consumer index and empties one slot, KEEP_FILE_COUNT behind it. */
  lemma RemoveSlots(l: Log, n: nat, was: seq<Entry>)
    requires KEEP_FILE_COUNT + 2 <= n && ThreeNames(l.entries) && was == Slots(l.entries, n)
    requires 0 < l.Queued() <= n - KEEP_FILE_COUNT
    ensures
      var rm := ((l.removed + 1) % n + n - KEEP_FILE_COUNT) % n;
      && (l.removed % n + 1) % n == (l.removed + 1) % n
      && 0 <= rm < n
      && Slots(Remove(l).entries, n) == was[rm := was[rm].(fname := NO_NAMES)]
      && Remove(l).unlinked == l.unlinked + NamesOf(was[rm].fname)
  {
    Modulo.Next(l.removed, n);
    Modulo.Back(l.removed + 1, n, KEEP_FILE_COUNT);
    RemoveUnlinks(l, n);
    forall s | 0 <= s < n {
      RemoveRefines(l, n, s);
    }
  }

  /** Storing a name in a log entry is storing it in that entry's slot. */
  lemma StoreSlots(l: Log, n: nat, k: nat, path: Path, tent: nat, was: seq<Entry>)
    requires 0 < n && ThreeNames(l.entries) && was == Slots(l.entries, n)
    requires |l.entries| - n <= k < |l.entries| && tent < FNAME_MAX
    ensures
      var s := k % n;
      && s < n && was[s] == l.entries[k]
      && Slots(Store(l, k, path, tent).entries, n) == was[s := was[s].(fname := was[s].fname[tent := Some(path)])]
  {
    SlotHolds(l.entries, n, k);
    var e := l.entries[k].(fname := l.entries[k].fname[tent := Some(path)]);
    forall s | 0 <= s < n {
      SlotUpdate(l.entries, n, k, e, s);
    }
  }

  /** Opening an entry for a new date changes the date of one slot, and nothing else. */
  lemma OpenSlots(l: Log, n: nat, dt: nat, was: seq<Entry>)
    requires 0 < n && ThreeNames(l.entries) && was == Slots(l.entries, n)
    ensures
      var s := |l.entries| % n;
      s < n && Slots(Open(l, n, dt).entries, n) == was[s := was[s].(date := dt)]
  {
    forall s | 0 <= s < n {
      OpenRefines(l, n, dt, s);
    }
  }

  // ----- What one put does, slot by slot -----

  /** A name that a new one replaces. */
  function Given(o: Option<Path>): seq<Path> {
    if o.Some? then [o.value] else []
  }

  /**
   The file is in its column of slot `s`, the only one with its date; the names of slot `emptied`, if
   any, are gone; every other column, and every other date, is as before.
  */
  ghost predicate Filed(was: seq<Entry>, now: seq<Entry>, s: nat, emptied: Option<nat>,
                        path: Path, dt: nat, tent: int)
  {
    && |now| == |was| && s < |was| && InRange(tent) && ThreeNames(was) && ThreeNames(now)
    && now[s].date == dt && now[s].fname[tent] == Some(path)
    && (forall u :: 0 <= u < |was| && u != s ==> now[u].date == was[u].date != dt)
    && (forall u, t :: 0 <= u < |was| && 0 <= t < FNAME_MAX && (u != s || t != tent) ==>
                         now[u].fname[t] == if emptied == Some(u) then None else was[u].fname[t])
  }

  /** A date that some slot has is found, and leads to that slot. */
  lemma DateInSlot(l: Log, n: nat, dt: nat, s: nat)
    requires 0 < n && Increasing(l.entries) && 0 < dt && s < n
    ensures
      var r := Lookup(l, n, dt);
      SlotAt(l.entries, n, s).date == dt <==> r.Some? && r.value % n == s
  {
    var r := Lookup(l, n, dt);
    SlotIndexRange(|l.entries|, n, s);
    if SlotAt(l.entries, n, s).date == dt {
      LookupUnique(l, n, SlotIndex(|l.entries|, n, s));
    }
    if r.Some? {
      SlotHolds(l.entries, n, r.value);
    }
  }

  /** A file is kept exactly if its date is newer than all others, or in one of the slots. */
  lemma KeptExactly(l: Log, n: nat, dt: nat, tent: int)
    requires ValidLog(l, n) && dt != 0
    ensures
      Accepts(l, n, dt, tent)
      <==> InRange(tent) && (dt > l.Newest() || exists s :: 0 <= s < n && Slots(l.entries, n)[s].date == dt)
  {
    var slots, r := Slots(l.entries, n), Lookup(l, n, dt);
    if r.Some? {
      DateInSlot(l, n, dt, r.value % n);
      assert slots[r.value % n].date == dt;
    }
    if s :| 0 <= s < n && slots[s].date == dt {
      DateInSlot(l, n, dt, s);
    }
  }

  lemma SlotsHaveThree(es: seq<Entry>, n: nat)
    requires ThreeNames(es)
    ensures ThreeNames(Slots(es, n))
  {
  }

  /** No slot has a date newer than all others. */
  lemma NewDateInNoSlot(l: Log, n: nat, dt: nat)
    requires 0 < n && Increasing(l.entries) && dt > l.Newest()
    ensures forall s :: 0 <= s < n ==> Slots(l.entries, n)[s].date != dt
  {
    forall s | 0 <= s < n
      ensures Slots(l.entries, n)[s].date != dt
    {
      DateInSlot(l, n, dt, s);
    }
  }

  lemma LatePutSlots(l: Log, n: nat, path: Path, dt: nat, tent: int, was: seq<Entry>) returns (s: nat)
    requires ValidLog(l, n) && dt != 0 && Accepts(l, n, dt, tent) && dt <= l.Newest() && was == Slots(l.entries, n)
    ensures
      var r := Put(l, n, path, dt, tent);
      && s < n && |was[s].fname| == FNAME_MAX
      && Filed(was, Slots(r.entries, n), s, None, path, dt, tent)
      && r.replaced == l.replaced + Given(was[s].fname[tent]) && r.unlinked == l.unlinked + []
  {
    var k := Lookup(l, n, dt).value;
    assert l.unlinked + [] == l.unlinked;
    s := k % n;
    SlotHolds(l.entries, n, k);
    StoreSlots(Arrived(l, path), n, k, path, tent, was);
    SlotsHaveThree(l.entries, n);
    forall u | 0 <= u < n
      ensures was[u].date == dt <==> u == s
    {
      DateInSlot(l, n, dt, u);
    }
  }

  /** The slot whose names a file of this date removes, because it is the last straw for a full queue. */
  function ForcedOut(l: Log, n: nat, dt: nat): (r: Option<nat>)
    requires KEEP_FILE_COUNT <= n && 0 < n
    ensures r.Some? ==> r.value < n
  {
    if dt <= l.Newest() || l.Queued() < n - KEEP_FILE_COUNT then None
    else Some(((l.removed + 1) % n + n - KEEP_FILE_COUNT) % n)
  }

  /** The slots without the names of one of them. */
  function Without(slots: seq<Entry>, o: Option<nat>): (r: seq<Entry>)
    ensures |r| == |slots|
  {
    if o.Some? && o.value < |slots| then slots[o.value := slots[o.value].(fname := NO_NAMES)] else slots
  }

  function NamesIn(slots: seq<Entry>, o: Option<nat>): seq<Path> {
    if o.Some? && o.value < |slots| then NamesOf(slots[o.value].fname) else []
  }

  /** The slot that a new date gets is never the one that it empties. */
  lemma NotForcedOut(l: Log, n: nat, dt: nat)
    requires ValidLog(l, n)
    ensures ForcedOut(l, n, dt) != Some(|l.entries| % n)
  {
    Modulo.Back(l.removed + 1, n, KEEP_FILE_COUNT);
    Modulo.Shift(|l.entries| - n, n, 1);
    if ForcedOut(l, n, dt).Some? && (l.removed + 1 - KEEP_FILE_COUNT) % n == (|l.entries| - n) % n {
      Modulo.SameSlot(l.removed + 1 - KEEP_FILE_COUNT, |l.entries| - n, n);
    }
  }

  /** The eviction that a new date forces empties one slot. */
  lemma EvictSlots(l: Log, n: nat, dt: nat, was: seq<Entry>)
    requires ValidLog(l, n) && was == Slots(l.entries, n) && dt > l.Newest()
    ensures Slots(Evict(l, n).entries, n) == Without(was, ForcedOut(l, n, dt))
    ensures Evict(l, n).unlinked == l.unlinked + NamesIn(was, ForcedOut(l, n, dt))
    ensures Evict(l, n).replaced == l.replaced
  {
    if l.Queued() < n - KEEP_FILE_COUNT {
      assert l.unlinked + [] == l.unlinked;
    } else {
      RemoveSlots(l, n, was);
    }
  }

  /** A name in a slot that got a new date. */
  lemma FiledNew(was: seq<Entry>, s: nat, o: Option<nat>, path: Path, dt: nat, tent: int)
    requires ThreeNames(was) && s < |was| && InRange(tent) && o != Some(s)
    requires forall u :: 0 <= u < |was| ==> was[u].date != dt
    ensures
      var mid := Without(was, o)[s := was[s].(date := dt)];
      Filed(was, mid[s := mid[s].(fname := mid[s].fname[tent := Some(path)])], s, o, path, dt, tent)
  {
    assert forall t :: 0 <= t < FNAME_MAX ==> NO_NAMES[t] == None;
  }

  /** Opening a date and storing its first file, slot by slot. */
  lemma OpenAndStoreSlots(e: Log, n: nat, path: Path, dt: nat, tent: nat, slots: seq<Entry>, s: nat)
    requires 0 < n && Increasing(e.entries) && ThreeNames(e.entries) && dt > e.Newest() && tent < FNAME_MAX
    requires slots == Slots(e.entries, n) && s == |e.entries| % n
    ensures
      && s < n && |slots[s].fname| == FNAME_MAX && ThreeNames(Open(e, n, dt).entries)
      && |Open(e, n, dt).entries| == |e.entries| + 1
      && var r := Store(Open(e, n, dt), |e.entries|, path, tent);
      var mid := slots[s := slots[s].(date := dt)];
      && Slots(r.entries, n) == mid[s := mid[s].(fname := mid[s].fname[tent := Some(path)])]
      && r.replaced == e.replaced + Given(slots[s].fname[tent]) && r.unlinked == e.unlinked
  {
    OpenSlots(e, n, dt, slots);
    OpenValid(e, n, dt);
    StoreSlots(Open(e, n, dt), n, |e.entries|, path, tent, slots[s := slots[s].(date := dt)]);
    SlotsHaveThree(e.entries, n);
  }

  /** The arrival of a file alone has no influence on an eviction. */
  lemma ArrivedOnly(l: Log, n: nat, path: Path, dt: nat)
    requires ValidLog(l, n)
    ensures ValidLog(Arrived(l, path), n) && ForcedOut(Arrived(l, path), n, dt) == ForcedOut(l, n, dt)
  {
  }

  lemma PutIsStore(l: Log, n: nat, path: Path, dt: nat, tent: int, e: Log)
    requires ValidLog(l, n) && InRange(tent) && dt > l.Newest()
    requires ValidLog(Arrived(l, path), n) && e == Evict(Arrived(l, path), n)
    ensures Increasing(e.entries) && ThreeNames(e.entries) && dt > e.Newest() && |e.entries| == |l.entries|
    ensures ThreeNames(Open(e, n, dt).entries) && |Open(e, n, dt).entries| == |l.entries| + 1
    ensures Put(l, n, path, dt, tent) == Store(Open(e, n, dt), |l.entries|, path, tent)
  {
    EvictValid(Arrived(l, path), n);
    OpenValid(e, n, dt);
  }

  /** The log after the eviction, before the new date is opened. */
  lemma Evicted(l: Log, n: nat, path: Path, dt: nat, tent: int) returns (e: Log)
    requires ValidLog(l, n) && InRange(tent) && dt > l.Newest()
    ensures Increasing(e.entries) && ThreeNames(e.entries) && dt > e.Newest() && |e.entries| == |l.entries|
    ensures Slots(e.entries, n) == Without(Slots(l.entries, n), ForcedOut(l, n, dt))
    ensures e.unlinked == l.unlinked + NamesIn(Slots(l.entries, n), ForcedOut(l, n, dt)) && e.replaced == l.replaced
    ensures ThreeNames(Open(e, n, dt).entries) && |Open(e, n, dt).entries| == |l.entries| + 1
    ensures Put(l, n, path, dt, tent) == Store(Open(e, n, dt), |l.entries|, path, tent)
  {
    ArrivedOnly(l, n, path, dt);
    e := Evict(Arrived(l, path), n);
    PutIsStore(l, n, path, dt, tent, e);
    EvictSlots(Arrived(l, path), n, dt, Slots(l.entries, n));
  }

  /** The slots after a put of a new date. */
  lemma NewPutIs(l: Log, n: nat, path: Path, dt: nat, tent: int, slots: seq<Entry>, s: nat)
    requires ValidLog(l, n) && InRange(tent) && dt > l.Newest() && s == |l.entries| % n
    requires slots == Without(Slots(l.entries, n), ForcedOut(l, n, dt))
    ensures
      var r := Put(l, n, path, dt, tent);
      var mid := slots[s := slots[s].(date := dt)];
      && s < n && |slots[s].fname| == FNAME_MAX
      && Slots(r.entries, n) == mid[s := mid[s].(fname := mid[s].fname[tent := Some(path)])]
      && r.replaced == l.replaced + Given(slots[s].fname[tent])
      && r.unlinked == l.unlinked + NamesIn(Slots(l.entries, n), ForcedOut(l, n, dt))
  {
    var e := Evicted(l, n, path, dt, tent);
    OpenAndStoreSlots(e, n, path, dt, tent, slots, s);
  }

  lemma NewPutSlots(l: Log, n: nat, path: Path, dt: nat, tent: int, was: seq<Entry>, s: nat)
    requires ValidLog(l, n) && InRange(tent) && dt > l.Newest() && was == Slots(l.entries, n) && s == |l.entries| % n
    ensures
      var r := Put(l, n, path, dt, tent);
      && s < n && |was[s].fname| == FNAME_MAX
      && Filed(was, Slots(r.entries, n), s, ForcedOut(l, n, dt), path, dt, tent)
      && r.replaced == l.replaced + Given(was[s].fname[tent])
      && r.unlinked == l.unlinked + NamesIn(was, ForcedOut(l, n, dt))
  {
    NotForcedOut(l, n, dt);
    SlotsHaveThree(l.entries, n);
    NewPutIs(l, n, path, dt, tent, Without(was, ForcedOut(l, n, dt)), s);
    NewDateInNoSlot(l, n, dt);
    FiledNew(was, s, ForcedOut(l, n, dt), path, dt, tent);
  }

  /**
   A file that is kept is in its column of the one slot that has its date.  No other column changes,
   except that a new date empties the slot of an evicted entry; what was in the column is replaced.
  */
  lemma PutSlots(l: Log, n: nat, path: Path, dt: nat, tent: int, was: seq<Entry>) returns (s: nat)
    requires ValidLog(l, n) && dt != 0 && Accepts(l, n, dt, tent) && was == Slots(l.entries, n)
    ensures dt > l.Newest() ==> s == |l.entries| % n
    ensures
      var r := Put(l, n, path, dt, tent);
      && s < n && |was[s].fname| == FNAME_MAX
      && Filed(was, Slots(r.entries, n), s, ForcedOut(l, n, dt), path, dt, tent)
      && r.replaced == l.replaced + Given(was[s].fname[tent])
      && r.unlinked == l.unlinked + NamesIn(was, ForcedOut(l, n, dt))
  {
    if dt > l.Newest() {
      s := |l.entries| % n;
      NewPutSlots(l, n, path, dt, tent, was, s);
    } else {
      s := LatePutSlots(l, n, path, dt, tent, was);
    }
  }

  /** Any other file leaves all slots and indices as they are; it is unlinked unless its type is out of range. */
  lemma RefusedSlots(l: Log, n: nat, path: Path, dt: nat, tent: int)
    requires ValidLog(l, n) && dt != 0 && !Accepts(l, n, dt, tent)
    ensures
      var r := Put(l, n, path, dt, tent);
      && r.entries == l.entries && r.removed == l.removed && r.evicted == l.evicted && r.replaced == l.replaced
      && r.unlinked == l.unlinked + if InRange(tent) then [path] else []
  {
    assert l.unlinked + [] == l.unlinked;
  }

  /** What a put has done to the slots, with the log before and after it. */
  ghost predicate PutShown(l: Log, n: nat, path: Path, dt: nat, tent: int, r: Log, was: seq<Entry>, now: seq<Entry>)
    requires KEEP_FILE_COUNT <= n && 0 < n
  {
    if Accepts(l, n, dt, tent) then
      exists s: nat :: && Filed(was, now, s, ForcedOut(l, n, dt), path, dt, tent)
                  && r.replaced == l.replaced + Given(was[s].fname[tent])
                  && r.unlinked == l.unlinked + NamesIn(was, ForcedOut(l, n, dt))
    else
      && now == was && r.replaced == l.replaced
      && r.unlinked == l.unlinked + if InRange(tent) then [path] else []
  }

  lemma PutIsShown(l: Log, n: nat, path: Path, dt: nat, tent: int)
    requires ValidLog(l, n) && dt != 0
    ensures
      var r := Put(l, n, path, dt, tent);
      PutShown(l, n, path, dt, tent, r, Slots(l.entries, n), Slots(r.entries, n))
  {
    if Accepts(l, n, dt, tent) {
      var s := PutSlots(l, n, path, dt, tent, Slots(l.entries, n));
    } else {
      RefusedSlots(l, n, path, dt, tent);
    }
  }

  class History {
    const nhist: nat
    const history: array<Entry>
    var prodhistp: nat
    var conshistp: nat
    var numhist: int
    var waithist: nat
    var waithist2: nat
    var unlinked: seq<Path>  // the unlink() calls made so far
    ghost var log: Log

    /** The slots are well formed, whatever they hold. */
    ghost predicate Shape()
      reads this, history
    {
      && KEEP_FILE_COUNT + 2 <= nhist <= history.Length
      && conshistp < nhist && prodhistp < nhist
      && forall s :: 0 <= s < nhist ==> |history[s].fname| == FNAME_MAX
    }

    /** The ring represents its log. */
    ghost predicate Valid()
      reads this, history
    {
      && Shape()
      && ValidLog(log, nhist)
      && conshistp == log.removed % nhist
      && numhist == log.Queued()
      && prodhistp == (if log.entries == [] then 0 else (|log.entries| - 1) % nhist)
      && unlinked == log.unlinked
      && history[..nhist] == Slots(log.entries, nhist)
    }

    constructor (nh: int)
      requires nh <= MAX_HISTORY
      ensures Valid() && fresh(history) && log == EMPTY
      ensures nhist == if nh <= KEEP_FILE_COUNT + 1 then KEEP_FILE_COUNT + 2 else nh
      ensures waithist == 0 && waithist2 == 0
    {
      nhist := if nh <= KEEP_FILE_COUNT + 1 then KEEP_FILE_COUNT + 2 else nh;
      history := new Entry[MAX_HISTORY](_ => UNUSED);
      prodhistp, conshistp, numhist := 0, 0, 0;
      waithist, waithist2 := 0, 0;
      unlinked := [];
      log := EMPTY;
      new;
      Modulo.Small(0, nhist);
    }

    /** One name of a slot is unlinked and cleared, if it is there. */
    method ClearName(rm: nat, i: nat)
      requires Shape() && rm < nhist && i < FNAME_MAX
      modifies this`unlinked, history
      ensures
        var was := old(history[rm]);
        && history[..nhist] == old(history[..nhist])[rm := was.(fname := was.fname[i := None])]
        && unlinked == old(unlinked) + if was.fname[i].Some? then [was.fname[i].value] else []
    {
      var f := history[rm].fname;
      if f[i].Some? {
        unlinked := unlinked + [f[i].value];
        history[rm] := history[rm].(fname := f[i := None]);
      } else {
        assert f[i := None] == f;
      }
    }

    /** The names of a slot are unlinked and cleared, column by column; its date stays. */
    method ClearSlot(rm: nat)
      requires Shape() && rm < nhist
      modifies this`unlinked, history
      ensures history[..nhist] == old(history[..nhist])[rm := old(history[rm]).(fname := NO_NAMES)]
      ensures unlinked == old(unlinked) + NamesOf(old(history[rm]).fname)
    {
      ghost var was, slots := history[rm], history[..nhist];
      ghost var names := was.fname;
      for i := 0 to FNAME_MAX
        invariant Shape() && |names| == FNAME_MAX
        invariant history[..nhist] == slots[rm := was.(fname := names)]
        invariant forall j :: 0 <= j < i ==> names[j] == None
        invariant forall j :: i <= j < FNAME_MAX ==> names[j] == was.fname[j]
        invariant unlinked == old(unlinked) + NamesOf(was.fname[..i])
      {
        assert was.fname[..i + 1][..i] == was.fname[..i];
        assert history[rm] == history[..nhist][rm] == was.(fname := names);
        ClearName(rm, i);
        names := names[i := None];
      }
      assert names == NO_NAMES;
      assert was.fname[..FNAME_MAX] == was.fname;
    }

    /** The body shared by the consumer's removal and the producer's eviction. */
    method RemoveHead()
      requires Shape()
      modifies this`conshistp, this`numhist, this`unlinked, history
      ensures conshistp == (old(conshistp) + 1) % nhist && numhist == old(numhist) - 1
      ensures
        var rm := (conshistp + nhist - KEEP_FILE_COUNT) % nhist;
        && history[..nhist] == old(history[..nhist])[rm := old(history[..nhist])[rm].(fname := NO_NAMES)]
        && unlinked == old(unlinked) + NamesOf(old(history[..nhist])[rm].fname)
    {
      conshistp := (conshistp + 1) % nhist;
      numhist := numhist - 1;
      ClearSlot((conshistp + nhist - KEEP_FILE_COUNT) % nhist);
    }

    /** The consumer retires the head of the queue. */
    method HistRemove()
      requires Valid() && numhist > 0
      modifies this`conshistp, this`numhist, this`unlinked, this`log, history
      ensures Valid() && log == Remove(old(log))
    {
      RemoveValid(log, nhist);
      RemoveSlots(log, nhist, history[..nhist]);
      RemoveHead();
      log := Remove(log);
    }

    /**
     One pass of the consumer's wait loop: either the head of the queue, or the consumer counts
     itself as waiting.
    */
    method HistGet() returns (hp: Option<nat>)
      requires Valid()
      modifies this`waithist
      ensures Valid()
      ensures hp.Some? <==> log.Queued() > 0
      ensures hp.Some? ==> hp.value == log.removed % nhist < nhist && history[hp.value] == log.entries[log.removed]
      ensures waithist == old(waithist) + if hp.None? then 1 else 0
    {
      if numhist > 0 {
        hp := Some(conshistp);
        SlotHolds(log.entries, nhist, log.removed);
      } else {
        waithist := waithist + 1;
        hp := None;
      }
    }

    /** Woken up in `histget`, the consumer stops counting itself and tries again. */
    method WokenUp()
      requires Valid() && waithist > 0
      modifies this`waithist
      ensures Valid() && waithist == old(waithist) - 1
    {
      waithist := waithist - 1;
    }

    /** The two halves of `histwait`, before and after the wait. */
    method WaitSecond()
      requires Valid()
      modifies this`waithist2
      ensures Valid() && waithist2 == old(waithist2) + 1
    {
      waithist2 := waithist2 + 1;
    }

    method WokenUpSecond()
      requires Valid() && waithist2 > 0
      modifies this`waithist2
      ensures Valid() && waithist2 == old(waithist2) - 1
    {
      waithist2 := waithist2 - 1;
    }

    /** The producer index points at the newest accepted date, or at an unused slot. */
    lemma NewestSlot()
      requires Valid()
      ensures history[prodhistp].date == log.Newest()
    {
      if log.entries == [] {
        SlotIndexRange(0, nhist, 0);
      } else {
        SlotHolds(log.entries, nhist, |log.entries| - 1);
      }
    }

    /** A file arrives that belongs to log entry `k`. */
    method StoreName(slot: nat, ghost k: nat, path: Path, tent: nat)
      requires Valid() && tent < FNAME_MAX
      requires |log.entries| - nhist <= k < |log.entries| && slot == k % nhist
      modifies this`log, history
      ensures Valid() && log == Store(Arrived(old(log), path), k, path, tent)
    {
      log := Arrived(log, path);
      AddName(slot, k, path, tent);
    }

    /** The head of a full queue is evicted; the new date is already counted. */
    method MakeRoom(ghost l0: Log)
      requires Shape() && ValidLog(l0, nhist)
      requires conshistp == l0.removed % nhist && numhist == l0.Queued() + 1
      requires unlinked == l0.unlinked && history[..nhist] == Slots(l0.entries, nhist)
      modifies this`conshistp, this`numhist, this`unlinked, history
      ensures
        var l1 := Evict(l0, nhist);
        && conshistp == l1.removed % nhist && numhist == l1.Queued() + 1
        && unlinked == l1.unlinked && history[..nhist] == Slots(l1.entries, nhist)
    {
      if numhist > nhist - KEEP_FILE_COUNT {
        RemoveSlots(l0, nhist, history[..nhist]);
        RemoveHead();
        assert conshistp == (l0.removed + 1) % nhist;
      }
    }

    /** The producer index moves to the next slot, except for the very first date. */
    method Advance()
      requires Valid()
      modifies this`prodhistp
      ensures prodhistp == |log.entries| % nhist
    {
      NewestSlot();
      Modulo.Next(|log.entries| - 1, nhist);
      if history[prodhistp].date != 0 {
        prodhistp := (prodhistp + 1) % nhist;
      } else {
        Modulo.Small(0, nhist);
      }
    }

    /** The slot under the producer index receives the new date. */
    method StampDate(ghost l1: Log, dt: nat)
      requires Shape() && 0 <= l1.Queued() < nhist - KEEP_FILE_COUNT
      requires Increasing(l1.entries) && ThreeNames(l1.entries) && dt > l1.Newest()
      requires conshistp == l1.removed % nhist && numhist == l1.Queued() + 1
      requires prodhistp == |l1.entries| % nhist
      requires unlinked == l1.unlinked && history[..nhist] == Slots(l1.entries, nhist)
      modifies this`log, history
      ensures Valid() && log == Open(l1, nhist, dt)
    {
      OpenSlots(l1, nhist, dt, history[..nhist]);
      OpenValid(l1, nhist, dt);
      history[prodhistp] := history[prodhistp].(date := dt);
      log := Open(l1, nhist, dt);
    }

    /** The producer moves on to a new date, evicting the head of a full queue. */
    method PutNew(path: Path, dt: nat, tent: nat)
      requires Valid() && tent < FNAME_MAX && dt > log.Newest()
      modifies this`prodhistp, this`conshistp, this`numhist, this`unlinked, this`log, history
      ensures Valid() && log == Put(old(log), nhist, path, dt, tent)
    {
      ghost var l0 := Arrived(log, path);
      EvictValid(l0, nhist);
      Advance();
      numhist := numhist + 1;
      MakeRoom(l0);
      StampDate(Evict(l0, nhist), dt);
      AddName(prodhistp, |l0.entries|, path, tent);
    }

    /** A name is stored in the slot of log entry `k`. */
    method AddName(slot: nat, ghost k: nat, path: Path, tent: nat)
      requires Valid() && tent < FNAME_MAX
      requires |log.entries| - nhist <= k < |log.entries| && slot == k % nhist
      modifies this`log, history
      ensures Valid() && log == Store(old(log), k, path, tent)
    {
      StoreValid(log, k, path, tent);
      StoreSlots(log, nhist, k, path, tent, history[..nhist]);
      log := Store(log, k, path, tent);
      history[slot] := history[slot].(fname := history[slot].fname[tent := Some(path)]);
    }

    /**
     The backward search for a late file: it succeeds exactly when the date is among the last
     `nhist` accepted ones, and finds the one slot that holds it.
    */
    method SearchBack(dt: nat) returns (found: Option<nat>)
      requires Valid() && 0 < dt < log.Newest()
      ensures found.Some? <==> Lookup(log, nhist, dt).Some?
      ensures found.Some? ==> found.value == Lookup(log, nhist, dt).value % nhist
      ensures found.Some? ==>
                forall s :: 0 <= s < nhist ==> (history[s].date == dt <==> s == found.value)
      ensures found.None? ==> forall s :: 0 <= s < nhist ==> history[s].date != dt
    {
      ghost var m := |log.entries|;
      var oldprodp := (if prodhistp == 0 then nhist else prodhistp) - 1;
      Modulo.Previous(m - 1, nhist);
      SlotDates(dt);
      for i := 0 to nhist - 1
        invariant oldprodp == (m - 2 - i) % nhist
        invariant forall j :: 0 <= j && m - 2 - i < j < m ==> log.entries[j].date != dt
      {
        SlotIndexOf(m, nhist, m - 2 - i);
        if history[oldprodp].date == dt {
          LookupUnique(log, nhist, m - 2 - i);
          return Some(oldprodp);
        }
        Modulo.Previous(m - 2 - i, nhist);
        oldprodp := (if oldprodp == 0 then nhist else oldprodp) - 1;
      }
      return None;
    }

    /** A non-zero date is in a slot exactly when the lookup in the log leads to that slot. */
    lemma SlotDates(dt: nat)
      requires Valid() && 0 < dt
      ensures forall s :: 0 <= s < nhist ==>
                            (history[s].date == dt <==>
                             Lookup(log, nhist, dt).Some? && Lookup(log, nhist, dt).value % nhist == s)
    {
      var r := Lookup(log, nhist, dt);
      forall s | 0 <= s < nhist
        ensures history[s].date == dt <==> r.Some? && r.value % nhist == s
      {
        SlotIndexRange(|log.entries|, nhist, s);
        if history[s].date == dt {
          LookupUnique(log, nhist, SlotIndex(|log.entries|, nhist, s));
        }
        if r.Some? {
          SlotHolds(log.entries, nhist, r.value);
        }
      }
    }

    /** A file of an older date goes to its entry, or is unlinked if no slot has its date. */
    method PutLate(path: Path, dt: nat, tent: nat) returns (kept: bool)
      requires Valid() && tent < FNAME_MAX && 0 < dt < log.Newest()
      modifies this`unlinked, this`log, history
      ensures Valid() && log == Put(old(log), nhist, path, dt, tent)
      ensures kept <==> Lookup(old(log), nhist, dt).Some?
    {
      var found := SearchBack(dt);
      kept := found.Some?;
      if kept {
        StoreName(found.value, Lookup(log, nhist, dt).value, path, tent);
      } else {
        log := Put(log, nhist, path, dt, tent);
        unlinked := unlinked + [path];
      }
    }

    /**
     Registering a file.  The results say whether the two condition variables are signalled:
     exactly when the file was kept and somebody waits.
    */
    method HistPut(path: Path, dt: int, tent: int) returns (signal: bool, signal2: bool)
      requires Valid() && dt != 0 && tent != FNAME_MAX
      requires -0x8000_0000_0000_0000 <= dt < 0x8000_0000_0000_0000
      modifies this`prodhistp, this`conshistp, this`numhist, this`unlinked, this`log, history
      ensures Valid() && log == Put(old(log), nhist, path, Unsigned(dt), tent)
      ensures signal <==> Accepts(old(log), nhist, Unsigned(dt), tent) && waithist > 0
      ensures signal2 <==> Accepts(old(log), nhist, Unsigned(dt), tent) && waithist2 > 0
      ensures PutShown(old(log), nhist, path, Unsigned(dt), tent, log, old(history[..nhist]), history[..nhist])
    {
      signal, signal2 := false, false;
      var u := Unsigned(dt);
      PutIsShown(log, nhist, path, u, tent);
      if tent < 0 || tent > FNAME_MAX {
        log := log.(disk := log.disk + {path});
        return;
      }
      NewestSlot();
      if u == history[prodhistp].date {
        LookupUnique(log, nhist, |log.entries| - 1);
        StoreName(prodhistp, |log.entries| - 1, path, tent);
      } else if u > history[prodhistp].date {
        PutNew(path, u, tent);
      } else {
        var kept := PutLate(path, u, tent);
        if !kept {
          return;
        }
      }
      signal := waithist > 0;
      signal2 := waithist2 > 0;
    }
  }
}
