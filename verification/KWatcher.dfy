/** The collector of `kwatcher` as it is: an array of slots and a current index, changed in place. */
module KWatcher {
  import opened Wrappers
  import opened HistoryLog
  import opened Collector
  import Modulo

  const MAX_HISTORY: nat := 5

  lemma Wrap(n: nat, i: nat)
    requires i < n
    ensures (i + 1) % n == Succ(n, i)
    ensures (if i == 0 then n - 1 else (i - 1) % n) == Pred(n, i)
  {
    if i + 1 < n {
      Modulo.Small(i + 1, n);
    }
    if i > 0 {
      Modulo.Small(i - 1, n);
    }
  }

  class Groups {
    const nhist: nat
    const entries: nat
    const history: array<Entry>
    var curhistp: nat
    var unlinked: seq<Path>  // files deleted by evictions
    var others: seq<Path>    // files deleted because of their type
    ghost var h: Hist

    ghost predicate Valid()
      reads this, history
    {
      && 0 < nhist <= history.Length
      && Grouped(h, entries) && |h.slots| == nhist
      && history[..nhist] == h.slots && curhistp == h.cur
      && unlinked == h.unlinked && others == h.others
    }

    constructor (nh: nat, nsize: nat)
      requires 0 < nh <= MAX_HISTORY && nsize <= FNAME_MAX
      ensures Valid() && fresh(history) && nhist == nh && entries == nsize && h == Init(nh)
    {
      nhist, entries := nh, nsize;
      history := new Entry[MAX_HISTORY](_ => UNUSED);
      curhistp := 0;
      unlinked, others := [], [];
      h := Init(nh);
      new;
      InitGrouped(nh, nsize);
      assert history[..nhist] == h.slots;
    }

    /** The slot that collects the date already; a late file may be up to two slots back. */
    method Find(dt: nat) returns (slot: Option<nat>)
      requires Valid()
      ensures slot == Target(h, dt)
    {
      if dt == history[curhistp].date {
        return Some(curhistp);
      }
      if dt < history[curhistp].date {
        var p := curhistp;
        for i := 0 to 2
          invariant p == if i == 0 then h.cur
                         else if i == 1 then Pred(nhist, h.cur)
                         else Pred(nhist, Pred(nhist, h.cur))
          invariant i >= 1 ==> h.slots[Pred(nhist, h.cur)].date != dt
          invariant i >= 2 ==> h.slots[Pred(nhist, Pred(nhist, h.cur))].date != dt
        {
          Wrap(nhist, p);
          p := if p == 0 then nhist - 1 else (p - 1) % nhist;
          if dt == history[p].date {
            return Some(p);
          }
        }
      }
      Wrap(nhist, curhistp);
      var next := (curhistp + 1) % nhist;
      if dt == history[next].date {
        return Some(next);
      }
      return None;
    }

    /** All columns of the slot are filled. */
    method Filled(slot: nat) returns (full: bool)
      requires Valid() && slot < nhist
      ensures full <==> Complete(history[slot], entries)
    {
      for i := 0 to entries
        invariant forall j :: 0 <= j < i ==> history[slot].fname[j].Some?
      {
        if history[slot].fname[i].None? {
          return false;
        }
      }
      return true;
    }

    /** The files of a slot are deleted, column by column. */
    method Discard(slot: nat)
      requires Valid() && slot < nhist
      modifies this`unlinked, history
      ensures unlinked == old(unlinked) + NamesOf(old(history[slot].fname))
      ensures history[..nhist] == old(history[..nhist])[slot := old(history[slot]).(fname := NO_NAMES)]
    {
      ghost var was := history[slot];
      for i := 0 to entries
        invariant |history[slot].fname| == FNAME_MAX && history[slot].date == was.date
        invariant history[..nhist] == old(history[..nhist])[slot := history[slot]]
        invariant forall j :: 0 <= j < i ==> history[slot].fname[j] == None
        invariant forall j :: i <= j < FNAME_MAX ==> history[slot].fname[j] == was.fname[j]
        invariant unlinked == old(unlinked) + NamesOf(was.fname[..i])
      {
        assert was.fname[..i + 1][..i] == was.fname[..i];
        var f := history[slot].fname;
        if f[i].Some? {
          unlinked := unlinked + [f[i].value];
          history[slot] := history[slot].(fname := f[i := None]);
        }
      }
      NamesPrefix(was.fname, entries);
      assert history[slot].fname == NO_NAMES;
    }

    /** One arriving file; the result is the slot of the set that became complete, if any. */
    method MkHist(a: Arrival) returns (files: Option<nat>)
      requires Valid() && ValidArrival(a, entries)
      modifies this`curhistp, this`unlinked, this`others, this`h, history
      ensures Valid() && h == Collect(old(h), a, entries)
      ensures files == if |h.published| > |old(h).published| then Some(curhistp) else None
      ensures files.None? <==> h.published == old(h).published
      ensures files.Some? ==> Complete(history[files.value], entries)
    {
      files := None;
      CollectGrouped(h, a, entries);
      if a.Unparsable? {
        return;
      }
      var path := a.path;
      if a.OtherType? {
        others := others + [path];
        h := Collect(h, a, entries);
        return;
      }
      var found := Find(path.date);
      if found.None? {
        StartSlot(path);
      } else {
        files := AddToSlot(found.value, path);
      }
    }

    method AddToSlot(slot: nat, path: Path) returns (files: Option<nat>)
      requires Valid() && ValidArrival(File(path), entries) && Target(h, path.date) == Some(slot)
      modifies this`curhistp, this`h, history
      ensures Valid() && h == Collect(old(h), File(path), entries)
      ensures files == if |h.published| > |old(h).published| then Some(curhistp) else None
      ensures files.None? <==> h.published == old(h).published
      ensures files.Some? ==> Complete(history[files.value], entries)
    {
      CollectGrouped(h, File(path), entries);
      curhistp := slot;
      if history[slot].fname[path.kind].Some? {
        h := Collect(h, File(path), entries);
        return None;
      }
      history[slot] := history[slot].(fname := history[slot].fname[path.kind := Some(path)]);
      h := Collect(h, File(path), entries);
      assert history[..nhist] == h.slots;
      var full := Filled(slot);
      files := if full then Some(slot) else None;
    }

    method StartSlot(path: Path)
      requires Valid() && ValidArrival(File(path), entries) && Target(h, path.date) == None
      modifies this`curhistp, this`unlinked, this`h, history
      ensures Valid() && h == Collect(old(h), File(path), entries)
      ensures h.published == old(h).published
    {
      CollectGrouped(h, File(path), entries);
      Wrap(nhist, curhistp);
      var slot := (curhistp + 1) % nhist;
      if history[slot].date > 0 {
        Discard(slot);
      }
      curhistp := slot;
      history[slot] := history[slot].(date := path.date);
      history[slot] := history[slot].(fname := history[slot].fname[path.kind := Some(path)]);
      h := Collect(h, File(path), entries);
      assert history[..nhist] == h.slots;
    }
  }

  /** Columns beyond the number of sync types are empty, so they add no names. */
  lemma NamesPrefix(f: seq<Option<Path>>, k: nat)
    requires k <= |f| && forall t :: k <= t < |f| ==> f[t] == None
    ensures NamesOf(f) == NamesOf(f[..k])
  {
    if k < |f| {
      NamesPrefix(f[..|f| - 1], k);
      assert f[..|f| - 1][..k] == f[..k];
    } else {
      assert f[..k] == f;
    }
  }
}
