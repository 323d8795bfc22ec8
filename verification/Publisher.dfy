/**
 From an arriving file to the reader: `kwatcher` collects the file, and when that completes a set
 it writes the set's names into the lock file it holds and goes on to the other lock file.
*/
module Publisher {
  import opened Wrappers
  import opened HistoryLog
  import opened Collector
  import opened KWatcher
  import opened LockFile

  /** The names of a complete set, in the order of their types. */
  function SetNames(e: Entry, entries: nat): (r: seq<string>)
    requires |e.fname| == FNAME_MAX && entries <= FNAME_MAX && Complete(e, entries)
    ensures |r| == entries && forall t :: 0 <= t < entries ==> r[t] == e.fname[t].value.name
  {
    seq(entries, t requires 0 <= t < entries => e.fname[t].value.name)
  }

  class Writer {
    const groups: Groups
    const locks: array<LockFile>
    var tick: nat    // the lock file that is held, or waited for
    var holds: bool  // between publishing a set and getting the other lock nothing is held

    ghost predicate Valid()
      reads this, groups, groups.history, locks
    {
      groups.Valid() && locks.Length == 2 && tick < 2 && locks[0] != locks[1]
    }

    constructor (groups: Groups, first: LockFile, second: LockFile)
      requires groups.Valid() && first != second
      ensures Valid() && this.groups == groups && fresh(locks) && tick == 0 && holds
      ensures locks[0] == first && locks[1] == second
    {
      this.groups := groups;
      var fs := new LockFile[2](_ => first);
      fs[1] := second;
      locks := fs;
      tick, holds := 0, true;
    }

    /** The names of the set, each followed by a separator. */
    method SetText(slot: nat) returns (lockedf: string)
      requires Valid() && slot < groups.nhist && Complete(groups.history[slot], groups.entries)
      ensures lockedf == Join(SetNames(groups.history[slot], groups.entries))
    {
      lockedf := "";
      ghost var names := SetNames(groups.history[slot], groups.entries);
      for i := 0 to groups.entries
        invariant lockedf == Join(names[..i])
      {
        JoinMore(names[..i], names[i]);
        assert names[..i + 1] == names[..i] + [names[i]];
        lockedf := lockedf + groups.history[slot].fname[i].value.name + [SEPARATOR];
      }
      assert names[..groups.entries] == names;
    }

    /** The set goes into the lock file that is held; the lock is released, the other one is waited for. */
    method Publish(slot: nat)
      requires Valid() && holds && slot < groups.nhist && Complete(groups.history[slot], groups.entries)
      modifies this`tick, this`holds, locks[..]
      ensures Valid() && !holds && tick == 1 - old(tick)
      ensures locks[tick].content == old(locks[1 - tick].content)
      ensures
        locks[old(tick)].content
        == Overwrite(old(locks[tick].content), Join(SetNames(groups.history[slot], groups.entries)) + [NUL])
    {
      var lockedf := SetText(slot);
      ghost var was := locks[tick].content;
      locks[tick].LockedWrite(lockedf);
      OverwriteIs(was, lockedf + [NUL], locks[tick].content);
      tick, holds := 1 - tick, false;
    }

    /**
     One arriving file, up to the release of the lock.  A completed set goes into the lock file that
     is held; the lock is released, and the other one is waited for.
    */
    method Transfer(a: Arrival)
      requires Valid() && holds && ValidArrival(a, groups.entries)
      modifies this`tick, this`holds, groups, groups.history, locks[..]
      ensures Valid() && groups.h == Collect(old(groups.h), a, groups.entries)
      ensures holds <==> groups.h.published == old(groups.h.published)
      ensures locks[1 - old(tick)].content == old(locks[1 - tick].content)
      ensures holds ==> tick == old(tick) && locks[tick].content == old(locks[tick].content)
      ensures
        !holds ==>
          && tick == 1 - old(tick)
          && Complete(groups.history[groups.curhistp], groups.entries)
          && locks[old(tick)].content
             == Overwrite(old(locks[tick].content),
                          Join(SetNames(groups.history[groups.curhistp], groups.entries)) + [NUL])
    {
      var files := groups.MkHist(a);
      if files.None? {
        return;
      }
      Publish(files.value);
    }

    /** The wait is over: whatever readers did to the file meanwhile, its lock is held now. */
    method TakeLock()
      requires Valid() && !holds
      modifies this`holds
      ensures Valid() && holds
    {
      holds := true;
    }
  }

  /** The names of a published set are those of files of its date, one for each type. */
  lemma SetOfDate(h: Hist, a: Arrival, entries: nat, t: nat) returns (p: Path)
    requires Grouped(h, entries) && ValidArrival(a, entries) && t < entries
    requires Collect(h, a, entries).published != h.published
    ensures
      var r := Collect(h, a, entries);
      && r.cur < |r.slots| && |r.slots[r.cur].fname| == FNAME_MAX && Complete(r.slots[r.cur], entries)
      && p in r.puts && p.name == SetNames(r.slots[r.cur], entries)[t] && p.kind == t && p.date == a.path.date
  {
    PublishedComplete(h, a, entries);
    var r := Collect(h, a, entries);
    p := r.slots[r.cur].fname[t].value;
  }

  /** A file that arrived has this name, type and date. */
  ghost predicate IsFile(h: Hist, name: string, kind: int, date: nat) {
    exists p :: p in h.puts && p.name == name && p.kind == kind && p.date == date
  }

  /**
   End to end: whatever the lock file and the reader's buffer held before, the reader of a
   published set gets one name for each sync type, in order, all of files of the set's date.
  */
  lemma PublishedIsFetched(h: Hist, a: Arrival, entries: nat, content: seq<char>, buf: seq<char>, names: seq<string>)
    requires Grouped(h, entries) && ValidArrival(a, entries) && 1 <= entries && |buf| == PATH_MAX + 1
    requires Collect(h, a, entries).published != h.published
    requires forall p :: p in Collect(h, a, entries).puts ==> PlainName(p.name)
    requires
      var r := Collect(h, a, entries);
      && r.cur < |r.slots| && |r.slots[r.cur].fname| == FNAME_MAX && Complete(r.slots[r.cur], entries)
      && names == SetNames(r.slots[r.cur], entries) && |Join(names)| < PATH_MAX
    ensures Fetched(buf, Overwrite(content, Join(names) + [NUL])) == Some(names)
    ensures
      forall t :: 0 <= t < |names| ==>
                    IsFile(Collect(h, a, entries), names[t], t, a.path.date)
    ensures |names| == entries
  {
    forall t | 0 <= t < |names|
      ensures PlainName(names[t])
      ensures IsFile(Collect(h, a, entries), names[t], t, a.path.date)
    {
      var p := SetOfDate(h, a, entries, t);
    }
    RegisterRoundTrip(content, names, buf);
  }
}
