/**
 The producer side of `lwatcher`: a file whose name the patterns understand is registered under
 the date and the column they give; files of other types are deleted at once.
*/
module LWatcher {
  import opened Wrappers
  import opened HistoryLog
  import opened HistoryRing
  import opened HistoryNames
  import ConfigReader

  /** What the patterns read out of a file name: its date as a number, and its type. */
  datatype Match = Match(date: int, typ: string)

  /** The first column with this type. */
  ghost predicate IsColumn(types: seq<string>, typ: string, k: int) {
    0 <= k < |types| && types[k] == typ && forall j :: 0 <= j < k ==> types[j] != typ
  }

  /**
   One arriving file.  Whatever is registered carries its own date and column, as the guarantees
   for replies assume; a file that is on time therefore keeps the history clean.  A column beyond the
   last of the history is refused there; the first one beyond it is excluded, see `HistPut`.
  */
  method Watcher(hist: History, config: ConfigReader.Config, fpath: string, found: Option<Match>)
    returns (deleted: bool)
    requires hist.Valid() && config.Valid()
    requires found.Some? ==> !IsColumn(config.synctype[..config.syncent], found.value.typ, FNAME_MAX)
    requires found.Some? ==> found.value.date != 0
    requires found.Some? ==> -0x8000_0000_0000_0000 <= found.value.date < 0x8000_0000_0000_0000
    modifies hist, hist.history
    ensures hist.Valid()
    ensures
      var types := config.synctype[..config.syncent];
      if found.None? then !deleted && hist.log == old(hist.log)
      else if found.value.typ !in types then deleted && hist.log == old(hist.log)
      else
        var dt := Unsigned(found.value.date);
        && !deleted
        && exists k :: IsColumn(types, found.value.typ, k)
                       && hist.log == Put(old(hist.log), hist.nhist, Path(fpath, dt, k), dt, k)
                       && (Clean(old(hist.log), hist.nhist) && OnTime(old(hist.log), hist.nhist, dt)
                           ==> Clean(hist.log, hist.nhist))
  {
    deleted := false;
    if found.None? {
      return;
    }
    var dt, typ := found.value.date, found.value.typ;
    var tp := config.SyncEntry(typ);
    if tp < 0 {
      return true;
    }
    ghost var l, types := hist.log, config.synctype[..config.syncent];
    var path := Path(fpath, Unsigned(dt), tp);
    var signal, signal2 := hist.HistPut(path, dt, tp);
    assert IsColumn(types, typ, tp);
    if Clean(l, hist.nhist) {
      PutClean(l, hist.nhist, path, tp);
    }
  }
}
