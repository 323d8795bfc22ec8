/**
 From arriving files to every reader: the sets that the collector publishes, one after the other, go
 through the lock files in any interleaving, and each read gives one file of each type, all of the
 date of one published set.
*/
module SetHandoff {
  import opened Wrappers
  import opened HistoryLog
  import opened Collector
  import opened LockFile
  import opened LockRegister
  import P = LockProtocol

  /** The files of a complete slot, in the order of their types. */
  function SetFiles(e: Entry, entries: nat): (r: seq<Path>)
    requires |e.fname| == FNAME_MAX && entries <= FNAME_MAX && Complete(e, entries)
    ensures |r| == entries && forall t :: 0 <= t < entries ==> r[t] == e.fname[t].value
  {
    seq(entries, t requires 0 <= t < entries => e.fname[t].value)
  }

  /** One file each of types 0, 1, ..., all of the given date. */
  ghost predicate OneDate(ps: seq<Path>, date: nat) {
    forall t :: 0 <= t < |ps| ==> ps[t].date == date && ps[t].kind == t
  }

  /** The sets that were published, in their order. */
  function Sets(n: nat, entries: nat, fs: seq<Arrival>): (r: seq<seq<Path>>)
    requires 0 < n && entries <= FNAME_MAX && ValidArrivals(fs, entries)
    ensures |r| == |CollectAll(n, entries, fs).published|
  {
    if fs == [] then []
    else
      var b := CollectAll(n, entries, fs[..|fs| - 1]);
      var h := Collect(b, fs[|fs| - 1], entries);
      var earlier := Sets(n, entries, fs[..|fs| - 1]);
      if h.published == b.published then earlier
      else
        PublishedComplete(b, fs[|fs| - 1], entries);
        earlier + [SetFiles(h.slots[h.cur], entries)]
  }

  /** Every published set has one file of each type, all of the date it was published under. */
  lemma {:induction false} SetsAreComplete(n: nat, entries: nat, fs: seq<Arrival>, i: nat)
    requires 0 < n && entries <= FNAME_MAX && ValidArrivals(fs, entries) && i < |Sets(n, entries, fs)|
    ensures |Sets(n, entries, fs)[i]| == entries
    ensures OneDate(Sets(n, entries, fs)[i], CollectAll(n, entries, fs).published[i])
  {
    if fs == [] {
    } else {
      var init, a := fs[..|fs| - 1], fs[|fs| - 1];
      var b := CollectAll(n, entries, init);
      if Collect(b, a, entries).published != b.published {
        PublishedComplete(b, a, entries);
      }
      if i < |b.published| {
        SetsAreComplete(n, entries, init, i);
      }
    }
  }

  function Names(ps: seq<Path>): (r: seq<string>)
    ensures |r| == |ps| && forall t :: 0 <= t < |r| ==> r[t] == ps[t].name
  {
    seq(|ps|, t requires 0 <= t < |ps| => ps[t].name)
  }

  /** The names of set i. */
  function SetNames(sets: seq<seq<Path>>, i: nat): seq<string> {
    if i < |sets| then Names(sets[i]) else []
  }

  /**
   Whatever files arrive, in whatever order, and however the steps of the writer and of any number of
   readers interleave: a reader that finds something in the bytes of its lock file finds the names of
   one published set, one file of each type and all of its date, and the protocol logs that set.
  */
  lemma ReadersGetOneDate(n: nat, entries: nat, fs: seq<Arrival>, ss: seq<P.Sys>, es: seq<P.Event>,
                          tss: seq<seq<seq<char>>>, k: nat, id: nat, buf: seq<char>)
    returns (i: Option<nat>)
    requires 0 < n && entries <= FNAME_MAX && ValidArrivals(fs, entries)
    requires P.Run(ss, es) && ss[|es|].published <= |CollectAll(n, entries, fs).published|
    requires TextRun(ss, es, (j: nat) => SetNames(Sets(n, entries, fs), j), tss)
    requires k < |es| && es[k] == P.RRead(id) && |buf| == PATH_MAX + 1
    ensures id < |ss[k].readers| && ss[k].readers[id].Locked? && |tss[k]| == 2
    ensures
      var got := Fetched(buf, tss[k][ss[k].readers[id].f]);
      match i
      case None => got == None && ss[k + 1].log == ss[k].log
      case Some(j) =>
        var h := CollectAll(n, entries, fs);
        && j < |Sets(n, entries, fs)| && ss[k + 1].log == ss[k].log + [P.Read(id, j)]
        && var files := Sets(n, entries, fs)[j];
        got == Some(Names(files)) && |files| == entries && OneDate(files, h.published[j])
  {
    var sets := (j: nat) => SetNames(Sets(n, entries, fs), j);
    i := ReaderGetsNames(ss, es, sets, tss, k, id, buf);
    assert ss[k].log + [] == ss[k].log;
    if i.Some? {
      P.RunInv(ss, es, k + 1);
      PublishedGrows(ss, es, k + 1, |es|);
      assert ss[k + 1].log[|ss[k].log|].s == i.value;
      SetsAreComplete(n, entries, fs, i.value);
    }
  }
}
