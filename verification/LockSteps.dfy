/**
 The reader and the writer in place, and the lock protocol: a call of `_jitget` is what the reader does
 between getting a lock and releasing it, a completed set is what the writer does.  While a lock is
 held no other process touches the file (`LockedIsStable`), so a whole call may stand for its steps.
*/
module LockSteps {
  import opened Wrappers
  import opened HistoryLog
  import opened Collector
  import opened WireFormat
  import opened GetTransfer
  import opened JitKClient
  import opened LockFile
  import opened Publisher
  import L = LockRegister
  import P = LockProtocol

  /** Consecutive steps of the protocol. */
  ghost predicate Steps(ss: seq<P.Sys>, es: seq<P.Event>) {
    |ss| == |es| + 1 && forall i :: 0 <= i < |es| ==> P.Step(ss[i], es[i], ss[i + 1])
  }

  /** The bytes of the two lock files. */
  ghost function Texts(locks: array<LockFile>): (r: seq<seq<char>>)
    requires locks.Length == 2
    reads locks, locks[..]
    ensures |r| == 2
  {
    [locks[0].content, locks[1].content]
  }

  /** Between two calls: the reader rests at the lock file that is due, and the bytes are those of the protocol. */
  ghost predicate ReaderAt(r: Reader, id: nat, s: P.Sys, sets: nat -> seq<string>)
    reads r, r.client, r.client.fpath, r.locks, r.locks[..]
  {
    && r.Valid() && id < |s.readers| && s.readers[id] == P.Resting(r.tick)
    && L.Represents(s, Texts(r.locks), sets)
  }

  /** The protocol's account of a call that finds `o` in its lock file. */
  ghost predicate Took(s: P.Sys, id: nat, f: P.File, o: Option<nat>, ss: seq<P.Sys>, es: seq<P.Event>) {
    && Steps(ss, es) && ss[0] == s
    && es == [P.RLock(id), P.RRead(id)] + (if o.Some? then [P.RNullify(id)] else []) + [P.RUnlock(id)]
    && var t := ss[|es|];
    && P.Shape(s) && P.Shape(t) && id < |s.readers| == |t.readers|
    && t.content == s.content[f := None] && t.holder == s.holder && t.writer == s.writer && t.published == s.published
    && t.readers == s.readers[id := P.Resting(P.Other(f))]
    && t.log == s.log + if o.Some? then [P.Read(id, o.value)] else []
  }

  lemma TakesSet(s: P.Sys, id: nat, f: P.File, i: nat) returns (ss: seq<P.Sys>, es: seq<P.Event>)
    requires P.Shape(s) && id < |s.readers| && s.readers[id] == P.Resting(f) && s.holder[f] == None
    requires s.content[f] == Some(i)
    ensures Took(s, id, f, Some(i), ss, es)
  {
    var g, h := P.Other(f), s.holder[f := Some(P.Reading(id))];
    var s1 := s.(readers := s.readers[id := P.Locked(f, g)], holder := h);
    var s2 := s1.(readers := s.readers[id := P.Got(f, g, i)], log := s.log + [P.Read(id, i)]);
    var s3 := s2.(readers := s.readers[id := P.Finishing(f, g)], content := s.content[f := None]);
    var s4 := s3.(readers := s.readers[id := P.Resting(g)], holder := s.holder);
    assert s1.readers[id := P.Got(f, g, i)] == s2.readers && s2.readers[id := P.Finishing(f, g)] == s3.readers;
    assert s3.readers[id := P.Resting(g)] == s4.readers && h[f := None] == s.holder;
    ss, es := [s, s1, s2, s3, s4], [P.RLock(id), P.RRead(id), P.RNullify(id), P.RUnlock(id)];
  }

  lemma TakesNothing(s: P.Sys, id: nat, f: P.File) returns (ss: seq<P.Sys>, es: seq<P.Event>)
    requires P.Shape(s) && id < |s.readers| && s.readers[id] == P.Resting(f) && s.holder[f] == None
    requires s.content[f] == None
    ensures Took(s, id, f, None, ss, es)
  {
    var g, h := P.Other(f), s.holder[f := Some(P.Reading(id))];
    var s1 := s.(readers := s.readers[id := P.Locked(f, g)], holder := h);
    var s2 := s1.(readers := s.readers[id := P.Finishing(f, g)]);
    var s3 := s2.(readers := s.readers[id := P.Resting(g)], holder := s.holder);
    assert s1.readers[id := P.Finishing(f, g)] == s2.readers;
    assert s2.readers[id := P.Resting(g)] == s3.readers && h[f := None] == s.holder;
    assert s.content[f := None] == s.content && s.log + [] == s.log;
    ss, es := [s, s1, s2, s3], [P.RLock(id), P.RRead(id), P.RUnlock(id)];
  }

  lemma Takes(s: P.Sys, id: nat, f: P.File) returns (ss: seq<P.Sys>, es: seq<P.Event>)
    requires P.Shape(s) && id < |s.readers| && s.readers[id] == P.Resting(f) && s.holder[f] == None
    ensures Took(s, id, f, s.content[f], ss, es)
  {
    match s.content[f]
    case Some(i) => ss, es := TakesSet(s, id, f, i);
    case None => ss, es := TakesNothing(s, id, f);
  }

  /** The bytes after a call stand for the protocol's state after it. */
  lemma TakenRepresents(s: P.Sys, t: P.Sys, f: P.File, texts: seq<seq<char>>, after: seq<seq<char>>,
                        sets: nat -> seq<string>)
    requires L.Represents(s, texts, sets) && P.Shape(t) && t.content == s.content[f := None]
    requires after == texts[f := if s.content[f].Some? then Overwrite(texts[f], L.ZEROS) else texts[f]]
    ensures L.Represents(t, after, sets)
  {
    L.ZeroedReadsAs(texts[f]);
    forall g: P.File
      ensures L.ReadsAs(after[g], L.NamesIn(t.content[g], sets))
    {
      assert L.ReadsAs(texts[g], L.NamesIn(s.content[g], sets));
    }
  }

  /** A call in terms of the bytes: what the file that is due reads as, and what becomes of it. */
  method ReadDue(r: Reader, disk: map<string, seq<byte>>, data: array<byte>, bsize: array<nat>,
                 ghost f: P.File, ghost texts: seq<seq<char>>, ghost o: Option<seq<string>>)
    returns (ok: bool, fname: string)
    requires r.Valid() && f == r.tick && texts == Texts(r.locks) && L.ReadsAs(texts[f], o)
    requires Offset(bsize[..], bsize.Length) <= data.Length
    modifies r`tick, r.client.fpath, r.locks[r.tick], data, bsize
    ensures r.Valid() && r.tick == P.Other(f) && (ok <==> o.Some?)
    ensures Texts(r.locks) == texts[f := if ok then Overwrite(texts[f], L.ZEROS) else texts[f]]
    ensures
      ok ==>
        && Obtained(old(data[..]), data[..], old(bsize[..]), bsize[..], disk, o.value)
        && fname == NameList(o.value, bsize.Length)
    ensures !ok ==> data[..] == old(data[..]) && bsize[..] == old(bsize[..])
  {
    assert Fetched(r.client.fpath[..], texts[f]) == o;
    ok, fname := r.JitGet(disk, data, bsize);
  }

  /**
   _jitget, once it has the lock of the file that is due.  It succeeds exactly if the protocol has a set
   there, and then returns the names and files of that set; it goes on to the other file in any case.
  */
  method GetSteps(r: Reader, id: nat, disk: map<string, seq<byte>>, data: array<byte>, bsize: array<nat>,
                  ghost s: P.Sys, ghost sets: nat -> seq<string>)
    returns (ok: bool, fname: string, ghost ss: seq<P.Sys>, ghost es: seq<P.Event>)
    requires ReaderAt(r, id, s, sets) && s.holder[r.tick] == None
    requires Offset(bsize[..], bsize.Length) <= data.Length
    modifies r`tick, r.client.fpath, r.locks[r.tick], data, bsize
    ensures Took(s, id, old(r.tick), s.content[old(r.tick)], ss, es) && ReaderAt(r, id, ss[|es|], sets)
    ensures ok <==> s.content[old(r.tick)].Some?
    ensures
      ok ==>
        var names := sets(s.content[old(r.tick)].value);
        && Obtained(old(data[..]), data[..], old(bsize[..]), bsize[..], disk, names)
        && fname == NameList(names, bsize.Length)
    ensures !ok ==> data[..] == old(data[..]) && bsize[..] == old(bsize[..])
  {
    ghost var f: P.File, texts := r.tick, Texts(r.locks);
    ss, es := Takes(s, id, f);
    ok, fname := ReadDue(r, disk, data, bsize, f, texts, L.NamesIn(s.content[f], sets));
    TakenRepresents(s, ss[|es|], f, texts, Texts(r.locks), sets);
  }

  // ----- The writer -----

  /** Between two calls: what the writer holds, or waits for, and how many sets it has published. */
  ghost predicate WriterAt(w: Writer, s: P.Sys, sets: nat -> seq<string>)
    reads w, w.groups, w.groups.history, w.locks, w.locks[..]
  {
    && w.Valid() && s.published == |w.groups.h.published|
    && s.writer == (if w.holds then P.Collecting(w.tick) else P.WantsLock(w.tick))
    && L.Represents(s, Texts(w.locks), sets)
  }

  /** If this file completes a set, its names are those of the next set, and fit into a lock file. */
  ghost predicate Completes(h: Hist, a: Arrival, entries: nat, sets: nat -> seq<string>)
    requires Grouped(h, entries) && ValidArrival(a, entries)
  {
    var r := Collect(h, a, entries);
    r.published != h.published ==>
      && r.cur < |r.slots| && |r.slots[r.cur].fname| == FNAME_MAX && Complete(r.slots[r.cur], entries)
      && sets(|h.published|) == SetNames(r.slots[r.cur], entries) && L.Publishable(sets(|h.published|))
  }

  lemma Publishes(s: P.Sys, f: P.File, texts: seq<seq<char>>, after: seq<seq<char>>, sets: nat -> seq<string>)
    returns (ss: seq<P.Sys>, es: seq<P.Event>)
    requires L.Represents(s, texts, sets) && s.writer == P.Collecting(f) && L.Publishable(sets(s.published))
    requires after == texts[f := Overwrite(texts[f], Join(sets(s.published)) + [NUL])]
    ensures Steps(ss, es) && ss[0] == s && es == [P.Write, P.Unlock]
    ensures
      && ss[2].writer == P.WantsLock(P.Other(f)) && ss[2].published == s.published + 1
      && L.Represents(ss[2], after, sets)
  {
    var s1 := s.(writer := P.Written(f), content := s.content[f := Some(s.published)], published := s.published + 1);
    var s2 := s1.(writer := P.WantsLock(P.Other(f)), holder := s.holder[f := None]);
    ss, es := [s, s1, s2], [P.Write, P.Unlock];
    L.StepRepresents(s, P.Write, s1, sets, texts, after);
    L.StepRepresents(s1, P.Unlock, s2, sets, after, after);
  }

  /** An arriving file in terms of the bytes of the lock files. */
  method WriteDue(w: Writer, a: Arrival, ghost f: P.File, ghost texts: seq<seq<char>>, ghost names: seq<string>)
    requires w.Valid() && w.holds && f == w.tick && texts == Texts(w.locks) && ValidArrival(a, w.groups.entries)
    requires
      var r := Collect(w.groups.h, a, w.groups.entries);
      r.published != w.groups.h.published ==>
        && r.cur < |r.slots| && |r.slots[r.cur].fname| == FNAME_MAX && Complete(r.slots[r.cur], w.groups.entries)
        && names == SetNames(r.slots[r.cur], w.groups.entries)
    modifies w`tick, w`holds, w.groups, w.groups.history, w.locks[..]
    ensures w.Valid() && w.groups.h == Collect(old(w.groups.h), a, w.groups.entries)
    ensures w.holds <==> w.groups.h.published == old(w.groups.h.published)
    ensures w.tick == if w.holds then f else P.Other(f)
    ensures Texts(w.locks) == if w.holds then texts else texts[f := Overwrite(texts[f], Join(names) + [NUL])]
  {
    w.Transfer(a);
    assert w.groups.history[w.groups.curhistp] == w.groups.h.slots[w.groups.h.cur];
  }

  /** One arriving file: a completed set is written and its lock released; any other file is no step. */
  method TransferSteps(w: Writer, a: Arrival, ghost s: P.Sys, ghost sets: nat -> seq<string>)
    returns (ghost ss: seq<P.Sys>, ghost es: seq<P.Event>)
    requires WriterAt(w, s, sets) && w.holds && ValidArrival(a, w.groups.entries)
    requires Completes(w.groups.h, a, w.groups.entries, sets)
    modifies w`tick, w`holds, w.groups, w.groups.history, w.locks[..]
    ensures Steps(ss, es) && ss[0] == s && WriterAt(w, ss[|es|], sets)
    ensures es == if w.groups.h.published == old(w.groups.h.published) then [] else [P.Write, P.Unlock]
  {
    ghost var f: P.File, texts := w.tick, Texts(w.locks);
    ghost var h, names := w.groups.h, sets(s.published);
    WriteDue(w, a, f, texts, names);
    if w.holds {
      ss, es := [s], [];
    } else {
      PublishedComplete(h, a, w.groups.entries);
      ss, es := Publishes(s, f, texts, Texts(w.locks), sets);
    }
  }

  /** The end of the wait for the other lock. */
  method TakeLockStep(w: Writer, ghost s: P.Sys, ghost sets: nat -> seq<string>) returns (ghost t: P.Sys)
    requires WriterAt(w, s, sets) && !w.holds && s.holder[w.tick] == None
    modifies w`holds
    ensures P.Step(s, P.Lock, t) && WriterAt(w, t, sets)
  {
    w.TakeLock();
    t := s.(writer := P.Collecting(w.tick), holder := s.holder[w.tick := Some(P.TheWriter)]);
  }
}
