/**
 The two lock files through which `kwatcher` hands finished file sets to readers.  Set i is
 written into lock file i mod 2 under that file's lock; the writer then releases it and takes
 the other one.  Each reader alternates on its own, and empties what it has read before it
 unlocks.  Locks are exclusive; any number of readers and any interleaving of the steps below.
*/
module LockProtocol {
  import opened Wrappers

  /** The two lock files. */
  type File = f: nat | f < 2 witness 0

  function Other(f: File): File {
    1 - f
  }

  datatype Writer =
    | WantsLock(f: File)     // inside locked_lock
    | Collecting(f: File)    // holds the lock, the next set is not finished
    | Written(f: File)       // the set is in the file, the lock is still held

  datatype Reader =
    | Resting(tick: File)                  // next lock to take; blocked in locked_lock if it is not free
    | Locked(f: File, tick: File)          // lock taken, nothing read yet
    | Got(f: File, tick: File, s: nat)     // the file held set s
    | Finishing(f: File, tick: File)       // file is empty now, about to unlock

  datatype Process = TheWriter | Reading(id: nat)

  /** A completed read: who read which set. */
  datatype Read = Read(id: nat, s: nat)

  /**
   `content[f]` is the set in lock file f; `holder[f]` the process that has it locked;
   `published` counts the finished sets, `log` the reads in the order in which they happened.
  */
  datatype Sys = Sys(
    content: seq<Option<nat>>,
    holder: seq<Option<Process>>,
    writer: Writer,
    readers: seq<Reader>,
    published: nat,
    log: seq<Read>)

  datatype Event =
    | Lock               // the writer gets the lock it waits for
    | Write              // the writer finishes a set
    | Unlock             // the writer releases
    | RLock(id: nat)
    | RRead(id: nat)
    | RNullify(id: nat)
    | RUnlock(id: nat)

  ghost predicate Init(s: Sys) {
    && s.content == [None, None] && s.holder == [None, None]
    && s.writer == WantsLock(0)
    && (forall i :: 0 <= i < |s.readers| ==> s.readers[i] == Resting(0))
    && s.published == 0 && s.log == []
  }

  ghost predicate Shape(s: Sys) {
    |s.content| == 2 && |s.holder| == 2
  }

  ghost predicate Step(s: Sys, e: Event, t: Sys) {
    && Shape(s)
    && match e
       case Lock =>
         && s.writer.WantsLock? && s.holder[s.writer.f] == None
         && t == s.(writer := Collecting(s.writer.f), holder := s.holder[s.writer.f := Some(TheWriter)])
       case Write =>
         && s.writer.Collecting?
         && t == s.(writer := Written(s.writer.f),
                    content := s.content[s.writer.f := Some(s.published)],
                    published := s.published + 1)
       case Unlock =>
         && s.writer.Written?
         && t == s.(writer := WantsLock(Other(s.writer.f)), holder := s.holder[s.writer.f := None])
       case RLock(id) =>
         && id < |s.readers| && s.readers[id].Resting?
         && var f := s.readers[id].tick;
         && s.holder[f] == None
         && t == s.(readers := s.readers[id := Locked(f, Other(f))],
                    holder := s.holder[f := Some(Reading(id))])
       case RRead(id) =>
         && id < |s.readers| && s.readers[id].Locked?
         && var r := s.readers[id];
         t == (match s.content[r.f]
               case None => s.(readers := s.readers[id := Finishing(r.f, r.tick)])
               case Some(i) => s.(readers := s.readers[id := Got(r.f, r.tick, i)], log := s.log + [Read(id, i)]))
       case RNullify(id) =>
         && id < |s.readers| && s.readers[id].Got?
         && var r := s.readers[id];
         t == s.(readers := s.readers[id := Finishing(r.f, r.tick)], content := s.content[r.f := None])
       case RUnlock(id) =>
         && id < |s.readers| && s.readers[id].Finishing?
         && var r := s.readers[id];
         t == s.(readers := s.readers[id := Resting(r.tick)], holder := s.holder[r.f := None])
  }

  ghost predicate Run(ss: seq<Sys>, es: seq<Event>) {
    && |ss| == |es| + 1 && Init(ss[0])
    && forall i :: 0 <= i < |es| ==> Step(ss[i], es[i], ss[i + 1])
  }

  // ----- Mutual exclusion and the position of the writer -----

  predicate Holds(r: Reader, f: File) {
    !r.Resting? && r.f == f
  }

  ghost predicate HolderInv(s: Sys) {
    && Shape(s)
    && (forall f: File :: s.holder[f] == Some(TheWriter) <==> !s.writer.WantsLock? && s.writer.f == f)
    && (forall f: File, id: nat :: s.holder[f] == Some(Reading(id)) <==>
                                   id < |s.readers| && Holds(s.readers[id], f))
  }

  /** The set the writer collects next goes into its file; the other file is the previous set's. */
  predicate WriterInv(s: Sys) {
    s.writer.f == if s.writer.Written? then (s.published + 1) % 2 else s.published % 2
  }

  /** A file holds nothing, or the last set published through it. */
  ghost predicate ContentInv(s: Sys)
    requires Shape(s)
  {
    forall f: File :: s.content[f].Some? ==>
                        && s.content[f].value % 2 == f
                        && s.content[f].value < s.published <= s.content[f].value + 2
  }

  /** What a reader got is what is still in its file. */
  ghost predicate GotInv(s: Sys)
    requires Shape(s)
  {
    forall id :: 0 <= id < |s.readers| && s.readers[id].Got? ==>
                   s.content[s.readers[id].f] == Some(s.readers[id].s)
  }

  /** The file's holder is a reader that has read it and not yet emptied it. */
  predicate ReadByHolder(s: Sys, f: File)
    requires Shape(s)
  {
    && s.holder[f].Some? && s.holder[f].value.Reading?
    && s.holder[f].value.id < |s.readers| && s.readers[s.holder[f].value.id].Got?
  }

  /** A set that is in a file was not read, except by the reader that is about to empty the file. */
  ghost predicate UnreadInv(s: Sys)
    requires Shape(s)
  {
    && (forall f: File, k :: s.content[f].Some? && 0 <= k < |s.log| && s.log[k].s == s.content[f].value ==>
                               ReadByHolder(s, f))
    && (forall k :: 0 <= k < |s.log| ==> s.log[k].s < s.published)
  }

  /** Earlier reads are of smaller sets, or of the next larger one; never of the same one. */
  ghost predicate OrderInv(s: Sys) {
    forall j, k :: 0 <= j < k < |s.log| ==>
                     s.log[j].s != s.log[k].s && s.log[j].s <= s.log[k].s + 1
  }

  /** Set i was read. */
  ghost predicate InLog(log: seq<Read>, i: nat) {
    exists k :: 0 <= k < |log| && log[k].s == i
  }

  /** What a reader got is in the log, and the last published set is in its file or in the log. */
  ghost predicate LoggedInv(s: Sys)
    requires Shape(s)
  {
    && (forall id :: 0 <= id < |s.readers| && s.readers[id].Got? ==> InLog(s.log, s.readers[id].s))
    && (s.published > 0 ==>
          s.content[(s.published - 1) % 2] == Some(s.published - 1) || InLog(s.log, s.published - 1))
  }

  ghost predicate Inv(s: Sys) {
    && HolderInv(s) && WriterInv(s) && ContentInv(s) && GotInv(s) && UnreadInv(s) && OrderInv(s) && LoggedInv(s)
  }

  lemma StepHolder(s: Sys, e: Event, t: Sys)
    requires HolderInv(s) && Step(s, e, t)
    ensures HolderInv(t)
  {
    forall f: File
      ensures t.holder[f] == Some(TheWriter) <==> !t.writer.WantsLock? && t.writer.f == f
    {
      assert s.holder[f] == Some(TheWriter) <==> !s.writer.WantsLock? && s.writer.f == f;
      OwnLock(s, e, t);
    }
    forall f: File, id: nat
      ensures t.holder[f] == Some(Reading(id)) <==> id < |t.readers| && Holds(t.readers[id], f)
    {
      assert s.holder[f] == Some(Reading(id)) <==> id < |s.readers| && Holds(s.readers[id], f);
      OwnLock(s, e, t);
    }
  }

  /** Whoever reads, empties or unlocks a file holds its lock. */
  lemma OwnLock(s: Sys, e: Event, t: Sys)
    requires HolderInv(s) && Step(s, e, t)
    ensures Shape(t)
    ensures e.Unlock? ==> s.holder[s.writer.f] == Some(TheWriter)
    ensures e.RUnlock? ==> s.holder[s.readers[e.id].f] == Some(Reading(e.id))
    ensures (e.RRead? || e.RNullify?) ==> Holds(s.readers[e.id], s.readers[e.id].f)
  {
    if e.RUnlock? || e.RRead? || e.RNullify? {
      assert Holds(s.readers[e.id], s.readers[e.id].f);
    }
  }

  lemma StepWriter(s: Sys, e: Event, t: Sys)
    requires Shape(s) && WriterInv(s) && Step(s, e, t)
    ensures WriterInv(t)
  {
  }

  lemma StepContent(s: Sys, e: Event, t: Sys)
    requires HolderInv(s) && WriterInv(s) && ContentInv(s) && GotInv(s) && Step(s, e, t)
    ensures Shape(t) && ContentInv(t) && GotInv(t)
  {
    forall id | 0 <= id < |t.readers| && t.readers[id].Got?
      ensures t.content[t.readers[id].f] == Some(t.readers[id].s)
    {
      var f := t.readers[id].f;
      assert s.readers[id].f == f && Holds(s.readers[id], f) && s.holder[f] == Some(Reading(id));
      assert e.RNullify? && e.id != id ==> s.holder[s.readers[e.id].f] == Some(Reading(e.id));
    }
  }

  lemma StepUnread(s: Sys, e: Event, t: Sys)
    requires Inv(s) && Step(s, e, t)
    ensures Shape(t) && UnreadInv(t)
  {
    forall f: File, k | t.content[f].Some? && 0 <= k < |t.log| && t.log[k].s == t.content[f].value
      ensures ReadByHolder(t, f)
    {
      if e.RRead? && k == |s.log| {
        var g := s.readers[e.id].f;
        assert Holds(s.readers[e.id], g) && s.holder[g] == Some(Reading(e.id));
        assert s.content[g].value % 2 == g && t.content[f].value % 2 == f;
      } else if !e.Write? || f != s.writer.f {
        assert ReadByHolder(s, f);
        var id := s.holder[f].value.id;
        assert Holds(s.readers[id], f);
      }
    }
  }

  lemma StepOrder(s: Sys, e: Event, t: Sys)
    requires Inv(s) && Step(s, e, t)
    ensures OrderInv(t)
  {
  }

  lemma InLogGrows(log: seq<Read>, r: Read, i: nat)
    ensures InLog(log + [r], i) <==> InLog(log, i) || r.s == i
  {
    var more := log + [r];
    assert more[|log|] == r;
    if InLog(log, i) {
      var k :| 0 <= k < |log| && log[k].s == i;
      assert more[k].s == i;
    }
  }

  lemma StepLogged(s: Sys, e: Event, t: Sys)
    requires Inv(s) && Step(s, e, t)
    ensures Shape(t) && LoggedInv(t)
  {
    if e.RRead? && t.log != s.log {
      var r := t.log[|s.log|];
      assert t.log == s.log + [r];
      forall i: nat
        ensures InLog(t.log, i) <==> InLog(s.log, i) || r.s == i
      {
        InLogGrows(s.log, r, i);
      }
    } else {
      assert t.log == s.log;
    }
  }

  lemma StepInv(s: Sys, e: Event, t: Sys)
    requires Inv(s) && Step(s, e, t)
    ensures Inv(t)
  {
    StepLogged(s, e, t);
    StepHolder(s, e, t);
    StepWriter(s, e, t);
    StepContent(s, e, t);
    StepUnread(s, e, t);
    StepOrder(s, e, t);
  }

  lemma {:induction false} RunInv(ss: seq<Sys>, es: seq<Event>, k: nat)
    requires Run(ss, es) && k < |ss|
    ensures Inv(ss[k])
  {
    if k == 0 {
    } else {
      RunInv(ss, es, k - 1);
      StepInv(ss[k - 1], es[k - 1], ss[k]);
    }
  }

  // ----- What every run guarantees -----

  /** Each set is read at most once, and a set is overtaken at most by its successor. */
  lemma BoundedReordering(ss: seq<Sys>, es: seq<Event>, n: nat, j: nat, k: nat)
    requires Run(ss, es) && n < |ss| && j < k < |ss[n].log|
    ensures ss[n].log[j].s != ss[n].log[k].s
    ensures ss[n].log[k].s < ss[n].log[j].s ==> ss[n].log[k].s + 1 == ss[n].log[j].s
  {
    RunInv(ss, es, n);
  }

  /** The writer is between its locks and waits for `f`; the other file is empty, or about to be emptied. */
  ghost predicate Gap(s: Sys, f: File)
    requires Shape(s)
  {
    s.writer == WantsLock(f) && (s.content[Other(f)].None? || ReadByHolder(s, Other(f)))
  }

  lemma GapIfLarger(ss: seq<Sys>, es: seq<Event>, n: nat, f: File, b: nat, j: nat)
    requires Run(ss, es) && n < |ss| && Shape(ss[n]) && ss[n].content[f] == Some(b)
    requires ss[n].holder[f] != Some(TheWriter) && j < |ss[n].log| && ss[n].log[j].s > b
    ensures Gap(ss[n], f)
  {
    RunInv(ss, es, n);
    var s := ss[n];
    assert s.log[j].s == b + 1 && s.published == b + 2;
    if s.writer.Written? {
      assert s.writer.f == Other(f) && s.holder[Other(f)] == Some(TheWriter);
      WrittenIsThere(ss, es, n);
      assert false;
    } else {
      assert s.content[Other(f)].Some? ==> s.content[Other(f)].value == s.log[j].s;
    }
  }

  lemma LargerIfGap(s: Sys, f: File, b: nat)
    requires Inv(s) && s.content[f] == Some(b) && Gap(s, f)
    ensures InLog(s.log, b + 1)
  {
    assert s.published == b + 2 && (b + 1) % 2 == Other(f);
    if s.content[Other(f)].Some? {
      var id := s.holder[Other(f)].value.id;
      assert Holds(s.readers[id], Other(f));
      assert s.content[Other(f)].value == b + 1 == s.readers[id].s;
    }
  }

  /**
   A reader that is about to read set `b` reads it after a later set if and only if the writer is
   between its two locks, waiting for this very file, and the other file was read already.
  */
  lemma ReorderExactlyInGap(ss: seq<Sys>, es: seq<Event>, n: nat, id: nat)
    requires Run(ss, es) && n < |ss| && id < |ss[n].readers| && ss[n].readers[id].Locked?
    requires Shape(ss[n]) && ss[n].content[ss[n].readers[id].f].Some?
    ensures
      var s, f := ss[n], ss[n].readers[id].f;
      (exists j :: 0 <= j < |s.log| && s.log[j].s > s.content[f].value) <==> Gap(s, f)
  {
    RunInv(ss, es, n);
    var s, f := ss[n], ss[n].readers[id].f;
    var b := s.content[f].value;
    assert Holds(s.readers[id], f) && s.holder[f] == Some(Reading(id));
    if j :| 0 <= j < |s.log| && s.log[j].s > b {
      GapIfLarger(ss, es, n, f, b, j);
    }
    if Gap(s, f) {
      LargerIfGap(s, f, b);
    }
  }

  /** A set that was written and not yet released is still in its file. */
  lemma {:induction false} WrittenIsThere(ss: seq<Sys>, es: seq<Event>, n: nat)
    requires Run(ss, es) && n < |ss| && ss[n].writer.Written?
    ensures Shape(ss[n]) && 0 < ss[n].published && ss[n].content[ss[n].writer.f] == Some(ss[n].published - 1)
  {
    RunInv(ss, es, n);
    if n == 0 {
    } else {
      var s, e, t := ss[n - 1], es[n - 1], ss[n];
      RunInv(ss, es, n - 1);
      assert Step(s, e, t);
      if s.writer.Written? {
        WrittenIsThere(ss, es, n - 1);
        assert s.holder[s.writer.f] == Some(TheWriter);
        if e.RNullify? {
          assert s.holder[s.readers[e.id].f] == Some(Reading(e.id));
        }
      }
    }
  }

  lemma OneLock(s: Sys, p: Process, f: File, g: File)
    requires HolderInv(s) && s.holder[f] == Some(p) && f != g
    ensures s.holder[g] != Some(p)
  {
  }

  /** Nobody ever holds both locks. */
  lemma AtMostOneLock(ss: seq<Sys>, es: seq<Event>, n: nat)
    requires Run(ss, es) && n < |ss|
    ensures Shape(ss[n]) && (ss[n].holder[0].Some? ==> ss[n].holder[0] != ss[n].holder[1])
  {
    RunInv(ss, es, n);
    if ss[n].holder[0].Some? {
      OneLock(ss[n], ss[n].holder[0].value, 0, 1);
    }
  }

  /** Process `p` is blocked in locked_lock until file f is free. */
  predicate WaitsFor(s: Sys, p: Process, f: File) {
    match p
    case TheWriter => s.writer == WantsLock(f)
    case Reading(id) => id < |s.readers| && s.readers[id] == Resting(f)
  }

  predicate StepOf(e: Event, p: Process) {
    match e
    case RLock(id) => p == Reading(id)
    case RRead(id) => p == Reading(id)
    case RNullify(id) => p == Reading(id)
    case RUnlock(id) => p == Reading(id)
    case _ => p == TheWriter
  }

  /**
   No deadlock: whoever waits holds nothing, so waiting never goes in a circle; the holder of a
   lock waits for nothing and always has a step of its own to take.
  */
  lemma NoCircularWait(ss: seq<Sys>, es: seq<Event>, n: nat, p: Process, f: File)
    requires Run(ss, es) && n < |ss| && WaitsFor(ss[n], p, f)
    ensures Shape(ss[n]) && forall g: File :: ss[n].holder[g] != Some(p)
    ensures ss[n].holder[f].Some? ==>
              && (forall g: File :: !WaitsFor(ss[n], ss[n].holder[f].value, g))
              && exists e, t :: Step(ss[n], e, t) && StepOf(e, ss[n].holder[f].value)
  {
    RunInv(ss, es, n);
    var s := ss[n];
    if s.holder[f].Some? {
      var e, t := HolderSteps(s, f);
    }
  }

  lemma HolderSteps(s: Sys, f: File) returns (e: Event, t: Sys)
    requires Inv(s) && s.holder[f].Some?
    ensures Step(s, e, t) && StepOf(e, s.holder[f].value)
  {
    match s.holder[f].value
    case TheWriter =>
      if s.writer.Collecting? {
        e := Write;
        t := s.(writer := Written(s.writer.f),
        content := s.content[s.writer.f := Some(s.published)], published := s.published + 1);
      } else {
        e := Unlock;
        t := s.(writer := WantsLock(Other(s.writer.f)), holder := s.holder[s.writer.f := None]);
      }
    case Reading(id) =>
      var r := s.readers[id];
      match r {
        case Locked(g, tick) =>
          e := RRead(id);
          match s.content[g] {
            case None => t := s.(readers := s.readers[id := Finishing(g, tick)]);
            case Some(i) => t := s.(readers := s.readers[id := Got(g, tick, i)], log := s.log + [Read(id, i)]);
          }
        case Got(g, tick, i) =>
          e := RNullify(id);
          t := s.(readers := s.readers[id := Finishing(g, tick)], content := s.content[g := None]);
        case Finishing(g, tick) =>
          e := RUnlock(id);
          t := s.(readers := s.readers[id := Resting(tick)], holder := s.holder[g := None]);
      }
  }

  /** Back pressure: while a reader keeps a lock, at most one further set is published. */
  lemma {:induction false} BackPressure(ss: seq<Sys>, es: seq<Event>, i: nat, j: nat, id: nat, f: File)
    requires Run(ss, es) && i <= j < |ss|
    requires forall m :: i <= m <= j ==> id < |ss[m].readers| && Holds(ss[m].readers[id], f)
    ensures ss[i].published <= ss[j].published <= ss[i].published + 1
    ensures ss[j].published == ss[i].published + 1 ==> ss[j].published % 2 == f
  {
    if i == j {
    } else {
      BackPressure(ss, es, i, j - 1, id, f);
      var s := ss[j - 1];
      RunInv(ss, es, j - 1);
      assert Step(s, es[j - 1], ss[j]);
      if es[j - 1].Write? {
        assert s.holder[f] == Some(Reading(id)) && s.holder[s.writer.f] == Some(TheWriter);
      }
    }
  }

  // ----- Turns -----

  /** How often reader `id` took a lock. */
  function Turns(es: seq<Event>, id: nat): nat {
    if es == [] then 0
    else Turns(es[..|es| - 1], id) + if es[|es| - 1] == RLock(id) then 1 else 0
  }

  /** How often the writer did. */
  function WriterTurns(es: seq<Event>): nat {
    if es == [] then 0
    else WriterTurns(es[..|es| - 1]) + if es[|es| - 1] == Lock then 1 else 0
  }

  /** The file on which the reader works, or for which it waits. */
  predicate AtTurn(r: Reader, j: nat) {
    match r
    case Resting(tick) => tick == j % 2
    case Locked(f, tick) => f == (j + 1) % 2 && tick == j % 2
    case Got(f, tick, s) => f == (j + 1) % 2 && tick == j % 2
    case Finishing(f, tick) => f == (j + 1) % 2 && tick == j % 2
  }

  ghost predicate TurnInv(s: Sys, es: seq<Event>) {
    && (forall id :: 0 <= id < |s.readers| ==> AtTurn(s.readers[id], Turns(es, id)))
    && s.writer.f == (if s.writer.WantsLock? then WriterTurns(es) else WriterTurns(es) + 1) % 2
  }

  lemma {:induction false} RunTurns(ss: seq<Sys>, es: seq<Event>, k: nat)
    requires Run(ss, es) && k < |ss|
    ensures TurnInv(ss[k], es[..k])
  {
    if k == 0 {
    } else {
      RunTurns(ss, es, k - 1);
      assert es[..k][..k - 1] == es[..k - 1];
      StepTurns(ss[k - 1], es[k - 1], ss[k], es[..k - 1], es[..k]);
    }
  }

  lemma TurnsMore(es: seq<Event>, e: Event, id: nat)
    ensures Turns(es + [e], id) == Turns(es, id) + if e == RLock(id) then 1 else 0
    ensures WriterTurns(es + [e]) == WriterTurns(es) + if e == Lock then 1 else 0
  {
    assert (es + [e])[..|es|] == es;
  }

  /** A step of a reader, or none, keeps it at its turn. */
  lemma ReaderTurn(s: Sys, e: Event, t: Sys, id: nat, j: nat)
    requires Step(s, e, t) && id < |s.readers| && AtTurn(s.readers[id], j)
    ensures id < |t.readers| && AtTurn(t.readers[id], j + if e == RLock(id) then 1 else 0)
  {
  }

  lemma WriterTurn(s: Sys, e: Event, t: Sys, j: nat)
    requires Step(s, e, t) && s.writer.f == (if s.writer.WantsLock? then j else j + 1) % 2
    ensures
      var i := j + if e == Lock then 1 else 0;
      t.writer.f == (if t.writer.WantsLock? then i else i + 1) % 2
  {
  }

  lemma StepTurns(s: Sys, e: Event, t: Sys, es: seq<Event>, es': seq<Event>)
    requires TurnInv(s, es) && Step(s, e, t) && es' == es + [e]
    ensures TurnInv(t, es')
  {
    TurnsMore(es, e, 0);
    WriterTurn(s, e, t, WriterTurns(es));
    forall id | 0 <= id < |t.readers|
      ensures AtTurn(t.readers[id], Turns(es', id))
    {
      TurnsMore(es, e, id);
      ReaderTurn(s, e, t, id, Turns(es, id));
    }
  }

  /** Every reader takes the two locks in turn, whether it finds something or not. */
  lemma ReadersTakeTurns(ss: seq<Sys>, es: seq<Event>, k: nat, id: nat)
    requires Run(ss, es) && k < |es| && es[k] == RLock(id)
    ensures id < |ss[k + 1].readers| && ss[k + 1].readers[id].Locked?
    ensures ss[k + 1].readers[id].f == Turns(es[..k], id) % 2
  {
    RunTurns(ss, es, k);
    assert Step(ss[k], es[k], ss[k + 1]);
  }

  /** So does the writer; and set i goes into file i mod 2. */
  lemma WriterTakesTurns(ss: seq<Sys>, es: seq<Event>, k: nat)
    requires Run(ss, es) && k < |es|
    ensures es[k].Lock? ==> ss[k + 1].writer == Collecting(WriterTurns(es[..k]) % 2)
    ensures es[k].Write? ==> ss[k + 1].writer == Written(ss[k].published % 2)
  {
    RunTurns(ss, es, k);
    RunInv(ss, es, k);
    assert Step(ss[k], es[k], ss[k + 1]);
  }

  /** While a reader has a lock, no step of another process concerns the reader, its file or the lock. */
  lemma LockedIsStable(ss: seq<Sys>, es: seq<Event>, k: nat, id: nat)
    requires Run(ss, es) && k < |es| && id < |ss[k].readers| && !ss[k].readers[id].Resting?
    requires !StepOf(es[k], Reading(id))
    ensures Shape(ss[k]) && Shape(ss[k + 1]) && id < |ss[k + 1].readers|
    ensures
      var s, t, f := ss[k], ss[k + 1], ss[k].readers[id].f;
      t.readers[id] == s.readers[id] && t.content[f] == s.content[f] && t.holder[f] == s.holder[f] == Some(Reading(id))
  {
    RunInv(ss, es, k);
    var s, e, t := ss[k], es[k], ss[k + 1];
    var f := s.readers[id].f;
    assert Step(s, e, t);
    assert Holds(s.readers[id], f) && s.holder[f] == Some(Reading(id));
    OwnLock(s, e, t);
    if e.RNullify? || e.RUnlock? {
      assert Holds(s.readers[e.id], s.readers[e.id].f) && s.holder[s.readers[e.id].f] == Some(Reading(e.id));
    }
  }

  // ----- One reader, and a writer that takes the other lock at once when it is free -----

  /** The state between releasing one lock and taking the other. */
  function Released(s: Sys): Sys
    requires Shape(s) && s.writer.Written?
  {
    s.(writer := WantsLock(Other(s.writer.f)), holder := s.holder[s.writer.f := None])
  }

  ghost predicate HandoffStep(s: Sys, e: Event, t: Sys) {
    && Shape(s)
    && if e.Unlock? && s.writer.Written? && s.holder[Other(s.writer.f)] == None
       then Step(Released(s), Lock, t)
       else Step(s, e, t)
  }

  ghost predicate HandoffRun(ss: seq<Sys>, es: seq<Event>) {
    && |ss| == |es| + 1 && Init(ss[0]) && |ss[0].readers| == 1
    && forall i :: 0 <= i < |es| ==> HandoffStep(ss[i], es[i], ss[i + 1])
  }

  /** While the writer waits for a file, the reader has it, or there is nothing in it. */
  ghost predicate WaitInv(s: Sys)
    requires Shape(s)
  {
    && (s.writer.WantsLock? ==> s.content[s.writer.f] == None || s.holder[s.writer.f].Some?)
    && (forall id :: 0 <= id < |s.readers| && s.readers[id].Finishing? ==> s.content[s.readers[id].f] == None)
  }

  /** A file the writer does not hold contains nothing older than what was read. */
  ghost predicate FreshInv(s: Sys)
    requires Shape(s)
  {
    && (forall f: File, k :: s.content[f].Some? && s.writer != Collecting(f) && 0 <= k < |s.log| ==>
                               s.log[k].s <= s.content[f].value)
    && (forall j, k :: 0 <= j < k < |s.log| ==> s.log[j].s < s.log[k].s)
  }

  ghost predicate HandoffInv(s: Sys) {
    Inv(s) && |s.readers| == 1 && WaitInv(s) && FreshInv(s)
  }

  lemma ReadIsNewest(s: Sys, f: File)
    requires HandoffInv(s) && s.readers[0] == Locked(f, s.readers[0].tick) && s.content[f].Some?
    ensures forall k :: 0 <= k < |s.log| ==> s.log[k].s < s.content[f].value
    ensures s.content[Other(f)].Some? && s.content[Other(f)].value < s.content[f].value ==>
              s.writer == Collecting(Other(f))
  {
    assert Holds(s.readers[0], f) && s.holder[f] == Some(Reading(0));
    OneLock(s, Reading(0), f, Other(f));
    WriterElsewhere(s, f);
  }

  lemma ReadFresh(s: Sys, t: Sys)
    requires HandoffInv(s) && Step(s, RRead(0), t)
    ensures FreshInv(t)
  {
    var f := s.readers[0].f;
    if s.content[f].Some? {
      ReadIsNewest(s, f);
      assert t.log == s.log + [Read(0, s.content[f].value)];
      forall g: File, k | t.content[g].Some? && t.writer != Collecting(g) && 0 <= k < |t.log|
        ensures t.log[k].s <= t.content[g].value
      {
        assert k < |s.log| ==> t.log[k] == s.log[k];
      }
    }
  }

  /** While the reader has file f, the other file is the writer's if it holds an older set. */
  lemma WriterElsewhere(s: Sys, f: File)
    requires HandoffInv(s) && s.readers[0].Locked? && s.holder[f] == Some(Reading(0))
    requires s.holder[Other(f)] != Some(Reading(0))
    ensures s.content[f].Some? && s.content[Other(f)].Some? && s.content[Other(f)].value < s.content[f].value ==>
              s.writer == Collecting(Other(f))
  {
    if s.writer.WantsLock? && s.writer.f == Other(f) && s.holder[Other(f)].Some? {
      OnlyReader(s, Other(f));
    }
    if s.writer.Written? {
      assert s.holder[s.writer.f] == Some(TheWriter);
    }
  }

  lemma OnlyReader(s: Sys, f: File)
    requires HolderInv(s) && |s.readers| == 1 && s.holder[f].Some?
    ensures s.holder[f] == Some(TheWriter) || s.holder[f] == Some(Reading(0))
  {
    match s.holder[f].value
    case TheWriter =>
    case Reading(id) => assert s.holder[f] == Some(Reading(id));
  }

  lemma OtherFresh(s: Sys, e: Event, t: Sys)
    requires HandoffInv(s) && Step(s, e, t) && !e.RRead?
    ensures Shape(t) && FreshInv(t)
  {
  }

  lemma StepWait(s: Sys, e: Event, t: Sys)
    requires HandoffInv(s) && Step(s, e, t)
    requires e.Unlock? && s.writer.Written? ==> s.holder[Other(s.writer.f)].Some?
    ensures Shape(t) && WaitInv(t)
  {
    if !s.readers[0].Resting? {
      assert Holds(s.readers[0], s.readers[0].f) && s.holder[s.readers[0].f] == Some(Reading(0));
    }
  }

  lemma HandoffStepInv(s: Sys, e: Event, t: Sys)
    requires HandoffInv(s) && HandoffStep(s, e, t)
    ensures HandoffInv(t)
  {
    if e.Unlock? && s.writer.Written? && s.holder[Other(s.writer.f)] == None {
      var u := Released(s);
      StepInv(s, Unlock, u);
      StepInv(u, Lock, t);
    } else {
      StepInv(s, e, t);
      StepWait(s, e, t);
      if e.RRead? {
        ReadFresh(s, t);
      } else {
        OtherFresh(s, e, t);
      }
    }
  }

  lemma {:induction false} HandoffRunInv(ss: seq<Sys>, es: seq<Event>, k: nat)
    requires HandoffRun(ss, es) && k < |ss|
    ensures HandoffInv(ss[k])
  {
    if k == 0 {
    } else {
      HandoffRunInv(ss, es, k - 1);
      HandoffStepInv(ss[k - 1], es[k - 1], ss[k]);
    }
  }

  /** A single reader then gets the sets in strictly increasing order. */
  lemma HandoffOrder(ss: seq<Sys>, es: seq<Event>, n: nat, j: nat, k: nat)
    requires HandoffRun(ss, es) && n < |ss| && j < k < |ss[n].log|
    ensures ss[n].log[j].s < ss[n].log[k].s
  {
    HandoffRunInv(ss, es, n);
  }

  lemma Extend(ss: seq<Sys>, es: seq<Event>, e: Event, t: Sys) returns (ss': seq<Sys>, es': seq<Event>)
    requires Run(ss, es) && Step(ss[|es|], e, t)
    ensures ss' == ss + [t] && es' == es + [e]
    ensures Run(ss', es')
  {
    ss', es' := ss + [t], es + [e];
    forall i | 0 <= i < |es'|
      ensures Step(ss'[i], es'[i], ss'[i + 1])
    {
      if i < |es| {
        assert Step(ss[i], es[i], ss[i + 1]);
      }
    }
  }

  /** A reader looks into the first file before anything is published. */
  lemma EarlyLook() returns (ss: seq<Sys>, es: seq<Event>)
    ensures Run(ss, es)
    ensures ss[|es|] == Sys([None, None], [None, None], WantsLock(0), [Resting(1)], 0, [])
  {
    ss, es := [Sys([None, None], [None, None], WantsLock(0), [Resting(0)], 0, [])], [];
    var r := Some(Reading(0));
    ss, es := Extend(ss, es, RLock(0), Sys([None, None], [r, None], WantsLock(0), [Locked(0, 1)], 0, []));
    ss, es := Extend(ss, es, RRead(0), Sys([None, None], [r, None], WantsLock(0), [Finishing(0, 1)], 0, []));
    ss, es := Extend(ss, es, RUnlock(0), Sys([None, None], [None, None], WantsLock(0), [Resting(1)], 0, []));
  }

  /** The writer publishes a set without being disturbed. */
  lemma Publish(ss: seq<Sys>, es: seq<Event>, f: File) returns (ss': seq<Sys>, es': seq<Event>)
    requires Run(ss, es) && Shape(ss[|es|]) && ss[|es|].writer == WantsLock(f)
    requires ss[|es|].holder == [None, None]
    ensures Run(ss', es')
    ensures
      var s := ss[|es|];
      ss'[|es'|] == s.(writer := WantsLock(Other(f)),
                       content := s.content[f := Some(s.published)],
                       published := s.published + 1)
  {
    var s := ss[|es|];
    var s1 := s.(writer := Collecting(f), holder := s.holder[f := Some(TheWriter)]);
    var s2 := s1.(writer := Written(f), content := s.content[f := Some(s.published)], published := s.published + 1);
    ss', es' := Extend(ss, es, Lock, s1);
    ss', es' := Extend(ss', es', Write, s2);
    assert s2.holder[f := None] == s.holder;
    ss', es' := Extend(ss', es', Unlock, s2.(writer := WantsLock(Other(f)), holder := s.holder));
  }

  /** Then two sets are published, and the reader is due at the second one. */
  lemma TwoSetsUnread() returns (ss: seq<Sys>, es: seq<Event>)
    ensures Run(ss, es)
    ensures ss[|es|] == Sys([Some(0), Some(1)], [None, None], WantsLock(0), [Resting(1)], 2, [])
  {
    ss, es := EarlyLook();
    ss, es := Publish(ss, es, 0);
    ss, es := Publish(ss, es, 1);
  }

  /**
   Without the immediate handoff even a single reader can get a set after its successor: it
   empties both files while the writer is between its two locks.
  */
  lemma SingleReaderReorders()
    ensures exists ss: seq<Sys>, es: seq<Event> ::
              Run(ss, es) && |ss[0].readers| == 1 && ss[|es|].log == [Read(0, 1), Read(0, 0)]
  {
    var w := WantsLock(0);
    var r := Some(Reading(0));
    var c0, c1, l1 := Some(0), Some(1), [Read(0, 1)];
    var ss, es := TwoSetsUnread();
    ss, es := Extend(ss, es, RLock(0), Sys([c0, c1], [None, r], w, [Locked(1, 0)], 2, []));
    ss, es := Extend(ss, es, RRead(0), Sys([c0, c1], [None, r], w, [Got(1, 0, 1)], 2, l1));
    ss, es := Extend(ss, es, RNullify(0), Sys([c0, None], [None, r], w, [Finishing(1, 0)], 2, l1));
    ss, es := Extend(ss, es, RUnlock(0), Sys([c0, None], [None, None], w, [Resting(0)], 2, l1));
    ss, es := Extend(ss, es, RLock(0), Sys([c0, None], [r, None], w, [Locked(0, 1)], 2, l1));
    ss, es := Extend(ss, es, RRead(0), Sys([c0, None], [r, None], w, [Got(0, 1, 0)], 2, l1 + [Read(0, 0)]));
    SameReaders(ss, es, |es|);
  }

  /** Readers neither appear nor disappear. */
  lemma {:induction false} SameReaders(ss: seq<Sys>, es: seq<Event>, k: nat)
    requires Run(ss, es) && k < |ss|
    ensures |ss[k].readers| == |ss[0].readers|
  {
    if k == 0 {
    } else {
      SameReaders(ss, es, k - 1);
      assert Step(ss[k - 1], es[k - 1], ss[k]);
    }
  }
}
