/**
 What clients receive.  The delivery accounting holds in every run.  For each reply on its own: its
 date is that of its entry if and only if the slot was not reused when the date was read, and, if
 files arrive on time, it consists of one file of each type, all of its date, if and only if in
 addition no name was read after the entry had been emptied.  New dates during the transmission of a
 reply do it no harm.
*/
module HistoryDelivery {
  import opened HistoryLog
  import opened HistoryRing
  import opened HistoryNames
  import opened HistoryHandle
  import opened HistoryRun

  // ----- In every run: which entries are delivered -----

  /** Everything delivered so far lies below this log index. */
  function Frontier(s: Sys): nat {
    match s.pc
    case Retiring(head) => head + 1
    case Checking(op, slot, i, head) => head
    case Sending(slot, i, names, head, late) => head
    case Replying(head, d) => head
    case _ => s.log.removed
  }

  ghost predicate Heads(s: Sys) {
    && (forall j :: 0 <= j < |s.delivered| ==> s.delivered[j].head < Frontier(s))
    && (forall i, j :: 0 <= i < j < |s.delivered| ==> s.delivered[i].head < s.delivered[j].head)
  }

  lemma FrontierGrows(n: nat, s: Sys, e: Event, t: Sys)
    requires Inv(n, s) && Step(n, s, e, t)
    ensures Frontier(s) <= Frontier(t)
    ensures e.ReplySent? ==> s.pc.head < Frontier(t)
  {
    if e.Arrive? {
      PutGrows(s.log, n, e.a);
    }
  }

  lemma StepHeads(n: nat, s: Sys, e: Event, t: Sys)
    requires Inv(n, s) && Step(n, s, e, t) && Heads(s)
    ensures Heads(t)
  {
    FrontierGrows(n, s, e, t);
    if e.ReplySent? {
      assert t.delivered[..|s.delivered|] == s.delivered && t.delivered[|s.delivered|].head == s.pc.head;
    } else {
      assert t.delivered == s.delivered;
    }
  }

  /** Every run delivers log entries in increasing order, each at most once. */
  lemma {:induction false} RunHeads(n: nat, size: nat, ss: seq<Sys>, es: seq<Event>, k: nat)
    requires Run(n, size, ss, es) && k < |ss|
    ensures Inv(n, ss[k]) && Heads(ss[k])
  {
    RunInv(n, size, ss, es, k);
    if k == 0 {
      assert ss[0] == Init(size);
    } else {
      RunHeads(n, size, ss, es, k - 1);
      var s, e, t := ss[k - 1], es[k - 1], ss[k];
      assert Step(n, s, e, t);
      StepHeads(n, s, e, t);
    }
  }

  predicate Unsent(ds: seq<Delivery>, k: nat) {
    forall j :: 0 <= j < |ds| ==> ds[j].head != k
  }

  /** The log indices below `c` that were not delivered. */
  function Undelivered(c: nat, ds: seq<Delivery>): set<nat> {
    set k: nat | k < c && Unsent(ds, k)
  }

  lemma {:induction false} RangeSize(c: nat)
    ensures |Undelivered(c, [])| == c
  {
    if c == 0 {
      assert Undelivered(0, []) == {};
    } else {
      RangeSize(c - 1);
      assert Undelivered(c, []) == Undelivered(c - 1, []) + {c - 1};
    }
  }

  lemma {:induction false} UndeliveredSize(c: nat, ds: seq<Delivery>)
    requires forall j :: 0 <= j < |ds| ==> ds[j].head < c
    requires forall i, j :: 0 <= i < j < |ds| ==> ds[i].head < ds[j].head
    ensures |Undelivered(c, ds)| == c - |ds|
  {
    if ds == [] {
      RangeSize(c);
    } else {
      var init, last := ds[..|ds| - 1], ds[|ds| - 1].head;
      UndeliveredSize(c, init);
      assert Undelivered(c, init) == Undelivered(c, ds) + {last};
    }
  }

  /**
   The retired entries that no GET delivered are exactly as many as the producer evicted and clients
   closed, although an eviction during a send makes the consumer retire another entry than the one
   it sent.  This holds in every run, late files and overtaken sends included.
  */
  lemma UndeliveredAreEvicted(n: nat, size: nat, ss: seq<Sys>, es: seq<Event>, k: nat)
    requires Run(n, size, ss, es) && k < |ss| && !HasHandle(ss[k].pc)
    ensures |Undelivered(ss[k].log.removed, ss[k].delivered)| == ss[k].log.evicted + ss[k].closed
  {
    RunHeads(n, size, ss, es, k);
    UndeliveredSize(ss[k].log.removed, ss[k].delivered);
  }

  // ----- In every run: the date of a reply -----

  /** The reply carries the date of the entry it was made of. */
  predicate RightDate(l: Log, d: Delivery) {
    d.head < |l.entries| && d.date == l.entries[d.head].date
  }

  /** A slot has the date of an entry that was in it exactly as long as it was not reused. */
  lemma SlotDateIs(es: seq<Entry>, n: nat, k: nat)
    requires 0 < n && k < |es| && Increasing(es)
    ensures k % n < n && (SlotAt(es, n, k % n).date == es[k].date <==> |es| <= k + n)
  {
    SlotIndexRange(|es|, n, k % n);
    if |es| <= k + n {
      SlotHolds(es, n, k);
    }
  }

  ghost predicate DatesInv(s: Sys) {
    && (s.pc.Replying? ==> (RightDate(s.log, s.pc.d) <==> !s.pc.d.lateDate))
    && (forall j :: 0 <= j < |s.delivered| ==> (RightDate(s.log, s.delivered[j]) <==> !s.delivered[j].lateDate))
    && (forall j :: 0 <= j < |s.delivered| ==> s.delivered[j].head < |s.log.entries|)
  }

  lemma ArriveDates(n: nat, s: Sys, a: Arrival, t: Sys)
    requires Inv(n, s) && Step(n, s, Arrive(a), t) && DatesInv(s)
    ensures DatesInv(t)
  {
    PutGrows(s.log, n, a);
  }

  lemma StepDates(n: nat, s: Sys, e: Event, t: Sys)
    requires Inv(n, s) && Step(n, s, e, t) && DatesInv(s)
    ensures DatesInv(t)
  {
    if e.Arrive? {
      ArriveDates(n, s, e.a, t);
    } else if e.StartReply? {
      SlotDateIs(s.log.entries, n, s.pc.head);
    }
  }

  lemma {:induction false} RunDates(n: nat, size: nat, ss: seq<Sys>, es: seq<Event>, k: nat)
    requires Run(n, size, ss, es) && k < |ss|
    ensures Inv(n, ss[k]) && DatesInv(ss[k])
  {
    RunInv(n, size, ss, es, k);
    if k == 0 {
      assert ss[0] == Init(size);
    } else {
      RunDates(n, size, ss, es, k - 1);
      var s, e, t := ss[k - 1], es[k - 1], ss[k];
      assert Step(n, s, e, t);
      StepDates(n, s, e, t);
    }
  }

  /**
   In every run, a reply carries the date of its own entry if and only if, when it was started, at
   most as many dates had followed that entry as there are slots; whatever came later does not matter.
  */
  lemma DateExactly(n: nat, size: nat, ss: seq<Sys>, es: seq<Event>, k: nat)
    requires Run(n, size, ss, es) && k < |es| && es[k].StartReply?
    ensures ss[k].pc.Sending? && ss[k + 1].pc.Replying? && ss[k + 1].log == ss[k].log
    ensures RightDate(ss[k + 1].log, ss[k + 1].pc.d) <==> |ss[k].log.entries| <= ss[k].pc.head + n
  {
    RunDates(n, size, ss, es, k);
    RunDates(n, size, ss, es, k + 1);
    assert Step(n, ss[k], es[k], ss[k + 1]);
  }

  /** In every run, replies with the right date carry strictly increasing dates, whatever the others carry. */
  lemma DatesIncrease(n: nat, size: nat, ss: seq<Sys>, es: seq<Event>, k: nat, i: nat, j: nat)
    requires Run(n, size, ss, es) && k < |ss| && i < j < |ss[k].delivered|
    requires !ss[k].delivered[i].lateDate && !ss[k].delivered[j].lateDate
    ensures ss[k].delivered[i].date < ss[k].delivered[j].date
  {
    RunDates(n, size, ss, es, k);
    RunHeads(n, size, ss, es, k);
  }

  // ----- In every run: the number of files in a reply -----

  ghost predicate NamesThere(l: Log, head: nat, count: nat)
    requires head < |l.entries| && ThreeNames(l.entries)
  {
    forall t :: 0 <= t < count && t < FNAME_MAX ==> l.entries[head].fname[t].Some?
  }

  /** As long as the entry is not emptied, the names that were checked are still there. */
  ghost predicate Work(n: nat, s: Sys)
    requires ThreeNames(s.log.entries)
    requires HasHandle(s.pc) ==> s.pc.head < |s.log.entries|
  {
    match s.pc
    case Checking(op, slot, i, head) => op.Get? && |s.log.entries| < head + n ==> NamesThere(s.log, head, i)
    case Sending(slot, i, names, head, late) =>
      && (|s.log.entries| < head + n ==> NamesThere(s.log, head, s.nsize))
      && (!late ==> |names| == i)
    case Replying(head, d) => !d.lateNames ==> |d.names| == d.nsize
    case _ => true
  }

  ghost predicate Complete(n: nat, s: Sys) {
    && Inv(n, s) && Work(n, s)
    && forall j :: 0 <= j < |s.delivered| ==>
                     && s.nsize <= s.delivered[j].nsize
                     && (!s.delivered[j].lateNames ==> |s.delivered[j].names| == s.delivered[j].nsize)
  }

  lemma CompleteArrive(n: nat, s: Sys, a: Arrival, t: Sys)
    requires Complete(n, s) && Step(n, s, Arrive(a), t)
    ensures Complete(n, t)
  {
    ArriveInv(n, s, a, t);
    PutGrows(s.log, n, a);
    if (s.pc.Checking? || s.pc.Sending?) && |t.log.entries| < s.pc.head + n {
      var h := s.pc.head;
      assert !Emptied(t.log, h);
      forall c: nat | c < FNAME_MAX && s.log.entries[h].fname[c].Some?
        ensures t.log.entries[h].fname[c].Some?
      {
        PutKeepsNames(s.log, n, a, h, c);
      }
    }
  }

  lemma CompleteRemove(n: nat, s: Sys, e: Event, t: Sys)
    requires Complete(n, s) && Step(n, s, e, t) && (e.CloseRequest? || e.Retire?)
    ensures Complete(n, t)
  {
    RemoveInv(n, s, e, t);
  }

  lemma CompleteCheck(n: nat, s: Sys, t: Sys)
    requires Complete(n, s) && Step(n, s, Check, t)
    ensures Complete(n, t)
  {
    CheckInv(n, s, t);
    assert t.log == s.log && t.delivered == s.delivered && t.nsize <= s.nsize;
    if |s.log.entries| < s.pc.head + n {
      SlotHolds(s.log.entries, n, s.pc.head);
    }
  }

  lemma CompleteReply(n: nat, s: Sys, e: Event, t: Sys)
    requires Complete(n, s) && Step(n, s, e, t) && (e.SendName? || e.StartReply? || e.ReplySent? || e.ReplyFailed?)
    ensures Complete(n, t)
  {
    ReplyInv(n, s, e, t);
    if e.SendName? && |s.log.entries| < s.pc.head + n {
      SlotHolds(s.log.entries, n, s.pc.head);
    }
  }

  lemma CompleteStep(n: nat, s: Sys, e: Event, t: Sys)
    requires Complete(n, s) && Step(n, s, e, t)
    ensures Complete(n, t)
  {
    if e.Arrive? {
      CompleteArrive(n, s, e.a, t);
    } else if e.CloseRequest? || e.Retire? {
      CompleteRemove(n, s, e, t);
    } else if e.Check? {
      CompleteCheck(n, s, t);
    } else if e.SendName? || e.StartReply? || e.ReplySent? || e.ReplyFailed? {
      CompleteReply(n, s, e, t);
    } else {
      StepInv(n, s, e, t);
    }
  }

  lemma {:induction false} RunComplete(n: nat, size: nat, ss: seq<Sys>, es: seq<Event>, k: nat)
    requires Run(n, size, ss, es) && k < |ss|
    ensures Complete(n, ss[k])
  {
    if k == 0 {
      InitInv(n, size);
    } else {
      RunComplete(n, size, ss, es, k - 1);
      var s, e, t := ss[k - 1], es[k - 1], ss[k];
      assert Step(n, s, e, t);
      CompleteStep(n, s, e, t);
    }
  }

  /** In every run, a reply whose names were all read before its entry was emptied has a file for each type. */
  lemma RepliesAreComplete(n: nat, size: nat, ss: seq<Sys>, es: seq<Event>, k: nat, j: nat)
    requires Run(n, size, ss, es) && k < |ss| && j < |ss[k].delivered|
    ensures ss[k].nsize <= ss[k].delivered[j].nsize
    ensures !ss[k].delivered[j].lateNames ==> |ss[k].delivered[j].names| == ss[k].delivered[j].nsize
  {
    RunComplete(n, size, ss, es, k);
  }

  // ----- With arrivals on time: names -----

  /** The producer registers the file as `watcher` does, and it is not too late for its entry. */
  ghost predicate GoodArrival(n: nat, l: Log, a: Arrival) {
    && a.path.date == a.dt && a.path.kind == a.tent
    && (InRange(a.tent) ==> OnTime(l, n, a.dt))
  }

  ghost predicate OnTimeRun(n: nat, size: nat, ss: seq<Sys>, es: seq<Event>) {
    && Run(n, size, ss, es)
    && forall i :: 0 <= i < |es| && es[i].Arrive? ==> GoodArrival(n, ss[i].log, es[i].a)
  }

  lemma CleanStep(n: nat, s: Sys, e: Event, t: Sys)
    requires Step(n, s, e, t) && Clean(s.log, n) && (e.Arrive? ==> GoodArrival(n, s.log, e.a))
    ensures Clean(t.log, n)
  {
    if e.Arrive? {
      PutClean(s.log, n, e.a.path, e.a.tent);
    } else if e.CloseRequest? || e.Retire? {
      RemoveClean(s.log, n);
    } else {
      assert t.log == s.log;
    }
  }

  /** If files arrive on time, every entry only ever holds files of its own date, all still on disk. */
  lemma {:induction false} EntriesStayHomogeneous(n: nat, size: nat, ss: seq<Sys>, es: seq<Event>, k: nat)
    requires OnTimeRun(n, size, ss, es) && k < |ss|
    ensures Clean(ss[k].log, n)
  {
    if k == 0 {
      assert ss[0].log == EMPTY;
    } else {
      EntriesStayHomogeneous(n, size, ss, es, k - 1);
      var s, e, t := ss[k - 1], es[k - 1], ss[k];
      assert Step(n, s, e, t);
      CleanStep(n, s, e, t);
    }
  }

  /** The slot of the handle is emptied exactly when the entry is lost, and then has no file of its date. */
  lemma LateSlot(n: nat, s: Sys, c: nat)
    requires Inv(n, s) && Clean(s.log, n) && HasHandle(s.pc) && c < FNAME_MAX
    requires |s.log.entries| >= s.pc.head + n
    ensures s.pc.head % n < n && |SlotAt(s.log.entries, n, s.pc.head % n).fname| == FNAME_MAX
    ensures
      var o := SlotAt(s.log.entries, n, s.pc.head % n).fname[c];
      o.Some? ==> o.value.date != s.log.entries[s.pc.head].date
  {
    var h, m := s.pc.head, |s.log.entries|;
    SlotIndexRange(m, n, h % n);
    if m == h + n {
      SlotHolds(s.log.entries, n, h);
      assert Emptied(s.log, h) && NO_NAMES[c].None?;
    } else {
      var k := SlotIndex(m, n, h % n);
      assert k > h && s.log.entries[k].date > s.log.entries[h].date;
    }
  }

  // ----- Replies of one date -----

  /** There are `count` names, files of types 0, 1, ..., all of the given date. */
  ghost predicate Whole(names: seq<Path>, count: nat, date: nat) {
    |names| == count && forall i :: 0 <= i < |names| ==> names[i].date == date && names[i].kind == i
  }

  ghost predicate NamesExactly(l: Log, d: Delivery) {
    d.head < |l.entries| && (!d.lateNames <==> Whole(d.names, d.nsize, l.entries[d.head].date))
  }

  /** What was read so far is whole exactly if nothing was read too late. */
  ghost predicate Uniform(s: Sys) {
    && (s.pc.Sending? ==>
          && s.pc.head < |s.log.entries|
          && (!s.pc.late <==> Whole(s.pc.names, s.pc.i, s.log.entries[s.pc.head].date)))
    && (s.pc.Replying? ==> NamesExactly(s.log, s.pc.d))
    && (forall j :: 0 <= j < |s.delivered| ==> NamesExactly(s.log, s.delivered[j]))
  }

  lemma WholeMore(names: seq<Path>, p: Path, count: nat, date: nat)
    ensures
      Whole(names + [p], count + 1, date) <==> Whole(names, count, date) && p.date == date && p.kind == count
  {
    var more := names + [p];
    assert more[|names|] == p && forall i :: 0 <= i < |names| ==> more[i] == names[i];
  }

  lemma UniformSend(n: nat, s: Sys, t: Sys)
    requires Complete(n, s) && Clean(s.log, n) && Step(n, s, SendName, t) && Uniform(s)
    ensures Uniform(t)
  {
    var i, date := s.pc.i, s.log.entries[s.pc.head].date;
    if |s.log.entries| < s.pc.head + n {
      SlotHolds(s.log.entries, n, s.pc.head);
    } else {
      LateSlot(n, s, i);
    }
    var o := SlotAt(s.log.entries, n, s.pc.slot).fname[i];
    if o.Some? {
      WholeMore(s.pc.names, o.value, i, date);
    }
  }

  lemma UniformArrive(n: nat, s: Sys, a: Arrival, t: Sys)
    requires Inv(n, s) && Step(n, s, Arrive(a), t) && Uniform(s)
    ensures Uniform(t)
  {
    PutGrows(s.log, n, a);
  }

  lemma UniformStep(n: nat, s: Sys, e: Event, t: Sys)
    requires Complete(n, s) && Clean(s.log, n) && Step(n, s, e, t) && Uniform(s)
    ensures Uniform(t)
  {
    if e.SendName? {
      UniformSend(n, s, t);
    } else if e.Arrive? {
      UniformArrive(n, s, e.a, t);
    }
  }

  lemma {:induction false} RunUniform(n: nat, size: nat, ss: seq<Sys>, es: seq<Event>, k: nat)
    requires OnTimeRun(n, size, ss, es) && k < |ss|
    ensures Complete(n, ss[k]) && Clean(ss[k].log, n) && Uniform(ss[k])
  {
    RunComplete(n, size, ss, es, k);
    EntriesStayHomogeneous(n, size, ss, es, k);
    if k == 0 {
      assert ss[0] == Init(size);
    } else {
      RunUniform(n, size, ss, es, k - 1);
      var s, e, t := ss[k - 1], es[k - 1], ss[k];
      assert Step(n, s, e, t);
      UniformStep(n, s, e, t);
    }
  }

  /** A reply with one file of each served type, all of its date, which is that of its entry. */
  ghost predicate Proper(l: Log, d: Delivery) {
    RightDate(l, d) && Whole(d.names, d.nsize, d.date)
  }

  /**
   If files arrive on time, a reply holds one file per served type, all of its own date, if and only
   if its names were read before the entry was emptied, and its date before the slot was reused.
  */
  lemma RepliesExactlyProper(n: nat, size: nat, ss: seq<Sys>, es: seq<Event>, k: nat, j: nat)
    requires OnTimeRun(n, size, ss, es) && k < |ss| && j < |ss[k].delivered|
    ensures
      var d := ss[k].delivered[j];
      Proper(ss[k].log, d) <==> !d.lateNames && !d.lateDate
  {
    RunUniform(n, size, ss, es, k);
    RunDates(n, size, ss, es, k);
  }

  /**
   If files arrive on time, the file the consumer is about to open is one of its entry's date if and
   only if the entry is not emptied; and then it is of the right type, and still on disk.
  */
  lemma SentFilesOnDisk(n: nat, size: nat, ss: seq<Sys>, es: seq<Event>, k: nat)
    requires OnTimeRun(n, size, ss, es) && k < |ss| && ss[k].pc.Sending? && ss[k].pc.i < ss[k].nsize
    ensures
      var s := ss[k];
      && s.pc.slot < n && |SlotAt(s.log.entries, n, s.pc.slot).fname| == FNAME_MAX && s.pc.i < FNAME_MAX
      && s.pc.head < |s.log.entries|
      && var o := SlotAt(s.log.entries, n, s.pc.slot).fname[s.pc.i];
      && (o.Some? && o.value.date == s.log.entries[s.pc.head].date <==> |s.log.entries| < s.pc.head + n)
      && (|s.log.entries| < s.pc.head + n ==> o.value in s.log.disk && o.value.kind == s.pc.i)
  {
    RunUniform(n, size, ss, es, k);
    var s := ss[k];
    if |s.log.entries| < s.pc.head + n {
      SlotHolds(s.log.entries, n, s.pc.head);
      HeldOnDisk(s.log, n, s.pc.head, s.pc.i);
    } else {
      LateSlot(n, s, s.pc.i);
    }
  }

  /** The number of served types never grows, and drops exactly when a GET leaves one of them out. */
  lemma ServedTypes(n: nat, size: nat, ss: seq<Sys>, es: seq<Event>, k: nat)
    requires Run(n, size, ss, es) && k < |es|
    ensures ss[k + 1].nsize <= ss[k].nsize
    ensures ss[k + 1].nsize < ss[k].nsize <==>
              && ss[k + 1].pc.Sending? && ss[k].pc.Checking?
              && exists j :: 0 <= j < ss[k].nsize && j < |ss[k].pc.op.opt| && ss[k].pc.op.opt[j] == 0
  {
    RunInv(n, size, ss, es, k);
    assert Step(n, ss[k], es[k], ss[k + 1]);
  }
}
