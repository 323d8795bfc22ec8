/**
 Two runs in which new dates overtake a send: the reply carries a foreign date, or no file at all,
 and yet counts as delivered.
*/
module HistoryLate {
  import opened HistoryLog
  import opened HistoryRing
  import opened HistoryHandle
  import opened HistoryRun
  import opened HistoryDelivery
  import G = GetTransfer
  import Modulo

  /** Files of type 0 for the dates from `d` + 1 on. */
  ghost predicate FromDate(ps: seq<Arrival>, d: nat) {
    forall i :: 0 <= i < |ps| ==> ps[i] == File(d + 1 + i, 0)
  }

  /** Each of them brings a new date. */
  lemma {:induction false} FilesInOrder(l: Log, n: nat, ps: seq<Arrival>)
    requires ValidLog(l, n) && FromDate(ps, l.Newest())
    ensures Dated(ps) && |PutAll(l, n, ps).entries| == |l.entries| + |ps|
    ensures PutAll(l, n, ps).Newest() == l.Newest() + |ps|
  {
    if ps == [] {
    } else {
      var init, a := ps[..|ps| - 1], ps[|ps| - 1];
      FilesInOrder(l, n, init);
      PutGrows(PutAll(l, n, init), n, a);
      PutValid(PutAll(l, n, init), n, a.path, a.dt, a.tent);
    }
  }

  /** While the consumer works on a reply, files arrive. */
  lemma {:induction false} Arrivals(n: nat, size: nat, ss: seq<Sys>, es: seq<Event>, ps: seq<Arrival>)
    returns (ss': seq<Sys>, es': seq<Event>)
    requires Run(n, size, ss, es) && Dated(ps) && ss[|es|].pc.Sending? && ValidLog(ss[|es|].log, n)
    ensures Run(n, size, ss', es')
    ensures ss'[|es'|] == ss[|es|].(log := PutAll(ss[|es|].log, n, ps))
  {
    if ps == [] {
      ss', es' := ss, es;
    } else {
      var init, a := ps[..|ps| - 1], ps[|ps| - 1];
      ss', es' := Arrivals(n, size, ss, es, init);
      var s := ss'[|es'|];
      ss', es' := Extend(n, size, ss', es', HistoryRun.Arrive(a), s.(log := Put(s.log, n, a.path, a.dt, a.tent)));
    }
  }

  /** One file has arrived, and the consumer is about to read it for a client. */
  ghost predicate Reading(n: nat, s: Sys) {
    && n == 5 && s.pc == Sending(0, 0, [], 0, false) && s.nsize == 1
    && ValidLog(s.log, n) && s.log.removed == 0 && s.log.entries == [FileEntry(1)]
  }

  lemma FirstSlot(es: seq<Entry>, n: nat, slot: nat)
    requires 1 <= |es| <= n && slot == 0
    ensures SlotAt(es, n, slot) == es[slot]
  {
    Modulo.Small(slot, n);
    SlotHolds(es, n, slot);
  }

  /** The last name of the head is there, and the client wants all of them. */
  lemma LooksLast(n: nat, s: Sys, op: Op, slot: nat)
    requires ValidLog(s.log, n) && 1 <= |s.log.entries| <= n && slot == 0
    requires s.pc == Checking(op, slot, 0, slot) && s.nsize == 1 && op.Get? && |op.opt| == FNAME_MAX
    requires s.log.entries[slot].fname[0].Some? && G.Served(op.opt, s.nsize) == s.nsize
    ensures Step(n, s, Check, s.(pc := Sending(slot, 0, [], slot, false)))
  {
    var t := s.(pc := Sending(slot, 0, [], slot, false));
    FirstSlot(s.log.entries, n, slot);
    assert s.(pc := Sending(slot, 0, [], slot, false), nsize := s.nsize) == t;
    assert CheckStep(n, s, t);
  }

  lemma ToReading(n: nat) returns (ss: seq<Sys>, es: seq<Event>)
    requires n == 5
    ensures Run(n, 1, ss, es) && Reading(n, ss[|es|])
  {
    var op := Get([1, 0, 0]);
    var l := Put(EMPTY, 5, File(1, 0).path, 1, 0);
    FirstFile(l);
    var s := Init(1).(log := l);
    ss, es := [Init(1), s], [HistoryRun.Arrive(File(1, 0))];
    assert Run(n, 1, ss, es);
    G.ServedIs(op.opt, s.nsize, 1);
    LooksLast(n, s.(pc := Checking(op, 0, 0, 0)), op, 0);
    ss, es := Extend(n, 1, ss, es, Request(op), s.(pc := Locking(op)));
    ss, es := Extend(n, 1, ss, es, TakeHead, s.(pc := Checking(op, 0, 0, 0)));
    ss, es := Extend(n, 1, ss, es, Check, s.(pc := Sending(0, 0, [], 0, false)));
  }

  /** The reply is started, and gets through. */
  lemma Reply(n: nat, ss: seq<Sys>, es: seq<Event>) returns (ss': seq<Sys>, es': seq<Event>, d: Delivery)
    requires Run(n, 1, ss, es) && ss[|es|].pc.Sending? && ss[|es|].pc.slot < n && ss[|es|].pc.i >= ss[|es|].nsize
    requires ValidLog(ss[|es|].log, n)
    ensures Run(n, 1, ss', es') && ss'[|es'|].delivered == ss[|es|].delivered + [d] && ss'[|es'|].log == ss[|es|].log
    ensures d.head == ss[|es|].pc.head && d.names == ss[|es|].pc.names
    ensures d.lateDate <==> |ss[|es|].log.entries| > d.head + n
  {
    var s := ss[|es|];
    var date := SlotAt(s.log.entries, n, s.pc.slot).date;
    d := Delivery(s.pc.head, date, s.pc.names, s.nsize, s.pc.late, |s.log.entries| > s.pc.head + n);
    var t := s.(pc := Replying(s.pc.head, d));
    ss', es' := Extend(n, 1, ss, es, StartReply, t);
    ss', es' := Extend(n, 1, ss', es', ReplySent, t.(pc := Retiring(t.pc.head), delivered := t.delivered + [d]));
  }

  /** After one read, the consumer goes on. */
  lemma Reads(n: nat, s: Sys, t: Sys)
    requires n == 5 && ValidLog(s.log, n) && s.pc == Sending(0, 0, [], 0, false) && s.nsize == 1
    requires 1 <= |s.log.entries| <= 5
    requires
      var o := s.log.entries[0].fname[0];
      t == s.(pc := Sending(0, 1, if o.Some? then [o.value] else [], 0, |s.log.entries| >= 5))
    ensures Step(n, s, SendName, t)
  {
    FirstSlot(s.log.entries, n, 0);
    var o := s.log.entries[0].fname[0];
    if o.Some? {
      assert s.pc.names + [o.value] == [o.value];
    }
  }

  /** Five new dates after the file was read: the reply carries the newest date instead of its own. */
  lemma OvertakenDate(n: nat, ps: seq<Arrival>) returns (ss: seq<Sys>, es: seq<Event>, d: Delivery)
    requires n == 5 && |ps| == 5 && FromDate(ps, 1)
    ensures Run(n, 1, ss, es) && d in ss[|es|].delivered
    ensures d.lateDate && !RightDate(ss[|es|].log, d)
  {
    ss, es := ToReading(n);
    var s := ss[|es|];
    var t := s.(pc := Sending(0, 1, [File(1, 0).path], 0, false));
    Reads(n, s, t);
    ss, es := Extend(n, 1, ss, es, SendName, t);
    FilesInOrder(t.log, n, ps);
    ss, es := Arrivals(n, 1, ss, es, ps);
    FilesValid(t.log, n, ps);
    ss, es, d := Reply(n, ss, es);
    Delivered(n, ss, es, d);
  }

  lemma FilesValid(l: Log, n: nat, ps: seq<Arrival>)
    requires ValidLog(l, n) && Dated(ps)
    ensures ValidLog(PutAll(l, n, ps), n)
  {
  }

  lemma Delivered(n: nat, ss: seq<Sys>, es: seq<Event>, d: Delivery)
    requires Run(n, 1, ss, es) && d in ss[|es|].delivered && d.lateDate
    ensures !RightDate(ss[|es|].log, d)
  {
    RunDates(n, 1, ss, es, |es|);
  }

  /** Four new dates before the file is read: the reply has no file, and still counts as delivered. */
  lemma OvertakenNames(n: nat, ps: seq<Arrival>) returns (ss: seq<Sys>, es: seq<Event>, d: Delivery)
    requires n == 5 && |ps| == 4 && FromDate(ps, 1)
    ensures Run(n, 1, ss, es) && d in ss[|es|].delivered && d.names == []
  {
    ss, es := ToReading(n);
    var s := ss[|es|];
    var init := ps[..3];
    assert ps[..|ps| - 1] == init;
    FilesInOrder(s.log, n, ps);
    FilesInOrder(s.log, n, init);
    HandleLost(s.log, n, ps);
    ss, es := Arrivals(n, 1, ss, es, ps);
    var u := ss[|es|];
    var t := u.(pc := Sending(0, 1, [], 0, true));
    assert NO_NAMES[0].None?;
    Reads(n, u, t);
    ss, es := Extend(n, 1, ss, es, SendName, t);
    ss, es, d := Reply(n, ss, es);
  }
}
