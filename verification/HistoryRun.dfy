/**
 Producer and consumer together.  The producer registers files under the mutex; the consumer
 serves sessions: it takes the head under the mutex, then checks, reads and sends it without
 the mutex, and retires it under the mutex again.  Every shared access is a step of its own,
 so puts may happen between any two of them.
*/
module HistoryRun {
  import opened HistoryLog
  import opened HistoryRing
  import opened HistoryHandle
  import opened HistorySafety
  import G = GetTransfer

  /** A client's request: GET with the wanted size of each type, or OPEN of one type. */
  datatype Op = Get(opt: seq<nat>) | OpenOne(kind: nat)

  /**
   Where the consumer stands.  `slot` is the handle `histget` returned; `head` is the index of
   the log entry that was in it then, which the program does not know.
  */
  datatype Consumer =
    | Idle
    | Locking(op: Op)                                     // about to call histget
    | Blocked(op: Op, signalled: bool)                    // inside histget
    | Checking(op: Op, slot: nat, i: nat, head: nat)      // looking for missing names
    | Entering(op: Op)                                    // about to call histwait
    | Blocked2(op: Op, signalled: bool, since: Log)       // inside histwait
    | Sending(slot: nat, i: nat, names: seq<Path>, head: nat, late: bool)  // reading the files
    | Replying(head: nat, d: Delivery)                    // inside trans_replyget
    | Retiring(head: nat)                                 // reply sent, about to call histremove

  /**
   A reply to GET: the date it carries, the files it was made of, and how many were to be read.  The
   last two fields are bookkeeping of the run, like `head`: whether a name was read after the entry
   had been emptied, and the date after its slot had been reused.
  */
  datatype Delivery = Delivery(
    head: nat,
    date: nat,
    names: seq<Path>,
    nsize: nat,
    lateNames: bool,
    lateDate: bool)

  datatype Sys = Sys(
    log: Log,
    pc: Consumer,
    isOpen: bool,
    nsize: nat,
    delivered: seq<Delivery>,
    closed: nat,
    waithist: int,    // how many wait in histget
    waithist2: int)   // and in histwait

  datatype Event =
    | Arrive(a: Arrival)
    | Request(op: Op)
    | CloseRequest
    | Disconnect
    | TakeHead
    | Wake
    | Check
    | BlockOnSecond
    | SendName
    | StartReply
    | ReplySent
    | ReplyFailed
    | Retire

  predicate ValidOp(op: Op) {
    match op
    case Get(opt) => |opt| == FNAME_MAX && opt[0] != 0
    case OpenOne(kind) => kind < FNAME_MAX
  }

  /** What the signals of `histput` do to the consumer: they reach it if it waits on that variable. */
  function Signal(pc: Consumer, signal: bool, signal2: bool): Consumer {
    match pc
    case Blocked(op, signalled) => Blocked(op, signalled || signal)
    case Blocked2(op, signalled, since) => Blocked2(op, signalled || signal2, since)
    case _ => pc
  }

  function Init(size: nat): Sys {
    Sys(EMPTY, Idle, false, size, [], 0, 0, 0)
  }

  /** One step of the producer or of the consumer. */
  ghost predicate Step(n: nat, s: Sys, e: Event, t: Sys) {
    && ValidLog(s.log, n)
    && match e
       case Arrive(a) =>
         && a.dt != 0
         && var kept := Accepts(s.log, n, a.dt, a.tent);
         t == s.(log := Put(s.log, n, a.path, a.dt, a.tent),
                 pc := Signal(s.pc, kept && s.waithist > 0, kept && s.waithist2 > 0))
       case Request(op) =>
         s.pc.Idle? && ValidOp(op) && t == s.(pc := Locking(op))
       case CloseRequest =>
         && s.pc.Idle? && s.isOpen && s.log.removed < |s.log.entries|
         && t == s.(log := Remove(s.log), isOpen := false, closed := s.closed + 1)
       case Disconnect =>
         s.pc.Idle? && t == s.(isOpen := false)
       case TakeHead =>
         && s.pc.Locking?
         && t == if s.log.Queued() > 0
                 then s.(pc := Checking(s.pc.op, s.log.removed % n, 0, s.log.removed))
                 else s.(pc := Blocked(s.pc.op, false), waithist := s.waithist + 1)
       case Wake =>
         && (s.pc.Blocked? || s.pc.Blocked2?)
         && t == if s.pc.Blocked?
                 then s.(pc := Locking(s.pc.op), waithist := s.waithist - 1)
                 else s.(pc := Locking(s.pc.op), waithist2 := s.waithist2 - 1)
       case Check =>
         s.pc.Checking? && s.pc.slot < n && CheckStep(n, s, t)
       case BlockOnSecond =>
         s.pc.Entering? && t == s.(pc := Blocked2(s.pc.op, false, s.log), waithist2 := s.waithist2 + 1)
       case SendName =>
         && s.pc.Sending? && s.pc.slot < n && s.pc.i < s.nsize <= FNAME_MAX
         && var f := SlotAt(s.log.entries, n, s.pc.slot).fname;
         var late := s.pc.late || |s.log.entries| >= s.pc.head + n;
         && |f| == FNAME_MAX
         && t == s.(pc := if f[s.pc.i].Some?
                          then Sending(s.pc.slot, s.pc.i + 1, s.pc.names + [f[s.pc.i].value], s.pc.head, late)
                          else Sending(s.pc.slot, s.nsize, s.pc.names, s.pc.head, late))
       case StartReply =>
         && s.pc.Sending? && s.pc.slot < n && s.pc.i >= s.nsize
         && var date := SlotAt(s.log.entries, n, s.pc.slot).date;
         var d := Delivery(s.pc.head, date, s.pc.names, s.nsize, s.pc.late, |s.log.entries| > s.pc.head + n);
         t == s.(pc := Replying(s.pc.head, d))
       case ReplySent =>
         s.pc.Replying? && t == s.(pc := Retiring(s.pc.head), delivered := s.delivered + [s.pc.d])
       case ReplyFailed =>
         s.pc.Replying? && t == s.(pc := Idle, isOpen := false)
       case Retire =>
         && s.pc.Retiring? && s.log.removed < |s.log.entries|
         && t == s.(log := Remove(s.log), pc := Idle, isOpen := false)
  }

  /** Looking at one name of the handle, without the mutex. */
  ghost predicate CheckStep(n: nat, s: Sys, t: Sys)
    requires s.pc.Checking? && s.pc.slot < n
  {
    var f := SlotAt(s.log.entries, n, s.pc.slot).fname;
    && |f| == FNAME_MAX
    && match s.pc.op
       case Get(opt) =>
         && s.pc.i < s.nsize <= FNAME_MAX == |opt|
         && t == if f[s.pc.i].None? then s.(pc := Entering(s.pc.op))
                 else if s.pc.i + 1 < s.nsize then s.(pc := Checking(s.pc.op, s.pc.slot, s.pc.i + 1, s.pc.head))
                 else s.(pc := Sending(s.pc.slot, 0, [], s.pc.head, false), nsize := G.Served(opt, s.nsize))
       case OpenOne(kind) =>
         && kind < FNAME_MAX
         && t == if f[kind].None? then s.(pc := Entering(s.pc.op)) else s.(pc := Idle, isOpen := true)
  }

  /** A run from the start, with `n` slots and `size` configured sync types. */
  ghost predicate Run(n: nat, size: nat, ss: seq<Sys>, es: seq<Event>) {
    && KEEP_FILE_COUNT + 2 <= n && 1 <= size <= FNAME_MAX
    && |ss| == |es| + 1
    && ss[0] == Init(size)
    && forall i :: 0 <= i < |es| ==> Step(n, ss[i], es[i], ss[i + 1])
  }

  // ----- What holds in every run -----

  /** The entry the consumer works on, if any. */
  ghost predicate HasHandle(pc: Consumer) {
    pc.Checking? || pc.Sending? || pc.Replying? || pc.Retiring?
  }

  /** Only evictions from a full queue move the queue past the consumer's entry. */
  ghost predicate HandleInQueue(l: Log, n: nat, head: nat) {
    && head <= l.removed < |l.entries|
    && (l.removed == head || l.Queued() == n - KEEP_FILE_COUNT)
  }

  ghost predicate PcInv(n: nat, s: Sys)
    requires 0 < n
  {
    && (HasHandle(s.pc) ==> HandleInQueue(s.log, n, s.pc.head))
    && match s.pc
       case Idle => true
       case Locking(op) => ValidOp(op)
       case Blocked(op, signalled) => ValidOp(op) && (!signalled ==> s.log.Queued() == 0)
       case Checking(op, slot, i, head) => ValidOp(op) && slot == head % n < n && i < s.nsize
       case Entering(op) => ValidOp(op)
       case Blocked2(op, signalled, since) =>
         && ValidOp(op)
         && (!signalled ==> s.log.entries == since.entries && s.log.removed == since.removed)
       case Sending(slot, i, names, head, late) => slot == head % n < n && i <= s.nsize && |names| <= i
       case Replying(head, d) => d.head == head && s.nsize == d.nsize
       case Retiring(head) => true
  }

  function Pending(pc: Consumer): nat {
    if pc.Retiring? then 1 else 0
  }

  /** The counters are the numbers of waiting consumers, so `histput` signals whoever waits. */
  predicate CountersInv(s: Sys) {
    && s.waithist == (if s.pc.Blocked? then 1 else 0)
    && s.waithist2 == (if s.pc.Blocked2? then 1 else 0)
  }

  ghost predicate Inv(n: nat, s: Sys) {
    && ValidLog(s.log, n)
    && 1 <= s.nsize <= FNAME_MAX
    && (s.isOpen ==> s.log.Queued() > 0)
    && PcInv(n, s)
    && CountersInv(s)
    && s.log.removed + Pending(s.pc) == |s.delivered| + s.closed + s.log.evicted
    && Balanced(s.log)
  }

  lemma InitInv(n: nat, size: nat)
    requires KEEP_FILE_COUNT + 2 <= n && 1 <= size <= FNAME_MAX
    ensures Inv(n, Init(size))
  {
    assert forall p :: Balance(EMPTY, p) == 0;
  }

  lemma ArriveInv(n: nat, s: Sys, a: Arrival, t: Sys)
    requires Inv(n, s) && Step(n, s, Arrive(a), t)
    ensures Inv(n, t)
  {
    PutGrows(s.log, n, a);
    PutBalanced(s.log, n, a.path, a.dt, a.tent);
    if !Accepts(s.log, n, a.dt, a.tent) {
      assert t.log.entries == s.log.entries && t.log.removed == s.log.removed;
    }
  }

  lemma RemoveInv(n: nat, s: Sys, e: Event, t: Sys)
    requires Inv(n, s) && Step(n, s, e, t) && (e.CloseRequest? || e.Retire?)
    ensures Inv(n, t)
  {
    RemoveValid(s.log, n);
    RemoveBalanced(s.log, n);
  }

  lemma TakeInv(n: nat, s: Sys, e: Event, t: Sys)
    requires Inv(n, s) && Step(n, s, e, t) && (e.TakeHead? || e.Wake? || e.BlockOnSecond?)
    ensures Inv(n, t)
  {
  }

  lemma CheckAllInv(n: nat, s: Sys, t: Sys)
    requires Inv(n, s) && Step(n, s, Check, t) && s.pc.op.Get?
    ensures Inv(n, t)
  {
  }

  lemma CheckOneInv(n: nat, s: Sys, t: Sys)
    requires Inv(n, s) && Step(n, s, Check, t) && s.pc.op.OpenOne?
    ensures Inv(n, t)
  {
  }

  lemma CheckInv(n: nat, s: Sys, t: Sys)
    requires Inv(n, s) && Step(n, s, Check, t)
    ensures Inv(n, t)
  {
    match s.pc.op
    case Get(_) => CheckAllInv(n, s, t);
    case OpenOne(_) => CheckOneInv(n, s, t);
  }

  lemma ReplyInv(n: nat, s: Sys, e: Event, t: Sys)
    requires Inv(n, s) && Step(n, s, e, t) && (e.SendName? || e.StartReply? || e.ReplySent? || e.ReplyFailed?)
    ensures Inv(n, t)
  {
  }

  lemma SessionInv(n: nat, s: Sys, e: Event, t: Sys)
    requires Inv(n, s) && Step(n, s, e, t) && (e.Request? || e.Disconnect?)
    ensures Inv(n, t)
  {
  }

  lemma StepInv(n: nat, s: Sys, e: Event, t: Sys)
    requires Inv(n, s) && Step(n, s, e, t)
    ensures Inv(n, t)
  {
    if e.Arrive? {
      ArriveInv(n, s, e.a, t);
    } else if e.CloseRequest? || e.Retire? {
      RemoveInv(n, s, e, t);
    } else if e.TakeHead? || e.Wake? || e.BlockOnSecond? {
      TakeInv(n, s, e, t);
    } else if e.Check? {
      CheckInv(n, s, t);
    } else if e.Request? || e.Disconnect? {
      SessionInv(n, s, e, t);
    } else {
      ReplyInv(n, s, e, t);
    }
  }

  lemma RunStepInv(n: nat, size: nat, ss: seq<Sys>, es: seq<Event>, k: nat)
    requires Run(n, size, ss, es) && k < |es| && Inv(n, ss[k])
    ensures Inv(n, ss[k + 1])
  {
    StepInv(n, ss[k], es[k], ss[k + 1]);
  }

  lemma {:induction false} RunInv(n: nat, size: nat, ss: seq<Sys>, es: seq<Event>, k: nat)
    requires Run(n, size, ss, es) && k < |ss|
    ensures Inv(n, ss[k])
  {
    if k == 0 {
      InitInv(n, size);
    } else {
      RunInv(n, size, ss, es, k - 1);
      RunStepInv(n, size, ss, es, k - 1);
    }
  }

  /** The signals `histput` sends, to go by the counters, reach exactly the consumer that waits. */
  lemma WaiterIsSignalled(n: nat, size: nat, ss: seq<Sys>, es: seq<Event>, k: nat)
    requires Run(n, size, ss, es) && k < |es| && es[k].Arrive?
    ensures ss[k].waithist > 0 <==> ss[k].pc.Blocked?
    ensures ss[k].waithist2 > 0 <==> ss[k].pc.Blocked2?
    ensures
      var a := es[k].a;
      Accepts(ss[k].log, n, a.dt, a.tent) ==>
        && (ss[k].pc.Blocked? ==> ss[k + 1].pc == Blocked(ss[k].pc.op, true))
        && (ss[k].pc.Blocked2? ==> ss[k + 1].pc == Blocked2(ss[k].pc.op, true, ss[k].pc.since))
  {
    RunInv(n, size, ss, es, k);
    assert Step(n, ss[k], es[k], ss[k + 1]);
  }

  /** A consumer blocked in `histget` without a pending signal faces an empty queue: no wakeup is lost. */
  lemma NoLostWakeup(n: nat, size: nat, ss: seq<Sys>, es: seq<Event>, k: nat)
    requires Run(n, size, ss, es) && k < |ss|
    requires ss[k].pc.Blocked? && !ss[k].pc.signalled
    ensures ss[k].log.Queued() == 0
  {
    RunInv(n, size, ss, es, k);
  }

  /** All of the first `nsize` names of the head are there. */
  ghost predicate HeadComplete(l: Log, nsize: nat) {
    && l.removed < |l.entries| && nsize <= |l.entries[l.removed].fname|
    && forall i :: 0 <= i < nsize ==> l.entries[l.removed].fname[i].Some?
  }

  /**
   `histwait` checks outside the mutex, so less holds: whoever is blocked there unsignalled sees
   the queue as it was when blocking, and every file kept since then has signalled.
  */
  lemma SecondWaitSeesNoPut(n: nat, size: nat, ss: seq<Sys>, es: seq<Event>, k: nat)
    requires Run(n, size, ss, es) && k < |ss| && ss[k].pc.Blocked2? && !ss[k].pc.signalled
    ensures HeadComplete(ss[k].log, ss[k].nsize) <==> HeadComplete(ss[k].pc.since, ss[k].nsize)
    ensures k < |es| && es[k].Arrive? && Accepts(ss[k].log, n, es[k].a.dt, es[k].a.tent) ==>
              ss[k + 1].pc.Blocked2? && ss[k + 1].pc.signalled
  {
    RunInv(n, size, ss, es, k);
  }

  /** Accepted dates are delivered, closed, evicted, or still queued; nothing else happens to them. */
  lemma DeliveryAccounting(n: nat, size: nat, ss: seq<Sys>, es: seq<Event>, k: nat)
    requires Run(n, size, ss, es) && k < |ss|
    ensures
      var s := ss[k];
      |s.log.entries| + Pending(s.pc) == |s.delivered| + s.closed + s.log.evicted + s.log.Queued()
  {
    RunInv(n, size, ss, es, k);
  }

  /** No file is lost track of in any run. */
  lemma FilesConserved(n: nat, size: nat, ss: seq<Sys>, es: seq<Event>, k: nat, p: Path)
    requires Run(n, size, ss, es) && k < |ss|
    ensures
      var l := ss[k].log;
      && ThreeNames(l.entries)
      && Times(l.puts, p) == Held(l.entries, p) + Times(l.unlinked, p) + Times(l.replaced, p)
  {
    RunInv(n, size, ss, es, k);
    assert Balance(ss[k].log, p) == 0;
  }

  /** The consumer only retires entries that are there, even while the producer evicts. */
  lemma RemovalIsSafe(n: nat, size: nat, ss: seq<Sys>, es: seq<Event>, k: nat)
    requires Run(n, size, ss, es) && k < |ss|
    ensures ss[k].isOpen || HasHandle(ss[k].pc) ==> ss[k].log.Queued() > 0
  {
    RunInv(n, size, ss, es, k);
  }

  lemma FirstFile(l: Log)
    requires ValidLog(EMPTY, 5) && l == Put(EMPTY, 5, File(1, 0).path, 1, 0)
    ensures ValidLog(l, 5) && l.removed == 0 && l.entries == [FileEntry(1)]
  {
    var ps := [File(1, 0)];
    assert ps[..0] == [];
    FirstDates(ps);
  }

  lemma SecondFile(l: Log)
    requires ValidLog(l, 5) && l.removed == 0 && l.entries == [FileEntry(1)]
    ensures ValidLog(Put(l, 5, File(1, 1).path, 1, 1), 5)
    ensures HeadComplete(Put(l, 5, File(1, 1).path, 1, 1), 2)
  {
    PutValid(l, 5, File(1, 1).path, 1, 1);
    LookupUnique(l, 5, 0);
  }

  /** The consumer looks at the next name of the head. */
  lemma LooksAt(n: nat, s: Sys, next: Consumer)
    requires ValidLog(s.log, n) && s.log.removed < |s.log.entries| && s.pc.Checking? && s.pc.op.Get?
    requires |s.pc.op.opt| == FNAME_MAX && s.pc.head == s.log.removed && s.pc.slot == s.pc.head % n
    requires s.pc.i < s.nsize <= FNAME_MAX
    requires
      if s.log.entries[s.pc.head].fname[s.pc.i].None? then next == Entering(s.pc.op)
      else s.pc.i + 1 < s.nsize && next == Checking(s.pc.op, s.pc.slot, s.pc.i + 1, s.pc.head)
    ensures Step(n, s, Check, s.(pc := next))
  {
    SlotHolds(s.log.entries, n, s.pc.head);
    assert CheckStep(n, s, s.(pc := next));
  }

  /** With only the first of two files there, a GET ends up before `histwait`. */
  lemma MissingSecond(n: nat, op: Op, ss: seq<Sys>, es: seq<Event>) returns (ss': seq<Sys>, es': seq<Event>)
    requires Run(n, 2, ss, es) && |es| == 1 && ss[1].pc.Idle? && ss[1].nsize == 2
    requires op.Get? && ValidOp(op)
    requires
      var l := ss[1].log;
      && ValidLog(l, n) && l.removed < |l.entries|
      && l.entries[l.removed].fname[0].Some? && l.entries[l.removed].fname[1].None?
    ensures Run(n, 2, ss', es') && |es'| == 5 && ss'[5] == ss[1].(pc := Entering(op))
  {
    var h := ss[1].log.removed;
    var c0, c1 := Checking(op, h % n, 0, h), Checking(op, h % n, 1, h);
    LooksAt(n, ss[1].(pc := c0), c1);
    LooksAt(n, ss[1].(pc := c1), Entering(op));
    ss', es' := Extend(n, 2, ss, es, Request(op), ss[1].(pc := Locking(op)));
    ss', es' := Extend(n, 2, ss', es', TakeHead, ss[1].(pc := c0));
    ss', es' := Extend(n, 2, ss', es', Check, ss[1].(pc := c1));
    ss', es' := Extend(n, 2, ss', es', Check, ss[1].(pc := Entering(op)));
  }

  /** The lost wakeup of `histwait`: the last missing file arrives between the check and the wait. */
  lemma SecondWaitCanBeLate()
    ensures exists ss: seq<Sys>, es: seq<Event> ::
              && Run(5, 2, ss, es)
              && var s := ss[|es|];
              s.pc.Blocked2? && !s.pc.signalled && HeadComplete(s.log, s.nsize)
  {
    assert ValidLog(EMPTY, 5);
    var l1 := Put(EMPTY, 5, File(1, 0).path, 1, 0);
    FirstFile(l1);
    var ss := [Init(2), Init(2).(log := l1)];
    var es := [Arrive(File(1, 0))];
    assert Run(5, 2, ss, es);
    ss, es := MissingSecond(5, Get([1, 1, 1]), ss, es);
    BlockedTooLate(ss, es);
  }

  lemma BlockedTooLate(ss: seq<Sys>, es: seq<Event>)
    requires Run(5, 2, ss, es) && ss[|es|].pc.Entering? && ss[|es|].nsize == 2
    requires
      var l := ss[|es|].log;
      ValidLog(l, 5) && l.removed == 0 && l.entries == [FileEntry(1)]
    ensures exists ss: seq<Sys>, es: seq<Event> ::
              && Run(5, 2, ss, es)
              && var s := ss[|es|];
              s.pc.Blocked2? && !s.pc.signalled && HeadComplete(s.log, s.nsize)
  {
    var s := ss[|es|];
    var l2 := Put(s.log, 5, File(1, 1).path, 1, 1);
    SecondFile(s.log);
    var ss', es' := Extend(5, 2, ss, es, Arrive(File(1, 1)), s.(log := l2));
    var blocked := s.(log := l2, pc := Blocked2(s.pc.op, false, l2), waithist2 := s.waithist2 + 1);
    ss', es' := Extend(5, 2, ss', es', BlockOnSecond, blocked);
  }

  /** One more step at the end of a run. */
  lemma Extend(n: nat, size: nat, ss: seq<Sys>, es: seq<Event>, e: Event, t: Sys)
    returns (ss': seq<Sys>, es': seq<Event>)
    requires Run(n, size, ss, es) && Step(n, ss[|es|], e, t)
    ensures ss' == ss + [t] && es' == es + [e]
    ensures Run(n, size, ss', es')
  {
    ss', es' := ss + [t], es + [e];
    forall i | 0 <= i < |es'|
      ensures Step(n, ss'[i], es'[i], ss'[i + 1])
    {
      if i < |es| {
        assert Step(n, ss[i], es[i], ss[i + 1]);
      }
    }
  }
}
