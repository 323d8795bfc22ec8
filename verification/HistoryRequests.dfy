/**
 A session against the request it answers: which check it makes of the head, how many files the reply
 consists of, and from which columns they are.
*/
module HistoryRequests {
  import opened HistoryLog
  import opened HistoryRing
  import opened HistoryHandle
  import opened HistoryRun

  /** `r` is the first of the `size` columns of which nothing is wanted, or `size` if there is none. */
  predicate FirstZero(opt: seq<nat>, size: nat, r: nat) {
    && r <= size <= |opt|
    && (forall j :: 0 <= j < r ==> opt[j] != 0)
    && (r < size ==> opt[r] == 0)
  }

  /**
   At the step that ends the checks of a GET the number of served types becomes that of the columns
   before the first zero; no other step changes it.
  */
  lemma ServedExactly(n: nat, size: nat, ss: seq<Sys>, es: seq<Event>, k: nat)
    requires Run(n, size, ss, es) && k < |es|
    ensures
      if ss[k].pc.Checking? && ss[k + 1].pc.Sending?
      then ss[k].pc.op.Get? && FirstZero(ss[k].pc.op.opt, ss[k].nsize, ss[k + 1].nsize)
      else ss[k + 1].nsize == ss[k].nsize
  {
    RunInv(n, size, ss, es, k);
    assert Step(n, ss[k], es[k], ss[k + 1]);
  }

  /** The consumer gets the oldest date of the queue, in the slot that its handle names, or waits. */
  lemma TakesOldest(n: nat, size: nat, ss: seq<Sys>, es: seq<Event>, k: nat)
    requires Run(n, size, ss, es) && k < |es| && es[k].TakeHead?
    ensures ss[k + 1].log == ss[k].log && (ss[k + 1].pc.Checking? <==> ss[k].log.Queued() > 0)
    ensures
      ss[k + 1].pc.Checking? ==>
        var l, pc := ss[k].log, ss[k + 1].pc;
        && l.removed <= pc.head < |l.entries| && pc.slot < n && SlotAt(l.entries, n, pc.slot) == l.entries[pc.head]
        && forall j :: l.removed <= j < |l.entries| ==> l.entries[pc.head].date <= l.entries[j].date
  {
    RunInv(n, size, ss, es, k);
    assert Step(n, ss[k], es[k], ss[k + 1]);
    if ss[k].log.Queued() > 0 {
      SlotHolds(ss[k].log.entries, n, ss[k].log.removed);
    }
  }

  /** The column that is looked at. */
  function Column(pc: Consumer): nat
    requires pc.Checking?
  {
    match pc.op
    case Get(_) => pc.i
    case OpenOne(kind) => kind
  }

  /**
   A check, as long as the slot is not reused: a missing name leads to the second wait; a name that is
   there opens the session of an OPEN, and leads a GET to the next column or, after the last, to the reply.
  */
  lemma CheckExactly(n: nat, size: nat, ss: seq<Sys>, es: seq<Event>, k: nat)
    requires Run(n, size, ss, es) && k < |es| && es[k].Check? && ss[k].pc.Checking?
    requires |ss[k].log.entries| <= ss[k].pc.head + n
    ensures
      var s, t := ss[k], ss[k + 1];
      && s.pc.head < |s.log.entries| && Column(s.pc) < |s.log.entries[s.pc.head].fname|
      && (t.pc == Entering(s.pc.op) <==> s.log.entries[s.pc.head].fname[Column(s.pc)].None?)
      && (s.log.entries[s.pc.head].fname[Column(s.pc)].Some? ==>
            if s.pc.op.OpenOne? then t.pc == Idle && t.isOpen
            else if s.pc.i + 1 < s.nsize then t.pc == Checking(s.pc.op, s.pc.slot, s.pc.i + 1, s.pc.head)
            else t.pc == Sending(s.pc.slot, 0, [], s.pc.head, false))
  {
    RunInv(n, size, ss, es, k);
    assert Step(n, ss[k], es[k], ss[k + 1]);
    SlotHolds(ss[k].log.entries, n, ss[k].pc.head);
  }

  // ----- Which request a reply answers -----

  /** The last request before step `k` is step `i`. */
  ghost predicate LastRequest(es: seq<Event>, k: nat, i: nat) {
    i < k <= |es| && es[i].Request? && forall m :: i < m < k ==> !es[m].Request?
  }

  /** The consumer works on the request: it has not changed the number of types yet, or just as wanted. */
  predicate WorksOn(s: Sys, op: Op, before: nat) {
    match s.pc
    case Idle => true
    case Retiring(_) => true
    case Locking(o) => o == op && s.nsize == before
    case Blocked(o, _) => o == op && s.nsize == before
    case Checking(o, _, _, _) => o == op && s.nsize == before
    case Entering(o) => o == op && s.nsize == before
    case Blocked2(o, _, _) => o == op && s.nsize == before
    case Sending(_, _, _, _, _) => op.Get? && FirstZero(op.opt, before, s.nsize)
    case Replying(_, d) => op.Get? && FirstZero(op.opt, before, s.nsize) && d.nsize == s.nsize
  }

  lemma StepWorksOn(n: nat, s: Sys, e: Event, t: Sys, op: Op, before: nat)
    requires Inv(n, s) && Step(n, s, e, t) && WorksOn(s, op, before) && !s.pc.Idle? && !s.pc.Retiring?
    ensures WorksOn(t, op, before)
  {
  }

  lemma OneWorksOn(n: nat, s: Sys, e: Event, t: Sys)
    requires Step(n, s, e, t)
    ensures e.Request? ==> WorksOn(t, e.op, s.nsize) && t.nsize == s.nsize
    ensures !e.Request? && !t.pc.Idle? && !t.pc.Retiring? ==> !s.pc.Idle? && !s.pc.Retiring?
  {
  }

  lemma NextWorksOn(n: nat, size: nat, ss: seq<Sys>, es: seq<Event>, k: nat, i: nat, op: Op, before: nat)
    requires Run(n, size, ss, es) && 0 < k < |ss| && !es[k - 1].Request? && LastRequest(es, k - 1, i)
    requires WorksOn(ss[k - 1], op, before) && !ss[k - 1].pc.Idle? && !ss[k - 1].pc.Retiring?
    ensures LastRequest(es, k, i) && WorksOn(ss[k], op, before)
  {
    RunInv(n, size, ss, es, k - 1);
    StepWorksOn(n, ss[k - 1], es[k - 1], ss[k], op, before);
  }

  lemma {:induction false} RunWorksOn(n: nat, size: nat, ss: seq<Sys>, es: seq<Event>, k: nat) returns (i: nat)
    requires Run(n, size, ss, es) && k < |ss| && !ss[k].pc.Idle? && !ss[k].pc.Retiring?
    ensures LastRequest(es, k, i) && WorksOn(ss[k], es[i].op, ss[i].nsize)
  {
    if k == 0 {
      assert false;
    } else {
      OneWorksOn(n, ss[k - 1], es[k - 1], ss[k]);
      if es[k - 1].Request? {
        i := k - 1;
      } else {
        i := RunWorksOn(n, size, ss, es, k - 1);
        NextWorksOn(n, size, ss, es, k, i, es[i].op, ss[i].nsize);
      }
    }
  }

  /**
   Each delivery was sent by step `m` and answers the request of step `i`, a GET: its number of files is
   that of the columns before the first zero of this request.
  */
  lemma {:induction false} DeliveryAnswers(n: nat, size: nat, ss: seq<Sys>, es: seq<Event>, k: nat, j: nat)
    returns (i: nat, m: nat)
    requires Run(n, size, ss, es) && k < |ss| && j < |ss[k].delivered|
    ensures m < k && es[m].ReplySent? && LastRequest(es, m, i) && es[i].op.Get?
    ensures ss[m].pc.Replying? && ss[m].pc.d == ss[k].delivered[j]
    ensures FirstZero(es[i].op.opt, ss[i].nsize, ss[k].delivered[j].nsize)
  {
    if k == 0 {
      assert false;
    } else {
      assert Step(n, ss[k - 1], es[k - 1], ss[k]);
      if j < |ss[k - 1].delivered| {
        i, m := DeliveryAnswers(n, size, ss, es, k - 1, j);
        assert ss[k].delivered[j] == ss[k - 1].delivered[j];
      } else {
        m := k - 1;
        i := RunWorksOn(n, size, ss, es, m);
      }
    }
  }

  // ----- From which columns the files are -----

  /** Files are registered under their own type, however late they are. */
  ghost predicate OwnTypeRun(n: nat, size: nat, ss: seq<Sys>, es: seq<Event>) {
    Run(n, size, ss, es) && forall i :: 0 <= i < |es| && es[i].Arrive? ==> es[i].a.path.kind == es[i].a.tent
  }

  ghost predicate InColumns(es: seq<Entry>)
    requires ThreeNames(es)
  {
    forall k, t :: 0 <= k < |es| && 0 <= t < FNAME_MAX && es[k].fname[t].Some? ==> es[k].fname[t].value.kind == t
  }

  lemma StoreInColumns(l: Log, k: nat, path: Path, tent: nat)
    requires ThreeNames(l.entries) && InColumns(l.entries) && k < |l.entries| && path.kind == tent < FNAME_MAX
    ensures ThreeNames(Store(l, k, path, tent).entries) && InColumns(Store(l, k, path, tent).entries)
  {
  }

  lemma OpenInColumns(l: Log, n: nat, dt: nat)
    requires ThreeNames(l.entries) && InColumns(l.entries)
    ensures ThreeNames(Open(l, n, dt).entries) && InColumns(Open(l, n, dt).entries)
    ensures |Open(l, n, dt).entries| == |l.entries| + 1
  {
    assert forall t :: 0 <= t < FNAME_MAX ==> NO_NAMES[t].None?;
  }

  lemma EvictInColumns(l: Log, n: nat)
    requires ValidLog(l, n) && InColumns(l.entries)
    ensures ThreeNames(Evict(l, n).entries) && InColumns(Evict(l, n).entries)
    ensures |Evict(l, n).entries| == |l.entries|
  {
    assert forall t :: 0 <= t < FNAME_MAX ==> NO_NAMES[t].None?;
  }

  lemma PutInColumns(n: nat, l: Log, a: Arrival)
    requires ValidLog(l, n) && a.dt != 0 && InColumns(l.entries) && a.path.kind == a.tent
    ensures
      var r := Put(l, n, a.path, a.dt, a.tent);
      ThreeNames(r.entries) && InColumns(r.entries)
  {
    var b := Arrived(l, a.path);
    if InRange(a.tent) {
      if a.dt > l.Newest() {
        EvictInColumns(b, n);
        OpenInColumns(Evict(b, n), n, a.dt);
        StoreInColumns(Open(Evict(b, n), n, a.dt), |l.entries|, a.path, a.tent);
      } else if Lookup(l, n, a.dt).Some? {
        StoreInColumns(b, Lookup(l, n, a.dt).value, a.path, a.tent);
      }
    }
  }

  /** The files of a reply are those of the first columns, one for each, without a gap. */
  predicate FirstTypes(names: seq<Path>) {
    forall c :: 0 <= c < |names| ==> names[c].kind == c
  }

  ghost predicate Gapless(s: Sys)
    requires ThreeNames(s.log.entries)
  {
    && InColumns(s.log.entries)
    && (s.pc.Sending? ==> FirstTypes(s.pc.names) && (|s.pc.names| == s.pc.i || s.pc.i >= s.nsize))
    && (s.pc.Replying? ==> FirstTypes(s.pc.d.names))
    && (forall j :: 0 <= j < |s.delivered| ==> FirstTypes(s.delivered[j].names))
  }

  lemma SlotInColumns(es: seq<Entry>, n: nat, s: nat, t: nat)
    requires ThreeNames(es) && InColumns(es) && s < n && t < FNAME_MAX
    ensures
      var f := SlotAt(es, n, s).fname;
      |f| == FNAME_MAX && (f[t].Some? ==> f[t].value.kind == t)
  {
    assert NO_NAMES[t].None?;
  }

  lemma StepGapless(n: nat, s: Sys, e: Event, t: Sys)
    requires Inv(n, s) && Step(n, s, e, t) && Gapless(s) && (e.Arrive? ==> e.a.path.kind == e.a.tent)
    ensures ThreeNames(t.log.entries) && Gapless(t)
  {
    if e.Arrive? {
      PutInColumns(n, s.log, e.a);
    } else if e.SendName? {
      SlotInColumns(s.log.entries, n, s.pc.slot, s.pc.i);
    }
  }

  lemma {:induction false} RunGapless(n: nat, size: nat, ss: seq<Sys>, es: seq<Event>, k: nat)
    requires OwnTypeRun(n, size, ss, es) && k < |ss|
    ensures Inv(n, ss[k]) && Gapless(ss[k])
  {
    RunInv(n, size, ss, es, k);
    if k == 0 {
      assert ss[0] == Init(size);
    } else {
      RunGapless(n, size, ss, es, k - 1);
      StepGapless(n, ss[k - 1], es[k - 1], ss[k]);
    }
  }

  /**
   If files are registered under their own type, every reply has its files in the order of the types and
   without a gap, even one that was overtaken: at the first missing name it ends.
  */
  lemma RepliesHaveNoGap(n: nat, size: nat, ss: seq<Sys>, es: seq<Event>, k: nat, j: nat)
    requires OwnTypeRun(n, size, ss, es) && k < |ss| && j < |ss[k].delivered|
    ensures FirstTypes(ss[k].delivered[j].names)
  {
    RunGapless(n, size, ss, es, k);
  }
}
