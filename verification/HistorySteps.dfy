/**
 The ring in place and the state machine of both threads: every critical section, run on the ring,
 is the step of the machine that is named after it, waiter counters and signals included.
*/
module HistorySteps {
  import opened Wrappers
  import opened HistoryLog
  import opened HistoryRing
  import opened HistoryHandle
  import opened HistoryRun

  /** The shared variables are those of the machine's state. */
  ghost predicate Represents(h: History, s: Sys)
    reads h, h.history
  {
    h.Valid() && h.log == s.log && h.waithist == s.waithist && h.waithist2 == s.waithist2
  }

  /** A new ring is the start of every run. */
  method Start(nh: int, ghost size: nat) returns (h: History)
    requires nh <= MAX_HISTORY && 1 <= size <= FNAME_MAX
    ensures fresh(h) && fresh(h.history) && Represents(h, Init(size)) && Inv(h.nhist, Init(size))
  {
    h := new History(nh);
    InitInv(h.nhist, size);
  }

  /** histput; its signals are what wakes the consumer. */
  method ArriveStep(h: History, path: Path, dt: int, tent: int, ghost s: Sys) returns (ghost t: Sys)
    requires Represents(h, s) && dt != 0 && tent != FNAME_MAX
    requires -0x8000_0000_0000_0000 <= dt < 0x8000_0000_0000_0000
    modifies h, h.history
    ensures Represents(h, t) && Step(h.nhist, s, HistoryRun.Arrive(Arrival(path, Unsigned(dt), tent)), t)
  {
    var signal, signal2 := h.HistPut(path, dt, tent);
    t := s.(log := h.log, pc := Signal(s.pc, signal, signal2));
  }

  /** histget up to its wait; the handle is the slot the consumer works on. */
  method TakeStep(h: History, ghost s: Sys) returns (hp: Option<nat>, ghost t: Sys)
    requires Represents(h, s) && s.pc.Locking?
    modifies h`waithist
    ensures Represents(h, t) && Step(h.nhist, s, TakeHead, t)
    ensures hp == if t.pc.Checking? then Some(t.pc.slot) else None
  {
    hp := h.HistGet();
    t := if hp.Some? then s.(pc := Checking(s.pc.op, hp.value, 0, s.log.removed))
    else s.(pc := Blocked(s.pc.op, false), waithist := s.waithist + 1);
  }

  /** The end of a wait, in histget or histwait. */
  method WakeStep(h: History, first: bool, ghost s: Sys) returns (ghost t: Sys)
    requires Represents(h, s) && Inv(h.nhist, s) && if first then s.pc.Blocked? else s.pc.Blocked2?
    modifies h`waithist, h`waithist2
    ensures Represents(h, t) && Step(h.nhist, s, Wake, t)
  {
    if first {
      h.WokenUp();
      t := s.(pc := Locking(s.pc.op), waithist := s.waithist - 1);
    } else {
      h.WokenUpSecond();
      t := s.(pc := Locking(s.pc.op), waithist2 := s.waithist2 - 1);
    }
  }

  /** histwait up to its wait. */
  method BlockStep(h: History, ghost s: Sys) returns (ghost t: Sys)
    requires Represents(h, s) && s.pc.Entering?
    modifies h`waithist2
    ensures Represents(h, t) && Step(h.nhist, s, BlockOnSecond, t)
  {
    h.WaitSecond();
    t := s.(pc := Blocked2(s.pc.op, false, s.log), waithist2 := s.waithist2 + 1);
  }

  /** histremove after a reply, or on CLOSE; the queue is never empty then. */
  method RetireStep(h: History, closing: bool, ghost s: Sys) returns (ghost t: Sys)
    requires Represents(h, s) && Inv(h.nhist, s)
    requires if closing then s.pc.Idle? && s.isOpen else s.pc.Retiring?
    modifies h, h.history
    ensures Represents(h, t) && Step(h.nhist, s, if closing then CloseRequest else Retire, t)
  {
    h.HistRemove();
    t := if closing then s.(log := h.log, isOpen := false, closed := s.closed + 1)
    else s.(log := h.log, pc := Idle, isOpen := false);
  }
}
