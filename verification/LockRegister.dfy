/**
 The lock protocol over the real text of the two lock files: what the protocol calls "set i is in
 the file" and "the file is empty" is what any reader makes of the bytes, along every run.
*/
module LockRegister {
  import opened Wrappers
  import opened LockFile
  import P = LockProtocol

  /** A set whose names fit into a lock file. */
  ghost predicate Publishable(names: seq<string>) {
    && 1 <= |names| <= FTYPE_NUM && |Join(names)| < PATH_MAX
    && forall n :: n in names ==> PlainName(n)
  }

  /** Whatever a reader's buffer holds, it makes `o` of the text. */
  ghost predicate ReadsAs(text: seq<char>, o: Option<seq<string>>) {
    forall buf: seq<char> :: |buf| == PATH_MAX + 1 ==> Fetched(buf, text) == o
  }

  const ZEROS: seq<char> := [NUL, NUL, NUL, NUL]

  lemma WrittenReadsAs(was: seq<char>, names: seq<string>)
    requires Publishable(names)
    ensures ReadsAs(Overwrite(was, Join(names) + [NUL]), Some(names))
  {
    forall buf: seq<char> | |buf| == PATH_MAX + 1
      ensures Fetched(buf, Overwrite(was, Join(names) + [NUL])) == Some(names)
    {
      RegisterRoundTrip(was, names, buf);
    }
  }

  lemma ZeroedReadsAs(was: seq<char>)
    ensures ReadsAs(Overwrite(was, ZEROS), None)
  {
    forall buf: seq<char> | |buf| == PATH_MAX + 1
      ensures Fetched(buf, Overwrite(was, ZEROS)) == None
    {
      NullifiedReadsEmpty(was, buf);
    }
  }

  /** The names of the set that the protocol has in the file. */
  function NamesIn(content: Option<nat>, sets: nat -> seq<string>): Option<seq<string>> {
    if content.None? then None else Some(sets(content.value))
  }

  /** The bytes of both files stand for the content that the protocol gives them. */
  ghost predicate Represents(s: P.Sys, texts: seq<seq<char>>, sets: nat -> seq<string>) {
    && P.Shape(s) && |texts| == 2
    && forall f: P.File :: ReadsAs(texts[f], NamesIn(s.content[f], sets))
  }

  /** What a step does to the bytes: a set is written over them, or zeros are. */
  ghost predicate TextStep(s: P.Sys, e: P.Event, sets: nat -> seq<string>,
                           before: seq<seq<char>>, after: seq<seq<char>>) {
    && |before| == |after| == 2
    && match e
       case Write =>
         after == before[s.writer.f := Overwrite(before[s.writer.f], Join(sets(s.published)) + [NUL])]
       case RNullify(id) =>
         && id < |s.readers| && s.readers[id].Got?
         && var f := s.readers[id].f;
         after == before[f := Overwrite(before[f], ZEROS)]
       case _ => after == before
  }

  ghost predicate TextRun(ss: seq<P.Sys>, es: seq<P.Event>, sets: nat -> seq<string>, tss: seq<seq<seq<char>>>) {
    && P.Run(ss, es) && |tss| == |ss|
    && (forall i :: 0 <= i < ss[|es|].published ==> Publishable(sets(i)))
    && |tss[0]| == 2 && (forall f: P.File :: exists was :: tss[0][f] == Overwrite(was, ZEROS))
    && forall i :: 0 <= i < |es| ==> TextStep(ss[i], es[i], sets, tss[i], tss[i + 1])
  }

  lemma StepRepresents(s: P.Sys, e: P.Event, t: P.Sys, sets: nat -> seq<string>,
                       before: seq<seq<char>>, after: seq<seq<char>>)
    requires P.Step(s, e, t) && Represents(s, before, sets) && TextStep(s, e, sets, before, after)
    requires e.Write? ==> Publishable(sets(s.published))
    ensures Represents(t, after, sets)
  {
    match e
    case Write => WrittenReadsAs(before[s.writer.f], sets(s.published));
    case RNullify(id) => ZeroedReadsAs(before[s.readers[id].f]);
    case _ =>
  }

  lemma {:induction false} PublishedGrows(ss: seq<P.Sys>, es: seq<P.Event>, i: nat, j: nat)
    requires P.Run(ss, es) && i <= j < |ss|
    ensures ss[i].published <= ss[j].published
    decreases j
  {
    if i == j {
    } else {
      PublishedGrows(ss, es, i, j - 1);
      assert P.Step(ss[j - 1], es[j - 1], ss[j]);
    }
  }

  /** In every run the bytes of the lock files stand for what the protocol says is in them. */
  lemma {:induction false} RegisterFollows(ss: seq<P.Sys>, es: seq<P.Event>, sets: nat -> seq<string>,
                                           tss: seq<seq<seq<char>>>, k: nat)
    requires TextRun(ss, es, sets, tss) && k < |ss|
    ensures Represents(ss[k], tss[k], sets)
  {
    if k == 0 {
      forall f: P.File
        ensures ReadsAs(tss[0][f], None)
      {
        var was :| tss[0][f] == Overwrite(was, ZEROS);
        ZeroedReadsAs(was);
      }
    } else {
      RegisterFollows(ss, es, sets, tss, k - 1);
      PublishedGrows(ss, es, k, |es|);
      assert P.Step(ss[k - 1], es[k - 1], ss[k]);
      StepRepresents(ss[k - 1], es[k - 1], ss[k], sets, tss[k - 1], tss[k]);
    }
  }

  lemma ReadLogs(s: P.Sys, id: nat, t: P.Sys)
    requires P.Step(s, P.RRead(id), t)
    ensures P.Shape(s) && id < |s.readers| && s.readers[id].Locked?
    ensures
      var o := s.content[s.readers[id].f];
      t.log == s.log + if o.None? then [] else [P.Read(id, o.value)]
  {
    assert s.log + [] == s.log;
  }

  lemma ReadNames(s: P.Sys, texts: seq<seq<char>>, sets: nat -> seq<string>, f: P.File, buf: seq<char>)
    requires Represents(s, texts, sets) && |buf| == PATH_MAX + 1
    ensures Fetched(buf, texts[f]) == NamesIn(s.content[f], sets)
  {
    assert ReadsAs(texts[f], NamesIn(s.content[f], sets));
  }

  /**
   A reader that reads the bytes of its lock file, with any buffer, gets exactly the names of the
   set that the protocol logs for it, and nothing exactly if nothing is logged.
  */
  lemma ReaderGetsNames(ss: seq<P.Sys>, es: seq<P.Event>, sets: nat -> seq<string>, tss: seq<seq<seq<char>>>,
                        k: nat, id: nat, buf: seq<char>) returns (i: Option<nat>)
    requires TextRun(ss, es, sets, tss) && k < |es| && es[k] == P.RRead(id) && |buf| == PATH_MAX + 1
    ensures id < |ss[k].readers| && ss[k].readers[id].Locked? && |tss[k]| == 2
    ensures Fetched(buf, tss[k][ss[k].readers[id].f]) == NamesIn(i, sets)
    ensures ss[k + 1].log == ss[k].log + if i.None? then [] else [P.Read(id, i.value)]
  {
    RegisterFollows(ss, es, sets, tss, k);
    assert P.Step(ss[k], es[k], ss[k + 1]);
    ReadLogs(ss[k], id, ss[k + 1]);
    var f := ss[k].readers[id].f;
    ReadNames(ss[k], tss[k], sets, f, buf);
    i := ss[k].content[f];
  }
}
