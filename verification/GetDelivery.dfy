/** A delivery of `lwatcher` in the client's buffer: the files there are all of one date. */
module GetDelivery {
  import opened HistoryLog
  import opened HistoryRun
  import opened HistoryDelivery
  import opened HistoryRequests
  import opened WireFormat
  import opened GetTransfer
  import opened GetExchange

  /** The contents of the files of a reply. */
  function FilesOf(names: seq<Path>, disk: Path -> seq<byte>): (r: seq<seq<byte>>)
    ensures |r| == |names| && forall t :: 0 <= t < |r| ==> r[t] == disk(names[t])
  {
    seq(|names|, t requires 0 <= t < |names| => disk(names[t]))
  }

  lemma {:induction false} DeliveredStays(n: nat, size: nat, ss: seq<Sys>, es: seq<Event>, m: nat, k: nat)
    requires Run(n, size, ss, es) && m <= k < |ss|
    ensures ss[m].delivered <= ss[k].delivered
    decreases k
  {
    if m == k {
    } else {
      DeliveredStays(n, size, ss, es, m, k - 1);
      assert Step(n, ss[k - 1], es[k - 1], ss[k]);
    }
  }

  /**
   The reply that step `m` sends has as many files as the client asked for, if that is what the request
   of step `i` asks for with positive sizes, and the server serves so many: the number `Get` uses.
  */
  lemma FilesAsRequested(n: nat, size: nat, ss: seq<Sys>, es: seq<Event>, k: nat, i: nat, m: nat, sizes: seq<nat>)
    requires Run(n, size, ss, es) && m < k < |ss| && es[m].ReplySent? && LastRequest(es, m, i)
    requires |sizes| <= ss[i].nsize <= TRANSOPT_SIZE && es[i].op == HistoryRun.Get(Padded(sizes))
    requires forall t :: 0 <= t < |sizes| ==> sizes[t] > 0
    ensures |ss[m].delivered| < |ss[k].delivered| && ss[k].delivered[|ss[m].delivered|].nsize == |sizes|
  {
    assert Step(n, ss[m], es[m], ss[m + 1]);
    DeliveredStays(n, size, ss, es, m + 1, k);
    var i' := RunWorksOn(n, size, ss, es, m);
    assert i' == i;
    ServedPadded(sizes, ss[i].nsize);
    ServedIs(Padded(sizes), ss[i].nsize, ss[m].pc.d.nsize);
  }

  /**
   If files arrive on time and the reply was not read too late, and the connection lasted for it, then
   what `Get` leaves in the buffer is, at the sum of the earlier sizes, the beginning of one file of
   each type, all of the reply's date, and nothing else has changed.
  */
  lemma BufferOfOneDate(n: nat, size: nat, ss: seq<Sys>, es: seq<Event>, k: nat, i: nat, m: nat, j: nat,
                        disk: Path -> seq<byte>, before: seq<byte>, after: seq<byte>, sizes: seq<nat>,
                        now: seq<nat>, r: nat)
    requires OnTimeRun(n, size, ss, es) && m < k < |ss| && es[m].ReplySent? && LastRequest(es, m, i)
    requires |sizes| <= ss[i].nsize <= TRANSOPT_SIZE && es[i].op == HistoryRun.Get(Padded(sizes))
    requires forall t :: 0 <= t < |sizes| ==> sizes[t] > 0
    requires j == |ss[m].delivered| < |ss[k].delivered|
    requires !ss[k].delivered[j].lateNames && !ss[k].delivered[j].lateDate
    requires Offset(sizes, |sizes|) <= |before|
    ensures |ss[k].delivered[j].names| == |sizes|
    ensures
      var d := ss[k].delivered[j];
      var parts := GetTransfer.Heads(FilesOf(d.names, disk), sizes);
      Filled(before, after, sizes, now, parts, r) && |Concat(parts)| <= r ==>
        && LaidOut(before, after, sizes, FilesOf(d.names, disk))
        && forall t :: 0 <= t < |sizes| ==>
                         && PartAt(after, Offset(sizes, t), Head(disk(d.names[t]), sizes[t]))
                         && d.names[t].date == d.date && d.names[t].kind == t
  {
    var d := ss[k].delivered[j];
    FilesAsRequested(n, size, ss, es, k, i, m, sizes);
    RepliesExactlyProper(n, size, ss, es, k, j);
    var files := FilesOf(d.names, disk);
    var parts := GetTransfer.Heads(files, sizes);
    if Filled(before, after, sizes, now, parts, r) && |Concat(parts)| <= r {
      WholeReplyIsLaidOut(before, sizes, files, r);
      forall t | 0 <= t < |sizes|
        ensures PartAt(after, Offset(sizes, t), Head(disk(d.names[t]), sizes[t]))
      {
        assert Placed(after, sizes, files, t);
      }
    }
  }
}
