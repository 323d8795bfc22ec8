/**
 The GET exchange over a connection that splits the bytes anywhere and may break anywhere: what the
 client's buffer holds, what the client reports, and whether the server retires the entry.
*/
module GetExchange {
  import opened Wrappers
  import opened WireFormat
  import opened GetTransfer
  import opened Connection

  // ----- What arrives of a reply -----

  /** What arrives of part `i` if `r` bytes of all parts can be read. */
  function Arrives(parts: seq<seq<byte>>, r: nat, i: nat): (p: seq<byte>)
    requires i < |parts|
    ensures p <= parts[i]
  {
    var o := |Concat(parts[..i])|;
    if r <= o then [] else parts[i][..Least(|parts[i]|, r - o)]
  }

  function Arriving(parts: seq<seq<byte>>, r: nat): (ps: seq<seq<byte>>)
    ensures |ps| == |parts| && forall i :: 0 <= i < |ps| ==> ps[i] == Arrives(parts, r, i)
  {
    seq(|parts|, i requires 0 <= i < |parts| => Arrives(parts, r, i))
  }

  /** The first `r` bytes of a concatenation are those of its two halves. */
  lemma CutBoth(a: seq<byte>, b: seq<byte>, r: nat)
    ensures
      (a + b)[..Least(|a + b|, r)] == a[..Least(|a|, r)] + (if r <= |a| then [] else b[..Least(|b|, r - |a|)])
  {
  }

  /** What arrives is the beginning of what was sent. */
  lemma {:induction false} ArrivingIsPrefix(parts: seq<seq<byte>>, r: nat, k: nat)
    requires k <= |parts|
    ensures
      var all := Concat(parts[..k]);
      Concat(Arriving(parts, r)[..k]) == all[..Least(|all|, r)]
  {
    var arriving := Arriving(parts, r);
    if k == 0 {
      assert parts[..k] == [] && arriving[..k] == [];
    } else {
      var i := k - 1;
      ArrivingIsPrefix(parts, r, i);
      ConcatNext(parts, i);
      ConcatNext(arriving, i);
      CutBoth(Concat(parts[..i]), parts[i], r);
    }
  }

  lemma AllArrives(parts: seq<seq<byte>>, r: nat, i: nat)
    requires |Concat(parts)| <= r && i < |parts|
    ensures Arrives(parts, r, i) == parts[i]
  {
    assert parts[..|parts|] == parts;
    ConcatDrop(parts, i, |parts|);
  }

  /** Everything arrives if and only if the connection lasts for all bytes. */
  lemma ArrivesWhole(parts: seq<seq<byte>>, r: nat)
    ensures Arriving(parts, r) == parts <==> |Concat(parts)| <= r
  {
    var n, arriving := |parts|, Arriving(parts, r);
    assert parts[..n] == parts && arriving[..n] == arriving;
    if |Concat(parts)| <= r {
      forall i | 0 <= i < n
        ensures arriving[i] == parts[i]
      {
        AllArrives(parts, r, i);
      }
    } else {
      ArrivingIsPrefix(parts, r, n);
      assert |Concat(arriving)| == r;
    }
  }

  /** How many of the `r` readable bytes belong to the first `i` parts. */
  function Used(parts: seq<seq<byte>>, r: nat, i: nat): nat
    requires i <= |parts|
  {
    Least(r, |Concat(parts[..i])|)
  }

  /** All that can be read of the parts was sent. */
  ghost predicate Enough(parts: seq<seq<byte>>, r: nat, sent: seq<byte>) {
    sent <= Concat(parts) && Least(r, |Concat(parts)|) <= |sent|
  }

  lemma Slice(s: seq<byte>, all: seq<byte>, o: nat, k: nat)
    requires s <= all && o + k <= |s|
    ensures s[o..][..k] == all[o..o + k]
  {
  }

  lemma SliceStart(all: seq<byte>, o: nat, n: nat, k: nat)
    requires k <= n && o + n <= |all|
    ensures all[o..o + n][..k] == all[o..o + k]
  {
  }

  /** Reading part `i` behind the earlier ones. */
  lemma PartArrives(parts: seq<seq<byte>>, r: nat, i: nat, sent: seq<byte>)
    requires i < |parts| && Enough(parts, r, sent)
    ensures Used(parts, r, i) <= |sent|
    ensures
      var left, k := sent[Used(parts, r, i)..], Least(|parts[i]|, r - Used(parts, r, i));
      && k <= |left| && left[..k] == Arrives(parts, r, i)
      && Used(parts, r, i + 1) == Used(parts, r, i) + k
  {
    assert parts[..|parts|] == parts;
    ConcatDrop(parts, i, |parts|);
    ConcatNext(parts, i);
    var o, n := |Concat(parts[..i])|, |parts[i]|;
    if r > o {
      var k := Least(n, r - o);
      Slice(sent, Concat(parts), o, k);
      SliceStart(Concat(parts), o, n, k);
    }
  }

  /**
   The buffer holds what arrives of each part at the sum of the earlier sizes, and is unchanged
   elsewhere; the sizes are replaced by those of the parts, whatever arrived.
  */
  ghost predicate Filled(before: seq<byte>, after: seq<byte>, asked: seq<nat>, now: seq<nat>,
                         parts: seq<seq<byte>>, r: nat) {
    && Fits(|before|, asked, Arriving(parts, r))
    && after == Spread(before, asked, Arriving(parts, r), |parts|)
    && Counted(now, asked, parts, |parts|)
  }

  // ----- Client -----

  /**
   The client's loop over the reply.  It does not look at the results of its reads, so it ends with
   all sizes replaced by the announced counts, whatever arrived.
  */
  method SpreadReply(ch: Channel, got: seq<int>, data: array<byte>, size: array<nat>,
                     ghost parts: seq<seq<byte>>, ghost sent: seq<byte>)
    requires size.Length == |got| == |parts| && forall i :: 0 <= i < |got| ==> got[i] == |parts[i]|
    requires Fits(data.Length, size[..], parts) && ch.Valid()
    requires ch.bytes == sent && Enough(parts, ch.readable, sent)
    modifies ch, data, size
    ensures Fits(data.Length, old(size[..]), Arriving(parts, old(ch.readable)))
    ensures data[..] == Spread(old(data[..]), old(size[..]), Arriving(parts, old(ch.readable)), |parts|)
    ensures Counted(size[..], old(size[..]), parts, |parts|)
  {
    ghost var sizes, orig, r := size[..], data[..], ch.readable;
    ghost var arriving := Arriving(parts, r);
    assert parts[..0] == [];
    var ptr := 0;
    for i := 0 to size.Length
      invariant ptr == Offset(sizes, i) && Used(parts, r, i) <= |sent|
      invariant ch.Valid() && ch.readable == r - Used(parts, r, i) && ch.bytes == sent[Used(parts, r, i)..]
      invariant data[..] == Spread(orig, sizes, arriving, i)
      invariant Counted(size[..], sizes, parts, i)
    {
      ptr := ReadPart(ch, got[i], data, size, i, ptr, orig, sizes, parts, r, sent);
    }
  }

  /** Part i of the reply goes to its place; the result is the place of the next one. */
  method ReadPart(ch: Channel, n: int, data: array<byte>, size: array<nat>, i: nat, ptr: nat,
                  ghost orig: seq<byte>, ghost sizes: seq<nat>, ghost parts: seq<seq<byte>>, ghost r: nat,
                  ghost sent: seq<byte>)
    returns (next: nat)
    requires i < |parts| == |sizes| && n == |parts[i]| && ptr == Offset(sizes, i)
    requires Fits(|orig|, sizes, parts) && Fits(|orig|, sizes, Arriving(parts, r))
    requires data[..] == Spread(orig, sizes, Arriving(parts, r), i)
    requires Counted(size[..], sizes, parts, i) && Enough(parts, r, sent) && Used(parts, r, i) <= |sent|
    requires ch.Valid() && ch.readable == r - Used(parts, r, i) && ch.bytes == sent[Used(parts, r, i)..]
    modifies ch, data, size
    ensures next == Offset(sizes, i + 1) && Used(parts, r, i + 1) <= |sent|
    ensures ch.Valid() && ch.readable == r - Used(parts, r, i + 1) && ch.bytes == sent[Used(parts, r, i + 1)..]
    ensures data[..] == Spread(orig, sizes, Arriving(parts, r), i + 1)
    ensures Counted(size[..], sizes, parts, i + 1)
  {
    PartArrives(parts, r, i, sent);
    SpreadNext(orig, sizes, Arriving(parts, r), i);
    SpreadNext(orig, sizes, parts, i);
    assert size[i] == size[..][i] == sizes[i];
    ReadInto(ch, data, ptr, n, Arrives(parts, r, i));
    next := ptr + size[i];
    size[i] := n;
  }

  /** A read whose result nobody looks at stores what arrives. */
  method ReadInto(ch: Channel, data: array<byte>, at: nat, n: nat, ghost arriving: seq<byte>)
    requires ch.Valid() && at + n <= data.Length && Least(n, ch.readable) <= |ch.bytes|
    requires ch.bytes[..Least(n, ch.readable)] == arriving
    modifies ch, data
    ensures ch.Valid() && ch.readable == old(ch.readable) - |arriving| && ch.bytes == old(ch.bytes)[|arriving|..]
    ensures data[..] == Blit(old(data[..]), at, arriving)
  {
    var r := ch.NetRead(data, at, n);
  }

  // ----- The whole exchange -----

  const GET0: seq<byte> := [71, 69, 84, 48, 0]
  const REPL: seq<byte> := [82, 69, 80, 76, 0]
  const CMD_EXIT: int := 4

  /** The bytes of a reply: its record, and behind it the beginnings of the files. */
  function ReplyText(reply: Command, pad: seq<byte>, parts: seq<seq<byte>>): seq<byte>
    requires ValidCommand(reply) && |pad| == 11
  {
    Encode(reply, pad) + Concat(parts)
  }

  /**
   The server's answer to a GET.  It counts as sent, and the entry is retired, if and only if the
   connection takes all bytes.
  */
  method Serve(opt: seq<nat>, nsize0: nat, files: seq<Option<seq<byte>>>, date: int, str: seq<byte>,
               junk: seq<int>, pad: seq<byte>, down: Channel)
    returns (sent: bool, nsize: nat, ghost reply: Command, ghost text: seq<byte>)
    requires down.Valid() && down.bytes == [] && nsize0 <= |opt| == TRANSOPT_SIZE == |files| == |junk|
    requires |pad| == 11 && |str| == SCMD_STRSIZ && Int64(date)
    requires forall i :: 0 <= i < |junk| ==> Int32(junk[i])
    requires Offset(opt, TRANSOPT_SIZE) < 0x8000_0000
    modifies down`bytes, down`sendable
    ensures down.Valid() && nsize == Served(opt, nsize0)
    ensures ValidCommand(reply) && reply.cmd == REPL && reply.date == date && reply.str == str
    ensures reply.len == |Concat(Heads(Contents(files), opt)[..nsize])|
    ensures forall i :: 0 <= i < nsize && files[i].Some? ==> reply.opt[i] == |Heads(Contents(files), opt)[..nsize][i]|
    ensures text == ReplyText(reply, pad, Heads(Contents(files), opt)[..nsize])
    ensures sent <==> |text| <= old(down.sendable)
    ensures down.bytes == text[..Least(|text|, old(down.sendable))]
    ensures down.sendable == old(down.sendable) - Least(|text|, old(down.sendable))
  {
    var retval := new int[TRANSOPT_SIZE](i requires 0 <= i < |junk| => junk[i]);
    var cp, totsz;
    nsize, cp, totsz := BuildReply(opt, nsize0, files, retval);
    ReplySmall(Heads(Contents(files), opt), opt, nsize);
    OffsetTotal(opt, nsize);
    SizesSmall(opt, Offset(opt, TRANSOPT_SIZE));
    var c := Command(REPL, retval[..], date, str, totsz);
    reply, text := c, ReplyText(c, pad, Heads(Contents(files), opt)[..nsize]);
    sent := SendReply(down, c, pad, cp[..totsz]);
  }

  /** trans_replyget: the record, and if that went through the bytes. */
  method SendReply(down: Channel, c: Command, pad: seq<byte>, body: seq<byte>) returns (sent: bool)
    requires down.Valid() && down.bytes == [] && ValidCommand(c) && |pad| == 11
    modifies down`bytes, down`sendable
    ensures down.Valid()
    ensures
      var text := Encode(c, pad) + body;
      && (sent <==> |text| <= old(down.sendable))
      && down.bytes == text[..Least(|text|, old(down.sendable))]
      && down.sendable == old(down.sendable) - Least(|text|, old(down.sendable))
  {
    ghost var text := Encode(c, pad) + body;
    sent := SendRecord(down, c, pad);
    if sent {
      var w := down.NetWrite(body);
      sent := w >= 0;
    }
  }

  /** What the server reads of the request. */
  method Request(up: Channel, sizes: seq<nat>) returns (asked: bool, opt: Option<seq<nat>>)
    requires up.Valid() && up.bytes == [] && |sizes| <= TRANSOPT_SIZE && Offset(sizes, |sizes|) < 0x8000_0000
    modifies up
    ensures asked <==> TCMD_SIZE <= old(up.sendable)
    ensures opt == if TCMD_SIZE <= old(up.readable) then Some(Padded(sizes)) else None
  {
    SizesSmall(sizes, Offset(sizes, |sizes|));
    var c := Command(GET0, Padded(sizes), 0, Zeros(SCMD_STRSIZ), 0);
    asked := SendRecord(up, c, Zeros(11));
    var got := ReceiveRecord(up, c, Zeros(11));
    opt := if got.None? then None else Some(got.value.opt);
  }

  /** The client's part once the request is out: the record of the reply, then its bytes. */
  method ReceiveReply(down: Channel, data: array<byte>, size: array<nat>, ghost reply: Command,
                      ghost pad: seq<byte>, ghost parts: seq<seq<byte>>, ghost text: seq<byte>,
                      ghost before: seq<byte>, ghost sizes: seq<nat>, ghost readable: nat)
    returns (cc: int)
    requires ValidCommand(reply) && |pad| == 11 && text == ReplyText(reply, pad, parts)
    requires size.Length == |parts| <= |reply.opt| && forall i :: 0 <= i < |parts| ==> reply.opt[i] == |parts[i]|
    requires data[..] == before && size[..] == sizes && Fits(|before|, sizes, parts)
    requires down.readable == readable && down.Valid()
    requires down.bytes <= text && Least(|text|, down.readable) <= |down.bytes|
    modifies down, data, size
    ensures cc == if TCMD_SIZE <= readable then 0 else CMD_EXIT
    ensures cc != 0 ==> data[..] == before && size[..] == sizes
    ensures
      cc == 0 ==> Filled(before, data[..], sizes, size[..], parts, readable - TCMD_SIZE)
  {
    ghost var stream := down.bytes;
    if TCMD_SIZE <= down.readable {
      assert stream[..TCMD_SIZE] == text[..TCMD_SIZE] == Encode(reply, pad);
      assert text[TCMD_SIZE..] == Concat(parts);
    }
    var got := ReceiveRecord(down, reply, pad);
    if got.None? {
      return CMD_EXIT;
    }
    SpreadReply(down, got.value.opt[..size.Length], data, size, parts, stream[TCMD_SIZE..]);
    return 0;
  }

  /** The beginnings of the files the client asks for. */
  function Wanted(files: seq<Option<seq<byte>>>, sizes: seq<nat>): (ps: seq<seq<byte>>)
    requires |sizes| <= |files|
    ensures |ps| == |sizes| && forall i :: 0 <= i < |ps| ==> ps[i] == Head(Content(files[i]), sizes[i])
  {
    Heads(Contents(files[..|sizes|]), sizes)
  }

  /** What the server makes of the padded request is what the client wants. */
  lemma RequestMeans(sizes: seq<nat>, nsize0: nat, files: seq<Option<seq<byte>>>, opt: seq<nat>,
                     parts: seq<seq<byte>>, len: nat)
    requires |sizes| <= nsize0 <= TRANSOPT_SIZE == |files| && opt == Padded(sizes)
    requires parts == Wanted(files, sizes) && Offset(sizes, |sizes|) <= len
    requires forall i :: 0 <= i < |sizes| ==> sizes[i] > 0
    ensures Served(opt, nsize0) == |sizes| && Offset(opt, TRANSOPT_SIZE) <= len
    ensures Heads(Contents(files), opt)[..|sizes|] == parts && Fits(len, sizes, parts)
  {
    OffsetPadded(sizes);
    ServedPadded(sizes, nsize0);
    HeadsPadded(Contents(files), sizes);
    assert Contents(files)[..|sizes|] == Contents(files[..|sizes|]);
  }

  /** The server has the request: it answers, and the client receives the answer. */
  method Answer(opt: seq<nat>, down: Channel, nsize0: nat, files: seq<Option<seq<byte>>>, date: int, str: seq<byte>,
                junk: seq<int>, pad: seq<byte>, data: array<byte>, size: array<nat>,
                ghost before: seq<byte>, ghost sizes: seq<nat>,
                ghost parts: seq<seq<byte>>, ghost readable: nat)
    returns (cc: int, nsize: nat, retired: bool)
    requires down.readable == readable && down.Valid() && down.bytes == []
    requires size.Length <= nsize0 <= TRANSOPT_SIZE == |files| == |junk|
    requires data[..] == before && size[..] == sizes && opt == Padded(sizes) && parts == Wanted(files, sizes)
    requires |pad| == 11 && |str| == SCMD_STRSIZ && Int64(date)
    requires forall i :: 0 <= i < |junk| ==> Int32(junk[i])
    requires forall i :: 0 <= i < |sizes| ==> sizes[i] > 0 && files[i].Some?
    requires Offset(sizes, |sizes|) <= data.Length < 0x8000_0000
    modifies down, data, size
    ensures cc == if readable < TCMD_SIZE then CMD_EXIT else 0
    ensures nsize == size.Length && (retired <==> TCMD_SIZE + |Concat(parts)| <= old(down.sendable))
    ensures cc != 0 ==> data[..] == before && size[..] == sizes
    ensures
      cc == 0 ==> Filled(before, data[..], sizes, size[..], parts, readable - TCMD_SIZE)
  {
    RequestMeans(sizes, nsize0, files, opt, parts, data.Length);
    ghost var reply, text;
    retired, nsize, reply, text := Serve(opt, nsize0, files, date, str, junk, pad, down);
    assert data[..] == before && size[..] == sizes;
    assert |text| == TCMD_SIZE + |Concat(parts)|;
    cc := ReceiveReply(down, data, size, reply, pad, parts, text, before, sizes, readable);
  }

  /**
   GET from the client's request to its filled buffer.  The client reports success (0) exactly if it
   could send its request and the record of the reply arrived; the server retires the entry exactly
   if it got the request and could send the whole reply.  With `r` bytes readable behind the record,
   the buffer holds what arrives of each part.
  */
  method Get(up: Channel, down: Channel, nsize0: nat, files: seq<Option<seq<byte>>>, date: int, str: seq<byte>,
             junk: seq<int>, pad: seq<byte>, data: array<byte>, size: array<nat>)
    returns (cc: int, nsize: nat, retired: bool)
    requires up != down && up.Valid() && down.Valid() && up.bytes == [] && down.bytes == []
    requires up.readable < TCMD_SIZE <= up.sendable ==> down.readable == 0
    requires size.Length <= nsize0 <= TRANSOPT_SIZE == |files| == |junk|
    requires |pad| == 11 && |str| == SCMD_STRSIZ && Int64(date)
    requires forall i :: 0 <= i < |junk| ==> Int32(junk[i])
    requires forall i :: 0 <= i < size.Length ==> size[i] > 0 && files[i].Some?
    requires Offset(size[..], size.Length) <= data.Length < 0x8000_0000
    modifies up, down, data, size
    ensures
      cc == if old(up.sendable) < TCMD_SIZE then -1 else if old(down.readable) < TCMD_SIZE then CMD_EXIT else 0
    ensures nsize == if TCMD_SIZE <= old(up.readable) then size.Length else nsize0
    ensures
      var parts := Wanted(files, old(size[..]));
      retired <==> TCMD_SIZE <= old(up.readable) && TCMD_SIZE + |Concat(parts)| <= old(down.sendable)
    ensures cc != 0 ==> data[..] == old(data[..]) && size[..] == old(size[..])
    ensures
      cc == 0 ==>
        var parts := Wanted(files, old(size[..]));
        Filled(old(data[..]), data[..], old(size[..]), size[..], parts, old(down.readable) - TCMD_SIZE)
  {
    ghost var before, sizes := data[..], size[..];
    ghost var parts := Wanted(files, sizes);
    nsize, retired := nsize0, false;
    var asked, opt := Request(up, size[..]);
    if !asked {
      return -1, nsize, retired;
    }
    if opt.None? {
      return CMD_EXIT, nsize, retired;
    }
    cc, nsize, retired := Answer(opt.value, down, nsize0, files, date, str, junk, pad, data, size, before, sizes,
                                parts, down.readable);
  }

  /**
   If the connection lasts for the whole reply, the buffer holds the beginning of each file, cut to
   its size, at the sum of the earlier sizes, and nothing else has changed.
  */
  lemma WholeReplyIsLaidOut(before: seq<byte>, sizes: seq<nat>, files: seq<seq<byte>>, r: nat)
    requires |files| == |sizes| && Offset(sizes, |sizes|) <= |before| && |Concat(Heads(files, sizes))| <= r
    ensures
      var arriving := Arriving(Heads(files, sizes), r);
      Fits(|before|, sizes, arriving) && LaidOut(before, Spread(before, sizes, arriving, |sizes|), sizes, files)
  {
    ArrivesWhole(Heads(files, sizes), r);
    SpreadIsLaidOut(before, sizes, files);
  }
}
