/**
 What a GET transfers: the server concatenates the beginnings of the files of one entry, and the
 client spreads them over its buffer, each file at the sum of the sizes requested for the files
 before it.  `GetExchange` sends them over a connection.
*/
module GetTransfer {
  import opened Wrappers
  import opened WireFormat

  // ----- Layout of the client's buffer -----

  /** What is read of a file when `size` bytes are asked for. */
  function Head(file: seq<byte>, size: nat): (r: seq<byte>)
    ensures |r| <= size && r <= file && (|r| == size || r == file)
  {
    if |file| <= size then file else file[..size]
  }

  function Heads(files: seq<seq<byte>>, sizes: seq<nat>): (r: seq<seq<byte>>)
    requires |files| == |sizes|
    ensures |r| == |files| && forall i :: 0 <= i < |r| ==> r[i] == Head(files[i], sizes[i])
  {
    seq(|files|, i requires 0 <= i < |files| => Head(files[i], sizes[i]))
  }

  /** The content of a file, or nothing if it cannot be opened. */
  function Content(f: Option<seq<byte>>): seq<byte> {
    if f.Some? then f.value else []
  }

  function Contents(fs: seq<Option<seq<byte>>>): (r: seq<seq<byte>>)
    ensures |r| == |fs| && forall i :: 0 <= i < |r| ==> r[i] == Content(fs[i])
  {
    seq(|fs|, i requires 0 <= i < |fs| => Content(fs[i]))
  }

  /** The sum of the first `i` sizes. */
  function Offset(sizes: seq<nat>, i: nat): nat
    requires i <= |sizes|
  {
    if i == 0 then 0 else Offset(sizes, i - 1) + sizes[i - 1]
  }

  lemma {:induction false} OffsetGrows(sizes: seq<nat>, i: nat, j: nat)
    requires i < j <= |sizes|
    ensures Offset(sizes, i) + sizes[i] <= Offset(sizes, j)
  {
    if i + 1 == j {
    } else {
      OffsetGrows(sizes, i, j - 1);
    }
  }

  /** `data` written over `buf` from position `at` on. */
  function Blit(buf: seq<byte>, at: nat, data: seq<byte>): (r: seq<byte>)
    requires at + |data| <= |buf|
    ensures |r| == |buf|
  {
    buf[..at] + data + buf[at + |data|..]
  }

  /** The parts fit into the places laid out by the sizes, and these into the buffer. */
  ghost predicate Fits(len: nat, sizes: seq<nat>, parts: seq<seq<byte>>) {
    && |parts| <= |sizes| && Offset(sizes, |sizes|) <= len
    && forall i :: 0 <= i < |parts| ==> |parts[i]| <= sizes[i]
  }

  lemma FitsAt(len: nat, sizes: seq<nat>, parts: seq<seq<byte>>, i: nat)
    requires Fits(len, sizes, parts) && i < |parts|
    ensures Offset(sizes, i) + |parts[i]| <= len
  {
    OffsetGrows(sizes, i, |sizes|);
  }

  /** The buffer after the first `k` parts were put in their places. */
  function Spread(buf: seq<byte>, sizes: seq<nat>, parts: seq<seq<byte>>, k: nat): (r: seq<byte>)
    requires Fits(|buf|, sizes, parts) && k <= |parts|
    ensures |r| == |buf|
  {
    if k == 0 then buf
    else
      FitsAt(|buf|, sizes, parts, k - 1);
      Blit(Spread(buf, sizes, parts, k - 1), Offset(sizes, k - 1), parts[k - 1])
  }

  lemma SpreadNext(buf: seq<byte>, sizes: seq<nat>, parts: seq<seq<byte>>, k: nat)
    requires Fits(|buf|, sizes, parts) && k < |parts|
    ensures Offset(sizes, k) + |parts[k]| <= |buf|
    ensures Spread(buf, sizes, parts, k + 1) == Blit(Spread(buf, sizes, parts, k), Offset(sizes, k), parts[k])
    ensures Offset(sizes, k + 1) == Offset(sizes, k) + sizes[k]
  {
    FitsAt(|buf|, sizes, parts, k);
  }

  /** `part` is found at position `at`. */
  predicate PartAt(buf: seq<byte>, at: nat, part: seq<byte>) {
    at + |part| <= |buf| && buf[at..at + |part|] == part
  }

  /** Each part is at the sum of the earlier sizes. */
  lemma {:induction false} SpreadHolds(buf: seq<byte>, sizes: seq<nat>, parts: seq<seq<byte>>, k: nat, i: nat)
    requires Fits(|buf|, sizes, parts) && i < k <= |parts|
    ensures PartAt(Spread(buf, sizes, parts, k), Offset(sizes, i), parts[i])
  {
    FitsAt(|buf|, sizes, parts, i);
    FitsAt(|buf|, sizes, parts, k - 1);
    if i == k - 1 {
    } else {
      SpreadHolds(buf, sizes, parts, k - 1, i);
      OffsetGrows(sizes, i, k - 1);
      var was := Spread(buf, sizes, parts, k - 1);
      var o, n := Offset(sizes, i), |parts[i]|;
      assert Blit(was, Offset(sizes, k - 1), parts[k - 1])[o..o + n] == was[o..o + n];
    }
  }

  /** Position p belongs to part i. */
  predicate Covers(sizes: seq<nat>, parts: seq<seq<byte>>, i: nat, p: nat)
    requires i < |parts| <= |sizes|
  {
    Offset(sizes, i) <= p < Offset(sizes, i) + |parts[i]|
  }

  /** A position outside all parts. */
  ghost predicate Outside(sizes: seq<nat>, parts: seq<seq<byte>>, k: nat, p: nat)
    requires k <= |parts| <= |sizes|
  {
    forall i :: 0 <= i < k ==> !Covers(sizes, parts, i, p)
  }

  lemma BlitKeeps(buf: seq<byte>, at: nat, data: seq<byte>, p: nat)
    requires at + |data| <= |buf| && p < |buf| && !(at <= p < at + |data|)
    ensures Blit(buf, at, data)[p] == buf[p]
  {
  }

  /** All other bytes keep their value. */
  lemma {:induction false} SpreadKeeps(buf: seq<byte>, sizes: seq<nat>, parts: seq<seq<byte>>, k: nat, p: nat)
    requires Fits(|buf|, sizes, parts) && k <= |parts| && p < |buf| && Outside(sizes, parts, k, p)
    ensures Spread(buf, sizes, parts, k)[p] == buf[p]
  {
    if k == 0 {
    } else {
      FitsAt(|buf|, sizes, parts, k - 1);
      assert !Covers(sizes, parts, k - 1, p);
      SpreadKeeps(buf, sizes, parts, k - 1, p);
      BlitKeeps(Spread(buf, sizes, parts, k - 1), Offset(sizes, k - 1), parts[k - 1], p);
    }
  }

  // ----- Server -----

  /** The number of files a GET is answered with: up to the first zero among the sizes. */
  function Served(opt: seq<nat>, nsize: nat): (r: nat)
    requires nsize <= |opt|
    ensures r <= nsize && (forall j :: 0 <= j < r ==> opt[j] != 0) && (r < nsize ==> opt[r] == 0)
  {
    if nsize == 0 then 0
    else
      var r := Served(opt, nsize - 1);
      if r < nsize - 1 || opt[nsize - 1] == 0 then r else nsize
  }

  function Concat(parts: seq<seq<byte>>): seq<byte> {
    if parts == [] then [] else Concat(parts[..|parts| - 1]) + parts[|parts| - 1]
  }

  /** How many files take part, and the space they may need. */
  method CountServed(opt: seq<nat>, nsize0: nat) returns (nsize: nat, totsz: nat)
    requires nsize0 <= |opt|
    ensures nsize == Served(opt, nsize0) && totsz == Offset(opt, nsize)
  {
    nsize := nsize0;
    totsz := 0;
    var i := 0;
    while i < nsize
      invariant 0 <= i <= nsize == nsize0 && totsz == Offset(opt, i)
      invariant forall j :: 0 <= j < i ==> opt[j] != 0
    {
      if opt[i] == 0 {
        nsize := i;
        break;
      }
      totsz := totsz + opt[i];
      i := i + 1;
    }
    ServedIs(opt, nsize0, nsize);
  }

  /** The beginning of one more file behind what is there. */
  method AppendFile(file: seq<byte>, size: nat, cp: array<byte>, totsz: nat) returns (sz: nat)
    requires totsz + size <= cp.Length
    modifies cp
    ensures sz == |Head(file, size)| && cp[..totsz + sz] == old(cp[..totsz]) + Head(file, size)
  {
    ghost var was := cp[..];
    sz := ReadFile(file, cp, totsz, size);
    BlitPrefix(was, totsz, Head(file, size));
    assert was[..totsz] == old(cp[..totsz]) && cp[..totsz + sz] == cp[..][..totsz + sz];
  }

  /** One file: if it can be opened, its beginning is appended and its length recorded. */
  method OneFile(file: Option<seq<byte>>, size: nat, cp: array<byte>, totsz: nat, retval: array<int>, i: nat)
    returns (next: nat)
    requires totsz + size <= cp.Length && i < retval.Length
    modifies cp, retval
    ensures next == totsz + |Head(Content(file), size)| <= totsz + size
    ensures cp[..next] == old(cp[..totsz]) + Head(Content(file), size)
    ensures retval[..] == if file.Some? then old(retval[..])[i := |Head(file.value, size)|] else old(retval[..])
  {
    next := totsz;
    if file.Some? {
      var sz := AppendFile(file.value, size, cp, totsz);
      retval[i] := sz;
      next := totsz + sz;
    }
  }

  /** The first `i` counts are those of the parts, except where a file cannot be opened. */
  ghost predicate Recorded(now: seq<int>, was: seq<int>, files: seq<Option<seq<byte>>>, parts: seq<seq<byte>>, i: nat)
  {
    && |now| == |was| == |files| == |parts|
    && forall j :: 0 <= j < |now| ==> now[j] == if j < i && files[j].Some? then |parts[j]| else was[j]
  }

  /** The beginnings of the files, one after the other; a file that cannot be opened is passed over. */
  method FillReply(opt: seq<nat>, nsize: nat, files: seq<Option<seq<byte>>>, cp: array<byte>, retval: array<int>)
    returns (totsz: nat)
    requires nsize <= |opt| == |files| == retval.Length && cp.Length == Offset(opt, nsize)
    modifies cp, retval
    ensures totsz <= cp.Length && cp[..totsz] == Concat(Heads(Contents(files), opt)[..nsize])
    ensures Recorded(retval[..], old(retval[..]), files, Heads(Contents(files), opt), nsize)
  {
    totsz := 0;
    ghost var parts, was := Heads(Contents(files), opt), retval[..];
    assert parts[..0] == [];
    ghost var text := [];
    for i := 0 to nsize
      invariant totsz <= Offset(opt, i)
      invariant totsz <= cp.Length && cp[..totsz] == text
      invariant text == Concat(parts[..i])
      invariant Recorded(retval[..], was, files, parts, i)
    {
      OffsetGrows(opt, i, nsize);
      totsz := OneFile(files[i], opt[i], cp, totsz, retval, i);
      text := text + Head(Content(files[i]), opt[i]);
      ConcatNext(parts, i);
    }
  }

  lemma BlitPrefix(buf: seq<byte>, at: nat, data: seq<byte>)
    requires at + |data| <= |buf|
    ensures Blit(buf, at, data)[..at + |data|] == buf[..at] + data
  {
  }

  lemma ConcatNext(parts: seq<seq<byte>>, i: nat)
    requires i < |parts|
    ensures Concat(parts[..i + 1]) == Concat(parts[..i]) + parts[i]
  {
    assert parts[..i + 1][..i] == parts[..i];
  }

  /**
   The reply to a GET: how many files take part from now on, the beginnings of these files one
   after the other, and how many bytes each contributes.  Columns that do not take part, or whose
   file cannot be opened, keep what was in `retval` before.
  */
  method BuildReply(opt: seq<nat>, nsize0: nat, files: seq<Option<seq<byte>>>, retval: array<int>)
    returns (nsize: nat, cp: array<byte>, totsz: nat)
    requires nsize0 <= |opt| == |files| == retval.Length
    modifies retval
    ensures nsize == Served(opt, nsize0)
    ensures fresh(cp) && totsz <= cp.Length && cp[..totsz] == Concat(Heads(Contents(files), opt)[..nsize])
    ensures Recorded(retval[..], old(retval[..]), files, Heads(Contents(files), opt), nsize)
  {
    nsize, totsz := CountServed(opt, nsize0);
    cp := new byte[totsz](_ => 0);
    totsz := FillReply(opt, nsize, files, cp, retval);
  }

  lemma {:induction false} ServedIs(opt: seq<nat>, nsize: nat, k: nat)
    requires k <= nsize <= |opt| && (forall j :: 0 <= j < k ==> opt[j] != 0) && (k < nsize ==> opt[k] == 0)
    ensures Served(opt, nsize) == k
  {
  }

  /** Reading the beginning of a file into a buffer. */
  method ReadFile(file: seq<byte>, buf: array<byte>, at: nat, size: nat) returns (sz: nat)
    requires at + size <= buf.Length
    modifies buf
    ensures sz == |Head(file, size)|
    ensures buf[..] == Blit(old(buf[..]), at, Head(file, size))
  {
    sz := if |file| <= size then |file| else size;
    for i := 0 to sz
      invariant forall p :: 0 <= p < buf.Length ==>
                              buf[p] == if at <= p < at + i then file[p - at] else old(buf[p])
    {
      buf[at + i] := file[i];
    }
    assert buf[..] == Blit(old(buf[..]), at, Head(file, size));
  }

  // ----- Client -----

  /** What follows after the first parts of a concatenation. */
  lemma {:induction false} ConcatDrop(parts: seq<seq<byte>>, i: nat, k: nat)
    requires i < k <= |parts|
    ensures |Concat(parts[..i])| + |parts[i]| <= |Concat(parts[..k])|
    ensures
      var o := |Concat(parts[..i])|;
      Concat(parts[..k])[o..o + |parts[i]|] == parts[i]
  {
    ConcatNext(parts, k - 1);
    if i == k - 1 {
    } else {
      ConcatDrop(parts, i, k - 1);
      var o := |Concat(parts[..i])|;
      assert Concat(parts[..k])[o..o + |parts[i]|] == Concat(parts[..k - 1])[o..o + |parts[i]|];
    }
  }

  /** The first `i` sizes were replaced by the number of bytes read. */
  ghost predicate Counted(now: seq<nat>, asked: seq<nat>, parts: seq<seq<byte>>, i: nat) {
    && i <= |parts| <= |asked| == |now|
    && forall j :: 0 <= j < |now| ==> now[j] == if j < i then |parts[j]| else asked[j]
  }

  /** The requested sizes as they travel: columns the client does not ask for are zero. */
  function Padded(sizes: seq<nat>): (r: seq<nat>)
    requires |sizes| <= TRANSOPT_SIZE
    ensures |r| == TRANSOPT_SIZE && sizes <= r
  {
    sizes + seq(TRANSOPT_SIZE - |sizes|, i => 0)
  }

  function Zeros(n: nat): (r: seq<byte>)
    ensures |r| == n
  {
    seq(n, i => 0)
  }

  /** With all wanted sizes positive, exactly the wanted files take part. */
  lemma {:induction false} ServedPadded(sizes: seq<nat>, nsize: nat)
    requires |sizes| <= nsize <= TRANSOPT_SIZE && forall i :: 0 <= i < |sizes| ==> sizes[i] > 0
    ensures Served(Padded(sizes), nsize) == |sizes|
  {
    ServedIs(Padded(sizes), nsize, |sizes|);
  }

  /** The first parts of a reply do not depend on the columns that are not asked for. */
  lemma HeadsPadded(files: seq<seq<byte>>, sizes: seq<nat>)
    requires |files| == TRANSOPT_SIZE >= |sizes|
    ensures Heads(files, Padded(sizes))[..|sizes|] == Heads(files[..|sizes|], sizes)
    ensures forall i :: 0 <= i < |sizes| ==>
                          Heads(files, Padded(sizes))[i] == Heads(files[..|sizes|], sizes)[i]
  {
  }

  /** The beginning of file i is at the sum of the sizes requested before it. */
  predicate Placed(buf: seq<byte>, sizes: seq<nat>, files: seq<seq<byte>>, i: nat)
    requires i < |files| == |sizes|
  {
    PartAt(buf, Offset(sizes, i), Head(files[i], sizes[i]))
  }

  /**
   The buffer `after` holds the beginning of each file, cut to the requested size, at the sum of
   the sizes requested before it; all other bytes are those of `before`.
  */
  ghost predicate LaidOut(before: seq<byte>, after: seq<byte>, sizes: seq<nat>, files: seq<seq<byte>>) {
    && |before| == |after| && |sizes| == |files|
    && (forall i :: 0 <= i < |files| ==> Placed(after, sizes, files, i))
    && (forall p :: 0 <= p < |after| && Outside(sizes, Heads(files, sizes), |files|, p) ==> after[p] == before[p])
  }

  lemma {:induction false} OffsetTotal(sizes: seq<nat>, k: nat)
    requires k <= |sizes|
    ensures Offset(sizes, k) <= Offset(sizes, |sizes|)
  {
    if k < |sizes| {
      OffsetGrows(sizes, k, |sizes|);
    }
  }

  lemma {:induction false} OffsetSame(s: seq<nat>, t: seq<nat>, k: nat)
    requires k <= |s| && k <= |t| && s[..k] == t[..k]
    ensures Offset(s, k) == Offset(t, k)
  {
    if k == 0 {
    } else {
      assert s[..k][..k - 1] == s[..k - 1] && t[..k][..k - 1] == t[..k - 1] && s[..k][k - 1] == t[..k][k - 1];
      OffsetSame(s, t, k - 1);
    }
  }

  lemma OffsetPadded(sizes: seq<nat>)
    requires |sizes| <= TRANSOPT_SIZE
    ensures Offset(Padded(sizes), TRANSOPT_SIZE) == Offset(sizes, |sizes|)
  {
    var p := Padded(sizes);
    OffsetSame(sizes, p, |sizes|);
    for i := |sizes| to TRANSOPT_SIZE
      invariant Offset(p, i) == Offset(sizes, |sizes|)
    {
    }
  }

  lemma {:induction false} SizesSmall(sizes: seq<nat>, len: nat)
    requires Offset(sizes, |sizes|) <= len < 0x8000_0000
    ensures forall i :: 0 <= i < |sizes| ==> Int32(sizes[i])
  {
    forall i | 0 <= i < |sizes|
      ensures Int32(sizes[i])
    {
      OffsetGrows(sizes, i, |sizes|);
    }
  }

  lemma {:induction false} ReplySmall(parts: seq<seq<byte>>, sizes: seq<nat>, k: nat)
    requires k <= |parts| <= |sizes| && forall i :: 0 <= i < |parts| ==> |parts[i]| <= sizes[i]
    ensures |Concat(parts[..k])| <= Offset(sizes, k)
  {
    if k == 0 {
    } else {
      ReplySmall(parts, sizes, k - 1);
      ConcatNext(parts, k - 1);
    }
  }

  /** What spreading all parts means byte by byte. */
  lemma SpreadIsLaidOut(buf: seq<byte>, sizes: seq<nat>, files: seq<seq<byte>>)
    requires |files| == |sizes| && Offset(sizes, |sizes|) <= |buf|
    ensures LaidOut(buf, Spread(buf, sizes, Heads(files, sizes), |sizes|), sizes, files)
  {
    var parts := Heads(files, sizes);
    var after := Spread(buf, sizes, parts, |parts|);
    forall i | 0 <= i < |files|
      ensures Placed(after, sizes, files, i)
    {
      SpreadHolds(buf, sizes, parts, |parts|, i);
    }
    forall p | 0 <= p < |buf| && Outside(sizes, parts, |parts|, p)
      ensures after[p] == buf[p]
    {
      SpreadKeeps(buf, sizes, parts, |parts|, p);
    }
  }
}
