/**
 The client library on a shared file system and on a cluster: reading the files of a published
 set into one buffer, and handing that buffer from the root process to all others.
*/
module JitClient {
  import opened Wrappers
  import opened WireFormat
  import opened GetTransfer

  /**
   Reading the files that were named in the lock file; the list may be shorter than what the
   caller asks for, and a file that cannot be opened counts as empty.
  */
  method LocalGet(files: seq<Option<seq<byte>>>, data: array<byte>, bsize: array<nat>)
    requires Offset(bsize[..], bsize.Length) <= data.Length
    modifies data, bsize
    ensures
      var k := if |files| < bsize.Length then |files| else bsize.Length;
      && LaidOut(old(data[..]), data[..], old(bsize[..])[..k], Contents(files[..k]))
      && (forall i :: 0 <= i < k ==> bsize[i] == |Head(Content(files[i]), old(bsize[i]))|)
      && (forall i :: k <= i < bsize.Length ==> bsize[i] == old(bsize[i]))
  {
    ghost var k := if |files| < bsize.Length then |files| else bsize.Length;
    ghost var sizes, contents := bsize[..][..k], Contents(files[..k]);
    LocalFits(bsize[..], k);
    ReadAll(files, data, bsize, sizes, Heads(contents, sizes));
    SpreadIsLaidOut(old(data[..]), sizes, contents);
    assert forall i :: 0 <= i < bsize.Length ==> bsize[i] == bsize[..][i];
  }

  /** The loop over the named files; `parts` is what will be read of each. */
  method ReadAll(files: seq<Option<seq<byte>>>, data: array<byte>, bsize: array<nat>,
                 ghost sizes: seq<nat>, ghost parts: seq<seq<byte>>)
    requires |sizes| == |parts| == if |files| < bsize.Length then |files| else bsize.Length
    requires sizes <= bsize[..]
    requires forall i :: 0 <= i < |sizes| ==> parts[i] == Head(Content(files[i]), sizes[i])
    requires Offset(sizes, |sizes|) <= data.Length
    modifies data, bsize
    ensures Fits(data.Length, sizes, parts)
    ensures data[..] == Spread(old(data[..]), sizes, parts, |sizes|)
    ensures Counted(bsize[..], old(bsize[..]), parts, |sizes|)
  {
    ghost var orig, asked := data[..], bsize[..];
    var ptr, i := 0, 0;
    while i < bsize.Length
      invariant i <= |sizes| && ptr == Offset(sizes, i)
      invariant data[..] == Spread(orig, sizes, parts, i)
      invariant Counted(bsize[..], asked, parts, i)
    {
      if i >= |files| {
        break;
      }
      assert parts[i] == Head(Content(files[i]), sizes[i]);
      ptr := ReadOne(files[i], data, bsize, i, ptr, orig, sizes, parts, asked);
      i := i + 1;
    }
    assert i == |sizes|;
  }

  /** File i goes to its place; the result is the place of the next one. */
  method ReadOne(file: Option<seq<byte>>, data: array<byte>, bsize: array<nat>, i: nat, ptr: nat,
                 ghost orig: seq<byte>, ghost sizes: seq<nat>, ghost parts: seq<seq<byte>>, ghost asked: seq<nat>)
    returns (next: nat)
    requires i < |parts| == |sizes| && parts[i] == Head(Content(file), sizes[i]) && ptr == Offset(sizes, i)
    requires Fits(|orig|, sizes, parts) && data[..] == Spread(orig, sizes, parts, i)
    requires sizes <= asked && Counted(bsize[..], asked, parts, i)
    modifies data, bsize
    ensures next == Offset(sizes, i + 1)
    ensures data[..] == Spread(orig, sizes, parts, i + 1)
    ensures Counted(bsize[..], asked, parts, i + 1)
  {
    OffsetGrows(sizes, i, |sizes|);
    SpreadNext(orig, sizes, parts, i);
    assert bsize[i] == bsize[..][i] == asked[i] == sizes[i];
    var sz := LocalRead(file, data, ptr, bsize[i]);
    next := ptr + bsize[i];
    bsize[i] := sz;
  }

  lemma LocalFits(sizes: seq<nat>, k: nat)
    requires k <= |sizes|
    ensures Offset(sizes[..k], k) <= Offset(sizes, |sizes|)
  {
    OffsetSame(sizes, sizes[..k], k);
    OffsetTotal(sizes, k);
  }

  /** One file; if it cannot be opened nothing is read. */
  method LocalRead(file: Option<seq<byte>>, data: array<byte>, at: nat, size: nat) returns (sz: nat)
    requires at + size <= data.Length
    modifies data
    ensures sz == |Head(Content(file), size)|
    ensures data[..] == Blit(old(data[..]), at, Head(Content(file), size))
  {
    if file.None? {
      return 0;
    }
    sz := ReadFile(file.value, data, at, size);
  }

  // ----- Broadcast -----

  /** Where the broadcast loop stands before entry i: sizes of entries without data are not counted. */
  function CastOffset(bsize: seq<nat>, rsize: seq<int>, i: nat): nat
    requires i <= |bsize| == |rsize|
  {
    if i == 0 then 0
    else CastOffset(bsize, rsize, i - 1) + if rsize[i - 1] > 0 then bsize[i - 1] else 0
  }

  /** Entries without data that do take up space come last. */
  ghost predicate Packed(bsize: seq<nat>, rsize: seq<int>)
    requires |bsize| == |rsize|
  {
    forall i, j :: 0 <= i < j < |bsize| && rsize[i] <= 0 && rsize[j] > 0 ==> bsize[i] == 0
  }

  lemma {:induction false} CastOffsetBound(bsize: seq<nat>, rsize: seq<int>, k: nat)
    requires k <= |bsize| == |rsize|
    ensures CastOffset(bsize, rsize, k) <= Offset(bsize, k)
    ensures CastOffset(bsize, rsize, k) == Offset(bsize, k)
            <==> forall i :: 0 <= i < k && rsize[i] <= 0 ==> bsize[i] == 0
  {
    if k == 0 {
    } else {
      CastOffsetBound(bsize, rsize, k - 1);
    }
  }

  /**
   The broadcast loop computes its own offsets.  They are the ones under which the root stored
   the data exactly if no entry without data lies, with its space, before an entry with data.
  */
  lemma CastOffsetsRight(bsize: seq<nat>, rsize: seq<int>)
    requires |bsize| == |rsize|
    ensures (forall j :: 0 <= j < |rsize| ==> CastRight(bsize, rsize, j)) <==> Packed(bsize, rsize)
  {
    forall j | 0 <= j < |rsize|
      ensures CastRight(bsize, rsize, j)
              <==> (rsize[j] > 0 ==> forall i :: 0 <= i < j && rsize[i] <= 0 ==> bsize[i] == 0)
    {
      CastOffsetBound(bsize, rsize, j);
    }
  }

  /** Entry j is broadcast from where the root stored it, if it has data. */
  predicate CastRight(bsize: seq<nat>, rsize: seq<int>, j: nat)
    requires j < |bsize| == |rsize|
  {
    rsize[j] > 0 ==> CastOffset(bsize, rsize, j) == Offset(bsize, j)
  }

  lemma CastFits(bsize: seq<nat>, rsize: seq<int>, i: nat, len: nat)
    requires i < |bsize| == |rsize| && Offset(bsize, |bsize|) <= len && rsize[i] <= bsize[i]
    ensures CastOffset(bsize, rsize, i) + rsize[i] <= len
  {
    CastOffsetBound(bsize, rsize, i);
    OffsetGrows(bsize, i, |bsize|);
  }

  /** `n` bytes from `at` on are those of the root. */
  predicate SamePart(data: seq<byte>, root: seq<byte>, at: nat, n: nat) {
    at + n <= |data| == |root| && data[at..at + n] == root[at..at + n]
  }

  /** Entry i, if it has data, is the root's at the loop's own offset. */
  predicate Received(data: seq<byte>, root: seq<byte>, sizes: seq<nat>, rsize: seq<int>, i: nat)
    requires i < |sizes| == |rsize|
  {
    rsize[i] > 0 ==> SamePart(data, root, CastOffset(sizes, rsize, i), rsize[i])
  }

  /** Copying more from the root does not spoil what is equal already. */
  lemma SameStays(was: seq<byte>, now: seq<byte>, root: seq<byte>, at: nat, n: nat)
    requires SamePart(was, root, at, n) && |now| == |root|
    requires forall p :: 0 <= p < |now| ==> now[p] == root[p] || now[p] == was[p]
    ensures SamePart(now, root, at, n)
  {
    forall p | at <= p < at + n
      ensures now[p] == root[p]
    {
      assert was[p] == was[at..at + n][p - at] && root[p] == root[at..at + n][p - at];
    }
  }

  /**
   One process that is not the root receives the broadcast of the root's buffer `root` with the
   counts `rsize`: it copies, for each entry with data, the bytes at the loop's own offset.
  */
  method Broadcast(root: seq<byte>, rsize: seq<int>, data: array<byte>, bsize: array<nat>)
    requires bsize.Length == |rsize| && data.Length == |root|
    requires Offset(bsize[..], bsize.Length) <= |root|
    requires forall i :: 0 <= i < |rsize| ==> rsize[i] <= bsize[i]
    modifies data, bsize
    ensures forall i :: 0 <= i < |rsize| ==> Received(data[..], root, old(bsize[..]), rsize, i)
    ensures forall i :: 0 <= i < |rsize| ==> bsize[i] == if rsize[i] > 0 then rsize[i] else old(bsize[i])
  {
    ghost var sizes := bsize[..];
    var ptr := 0;
    for i := 0 to |rsize|
      invariant ptr == CastOffset(sizes, rsize, i)
      invariant forall j :: 0 <= j < i ==> bsize[j] == if rsize[j] > 0 then rsize[j] else sizes[j]
      invariant forall j :: i <= j < |rsize| ==> bsize[j] == sizes[j]
      invariant forall j :: 0 <= j < i ==> Received(data[..], root, sizes, rsize, j)
    {
      if rsize[i] > 0 {
        CastFits(sizes, rsize, i, |root|);
        ghost var was := data[..];
        CopyIn(root, data, ptr, rsize[i]);
        forall j | 0 <= j < i
          ensures Received(data[..], root, sizes, rsize, j)
        {
          assert Received(was, root, sizes, rsize, j);
          if rsize[j] > 0 {
            SameStays(was, data[..], root, CastOffset(sizes, rsize, j), rsize[j]);
          }
        }
        ptr := ptr + bsize[i];
        bsize[i] := rsize[i];
      }
    }
  }

  /** One message of the broadcast. */
  method CopyIn(root: seq<byte>, data: array<byte>, at: nat, n: nat)
    requires data.Length == |root| && at + n <= |root|
    modifies data
    ensures forall p :: 0 <= p < data.Length ==> data[p] == if at <= p < at + n then root[p] else old(data[p])
    ensures SamePart(data[..], root, at, n)
  {
    for i := 0 to n
      invariant forall p :: 0 <= p < data.Length ==> data[p] == if at <= p < at + i then root[p] else old(data[p])
    {
      data[at + i] := root[at + i];
    }
  }

  /**
   If no file without data takes up space before one with data, all processes see each file where
   the root put it.
  */
  lemma SameLayoutEverywhere(before: seq<byte>, root: seq<byte>, sizes: seq<nat>, files: seq<seq<byte>>,
                             rsize: seq<int>, data: seq<byte>)
    requires LaidOut(before, root, sizes, files) && |rsize| == |sizes| && |data| == |root|
    requires forall i :: 0 <= i < |sizes| ==> rsize[i] == |Head(files[i], sizes[i])|
    requires Packed(sizes, rsize)
    requires forall i :: 0 <= i < |rsize| ==> Received(data, root, sizes, rsize, i)
    ensures forall i :: 0 <= i < |sizes| ==> Placed(data, sizes, files, i)
  {
    CastOffsetsRight(sizes, rsize);
    forall i | 0 <= i < |sizes|
      ensures Placed(data, sizes, files, i)
    {
      assert Placed(root, sizes, files, i) && Received(data, root, sizes, rsize, i) && CastRight(sizes, rsize, i);
    }
  }

  /** An empty first file shifts the second one: the loop looks for it at 0 instead of at 1. */
  lemma EmptyFileShifts()
    ensures CastOffset([1, 1], [0, 1], 1) == 0 && Offset([1, 1], 1) == 1
  {
    assert CastOffset([1, 1], [0, 1], 0) == 0 && Offset([1, 1], 0) == 0;
  }
}
