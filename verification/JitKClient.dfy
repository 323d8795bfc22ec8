/**
 The reader on a shared file system: it takes the lock file that is due, cuts the published names
 apart, reads the files into the caller's buffer, zeroes the lock file and turns to the other one.
*/
module JitKClient {
  import opened Wrappers
  import opened WireFormat
  import opened GetTransfer
  import opened JitClient
  import opened LockFile

  /** The file of this name, if it can be opened. */
  function Opened(disk: map<string, seq<byte>>, name: string): Option<seq<byte>> {
    if name in disk then Some(disk[name]) else None
  }

  function OpenedAll(disk: map<string, seq<byte>>, names: seq<string>): (r: seq<Option<seq<byte>>>)
    ensures |r| == |names| && forall i :: 0 <= i < |r| ==> r[i] == Opened(disk, names[i])
  {
    seq(|names|, i requires 0 <= i < |names| => Opened(disk, names[i]))
  }

  /** What a reader gets who asks for as many files as there are sizes. */
  ghost predicate Obtained(before: seq<byte>, after: seq<byte>, asked: seq<nat>, got: seq<nat>,
                           disk: map<string, seq<byte>>, names: seq<string>)
    requires |asked| == |got|
  {
    var k := if |names| < |asked| then |names| else |asked|;
    var files := Contents(OpenedAll(disk, names)[..k]);
    && LaidOut(before, after, asked[..k], files)
    && forall i :: 0 <= i < |got| ==> got[i] == if i < k then |Head(files[i], asked[i])| else asked[i]
  }

  /** The first `ent` names with a separator between them. */
  function NameList(names: seq<string>, ent: nat): string {
    var all := Join(if |names| < ent then names else names[..ent]);
    if all == "" then "" else all[..|all| - 1]
  }

  /** The names in the list are the first ones, and nothing else is in it. */
  lemma NameListIs(names: seq<string>, ent: nat)
    requires forall n :: n in names ==> OnePiece(n)
    ensures Lists(NameList(names, ent), if |names| < ent then names else names[..ent])
  {
    JoinLists(if |names| < ent then names else names[..ent]);
  }

  /** The names a reader makes of a lock file have no separators in them. */
  lemma FetchedNames(buf: seq<char>, content: seq<char>)
    requires |buf| == PATH_MAX + 1 && Fetched(buf, content).Some?
    ensures forall n :: n in Fetched(buf, content).value ==> OnePiece(n)
  {
    var line := FirstLine(Filled(buf, content));
    var n := if |content| <= PATH_MAX then |content| else PATH_MAX;
    PiecesExactly(if n < |line| then line[..n] else line, FTYPE_NUM);
  }

  class Reader {
    const client: Client
    const locks: array<LockFile>
    var tick: nat  // the lock file that is due

    ghost predicate Valid()
      reads this, client, client.fpath, locks
    {
      client.Valid() && locks.Length == 2 && tick < 2 && locks[0] != locks[1]
    }

    constructor (first: LockFile, second: LockFile)
      requires first != second
      ensures Valid() && tick == 0 && locks[0] == first && locks[1] == second
      ensures fresh(locks) && fresh(client.fpath) && FirstLine(client.fpath[..]) == ""
    {
      client := new Client();
      var fs := new LockFile[2](_ => first);
      fs[1] := second;
      locks := fs;
      tick := 0;
    }

    /** The published files by name. */
    method OpenFiles(disk: map<string, seq<byte>>, starts: seq<nat>) returns (files: seq<Option<seq<byte>>>)
      requires Valid() && forall i :: 0 <= i < |starts| ==> starts[i] < client.fpath.Length
      ensures files == OpenedAll(disk, Strings(client.fpath[..], starts))
    {
      files := [];
      for i := 0 to |starts|
        invariant |files| == i
        invariant forall j :: 0 <= j < i ==> files[j] == Opened(disk, Strings(client.fpath[..], starts)[j])
      {
        var name := CStr(client.fpath[..], starts[i]);
        files := files + [Opened(disk, name)];
      }
    }

    /** The names of the files that are read, for the caller. */
    method ListNames(starts: seq<nat>, ent: nat) returns (fname: string)
      requires Valid() && forall i :: 0 <= i < |starts| ==> starts[i] < client.fpath.Length
      ensures fname == NameList(Strings(client.fpath[..], starts), ent)
    {
      fname := "";
      ghost var names := Strings(client.fpath[..], starts);
      var i := 0;
      while i < ent && i < |starts|
        invariant i <= |starts| && i <= ent && fname == Join(names[..i])
      {
        JoinMore(names[..i], names[i]);
        assert names[..i + 1] == names[..i] + [names[i]];
        fname := fname + CStr(client.fpath[..], starts[i]) + [SEPARATOR];
        i := i + 1;
      }
      assert names[..i] == if |names| < ent then names else names[..ent];
      if fname != "" {
        fname := fname[..|fname| - 1];
      }
    }

    /**
     _jitget.  It fails, and leaves the lock file as it is, exactly if the file reads as empty;
     otherwise the published files are in the buffer and the lock file is zeroed.
    */
    method JitGet(disk: map<string, seq<byte>>, data: array<byte>, bsize: array<nat>) returns (ok: bool, fname: string)
      requires Valid() && Offset(bsize[..], bsize.Length) <= data.Length
      modifies this`tick, client.fpath, locks[tick], data, bsize
      ensures Valid() && tick == 1 - old(tick)
      ensures ok <==> Fetched(old(client.fpath[..]), old(locks[tick].content)).Some?
      ensures
        !ok ==>
          && locks[old(tick)].content == old(locks[tick].content)
          && data[..] == old(data[..]) && bsize[..] == old(bsize[..])
      ensures
        ok ==>
          && locks[old(tick)].content == Overwrite(old(locks[tick].content), [NUL, NUL, NUL, NUL])
          && Obtained(old(data[..]), data[..], old(bsize[..]), bsize[..], disk,
                      Fetched(old(client.fpath[..]), old(locks[tick].content)).value)
          && fname == NameList(Fetched(old(client.fpath[..]), old(locks[tick].content)).value, bsize.Length)
          && var names := Fetched(old(client.fpath[..]), old(locks[tick].content)).value;
          Lists(fname, if |names| < bsize.Length then names else names[..bsize.Length])
    {
      var lock := locks[tick];
      ghost var buf := client.fpath[..];
      tick := 1 - tick;
      var starts := client.Fetch(lock.content);
      if starts.None? {
        return false, "";
      }
      var files := OpenFiles(disk, starts.value);
      fname := ListNames(starts.value, bsize.Length);
      FetchedNames(buf, lock.content);
      NameListIs(Fetched(buf, lock.content).value, bsize.Length);
      LocalGet(files, data, bsize);
      ghost var was := lock.content;
      lock.Nullify();
      OverwriteIs(was, [NUL, NUL, NUL, NUL], lock.content);
      ok := true;
    }
  }
}
