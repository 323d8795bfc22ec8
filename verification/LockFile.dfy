/**
 The text inside a lock file: the names of one file set, joined with semicolons and ended by a
 NUL character.  The writer overwrites from the start without truncating, a reader copies the
 file into a buffer it keeps, cuts the names apart in place and finally zeroes the file.
*/
module LockFile {
  import opened Wrappers

  const PATH_MAX: nat := 4096
  const FTYPE_NUM: nat := 3
  const NUL: char := '\0'
  const SEPARATOR: char := ';'

  /** The C string that starts at position `p`. */
  function CStr(a: seq<char>, p: nat): (s: string)
    requires p <= |a|
    ensures p + |s| <= |a|
    decreases |a| - p
  {
    if p == |a| || a[p] == NUL then "" else [a[p]] + CStr(a, p + 1)
  }

  /** It is the text up to the first NUL. */
  lemma {:induction false} CStrText(a: seq<char>, p: nat)
    requires p <= |a|
    ensures
      var s := CStr(a, p);
      && s == a[p..p + |s|] && NUL !in s
      && (p + |s| == |a| || a[p + |s|] == NUL)
    decreases |a| - p
  {
    if p == |a| || a[p] == NUL {
    } else {
      CStrText(a, p + 1);
    }
  }

  /** Position of the first `c` in `s`. */
  function IndexOf(s: string, c: char): (r: Option<nat>)
    ensures r.Some? ==> r.value < |s| && s[r.value] == c && c !in s[..r.value]
    ensures r.None? ==> c !in s
  {
    if s == "" then None
    else if s[0] == c then Some(0)
    else match IndexOf(s[1..], c)
      case None => None
      case Some(i) => Some(i + 1)
  }

  /** The names of a set, each followed by a separator. */
  function Join(names: seq<string>): string {
    if names == [] then "" else names[0] + [SEPARATOR] + Join(names[1..])
  }

  lemma {:induction false} JoinMore(names: seq<string>, name: string)
    ensures Join(names + [name]) == Join(names) + name + [SEPARATOR]
  {
    if names == [] {
      assert [name][1..] == [] && names + [name] == [name];
    } else {
      JoinMore(names[1..], name);
      assert (names + [name])[1..] == names[1..] + [name];
    }
  }

  /** The first `k` pieces of `s` that end with a separator. */
  function Pieces(s: string, k: nat): (r: seq<string>)
    ensures |r| <= k
  {
    if k == 0 then []
    else match IndexOf(s, SEPARATOR)
      case None => []
      case Some(i) => [s[..i]] + Pieces(s[i + 1..], k - 1)
  }

  predicate OnePiece(name: string) {
    SEPARATOR !in name
  }

  ghost predicate PlainName(name: string) {
    SEPARATOR !in name && NUL !in name && '\n' !in name
  }

  lemma {:induction false} IndexOfIs(s: string, c: char, i: nat)
    requires i < |s| && s[i] == c && c !in s[..i]
    ensures IndexOf(s, c) == Some(i)
  {
    if i == 0 {
    } else {
      assert s[0] == s[..i][0] && s[1..][..i - 1] == s[..i][1..];
      IndexOfIs(s[1..], c, i - 1);
    }
  }

  lemma {:induction false} CStrIs(a: seq<char>, p: nat, s: string)
    requires p + |s| < |a| && a[p..p + |s|] == s && NUL !in s && a[p + |s|] == NUL
    ensures CStr(a, p) == s
    decreases |s|
  {
    if s == "" {
    } else {
      assert a[p] == a[p..p + |s|][0] && a[p + 1..p + |s|] == a[p..p + |s|][1..];
      CStrIs(a, p + 1, s[1..]);
      assert s == [s[0]] + s[1..];
    }
  }

  lemma CutFirst(name: string, rest: string, k: nat)
    requires SEPARATOR !in name && k > 0
    ensures Pieces(name + [SEPARATOR] + rest, k) == [name] + Pieces(rest, k - 1)
  {
    var s := name + [SEPARATOR] + rest;
    assert s[..|name|] == name;
    IndexOfIs(s, SEPARATOR, |name|);
    assert s[|name| + 1..] == rest;
  }

  /** Cutting undoes joining, for as many names as there are columns. */
  lemma {:induction false} PiecesJoin(names: seq<string>, k: nat)
    requires |names| <= k && forall n :: n in names ==> OnePiece(n)
    ensures Pieces(Join(names), k) == names
  {
    if names == [] {
    } else {
      var first, rest := names[0], names[1..];
      assert first in names;
      var s, r := Join(names), Join(rest);
      assert s == first + [SEPARATOR] + r;
      PiecesJoin(rest, k - 1);
      CutFirst(first, r, k);
      assert Pieces(s, k) == [first] + rest;
      assert [first] + rest == names;
    }
  }

  /** The names are cut from the beginning of the text, and there were only `k`, or none is left. */
  ghost predicate CutFrom(ps: seq<string>, s: string, k: nat) {
    && Join(ps) <= s && |ps| <= k && (forall n :: n in ps ==> OnePiece(n))
    && (|ps| == k || SEPARATOR !in s[|Join(ps)|..])
  }

  lemma CutFromMore(first: string, rest: seq<string>, s: string, t: string, k: nat)
    requires SEPARATOR !in first && s == first + [SEPARATOR] + t && CutFrom(rest, t, k)
    ensures CutFrom([first] + rest, s, k + 1)
  {
    var ps := [first] + rest;
    assert ps[1..] == rest && Join(ps) == first + [SEPARATOR] + Join(rest);
    assert t == Join(rest) + t[|Join(rest)|..];
    assert s[|Join(ps)|..] == t[|Join(rest)|..];
  }

  /** What cutting gives: names without separators that, joined again, are the beginning of the text. */
  lemma {:induction false} PiecesExactly(s: string, k: nat)
    ensures CutFrom(Pieces(s, k), s, k)
  {
    if k == 0 || IndexOf(s, SEPARATOR).None? {
    } else {
      var i := IndexOf(s, SEPARATOR).value;
      PiecesExactly(s[i + 1..], k - 1);
      assert s == s[..i] + [SEPARATOR] + s[i + 1..];
      CutFromMore(s[..i], Pieces(s[i + 1..], k - 1), s, s[i + 1..], k - 1);
    }
  }

  /** The text is these names with a separator between them, and none at the end. */
  ghost predicate Lists(text: string, names: seq<string>) {
    if names == [] then text == "" else forall q: nat :: q >= |names| ==> Pieces(text + [SEPARATOR], q) == names
  }

  /** A joined text without its last separator. */
  lemma JoinLists(names: seq<string>)
    requires forall n :: n in names ==> OnePiece(n)
    ensures names == [] <==> Join(names) == ""
    ensures names != [] ==> Lists(Join(names)[..|Join(names)| - 1], names)
  {
    if names != [] {
      var all, k := Join(names), |names| - 1;
      assert names == names[..k] + [names[k]];
      JoinMore(names[..k], names[k]);
      var text := all[..|all| - 1];
      assert text + [SEPARATOR] == all;
      forall q: nat | q >= |names|
        ensures Pieces(text + [SEPARATOR], q) == names
      {
        PiecesJoin(names, q);
      }
    }
  }

  lemma {:induction false} JoinPlain(names: seq<string>)
    requires forall n :: n in names ==> PlainName(n)
    ensures NUL !in Join(names) && '\n' !in Join(names)
    ensures names != [] ==> |Join(names)| > 0
  {
    if names == [] {
    } else {
      JoinPlain(names[1..]);
      assert names[0] in names;
    }
  }

  /** Writing at the start of a file that keeps its old length. */
  function Overwrite(content: seq<char>, data: seq<char>): seq<char> {
    data + if |data| <= |content| then content[|data|..] else []
  }

  /** A lock file; its content survives between a lock and the next. */
  class LockFile {
    var content: seq<char>

    constructor ()
      ensures content == []
    {
      content := [];
    }

    /** The text and a NUL at the start; what lies behind them, and the length if it is larger, stay. */
    method LockedWrite(info: string)
      modifies this
      ensures |content| == if |old(content)| <= |info| then |info| + 1 else |old(content)|
      ensures content[..|info|] == info && content[|info|] == NUL
      ensures forall i :: |info| < i < |content| ==> content[i] == old(content[i])
      ensures CStr(content, 0) == CStr(info, 0)
    {
      content := Overwrite(content, info + [NUL]);
      WrittenText(info, content);
    }

    /** Four zero bytes at the start: the file reads as an empty string. */
    method Nullify()
      modifies this
      ensures |content| == if |old(content)| <= 4 then 4 else |old(content)|
      ensures forall i :: 0 <= i < 4 ==> content[i] == NUL
      ensures forall i :: 4 <= i < |content| ==> content[i] == old(content[i])
      ensures CStr(content, 0) == ""
    {
      content := Overwrite(content, [NUL, NUL, NUL, NUL]);
    }
  }

  /** A text that was written, and ends with a NUL, is the C string at the start. */
  lemma {:induction false} WrittenText(info: string, after: seq<char>)
    requires |info| < |after| && after[..|info|] == info && after[|info|] == NUL
    ensures CStr(after, 0) == CStr(info, 0)
  {
    var s := CStr(info, 0);
    CStrText(info, 0);
    assert after[0..|s|] == after[..|info|][0..|s|] == s;
    assert |s| < |info| ==> after[|s|] == after[..|info|][|s|];
    CStrIs(after, 0, s);
  }

  /** A file that has the new bytes first and its old ones behind them was overwritten. */
  lemma OverwriteIs(was: seq<char>, data: seq<char>, now: seq<char>)
    requires |now| == (if |was| <= |data| then |data| else |was|) && now[..|data|] == data
    requires forall i :: |data| <= i < |now| ==> now[i] == was[i]
    ensures now == Overwrite(was, data)
  {
    assert now == now[..|data|] + now[|data|..];
  }

  /** The buffer after reading from a file: what the file does not cover stays as it was. */
  function Filled(buf: seq<char>, content: seq<char>): seq<char>
    requires |buf| == PATH_MAX + 1
  {
    var n := if |content| <= PATH_MAX then |content| else PATH_MAX;
    content[..n] + buf[n..]
  }

  /** The line the buffer starts with. */
  function FirstLine(buf: seq<char>): (r: string)
    ensures |r| <= |CStr(buf, 0)|
  {
    var s := CStr(buf, 0);
    match IndexOf(s, '\n')
    case None => s
    case Some(i) => s[..i]
  }

  /**
   What a reader makes of a lock file, given what its buffer held before: nothing if the buffer
   then starts with NUL, otherwise the names it can cut out of the first line.
  */
  function Fetched(buf: seq<char>, content: seq<char>): Option<seq<string>>
    requires |buf| == PATH_MAX + 1
  {
    var line := FirstLine(Filled(buf, content));
    var n := if |content| <= PATH_MAX then |content| else PATH_MAX;
    if line == "" then None
    else Some(Pieces(if n < |line| then line[..n] else line, FTYPE_NUM))
  }

  /** The line ends at the first NUL or newline. */
  lemma FirstLineExactly(buf: seq<char>)
    ensures
      var s := FirstLine(buf);
      && |s| <= |buf| && s == buf[..|s|] && NUL !in s && '\n' !in s
      && (|s| == |buf| || buf[|s|] == NUL || buf[|s|] == '\n')
  {
    CStrText(buf, 0);
    var t := CStr(buf, 0);
    var s := FirstLine(buf);
    assert t == buf[..|t|] && s == t[..|s|];
  }

  /**
   Whatever a file holds, a reader with any buffer makes of it the names in the text before the first
   NUL or newline, or the end of the file; it takes the file for empty exactly if there is no such text.
  */
  lemma FetchedExactly(buf: seq<char>, content: seq<char>, p: nat)
    requires |buf| == PATH_MAX + 1 && 0 < |content| <= PATH_MAX && p <= |content|
    requires NUL !in content[..p] && '\n' !in content[..p]
    requires p == |content| || content[p] == NUL || content[p] == '\n'
    ensures Fetched(buf, content) == if p == 0 then None else Some(Pieces(content[..p], FTYPE_NUM))
  {
    var filled := Filled(buf, content);
    var line := FirstLine(filled);
    FirstLineExactly(filled);
    assert filled[..p] == content[..p];
    assert forall i :: 0 <= i < |line| ==> line[i] == filled[i];
    assert p < |content| ==> filled[p] == content[p];
    assert line[..p] == content[..p];
  }

  /** What was joined and written is what any reader cuts out again, over any earlier content. */
  lemma RegisterRoundTrip(content: seq<char>, names: seq<string>, buf: seq<char>)
    requires |buf| == PATH_MAX + 1 && 1 <= |names| <= FTYPE_NUM
    requires forall n :: n in names ==> PlainName(n)
    requires |Join(names)| < PATH_MAX
    ensures Fetched(buf, Overwrite(content, Join(names) + [NUL])) == Some(names)
  {
    var line := Join(names);
    var after := Overwrite(content, line + [NUL]);
    var filled := Filled(buf, after);
    JoinPlain(names);
    assert filled == line + [NUL] + filled[|line| + 1..];
    CStrIs(filled, 0, line);
    PiecesJoin(names, FTYPE_NUM);
  }

  /** A zeroed file reads as empty, whatever it held and whatever the reader's buffer held. */
  lemma NullifiedReadsEmpty(content: seq<char>, buf: seq<char>)
    requires |buf| == PATH_MAX + 1
    ensures Fetched(buf, Overwrite(content, [NUL, NUL, NUL, NUL])) == None
  {
    var filled := Filled(buf, Overwrite(content, [NUL, NUL, NUL, NUL]));
    assert filled[0] == NUL;
  }

  /**
   A lock file that was created but never written has length zero.  A reader takes it for empty
   exactly if its own buffer is still empty from before; otherwise it reports a set without files.
  */
  lemma UnwrittenFile(buf: seq<char>)
    requires |buf| == PATH_MAX + 1
    ensures Fetched(buf, []) == if FirstLine(buf) == "" then None else Some([])
  {
    assert Filled(buf, []) == buf;
    assert FirstLine(buf)[..0] == "" || FirstLine(buf) == "";
    assert Pieces("", FTYPE_NUM) == [];
  }

  /** The buffer holds the first |starts| pieces of the old line, and from `next` on the rest of it. */
  ghost predicate CutUpTo(a: seq<char>, line: string, starts: seq<nat>, next: nat, k: nat) {
    && |a| > 0 && a[|a| - 1] == NUL && next < |a|
    && |starts| <= k
    && (forall i :: 0 <= i < |starts| ==> starts[i] < next)
    && (forall i :: 0 <= i < |starts| ==> starts[i] + |CStr(a, starts[i])| < next)
    && Pieces(line, k) == Strings(a, starts) + Pieces(CStr(a, next), k - |starts|)
  }

  /** The C strings at the given positions. */
  function Strings(a: seq<char>, starts: seq<nat>): (r: seq<string>)
    requires forall i :: 0 <= i < |starts| ==> starts[i] < |a|
    ensures |r| == |starts|
    ensures forall i :: 0 <= i < |r| ==> r[i] == CStr(a, starts[i])
  {
    seq(|starts|, i requires 0 <= i < |starts| => CStr(a, starts[i]))
  }

  /** C strings that end before position `j` are not affected by a change at `j`. */
  lemma {:induction false} CStrBefore(a: seq<char>, p: nat, j: nat, c: char)
    requires p <= j < |a| && p + |CStr(a, p)| < j
    ensures CStr(a[j := c], p) == CStr(a, p)
  {
    var s := CStr(a, p);
    CStrText(a, p);
    assert a[j := c][p..p + |s|] == a[p..p + |s|];
    CStrIs(a[j := c], p, s);
  }

  lemma {:induction false} CStrAfter(a: seq<char>, p: nat, j: nat, c: char)
    requires j < p <= |a|
    ensures CStr(a[j := c], p) == CStr(a, p)
    decreases |a| - p
  {
    if p == |a| {
    } else {
      CStrAfter(a, p + 1, j, c);
    }
  }

  /** The string at `p` is the text up to the first separator, the separator, and the string behind it. */
  lemma StringAt(a: seq<char>, p: nat, j: nat)
    requires p <= j < |a| - 1 && a[|a| - 1] == NUL && a[j] == SEPARATOR
    requires forall i :: p <= i < j ==> a[i] != SEPARATOR && a[i] != NUL
    ensures CStr(a, p) == a[p..j] + [SEPARATOR] + CStr(a, j + 1)
  {
    CStrText(a, j + 1);
    var rest := CStr(a, j + 1);
    var s := a[p..j] + [SEPARATOR] + rest;
    assert a[p..p + |s|] == s by {
      assert a[p..p + |s|] == a[p..j] + [a[j]] + a[j + 1..j + 1 + |rest|];
    }
    CStrIs(a, p, s);
  }

  lemma NoMarks(a: seq<char>, p: nat, j: nat)
    requires p <= j <= |a| && forall i :: p <= i < j ==> a[i] != SEPARATOR && a[i] != NUL
    ensures SEPARATOR !in a[p..j] && NUL !in a[p..j]
  {
  }

  /** Ending the string at its first separator splits off one piece. */
  lemma CutOne(a: seq<char>, p: nat, j: nat, k: nat)
    requires p <= j < |a| - 1 && a[|a| - 1] == NUL && a[j] == SEPARATOR && k > 0
    requires forall i :: p <= i < j ==> a[i] != SEPARATOR && a[i] != NUL
    ensures
      var b := a[j := NUL];
      && CStr(b, p) == a[p..j]
      && Pieces(CStr(a, p), k) == [CStr(b, p)] + Pieces(CStr(b, j + 1), k - 1)
  {
    var b, name, rest := a[j := NUL], a[p..j], CStr(a, j + 1);
    NoMarks(a, p, j);
    StringAt(a, p, j);
    CutFirst(name, rest, k);
    assert b[p..j] == name;
    CStrIs(b, p, name);
    CStrAfter(a, j + 1, j, NUL);
  }

  lemma StringsKept(a: seq<char>, starts: seq<nat>, j: nat)
    requires j < |a| && forall i :: 0 <= i < |starts| ==> starts[i] <= j && starts[i] + |CStr(a, starts[i])| < j
    ensures Strings(a[j := NUL], starts) == Strings(a, starts)
  {
    forall i | 0 <= i < |starts|
      ensures CStr(a[j := NUL], starts[i]) == CStr(a, starts[i])
    {
      CStrBefore(a, starts[i], j, NUL);
    }
  }

  lemma Regroup(x: seq<string>, y: string, z: seq<string>)
    ensures x + ([y] + z) == x + [y] + z
  {
  }

  lemma StringsAppend(b: seq<char>, starts: seq<nat>, next: nat)
    requires next < |b| && forall i :: 0 <= i < |starts| ==> starts[i] < |b|
    ensures Strings(b, starts + [next]) == Strings(b, starts) + [CStr(b, next)]
  {
  }

  lemma CutStep(a: seq<char>, line: string, starts: seq<nat>, next: nat, j: nat, k: nat)
    requires CutUpTo(a, line, starts, next, k) && |starts| < k
    requires next <= j < |a| - 1 && a[j] == SEPARATOR
    requires forall i :: next <= i < j ==> a[i] != SEPARATOR && a[i] != NUL
    ensures CutUpTo(a[j := NUL], line, starts + [next], j + 1, k)
  {
    var b := a[j := NUL];
    CutOne(a, next, j, k - |starts|);
    StringsKept(a, starts, j);
    StringsAppend(b, starts, next);
    Regroup(Strings(a, starts), CStr(b, next), Pieces(CStr(b, j + 1), k - |starts| - 1));
    var ps := starts + [next];
    forall i | 0 <= i < |ps|
      ensures ps[i] + |CStr(b, ps[i])| < j + 1
    {
      if i < |starts| {
        assert CStr(b, starts[i]) == Strings(b, starts)[i] == CStr(a, starts[i]);
      }
    }
  }

  /** Position of the next separator or of the end of the string. */
  method Scan(str: array<char>, next: nat) returns (j: nat)
    requires next < str.Length && str[str.Length - 1] == NUL
    ensures next <= j < str.Length && (str[j] == NUL || str[j] == SEPARATOR)
    ensures forall i :: next <= i < j ==> str[i] != SEPARATOR && str[i] != NUL
  {
    j := next;
    while str[j] != NUL && str[j] != SEPARATOR
      invariant next <= j < str.Length
      invariant forall i :: next <= i < j ==> str[i] != SEPARATOR && str[i] != NUL
      decreases str.Length - j
    {
      j := j + 1;
    }
  }

  lemma NoMorePieces(a: seq<char>, next: nat, j: nat, k: nat)
    requires next <= j < |a| && a[j] == NUL
    requires forall i :: next <= i < j ==> a[i] != SEPARATOR && a[i] != NUL
    ensures Pieces(CStr(a, next), k) == []
  {
    CStrIs(a, next, a[next..j]);
  }

  lemma CutStart(a: seq<char>, starts: seq<nat>, next: nat, k: nat)
    requires |a| > 0 && a[|a| - 1] == NUL && starts == [] && next == 0
    ensures CutUpTo(a, CStr(a, next), starts, next, k)
  {
    assert Strings(a, starts) == [];
  }

  lemma CutEnd(a: seq<char>, line: string, starts: seq<nat>, next: nat, k: nat)
    requires CutUpTo(a, line, starts, next, k)
    requires |starts| == k || Pieces(CStr(a, next), k - |starts|) == []
    ensures Strings(a, starts) == Pieces(line, k)
  {
  }

  /** septype: cutting up to `num` names apart in the buffer; a missing name ends the list. */
  method SepType(str: array<char>, num: nat) returns (files: seq<nat>)
    requires str.Length > 0 && str[str.Length - 1] == NUL
    modifies str
    ensures forall i :: 0 <= i < |files| ==> files[i] < str.Length
    ensures Strings(str[..], files) == Pieces(old(CStr(str[..], 0)), num)
    ensures str[str.Length - 1] == NUL
  {
    ghost var line := CStr(str[..], 0);
    CutStart(str[..], [], 0, num);
    ghost var next;
    files, next := CutAll(str, line, num);
    CutEnd(str[..], line, files, next, num);
  }

  method CutAll(str: array<char>, ghost line: string, num: nat) returns (files: seq<nat>, ghost end: nat)
    requires str.Length > 0 && CutUpTo(str[..], line, [], 0, num)
    modifies str
    ensures CutUpTo(str[..], line, files, end, num)
    ensures |files| == num || Pieces(CStr(str[..], end), num - |files|) == []
  {
    var next := 0;
    files := [];
    while |files| < num
      invariant CutUpTo(str[..], line, files, next, num)
      decreases num - |files|
    {
      var j := CutNext(str, line, files, next, num);
      if j.None? {
        return files, next;
      }
      files := files + [next];
      next := j.value + 1;
    }
    end := next;
  }

  /** The next name ends at the next separator, which becomes a NUL; there is none if the text ends before. */
  method CutNext(str: array<char>, ghost line: string, ghost files: seq<nat>, next: nat, ghost num: nat)
    returns (end: Option<nat>)
    requires CutUpTo(str[..], line, files, next, num) && |files| < num && next < str.Length
    modifies str
    ensures
      match end
      case Some(j) => CutUpTo(str[..], line, files + [next], j + 1, num)
      case None => CutUpTo(str[..], line, files, next, num) && Pieces(CStr(str[..], next), num - |files|) == []
  {
    var j := Scan(str, next);
    if str[j] == NUL {
      NoMorePieces(str[..], next, j, num - |files|);
      return None;
    }
    CutAt(str, line, files, next, j, num);
    end := Some(j);
  }

  /** The separator at `j` becomes the end of the name that starts at `next`. */
  method CutAt(str: array<char>, ghost line: string, ghost files: seq<nat>, ghost next: nat, j: nat, ghost num: nat)
    requires CutUpTo(str[..], line, files, next, num) && |files| < num
    requires next <= j < str.Length - 1 && str[j] == SEPARATOR
    requires forall i :: next <= i < j ==> str[i] != SEPARATOR && str[i] != NUL
    modifies str
    ensures CutUpTo(str[..], line, files + [next], j + 1, num)
  {
    ghost var a := str[..];
    CutStep(a, line, files, next, j, num);
    str[j] := NUL;
    assert str[..] == a[j := NUL];
  }

  /** Writing a NUL into the buffer shortens the string it starts with. */
  lemma Truncate(a: seq<char>, n: nat)
    requires n < |a|
    ensures
      var s := CStr(a, 0);
      CStr(a[n := NUL], 0) == if n < |s| then s[..n] else s
  {
    var s := CStr(a, 0);
    var b := a[n := NUL];
    CStrText(a, 0);
    var t := if n < |s| then s[..n] else s;
    assert b[0..|t|] == t;
    if |t| < |b| {
      CStrIs(b, 0, t);
    }
  }

  /** A reader and the buffer it keeps from one set to the next. */
  class Client {
    const fpath: array<char>

    ghost predicate Valid()
      reads fpath
    {
      fpath.Length == PATH_MAX + 1 && fpath[PATH_MAX] == NUL
    }

    constructor ()
      ensures Valid() && fresh(fpath) && FirstLine(fpath[..]) == ""
    {
      fpath := new char[PATH_MAX + 1](_ => NUL);
    }

    method ReadFile(content: seq<char>) returns (sz: nat)
      requires Valid()
      modifies fpath
      ensures Valid() && fpath[..] == Filled(old(fpath[..]), content)
      ensures sz == if |content| <= PATH_MAX then |content| else PATH_MAX
    {
      sz := if |content| <= PATH_MAX then |content| else PATH_MAX;
      for i := 0 to sz
        invariant Valid()
        invariant forall j :: 0 <= j < i ==> fpath[j] == content[j]
        invariant forall j :: i <= j < fpath.Length ==> fpath[j] == old(fpath[j])
      {
        fpath[i] := content[i];
      }
      assert forall j :: 0 <= j < fpath.Length ==> fpath[j] == Filled(old(fpath[..]), content)[j];
    }

    /** The text ends at its first newline. */
    method CutLine()
      requires Valid()
      modifies fpath
      ensures Valid() && CStr(fpath[..], 0) == FirstLine(old(fpath[..]))
    {
      var i := 0;
      ghost var a := fpath[..];
      while fpath[i] != NUL && fpath[i] != '\n'
        invariant 0 <= i < fpath.Length && fpath[..] == a
        invariant forall j :: 0 <= j < i ==> a[j] != NUL && a[j] != '\n'
        decreases fpath.Length - i
      {
        i := i + 1;
      }
      LineEnd(a, i);
      if fpath[i] == '\n' {
        Truncate(a, i);
        fpath[i] := NUL;
        assert fpath[..] == a[i := NUL];
      }
    }

    /** The names in the lock file, as positions in the buffer; nothing if the file reads as empty. */
    method Fetch(content: seq<char>) returns (r: Option<seq<nat>>)
      requires Valid()
      modifies fpath
      ensures Valid()
      ensures r.Some? <==> Fetched(old(fpath[..]), content).Some?
      ensures r.Some? ==> forall i :: 0 <= i < |r.value| ==> r.value[i] < fpath.Length
      ensures r.Some? ==> Strings(fpath[..], r.value) == Fetched(old(fpath[..]), content).value
    {
      var sz := ReadFile(content);
      CutLine();
      if fpath[0] == NUL {
        return None;
      }
      ghost var a := fpath[..];
      fpath[sz] := NUL;
      assert fpath[..] == a[sz := NUL];
      Truncate(a, sz);
      var files := SepType(fpath, FTYPE_NUM);
      r := Some(files);
    }
  }

  lemma LineEnd(a: seq<char>, i: nat)
    requires i < |a| && (a[i] == NUL || a[i] == '\n')
    requires forall j :: 0 <= j < i ==> a[j] != NUL && a[j] != '\n'
    ensures a[i] == NUL ==> FirstLine(a) == CStr(a, 0)
    ensures a[i] == '\n' ==> i < |CStr(a, 0)| && FirstLine(a) == CStr(a, 0)[..i]
  {
    CStrText(a, 0);
    var s := CStr(a, 0);
    if a[i] == NUL {
      CStrIs(a, 0, a[..i]);
    } else {
      assert i < |s| && s[i] == '\n' && '\n' !in s[..i];
      IndexOfIs(s, '\n', i);
    }
  }
}
