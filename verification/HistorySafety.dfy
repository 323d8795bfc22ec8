/**
 Conservation: the history loses no file.  Every file that was put is in one column, was unlinked, or
 was replaced by a later one, counted with multiplicity.
*/
module HistorySafety {
  import opened Wrappers
  import opened HistoryLog

  // ----- Conservation of file names -----

  function Is(o: Option<Path>, p: Path): nat {
    if o == Some(p) then 1 else 0
  }

  /** How often `p` occurs in a record of file names. */
  function Times(s: seq<Path>, p: Path): nat {
    if s == [] then 0 else Times(s[..|s| - 1], p) + Is(Some(s[|s| - 1]), p)
  }

  /** How many columns of an entry hold `p`. */
  function NameCount(f: seq<Option<Path>>, p: Path): nat
    requires |f| == FNAME_MAX
  {
    Is(f[0], p) + Is(f[1], p) + Is(f[2], p)
  }

  /** How many columns of all entries hold `p`. */
  function Held(es: seq<Entry>, p: Path): nat
    requires ThreeNames(es)
  {
    if es == [] then 0 else Held(es[..|es| - 1], p) + NameCount(es[|es| - 1].fname, p)
  }

  lemma {:induction false} TimesAppend(s: seq<Path>, q: seq<Path>, p: Path)
    ensures Times(s + q, p) == Times(s, p) + Times(q, p)
  {
    if q == [] {
      assert s + q == s;
    } else {
      TimesAppend(s, q[..|q| - 1], p);
      assert (s + q)[..|s + q| - 1] == s + q[..|q| - 1];
    }
  }

  lemma LastName(f: seq<Option<Path>>, p: Path)
    requires f != []
    ensures Times(NamesOf(f), p) == Times(NamesOf(f[..|f| - 1]), p) + Is(f[|f| - 1], p)
  {
    var last := f[|f| - 1];
    var one := if last.Some? then [last.value] else [];
    TimesAppend(NamesOf(f[..|f| - 1]), one, p);
    assert last.Some? ==> one[..0] == [];
  }

  lemma NamesTimes(f: seq<Option<Path>>, p: Path)
    requires |f| == FNAME_MAX
    ensures Times(NamesOf(f), p) == NameCount(f, p)
  {
    var f2 := f[..2];
    var f1 := f2[..1];
    LastName(f, p);
    LastName(f2, p);
    LastName(f1, p);
  }

  lemma {:induction false} HeldUpdate(es: seq<Entry>, k: nat, e: Entry, p: Path)
    requires ThreeNames(es) && k < |es| && |e.fname| == FNAME_MAX
    ensures Held(es[k := e], p) + NameCount(es[k].fname, p) == Held(es, p) + NameCount(e.fname, p)
  {
    var n := |es| - 1;
    var fs := es[k := e];
    if k < n {
      HeldUpdate(es[..n], k, e, p);
      assert fs[..n] == es[..n][k := e];
    } else {
      assert fs[..n] == es[..n];
    }
  }

  lemma HeldAppend(es: seq<Entry>, e: Entry, p: Path)
    requires ThreeNames(es) && |e.fname| == FNAME_MAX
    ensures Held(es + [e], p) == Held(es, p) + NameCount(e.fname, p)
  {
    assert (es + [e])[..|es|] == es;
  }

  /** Every file put is held by exactly one column, unlinked, or replaced, counted with multiplicity. */
  ghost predicate Balanced(l: Log)
    requires ThreeNames(l.entries)
  {
    forall p :: Balance(l, p) == 0
  }

  function Balance(l: Log, p: Path): int
    requires ThreeNames(l.entries)
  {
    Held(l.entries, p) + Times(l.unlinked, p) + Times(l.replaced, p) - Times(l.puts, p)
  }

  lemma RemoveBalance(l: Log, p: Path)
    requires ThreeNames(l.entries) && l.removed < |l.entries|
    ensures ThreeNames(Remove(l).entries) && Balance(Remove(l), p) == Balance(l, p)
  {
    var k := l.removed + 1 - KEEP_FILE_COUNT;
    if 0 <= k {
      HeldUpdate(l.entries, k, l.entries[k].(fname := NO_NAMES), p);
      NamesTimes(l.entries[k].fname, p);
      TimesAppend(l.unlinked, NamesOf(l.entries[k].fname), p);
    }
  }

  lemma OneTime(q: Path, p: Path)
    ensures Times([q], p) == Is(Some(q), p)
  {
    assert [q][..0] == [];
  }

  lemma StoreBalance(l: Log, k: nat, path: Path, tent: nat, p: Path)
    requires ThreeNames(l.entries) && k < |l.entries| && tent < FNAME_MAX
    ensures
      var r := Store(l, k, path, tent);
      ThreeNames(r.entries) && Balance(r, p) == Balance(l, p) + Times([path], p)
  {
    var f := l.entries[k].fname;
    OneTime(path, p);
    if f[tent].Some? {
      OneTime(f[tent].value, p);
    }
    HeldUpdate(l.entries, k, l.entries[k].(fname := f[tent := Some(path)]), p);
    TimesAppend(l.replaced, if f[tent].Some? then [f[tent].value] else [], p);
  }

  lemma OpenBalance(l: Log, n: nat, dt: nat, p: Path)
    requires ThreeNames(l.entries)
    ensures
      var r := Open(l, n, dt);
      ThreeNames(r.entries) && Balance(r, p) == Balance(l, p)
  {
    var k := |l.entries| - n;
    if k < 0 || n == 0 {
      HeldAppend(l.entries, Entry(dt, NO_NAMES), p);
    } else {
      var e := l.entries[k].(fname := NO_NAMES);
      HeldUpdate(l.entries, k, e, p);
      HeldAppend(l.entries[k := e], Entry(dt, l.entries[k].fname), p);
    }
  }

  lemma ArrivedBalance(l: Log, path: Path, p: Path)
    requires ThreeNames(l.entries)
    ensures Balance(Arrived(l, path), p) == Balance(l, p) - Times([path], p)
  {
    TimesAppend(l.puts, [path], p);
  }

  lemma EvictBalance(l: Log, n: nat, p: Path)
    requires ValidLog(l, n)
    ensures ThreeNames(Evict(l, n).entries) && |Evict(l, n).entries| == |l.entries|
    ensures Balance(Evict(l, n), p) == Balance(l, p)
  {
    EvictValid(l, n);
    if l.Queued() + 1 > n - KEEP_FILE_COUNT {
      RemoveBalance(l, p);
    }
  }

  lemma PutBalance(l: Log, n: nat, path: Path, dt: nat, tent: int, p: Path)
    requires ValidLog(l, n) && dt != 0
    ensures ThreeNames(Put(l, n, path, dt, tent).entries)
    ensures Balance(Put(l, n, path, dt, tent), p) == Balance(l, p)
  {
    var a := Arrived(l, path);
    ArrivedBalance(l, path, p);
    if InRange(tent) {
      if dt > l.Newest() {
        EvictBalance(a, n, p);
        var e := Evict(a, n);
        OpenBalance(e, n, dt, p);
        StoreBalance(Open(e, n, dt), |l.entries|, path, tent, p);
      } else if Lookup(l, n, dt).Some? {
        StoreBalance(a, Lookup(l, n, dt).value, path, tent, p);
      } else {
        TimesAppend(l.unlinked, [path], p);
      }
    }
  }

  /** No put and no removal loses track of a file, whatever arrives late. */
  lemma PutBalanced(l: Log, n: nat, path: Path, dt: nat, tent: int)
    requires ValidLog(l, n) && dt != 0 && Balanced(l)
    ensures ThreeNames(Put(l, n, path, dt, tent).entries) && Balanced(Put(l, n, path, dt, tent))
  {
    PutValid(l, n, path, dt, tent);
    forall p
      ensures Balance(Put(l, n, path, dt, tent), p) == 0
    {
      PutBalance(l, n, path, dt, tent, p);
    }
  }

  lemma RemoveBalanced(l: Log, n: nat)
    requires ValidLog(l, n) && l.Queued() > 0 && Balanced(l)
    ensures ThreeNames(Remove(l).entries) && Balanced(Remove(l))
  {
    RemoveValid(l, n);
    forall p
      ensures Balance(Remove(l), p) == 0
    {
      RemoveBalance(l, p);
    }
  }
}
