/**
 The history of `lwatcher` as an unbounded log: every date that was ever accepted, oldest
 first, and how many of them were retired.  Nothing here knows about slots, ring indices or
 scan loops; `HistoryRing` proves that the bounded ring behaves like this log.
*/
module HistoryLog {
  import opened Wrappers

  const KEEP_FILE_COUNT: nat := 3
  const FNAME_MAX: nat := 3

  /** A file name, with the date and the sync type that the file name patterns read out of it. */
  datatype Path = Path(name: string, date: nat, kind: int)

  /** One history entry: a date and at most one file name for each sync type. */
  datatype Entry = Entry(date: nat, fname: seq<Option<Path>>)

  const NO_NAMES: seq<Option<Path>> := [None, None, None]

  const UNUSED: Entry := Entry(0, NO_NAMES)

  /**
   `entries` are the accepted dates; the first `removed` of them are retired, of which the
   producer evicted `evicted`.  `puts`, `unlinked` and `replaced` record what happened to the
   file names, `disk` is the set of arrived files that were not unlinked.
  */
  datatype Log = Log(
    entries: seq<Entry>,
    removed: nat,
    evicted: nat,
    puts: seq<Path>,
    unlinked: seq<Path>,
    replaced: seq<Path>,
    disk: set<Path>
  ) {
    function Queued(): int {
      |entries| - removed
    }

    function Newest(): nat {
      if entries == [] then 0 else entries[|entries| - 1].date
    }
  }

  const EMPTY: Log := Log([], 0, 0, [], [], [], {})

  ghost predicate Increasing(es: seq<Entry>) {
    && (forall i :: 0 <= i < |es| ==> 0 < es[i].date)
    && (forall i, j :: 0 <= i < j < |es| ==> es[i].date < es[j].date)
  }

  ghost predicate ThreeNames(es: seq<Entry>) {
    forall i :: 0 <= i < |es| ==> |es[i].fname| == FNAME_MAX
  }

  /** What every reachable log of a ring with `n` slots satisfies. */
  ghost predicate ValidLog(l: Log, n: nat) {
    && KEEP_FILE_COUNT + 2 <= n
    && 0 <= l.Queued() <= n - KEEP_FILE_COUNT
    && Increasing(l.entries)
    && ThreeNames(l.entries)
  }

  /** The names present in an entry, in type order. */
  function NamesOf(f: seq<Option<Path>>): seq<Path> {
    if f == [] then []
    else
      var last := f[|f| - 1];
      NamesOf(f[..|f| - 1]) + (if last.Some? then [last.value] else [])
  }

  /**
   Retiring the oldest queued entry.  The names that disappear are those of the entry retired
   KEEP_FILE_COUNT - 1 removals earlier; its date stays in the log.
  */
  function Remove(l: Log): Log
    requires l.removed < |l.entries|
  {
    var k := l.removed + 1 - KEEP_FILE_COUNT;
    if k < 0 then l.(removed := l.removed + 1)
    else
      var gone := NamesOf(l.entries[k].fname);
      l.(removed := l.removed + 1,
      entries := l.entries[k := l.entries[k].(fname := NO_NAMES)],
      unlinked := l.unlinked + gone,
      disk := l.disk - set p | p in gone)
  }

  /** Storing a name in an existing entry; a name already there is forgotten, not unlinked. */
  function Store(l: Log, k: nat, path: Path, tent: nat): Log
    requires k < |l.entries| && |l.entries[k].fname| == FNAME_MAX && tent < FNAME_MAX
  {
    var f := l.entries[k].fname;
    l.(entries := l.entries[k := l.entries[k].(fname := f[tent := Some(path)])],
    replaced := l.replaced + if f[tent].Some? then [f[tent].value] else [])
  }

  /**
   Opening an entry for a new date.  An entry `n` dates older has to give up its place; names
   that were put there after it had been cleared move into the new entry.
  */
  function Open(l: Log, n: nat, dt: nat): Log
    requires ThreeNames(l.entries)
  {
    var k := |l.entries| - n;
    if k < 0 || n == 0 then l.(entries := l.entries + [Entry(dt, NO_NAMES)])
    else
      var was := l.entries[k];
      l.(entries := l.entries[k := was.(fname := NO_NAMES)] + [Entry(dt, was.fname)])
  }

  /** Making room for one more date: the oldest queued entry is retired when the queue is full. */
  function Evict(l: Log, n: nat): Log
    requires ValidLog(l, n)
  {
    if l.Queued() + 1 > n - KEEP_FILE_COUNT then Remove(l).(evicted := l.evicted + 1) else l
  }

  /** The newest index in [lo, hi) whose entry has date `dt`. */
  function FindDate(es: seq<Entry>, lo: int, hi: int, dt: nat): (r: Option<nat>)
    requires hi <= |es|
    ensures r.Some? ==> lo <= r.value < hi && es[r.value].date == dt
    ensures r.None? ==> forall j :: 0 <= j && lo <= j < hi ==> es[j].date != dt
    decreases hi - lo
  {
    if hi <= lo || hi <= 0 then None
    else if es[hi - 1].date == dt then Some(hi - 1)
    else FindDate(es, lo, hi - 1, dt)
  }

  /** The entry among the last `n` accepted dates to which a file of date `dt` belongs. */
  function Lookup(l: Log, n: nat, dt: nat): (r: Option<nat>)
    ensures r.Some? ==> |l.entries| - n <= r.value < |l.entries| && l.entries[r.value].date == dt
    ensures r.None? ==> forall j :: 0 <= j && |l.entries| - n <= j < |l.entries| ==> l.entries[j].date != dt
  {
    FindDate(l.entries, |l.entries| - n, |l.entries|, dt)
  }

  predicate InRange(tent: int) {
    0 <= tent < FNAME_MAX
  }

  /** Whether a file is kept at all: its date is new, or among the last `n` accepted ones. */
  predicate Accepts(l: Log, n: nat, dt: nat, tent: int) {
    InRange(tent) && (dt > l.Newest() || Lookup(l, n, dt).Some?)
  }

  function Arrived(l: Log, path: Path): Log {
    l.(puts := l.puts + [path], disk := l.disk + {path})
  }

  /** Registering a file: a new date opens an entry, a known one is completed, any other file is unlinked. */
  function Put(l: Log, n: nat, path: Path, dt: nat, tent: int): Log
    requires ValidLog(l, n) && dt != 0
  {
    if !InRange(tent) then l.(disk := l.disk + {path})
    else
      var a := Arrived(l, path);
      if dt > l.Newest() then
        EvictValid(a, n);
        Store(Open(Evict(a, n), n, dt), |l.entries|, path, tent)
      else match Lookup(l, n, dt)
        case Some(k) => Store(a, k, path, tent)
        case None => a.(unlinked := a.unlinked + [path], disk := a.disk - {path})
  }

  lemma EvictValid(l: Log, n: nat)
    requires ValidLog(l, n)
    ensures ThreeNames(Evict(l, n).entries) && Increasing(Evict(l, n).entries)
    ensures |Evict(l, n).entries| == |l.entries|
    ensures Evict(l, n).Queued() < n - KEEP_FILE_COUNT
    ensures forall j :: 0 <= j < |l.entries| ==> Evict(l, n).entries[j].date == l.entries[j].date
  {
  }

  /** Every removal keeps the log valid. */
  lemma RemoveValid(l: Log, n: nat)
    requires ValidLog(l, n) && l.Queued() > 0
    ensures ValidLog(Remove(l), n) && Remove(l).Queued() == l.Queued() - 1
  {
  }

  lemma OpenValid(l: Log, n: nat, dt: nat)
    requires Increasing(l.entries) && ThreeNames(l.entries) && dt > l.Newest()
    ensures Increasing(Open(l, n, dt).entries) && ThreeNames(Open(l, n, dt).entries)
    ensures |Open(l, n, dt).entries| == |l.entries| + 1 && Open(l, n, dt).Newest() == dt
  {
  }

  lemma StoreValid(l: Log, k: nat, path: Path, tent: nat)
    requires Increasing(l.entries) && ThreeNames(l.entries) && k < |l.entries| && tent < FNAME_MAX
    ensures Increasing(Store(l, k, path, tent).entries) && ThreeNames(Store(l, k, path, tent).entries)
    ensures Store(l, k, path, tent).Newest() == l.Newest()
  {
  }

  /** Every put keeps the log valid: dates stay strictly increasing, the queue stays within its bound. */
  lemma PutValid(l: Log, n: nat, path: Path, dt: nat, tent: int)
    requires ValidLog(l, n) && dt != 0
    ensures ValidLog(Put(l, n, path, dt, tent), n)
    ensures Put(l, n, path, dt, tent).Newest() == if InRange(tent) && dt > l.Newest() then dt else l.Newest()
  {
    var a := Arrived(l, path);
    if InRange(tent) {
      if dt > l.Newest() {
        EvictValid(a, n);
        OpenValid(Evict(a, n), n, dt);
        StoreValid(Open(Evict(a, n), n, dt), |l.entries|, path, tent);
      } else if Lookup(l, n, dt).Some? {
        StoreValid(a, Lookup(l, n, dt).value, path, tent);
      }
    }
  }
}
