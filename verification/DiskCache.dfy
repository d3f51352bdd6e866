/** The on-disk cache as a protocol between processes.

    Any number of processes run `get` and `put` on one cache directory. Each call is broken into
    the file-system operations it performs, and these interleave arbitrarily. A `put` takes the
    exclusive lock of its shard, fills a private temporary file piece by piece and renames it over
    the entry; a `get` takes the shared lock, opens the entry and reads it piece by piece. Any
    operation may fail, and a process may die between any two operations: its lock is released by
    the operating system, its temporary file stays behind. */
module DiskCache {
  import opened Text

  type Bytes = seq<bv8>
  type Path = seq<string>

  /** Serialization and compression together; encoding may fail, decoding may reject. */
  datatype Codec<!V> = Codec(encode: V -> Option<Bytes>, decode: Bytes -> Option<V>)

  ghost predicate Lawful<V(!new)>(c: Codec<V>) {
    forall v :: c.encode(v).Some? ==> c.decode(c.encode(v).value) == Some(v)
  }

  // ----- Paths -----

  /** A tool name and the hexadecimal form of a content hash. */
  datatype RawKey = RawKey(tool: string, hex: string)
  type Key = k: RawKey | |k.hex| >= 2 witness RawKey("", "00")

  const SUFFIX := ".json.snap"

  /** `DiskCache::entry_path`, below the base directory. */
  function EntryPath(k: Key): Path {
    [k.tool, k.hex[..2], k.hex + SUFFIX]
  }

  /** The lock file that guards the entry's directory. */
  function LockPath(k: Key): Path {
    [k.tool, k.hex[..2], ".lock"]
  }

  /** Distinct keys have distinct entry files, no lock file is an entry file, and two keys share a lock
      exactly when their entries share a directory, which is named after the first two digits. */
  lemma PathsDistinct(j: Key, k: Key)
    ensures EntryPath(j) == EntryPath(k) <==> j == k
    ensures EntryPath(j) != LockPath(k)
    ensures LockPath(j) == LockPath(k) <==> EntryPath(j)[..2] == EntryPath(k)[..2]
    ensures EntryPath(k)[0] == k.tool && |EntryPath(k)[1]| == 2 && EntryPath(k)[1] <= k.hex < EntryPath(k)[2]
  {
    if EntryPath(j) == EntryPath(k) {
      assert EntryPath(j)[0] == EntryPath(k)[0];
      assert EntryPath(j)[2] == EntryPath(k)[2];
      var n := |j.hex|;
      assert |j.hex + SUFFIX| == |k.hex + SUFFIX|;
      assert (j.hex + SUFFIX)[..n] == j.hex && (k.hex + SUFFIX)[..n] == k.hex;
    }
    assert |EntryPath(j)[2]| > |LockPath(k)[2]|;
  }

  // ----- States -----

  datatype Mode = Shared | Exclusive

  datatype Lock = Lock(path: Path, mode: Mode)

  type Proc = nat
  type Inode = nat

  /** Where a process is inside `put` or `get`. */
  datatype Phase<V> =
    | Idle
    | PutReady(key: Key, value: V, bytes: Bytes)
    | PutLocked(key: Key, value: V, bytes: Bytes)
    | PutWriting(key: Key, value: V, bytes: Bytes, inode: Inode, written: nat)
    | PutRenamed(key: Key)
    | GetReady(key: Key)
    | GetLocked(key: Key)
    | GetReading(key: Key, inode: Inode, data: Bytes)

  /** `names` is the directory, `files` the file contents. The last three components record
      history: values put so far, the value of the latest rename per key, and results of gets. */
  datatype State<!V> = State(
    names: map<Path, Inode>,
    files: map<Inode, Bytes>,
    locks: map<Proc, Lock>,
    phases: map<Proc, Phase<V>>,
    history: seq<(Key, V)>,
    latest: map<Key, V>,
    results: seq<(Key, Option<V>)>)

  function PhaseOf<V>(s: State<V>, p: Proc): Phase<V> {
    if p in s.phases then s.phases[p] else Idle
  }

  ghost predicate Init<V>(s: State<V>) {
    s == State(map[], map[], map[], map[], [], map[], [])
  }

  // ----- Steps -----

  datatype Step<V> =
    | BeginPut(p: Proc, key: Key, value: V)
    | LockPut(p: Proc)
    | CreateTemp(p: Proc, inode: Inode)
    | WriteChunk(p: Proc, n: nat)
    | Rename(p: Proc)
    | FinishPut(p: Proc)
    | FailPut(p: Proc)
    | BeginGet(p: Proc, key: Key)
    | LockGet(p: Proc)
    | OpenEntry(p: Proc)
    | ReadChunk(p: Proc, n: nat)
    | FinishGet(p: Proc)
    | FailGet(p: Proc)
    | Crash(p: Proc)

  /** `File::lock`: nobody else holds the file in any mode. */
  predicate CanLockExclusive<V>(s: State<V>, p: Proc, path: Path) {
    forall q :: q in s.locks && q != p ==> s.locks[q].path != path
  }

  /** `File::lock_shared`: nobody else holds the file exclusively. */
  predicate CanLockShared<V>(s: State<V>, p: Proc, path: Path) {
    forall q :: q in s.locks && q != p ==> s.locks[q].path != path || s.locks[q].mode == Shared
  }

  /** When a step can be taken. `FailPut` covers a failed lock, create, write or rename, `FailGet` a
      failed lock or read. */
  predicate Enabled<V>(s: State<V>, step: Step<V>) {
    var ph := PhaseOf(s, step.p);
    match step
    case BeginPut(_, _, _) => ph.Idle?
    case LockPut(p) => ph.PutReady? && CanLockExclusive(s, p, LockPath(ph.key))
    case CreateTemp(_, inode) => ph.PutLocked? && inode !in s.files
    case WriteChunk(_, n) => ph.PutWriting? && ph.written + n <= |ph.bytes|
    case Rename(_) => ph.PutWriting? && ph.written == |ph.bytes|
    case FinishPut(_) => ph.PutRenamed?
    case FailPut(_) => ph.PutReady? || ph.PutLocked? || ph.PutWriting?
    case BeginGet(_, _) => ph.Idle?
    case LockGet(p) => ph.GetReady? && CanLockShared(s, p, LockPath(ph.key))
    case OpenEntry(_) => ph.GetLocked?
    case ReadChunk(_, n) => ph.GetReading? && ph.inode in s.files && |ph.data| + n <= |s.files[ph.inode]|
    case FinishGet(_) => ph.GetReading? && ph.inode in s.files && |ph.data| >= |s.files[ph.inode]|
    case FailGet(_) => ph.GetReady? || ph.GetLocked? || ph.GetReading?
    case Crash(_) => true
  }

  /** The stepping process's next phase. A value that cannot be serialized is dropped silently. */
  function PhaseAfter<V>(c: Codec<V>, s: State<V>, step: Step<V>): Phase<V>
    requires Enabled(s, step)
  {
    var ph := PhaseOf(s, step.p);
    match step
    case BeginPut(_, key, value) =>
      var e := c.encode(value); if e.Some? then PutReady(key, value, e.value) else Idle
    case LockPut(_) => PutLocked(ph.key, ph.value, ph.bytes)
    case CreateTemp(_, inode) => PutWriting(ph.key, ph.value, ph.bytes, inode, 0)
    case WriteChunk(_, n) => ph.(written := ph.written + n)
    case Rename(_) => PutRenamed(ph.key)
    case BeginGet(_, key) => GetReady(key)
    case LockGet(_) => GetLocked(ph.key)
    case OpenEntry(_) =>
      if EntryPath(ph.key) in s.names then GetReading(ph.key, s.names[EntryPath(ph.key)], []) else Idle
    case ReadChunk(_, n) => ph.(data := ph.data + s.files[ph.inode][|ph.data|..|ph.data| + n])
    case _ => Idle
  }

  /** A new file is empty, a write appends, and a failed put removes its temporary file. */
  function FilesAfter<V>(s: State<V>, step: Step<V>): map<Inode, Bytes>
    requires Enabled(s, step)
  {
    var ph := PhaseOf(s, step.p);
    match step
    case CreateTemp(_, inode) => s.files[inode := []]
    case WriteChunk(_, n) =>
      if ph.inode in s.files
      then s.files[ph.inode := s.files[ph.inode] + ph.bytes[ph.written..ph.written + n]] else s.files
    case FailPut(_) => if ph.PutWriting? then s.files - {ph.inode} else s.files
    case _ => s.files
  }

  /** Locks are taken by the two lock steps and released when the call ends, however it ends. */
  function LocksAfter<V>(c: Codec<V>, s: State<V>, step: Step<V>): map<Proc, Lock>
    requires Enabled(s, step)
  {
    var ph := PhaseOf(s, step.p);
    match step
    case LockPut(p) => s.locks[p := Lock(LockPath(ph.key), Exclusive)]
    case LockGet(p) => s.locks[p := Lock(LockPath(ph.key), Shared)]
    case _ => if PhaseAfter(c, s, step).Idle? then s.locks - {step.p} else s.locks
  }

  function ResultsAfter<V>(c: Codec<V>, s: State<V>, step: Step<V>): seq<(Key, Option<V>)>
    requires Enabled(s, step)
  {
    var ph := PhaseOf(s, step.p);
    match step
    case OpenEntry(_) => if EntryPath(ph.key) in s.names then s.results else s.results + [(ph.key, None)]
    case FinishGet(_) => s.results + [(ph.key, c.decode(ph.data))]
    case FailGet(_) => s.results + [(ph.key, None)]
    case _ => s.results
  }

  function After<V>(c: Codec<V>, s: State<V>, step: Step<V>): State<V>
    requires Enabled(s, step)
  {
    var ph := PhaseOf(s, step.p);
    State(
      if step.Rename? then s.names[EntryPath(ph.key) := ph.inode] else s.names,
      FilesAfter(s, step),
      LocksAfter(c, s, step),
      s.phases[step.p := PhaseAfter(c, s, step)],
      if step.BeginPut? && c.encode(step.value).Some? then s.history + [(step.key, step.value)] else s.history,
      if step.Rename? then s.latest[ph.key := ph.value] else s.latest,
      ResultsAfter(c, s, step))
  }

  ghost predicate NextStep<V>(c: Codec<V>, s: State<V>, t: State<V>, step: Step<V>) {
    Enabled(s, step) && t == After(c, s, step)
  }

  ghost predicate Next<V(!new)>(c: Codec<V>, s: State<V>, t: State<V>) {
    exists step :: NextStep(c, s, t, step)
  }

  ghost predicate Run<V(!new)>(c: Codec<V>, run: seq<State<V>>) {
    && run != [] && Init(run[0])
    && forall i :: 0 <= i < |run| - 1 ==> Next(c, run[i], run[i + 1])
  }

  // ----- The invariant -----

  /** Which lock a phase holds. */
  function LockOf<V>(ph: Phase<V>): Option<Lock> {
    match ph
    case PutLocked(key, _, _) => Some(Lock(LockPath(key), Exclusive))
    case PutWriting(key, _, _, _, _) => Some(Lock(LockPath(key), Exclusive))
    case PutRenamed(key) => Some(Lock(LockPath(key), Exclusive))
    case GetLocked(key) => Some(Lock(LockPath(key), Shared))
    case GetReading(key, _, _) => Some(Lock(LockPath(key), Shared))
    case _ => None
  }

  ghost predicate LocksMatchPhases<V>(s: State<V>) {
    forall p: Proc :: LockOf(PhaseOf(s, p)) == if p in s.locks then Some(s.locks[p]) else None
  }

  ghost predicate MutualExclusion<V>(s: State<V>) {
    forall p, q :: p in s.locks && q in s.locks && p != q && s.locks[p].path == s.locks[q].path ==>
      s.locks[p].mode == Shared && s.locks[q].mode == Shared
  }

  /** Entries hold exactly the encoding of the value last renamed into place. */
  ghost predicate EntriesComplete<V>(c: Codec<V>, s: State<V>) {
    && (forall k: Key :: k in s.latest <==> EntryPath(k) in s.names)
    && (forall k: Key :: k in s.latest ==>
          && (k, s.latest[k]) in s.history
          && s.names[EntryPath(k)] in s.files
          && c.encode(s.latest[k]) == Some(s.files[s.names[EntryPath(k)]]))
    && (forall path :: path in s.names ==> exists k: Key :: k in s.latest && path == EntryPath(k))
  }

  ghost predicate PutOk<V>(c: Codec<V>, s: State<V>, ph: Phase<V>) {
    (ph.PutReady? || ph.PutLocked? || ph.PutWriting?) ==>
      c.encode(ph.value) == Some(ph.bytes) && (ph.key, ph.value) in s.history
  }

  /** A temporary file is private to its writer and holds what has been written so far. */
  ghost predicate TempsPrivate<V>(s: State<V>) {
    && (forall p: Proc :: PhaseOf(s, p).PutWriting? ==>
          var ph := PhaseOf(s, p);
          && ph.inode in s.files && ph.written <= |ph.bytes|
          && s.files[ph.inode] == ph.bytes[..ph.written]
          && forall path :: path in s.names ==> s.names[path] != ph.inode)
    && (forall p: Proc, q: Proc :: p != q && PhaseOf(s, p).PutWriting? && PhaseOf(s, q).PutWriting? ==>
          PhaseOf(s, p).inode != PhaseOf(s, q).inode)
  }

  ghost predicate ReaderCurrent<V>(s: State<V>, ph: Phase<V>) {
    ph.GetReading? ==>
      && EntryPath(ph.key) in s.names && s.names[EntryPath(ph.key)] == ph.inode
      && ph.inode in s.files && ph.data <= s.files[ph.inode]
  }

  /** While it is being read, a file stays the current entry of its key. */
  ghost predicate ReadersCurrent<V>(s: State<V>) {
    forall p: Proc :: ReaderCurrent(s, PhaseOf(s, p))
  }

  ghost predicate ResultsOk<V>(s: State<V>) {
    forall i :: 0 <= i < |s.results| ==> s.results[i].1.Some? ==> (s.results[i].0, s.results[i].1.value) in s.history
  }

  ghost predicate Inv<V>(c: Codec<V>, s: State<V>) {
    && LocksMatchPhases(s) && MutualExclusion(s)
    && EntriesComplete(c, s)
    && (forall p: Proc :: PutOk(c, s, PhaseOf(s, p)))
    && TempsPrivate(s) && ReadersCurrent(s)
    && ResultsOk(s)
  }

  // ----- Every step keeps the invariant -----

  /** A step changes the phase of its own process only, and never forgets a put. */
  lemma StepFrame<V>(c: Codec<V>, s: State<V>, t: State<V>, step: Step<V>)
    requires NextStep(c, s, t, step)
    ensures PhaseOf(t, step.p) == PhaseAfter(c, s, step)
    ensures forall q: Proc :: q != step.p ==> PhaseOf(t, q) == PhaseOf(s, q)
    ensures s.history <= t.history
  {
    hide Enabled, PhaseAfter, FilesAfter, LocksAfter, ResultsAfter;
  }

  /** A file changes or disappears only as the temporary file of the stepping process. */
  lemma FileEffect<V>(s: State<V>, step: Step<V>)
    requires Enabled(s, step)
    ensures var ph := PhaseOf(s, step.p);
      forall i :: i in s.files && !(ph.PutWriting? && ph.inode == i) ==>
        i in FilesAfter(s, step) && FilesAfter(s, step)[i] == s.files[i]
  {
  }

  /** What a step does to the lock table. */
  lemma LockEffect<V>(c: Codec<V>, s: State<V>, step: Step<V>)
    requires Enabled(s, step)
    requires LockOf(PhaseOf(s, step.p)) == if step.p in s.locks then Some(s.locks[step.p]) else None
    ensures var locks := LocksAfter(c, s, step);
      && LockOf(PhaseAfter(c, s, step)) == (if step.p in locks then Some(locks[step.p]) else None)
      && (forall q :: q != step.p ==> (q in locks <==> q in s.locks) && (q in locks ==> locks[q] == s.locks[q]))
      && (step.p in locks ==>
            || (step.p in s.locks && locks[step.p] == s.locks[step.p])
            || (if locks[step.p].mode == Exclusive then CanLockExclusive(s, step.p, locks[step.p].path)
                else CanLockShared(s, step.p, locks[step.p].path)))
  {
    hide CanLockExclusive, CanLockShared, EntryPath;
  }

  lemma LocksKept<V>(c: Codec<V>, s: State<V>, t: State<V>, step: Step<V>)
    requires LocksMatchPhases(s) && MutualExclusion(s) && NextStep(c, s, t, step)
    ensures LocksMatchPhases(t) && MutualExclusion(t)
  {
    hide FilesAfter, ResultsAfter, LocksAfter, PhaseAfter, Enabled, LockOf, PhaseOf, EntryPath;
    StepFrame(c, s, t, step);
    LockEffect(c, s, step);
    forall p, q | p in t.locks && q in t.locks && p != q && t.locks[p].path == t.locks[q].path
      ensures t.locks[p].mode == Shared && t.locks[q].mode == Shared
    {
      if p != step.p && q != step.p {
        assert t.locks[p] == s.locks[p] && t.locks[q] == s.locks[q];
      }
    }
  }

  /** A process inside the write section of a key excludes readers of that key. */
  lemma WriterExcludesReader<V>(s: State<V>, p: Proc, q: Proc)
    requires LocksMatchPhases(s) && MutualExclusion(s)
    requires PhaseOf(s, p).PutWriting? && PhaseOf(s, q).GetReading?
    ensures PhaseOf(s, p).key != PhaseOf(s, q).key
  {
    assert LockOf(PhaseOf(s, p)).Some? && LockOf(PhaseOf(s, q)).Some?;
    assert p in s.locks && q in s.locks;
  }

  lemma PutsKept<V>(c: Codec<V>, s: State<V>, t: State<V>, step: Step<V>)
    requires NextStep(c, s, t, step)
    requires forall p: Proc :: PutOk(c, s, PhaseOf(s, p))
    ensures forall p: Proc :: PutOk(c, t, PhaseOf(t, p))
  {
    StepFrame(c, s, t, step);
    hide FilesAfter, LocksAfter, ResultsAfter;
    forall p: Proc ensures PutOk(c, t, PhaseOf(t, p)) {
      assert PutOk(c, s, PhaseOf(s, p));
      if p == step.p && step.BeginPut? && c.encode(step.value).Some? {
        assert (step.key, step.value) == t.history[|s.history|];
      }
    }
  }

  lemma OwnTempKept<V>(c: Codec<V>, s: State<V>, t: State<V>, step: Step<V>)
    requires NextStep(c, s, t, step)
    requires EntriesComplete(c, s) && TempsPrivate(s) && PhaseAfter(c, s, step).PutWriting?
    ensures var ph := PhaseAfter(c, s, step);
      && ph.inode in t.files && ph.written <= |ph.bytes|
      && t.files[ph.inode] == ph.bytes[..ph.written]
      && (forall path :: path in t.names ==> t.names[path] != ph.inode)
      && (forall q: Proc :: q != step.p && PhaseOf(s, q).PutWriting? ==> PhaseOf(s, q).inode != ph.inode)
  {
    hide LocksAfter, ResultsAfter, CanLockExclusive, CanLockShared, EntryPath;
    assert step.CreateTemp? || step.WriteChunk?;
    var ph := PhaseOf(s, step.p);
    assert forall path :: path in s.names ==> s.names[path] in s.files;
    if step.WriteChunk? {
      assert ph.bytes[..ph.written] + ph.bytes[ph.written..ph.written + step.n] == ph.bytes[..ph.written + step.n];
    }
  }

  lemma TempsKept<V>(c: Codec<V>, s: State<V>, t: State<V>, step: Step<V>)
    requires NextStep(c, s, t, step)
    requires EntriesComplete(c, s) && TempsPrivate(s)
    ensures TempsPrivate(t)
  {
    hide LocksAfter, ResultsAfter, FilesAfter, PhaseAfter, CanLockExclusive, CanLockShared, EntriesComplete, PhaseOf, EntryPath;
    StepFrame(c, s, t, step);
    FileEffect(s, step);
    if PhaseAfter(c, s, step).PutWriting? {
      OwnTempKept(c, s, t, step);
    }
  }

  lemma EntriesKept<V>(c: Codec<V>, s: State<V>, t: State<V>, step: Step<V>)
    requires NextStep(c, s, t, step) && Inv(c, s)
    ensures EntriesComplete(c, t)
  {
    StepFrame(c, s, t, step);
    FileEffect(s, step);
    hide LocksAfter, ResultsAfter, PhaseAfter, LocksMatchPhases, MutualExclusion, EntriesComplete, TempsPrivate;
    if step.Rename? {
      RenameEntries(c, s, t, step.p);
    } else {
      EntriesFrame(c, s, t, step.p);
    }
  }

  lemma EntriesFrame<V>(c: Codec<V>, s: State<V>, t: State<V>, p: Proc)
    requires EntriesComplete(c, s) && TempsPrivate(s)
    requires t.names == s.names && t.latest == s.latest && s.history <= t.history
    requires forall i :: i in s.files && !(PhaseOf(s, p).PutWriting? && PhaseOf(s, p).inode == i) ==>
      i in t.files && t.files[i] == s.files[i]
    ensures EntriesComplete(c, t)
  {
    hide PhaseOf, EntryPath;
  }

  lemma RenameEntries<V>(c: Codec<V>, s: State<V>, t: State<V>, p: Proc)
    requires EntriesComplete(c, s) && TempsPrivate(s)
    requires PhaseOf(s, p).PutWriting? && PutOk(c, s, PhaseOf(s, p))
    requires var ph := PhaseOf(s, p);
      && ph.written == |ph.bytes|
      && t.names == s.names[EntryPath(ph.key) := ph.inode] && t.latest == s.latest[ph.key := ph.value]
      && t.files == s.files && t.history == s.history
    ensures EntriesComplete(c, t)
  {
    hide PhaseOf, EntryPath;
    var ph := PhaseOf(s, p);
    forall k: Key ensures EntryPath(k) == EntryPath(ph.key) <==> k == ph.key {
      PathsDistinct(k, ph.key);
    }
    assert ph.bytes[..ph.written] == ph.bytes;
    assert ph.key in t.latest;
    forall path | path in t.names
      ensures exists k: Key :: k in t.latest && path == EntryPath(k)
    {
      if path != EntryPath(ph.key) {
        var k: Key :| k in s.latest && path == EntryPath(k);
        assert k in t.latest;
      }
    }
    forall k: Key
      ensures k in t.latest <==> EntryPath(k) in t.names
      ensures k in t.latest ==>
        && (k, t.latest[k]) in t.history && t.names[EntryPath(k)] in t.files
        && c.encode(t.latest[k]) == Some(t.files[t.names[EntryPath(k)]])
    {
      if k != ph.key {
        assert k in s.latest <==> EntryPath(k) in s.names;
      }
    }
  }

  lemma ReadersKept<V>(c: Codec<V>, s: State<V>, t: State<V>, step: Step<V>)
    requires NextStep(c, s, t, step) && Inv(c, s)
    ensures ReadersCurrent(t)
  {
    hide LocksAfter, ResultsAfter, PhaseAfter, FilesAfter, CanLockExclusive, CanLockShared, LocksMatchPhases,
      MutualExclusion, EntriesComplete, PhaseOf, EntryPath;
    StepFrame(c, s, t, step);
    FileEffect(s, step);
    forall q: Proc ensures ReaderCurrent(t, PhaseOf(t, q)) {
      assert ReaderCurrent(s, PhaseOf(s, q));
      if PhaseOf(t, q).GetReading? {
        if q == step.p {
          OwnReaderKept(c, s, t, step);
        } else if step.Rename? {
          WriterExcludesReader(s, step.p, q);
          PathsDistinct(PhaseOf(s, q).key, PhaseOf(s, step.p).key);
        }
      }
    }
  }

  lemma OwnReaderKept<V>(c: Codec<V>, s: State<V>, t: State<V>, step: Step<V>)
    requires NextStep(c, s, t, step) && EntriesComplete(c, s)
    requires ReaderCurrent(s, PhaseOf(s, step.p)) && PhaseAfter(c, s, step).GetReading?
    ensures ReaderCurrent(t, PhaseAfter(c, s, step))
  {
    hide LocksAfter, ResultsAfter, CanLockExclusive, CanLockShared, EntryPath;
    assert step.OpenEntry? || step.ReadChunk?;
  }

  lemma ResultsKept<V(!new)>(c: Codec<V>, s: State<V>, t: State<V>, step: Step<V>)
    requires Lawful(c) && NextStep(c, s, t, step) && Inv(c, s)
    ensures ResultsOk(t)
  {
    hide Lawful, LocksAfter, FilesAfter, PhaseAfter, LocksMatchPhases, MutualExclusion, EntriesComplete, TempsPrivate,
      ReadersCurrent;
    StepFrame(c, s, t, step);
    if step.FinishGet? {
      FinishReturnsLatest(c, s, step.p);
    }
  }

  /** A get that reads to the end returns the value last renamed into place under its key: no torn,
      stale or foreign value, however the writers interleave. */
  lemma FinishReturnsLatest<V(!new)>(c: Codec<V>, s: State<V>, p: Proc)
    requires Lawful(c) && Inv(c, s)
    requires var ph := PhaseOf(s, p);
      ph.GetReading? && ph.inode in s.files && |ph.data| >= |s.files[ph.inode]|
    ensures var ph := PhaseOf(s, p);
      && ph.key in s.latest && (ph.key, s.latest[ph.key]) in s.history
      && c.decode(ph.data) == Some(s.latest[ph.key])
  {
    var ph := PhaseOf(s, p);
    assert ReaderCurrent(s, ph);
    assert ph.data == s.files[ph.inode];
    assert ph.key in s.latest;
  }

  lemma InvKept<V(!new)>(c: Codec<V>, s: State<V>, t: State<V>)
    requires Lawful(c) && Inv(c, s) && Next(c, s, t)
    ensures Inv(c, t)
  {
    hide Lawful, LocksMatchPhases, MutualExclusion, EntriesComplete, TempsPrivate, ReadersCurrent, ResultsOk;
    var step :| NextStep(c, s, t, step);
    LocksKept(c, s, t, step);
    PutsKept(c, s, t, step);
    TempsKept(c, s, t, step);
    EntriesKept(c, s, t, step);
    ReadersKept(c, s, t, step);
    ResultsKept(c, s, t, step);
  }

  lemma {:induction false} InvHolds<V(!new)>(c: Codec<V>, run: seq<State<V>>, i: nat)
    requires Lawful(c) && Run(c, run) && i < |run|
    ensures Inv(c, run[i])
  {
    hide Lawful, Next;
    if i == 0 {
      InitInv(c, run[0]);
    } else {
      InvHolds(c, run, i - 1);
      assert Next(c, run[i - 1], run[i - 1 + 1]);
      InvKept(c, run[i - 1], run[i]);
    }
  }

  lemma InitInv<V>(c: Codec<V>, s: State<V>)
    requires Init(s)
    ensures Inv(c, s)
  {
  }

  // ----- Safety of whole runs -----

  /** In every reachable state an entry file is absent, or it is the complete encoding of a value put
      earlier under its own tool and key. */
  lemma EntryAbsentOrComplete<V(!new)>(c: Codec<V>, run: seq<State<V>>, i: nat, key: Key)
    requires Lawful(c) && Run(c, run) && i < |run|
    ensures var s := run[i];
      EntryPath(key) in s.names ==>
        && s.names[EntryPath(key)] in s.files
        && exists v :: (key, v) in s.history && c.encode(v) == Some(s.files[s.names[EntryPath(key)]])
  {
    hide Lawful, Run;
    InvHolds(c, run, i);
    if EntryPath(key) in run[i].names {
      assert key in run[i].latest;
      assert (key, run[i].latest[key]) in run[i].history;
    }
  }

  /** Every get returns nothing, or a value that was put under the same tool and key. */
  lemma GetsReturnPutValues<V(!new)>(c: Codec<V>, run: seq<State<V>>, i: nat, r: nat)
    requires Lawful(c) && Run(c, run) && i < |run| && r < |run[i].results|
    ensures var (key, result) := run[i].results[r];
      result.None? || (key, result.value) in run[i].history
  {
    hide Lawful, Run;
    InvHolds(c, run, i);
  }

  /** A get that completes delivers the value of the latest rename under its key: the cache behaves as
      one register per key, written at the rename and read at the end of the get. */
  lemma CompletedGetReturnsLatest<V(!new)>(c: Codec<V>, run: seq<State<V>>, i: nat, p: Proc)
    requires Lawful(c) && Run(c, run) && i + 1 < |run| && NextStep(c, run[i], run[i + 1], FinishGet(p))
    ensures var key := PhaseOf(run[i], p).key;
      && key in run[i].latest
      && run[i + 1].results == run[i].results + [(key, Some(run[i].latest[key]))]
  {
    hide Lawful, Run;
    InvHolds(c, run, i);
    FinishReturnsLatest(c, run[i], p);
  }

  /** An exclusive holder of a lock file never coexists with another holder. */
  lemma ExclusiveHolderIsAlone<V(!new)>(c: Codec<V>, run: seq<State<V>>, i: nat, p: Proc, q: Proc)
    requires Lawful(c) && Run(c, run) && i < |run|
    requires var s := run[i]; p in s.locks && q in s.locks && p != q && s.locks[p].mode == Exclusive
    ensures run[i].locks[p].path != run[i].locks[q].path
  {
    hide Lawful, Run;
    InvHolds(c, run, i);
  }

  /** The bytes found under a key. */
  function Entry<V>(s: State<V>, key: Key): Option<Bytes> {
    if EntryPath(key) in s.names && s.names[EntryPath(key)] in s.files
    then Some(s.files[s.names[EntryPath(key)]]) else None
  }

  /** An entry changes only when a put under the very same key renames its file into place; every
      other step, and every step of a put under another key, leaves it as it is. */
  lemma EntryChangesOnlyByRename<V(!new)>(c: Codec<V>, run: seq<State<V>>, i: nat, step: Step<V>, key: Key)
    requires Lawful(c) && Run(c, run) && i + 1 < |run| && NextStep(c, run[i], run[i + 1], step)
    ensures var s, t := run[i], run[i + 1];
      if step.Rename? && PhaseOf(s, step.p).key == key
      then Entry(t, key) == c.encode(PhaseOf(s, step.p).value)
      else Entry(t, key) == Entry(s, key)
  {
    hide Lawful, Run, Inv, Entry, NextStep;
    InvHolds(c, run, i);
    EntryStep(c, run[i], run[i + 1], step, key);
  }

  lemma EntryStep<V>(c: Codec<V>, s: State<V>, t: State<V>, step: Step<V>, key: Key)
    requires Inv(c, s) && NextStep(c, s, t, step)
    ensures if step.Rename? && PhaseOf(s, step.p).key == key
      then Entry(t, key) == c.encode(PhaseOf(s, step.p).value)
      else Entry(t, key) == Entry(s, key)
  {
    hide LocksAfter, ResultsAfter, PhaseAfter, FilesAfter, LocksMatchPhases, MutualExclusion, EntriesComplete, TempsPrivate,
      CanLockExclusive, CanLockShared, EntryPath, LockPath, ReadersCurrent, ResultsOk;
    FileEffect(s, step);
    if step.Rename? {
      var ph := PhaseOf(s, step.p);
      PathsDistinct(key, ph.key);
      RenameKeepsFiles(s, step);
      assert PutOk(c, s, ph);
      TempHolds(s, step.p);
      assert ph.bytes[..ph.written] == ph.bytes;
    } else {
      EntryFrame(c, s, t, step.p, key);
    }
  }

  lemma RenameKeepsFiles<V>(s: State<V>, step: Step<V>)
    requires Enabled(s, step) && step.Rename?
    ensures FilesAfter(s, step) == s.files
  {
  }

  lemma TempHolds<V>(s: State<V>, p: Proc)
    requires TempsPrivate(s) && PhaseOf(s, p).PutWriting?
    ensures var ph := PhaseOf(s, p);
      ph.inode in s.files && ph.written <= |ph.bytes| && s.files[ph.inode] == ph.bytes[..ph.written]
  {
  }

  lemma EntryFrame<V>(c: Codec<V>, s: State<V>, t: State<V>, p: Proc, key: Key)
    requires EntriesComplete(c, s) && TempsPrivate(s) && t.names == s.names
    requires forall i :: i in s.files && !(PhaseOf(s, p).PutWriting? && PhaseOf(s, p).inode == i) ==>
      i in t.files && t.files[i] == s.files[i]
    ensures Entry(t, key) == Entry(s, key)
  {
    hide PhaseOf, EntryPath;
    assert key in s.latest <==> EntryPath(key) in s.names;
  }

  /** While a reader holds its lock, no step of any process changes the entry it is reading. */
  lemma ReaderViewIsStable<V(!new)>(c: Codec<V>, run: seq<State<V>>, i: nat, p: Proc)
    requires Lawful(c) && Run(c, run) && i + 1 < |run|
    requires PhaseOf(run[i], p).GetReading?
    ensures Entry(run[i + 1], PhaseOf(run[i], p).key) == Entry(run[i], PhaseOf(run[i], p).key)
  {
    hide Lawful, Run, Entry;
    InvHolds(c, run, i);
    assert Next(c, run[i], run[i + 1]) by { RunStep(c, run, i); }
    var step :| NextStep(c, run[i], run[i + 1], step);
    EntryChangesOnlyByRename(c, run, i, step, PhaseOf(run[i], p).key);
    if step.Rename? {
      WriterExcludesReader(run[i], step.p, p);
    }
  }

  lemma RunStep<V(!new)>(c: Codec<V>, run: seq<State<V>>, i: nat)
    requires Run(c, run) && i + 1 < |run|
    ensures Next(c, run[i], run[i + 1])
  {
  }

  // ----- Calls that meet no failure -----

  /** The steps taken in turn; nothing when one of them cannot be taken. */
  function Exec<V>(c: Codec<V>, s: State<V>, steps: seq<Step<V>>): Option<State<V>>
    decreases |steps|
  {
    if steps == [] then Some(s)
    else if Enabled(s, steps[0]) then Exec(c, After(c, s, steps[0]), steps[1..])
    else None
  }

  lemma ExecStep<V>(c: Codec<V>, s: State<V>, step: Step<V>, rest: seq<Step<V>>)
    requires Enabled(s, step)
    ensures Exec(c, s, [step] + rest) == Exec(c, After(c, s, step), rest)
  {
    assert ([step] + rest)[1..] == rest;
  }

  lemma {:induction false} ExecConcat<V>(c: Codec<V>, s: State<V>, a: seq<Step<V>>, b: seq<Step<V>>)
    requires Exec(c, s, a).Some?
    ensures Exec(c, s, a + b) == Exec(c, Exec(c, s, a).value, b)
    decreases |a|
  {
    hide Enabled, After;
    if a == [] {
      assert a + b == b;
    } else {
      assert (a + b)[1..] == a[1..] + b;
      ExecConcat(c, After(c, s, a[0]), a[1..], b);
    }
  }

  lemma {:induction false} ExecKeepsInv<V(!new)>(c: Codec<V>, s: State<V>, steps: seq<Step<V>>)
    requires Lawful(c) && Inv(c, s) && Exec(c, s, steps).Some?
    ensures Inv(c, Exec(c, s, steps).value)
    decreases |steps|
  {
    hide Lawful, Inv, Enabled, After;
    if steps != [] {
      var t := After(c, s, steps[0]);
      assert NextStep(c, s, t, steps[0]);
      InvKept(c, s, t);
      ExecKeepsInv(c, t, steps[1..]);
    }
  }

  /** A whole `put` and a whole `get`. */
  function PutSteps<V>(p: Proc, key: Key, value: V, inode: Inode, size: nat): seq<Step<V>> {
    [BeginPut(p, key, value), LockPut(p), CreateTemp(p, inode), WriteChunk(p, size), Rename(p), FinishPut(p)]
  }

  function GetSteps<V>(p: Proc, key: Key, size: nat): seq<Step<V>> {
    [BeginGet(p, key), LockGet(p), OpenEntry(p), ReadChunk(p, size), FinishGet(p)]
  }

  function MissSteps<V>(p: Proc, key: Key): seq<Step<V>> {
    [BeginGet(p, key), LockGet(p), OpenEntry(p)]
  }

  /** Nobody but `p` holds the lock of the key's directory. */
  ghost predicate Unlocked<V>(s: State<V>, p: Proc, key: Key) {
    forall q :: q in s.locks && q != p ==> s.locks[q].path != LockPath(key)
  }

  /** The state with another phase and another lock for `p`. */
  function At<V>(s: State<V>, p: Proc, ph: Phase<V>, lock: Option<Lock>): State<V> {
    s.(phases := s.phases[p := ph], locks := if lock.Some? then s.locks[p := lock.value] else s.locks - {p})
  }

  lemma AtAgain<V>(s: State<V>, p: Proc, ph: Phase<V>, lock: Option<Lock>, ph': Phase<V>, lock': Option<Lock>)
    ensures At(At(s, p, ph, lock), p, ph', lock') == At(s, p, ph', lock')
    ensures PhaseOf(At(s, p, ph, lock), p) == ph
  {
    assert s.phases[p := ph][p := ph'] == s.phases[p := ph'];
    var a := At(s, p, ph, lock).locks;
    assert a - {p} == s.locks - {p};
    assert lock'.Some? ==> a[p := lock'.value] == s.locks[p := lock'.value];
  }

  function Ex(key: Key): Option<Lock> {
    Some(Lock(LockPath(key), Exclusive))
  }

  function Sh(key: Key): Option<Lock> {
    Some(Lock(LockPath(key), Shared))
  }

  lemma BeginPutStep<V>(c: Codec<V>, s: State<V>, p: Proc, key: Key, value: V, bytes: Bytes)
    requires PhaseOf(s, p).Idle? && p !in s.locks && c.encode(value) == Some(bytes)
    ensures NextStep(c, s, At(s.(history := s.history + [(key, value)]), p, PutReady(key, value, bytes), None), BeginPut(p, key, value))
  {
    assert s.locks - {p} == s.locks;
  }

  lemma LockPutStep<V>(c: Codec<V>, s: State<V>, p: Proc, key: Key, value: V, bytes: Bytes)
    requires PhaseOf(s, p) == PutReady(key, value, bytes) && Unlocked(s, p, key)
    ensures NextStep(c, s, At(s, p, PutLocked(key, value, bytes), Ex(key)), LockPut(p))
  {
    hide LockPath, EntryPath;
  }

  lemma CreateTempStep<V>(c: Codec<V>, s: State<V>, p: Proc, key: Key, value: V, bytes: Bytes, inode: Inode)
    requires PhaseOf(s, p) == PutLocked(key, value, bytes) && inode !in s.files
    requires p in s.locks && Some(s.locks[p]) == Ex(key)
    ensures NextStep(c, s, At(s.(files := s.files[inode := []]), p, PutWriting(key, value, bytes, inode, 0), Ex(key)), CreateTemp(p, inode))
  {
    hide LockPath, EntryPath;
    assert s.locks[p := s.locks[p]] == s.locks;
  }

  lemma WriteAllStep<V>(c: Codec<V>, s: State<V>, p: Proc, key: Key, value: V, bytes: Bytes, inode: Inode)
    requires PhaseOf(s, p) == PutWriting(key, value, bytes, inode, 0)
    requires inode in s.files && s.files[inode] == []
    requires p in s.locks && Some(s.locks[p]) == Ex(key)
    ensures NextStep(c, s, At(s.(files := s.files[inode := bytes]), p, PutWriting(key, value, bytes, inode, |bytes|), Ex(key)), WriteChunk(p, |bytes|))
  {
    hide LockPath, EntryPath;
    assert s.locks[p := s.locks[p]] == s.locks;
    assert [] + bytes[0..0 + |bytes|] == bytes;
  }

  lemma RenameStep<V>(c: Codec<V>, s: State<V>, p: Proc, key: Key, value: V, bytes: Bytes, inode: Inode)
    requires PhaseOf(s, p) == PutWriting(key, value, bytes, inode, |bytes|)
    requires p in s.locks && Some(s.locks[p]) == Ex(key)
    ensures NextStep(c, s, At(s.(names := s.names[EntryPath(key) := inode], latest := s.latest[key := value]), p, PutRenamed(key), Ex(key)), Rename(p))
  {
    hide LockPath, EntryPath;
    assert s.locks[p := s.locks[p]] == s.locks;
  }

  lemma FinishPutStep<V>(c: Codec<V>, s: State<V>, p: Proc, key: Key)
    requires PhaseOf(s, p) == PutRenamed(key)
    ensures NextStep(c, s, At(s, p, Idle, None), FinishPut(p))
  {
    hide LockPath, EntryPath;
  }

  lemma BeginGetStep<V>(c: Codec<V>, s: State<V>, p: Proc, key: Key)
    requires PhaseOf(s, p).Idle? && p !in s.locks
    ensures NextStep(c, s, At(s, p, GetReady(key), None), BeginGet(p, key))
  {
    hide LockPath, EntryPath;
    assert s.locks - {p} == s.locks;
  }

  lemma LockGetStep<V>(c: Codec<V>, s: State<V>, p: Proc, key: Key)
    requires PhaseOf(s, p) == GetReady(key) && Unlocked(s, p, key)
    ensures NextStep(c, s, At(s, p, GetLocked(key), Sh(key)), LockGet(p))
  {
    hide LockPath, EntryPath;
  }

  lemma OpenHitStep<V>(c: Codec<V>, s: State<V>, p: Proc, key: Key, inode: Inode)
    requires PhaseOf(s, p) == GetLocked(key) && EntryPath(key) in s.names && s.names[EntryPath(key)] == inode
    requires p in s.locks && Some(s.locks[p]) == Sh(key)
    ensures NextStep(c, s, At(s, p, GetReading(key, inode, []), Sh(key)), OpenEntry(p))
  {
    hide LockPath, EntryPath;
    assert s.locks[p := s.locks[p]] == s.locks;
  }

  lemma OpenMissStep<V>(c: Codec<V>, s: State<V>, p: Proc, key: Key)
    requires PhaseOf(s, p) == GetLocked(key) && EntryPath(key) !in s.names
    ensures NextStep(c, s, At(s.(results := s.results + [(key, None)]), p, Idle, None), OpenEntry(p))
  {
    hide LockPath, EntryPath;
  }

  lemma ReadAllStep<V>(c: Codec<V>, s: State<V>, p: Proc, key: Key, inode: Inode)
    requires PhaseOf(s, p) == GetReading(key, inode, []) && inode in s.files
    requires p in s.locks && Some(s.locks[p]) == Sh(key)
    ensures NextStep(c, s, At(s, p, GetReading(key, inode, s.files[inode]), Sh(key)), ReadChunk(p, |s.files[inode]|))
  {
    hide LockPath, EntryPath;
    assert s.locks[p := s.locks[p]] == s.locks;
    assert [] + s.files[inode][0..0 + |s.files[inode]|] == s.files[inode];
  }

  lemma FinishGetStep<V>(c: Codec<V>, s: State<V>, p: Proc, key: Key, inode: Inode, data: Bytes)
    requires PhaseOf(s, p) == GetReading(key, inode, data) && inode in s.files && s.files[inode] == data
    ensures NextStep(c, s, At(s.(results := s.results + [(key, c.decode(data))]), p, Idle, None), FinishGet(p))
  {
    hide LockPath, EntryPath;
  }

  /** The state in which a put has just created its temporary file. */
  function WithTemp<V>(s: State<V>, p: Proc, key: Key, value: V, bytes: Bytes, inode: Inode): State<V> {
    At(s.(files := s.files[inode := []], history := s.history + [(key, value)]), p, PutWriting(key, value, bytes, inode, 0), Ex(key))
  }

  lemma PutStarts<V>(c: Codec<V>, s: State<V>, p: Proc, key: Key, value: V, bytes: Bytes, inode: Inode)
    requires CanPut(s, p, key, inode) && c.encode(value) == Some(bytes)
    ensures Exec(c, s, [BeginPut(p, key, value), LockPut(p), CreateTemp(p, inode)]) ==
      Some(WithTemp(s, p, key, value, bytes, inode))
  {
    hide EntryPath, LockPath, NextStep, Exec;
    var h := s.(history := s.history + [(key, value)]);
    BeginPutStep(c, s, p, key, value, bytes);
    var s1 := At(h, p, PutReady(key, value, bytes), None);
    LockPutStep(c, s1, p, key, value, bytes);
    AtAgain(h, p, PutReady(key, value, bytes), None, PutLocked(key, value, bytes), Ex(key));
    var s2 := At(h, p, PutLocked(key, value, bytes), Ex(key));
    CreateTempStep(c, s2, p, key, value, bytes, inode);
    AtAgain(s2.(files := s2.files[inode := []]), p, PutLocked(key, value, bytes), Ex(key), PutWriting(key, value, bytes, inode, 0), Ex(key));
    AtAgain(h.(files := s.files[inode := []]), p, PutLocked(key, value, bytes), Ex(key), PutWriting(key, value, bytes, inode, 0), Ex(key));
    ThreeSteps(c, s, s1, s2, WithTemp(s, p, key, value, bytes, inode),
               BeginPut(p, key, value), LockPut(p), CreateTemp(p, inode));
  }

  lemma ThreeSteps<V>(c: Codec<V>, s: State<V>, s1: State<V>, s2: State<V>, s3: State<V>, a: Step<V>, b: Step<V>, d: Step<V>)
    requires NextStep(c, s, s1, a) && NextStep(c, s1, s2, b) && NextStep(c, s2, s3, d)
    ensures Exec(c, s, [a, b, d]) == Some(s3)
  {
    hide Enabled, After, Exec;
    ExecStep(c, s2, d, []);
    ExecStep(c, s1, b, [d]);
    ExecStep(c, s, a, [b, d]);
    assert [d] + [] == [d] && [b] + [d] == [b, d] && [a] + [b, d] == [a, b, d];
    ExecNothing(c, s3);
  }

  lemma ExecNothing<V>(c: Codec<V>, s: State<V>)
    ensures Exec(c, s, []) == Some(s)
  {
  }

  /** What a whole put leaves behind. */
  function Stored<V>(s: State<V>, p: Proc, key: Key, value: V, bytes: Bytes, inode: Inode): State<V> {
    At(s.(names := s.names[EntryPath(key) := inode], files := s.files[inode := bytes],
          latest := s.latest[key := value], history := s.history + [(key, value)]), p, Idle, None)
  }

  lemma PutEnds<V>(c: Codec<V>, s: State<V>, p: Proc, key: Key, value: V, bytes: Bytes, inode: Inode)
    ensures Exec(c, WithTemp(s, p, key, value, bytes, inode), [WriteChunk(p, |bytes|), Rename(p), FinishPut(p)]) ==
      Some(Stored(s, p, key, value, bytes, inode))
  {
    hide EntryPath, LockPath, NextStep, Exec;
    var h := s.(history := s.history + [(key, value)]);
    var u := WithTemp(s, p, key, value, bytes, inode);
    var writing, written := PutWriting(key, value, bytes, inode, 0), PutWriting(key, value, bytes, inode, |bytes|);
    WriteAllStep(c, u, p, key, value, bytes, inode);
    assert s.files[inode := []][inode := bytes] == s.files[inode := bytes];
    var f := h.(files := s.files[inode := bytes]);
    AtAgain(f, p, writing, Ex(key), written, Ex(key));
    var u1 := At(f, p, written, Ex(key));
    RenameStep(c, u1, p, key, value, bytes, inode);
    var n := f.(names := s.names[EntryPath(key) := inode], latest := s.latest[key := value]);
    AtAgain(n, p, written, Ex(key), PutRenamed(key), Ex(key));
    var u2 := At(n, p, PutRenamed(key), Ex(key));
    FinishPutStep(c, u2, p, key);
    AtAgain(n, p, PutRenamed(key), Ex(key), Idle, None);
    ThreeSteps(c, u, u1, u2, Stored(s, p, key, value, bytes, inode), WriteChunk(p, |bytes|), Rename(p), FinishPut(p));
  }

  /** An idle process that can run a put with a fresh temporary file. */
  ghost predicate CanPut<V>(s: State<V>, p: Proc, key: Key, inode: Inode) {
    PhaseOf(s, p).Idle? && p !in s.locks && Unlocked(s, p, key) && inode !in s.files
  }

  /** A put that meets no failure can run to its end whenever nobody else holds the directory, and then
      its value is the entry. */
  lemma PutStores<V>(c: Codec<V>, s: State<V>, p: Proc, key: Key, value: V, bytes: Bytes, inode: Inode)
    requires CanPut(s, p, key, inode) && c.encode(value) == Some(bytes)
    ensures Exec(c, s, PutSteps(p, key, value, inode, |bytes|)) == Some(Stored(s, p, key, value, bytes, inode))
    ensures Entry(Stored(s, p, key, value, bytes, inode), key) == Some(bytes)
  {
    hide PhaseOf, Unlocked, Exec, EntryPath, LockPath, WithTemp, CanPut;
    PutStarts(c, s, p, key, value, bytes, inode);
    PutEnds(c, s, p, key, value, bytes, inode);
    var first: seq<Step<V>> := [BeginPut(p, key, value), LockPut(p), CreateTemp(p, inode)];
    var second: seq<Step<V>> := [WriteChunk(p, |bytes|), Rename(p), FinishPut(p)];
    ExecConcat(c, s, first, second);
    assert first + second == PutSteps(p, key, value, inode, |bytes|);
  }

  /** What a whole get leaves behind. */
  function Answered<V>(s: State<V>, p: Proc, key: Key, result: Option<V>): State<V> {
    At(s.(results := s.results + [(key, result)]), p, Idle, None)
  }

  lemma GetMisses<V>(c: Codec<V>, s: State<V>, p: Proc, key: Key)
    requires PhaseOf(s, p).Idle? && p !in s.locks && Unlocked(s, p, key) && EntryPath(key) !in s.names
    ensures Exec(c, s, MissSteps(p, key)) == Some(Answered(s, p, key, None))
  {
    hide EntryPath, LockPath, NextStep, Exec;
    BeginGetStep(c, s, p, key);
    var s1 := At(s, p, GetReady(key), None);
    LockGetStep(c, s1, p, key);
    AtAgain(s, p, GetReady(key), None, GetLocked(key), Sh(key));
    var s2 := At(s, p, GetLocked(key), Sh(key));
    OpenMissStep(c, s2, p, key);
    AtAgain(s.(results := s.results + [(key, None)]), p, GetLocked(key), Sh(key), Idle, None);
    ThreeSteps(c, s, s1, s2, Answered(s, p, key, None), BeginGet(p, key), LockGet(p), OpenEntry(p));
  }

  lemma GetOpens<V>(c: Codec<V>, s: State<V>, p: Proc, key: Key, inode: Inode)
    requires PhaseOf(s, p).Idle? && p !in s.locks && Unlocked(s, p, key)
    requires EntryPath(key) in s.names && s.names[EntryPath(key)] == inode
    ensures Exec(c, s, MissSteps(p, key)) == Some(At(s, p, GetReading(key, inode, []), Sh(key)))
  {
    hide EntryPath, LockPath, NextStep, Exec;
    BeginGetStep(c, s, p, key);
    var s1 := At(s, p, GetReady(key), None);
    LockGetStep(c, s1, p, key);
    AtAgain(s, p, GetReady(key), None, GetLocked(key), Sh(key));
    var s2 := At(s, p, GetLocked(key), Sh(key));
    OpenHitStep(c, s2, p, key, inode);
    AtAgain(s, p, GetLocked(key), Sh(key), GetReading(key, inode, []), Sh(key));
    ThreeSteps(c, s, s1, s2, At(s, p, GetReading(key, inode, []), Sh(key)), BeginGet(p, key), LockGet(p), OpenEntry(p));
  }

  /** A get that meets no failure can run to its end whenever nobody else holds the directory, and then
      returns what the entry decodes to. */
  lemma GetHits<V>(c: Codec<V>, s: State<V>, p: Proc, key: Key, bytes: Bytes)
    requires PhaseOf(s, p).Idle? && p !in s.locks && Unlocked(s, p, key) && Entry(s, key) == Some(bytes)
    ensures Exec(c, s, GetSteps(p, key, |bytes|)) == Some(Answered(s, p, key, c.decode(bytes)))
  {
    hide EntryPath, LockPath, NextStep, Exec, Unlocked;
    var inode := s.names[EntryPath(key)];
    GetOpens(c, s, p, key, inode);
    var reading, read := GetReading(key, inode, []), GetReading(key, inode, bytes);
    var s3 := At(s, p, reading, Sh(key));
    ReadAllStep(c, s3, p, key, inode);
    AtAgain(s, p, reading, Sh(key), read, Sh(key));
    var s4 := At(s, p, read, Sh(key));
    FinishGetStep(c, s4, p, key, inode, bytes);
    AtAgain(s.(results := s.results + [(key, c.decode(bytes))]), p, read, Sh(key), Idle, None);
    GetTail(c, s, s3, s4, Answered(s, p, key, c.decode(bytes)), p, key, |bytes|);
  }

  lemma GetTail<V>(c: Codec<V>, s: State<V>, s3: State<V>, s4: State<V>, t: State<V>, p: Proc, key: Key, size: nat)
    requires Exec(c, s, MissSteps(p, key)) == Some(s3)
    requires NextStep(c, s3, s4, ReadChunk(p, size)) && NextStep(c, s4, t, FinishGet(p))
    ensures Exec(c, s, GetSteps(p, key, size)) == Some(t)
  {
    hide Enabled, After, Exec;
    var last: seq<Step<V>>, end: seq<Step<V>> := [ReadChunk(p, size), FinishGet(p)], [FinishGet(p)];
    ExecNothing(c, t);
    ExecStep(c, s4, FinishGet(p), []);
    ExecStep(c, s3, ReadChunk(p, size), end);
    assert end + [] == end && [ReadChunk(p, size)] + end == last;
    ExecConcat(c, s, MissSteps(p, key), last);
    assert MissSteps(p, key) + last == GetSteps(p, key, size);
  }

  /** What is put is got: from any state in which nobody else holds the directory, a put followed by a
      get of the same key, by the same or by another process, returns the value put. A value that cannot
      be encoded is dropped and changes nothing. */
  lemma PutThenGet<V(!new)>(c: Codec<V>, s: State<V>, p: Proc, q: Proc, key: Key, value: V, inode: Inode)
    requires Lawful(c) && CanPut(s, p, key, inode) && PhaseOf(s, q).Idle? && q !in s.locks
    ensures c.encode(value).Some? ==>
      var size := |c.encode(value).value|;
      var end := Exec(c, s, PutSteps(p, key, value, inode, size) + GetSteps(q, key, size));
      end.Some? && end.value.results == s.results + [(key, Some(value))]
    ensures c.encode(value).None? ==> Exec(c, s, [BeginPut(p, key, value)]) == Some(At(s, p, Idle, None))
  {
    hide Exec, PutSteps, GetSteps, EntryPath, LockPath;
    if c.encode(value).Some? {
      var bytes := c.encode(value).value;
      var t := Stored(s, p, key, value, bytes, inode);
      PutStores(c, s, p, key, value, bytes, inode);
      assert PhaseOf(t, q).Idle? && Unlocked(t, q, key);
      GetHits(c, t, q, key, bytes);
      ExecConcat(c, s, PutSteps(p, key, value, inode, |bytes|), GetSteps(q, key, |bytes|));
    } else {
      PutDropped(c, s, p, key, value);
    }
  }

  lemma PutDropped<V>(c: Codec<V>, s: State<V>, p: Proc, key: Key, value: V)
    requires PhaseOf(s, p).Idle? && c.encode(value).None?
    ensures Exec(c, s, [BeginPut(p, key, value)]) == Some(At(s, p, Idle, None))
  {
    var t := After(c, s, BeginPut(p, key, value));
    var steps: seq<Step<V>> := [BeginPut(p, key, value)];
    ExecStep(c, s, BeginPut(p, key, value), []);
    assert steps + [] == steps;
    ExecNothing(c, t);
  }

  /** In every reachable state a get that meets no failure returns the value of the latest rename under
      its key, and nothing exactly when there was none. */
  lemma QuietGetReturnsLatest<V(!new)>(c: Codec<V>, run: seq<State<V>>, i: nat, p: Proc, key: Key)
    requires Lawful(c) && Run(c, run) && i < |run| && PhaseOf(run[i], p).Idle? && Unlocked(run[i], p, key)
    ensures var s := run[i];
      if key in s.latest
      then c.encode(s.latest[key]).Some? &&
           Exec(c, s, GetSteps(p, key, |c.encode(s.latest[key]).value|)) == Some(Answered(s, p, key, Some(s.latest[key])))
      else Exec(c, s, MissSteps(p, key)) == Some(Answered(s, p, key, None))
  {
    hide Run, Exec, GetSteps, MissSteps, EntryPath, LockPath, MutualExclusion, TempsPrivate, ReadersCurrent, Unlocked;
    var s := run[i];
    InvHolds(c, run, i);
    assert LockOf(PhaseOf(s, p)).None?;
    assert key in s.latest <==> EntryPath(key) in s.names;
    if key in s.latest {
      GetHits(c, s, p, key, c.encode(s.latest[key]).value);
    } else {
      GetMisses(c, s, p, key);
    }
  }

  /** A process between calls holds no lock, and a put that fails leaves every entry as it was and
      removes its temporary file. */
  lemma CallsCleanUp<V(!new)>(c: Codec<V>, run: seq<State<V>>, i: nat, p: Proc)
    requires Lawful(c) && Run(c, run) && i < |run|
    ensures PhaseOf(run[i], p).Idle? ==> p !in run[i].locks
    ensures i + 1 < |run| && NextStep(c, run[i], run[i + 1], FailPut(p)) ==>
      var s, t := run[i], run[i + 1];
      && p !in t.locks
      && (forall key: Key :: Entry(t, key) == Entry(s, key))
      && (PhaseOf(s, p).PutWriting? ==> t.files == s.files - {PhaseOf(s, p).inode})
  {
    hide Run, Lawful, Entry;
    InvHolds(c, run, i);
    if i + 1 < |run| && NextStep(c, run[i], run[i + 1], FailPut(p)) {
      forall key: Key ensures Entry(run[i + 1], key) == Entry(run[i], key) {
        EntryChangesOnlyByRename(c, run, i, FailPut(p), key);
      }
    }
  }

  /** Every get that comes to an end answers exactly once and under its own key; a failure, like a missing
      entry, answers with nothing. No other step adds an answer. */
  lemma GetsAnswerOnce<V>(c: Codec<V>, s: State<V>, t: State<V>, step: Step<V>)
    requires NextStep(c, s, t, step)
    ensures var ph := PhaseOf(s, step.p);
      if (ph.GetReady? || ph.GetLocked? || ph.GetReading?) && PhaseOf(t, step.p).Idle? && !step.Crash?
      then |t.results| == |s.results| + 1 && s.results <= t.results && t.results[|s.results|].0 == ph.key &&
           (step.FailGet? ==> t.results[|s.results|].1.None?)
      else t.results == s.results
  {
    hide EntryPath, LockPath, LocksAfter, FilesAfter;
  }
}
