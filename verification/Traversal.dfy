/** Filtering of walk entries by changed files, and single-pass subtree counts. */
module Traversal {
  import opened Text

  /** An absolute path as its components; `[]` is the file-system root. */
  type Path = seq<string>

  datatype WalkEntry = WalkEntry(path: Path, isDir: bool)

  // ----- Ancestors of changed files -----

  /** The directories above `p`, up to and including `root` when `p` lies below it. */
  predicate Above(root: Path, d: Path, p: Path) {
    d < p && (root < p ==> root <= d)
  }

  /** Reference: the root and all directories above changed files. */
  ghost predicate InClosure(root: Path, changed: set<Path>, d: Path) {
    d == root || exists p :: p in changed && Above(root, d, p)
  }

  /** Whatever lies above a directory already in the closure is in the closure too, so a climb that
      meets such a directory may stop. */
  lemma StopIsSafe(root: Path, changed: set<Path>, p: Path, parent: Path, d: Path)
    requires Above(root, parent, p) && InClosure(root, changed, parent)
    requires d < parent && Above(root, d, p)
    ensures InClosure(root, changed, d)
  {
    if parent != root {
      var q :| q in changed && Above(root, parent, q);
      assert d <= parent < q;
      if root < q {
        assert root <= parent && parent < p;
        assert root < p;
      }
      assert Above(root, d, q);
    }
  }

  lemma AboveParent(root: Path, cur: Path, p: Path)
    requires cur <= p && cur != [] && (cur == p || (Above(root, cur, p) && cur != root))
    ensures var parent := cur[..|cur| - 1];
      (root < p && |parent| < |root|) || Above(root, parent, p)
  {
    var parent := cur[..|cur| - 1];
    assert parent < cur;
    if root < p && |parent| >= |root| {
      assert parent == p[..|parent|] && root == p[..|root|];
      assert parent[..|root|] == root;
    }
  }

  /** The climb from one changed file, with its early exit. */
  method Climb(root: Path, p: Path, dirs: set<Path>, ghost changed: set<Path>) returns (grown: set<Path>)
    requires forall d :: d in dirs <==> InClosure(root, changed, d)
    ensures forall d :: d in grown <==> InClosure(root, changed + {p}, d)
  {
    grown := dirs;
    var cur := p;
    var stopped := false;
    while cur != [] && !stopped
      invariant cur <= p
      invariant forall d :: d in grown <==> d in dirs || (Above(root, d, p) && |d| >= |cur|)
      invariant !stopped ==> cur == p || (Above(root, cur, p) && cur != root)
      invariant stopped ==> forall d :: Above(root, d, p) ==> d in grown
      decreases |cur|, !stopped
    {
      var parent := cur[..|cur| - 1];
      ghost var before := grown;
      AboveParent(root, cur, p);
      NotAboveRoot(root, cur, p);
      assert Above(root, parent, p);
      OneLonger(root, cur, p);
      if parent in grown {
        assert parent in dirs;
        forall d | Above(root, d, p) ensures d in grown {
          if |d| < |parent| {
            assert d == p[..|d|] && parent == p[..|parent|];
            StopIsSafe(root, changed, p, parent, d);
          } else if |d| == |parent| {
            assert d == p[..|d|] == parent;
          }
        }
        stopped := true;
      } else {
        grown := grown + {parent};
        // The program also stops when the parent is the root; the root was inserted before any climb,
        // so the test above has stopped there already.
        if parent == root {
          assert false;
        }
        cur := parent;
      }
    }
    if cur == [] && !stopped {
      assert forall d :: Above(root, d, p) ==> |d| >= |cur|;
    }
    forall d ensures d in grown <==> InClosure(root, changed + {p}, d) {
      ClosureGrows(root, changed, p, d);
    }
  }

  /** A climb that has not met the root is not yet above it. */
  lemma NotAboveRoot(root: Path, cur: Path, p: Path)
    requires cur <= p && cur != [] && (cur == p || (Above(root, cur, p) && cur != root))
    ensures !(root < p && |cur| - 1 < |root|)
  {
    if root < p && cur != p {
      assert root <= cur && cur != root;
    }
  }

  lemma OneLonger(root: Path, cur: Path, p: Path)
    requires cur <= p && cur != []
    ensures forall d :: Above(root, d, p) && |d| >= |cur| - 1 ==> |d| >= |cur| || d == cur[..|cur| - 1]
  {
    forall d | Above(root, d, p) && |d| == |cur| - 1 ensures d == cur[..|cur| - 1] {
      assert d == p[..|d|] && cur == p[..|cur|];
    }
  }

  lemma ClosureGrows(root: Path, changed: set<Path>, p: Path, d: Path)
    ensures InClosure(root, changed + {p}, d) <==> InClosure(root, changed, d) || Above(root, d, p)
  {
    if q :| q in changed + {p} && Above(root, d, q) {
      assert q == p || q in changed;
    }
    if q :| q in changed && Above(root, d, q) {
      assert q in changed + {p};
    }
    assert p in changed + {p};
  }

  /** `ancestor_dirs`: the changed set is visited in any order. */
  method AncestorDirs(root: Path, changed: set<Path>) returns (dirs: set<Path>)
    ensures forall d :: d in dirs <==> InClosure(root, changed, d)
  {
    dirs := {root};
    var todo := changed;
    assert changed - todo == {};
    while todo != {}
      invariant todo <= changed
      invariant forall d :: d in dirs <==> InClosure(root, changed - todo, d)
      decreases todo
    {
      var p :| p in todo;
      dirs := Climb(root, p, dirs, changed - todo);
      assert changed - (todo - {p}) == (changed - todo) + {p};
      todo := todo - {p};
    }
    assert changed - todo == changed;
  }

  /** At or below the root the closure is what it should be: the root and the proper ancestors of
      changed files; and it is closed under taking parents. */
  lemma ClosureAtRoot(root: Path, changed: set<Path>, d: Path)
    requires root <= d
    ensures InClosure(root, changed, d) <==> d == root || exists p :: p in changed && d < p
    ensures InClosure(root, changed, d) && d != root ==> InClosure(root, changed, d[..|d| - 1])
  {
    if p :| p in changed && d < p {
      assert Above(root, d, p);
    }
    if InClosure(root, changed, d) && d != root {
      var parent := d[..|d| - 1];
      var p :| p in changed && Above(root, d, p);
      assert parent < d && d < p;
      assert root <= parent by { assert d[..|root|] == parent[..|root|]; }
      assert Above(root, parent, p);
    }
  }

  /** Reference for the filter: a file is kept when it changed, a directory when it is in the closure. */
  ghost predicate Keep(root: Path, changed: set<Path>, canonical: Path -> Path, e: WalkEntry) {
    if e.isDir then InClosure(root, changed, canonical(e.path)) else canonical(e.path) in changed
  }

  /** The kept entries, in order. */
  ghost function Kept(root: Path, changed: set<Path>, canonical: Path -> Path, entries: seq<WalkEntry>): seq<WalkEntry> {
    if entries == [] then []
    else
      Kept(root, changed, canonical, entries[..|entries| - 1]) +
      (if Keep(root, changed, canonical, entries[|entries| - 1]) then [entries[|entries| - 1]] else [])
  }

  /** `filter_entries_by_git_ref`; `canonical` stands for path canonicalization. */
  method FilterEntries(entries: seq<WalkEntry>, changed: set<Path>, root: Path, canonical: Path -> Path)
    returns (kept: seq<WalkEntry>)
    ensures kept == Kept(canonical(root), set p | p in changed :: canonical(p), canonical, entries)
  {
    var canonicalRoot := canonical(root);
    var canonicalChanged := set p | p in changed :: canonical(p);
    var dirs := AncestorDirs(canonicalRoot, canonicalChanged);
    kept := [];
    for i := 0 to |entries|
      invariant kept == Kept(canonicalRoot, canonicalChanged, canonical, entries[..i])
    {
      var e := entries[i];
      assert entries[..i + 1][..i] == entries[..i];
      if (if e.isDir then canonical(e.path) in dirs else canonical(e.path) in canonicalChanged) {
        kept := kept + [e];
      }
    }
    assert entries[..|entries|] == entries;
  }

  /** `places` picks `kept` out of `entries`, in order and without repetition. */
  ghost predicate Picks(entries: seq<WalkEntry>, kept: seq<WalkEntry>, places: seq<nat>) {
    && |places| == |kept|
    && (forall j :: 0 <= j < |places| ==> places[j] < |entries| && kept[j] == entries[places[j]])
    && (forall i, j :: 0 <= i < j < |places| ==> places[i] < places[j])
  }

  lemma PicksMore(entries: seq<WalkEntry>, kept: seq<WalkEntry>, places: seq<nat>, keep: bool)
    requires entries != [] && Picks(entries[..|entries| - 1], kept, places)
    ensures var n := |entries| - 1;
      Picks(entries, kept + (if keep then [entries[n]] else []), places + (if keep then [n] else []))
  {
    var n := |entries| - 1;
    forall j | 0 <= j < |places| ensures places[j] < n && kept[j] == entries[places[j]] {
      assert kept[j] == entries[..n][places[j]];
    }
    assert kept + [] == kept && places + [] == places;
  }

  lemma {:induction false} KeptPlaces(root: Path, changed: set<Path>, canonical: Path -> Path, entries: seq<WalkEntry>)
    returns (places: seq<nat>)
    ensures Picks(entries, Kept(root, changed, canonical, entries), places)
    ensures forall i: nat :: i in places <==> i < |entries| && Keep(root, changed, canonical, entries[i])
  {
    hide Keep, Picks;
    if entries == [] {
      places := [];
      assert Picks([], [], []) by { PicksNothing(); }
    } else {
      var n := |entries| - 1;
      var keep := Keep(root, changed, canonical, entries[n]);
      var before := KeptPlaces(root, changed, canonical, entries[..n]);
      PicksMore(entries, Kept(root, changed, canonical, entries[..n]), before, keep);
      hide Kept;
      places := before + (if keep then [n] else []);
      forall i: nat ensures i in places <==> i < |entries| && Keep(root, changed, canonical, entries[i]) {
        assert i in places <==> i in before || (keep && i == n);
        assert i < n ==> entries[..n][i] == entries[i];
      }
    }
  }

  lemma PicksNothing()
    ensures Picks([], [], [])
  {
  }

  /** Which entries survive: in order and each once, the files that changed and the directories that are
      the root or lie above a changed file, but not above the root when that file lies below it. */
  lemma KeptExact(root: Path, changed: set<Path>, canonical: Path -> Path, entries: seq<WalkEntry>)
    returns (places: seq<nat>)
    ensures Picks(entries, Kept(root, changed, canonical, entries), places)
    ensures forall i: nat :: i < |entries| ==>
      var p := canonical(entries[i].path);
      i in places <==>
        if entries[i].isDir then p == root || exists q :: q in changed && p < q && (root < q ==> root <= p) else p in changed
  {
    hide Keep, Kept, Picks;
    places := KeptPlaces(root, changed, canonical, entries);
    forall i: nat | i < |entries|
      ensures var p := canonical(entries[i].path);
        i in places <==>
          if entries[i].isDir then p == root || exists q :: q in changed && p < q && (root < q ==> root <= p) else p in changed
    {
      KeepMeaning(root, changed, canonical, entries[i]);
    }
  }

  lemma KeepMeaning(root: Path, changed: set<Path>, canonical: Path -> Path, e: WalkEntry)
    ensures var p := canonical(e.path);
      Keep(root, changed, canonical, e) <==>
        if e.isDir then p == root || exists q :: q in changed && p < q && (root < q ==> root <= p) else p in changed
  {
    var p := canonical(e.path);
    if q :| q in changed && p < q && (root < q ==> root <= p) {
      assert Above(root, p, q);
    }
  }

  // ----- Subtree counts -----

  const EXCLUDED_DIRS: set<string> :=
    {"node_modules", "vendor", ".git", "__pycache__", "target", "dist", "build", ".venv"}

  /** `Path::cmp`: component by component. */
  predicate PathLe(a: Path, b: Path) {
    a == [] || (b != [] && ((NameLe(a[0], b[0]) && a[0] != b[0]) || (a[0] == b[0] && PathLe(a[1..], b[1..]))))
  }

  lemma {:induction false} PathLeAntisymmetric(a: Path, b: Path)
    requires PathLe(a, b) && PathLe(b, a)
    ensures a == b
  {
    if a != [] && b != [] {
      if a[0] == b[0] {
        PathLeAntisymmetric(a[1..], b[1..]);
      } else {
        NameLeAntisymmetric(a[0], b[0]);
      }
    }
  }

  /** Cutting two paths at the same depth keeps their order. */
  lemma {:induction false} PathLePrefix(a: Path, b: Path, n: nat)
    requires PathLe(a, b) && n <= |a| && n <= |b|
    ensures PathLe(a[..n], b[..n])
  {
    if n > 0 && a[0] == b[0] {
      PathLePrefix(a[1..], b[1..], n - 1);
      assert a[..n][1..] == a[1..][..n - 1] && b[..n][1..] == b[1..][..n - 1];
    }
  }

  predicate Excluded(p: Path) {
    exists i :: 0 <= i < |p| && p[i] in EXCLUDED_DIRS
  }

  /** The entry is a file below the root with no excluded component anywhere in its path. */
  predicate Counted(root: Path, e: WalkEntry) {
    !e.isDir && !Excluded(e.path) && root < e.path
  }

  /** The root joined with the first component below it. */
  function FirstBelow(root: Path, e: WalkEntry): Path
    requires root < e.path
  {
    root + [e.path[|root|]]
  }

  lemma FirstBelowIsPrefix(root: Path, e: WalkEntry)
    requires root < e.path
    ensures FirstBelow(root, e) == e.path[..|root| + 1]
  {
    assert e.path[..|root|] == root;
  }

  /** Reference: how many counted entries lie at or below `name`, a path one step below the root. */
  function NaiveCount(root: Path, entries: seq<WalkEntry>, name: Path): nat {
    if entries == [] then 0
    else
      var last := entries[|entries| - 1];
      NaiveCount(root, entries[..|entries| - 1], name) +
      (if Counted(root, last) && FirstBelow(root, last) == name then 1 else 0)
  }

  ghost predicate Sorted(entries: seq<WalkEntry>) {
    forall i, j :: 0 <= i < j < |entries| ==> PathLe(entries[i].path, entries[j].path)
  }

  /** Keys strictly increasing, each with its exact count, and no name missing. */
  ghost predicate CountsExact(root: Path, entries: seq<WalkEntry>, counts: seq<(Path, nat)>) {
    && (forall i, j :: 0 <= i < j < |counts| ==> PathLe(counts[i].0, counts[j].0) && counts[i].0 != counts[j].0)
    && (forall i :: 0 <= i < |counts| ==> counts[i].1 >= 1 && counts[i].1 == NaiveCount(root, entries, counts[i].0))
    && (forall name :: NaiveCount(root, entries, name) > 0 ==> exists i :: 0 <= i < |counts| && counts[i].0 == name)
  }

  /** A counted name occurs among the entries. */
  lemma {:induction false} CountedWitness(root: Path, entries: seq<WalkEntry>, name: Path) returns (i: nat)
    requires NaiveCount(root, entries, name) > 0
    ensures i < |entries| && Counted(root, entries[i]) && FirstBelow(root, entries[i]) == name
  {
    var last := entries[|entries| - 1];
    if Counted(root, last) && FirstBelow(root, last) == name {
      i := |entries| - 1;
    } else {
      i := CountedWitness(root, entries[..|entries| - 1], name);
    }
  }

  /** In sorted entries every name counted so far comes before or equals the next one. */
  lemma NamesAscend(root: Path, entries: seq<WalkEntry>, n: nat, name: Path)
    requires Sorted(entries) && n < |entries| && Counted(root, entries[n])
    requires NaiveCount(root, entries[..n], name) > 0
    ensures PathLe(name, FirstBelow(root, entries[n]))
  {
    var i := CountedWitness(root, entries[..n], name);
    PathLePrefix(entries[i].path, entries[n].path, |root| + 1);
    FirstBelowIsPrefix(root, entries[i]);
    FirstBelowIsPrefix(root, entries[n]);
  }

  /** `subtree_counts_from_entries`: only the last group is ever compared with the next entry. */
  method SubtreeCounts(root: Path, entries: seq<WalkEntry>) returns (counts: seq<(Path, nat)>)
    requires Sorted(entries)
    ensures CountsExact(root, entries, counts)
  {
    counts := [];
    for n := 0 to |entries|
      invariant CountsExact(root, entries[..n], counts)
    {
      var e := entries[n];
      assert entries[..n + 1][..n] == entries[..n];
      if !e.isDir && !Excluded(e.path) && root < e.path {
        var name := FirstBelow(root, e);
        if counts != [] && counts[|counts| - 1].0 == name {
          var last := |counts| - 1;
          ghost var before := counts;
          counts := counts[last := (name, counts[last].1 + 1)];
          GroupGrows(root, entries, n, before, counts);
        } else {
          ghost var before := counts;
          if counts != [] {
            LastIsLargest(root, entries, n, counts);
          } else {
            assert NaiveCount(root, entries[..n], name) == 0;
          }
          counts := counts + [(name, 1)];
          GroupStarts(root, entries, n, before);
        }
      } else {
        SkippedEntry(root, entries, n, counts);
      }
    }
    assert entries[..|entries|] == entries;
  }

  lemma CountStep(root: Path, entries: seq<WalkEntry>, n: nat)
    requires n < |entries|
    ensures forall x :: (NaiveCount(root, entries[..n + 1], x) ==
      NaiveCount(root, entries[..n], x) +
      (if Counted(root, entries[n]) && FirstBelow(root, entries[n]) == x then 1 else 0))
  {
    hide FirstBelow;
    assert entries[..n + 1][..n] == entries[..n];
  }

  lemma SkippedEntry(root: Path, entries: seq<WalkEntry>, n: nat, counts: seq<(Path, nat)>)
    requires n < |entries| && !Counted(root, entries[n]) && CountsExact(root, entries[..n], counts)
    ensures CountsExact(root, entries[..n + 1], counts)
  {
    hide NaiveCount, PathLe, FirstBelow;
    var earlier, now := entries[..n], entries[..n + 1];
    CountStep(root, entries, n);
    forall x | NaiveCount(root, now, x) > 0
      ensures exists i :: 0 <= i < |counts| && counts[i].0 == x
    {
      assert NaiveCount(root, earlier, x) > 0;
    }
  }

  lemma GroupGrows(root: Path, entries: seq<WalkEntry>, n: nat, before: seq<(Path, nat)>, after: seq<(Path, nat)>)
    requires n < |entries| && Counted(root, entries[n]) && CountsExact(root, entries[..n], before) && before != []
    requires before[|before| - 1].0 == FirstBelow(root, entries[n])
    requires after == before[|before| - 1 := (before[|before| - 1].0, before[|before| - 1].1 + 1)]
    ensures CountsExact(root, entries[..n + 1], after)
  {
    hide NaiveCount, PathLe, FirstBelow;
    var earlier, now := entries[..n], entries[..n + 1];
    CountStep(root, entries, n);
    var name := FirstBelow(root, entries[n]);
    forall x | NaiveCount(root, now, x) > 0
      ensures exists i :: 0 <= i < |after| && after[i].0 == x
    {
      if x == name {
        assert after[|after| - 1].0 == x;
      } else {
        assert NaiveCount(root, earlier, x) > 0;
        var i :| 0 <= i < |before| && before[i].0 == x;
        assert after[i].0 == x;
      }
    }
  }

  /** A name other than the last group's has not been counted yet. */
  lemma LastIsLargest(root: Path, entries: seq<WalkEntry>, n: nat, counts: seq<(Path, nat)>)
    requires Sorted(entries) && n < |entries| && Counted(root, entries[n])
    requires CountsExact(root, entries[..n], counts) && counts != []
    requires counts[|counts| - 1].0 != FirstBelow(root, entries[n])
    ensures NaiveCount(root, entries[..n], FirstBelow(root, entries[n])) == 0
    ensures forall i :: 0 <= i < |counts| ==>
      PathLe(counts[i].0, FirstBelow(root, entries[n])) && counts[i].0 != FirstBelow(root, entries[n])
  {
    var name, last := FirstBelow(root, entries[n]), counts[|counts| - 1].0;
    forall i | 0 <= i < |counts|
      ensures PathLe(counts[i].0, name) && counts[i].0 != name
    {
      NamesAscend(root, entries, n, counts[i].0);
      NamesAscend(root, entries, n, last);
      if counts[i].0 == name && i < |counts| - 1 {
        PathLeAntisymmetric(last, name);
      }
    }
  }

  lemma GroupStarts(root: Path, entries: seq<WalkEntry>, n: nat, before: seq<(Path, nat)>)
    requires n < |entries| && Counted(root, entries[n]) && CountsExact(root, entries[..n], before)
    requires var name := FirstBelow(root, entries[n]);
      && (forall i :: 0 <= i < |before| ==> PathLe(before[i].0, name) && before[i].0 != name)
      && NaiveCount(root, entries[..n], name) == 0
    ensures CountsExact(root, entries[..n + 1], before + [(FirstBelow(root, entries[n]), 1)])
  {
    hide NaiveCount, PathLe, FirstBelow;
    var earlier, now := entries[..n], entries[..n + 1];
    CountStep(root, entries, n);
    var name := FirstBelow(root, entries[n]);
    var after := before + [(name, 1)];
    forall x | NaiveCount(root, now, x) > 0
      ensures exists i :: 0 <= i < |after| && after[i].0 == x
    {
      if x == name {
        assert after[|before|].0 == x;
      } else {
        assert NaiveCount(root, earlier, x) > 0;
        var i :| 0 <= i < |before| && before[i].0 == x;
        assert after[i].0 == x;
      }
    }
  }

  // ----- What the counts mean -----

  /** The file at `j` has no excluded component. */
  predicate IsPlainFile(entries: seq<WalkEntry>, j: int) {
    && 0 <= j < |entries| && !entries[j].isDir
    && forall k :: 0 <= k < |entries[j].path| ==> entries[j].path[k] !in EXCLUDED_DIRS
  }

  /** The places of the files at or below `dir` that have no excluded component. */
  ghost function FilesBelow(entries: seq<WalkEntry>, dir: Path): set<nat> {
    set j: nat | j < |entries| && IsPlainFile(entries, j) && dir <= entries[j].path
  }

  lemma EarlierFile(entries: seq<WalkEntry>, n: nat, j: nat)
    requires j < n <= |entries|
    ensures entries[..n][j] == entries[j]
    ensures IsPlainFile(entries[..n], j) <==> IsPlainFile(entries, j)
  {
    assert entries[..n][j] == entries[j];
  }

  lemma OneMoreFile(entries: seq<WalkEntry>, dir: Path)
    requires entries != []
    ensures var n := |entries| - 1;
      |FilesBelow(entries, dir)| ==
      |FilesBelow(entries[..n], dir)| + (if IsPlainFile(entries, n) && dir <= entries[n].path then 1 else 0)
  {
    hide IsPlainFile;
    var n := |entries| - 1;
    var earlier, now := FilesBelow(entries[..n], dir), FilesBelow(entries, dir);
    var last: set<nat> := if IsPlainFile(entries, n) && dir <= entries[n].path then {n} else {};
    forall j: nat ensures j in now <==> j in earlier || j in last {
      if j < n {
        EarlierFile(entries, n, j);
      }
    }
    assert now == earlier + last;
  }

  lemma CountedIff(root: Path, entries: seq<WalkEntry>, j: nat)
    requires j < |entries|
    ensures Counted(root, entries[j]) <==> IsPlainFile(entries, j) && root < entries[j].path
  {
  }

  lemma {:induction false} NaiveCountIsNumber(root: Path, entries: seq<WalkEntry>, name: Path)
    requires |name| == |root| + 1 && root <= name
    ensures NaiveCount(root, entries, name) == |FilesBelow(entries, name)|
  {
    hide FilesBelow, Counted, IsPlainFile;
    if entries == [] {
      assert FilesBelow([], name) == {} by { NoFiles(name); }
    } else {
      var n := |entries| - 1;
      NaiveCountIsNumber(root, entries[..n], name);
      OneMoreFile(entries, name);
      CountedIff(root, entries, n);
      if root < entries[n].path {
        FirstBelowIsPrefix(root, entries[n]);
        assert name <= entries[n].path <==> entries[n].path[..|root| + 1] == name;
      } else {
        PrefixTransitive(root, name, entries[n].path);
      }
    }
  }

  lemma NoFiles(name: Path)
    ensures FilesBelow([], name) == {}
  {
  }

  lemma PrefixTransitive(a: Path, b: Path, c: Path)
    requires a < b
    ensures b <= c ==> a < c
  {
  }

  /** What the result says: its keys are the paths one step below the root, strictly increasing, each with
      the number of files at or below it that have no excluded component; and every such file below the
      root is counted. */
  lemma CountsMeaning(root: Path, entries: seq<WalkEntry>, counts: seq<(Path, nat)>)
    requires CountsExact(root, entries, counts)
    ensures forall i :: 0 <= i < |counts| ==>
      && root < counts[i].0 && |counts[i].0| == |root| + 1
      && counts[i].1 == |FilesBelow(entries, counts[i].0)| >= 1
    ensures forall i, j :: 0 <= i < j < |counts| ==> PathLe(counts[i].0, counts[j].0) && counts[i].0 != counts[j].0
    ensures forall j :: 0 <= j < |entries| && IsPlainFile(entries, j) && root < entries[j].path ==>
      exists i :: 0 <= i < |counts| && counts[i].0 == entries[j].path[..|root| + 1]
  {
    hide FilesBelow, PathLe, IsPlainFile, Counted;
    forall i | 0 <= i < |counts|
      ensures root < counts[i].0 && |counts[i].0| == |root| + 1
      ensures counts[i].1 == |FilesBelow(entries, counts[i].0)| >= 1
    {
      var name := counts[i].0;
      var k := CountedWitness(root, entries, name);
      CountedIff(root, entries, k);
      FirstBelowIsPrefix(root, entries[k]);
      NaiveCountIsNumber(root, entries, name);
    }
    forall j | 0 <= j < |entries| && IsPlainFile(entries, j) && root < entries[j].path
      ensures exists i :: 0 <= i < |counts| && counts[i].0 == entries[j].path[..|root| + 1]
    {
      var name := entries[j].path[..|root| + 1];
      NaiveCountIsNumber(root, entries, name);
      FileCounts(entries, j, name);
      assert NaiveCount(root, entries, name) > 0;
    }
  }

  lemma FileCounts(entries: seq<WalkEntry>, j: nat, name: Path)
    requires j < |entries| && IsPlainFile(entries, j) && name <= entries[j].path
    ensures |FilesBelow(entries, name)| >= 1
  {
    assert j in FilesBelow(entries, name);
  }
}
