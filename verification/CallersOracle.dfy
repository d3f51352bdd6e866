/** The callers oracle: files that reach a symbol through at most a given number of call steps. */
module CallersOracle {
  import opened Text
  import opened Sorting

  type File = string
  type Symbol = string

  datatype Edge = Edge(caller: File, callee: Symbol, line: nat)

  // ----- Reference definitions -----

  /** `direct_callers`: files that contain a call of `symbol`. */
  function DirectCallers(edges: seq<Edge>, symbol: Symbol): set<File> {
    set e | e in edges && e.callee == symbol :: e.caller
  }

  /** Symbols that are defined in `file` and in no other file. */
  function DefinedIn(index: map<Symbol, seq<File>>, file: File): set<Symbol> {
    set s | s in index && |index[s]| <= 1 && file in index[s]
  }

  /** `g` calls a symbol whose only definition is in `f`. */
  ghost predicate CallStep(index: map<Symbol, seq<File>>, edges: seq<Edge>, f: File, g: File) {
    exists e :: e in edges && e.caller == g && e.callee in index && index[e.callee] == [f]
  }

  /** A chain of call steps that starts at a direct caller of `symbol`. */
  ghost predicate Chain(index: map<Symbol, seq<File>>, edges: seq<Edge>, symbol: Symbol, files: seq<File>) {
    && files != [] && (exists e :: e in edges && e.caller == files[0] && e.callee == symbol)
    && forall i :: 0 <= i < |files| - 1 ==> CallStep(index, edges, files[i], files[i + 1])
  }

  /** `file` is reached by a chain of at most `hops` files. */
  ghost predicate Reaches(index: map<Symbol, seq<File>>, edges: seq<Edge>, symbol: Symbol, hops: nat, file: File) {
    exists files :: Chain(index, edges, symbol, files) && |files| <= hops && files[|files| - 1] == file
  }

  /** Files one call step away from a set of files. */
  ghost function Expand(index: map<Symbol, seq<File>>, edges: seq<Edge>, files: set<File>): set<File> {
    set e, f | e in edges && f in files && e.callee in DefinedIn(index, f) :: e.caller
  }

  lemma DefinedIff(index: map<Symbol, seq<File>>, file: File, s: Symbol)
    ensures s in DefinedIn(index, file) <==> s in index && index[s] == [file]
  {
  }

  lemma ExpandIff(index: map<Symbol, seq<File>>, edges: seq<Edge>, files: set<File>, g: File)
    ensures g in Expand(index, edges, files) <==> exists f :: f in files && CallStep(index, edges, f, g)
  {
    hide DefinedIn;
    if g in Expand(index, edges, files) {
      var e, f :| e in edges && f in files && e.callee in DefinedIn(index, f) && e.caller == g;
      DefinedIff(index, f, e.callee);
      assert CallStep(index, edges, f, g);
    }
    if f :| f in files && CallStep(index, edges, f, g) {
      var e :| e in edges && e.caller == g && e.callee in index && index[e.callee] == [f];
      DefinedIff(index, f, e.callee);
    }
  }

  /** Files within `hops` steps, level by level over the whole set. */
  ghost function Within(index: map<Symbol, seq<File>>, edges: seq<Edge>, symbol: Symbol, hops: nat): set<File> {
    if hops == 0 then {}
    else if hops == 1 then DirectCallers(edges, symbol)
    else
      var nearer := Within(index, edges, symbol, hops - 1);
      nearer + Expand(index, edges, nearer)
  }

  /** The level sets are exactly the files reached by chains of bounded length. */
  lemma {:induction false} WithinIffReaches(
      index: map<Symbol, seq<File>>, edges: seq<Edge>, symbol: Symbol, hops: nat, file: File)
    ensures file in Within(index, edges, symbol, hops) <==> Reaches(index, edges, symbol, hops, file)
  {
    if file in Within(index, edges, symbol, hops) {
      var files := ChainTo(index, edges, symbol, hops, file);
    }
    if files :| Chain(index, edges, symbol, files) && |files| <= hops && files[|files| - 1] == file {
      ChainStaysWithin(index, edges, symbol, hops, files);
    }
  }

  lemma DirectIff(edges: seq<Edge>, symbol: Symbol, file: File)
    ensures file in DirectCallers(edges, symbol) <==> exists e :: e in edges && e.caller == file && e.callee == symbol
  {
  }

  lemma {:induction false} ChainTo(
      index: map<Symbol, seq<File>>, edges: seq<Edge>, symbol: Symbol, hops: nat, file: File) returns (files: seq<File>)
    requires file in Within(index, edges, symbol, hops)
    ensures Chain(index, edges, symbol, files) && |files| <= hops && files[|files| - 1] == file
  {
    hide Expand, DirectCallers, DefinedIn, CallStep;
    if hops == 1 {
      DirectIff(edges, symbol, file);
      files := [file];
    } else {
      var nearer := Within(index, edges, symbol, hops - 1);
      if file in nearer {
        files := ChainTo(index, edges, symbol, hops - 1, file);
      } else {
        ExpandIff(index, edges, nearer, file);
        var f :| f in nearer && CallStep(index, edges, f, file);
        var front := ChainTo(index, edges, symbol, hops - 1, f);
        files := front + [file];
      }
    }
  }

  lemma {:induction false} ChainStaysWithin(
      index: map<Symbol, seq<File>>, edges: seq<Edge>, symbol: Symbol, hops: nat, files: seq<File>)
    requires Chain(index, edges, symbol, files) && |files| <= hops
    ensures files[|files| - 1] in Within(index, edges, symbol, hops)
  {
    if |files| == 1 {
      DirectAreWithin(index, edges, symbol, hops);
    } else {
      var front := files[..|files| - 1];
      assert CallStep(index, edges, files[|files| - 2], files[|files| - 2 + 1]);
      ChainStaysWithin(index, edges, symbol, hops - 1, front);
      ExpandIff(index, edges, Within(index, edges, symbol, hops - 1), files[|files| - 1]);
    }
  }

  lemma {:induction false} DirectAreWithin(index: map<Symbol, seq<File>>, edges: seq<Edge>, symbol: Symbol, hops: nat)
    requires hops >= 1
    ensures DirectCallers(edges, symbol) <= Within(index, edges, symbol, hops)
  {
    if hops > 1 {
      DirectAreWithin(index, edges, symbol, hops - 1);
    }
  }

  /** The answer grows with the depth. */
  lemma {:induction false} WithinGrows(index: map<Symbol, seq<File>>, edges: seq<Edge>, symbol: Symbol, m: nat, n: nat)
    requires m <= n
    ensures Within(index, edges, symbol, m) <= Within(index, edges, symbol, n)
  {
    if m < n {
      WithinGrows(index, edges, symbol, m, n - 1);
    }
  }

  lemma ExpandUnion(index: map<Symbol, seq<File>>, edges: seq<Edge>, a: set<File>, b: set<File>)
    ensures Expand(index, edges, a + b) == Expand(index, edges, a) + Expand(index, edges, b)
  {
    forall g
      ensures g in Expand(index, edges, a + b) <==> g in Expand(index, edges, a) + Expand(index, edges, b)
    {
      ExpandIff(index, edges, a + b, g);
      ExpandIff(index, edges, a, g);
      ExpandIff(index, edges, b, g);
    }
  }

  // ----- The implementation -----

  /** `callers_of_symbol`. */
  method BuildCallers(edges: seq<Edge>) returns (callers: map<Symbol, set<File>>)
    ensures forall s :: (if s in callers then callers[s] else {}) == DirectCallers(edges, s)
  {
    callers := map[];
    for i := 0 to |edges|
      invariant forall s :: (if s in callers then callers[s] else {}) == DirectCallers(edges[..i], s)
    {
      var e := edges[i];
      assert edges[..i + 1] == edges[..i] + [e];
      forall s ensures DirectCallers(edges[..i + 1], s) == DirectCallers(edges[..i], s) + (if s == e.callee then {e.caller} else {}) {
        AppendEdge(edges[..i], e, s);
      }
      var before := if e.callee in callers then callers[e.callee] else {};
      callers := callers[e.callee := before + {e.caller}];
    }
    assert edges[..|edges|] == edges;
  }

  lemma AppendEdge(edges: seq<Edge>, e: Edge, s: Symbol)
    ensures DirectCallers(edges + [e], s) == DirectCallers(edges, s) + (if s == e.callee then {e.caller} else {})
  {
    assert forall x :: x in edges + [e] <==> x in edges || x == e;
  }

  /** `symbols_defined_in`; the index is a dictionary, visited in any order. */
  method BuildDefined(index: map<Symbol, seq<File>>) returns (defined: map<File, set<Symbol>>)
    ensures forall f :: (if f in defined then defined[f] else {}) == DefinedIn(index, f)
  {
    defined := map[];
    var todo := index.Keys;
    while todo != {}
      invariant todo <= index.Keys
      invariant forall f :: (if f in defined then defined[f] else {}) == DefinedIn(index, f) - todo
      decreases todo
    {
      var s :| s in todo;
      ghost var before := defined;
      if |index[s]| == 1 {
        var file := index[s][0];
        var known := if file in defined then defined[file] else {};
        defined := defined[file := known + {s}];
      }
      forall f ensures (if f in defined then defined[f] else {}) == DefinedIn(index, f) - (todo - {s}) {
        assert (if f in before then before[f] else {}) == DefinedIn(index, f) - todo;
      }
      todo := todo - {s};
    }
  }

  /** Callers of the symbols defined in one file. */
  method CallersOfFile(
      index: map<Symbol, seq<File>>, edges: seq<Edge>,
      callers: map<Symbol, set<File>>, defined: map<File, set<Symbol>>, file: File)
    returns (found: set<File>)
    requires forall s :: (if s in callers then callers[s] else {}) == DirectCallers(edges, s)
    requires forall f :: (if f in defined then defined[f] else {}) == DefinedIn(index, f)
    ensures found == Expand(index, edges, {file})
  {
    found := {};
    var symbols := if file in defined then defined[file] else {};
    ghost var all := symbols;
    assert all == DefinedIn(index, file);
    hide DefinedIn;
    while symbols != {}
      invariant symbols <= all
      invariant found == set e | e in edges && e.callee in all - symbols :: e.caller
      decreases symbols
    {
      var s :| s in symbols;
      found := found + (if s in callers then callers[s] else {});
      symbols := symbols - {s};
    }
    assert Expand(index, edges, {file}) == set e | e in edges && e.callee in all :: e.caller;
  }

  /** Callers of the symbols defined in a set of files. */
  method ExpandFrontier(
      index: map<Symbol, seq<File>>, edges: seq<Edge>,
      callers: map<Symbol, set<File>>, defined: map<File, set<Symbol>>, current: set<File>)
    returns (frontier: set<File>)
    requires forall s :: (if s in callers then callers[s] else {}) == DirectCallers(edges, s)
    requires forall f :: (if f in defined then defined[f] else {}) == DefinedIn(index, f)
    ensures frontier == Expand(index, edges, current)
  {
    frontier := {};
    var files := current;
    NothingFromNothing(index, edges);
    hide Expand, DefinedIn, DirectCallers;
    while files != {}
      invariant files <= current
      invariant frontier == Expand(index, edges, current - files)
      decreases files
    {
      var f :| f in files;
      var found := CallersOfFile(index, edges, callers, defined, f);
      assert current - (files - {f}) == (current - files) + {f};
      ExpandUnion(index, edges, current - files, {f});
      frontier := frontier + found;
      files := files - {f};
    }
    assert current - files == current;
  }

  /** What `str.strip` removes: the Unicode White_Space characters and four separators. */
  predicate IsPythonSpace(c: char) {
    IsWhitespace(c) || 0x1C <= c as int <= 0x1F
  }

  /** `_validate_symbol`: not blank, and free of the four rejected control characters. */
  predicate ValidSymbol(symbol: Symbol) {
    && (exists i :: 0 <= i < |symbol| && !IsPythonSpace(symbol[i]))
    && forall i :: 0 <= i < |symbol| ==> symbol[i] !in {NL, CR, '\t', '\0'}
  }

  /** Which symbols are refused: those of blanks only, and those with a tab, a line end or a NUL. */
  lemma ValidSymbolIff(symbol: Symbol)
    ensures ValidSymbol(symbol) <==>
      (exists c :: c in symbol && !IsPythonSpace(c)) && '\n' !in symbol && '\r' !in symbol && '\t' !in symbol && '\0' !in symbol
  {
    if i :| 0 <= i < |symbol| && !IsPythonSpace(symbol[i]) {
      assert symbol[i] in symbol;
    }
    if c :| c in symbol && !IsPythonSpace(c) {
      var i :| 0 <= i < |symbol| && symbol[i] == c;
    }
  }

  // ----- The sorted answer -----

  lemma NameLeIsOrder()
    ensures TotalPreorder(NameLe)
  {
    forall a, b ensures NameLe(a, b) || NameLe(b, a) {
      NameLeTotal(a, b);
    }
    forall a, b, c | NameLe(a, b) && NameLe(b, c) ensures NameLe(a, c) {
      NameLeTransitive(a, b, c);
    }
  }

  predicate Increasing(list: seq<File>) {
    forall i, j :: 0 <= i < j < |list| ==> NameLe(list[i], list[j]) && list[i] != list[j]
  }

  lemma IncreasingIntro(list: seq<File>, files: set<File>)
    requires SortedBy(list, NameLe) && multiset(list) == multiset(files)
    ensures Increasing(list) && forall f :: f in list <==> f in files
  {
    forall f ensures f in list <==> f in files {
      assert f in list <==> f in multiset(list);
    }
    forall i, j | 0 <= i < j < |list| ensures list[i] != list[j] {
      assert list == list[..i] + [list[i]] + (list[i + 1..j] + [list[j]] + list[j + 1..]);
      assert multiset(files)[list[i]] <= 1;
    }
  }

  /** `sorted` on a set, visited in any order. */
  method Sorted(files: set<File>) returns (list: seq<File>)
    ensures Increasing(list) && forall f :: f in list <==> f in files
  {
    NameLeIsOrder();
    hide TotalPreorder;
    list := [];
    var todo := files;
    assert files - todo == {};
    while todo != {}
      invariant todo <= files
      invariant SortedBy(list, NameLe) && multiset(list) == multiset(files - todo)
      decreases todo
    {
      var f :| f in todo;
      InsertSorted(f, list, NameLe);
      InsertMultiset(f, list, NameLe);
      assert files - (todo - {f}) == (files - todo) + {f};
      list := Insert(f, list, NameLe);
      todo := todo - {f};
    }
    assert files - todo == files;
    IncreasingIntro(list, files);
  }

  // ----- The two entry points -----

  /** The files a list answers for: exactly those reached, each once, in increasing order. */
  ghost predicate Answers(
      index: map<Symbol, seq<File>>, edges: seq<Edge>, symbol: Symbol, hops: nat, list: seq<File>)
  {
    Increasing(list) && forall f :: f in list <==> Reaches(index, edges, symbol, hops, f)
  }

  /** `callers_oracle_from`: the depth must be 1, 2 or 3 and the symbol valid; nothing stands for the
      error otherwise. */
  method CallersOracleFrom(index: map<Symbol, seq<File>>, edges: seq<Edge>, symbol: Symbol, hopDepth: nat)
    returns (result: Option<seq<File>>)
    ensures result.Some? <==> hopDepth in {1, 2, 3} && ValidSymbol(symbol)
    ensures result.Some? ==> Answers(index, edges, symbol, hopDepth, result.value)
  {
    if hopDepth !in {1, 2, 3} {
      return None;
    }
    if !ValidSymbol(symbol) {
      return None;
    }
    hide ValidSymbol;
    var seen := Search(index, edges, symbol, hopDepth);
    forall f ensures f in seen <==> Reaches(index, edges, symbol, hopDepth, f) {
      WithinIffReaches(index, edges, symbol, hopDepth, f);
    }
    var list := Sorted(seen);
    result := Some(list);
  }

  predicate IsAmbiguous(index: map<Symbol, seq<File>>, symbol: Symbol) {
    symbol in index && |index[symbol]| > 1
  }

  /** `build_call_edges` on the call nodes of the snapshot: ambiguous callees contribute no edge. */
  method BuildCallEdges(index: map<Symbol, seq<File>>, calls: seq<Edge>) returns (edges: seq<Edge>)
    ensures forall e :: e in edges <==> e in calls && !(e.callee in index && |index[e.callee]| >= 2)
  {
    edges := [];
    for i := 0 to |calls|
      invariant forall e :: e in edges <==> e in calls[..i] && !IsAmbiguous(index, e.callee)
    {
      assert calls[..i + 1] == calls[..i] + [calls[i]];
      if !IsAmbiguous(index, calls[i].callee) {
        edges := edges + [calls[i]];
      }
    }
    assert calls[..|calls|] == calls;
  }

  /** Dropping the calls of ambiguous symbols loses no step of a chain, because a chain never goes
      through an ambiguous symbol. */
  lemma SameSteps(index: map<Symbol, seq<File>>, calls: seq<Edge>, edges: seq<Edge>, f: File, g: File)
    requires forall e :: e in edges <==> e in calls && !IsAmbiguous(index, e.callee)
    ensures CallStep(index, edges, f, g) <==> CallStep(index, calls, f, g)
  {
  }

  lemma SameCallers(index: map<Symbol, seq<File>>, calls: seq<Edge>, edges: seq<Edge>, symbol: Symbol)
    requires forall e :: e in edges <==> e in calls && !IsAmbiguous(index, e.callee)
    ensures DirectCallers(edges, symbol) == if IsAmbiguous(index, symbol) then {} else DirectCallers(calls, symbol)
  {
  }

  /** An ambiguous symbol has no callers at any depth; for any other, the dropped edges change nothing. */
  lemma AmbiguousFailsClosed(
      index: map<Symbol, seq<File>>, calls: seq<Edge>, edges: seq<Edge>, symbol: Symbol, hops: nat, file: File)
    requires forall e :: e in edges <==> e in calls && !IsAmbiguous(index, e.callee)
    ensures Reaches(index, edges, symbol, hops, file) <==>
      !(symbol in index && |index[symbol]| >= 2) && Reaches(index, calls, symbol, hops, file)
  {
    assert IsAmbiguous(index, symbol) <==> symbol in index && |index[symbol]| >= 2;
    hide DirectCallers, IsAmbiguous, CallStep;
    SameCallers(index, calls, edges, symbol);
    forall files | files != []
      ensures Chain(index, edges, symbol, files) <==> !IsAmbiguous(index, symbol) && Chain(index, calls, symbol, files)
    {
      forall i | 0 <= i < |files| - 1
        ensures CallStep(index, edges, files[i], files[i + 1]) <==> CallStep(index, calls, files[i], files[i + 1])
      {
        SameSteps(index, calls, edges, files[i], files[i + 1]);
      }
    }
  }

  lemma SomethingListed(list: seq<File>)
    ensures list == [] || exists f :: f in list
  {
    if list != [] {
      assert list[0] in list;
    }
  }

  /** `callers_oracle`, on the definition index and the call nodes found in the snapshot: the answer is that
      of `callers_oracle_from` on the raw calls, except that an ambiguous symbol has no callers. */
  method CallersOracleOf(index: map<Symbol, seq<File>>, calls: seq<Edge>, symbol: Symbol, hopDepth: nat)
    returns (result: Option<seq<File>>)
    ensures result.Some? <==> hopDepth in {1, 2, 3} && ValidSymbol(symbol)
    ensures result.Some? ==>
      if symbol in index && |index[symbol]| >= 2 then result.value == []
      else Answers(index, calls, symbol, hopDepth, result.value)
  {
    hide ValidSymbol, Reaches;
    var edges := BuildCallEdges(index, calls);
    result := CallersOracleFrom(index, edges, symbol, hopDepth);
    forall f { AmbiguousFailsClosed(index, calls, edges, symbol, hopDepth, f); }
    if result.Some? {
      SomethingListed(result.value);
    }
  }

  /** The breadth-first loop, which expands only the files found last. */
  method Search(index: map<Symbol, seq<File>>, edges: seq<Edge>, symbol: Symbol, hopDepth: nat) returns (seen: set<File>)
    requires hopDepth >= 1
    ensures seen == Within(index, edges, symbol, hopDepth)
  {
    hide Expand, DirectCallers, DefinedIn;
    var callers := BuildCallers(edges);
    var defined := BuildDefined(index);
    var current := DirectCallers(edges, symbol);
    seen := current;
    NothingFromNothing(index, edges);
    for k := 1 to hopDepth
      invariant seen == Within(index, edges, symbol, k)
      invariant current <= seen && Expand(index, edges, seen - current) <= seen
    {
      ghost var before := seen;
      var frontier := ExpandFrontier(index, edges, callers, defined, current);
      ExpandUnion(index, edges, seen - current, current);
      assert (seen - current) + current == seen;
      frontier := frontier - seen;
      seen := seen + frontier;
      current := frontier;
      assert seen - current == before;
    }
  }

  lemma NothingFromNothing(index: map<Symbol, seq<File>>, edges: seq<Edge>)
    ensures forall s: set<File> :: Expand(index, edges, s - s) == {}
  {
  }
}
