/**
  Module graphs in which different modules reach each other. A module met while it is still open counts
  as a fixed marker there, and which of the modules of a cycle is open depends on where the visit
  starts: on the order of their file names.
 */
module FirmwareCycles {
  import opened Basics
  import opened Graphs
  import opened Sorting
  import opened JsText
  import opened Json
  import opened Firmware
  import opened FirmwareDocument

  // ---------------------------------------------------------------------------
  // A module hash is larger than all it was made from
  // ---------------------------------------------------------------------------

  /** Hashes are compared by a size: a module's is greater than that of each hash of a dependency. */
  ghost predicate Grows(sha: Text -> Text, size: Text -> nat) {
    forall source, hashes, t | t in hashes :: size(t) < size(NodeHash(sha, source, hashes))
  }

  ghost predicate NeverEmpty(sha: Text -> Text) {
    forall t :: sha(t) != []
  }

  lemma NodeHashNonEmpty(sha: Text -> Text, source: Text, hashes: seq<Text>)
    requires NeverEmpty(sha)
    ensures NodeHash(sha, source, hashes) != []
  {
  }

  /** A visit adds hashes, never empty ones, of modules whose dependencies are hashed or open. */
  ghost predicate Grown(g: Graph, stack: set<Text>, memo: map<Text, Text>, memo': map<Text, Text>) {
    && Extends(memo, memo') && LeavesOpen(stack, memo, memo')
    && (forall f | f in memo' :: memo'[f] != [])
    && (forall f | f in memo' && f !in memo :: f in g && forall d | d in g[f].dependencies :: d in memo' || d in stack)
  }

  lemma GrownTwice(g: Graph, stack: set<Text>, a: map<Text, Text>, b: map<Text, Text>, c: map<Text, Text>)
    requires Grown(g, stack, a, b) && Grown(g, stack, b, c)
    ensures Grown(g, stack, a, c)
  {
  }

  /** What was hashed in a visit has no greater size than its result. */
  ghost predicate Below(size: Text -> nat, memo: map<Text, Text>, memo': map<Text, Text>, results: seq<Text>) {
    forall f | f in memo' && f !in memo :: exists t :: t in results && size(memo'[f]) <= size(t)
  }

  lemma BelowTwice(
    size: Text -> nat, a: map<Text, Text>, b: map<Text, Text>, c: map<Text, Text>, t: Text, ts: seq<Text>)
    requires Extends(b, c) && Below(size, a, b, [t]) && Below(size, b, c, ts)
    ensures Below(size, a, c, [t] + ts)
  {
    forall f | f in c && f !in a ensures exists u :: u in [t] + ts && size(c[f]) <= size(u) {
      if f in b {
        var u :| u in [t] && size(b[f]) <= size(u);
        assert u in [t] + ts;
      } else {
        var u :| u in ts && size(c[f]) <= size(u);
        assert u in [t] + ts;
      }
    }
  }

  lemma {:induction false} VisitGrows(
    g: Graph, sha: Text -> Text, size: Text -> nat, file: Text, stack: set<Text>, memo: map<Text, Text>)
    requires Closed(g) && file in g && Grows(sha, size) && NeverEmpty(sha) && (forall f | f in memo :: memo[f] != [])
    ensures var v := HashModule(g, sha, file, stack, memo);
            && v.Some? && Grown(g, stack, memo, v.value.memo) && Below(size, memo, v.value.memo, [v.value.result])
            && (file in v.value.memo || file in stack)
            && (forall f | f in v.value.memo && f !in memo && f != file :: size(v.value.memo[f]) < size(v.value.result))
            && (file in v.value.memo ==> v.value.memo[file] == v.value.result)
    decreases g.Keys - stack, 0
  {
    hide NodeHash, HashDependencies, Grows, Below, NeverEmpty;
    if file in memo || file in stack {
      NothingBelow(size, memo, HashModule(g, sha, file, stack, memo).value.result);
    } else {
      var deps := g[file].dependencies;
      var open := stack + {file};
      assert file in g.Keys - stack && g.Keys - open < g.Keys - stack;
      DependenciesGrow(g, sha, size, deps, open, memo);
      var v := HashDependencies(g, sha, deps, open, memo).value;
      NodeHashNonEmpty(sha, g[file].source, v.result);
      NodeAbove(sha, size, g[file].source, memo, v.memo, v.result, file);
    }
  }

  lemma NothingBelow(size: Text -> nat, memo: map<Text, Text>, t: Text)
    ensures Below(size, memo, memo, [t])
  {
  }

  /** The hash of a module tops what its dependencies left. */
  lemma NodeAbove(
    sha: Text -> Text, size: Text -> nat, source: Text,
    memo: map<Text, Text>, memo': map<Text, Text>, results: seq<Text>, file: Text)
    requires Grows(sha, size) && Below(size, memo, memo', results)
    ensures var hash := NodeHash(sha, source, results);
            && Below(size, memo, memo'[file := hash], [hash])
            && (forall f | f in memo' && f !in memo :: size(memo'[f]) < size(hash))
  {
    hide NodeHash;
    var hash := NodeHash(sha, source, results);
    assert hash in [hash];
    forall f | f in memo' && f !in memo ensures size(memo'[f]) < size(hash) {
      var t :| t in results && size(memo'[f]) <= size(t);
    }
  }

  lemma {:induction false} DependenciesGrow(
    g: Graph, sha: Text -> Text, size: Text -> nat, deps: seq<Text>, stack: set<Text>, memo: map<Text, Text>)
    requires Closed(g) && (forall i | 0 <= i < |deps| :: deps[i] in g)
    requires Grows(sha, size) && NeverEmpty(sha) && (forall f | f in memo :: memo[f] != [])
    ensures var v := HashDependencies(g, sha, deps, stack, memo);
            && v.Some? && Grown(g, stack, memo, v.value.memo) && Below(size, memo, v.value.memo, v.value.result)
            && (forall i | 0 <= i < |deps| :: deps[i] in v.value.memo || deps[i] in stack)
    decreases g.Keys - stack, 1, |deps|
  {
    hide HashModule, Grows, NeverEmpty, Closed;
    if deps != [] {
      hide Below;
      VisitGrows(g, sha, size, deps[0], stack, memo);
      var v := HashModule(g, sha, deps[0], stack, memo).value;
      DependenciesGrow(g, sha, size, deps[1..], stack, v.memo);
      var vs := HashDependencies(g, sha, deps[1..], stack, v.memo).value;
      GrownTwice(g, stack, memo, v.memo, vs.memo);
      BelowTwice(size, memo, v.memo, vs.memo, v.result, vs.result);
    }
  }

  lemma {:induction false} HashAllGrows(
    g: Graph, sha: Text -> Text, size: Text -> nat, files: seq<Text>, memo: map<Text, Text>)
    requires Closed(g) && (forall f | f in files :: f in g)
    requires Grows(sha, size) && NeverEmpty(sha) && (forall f | f in memo :: memo[f] != [])
    ensures var r := HashAll(g, sha, files, memo);
            r.Some? && Extends(memo, r.value)
  {
    hide HashModule, Grows, NeverEmpty, Closed, Below;
    if files != [] {
      assert files[0] in files;
      VisitGrows(g, sha, size, files[0], {}, memo);
      HashAllGrows(g, sha, size, files[1..], HashModule(g, sha, files[0], {}, memo).value.memo);
    }
  }

  /** The module visited first ends up with a larger hash than every other that it reaches. */
  lemma FirstIsLargest(g: Graph, sha: Text -> Text, size: Text -> nat, files: seq<Text>, v: Text)
    requires Closed(g) && files != [] && (forall f | f in files :: f in g) && Grows(sha, size) && NeverEmpty(sha)
    requires v != files[0] && CanReach(ImportsOf(g), files[0], v)
    ensures var r := HashAll(g, sha, files, map[]);
            r.Some? && v in r.value && files[0] in r.value && size(r.value[v]) < size(r.value[files[0]])
  {
    hide HashModule, Grows, NeverEmpty, Below, CanReach;
    var u := files[0];
    assert u in files;
    VisitGrows(g, sha, size, u, {}, map[]);
    var memo := HashModule(g, sha, u, {}, map[]).value.memo;
    VisitedClosed(g, memo);
    ReachedIn(ImportsOf(g), memo.Keys, u, v);
    HashAllGrows(g, sha, size, files[1..], memo);
  }

  lemma VisitedClosed(g: Graph, memo: map<Text, Text>)
    requires Grown(g, {}, map[], memo)
    ensures ClosedIn(ImportsOf(g), memo.Keys, memo.Keys)
  {
  }

  // ---------------------------------------------------------------------------
  // Exactly when the visiting order does not matter
  // ---------------------------------------------------------------------------

  ghost predicate Covers(g: Graph, files: seq<Text>) {
    forall f :: f in files <==> f in g
  }

  /** Two modules that reach each other are hashed differently when either is visited first. */
  lemma OrdersDiffer(g: Graph, sha: Text -> Text, size: Text -> nat, files: seq<Text>, u: Text, v: Text)
    requires Closed(g) && Covers(g, files) && Grows(sha, size) && NeverEmpty(sha)
    requires u in g && v in g && u != v && CanReach(ImportsOf(g), u, v) && CanReach(ImportsOf(g), v, u)
    ensures HashAll(g, sha, [u] + files, map[]) != HashAll(g, sha, [v] + files, map[])
  {
    hide HashAll, Grows, NeverEmpty, CanReach;
    FirstIsLargest(g, sha, size, [u] + files, v);
    FirstIsLargest(g, sha, size, [v] + files, u);
  }

  /**
    All orders in which the modules can be visited give the same hashes if and only if no two different
    modules reach each other.
   */
  lemma VisitOrderIgnoredIff(g: Graph, sha: Text -> Text, size: Text -> nat)
    requires Closed(g) && Grows(sha, size) && NeverEmpty(sha)
    ensures (forall files, files' | Covers(g, files) && Covers(g, files') ::
               HashAll(g, sha, files, map[]) == HashAll(g, sha, files', map[]))
       <==> Untangled(g)
  {
    hide HashAll, Grows, NeverEmpty, CanReach, Merkle, Closed;
    if Untangled(g) {
      forall files, files' | Covers(g, files) && Covers(g, files')
        ensures HashAll(g, sha, files, map[]) == HashAll(g, sha, files', map[])
      {
        FingerprintIsMerkle(g, sha, files);
        FingerprintIsMerkle(g, sha, files');
      }
    } else {
      var u, v :| u in g && v in g && CanReach(ImportsOf(g), u, v) && CanReach(ImportsOf(g), v, u) && u != v;
      var files := Listing(g.Keys);
      assert Covers(g, files);
      OrdersDiffer(g, sha, size, files, u, v);
      assert Covers(g, [u] + files) && Covers(g, [v] + files);
    }
  }

  // ---------------------------------------------------------------------------
  // Exactly when file names do not matter
  // ---------------------------------------------------------------------------

  /** The order in which the modules are visited: that of their names. */
  ghost predicate VisitedIn(g: Graph, files: seq<Text>) {
    files == UniqueSortedText(files) && Covers(g, files)
  }

  ghost predicate OneToOne(rho: Renaming) {
    forall a, b | rho(a) == rho(b) :: a == b
  }

  function ModuleHashes(g: Graph, sha: Text -> Text, files: seq<Text>): map<Text, Text> {
    var r := HashAll(g, sha, files, map[]);
    if r.Some? then r.value else map[]
  }

  /** Every file has the same hash under whatever other names the files are given. */
  ghost predicate NamesIgnored(g: Graph, sha: Text -> Text, files: seq<Text>) {
    forall rho, g', files' | OneToOne(rho) && Renamed(g, g', rho) && Onto(g, g', rho) && VisitedIn(g', files') ::
      KeepsHashes(rho, ModuleHashes(g, sha, files), ModuleHashes(g', sha, files'))
  }

  lemma UntangledIgnoresNames(g: Graph, sha: Text -> Text, files: seq<Text>)
    requires Closed(g) && Untangled(g) && VisitedIn(g, files)
    ensures NamesIgnored(g, sha, files)
  {
    hide HashAll, Untangled, Closed, Renamed, Onto, Merkle, KeepsHashes, UniqueSortedText;
    FingerprintIsMerkle(g, sha, files);
    forall rho, g', files' | OneToOne(rho) && Renamed(g, g', rho) && Onto(g, g', rho) && VisitedIn(g', files')
      ensures KeepsHashes(rho, ModuleHashes(g, sha, files), ModuleHashes(g', sha, files'))
    {
      RenamedUntangled(g, g', rho);
      FingerprintIsMerkle(g', sha, files');
      RenamedKeepsHashes(g, g', rho, sha, ModuleHashes(g, sha, files), ModuleHashes(g', sha, files'));
    }
  }

  /** Names that put the file `u` first. */
  function Front(u: Text): Renaming {
    (f: Text) => if f == u then [0] else [1] + f
  }

  function Back(u: Text, f': Text): Text {
    if f' == [0] then u else if f' == [] then [] else f'[1..]
  }

  lemma FrontBack(u: Text, f: Text)
    ensures Back(u, Front(u)(f)) == f && Front(u)(f) != []
  {
    assert ([1] + f)[0] == 1 && ([1] + f)[1..] == f;
  }

  ghost function FrontNames(g: Graph, u: Text): set<Text> {
    set f | f in g :: Front(u)(f)
  }

  /** The same modules under those names. */
  ghost function FrontGraph(g: Graph, u: Text): Graph {
    map f' | f' in FrontNames(g, u) ::
      var m := if Back(u, f') in g then g[Back(u, f')] else Module([], []);
      Module(m.source, UniqueSortedText(RenameFiles(Front(u), m.dependencies)))
  }

  lemma FrontModule(g: Graph, u: Text, f: Text)
    requires f in g
    ensures Front(u)(f) in FrontGraph(g, u)
    ensures FrontGraph(g, u)[Front(u)(f)]
         == Module(g[f].source, UniqueSortedText(RenameFiles(Front(u), g[f].dependencies)))
  {
    hide UniqueSortedText, RenameFiles;
    FrontBack(u, f);
  }

  lemma FrontRenames(g: Graph, u: Text)
    requires Closed(g)
    ensures Renamed(g, FrontGraph(g, u), Front(u)) && Onto(g, FrontGraph(g, u), Front(u)) && OneToOne(Front(u))
  {
    hide UniqueSortedText, RenameFiles, FrontGraph;
    var rho, g' := Front(u), FrontGraph(g, u);
    forall f | f in g
      ensures rho(f) in g' && g'[rho(f)].source == g[f].source
      ensures forall d | d in g[f].dependencies :: d in g && rho(d) in g'[rho(f)].dependencies
      ensures forall d' | d' in g'[rho(f)].dependencies :: exists d :: d in g[f].dependencies && rho(d) == d'
    {
      FrontModule(g, u, f);
      var deps := g[f].dependencies;
      UniqueSortedTextListing(RenameFiles(rho, deps));
      forall d | d in deps ensures rho(d) in g'[rho(f)].dependencies { RenamedIn(rho, deps, d); }
      forall d' | d' in g'[rho(f)].dependencies ensures exists d :: d in deps && rho(d) == d' {
        RenameFilesMember(rho, deps, d');
      }
    }
    FrontKeys(g, u);
    forall a, b | rho(a) == rho(b) ensures a == b {
      FrontBack(u, a);
      FrontBack(u, b);
    }
  }

  lemma FrontKeys(g: Graph, u: Text)
    ensures forall f' | f' in FrontGraph(g, u) :: exists f :: f in g && Front(u)(f) == f'
  {
  }

  lemma FrontFirst(g: Graph, u: Text, files: seq<Text>)
    requires u in g && VisitedIn(FrontGraph(g, u), files)
    ensures files != [] && files[0] == Front(u)(u)
  {
    hide FrontGraph, UniqueSortedText;
    FrontModule(g, u, u);
    FrontKeys(g, u);
    VisitedSorted(files);
    assert [0] in files;
    var j :| 0 <= j < |files| && files[j] == [0];
    assert files[0] in files;
    var f :| f in g && Front(u)(f) == files[0];
    if j > 0 { assert TextLe(files[0], files[j]); }
  }

  lemma VisitedSorted(files: seq<Text>)
    requires files == UniqueSortedText(files)
    ensures SortedBy(TextLe, files)
  {
    TextOrder();
    UniqueSortedListing(TextLe, files);
  }

  lemma VisitOrder(g: Graph) returns (files: seq<Text>)
    ensures VisitedIn(g, files)
  {
    hide UniqueSortedText;
    var all := Listing(g.Keys);
    files := UniqueSortedText(all);
    UniqueSortedTextListing(all);
    UniqueSortedTextBySet(files, all);
  }

  lemma {:induction false} PathRenamed(g: Graph, g': Graph, rho: Renaming, p: seq<Text>)
    requires Renamed(g, g', rho) && Path(ImportsOf(g), p)
    ensures CanReach(ImportsOf(g'), rho(p[0]), rho(p[|p| - 1]))
  {
    hide Renamed, CanReach;
    if |p| == 1 {
      ReachSelf(ImportsOf(g'), rho(p[0]));
    } else {
      PathTail(ImportsOf(g), p);
      PathRenamed(g, g', rho, p[1..]);
      RenamedAt(g, g', rho, p[0]);
      ReachStep(ImportsOf(g'), rho(p[0]), rho(p[1]), rho(p[|p| - 1]));
    }
  }

  /** Hashes that ignore names are larger at `u` than at what `u` reaches, whatever the real names are. */
  lemma IgnoredMeansLarger(g: Graph, sha: Text -> Text, size: Text -> nat, files: seq<Text>, u: Text, v: Text)
    requires Closed(g) && Covers(g, files) && NamesIgnored(g, sha, files) && Grows(sha, size) && NeverEmpty(sha)
    requires u in g && v in g && u != v && CanReach(ImportsOf(g), u, v)
    ensures var h := ModuleHashes(g, sha, files);
            u in h && v in h && size(h[v]) < size(h[u])
  {
    hide HashAll, Grows, NeverEmpty, FrontGraph, Renamed, Onto, UniqueSortedText;
    var rho, g' := Front(u), FrontGraph(g, u);
    FrontRenames(g, u);
    var files' := VisitOrder(g');
    FrontFirst(g, u, files');
    var p :| PathFrom(ImportsOf(g), u, p, v);
    PathRenamed(g, g', rho, p);
    RenamedClosed(g, g', rho);
    FirstIsLargest(g', sha, size, files', rho(v));
    HashAllTotal(g, sha, files, map[]);
    assert KeepsHashes(rho, ModuleHashes(g, sha, files), ModuleHashes(g', sha, files'));
  }

  lemma RenamedClosed(g: Graph, g': Graph, rho: Renaming)
    requires Renamed(g, g', rho) && Onto(g, g', rho)
    ensures Closed(g')
  {
    hide Renamed, Onto;
    forall f', d' | f' in g' && d' in g'[f'].dependencies ensures d' in g' {
      ImportRenamed(g, g', rho, f', d');
    }
  }

  /**
    Giving the files of a program other names never changes the hash of a module if and only if no two
    different modules reach each other.
   */
  lemma NamesIgnoredIff(g: Graph, sha: Text -> Text, size: Text -> nat, files: seq<Text>)
    requires Closed(g) && VisitedIn(g, files) && Grows(sha, size) && NeverEmpty(sha)
    ensures NamesIgnored(g, sha, files) <==> Untangled(g)
  {
    hide NamesIgnored, Grows, NeverEmpty, Closed, CanReach, ModuleHashes, UniqueSortedText;
    if Untangled(g) {
      UntangledIgnoresNames(g, sha, files);
    } else if NamesIgnored(g, sha, files) {
      var u, v :| u in g && v in g && CanReach(ImportsOf(g), u, v) && CanReach(ImportsOf(g), v, u) && u != v;
      IgnoredMeansLarger(g, sha, size, files, u, v);
      IgnoredMeansLarger(g, sha, size, files, v, u);
    }
  }

  // ---------------------------------------------------------------------------
  // There are such hashes
  // ---------------------------------------------------------------------------

  /** A hash that keeps the whole text. */
  function Tagged(t: Text): Text { [0] + t }

  function Length(t: Text): nat { |t| }

  lemma {:induction false} QuoteLonger(s: Text)
    ensures |QuoteBody(s)| >= |s| && |Quote(s)| > |s|
  {
    if s != [] { QuoteLonger(if StartsWithPair(s) then s[2..] else s[1..]); }
  }

  lemma {:induction false} ItemShorter(ts: seq<Text>, t: Text)
    requires t in ts
    ensures |ShowItems(Strings(ts))| > |t|
  {
    hide QuoteBody;
    var vs := Strings(ts);
    assert vs[0] == String(ts[0]) && vs[1..] == Strings(ts[1..]);
    if t == ts[0] {
      QuoteLonger(t);
    } else {
      ItemShorter(ts[1..], t);
    }
  }

  lemma {:induction false} MemberShorter(ms: seq<Member>, i: nat)
    requires i < |ms|
    ensures |ShowMembers(ms)| >= |Show(ms[i].value)|
  {
    hide Show, Quote;
    if i > 0 { MemberShorter(ms[1..], i - 1); }
  }

  lemma ShowLonger(items: seq<Value>, members: seq<Member>)
    ensures |Show(Array(items))| > |ShowItems(items)| && |Show(Object(members))| > |ShowMembers(members)|
  {
  }

  lemma DependencyShorter(source: Text, hashes: seq<Text>, t: Text)
    requires t in hashes
    ensures |t| < |Print(NodeValue(source, hashes))|
  {
    hide NodeValue, UniqueSortedText, Lookup, ShowMembers, ShowItems, Normalize, Show, Strings, Ascii;
    NodeIsObject(source, hashes);
    var ms, k, ts := NodeValue(source, hashes).members, Ascii("dependencies"), UniqueSortedText(hashes);
    NodeLookup(source, hashes, k);
    UniqueSortedTextListing(hashes);
    ItemShorter(ts, t);
    StringsPlain(ts);
    NormalArray(Strings(ts));
    NormalMembers(ms);
    var p := Normalize(Object(ms)).members;
    assert Defined(ms, k);
    var i :| 0 <= i < |KeysOf(p)| && KeysOf(p)[i] == k;
    assert p[i] in p && p[i].key == k;
    MemberShorter(p, i);
    ShowLonger(Strings(ts), p);
  }

  /** The assumptions on the hash can be met together. */
  lemma GrowthPossible()
    ensures Grows(Tagged, Length) && NeverEmpty(Tagged) && Injective(Tagged)
  {
    hide Print, NodeValue;
    forall source, hashes, t | t in hashes ensures Length(t) < Length(NodeHash(Tagged, source, hashes)) {
      DependencyShorter(source, hashes, t);
    }
    forall x, y | Tagged(x) == Tagged(y) ensures x == y { assert Tagged(x)[1..] == x && Tagged(y)[1..] == y; }
  }

  // ---------------------------------------------------------------------------
  // Two modules that import each other
  // ---------------------------------------------------------------------------

  const FILE_A: Text := Ascii("a.js")
  const FILE_B: Text := Ascii("b.js")

  lemma FilesDiffer()
    ensures FILE_A != FILE_B && TextLe(FILE_A, FILE_B)
  {
    assert FILE_A[0] == 'a' as int && FILE_B[0] == 'b' as int;
  }

  function Cycle(a: Text, b: Text): Graph {
    map[FILE_A := Module(a, [FILE_B]), FILE_B := Module(b, [FILE_A])]
  }

  function Swapping(x: Text, y: Text): Renaming {
    (f: Text) => if f == x then y else if f == y then x else f
  }

  function Swap(): Renaming { Swapping(FILE_A, FILE_B) }

  /** The module visited second counts the first as a marker, and the first counts the second. */
  lemma CycleVisit(sha: Text -> Text, a: Text, b: Text)
    requires NeverEmpty(sha)
    ensures var inner := NodeHash(sha, b, [sha(Ascii("__1tube_module_cycle__"))]);
            HashAll(Cycle(a, b), sha, [FILE_A, FILE_B], map[])
            == Some(map[FILE_B := inner, FILE_A := NodeHash(sha, a, [inner])])
  {
    hide NodeHash;
    FilesDiffer();
    var g, first, second := Cycle(a, b), FILE_A, FILE_B;
    assert g[first].dependencies == [second] && g[second].dependencies == [first];
    var cyc := sha(MODULE_CYCLE);
    var inner := NodeHash(sha, g[second].source, [cyc]);
    var outer := NodeHash(sha, g[first].source, [inner]);
    NodeHashNonEmpty(sha, g[second].source, [cyc]);
    NodeHashNonEmpty(sha, g[first].source, [inner]);
    var s1, s2 := {first}, {first} + {second};
    assert {} + {first} == s1;
    assert HashModule(g, sha, first, s2, map[]) == Some(Visit(cyc, map[]));
    DependencyOne(g, sha, first, s2, map[]);
    assert HashDependencies(g, sha, [first], s2, map[]) == Some(Visit([cyc], map[]));
    assert HashModule(g, sha, second, s1, map[]) == Some(Visit(inner, map[second := inner]));
    DependencyOne(g, sha, second, s1, map[]);
    assert HashModule(g, sha, first, {}, map[]) == Some(Visit(outer, map[second := inner][first := outer]));
    var memo := map[second := inner][first := outer];
    assert HashModule(g, sha, second, {}, memo) == Some(Visit(inner, memo));
    var rest: seq<Text> := [second];
    assert [first, second][1..] == rest && rest[1..] == [];
    assert HashAll(g, sha, rest, memo) == HashAll(g, sha, [], memo) == Some(memo);
  }

  lemma DependencyOne(g: Graph, sha: Text -> Text, d: Text, stack: set<Text>, memo: map<Text, Text>)
    ensures var v := HashModule(g, sha, d, stack, memo);
            HashDependencies(g, sha, [d], stack, memo)
            == if v.None? then None else Some(Visit([v.value.result], v.value.memo))
  {
    hide HashModule;
    assert [d][1..] == [];
    var v := HashModule(g, sha, d, stack, memo);
    if v.Some? {
      assert HashDependencies(g, sha, [], stack, v.value.memo) == Some(Visit([], v.value.memo));
      assert [v.value.result] + [] == [v.value.result];
    }
  }

  /** No module hashes to the cycle marker: its canonical text starts with a brace. */
  lemma CycleMarkerIsNoNode(sha: Text -> Text, source: Text, hashes: seq<Text>)
    requires Injective(sha)
    ensures NodeHash(sha, source, hashes) != sha(MODULE_CYCLE)
  {
    NodeIsObject(source, hashes);
    assert Print(NodeValue(source, hashes))[0] == OPEN_BRACE;
    assert MODULE_CYCLE[0] == '_' as int;
  }

  /** The hash of the module visited second is not among those of the swapped program. */
  lemma SwapShows(sha: Text -> Text, a: Text, b: Text)
    requires Injective(sha) && a != b
    ensures var cyc := sha(MODULE_CYCLE);
            var inner, inner' := NodeHash(sha, b, [cyc]), NodeHash(sha, a, [cyc]);
            inner != inner' && inner != NodeHash(sha, b, [inner'])
  {
    hide NodeHash, Injective;
    var cyc := sha(MODULE_CYCLE);
    var inner' := NodeHash(sha, a, [cyc]);
    NodeHashDistinguishes(sha, b, [cyc], a, [cyc]);
    NodeHashDistinguishes(sha, b, [cyc], b, [inner']);
    CycleMarkerIsNoNode(sha, a, [cyc]);
    assert cyc in [cyc] && cyc !in [inner'];
  }

  lemma TwoRenamed(x: Text, y: Text, a: Text, b: Text, rho: Renaming)
    requires x != y && rho(x) == y && rho(y) == x
    ensures Renamed(map[x := Module(a, [y]), y := Module(b, [x])], map[x := Module(b, [y]), y := Module(a, [x])], rho)
  {
    var g, g' := map[x := Module(a, [y]), y := Module(b, [x])], map[x := Module(b, [y]), y := Module(a, [x])];
    forall f | f in g
      ensures rho(f) in g' && g'[rho(f)].source == g[f].source
      ensures forall d | d in g[f].dependencies :: d in g && rho(d) in g'[rho(f)].dependencies
      ensures forall d' | d' in g'[rho(f)].dependencies :: exists d :: d in g[f].dependencies && rho(d) == d'
    {
      var other := if f == x then y else x;
      assert g[f].dependencies == [other] && g'[rho(f)].dependencies == [rho(other)];
      assert other in g[f].dependencies;
    }
  }

  lemma SwappingOneToOne(x: Text, y: Text, f: Text, f': Text)
    requires Swapping(x, y)(f) == Swapping(x, y)(f')
    ensures f == f'
  {
  }

  lemma SwapRenames(a: Text, b: Text)
    ensures Renamed(Cycle(a, b), Cycle(b, a), Swap()) && OneToOne(Swap())
  {
    hide Renamed, Ascii;
    FilesDiffer();
    TwoRenamed(FILE_A, FILE_B, a, b, Swap());
    hide Swapping;
    forall f, f' | Swap()(f) == Swap()(f') ensures f == f' { SwappingOneToOne(FILE_A, FILE_B, f, f'); }
  }

  lemma SwappedManifest(m: Manifest)
    requires m.functions == [] && m.sharedModules == [] && m.chunks == [FILE_A, FILE_B]
    ensures Rebuilt(m, m, Swap()) && ModuleFiles(m) == [FILE_A, FILE_B]
  {
    FilesDiffer();
    var rho := Swap();
    assert RenameFiles(rho, [FILE_B]) == [rho(FILE_B)] by { assert [FILE_B][1..] == []; }
    assert RenameFiles(rho, m.chunks) == [FILE_B, FILE_A] by { assert m.chunks[1..] == [FILE_B]; }
    assert Map(RenameFunction(rho), m.functions) == [] && Map(RenameShared(rho), m.sharedModules) == [];
    assert FilesOfAll(m.functions) + m.chunks + Map(BundleOf, m.sharedModules) == [FILE_A, FILE_B];
    TwoSorted(FILE_A, FILE_B);
  }

  lemma TwoSorted(a: Text, b: Text)
    requires a != b && TextLe(a, b)
    ensures UniqueSortedText([a, b]) == [a, b]
  {
    TextOrder();
    assert Distinct([a, b]) && SortedBy(TextLe, [a, b]);
    UniqueSortedListing(TextLe, [a, b]);
    SortedDistinctUnique(TextLe, UniqueSortedText([a, b]), [a, b]);
  }

  /** Equal documents list the same chunk hashes. */
  lemma ChunksShow(le: Locale, m: Manifest, h: map<Text, Text>, h': map<Text, Text>)
    requires Printable(Document(le, m, h)) && Outcome(Document(le, m, h')) == Outcome(Document(le, m, h))
    ensures SameSet(HashesOf(h', m.chunks), HashesOf(h, m.chunks))
  {
    hide Normalize, Lookup, HashesOf, UniqueSortedText;
    var v, w := Document(le, m, h'), Document(le, m, h);
    DocumentIsObject(le, m, h);
    DocumentIsObject(le, m, h');
    DocumentLookup(le, m, h);
    DocumentLookup(le, m, h');
    hide Document, Same, Strings;
    CanonicalIffSame(v, w);
    SameNormalizes(v, w);
    MembersSame(v.members, w.members, Ascii("chunks"));
    SameStrings(UniqueSortedText(HashesOf(h', m.chunks)), UniqueSortedText(HashesOf(h, m.chunks)));
    UniqueSortedTextListing(HashesOf(h, m.chunks));
    UniqueSortedTextListing(HashesOf(h', m.chunks));
  }

  /**
    A program whose fingerprint depends on its file names: for two modules of different sources that
    import each other, swapping the names changes the canonical text.
   */
  lemma SwappedNamesShow(le: Locale, sha: Text -> Text, m: Manifest, a: Text, b: Text)
    requires Injective(sha) && NeverEmpty(sha) && a != b
    requires m.functions == [] && m.sharedModules == [] && m.chunks == [FILE_A, FILE_B]
    requires var r := HashAll(Cycle(a, b), sha, ModuleFiles(m), map[]);
             r.Some? ==> Printable(Document(le, m, r.value))
    ensures Renamed(Cycle(a, b), Cycle(b, a), Swap()) && OneToOne(Swap()) && Rebuilt(m, m, Swap())
    ensures var r, r' := HashAll(Cycle(a, b), sha, ModuleFiles(m), map[]), HashAll(Cycle(b, a), sha, ModuleFiles(m), map[]);
            && r.Some? && r'.Some?
            && Outcome(Document(le, m, r'.value)) != Outcome(Document(le, m, r.value))
  {
    hide HashAll, Document, NodeHash, Outcome, Injective, NeverEmpty, Rebuilt, ModuleFiles, Renamed;
    FilesDiffer();
    SwapRenames(a, b);
    SwappedManifest(m);
    CycleVisit(sha, a, b);
    CycleVisit(sha, b, a);
    SwapShows(sha, a, b);
    var files := [FILE_A, FILE_B];
    var h, h' := HashAll(Cycle(a, b), sha, files, map[]).value, HashAll(Cycle(b, a), sha, files, map[]).value;
    TwoHashes(h);
    TwoHashes(h');
    assert h[FILE_B] in HashesOf(h, files) && h[FILE_B] !in HashesOf(h', files);
    if Outcome(Document(le, m, h')) == Outcome(Document(le, m, h)) { ChunksShow(le, m, h, h'); }
  }

  lemma TwoHashes(h: map<Text, Text>)
    requires FILE_A in h && FILE_B in h
    ensures HashesOf(h, [FILE_A, FILE_B]) == [h[FILE_A], h[FILE_B]]
  {
    assert [FILE_A, FILE_B][1..] == [FILE_B] && [FILE_B][1..] == [];
    assert HashesOf(h, [FILE_B]) == [h[FILE_B]];
  }
}
