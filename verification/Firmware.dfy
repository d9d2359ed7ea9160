/**
  The firmware content fingerprint: normalised module sources, a memoised depth-first Merkle hash
  over their dependency graph, and the canonical document assembled from the hashes.

  `sha` stands for hex SHA-256 and `le` for locale comparison; both are parameters.
 */
module Firmware {
  import opened Basics
  import opened Graphs
  import opened Sorting
  import opened JsText
  import opened Json
  import opened Splice
  import opened Rewrite

  // ---------------------------------------------------------------------------
  // Normalised modules
  // ---------------------------------------------------------------------------

  datatype Module = Module(source: Text, dependencies: seq<Text>)

  type Graph = map<Text, Module>

  const MODULE_REF: Text := Ascii("__1tube_module_ref__")
  const MODULE_CYCLE: Text := Ascii("__1tube_module_cycle__")

  /** `resolveModuleSpecifier` for a relative specifier: `resolve` joins and normalises the path. */
  type Resolver = (Text, Text) -> Text

  /** The known module a specifier refers to. */
  function Referred(resolve: Resolver, file: Text, known: set<Text>, raw: Text): Option<Text> {
    if !(Ascii(".") <= raw) then None
    else
      var target := resolve(file, raw);
      if target == [] || target !in known then None else Some(target)
  }

  /** The known module an import site refers to. */
  function Target(resolve: Resolver, file: Text, code: Text, known: set<Text>, site: ImportSite): Option<Text>
    requires site.start <= site.end <= |code|
  {
    Referred(resolve, file, known, if site.name.Some? then site.name.value else code[site.start..site.end])
  }

  ghost predicate InBounds(code: Text, imports: seq<ImportSite>) {
    forall i | 0 <= i < |imports| :: imports[i].start <= imports[i].end <= |code|
  }

  /** Sites that refer to a known module are replaced by one fixed text. */
  function RefPick(resolve: Resolver, file: Text, code: Text, known: set<Text>): ImportSite -> Option<Text> {
    (site: ImportSite) =>
      if site.start <= site.end <= |code| && Target(resolve, file, code, known, site).Some? then Some(MODULE_REF)
      else None
  }

  function Targets(resolve: Resolver, file: Text, code: Text, known: set<Text>, imports: seq<ImportSite>): (ts: seq<Text>)
    requires InBounds(code, imports)
    ensures forall t | t in ts :: t in known
  {
    if imports == [] then []
    else
      (match Target(resolve, file, code, known, imports[0]) case None => [] case Some(t) => [t])
      + Targets(resolve, file, code, known, imports[1..])
  }

  lemma {:induction false} TargetsSplit(
    resolve: Resolver, file: Text, code: Text, known: set<Text>, imports: seq<ImportSite>, i: nat)
    requires InBounds(code, imports) && i < |imports|
    ensures Targets(resolve, file, code, known, imports[..i + 1])
         == Targets(resolve, file, code, known, imports[..i])
          + (match Target(resolve, file, code, known, imports[i]) case None => [] case Some(t) => [t])
  {
    if i == 0 {
      assert imports[..1][1..] == [];
    } else {
      TargetsSplit(resolve, file, code, known, imports[1..], i - 1);
      assert imports[..i + 1][1..] == imports[1..][..i];
      assert imports[..i][1..] == imports[1..][..i - 1];
    }
  }

  lemma {:induction false} ChosenSplit(imports: seq<ImportSite>, i: nat, pick: ImportSite -> Option<Text>)
    requires i < |imports|
    ensures Chosen(imports[..i + 1], pick)
         == Chosen(imports[..i], pick)
          + (match pick(imports[i]) case None => [] case Some(t) => [Patch(imports[i].start, imports[i].end, t)])
  {
    if i == 0 {
      assert imports[..1][1..] == [];
    } else {
      ChosenSplit(imports[1..], i - 1, pick);
      assert imports[..i + 1][1..] == imports[1..][..i];
      assert imports[..i][1..] == imports[1..][..i - 1];
    }
  }

  // ---------------------------------------------------------------------------
  // The source-map comment
  // ---------------------------------------------------------------------------

  const SOURCE_MAP: Text := Ascii("//# sourceMappingURL=")
  const NEW_LINE: Text := [10]

  predicate EndsLine(u: Unit) { u == 10 || u == 13 || u == 0x2028 || u == 0x2029 }

  /** The first place where the comment starts, at or after `i`. */
  function FindComment(s: Text, i: nat): (k: Option<nat>)
    requires i <= |s|
    ensures k.Some? ==> i <= k.value <= |s| && SOURCE_MAP <= s[k.value..]
    ensures forall j | i <= j < (if k.Some? then k.value else |s|) :: !(SOURCE_MAP <= s[j..])
    decreases |s| - i
  {
    if SOURCE_MAP <= s[i..] then Some(i)
    else if i == |s| then None
    else FindComment(s, i + 1)
  }

  /** The rest of the line. */
  function LineRun(s: Text): (n: nat)
    ensures n <= |s| && (n < |s| ==> EndsLine(s[n])) && forall i | 0 <= i < n :: !EndsLine(s[i])
  {
    if s == [] || EndsLine(s[0]) then 0
    else
      var n := LineRun(s[1..]);
      assert forall i | 0 < i < n + 1 :: s[i] == s[1..][i - 1];
      n + 1
  }

  /** `source.replace(/\n?\/\/# sourceMappingURL=.*$/m, "\n")` */
  function StripSourceMap(s: Text): Text {
    match FindComment(s, 0)
    case None => s
    case Some(k) =>
      var rest := s[k + |SOURCE_MAP|..];
      s[..if k > 0 && s[k - 1] == 10 then k - 1 else k] + NEW_LINE + rest[LineRun(rest)..]
  }

  /** No comment starts in the text, or starts there and runs on into a comment put behind it. */
  ghost predicate NoComment(pre: Text) {
    forall j | 0 <= j < |pre| :: !(SOURCE_MAP <= (pre + SOURCE_MAP)[j..])
  }

  lemma FindCommentIs(s: Text, i: nat, k: nat)
    requires i <= k <= |s| && SOURCE_MAP <= s[k..] && forall j | i <= j < k :: !(SOURCE_MAP <= s[j..])
    ensures FindComment(s, i) == Some(k)
    decreases k - i
  {
    if i < k { FindCommentIs(s, i + 1, k); }
  }

  lemma LineRunIs(s: Text, n: nat)
    requires n <= |s| && (n < |s| ==> EndsLine(s[n])) && forall i | 0 <= i < n :: !EndsLine(s[i])
    ensures LineRun(s) == n
  {
  }

  /**
    Of the first source-map comment only its place is left: the line end before it goes, one takes its
    place, and whatever address it gave is forgotten.
   */
  lemma SourceMapForgotten(pre: Text, url: Text, rest: Text)
    requires NoComment(pre)
    requires forall i | 0 <= i < |url| :: url[i] !in {10, 13, 0x2028, 0x2029}
    requires rest != [] ==> rest[0] in {10, 13, 0x2028, 0x2029}
    ensures StripSourceMap(pre + Ascii("//# sourceMappingURL=") + url + rest)
         == (if pre != [] && pre[|pre| - 1] == 10 then pre[..|pre| - 1] else pre) + [10] + rest
  {
    hide FindComment, LineRun, Ascii, NoComment;
    var s := pre + SOURCE_MAP + url + rest;
    assert s == pre + SOURCE_MAP + (url + rest);
    CommentFound(pre, url + rest);
    Cut(pre, SOURCE_MAP, url + rest);
    UrlEnds(url, rest);
  }

  /** A source without such a comment stays as it is. */
  lemma UncommentedStays(s: Text)
    requires forall j | 0 <= j <= |s| :: !(Ascii("//# sourceMappingURL=") <= s[j..])
    ensures StripSourceMap(s) == s
  {
    hide Ascii;
  }

  lemma CommentFound(pre: Text, tail: Text)
    requires NoComment(pre)
    ensures FindComment(pre + SOURCE_MAP + tail, 0) == Some(|pre|)
  {
    hide FindComment, Ascii;
    var s := pre + SOURCE_MAP + tail;
    forall j | 0 <= j < |pre| ensures !(SOURCE_MAP <= s[j..]) {
      NotEarlier(pre, SOURCE_MAP, tail, j);
    }
    Cut(pre, SOURCE_MAP, tail);
    FindCommentIs(s, 0, |pre|);
  }

  lemma UrlEnds(url: Text, rest: Text)
    requires (forall i | 0 <= i < |url| :: !EndsLine(url[i])) && (rest != [] ==> EndsLine(rest[0]))
    ensures (url + rest)[LineRun(url + rest)..] == rest
  {
    hide LineRun;
    LineRunIs(url + rest, |url|);
  }

  lemma NotEarlier(pre: Text, mark: Text, tail: Text, j: nat)
    requires j < |pre| && !(mark <= (pre + mark)[j..])
    ensures !(mark <= (pre + mark + tail)[j..])
  {
    var s, t := (pre + mark)[j..], (pre + mark + tail)[j..];
    assert s == t[..|s|];
  }

  lemma Cut(pre: Text, mark: Text, tail: Text)
    ensures var s := pre + mark + tail;
            && mark <= s[|pre|..] && s[|pre| + |mark|..] == tail && s[..|pre|] == pre
            && (pre != [] ==> s[|pre| - 1] == pre[|pre| - 1] && s[..|pre| - 1] == pre[..|pre| - 1])
  {
    assert (pre + mark + tail)[|pre|..] == mark + tail;
  }

  type Lexer = Text -> seq<ImportSite>

  /** The sites the lexer reports lie in the text, and those to be replaced follow each other. */
  ghost predicate Lexable(resolve: Resolver, lex: Lexer, file: Text, source: Text, known: set<Text>) {
    var code := StripSourceMap(source);
    InBounds(code, lex(code)) && Ascending(Chosen(lex(code), RefPick(resolve, file, code, known)), 0, |code|)
  }

  /** A module without its source-map comment, its specifiers of known modules and their names. */
  ghost function Normalized(resolve: Resolver, lex: Lexer, file: Text, source: Text, known: set<Text>): Module
    requires Lexable(resolve, lex, file, source, known)
  {
    var code := StripSourceMap(source);
    Module(
      Replace(code, Chosen(lex(code), RefPick(resolve, file, code, known))),
      UniqueSortedText(Targets(resolve, file, code, known, lex(code))))
  }

  /** `normalizeModule`; `lex` is the module lexer. */
  method NormalizeModule(resolve: Resolver, lex: Lexer, file: Text, source: Text, known: set<Text>)
    returns (m: Module)
    requires Lexable(resolve, lex, file, source, known)
    ensures m == Normalized(resolve, lex, file, source, known)
    ensures var code := StripSourceMap(source);
            && m.source == Replace(code, Chosen(lex(code), RefPick(resolve, file, code, known)))
            && m.dependencies == UniqueSortedText(Targets(resolve, file, code, known, lex(code)))
    ensures forall d | d in m.dependencies :: d in known
  {
    var code := StripSourceMap(source);
    var imports := lex(code);
    ghost var pick := RefPick(resolve, file, code, known);
    var dependencies: seq<Text> := [];
    var patches: seq<Patch<Unit>> := [];
    for i := 0 to |imports|
      invariant dependencies == Targets(resolve, file, code, known, imports[..i])
      invariant patches == Chosen(imports[..i], pick)
    {
      TargetsSplit(resolve, file, code, known, imports, i);
      ChosenSplit(imports, i, pick);
      var target := Target(resolve, file, code, known, imports[i]);
      if target.Some? {
        dependencies := dependencies + [target.value];
        patches := patches + [Patch(imports[i].start, imports[i].end, MODULE_REF)];
      }
    }
    assert imports[..|imports|] == imports;
    var normalized := SpliceBackToFront(code, patches);
    m := Module(normalized, UniqueSortedText(dependencies));
    TextOrder();
    UniqueSortedListing(TextLe, dependencies);
  }

  // ---------------------------------------------------------------------------
  // Merkle hashes
  // ---------------------------------------------------------------------------

  function Strings(ts: seq<Text>): (vs: seq<Value>)
    ensures |vs| == |ts|
  {
    Map(t => String(t), ts)
  }

  function NodeValue(source: Text, hashes: seq<Text>): Value {
    Object([
      Member(Ascii("source"), String(source)),
      Member(Ascii("dependencies"), Array(Strings(UniqueSortedText(hashes))))
    ])
  }

  /** The hash of a module with this source whose dependencies have these hashes. */
  function NodeHash(sha: Text -> Text, source: Text, hashes: seq<Text>): Text {
    sha(Print(NodeValue(source, hashes)))
  }

  function Hashes(h: map<Text, Text>, files: seq<Text>): (hs: seq<Text>)
    requires forall f | f in files :: f in h
    ensures |hs| == |files| && forall i | 0 <= i < |files| :: hs[i] == h[files[i]]
  {
    if files == [] then [] else [h[files[0]]] + Hashes(h, files[1..])
  }

  /** The hashes as a module sees them: its own is the cycle marker. */
  function Seen(sha: Text -> Text, h: map<Text, Text>, file: Text): map<Text, Text> {
    h[file := sha(MODULE_CYCLE)]
  }

  /** `h` satisfies the Merkle equation at each of its modules. */
  ghost predicate Partial(g: Graph, sha: Text -> Text, h: map<Text, Text>) {
    forall f | f in h ::
      && f in g
      && (forall d | d in g[f].dependencies :: d == f || d in h)
      && h[f] == NodeHash(sha, g[f].source, Hashes(Seen(sha, h, f), g[f].dependencies))
  }

  /** `h` is a Merkle hashing of the whole graph. */
  ghost predicate Merkle(g: Graph, sha: Text -> Text, h: map<Text, Text>) {
    h.Keys == g.Keys && Partial(g, sha, h)
  }

  ghost predicate Closed(g: Graph) {
    forall f, d | f in g && d in g[f].dependencies :: d in g
  }

  function ImportsOf(g: Graph): Edges<Text> {
    map f | f in g :: g[f].dependencies
  }

  /** No two different modules reach each other; a module may import itself. */
  ghost predicate Untangled(g: Graph) {
    forall u, v | u in g && v in g && CanReach(ImportsOf(g), u, v) && CanReach(ImportsOf(g), v, u) :: u == v
  }

  /** A rank that falls along every import, but for those of a module by itself. */
  ghost predicate Ranked(g: Graph, rank: map<Text, nat>) {
    && rank.Keys == g.Keys
    && (forall f, d | f in g && d in g[f].dependencies :: d in g && (d != f ==> rank[d] < rank[f]))
  }

  lemma {:induction false} RankFalls(g: Graph, rank: map<Text, nat>, p: seq<Text>)
    requires Ranked(g, rank) && Path(ImportsOf(g), p) && p[0] in g
    ensures var last := p[|p| - 1];
            last in g && (last == p[0] || rank[last] < rank[p[0]])
  {
    if |p| > 1 {
      PathTail(ImportsOf(g), p);
      RankFalls(g, rank, p[1..]);
    }
  }

  lemma RankedUntangled(g: Graph, rank: map<Text, nat>)
    requires Ranked(g, rank)
    ensures Untangled(g)
  {
    forall u, v | u in g && v in g && CanReach(ImportsOf(g), u, v) && CanReach(ImportsOf(g), v, u) ensures u == v {
      var p :| PathFrom(ImportsOf(g), u, p, v);
      var q :| PathFrom(ImportsOf(g), v, q, u);
      RankFalls(g, rank, p);
      RankFalls(g, rank, q);
    }
  }

  ghost function Reached(g: Graph, file: Text): set<Text> {
    set x | x in g && CanReach(ImportsOf(g), file, x)
  }

  lemma ReachedShrinks(g: Graph, f: Text, d: Text)
    requires Closed(g) && Untangled(g) && f in g && d in g[f].dependencies && d != f
    ensures Reached(g, d) < Reached(g, f)
  {
    hide CanReach;
    var e := ImportsOf(g);
    ReachSelf(e, f);
    ReachSelf(e, d);
    ReachStep(e, f, d, d);
    forall x | x in Reached(g, d) ensures x in Reached(g, f) { ReachStep(e, f, d, x); }
    assert f in Reached(g, f) && f !in Reached(g, d);
  }

  lemma Smaller<T>(a: set<T>, b: set<T>)
    requires a < b
    ensures |a| < |b|
  {
    assert b == a + (b - a) && b - a != {};
  }

  /** The number of modules a module reaches is a rank. */
  lemma UntangledRanked(g: Graph) returns (rank: map<Text, nat>)
    requires Closed(g) && Untangled(g)
    ensures Ranked(g, rank)
  {
    hide Reached, Untangled;
    rank := map f | f in g :: |Reached(g, f)|;
    forall f, d | f in g && d in g[f].dependencies && d != f ensures rank[d] < rank[f] {
      ReachedShrinks(g, f, d);
      Smaller(Reached(g, d), Reached(g, f));
    }
  }

  /** Only the set of dependency hashes matters to a module's hash. */
  lemma NodeHashBySet(sha: Text -> Text, source: Text, a: seq<Text>, b: seq<Text>)
    requires forall t :: t in a <==> t in b
    ensures NodeHash(sha, source, a) == NodeHash(sha, source, b)
  {
    TextOrder();
    UniqueSortedBySet(TextLe, a, b);
  }

  // ---------------------------------------------------------------------------
  // The memoised depth-first hash
  // ---------------------------------------------------------------------------

  datatype Visit<T> = Visit(result: T, memo: map<Text, Text>)

  /** `hashModule`: None when a module is missing and the function throws. */
  function HashModule(g: Graph, sha: Text -> Text, file: Text, stack: set<Text>, memo: map<Text, Text>):
    Option<Visit<Text>>
    decreases g.Keys - stack, 0
  {
    if file in memo && memo[file] != [] then Some(Visit(memo[file], memo))
    else if file !in g then None
    else if file in stack then Some(Visit(sha(MODULE_CYCLE), memo))
    else
      match HashDependencies(g, sha, g[file].dependencies, stack + {file}, memo)
      case None => None
      case Some(v) =>
        var hash := NodeHash(sha, g[file].source, v.result);
        Some(Visit(hash, v.memo[file := hash]))
  }

  function HashDependencies(g: Graph, sha: Text -> Text, deps: seq<Text>, stack: set<Text>, memo: map<Text, Text>):
    Option<Visit<seq<Text>>>
    decreases g.Keys - stack, 1, |deps|
  {
    if deps == [] then Some(Visit([], memo))
    else
      match HashModule(g, sha, deps[0], stack, memo)
      case None => None
      case Some(v) =>
        match HashDependencies(g, sha, deps[1..], stack, v.memo)
        case None => None
        case Some(vs) => Some(Visit([v.result] + vs.result, vs.memo))
  }

  /** The loop over the root modules. */
  function HashAll(g: Graph, sha: Text -> Text, files: seq<Text>, memo: map<Text, Text>): Option<map<Text, Text>> {
    if files == [] then Some(memo)
    else
      match HashModule(g, sha, files[0], {}, memo)
      case None => None
      case Some(v) => HashAll(g, sha, files[1..], v.memo)
  }

  ghost predicate Extends(a: map<Text, Text>, b: map<Text, Text>) {
    forall f | f in a :: f in b && a[f] == b[f]
  }

  lemma HashesExtend(a: map<Text, Text>, b: map<Text, Text>, files: seq<Text>)
    requires Extends(a, b) && forall f | f in files :: f in a
    ensures forall f | f in files :: f in b
    ensures Hashes(a, files) == Hashes(b, files)
  {
  }

  /** Below every module on the stack there is none of them to meet. */
  ghost predicate Above(stack: set<Text>, rank: map<Text, nat>, r: nat) {
    forall s | s in stack :: s in rank && r < rank[s]
  }

  /** Open modules get no hash meanwhile. */
  ghost predicate LeavesOpen(stack: set<Text>, memo: map<Text, Text>, memo': map<Text, Text>) {
    forall s | s in stack && s in memo' :: s in memo
  }

  /** On an untangled graph a visit extends a partial Merkle hashing by the module it visits. */
  lemma {:induction false} HashModuleMerkle(
    g: Graph, sha: Text -> Text, rank: map<Text, nat>, file: Text, stack: set<Text>, memo: map<Text, Text>)
    requires Ranked(g, rank) && file in g && Above(stack, rank, rank[file])
    requires Partial(g, sha, memo)
    ensures var v := HashModule(g, sha, file, stack, memo);
            && v.Some? && Partial(g, sha, v.value.memo) && Extends(memo, v.value.memo)
            && LeavesOpen(stack, memo, v.value.memo)
            && file in v.value.memo && v.value.result == v.value.memo[file]
    decreases rank[file], 0
  {
    hide NodeHash, HashDependencies, Hashes, Partial;
    if !(file in memo && memo[file] != []) {
      var deps := g[file].dependencies;
      forall i | 0 <= i < |deps| ensures deps[i] in g && (deps[i] != file ==> rank[deps[i]] < rank[file]) {
        assert deps[i] in deps;
      }
      HashDependenciesMerkle(g, sha, rank, file, deps, stack + {file}, memo);
      var v := HashDependencies(g, sha, deps, stack + {file}, memo).value;
      PartialGrows(g, sha, v.memo, file, NodeHash(sha, g[file].source, v.result));
    }
  }

  lemma PartialGrows(g: Graph, sha: Text -> Text, memo: map<Text, Text>, file: Text, hash: Text)
    requires Partial(g, sha, memo) && file in g
    requires forall d | d in g[file].dependencies :: d == file || d in memo
    requires hash == NodeHash(sha, g[file].source, Hashes(Seen(sha, memo, file), g[file].dependencies))
    ensures Partial(g, sha, memo[file := hash]) && Extends(memo, memo[file := hash])
  {
    hide NodeHash, Hashes;
    var memo' := memo[file := hash];
    assert Extends(memo, memo');
    forall f | f in memo'
      ensures forall d | d in g[f].dependencies :: d == f || d in memo'
      ensures memo'[f] == NodeHash(sha, g[f].source, Hashes(Seen(sha, memo', f), g[f].dependencies))
    {
      HashesExtend(Seen(sha, memo, f), Seen(sha, memo', f), g[f].dependencies);
    }
  }

  lemma {:induction false} HashDependenciesMerkle(
    g: Graph, sha: Text -> Text, rank: map<Text, nat>, file: Text, deps: seq<Text>, stack: set<Text>, memo: map<Text, Text>)
    requires Ranked(g, rank) && file in g && file in stack
    requires forall i | 0 <= i < |deps| :: deps[i] in g && (deps[i] != file ==> rank[deps[i]] < rank[file])
    requires forall s | s in stack :: s in rank && rank[file] <= rank[s]
    requires Partial(g, sha, memo) && (file in memo ==> memo[file] == [])
    ensures var v := HashDependencies(g, sha, deps, stack, memo);
            && v.Some? && Partial(g, sha, v.value.memo) && Extends(memo, v.value.memo)
            && LeavesOpen(stack, memo, v.value.memo)
            && (forall d | d in deps :: d == file || d in v.value.memo)
            && v.value.result == Hashes(Seen(sha, v.value.memo, file), deps)
    decreases rank[file], 0, |deps|
  {
    hide Partial, NodeHash, HashModule;
    if deps != [] {
      OneDependencyMerkle(g, sha, rank, file, deps[0], stack, memo);
      var v := HashModule(g, sha, deps[0], stack, memo).value;
      HashDependenciesMerkle(g, sha, rank, file, deps[1..], stack, v.memo);
    }
  }

  lemma {:induction false} OneDependencyMerkle(
    g: Graph, sha: Text -> Text, rank: map<Text, nat>, file: Text, d: Text, stack: set<Text>, memo: map<Text, Text>)
    requires Ranked(g, rank) && file in g && file in stack && d in g && (d != file ==> rank[d] < rank[file])
    requires forall s | s in stack :: s in rank && rank[file] <= rank[s]
    requires Partial(g, sha, memo) && (file in memo ==> memo[file] == [])
    ensures var v := HashModule(g, sha, d, stack, memo);
            && v.Some? && Partial(g, sha, v.value.memo) && Extends(memo, v.value.memo)
            && LeavesOpen(stack, memo, v.value.memo)
            && (file in v.value.memo ==> v.value.memo[file] == [])
            && (d == file || d in v.value.memo)
            && v.value.result == Seen(sha, v.value.memo, file)[d]
    decreases rank[file], 0, 0
  {
    hide Partial, NodeHash, HashDependencies;
    if d != file {
      hide HashModule;
      HashModuleMerkle(g, sha, rank, d, stack, memo);
    }
  }

  lemma {:induction false} HashAllMerkle(
    g: Graph, sha: Text -> Text, rank: map<Text, nat>, files: seq<Text>, memo: map<Text, Text>)
    requires Ranked(g, rank) && (forall f | f in files :: f in g) && Partial(g, sha, memo)
    ensures var r := HashAll(g, sha, files, memo);
            && r.Some? && Partial(g, sha, r.value) && Extends(memo, r.value)
            && (forall f | f in files :: f in r.value)
  {
    hide Partial, NodeHash, HashModule;
    if files != [] {
      assert files[0] in files;
      HashModuleMerkle(g, sha, rank, files[0], {}, memo);
      HashAllMerkle(g, sha, rank, files[1..], HashModule(g, sha, files[0], {}, memo).value.memo);
      assert forall f | f in files :: f == files[0] || f in files[1..];
    }
  }

  lemma HashesAgree(h: map<Text, Text>, h': map<Text, Text>, files: seq<Text>)
    requires forall f | f in files :: f in h && f in h' && h[f] == h'[f]
    ensures Hashes(h, files) == Hashes(h', files)
  {
    forall i | 0 <= i < |files| ensures Hashes(h, files)[i] == Hashes(h', files)[i] { assert files[i] in files; }
  }

  lemma MerkleAt(g: Graph, sha: Text -> Text, h: map<Text, Text>, file: Text)
    requires Merkle(g, sha, h) && file in g
    ensures file in h && (forall d | d in g[file].dependencies :: d == file || d in h)
    ensures h[file] == NodeHash(sha, g[file].source, Hashes(Seen(sha, h, file), g[file].dependencies))
  {
    hide NodeHash, Hashes, Seen;
    assert file in h.Keys;
  }

  /** A Merkle hashing of an untangled graph is unique. */
  lemma {:induction false} MerkleUniqueAt(
    g: Graph, sha: Text -> Text, rank: map<Text, nat>, h: map<Text, Text>, h': map<Text, Text>, file: Text)
    requires Ranked(g, rank) && Merkle(g, sha, h) && Merkle(g, sha, h') && file in g
    ensures h.Keys == h'.Keys == g.Keys && h[file] == h'[file]
    decreases rank[file]
  {
    hide NodeHash, Hashes, Partial;
    MerkleAt(g, sha, h, file);
    MerkleAt(g, sha, h', file);
    forall d | d in g[file].dependencies && d != file ensures h[d] == h'[d] {
      MerkleUniqueAt(g, sha, rank, h, h', d);
    }
    HashesAgree(Seen(sha, h, file), Seen(sha, h', file), g[file].dependencies);
  }

  lemma MerkleUnique(g: Graph, sha: Text -> Text, rank: map<Text, nat>, h: map<Text, Text>, h': map<Text, Text>)
    requires Ranked(g, rank) && Merkle(g, sha, h) && Merkle(g, sha, h')
    ensures h == h'
  {
    hide Partial, Ranked;
    assert h.Keys == h'.Keys;
    forall f | f in h ensures h[f] == h'[f] {
      MerkleUniqueAt(g, sha, rank, h, h', f);
    }
  }

  lemma PartialKeys(g: Graph, sha: Text -> Text, h: map<Text, Text>)
    ensures Partial(g, sha, map[])
    ensures Partial(g, sha, h) ==> h.Keys <= g.Keys
  {
  }

  /**
    Where no two different modules reach each other, visiting the modules in any order that covers them
    gives each module its recursive Merkle hash, and there is only one such hashing.
   */
  lemma FingerprintIsMerkle(g: Graph, sha: Text -> Text, files: seq<Text>)
    requires Closed(g) && Untangled(g) && (forall f :: f in files <==> f in g)
    ensures var r := HashAll(g, sha, files, map[]);
            && r.Some? && Merkle(g, sha, r.value)
            && (forall h | Merkle(g, sha, h) :: h == r.value)
  {
    hide HashAll, Partial, Ranked, Untangled;
    var rank := UntangledRanked(g);
    PartialKeys(g, sha, map[]);
    HashAllMerkle(g, sha, rank, files, map[]);
    var r := HashAll(g, sha, files, map[]).value;
    PartialKeys(g, sha, r);
    assert r.Keys == g.Keys;
    forall h | Merkle(g, sha, h) ensures h == r {
      MerkleUnique(g, sha, rank, h, r);
    }
  }

  /** On any closed graph, cycles included, the visit ends and every module off the stack gets a hash. */
  lemma {:induction false} HashModuleTotal(
    g: Graph, sha: Text -> Text, file: Text, stack: set<Text>, memo: map<Text, Text>)
    requires Closed(g) && file in g
    ensures var v := HashModule(g, sha, file, stack, memo);
            v.Some? && memo.Keys <= v.value.memo.Keys && (file in v.value.memo || file in stack)
    decreases g.Keys - stack, 0
  {
    if !(file in memo && memo[file] != []) && file !in stack {
      var deps := g[file].dependencies;
      assert g.Keys - (stack + {file}) < g.Keys - stack by {
        assert file in g.Keys - stack;
      }
      HashDependenciesTotal(g, sha, deps, stack + {file}, memo);
    }
  }

  lemma {:induction false} HashDependenciesTotal(
    g: Graph, sha: Text -> Text, deps: seq<Text>, stack: set<Text>, memo: map<Text, Text>)
    requires Closed(g) && forall i | 0 <= i < |deps| :: deps[i] in g
    ensures var v := HashDependencies(g, sha, deps, stack, memo);
            v.Some? && memo.Keys <= v.value.memo.Keys
    decreases g.Keys - stack, 1, |deps|
  {
    if deps != [] {
      HashModuleTotal(g, sha, deps[0], stack, memo);
      HashDependenciesTotal(g, sha, deps[1..], stack, HashModule(g, sha, deps[0], stack, memo).value.memo);
    }
  }

  lemma {:induction false} HashAllTotal(g: Graph, sha: Text -> Text, files: seq<Text>, memo: map<Text, Text>)
    requires Closed(g) && (forall f | f in files :: f in g)
    ensures var r := HashAll(g, sha, files, memo);
            r.Some? && memo.Keys <= r.value.Keys && (forall f | f in files :: f in r.value)
  {
    if files != [] {
      assert files[0] in files;
      HashModuleTotal(g, sha, files[0], {}, memo);
      HashAllTotal(g, sha, files[1..], HashModule(g, sha, files[0], {}, memo).value.memo);
      assert forall f | f in files :: f == files[0] || f in files[1..];
    }
  }

  // ---------------------------------------------------------------------------
  // What a hash distinguishes
  // ---------------------------------------------------------------------------

  ghost predicate Injective(sha: Text -> Text) {
    forall x, y | sha(x) == sha(y) :: x == y
  }

  lemma {:induction false} StringsPlain(ts: seq<Text>)
    ensures NormalizeItems(Strings(ts)) == Strings(ts)
    ensures FaultInItems(Strings(ts)).None?
  {
    if ts != [] { StringsPlain(ts[1..]); }
  }

  lemma {:induction false} StringsInjective(a: seq<Text>, b: seq<Text>)
    requires Strings(a) == Strings(b)
    ensures a == b
  {
    assert |a| == |Strings(a)| == |Strings(b)| == |b|;
    if a != [] {
      assert Strings(a)[0] == String(a[0]) && Strings(b)[0] == String(b[0]);
      assert Strings(a)[1..] == Strings(a[1..]) && Strings(b)[1..] == Strings(b[1..]);
      StringsInjective(a[1..], b[1..]);
    }
  }

  lemma {:induction false} MembersPlain(ms: seq<Member>)
    requires forall m | m in ms :: Fault(m.value).None?
    ensures FaultInMembers(ms).None?
  {
    if ms != [] {
      assert ms[0] in ms;
      MembersPlain(ms[1..]);
    }
  }

  lemma NodeLookup(source: Text, hashes: seq<Text>, k: Text)
    ensures var ms := NodeValue(source, hashes).members;
            Lookup(ms, k) == if k == Ascii("source") then String(source)
                             else if k == Ascii("dependencies") then Array(Strings(UniqueSortedText(hashes)))
                             else Undefined
    ensures Ascii("source") != Ascii("dependencies")
  {
    assert |Ascii("source")| != |Ascii("dependencies")|;
    var ms := NodeValue(source, hashes).members;
    assert ms[1..][0] == ms[1] && ms[1..][1..] == [];
  }

  lemma NodeMemberPlain(source: Text, hashes: seq<Text>, k: Text)
    requires Defined(NodeValue(source, hashes).members, k)
    ensures Fault(Normalize(Lookup(NodeValue(source, hashes).members, k))).None?
  {
    hide NodeValue, UniqueSortedText, Lookup;
    NodeLookup(source, hashes, k);
    StringsPlain(UniqueSortedText(hashes));
  }

  lemma NodePrintable(source: Text, hashes: seq<Text>)
    ensures Printable(NodeValue(source, hashes))
  {
    hide NodeValue, UniqueSortedText, Normalize, Lookup, Defined, SortedBy;
    var v := NodeValue(source, hashes);
    NodeIsObject(source, hashes);
    var p := Normalize(v).members;
    NormalMembers(v.members);
    forall m | m in p ensures Fault(m.value).None? {
      var i :| 0 <= i < |p| && p[i] == m;
      assert KeysOf(p)[i] == m.key;
      NodeMemberPlain(source, hashes, m.key);
    }
    MembersPlain(p);
  }

  lemma NodeIsObject(source: Text, hashes: seq<Text>)
    ensures NodeValue(source, hashes).Object?
    ensures Normalize(NodeValue(source, hashes)).Object?
  {
  }

  lemma NodeSame(s: Text, a: seq<Text>, t: Text, b: seq<Text>)
    requires Same(NodeValue(s, a), NodeValue(t, b))
    ensures s == t && UniqueSortedText(a) == UniqueSortedText(b)
  {
    hide NodeValue, UniqueSortedText, Strings;
    NodeIsObject(s, a);
    NodeIsObject(t, b);
    NodeLookup(s, a, Ascii("source"));
    NodeLookup(t, b, Ascii("source"));
    NodeLookup(s, a, Ascii("dependencies"));
    NodeLookup(t, b, Ascii("dependencies"));
    var ms, ns := NodeValue(s, a).members, NodeValue(t, b).members;
    assert Defined(ms, Ascii("source")) && Defined(ns, Ascii("source"));
    assert Defined(ms, Ascii("dependencies")) && Defined(ns, Ascii("dependencies"));
    var xs, ys := Strings(UniqueSortedText(a)), Strings(UniqueSortedText(b));
    assert Same(Array(xs), Array(ys));
    SameStrings(UniqueSortedText(a), UniqueSortedText(b));
  }

  lemma {:induction false} SameStrings(a: seq<Text>, b: seq<Text>)
    requires Same(Array(Strings(a)), Array(Strings(b)))
    ensures a == b
  {
    SameNormalizes(Array(Strings(a)), Array(Strings(b)));
    StringsPlain(a);
    StringsPlain(b);
    StringsInjective(a, b);
  }

  /**
    With a collision-free hash, two modules hash alike exactly when their normalised sources are
    equal and their dependencies have the same set of hashes.
   */
  lemma NodeHashDistinguishes(sha: Text -> Text, s: Text, a: seq<Text>, t: Text, b: seq<Text>)
    requires Injective(sha)
    ensures NodeHash(sha, s, a) == NodeHash(sha, t, b) <==> s == t && forall h :: h in a <==> h in b
  {
    if s == t && forall h :: h in a <==> h in b {
      NodeHashBySet(sha, s, a, b);
    }
    if NodeHash(sha, s, a) == NodeHash(sha, t, b) {
      hide NodeValue, UniqueSortedText;
      NodePrintable(s, a);
      NodePrintable(t, b);
      CanonicalIffSame(NodeValue(s, a), NodeValue(t, b));
      NodeSame(s, a, t, b);
      UniqueSortedTextListing(a);
      UniqueSortedTextListing(b);
    }
  }

  /**
    With a collision-free hash, modules of two programs that hash alike have equal normalised sources and
    dependencies that hash alike, each counting itself as the cycle marker.
   */
  lemma EqualHashesUnfold(
    sha: Text -> Text, g: Graph, h: map<Text, Text>, f: Text, g': Graph, h': map<Text, Text>, f': Text)
    requires Injective(sha) && Merkle(g, sha, h) && Merkle(g', sha, h') && f in g && f' in g'
    ensures f in h && f' in h' && (forall d | d in g[f].dependencies :: d == f || d in h)
    ensures forall d | d in g'[f'].dependencies :: d == f' || d in h'
    ensures h[f] == h'[f'] <==>
            && g[f].source == g'[f'].source
            && forall t :: t in Hashes(Seen(sha, h, f), g[f].dependencies) <==> t in Hashes(Seen(sha, h', f'), g'[f'].dependencies)
  {
    hide NodeHash, Hashes, Partial, Injective;
    MerkleAt(g, sha, h, f);
    MerkleAt(g', sha, h', f');
    NodeHashDistinguishes(sha, g[f].source, Hashes(Seen(sha, h, f), g[f].dependencies),
      g'[f'].source, Hashes(Seen(sha, h', f'), g'[f'].dependencies));
  }

  lemma UniqueSortedTextListing(xs: seq<Text>)
    ensures forall x :: x in UniqueSortedText(xs) <==> x in xs
  {
    TextOrder();
    UniqueSortedListing(TextLe, xs);
  }
}
