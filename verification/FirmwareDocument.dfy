/**
  The imperative hasher, the canonical firmware document, and what the document does not depend on:
  module file names, and the order of functions, chunks and shared modules.
 */
module FirmwareDocument {
  import opened Basics
  import opened Graphs
  import opened Sorting
  import opened JsText
  import opened Json
  import opened Firmware

  // ---------------------------------------------------------------------------
  // The memoising hasher
  // ---------------------------------------------------------------------------

  /** The closure state of `computeFirmwareContentFingerprint`: the cache, and the stack of open modules. */
  class Hasher {
    const g: Graph
    const sha: Text -> Text
    var moduleHashes: map<Text, Text>
    var stack: set<Text>

    constructor (g: Graph, sha: Text -> Text)
      ensures this.g == g && this.sha == sha && moduleHashes == map[] && stack == {}
    {
      this.g, this.sha, moduleHashes, stack := g, sha, map[], {};
    }

    method HashModule(file: Text) returns (r: Option<Text>)
      modifies this
      ensures match Firmware.HashModule(g, sha, file, old(stack), old(moduleHashes))
              case None => r.None?
              case Some(v) => r == Some(v.result) && moduleHashes == v.memo && stack == old(stack)
      decreases g.Keys - stack
    {
      hide Firmware.HashModule, HashDependencies, NodeHash, Resume;
      HashModuleCases(g, sha, file, stack, moduleHashes);
      if file in moduleHashes && moduleHashes[file] != [] {
        return Some(moduleHashes[file]);
      }
      if file !in g {
        return None;
      }
      if file in stack {
        return Some(sha(MODULE_CYCLE));
      }
      ghost var memo := moduleHashes;
      ghost var open := stack + {file};
      assert file in g.Keys - stack && g.Keys - open < g.Keys - stack;
      stack := stack + {file};
      var deps := g[file].dependencies;
      var dependencyHashes: seq<Text> := [];
      ResumeNothing(g, sha, deps, open, memo);
      for i := 0 to |deps|
        invariant stack == open
        invariant HashDependencies(g, sha, deps, open, memo)
               == Resume(dependencyHashes, HashDependencies(g, sha, deps[i..], open, moduleHashes))
      {
        ResumeStep(g, sha, deps, i, open, moduleHashes, dependencyHashes);
        var hash := HashModule(deps[i]);
        if hash.None? {
          return None;
        }
        dependencyHashes := dependencyHashes + [hash.value];
      }
      ResumeEnd(g, sha, deps, open, moduleHashes, dependencyHashes);
      stack := stack - {file};
      var hash := NodeHash(sha, g[file].source, dependencyHashes);
      moduleHashes := moduleHashes[file := hash];
      r := Some(hash);
    }
  }

  lemma HashModuleCases(g: Graph, sha: Text -> Text, file: Text, stack: set<Text>, memo: map<Text, Text>)
    ensures var v := Firmware.HashModule(g, sha, file, stack, memo);
            if file in memo && memo[file] != [] then v == Some(Visit(memo[file], memo))
            else if file !in g then v.None?
            else if file in stack then v == Some(Visit(sha(MODULE_CYCLE), memo))
            else
              match HashDependencies(g, sha, g[file].dependencies, stack + {file}, memo)
              case None => v.None?
              case Some(vs) =>
                var hash := NodeHash(sha, g[file].source, vs.result);
                v == Some(Visit(hash, vs.memo[file := hash]))
  {
    hide HashDependencies, NodeHash;
  }

  /** What remains of a dependency loop once `done` has been pushed. */
  ghost function Resume(done: seq<Text>, rest: Option<Visit<seq<Text>>>): Option<Visit<seq<Text>>> {
    match rest
    case None => None
    case Some(v) => Some(Visit(done + v.result, v.memo))
  }

  lemma ResumeNothing(g: Graph, sha: Text -> Text, deps: seq<Text>, open: set<Text>, memo: map<Text, Text>)
    ensures HashDependencies(g, sha, deps, open, memo) == Resume([], HashDependencies(g, sha, deps[0..], open, memo))
  {
    hide HashDependencies;
    assert deps[0..] == deps;
    var rest := HashDependencies(g, sha, deps, open, memo);
    if rest.Some? {
      assert [] + rest.value.result == rest.value.result;
    }
  }

  lemma ResumeStep(
    g: Graph, sha: Text -> Text, deps: seq<Text>, i: nat, open: set<Text>, memo: map<Text, Text>, done: seq<Text>)
    requires i < |deps|
    ensures var all := Resume(done, HashDependencies(g, sha, deps[i..], open, memo));
            match Firmware.HashModule(g, sha, deps[i], open, memo)
            case None => all.None?
            case Some(v) => all == Resume(done + [v.result], HashDependencies(g, sha, deps[i + 1..], open, v.memo))
  {
    hide Firmware.HashModule;
    assert deps[i..][1..] == deps[i + 1..];
    var v := Firmware.HashModule(g, sha, deps[i], open, memo);
    if v.Some? {
      var rest := HashDependencies(g, sha, deps[i + 1..], open, v.value.memo);
      if rest.Some? {
        assert done + ([v.value.result] + rest.value.result) == done + [v.value.result] + rest.value.result;
      }
    }
  }

  lemma ResumeEnd(
    g: Graph, sha: Text -> Text, deps: seq<Text>, open: set<Text>, memo: map<Text, Text>, done: seq<Text>)
    ensures Resume(done, HashDependencies(g, sha, deps[|deps|..], open, memo)) == Some(Visit(done, memo))
  {
    assert done + [] == done;
  }

  // ---------------------------------------------------------------------------
  // The document
  // ---------------------------------------------------------------------------

  datatype FunctionEntry = FunctionEntry(name: Text, manifest: Value, moduleFiles: seq<Text>, bundleFile: Text)

  datatype SharedEntry = SharedEntry(id: Text, exportNames: seq<Text>, bundleFile: Text)

  datatype Manifest = Manifest(
    schema: Value,
    compatibilityDate: Value,
    compatibilityFlags: seq<Text>,
    envAllowlist: seq<Text>,
    functions: seq<FunctionEntry>,
    chunks: seq<Text>,
    sharedModules: seq<SharedEntry>)

  type Locale = (Text, Text) -> bool

  function FilesOf(fn: FunctionEntry): seq<Text> {
    if fn.moduleFiles != [] then fn.moduleFiles else [fn.bundleFile]
  }

  function FilesOfAll(fns: seq<FunctionEntry>): seq<Text> {
    if fns == [] then [] else FilesOf(fns[0]) + FilesOfAll(fns[1..])
  }

  function BundleOf(s: SharedEntry): Text { s.bundleFile }

  /** Every module file the manifest mentions. */
  function ModuleFiles(m: Manifest): seq<Text> {
    UniqueSortedText(FilesOfAll(m.functions) + m.chunks + Map(BundleOf, m.sharedModules))
  }

  function HashOf(h: map<Text, Text>, file: Text): Text {
    if file in h then h[file] else []
  }

  function HashesOf(h: map<Text, Text>, files: seq<Text>): seq<Text> {
    if files == [] then [] else [HashOf(h, files[0])] + HashesOf(h, files[1..])
  }

  datatype FunctionDoc = FunctionDoc(name: Text, manifest: Value, modules: seq<Text>)

  datatype SharedDoc = SharedDoc(id: Text, exportNames: seq<Text>, module_: Text)

  function FunctionDocOf(h: map<Text, Text>): FunctionEntry -> FunctionDoc {
    (fn: FunctionEntry) => FunctionDoc(fn.name, SortPlain(fn.manifest), UniqueSortedText(HashesOf(h, FilesOf(fn))))
  }

  function SharedDocOf(h: map<Text, Text>): SharedEntry -> SharedDoc {
    (s: SharedEntry) => SharedDoc(s.id, UniqueSortedText(s.exportNames), HashOf(h, s.bundleFile))
  }

  function ByName(le: Locale): (FunctionDoc, FunctionDoc) -> bool {
    (a: FunctionDoc, b: FunctionDoc) => le(a.name, b.name)
  }

  function ById(le: Locale): (SharedDoc, SharedDoc) -> bool {
    (a: SharedDoc, b: SharedDoc) => le(a.id, b.id)
  }

  function FunctionDocs(le: Locale, m: Manifest, h: map<Text, Text>): seq<FunctionDoc> {
    Sort(ByName(le), Map(FunctionDocOf(h), m.functions))
  }

  function SharedDocs(le: Locale, m: Manifest, h: map<Text, Text>): seq<SharedDoc> {
    Sort(ById(le), Map(SharedDocOf(h), m.sharedModules))
  }

  function FunctionValue(d: FunctionDoc): Value {
    Object([
      Member(Ascii("name"), String(d.name)),
      Member(Ascii("manifest"), d.manifest),
      Member(Ascii("modules"), Array(Strings(d.modules)))
    ])
  }

  function SharedValue(d: SharedDoc): Value {
    Object([
      Member(Ascii("id"), String(d.id)),
      Member(Ascii("exportNames"), Array(Strings(d.exportNames))),
      Member(Ascii("module"), String(d.module_))
    ])
  }

  function Document(le: Locale, m: Manifest, h: map<Text, Text>): Value {
    Object([
      Member(Ascii("schema"), m.schema),
      Member(Ascii("compatibilityDate"), m.compatibilityDate),
      Member(Ascii("compatibilityFlags"), Array(Strings(UniqueSortedText(m.compatibilityFlags)))),
      Member(Ascii("envAllowlist"), Array(Strings(UniqueSortedText(m.envAllowlist)))),
      Member(Ascii("chunks"), Array(Strings(UniqueSortedText(HashesOf(h, m.chunks))))),
      Member(Ascii("sharedModules"), Array(Map(SharedValue, SharedDocs(le, m, h)))),
      Member(Ascii("functions"), Array(Map(FunctionValue, FunctionDocs(le, m, h))))
    ])
  }

  // ---------------------------------------------------------------------------
  // What the printed document says
  // ---------------------------------------------------------------------------

  /** An array of strings in ascending order, each once. */
  ghost predicate Ascends(v: Value) {
    && v.Array? && (forall i | 0 <= i < |v.items| :: v.items[i].String?)
    && forall i, j | 0 <= i < j < |v.items| :: TextLe(v.items[i].s, v.items[j].s) && v.items[i].s != v.items[j].s
  }

  /** Exactly the given texts. */
  ghost predicate ListsTexts(v: Value, ts: seq<Text>) {
    Ascends(v) && forall t :: String(t) in v.items <==> t in ts
  }

  /** One of the files has this hash. */
  ghost predicate Hashed(h: map<Text, Text>, files: seq<Text>, t: Text) {
    exists f :: f in files && f in h && h[f] == t
  }

  /** Exactly the hashes of the given files. */
  ghost predicate ListsHashes(v: Value, h: map<Text, Text>, files: seq<Text>) {
    && Ascends(v) && (forall f | f in files :: f in h)
    && forall t :: String(t) in v.items <==> Hashed(h, files, t)
  }

  ghost predicate ShowsFunction(v: Value, fn: FunctionEntry, h: map<Text, Text>) {
    && v.Object?
    && (forall k | Defined(v.members, k) :: k in {Ascii("name"), Ascii("manifest"), Ascii("modules")})
    && Lookup(v.members, Ascii("name")) == String(fn.name)
    && Same(Lookup(v.members, Ascii("manifest")), fn.manifest)
    && ListsHashes(Lookup(v.members, Ascii("modules")), h, if fn.moduleFiles == [] then [fn.bundleFile] else fn.moduleFiles)
  }

  ghost predicate ShowsShared(v: Value, s: SharedEntry, h: map<Text, Text>) {
    && v.Object?
    && (forall k | Defined(v.members, k) :: k in {Ascii("id"), Ascii("exportNames"), Ascii("module")})
    && Lookup(v.members, Ascii("id")) == String(s.id)
    && ListsTexts(Lookup(v.members, Ascii("exportNames")), s.exportNames)
    && s.bundleFile in h && Lookup(v.members, Ascii("module")) == String(h[s.bundleFile])
  }

  /** The entries of the manifest, each once, in locale order of their names. */
  ghost predicate ShowsFunctions(v: Value, le: Locale, fns: seq<FunctionEntry>, h: map<Text, Text>, order: seq<FunctionEntry>) {
    && v.Array? && |v.items| == |order| && multiset(order) == multiset(fns)
    && (forall i, j | 0 <= i < j < |order| :: le(order[i].name, order[j].name))
    && forall i | 0 <= i < |order| :: ShowsFunction(v.items[i], order[i], h)
  }

  ghost predicate ShowsSharedModules(v: Value, le: Locale, ss: seq<SharedEntry>, h: map<Text, Text>, order: seq<SharedEntry>) {
    && v.Array? && |v.items| == |order| && multiset(order) == multiset(ss)
    && (forall i, j | 0 <= i < j < |order| :: le(order[i].id, order[j].id))
    && forall i | 0 <= i < |order| :: ShowsShared(v.items[i], order[i], h)
  }

  /** The value has the seven members of a fingerprint, and they tell the manifest's data and its modules' hashes. */
  ghost predicate Tells(v: Value, le: Locale, m: Manifest, h: map<Text, Text>) {
    && v.Object?
    && (forall k | Defined(v.members, k) ::
          k in {Ascii("schema"), Ascii("compatibilityDate"), Ascii("compatibilityFlags"), Ascii("envAllowlist"),
                Ascii("chunks"), Ascii("sharedModules"), Ascii("functions")})
    && Same(Lookup(v.members, Ascii("schema")), m.schema)
    && Same(Lookup(v.members, Ascii("compatibilityDate")), m.compatibilityDate)
    && ListsTexts(Lookup(v.members, Ascii("compatibilityFlags")), m.compatibilityFlags)
    && ListsTexts(Lookup(v.members, Ascii("envAllowlist")), m.envAllowlist)
    && ListsHashes(Lookup(v.members, Ascii("chunks")), h, m.chunks)
    && (exists order :: ShowsSharedModules(Lookup(v.members, Ascii("sharedModules")), le, m.sharedModules, h, order))
    && (exists order :: ShowsFunctions(Lookup(v.members, Ascii("functions")), le, m.functions, h, order))
  }

  lemma SortedTextsAscend(ts: seq<Text>)
    ensures ListsTexts(Array(Strings(UniqueSortedText(ts))), ts)
  {
    TextOrder();
    UniqueSortedListing(TextLe, ts);
    var us := UniqueSortedText(ts);
    StringsAt(us);
    forall t ensures String(t) in Strings(us) <==> t in us {
      if t in us {
        var i :| 0 <= i < |us| && us[i] == t;
        assert Strings(us)[i] == String(t);
      }
    }
  }

  lemma StringsAt(ts: seq<Text>)
    ensures forall i | 0 <= i < |ts| :: Strings(ts)[i] == String(ts[i])
  {
    forall i | 0 <= i < |ts| ensures Strings(ts)[i] == String(ts[i]) { MapAt(t => String(t), ts, i); }
  }

  lemma SortedHashesAscend(h: map<Text, Text>, files: seq<Text>)
    requires forall f | f in files :: f in h
    ensures ListsHashes(Array(Strings(UniqueSortedText(HashesOf(h, files)))), h, files)
  {
    hide UniqueSortedText, Strings, Ascends;
    SortedTextsAscend(HashesOf(h, files));
    forall t ensures t in HashesOf(h, files) <==> Hashed(h, files, t) {
      HashesOfMember(h, files, t);
    }
  }

  lemma StringsNormal(ts: seq<Text>)
    ensures Normalize(Array(Strings(ts))) == Array(Strings(ts))
  {
    hide Normalize, Strings;
    NormalArray(Strings(ts));
    StringsPlain(ts);
  }

  lemma FunctionMembers(d: FunctionDoc)
    ensures var ms := FunctionValue(d).members;
            && FunctionValue(d) == Object(ms) && |ms| == 3 && Distinct(KeysOf(ms))
            && ms[0] == Member(Ascii("name"), String(d.name))
            && ms[1] == Member(Ascii("manifest"), d.manifest)
            && ms[2] == Member(Ascii("modules"), Array(Strings(d.modules)))
  {
    hide Strings;
    var ms := FunctionValue(d).members;
    assert |ms[0].key| == 4 && |ms[1].key| == 8 && |ms[2].key| == 7;
  }

  lemma SharedMembers(d: SharedDoc)
    ensures var ms := SharedValue(d).members;
            && SharedValue(d) == Object(ms) && |ms| == 3 && Distinct(KeysOf(ms))
            && ms[0] == Member(Ascii("id"), String(d.id))
            && ms[1] == Member(Ascii("exportNames"), Array(Strings(d.exportNames)))
            && ms[2] == Member(Ascii("module"), String(d.module_))
  {
    hide Strings;
    var ms := SharedValue(d).members;
    assert |ms[0].key| == 2 && |ms[1].key| == 11 && |ms[2].key| == 6;
  }

  /** What three members of distinct keys normalise to. */
  lemma ThreeMembers(ms: seq<Member>)
    requires |ms| == 3 && Distinct(KeysOf(ms))
    ensures var v := Normalize(Object(ms));
            && v.Object?
            && Lookup(v.members, ms[0].key) == Normalize(ms[0].value)
            && Lookup(v.members, ms[1].key) == Normalize(ms[1].value)
            && Lookup(v.members, ms[2].key) == Normalize(ms[2].value)
            && (forall k | Defined(v.members, k) :: k == ms[0].key || k == ms[1].key || k == ms[2].key)
  {
    hide Normalize, Lookup, KeysOf, Distinct, Defined;
    NormalLookupAt(ms, 0);
    NormalLookupAt(ms, 1);
    NormalLookupAt(ms, 2);
    forall k | Defined(Normalize(Object(ms)).members, k) ensures k == ms[0].key || k == ms[1].key || k == ms[2].key {
      ThreeKeys(ms, k);
    }
  }

  lemma ThreeKeys(ms: seq<Member>, k: Text)
    requires |ms| == 3 && Normalize(Object(ms)).Object? && Defined(Normalize(Object(ms)).members, k)
    ensures k == ms[0].key || k == ms[1].key || k == ms[2].key
  {
    hide Normalize, Lookup, KeysOf, Defined;
    NormalKey(ms, k);
    var i :| 0 <= i < |KeysOf(ms)| && KeysOf(ms)[i] == k;
  }

  lemma FunctionShown(fn: FunctionEntry, h: map<Text, Text>)
    requires forall f | f in FilesOf(fn) :: f in h
    ensures ShowsFunction(Normalize(FunctionValue(FunctionDocOf(h)(fn))), fn, h)
  {
    hide Normalize, Lookup, Strings, UniqueSortedText, HashesOf, Same, ListsHashes, SortPlain, FunctionValue, Ascii;
    var d := FunctionDocOf(h)(fn);
    FunctionMembers(d);
    ThreeMembers(FunctionValue(d).members);
    StringNormal(fn.name);
    PlainShown(fn.manifest);
    StringsNormal(d.modules);
    SortedHashesAscend(h, FilesOf(fn));
  }

  lemma StringNormal(t: Text)
    ensures Normalize(String(t)) == String(t)
  {
  }

  lemma PlainShown(v: Value)
    ensures Same(Normalize(SortPlain(v)), v)
  {
    hide Normalize, Same, SortPlain;
    SortPlainSame(v);
    SameNormalizes(SortPlain(v), v);
    NormalSame(v);
  }

  lemma SharedShown(s: SharedEntry, h: map<Text, Text>)
    requires s.bundleFile in h
    ensures ShowsShared(Normalize(SharedValue(SharedDocOf(h)(s))), s, h)
  {
    hide Normalize, Lookup, Strings, UniqueSortedText, ListsTexts, SharedValue, Ascii;
    var d := SharedDocOf(h)(s);
    SharedMembers(d);
    ThreeMembers(SharedValue(d).members);
    StringNormal(s.id);
    StringNormal(d.module_);
    StringsNormal(d.exportNames);
    SortedTextsAscend(s.exportNames);
  }

  lemma FunctionsShown(le: Locale, m: Manifest, h: map<Text, Text>) returns (order: seq<FunctionEntry>)
    requires TotalPreorder(le) && Known(m, h)
    ensures ShowsFunctions(Normalize(Array(Map(FunctionValue, FunctionDocs(le, m, h)))), le, m.functions, h, order)
  {
    hide Normalize, FunctionValue, Map, Sort, FunctionDocOf, ShowsFunction, TotalPreorder;
    var byName := (a: FunctionEntry, b: FunctionEntry) => le(a.name, b.name);
    order := Sort(byName, m.functions);
    NamesOrder(le, byName);
    SortPermutes(byName, m.functions);
    SortSorts(byName, m.functions);
    DocNames(h);
    MapSort(FunctionDocOf(h), byName, ByName(le), m.functions);
    var docs := FunctionDocs(le, m, h);
    assert docs == Map(FunctionDocOf(h), order);
    NormalArray(Map(FunctionValue, docs));
    forall i | 0 <= i < |order|
      ensures ShowsFunction(NormalizeItems(Map(FunctionValue, docs))[i], order[i], h)
    {
      MapAt(FunctionDocOf(h), order, i);
      MapAt(FunctionValue, docs, i);
      MemberOfPermutation(order, m.functions, order[i]);
      FunctionShown(order[i], h);
    }
  }

  lemma NamesOrder(le: Locale, byName: (FunctionEntry, FunctionEntry) -> bool)
    requires TotalPreorder(le) && forall a, b :: byName(a, b) == le(a.name, b.name)
    ensures TotalPreorder(byName)
  {
  }

  lemma DocNames(h: map<Text, Text>)
    ensures forall fn :: FunctionDocOf(h)(fn).name == fn.name
    ensures forall s :: SharedDocOf(h)(s).id == s.id
  {
  }

  lemma SharedModulesShown(le: Locale, m: Manifest, h: map<Text, Text>) returns (order: seq<SharedEntry>)
    requires TotalPreorder(le) && Known(m, h)
    ensures ShowsSharedModules(Normalize(Array(Map(SharedValue, SharedDocs(le, m, h)))), le, m.sharedModules, h, order)
  {
    hide Normalize, SharedValue, Map, Sort, SharedDocOf, ShowsShared, TotalPreorder;
    var byId := (a: SharedEntry, b: SharedEntry) => le(a.id, b.id);
    order := Sort(byId, m.sharedModules);
    IdsOrder(le, byId);
    SortPermutes(byId, m.sharedModules);
    SortSorts(byId, m.sharedModules);
    DocNames(h);
    MapSort(SharedDocOf(h), byId, ById(le), m.sharedModules);
    var docs := SharedDocs(le, m, h);
    assert docs == Map(SharedDocOf(h), order);
    NormalArray(Map(SharedValue, docs));
    forall i | 0 <= i < |order|
      ensures ShowsShared(NormalizeItems(Map(SharedValue, docs))[i], order[i], h)
    {
      MapAt(SharedDocOf(h), order, i);
      MapAt(SharedValue, docs, i);
      MemberOfPermutation(order, m.sharedModules, order[i]);
      SharedShown(order[i], h);
    }
  }

  lemma IdsOrder(le: Locale, byId: (SharedEntry, SharedEntry) -> bool)
    requires TotalPreorder(le) && forall a, b :: byId(a, b) == le(a.id, b.id)
    ensures TotalPreorder(byId)
  {
  }

  lemma DocumentMembers(le: Locale, m: Manifest, h: map<Text, Text>)
    ensures Document(le, m, h).Object?
    ensures var ms := Document(le, m, h).members;
            && Document(le, m, h) == Object(ms) && |ms| == 7 && Distinct(KeysOf(ms))
            && ms[0] == Member(Ascii("schema"), m.schema)
            && ms[1] == Member(Ascii("compatibilityDate"), m.compatibilityDate)
            && ms[2] == Member(Ascii("compatibilityFlags"), Array(Strings(UniqueSortedText(m.compatibilityFlags))))
            && ms[3] == Member(Ascii("envAllowlist"), Array(Strings(UniqueSortedText(m.envAllowlist))))
            && ms[4] == Member(Ascii("chunks"), Array(Strings(UniqueSortedText(HashesOf(h, m.chunks)))))
            && ms[5] == Member(Ascii("sharedModules"), Array(Map(SharedValue, SharedDocs(le, m, h))))
            && ms[6] == Member(Ascii("functions"), Array(Map(FunctionValue, FunctionDocs(le, m, h))))
  {
    hide Map, FunctionDocs, SharedDocs, UniqueSortedText, Strings, HashesOf, Ascii, KeysOf;
    var ms := Document(le, m, h).members;
    DocumentNamesDiffer();
    assert KeysOf(ms) == DOCUMENT_KEYS;
  }

  const DOCUMENT_KEYS: seq<Text> := [
    Ascii("schema"), Ascii("compatibilityDate"), Ascii("compatibilityFlags"), Ascii("envAllowlist"),
    Ascii("chunks"), Ascii("sharedModules"), Ascii("functions")]

  lemma DocumentNamesDiffer()
    ensures Distinct(DOCUMENT_KEYS)
  {
    var ks := DOCUMENT_KEYS;
    assert |ks[0]| == 6 && |ks[1]| == 17 && |ks[2]| == 18 && |ks[3]| == 12 && |ks[4]| == 6 && |ks[5]| == 13 && |ks[6]| == 9;
    assert ks[0][0] == 's' as int && ks[4][0] == 'c' as int;
  }

  lemma SevenKeys(ms: seq<Member>, k: Text)
    requires |ms| == 7 && k in KeysOf(ms)
    ensures k in {ms[0].key, ms[1].key, ms[2].key, ms[3].key, ms[4].key, ms[5].key, ms[6].key}
  {
    hide KeysOf;
    var i :| 0 <= i < |KeysOf(ms)| && KeysOf(ms)[i] == k;
  }

  /** Where each of the seven members is found. */
  lemma DocumentLookups(le: Locale, m: Manifest, h: map<Text, Text>)
    ensures var v := Normalize(Document(le, m, h));
            && v.Object?
            && Lookup(v.members, Ascii("schema")) == Normalize(m.schema)
            && Lookup(v.members, Ascii("compatibilityDate")) == Normalize(m.compatibilityDate)
            && Lookup(v.members, Ascii("compatibilityFlags"))
            == Normalize(Array(Strings(UniqueSortedText(m.compatibilityFlags))))
            && Lookup(v.members, Ascii("envAllowlist")) == Normalize(Array(Strings(UniqueSortedText(m.envAllowlist))))
            && Lookup(v.members, Ascii("chunks")) == Normalize(Array(Strings(UniqueSortedText(HashesOf(h, m.chunks)))))
            && Lookup(v.members, Ascii("sharedModules")) == Normalize(Array(Map(SharedValue, SharedDocs(le, m, h))))
            && Lookup(v.members, Ascii("functions")) == Normalize(Array(Map(FunctionValue, FunctionDocs(le, m, h))))
  {
    hide Lookup, Map, FunctionDocs, SharedDocs, UniqueSortedText, Strings, Normalize, HashesOf, Ascii, Document;
    DocumentMembers(le, m, h);
    var ms := Document(le, m, h).members;
    NormalLookupAt(ms, 0);
    NormalLookupAt(ms, 1);
    NormalLookupAt(ms, 2);
    NormalLookupAt(ms, 3);
    NormalLookupAt(ms, 4);
    NormalLookupAt(ms, 5);
    NormalLookupAt(ms, 6);
  }

  lemma DocumentKeys(le: Locale, m: Manifest, h: map<Text, Text>, k: Text)
    requires Normalize(Document(le, m, h)).Object? && Defined(Normalize(Document(le, m, h)).members, k)
    ensures k in {Ascii("schema"), Ascii("compatibilityDate"), Ascii("compatibilityFlags"), Ascii("envAllowlist"),
                  Ascii("chunks"), Ascii("sharedModules"), Ascii("functions")}
  {
    hide Lookup, Map, FunctionDocs, SharedDocs, UniqueSortedText, Strings, Ascii, Normalize, Document, HashesOf;
    DocumentMembers(le, m, h);
    var ms := Document(le, m, h).members;
    hide KeysOf, Defined;
    NormalKey(ms, k);
    SevenKeys(ms, k);
  }

  lemma DocumentTells(le: Locale, m: Manifest, h: map<Text, Text>)
    requires TotalPreorder(le) && Known(m, h)
    ensures Tells(Normalize(Document(le, m, h)), le, m, h)
  {
    hide Normalize, Lookup, Map, FunctionDocs, SharedDocs, UniqueSortedText, Strings, TotalPreorder, Document;
    hide ListsTexts, ListsHashes, ShowsFunctions, ShowsSharedModules, Same, Ascii, Defined;
    DocumentLookups(le, m, h);
    forall k | Defined(Normalize(Document(le, m, h)).members, k)
      ensures k in {Ascii("schema"), Ascii("compatibilityDate"), Ascii("compatibilityFlags"), Ascii("envAllowlist"),
                    Ascii("chunks"), Ascii("sharedModules"), Ascii("functions")}
    {
      DocumentKeys(le, m, h, k);
    }
    NormalSame(m.schema);
    NormalSame(m.compatibilityDate);
    StringsNormal(UniqueSortedText(m.compatibilityFlags));
    StringsNormal(UniqueSortedText(m.envAllowlist));
    StringsNormal(UniqueSortedText(HashesOf(h, m.chunks)));
    SortedTextsAscend(m.compatibilityFlags);
    SortedTextsAscend(m.envAllowlist);
    SortedHashesAscend(h, m.chunks);
    var shared := SharedModulesShown(le, m, h);
    var functions := FunctionsShown(le, m, h);
  }

  /** A program that hashes without error has a hash for every file its manifest mentions. */
  lemma {:induction false} HashAllKnows(g: Graph, sha: Text -> Text, files: seq<Text>, memo: map<Text, Text>)
    requires HashAll(g, sha, files, memo).Some?
    ensures var r := HashAll(g, sha, files, memo).value;
            memo.Keys <= r.Keys && forall f | f in files :: f in r
  {
    hide Firmware.HashModule;
    if files != [] {
      VisitKnows(g, sha, files[0], {}, memo);
      var v := Firmware.HashModule(g, sha, files[0], {}, memo).value;
      HashAllKnows(g, sha, files[1..], v.memo);
      assert files == [files[0]] + files[1..];
    }
  }

  lemma {:induction false} VisitKnows(g: Graph, sha: Text -> Text, file: Text, stack: set<Text>, memo: map<Text, Text>)
    requires Firmware.HashModule(g, sha, file, stack, memo).Some?
    ensures var v := Firmware.HashModule(g, sha, file, stack, memo).value;
            memo.Keys <= v.memo.Keys && (file in v.memo || file in stack)
    decreases g.Keys - stack, 0
  {
    hide HashDependencies, NodeHash;
    if !(file in memo && memo[file] != []) && file !in stack {
      assert file in g.Keys - stack && g.Keys - (stack + {file}) < g.Keys - stack;
      DependenciesKnow(g, sha, g[file].dependencies, stack + {file}, memo);
    }
  }

  lemma {:induction false} DependenciesKnow(g: Graph, sha: Text -> Text, deps: seq<Text>, stack: set<Text>, memo: map<Text, Text>)
    requires HashDependencies(g, sha, deps, stack, memo).Some?
    ensures memo.Keys <= HashDependencies(g, sha, deps, stack, memo).value.memo.Keys
    decreases g.Keys - stack, 1, |deps|
  {
    hide Firmware.HashModule;
    if deps != [] {
      VisitKnows(g, sha, deps[0], stack, memo);
      DependenciesKnow(g, sha, deps[1..], stack, Firmware.HashModule(g, sha, deps[0], stack, memo).value.memo);
    }
  }

  /**
    A fingerprint's text, parsed, tells the manifest it was made from: each of the seven members is the
    manifest's own data, or the hashes of the files it mentions.
   */
  lemma FingerprintTells(le: Locale, sha: Text -> Text, m: Manifest, g: Graph, text: Text)
    requires TotalPreorder(le) && HashAll(g, sha, ModuleFiles(m), map[]).Some?
    requires Outcome(Document(le, m, HashAll(g, sha, ModuleFiles(m), map[]).value)) == Success(text)
    ensures var v := ReadValue(text);
            v.Done? && v.rest == [] && Tells(v.value, le, m, HashAll(g, sha, ModuleFiles(m), map[]).value)
  {
    hide HashAll, ModuleFiles, Document, Normalize, Tells, ReadValue, TotalPreorder, Known, Show;
    var h := HashAll(g, sha, ModuleFiles(m), map[]).value;
    HashAllKnows(g, sha, ModuleFiles(m), map[]);
    FilesKnown(m, h);
    DocumentTells(le, m, h);
    CanonicalDecodes(Document(le, m, h));
  }

  /** The two lists of files have the same hashes. */
  ghost predicate HashAlike(h: map<Text, Text>, files: seq<Text>, h': map<Text, Text>, files': seq<Text>) {
    forall t :: Hashed(h, files, t) <==> Hashed(h', files', t)
  }

  ghost predicate AgreeFunctions(fn: FunctionEntry, h: map<Text, Text>, fn': FunctionEntry, h': map<Text, Text>) {
    && fn.name == fn'.name && Same(fn.manifest, fn'.manifest)
    && HashAlike(h, if fn.moduleFiles == [] then [fn.bundleFile] else fn.moduleFiles,
                 h', if fn'.moduleFiles == [] then [fn'.bundleFile] else fn'.moduleFiles)
  }

  ghost predicate AgreeShared(s: SharedEntry, h: map<Text, Text>, s': SharedEntry, h': map<Text, Text>) {
    && s.id == s'.id && SameSet(s.exportNames, s'.exportNames)
    && s.bundleFile in h && s'.bundleFile in h' && h[s.bundleFile] == h'[s'.bundleFile]
  }

  /** The manifests agree in all seven parts: lists as sets, entries one to one, files by their hashes. */
  ghost predicate Agree(m: Manifest, h: map<Text, Text>, m': Manifest, h': map<Text, Text>) {
    && Same(m.schema, m'.schema) && Same(m.compatibilityDate, m'.compatibilityDate)
    && SameSet(m.compatibilityFlags, m'.compatibilityFlags) && SameSet(m.envAllowlist, m'.envAllowlist)
    && HashAlike(h, m.chunks, h', m'.chunks)
    && (exists xs, ys :: FunctionsPaired(m.functions, h, m'.functions, h', xs, ys))
    && (exists xs, ys :: SharedPaired(m.sharedModules, h, m'.sharedModules, h', xs, ys))
  }

  /** Put in the orders `xs` and `ys`, the entries agree pair by pair. */
  ghost predicate FunctionsPaired(
    fns: seq<FunctionEntry>, h: map<Text, Text>, fns': seq<FunctionEntry>, h': map<Text, Text>,
    xs: seq<FunctionEntry>, ys: seq<FunctionEntry>)
  {
    && multiset(xs) == multiset(fns) && multiset(ys) == multiset(fns') && |xs| == |ys|
    && forall i | 0 <= i < |xs| :: AgreeFunctions(xs[i], h, ys[i], h')
  }

  ghost predicate SharedPaired(
    ss: seq<SharedEntry>, h: map<Text, Text>, ss': seq<SharedEntry>, h': map<Text, Text>,
    xs: seq<SharedEntry>, ys: seq<SharedEntry>)
  {
    && multiset(xs) == multiset(ss) && multiset(ys) == multiset(ss') && |xs| == |ys|
    && forall i | 0 <= i < |xs| :: AgreeShared(xs[i], h, ys[i], h')
  }

  lemma SameJoins(a: Value, b: Value, c: Value)
    requires Same(a, b) && Same(a, c)
    ensures Same(b, c)
  {
    hide Same, Normalize;
    SameNormalizes(a, b);
    SameNormalizes(a, c);
    NormalizesSame(b, c);
  }

  lemma TextsAgree(v: Value, ts: seq<Text>, ts': seq<Text>)
    requires ListsTexts(v, ts) && ListsTexts(v, ts')
    ensures SameSet(ts, ts')
  {
    forall t ensures t in ts <==> t in ts' { assert String(t) in v.items <==> t in ts; }
  }

  lemma HashesAlike(v: Value, h: map<Text, Text>, files: seq<Text>, h': map<Text, Text>, files': seq<Text>)
    requires ListsHashes(v, h, files) && ListsHashes(v, h', files')
    ensures HashAlike(h, files, h', files')
  {
    hide Hashed;
    forall t ensures Hashed(h, files, t) <==> Hashed(h', files', t) {
      assert String(t) in v.items <==> Hashed(h, files, t);
    }
  }

  lemma FunctionsAgree(v: Value, fn: FunctionEntry, h: map<Text, Text>, fn': FunctionEntry, h': map<Text, Text>)
    requires ShowsFunction(v, fn, h) && ShowsFunction(v, fn', h')
    ensures AgreeFunctions(fn, h, fn', h')
  {
    hide Lookup, ListsHashes, HashAlike, Same, Ascii;
    SameJoins(Lookup(v.members, Ascii("manifest")), fn.manifest, fn'.manifest);
    HashesAlike(Lookup(v.members, Ascii("modules")),
      h, if fn.moduleFiles == [] then [fn.bundleFile] else fn.moduleFiles,
      h', if fn'.moduleFiles == [] then [fn'.bundleFile] else fn'.moduleFiles);
  }

  lemma SharedAgree(v: Value, s: SharedEntry, h: map<Text, Text>, s': SharedEntry, h': map<Text, Text>)
    requires ShowsShared(v, s, h) && ShowsShared(v, s', h')
    ensures AgreeShared(s, h, s', h')
  {
    hide Lookup, ListsTexts, Ascii, SameSet;
    TextsAgree(Lookup(v.members, Ascii("exportNames")), s.exportNames, s'.exportNames);
  }

  lemma TellingAgrees(v: Value, le: Locale, m: Manifest, h: map<Text, Text>, m': Manifest, h': map<Text, Text>)
    requires Tells(v, le, m, h) && Tells(v, le, m', h')
    ensures Agree(m, h, m', h')
  {
    hide Lookup, ListsTexts, ListsHashes, ShowsFunction, ShowsShared, Same, SameSet, HashAlike, Ascii, AgreeFunctions, AgreeShared;
    SameJoins(Lookup(v.members, Ascii("schema")), m.schema, m'.schema);
    SameJoins(Lookup(v.members, Ascii("compatibilityDate")), m.compatibilityDate, m'.compatibilityDate);
    TextsAgree(Lookup(v.members, Ascii("compatibilityFlags")), m.compatibilityFlags, m'.compatibilityFlags);
    TextsAgree(Lookup(v.members, Ascii("envAllowlist")), m.envAllowlist, m'.envAllowlist);
    HashesAlike(Lookup(v.members, Ascii("chunks")), h, m.chunks, h', m'.chunks);
    hide ShowsFunctions, ShowsSharedModules, FunctionsPaired, SharedPaired;
    var fs, ss := Lookup(v.members, Ascii("functions")), Lookup(v.members, Ascii("sharedModules"));
    var a :| ShowsFunctions(fs, le, m.functions, h, a);
    var a' :| ShowsFunctions(fs, le, m'.functions, h', a');
    FunctionsPair(fs, le, m.functions, h, a, m'.functions, h', a');
    var b :| ShowsSharedModules(ss, le, m.sharedModules, h, b);
    var b' :| ShowsSharedModules(ss, le, m'.sharedModules, h', b');
    SharedPair(ss, le, m.sharedModules, h, b, m'.sharedModules, h', b');
  }

  lemma FunctionsPair(v: Value, le: Locale, fns: seq<FunctionEntry>, h: map<Text, Text>, xs: seq<FunctionEntry>,
                      fns': seq<FunctionEntry>, h': map<Text, Text>, ys: seq<FunctionEntry>)
    requires ShowsFunctions(v, le, fns, h, xs) && ShowsFunctions(v, le, fns', h', ys)
    ensures FunctionsPaired(fns, h, fns', h', xs, ys)
  {
    hide ShowsFunction, AgreeFunctions;
    forall i | 0 <= i < |xs| ensures AgreeFunctions(xs[i], h, ys[i], h') { FunctionsAgree(v.items[i], xs[i], h, ys[i], h'); }
  }

  lemma SharedPair(v: Value, le: Locale, ss: seq<SharedEntry>, h: map<Text, Text>, xs: seq<SharedEntry>,
                   ss': seq<SharedEntry>, h': map<Text, Text>, ys: seq<SharedEntry>)
    requires ShowsSharedModules(v, le, ss, h, xs) && ShowsSharedModules(v, le, ss', h', ys)
    ensures SharedPaired(ss, h, ss', h', xs, ys)
  {
    hide ShowsShared, AgreeShared;
    forall i | 0 <= i < |xs| ensures AgreeShared(xs[i], h, ys[i], h') { SharedAgree(v.items[i], xs[i], h, ys[i], h'); }
  }

  /** Programs with the same canonical text have manifests that agree in all their parts. */
  lemma EqualTextsAgree(le: Locale, sha: Text -> Text, m: Manifest, g: Graph, m': Manifest, g': Graph, text: Text)
    requires TotalPreorder(le)
    requires HashAll(g, sha, ModuleFiles(m), map[]).Some? && HashAll(g', sha, ModuleFiles(m'), map[]).Some?
    requires Outcome(Document(le, m, HashAll(g, sha, ModuleFiles(m), map[]).value)) == Success(text)
    requires Outcome(Document(le, m', HashAll(g', sha, ModuleFiles(m'), map[]).value)) == Success(text)
    ensures Agree(m, HashAll(g, sha, ModuleFiles(m), map[]).value, m', HashAll(g', sha, ModuleFiles(m'), map[]).value)
  {
    hide HashAll, ModuleFiles, Document, Outcome, Tells, ReadValue, TotalPreorder, Agree;
    FingerprintTells(le, sha, m, g, text);
    FingerprintTells(le, sha, m', g', text);
    TellingAgrees(ReadValue(text).value, le,
      m, HashAll(g, sha, ModuleFiles(m), map[]).value, m', HashAll(g', sha, ModuleFiles(m'), map[]).value);
  }

  /**
    `computeFirmwareContentFingerprint` once the files are read and normalised: None when a module
    is missing, otherwise the canonical text or the fault `canonicalJson` throws.
   */
  method ComputeFingerprint(m: Manifest, g: Graph, sha: Text -> Text, le: Locale) returns (r: Option<Json.Result>)
    ensures match HashAll(g, sha, ModuleFiles(m), map[])
            case None => r.None?
            case Some(h) => r == Some(Outcome(Document(le, m, h)))
    ensures match HashAll(g, sha, ModuleFiles(m), map[])
            case None => true
            case Some(h) =>
              TotalPreorder(le) && r.value.Success? ==>
                var v := ReadValue(r.value.text);
                v.Done? && v.rest == [] && Tells(v.value, le, m, h)
  {
    hide Document, Outcome, ReadValue, Tells, TotalPreorder, ModuleFiles;
    var hasher := new Hasher(g, sha);
    var files := ModuleFiles(m);
    assert files[0..] == files;
    for i := 0 to |files|
      invariant fresh(hasher) && hasher.g == g && hasher.sha == sha && hasher.stack == {}
      invariant HashAll(g, sha, files, map[]) == HashAll(g, sha, files[i..], hasher.moduleHashes)
    {
      assert files[i..][1..] == files[i + 1..];
      var hash := hasher.HashModule(files[i]);
      if hash.None? {
        return None;
      }
    }
    var result := CanonicalJson(Document(le, m, hasher.moduleHashes));
    if TotalPreorder(le) && result.Success? {
      FingerprintTells(le, sha, m, g, result.text);
    }
    r := Some(result);
  }

  // ---------------------------------------------------------------------------
  // Renaming module files
  // ---------------------------------------------------------------------------

  type Renaming = Text -> Text

  /** `g'` is `g` with its files renamed: sources kept, dependency sets mapped. */
  ghost predicate Renamed(g: Graph, g': Graph, rho: Renaming) {
    forall f | f in g ::
      && rho(f) in g'
      && g'[rho(f)].source == g[f].source
      && (forall d | d in g[f].dependencies :: d in g && rho(d) in g'[rho(f)].dependencies)
      && (forall d' | d' in g'[rho(f)].dependencies :: exists d :: d in g[f].dependencies && rho(d) == d')
  }

  lemma RenamedAt(g: Graph, g': Graph, rho: Renaming, f: Text)
    requires Renamed(g, g', rho) && f in g
    ensures rho(f) in g' && g'[rho(f)].source == g[f].source
    ensures forall d | d in g[f].dependencies :: d in g && rho(d) in g'[rho(f)].dependencies
    ensures forall d' | d' in g'[rho(f)].dependencies :: exists d :: d in g[f].dependencies && rho(d) == d'
  {
  }

  /** No file is given the name of a file it imports. */
  ghost predicate KeepsApart(g: Graph, rho: Renaming) {
    forall f, d | f in g && d in g[f].dependencies && rho(d) == rho(f) :: d == f
  }

  lemma {:induction false} RenamedHashAt(
    g: Graph, g': Graph, rho: Renaming, sha: Text -> Text, rank: map<Text, nat>,
    h: map<Text, Text>, h': map<Text, Text>, f: Text)
    requires Ranked(g, rank) && Renamed(g, g', rho) && KeepsApart(g, rho) && f in g
    requires Merkle(g, sha, h) && Merkle(g', sha, h')
    ensures rho(f) in h' && h'[rho(f)] == h[f]
    decreases rank[f]
  {
    hide NodeHash, Hashes, Partial, Renamed;
    RenamedAt(g, g', rho, f);
    MerkleAt(g, sha, h, f);
    MerkleAt(g', sha, h', rho(f));
    var deps, deps' := g[f].dependencies, g'[rho(f)].dependencies;
    var seen, seen' := Seen(sha, h, f), Seen(sha, h', rho(f));
    forall d | d in deps ensures rho(d) in seen' && seen'[rho(d)] == seen[d] {
      if d != f { RenamedHashAt(g, g', rho, sha, rank, h, h', d); }
    }
    SameHashSets(rho, seen, seen', deps, deps');
    NodeHashBySet(sha, g[f].source, Hashes(seen, deps), Hashes(seen', deps'));
  }

  lemma SameHashSets(rho: Renaming, h: map<Text, Text>, h': map<Text, Text>, deps: seq<Text>, deps': seq<Text>)
    requires (forall d | d in deps :: d in h) && (forall d' | d' in deps' :: d' in h')
    requires forall d | d in deps :: rho(d) in deps' && rho(d) in h' && h'[rho(d)] == h[d]
    requires forall d' | d' in deps' :: exists d :: d in deps && rho(d) == d'
    ensures forall t :: t in Hashes(h, deps) <==> t in Hashes(h', deps')
  {
    forall t | t in Hashes(h, deps) ensures t in Hashes(h', deps') {
      var i :| 0 <= i < |deps| && Hashes(h, deps)[i] == t;
      assert deps[i] in deps;
      var j :| 0 <= j < |deps'| && deps'[j] == rho(deps[i]);
      assert Hashes(h', deps')[j] == t;
    }
    forall t | t in Hashes(h', deps') ensures t in Hashes(h, deps) {
      var j :| 0 <= j < |deps'| && Hashes(h', deps')[j] == t;
      assert deps'[j] in deps';
      var d :| d in deps && rho(d) == deps'[j];
      var i :| 0 <= i < |deps| && deps[i] == d;
      assert Hashes(h, deps)[i] == t;
    }
  }

  // ---------------------------------------------------------------------------
  // Permuting entries
  // ---------------------------------------------------------------------------

  function RenameFiles(rho: Renaming, files: seq<Text>): seq<Text> {
    if files == [] then [] else [rho(files[0])] + RenameFiles(rho, files[1..])
  }

  function RenameFunction(rho: Renaming): FunctionEntry -> FunctionEntry {
    (fn: FunctionEntry) =>
      FunctionEntry(fn.name, fn.manifest, RenameFiles(rho, fn.moduleFiles), rho(fn.bundleFile))
  }

  function RenameShared(rho: Renaming): SharedEntry -> SharedEntry {
    (s: SharedEntry) => SharedEntry(s.id, s.exportNames, rho(s.bundleFile))
  }

  ghost predicate SameSet<T(!new)>(xs: seq<T>, ys: seq<T>) {
    forall x :: x in xs <==> x in ys
  }

  /** `m'` is `m` with files renamed and its functions, chunks, shared modules and lists reordered. */
  ghost predicate Rebuilt(m: Manifest, m': Manifest, rho: Renaming) {
    && m'.schema == m.schema
    && m'.compatibilityDate == m.compatibilityDate
    && SameSet(m'.compatibilityFlags, m.compatibilityFlags)
    && SameSet(m'.envAllowlist, m.envAllowlist)
    && SameSet(m'.chunks, RenameFiles(rho, m.chunks))
    && multiset(m'.functions) == multiset(Map(RenameFunction(rho), m.functions))
    && multiset(m'.sharedModules) == multiset(Map(RenameShared(rho), m.sharedModules))
  }

  /** Under the renaming, every file keeps its hash. */
  ghost predicate KeepsHashes(rho: Renaming, h: map<Text, Text>, h': map<Text, Text>) {
    forall f | f in h :: rho(f) in h' && h'[rho(f)] == h[f]
  }

  ghost predicate Known(m: Manifest, h: map<Text, Text>) {
    && (forall fn, f | fn in m.functions && f in FilesOf(fn) :: f in h)
    && (forall f | f in m.chunks :: f in h)
    && (forall s | s in m.sharedModules :: s.bundleFile in h)
  }

  lemma {:induction false} RenamedHashes(rho: Renaming, h: map<Text, Text>, h': map<Text, Text>, files: seq<Text>)
    requires KeepsHashes(rho, h, h') && forall f | f in files :: f in h
    ensures HashesOf(h', RenameFiles(rho, files)) == HashesOf(h, files)
  {
    if files != [] {
      assert files[0] in files;
      RenamedHashes(rho, h, h', files[1..]);
    }
  }

  lemma FilesOfRenamed(rho: Renaming, fn: FunctionEntry)
    ensures FilesOf(RenameFunction(rho)(fn)) == RenameFiles(rho, FilesOf(fn))
  {
    assert RenameFiles(rho, [fn.bundleFile]) == [rho(fn.bundleFile)];
  }

  lemma {:induction false} RenamedFunctionDocs(rho: Renaming, h: map<Text, Text>, h': map<Text, Text>, fns: seq<FunctionEntry>)
    requires KeepsHashes(rho, h, h')
    requires forall fn, f | fn in fns && f in FilesOf(fn) :: f in h
    ensures Map(FunctionDocOf(h'), Map(RenameFunction(rho), fns)) == Map(FunctionDocOf(h), fns)
  {
    if fns != [] {
      assert fns[0] in fns;
      RenamedHashes(rho, h, h', FilesOf(fns[0]));
      FilesOfRenamed(rho, fns[0]);
      RenamedFunctionDocs(rho, h, h', fns[1..]);
    }
  }

  lemma {:induction false} RenamedSharedDocs(rho: Renaming, h: map<Text, Text>, h': map<Text, Text>, ss: seq<SharedEntry>)
    requires KeepsHashes(rho, h, h')
    requires forall s | s in ss :: s.bundleFile in h
    ensures Map(SharedDocOf(h'), Map(RenameShared(rho), ss)) == Map(SharedDocOf(h), ss)
  {
    if ss != [] {
      assert ss[0] in ss;
      RenamedSharedDocs(rho, h, h', ss[1..]);
    }
  }

  lemma {:induction false} HashesOfMember(h: map<Text, Text>, files: seq<Text>, t: Text)
    ensures t in HashesOf(h, files) <==> exists f :: f in files && HashOf(h, f) == t
  {
    if files != [] {
      HashesOfMember(h, files[1..], t);
      assert forall f :: f in files <==> f == files[0] || f in files[1..];
    }
  }

  lemma HashesOfSet(h: map<Text, Text>, xs: seq<Text>, ys: seq<Text>)
    requires SameSet(xs, ys)
    ensures SameSet(HashesOf(h, xs), HashesOf(h, ys))
  {
    forall t ensures t in HashesOf(h, xs) <==> t in HashesOf(h, ys) {
      HashesOfMember(h, xs, t);
      HashesOfMember(h, ys, t);
    }
  }

  lemma UniqueSortedTextBySet(xs: seq<Text>, ys: seq<Text>)
    requires SameSet(xs, ys)
    ensures UniqueSortedText(xs) == UniqueSortedText(ys)
  {
    TextOrder();
    UniqueSortedBySet(TextLe, xs, ys);
  }

  // ---------------------------------------------------------------------------
  // The document up to what is printed
  // ---------------------------------------------------------------------------

  /** An entry of the document as it is printed, and the name or id it is sorted by. */
  datatype Keyed = Keyed(key: Text, value: Value)

  function ByKey(le: Locale): (Keyed, Keyed) -> bool {
    (a: Keyed, b: Keyed) => le(a.key, b.key)
  }

  function ValueOf(e: Keyed): Value { e.value }

  function KeyedFunction(d: FunctionDoc): Keyed { Keyed(d.name, Normalize(FunctionValue(d))) }

  function KeyedShared(d: SharedDoc): Keyed { Keyed(d.id, Normalize(SharedValue(d))) }

  function FunctionNormal(h: map<Text, Text>): FunctionEntry -> Keyed {
    (fn: FunctionEntry) => KeyedFunction(FunctionDocOf(h)(fn))
  }

  function SharedNormal(h: map<Text, Text>): SharedEntry -> Keyed {
    (s: SharedEntry) => KeyedShared(SharedDocOf(h)(s))
  }

  function NormalFunctions(le: Locale, m: Manifest, h: map<Text, Text>): seq<Keyed> {
    Sort(ByKey(le), Map(FunctionNormal(h), m.functions))
  }

  function NormalShared(le: Locale, m: Manifest, h: map<Text, Text>): seq<Keyed> {
    Sort(ByKey(le), Map(SharedNormal(h), m.sharedModules))
  }

  /** Entries the locale cannot order print alike. */
  ghost predicate TiesPrintAlike(le: Locale, m: Manifest, h: map<Text, Text>) {
    && TiesEqual(ByKey(le), Map(FunctionNormal(h), m.functions))
    && TiesEqual(ByKey(le), Map(SharedNormal(h), m.sharedModules))
  }

  lemma LocaleOrders(le: Locale)
    requires TotalPreorder(le)
    ensures TotalPreorder(ByKey(le))
  {
    assert forall a: Keyed, b: Keyed, c: Keyed | le(a.key, b.key) && le(b.key, c.key) :: le(a.key, c.key);
  }

  /** Normalising an array commutes with keying, whatever makes the values. */
  lemma NormalItems<D>(value: D -> Value, keyed: D -> Keyed, ds: seq<D>)
    requires forall d | d in ds :: keyed(d).value == Normalize(value(d))
    ensures NormalizeItems(Map(value, ds)) == Map(ValueOf, Map(keyed, ds))
  {
    hide Map, NormalizeItems;
    var vs, ks := Map(value, ds), Map(keyed, ds);
    forall i | 0 <= i < |ds| ensures NormalizeItems(vs)[i] == Map(ValueOf, ks)[i] {
      assert ds[i] in ds;
      MapAt(value, ds, i);
      MapAt(keyed, ds, i);
      MapAt(ValueOf, ks, i);
    }
  }

  lemma FunctionsPrint(le: Locale, m: Manifest, h: map<Text, Text>)
    ensures NormalFunctions(le, m, h) == Map(KeyedFunction, FunctionDocs(le, m, h))
    ensures Normalize(Array(Map(FunctionValue, FunctionDocs(le, m, h)))) == Array(Map(ValueOf, NormalFunctions(le, m, h)))
  {
    hide Map, Sort, FunctionValue, Normalize;
    MapTwice(FunctionDocOf(h), KeyedFunction, FunctionNormal(h), m.functions);
    MapSort(KeyedFunction, ByName(le), ByKey(le), Map(FunctionDocOf(h), m.functions));
    NormalItems(FunctionValue, KeyedFunction, FunctionDocs(le, m, h));
    NormalArray(Map(FunctionValue, FunctionDocs(le, m, h)));
  }

  lemma SharedPrint(le: Locale, m: Manifest, h: map<Text, Text>)
    ensures NormalShared(le, m, h) == Map(KeyedShared, SharedDocs(le, m, h))
    ensures Normalize(Array(Map(SharedValue, SharedDocs(le, m, h)))) == Array(Map(ValueOf, NormalShared(le, m, h)))
  {
    hide Map, Sort, SharedValue, Normalize;
    MapTwice(SharedDocOf(h), KeyedShared, SharedNormal(h), m.sharedModules);
    MapSort(KeyedShared, ById(le), ByKey(le), Map(SharedDocOf(h), m.sharedModules));
    NormalItems(SharedValue, KeyedShared, SharedDocs(le, m, h));
    NormalArray(Map(SharedValue, SharedDocs(le, m, h)));
  }

  lemma NormalArray(items: seq<Value>)
    ensures Normalize(Array(items)) == Array(NormalizeItems(items))
  {
  }

  lemma SameFunctions(le: Locale, m: Manifest, m': Manifest, rho: Renaming, h: map<Text, Text>, h': map<Text, Text>)
    requires TotalPreorder(le) && TiesPrintAlike(le, m, h) && Known(m, h) && KeepsHashes(rho, h, h') && Rebuilt(m, m', rho)
    ensures NormalFunctions(le, m', h') == NormalFunctions(le, m, h)
  {
    hide TiesEqual, TotalPreorder, FunctionDocOf, KeyedFunction, ByKey, Sort, Map, KeepsHashes, RenameFunction;
    LocaleOrders(le);
    var renamed := Map(RenameFunction(rho), m.functions);
    RenamedFunctionDocs(rho, h, h', m.functions);
    MapTwice(FunctionDocOf(h'), KeyedFunction, FunctionNormal(h'), renamed);
    MapTwice(FunctionDocOf(h), KeyedFunction, FunctionNormal(h), m.functions);
    MapPermutes(FunctionNormal(h'), m'.functions, renamed);
    SortOfPermutation(ByKey(le), Map(FunctionNormal(h), m.functions), Map(FunctionNormal(h'), m'.functions));
  }

  lemma SameShared(le: Locale, m: Manifest, m': Manifest, rho: Renaming, h: map<Text, Text>, h': map<Text, Text>)
    requires TotalPreorder(le) && TiesPrintAlike(le, m, h) && Known(m, h) && KeepsHashes(rho, h, h') && Rebuilt(m, m', rho)
    ensures NormalShared(le, m', h') == NormalShared(le, m, h)
  {
    hide TiesEqual, TotalPreorder, SharedDocOf, KeyedShared, ByKey, Sort, Map, KeepsHashes, RenameShared;
    LocaleOrders(le);
    var renamed := Map(RenameShared(rho), m.sharedModules);
    RenamedSharedDocs(rho, h, h', m.sharedModules);
    MapTwice(SharedDocOf(h'), KeyedShared, SharedNormal(h'), renamed);
    MapTwice(SharedDocOf(h), KeyedShared, SharedNormal(h), m.sharedModules);
    MapPermutes(SharedNormal(h'), m'.sharedModules, renamed);
    SortOfPermutation(ByKey(le), Map(SharedNormal(h), m.sharedModules), Map(SharedNormal(h'), m'.sharedModules));
  }

  /** Objects with the same keys in the same places and values that print alike print alike. */
  lemma {:induction false} SamePlaces(ms: seq<Member>, ns: seq<Member>)
    requires |ms| == |ns|
    requires forall i | 0 <= i < |ms| :: ms[i].key == ns[i].key && Normalize(ms[i].value) == Normalize(ns[i].value)
    ensures KeysOf(ms) == KeysOf(ns) && NormalizeMembers(ms) == NormalizeMembers(ns)
  {
    if ms != [] {
      SamePlaces(ms[1..], ns[1..]);
      assert ms[0].key == ns[0].key;
    }
  }

  lemma SameDocument(le: Locale, m: Manifest, m': Manifest, rho: Renaming, h: map<Text, Text>, h': map<Text, Text>)
    requires TotalPreorder(le) && TiesPrintAlike(le, m, h) && Known(m, h) && KeepsHashes(rho, h, h') && Rebuilt(m, m', rho)
    ensures Normalize(Document(le, m', h')) == Normalize(Document(le, m, h))
  {
    hide Normalize, TotalPreorder, TiesPrintAlike, Known, KeepsHashes, Map, FunctionDocs, SharedDocs, NormalFunctions, NormalShared, UniqueSortedText, Strings;
    SameFunctions(le, m, m', rho, h, h');
    SameShared(le, m, m', rho, h, h');
    FunctionsPrint(le, m, h);
    FunctionsPrint(le, m', h');
    SharedPrint(le, m, h);
    SharedPrint(le, m', h');
    SameLists(m, m', rho, h, h');
    SamePlaces(Document(le, m, h).members, Document(le, m', h').members);
    NormalObject(Document(le, m, h).members);
    NormalObject(Document(le, m', h').members);
  }

  lemma SameLists(m: Manifest, m': Manifest, rho: Renaming, h: map<Text, Text>, h': map<Text, Text>)
    requires Known(m, h) && KeepsHashes(rho, h, h') && Rebuilt(m, m', rho)
    ensures UniqueSortedText(m'.compatibilityFlags) == UniqueSortedText(m.compatibilityFlags)
    ensures UniqueSortedText(m'.envAllowlist) == UniqueSortedText(m.envAllowlist)
    ensures UniqueSortedText(HashesOf(h', m'.chunks)) == UniqueSortedText(HashesOf(h, m.chunks))
  {
    UniqueSortedTextBySet(m'.compatibilityFlags, m.compatibilityFlags);
    UniqueSortedTextBySet(m'.envAllowlist, m.envAllowlist);
    HashesOfSet(h', m'.chunks, RenameFiles(rho, m.chunks));
    RenamedHashes(rho, h, h', m.chunks);
    UniqueSortedTextBySet(HashesOf(h', m'.chunks), HashesOf(h, m.chunks));
  }

  // ---------------------------------------------------------------------------
  // The fingerprint of a rebuilt program
  // ---------------------------------------------------------------------------

  /** Some file renamed to `f'` has this rank. */
  ghost predicate HasRank(rank: map<Text, nat>, rho: Renaming, f': Text, n: nat) {
    exists f :: f in rank && rho(f) == f' && rank[f] == n
  }

  /** The least rank of a file renamed to `f'`. */
  ghost function LeastRank(rank: map<Text, nat>, rho: Renaming, f': Text, n: nat, bound: nat): (r: nat)
    requires n <= bound && HasRank(rank, rho, f', bound) && forall k: nat | k < n :: !HasRank(rank, rho, f', k)
    ensures HasRank(rank, rho, f', r) && forall k: nat | k < r :: !HasRank(rank, rho, f', k)
    decreases bound - n
  {
    if HasRank(rank, rho, f', n) then n else LeastRank(rank, rho, f', n + 1, bound)
  }

  ghost function RankOf(rank: map<Text, nat>, rho: Renaming, f': Text): (r: nat)
    requires exists n: nat :: HasRank(rank, rho, f', n)
    ensures HasRank(rank, rho, f', r) && forall k: nat | k < r :: !HasRank(rank, rho, f', k)
  {
    var bound: nat :| HasRank(rank, rho, f', bound);
    LeastRank(rank, rho, f', 0, bound)
  }

  lemma RankLifts(g: Graph, g': Graph, rho: Renaming, rank: map<Text, nat>, f': Text, d': Text)
    requires Ranked(g, rank) && Renamed(g, g', rho) && f' in g' && d' in g'[f'].dependencies && d' != f'
    requires exists n: nat :: HasRank(rank, rho, f', n)
    ensures d' in g' && (exists n: nat :: HasRank(rank, rho, d', n)) && RankOf(rank, rho, d') < RankOf(rank, rho, f')
  {
    hide RankOf, Renamed;
    var r := RankOf(rank, rho, f');
    var f :| f in rank && rho(f) == f' && rank[f] == r;
    RenamedAt(g, g', rho, f);
    var d :| d in g[f].dependencies && rho(d) == d';
    RenamedAt(g, g', rho, d);
    assert d in rank && rank[d] < rank[f];
    assert HasRank(rank, rho, d', rank[d]);
  }

  /** Every file of `g'` is a renamed one. */
  ghost predicate Onto(g: Graph, g': Graph, rho: Renaming) {
    forall f' | f' in g' :: exists f :: f in g && rho(f) == f'
  }

  lemma ImportRenamed(g: Graph, g': Graph, rho: Renaming, f': Text, d': Text)
    requires Renamed(g, g', rho) && Onto(g, g', rho) && f' in g' && d' in g'[f'].dependencies
    ensures d' in g'
  {
    hide Renamed;
    var f :| f in g && rho(f) == f';
    hide Onto;
    RenamedAt(g, g', rho, f);
    var d :| d in g[f].dependencies && rho(d) == d';
    RenamedAt(g, g', rho, d);
  }

  lemma SomeRank(g: Graph, g': Graph, rho: Renaming, rank: map<Text, nat>, f': Text)
    requires Ranked(g, rank) && Onto(g, g', rho) && f' in g'
    ensures exists n: nat :: HasRank(rank, rho, f', n)
  {
    var f :| f in g && rho(f) == f';
    assert HasRank(rank, rho, f', rank[f]);
  }

  /** A graph that renames an untangled one is untangled. */
  lemma RenamedUntangled(g: Graph, g': Graph, rho: Renaming)
    requires Closed(g) && Untangled(g) && Renamed(g, g', rho) && Onto(g, g', rho)
    ensures Closed(g') && Untangled(g')
  {
    hide Untangled, RankOf, Renamed, HasRank, Onto, Closed, Ranked;
    var rank := UntangledRanked(g);
    forall f' | f' in g' ensures exists n: nat :: HasRank(rank, rho, f', n) {
      SomeRank(g, g', rho, rank, f');
    }
    var rank': map<Text, nat> := map f' | f' in g' :: RankOf(rank, rho, f');
    forall f', d' | f' in g' && d' in g'[f'].dependencies ensures d' in g' && (d' != f' ==> rank'[d'] < rank'[f']) {
      ImportRenamed(g, g', rho, f', d');
      if d' != f' { RankLifts(g, g', rho, rank, f', d'); }
    }
    MakesRank(g', rank');
    RankedUntangled(g', rank');
  }

  lemma MakesRank(g: Graph, rank: map<Text, nat>)
    requires rank.Keys == g.Keys
    requires forall f, d | f in g && d in g[f].dependencies :: d in g && (d != f ==> rank[d] < rank[f])
    ensures Ranked(g, rank) && Closed(g)
  {
  }

  /** No module imports itself, either. */
  ghost predicate Acyclic(g: Graph) {
    Closed(g) && Untangled(g) && forall f | f in g :: f !in g[f].dependencies
  }

  /** Files of one new name that imports itself import each other on and on. */
  lemma {:induction false} NoLoop(g: Graph, g': Graph, rho: Renaming, rank: map<Text, nat>, f: Text)
    requires Ranked(g, rank) && Renamed(g, g', rho) && (forall x | x in g :: x !in g[x].dependencies)
    requires f in g && rho(f) in g'[rho(f)].dependencies
    ensures false
    decreases rank[f]
  {
    hide Renamed;
    RenamedAt(g, g', rho, f);
    var d :| d in g[f].dependencies && rho(d) == rho(f);
    NoLoop(g, g', rho, rank, d);
  }

  /** Of an acyclic graph every renaming keeps files and their imports apart. */
  lemma AcyclicKeepsApart(g: Graph, g': Graph, rho: Renaming)
    requires Acyclic(g) && Renamed(g, g', rho)
    ensures KeepsApart(g, rho)
  {
    hide Untangled, Renamed, Ranked;
    var rank := UntangledRanked(g);
    forall f, d | f in g && d in g[f].dependencies ensures rho(d) != rho(f) {
      RenamedAt(g, g', rho, f);
      if rho(d) == rho(f) { NoLoop(g, g', rho, rank, f); }
    }
  }

  lemma RenamedKeepsHashes(g: Graph, g': Graph, rho: Renaming, sha: Text -> Text, h: map<Text, Text>, h': map<Text, Text>)
    requires Closed(g) && Untangled(g) && Renamed(g, g', rho) && KeepsApart(g, rho)
    requires Merkle(g, sha, h) && Merkle(g', sha, h')
    ensures KeepsHashes(rho, h, h')
  {
    hide Renamed, Ranked, Partial, Untangled;
    var rank := UntangledRanked(g);
    forall f | f in h ensures rho(f) in h' && h'[rho(f)] == h[f] {
      RenamedHashAt(g, g', rho, sha, rank, h, h', f);
    }
  }

  /**
    Rebuilding a program in which no two different modules reach each other, under other file names and
    in another order, gives the same canonical document, or the same fault, whatever the visiting order
    its new file names induce.
   */
  lemma FingerprintIgnoresNamesAndOrder(
    le: Locale, sha: Text -> Text, m: Manifest, g: Graph, m': Manifest, g': Graph, rho: Renaming)
    requires TotalPreorder(le)
    requires Closed(g) && Untangled(g) && Renamed(g, g', rho) && KeepsApart(g, rho) && Rebuilt(m, m', rho)
    requires forall f :: f in ModuleFiles(m) <==> f in g
    requires forall f :: f in ModuleFiles(m') <==> f in g'
    requires HashAll(g, sha, ModuleFiles(m), map[]).Some? ==> TiesPrintAlike(le, m, HashAll(g, sha, ModuleFiles(m), map[]).value)
    ensures var r, r' := HashAll(g, sha, ModuleFiles(m), map[]), HashAll(g', sha, ModuleFiles(m'), map[]);
            && r.Some? && r'.Some?
            && Outcome(Document(le, m', r'.value)) == Outcome(Document(le, m, r.value))
  {
    hide ModuleFiles, HashAll, Document, Known, Merkle, TiesPrintAlike, Rebuilt, Renamed, Untangled, KeepsHashes, TotalPreorder, Onto;
    FingerprintIsMerkle(g, sha, ModuleFiles(m));
    ModuleFilesOnto(m, g, m', g', rho);
    RenamedUntangled(g, g', rho);
    FingerprintIsMerkle(g', sha, ModuleFiles(m'));
    var h := HashAll(g, sha, ModuleFiles(m), map[]).value;
    var h' := HashAll(g', sha, ModuleFiles(m'), map[]).value;
    RenamedKeepsHashes(g, g', rho, sha, h, h');
    MerkleKnows(m, g, sha, h);
    SameDocument(le, m, m', rho, h, h');
    OutcomeOfNormal(Document(le, m, h), Document(le, m', h'));
  }

  lemma MerkleKnows(m: Manifest, g: Graph, sha: Text -> Text, h: map<Text, Text>)
    requires Merkle(g, sha, h) && forall f :: f in ModuleFiles(m) <==> f in g
    ensures Known(m, h)
  {
    hide ModuleFiles, Partial, Known;
    assert forall f :: f in h <==> f in h.Keys;
    FilesKnown(m, h);
  }

  lemma OutcomeOfNormal(v: Value, w: Value)
    requires Normalize(v) == Normalize(w)
    ensures Outcome(v) == Outcome(w)
  {
  }

  lemma {:induction false} FilesOfAllFrom(fns: seq<FunctionEntry>, f: Text)
    ensures f in FilesOfAll(fns) <==> exists fn :: fn in fns && f in FilesOf(fn)
  {
    if fns != [] {
      FilesOfAllFrom(fns[1..], f);
      assert fns == [fns[0]] + fns[1..];
    }
  }

  lemma {:induction false} RenamedIn(rho: Renaming, files: seq<Text>, f: Text)
    requires f in files
    ensures rho(f) in RenameFiles(rho, files)
  {
    if f != files[0] { RenamedIn(rho, files[1..], f); }
  }

  lemma {:induction false} RenameFilesMember(rho: Renaming, files: seq<Text>, f': Text)
    requires f' in RenameFiles(rho, files)
    ensures exists f :: f in files && rho(f) == f'
  {
    if f' == rho(files[0]) {
      assert files[0] in files;
    } else {
      RenameFilesMember(rho, files[1..], f');
    }
  }

  lemma MapMember<T, U>(f: T -> U, xs: seq<T>, y: U)
    requires y in Map(f, xs)
    ensures exists x :: x in xs && f(x) == y
  {
    var i :| 0 <= i < |Map(f, xs)| && Map(f, xs)[i] == y;
    MapAt(f, xs, i);
    assert xs[i] in xs;
  }

  lemma ModuleFilesAre(m: Manifest, f: Text)
    ensures f in ModuleFiles(m) <==>
            f in FilesOfAll(m.functions) || f in m.chunks || f in Map(BundleOf, m.sharedModules)
  {
    TextOrder();
    UniqueSortedListing(TextLe, FilesOfAll(m.functions) + m.chunks + Map(BundleOf, m.sharedModules));
  }

  lemma MemberOfPermutation<T>(xs: seq<T>, ys: seq<T>, x: T)
    requires multiset(xs) == multiset(ys) && x in xs
    ensures x in ys
  {
    assert x in multiset(xs);
  }

  /** Every module file of the rebuilt manifest is a renamed one. */
  lemma ModuleFileRenamed(m: Manifest, m': Manifest, rho: Renaming, f': Text)
    requires Rebuilt(m, m', rho) && f' in ModuleFiles(m')
    ensures exists f :: f in ModuleFiles(m) && rho(f) == f'
  {
    hide ModuleFiles, Map, RenameFiles, FilesOfAll, FilesOf, RenameFunction;
    ModuleFilesAre(m', f');
    if f' in m'.chunks {
      RenameFilesMember(rho, m.chunks, f');
      var f :| f in m.chunks && rho(f) == f';
      ModuleFilesAre(m, f);
    } else if f' in FilesOfAll(m'.functions) {
      FilesOfAllFrom(m'.functions, f');
      var fn' :| fn' in m'.functions && f' in FilesOf(fn');
      MemberOfPermutation(m'.functions, Map(RenameFunction(rho), m.functions), fn');
      MapMember(RenameFunction(rho), m.functions, fn');
      var fn :| fn in m.functions && RenameFunction(rho)(fn) == fn';
      FilesOfRenamed(rho, fn);
      RenameFilesMember(rho, FilesOf(fn), f');
      var f :| f in FilesOf(fn) && rho(f) == f';
      FilesOfAllFrom(m.functions, f);
      ModuleFilesAre(m, f);
    } else {
      MapMember(BundleOf, m'.sharedModules, f');
      var s' :| s' in m'.sharedModules && BundleOf(s') == f';
      MemberOfPermutation(m'.sharedModules, Map(RenameShared(rho), m.sharedModules), s');
      MapMember(RenameShared(rho), m.sharedModules, s');
      var s :| s in m.sharedModules && RenameShared(rho)(s) == s';
      var i :| 0 <= i < |m.sharedModules| && m.sharedModules[i] == s;
      MapAt(BundleOf, m.sharedModules, i);
      ModuleFilesAre(m, s.bundleFile);
    }
  }

  lemma ModuleFilesRenamed(m: Manifest, m': Manifest, rho: Renaming)
    requires Rebuilt(m, m', rho)
    ensures forall f' | f' in ModuleFiles(m') :: exists f :: f in ModuleFiles(m) && rho(f) == f'
  {
    forall f' | f' in ModuleFiles(m') ensures exists f :: f in ModuleFiles(m) && rho(f) == f' {
      ModuleFileRenamed(m, m', rho, f');
    }
  }

  lemma ModuleFilesOnto(m: Manifest, g: Graph, m': Manifest, g': Graph, rho: Renaming)
    requires Rebuilt(m, m', rho)
    requires forall f :: f in ModuleFiles(m) <==> f in g
    requires forall f :: f in ModuleFiles(m') <==> f in g'
    ensures Onto(g, g', rho)
  {
    hide ModuleFiles, Rebuilt;
    ModuleFilesRenamed(m, m', rho);
    forall f' | f' in g' ensures exists f :: f in g && rho(f) == f' {
      assert f' in ModuleFiles(m');
      var f :| f in ModuleFiles(m) && rho(f) == f';
    }
  }

  lemma {:induction false} FilesOfAllMember(fns: seq<FunctionEntry>, fn: FunctionEntry, f: Text)
    requires fn in fns && f in FilesOf(fn)
    ensures f in FilesOfAll(fns)
  {
    if fn != fns[0] {
      FilesOfAllMember(fns[1..], fn, f);
    }
  }

  lemma FilesKnown(m: Manifest, h: map<Text, Text>)
    requires forall f | f in ModuleFiles(m) :: f in h
    ensures Known(m, h)
  {
    var all := FilesOfAll(m.functions) + m.chunks + Map(BundleOf, m.sharedModules);
    TextOrder();
    UniqueSortedListing(TextLe, all);
    forall fn, f | fn in m.functions && f in FilesOf(fn) ensures f in h {
      FilesOfAllMember(m.functions, fn, f);
      assert f in all;
    }
    forall s | s in m.sharedModules ensures s.bundleFile in h {
      var i :| 0 <= i < |m.sharedModules| && m.sharedModules[i] == s;
      MapAt(BundleOf, m.sharedModules, i);
      assert s.bundleFile in all;
    }
    assert forall f | f in m.chunks :: f in all;
  }

  // ---------------------------------------------------------------------------
  // Exactly when the order of entries does not show
  // ---------------------------------------------------------------------------

  /** `m'` is `m` with its functions and shared modules in another order. */
  ghost predicate Reordered(m: Manifest, m': Manifest) {
    && multiset(m'.functions) == multiset(m.functions)
    && multiset(m'.sharedModules) == multiset(m.sharedModules)
    && m' == m.(functions := m'.functions, sharedModules := m'.sharedModules)
  }

  lemma SameNormalParts(le: Locale, m: Manifest, m': Manifest, h: map<Text, Text>)
    requires m' == m.(functions := m'.functions, sharedModules := m'.sharedModules)
    requires NormalFunctions(le, m', h) == NormalFunctions(le, m, h) && NormalShared(le, m', h) == NormalShared(le, m, h)
    ensures Normalize(Document(le, m', h)) == Normalize(Document(le, m, h))
  {
    hide Normalize, Map, FunctionDocs, SharedDocs, NormalFunctions, NormalShared, UniqueSortedText, Strings;
    FunctionsPrint(le, m, h);
    FunctionsPrint(le, m', h);
    SharedPrint(le, m, h);
    SharedPrint(le, m', h);
    SamePlaces(Document(le, m, h).members, Document(le, m', h).members);
    NormalObject(Document(le, m, h).members);
    NormalObject(Document(le, m', h).members);
  }

  lemma ReorderedPrintsAlike(le: Locale, m: Manifest, m': Manifest, h: map<Text, Text>)
    requires TotalPreorder(le) && TiesPrintAlike(le, m, h) && Reordered(m, m')
    ensures Outcome(Document(le, m', h)) == Outcome(Document(le, m, h))
  {
    hide TiesEqual, TotalPreorder, Map, Sort, Document, Outcome, Normalize, ByKey;
    LocaleOrders(le);
    MapPermutes(FunctionNormal(h), m'.functions, m.functions);
    MapPermutes(SharedNormal(h), m'.sharedModules, m.sharedModules);
    SortOfPermutation(ByKey(le), Map(FunctionNormal(h), m.functions), Map(FunctionNormal(h), m'.functions));
    SortOfPermutation(ByKey(le), Map(SharedNormal(h), m.sharedModules), Map(SharedNormal(h), m'.sharedModules));
    SameNormalParts(le, m, m', h);
    OutcomeOfNormal(Document(le, m, h), Document(le, m', h));
  }

  lemma {:induction false} LookupAt(ms: seq<Member>, i: nat, k: Text)
    requires i < |ms| && ms[i].key == k && forall j | 0 <= j < i :: ms[j].key != k
    ensures Lookup(ms, k) == ms[i].value
  {
    if i > 0 { LookupAt(ms[1..], i - 1, k); }
  }

  lemma DocumentLookup(le: Locale, m: Manifest, h: map<Text, Text>)
    ensures Document(le, m, h).Object?
    ensures Lookup(Document(le, m, h).members, Ascii("functions")) == Array(Map(FunctionValue, FunctionDocs(le, m, h)))
    ensures Lookup(Document(le, m, h).members, Ascii("sharedModules")) == Array(Map(SharedValue, SharedDocs(le, m, h)))
    ensures Lookup(Document(le, m, h).members, Ascii("chunks")) == Array(Strings(UniqueSortedText(HashesOf(h, m.chunks))))
  {
    hide Lookup, Map, FunctionDocs, SharedDocs, UniqueSortedText, Strings, HashesOf, Ascii, Document, KeysOf;
    DocumentMembers(le, m, h);
    var ms := Document(le, m, h).members;
    LookupFound(ms, 4);
    LookupFound(ms, 5);
    LookupFound(ms, 6);
  }

  lemma MembersSame(ms: seq<Member>, ns: seq<Member>, k: Text)
    requires Normalize(Object(ms)) == Normalize(Object(ns)) && Lookup(ms, k) != Undefined
    ensures Same(Lookup(ms, k), Lookup(ns, k)) && Normalize(Lookup(ms, k)) == Normalize(Lookup(ns, k))
  {
    hide Normalize, Lookup;
    NormalizesSame(Object(ms), Object(ns));
    assert Defined(ms, k) && Defined(ns, k);
    SameNormalizes(Lookup(ms, k), Lookup(ns, k));
  }

  lemma FunctionKey(a: FunctionDoc, b: FunctionDoc)
    requires Normalize(FunctionValue(a)) == Normalize(FunctionValue(b))
    ensures a.name == b.name
  {
    hide Normalize, Lookup, Strings;
    var ms, ns := FunctionValue(a).members, FunctionValue(b).members;
    LookupAt(ms, 0, Ascii("name"));
    LookupAt(ns, 0, Ascii("name"));
    MembersSame(ms, ns, Ascii("name"));
  }

  lemma SharedKey(a: SharedDoc, b: SharedDoc)
    requires Normalize(SharedValue(a)) == Normalize(SharedValue(b))
    ensures a.id == b.id
  {
    hide Normalize, Lookup, Strings;
    var ms, ns := SharedValue(a).members, SharedValue(b).members;
    LookupAt(ms, 0, Ascii("id"));
    LookupAt(ns, 0, Ascii("id"));
    MembersSame(ms, ns, Ascii("id"));
  }

  /** Entries are known by the values they print, keys included. */
  lemma KeyedByValues<D>(keyed: D -> Keyed, xs: seq<D>, ys: seq<D>)
    requires Map(ValueOf, Map(keyed, xs)) == Map(ValueOf, Map(keyed, ys))
    requires forall x, y | x in xs && y in ys && keyed(x).value == keyed(y).value :: keyed(x).key == keyed(y).key
    ensures Map(keyed, xs) == Map(keyed, ys)
  {
    hide Map;
    assert |xs| == |Map(ValueOf, Map(keyed, xs))| == |Map(ValueOf, Map(keyed, ys))| == |ys|;
    forall i | 0 <= i < |xs| ensures Map(keyed, xs)[i] == Map(keyed, ys)[i] {
      assert xs[i] in xs && ys[i] in ys;
      MapAt(keyed, xs, i);
      MapAt(keyed, ys, i);
      MapAt(ValueOf, Map(keyed, xs), i);
      MapAt(ValueOf, Map(keyed, ys), i);
    }
  }

  lemma DocumentKnowsEntries(le: Locale, m: Manifest, m': Manifest, h: map<Text, Text>)
    requires Normalize(Document(le, m', h)) == Normalize(Document(le, m, h))
    ensures NormalFunctions(le, m', h) == NormalFunctions(le, m, h) && NormalShared(le, m', h) == NormalShared(le, m, h)
  {
    hide Normalize, Lookup, Map, FunctionDocs, SharedDocs, NormalFunctions, NormalShared, FunctionValue, SharedValue;
    var ms, ns := Document(le, m', h).members, Document(le, m, h).members;
    DocumentIsObject(le, m, h);
    DocumentIsObject(le, m', h);
    hide Document;
    DocumentLookup(le, m, h);
    DocumentLookup(le, m', h);
    MembersSame(ms, ns, Ascii("functions"));
    MembersSame(ms, ns, Ascii("sharedModules"));
    FunctionsPrint(le, m, h);
    FunctionsPrint(le, m', h);
    SharedPrint(le, m, h);
    SharedPrint(le, m', h);
    FunctionsByValues(le, m, m', h);
    SharedByValues(le, m, m', h);
  }

  lemma DocumentIsObject(le: Locale, m: Manifest, h: map<Text, Text>)
    ensures Document(le, m, h).Object? && Document(le, m, h) == Object(Document(le, m, h).members)
  {
  }

  lemma FunctionsByValues(le: Locale, m: Manifest, m': Manifest, h: map<Text, Text>)
    requires Map(ValueOf, NormalFunctions(le, m', h)) == Map(ValueOf, NormalFunctions(le, m, h))
    ensures NormalFunctions(le, m', h) == NormalFunctions(le, m, h)
  {
    hide Map, FunctionDocs, NormalFunctions, FunctionValue, Normalize;
    FunctionsPrint(le, m, h);
    FunctionsPrint(le, m', h);
    var xs, ys := FunctionDocs(le, m', h), FunctionDocs(le, m, h);
    forall x, y | x in xs && y in ys && KeyedFunction(x).value == KeyedFunction(y).value
      ensures KeyedFunction(x).key == KeyedFunction(y).key
    {
      FunctionKey(x, y);
    }
    KeyedByValues(KeyedFunction, xs, ys);
  }

  lemma SharedByValues(le: Locale, m: Manifest, m': Manifest, h: map<Text, Text>)
    requires Map(ValueOf, NormalShared(le, m', h)) == Map(ValueOf, NormalShared(le, m, h))
    ensures NormalShared(le, m', h) == NormalShared(le, m, h)
  {
    hide Map, SharedDocs, NormalShared, SharedValue, Normalize;
    SharedPrint(le, m, h);
    SharedPrint(le, m', h);
    var xs, ys := SharedDocs(le, m', h), SharedDocs(le, m, h);
    forall x, y | x in xs && y in ys && KeyedShared(x).value == KeyedShared(y).value
      ensures KeyedShared(x).key == KeyedShared(y).key
    {
      SharedKey(x, y);
    }
    KeyedByValues(KeyedShared, xs, ys);
  }

  /** A tie between entries that print differently can be made to show. */
  lemma TieShows(le: Locale, m: Manifest, h: map<Text, Text>) returns (m': Manifest)
    requires TotalPreorder(le) && !TiesPrintAlike(le, m, h)
    ensures Reordered(m, m')
    ensures NormalFunctions(le, m', h) != NormalFunctions(le, m, h) || NormalShared(le, m', h) != NormalShared(le, m, h)
  {
    hide TotalPreorder, TiesEqual, Map, Sort, FunctionNormal, SharedNormal, ByKey;
    LocaleOrders(le);
    if !TiesEqual(ByKey(le), Map(FunctionNormal(h), m.functions)) {
      var i, j := TiesShow(ByKey(le), Map(FunctionNormal(h), m.functions));
      MapExchange(FunctionNormal(h), m.functions, i, j);
      ExchangePermutes(m.functions, i, j);
      m' := m.(functions := Exchange(m.functions, i, j));
    } else {
      var i, j := TiesShow(ByKey(le), Map(SharedNormal(h), m.sharedModules));
      MapExchange(SharedNormal(h), m.sharedModules, i, j);
      ExchangePermutes(m.sharedModules, i, j);
      m' := m.(sharedModules := Exchange(m.sharedModules, i, j));
    }
  }

  /**
    The order of a manifest's functions and shared modules does not show in its printed document if
    and only if those the locale cannot order print alike.
   */
  lemma OrderIgnoredIff(le: Locale, m: Manifest, h: map<Text, Text>)
    requires TotalPreorder(le) && Printable(Document(le, m, h))
    ensures (forall m' | Reordered(m, m') :: Outcome(Document(le, m', h)) == Outcome(Document(le, m, h)))
       <==> TiesPrintAlike(le, m, h)
  {
    hide TotalPreorder, TiesPrintAlike, Document, Normalize, NormalFunctions, NormalShared, Reordered, Same;
    if TiesPrintAlike(le, m, h) {
      forall m' | Reordered(m, m') ensures Outcome(Document(le, m', h)) == Outcome(Document(le, m, h)) {
        ReorderedPrintsAlike(le, m, m', h);
      }
    } else {
      var m' := TieShows(le, m, h);
      var v, w := Document(le, m', h), Document(le, m, h);
      if Outcome(v) == Outcome(w) {
        CanonicalIffSame(v, w);
        SameNormalizes(v, w);
        DocumentKnowsEntries(le, m, m', h);
      }
      assert Reordered(m, m') && Outcome(v) != Outcome(w);
    }
  }
}
