/**
  From raw sources to the module graph: programs whose sources differ only in how they name their own
  modules have graphs that differ only in file names.

  A source is written as the text between its import specifiers woven with the specifiers.
 */
module FirmwareSources {
  import opened Basics
  import opened Graphs
  import opened Sorting
  import opened JsText
  import opened Json
  import opened Splice
  import opened Rewrite
  import opened Firmware
  import opened FirmwareDocument

  /** The source, without its source-map comment, is this weaving, and the lexer finds the specifiers. */
  ghost predicate Written(lex: Lexer, source: Text, gs: seq<Text>, specs: seq<Specifier>) {
    && |gs| == |specs| + 1
    && StripSourceMap(source) == Weave(gs, TextsOf(specs))
    && lex(StripSourceMap(source)) == SitesOf(gs, specs, 0)
  }

  /** The known module that a specifier in a file refers to. */
  function Names(resolve: Resolver, file: Text, known: set<Text>, spec: Specifier): Option<Text> {
    Referred(resolve, file, known, if spec.name.Some? then spec.name.value else spec.text)
  }

  /** What the specifiers are replaced by. */
  ghost function Refs(resolve: Resolver, file: Text, known: set<Text>, specs: seq<Specifier>): (ts: seq<Option<Text>>)
    ensures |ts| == |specs|
    ensures forall i | 0 <= i < |specs| ::
              ts[i] == if Names(resolve, file, known, specs[i]).Some? then Some(MODULE_REF) else None
  {
    if specs == [] then []
    else
      [if Names(resolve, file, known, specs[0]).Some? then Some(MODULE_REF) else None]
      + Refs(resolve, file, known, specs[1..])
  }

  function NamedBy(resolve: Resolver, file: Text, known: set<Text>, specs: seq<Specifier>): seq<Text> {
    if specs == [] then []
    else
      (match Names(resolve, file, known, specs[0]) case None => [] case Some(t) => [t])
      + NamedBy(resolve, file, known, specs[1..])
  }

  lemma SpecifierTarget(resolve: Resolver, file: Text, code: Text, known: set<Text>, spec: Specifier, start: nat)
    requires start + |spec.text| <= |code| && code[start..start + |spec.text|] == spec.text
    ensures var site := ImportSite(start, start + |spec.text|, spec.dynamic, spec.name);
            && Target(resolve, file, code, known, site) == Names(resolve, file, known, spec)
            && RefPick(resolve, file, code, known)(site)
            == if Names(resolve, file, known, spec).Some? then Some(MODULE_REF) else None
  {
    hide Referred;
  }

  lemma LookUpCons(resolve: Resolver, file: Text, code: Text, known: set<Text>, site: ImportSite, rest: seq<ImportSite>)
    requires site.start <= site.end <= |code| && InBounds(code, rest)
    ensures var pick := RefPick(resolve, file, code, known);
            && InBounds(code, [site] + rest)
            && Targets(resolve, file, code, known, [site] + rest)
            == (match Target(resolve, file, code, known, site) case None => [] case Some(t) => [t])
             + Targets(resolve, file, code, known, rest)
            && Chosen([site] + rest, pick)
            == (match pick(site) case None => [] case Some(t) => [Patch(site.start, site.end, t)]) + Chosen(rest, pick)
  {
    hide Target;
    assert ([site] + rest)[1..] == rest;
  }

  /** The sites the lexer finds are looked up and chosen as their specifiers are. */
  lemma {:induction false} SitesLookedUp(
    resolve: Resolver, file: Text, code: Text, known: set<Text>, gs: seq<Text>, specs: seq<Specifier>, from: nat)
    requires |gs| == |specs| + 1 && from <= |code| && code[from..] == Weave(gs, TextsOf(specs))
    ensures var sites := SitesOf(gs, specs, from);
            && InBounds(code, sites)
            && Targets(resolve, file, code, known, sites) == NamedBy(resolve, file, known, specs)
            && Chosen(sites, RefPick(resolve, file, code, known))
            == SitesIn(gs, TextsOf(specs), Refs(resolve, file, known, specs), from)
  {
    hide Target, Names, RefPick, Weave, Targets, Chosen, InBounds, SitesOf, SitesIn, Refs, TextsOf, NamedBy;
    if specs == [] {
      NothingLookedUp(resolve, file, code, known, gs, specs, from);
    } else {
      var spec, start := specs[0], from + |gs[0]|;
      var end := start + |spec.text|;
      var site := ImportSite(start, end, spec.dynamic, spec.name);
      WovenSpecifier(gs, specs);
      Splice.Cut(code, from, gs[0], spec.text, Weave(gs[1..], TextsOf(specs[1..])));
      SpecifierTarget(resolve, file, code, known, spec, start);
      SitesLookedUp(resolve, file, code, known, gs[1..], specs[1..], end);
      LookUpCons(resolve, file, code, known, site, SitesOf(gs[1..], specs[1..], end));
      SitesOfCons(resolve, file, known, gs, specs, from);
      RefsCons(resolve, file, known, gs, specs, from);
    }
  }

  lemma NothingLookedUp(
    resolve: Resolver, file: Text, code: Text, known: set<Text>, gs: seq<Text>, specs: seq<Specifier>, from: nat)
    requires specs == [] && |gs| == 1
    ensures var sites := SitesOf(gs, specs, from);
            && InBounds(code, sites)
            && Targets(resolve, file, code, known, sites) == NamedBy(resolve, file, known, specs)
            && Chosen(sites, RefPick(resolve, file, code, known))
            == SitesIn(gs, TextsOf(specs), Refs(resolve, file, known, specs), from)
  {
  }

  lemma SitesOfCons(resolve: Resolver, file: Text, known: set<Text>, gs: seq<Text>, specs: seq<Specifier>, from: nat)
    requires |gs| == |specs| + 1 && specs != []
    ensures var start := from + |gs[0]|;
            var end := start + |specs[0].text|;
            SitesOf(gs, specs, from)
            == [ImportSite(start, end, specs[0].dynamic, specs[0].name)] + SitesOf(gs[1..], specs[1..], end)
    ensures NamedBy(resolve, file, known, specs)
         == (match Names(resolve, file, known, specs[0]) case None => [] case Some(t) => [t])
          + NamedBy(resolve, file, known, specs[1..])
  {
  }

  lemma RefsCons(resolve: Resolver, file: Text, known: set<Text>, gs: seq<Text>, specs: seq<Specifier>, from: nat)
    requires |gs| == |specs| + 1 && specs != []
    ensures var start := from + |gs[0]|;
            var end := start + |specs[0].text|;
            SitesIn(gs, TextsOf(specs), Refs(resolve, file, known, specs), from)
            == (if Names(resolve, file, known, specs[0]).None? then [] else [Patch(start, end, MODULE_REF)])
             + SitesIn(gs[1..], TextsOf(specs[1..]), Refs(resolve, file, known, specs[1..]), end)
  {
    hide Names;
    assert TextsOf(specs)[1..] == TextsOf(specs[1..]);
    assert Refs(resolve, file, known, specs)[1..] == Refs(resolve, file, known, specs[1..]);
  }

  lemma WovenSpecifier(gs: seq<Text>, specs: seq<Specifier>)
    requires |gs| == |specs| + 1 && specs != []
    ensures Weave(gs, TextsOf(specs)) == gs[0] + specs[0].text + Weave(gs[1..], TextsOf(specs[1..]))
  {
    assert TextsOf(specs)[1..] == TextsOf(specs[1..]);
  }

  /** A relative specifier refers to what it resolves to, if that is a module of the program. */
  ghost predicate RefersTo(resolve: Resolver, file: Text, known: set<Text>, spec: Specifier, t: Text) {
    var raw := if spec.name.Some? then spec.name.value else spec.text;
    raw != [] && raw[0] == '.' as int && t == resolve(file, raw) && t != [] && t in known
  }

  lemma NamesIff(resolve: Resolver, file: Text, known: set<Text>, spec: Specifier, t: Text)
    ensures Names(resolve, file, known, spec) == Some(t) <==> RefersTo(resolve, file, known, spec, t)
  {
    var raw := if spec.name.Some? then spec.name.value else spec.text;
    assert Ascii(".") <= raw <==> raw != [] && raw[0] == '.' as int;
  }

  lemma {:induction false} NamedByAre(resolve: Resolver, file: Text, known: set<Text>, specs: seq<Specifier>, t: Text)
    ensures t in NamedBy(resolve, file, known, specs) <==>
            exists i :: 0 <= i < |specs| && RefersTo(resolve, file, known, specs[i], t)
  {
    hide Names, RefersTo;
    if specs != [] {
      NamedByAre(resolve, file, known, specs[1..], t);
      NamesIff(resolve, file, known, specs[0], t);
      if i :| 0 <= i < |specs| && RefersTo(resolve, file, known, specs[i], t) {
        if i > 0 { assert RefersTo(resolve, file, known, specs[1..][i - 1], t); }
      }
      if i :| 0 <= i < |specs[1..]| && RefersTo(resolve, file, known, specs[1..][i], t) {
        assert RefersTo(resolve, file, known, specs[i + 1], t);
      }
    }
  }

  /**
    Of a module what stands between its specifiers stays, and so do specifiers that refer to no module of
    the program; the others become one fixed text, and what they refer to is listed in order, each once.
   */
  lemma WrittenNormalizes(
    resolve: Resolver, lex: Lexer, gs: seq<Text>, file: Text, source: Text, known: set<Text>, specs: seq<Specifier>)
    returns (texts: seq<Text>)
    requires Written(lex, source, gs, specs)
    requires forall i, t | 0 <= i < |specs| && RefersTo(resolve, file, known, specs[i], t) :: specs[i].text != []
    ensures Lexable(resolve, lex, file, source, known)
    ensures var m := Normalized(resolve, lex, file, source, known);
            && |texts| == |specs| && m.source == Weave(gs, texts)
            && SortedBy(TextLe, m.dependencies) && Distinct(m.dependencies)
            && (forall t :: t in m.dependencies <==> exists i :: 0 <= i < |specs| && RefersTo(resolve, file, known, specs[i], t))
    ensures forall i, t | 0 <= i < |specs| && RefersTo(resolve, file, known, specs[i], t) ::
              texts[i] == Ascii("__1tube_module_ref__")
    ensures forall i | 0 <= i < |specs| && !(exists t :: RefersTo(resolve, file, known, specs[i], t)) :: texts[i] == specs[i].text
  {
    hide StripSourceMap, Names, Weave, SitesIn, SitesOf, Targets, Chosen, Ascending, Replace, UniqueSortedText, NamedBy, RefPick, RefersTo;
    var code := StripSourceMap(source);
    assert code[0..] == code;
    SitesLookedUp(resolve, file, code, known, gs, specs, 0);
    var ts := Refs(resolve, file, known, specs);
    texts := Filled(TextsOf(specs), ts);
    forall i | 0 <= i < |specs|
      ensures ts[i].Some? ==> specs[i].text != [] && exists t :: RefersTo(resolve, file, known, specs[i], t)
      ensures forall t | RefersTo(resolve, file, known, specs[i], t) :: ts[i] == Some(MODULE_REF)
    {
      forall t ensures Names(resolve, file, known, specs[i]) == Some(t) <==> RefersTo(resolve, file, known, specs[i], t) {
        NamesIff(resolve, file, known, specs[i], t);
      }
    }
    WovenWhole(code, gs, TextsOf(specs), ts);
    TextOrder();
    UniqueSortedListing(TextLe, NamedBy(resolve, file, known, specs));
    UnfoldUnique(NamedBy(resolve, file, known, specs));
    forall t ensures t in NamedBy(resolve, file, known, specs) <==>
                     exists i :: 0 <= i < |specs| && RefersTo(resolve, file, known, specs[i], t)
    {
      NamedByAre(resolve, file, known, specs, t);
    }
  }

  lemma UnfoldUnique(ts: seq<Text>)
    ensures UniqueSortedText(ts) == UniqueSorted(TextLe, ts)
  {
  }

  /**
    Specifier by specifier, the two files name corresponding modules, or no module of the program and
    then in the same words.
   */
  ghost predicate Correspond(
    resolve: Resolver, rho: Renaming, file: Text, known: set<Text>, specs: seq<Specifier>,
    file': Text, known': set<Text>, specs': seq<Specifier>)
  {
    && |specs'| == |specs|
    && forall i | 0 <= i < |specs| ::
         match Names(resolve, file, known, specs[i])
         case None => Names(resolve, file', known', specs'[i]) == None && specs'[i].text == specs[i].text
         case Some(t) =>
           && Names(resolve, file', known', specs'[i]) == Some(rho(t))
           && specs[i].text != [] && specs'[i].text != []
  }

  lemma {:induction false} CorrespondingNames(
    resolve: Resolver, rho: Renaming, file: Text, known: set<Text>, specs: seq<Specifier>,
    file': Text, known': set<Text>, specs': seq<Specifier>)
    requires Correspond(resolve, rho, file, known, specs, file', known', specs')
    ensures NamedBy(resolve, file', known', specs') == RenameFiles(rho, NamedBy(resolve, file, known, specs))
  {
    hide Names;
    if specs != [] {
      CorrespondingNames(resolve, rho, file, known, specs[1..], file', known', specs'[1..]);
      var rest := NamedBy(resolve, file, known, specs[1..]);
      match Names(resolve, file, known, specs[0])
      case None => assert [] + rest == rest;
      case Some(t) => assert ([t] + rest)[1..] == rest;
    }
  }

  /**
    Two raw sources that differ only in their specifiers of known modules normalise to the same source,
    with dependencies that correspond.
   */
  lemma RespecifiedNormalizes(
    resolve: Resolver, lex: Lexer, rho: Renaming, gs: seq<Text>,
    file: Text, source: Text, known: set<Text>, specs: seq<Specifier>,
    file': Text, source': Text, known': set<Text>, specs': seq<Specifier>)
    requires Written(lex, source, gs, specs) && Written(lex, source', gs, specs')
    requires Correspond(resolve, rho, file, known, specs, file', known', specs')
    ensures Lexable(resolve, lex, file, source, known) && Lexable(resolve, lex, file', source', known')
    ensures var m, m' := Normalized(resolve, lex, file, source, known), Normalized(resolve, lex, file', source', known');
            && m'.source == m.source
            && (forall d :: d in m.dependencies <==> d in NamedBy(resolve, file, known, specs))
            && (forall d :: d in m'.dependencies <==> d in RenameFiles(rho, NamedBy(resolve, file, known, specs)))
  {
    hide StripSourceMap, Names, Weave, SitesIn, SitesOf, Targets, Chosen, Ascending, Replace, UniqueSortedText, NamedBy, RefPick;
    var code, code' := StripSourceMap(source), StripSourceMap(source');
    assert code[0..] == code && code'[0..] == code';
    SitesLookedUp(resolve, file, code, known, gs, specs, 0);
    SitesLookedUp(resolve, file', code', known', gs, specs', 0);
    var ts := Refs(resolve, file, known, specs);
    assert Refs(resolve, file', known', specs') == ts;
    ReplaceForgets(gs, TextsOf(specs), TextsOf(specs'), ts);
    CorrespondingNames(resolve, rho, file, known, specs, file', known', specs');
    UniqueSortedTextListing(NamedBy(resolve, file, known, specs));
    UniqueSortedTextListing(NamedBy(resolve, file', known', specs'));
  }

  /** The module graph of a program, its raw sources given by file. */
  ghost predicate GraphOf(g: Graph, resolve: Resolver, lex: Lexer, sources: map<Text, Text>) {
    && g.Keys == sources.Keys
    && forall f | f in sources ::
         && Lexable(resolve, lex, f, sources[f], sources.Keys)
         && g[f] == Normalized(resolve, lex, f, sources[f], sources.Keys)
  }

  /** The files of one program are those of the other, renamed and their specifiers adapted. */
  ghost predicate Respecified(
    resolve: Resolver, lex: Lexer, rho: Renaming, sources: map<Text, Text>, sources': map<Text, Text>, f: Text)
    requires f in sources
  {
    && rho(f) in sources'
    && exists gs, specs, specs' ::
         && Written(lex, sources[f], gs, specs) && Written(lex, sources'[rho(f)], gs, specs')
         && Correspond(resolve, rho, f, sources.Keys, specs, rho(f), sources'.Keys, specs')
  }

  /** Such programs have module graphs that differ in file names alone. */
  lemma RespecifiedRenames(
    resolve: Resolver, lex: Lexer, rho: Renaming, sources: map<Text, Text>, sources': map<Text, Text>, g: Graph, g': Graph)
    requires GraphOf(g, resolve, lex, sources) && GraphOf(g', resolve, lex, sources')
    requires forall f | f in sources :: Respecified(resolve, lex, rho, sources, sources', f)
    ensures Renamed(g, g', rho)
  {
    hide Written, Correspond, Lexable, Normalized, NamedBy, Respecified;
    forall f | f in g
      ensures rho(f) in g' && g'[rho(f)].source == g[f].source
      ensures forall d | d in g[f].dependencies :: d in g && rho(d) in g'[rho(f)].dependencies
      ensures forall d' | d' in g'[rho(f)].dependencies :: exists d :: d in g[f].dependencies && rho(d) == d'
    {
      RespecifiedAt(resolve, lex, rho, sources, sources', g, g', f);
    }
  }

  lemma RespecifiedAt(
    resolve: Resolver, lex: Lexer, rho: Renaming, sources: map<Text, Text>, sources': map<Text, Text>,
    g: Graph, g': Graph, f: Text)
    requires GraphOf(g, resolve, lex, sources) && GraphOf(g', resolve, lex, sources') && f in g
    requires Respecified(resolve, lex, rho, sources, sources', f)
    ensures rho(f) in g' && g'[rho(f)].source == g[f].source
    ensures forall d | d in g[f].dependencies :: d in g && rho(d) in g'[rho(f)].dependencies
    ensures forall d' | d' in g'[rho(f)].dependencies :: exists d :: d in g[f].dependencies && rho(d) == d'
  {
    hide Written, Correspond, Lexable, Normalized, NamedBy, RenameFiles;
    var gs, specs, specs' :|
      && Written(lex, sources[f], gs, specs) && Written(lex, sources'[rho(f)], gs, specs')
      && Correspond(resolve, rho, f, sources.Keys, specs, rho(f), sources'.Keys, specs');
    RespecifiedNormalizes(
      resolve, lex, rho, gs, f, sources[f], sources.Keys, specs, rho(f), sources'[rho(f)], sources'.Keys, specs');
    var named := NamedBy(resolve, f, sources.Keys, specs);
    forall d | d in g[f].dependencies ensures d in g && rho(d) in g'[rho(f)].dependencies {
      NamedKnown(resolve, f, sources.Keys, specs, d);
      RenamedIn(rho, named, d);
    }
    forall d' | d' in g'[rho(f)].dependencies ensures exists d :: d in g[f].dependencies && rho(d) == d' {
      RenameFilesMember(rho, named, d');
    }
  }

  lemma {:induction false} NamedKnown(resolve: Resolver, file: Text, known: set<Text>, specs: seq<Specifier>, d: Text)
    requires d in NamedBy(resolve, file, known, specs)
    ensures d in known
  {
    if Names(resolve, file, known, specs[0]) != Some(d) {
      NamedKnown(resolve, file, known, specs[1..], d);
    }
  }

  lemma GraphOfClosed(g: Graph, resolve: Resolver, lex: Lexer, sources: map<Text, Text>)
    requires GraphOf(g, resolve, lex, sources)
    ensures Closed(g)
  {
    hide Chosen, Ascending, Replace, StripSourceMap, UniqueSortedText;
    forall f, d | f in g && d in g[f].dependencies ensures d in g {
      assert f in sources;
      var code := StripSourceMap(sources[f]);
      UniqueSortedTextListing(Targets(resolve, f, code, sources.Keys, lex(code)));
    }
  }

  /**
    Building a program again under other file names, its specifiers adapted and its manifest in another
    order, gives the same canonical text, or the same fault, where no two different modules reach each
    other and entries the locale cannot order print alike.
   */
  lemma RebuiltSourcesPrintAlike(
    le: Locale, sha: Text -> Text, resolve: Resolver, lex: Lexer, rho: Renaming,
    m: Manifest, sources: map<Text, Text>, g: Graph, m': Manifest, sources': map<Text, Text>, g': Graph)
    requires TotalPreorder(le) && GraphOf(g, resolve, lex, sources) && GraphOf(g', resolve, lex, sources')
    requires forall f | f in sources :: Respecified(resolve, lex, rho, sources, sources', f)
    requires Rebuilt(m, m', rho) && Untangled(g) && KeepsApart(g, rho)
    requires forall f :: f in ModuleFiles(m) <==> f in sources
    requires forall f :: f in ModuleFiles(m') <==> f in sources'
    requires HashAll(g, sha, ModuleFiles(m), map[]).Some? ==> TiesPrintAlike(le, m, HashAll(g, sha, ModuleFiles(m), map[]).value)
    ensures var r, r' := HashAll(g, sha, ModuleFiles(m), map[]), HashAll(g', sha, ModuleFiles(m'), map[]);
            && r.Some? && r'.Some?
            && Outcome(Document(le, m', r'.value)) == Outcome(Document(le, m, r.value))
  {
    hide ModuleFiles, HashAll, Document, TiesPrintAlike, Rebuilt, Renamed, Untangled, KeepsApart, TotalPreorder, Respecified, Outcome;
    GraphOfClosed(g, resolve, lex, sources);
    RespecifiedRenames(resolve, lex, rho, sources, sources', g, g');
    SameKeys(ModuleFiles(m), g, sources);
    SameKeys(ModuleFiles(m'), g', sources');
    FingerprintIgnoresNamesAndOrder(le, sha, m, g, m', g', rho);
  }

  lemma SameKeys(files: seq<Text>, g: Graph, sources: map<Text, Text>)
    requires g.Keys == sources.Keys && forall f :: f in files <==> f in sources
    ensures forall f :: f in files <==> f in g
  {
    assert forall f :: f in g <==> f in g.Keys;
  }
}
