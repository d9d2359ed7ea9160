/**
  The two import rewriters that accumulate from the first site to the last: `replaceAtImportSites`
  of the compat plugin and `absolutizeImports` of the remote module cache.
 */
module Rewrite {
  import opened Basics
  import opened JsText
  import opened Json
  import opened Splice
  import opened Readers

  /** One entry of es-module-lexer: text span, dynamic or static, and the specifier if it is a literal. */
  datatype ImportSite = ImportSite(start: nat, end: nat, dynamic: bool, name: Option<Text>)

  /** The sites `pick` gives a text for, as patches, in lexer order. */
  function Chosen(imports: seq<ImportSite>, pick: ImportSite -> Option<Text>): seq<Patch<Unit>> {
    if imports == [] then []
    else
      (match pick(imports[0])
       case None => []
       case Some(t) => [Patch(imports[0].start, imports[0].end, t)])
      + Chosen(imports[1..], pick)
  }

  lemma ChosenStep(imports: seq<ImportSite>, i: nat, pick: ImportSite -> Option<Text>)
    requires i < |imports|
    ensures pick(imports[i]).None? ==> Chosen(imports[i..], pick) == Chosen(imports[i + 1..], pick)
    ensures pick(imports[i]).Some? ==>
              Chosen(imports[i..], pick) ==
              [Patch(imports[i].start, imports[i].end, pick(imports[i]).value)] + Chosen(imports[i + 1..], pick)
  {
    assert imports[i..][1..] == imports[i + 1..];
  }

  /** The text `replaceAtImportSites` puts at a site: escaped, and quoted where the span includes the quotes. */
  function PluginText(replacements: map<Text, Text>, site: ImportSite): Option<Text> {
    if site.name.Some? && site.name.value in replacements then
      var to := replacements[site.name.value];
      Some(if site.dynamic then Quote(to) else EscapeInQuotes(to))
    else None
  }

  function PluginPick(replacements: map<Text, Text>): ImportSite -> Option<Text> {
    (site: ImportSite) => PluginText(replacements, site)
  }

  predicate PathLike(spec: Text) {
    || Ascii("./") <= spec
    || Ascii("../") <= spec
    || Ascii("/") <= spec
  }

  function RemoteText(absolute: Text -> Text, site: ImportSite): Option<Text> {
    if site.name.Some? && site.name.value != [] && PathLike(site.name.value) then
      var abs := absolute(site.name.value);
      Some(if site.dynamic then Quote(abs) else abs)
    else None
  }

  function RemotePick(absolute: Text -> Text): ImportSite -> Option<Text> {
    (site: ImportSite) => RemoteText(absolute, site)
  }

  /** `replaceAtImportSites`; `imports` is None when the lexer cannot parse the source. */
  method ReplaceAtImportSites(code: Text, imports: Option<seq<ImportSite>>, replacements: map<Text, Text>)
    returns (r: Option<Text>)
    requires imports.Some? ==> Ascending(Chosen(imports.value, PluginPick(replacements)), 0, |code|)
    ensures imports.None? ==> r.None?
    ensures imports.Some? ==> r == Some(Replace(code, Chosen(imports.value, PluginPick(replacements))))
  {
    if imports.None? { return None; }
    var sites := imports.value;
    ghost var pick := PluginPick(replacements);
    ghost var all := Chosen(sites, pick);
    var out: Text := [];
    var last: nat := 0;
    AccumulateStart(code, all);
    for i := 0 to |sites|
      invariant Accumulated(code, all, Chosen(sites[i..], pick), out, last)
    {
      var imp := sites[i];
      ChosenStep(sites, i, pick);
      if imp.name.Some? && imp.name.value in replacements {
        var to := replacements[imp.name.value];
        AccumulateStep(code, all, Chosen(sites[i..], pick), out, last);
        out := out + (code[last..imp.start] + (if imp.dynamic then Quote(to) else EscapeInQuotes(to)));
        last := imp.end;
      }
    }
    AccumulateEnd(code, all, out, last);
    r := Some(out + code[last..]);
  }

  /** `absolutizeImports`; `absolute(spec)` is `new URL(spec, base).href`. */
  method AbsolutizeImports(code: Text, imports: seq<ImportSite>, absolute: Text -> Text) returns (r: Text)
    requires Ascending(Chosen(imports, RemotePick(absolute)), 0, |code|)
    ensures r == Replace(code, Chosen(imports, RemotePick(absolute)))
  {
    ghost var pick := RemotePick(absolute);
    ghost var all := Chosen(imports, pick);
    var out: Text := [];
    var last: nat := 0;
    AccumulateStart(code, all);
    for i := 0 to |imports|
      invariant Accumulated(code, all, Chosen(imports[i..], pick), out, last)
    {
      var imp := imports[i];
      ChosenStep(imports, i, pick);
      if imp.name.Some? && imp.name.value != [] && PathLike(imp.name.value) {
        var abs := absolute(imp.name.value);
        AccumulateStep(code, all, Chosen(imports[i..], pick), out, last);
        out := out + (code[last..imp.start] + (if imp.dynamic then Quote(abs) else abs));
        last := imp.end;
      }
    }
    AccumulateEnd(code, all, out, last);
    r := out + code[last..];
  }

  // ---------------------------------------------------------------------------
  // Escaping for use between existing quotes
  // ---------------------------------------------------------------------------

  const APOSTROPHE: Unit := '\'' as int

  function EscapeApostrophes(t: Text): Text {
    if t == [] then []
    else (if t[0] == APOSTROPHE then [BACKSLASH, APOSTROPHE] else [t[0]]) + EscapeApostrophes(t[1..])
  }

  /** `JSON.stringify(s).slice(1, -1).replaceAll("'", "\\'")` */
  function EscapeInQuotes(s: Text): Text {
    EscapeApostrophes(Quote(s)[1..|Quote(s)| - 1])
  }

  const LINE_FEED: Unit := 10
  const CARRIAGE_RETURN: Unit := 13

  /**
    One character of a JavaScript string literal, but for its closing quote: anything verbatim except
    a line end, an escaped apostrophe, or one of the escapes `JSON.stringify` writes.
   */
  function ReadJsUnit(t: Text): (r: Reading<Unit, Unit>)
    ensures r.Done? ==> |r.rest| < |t|
  {
    if t == [] || t[0] == LINE_FEED || t[0] == CARRIAGE_RETURN then Fail
    else if t[0] != BACKSLASH then Done(t[0], t[1..])
    else if |t| > 1 && t[1] == APOSTROPHE then Done(APOSTROPHE, t[2..])
    else ReadUnit(t)
  }

  lemma JsUnitReads(t: Text)
    requires ReadUnit(t).Done? && (t[0] == BACKSLASH ==> |t| > 1 && t[1] != APOSTROPHE)
    ensures ReadJsUnit(t) == ReadUnit(t)
  {
  }

  /** The rest of a JavaScript string literal opened with the quote `q`. */
  function ReadJsString(q: Unit, t: Text): (r: Reading<Unit, Text>)
    ensures r.Done? ==> |r.rest| < |t|
    decreases |t|
  {
    if t != [] && t[0] == q then Done([], t[1..])
    else
      match ReadJsUnit(t)
      case Fail => Fail
      case Done(u, rest) =>
        match ReadJsString(q, rest)
        case Fail => Fail
        case Done(s, rest') => Done([u] + s, rest')
  }

  lemma {:induction false} EscapeApostrophesAppend(a: Text, b: Text)
    ensures EscapeApostrophes(a + b) == EscapeApostrophes(a) + EscapeApostrophes(b)
  {
    if a == [] {
      assert a + b == b;
    } else {
      assert (a + b)[1..] == a[1..] + b;
      EscapeApostrophesAppend(a[1..], b);
    }
  }

  lemma {:induction false} NoApostrophes(t: Text)
    requires APOSTROPHE !in t
    ensures EscapeApostrophes(t) == t
  {
    if t != [] { NoApostrophes(t[1..]); }
  }

  lemma EscapedUnitPlain(u: Unit)
    requires u != APOSTROPHE
    ensures APOSTROPHE !in EscapeUnit(u)
  {
  }

  predicate IsQuoteMark(q: Unit) { q == QUOTE || q == APOSTROPHE }

  lemma ReadJsCons(q: Unit, e: Text, u: Unit, tail: Text, s: Text, rest: Text)
    requires e != [] && e[0] != q
    requires ReadJsUnit(e + tail) == Done(u, tail) && ReadJsString(q, tail) == Done(s, rest)
    ensures ReadJsString(q, e + tail) == Done([u] + s, rest)
  {
    hide ReadJsUnit;
    assert (e + tail)[0] == e[0];
  }

  /** A unit as `escapeInQuotes` writes it. */
  function EscapedForm(u: Unit): Text {
    EscapeApostrophes(EscapeUnit(u))
  }

  lemma ReadJsEscaped(u: Unit, tail: Text)
    ensures ReadJsUnit(EscapedForm(u) + tail) == Done(u, tail)
    ensures EscapedForm(u) != [] && !IsQuoteMark(EscapedForm(u)[0])
  {
    var e := EscapeUnit(u);
    if u == APOSTROPHE {
      assert EscapeApostrophes([APOSTROPHE]) == [BACKSLASH, APOSTROPHE];
      assert ([BACKSLASH, APOSTROPHE] + tail)[2..] == tail;
    } else {
      EscapedUnitPlain(u);
      NoApostrophes(e);
      ReadEscaped(u, tail);
      EscapedHead(u);
      hide EscapeApostrophes, EscapeUnit, ReadUnit, ReadJsUnit;
      assert (e + tail)[0] == e[0];
      assert |e| > 1 ==> (e + tail)[1] == e[1];
      JsUnitReads(e + tail);
    }
  }

  lemma ReadJsSurrogate(u: Unit, tail: Text)
    requires IsHigh(u) || IsLow(u)
    ensures ReadJsUnit([u] + tail) == Done(u, tail)
  {
    assert ([u] + tail)[1..] == tail;
  }

  lemma EscapedHead(u: Unit)
    requires u != APOSTROPHE
    ensures EscapeUnit(u) != [] && !IsQuoteMark(EscapeUnit(u)[0])
    ensures EscapeUnit(u)[0] == BACKSLASH ==> |EscapeUnit(u)| > 1 && EscapeUnit(u)[1] != APOSTROPHE
  {
  }

  /** The specifier `escapeInQuotes` writes between quotes, of either kind, reads back as the target. */
  lemma EscapedReadsBack(q: Unit, s: Text, rest: Text)
    requires IsQuoteMark(q)
    ensures ReadJsString(q, EscapeInQuotes(s) + [q] + rest) == Done(s, rest)
  {
    assert Quote(s)[1..|Quote(s)| - 1] == QuoteBody(s);
    EscapedBodyReadsBack(q, s, rest);
  }

  lemma ReadJsEmpty(q: Unit, rest: Text)
    ensures ReadJsString(q, EscapeApostrophes(QuoteBody([])) + [q] + rest) == Done([], rest)
  {
    var t := EscapeApostrophes(QuoteBody([])) + [q] + rest;
    assert t == [q] + rest;
    assert t[1..] == rest;
  }

  lemma EscapedBodySplit(s: Text)
    requires s != []
    ensures var body := EscapeApostrophes(QuoteBody(s));
            body == if StartsWithPair(s) then [s[0]] + ([s[1]] + EscapeApostrophes(QuoteBody(s[2..])))
                    else EscapedForm(s[0]) + EscapeApostrophes(QuoteBody(s[1..]))
  {
    hide EscapeApostrophes, QuoteBody, EscapeUnit;
    QuoteBodyStep(s);
    if StartsWithPair(s) {
      EscapeApostrophesAppend(s[..2], QuoteBody(s[2..]));
      PairStays(s);
      var body := EscapeApostrophes(QuoteBody(s[2..]));
      assert s[..2] + body == [s[0]] + ([s[1]] + body);
    } else {
      EscapeApostrophesAppend(EscapeUnit(s[0]), QuoteBody(s[1..]));
    }
  }

  lemma QuoteBodyStep(s: Text)
    requires s != []
    ensures QuoteBody(s) == if StartsWithPair(s) then s[..2] + QuoteBody(s[2..]) else EscapeUnit(s[0]) + QuoteBody(s[1..])
  {
    hide EscapeUnit;
  }

  lemma PairStays(s: Text)
    requires StartsWithPair(s)
    ensures EscapeApostrophes(s[..2]) == s[..2]
  {
    NoApostrophes(s[..2]);
  }

  lemma {:induction false} EscapedBodyReadsBack(q: Unit, s: Text, rest: Text)
    requires IsQuoteMark(q)
    ensures ReadJsString(q, EscapeApostrophes(QuoteBody(s)) + [q] + rest) == Done(s, rest)
  {
    hide ReadJsString, ReadJsUnit, EscapeApostrophes, EscapedForm, QuoteBody;
    if s == [] {
      ReadJsEmpty(q, rest);
    } else {
      EscapedBodySplit(s);
      if StartsWithPair(s) {
        var body := EscapeApostrophes(QuoteBody(s[2..]));
        EscapedBodyReadsBack(q, s[2..], rest);
        ReadJsPair(q, s[0], s[1], body, s[2..], rest);
        assert s == [s[0]] + ([s[1]] + s[2..]);
      } else {
        var body := EscapeApostrophes(QuoteBody(s[1..]));
        EscapedBodyReadsBack(q, s[1..], rest);
        ReadJsOne(q, s[0], body, s[1..], rest);
        assert s == [s[0]] + s[1..];
      }
    }
  }

  lemma ReadJsPair(q: Unit, high: Unit, low: Unit, body: Text, s: Text, rest: Text)
    requires IsQuoteMark(q) && IsHigh(high) && IsLow(low) && ReadJsString(q, body + [q] + rest) == Done(s, rest)
    ensures ReadJsString(q, [high] + ([low] + body) + [q] + rest) == Done([high] + ([low] + s), rest)
  {
    hide ReadJsString, ReadJsUnit;
    var tail := body + [q] + rest;
    ReadJsSurrogate(low, tail);
    ReadJsCons(q, [low], low, tail, s, rest);
    ReadJsSurrogate(high, [low] + tail);
    ReadJsCons(q, [high], high, [low] + tail, [low] + s, rest);
    assert [high] + ([low] + body) + [q] + rest == [high] + ([low] + tail);
  }

  lemma ReadJsOne(q: Unit, u: Unit, body: Text, s: Text, rest: Text)
    requires IsQuoteMark(q) && ReadJsString(q, body + [q] + rest) == Done(s, rest)
    ensures ReadJsString(q, EscapedForm(u) + body + [q] + rest) == Done([u] + s, rest)
  {
    hide ReadJsString, ReadJsUnit, EscapedForm;
    var tail := body + [q] + rest;
    ReadJsEscaped(u, tail);
    ReadJsCons(q, EscapedForm(u), u, tail, s, rest);
    assert EscapedForm(u) + body + [q] + rest == EscapedForm(u) + tail;
  }

  // ---------------------------------------------------------------------------
  // Splicing without escaping
  // ---------------------------------------------------------------------------

  /** Nothing in the text ends a literal with this quote or starts an escape. */
  predicate Verbatim(q: Unit, s: Text) {
    forall i | 0 <= i < |s| :: s[i] != q && s[i] != '\\' as int && s[i] != 10 && s[i] != 13
  }

  /** Every character read takes at least one from the literal, and an escape takes more. */
  lemma UnitCost(t: Text)
    requires ReadJsUnit(t).Done?
    ensures t != [] && |ReadJsUnit(t).rest| < |t|
    ensures |ReadJsUnit(t).rest| == |t| - 1 ==>
              && ReadJsUnit(t) == Done(t[0], t[1..])
              && t[0] != BACKSLASH && t[0] != LINE_FEED && t[0] != CARRIAGE_RETURN
  {
  }

  /** A literal read is at least as long as what it says, and no longer only if it says it verbatim. */
  lemma {:induction false} LiteralCost(q: Unit, t: Text)
    requires ReadJsString(q, t).Done?
    ensures var r := ReadJsString(q, t);
            && |t| - |r.rest| >= |r.value| + 1
            && (|t| - |r.rest| == |r.value| + 1 ==> Verbatim(q, r.value))
    decreases |t|
  {
    hide ReadJsUnit;
    if t != [] && t[0] != q {
      UnitCost(t);
      LiteralCost(q, ReadJsUnit(t).rest);
    } else if t == [] {
      NoUnit();
    }
  }

  lemma NoUnit()
    ensures ReadJsUnit([]).Fail?
  {
  }

  lemma {:induction false} VerbatimReads(q: Unit, s: Text, rest: Text)
    requires Verbatim(q, s)
    ensures ReadJsString(q, s + [q] + rest) == Done(s, rest)
  {
    var t := s + [q] + rest;
    if s == [] {
      assert t[1..] == rest;
    } else {
      VerbatimReads(q, s[1..], rest);
      assert t[1..] == s[1..] + [q] + rest;
      assert s == [s[0]] + s[1..];
    }
  }

  /**
    A text spliced between existing quotes as it is, which is what `absolutizeImports` does with the
    absolute URL of a static import, reads back if and only if it has neither that quote nor a
    backslash nor a line end. A URL may well have an apostrophe.
   */
  lemma SplicedReadsBackIff(q: Unit, s: Text, rest: Text)
    ensures ReadJsString(q, s + [q] + rest) == Done(s, rest) <==> Verbatim(q, s)
  {
    if Verbatim(q, s) { VerbatimReads(q, s, rest); }
    if ReadJsString(q, s + [q] + rest) == Done(s, rest) { LiteralCost(q, s + [q] + rest); }
  }

  // ---------------------------------------------------------------------------
  // What the rewritten sources say
  // ---------------------------------------------------------------------------

  /** An import specifier: the text at its site, and what the lexer makes of it. */
  datatype Specifier = Specifier(text: Text, dynamic: bool, name: Option<Text>)

  ghost function TextsOf(specs: seq<Specifier>): (ts: seq<Text>)
    ensures |ts| == |specs| && forall i | 0 <= i < |specs| :: ts[i] == specs[i].text
  {
    if specs == [] then [] else [specs[0].text] + TextsOf(specs[1..])
  }

  /** The import sites of the woven source, from `from` on. */
  ghost function SitesOf(gs: seq<Text>, specs: seq<Specifier>, from: nat): (sites: seq<ImportSite>)
    requires |gs| == |specs| + 1
    ensures |sites| == |specs|
  {
    if specs == [] then []
    else
      var start := from + |gs[0]|;
      var end := start + |specs[0].text|;
      [ImportSite(start, end, specs[0].dynamic, specs[0].name)] + SitesOf(gs[1..], specs[1..], end)
  }

  /** What a choice that looks at kind and name alone puts at the sites. */
  ghost function TextsAt(specs: seq<Specifier>, pick: ImportSite -> Option<Text>): (ts: seq<Option<Text>>)
    ensures |ts| == |specs|
    ensures forall i | 0 <= i < |specs| :: ts[i] == pick(ImportSite(0, 0, specs[i].dynamic, specs[i].name))
  {
    if specs == [] then []
    else [pick(ImportSite(0, 0, specs[0].dynamic, specs[0].name))] + TextsAt(specs[1..], pick)
  }

  ghost predicate Placeless(pick: ImportSite -> Option<Text>) {
    forall site: ImportSite :: pick(site) == pick(ImportSite(0, 0, site.dynamic, site.name))
  }

  lemma {:induction false} ChosenSites(gs: seq<Text>, specs: seq<Specifier>, from: nat, pick: ImportSite -> Option<Text>)
    requires |gs| == |specs| + 1 && Placeless(pick)
    ensures Chosen(SitesOf(gs, specs, from), pick) == SitesIn(gs, TextsOf(specs), TextsAt(specs, pick), from)
  {
    if specs != [] {
      var start := from + |gs[0]|;
      var end := start + |specs[0].text|;
      ChosenSites(gs[1..], specs[1..], end, pick);
      assert SitesOf(gs, specs, from)[1..] == SitesOf(gs[1..], specs[1..], end);
      assert TextsOf(specs)[1..] == TextsOf(specs[1..]);
      assert TextsAt(specs, pick)[1..] == TextsAt(specs[1..], pick);
    }
  }

  /** Path-like specifiers start with a slash, or with one or two dots and a slash. */
  ghost predicate Relative(spec: Text) {
    || (|spec| > 0 && spec[0] == '/' as int)
    || (|spec| > 1 && spec[0] == '.' as int && spec[1] == '/' as int)
    || (|spec| > 2 && spec[0] == '.' as int && spec[1] == '.' as int && spec[2] == '/' as int)
  }

  lemma PathLikeIff(spec: Text)
    ensures PathLike(spec) <==> Relative(spec)
  {
    assert |Ascii("./")| == 2 && Ascii("./")[0] == '.' as int && Ascii("./")[1] == '/' as int;
    assert |Ascii("../")| == 3 && Ascii("../")[0] == '.' as int && Ascii("../")[1] == '.' as int && Ascii("../")[2] == '/' as int;
    assert |Ascii("/")| == 1 && Ascii("/")[0] == '/' as int;
    Starts(Ascii("./"), spec);
    Starts(Ascii("../"), spec);
    Starts(Ascii("/"), spec);
  }

  lemma Starts(a: Text, b: Text)
    ensures a <= b <==> |a| <= |b| && forall i | 0 <= i < |a| :: a[i] == b[i]
  {
  }

  /**
    In a module written as gaps and specifiers the gaps stay, path-like literal specifiers become their
    absolute form, as a string literal at dynamic sites, and the others stay.
   */
  lemma AbsolutizedIs(code: Text, gs: seq<Text>, specs: seq<Specifier>, absolute: Text -> Text) returns (texts: seq<Text>)
    requires |gs| == |specs| + 1 && code == Weave(gs, TextsOf(specs))
    requires forall i | 0 <= i < |specs| && specs[i].name.Some? && Relative(specs[i].name.value) :: specs[i].text != []
    ensures Ascending(Chosen(SitesOf(gs, specs, 0), RemotePick(absolute)), 0, |code|)
    ensures |texts| == |specs| && Replace(code, Chosen(SitesOf(gs, specs, 0), RemotePick(absolute))) == Weave(gs, texts)
    ensures forall i | 0 <= i < |specs| ::
              texts[i] ==
              if specs[i].name.Some? && Relative(specs[i].name.value) then
                if specs[i].dynamic then Quote(absolute(specs[i].name.value)) else absolute(specs[i].name.value)
              else specs[i].text
  {
    hide PathLike, Relative, Weave, SitesIn, SitesOf, Chosen, Ascending, Replace, Quote;
    var pick := RemotePick(absolute);
    var ts := TextsAt(specs, pick);
    texts := Filled(TextsOf(specs), ts);
    assert Placeless(pick);
    ChosenSites(gs, specs, 0, pick);
    forall i | 0 <= i < |specs|
      ensures ts[i].Some? <==> specs[i].name.Some? && Relative(specs[i].name.value)
    {
      if specs[i].name.Some? {
        PathLikeIff(specs[i].name.value);
        EmptyIsNotRelative();
      }
    }
    WovenWhole(code, gs, TextsOf(specs), ts);
  }

  lemma EmptyIsNotRelative()
    ensures !Relative([])
  {
  }

  /** Likewise each literal specifier that has a replacement becomes it, escaped between the quotes it is written in. */
  lemma ReplacedIs(code: Text, gs: seq<Text>, specs: seq<Specifier>, replacements: map<Text, Text>) returns (texts: seq<Text>)
    requires |gs| == |specs| + 1 && code == Weave(gs, TextsOf(specs))
    requires forall i | 0 <= i < |specs| && specs[i].name.Some? && specs[i].name.value in replacements :: specs[i].text != []
    ensures Ascending(Chosen(SitesOf(gs, specs, 0), PluginPick(replacements)), 0, |code|)
    ensures |texts| == |specs| && Replace(code, Chosen(SitesOf(gs, specs, 0), PluginPick(replacements))) == Weave(gs, texts)
    ensures forall i | 0 <= i < |specs| ::
              texts[i] ==
              if specs[i].name.Some? && specs[i].name.value in replacements then
                if specs[i].dynamic then Quote(replacements[specs[i].name.value])
                else EscapeInQuotes(replacements[specs[i].name.value])
              else specs[i].text
  {
    hide Weave, SitesIn, SitesOf, Chosen, Ascending, Replace, Quote, EscapeInQuotes;
    var pick := PluginPick(replacements);
    var ts := TextsAt(specs, pick);
    texts := Filled(TextsOf(specs), ts);
    assert Placeless(pick);
    ChosenSites(gs, specs, 0, pick);
    WovenWhole(code, gs, TextsOf(specs), ts);
  }
}
