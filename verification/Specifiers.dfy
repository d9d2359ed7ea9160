/**
  Deno-style package specifiers: `npm:name@range/subpath` and `jsr:@scope/name@range/subpath`, the
  npm names jsr packages are installed under, and printing a request back as a specifier.
 */
module Specifiers {
  import opened Basics

  datatype Registry = Npm | Jsr

  datatype PackageRequest = PackageRequest(name: string, range: string, subpath: string, registry: Registry)

  datatype Parts = Parts(name: string, range: string, subpath: string)

  const LATEST := "latest"

  /** `s.indexOf(c)`, or -1. */
  function IndexOf(s: string, c: char): (i: int)
    ensures -1 <= i < |s|
    ensures i >= 0 ==> s[i] == c
    ensures forall k | 0 <= k < (if i < 0 then |s| else i) :: s[k] != c
  {
    if s == [] then -1
    else if s[0] == c then 0
    else
      var i := IndexOf(s[1..], c);
      assert forall k | 0 < k < |s| :: s[k] == s[1..][k - 1];
      if i < 0 then -1 else i + 1
  }

  predicate EndsName(c: char) { c == '@' || c == '/' }

  ghost predicate PlainName(s: string) { forall i | 0 <= i < |s| :: !EndsName(s[i]) }

  /** Where the name ends: the first `@` or `/` at or after `i`. */
  function NameEnd(rest: string, i: nat): (e: nat)
    requires i <= |rest|
    ensures i <= e <= |rest| && (e < |rest| ==> EndsName(rest[e]))
    ensures forall k | i <= k < e :: !EndsName(rest[k])
    decreases |rest| - i
  {
    if i == |rest| || EndsName(rest[i]) then i else NameEnd(rest, i + 1)
  }

  /** What follows the name: an optional `@range`, then the subpath. */
  function SplitTail(name: string, after: string): Parts {
    if after != [] && after[0] == '@' then
      var slash := IndexOf(after, '/');
      var range := if slash == -1 then after[1..] else after[1..slash];
      var path := if slash == -1 then "" else after[slash..];
      Parts(name, if range == "" then LATEST else range, if path == "/" then "" else path)
    else
      Parts(name, LATEST, if after == "/" then "" else after)
  }

  /** Where the search for the name's end starts: after a scope's slash; None for an empty scope. */
  function NameStart(rest: string): (i: Option<nat>)
    ensures i.Some? ==> i.value <= |rest|
  {
    if rest != [] && rest[0] == '@' then
      var slash := IndexOf(rest, '/');
      if slash <= 1 then None else Some(slash + 1)
    else Some(0)
  }

  function SplitPackage(rest: string): Option<Parts> {
    match NameStart(rest)
    case None => None
    case Some(i) =>
      var name := rest[..NameEnd(rest, i)];
      if name == "" || name[|name| - 1] == '/' then None
      else Some(SplitTail(name, rest[|name|..]))
  }

  /** The loop that looks for the name's end. */
  method ScanName(rest: string, i: nat) returns (nameEnd: nat)
    requires i <= |rest|
    ensures nameEnd == NameEnd(rest, i)
  {
    nameEnd := |rest|;
    var j := i;
    while j < |rest|
      invariant i <= j <= |rest| && nameEnd == |rest|
      invariant NameEnd(rest, i) == NameEnd(rest, j)
    {
      if rest[j] == '@' || rest[j] == '/' {
        nameEnd := j;
        break;
      }
      j := j + 1;
    }
  }

  /** `splitPackage`, with the scan for the name's end as a loop. */
  method SplitPackageScan(rest: string) returns (r: Option<Parts>)
    ensures r == SplitPackage(rest)
  {
    hide NameEnd, SplitTail;
    var i := 0;
    if rest != [] && rest[0] == '@' {
      var slash := IndexOf(rest, '/');
      if slash <= 1 {
        return None;
      }
      i := slash + 1;
    }
    var nameEnd := ScanName(rest, i);
    var name := rest[..nameEnd];
    if name == "" || name[|name| - 1] == '/' {
      return None;
    }
    var parts := TakeTail(name, rest[nameEnd..]);
    r := Some(parts);
  }

  /** The rest of `splitPackage`, which reassigns the range and what follows it. */
  method TakeTail(name: string, rest: string) returns (r: Parts)
    ensures r == SplitTail(name, rest)
  {
    hide IndexOf;
    var range, after := LATEST, rest;
    if after != [] && after[0] == '@' {
      var slash := IndexOf(after, '/');
      range := if slash == -1 then after[1..] else after[1..slash];
      after := if slash == -1 then "" else after[slash..];
      if range == "" {
        range := LATEST;
      }
    }
    r := Parts(name, range, if after == "/" then "" else after);
  }

  function StripPrefix(spec: string, prefix: string): string {
    var rest := if prefix <= spec then spec[|prefix|..] else spec;
    if rest != [] && rest[0] == '/' then rest[1..] else rest
  }

  function ParseNpm(spec: string): Option<PackageRequest> {
    match SplitPackage(StripPrefix(spec, "npm:"))
    case None => None
    case Some(p) => Some(PackageRequest(p.name, p.range, p.subpath, Npm))
  }

  /** The first two pieces of `name.slice(1).split("/")`. */
  function ScopeOf(name: string): string {
    var t := if name == [] then [] else name[1..];
    var slash := IndexOf(t, '/');
    if slash < 0 then t else t[..slash]
  }

  function PackageOf(name: string): string {
    var t := if name == [] then [] else name[1..];
    var slash := IndexOf(t, '/');
    if slash < 0 then ""
    else
      var u := t[slash + 1..];
      var next := IndexOf(u, '/');
      if next < 0 then u else u[..next]
  }

  const JSR_SCOPE := "@jsr/"
  const JOINER := "__"

  function JsrName(scope: string, pkg: string): string { JSR_SCOPE + scope + JOINER + pkg }

  function ParseJsr(spec: string): Option<PackageRequest> {
    match SplitPackage(StripPrefix(spec, "jsr:"))
    case None => None
    case Some(p) =>
      if p.name == [] || p.name[0] != '@' then None
      else if ScopeOf(p.name) == "" || PackageOf(p.name) == "" then None
      else Some(PackageRequest(JsrName(ScopeOf(p.name), PackageOf(p.name)), p.range, p.subpath, Jsr))
  }

  /** `packageKey` */
  function PackageKey(req: PackageRequest): string { req.name + "@" + req.range }

  // ---------------------------------------------------------------------------
  // Printing
  // ---------------------------------------------------------------------------

  /** The position of the first `__`, or -1. */
  function FirstJoiner(s: string): (k: int)
    ensures -1 <= k <= |s| - 2 || k == -1
    ensures k >= 0 ==> s[k] == '_' && s[k + 1] == '_'
    ensures k == 0 <==> |s| >= 2 && s[0] == '_' && s[1] == '_'
  {
    if |s| < 2 then -1
    else if s[0] == '_' && s[1] == '_' then 0
    else
      var k := FirstJoiner(s[1..]);
      if k < 0 then -1 else k + 1
  }

  /** `s.replace("__", "/")` */
  function ReplaceJoiner(s: string): string {
    var k := FirstJoiner(s);
    if k < 0 then s else s[..k] + "/" + s[k + 2..]
  }

  /**
    The specifier a request is reported as. A jsr package `@s/p` is installed as `@jsr/s__p`, and printing
    turns the first `__` back into the slash.
   */
  function PrintRequest(req: PackageRequest): string {
    match req.registry
    case Npm => "npm:" + req.name + "@" + req.range + req.subpath
    case Jsr => "jsr:@" + ReplaceJoiner(if |req.name| < 5 then "" else req.name[5..]) + "@" + req.range + req.subpath
  }

  // ---------------------------------------------------------------------------
  // Which parts parsing can give
  // ---------------------------------------------------------------------------

  ghost predicate ProperName(name: string) {
    && name != ""
    && (if name[0] == '@' then
          var slash := IndexOf(name, '/');
          1 < slash < |name| - 1 && PlainName(name[slash + 1..])
        else PlainName(name))
  }

  ghost predicate ProperRange(range: string) { range != "" && '/' !in range }

  ghost predicate ProperSubpath(subpath: string) { subpath == "" || (|subpath| > 1 && subpath[0] == '/') }

  ghost predicate Proper(p: Parts) {
    ProperName(p.name) && ProperRange(p.range) && ProperSubpath(p.subpath)
  }

  lemma IndexOfIs(s: string, c: char, i: nat)
    requires i < |s| && s[i] == c && forall k | 0 <= k < i :: s[k] != c
    ensures IndexOf(s, c) == i
  {
  }

  lemma IndexOfPrefix(a: string, b: string, c: char)
    requires IndexOf(a, c) >= 0
    ensures IndexOf(a + b, c) == IndexOf(a, c)
  {
    IndexOfIs(a + b, c, IndexOf(a, c));
  }

  lemma NameEndIs(rest: string, i: nat, e: nat)
    requires i <= e <= |rest| && (e < |rest| ==> EndsName(rest[e]))
    requires forall k | i <= k < e :: !EndsName(rest[k])
    ensures NameEnd(rest, i) == e
  {
  }

  lemma TailProper(name: string, after: string)
    requires after != [] ==> EndsName(after[0])
    ensures ProperRange(SplitTail(name, after).range) && ProperSubpath(SplitTail(name, after).subpath)
  {
  }

  /** Every parse has a non-empty proper name, a non-empty range without slashes and a real subpath. */
  lemma SplitProper(rest: string)
    requires SplitPackage(rest).Some?
    ensures Proper(SplitPackage(rest).value)
  {
    hide SplitTail, ProperRange, ProperSubpath;
    var i := NameStart(rest).value;
    var e := NameEnd(rest, i);
    var name := rest[..e];
    TailProper(name, rest[e..]);
    TailName(name, rest[e..]);
    if rest[0] == '@' {
      IndexOfIs(name, '/', i - 1);
    }
  }

  lemma TailName(name: string, after: string)
    ensures SplitTail(name, after).name == name
  {
  }

  lemma TailOf(name: string, range: string, subpath: string)
    requires ProperRange(range) && ProperSubpath(subpath)
    ensures SplitTail(name, "@" + range + subpath) == Parts(name, range, subpath)
  {
    var after := "@" + range + subpath;
    if subpath == "" {
      assert after == "@" + range;
      assert forall k | 0 < k < |after| :: after[k] == range[k - 1] && after[k] in range;
      assert after[1..] == range;
    } else {
      var n := 1 + |range|;
      assert forall k | 0 < k < n :: after[k] == range[k - 1] && after[k] in range;
      IndexOfIs(after, '/', n);
      assert after[1..n] == range && after[n..] == subpath;
    }
  }

  /** A proper name is found again in front of a range, of a subpath and of nothing. */
  lemma NameFound(name: string, after: string)
    requires ProperName(name) && (after != [] ==> EndsName(after[0]))
    ensures NameStart(name + after).Some? && NameEnd(name + after, NameStart(name + after).value) == |name|
    ensures name[|name| - 1] != '/'
  {
    var rest := name + after;
    var n := |name|;
    if name[0] == '@' {
      var slash := IndexOf(name, '/');
      IndexOfPrefix(name, after, '/');
      assert forall k | slash < k < n :: rest[k] == name[slash + 1..][k - slash - 1];
      NameEndIs(rest, slash + 1, n);
      assert !EndsName(name[slash + 1..][n - slash - 2]);
    } else {
      NameEndIs(rest, 0, n);
    }
  }

  /** Proper parts, printed, split into the same parts: splitting and printing are inverse. */
  lemma SplitOfPrint(p: Parts)
    requires Proper(p)
    ensures SplitPackage(p.name + "@" + p.range + p.subpath) == Some(p)
  {
    var after := "@" + p.range + p.subpath;
    assert p.name + "@" + p.range + p.subpath == p.name + after;
    NameFound(p.name, after);
    TailOf(p.name, p.range, p.subpath);
    hide SplitTail, ProperName, NameStart;
    assert (p.name + after)[..|p.name|] == p.name && (p.name + after)[|p.name|..] == after;
  }

  /** Without a range, or with an empty one, a package is taken at `latest`; a lone slash is no subpath. */
  lemma UnrangedIsLatest(name: string, path: string)
    requires ProperName(name) && (path == "" || path[0] == '/')
    ensures SplitPackage(name + path) == SplitPackage(name + ("@" + path))
         == Some(Parts(name, "latest", if path == "/" then "" else path))
  {
    hide SplitPackage, SplitTail, ProperName, IndexOf;
    EmptyTail(name, path);
    SplitAt(name, path);
    SplitAt(name, "@" + path);
  }

  lemma EmptyTail(name: string, path: string)
    requires path == "" || path[0] == '/'
    ensures SplitTail(name, path) == SplitTail(name, "@" + path) == Parts(name, "latest", if path == "/" then "" else path)
  {
    var after := "@" + path;
    assert after[1..] == path;
    if path == "" {
      assert IndexOf(after, '/') == -1;
    } else {
      IndexOfIs(after, '/', 1);
      assert after[1..1] == "";
    }
  }

  lemma SplitAt(name: string, after: string)
    requires ProperName(name) && (after != "" ==> EndsName(after[0]))
    ensures SplitPackage(name + after) == Some(SplitTail(name, after))
  {
    hide SplitTail;
    NameFound(name, after);
    assert (name + after)[..|name|] == name && (name + after)[|name|..] == after;
  }

  // ---------------------------------------------------------------------------
  // Round trips
  // ---------------------------------------------------------------------------

  /** Printing a parsed npm request and parsing it again gives the same request. */
  lemma NpmRoundTrip(spec: string)
    requires ParseNpm(spec).Some?
    ensures ParseNpm(PrintRequest(ParseNpm(spec).value)) == ParseNpm(spec)
  {
    hide SplitPackage, Proper;
    var req := ParseNpm(spec).value;
    var p := Parts(req.name, req.range, req.subpath);
    SplitProper(StripPrefix(spec, "npm:"));
    SplitOfPrint(p);
    ProperHead(p);
    StripPrinted("npm:", p.name + "@" + p.range + p.subpath);
    assert PrintRequest(req) == "npm:" + (p.name + "@" + p.range + p.subpath);
  }

  lemma ProperHead(p: Parts)
    requires Proper(p)
    ensures p.name != "" && p.name[0] != '/'
  {
  }

  lemma StripPrinted(prefix: string, rest: string)
    requires rest != "" && rest[0] != '/'
    ensures StripPrefix(prefix + rest, prefix) == rest
  {
    assert (prefix + rest)[|prefix|..] == rest;
  }

  /** The registry's prefix, and one slash after it, may be written or left out. */
  lemma PrefixIgnored(rest: string)
    requires rest != "" ==> rest[0] != '/'
    ensures ParseNpm("npm:" + rest) == ParseNpm("npm:" + ("/" + rest))
    ensures !("npm:" <= rest) ==> ParseNpm(rest) == ParseNpm("/" + rest) == ParseNpm("npm:" + rest)
    ensures ParseJsr("jsr:" + rest) == ParseJsr("jsr:" + ("/" + rest))
    ensures !("jsr:" <= rest) ==> ParseJsr(rest) == ParseJsr("/" + rest) == ParseJsr("jsr:" + rest)
  {
    hide SplitPackage, ScopeOf, PackageOf, StripPrefix;
    StrippedAlike("npm:", rest);
    StrippedAlike("jsr:", rest);
  }

  lemma StrippedAlike(prefix: string, rest: string)
    requires prefix != "" && prefix[0] != '/' && (rest != "" ==> rest[0] != '/')
    ensures StripPrefix(prefix + rest, prefix) == StripPrefix(prefix + ("/" + rest), prefix) == rest
    ensures !(prefix <= rest) ==> StripPrefix(rest, prefix) == StripPrefix("/" + rest, prefix) == rest
  {
    assert (prefix + rest)[|prefix|..] == rest && (prefix + ("/" + rest))[|prefix|..] == "/" + rest;
    assert ("/" + rest)[1..] == rest;
  }

  /** What can be checked on a jsr scope before printing: no leading joiner, no `@` after its first joiner. */
  predicate PrintableScope(scope: string) {
    var s := scope + JOINER;
    var k := FirstJoiner(s);
    k > 0 && '@' !in s[k + 2..]
  }

  lemma {:induction false} JoinerFound(scope: string, pkg: string)
    ensures FirstJoiner(scope + JOINER) >= 0
    ensures FirstJoiner(scope + JOINER + pkg) == FirstJoiner(scope + JOINER)
  {
    var s, t := scope + JOINER, scope + JOINER + pkg;
    if scope != "" && !(s[0] == '_' && s[1] == '_') {
      assert s[1..] == scope[1..] + JOINER && t[1..] == scope[1..] + JOINER + pkg;
      JoinerFound(scope[1..], pkg);
    }
  }

  lemma ScopedName(name: string)
    requires ProperName(name) && name[0] == '@'
    ensures var scope, pkg := ScopeOf(name), PackageOf(name);
            && name == "@" + scope + "/" + pkg && scope != "" && pkg != ""
            && '/' !in scope && PlainName(pkg)
  {
    var slash := IndexOf(name, '/');
    var t := name[1..];
    IndexOfIs(t, '/', slash - 1);
    var u := t[slash..];
    assert u == name[slash + 1..];
    assert IndexOf(u, '/') < 0;
    assert name == "@" + t[..slash - 1] + "/" + u;
  }

  lemma ScopedNameBack(scope: string, pkg: string)
    requires scope != "" && pkg != "" && '/' !in scope && PlainName(pkg)
    ensures var name := "@" + scope + "/" + pkg;
            ProperName(name) && ScopeOf(name) == scope && PackageOf(name) == pkg
  {
    var name := "@" + scope + "/" + pkg;
    var t := name[1..];
    assert t == scope + "/" + pkg;
    IndexOfIs(t, '/', |scope|);
    assert t[..|scope|] == scope;
    var u := t[|scope| + 1..];
    assert u == pkg;
    assert IndexOf(u, '/') < 0;
    IndexOfIs(name, '/', 1 + |scope|);
    assert name[2 + |scope|..] == pkg;
  }

  /** The scope a jsr request was parsed from. */
  function JsrScope(spec: string): string
    requires SplitPackage(StripPrefix(spec, "jsr:")).Some?
  {
    ScopeOf(SplitPackage(StripPrefix(spec, "jsr:")).value.name)
  }

  lemma PlainSuffix(s: string, pkg: string)
    requires '/' !in s && PlainName(pkg)
    ensures PlainName(s + JOINER + pkg) <==> '@' !in s
  {
    var t := s + JOINER + pkg;
    if '@' in s {
      var i :| 0 <= i < |s| && s[i] == '@';
      assert EndsName(t[i]);
    } else {
      forall i | 0 <= i < |t| ensures !EndsName(t[i]) {
        if i < |s| { assert t[i] == s[i] && s[i] in s; }
        else if i >= |s| + 2 { assert t[i] == pkg[i - |s| - 2]; }
      }
    }
  }

  lemma JsrNameIs(a: string, b: string)
    ensures JsrName(a, b) == JSR_SCOPE + (a + JOINER + b)
  {
  }

  /** Replacing the first joiner of an installed name gives a scope and package joined to the same name. */
  lemma ReplacedParts(scope: string, pkg: string, u: string, s: string)
    requires u == scope + JOINER && s == u + pkg
    ensures var k := FirstJoiner(u);
            && 0 <= k <= |scope|
            && ReplaceJoiner(s) == s[..k] + "/" + s[k + 2..]
            && JsrName(s[..k], s[k + 2..]) == JsrName(scope, pkg)
            && s[k + 2..] == u[k + 2..] + pkg
  {
    hide FirstJoiner, JsrName;
    var k := FirstJoiner(u);
    JoinerFound(scope, pkg);
    JsrNameIs(scope, pkg);
    JsrNameIs(s[..k], s[k + 2..]);
  }

  lemma PlainAppend(a: string, pkg: string)
    requires '/' !in a && PlainName(pkg)
    ensures PlainName(a + pkg) <==> '@' !in a
  {
    var t := a + pkg;
    if '@' in a {
      var i :| 0 <= i < |a| && a[i] == '@';
      assert EndsName(t[i]);
    } else {
      forall i | 0 <= i < |t| ensures !EndsName(t[i]) {
        if i < |a| { assert t[i] in a; } else { assert t[i] == pkg[i - |a|]; }
      }
    }
  }

  /** What parsing `jsr:@left/right@range` gives, for a slash-free left part. */
  lemma ParsePrinted(left: string, right: string, range: string, subpath: string)
    requires '/' !in left && right != "" && '/' !in right && ProperRange(range) && ProperSubpath(subpath)
    ensures left != "" && PlainName(right) ==>
              ParseJsr("jsr:" + ("@" + left + "/" + right + "@" + range + subpath))
              == Some(PackageRequest(JsrName(left, right), range, subpath, Jsr))
  {
    if left != "" && PlainName(right) {
      hide SplitPackage, Proper, ProperName, ScopeOf, PackageOf;
      var name := "@" + left + "/" + right;
      ScopedNameBack(left, right);
      var p := Parts(name, range, subpath);
      assert Proper(p) by { ProperParts(p); }
      SplitOfPrint(p);
      StripPrinted("jsr:", name + "@" + range + subpath);
    }
  }

  lemma ProperParts(p: Parts)
    requires ProperName(p.name) && ProperRange(p.range) && ProperSubpath(p.subpath)
    ensures Proper(p)
  {
  }

  /** An empty left part is no scope: nothing is parsed. */
  lemma ParseEmptyScope(right: string)
    ensures ParseJsr("jsr:" + ("@/" + right)).None?
  {
    var rest := "@/" + right;
    StripPrinted("jsr:", rest);
    IndexOfIs(rest, '/', 1);
  }

  lemma CutName(rest: string, left: string, right: string, j: nat)
    requires |rest| >= |left| + 2 + |right| && rest[0] == '@' && rest[|left| + 1] == '/'
    requires forall k | 0 <= k < |left| :: rest[k + 1] == left[k]
    requires forall k | 0 <= k < |right| :: rest[|left| + 2 + k] == right[k]
    requires forall k | 0 <= k < |left| :: left[k] != '/'
    requires forall k | 0 <= k < |right| :: right[k] != '/'
    requires left != "" && j < |right| && right[j] == '@' && '@' !in right[..j]
    ensures NameStart(rest) == Some(|left| + 2)
    ensures NameEnd(rest, |left| + 2) == |left| + 2 + j
  {
    var i := |left| + 2;
    assert forall k | 1 <= k < i - 1 :: rest[k] == left[k - 1];
    IndexOfIs(rest, '/', i - 1);
    forall k | i <= k < i + j ensures !EndsName(rest[k]) {
      assert rest[i + (k - i)] == right[k - i] == right[..j][k - i];
      assert right[..j][k - i] in right[..j];
    }
    assert rest[i + j] == right[j];
    NameEndIs(rest, i, i + j);
  }

  lemma CutPrefix(left: string, right: string, tail: string, j: nat)
    requires j <= |right|
    ensures ("@" + left + "/" + right + tail)[..|left| + 2 + j] == "@" + left + "/" + right[..j]
  {
  }

  lemma CutOf(left: string, right: string, tail: string, j: nat)
    requires left != "" && '/' !in left && '/' !in right && j < |right| && right[j] == '@' && '@' !in right[..j]
    ensures var rest := "@" + left + "/" + right + tail;
            && NameStart(rest) == Some(|left| + 2)
            && NameEnd(rest, |left| + 2) == |left| + 2 + j
            && rest[..|left| + 2 + j] == "@" + left + "/" + right[..j]
  {
    hide NameStart, NameEnd;
    var rest := "@" + left + "/" + right + tail;
    CutName(rest, left, right, j);
    CutPrefix(left, right, tail, j);
  }

  lemma FirstAt(right: string) returns (j: nat)
    requires '@' in right
    ensures j < |right| && right[j] == '@' && '@' !in right[..j]
  {
    var i :| 0 <= i < |right| && right[i] == '@';
    j := IndexOf(right, '@');
  }

  /** A right part with an `@` is cut there: whatever is parsed has a shorter name. */
  lemma ParseCut(left: string, right: string, tail: string)
    requires left != "" && '/' !in left && '/' !in right && '@' in right
    ensures var r := ParseJsr("jsr:" + ("@" + left + "/" + right + tail));
            r.Some? ==> |r.value.name| < |JsrName(left, right)|
  {
    var rest := "@" + left + "/" + right + tail;
    var j := FirstAt(right);
    CutOf(left, right, tail, j);
    hide NameStart, NameEnd, SplitTail, StripPrefix, ScopeOf, PackageOf, ParseJsr, JsrName;
    var name := "@" + left + "/" + right[..j];
    StripPrinted("jsr:", rest);
    CutScope(left, right, j);
    ParseCutAt(rest, name, left, right[..j], |left| + 2, |left| + 2 + j);
  }

  lemma CutScope(left: string, right: string, j: nat)
    requires left != "" && '/' !in left && '/' !in right && j < |right| && '@' !in right[..j]
    ensures right[..j] != "" ==>
              var name := "@" + left + "/" + right[..j];
              ScopeOf(name) == left && PackageOf(name) == right[..j]
  {
    hide ScopeOf, PackageOf;
    if j > 0 {
      ScopedNameBack(left, right[..j]);
    }
  }

  lemma ParseCutAt(rest: string, name: string, left: string, pkg: string, i: nat, e: nat)
    requires e <= |rest| && name == rest[..e] == "@" + left + "/" + pkg
    requires NameStart(rest) == Some(i) && NameEnd(rest, i) == e && StripPrefix("jsr:" + rest, "jsr:") == rest
    requires pkg != "" ==> ScopeOf(name) == left && PackageOf(name) == pkg
    ensures var r := ParseJsr("jsr:" + rest);
            r.Some? ==> r.value.name == JsrName(left, pkg)
  {
    hide NameStart, NameEnd, SplitTail, StripPrefix, ScopeOf, PackageOf, JsrName;
    TailName(name, rest[e..]);
    if pkg == "" { assert name[|name| - 1] == '/'; }
  }

  /**
    Printing a parsed jsr request and parsing it again gives the same request exactly when the scope
    does not start with the joiner that replaced its slash and has no `@` after its first joiner.
   */
  lemma JsrRoundTripIff(spec: string)
    requires ParseJsr(spec).Some?
    ensures ParseJsr(PrintRequest(ParseJsr(spec).value)) == ParseJsr(spec) <==> PrintableScope(JsrScope(spec))
  {
    hide SplitPackage, FirstJoiner, ScopeOf, PackageOf, IndexOf, StripPrefix;
    var p := SplitPackage(StripPrefix(spec, "jsr:")).value;
    SplitProper(StripPrefix(spec, "jsr:"));
    ScopedName(p.name);
    var scope, pkg := ScopeOf(p.name), PackageOf(p.name);
    var req := ParseJsr(spec).value;
    JsrRoundTripParts(scope, pkg, p.range, p.subpath);
  }

  lemma JsrRoundTripParts(scope: string, pkg: string, range: string, subpath: string)
    requires scope != "" && pkg != "" && '/' !in scope && PlainName(pkg) && ProperRange(range) && ProperSubpath(subpath)
    ensures var req := PackageRequest(JsrName(scope, pkg), range, subpath, Jsr);
            ParseJsr(PrintRequest(req)) == Some(req) <==> PrintableScope(scope)
  {
    hide FirstJoiner, ParseJsr, ProperRange, ProperSubpath, PlainName, PrintRequest, JsrName, ReplaceJoiner;
    var req := PackageRequest(JsrName(scope, pkg), range, subpath, Jsr);
    var s := scope + JOINER + pkg;
    var k := FirstJoiner(scope + JOINER);
    ReplacedParts(scope, pkg, scope + JOINER, s);
    var left, middle := s[..k], (scope + JOINER)[k + 2..];
    var right := s[k + 2..];
    Printed(scope, pkg, range, subpath, left, right);
    NoSlash(scope, middle, k, pkg);
    PlainAppend(middle, pkg);
    if k == 0 {
      ParseEmptyScope(right + "@" + range + subpath);
      EmptyLeft(left, right, range, subpath);
    } else if '@' in middle {
      ParseCut(left, right, "@" + range + subpath);
      TailAssociates("@" + left + "/" + right, "@", range, subpath);
    } else {
      ParsePrinted(left, right, range, subpath);
    }
  }

  lemma EmptyLeft(left: string, right: string, range: string, subpath: string)
    requires left == ""
    ensures "@" + left + "/" + right + "@" + range + subpath == "@/" + (right + "@" + range + subpath)
  {
  }

  lemma TailAssociates(a: string, b: string, c: string, d: string)
    ensures a + b + c + d == a + (b + c + d)
  {
  }

  lemma NoSlash(scope: string, middle: string, k: nat, pkg: string)
    requires '/' !in scope && PlainName(pkg) && k <= |scope| && middle == (scope + JOINER)[k + 2..]
    ensures '/' !in scope[..k] && '/' !in middle && '/' !in middle + pkg
  {
    assert forall i | 0 <= i < |pkg| :: !EndsName(pkg[i]);
    assert forall i | 0 <= i < |scope| :: scope[i] in scope;
  }

  lemma Printed(scope: string, pkg: string, range: string, subpath: string, left: string, right: string)
    requires ReplaceJoiner(scope + JOINER + pkg) == left + "/" + right
    ensures PrintRequest(PackageRequest(JsrName(scope, pkg), range, subpath, Jsr))
         == "jsr:" + ("@" + left + "/" + right + "@" + range + subpath)
  {
    hide ReplaceJoiner;
    assert JsrName(scope, pkg)[5..] == scope + JOINER + pkg;
    assert "jsr:@" + (left + "/" + right) + "@" + range + subpath
        == "jsr:" + ("@" + left + "/" + right + "@" + range + subpath);
  }

  // ---------------------------------------------------------------------------
  // Installation keys
  // ---------------------------------------------------------------------------

  /** The request comes from a specifier of either registry. */
  ghost predicate Parsed(req: PackageRequest) {
    exists spec :: ParseNpm(spec) == Some(req) || ParseJsr(spec) == Some(req)
  }

  /** A jsr name has no `@` after `@jsr/`, that is, in its scope. */
  predicate PlainScope(req: PackageRequest) {
    req.registry == Jsr ==> forall i | 5 <= i < |req.name| :: req.name[i] != '@'
  }

  lemma JsrNameParts(spec: string) returns (scope: string, pkg: string)
    requires ParseJsr(spec).Some?
    ensures ParseJsr(spec).value.name == JSR_SCOPE + (scope + JOINER + pkg)
    ensures scope != "" && pkg != "" && '/' !in scope && PlainName(pkg) && ProperRange(ParseJsr(spec).value.range)
  {
    hide SplitPackage, ProperRange, ProperSubpath;
    var p := SplitPackage(StripPrefix(spec, "jsr:")).value;
    SplitProper(StripPrefix(spec, "jsr:"));
    ScopedName(p.name);
    scope, pkg := ScopeOf(p.name), PackageOf(p.name);
    JsrNameIs(scope, pkg);
  }

  lemma JsrNameProperIff(name: string, scope: string, pkg: string)
    requires name == JSR_SCOPE + (scope + JOINER + pkg) && '/' !in scope && PlainName(pkg)
    ensures ProperName(name) <==> forall i | 5 <= i < |name| :: name[i] != '@'
  {
    var tail := scope + JOINER + pkg;
    IndexOfIs(name, '/', 4);
    assert name[5..] == tail;
    PlainSuffix(scope, pkg);
    assert forall i | 5 <= i < |name| :: name[i] == tail[i - 5];
    if '@' in scope {
      var i :| 0 <= i < |scope| && scope[i] == '@';
      assert name[5 + i] == '@';
    } else {
      forall i | 5 <= i < |name| ensures name[i] != '@' { assert !EndsName(tail[i - 5]); }
    }
  }

  lemma ParsedName(req: PackageRequest)
    requires Parsed(req)
    ensures ProperRange(req.range) && (ProperName(req.name) <==> PlainScope(req))
  {
    hide ProperName, ProperRange, ProperSubpath, SplitPackage, PlainName;
    var spec :| ParseNpm(spec) == Some(req) || ParseJsr(spec) == Some(req);
    if ParseNpm(spec) == Some(req) {
      SplitProper(StripPrefix(spec, "npm:"));
    } else {
      var scope, pkg := JsrNameParts(spec);
      JsrNameProperIff(req.name, scope, pkg);
    }
  }

  /** The key of a request splits into its name and range again if and only if its jsr scope has no `@`. */
  lemma KeyReadsBackIff(req: PackageRequest)
    requires Parsed(req)
    ensures SplitPackage(PackageKey(req)) == Some(Parts(req.name, req.range, "")) <==> PlainScope(req)
  {
    hide SplitPackage, Parsed, PlainScope;
    ParsedName(req);
    var key := PackageKey(req);
    assert key + "" == key;
    if ProperName(req.name) { SplitOfPrint(Parts(req.name, req.range, "")); }
    if SplitPackage(key) == Some(Parts(req.name, req.range, "")) { SplitProper(key); }
  }

  /** Two requests with the same installation key, of whichever registry, have the same name and range. */
  lemma PackageKeyInjective(a: PackageRequest, b: PackageRequest)
    requires Parsed(a) && Parsed(b) && PlainScope(a) && PlainScope(b)
    requires PackageKey(a) == PackageKey(b)
    ensures a.name == b.name && a.range == b.range
  {
    KeyReadsBackIff(a);
    KeyReadsBackIff(b);
  }

  /** `name` up to its first `@` in the scope is a scoped package of its own. */
  lemma CutKey(req: PackageRequest, i: nat)
    requires ProperRange(req.range) && 6 <= i < |req.name| && req.name[i] == '@' && JSR_SCOPE <= req.name
    requires forall k | 5 <= k < |req.name| :: req.name[k] != '/' && (k < i ==> req.name[k] != '@')
    ensures var b := PackageRequest(req.name[..i], req.name[i + 1..] + "@" + req.range, "", Npm);
            ParseNpm("npm:" + PackageKey(req)) == Some(b) && PackageKey(b) == PackageKey(req)
  {
    hide SplitPackage, StripPrefix;
    var name, range := req.name[..i], req.name[i + 1..] + "@" + req.range;
    IndexOfIs(name, '/', 4);
    forall k | 0 <= k < |name[5..]| ensures !EndsName(name[5..][k]) { assert name[5..][k] == req.name[5 + k]; }
    forall k | 0 <= k < |range| ensures range[k] != '/' {
      if k < |req.name| - i - 1 { assert range[k] == req.name[i + 1 + k]; }
      else if k >= |req.name| - i { assert range[k] == req.range[k - |req.name| + i] && range[k] in req.range; }
    }
    assert req.name == name + "@" + req.name[i + 1..];
    var key := PackageKey(req);
    assert key == name + "@" + range + "";
    SplitOfPrint(Parts(name, range, ""));
    StripPrinted("npm:", key);
  }

  /** `b` is a parsed request of another name with the same key. */
  ghost predicate Shares(req: PackageRequest, b: PackageRequest) {
    Parsed(b) && PackageKey(b) == PackageKey(req) && b.name != req.name
  }

  ghost predicate SharedWithNpm(req: PackageRequest) {
    exists b :: Shares(req, b) && b.registry == Npm
  }

  /** Some request with another name, of either registry, has the same key. */
  ghost predicate Shared(req: PackageRequest) {
    exists b :: Shares(req, b)
  }

  lemma JsrSpec(req: PackageRequest) returns (spec: string)
    requires Parsed(req) && req.registry == Jsr
    ensures ParseJsr(spec) == Some(req)
  {
    hide SplitPackage, ParseJsr;
    spec :| ParseNpm(spec) == Some(req) || ParseJsr(spec) == Some(req);
  }

  lemma ParsedJsrShape(req: PackageRequest)
    requires Parsed(req) && req.registry == Jsr
    ensures ProperRange(req.range) && |req.name| > 5 && JSR_SCOPE <= req.name
    ensures forall k | 5 <= k < |req.name| :: req.name[k] != '/'
  {
    hide ProperRange, ParseJsr, Parsed;
    var spec := JsrSpec(req);
    var scope, pkg := JsrNameParts(spec);
    JsrNameShape(req.name, scope, pkg);
  }

  lemma SharedIf(req: PackageRequest)
    requires Parsed(req) && req.registry == Jsr && |req.name| > 5 && !PlainScope(req) && req.name[5] != '@'
    ensures SharedWithNpm(req)
  {
    hide ProperRange, SplitPackage, ParseNpm, ParseJsr;
    ParsedJsrShape(req);
    var i := FirstScopeAt(req.name);
    CutKey(req, i);
    var b := PackageRequest(req.name[..i], req.name[i + 1..] + "@" + req.range, "", Npm);
    assert Parsed(b) && |b.name| == i;
    assert Shares(req, b);
  }

  lemma SharedOnlyIf(req: PackageRequest, b: PackageRequest)
    requires Parsed(req) && req.registry == Jsr && |req.name| > 5
    requires Shares(req, b) && b.registry == Npm
    ensures !PlainScope(req) && req.name[5] != '@'
  {
    hide ProperName, ProperRange, Parsed;
    if PlainScope(req) { PackageKeyInjective(req, b); }
    ParsedJsrShape(req);
    ParsedName(b);
    NotAtScope(b.name, b.range, PackageKey(req));
  }

  /**
    A jsr request shares its key with an npm request of another name if and only if its scope has an
    `@` that is not its first character; `jsr:@a@b/c` and `npm:@jsr/a@b__c@latest` are such a pair.
   */
  lemma SharedWithNpmIff(req: PackageRequest)
    requires Parsed(req) && req.registry == Jsr
    ensures |req.name| > 5
    ensures SharedWithNpm(req) <==> !PlainScope(req) && req.name[5] != '@'
  {
    hide Parsed, PlainScope, ProperRange, PackageKey;
    ParsedJsrShape(req);
    if !PlainScope(req) && req.name[5] != '@' { SharedIf(req); }
    if SharedWithNpm(req) {
      var b :| Shares(req, b) && b.registry == Npm;
      SharedOnlyIf(req, b);
    }
  }

  lemma UnrangedJsr(scope: string, pkg: string)
    requires scope != "" && pkg != "" && '/' !in scope && PlainName(pkg)
    ensures ParseJsr("jsr:" + ("@" + scope + "/" + pkg)) == Some(PackageRequest(JsrName(scope, pkg), LATEST, "", Jsr))
  {
    hide SplitPackage, ProperName, ScopeOf, PackageOf, JsrName, StripPrefix;
    var rest := "@" + scope + "/" + pkg;
    StripPrinted("jsr:", rest);
    ScopedNameBack(scope, pkg);
    UnrangedIsLatest(rest, "");
    assert rest + "" == rest;
  }

  /** So every scope with an `@` inside, in a specifier as short as `jsr:@a@b/c`, collides. */
  lemma AtScopeCollides(scope: string, pkg: string)
    requires scope != "" && pkg != "" && '/' !in scope && PlainName(pkg) && '@' in scope && scope[0] != '@'
    ensures var req := PackageRequest(JsrName(scope, pkg), LATEST, "", Jsr);
            ParseJsr("jsr:" + ("@" + scope + "/" + pkg)) == Some(req) && SharedWithNpm(req)
  {
    hide ParseJsr, ParseNpm, SharedWithNpm;
    UnrangedJsr(scope, pkg);
    var req := PackageRequest(JsrName(scope, pkg), LATEST, "", Jsr);
    assert Parsed(req);
    JsrNameIs(scope, pkg);
    SharedWithNpmIff(req);
    var i :| 0 <= i < |scope| && scope[i] == '@';
    assert req.name[5 + i] == '@' && req.name[5] == scope[0];
  }

  lemma JsrNameShape(name: string, scope: string, pkg: string)
    requires name == JSR_SCOPE + (scope + JOINER + pkg) && scope != "" && '/' !in scope && PlainName(pkg)
    ensures |name| > 5 && JSR_SCOPE <= name && forall k | 5 <= k < |name| :: name[k] != '/'
  {
    var tail := scope + JOINER + pkg;
    forall k | 5 <= k < |name| ensures name[k] != '/' {
      assert name[k] == tail[k - 5];
      if k - 5 < |scope| { assert tail[k - 5] == scope[k - 5] && scope[k - 5] in scope; }
      else if k - 5 >= |scope| + 2 { assert tail[k - 5] == pkg[k - 7 - |scope|] && !EndsName(pkg[k - 7 - |scope|]); }
    }
  }

  lemma FirstScopeAt(name: string) returns (i: nat)
    requires |name| > 5 && name[5] != '@' && exists k :: 5 <= k < |name| && name[k] == '@'
    ensures 6 <= i < |name| && name[i] == '@' && forall k | 5 <= k < i :: name[k] != '@'
  {
    i := 5;
    while i < |name| && name[i] != '@'
      invariant 5 <= i <= |name| && forall k | 5 <= k < i :: name[k] != '@'
    {
      i := i + 1;
    }
  }

  /** In front of a proper scoped name's package there is no `@`. */
  lemma NotAtScope(name: string, range: string, key: string)
    requires ProperName(name) && key == name + "@" + range && JSR_SCOPE <= key
    ensures |key| > 5 && key[5] != '@'
  {
    assert key[4] == '/' && forall k | 0 <= k < |name| :: name[k] == key[k];
    assert name[0] == key[0];
    var slash := IndexOf(name, '/');
    assert forall k | 0 <= k < 4 :: JSR_SCOPE[k] != '/' && key[k] == JSR_SCOPE[k];
    assert slash == 4;
    assert !EndsName(name[5..][0]);
  }

  // ---------------------------------------------------------------------------
  // Exactly which requests share their key
  // ---------------------------------------------------------------------------

  /** At `i` there is an `@`, and before it, from `from` on, a joiner and a non-empty name without `@`. */
  ghost predicate Packaged(s: string, from: nat, i: nat) {
    i < |s| && s[i] == '@' && exists j | from <= j :: JoinedUpTo(s, j, i)
  }

  /** At `j` there is a joiner, and then a non-empty name without `@` up to `i`. */
  ghost predicate JoinedUpTo(s: string, j: nat, i: nat) {
    j + 2 < i <= |s| && s[j] == '_' && s[j + 1] == '_' && '@' !in s[j + 2..i]
  }

  /** What follows `@jsr/` could end at an earlier `@`, as a package of npm or of jsr. */
  ghost predicate EndsEarlier(tail: string) {
    && tail != ""
    && ((tail[0] != '@' && '@' in tail) || exists i | 0 <= i < |tail| :: Packaged(tail, 1, i))
  }

  /** A range in which a jsr name could end. */
  ghost predicate EndsLater(range: string) {
    exists i | 0 <= i < |range| - 1 :: Packaged(range, 0, i)
  }

  lemma {:induction false} SlashFree(a: string, b: string)
    ensures '/' !in a + b <==> '/' !in a && '/' !in b
  {
  }

  lemma PackagePlain(s: string, from: nat, to: nat)
    requires from <= to <= |s| && '/' !in s && '@' !in s[from..to]
    ensures PlainName(s[from..to])
  {
    forall k | 0 <= k < to - from ensures !EndsName(s[from..to][k]) {
      assert s[from..to][k] == s[from + k] && s[from..to][k] in s[from..to];
    }
  }

  /** A slash-free text that can be cut into a jsr name and a range is the key of a jsr request. */
  lemma CutJsrKey(rest: string, i: nat) returns (b: PackageRequest)
    requires '/' !in rest && i < |rest| - 1 && Packaged(rest, 1, i)
    ensures Parsed(b) && PackageKey(b) == JSR_SCOPE + rest && |b.name| == 5 + i
  {
    hide ParseJsr, ParseNpm, ProperRange, ProperSubpath;
    var j: nat :| 1 <= j && JoinedUpTo(rest, j, i);
    var scope, pkg, range := rest[..j], rest[j + 2..i], rest[i + 1..];
    PackagePlain(rest, j + 2, i);
    CutRange(rest, i + 1);
    ParsePrinted(scope, pkg, range, "");
    b := PackageRequest(JsrName(scope, pkg), range, "", Jsr);
    assert rest == scope + JOINER + pkg + "@" + range;
    JsrNameIs(scope, pkg);
    KeyOfTail(scope + JOINER + pkg, range);
  }

  lemma CutRange(rest: string, i: nat)
    requires '/' !in rest && i < |rest|
    ensures ProperRange(rest[i..]) && ProperSubpath("")
  {
  }

  lemma KeyOfTail(tail: string, range: string)
    ensures JSR_SCOPE + tail + "@" + range == JSR_SCOPE + (tail + "@" + range)
  {
  }

  lemma PackagedShifts(tail: string, range: string, i: nat)
    requires i < |range| && Packaged(range, 0, i)
    ensures Packaged(tail + "@" + range, 1, |tail| + 1 + i)
  {
    var j: nat :| JoinedUpTo(range, j, i);
    JoinedShifts(tail, range, j, i);
    assert (tail + "@" + range)[|tail| + 1 + i] == range[i];
  }

  lemma JoinedShifts(tail: string, range: string, j: nat, i: nat)
    requires i <= |range|
    ensures JoinedUpTo(range, j, i) <==> JoinedUpTo(tail + "@" + range, |tail| + 1 + j, |tail| + 1 + i)
  {
    var s, n := tail + "@" + range, |tail| + 1;
    if j + 2 < i { assert s[n + j + 2..n + i] == range[j + 2..i]; }
  }

  lemma JoinedExtends(tail: string, more: string, j: nat, i: nat)
    requires i <= |tail|
    ensures JoinedUpTo(tail, j, i) <==> JoinedUpTo(tail + more, j, i)
  {
    if j + 2 < i { assert (tail + more)[j + 2..i] == tail[j + 2..i]; }
  }

  lemma PackagedExtends(tail: string, more: string, i: nat)
    requires i < |tail|
    ensures Packaged(tail, 1, i) <==> Packaged(tail + more, 1, i)
  {
    hide JoinedUpTo;
    forall j: nat ensures JoinedUpTo(tail, j, i) <==> JoinedUpTo(tail + more, j, i) {
      JoinedExtends(tail, more, j, i);
    }
  }

  lemma JoinedAfter(s: string, k: nat, j: nat, i: nat)
    requires JoinedUpTo(s, j, i) && k < i && s[k] == '@'
    ensures k < j
  {
    if j + 2 <= k { InSlice(s, j + 2, i, k); }
  }

  lemma InSlice(s: string, from: int, to: int, k: int)
    requires 0 <= from <= k < to <= |s|
    ensures s[k] in s[from..to]
  {
    assert s[from..to][k - from] == s[k];
  }

  /** Past the `@` in front of the range, a jsr name can only end within the range. */
  lemma PackagedPast(tail: string, range: string, i: nat)
    requires |tail| < i < |tail| + 1 + |range| && Packaged(tail + "@" + range, 1, i)
    ensures Packaged(range, 0, i - |tail| - 1)
  {
    var s, n := tail + "@" + range, |tail| + 1;
    var j: nat :| 1 <= j && JoinedUpTo(s, j, i);
    JoinedAfter(s, |tail|, j, i);
    JoinedShifts(tail, range, j - n, i - n);
    assert range[i - n] == s[i];
  }

  /** The shape of a parsed request whose key starts like a jsr name. */
  lemma ParsedTail(req: PackageRequest)
    requires Parsed(req)
    ensures ProperRange(req.range)
    ensures JSR_SCOPE <= req.name ==> |req.name| > 5 && '/' !in req.name[5..] && (req.registry == Npm ==> '@' !in req.name[5..])
    ensures JSR_SCOPE <= PackageKey(req) ==> JSR_SCOPE <= req.name
    ensures req.registry == Jsr ==> JSR_SCOPE <= req.name
  {
    hide ProperRange, ProperName;
    ParsedName(req);
    if req.registry == Jsr {
      ParsedJsrShape(req);
    } else {
      NpmTail(req.name, PackageKey(req), req.range);
    }
  }

  /** Within the scope there is no `@` for a name to end at. */
  lemma NotInScope(name: string, range: string)
    requires 0 < |name| < 5
    ensures !(JSR_SCOPE <= name + "@" + range)
  {
    assert (name + "@" + range)[|name|] == '@';
    assert forall k | 0 < k < 5 :: JSR_SCOPE[k] != '@';
  }

  lemma NpmTail(name: string, key: string, range: string)
    requires ProperName(name) && key == name + "@" + range
    ensures JSR_SCOPE <= key ==> JSR_SCOPE <= name
    ensures JSR_SCOPE <= name ==> |name| > 5 && '/' !in name[5..] && '@' !in name[5..]
  {
    if |name| < 5 { NotInScope(name, range); }
    if JSR_SCOPE <= key && |name| >= 5 { assert name[..5] == key[..5]; }
    if JSR_SCOPE <= name {
      IndexOfIs(name, '/', 4);
      forall k | 5 <= k < |name| ensures name[k] != '@' && name[k] != '/' { assert !EndsName(name[5..][k - 5]); }
    }
  }

  lemma TailOfName(req: PackageRequest)
    requires JSR_SCOPE <= req.name
    ensures req.name == JSR_SCOPE + req.name[5..]
    ensures PackageKey(req) == JSR_SCOPE + (req.name[5..] + "@" + req.range)
  {
    KeyOfTail(req.name[5..], req.range);
  }

  lemma SharedWhen(req: PackageRequest)
    requires Parsed(req) && JSR_SCOPE <= req.name && (EndsEarlier(req.name[5..]) || EndsLater(req.range))
    ensures Shared(req)
  {
    hide Parsed, Packaged, PackageKey;
    ParsedTail(req);
    TailOfName(req);
    var tail, rest := req.name[5..], req.name[5..] + "@" + req.range;
    SlashFree(tail + "@", req.range);
    SlashFree(tail, "@");
    if EndsLater(req.range) {
      var i :| 0 <= i < |req.range| - 1 && Packaged(req.range, 0, i);
      PackagedShifts(tail, req.range, i);
      var b := CutJsrKey(rest, |tail| + 1 + i);
      assert Shares(req, b);
    } else if tail[0] != '@' && '@' in tail {
      assert req.name[5] == tail[0];
      var k :| 0 <= k < |tail| && tail[k] == '@';
      assert req.name[5 + k] == '@';
      SharedWithNpmIff(req);
      var b :| Shares(req, b) && b.registry == Npm;
    } else {
      var i :| 0 <= i < |tail| && Packaged(tail, 1, i);
      PackagedExtends(tail, "@" + req.range, i);
      assert tail + ("@" + req.range) == rest;
      var b := CutJsrKey(rest, i);
      assert Shares(req, b);
    }
  }

  /** A parsed jsr request cuts its own key where it could be cut. */
  lemma JsrCuts(b: PackageRequest)
    requires Parsed(b) && b.registry == Jsr
    ensures JSR_SCOPE <= b.name && |b.name| > 5 && Packaged(b.name[5..] + "@" + b.range, 1, |b.name| - 5)
  {
    hide ParseJsr, ProperRange, PlainName, Packaged, Parsed;
    ParsedTail(b);
    var spec := JsrSpec(b);
    var scope, pkg := JsrNameParts(spec);
    PackagedParts(b.name, scope, pkg, b.range);
  }

  lemma PackagedParts(name: string, scope: string, pkg: string, range: string)
    requires name == JSR_SCOPE + (scope + JOINER + pkg) && scope != "" && pkg != "" && PlainName(pkg)
    ensures Packaged(name[5..] + "@" + range, 1, |name| - 5)
  {
    hide PlainName;
    var tail, j := scope + JOINER + pkg, |scope|;
    assert name[5..] == tail;
    var s := tail + "@" + range;
    assert s[|tail|] == '@' && s[j + 2..|tail|] == pkg && s[j] == JOINER[0] && s[j + 1] == JOINER[1];
    PlainHasNoAt(pkg);
    assert JoinedUpTo(s, j, |tail|);
  }

  lemma PlainHasNoAt(pkg: string)
    requires PlainName(pkg)
    ensures '@' !in pkg
  {
    assert forall k | 0 <= k < |pkg| :: !EndsName(pkg[k]);
  }

  lemma SharedOnlyWhen(req: PackageRequest, b: PackageRequest)
    requires Parsed(req) && Shares(req, b)
    ensures JSR_SCOPE <= req.name && (EndsEarlier(req.name[5..]) || EndsLater(req.range))
  {
    hide Parsed, Packaged, PackageKey;
    ParsedTail(req);
    ParsedTail(b);
    if b.registry == Npm {
      if req.registry == Npm { PackageKeyInjective(req, b); }
      TailOfName(req);
      SharedOnlyIf(req, b);
      var k :| 5 <= k < |req.name| && req.name[k] == '@';
      assert req.name[5..][k - 5] == '@' && req.name[5..][0] == req.name[5];
    } else {
      JsrCuts(b);
      TailOfName(b);
      assert JSR_SCOPE <= PackageKey(req);
      TailOfName(req);
      SharedByJsr(req, b);
    }
  }

  lemma SameHead(a: string, b: string, x: string, y: string)
    requires a + "@" + x == b + "@" + y && |a| == |b|
    ensures a == b
  {
    assert a == (a + "@" + x)[..|a|];
  }

  lemma SameAfter(a: string, b: string)
    requires JSR_SCOPE <= a && JSR_SCOPE <= b && a[5..] == b[5..]
    ensures a == b
  {
    assert a == JSR_SCOPE + a[5..] && b == JSR_SCOPE + b[5..];
  }

  lemma SharedByJsr(req: PackageRequest, b: PackageRequest)
    requires JSR_SCOPE <= req.name && JSR_SCOPE <= b.name && |req.name| > 5 && |b.name| > 5 && b.name != req.name && b.range != ""
    requires JSR_SCOPE + (req.name[5..] + "@" + req.range) == JSR_SCOPE + (b.name[5..] + "@" + b.range)
    requires Packaged(b.name[5..] + "@" + b.range, 1, |b.name| - 5)
    ensures EndsEarlier(req.name[5..]) || EndsLater(req.range)
  {
    hide Packaged;
    var t, u, i := req.name[5..], b.name[5..], |b.name| - 5;
    var rest := t + "@" + req.range;
    assert rest == (JSR_SCOPE + rest)[5..];
    assert u + "@" + b.range == (JSR_SCOPE + (u + "@" + b.range))[5..];
    assert rest == u + "@" + b.range;
    if i == |t| {
      SameHead(t, u, req.range, b.range);
      SameAfter(req.name, b.name);
    } else if i < |t| {
      PackagedExtends(t, "@" + req.range, i);
      assert t + ("@" + req.range) == rest;
    } else {
      PackagedPast(t, req.range, i);
      assert |rest| == |t| + 1 + |req.range| == i + 1 + |b.range|;
    }
  }

  /**
    A request shares its key with a parsed request of another name, of either registry, if and only if
    its name is in the `@jsr` scope and what follows could end earlier, at an `@` of its jsr scope, or
    later, at an `@` of its range. Both requests can be of jsr: `jsr:@@x/y@1__z@2` and `jsr:@@x__y@1/z@2`
    do, though no npm request has their key.
   */
  lemma SharedKeyIff(req: PackageRequest)
    requires Parsed(req)
    ensures Shared(req) <==> JSR_SCOPE <= req.name && (EndsEarlier(req.name[5..]) || EndsLater(req.range))
  {
    hide Parsed, Shares, EndsEarlier, EndsLater;
    if Shared(req) {
      var b :| Shares(req, b);
      SharedOnlyWhen(req, b);
    }
    if JSR_SCOPE <= req.name && (EndsEarlier(req.name[5..]) || EndsLater(req.range)) {
      SharedWhen(req);
    }
  }

  /** Two jsr requests with one key, for any scope, packages, range and text before the joiner. */
  lemma JsrPairShares(scope: string, p: string, r: string, q: string, x: string)
    requires scope != "" && p != "" && q != "" && '/' !in scope && '/' !in r
    requires PlainName(p) && PlainName(q) && ProperRange(x)
    ensures var range, longer := r + JOINER + q + "@" + x, scope + JOINER + p + "@" + r;
            var a, b := PackageRequest(JsrName(scope, p), range, "", Jsr), PackageRequest(JsrName(longer, q), x, "", Jsr);
            && ParseJsr("jsr:" + ("@" + scope + "/" + p + "@" + range)) == Some(a)
            && ParseJsr("jsr:" + ("@" + longer + "/" + q + "@" + x)) == Some(b)
            && Shares(a, b)
  {
    hide ParseJsr, ParseNpm, PlainName, JsrName;
    var range, longer := r + JOINER + q + "@" + x, scope + JOINER + p + "@" + r;
    PlainHasNoSlash(p);
    PlainHasNoSlash(q);
    JoinedFree(r, q);
    SlashFree(r + JOINER + q, "@");
    RangeFree(r + JOINER + q + "@", x);
    JoinedFree(scope, p);
    SlashFree(scope + JOINER + p, "@");
    SlashFree(scope + JOINER + p + "@", r);
    ParsedUnpathed(scope, p, range);
    ParsedUnpathed(longer, q, x);
    JsrNameIs(scope, p);
    JsrNameIs(longer, q);
    var a, b := PackageRequest(JsrName(scope, p), range, "", Jsr), PackageRequest(JsrName(longer, q), x, "", Jsr);
    SameText(scope + JOINER + p, r, q, x);
    assert |b.name| > |a.name|;
    assert Parsed(b);
  }

  lemma ParsedUnpathed(left: string, right: string, range: string)
    requires left != "" && right != "" && '/' !in left && '/' !in right && PlainName(right) && ProperRange(range)
    ensures ParseJsr("jsr:" + ("@" + left + "/" + right + "@" + range)) == Some(PackageRequest(JsrName(left, right), range, "", Jsr))
  {
    hide ParseJsr, PlainName, JsrName;
    ParsePrinted(left, right, range, "");
    assert "@" + left + "/" + right + "@" + range + "" == "@" + left + "/" + right + "@" + range;
  }

  lemma JoinedFree(a: string, b: string)
    requires '/' !in a && '/' !in b
    ensures '/' !in a + JOINER + b
  {
    SlashFree(a, JOINER);
    SlashFree(a + JOINER, b);
  }

  lemma RangeFree(a: string, x: string)
    requires '/' !in a && ProperRange(x)
    ensures ProperRange(a + x)
  {
    SlashFree(a, x);
  }

  lemma PlainHasNoSlash(pkg: string)
    requires PlainName(pkg)
    ensures '/' !in pkg
  {
    assert forall k | 0 <= k < |pkg| :: !EndsName(pkg[k]);
  }

  lemma SameText(a: string, r: string, q: string, x: string)
    ensures JSR_SCOPE + a + "@" + (r + JOINER + q + "@" + x) == JSR_SCOPE + (a + "@" + r + JOINER + q) + "@" + x
  {
  }
}
