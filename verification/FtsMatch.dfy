/**
  Turning free-form search input into a full-text MATCH expression that means exactly the input's
  terms. The character classes are parameters: `isSpace` is the class of `\s` and of `trim`,
  `usable` tells whether a term has a letter or digit.
 */
module FtsMatch {
  import opened Basics
  import opened Readers

  /** One search term; `prefix` when the user wrote a trailing star. */
  datatype Term = Term(text: string, prefix: bool)

  datatype Classes = Classes(isSpace: char -> bool, usable: string -> bool)

  // ---------------------------------------------------------------------------
  // The terms an input asks for
  // ---------------------------------------------------------------------------

  function SkipSpaces(c: Classes, s: string): (r: string)
    ensures |r| <= |s|
    ensures r != [] ==> !c.isSpace(r[0])
  {
    if s != [] && c.isSpace(s[0]) then SkipSpaces(c, s[1..]) else s
  }

  /** The longest run of non-space characters at the start. */
  function Word(c: Classes, s: string): (w: string)
    ensures |w| <= |s| && s[..|w|] == w
    ensures forall i | 0 <= i < |w| :: !c.isSpace(w[i])
    ensures s != [] && !c.isSpace(s[0]) ==> w != []
  {
    if s == [] || c.isSpace(s[0]) then [] else [s[0]] + Word(c, s[1..])
  }

  /** The maximal runs of non-space characters. */
  function Words(c: Classes, input: string): seq<string>
    decreases |input|
  {
    var s := SkipSpaces(c, input);
    if s == [] then []
    else
      var w := Word(c, s);
      [w] + Words(c, s[|w|..])
  }

  function TermOf(word: string): Term {
    if word != [] && word[|word| - 1] == '*' then Term(word[..|word| - 1], true) else Term(word, false)
  }

  /** A trailing star asks for a prefix and is not part of the term; a word without one is its own term. */
  lemma TermOfIs(word: string)
    ensures TermOf(word + "*") == Term(word, true)
    ensures word == "" || word[|word| - 1] != '*' ==> TermOf(word) == Term(word, false)
  {
    assert (word + "*")[..|word|] == word;
  }

  /** The usable terms: those with a letter or digit besides the trailing star. */
  function Usable(c: Classes, words: seq<string>): seq<Term> {
    if words == [] then []
    else (if c.usable(TermOf(words[0]).text) then [TermOf(words[0])] else []) + Usable(c, words[1..])
  }

  // ---------------------------------------------------------------------------
  // Building
  // ---------------------------------------------------------------------------

  /** `input.split(/\s+/)`: the first and last pieces may be empty. */
  function Split(c: Classes, input: string): seq<string>
    decreases |input|
  {
    var w := Word(c, input);
    if |w| == |input| then [w] else [w] + Split(c, SkipSpaces(c, input[|w| + 1..]))
  }

  function TrimEnd(c: Classes, s: string): string {
    if s != [] && c.isSpace(s[|s| - 1]) then TrimEnd(c, s[..|s| - 1]) else s
  }

  function Trim(c: Classes, s: string): string {
    TrimEnd(c, SkipSpaces(c, s))
  }

  function DoubleQuotes(s: string): string {
    if s == [] then [] else (if s[0] == '"' then ['"', '"'] else [s[0]]) + DoubleQuotes(s[1..])
  }

  function Render(t: Term): string {
    ['"'] + DoubleQuotes(t.text) + ['"'] + (if t.prefix then ['*'] else [])
  }

  function Join(parts: seq<string>): string {
    if parts == [] then []
    else if |parts| == 1 then parts[0]
    else parts[0] + [' '] + Join(parts[1..])
  }

  function RenderAll(ts: seq<Term>): (r: seq<string>)
    ensures |r| == |ts|
  {
    if ts == [] then [] else [Render(ts[0])] + RenderAll(ts[1..])
  }

  /** The usable terms of pieces that may be empty. */
  function UsableOf(c: Classes, pieces: seq<string>): seq<Term> {
    if pieces == [] then []
    else (if pieces[0] == [] then [] else Usable(c, [pieces[0]])) + UsableOf(c, pieces[1..])
  }

  lemma {:induction false} UsableSplit(c: Classes, pieces: seq<string>, i: nat)
    requires i < |pieces|
    ensures UsableOf(c, pieces[..i + 1])
         == UsableOf(c, pieces[..i]) + (if pieces[i] == [] then [] else Usable(c, [pieces[i]]))
  {
    if i == 0 {
      assert pieces[..1] == [pieces[0]] && pieces[..1][1..] == [];
      assert pieces[..0] == [];
    } else {
      UsableSplit(c, pieces[1..], i - 1);
      assert pieces[..i + 1][1..] == pieces[1..][..i];
      assert pieces[..i][1..] == pieces[1..][..i - 1];
    }
  }

  lemma {:induction false} RenderAppend(a: seq<Term>, b: seq<Term>)
    ensures RenderAll(a + b) == RenderAll(a) + RenderAll(b)
  {
    if a == [] {
      assert a + b == b;
    } else {
      assert (a + b)[1..] == a[1..] + b;
      RenderAppend(a[1..], b);
    }
  }

  /** Every piece is free of spaces. */
  lemma {:induction false} SplitPieces(c: Classes, input: string)
    ensures forall i, j | 0 <= i < |Split(c, input)| && 0 <= j < |Split(c, input)[i]| :: !c.isSpace(Split(c, input)[i][j])
    decreases |input|
  {
    var w := Word(c, input);
    if |w| < |input| {
      SplitPieces(c, SkipSpaces(c, input[|w| + 1..]));
    }
  }

  lemma UsableOne(c: Classes, word: string)
    ensures Usable(c, [word]) == if c.usable(TermOf(word).text) then [TermOf(word)] else []
  {
    assert [word][1..] == [];
  }

  // ---------------------------------------------------------------------------
  // Reading a MATCH expression
  // ---------------------------------------------------------------------------

  /** The rest of a quoted string: a doubled quote stands for one quote, a single one ends it. */
  function ReadQuoted(t: string): (r: Reading<char, string>)
    ensures r.Done? ==> |r.rest| < |t|
    decreases |t|
  {
    if t == [] then Fail
    else if t[0] != '"' then
      match ReadQuoted(t[1..]) case Fail => Fail case Done(s, rest) => Done([t[0]] + s, rest)
    else if |t| > 1 && t[1] == '"' then
      match ReadQuoted(t[2..]) case Fail => Fail case Done(s, rest) => Done(['"'] + s, rest)
    else Done([], t[1..])
  }

  function ReadTerm(t: string): (r: Reading<char, Term>)
    ensures r.Done? ==> |r.rest| < |t|
  {
    if t == [] || t[0] != '"' then Fail
    else
      match ReadQuoted(t[1..])
      case Fail => Fail
      case Done(s, rest) =>
        if rest != [] && rest[0] == '*' then Done(Term(s, true), rest[1..]) else Done(Term(s, false), rest)
  }

  /** Quoted terms separated by single spaces. */
  function ReadMatch(t: string): Option<seq<Term>>
    decreases |t|
  {
    match ReadTerm(t)
    case Fail => None
    case Done(x, rest) =>
      if rest == [] then Some([x])
      else if rest[0] != ' ' then None
      else
        match ReadMatch(rest[1..])
        case None => None
        case Some(xs) => Some([x] + xs)
  }

  lemma {:induction false} ReadDoubled(s: string, rest: string)
    requires rest != [] ==> rest[0] != '"'
    ensures ReadQuoted(DoubleQuotes(s) + ['"'] + rest) == Done(s, rest)
  {
    var t := DoubleQuotes(s) + ['"'] + rest;
    if s == [] {
      assert t == ['"'] + rest;
      assert t[1..] == rest;
    } else {
      var tail := DoubleQuotes(s[1..]) + ['"'] + rest;
      ReadDoubled(s[1..], rest);
      assert s == [s[0]] + s[1..];
      if s[0] == '"' {
        assert t == ['"', '"'] + tail;
        assert t[2..] == tail;
      } else {
        assert t == [s[0]] + tail;
        assert t[1..] == tail;
      }
    }
  }

  lemma RenderedTail(x: Term, rest: string)
    ensures var after := (if x.prefix then ['*'] else []) + rest;
            Render(x) + rest == ['"'] + (DoubleQuotes(x.text) + ['"'] + after)
  {
    hide DoubleQuotes;
  }

  lemma ReadRendered(x: Term, rest: string)
    requires rest != [] ==> rest[0] == ' '
    ensures ReadTerm(Render(x) + rest) == Done(x, rest)
  {
    hide DoubleQuotes, ReadQuoted, Render;
    var after := (if x.prefix then ['*'] else []) + rest;
    var body := DoubleQuotes(x.text) + ['"'] + after;
    RenderedTail(x, rest);
    assert (['"'] + body)[1..] == body;
    ReadDoubled(x.text, after);
    assert x.prefix ==> after[1..] == rest;
    assert !x.prefix ==> after == rest;
  }

  lemma {:induction false} ReadJoined(ts: seq<Term>)
    requires ts != []
    ensures ReadMatch(Join(RenderAll(ts))) == Some(ts)
  {
    hide ReadTerm, Render;
    if |ts| == 1 {
      assert RenderAll(ts[1..]) == [];
      ReadRendered(ts[0], []);
      assert Render(ts[0]) + [] == Render(ts[0]);
      assert Join(RenderAll(ts)) == Render(ts[0]);
      assert ts == [ts[0]];
    } else {
      var tail := [' '] + Join(RenderAll(ts[1..]));
      assert RenderAll(ts)[1..] == RenderAll(ts[1..]);
      assert Join(RenderAll(ts)) == Render(ts[0]) + tail;
      ReadRendered(ts[0], tail);
      assert tail[1..] == Join(RenderAll(ts[1..]));
      ReadJoined(ts[1..]);
      assert ts == [ts[0]] + ts[1..];
    }
  }

  // ---------------------------------------------------------------------------
  // The pieces are the words
  // ---------------------------------------------------------------------------

  lemma {:induction false} WordsOfWord(c: Classes, s: string)
    requires s != [] && !c.isSpace(s[0])
    ensures Words(c, s) == [Word(c, s)] + Words(c, s[|Word(c, s)|..])
  {
    assert SkipSpaces(c, s) == s;
  }

  lemma {:induction false} WordsSkip(c: Classes, s: string)
    ensures Words(c, SkipSpaces(c, s)) == Words(c, s)
  {
    var t := SkipSpaces(c, s);
    assert SkipSpaces(c, t) == t;
  }

  lemma WordEnds(c: Classes, s: string)
    ensures |Word(c, s)| < |s| ==> c.isSpace(s[|Word(c, s)|])
  {
  }

  lemma {:induction false} UsableCons(c: Classes, w: string, ws: seq<string>)
    ensures Usable(c, [w] + ws) == Usable(c, [w]) + Usable(c, ws)
  {
    assert ([w] + ws)[1..] == ws && [w][1..] == [];
  }

  /** The last piece of an input: the word it consists of, if any. */
  lemma LastPiece(c: Classes, input: string)
    requires |Word(c, input)| == |input|
    ensures UsableOf(c, Split(c, input)) == Usable(c, Words(c, input))
  {
    assert Word(c, input) == input;
    assert [input][1..] == [];
    if input != [] {
      WordsOfWord(c, input);
      assert input[|input|..] == [];
      assert Words(c, []) == [];
    }
  }

  /** A first piece: the word before the first space, if any. */
  lemma FirstPiece(c: Classes, input: string, rest: string)
    requires |Word(c, input)| < |input| && rest == SkipSpaces(c, input[|Word(c, input)| + 1..])
    ensures UsableOf(c, Split(c, input)) == (if Word(c, input) == [] then [] else Usable(c, [Word(c, input)])) + UsableOf(c, Split(c, rest))
  {
    hide Usable, Words, SkipSpaces;
    var w := Word(c, input);
    FirstSplit(c, input);
    assert [w] + Split(c, rest) != [] && ([w] + Split(c, rest))[0] == w;
    assert ([w] + Split(c, rest))[1..] == Split(c, rest);
  }

  lemma FirstSplit(c: Classes, input: string)
    requires |Word(c, input)| < |input|
    ensures Split(c, input) == [Word(c, input)] + Split(c, SkipSpaces(c, input[|Word(c, input)| + 1..]))
  {
    hide Word, SkipSpaces;
  }

  lemma FirstWord(c: Classes, input: string, rest: string)
    requires |Word(c, input)| < |input| && rest == SkipSpaces(c, input[|Word(c, input)| + 1..])
    ensures Usable(c, Words(c, input)) == (if Word(c, input) == [] then [] else Usable(c, [Word(c, input)])) + Usable(c, Words(c, rest))
  {
    hide Usable, Words;
    var w := Word(c, input);
    WordEnds(c, input);
    assert input[|w|..][1..] == input[|w| + 1..];
    assert SkipSpaces(c, input[|w|..]) == rest;
    WordsSkip(c, input[|w|..]);
    if w == [] {
      assert input[|w|..] == input;
    } else {
      WordsOfWord(c, input);
      UsableCons(c, w, Words(c, input[|w|..]));
    }
  }

  /** Whatever the spacing, the terms rendered are the kept words of the input, in order. */
  lemma {:induction false} SplitIsWords(c: Classes, input: string)
    ensures UsableOf(c, Split(c, input)) == Usable(c, Words(c, input))
    decreases |input|
  {
    hide Usable, UsableOf, Words, Split;
    if |Word(c, input)| == |input| {
      LastPiece(c, input);
    } else {
      var rest := SkipSpaces(c, input[|Word(c, input)| + 1..]);
      SplitIsWords(c, rest);
      FirstPiece(c, input, rest);
      FirstWord(c, input, rest);
    }
  }

  /**
    For every input: no expression exactly when no term is usable, and otherwise the expression,
    read by the quoted-string grammar, is exactly the usable terms with their prefix flags in order.
   */
  method BuildFtsMatch(c: Classes, input: string) returns (match_: Option<string>)
    ensures match_.None? <==> Usable(c, Words(c, input)) == []
    ensures match_.Some? ==> ReadMatch(match_.value) == Some(Usable(c, Words(c, input)))
  {
    var parts: seq<string> := [];
    var pieces := Split(c, input);
    SplitPieces(c, input);
    for i := 0 to |pieces|
      invariant parts == RenderAll(UsableOf(c, pieces[..i]))
    {
      UsableSplit(c, pieces, i);
      var term := Trim(c, pieces[i]);
      if term != [] {
        var prefix := false;
        if term[|term| - 1] == '*' {
          prefix := true;
          term := term[..|term| - 1];
        }
        assert Term(term, prefix) == TermOf(pieces[i]);
        UsableOne(c, pieces[i]);
        if c.usable(term) {
          RenderAppend(UsableOf(c, pieces[..i]), [Term(term, prefix)]);
          term := DoubleQuotes(term);
          parts := parts + [['"'] + term + ['"'] + (if prefix then ['*'] else [])];
        } else {
          assert UsableOf(c, pieces[..i]) + [] == UsableOf(c, pieces[..i]);
        }
      } else {
        assert UsableOf(c, pieces[..i]) + [] == UsableOf(c, pieces[..i]);
      }
    }
    assert pieces[..|pieces|] == pieces;
    SplitIsWords(c, input);
    if |parts| > 0 { ReadJoined(Usable(c, Words(c, input))); }
    match_ := if |parts| > 0 then Some(Join(parts)) else None;
  }
}
