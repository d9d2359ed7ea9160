/**
  Canonical JSON, the byte form an envelope's signature covers, and a parser for its grammar
  (RFC 8259, sections 4, 5 and 7).
 */
module Json {
  import opened Basics
  import opened Sorting
  import opened JsText
  import opened Readers

  /** What JavaScript hands to `canonicalJson`: members in insertion order, undefined ones present. */
  datatype Value =
    | Undefined
    | Null
    | Boolean(b: bool)
    | Number(n: int)
    | NonFinite
    | String(s: Text)
    | Array(items: seq<Value>)
    | Object(members: seq<Member>)
    | Unsupported

  datatype Member = Member(key: Text, value: Value)

  datatype Error = NonFiniteNumber | UnsupportedType

  datatype Result = Success(text: Text) | Failure(error: Error)

  const QUOTE: Unit := '"' as int
  const BACKSLASH: Unit := '\\' as int
  const COMMA: Unit := ',' as int
  const COLON: Unit := ':' as int
  const OPEN_BRACKET: Unit := '[' as int
  const CLOSE_BRACKET: Unit := ']' as int
  const OPEN_BRACE: Unit := '{' as int
  const CLOSE_BRACE: Unit := '}' as int
  const MINUS: Unit := '-' as int
  const ZERO: Unit := '0' as int
  const LOWER_U: Unit := 'u' as int

  const NULL: Text := ['n' as int, 'u' as int, 'l' as int, 'l' as int]
  const TRUE: Text := ['t' as int, 'r' as int, 'u' as int, 'e' as int]
  const FALSE: Text := ['f' as int, 'a' as int, 'l' as int, 's' as int, 'e' as int]

  // ---------------------------------------------------------------------------
  // String literals, as JSON.stringify writes them
  // ---------------------------------------------------------------------------

  predicate IsHigh(u: Unit) { 0xD800 <= u < 0xDC00 }

  predicate IsLow(u: Unit) { 0xDC00 <= u < 0xE000 }

  function HexDigit(n: nat): Unit
    requires n < 16
  {
    if n < 10 then '0' as int + n else 'a' as int + (n - 10)
  }

  function HexEscape(u: Unit): Text {
    [BACKSLASH, LOWER_U, HexDigit(u / 4096), HexDigit(u / 256 % 16), HexDigit(u / 16 % 16), HexDigit(u % 16)]
  }

  /** The letter of a two-unit escape, or 0 when the unit has none. */
  function ShortEscape(u: Unit): Unit {
    if u == QUOTE || u == BACKSLASH then u
    else if u == 8 then 'b' as int
    else if u == 12 then 'f' as int
    else if u == 10 then 'n' as int
    else if u == 13 then 'r' as int
    else if u == 9 then 't' as int
    else 0
  }

  /** One unit that is not part of a surrogate pair. Lone surrogates are escaped. */
  function EscapeUnit(u: Unit): Text {
    if ShortEscape(u) != 0 then [BACKSLASH, ShortEscape(u)]
    else if u < 0x20 || IsHigh(u) || IsLow(u) then HexEscape(u)
    else [u]
  }

  predicate StartsWithPair(s: Text) {
    |s| > 1 && IsHigh(s[0]) && IsLow(s[1])
  }

  function QuoteBody(s: Text): Text {
    if s == [] then []
    else if StartsWithPair(s) then s[..2] + QuoteBody(s[2..])
    else EscapeUnit(s[0]) + QuoteBody(s[1..])
  }

  /** `JSON.stringify` of a string. */
  function Quote(s: Text): Text {
    [QUOTE] + QuoteBody(s) + [QUOTE]
  }

  // ---------------------------------------------------------------------------
  // Numbers
  // ---------------------------------------------------------------------------

  function ShowNat(n: nat): Text {
    if n < 10 then [ZERO + n] else ShowNat(n / 10) + [ZERO + n % 10]
  }

  function ShowInt(n: int): Text {
    if n < 0 then [MINUS] + ShowNat(-n) else ShowNat(n)
  }

  // ---------------------------------------------------------------------------
  // Normal form and printing
  // ---------------------------------------------------------------------------

  function KeysOf(ms: seq<Member>): (ks: seq<Text>)
    ensures |ks| == |ms|
    ensures forall i | 0 <= i < |ms| :: ks[i] == ms[i].key
  {
    if ms == [] then [] else [ms[0].key] + KeysOf(ms[1..])
  }

  /** `obj[k]` on own members. */
  function Lookup(ms: seq<Member>, k: Text): (v: Value)
    ensures v != Undefined ==> Member(k, v) in ms
  {
    if ms == [] then Undefined
    else if ms[0].key == k then ms[0].value
    else Lookup(ms[1..], k)
  }

  /** The members of `ms` at the keys `ks`, in the order of `ks`, without undefined ones. */
  function Pick(ks: seq<Text>, ms: seq<Member>): seq<Member> {
    if ks == [] then []
    else
      var v := Lookup(ms, ks[0]);
      (if v == Undefined then [] else [Member(ks[0], v)]) + Pick(ks[1..], ms)
  }

  /** The value with the members of every object sorted by key and undefined members gone. */
  function Normalize(v: Value): Value {
    match v
    case Array(items) => Array(NormalizeItems(items))
    case Object(members) => Object(Pick(UniqueSortedText(KeysOf(members)), NormalizeMembers(members)))
    case _ => v
  }

  function NormalizeItems(items: seq<Value>): (r: seq<Value>)
    ensures |r| == |items|
    ensures forall i | 0 <= i < |items| :: r[i] == Normalize(items[i])
  {
    if items == [] then [] else [Normalize(items[0])] + NormalizeItems(items[1..])
  }

  function NormalizeMembers(members: seq<Member>): seq<Member> {
    if members == [] then []
    else [Member(members[0].key, Normalize(members[0].value))] + NormalizeMembers(members[1..])
  }

  function Show(v: Value): Text {
    match v
    case Null => NULL
    case Boolean(b) => if b then TRUE else FALSE
    case Number(n) => ShowInt(n)
    case String(s) => Quote(s)
    case Array(items) => [OPEN_BRACKET] + ShowItems(items) + [CLOSE_BRACKET]
    case Object(members) => [OPEN_BRACE] + ShowMembers(members) + [CLOSE_BRACE]
    case _ => []
  }

  function ShowItems(items: seq<Value>): Text {
    if items == [] then []
    else if |items| == 1 then Show(items[0])
    else Show(items[0]) + [COMMA] + ShowItems(items[1..])
  }

  function ShowMember(m: Member): Text {
    Quote(m.key) + [COLON] + Show(m.value)
  }

  function ShowMembers(members: seq<Member>): Text {
    if members == [] then []
    else if |members| == 1 then ShowMember(members[0])
    else ShowMember(members[0]) + [COMMA] + ShowMembers(members[1..])
  }

  /** The error met first while printing, if any. */
  function Fault(v: Value): Option<Error> {
    match v
    case NonFinite => Some(NonFiniteNumber)
    case Undefined => Some(UnsupportedType)
    case Unsupported => Some(UnsupportedType)
    case Array(items) => FaultInItems(items)
    case Object(members) => FaultInMembers(members)
    case _ => None
  }

  function FaultInItems(items: seq<Value>): Option<Error> {
    if items == [] then None
    else if Fault(items[0]).Some? then Fault(items[0])
    else FaultInItems(items[1..])
  }

  function FaultInMembers(members: seq<Member>): Option<Error> {
    if members == [] then None
    else if Fault(members[0].value).Some? then Fault(members[0].value)
    else FaultInMembers(members[1..])
  }

  /** `canonicalJson` returns rather than throws. */
  predicate Printable(v: Value) {
    Fault(Normalize(v)).None?
  }

  function Print(v: Value): Text {
    Show(Normalize(v))
  }

  // ---------------------------------------------------------------------------
  // A parser for the output grammar
  // ---------------------------------------------------------------------------

  predicate IsDigit(u: Unit) { ZERO <= u <= ZERO + 9 }

  function HexValue(u: Unit): int {
    if IsDigit(u) then u - ZERO
    else if 'a' as int <= u <= 'f' as int then u - 'a' as int + 10
    else if 'A' as int <= u <= 'F' as int then u - 'A' as int + 10
    else -1
  }

  function ReadHexEscape(t: Text): (r: Reading<Unit, Unit>)
    ensures r.Done? ==> |r.rest| < |t|
  {
    if |t| >= 4 && HexValue(t[0]) >= 0 && HexValue(t[1]) >= 0 && HexValue(t[2]) >= 0 && HexValue(t[3]) >= 0 then
      Done(HexValue(t[0]) * 4096 + HexValue(t[1]) * 256 + HexValue(t[2]) * 16 + HexValue(t[3]), t[4..])
    else
      Fail
  }

  /** One string character: verbatim, a short escape, or a \uXXXX escape. */
  function ReadUnit(t: Text): (r: Reading<Unit, Unit>)
    ensures r.Done? ==> |r.rest| < |t|
  {
    if t == [] || t[0] < 0x20 || t[0] == QUOTE then Fail
    else if t[0] != BACKSLASH then Done(t[0], t[1..])
    else if |t| == 1 then Fail
    else if t[1] == QUOTE || t[1] == BACKSLASH || t[1] == '/' as int then Done(t[1], t[2..])
    else if t[1] == 'b' as int then Done(8, t[2..])
    else if t[1] == 'f' as int then Done(12, t[2..])
    else if t[1] == 'n' as int then Done(10, t[2..])
    else if t[1] == 'r' as int then Done(13, t[2..])
    else if t[1] == 't' as int then Done(9, t[2..])
    else if t[1] == LOWER_U then ReadHexEscape(t[2..])
    else Fail
  }

  /** The rest of a string literal whose opening quote has been read. */
  function ReadString(t: Text): (r: Reading<Unit, Text>)
    ensures r.Done? ==> |r.rest| < |t|
    decreases |t|
  {
    if t != [] && t[0] == QUOTE then Done([], t[1..])
    else
      match ReadUnit(t)
      case Fail => Fail
      case Done(u, rest) =>
        match ReadString(rest)
        case Fail => Fail
        case Done(s, rest') => Done([u] + s, rest')
  }

  /** The longest run of digits at the start of `t`. */
  function DigitRun(t: Text): (d: Text)
    ensures |d| <= |t| && t[..|d|] == d
  {
    if t == [] || !IsDigit(t[0]) then [] else [t[0]] + DigitRun(t[1..])
  }

  function DigitsValue(d: Text): int {
    if d == [] then 0 else DigitsValue(d[..|d| - 1]) * 10 + (d[|d| - 1] - ZERO)
  }

  function ReadNat(t: Text): (r: Reading<Unit, int>)
    ensures r.Done? ==> |r.rest| < |t|
  {
    var d := DigitRun(t);
    if d == [] || (|d| > 1 && d[0] == ZERO) then Fail else Done(DigitsValue(d), t[|d|..])
  }

  function ReadLiteral(t: Text, word: Text, v: Value): (r: Reading<Unit, Value>)
    requires word != []
    ensures r.Done? ==> |r.rest| < |t|
  {
    if word <= t then Done(v, t[|word|..]) else Fail
  }

  function ReadValue(t: Text): (r: Reading<Unit, Value>)
    ensures r.Done? ==> |r.rest| < |t|
    decreases |t|, 0
  {
    if t == [] then Fail
    else if t[0] == NULL[0] then ReadLiteral(t, NULL, Null)
    else if t[0] == TRUE[0] then ReadLiteral(t, TRUE, Boolean(true))
    else if t[0] == FALSE[0] then ReadLiteral(t, FALSE, Boolean(false))
    else if t[0] == QUOTE then
      match ReadString(t[1..])
      case Fail => Fail
      case Done(s, rest) => Done(String(s), rest)
    else if t[0] == OPEN_BRACKET then
      if |t| > 1 && t[1] == CLOSE_BRACKET then Done(Array([]), t[2..])
      else
        match ReadItems(t[1..])
        case Fail => Fail
        case Done(items, rest) => Done(Array(items), rest)
    else if t[0] == OPEN_BRACE then
      if |t| > 1 && t[1] == CLOSE_BRACE then Done(Object([]), t[2..])
      else
        match ReadMembers(t[1..])
        case Fail => Fail
        case Done(members, rest) => Done(Object(members), rest)
    else if t[0] == MINUS then
      match ReadNat(t[1..])
      case Fail => Fail
      case Done(n, rest) => Done(Number(-n), rest)
    else
      match ReadNat(t)
      case Fail => Fail
      case Done(n, rest) => Done(Number(n), rest)
  }

  /** One or more items up to and including the closing bracket. */
  function ReadItems(t: Text): (r: Reading<Unit, seq<Value>>)
    ensures r.Done? ==> |r.rest| < |t|
    decreases |t|, 1
  {
    match ReadValue(t)
    case Fail => Fail
    case Done(v, rest) =>
      if rest == [] then Fail
      else if rest[0] == CLOSE_BRACKET then Done([v], rest[1..])
      else if rest[0] != COMMA then Fail
      else
        match ReadItems(rest[1..])
        case Fail => Fail
        case Done(vs, rest') => Done([v] + vs, rest')
  }

  function ReadMember(t: Text): (r: Reading<Unit, Member>)
    ensures r.Done? ==> |r.rest| < |t|
    decreases |t|, 1
  {
    if t == [] || t[0] != QUOTE then Fail
    else
      match ReadString(t[1..])
      case Fail => Fail
      case Done(k, rest) =>
        if rest == [] || rest[0] != COLON then Fail
        else
          match ReadValue(rest[1..])
          case Fail => Fail
          case Done(v, rest') => Done(Member(k, v), rest')
  }

  function ReadMembers(t: Text): (r: Reading<Unit, seq<Member>>)
    ensures r.Done? ==> |r.rest| < |t|
    decreases |t|, 2
  {
    match ReadMember(t)
    case Fail => Fail
    case Done(m, rest) =>
      if rest == [] then Fail
      else if rest[0] == CLOSE_BRACE then Done([m], rest[1..])
      else if rest[0] != COMMA then Fail
      else
        match ReadMembers(rest[1..])
        case Fail => Fail
        case Done(ms, rest') => Done([m] + ms, rest')
  }

  // ---------------------------------------------------------------------------
  // Reading back what was printed
  // ---------------------------------------------------------------------------

  lemma HexDigitReads(n: nat)
    requires n < 16
    ensures HexValue(HexDigit(n)) == n
  {
  }

  lemma HexSplit(u: Unit)
    ensures u == u / 4096 * 4096 + u / 256 % 16 * 256 + u / 16 % 16 * 16 + u % 16
  {
    assert u / 256 == u / 4096 * 16 + u / 256 % 16;
    assert u / 16 == u / 256 * 16 + u / 16 % 16;
  }

  lemma ReadFourDigits(a: nat, b: nat, c: nat, d: nat, rest: Text)
    requires a < 16 && b < 16 && c < 16 && d < 16
    ensures ReadHexEscape([HexDigit(a), HexDigit(b), HexDigit(c), HexDigit(d)] + rest)
         == Done(a * 4096 + b * 256 + c * 16 + d, rest)
  {
    var t: Text := [HexDigit(a), HexDigit(b), HexDigit(c), HexDigit(d)] + rest;
    HexDigitReads(a);
    HexDigitReads(b);
    HexDigitReads(c);
    HexDigitReads(d);
    assert t[4..] == rest;
  }

  lemma ReadEscaped(u: Unit, rest: Text)
    ensures ReadUnit(EscapeUnit(u) + rest) == Done(u, rest)
  {
    var t := EscapeUnit(u) + rest;
    if ShortEscape(u) != 0 {
      assert t[2..] == rest;
    } else if u < 0x20 || IsHigh(u) || IsLow(u) {
      ReadFourDigits(u / 4096, u / 256 % 16, u / 16 % 16, u % 16, rest);
      HexSplit(u);
      assert t[0] == BACKSLASH && t[1] == LOWER_U;
      assert t[2..] == [HexDigit(u / 4096), HexDigit(u / 256 % 16), HexDigit(u / 16 % 16), HexDigit(u % 16)] + rest;
    } else {
      assert t[1..] == rest;
    }
  }

  lemma ReadStringStep(u: Unit, tail: Text, s: Text, rest: Text)
    requires ReadString(tail) == Done(s, rest)
    ensures ReadString(EscapeUnit(u) + tail) == Done([u] + s, rest)
    ensures (IsHigh(u) || IsLow(u)) ==> ReadString([u] + tail) == Done([u] + s, rest)
  {
    ReadEscaped(u, tail);
    assert EscapeUnit(u)[0] != QUOTE;
    assert (EscapeUnit(u) + tail)[0] == EscapeUnit(u)[0];
    assert ([u] + tail)[1..] == tail;
  }

  /** `JSON.stringify` of a string reads back as that string, whatever follows the closing quote. */
  lemma {:induction false} ReadQuoted(s: Text, rest: Text)
    ensures ReadString(QuoteBody(s) + [QUOTE] + rest) == Done(s, rest)
  {
    hide EscapeUnit, ReadUnit;
    var t := QuoteBody(s) + [QUOTE] + rest;
    if s == [] {
      assert t[1..] == rest;
    } else if StartsWithPair(s) {
      var tail := QuoteBody(s[2..]) + [QUOTE] + rest;
      assert t == [s[0]] + ([s[1]] + tail);
      ReadQuoted(s[2..], rest);
      ReadStringStep(s[1], tail, s[2..], rest);
      ReadStringStep(s[0], [s[1]] + tail, [s[1]] + s[2..], rest);
      assert s == [s[0]] + ([s[1]] + s[2..]);
    } else {
      var tail := QuoteBody(s[1..]) + [QUOTE] + rest;
      assert t == EscapeUnit(s[0]) + tail;
      ReadQuoted(s[1..], rest);
      ReadStringStep(s[0], tail, s[1..], rest);
      assert s == [s[0]] + s[1..];
    }
  }

  /**
    The literal of a single unit, by ECMA-262's QuoteJSONString: a short escape, or the unit as it is
    when it is neither a quote nor a backslash nor a control nor a lone surrogate.
   */
  lemma QuotedUnit(u: Unit)
    ensures u == 34 || u == 92 ==> Quote([u]) == [34, 92, u, 34]
    ensures u == 8 ==> Quote([u]) == [34, 92, 'b' as int, 34]
    ensures u == 9 ==> Quote([u]) == [34, 92, 't' as int, 34]
    ensures u == 10 ==> Quote([u]) == [34, 92, 'n' as int, 34]
    ensures u == 12 ==> Quote([u]) == [34, 92, 'f' as int, 34]
    ensures u == 13 ==> Quote([u]) == [34, 92, 'r' as int, 34]
    ensures 32 <= u && u != 34 && u != 92 && !(0xD800 <= u <= 0xDFFF) ==> Quote([u]) == [34, u, 34]
  {
    hide EscapeUnit, Quote;
    QuotedAlone(u);
    ShortEscapes(u);
  }

  lemma QuotedAlone(u: Unit)
    ensures Quote([u]) == [34] + EscapeUnit(u) + [34]
  {
    hide EscapeUnit;
    assert QuoteBody([]) == [] && [u][1..] == [];
  }

  lemma ShortEscapes(u: Unit)
    ensures u == 34 || u == 92 ==> EscapeUnit(u) == [92, u]
    ensures u == 8 ==> EscapeUnit(u) == [92, 'b' as int]
    ensures u == 9 ==> EscapeUnit(u) == [92, 't' as int]
    ensures u == 10 ==> EscapeUnit(u) == [92, 'n' as int]
    ensures u == 12 ==> EscapeUnit(u) == [92, 'f' as int]
    ensures u == 13 ==> EscapeUnit(u) == [92, 'r' as int]
    ensures 32 <= u && u != 34 && u != 92 && !(0xD800 <= u <= 0xDFFF) ==> EscapeUnit(u) == [u]
  {
  }

  /** Other controls and lone surrogates are written as `\u` and four hex digits. */
  lemma QuotedControl(u: Unit) returns (i: nat, j: nat, k: nat, l: nat)
    requires (u < 32 && u != 8 && u != 9 && u != 10 && u != 12 && u != 13) || 0xD800 <= u <= 0xDFFF
    ensures i < 16 && j < 16 && k < 16 && l < 16 && u == i * 4096 + j * 256 + k * 16 + l
    ensures Quote([u]) == [34, 92, 'u' as int, HexDigit(i), HexDigit(j), HexDigit(k), HexDigit(l), 34]
  {
    hide QuoteBody, HexDigit;
    i, j, k, l := u / 4096, u / 256 % 16, u / 16 % 16, u % 16;
    HexSplit(u);
    QuotedAlone(u);
    assert EscapeUnit(u) == HexEscape(u);
  }

  /** Hex digits are lower-case. */
  lemma HexDigitIs(n: nat)
    requires n < 16
    ensures HexDigit(n) == "0123456789abcdef"[n] as int
  {
  }

  /** Quoting goes unit by unit, except that a surrogate pair stays as it is. */
  lemma QuotedNext(u: Unit, s: Text)
    ensures 0xD800 <= u <= 0xDBFF && s != [] && 0xDC00 <= s[0] <= 0xDFFF ==>
              Quote([u] + s) == [34, u, s[0]] + Quote(s[1..])[1..]
    ensures !(0xD800 <= u <= 0xDBFF && s != [] && 0xDC00 <= s[0] <= 0xDFFF) ==>
              Quote([u] + s) == Quote([u])[..|Quote([u])| - 1] + Quote(s)[1..]
  {
    hide EscapeUnit;
    assert QuoteBody([]) == [] && [u][1..] == [] && Quote([u]) == [QUOTE] + EscapeUnit(u) + [QUOTE];
    assert ([u] + s)[1..] == s;
    if s != [] { assert ([u] + s)[2..] == s[1..]; }
  }

  lemma {:induction false} ShowNatDigits(n: nat)
    ensures ShowNat(n) != []
    ensures forall i | 0 <= i < |ShowNat(n)| :: IsDigit(ShowNat(n)[i])
    ensures ShowNat(n)[0] == ZERO ==> n == 0 && |ShowNat(n)| == 1
    ensures DigitsValue(ShowNat(n)) == n
  {
    if n < 10 {
      assert DigitsValue([]) == 0;
      assert [ZERO + n][..0] == [];
    } else {
      ShowNatDigits(n / 10);
      assert ShowNat(n)[..|ShowNat(n)| - 1] == ShowNat(n / 10);
    }
  }

  predicate StartsWithDigit(t: Text) { t != [] && IsDigit(t[0]) }

  lemma {:induction false} DigitRunOf(d: Text, rest: Text)
    requires forall i | 0 <= i < |d| :: IsDigit(d[i])
    requires !StartsWithDigit(rest)
    ensures DigitRun(d + rest) == d
  {
    if d == [] {
      assert d + rest == rest;
    } else {
      assert (d + rest)[1..] == d[1..] + rest;
      DigitRunOf(d[1..], rest);
    }
  }

  lemma ReadShowNat(n: nat, rest: Text)
    requires !StartsWithDigit(rest)
    ensures ReadNat(ShowNat(n) + rest) == Done(n, rest)
  {
    ShowNatDigits(n);
    DigitRunOf(ShowNat(n), rest);
    assert (ShowNat(n) + rest)[|ShowNat(n)|..] == rest;
  }

  lemma ReadNumberHead(t: Text)
    requires t != []
    ensures IsDigit(t[0]) && ReadNat(t).Done? ==> ReadValue(t) == Done(Number(ReadNat(t).value), ReadNat(t).rest)
    ensures t[0] == MINUS && ReadNat(t[1..]).Done? ==>
              ReadValue(t) == Done(Number(-ReadNat(t[1..]).value), ReadNat(t[1..]).rest)
  {
    hide ReadString, ReadItems, ReadMembers, DigitRun, DigitsValue;
  }

  lemma ReadShowInt(n: int, rest: Text)
    requires !StartsWithDigit(rest)
    ensures ReadValue(ShowInt(n) + rest) == Done(Number(n), rest)
  {
    hide ReadValue, ReadNat, DigitsValue, DigitRun;
    var t := ShowInt(n) + rest;
    if n < 0 {
      ReadShowNat(-n, rest);
      assert t[1..] == ShowNat(-n) + rest;
    } else {
      ReadShowNat(n, rest);
      ShowNatDigits(n);
      assert t[0] == ShowNat(n)[0];
    }
    ReadNumberHead(t);
  }

  lemma ReadWords(rest: Text)
    ensures ReadValue(NULL + rest) == Done(Null, rest)
    ensures ReadValue(TRUE + rest) == Done(Boolean(true), rest)
    ensures ReadValue(FALSE + rest) == Done(Boolean(false), rest)
  {
    assert (NULL + rest)[4..] == (TRUE + rest)[4..] == (FALSE + rest)[5..] == rest;
  }

  lemma ReadStringHead(t: Text, s: Text, rest: Text)
    requires ReadString(t) == Done(s, rest)
    ensures ReadValue([QUOTE] + t) == Done(String(s), rest)
  {
    hide ReadString, ReadItems, ReadMembers, ReadNat;
    assert ([QUOTE] + t)[1..] == t;
  }

  lemma ArrayOpened(t: Text)
    requires |t| > 1 && t[0] == OPEN_BRACKET && t[1] != CLOSE_BRACKET
    ensures ReadItems(t[1..]).Done? ==> ReadValue(t) == Done(Array(ReadItems(t[1..]).value), ReadItems(t[1..]).rest)
  {
    hide ReadString, ReadItems, ReadMembers, ReadNat, ReadLiteral;
  }

  lemma ReadArrayHead(t: Text, items: seq<Value>, rest: Text)
    requires t != [] && t[0] != CLOSE_BRACKET && ReadItems(t) == Done(items, rest)
    ensures ReadValue([OPEN_BRACKET] + t) == Done(Array(items), rest)
  {
    hide ReadValue, ReadItems;
    var u := [OPEN_BRACKET] + t;
    assert u[1..] == t && u[1] == t[0];
    ArrayOpened(u);
  }

  lemma ObjectOpened(t: Text)
    requires |t| > 1 && t[0] == OPEN_BRACE && t[1] != CLOSE_BRACE
    ensures ReadMembers(t[1..]).Done? ==> ReadValue(t) == Done(Object(ReadMembers(t[1..]).value), ReadMembers(t[1..]).rest)
  {
    hide ReadString, ReadItems, ReadMembers, ReadNat, ReadLiteral;
  }

  lemma ReadObjectHead(t: Text, members: seq<Member>, rest: Text)
    requires t != [] && t[0] != CLOSE_BRACE && ReadMembers(t) == Done(members, rest)
    ensures ReadValue([OPEN_BRACE] + t) == Done(Object(members), rest)
  {
    hide ReadValue, ReadMembers;
    var u := [OPEN_BRACE] + t;
    assert u[1..] == t && u[1] == t[0];
    ObjectOpened(u);
  }

  lemma ReadEmptyHeads(rest: Text)
    ensures ReadValue([OPEN_BRACKET, CLOSE_BRACKET] + rest) == Done(Array([]), rest)
    ensures ReadValue([OPEN_BRACE, CLOSE_BRACE] + rest) == Done(Object([]), rest)
  {
    hide ReadString, ReadItems, ReadMembers, ReadNat;
    assert ([OPEN_BRACKET, CLOSE_BRACKET] + rest)[2..] == rest;
    assert ([OPEN_BRACE, CLOSE_BRACE] + rest)[2..] == rest;
  }

  /** Printed values start with neither a closing bracket nor a closing brace. */
  lemma ShowHead(v: Value)
    requires Fault(v).None?
    ensures Show(v) != [] && Show(v)[0] != CLOSE_BRACKET && Show(v)[0] != CLOSE_BRACE
  {
    if v.Number? && v.n >= 0 {
      ShowNatDigits(v.n);
    }
  }

  lemma ReadShowArray(items: seq<Value>, rest: Text)
    requires FaultInItems(items).None?
    requires items != [] ==> ReadItems(ShowItems(items) + [CLOSE_BRACKET] + rest) == Done(items, rest)
    ensures ReadValue(Show(Array(items)) + rest) == Done(Array(items), rest)
  {
    hide ReadValue, ReadItems;
    var t := ShowItems(items) + [CLOSE_BRACKET] + rest;
    if items == [] {
      ReadEmptyHeads(rest);
      assert Show(Array(items)) + rest == [OPEN_BRACKET, CLOSE_BRACKET] + rest;
    } else {
      ShowHead(items[0]);
      ReadArrayHead(t, items, rest);
      assert Show(Array(items)) + rest == [OPEN_BRACKET] + t;
    }
  }

  lemma ReadShowObject(members: seq<Member>, rest: Text)
    requires members != [] ==> ReadMembers(ShowMembers(members) + [CLOSE_BRACE] + rest) == Done(members, rest)
    ensures ReadValue(Show(Object(members)) + rest) == Done(Object(members), rest)
  {
    hide ReadValue, ReadMembers;
    var t := ShowMembers(members) + [CLOSE_BRACE] + rest;
    if members == [] {
      ReadEmptyHeads(rest);
      assert Show(Object(members)) + rest == [OPEN_BRACE, CLOSE_BRACE] + rest;
    } else {
      ReadObjectHead(t, members, rest);
      assert Show(Object(members)) + rest == [OPEN_BRACE] + t;
    }
  }

  /** The parser reads back every value free of faults, whatever follows it. */
  lemma {:induction false} ReadShow(v: Value, rest: Text)
    requires Fault(v).None?
    requires v.Number? ==> !StartsWithDigit(rest)
    ensures ReadValue(Show(v) + rest) == Done(v, rest)
    decreases v, 0
  {
    hide ReadValue, ReadString, ReadItems, ReadMembers, QuoteBody, ShowItems, ShowMembers, FaultInItems, FaultInMembers;
    match v
    case Null => ReadWords(rest);
    case Boolean(b) => ReadWords(rest);
    case Number(n) => ReadShowInt(n, rest);
    case String(s) =>
      var t := QuoteBody(s) + [QUOTE] + rest;
      ReadQuoted(s, rest);
      ReadStringHead(t, s, rest);
      assert Show(v) + rest == [QUOTE] + t;
    case Array(items) =>
      if items != [] { ReadShowItems(items, rest); }
      ReadShowArray(items, rest);
    case Object(members) =>
      if members != [] { ReadShowMembers(members, rest); }
      ReadShowObject(members, rest);
  }

  lemma {:induction false} ReadShowItems(items: seq<Value>, rest: Text)
    requires items != [] && FaultInItems(items).None?
    ensures ReadItems(ShowItems(items) + [CLOSE_BRACKET] + rest) == Done(items, rest)
    decreases items, 1
  {
    hide ReadValue, ReadString, ReadMembers, ReadNat, ReadMember;
    var t := ShowItems(items) + [CLOSE_BRACKET] + rest;
    if |items| == 1 {
      var after := [CLOSE_BRACKET] + rest;
      assert t == Show(items[0]) + after;
      ReadShow(items[0], after);
      assert after[1..] == rest;
      assert items == [items[0]];
    } else {
      var tail := ShowItems(items[1..]) + [CLOSE_BRACKET] + rest;
      var after := [COMMA] + tail;
      assert t == Show(items[0]) + after;
      ReadShow(items[0], after);
      assert after[1..] == tail;
      ReadShowItems(items[1..], rest);
      assert items == [items[0]] + items[1..];
    }
  }

  lemma ReadMemberHead(t: Text, k: Text, tail: Text, v: Value, rest: Text)
    requires ReadString(t) == Done(k, [COLON] + tail) && ReadValue(tail) == Done(v, rest)
    ensures ReadMember([QUOTE] + t) == Done(Member(k, v), rest)
  {
    hide ReadValue, ReadString;
    assert ([QUOTE] + t)[1..] == t && ([COLON] + tail)[1..] == tail;
  }

  lemma MemberText(m: Member, rest: Text)
    ensures ShowMember(m) + rest == [QUOTE] + (QuoteBody(m.key) + [QUOTE] + ([COLON] + (Show(m.value) + rest)))
  {
    hide Show, QuoteBody;
  }

  lemma {:induction false} ReadShowMember(m: Member, rest: Text)
    requires Fault(m.value).None? && !StartsWithDigit(rest)
    ensures ReadMember(ShowMember(m) + rest) == Done(m, rest)
    decreases m, 1
  {
    hide ReadValue, ReadString, ReadMember, ShowMember, Show, QuoteBody;
    var tail := Show(m.value) + rest;
    MemberText(m, rest);
    ReadQuoted(m.key, [COLON] + tail);
    ReadShow(m.value, rest);
    ReadMemberHead(QuoteBody(m.key) + [QUOTE] + ([COLON] + tail), m.key, tail, m.value, rest);
  }

  lemma {:induction false} ReadShowMembers(members: seq<Member>, rest: Text)
    requires members != [] && FaultInMembers(members).None?
    ensures ReadMembers(ShowMembers(members) + [CLOSE_BRACE] + rest) == Done(members, rest)
    decreases members, 2
  {
    hide ReadValue, ReadString, ReadItems, ReadNat, ReadMember, Quote;
    var t := ShowMembers(members) + [CLOSE_BRACE] + rest;
    if |members| == 1 {
      var after := [CLOSE_BRACE] + rest;
      assert t == ShowMember(members[0]) + after;
      ReadShowMember(members[0], after);
      assert after[1..] == rest;
      assert members == [members[0]];
    } else {
      var tail := ShowMembers(members[1..]) + [CLOSE_BRACE] + rest;
      var after := [COMMA] + tail;
      assert t == ShowMember(members[0]) + after;
      ReadShowMember(members[0], after);
      assert after[1..] == tail;
      ReadShowMembers(members[1..], rest);
      assert members == [members[0]] + members[1..];
    }
  }

  // ---------------------------------------------------------------------------
  // Which values print alike
  // ---------------------------------------------------------------------------

  ghost predicate Defined(ms: seq<Member>, k: Text) {
    Lookup(ms, k) != Undefined
  }

  /** Equal up to the order of object members and to undefined members. */
  ghost predicate Same(a: Value, b: Value) {
    match (a, b)
    case (Array(xs), Array(ys)) =>
      |xs| == |ys| && forall i | 0 <= i < |xs| :: Same(xs[i], ys[i])
    case (Object(ms), Object(ns)) =>
      && (forall k: Text :: Defined(ms, k) <==> Defined(ns, k))
      && (forall k: Text | Defined(ms, k) && Defined(ns, k) :: Same(Lookup(ms, k), Lookup(ns, k)))
    case _ => a == b
  }

  lemma {:induction false} LookupNormalized(ms: seq<Member>, k: Text)
    ensures Lookup(NormalizeMembers(ms), k) == Normalize(Lookup(ms, k))
    ensures Defined(NormalizeMembers(ms), k) <==> Defined(ms, k)
  {
    if ms != [] {
      LookupNormalized(ms[1..], k);
    }
  }

  lemma {:induction false} LookupKey(ms: seq<Member>, k: Text)
    requires Defined(ms, k)
    ensures k in KeysOf(ms)
  {
    var i :| 0 <= i < |ms| && ms[i] == Member(k, Lookup(ms, k));
    assert KeysOf(ms)[i] == k;
  }

  /** `Pick` at ascending keys lists the defined members in ascending key order. */
  lemma {:induction false} PickListing(ks: seq<Text>, ms: seq<Member>)
    requires SortedBy(TextLe, ks) && Distinct(ks)
    ensures SortedBy(TextLe, KeysOf(Pick(ks, ms))) && Distinct(KeysOf(Pick(ks, ms)))
    ensures forall k :: k in KeysOf(Pick(ks, ms)) <==> k in ks && Defined(ms, k)
    ensures forall m | m in Pick(ks, ms) :: m.value == Lookup(ms, m.key)
  {
    if ks != [] {
      PickListing(ks[1..], ms);
      var rest := KeysOf(Pick(ks[1..], ms));
      assert ks == [ks[0]] + ks[1..];
      assert ks[0] !in ks[1..];
      if Lookup(ms, ks[0]) != Undefined {
        var all := Pick(ks, ms);
        assert all == [Member(ks[0], Lookup(ms, ks[0]))] + Pick(ks[1..], ms);
        assert KeysOf(all) == [ks[0]] + rest;
        forall k | k in rest ensures TextLe(ks[0], k) {
          assert k in ks[1..];
        }
      } else {
        assert Pick(ks, ms) == Pick(ks[1..], ms);
      }
    }
  }

  lemma NormalMembers(ms: seq<Member>)
    ensures var p := Normalize(Object(ms)).members;
            && SortedBy(TextLe, KeysOf(p)) && Distinct(KeysOf(p))
            && (forall k :: k in KeysOf(p) <==> Defined(ms, k))
            && (forall m | m in p :: m.value == Normalize(Lookup(ms, m.key)))
  {
    TextOrder();
    var ks := UniqueSortedText(KeysOf(ms));
    UniqueSortedListing(TextLe, KeysOf(ms));
    PickListing(ks, NormalizeMembers(ms));
    forall k ensures k in ks && Defined(NormalizeMembers(ms), k) <==> Defined(ms, k) {
      LookupNormalized(ms, k);
      if Defined(ms, k) { LookupKey(ms, k); }
    }
    forall m | m in Pick(ks, NormalizeMembers(ms)) ensures m.value == Normalize(Lookup(ms, m.key)) {
      LookupNormalized(ms, m.key);
    }
  }

  /** Looking a member up in the normal form gives its normal form. */
  lemma NormalLookup(ms: seq<Member>, k: Text)
    ensures Lookup(Normalize(Object(ms)).members, k) == Normalize(Lookup(ms, k))
  {
    hide Normalize;
    NormalObject(ms);
    NormalMembers(ms);
    var p := Normalize(Object(ms)).members;
    NormalUndefined(Lookup(ms, k));
    if Defined(ms, k) {
      var i :| 0 <= i < |KeysOf(p)| && KeysOf(p)[i] == k;
      LookupFound(p, i);
    } else {
      if Defined(p, k) { LookupKey(p, k); }
    }
  }

  lemma NormalObject(ms: seq<Member>)
    ensures Normalize(Object(ms)) == Object(Pick(UniqueSortedText(KeysOf(ms)), NormalizeMembers(ms)))
  {
  }

  lemma NormalUndefined(v: Value)
    ensures Normalize(v) == Undefined <==> v == Undefined
  {
  }

  lemma {:induction false} LookupFound(ms: seq<Member>, i: nat)
    requires i < |ms| && Distinct(KeysOf(ms))
    ensures Lookup(ms, ms[i].key) == ms[i].value
  {
    if i > 0 {
      assert KeysOf(ms)[0] != KeysOf(ms)[i] && KeysOf(ms)[1..] == KeysOf(ms[1..]);
      LookupFound(ms[1..], i - 1);
    }
  }

  /** Members of distinct keys are all found in the normal form. */
  lemma NormalLookupAt(ms: seq<Member>, i: nat)
    requires i < |ms| && Distinct(KeysOf(ms))
    ensures Normalize(Object(ms)).Object?
    ensures Lookup(Normalize(Object(ms)).members, ms[i].key) == Normalize(ms[i].value)
  {
    hide Normalize, Lookup, KeysOf;
    NormalObject(ms);
    LookupFound(ms, i);
    NormalLookup(ms, ms[i].key);
  }

  /** The normal form has no other keys. */
  lemma NormalKey(ms: seq<Member>, k: Text)
    ensures Normalize(Object(ms)).Object?
    ensures Defined(Normalize(Object(ms)).members, k) ==> k in KeysOf(ms)
  {
    hide Normalize, Lookup, KeysOf;
    NormalObject(ms);
    NormalLookup(ms, k);
    NormalUndefined(Lookup(ms, k));
    if Defined(ms, k) { LookupKey(ms, k); }
  }

  /** The normal form is the value up to member order and undefined members. */
  lemma {:induction false} NormalSame(v: Value)
    ensures Same(Normalize(v), v)
    decreases v
  {
    hide UniqueSortedText, Pick;
    match v
    case Array(items) =>
      forall i | 0 <= i < |items| ensures Same(NormalizeItems(items)[i], items[i]) { NormalSame(items[i]); }
    case Object(ms) =>
      var p := Normalize(v).members;
      forall k: Text
        ensures Defined(p, k) <==> Defined(ms, k)
        ensures Defined(ms, k) ==> Same(Lookup(p, k), Lookup(ms, k))
      {
        NormalLookup(ms, k);
        NormalUndefined(Lookup(ms, k));
        if Defined(ms, k) { NormalSame(Lookup(ms, k)); }
      }
    case _ =>
  }

  lemma MembersEqual(p: seq<Member>, q: seq<Member>)
    requires KeysOf(p) == KeysOf(q)
    requires forall m, n | m in p && n in q && m.key == n.key :: m.value == n.value
    ensures p == q
  {
    assert |p| == |KeysOf(p)| == |KeysOf(q)| == |q|;
    forall i | 0 <= i < |p| ensures p[i] == q[i] {
      assert p[i].key == KeysOf(p)[i] == KeysOf(q)[i] == q[i].key;
      assert p[i] in p && q[i] in q;
    }
  }

  lemma SameKeys(ms: seq<Member>, ns: seq<Member>)
    requires forall k: Text :: Defined(ms, k) <==> Defined(ns, k)
    ensures KeysOf(Normalize(Object(ms)).members) == KeysOf(Normalize(Object(ns)).members)
  {
    hide Defined, Lookup, KeysOf, UniqueSortedText, Pick;
    NormalMembers(ms);
    NormalMembers(ns);
    TextOrder();
    SortedDistinctUnique(TextLe, KeysOf(Normalize(Object(ms)).members), KeysOf(Normalize(Object(ns)).members));
  }

  lemma {:induction false} SameNormalizes(a: Value, b: Value)
    requires Same(a, b)
    ensures Normalize(a) == Normalize(b)
  {
    hide UniqueSortedText, Pick;
    match (a, b)
    case (Array(xs), Array(ys)) =>
      forall i | 0 <= i < |xs| ensures Normalize(xs[i]) == Normalize(ys[i]) {
        SameNormalizes(xs[i], ys[i]);
      }
      assert NormalizeItems(xs) == NormalizeItems(ys);
    case (Object(ms), Object(ns)) =>
      var p, q := Normalize(a).members, Normalize(b).members;
      SameKeys(ms, ns);
      NormalMembers(ms);
      NormalMembers(ns);
      forall m, n | m in p && n in q && m.key == n.key ensures m.value == n.value {
        var i :| 0 <= i < |p| && p[i] == m;
        assert KeysOf(p)[i] == m.key;
        assert Defined(ms, m.key) && Defined(ns, m.key);
        SameNormalizes(Lookup(ms, m.key), Lookup(ns, m.key));
      }
      MembersEqual(p, q);
    case _ =>
  }

  lemma {:induction false} NormalizesSame(a: Value, b: Value)
    requires Normalize(a) == Normalize(b)
    ensures Same(a, b)
  {
    hide UniqueSortedText, Pick;
    match (a, b)
    case (Array(xs), Array(ys)) =>
      assert |xs| == |NormalizeItems(xs)| == |NormalizeItems(ys)| == |ys|;
      forall i | 0 <= i < |xs| ensures Same(xs[i], ys[i]) {
        assert NormalizeItems(xs)[i] == NormalizeItems(ys)[i];
        NormalizesSame(xs[i], ys[i]);
      }
    case (Object(ms), Object(ns)) =>
      var p := Normalize(a).members;
      NormalMembers(ms);
      NormalMembers(ns);
      forall k: Text | Defined(ms, k) && Defined(ns, k) ensures Same(Lookup(ms, k), Lookup(ns, k)) {
        var i :| 0 <= i < |p| && KeysOf(p)[i] == k;
        assert p[i] in p;
        NormalizesSame(Lookup(ms, k), Lookup(ns, k));
      }
    case _ =>
  }

  /** Unique decodability: reading the canonical text gives back the value, keys sorted. */
  lemma CanonicalDecodes(v: Value)
    requires Printable(v)
    ensures ReadValue(Print(v)) == Done(Normalize(v), [])
  {
    ReadShow(Normalize(v), []);
    assert Print(v) + [] == Print(v);
  }

  /** Two values print alike exactly when they are equal up to member order and undefined members. */
  lemma CanonicalIffSame(a: Value, b: Value)
    requires Printable(a) && Printable(b)
    ensures Print(a) == Print(b) <==> Same(a, b)
  {
    CanonicalDecodes(a);
    CanonicalDecodes(b);
    if Same(a, b) { SameNormalizes(a, b); }
    if Print(a) == Print(b) { NormalizesSame(a, b); }
  }

  // ---------------------------------------------------------------------------
  // The imperative printer
  // ---------------------------------------------------------------------------

  /** `parts.join(",")` */
  function Join(parts: seq<Text>): Text {
    if parts == [] then []
    else if |parts| == 1 then parts[0]
    else parts[0] + [COMMA] + Join(parts[1..])
  }

  lemma {:induction false} JoinItems(parts: seq<Text>, items: seq<Value>)
    requires |parts| == |items| && forall i | 0 <= i < |parts| :: parts[i] == Show(items[i])
    ensures Join(parts) == ShowItems(items)
  {
    if |parts| > 1 { JoinItems(parts[1..], items[1..]); }
  }

  lemma {:induction false} JoinMembers(parts: seq<Text>, members: seq<Member>)
    requires |parts| == |members| && forall i | 0 <= i < |parts| :: parts[i] == ShowMember(members[i])
    ensures Join(parts) == ShowMembers(members)
  {
    if |parts| > 1 { JoinMembers(parts[1..], members[1..]); }
  }

  function PickOne(k: Text, ms: seq<Member>): seq<Member> {
    if Lookup(ms, k) == Undefined then [] else [Member(k, Lookup(ms, k))]
  }

  lemma PickCons(ks: seq<Text>, ms: seq<Member>)
    requires ks != []
    ensures Pick(ks, ms) == PickOne(ks[0], ms) + Pick(ks[1..], ms)
  {
    hide Lookup;
  }

  lemma PickNothing(ms: seq<Member>)
    ensures Pick([], ms) == []
  {
  }

  lemma {:induction false} PickSplit(ks: seq<Text>, n: nat, ms: seq<Member>)
    requires n <= |ks|
    ensures Pick(ks, ms) == Pick(ks[..n], ms) + Pick(ks[n..], ms)
  {
    hide Lookup, Pick, PickOne;
    if n == 0 {
      assert ks[n..] == ks && ks[..n] == [];
      PickNothing(ms);
    } else {
      PickSplit(ks[1..], n - 1, ms);
      assert ks[1..][..n - 1] == ks[..n][1..] && ks[1..][n - 1..] == ks[n..];
      PickCons(ks, ms);
      PickCons(ks[..n], ms);
      Regroup(PickOne(ks[0], ms), Pick(ks[..n][1..], ms), Pick(ks[n..], ms));
    }
  }

  lemma {:induction false} FaultInMembersAppend(ms: seq<Member>, ns: seq<Member>)
    requires FaultInMembers(ms).None?
    ensures FaultInMembers(ms + ns) == FaultInMembers(ns)
  {
    if ms == [] {
      assert ms + ns == ns;
    } else {
      assert (ms + ns)[1..] == ms[1..] + ns;
      FaultInMembersAppend(ms[1..], ns);
    }
  }

  lemma {:induction false} FaultInItemsFrom(items: seq<Value>, n: nat)
    requires n <= |items| && forall i | 0 <= i < n :: Fault(items[i]).None?
    ensures FaultInItems(items) == FaultInItems(items[n..])
  {
    if n == 0 {
      assert items[n..] == items;
    } else {
      FaultInItemsFrom(items[1..], n - 1);
      assert items[1..][n - 1..] == items[n..];
    }
  }

  function Outcome(v: Value): Result {
    match Fault(Normalize(v))
    case Some(e) => Failure(e)
    case None => Success(Print(v))
  }

  /** `canonicalJson`: throws the first fault, or returns the text `Print` specifies. */
  method CanonicalJson(v: Value) returns (r: Result)
    ensures r == Outcome(v)
    decreases v, 1
  {
    match v
    case Null => r := Success(NULL);
    case String(s) => r := Success(Quote(s));
    case Number(n) => r := Success(ShowInt(n));
    case NonFinite => r := Failure(NonFiniteNumber);
    case Boolean(b) => r := Success(if b then TRUE else FALSE);
    case Array(items) => r := CanonicalItems(v, items);
    case Object(members) => r := CanonicalMembers(v, members);
    case _ => r := Failure(UnsupportedType);
  }

  method CanonicalItems(v: Value, items: seq<Value>) returns (r: Result)
    requires v == Array(items)
    ensures r == Outcome(v)
    decreases v, 0
  {
    hide Show, Print, Fault, FaultInItems, Normalize, NormalizeItems, Outcome, Join;
    var parts: seq<Text> := [];
    ghost var norm := NormalizeItems(items);
    for i := 0 to |items|
      invariant |parts| == i
      invariant forall j | 0 <= j < i :: Fault(norm[j]).None? && parts[j] == Show(norm[j])
    {
      OutcomeIs(items[i]);
      var part := CanonicalJson(items[i]);
      if part.Failure? {
        ItemFails(items, i);
        return part;
      }
      parts := parts + [part.text];
    }
    ItemsJoined(items, parts);
    r := Success([OPEN_BRACKET] + Join(parts) + [CLOSE_BRACKET]);
  }

  lemma OutcomeIs(v: Value)
    ensures Outcome(v) == match Fault(Normalize(v)) case Some(e) => Failure(e) case None => Success(Show(Normalize(v)))
  {
  }

  /** The first faulty element decides. */
  lemma ItemFails(items: seq<Value>, i: nat)
    requires i < |items| && Fault(NormalizeItems(items)[i]).Some?
    requires forall j | 0 <= j < i :: Fault(NormalizeItems(items)[j]).None?
    ensures Outcome(Array(items)) == Failure(Fault(NormalizeItems(items)[i]).value)
  {
    hide Show, Print, Fault, FaultInItems, Normalize, NormalizeItems, Outcome;
    var norm := NormalizeItems(items);
    OutcomeIs(Array(items));
    ArrayFault(items);
    FaultInItemsFrom(norm, i);
    FirstFault(norm[i..]);
  }

  lemma ArrayFault(items: seq<Value>)
    ensures Fault(Normalize(Array(items))) == FaultInItems(NormalizeItems(items))
  {
  }

  lemma FirstFault(items: seq<Value>)
    requires items != [] && Fault(items[0]).Some?
    ensures FaultInItems(items) == Fault(items[0])
  {
    hide Fault;
  }

  lemma ItemsJoined(items: seq<Value>, parts: seq<Text>)
    requires |parts| == |items|
    requires forall j | 0 <= j < |items| :: Fault(NormalizeItems(items)[j]).None? && parts[j] == Show(NormalizeItems(items)[j])
    ensures Outcome(Array(items)) == Success([OPEN_BRACKET] + Join(parts) + [CLOSE_BRACKET])
  {
    hide Show, Print, Join;
    var norm := NormalizeItems(items);
    FaultInItemsFrom(norm, |norm|);
    JoinItems(parts, norm);
    ShowBrackets(norm, []);
    ShowOf(Array(items));
  }

  /** One turn of the key loop: what it appends, and which fault it meets. */
  lemma PickTurn(keys: seq<Text>, i: nat, members: seq<Member>)
    requires i < |keys|
    ensures var norm := NormalizeMembers(members);
            var v := Lookup(members, keys[i]);
            var m := Member(keys[i], Normalize(v));
            && Pick(keys[..i + 1], norm) == Pick(keys[..i], norm) + (if v == Undefined then [] else [m])
            && (FaultInMembers(Pick(keys[..i], norm)).None? && v != Undefined ==>
                && FaultInMembers(Pick(keys[..i + 1], norm)) == Fault(m.value)
                && (Fault(m.value).Some? ==> FaultInMembers(Pick(keys, norm)) == Fault(m.value)))
  {
    var norm := NormalizeMembers(members);
    var v := Lookup(members, keys[i]);
    var m := Member(keys[i], Normalize(v));
    LookupNormalized(members, keys[i]);
    PickSplit(keys[..i + 1], i, norm);
    assert keys[..i + 1][..i] == keys[..i] && keys[..i + 1][i..] == [keys[i]];
    assert Pick([keys[i]], norm) == if v == Undefined then [] else [m];
    if FaultInMembers(Pick(keys[..i], norm)).None? && v != Undefined {
      FaultInMembersAppend(Pick(keys[..i], norm), [m]);
      assert [m][1..] == [];
      PickSplit(keys, i, norm);
      FaultInMembersAppend(Pick(keys[..i], norm), Pick(keys[i..], norm));
    }
  }

  method CanonicalMembers(v: Value, members: seq<Member>) returns (r: Result)
    requires v == Object(members)
    ensures r == Outcome(v)
    decreases v, 0
  {
    hide Show, Print, Pick, FaultInMembers, UniqueSortedText, Lookup, Quote;
    var keys := UniqueSortedText(KeysOf(members));
    var parts: seq<Text> := [];
    ghost var norm := NormalizeMembers(members);
    ghost var picked: seq<Member> := [];
    PickNone(norm);
    for i := 0 to |keys|
      invariant picked == Pick(keys[..i], norm) && |parts| == |picked|
      invariant FaultInMembers(picked).None?
      invariant forall j | 0 <= j < |parts| :: parts[j] == ShowMember(picked[j])
    {
      var value := Lookup(members, keys[i]);
      PickTurn(keys, i, members);
      if value != Undefined {
        ShowOf(value);
        var part := CanonicalJson(value);
        if part.Failure? {
          return part;
        }
        parts := parts + [Quote(keys[i]) + [COLON] + part.text];
        picked := picked + [Member(keys[i], Normalize(value))];
      }
    }
    assert keys[..|keys|] == keys;
    JoinMembers(parts, picked);
    ShowBrackets([], picked);
    ShowOf(v);
    r := Success([OPEN_BRACE] + Join(parts) + [CLOSE_BRACE]);
  }

  lemma PickNone(ms: seq<Member>)
    ensures Pick([], ms) == [] && FaultInMembers([]).None?
  {
  }

  lemma ShowOf(v: Value)
    ensures Print(v) == Show(Normalize(v))
  {
  }

  /** The text of each kind of value in its own characters. */
  lemma PrintedWords(n: int, s: Text)
    ensures Show(Null) == Ascii("null") && Show(Boolean(true)) == Ascii("true") && Show(Boolean(false)) == Ascii("false")
    ensures 0 <= n < 10 ==> Show(Number(n)) == [48 + n]
    ensures n >= 10 ==> Show(Number(n)) == Show(Number(n / 10)) + [48 + n % 10]
    ensures n < 0 ==> Show(Number(n)) == Ascii("-") + Show(Number(-n))
    ensures Show(String(s)) == Quote(s)
    ensures Show(Array([])) == Ascii("[]") && Show(Object([])) == Ascii("{}")
  {
  }

  lemma PrintedArray(v: Value, items: seq<Value>)
    ensures Show(Array([v])) == Ascii("[") + Show(v) + Ascii("]")
    ensures items != [] ==> Show(Array([v] + items)) == Ascii("[") + Show(v) + Ascii(",") + Show(Array(items))[1..]
  {
    assert ([v] + items)[1..] == items;
    assert ShowItems([v]) == Show(v);
  }

  lemma PrintedObject(k: Text, v: Value, members: seq<Member>)
    ensures Show(Object([Member(k, v)])) == Ascii("{") + Quote(k) + Ascii(":") + Show(v) + Ascii("}")
    ensures members != [] ==>
              Show(Object([Member(k, v)] + members)) ==
              Ascii("{") + ShowMember(Member(k, v)) + Ascii(",") + Show(Object(members))[1..]
    ensures ShowMember(Member(k, v)) == Quote(k) + Ascii(":") + Show(v)
  {
    hide Quote;
    assert ([Member(k, v)] + members)[1..] == members;
    assert ShowMembers([Member(k, v)]) == ShowMember(Member(k, v));
  }

  lemma ShowBrackets(items: seq<Value>, members: seq<Member>)
    ensures Show(Array(items)) == [OPEN_BRACKET] + ShowItems(items) + [CLOSE_BRACKET]
    ensures Show(Object(members)) == [OPEN_BRACE] + ShowMembers(members) + [CLOSE_BRACE]
  {
  }

  // ---------------------------------------------------------------------------
  // sortPlain
  // ---------------------------------------------------------------------------

  /** `sortPlain`: members in key order, undefined ones kept. */
  function SortPlain(v: Value): Value {
    match v
    case Array(items) => Array(SortPlainItems(items))
    case Object(members) => Object(Rearrange(UniqueSortedText(KeysOf(members)), SortPlainMembers(members)))
    case _ => v
  }

  function SortPlainItems(items: seq<Value>): (r: seq<Value>)
    ensures |r| == |items|
    ensures forall i | 0 <= i < |items| :: r[i] == SortPlain(items[i])
  {
    if items == [] then [] else [SortPlain(items[0])] + SortPlainItems(items[1..])
  }

  function SortPlainMembers(members: seq<Member>): seq<Member> {
    if members == [] then []
    else [Member(members[0].key, SortPlain(members[0].value))] + SortPlainMembers(members[1..])
  }

  function Rearrange(ks: seq<Text>, ms: seq<Member>): seq<Member> {
    if ks == [] then [] else [Member(ks[0], Lookup(ms, ks[0]))] + Rearrange(ks[1..], ms)
  }

  lemma {:induction false} LookupRearranged(ks: seq<Text>, ms: seq<Member>, k: Text)
    ensures Lookup(Rearrange(ks, ms), k) == if k in ks then Lookup(ms, k) else Undefined
  {
    if ks != [] {
      LookupRearranged(ks[1..], ms, k);
      assert k in ks <==> k == ks[0] || k in ks[1..];
    }
  }

  lemma {:induction false} LookupSortPlain(ms: seq<Member>, k: Text)
    ensures Lookup(SortPlainMembers(ms), k) == SortPlain(Lookup(ms, k))
  {
    if ms != [] { LookupSortPlain(ms[1..], k); }
  }

  /** `sortPlain` changes nothing but member order, so nothing that is printed. */
  lemma {:induction false} SortPlainSame(v: Value)
    ensures Same(SortPlain(v), v)
    ensures Print(SortPlain(v)) == Print(v)
  {
    match v {
      case Array(items) =>
        forall i | 0 <= i < |items| ensures Same(SortPlainItems(items)[i], items[i]) {
          SortPlainSame(items[i]);
        }
      case Object(members) =>
        var ks := UniqueSortedText(KeysOf(members));
        var sorted := SortPlain(v).members;
        TextOrder();
        UniqueSortedListing(TextLe, KeysOf(members));
        forall k: Text
          ensures Lookup(sorted, k) == SortPlain(Lookup(members, k))
        {
          LookupRearranged(ks, SortPlainMembers(members), k);
          LookupSortPlain(members, k);
          if Defined(members, k) { LookupKey(members, k); }
        }
        forall k: Text | Defined(sorted, k) && Defined(members, k)
          ensures Same(Lookup(sorted, k), Lookup(members, k))
        {
          SortPlainSame(Lookup(members, k));
        }
      case _ =>
    }
    SameNormalizes(SortPlain(v), v);
  }
}
