/**
  The key and signature encodings of the signed envelope: bytes printed as lower-case hex, and keys
  read as hex or else as base64. Base64 decoding and `trim` are parameters.
 */
module EnvelopeKey {

  type Byte = n: int | 0 <= n < 256

  datatype Result<T> = Ok(value: T) | Err

  const DIGITS := "0123456789abcdef"

  function Nibble(n: int): char
    requires 0 <= n < 16
  {
    DIGITS[n]
  }

  predicate IsHex(c: char) {
    '0' <= c <= '9' || 'a' <= c <= 'f' || 'A' <= c <= 'F'
  }

  /** The hex digits, of either case. */
  lemma HexDigitsAre(c: char)
    ensures IsHex(c) <==> c in "0123456789abcdefABCDEF"
  {
    var digits := "0123456789abcdefABCDEF";
    if '0' <= c <= '9' { assert digits[c as int - '0' as int] == c; }
    if 'a' <= c <= 'f' { assert digits[10 + (c as int - 'a' as int)] == c; }
    if 'A' <= c <= 'F' { assert digits[16 + (c as int - 'A' as int)] == c; }
  }

  /** Their values. */
  lemma HexValues(i: nat)
    requires i < 16
    ensures IsHex("0123456789abcdef"[i]) && NibbleValue("0123456789abcdef"[i]) == i
    ensures IsHex("0123456789ABCDEF"[i]) && NibbleValue("0123456789ABCDEF"[i]) == i
  {
  }

  function NibbleValue(c: char): (n: int)
    requires IsHex(c)
    ensures 0 <= n < 16
  {
    if '0' <= c <= '9' then c as int - '0' as int
    else if 'a' <= c <= 'f' then c as int - 'a' as int + 10
    else c as int - 'A' as int + 10
  }

  function Lower(c: char): char {
    if 'A' <= c <= 'F' then (c as int + 32) as char else c
  }

  /** The two digits of each byte, in order. */
  function Hex(bytes: seq<Byte>): string {
    if bytes == [] then "" else Hex(bytes[..|bytes| - 1]) + Pair(bytes[|bytes| - 1])
  }

  function Pair(b: Byte): string { [Nibble(b / 16), Nibble(b % 16)] }

  predicate HexText(s: string) {
    s != "" && (forall i | 0 <= i < |s| :: IsHex(s[i])) && |s| % 2 == 0
  }

  /** The byte that two digits spell. */
  function Spelt(s: string, i: nat): int
    requires HexText(s) && 2 * i + 1 < |s|
  {
    16 * NibbleValue(s[2 * i]) + NibbleValue(s[2 * i + 1])
  }

  /** `b.toString(16)` */
  function ToString16(b: Byte): string {
    if b < 16 then [Nibble(b)] else [Nibble(b / 16), Nibble(b % 16)]
  }

  method BytesToHex(bytes: seq<Byte>) returns (out: string)
    ensures out == Hex(bytes)
  {
    out := "";
    for i := 0 to |bytes|
      invariant out == Hex(bytes[..i])
    {
      assert bytes[..i + 1][..i] == bytes[..i];
      var digits := ToString16(bytes[i]);
      out := out + if |digits| < 2 then "0" + digits else digits;
    }
    assert bytes[..|bytes|] == bytes;
  }

  /** What a text means as a key: pairs of hex digits if it is such, otherwise base64. */
  method DecodeKey(input: string, trim: string -> string, base64: string -> Result<seq<Byte>>) returns (key: Result<seq<Byte>>)
    ensures var t := trim(input);
            if HexText(t) then key.Ok? && |t| == 2 * |key.value| && forall i | 0 <= i < |key.value| ::
              key.value[i] == Spelt(t, i)
            else key == base64(t)
  {
    var trimmed := trim(input);
    if HexText(trimmed) {
      var out: seq<Byte> := [];
      for i := 0 to |trimmed| / 2
        invariant |out| == i
        invariant forall j | 0 <= j < i :: out[j] == 16 * NibbleValue(trimmed[2 * j]) + NibbleValue(trimmed[2 * j + 1])
      {
        out := out + [16 * NibbleValue(trimmed[2 * i]) + NibbleValue(trimmed[2 * i + 1])];
      }
      return Ok(out);
    }
    key := base64(trimmed);
  }

  lemma {:induction false} HexAt(bytes: seq<Byte>, i: nat)
    requires i < |bytes|
    ensures |Hex(bytes)| == 2 * |bytes|
    ensures Hex(bytes)[2 * i] == Nibble(bytes[i] / 16) && Hex(bytes)[2 * i + 1] == Nibble(bytes[i] % 16)
  {
    var last := |bytes| - 1;
    if last > 0 { HexAt(bytes[..last], if i < last then i else 0); }
  }

  lemma NibbleReads(n: int)
    requires 0 <= n < 16
    ensures IsHex(Nibble(n)) && NibbleValue(Nibble(n)) == n && Lower(Nibble(n)) == Nibble(n)
  {
  }

  lemma SameNibble(c: char, d: char)
    requires IsHex(c) && IsHex(d)
    ensures NibbleValue(c) == NibbleValue(d) <==> Lower(c) == Lower(d)
  {
  }

  /** Printed bytes are lower-case hex, two digits a byte. */
  lemma HexIsText(bytes: seq<Byte>)
    requires bytes != []
    ensures HexText(Hex(bytes)) && forall i | 0 <= i < |Hex(bytes)| :: Lower(Hex(bytes)[i]) == Hex(bytes)[i]
  {
    hide Hex, Nibble, IsHex, Lower;
    HexAt(bytes, 0);
    var text := Hex(bytes);
    forall i | 0 <= i < |text| ensures IsHex(text[i]) && Lower(text[i]) == text[i] {
      HexAt(bytes, i / 2);
      NibbleReads(bytes[i / 2] / 16);
      NibbleReads(bytes[i / 2] % 16);
      assert i == 2 * (i / 2) || i == 2 * (i / 2) + 1;
    }
  }

  lemma HexReads(bytes: seq<Byte>, i: nat)
    requires i < |bytes| && HexText(Hex(bytes)) && |Hex(bytes)| == 2 * |bytes|
    ensures Spelt(Hex(bytes), i) == bytes[i]
  {
    hide Hex, Nibble, NibbleValue, IsHex;
    HexAt(bytes, i);
    NibbleReads(bytes[i] / 16);
    NibbleReads(bytes[i] % 16);
  }

  /** Reading back what was printed gives the bytes, for every byte sequence. */
  method RoundTrip(bytes: seq<Byte>, trim: string -> string, base64: string -> Result<seq<Byte>>) returns (key: Result<seq<Byte>>)
    requires trim(Hex(bytes)) == Hex(bytes) && base64("") == Ok([])
    ensures key == Ok(bytes)
  {
    hide NibbleValue, IsHex, Nibble;
    var text := BytesToHex(bytes);
    key := DecodeKey(text, trim, base64);
    if bytes != [] {
      HexIsText(bytes);
      HexAt(bytes, 0);
      ghost var read := key.value;
      forall i | 0 <= i < |bytes| ensures read[i] == bytes[i] {
        HexReads(bytes, i);
      }
      assert read == bytes;
    }
  }

  lemma SameByte(a: string, b: string, i: nat)
    requires HexText(a) && HexText(b) && 2 * i + 1 < |a| && 2 * i + 1 < |b|
    ensures Spelt(a, i) == Spelt(b, i) <==> Lower(a[2 * i]) == Lower(b[2 * i]) && Lower(a[2 * i + 1]) == Lower(b[2 * i + 1])
  {
    hide NibbleValue, IsHex, Lower;
    SameNibble(a[2 * i], b[2 * i]);
    SameNibble(a[2 * i + 1], b[2 * i + 1]);
  }

  /** Two keys pasted as hex are the same bytes exactly when they differ in case alone. */
  lemma SameHexKey(a: string, b: string, x: seq<Byte>, y: seq<Byte>)
    requires HexText(a) && HexText(b) && |a| == 2 * |x| && |b| == 2 * |y|
    requires forall i | 0 <= i < |x| :: x[i] == Spelt(a, i)
    requires forall i | 0 <= i < |y| :: y[i] == Spelt(b, i)
    ensures x == y <==> |a| == |b| && forall i | 0 <= i < |a| :: Lower(a[i]) == Lower(b[i])
  {
    hide NibbleValue, IsHex, Lower, HexText, Spelt;
    if x == y {
      forall i | 0 <= i < |a| ensures Lower(a[i]) == Lower(b[i]) {
        SameByte(a, b, i / 2);
        assert x[i / 2] == y[i / 2];
        assert i == 2 * (i / 2) || i == 2 * (i / 2) + 1;
      }
    }
    if |a| == |b| && forall i | 0 <= i < |a| :: Lower(a[i]) == Lower(b[i]) {
      forall i | 0 <= i < |x| ensures x[i] == y[i] {
        SameByte(a, b, i);
      }
    }
  }
}
