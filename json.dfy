/**
  Python's `json.dumps` with its default settings, for the values a
  default can hold: `null`, booleans, integers, strings, lists and
  string-keyed dicts. Items are separated by ", " and keys from values by
  ": "; strings are quoted and, as `ensure_ascii` asks, every character
  outside printable ASCII is written as a `\uXXXX` escape (a surrogate pair
  above U+FFFF).
 */
module Json {
  import opened Wrappers
  import opened Values

  /** The output of `json.dumps` with `ensure_ascii` holds only printable ASCII. */
  predicate Printable(s: string) {
    forall k :: 0 <= k < |s| ==> ' ' <= s[k] <= '~'
  }

  /** The character for digit `d`: a decimal digit, or a lower-case hexadecimal one above 9. */
  function DigitChar(d: nat): (c: char)
    requires d < 16
    ensures ' ' <= c <= '~'
  {
    if d < 10 then ('0' as int + d) as char else ('a' as int + d - 10) as char
  }

  /** `'{0:04x}'.format(n)` */
  function Hex4(n: nat): (r: string)
    requires n < 0x10000
    ensures |r| == 4 && Printable(r)
  {
    [DigitChar(n / 0x1000), DigitChar(n / 0x100 % 0x10), DigitChar(n / 0x10 % 0x10), DigitChar(n % 0x10)]
  }

  /** How one character of a string is written between the quotes. */
  function EscapeChar(c: char): (r: string)
    ensures Printable(r) && r != []
  {
    if c == '"' then "\\\""
    else if c == '\\' then "\\\\"
    else if c == '\n' then "\\n"
    else if c == '\r' then "\\r"
    else if c == '\t' then "\\t"
    else if c as int == 0x08 then "\\b"
    else if c as int == 0x0C then "\\f"
    else if ' ' <= c <= '~' then [c]
    else if c as int < 0x10000 then "\\u" + Hex4(c as int)
    else
      var n := c as int - 0x10000;
      "\\u" + Hex4(0xD800 + n / 0x400) + "\\u" + Hex4(0xDC00 + n % 0x400)
  }

  function Escape(s: string): (r: string)
    ensures Printable(r)
  {
    if s == [] then [] else EscapeChar(s[0]) + Escape(s[1..])
  }

  /** Printable ASCII other than the quote and the backslash is written as it is. */
  predicate Plain(c: char) {
    ' ' <= c <= '~' && c != '"' && c != '\\'
  }

  lemma {:induction false} EscapePlain(s: string)
    requires forall c :: c in s ==> Plain(c)
    ensures Escape(s) == s
  {
    if s != [] {
      assert s[0] in s;
      EscapePlain(s[1..]);
    }
  }

  /** A string literal. */
  function Quote(s: string): (r: string)
    ensures Printable(r)
  {
    "\"" + Escape(s) + "\""
  }

  /** The decimal digits of a natural number, without leading zeros. */
  function DecimalNat(n: nat): (r: string)
    ensures r != [] && forall k :: 0 <= k < |r| ==> '0' <= r[k] <= '9'
    ensures r[0] == '0' ==> n == 0
  {
    if n < 10 then [DigitChar(n)] else DecimalNat(n / 10) + [DigitChar(n % 10)]
  }

  /** `repr(i)` for an integer. */
  function Decimal(i: int): (r: string)
    ensures Printable(r)
  {
    if i < 0 then "-" + DecimalNat(-i) else DecimalNat(i)
  }

  /** `json.dumps` of a parsed node. */
  function DumpsNode(n: Node): (r: string)
    ensures Printable(r)
  {
    match n
    case Mapping(es) => "{" + DumpsEntries(es) + "}"
    case Sequence(xs) => "[" + DumpsItems(xs) + "]"
    case Null => "null"
    case Bool(b) => if b then "true" else "false"
    case Int(i) => Decimal(i)
    case Str(s) => Quote(s)
  }

  /** The elements of a list, separated by ", ". */
  function DumpsItems(xs: seq<Node>): (r: string)
    ensures Printable(r)
  {
    if xs == [] then ""
    else if |xs| == 1 then DumpsNode(xs[0])
    else DumpsNode(xs[0]) + ", " + DumpsItems(xs[1..])
  }

  /** The members of a mapping, `"key": value`, separated by ", ". */
  function DumpsEntries(es: seq<Entry>): (r: string)
    ensures Printable(r)
  {
    if es == [] then ""
    else
      var member := Quote(es[0].key) + ": " + DumpsNode(es[0].value);
      if |es| == 1 then member else member + ", " + DumpsEntries(es[1..])
  }

  /** `json.dumps` of a default as the generator hands it over. */
  function Dumps(d: Default): (r: string)
    ensures Printable(r)
  {
    match d
    case AsIs(n) => DumpsNode(n)
    case Dict(ps) => "{" + DumpsPairs(ps) + "}"
    case List(ds) => "[" + DumpsDefaults(ds) + "]"
  }

  function DumpsPairs(ps: seq<(string, Node)>): (r: string)
    ensures Printable(r)
  {
    if ps == [] then ""
    else
      var member := Quote(ps[0].0) + ": " + DumpsNode(ps[0].1);
      if |ps| == 1 then member else member + ", " + DumpsPairs(ps[1..])
  }

  function DumpsDefaults(ds: seq<Default>): (r: string)
    ensures Printable(r)
  {
    if ds == [] then ""
    else if |ds| == 1 then Dumps(ds[0])
    else Dumps(ds[0]) + ", " + DumpsDefaults(ds[1..])
  }

  /*
    Reading the encodings back. These decoders are the partners of the
    encoders above: the round-trip lemmas show that no information is lost
    when integers and strings are written out.
   */

  function DigitValue(c: char): nat {
    if '0' <= c <= '9' then c as int - '0' as int
    else if 'a' <= c <= 'f' then c as int - 'a' as int + 10
    else if 'A' <= c <= 'F' then c as int - 'A' as int + 10
    else 0
  }

  predicate IsHexDigit(c: char) {
    '0' <= c <= '9' || 'a' <= c <= 'f' || 'A' <= c <= 'F'
  }

  /** The value of a run of decimal digits. */
  function ParseNat(s: string): nat {
    if s == [] then 0 else 10 * ParseNat(s[..|s| - 1]) + DigitValue(s[|s| - 1])
  }

  /** The value of an optionally signed decimal numeral. */
  function ParseInt(s: string): int {
    if s != [] && s[0] == '-' then -(ParseNat(s[1..]) as int) else ParseNat(s)
  }

  lemma {:induction false} DecimalNatRoundTrip(n: nat)
    ensures ParseNat(DecimalNat(n)) == n
  {
    if n >= 10 {
      DecimalNatRoundTrip(n / 10);
      var r := DecimalNat(n);
      assert r[..|r| - 1] == DecimalNat(n / 10);
    }
  }

  /** An integer is written so that its value can be read back. */
  lemma DecimalRoundTrip(i: int)
    ensures ParseInt(Decimal(i)) == i
  {
    if i < 0 {
      DecimalNatRoundTrip(-i);
      assert Decimal(i)[1..] == DecimalNat(-i);
    } else {
      DecimalNatRoundTrip(i);
    }
  }

  /** The value of four hexadecimal digits. */
  function HexValue(h: string): nat
    requires |h| == 4
  {
    0x1000 * DigitValue(h[0]) + 0x100 * DigitValue(h[1]) + 0x10 * DigitValue(h[2]) + DigitValue(h[3])
  }

  lemma Hex4RoundTrip(n: nat)
    requires n < 0x10000
    ensures forall k :: 0 <= k < 4 ==> IsHexDigit(Hex4(n)[k])
    ensures HexValue(Hex4(n)) == n
  {
    var a, b, c, d := n / 0x1000, n / 0x100 % 0x10, n / 0x10 % 0x10, n % 0x10;
    assert n / 0x100 == 0x10 * a + b;
    assert n / 0x10 == 0x10 * (n / 0x100) + c;
    assert n == 0x10 * (n / 0x10) + d;
    var h := Hex4(n);
    assert DigitValue(h[0]) == a && DigitValue(h[1]) == b && DigitValue(h[2]) == c && DigitValue(h[3]) == d;
  }

  function Prepend(c: char, rest: Option<string>): Option<string> {
    if rest.Some? then Some([c] + rest.value) else None
  }

  /**
    Decodes the inside of a JSON string literal; `None` when an escape is
    malformed or a surrogate is left unpaired.
   */
  function Unescape(t: string): (r: Option<string>)
    decreases |t|
  {
    if t == [] then Some([])
    else if t[0] != '\\' then Prepend(t[0], Unescape(t[1..]))
    else if |t| < 2 then None
    else if t[1] == '"' then Prepend('"', Unescape(t[2..]))
    else if t[1] == '\\' then Prepend('\\', Unescape(t[2..]))
    else if t[1] == '/' then Prepend('/', Unescape(t[2..]))
    else if t[1] == 'n' then Prepend('\n', Unescape(t[2..]))
    else if t[1] == 'r' then Prepend('\r', Unescape(t[2..]))
    else if t[1] == 't' then Prepend('\t', Unescape(t[2..]))
    else if t[1] == 'b' then Prepend(0x08 as char, Unescape(t[2..]))
    else if t[1] == 'f' then Prepend(0x0C as char, Unescape(t[2..]))
    else if t[1] != 'u' || |t| < 6 || !(forall k :: 2 <= k < 6 ==> IsHexDigit(t[k])) then None
    else
      var hi := HexValue(t[2..6]);
      if hi < 0xD800 || 0xE000 <= hi then Prepend(hi as char, Unescape(t[6..]))
      else if 0xDC00 <= hi || |t| < 12 || t[6] != '\\' || t[7] != 'u'
        || !(forall k :: 8 <= k < 12 ==> IsHexDigit(t[k])) then None
      else
        var lo := HexValue(t[8..12]);
        if lo < 0xDC00 || 0xE000 <= lo then None
        else Prepend((0x10000 + (hi - 0xD800) * 0x400 + (lo - 0xDC00)) as char, Unescape(t[12..]))
  }

  /** Decoding the escape of one character gives that character back. */
  lemma UnescapeChar(c: char, rest: string)
    ensures Unescape(EscapeChar(c) + rest) == Prepend(c, Unescape(rest))
  {
    if c == '"' || c == '\\' || c == '\n' || c == '\r' || c == '\t' || c as int == 0x08 || c as int == 0x0C {
      UnescapeNamed(c, rest);
    } else if ' ' <= c <= '~' {
      var t := EscapeChar(c) + rest;
      assert t[0] == c && t[1..] == rest;
    } else if c as int < 0x10000 {
      UnescapeBasic(c, rest);
    } else {
      UnescapeAstral(c, rest);
    }
  }

  lemma UnescapeNamed(c: char, rest: string)
    requires c == '"' || c == '\\' || c == '\n' || c == '\r' || c == '\t' || c as int == 0x08 || c as int == 0x0C
    ensures Unescape(EscapeChar(c) + rest) == Prepend(c, Unescape(rest))
  {
    var t := EscapeChar(c) + rest;
    assert t[0] == '\\' && t[2..] == rest;
  }

  lemma UnescapeBasic(c: char, rest: string)
    requires !(c == '"' || c == '\\' || c == '\n' || c == '\r' || c == '\t' || c as int == 0x08 || c as int == 0x0C)
    requires !(' ' <= c <= '~') && c as int < 0x10000
    ensures Unescape(EscapeChar(c) + rest) == Prepend(c, Unescape(rest))
  {
    var t := EscapeChar(c) + rest;
    Hex4RoundTrip(c as int);
    assert t[..6] == "\\u" + Hex4(c as int);
    assert t[0] == '\\' && t[1] == 'u';
    assert t[2..6] == Hex4(c as int);
    assert t[6..] == rest;
  }

  lemma UnescapeAstral(c: char, rest: string)
    requires c as int >= 0x10000
    ensures Unescape(EscapeChar(c) + rest) == Prepend(c, Unescape(rest))
  {
    var n := c as int - 0x10000;
    var hi, lo := 0xD800 + n / 0x400, 0xDC00 + n % 0x400;
    SurrogateSplit(c);
    Hex4RoundTrip(hi);
    Hex4RoundTrip(lo);
    EscapeAstral(c);
    UnescapePair(Hex4(hi), Hex4(lo), rest);
    assert (0x10000 + (hi - 0xD800) * 0x400 + (lo - 0xDC00)) as char == c;
    assert EscapeChar(c) + rest == "\\u" + Hex4(hi) + "\\u" + Hex4(lo) + rest;
  }

  lemma EscapeAstral(c: char)
    requires c as int >= 0x10000
    ensures var n := c as int - 0x10000;
      EscapeChar(c) == "\\u" + Hex4(0xD800 + n / 0x400) + "\\u" + Hex4(0xDC00 + n % 0x400)
  {
  }

  /** The two halves of a surrogate pair, and the character they recombine to. */
  lemma SurrogateSplit(c: char)
    requires c as int >= 0x10000
    ensures var n := c as int - 0x10000;
      && 0xD800 <= 0xD800 + n / 0x400 < 0xDC00
      && 0xDC00 <= 0xDC00 + n % 0x400 < 0xE000
      && 0x10000 + (n / 0x400) * 0x400 + n % 0x400 == c as int
  {
  }

  lemma UnescapePair(h: string, l: string, rest: string)
    requires |h| == 4 && |l| == 4
    requires forall k :: 0 <= k < 4 ==> IsHexDigit(h[k]) && IsHexDigit(l[k])
    requires 0xD800 <= HexValue(h) < 0xDC00 && 0xDC00 <= HexValue(l) < 0xE000
    ensures Unescape("\\u" + h + "\\u" + l + rest)
      == Prepend((0x10000 + (HexValue(h) - 0xD800) * 0x400 + (HexValue(l) - 0xDC00)) as char, Unescape(rest))
  {
    var t := "\\u" + h + "\\u" + l + rest;
    assert t[0] == '\\' && t[1] == 'u' && t[6] == '\\' && t[7] == 'u';
    assert t[2..6] == h;
    assert t[8..12] == l;
    assert t[12..] == rest;
  }

  /** A string is quoted so that it can be read back exactly. */
  lemma {:induction false} EscapeRoundTrip(s: string)
    ensures Unescape(Escape(s)) == Some(s)
  {
    if s != [] {
      EscapeRoundTrip(s[1..]);
      UnescapeChar(s[0], Escape(s[1..]));
      assert [s[0]] + s[1..] == s;
    }
  }
}
