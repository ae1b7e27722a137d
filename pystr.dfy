/**
  The Python `str` operations that frigate/gen.py relies on: `strip` with and
  without an explicit character set, taking the first line of
  `split("\n")`, `capitalize` (restricted to ASCII letters) and `join`.
 */
module PyStr {

  /** The characters `str.isspace` accepts, which `str.strip()` removes. */
  const Whitespace: set<char> := {
    '\t', '\n', '\U{000B}', '\U{000C}', '\r', '\U{001C}', '\U{001D}', '\U{001E}', '\U{001F}', ' ',
    '\U{0085}', '\U{00A0}', '\U{1680}',
    '\U{2000}', '\U{2001}', '\U{2002}', '\U{2003}', '\U{2004}', '\U{2005}', '\U{2006}',
    '\U{2007}', '\U{2008}', '\U{2009}', '\U{200A}',
    '\U{2028}', '\U{2029}', '\U{202F}', '\U{205F}', '\U{3000}'
  }

  /** Removes the longest prefix made of characters in `cs`: the result is a suffix of `s`. */
  function StripLeft(s: string, cs: set<char>): (r: string)
    ensures |r| <= |s| && r == s[|s| - |r|..]
    ensures forall k :: 0 <= k < |s| - |r| ==> s[k] in cs
    ensures r != [] ==> r[0] !in cs
  {
    if s != [] && s[0] in cs then StripLeft(s[1..], cs) else s
  }

  /** Removes the longest suffix made of characters in `cs`: the result is a prefix of `s`. */
  function StripRight(s: string, cs: set<char>): (r: string)
    ensures |r| <= |s| && r == s[..|r|]
    ensures forall k :: |r| <= k < |s| ==> s[k] in cs
    ensures r != [] ==> r[|r| - 1] !in cs
  {
    if s != [] && s[|s| - 1] in cs then StripRight(s[..|s| - 1], cs) else s
  }

  /**
    `s.strip(cs)`: the part of `s` left once the characters of `cs` are
    removed from both ends; what is inside is kept as it is.
   */
  function Strip(s: string, cs: set<char>): (r: string)
    ensures r != [] ==> r[0] !in cs && r[|r| - 1] !in cs
    ensures exists i :: StrippedAt(s, cs, i, r)
  {
    var left := StripLeft(s, cs);
    var r := StripRight(left, cs);
    assert StrippedAt(s, cs, |s| - |left|, r) by {
      assert s[|s| - |left|..][..|r|] == s[|s| - |left|..|s| - |left| + |r|];
      forall k | |s| - |left| + |r| <= k < |s| ensures s[k] in cs {
        assert s[k] == left[k - (|s| - |left|)];
      }
    }
    r
  }

  /** `r` is `s[i..i+|r|]`, and everything of `s` outside that slice is in `cs`. */
  ghost predicate StrippedAt(s: string, cs: set<char>, i: int, r: string) {
    && 0 <= i && i + |r| <= |s|
    && s[i..i + |r|] == r
    && (forall k :: 0 <= k < i ==> s[k] in cs)
    && (forall k :: i + |r| <= k < |s| ==> s[k] in cs)
  }

  /** A string whose ends are not in `cs` is its own strip. */
  lemma StripUnchanged(s: string, cs: set<char>)
    requires s != [] ==> s[0] !in cs && s[|s| - 1] !in cs
    ensures Strip(s, cs) == s
  {
  }

  /** Stripping a string made of marks, a kept middle and marks gives the middle. */
  lemma StripParts(pre: string, mid: string, suf: string, cs: set<char>)
    requires forall c :: c in pre ==> c in cs
    requires forall c :: c in suf ==> c in cs
    requires mid != [] ==> mid[0] !in cs && mid[|mid| - 1] !in cs
    ensures Strip(pre + mid + suf, cs) == mid
  {
    assert pre + mid + suf == pre + (mid + suf);
    if mid == [] {
      StripLeftAll(pre + suf, cs);
    } else {
      StripLeftParts(pre, mid + suf, cs);
      StripRightParts(mid, suf, cs);
    }
  }

  lemma {:induction false} StripLeftAll(s: string, cs: set<char>)
    requires forall c :: c in s ==> c in cs
    ensures StripLeft(s, cs) == []
  {
    if s != [] {
      StripLeftAll(s[1..], cs);
    }
  }

  lemma {:induction false} StripLeftParts(pre: string, rest: string, cs: set<char>)
    requires forall c :: c in pre ==> c in cs
    requires rest != [] ==> rest[0] !in cs
    ensures StripLeft(pre + rest, cs) == rest
  {
    if pre != [] {
      assert (pre + rest)[1..] == pre[1..] + rest;
      StripLeftParts(pre[1..], rest, cs);
    }
  }

  lemma {:induction false} StripRightParts(rest: string, suf: string, cs: set<char>)
    requires forall c :: c in suf ==> c in cs
    requires rest != [] ==> rest[|rest| - 1] !in cs
    ensures StripRight(rest + suf, cs) == rest
  {
    if suf != [] {
      var s := rest + suf;
      assert s[..|s| - 1] == rest + suf[..|suf| - 1];
      assert s[|s| - 1] == suf[|suf| - 1];
      StripRightParts(rest, suf[..|suf| - 1], cs);
    } else {
      assert rest + suf == rest;
    }
  }

  /** `s.split("\n")[0]`: everything before the first line break. */
  function FirstLine(s: string): (r: string)
    ensures '\n' !in r
    ensures |r| <= |s| && r == s[..|r|]
    ensures |r| < |s| ==> s[|r|] == '\n'
  {
    if s == [] || s[0] == '\n' then [] else [s[0]] + FirstLine(s[1..])
  }

  predicate IsAsciiUpper(c: char) { 'A' <= c <= 'Z' }

  predicate IsAsciiLower(c: char) { 'a' <= c <= 'z' }

  /** `c.upper()` on ASCII letters; other characters are left as they are. */
  function Upper(c: char): char {
    if IsAsciiLower(c) then (c as int - 32) as char else c
  }

  /** `c.lower()` on ASCII letters; other characters are left as they are. */
  function Lower(c: char): char {
    if IsAsciiUpper(c) then (c as int + 32) as char else c
  }

  function LowerAll(s: string): (r: string)
    ensures |r| == |s|
    ensures forall k :: 0 <= k < |s| ==> r[k] == Lower(s[k])
  {
    if s == [] then [] else [Lower(s[0])] + LowerAll(s[1..])
  }

  /** `s.capitalize()`: the first character upper case, all the others lower case. */
  function Capitalize(s: string): (r: string)
    ensures |r| == |s|
    ensures r != [] ==> r[0] == Upper(s[0])
    ensures forall k :: 0 < k < |s| ==> r[k] == Lower(s[k])
  {
    if s == [] then [] else [Upper(s[0])] + LowerAll(s[1..])
  }

  /** After `capitalize` no ASCII letter is in the wrong case, so a second call changes nothing. */
  lemma CapitalizeNormalForm(s: string)
    ensures var r := Capitalize(s);
      && (r != [] ==> !IsAsciiLower(r[0]))
      && (forall k :: 0 < k < |r| ==> !IsAsciiUpper(r[k]))
      && Capitalize(r) == r
  {
  }

  /** `capitalize` changes the case of letters and nothing else. */
  lemma CapitalizeKeeps(s: string, cs: set<char>)
    requires forall c :: c in cs ==> !IsAsciiUpper(c) && !IsAsciiLower(c)
    ensures forall k :: 0 <= k < |s| ==> (Capitalize(s)[k] in cs <==> s[k] in cs)
    ensures forall k :: 0 <= k < |s| ==> (Capitalize(s)[k] == '\n' <==> s[k] == '\n')
  {
  }

  /** The total length of the parts. */
  function Width(parts: seq<string>): nat {
    if parts == [] then 0 else |parts[0]| + Width(parts[1..])
  }

  /**
    `sep.join(parts)`: the parts in order with one separator between each
    two, so the join is the parts' total length plus one character per
    separator. JoinEnds, JoinAppend and JoinInjective state the rest.
   */
  function Join(parts: seq<string>, sep: char): (r: string)
    ensures parts != [] ==> |r| == Width(parts) + |parts| - 1
  {
    if parts == [] then ""
    else if |parts| == 1 then parts[0]
    else parts[0] + [sep] + Join(parts[1..], sep)
  }

  /** No part contains the separator. */
  predicate SeparatorFree(parts: seq<string>, sep: char) {
    forall k :: 0 <= k < |parts| ==> sep !in parts[k]
  }

  /** Joining two non-empty lists puts one separator between their joins. */
  lemma {:induction false} JoinAppend(a: seq<string>, b: seq<string>, sep: char)
    requires a != [] && b != []
    ensures Join(a + b, sep) == Join(a, sep) + [sep] + Join(b, sep)
  {
    if |a| == 1 {
      assert (a + b)[1..] == b;
    } else {
      assert (a + b)[1..] == a[1..] + b;
      JoinAppend(a[1..], b, sep);
    }
  }

  /** A join starts with the first part and ends with the last. */
  lemma {:induction false} JoinEnds(parts: seq<string>, sep: char)
    requires parts != []
    ensures parts[0] <= Join(parts, sep)
    ensures var r, last := Join(parts, sep), parts[|parts| - 1];
      |last| <= |r| && r[|r| - |last|..] == last
  {
    if |parts| > 1 {
      var r, rest, last := Join(parts, sep), Join(parts[1..], sep), parts[|parts| - 1];
      JoinEnds(parts[1..], sep);
      assert parts[1..][|parts| - 2] == last;
      assert r == parts[0] + [sep] + rest;
      assert r[|r| - |last|..] == rest[|rest| - |last|..];
    }
  }

  /**
    When no part contains the separator, a non-empty list of parts can be
    recovered from its join: different lists give different strings.
   */
  lemma {:induction false} JoinInjective(a: seq<string>, b: seq<string>, sep: char)
    requires a != [] && b != []
    requires SeparatorFree(a, sep) && SeparatorFree(b, sep)
    requires Join(a, sep) == Join(b, sep)
    ensures a == b
  {
    var x, y := a[0], b[0];
    if |a| == 1 || |b| == 1 {
      assert |a| == 1 && |b| == 1;
    } else {
      var s := Join(a, sep);
      assert s[|x|] == sep && s[|y|] == sep;
      assert x == s[..|x|] == y;
      assert Join(a[1..], sep) == s[|x| + 1..] == Join(b[1..], sep);
      JoinInjective(a[1..], b[1..], sep);
      assert a == [x] + a[1..] && b == [y] + b[1..];
    }
  }
}
