/**
 * The string operations the emitters rely on: `toUpperCase` of a first
 * letter, `Array.prototype.join` and `JSON.stringify` of a string.
 */
module Text {

  /** `c.toUpperCase()` on ASCII letters; every other character is kept. */
  function Upper(c: char): char
  {
    if 'a' <= c <= 'z' then (c as int - 32) as char else c
  }

  /** `s.substring(0, 1).toUpperCase() + s.substring(1)` */
  function UpperFirst(s: string): (r: string)
    ensures |r| == |s|
    ensures s != "" ==> r[0] == Upper(s[0]) && r[1..] == s[1..]
  {
    if s == "" then "" else [Upper(s[0])] + s[1..]
  }

  /** `parts.join(sep)` */
  function Join(parts: seq<string>, sep: string): (r: string)
    ensures |parts| == 1 ==> r == parts[0]
    decreases |parts|
  {
    if |parts| == 0 then ""
    else if |parts| == 1 then parts[0]
    else Join(parts[..|parts| - 1], sep) + sep + parts[|parts| - 1]
  }

  predicate StartsWith(s: string, prefix: string)
  {
    |prefix| <= |s| && s[..|prefix|] == prefix
  }

  /**
   * No character the emitters use as punctuation: the shape of a `typeof`
   * tag or of an identifier.
   */
  predicate Token(s: string)
  {
    forall i :: 0 <= i < |s| ==> s[i] !in "<>{}[]()|,: \""
  }

  /** A text that starts with `q` still does once more is put before and after it. */
  lemma PrefixThrough(p: string, u: string, q: string, s: string)
    requires StartsWith(u, q)
    ensures StartsWith(p + u + s, p + q)
  {
    assert (p + u + s)[..|p| + |q|] == p + u[..|q|];
  }

  /** A text that differs from `q` at position `k`, or is over by then, does not start with `q`. */
  lemma DiffersAt(r: string, q: string, k: nat)
    requires k < |q| && (k >= |r| || r[k] != q[k])
    ensures !StartsWith(r, q)
  {
    if |q| <= |r| {
      assert r[..|q|][k] == r[k];
    }
  }

  /** A text that starts with `q` starts with every prefix of `q`. */
  lemma Shorter(r: string, q: string, n: nat)
    requires StartsWith(r, q) && n <= |q|
    ensures StartsWith(r, q[..n])
  {
    assert r[..|q|][..n] == r[..n];
  }

  /** A text that does not start with a prefix of `q` does not start with `q`. */
  lemma NotLonger(r: string, q: string, n: nat)
    requires n <= |q| && !StartsWith(r, q[..n])
    ensures !StartsWith(r, q)
  {
    if StartsWith(r, q) {
      Shorter(r, q, n);
    }
  }

  /** Closing a text with `)` does not make it start with a prefix free of `)`. */
  lemma ClosedAfter(p: string, v: string, q: string)
    requires !StartsWith(v, q) && ')' !in q
    ensures !StartsWith(p + v + ")", p + q)
  {
    var r := p + v + ")";
    assert (p + q)[|p|..] == q;
    if |v| >= |q| {
      assert r[..|p| + |q|] == p + v[..|q|];
      assert (p + v[..|q|])[|p|..] == v[..|q|];
    } else {
      assert r[|p| + |v|] == ')';
      assert q[|v|] in q;
    }
  }

  predicate EndsWith(s: string, suffix: string)
  {
    |suffix| <= |s| && s[|s| - |suffix|..] == suffix
  }

  lemma EndsWithConcat(a: string, b: string)
    ensures EndsWith(a + b, b)
  {
    assert (a + b)[|a|..] == b;
  }

  /** A suffix of a suffix is a suffix. */
  lemma EndsWithTrans(a: string, b: string, c: string)
    requires EndsWith(a, b) && EndsWith(b, c)
    ensures EndsWith(a, c)
  {
    assert a[|a| - |c|..] == a[|a| - |b|..][|b| - |c|..];
  }

  /** A text ending in `s`, put between `p` and `q`, makes the whole end in `s + q`. */
  lemma EndsWithWrap(p: string, u: string, s: string, q: string)
    requires EndsWith(u, s)
    ensures EndsWith(p + u + q, s + q)
  {
    var r := p + u + q;
    assert r[|r| - |s + q|..] == u[|u| - |s|..] + q;
  }

  /** A text that differs from `x` at the `k`-th character from the end does not end in `x`. */
  lemma NotEndsWithAt(r: string, x: string, k: nat)
    requires 0 < k <= |x| && (k > |r| || r[|r| - k] != x[|x| - k])
    ensures !EndsWith(r, x)
  {
    if |x| <= |r| {
      assert r[|r| - |x|..][|x| - k] == r[|r| - k];
    }
  }

  /** A join ends with its last part. */
  lemma JoinEnds(parts: seq<string>, sep: string)
    requires |parts| >= 1
    ensures EndsWith(Join(parts, sep), parts[|parts| - 1])
  {
    if |parts| >= 2 {
      EndsWithConcat(Join(parts[..|parts| - 1], sep) + sep, parts[|parts| - 1]);
    }
  }

  /** A character in neither the parts nor the separator is not in the join. */
  lemma {:induction false} JoinFree(parts: seq<string>, sep: string, c: char)
    requires c !in sep && forall i :: 0 <= i < |parts| ==> c !in parts[i]
    ensures c !in Join(parts, sep)
    decreases |parts|
  {
    if |parts| >= 2 {
      JoinFree(parts[..|parts| - 1], sep, c);
    }
  }

  function HexDigit(d: nat): char
    requires d < 16
  {
    if d < 10 then ('0' as int + d) as char else ('a' as int + d - 10) as char
  }

  function HexValue(c: char): nat
  {
    if '0' <= c <= '9' then c as int - '0' as int
    else if 'a' <= c <= 'f' then c as int - 'a' as int + 10
    else 0
  }

  /** How `JSON.stringify` writes one character of a string. */
  function EscapeChar(c: char): string
  {
    if c == '"' then "\\\""
    else if c == '\\' then "\\\\"
    else if c == 8 as char then "\\b"
    else if c == '\t' then "\\t"
    else if c == '\n' then "\\n"
    else if c == 12 as char then "\\f"
    else if c == '\r' then "\\r"
    else if c as int < 0x20 then "\\u00" + [HexDigit(c as int / 16), HexDigit(c as int % 16)]
    else [c]
  }

  function Escape(s: string): string
  {
    if s == "" then "" else EscapeChar(s[0]) + Escape(s[1..])
  }

  /** `JSON.stringify(s)` for a string `s`. */
  function JsonString(s: string): (r: string)
    ensures |r| >= 2 && r[0] == '"' && r[|r| - 1] == '"'
  {
    "\"" + Escape(s) + "\""
  }

  /** The character a one-letter escape sequence `\x` stands for. */
  function Unescaped(x: char): char
  {
    if x == 'b' then 8 as char
    else if x == 't' then '\t'
    else if x == 'n' then '\n'
    else if x == 'f' then 12 as char
    else if x == 'r' then '\r'
    else x
  }

  /**
   * Undoing the escapes `EscapeChar` writes; it is the inverse of `Escape`,
   * not a general JSON reader.
   */
  function Unescape(e: string): string
    decreases |e|
  {
    if e == "" then ""
    else if e[0] == '\\' && |e| >= 6 && e[1] == 'u' then
      [(HexValue(e[4]) * 16 + HexValue(e[5])) as char] + Unescape(e[6..])
    else if e[0] == '\\' && |e| >= 2 then [Unescaped(e[1])] + Unescape(e[2..])
    else [e[0]] + Unescape(e[1..])
  }

  /** The quotes of a `JsonString` output removed and its escapes undone. */
  function ParseJsonString(r: string): string
  {
    if |r| >= 2 then Unescape(r[1..|r| - 1]) else ""
  }

  /** Reading back one escaped character, then the rest. */
  lemma UnescapeChar(c: char, rest: string)
    ensures Unescape(EscapeChar(c) + rest) == [c] + Unescape(rest)
  {
    if c == '"' || c == '\\' || c == 8 as char || c == '\t' || c == '\n' || c == 12 as char || c == '\r' {
      UnescapeShort(c, rest);
    } else if c as int < 0x20 {
      UnescapeControl(c, rest);
    } else {
      var e := EscapeChar(c) + rest;
      assert e[1..] == rest;
    }
  }

  /** A character written as `\u00xx`. */
  lemma UnescapeControl(c: char, rest: string)
    requires c as int < 0x20
    requires c != 8 as char && c != '\t' && c != '\n' && c != 12 as char && c != '\r'
    ensures Unescape(EscapeChar(c) + rest) == [c] + Unescape(rest)
  {
    var e := EscapeChar(c) + rest;
    var hi, lo := c as int / 16, c as int % 16;
    assert e[..6] == "\\u00" + [HexDigit(hi), HexDigit(lo)];
    assert e[0] == '\\' && e[1] == 'u';
    assert e[4] == HexDigit(hi) && e[5] == HexDigit(lo);
    assert HexValue(HexDigit(hi)) * 16 + HexValue(HexDigit(lo)) == c as int;
    assert e[6..] == rest;
  }

  /** A character written as a backslash and one letter. */
  lemma UnescapeShort(c: char, rest: string)
    requires c == '"' || c == '\\' || c == 8 as char || c == '\t' || c == '\n' || c == 12 as char || c == '\r'
    ensures Unescape(EscapeChar(c) + rest) == [c] + Unescape(rest)
  {
    var e := EscapeChar(c) + rest;
    assert e[0] == '\\' && e[1] != 'u' && Unescaped(e[1]) == c;
    assert e[2..] == rest;
  }

  lemma {:induction false} UnescapeEscape(s: string)
    ensures Unescape(Escape(s)) == s
  {
    if s != "" {
      UnescapeChar(s[0], Escape(s[1..]));
      UnescapeEscape(s[1..]);
    }
  }

  /** `JSON.stringify` has a left inverse on strings: undoing its quotes and escapes gives `s` back. */
  lemma JsonStringRoundTrip(s: string)
    ensures ParseJsonString(JsonString(s)) == s
  {
    var r := JsonString(s);
    assert r[1..|r| - 1] == Escape(s);
    UnescapeEscape(s);
  }

  /** So `JSON.stringify` is injective on strings: distinct names give distinct keys. */
  lemma JsonStringInjective(s: string, t: string)
    ensures JsonString(s) == JsonString(t) <==> s == t
  {
    JsonStringRoundTrip(s);
    JsonStringRoundTrip(t);
  }
}
