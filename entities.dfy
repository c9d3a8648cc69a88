/**
 * The HTML escaping used before highlighting (`escapeHtml`) and the
 * single-pass entity decoder applied to string leaves
 * (`decodeHtmlEntities`).
 */
module Entities {
  import opened Wrappers
  import opened Text

  /** What escaping turns one character into; the apostrophe is not escaped. */
  function EscapeChar(c: char): string {
    if c == '&' then "&amp;"
    else if c == '<' then "&lt;"
    else if c == '>' then "&gt;"
    else if c == '"' then "&quot;"
    else [c]
  }

  /** Reference definition of escaping: each character escaped on its own. */
  function EscapeEach(s: string): string {
    if s == [] then [] else EscapeChar(s[0]) + EscapeEach(s[1..])
  }

  /** `escapeHtml`: four `replaceAll` calls in a row, `&` first. */
  function EscapeHtml(s: string): string {
    ReplaceAll(ReplaceAll(ReplaceAll(ReplaceAll(s, "&", "&amp;"), "<", "&lt;"), ">", "&gt;"), "\"", "&quot;")
  }

  lemma EscapeHtmlAppend(a: string, b: string)
    ensures EscapeHtml(a + b) == EscapeHtml(a) + EscapeHtml(b)
  {
    ReplaceCharAppend(a, b, '&', "&amp;");
    var a1, b1 := ReplaceAll(a, "&", "&amp;"), ReplaceAll(b, "&", "&amp;");
    ReplaceCharAppend(a1, b1, '<', "&lt;");
    var a2, b2 := ReplaceAll(a1, "<", "&lt;"), ReplaceAll(b1, "<", "&lt;");
    ReplaceCharAppend(a2, b2, '>', "&gt;");
    var a3, b3 := ReplaceAll(a2, ">", "&gt;"), ReplaceAll(b2, ">", "&gt;");
    ReplaceCharAppend(a3, b3, '"', "&quot;");
  }

  lemma EscapeHtmlChar(c: char)
    ensures EscapeHtml([c]) == EscapeChar(c)
  {
    ReplaceOneChar(c, '&', "&amp;");
    if c == '&' {
      ReplaceCharAbsent("&amp;", '<', "&lt;");
      ReplaceCharAbsent("&amp;", '>', "&gt;");
      ReplaceCharAbsent("&amp;", '"', "&quot;");
      return;
    }
    ReplaceOneChar(c, '<', "&lt;");
    if c == '<' {
      ReplaceCharAbsent("&lt;", '>', "&gt;");
      ReplaceCharAbsent("&lt;", '"', "&quot;");
      return;
    }
    ReplaceOneChar(c, '>', "&gt;");
    if c == '>' {
      ReplaceCharAbsent("&gt;", '"', "&quot;");
      return;
    }
    ReplaceOneChar(c, '"', "&quot;");
  }

  /** The chain of replacements escapes every character independently: `&` going first means no entity it introduces is escaped again. */
  lemma {:induction false} EscapeHtmlIsCharwise(s: string)
    ensures EscapeHtml(s) == EscapeEach(s)
  {
    if s == [] {
      assert EscapeHtml(s) == [];
    } else {
      assert s == [s[0]] + s[1..];
      EscapeHtmlAppend([s[0]], s[1..]);
      EscapeHtmlChar(s[0]);
      EscapeHtmlIsCharwise(s[1..]);
    }
  }

  /** The four entities escaping produces. */
  predicate StartsWithEscape(t: string) {
    "&amp;" <= t || "&lt;" <= t || "&gt;" <= t || "&quot;" <= t
  }

  /** Text escaping can produce: no `<`, `>` or `"`, and each `&` begins one of the four entities. */
  predicate EscapedText(t: string) {
    && '<' !in t && '>' !in t && '"' !in t
    && forall i | 0 <= i < |t| && t[i] == '&' :: StartsWithEscape(t[i..])
  }

  lemma EscapeCharShape(c: char)
    ensures EscapedText(EscapeChar(c))
  {
    if c == '&' { EntityIsEscaped("&amp;"); }
    else if c == '<' { EntityIsEscaped("&lt;"); }
    else if c == '>' { EntityIsEscaped("&gt;"); }
    else if c == '"' { EntityIsEscaped("&quot;"); }
  }

  /** An entity is escaped text: its `&` comes first and is followed by letters and `;`. */
  lemma EntityIsEscaped(x: string)
    requires |x| > 0 && x[0] == '&' && StartsWithEscape(x)
    requires forall k | 1 <= k < |x| :: IsAsciiLetter(x[k]) || x[k] == ';'
    ensures EscapedText(x)
  {
    forall i | 0 <= i < |x| && x[i] == '&' ensures StartsWithEscape(x[i..]) {
      assert i == 0 && x[i..] == x;
    }
  }

  /** Escaped text followed by escaped text is escaped text. */
  lemma EscapedTextAppend(a: string, b: string)
    requires EscapedText(a) && EscapedText(b)
    ensures EscapedText(a + b)
  {
    var e := a + b;
    forall k | 0 <= k < |e| ensures e[k] != '<' && e[k] != '>' && e[k] != '"' {
      if k < |a| { assert e[k] == a[k]; } else { assert e[k] == b[k - |a|]; }
    }
    forall i | 0 <= i < |e| && e[i] == '&' ensures StartsWithEscape(e[i..]) {
      if i < |a| {
        assert a[i] == '&';
        PrefixExtends(a[i..], b);
        assert e[i..] == a[i..] + b;
      } else {
        assert e[i..] == b[i - |a|..];
      }
    }
  }

  lemma PrefixExtends(t: string, b: string)
    requires StartsWithEscape(t)
    ensures StartsWithEscape(t + b)
  {
    if "&amp;" <= t { PrefixGrows("&amp;", t, b); }
    else if "&lt;" <= t { PrefixGrows("&lt;", t, b); }
    else if "&gt;" <= t { PrefixGrows("&gt;", t, b); }
    else { PrefixGrows("&quot;", t, b); }
  }

  lemma PrefixGrows(x: string, t: string, b: string)
    requires x <= t
    ensures x <= t + b
  {
    assert (t + b)[..|x|] == t[..|x|];
  }

  lemma {:induction false} EscapeEachShape(s: string)
    ensures EscapedText(EscapeEach(s))
  {
    if s != [] {
      EscapeEachShape(s[1..]);
      EscapeCharShape(s[0]);
      EscapedTextAppend(EscapeChar(s[0]), EscapeEach(s[1..]));
    }
  }

  /**
   * Escaped text contains no `<`, `>` or `"`, and each `&` in it begins
   * one of `&amp;`, `&lt;`, `&gt;`, `&quot;`.
   */
  lemma EscapeHtmlShape(s: string)
    ensures '<' !in EscapeHtml(s) && '>' !in EscapeHtml(s) && '"' !in EscapeHtml(s)
    ensures forall i | 0 <= i < |EscapeHtml(s)| && EscapeHtml(s)[i] == '&' :: StartsWithEscape(EscapeHtml(s)[i..])
  {
    EscapeHtmlIsCharwise(s);
    EscapeEachShape(s);
  }

  /** The value of a character in `[0-9a-fA-F]`. */
  function DigitValue(c: char): nat {
    if '0' <= c <= '9' then c as nat - '0' as nat
    else if 'a' <= c <= 'f' then c as nat - 'a' as nat + 10
    else if 'A' <= c <= 'F' then c as nat - 'A' as nat + 10
    else 0
  }

  /** `parseInt(digits, base)` on a run of valid digits, as an exact integer. */
  function ParseDigits(digits: string, base: nat): nat {
    if digits == [] then 0
    else ParseDigits(digits[..|digits| - 1], base) * base + DigitValue(digits[|digits| - 1])
  }

  /** The named-entity table; `#039` is in it but never consulted, since a body starting with `#` is decoded as a number. */
  function NamedEntity(name: string): Option<string> {
    if name == "amp" then Some("&")
    else if name == "lt" then Some("<")
    else if name == "gt" then Some(">")
    else if name == "quot" then Some("\"")
    else if name == "apos" then Some("'")
    else if name == "#039" then Some("'")
    else None
  }

  const MaxCodePoint: nat := 0x10FFFF

  predicate IsSurrogate(cp: nat) { 0xD800 <= cp <= 0xDFFF }

  /** `String.fromCodePoint`, or None where it throws (beyond U+10FFFF) or yields a lone surrogate. */
  function FromCodePoint(cp: nat): (r: Option<string>)
    ensures r.Some? <==> cp <= MaxCodePoint && !IsSurrogate(cp)
    ensures r.Some? ==> |r.value| == 1 && r.value[0] as nat == cp
  {
    if cp <= MaxCodePoint && !IsSurrogate(cp) then Some([cp as char]) else None
  }

  /** What the replacement callback returns for an entity body: Some text, or None to keep the match as written. */
  function Replacement(entity: string): Option<string> {
    if |entity| > 0 && entity[0] == '#' then
      var isHex := |entity| > 1 && (entity[1] == 'x' || entity[1] == 'X');
      FromCodePoint(if isHex then ParseDigits(entity[2..], 16) else ParseDigits(entity[1..], 10))
    else NamedEntity(entity)
  }

  /** `t[k..]` starts with a non-empty run of `p` characters followed by `;`. */
  predicate RunThenSemicolon(t: string, k: nat, p: char -> bool) {
    k <= |t| && var n := Span(t[k..], p); 0 < n && k + n < |t| && t[k + n] == ';'
  }

  /**
   * The body that `/&(#x[0-9A-Fa-f]+|#\d+|[a-zA-Z]+);/` captures when it
   * matches at the start of `s`. Each alternative ends in a `+` over a class
   * that excludes `;`, so a match uses the maximal run, and the alternatives
   * are tried in order.
   */
  function EntityAt(s: string): (r: Option<string>)
    ensures r.Some? ==> 0 < |r.value| && |r.value| + 2 <= |s|
    ensures r.Some? ==> s[0] == '&' && s[1..|r.value| + 1] == r.value && s[|r.value| + 1] == ';'
  {
    if |s| == 0 || s[0] != '&' then None
    else
      var t := s[1..];
      if |t| >= 2 && t[0] == '#' && t[1] == 'x' && RunThenSemicolon(t, 2, IsHexDigit) then
        Some(t[..2 + Span(t[2..], IsHexDigit)])
      else if |t| >= 1 && t[0] == '#' && RunThenSemicolon(t, 1, IsDigit) then
        Some(t[..1 + Span(t[1..], IsDigit)])
      else if RunThenSemicolon(t, 0, IsAsciiLetter) then
        Some(t[..Span(t, IsAsciiLetter)])
      else None
  }

  /**
   * `decodeHtmlEntities`: one global regular-expression replace. Scanning
   * resumes after each match, so decoded text is never scanned again.
   */
  function DecodeHtmlEntities(s: string): string
    decreases |s|
  {
    if s == [] then []
    else match EntityAt(s)
      case Some(entity) =>
        var len := |entity| + 2;
        (match Replacement(entity) case Some(t) => t case None => s[..len]) + DecodeHtmlEntities(s[len..])
      case None => [s[0]] + DecodeHtmlEntities(s[1..])
  }

  /** Decoding a text that starts with a match consumes exactly that match. */
  lemma DecodeAtEntity(entity: string, rest: string)
    requires EntityAt("&" + entity + ";" + rest) == Some(entity)
    ensures DecodeHtmlEntities("&" + entity + ";" + rest)
         == (match Replacement(entity) case Some(t) => t case None => "&" + entity + ";") + DecodeHtmlEntities(rest)
  {
    var s := "&" + entity + ";" + rest;
    assert s[..|entity| + 2] == "&" + entity + ";";
    assert s[|entity| + 2..] == rest;
  }

  /** A run of letters followed by `;` matches the named alternative. */
  lemma NamedMatch(name: string, rest: string)
    requires |name| > 0 && forall k | 0 <= k < |name| :: IsAsciiLetter(name[k])
    ensures EntityAt("&" + name + ";" + rest) == Some(name)
  {
    var s := "&" + name + ";" + rest;
    var t := s[1..];
    assert t == name + ";" + rest;
    assert t[0] == name[0];
    forall k | 0 <= k < |name| ensures IsAsciiLetter(t[k]) { assert t[k] == name[k]; }
    assert t[|name|] == ';';
    SpanIs(t, IsAsciiLetter, |name|);
    assert t[0..] == t;
    assert t[..|name|] == name;
  }

  /** `&#` followed by decimal digits and `;` matches the decimal alternative. */
  lemma DecimalMatch(digits: string, rest: string)
    requires |digits| > 0 && forall k | 0 <= k < |digits| :: IsDigit(digits[k])
    ensures EntityAt("&#" + digits + ";" + rest) == Some("#" + digits)
  {
    var s := "&#" + digits + ";" + rest;
    var t := s[1..];
    assert t == "#" + digits + ";" + rest;
    assert t[1] == digits[0];
    var u := t[1..];
    assert u == digits + ";" + rest;
    forall k | 0 <= k < |digits| ensures IsDigit(u[k]) { assert u[k] == digits[k]; }
    assert u[|digits|] == ';';
    SpanIs(u, IsDigit, |digits|);
    assert t[..1 + |digits|] == "#" + digits;
  }

  /** `&#x` followed by hexadecimal digits and `;` matches the hexadecimal alternative. */
  lemma HexMatch(digits: string, rest: string)
    requires |digits| > 0 && forall k | 0 <= k < |digits| :: IsHexDigit(digits[k])
    ensures EntityAt("&#x" + digits + ";" + rest) == Some("#x" + digits)
  {
    var s := "&#x" + digits + ";" + rest;
    var t := s[1..];
    assert t == "#x" + digits + ";" + rest;
    var u := t[2..];
    assert u == digits + ";" + rest;
    forall k | 0 <= k < |digits| ensures IsHexDigit(u[k]) { assert u[k] == digits[k]; }
    assert u[|digits|] == ';';
    SpanIs(u, IsHexDigit, |digits|);
    assert t[..2 + |digits|] == "#x" + digits;
  }

  /** Decoding consumes the escape of one character and gives that character back, whatever follows. */
  lemma DecodeEscapedChar(c: char, rest: string)
    ensures DecodeHtmlEntities(EscapeChar(c) + rest) == [c] + DecodeHtmlEntities(rest)
  {
    if c == '&' {
      assert EscapeChar(c) + rest == "&" + "amp" + ";" + rest;
      DecodeNamedEscape(c, "amp", rest);
    } else if c == '<' {
      assert EscapeChar(c) + rest == "&" + "lt" + ";" + rest;
      DecodeNamedEscape(c, "lt", rest);
    } else if c == '>' {
      assert EscapeChar(c) + rest == "&" + "gt" + ";" + rest;
      DecodeNamedEscape(c, "gt", rest);
    } else if c == '"' {
      assert EscapeChar(c) + rest == "&" + "quot" + ";" + rest;
      DecodeNamedEscape(c, "quot", rest);
    } else {
      assert ([c] + rest)[1..] == rest;
    }
  }

  /** A named entity of the table decodes to its character. */
  lemma DecodeNamedEscape(c: char, name: string, rest: string)
    requires |name| > 0 && forall k | 0 <= k < |name| :: IsAsciiLetter(name[k])
    requires NamedEntity(name) == Some([c])
    ensures DecodeHtmlEntities("&" + name + ";" + rest) == [c] + DecodeHtmlEntities(rest)
  {
    NamedMatch(name, rest);
    DecodeAtEntity(name, rest);
  }

  lemma {:induction false} DecodeEscapeEach(s: string)
    ensures DecodeHtmlEntities(EscapeEach(s)) == s
  {
    if s != [] {
      DecodeEscapeEach(s[1..]);
      DecodeEscapedChar(s[0], EscapeEach(s[1..]));
      assert s == [s[0]] + s[1..];
    }
  }

  /** Decoding undoes escaping, for every string. */
  lemma DecodeEscapeRoundTrip(s: string)
    ensures DecodeHtmlEntities(EscapeHtml(s)) == s
  {
    EscapeHtmlIsCharwise(s);
    DecodeEscapeEach(s);
  }

  /** One pass only: an entity revealed by decoding `&amp;` is not decoded again (`&amp;lt;` gives `&lt;`). */
  lemma DecodeDoesNotRescan(rest: string)
    ensures DecodeHtmlEntities("&amp;" + rest) == "&" + DecodeHtmlEntities(rest)
  {
    assert "&amp;" + rest == "&" + "amp" + ";" + rest;
    NamedMatch("amp", rest);
    DecodeAtEntity("amp", rest);
  }

  /** A named entity outside the table is left as written. */
  lemma DecodeKeepsUnknownName(name: string, rest: string)
    requires |name| > 0 && forall k | 0 <= k < |name| :: IsAsciiLetter(name[k])
    requires NamedEntity(name).None?
    ensures DecodeHtmlEntities("&" + name + ";" + rest) == "&" + name + ";" + DecodeHtmlEntities(rest)
  {
    NamedMatch(name, rest);
    DecodeAtEntity(name, rest);
  }

  /** `&#N;` becomes the character U+N when that is a scalar value, and is left as written beyond U+10FFFF. */
  lemma DecodeDecimalReference(digits: string, rest: string)
    requires |digits| > 0 && forall k | 0 <= k < |digits| :: IsDigit(digits[k])
    ensures var cp := ParseDigits(digits, 10);
      DecodeHtmlEntities("&#" + digits + ";" + rest)
      == (if cp <= MaxCodePoint && !IsSurrogate(cp) then [cp as char] else "&#" + digits + ";") + DecodeHtmlEntities(rest)
  {
    DecimalMatch(digits, rest);
    assert "&#" + digits + ";" + rest == "&" + ("#" + digits) + ";" + rest;
    DecodeAtEntity("#" + digits, rest);
    var e := "#" + digits;
    assert e[1..] == digits;
    if |e| > 1 { assert e[1] == digits[0]; }
  }

  /** `&#xH;` becomes the character U+H when that is a scalar value, and is left as written beyond U+10FFFF. */
  lemma DecodeHexReference(digits: string, rest: string)
    requires |digits| > 0 && forall k | 0 <= k < |digits| :: IsHexDigit(digits[k])
    ensures var cp := ParseDigits(digits, 16);
      DecodeHtmlEntities("&#x" + digits + ";" + rest)
      == (if cp <= MaxCodePoint && !IsSurrogate(cp) then [cp as char] else "&#x" + digits + ";") + DecodeHtmlEntities(rest)
  {
    HexMatch(digits, rest);
    assert "&#x" + digits + ";" + rest == "&" + ("#x" + digits) + ";" + rest;
    DecodeAtEntity("#x" + digits, rest);
    var e := "#x" + digits;
    assert e[2..] == digits;
  }
}
