/**
 * `highlightJson` and `prettifyJsonStringLiteral`: the serialised payload is
 * HTML-escaped, then one global regular-expression replace wraps object
 * keys, string literals, `true`/`false`/`null` and numbers in coloured
 * spans. Each alternative of the pattern is written out as a scanner that
 * follows the regular-expression engine's order of trying alternatives.
 */
module Highlight {
  import opened Wrappers
  import opened Text
  import Entities

  /** `\b` at position `p`: exactly one of the neighbouring characters is a word character. */
  predicate Boundary(s: string, p: nat)
    requires p <= |s|
  {
    (p > 0 && IsWordChar(s[p - 1])) != (p < |s| && IsWordChar(s[p]))
  }

  /**
   * Where the body of a string literal starting at `k` ends, at its closing
   * quote: the body is a run of `\uXXXX`, a backslash and any non-`u`
   * character, or any character other than a backslash or a quote. Each
   * element starts with a character other than a quote, so giving back
   * elements never exposes a closing quote, and the greedy scan is the only
   * way the literal can match.
   */
  function BodyEnd(s: string, k: nat): (r: Option<nat>)
    requires k <= |s|
    ensures r.Some? ==> k <= r.value < |s| && s[r.value] == '"'
    decreases |s| - k
  {
    if k == |s| then None
    else if s[k] == '"' then Some(k)
    else if s[k] == '\\' then
      if k + 1 < |s| && s[k + 1] == 'u' then
        if k + 6 <= |s| && forall m | k + 2 <= m < k + 6 :: IsHexDigit(s[m]) then BodyEnd(s, k + 6) else None
      else if k + 1 < |s| then BodyEnd(s, k + 2)
      else None
    else BodyEnd(s, k + 1)
  }

  /**
   * A string-literal body as the pattern's repeated group reads it: a
   * sequence of `\uXXXX` with four hex digits, a backslash and a character
   * other than `u`, or a character other than a backslash or a quote.
   */
  predicate LiteralBody(t: string)
    decreases |t|
  {
    t == [] ||
    (|t| >= 6 && t[0] == '\\' && t[1] == 'u' && (forall m | 2 <= m < 6 :: IsHexDigit(t[m])) && LiteralBody(t[6..])) ||
    (|t| >= 2 && t[0] == '\\' && t[1] != 'u' && LiteralBody(t[2..])) ||
    (|t| >= 1 && t[0] != '\\' && t[0] != '"' && LiteralBody(t[1..]))
  }

  /**
   * The scan stops at `q` exactly when `q` holds a quote and the text from
   * `k` up to it is a literal body: an escaped quote never ends the body,
   * and a body that no quote closes makes the scan fail.
   */
  lemma {:induction false} BodyEndIff(s: string, k: nat, q: nat)
    requires k <= |s|
    ensures BodyEnd(s, k) == Some(q) <==> k <= q < |s| && s[q] == '"' && LiteralBody(s[k..q])
    decreases |s| - k
  {
    if k < |s| && k <= q < |s| {
      var t := s[k..q];
      if q > k {
        assert t[0] == s[k];
      }
      if q > k + 1 {
        assert t[1] == s[k + 1];
        assert t[2..] == s[k + 2..q];
      }
      if q >= k + 6 {
        forall m | 2 <= m < 6 ensures t[m] == s[k + m] { }
        assert t[6..] == s[k + 6..q];
      }
      if q > k {
        assert t[1..] == s[k + 1..q];
      }
    }
    if k < |s| && s[k] != '"' {
      if s[k] == '\\' {
        if k + 1 < |s| && s[k + 1] == 'u' {
          if k + 6 <= |s| && forall m | k + 2 <= m < k + 6 :: IsHexDigit(s[m]) {
            BodyEndIff(s, k + 6, q);
          }
        } else if k + 1 < |s| {
          BodyEndIff(s, k + 2, q);
        }
      } else {
        BodyEndIff(s, k + 1, q);
      }
    }
  }

  /** The string-literal alternative at `i`: the end of the literal, closing quote included. */
  function StringAt(s: string, i: nat): (r: Option<nat>)
    requires i < |s|
    ensures r.Some? ==> i < r.value <= |s| && s[i] == '"' && s[r.value - 1] == '"'
  {
    if s[i] != '"' then None
    else match BodyEnd(s, i + 1)
      case Some(q) => Some(q + 1)
      case None => None
  }

  /**
   * The key alternative at `i`: a string literal, white space and a colon.
   * `\s` never matches a colon, so only the longest run of white space can
   * be followed by one.
   */
  function KeyAt(s: string, i: nat): (r: Option<nat>)
    requires i < |s|
    ensures r.Some? ==> i < r.value <= |s| && s[i] == '"' && s[r.value - 1] == ':'
  {
    match StringAt(s, i)
    case Some(e) =>
      var w := e + Span(s[e..], IsSpace);
      if w < |s| && s[w] == ':' then Some(w + 1) else None
    case None => None
  }

  const Keywords: seq<string> := ["true", "false", "null"]

  /** The `\b(true|false|null)\b` alternative at `i`. */
  function KeywordAt(s: string, i: nat): (r: Option<nat>)
    requires i < |s|
    ensures r.Some? ==> i < r.value <= |s| && s[i..r.value] in Keywords && Boundary(s, i) && Boundary(s, r.value)
  {
    if !Boundary(s, i) then None
    else if i + 4 <= |s| && s[i..i + 4] == "true" && Boundary(s, i + 4) then Some(i + 4)
    else if i + 5 <= |s| && s[i..i + 5] == "false" && Boundary(s, i + 5) then Some(i + 5)
    else if i + 4 <= |s| && s[i..i + 4] == "null" && Boundary(s, i + 4) then Some(i + 4)
    else None
  }

  /** The end of the longest run of digits starting at `k`. */
  function DigitsEnd(s: string, k: nat): (e: nat)
    requires k <= |s|
    ensures k <= e <= |s|
    ensures forall m | k <= m < e :: IsDigit(s[m])
    ensures e < |s| ==> !IsDigit(s[e])
    decreases |s| - k
  {
    if k < |s| && IsDigit(s[k]) then DigitsEnd(s, k + 1) else k
  }

  /** `[eE][+\-]?\d+` at `x`, with the longest run of digits. */
  function ExponentEnd(s: string, x: nat): (r: Option<nat>)
    requires x <= |s|
    ensures r.Some? ==> x < r.value <= |s|
  {
    if x < |s| && (s[x] == 'e' || s[x] == 'E') then
      var y := if x + 1 < |s| && (s[x + 1] == '+' || s[x + 1] == '-') then x + 2 else x + 1;
      if y < |s| && IsDigit(s[y]) then Some(DigitsEnd(s, y)) else None
    else None
  }

  /** The ends to try after the digits ending at `x`: with the optional exponent first, then without. */
  function WithExponent(s: string, x: nat): (ends: seq<nat>)
    requires x <= |s|
    ensures forall k | 0 <= k < |ends| :: x <= ends[k] <= |s|
  {
    match ExponentEnd(s, x)
    case Some(e) => [e, x]
    case None => [x]
  }

  /** The first candidate end at which `\b` holds. */
  function FirstAtBoundary(s: string, ends: seq<nat>): (r: Option<nat>)
    requires forall k | 0 <= k < |ends| :: ends[k] <= |s|
    ensures r.Some? ==> r.value in ends && Boundary(s, r.value)
  {
    if ends == [] then None
    else if Boundary(s, ends[0]) then Some(ends[0])
    else FirstAtBoundary(s, ends[1..])
  }

  /**
   * The number alternative `-?\b\d+(?:\.\d+)?(?:[eE][+\-]?\d+)?\b` at `i`.
   * A shorter digit run is followed by a digit, which neither optional
   * group accepts and at which `\b` fails, so only the longest runs can
   * match; the candidates are tried with the fraction before without it,
   * and with the exponent before without it.
   */
  function NumberAt(s: string, i: nat): (r: Option<nat>)
    requires i < |s|
    ensures r.Some? ==> i < r.value <= |s|
  {
    var p := if s[i] == '-' then i + 1 else i;
    if p < |s| && IsDigit(s[p]) && Boundary(s, p) then
      var whole := DigitsEnd(s, p);
      var fraction :=
        if whole + 1 < |s| && s[whole] == '.' && IsDigit(s[whole + 1]) then WithExponent(s, DigitsEnd(s, whole + 1))
        else [];
      FirstAtBoundary(s, fraction + WithExponent(s, whole))
    else None
  }

  predicate AllDigits(t: string) {
    |t| > 0 && forall k | 0 <= k < |t| :: IsDigit(t[k])
  }

  predicate ExponentPart(t: string) {
    |t| >= 2 && (t[0] == 'e' || t[0] == 'E') &&
    (AllDigits(t[1..]) || ((t[1] == '+' || t[1] == '-') && AllDigits(t[2..])))
  }

  /** `t` splits as an optional minus, digits, an optional fraction and an optional exponent at the cut points. */
  predicate NumberParts(t: string, a: nat, b: nat, c: nat) {
    a <= 1 && a < b <= c <= |t| && (a == 1 ==> t[0] == '-') && AllDigits(t[a..b]) &&
    (c == b || (t[b] == '.' && AllDigits(t[b + 1..c]))) &&
    (c == |t| || ExponentPart(t[c..]))
  }

  /** The JSON number grammar. */
  predicate IsNumberLexeme(t: string) {
    exists a, b, c | 0 <= a <= 1 && a < b <= c <= |t| :: NumberParts(t, a, b, c)
  }

  lemma LexemeFromParts(s: string, i: nat, p: nat, b: nat, c: nat, e: nat)
    requires i <= p <= i + 1 && p < b <= c <= e <= |s|
    requires p == i + 1 ==> s[i] == '-'
    requires forall m | p <= m < b :: IsDigit(s[m])
    requires c == b || (s[b] == '.' && b + 1 < c && forall m | b + 1 <= m < c :: IsDigit(s[m]))
    requires c == e || ExponentPart(s[c..e])
    ensures IsNumberLexeme(s[i..e])
  {
    var t := s[i..e];
    var a', b', c' := p - i, b - i, c - i;
    forall k | a' <= k < b' ensures IsDigit(t[k]) {
      assert t[k] == s[i + k];
    }
    assert AllDigits(t[a'..b']);
    if c != b {
      assert t[b'] == s[b];
      forall k | b' + 1 <= k < c' ensures IsDigit(t[k]) {
        assert t[k] == s[i + k];
      }
      assert AllDigits(t[b' + 1..c']);
    }
    assert t[c'..] == s[c..e];
    assert NumberParts(t, a', b', c');
  }

  lemma ExponentLexeme(s: string, x: nat)
    requires x <= |s| && ExponentEnd(s, x).Some?
    ensures ExponentPart(s[x..ExponentEnd(s, x).value])
  {
    var e := ExponentEnd(s, x).value;
    var t := s[x..e];
    if x + 1 < |s| && (s[x + 1] == '+' || s[x + 1] == '-') {
      assert t[2..] == s[x + 2..e];
    } else {
      assert t[1..] == s[x + 1..e];
    }
  }

  /** Every candidate end after well-formed parts up to `c` closes a number lexeme. */
  lemma WithExponentLexemes(s: string, i: nat, p: nat, b: nat, c: nat)
    requires i <= p <= i + 1 && p < b <= c <= |s|
    requires p == i + 1 ==> s[i] == '-'
    requires forall m | p <= m < b :: IsDigit(s[m])
    requires c == b || (s[b] == '.' && b + 1 < c && forall m | b + 1 <= m < c :: IsDigit(s[m]))
    ensures forall e | e in WithExponent(s, c) :: IsNumberLexeme(s[i..e])
  {
    LexemeFromParts(s, i, p, b, c, c);
    if ExponentEnd(s, c).Some? {
      ExponentLexeme(s, c);
      LexemeFromParts(s, i, p, b, c, ExponentEnd(s, c).value);
    }
  }

  /** A number token is a JSON number lexeme with `\b` at both of its digit ends. */
  lemma NumberAtIsLexeme(s: string, i: nat)
    requires i < |s| && NumberAt(s, i).Some?
    ensures IsNumberLexeme(s[i..NumberAt(s, i).value])
    ensures Boundary(s, NumberAt(s, i).value)
    ensures s[i] == '-' || (Boundary(s, i) && IsDigit(s[i]))
  {
    var p := if s[i] == '-' then i + 1 else i;
    var whole := DigitsEnd(s, p);
    var r := NumberAt(s, i).value;
    NumberAtCandidate(s, i, p, whole, r);
    if r in WithExponent(s, whole) {
      WithExponentLexemes(s, i, p, whole, whole);
    } else {
      WithExponentLexemes(s, i, p, whole, DigitsEnd(s, whole + 1));
    }
  }

  /** Where a number token ends: after the digit run, with or without a fraction, and possibly an exponent. */
  lemma NumberAtCandidate(s: string, i: nat, p: nat, whole: nat, r: nat)
    requires i < |s| && p == (if s[i] == '-' then i + 1 else i)
    requires NumberAt(s, i) == Some(r) && p < |s| && whole == DigitsEnd(s, p)
    ensures IsDigit(s[p]) && Boundary(s, p) && Boundary(s, r)
    ensures r in WithExponent(s, whole) ||
      (whole + 1 < |s| && s[whole] == '.' && IsDigit(s[whole + 1]) && r in WithExponent(s, DigitsEnd(s, whole + 1)))
  {
  }

  datatype Kind = KeyToken | StringToken | KeywordToken | NumberToken

  /** A match of the highlighting pattern: which alternative matched and where the match ends. */
  datatype Token = Token(kind: Kind, end: nat)

  /** The highlighting pattern at `i`, its alternatives tried in order. */
  function MatchAt(s: string, i: nat): (r: Option<Token>)
    requires i < |s|
    ensures r.Some? ==> i < r.value.end <= |s|
  {
    match KeyAt(s, i)
    case Some(e) => Some(Token(KeyToken, e))
    case None =>
      match StringAt(s, i)
      case Some(e) => Some(Token(StringToken, e))
      case None =>
        match KeywordAt(s, i)
        case Some(e) => Some(Token(KeywordToken, e))
        case None =>
          match NumberAt(s, i)
          case Some(e) => Some(Token(NumberToken, e))
          case None => None
  }

  const Backslash: char := '\\'

  /**
   * `prettifyJsonStringLiteral`: inside the quotes, the escapes `\r\n` and
   * `\n` become a newline and `\t` two spaces; shorter input is returned as is.
   */
  function PrettifyJsonStringLiteral(s: string): string {
    if |s| < 2 then s
    else
      var inner := s[1..|s| - 1];
      var lines := ReplaceAll(ReplaceAll(inner, [Backslash, 'r', Backslash, 'n'], "\n"), [Backslash, 'n'], "\n");
      "\"" + ReplaceAll(lines, [Backslash, 't'], "  ") + "\""
  }

  /** No `a` in `t` is directly followed by `b`. */
  predicate NoPair(t: string, a: char, b: char) {
    forall k | 0 <= k < |t| - 1 :: !(t[k] == a && t[k + 1] == b)
  }

  /** Replacing the pair `ab` by a text that has no `a` and does not start with `b` leaves no such pair. */
  lemma {:induction false} ReplacePairGone(s: string, a: char, b: char, rep: string)
    requires |rep| > 0 && a !in rep && rep[0] != b
    ensures NoPair(ReplaceAll(s, [a, b], rep), a, b)
    ensures var r := ReplaceAll(s, [a, b], rep); |r| > 0 && r[0] == b ==> |s| > 0 && s[0] == b
    decreases |s|
  {
    var r := ReplaceAll(s, [a, b], rep);
    if |s| < 2 {
    } else if s[..2] == [a, b] {
      ReplacePairGone(s[2..], a, b, rep);
      var rest := ReplaceAll(s[2..], [a, b], rep);
      assert r == rep + rest;
      forall k | 0 <= k < |r| - 1 ensures !(r[k] == a && r[k + 1] == b) {
        if k < |rep| {
          assert r[k] == rep[k];
        } else {
          assert r[k] == rest[k - |rep|] && r[k + 1] == rest[k + 1 - |rep|];
        }
      }
    } else {
      ReplacePairGone(s[1..], a, b, rep);
      var rest := ReplaceAll(s[1..], [a, b], rep);
      assert r == [s[0]] + rest;
      forall k | 0 <= k < |r| - 1 ensures !(r[k] == a && r[k + 1] == b) {
        if k > 0 {
          assert r[k] == rest[k - 1] && r[k + 1] == rest[k];
        }
      }
    }
  }

  /** Replacing a pattern whose first character does not occur changes nothing. */
  lemma {:induction false} ReplaceAbsent(s: string, pat: string, rep: string)
    requires |pat| > 0 && pat[0] !in s
    ensures ReplaceAll(s, pat, rep) == s
    decreases |s|
  {
    if |s| >= |pat| {
      assert s[..|pat|][0] == s[0];
      ReplaceAbsent(s[1..], pat, rep);
      assert s == [s[0]] + s[1..];
    }
  }

  /** A prettified literal of two or more characters keeps its quotes and contains no `\t` escape. */
  lemma PrettifyShape(s: string)
    requires |s| >= 2
    ensures var r := PrettifyJsonStringLiteral(s);
      |r| >= 2 && r[0] == '"' && r[|r| - 1] == '"' && NoPair(r, Backslash, 't')
  {
    var inner := s[1..|s| - 1];
    var lines := ReplaceAll(ReplaceAll(inner, [Backslash, 'r', Backslash, 'n'], "\n"), [Backslash, 'n'], "\n");
    var body := ReplaceAll(lines, [Backslash, 't'], "  ");
    ReplacePairGone(lines, Backslash, 't', "  ");
    var r := "\"" + body + "\"";
    forall k | 0 <= k < |r| - 1 ensures !(r[k] == Backslash && r[k + 1] == 't') {
      if 0 < k < |r| - 2 {
        assert r[k] == body[k - 1] && r[k + 1] == body[k];
      }
    }
  }

  /** A quoted literal without backslashes is displayed as it is. */
  lemma PrettifyPlain(s: string)
    requires Backslash !in s
    requires |s| >= 2 ==> s[0] == '"' && s[|s| - 1] == '"'
    ensures PrettifyJsonStringLiteral(s) == s
  {
    if |s| >= 2 {
      var inner := s[1..|s| - 1];
      ReplaceAbsent(inner, [Backslash, 'r', Backslash, 'n'], "\n");
      ReplaceAbsent(inner, [Backslash, 'n'], "\n");
      ReplaceAbsent(inner, [Backslash, 't'], "  ");
      assert s == "\"" + inner + "\"";
    }
  }

  /** Replacing in text after a prefix that cannot start the pattern leaves the prefix alone. */
  lemma {:induction false} ReplaceSkip(a: string, x: string, pat: string, rep: string)
    requires |pat| > 0 && pat[0] !in a
    ensures ReplaceAll(a + x, pat, rep) == a + ReplaceAll(x, pat, rep)
    decreases |a|
  {
    if a != [] {
      var t := a + x;
      if |t| >= |pat| {
        assert t[..|pat|][0] == a[0];
        assert t[1..] == a[1..] + x;
        ReplaceSkip(a[1..], x, pat, rep);
        assert a == [a[0]] + a[1..];
      } else {
        assert |x| < |pat|;
      }
    } else {
      assert a + x == x;
    }
  }

  /**
   * `\r\n` is one line break, not two: the longer escape is replaced before
   * `\n`, whatever backslash-free text surrounds it.
   */
  lemma PrettifyCrLf(a: string, b: string)
    requires Backslash !in a && Backslash !in b
    ensures PrettifyJsonStringLiteral("\"" + a + [Backslash, 'r', Backslash, 'n'] + b + "\"") == "\"" + a + "\n" + b + "\""
  {
    CrLfBody(a, b);
    PrettifyQuoted(a + [Backslash, 'r', Backslash, 'n'] + b);
    Regroup("\"", a, [Backslash, 'r', Backslash, 'n'], b);
    Regroup("\"", a, "\n", b);
  }

  /** Regrouping a concatenation, kept apart so that the literal quotes are not unfolded alongside the replacements. */
  lemma Regroup(q: string, a: string, m: string, b: string)
    ensures q + a + m + b + q == q + (a + m + b) + q
  {
  }

  /** The three replacements turn the one `\r\n` escape in backslash-free text into a newline. */
  lemma CrLfBody(a: string, b: string)
    requires Backslash !in a && Backslash !in b
    ensures var inner := a + [Backslash, 'r', Backslash, 'n'] + b;
      ReplaceAll(ReplaceAll(ReplaceAll(inner, [Backslash, 'r', Backslash, 'n'], "\n"), [Backslash, 'n'], "\n"), [Backslash, 't'], "  ")
      == a + "\n" + b
  {
    var lines := a + "\n" + b;
    CrLfLine(a, b);
    assert Backslash !in lines;
    ReplaceAbsent(lines, [Backslash, 'n'], "\n");
    ReplaceAbsent(lines, [Backslash, 't'], "  ");
  }

  /** Prettifying a quoted text works on the text between the quotes. */
  lemma PrettifyQuoted(inner: string)
    ensures PrettifyJsonStringLiteral("\"" + inner + "\"") ==
      "\"" + ReplaceAll(ReplaceAll(ReplaceAll(inner, [Backslash, 'r', Backslash, 'n'], "\n"), [Backslash, 'n'], "\n"), [Backslash, 't'], "  ") + "\""
  {
    var s := "\"" + inner + "\"";
    assert s[1..|s| - 1] == inner;
  }

  /** The one `\r\n` escape in backslash-free text becomes a newline. */
  lemma CrLfLine(a: string, b: string)
    requires Backslash !in a && Backslash !in b
    ensures ReplaceAll(a + [Backslash, 'r', Backslash, 'n'] + b, [Backslash, 'r', Backslash, 'n'], "\n") == a + "\n" + b
  {
    var crlf: string := [Backslash, 'r', Backslash, 'n'];
    assert a + crlf + b == a + (crlf + b);
    ReplaceSkip(a, crlf + b, crlf, "\n");
    assert (crlf + b)[..4] == crlf && (crlf + b)[4..] == b;
    ReplaceAbsent(b, crlf, "\n");
    assert a + ("\n" + b) == a + "\n" + b;
  }

  function Tag(name: string): string { "<" + name + ">" }

  /** The opening tag name of a coloured span, light and dark variants. */
  function SpanFor(color: string): string {
    "span class=\"text-" + color + "-700 dark:text-" + color + "-300\""
  }

  const KeySpan := SpanFor("sky")
  const StringSpan := SpanFor("emerald")
  const KeywordSpan := SpanFor("purple")
  const NumberSpan := SpanFor("amber")
  const EndSpan := "/span"

  lemma SpansAreTagNames()
    ensures '>' !in KeySpan && '>' !in StringSpan && '>' !in KeywordSpan && '>' !in NumberSpan && '>' !in EndSpan
  {
    assert '>' !in "span class=\"text-" && '>' !in "-700 dark:text-" && '>' !in "-300\"";
    assert '>' !in "sky" && '>' !in "emerald" && '>' !in "purple" && '>' !in "amber";
  }

  function Wrap(span: string, text: string): string {
    Tag(span) + text + Tag(EndSpan)
  }

  /** The replacement for a match: a key loses its colon into the span's tail, a string literal is prettified. */
  function Render(s: string, i: nat, t: Token): string
    requires i < t.end <= |s|
  {
    match t.kind
    case KeyToken => Wrap(KeySpan, s[i..t.end - 1]) + ":"
    case StringToken => Wrap(StringSpan, PrettifyJsonStringLiteral(s[i..t.end]))
    case KeywordToken => Wrap(KeywordSpan, s[i..t.end])
    case NumberToken => Wrap(NumberSpan, s[i..t.end])
  }

  /** The global replace from `i` on: text between matches is copied, each match rendered, scanning resumes after it. */
  function Scan(s: string, i: nat): string
    requires i <= |s|
    decreases |s| - i
  {
    if i == |s| then []
    else match MatchAt(s, i)
      case Some(t) => Render(s, i, t) + Scan(s, t.end)
      case None => [s[i]] + Scan(s, i + 1)
  }

  /** `highlightJson`. */
  function HighlightJson(json: string): string {
    Scan(Entities.EscapeHtml(json), 0)
  }

  /** The visible text of markup: everything outside `<`…`>`. */
  function RemoveMarkup(s: string): string
    decreases |s|
  {
    if s == [] then []
    else if s[0] == '<' then RemoveMarkup(AfterTag(s[1..]))
    else [s[0]] + RemoveMarkup(s[1..])
  }

  function AfterTag(s: string): (r: string)
    ensures |r| <= |s|
  {
    if s == [] then [] else if s[0] == '>' then s[1..] else AfterTag(s[1..])
  }

  lemma {:induction false} AfterTagSkips(name: string, rest: string)
    requires '>' !in name
    ensures AfterTag(name + ">" + rest) == rest
  {
    if name != [] {
      assert (name + ">" + rest)[1..] == name[1..] + ">" + rest;
      AfterTagSkips(name[1..], rest);
    }
  }

  lemma RemoveTag(name: string, rest: string)
    requires '>' !in name
    ensures RemoveMarkup(Tag(name) + rest) == RemoveMarkup(rest)
  {
    assert (Tag(name) + rest)[1..] == name + ">" + rest;
    AfterTagSkips(name, rest);
  }

  lemma {:induction false} RemovePlain(text: string, rest: string)
    requires '<' !in text
    ensures RemoveMarkup(text + rest) == text + RemoveMarkup(rest)
  {
    if text != [] {
      assert text[0] in text;
      assert (text + rest)[0] == text[0];
      assert (text + rest)[1..] == text[1..] + rest;
      assert '<' !in text[1..] by {
        forall k | 0 <= k < |text[1..]| ensures text[1..][k] != '<' {
          assert text[1..][k] == text[k + 1];
        }
      }
      RemovePlain(text[1..], rest);
      assert text == [text[0]] + text[1..];
    } else {
      assert text + rest == rest;
    }
  }

  lemma RemoveWrap(span: string, text: string, rest: string)
    requires '>' !in span && '<' !in text
    ensures RemoveMarkup(Wrap(span, text) + rest) == text + RemoveMarkup(rest)
  {
    assert Wrap(span, text) + rest == Tag(span) + (text + (Tag(EndSpan) + rest));
    RemoveTag(span, text + (Tag(EndSpan) + rest));
    SpansAreTagNames();
    RemovePlain(text, Tag(EndSpan) + rest);
    RemoveTag(EndSpan, rest);
  }

  /** Without quotes in the text only the keyword and number alternatives can match. */
  lemma MatchWithoutQuotes(s: string, i: nat)
    requires i < |s| && '"' !in s
    ensures MatchAt(s, i).Some? ==> MatchAt(s, i).value.kind in {KeywordToken, NumberToken}
  {
    assert s[i] != '"';
  }

  /** On text without `<`, `>` and `"`, removing the markup of the highlighted text gives the text back. */
  lemma {:induction false} ScanKeepsText(s: string, i: nat)
    requires i <= |s| && '<' !in s && '>' !in s && '"' !in s
    ensures RemoveMarkup(Scan(s, i)) == s[i..]
    decreases |s| - i
  {
    if i < |s| {
      MatchWithoutQuotes(s, i);
      match MatchAt(s, i)
      case Some(t) =>
        ScanKeepsText(s, t.end);
        var span := if t.kind == KeywordToken then KeywordSpan else NumberSpan;
        assert Render(s, i, t) == Wrap(span, s[i..t.end]);
        SpansAreTagNames();
        WrappedTokenKeepsText(s, i, t.end, span, Scan(s, t.end));
      case None =>
        ScanKeepsText(s, i + 1);
        RemovePlain([s[i]], Scan(s, i + 1));
        assert s[i..] == [s[i]] + s[i + 1..];
    }
  }

  /** One step of `ScanKeepsText`: the visible text of a wrapped token followed by the rest is the token and the rest's text. */
  lemma WrappedTokenKeepsText(s: string, i: nat, end: nat, span: string, rest: string)
    requires i < end <= |s| && '<' !in s && '>' !in span
    requires RemoveMarkup(rest) == s[end..]
    ensures RemoveMarkup(Wrap(span, s[i..end]) + rest) == s[i..]
  {
    var text := s[i..end];
    assert '<' !in text by {
      forall k | 0 <= k < |text| ensures text[k] != '<' {
        assert text[k] == s[i + k];
      }
    }
    RemoveWrap(span, text, rest);
    assert s[i..] == text + s[end..];
  }

  /**
   * Highlighting changes only markup: escaping removes every quote, so
   * the key and string-literal alternatives never match, and what remains
   * visible is exactly the escaped text.
   */
  lemma HighlightKeepsEscapedText(json: string)
    ensures RemoveMarkup(HighlightJson(json)) == Entities.EscapeHtml(json)
    ensures forall i | 0 <= i < |Entities.EscapeHtml(json)| ::
      KeyAt(Entities.EscapeHtml(json), i).None? && StringAt(Entities.EscapeHtml(json), i).None?
  {
    var s := Entities.EscapeHtml(json);
    Entities.EscapeHtmlShape(json);
    ScanKeepsText(s, 0);
    forall i | 0 <= i < |s| ensures KeyAt(s, i).None? && StringAt(s, i).None? {
      assert s[i] != '"';
    }
  }
}
