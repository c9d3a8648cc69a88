/**
 * The account-connection part of the tool-call result view: the connect
 * link in the first text segment of a result, its `token` and `app` query
 * parameters, and the state a result card keeps while the connector is
 * launched, reports back and the chat is resumed with a `Done` turn.
 */
module Connect {
  import opened Wrappers
  import opened Text

  /** The fixed prefix of a connect link. */
  const ConnectBase: string := "https://" + "pipedream.com" + "/_static/" + "connect.html"

  /** The first position at or after `k` where `pat` occurs in `text`. */
  function FindFrom(text: string, pat: string, k: nat): (r: Option<nat>)
    requires k <= |text|
    ensures r.Some? ==> k <= r.value <= |text| && pat <= text[r.value..]
    decreases |text| - k
  {
    if pat <= text[k..] then Some(k)
    else if k == |text| then None
    else FindFrom(text, pat, k + 1)
  }

  /** The position found is the first occurrence, and none is found only when there is no occurrence. */
  lemma {:induction false} FindFromIsFirst(text: string, pat: string, k: nat)
    requires k <= |text|
    ensures FindFrom(text, pat, k).Some? ==> forall m | k <= m < FindFrom(text, pat, k).value :: !(pat <= text[m..])
    ensures FindFrom(text, pat, k).None? ==> forall m | k <= m <= |text| :: !(pat <= text[m..])
    decreases |text| - k
  {
    if !(pat <= text[k..]) && k < |text| {
      FindFromIsFirst(text, pat, k + 1);
    }
  }

  /**
   * The first match of the pattern `base[...]*` for the character class
   * `p`: `base` at its first occurrence followed by the longest run of
   * characters in `p`. The connect link's class is `[^\s]`.
   */
  function FirstMatch(t: string, base: string, p: char -> bool): Option<string> {
    match FindFrom(t, base, 0)
    case None => None
    case Some(k) => Some(MatchAt(t, base, p, k))
  }

  /** The match starting at `k`: the base there and the run of characters in `p` after it. */
  function MatchAt(t: string, base: string, p: char -> bool, k: nat): string
    requires k + |base| <= |t|
  {
    t[k..k + |base| + Span(t[k + |base|..], p)]
  }

  /** The match found at the first occurrence `k` of the base. */
  lemma FirstMatchAt(t: string, base: string, p: char -> bool, k: nat)
    requires FindFrom(t, base, 0) == Some(k)
    ensures k + |base| <= |t|
    ensures FirstMatch(t, base, p) == Some(MatchAt(t, base, p, k))
  {
  }

  /** The connect link of the first content segment's text, which is None when the segment carries no text. */
  function ConnectLinkUrl(text: Option<string>): Option<string> {
    if text.None? then None else FirstMatch(text.value, ConnectBase, NotSpace)
  }

  /** A link is found exactly when the base occurs in the text. */
  lemma ConnectLinkFound(text: Option<string>)
    ensures ConnectLinkUrl(text).Some? <==>
      text.Some? && exists k | 0 <= k <= |text.value| :: ConnectBase <= text.value[k..]
  {
    if text.Some? {
      FindFromIsFirst(text.value, ConnectBase, 0);
    }
  }

  /**
   * `url` starts at the first occurrence `k` of `base` in `t` and ends
   * where `t` ends or a character outside `p` begins.
   */
  ghost predicate FirstLinkAt(t: string, base: string, p: char -> bool, k: nat, url: string) {
    k <= |t| && base <= t[k..] && (forall m | 0 <= m < k :: !(base <= t[m..])) &&
    url <= t[k..] && (k + |url| == |t| || !p(t[k + |url|]))
  }

  /**
   * The match starts at the first occurrence of the base, holds only
   * characters in `p` after the base, and is followed by a character
   * outside `p` or the end of the text.
   */
  lemma FirstMatchShape(t: string, base: string, p: char -> bool)
    requires FirstMatch(t, base, p).Some?
    ensures exists k | 0 <= k <= |t| :: FirstLinkAt(t, base, p, k, FirstMatch(t, base, p).value)
    ensures var url := FirstMatch(t, base, p).value;
      base <= url && forall i | |base| <= i < |url| :: p(url[i])
  {
    FindFromIsFirst(t, base, 0);
    var k := FindFrom(t, base, 0).value;
    FirstMatchAt(t, base, p, k);
    LinkSlice(t, base, p, k);
    assert FirstLinkAt(t, base, p, k, MatchAt(t, base, p, k));
  }

  lemma LinkSlice(t: string, base: string, p: char -> bool, k: nat)
    requires k + |base| <= |t| && base <= t[k..]
    ensures var url := MatchAt(t, base, p, k);
      url <= t[k..] && base <= url && (forall i | |base| <= i < |url| :: p(url[i])) &&
      (k + |url| == |t| || !p(t[k + |url|]))
  {
    var rest := t[k + |base|..];
    var n := Span(rest, p);
    var url := t[k..k + |base| + n];
    assert url == MatchAt(t, base, p, k);
    assert url[..|base|] == t[k..][..|base|];
    forall i | |base| <= i < |url| ensures p(url[i]) {
      assert url[i] == rest[i - |base|];
    }
    if k + |url| < |t| {
      assert t[k + |url|] == rest[n];
    }
  }

  /** The index of the first `c` in `s`, or `|s|` if there is none. */
  function IndexOf(s: string, c: char): (n: nat)
    ensures n <= |s| && (forall k | 0 <= k < n :: s[k] != c) && (n < |s| ==> s[n] == c)
  {
    if s == [] || s[0] == c then 0 else 1 + IndexOf(s[1..], c)
  }

  lemma {:induction false} IndexOfIs(s: string, c: char, n: nat)
    requires n <= |s| && (forall k | 0 <= k < n :: s[k] != c) && (n < |s| ==> s[n] == c)
    ensures IndexOf(s, c) == n
  {
    if n > 0 {
      IndexOfIs(s[1..], c, n - 1);
    }
  }

  /** The query of a URL: what follows the first `?` before the fragment. */
  function QueryOf(url: string): string {
    var beforeFragment := url[..IndexOf(url, '#')];
    var q := IndexOf(beforeFragment, '?');
    if q == |beforeFragment| then [] else beforeFragment[q + 1..]
  }

  /** A `name=value` pair: the name before the first `=` and the value after it, empty when there is no `=`. */
  function PairName(pair: string): string { pair[..IndexOf(pair, '=')] }

  function PairValue(pair: string): string {
    var e := IndexOf(pair, '=');
    if e == |pair| then [] else pair[e + 1..]
  }

  /** A non-empty pair carrying the name `name`. */
  predicate Names(pair: string, name: string) {
    pair != [] && PairName(pair) == name
  }

  /** `searchParams.get(name)` over the `&`-separated pairs: the first non-empty pair with that name wins. */
  function Lookup(pairs: seq<string>, name: string): Option<string> {
    if pairs == [] then None
    else if Names(pairs[0], name) then Some(PairValue(pairs[0]))
    else Lookup(pairs[1..], name)
  }

  /**
   * The lookup finds the value of the first pair with the name, at the
   * position `k` returned, and finds nothing exactly when no pair has the name.
   */
  lemma {:induction false} LookupIsFirst(pairs: seq<string>, name: string) returns (k: nat)
    ensures k <= |pairs| && forall m | 0 <= m < k :: !Names(pairs[m], name)
    ensures Lookup(pairs, name).None? <==> k == |pairs|
    ensures Lookup(pairs, name).Some? ==> k < |pairs| && Names(pairs[k], name) && Lookup(pairs, name).value == PairValue(pairs[k])
  {
    if pairs == [] || Names(pairs[0], name) {
      k := 0;
    } else {
      var j := LookupIsFirst(pairs[1..], name);
      k := j + 1;
      forall m | 0 <= m < k ensures !Names(pairs[m], name) {
        if m > 0 {
          assert pairs[m] == pairs[1..][m - 1];
        }
      }
      if j < |pairs[1..]| {
        assert pairs[k] == pairs[1..][j];
      }
    }
  }

  function SearchParam(query: string, name: string): Option<string> {
    Lookup(Split(query, '&'), name)
  }

  /** `value || undefined`: an empty value counts as absent. */
  function NonEmpty(value: Option<string>): (r: Option<string>)
    ensures r.Some? <==> value.Some? && value.value != []
    ensures r.Some? ==> r == value
  {
    if value.Some? && value.value != [] then value else None
  }

  datatype ConnectParams = ConnectParams(token: Option<string>, app: Option<string>)

  /**
   * The `token` and `app` of the first connect link: a present parameter is
   * non-empty and is the value of the first pair with its name in the link's query.
   */
  function ExtractConnectParams(text: Option<string>): (r: ConnectParams)
    ensures ConnectLinkUrl(text).None? ==> r == ConnectParams(None, None)
    ensures r.token.Some? ==> r.token.value != []
    ensures r.app.Some? ==> r.app.value != []
  {
    match ConnectLinkUrl(text)
    case None => ConnectParams(None, None)
    case Some(url) =>
      var query := QueryOf(url);
      ConnectParams(NonEmpty(SearchParam(query, "token")), NonEmpty(SearchParam(query, "app")))
  }

  /** Once the first occurrence lies inside `a`, text appended after `a` does not move it. */
  lemma {:induction false} FindFromExtend(a: string, b: string, pat: string, k: nat)
    requires k <= |a| && FindFrom(a, pat, k).Some? && FindFrom(a, pat, k).value + |pat| <= |a|
    ensures FindFrom(a + b, pat, k) == FindFrom(a, pat, k)
    decreases |a| - k
  {
    var r := FindFrom(a, pat, k).value;
    PrefixOfAppend(a, b, pat, k);
    if !(pat <= a[k..]) {
      assert k < r && k < |a|;
      FindFromExtend(a, b, pat, k + 1);
    }
  }

  /** Whether `pat` starts at `k` does not depend on what follows `a` when `pat` fits in `a`. */
  lemma PrefixOfAppend(a: string, b: string, pat: string, k: nat)
    requires k + |pat| <= |a|
    ensures (pat <= (a + b)[k..]) == (pat <= a[k..])
  {
    assert (a + b)[k..][..|pat|] == a[k..][..|pat|];
  }

  /**
   * Only the first match counts: once a text holds a match and ends in a
   * character outside `p`, anything appended to it leaves the match as it was.
   */
  lemma FirstMatchIgnoresLater(a: string, b: string, base: string, p: char -> bool)
    requires FirstMatch(a, base, p).Some? && |base| > 0 && p(base[|base| - 1])
    requires |a| > 0 && !p(a[|a| - 1])
    ensures FirstMatch(a + b, base, p) == FirstMatch(a, base, p)
  {
    var k := FindFrom(a, base, 0).value;
    MatchEndsBeforeStop(a, base, p, k);
    FindFromExtend(a, b, base, 0);
    MatchAtExtend(a, b, base, p, k);
    FirstMatchAt(a, base, p, k);
    FirstMatchAt(a + b, base, p, k);
  }

  /** A match that stops inside `a` is the same in any extension of `a`. */
  lemma MatchAtExtend(a: string, b: string, base: string, p: char -> bool, k: nat)
    requires k + |base| <= |a| && Span(a[k + |base|..], p) < |a| - (k + |base|)
    ensures MatchAt(a + b, base, p, k) == MatchAt(a, base, p, k)
  {
    var j := k + |base|;
    SliceOfAppend(a, b, j);
    SpanExtend(a[j..], b, p);
    SliceRangeOfAppend(a, b, k, j + Span(a[j..], p));
  }

  /** A match in a text that ends in a character outside `p` ends before it. */
  lemma MatchEndsBeforeStop(a: string, base: string, p: char -> bool, k: nat)
    requires k <= |a| && base <= a[k..] && |base| > 0 && p(base[|base| - 1])
    requires |a| > 0 && !p(a[|a| - 1])
    ensures k + |base| < |a|
    ensures Span(a[k + |base|..], p) < |a| - (k + |base|)
  {
    assert a[k..][|base| - 1] == base[|base| - 1];
    var rest := a[k + |base|..];
    assert rest[|rest| - 1] == a[|a| - 1];
  }

  /** A run that stops inside `a` is not lengthened by appending to `a`. */
  lemma SpanExtend(a: string, b: string, p: char -> bool)
    requires Span(a, p) < |a|
    ensures Span(a + b, p) == Span(a, p)
  {
    var n := Span(a, p);
    forall i | 0 <= i < n ensures p((a + b)[i]) {
      assert (a + b)[i] == a[i];
    }
    assert (a + b)[n] == a[n];
    SpanIs(a + b, p, n);
  }

  lemma SliceRangeOfAppend(a: string, b: string, i: nat, j: nat)
    requires i <= j <= |a|
    ensures (a + b)[i..j] == a[i..j]
  {
  }

  lemma SliceOfAppend(a: string, b: string, j: nat)
    requires j <= |a|
    ensures (a + b)[j..] == a[j..] + b
  {
  }

  /** The facts about the connect base the lemmas below rely on. */
  lemma BaseFacts()
    ensures |ConnectBase| > 0 && ConnectBase[0] == 'h' && ConnectBase[|ConnectBase| - 1] == 'l'
    ensures '#' !in ConnectBase && '?' !in ConnectBase
  {
    var p1, p2, p3, p4 := "https://", "pipedream.com", "/_static/", "connect.html";
    assert ConnectBase == p1 + p2 + p3 + p4;
    assert '#' !in p1 && '#' !in p2 && '#' !in p3 && '#' !in p4;
    assert '?' !in p1 && '?' !in p2 && '?' !in p3 && '?' !in p4;
  }

  /**
   * Only the first link counts: once a text holds a link followed by white
   * space, anything appended to it, other links included, leaves the
   * extracted link and parameters as they were.
   */
  lemma LaterLinksIgnored(a: string, b: string)
    requires ConnectLinkUrl(Some(a)).Some? && |a| > 0 && IsSpace(a[|a| - 1])
    ensures ConnectLinkUrl(Some(a + b)) == ConnectLinkUrl(Some(a))
    ensures ExtractConnectParams(Some(a + b)) == ExtractConnectParams(Some(a))
  {
    BaseFacts();
    assert NotSpace('l');
    FirstMatchIgnoresLater(a, b, ConnectBase, NotSpace);
  }

  /** `base` occurs in `t` at no position before `n`. */
  predicate NoBaseBefore(t: string, base: string, n: nat)
    requires n <= |t|
  {
    forall m | 0 <= m < n :: !(base <= t[m..])
  }

  /** Searching from `j` finds `k` when the base is at `k` and nowhere from `j` up to `k`. */
  lemma {:induction false} FindAtFrom(t: string, base: string, j: nat, k: nat)
    requires j <= k <= |t| && base <= t[k..]
    requires forall m | j <= m < k :: !(base <= t[m..])
    ensures FindFrom(t, base, j) == Some(k)
    decreases k - j
  {
    if j < k {
      FindAtFrom(t, base, j + 1, k);
    }
  }

  /**
   * A text holding one match: when the base occurs nowhere before it, the
   * match runs from the base up to the next character outside `p`.
   */
  lemma FirstMatchInText(pre: string, base: string, p: char -> bool, query: string, post: string)
    requires NoBaseBefore(pre + base + query + post, base, |pre|)
    requires forall i | 0 <= i < |query| :: p(query[i])
    requires post == [] || !p(post[0])
    ensures FirstMatch(pre + base + query + post, base, p) == Some(base + query)
  {
    var link := base + query + post;
    assert pre + base + query + post == pre + link;
    assert (pre + link)[|pre|..] == link;
    FindAtFrom(pre + link, base, 0, |pre|);
    FirstMatchAt(pre + link, base, p, |pre|);
    MatchAtDrop(pre + link, base, p, |pre|);
    MatchOfLink(base, p, query, post);
  }

  /** A match depends only on the text from its start on. */
  lemma MatchAtDrop(t: string, base: string, p: char -> bool, k: nat)
    requires k + |base| <= |t|
    ensures MatchAt(t, base, p, k) == MatchAt(t[k..], base, p, 0)
  {
    assert t[k..][|base|..] == t[k + |base|..];
    var n := Span(t[k + |base|..], p);
    assert t[k..][0..|base| + n] == t[k..k + |base| + n];
  }

  /** The match at the start of `base + query + post` is `base + query`. */
  lemma MatchOfLink(base: string, p: char -> bool, query: string, post: string)
    requires forall i | 0 <= i < |query| :: p(query[i])
    requires post == [] || !p(post[0])
    ensures MatchAt(base + query + post, base, p, 0) == base + query
  {
    var link := base + query + post;
    var k := |base|;
    forall i | k <= i < k + |query| ensures p(link[i]) {
      assert link[i] == query[i - k];
    }
    if post != [] {
      assert link[k + |query|] == post[0];
    }
    MatchAtRun(link, base, p, 0, |query|);
    assert link[0..k + |query|] == base + query;
  }

  /** The match at `k` whose run after the base is known to have length `n`. */
  lemma MatchAtRun(t: string, base: string, p: char -> bool, k: nat, n: nat)
    requires k + |base| + n <= |t|
    requires forall i | k + |base| <= i < k + |base| + n :: p(t[i])
    requires k + |base| + n == |t| || !p(t[k + |base| + n])
    ensures MatchAt(t, base, p, k) == t[k..k + |base| + n]
  {
    var j := k + |base|;
    var rest := t[j..];
    forall i | 0 <= i < n ensures p(rest[i]) {
      assert rest[i] == t[j + i];
      assert p(t[j + i]);
    }
    if j + n < |t| {
      assert rest[n] == t[j + n];
    }
    SpanIs(rest, p, n);
  }

  /** The query of a link is what follows a `?` right after a base free of `?` and `#`. */
  lemma QueryAfterBase(base: string, query: string)
    requires '#' !in base && '?' !in base
    requires |query| > 0 && query[0] == '?' && '#' !in query
    ensures QueryOf(base + query) == query[1..]
  {
    var url := base + query;
    assert '#' !in url;
    IndexOfIs(url, '#', |url|);
    assert url[..|url|] == url;
    forall i | 0 <= i < |base| ensures url[i] != '?' {
      assert url[i] == base[i];
    }
    IndexOfIs(url, '?', |base|);
  }

  predicate NoSpaces(s: string) {
    forall i | 0 <= i < |s| :: NotSpace(s[i])
  }

  lemma NoSpacesAppend(a: string, b: string)
    requires NoSpaces(a) && NoSpaces(b)
    ensures NoSpaces(a + b)
  {
    forall i | 0 <= i < |a + b| ensures NotSpace((a + b)[i]) {
      if i >= |a| { assert (a + b)[i] == b[i - |a|]; }
    }
  }

  /** A pair `name=value` whose name has no `=`. */
  lemma PairParts(name: string, value: string)
    requires '=' !in name
    ensures PairName(name + "=" + value) == name && PairValue(name + "=" + value) == value
  {
    var pair := name + "=" + value;
    forall k | 0 <= k < |name| ensures pair[k] != '=' {
      assert pair[k] == name[k];
    }
    IndexOfIs(pair, '=', |name|);
    assert pair[..|name|] == name;
    assert pair[|name| + 1..] == value;
  }

  /** The query `token=T&app=A` carries `T` as its token and `A` as its app. */
  lemma TokenAppQuery(token: string, app: string)
    requires '&' !in token && '&' !in app
    ensures SearchParam("token=" + token + "&app=" + app, "token") == Some(token)
    ensures SearchParam("token=" + token + "&app=" + app, "app") == Some(app)
  {
    var first, second := "token=" + token, "app=" + app;
    assert '&' !in "token=";
    assert '&' !in first;
    assert "token=" + token + "&app=" + app == first + ['&'] + second;
    assert '&' !in "app=";
    assert '&' !in second;
    SplitAfterPiece(first, second, '&');
    SplitNoSep(second, '&');
    assert Split(first + ['&'] + second, '&') == [first, second];
    assert "token=" + token == "token" + "=" + token;
    assert "app=" + app == "app" + "=" + app;
    PairParts("token", token);
    PairParts("app", app);
    assert [first, second][1..] == [second];
    assert Lookup([second], "app") == Some(app);
    assert Lookup([first, second], "app") == Lookup([second], "app");
  }

  /** The query `token=T` carries `T` as its token and no app. */
  lemma TokenOnlyQuery(token: string)
    requires '&' !in token
    ensures SearchParam("token=" + token, "token") == Some(token)
    ensures SearchParam("token=" + token, "app") == None
  {
    var first := "token=" + token;
    assert '&' !in "token=";
    assert '&' !in first;
    SplitNoSep(first, '&');
    assert first == "token" + "=" + token;
    PairParts("token", token);
    assert [first][1..] == [];
    assert Lookup([first], "app") == Lookup([], "app");
  }

  /** The parameters of a text holding one link are read from that link's query. */
  lemma ExtractFromLink(text: string, pre: string, query: string, post: string)
    requires text == pre + ConnectBase + query + post && NoBaseBefore(text, ConnectBase, |pre|)
    requires post == [] || IsSpace(post[0])
    requires NoSpaces(query) && |query| > 0 && query[0] == '?' && '#' !in query
    ensures ExtractConnectParams(Some(text)) ==
      ConnectParams(NonEmpty(SearchParam(query[1..], "token")), NonEmpty(SearchParam(query[1..], "app")))
  {
    BaseFacts();
    FirstMatchInText(pre, ConnectBase, NotSpace, query, post);
    QueryAfterBase(ConnectBase, query);
  }

  /** A link carrying non-empty `token=T&app=A` yields both parameters. */
  lemma ExtractTokenAndApp(pre: string, token: string, app: string, post: string)
    requires NoBaseBefore(pre + ConnectBase + ("?token=" + token + "&app=" + app) + post, ConnectBase, |pre|)
    requires post == [] || IsSpace(post[0])
    requires token != [] && app != [] && NoSpaces(token) && NoSpaces(app)
    requires '&' !in token && '&' !in app && '#' !in token && '#' !in app
    ensures ExtractConnectParams(Some(pre + ConnectBase + ("?token=" + token + "&app=" + app) + post))
      == ConnectParams(Some(token), Some(app))
  {
    var q := "?token=" + token + "&app=" + app;
    TokenAppLinkQuery(token, app);
    ExtractFromLink(pre + ConnectBase + q + post, pre, q, post);
    TokenAppQuery(token, app);
  }

  lemma TokenAppLinkQuery(token: string, app: string)
    requires NoSpaces(token) && NoSpaces(app) && '#' !in token && '#' !in app
    ensures var q := "?token=" + token + "&app=" + app;
      NoSpaces(q) && |q| > 0 && q[0] == '?' && '#' !in q && q[1..] == "token=" + token + "&app=" + app
  {
    assert NoSpaces("?token=") && NoSpaces("&app=");
    NoSpacesAppend("?token=", token);
    NoSpacesAppend("?token=" + token, "&app=");
    NoSpacesAppend("?token=" + token + "&app=", app);
    assert '#' !in "?token=" && '#' !in "&app=";
    var q := "?token=" + token + "&app=" + app;
    assert q[1..] == "token=" + token + "&app=" + app;
  }

  /** The same link without the `app` pair yields a token only, so clicking its button launches nothing. */
  lemma ExtractTokenOnly(pre: string, token: string, post: string)
    requires NoBaseBefore(pre + ConnectBase + ("?token=" + token) + post, ConnectBase, |pre|)
    requires post == [] || IsSpace(post[0])
    requires token != [] && NoSpaces(token) && '&' !in token && '#' !in token
    ensures ExtractConnectParams(Some(pre + ConnectBase + ("?token=" + token) + post)) == ConnectParams(Some(token), None)
  {
    var q := "?token=" + token;
    TokenLinkQuery(token);
    ExtractFromLink(pre + ConnectBase + q + post, pre, q, post);
    TokenOnlyQuery(token);
  }

  lemma TokenLinkQuery(token: string)
    requires NoSpaces(token) && '#' !in token
    ensures var q := "?token=" + token;
      NoSpaces(q) && |q| > 0 && q[0] == '?' && '#' !in q && q[1..] == "token=" + token
  {
    assert NoSpaces("?token=");
    NoSpacesAppend("?token=", token);
    assert '#' !in "?token=";
    var q := "?token=" + token;
    assert q[1..] == "token=" + token;
  }

  /** What `getConnectedAccountById` reports; the icon and name come from the account's app. */
  datatype Account = Account(id: string, name: Option<string>, appName: Option<string>, appImgSrc: Option<string>)

  /** How the best-effort account fetch settles: the account, `null`, or a rejected promise. */
  datatype FetchOutcome = Found(account: Account) | NotFound | Threw

  /** One call of the connector's `connectAccount`, with the app and token it was given. */
  datatype Launch = Launch(app: string, token: string)

  /**
   * The state of one result card. The connector, the account fetch and the
   * timer are outside the model: their completions are the event methods
   * `OnSuccess`, `OnError`, `SettleFetch` and `FireTimer`; what the card has
   * started and not yet seen completed is counted in `awaitingCallback`,
   * `pendingFetches` and `armedTimers`.
   */
  class ConnectionFlow {
    const params: ConnectParams
    const hasLink: bool
    const userId: Option<string>

    var isConnected: bool
    var isLoadingAccount: bool
    var connectedAccount: Option<Account>
    /** The chat turns appended by this card. */
    var appended: seq<string>
    var launches: seq<Launch>
    var awaitingCallback: nat
    /** Account ids whose detail fetch has not settled. */
    var pendingFetches: seq<string>
    var armedTimers: nat

    ghost var successes: nat
    ghost var errors: nat

    /** Nothing is rendered without a user id. */
    predicate Rendered()
      reads this
    {
      userId.Some? && userId.value != []
    }

    /** The connect button shows whenever a link matched and the card is not connected. */
    predicate ButtonShown()
      reads this
    {
      Rendered() && hasLink && !isConnected
    }

    /**
     * Every launch gets one callback; every success leads to exactly one
     * `Done` turn, now pending as a fetch, an armed timer or already
     * appended; the card is connected exactly when some success came back.
     */
    ghost predicate Valid()
      reads this
    {
      |launches| == successes + errors + awaitingCallback &&
      successes == |pendingFetches| + armedTimers + |appended| &&
      (forall k | 0 <= k < |appended| :: appended[k] == "Done") &&
      (isConnected <==> successes > 0) &&
      (isLoadingAccount ==> |pendingFetches| > 0) &&
      (forall k | 0 <= k < |launches| :: params.app == Some(launches[k].app) && params.token == Some(launches[k].token)) &&
      (|launches| > 0 ==> Rendered() && hasLink)
    }

    constructor (text: Option<string>, userId: Option<string>)
      ensures Valid()
      ensures this.params == ExtractConnectParams(text) && this.hasLink == ConnectLinkUrl(text).Some?
      ensures this.userId == userId
      ensures !isConnected && !isLoadingAccount && connectedAccount.None?
      ensures appended == [] && launches == [] && awaitingCallback == 0 && pendingFetches == [] && armedTimers == 0
      ensures ButtonShown() <==> Rendered() && ConnectLinkUrl(text).Some?
    {
      params := ExtractConnectParams(text);
      hasLink := ConnectLinkUrl(text).Some?;
      this.userId := userId;
      isConnected := false;
      isLoadingAccount := false;
      connectedAccount := None;
      appended := [];
      launches := [];
      awaitingCallback := 0;
      pendingFetches := [];
      armedTimers := 0;
      successes := 0;
      errors := 0;
    }

    /** `connectAccount`: launch the connector when both parameters are present, otherwise do nothing. */
    method ConnectAccount()
      requires Valid() && ButtonShown()
      modifies this
      ensures Valid()
      ensures params.app.Some? && params.token.Some? ==>
        launches == old(launches) + [Launch(params.app.value, params.token.value)] &&
        awaitingCallback == old(awaitingCallback) + 1
      ensures params.app.None? || params.token.None? ==>
        launches == old(launches) && awaitingCallback == old(awaitingCallback)
      ensures isConnected == old(isConnected) && isLoadingAccount == old(isLoadingAccount)
      ensures connectedAccount == old(connectedAccount) && appended == old(appended)
      ensures pendingFetches == old(pendingFetches) && armedTimers == old(armedTimers)
    {
      if params.app.None? || params.token.None? {
        return;
      }
      launches := launches + [Launch(params.app.value, params.token.value)];
      awaitingCallback := awaitingCallback + 1;
    }

    /** `onSuccess`: connected at once, loading while the account details are fetched. */
    method OnSuccess(accountId: string)
      requires Valid() && awaitingCallback > 0
      modifies this
      ensures Valid()
      ensures isConnected && isLoadingAccount
      ensures pendingFetches == old(pendingFetches) + [accountId]
      ensures awaitingCallback == old(awaitingCallback) - 1
      ensures connectedAccount == old(connectedAccount) && appended == old(appended)
      ensures launches == old(launches) && armedTimers == old(armedTimers)
    {
      isConnected := true;
      isLoadingAccount := true;
      pendingFetches := pendingFetches + [accountId];
      awaitingCallback := awaitingCallback - 1;
      successes := successes + 1;
    }

    /** `onError`: only logged; the card's state stays as it was. */
    method OnError()
      requires Valid() && awaitingCallback > 0
      modifies this
      ensures Valid()
      ensures awaitingCallback == old(awaitingCallback) - 1
      ensures isConnected == old(isConnected) && isLoadingAccount == old(isLoadingAccount)
      ensures connectedAccount == old(connectedAccount) && appended == old(appended)
      ensures launches == old(launches) && pendingFetches == old(pendingFetches) && armedTimers == old(armedTimers)
    {
      awaitingCallback := awaitingCallback - 1;
      errors := errors + 1;
    }

    /**
     * The fetch for `pendingFetches[k]` settles: a found account is shown,
     * `null` clears it, a rejection leaves it; loading ends either way and
     * the one-second timer is armed. Connection is never revoked.
     */
    method SettleFetch(k: nat, outcome: FetchOutcome)
      requires Valid() && k < |pendingFetches|
      modifies this
      ensures Valid()
      ensures !isLoadingAccount && isConnected
      ensures pendingFetches == old(pendingFetches[..k] + pendingFetches[k + 1..])
      ensures armedTimers == old(armedTimers) + 1
      ensures connectedAccount == match outcome
        case Found(account) => Some(account)
        case NotFound => None
        case Threw => old(connectedAccount)
      ensures appended == old(appended) && launches == old(launches) && awaitingCallback == old(awaitingCallback)
    {
      match outcome {
        case Found(account) => connectedAccount := Some(account);
        case NotFound => connectedAccount := None;
        case Threw =>
      }
      pendingFetches := pendingFetches[..k] + pendingFetches[k + 1..];
      isLoadingAccount := false;
      armedTimers := armedTimers + 1;
    }

    /** The timer fires and appends the user turn `Done`. */
    method FireTimer()
      requires Valid() && armedTimers > 0
      modifies this
      ensures Valid()
      ensures appended == old(appended) + ["Done"] && armedTimers == old(armedTimers) - 1
      ensures isConnected == old(isConnected) && isLoadingAccount == old(isLoadingAccount)
      ensures connectedAccount == old(connectedAccount) && launches == old(launches)
      ensures pendingFetches == old(pendingFetches) && awaitingCallback == old(awaitingCallback)
    {
      appended := appended + ["Done"];
      armedTimers := armedTimers - 1;
    }
  }

  /** Both parameters present and a user to render for. */
  predicate Launchable(text: Option<string>, user: string) {
    var p := ExtractConnectParams(text);
    p.app.Some? && p.token.Some? && user != []
  }

  /** Two clicks before the connector reports back launch it twice: nothing guards a launch in flight. */
  method DoubleClick(text: Option<string>, user: string) returns (launches: seq<Launch>)
    requires Launchable(text, user)
    ensures |launches| == 2 && launches[0] == launches[1]
    ensures var p := ExtractConnectParams(text); launches[0] == Launch(p.app.value, p.token.value)
  {
    var flow := new ConnectionFlow(text, Some(user));
    flow.ConnectAccount();
    flow.ConnectAccount();
    launches := flow.launches;
  }

  /** A fetch that rejects still leaves the card connected, and the chat is resumed once. */
  method FailedFetch(text: Option<string>, user: string, accountId: string)
    returns (connected: bool, loading: bool, account: Option<Account>, turns: seq<string>)
    requires Launchable(text, user)
    ensures connected && !loading && account.None? && turns == ["Done"]
  {
    var flow := new ConnectionFlow(text, Some(user));
    flow.ConnectAccount();
    flow.OnSuccess(accountId);
    flow.SettleFetch(0, Threw);
    flow.FireTimer();
    connected, loading, account, turns := flow.isConnected, flow.isLoadingAccount, flow.connectedAccount, flow.appended;
  }

  /** After a connector error the card is unchanged: not connected, button still shown, no turn appended. */
  method ErrorAfterClick(text: Option<string>, user: string) returns (connected: bool, shown: bool, turns: seq<string>)
    requires Launchable(text, user)
    ensures !connected && shown && turns == []
  {
    var flow := new ConnectionFlow(text, Some(user));
    flow.ConnectAccount();
    flow.OnError();
    connected, shown, turns := flow.isConnected, flow.ButtonShown(), flow.appended;
  }

  /** A link missing its token or app still shows the button, but clicking it launches nothing. */
  method IncompleteLink(text: Option<string>, user: string) returns (shown: bool, launched: nat)
    requires ConnectLinkUrl(text).Some? && user != []
    requires ExtractConnectParams(text).app.None? || ExtractConnectParams(text).token.None?
    ensures shown && launched == 0
  {
    var flow := new ConnectionFlow(text, Some(user));
    shown := flow.ButtonShown();
    flow.ConnectAccount();
    launched := |flow.launches|;
  }

  /** Success followed by a found account: connected, account shown, one `Done` turn. */
  method SuccessfulConnection(text: Option<string>, user: string, account: Account)
    returns (connected: bool, shown: Option<Account>, turns: seq<string>, buttonShown: bool)
    requires Launchable(text, user)
    ensures connected && shown == Some(account) && turns == ["Done"] && !buttonShown
  {
    var flow := new ConnectionFlow(text, Some(user));
    flow.ConnectAccount();
    flow.OnSuccess(account.id);
    flow.SettleFetch(0, Found(account));
    flow.FireTimer();
    connected, shown, turns, buttonShown := flow.isConnected, flow.connectedAccount, flow.appended, flow.ButtonShown();
  }
}
