/**
 * `normalizeStringWhitespace`: unify line endings, strip trailing blanks
 * from every line, drop leading and trailing blank lines and keep at most
 * two blank lines in a row.
 */
module Whitespace {
  import opened Text

  /** `s.replace(/\r\n?/g, '\n')`. */
  function UnifyNewlines(s: string): (r: string)
    ensures '\r' !in r
    decreases |s|
  {
    if s == [] then []
    else if s[0] == '\r' then "\n" + UnifyNewlines(if |s| > 1 && s[1] == '\n' then s[2..] else s[1..])
    else [s[0]] + UnifyNewlines(s[1..])
  }

  lemma {:induction false} UnifyNewlinesWithoutCR(s: string)
    requires '\r' !in s
    ensures UnifyNewlines(s) == s
  {
    if s != [] {
      UnifyNewlinesWithoutCR(s[1..]);
      assert s == [s[0]] + s[1..];
    }
  }

  predicate IsSpaceOrTab(c: char) { c == ' ' || c == '\t' }

  predicate NoTrailingBlank(line: string) {
    line == [] || !IsSpaceOrTab(line[|line| - 1])
  }

  /** `line.replace(/[\t ]+$/g, '')`: the line without its final run of spaces and tabs. */
  function StripTrailingBlanks(line: string): (r: string)
    ensures r <= line && NoTrailingBlank(r)
    ensures forall k | |r| <= k < |line| :: IsSpaceOrTab(line[k])
  {
    line[..|line| - SpanEnd(line, IsSpaceOrTab)]
  }

  function StripEach(lines: seq<string>): seq<string> {
    seq(|lines|, k requires 0 <= k < |lines| => StripTrailingBlanks(lines[k]))
  }

  /** A line matching `/^\s*$/`. */
  predicate IsBlankLine(line: string) { AllSpace(line) }

  /** The `shift` loop: blank lines removed from the front. */
  function DropLeadingBlankLines(lines: seq<string>): seq<string> {
    if |lines| > 0 && IsBlankLine(lines[0]) then DropLeadingBlankLines(lines[1..]) else lines
  }

  /** The `pop` loop: blank lines removed from the back. */
  function DropTrailingBlankLines(lines: seq<string>): seq<string> {
    if |lines| > 0 && IsBlankLine(lines[|lines| - 1]) then DropTrailingBlankLines(lines[..|lines| - 1]) else lines
  }

  /**
   * The collapsing loop over the remaining lines, `run` being the number of
   * blank lines seen just before them: a blank line is kept, emptied, while
   * the run is at most two long, and a non-blank line resets the run.
   */
  function CollapseBlankRuns(lines: seq<string>, run: nat): seq<string> {
    if lines == [] then []
    else if IsBlankLine(lines[0]) then
      (if run + 1 <= 2 then [[]] else []) + CollapseBlankRuns(lines[1..], run + 1)
    else [lines[0]] + CollapseBlankRuns(lines[1..], 0)
  }

  /** The text after line endings are unified and every line is stripped of trailing blanks. */
  function StrippedText(input: string): string {
    Join(StripEach(Split(UnifyNewlines(input), '\n')), '\n')
  }

  /** Its lines once blank lines are dropped from both ends. */
  function TrimmedLines(input: string): seq<string> {
    DropTrailingBlankLines(DropLeadingBlankLines(Split(StrippedText(input), '\n')))
  }

  /** What `normalizeStringWhitespace` computes. */
  function NormalizedWhitespace(input: string): string {
    Join(CollapseBlankRuns(TrimmedLines(input), 0), '\n')
  }

  /** `normalizeStringWhitespace`, with the source's loops over a mutable list of lines. */
  method NormalizeStringWhitespace(input: string) returns (r: string)
    ensures r == NormalizedWhitespace(input)
    ensures NormalForm(r)
  {
    var s := UnifyNewlines(input);
    s := Join(StripEach(Split(s, '\n')), '\n');
    assert s == StrippedText(input);
    var lines := Split(s, '\n');
    while |lines| > 0 && IsBlankLine(lines[0])
      invariant DropLeadingBlankLines(lines) == DropLeadingBlankLines(Split(s, '\n'))
    {
      lines := lines[1..];
    }
    ghost var shifted := lines;
    while |lines| > 0 && IsBlankLine(lines[|lines| - 1])
      invariant DropTrailingBlankLines(lines) == DropTrailingBlankLines(shifted)
    {
      lines := lines[..|lines| - 1];
    }
    var collapsed: seq<string> := [];
    var blankRun: nat := 0;
    for i := 0 to |lines|
      invariant collapsed + CollapseBlankRuns(lines[i..], blankRun) == CollapseBlankRuns(lines, 0)
    {
      ghost var before, run := collapsed, blankRun;
      if IsBlankLine(lines[i]) {
        blankRun := blankRun + 1;
        if blankRun <= 2 {
          collapsed := collapsed + [[]];
        }
      } else {
        blankRun := 0;
        collapsed := collapsed + [lines[i]];
      }
      CollapseStep(lines, i, run, before, collapsed, blankRun);
    }
    assert lines == TrimmedLines(input);
    assert lines[|lines|..] == [];
    assert collapsed == CollapseBlankRuns(lines, 0);
    r := Join(collapsed, '\n');
    NormalizedShape(input);
  }

  /** One iteration of the collapsing loop moves line `i` from the lines still to scan to the output. */
  lemma CollapseStep(lines: seq<string>, i: nat, run: nat, before: seq<string>, after: seq<string>, next: nat)
    requires i < |lines|
    requires IsBlankLine(lines[i]) ==> next == run + 1 && after == before + (if next <= 2 then [[]] else [])
    requires !IsBlankLine(lines[i]) ==> next == 0 && after == before + [lines[i]]
    ensures before + CollapseBlankRuns(lines[i..], run) == after + CollapseBlankRuns(lines[i + 1..], next)
  {
    assert lines[i..][0] == lines[i] && lines[i..][1..] == lines[i + 1..];
    var rest := CollapseBlankRuns(lines[i + 1..], next);
    if IsBlankLine(lines[i]) {
      var head: seq<string> := if next <= 2 then [[]] else [];
      assert CollapseBlankRuns(lines[i..], run) == head + rest;
      assert before + (head + rest) == (before + head) + rest;
    } else {
      assert CollapseBlankRuns(lines[i..], run) == [lines[i]] + rest;
      assert before + ([lines[i]] + rest) == (before + [lines[i]]) + rest;
    }
  }

  // ----- the shape of the output -----

  /** Number of blank lines at the front. */
  function LeadingBlankCount(lines: seq<string>): nat {
    if |lines| > 0 && IsBlankLine(lines[0]) then 1 + LeadingBlankCount(lines[1..]) else 0
  }

  /** No three blank lines follow one another. */
  ghost predicate NoThreeBlankInARow(lines: seq<string>) {
    forall k | 0 <= k && k + 2 < |lines| :: !(IsBlankLine(lines[k]) && IsBlankLine(lines[k + 1]) && IsBlankLine(lines[k + 2]))
  }

  /** The lines as the output leaves them: no line break inside, no carriage return, no trailing blanks. */
  predicate CleanLine(line: string) {
    '\n' !in line && '\r' !in line && NoTrailingBlank(line)
  }

  /**
   * The shape of every output: no carriage return; no line ending in a space
   * or tab; blank lines are empty; first and last lines are not blank unless
   * the text is empty; never three blank lines in a row.
   */
  ghost predicate NormalForm(r: string) {
    '\r' !in r &&
    var lines := Split(r, '\n');
    (forall k | 0 <= k < |lines| :: NoTrailingBlank(lines[k])) &&
    (forall k | 0 <= k < |lines| :: IsBlankLine(lines[k]) ==> lines[k] == []) &&
    (r == [] || (!IsBlankLine(lines[0]) && !IsBlankLine(lines[|lines| - 1]))) &&
    NoThreeBlankInARow(lines)
  }

  lemma NoThreeCons(x: string, lines: seq<string>)
    requires NoThreeBlankInARow(lines)
    requires IsBlankLine(x) ==> LeadingBlankCount(lines) <= 1
    ensures NoThreeBlankInARow([x] + lines)
  {
    var l := [x] + lines;
    forall k | 0 <= k && k + 2 < |l|
      ensures !(IsBlankLine(l[k]) && IsBlankLine(l[k + 1]) && IsBlankLine(l[k + 2]))
    {
      if k == 0 && IsBlankLine(x) && IsBlankLine(lines[0]) {
        assert LeadingBlankCount(lines[1..]) == 0;
        assert lines[1..][0] == lines[1];
      } else if k > 0 {
        assert l[k] == lines[k - 1] && l[k + 1] == lines[k] && l[k + 2] == lines[k + 1];
      }
    }
  }

  lemma NoThreeTail(lines: seq<string>)
    requires |lines| > 0 && NoThreeBlankInARow(lines)
    ensures NoThreeBlankInARow(lines[1..])
  {
    var t := lines[1..];
    forall k | 0 <= k && k + 2 < |t|
      ensures !(IsBlankLine(t[k]) && IsBlankLine(t[k + 1]) && IsBlankLine(t[k + 2]))
    {
      assert t[k] == lines[k + 1] && t[k + 1] == lines[k + 2] && t[k + 2] == lines[k + 3];
    }
  }

  lemma NoThreeLeading(lines: seq<string>)
    requires NoThreeBlankInARow(lines)
    ensures LeadingBlankCount(lines) <= 2
  {
    if |lines| > 0 && IsBlankLine(lines[0]) {
      var t := lines[1..];
      if |t| > 0 && IsBlankLine(t[0]) {
        var u := t[1..];
        if |u| > 0 {
          assert t[0] == lines[1] && u[0] == lines[2];
        }
        assert LeadingBlankCount(u) == 0;
      }
    }
  }

  /** The collapsed lines never hold three blank lines in a row, counting the run already seen. */
  lemma {:induction false} CollapseBounded(lines: seq<string>, run: nat)
    ensures NoThreeBlankInARow(CollapseBlankRuns(lines, run))
    ensures LeadingBlankCount(CollapseBlankRuns(lines, run)) <= if run >= 2 then 0 else 2 - run
  {
    if lines != [] {
      var rest := CollapseBlankRuns(lines[1..], if IsBlankLine(lines[0]) then run + 1 else 0);
      CollapseBounded(lines[1..], if IsBlankLine(lines[0]) then run + 1 else 0);
      if IsBlankLine(lines[0]) && run + 1 <= 2 {
        NoThreeCons([], rest);
        assert ([[]] + rest)[1..] == rest;
      } else if !IsBlankLine(lines[0]) {
        NoThreeCons(lines[0], rest);
      }
    }
  }

  /** Each collapsed line is empty or a non-blank line of the input. */
  lemma {:induction false} CollapseLines(lines: seq<string>, run: nat)
    ensures forall k | 0 <= k < |CollapseBlankRuns(lines, run)| ::
      CollapseBlankRuns(lines, run)[k] == [] || (!IsBlankLine(CollapseBlankRuns(lines, run)[k]) && CollapseBlankRuns(lines, run)[k] in lines)
  {
    if lines != [] {
      CollapseLines(lines[1..], if IsBlankLine(lines[0]) then run + 1 else 0);
    }
  }

  /** Collapsing keeps the last line when it is not blank. */
  lemma {:induction false} CollapseLast(lines: seq<string>, run: nat)
    requires |lines| > 0 && !IsBlankLine(lines[|lines| - 1])
    ensures |CollapseBlankRuns(lines, run)| > 0
    ensures CollapseBlankRuns(lines, run)[|CollapseBlankRuns(lines, run)| - 1] == lines[|lines| - 1]
  {
    if |lines| > 1 {
      assert lines[1..][|lines| - 2] == lines[|lines| - 1];
      CollapseLast(lines[1..], if IsBlankLine(lines[0]) then run + 1 else 0);
    }
  }

  /** Lines already in shape are left alone by the collapsing loop. */
  lemma {:induction false} CollapseIdentity(lines: seq<string>, run: nat)
    requires forall k | 0 <= k < |lines| :: IsBlankLine(lines[k]) ==> lines[k] == []
    requires NoThreeBlankInARow(lines)
    requires run + LeadingBlankCount(lines) <= 2
    ensures CollapseBlankRuns(lines, run) == lines
  {
    if lines != [] {
      NoThreeTail(lines);
      if IsBlankLine(lines[0]) {
        CollapseIdentity(lines[1..], run + 1);
      } else {
        NoThreeLeading(lines[1..]);
        CollapseIdentity(lines[1..], 0);
      }
      assert lines == [lines[0]] + lines[1..];
    }
  }

  /** The shift loop drops exactly a prefix of blank lines, up to a non-blank line or the end. */
  lemma {:induction false} DropLeadingShape(lines: seq<string>)
    ensures var d := DropLeadingBlankLines(lines);
      |d| <= |lines| && d == lines[|lines| - |d|..] && (d == [] || !IsBlankLine(d[0]))
    ensures var d := DropLeadingBlankLines(lines);
      forall k | 0 <= k < |lines| - |d| :: IsBlankLine(lines[k])
  {
    if |lines| > 0 && IsBlankLine(lines[0]) {
      DropLeadingShape(lines[1..]);
      var d := DropLeadingBlankLines(lines);
      forall k | 1 <= k < |lines| - |d| ensures IsBlankLine(lines[k]) {
        assert lines[k] == lines[1..][k - 1];
      }
    }
  }

  /** The pop loop drops exactly a suffix of blank lines, back to a non-blank line or the start. */
  lemma {:induction false} DropTrailingShape(lines: seq<string>)
    ensures var d := DropTrailingBlankLines(lines);
      |d| <= |lines| && d == lines[..|d|] && (d == [] || !IsBlankLine(d[|d| - 1]))
    ensures var d := DropTrailingBlankLines(lines);
      forall k | |d| <= k < |lines| :: IsBlankLine(lines[k])
  {
    if |lines| > 0 && IsBlankLine(lines[|lines| - 1]) {
      DropTrailingShape(lines[..|lines| - 1]);
      var d := DropTrailingBlankLines(lines);
      forall k | |d| <= k < |lines| - 1 ensures IsBlankLine(lines[k]) {
        assert lines[k] == lines[..|lines| - 1][k];
      }
    }
  }

  /** Dropping trailing blank lines from lines that start with a non-blank one keeps that first line. */
  lemma {:induction false} DropTrailingKeepsFirst(lines: seq<string>)
    requires |lines| > 0 && !IsBlankLine(lines[0])
    ensures |DropTrailingBlankLines(lines)| > 0 && DropTrailingBlankLines(lines)[0] == lines[0]
  {
    if IsBlankLine(lines[|lines| - 1]) {
      DropTrailingKeepsFirst(lines[..|lines| - 1]);
    }
  }

  /** The lines of text without carriage returns, each stripped of trailing blanks, are clean. */
  lemma StrippedLinesClean(u: string)
    requires '\r' !in u
    ensures forall k | 0 <= k < |StripEach(Split(u, '\n'))| :: CleanLine(StripEach(Split(u, '\n'))[k])
  {
    var stripped := StripEach(Split(u, '\n'));
    forall k | 0 <= k < |stripped| ensures CleanLine(stripped[k]) {
      var piece := Split(u, '\n')[k];
      assert stripped[k] <= piece;
      if '\r' in stripped[k] {
        SplitChars(u, '\n', k, '\r');
      }
    }
  }

  lemma TrimmedLinesShape(input: string)
    ensures var t := TrimmedLines(input);
      (forall k | 0 <= k < |t| :: CleanLine(t[k])) &&
      (t == [] || (!IsBlankLine(t[0]) && !IsBlankLine(t[|t| - 1])))
  {
    var u := UnifyNewlines(input);
    var stripped := StripEach(Split(u, '\n'));
    StrippedLinesClean(u);
    SplitJoin(stripped, '\n');
    var lines := Split(StrippedText(input), '\n');
    assert lines == stripped;
    DropBlankEndsShape(lines);
    assert TrimmedLines(input) == DropTrailingBlankLines(DropLeadingBlankLines(lines));
  }

  /** Dropping blank lines at both ends of clean lines leaves clean lines whose first and last are not blank. */
  lemma DropBlankEndsShape(lines: seq<string>)
    requires forall k | 0 <= k < |lines| :: CleanLine(lines[k])
    ensures var t := DropTrailingBlankLines(DropLeadingBlankLines(lines));
      (forall k | 0 <= k < |t| :: CleanLine(t[k])) &&
      (t == [] || (!IsBlankLine(t[0]) && !IsBlankLine(t[|t| - 1])))
  {
    var front := DropLeadingBlankLines(lines);
    DropLeadingShape(lines);
    DropTrailingShape(front);
    var t := DropTrailingBlankLines(front);
    forall k | 0 <= k < |t| ensures CleanLine(t[k]) {
      assert t[k] == front[k];
      var j := |lines| - |front| + k;
      assert front[k] == lines[j];
    }
    if front != [] {
      DropTrailingKeepsFirst(front);
    }
  }

  /** Joining lines that are clean, collapsed and trimmed gives a text in normal form. */
  lemma JoinedNormalForm(c: seq<string>)
    requires forall k | 0 <= k < |c| :: CleanLine(c[k]) && (IsBlankLine(c[k]) ==> c[k] == [])
    requires NoThreeBlankInARow(c)
    requires c == [] || (!IsBlankLine(c[0]) && !IsBlankLine(c[|c| - 1]))
    ensures NormalForm(Join(c, '\n'))
  {
    var r := Join(c, '\n');
    if c == [] {
      assert Split(r, '\n') == [[]];
    } else {
      SplitJoin(c, '\n');
      JoinOfCleanLines(c);
      NormalFormOfLines(r, c);
    }
  }

  /** Clean lines joined by newlines contain no carriage return. */
  lemma JoinOfCleanLines(c: seq<string>)
    requires forall k | 0 <= k < |c| :: CleanLine(c[k])
    ensures '\r' !in Join(c, '\n')
  {
    if '\r' in Join(c, '\n') {
      JoinChars(c, '\n', '\r');
    }
  }

  /** Normal form read off the lines a text splits into. */
  lemma NormalFormOfLines(r: string, lines: seq<string>)
    requires '\r' !in r && Split(r, '\n') == lines
    requires forall k | 0 <= k < |lines| :: CleanLine(lines[k]) && (IsBlankLine(lines[k]) ==> lines[k] == [])
    requires NoThreeBlankInARow(lines)
    requires !IsBlankLine(lines[0]) && !IsBlankLine(lines[|lines| - 1])
    ensures NormalForm(r)
  {
  }

  /** Every output of the normaliser is in normal form. */
  lemma NormalizedShape(input: string)
    ensures NormalForm(NormalizedWhitespace(input))
  {
    var t := TrimmedLines(input);
    TrimmedLinesShape(input);
    var c := CollapseBlankRuns(t, 0);
    CollapseLines(t, 0);
    CollapseBounded(t, 0);
    forall k | 0 <= k < |c| ensures CleanLine(c[k]) && (IsBlankLine(c[k]) ==> c[k] == []) {
      if c[k] != [] {
        var j :| 0 <= j < |t| && t[j] == c[k];
      }
    }
    if c != [] {
      CollapseLast(t, 0);
    }
    JoinedNormalForm(c);
  }

  /** Lines without trailing blanks are not changed by stripping. */
  lemma StripEachFixed(lines: seq<string>)
    requires forall k | 0 <= k < |lines| :: NoTrailingBlank(lines[k])
    ensures StripEach(lines) == lines
  {
    forall k | 0 <= k < |lines| ensures StripTrailingBlanks(lines[k]) == lines[k] {
      SpanEndIs(lines[k], IsSpaceOrTab, 0);
    }
  }

  /** A text in normal form is a fixed point of the normaliser. */
  lemma NormalFormIsFixed(r: string)
    requires NormalForm(r)
    ensures NormalizedWhitespace(r) == r
  {
    var lines := Split(r, '\n');
    UnifyNewlinesWithoutCR(r);
    StripEachFixed(lines);
    JoinSplit(r, '\n');
    assert StrippedText(r) == r;
    if r == [] {
      assert lines == [[]];
      assert TrimmedLines(r) == [];
    } else {
      assert DropLeadingBlankLines(lines) == lines;
      assert DropTrailingBlankLines(lines) == lines;
      assert TrimmedLines(r) == lines;
      CollapseIdentity(lines, 0);
    }
  }

  /** Normalising twice gives what normalising once does. */
  lemma NormalizeIdempotent(input: string)
    ensures NormalizedWhitespace(NormalizedWhitespace(input)) == NormalizedWhitespace(input)
  {
    NormalizedShape(input);
    NormalFormIsFixed(NormalizedWhitespace(input));
  }

  // ----- the text that survives -----

  /** The non-blank lines, in order. */
  function NonBlankLines(lines: seq<string>): seq<string> {
    if lines == [] then []
    else (if IsBlankLine(lines[0]) then [] else [lines[0]]) + NonBlankLines(lines[1..])
  }

  lemma {:induction false} NonBlankAppend(a: seq<string>, b: seq<string>)
    ensures NonBlankLines(a + b) == NonBlankLines(a) + NonBlankLines(b)
  {
    if a == [] {
      assert a + b == b;
    } else {
      assert (a + b)[1..] == a[1..] + b;
      NonBlankAppend(a[1..], b);
    }
  }

  lemma StripKeepsBlankness(line: string)
    ensures IsBlankLine(StripTrailingBlanks(line)) <==> IsBlankLine(line)
  {
    var r := StripTrailingBlanks(line);
    if IsBlankLine(r) {
      forall k | 0 <= k < |line| ensures IsSpace(line[k]) {
        if k < |r| { assert r[k] == line[k]; }
      }
    }
  }

  lemma {:induction false} NonBlankStrip(lines: seq<string>)
    ensures NonBlankLines(StripEach(lines)) == StripEach(NonBlankLines(lines))
  {
    if lines != [] {
      var tail := lines[1..];
      NonBlankStrip(tail);
      StripKeepsBlankness(lines[0]);
      StripEachAppend([lines[0]], tail);
      assert lines == [lines[0]] + tail;
      var head := if IsBlankLine(lines[0]) then [] else [lines[0]];
      StripEachAppend(head, NonBlankLines(tail));
    }
  }

  lemma StripEachAppend(a: seq<string>, b: seq<string>)
    ensures StripEach(a + b) == StripEach(a) + StripEach(b)
  {
    var l, r := StripEach(a + b), StripEach(a) + StripEach(b);
    forall k | 0 <= k < |l| ensures l[k] == r[k] {
      if k < |a| { assert (a + b)[k] == a[k]; } else { assert (a + b)[k] == b[k - |a|]; }
    }
  }

  lemma {:induction false} NonBlankDropLeading(lines: seq<string>)
    ensures NonBlankLines(DropLeadingBlankLines(lines)) == NonBlankLines(lines)
  {
    if |lines| > 0 && IsBlankLine(lines[0]) {
      NonBlankDropLeading(lines[1..]);
    }
  }

  lemma {:induction false} NonBlankDropTrailing(lines: seq<string>)
    ensures NonBlankLines(DropTrailingBlankLines(lines)) == NonBlankLines(lines)
  {
    if |lines| > 0 && IsBlankLine(lines[|lines| - 1]) {
      var front := lines[..|lines| - 1];
      NonBlankDropTrailing(front);
      assert lines == front + [lines[|lines| - 1]];
      NonBlankAppend(front, [lines[|lines| - 1]]);
    }
  }

  lemma {:induction false} NonBlankCollapse(lines: seq<string>, run: nat)
    ensures NonBlankLines(CollapseBlankRuns(lines, run)) == NonBlankLines(lines)
  {
    if lines != [] {
      var next := if IsBlankLine(lines[0]) then run + 1 else 0;
      NonBlankCollapse(lines[1..], next);
      var head := if IsBlankLine(lines[0]) then (if run + 1 <= 2 then [[]] else []) else [lines[0]];
      NonBlankAppend(head, CollapseBlankRuns(lines[1..], next));
    }
  }

  /**
   * Normalising loses no text: the non-blank output lines are exactly the
   * non-blank input lines, in order, with their trailing spaces and tabs removed.
   */
  lemma NormalizeKeepsText(input: string)
    ensures NonBlankLines(Split(NormalizedWhitespace(input), '\n'))
         == StripEach(NonBlankLines(Split(UnifyNewlines(input), '\n')))
  {
    var stripped := StripEach(Split(UnifyNewlines(input), '\n'));
    NonBlankStrip(Split(UnifyNewlines(input), '\n'));
    SplitJoin(stripped, '\n');
    var front := DropLeadingBlankLines(stripped);
    NonBlankDropLeading(stripped);
    NonBlankDropTrailing(front);
    var t := TrimmedLines(input);
    NonBlankCollapse(t, 0);
    var c := CollapseBlankRuns(t, 0);
    TrimmedLinesShape(input);
    CollapseLines(t, 0);
    if c == [] {
      assert Split(Join(c, '\n'), '\n') == [[]];
    } else {
      SplitJoin(c, '\n');
    }
  }
}
