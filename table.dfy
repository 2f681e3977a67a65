/**
 * The parser's rule table: twenty-eight rules, each a pattern, a replacement
 * template and whether the captures are HTML-escaped, run in this order.
 * Code blocks and inline code come first (escaped), then the horizontal rule,
 * headings from six marks down to one, quotes, emphasis, images and links,
 * the two list families, and last the blank-line break.
 */
module RuleTable {
  import opened Wrappers
  import opened Text
  import opened Escape
  import opened Template
  import opened Rules

  /** `n` number signs. */
  function Hashes(n: nat): (r: string)
    ensures |r| == n && forall i :: 0 <= i < n ==> r[i] == '#'
  {
    seq(n, _ => '#')
  }

  /** The opening and closing tags of a level-`n` heading. */
  function HeadingOpen(n: nat): string
    requires n < 10
  {
    "<h" + [DigitChar(n)] + ">"
  }

  function HeadingClose(n: nat): string
    requires n < 10
  {
    "</h" + [DigitChar(n)] + ">"
  }

  /** The heading rule of level `n`: `n` marks and a space, then the rest of the line. */
  function Heading(n: nat): Rule
    requires n < 10
  {
    Rule(LinePrefixed(Hashes(n) + " ", false), HeadingOpen(n) + "$1" + HeadingClose(n), false)
  }

  /** The rule table, in the order the parser runs it. */
  function RuleList(): (r: seq<Rule>)
    ensures |r| == 28
  {
    [
      Rule(Opaque(@"```(.*?)\s*\n([\s\S]*?)```", "g"), "<code class=\"mdjs-code-$1\"><pre>$2</pre></code>", true),
      Rule(Opaque(@"```([\s\S]*?)```", "g"), "<code><pre>$1</pre></code>", true),
      Rule(Opaque(@"`(.*?)`", "g"), "<code><span>$1</span></code>", true),
      Rule(Opaque(@"\n-{3,}\n", "g"), "<hr>", false),
      Heading(6),
      Heading(5),
      Heading(4),
      Heading(3),
      Heading(2),
      Heading(1),
      Rule(LinePrefixed(">> ", true), "<blockquote class=\"mdjs-subquote\">$1</blockquote>", false),
      Rule(LinePrefixed("> ", true), "<blockquote>$1</blockquote>", false),
      Rule(Opaque(@"\*\*\*(.*?)\*\*\*", "g"), "<strong><em>$1</em></strong>", false),
      Rule(Opaque(@"\*\*(.*?)\*\*", "g"), "<strong>$1</strong>", false),
      Rule(Opaque(@"\*(.*?)\*", "g"), "<em>$1</em>", false),
      Rule(Opaque(@"(^|\s)___(.*?)___", "g"), "$1<strong><em>$2</em></strong>", false),
      Rule(Opaque(@"(^|\s)__(.*?)__", "g"), "$1<strong>$2</strong>", false),
      Rule(Opaque(@"(^|\s)_(.*?)_", "g"), "$1<em>$2</em>", false),
      Rule(Opaque(@"~~(.*?)~~", "g"), "<del>$1</del>", false),
      Rule(Opaque(@"!\[(.*?)\]\((.*?)\)", "g"), "<img alt=\"$1\" title=\"$1\" src=\"$2\">", false),
      Rule(Opaque(@"\[(.*?)\]\((.*?)\)", "g"), "<a href=\"$2\">$1</a>", false),
      Rule(Opaque(@"^[0-9]+\.\s(.*?)(?:\n|$)", "gm"), "<li>$1</li>", false),
      Rule(Opaque(@"^(<li>.*?<\/li>)(?!<\/li>)", "m"), "<ol>$1", false),
      Rule(Opaque(@"(<li>.*?<\/li>)(?!<li>)", "m"), "$1</ol>", false),
      Rule(Opaque(@"^[-+*]\s(.*?)(?:\n|$)", "gm"), "<li>$1</li>", false),
      Rule(Opaque(@"^(<li>.*?<\/li>)(?!<\/li>)", "m"), "<ul>$1", false),
      Rule(Opaque(@"(<li>.*?<\/li>)(?!<li>)", "m"), "$1</ul>", false),
      Rule(Literal("\n\n"), "<br>", false)
    ]
  }

  /** The last pass turns every blank-line pair into a break. */
  lemma BreakPassLast(s: string, engine: Engine)
    requires EngineSound(engine)
    ensures Pipeline(RuleList(), s, engine)
      == ReplaceAll(Pipeline(RuleList()[..27], s, engine), "\n\n", "<br>")
  {
    assert |RuleList()| == 28;
    var rule := RuleList()[27];
    assert rule == Rule(Literal("\n\n"), "<br>", false);
    LiteralRule(rule, Pipeline(RuleList()[..27], s, engine), engine);
  }

  /** Whatever the earlier passes produce, no two adjacent line feeds survive the whole table. */
  lemma NoBlankLinePairLeft(s: string, engine: Engine)
    requires EngineSound(engine)
    ensures !HasPair(Pipeline(RuleList(), s, engine), '\n')
  {
    BreakPassLast(s, engine);
    assert "\n\n" == ['\n', '\n'];
    ReplaceAllClearsPair(Pipeline(RuleList()[..27], s, engine), '\n', "<br>");
  }

  // ----- headings -----

  /** The six heading rules sit at positions 4 to 9, six marks first. */
  lemma HeadingPositions()
    ensures forall n :: 1 <= n <= 6 ==> RuleList()[10 - n] == Heading(n)
  {
  }

  predicate NoLineTerminator(t: string) {
    forall i :: 0 <= i < |t| ==> !IsLineTerminator(t[i])
  }

  /** A line of `n` marks, a space and a text without marks or line breaks, as the level-`n` rule renders it. */
  lemma HeadingPass(n: nat, t: string, engine: Engine)
    requires EngineSound(engine) && 1 <= n <= 6 && NoLineTerminator(t)
    ensures ApplyRule(Heading(n), Hashes(n) + " " + t, engine)
      == HeadingOpen(n) + ReplaceAll(t, "$2", "") + HeadingClose(n)
  {
    var marker := Hashes(n) + " ";
    var s := marker + t;
    PrefixedWhole(marker, false, t);
    SpliceWhole(s, [t, ""], Heading(n));
    HeadingRendered(n, t);
  }

  /** The heading callback: the line goes between the tags, a `$2` in it dropped. */
  lemma HeadingRendered(n: nat, t: string)
    requires n < 10
    ensures Replacement(Heading(n), [t, ""]) == HeadingOpen(n) + ReplaceAll(t, "$2", "") + HeadingClose(n)
  {
    var x, y := HeadingOpen(n), HeadingClose(n);
    assert '$' !in x && '$' !in y;
    FillFirstOfTwo(x, y, t, "");
  }

  /**
   * A heading line ended by a line feed: the line feed is part of the match,
   * so the next line follows the closing tag directly.
   */
  lemma HeadingLineFeed(n: nat, t: string, rest: string, engine: Engine)
    requires EngineSound(engine) && 1 <= n <= 6 && NoLineTerminator(t) && '$' !in t && '#' !in rest
    ensures ApplyRule(Heading(n), Hashes(n) + " " + t + "\n" + rest, engine)
      == HeadingOpen(n) + t + HeadingClose(n) + rest
  {
    var marker := Hashes(n) + " ";
    var s := marker + t + "\n" + rest;
    var q := |marker| + |t|;
    LineFeedScan(marker, t, rest);
    assert s[q + 1..] == rest;
    ApplyOne(Heading(n), s, engine, Match(0, q + 1, [t, "\n"]));
    HeadingFilled(n, t, "\n");
    var h := HeadingOpen(n) + t + HeadingClose(n);
    assert s[..0] == [] && [] + h + rest == h + rest;
  }

  /** The marker, a line and a line feed, then a text without marks: one match, through the line feed. */
  lemma LineFeedScan(marker: string, t: string, rest: string)
    requires |marker| > 0 && marker[0] == '#' && NoLineTerminator(t) && '#' !in rest
    ensures PrefixedScan(marker + t + "\n" + rest, marker, false, 0)
      == [Match(0, |marker| + |t| + 1, [t, "\n"])]
  {
    var s := marker + t + "\n" + rest;
    var q := |marker| + |t|;
    assert s[..|marker|] == marker && s[|marker|..q] == t && s[q] == '\n' && s[q + 1..] == rest;
    forall i | q + 1 <= i < |s| ensures s[i] != marker[0] {
      assert s[i] == rest[i - q - 1] && rest[i - q - 1] in rest;
    }
    MarkerAbsent(s, marker, q + 1, 0);
    PrefixedFirstLine(s, marker, false, q);
  }

  /** The heading template with a `$`-free line: the line between the tags, whatever the second capture. */
  lemma HeadingFilled(n: nat, t: string, c: string)
    requires 1 <= n <= 6 && '$' !in t
    ensures Replacement(Heading(n), [t, c]) == HeadingOpen(n) + t + HeadingClose(n)
  {
    var x, y := HeadingOpen(n), HeadingClose(n);
    assert '$' !in x && '$' !in y;
    FillFirstOfTwo(x, y, t, c);
    ReplaceAllAbsent(t, "$2", c);
  }

  /**
   * Without the `m` flag a carriage return ends neither `.` nor `$`: a
   * heading line ended by one is not a heading, and the text is kept.
   */
  lemma HeadingCarriageReturn(n: nat, t: string, rest: string, engine: Engine)
    requires EngineSound(engine) && 1 <= n <= 6 && NoLineTerminator(t) && '#' !in t && '#' !in rest
    ensures ApplyRule(Heading(n), Hashes(n) + " " + t + "\r" + rest, engine)
      == Hashes(n) + " " + t + "\r" + rest
  {
    var marker := Hashes(n) + " ";
    var u := " " + t + "\r" + rest;
    var s := marker + t + "\r" + rest;
    var q := |marker| + |t|;
    assert s == Hashes(n) + u && '#' !in u;
    assert s[..|marker|] == marker && s[|marker|..q] == t && s[q] == '\r';
    PrefixedScanLine(s, marker, false, 0, q);
    MarksFirst(n, u);
    MarkerAbsent(s, marker, 1, n - 1);
    PrefixedScanNone(s, marker, false, 1);
    assert s[0..] == s;
  }

  /** Past the leading marks, a text whose rest has no mark has none. */
  lemma MarksFirst(n: nat, u: string)
    requires '#' !in u
    ensures forall i :: n <= i < |Hashes(n) + u| ==> (Hashes(n) + u)[i] != '#'
  {
    forall i | n <= i < |Hashes(n) + u| ensures (Hashes(n) + u)[i] != '#' {
      assert (Hashes(n) + u)[i] == u[i - n] && u[i - n] in u;
    }
  }

  /** `# a`, a line feed, then `b`: the heading, then `b` straight after the closing tag. */
  lemma HeadingLineFeedExample(engine: Engine)
    requires EngineSound(engine)
    ensures ApplyRule(Heading(1), "# a\nb", engine) == "<h1>a</h1>b"
  {
    HeadingOneTexts();
    HeadingLineFeed(1, "a", "b", engine);
  }

  /** `# a` ended by a carriage return and a line feed is left as it is. */
  lemma HeadingCarriageReturnExample(engine: Engine)
    requires EngineSound(engine)
    ensures ApplyRule(Heading(1), "# a\r\n", engine) == "# a\r\n"
  {
    HeadingOneTexts();
    HeadingCarriageReturn(1, "a", "\n", engine);
  }

  lemma HeadingOneTexts()
    ensures Hashes(1) + " " + "a" + "\n" + "b" == "# a\nb"
    ensures Hashes(1) + " " + "a" + "\r" + "\n" == "# a\r\n"
    ensures HeadingOpen(1) + "a" + HeadingClose(1) + "b" == "<h1>a</h1>b"
    ensures NoLineTerminator("a")
  {
    assert Hashes(1) == "#";
    assert DigitChar(1) == '1';
  }

  /** A rule with more marks than the line has finds nothing. */
  lemma LongerMarkerIdle(m: nat, n: nat, t: string, engine: Engine)
    requires EngineSound(engine) && n < m < 10 && '#' !in t
    ensures ApplyRule(Heading(m), Hashes(n) + " " + t, engine) == Hashes(n) + " " + t
  {
    var s := Hashes(n) + " " + t;
    var marker := Hashes(m) + " ";
    forall q: nat ensures !OccursAt(s, marker, q) {
      if q + |marker| <= |s| {
        assert s[q..q + |marker|][m - 1] == s[q + m - 1];
        if q + m - 1 == n {
          assert s[n] == ' ';
        } else {
          assert s[q + m - 1] == t[q + m - n - 2];
          assert t[q + m - n - 2] in t;
        }
      }
    }
    PrefixedIdle(Heading(m), s, engine);
  }

  /** A heading rule finds nothing in a text without marks. */
  lemma MarkFreeIdle(m: nat, s: string, engine: Engine)
    requires EngineSound(engine) && 1 <= m < 10 && '#' !in s
    ensures ApplyRule(Heading(m), s, engine) == s
  {
    var marker := Hashes(m) + " ";
    forall q: nat ensures !OccursAt(s, marker, q) {
      if q + |marker| <= |s| {
        assert s[q..q + |marker|][0] == s[q];
        assert s[q] in s;
      }
    }
    PrefixedIdle(Heading(m), s, engine);
  }

  /** The rendered heading holds no mark. */
  lemma RenderedMarkFree(n: nat, t: string)
    requires 1 <= n <= 6 && '#' !in t
    ensures '#' !in HeadingOpen(n) + ReplaceAll(t, "$2", "") + HeadingClose(n)
  {
    ReplaceAllChars(t, "$2", "");
  }

  /** The heading rules as the table lists them, six marks first. */
  function HeadingRules(): (r: seq<Rule>)
    ensures |r| == 6 && forall i :: 0 <= i < 6 ==> r[i] == Heading(6 - i)
  {
    [Heading(6), Heading(5), Heading(4), Heading(3), Heading(2), Heading(1)]
  }

  lemma HeadingSlice()
    ensures RuleList()[4..10] == HeadingRules()
  {
    HeadingPositions();
    assert forall i :: 0 <= i < 6 ==> RuleList()[4..10][i] == RuleList()[4 + i];
  }

  /**
   * The heading rules run from six marks down to one, so a line of `n`
   * marks whose text holds no mark becomes a level-`n` heading: no longer
   * marker matches inside it before, and no shorter marker is left in it
   * after. A text holding a mark and a space is matched again (see
   * `NestedHeading`).
   */
  lemma HeadingPrecedence(n: nat, t: string, engine: Engine)
    requires EngineSound(engine) && 1 <= n <= 6 && '#' !in t && NoLineTerminator(t)
    ensures Pipeline(RuleList()[4..10], Hashes(n) + " " + t, engine)
      == HeadingOpen(n) + ReplaceAll(t, "$2", "") + HeadingClose(n)
  {
    HeadingSlice();
    HeadingsInOrder(n, t, engine);
  }

  lemma HeadingsInOrder(n: nat, t: string, engine: Engine)
    requires EngineSound(engine) && 1 <= n <= 6 && '#' !in t && NoLineTerminator(t)
    ensures Pipeline(HeadingRules(), Hashes(n) + " " + t, engine)
      == HeadingOpen(n) + ReplaceAll(t, "$2", "") + HeadingClose(n)
  {
    var s := Hashes(n) + " " + t;
    var out := HeadingOpen(n) + ReplaceAll(t, "$2", "") + HeadingClose(n);
    var hs := HeadingRules();
    var before, after := hs[..6 - n], hs[7 - n..];
    assert hs == before + [Heading(n)] + after;
    forall i | 0 <= i < |before| ensures ApplyRule(before[i], s, engine) == s {
      assert before[i] == Heading(6 - i);
      LongerMarkerIdle(6 - i, n, t, engine);
    }
    HeadingPass(n, t, engine);
    RenderedMarkFree(n, t);
    ShorterRulesIdle(n, after, out, engine);
    PipelineThrough(before, Heading(n), after, s, out, engine);
  }

  /** The heading rules after level `n` leave a text without marks as it is. */
  lemma ShorterRulesIdle(n: nat, after: seq<Rule>, out: string, engine: Engine)
    requires EngineSound(engine) && 1 <= n <= 6 && '#' !in out && after == HeadingRules()[7 - n..]
    ensures forall i :: 0 <= i < |after| ==> ApplyRule(after[i], out, engine) == out
  {
    forall i | 0 <= i < |after| ensures ApplyRule(after[i], out, engine) == out {
      assert after[i] == Heading(n - 1 - i);
      MarkFreeIdle(n - 1 - i, out, engine);
    }
  }

  /**
   * Why the order matters: run on its own, the one-mark rule finds its marker
   * at the last mark of a six-mark line and leaves the other five in front.
   */
  lemma OneMarkRuleAlone(t: string, engine: Engine)
    requires EngineSound(engine) && NoLineTerminator(t)
    ensures ApplyRule(Heading(1), Hashes(6) + " " + t, engine)
      == Hashes(5) + HeadingOpen(1) + ReplaceAll(t, "$2", "") + HeadingClose(1)
  {
    var s := Hashes(6) + " " + t;
    OneMarkScan(t);
    SpliceTail(s, 5, [t, ""], Heading(1));
    HeadingRendered(1, t);
    assert s[..5] == Hashes(5);
  }

  /** The one-mark marker first occurs at the last mark of a six-mark line. */
  lemma OneMarkScan(t: string)
    requires NoLineTerminator(t)
    ensures PrefixedScan(Hashes(6) + " " + t, Hashes(1) + " ", false, 0)
      == [Match(5, |Hashes(6) + " " + t|, [t, ""])]
  {
    var s := Hashes(6) + " " + t;
    var marker := Hashes(1) + " ";
    forall q | 0 <= q < 5 ensures !OccursAt(s, marker, q) {
      assert s[q..q + 2][1] == s[q + 1] == '#';
    }
    assert s[5..7] == marker;
    assert s[7..] == t;
    PrefixedTail(s, marker, false, 5);
  }

  /**
   * The one-mark rule is not anchored to the start of a line: in a text
   * without an earlier mark, it matches at the first mark followed by a
   * space, keeps what comes before it and renders the rest of the text.
   */
  lemma HeadingAfter(x: string, t: string, engine: Engine)
    requires EngineSound(engine) && '#' !in x && NoLineTerminator(t)
    ensures ApplyRule(Heading(1), x + "# " + t, engine)
      == x + HeadingOpen(1) + ReplaceAll(t, "$2", "") + HeadingClose(1)
  {
    var marker := Hashes(1) + " ";
    assert marker == "# ";
    var s := x + marker + t;
    var p := |x|;
    MarkerAfter(x, marker, t);
    PrefixedTail(s, marker, false, p);
    SpliceTail(s, p, [t, ""], Heading(1));
    HeadingRendered(1, t);
  }

  /** After a text without marks, a marker that opens with a mark first occurs right after that text. */
  lemma MarkerAfter(x: string, marker: string, t: string)
    requires '#' !in x && |marker| > 0 && marker[0] == '#'
    ensures OccursAt(x + marker + t, marker, |x|)
    ensures forall q :: 0 <= q < |x| ==> !OccursAt(x + marker + t, marker, q)
    ensures (x + marker + t)[|x| + |marker|..] == t && (x + marker + t)[..|x|] == x
  {
    var s := x + marker + t;
    assert s[|x|..|x| + |marker|] == marker;
    forall q | 0 <= q < |x| ensures !OccursAt(s, marker, q) {
      assert s[q..q + |marker|][0] == s[q] == x[q];
      assert x[q] in x;
    }
  }

  /** No three marks in a row. */
  predicate NoMarkRun(s: string) {
    forall i :: 0 <= i && i + 2 < |s| ==> s[i] != '#' || s[i + 1] != '#' || s[i + 2] != '#'
  }

  /** A heading rule of three or more marks finds nothing in a text without three marks in a row. */
  lemma ShortRunIdle(m: nat, s: string, engine: Engine)
    requires EngineSound(engine) && 3 <= m < 10 && NoMarkRun(s)
    ensures ApplyRule(Heading(m), s, engine) == s
  {
    var marker := Hashes(m) + " ";
    forall q: nat ensures !OccursAt(s, marker, q) {
      if q + |marker| <= |s| {
        var w := s[q..q + |marker|];
        assert w[0] == s[q] && w[1] == s[q + 1] && w[2] == s[q + 2];
      }
    }
    PrefixedIdle(Heading(m), s, engine);
  }

  /**
   * A level-two line whose text holds a mark followed by a space: the
   * two-mark rule renders the line, then the one-mark rule matches again
   * inside the rendered heading and wraps its tail, closing tag included.
   */
  lemma NestedHeading(a: string, b: string, engine: Engine)
    requires EngineSound(engine) && '#' !in a && '#' !in b && '$' !in a && '$' !in b
    requires NoLineTerminator(a) && NoLineTerminator(b)
    ensures Pipeline(HeadingRules(), "## " + a + "# " + b, engine)
      == HeadingOpen(2) + a + HeadingOpen(1) + b + HeadingClose(2) + HeadingClose(1)
  {
    var hs := HeadingRules();
    var s := "## " + a + "# " + b;
    var x, tail := HeadingOpen(2) + a, b + HeadingClose(2);
    NestedFirstPasses(a, b, engine);
    assert Pipeline(hs, s, engine) == ApplyRule(Heading(1), x + "# " + tail, engine);
    NestedPieces(a, b);
    NestedLastPass(x, tail, engine);
    RegroupNested(HeadingOpen(2), a, HeadingOpen(1), b, HeadingClose(2), HeadingClose(1));
  }

  /** The pieces around the second mark: a mark-free head, a tail without line breaks or `$`. */
  lemma NestedPieces(a: string, b: string)
    requires '#' !in a && '$' !in b && NoLineTerminator(b)
    ensures '#' !in HeadingOpen(2) + a
    ensures '$' !in b + HeadingClose(2) && NoLineTerminator(b + HeadingClose(2))
  {
    Tags();
    var tail := b + HeadingClose(2);
    forall i | 0 <= i < |tail| ensures !IsLineTerminator(tail[i]) {
      if i < |b| { assert tail[i] == b[i]; }
    }
  }

  /** The rules of six marks down to two: only the two-mark rule matches, the whole line. */
  lemma NestedFirstPasses(a: string, b: string, engine: Engine)
    requires EngineSound(engine) && '#' !in a && '#' !in b && '$' !in a && '$' !in b
    requires NoLineTerminator(a) && NoLineTerminator(b)
    ensures Pipeline(HeadingRules()[..5], "## " + a + "# " + b, engine)
      == (HeadingOpen(2) + a) + "# " + (b + HeadingClose(2))
  {
    var t := a + "# " + b;
    var s := Hashes(2) + " " + t;
    assert s == "## " + a + "# " + b;
    var before := HeadingRules()[..4];
    assert HeadingRules()[..5] == before + [Heading(2)] + [];
    LongRulesIdle(s, before, engine);
    JoinedLine(a, b);
    HeadingPass(2, t, engine);
    ReplaceAllAbsent(t, "$2", "");
    PipelineThrough(before, Heading(2), [], s, HeadingOpen(2) + t + HeadingClose(2), engine);
    Regroup(HeadingOpen(2), a, "# ", b, HeadingClose(2));
  }

  /** The rules of six marks down to three leave the nested line as it is. */
  lemma LongRulesIdle(s: string, before: seq<Rule>, engine: Engine)
    requires EngineSound(engine) && NoMarkRun(s) && before == HeadingRules()[..4]
    ensures forall i :: 0 <= i < |before| ==> ApplyRule(before[i], s, engine) == s
  {
    forall i | 0 <= i < |before| ensures ApplyRule(before[i], s, engine) == s {
      assert before[i] == Heading(6 - i);
      ShortRunIdle(6 - i, s, engine);
    }
  }

  /** The text of the nested line: no three marks in a row, no line break. */
  lemma JoinedLine(a: string, b: string)
    requires '#' !in a && '#' !in b && NoLineTerminator(a) && NoLineTerminator(b)
    ensures NoMarkRun(Hashes(2) + " " + (a + "# " + b))
    ensures NoLineTerminator(a + "# " + b)
  {
    NestedRunFree(a, b);
    assert Hashes(2) + " " + (a + "# " + b) == "## " + a + "# " + b;
    var t := a + "# " + b;
    forall i | 0 <= i < |t| ensures !IsLineTerminator(t[i]) {
      if i < |a| { assert t[i] == a[i]; }
      else if i >= |a| + 2 { assert t[i] == b[i - |a| - 2]; }
    }
  }

  /** The one-mark rule on the rendered level-two heading. */
  lemma NestedLastPass(x: string, tail: string, engine: Engine)
    requires EngineSound(engine) && '#' !in x && '$' !in tail && NoLineTerminator(tail)
    ensures ApplyRule(Heading(1), x + "# " + tail, engine) == x + HeadingOpen(1) + tail + HeadingClose(1)
  {
    HeadingAfter(x, tail, engine);
    ReplaceAllAbsent(tail, "$2", "");
  }

  /** Concatenation regrouped around a middle piece. */
  lemma Regroup(o: string, a: string, m: string, b: string, c: string)
    ensures o + (a + m + b) + c == (o + a) + m + (b + c)
  {
  }

  /** The nested rendering regrouped: the head, the inner opening tag, the tail, the inner closing tag. */
  lemma RegroupNested(o: string, a: string, m: string, b: string, c: string, d: string)
    ensures (o + a) + m + (b + c) + d == o + a + m + b + c + d
  {
  }
  /** The nested line has no three marks in a row. */
  lemma NestedRunFree(a: string, b: string)
    requires '#' !in a && '#' !in b
    ensures NoMarkRun("## " + a + "# " + b)
  {
    var s := "## " + a + "# " + b;
    forall i | 0 <= i && i + 2 < |s| ensures s[i] != '#' || s[i + 1] != '#' || s[i + 2] != '#' {
      if i < 3 {
        assert s[2] == ' ';
      } else if i < 3 + |a| {
        assert s[i] == a[i - 3];
      } else if i == 3 + |a| {
        assert s[i + 1] == ' ';
      } else if i == 4 + |a| {
        assert s[i] == ' ';
      } else {
        assert s[i] == b[i - 5 - |a|];
      }
    }
  }

  /** `## a # b` renders as `<h2>a <h1>b</h2></h1>`. */
  lemma NestedHeadingExample(engine: Engine)
    requires EngineSound(engine)
    ensures Pipeline(HeadingRules(), "## a # b", engine) == "<h2>a <h1>b</h2></h1>"
  {
    NestedLiterals();
    Tags();
    NestedHeading("a ", "b", engine);
  }

  lemma NestedLiterals()
    ensures "## " + "a " + "# " + "b" == "## a # b"
    ensures "<h2>" + "a " + "<h1>" + "b" + "</h2>" + "</h1>" == "<h2>a <h1>b</h2></h1>"
  {
  }

  /** The tags of the first two levels. */
  lemma Tags()
    ensures HeadingOpen(1) == "<h1>" && HeadingClose(1) == "</h1>"
    ensures HeadingOpen(2) == "<h2>" && HeadingClose(2) == "</h2>"
  {
  }

  // ----- escaping -----

  /** Exactly the three code rules escape their captures; every other rule inserts them as they are. */
  lemma EscapingRules(i: nat, caps: seq<string>)
    requires i < |RuleList()|
    ensures RuleList()[i].escape <==> i < 3
    ensures i < 3 ==> Replacement(RuleList()[i], caps) == Fill(RuleList()[i].template, EscapeAll(caps))
    ensures 3 <= i ==> Replacement(RuleList()[i], caps) == Fill(RuleList()[i].template, caps)
  {
  }

  /** Escaped code: no tag brackets, and the text can be recovered. */
  predicate EscapedFrom(e: string, c: string) {
    '<' !in e && '>' !in e && Unescape(e) == c
  }

  lemma EscapeTextEscapes(c: string)
    ensures EscapedFrom(EscapeText(c), c)
  {
    UnescapeEscape(c);
  }

  /** The three code rules escape their captures; their templates as the table writes them. */
  lemma CodeTemplates()
    ensures RuleList()[0].escape && RuleList()[0].template == "<code class=\"mdjs-code-$1\"><pre>$2</pre></code>"
    ensures RuleList()[1].escape && RuleList()[1].template == "<code><pre>$1</pre></code>"
    ensures RuleList()[2].escape && RuleList()[2].template == "<code><span>$1</span></code>"
  {
  }

  /** The code templates cut at their slots. */
  lemma FencedLanguageTemplate()
    ensures "<code class=\"mdjs-code-$1\"><pre>$2</pre></code>"
      == "<code class=\"mdjs-code-" + "$1" + "\"><pre>" + "$2" + "</pre></code>"
  {
  }

  lemma FencedCodeTemplate()
    ensures "<code><pre>$1</pre></code>" == "<code><pre>" + "$1" + "</pre></code>"
  {
  }

  lemma InlineCodeTemplate()
    ensures "<code><span>$1</span></code>" == "<code><span>" + "$1" + "</span></code>"
  {
  }

  /** An escaping rule with one slot between fixed text: the capture, escaped, fills it. */
  lemma OneSlotEscaped(rule: Rule, x: string, y: string, c: string)
    requires rule.escape && rule.template == x + "$1" + y && '$' !in x && '$' !in y
    ensures Replacement(rule, [c]) == x + EscapeText(c) + y
  {
    assert EscapeAll([c]) == [EscapeText(c)];
    FillOneSlot(x, y, EscapeText(c));
  }

  /** A fence without a language line: the code, escaped, inside `<code><pre>`. */
  lemma FencedCodeRendered(c: string)
    ensures Replacement(RuleList()[1], [c]) == "<code><pre>" + EscapeText(c) + "</pre></code>"
    ensures EscapedFrom(EscapeText(c), c)
  {
    CodeTemplates();
    FencedCodeTemplate();
    OneSlotEscaped(RuleList()[1], "<code><pre>", "</pre></code>", c);
    EscapeTextEscapes(c);
  }

  /** Inline code: the code, escaped, inside `<code><span>`. */
  lemma InlineCodeRendered(c: string)
    ensures Replacement(RuleList()[2], [c]) == "<code><span>" + EscapeText(c) + "</span></code>"
    ensures EscapedFrom(EscapeText(c), c)
  {
    CodeTemplates();
    InlineCodeTemplate();
    OneSlotEscaped(RuleList()[2], "<code><span>", "</span></code>", c);
    EscapeTextEscapes(c);
  }

  /**
   * A fence with a language line: the language names the class and the
   * code goes inside `<pre>`, both escaped. The `$2` pass runs over the
   * already inserted language too, so a `$2` in it is replaced by the code.
   */
  lemma FencedLanguageRendered(lang: string, c: string)
    ensures Replacement(RuleList()[0], [lang, c])
      == "<code class=\"mdjs-code-" + ReplaceAll(EscapeText(lang), "$2", EscapeText(c))
         + "\"><pre>" + EscapeText(c) + "</pre></code>"
    ensures EscapedFrom(EscapeText(lang), lang) && EscapedFrom(EscapeText(c), c)
  {
    CodeTemplates();
    FencedLanguageTemplate();
    TwoSlotsEscaped(RuleList()[0], "<code class=\"mdjs-code-", "\"><pre>", "</pre></code>", lang, c);
    EscapeTextEscapes(lang);
    EscapeTextEscapes(c);
  }

  /** An escaping rule with two slots in order: both captures escaped, `$1` filled first. */
  lemma TwoSlotsEscaped(rule: Rule, x: string, y: string, z: string, a: string, b: string)
    requires rule.escape && rule.template == x + "$1" + y + "$2" + z
    requires '$' !in x && '$' !in y && '$' !in z && (y == [] || y[0] != '2')
    ensures Replacement(rule, [a, b])
      == x + ReplaceAll(EscapeText(a), "$2", EscapeText(b)) + y + EscapeText(b) + z
  {
    assert EscapeAll([a, b]) == [EscapeText(a), EscapeText(b)];
    FillTwoSlots(x, y, z, EscapeText(a), EscapeText(b));
  }

  /**
   * A link: the target goes into `href` and the text between the tags, both
   * unescaped; since `$1` is filled first, a `$2` in the link text is then
   * replaced by the target.
   */
  lemma LinkRendered(text: string, target: string)
    ensures Replacement(RuleList()[20], [text, target])
      == "<a href=\"" + target + "\">" + ReplaceAll(text, "$2", target) + "</a>"
  {
    var x, y, z := "<a href=\"", "\">", "</a>";
    var p1, p2 := "$1", "$2";
    assert RuleList()[20].template == x + p2 + y + p1 + z;
    FillSwappedSlots(x, y, z, text, target, p1, p2);
  }
}
