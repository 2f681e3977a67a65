/**
 * The rewrite rules and the engine that applies them. Each rule is one
 * whole-buffer `replace(regex, callback)` pass: the regular expression
 * finds its matches, and the callback turns the captures of each match into
 * the rule's template filled with those captures (escaped first when the
 * rule says so). The passes run once each, in the table's order, every
 * pass over the previous pass's output.
 *
 * Two shapes of pattern are given concrete matching semantics here: a
 * literal (`/\n\n/g`) and a marker followed by the rest of the line
 * (`/# (.*?)(\n|$)/g` and the other heading and quote rules). The other
 * patterns are matched by the regular-expression engine, a parameter.
 */
module Rules {
  import opened Wrappers
  import opened Text
  import opened Escape
  import opened Template

  /** One match: the matched span `[start, end)` and the text of each capture group. */
  datatype Match = Match(start: nat, end: nat, captures: seq<string>)

  datatype Pattern =
    /** A global regular expression that matches exactly the literal `text`. */
    | Literal(text: string)
    /** `marker(.*?)(\n|$)` with the `g` flag, and the `m` flag when `multiline`. */
    | LinePrefixed(marker: string, multiline: bool)
    /** Any other regular expression, given by its source and its flags. */
    | Opaque(source: string, flags: string)

  datatype Rule = Rule(pattern: Pattern, template: string, escape: bool)

  /**
   * The regular-expression engine: for a source, its flags and a subject,
   * the successive matches a global scan finds, left to right.
   */
  type Engine = (string, string, string) -> seq<Match>

  /** Matches in order, none overlapping the next, none starting before `from`. */
  predicate Ordered(s: string, ms: seq<Match>, from: int)
    decreases |ms|
  {
    ms == [] || (from <= ms[0].start <= ms[0].end <= |s| && Ordered(s, ms[1..], ms[0].end))
  }

  /** What every regular-expression engine guarantees about the matches it reports. */
  ghost predicate EngineSound(engine: Engine) {
    forall src, flags, s :: Ordered(s, engine(src, flags, s), 0)
  }

  // ----- the literal pattern -----

  /** The matches of a global literal pattern at or after `from`. */
  function LiteralScan(s: string, lit: string, from: nat): (r: seq<Match>)
    ensures Ordered(s, r, from)
    ensures forall i :: 0 <= i < |r| ==> r[i].captures == []
    decreases |s| + 1 - from
  {
    if from + |lit| > |s| then []
    else if s[from..from + |lit|] == lit then
      [Match(from, from + |lit|, [])] + LiteralScan(s, lit, if lit == [] then from + 1 else from + |lit|)
    else LiteralScan(s, lit, from + 1)
  }

  // ----- the marker-and-rest-of-line pattern -----

  /**
   * The lazy `(.*?)` then `(\n|$)` after the marker: extend the capture one
   * non-terminator at a time until a line feed (captured) or the end of the
   * line (`$`: the end of the text, or with `m` any line terminator, not
   * captured). A line terminator other than a line feed stops `.` and, without
   * `m`, fails the match.
   */
  function LineEnd(s: string, multiline: bool, start: nat, body: nat, j: nat): (r: Option<Match>)
    requires start <= body <= j <= |s|
    ensures r.Some? ==> r.value.start == start && j <= r.value.end <= |s|
    decreases |s| - j
  {
    if j < |s| && s[j] == '\n' then Some(Match(start, j + 1, [s[body..j], "\n"]))
    else if j == |s| || (multiline && IsLineTerminator(s[j])) then Some(Match(start, j, [s[body..j], ""]))
    else if IsLineTerminator(s[j]) then None
    else LineEnd(s, multiline, start, body, j + 1)
  }

  /** The match of `marker(.*?)(\n|$)` that starts at `p`, if any. */
  function PrefixedAt(s: string, marker: string, multiline: bool, p: nat): (r: Option<Match>)
    requires p <= |s|
    ensures r.Some? ==> r.value.start == p && p + |marker| <= r.value.end <= |s|
  {
    if p + |marker| <= |s| && s[p..p + |marker|] == marker then
      LineEnd(s, multiline, p, p + |marker|, p + |marker|)
    else None
  }

  /** The matches of the global scan from `from`; after an empty match the scan moves on by one. */
  function PrefixedScan(s: string, marker: string, multiline: bool, from: nat): (r: seq<Match>)
    ensures Ordered(s, r, from)
    decreases |s| + 1 - from
  {
    if from > |s| then []
    else
      match PrefixedAt(s, marker, multiline, from)
      case Some(m) => [m] + PrefixedScan(s, marker, multiline, if m.end == from then from + 1 else m.end)
      case None => PrefixedScan(s, marker, multiline, from + 1)
  }

  // ----- one pass -----

  /** The matches one pass replaces: all of them for a global pattern, the first for another. */
  function Matches(p: Pattern, s: string, engine: Engine): (r: seq<Match>)
    requires EngineSound(engine)
    ensures Ordered(s, r, 0)
  {
    match p
    case Literal(text) => LiteralScan(s, text, 0)
    case LinePrefixed(marker, multiline) => PrefixedScan(s, marker, multiline, 0)
    case Opaque(source, flags) =>
      var all := engine(source, flags, s);
      if 'g' in flags || |all| <= 1 then all else all[..1]
  }

  /** The callback: the rule's template filled with the match's captures, escaped if the rule says so. */
  function Replacement(rule: Rule, caps: seq<string>): string
  {
    Fill(rule.template, if rule.escape then EscapeAll(caps) else caps)
  }

  /** The text from `from` on, with every match replaced by its replacement and the gaps kept. */
  function Splice(s: string, ms: seq<Match>, rule: Rule, from: nat): string
    requires from <= |s| && Ordered(s, ms, from)
    decreases |ms|
  {
    if ms == [] then s[from..]
    else s[from..ms[0].start] + Replacement(rule, ms[0].captures) + Splice(s, ms[1..], rule, ms[0].end)
  }

  /** One rule's pass over the whole buffer. */
  function ApplyRule(rule: Rule, s: string, engine: Engine): string
    requires EngineSound(engine)
  {
    Splice(s, Matches(rule.pattern, s, engine), rule, 0)
  }

  /** The pass as `String.prototype.replace` runs it: find the matches, then splice them in. */
  method RunRule(rule: Rule, s: string, engine: Engine) returns (out: string)
    requires EngineSound(engine)
    ensures out == ApplyRule(rule, s, engine)
  {
    var ms := Matches(rule.pattern, s, engine);
    out := ReplaceMatches(rule, s, ms);
  }

  /**
   * Walk the matches in order, copy the text between them, and for each
   * match call the callback, which escapes the captures if the rule says so
   * and fills the template.
   */
  method ReplaceMatches(rule: Rule, s: string, ms: seq<Match>) returns (out: string)
    requires Ordered(s, ms, 0)
    ensures out == Splice(s, ms, rule, 0)
  {
    out := [];
    var cursor: nat := 0;
    assert ms[0..] == ms;
    for j := 0 to |ms|
      invariant cursor <= |s| && Ordered(s, ms[j..], cursor)
      invariant out + Splice(s, ms[j..], rule, cursor) == Splice(s, ms, rule, 0)
    {
      var m := ms[j];
      var replacement := Callback(rule, m.captures);
      Advance(s, ms, rule, j, cursor);
      out := out + s[cursor..m.start] + replacement;
      cursor := m.end;
    }
    assert ms[|ms|..] == [];
    out := out + s[cursor..];
  }

  /** The callback: escape the captures if the rule says so, then fill the template. */
  method Callback(rule: Rule, captures: seq<string>) returns (replacement: string)
    ensures replacement == Replacement(rule, captures)
  {
    var args := if rule.escape then EscapeAll(captures) else captures;
    replacement := FillTemplate(rule.template, args);
  }

  /** One step of `ReplaceMatches`: the splice from match `j` is its gap, its replacement and the splice from `j + 1`. */
  lemma Advance(s: string, ms: seq<Match>, rule: Rule, j: nat, cursor: nat)
    requires j < |ms| && cursor <= |s| && Ordered(s, ms[j..], cursor)
    ensures cursor <= ms[j].start <= ms[j].end <= |s|
    ensures Ordered(s, ms[j + 1..], ms[j].end)
    ensures Splice(s, ms[j..], rule, cursor)
      == s[cursor..ms[j].start] + Replacement(rule, ms[j].captures) + Splice(s, ms[j + 1..], rule, ms[j].end)
  {
    SpliceStep(s, ms[j..], rule, cursor);
    assert ms[j..][1..] == ms[j + 1..];
  }

  /** Splicing from the first match on: the gap, the first replacement, then the rest. */
  lemma SpliceStep(s: string, ms: seq<Match>, rule: Rule, from: nat)
    requires from <= |s| && Ordered(s, ms, from) && ms != []
    ensures Ordered(s, ms[1..], ms[0].end)
    ensures Splice(s, ms, rule, from)
      == s[from..ms[0].start] + Replacement(rule, ms[0].captures) + Splice(s, ms[1..], rule, ms[0].end)
  {
  }

  // ----- the pipeline -----

  /** The buffer after the passes of `rules`, in order, each over the previous one's output. */
  function Pipeline(rules: seq<Rule>, s: string, engine: Engine): string
    requires EngineSound(engine)
    decreases |rules|
  {
    if rules == [] then s
    else ApplyRule(rules[|rules| - 1], Pipeline(rules[..|rules| - 1], s, engine), engine)
  }

  /** Running two tables one after the other is running their concatenation. */
  lemma {:induction false} PipelineAppend(r1: seq<Rule>, r2: seq<Rule>, s: string, engine: Engine)
    requires EngineSound(engine)
    ensures Pipeline(r1 + r2, s, engine) == Pipeline(r2, Pipeline(r1, s, engine), engine)
    decreases |r2|
  {
    if r2 == [] {
      assert r1 + r2 == r1;
    } else {
      var last := r2[|r2| - 1];
      assert (r1 + r2)[..|r1 + r2| - 1] == r1 + r2[..|r2| - 1];
      PipelineAppend(r1, r2[..|r2| - 1], s, engine);
    }
  }

  /** The first rule runs first, on the input, and the others run on its output. */
  lemma PipelineFirst(rules: seq<Rule>, s: string, engine: Engine)
    requires EngineSound(engine) && rules != []
    ensures Pipeline(rules, s, engine) == Pipeline(rules[1..], ApplyRule(rules[0], s, engine), engine)
  {
    PipelineAppend([rules[0]], rules[1..], s, engine);
    assert [rules[0]] + rules[1..] == rules;
    assert [rules[0]][..0] == [];
  }

  /** A pipeline of passes that each leave `s` alone leaves `s` alone. */
  lemma {:induction false} PipelineIdle(rules: seq<Rule>, s: string, engine: Engine)
    requires EngineSound(engine)
    requires forall i :: 0 <= i < |rules| ==> ApplyRule(rules[i], s, engine) == s
    ensures Pipeline(rules, s, engine) == s
    decreases |rules|
  {
    if rules != [] {
      PipelineIdle(rules[..|rules| - 1], s, engine);
    }
  }

  /** A pipeline in which only one pass finds anything yields that pass's result. */
  lemma PipelineThrough(before: seq<Rule>, rule: Rule, after: seq<Rule>, s: string, out: string, engine: Engine)
    requires EngineSound(engine)
    requires forall i :: 0 <= i < |before| ==> ApplyRule(before[i], s, engine) == s
    requires ApplyRule(rule, s, engine) == out
    requires forall i :: 0 <= i < |after| ==> ApplyRule(after[i], out, engine) == out
    ensures Pipeline(before + [rule] + after, s, engine) == out
  {
    PipelineIdle(before, s, engine);
    PipelineIdle(after, out, engine);
    assert [rule][..0] == [];
    PipelineAppend(before, [rule], s, engine);
    PipelineAppend(before + [rule], after, s, engine);
  }

  // ----- literal passes -----

  /** Starting one character later: the skipped character is copied. */
  lemma SpliceShift(s: string, ms: seq<Match>, rule: Rule, from: nat)
    requires from < |s| && Ordered(s, ms, from + 1)
    ensures Splice(s, ms, rule, from) == [s[from]] + Splice(s, ms, rule, from + 1)
  {
    if ms == [] {
      assert s[from..] == [s[from]] + s[from + 1..];
    } else {
      assert s[from..ms[0].start] == [s[from]] + s[from + 1..ms[0].start];
    }
  }

  /** A match without captures is replaced by the bare template. */
  lemma ReplacementNoCaptures(rule: Rule)
    ensures Replacement(rule, []) == rule.template
  {
    assert EscapeAll([]) == [];
  }

  /** One step of a literal pass where the literal occurs at `from`. */
  lemma LiteralHit(s: string, lit: string, rule: Rule, from: nat)
    requires |lit| > 0 && from + |lit| <= |s| && s[from..from + |lit|] == lit
    ensures Splice(s, LiteralScan(s, lit, from), rule, from)
      == rule.template + Splice(s, LiteralScan(s, lit, from + |lit|), rule, from + |lit|)
  {
    ReplacementNoCaptures(rule);
    var ms := LiteralScan(s, lit, from);
    var tail := LiteralScan(s, lit, from + |lit|);
    assert ms == [Match(from, from + |lit|, [])] + tail;
    assert ms[1..] == tail;
    assert s[from..from] == [];
  }

  /** The replace function's step where the pattern occurs at the front. */
  lemma ReplaceAllHit(s: string, p: string, r: string, from: nat)
    requires |p| > 0 && from + |p| <= |s| && s[from..from + |p|] == p
    ensures ReplaceAll(s[from..], p, r) == r + ReplaceAll(s[from + |p|..], p, r)
  {
    var rest := s[from..];
    assert rest[..|p|] == p && rest[|p|..] == s[from + |p|..];
  }

  /** One step of a literal pass where the literal does not occur at `from`. */
  lemma LiteralMiss(s: string, lit: string, rule: Rule, from: nat)
    requires |lit| > 0 && from + |lit| <= |s| && s[from..from + |lit|] != lit
    ensures Splice(s, LiteralScan(s, lit, from), rule, from)
      == [s[from]] + Splice(s, LiteralScan(s, lit, from + 1), rule, from + 1)
    ensures ReplaceAll(s[from..], lit, rule.template)
      == [s[from]] + ReplaceAll(s[from + 1..], lit, rule.template)
  {
    var rest := s[from..];
    assert rest[..|lit|] != lit && rest[1..] == s[from + 1..];
    SpliceShift(s, LiteralScan(s, lit, from + 1), rule, from);
  }

  /** The end of a literal pass, where the literal no longer fits. */
  lemma LiteralShort(s: string, lit: string, rule: Rule, from: nat)
    requires |lit| > 0 && from <= |s| < from + |lit|
    ensures Splice(s, LiteralScan(s, lit, from), rule, from) == s[from..]
    ensures ReplaceAll(s[from..], lit, rule.template) == s[from..]
  {
    assert LiteralScan(s, lit, from) == [];
  }

  /** From `from` on, the literal pass and the global replace agree. */
  predicate LiteralAgrees(s: string, lit: string, rule: Rule, from: nat)
    requires |lit| > 0 && from <= |s|
  {
    Splice(s, LiteralScan(s, lit, from), rule, from) == ReplaceAll(s[from..], lit, rule.template)
  }

  lemma LiteralJoinHit(s: string, lit: string, rule: Rule, from: nat)
    requires |lit| > 0 && from + |lit| <= |s| && s[from..from + |lit|] == lit
    ensures LiteralAgrees(s, lit, rule, from + |lit|) ==> LiteralAgrees(s, lit, rule, from)
  {
    LiteralHit(s, lit, rule, from);
    ReplaceAllHit(s, lit, rule.template, from);
  }

  lemma LiteralJoinMiss(s: string, lit: string, rule: Rule, from: nat)
    requires |lit| > 0 && from + |lit| <= |s| && s[from..from + |lit|] != lit
    ensures LiteralAgrees(s, lit, rule, from + 1) ==> LiteralAgrees(s, lit, rule, from)
  {
    LiteralMiss(s, lit, rule, from);
  }

  /** Where the scan resumes after looking at `from`: past a hit, or one character on. */
  function LiteralNext(s: string, lit: string, from: nat): (r: nat)
    requires from + |lit| <= |s|
    ensures from < r <= |s| || (lit == [] && r == from)
  {
    if s[from..from + |lit|] == lit then from + |lit| else from + 1
  }

  lemma LiteralJoin(s: string, lit: string, rule: Rule, from: nat)
    requires |lit| > 0 && from + |lit| <= |s|
    ensures LiteralAgrees(s, lit, rule, LiteralNext(s, lit, from)) ==> LiteralAgrees(s, lit, rule, from)
  {
    if s[from..from + |lit|] == lit {
      LiteralJoinHit(s, lit, rule, from);
    } else {
      LiteralJoinMiss(s, lit, rule, from);
    }
  }

  /** A literal pass is the global replace of the literal by the template. */
  lemma {:induction false} LiteralPass(s: string, lit: string, rule: Rule, from: nat)
    requires |lit| > 0 && from <= |s|
    ensures LiteralAgrees(s, lit, rule, from)
    decreases |s| - from
  {
    if from + |lit| > |s| {
      LiteralShort(s, lit, rule, from);
    } else {
      LiteralPass(s, lit, rule, LiteralNext(s, lit, from));
      LiteralJoin(s, lit, rule, from);
    }
  }

  lemma LiteralRule(rule: Rule, s: string, engine: Engine)
    requires EngineSound(engine) && rule.pattern.Literal? && |rule.pattern.text| > 0
    ensures ApplyRule(rule, s, engine) == ReplaceAll(s, rule.pattern.text, rule.template)
  {
    LiteralPass(s, rule.pattern.text, rule, 0);
    assert s[0..] == s;
  }

  // ----- marker passes -----

  /** A marker that occurs nowhere from `from` on gives no match. */
  lemma {:induction false} PrefixedScanNone(s: string, marker: string, multiline: bool, from: nat)
    requires forall q :: from <= q ==> !OccursAt(s, marker, q)
    ensures PrefixedScan(s, marker, multiline, from) == []
    decreases |s| + 1 - from
  {
    if from <= |s| {
      assert !OccursAt(s, marker, from);
      PrefixedScanNone(s, marker, multiline, from + 1);
    }
  }

  /** The scan passes over positions where the marker does not occur. */
  lemma {:induction false} PrefixedScanSkip(s: string, marker: string, multiline: bool, from: nat, until: nat)
    requires from <= until <= |s|
    requires forall q :: from <= q < until ==> !OccursAt(s, marker, q)
    ensures PrefixedScan(s, marker, multiline, from) == PrefixedScan(s, marker, multiline, until)
    decreases until - from
  {
    if from < until {
      assert !OccursAt(s, marker, from);
      PrefixedScanSkip(s, marker, multiline, from + 1, until);
    }
  }

  /** A marker pass over a text where the marker does not occur changes nothing. */
  lemma PrefixedIdle(rule: Rule, s: string, engine: Engine)
    requires EngineSound(engine) && rule.pattern.LinePrefixed?
    requires forall q :: !OccursAt(s, rule.pattern.marker, q)
    ensures ApplyRule(rule, s, engine) == s
  {
    PrefixedScanNone(s, rule.pattern.marker, rule.pattern.multiline, 0);
    assert s[0..] == s;
  }

  /** Without line terminators ahead, the lazy scan runs to the end of the text. */
  lemma {:induction false} LineEndRuns(s: string, multiline: bool, start: nat, body: nat, j: nat)
    requires start <= body <= j <= |s|
    requires forall i :: j <= i < |s| ==> !IsLineTerminator(s[i])
    ensures LineEnd(s, multiline, start, body, j) == Some(Match(start, |s|, [s[body..], ""]))
    decreases |s| - j
  {
    if j < |s| {
      LineEndRuns(s, multiline, start, body, j + 1);
    } else {
      assert s[body..j] == s[body..];
    }
  }

  /**
   * The lazy scan stops at the first line terminator at or after `j`, or at
   * the end of the text: a line feed ends the match and is captured; the end
   * of the text, or with `m` any other terminator, ends it with "" captured;
   * without `m` another terminator leaves no match.
   */
  lemma {:induction false} LineEndAt(s: string, multiline: bool, start: nat, body: nat, j: nat, q: nat)
    requires start <= body <= j <= q <= |s|
    requires forall i :: j <= i < q ==> !IsLineTerminator(s[i])
    requires q == |s| || IsLineTerminator(s[q])
    ensures LineEnd(s, multiline, start, body, j)
      == if q < |s| && s[q] == '\n' then Some(Match(start, q + 1, [s[body..q], "\n"]))
         else if q == |s| || multiline then Some(Match(start, q, [s[body..q], ""]))
         else None
    decreases q - j
  {
    if j < q {
      LineEndAt(s, multiline, start, body, j + 1, q);
    }
  }

  /**
   * A marker at `p` whose line ends at `q`: the scan from `p` reports the
   * match `LineEnd` gives and resumes where it ends, or, when there is none,
   * moves on to `p + 1`.
   */
  lemma PrefixedScanLine(s: string, marker: string, multiline: bool, p: nat, q: nat)
    requires |marker| > 0 && OccursAt(s, marker, p)
    requires p + |marker| <= q <= |s|
    requires forall i :: p + |marker| <= i < q ==> !IsLineTerminator(s[i])
    requires q == |s| || IsLineTerminator(s[q])
    ensures PrefixedScan(s, marker, multiline, p)
      == if q < |s| && s[q] == '\n' then
           [Match(p, q + 1, [s[p + |marker|..q], "\n"])] + PrefixedScan(s, marker, multiline, q + 1)
         else if q == |s| || multiline then
           [Match(p, q, [s[p + |marker|..q], ""])] + PrefixedScan(s, marker, multiline, q)
         else PrefixedScan(s, marker, multiline, p + 1)
  {
    LineEndAt(s, multiline, p, p + |marker|, p + |marker|, q);
  }

  /** A text that is the marker and one line without a line terminator is one match, with captures the line and "". */
  lemma PrefixedWhole(marker: string, multiline: bool, line: string)
    requires |marker| > 0
    requires forall i :: 0 <= i < |line| ==> !IsLineTerminator(line[i])
    ensures PrefixedScan(marker + line, marker, multiline, 0)
      == [Match(0, |marker + line|, [line, ""])]
  {
    var s := marker + line;
    assert s[0..|marker|] == marker;
    assert s[|marker|..] == line;
    LineEndRuns(s, multiline, 0, |marker|, |marker|);
    assert PrefixedAt(s, marker, multiline, 0) == Some(Match(0, |s|, [line, ""]));
    assert PrefixedAt(s, marker, multiline, |s|) == None;
    assert PrefixedScan(s, marker, multiline, |s| + 1) == [];
  }

  /**
   * A text whose first occurrence of the marker is at `p`, with no line
   * terminator after it, gives one match, from `p` to the end.
   */
  lemma PrefixedTail(s: string, marker: string, multiline: bool, p: nat)
    requires |marker| > 0 && OccursAt(s, marker, p)
    requires forall q :: 0 <= q < p ==> !OccursAt(s, marker, q)
    requires forall i :: p + |marker| <= i < |s| ==> !IsLineTerminator(s[i])
    ensures PrefixedScan(s, marker, multiline, 0) == [Match(p, |s|, [s[p + |marker|..], ""])]
  {
    PrefixedScanSkip(s, marker, multiline, 0, p);
    LineEndRuns(s, multiline, p, p + |marker|, p + |marker|);
    assert PrefixedAt(s, marker, multiline, |s|) == None;
    assert PrefixedScan(s, marker, multiline, |s|) == [];
  }

  /** A text that opens with the marker, whose first line ends in a line feed, and with no later marker, matches once: that line. */
  lemma PrefixedFirstLine(s: string, marker: string, multiline: bool, q: nat)
    requires |marker| > 0 && OccursAt(s, marker, 0)
    requires |marker| <= q < |s| && s[q] == '\n'
    requires forall i :: |marker| <= i < q ==> !IsLineTerminator(s[i])
    requires forall k :: q + 1 <= k ==> !OccursAt(s, marker, k)
    ensures PrefixedScan(s, marker, multiline, 0) == [Match(0, q + 1, [s[|marker|..q], "\n"])]
  {
    PrefixedScanLine(s, marker, multiline, 0, q);
    PrefixedScanNone(s, marker, multiline, q + 1);
  }

  /** A marker one of whose characters is missing from the text past `from` occurs nowhere from `from` on. */
  lemma MarkerAbsent(s: string, marker: string, from: nat, d: nat)
    requires d < |marker| && forall i :: from + d <= i < |s| ==> s[i] != marker[d]
    ensures forall k :: from <= k ==> !OccursAt(s, marker, k)
  {
    forall k | from <= k ensures !OccursAt(s, marker, k) {
      if k + |marker| <= |s| {
        assert s[k..k + |marker|][d] == s[k + d];
      }
    }
  }

  /** A pass whose pattern matches once keeps the text on either side of the match. */
  lemma ApplyOne(rule: Rule, s: string, engine: Engine, m: Match)
    requires EngineSound(engine) && Matches(rule.pattern, s, engine) == [m]
    ensures m.start <= m.end <= |s|
    ensures ApplyRule(rule, s, engine) == s[..m.start] + Replacement(rule, m.captures) + s[m.end..]
  {
    SpliceOne(s, m.start, m.end, m.captures, rule);
  }

  /** A pass with a single match keeps the text on either side of it. */
  lemma SpliceOne(s: string, p: nat, e: nat, caps: seq<string>, rule: Rule)
    requires p <= e <= |s|
    ensures Ordered(s, [Match(p, e, caps)], 0)
    ensures Splice(s, [Match(p, e, caps)], rule, 0) == s[..p] + Replacement(rule, caps) + s[e..]
  {
    var ms := [Match(p, e, caps)];
    assert ms[1..] == [];
    assert s[0..p] == s[..p];
  }

  /** A pass whose single match runs to the end keeps the text before it. */
  lemma SpliceTail(s: string, p: nat, caps: seq<string>, rule: Rule)
    requires p <= |s|
    ensures Ordered(s, [Match(p, |s|, caps)], 0)
    ensures Splice(s, [Match(p, |s|, caps)], rule, 0) == s[..p] + Replacement(rule, caps)
  {
    var ms := [Match(p, |s|, caps)];
    assert ms[1..] == [];
    assert s[|s|..] == [];
  }

  /** A pass whose single match covers the whole text yields that match's replacement. */
  lemma SpliceWhole(s: string, caps: seq<string>, rule: Rule)
    ensures Ordered(s, [Match(0, |s|, caps)], 0)
    ensures Splice(s, [Match(0, |s|, caps)], rule, 0) == Replacement(rule, caps)
  {
    var ms := [Match(0, |s|, caps)];
    assert ms[1..] == [];
    assert s[0..0] == [] && s[|s|..] == [];
  }
}
