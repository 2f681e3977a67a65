# mdjs `MarkdownParser` in Dafny

This project models the `MarkdownParser` class of mdjs (`mdjs.js`). The
class turns a small markdown dialect into an HTML fragment and a metadata
record. It also proves properties of that model.

A parse has three stages:

- **Front matter.** The parser finds the front-matter block with the
  expression `^---\s*\n([\s\S]*?)\n---\s*\n` and the `m` flag. Each
  `key: value` line of the block sets a property on the metadata object, in
  place. The matched text is then cut from the document, and the rest is
  trimmed.
- **Rules.** The parser runs its table of twenty-eight rewrite rules once
  each, in table order. Each rule is a whole-buffer `replace` with a callback.
  The callback escapes the captures for the three code rules, then fills
  `$1`, `$2`, … of the rule's template in ascending order.
- **Wrapping.** The result goes between a fixed prefix and suffix.

Modules:

- **`Wrappers`**: `Option`.
- **`Text`**: the JavaScript string operations the parser relies on:
  - the `\s` class, `trim`, `split` and `join`, and `indexOf`;
  - `replace` with a string pattern, which replaces the first occurrence only;
  - a global `replace` whose pattern matches one literal.
- **`Escape`**: the text-mode escaping that the DOM round trip performs
  (`createTextNode`, then `innerHTML`). `Unescape` is its inverse.
- **`Template`**: `$k` placeholders and the fill loop. `Fill` is the
  specification; the method `FillTemplate` is the loop.
- **`Rules`**: patterns, matches and rules, and what one pass does:
  - `Splice` and `ApplyRule` are the specification; the methods `RunRule`,
    `ReplaceMatches` and `Callback` implement it.
  - `Pipeline` runs the rules one after another.
  - Two pattern shapes get exact matching semantics: the literal `\n\n` and
    the `marker(.*?)(\n|$)` heading and quote rules.
  - Every other expression is matched by a regular-expression engine that is
    a parameter. The engine is only required to report ordered,
    non-overlapping matches that lie inside the text.
- **`RuleTable`**: `RuleList`, the twenty-eight rules of `mdjs.js:25-54`
  in their order, with:
  - their templates and escape flags;
  - lemmas about heading precedence, the final break pass, which rules
    escape, and how the code and link rules render.
- **`FrontMatter`**: the front-matter search and the metadata lines.
  - The search follows the expression's backtracking order: leftmost start,
    then longest opening white-space run, then shortest body, then longest
    closing run.
  - It is proved to report a match exactly when one exists, and the one that
    comes first in that order.
- **`Mdjs`**: the `MarkdownParser` class and a `MetadataRecord` class for
  the metadata object.
  - The parser's public `metadata` field and its private default are the
    same object. `Valid()` states that, and every method keeps it true.
  - `metadata` is a public field, so a caller could assign another object to
    it between calls. `Valid()` assumes no caller does; the model's methods
    never do.
  - Under `Valid()`, the reset `this.metadata = this.#fallbackMetadata` of a
    parse without front matter (`mdjs.js:132`) assigns the object the field
    already holds, so it changes nothing.
  - So front matter updates the default object in place, and keys from
    earlier parses stay.

## Behaviour of the code a reader may not expect

- **Metadata value.** The value of a metadata line is the text between the
  first and the second colon, not everything after the first colon. The code
  destructures only two elements of the split (`mdjs.js:127`);
  `FrontMatter.LineWithColons` states this.
- **Lines without a colon.** They are not ignored. They set their trimmed
  text as a key whose value is `undefined` (`None` in the model).
- **No fresh metadata per parse.** Each parse writes into the single default
  object. A parse without front matter keeps whatever earlier parses put
  there (`FrontMatter.ExtractKeepsKeys`, `Mdjs.MarkdownParser.Parse`).
- **Block position.** The block need not open the document. With the `m`
  flag it may start at any line, and the search takes the first match.
- **Which text is removed.** The document loses the first textual occurrence
  of the matched text. That occurrence can come before the match itself. In
  `a---`, a blank line, `---`, a blank line, `---`, a blank line, `---`, the
  match starts on the second line. The same text first occurs right after the
  `a`, so the document becomes `a`, a line feed and `---`
  (`FrontMatter.RemoveEarlierCopy`).
- **Headings inside headings.** The heading rules have no `^`, so a mark and
  a space anywhere on a line start a heading (`RuleTable.HeadingAfter`). A
  level-2 line whose text holds `# ` is rendered twice: the one-mark rule runs
  after the two-mark rule and matches inside the rendered heading. `## a # b`
  becomes `<h2>a <h1>b</h2></h1>`, with the tags crossed
  (`RuleTable.NestedHeading`).

## Model

| member | source | states |
|---|---|---|
| Text.TrimShape | mdjs.js:125 | `trim` returns a slice of its input; only white space is cut on either side; the result neither starts nor ends with white space |
| Text.TrimUnique | mdjs.js:130 | any white space + unpadded core + white space trims to exactly that core |
| Text.TrimIdempotent | mdjs.js:125 | trimming twice is trimming once |
| Text.LeadingSpace | mdjs.js:125 | the white-space run that opens a string: all of it is white space, and it ends at the end or at a character that is not |
| Text.TrimUnpadded | mdjs.js:125 | a string that neither starts nor ends with white space trims to itself |
| Text.Split | mdjs.js:127 | `split` on one character: at least one piece, no piece holds the separator, and joining the pieces gives the input back |
| Text.SplitNoSeparator | mdjs.js:127 | a string without the separator splits into itself alone |
| Text.SplitAtFirst | mdjs.js:127 | the first piece ends at the first separator; the remaining pieces are the split of what follows it |
| Text.SplitJoin | mdjs.js:125 | splitting the join of separator-free pieces gives those pieces back (partner of `Split`'s join property) |
| Text.IndexOf | mdjs.js:130 | a reported position is at or after the start and the pattern occurs there |
| Text.IndexOfFirst | mdjs.js:130 | every occurrence at or after the start is found, and none earlier than the reported one is skipped |
| Text.ReplaceFirst | mdjs.js:130 | definition: `replace` with a string pattern, the text before the first occurrence of the pattern, the replacement, then the text after that occurrence; the text unchanged when the pattern does not occur |
| Text.ReplaceAll | mdjs.js:108 | definition: a global `replace` of a non-empty literal, scanning left to right, replacing each occurrence and resuming after it, copying every other character |
| Text.ReplaceAllSelf | mdjs.js:108 | replacing a pattern by itself leaves the text unchanged |
| Text.ReplaceAllAbsent | mdjs.js:108 | a text that never shows the pattern's first character is left unchanged |
| Text.ReplaceAllChars | mdjs.js:108 | every character of the result comes from the text or from the replacement |
| Text.ReplaceAllConcat | mdjs.js:108 | when no occurrence spans the junction, a global replace over `a + b` is the replace over `a` followed by the replace over `b` |
| Text.ReplaceAllClearsPair | mdjs.js:53 | after replacing every `cc` by a text without `c`, no two adjacent `c`s remain |
| Escape.EscapeChar | mdjs.js:95-99 | `&`, no-break space, `<` and `>` become `&amp;`, `&nbsp;`, `&lt;`, `&gt;`; every other character is kept |
| Escape.EscapeText | mdjs.js:95-99 | the escaped capture holds no `<`, `>` or no-break space and is at least as long as the capture |
| Escape.UnescapeEscape | mdjs.js:95-99 | escaping loses nothing: reading the escaped text back gives the capture |
| Escape.UnescapeReference | mdjs.js:95-99 | each of the four character references reads back as the character it stands for |
| Escape.UnescapePlain | mdjs.js:95-99 | a character other than `&` reads back as itself |
| Escape.EscapeTextUnchanged | mdjs.js:95-99 | escaping leaves a capture unchanged if and only if it holds none of the four characters |
| Escape.EscapeTextLonger | mdjs.js:95-99 | a capture holding one of the four characters grows by at least three |
| Escape.EscapeAll | mdjs.js:94-103 | with escaping on, capture `k` is replaced by its escaped text, position by position |
| Template.Decimal | mdjs.js:107 | the numeral of `k` is a non-empty string of digits (which number it denotes: `Template.DecimalValue`) |
| Template.Placeholder | mdjs.js:107 | the placeholder is `$` followed by characters other than `$` (which capture it names: `Template.PlaceholderValue`) |
| Template.Fill | mdjs.js:105-110 | definition: capture `k` replaces every `$k` of the text as it stands after captures `1` to `k - 1` were filled, for `k` from 1 up to the number of captures |
| Template.FillTemplate | mdjs.js:105-110 | the fill loop, one global replace per capture in ascending `$k` order, yields `Fill` of the template and the captures |
| Template.FillPlain | mdjs.js:105-110 | a template without `$` (the `<hr>` and `<br>` rules) comes back unchanged, whatever the captures |
| Template.PlaceholderOneTwo | mdjs.js:107 | placeholders 1 and 2 are `$1` and `$2` |
| Template.DecimalValue | mdjs.js:107 | the numeral of `k` reads back as `k`, and it starts with `0` only when `k` is 0: it is the numeral JavaScript prints for `k` |
| Template.PlaceholderValue | mdjs.js:107 | the digits after the `$` of the `k`-th placeholder read back as `k` |
| Template.DigitRoundTrip | mdjs.js:107 | each digit character reads back as its value |
| Template.OtherPlaceholderKept | mdjs.js:108 | the `$1` pass leaves `$2` alone, and the `$2` pass leaves `$1` alone |
| Template.FillOneSlot | mdjs.js:105-110 | one `$1` between `$`-free markup and one capture: the capture appears once, verbatim, and the markup is kept |
| Template.FillFirstOfTwo | mdjs.js:106-110 | one `$1` and two captures (the heading and quote rules): every `$2` that capture 1 brought in is replaced by capture 2 |
| Template.TwoPassMarkup | mdjs.js:108 | a `$k` pass over `$`-free markup with a capture inserted replaces only inside the capture |
| Template.FillTwoSlots | mdjs.js:106-110 | `$1` before `$2`: capture 1 lands at `$1`, with its own `$2`s replaced by capture 2, and capture 2 lands at `$2` |
| Template.FillSwappedSlots | mdjs.js:106-110 | `$2` before `$1`: capture 2 fills the `$2` slot and every `$2` that capture 1 brought in |
| Rules.LiteralScan | mdjs.js:53 | the literal pattern's matches are in order, do not overlap and capture nothing |
| Rules.LineEnd | mdjs.js:30 | the lazy `(.*?)(\n|$)` match keeps its start and ends inside the text (its exact result is `Rules.LineEndAt`) |
| Rules.PrefixedAt | mdjs.js:30-37 | a marker match starts at the given position and covers at least the marker (its exact result is `Rules.PrefixedScanLine`) |
| Rules.PrefixedScan | mdjs.js:30-37 | the global scan of a marker rule reports matches in order, without overlap (each step is `Rules.PrefixedScanLine`) |
| Rules.LineEndAt | mdjs.js:30-37 | the lazy capture stops at the first line terminator or the end of the text: a line feed is consumed and captured as `"\n"`; the end of the text, or with `m` any other terminator, ends the match with `""` captured; without `m` another terminator leaves no match |
| Rules.PrefixedScanLine | mdjs.js:30-37 | where the marker occurs, the scan reports the match `LineEndAt` gives and resumes at its end, or, when there is no match, moves on one position |
| Rules.PrefixedFirstLine | mdjs.js:30-37 | a text that opens with the marker, whose first line ends in a line feed, and with no later marker, has exactly one match: that line with its line feed |
| Rules.MarkerAbsent | mdjs.js:30-37 | a marker one of whose characters is missing from the text past a position occurs nowhere from that position on |
| Rules.Matches | mdjs.js:90 | the matches a pass replaces lie inside the text, in order and without overlap |
| Rules.Replacement | mdjs.js:93-111 | definition: the callback's result, the rule's template filled with the captures, escaped first when the rule escapes |
| Rules.Splice | mdjs.js:90-112 | definition: the text from a position on, with each match replaced by its replacement and the text between matches copied |
| Rules.ApplyRule | mdjs.js:90-112 | definition: one rule's `replace` over the whole buffer, the splice of the matches its pattern finds |
| Rules.Pipeline | mdjs.js:89-113 | definition: the rules applied one after another, each to the output of the one before |
| Rules.Callback | mdjs.js:90-111 | the callback's result is the rule's template filled with the captures, escaped exactly when the rule says so |
| Rules.ReplaceMatches | mdjs.js:90-112 | the walk over the matches copies the gaps and inserts each match's replacement, giving the specified splice of the pass |
| Rules.RunRule | mdjs.js:90-112 | one rule's `replace` over the buffer yields `ApplyRule` of that rule |
| Rules.Advance | mdjs.js:90-112 | the splice from match `j` is its gap, its replacement, then the splice from match `j + 1` |
| Rules.PipelineAppend | mdjs.js:89-113 | running two tables one after the other is running their concatenation |
| Rules.PipelineFirst | mdjs.js:89-113 | the first rule runs on the input, and the remaining rules run on its output |
| Rules.PipelineIdle | mdjs.js:89-113 | rules that each leave a text alone leave it alone together |
| Rules.PipelineThrough | mdjs.js:89-113 | when only one rule of a run changes the text, the run yields that rule's result |
| Rules.SpliceShift | mdjs.js:90 | text before the first match is copied character by character |
| Rules.ReplacementNoCaptures | mdjs.js:105-111 | a match without captures is replaced by the bare template |
| Rules.LiteralHit | mdjs.js:53 | where the literal occurs, the pass emits the template and resumes after the literal |
| Rules.LiteralMiss | mdjs.js:53 | where the literal does not occur, the pass copies one character and resumes |
| Rules.LiteralPass | mdjs.js:53 | from any position, the literal pass agrees with the global literal replace |
| Rules.LiteralRule | mdjs.js:53 | a literal rule's pass is the global replace of the literal by the template |
| Rules.PrefixedScanNone | mdjs.js:30-37 | a marker that occurs nowhere gives no match |
| Rules.PrefixedIdle | mdjs.js:30-37 | a marker pass over a text without the marker changes nothing |
| Rules.LineEndRuns | mdjs.js:30-37 | with no line terminator ahead, the lazy capture runs to the end of the text, and the `$` branch captures "" |
| Rules.PrefixedWhole | mdjs.js:30-37 | a marker followed by one line without terminators is one match, capturing the line and "" |
| Rules.PrefixedTail | mdjs.js:30-37 | the first occurrence of the marker, followed by no line terminator, gives exactly one match, from there to the end |
| Rules.SpliceTail | mdjs.js:90 | a single match running to the end keeps the text before it and appends the replacement |
| Rules.SpliceWhole | mdjs.js:90 | a single match covering the whole text yields its replacement alone |
| Rules.SpliceOne | mdjs.js:90 | a single match keeps the text before and after it, and its replacement goes in between |
| Rules.ApplyOne | mdjs.js:90-112 | a pass whose pattern matches once keeps the text on either side of the match |
| RuleTable.RuleList | mdjs.js:25-54 | definition: the twenty-eight rules in the order the parser runs them, each with its pattern, template and escape flag; there are twenty-eight of them |
| RuleTable.BreakPassLast | mdjs.js:53 | the last pass replaces every `\n\n` in what the first twenty-seven rules produced with `<br>` |
| RuleTable.NoBlankLinePairLeft | mdjs.js:53 | whatever the earlier rules produce, the output of the table has no two adjacent line feeds |
| RuleTable.HeadingPositions | mdjs.js:30-35 | the level-`n` heading rule sits at index `10 - n`, so six marks come first and one mark last |
| RuleTable.HeadingSlice | mdjs.js:30-35 | rules 4 to 9 are the heading rules from six marks down to one |
| RuleTable.HeadingPass | mdjs.js:30-35 | the level-`n` rule turns a line of `n` marks, a space and text into `<hn>` text `</hn>` |
| RuleTable.HeadingRendered | mdjs.js:30-35 | the heading callback puts the line between the tags and drops any `$2` in it (the empty second capture) |
| RuleTable.HeadingFilled | mdjs.js:30-35 | with a line free of `$`, the heading callback gives the line between the tags, whatever the second capture |
| RuleTable.HeadingLineFeed | mdjs.js:30-35 | a heading line ended by a line feed: the line feed is consumed, and the next line follows the closing tag directly |
| RuleTable.HeadingCarriageReturn | mdjs.js:30-35 | a heading line ended by a carriage return is not a heading (no `m` flag), and the text is kept |
| RuleTable.HeadingLineFeedExample | mdjs.js:35 | `# a`, a line feed and `b` become `<h1>a</h1>b` |
| RuleTable.HeadingCarriageReturnExample | mdjs.js:35 | `# a`, a carriage return and a line feed are left unchanged |
| RuleTable.LongerMarkerIdle | mdjs.js:30-35 | a rule with more marks than the line has finds nothing in it |
| RuleTable.MarkFreeIdle | mdjs.js:30-35 | a heading rule finds nothing in a text without `#` |
| RuleTable.RenderedMarkFree | mdjs.js:30-35 | a rendered heading contains no `#` when its text contained none |
| RuleTable.HeadingPrecedence | mdjs.js:30-35 | for heading text without `#` and without line breaks: run in table order, the heading rules turn a line of `n` marks into a level-`n` heading |
| RuleTable.HeadingsInOrder | mdjs.js:30-35 | for heading text without `#` and without line breaks: run from six marks down to one, the heading rules render a line of `n` marks at level `n` |
| RuleTable.ShorterRulesIdle | mdjs.js:30-35 | the heading rules after level `n` leave a text without `#` unchanged |
| RuleTable.OneMarkRuleAlone | mdjs.js:35 | why the order matters: run alone on a six-mark line, the one-mark rule would leave five marks in front of an `<h1>` |
| RuleTable.OneMarkScan | mdjs.js:35 | the one-mark marker first occurs at the last mark of a six-mark line |
| RuleTable.HeadingAfter | mdjs.js:35 | the one-mark rule is not anchored to a line start: after text without `#`, a mark and a space start a level-1 heading that runs to the end of the text, and the text before it is kept |
| RuleTable.ShortRunIdle | mdjs.js:30-33 | the rules of three to six marks find nothing in a text without three marks in a row |
| RuleTable.NestedHeading | mdjs.js:34-35 | a line made of `## `, a text `a`, `# ` and a text `b` (neither holding `#`, `$` or a line break) becomes `<h2>`, `a`, `<h1>`, `b`, `</h2>`, `</h1>`: the one-mark rule matches again inside the rendered heading |
| RuleTable.NestedFirstPasses | mdjs.js:30-34 | on such a line, the rules of six marks down to two leave only the level-2 rendering, whose text still holds the mark |
| RuleTable.NestedLastPass | mdjs.js:35 | the one-mark rule then wraps the rest of the rendered heading, closing tag included, in level-1 tags |
| RuleTable.NestedHeadingExample | mdjs.js:34-35 | `## a # b` becomes `<h2>a <h1>b</h2></h1>` |
| RuleTable.LineFeedScan | mdjs.js:30-35 | a marker, a line, a line feed and then text without marks give exactly one match, which takes the line feed with it |
| RuleTable.EscapingRules | mdjs.js:26-54 | a rule escapes its captures if and only if it is one of the first three (the code rules); the callback fills the template with the escaped or the raw captures accordingly |
| RuleTable.EscapeTextEscapes | mdjs.js:95-99 | an escaped capture has no `<` or `>`, and reading it back gives the capture |
| RuleTable.CodeTemplates | mdjs.js:26-28 | the three code rules escape, and their templates are as the table writes them |
| RuleTable.FencedCodeRendered | mdjs.js:27 | a fence without a language renders the escaped code inside `<code><pre>` |
| RuleTable.InlineCodeRendered | mdjs.js:28 | inline code renders escaped inside `<code><span>` |
| RuleTable.FencedLanguageRendered | mdjs.js:26 | a fence with a language puts the escaped language in the class and the escaped code in `<pre>`; a `$2` in the language becomes the code |
| RuleTable.LinkRendered | mdjs.js:46 | a link puts the target in `href` and the text between the tags, unescaped; a `$2` in the text becomes the target |
| FrontMatter.RunEnd | mdjs.js:122 | the white-space run from a position ends at the first character that is not white space |
| FrontMatter.LastNewline | mdjs.js:122 | the line feed the greedy `\s*` stops at lies in the run and is a line feed |
| FrontMatter.CloseAt | mdjs.js:122 | a reported closing run is a `\n---`, white space and a line feed |
| FrontMatter.FindClose | mdjs.js:122 | the lazy body stops at a position where a closing run starts |
| FrontMatter.FindOpen | mdjs.js:122 | a reported match opens at the given start and is followed by a closing run |
| FrontMatter.BlockAt | mdjs.js:122 | a match reported at a position is a match of the expression starting there |
| FrontMatter.FindFrom | mdjs.js:122-123 | the search reports only matches of the expression |
| FrontMatter.FindBlock | mdjs.js:123 | `match` reports only matches of the expression |
| FrontMatter.RunEndCovers | mdjs.js:122 | a white-space run through a position ends after it |
| FrontMatter.LastNewlineLatest | mdjs.js:122 | the greedy run keeps the latest line feed it can |
| FrontMatter.CloseAtComplete | mdjs.js:122 | every closing run from a position ends at or before the one the search picks |
| FrontMatter.FindCloseFirst | mdjs.js:122 | the lazy body finds the first closing line |
| FrontMatter.FindOpenFirst | mdjs.js:122 | from a given start, the search finds a match no later in the expression's order than any other match from that start |
| FrontMatter.BlockAtFirst | mdjs.js:122 | at a match's start, the search finds a match at least as early in the expression's order |
| FrontMatter.FindFromFirst | mdjs.js:122-123 | scanning forward finds a match at least as early as any match at or after the scan start |
| FrontMatter.FindBlockFirst | mdjs.js:122-123 | whenever the expression matches, `match` reports a match, and it is the first in the expression's order |
| FrontMatter.FindBlockNone | mdjs.js:123-124 | `match` fails if and only if the expression has no match at all |
| FrontMatter.MetadataLines | mdjs.js:125 | the lines have no line feed, and joined with line feeds they give back the trimmed body |
| FrontMatter.OneMetadataLine | mdjs.js:125 | a body that is a single line, neither starting nor ending with white space, is that one line |
| FrontMatter.ParseLine | mdjs.js:127 | definition: the line split at colons; the key is the first piece trimmed, and the value is the second piece trimmed, or undefined when there is no colon |
| FrontMatter.ParseLines | mdjs.js:126-127 | one entry per line, and entry `i` is line `i` parsed |
| FrontMatter.LineWithoutColon | mdjs.js:127-128 | a line without a colon sets its trimmed text as the key, with an undefined value |
| FrontMatter.LineWithColon | mdjs.js:127-128 | `key:value` sets the trimmed key to the trimmed value |
| FrontMatter.LineWithColons | mdjs.js:127 | the value is the text between the first and the second colon; the rest of the line is dropped |
| FrontMatter.ParseLinesStep | mdjs.js:126-127 | parsing one more line appends its entry |
| FrontMatter.AssignStep | mdjs.js:128 | one more entry sets its key on the record so far |
| FrontMatter.Assign | mdjs.js:126-129 | definition: the record after each entry in turn has set its key to its value |
| FrontMatter.AssignKeys | mdjs.js:126-129 | the keys afterwards are the old keys plus every entry's key (both directions) |
| FrontMatter.AssignLastWins | mdjs.js:126-129 | a key takes the value of the last line that sets it |
| FrontMatter.AssignUntouched | mdjs.js:126-129 | a key no line sets keeps its old value, or stays absent |
| FrontMatter.ExtractWithoutBlock | mdjs.js:131-133 | without front matter, the document and the metadata stay as they were |
| FrontMatter.ExtractUnmatched | mdjs.js:131-133 | when `match` fails, nothing changes |
| FrontMatter.ExtractMatched | mdjs.js:124-130 | with a match, the record absorbs the lines of the body, and the document loses the matched text and is trimmed |
| FrontMatter.Extract | mdjs.js:121-134 | definition: with a match, the record absorbs the body's lines and the document loses the matched text and is trimmed; without one, both stay as they were |
| FrontMatter.ExtractSetsKey | mdjs.js:124-129 | a `key:value` line of the front matter, neither part holding a colon, leaves the trimmed key mapped to the trimmed value, unless a later line sets the same key |
| FrontMatter.AbsorbOneLine | mdjs.js:125-129 | a body of one line sets that line's key and nothing else |
| FrontMatter.ExtractKeepsKeys | mdjs.js:126-132 | extraction never drops a key the record held; without front matter its value is unchanged |
| FrontMatter.RemovePrefix | mdjs.js:130 | removing the first occurrence of a prefix removes that prefix |
| FrontMatter.CutLeading | mdjs.js:130 | a match at the very start is cut off as a prefix |
| FrontMatter.RemoveLeading | mdjs.js:130 | a document that starts with its match keeps what follows the match, trimmed |
| FrontMatter.ExtractLeadingBlock | mdjs.js:122-130 | a document that opens with front matter is reported as matching at offset 0 and keeps only what follows, trimmed |
| FrontMatter.HelloBlock | mdjs.js:122-123 | in `---`, `title: Hello`, `---`, `Body` (one per line) the search matches from the first line to the line feed after the closing dashes |
| FrontMatter.ExtractHello | mdjs.js:121-134 | that document sets `title` to `Hello` and leaves `Body` |
| FrontMatter.RepeatStart | mdjs.js:122-123 | in `a---`, blank, `---`, blank, `---`, blank, `---` (one per line), no match starts before the second line |
| FrontMatter.RepeatBlock | mdjs.js:122-123 | in that document the match starts at the second line's dashes (offset 6) and ends at the last line feed |
| FrontMatter.RepeatCut | mdjs.js:130 | the matched text first occurs at offset 1, right after the `a`, so the trimmed document is `a`, a line feed and `---` |
| FrontMatter.RemoveEarlierCopy | mdjs.js:121-134 | extraction from that document removes a copy of the matched text that starts before the match, and leaves `a`, a line feed and `---` |
| Mdjs.Render | mdjs.js:115 | the HTML is the prefix, then the output of the whole table, then the suffix |
| Mdjs.SetEntries | mdjs.js:126-129 | each line in turn sets its key on the metadata object in place |
| Mdjs.ExtractInto | mdjs.js:124-130 | with a match, the object absorbs the body's lines and the document loses the match and is trimmed |
| Mdjs.ExtractFrom | mdjs.js:121-134 | reports a match exactly when the expression has one, and leaves the document and the object as extraction specifies |
| Mdjs.MetadataRecord.constructor | mdjs.js:22 | the default metadata object starts empty |
| Mdjs.MarkdownParser.constructor | mdjs.js:56-60 | the parser starts with the default markdown and the bare wrapper as HTML; `metadata` is the fresh, empty default object |
| Mdjs.MarkdownParser.ExtractMetadata | mdjs.js:121-134 | the document and the metadata object's entries become what extraction gives; `metadata` is still the default object; HTML and fallback are untouched |
| Mdjs.MarkdownParser.Parse | mdjs.js:85-116 | extraction first, then every rule in table order over the stripped document, wrapped: the HTML is `Render` of the stripped document; the metadata object keeps its identity |
| Mdjs.MarkdownParser.LoadMarkdownFromString | mdjs.js:77-80 | the given text is extracted and rendered as `Parse` specifies |
| Mdjs.MarkdownParser.LoadMarkdownFromURL | mdjs.js:66-71 | an ok response's body is parsed; any other status parses the fallback markdown; a rejected fetch rejects the call and leaves the state as it was |
| Mdjs.MarkdownParser.SetFallbackMarkdown | mdjs.js:137-139 | the fallback becomes the given text, and nothing else changes |
| Mdjs.MarkdownParser.GetHTML | mdjs.js:141-143 | returns the current HTML |
| Mdjs.MarkdownParser.GetMetadata | mdjs.js:146-149 | returns the live metadata object, which is the default object itself, not a copy |

## Left out

- The regular-expression engine for the nineteen rules other than the
  heading, quote and blank-line rules is a parameter. The model requires only
  that it reports in-bounds matches in order, without overlap. So nothing is
  proved about emphasis, images, lists or horizontal rules beyond how their
  templates are filled. The lookaheads and the `m` flag in the list-wrapping
  rules are part of that engine.
- Template.FillTemplate: inserts each capture verbatim. `String.prototype.replace`
  with a string replacement also interprets `$$`, `$&`, `` $` ``, `$'` and
  `$n` inside the capture (GetSubstitution, section 22.1.3.19.1 of
  ECMA-262). So a capture containing such a sequence renders differently.
- Rules.Callback: the same verbatim insertion as `Template.FillTemplate`.
- Escape.EscapeText: the DOM round trip is modelled as the text-mode escaping
  of the HTML fragment serialisation algorithm (section 13.3 of the HTML
  Living Standard). No DOM is modelled.
- Mdjs.MarkdownParser.LoadMarkdownFromURL: `fetch`, `await` and the body read
  are replaced by an `Option<Response>` argument. `None` stands for a fetch
  that rejects; a rejection of `request.text()` itself is not modelled.
- RuleTable.HeadingPrecedence: stated only for heading text without `#`.
  Text holding a mark and a space is matched again by the shorter rules
  (`RuleTable.NestedHeading` gives the level-2 case); other text with `#` is
  not covered.
- RuleTable.HeadingsInOrder: the same restriction as
  `RuleTable.HeadingPrecedence`.
- Strings are sequences of Unicode characters. JavaScript strings are UTF-16
  code units, so lengths and positions differ for characters outside the
  Basic Multilingual Plane.
- A metadata key `__proto__` changes the object's prototype in JavaScript.
  Here it is an ordinary key.
- The page-navigation demo under `example/` is not part of this model.
- Concurrency between overlapping asynchronous loads is not modelled. Each
  call runs to completion.
