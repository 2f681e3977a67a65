/**
 * Front matter: the block at the head of a document between a line `---`
 * and a later line `---`, holding `key: value` lines.
 *
 * The block is found as the JavaScript regular expression
 * `/^---\s*\n([\s\S]*?)\n---\s*\n/m` finds it: the leftmost start, then the
 * backtracking order of its quantifiers — the greedy `\s*` after the opening
 * dashes tries its longest run first, the lazy body its shortest, and the
 * greedy `\s*` after the closing dashes its longest.
 */
module FrontMatter {
  import opened Wrappers
  import opened Text

  /**
   * One match of the expression: the opening dashes at `start`, the line feed
   * ending the opening `\s*\n` at `open`, the line feed of the closing `\n---`
   * at `close`, and the line feed ending the match at `newline`. The body is
   * `s[open + 1..close]`, the whole match `s[start..newline + 1]`.
   */
  datatype Block = Block(start: nat, open: nat, close: nat, newline: nat)

  /** `^` with the `m` flag: the start of the text or just after a line terminator. */
  predicate IsLineStart(s: string, p: nat) {
    p == 0 || (p <= |s| && IsLineTerminator(s[p - 1]))
  }

  predicate AllSpaceBetween(s: string, lo: nat, hi: nat)
    requires hi <= |s|
  {
    forall i :: lo <= i < hi ==> IsSpace(s[i])
  }

  /** `---\s*\n` from `p`, its `\n` at `j`. */
  predicate OpensAt(s: string, p: nat, j: nat) {
    p + 3 <= j < |s| && s[p..p + 3] == "---" && s[j] == '\n' && AllSpaceBetween(s, p + 3, j)
  }

  /** `\n---\s*\n` from `k`, its last `\n` at `l`. */
  predicate ClosesAt(s: string, k: nat, l: nat) {
    k + 4 <= l < |s| && s[k] == '\n' && s[k + 1..k + 4] == "---" && s[l] == '\n'
    && AllSpaceBetween(s, k + 4, l)
  }

  /** `b` is a match of the expression somewhere in `s`. */
  predicate IsBlock(s: string, b: Block) {
    IsLineStart(s, b.start) && OpensAt(s, b.start, b.open) && b.open < b.close
    && ClosesAt(s, b.close, b.newline)
  }

  /**
   * The order in which the regular expression tries matches: earlier start,
   * then longer opening run, then shorter body, then longer closing run.
   */
  predicate Precedes(a: Block, b: Block) {
    a.start < b.start
    || (a.start == b.start
        && (a.open > b.open
            || (a.open == b.open
                && (a.close < b.close || (a.close == b.close && a.newline >= b.newline)))))
  }

  // ----- the search, in the expression's backtracking order -----

  /** The end of the run of white space that starts at `i`. */
  function RunEnd(s: string, i: nat): (r: nat)
    requires i <= |s|
    ensures i <= r <= |s| && AllSpaceBetween(s, i, r)
    ensures r == |s| || !IsSpace(s[r])
    decreases |s| - i
  {
    if i == |s| || !IsSpace(s[i]) then i else RunEnd(s, i + 1)
  }

  /** The last line feed in `s[lo..hi]`: the longest the greedy `\s*` can leave before its `\n`. */
  function LastNewline(s: string, lo: nat, hi: nat): (r: Option<nat>)
    requires lo <= hi <= |s|
    ensures r.Some? ==> lo <= r.value < hi && s[r.value] == '\n'
    decreases hi
  {
    if hi == lo then None
    else if s[hi - 1] == '\n' then Some(hi - 1)
    else LastNewline(s, lo, hi - 1)
  }

  /** The end of the closing `\n---\s*\n` that starts at `k`, if one does. */
  function CloseAt(s: string, k: nat): (r: Option<nat>)
    ensures r.Some? ==> ClosesAt(s, k, r.value)
  {
    if k + 4 <= |s| && s[k] == '\n' && s[k + 1..k + 4] == "---" then
      LastNewline(s, k + 4, RunEnd(s, k + 4))
    else None
  }

  /** The first position from `k` on where a closing line starts: the lazy body, shortest first. */
  function FindClose(s: string, k: nat): (r: Option<nat>)
    ensures r.Some? ==> k <= r.value && CloseAt(s, r.value).Some?
    decreases |s| - k
  {
    if k + 4 > |s| then None
    else if CloseAt(s, k).Some? then Some(k)
    else FindClose(s, k + 1)
  }

  /**
   * The match from `p` whose opening line feed is before `hi`: the greedy
   * `\s*` gives back one character at a time, so the latest line feed first.
   */
  function FindOpen(s: string, p: nat, hi: nat): (r: Option<Block>)
    requires p + 3 <= hi <= |s| && s[p..p + 3] == "---" && AllSpaceBetween(s, p + 3, hi)
    ensures r.Some? ==> r.value.start == p && OpensAt(s, p, r.value.open) && r.value.open < hi
    ensures r.Some? ==> r.value.open < r.value.close && ClosesAt(s, r.value.close, r.value.newline)
    decreases hi
  {
    if hi == p + 3 then None
    else
      var j := hi - 1;
      var c := FindClose(s, j + 1);
      if s[j] == '\n' && c.Some? then
        Some(Block(p, j, c.value, CloseAt(s, c.value).value))
      else FindOpen(s, p, j)
  }

  /** The match that starts at `p`, if any. */
  function BlockAt(s: string, p: nat): (r: Option<Block>)
    ensures r.Some? ==> r.value.start == p && IsBlock(s, r.value)
  {
    if IsLineStart(s, p) && p + 3 <= |s| && s[p..p + 3] == "---" then
      FindOpen(s, p, RunEnd(s, p + 3))
    else None
  }

  /** The leftmost match from `p` on. */
  function FindFrom(s: string, p: nat): (r: Option<Block>)
    ensures r.Some? ==> p <= r.value.start && IsBlock(s, r.value)
    decreases |s| - p
  {
    if p + 3 > |s| then None
    else if BlockAt(s, p).Some? then BlockAt(s, p)
    else FindFrom(s, p + 1)
  }

  /** `markdown.match(...)`: the match the expression reports, if any. */
  function FindBlock(s: string): (r: Option<Block>)
    ensures r.Some? ==> IsBlock(s, r.value)
  {
    FindFrom(s, 0)
  }

  // ----- the search finds the first match in the expression's order -----

  /** A run of white space through `l` ends after `l`. */
  lemma {:induction false} RunEndCovers(s: string, i: nat, l: nat)
    requires i <= l < |s| && AllSpaceBetween(s, i, l + 1)
    ensures l < RunEnd(s, i)
    decreases l - i
  {
    if i < l {
      RunEndCovers(s, i + 1, l);
    }
  }

  /** The greedy run keeps the latest line feed it can. */
  lemma {:induction false} LastNewlineLatest(s: string, lo: nat, hi: nat, l: nat)
    requires lo <= l < hi <= |s| && s[l] == '\n'
    ensures LastNewline(s, lo, hi).Some? && l <= LastNewline(s, lo, hi).value
    decreases hi
  {
    if s[hi - 1] != '\n' {
      LastNewlineLatest(s, lo, hi - 1, l);
    }
  }

  /** Every line feed of a closing run is at most the one the search picks. */
  lemma CloseAtComplete(s: string, k: nat, l: nat)
    requires ClosesAt(s, k, l)
    ensures CloseAt(s, k).Some? && l <= CloseAt(s, k).value
  {
    RunEndCovers(s, k + 4, l);
    LastNewlineLatest(s, k + 4, RunEnd(s, k + 4), l);
  }

  /** The lazy body stops at the first closing line it reaches. */
  lemma {:induction false} FindCloseFirst(s: string, k: nat, c: nat)
    requires k <= c && CloseAt(s, c).Some?
    ensures FindClose(s, k).Some? && FindClose(s, k).value <= c
    decreases c - k
  {
    if k < c && CloseAt(s, k).None? {
      FindCloseFirst(s, k + 1, c);
    }
  }

  /** With the match's own opening line feed last in the run, the search takes that line feed. */
  lemma FindOpenAtOpen(s: string, p: nat, hi: nat, b: Block)
    requires p + 3 <= hi <= |s| && s[p..p + 3] == "---" && AllSpaceBetween(s, p + 3, hi)
    requires IsBlock(s, b) && b.start == p && b.open == hi - 1
    ensures FindOpen(s, p, hi).Some? && Precedes(FindOpen(s, p, hi).value, b)
  {
    CloseAtComplete(s, b.close, b.newline);
    FindCloseFirst(s, hi, b.close);
    var c := FindClose(s, hi).value;
    assert s[hi - 1] == '\n';
    assert FindOpen(s, p, hi) == Some(Block(p, b.open, c, CloseAt(s, c).value));
  }

  lemma {:induction false} FindOpenFirst(s: string, p: nat, hi: nat, b: Block)
    requires p + 3 <= hi <= |s| && s[p..p + 3] == "---" && AllSpaceBetween(s, p + 3, hi)
    requires IsBlock(s, b) && b.start == p && b.open < hi
    ensures FindOpen(s, p, hi).Some? && Precedes(FindOpen(s, p, hi).value, b)
    decreases hi
  {
    var j := hi - 1;
    if b.open == j {
      FindOpenAtOpen(s, p, hi, b);
    } else if s[j] == '\n' && FindClose(s, j + 1).Some? {
      assert FindOpen(s, p, hi).value.open == j;
    } else {
      FindOpenFirst(s, p, j, b);
      assert FindOpen(s, p, hi) == FindOpen(s, p, j);
    }
  }

  lemma BlockAtFirst(s: string, b: Block)
    requires IsBlock(s, b)
    ensures BlockAt(s, b.start).Some? && Precedes(BlockAt(s, b.start).value, b)
  {
    var e := RunEnd(s, b.start + 3);
    RunEndCovers(s, b.start + 3, b.open);
    FindOpenFirst(s, b.start, e, b);
  }

  lemma {:induction false} FindFromFirst(s: string, p: nat, b: Block)
    requires IsBlock(s, b) && p <= b.start
    ensures FindFrom(s, p).Some? && Precedes(FindFrom(s, p).value, b)
    decreases |s| - p
  {
    if p == b.start {
      BlockAtFirst(s, b);
    } else if BlockAt(s, p).None? {
      FindFromFirst(s, p + 1, b);
    }
  }

  /**
   * The search reports a match exactly when the expression has one, and the
   * one it reports comes first in the expression's order.
   */
  lemma FindBlockFirst(s: string, b: Block)
    requires IsBlock(s, b)
    ensures FindBlock(s).Some? && Precedes(FindBlock(s).value, b)
  {
    FindFromFirst(s, 0, b);
  }

  lemma FindBlockNone(s: string)
    ensures FindBlock(s).None? <==> forall b :: !IsBlock(s, b)
  {
    if FindBlock(s).None? {
      forall b ensures !IsBlock(s, b) {
        if IsBlock(s, b) {
          FindBlockFirst(s, b);
        }
      }
    }
  }

  // ----- metadata lines -----

  /** One metadata line: a key and, when the line has a colon, a value (otherwise undefined). */
  datatype Entry = Entry(key: string, value: Option<string>)

  type Metadata = map<string, Option<string>>

  /** Split at colons and trim each piece: the key is the first piece, the value the second. */
  function ParseLine(line: string): Entry
  {
    var parts := Split(line, ':');
    Entry(Trim(parts[0]), if |parts| >= 2 then Some(Trim(parts[1])) else None)
  }

  /** The body, trimmed, split at line feeds. */
  function MetadataLines(body: string): (r: seq<string>)
    ensures |r| >= 1 && Join(r, '\n') == Trim(body)
    ensures forall i :: 0 <= i < |r| ==> '\n' !in r[i]
  {
    Split(Trim(body), '\n')
  }

  /** Every line parsed. */
  function ParseLines(lines: seq<string>): (r: seq<Entry>)
    ensures |r| == |lines|
    ensures forall i :: 0 <= i < |lines| ==> r[i] == ParseLine(lines[i])
    decreases |lines|
  {
    if lines == [] then []
    else ParseLines(lines[..|lines| - 1]) + [ParseLine(lines[|lines| - 1])]
  }

  /** The record after each entry in turn has set its key. */
  function Assign(m: Metadata, es: seq<Entry>): Metadata
    decreases |es|
  {
    if es == [] then m
    else Assign(m, es[..|es| - 1])[es[|es| - 1].key := es[|es| - 1].value]
  }

  lemma LineWithoutColon(line: string)
    requires ':' !in line
    ensures ParseLine(line) == Entry(Trim(line), None)
  {
    SplitNoSeparator(line, ':');
  }

  lemma LineWithColon(key: string, value: string)
    requires ':' !in key && ':' !in value
    ensures ParseLine(key + ":" + value) == Entry(Trim(key), Some(Trim(value)))
  {
    SplitAtFirst(key, value, ':');
    SplitNoSeparator(value, ':');
  }

  /** Only the text between the first and second colon is the value; the rest is dropped. */
  lemma LineWithColons(key: string, value: string, rest: string)
    requires ':' !in key && ':' !in value
    ensures ParseLine(key + ":" + value + ":" + rest) == Entry(Trim(key), Some(Trim(value)))
  {
    SplitAtFirst(key, value + ":" + rest, ':');
    SplitAtFirst(value, rest, ':');
    assert key + ":" + value + ":" + rest == key + [':'] + (value + [':'] + rest);
  }

  /** Parsing one more line appends its entry. */
  lemma ParseLinesStep(lines: seq<string>, i: nat)
    requires i < |lines|
    ensures ParseLines(lines[..i + 1]) == ParseLines(lines[..i]) + [ParseLine(lines[i])]
  {
    assert lines[..i + 1][..i] == lines[..i];
  }

  /** One more entry sets its key on the record so far. */
  lemma AssignStep(m: Metadata, es: seq<Entry>, e: Entry)
    ensures Assign(m, es + [e]) == Assign(m, es)[e.key := e.value]
  {
    assert (es + [e])[..|es|] == es;
  }

  /** The keys afterwards: the old ones and every entry's key. */
  lemma {:induction false} AssignKeys(m: Metadata, es: seq<Entry>, key: string)
    ensures key in Assign(m, es) <==> key in m || exists i :: 0 <= i < |es| && es[i].key == key
    decreases |es|
  {
    if es != [] {
      var init := es[..|es| - 1];
      AssignKeys(m, init, key);
      if exists i :: 0 <= i < |es| && es[i].key == key {
        var i :| 0 <= i < |es| && es[i].key == key;
        if i < |init| {
          assert init[i] == es[i];
        }
      }
    }
  }

  /** A key takes the value of the last entry that sets it. */
  lemma {:induction false} AssignLastWins(m: Metadata, es: seq<Entry>, i: nat)
    requires i < |es|
    requires forall j :: i < j < |es| ==> es[j].key != es[i].key
    ensures es[i].key in Assign(m, es) && Assign(m, es)[es[i].key] == es[i].value
    decreases |es|
  {
    if i < |es| - 1 {
      var init := es[..|es| - 1];
      AssignLastWins(m, init, i);
    }
  }

  /** A key no entry sets keeps its old value, or stays absent. */
  lemma {:induction false} AssignUntouched(m: Metadata, es: seq<Entry>, key: string)
    requires forall i :: 0 <= i < |es| ==> es[i].key != key
    ensures key in Assign(m, es) <==> key in m
    ensures key in m ==> Assign(m, es)[key] == m[key]
    decreases |es|
  {
    if es != [] {
      AssignUntouched(m, es[..|es| - 1], key);
    }
  }

  // ----- extraction -----

  datatype Extracted = Extracted(markdown: string, metadata: Metadata)

  /**
   * `extractMetadata`: with a match, every line of the trimmed body sets its
   * key, and the first occurrence of the matched text is removed from the
   * document, which is then trimmed; without one, both stay as they were.
   */
  function Extract(md: string, m: Metadata): Extracted
  {
    match FindBlock(md)
    case None => Extracted(md, m)
    case Some(b) => Extracted(Remove(md, b), Absorb(m, Body(md, b)))
  }

  /** The captured body, `match[1]`. */
  function Body(md: string, b: Block): string
    requires b.open < b.close <= |md|
  {
    md[b.open + 1..b.close]
  }

  /** The record after every line of the trimmed body has set its key. */
  function Absorb(m: Metadata, body: string): Metadata
  {
    Assign(m, ParseLines(MetadataLines(body)))
  }

  /** The document without the first occurrence of the matched text, trimmed. */
  function Remove(md: string, b: Block): string
    requires b.start <= b.newline < |md|
  {
    Trim(Cut(md, b))
  }

  /** The document without the first occurrence of the matched text. */
  function Cut(md: string, b: Block): string
    requires b.start <= b.newline < |md|
  {
    ReplaceFirst(md, md[b.start..b.newline + 1], "")
  }


  lemma ExtractWithoutBlock(md: string, m: Metadata)
    requires forall b :: !IsBlock(md, b)
    ensures Extract(md, m) == Extracted(md, m)
  {
    FindBlockNone(md);
    ExtractUnmatched(md, m);
  }

  /**
   * Extraction never drops a key: a key the record held before is still
   * there afterwards, with its value unless a line of the body set it.
   */
  lemma ExtractKeepsKeys(md: string, m: Metadata, key: string)
    requires key in m
    ensures key in Extract(md, m).metadata
    ensures FindBlock(md).None? ==> Extract(md, m).metadata[key] == m[key]
  {
    match FindBlock(md)
    case None =>
    case Some(b) =>
      AssignKeys(m, ParseLines(MetadataLines(Body(md, b))), key);
  }

  /**
   * A `key:value` line of the front matter sets the trimmed key to the
   * trimmed value, unless a later line sets the same key.
   */
  lemma ExtractSetsKey(md: string, m: Metadata, b: Block, i: nat, key: string, value: string)
    requires FindBlock(md) == Some(b)
    requires i < |MetadataLines(Body(md, b))| && MetadataLines(Body(md, b))[i] == key + ":" + value
    requires ':' !in key && ':' !in value
    requires forall j :: i < j < |MetadataLines(Body(md, b))| ==>
      ParseLine(MetadataLines(Body(md, b))[j]).key != Trim(key)
    ensures Trim(key) in Extract(md, m).metadata
    ensures Extract(md, m).metadata[Trim(key)] == Some(Trim(value))
  {
    var lines := MetadataLines(Body(md, b));
    var es := ParseLines(lines);
    ExtractMatched(md, m, b);
    LineWithColon(key, value);
    AssignLastWins(m, es, i);
  }

  /** Removing the first occurrence of a prefix removes the prefix. */
  lemma RemovePrefix(md: string, n: nat)
    requires n <= |md|
    ensures ReplaceFirst(md, md[..n], "") == md[n..]
  {
    IndexOfFirst(md, md[..n], 0, 0);
    assert md[..0] + "" + md[n..] == md[n..];
  }

  /** With a match, the record takes the body's entries and the document loses the matched text. */
  lemma ExtractMatched(md: string, m: Metadata, b: Block)
    requires FindBlock(md) == Some(b)
    ensures IsBlock(md, b) && Extract(md, m) == Extracted(Remove(md, b), Absorb(m, Body(md, b)))
  {
  }

  /** Without a match, nothing changes. */
  lemma ExtractUnmatched(md: string, m: Metadata)
    requires FindBlock(md).None?
    ensures Extract(md, m) == Extracted(md, m)
  {
  }

  lemma CutLeading(md: string, b: Block)
    requires b.start == 0 && b.newline < |md|
    ensures Cut(md, b) == md[b.newline + 1..]
  {
    var n := b.newline + 1;
    assert md[b.start..n] == md[..n];
    RemovePrefix(md, n);
  }

  /** A match at the very start is removed as a prefix. */
  lemma RemoveLeading(md: string, b: Block)
    requires b.start == 0 && b.newline < |md|
    ensures Remove(md, b) == Trim(md[b.newline + 1..])
  {
    CutLeading(md, b);
  }

  /** A document that opens with front matter loses it, then is trimmed. */
  lemma ExtractLeadingBlock(md: string, m: Metadata, b: Block) returns (r: Block)
    requires IsBlock(md, b) && b.start == 0
    ensures FindBlock(md) == Some(r) && r.start == 0
    ensures Extract(md, m).markdown == Trim(md[r.newline + 1..])
  {
    FindBlockFirst(md, b);
    r := FindBlock(md).value;
    ExtractMatched(md, m, r);
    RemoveLeading(md, r);
  }

  // ----- an example: a title line, then a body -----

  /** The character facts the search needs about `---\ntitle: Hello\n---\nBody`. */
  predicate HelloShape(md: string) {
    |md| == 25 && md[..3] == "---" && md[3] == '\n' && !IsSpace(md[4])
    && (forall k :: 4 <= k < 16 ==> md[k] != '\n')
    && md[16] == '\n' && md[17..20] == "---" && md[20] == '\n' && !IsSpace(md[21])
  }

  lemma HelloChars()
    ensures HelloShape("---\ntitle: Hello\n---\nBody")
  {
  }

  /** The block search matches from the first line to the line feed after the closing dashes. */
  lemma HelloBlock(md: string)
    requires HelloShape(md)
    ensures FindBlock(md) == Some(Block(0, 3, 16, 20))
  {
    var b := Block(0, 3, 16, 20);
    assert IsBlock(md, b);
    FindBlockFirst(md, b);
    var r := FindBlock(md).value;
    assert r.open == 3;
    assert r.close == 16;
    assert r.newline == 20;
  }

  lemma HelloSplit()
    ensures "title: Hello" == "title" + ":" + " Hello"
  {
  }

  lemma HelloValue()
    ensures Trim(" Hello") == "Hello"
  {
    assert Unpadded("Hello") && AllSpace(" ");
    assert " " + "Hello" + [] == " Hello";
    TrimUnique(" ", "Hello", []);
  }

  /** A body that is one unpadded line is that one metadata line. */
  lemma OneMetadataLine(body: string)
    requires Unpadded(body) && '\n' !in body
    ensures MetadataLines(body) == [body]
  {
    TrimUnpadded(body);
    SplitNoSeparator(body, '\n');
  }

  lemma HelloText()
    ensures Unpadded("title: Hello") && '\n' !in "title: Hello"
  {
  }

  lemma HelloLines()
    ensures MetadataLines("title: Hello") == ["title: Hello"]
  {
    HelloText();
    OneMetadataLine("title: Hello");
  }

  lemma HelloLine()
    ensures ParseLine("title: Hello") == Entry("title", Some("Hello"))
  {
    TrimUnpadded("title");
    HelloValue();
    HelloSplit();
    LineWithColon("title", " Hello");
  }

  /** A body of one line sets that line's key and nothing else. */
  lemma AbsorbOneLine(m: Metadata, body: string, line: string)
    requires MetadataLines(body) == [line]
    ensures Absorb(m, body) == m[ParseLine(line).key := ParseLine(line).value]
  {
    var es := ParseLines([line]);
    assert Absorb(m, body) == Assign(m, es);
    assert es[..0] == [] && es[0] == ParseLine(line);
    assert Assign(m, es) == Assign(m, [])[es[0].key := es[0].value];
  }

  lemma HelloAbsorb(m: Metadata)
    ensures Absorb(m, "title: Hello") == m["title" := Some("Hello")]
  {
    HelloLines();
    HelloLine();
    AbsorbOneLine(m, "title: Hello", "title: Hello");
  }

  lemma HelloExtract(md: string, m: Metadata)
    requires HelloShape(md) && md[4..16] == "title: Hello" && md[21..] == "Body"
    ensures Extract(md, m) == Extracted("Body", m["title" := Some("Hello")])
  {
    var b := Block(0, 3, 16, 20);
    TrimUnpadded("Body");
    HelloAbsorb(m);
    HelloBlock(md);
    ExtractMatched(md, m, b);
    RemoveLeading(md, b);
    assert Body(md, b) == "title: Hello";
  }

  /** The title becomes metadata and the body is what remains. */
  lemma ExtractHello(m: Metadata)
    ensures Extract("---\ntitle: Hello\n---\nBody", m) == Extracted("Body", m["title" := Some("Hello")])
  {
    var md := "---\ntitle: Hello\n---\nBody";
    HelloChars();
    assert md[4..16] == "title: Hello" && md[21..] == "Body";
    HelloExtract(md, m);
  }

  // ----- an example: the removed text comes before the match -----

  /** The character facts about `a---\n\n---\n\n---\n\n---\n`, a dashed line glued to a letter, then three more. */
  predicate RepeatShape(md: string) {
    |md| == 20 && md[0] == 'a' && md[1..4] == "---" && md[4] == '\n' && md[5] == '\n'
    && md[6..9] == "---" && md[9] == '\n' && md[10] == '\n' && md[11..14] == "---"
    && md[14] == '\n' && md[15] == '\n' && md[16..19] == "---" && md[19] == '\n'
    && md[..1] == "a" && md[15..] == "\n---\n" && md[1..15] == md[6..20]
  }

  lemma RepeatChars()
    ensures RepeatShape("a---\n\n---\n\n---\n\n---\n")
  {
  }

  /** No match starts before the second line: the first holds a letter before its dashes. */
  lemma RepeatStart(md: string, r: Block)
    requires RepeatShape(md) && IsBlock(md, r)
    ensures r.start >= 6
  {
    assert md[1..4][0] == md[1] && md[1..4][1] == md[2] && md[1..4][2] == md[3];
    assert md[r.start..r.start + 3][0] == md[r.start];
  }

  /** The match starts at the second line's dashes and closes at the fourth. */
  lemma RepeatBlock(md: string)
    requires RepeatShape(md)
    ensures FindBlock(md) == Some(Block(6, 10, 15, 19))
  {
    var b := Block(6, 10, 15, 19);
    assert IsBlock(md, b);
    FindBlockFirst(md, b);
    var r := FindBlock(md).value;
    RepeatStart(md, r);
    assert md[11..14][0] == md[11] && md[11..14][1] == md[12] && md[11..14][2] == md[13];
    assert md[r.close + 1..r.close + 4][0] == md[r.close + 1];
    assert r.open == 10;
    assert r.close == 15;
  }

  /** Cutting the first copy of the matched text leaves the letter and the last dashed line. */
  lemma RepeatCut(md: string)
    requires RepeatShape(md)
    ensures IndexOf(md, md[6..20], 0) == Some(1)
    ensures Remove(md, Block(6, 10, 15, 19)) == "a\n---"
  {
    var p := md[6..20];
    assert md[6..9][0] == md[6] && md[0..14][0] != p[0];
    assert md[1..15] == p;
    assert IndexOf(md, p, 1) == Some(1);
    assert Cut(md, Block(6, 10, 15, 19)) == "a" + "\n---\n";
    assert "a" + "\n---\n" == [] + "a\n---" + "\n";
    assert Unpadded("a\n---") && AllSpace("\n") && AllSpace([]);
    TrimUnique([], "a\n---", "\n");
  }

  /**
   * The match starts on the second line, yet the same text first occurs one
   * character in, so the removal takes the dashes after the letter and leaves
   * the last dashed line.
   */
  lemma RemoveEarlierCopy(m: Metadata)
    ensures FindBlock("a---\n\n---\n\n---\n\n---\n") == Some(Block(6, 10, 15, 19))
    ensures IndexOf("a---\n\n---\n\n---\n\n---\n", "---\n\n---\n\n---\n", 0) == Some(1)
    ensures Extract("a---\n\n---\n\n---\n\n---\n", m).markdown == "a\n---"
  {
    var md := "a---\n\n---\n\n---\n\n---\n";
    RepeatChars();
    assert md[6..20] == "---\n\n---\n\n---\n";
    RepeatBlock(md);
    RepeatCut(md);
    ExtractMatched(md, m, Block(6, 10, 15, 19));
  }
}
