/**
 * The `MarkdownParser` object: it holds the current markdown, the rendered
 * HTML and the metadata record, and renders by stripping front matter and
 * running the rule table over what is left.
 */
module Mdjs {
  import opened Wrappers
  import opened Rules
  import opened RuleTable
  import opened FrontMatter

  const Prefix: string := "<div class=\"mdjs\"><article>"
  const Suffix: string := "</article></div>"
  const DefaultFallback: string := "# An error occurred loading the content."

  /** A metadata object: property names to values, undefined written as `None`. */
  class MetadataRecord {
    var entries: Metadata

    constructor ()
      ensures entries == map[]
    {
      entries := map[];
    }
  }

  /** What `fetch` settles with: whether the status was ok, and the body text. */
  datatype Response = Response(ok: bool, body: string)

  /** The HTML a parse renders from what is left of the markdown after front matter. */
  function Render(body: string, engine: Engine): (r: string)
    requires EngineSound(engine)
    ensures |r| == |Prefix| + |Pipeline(RuleList(), body, engine)| + |Suffix|
    ensures r[..|Prefix|] == Prefix && r[|r| - |Suffix|..] == Suffix
    ensures r[|Prefix|..|r| - |Suffix|] == Pipeline(RuleList(), body, engine)
  {
    var r := Prefix + Pipeline(RuleList(), body, engine) + Suffix;
    assert r[..|Prefix|] == Prefix;
    assert r[|r| - |Suffix|..] == Suffix;
    assert r[|Prefix|..|r| - |Suffix|] == Pipeline(RuleList(), body, engine);
    r
  }

  /** `lines.forEach(...)`: each line, split at colons and trimmed, sets its key on the object. */
  method SetEntries(record: MetadataRecord, lines: seq<string>)
    modifies record
    ensures record.entries == Assign(old(record.entries), ParseLines(lines))
  {
    for i := 0 to |lines|
      invariant record.entries == Assign(old(record.entries), ParseLines(lines[..i]))
    {
      var entry := ParseLine(lines[i]);
      ParseLinesStep(lines, i);
      AssignStep(old(record.entries), ParseLines(lines[..i]), entry);
      record.entries := record.entries[entry.key := entry.value];
    }
    assert lines[..|lines|] == lines;
  }

  /**
   * The front-matter branch of `extractMetadata`: every line of the body sets
   * its key on `record`, and the document loses the match.
   */
  method ExtractInto(record: MetadataRecord, md: string, b: Block) returns (rest: string)
    requires IsBlock(md, b)
    modifies record
    ensures rest == Remove(md, b)
    ensures record.entries == Absorb(old(record.entries), Body(md, b))
  {
    var lines := MetadataLines(Body(md, b));
    SetEntries(record, lines);
    rest := Remove(md, b);
  }

  /**
   * `extractMetadata` on a document and the record it writes to; `found`
   * says whether the expression matched.
   */
  method ExtractFrom(record: MetadataRecord, md: string) returns (rest: string, found: bool)
    modifies record
    ensures found <==> exists b :: IsBlock(md, b)
    ensures Extracted(rest, record.entries) == Extract(md, old(record.entries))
  {
    var matched := FindBlock(md);
    match matched
    case Some(b) =>
      ExtractMatched(md, record.entries, b);
      rest := ExtractInto(record, md, b);
      found := true;
    case None =>
      FindBlockNone(md);
      ExtractUnmatched(md, record.entries);
      rest := md;
      found := false;
  }

  class MarkdownParser {
    var fallbackMarkdown: string
    const fallbackMetadata: MetadataRecord
    var markdown: string
    var html: string
    var metadata: MetadataRecord

    /** The public metadata field and the private default are one object throughout. */
    predicate Valid()
      reads this
    {
      metadata == fallbackMetadata
    }

    constructor ()
      ensures Valid() && fresh(fallbackMetadata) && fallbackMetadata.entries == map[]
      ensures fallbackMarkdown == DefaultFallback && markdown == DefaultFallback
      ensures html == Prefix + Suffix
    {
      fallbackMarkdown := DefaultFallback;
      var record := new MetadataRecord();
      fallbackMetadata := record;
      markdown := DefaultFallback;
      html := Prefix + Suffix;
      metadata := record;
    }

    /**
     * With front matter, each line of it sets its key on the metadata object
     * in place, then the document loses the matched text and is trimmed.
     * Without, the metadata field is set to the default object, which is the
     * object it already holds.
     */
    method ExtractMetadata()
      requires Valid()
      modifies this, metadata
      ensures Valid() && metadata == old(metadata)
      ensures Extracted(markdown, metadata.entries) == Extract(old(markdown), old(metadata.entries))
      ensures html == old(html) && fallbackMarkdown == old(fallbackMarkdown)
    {
      var rest, found := ExtractFrom(metadata, markdown);
      if found {
        markdown := rest;
      } else {
        metadata := fallbackMetadata;
      }
    }

    /** Strip front matter, run every rule in table order, wrap the result. */
    method Parse(engine: Engine)
      requires Valid() && EngineSound(engine)
      modifies this, metadata
      ensures Valid() && metadata == old(metadata) && fallbackMarkdown == old(fallbackMarkdown)
      ensures markdown == Extract(old(markdown), old(metadata.entries)).markdown
      ensures metadata.entries == Extract(old(markdown), old(metadata.entries)).metadata
      ensures html == Render(markdown, engine)
    {
      ExtractMetadata();
      html := markdown;
      for i := 0 to |RuleList()|
        invariant Valid() && metadata == old(metadata) && fallbackMarkdown == old(fallbackMarkdown)
        invariant markdown == Extract(old(markdown), old(metadata.entries)).markdown
        invariant metadata.entries == Extract(old(markdown), old(metadata.entries)).metadata
        invariant html == Pipeline(RuleList()[..i], markdown, engine)
      {
        assert RuleList()[..i + 1][..i] == RuleList()[..i];
        html := RunRule(RuleList()[i], html, engine);
      }
      assert RuleList()[..|RuleList()|] == RuleList();
      html := Prefix + html + Suffix;
    }

    method LoadMarkdownFromString(text: string, engine: Engine)
      requires Valid() && EngineSound(engine)
      modifies this, metadata
      ensures Valid() && metadata == old(metadata) && fallbackMarkdown == old(fallbackMarkdown)
      ensures markdown == Extract(text, old(metadata.entries)).markdown
      ensures metadata.entries == Extract(text, old(metadata.entries)).metadata
      ensures html == Render(markdown, engine)
    {
      markdown := text;
      Parse(engine);
    }

    /**
     * `fetched` is how the request settled: `None` when `fetch` itself
     * rejected, which leaves everything as it was and rejects the call
     * (`settled` false). An ok response's body is parsed; any other status
     * parses the fallback markdown.
     */
    method LoadMarkdownFromURL(fetched: Option<Response>, engine: Engine) returns (settled: bool)
      requires Valid() && EngineSound(engine)
      modifies this, metadata
      ensures settled <==> fetched.Some?
      ensures Valid() && metadata == old(metadata) && fallbackMarkdown == old(fallbackMarkdown)
      ensures fetched.None? ==>
        markdown == old(markdown) && html == old(html) && metadata.entries == old(metadata.entries)
      ensures fetched.Some? ==>
        var source := if fetched.value.ok then fetched.value.body else old(fallbackMarkdown);
        markdown == Extract(source, old(metadata.entries)).markdown
        && metadata.entries == Extract(source, old(metadata.entries)).metadata
        && html == Render(markdown, engine)
    {
      match fetched
      case None =>
        settled := false;
      case Some(response) =>
        if response.ok {
          markdown := response.body;
        } else {
          markdown := fallbackMarkdown;
        }
        Parse(engine);
        settled := true;
    }

    method SetFallbackMarkdown(text: string)
      modifies this
      ensures fallbackMarkdown == text
      ensures markdown == old(markdown) && html == old(html) && metadata == old(metadata)
    {
      fallbackMarkdown := text;
    }

    method GetHTML() returns (r: string)
      ensures r == html
    {
      r := html;
    }

    /** The live metadata object, not a copy: later parses change what the caller holds. */
    method GetMetadata() returns (r: MetadataRecord)
      requires Valid()
      ensures r == metadata && r == fallbackMetadata
    {
      r := metadata;
    }
  }
}
