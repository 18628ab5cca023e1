/** The decision logic of the Markdown converter (`markdown`) that does not depend on the renderer. */
module Markdown {
  import opened Bytes
  import opened Errors
  import opened Html

  /**
   * Split the input at its first newline into the title line and the rest.
   * An input without any newline is refused, whether it is empty or not.
   */
  function SplitTitle(input: Bytes): (r: Result<(Bytes, Bytes)>)
    ensures r.Err? <==> NL !in input
    ensures r.Err? ==> r.error == MarkdownHasNoContent
    ensures r.Ok? ==> NL !in r.value.0 && r.value.0 + [NL] + r.value.1 == input
  {
    var idx := IndexByte(input, NL);
    if idx == -1 then Err(MarkdownHasNoContent)
    else
      assert input == input[..idx] + [NL] + input[idx + 1..];
      Ok((input[..idx], input[idx + 1..]))
  }

  /** The split is determined: a newline-free title and any rest are split back apart. */
  lemma SplitTitleRoundTrip(title: Bytes, rest: Bytes)
    requires NL !in title
    ensures SplitTitle(title + [NL] + rest) == Ok((title, rest))
  {
    var input := title + [NL] + rest;
    var r := SplitTitle(input);
    var t := r.value.0;
    assert input[..|title|] == title && input[|title|] == NL;
    assert |t| == |title|;
    assert t == input[..|title|] == title;
    assert r.value.1 == input[|title| + 1..] == rest;
  }

  /** The examples "# T" (no newline: refused, like the empty input) and "\n" (empty title). */
  lemma SplitTitleExamples()
    ensures SplitTitle([]) == Err(MarkdownHasNoContent)
    ensures SplitTitle([35, 32, 84]) == Err(MarkdownHasNoContent)
    ensures SplitTitle([NL]) == Ok(([], []))
  {
    SplitTitleRoundTrip([], []);
    assert [] + [NL] + [] == [NL];
  }

  /** The parsed title fragment starts with an `<h1>` element. */
  predicate StartsWithHeader(nodes: seq<Node>) {
    |nodes| > 0 && nodes[0].kind == ElementNode && nodes[0].data == "h1"
  }

  /**
   * The page title: `parsed` is the outcome of parsing the rendered title
   * line as an HTML fragment. A parse error is wrapped; a fragment that does
   * not start with an `<h1>` is refused; otherwise the title is the text of
   * that heading.
   */
  method PageTitle(parsed: Result<seq<Node>>) returns (r: Result<string>)
    ensures parsed.Err? ==> r == Err(CannotParseGeneratedHtml(parsed.error))
    ensures parsed.Ok? && !StartsWithHeader(parsed.value) ==> r == Err(DoesNotStartWithHeader)
    ensures parsed.Ok? && StartsWithHeader(parsed.value) ==> r == Ok(TextOf(parsed.value[0]))
  {
    if parsed.Err? {
      return Err(CannotParseGeneratedHtml(parsed.error));
    }
    var nodes := parsed.value;
    if |nodes| == 0 || nodes[0].kind != ElementNode || nodes[0].data != "h1" {
      return Err(DoesNotStartWithHeader);
    }
    var title := ChildText(nodes[0]);
    return Ok(title);
  }

  /** `# A *B*` renders to `<h1>A <em>B</em></h1>`, whose title is "A B". */
  lemma PageTitleExample()
    ensures TextOf(Node(ElementNode, "h1", [Node(TextNode, "A ", []), Node(ElementNode, "em", [Node(TextNode, "B", [])])])) == "A B"
  {
    var b := Node(TextNode, "B", []);
    var em := Node(ElementNode, "em", [b]);
    var a := Node(TextNode, "A ", []);
    TextOfSingle(ElementNode, "em", b);
    TextOfSingle(ElementNode, "h1", a);
    TextOfSingle(ElementNode, "h1", em);
    TextOfAppend(ElementNode, "h1", [a], [em]);
    assert [a] + [em] == [a, em];
  }
}
