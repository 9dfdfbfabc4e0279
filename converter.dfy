/** `markdown_to_html_node`: every block of a document becomes one element of a
    `div`, chosen by the block's kind. */
module Converter {
  import opened Wrappers
  import opened PyStr
  import opened Html
  import opened TextNodes
  import opened Inline
  import opened Blocks

  /** What the conversion raises: an inline parser error, the heading error
      "Too many pound symbols for a heading", and the `IndexError` of
      `list_line.split(". ", 1)[1]` on a line without `". "`. The last two are
      never raised (see `OnlyInlineErrors`). */
  datatype ConvertError = InlineFailed(cause: InlineError) | TooManyHashes | MissingListText

  /** The converter's repeated loop shape: convert every element in order and
      collect the results, stopping at the first element that raises. */
  function CollectAll<T>(xs: seq<T>, f: T -> Result<Node, ConvertError>): (r: Result<seq<Node>, ConvertError>)
    ensures r.Success? <==> forall i :: 0 <= i < |xs| ==> f(xs[i]).Success?
    ensures r.Success? ==> |r.value| == |xs|
    ensures r.Success? ==> forall i :: 0 <= i < |xs| ==> r.value[i] == f(xs[i]).value
  {
    if xs == [] then Success([])
    else
      var front :- CollectAll(xs[..|xs| - 1], f);
      var last :- f(xs[|xs| - 1]);
      Success(front + [last])
  }

  /** `xs[j]` is the first element on which `f` fails. */
  predicate FirstFailure<T>(xs: seq<T>, f: T -> Result<Node, ConvertError>, j: int) {
    0 <= j < |xs| && f(xs[j]).Failure? && forall i :: 0 <= i < j ==> f(xs[i]).Success?
  }

  /** The error is that of the first element that fails. */
  lemma {:induction false} CollectAllFirstFailure<T>(xs: seq<T>, f: T -> Result<Node, ConvertError>)
    requires CollectAll(xs, f).Failure?
    ensures exists j :: FirstFailure(xs, f, j) && f(xs[j]).error == CollectAll(xs, f).error
  {
    var front := xs[..|xs| - 1];
    if CollectAll(front, f).Failure? {
      CollectAllFirstFailure(front, f);
      var j :| FirstFailure(front, f, j) && f(front[j]).error == CollectAll(front, f).error;
      assert forall i :: 0 <= i <= j ==> xs[i] == front[i];
      assert FirstFailure(xs, f, j);
    } else {
      assert forall i :: 0 <= i < |front| ==> f(xs[i]) == f(front[i]);
      assert FirstFailure(xs, f, |xs| - 1);
    }
  }

  /** One more element: if it fails, the whole sequence fails with its error;
      otherwise its result joins the collected ones. */
  lemma CollectAllStep<T>(xs: seq<T>, i: nat, f: T -> Result<Node, ConvertError>, acc: seq<Node>, y: Result<Node, ConvertError>)
    requires i < |xs| && CollectAll(xs[..i], f) == Success(acc) && f(xs[i]) == y
    ensures y.Failure? ==> CollectAll(xs, f) == Failure(y.error)
    ensures y.Success? ==> CollectAll(xs[..i + 1], f) == Success(acc + [y.value])
  {
    assert xs[..i + 1][..i] == xs[..i];
    if y.Failure? {
      CollectAllPrefixFailure(xs, i + 1, f);
    }
  }

  /** Once a prefix fails, the whole sequence fails with the same error. */
  lemma {:induction false} CollectAllPrefixFailure<T>(xs: seq<T>, n: nat, f: T -> Result<Node, ConvertError>)
    requires n <= |xs| && CollectAll(xs[..n], f).Failure?
    ensures CollectAll(xs, f) == CollectAll(xs[..n], f)
    decreases |xs| - n
  {
    if n < |xs| {
      CollectAllPrefixFailure(xs, n + 1, f);
      assert xs[..n + 1][..n] == xs[..n];
    } else {
      assert xs[..n] == xs;
    }
  }

  /** A parent node with a tag, children and no attributes. */
  function Element(tag: string, children: seq<Node>): Node {
    Parent(Some(tag), ChildSeq(children), None)
  }

  /** A parent element around children that may have failed to convert. */
  function Wrapped(tag: string, children: Result<seq<Node>, ConvertError>): (r: Result<Node, ConvertError>)
    ensures r.Success? <==> children.Success?
    ensures r.Success? ==> r.value == Element(tag, children.value)
    ensures r.Failure? ==> r.error == children.error
  {
    var nodes :- children;
    Success(Element(tag, nodes))
  }

  /** The nodes of an inline text: `text_to_textnodes`, then
      `text_node_to_html_node` on every span. */
  function InlineNodes(text: string): (r: Result<seq<Node>, ConvertError>)
    ensures r.Failure? ==> r.error.InlineFailed?
    ensures r.Success? ==> forall i :: 0 <= i < |r.value| ==> r.value[i].Leaf? && WellFormed(r.value[i])
  {
    match TextToTextNodes(text)
    case Failure(e) => Failure(InlineFailed(e))
    case Success(spans) => Success(Leaves(spans))
  }

  // ---------------------------------------------------------------------------
  // one block

  /** `f"h{heading_count}"` */
  function HeadingTag(count: nat): string {
    "h" + IntToString(count)
  }

  function HeadingNode(block: string): Result<Node, ConvertError> {
    var count := LeadingHashes(block);
    if count > 6 then Failure(TooManyHashes)
    else Wrapped(HeadingTag(count), InlineNodes(SliceFrom(block, count + 1)))
  }

  /** A fenced block keeps its raw text `block[4:-3]` in one plain leaf inside
      `code` inside `pre`. */
  function CodeNode(block: string): Node {
    Element("pre", [Element("code", [TextNodeToHtml(TextNode(Slice(block, 4, -3), Text, None))])])
  }

  /** Every quote line loses its first two characters, `> ` or not; a line
      shorter than two characters, such as a lone `>`, becomes empty. */
  function QuoteLines(lines: seq<string>): (r: seq<string>)
    ensures |r| == |lines|
    ensures forall i :: 0 <= i < |lines| ==> r[i] == SliceFrom(lines[i], 2)
  {
    if lines == [] then [] else QuoteLines(lines[..|lines| - 1]) + [SliceFrom(lines[|lines| - 1], 2)]
  }

  function QuoteNode(block: string): Result<Node, ConvertError> {
    Wrapped("blockquote", InlineNodes(Join(" ", QuoteLines(Lines(block)))))
  }

  /** The text of a list item: after the first `". "` of an ordered item, after
      the first two characters of an unordered one. */
  function ItemText(line: string, ordered: bool): Result<string, ConvertError> {
    if ordered then
      var parts := SplitOnce(line, ". ");
      if |parts| < 2 then Failure(MissingListText) else Success(parts[1])
    else Success(SliceFrom(line, 2))
  }

  function ListItem(line: string, ordered: bool): Result<Node, ConvertError> {
    var text :- ItemText(line, ordered);
    Wrapped("li", InlineNodes(text))
  }

  function ListNode(block: string, ordered: bool): Result<Node, ConvertError> {
    Wrapped(if ordered then "ol" else "ul", CollectAll(Lines(block), line => ListItem(line, ordered)))
  }

  /** The lines of a paragraph, joined by single spaces. */
  function ParagraphNode(block: string): Result<Node, ConvertError> {
    Wrapped("p", InlineNodes(Join(" ", Lines(block))))
  }

  /** The element of one block, by its kind. */
  function BlockToHtml(block: string): Result<Node, ConvertError> {
    match BlockTypeOf(block)
    case Heading => HeadingNode(block)
    case CodeBlock => Success(CodeNode(block))
    case Quote => QuoteNode(block)
    case OrderedList => ListNode(block, true)
    case UnorderedList => ListNode(block, false)
    case Paragraph => ParagraphNode(block)
  }

  // ---------------------------------------------------------------------------
  // the document

  /** The whole document as one `div`. */
  function Convert(markdown: string): Result<Node, ConvertError> {
    Wrapped("div", CollectAll(DocumentBlocks(markdown), BlockToHtml))
  }

  // ---------------------------------------------------------------------------
  // what each kind of block becomes

  lemma HeadingNodeShape(block: string)
    requires HashHeading(block)
    ensures HeadingNode(block) == Wrapped(HeadingTag(LeadingHashes(block)), InlineNodes(block[LeadingHashes(block) + 1..]))
  {
    var h := LeadingHashes(block);
    assert SliceFrom(block, h + 1) == block[h + 1..];
  }

  /** A heading block has one to six `#` and a space, so the heading error is
      never raised; the element is `h1` to `h6` around the text after the space. */
  lemma HeadingElement(block: string)
    requires BlockTypeOf(block) == Heading
    ensures var h := LeadingHashes(block);
      && 1 <= h <= 6 && h < |block| && block[h] == ' '
      && BlockToHtml(block) == Wrapped(HeadingTag(h), InlineNodes(block[h + 1..]))
  {
    HeadingBlock(block);
    assert BlockToHtml(block) == HeadingNode(block);
    HeadingNodeShape(block);
  }
  /** A fenced block keeps the raw text between the first four characters
      (the fence and its line break) and the closing fence, in `code` in `pre`. */
  lemma CodeElement(block: string)
    requires BlockTypeOf(block) == CodeBlock
    ensures 4 <= |block| - 3
    ensures BlockToHtml(block) ==
      Success(Element("pre", [Element("code", [Leaf(None, Some(block[4..|block| - 3]), None)])]))
  {
    assert Fenced(Lines(block));
    FencedLength(block);
    assert Slice(block, 4, -3) == block[4..|block| - 3] by {
      assert Clamp(4, |block|) == 4 && Clamp(-3, |block|) == |block| - 3;
    }
    assert BlockToHtml(block) == Success(CodeNode(block));
  }

  /** Every quote line starts with `>` and gives up its first two characters,
      whatever the second one is; a lone `>` becomes empty. */
  lemma QuoteElement(block: string)
    requires BlockTypeOf(block) == Quote
    ensures BlockToHtml(block) == Wrapped("blockquote", InlineNodes(Join(" ", QuoteLines(Lines(block)))))
    ensures var lines := Lines(block);
      && |QuoteLines(lines)| == |lines|
      && forall i :: 0 <= i < |lines| ==>
        && StartsWith(lines[i], ">")
        && QuoteLines(lines)[i] == if |lines[i]| >= 2 then lines[i][2..] else ""
  {
    QuoteIff(block);
  }

  /** The lines `> t` for each text `t`. */
  function QuoteSource(texts: seq<string>): (r: seq<string>)
    ensures |r| == |texts| && forall i :: 0 <= i < |texts| ==> r[i] == "> " + texts[i]
  {
    seq(|texts|, i requires 0 <= i < |texts| => "> " + texts[i])
  }

  /** A quote written as `> ` lines becomes one blockquote of the lines' texts
      joined by single spaces. */
  lemma QuoteOfTexts(texts: seq<string>)
    requires |texts| >= 1
    requires forall i :: 0 <= i < |texts| ==> forall k :: 0 <= k < |texts[i]| ==> texts[i][k] != '\n'
    ensures BlockToHtml(Join("\n", QuoteSource(texts))) == Wrapped("blockquote", InlineNodes(Join(" ", texts)))
  {
    var block := Join("\n", QuoteSource(texts));
    QuoteSourceLines(texts);
    QuoteSourceIsQuote(texts);
    assert BlockToHtml(block) == QuoteNode(block);
  }

  /** The lines of `> ` lines joined by newlines are those lines, and stripping
      the marks gives the texts back. */
  lemma QuoteSourceLines(texts: seq<string>)
    requires forall i :: 0 <= i < |texts| ==> forall k :: 0 <= k < |texts[i]| ==> texts[i][k] != '\n'
    requires |texts| >= 1
    ensures Lines(Join("\n", QuoteSource(texts))) == QuoteSource(texts)
    ensures QuoteLines(QuoteSource(texts)) == texts
  {
    var lines := QuoteSource(texts);
    forall i | 0 <= i < |lines|
      ensures Separable(lines[i], "\n")
    {
      assert forall k :: 2 <= k < |lines[i]| ==> lines[i][k] == texts[i][k - 2];
      SeparableByFirst(lines[i], "\n");
    }
    SplitJoinInverse("\n", lines);
    forall i | 0 <= i < |texts|
      ensures QuoteLines(lines)[i] == texts[i]
    {
      assert ("> " + texts[i])[2..] == texts[i];
    }
  }

  /** `> ` lines joined by newlines make a quote block. */
  lemma QuoteSourceIsQuote(texts: seq<string>)
    requires |texts| >= 1
    requires Lines(Join("\n", QuoteSource(texts))) == QuoteSource(texts)
    ensures BlockTypeOf(Join("\n", QuoteSource(texts))) == Quote
  {
    var lines := QuoteSource(texts);
    var block := Join("\n", lines);
    JoinStarts("\n", lines);
    assert block[0] == lines[0][0] == '>';
    QuoteIff(block);
    assert !StartsWithAny(block, HeadingPrefixes) by {
      forall k | 0 <= k < |HeadingPrefixes|
        ensures !StartsWith(block, HeadingPrefixes[k])
      {
        assert HeadingPrefixes[k][0] == '#';
      }
    }
    assert !StartsWith(lines[0], "```") by {
      assert lines[0][0] == '>';
    }
    forall i | 0 <= i < |lines|
      ensures StartsWith(lines[i], ">")
    {
      assert lines[i][..1] == ">";
    }
  }


  /** A paragraph's text is the block with every line break turned into a space. */
  lemma ParagraphElement(block: string)
    requires BlockTypeOf(block) == Paragraph
    ensures BlockToHtml(block) == Wrapped("p", InlineNodes(ReplaceChar(block, '\n', ' ')))
  {
    assert BlockToHtml(block) == ParagraphNode(block);
    SplitCharJoin(block, '\n', ' ');
  }

  /** Text without `**`, `_`, backticks or `[` is a single plain leaf. */
  lemma PlainInline(text: string)
    requires text != "" && !Contains(text, "**")
    requires forall i :: 0 <= i < |text| ==> text[i] !in {'_', '`', '['}
    ensures InlineNodes(text) == Success([Leaf(None, Some(text), None)])
  {
    PlainText(text);
    assert Leaves([TextNode(text, Text, None)]) == [Leaf(None, Some(text), None)];
  }

  /** A paragraph without `**`, `_`, backticks or `[` is a single plain leaf. */
  lemma PlainParagraph(block: string)
    requires BlockTypeOf(block) == Paragraph && block != ""
    requires !Contains(block, "**")
    requires forall i :: 0 <= i < |block| ==> block[i] !in {'_', '`', '['}
    ensures BlockToHtml(block) == Success(Element("p", [Leaf(None, Some(ReplaceChar(block, '\n', ' ')), None)]))
  {
    PlainLineBreaks(block);
    ParagraphElement(block);
  }

  /** Turning line breaks into spaces keeps plain text plain. */
  lemma PlainLineBreaks(block: string)
    requires block != "" && !Contains(block, "**")
    requires forall i :: 0 <= i < |block| ==> block[i] !in {'_', '`', '['}
    ensures InlineNodes(ReplaceChar(block, '\n', ' ')) == Success([Leaf(None, Some(ReplaceChar(block, '\n', ' ')), None)])
  {
    BreaksToSpacesPlain(block);
    PlainInline(ReplaceChar(block, '\n', ' '));
  }

  /** Turning line breaks into spaces creates no `**`, `_`, backtick or `[`. */
  lemma BreaksToSpacesPlain(block: string)
    requires !Contains(block, "**")
    requires forall i :: 0 <= i < |block| ==> block[i] !in {'_', '`', '['}
    ensures !Contains(ReplaceChar(block, '\n', ' '), "**")
    ensures forall i :: 0 <= i < |block| ==> ReplaceChar(block, '\n', ' ')[i] !in {'_', '`', '['}
  {
    StoppersAvoidBreaks();
    ReplaceCharClear(block, '\n', ' ', "**", {'_', '`', '['});
  }

  /** Neither a line break nor a space takes part in `**`, `_`, backticks or `[`. */
  lemma StoppersAvoidBreaks()
    ensures forall k :: 0 <= k < |"**"| ==> "**"[k] != '\n' && "**"[k] != ' '
    ensures ' ' !in {'_', '`', '['}
  {
    assert "**"[0] == '*' && "**"[1] == '*';
  }

  /** On a numbered line the item text follows the line's own marker, so the
      `IndexError` of `split(". ", 1)[1]` is never raised. */
  lemma OrderedItemText(line: string, i: nat)
    requires StartsWith(line, ItemMarker(i))
    ensures ItemText(line, true) == Success(line[|ItemMarker(i)|..])
  {
    var digits := IntToString(i + 1);
    var rest := line[|ItemMarker(i)|..];
    assert line == digits + ". " + rest by {
      assert line == line[..|ItemMarker(i)|] + rest;
    }
    SplitOnceAfter(digits, ". ", rest);
  }

  /** An ordered list has one `li` per line, holding the text after the line's
      number marker. */
  lemma OrderedListElement(block: string)
    requires BlockTypeOf(block) == OrderedList
    ensures var lines := Lines(block);
      forall i :: 0 <= i < |lines| ==> ListItem(lines[i], true) == Wrapped("li", InlineNodes(lines[i][|ItemMarker(i)|..]))
    ensures var lines := Lines(block); var r := BlockToHtml(block);
      r.Success? ==> r.value.children.nodes == seq(|lines|, i requires 0 <= i < |lines| => ListItem(lines[i], true).value)
  {
    var lines := Lines(block);
    assert Numbered(lines);
    forall i | 0 <= i < |lines|
      ensures ListItem(lines[i], true) == Wrapped("li", InlineNodes(lines[i][|ItemMarker(i)|..]))
    {
      OrderedItemText(lines[i], i);
    }
  }

  /** An unordered list has one `li` per line, holding the text after `- `. */
  lemma UnorderedListElement(block: string)
    requires BlockTypeOf(block) == UnorderedList
    ensures var lines := Lines(block);
      forall i :: 0 <= i < |lines| ==> ListItem(lines[i], false) == Wrapped("li", InlineNodes(lines[i][2..]))
    ensures var lines := Lines(block); var r := BlockToHtml(block);
      r.Success? ==> r.value.children.nodes == seq(|lines|, i requires 0 <= i < |lines| => ListItem(lines[i], false).value)
  {
    UnorderedListIff(block);
  }

  /** Only the inline parser's errors escape a block. */
  lemma OnlyInlineErrors(block: string)
    ensures BlockToHtml(block).Failure? ==> BlockToHtml(block).error.InlineFailed?
  {
    var lines := Lines(block);
    match BlockTypeOf(block)
    case Heading =>
      HeadingElement(block);
    case OrderedList =>
      var f := line => ListItem(line, true);
      if CollectAll(lines, f).Failure? {
        CollectAllFirstFailure(lines, f);
        var j :| FirstFailure(lines, f, j) && f(lines[j]).error == CollectAll(lines, f).error;
        OrderedListElement(block);
      }
    case UnorderedList =>
      var f := line => ListItem(line, false);
      if CollectAll(lines, f).Failure? {
        CollectAllFirstFailure(lines, f);
      }
    case _ =>
  }

  lemma WrappedWellFormed(tag: string, children: Result<seq<Node>, ConvertError>)
    requires children.Success? && forall i :: 0 <= i < |children.value| ==> WellFormed(children.value[i])
    ensures WellFormed(Wrapped(tag, children).value)
  {
  }

  lemma ListWellFormed(lines: seq<string>, ordered: bool)
    requires CollectAll(lines, line => ListItem(line, ordered)).Success?
    ensures WellFormed(Wrapped(if ordered then "ol" else "ul", CollectAll(lines, line => ListItem(line, ordered))).value)
  {
    var f := line => ListItem(line, ordered);
    var items := CollectAll(lines, f).value;
    forall i | 0 <= i < |items|
      ensures WellFormed(items[i])
    {
      var text := ItemText(lines[i], ordered).value;
      WrappedWellFormed("li", InlineNodes(text));
    }
    WrappedWellFormed(if ordered then "ol" else "ul", CollectAll(lines, f));
  }

  /** Every element a block converts to renders: each leaf has a value and each
      parent a tag and a children list. */
  lemma BlockWellFormed(block: string)
    requires BlockToHtml(block).Success?
    ensures WellFormed(BlockToHtml(block).value)
  {
    match BlockTypeOf(block)
    case OrderedList =>
      ListWellFormed(Lines(block), true);
    case UnorderedList =>
      ListWellFormed(Lines(block), false);
    case _ =>
  }


  // ---------------------------------------------------------------------------
  // the document

  /** A document becomes a `div` with one element per block, in order; it fails
      exactly when a block fails, with the error of the first block that does,
      and that error always comes from the inline parser. */
  lemma ConvertStructure(markdown: string)
    ensures var blocks := DocumentBlocks(markdown); var r := Convert(markdown);
      && (r.Success? <==> forall i :: 0 <= i < |blocks| ==> BlockToHtml(blocks[i]).Success?)
      && (r.Success? ==> r.value == Element("div", seq(|blocks|, i requires 0 <= i < |blocks| => BlockToHtml(blocks[i]).value)))
      && (r.Failure? ==> r.error.InlineFailed?)
      && (r.Failure? ==> exists j :: FirstFailure(blocks, BlockToHtml, j) && BlockToHtml(blocks[j]).error == r.error)
  {
    var blocks := DocumentBlocks(markdown);
    var r := CollectAll(blocks, BlockToHtml);
    if r.Failure? {
      CollectAllFirstFailure(blocks, BlockToHtml);
      var j :| FirstFailure(blocks, BlockToHtml, j) && BlockToHtml(blocks[j]).error == r.error;
      OnlyInlineErrors(blocks[j]);
    } else {
      assert r.value == seq(|blocks|, i requires 0 <= i < |blocks| => BlockToHtml(blocks[i]).value);
    }
  }

  /** A converted document always renders. */
  lemma ConvertRenders(markdown: string)
    requires Convert(markdown).Success?
    ensures Markup(Convert(markdown).value).Success?
  {
    var blocks := DocumentBlocks(markdown);
    var nodes := CollectAll(blocks, BlockToHtml).value;
    forall i | 0 <= i < |nodes|
      ensures WellFormed(nodes[i])
    {
      BlockWellFormed(blocks[i]);
    }
  }

  // ---------------------------------------------------------------------------
  // the loops

  /** The heading loop: count the `#` characters before the first other one. */
  method CountLeadingHashes(block: string) returns (headingCount: nat)
    ensures headingCount == LeadingHashes(block)
  {
    headingCount := 0;
    for i := 0 to |block|
      invariant headingCount == i
      invariant forall k :: 0 <= k < i ==> block[k] == '#'
    {
      if block[i] == '#' {
        headingCount := headingCount + 1;
      } else {
        break;
      }
    }
    LeadingHashesOfPrefix(block, headingCount);
  }

  /** `text_to_textnodes`, then the loop that converts every span. */
  method InlineToHtml(text: string) returns (r: Result<seq<Node>, ConvertError>)
    ensures r == InlineNodes(text)
  {
    var textNodes := TextToTextNodes(text);
    if textNodes.Failure? {
      return Failure(InlineFailed(textNodes.error));
    }
    var childNodes := ToLeafNodes(textNodes.value);
    return Success(childNodes);
  }

  method HeadingToHtml(block: string) returns (r: Result<Node, ConvertError>)
    ensures r == HeadingNode(block)
  {
    var headingCount := CountLeadingHashes(block);
    if headingCount > 6 {
      return Failure(TooManyHashes);
    }
    var childNodes := InlineToHtml(SliceFrom(block, headingCount + 1));
    if childNodes.Failure? {
      return Failure(childNodes.error);
    }
    return Success(Element(HeadingTag(headingCount), childNodes.value));
  }

  method QuoteToHtml(block: string) returns (r: Result<Node, ConvertError>)
    ensures r == QuoteNode(block)
  {
    var lines := Split(block, "\n");
    var quoteTextLines: seq<string> := [];
    for i := 0 to |lines|
      invariant quoteTextLines == QuoteLines(lines[..i])
    {
      assert lines[..i + 1][..i] == lines[..i];
      quoteTextLines := quoteTextLines + [SliceFrom(lines[i], 2)];
    }
    assert lines[..|lines|] == lines;
    var quoteChildNodes := InlineToHtml(Join(" ", quoteTextLines));
    if quoteChildNodes.Failure? {
      return Failure(quoteChildNodes.error);
    }
    return Success(Element("blockquote", quoteChildNodes.value));
  }

  method ListItemToHtml(line: string, ordered: bool) returns (r: Result<Node, ConvertError>)
    ensures r == ListItem(line, ordered)
  {
    var lineText: string;
    if ordered {
      var parts := SplitOnce(line, ". ");
      if |parts| < 2 {
        return Failure(MissingListText);
      }
      lineText := parts[1];
    } else {
      lineText := SliceFrom(line, 2);
    }
    var lineChildNodes := InlineToHtml(lineText);
    if lineChildNodes.Failure? {
      return Failure(lineChildNodes.error);
    }
    return Success(Element("li", lineChildNodes.value));
  }

  /** The ordered and unordered list branches, which differ only in how an
      item's text is cut from its line and in the list's tag. */
  method ListToHtml(block: string, ordered: bool) returns (r: Result<Node, ConvertError>)
    ensures r == ListNode(block, ordered)
  {
    var listLines := Split(block, "\n");
    ghost var f := line => ListItem(line, ordered);
    var listItems: seq<Node> := [];
    for i := 0 to |listLines|
      invariant CollectAll(listLines[..i], f) == Success(listItems)
    {
      var item := ListItemToHtml(listLines[i], ordered);
      CollectAllStep(listLines, i, f, listItems, item);
      if item.Failure? {
        return Failure(item.error);
      }
      listItems := listItems + [item.value];
    }
    assert listLines[..|listLines|] == listLines;
    return Success(Element(if ordered then "ol" else "ul", listItems));
  }

  method ParagraphToHtml(block: string) returns (r: Result<Node, ConvertError>)
    ensures r == ParagraphNode(block)
  {
    var lines := Split(block, "\n");
    var paragraphText := Join(" ", lines);
    var paragraphChildNodes := InlineToHtml(paragraphText);
    if paragraphChildNodes.Failure? {
      return Failure(paragraphChildNodes.error);
    }
    return Success(Element("p", paragraphChildNodes.value));
  }

  /** The body of the loop over blocks: classify, then convert by kind. */
  method BlockToNode(block: string) returns (r: Result<Node, ConvertError>)
    ensures r == BlockToHtml(block)
  {
    var currentBlockType := BlockToBlockType(block);
    match currentBlockType
    case Heading =>
      r := HeadingToHtml(block);
    case CodeBlock =>
      var codeText := Slice(block, 4, -3);
      var childNode := TextNodeToHtml(TextNode(codeText, Text, None));
      r := Success(Element("pre", [Element("code", [childNode])]));
    case Quote =>
      r := QuoteToHtml(block);
    case OrderedList =>
      r := ListToHtml(block, true);
    case UnorderedList =>
      r := ListToHtml(block, false);
    case Paragraph =>
      r := ParagraphToHtml(block);
  }

  /** `markdown_to_html_node` */
  method MarkdownToHtmlNode(markdown: string) returns (r: Result<Node, ConvertError>)
    ensures r == Convert(markdown)
  {
    var markdownBlocks := MarkdownToBlocks(markdown);
    var blockNodes: seq<Node> := [];
    for i := 0 to |markdownBlocks|
      invariant CollectAll(markdownBlocks[..i], BlockToHtml) == Success(blockNodes)
    {
      var node := BlockToNode(markdownBlocks[i]);
      CollectAllStep(markdownBlocks, i, BlockToHtml, blockNodes, node);
      if node.Failure? {
        return Failure(node.error);
      }
      blockNodes := blockNodes + [node.value];
    }
    assert markdownBlocks[..|markdownBlocks|] == markdownBlocks;
    return Success(Element("div", blockNodes));
  }
}
