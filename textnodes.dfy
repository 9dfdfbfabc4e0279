/** Inline spans (`TextType`, `TextNode`) and their conversion to leaf nodes. */
module TextNodes {
  import opened Wrappers
  import opened Html

  /** The kinds of inline span. */
  datatype TextType = Text | Bold | Italic | Code | Link | Image

  /** An inline span: its text, its kind and, for links and images, the url. */
  datatype TextNode = TextNode(text: string, textType: TextType, url: Option<string>)

  /** The errors the inline parser raises (all `ValueError` in Python): a
      delimiter left unclosed, an empty delimiter passed to `str.split`, and an
      image or link left open at the end of the text. */
  datatype InlineError = UnclosedDelimiter | EmptySeparator | MalformedLink

  /** The texts of a span sequence, concatenated in order. */
  function SpanText(spans: seq<TextNode>): string {
    if spans == [] then "" else SpanText(spans[..|spans| - 1]) + spans[|spans| - 1].text
  }

  lemma {:induction false} SpanTextAppend(a: seq<TextNode>, b: seq<TextNode>)
    ensures SpanText(a + b) == SpanText(a) + SpanText(b)
    decreases |b|
  {
    if b == [] {
      assert a + b == a;
    } else {
      SpanTextAppend(a, b[..|b| - 1]);
      assert (a + b)[..|a + b| - 1] == a + b[..|b| - 1];
    }
  }

  /** `TextNode.__eq__`: field-by-field comparison, which is structural equality. */
  function Equal(a: TextNode, b: TextNode): (r: bool)
    ensures r <==> a == b
  {
    a.text == b.text && a.textType == b.textType && a.url == b.url
  }

  /** How an f-string shows an optional string: `None` prints as "None". */
  function Show(u: Option<string>): string {
    match u
    case None => "None"
    case Some(s) => s
  }

  /** `text_node_to_html_node`: plain text becomes an untagged leaf, the styled
      kinds become `b`, `i` and `code` leaves, a link an `a` leaf with an `href`
      and an image an empty `img` leaf with `src` then `alt`. */
  function TextNodeToHtml(t: TextNode): (r: Node)
    ensures r.Leaf? && WellFormed(r)
    ensures r.value == Some(if t.textType == Image then "" else t.text)
  {
    match t.textType
    case Text => Leaf(None, Some(t.text), None)
    case Bold => Leaf(Some("b"), Some(t.text), None)
    case Italic => Leaf(Some("i"), Some(t.text), None)
    case Code => Leaf(Some("code"), Some(t.text), None)
    case Link => Leaf(Some("a"), Some(t.text), Some([("href", Show(t.url))]))
    case Image => Leaf(Some("img"), Some(""), Some([("src", Show(t.url)), ("alt", t.text)]))
  }

  /** What plain and styled spans render to. */
  lemma StyledSpanMarkup(t: TextNode)
    ensures t.textType == Text ==> Markup(TextNodeToHtml(t)) == Success(t.text)
    ensures t.textType == Bold ==> Markup(TextNodeToHtml(t)) == Success("<b>" + t.text + "</b>")
    ensures t.textType == Italic ==> Markup(TextNodeToHtml(t)) == Success("<i>" + t.text + "</i>")
    ensures t.textType == Code ==> Markup(TextNodeToHtml(t)) == Success("<code>" + t.text + "</code>")
  {
    match t.textType
    case Bold =>
      assert OpenTag("b", None) == "<b>" && CloseTag("b") == "</b>";
    case Italic =>
      assert OpenTag("i", None) == "<i>" && CloseTag("i") == "</i>";
    case Code =>
      assert OpenTag("code", None) == "<code>" && CloseTag("code") == "</code>";
    case _ =>
  }

  /** The opening tag of an element with one attribute. */
  lemma OneAttributeTag(tag: string, key: string, value: string)
    ensures OpenTag(tag, Some([(key, value)])) == "<" + tag + Attribute(key, value) + ">"
  {
    assert [(key, value)][..0] == [];
    assert Attributes([(key, value)]) == Attribute(key, value);
  }

  /** A link renders as an `a` element whose only attribute is `href`. */
  lemma LinkSpanMarkup(t: TextNode)
    requires t.textType == Link
    ensures Markup(TextNodeToHtml(t)) == Success("<a" + Attribute("href", Show(t.url)) + ">" + t.text + "</a>")
  {
    var open := OpenTag("a", Some([("href", Show(t.url))]));
    assert Markup(TextNodeToHtml(t)) == Success(open + t.text + CloseTag("a"));
    assert open == "<a" + Attribute("href", Show(t.url)) + ">" by {
      OneAttributeTag("a", "href", Show(t.url));
      assert "<" + "a" == "<a";
    }
    assert CloseTag("a") == "</a>";
  }

  lemma TwoAttributes(p: (string, string), q: (string, string))
    ensures Attributes([p, q]) == Attribute(p.0, p.1) + Attribute(q.0, q.1)
  {
    assert [p, q][..1] == [p] && [p][..0] == [];
    assert Attributes([p]) == Attribute(p.0, p.1);
  }

  /** An image renders as an empty `img` element with `src` then `alt`. */
  lemma ImageSpanMarkup(t: TextNode)
    requires t.textType == Image
    ensures Markup(TextNodeToHtml(t)) == Success("<img" + Attribute("src", Show(t.url)) + Attribute("alt", t.text) + "></img>")
  {
    var props := [("src", Show(t.url)), ("alt", t.text)];
    var a, b := Attribute("src", Show(t.url)), Attribute("alt", t.text);
    var open := OpenTag("img", Some(props));
    assert open == "<img" + a + b + ">" by {
      TwoAttributes(props[0], props[1]);
    }
    assert Markup(TextNodeToHtml(t)) == Success(open + "" + CloseTag("img"));
    assert open + "" + CloseTag("img") == "<img" + a + b + "></img>" by {
      assert CloseTag("img") == "</img>";
    }
  }

  /** The converter's repeated loop `for node in text_nodes:
      child_nodes.append(text_node_to_html_node(node))`, as a value. */
  function Leaves(spans: seq<TextNode>): (r: seq<Node>)
    ensures |r| == |spans|
    ensures forall i :: 0 <= i < |spans| ==> r[i] == TextNodeToHtml(spans[i])
  {
    if spans == [] then [] else Leaves(spans[..|spans| - 1]) + [TextNodeToHtml(spans[|spans| - 1])]
  }

  /** The leaves of any span sequence render without error. */
  lemma LeavesRender(spans: seq<TextNode>)
    ensures ChildrenMarkup(Leaves(spans)).Success?
  {
  }

  /** The loop itself. */
  method ToLeafNodes(spans: seq<TextNode>) returns (childNodes: seq<Node>)
    ensures childNodes == Leaves(spans)
  {
    childNodes := [];
    for i := 0 to |spans|
      invariant childNodes == Leaves(spans[..i])
    {
      assert spans[..i + 1][..i] == spans[..i];
      childNodes := childNodes + [TextNodeToHtml(spans[i])];
    }
    assert spans[..|spans|] == spans;
  }
}
