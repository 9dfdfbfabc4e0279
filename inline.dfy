/** The inline parser: the passes `split_nodes_delimiter` and
    `split_image_or_link_nodes` over a span sequence, and `text_to_textnodes`,
    which runs five of them in order. */
module Inline {
  import opened Wrappers
  import opened PyStr
  import opened TextNodes
  import opened Delimiter
  import opened LinkScanner

  /** One pass over a span sequence: splitting on a delimiter into spans of a
      kind, or cutting out references (links or images) of a kind. */
  datatype Pass = Delimited(delimiter: string, kind: TextType) | References(kind: TextType)

  /** What one span becomes in a pass. */
  function SplitOne(p: Pass, node: TextNode): (r: Result<seq<TextNode>, InlineError>)
    ensures node.textType != Text ==> r == Success([node])
  {
    match p
    case Delimited(delimiter, kind) => SplitNode(node, delimiter, kind)
    case References(kind) => SplitLinkNode(node, kind)
  }

  /** A span sequence through a per-span split: each span in turn, the outputs
      concatenated and the first error raised winning. */
  function EachSpan(nodes: seq<TextNode>, f: TextNode -> Result<seq<TextNode>, InlineError>): (r: Result<seq<TextNode>, InlineError>) {
    if nodes == [] then Success([])
    else
      var i := |nodes| - 1;
      match EachSpan(nodes[..i], f)
      case Failure(e) => Failure(e)
      case Success(front) =>
        match f(nodes[i])
        case Failure(e) => Failure(e)
        case Success(last) => Success(front + last)
  }

  /** One pass as a per-span split. */
  function Splitter(p: Pass): TextNode -> Result<seq<TextNode>, InlineError> {
    node => SplitOne(p, node)
  }

  /** What a span sequence becomes in a pass. */
  function SplitAll(nodes: seq<TextNode>, p: Pass): Result<seq<TextNode>, InlineError> {
    EachSpan(nodes, Splitter(p))
  }

  // ---------------------------------------------------------------------------
  // the passes are compositional

  /** Spans that a split leaves as they are pass through unchanged and in place. */
  lemma {:induction false} EachSpanPassThrough(nodes: seq<TextNode>, f: TextNode -> Result<seq<TextNode>, InlineError>)
    requires forall i :: 0 <= i < |nodes| ==> f(nodes[i]) == Success([nodes[i]])
    ensures EachSpan(nodes, f) == Success(nodes)
  {
    if nodes != [] {
      EachSpanPassThrough(nodes[..|nodes| - 1], f);
      assert nodes[..|nodes| - 1] + [nodes[|nodes| - 1]] == nodes;
    }
  }

  /** Spans that are not plain text pass through every pass unchanged and in place. */
  lemma StyledPassThrough(nodes: seq<TextNode>, p: Pass)
    requires forall i :: 0 <= i < |nodes| ==> nodes[i].textType != Text
    ensures SplitAll(nodes, p) == Success(nodes)
  {
    EachSpanPassThrough(nodes, Splitter(p));
  }

  lemma AppendAssoc(x: seq<TextNode>, y: seq<TextNode>, z: seq<TextNode>)
    ensures x + y + z == x + (y + z)
  {
  }

  /** One span more at the end: split the front, then the new span. */
  lemma EachSpanSnoc(nodes: seq<TextNode>, n: TextNode, f: TextNode -> Result<seq<TextNode>, InlineError>)
    requires EachSpan(nodes, f).Success? && f(n).Success?
    ensures EachSpan(nodes + [n], f) == Success(EachSpan(nodes, f).value + f(n).value)
  {
    assert (nodes + [n])[..|nodes|] == nodes;
  }

  /** A single span gives what splitting it gives. */
  lemma EachSpanSingle(n: TextNode, f: TextNode -> Result<seq<TextNode>, InlineError>)
    ensures EachSpan([n], f) == f(n)
  {
    assert [n][..0] == [];
    if f(n).Success? {
      assert [] + f(n).value == f(n).value;
    }
  }

  /** Splitting is compositional: the spans of `a + b` are those of `a` followed
      by those of `b`, so every span keeps its place relative to the others. */
  lemma {:induction false} EachSpanAppend(a: seq<TextNode>, b: seq<TextNode>, f: TextNode -> Result<seq<TextNode>, InlineError>)
    requires EachSpan(a, f).Success? && EachSpan(b, f).Success?
    ensures EachSpan(a + b, f) == Success(EachSpan(a, f).value + EachSpan(b, f).value)
    decreases |b|
  {
    if b == [] {
      assert a + b == a;
      assert EachSpan(a, f).value + [] == EachSpan(a, f).value;
    } else {
      var b', last := b[..|b| - 1], b[|b| - 1];
      assert EachSpan(b', f).Success? && f(last).Success?;
      var x, y, z := EachSpan(a, f).value, EachSpan(b', f).value, f(last).value;
      assert EachSpan(b, f) == Success(y + z) by {
        assert b == b' + [last];
        EachSpanSnoc(b', last, f);
      }
      assert EachSpan(a + b', f) == Success(x + y) by {
        EachSpanAppend(a, b', f);
      }
      assert EachSpan(a + b, f) == Success(x + y + z) by {
        assert a + b == (a + b') + [last];
        EachSpanSnoc(a + b', last, f);
      }
      AppendAssoc(x, y, z);
    }
  }

  /** A span sequence raises exactly when one of its spans does. */
  lemma {:induction false} EachSpanFailsIff(nodes: seq<TextNode>, f: TextNode -> Result<seq<TextNode>, InlineError>)
    ensures EachSpan(nodes, f).Failure? <==> exists i :: 0 <= i < |nodes| && f(nodes[i]).Failure?
  {
    if nodes != [] {
      var i := |nodes| - 1;
      EachSpanFailsIff(nodes[..i], f);
      if EachSpan(nodes[..i], f).Failure? {
        var j :| 0 <= j < i && f(nodes[..i][j]).Failure?;
        assert nodes[..i][j] == nodes[j];
      } else if f(nodes[i]).Success? {
        forall j | 0 <= j < |nodes|
          ensures f(nodes[j]).Success?
        {
          if j < i {
            assert nodes[..i][j] == nodes[j];
          }
        }
      }
    }
  }

  /** When every span before `k` splits and span `k` raises, the whole sequence
      raises that error. */
  lemma EachSpanFailure(nodes: seq<TextNode>, k: nat, f: TextNode -> Result<seq<TextNode>, InlineError>)
    requires k < |nodes| && EachSpan(nodes[..k], f).Success?
    requires f(nodes[k]).Failure?
    ensures EachSpan(nodes, f) == Failure(f(nodes[k]).error)
  {
    assert nodes[..k + 1][..k] == nodes[..k];
    if k + 1 < |nodes| {
      EachSpanStaysFailed(nodes, k + 1, f);
    } else {
      assert nodes[..k + 1] == nodes;
    }
  }

  /** Once a prefix has raised, the whole sequence raises the same error. */
  lemma {:induction false} EachSpanStaysFailed(nodes: seq<TextNode>, j: nat, f: TextNode -> Result<seq<TextNode>, InlineError>)
    requires j <= |nodes| && EachSpan(nodes[..j], f).Failure?
    ensures EachSpan(nodes, f) == EachSpan(nodes[..j], f)
    decreases |nodes| - j
  {
    if j == |nodes| {
      assert nodes[..j] == nodes;
    } else {
      assert nodes[..j + 1][..j] == nodes[..j];
      EachSpanStaysFailed(nodes, j + 1, f);
    }
  }

  // ---------------------------------------------------------------------------
  // what the passes keep

  /** The text a span sequence keeps in a delimiter pass: the delimiters removed
      from plain spans, every other span's text as it was. */
  function KeptText(nodes: seq<TextNode>, delimiter: string): string
    requires delimiter != ""
  {
    if nodes == [] then ""
    else
      var n := nodes[|nodes| - 1];
      KeptText(nodes[..|nodes| - 1], delimiter) + (if n.textType == Text then RemoveAll(n.text, delimiter) else n.text)
  }

  /** No text is lost or invented by a delimiter pass: the output spans spell
      out the input with every occurrence of the delimiter in a plain span
      removed. */
  lemma {:induction false} SplitAllKeepsText(nodes: seq<TextNode>, delimiter: string, kind: TextType)
    requires delimiter != "" && SplitAll(nodes, Delimited(delimiter, kind)).Success?
    ensures SpanText(SplitAll(nodes, Delimited(delimiter, kind)).value) == KeptText(nodes, delimiter)
  {
    var p := Delimited(delimiter, kind);
    if nodes != [] {
      var i := |nodes| - 1;
      var front, last := SplitAll(nodes[..i], p).value, SplitOne(p, nodes[i]).value;
      SplitAllKeepsText(nodes[..i], delimiter, kind);
      SpanTextAppend(front, last);
      if nodes[i].textType != Text {
        assert [nodes[i]][..0] == [];
        assert SpanText(last) == nodes[i].text;
      }
    }
  }

  /** A span as the parser leaves it: non-empty text, and a non-empty url
      exactly when it is a link or an image. */
  predicate Clean(x: TextNode) {
    && x.text != ""
    && (x.url.Some? <==> (x.textType == Link || x.textType == Image))
    && (x.url.Some? ==> x.url.value != "")
  }

  /** The passes `text_to_textnodes` runs: delimiters for the styled kinds and
      references for links and images. */
  predicate ProperPass(p: Pass) {
    match p
    case Delimited(_, kind) => kind != Link && kind != Image
    case References(kind) => kind == Link || kind == Image
  }

  /** A proper pass over a span sequence of clean spans leaves only clean spans. */
  lemma {:induction false} SplitAllKeepsClean(nodes: seq<TextNode>, p: Pass)
    requires ProperPass(p) && SplitAll(nodes, p).Success?
    requires forall i :: 0 <= i < |nodes| ==> nodes[i].textType == Text || Clean(nodes[i])
    ensures forall x :: x in SplitAll(nodes, p).value ==> Clean(x)
  {
    if nodes != [] {
      var i := |nodes| - 1;
      SplitAllKeepsClean(nodes[..i], p);
      var last := SplitOne(p, nodes[i]).value;
      forall x | x in last
        ensures Clean(x)
      {
        if nodes[i].textType != Text {
          assert x == nodes[i];
        } else if p.References? {
          assert SpanOk(p.kind, x);
        }
      }
    }
  }

  // ---------------------------------------------------------------------------
  // the two passes as the source writes them

  /** `split_nodes_delimiter` */
  method SplitNodesDelimiter(oldNodes: seq<TextNode>, delimiter: string, textType: TextType)
    returns (r: Result<seq<TextNode>, InlineError>)
    ensures r == SplitAll(oldNodes, Delimited(delimiter, textType))
  {
    ghost var p := Delimited(delimiter, textType);
    var resultingNodes: seq<TextNode> := [];
    for k := 0 to |oldNodes|
      invariant SplitAll(oldNodes[..k], p) == Success(resultingNodes)
    {
      var node := oldNodes[k];
      assert oldNodes[..k + 1][..k] == oldNodes[..k];
      if node.textType == Text {
        if delimiter == "" {
          EachSpanFailure(oldNodes, k, Splitter(p));
          return Failure(EmptySeparator);
        }
        var newNodes: seq<TextNode> := [];
        var splitText := Split(node.text, delimiter);
        if |splitText| % 2 == 0 {
          EachSpanFailure(oldNodes, k, Splitter(p));
          return Failure(UnclosedDelimiter);
        }
        for i := 0 to |splitText|
          invariant newNodes == TagPieces(splitText[..i], textType)
        {
          assert splitText[..i + 1][..i] == splitText[..i];
          if splitText[i] == "" {
            continue;
          }
          if i % 2 == 0 {
            newNodes := newNodes + [TextNode(splitText[i], Text, None)];
          } else {
            newNodes := newNodes + [TextNode(splitText[i], textType, None)];
          }
        }
        assert splitText[..|splitText|] == splitText;
        resultingNodes := resultingNodes + newNodes;
      } else {
        resultingNodes := resultingNodes + [node];
      }
    }
    assert oldNodes[..|oldNodes|] == oldNodes;
    r := Success(resultingNodes);
  }

  /** The scanner's state as the two flags encode it. */
  function ModeOf(inLinkText: bool, inLinkUrl: bool): Mode {
    if inLinkText then InLabel else if inLinkUrl then InUrl else Plain
  }

  /** The `while` loop of `split_image_or_link_nodes` over one plain span's
      text: it ends in the state the scanner's run ends in. */
  method ScanLoop(text: string, textType: TextType)
    returns (textIndex: nat, startIndex: nat, inLinkText: bool, inLinkUrl: bool, currentLinkText: string, currentNodes: seq<TextNode>)
    ensures !(inLinkText && inLinkUrl)
    ensures Scan(textIndex, startIndex, ModeOf(inLinkText, inLinkUrl), currentLinkText, currentNodes) == Run(text, textType, Initial)
  {
    currentNodes := [];
    textIndex := 0;
    startIndex := 0;
    inLinkText := false;
    inLinkUrl := false;
    currentLinkText := "";
    ghost var st := Initial;
    while textIndex < |text|
      invariant !(inLinkText && inLinkUrl)
      invariant st == Scan(textIndex, startIndex, ModeOf(inLinkText, inLinkUrl), currentLinkText, currentNodes)
      invariant Run(text, textType, st) == Run(text, textType, Initial)
      decreases |text| - textIndex
    {
      RunStep(text, textType, st);
      st := Step(text, textType, st);
      if inLinkText {
        if text[textIndex] == ']' {
          currentLinkText := Slice(text, startIndex, textIndex);
          inLinkText := false;
          inLinkUrl := true;
          startIndex := textIndex + 2;
          textIndex := textIndex + 3;
        } else {
          textIndex := textIndex + 1;
        }
        assert Scan(textIndex, startIndex, ModeOf(inLinkText, inLinkUrl), currentLinkText, currentNodes) == st;
      } else if inLinkUrl {
        if text[textIndex] == ')' {
          currentNodes := currentNodes + [TextNode(currentLinkText, textType, Some(Slice(text, startIndex, textIndex)))];
          inLinkUrl := false;
          startIndex := textIndex + 1;
          textIndex := textIndex + 1;
        } else {
          textIndex := textIndex + 1;
        }
        assert Scan(textIndex, startIndex, ModeOf(inLinkText, inLinkUrl), currentLinkText, currentNodes) == st;
      } else {
        if text[textIndex] == '[' && textType == Link {
          if startIndex != textIndex {
            currentNodes := currentNodes + [TextNode(Slice(text, startIndex, textIndex), Text, None)];
          }
          inLinkText := true;
          startIndex := textIndex + 1;
          textIndex := textIndex + 2;
        } else if text[textIndex] == '[' && textType == Image {
          if Index(text, textIndex - 1) == '!' {
            if textIndex - startIndex > 1 {
              currentNodes := currentNodes + [TextNode(Slice(text, startIndex, textIndex - 1), Text, None)];
            }
            inLinkText := true;
            startIndex := textIndex + 1;
            textIndex := textIndex + 2;
          } else {
            textIndex := textIndex + 1;
          }
        } else {
          textIndex := textIndex + 1;
        }
        assert Scan(textIndex, startIndex, ModeOf(inLinkText, inLinkUrl), currentLinkText, currentNodes) == st;
      }
    }
  }

  /** `split_image_or_link_nodes` */
  method SplitImageOrLinkNodes(oldNodes: seq<TextNode>, textType: TextType)
    returns (r: Result<seq<TextNode>, InlineError>)
    ensures r == SplitAll(oldNodes, References(textType))
  {
    ghost var p := References(textType);
    var newNodes: seq<TextNode> := [];
    for k := 0 to |oldNodes|
      invariant SplitAll(oldNodes[..k], p) == Success(newNodes)
    {
      var node := oldNodes[k];
      assert oldNodes[..k + 1][..k] == oldNodes[..k];
      if node.textType != Text {
        newNodes := newNodes + [node];
        continue;
      }
      var text := node.text;
      var textIndex, startIndex, inLinkText, inLinkUrl, currentLinkText, currentNodes := ScanLoop(text, textType);
      if textIndex > startIndex {
        currentNodes := currentNodes + [TextNode(Slice(text, startIndex, textIndex), Text, None)];
      }
      if inLinkText || inLinkUrl {
        EachSpanFailure(oldNodes, k, Splitter(p));
        return Failure(MalformedLink);
      }
      assert SplitOne(p, node) == Success(currentNodes);
      newNodes := newNodes + currentNodes;
    }
    assert oldNodes[..|oldNodes|] == oldNodes;
    r := Success(newNodes);
  }

  // ---------------------------------------------------------------------------
  // text_to_textnodes

  /** `text_to_textnodes`: bold, italic and code delimiters, then images, then links. */
  function TextToTextNodes(text: string): (r: Result<seq<TextNode>, InlineError>) {
    var bold :- SplitAll([TextNode(text, Text, None)], Delimited("**", Bold));
    var italic :- SplitAll(bold, Delimited("_", Italic));
    var code :- SplitAll(italic, Delimited("`", Code));
    var images :- SplitAll(code, References(Image));
    SplitAll(images, References(Link))
  }

  /** Every span the inline parser returns is clean: non-empty text, and a
      non-empty url exactly for links and images. */
  lemma TextToTextNodesClean(text: string)
    requires TextToTextNodes(text).Success?
    ensures forall x :: x in TextToTextNodes(text).value ==> Clean(x)
  {
    var n := [TextNode(text, Text, None)];
    var bold := SplitAll(n, Delimited("**", Bold)).value;
    assert forall x :: x in bold ==> Clean(x) by {
      SplitAllKeepsClean(n, Delimited("**", Bold));
    }
    var italic := SplitAll(bold, Delimited("_", Italic)).value;
    assert forall x :: x in italic ==> Clean(x) by {
      SplitAllKeepsClean(bold, Delimited("_", Italic));
    }
    var code := SplitAll(italic, Delimited("`", Code)).value;
    assert forall x :: x in code ==> Clean(x) by {
      SplitAllKeepsClean(italic, Delimited("`", Code));
    }
    var images := SplitAll(code, References(Image)).value;
    assert forall x :: x in images ==> Clean(x) by {
      SplitAllKeepsClean(code, References(Image));
    }
    SplitAllKeepsClean(images, References(Link));
  }

  /** A text without `**` and without any `_`, backtick or `[` is one plain span
      (or nothing, when empty); a lone `*` is plain text. */
  lemma PlainText(text: string)
    requires !Contains(text, "**")
    requires forall i :: 0 <= i < |text| ==> text[i] !in {'_', '`', '['}
    ensures TextToTextNodes(text) == Success(if text == "" then [] else [TextNode(text, Text, None)])
  {
    var n := TextNode(text, Text, None);
    var out := if text == "" then [] else [n];
    NoCharNoContains(text, "_");
    NoCharNoContains(text, "`");
    NoDelimiter(text, "**", Bold, None);
    EachSpanSingle(n, Splitter(Delimited("**", Bold)));
    if text == "" {
      assert SplitAll([], Delimited("_", Italic)) == Success([]);
    } else {
      EachSpanSingle(n, Splitter(Delimited("_", Italic)));
      NoDelimiter(text, "_", Italic, None);
      EachSpanSingle(n, Splitter(Delimited("`", Code)));
      NoDelimiter(text, "`", Code, None);
      EachSpanSingle(n, Splitter(References(Image)));
      NoBracket(text, Image);
      EachSpanSingle(n, Splitter(References(Link)));
      NoBracket(text, Link);
    }
  }


  // ---------------------------------------------------------------------------
  // text_to_textnodes on marked-up text

  /** The characters that can take part in inline markup. */
  const MarkupChars: set<char> := {'*', '_', '`', '[', ']', '(', ')', '!'}

  /** The characters the three delimiter passes split on. */
  const Delimiters: set<char> := {'*', '_', '`'}

  predicate Avoids(s: string, cs: set<char>) {
    forall k :: 0 <= k < |s| ==> s[k] !in cs
  }

  lemma AvoidsConcat(a: string, b: string, cs: set<char>)
    requires Avoids(a, cs) && Avoids(b, cs)
    ensures Avoids(a + b, cs)
  {
    forall k | 0 <= k < |a + b|
      ensures (a + b)[k] !in cs
    {
      if k >= |a| {
        assert (a + b)[k] == b[k - |a|];
      }
    }
  }

  /** The passes `text_to_textnodes` runs: each splits on a markup character. */
  predicate MarkupPass(p: Pass) {
    match p
    case Delimited(delimiter, _) => delimiter != "" && delimiter[0] in MarkupChars
    case References(_) => true
  }

  /** A span no pass touches: styled already, or plain text without markup. */
  predicate Settled(x: TextNode) {
    x.textType != Text || (x.text != "" && x.url.None? && Avoids(x.text, MarkupChars))
  }

  /** Settled spans pass through every pass unchanged and in place. */
  lemma SettledPassThrough(nodes: seq<TextNode>, p: Pass)
    requires MarkupPass(p)
    requires forall j :: 0 <= j < |nodes| ==> Settled(nodes[j])
    ensures SplitAll(nodes, p) == Success(nodes)
  {
    forall j | 0 <= j < |nodes|
      ensures Splitter(p)(nodes[j]) == Success([nodes[j]])
    {
      var x := nodes[j];
      if x.textType == Text {
        match p
        case Delimited(delimiter, kind) =>
          NoCharNoContains(x.text, delimiter);
          NoDelimiter(x.text, delimiter, kind, x.url);
        case References(kind) =>
          NoBracket(x.text, kind);
      }
    }
    EachSpanPassThrough(nodes, Splitter(p));
  }

  /** Text without delimiter characters comes through the three delimiter passes
      as the one plain span it started as, so only the reference passes act on it. */
  lemma DelimiterFree(text: string)
    requires text != "" && Avoids(text, Delimiters)
    ensures TextToTextNodes(text)
      == (var images :- SplitAll([TextNode(text, Text, None)], References(Image));
          SplitAll(images, References(Link)))
  {
    var n := [TextNode(text, Text, None)];
    forall p: Pass | p in [Delimited("**", Bold), Delimited("_", Italic), Delimited("`", Code)]
      ensures SplitAll(n, p) == Success(n)
    {
      NoCharNoContains(text, p.delimiter);
      NoDelimiter(text, p.delimiter, p.kind, None);
      EachSpanSingle(n[0], Splitter(p));
    }
  }

  /** A pass over a single span is that span's split. */
  lemma SplitAllSingle(n: TextNode, p: Pass)
    ensures SplitAll([n], p) == SplitOne(p, n)
  {
    EachSpanSingle(n, Splitter(p));
  }

  /** A pass over two spans, the first left alone. */
  lemma SplitAllPair(x: TextNode, n: TextNode, p: Pass)
    requires x.textType != Text && SplitOne(p, n).Success?
    ensures SplitAll([x, n], p) == Success([x] + SplitOne(p, n).value)
  {
    var f := Splitter(p);
    EachSpanSingle(x, f);
    assert [x, n] == [x] + [n];
    EachSpanSnoc([x], n, f);
  }

  /** `![alt](url)` scanned for images. */
  lemma ImageSpan(text: string, alt: string, url: string)
    requires text == "![" + alt + "](" + url + ")"
    requires RefOk(Ref("", alt, url))
    ensures ScanText(text, Image) == Success([TextNode(alt, Image, Some(url))])
  {
    OneRef(Image, "", alt, url, "");
    assert "" + Opening(Image) + alt + "](" + url + ")" + "" == text;
    assert NonEmpty("") + [TextNode(alt, Image, Some(url))] + NonEmpty("") == [TextNode(alt, Image, Some(url))];
  }

  /** Markup-free text names a well-formed reference. */
  lemma UnmarkedRef(before: string, linkText: string, url: string)
    requires Avoids(before, MarkupChars) && linkText != "" && Avoids(linkText, MarkupChars)
    requires url != "" && Avoids(url, MarkupChars)
    ensures RefOk(Ref(before, linkText, url))
  {
  }

  /** An image alone: the image pass runs before the link pass, so `![alt](url)`
      is one image span and not a `!` followed by a link. */
  lemma ImageAlone(alt: string, url: string)
    requires alt != "" && url != "" && Avoids(alt, MarkupChars) && Avoids(url, MarkupChars)
    ensures TextToTextNodes("![" + alt + "](" + url + ")") == Success([TextNode(alt, Image, Some(url))])
  {
    var text := "![" + alt + "](" + url + ")";
    var image := TextNode(alt, Image, Some(url));
    assert Avoids(text, Delimiters) by {
      PunctuationAvoids();
      RefSourceAvoids(text, "![", alt, url, Delimiters);
    }
    DelimiterFree(text);
    assert SplitAll([TextNode(text, Text, None)], References(Image)) == Success([image]) by {
      SplitAllSingle(TextNode(text, Text, None), References(Image));
      UnmarkedRef("", alt, url);
      ImageSpan(text, alt, url);
    }
    StyledPassThrough([image], References(Link));
  }

  /** Bold, then plain text, then italic: each delimiter pass styles its own
      words and hands the rest on as plain spans, in order. */
  lemma BoldThenItalic(b: string, m: string, i: string)
    requires b != "" && m != "" && i != ""
    requires Avoids(b, MarkupChars) && Avoids(m, MarkupChars) && Avoids(i, MarkupChars)
    ensures TextToTextNodes("**" + b + "**" + m + "_" + i + "_")
      == Success([TextNode(b, Bold, None), TextNode(m, Text, None), TextNode(i, Italic, None)])
  {
    var rest := m + "_" + i + "_";
    var bold, plain, italic := TextNode(b, Bold, None), TextNode(m, Text, None), TextNode(i, Italic, None);
    var text := "**" + b + "**" + rest;
    assert text == "**" + b + "**" + m + "_" + i + "_";
    ItalicSplit(m, i, rest);
    BoldStage(b, rest);
    ItalicStage(bold, rest, plain, italic);
    var spans := [bold, plain, italic];
    assert forall j :: 0 <= j < |spans| ==> Settled(spans[j]);
    SettledAfterItalic(text, [bold, TextNode(rest, Text, None)], spans);
  }

  /** The bold pass over the single span `**b**rest`. */
  lemma BoldStage(b: string, rest: string)
    requires b != "" && Avoids(b, MarkupChars) && Avoids(rest, {'*'}) && rest != ""
    ensures SplitAll([TextNode("**" + b + "**" + rest, Text, None)], Delimited("**", Bold))
      == Success([TextNode(b, Bold, None), TextNode(rest, Text, None)])
  {
    SplitAllSingle(TextNode("**" + b + "**" + rest, Text, None), Delimited("**", Bold));
    BoldSplit(b, rest);
    assert NonEmptySpan(rest, Text) == [TextNode(rest, Text, None)];
    assert [TextNode(b, Bold, None)] + [TextNode(rest, Text, None)] == [TextNode(b, Bold, None), TextNode(rest, Text, None)];
  }

  /** The italic pass over a bold span and the plain span `m_i_`. */
  lemma ItalicStage(bold: TextNode, rest: string, plain: TextNode, italic: TextNode)
    requires bold.textType == Bold
    requires SplitOne(Delimited("_", Italic), TextNode(rest, Text, None)) == Success([plain, italic])
    ensures SplitAll([bold, TextNode(rest, Text, None)], Delimited("_", Italic)) == Success([bold, plain, italic])
  {
    SplitAllPair(bold, TextNode(rest, Text, None), Delimited("_", Italic));
    assert [bold] + [plain, italic] == [bold, plain, italic];
  }

  /** Once the bold and italic passes have left only settled spans, the code,
      image and link passes change nothing. */
  lemma SettledAfterItalic(text: string, bold: seq<TextNode>, spans: seq<TextNode>)
    requires SplitAll([TextNode(text, Text, None)], Delimited("**", Bold)) == Success(bold)
    requires SplitAll(bold, Delimited("_", Italic)) == Success(spans)
    requires forall j :: 0 <= j < |spans| ==> Settled(spans[j])
    ensures TextToTextNodes(text) == Success(spans)
  {
    SettledPassThrough(spans, Delimited("`", Code));
    SettledPassThrough(spans, References(Image));
    SettledPassThrough(spans, References(Link));
  }

  /** The bold pass on `**b**rest`. */
  lemma BoldSplit(b: string, rest: string)
    requires b != "" && Avoids(b, MarkupChars) && Avoids(rest, {'*'})
    ensures SplitNode(TextNode("**" + b + "**" + rest, Text, None), "**", Bold)
      == Success([TextNode(b, Bold, None)] + NonEmptySpan(rest, Text))
  {
    SplitThree("", b, rest, "**", Bold, None);
    assert "" + "**" + b + "**" + rest == "**" + b + "**" + rest;
    assert NonEmptySpan("", Text) == [] && NonEmptySpan(b, Bold) == [TextNode(b, Bold, None)];
    assert [] + [TextNode(b, Bold, None)] == [TextNode(b, Bold, None)];
  }

  /** The italic pass on `m_i_`. */
  lemma ItalicSplit(m: string, i: string, rest: string)
    requires rest == m + "_" + i + "_"
    requires m != "" && i != "" && Avoids(m, MarkupChars) && Avoids(i, MarkupChars)
    ensures Avoids(rest, {'*'}) && rest != ""
    ensures SplitOne(Delimited("_", Italic), TextNode(rest, Text, None))
      == Success([TextNode(m, Text, None), TextNode(i, Italic, None)])
  {
    AvoidsConcat(m, "_", {'*'});
    AvoidsConcat(m + "_", i, {'*'});
    AvoidsConcat(m + "_" + i, "_", {'*'});
    SplitThree(m, i, "", "_", Italic, None);
    assert m + "_" + i + "_" + "" == rest;
    assert NonEmptySpan("", Text) == [] && NonEmptySpan(m, Text) == [TextNode(m, Text, None)];
    assert NonEmptySpan(i, Italic) == [TextNode(i, Italic, None)];
    assert [TextNode(m, Text, None)] + [TextNode(i, Italic, None)] + [] == [TextNode(m, Text, None), TextNode(i, Italic, None)];
  }

  /** An image and then a link: the image pass leaves the link's text alone,
      as plain text, for the link pass to cut out. */
  lemma ImageThenLink(alt: string, url: string, linkText: string, target: string)
    requires alt != "" && url != "" && linkText != "" && target != ""
    requires Avoids(alt, MarkupChars) && Avoids(url, MarkupChars) && Avoids(linkText, MarkupChars) && Avoids(target, MarkupChars)
    ensures TextToTextNodes("![" + alt + "](" + url + ")" + " [" + linkText + "](" + target + ")")
      == Success([TextNode(alt, Image, Some(url)), TextNode(" ", Text, None), TextNode(linkText, Link, Some(target))])
  {
    var src := "![" + alt + "](" + url + ")";
    var tail := " [" + linkText + "](" + target + ")";
    var text := src + tail;
    assert text == "![" + alt + "](" + url + ")" + " [" + linkText + "](" + target + ")";
    var image, link := TextNode(alt, Image, Some(url)), TextNode(linkText, Link, Some(target));
    assert Avoids(text, Delimiters) by {
      PunctuationAvoids();
      RefSourceAvoids(src, "![", alt, url, Delimiters);
      RefSourceAvoids(tail, " [", linkText, target, Delimiters);
      AvoidsConcat(src, tail, Delimiters);
    }
    DelimiterFree(text);
    assert SplitAll([TextNode(text, Text, None)], References(Image)) == Success([image, PlainSpan(tail)]) by {
      SplitAllSingle(TextNode(text, Text, None), References(Image));
      UnmarkedRef("", alt, url);
      PunctuationAvoids();
      RefSourceAvoids(tail, " [", linkText, target, {'!'});
      ImageBesideText(text, src, tail, alt, url);
    }
    assert SplitAll([image, PlainSpan(tail)], References(Link)) == Success([image, TextNode(" ", Text, None), link]) by {
      PunctuationAvoids();
      UnmarkedRef(" ", linkText, target);
      LinkSpan(tail, linkText, target);
      SplitAllPair(image, PlainSpan(tail), References(Link));
      assert [image] + [TextNode(" ", Text, None), link] == [image, TextNode(" ", Text, None), link];
    }
  }

  /** The punctuation around images and links: none of it is a delimiter
      character, the link's has no `!`, and a space is no markup at all. */
  lemma PunctuationAvoids()
    ensures Avoids(" ", MarkupChars)
    ensures Avoids("![", Delimiters) && Avoids(" [", Delimiters) && Avoids(" [", {'!'})
    ensures Avoids("](" + ")", Delimiters) && Avoids("](" + ")", {'!'})
  {
  }

  /** A reference written out, `opening + linkText + "](" + url + ")"`, avoids what
      its parts avoid. */
  lemma RefSourceAvoids(src: string, opening: string, linkText: string, url: string, cs: set<char>)
    requires src == opening + linkText + "](" + url + ")"
    requires Avoids(opening, cs) && Avoids("](" + ")", cs) && Avoids(linkText, cs) && Avoids(url, cs)
    ensures Avoids(src, cs)
  {
    assert Avoids("](", cs) && Avoids(")", cs) by {
      assert forall k :: 0 <= k < 2 ==> "]("[k] == ("](" + ")")[k];
      assert ")"[0] == ("](" + ")")[2];
    }
    AvoidsConcat(opening, linkText, cs);
    AvoidsConcat(opening + linkText, "](", cs);
    AvoidsConcat(opening + linkText + "](", url, cs);
    AvoidsConcat(opening + linkText + "](" + url, ")", cs);
  }

  /** The image pass on an image followed by text without `!`. */
  lemma ImageBesideText(text: string, src: string, tail: string, alt: string, url: string)
    requires src == "![" + alt + "](" + url + ")" && text == src + tail
    requires RefOk(Ref("", alt, url)) && tail != "" && Avoids(tail, {'!'})
    ensures ScanText(text, Image) == Success([TextNode(alt, Image, Some(url)), PlainSpan(tail)])
  {
    var r := Ref("", alt, url);
    SingleRef(Image, r);
    assert RefsSource(Image, [r]) == src;
    ImagesThenText([r], tail);
    assert NonEmpty("") == [] && NonEmpty(tail) == [PlainSpan(tail)];
    assert [] + [TextNode(alt, Image, Some(url))] + [PlainSpan(tail)] == [TextNode(alt, Image, Some(url)), PlainSpan(tail)];
  }

  /** ` [linkText](target)` scanned for links. */
  lemma LinkSpan(tail: string, linkText: string, target: string)
    requires tail == " [" + linkText + "](" + target + ")"
    requires RefOk(Ref(" ", linkText, target))
    ensures ScanText(tail, Link) == Success([TextNode(" ", Text, None), TextNode(linkText, Link, Some(target))])
  {
    OneRef(Link, " ", linkText, target, "");
    assert " " + Opening(Link) + linkText + "](" + target + ")" + "" == tail;
    assert NonEmpty(" ") == [TextNode(" ", Text, None)] && NonEmpty("") == [];
    assert [TextNode(" ", Text, None)] + [TextNode(linkText, Link, Some(target))] + []
      == [TextNode(" ", Text, None), TextNode(linkText, Link, Some(target))];
  }

  /** A lone `*` is plain text: only `**` marks bold. */
  lemma LoneAsterisk(a: string, b: string)
    requires Avoids(a, {'*', '_', '`', '['}) && Avoids(b, {'*', '_', '`', '['})
    ensures TextToTextNodes(a + "*" + b) == Success([TextNode(a + "*" + b, Text, None)])
  {
    var t := a + "*" + b;
    forall i: nat | i <= |t|
      ensures !OccursAt(t, "**", i)
    {
      if i + 2 <= |t| {
        assert t[i..i + 2][0] == t[i] && t[i..i + 2][1] == t[i + 1];
        if i < |a| {
          assert t[i] == a[i];
        } else if i > |a| {
          assert t[i] == b[i - |a| - 1];
        } else {
          assert t[i + 1] == b[0];
        }
      }
    }
    forall i | 0 <= i < |t|
      ensures t[i] !in {'_', '`', '['}
    {
      if i < |a| {
        assert t[i] == a[i];
      } else if i > |a| {
        assert t[i] == b[i - |a| - 1];
      }
    }
    PlainText(t);
  }

  /** The code pass runs after the italic pass: in `` `a_b_` `` the italic pass
      cuts the code span open, and the code pass then raises on the lone
      backtick it is left with. */
  lemma CodeAfterItalic(a: string, b: string)
    requires Avoids(a, MarkupChars) && Avoids(b, MarkupChars)
    ensures TextToTextNodes("`" + a + "_" + b + "_`") == Failure(UnclosedDelimiter)
  {
    var text := "`" + a + "_" + b + "_`";
    var n := TextNode(text, Text, None);
    CodeItalicSource(a, b);
    NoBold(text);
    var spans := SplitAll([n], Delimited("_", Italic));
    assert spans.Success? && spans.value != [] && spans.value[0] == TextNode("`" + a, Text, None) by {
      SplitAllSingle(n, Delimited("_", Italic));
      SplitThree("`" + a, b, "`", "_", Italic, None);
      assert NonEmptySpan("`" + a, Text) == [TextNode("`" + a, Text, None)];
    }
    BacktickOpenFails(a);
    EachSpanFailure(spans.value, 0, Splitter(Delimited("`", Code)));
  }

  /** `` `a_b_` `` has no `*`, and it is `` `a `` and `b` and a backtick around
      two underscores; none of its parts holds an underscore. */
  lemma CodeItalicSource(a: string, b: string)
    requires Avoids(a, MarkupChars) && Avoids(b, MarkupChars)
    ensures "`" + a + "_" + b + "_`" == ("`" + a) + "_" + b + "_" + "`"
    ensures Avoids("`" + a + "_" + b + "_`", {'*'}) && "`" + a + "_" + b + "_`" != ""
    ensures forall k :: 0 <= k < |"`" + a| ==> ("`" + a)[k] != "_"[0]
    ensures forall k :: 0 <= k < |b| ==> b[k] != "_"[0]
    ensures forall k :: 0 <= k < |"`"| ==> "`"[k] != "_"[0]
  {
    var t := "`" + a + "_" + b + "_`";
    assert t == ("`" + a) + "_" + b + "_" + "`";
    forall k | 0 <= k < |t|
      ensures t[k] != '*'
    {
      if 1 <= k < 1 + |a| {
        assert t[k] == a[k - 1];
      } else if 1 + |a| + 1 <= k < 1 + |a| + 1 + |b| {
        assert t[k] == b[k - |a| - 2];
      }
    }
    forall k | 0 <= k < |"`" + a|
      ensures ("`" + a)[k] != '_'
    {
      if k > 0 {
        assert ("`" + a)[k] == a[k - 1];
      }
    }
  }

  /** Plain text without `*` passes through the bold pass as it is. */
  lemma NoBold(text: string)
    requires text != "" && Avoids(text, {'*'})
    ensures SplitAll([TextNode(text, Text, None)], Delimited("**", Bold)) == Success([TextNode(text, Text, None)])
  {
    assert "**"[0] == '*';
    NoCharNoContains(text, "**");
    NoDelimiter(text, "**", Bold, None);
    SplitAllSingle(TextNode(text, Text, None), Delimited("**", Bold));
  }

  /** A backtick that is never closed raises in the code pass. */
  lemma BacktickOpenFails(a: string)
    requires Avoids(a, MarkupChars)
    ensures SplitOne(Delimited("`", Code), TextNode("`" + a, Text, None)) == Failure(UnclosedDelimiter)
  {
    assert "`"[0] == '`';
    SeparableByFirst("", "`");
    SeparableByFirst(a, "`");
    var segs := ["", a];
    assert Join("`", segs) == "`" + a by {
      assert segs[1..] == [a];
    }
    SplitJoined(segs, "`", Code, None);
  }
}
