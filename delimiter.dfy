/** `split_nodes_delimiter`: splitting plain spans on a delimiter such as `**`. */
module Delimiter {
  import opened Wrappers
  import opened PyStr
  import opened TextNodes

  /** The span for the piece at index `i` of a split: even pieces lie outside the
      delimiters and are plain, odd pieces lie between them and get the kind. */
  function PieceSpan(piece: string, i: nat, kind: TextType): TextNode {
    TextNode(piece, if i % 2 == 0 then Text else kind, None)
  }

  /** The spans made from the pieces of a split, in order, with empty pieces dropped. */
  function TagPieces(pieces: seq<string>, kind: TextType): (r: seq<TextNode>)
    ensures forall x :: x in r ==> x.text != "" && x.url.None? && (x.textType == Text || x.textType == kind)
  {
    if pieces == [] then []
    else
      var i := |pieces| - 1;
      var front := TagPieces(pieces[..i], kind);
      if pieces[i] == "" then front else front + [PieceSpan(pieces[i], i, kind)]
  }

  /** The spans' text is the pieces' text: tagging drops no character. */
  lemma {:induction false} TagPiecesText(pieces: seq<string>, kind: TextType)
    ensures SpanText(TagPieces(pieces, kind)) == Concat(pieces)
  {
    if pieces != [] {
      var i := |pieces| - 1;
      TagPiecesText(pieces[..i], kind);
      ConcatSnoc(pieces[..i], pieces[i]);
      assert pieces[..i] + [pieces[i]] == pieces;
      if pieces[i] != "" {
        SpanTextAppend(TagPieces(pieces[..i], kind), [PieceSpan(pieces[i], i, kind)]);
      }
    }
  }

  /** The tagged pieces of a split spell the text with every delimiter removed. */
  lemma SplitTagged(text: string, delimiter: string, kind: TextType)
    requires delimiter != ""
    ensures SpanText(TagPieces(Split(text, delimiter), kind)) == RemoveAll(text, delimiter)
  {
    SplitConcat(text, delimiter);
    TagPiecesText(Split(text, delimiter), kind);
  }

  /** What one input span becomes. */
  function SplitNode(node: TextNode, delimiter: string, kind: TextType): (r: Result<seq<TextNode>, InlineError>)
    ensures node.textType != Text ==> r == Success([node])
    ensures node.textType == Text && delimiter == "" ==> r == Failure(EmptySeparator)
    ensures node.textType == Text && delimiter != "" ==>
      (r.Failure? <==> Count(node.text, delimiter) % 2 == 1) && (r.Failure? ==> r.error == UnclosedDelimiter)
    ensures node.textType == Text && r.Success? ==>
      && delimiter != ""
      && SpanText(r.value) == RemoveAll(node.text, delimiter)
      && forall x :: x in r.value ==> x.text != "" && x.url.None? && (x.textType == Text || x.textType == kind)
  {
    if node.textType != Text then Success([node])
    else if delimiter == "" then Failure(EmptySeparator)
    else
      var pieces := Split(node.text, delimiter);
      SplitCount(node.text, delimiter);
      if |pieces| % 2 == 0 then Failure(UnclosedDelimiter)
      else
        SplitTagged(node.text, delimiter, kind);
        Success(TagPieces(pieces, kind))
  }

  /** Plain text without the delimiter comes out as one plain span (none if empty). */
  lemma NoDelimiter(s: string, delimiter: string, kind: TextType, url: Option<string>)
    requires delimiter != "" && !Contains(s, delimiter)
    ensures SplitNode(TextNode(s, Text, url), delimiter, kind) == Success(if s == "" then [] else [TextNode(s, Text, None)])
  {
    SplitAbsent(s, delimiter);
    assert TagPieces([s], kind) == if s == "" then [] else [TextNode(s, Text, None)] by {
      assert [s][..0] == [] && PieceSpan(s, 0, kind) == TextNode(s, Text, None);
    }
    assert SplitNode(TextNode(s, Text, url), delimiter, kind) == Success(TagPieces([s], kind));
  }

  /** The span of a piece, or none when it is empty. */
  function NonEmptySpan(piece: string, textType: TextType): (r: seq<TextNode>)
    ensures |r| <= 1 && (r == [] <==> piece == "")
    ensures r != [] ==> r[0] == TextNode(piece, textType, None)
  {
    if piece == "" then [] else [TextNode(piece, textType, None)]
  }

  /** The last piece adds its span at the end, unless it is empty. */
  lemma TagPiecesLast(pieces: seq<string>, kind: TextType)
    requires pieces != []
    ensures TagPieces(pieces, kind) == TagPieces(pieces[..|pieces| - 1], kind)
      + NonEmptySpan(pieces[|pieces| - 1], if (|pieces| - 1) % 2 == 0 then Text else kind)
  {
  }

  /** With no empty piece nothing is dropped: piece `i` becomes span `i`, plain
      when `i` is even and of the delimiter's kind when `i` is odd. */
  lemma {:induction false} TagPiecesNonEmpty(pieces: seq<string>, kind: TextType)
    requires forall i :: 0 <= i < |pieces| ==> pieces[i] != ""
    ensures |TagPieces(pieces, kind)| == |pieces|
    ensures forall i :: 0 <= i < |pieces| ==> TagPieces(pieces, kind)[i] == PieceSpan(pieces[i], i, kind)
  {
    if pieces != [] {
      var n := |pieces| - 1;
      var front := pieces[..n];
      assert forall i :: 0 <= i < n ==> front[i] == pieces[i];
      TagPiecesNonEmpty(front, kind);
      TagPiecesLast(pieces, kind);
    }
  }

  /** The positions of the non-empty pieces, in increasing order. */
  function NonEmptyIndices(pieces: seq<string>): (r: seq<nat>)
    ensures forall j :: 0 <= j < |r| ==> r[j] < |pieces| && pieces[r[j]] != ""
    ensures forall j, k :: 0 <= j < k < |r| ==> r[j] < r[k]
    ensures forall i :: 0 <= i < |pieces| && pieces[i] != "" ==> i in r
  {
    if pieces == [] then []
    else
      var n := |pieces| - 1;
      var front := pieces[..n];
      assert forall i :: 0 <= i < n ==> front[i] == pieces[i];
      NonEmptyIndices(front) + (if pieces[n] == "" then [] else [n])
  }

  /** Tagging keeps exactly the non-empty pieces, in order, and styles each by
      its index in the split, not by its place among the kept ones:
      `"**a** and **b**"` splits into `["", "a", " and ", "b", ""]` and tags to
      the spans of pieces 1, 2 and 3. */
  lemma {:induction false} TagPiecesFilter(pieces: seq<string>, kind: TextType)
    ensures |TagPieces(pieces, kind)| == |NonEmptyIndices(pieces)|
    ensures forall j :: 0 <= j < |NonEmptyIndices(pieces)| ==>
      TagPieces(pieces, kind)[j] == PieceSpan(pieces[NonEmptyIndices(pieces)[j]], NonEmptyIndices(pieces)[j], kind)
  {
    if pieces != [] {
      var n := |pieces| - 1;
      var front := pieces[..n];
      var idx := NonEmptyIndices(front);
      var spans := TagPieces(front, kind);
      var last := NonEmptySpan(pieces[n], if n % 2 == 0 then Text else kind);
      TagPiecesFilter(front, kind);
      TagPiecesLast(pieces, kind);
      assert TagPieces(pieces, kind) == spans + last;
      assert NonEmptyIndices(pieces) == idx + (if pieces[n] == "" then [] else [n]);
      forall j | 0 <= j < |idx|
        ensures (spans + last)[j] == PieceSpan(pieces[idx[j]], idx[j], kind)
      {
        assert front[idx[j]] == pieces[idx[j]];
      }
    }
  }

  /** Splitting a plain span: the pieces of its text, tagged, or an unclosed
      delimiter when their number is even. */
  lemma SplitNodeText(s: string, delimiter: string, kind: TextType, url: Option<string>)
    requires delimiter != ""
    ensures SplitNode(TextNode(s, Text, url), delimiter, kind)
      == if |Split(s, delimiter)| % 2 == 0 then Failure(UnclosedDelimiter) else Success(TagPieces(Split(s, delimiter), kind))
  {
  }

  /** A plain span made by joining separable segments with the delimiter: an even
      number of segments leaves a delimiter unclosed, and an odd number of
      non-empty segments alternates plain and styled spans, one per segment. */
  lemma SplitJoined(segs: seq<string>, delimiter: string, kind: TextType, url: Option<string>)
    requires delimiter != "" && |segs| >= 1
    requires forall i :: 0 <= i < |segs| ==> Separable(segs[i], delimiter)
    ensures |segs| % 2 == 0 ==> SplitNode(TextNode(Join(delimiter, segs), Text, url), delimiter, kind) == Failure(UnclosedDelimiter)
    ensures |segs| % 2 == 1 && (forall i :: 0 <= i < |segs| ==> segs[i] != "") ==>
      var r := SplitNode(TextNode(Join(delimiter, segs), Text, url), delimiter, kind);
      && r.Success? && |r.value| == |segs|
      && forall i :: 0 <= i < |segs| ==> r.value[i] == TextNode(segs[i], if i % 2 == 0 then Text else kind, None)
  {
    SplitJoinInverse(delimiter, segs);
    SplitNodeText(Join(delimiter, segs), delimiter, kind, url);
    if |segs| % 2 == 1 && (forall i :: 0 <= i < |segs| ==> segs[i] != "") {
      TagPiecesNonEmpty(segs, kind);
    }
  }

  /** The pieces around one delimiter, tagged. */
  lemma TagTwo(pieces: seq<string>, kind: TextType)
    requires |pieces| == 2
    ensures TagPieces(pieces, kind) == NonEmptySpan(pieces[0], Text) + NonEmptySpan(pieces[1], kind)
  {
    var front := pieces[..1];
    assert front[0] == pieces[0] && front[..0] == [];
    TagPiecesLast(pieces, kind);
    TagPiecesLast(front, kind);
  }

  /** The pieces around two delimiters, tagged. */
  lemma TagThree(pieces: seq<string>, kind: TextType)
    requires |pieces| == 3
    ensures TagPieces(pieces, kind)
      == NonEmptySpan(pieces[0], Text) + NonEmptySpan(pieces[1], kind) + NonEmptySpan(pieces[2], Text)
  {
    var front := pieces[..2];
    assert front[0] == pieces[0] && front[1] == pieces[1];
    TagPiecesLast(pieces, kind);
    TagTwo(front, kind);
  }

  /** `a` (delimiter) `b` (delimiter) `c`, none of them holding the delimiter's first
      character: `b` gets the kind, `a` and `c` stay plain, and empty ones vanish. */
  lemma SplitThree(a: string, b: string, c: string, delimiter: string, kind: TextType, url: Option<string>)
    requires delimiter != ""
    requires forall k :: 0 <= k < |a| ==> a[k] != delimiter[0]
    requires forall k :: 0 <= k < |b| ==> b[k] != delimiter[0]
    requires forall k :: 0 <= k < |c| ==> c[k] != delimiter[0]
    ensures SplitNode(TextNode(a + delimiter + b + delimiter + c, Text, url), delimiter, kind)
      == Success(NonEmptySpan(a, Text) + NonEmptySpan(b, kind) + NonEmptySpan(c, Text))
  {
    var segs := [a, b, c];
    SeparableByFirst(a, delimiter);
    SeparableByFirst(b, delimiter);
    SeparableByFirst(c, delimiter);
    assert Join(delimiter, segs) == a + delimiter + b + delimiter + c by {
      assert segs[1..] == [b, c] && segs[1..][1..] == [c];
      assert Join(delimiter, [b, c]) == b + delimiter + c;
      assert a + delimiter + (b + delimiter + c) == a + delimiter + b + delimiter + c;
    }
    SplitJoinInverse(delimiter, segs);
    SplitNodeText(Join(delimiter, segs), delimiter, kind, url);
    TagThree(segs, kind);
  }
}
