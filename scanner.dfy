/** The bracket scanner inside `split_image_or_link_nodes`, which cuts one plain
    span into plain text, links (`[label](url)`) and images (`![label](url)`). */
module LinkScanner {
  import opened Wrappers
  import opened PyStr
  import opened TextNodes

  /** The two flags `in_link_text` and `in_link_url`; the scanner never sets both. */
  datatype Mode = Plain | InLabel | InUrl

  /** The scanner's variables: `text_index`, `start_index`, the flags,
      `current_link_text` and `current_nodes`. The index can run past the end of
      the text, because the scanner jumps ahead by two or three characters. */
  datatype Scan = Scan(index: nat, start: nat, mode: Mode, linkText: string, out: seq<TextNode>)

  /** The state before the first character. */
  const Initial: Scan := Scan(0, 0, Plain, "", [])

  function PlainSpan(s: string): TextNode {
    TextNode(s, Text, None)
  }

  /** Whether the scanner, outside a reference, starts a label at `i`: a `[` in
      link mode, and in image mode a `[` whose preceding character is `!` (for
      `i == 0` Python's `text[-1]` looks at the last character instead). */
  predicate Opens(text: string, kind: TextType, i: nat)
    requires i < |text|
  {
    text[i] == '[' && (kind == Link || (kind == Image && Index(text, i - 1) == '!'))
  }

  /** What every span the scanner emits looks like: non-empty text, and either
      plain with no url or of the scanned kind with a non-empty url. */
  predicate SpanOk(kind: TextType, x: TextNode) {
    && x.text != ""
    && ((x.textType == Text && x.url.None?) || (x.textType == kind && x.url.Some? && x.url.value != ""))
  }

  /** The facts every reachable state satisfies. */
  predicate Inv(text: string, kind: TextType, st: Scan) {
    && st.start <= st.index
    && (st.mode == Plain ==> st.index <= |text|)
    && (st.mode != Plain ==> st.start < st.index)
    && (st.mode == InUrl ==> st.linkText != "")
    && forall x :: x in st.out ==> SpanOk(kind, x)
  }

  /** One iteration of the `while` loop. In a label, `]` ends it and skips the
      next two characters unseen (where `(` and the url's first character are
      should be); in a url, `)` ends it and emits the reference; outside, an
      opening `[` flushes the pending plain text and skips the label's first
      character unseen. */
  function Step(text: string, kind: TextType, st: Scan): (r: Scan)
    requires st.index < |text|
    ensures r.index > st.index
  {
    var i := st.index;
    match st.mode
    case InLabel =>
      if text[i] == ']' then Scan(i + 3, i + 2, InUrl, Slice(text, st.start, i), st.out)
      else st.(index := i + 1)
    case InUrl =>
      if text[i] == ')' then
        Scan(i + 1, i + 1, Plain, st.linkText, st.out + [TextNode(st.linkText, kind, Some(Slice(text, st.start, i)))])
      else st.(index := i + 1)
    case Plain =>
      if text[i] == '[' && kind == Link then
        Scan(i + 2, i + 1, InLabel, st.linkText,
          if st.start != i then st.out + [PlainSpan(Slice(text, st.start, i))] else st.out)
      else if text[i] == '[' && kind == Image then
        if Index(text, i - 1) == '!' then
          Scan(i + 2, i + 1, InLabel, st.linkText,
            if i - st.start > 1 then st.out + [PlainSpan(Slice(text, st.start, i - 1))] else st.out)
        else st.(index := i + 1)
      else st.(index := i + 1)
  }

  /** The loop run to the end of the text. */
  function Run(text: string, kind: TextType, st: Scan): (r: Scan)
    ensures r.index >= |text| && r.index >= st.index
    decreases |text| - st.index
  {
    if st.index >= |text| then st else Run(text, kind, Step(text, kind, st))
  }

  /** The loop runs on from the state after one iteration. */
  lemma RunStep(text: string, kind: TextType, st: Scan)
    requires st.index < |text|
    ensures Run(text, kind, st) == Run(text, kind, Step(text, kind, st))
  {
  }

  /** Each iteration keeps the facts. */
  lemma StepKeepsInv(text: string, kind: TextType, st: Scan)
    requires st.index < |text| && Inv(text, kind, st)
    ensures Inv(text, kind, Step(text, kind, st))
  {
  }

  /** So does the whole loop. */
  lemma {:induction false} RunKeepsInv(text: string, kind: TextType, st: Scan)
    requires Inv(text, kind, st)
    ensures Inv(text, kind, Run(text, kind, st))
    decreases |text| - st.index
  {
    if st.index < |text| {
      StepKeepsInv(text, kind, st);
      RunKeepsInv(text, kind, Step(text, kind, st));
    }
  }

  /** After the loop: the pending plain text is flushed. */
  function Finish(text: string, st: Scan): seq<TextNode> {
    if st.index - st.start > 0 then st.out + [PlainSpan(Slice(text, st.start, st.index))] else st.out
  }

  /** One plain span's text scanned for references of the given kind; a label or
      url still open at the end of the text is an error. */
  function ScanText(text: string, kind: TextType): (r: Result<seq<TextNode>, InlineError>)
    ensures r.Failure? <==> Run(text, kind, Initial).mode != Plain
    ensures r.Failure? ==> r.error == MalformedLink
    ensures r.Success? ==> forall x :: x in r.value ==> SpanOk(kind, x)
  {
    var st := Run(text, kind, Initial);
    RunKeepsInv(text, kind, Initial);
    if st.mode != Plain then Failure(MalformedLink) else Success(Finish(text, st))
  }

  /** What one span becomes: spans that are not plain text pass through. */
  function SplitLinkNode(node: TextNode, kind: TextType): (r: Result<seq<TextNode>, InlineError>)
    ensures node.textType != Text ==> r == Success([node])
  {
    if node.textType != Text then Success([node]) else ScanText(node.text, kind)
  }

  // ---------------------------------------------------------------------------
  // running over stretches of text

  /** The characters that make the scanner change state, per state. */
  predicate Stops(text: string, kind: TextType, mode: Mode, k: nat)
    requires k < |text|
  {
    match mode
    case Plain => Opens(text, kind, k)
    case InLabel => text[k] == ']'
    case InUrl => text[k] == ')'
  }

  /** A stretch of characters that does not stop the scanner is skipped one
      character at a time and changes nothing but the index. */
  lemma {:induction false} Advance(text: string, kind: TextType, st: Scan, j: nat)
    requires st.index <= j <= |text|
    requires forall k :: st.index <= k < j ==> !Stops(text, kind, st.mode, k)
    ensures Run(text, kind, st) == Run(text, kind, st.(index := j))
    decreases j - st.index
  {
    if st.index < j {
      var next := st.(index := st.index + 1);
      assert !Stops(text, kind, st.mode, st.index);
      assert Step(text, kind, st) == next;
      Advance(text, kind, next, j);
      assert next.(index := j) == st.(index := j);
    } else {
      assert st.(index := j) == st;
    }
  }

  /** Text in which the scanner never opens a label comes out as one plain span,
      or as nothing when it is empty. */
  lemma NoOpening(text: string, kind: TextType)
    requires forall i :: 0 <= i < |text| ==> !Opens(text, kind, i)
    ensures ScanText(text, kind) == Success(if text == "" then [] else [PlainSpan(text)])
  {
    var last := Scan(|text|, 0, Plain, "", []);
    Advance(text, kind, Initial, |text|);
    assert Initial.(index := |text|) == last;
    assert Run(text, kind, Initial) == last;
    assert Slice(text, 0, |text|) == text[0..|text|] == text;
    assert Finish(text, last) == if text == "" then [] else [PlainSpan(text)];
  }

  /** Without a `[` there is nothing to find, in either mode. */
  lemma NoBracket(text: string, kind: TextType)
    requires forall i :: 0 <= i < |text| ==> text[i] != '['
    ensures ScanText(text, kind) == Success(if text == "" then [] else [PlainSpan(text)])
  {
    NoOpening(text, kind);
  }

  /** Without a `!` the image pass leaves text alone, links included. */
  lemma ImageNeedsBang(text: string)
    requires forall i :: 0 <= i < |text| ==> text[i] != '!'
    ensures ScanText(text, Image) == Success(if text == "" then [] else [PlainSpan(text)])
  {
    forall i | 0 <= i < |text|
      ensures !Opens(text, Image, i)
    {
      if i == 0 {
        assert Index(text, i - 1) == text[|text| - 1];
      }
    }
    NoOpening(text, Image);
  }

  // ---------------------------------------------------------------------------
  // well-formed references

  /** What starts a reference of the given kind. */
  function Opening(kind: TextType): string {
    if kind == Image then "![" else "["
  }

  /** A reference with the plain text before it. */
  datatype Ref = Ref(before: string, linkText: string, url: string)

  /** The shape the scanner reads correctly: no `[` in the plain text, and a
      non-empty label without `]` and a non-empty url without `)` (their first
      characters are skipped unseen). */
  predicate RefOk(r: Ref) {
    && (forall k :: 0 <= k < |r.before| ==> r.before[k] != '[')
    && r.linkText != "" && (forall k :: 0 <= k < |r.linkText| ==> r.linkText[k] != ']')
    && r.url != "" && (forall k :: 0 <= k < |r.url| ==> r.url[k] != ')')
  }

  /** What closes a label and wraps a url. */
  function UrlPart(url: string): string {
    "](" + url + ")"
  }

  /** The source text of a reference, with the plain text before it. */
  function RefSource(kind: TextType, r: Ref): string {
    r.before + (Opening(kind) + (r.linkText + UrlPart(r.url)))
  }

  function RefsSource(kind: TextType, refs: seq<Ref>): string {
    if refs == [] then "" else RefsSource(kind, refs[..|refs| - 1]) + RefSource(kind, refs[|refs| - 1])
  }

  function NonEmpty(s: string): seq<TextNode> {
    if s == "" then [] else [PlainSpan(s)]
  }

  /** The spans a sequence of references should give: each reference's plain
      text (when not empty) and then the reference itself. */
  function RefSpans(kind: TextType, refs: seq<Ref>): seq<TextNode> {
    if refs == [] then []
    else
      var r := refs[|refs| - 1];
      RefSpans(kind, refs[..|refs| - 1]) + NonEmpty(r.before) + [TextNode(r.linkText, kind, Some(r.url))]
  }

  function LastLabel(refs: seq<Ref>): string {
    if refs == [] then "" else refs[|refs| - 1].linkText
  }

  /** At the `[` of a reference the text before it is flushed and the label
      starts at `p`. */
  lemma OpeningStep(text: string, kind: TextType, s: nat, q: nat, p: nat, before: string, linkText: string, out: seq<TextNode>)
    requires kind == Link || kind == Image
    requires s <= q && p == q + |Opening(kind)| <= |text|
    requires text[s..q] == before && text[q..p] == Opening(kind)
    ensures Step(text, kind, Scan(p - 1, s, Plain, linkText, out)) == Scan(p + 1, p, InLabel, linkText, out + NonEmpty(before))
  {
    assert text[p - 1] == '[' by {
      assert text[p - 1] == text[q..p][p - 1 - q];
    }
    assert Slice(text, s, q) == before;
    if kind == Image {
      assert Index(text, p - 2) == text[q..p][0];
    }
  }

  /** Plain text up to the `[` of a reference (with its `!` in image mode) is
      skipped, and at the `[` the text before the reference is flushed; the label
      starts at `p`. */
  lemma ReadOpening(text: string, kind: TextType, s: nat, q: nat, p: nat, before: string, linkText: string, out: seq<TextNode>)
    requires kind == Link || kind == Image
    requires s <= q && p == q + |Opening(kind)| <= |text|
    requires text[s..q] == before && forall k :: 0 <= k < |before| ==> before[k] != '['
    requires text[q..p] == Opening(kind)
    ensures Run(text, kind, Scan(s, s, Plain, linkText, out)) ==
      Run(text, kind, Scan(p + 1, p, InLabel, linkText, out + NonEmpty(before)))
  {
    var st0 := Scan(s, s, Plain, linkText, out);
    forall k | s <= k < p - 1
      ensures !Stops(text, kind, Plain, k)
    {
      if q <= k {
        assert text[k] == text[q..p][0] == '!';
      } else {
        assert text[k] == before[k - s];
      }
    }
    Advance(text, kind, st0, p - 1);
    OpeningStep(text, kind, s, q, p, before, linkText, out);
  }

  /** A non-empty label without `]` starting at `p` is read up to the `]` that
      follows it, at `e`. */
  lemma ReadLabel(text: string, kind: TextType, p: nat, e: nat, name: string, linkText: string, out: seq<TextNode>)
    requires name != "" && forall k :: 0 <= k < |name| ==> name[k] != ']'
    requires e == p + |name| < |text| && text[p..e] == name && text[e] == ']'
    ensures Run(text, kind, Scan(p + 1, p, InLabel, linkText, out)) ==
      Run(text, kind, Scan(e + 3, e + 2, InUrl, name, out))
  {
    var st := Scan(p + 1, p, InLabel, linkText, out);
    forall k | p + 1 <= k < e
      ensures !Stops(text, kind, InLabel, k)
    {
      assert text[k] == text[p..e][k - p];
    }
    Advance(text, kind, st, e);
    assert Step(text, kind, st.(index := e)) == Scan(e + 3, e + 2, InUrl, name, out);
  }

  /** A non-empty url without `)` is read up to the `)` that follows it, and the
      reference is emitted. */
  lemma ReadUrl(text: string, kind: TextType, e: nat, m: nat, url: string, name: string, out: seq<TextNode>)
    requires url != "" && forall k :: 0 <= k < |url| ==> url[k] != ')'
    requires m == e + 2 + |url| < |text| && text[e + 2..m] == url && text[m] == ')'
    ensures Run(text, kind, Scan(e + 3, e + 2, InUrl, name, out)) ==
      Run(text, kind, Scan(m + 1, m + 1, Plain, name, out + [TextNode(name, kind, Some(url))]))
  {
    var st := Scan(e + 3, e + 2, InUrl, name, out);
    forall k | e + 3 <= k < m
      ensures !Stops(text, kind, InUrl, k)
    {
      assert text[k] == text[e + 2..m][k - (e + 2)];
    }
    Advance(text, kind, st, m);
    assert Step(text, kind, st.(index := m)) == Scan(m + 1, m + 1, Plain, name, out + [TextNode(name, kind, Some(url))]);
  }

  /** A slice that spells out a concatenation splits where the parts meet. */
  lemma SliceConcat(text: string, i: nat, j: nat, x: string, y: string)
    requires i <= j <= |text| && text[i..j] == x + y
    ensures i + |x| <= j && text[i..i + |x|] == x && text[i + |x|..j] == y
  {
    assert text[i..i + |x|] == text[i..j][..|x|];
    assert text[i + |x|..j] == text[i..j][|x|..];
  }

  /** Where the url lies in a text that holds `](url)` at `e`. */
  lemma UrlPartAt(text: string, e: nat, t: nat, url: string)
    requires e <= t <= |text| && text[e..t] == UrlPart(url)
    ensures t == e + 3 + |url|
    ensures text[e] == ']' && text[e + 2..e + 2 + |url|] == url && text[e + 2 + |url|] == ')'
  {
    var u := UrlPart(url);
    assert u == "](" + (url + ")");
    assert u[0] == ']' && u[2..2 + |url|] == url && u[2 + |url|] == ')';
    assert |u| == 3 + |url|;
    assert text[e] == text[e..t][0];
    SliceOfSlice(text, e, t, 2, 2 + |url|);
    assert text[e + 2 + |url|] == text[e..t][2 + |url|];
  }

  /** A label and its url, read from the label's first character at `p`: the
      reference is emitted and the scanner stops in plain text at `t`, after the `)`. */
  lemma ReadReference(text: string, kind: TextType, p: nat, t: nat, name: string, url: string, linkText: string, out: seq<TextNode>)
    requires name != "" && (forall k :: 0 <= k < |name| ==> name[k] != ']')
    requires url != "" && (forall k :: 0 <= k < |url| ==> url[k] != ')')
    requires t == p + |name + UrlPart(url)| <= |text| && text[p..t] == name + UrlPart(url)
    ensures Run(text, kind, Scan(p + 1, p, InLabel, linkText, out)) ==
      Run(text, kind, Scan(t, t, Plain, name, out + [TextNode(name, kind, Some(url))]))
  {
    var e := p + |name|;
    var m := e + 2 + |url|;
    assert text[p..e] == name && text[e] == ']' && text[e + 2..m] == url && text[m] == ')' && t == m + 1 by {
      SliceConcat(text, p, t, name, UrlPart(url));
      UrlPartAt(text, e, t, url);
    }
    ReadLabel(text, kind, p, e, name, linkText, out);
    ReadUrl(text, kind, e, m, url, name, out);
  }

  /** The scanner reads one well-formed reference: starting in plain text at `s`,
      it emits the plain text before the reference (when not empty) and then the
      reference, and stops in plain text at `t`, just after the `)`. */
  lemma RefStep(text: string, kind: TextType, s: nat, t: nat, r: Ref, linkText: string, out: seq<TextNode>)
    requires kind == Link || kind == Image
    requires RefOk(r)
    requires t == s + |RefSource(kind, r)| <= |text| && text[s..t] == RefSource(kind, r)
    ensures Run(text, kind, Scan(s, s, Plain, linkText, out)) ==
      Run(text, kind, Scan(t, t, Plain, r.linkText, out + NonEmpty(r.before) + [TextNode(r.linkText, kind, Some(r.url))]))
  {
    var q := s + |r.before|;
    var p := q + |Opening(kind)|;
    var rest := r.linkText + UrlPart(r.url);
    SliceConcat(text, s, t, r.before, Opening(kind) + rest);
    SliceConcat(text, q, t, Opening(kind), rest);
    ReadOpening(text, kind, s, q, p, r.before, linkText, out);
    ReadReference(text, kind, p, t, r.linkText, r.url, linkText, out + NonEmpty(r.before));
  }

  /** Where the scanner stands after a run of references. */
  function AfterRefs(kind: TextType, refs: seq<Ref>): Scan {
    var n := |RefsSource(kind, refs)|;
    Scan(n, n, Plain, LastLabel(refs), RefSpans(kind, refs))
  }

  lemma AfterRefsSnoc(kind: TextType, refs: seq<Ref>)
    requires refs != []
    ensures var front, r := refs[..|refs| - 1], refs[|refs| - 1];
      var n := |RefsSource(kind, front)| + |RefSource(kind, r)|;
      AfterRefs(kind, refs) == Scan(n, n, Plain, r.linkText, AfterRefs(kind, front).out + NonEmpty(r.before) + [TextNode(r.linkText, kind, Some(r.url))])
  {
  }

  /** The scanner reads a run of well-formed references in order. */
  lemma {:induction false} RefsRun(text: string, kind: TextType, refs: seq<Ref>)
    requires kind == Link || kind == Image
    requires forall i :: 0 <= i < |refs| ==> RefOk(refs[i])
    requires |RefsSource(kind, refs)| <= |text| && text[..|RefsSource(kind, refs)|] == RefsSource(kind, refs)
    ensures Run(text, kind, Initial) == Run(text, kind, AfterRefs(kind, refs))
  {
    if refs != [] {
      var front, r := refs[..|refs| - 1], refs[|refs| - 1];
      var a, c := RefsSource(kind, front), RefSource(kind, r);
      var n := |a| + |c|;
      assert RefsSource(kind, refs) == a + c;
      assert Run(text, kind, Initial) == Run(text, kind, AfterRefs(kind, front)) by {
        assert text[..|a|] == text[..|a + c|][..|a|];
        RefsRun(text, kind, front);
      }
      var next := Scan(n, n, Plain, r.linkText, AfterRefs(kind, front).out + NonEmpty(r.before) + [TextNode(r.linkText, kind, Some(r.url))]);
      assert Run(text, kind, AfterRefs(kind, front)) == Run(text, kind, next) by {
        assert RefOk(r);
        assert text[|a|..n] == text[..|a + c|][|a|..];
        RefStep(text, kind, |a|, n, r, LastLabel(front), RefSpans(kind, front));
      }
      assert AfterRefs(kind, refs) == next by {
        AfterRefsSnoc(kind, refs);
      }
    }
  }

  /** The scanner reads well-formed text correctly: a run of well-formed
      references followed by plain text without `[` gives each reference's plain
      text (when not empty), each reference, and then the trailing text. */
  lemma WellFormedRefs(kind: TextType, refs: seq<Ref>, tail: string)
    requires kind == Link || kind == Image
    requires forall i :: 0 <= i < |refs| ==> RefOk(refs[i])
    requires forall k :: 0 <= k < |tail| ==> tail[k] != '['
    ensures ScanText(RefsSource(kind, refs) + tail, kind) == Success(RefSpans(kind, refs) + NonEmpty(tail))
  {
    var src := RefsSource(kind, refs);
    var text := src + tail;
    var st := AfterRefs(kind, refs);
    assert Run(text, kind, Initial) == Run(text, kind, st) by {
      assert text[..|src|] == src;
      RefsRun(text, kind, refs);
    }
    assert text[|src|..] == tail;
    forall k | |src| <= k < |text|
      ensures !Opens(text, kind, k)
    {
      assert text[k] == tail[k - |src|];
    }
    TrailingText(text, kind, |src|, st.linkText, st.out, tail);
  }

  /** Plain text in which the scanner opens no label, at the end of the input, is
      read to the end and flushed as one plain span (none if empty). */
  lemma TrailingText(text: string, kind: TextType, n: nat, linkText: string, out: seq<TextNode>, tail: string)
    requires n + |tail| == |text| && text[n..] == tail
    requires forall k :: n <= k < |text| ==> !Opens(text, kind, k)
    ensures Run(text, kind, Scan(n, n, Plain, linkText, out)) == Scan(|text|, n, Plain, linkText, out)
    ensures Finish(text, Scan(|text|, n, Plain, linkText, out)) == out + NonEmpty(tail)
  {
    var st := Scan(n, n, Plain, linkText, out);
    Advance(text, kind, st, |text|);
    assert Slice(text, n, |text|) == tail;
  }

  /** The source of a run of references ends with the `)` closing its last url. */
  lemma RefsSourceEnds(kind: TextType, refs: seq<Ref>)
    requires refs != []
    ensures var src := RefsSource(kind, refs); |src| > 0 && src[|src| - 1] == ')'
  {
    var r := refs[|refs| - 1];
    var c := RefSource(kind, r);
    assert RefsSource(kind, refs) == RefsSource(kind, refs[..|refs| - 1]) + c;
    assert c == r.before + Opening(kind) + r.linkText + "](" + r.url + ")";
  }

  /** The image pass leaves the text after its last image alone when that text
      has no `!`, even where it holds `[`s and whole links. */
  lemma ImagesThenText(refs: seq<Ref>, tail: string)
    requires refs != []
    requires forall i :: 0 <= i < |refs| ==> RefOk(refs[i])
    requires forall k :: 0 <= k < |tail| ==> tail[k] != '!'
    ensures ScanText(RefsSource(Image, refs) + tail, Image) == Success(RefSpans(Image, refs) + NonEmpty(tail))
  {
    var src := RefsSource(Image, refs);
    var text := src + tail;
    var st := AfterRefs(Image, refs);
    assert Run(text, Image, Initial) == Run(text, Image, st) by {
      assert text[..|src|] == src;
      RefsRun(text, Image, refs);
    }
    assert text[|src|..] == tail;
    assert text[|src| - 1] == ')' by {
      RefsSourceEnds(Image, refs);
      assert text[|src| - 1] == src[|src| - 1];
    }
    NoImageAfter(text, |src|, tail);
    TrailingText(text, Image, |src|, st.linkText, st.out, tail);
  }

  /** After a character other than `!`, text without `!` opens no image. */
  lemma NoImageAfter(text: string, n: nat, tail: string)
    requires 0 < n && n + |tail| == |text| && text[n..] == tail && text[n - 1] != '!'
    requires forall k :: 0 <= k < |tail| ==> tail[k] != '!'
    ensures forall k :: n <= k < |text| ==> !Opens(text, Image, k)
  {
    forall k | n <= k < |text|
      ensures !Opens(text, Image, k)
    {
      if k > n {
        assert text[k - 1] == tail[k - 1 - n];
      }
    }
  }

  /** One well-formed reference between plain texts. */
  lemma OneRef(kind: TextType, before: string, linkText: string, url: string, tail: string)
    requires kind == Link || kind == Image
    requires RefOk(Ref(before, linkText, url))
    requires forall k :: 0 <= k < |tail| ==> tail[k] != '['
    ensures ScanText(before + Opening(kind) + linkText + "](" + url + ")" + tail, kind)
      == Success(NonEmpty(before) + [TextNode(linkText, kind, Some(url))] + NonEmpty(tail))
  {
    var r := Ref(before, linkText, url);
    SingleRef(kind, r);
    WellFormedRefs(kind, [r], tail);
  }

  /** The source and the spans of a single reference. */
  lemma SingleRef(kind: TextType, r: Ref)
    ensures RefsSource(kind, [r]) == r.before + Opening(kind) + r.linkText + "](" + r.url + ")"
    ensures RefSpans(kind, [r]) == NonEmpty(r.before) + [TextNode(r.linkText, kind, Some(r.url))]
  {
    assert [r][..0] == [];
  }

  // ---------------------------------------------------------------------------
  // the scanner's quirks on concrete inputs

  /** An empty label is not seen: the `]` right after `[` is skipped. */
  lemma EmptyLabelFails()
    ensures ScanText("[](u)", Link) == Failure(MalformedLink)
  {
  }

  /** An empty url is not seen: the `)` right after `](` is skipped. */
  lemma EmptyUrlFails()
    ensures ScanText("[a]()", Link) == Failure(MalformedLink)
  {
  }

  /** A link at the very start of the text counts as an image when the text ends
      in `!`, because Python's `text[-1]` wraps around to the last character. */
  lemma WrapAroundImage()
    ensures ScanText("[a](b)!", Image) == Success([TextNode("a", Image, Some("b")), PlainSpan("!")])
  {
    var text := "[a](b)!";
    var ref := TextNode("a", Image, Some("b"));
    assert Index(text, -1) == '!';
    assert Slice(text, 1, 2) == "a" && Slice(text, 4, 5) == "b" && Slice(text, 6, 7) == "!";
    assert Step(text, Image, Initial) == Scan(2, 1, InLabel, "", []);
    assert Step(text, Image, Scan(2, 1, InLabel, "", [])) == Scan(5, 4, InUrl, "a", []);
    assert Step(text, Image, Scan(5, 4, InUrl, "a", [])) == Scan(6, 6, Plain, "a", [ref]);
    assert Step(text, Image, Scan(6, 6, Plain, "a", [ref])) == Scan(7, 6, Plain, "a", [ref]);
    assert Run(text, Image, Initial) == Scan(7, 6, Plain, "a", [ref]);
    assert Finish(text, Scan(7, 6, Plain, "a", [ref])) == [ref] + [PlainSpan("!")];
    assert ScanText(text, Image) == Success([ref] + [PlainSpan("!")]);
    assert [ref] + [PlainSpan("!")] == [ref, PlainSpan("!")];
  }

  /** The character between `]` and the url is never looked at. */
  lemma SkippedParenthesis()
    ensures ScanText("[a]xb)", Link) == Success([TextNode("a", Link, Some("b"))])
  {
    var text := "[a]xb)";
    var ref := TextNode("a", Link, Some("b"));
    assert Slice(text, 1, 2) == "a" && Slice(text, 4, 5) == "b";
    assert Step(text, Link, Initial) == Scan(2, 1, InLabel, "", []);
    assert Step(text, Link, Scan(2, 1, InLabel, "", [])) == Scan(5, 4, InUrl, "a", []);
    assert Step(text, Link, Scan(5, 4, InUrl, "a", [])) == Scan(6, 6, Plain, "a", [ref]);
    assert Run(text, Link, Initial) == Scan(6, 6, Plain, "a", [ref]);
  }
}
