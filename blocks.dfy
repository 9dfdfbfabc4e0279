/** Block structure: `markdown_to_blocks`, which cuts a document at blank lines,
    and `block_to_block_type`, which classifies one block by its leading
    characters. */
module Blocks {
  import opened PyStr

  /** `Block_Type` */
  datatype BlockType = Heading | CodeBlock | Quote | UnorderedList | OrderedList | Paragraph

  /** The lines of a block, as `block.split("\n")` gives them. */
  function Lines(block: string): (r: seq<string>)
    ensures |r| >= 1
  {
    Split(block, "\n")
  }

  // ---------------------------------------------------------------------------
  // markdown_to_blocks

  /** The pieces that are kept, each stripped of surrounding whitespace: an
      empty piece is dropped, but one of whitespace only stays as "". */
  function KeepBlocks(pieces: seq<string>): (r: seq<string>)
    ensures |r| <= |pieces|
  {
    if pieces == [] then []
    else
      var p := pieces[|pieces| - 1];
      KeepBlocks(pieces[..|pieces| - 1]) + (if p == "" then [] else [Strip(p, Whitespace)])
  }

  /** The last piece is kept, stripped, unless it is empty. */
  lemma KeepBlocksLast(pieces: seq<string>)
    requires pieces != []
    ensures var p := pieces[|pieces| - 1];
      KeepBlocks(pieces) == KeepBlocks(pieces[..|pieces| - 1]) + if p == "" then [] else [Strip(p, Whitespace)]
  {
  }

  /** Keeping is piecewise: the blocks of `a + b` are those of `a` and then those
      of `b`, so blocks stay in the order of their pieces. */
  lemma {:induction false} KeepBlocksAppend(a: seq<string>, b: seq<string>)
    ensures KeepBlocks(a + b) == KeepBlocks(a) + KeepBlocks(b)
    decreases |b|
  {
    if b == [] {
      assert a + b == a;
    } else {
      var front, p := b[..|b| - 1], b[|b| - 1];
      var tail := if p == "" then [] else [Strip(p, Whitespace)];
      assert KeepBlocks(b) == KeepBlocks(front) + tail by {
        KeepBlocksLast(b);
      }
      assert KeepBlocks(a + b) == KeepBlocks(a + front) + tail by {
        assert (a + b)[..|a + b| - 1] == a + front;
        KeepBlocksLast(a + b);
      }
      KeepBlocksAppend(a, front);
      assert KeepBlocks(a) + KeepBlocks(front) + tail == KeepBlocks(a) + (KeepBlocks(front) + tail);
    }
  }

  /** `[f(p) for p in pieces]` */
  function MapEach(pieces: seq<string>, f: string -> string): (r: seq<string>)
    ensures |r| == |pieces|
    ensures forall i :: 0 <= i < |pieces| ==> r[i] == f(pieces[i])
  {
    if pieces == [] then [] else MapEach(pieces[..|pieces| - 1], f) + [f(pieces[|pieces| - 1])]
  }

  /** `p.strip()` */
  function Stripped(p: string): string {
    Strip(p, Whitespace)
  }

  /** Without empty pieces every piece is kept: block `i` is piece `i` stripped. */
  lemma {:induction false} KeepBlocksNonEmpty(pieces: seq<string>)
    requires forall i :: 0 <= i < |pieces| ==> pieces[i] != ""
    ensures KeepBlocks(pieces) == MapEach(pieces, Stripped)
  {
    if pieces != [] {
      var n := |pieces| - 1;
      var front := pieces[..n];
      assert forall i :: 0 <= i < n ==> front[i] == pieces[i];
      KeepBlocksNonEmpty(front);
      KeepBlocksLast(pieces);
      assert Stripped(pieces[n]) == Strip(pieces[n], Whitespace);
    }
  }

  /** Every block comes out stripped: stripping it again changes nothing. */
  lemma {:induction false} KeepBlocksStripped(pieces: seq<string>)
    ensures forall b :: b in KeepBlocks(pieces) ==> Strip(b, Whitespace) == b
  {
    if pieces != [] {
      var p := pieces[|pieces| - 1];
      var init := KeepBlocks(pieces[..|pieces| - 1]);
      var tail := if p == "" then [] else [Strip(p, Whitespace)];
      assert KeepBlocks(pieces) == init + tail;
      KeepBlocksStripped(pieces[..|pieces| - 1]);
      forall b | b in init + tail
        ensures Strip(b, Whitespace) == b
      {
        if b !in init {
          StripIdempotent(p, Whitespace);
        }
      }
    }
  }

  /** The blocks of a document. */
  function DocumentBlocks(markdown: string): seq<string> {
    KeepBlocks(Split(markdown, "\n\n"))
  }

  /** `markdown_to_blocks` */
  method MarkdownToBlocks(markdown: string) returns (filteredBlocks: seq<string>)
    ensures filteredBlocks == DocumentBlocks(markdown)
  {
    var blocks := Split(markdown, "\n\n");
    filteredBlocks := [];
    for i := 0 to |blocks|
      invariant filteredBlocks == KeepBlocks(blocks[..i])
    {
      assert blocks[..i + 1][..i] == blocks[..i];
      if blocks[i] == "" {
        continue;
      } else {
        filteredBlocks := filteredBlocks + [Strip(blocks[i], Whitespace)];
      }
    }
    assert blocks[..|blocks|] == blocks;
  }

  /** What a block looks like when it is cut back out of a document: not empty,
      no whitespace at either end, and no blank line inside. */
  predicate CleanBlock(b: string) {
    b != "" && b[0] !in Whitespace && b[|b| - 1] !in Whitespace && !Contains(b, "\n\n")
  }

  lemma CleanBlockSeparable(b: string)
    requires CleanBlock(b)
    ensures Separable(b, "\n\n")
  {
    forall i: nat | i < |b|
      ensures !OccursAt(b + "\n\n", "\n\n", i)
    {
      if i + 2 <= |b| {
        assert !OccursAt(b, "\n\n", i);
        assert (b + "\n\n")[i..i + 2] == b[i..i + 2];
      } else {
        assert (b + "\n\n")[i] == b[|b| - 1] != '\n';
      }
    }
  }

  lemma {:induction false} KeepCleanBlocks(bs: seq<string>)
    requires forall i :: 0 <= i < |bs| ==> CleanBlock(bs[i])
    ensures KeepBlocks(bs) == bs
  {
    if bs != [] {
      var front, last := bs[..|bs| - 1], bs[|bs| - 1];
      assert forall i :: 0 <= i < |front| ==> CleanBlock(front[i]) by {
        forall i | 0 <= i < |front|
          ensures CleanBlock(front[i])
        {
          assert front[i] == bs[i];
        }
      }
      KeepCleanBlocks(front);
      StripKeeps(last, Whitespace);
      FrontLast(bs);
    }
  }

  /** Cutting a document into blocks undoes writing clean blocks one blank line
      apart. */
  lemma BlocksOfJoin(bs: seq<string>)
    requires forall i :: 0 <= i < |bs| ==> CleanBlock(bs[i])
    ensures DocumentBlocks(Join("\n\n", bs)) == bs
  {
    if bs == [] {
      assert Split("", "\n\n") == [""];
      assert [""][..0] == [];
    } else {
      forall i | 0 <= i < |bs|
        ensures Separable(bs[i], "\n\n")
      {
        CleanBlockSeparable(bs[i]);
      }
      SplitJoinInverse("\n\n", bs);
      KeepCleanBlocks(bs);
    }
  }

  /** A string of whitespace only strips to "". */
  lemma StripBlank(w: string)
    requires forall k :: 0 <= k < |w| ==> w[k] in Whitespace
    ensures Strip(w, Whitespace) == ""
  {
    var r := Strip(w, Whitespace);
    var i: nat :| TrimmedAt(w, r, i, Whitespace);
  }

  /** A stretch of whitespace (without line breaks) between two blank lines is
      not dropped: it becomes an empty block between its neighbours. */
  lemma WhitespaceBlockKept(x: string, w: string, y: string)
    requires CleanBlock(x) && CleanBlock(y) && w != ""
    requires forall k :: 0 <= k < |w| ==> w[k] in Whitespace && w[k] != '\n'
    ensures DocumentBlocks(x + "\n\n" + w + "\n\n" + y) == [x, "", y]
  {
    CleanBlockSeparable(x);
    SeparableByFirst(w, "\n\n");
    SplitPrepend(x, "\n\n", w + "\n\n" + y);
    SplitPrepend(w, "\n\n", y);
    SplitAbsent(y, "\n\n");
    var pieces := [x, w, y];
    assert Split(x + "\n\n" + w + "\n\n" + y, "\n\n") == pieces by {
      assert x + "\n\n" + w + "\n\n" + y == x + "\n\n" + (w + "\n\n" + y);
    }
    assert pieces[..2] == [x, w] && [x, w][..1] == [x] && [x][..0] == [];
    assert KeepBlocks([x]) == [x] by {
      StripKeeps(x, Whitespace);
    }
    assert KeepBlocks([x, w]) == [x, ""] by {
      StripBlank(w);
    }
    assert KeepBlocks(pieces) == [x, "", y] by {
      StripKeeps(y, Whitespace);
    }
  }

  /** `k` line breaks in a row. */
  function Newlines(k: nat): string {
    seq(k, _ => '\n')
  }

  /** `m` empty pieces. */
  function Empties(m: nat): seq<string> {
    seq(m, _ => "")
  }

  /** A line break in front of a clean block does not make a blank line. */
  lemma BreakBeforeClean(y: string)
    requires CleanBlock(y)
    ensures !Contains("\n" + y, "\n\n")
  {
    var s := "\n" + y;
    forall i: nat | i <= |s|
      ensures !OccursAt(s, "\n\n", i)
    {
      if i == 0 {
        assert |y| >= 1 && s[1] == y[0] != '\n';
      } else if OccursAt(s, "\n\n", i) {
        assert s[i..i + 2] == y[i - 1..i + 1];
        assert OccursAt(y, "\n\n", i - 1);
        assert false;
      }
    }
  }

  /** A run of `k` line breaks before a clean block splits into one empty piece
      per blank line, then the block (with the odd line break left in front). */
  lemma {:induction false} SplitNewlines(k: nat, y: string)
    requires CleanBlock(y)
    ensures Split(Newlines(k) + y, "\n\n") == Empties(k / 2) + [RunTail(k, y)]
    decreases k
  {
    if k == 0 {
      assert Newlines(0) + y == y;
      SplitAbsent(y, "\n\n");
    } else if k == 1 {
      assert Newlines(1) + y == "\n" + y;
      BreakBeforeClean(y);
      SplitAbsent("\n" + y, "\n\n");
    } else {
      var rest := Newlines(k - 2) + y;
      assert Newlines(k) + y == "" + "\n\n" + rest by {
        assert Newlines(k) == "\n\n" + Newlines(k - 2);
      }
      SplitPrepend("", "\n\n", rest);
      SplitNewlines(k - 2, y);
      assert Empties(k / 2) == [""] + Empties((k - 2) / 2);
    }
  }

  /** Empty pieces after some others are dropped. */
  lemma {:induction false} KeepBlocksEmpties(a: seq<string>, m: nat)
    ensures KeepBlocks(a + Empties(m)) == KeepBlocks(a)
    decreases m
  {
    if m == 0 {
      assert a + Empties(0) == a;
    } else {
      var xs, front := a + Empties(m), a + Empties(m - 1);
      assert xs == front + [""] by {
        assert Empties(m) == Empties(m - 1) + [""];
      }
      assert KeepBlocks(xs) == KeepBlocks(front) by {
        assert xs[..|xs| - 1] == front;
      }
      KeepBlocksEmpties(a, m - 1);
    }
  }

  /** The last piece of a blank run before a clean block: the block, with the
      odd line break in front. */
  function RunTail(k: nat, y: string): string {
    if k % 2 == 1 then "\n" + y else y
  }

  lemma SplitBlankRun(x: string, k: nat, y: string)
    requires CleanBlock(x) && CleanBlock(y) && k >= 2
    ensures Split(x + Newlines(k) + y, "\n\n") == [x] + (Empties((k - 2) / 2) + [RunTail(k - 2, y)])
  {
    var rest := Newlines(k - 2) + y;
    assert x + Newlines(k) + y == x + "\n\n" + rest by {
      assert Newlines(k) == "\n\n" + Newlines(k - 2);
    }
    CleanBlockSeparable(x);
    SplitPrepend(x, "\n\n", rest);
    SplitNewlines(k - 2, y);
  }

  lemma KeepAroundEmpties(x: string, m: nat, last: string)
    requires CleanBlock(x) && last != ""
    ensures KeepBlocks([x] + (Empties(m) + [last])) == [x, Strip(last, Whitespace)]
  {
    var pieces := [x] + (Empties(m) + [last]);
    assert KeepBlocks(pieces) == KeepBlocks([x] + Empties(m)) + [Strip(last, Whitespace)] by {
      assert pieces[..|pieces| - 1] == [x] + Empties(m) && pieces[|pieces| - 1] == last;
    }
    assert KeepBlocks([x] + Empties(m)) == [x] by {
      KeepBlocksEmpties([x], m);
      assert [x][..0] == [];
      StripKeeps(x, Whitespace);
    }
  }

  /** Runs of extra blank lines between two blocks give no extra blocks: two or
      more line breaks in a row separate exactly two blocks. */
  lemma ExtraBlankLines(x: string, k: nat, y: string)
    requires CleanBlock(x) && CleanBlock(y) && k >= 2
    ensures DocumentBlocks(x + Newlines(k) + y) == [x, y]
  {
    var last := RunTail(k - 2, y);
    var pieces := [x] + (Empties((k - 2) / 2) + [last]);
    assert Split(x + Newlines(k) + y, "\n\n") == pieces by {
      SplitBlankRun(x, k, y);
    }
    assert Strip(last, Whitespace) == y by {
      if k % 2 == 1 {
        assert "\n" + y + "" == last;
        StripSurrounded("\n", y, "", Whitespace);
      } else {
        StripKeeps(y, Whitespace);
      }
    }
    assert KeepBlocks(pieces) == [x, y] by {
      KeepAroundEmpties(x, (k - 2) / 2, last);
    }
  }

  // ---------------------------------------------------------------------------
  // block_to_block_type

  const HeadingPrefixes: seq<string> := ["# ", "## ", "### ", "#### ", "##### ", "###### "]

  /** The two outer lines both start with a fence. */
  predicate Fenced(lines: seq<string>) {
    |lines| > 1 && StartsWith(lines[0], "```") && StartsWith(lines[|lines| - 1], "```")
  }

  predicate AllStartWith(lines: seq<string>, p: string) {
    forall i :: 0 <= i < |lines| ==> StartsWith(lines[i], p)
  }

  /** The marker an ordered list needs on its line at index `i`. */
  function ItemMarker(i: nat): string {
    IntToString(i + 1) + ". "
  }

  /** Every line carries its own number: `1. `, `2. `, ... */
  predicate Numbered(lines: seq<string>) {
    forall i :: 0 <= i < |lines| ==> StartsWith(lines[i], ItemMarker(i))
  }

  /** The kind of a block, decided in the source's order: a heading prefix, then
      fences, then a quote, unordered or ordered list whose first character
      commits to it (any line that does not fit makes it a paragraph). */
  function BlockTypeOf(block: string): BlockType {
    var lines := Lines(block);
    if StartsWithAny(block, HeadingPrefixes) then Heading
    else if Fenced(lines) then CodeBlock
    else if StartsWith(block, ">") then (if AllStartWith(lines, ">") then Quote else Paragraph)
    else if StartsWith(block, "- ") then (if AllStartWith(lines, "- ") then UnorderedList else Paragraph)
    else if StartsWith(block, "1. ") then (if Numbered(lines) then OrderedList else Paragraph)
    else Paragraph
  }

  /** The loop `for line in blocks: if not line.startswith(p): return ...` of
      the quote and unordered-list branches. */
  method EveryLineStartsWith(lines: seq<string>, p: string) returns (b: bool)
    ensures b <==> AllStartWith(lines, p)
  {
    for j := 0 to |lines|
      invariant AllStartWith(lines[..j], p)
    {
      if !StartsWith(lines[j], p) {
        return false;
      }
    }
    assert lines[..|lines|] == lines;
    return true;
  }

  /** The ordered-list loop, whose counter `i` runs one ahead of the line index. */
  method LinesNumbered(lines: seq<string>) returns (b: bool)
    ensures b <==> Numbered(lines)
  {
    var i := 1;
    for j := 0 to |lines|
      invariant i == j + 1
      invariant Numbered(lines[..j])
    {
      if !StartsWith(lines[j], IntToString(i) + ". ") {
        return false;
      }
      i := i + 1;
    }
    assert lines[..|lines|] == lines;
    return true;
  }

  /** `block_to_block_type` */
  method BlockToBlockType(markdownBlock: string) returns (t: BlockType)
    ensures t == BlockTypeOf(markdownBlock)
  {
    var blocks := Split(markdownBlock, "\n");
    if StartsWithAny(markdownBlock, HeadingPrefixes) {
      return Heading;
    }
    if |blocks| > 1 && StartsWith(blocks[0], "```") && StartsWith(blocks[|blocks| - 1], "```") {
      return CodeBlock;
    }
    if StartsWith(markdownBlock, ">") {
      var all := EveryLineStartsWith(blocks, ">");
      return if all then Quote else Paragraph;
    }
    if StartsWith(markdownBlock, "- ") {
      var all := EveryLineStartsWith(blocks, "- ");
      return if all then UnorderedList else Paragraph;
    }
    if StartsWith(markdownBlock, "1. ") {
      var numbered := LinesNumbered(blocks);
      return if numbered then OrderedList else Paragraph;
    }
    return Paragraph;
  }

  // ---------------------------------------------------------------------------
  // what the classification means

  /** A heading starts with one to six `#` and then a space. */
  function LeadingHashes(s: string): (r: nat)
    ensures r <= |s|
    ensures forall k :: 0 <= k < r ==> s[k] == '#'
    ensures r < |s| ==> s[r] != '#'
  {
    if s != "" && s[0] == '#' then 1 + LeadingHashes(s[1..]) else 0
  }

  lemma {:induction false} LeadingHashesOfPrefix(s: string, n: nat)
    requires n <= |s| && (forall k :: 0 <= k < n ==> s[k] == '#') && (n < |s| ==> s[n] != '#')
    ensures LeadingHashes(s) == n
    decreases n
  {
    if n > 0 {
      LeadingHashesOfPrefix(s[1..], n - 1);
    }
  }

  lemma HeadingPrefixShape(k: nat)
    requires k < 6
    ensures |HeadingPrefixes[k]| == k + 2
    ensures forall j :: 0 <= j <= k ==> HeadingPrefixes[k][j] == '#'
    ensures HeadingPrefixes[k][k + 1] == ' '
  {
  }

  lemma HeadingHashes(block: string, k: nat)
    requires k < 6 && StartsWith(block, HeadingPrefixes[k])
    ensures LeadingHashes(block) == k + 1 && block[k + 1] == ' '
  {
    HeadingPrefixShape(k);
    forall j | 0 <= j <= k
      ensures block[j] == '#'
    {
      assert block[j] == block[..k + 2][j] == HeadingPrefixes[k][j];
    }
    assert block[k + 1] == block[..k + 2][k + 1] == ' ';
    LeadingHashesOfPrefix(block, k + 1);
  }

  lemma HashesHeading(block: string)
    requires 1 <= LeadingHashes(block) <= 6 && LeadingHashes(block) < |block|
    requires block[LeadingHashes(block)] == ' '
    ensures StartsWith(block, HeadingPrefixes[LeadingHashes(block) - 1])
  {
    var k := LeadingHashes(block) - 1;
    HeadingPrefixShape(k);
    HashesMatch(block, HeadingPrefixes[k], k);
  }

  lemma HashesMatch(block: string, p: string, k: nat)
    requires k + 2 <= |block| && |p| == k + 2 && p[k + 1] == ' ' == block[k + 1]
    requires forall j :: 0 <= j <= k ==> p[j] == '#' == block[j]
    ensures block[..k + 2] == p
  {
    forall j | 0 <= j < k + 2
      ensures block[j] == p[j]
    {
    }
  }

  /** One to six `#` and then a space. */
  predicate HashHeading(block: string) {
    var h := LeadingHashes(block); 1 <= h <= 6 && h < |block| && block[h] == ' '
  }

  /** A block is a heading exactly when its leading `#`s number one to six and
      are followed by a space. */
  lemma HeadingIff(block: string)
    ensures StartsWithAny(block, HeadingPrefixes) <==> HashHeading(block)
  {
    if StartsWithAny(block, HeadingPrefixes) {
      var k :| 0 <= k < |HeadingPrefixes| && StartsWith(block, HeadingPrefixes[k]);
      HeadingHashes(block, k);
    }
    if HashHeading(block) {
      var h := LeadingHashes(block);
      HashesHeading(block);
      assert 0 <= h - 1 < |HeadingPrefixes| && StartsWith(block, HeadingPrefixes[h - 1]);
    }
  }

  /** A block classified as a heading has one to six `#` and then a space. */
  lemma HeadingBlock(block: string)
    requires BlockTypeOf(block) == Heading
    ensures HashHeading(block)
  {
    HeadingIff(block);
  }

  /** A quote is a block, not a heading or a fenced block, all of whose lines
      start with `>`. */
  lemma QuoteIff(block: string)
    ensures BlockTypeOf(block) == Quote <==>
      !StartsWithAny(block, HeadingPrefixes) && !Fenced(Lines(block)) && AllStartWith(Lines(block), ">")
  {
    FirstPiecePrefix(block, '\n', ">");
  }

  /** An unordered list is a block, not a heading or a fenced block, all of whose
      lines start with `- `. */
  lemma UnorderedListIff(block: string)
    ensures BlockTypeOf(block) == UnorderedList <==>
      !StartsWithAny(block, HeadingPrefixes) && !Fenced(Lines(block)) && AllStartWith(Lines(block), "- ")
  {
    FirstPiecePrefix(block, '\n', "- ");
  }

  /** An ordered list is a block, not a heading or a fenced block, whose lines
      are numbered `1. `, `2. `, ... in order. */
  lemma OrderedListIff(block: string)
    ensures BlockTypeOf(block) == OrderedList <==>
      !StartsWithAny(block, HeadingPrefixes) && !Fenced(Lines(block)) && Numbered(Lines(block))
  {
    assert ItemMarker(0) == "1. ";
    FirstPiecePrefix(block, '\n', "1. ");
  }

  /** A fenced block is longer than its two fences and the line break between
      them, so the slice `block[4:-3]` the converter takes is a proper one. */
  lemma FencedLength(block: string)
    requires Fenced(Lines(block))
    ensures |block| >= 7
  {
    var lines := Lines(block);
    SplitJoin(block, "\n");
    JoinLength("\n", lines);
  }

  /** A block whose first character is not `#` is no heading. */
  lemma NotHeading(block: string)
    requires block == "" || block[0] != '#'
    ensures !StartsWithAny(block, HeadingPrefixes)
  {
    forall k | 0 <= k < |HeadingPrefixes|
      ensures !StartsWith(block, HeadingPrefixes[k])
    {
      HeadingPrefixShape(k);
      assert |HeadingPrefixes[k]| <= |block| ==> block[..|HeadingPrefixes[k]|][0] == block[0];
    }
  }

  /** A block starting with `1. ` is an ordered list exactly when it is
      numbered, and a paragraph otherwise. */
  lemma OrderedStart(block: string)
    requires StartsWith(block, "1. ")
    ensures BlockTypeOf(block) == if Numbered(Lines(block)) then OrderedList else Paragraph
  {
    assert block[0] == block[..3][0] == '1';
    NotHeading(block);
    assert !StartsWith(block, "```") by {
      assert |block| >= 3 ==> block[..3][0] == '1';
    }
    FirstPiecePrefix(block, '\n', "```");
    assert !StartsWith(block, ">") by {
      assert block[..1][0] == '1';
    }
    assert !StartsWith(block, "- ") by {
      assert block[..2][0] == '1';
    }
  }

  /** The two lines of `first + "\n" + second`, when neither has a line break. */
  lemma TwoLines(first: string, second: string)
    requires '\n' !in first && '\n' !in second
    ensures Lines(first + "\n" + second) == [first, second]
  {
    SeparableByFirst(first, "\n");
    SplitPrepend(first, "\n", second);
    NoCharNoContains(second, "\n");
    SplitAbsent(second, "\n");
  }

  /** Numbering is checked line by line: a two-line block opened by `1. ` is an
      ordered list exactly when its second line carries `2. `, so a gap in the
      numbering makes a paragraph. */
  lemma TwoItemList(first: string, second: string)
    requires StartsWith(first, "1. ") && '\n' !in first && '\n' !in second
    ensures BlockTypeOf(first + "\n" + second) == OrderedList <==> StartsWith(second, "2. ")
  {
    var block := first + "\n" + second;
    TwoLines(first, second);
    assert block[..3] == first[..3];
    OrderedStart(block);
    var lines := Lines(block);
    assert ItemMarker(0) == "1. " && ItemMarker(1) == "2. ";
    assert Numbered(lines) <==> StartsWith(lines[0], ItemMarker(0)) && StartsWith(lines[1], ItemMarker(1));
  }
}
