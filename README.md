# Static site generator core, in Dafny

A model of `src/node.py` of the Static_Site_Generator repository: the part that
turns a Markdown document into a tree of HTML nodes and renders that tree to a
string, and that picks the page title out of the document.

The model has one module per layer:

- `Wrappers`: `Option` and `Result`.
- `PyStr`: the Python string built-ins the source calls, written out.
  These are `split`, `split(sep, 1)`, `join`, `startswith`, `strip`, clamped
  and negative slicing, negative indexing and `str(n)`.
  - `Count`, `RemoveAll` and `ReplaceChar` are not called by the source. They
    are reference definitions, used to state what `split` and `join` do: how
    many pieces a split gives, what the pieces spell together, and what
    splitting on `\n` and joining with a space does.
- `Html`: the node tree and its renderer.
  - A `Node` is a `Leaf(tag, value, props)` or a `Parent(tag, children, props)`.
  - Props are a sequence of pairs, in the order a Python dict iterates them.
  - `Markup` is the rendering, or the error that `to_html` raises.
  - `PropsToHtml` and `ToHtml` are the loops of `props_to_html` and
    `ParentNode.to_html`, proved against `AttributeText` and `Markup`.
- `TextNodes`: the inline spans (`TextType`, `TextNode`) and
  `text_node_to_html_node`.
- `Delimiter`: one span split on a delimiter such as `**`, with even pieces
  plain and odd pieces styled (`TagPiecesNonEmpty`, `SplitJoined`,
  `SplitThree`). Empty pieces give no span (`TagPiecesText`).
- `LinkScanner`: the index-driven state machine of `split_image_or_link_nodes`.
  - `Step` is one iteration of its `while` loop and `Run` is the loop.
  - `ScanText` adds the final flush and the error check.
  - Lemmas state what the scanner makes of well-formed text, and what it makes
    of its quirky inputs.
- `Inline`: the two passes over span sequences and `text_to_textnodes`.
  - Each pass is a spec function (`SplitAll`) plus the source's loops as
    methods (`SplitNodesDelimiter`, `ScanLoop`, `SplitImageOrLinkNodes`).
  - Lemmas on concrete shapes of marked-up text show the order of the passes:
    `**b**m_i_` (`BoldThenItalic`), an image alone (`ImageAlone`), an image
    then a link (`ImageThenLink`), and `` `a_b_` ``, which raises because the
    italic pass runs before the code pass (`CodeAfterItalic`).
- `Blocks`: `markdown_to_blocks` and `block_to_block_type`, each a spec
  function plus a method.
- `Converter`: `markdown_to_html_node`. `BlockToHtml` and `Convert` are the
  spec; the `...ToHtml` methods are the source's loops.
- `Title`: `extract_title`.

The model keeps the source's behaviour where it is surprising:

- After `[` the scanner jumps two characters, and after `]` it jumps three.
  So it never looks at the first character of a label, nor at the two
  characters after `]`.
  - An empty label or an empty url is not seen (`EmptyLabelFails`,
    `EmptyUrlFails`).
  - The character between `]` and the url is never checked to be `(`
    (`SkippedParenthesis`).
- In image mode, a `[` at index 0 looks at `text[-1]`, the last character
  (`WrapAroundImage`).
- The final flush slices with an index that may lie past the end of the text.
  The slice is clamped as Python clamps it (`Slice`).
- `markdown_to_blocks` drops only pieces that are exactly `""` before
  stripping. A piece of whitespace only survives as `""`
  (`WhitespaceBlockKept`).
- The heading error for more than six `#` is never raised, because such a
  block is not classified as a heading (`HeadingElement`, `OnlyInlineErrors`).
- A code block keeps `block[4:-3]`; this slice is in bounds because a fenced
  block has at least seven characters (`CodeElement`).
- Quote lines lose their first two characters (`line[2:]`), whatever the
  second one is; a lone `>` becomes empty (`QuoteLines`, `QuoteElement`).
- Unordered-list lines always start with `- ` and lose exactly those two
  characters (`UnorderedListElement`).
- Ordered-list lines keep what follows the first `". "`. The `IndexError` of
  `split(". ", 1)[1]` can never happen on a numbered line (`OrderedItemText`).
- A `None` url is written as `None` in the attribute, as an f-string shows it.

## Model

| member | source | states |
|---|---|---|
| `PyStr.Split` | src/node.py:170 | `str.split(sep)` always yields at least one piece |
| `PyStr.SplitJoin` | src/node.py:170 | joining the pieces of a split with the separator gives back the string |
| `PyStr.SplitCount` | src/node.py:170-172 | a split has one more piece than the separator has non-overlapping occurrences |
| `PyStr.SplitConcat` | src/node.py:170-179 | concatenating the pieces of a split removes every occurrence of the separator |
| `PyStr.SplitAbsent` | src/node.py:170 | a string without the separator splits into itself alone, with nothing to count or remove |
| `PyStr.SplitCharPieces` | src/node.py:286 | no piece of a split on one character contains that character |
| `PyStr.Join` | src/node.py:360 | `str.join`; its meaning is stated by `SplitJoin`, `SplitJoinInverse` and `JoinStarts` |
| `PyStr.JoinStarts` | src/node.py:360 | a join starts with its first part |
| `PyStr.StartsWith` | src/node.py:287-307 | `str.startswith`; its meaning is stated by `FirstPiecePrefix` and used in `HeadingIff`, `QuoteIff` and the list lemmas |
| `PyStr.ReplaceCharContains` | src/node.py:393-394 | replacing `c` by `d` keeps a separator holding neither character present or absent as it was |
| `PyStr.ReplaceCharOutside` | src/node.py:393-394 | replacing by a character outside a set keeps a string clear of that set |
| `PyStr.ReplaceCharClear` | src/node.py:393-394 | both facts at once: no separator and no character of the set appears |
| `PyStr.SplitCharJoin` | src/node.py:393-394 | splitting on `\n` and joining with a space replaces every line break by a space |
| `PyStr.FirstPiecePrefix` | src/node.py:286-293 | the first line starts with a prefix without line breaks exactly when the block does |
| `PyStr.SplitOnce` | src/node.py:372 | `split(sep, 1)` gives one piece equal to the string, or two pieces around the first separator |
| `PyStr.SplitOnceAgreesWithSplit` | src/node.py:372 | `split(sep, 1)` keeps the first piece of the full split and joins the others back |
| `PyStr.SplitOnceAfter` | src/node.py:372-373 | on `p + sep + q` with no separator start in `p`, `split(sep, 1)` gives `[p, q]` |
| `PyStr.SplitPrepend` | src/node.py:313 | a piece with no separator inside it or running into the next one splits off first |
| `PyStr.SplitJoinInverse` | src/node.py:313 | splitting undoes joining for separable pieces |
| `PyStr.ReplaceChar` | src/node.py:393-394 | reference definition for the paragraph branch's split and join (see `SplitCharJoin`): the result has the same length, and exactly the characters equal to `c` become `d` |
| `PyStr.StripLeft` | src/node.py:319 | `lstrip` removes the longest prefix of stripped characters |
| `PyStr.StripRight` | src/node.py:319 | `rstrip` removes the longest suffix of stripped characters |
| `PyStr.Strip` | src/node.py:319 | `strip` leaves an infix whose ends are not stripped characters, with only stripped characters around it |
| `PyStr.StripSurrounded` | src/node.py:410 | stripping `p + t + q` gives `t` when `p`, `q` are stripped characters and `t`'s ends are not |
| `PyStr.StripKeeps` | src/node.py:319 | a string whose ends are not stripped characters is unchanged by `strip` |
| `PyStr.StripIdempotent` | src/node.py:319 | stripping twice is stripping once |
| `PyStr.Clamp` | src/node.py:348 | Python's slice bound normalisation: negative bounds count from the end, then clamp to `0..len` |
| `PyStr.Slice` | src/node.py:259-262 | `s[lo:hi]` is the ordinary slice in bounds, clamps past the end, and is empty when the bounds cross |
| `PyStr.SliceFrom` | src/node.py:359 | `s[lo:]` is the suffix, or empty past the end |
| `PyStr.Index` | src/node.py:244 | `s[-1]` is the last character and a non-negative index is the ordinary one |
| `PyStr.IntToString` | src/node.py:304 | `str(n)` is a non-empty string of decimal digits |
| `PyStr.IntToStringRoundTrip` | src/node.py:304 | reading back `str(n)` gives `n` |
| `Html.AttributesAppend` | src/node.py:33-34 | the attributes of `a + b` render as those of `a` followed by those of `b` |
| `Html.PropsToHtml` | src/node.py:30-37 | the loop writes `" key='value'"` per pair in order, and nothing for `props=None` |
| `Html.LeafToHtml` | src/node.py:57-64 | a leaf fails exactly without a value; with no tag it is the raw value, otherwise value inside open and close tags |
| `Html.Markup` | src/node.py:57-92 | a node renders exactly when it is well formed: every leaf has a value, every parent a tag and children |
| `Html.ChildrenMarkup` | src/node.py:90-91 | the children render exactly when each of them is well formed |
| `Html.ChildrenMarkupAppend` | src/node.py:90-91 | rendering children is compositional, and an error in an earlier child wins |
| `Html.ChildrenPrefixFailure` | src/node.py:90-91 | once a prefix of the children fails, all of them fail the same way |
| `Html.FirstChildErrorWins` | src/node.py:90-91 | a parent's error is the error of its first ill-formed child |
| `Html.EmptyParent` | src/node.py:88-92 | a parent with a tag and no children renders as `<tag></tag>` |
| `Html.ToHtml` | src/node.py:83-92 | `ParentNode.to_html` and `LeafNode.to_html` return the rendering, or raise its error |
| `TextNodes.SpanTextAppend` | src/node.py:181 | the text of `a + b` is the text of `a` followed by that of `b` |
| `TextNodes.Equal` | src/node.py:115-122 | `TextNode.__eq__` holds exactly when the two spans are equal |
| `TextNodes.TextNodeToHtml` | src/node.py:143-157 | every span becomes a well-formed leaf whose value is its text (`""` for an image) |
| `TextNodes.StyledSpanMarkup` | src/node.py:144-151 | plain, bold, italic and code spans render as raw text, `<b>`, `<i>` and `<code>` |
| `TextNodes.LinkSpanMarkup` | src/node.py:152-153 | a link renders as an `a` element with the single attribute `href` |
| `TextNodes.ImageSpanMarkup` | src/node.py:154-155 | an image renders as an empty `img` element with `src` then `alt` |
| `TextNodes.Leaves` | src/node.py:342-343 | one leaf per span, in order, each the span's conversion |
| `TextNodes.LeavesRender` | src/node.py:342-343 | the leaves of any span sequence render without error |
| `TextNodes.ToLeafNodes` | src/node.py:342-343 | the loop appends the conversion of every span in order |
| `Delimiter.TagPieces` | src/node.py:173-179 | the spans of the pieces are non-empty, carry no url, and are plain or of the kind |
| `Delimiter.TagPiecesText` | src/node.py:173-179 | the spans spell the pieces out, in order: empty pieces are dropped and nothing else |
| `Delimiter.NonEmptySpan` | src/node.py:176-179 | a piece gives no span when it is empty, and otherwise exactly one span of its text |
| `Delimiter.TagPiecesNonEmpty` | src/node.py:173-179 | when no piece is empty, span `i` is piece `i`, plain for even `i` and of the kind for odd `i` |
| `Delimiter.NonEmptyIndices` | src/node.py:173-179 | the positions of the non-empty pieces, each once, in increasing order |
| `Delimiter.TagPiecesFilter` | src/node.py:173-179 | the spans are the non-empty pieces in order, each styled by its index in the split (plain when even, of the kind when odd) |
| `Delimiter.TagTwo` | src/node.py:173-179 | two pieces give the first plain and the second of the kind, each only if non-empty |
| `Delimiter.TagThree` | src/node.py:173-179 | three pieces give plain, styled, plain, each only if non-empty |
| `Delimiter.SplitTagged` | src/node.py:170-179 | the spans of a split spell the text with every delimiter removed |
| `Delimiter.SplitNode` | src/node.py:168-183 | a non-plain span passes through; an empty delimiter raises; an odd count of delimiters raises; otherwise the spans spell the text with the delimiters removed |
| `Delimiter.SplitJoined` | src/node.py:168-183 | on text written as segments joined by the delimiter: an even number of segments raises; an odd number of non-empty segments gives segment `i` as span `i`, styled exactly at odd `i` |
| `Delimiter.SplitThree` | src/node.py:168-183 | `a**b**c` gives `a` plain, `b` bold and `c` plain, leaving out empty ones |
| `Delimiter.NoDelimiter` | src/node.py:170-179 | plain text without the delimiter comes out as one plain span, or none if it is empty |
| `LinkScanner.Step` | src/node.py:205-258 | each iteration moves the index forward |
| `LinkScanner.Run` | src/node.py:204-258 | the loop ends at or past the end of the text |
| `LinkScanner.StepKeepsInv` | src/node.py:205-258 | each iteration keeps the invariant: the start never passes the index, a url only follows a non-empty label, and every emitted span is well formed |
| `LinkScanner.RunKeepsInv` | src/node.py:204-258 | so does the whole loop |
| `LinkScanner.ScanText` | src/node.py:199-265 | a span fails exactly when the text ends inside a label or url; otherwise every span has text and only references have urls |
| `LinkScanner.SplitLinkNode` | src/node.py:196-198 | a span that is not plain text passes through |
| `LinkScanner.Advance` | src/node.py:212-213 | characters that do not stop the scanner are skipped one at a time |
| `LinkScanner.NoOpening` | src/node.py:229-262 | text in which no label opens comes out as one plain span, or none if it is empty |
| `LinkScanner.NoBracket` | src/node.py:229-258 | text without `[` is left as one plain span, in either mode |
| `LinkScanner.ImageNeedsBang` | src/node.py:240-256 | in image mode, text without `!` is left as one plain span, links included |
| `LinkScanner.OpeningStep` | src/node.py:229-254 | at the `[` of a reference the text before it is flushed and the label starts |
| `LinkScanner.ReadOpening` | src/node.py:229-258 | plain text up to a reference's opening is skipped and then flushed |
| `LinkScanner.ReadLabel` | src/node.py:205-213 | a non-empty label without `]` is read up to the `]` after it |
| `LinkScanner.ReadUrl` | src/node.py:214-227 | a non-empty url without `)` is read up to the `)` and emitted as a reference |
| `LinkScanner.ReadReference` | src/node.py:205-227 | a whole `label](url)` is read and emitted as one reference |
| `LinkScanner.RefStep` | src/node.py:204-258 | a well-formed reference with the plain text before it gives that text (if any) and the reference |
| `LinkScanner.RefsRun` | src/node.py:204-258 | a run of well-formed references is read one after another |
| `LinkScanner.WellFormedRefs` | src/node.py:189-268 | well-formed text gives, in order, each non-empty plain text, each reference, and the trailing text |
| `LinkScanner.Finish` | src/node.py:259-262 | the final flush; its meaning is stated by `TrailingText`, `NoOpening` and `ScanText` |
| `LinkScanner.TrailingText` | src/node.py:259-262 | trailing text in which no label opens is read to the end and flushed as one span |
| `LinkScanner.RefsSourceEnds` | src/node.py:214-227 | the text of a run of references ends with `)` |
| `LinkScanner.NoImageAfter` | src/node.py:240-244 | after a character other than `!`, text without `!` opens no image |
| `LinkScanner.ImagesThenText` | src/node.py:189-268 | well-formed images followed by text without `!` give the images and then the text as one plain span |
| `LinkScanner.SingleRef` | src/node.py:205-227 | one reference is written `[label](url)`, or `![label](url)` for an image, and gives one span |
| `LinkScanner.OneRef` | src/node.py:189-268 | `before[label](url)tail` gives the text before, the reference and the text after, each plain text only if non-empty |
| `LinkScanner.EmptyLabelFails` | src/node.py:237-239 | `[](u)` raises because the `]` right after `[` is skipped |
| `LinkScanner.EmptyUrlFails` | src/node.py:210-211 | `[a]()` raises because the `)` right after `](` is skipped |
| `LinkScanner.WrapAroundImage` | src/node.py:244 | `[a](b)!` in image mode is an image, because `text[-1]` is the final `!` |
| `LinkScanner.SkippedParenthesis` | src/node.py:210-211 | `[a]xb)` is a link to `b`: the character after `]` is never checked |
| `Inline.EachSpan` | src/node.py:167-184 | one pass over the spans; its meaning is stated by the `EachSpan...` lemmas below |
| `Inline.SplitAll` | src/node.py:162-184 | a pass of `split_nodes_delimiter` or `split_image_or_link_nodes`; its meaning is stated by `SplitAllKeepsText`, `SplitAllKeepsClean` and `StyledPassThrough` |
| `Inline.SplitOne` | src/node.py:167-183 | a span that is not plain text passes through a pass |
| `Inline.EachSpanPassThrough` | src/node.py:182-183 | spans that a split leaves alone pass through unchanged and in place |
| `Inline.StyledPassThrough` | src/node.py:182-183 | spans that are not plain text pass through every pass unchanged and in place |
| `Inline.EachSpanSingle` | src/node.py:274-275 | a single span gives what splitting it gives |
| `Inline.EachSpanAppend` | src/node.py:167-184 | a pass is compositional: the spans of `a + b` are those of `a` followed by those of `b` |
| `Inline.EachSpanFailsIff` | src/node.py:171-172 | a pass raises exactly when one of its spans does |
| `Inline.EachSpanFailure` | src/node.py:263-265 | when every span before `k` splits and span `k` raises, the pass raises that error |
| `Inline.EachSpanStaysFailed` | src/node.py:171-172 | once a prefix has raised, the pass raises the same error |
| `Inline.SplitAllKeepsText` | src/node.py:160-184 | a delimiter pass loses no text: the output spells the input with the delimiters in plain spans removed |
| `Inline.SplitAllKeepsClean` | src/node.py:273-280 | a pass over clean spans leaves only clean spans |
| `Inline.SplitNodesDelimiter` | src/node.py:162-184 | `split_nodes_delimiter` returns the pass's result, or its error |
| `Inline.ScanLoop` | src/node.py:199-258 | the `while` loop never sets both flags, and ends in the state `Run` gives |
| `Inline.SplitImageOrLinkNodes` | src/node.py:189-268 | `split_image_or_link_nodes` returns the pass's result, or its error |
| `Inline.TextToTextNodesClean` | src/node.py:273-280 | every span `text_to_textnodes` returns has text, and a non-empty url exactly for links and images |
| `Inline.TextToTextNodes` | src/node.py:273-280 | `text_to_textnodes`; its meaning is stated by `TextToTextNodesClean`, `PlainText` and the lemmas below |
| `Inline.PlainText` | src/node.py:273-280 | text without `**` and without any `_`, `` ` `` or `[` is one plain span, or none if empty |
| `Inline.LoneAsterisk` | src/node.py:170-179 | a single `*` between unmarked words is plain text: only `**` marks bold |
| `Inline.CodeAfterItalic` | src/node.py:273-280 | `` `a_b_` `` raises: the italic pass runs before the code pass and leaves a lone backtick |
| `Inline.NoBold` | src/node.py:274 | plain text without `*` passes through the bold pass unchanged |
| `Inline.BacktickOpenFails` | src/node.py:170-172 | `` `a `` with no closing backtick raises in the code pass |
| `Inline.SettledPassThrough` | src/node.py:273-280 | spans that are styled, or plain without any markup character, pass through every pass unchanged |
| `Inline.DelimiterFree` | src/node.py:274-277 | text without `*`, `_` or `` ` `` skips the three delimiter passes and goes straight to images and links |
| `Inline.SplitAllSingle` | src/node.py:274-275 | a pass over one span is what that span splits into |
| `Inline.SplitAllPair` | src/node.py:181-183 | a styled span before a plain one stays first, followed by the plain one's split |
| `Inline.ImageSpan` | src/node.py:189-268 | scanning `![alt](url)` for images gives the image alone |
| `Inline.UnmarkedRef` | src/node.py:205-227 | a label and url without markup characters make a well-formed reference |
| `Inline.ImageAlone` | src/node.py:273-280 | `![alt](url)` alone is one image span |
| `Inline.BoldThenItalic` | src/node.py:273-280 | `**b**m_i_` is bold `b`, plain `m` and italic `i`: the bold pass runs before the italic one |
| `Inline.BoldStage` | src/node.py:274 | the bold pass over the single span `**b**rest` gives bold `b` and plain `rest` |
| `Inline.ItalicStage` | src/node.py:275 | the italic pass keeps a bold span first and splits the plain span after it |
| `Inline.SettledAfterItalic` | src/node.py:276-278 | once the bold and italic passes leave only settled spans, the code, image and link passes change nothing |
| `Inline.BoldSplit` | src/node.py:274 | the bold pass cuts `**b**rest` into bold `b` and plain `rest` |
| `Inline.ItalicSplit` | src/node.py:275 | the italic pass cuts `m_i_` into plain `m` and italic `i` |
| `Inline.ImageThenLink` | src/node.py:273-280 | `![alt](url) [text](target)` is the image, a plain space and the link: images are taken out before links |
| `Inline.ImageBesideText` | src/node.py:189-268 | scanning an image followed by non-empty text without `!` gives the image and that text as one plain span |
| `Inline.LinkSpan` | src/node.py:189-268 | scanning ` [text](target)` for links gives a plain space and the link |
| `Blocks.Lines` | src/node.py:286 | a block has at least one line |
| `Blocks.KeepBlocks` | src/node.py:315-319 | no more blocks are kept than there are pieces; `KeepBlocksNonEmpty` and `KeepBlocksAppend` state what they are |
| `Blocks.KeepBlocksAppend` | src/node.py:315-319 | keeping is compositional: the blocks of `a + b` are those of `a` then those of `b` |
| `Blocks.MapEach` | src/node.py:315-319 | a function applied to every piece, in order, one result per piece |
| `Blocks.KeepBlocksNonEmpty` | src/node.py:315-319 | when no piece is `""`, every piece is kept, stripped, in order |
| `Blocks.DocumentBlocks` | src/node.py:312-320 | `markdown_to_blocks`; its meaning is stated by `MarkdownToBlocks`, `BlocksOfJoin` and `ExtraBlankLines` |
| `Blocks.KeepBlocksStripped` | src/node.py:319 | every block comes out stripped |
| `Blocks.MarkdownToBlocks` | src/node.py:312-320 | the loop keeps each non-empty piece, stripped, in order |
| `Blocks.KeepCleanBlocks` | src/node.py:315-319 | clean pieces are all kept, unchanged |
| `Blocks.BlocksOfJoin` | src/node.py:312-320 | cutting a document undoes writing clean blocks one blank line apart |
| `Blocks.StripBlank` | src/node.py:319 | a whitespace-only piece strips to `""` |
| `Blocks.WhitespaceBlockKept` | src/node.py:316-319 | whitespace between two blank lines becomes an empty block |
| `Blocks.BreakBeforeClean` | src/node.py:313 | a line break before a clean block makes no blank line |
| `Blocks.SplitNewlines` | src/node.py:313 | `k` line breaks before a clean block split into `k / 2` empty pieces and the block |
| `Blocks.KeepBlocksEmpties` | src/node.py:316-317 | empty pieces are dropped |
| `Blocks.SplitBlankRun` | src/node.py:313 | a run of line breaks between two clean blocks splits into the first block, empty pieces and the second |
| `Blocks.KeepAroundEmpties` | src/node.py:315-319 | empty pieces between two blocks leave just the two |
| `Blocks.ExtraBlankLines` | src/node.py:312-320 | two or more line breaks between two clean blocks separate exactly two blocks |
| `Blocks.EveryLineStartsWith` | src/node.py:292-295 | the loop answers whether every line starts with the prefix |
| `Blocks.LinesNumbered` | src/node.py:302-307 | the loop answers whether line `k` starts with `k. ` for every `k` |
| `Blocks.BlockTypeOf` | src/node.py:285-308 | `block_to_block_type`; its meaning is stated by `HeadingIff`, `QuoteIff`, `UnorderedListIff` and `OrderedListIff` |
| `Blocks.BlockToBlockType` | src/node.py:285-308 | `block_to_block_type` returns the first kind that applies, in the source's order |
| `Blocks.LeadingHashes` | src/node.py:331-336 | the number of `#` characters before the first other one |
| `Blocks.LeadingHashesOfPrefix` | src/node.py:331-336 | `n` leading `#` followed by something else is a count of `n` |
| `Blocks.HeadingPrefixShape` | src/node.py:287 | the `k`-th heading prefix is `k + 1` `#` and a space |
| `Blocks.HeadingHashes` | src/node.py:287 | a block with a heading prefix has that many `#` and then a space |
| `Blocks.HashesHeading` | src/node.py:287 | one to six `#` and a space is a heading prefix |
| `Blocks.HeadingIff` | src/node.py:287-288 | a block starts with a heading prefix exactly when it has one to six `#` and then a space |
| `Blocks.HeadingBlock` | src/node.py:287-288 | a heading has one to six `#` and then a space |
| `Blocks.QuoteIff` | src/node.py:287-295 | a quote is exactly a block, not a heading or fenced, all of whose lines start with `>` |
| `Blocks.UnorderedListIff` | src/node.py:287-300 | an unordered list is exactly such a block all of whose lines start with `- ` |
| `Blocks.OrderedListIff` | src/node.py:287-307 | an ordered list is exactly such a block whose lines are numbered `1. `, `2. `, ... |
| `Blocks.FencedLength` | src/node.py:289-290 | a fenced block has at least seven characters |
| `Blocks.NotHeading` | src/node.py:287 | a block not starting with `#` is no heading |
| `Blocks.OrderedStart` | src/node.py:301-307 | a block starting `1. ` is an ordered list when numbered, and a paragraph otherwise |
| `Blocks.TwoLines` | src/node.py:286 | the lines of `a + "\n" + b` are `a` and `b` |
| `Blocks.TwoItemList` | src/node.py:301-307 | a two-line block opened by `1. ` is an ordered list exactly when its second line starts with `2. ` |
| `Converter.CollectAll` | src/node.py:327-345 | converting every element succeeds exactly when each does, giving one result per element in order |
| `Converter.CollectAllFirstFailure` | src/node.py:327-345 | the error is that of the first element that fails |
| `Converter.CollectAllStep` | src/node.py:327-345 | one more element either fails everything with its error or adds its result |
| `Converter.CollectAllPrefixFailure` | src/node.py:327-345 | once a prefix fails, everything fails with the same error |
| `Converter.Wrapped` | src/node.py:365 | a parent around children succeeds exactly when the children do |
| `Converter.InlineNodes` | src/node.py:340-343 | the only errors are the inline parser's; the nodes are well-formed leaves |
| `Converter.QuoteLines` | src/node.py:358-359 | every quote line loses its first two characters (`line[2:]`), so a line shorter than two characters becomes empty |
| `Converter.HeadingNode` | src/node.py:330-345 | the heading branch; stated by `HeadingElement` |
| `Converter.CodeNode` | src/node.py:347-353 | the code branch; stated by `CodeElement` |
| `Converter.QuoteNode` | src/node.py:355-366 | the quote branch; stated by `QuoteElement` and `QuoteOfTexts` |
| `Converter.ItemText` | src/node.py:372-373 | the text of a list item; stated by `OrderedItemText` and `UnorderedListElement` |
| `Converter.ListItem` | src/node.py:371-377 | one `li`; stated by `OrderedListElement` and `UnorderedListElement` |
| `Converter.ListNode` | src/node.py:368-390 | both list branches; stated by `OrderedListElement`, `UnorderedListElement` and `ListWellFormed` |
| `Converter.ParagraphNode` | src/node.py:392-400 | the paragraph branch; stated by `ParagraphElement` and `PlainParagraph` |
| `Converter.BlockToHtml` | src/node.py:328-400 | one block's element by its kind; stated by `BlockWellFormed` and `OnlyInlineErrors` |
| `Converter.Convert` | src/node.py:324-402 | `markdown_to_html_node`; stated by `ConvertStructure` and `ConvertRenders` |
| `Converter.HeadingElement` | src/node.py:330-345 | a heading has one to six `#`, so the heading error is never raised |
| `Converter.CodeElement` | src/node.py:347-353 | a code block is `pre` > `code` > raw leaf `block[4:-3]`, in bounds |
| `Converter.QuoteElement` | src/node.py:355-366 | every quote line starts with `>` and loses its first two characters (a lone `>` becomes empty), and the blockquote holds the inline nodes of those lines joined with a space |
| `Converter.QuoteSource` | src/node.py:355-360 | line `i` of a quote written from texts is `> ` and text `i` |
| `Converter.QuoteSourceLines` | src/node.py:356-359 | the lines of such a quote are its lines, and cutting them gives back the texts |
| `Converter.QuoteSourceIsQuote` | src/node.py:285-295 | such a block is classified as a quote |
| `Converter.QuoteOfTexts` | src/node.py:355-366 | a quote written from one-line texts becomes a blockquote around those texts joined with a space |
| `Converter.ParagraphElement` | src/node.py:392-399 | a paragraph's text is the block with its line breaks turned into spaces |
| `Converter.PlainInline` | src/node.py:340-343 | text without `**`, `_`, `` ` `` or `[` is a single plain leaf |
| `Converter.PlainParagraph` | src/node.py:392-399 | a paragraph without `**`, `_`, `` ` `` or `[` is a single plain leaf in `p` |
| `Converter.PlainLineBreaks` | src/node.py:393-397 | turning the line breaks of such a paragraph into spaces leaves one plain leaf |
| `Converter.BreaksToSpacesPlain` | src/node.py:393-394 | turning line breaks into spaces creates no `**`, `_`, backtick or `[` |
| `Converter.OrderedItemText` | src/node.py:372-373 | a numbered line's item text is what follows its own marker |
| `Converter.OrderedListElement` | src/node.py:368-378 | an ordered list has one `li` per line, holding the text after the line's number |
| `Converter.UnorderedListElement` | src/node.py:380-390 | an unordered list has one `li` per line, holding the text after `- ` |
| `Converter.OnlyInlineErrors` | src/node.py:337-338 | only the inline parser's errors escape a block |
| `Converter.WrappedWellFormed` | src/node.py:365 | a parent around well-formed children is well formed |
| `Converter.ListWellFormed` | src/node.py:377-378 | a converted list is well formed |
| `Converter.BlockWellFormed` | src/node.py:330-400 | every converted block is well formed |
| `Converter.ConvertStructure` | src/node.py:324-402 | a document is a `div` with one element per block, in order; it fails exactly when a block does, with the first failing block's inline error |
| `Converter.ConvertRenders` | src/node.py:402 | a converted document always renders |
| `Converter.CountLeadingHashes` | src/node.py:331-336 | the loop counts the leading `#` characters |
| `Converter.InlineToHtml` | src/node.py:340-343 | `text_to_textnodes` and then the leaf loop |
| `Converter.HeadingToHtml` | src/node.py:330-345 | the heading branch |
| `Converter.QuoteToHtml` | src/node.py:355-366 | the quote branch |
| `Converter.ListItemToHtml` | src/node.py:371-377 | one list item of either list branch |
| `Converter.ListToHtml` | src/node.py:368-390 | either list branch |
| `Converter.ParagraphToHtml` | src/node.py:392-400 | the paragraph branch |
| `Converter.BlockToNode` | src/node.py:328-400 | the body of the loop over blocks |
| `Converter.MarkdownToHtmlNode` | src/node.py:324-402 | `markdown_to_html_node` returns the conversion, or its first error |
| `Title.Title` | src/node.py:406-412 | `extract_title`; stated by `TitleOf`, `TitleFromFirstLine` and `HeadingLineTitle` |
| `Title.TitleOf` | src/node.py:408-412 | there is no title exactly when no line starts with `# `; a title has no `#` or space at either end |
| `Title.TitleFromFirstLine` | src/node.py:408-411 | the title comes from the first line starting with `# ` |
| `Title.SubheadingNoTitle` | src/node.py:409 | a line starting `##` is no title line |
| `Title.HeadingLineTitle` | src/node.py:410 | the title of `# text ##` is `text` |
| `Title.ExtractTitle` | src/node.py:406-412 | the loop returns the stripped first title line, or raises |

## Left out

- `src/main.py` is not part of this model. It walks and copies files, reads
  `sys.argv` and fills templates, all of which is input and output.
- The `print(node)` before the scanner raises its error (src/node.py:264) is
  left out, because it is output only.
- The `__repr__` methods are left out, because they are debug formatting only.
- The abstract `HTMLNode.to_html` is left out: a `Node` is always a leaf or a
  parent, so no base node is ever rendered.
- The final `else` of `text_node_to_html_node` is left out. `TextType` has
  exactly six values, so that branch cannot be reached.
- Error messages are left out: every raised exception is one error value.
- Props are a sequence of pairs, and nothing forces their keys to be distinct
  as a dict's are. The source only builds props with distinct keys.
- Strings are sequences of characters. `isspace` is the fixed set `Whitespace`.
- `heading_node.children` is assigned after the node is built
  (src/node.py:339-344). The model builds the node together with its children.
- The two list branches of `markdown_to_html_node` are one method,
  `ListToHtml`. They differ only in how an item's text is cut and in the tag.
- The `while` loop of `split_image_or_link_nodes` is its own method,
  `ScanLoop`, called once per plain span.
