/** `extract_title`: the page title is the first line that starts with `# `,
    without the `#` characters and spaces around it. */
module Title {
  import opened Wrappers
  import opened PyStr

  /** `Exception("No Title")` */
  datatype TitleError = NoTitle

  /** The characters `line.strip("# ")` removes from both ends. */
  const TitleChars: set<char> := {'#', ' '}

  /** A title line: a level-one heading marker at the start. */
  predicate TitleLine(line: string) {
    StartsWith(line, "# ")
  }

  /** The title among some lines, searched from the first. */
  function TitleOf(lines: seq<string>): (r: Result<string, TitleError>)
    ensures r.Failure? <==> forall i :: 0 <= i < |lines| ==> !TitleLine(lines[i])
    ensures r.Success? ==> r.value == "" || (r.value[0] !in TitleChars && r.value[|r.value| - 1] !in TitleChars)
    decreases |lines|
  {
    if lines == [] then Failure(NoTitle)
    else if TitleLine(lines[0]) then Success(Strip(lines[0], TitleChars))
    else
      var r := TitleOf(lines[1..]);
      assert forall i :: 1 <= i < |lines| ==> lines[i] == lines[1..][i - 1];
      r
  }

  /** The title of a document. */
  function Title(markdown: string): Result<string, TitleError> {
    TitleOf(Split(markdown, "\n"))
  }

  /** `lines[k]` is the first title line. */
  predicate FirstTitleLine(lines: seq<string>, k: int) {
    0 <= k < |lines| && TitleLine(lines[k]) && forall i :: 0 <= i < k ==> !TitleLine(lines[i])
  }

  /** The title comes from the first title line, and from no later one. */
  lemma {:induction false} TitleFromFirstLine(lines: seq<string>, k: nat)
    requires FirstTitleLine(lines, k)
    ensures TitleOf(lines) == Success(Strip(lines[k], TitleChars))
    decreases k
  {
    if k > 0 {
      assert FirstTitleLine(lines[1..], k - 1) by {
        forall i | 0 <= i < k - 1
          ensures !TitleLine(lines[1..][i])
        {
          assert lines[1..][i] == lines[i + 1];
        }
      }
      TitleFromFirstLine(lines[1..], k - 1);
    }
  }

  /** A second-level heading is not a title line, whatever follows it. */
  lemma SubheadingNoTitle(line: string)
    requires StartsWith(line, "##")
    ensures !TitleLine(line)
  {
    assert line[1] == line[..2][1] == '#';
  }

  /** The title of `# text` is the text itself when it starts and ends with no
      `#` or space; when it ends with closing `#`s, those go too. */
  lemma HeadingLineTitle(text: string, closing: string)
    requires text != "" && text[0] !in TitleChars && text[|text| - 1] !in TitleChars
    requires forall i :: 0 <= i < |closing| ==> closing[i] in TitleChars
    ensures Strip("# " + text + closing, TitleChars) == text
  {
    StripSurrounded("# ", text, closing, TitleChars);
  }

  /** `extract_title` */
  method ExtractTitle(markdownContent: string) returns (r: Result<string, TitleError>)
    ensures r == Title(markdownContent)
  {
    var markdownLines := Split(markdownContent, "\n");
    for i := 0 to |markdownLines|
      invariant TitleOf(markdownLines[i..]) == TitleOf(markdownLines)
    {
      if StartsWith(markdownLines[i], "# ") {
        var title := Strip(markdownLines[i], TitleChars);
        return Success(title);
      }
      assert markdownLines[i..][1..] == markdownLines[i + 1..];
    }
    return Failure(NoTitle);
  }
}
