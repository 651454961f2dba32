/**
 * The text of the markdown export: a heading with the title, an author line
 * when there is an author, then the editor's text unchanged.
 */
module Export {
  import opened Document

  /** The author line of the export, empty when the author input is empty. */
  function AuthorLine(author: string): string
  {
    if author != "" then "作者：" + author + "\n\n" else ""
  }

  /** The markdown `exportMarkdown` downloads. */
  function ExportMarkdown(a: Article): string
  {
    "# " + DisplayTitle(a.title) + "\n\n" + AuthorLine(a.author) + a.text
  }

  /** The name of the downloaded file. */
  function ExportFileName(a: Article): (name: string)
    ensures |name| > 3 && name[|name| - 3..] == ".md"
    ensures name[..|name| - 3] == DisplayTitle(a.title)
  {
    DisplayTitle(a.title) + ".md"
  }

  /** The export starts with the title heading (`未命名文章` for an empty
      title), ends with the editor text, and holds between them exactly the
      author line, which is present exactly when the author is not empty. */
  lemma ExportLayout(a: Article)
    ensures var md := ExportMarkdown(a);
      var heading := "# " + DisplayTitle(a.title) + "\n\n";
      && |md| >= |heading| + |a.text|
      && md[..|heading|] == heading
      && md[|md| - |a.text|..] == a.text
      && md[|heading|..|md| - |a.text|] == AuthorLine(a.author)
      && (a.author == "" <==> |md| == |heading| + |a.text|)
  {
    var md := ExportMarkdown(a);
    var heading := "# " + DisplayTitle(a.title) + "\n\n";
    assert md == heading + AuthorLine(a.author) + a.text;
    assert md[..|heading|] == heading;
    assert md[|md| - |a.text|..] == a.text;
    assert md[|heading|..|md| - |a.text|] == AuthorLine(a.author);
  }
}
