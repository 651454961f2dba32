/**
 * The text edits the editor applies to its markdown text: wrapping the
 * selection `[start, end)` in the markup of a toolbar action, link and image
 * insertion, the Ctrl/Meta shortcuts, and Tab / Shift+Tab indentation.
 *
 * Every edit is a function of the current text, the selection and the
 * answers of any dialogs, and yields the new text together with whether the
 * editor re-renders the preview and (re)arms the autosave timer.  No code
 * sets the cursor; assigning the editor's value puts it at the end of the
 * text, which is not tracked here: the selection is a parameter of each edit.
 */
module Markdown {
  import opened JsText

  /** One entry of the markup table: what goes before and after the selection. */
  datatype Syntax = Syntax(prefix: string, suffix: string)

  /** The toolbar's markup table.  There is no entry for `table`. */
  const MarkdownSyntax: map<string, Syntax> := map[
    "bold" := Syntax("**", "**"),
    "italic" := Syntax("*", "*"),
    "underline" := Syntax("<u>", "</u>"),
    "strikethrough" := Syntax("~~", "~~"),
    "h1" := Syntax("# ", ""),
    "h2" := Syntax("## ", ""),
    "h3" := Syntax("### ", ""),
    "h4" := Syntax("#### ", ""),
    "ul" := Syntax("- ", ""),
    "ol" := Syntax("1. ", ""),
    "quote" := Syntax("> ", ""),
    "code" := Syntax("```\n", "\n```"),
    "inlineCode" := Syntax("`", "`"),
    "link" := Syntax("[", "](url)"),
    "image" := Syntax("![alt](", ")"),
    "divider" := Syntax("\n---\n", "")
  ]

  /** The table template of the toolbar code; no action reaches it. */
  const TableTemplate: string :=
    "\n| 列1 | 列2 | 列3 |\n|-----|-----|-----|\n| 内容1 | 内容2 | 内容3 |\n| 内容4 | 内容5 | 内容6 |\n"

  /** Link text used when a link is inserted over an empty selection. */
  const LinkPlaceholder: string := "链接文字"

  /** Image description used when the description dialog is left empty. */
  const ImageAltDefault: string := "图片"

  /** The outcome of an edit: the editor's new text, whether the preview is
      re-rendered, and whether the autosave timer is (re)armed. */
  datatype EditResult = EditResult(text: string, render: bool, autosave: bool)

  /** `selectedText`, the text of the selection:
      `editor.value.substring(start, end)`. */
  function Selected(text: string, start: int, end: int): string
  {
    Substring(text, start, end)
  }

  /** `text.substring(0, start) + inserted + text.substring(end)`. */
  function Splice(text: string, start: int, end: int, inserted: string): string
  {
    Substring(text, 0, start) + inserted + Substring(text, end, |text|)
  }

  /** For a selection inside the text, a splice keeps everything before and
      after the selection and puts `inserted` in its place; the original text
      is recovered from the result and the selected text. */
  lemma SpliceLayout(text: string, start: int, end: int, inserted: string)
    requires 0 <= start <= end <= |text|
    ensures var r := Splice(text, start, end, inserted);
      && |r| == |text| - (end - start) + |inserted|
      && r[..start] == text[..start]
      && r[start..start + |inserted|] == inserted
      && r[start + |inserted|..] == text[end..]
      && text == r[..start] + Selected(text, start, end) + r[start + |inserted|..]
  {
    var r := Splice(text, start, end, inserted);
    assert r == text[..start] + inserted + text[end..];
    assert r[..start] == text[..start];
    assert r[start..start + |inserted|] == inserted;
    assert r[start + |inserted|..] == text[end..];
    assert text == text[..start] + text[start..end] + text[end..];
  }

  /** `wrapSelection(action)`, given the answer of the link dialog (`None`
      when it is cancelled).  For `image` this is only the synchronous part:
      the file picker opens and `InsertUploadedImage` completes the edit. */
  function WrapSelection(text: string, start: int, end: int, action: string, url: Option<string>): EditResult
  {
    if action !in MarkdownSyntax then EditResult(text, false, false)
    else
      var sel := Selected(text, start, end);
      var newText :=
        if action == "link" then
          if url.Some? && url.value != "" then
            Splice(text, start, end, "[" + OrElse(sel, LinkPlaceholder) + "](" + url.value + ")")
          else text
        else if action == "image" then text
        else if action == "table" then Splice(text, start, end, TableTemplate)
        else Splice(text, start, end, MarkdownSyntax[action].prefix + sel + MarkdownSyntax[action].suffix);
      EditResult(newText, true, true)
  }

  /** `table` has no entry in the markup table. */
  lemma TableHasNoSyntax()
    ensures "table" !in MarkdownSyntax
  {
    assert MarkdownSyntax.Keys == {"bold", "italic", "underline", "strikethrough", "h1", "h2", "h3", "h4",
                                   "ul", "ol", "quote", "code", "inlineCode", "link", "image", "divider"};
  }

  /** An action without a markup entry, `table` among them, changes nothing
      and neither re-renders nor arms the autosave. */
  lemma UnknownActionIsNoOp(text: string, start: int, end: int, action: string, url: Option<string>)
    requires action !in MarkdownSyntax || action == "table"
    ensures WrapSelection(text, start, end, action, url) == EditResult(text, false, false)
  {
    TableHasNoSyntax();
  }

  /** Every action of the table other than `link` and `image` replaces the
      selection by prefix, selected text and suffix, keeps the rest of the
      text, and re-renders and arms the autosave. */
  lemma WrapInsertsMarkup(text: string, start: int, end: int, action: string, url: Option<string>)
    requires 0 <= start <= end <= |text|
    requires action in MarkdownSyntax && action != "link" && action != "image"
    ensures var syn := MarkdownSyntax[action];
      var markup := syn.prefix + text[start..end] + syn.suffix;
      WrapSelection(text, start, end, action, url) == EditResult(text[..start] + markup + text[end..], true, true)
  {
    TableHasNoSyntax();
  }

  /** With an empty selection the prefix and suffix are inserted with nothing
      between them (no placeholder). */
  lemma EmptySelectionInsertsMarkupOnly(text: string, pos: int, action: string, url: Option<string>)
    requires 0 <= pos <= |text|
    requires action in MarkdownSyntax && action != "link" && action != "image"
    ensures var syn := MarkdownSyntax[action];
      WrapSelection(text, pos, pos, action, url).text == text[..pos] + syn.prefix + syn.suffix + text[pos..]
  {
    var syn := MarkdownSyntax[action];
    WrapInsertsMarkup(text, pos, pos, action, url);
    InsertAtPoint(text, pos, syn.prefix, syn.suffix);
  }

  lemma InsertAtPoint(text: string, pos: int, prefix: string, suffix: string)
    requires 0 <= pos <= |text|
    ensures text[..pos] + (prefix + text[pos..pos] + suffix) + text[pos..] == text[..pos] + prefix + suffix + text[pos..]
  {
    assert text[pos..pos] == "";
    assert prefix + text[pos..pos] + suffix == prefix + suffix;
  }

  /** `divider` goes through the generic path: the rule is inserted in front
      of the selection, and the selected text stays. */
  lemma DividerKeepsSelection(text: string, start: int, end: int, url: Option<string>)
    requires 0 <= start <= end <= |text|
    ensures WrapSelection(text, start, end, "divider", url).text == text[..start] + "\n---\n" + text[start..]
  {
    DividerSyntax();
    WrapInsertsMarkup(text, start, end, "divider", url);
    InsertBeforeSelection(text, start, end, "\n---\n");
  }

  lemma DividerSyntax()
    ensures "divider" in MarkdownSyntax && MarkdownSyntax["divider"] == Syntax("\n---\n", "")
  {
  }

  /** Putting `rule` before the selection, with nothing after it, is putting
      `rule` in front of the rest of the text. */
  lemma InsertBeforeSelection(text: string, start: int, end: int, rule: string)
    requires 0 <= start <= end <= |text|
    ensures text[..start] + (rule + text[start..end] + "") + text[end..] == text[..start] + rule + text[start..]
  {
    var sel, after := text[start..end], text[end..];
    assert rule + sel + "" == rule + sel;
    assert text[start..] == sel + after;
  }

  /** Wrapping is additive, never a toggle: wrapping a whole text and then
      the whole result again nests the markup (bold over bold gives
      `****hello****`). */
  lemma WrapTwiceNests(s: string, action: string, url: Option<string>)
    requires action in MarkdownSyntax && action != "link" && action != "image"
    ensures var syn := MarkdownSyntax[action];
      var once := WrapSelection(s, 0, |s|, action, url).text;
      && once == syn.prefix + s + syn.suffix
      && WrapSelection(once, 0, |once|, action, url).text == syn.prefix + syn.prefix + s + syn.suffix + syn.suffix
  {
    var syn := MarkdownSyntax[action];
    WrapWhole(s, action, url);
    var once := syn.prefix + s + syn.suffix;
    WrapWhole(once, action, url);
    Nest(syn.prefix, s, syn.suffix);
  }

  lemma Nest(prefix: string, s: string, suffix: string)
    ensures prefix + (prefix + s + suffix) + suffix == prefix + prefix + s + suffix + suffix
  {
  }

  lemma WrapWhole(s: string, action: string, url: Option<string>)
    requires action in MarkdownSyntax && action != "link" && action != "image"
    ensures WrapSelection(s, 0, |s|, action, url).text == MarkdownSyntax[action].prefix + s + MarkdownSyntax[action].suffix
  {
    var syn := MarkdownSyntax[action];
    WrapInsertsMarkup(s, 0, |s|, action, url);
    SpliceWhole(s, syn.prefix, syn.suffix);
  }

  lemma SpliceWhole(s: string, prefix: string, suffix: string)
    ensures s[..0] + (prefix + s[0..|s|] + suffix) + s[|s|..] == prefix + s + suffix
  {
    assert s[..0] == [] && s[|s|..] == [] && s[0..|s|] == s;
  }

  /** A link with a non-empty address replaces the selection by
      `[selection or placeholder](address)`; the table's `](url)` suffix is not used. */
  lemma LinkReplacesSelection(text: string, start: int, end: int, address: string)
    requires 0 <= start <= end <= |text|
    requires address != ""
    ensures var markup := "[" + OrElse(text[start..end], LinkPlaceholder) + "](" + address + ")";
      WrapSelection(text, start, end, "link", Some(address)) == EditResult(text[..start] + markup + text[end..], true, true)
  {
    LinkSyntax();
    var markup := "[" + OrElse(text[start..end], LinkPlaceholder) + "](" + address + ")";
    assert Selected(text, start, end) == text[start..end];
    assert Splice(text, start, end, markup) == text[..start] + markup + text[end..];
  }

  lemma LinkSyntax()
    ensures "link" in MarkdownSyntax
  {
  }

  /** A cancelled or empty link dialog leaves the text as it was, yet the
      preview is re-rendered and the autosave armed all the same. */
  lemma LinkCancelledKeepsText(text: string, start: int, end: int, url: Option<string>)
    requires url.None? || url.value == ""
    ensures WrapSelection(text, start, end, "link", url) == EditResult(text, true, true)
  {
  }

  /** The image button changes no text by itself but re-renders and arms the autosave. */
  lemma ImageButtonDefersInsertion(text: string, start: int, end: int, url: Option<string>)
    ensures WrapSelection(text, start, end, "image", url) == EditResult(text, true, true)
  {
  }

  /** The first position of `c` in `s`. */
  function IndexOf(s: string, c: char): (i: nat)
    requires c in s
    ensures i < |s| && s[i] == c && c !in s[..i]
  {
    if s[0] == c then 0 else 1 + IndexOf(s[1..], c)
  }

  /** `s.split(',')[1]` as it lands in a template string: the text between
      the first and second comma, and `undefined` when there is no comma. */
  function SecondCommaField(s: string): string
  {
    if ',' !in s then "undefined"
    else
      var rest := s[IndexOf(s, ',') + 1..];
      if ',' in rest then rest[..IndexOf(rest, ',')] else rest
  }

  /** For a data URL `header,payload` with no other comma, the field is the payload. */
  lemma DataUrlPayload(header: string, payload: string)
    requires ',' !in header && ',' !in payload
    ensures SecondCommaField(header + "," + payload) == payload
  {
    var s := header + "," + payload;
    assert s[|header|] == ',';
    var i := IndexOf(s, ',');
    assert i == |header|;
    assert s[i + 1..] == payload;
  }

  /** The asynchronous end of the image button: `upload` is the data URL the
      file was read as, `None` when no file was chosen or reading or storing
      it failed (the editor then only alerts); `alt` answers the description
      dialog.  The image is embedded as `data:image;base64,<payload>`.
      `start` and `end` are the selection captured when the button was
      clicked, while `text` is the editor's value after the upload and the
      description dialog: a caller pairs the old selection with the current
      text. */
  function InsertUploadedImage(text: string, start: int, end: int, upload: Option<string>, alt: Option<string>): EditResult
  {
    if upload.None? then EditResult(text, false, false)
    else
      var markup := "![" + PromptOr(alt, ImageAltDefault) + "](data:image;base64," + SecondCommaField(upload.value) + ")";
      EditResult(Splice(text, start, end, markup), true, true)
  }

  /** An uploaded image replaces the selection by its markup, with the
      payload of the data URL and the description or its default. */
  lemma UploadedImageMarkup(text: string, start: int, end: int, header: string, payload: string, alt: Option<string>)
    requires 0 <= start <= end <= |text|
    requires ',' !in header && ',' !in payload
    ensures var markup := "![" + PromptOr(alt, ImageAltDefault) + "](data:image;base64," + payload + ")";
      InsertUploadedImage(text, start, end, Some(header + "," + payload), alt)
        == EditResult(text[..start] + markup + text[end..], true, true)
  {
    DataUrlPayload(header, payload);
  }

  /** `insertImage(src)`, used by paste: the image markup with the fixed
      description replaces the selection.  Paste calls it whether or not
      storing the image succeeded. */
  function InsertImage(text: string, start: int, end: int, src: string): (r: EditResult)
    ensures r.render && r.autosave
    ensures 0 <= start <= end <= |text| ==>
      r.text == text[..start] + "![" + ImageAltDefault + "](" + src + ")" + text[end..]
  {
    EditResult(Splice(text, start, end, "![" + ImageAltDefault + "](" + src + ")"), true, true)
  }

  // ---------------------------------------------------------------------
  // Tab and Shift+Tab

  /** No JavaScript line terminator occurs in `s`. */
  predicate SingleLine(s: string) {
    forall i :: 0 <= i < |s| ==> !IsLineTerminator(s[i])
  }

  /** The number of line terminators in `s`. */
  function LineTerminatorCount(s: string): nat
  {
    if s == [] then 0 else (if IsLineTerminator(s[0]) then 1 else 0) + LineTerminatorCount(s[1..])
  }

  /** Two spaces after every line terminator of `s`. */
  function IndentRest(s: string): string
  {
    if s == [] then []
    else if IsLineTerminator(s[0]) then [s[0]] + "  " + IndentRest(s[1..])
    else [s[0]] + IndentRest(s[1..])
  }

  /** `s.replace(/^/gm, '  ')`: two spaces wherever `^` matches under the `m`
      flag, that is at the start and after every line terminator (also after
      a terminator that ends `s`). */
  function Indent(s: string): string
  {
    "  " + IndentRest(s)
  }

  lemma {:induction false} IndentRestAppend(a: string, b: string)
    ensures IndentRest(a + b) == IndentRest(a) + IndentRest(b)
  {
    if a == [] {
      assert a + b == b;
    } else {
      assert (a + b)[0] == a[0] && (a + b)[1..] == a[1..] + b;
      IndentRestAppend(a[1..], b);
    }
  }

  lemma {:induction false} IndentRestSingleLine(s: string)
    requires SingleLine(s)
    ensures IndentRest(s) == s
  {
    if s != [] {
      IndentRestSingleLine(s[1..]);
    }
  }

  /** Indent puts two spaces at the start, and two spaces right after each
      line terminator, and changes nothing else. */
  lemma IndentInsertsAfterTerminators(line: string, terminator: char, rest: string)
    requires SingleLine(line) && IsLineTerminator(terminator)
    ensures Indent(line) == "  " + line
    ensures IndentRest(line + [terminator] + rest) == line + [terminator] + "  " + IndentRest(rest)
  {
    IndentRestSingleLine(line);
    IndentRestAppend(line, [terminator] + rest);
    assert line + [terminator] + rest == line + ([terminator] + rest);
    assert ([terminator] + rest)[1..] == rest;
  }

  /** Indent adds two characters per line terminator. */
  lemma {:induction false} IndentRestLength(s: string)
    ensures |IndentRest(s)| == |s| + 2 * LineTerminatorCount(s)
  {
    if s != [] {
      IndentRestLength(s[1..]);
    }
  }

  /** Indent adds only spaces: the non-white-space text is unchanged. */
  lemma {:induction false} IndentRestNonWhiteSpace(s: string)
    ensures NonWhiteSpace(IndentRest(s)) == NonWhiteSpace(s)
  {
    if s != [] {
      IndentRestNonWhiteSpace(s[1..]);
      var t := IndentRest(s[1..]);
      if IsLineTerminator(s[0]) {
        assert IndentRest(s) == [s[0]] + ("  " + t);
        NonWhiteSpaceAppend([s[0]], "  " + t);
        NonWhiteSpaceAppend("  ", t);
      } else {
        assert IndentRest(s) == [s[0]] + t;
        NonWhiteSpaceAppend([s[0]], t);
      }
      NonWhiteSpaceAppend([s[0]], s[1..]);
      assert [s[0]] + s[1..] == s;
    }
  }

  lemma IndentMeasure(s: string)
    ensures |Indent(s)| == |s| + 2 + 2 * LineTerminatorCount(s)
    ensures NonWhiteSpace(Indent(s)) == NonWhiteSpace(s)
  {
    IndentRestLength(s);
    IndentRestNonWhiteSpace(s);
    NonWhiteSpaceAppend("  ", IndentRest(s));
  }

  /** The length of the run of `\s` characters at the start of `t`. */
  function LeadingWhiteSpace(t: string): (n: nat)
    ensures n <= |t|
    ensures forall i :: 0 <= i < n ==> IsWhiteSpace(t[i])
    ensures n < |t| ==> !IsWhiteSpace(t[n])
  {
    if t == [] || !IsWhiteSpace(t[0]) then 0 else 1 + LeadingWhiteSpace(t[1..])
  }

  /** `spaces.slice(0, -2)`: all but the last two characters. */
  function DropLastTwo(s: string): (r: string)
    ensures |s| >= 2 ==> r == s[..|s| - 2]
    ensures |s| <= 2 ==> r == ""
  {
    if |s| <= 2 then "" else s[..|s| - 2]
  }

  /** `/^(\s*)/gm` matching at the start of `t`, where `^` holds: the whole
      white-space run is matched (across line terminators, since `\s`
      contains them) and loses its last two characters; the search then
      goes on after the run. */
  function OutdentAtLineStart(t: string): string
    decreases |t|, 1
  {
    var n := LeadingWhiteSpace(t);
    DropLastTwo(t[..n]) + OutdentScan(t[n..])
  }

  /** The search between matches: characters are kept, and after a line
      terminator `^` holds again. */
  function OutdentScan(t: string): string
    decreases |t|, 0
  {
    if t == [] then []
    else if IsLineTerminator(t[0]) then [t[0]] + OutdentAtLineStart(t[1..])
    else [t[0]] + OutdentScan(t[1..])
  }

  /** `s.replace(/^(\s*)/gm, (match, spaces) => spaces.slice(0, -2))`. */
  function Outdent(s: string): string
  {
    OutdentAtLineStart(s)
  }

  /** Outdent only removes white space, and never lengthens the text. */
  lemma {:induction false} OutdentAtLineStartMeasure(t: string)
    ensures |OutdentAtLineStart(t)| <= |t|
    ensures NonWhiteSpace(OutdentAtLineStart(t)) == NonWhiteSpace(t)
    decreases |t|, 1
  {
    var n := LeadingWhiteSpace(t);
    OutdentScanMeasure(t[n..]);
    NonWhiteSpaceOfBlank(t[..n]);
    NonWhiteSpaceOfBlank(DropLastTwo(t[..n]));
    NonWhiteSpaceAppend(DropLastTwo(t[..n]), OutdentScan(t[n..]));
    NonWhiteSpaceAppend(t[..n], t[n..]);
    assert t == t[..n] + t[n..];
  }

  lemma {:induction false} OutdentScanMeasure(t: string)
    ensures |OutdentScan(t)| <= |t|
    ensures NonWhiteSpace(OutdentScan(t)) == NonWhiteSpace(t)
    decreases |t|, 0
  {
    if t != [] {
      var rest := if IsLineTerminator(t[0]) then OutdentAtLineStart(t[1..]) else OutdentScan(t[1..]);
      if IsLineTerminator(t[0]) {
        OutdentAtLineStartMeasure(t[1..]);
      } else {
        OutdentScanMeasure(t[1..]);
      }
      assert OutdentScan(t) == [t[0]] + rest;
      NonWhiteSpaceAppend([t[0]], rest);
      NonWhiteSpaceAppend([t[0]], t[1..]);
      assert [t[0]] + t[1..] == t;
    }
  }

  lemma OutdentMeasure(s: string)
    ensures |Outdent(s)| <= |s|
    ensures NonWhiteSpace(Outdent(s)) == NonWhiteSpace(s)
  {
    OutdentAtLineStartMeasure(s);
  }

  /** Every line of `t` (from a line start) is indented with spaces only: the
      white-space run at each line start consists of spaces.  A line that
      holds only white space breaks this unless it is the last one. */
  predicate SpaceIndentedAtLineStart(t: string)
    decreases |t|, 1
  {
    var n := LeadingWhiteSpace(t);
    && (forall i :: 0 <= i < n ==> t[i] == ' ')
    && SpaceIndentedScan(t[n..])
  }

  predicate SpaceIndentedScan(t: string)
    decreases |t|, 0
  {
    t == [] || (if IsLineTerminator(t[0]) then SpaceIndentedAtLineStart(t[1..]) else SpaceIndentedScan(t[1..]))
  }

  /** A string without line terminators satisfies the scan part trivially. */
  lemma {:induction false} SingleLineScan(t: string)
    requires SingleLine(t)
    ensures SpaceIndentedScan(t)
  {
    if t != [] {
      SingleLineScan(t[1..]);
    }
  }

  /** The white-space run at the start of `w + rest` is `w` when `w` is all
      white space and `rest` does not start with white space. */
  lemma {:induction false} LeadingWhiteSpaceOfRun(w: string, rest: string)
    requires forall i :: 0 <= i < |w| ==> IsWhiteSpace(w[i])
    requires rest != [] ==> !IsWhiteSpace(rest[0])
    ensures LeadingWhiteSpace(w + rest) == |w|
  {
    if w == [] {
      assert w + rest == rest;
    } else {
      assert (w + rest)[0] == w[0] && (w + rest)[1..] == w[1..] + rest;
      LeadingWhiteSpaceOfRun(w[1..], rest);
    }
  }

  lemma {:induction false} OutdentIndentAtLineStart(t: string)
    requires SpaceIndentedAtLineStart(t)
    ensures OutdentAtLineStart("  " + IndentRest(t)) == t
    decreases |t|, 1
  {
    var n := LeadingWhiteSpace(t);
    var spaces, rest := t[..n], t[n..];
    assert t == spaces + rest;
    IndentOfSpaceRun(spaces, rest);
    var tail := IndentRest(rest);
    assert tail != [] ==> tail[0] == rest[0] && rest[0] == t[n];
    OutdentAtLineStartSplit("  " + spaces, tail);
    OutdentIndentScan(rest);
    DropLastTwoOfSpaces(spaces);
  }

  /** Indenting a run of spaces followed by more text indents only the text after it. */
  lemma IndentOfSpaceRun(spaces: string, rest: string)
    requires forall i :: 0 <= i < |spaces| ==> spaces[i] == ' '
    ensures "  " + IndentRest(spaces + rest) == ("  " + spaces) + IndentRest(rest)
  {
    assert SingleLine(spaces) by {
      forall i | 0 <= i < |spaces| ensures !IsLineTerminator(spaces[i]) {
        assert spaces[i] == ' ';
      }
    }
    IndentRestSingleLine(spaces);
    IndentRestAppend(spaces, rest);
  }

  /** Outdent at a line start that begins with a white-space run followed by
      non-white space shortens that run and scans on from its end. */
  lemma OutdentAtLineStartSplit(run: string, tail: string)
    requires forall i :: 0 <= i < |run| ==> IsWhiteSpace(run[i])
    requires tail != [] ==> !IsWhiteSpace(tail[0])
    ensures OutdentAtLineStart(run + tail) == DropLastTwo(run) + OutdentScan(tail)
  {
    LeadingWhiteSpaceOfRun(run, tail);
    var u := run + tail;
    assert u[..|run|] == run && u[|run|..] == tail;
  }

  /** Dropping the last two characters of two spaces and a run of spaces
      gives the run back. */
  lemma DropLastTwoOfSpaces(spaces: string)
    requires forall i :: 0 <= i < |spaces| ==> spaces[i] == ' '
    ensures DropLastTwo("  " + spaces) == spaces
  {
    var run := "  " + spaces;
    forall i | 0 <= i < |spaces|
      ensures run[i] == spaces[i]
    {
      assert run[i] == ' ';
    }
    assert run[..|spaces|] == spaces;
  }

  lemma {:induction false} OutdentIndentScan(t: string)
    requires SpaceIndentedScan(t)
    ensures OutdentScan(IndentRest(t)) == t
    decreases |t|, 0
  {
    if t != [] {
      var u := IndentRest(t);
      if IsLineTerminator(t[0]) {
        assert u[0] == t[0] && u[1..] == "  " + IndentRest(t[1..]);
        OutdentIndentAtLineStart(t[1..]);
      } else {
        assert u[0] == t[0] && u[1..] == IndentRest(t[1..]);
        OutdentIndentScan(t[1..]);
      }
      assert [t[0]] + t[1..] == t;
    }
  }

  /** Shift+Tab undoes Tab on text whose every line is indented with spaces only. */
  lemma OutdentUndoesIndent(s: string)
    requires SpaceIndentedAtLineStart(s)
    ensures Outdent(Indent(s)) == s
  {
    OutdentIndentAtLineStart(s);
  }

  /** On a single line indented only with spaces, Tab then Shift+Tab restores the line. */
  lemma OutdentUndoesIndentOnOneLine(s: string)
    requires SingleLine(s)
    requires forall i :: 0 <= i < LeadingWhiteSpace(s) ==> s[i] == ' '
    ensures Outdent(Indent(s)) == s
  {
    SingleLineScan(s[LeadingWhiteSpace(s)..]);
    OutdentUndoesIndent(s);
  }

  /** Shift+Tab removes a single leading space entirely, strips a tab as
      readily as a space, and swallows a blank line with the indentation of
      the line after it. */
  lemma OutdentQuirks()
    ensures Outdent(" x") == "x"
    ensures Outdent("\tx") == "x"
    ensures Outdent("\n\tx") == "x"
  {
    assert LeadingWhiteSpace("x") == 0;
    assert " x"[1..] == "x" && "\tx"[1..] == "x" && "\n\tx"[1..] == "\tx";
    assert LeadingWhiteSpace(" x") == 1 && LeadingWhiteSpace("\tx") == 1;
    assert LeadingWhiteSpace("\n\tx") == 2;
    assert " x"[1..] == "x" && OutdentScan("x") == "x";
  }

  /** Tab (without Shift) indents the selected text and Shift+Tab outdents
      it; the preview is re-rendered but the autosave is not armed. */
  function TabKey(text: string, start: int, end: int, shift: bool): EditResult
  {
    var sel := Selected(text, start, end);
    EditResult(Splice(text, start, end, if shift then Outdent(sel) else Indent(sel)), true, false)
  }

  /** Tab changes nothing outside the selection, and leaves the autosave alone. */
  lemma TabKeepsOutside(text: string, start: int, end: int, shift: bool)
    requires 0 <= start <= end <= |text|
    ensures var r := TabKey(text, start, end, shift);
      var sel := text[start..end];
      var inserted := if shift then Outdent(sel) else Indent(sel);
      && r.render && !r.autosave
      && r.text == text[..start] + inserted + text[end..]
      && NonWhiteSpace(inserted) == NonWhiteSpace(sel)
  {
    if shift {
      OutdentMeasure(text[start..end]);
    } else {
      IndentMeasure(text[start..end]);
    }
  }

  // ---------------------------------------------------------------------
  // Keyboard shortcuts

  /** The action a key triggers together with Ctrl or Meta, after
      `key.toLowerCase()`; the Kelvin sign lower-cases to `k`. */
  function ShortcutAction(key: string): (a: Option<string>)
    ensures a.Some? ==> a.value in MarkdownSyntax && a.value != "image"
  {
    if key == "b" || key == "B" then Some("bold")
    else if key == "i" || key == "I" then Some("italic")
    else if key == "u" || key == "U" then Some("underline")
    else if key == "k" || key == "K" || key == "\U{212A}" then Some("link")
    else if key == "1" then Some("h1")
    else if key == "2" then Some("h2")
    else if key == "3" then Some("h3")
    else if key == "4" then Some("h4")
    else None
  }

  /** `handleKeyDown`: a Ctrl/Meta shortcut wraps the selection; Tab indents
      or (with Shift) outdents, whatever the modifiers.  A key can be both
      only if it were a shortcut letter and `Tab` at once, so at most one
      branch applies.  `url` answers the link dialog of Ctrl+K. */
  function KeyDown(text: string, start: int, end: int, key: string, ctrl: bool, meta: bool, shift: bool,
                   url: Option<string>): EditResult
  {
    if (ctrl || meta) && ShortcutAction(key).Some? then WrapSelection(text, start, end, ShortcutAction(key).value, url)
    else if key == "Tab" then TabKey(text, start, end, shift)
    else EditResult(text, false, false)
  }

  /** Every shortcut changes the text the way its toolbar button does, except
      Ctrl+K, whose result depends on the link dialog; every shortcut re-renders
      and arms the autosave. */
  lemma ShortcutWraps(text: string, start: int, end: int, key: string, ctrl: bool, meta: bool, shift: bool,
                      url: Option<string>)
    requires 0 <= start <= end <= |text|
    requires ctrl || meta
    requires ShortcutAction(key).Some? && ShortcutAction(key).value != "link"
    ensures var syn := MarkdownSyntax[ShortcutAction(key).value];
      var markup := syn.prefix + text[start..end] + syn.suffix;
      KeyDown(text, start, end, key, ctrl, meta, shift, url) == EditResult(text[..start] + markup + text[end..], true, true)
  {
    WrapInsertsMarkup(text, start, end, ShortcutAction(key).value, url);
  }

  /** Ctrl+K or Meta+K (either case, or the Kelvin sign) takes the link
      path of the toolbar, dialog included. */
  lemma ShortcutLink(text: string, start: int, end: int, key: string, ctrl: bool, meta: bool, shift: bool,
                     url: Option<string>)
    requires ctrl || meta
    requires ShortcutAction(key) == Some("link")
    ensures KeyDown(text, start, end, key, ctrl, meta, shift, url) == WrapSelection(text, start, end, "link", url)
  {
  }

  /** Without Ctrl or Meta, no key but Tab is handled. */
  lemma PlainKeysIgnored(text: string, start: int, end: int, key: string, shift: bool, url: Option<string>)
    requires key != "Tab"
    ensures KeyDown(text, start, end, key, false, false, shift, url) == EditResult(text, false, false)
  {
  }
}
