/**
 * The counts `updateStats` shows under the editor: characters outside white
 * space, non-blank lines ("paragraphs") and reading time in minutes at 500
 * characters a minute.
 */
module Stats {
  import opened JsText
  import Markdown

  /** `s` holds only `\s` characters. */
  predicate AllWhiteSpace(s: string) {
    forall i :: 0 <= i < |s| ==> IsWhiteSpace(s[i])
  }

  /** The number of `\n` characters in `s`. */
  function NewlineCount(s: string): nat
  {
    if s == [] then 0 else (if s[0] == '\n' then 1 else 0) + NewlineCount(s[1..])
  }

  /** `s.split('\n')`: the pieces between newlines; `\r` and the other line
      terminators are not split on. */
  function SplitLines(s: string): (lines: seq<string>)
    ensures |lines| >= 1
  {
    if s == [] then [""]
    else
      var rest := SplitLines(s[1..]);
      if s[0] == '\n' then [""] + rest else [[s[0]] + rest[0]] + rest[1..]
  }

  /** `lines.join('\n')`. */
  function JoinLines(lines: seq<string>): string
  {
    if lines == [] then ""
    else if |lines| == 1 then lines[0]
    else lines[0] + "\n" + JoinLines(lines[1..])
  }

  /** Splitting at newlines loses nothing: joining the pieces gives the text
      back, there is one piece more than there are newlines, and no piece
      holds a newline. */
  lemma {:induction false} SplitLinesJoin(s: string)
    ensures JoinLines(SplitLines(s)) == s
    ensures |SplitLines(s)| == NewlineCount(s) + 1
    ensures forall k :: 0 <= k < |SplitLines(s)| ==> '\n' !in SplitLines(s)[k]
  {
    if s != [] {
      var rest := SplitLines(s[1..]);
      SplitLinesJoin(s[1..]);
      var lines := SplitLines(s);
      if s[0] == '\n' {
        assert lines[1..] == rest;
        assert JoinLines(lines) == "" + "\n" + JoinLines(rest);
      } else {
        assert lines[1..] == rest[1..];
        if |rest| == 1 {
          assert JoinLines(lines) == [s[0]] + JoinLines(rest);
        } else {
          assert JoinLines(rest) == rest[0] + "\n" + JoinLines(rest[1..]);
          assert JoinLines(lines) == [s[0]] + JoinLines(rest);
        }
        assert '\n' !in [s[0]] + rest[0];
      }
      assert s == [s[0]] + s[1..];
    }
  }

  /** `String.prototype.trimStart`. */
  function TrimStart(s: string): string
  {
    if s != [] && IsWhiteSpace(s[0]) then TrimStart(s[1..]) else s
  }

  /** `String.prototype.trimEnd`. */
  function TrimEnd(s: string): string
  {
    if s != [] && IsWhiteSpace(s[|s| - 1]) then TrimEnd(s[..|s| - 1]) else s
  }

  /** `String.prototype.trim`. */
  function Trim(s: string): string
  {
    TrimEnd(TrimStart(s))
  }

  lemma {:induction false} TrimStartFacts(s: string)
    ensures TrimStart(s) == [] <==> AllWhiteSpace(s)
    ensures TrimStart(s) != [] ==> !IsWhiteSpace(TrimStart(s)[0])
  {
    if s != [] && IsWhiteSpace(s[0]) {
      TrimStartFacts(s[1..]);
      assert AllWhiteSpace(s[1..]) ==> AllWhiteSpace(s) by {
        if AllWhiteSpace(s[1..]) {
          forall i | 0 <= i < |s| ensures IsWhiteSpace(s[i]) {
            if i > 0 { assert s[i] == s[1..][i - 1]; }
          }
        }
      }
    }
  }

  lemma {:induction false} TrimEndFacts(s: string)
    ensures TrimEnd(s) == [] <==> AllWhiteSpace(s)
  {
    if s != [] && IsWhiteSpace(s[|s| - 1]) {
      TrimEndFacts(s[..|s| - 1]);
      assert AllWhiteSpace(s[..|s| - 1]) ==> AllWhiteSpace(s) by {
        if AllWhiteSpace(s[..|s| - 1]) {
          forall i | 0 <= i < |s| ensures IsWhiteSpace(s[i]) {
            if i < |s| - 1 { assert s[i] == s[..|s| - 1][i]; }
          }
        }
      }
    }
  }

  /** `line.trim().length > 0` holds exactly when the line has a character
      outside `\s`. */
  lemma TrimEmptyIffBlank(line: string)
    ensures |Trim(line)| == 0 <==> AllWhiteSpace(line)
  {
    TrimStartFacts(line);
    TrimEndFacts(TrimStart(line));
  }

  lemma {:induction false} NonWhiteSpaceEmptyIffBlank(s: string)
    ensures NonWhiteSpace(s) == [] <==> AllWhiteSpace(s)
  {
    if s != [] {
      NonWhiteSpaceEmptyIffBlank(s[1..]);
      assert AllWhiteSpace(s) <==> IsWhiteSpace(s[0]) && AllWhiteSpace(s[1..]) by {
        if IsWhiteSpace(s[0]) && AllWhiteSpace(s[1..]) {
          forall i | 0 <= i < |s| ensures IsWhiteSpace(s[i]) {
            if i > 0 { assert s[i] == s[1..][i - 1]; }
          }
        }
      }
    }
  }

  /** The number of lines that are not blank. */
  function CountNonBlank(lines: seq<string>): (n: nat)
    ensures n <= |lines|
  {
    if lines == [] then 0
    else (if |Trim(lines[0])| > 0 then 1 else 0) + CountNonBlank(lines[1..])
  }

  /** `markdown.replace(/\s/g, '').length`, in UTF-16 code units. */
  function CharCount(markdown: string): nat
  {
    JsLength(NonWhiteSpace(markdown))
  }

  /** `lines.filter(line => line.trim().length > 0).length`. */
  function ParagraphCount(markdown: string): nat
  {
    CountNonBlank(SplitLines(markdown))
  }

  /** `Math.ceil(charCount / 500)`. */
  function ReadTime(charCount: nat): nat
  {
    (charCount + 499) / 500
  }

  /** The counts of `updateStats` for a text. */
  datatype Counts = Counts(charCount: nat, paragraphCount: nat, readTime: nat)

  function UpdateStats(markdown: string): Counts
  {
    var chars := CharCount(markdown);
    Counts(chars, ParagraphCount(markdown), ReadTime(chars))
  }

  /** Reading time is the number of started 500-character minutes. */
  lemma ReadTimeBounds(charCount: nat)
    ensures 500 * ReadTime(charCount) >= charCount
    ensures charCount > 0 ==> 500 * (ReadTime(charCount) - 1) < charCount
    ensures ReadTime(charCount) == 0 <==> charCount == 0
  {
  }

  /** At most one paragraph per line. */
  lemma ParagraphsAtMostLines(markdown: string)
    ensures ParagraphCount(markdown) <= NewlineCount(markdown) + 1
  {
    SplitLinesJoin(markdown);
  }

  lemma {:induction false} NoParagraphsIffBlank(s: string)
    ensures ParagraphCount(s) == 0 <==> AllWhiteSpace(s)
  {
    if s == [] {
      assert SplitLines(s) == [""];
      TrimEmptyIffBlank("");
    } else {
      var rest := SplitLines(s[1..]);
      var lines := SplitLines(s);
      NoParagraphsIffBlank(s[1..]);
      assert AllWhiteSpace(s) <==> IsWhiteSpace(s[0]) && AllWhiteSpace(s[1..]) by {
        if IsWhiteSpace(s[0]) && AllWhiteSpace(s[1..]) {
          forall i | 0 <= i < |s| ensures IsWhiteSpace(s[i]) {
            if i > 0 { assert s[i] == s[1..][i - 1]; }
          }
        }
      }
      if s[0] == '\n' {
        assert lines[1..] == rest;
        TrimEmptyIffBlank("");
      } else {
        var first := [s[0]] + rest[0];
        assert lines[1..] == rest[1..];
        TrimEmptyIffBlank(first);
        TrimEmptyIffBlank(rest[0]);
        assert AllWhiteSpace(first) <==> IsWhiteSpace(s[0]) && AllWhiteSpace(rest[0]) by {
          if IsWhiteSpace(s[0]) && AllWhiteSpace(rest[0]) {
            forall i | 0 <= i < |first| ensures IsWhiteSpace(first[i]) {
              if i > 0 { assert first[i] == rest[0][i - 1]; }
            }
          }
        }
        SplitLinesJoin(s[1..]);
        assert AllWhiteSpace(s[1..]) ==> AllWhiteSpace(rest[0]) by {
          if AllWhiteSpace(s[1..]) && ParagraphCount(s[1..]) == 0 {
            assert CountNonBlank(rest) == 0;
          }
        }
      }
    }
  }

  /** The paragraph count is zero exactly when the character count is: both
      vanish on a text made only of white space. */
  lemma NoParagraphsIffNoCharacters(markdown: string)
    ensures ParagraphCount(markdown) == 0 <==> CharCount(markdown) == 0
  {
    NoParagraphsIffBlank(markdown);
    NonWhiteSpaceEmptyIffBlank(markdown);
    assert CodeUnits([]) == [];
  }

  /** Replacing a middle part by one with the same non-white-space text keeps
      the non-white-space text of the whole. */
  lemma ReplaceKeepsNonWhiteSpace(a: string, x: string, y: string, b: string)
    requires NonWhiteSpace(x) == NonWhiteSpace(y)
    ensures NonWhiteSpace(a + x + b) == NonWhiteSpace(a + y + b)
  {
    NonWhiteSpaceAppend(a + x, b);
    NonWhiteSpaceAppend(a, x);
    NonWhiteSpaceAppend(a + y, b);
    NonWhiteSpaceAppend(a, y);
  }

  /** A splice whose inserted text has the non-white-space text of the
      selection it replaces keeps the non-white-space text of the whole. */
  lemma SpliceKeepsNonWhiteSpace(text: string, start: int, end: int, inserted: string)
    requires 0 <= start <= end <= |text|
    requires NonWhiteSpace(inserted) == NonWhiteSpace(text[start..end])
    ensures NonWhiteSpace(Markdown.Splice(text, start, end, inserted)) == NonWhiteSpace(text)
  {
    assert Markdown.Splice(text, start, end, inserted) == text[..start] + inserted + text[end..];
    ReplaceKeepsNonWhiteSpace(text[..start], inserted, text[start..end], text[end..]);
    assert text[..start] + text[start..end] + text[end..] == text;
  }

  /** Tab and Shift+Tab change no character count, hence no reading time. */
  lemma TabKeepsCharCount(text: string, start: int, end: int, shift: bool)
    requires 0 <= start <= end <= |text|
    ensures CharCount(Markdown.TabKey(text, start, end, shift).text) == CharCount(text)
  {
    var sel := text[start..end];
    var inserted := if shift then Markdown.Outdent(sel) else Markdown.Indent(sel);
    Markdown.TabKeepsOutside(text, start, end, shift);
    SpliceKeepsNonWhiteSpace(text, start, end, inserted);
    assert Markdown.TabKey(text, start, end, shift).text == Markdown.Splice(text, start, end, inserted);
  }
}
