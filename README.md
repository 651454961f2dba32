# A verified model of the markdown editor's editing and persistence logic

The repository is a browser markdown editor for WeChat official-account
articles. This project models the logic of its `script.js` with the browser
removed:

- the text edits the editor applies to its markdown text and selection
  `[start, end)`:
  - the toolbar's markup table and `wrapSelection`;
  - link and image insertion;
  - the Ctrl/Meta shortcuts;
  - Tab indentation and Shift+Tab outdentation, whose regular-expression
    replaces are written out character by character;
- the statistics under the editor: characters, paragraphs and reading time;
- the text of the markdown export;
- `simpleHash`, the 32-bit polynomial content hash;
- the editing session: the fields, the key-value store standing in for
  `localStorage`, the fingerprint-gated save, the debounced autosave, loading,
  the capped list of saved versions, clearing and the theme.

Modules, one per concern:

- `JsText`: the JavaScript string and number semantics the code relies on.
  - the `\s` class and the line terminators;
  - `substring` with its argument clamping and swapping;
  - `||` on strings;
  - ToInt32;
  - `Number.prototype.toString` on integers;
  - UTF-16 code units.
- `Document`: the article (text, title, author) and the `未命名文章` default
  title.
- `Markdown`: every text edit, as a function returning the new text and
  whether the edit re-renders and arms the autosave.
- `Stats`: the counts of `updateStats`.
- `Export`: `exportMarkdown`'s text and file name.
- `ContentHash`: `simpleHash`.
  - The hash is specified as a fold over code units.
  - The loop of the source is a method proved against that fold.
- `Versions`: the version list, as pure functions on a sequence.
- `Persistence`: the commit and the load, as pure functions on the store.
- `Editor`: the class `Session`, which holds the state the source keeps in
  module variables and DOM inputs.
  - Its methods change that state in place.
  - Each method's contract ties the new state to the functions above.

Dialog answers (`prompt`, `confirm`), the clock (`Date.now()`) and the
display timestamp (`toLocaleString`) are parameters. A cancelled `prompt`
is `None`.

Where the code and its intended behaviour part, the model follows the code:

- `table` has no entry in the markup table, so the toolbar's table button
  does nothing. The template branch is dead.
- `divider` keeps the selected text after the rule.
- An empty selection gets prefix and suffix with nothing between them. No
  placeholder is inserted.
- No code sets the cursor or the selection after an edit. Assigning the
  editor's value puts the cursor at the end of the text; the model does not
  track this, since the selection is a parameter of each edit.
- Tab re-renders but does not arm the autosave.
- The title and author inputs arm the autosave.
- Shift+Tab matches `^(\s*)` under the `m` flag. Since `\s` contains the
  line terminators, one match can span several lines. It then removes the
  last two characters of the whole run, swallowing blank lines and stripping
  tabs as readily as spaces (`Markdown.OutdentQuirks`).

## Model

| member | source | states |
|---|---|---|
| JsText.NonWhiteSpace | script.js:151 | `replace(/\s/g, '')` keeps no white-space character and never lengthens the text |
| JsText.NonWhiteSpaceAppend | script.js:151 | removing white space distributes over concatenation |
| JsText.Substring | script.js:170 | `substring` inside the bounds is the slice; clamped arguments never read outside the text |
| JsText.OrElse | script.js:175 | `s \|\| fallback` is `s` when `s` is not empty, and the fallback when it is |
| JsText.PromptOr | script.js:187-188 | a non-empty dialog answer is used, a cancelled or empty one gives the default |
| JsText.ToInt32 | script.js:415-416 | the result is in the signed 32-bit range and congruent to the argument modulo 2^32 |
| JsText.ToInt32Congruent | script.js:415-416 | ToInt32 depends only on the residue modulo 2^32 |
| JsText.IntToStringRoundTrip | script.js:418 | the decimal string of the hash reads back as the hash |
| JsText.IntToStringInjective | script.js:374 | two hash strings are equal exactly when the hash values are |
| JsText.CodeUnits | script.js:413-414 | `charCodeAt` sees at least one code unit per character, each below 2^16 |
| Document.DisplayTitle | script.js:486 | the export and version title is never empty: the title itself when that is not empty, `未命名文章` when it is |
| Markdown.SpliceLayout | script.js:176 | a splice keeps the text before and after the selection, puts the insertion between, and the original is recoverable |
| Markdown.TableHasNoSyntax | script.js:97-114 | the markup table has no `table` entry |
| Markdown.UnknownActionIsNoOp | script.js:165-166 | an action without markup, `table` included, leaves the text and neither renders nor autosaves |
| Markdown.WrapInsertsMarkup | script.js:206-212 | a table action replaces the selection by prefix, selection and suffix, keeps the rest, renders and autosaves |
| Markdown.EmptySelectionInsertsMarkupOnly | script.js:206-208 | an empty selection gets exactly prefix then suffix |
| Markdown.DividerKeepsSelection | script.js:113 | the divider inserts its rule before the selection and keeps the selected text |
| Markdown.WrapTwiceNests | script.js:206-208 | wrapping is not a toggle: wrapping the whole text twice nests the markup |
| Markdown.LinkReplacesSelection | script.js:172-177 | with an address, the selection becomes `[selection or 链接文字](address)`; the table's `](url)` is unused |
| Markdown.LinkCancelledKeepsText | script.js:172-177 | a cancelled or empty address keeps the text, yet renders and autosaves |
| Markdown.ImageButtonDefersInsertion | script.js:178-197 | the image button alone changes no text |
| Markdown.IndexOf | script.js:188 | the first position of a character: it is there and not before |
| Markdown.DataUrlPayload | script.js:188 | `split(',')[1]` of `header,payload` is the payload |
| Markdown.UploadedImageMarkup | script.js:183-190 | an uploaded image replaces the selection by `![description or 图片](data:image;base64,payload)` |
| Markdown.InsertImage | script.js:348-356 | a pasted image replaces the selection by `![图片](src)`, renders and autosaves |
| Markdown.IndentRestAppend | script.js:307 | indentation distributes over concatenation |
| Markdown.IndentRestSingleLine | script.js:307 | text without line terminators gets no inner indentation |
| Markdown.IndentInsertsAfterTerminators | script.js:307 | Tab puts two spaces at the start and right after each line terminator, nothing else |
| Markdown.IndentRestNonWhiteSpace | script.js:307 | the spaces Tab inserts are the only characters it adds, so the non-white-space text is unchanged |
| Markdown.IndentMeasure | script.js:307 | Tab adds two characters per line and keeps the non-white-space text |
| Markdown.LeadingWhiteSpace | script.js:305 | the `\s*` run at the start: all white space, followed by a non-white-space character or the end |
| Markdown.LeadingWhiteSpaceOfRun | script.js:305 | the run at the start of white space followed by non-white space is exactly that white space |
| Markdown.DropLastTwo | script.js:305 | `slice(0, -2)` drops the last two characters, or all of a shorter run |
| Markdown.OutdentAtLineStartSplit | script.js:305 | at a line start the whole white-space run is matched, loses its last two characters, and scanning goes on after it |
| Markdown.OutdentMeasure | script.js:305 | Shift+Tab never lengthens the text and removes only white space |
| Markdown.OutdentIndentAtLineStart | script.js:305-307 | from a line start, outdent undoes indent on text whose lines are indented with spaces only and which has no blank or white-space-only line before the last |
| Markdown.OutdentUndoesIndent | script.js:305-307 | Shift+Tab after Tab restores any text whose lines are indented with spaces only and which has no blank or white-space-only line before the last |
| Markdown.OutdentUndoesIndentOnOneLine | script.js:305-307 | on a single line indented with spaces, Tab then Shift+Tab restores it |
| Markdown.OutdentQuirks | script.js:305 | a single leading space is removed, a tab is removed, and a blank line is swallowed with the next indentation |
| Markdown.TabKeepsOutside | script.js:298-311 | Tab changes only the selection, keeps its non-white-space text, renders and does not autosave |
| Markdown.ShortcutAction | script.js:261-296 | every shortcut names a table action other than `image` |
| Markdown.ShortcutWraps | script.js:260-296 | Ctrl, Meta or both with a shortcut key other than K edits exactly as the toolbar button does |
| Markdown.ShortcutLink | script.js:260-278 | Ctrl, Meta or both with K, k or the Kelvin sign edits exactly as the link button does, dialog included |
| Markdown.PlainKeysIgnored | script.js:260-311 | without Ctrl or Meta only Tab is handled |
| Stats.SplitLinesJoin | script.js:149 | `split('\n')` loses nothing, gives one piece more than newlines, and no piece holds a newline |
| Stats.TrimEmptyIffBlank | script.js:152 | `line.trim().length > 0` exactly when the line has a non-white-space character |
| Stats.NonWhiteSpaceEmptyIffBlank | script.js:151 | the character count is zero exactly on white-space-only text |
| Stats.CountNonBlank | script.js:152 | at most one paragraph per line |
| Stats.ReadTimeBounds | script.js:155 | reading time is the number of started 500-character minutes, zero only for no characters |
| Stats.ParagraphsAtMostLines | script.js:149-152 | the paragraph count is at most the line count |
| Stats.NoParagraphsIffBlank | script.js:149-152 | no paragraph exactly when the text is white space only |
| Stats.NoParagraphsIffNoCharacters | script.js:151-152 | the paragraph count is zero exactly when the character count is |
| Stats.ReplaceKeepsNonWhiteSpace | script.js:151 | replacing a part by one with the same non-white-space text keeps the whole's |
| Stats.SpliceKeepsNonWhiteSpace | script.js:151 | a splice that keeps the selection's non-white-space text keeps the whole's |
| Stats.TabKeepsCharCount | script.js:298-311 | Tab and Shift+Tab never change the character count |
| Export.ExportFileName | script.js:495 | the download name is the display title (`未命名文章` for an empty title) followed by `.md` |
| Export.ExportLayout | script.js:485-489 | heading with the title or default, the author line exactly when there is an author, then the text unchanged |
| ContentHash.HashOf | script.js:411-419 | the hash fold stays in the signed 32-bit range |
| ContentHash.ShiftStepIsMultiplyBy31 | script.js:415-416 | `((h << 5) - h) + c` then `& hash` is the step `h := ToInt32(31 * h + c)` |
| ContentHash.SimpleHash | script.js:411-419 | the loop returns the decimal string of the fold over the code units |
| ContentHash.EmptyFingerprint | script.js:411-419 | the empty text hashes to `"0"` |
| ContentHash.FingerprintIsInt32 | script.js:411-419 | every hash string denotes a signed 32-bit integer, the fold's value |
| Persistence.CommitSpec | script.js:367-385 | after a save the hash is the article's; the four keys are written only when it changed, other keys untouched |
| Persistence.CommitIdempotent | script.js:371-385 | a second save of unchanged fields writes nothing |
| Persistence.FieldBoundaryIsInvisible | script.js:372 | moving text across the boundary of two fields goes unnoticed by the save |
| Persistence.StoredOr | script.js:388-395 | a missing or empty stored value leaves the current value |
| Persistence.LoadAfterCommit | script.js:367-409 | a load after a writing save brings back every non-empty field and the hash; when text, title and author are all non-empty, the next save writes nothing |
| Persistence.FingerprintNotEmpty | script.js:418 | a hash string is never empty, so a loaded hash is never the `''` default |
| Versions.PushVersionLayout | script.js:431-432 | the new entry is first, earlier entries follow in order, and only the last is dropped past ten |
| Versions.Take | script.js:432 | the kept prefix has the length of the list capped at ten |
| Versions.PushAllKeepsNewest | script.js:421-436 | a run of saves keeps the ten newest entries, newest first |
| Versions.TakeAppendTake | script.js:431-432 | capping the older part first does not change the capped whole |
| Versions.ElevenSavesKeepTen | script.js:421-436 | eleven saves into an empty list keep the last ten |
| Versions.RemoveVersionsSpec | script.js:479 | deleting removes every entry with the id and no other; the length drops by their number |
| Versions.RemoveVersionsAppend | script.js:479 | entries that stay keep their order |
| Versions.RemoveAbsentId | script.js:479 | deleting an id no entry has changes nothing |
| Versions.FindVersionSpec | script.js:462 | find answers the first entry with the id, and nothing exactly when no entry has it |
| Versions.FindJustSaved | script.js:421-462 | restoring the id of the version just saved finds that version, even when ids repeat |
| Versions.FindAfterRemove | script.js:460-483 | after deleting an id no restore of it finds anything |
| Editor.Session.constructor | script.js:1-9 | a fresh page: the inputs' values, theme `simple`, no remembered hash, nothing pending |
| Editor.Session.TriggerAutoSave | script.js:358-365 | one save is pending with status `保存中...`, nothing else changes |
| Editor.Session.SaveContent | script.js:367-385 | run only with no save pending (it is called from the timer callback alone): the store and hash become the commit of the current fields, status `已自动保存`, and the session stays consistent |
| Editor.Session.TimerFires | script.js:362-364 | a pending save runs on the fields as they are when it fires; with none pending nothing happens |
| Editor.Session.LoadContent | script.js:387-409 | fields, theme and hash become the load of the store |
| Editor.Session.EditorInput | script.js:687-690 | the typed text is current and a save is pending |
| Editor.Session.TitleInput | script.js:695 | the new title is current and a save is pending |
| Editor.Session.AuthorInput | script.js:696 | the new author is current and a save is pending |
| Editor.Session.ApplyEdit | script.js:164-213 | an edit's text becomes current; an edit that asks for a save arms one, and any other edit leaves the timer and the status as they were |
| Editor.Session.SaveVersion | script.js:421-436 | the version list becomes the push of a snapshot of the current fields |
| Editor.Session.RestoreVersion | script.js:460-474 | with a found id and confirmation the fields take the version and a save is pending; otherwise nothing changes |
| Editor.Session.DeleteVersion | script.js:476-483 | with confirmation every entry with the id is removed; otherwise nothing changes |
| Editor.Session.ClearContent | script.js:632-640 | with confirmation the three fields are empty and a save is pending |
| Editor.Session.ChooseTheme | script.js:229-240 | the chosen theme is current and stored under `theme` |
| Editor.Session.ResetTheme | script.js:642-652 | the theme is `simple` and stored |
| Editor.EditsCoalesce | script.js:358-365 | two edits before the timer fires give one save, of the second edit |
| Editor.SaveTwiceWritesOnce | script.js:367-385 | with no save pending, saving twice gives the ledger of saving once and keeps the session consistent |

## Left out

- IndexedDB image storage (`initDB`, `saveImageToDB`, `getImagesFromDB`, `deleteImageFromDB`, `uploadImage`) and `FileReader` are asynchronous browser I/O.
  - An upload is the data URL it produced, or `None` when it failed.
  - A paste is `InsertImage` with the data URL. Paste inserts it whether or not storing succeeded.
- The file picker of the image button is I/O. Its asynchronous completion is `InsertUploadedImage`.
- `syncScroll` is floating-point scroll ratios with a timer-driven flag, so it is left out.
- `marked.parse`, `renderMarkdown` and every `innerHTML` are an external library and the DOM. An edit only reports whether it re-renders.
- `exportPdf` and `exportWechat` are HTML templates around `marked`, a print window and the clipboard.
- The Blob download of `exportMarkdown` is I/O. Its text and file name are modelled.
- Preview mode and the theme's DOM classes and active buttons are presentation. The `theme` store key and the current theme are modelled.
- The `showVersions` HTML, the modal, the event-listener wiring and `alert` are presentation.
- `restoreVersion` and `deleteVersion` receive the `parseInt` of a `data-id` attribute. The model takes that id as a number.
- The cursor position after an edit: assigning `editor.value` moves the cursor to the end of the text, and the next edit's selection is taken as a parameter rather than derived from that.
- `document.execCommand` (undo, redo, the plain-text paste) is browser editing history.
- `imageCount` and `headingCount` of `updateStats` depend on lazy and multiline regular-expression matching, which is not modelled.
- The `versions` store key holds JSON. The model keeps the parsed list as a field.
  - JSON encoding is not modelled.
  - Version entries are assumed to round-trip through it.
- Store writes never fail in the model. `localStorage.setItem` throws when the storage quota is full, which base64 images in the text and full-text versions make plausible.
  - A `saveContent` that throws part-way leaves the status `保存中...`, keeps the old hash and skips the later keys. `Commit` and `Session.SaveContent` do not model this.
  - A `saveVersion` whose write throws stores nothing and shows no confirmation. `Session.SaveVersion` always stores the new list.
  - The same holds for the `theme` key written by `ChooseTheme` and `ResetTheme`.
- The 1000 ms delay is left out, and so are real timers. The timer is the `pending` flag, and its expiry is the `TimerFires` call.
- Selection indices count characters, not UTF-16 code units. For text with characters outside the Basic Multilingual Plane the source's indices differ. Lone surrogates cannot be represented.
- `markdownSyntax[action]` would also find inherited `Object.prototype` members such as `toString`. No toolbar button or shortcut produces such an action, so the table is modelled as a map of its own entries only.
- `Markdown.ShortcutWraps`: Ctrl+K is stated separately, because its result depends on the link dialog. `ShortcutLink` reduces it to the link button, and `LinkReplacesSelection` and `LinkCancelledKeepsText` state what the link button does.
