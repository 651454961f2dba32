/**
 * The editing session: the values of the editor and of the title and author
 * inputs, the theme, the fingerprint of the last save, the key-value store,
 * the saved versions, and the autosave timer with its status line.
 *
 * The autosave is a trailing-edge debounce: every change re-arms one timer
 * (`TriggerAutoSave`), and when it fires (`TimerFires`) the fields as they
 * are at that moment are committed.  Dialog answers, the clock and the
 * display timestamp are parameters.
 */
module Editor {
  import opened JsText
  import opened Document
  import opened ContentHash
  import opened Persistence
  import opened Versions
  import Markdown

  /** The status line while a save is pending. */
  const SavingStatus: string := "保存中..."

  /** The status line after the timer fired. */
  const SavedStatus: string := "已自动保存"

  class Session {
    var text: string
    var title: string
    var author: string
    var theme: string
    var currentHash: string
    /** The string keys of `localStorage` other than `versions`. */
    var store: map<string, string>
    /** The parsed value of the `versions` key (`[]` when it is missing). */
    var versions: seq<Version>
    /** Whether the autosave timer is armed. */
    var pending: bool
    var status: string
    /** How many times the timer has fired and run a save. */
    ghost var saves: nat

    /** While a save is pending the status line says so. */
    ghost predicate Valid()
      reads this
    {
      pending ==> status == SavingStatus
    }

    function Current(): Article
      reads this
    {
      Article(text, title, author)
    }

    function Persisted(): Ledger
      reads this
    {
      Ledger(store, currentHash)
    }

    /** The page as loaded, before `loadContent`: the inputs hold the page's
        initial values, the store what earlier sessions left. */
    constructor (pageText: string, pageTitle: string, pageAuthor: string,
                 stored: map<string, string>, storedVersions: seq<Version>)
      ensures Valid()
      ensures Current() == Article(pageText, pageTitle, pageAuthor)
      ensures theme == DefaultTheme && currentHash == ""
      ensures store == stored && versions == storedVersions
      ensures !pending && status == "" && saves == 0
    {
      text, title, author := pageText, pageTitle, pageAuthor;
      theme := DefaultTheme;
      currentHash := "";
      store := stored;
      versions := storedVersions;
      pending := false;
      status := "";
      saves := 0;
    }

    /** `triggerAutoSave`: cancel any armed timer, show the saving status and
        arm the timer again.  However often it runs, one save is pending. */
    method TriggerAutoSave()
      modifies this
      ensures Valid() && pending && status == SavingStatus
      ensures Current() == old(Current()) && Persisted() == old(Persisted())
      ensures theme == old(theme) && versions == old(versions) && saves == old(saves)
    {
      pending := true;
      status := SavingStatus;
    }

    /** `saveContent`: hash the concatenated fields; when the hash differs
        from the remembered one write the four keys and remember it; in both
        cases report the content saved. */
    method SaveContent()
      requires !pending
      modifies this
      ensures Valid()
      ensures Persisted() == Commit(old(Persisted()), old(Current()))
      ensures status == SavedStatus
      ensures Current() == old(Current()) && theme == old(theme) && versions == old(versions)
      ensures pending == old(pending) && saves == old(saves)
    {
      var article := Current();
      var hash := SimpleHash(article.text + article.title + article.author);
      if hash != currentHash {
        store := WriteArticle(store, article, hash);
        currentHash := hash;
      }
      status := SavedStatus;
    }

    /** The autosave timer expires: the pending save runs with the fields as
        they are now.  With no timer armed nothing happens. */
    method TimerFires()
      requires Valid()
      modifies this
      ensures Valid()
      ensures old(pending) ==>
        && !pending && status == SavedStatus && saves == old(saves) + 1
        && Persisted() == Commit(old(Persisted()), old(Current()))
      ensures !old(pending) ==>
        && !pending && status == old(status) && saves == old(saves) && Persisted() == old(Persisted())
      ensures Current() == old(Current()) && theme == old(theme) && versions == old(versions)
    {
      if pending {
        pending := false;
        SaveContent();
        saves := saves + 1;
      }
    }

    /** `loadContent`: take back every non-empty stored field and theme, and
        remember the stored hash (or `''`). */
    method LoadContent()
      modifies this
      ensures var loaded := Load(old(store), old(Current()), old(theme));
        Current() == loaded.article && theme == loaded.theme && currentHash == loaded.hash
      ensures store == old(store) && versions == old(versions)
      ensures pending == old(pending) && status == old(status) && saves == old(saves)
    {
      text := StoredOr(store, ContentKey, text);
      title := StoredOr(store, TitleKey, title);
      author := StoredOr(store, AuthorKey, author);
      theme := StoredOr(store, ThemeKey, theme);
      currentHash := StoredOr(store, HashKey, "");
    }

    /** The editor's `input` event: the typed text, a render and an autosave. */
    method EditorInput(newText: string)
      modifies this
      ensures Valid() && pending && status == SavingStatus
      ensures Current() == Article(newText, old(title), old(author))
      ensures Persisted() == old(Persisted()) && theme == old(theme) && versions == old(versions) && saves == old(saves)
    {
      text := newText;
      TriggerAutoSave();
    }

    /** The title input's `input` event. */
    method TitleInput(newTitle: string)
      modifies this
      ensures Valid() && pending && status == SavingStatus
      ensures Current() == Article(old(text), newTitle, old(author))
      ensures Persisted() == old(Persisted()) && theme == old(theme) && versions == old(versions) && saves == old(saves)
    {
      title := newTitle;
      TriggerAutoSave();
    }

    /** The author input's `input` event. */
    method AuthorInput(newAuthor: string)
      modifies this
      ensures Valid() && pending && status == SavingStatus
      ensures Current() == Article(old(text), old(title), newAuthor)
      ensures Persisted() == old(Persisted()) && theme == old(theme) && versions == old(versions) && saves == old(saves)
    {
      author := newAuthor;
      TriggerAutoSave();
    }

    /** Applies an edit of the toolbar, the keyboard or an image insertion:
        the editor takes the new text, and the autosave is armed when the
        edit asks for it (Tab does not). */
    method ApplyEdit(r: Markdown.EditResult)
      requires Valid()
      modifies this
      ensures Valid()
      ensures Current() == Article(r.text, old(title), old(author))
      ensures r.autosave ==> pending && status == SavingStatus
      ensures !r.autosave ==> pending == old(pending) && status == old(status)
      ensures Persisted() == old(Persisted()) && theme == old(theme) && versions == old(versions) && saves == old(saves)
    {
      text := r.text;
      if r.autosave {
        TriggerAutoSave();
      }
    }

    /** `saveVersion`: put a snapshot of the article first in the list,
        dropping the oldest entry past ten.  `now` is `Date.now()`,
        `timestamp` the display time. */
    method SaveVersion(now: int, timestamp: string)
      modifies this
      ensures versions == PushVersion(old(versions), NewVersion(Current(), now, timestamp))
      ensures Current() == old(Current()) && Persisted() == old(Persisted()) && theme == old(theme)
      ensures pending == old(pending) && status == old(status) && saves == old(saves)
    {
      var version := Version(now, OrElse(title, Untitled), text, author, timestamp);
      var updated := [version] + versions;
      if |updated| > MaxVersions {
        updated := updated[..|updated| - 1];
      }
      versions := updated;
    }

    /** `restoreVersion`: when an entry has the id and the user confirms, the
        fields take the entry's content, title and author and the autosave is
        armed; a missing id does nothing, without asking. */
    method RestoreVersion(id: int, confirmed: bool)
      requires Valid()
      modifies this
      ensures Valid()
      ensures var found := FindVersion(old(versions), id);
        if found.Some? && confirmed then
          && Current() == Article(found.value.content, found.value.title, found.value.author)
          && pending && status == SavingStatus
        else
          Current() == old(Current()) && pending == old(pending) && status == old(status)
      ensures Persisted() == old(Persisted()) && versions == old(versions) && theme == old(theme) && saves == old(saves)
    {
      var found := FindVersion(versions, id);
      if found.Some? {
        if confirmed {
          text, title, author := found.value.content, found.value.title, found.value.author;
          TriggerAutoSave();
        }
      }
    }

    /** `deleteVersion`: when confirmed, drop every entry with the id. */
    method DeleteVersion(id: int, confirmed: bool)
      modifies this
      ensures versions == if confirmed then RemoveVersions(old(versions), id) else old(versions)
      ensures Current() == old(Current()) && Persisted() == old(Persisted()) && theme == old(theme)
      ensures pending == old(pending) && status == old(status) && saves == old(saves)
    {
      if confirmed {
        versions := RemoveVersions(versions, id);
      }
    }

    /** `clearContent`: when confirmed, empty the three fields and arm the autosave. */
    method ClearContent(confirmed: bool)
      requires Valid()
      modifies this
      ensures Valid()
      ensures confirmed ==> Current() == Article("", "", "") && pending && status == SavingStatus
      ensures !confirmed ==> Current() == old(Current()) && pending == old(pending) && status == old(status)
      ensures Persisted() == old(Persisted()) && versions == old(versions) && theme == old(theme) && saves == old(saves)
    {
      if confirmed {
        text, title, author := "", "", "";
        TriggerAutoSave();
      }
    }

    /** `handleThemeClick`, as far as state goes: the chosen theme is current
        and stored. */
    method ChooseTheme(name: string)
      modifies this
      ensures theme == name && store == old(store)[ThemeKey := name] && currentHash == old(currentHash)
      ensures Current() == old(Current()) && versions == old(versions)
      ensures pending == old(pending) && status == old(status) && saves == old(saves)
    {
      theme := name;
      store := store[ThemeKey := name];
    }

    /** `resetTheme`: back to the default theme, stored. */
    method ResetTheme()
      modifies this
      ensures theme == DefaultTheme && store == old(store)[ThemeKey := DefaultTheme] && currentHash == old(currentHash)
      ensures Current() == old(Current()) && versions == old(versions)
      ensures pending == old(pending) && status == old(status) && saves == old(saves)
    {
      ChooseTheme(DefaultTheme);
    }
  }

  /** Two edits before the timer fires give one save, of the second edit. */
  method EditsCoalesce(s: Session, first: string, second: string)
    requires s.Valid()
    modifies s
    ensures s.Valid() && !s.pending && s.status == SavedStatus
    ensures s.saves == old(s.saves) + 1
    ensures s.Current() == Article(second, old(s.title), old(s.author))
    ensures s.Persisted() == Commit(old(s.Persisted()), Article(second, old(s.title), old(s.author)))
  {
    s.EditorInput(first);
    s.EditorInput(second);
    s.TimerFires();
  }

  /** A second firing right after a save finds nothing pending, and a second
      save of unchanged fields writes nothing. */
  method SaveTwiceWritesOnce(s: Session)
    requires !s.pending
    modifies s
    ensures s.Valid() && !s.pending
    ensures s.Persisted() == Commit(old(s.Persisted()), old(s.Current()))
    ensures s.Current() == old(s.Current()) && s.status == SavedStatus
  {
    s.SaveContent();
    s.SaveContent();
    CommitIdempotent(old(s.Persisted()), s.Current());
  }
}
