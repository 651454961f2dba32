/**
 * What the editor keeps in the browser's key-value store: the text, title
 * and author of the article, the fingerprint of the last save, and the
 * theme.  A save writes the four article keys only when the fingerprint
 * changed; a load takes back every stored value that is not empty.
 */
module Persistence {
  import opened Document
  import opened ContentHash

  const ContentKey: string := "markdownContent"
  const TitleKey: string := "articleTitle"
  const AuthorKey: string := "articleAuthor"
  const HashKey: string := "contentHash"
  const ThemeKey: string := "theme"

  /** The theme of a fresh page and of `resetTheme`. */
  const DefaultTheme: string := "simple"

  /** The fingerprint of an article: the hash of text, title and author
      concatenated. */
  function ArticleFingerprint(a: Article): string
  {
    Fingerprint(a.text + a.title + a.author)
  }

  /** The persisted side of the session: the store and `currentHash`. */
  datatype Ledger = Ledger(store: map<string, string>, hash: string)

  /** The store after writing the four article keys. */
  function WriteArticle(store: map<string, string>, a: Article, fingerprint: string): map<string, string>
  {
    store[ContentKey := a.text][TitleKey := a.title][AuthorKey := a.author][HashKey := fingerprint]
  }

  /** `saveContent`: the fingerprint-gated commit of the article. */
  function Commit(l: Ledger, a: Article): Ledger
  {
    var fingerprint := ArticleFingerprint(a);
    if fingerprint != l.hash then Ledger(WriteArticle(l.store, a, fingerprint), fingerprint) else l
  }

  /** After a commit the ledger's hash is the article's fingerprint; the store
      is left as it was when the fingerprint had not changed, and otherwise
      holds the article under the four keys, every other key untouched. */
  lemma CommitSpec(l: Ledger, a: Article)
    ensures var r := Commit(l, a);
      && r.hash == ArticleFingerprint(a)
      && (l.hash == ArticleFingerprint(a) ==> r.store == l.store)
      && (l.hash != ArticleFingerprint(a) ==>
            && r.store.Keys == l.store.Keys + {ContentKey, TitleKey, AuthorKey, HashKey}
            && r.store[ContentKey] == a.text && r.store[TitleKey] == a.title
            && r.store[AuthorKey] == a.author && r.store[HashKey] == ArticleFingerprint(a)
            && forall k :: k in l.store && k !in {ContentKey, TitleKey, AuthorKey, HashKey} ==> r.store[k] == l.store[k])
  {
  }

  /** A second commit of an unchanged article writes nothing. */
  lemma CommitIdempotent(l: Ledger, a: Article)
    ensures Commit(Commit(l, a), a) == Commit(l, a)
  {
  }

  /** The fingerprint sees only the concatenation, so moving text across the
      boundary between two fields goes unnoticed: the commit of such an
      article writes nothing after the commit of the original. */
  lemma FieldBoundaryIsInvisible(l: Ledger, a: Article, b: Article)
    requires a.text + a.title + a.author == b.text + b.title + b.author
    ensures Commit(Commit(l, a), b) == Commit(l, a)
  {
  }

  /** `localStorage.getItem(key)` used under `if (value)`: a missing key and
      an empty value both leave the current value. */
  function StoredOr(store: map<string, string>, key: string, current: string): (r: string)
    ensures key in store && store[key] != "" ==> r == store[key]
    ensures key !in store || store[key] == "" ==> r == current
  {
    if key in store && store[key] != "" then store[key] else current
  }

  /** What `loadContent` produces: the article and theme shown, and the hash
      remembered (`localStorage.getItem('contentHash') || ''`). */
  datatype Loaded = Loaded(article: Article, theme: string, hash: string)

  function Load(store: map<string, string>, current: Article, theme: string): Loaded
  {
    Loaded(
      Article(StoredOr(store, ContentKey, current.text),
              StoredOr(store, TitleKey, current.title),
              StoredOr(store, AuthorKey, current.author)),
      StoredOr(store, ThemeKey, theme),
      StoredOr(store, HashKey, ""))
  }

  /** Saving and loading round-trip: after a commit that wrote, a load on a
      fresh page brings back each non-empty field and the fingerprint, so
      the first save after reloading writes nothing. Empty fields are not
      brought back: the page keeps what it had. */
  lemma LoadAfterCommit(l: Ledger, a: Article, page: Article, theme: string)
    requires l.hash != ArticleFingerprint(a)
    ensures var loaded := Load(Commit(l, a).store, page, theme);
      && loaded.article.text == (if a.text != "" then a.text else page.text)
      && loaded.article.title == (if a.title != "" then a.title else page.title)
      && loaded.article.author == (if a.author != "" then a.author else page.author)
      && loaded.hash == ArticleFingerprint(a)
      && (a.text != "" && a.title != "" && a.author != "" ==>
            loaded.article == a && Commit(Ledger(Commit(l, a).store, loaded.hash), loaded.article).store == Commit(l, a).store)
  {
    FingerprintNotEmpty(a);
  }

  lemma FingerprintNotEmpty(a: Article)
    ensures ArticleFingerprint(a) != ""
  {
  }
}
