/**
 * The article being edited: the markdown text of the editor and the values
 * of the title and author inputs.
 */
module Document {
  import opened JsText

  datatype Article = Article(text: string, title: string, author: string)

  /** The title used when the title input is empty (export and saved versions). */
  const Untitled: string := "未命名文章"

  /** `articleTitle.value || '未命名文章'`. */
  function DisplayTitle(title: string): (t: string)
    ensures t != ""
    ensures title != "" ==> t == title
    ensures title == "" ==> t == Untitled
  {
    OrElse(title, Untitled)
  }
}
