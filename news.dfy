/** The news record as the views receive it from the backend, and the status words they compare against. */
module News {
  import opened Wrappers

  const PUBLISHED: string := "published"
  const DISABLED: string := "disabled"
  const EDITING: string := "editing"
  const FINISHED: string := "finished"

  /** The category that stands for "no filter" in the public catalog. */
  const ALL_CATEGORIES: string := "Todas"
  /** The category a fresh editor form starts with. */
  const DEFAULT_CATEGORY: string := "Sociedad"

  /**
   * One row of the "news" collection. The status is kept as the raw string the
   * backend stores: the views compare it with "published" and never parse it.
   */
  datatype NewsItem = NewsItem(
    id: string,
    title: string,
    subtitle: string,
    content: string,
    category: string,
    imageUrl: Option<string>,
    status: string,
    createdAt: string,
    authorId: Option<string>,
    authorName: Option<string>)

  /** What a select on the backend hands back: an error, or `data` (which may be null). */
  datatype QueryResult<T> = QueryOk(data: Option<T>) | QueryFailed(message: string)
}
