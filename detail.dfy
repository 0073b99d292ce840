/**
 * The public detail page (cms-noticias/src/NewsDetails.tsx): one record
 * fetched by the route's id, shown only when its status is "published".
 */
module Detail {
  import opened Wrappers
  import opened News

  const MSG_NOT_FOUND: string := "No se encontró la noticia o fue eliminada."
  const MSG_NOT_PUBLIC: string := "Esta noticia no está disponible públicamente."

  /** The answer of the single-row query by id: an error (including "no such row"), or the row. */
  datatype FetchOutcome = FetchFailed(message: string) | Fetched(item: NewsItem)

  /** What the page renders. Only `Article` shows a record's title, content and images. */
  datatype Page = LoadingText | ErrorPanel(message: string) | Blank | Article(item: NewsItem)

  /** `!id`: no route parameter, or an empty one. */
  predicate MissingId(id: Option<string>): (r: bool)
    ensures !r ==> id.Some? && |id.value| > 0
    ensures id == Some("") ==> r
    ensures id.Some? && id.value != "" ==> !r
  {
    id.None? || id.value == ""
  }

  /** The render's fixed precedence: loading, then error, then no record, then the article. */
  function Render(loading: bool, error: string, news: Option<NewsItem>): (p: Page)
    ensures p.LoadingText? <==> loading
    ensures p.ErrorPanel? <==> !loading && error != ""
    ensures p.ErrorPanel? ==> p.message == error
    ensures p.Blank? <==> !loading && error == "" && news.None?
    ensures p.Article? <==> !loading && error == "" && news.Some?
    ensures p.Article? ==> news == Some(p.item)
  {
    if loading then LoadingText
    else if error != "" then ErrorPanel(error)
    else if news.None? then Blank
    else Article(news.value)
  }

  /**
   * A non-empty error hides whatever record is stored, including one left
   * over from an earlier id: the page is the same whatever `news` holds.
   */
  lemma ErrorHidesStaleRecord(error: string, stale: Option<NewsItem>, other: Option<NewsItem>)
    requires error != ""
    ensures Render(false, error, stale) == Render(false, error, other) == ErrorPanel(error)
  {
  }

  /** The page a completed fetch leads to, decided by the outcome alone. */
  function PageAfterFetch(outcome: FetchOutcome): (p: Page)
    ensures p.Article? ==> outcome == Fetched(p.item) && p.item.status == PUBLISHED
    ensures outcome.FetchFailed? ==> p == ErrorPanel(MSG_NOT_FOUND)
    ensures outcome.Fetched? && outcome.item.status != PUBLISHED ==> p == ErrorPanel(MSG_NOT_PUBLIC)
    ensures outcome.Fetched? && outcome.item.status == PUBLISHED ==> p == Article(outcome.item)
  {
    match outcome
    case FetchFailed(_) => ErrorPanel(MSG_NOT_FOUND)
    case Fetched(n) => if n.status == PUBLISHED then Article(n) else ErrorPanel(MSG_NOT_PUBLIC)
  }

  /** The component state of the detail page. */
  class DetailPage {
    var news: Option<NewsItem>
    var loading: bool
    var error: string

    /** Only a published record is ever stored. */
    ghost predicate Valid()
      reads this
    {
      news.Some? ==> news.value.status == PUBLISHED
    }

    /** cms-noticias/src/NewsDetails.tsx lines 19-21: no record, loading, no error. */
    constructor ()
      ensures Valid() && news.None? && loading && error == ""
      ensures Shown() == LoadingText
    {
      news := None;
      loading := true;
      error := "";
    }

    /** What the page shows for the current state. */
    function Shown(): (p: Page)
      reads this
      requires Valid()
      ensures p.Article? ==> p.item.status == PUBLISHED
    {
      Render(loading, error, news)
    }

    /**
     * cms-noticias/src/NewsDetails.tsx lines 24-45: without an id nothing
     * happens; otherwise the error is
     * cleared, the outcome decides the error message or the stored record, and
     * loading ends. A record that is not published is never stored.
     */
    method FetchNews(id: Option<string>, outcome: FetchOutcome)
      requires Valid()
      modifies this
      ensures Valid()
      ensures MissingId(id) ==> news == old(news) && loading == old(loading) && error == old(error)
      ensures !MissingId(id) ==> !loading && Shown() == PageAfterFetch(outcome)
      ensures !MissingId(id) ==>
        match outcome
        case FetchFailed(_) => error == MSG_NOT_FOUND && news == old(news)
        case Fetched(n) =>
          if n.status == PUBLISHED then error == "" && news == Some(n)
          else error == MSG_NOT_PUBLIC && news == old(news)
    {
      if MissingId(id) {
        return;
      }
      loading := true;
      error := "";
      match outcome {
        case FetchFailed(_) =>
          error := MSG_NOT_FOUND;
        case Fetched(n) =>
          if n.status != PUBLISHED {
            error := MSG_NOT_PUBLIC;
          } else {
            news := Some(n);
          }
      }
      loading := false;
    }
  }

  /** Opening the page without an id: no fetch runs, so only the loading text is ever shown. */
  method OpenWithoutId(outcome: FetchOutcome) returns (p: Page)
    ensures p == LoadingText
  {
    var page := new DetailPage();
    page.FetchNews(None, outcome);
    p := page.Shown();
  }

  /**
   * Visiting a published record and then one that is not published: the
   * first stays stored, yet the second visit shows only the message.
   */
  method VisitPublishedThenHidden(a: NewsItem, b: NewsItem) returns (first: Page, second: Page, stored: Option<NewsItem>)
    requires a.status == PUBLISHED && b.status != PUBLISHED
    ensures first == Article(a)
    ensures second == ErrorPanel(MSG_NOT_PUBLIC)
    ensures stored == Some(a)
  {
    var page := new DetailPage();
    page.FetchNews(Some("first-id"), Fetched(a));
    first := page.Shown();
    page.FetchNews(Some("second-id"), Fetched(b));
    second := page.Shown();
    stored := page.news;
  }
}
