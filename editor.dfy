/**
 * The news management form (cms-noticias/src/NewsFrom.tsx): one record editor
 * that is either creating (no `editing` record) or editing a remembered
 * record, the list of the author's (or, for an administrator, everybody's)
 * news, and the toggle and delete actions on that list.
 */
module Editor {
  import opened Wrappers
  import opened News
  import opened ImageUrls

  const MSG_UPDATED: string := "✅ Noticia actualizada correctamente"
  const MSG_CREATED: string := "✅ Noticia creada correctamente"
  const MSG_ERROR_PREFIX: string := "❌ Error: "
  const MSG_DELETED: string := "🗑 Noticia eliminada correctamente"
  const MSG_STATUS_PREFIX: string := "🔄 Estado cambiado a "
  const LABEL_PUBLIC: string := "Pública"
  const LABEL_HIDDEN: string := "Oculta"
  /** The author name stamped when the user has no e-mail. */
  const DEFAULT_AUTHOR_NAME: string := "Usuario"

  /** The signed-in user, as far as the form uses it. */
  datatype User = User(id: string, email: Option<string>)

  /** Which rows the list query asks for. */
  datatype ListFilter = AllNews | ByAuthor(authorId: Option<string>)

  /** The columns that the submit writes from the form. */
  datatype Fields = Fields(
    title: string,
    subtitle: string,
    content: string,
    category: string,
    imageUrl: Option<string>,
    status: string)

  /** The write that the submit issues to the backend. */
  datatype WriteRequest =
    | Insert(fields: Fields, authorId: Option<string>, authorName: string)
    | Update(id: string, fields: Fields, scopeAuthorId: Option<string>)

  /** The writes the list's buttons issue: by record id alone, with no author scope. */
  datatype ListAction = SetStatus(id: string, status: string) | Delete(id: string)

  /** The part of the component state that the form edits. Selected files are kept by name. */
  datatype FormState = FormState(
    title: string,
    subtitle: string,
    content: string,
    category: string,
    images: Option<seq<string>>,
    status: string,
    editing: Option<NewsItem>)

  /** The form as it starts and as every reset leaves it. */
  const INITIAL_FORM: FormState :=
    FormState("", "", "", DEFAULT_CATEGORY, None, PUBLISHED, None)

  /** The status the list's publish/hide button writes. */
  function ToggledStatus(current: string): (r: string)
    ensures r == DISABLED <==> current == PUBLISHED
    ensures r == PUBLISHED <==> current != PUBLISHED
  {
    if current == PUBLISHED then DISABLED else PUBLISHED
  }

  /** Toggling twice gives the status back exactly for the two visibility statuses. */
  lemma ToggleTwice(s: string)
    ensures ToggledStatus(ToggledStatus(s)) == s <==> s == PUBLISHED || s == DISABLED
  {
  }

  /** The message after a successful toggle. */
  function ToggleMessage(newStatus: string): (r: string)
    ensures r == MSG_STATUS_PREFIX + LABEL_PUBLIC <==> newStatus == PUBLISHED
    ensures r == MSG_STATUS_PREFIX + LABEL_HIDDEN <==> newStatus != PUBLISHED
  {
    MSG_STATUS_PREFIX + if newStatus == PUBLISHED then LABEL_PUBLIC else LABEL_HIDDEN
  }

  /** The status the form takes from a record being edited: only "disabled" stays hidden. */
  function FormStatusOf(recordStatus: string): (r: string)
    ensures r == PUBLISHED || r == DISABLED
    ensures r == DISABLED <==> recordStatus == DISABLED
  {
    if recordStatus == DISABLED then DISABLED else PUBLISHED
  }

  /** `editing?.image_url || null`: the edited record's image value, with an empty string read as none. */
  function ExistingImageUrl(editing: Option<NewsItem>): (r: Option<string>)
    ensures r.Some? <==> editing.Some? && editing.value.imageUrl.Some? && editing.value.imageUrl.value != ""
    ensures r.Some? ==> r == editing.value.imageUrl
  {
    match editing
    case None => None
    case Some(n) => if n.imageUrl.Some? && n.imageUrl.value != "" then n.imageUrl else None
  }

  /** `user?.email || "Usuario"`. */
  function AuthorNameOf(user: Option<User>): (r: string)
    ensures r != ""
    ensures user.Some? && user.value.email.Some? && user.value.email.value != "" ==> r == user.value.email.value
    ensures !(user.Some? && user.value.email.Some? && user.value.email.value != "") ==> r == DEFAULT_AUTHOR_NAME
  {
    if user.Some? && user.value.email.Some? && user.value.email.value != "" then user.value.email.value
    else DEFAULT_AUTHOR_NAME
  }

  /** `user?.id`. */
  function UserId(user: Option<User>): (r: Option<string>)
    ensures r.Some? <==> user.Some?
    ensures user.Some? ==> r == Some(user.value.id)
  {
    if user.Some? then Some(user.value.id) else None
  }

  /** The list query: everything for an administrator, otherwise the acting user's rows. */
  function ListFilterFor(isAdmin: bool, user: Option<User>): (r: ListFilter)
    ensures r.AllNews? <==> isAdmin
    ensures r.ByAuthor? ==> r.authorId == UserId(user)
  {
    if isAdmin then AllNews else ByAuthor(UserId(user))
  }

  /** What `setNewsList` receives from a list query: the rows (none when null), or nothing on error. */
  function ListAfter(previous: seq<NewsItem>, result: QueryResult<seq<NewsItem>>): (r: seq<NewsItem>)
    ensures result.QueryFailed? ==> r == previous
    ensures result.QueryOk? && result.data.Some? ==> r == result.data.value
    ensures result.QueryOk? && result.data.None? ==> r == []
  {
    match result
    case QueryFailed(_) => previous
    case QueryOk(data) => data.GetOr([])
  }

  /**
   * The `image_url` value the submit writes: with no file selected, the edited
   * record's value (or none when creating); with files selected, the
   * comma-join of the uploaded URLs, or the error of the first upload that threw.
   */
  function ImageUrlFor(editing: Option<NewsItem>, images: Option<seq<string>>, outcomes: seq<UploadOutcome>)
    : (r: Result<Option<string>, string>)
    ensures (images.None? || images.value == []) ==> r == Success(ExistingImageUrl(editing))
    ensures images.Some? && images.value != [] ==>
      (r.Success? <==> forall i :: 0 <= i < |outcomes| ==> outcomes[i].Uploaded?)
    ensures images.Some? && images.value != [] && r.Success? ==>
      r.value == Some(JoinComma(NonEmptyUrls(outcomes)))
  {
    if images.Some? && |images.value| > 0 then
      UploadAllMeaning(outcomes);
      UploadAllKeepsNonEmptyUrls(outcomes);
      match UploadAll(outcomes)
      case Failure(m) => Failure(m)
      case Success(urls) => Success(Some(JoinComma(urls)))
    else
      Success(ExistingImageUrl(editing))
  }

  /** With no file selected the existing value is kept, and nothing can fail. */
  lemma ImageUrlWithoutFiles(editing: Option<NewsItem>, images: Option<seq<string>>, outcomes: seq<UploadOutcome>)
    requires images.None? || images.value == []
    ensures ImageUrlFor(editing, images, outcomes) == Success(ExistingImageUrl(editing))
    ensures editing.None? ==> ImageUrlFor(editing, images, outcomes) == Success(None)
  {
  }

  /**
   * With files selected the new URLs replace the old value instead of being
   * appended to it: the result does not depend on the edited record, and
   * splitting it at the commas gives back exactly the non-empty uploaded URLs
   * in selection order.
   */
  lemma {:induction false} ImageUrlWithFiles(
    e1: Option<NewsItem>, e2: Option<NewsItem>, images: seq<string>, outcomes: seq<UploadOutcome>)
    requires images != []
    requires forall i :: 0 <= i < |outcomes| ==> outcomes[i].Uploaded? && SEPARATOR !in outcomes[i].url
    ensures ImageUrlFor(e1, Some(images), outcomes) == ImageUrlFor(e2, Some(images), outcomes)
    ensures ImageUrlFor(e1, Some(images), outcomes).Success?
    ensures ImageUrlFor(e1, Some(images), outcomes).value.Some?
    ensures ImageUrlFor(e1, Some(images), outcomes).value == Some(JoinComma(NonEmptyUrls(outcomes)))
    ensures NonEmptyUrls(outcomes) != [] ==>
      SplitComma(ImageUrlFor(e1, Some(images), outcomes).value.value) == NonEmptyUrls(outcomes)
  {
    UploadAllMeaning(outcomes);
    UploadAllKeepsNonEmptyUrls(outcomes);
    UploadAllUrlsFrom(outcomes);
    var urls := UploadAll(outcomes).value;
    if urls != [] {
      forall k | 0 <= k < |urls| ensures SEPARATOR !in urls[k] {
        UploadAllUrlFrom(outcomes, k);
      }
      SplitJoinRoundTrip(urls);
    }
  }

  /** Every URL that the upload loop keeps is the URL of one of the uploads. */
  lemma {:induction false} UploadAllUrlsFrom(outcomes: seq<UploadOutcome>)
    ensures UploadAll(outcomes).Success? ==>
      forall k :: 0 <= k < |UploadAll(outcomes).value| ==>
        exists i :: 0 <= i < |outcomes| && outcomes[i] == Uploaded(UploadAll(outcomes).value[k])
  {
    if outcomes != [] {
      var init := outcomes[..|outcomes| - 1];
      UploadAllUrlsFrom(init);
      assert forall i :: 0 <= i < |init| ==> init[i] == outcomes[i];
    }
  }

  /** One kept URL at a time, in the form the callers use. */
  lemma {:induction false} UploadAllUrlFrom(outcomes: seq<UploadOutcome>, k: nat)
    requires UploadAll(outcomes).Success? && k < |UploadAll(outcomes).value|
    requires forall i :: 0 <= i < |outcomes| ==> outcomes[i].Uploaded? && SEPARATOR !in outcomes[i].url
    ensures SEPARATOR !in UploadAll(outcomes).value[k]
  {
    UploadAllUrlsFrom(outcomes);
    var i :| 0 <= i < |outcomes| && outcomes[i] == Uploaded(UploadAll(outcomes).value[k]);
  }

  /** The write a successful submit issues: an update of the remembered record when editing, else an insert. */
  function RequestFor(editing: Option<NewsItem>, fields: Fields, user: Option<User>): (r: WriteRequest)
    ensures r.Update? <==> editing.Some?
    ensures r.fields == fields
    ensures r.Update? ==> r.id == editing.value.id && r.scopeAuthorId == UserId(user)
    ensures r.Insert? ==> r.authorId == UserId(user) && r.authorName == AuthorNameOf(user)
  {
    match editing
    case Some(n) => Update(n.id, fields, UserId(user))
    case None => Insert(fields, UserId(user), AuthorNameOf(user))
  }

  /** The component state of the management form. */
  class NewsForm {
    const isAdmin: bool
    var title: string
    var subtitle: string
    var content: string
    var category: string
    var images: Option<seq<string>>
    var status: string
    var loading: bool
    var message: string
    var newsList: seq<NewsItem>
    var editing: Option<NewsItem>
    var user: Option<User>

    /** The status select only offers the two visibility statuses. */
    ghost predicate Valid()
      reads this
    {
      status == PUBLISHED || status == DISABLED
    }

    /** The editable part of the state, gathered for comparing before and after. */
    function Form(): FormState
      reads this
    {
      FormState(title, subtitle, content, category, images, status, editing)
    }

    /** How many files are selected (`images` may be null). */
    function SelectedCount(): nat
      reads this
    {
      if images.Some? then |images.value| else 0
    }

    /**
     * cms-noticias/src/NewsFrom.tsx lines 19-29: an empty creating form, not
     * loading, no message, no list, no user yet.
     */
    constructor (isAdmin: bool)
      ensures Valid() && this.isAdmin == isAdmin
      ensures Form() == INITIAL_FORM
      ensures !loading && message == "" && newsList == [] && user == None
    {
      this.isAdmin := isAdmin;
      title, subtitle, content := "", "", "";
      category := DEFAULT_CATEGORY;
      images := None;
      status := PUBLISHED;
      loading := false;
      message := "";
      newsList := [];
      editing := None;
      user := None;
    }

    /** The text inputs and the category select. */
    method Fill(newTitle: string, newSubtitle: string, newContent: string, newCategory: string)
      requires Valid()
      modifies this
      ensures Valid()
      ensures Form() == old(Form()).(title := newTitle, subtitle := newSubtitle,
                                      content := newContent, category := newCategory)
      ensures loading == old(loading) && message == old(message)
      ensures newsList == old(newsList) && user == old(user)
    {
      title, subtitle, content, category := newTitle, newSubtitle, newContent, newCategory;
    }

    /** The administrator's status select, which offers only "published" and "disabled". */
    method ChooseStatus(s: string)
      requires s == PUBLISHED || s == DISABLED
      modifies this`status
      ensures Valid() && status == s
    {
      status := s;
    }

    /** The file input: the selection replaces the previous one. */
    method ChooseFiles(files: Option<seq<string>>)
      modifies this`images
      ensures images == files
    {
      images := files;
    }

    /**
     * cms-noticias/src/NewsFrom.tsx lines 157-165: back to an empty creating
     * form; loading, message and the list are kept.
     */
    method ResetForm()
      modifies this
      ensures Valid()
      ensures Form() == INITIAL_FORM
      ensures loading == old(loading) && message == old(message)
      ensures newsList == old(newsList) && user == old(user)
    {
      editing := None;
      title := "";
      subtitle := "";
      content := "";
      category := DEFAULT_CATEGORY;
      images := None;
      status := PUBLISHED;
    }

    /**
     * cms-noticias/src/NewsFrom.tsx lines 147-154: remember the record and copy
     * its fields into the form. The file selection is kept.
     */
    method EditNews(n: NewsItem)
      modifies this
      ensures Valid()
      ensures Form() == FormState(n.title, n.subtitle, n.content, n.category,
                                  old(images), FormStatusOf(n.status), Some(n))
      ensures loading == old(loading) && message == old(message)
      ensures newsList == old(newsList) && user == old(user)
    {
      editing := Some(n);
      title := n.title;
      subtitle := n.subtitle;
      content := n.content;
      category := n.category;
      status := if n.status == DISABLED then DISABLED else PUBLISHED;
    }

    /**
     * cms-noticias/src/NewsFrom.tsx lines 46-51: issue the list query and
     * store its rows; an error leaves the list as it was.
     */
    method FetchNews(result: QueryResult<seq<NewsItem>>) returns (filter: ListFilter)
      modifies this`newsList
      ensures filter == ListFilterFor(isAdmin, user)
      ensures newsList == ListAfter(old(newsList), result)
    {
      filter := if isAdmin then AllNews else ByAuthor(UserId(user));
      match result
      case QueryFailed(_) =>
      case QueryOk(data) =>
        newsList := data.GetOr([]);
    }

    /**
     * cms-noticias/src/NewsFrom.tsx lines 41-55: the user lookup answered; the
     * list is fetched only when there is a user.
     */
    method OnUserLoaded(u: Option<User>, result: QueryResult<seq<NewsItem>>) returns (filter: Option<ListFilter>)
      modifies this`user, this`newsList
      ensures user == u
      ensures filter.Some? <==> u.Some?
      ensures u.Some? ==> filter == Some(ListFilterFor(isAdmin, u)) && newsList == ListAfter(old(newsList), result)
      ensures u.None? ==> newsList == old(newsList)
    {
      user := u;
      filter := None;
      if u.Some? {
        var f := FetchNews(result);
        filter := Some(f);
      }
    }

    /**
     * cms-noticias/src/NewsFrom.tsx lines 60-61: the submit starts by showing
     * progress and clearing the message.
     */
    method BeginSubmit()
      modifies this`loading, this`message
      ensures loading && message == ""
    {
      loading := true;
      message := "";
    }

    /**
     * The submit handler, cms-noticias/src/NewsFrom.tsx lines 58-120.
     * `outcomes` holds what uploading each selected file gives, `writeError`
     * the error of the insert or update, `refetch` the answer of the list
     * query that follows a successful write. Returns how many uploads were
     * issued and the write that was issued, if any.
     */
    method HandleSubmit(outcomes: seq<UploadOutcome>, writeError: Option<string>, refetch: QueryResult<seq<NewsItem>>)
      returns (uploadsIssued: nat, request: Option<WriteRequest>)
      requires Valid()
      requires |outcomes| == SelectedCount()
      modifies this
      ensures Valid() && !loading && user == old(user)
      ensures uploadsIssued <= |outcomes|
      ensures old(SelectedCount()) == 0 ==> uploadsIssued == 0
      ensures old(SelectedCount()) > 0 && ImageUrlFor(old(editing), old(images), outcomes).Success? ==>
        uploadsIssued == |outcomes|
      ensures ImageUrlFor(old(editing), old(images), outcomes).Failure? ==>
        uploadsIssued >= 1 &&
        outcomes[uploadsIssued - 1] == UploadFailed(ImageUrlFor(old(editing), old(images), outcomes).error) &&
        forall j :: 0 <= j < uploadsIssued - 1 ==> outcomes[j].Uploaded?
      ensures var plan := ImageUrlFor(old(editing), old(images), outcomes);
        && (plan.Failure? ==>
              request == None && Form() == old(Form()) && newsList == old(newsList) &&
              message == MSG_ERROR_PREFIX + plan.error)
        && (plan.Success? ==>
              request == Some(RequestFor(old(editing),
                Fields(old(title), old(subtitle), old(content), old(category), plan.value, old(status)),
                user)))
        && (plan.Success? && writeError.Some? ==>
              Form() == old(Form()) && newsList == old(newsList) &&
              message == MSG_ERROR_PREFIX + writeError.value)
        && (plan.Success? && writeError.None? ==>
              Form() == INITIAL_FORM && newsList == ListAfter(old(newsList), refetch) &&
              message == if old(editing).Some? then MSG_UPDATED else MSG_CREATED)
      ensures request.Some? ==> request.value.fields.status == PUBLISHED || request.value.fields.status == DISABLED
    {
      BeginSubmit();
      uploadsIssued := 0;
      var imageUrl := ExistingImageUrl(editing);
      if images.Some? && |images.value| > 0 {
        var uploaded, attempted := UploadSelected(outcomes);
        uploadsIssued := attempted;
        if uploaded.Failure? {
          message := MSG_ERROR_PREFIX + uploaded.error;
          loading := false;
          request := None;
          return;
        }
        imageUrl := Some(JoinComma(uploaded.value));
      }
      var fields := Fields(title, subtitle, content, category, imageUrl, status);
      if editing.Some? {
        request := Some(Update(editing.value.id, fields, UserId(user)));
      } else {
        request := Some(Insert(fields, UserId(user), AuthorNameOf(user)));
      }
      if writeError.Some? {
        message := MSG_ERROR_PREFIX + writeError.value;
        loading := false;
        return;
      }
      message := if editing.Some? then MSG_UPDATED else MSG_CREATED;
      ResetForm();
      var _ := FetchNews(refetch);
      loading := false;
    }

    /**
     * The form's submit as the browser delivers it (cms-noticias/src/NewsFrom.tsx
     * lines 169, 177 and 190): the title and content inputs are `required`, so
     * with either empty the handler never runs and nothing changes.
     */
    method SubmitForm(outcomes: seq<UploadOutcome>, writeError: Option<string>, refetch: QueryResult<seq<NewsItem>>)
      returns (uploadsIssued: nat, request: Option<WriteRequest>)
      requires Valid()
      requires |outcomes| == SelectedCount()
      modifies this
      ensures Valid()
      ensures old(title) == "" || old(content) == "" ==>
        uploadsIssued == 0 && request == None && Form() == old(Form()) &&
        loading == old(loading) && message == old(message) && newsList == old(newsList) && user == old(user)
      ensures old(title) != "" && old(content) != "" ==> !loading && user == old(user)
      ensures old(title) != "" && old(content) != "" && ImageUrlFor(old(editing), old(images), outcomes).Success? ==>
        request.Some? && request.value.fields.title != "" && request.value.fields.content != ""
      ensures request.Some? ==> request.value.fields.status == PUBLISHED || request.value.fields.status == DISABLED
      ensures old(title) != "" && old(content) != "" ==>
        && uploadsIssued <= |outcomes|
        && (old(SelectedCount()) == 0 ==> uploadsIssued == 0)
        && (old(SelectedCount()) > 0 && ImageUrlFor(old(editing), old(images), outcomes).Success? ==>
              uploadsIssued == |outcomes|)
        && (ImageUrlFor(old(editing), old(images), outcomes).Failure? ==>
              uploadsIssued >= 1 &&
              outcomes[uploadsIssued - 1] == UploadFailed(ImageUrlFor(old(editing), old(images), outcomes).error) &&
              forall j :: 0 <= j < uploadsIssued - 1 ==> outcomes[j].Uploaded?)
      ensures old(title) != "" && old(content) != "" ==>
        var plan := ImageUrlFor(old(editing), old(images), outcomes);
        && (plan.Failure? ==>
              request == None && Form() == old(Form()) && newsList == old(newsList) &&
              message == MSG_ERROR_PREFIX + plan.error)
        && (plan.Success? ==>
              request == Some(RequestFor(old(editing),
                Fields(old(title), old(subtitle), old(content), old(category), plan.value, old(status)),
                user)))
        && (plan.Success? && writeError.Some? ==>
              Form() == old(Form()) && newsList == old(newsList) &&
              message == MSG_ERROR_PREFIX + writeError.value)
        && (plan.Success? && writeError.None? ==>
              Form() == INITIAL_FORM && newsList == ListAfter(old(newsList), refetch) &&
              message == if old(editing).Some? then MSG_UPDATED else MSG_CREATED)
    {
      if title == "" || content == "" {
        return 0, None;
      }
      uploadsIssued, request := HandleSubmit(outcomes, writeError, refetch);
    }

    /**
     * cms-noticias/src/NewsFrom.tsx lines 123-132: write the toggled status of
     * a listed record (not scoped to its author); on success announce it and
     * refetch the list.
     */
    method ToggleStatus(id: string, currentStatus: string, updateError: Option<string>,
                        refetch: QueryResult<seq<NewsItem>>)
      returns (newStatus: string, action: ListAction)
      modifies this`message, this`newsList
      ensures newStatus == ToggledStatus(currentStatus)
      ensures action == SetStatus(id, newStatus)
      ensures updateError.Some? ==> message == old(message) && newsList == old(newsList)
      ensures updateError.None? ==>
        message == ToggleMessage(newStatus) && newsList == ListAfter(old(newsList), refetch)
    {
      newStatus := if currentStatus == PUBLISHED then DISABLED else PUBLISHED;
      action := SetStatus(id, newStatus);
      if updateError.None? {
        message := ToggleMessage(newStatus);
        var _ := FetchNews(refetch);
      }
    }

    /**
     * cms-noticias/src/NewsFrom.tsx lines 135-144: the delete is issued only
     * when the confirmation dialog answers yes; on success announce it and refetch the list.
     */
    method DeleteNews(id: string, confirmed: bool, deleteError: Option<string>,
                      refetch: QueryResult<seq<NewsItem>>)
      returns (issued: Option<ListAction>)
      modifies this`message, this`newsList
      ensures issued.Some? <==> confirmed
      ensures issued.Some? ==> issued.value == Delete(id)
      ensures issued.None? || deleteError.Some? ==> message == old(message) && newsList == old(newsList)
      ensures issued.Some? && deleteError.None? ==>
        message == MSG_DELETED && newsList == ListAfter(old(newsList), refetch)
    {
      if !confirmed {
        return None;
      }
      issued := Some(Delete(id));
      if deleteError.None? {
        message := MSG_DELETED;
        var _ := FetchNews(refetch);
      }
    }
  }
}
