# cms-noticias: verified model of the client-side logic

cms-noticias is a news portal for a university: visitors browse published
news, and a signed-in author creates, edits, hides and deletes news with
images. The backend (auth, the relational "news" table, image storage) is a
hosted service. This project models the three pieces of logic that run in
the browser and proves what they promise. Every backend answer is a
parameter: a query result, an error message or the outcome of each upload.

- `news.dfy` (module `News`): the news record as the views receive it, the status words, and the shape of a query answer.
- `catalog.dfy` (module `Catalog`, from `Home.tsx`): the category filter ("Todas" bypasses it), the rotation index advanced by the timer, and the split of the filtered list into the featured item and the grid of the others. `CatalogView` is the page's state. Its methods are the load callback, the filter effect, a category button and one timer tick.
- `image_urls.dfy` (module `ImageUrls`, from `NewsFrom.tsx`): the sequential upload loop that collects non-empty URLs and stops at the first upload that throws. It also holds the comma-join that stores them in `image_url`, with a split that gives them back.
- `editor.dfy` (module `Editor`, from `NewsFrom.tsx`): the management form. `NewsForm` holds one field per piece of component state. Its methods are edit, reset, submit, toggle, delete and list refresh. The pure rules beside it are the status toggle, the status copied when editing, the kept image value, the author stamp and the insert-or-update choice.
- `detail.dfy` (module `Detail`, from `NewsDetails.tsx`): the fetch of one record by id and the render's fixed precedence: loading, then error, then no record, then the article. `DetailPage` keeps only published records.
- `wrappers.dfy`: `Option` and `Result`.

Behaviour of the code worth knowing:

- Toggling twice is not the identity for every status. "editing" and "finished" both toggle to "published" (`Editor.ToggleTwice`).
- Choosing a category does not reset the rotation index. The page can show no featured item until the next tick (`Catalog.CategoryChangeCanHideFeatured`).
- A selection whose uploads all return empty URLs stores the empty string, not null.
- An edited record whose `image_url` is the empty string submits null when no file is selected.
- A public URL carries the uploaded file's name (`cms-noticias/src/lib/storage.ts:4,20`). A file name with a comma therefore puts a comma into its URL, and the stored value can no longer be split back into its URLs (`ImageUrls.SplitJoinRoundTrip` requires comma-free URLs).

## Model

| member | source | states |
|---|---|---|
| Catalog.OfCategory | cms-noticias/src/Home.tsx:46 | the category filter keeps only items of that category and never grows the list |
| Catalog.Filtered | cms-noticias/src/Home.tsx:44-47 | "Todas" gives the whole list unchanged; any other category gives only items of that category |
| Catalog.OfCategoryAppend | cms-noticias/src/Home.tsx:46 | filtering keeps the original order: it distributes over concatenation |
| Catalog.OfCategoryCount | cms-noticias/src/Home.tsx:46 | each item of the category is kept exactly as often as it occurs; items of other categories never appear |
| Catalog.OfCategoryMember | cms-noticias/src/Home.tsx:46 | an item is in the filtered list iff it is in the list and has the category |
| Catalog.NextSlide | cms-noticias/src/Home.tsx:51 | one tick on a non-empty list of length L gives (p+1) mod L, so it stays inside [0, L): it advances by one or wraps to 0 at the end; on an empty list it gives 0 |
| Catalog.SlideAfterTicks | cms-noticias/src/Home.tsx:49-52 | after at least one tick the index is inside a non-empty list and is 0 on an empty one, from any starting index |
| Catalog.SlideAfterTicksIsMod | cms-noticias/src/Home.tsx:20-52 | on a fixed list of length L > 0, k ticks from index p give (p+k) mod L: k mod L from the initial 0, and an index left past the end wraps in on the first tick |
| Catalog.FeaturedOf | cms-noticias/src/Home.tsx:56 | the featured item exists iff the index is below the filtered length, and is the item at that index |
| Catalog.WithoutIndex | cms-noticias/src/Home.tsx:57 | dropping one position shortens the list by one when the position is inside it, and not at all otherwise |
| Catalog.WithoutIndexSplices | cms-noticias/src/Home.tsx:57 | dropping position k gives the items before k followed by the items after k; an outside position gives the list unchanged |
| Catalog.OthersOf | cms-noticias/src/Home.tsx:57 | the grid has L-1 items when the index is in range and L otherwise |
| Catalog.FeaturedAndOthersCoverFiltered | cms-noticias/src/Home.tsx:56-57 | featured item and grid together rebuild the filtered list in order; with no featured item the grid is the whole list |
| Catalog.TickRestoresFeatured | cms-noticias/src/Home.tsx:51-56 | after one tick on a non-empty list there is always a featured item |
| Catalog.CategoryChangeCanHideFeatured | cms-noticias/src/Home.tsx:44-56 | since the index is not reset, picking a category can leave no featured item until the next tick brings one back |
| Catalog.CatalogView.constructor | cms-noticias/src/Home.tsx:17-20 | the page starts with empty lists, category "Todas" and index 0 |
| Catalog.CatalogView.Featured | cms-noticias/src/Home.tsx:56 | the page's featured item exists iff its index is inside its filtered list |
| Catalog.CatalogView.Others | cms-noticias/src/Home.tsx:57 | the page's grid is one shorter than the filtered list exactly when there is a featured item |
| Catalog.CatalogView.OnLoaded | cms-noticias/src/Home.tsx:38-41 | the load sets both lists to the returned rows, or to the empty list when there are none |
| Catalog.CatalogView.ApplyFilter | cms-noticias/src/Home.tsx:44-47 | the filter effect makes the filtered list the category's view of the news list |
| Catalog.CatalogView.SelectCategory | cms-noticias/src/Home.tsx:44-47 | a category change refilters and changes nothing else, so the rotation index is kept |
| Catalog.CatalogView.Tick | cms-noticias/src/Home.tsx:49-52 | a tick replaces the index with the next slide, so a non-empty list then has a featured item |
| ImageUrls.JoinComma | cms-noticias/src/NewsFrom.tsx:73 | the join of a non-empty list of comma-free URLs holds exactly one comma fewer than there are URLs; an empty list joins to the empty string |
| ImageUrls.SplitJoinRoundTrip | cms-noticias/src/NewsFrom.tsx:73 | splitting the stored comma-join of non-empty, comma-free URLs gives back exactly those URLs in order, so there is no leading, trailing or doubled comma |
| ImageUrls.JoinCommaEnds | cms-noticias/src/NewsFrom.tsx:73 | the stored value starts with the first URL and ends with the last one |
| ImageUrls.UploadAll | cms-noticias/src/NewsFrom.tsx:67-72 | the loop's reference meaning, read one upload after another: on success it keeps at most one URL per file, and none of them empty |
| ImageUrls.NonEmptyUrlsSnoc | cms-noticias/src/NewsFrom.tsx:69-71 | read front to back, one more upload at the end adds its URL at the end when it is non-empty |
| ImageUrls.UploadAllKeepsNonEmptyUrls | cms-noticias/src/NewsFrom.tsx:67-72 | when no upload throws, the loop keeps every non-empty URL the uploads return, only those, in selection order |
| ImageUrls.UploadAllFailureSticks | cms-noticias/src/NewsFrom.tsx:69-72 | once an upload throws, the uploads after it do not change the outcome |
| ImageUrls.UploadAllMeaning | cms-noticias/src/NewsFrom.tsx:67-72 | the loop succeeds iff no upload throws; then it keeps only non-empty URLs, at most one per file; otherwise its error is the first thrown upload's |
| ImageUrls.UploadSelected | cms-noticias/src/NewsFrom.tsx:67-73 | the upload loop collects every non-empty URL, in selection order. At the first throw it stops; no upload after it is issued and its message is the result |
| Editor.ToggledStatus | cms-noticias/src/NewsFrom.tsx:124 | "published" becomes "disabled"; every other status, "editing" and "finished" included, becomes "published" |
| Editor.ToggleTwice | cms-noticias/src/NewsFrom.tsx:124 | toggling twice gives the status back iff it is "published" or "disabled" |
| Editor.ToggleMessage | cms-noticias/src/NewsFrom.tsx:129 | the toggle message names "Pública" iff the new status is "published", otherwise "Oculta" |
| Editor.FormStatusOf | cms-noticias/src/NewsFrom.tsx:153 | editing sets the form status to "disabled" iff the record is disabled, otherwise "published" |
| Editor.ExistingImageUrl | cms-noticias/src/NewsFrom.tsx:64 | without files the kept value is the edited record's non-empty image value, or null when creating or when it is empty |
| Editor.AuthorNameOf | cms-noticias/src/NewsFrom.tsx:105 | the stamped author name is the user's e-mail when there is a user with a non-empty e-mail; otherwise "Usuario" |
| Editor.UserId | cms-noticias/src/NewsFrom.tsx:104 | the stamped author id is present iff there is a user, and is then that user's id |
| Editor.ListFilterFor | cms-noticias/src/NewsFrom.tsx:47-48 | the list query asks for every row iff the form is in admin mode; otherwise it asks for the acting user's rows |
| Editor.ListAfter | cms-noticias/src/NewsFrom.tsx:48-50 | a query error keeps the list; an answer replaces it with the rows, or with the empty list when there are none |
| Editor.ImageUrlFor | cms-noticias/src/NewsFrom.tsx:64-74 | with no file selected the value is the existing one. With files it succeeds iff no upload throws, and is then the comma-join of the non-empty returned URLs in selection order |
| Editor.ImageUrlWithoutFiles | cms-noticias/src/NewsFrom.tsx:64-67 | with no file selected the image value is the existing one and nothing can fail; when creating it is null |
| Editor.ImageUrlWithFiles | cms-noticias/src/NewsFrom.tsx:64-74 | with files selected and no upload throwing, the value is the join of the non-empty URLs and replaces the old value whatever was being edited; split at the commas it gives back exactly those URLs |
| Editor.RequestFor | cms-noticias/src/NewsFrom.tsx:76-107 | the write is an update of the remembered record, scoped to the user, iff editing; otherwise an insert stamped with the user's id and author name; both carry the form's fields |
| Editor.NewsForm.constructor | cms-noticias/src/NewsFrom.tsx:19-29 | the form starts empty in create mode with category "Sociedad" and status "published", not loading, with no message and no list |
| Editor.NewsForm.Fill | cms-noticias/src/NewsFrom.tsx:172-197 | the text inputs and category select set only their own fields |
| Editor.NewsForm.ChooseStatus | cms-noticias/src/NewsFrom.tsx:202-205 | the admin status select sets the status to one of its two options |
| Editor.NewsForm.ChooseFiles | cms-noticias/src/NewsFrom.tsx:212-217 | a new file selection replaces the previous one |
| Editor.NewsForm.ResetForm | cms-noticias/src/NewsFrom.tsx:157-165 | reset restores the initial form (no edited record, empty texts, no files, "Sociedad", "published") and keeps loading, message and the list |
| Editor.NewsForm.EditNews | cms-noticias/src/NewsFrom.tsx:147-154 | edit remembers the record and copies its title, subtitle, content and category. The status is copied by the visibility rule. The file selection, loading, message and list are kept |
| Editor.NewsForm.FetchNews | cms-noticias/src/NewsFrom.tsx:46-51 | a refresh issues the admin-or-author query and stores its rows, keeping the list on error |
| Editor.NewsForm.OnUserLoaded | cms-noticias/src/NewsFrom.tsx:41-55 | the user is stored, and the list is fetched iff there is a user |
| Editor.NewsForm.BeginSubmit | cms-noticias/src/NewsFrom.tsx:60-61 | submit starts with loading on and the message cleared |
| Editor.NewsForm.HandleSubmit | cms-noticias/src/NewsFrom.tsx:58-120 | no upload without files; with files every upload is issued up to the first that throws. A throwing upload aborts before any write, keeps the form and shows "❌ Error: " + message. Otherwise the form's fields and image value are written, as update iff editing. A write error keeps the form; success resets it, refetches and shows the created/updated message. Loading ends false in every outcome. A written status is always "published" or "disabled" |
| Editor.NewsForm.SubmitForm | cms-noticias/src/NewsFrom.tsx:169-190 | with an empty title or content the browser never runs the handler and nothing changes. Otherwise the outcome is exactly the handler's: the same uploads issued, request, form, message and list. Any write it issues has a non-empty title and content, and a status of "published" or "disabled" |
| Editor.NewsForm.ToggleStatus | cms-noticias/src/NewsFrom.tsx:123-132 | the toggled status is written to the listed record's id with no author scope; on success the message names the new visibility and the list is refetched; on error nothing changes |
| Editor.NewsForm.DeleteNews | cms-noticias/src/NewsFrom.tsx:135-144 | a delete of the given id, with no author scope, is issued iff the confirmation answers yes; on success the message is set and the list refetched; otherwise nothing changes |
| Detail.MissingId | cms-noticias/src/NewsDetails.tsx:25 | `!id` holds exactly for a missing or an empty id, so any non-empty route id triggers the fetch |
| Detail.Render | cms-noticias/src/NewsDetails.tsx:50-71 | fixed precedence: loading text iff loading; else the error panel iff the error is non-empty; else blank iff no record; else the stored record's article |
| Detail.ErrorHidesStaleRecord | cms-noticias/src/NewsDetails.tsx:52-67 | with an error the panel shows only the message, whatever record, stale or not, is stored |
| Detail.PageAfterFetch | cms-noticias/src/NewsDetails.tsx:35-41 | a query error leads to the not-found message; a non-published record leads to the not-public message; a published record leads to its article, and only a published record does |
| Detail.DetailPage.constructor | cms-noticias/src/NewsDetails.tsx:19-21 | the page starts loading with no error and no record, showing the loading text |
| Detail.DetailPage.Shown | cms-noticias/src/NewsDetails.tsx:50-71 | an article shown by the page is always of a published record |
| Detail.DetailPage.FetchNews | cms-noticias/src/NewsDetails.tsx:24-45 | without an id nothing changes. Otherwise the error is cleared first and loading ends false. The outcome alone decides the page, and only a published record is stored |
| Detail.OpenWithoutId | cms-noticias/src/NewsDetails.tsx:20-50 | with no id in the route only the loading text is ever rendered |
| Detail.VisitPublishedThenHidden | cms-noticias/src/NewsDetails.tsx:26-67 | after a published record, visiting a non-published one shows only the message, though the first record stays stored |

## Left out

- Every call to the hosted backend is out: auth, the queries, the insert, update and delete, and the upload with `getPublicUrl` in `cms-noticias/src/lib/storage.ts`. Their answers are parameters: `QueryResult`, `FetchOutcome`, `UploadOutcome` and an optional error message.
- The published-only condition of the catalog query and the author scoping of the update are enforced by the backend. The model records the scope it sends (`WriteRequest.Update.scopeAuthorId`, `ListFilter`), not what the backend does with it. Toggle and delete send no scope.
- The 7000 ms interval and its teardown are timing. A tick is the explicit method `CatalogView.Tick`; `SlideAfterTicks` counts ticks on a fixed list.
- React effect scheduling and overlapping async handlers are out. Each handler runs as one atomic step. The list refetch after a write is not awaited in the source; the model applies its answer inside the same step.
- Editor.NewsForm.HandleSubmit: `loading` is true only between `BeginSubmit` and the end of the handler; the contract states only its final value.
- Editor.NewsForm.HandleSubmit: requires one upload outcome per selected file, because the outcomes stand for the uploads of those files.
- Editor.NewsForm.ChooseStatus: callable in any mode, while the select renders only for administrators; it requires one of the two offered values.
- The `confirm()` dialog is the boolean `confirmed`. Console logging is out.
- Upload file naming from `Date.now()` and the file name lives in the storage wrapper and is clock-dependent.
- JSX, CSS, placeholder images and date formatting are out. `Page` names only which view is rendered.
- `cms-noticias/src/App.tsx` (theme and navigation), `cms-noticias/src/Login.tsx` and the session gate of `cms-noticias/src/Admin.tsx` only delegate to the auth service and the router. They are not part of this model.
- `cms-noticias/src/types/index.ts` is not imported by the modelled views. Statuses are the raw strings the views compare, with "editing" and "finished" as constants.
