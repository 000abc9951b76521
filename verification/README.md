# Book tracker record synchronisation, in Dafny

This project models the record-synchronisation logic of a personal book-tracking
web client. The client has three pages. Each page keeps an in-memory list that
mirrors one remote collection:

- the Wishlist page (`src/pages/Wish.jsx`) mirrors the wishlist;
- the Still-reading page (`src/pages/Stillreading.jsx`) mirrors the in-progress books;
- the Read page (`src/pages/Red.jsx`) mirrors the finished books.

Every handler that touches a page's list, its search or its review editor is
modelled as a pure function. A local edit that sends nothing (typing a query or a
review, editing a bookmark or page count, opening the review editor) takes the
page state and the user's input and returns the new `Page`. A handler that sends
requests also takes the outcome of each remote call it awaits, and returns a
`Remote.Step`, which holds four things:

- `during`: the page state while the call is outstanding (in-flight markers set, loading flags up);
- `after`: the page state once the call settled;
- `calls`: the requests the handler sent, in order;
- `alerted`: whether it raised an `alert`.

A guard that returns early (a blank query, an unconfirmed delete, a duplicate
wishlist entry) gives a step whose `during` and `after` equal the input state and
whose `calls` is empty.

Layout, one module per file:

- `common.dfy` (`Common`): `Option`, the remote `Outcome` (`Ok(value)` / `Err`) and
  the in-flight marker `Mark` (`Unmarked` is JavaScript `null`).
- `text.dfy` (`Text`): `String.prototype.trim` over the full ECMAScript whitespace
  set, `replace` with a string pattern (first occurrence only), `slice(0, n)`.
- `records.dfy` (`Records`): the shared `Book` record, the catalog `Volume`, and
  JavaScript falsiness. `NumField` distinguishes an absent field, `null`, the empty
  string an emptied number input stores, and a number, so `x || 0` and
  `x ? Number(x) : null` are exact.
- `lists.dfy` (`Lists`): the list updates the pages apply: `map` by id, `filter` by
  id, `some` on the catalog id.
- `remote.dfy` (`Remote`, `RecordStore`): the requests and `Step`; and a small model
  of the remote store. A successful request changes a store collection exactly as
  its response says. This model is an assumption about the server, which is not
  part of this model; it lets the "page mirrors store" property and the move's
  failure windows be stated.
- `stillreading.dfy`, `wish.dfy`, `red.dfy`: the three pages.

Ids are `Option<Id>`, so `it.id === itemId` matches records with no id against an
absent id, as in JavaScript. `Red.OpenEdit` requires that the record is not already
being edited: its edit button is rendered only in that case (src/pages/Red.jsx:179).

## Model

| member | source | states |
|---|---|---|
| Text.Trim | src/pages/Red.jsx:51 | the trimmed text starts and ends with non-whitespace, and it is empty exactly when the input is all whitespace |
| Text.TrimPadded | src/pages/Red.jsx:51 | trimming whitespace + a tight core + whitespace gives back exactly that core |
| Text.TrimIdempotent | src/pages/Red.jsx:51 | trimming twice is trimming once, so a saved review that is reopened (line 182) and saved again unchanged is sent unchanged |
| Text.ReplaceFirst | src/pages/Stillreading.jsx:72 | `replace` with a string pattern rewrites only the leftmost occurrence; with no occurrence the text comes back unchanged |
| Text.OccursInTail | src/pages/Stillreading.jsx:72 | an occurrence in the tail of a string is an occurrence in the string one index later |
| Text.Prefix | src/pages/Stillreading.jsx:116 | `slice(0, n)` keeps the first n characters, or the whole string when it is shorter |
| Records.Info | src/pages/Wish.jsx:52 | a hit without an info block reads as one with every field absent; otherwise its info block is used as it came |
| Lists.UpdateById | src/pages/Stillreading.jsx:97 | mapping by id keeps the length; records with the id are rewritten and all others stay in place |
| Lists.ReplaceById | src/pages/Stillreading.jsx:97 | replacing by id keeps the length; every record with the id becomes the given record and all others stay in place |
| Lists.RemoveById | src/pages/Wish.jsx:85 | after filtering by id, a record is in the result exactly when it was in the list and has a different id |
| Lists.AnyWithGoogleId | src/pages/Wish.jsx:61 | the duplicate check is true exactly when some listed record has that catalog id |
| Lists.RemoveByIdAppend | src/pages/Wish.jsx:85 | filtering distributes over concatenation, so the survivors keep their relative order |
| Lists.RemoveByIdAbsent | src/pages/Red.jsx:41 | filtering out an id no record carries leaves the list unchanged |
| Lists.RemoveByIdCount | src/pages/Red.jsx:41 | filtering shortens the list by exactly the number of records carrying the id |
| Lists.ReplaceAfterUpdate | src/pages/Stillreading.jsx:312-314 | a save's response overrides any unsaved local edit of the same record |
| Stillreading.FetchStill | src/pages/Stillreading.jsx:27-35 | a load sets the list to the body, to `[]` for an empty body, and to `[]` on failure; nothing else changes |
| Stillreading.FetchFailureLooksEmpty | src/pages/Stillreading.jsx:27-35 | a failed load leaves the same state as a successful load of an empty collection |
| Stillreading.SearchCatalog | src/pages/Stillreading.jsx:38-54 | a blank query sends nothing and changes nothing; otherwise results are cleared during the request, the trimmed query is sent with limit 12, and results are the hits, or empty on failure |
| Stillreading.SearchQueryIsTrimmed | src/pages/Stillreading.jsx:39-44 | the query sent to the catalog is non-empty and has no whitespace at either end |
| Stillreading.TypeQuery | src/pages/Stillreading.jsx:192 | typing in the search box replaces the query and nothing else |
| Stillreading.QueryKeyDown | src/pages/Stillreading.jsx:193 | Enter in the search box runs the search; any other key does nothing |
| Stillreading.TypedSearchIsTrimmed | src/pages/Stillreading.jsx:192-193 | typing a query and pressing Enter sends the typed text trimmed with limit 12, and nothing when it is blank |
| Stillreading.SecureThumbnail | src/pages/Stillreading.jsx:71-72 | the first `http://` of the cover link becomes `https://` and nothing else changes; a missing cover gives `""` |
| Stillreading.HttpThumbnailUpgraded | src/pages/Stillreading.jsx:72 | an `http://` cover link becomes the same link over `https://` |
| Stillreading.InputValue | src/pages/Stillreading.jsx:313 | an emptied number input stores `""` (falsy, not `null`) and a typed number stores that number, falsy only when 0 |
| Stillreading.AddPayload | src/pages/Stillreading.jsx:57-76 | the add payload has the catalog id, a non-empty title (the catalog title when it is non-empty, even if it is only spaces; "Untitled" otherwise), authors (default none), the upgraded cover, the page count answer or `null`, the bookmark answer or 0, an empty review, and no id |
| Stillreading.AddFromSearch | src/pages/Stillreading.jsx:78-89 | on success the stored record is appended (length +1, earlier records unchanged) and results and query are cleared; on failure nothing but the marker changes and the user is alerted; `addingId` is null afterwards |
| Stillreading.AddKeepsMirror | src/pages/Stillreading.jsx:78-89 | after an add, the page's list equals the store's collection whenever it did before, on success and on failure |
| Stillreading.EditPagesRead | src/pages/Stillreading.jsx:312-315 | a bookmark edit changes only `pagesRead`, only on the records with that id, and sends nothing |
| Stillreading.EditPageCount | src/pages/Stillreading.jsx:329-332 | a page-count edit changes only `pageCount`, only on the records with that id, and sends nothing |
| Stillreading.ProgressUpdates | src/pages/Stillreading.jsx:343-346 | the save payload sends a falsy bookmark as 0 and a falsy page count as `null`, so a page count of 0 is never sent |
| Stillreading.EditedBookmarkIsSent | src/pages/Stillreading.jsx:312-346 | a typed bookmark is what the save sends; an emptied input sends 0 |
| Stillreading.EditedPageCountIsSent | src/pages/Stillreading.jsx:329-346 | a typed page count is what the save sends; an emptied input or 0 sends `null` |
| Stillreading.AddedProgressIsSent | src/pages/Stillreading.jsx:59-76 | saving right after an add sends back the prompt answers, with a blank bookmark as 0 and a blank or zero page count as `null` |
| Stillreading.SaveProgress | src/pages/Stillreading.jsx:93-104 | on success each record with the id becomes the response and all others stay in place, with the length kept; on failure the list is unchanged and the user is alerted; `savingId` is null afterwards |
| Stillreading.SaveReconcilesEdit | src/pages/Stillreading.jsx:93-104 | if the page differed from the store only by an unsaved bookmark edit (lines 312-314), a successful save makes it mirror the store again |
| Stillreading.SavePageCountReconcilesEdit | src/pages/Stillreading.jsx:93-104 | if the page differed from the store only by an unsaved page-count edit (lines 329-331), a successful save makes it mirror the store again |
| Stillreading.FinishedRecord | src/pages/Stillreading.jsx:110-117 | the finished record copies title, authors (default none), cover (default `""`), page count (falsy as `null`) and bookmark (falsy as 0); it has no id, catalog id or review; its date is the first 10 characters of the timestamp |
| Stillreading.MarkAsRead | src/pages/Stillreading.jsx:107-130 | unconfirmed: nothing happens; confirmed: the create is sent first, and the delete only if the create succeeded; the record leaves the list only if both succeed; otherwise the list is unchanged and the user is alerted; `savingId` is null afterwards |
| Stillreading.MoveInStore | src/pages/Stillreading.jsx:119-123 | a move adds the create's reply to the store's Read collection when the create succeeds, and removes the original's id from Still-reading only when the delete also succeeds |
| Stillreading.MoveKeepsMirror | src/pages/Stillreading.jsx:119-128 | whatever the two outcomes, the page's list keeps mirroring the store's still-reading collection |
| Stillreading.MoveAbortsOnFailedCreate | src/pages/Stillreading.jsx:121-127 | when the create fails, no delete is sent and neither the page nor the store changes |
| Stillreading.MoveDuplicateWindow | src/pages/Stillreading.jsx:121-127 | when the create succeeds and the delete fails, the create's reply is in Read while the original stays in the store's Still-reading collection and on the page, and the user is alerted |
| Stillreading.MoveCompletes | src/pages/Stillreading.jsx:121-123 | when both succeed, the create's reply is in Read and no record with the original id remains in the store's still-reading collection or on the page |
| Stillreading.MoveKeepsOrder | src/pages/Stillreading.jsx:123 | the books a completed move leaves keep their relative order |
| Stillreading.MoveFilesFinishedRecord | src/pages/Stillreading.jsx:110-121 | when the store keeps the finished record it was sent (adding only an id), Read holds a record with the book's title, authors (default none), cover (default `""`) and progress, dated with the first 10 characters of the timestamp, whatever the delete does |
| Wish.FetchWishlist | src/pages/Wish.jsx:19-27 | a load sets the list to the response as it came (no `[]` default), and to `[]` on failure |
| Wish.FetchFailureLooksEmpty | src/pages/Wish.jsx:19-27 | a failed load leaves the same state as a successful load of an empty collection |
| Wish.SearchCatalog | src/pages/Wish.jsx:29-48 | a blank query sends nothing and changes nothing; otherwise results are cleared first, the untrimmed query is sent with limit 10, and results stay empty on failure |
| Wish.TypeQuery | src/pages/Wish.jsx:154 | typing in the search box replaces the query and nothing else |
| Wish.QueryKeyDown | src/pages/Wish.jsx:155 | Enter in the search box runs the search; any other key does nothing |
| Wish.TypedSearchIsUntrimmed | src/pages/Wish.jsx:154-155 | typing a query and pressing Enter sends exactly the typed text, surrounding whitespace included, with limit 10, and nothing when it is blank |
| Wish.SearchGuardsAgree | src/pages/Wish.jsx:29-38 | for the same query the two pages both search or both do nothing; the wishlist sends the query as typed with limit 10, the still-reading page sends it trimmed with limit 12 |
| Wish.WishPayload | src/pages/Wish.jsx:54-59 | the wishlist payload has the catalog id, the title as it came, authors (default none), the cover as it came (default `""`) with no https rewrite, and nothing else |
| Wish.PayloadsAgree | src/pages/Wish.jsx:54-59 | the two pages' payloads agree on catalog id and authors; the still-reading cover is the wishlist cover with its first `http://` upgraded; the titles agree unless the catalog title is blank, when still-reading uses "Untitled" |
| Wish.AddToWishlist | src/pages/Wish.jsx:51-77 | a hit whose catalog id is already listed raises an alert and changes nothing, with no request; otherwise success appends the stored record and clears results and query, failure leaves the list and alerts, and `addingId` is null afterwards |
| Wish.AddKeepsMirror | src/pages/Wish.jsx:61-76 | after an add, the page's list equals the store's wishlist whenever it did before, including when a duplicate is refused |
| Wish.AddKeepsGoogleIdsUnique | src/pages/Wish.jsx:61-68 | if the store keeps the catalog id it was sent, an add never creates two listed records with the same catalog id |
| Wish.AddingDistinctBooks | src/pages/Wish.jsx:61-68 | successive adds of distinct, unlisted hits that the store accepts append every stored record, in order |
| Wish.Delete | src/pages/Wish.jsx:79-92 | unconfirmed: nothing happens; on success exactly the records with the id leave, and the list shortens by their number; on failure the list is unchanged and the user is alerted; `processingId` is null afterwards |
| Wish.DeleteKeepsMirror | src/pages/Wish.jsx:81-91 | after a delete, the page's list equals the store's wishlist whenever it did before |
| Wish.DeleteKeepsOrder | src/pages/Wish.jsx:85 | the records a delete leaves keep their relative order |
| Red.FetchReads | src/pages/Red.jsx:19-32 | `loading` is true during the load and false afterwards on every path; the list becomes the response, or `[]` on failure |
| Red.FetchFailureLooksEmpty | src/pages/Red.jsx:19-32 | a failed load leaves the same state as a successful load of an empty collection |
| Red.Delete | src/pages/Red.jsx:35-48 | the confirmation comes first; on success exactly the records with the id leave; on failure the list is unchanged and the user is alerted; `processingId` is null afterwards |
| Red.DeleteKeepsMirror | src/pages/Red.jsx:37-47 | after a delete, the page's list equals the store's Read collection whenever it did before |
| Red.DeleteKeepsOrder | src/pages/Red.jsx:41 | the records a delete leaves keep their relative order |
| Red.OpenEdit | src/pages/Red.jsx:179-182 | opening the editor puts that record in the single edit slot and starts the draft from its review, or `""` |
| Red.OpenEditDiscardsDraft | src/pages/Red.jsx:182 | opening another record's editor discards the draft in progress |
| Red.TypeReview | src/pages/Red.jsx:197 | typing in the review box replaces the draft and nothing else |
| Red.SaveReview | src/pages/Red.jsx:50-64 | only `{review: trimmed draft}` is sent; on success a matching record becomes the response, or, for an empty response, the prior record with the trimmed review; the editor closes and the draft clears; on failure the editor and draft are kept; `savingReviewId` is null afterwards |
| Red.SaveReviewKeepsMirror | src/pages/Red.jsx:54-55 | after a review save, the page's list equals the store's Read collection whenever it did before, including for an empty response |
| Red.EditReviewRoundTrip | src/pages/Red.jsx:50-57 | open, type and save with an empty response: the record's review is the typed text trimmed, and the editor is closed |
| Red.FailedSaveKeepsEditor | src/pages/Red.jsx:58-63 | a failed save keeps the edit slot, the draft and the list, so the user can retry |

## Left out

- Real HTTP: the catalog requests and the `../services/allAPI` helpers are not part of this model. Every remote call is an outcome parameter. `RecordStore` states how the store is assumed to behave.
- URL encoding: `encodeURIComponent` is not modelled. A `CatalogQuery` carries the query text before encoding.
- `prompt`, `confirm` and `alert` are inputs or outputs. A prompt answer is `Option<nat>` (`None` for blank or cancelled). A confirmation is a `bool`. An alert is the step's `alerted` flag.
- The catalog's `pageCount` is left out: it is only the default text of the page-count prompt, and the prompt's answer is an input.
- JavaScript `Number(...)` coercion of arbitrary text (NaN, decimals, negatives) is left out: numbers arrive already parsed as `nat`.
- `new Date().toISOString()` is a parameter. Only its `slice(0, 10)` is modelled.
- Console logging and the rendering are left out. This covers the JSX, styling, the title truncation (src/pages/Stillreading.jsx:303, src/pages/Red.jsx:155), and `disabled` buttons. It also covers the Mark-as-read checkbox, which stays ticked after a refused confirmation.
- src/pages/Home.jsx holds only routing links.
- Interleaving of async handlers is left out: each handler is one atomic transition. So are last-write-wins races and in-flight markers overwritten by a second concurrent call. A marker is observable only in `during`; the move has one `during` state covering both requests.
- Wish.FetchWishlist: the response is always a list. The source stores a `null` or `undefined` body as-is, which the page cannot then use; that case is not represented.
- Red.FetchReads: the response is always a list, for the same reason as the wishlist load.
- Red.SaveReview: the draft is a string. The source's draft state only ever holds strings, so its `(reviewDraft || "")` fallback has no observable effect.
- Stillreading.SaveProgress: the response is always a record. An empty response, which the source would put into the list as-is, is not represented.
- Stillreading.AddFromSearch: the create's response is always a record. The source appends it as it comes (src/pages/Stillreading.jsx:81), so an empty response would be appended as-is; that case is not represented, since the store answers a create with the stored record.
- Wish.AddToWishlist: the create's response is always a record. The source appends it as it comes (src/pages/Wish.jsx:68); an empty response is not represented, for the same reason.
