/** The still-reading page: its mirror of the in-progress collection, the catalog
    search, adding a hit with the user's page answers, bookmark edits and saves,
    and the two-request move of a finished book to Read. */
module Stillreading {
  import opened Common
  import opened Records
  import opened Text
  import opened Lists
  import opened Remote
  import opened RecordStore

  /** The number of catalog hits this page asks for. */
  const SearchLimit: nat := 12

  datatype Page = Page(
    query: string,
    results: seq<Volume>,
    loadingSearch: bool,
    still: seq<Book>,
    addingId: Mark<string>,
    savingId: Mark<Option<Id>>)

  // ---------------------------------------------------------------------------
  // Loading and searching

  /** Load the whole collection: the response body, `[]` when it is empty, and `[]`
      as well when the request fails. */
  function FetchStill(s: Page, response: Outcome<Option<seq<Book>>>): (r: Step<Page>)
    ensures r.calls == [Fetch(StillReading)] && r.during == s && !r.alerted
    ensures r.after == s.(still := r.after.still)
    ensures response.Ok? && response.value.Some? ==> r.after.still == response.value.value
    ensures response.Err? || response.value.None? ==> r.after.still == []
  {
    var items := if response.Ok? then response.value.GetOr([]) else [];
    Step(s, s.(still := items), [Fetch(StillReading)], false)
  }

  /** A failed load cannot be told apart from a successful load of an empty
      collection. */
  lemma FetchFailureLooksEmpty(s: Page)
    ensures FetchStill(s, Err).after == FetchStill(s, Ok(Some([]))).after
    ensures FetchStill(s, Err).after == FetchStill(s, Ok(None)).after
  {
  }

  /** Search the catalog: a query that is blank once trimmed does nothing; any
      other clears the results, asks for the trimmed query, and shows the hits
      (none when the response has no items or the request fails). */
  function SearchCatalog(s: Page, response: Outcome<Option<seq<Volume>>>): (r: Step<Page>)
    ensures AllWhitespace(s.query) ==> r == Skip(s, false)
    ensures !AllWhitespace(s.query) ==>
      && r.calls == [CatalogQuery(Trim(s.query), SearchLimit)]
      && r.during == s.(loadingSearch := true, results := [])
      && r.after == s.(loadingSearch := false, results := r.after.results)
      && !r.alerted
    ensures !AllWhitespace(s.query) && response.Ok? ==> r.after.results == response.value.GetOr([])
    ensures !AllWhitespace(s.query) && response.Err? ==> r.after.results == []
  {
    var q := Trim(s.query);
    if q == [] then Skip(s, false)
    else
      var during := s.(loadingSearch := true, results := []);
      var hits := if response.Ok? then response.value.GetOr([]) else [];
      Step(during, during.(results := hits, loadingSearch := false), [CatalogQuery(q, SearchLimit)], false)
  }

  /** The text this page sends to the catalog is never blank and never starts or
      ends with whitespace. */
  lemma SearchQueryIsTrimmed(s: Page, response: Outcome<Option<seq<Volume>>>)
    requires SearchCatalog(s, response).calls != []
    ensures var q := SearchCatalog(s, response).calls[0].q;
      q != [] && !IsWhitespace(q[0]) && !IsWhitespace(q[|q| - 1])
  {
  }

  /** Typing in the search box replaces the query; nothing else changes. */
  function TypeQuery(s: Page, text: string): (r: Page)
    ensures r.query == text
    ensures r.(query := s.query) == s
  {
    s.(query := text)
  }

  /** A key pressed in the search box: Enter searches, any other key does nothing. */
  function QueryKeyDown(s: Page, key: string, response: Outcome<Option<seq<Volume>>>): (r: Step<Page>)
    ensures key != "Enter" ==> r == Skip(s, false)
    ensures key == "Enter" ==> r == SearchCatalog(s, response)
  {
    if key == "Enter" then SearchCatalog(s, response) else Skip(s, false)
  }

  /** Typing a query and pressing Enter asks the catalog for the typed text trimmed,
      with this page's limit, unless that text is blank. */
  lemma TypedSearchIsTrimmed(s: Page, text: string, response: Outcome<Option<seq<Volume>>>)
    ensures var r := QueryKeyDown(TypeQuery(s, text), "Enter", response);
      r.calls == if AllWhitespace(text) then [] else [CatalogQuery(Trim(text), 12)]
  {
  }

  // ---------------------------------------------------------------------------
  // Adding a catalog hit

  /** A catalog thumbnail with its first `http://` turned into `https://`; a hit
      without a thumbnail gives `""`. */
  function SecureThumbnail(t: Option<string>): (r: string)
    ensures t.None? ==> r == ""
    ensures t.Some? && (forall i: nat :: !OccursAt(t.value, "http://", i)) ==> r == t.value
    ensures t.Some? ==> forall i: nat :: FirstOccurrence(t.value, "http://", i) ==>
      r == t.value[..i] + "https://" + t.value[i + 7..]
  {
    match t
    case None => ""
    case Some(u) => TextOr(Some(ReplaceFirst(u, "http://", "https://")), "")
  }

  /** An `http://` cover link is upgraded to the same link over `https://`. */
  lemma HttpThumbnailUpgraded(rest: string)
    ensures SecureThumbnail(Some("http://" + rest)) == "https://" + rest
  {
    var u := "http://" + rest;
    assert u[0..7] == "http://";
    assert FirstOccurrence(u, "http://", 0);
    assert u[7..] == rest;
  }

  /** What an emptied or edited number input stores: `""`, or the number. */
  function InputValue(input: Option<nat>): (v: NumField)
    ensures Truthy(v) <==> input.Some? && input.value != 0
    ensures input.Some? ==> v.Num? && v.n == input.value
    ensures input.None? ==> !v.Num? && v != Null
  {
    if input.Some? then Num(input.value) else Blank
  }

  /** The record sent when a hit is added, given the answers to the page-count
      prompt and the bookmark prompt (`None` for a blank or cancelled answer). */
  function AddPayload(book: Volume, pageCountAnswer: Option<nat>, pagesReadAnswer: Option<nat>): (p: Book)
    ensures p.id.None? && p.dateFinished.None?
    ensures p.googleId == Some(book.id)
    ensures p.title.Some? && p.title.value != ""
    ensures Info(book).title.Some? && Info(book).title.value != "" ==> p.title == Info(book).title
    ensures Info(book).title.None? || Info(book).title == Some("") ==> p.title == Some("Untitled")
    ensures p.authors.Some? && (Info(book).authors.Some? ==> p.authors == Info(book).authors)
    ensures Info(book).authors.None? ==> p.authors == Some([])
    ensures p.thumbnail == Some(SecureThumbnail(Info(book).thumbnail))
    ensures pageCountAnswer.None? <==> p.pageCount.Null?
    ensures pageCountAnswer.Some? ==> p.pageCount == Num(pageCountAnswer.value)
    ensures p.pagesRead.Num? && (pagesReadAnswer.Some? ==> p.pagesRead.n == pagesReadAnswer.value)
    ensures pagesReadAnswer.None? ==> p.pagesRead == Num(0)
    ensures p.review == Some("")
  {
    var info := Info(book);
    Book(
      id := None,
      googleId := Some(book.id),
      title := Some(TextOr(info.title, "Untitled")),
      authors := Some(info.authors.GetOr([])),
      thumbnail := Some(SecureThumbnail(info.thumbnail)),
      pageCount := if pageCountAnswer.Some? then Num(pageCountAnswer.value) else Null,
      pagesRead := Num(pagesReadAnswer.GetOr(0)),
      review := Some(""),
      dateFinished := None)
  }

  /** Add a catalog hit: on success the stored record is appended and the search is
      closed; on failure the list stays as it was and the user is alerted; the
      adding marker is cleared either way. */
  function AddFromSearch(s: Page, book: Volume, pageCountAnswer: Option<nat>, pagesReadAnswer: Option<nat>,
                         response: Outcome<Book>): (r: Step<Page>)
    ensures r.calls == [Create(StillReading, AddPayload(book, pageCountAnswer, pagesReadAnswer))]
    ensures r.during == s.(addingId := Marked(book.id))
    ensures r.after.addingId == Unmarked
    ensures r.after.loadingSearch == s.loadingSearch && r.after.savingId == s.savingId
    ensures response.Ok? ==>
      && |r.after.still| == |s.still| + 1
      && r.after.still[..|s.still|] == s.still
      && r.after.still[|s.still|] == response.value
      && r.after.results == [] && r.after.query == ""
      && !r.alerted
    ensures response.Err? ==> r.after == s.(addingId := Unmarked) && r.alerted
  {
    var payload := AddPayload(book, pageCountAnswer, pagesReadAnswer);
    var during := s.(addingId := Marked(book.id));
    match response
    case Ok(saved) =>
      Step(during, during.(still := s.still + [saved], results := [], query := "", addingId := Unmarked),
           [Create(StillReading, payload)], false)
    case Err =>
      Step(during, during.(addingId := Unmarked), [Create(StillReading, payload)], true)
  }

  /** Adding keeps the page a mirror of the store: the page appends the very record
      the store kept, and neither changes when the request fails. */
  lemma AddKeepsMirror(s: Page, st: Store, book: Volume, pageCountAnswer: Option<nat>,
                       pagesReadAnswer: Option<nat>, response: Outcome<Book>)
    requires s.still == st.stillReading
    ensures var r := AddFromSearch(s, book, pageCountAnswer, pagesReadAnswer, response);
      r.after.still == Replay(st, r.calls, [RecordReply(response)]).stillReading
  {
  }

  // ---------------------------------------------------------------------------
  // Bookmark edits and saves

  /** Edit a bookmark in memory: only the `pagesRead` of the records with that id
      changes; nothing is sent. */
  function EditPagesRead(s: Page, itemId: Option<Id>, input: Option<nat>): (r: Page)
    ensures r == s.(still := r.still)
    ensures |r.still| == |s.still|
    ensures forall i :: 0 <= i < |s.still| && s.still[i].id == itemId ==>
      r.still[i] == s.still[i].(pagesRead := InputValue(input))
    ensures forall i :: 0 <= i < |s.still| && s.still[i].id != itemId ==> r.still[i] == s.still[i]
  {
    s.(still := UpdateById(s.still, itemId, (b: Book) => b.(pagesRead := InputValue(input))))
  }

  /** Edit a page count in memory: only the `pageCount` of the records with that
      id changes; nothing is sent. */
  function EditPageCount(s: Page, itemId: Option<Id>, input: Option<nat>): (r: Page)
    ensures r == s.(still := r.still)
    ensures |r.still| == |s.still|
    ensures forall i :: 0 <= i < |s.still| && s.still[i].id == itemId ==>
      r.still[i] == s.still[i].(pageCount := InputValue(input))
    ensures forall i :: 0 <= i < |s.still| && s.still[i].id != itemId ==> r.still[i] == s.still[i]
  {
    s.(still := UpdateById(s.still, itemId, (b: Book) => b.(pageCount := InputValue(input))))
  }

  /** The fields the Save button sends for a record: a bookmark that is not a
      non-zero number goes as 0, a page count that is not a non-zero number goes as
      `null`; numbers otherwise go as held. */
  function ProgressUpdates(item: Book): (u: Fields)
    ensures u.Progress?
    ensures u.pagesRead == 0 <==> !Truthy(item.pagesRead)
    ensures item.pagesRead.Num? ==> u.pagesRead == item.pagesRead.n
    ensures u.pageCount.None? <==> !Truthy(item.pageCount)
    ensures item.pageCount.Num? && u.pageCount.Some? ==> u.pageCount.value == item.pageCount.n
    ensures u.pageCount.Some? ==> u.pageCount.value != 0
  {
    var pagesRead := NumOr(item.pagesRead, Num(0));
    Progress(pagesRead.n, if Truthy(item.pageCount) then Some(item.pageCount.n) else None)
  }

  /** Typing a bookmark and saving sends what was typed; an emptied input sends 0. */
  lemma EditedBookmarkIsSent(s: Page, itemId: Option<Id>, input: Option<nat>, i: nat)
    requires i < |s.still| && s.still[i].id == itemId
    ensures ProgressUpdates(EditPagesRead(s, itemId, input).still[i]).pagesRead == input.GetOr(0)
  {
  }

  /** Typing a page count and saving sends it; an emptied input or 0 sends `null`. */
  lemma EditedPageCountIsSent(s: Page, itemId: Option<Id>, input: Option<nat>, i: nat)
    requires i < |s.still| && s.still[i].id == itemId
    ensures ProgressUpdates(EditPageCount(s, itemId, input).still[i]).pageCount ==
      if input.Some? && input.value != 0 then input else None
  {
  }

  /** Saving right after adding sends back the user's prompt answers: a blank
      bookmark as 0, a blank or zero page count as `null`. */
  lemma AddedProgressIsSent(book: Volume, pageCountAnswer: Option<nat>, pagesReadAnswer: Option<nat>)
    ensures ProgressUpdates(AddPayload(book, pageCountAnswer, pagesReadAnswer)) ==
      Progress(pagesReadAnswer.GetOr(0),
               if pageCountAnswer.Some? && pageCountAnswer.value != 0 then pageCountAnswer else None)
  {
  }

  /** Save a record's progress: on success each record with that id becomes the
      store's response and the others stay in place; on failure the list (with any
      unsaved edits) stays as it was and the user is alerted; the saving marker is
      cleared either way. */
  function SaveProgress(s: Page, itemId: Option<Id>, updates: Fields, response: Outcome<Book>): (r: Step<Page>)
    ensures r.calls == [Update(StillReading, itemId, updates)]
    ensures r.during == s.(savingId := Marked(itemId))
    ensures response.Ok? ==>
      && r.after == s.(still := r.after.still, savingId := Unmarked)
      && |r.after.still| == |s.still|
      && (forall i :: 0 <= i < |s.still| && s.still[i].id == itemId ==> r.after.still[i] == response.value)
      && (forall i :: 0 <= i < |s.still| && s.still[i].id != itemId ==> r.after.still[i] == s.still[i])
      && !r.alerted
    ensures response.Err? ==> r.after == s.(savingId := Unmarked) && r.alerted
  {
    var during := s.(savingId := Marked(itemId));
    var call := Update(StillReading, itemId, updates);
    match response
    case Ok(patched) => Step(during, during.(still := ReplaceById(s.still, itemId, patched), savingId := Unmarked), [call], false)
    case Err => Step(during, during.(savingId := Unmarked), [call], true)
  }

  /** A successful save brings an edited record back in line with the store: if the
      page differed from the store only by unsaved edits to that record, afterwards
      it mirrors the store again. */
  lemma SaveReconcilesEdit(s: Page, st: Store, itemId: Option<Id>, input: Option<nat>, updates: Fields, patched: Book)
    requires s.still == st.stillReading
    ensures var r := SaveProgress(EditPagesRead(s, itemId, input), itemId, updates, Ok(patched));
      r.after.still == Replay(st, r.calls, [RecordReply(Ok(patched))]).stillReading
  {
    ReplaceAfterUpdate(s.still, itemId, (b: Book) => b.(pagesRead := InputValue(input)), patched);
    var call := Update(StillReading, itemId, updates);
    var reply := RecordReply(Ok(patched));
    ReplayOne(st, call, reply);
    var stored := Items(Commit(st, call, reply), StillReading);
    var replaced := ReplaceById(s.still, itemId, patched);
    assert |stored| == |replaced|;
    forall i | 0 <= i < |stored| ensures stored[i] == replaced[i] {
    }
  }

  /** The same holds for an unsaved page-count edit. */
  lemma SavePageCountReconcilesEdit(s: Page, st: Store, itemId: Option<Id>, input: Option<nat>, updates: Fields, patched: Book)
    requires s.still == st.stillReading
    ensures var r := SaveProgress(EditPageCount(s, itemId, input), itemId, updates, Ok(patched));
      r.after.still == Replay(st, r.calls, [RecordReply(Ok(patched))]).stillReading
  {
    ReplaceAfterUpdate(s.still, itemId, (b: Book) => b.(pageCount := InputValue(input)), patched);
    var call := Update(StillReading, itemId, updates);
    var reply := RecordReply(Ok(patched));
    ReplayOne(st, call, reply);
    var stored := Items(Commit(st, call, reply), StillReading);
    var replaced := ReplaceById(s.still, itemId, patched);
    assert |stored| == |replaced|;
    forall i | 0 <= i < |stored| ensures stored[i] == replaced[i] {
    }
  }

  // ---------------------------------------------------------------------------
  // Marking a book as read

  /** The record created in Read for a finished book: its title, authors (default
      none), cover (default `""`) and progress, the calendar day of `isoNow`, and no
      id, catalog id or review. */
  function FinishedRecord(item: Book, isoNow: string): (f: Book)
    ensures f.id.None? && f.googleId.None? && f.review.None?
    ensures f.title == item.title
    ensures f.authors.Some? && (item.authors.Some? ==> f.authors == item.authors)
    ensures item.authors.None? ==> f.authors == Some([])
    ensures f.thumbnail.Some? && (item.thumbnail.Some? ==> f.thumbnail == item.thumbnail)
    ensures item.thumbnail.None? ==> f.thumbnail == Some("")
    ensures Truthy(item.pageCount) ==> f.pageCount == item.pageCount
    ensures !Truthy(item.pageCount) ==> f.pageCount == Null
    ensures Truthy(item.pagesRead) ==> f.pagesRead == item.pagesRead
    ensures !Truthy(item.pagesRead) ==> f.pagesRead == Num(0)
    ensures ProgressUpdates(f) == ProgressUpdates(item)
    ensures f.dateFinished.Some?
    ensures |f.dateFinished.value| == if |isoNow| < 10 then |isoNow| else 10
    ensures f.dateFinished.value == isoNow[..|f.dateFinished.value|]
  {
    Book(
      id := None,
      googleId := None,
      title := item.title,
      authors := Some(item.authors.GetOr([])),
      thumbnail := Some(TextOr(item.thumbnail, "")),
      pageCount := NumOr(item.pageCount, Null),
      pagesRead := NumOr(item.pagesRead, Num(0)),
      review := None,
      dateFinished := Some(Prefix(isoNow, 10)))
  }

  /** Move a book to Read once the user confirms: create the finished record, and
      only if that succeeded delete the original; the page drops the original only
      when both succeeded, and alerts otherwise. */
  function MarkAsRead(s: Page, item: Book, confirmed: bool, isoNow: string,
                      added: Outcome<Book>, removed: Outcome<()>): (r: Step<Page>)
    ensures !confirmed ==> r == Skip(s, false)
    ensures confirmed ==>
      && r.during == s.(savingId := Marked(item.id))
      && r.after.savingId == Unmarked
      && |r.calls| == (if added.Ok? then 2 else 1)
      && r.calls[0] == Create(Read, FinishedRecord(item, isoNow))
      && (added.Ok? ==> r.calls[1] == Remove(StillReading, item.id))
    ensures confirmed && added.Ok? && removed.Ok? ==>
      && r.after == s.(still := r.after.still, savingId := Unmarked)
      && (forall b :: b in r.after.still <==> b in s.still && b.id != item.id)
      && !r.alerted
    ensures confirmed && (added.Err? || removed.Err?) ==> r.after == s.(savingId := Unmarked) && r.alerted
  {
    if !confirmed then Skip(s, false)
    else
      var during := s.(savingId := Marked(item.id));
      var create := Create(Read, FinishedRecord(item, isoNow));
      if added.Err? then
        Step(during, during.(savingId := Unmarked), [create], true)
      else
        var remove := Remove(StillReading, item.id);
        if removed.Err? then
          Step(during, during.(savingId := Unmarked), [create, remove], true)
        else
          Step(during, during.(still := RemoveById(s.still, item.id), savingId := Unmarked), [create, remove], false)
  }

  /** The store's replies to a move's two requests. */
  function MoveReplies(added: Outcome<Book>, removed: Outcome<()>): seq<Reply> {
    [RecordReply(added), EmptyReply(removed)]
  }

  /** Whatever the two requests do, the page's list keeps mirroring the store's
      still-reading collection. */
  lemma MoveKeepsMirror(s: Page, st: Store, item: Book, isoNow: string, added: Outcome<Book>, removed: Outcome<()>)
    requires s.still == st.stillReading
    ensures var r := MarkAsRead(s, item, true, isoNow, added, removed);
      r.after.still == Replay(st, r.calls, MoveReplies(added, removed)).stillReading
  {
    MoveInStore(s, st, item, isoNow, added, removed);
  }

  /** What a confirmed move does to the store: the create's reply lands in Read,
      and the delete, when it was sent and succeeded, empties the original's id out
      of the still-reading collection. */
  lemma MoveInStore(s: Page, st: Store, item: Book, isoNow: string, added: Outcome<Book>, removed: Outcome<()>)
    ensures var calls := MarkAsRead(s, item, true, isoNow, added, removed).calls;
      var st' := Replay(st, calls, MoveReplies(added, removed));
      && st'.wishlist == st.wishlist
      && st'.read == (if added.Ok? then st.read + [added.value] else st.read)
      && st'.stillReading == (if added.Ok? && removed.Ok? then RemoveById(st.stillReading, item.id) else st.stillReading)
  {
    var create := Create(Read, FinishedRecord(item, isoNow));
    var remove := Remove(StillReading, item.id);
    var replies := MoveReplies(added, removed);
    if added.Ok? {
      ReplayTwo(st, create, remove, replies[0], replies[1]);
    } else {
      assert Replay(st, [create], replies) == Replay(Commit(st, create, replies[0]), [], replies[1..]);
    }
  }

  /** A failed create aborts the move: no delete is attempted and neither the page
      nor the store changes. */
  lemma MoveAbortsOnFailedCreate(s: Page, st: Store, item: Book, isoNow: string, removed: Outcome<()>)
    ensures var r := MarkAsRead(s, item, true, isoNow, Err, removed);
      && (forall c :: c in r.calls ==> !c.Remove?)
      && r.after.still == s.still
      && Replay(st, r.calls, MoveReplies(Err, removed)) == st
  {
    var r := MarkAsRead(s, item, true, isoNow, Err, removed);
    assert r.calls == [Create(Read, FinishedRecord(item, isoNow))];
  }

  /** The duplicate window: when the create succeeds and the delete fails, the
      create's reply is in Read while the original stays in the store's
      still-reading collection and on the page, and the user is alerted. (What that
      reply holds is stated by `MoveFilesFinishedRecord`.) */
  lemma MoveDuplicateWindow(s: Page, st: Store, item: Book, isoNow: string, saved: Book)
    requires item in s.still && s.still == st.stillReading
    ensures var r := MarkAsRead(s, item, true, isoNow, Ok(saved), Err);
      var st' := Replay(st, r.calls, MoveReplies(Ok(saved), Err));
      && item in st'.stillReading
      && saved in st'.read
      && item in r.after.still
      && r.alerted
  {
    MoveInStore(s, st, item, isoNow, Ok(saved), Err);
  }

  /** A completed move: the create's reply is in Read, and no record with the
      original's id is left in the store's still-reading collection or on the page. */
  lemma MoveCompletes(s: Page, st: Store, item: Book, isoNow: string, saved: Book)
    requires s.still == st.stillReading
    ensures var r := MarkAsRead(s, item, true, isoNow, Ok(saved), Ok(()));
      var st' := Replay(st, r.calls, MoveReplies(Ok(saved), Ok(())));
      && saved in st'.read
      && (forall b :: b in st'.stillReading ==> b.id != item.id)
      && (forall b :: b in r.after.still ==> b.id != item.id)
      && !r.alerted
  {
    MoveInStore(s, st, item, isoNow, Ok(saved), Ok(()));
  }

  /** When the store keeps the finished record it was sent (adding only an id),
      Read afterwards holds a record with the book's title, authors (default none),
      cover (default `""`) and progress, finished on the calendar day of `isoNow`;
      this holds whether or not the delete then succeeds. */
  lemma MoveFilesFinishedRecord(s: Page, st: Store, item: Book, isoNow: string, saved: Book, removed: Outcome<()>)
    requires saved.(id := None) == FinishedRecord(item, isoNow)
    ensures var r := MarkAsRead(s, item, true, isoNow, Ok(saved), removed);
      var st' := Replay(st, r.calls, MoveReplies(Ok(saved), removed));
      && saved in st'.read
      && saved.title == item.title
      && saved.authors == Some(item.authors.GetOr([]))
      && saved.thumbnail == Some(TextOr(item.thumbnail, ""))
      && ProgressUpdates(saved) == ProgressUpdates(item)
      && saved.dateFinished == Some(Prefix(isoNow, 10))
  {
    MoveInStore(s, st, item, isoNow, Ok(saved), removed);
    var f := FinishedRecord(item, isoNow);
    assert saved.title == f.title && saved.authors == f.authors && saved.thumbnail == f.thumbnail;
    assert saved.pageCount == f.pageCount && saved.pagesRead == f.pagesRead;
    assert saved.dateFinished == f.dateFinished;
  }

  /** The books a completed move leaves keep their relative order: removing from a
      list split in two is removing from each part. */
  lemma MoveKeepsOrder(s: Page, item: Book, isoNow: string, saved: Book, a: seq<Book>, b: seq<Book>)
    requires s.still == a + b
    ensures MarkAsRead(s, item, true, isoNow, Ok(saved), Ok(())).after.still ==
      RemoveById(a, item.id) + RemoveById(b, item.id)
  {
    RemoveByIdAppend(a, b, item.id);
  }
}
