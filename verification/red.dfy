/** The read page: its mirror of the finished collection, deleting, and the
    one-record-at-a-time review editor. */
module Red {
  import opened Common
  import opened Records
  import opened Text
  import opened Lists
  import opened Remote
  import opened RecordStore

  datatype Page = Page(
    books: seq<Book>,  // the `reads` list
    loading: bool,
    processingId: Mark<Option<Id>>,
    editingId: Mark<Option<Id>>,
    reviewDraft: string,
    savingReviewId: Mark<Option<Id>>)

  /** Load the whole collection: the page shows "loading" while the request is out
      and not afterwards; it then holds the response, or `[]` when the request fails. */
  function FetchReads(s: Page, response: Outcome<seq<Book>>): (r: Step<Page>)
    ensures r.calls == [Fetch(Read)] && !r.alerted
    ensures r.during == s.(loading := true)
    ensures !r.after.loading
    ensures response.Ok? ==> r.after == s.(books := response.value, loading := false)
    ensures response.Err? ==> r.after == s.(books := [], loading := false)
  {
    var during := s.(loading := true);
    var items := if response.Ok? then response.value else [];
    Step(during, during.(books := items, loading := false), [Fetch(Read)], false)
  }

  /** A failed load cannot be told apart from a successful load of an empty
      collection. */
  lemma FetchFailureLooksEmpty(s: Page)
    ensures FetchReads(s, Err).after == FetchReads(s, Ok([])).after
  {
  }

  /** Delete a record once the user confirms: on success every record with that id
      leaves the page; on failure the list stays as it was and the user is alerted;
      the processing marker is cleared either way. */
  function Delete(s: Page, id: Option<Id>, confirmed: bool, response: Outcome<()>): (r: Step<Page>)
    ensures !confirmed ==> r == Skip(s, false)
    ensures confirmed ==>
      && r.calls == [Remove(Read, id)]
      && r.during == s.(processingId := Marked(id))
      && r.after.processingId == Unmarked
    ensures confirmed && response.Ok? ==>
      && r.after == s.(books := r.after.books, processingId := Unmarked)
      && (forall b :: b in r.after.books <==> b in s.books && b.id != id)
      && |r.after.books| == |s.books| - CountId(s.books, id)
      && !r.alerted
    ensures confirmed && response.Err? ==> r.after == s.(processingId := Unmarked) && r.alerted
  {
    if !confirmed then Skip(s, false)
    else
      var during := s.(processingId := Marked(id));
      match response
      case Ok(_) =>
        RemoveByIdCount(s.books, id);
        Step(during, during.(books := RemoveById(s.books, id), processingId := Unmarked), [Remove(Read, id)], false)
      case Err =>
        Step(during, during.(processingId := Unmarked), [Remove(Read, id)], true)
  }

  /** Deleting keeps the page a mirror of the store, whatever the outcome. */
  lemma DeleteKeepsMirror(s: Page, st: Store, id: Option<Id>, confirmed: bool, response: Outcome<()>)
    requires s.books == st.read
    ensures var r := Delete(s, id, confirmed, response);
      r.after.books == Replay(st, r.calls, [EmptyReply(response)]).read
  {
  }

  /** The records a delete leaves keep their relative order: deleting from a list
      split in two is deleting from each part. */
  lemma DeleteKeepsOrder(s: Page, a: seq<Book>, b: seq<Book>, id: Option<Id>)
    requires s.books == a + b
    ensures Delete(s, id, true, Ok(())).after.books == RemoveById(a, id) + RemoveById(b, id)
  {
    RemoveByIdAppend(a, b, id);
  }

  /** Open the review editor on a record (its edit button is shown only while that
      record is not the one being edited): the single edit slot now holds it, and the
      draft starts from its review, or `""`, whatever was being drafted before. */
  function OpenEdit(s: Page, book: Book): (r: Page)
    requires s.editingId != Marked(book.id)
    ensures r.editingId == Marked(book.id)
    ensures book.review.Some? ==> r.reviewDraft == book.review.value
    ensures book.review.None? ==> r.reviewDraft == ""
    ensures r == s.(editingId := Marked(book.id), reviewDraft := r.reviewDraft)
  {
    s.(editingId := Marked(book.id), reviewDraft := TextOr(book.review, ""))
  }

  /** Opening another record's editor discards the draft in progress: the result
      does not depend on it. */
  lemma OpenEditDiscardsDraft(s: Page, book: Book, draft: string)
    requires s.editingId != Marked(book.id)
    ensures OpenEdit(s.(reviewDraft := draft), book) == OpenEdit(s, book)
  {
  }

  /** Typing in the review box replaces the draft. */
  function TypeReview(s: Page, text: string): (r: Page)
    ensures r.reviewDraft == text
    ensures r.(reviewDraft := s.reviewDraft) == s
  {
    s.(reviewDraft := text)
  }

  /** Save the draft as the review of record `id`: the trimmed draft is the only field
      sent. On success each record with that id becomes the store's response, or,
      when the response is empty, itself with the trimmed review; the editor closes
      and the draft is cleared. On failure the list, the editor and the draft stay as
      they were and the user is alerted. The saving marker is cleared either way. */
  function SaveReview(s: Page, id: Option<Id>, response: Outcome<Option<Book>>): (r: Step<Page>)
    ensures r.calls == [Update(Read, id, Review(Trim(s.reviewDraft)))]
    ensures r.during == s.(savingReviewId := Marked(id))
    ensures r.after.savingReviewId == Unmarked
    ensures response.Ok? ==>
      && r.after == s.(books := r.after.books, editingId := Unmarked, reviewDraft := "", savingReviewId := Unmarked)
      && |r.after.books| == |s.books|
      && (forall i :: 0 <= i < |s.books| && s.books[i].id == id && response.value.Some? ==>
            r.after.books[i] == response.value.value)
      && (forall i :: 0 <= i < |s.books| && s.books[i].id == id && response.value.None? ==>
            r.after.books[i] == s.books[i].(review := Some(Trim(s.reviewDraft))))
      && (forall i :: 0 <= i < |s.books| && s.books[i].id != id ==> r.after.books[i] == s.books[i])
      && !r.alerted
    ensures response.Err? ==> r.after == s.(savingReviewId := Unmarked) && r.alerted
  {
    var trimmed := Trim(s.reviewDraft);
    var during := s.(savingReviewId := Marked(id));
    var call := Update(Read, id, Review(trimmed));
    match response
    case Ok(patched) =>
      var books := UpdateById(s.books, id, (b: Book) => patched.GetOr(b.(review := Some(trimmed))));
      assert forall i :: 0 <= i < |s.books| && s.books[i].id == id ==>
        books[i] == patched.GetOr(s.books[i].(review := Some(trimmed)));
      Step(during, during.(books := books, editingId := Unmarked, reviewDraft := "", savingReviewId := Unmarked), [call], false)
    case Err =>
      Step(during, during.(savingReviewId := Unmarked), [call], true)
  }

  /** Saving a review keeps the page a mirror of the store, including when the store
      answers with an empty body and the page merges the review in itself. */
  lemma SaveReviewKeepsMirror(s: Page, st: Store, id: Option<Id>, response: Outcome<Option<Book>>)
    requires s.books == st.read
    ensures var r := SaveReview(s, id, response);
      r.after.books == Replay(st, r.calls, [BodyReply(response)]).read
  {
    if response.Ok? {
      var trimmed := Trim(s.reviewDraft);
      var call := Update(Read, id, Review(trimmed));
      ReplayOne(st, call, BodyReply(response));
      var stored := Commit(st, call, BodyReply(response)).read;
      var shown := SaveReview(s, id, response).after.books;
      forall i | 0 <= i < |stored| ensures stored[i] == shown[i] {
        if st.read[i].id == id {
          assert stored[i] == response.value.GetOr(Merge(st.read[i], Review(trimmed)));
        }
      }
    }
  }

  /** Editing a review end to end: open the editor on a listed record, type, and
      save with an empty response; that record now holds the typed text trimmed,
      with no surrounding whitespace, and the editor is closed. */
  lemma EditReviewRoundTrip(s: Page, i: nat, text: string)
    requires i < |s.books| && s.editingId != Marked(s.books[i].id)
    ensures var book := s.books[i];
      var r := SaveReview(TypeReview(OpenEdit(s, book), text), book.id, Ok(None));
      && r.after.books[i].review == Some(Trim(text))
      && Tight(r.after.books[i].review.value)
      && r.after.editingId == Unmarked && r.after.reviewDraft == ""
  {
  }

  /** A failed save leaves the editor open on the same record with the same draft,
      so the user can retry. */
  lemma FailedSaveKeepsEditor(s: Page, id: Option<Id>)
    ensures var r := SaveReview(s, id, Err);
      r.after.editingId == s.editingId && r.after.reviewDraft == s.reviewDraft && r.after.books == s.books
  {
  }
}
