/** The wishlist page: its mirror of the wishlist collection, the catalog search,
    adding a hit unless its catalog id is already listed, and deleting. */
module Wish {
  import opened Common
  import opened Records
  import opened Text
  import opened Lists
  import opened Remote
  import opened RecordStore
  import Stillreading

  /** The number of catalog hits this page asks for. */
  const SearchLimit: nat := 10

  datatype Page = Page(
    query: string,
    results: seq<Volume>,
    loading: bool,
    wishlist: seq<Book>,
    addingId: Mark<string>,
    processingId: Mark<Option<Id>>)

  // ---------------------------------------------------------------------------
  // Loading and searching

  /** Load the whole collection: the response as it came, or `[]` when the request
      fails. */
  function FetchWishlist(s: Page, response: Outcome<seq<Book>>): (r: Step<Page>)
    ensures r.calls == [Fetch(Wishlist)] && r.during == s && !r.alerted
    ensures response.Ok? ==> r.after == s.(wishlist := response.value)
    ensures response.Err? ==> r.after == s.(wishlist := [])
  {
    var items := if response.Ok? then response.value else [];
    Step(s, s.(wishlist := items), [Fetch(Wishlist)], false)
  }

  /** A failed load cannot be told apart from a successful load of an empty
      collection. */
  lemma FetchFailureLooksEmpty(s: Page)
    ensures FetchWishlist(s, Err).after == FetchWishlist(s, Ok([])).after
  {
  }

  /** Search the catalog: a query that is blank once trimmed does nothing; any
      other clears the results and asks for the query as typed (untrimmed); the hits
      are shown on success, and the results stay cleared on failure. */
  function SearchCatalog(s: Page, response: Outcome<Option<seq<Volume>>>): (r: Step<Page>)
    ensures AllWhitespace(s.query) ==> r == Skip(s, false)
    ensures !AllWhitespace(s.query) ==>
      && r.calls == [CatalogQuery(s.query, SearchLimit)]
      && r.during == s.(loading := true, results := [])
      && r.after == s.(loading := false, results := r.after.results)
      && !r.alerted
    ensures !AllWhitespace(s.query) && response.Ok? ==> r.after.results == response.value.GetOr([])
    ensures !AllWhitespace(s.query) && response.Err? ==> r.after.results == []
  {
    if Trim(s.query) == [] then Skip(s, false)
    else
      var during := s.(loading := true, results := []);
      var after := match response
        case Ok(items) => during.(results := items.GetOr([]), loading := false)
        case Err => during.(loading := false);
      Step(during, after, [CatalogQuery(s.query, SearchLimit)], false)
  }

  /** Typing in the search box replaces the query; nothing else changes. */
  function TypeQuery(s: Page, text: string): (r: Page)
    ensures r.query == text
    ensures r.(query := s.query) == s
  {
    s.(query := text)
  }

  /** A key pressed in the search box: Enter searches, any other key does nothing. */
  function QueryKeyDown(s: Page, key: string, response: Outcome<Option<seq<Volume>>>): (r: Step<Page>)
    ensures key != "Enter" ==> r == Skip(s, false)
    ensures key == "Enter" ==> r == SearchCatalog(s, response)
  {
    if key == "Enter" then SearchCatalog(s, response) else Skip(s, false)
  }

  /** Typing a query and pressing Enter asks the catalog for exactly the typed text,
      surrounding whitespace included, with this page's limit, unless it is blank. */
  lemma TypedSearchIsUntrimmed(s: Page, text: string, response: Outcome<Option<seq<Volume>>>)
    ensures var r := QueryKeyDown(TypeQuery(s, text), "Enter", response);
      r.calls == if AllWhitespace(text) then [] else [CatalogQuery(text, 10)]
  {
  }

  /** The two pages share the blank-query guard: for the same query, both search or
      neither does, and when they do they send the same text up to trimming, with
      their own limits. */
  lemma SearchGuardsAgree(w: Page, p: Stillreading.Page, wr: Outcome<Option<seq<Volume>>>,
                          pr: Outcome<Option<seq<Volume>>>)
    requires w.query == p.query
    ensures var wc := SearchCatalog(w, wr).calls;
      var pc := Stillreading.SearchCatalog(p, pr).calls;
      && (wc == [] <==> pc == [])
      && (wc != [] ==> wc == [CatalogQuery(w.query, 10)] && pc == [CatalogQuery(Trim(w.query), 12)])
  {
  }

  // ---------------------------------------------------------------------------
  // Adding a catalog hit

  /** The record sent when a hit is added: its catalog id, its title as it came,
      its authors (default none) and its cover as it came (default `""`), and
      nothing else. */
  function WishPayload(book: Volume): (p: Book)
    ensures p.id.None? && p.review.None? && p.dateFinished.None?
    ensures p.pageCount.Missing? && p.pagesRead.Missing?
    ensures p.googleId == Some(book.id)
    ensures p.title == Info(book).title
    ensures p.authors.Some? && (Info(book).authors.Some? ==> p.authors == Info(book).authors)
    ensures Info(book).authors.None? ==> p.authors == Some([])
    ensures p.thumbnail.Some? && (Info(book).thumbnail.Some? ==> p.thumbnail == Info(book).thumbnail)
    ensures Info(book).thumbnail.None? ==> p.thumbnail == Some("")
  {
    var info := Info(book);
    Book(
      id := None,
      googleId := Some(book.id),
      title := info.title,
      authors := Some(info.authors.GetOr([])),
      thumbnail := Some(TextOr(info.thumbnail, "")),
      pageCount := Missing,
      pagesRead := Missing,
      review := None,
      dateFinished := None)
  }

  /** The two pages build their payloads from a hit alike, except that the
      still-reading page upgrades the cover link to https and names an untitled
      book "Untitled". */
  lemma PayloadsAgree(book: Volume, pageCountAnswer: Option<nat>, pagesReadAnswer: Option<nat>)
    ensures var w := WishPayload(book);
      var p := Stillreading.AddPayload(book, pageCountAnswer, pagesReadAnswer);
      && p.googleId == w.googleId
      && p.authors == w.authors
      && p.thumbnail == Some(ReplaceFirst(w.thumbnail.value, "http://", "https://"))
      && (w.title.Some? && w.title.value != "" ==> p.title == w.title)
      && (w.title.None? || w.title == Some("") ==> p.title == Some("Untitled"))
  {
    var w := WishPayload(book);
    if Info(book).thumbnail.None? || Info(book).thumbnail == Some("") {
      assert w.thumbnail.value == "";
      assert forall i: nat :: !OccursAt("", "http://", i);
    }
  }

  /** Add a hit: when a listed record already has its catalog id the user is alerted
      and nothing else happens; otherwise the hit is sent, the stored record is
      appended on success (closing the search), the list stays as it was on failure
      (with an alert), and the adding marker is cleared either way. */
  function AddToWishlist(s: Page, book: Volume, response: Outcome<Book>): (r: Step<Page>)
    ensures AnyWithGoogleId(s.wishlist, book.id) ==> r == Skip(s, true)
    ensures !AnyWithGoogleId(s.wishlist, book.id) ==>
      && r.calls == [Create(Wishlist, WishPayload(book))]
      && r.during == s.(addingId := Marked(book.id))
      && r.after.addingId == Unmarked
      && r.after.loading == s.loading && r.after.processingId == s.processingId
    ensures !AnyWithGoogleId(s.wishlist, book.id) && response.Ok? ==>
      && |r.after.wishlist| == |s.wishlist| + 1
      && r.after.wishlist[..|s.wishlist|] == s.wishlist
      && r.after.wishlist[|s.wishlist|] == response.value
      && r.after.results == [] && r.after.query == ""
      && !r.alerted
    ensures !AnyWithGoogleId(s.wishlist, book.id) && response.Err? ==>
      r.after == s.(addingId := Unmarked) && r.alerted
  {
    var payload := WishPayload(book);
    if AnyWithGoogleId(s.wishlist, payload.googleId.value) then Skip(s, true)
    else
      var during := s.(addingId := Marked(book.id));
      match response
      case Ok(saved) =>
        Step(during, during.(wishlist := s.wishlist + [saved], results := [], query := "", addingId := Unmarked),
             [Create(Wishlist, payload)], false)
      case Err =>
        Step(during, during.(addingId := Unmarked), [Create(Wishlist, payload)], true)
  }

  /** Adding keeps the page a mirror of the store: a refused duplicate sends nothing,
      and otherwise the page appends the very record the store kept. */
  lemma AddKeepsMirror(s: Page, st: Store, book: Volume, response: Outcome<Book>)
    requires s.wishlist == st.wishlist
    ensures var r := AddToWishlist(s, book, response);
      r.after.wishlist == Replay(st, r.calls, [RecordReply(response)]).wishlist
  {
  }

  /** The wishlist's one uniqueness rule: when the store keeps the catalog id it was
      sent, adding never puts a second record with the same catalog id on the page. */
  lemma {:induction false} AddKeepsGoogleIdsUnique(s: Page, book: Volume, response: Outcome<Book>)
    requires UniqueGoogleIds(s.wishlist)
    requires response.Ok? ==> response.value.googleId == Some(book.id)
    ensures UniqueGoogleIds(AddToWishlist(s, book, response).after.wishlist)
  {
    var r := AddToWishlist(s, book, response);
    if !AnyWithGoogleId(s.wishlist, book.id) && response.Ok? {
      var items := r.after.wishlist;
      forall i, j | 0 <= i < j < |items| && items[i].googleId.Some?
        ensures items[i].googleId != items[j].googleId
      {
        assert items[i] == s.wishlist[i];
        if j == |s.wishlist| {
          assert s.wishlist[i] in s.wishlist;
        } else {
          assert items[j] == s.wishlist[j];
        }
      }
    }
  }

  /** Successive adds. */
  ghost function AddAll(s: Page, books: seq<Volume>, saved: seq<Book>): Page
    requires |books| == |saved|
    decreases |books|
  {
    if books == [] then s
    else AddAll(AddToWishlist(s, books[0], Ok(saved[0])).after, books[1..], saved[1..])
  }

  /** Adding a hit whose catalog id is not listed, accepted by the store, appends
      the stored record. */
  lemma AddFreshAppends(s: Page, book: Volume, saved: Book)
    requires !AnyWithGoogleId(s.wishlist, book.id)
    ensures AddToWishlist(s, book, Ok(saved)).after.wishlist == s.wishlist + [saved]
  {
  }

  /** Catalog ids that are neither listed nor the appended record's stay unlisted. */
  lemma StillUnlisted(items: seq<Book>, saved: Book, ids: seq<string>)
    requires forall i :: 0 <= i < |ids| ==> !AnyWithGoogleId(items, ids[i]) && saved.googleId != Some(ids[i])
    ensures forall i :: 0 <= i < |ids| ==> !AnyWithGoogleId(items + [saved], ids[i])
  {
    forall i | 0 <= i < |ids| ensures !AnyWithGoogleId(items + [saved], ids[i]) {
      AnyWithGoogleIdAppend(items, [saved], ids[i]);
      assert AnyWithGoogleId([saved], ids[i]) == (saved.googleId == Some(ids[i]));
    }
  }

  /** The catalog ids of `books`; naming them as one sequence keeps the proof of
      `AddingDistinctBooks` small and stable. */
  function CatalogIds(books: seq<Volume>): (ids: seq<string>)
    ensures |ids| == |books| && forall i :: 0 <= i < |books| ==> ids[i] == books[i].id
  {
    seq(|books|, i requires 0 <= i < |books| => books[i].id)
  }

  /** Adding hits with distinct catalog ids none of which is listed yet, each
      accepted by the store with its catalog id kept, lists every stored record, in
      order, after the ones already there. */
  lemma {:induction false} AddingDistinctBooks(s: Page, books: seq<Volume>, saved: seq<Book>)
    requires |books| == |saved|
    requires forall i :: 0 <= i < |books| ==> saved[i].googleId == Some(books[i].id)
    requires forall i, j :: 0 <= i < j < |books| ==> books[i].id != books[j].id
    requires forall i :: 0 <= i < |books| ==> !AnyWithGoogleId(s.wishlist, books[i].id)
    ensures AddAll(s, books, saved).wishlist == s.wishlist + saved
    decreases |books|
  {
    if books != [] {
      var s1 := AddToWishlist(s, books[0], Ok(saved[0])).after;
      AddFreshAppends(s, books[0], saved[0]);
      var rest := books[1..];
      StillUnlisted(s.wishlist, saved[0], CatalogIds(rest));
      AddingDistinctBooks(s1, rest, saved[1..]);
      assert AddAll(s, books, saved) == AddAll(s1, rest, saved[1..]);
      AppendHeadThenTail(s.wishlist, saved);
    }
  }

  // ---------------------------------------------------------------------------
  // Deleting

  /** Delete a record once the user confirms: on success every record with that id
      leaves the page; on failure the list stays as it was and the user is alerted;
      the processing marker is cleared either way. */
  function Delete(s: Page, id: Option<Id>, confirmed: bool, response: Outcome<()>): (r: Step<Page>)
    ensures !confirmed ==> r == Skip(s, false)
    ensures confirmed ==>
      && r.calls == [Remove(Wishlist, id)]
      && r.during == s.(processingId := Marked(id))
      && r.after.processingId == Unmarked
    ensures confirmed && response.Ok? ==>
      && r.after == s.(wishlist := r.after.wishlist, processingId := Unmarked)
      && (forall b :: b in r.after.wishlist <==> b in s.wishlist && b.id != id)
      && |r.after.wishlist| == |s.wishlist| - CountId(s.wishlist, id)
      && !r.alerted
    ensures confirmed && response.Err? ==> r.after == s.(processingId := Unmarked) && r.alerted
  {
    if !confirmed then Skip(s, false)
    else
      var during := s.(processingId := Marked(id));
      match response
      case Ok(_) =>
        RemoveByIdCount(s.wishlist, id);
        Step(during, during.(wishlist := RemoveById(s.wishlist, id), processingId := Unmarked), [Remove(Wishlist, id)], false)
      case Err =>
        Step(during, during.(processingId := Unmarked), [Remove(Wishlist, id)], true)
  }

  /** Deleting keeps the page a mirror of the store, whatever the outcome. */
  lemma DeleteKeepsMirror(s: Page, st: Store, id: Option<Id>, confirmed: bool, response: Outcome<()>)
    requires s.wishlist == st.wishlist
    ensures var r := Delete(s, id, confirmed, response);
      r.after.wishlist == Replay(st, r.calls, [EmptyReply(response)]).wishlist
  {
  }

  /** The records a delete leaves keep their relative order: deleting from a list
      split in two is deleting from each part. */
  lemma DeleteKeepsOrder(s: Page, a: seq<Book>, b: seq<Book>, id: Option<Id>)
    requires s.wishlist == a + b
    ensures Delete(s, id, true, Ok(())).after.wishlist == RemoveById(a, id) + RemoveById(b, id)
  {
    RemoveByIdAppend(a, b, id);
  }
}
