/** The records the three pages keep and send, with JavaScript's view of their
    optional and falsy fields. */
module Records {
  import opened Common

  /** A store-assigned record identifier. */
  type Id = string

  /** A numeric field as the pages hold it: absent (`undefined`), `null`, the empty
      string an emptied number input leaves behind, or a number. */
  datatype NumField = Missing | Null | Blank | Num(n: nat)

  /** JavaScript truthiness of a numeric field: only a non-zero number is truthy. */
  predicate Truthy(f: NumField) {
    f.Num? && f.n != 0
  }

  /** `f || fallback` on a numeric field. */
  function NumOr(f: NumField, fallback: NumField): NumField {
    if Truthy(f) then f else fallback
  }

  /** `t || fallback` on an optional string field: both `undefined` and `""` are falsy. */
  function TextOr(t: Option<string>, fallback: string): string {
    if t.Some? && t.value != "" then t.value else fallback
  }

  /** A book record of any of the three collections, and also the body of a create
      request (which has no `id` yet). Fields a collection does not use stay absent. */
  datatype Book = Book(
    id: Option<Id>,
    googleId: Option<string>,
    title: Option<string>,
    authors: Option<seq<string>>,
    thumbnail: Option<string>,
    pageCount: NumField,
    pagesRead: NumField,
    review: Option<string>,
    dateFinished: Option<string>)

  /** The `volumeInfo` block of a catalog hit; `thumbnail` is `imageLinks?.thumbnail`. */
  datatype VolumeInfo = VolumeInfo(
    title: Option<string>,
    authors: Option<seq<string>>,
    thumbnail: Option<string>)

  /** One catalog search hit: the catalog's volume id and its optional info block. */
  datatype Volume = Volume(id: string, volumeInfo: Option<VolumeInfo>)

  /** `book.volumeInfo || {}`: a hit without an info block reads as all fields absent. */
  function Info(v: Volume): (info: VolumeInfo)
    ensures v.volumeInfo.Some? ==> info == v.volumeInfo.value
    ensures v.volumeInfo.None? ==> info.title.None? && info.authors.None? && info.thumbnail.None?
  {
    v.volumeInfo.GetOr(VolumeInfo(None, None, None))
  }
}
