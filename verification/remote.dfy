/** The requests a page sends and the shape of one handler run. */
module Remote {
  import opened Common
  import opened Records

  /** The three remote collections. */
  datatype Collection = Wishlist | StillReading | Read

  /** The body of a PATCH request: the bookmark save or the review save. */
  datatype Fields =
    | Progress(pagesRead: nat, pageCount: Option<nat>)
    | Review(review: string)

  /** One request a handler issues, in the order it issues them. */
  datatype Call =
    | Fetch(col: Collection)
    | Create(col: Collection, payload: Book)
    | Update(col: Collection, id: Option<Id>, fields: Fields)
    | Remove(col: Collection, id: Option<Id>)
      /** A catalog volumes query: the text before URL encoding and the result limit. */
    | CatalogQuery(q: string, maxResults: nat)

  /** One handler run taken as an atomic transition: the page state while its
      remote calls are outstanding, the state once they settled, the requests it
      issued, and whether it raised an `alert`. */
  datatype Step<S> = Step(during: S, after: S, calls: seq<Call>, alerted: bool)

  /** A handler that returned before doing anything. */
  function Skip<S>(s: S, alerted: bool): Step<S> {
    Step(s, s, [], alerted)
  }
}

/** The remote record store, as the pages assume it behaves: a list per collection
    that each successful request changes exactly as its response says. */
module RecordStore {
  import opened Common
  import opened Records
  import opened Lists
  import opened Remote

  datatype Store = Store(wishlist: seq<Book>, stillReading: seq<Book>, read: seq<Book>)

  function Items(st: Store, col: Collection): seq<Book> {
    match col
    case Wishlist => st.wishlist
    case StillReading => st.stillReading
    case Read => st.read
  }

  function WithItems(st: Store, col: Collection, items: seq<Book>): (r: Store)
    ensures Items(r, col) == items
    ensures forall c :: c != col ==> Items(r, c) == Items(st, c)
  {
    match col
    case Wishlist => st.(wishlist := items)
    case StillReading => st.(stillReading := items)
    case Read => st.(read := items)
  }

  /** A record with a PATCH body's fields merged in. */
  function Merge(b: Book, fields: Fields): Book {
    match fields
    case Progress(pagesRead, pageCount) =>
      b.(pagesRead := Num(pagesRead), pageCount := if pageCount.Some? then Num(pageCount.value) else Null)
    case Review(text) => b.(review := Some(text))
  }

  /** A successful POST: the store keeps the record it returned, at the end. */
  function Created(st: Store, col: Collection, saved: Book): Store {
    WithItems(st, col, Items(st, col) + [saved])
  }

  /** A successful PATCH: the records with that id become the returned record, or,
      when the response body is empty, themselves with the sent fields merged in. */
  function Patched(st: Store, col: Collection, id: Option<Id>, fields: Fields, reply: Option<Book>): Store {
    WithItems(st, col, UpdateById(Items(st, col), id, b => reply.GetOr(Merge(b, fields))))
  }

  /** A successful DELETE: the records with that id are gone. */
  function Deleted(st: Store, col: Collection, id: Option<Id>): Store {
    WithItems(st, col, RemoveById(Items(st, col), id))
  }

  /** How the store answered one request: it failed, or it succeeded with a
      response body (a record, or nothing). */
  datatype Reply = Failed | Answered(body: Option<Book>)

  /** The store after it answered `call` with `reply`. */
  function Commit(st: Store, call: Call, reply: Reply): Store {
    if reply.Failed? then st
    else
      match call
      case Create(col, payload) => Created(st, col, reply.body.GetOr(payload))
      case Update(col, id, fields) => Patched(st, col, id, fields, reply.body)
      case Remove(col, id) => Deleted(st, col, id)
      case Fetch(_) => st
      case CatalogQuery(_, _) => st
  }

  /** The store after it answered a handler's requests in order; a request without
      a reply leaves it as it was. */
  function Replay(st: Store, calls: seq<Call>, replies: seq<Reply>): Store
    decreases |calls|
  {
    if calls == [] || replies == [] then st
    else Replay(Commit(st, calls[0], replies[0]), calls[1..], replies[1..])
  }

  /** Replaying one request is committing it. */
  lemma ReplayOne(st: Store, call: Call, reply: Reply)
    ensures Replay(st, [call], [reply]) == Commit(st, call, reply)
  {
    assert [call][1..] == [];
  }

  /** Replaying two requests commits them in order. */
  lemma ReplayTwo(st: Store, first: Call, second: Call, r1: Reply, r2: Reply)
    ensures Replay(st, [first, second], [r1, r2]) == Commit(Commit(st, first, r1), second, r2)
  {
    assert [first, second][1..] == [second];
    assert [r1, r2][1..] == [r2];
    ReplayOne(Commit(st, first, r1), second, r2);
  }

  /** A call that resolves to a record, as the store's reply. */
  function RecordReply(o: Outcome<Book>): Reply {
    if o.Ok? then Answered(Some(o.value)) else Failed
  }

  /** A call that resolves to a record or an empty body, as the store's reply. */
  function BodyReply(o: Outcome<Option<Book>>): Reply {
    if o.Ok? then Answered(o.value) else Failed
  }

  /** A call whose resolved value is ignored, as the store's reply. */
  function EmptyReply(o: Outcome<()>): Reply {
    if o.Ok? then Answered(None) else Failed
  }
}
