/** The list updates every page applies to its in-memory mirror: `map` by id,
    `filter` by id and `some` on the catalog id. */
module Lists {
  import opened Common
  import opened Records

  /** `items.map(it => it.id === id ? f(it) : it)`. */
  function UpdateById(items: seq<Book>, id: Option<Id>, f: Book -> Book): (r: seq<Book>)
    ensures |r| == |items|
    ensures forall i :: 0 <= i < |items| && items[i].id == id ==> r[i] == f(items[i])
    ensures forall i :: 0 <= i < |items| && items[i].id != id ==> r[i] == items[i]
  {
    if items == [] then []
    else [if items[0].id == id then f(items[0]) else items[0]] + UpdateById(items[1..], id, f)
  }

  /** `items.map(it => it.id === id ? rec : it)`. */
  function ReplaceById(items: seq<Book>, id: Option<Id>, rec: Book): (r: seq<Book>)
    ensures |r| == |items|
    ensures forall i :: 0 <= i < |items| ==> r[i] == if items[i].id == id then rec else items[i]
  {
    UpdateById(items, id, _ => rec)
  }

  /** `items.filter(it => it.id !== id)`. */
  function RemoveById(items: seq<Book>, id: Option<Id>): (r: seq<Book>)
    ensures |r| <= |items|
    ensures forall b :: b in r <==> b in items && b.id != id
  {
    if items == [] then []
    else if items[0].id == id then RemoveById(items[1..], id)
    else [items[0]] + RemoveById(items[1..], id)
  }

  /** `items.some(w => w.googleId === gid)`. */
  function AnyWithGoogleId(items: seq<Book>, gid: string): (r: bool)
    ensures r <==> exists b :: b in items && b.googleId == Some(gid)
  {
    if items == [] then false
    else items[0].googleId == Some(gid) || AnyWithGoogleId(items[1..], gid)
  }

  /** The duplicate check over two lists joined is the check over either part. */
  lemma {:induction false} AnyWithGoogleIdAppend(a: seq<Book>, b: seq<Book>, gid: string)
    ensures AnyWithGoogleId(a + b, gid) == (AnyWithGoogleId(a, gid) || AnyWithGoogleId(b, gid))
    decreases |a|
  {
    if a == [] {
      assert a + b == b;
    } else {
      assert (a + b)[1..] == a[1..] + b;
      AnyWithGoogleIdAppend(a[1..], b, gid);
    }
  }

  /** No two records of `items` carry the same catalog id. */
  predicate UniqueGoogleIds(items: seq<Book>) {
    forall i, j :: 0 <= i < j < |items| && items[i].googleId.Some? ==> items[i].googleId != items[j].googleId
  }

  /** Filtering distributes over concatenation, so it keeps the survivors in their
      original relative order. */
  lemma {:induction false} RemoveByIdAppend(a: seq<Book>, b: seq<Book>, id: Option<Id>)
    ensures RemoveById(a + b, id) == RemoveById(a, id) + RemoveById(b, id)
    decreases |a|
  {
    if a == [] {
      assert a + b == b;
    } else {
      assert (a + b)[1..] == a[1..] + b;
      RemoveByIdAppend(a[1..], b, id);
    }
  }

  /** Filtering out an id nobody carries changes nothing. */
  lemma {:induction false} RemoveByIdAbsent(items: seq<Book>, id: Option<Id>)
    requires forall b :: b in items ==> b.id != id
    ensures RemoveById(items, id) == items
    decreases |items|
  {
    if items != [] {
      assert items[0] in items;
      RemoveByIdAbsent(items[1..], id);
      assert items == [items[0]] + items[1..];
    }
  }

  /** Filtering removes exactly the records carrying the id: the length drops by
      their number. */
  lemma {:induction false} RemoveByIdCount(items: seq<Book>, id: Option<Id>)
    ensures |RemoveById(items, id)| == |items| - CountId(items, id)
    decreases |items|
  {
    if items != [] {
      RemoveByIdCount(items[1..], id);
    }
  }

  /** The number of records of `items` carrying `id`. */
  function CountId(items: seq<Book>, id: Option<Id>): nat {
    if items == [] then 0
    else (if items[0].id == id then 1 else 0) + CountId(items[1..], id)
  }

  /** Replacing records by id after an id-preserving rewrite of the same records is
      the replacement alone: a save's response overrides an unsaved local edit. */
  lemma {:induction false} ReplaceAfterUpdate(items: seq<Book>, id: Option<Id>, f: Book -> Book, rec: Book)
    requires forall b: Book :: f(b).id == b.id
    ensures ReplaceById(UpdateById(items, id, f), id, rec) == ReplaceById(items, id, rec)
  {
    var edited := UpdateById(items, id, f);
    var lhs := ReplaceById(edited, id, rec);
    var rhs := ReplaceById(items, id, rec);
    forall i | 0 <= i < |lhs| ensures lhs[i] == rhs[i] {
      assert edited[i].id == items[i].id;
    }
  }
}
