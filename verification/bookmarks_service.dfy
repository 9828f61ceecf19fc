/** The bookmarks table and the four operations of the store facade
    (getAllBookmarks, getById, insertBookmark, deleteBookmark), as pure
    functions over an immutable map from id to row. */
module BookmarksService {
  import opened Wrappers

  /** A row of the bookmarks table; `description` is the one nullable column. */
  datatype Bookmark = Bookmark(id: nat, title: string, url: string, rating: int, description: Option<string>)

  /** The columns a caller supplies to an insert; the table assigns the id. */
  datatype NewBookmark = NewBookmark(title: string, url: string, rating: int, description: Option<string>)

  /** The table's rows keyed by id, and the next value of its id sequence.
      The sequence only moves forward, so a deleted id is never handed out again. */
  datatype Store = Store(rows: map<nat, Bookmark>, nextId: nat)

  /** The result of an insert: the new table and the full row as stored. */
  datatype Inserted = Inserted(store: Store, row: Bookmark)

  /** The result of a delete: the new table and the number of rows removed. */
  datatype Deleted = Deleted(store: Store, count: nat)

  /** An empty table whose id sequence starts at 1. */
  const Empty: Store := Store(map[], 1)

  /** Every row is filed under its own id. */
  ghost predicate Keyed(rows: map<nat, Bookmark>) {
    forall k :: k in rows ==> rows[k].id == k
  }

  /** The table invariant: rows are filed under their ids, and every id in use
      was drawn from the sequence (positive, below its next value). */
  ghost predicate Valid(s: Store) {
    && 1 <= s.nextId
    && Keyed(s.rows)
    && forall k :: k in s.rows ==> 1 <= k < s.nextId
  }

  /** The row's columns other than the id. */
  function Columns(b: Bookmark): NewBookmark {
    NewBookmark(b.title, b.url, b.rating, b.description)
  }

  /** The row holding columns `nb` under `id`; `Columns` takes it apart again. */
  function WithId(id: nat, nb: NewBookmark): (b: Bookmark)
    ensures b.id == id && Columns(b) == nb
  {
    Bookmark(id, nb.title, nb.url, nb.rating, nb.description)
  }

  /** Ids in strictly ascending order. */
  ghost predicate Ascending(rs: seq<Bookmark>) {
    forall i, j :: 0 <= i < j < |rs| ==> rs[i].id < rs[j].id
  }

  /** `r` lists the rows whose ids lie in [lo, hi): each entry as stored, every
      such row present, ids strictly ascending. */
  ghost predicate Lists(rows: map<nat, Bookmark>, lo: nat, hi: nat, r: seq<Bookmark>) {
    && (forall i :: 0 <= i < |r| ==> lo <= r[i].id < hi && r[i].id in rows && rows[r[i].id] == r[i])
    && (forall k :: k in rows && lo <= k < hi ==> rows[k] in r)
    && Ascending(r)
  }

  /** A listing from lo + 1 extends to a listing from lo by the row at lo. */
  lemma ListsCons(rows: map<nat, Bookmark>, lo: nat, hi: nat, tail: seq<Bookmark>)
    requires Keyed(rows) && lo in rows && lo < hi
    requires Lists(rows, lo + 1, hi, tail)
    ensures Lists(rows, lo, hi, [rows[lo]] + tail)
  {
    var r := [rows[lo]] + tail;
    forall i | 0 <= i < |r|
      ensures lo <= r[i].id < hi && r[i].id in rows && rows[r[i].id] == r[i]
    {
      if i > 0 {
        assert r[i] == tail[i - 1];
      }
    }
    forall k | k in rows && lo <= k < hi
      ensures rows[k] in r
    {
      if k > lo {
        assert rows[k] in tail;
      }
    }
    forall i, j | 0 <= i < j < |r|
      ensures r[i].id < r[j].id
    {
      assert r[j] == tail[j - 1];
      if i > 0 {
        assert r[i] == tail[i - 1];
      }
    }
  }

  /** A listing from lo + 1 is a listing from lo when no row has id lo. */
  lemma ListsSkip(rows: map<nat, Bookmark>, lo: nat, hi: nat, tail: seq<Bookmark>)
    requires lo !in rows
    requires Lists(rows, lo + 1, hi, tail)
    ensures Lists(rows, lo, hi, tail)
  {
    forall k | k in rows && lo <= k < hi
      ensures rows[k] in tail
    {
      assert k != lo;
    }
  }

  /** The rows whose ids lie in [lo, hi), in ascending id order. */
  function RowsBetween(rows: map<nat, Bookmark>, lo: nat, hi: nat): (r: seq<Bookmark>)
    requires Keyed(rows)
    ensures Lists(rows, lo, hi, r)
    decreases hi - lo
  {
    if lo >= hi then []
    else if lo in rows then
      var tail := RowsBetween(rows, lo + 1, hi);
      ListsCons(rows, lo, hi, tail);
      [rows[lo]] + tail
    else
      var tail := RowsBetween(rows, lo + 1, hi);
      ListsSkip(rows, lo, hi, tail);
      tail
  }

  /** getAllBookmarks: every stored row, each exactly once, unchanged.
      The table gives no order; this model lists rows by ascending id. */
  function GetAll(s: Store): (r: seq<Bookmark>)
    requires Valid(s)
    ensures forall i :: 0 <= i < |r| ==> r[i].id in s.rows && s.rows[r[i].id] == r[i]
    ensures forall k :: k in s.rows ==> s.rows[k] in r
    ensures Ascending(r)
    ensures r == [] <==> s.rows == map[]
  {
    var r := RowsBetween(s.rows, 0, s.nextId);
    assert |r| > 0 ==> r[0].id in s.rows;
    r
  }

  /** getById: the single row with this id, or absent; never a list. */
  function GetById(s: Store, id: nat): (r: Option<Bookmark>)
    requires Valid(s)
    ensures r.Some? <==> id in s.rows
    ensures r.Some? ==> r.value.id == id && s.rows[id] == r.value
  {
    if id in s.rows then Some(s.rows[id]) else None
  }

  /** insertBookmark: adds exactly one row under a fresh id drawn from the
      sequence and returns the row as stored, id included. */
  function Insert(s: Store, nb: NewBookmark): (r: Inserted)
    requires Valid(s)
    ensures Valid(r.store)
    ensures r.row.id !in s.rows
    ensures Columns(r.row) == nb
    ensures r.store.rows == s.rows[r.row.id := r.row]
    ensures |r.store.rows| == |s.rows| + 1
  {
    var row := WithId(s.nextId, nb);
    Inserted(Store(s.rows[s.nextId := row], s.nextId + 1), row)
  }

  /** deleteBookmark: removes the row with this id, if any, and reports how
      many rows went; every other row is left as it was. */
  function Delete(s: Store, id: nat): (r: Deleted)
    requires Valid(s)
    ensures Valid(r.store)
    ensures id !in r.store.rows
    ensures forall k :: k in s.rows && k != id ==> k in r.store.rows && r.store.rows[k] == s.rows[k]
    ensures forall k :: k in r.store.rows ==> k in s.rows
    ensures r.count == (if id in s.rows then 1 else 0)
  {
    Deleted(Store(s.rows - {id}, s.nextId), if id in s.rows then 1 else 0)
  }

  /** The rows of `rs` whose id is not `id`, in their original order. */
  function Without(rs: seq<Bookmark>, id: nat): (r: seq<Bookmark>)
    ensures forall b :: b in r <==> b in rs && b.id != id
    ensures |r| <= |rs|
  {
    if |rs| == 0 then []
    else if rs[0].id == id then Without(rs[1..], id)
    else [rs[0]] + Without(rs[1..], id)
  }

  /** Filtering a list that starts with `b` keeps `b` unless it has the id. */
  lemma WithoutCons(b: Bookmark, rs: seq<Bookmark>, id: nat)
    ensures Without([b] + rs, id) == if b.id == id then Without(rs, id) else [b] + Without(rs, id)
  {
    assert ([b] + rs)[1..] == rs;
  }

  /** Listing a range of a table without `id` is listing it and filtering `id` out. */
  lemma {:induction false} RowsBetweenRemove(rows: map<nat, Bookmark>, id: nat, lo: nat, hi: nat)
    requires Keyed(rows)
    ensures RowsBetween(rows - {id}, lo, hi) == Without(RowsBetween(rows, lo, hi), id)
    decreases hi - lo
  {
    if lo < hi {
      RowsBetweenRemove(rows, id, lo + 1, hi);
      if lo in rows {
        WithoutCons(rows[lo], RowsBetween(rows, lo + 1, hi), id);
      }
    }
  }

  /** Adding a row above every id in use appends it to the listing. */
  lemma {:induction false} RowsBetweenAdd(rows: map<nat, Bookmark>, b: Bookmark, lo: nat)
    requires Keyed(rows)
    requires forall k :: k in rows ==> k < b.id
    requires lo <= b.id
    ensures RowsBetween(rows[b.id := b], lo, b.id + 1) == RowsBetween(rows, lo, b.id) + [b]
    decreases b.id - lo
  {
    var rows' := rows[b.id := b];
    assert Keyed(rows');
    if lo == b.id {
      assert RowsBetween(rows', lo + 1, b.id + 1) == [];
    } else {
      RowsBetweenAdd(rows, b, lo + 1);
      var tail := RowsBetween(rows, lo + 1, b.id);
      assert RowsBetween(rows', lo + 1, b.id + 1) == tail + [b];
      if lo in rows {
        assert rows'[lo] == rows[lo];
        assert RowsBetween(rows', lo, b.id + 1) == [rows[lo]] + (tail + [b]);
        assert RowsBetween(rows, lo, b.id) == [rows[lo]] + tail;
        assert [rows[lo]] + (tail + [b]) == ([rows[lo]] + tail) + [b];
      } else {
        assert lo !in rows';
        assert RowsBetween(rows', lo, b.id + 1) == tail + [b];
        assert RowsBetween(rows, lo, b.id) == tail;
      }
    }
  }

  /** After a delete, the listing is the previous listing minus that id. */
  lemma GetAllAfterDelete(s: Store, id: nat)
    requires Valid(s)
    ensures GetAll(Delete(s, id).store) == Without(GetAll(s), id)
  {
    RowsBetweenRemove(s.rows, id, 0, s.nextId);
  }

  /** After an insert, the listing is the previous listing with the new row
      at the end. */
  lemma GetAllAfterInsert(s: Store, nb: NewBookmark)
    requires Valid(s)
    ensures GetAll(Insert(s, nb).store) == GetAll(s) + [Insert(s, nb).row]
  {
    RowsBetweenAdd(s.rows, Insert(s, nb).row, 0);
  }

  /** After deleteBookmark(id), getById(id) is absent; other lookups agree. */
  lemma GetByIdAfterDelete(s: Store, id: nat, other: nat)
    requires Valid(s)
    ensures GetById(Delete(s, id).store, id) == None
    ensures other != id ==> GetById(Delete(s, id).store, other) == GetById(s, other)
  {
  }

  /** After an insert, getById of the new id returns the stored row, and
      every other lookup is unchanged. */
  lemma GetByIdAfterInsert(s: Store, nb: NewBookmark, other: nat)
    requires Valid(s)
    ensures GetById(Insert(s, nb).store, Insert(s, nb).row.id) == Some(Insert(s, nb).row)
    ensures other != Insert(s, nb).row.id ==> GetById(Insert(s, nb).store, other) == GetById(s, other)
  {
  }
}
