/** The requests the endpoint tests make, with the answers the code gives:
    the three fixture rows seeded through the store, then single requests.
    Where a test expects another answer, these follow the code. */
module EndpointScenarios {
  import opened Wrappers
  import opened BookmarksService
  import opened BookmarksRouter
  import opened Decimal

  /** The fixture rows; their description is null. */
  const Row1: Bookmark := Bookmark(1, "bookmark1", "bookmark.com", 1, None)
  const Row2: Bookmark := Bookmark(2, "bookmark2", "bookmark.com", 2, None)
  const Row3: Bookmark := Bookmark(3, "bookmark3", "bookmark.com", 3, None)

  /** An empty table seeded with three rows one by one through the store. */
  function SeedStore(a: NewBookmark, b: NewBookmark, c: NewBookmark): (r: Store)
    ensures Valid(r)
    ensures r == Store(map[1 := WithId(1, a), 2 := WithId(2, b), 3 := WithId(3, c)], 4)
  {
    Insert(Insert(Insert(Empty, a).store, b).store, c).store
  }

  /** The table the endpoint tests start from. */
  function Seeded(): Store {
    SeedStore(Columns(Row1), Columns(Row2), Columns(Row3))
  }

  /** Seeding files the fixtures under ids 1, 2 and 3, in that order. */
  lemma SeededHoldsFixtures()
    ensures Seeded().rows == map[1 := Row1, 2 := Row2, 3 := Row3]
  {
  }

  /** A seeded table lists its three rows in id order. */
  lemma GetAllSeeded(a: NewBookmark, b: NewBookmark, c: NewBookmark)
    ensures GetAll(SeedStore(a, b, c)) == [WithId(1, a), WithId(2, b), WithId(3, c)]
  {
    var s1 := Insert(Empty, a);
    var s2 := Insert(s1.store, b);
    GetAllAfterInsert(Empty, a);
    GetAllAfterInsert(s1.store, b);
    GetAllAfterInsert(s2.store, c);
  }

  /** Listing a seeded table answers its three rows, as stored. */
  lemma ListSeeded(xss: Xss, a: NewBookmark, b: NewBookmark, c: NewBookmark)
    ensures Handle(xss, SeedStore(a, b, c), ListBookmarks).response
            == Response(StatusOk, None, Listing([WithId(1, a), WithId(2, b), WithId(3, c)]))
  {
    GetAllSeeded(a, b, c);
    ListUnsanitised(xss, SeedStore(a, b, c));
  }

  /** Listing an empty table gives an empty array. */
  lemma ListEmpty(xss: Xss)
    ensures Handle(xss, Empty, ListBookmarks) == Reply(Response(StatusOk, None, Listing([])), Empty)
  {
  }

  /** GET /bookmarks/2 on the seeded table answers the second fixture,
      sanitised; its null description goes through the sanitiser as null,
      and what comes back is the sanitiser's text, not null. */
  lemma GetSecondFixture(xss: Xss)
    ensures Handle(xss, Seeded(), GetBookmark(2)).response
            == Response(StatusOk, None, Single(View(2, xss(Some("bookmark2")), xss(Some("bookmark.com")), xss(Some("2")), xss(None))))
  {
    assert Seeded().rows[2] == Row2;
    assert IntToString(2) == "2";
  }

  /** GET and DELETE of id 123456 on an empty table both answer 404. */
  lemma UnknownIdOnEmpty(xss: Xss)
    ensures Handle(xss, Empty, GetBookmark(123456)) == Reply(NotFound, Empty)
    ensures Handle(xss, Empty, DeleteBookmark(123456)) == Reply(NotFound, Empty)
  {
  }

  /** DELETE /bookmarks/2 on a seeded table answers 204, and the list that
      follows holds the first and third rows. */
  lemma DeleteSecondSeeded(xss: Xss, a: NewBookmark, b: NewBookmark, c: NewBookmark)
    ensures var d := Handle(xss, SeedStore(a, b, c), DeleteBookmark(2));
            && d.response == Response(StatusNoContent, None, NoContent)
            && Handle(xss, d.store, ListBookmarks).response.body == Listing([WithId(1, a), WithId(3, c)])
  {
    GetAllSeeded(a, b, c);
    DeleteThenList(xss, SeedStore(a, b, c), 2);
    WithoutMiddle(WithId(1, a), WithId(2, b), WithId(3, c));
  }

  /** Filtering id 2 out of rows with ids 1, 2, 3 keeps the first and third. */
  lemma WithoutMiddle(r1: Bookmark, r2: Bookmark, r3: Bookmark)
    requires r1.id == 1 && r2.id == 2 && r3.id == 3
    ensures Without([r1, r2, r3], 2) == [r1, r3]
  {
    WithoutCons(r1, [r2, r3], 2);
    WithoutCons(r2, [r3], 2);
    WithoutCons(r3, [], 2);
    assert [r1, r2, r3] == [r1] + [r2, r3];
    assert [r2, r3] == [r2] + [r3];
    assert [r3] == [r3] + [];
  }

  const NewTest: Payload := Payload(Some("new test"), Some("bookmark.com"), Some(2), Some(""))

  /** Posting a valid bookmark with an empty description to an empty table
      answers 201 at /bookmarks/1; when the sanitiser leaves the title alone
      the body echoes it. */
  lemma CreateNewTest(xss: Xss)
    ensures var r := Handle(xss, Empty, CreateBookmark(NewTest));
            && r.response.status == StatusCreated
            && r.response.location == Some("/bookmarks/1")
            && r.response.body == Single(View(1, xss(Some("new test")), xss(Some("bookmark.com")), xss(Some("2")), xss(Some(""))))
    ensures xss(Some("new test")) == "new test" ==>
              Handle(xss, Empty, CreateBookmark(NewTest)).response.body.view.title == "new test"
  {
    assert NatToString(1) == "1";
    assert ItemPath(1) == "/bookmarks/1";
    assert IntToString(2) == "2";
  }

  /** The payload the required-field tests start from; its description is null. */
  const RequiredBase: Payload := Payload(Some("new test"), Some("bookmark.com"), Some(2), None)

  /** The payload with one field deleted. */
  function Drop(p: Payload, f: Field): (r: Payload)
    ensures IsNull(r, f)
    ensures forall g :: g != f ==> IsNull(r, g) == IsNull(p, g)
  {
    match f
    case Title => p.(title := None)
    case Url => p.(url := None)
    case Rating => p.(rating := None)
    case Description => p.(description := None)
  }

  /** Each required-field test deletes one field from the base payload and
      gets `missing` with that field's name: the base's null description
      comes last in the order, so it never shadows the deleted field. */
  lemma MissingFieldTest(xss: Xss, s: Store, f: Field)
    requires Valid(s)
    ensures Handle(xss, s, CreateBookmark(Drop(RequiredBase, f))) == Reply(BadRequest("missing " + FieldName(f)), s)
  {
    var p := Drop(RequiredBase, f);
    assert forall g :: Rank(g) < Rank(f) ==> !IsNull(p, g);
    FirstMissingReported(xss, s, p, f);
  }

  /** A rating of 6 answers the rating message; a blank title with rating 5
      answers the title message; a whitespace title is accepted. */
  lemma RangeAndBlankTests(xss: Xss, s: Store)
    requires Valid(s)
    ensures Handle(xss, s, CreateBookmark(Payload(Some("new test"), Some("bookmark.com"), Some(6), Some("")))) == Reply(BadRequest(RatingMessage), s)
    ensures Handle(xss, s, CreateBookmark(Payload(Some(""), Some("bookmark.com"), Some(5), Some("")))) == Reply(BadRequest(BlankTitleMessage), s)
    ensures Handle(xss, s, CreateBookmark(Payload(Some(" "), Some("bookmark.com"), Some(5), Some("")))).response.status == StatusCreated
  {
  }

  /** A fixture's own columns cannot be posted back: its null description is
      rejected as missing, though the table stores null descriptions. */
  lemma FixtureNotPostable(xss: Xss, s: Store)
    requires Valid(s)
    ensures Handle(xss, s, CreateBookmark(Payload(Some("bookmark1"), Some("bookmark.com"), Some(1), None))) == Reply(BadRequest("missing description"), s)
  {
    var p := Payload(Some("bookmark1"), Some("bookmark.com"), Some(1), None);
    assert FirstNullIs(p, Description);
    FirstMissingReported(xss, s, p, Description);
    assert MissingMessage(Description) == "missing description";
  }
}
