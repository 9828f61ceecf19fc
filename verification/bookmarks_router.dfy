/** The bookmark request handler: the collection route (list, create) and the
    item route (existence gate, read, delete), as one pure function from a
    table and a request to a response and the next table. */
module BookmarksRouter {
  import opened Wrappers
  import opened Decimal
  import opened BookmarksService

  /** The output sanitiser applied to echoed fields. It is a foreign filter,
      so the model keeps it uninterpreted; `None` is a null column value. */
  type Xss = Option<string> -> string

  /** A create payload after JSON parsing. `None` is a key that is absent or
      null: the create route treats the two alike. */
  datatype Payload = Payload(title: Option<string>, url: Option<string>, rating: Option<int>, description: Option<string>)

  /** The four payload fields. */
  datatype Field = Title | Url | Rating | Description

  /** The order in which the create route visits the fields. */
  const FieldOrder: seq<Field> := [Title, Url, Rating, Description]

  /** The requests the router serves; `id` is the `:id` path parameter. */
  datatype Request =
    | ListBookmarks
    | CreateBookmark(payload: Payload)
    | GetBookmark(id: nat)
    | DeleteBookmark(id: nat)

  /** A row as the read and create routes echo it: the id, then each column
      passed through the sanitiser, the rating as its decimal text. */
  datatype View = View(id: nat, title: string, url: string, rating: string, description: string)

  /** A response body. */
  datatype Body =
    | NoContent
    | ErrorMessage(message: string)
    | Single(view: View)
    | Listing(rows: seq<Bookmark>)

  datatype Response = Response(status: nat, location: Option<string>, body: Body)

  /** What handling one request produces: the response and the next table. */
  datatype Reply = Reply(response: Response, store: Store)

  const StatusOk: nat := 200
  const StatusCreated: nat := 201
  const StatusNoContent: nat := 204
  const StatusBadRequest: nat := 400
  const StatusNotFound: nat := 404

  const RatingMessage: string := "rating must be between 1 and 5"
  const BlankTitleMessage: string := "title cannot be blank"
  const NotFoundMessage: string := "bookmark not found"

  /** The JSON key of a field. */
  function FieldName(f: Field): string {
    match f
    case Title => "title"
    case Url => "url"
    case Rating => "rating"
    case Description => "description"
  }

  /** The error message for a missing field. */
  function MissingMessage(f: Field): string {
    "missing " + FieldName(f)
  }

  /** The field is null or absent in the payload. */
  predicate IsNull(p: Payload, f: Field) {
    match f
    case Title => p.title.None?
    case Url => p.url.None?
    case Rating => p.rating.None?
    case Description => p.description.None?
  }

  /** The position of a field in the visiting order. */
  function Rank(f: Field): (n: nat)
    ensures n < |FieldOrder| && FieldOrder[n] == f
  {
    match f
    case Title => 0
    case Url => 1
    case Rating => 2
    case Description => 3
  }

  /** `f` is null or absent and every field visited before it is present. */
  ghost predicate FirstNullIs(p: Payload, f: Field) {
    IsNull(p, f) && forall g :: Rank(g) < Rank(f) ==> !IsNull(p, g)
  }

  /** All four fields are present and non-null. */
  predicate AllPresent(p: Payload) {
    p.title.Some? && p.url.Some? && p.rating.Some? && p.description.Some?
  }

  /** The payload passes every check of the create route. */
  predicate Accepted(p: Payload) {
    AllPresent(p) && 1 <= p.rating.value <= 5 && p.title.value != ""
  }

  /** The field-by-field scan from position `i`: the position of the first
      null or absent field, or None when every remaining field is present. */
  function FirstNull(p: Payload, fields: seq<Field>, i: nat): (r: Option<nat>)
    requires i <= |fields|
    ensures r.Some? ==> i <= r.value < |fields| && IsNull(p, fields[r.value])
    ensures r.Some? ==> forall j :: i <= j < r.value ==> !IsNull(p, fields[j])
    ensures r.None? ==> forall j :: i <= j < |fields| ==> !IsNull(p, fields[j])
    decreases |fields| - i
  {
    if i == |fields| then None
    else if IsNull(p, fields[i]) then Some(i)
    else FirstNull(p, fields, i + 1)
  }

  /** The create route's checks, in order: the first null or absent field,
      then the rating range, then a blank title. Only a payload that passes
      all three becomes a row to insert. */
  function Validate(p: Payload): (r: Result<NewBookmark, string>)
    ensures r.Success? <==> Accepted(p)
    ensures r.Success? ==> r.value == NewBookmark(p.title.value, p.url.value, p.rating.value, Some(p.description.value))
    ensures forall f :: FirstNullIs(p, f) ==> r == Failure(MissingMessage(f))
    ensures AllPresent(p) && !(1 <= p.rating.value <= 5) ==> r == Failure(RatingMessage)
    ensures AllPresent(p) && 1 <= p.rating.value <= 5 && p.title.value == "" ==> r == Failure(BlankTitleMessage)
  {
    match FirstNull(p, FieldOrder, 0)
    case Some(i) => Failure(MissingMessage(FieldOrder[i]))
    case None =>
      if p.rating.value < 1 || p.rating.value > 5 then Failure(RatingMessage)
      else if p.title.value == "" then Failure(BlankTitleMessage)
      else Success(NewBookmark(p.title.value, p.url.value, p.rating.value, Some(p.description.value)))
  }

  /** The path of the item route for an id: the collection path, a slash,
      and the id's decimal digits. */
  function ItemPath(id: nat): (p: string)
    ensures |p| > 11 && p[..11] == "/bookmarks/"
    ensures IsDigits(p[11..])
  {
    var p := "/bookmarks/" + NatToString(id);
    assert p[11..] == NatToString(id);
    p
  }

  /** A row as the item and create routes answer it: the id as stored, every
      other column passed through the sanitiser. The rating goes in as its
      decimal text, standing in for the sanitiser's own conversion of a
      number; a null description goes in as null. */
  function Sanitized(xss: Xss, b: Bookmark): (v: View)
    ensures v.id == b.id
  {
    View(b.id, xss(Some(b.title)), xss(Some(b.url)), xss(Some(IntToString(b.rating))), xss(b.description))
  }

  /** Each answered column the sanitiser leaves unchanged gives back the
      stored one: the title and url as stored, a rating text that reads back
      as the rating, and the description when there is one. */
  lemma SanitizedReadsBack(xss: Xss, b: Bookmark)
    ensures xss(Some(b.title)) == b.title ==> Sanitized(xss, b).title == b.title
    ensures xss(Some(b.url)) == b.url ==> Sanitized(xss, b).url == b.url
    ensures xss(Some(IntToString(b.rating))) == IntToString(b.rating) ==>
              var t := Sanitized(xss, b).rating;
              && |t| >= 1
              && (t[0] == '-' ==> IsDigits(t[1..]))
              && (t[0] != '-' ==> IsDigits(t))
              && ParseInt(t) == b.rating
    ensures b.description.Some? && xss(b.description) == b.description.value ==>
              Sanitized(xss, b).description == b.description.value
  {
    ParseIntToString(b.rating);
  }

  function BadRequest(message: string): Response {
    Response(StatusBadRequest, None, ErrorMessage(message))
  }

  const NotFound: Response := Response(StatusNotFound, None, ErrorMessage(NotFoundMessage))

  /** GET /bookmarks: every stored row, as stored, without sanitising. */
  function ListRoute(s: Store): (r: Response)
    requires Valid(s)
    ensures r.status == StatusOk && r.location == None && r.body.Listing?
    ensures forall b :: b in r.body.rows <==> b in s.rows.Values
  {
    Response(StatusOk, None, Listing(GetAll(s)))
  }

  /** POST /bookmarks: a rejected payload answers 400 with the first failing
      check's message and leaves the table alone; an accepted one is inserted
      and answered 201 with its location and its sanitised columns. */
  function CreateRoute(xss: Xss, s: Store, p: Payload): (r: Reply)
    requires Valid(s)
    ensures Valid(r.store)
    ensures !Accepted(p) ==> r.store == s && r.response == BadRequest(Validate(p).error)
    ensures Accepted(p) ==>
              && r.response.status == StatusCreated
              && s.nextId !in s.rows
              && r.store.rows == s.rows[s.nextId := Bookmark(s.nextId, p.title.value, p.url.value, p.rating.value, p.description)]
              && r.response.location == Some(ItemPath(s.nextId))
              && r.response.body == Single(Sanitized(xss, r.store.rows[s.nextId]))
  {
    match Validate(p)
    case Failure(message) => Reply(BadRequest(message), s)
    case Success(nb) =>
      var ins := Insert(s, nb);
      Reply(Response(StatusCreated, Some(ItemPath(ins.row.id)), Single(Sanitized(xss, ins.row))), ins.store)
  }

  /** The `.all` step of /bookmarks/:id: the row with that id, or the 404
      response that ends the request. */
  function Gate(s: Store, id: nat): (r: Result<Bookmark, Response>)
    requires Valid(s)
    ensures r.Success? <==> id in s.rows
    ensures r.Success? ==> r.value == s.rows[id]
    ensures r.Failure? ==> r.error == NotFound
  {
    match GetById(s, id)
    case None => Failure(NotFound)
    case Some(b) => Success(b)
  }

  /** The whole router: dispatch on the request, the item routes behind the
      existence gate. Only an accepted create and a delete that passed the
      gate change the table. */
  function Handle(xss: Xss, s: Store, req: Request): (r: Reply)
    requires Valid(s)
    ensures Valid(r.store)
    ensures r.response.status in {StatusOk, StatusCreated, StatusNoContent, StatusBadRequest, StatusNotFound}
    ensures r.response.status in {StatusOk, StatusBadRequest, StatusNotFound} ==> r.store == s
    ensures r.response.status == StatusCreated <==> req.CreateBookmark? && Accepted(req.payload)
    ensures r.response.status == StatusNoContent <==> req.DeleteBookmark? && req.id in s.rows
    ensures r.response.status == StatusNotFound <==> (req.GetBookmark? || req.DeleteBookmark?) && req.id !in s.rows
  {
    match req
    case ListBookmarks => Reply(ListRoute(s), s)
    case CreateBookmark(p) => CreateRoute(xss, s, p)
    case GetBookmark(id) =>
      (match Gate(s, id)
       case Failure(resp) => Reply(resp, s)
       case Success(b) => Reply(Response(StatusOk, None, Single(Sanitized(xss, b))), s))
    case DeleteBookmark(id) =>
      (match Gate(s, id)
       case Failure(resp) => Reply(resp, s)
       case Success(_) => Reply(Response(StatusNoContent, None, NoContent), Delete(s, id).store))
  }

  /** The three kinds of 400 message are told apart by their first letter,
      and the missing-field messages by the first letter of the field. */
  lemma MessagesDistinct(f: Field, g: Field)
    ensures MissingMessage(f) != RatingMessage && MissingMessage(f) != BlankTitleMessage
    ensures RatingMessage != BlankTitleMessage
    ensures MissingMessage(f) == MissingMessage(g) ==> f == g
  {
    assert MissingMessage(f)[0] == 'm';
    assert MissingMessage(f)[8] == FieldName(f)[0];
    assert MissingMessage(g)[8] == FieldName(g)[0];
  }

  /** Create answers `missing K` exactly when K is the first null or absent
      field in the order title, url, rating, description; the table is left
      alone. */
  lemma FirstMissingReported(xss: Xss, s: Store, p: Payload, f: Field)
    requires Valid(s)
    ensures Handle(xss, s, CreateBookmark(p)).response == BadRequest(MissingMessage(f)) <==> FirstNullIs(p, f)
    ensures FirstNullIs(p, f) ==> Handle(xss, s, CreateBookmark(p)).store == s
  {
    forall g: Field {
      MessagesDistinct(f, g);
    }
  }

  /** With every field present, create answers the rating message exactly
      when the rating lies outside 1..5; a rating in range never draws it. */
  lemma RatingRange(xss: Xss, s: Store, p: Payload)
    requires Valid(s)
    ensures Handle(xss, s, CreateBookmark(p)).response == BadRequest(RatingMessage)
            <==> AllPresent(p) && !(1 <= p.rating.value <= 5)
  {
  }

  /** With every field present and the rating in range, create answers the
      blank-title message exactly when the title is the empty string; any
      other title, whitespace included, is accepted. */
  lemma BlankTitle(xss: Xss, s: Store, p: Payload)
    requires Valid(s)
    ensures Handle(xss, s, CreateBookmark(p)).response == BadRequest(BlankTitleMessage)
            <==> AllPresent(p) && 1 <= p.rating.value <= 5 && p.title.value == ""
    ensures AllPresent(p) && 1 <= p.rating.value <= 5 && p.title.value != ""
            ==> Handle(xss, s, CreateBookmark(p)).response.status == StatusCreated
  {
  }

  /** Only the earliest failing check is reported: a payload with a missing
      field never draws the rating or title message, and one with a bad
      rating never draws the title message. Every rejection is a 400 that
      leaves the table alone. */
  lemma CheckPrecedence(xss: Xss, s: Store, p: Payload)
    requires Valid(s)
    ensures !AllPresent(p) ==>
              var r := Handle(xss, s, CreateBookmark(p));
              && r.response.status == StatusBadRequest
              && r.response != BadRequest(RatingMessage)
              && r.response != BadRequest(BlankTitleMessage)
    ensures AllPresent(p) && !(1 <= p.rating.value <= 5) ==>
              Handle(xss, s, CreateBookmark(p)).response != BadRequest(BlankTitleMessage)
    ensures !Accepted(p) ==> Handle(xss, s, CreateBookmark(p)).store == s
  {
    forall f: Field {
      MessagesDistinct(f, f);
    }
  }

  /** An accepted create answers 201; the body's id is the id of the one new
      row, which was not in use before; the location is the item path of
      that id; the row holds the payload's values; nothing else changes. */
  lemma SuccessfulCreate(xss: Xss, s: Store, p: Payload)
    requires Valid(s)
    requires Accepted(p)
    ensures var r := Handle(xss, s, CreateBookmark(p));
            && r.response.status == StatusCreated
            && r.response.body.Single?
            && var id := r.response.body.view.id;
            && id !in s.rows
            && r.response.location == Some("/bookmarks/" + NatToString(id))
            && GetById(r.store, id) == Some(Bookmark(id, p.title.value, p.url.value, p.rating.value, p.description))
            && r.store.rows == s.rows[id := r.store.rows[id]]
            && r.response.body.view == Sanitized(xss, r.store.rows[id])
  {
  }

  /** The location of a created bookmark names its id: the digits after
      "/bookmarks/" read back as the id, so distinct ids get distinct paths. */
  lemma LocationNamesId(id: nat, other: nat)
    ensures |ItemPath(id)| > 11 && ItemPath(id)[..11] == "/bookmarks/"
    ensures IsDigits(ItemPath(id)[11..]) && ParseDigits(ItemPath(id)[11..]) == id
    ensures ItemPath(id) == ItemPath(other) ==> id == other
  {
    assert ItemPath(id)[11..] == NatToString(id);
    assert ItemPath(other)[11..] == NatToString(other);
    ParseNatToString(id);
    ParseNatToString(other);
  }

  /** Reading back a created bookmark gives the same body the create
      answered with. */
  lemma CreateThenGet(xss: Xss, s: Store, p: Payload)
    requires Valid(s)
    requires Accepted(p)
    ensures var c := Handle(xss, s, CreateBookmark(p));
            c.response.body.Single? &&
            Handle(xss, c.store, GetBookmark(c.response.body.view.id)).response
              == Response(StatusOk, None, c.response.body)
  {
  }

  /** For an id with no row, both GET and DELETE answer 404 `bookmark not
      found` and leave the table alone. */
  lemma UnknownId(xss: Xss, s: Store, id: nat)
    requires Valid(s)
    requires id !in s.rows
    ensures Handle(xss, s, GetBookmark(id)) == Reply(NotFound, s)
    ensures Handle(xss, s, DeleteBookmark(id)) == Reply(NotFound, s)
  {
  }

  /** GET of a stored id answers 200 with the row's sanitised columns and
      changes nothing, so asking again gives the same answer. */
  lemma ReadExisting(xss: Xss, s: Store, id: nat)
    requires Valid(s)
    requires id in s.rows
    ensures var r := Handle(xss, s, GetBookmark(id));
            && r.store == s
            && r.response == Response(StatusOk, None, Single(Sanitized(xss, s.rows[id])))
            && Handle(xss, r.store, GetBookmark(id)) == r
  {
  }

  /** DELETE of a stored id answers 204 with no body; a following list shows
      exactly the other rows; a second DELETE of that id answers 404. */
  lemma DeleteThenList(xss: Xss, s: Store, id: nat)
    requires Valid(s)
    requires id in s.rows
    ensures var d := Handle(xss, s, DeleteBookmark(id));
            && d.response == Response(StatusNoContent, None, NoContent)
            && Handle(xss, d.store, ListBookmarks).response.body == Listing(Without(GetAll(s), id))
            && Handle(xss, d.store, DeleteBookmark(id)) == Reply(NotFound, d.store)
  {
    var d := Handle(xss, s, DeleteBookmark(id));
    assert d == Reply(Response(StatusNoContent, None, NoContent), Delete(s, id).store);
    ListUnsanitised(xss, d.store);
    GetAllAfterDelete(s, id);
    UnknownId(xss, d.store, id);
  }

  /** The list route answers with the stored rows themselves, unsanitised,
      and changes nothing. */
  lemma ListUnsanitised(xss: Xss, s: Store)
    requires Valid(s)
    ensures Handle(xss, s, ListBookmarks) == Reply(Response(StatusOk, None, Listing(GetAll(s))), s)
  {
  }
}
