/**
  * The five routes of the book service. Each handler reads the whole collection from the data
  * file, applies one transform and, for writes, saves the whole collection back; every failure
  * of the read, of the reduce or of the write lands in the route's 500 response.
  */
module Handlers {
  import opened JsValues
  import opened Numbers
  import opened Collection
  import opened Persistence

  datatype Body = Json(value: Value) | NoContent

  /** What `res.status(…).json(…)` or `res.status(204).send()` sends. */
  datatype Response = Response(status: nat, body: Body)

  const ReadFailed := "Failed to read books."
  const InvalidBody := "Invalid body. Expected { title: string, author: string, available: boolean }."
  const CreateFailed := "Failed to create book."
  const InvalidId := "Invalid id."
  const NothingToUpdate := "Nothing to update. Provide title, author, or available."
  const NotFound := "Book not found."
  const UpdateFailed := "Failed to update book."
  const DeleteFailed := "Failed to delete book."

  /** `res.status(status).json({ error: message })`. */
  function ErrorResponse(status: nat, message: string): Response {
    Response(status, Json(Obj(map["error" := Str(message)])))
  }

  /** The fields of a create body. */
  datatype BookFields = BookFields(title: string, author: string, available: bool)

  /**
    * The destructured `req.body || {}` of a create request, when `title` and `author` are
    * strings and `available` is a boolean. A body that is not an object has none of the fields.
    */
  function CreateFields(body: Value): (r: Option<BookFields>)
    ensures r.Some? <==>
      body.Obj? && "title" in body.fields && body.fields["title"].Str?
      && "author" in body.fields && body.fields["author"].Str?
      && "available" in body.fields && body.fields["available"].Bool?
    ensures r.Some? ==>
      r.value == BookFields(body.fields["title"].s, body.fields["author"].s, body.fields["available"].b)
  {
    match (StringField(body, "title"), StringField(body, "author"), BooleanField(body, "available"))
    case (Some(t), Some(a), Some(v)) => Some(BookFields(t, a, v))
    case _ => None
  }

  /** The destructured `req.body || {}` of an update request: each field kept only when correctly typed. */
  function PatchOf(body: Value): (r: Patch)
    ensures r.title.Some? <==> body.Obj? && "title" in body.fields && body.fields["title"].Str?
    ensures r.title.Some? ==> r.title.value == body.fields["title"].s
    ensures r.author.Some? <==> body.Obj? && "author" in body.fields && body.fields["author"].Str?
    ensures r.author.Some? ==> r.author.value == body.fields["author"].s
    ensures r.available.Some? <==> body.Obj? && "available" in body.fields && body.fields["available"].Bool?
    ensures r.available.Some? ==> r.available.value == body.fields["available"].b
  {
    Patch(StringField(body, "title"), StringField(body, "author"), BooleanField(body, "available"))
  }

  /** GET /books: the whole collection, or 500 when the file cannot be read. */
  method ListBooks(file: DataFile) returns (resp: Response)
    ensures ReadResult(file.state).Loaded? ==> resp == Response(200, Json(Arr(ReadResult(file.state).books)))
    ensures ReadResult(file.state).LoadFailed? ==> resp == ErrorResponse(500, ReadFailed)
  {
    var loaded := file.ReadBooks();
    if loaded.LoadFailed? {
      return ErrorResponse(500, ReadFailed);
    }
    resp := Response(200, Json(Arr(loaded.books)));
  }

  /** GET /books/available: the records whose `available` is `true`, in collection order. */
  method ListAvailable(file: DataFile) returns (resp: Response)
    ensures ReadResult(file.state).Loaded? ==> resp == Response(200, Json(Arr(Available(ReadResult(file.state).books))))
    ensures ReadResult(file.state).LoadFailed? ==> resp == ErrorResponse(500, ReadFailed)
  {
    var loaded := file.ReadBooks();
    if loaded.LoadFailed? {
      return ErrorResponse(500, ReadFailed);
    }
    resp := Response(200, Json(Arr(Available(loaded.books))));
  }

  /**
    * POST /books: 400 unless the body is well typed (decided before the file is read); else
    * the record with the next id is appended, saved and returned with 201.
    */
  method CreateBook(file: DataFile, body: Value, w: WriteResult) returns (resp: Response)
    modifies file
    ensures CreateFields(body).None? ==> resp == ErrorResponse(400, InvalidBody) && file.state == old(file.state)
    ensures CreateFields(body).Some? && ReadResult(old(file.state)).LoadFailed? ==>
      resp == ErrorResponse(500, CreateFailed) && file.state == old(file.state)
    ensures CreateFields(body).Some? && ReadResult(old(file.state)).Loaded? && Null in ReadResult(old(file.state)).books ==>
      resp == ErrorResponse(500, CreateFailed) && file.state == old(file.state)
    ensures CreateFields(body).Some? && ReadResult(old(file.state)).Loaded? && Null !in ReadResult(old(file.state)).books ==>
      var before := ReadResult(old(file.state)).books;
      var f := CreateFields(body).value;
      var book := MakeBook(NextId(before).value, f.title, f.author, f.available);
      file.state == (if w.WriteOk? then Written(before + [book]) else w.left)
      && resp == (if w.WriteOk? then Response(201, Json(book)) else ErrorResponse(500, CreateFailed))
    ensures resp.status == 201 ==>
      var before := ReadResult(old(file.state)).books;
      var after := ReadResult(file.state);
      var f := CreateFields(body).value;
      after.Loaded? && |after.books| == |before| + 1 && after.books[..|before|] == before
      && resp.body == Json(after.books[|before|])
      && exists id :: (after.books[|before|] == MakeBook(id, f.title, f.author, f.available)
                       && forall i :: 0 <= i < |before| ==> !HasId(before[i], id))
  {
    var fields := CreateFields(body);
    if fields.None? {
      return ErrorResponse(400, InvalidBody);
    }
    var loaded := file.ReadBooks();
    if loaded.LoadFailed? {
      return ErrorResponse(500, CreateFailed);
    }
    var books := loaded.books;
    var maxPlusOne := NextId(books);
    if maxPlusOne.None? {
      return ErrorResponse(500, CreateFailed);
    }
    var newBook := MakeBook(maxPlusOne.value, fields.value.title, fields.value.author, fields.value.available);
    ghost var before := books;
    books := books + [newBook];
    var ok := file.WriteBooks(books, w);
    if !ok {
      return ErrorResponse(500, CreateFailed);
    }
    assert books[..|before|] == before;
    resp := Response(201, Json(newBook));
  }

  /**
    * PUT /books/:id: 400 for an id that does not parse, then 400 when the body has no
    * correctly typed field, both before the file is read; then 404 when no record has the id;
    * else the first record with the id gets the supplied fields, is saved and returned.
    */
  method UpdateBook(file: DataFile, idParam: string, body: Value, w: WriteResult) returns (resp: Response)
    modifies file
    ensures ParseInt(idParam).NaN? ==> resp == ErrorResponse(400, InvalidId) && file.state == old(file.state)
    ensures ParseInt(idParam).Finite? && !PatchOf(body).HasAny() ==>
      resp == ErrorResponse(400, NothingToUpdate) && file.state == old(file.state)
    ensures ParseInt(idParam).Finite? && PatchOf(body).HasAny() && ReadResult(old(file.state)).LoadFailed? ==>
      resp == ErrorResponse(500, UpdateFailed) && file.state == old(file.state)
    ensures ParseInt(idParam).Finite? && PatchOf(body).HasAny() && ReadResult(old(file.state)).Loaded? ==>
      var u := Updated(ReadResult(old(file.state)).books, ParseInt(idParam).value, PatchOf(body));
      if u.None? then
        resp == ErrorResponse(404, NotFound) && file.state == old(file.state)
      else
        file.state == (if w.WriteOk? then Written(u.value.0) else w.left)
        && resp == (if w.WriteOk? then Response(200, Json(u.value.1)) else ErrorResponse(500, UpdateFailed))
  {
    var parsed := ParseInt(idParam);
    if parsed.NaN? {
      return ErrorResponse(400, InvalidId);
    }
    var id := parsed.value;
    var patch := PatchOf(body);
    if !patch.HasAny() {
      return ErrorResponse(400, NothingToUpdate);
    }
    var loaded := file.ReadBooks();
    if loaded.LoadFailed? {
      return ErrorResponse(500, UpdateFailed);
    }
    var books := loaded.books;
    var idx := FindIndex(books, WithId(id));
    if idx == -1 {
      return ErrorResponse(404, NotFound);
    }
    var updated := ApplyPatch(books[idx], patch);
    ghost var before := books;
    books := books[idx := updated];
    assert Updated(before, id, patch) == Some((books, updated));
    var ok := file.WriteBooks(books, w);
    if !ok {
      return ErrorResponse(500, UpdateFailed);
    }
    resp := Response(200, Json(updated));
  }

  /**
    * DELETE /books/:id: 400 for an id that does not parse (before the file is read), 404 when
    * no record has the id; else every record with the id and every falsy entry is dropped,
    * the rest is saved and 204 is sent.
    */
  method DeleteBook(file: DataFile, idParam: string, w: WriteResult) returns (resp: Response)
    modifies file
    ensures ParseInt(idParam).NaN? ==> resp == ErrorResponse(400, InvalidId) && file.state == old(file.state)
    ensures ParseInt(idParam).Finite? && ReadResult(old(file.state)).LoadFailed? ==>
      resp == ErrorResponse(500, DeleteFailed) && file.state == old(file.state)
    ensures ParseInt(idParam).Finite? && ReadResult(old(file.state)).Loaded? ==>
      var before := ReadResult(old(file.state)).books;
      var id := ParseInt(idParam).value;
      if !AnyMatch(before, WithId(id)) then
        resp == ErrorResponse(404, NotFound) && file.state == old(file.state)
      else
        file.state == (if w.WriteOk? then Written(Deleted(before, id)) else w.left)
        && resp == (if w.WriteOk? then Response(204, NoContent) else ErrorResponse(500, DeleteFailed))
    ensures resp.status == 204 ==>
      var after := ReadResult(file.state);
      after.Loaded? && forall i :: 0 <= i < |after.books| ==> !HasId(after.books[i], ParseInt(idParam).value)
  {
    var parsed := ParseInt(idParam);
    if parsed.NaN? {
      return ErrorResponse(400, InvalidId);
    }
    var id := parsed.value;
    var loaded := file.ReadBooks();
    if loaded.LoadFailed? {
      return ErrorResponse(500, DeleteFailed);
    }
    var books := loaded.books;
    var existing := AnyMatch(books, WithId(id));
    if !existing {
      return ErrorResponse(404, NotFound);
    }
    var filtered := Deleted(books, id);
    var ok := file.WriteBooks(filtered, w);
    if !ok {
      return ErrorResponse(500, DeleteFailed);
    }
    resp := Response(204, NoContent);
  }
}
