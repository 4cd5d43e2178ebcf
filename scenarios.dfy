/** Request sequences against a data file, checked from the handlers' contracts alone. */
module Scenarios {
  import opened JsValues
  import opened Numbers
  import opened Collection
  import opened Persistence
  import opened Handlers

  /** POST on an empty store creates the record with id 1. */
  method CreateOnEmptyStore() {
    var file := new DataFile(Missing);
    var body := Obj(map["title" := Str("X"), "author" := Str("Y"), "available" := Bool(true)]);
    assert CreateFields(body) == Some(BookFields("X", "Y", true));
    var resp := CreateBook(file, body, WriteOk);
    assert resp == Response(201, Json(MakeBook(1, "X", "Y", true)));
    var all := ListBooks(file);
    assert all == Response(200, Json(Arr([MakeBook(1, "X", "Y", true)])));
  }

  /** A file created by start-up seeding. */
  method Seeded() returns (file: DataFile)
    ensures fresh(file) && file.state == Written(Seed())
  {
    file := new DataFile(Missing);
    file.EnsureDataFile(WriteOk);
  }

  /** GET /books/available on the seed data returns only "Atomic Habits". */
  method SeedAvailableList() {
    var file := Seeded();
    var resp := ListAvailable(file);
    SeedAvailable();
    assert resp == Response(200, Json(Arr([Seed()[0]])));
  }

  /**
    * DELETE /books/99 on the seed data is a 404 and leaves the file alone; `path` is any id
    * segment that parses to 99, such as `IntToString(99)` (see ParseIntRoundTrip).
    */
  method SeedDeleteMissing(path: string)
    requires ParseInt(path) == Finite(99)
  {
    var file := Seeded();
    var seed := Seed();
    assert !HasId(seed[0], 99) && !HasId(seed[1], 99);
    assert seed[1..][1..] == [];
    var resp := DeleteBook(file, path, WriteOk);
    assert resp == ErrorResponse(404, NotFound);
    assert file.state == Written(seed);
  }

  /** `DELETE /books/99`, with the path segment a client writes for 99. */
  method SeedDeleteNinetyNine() {
    ParseIntRoundTrip(99);
    SeedDeleteMissing(IntToString(99));
  }

  /** The update transform on the seed data: "Deep Work" becomes available. */
  lemma SeedUpdated()
    ensures Updated(Seed(), 2, Patch(None, None, Some(true))) ==
      Some(([Seed()[0], MakeBook(2, "Deep Work", "Cal Newport", true)], MakeBook(2, "Deep Work", "Cal Newport", true)))
  {
    var seed := Seed();
    var expected := MakeBook(2, "Deep Work", "Cal Newport", true);
    SeedFindTwo();
    SeedPatchTwo();
    assert seed[1 := expected] == [seed[0], expected];
  }

  lemma SeedFindTwo()
    ensures FindIndex(Seed(), WithId(2)) == 1
  {
    var seed := Seed();
    assert !HasId(seed[0], 2) && HasId(seed[1], 2);
    assert seed[1..][0] == seed[1];
  }

  lemma SeedPatchTwo()
    ensures ApplyPatch(Seed()[1], Patch(None, None, Some(true))) == MakeBook(2, "Deep Work", "Cal Newport", true)
  {
    var r := ApplyPatch(Seed()[1], Patch(None, None, Some(true)));
    assert r.fields == MakeBook(2, "Deep Work", "Cal Newport", true).fields;
  }

  /**
    * PUT /books/2 with `{ available: true }` on the seed data makes "Deep Work" available;
    * `path` is any id segment that parses to 2.
    */
  method SeedUpdateAvailability(path: string)
    requires ParseInt(path) == Finite(2)
  {
    var file := Seeded();
    var body := Obj(map["available" := Bool(true)]);
    assert PatchOf(body) == Patch(None, None, Some(true));
    SeedUpdated();
    var resp := UpdateBook(file, path, body, WriteOk);
    assert resp == Response(200, Json(MakeBook(2, "Deep Work", "Cal Newport", true)));
  }

  /** `PUT /books/2` with `{ available: true }`, with the path segment a client writes for 2. */
  method SeedUpdateTwo() {
    ParseIntRoundTrip(2);
    SeedUpdateAvailability(IntToString(2));
  }
}
