/**
  * The in-memory transforms the route handlers apply to the loaded collection: the array
  * methods they call (`filter`, `findIndex`, `some`, `reduce`), the predicates passed to
  * them, the partial update of one record and the fixed seed collection.
  */
module Collection {
  import opened JsValues

  // ---------------------------------------------------------------------------------------
  // Array methods

  /** `s.filter(p)`: the elements satisfying `p`, in their original order. */
  function Filter<T(!new)>(s: seq<T>, p: T -> bool): (r: seq<T>)
    ensures |r| <= |s|
    ensures forall i :: 0 <= i < |r| ==> p(r[i])
    ensures forall x :: multiset(r)[x] == if p(x) then multiset(s)[x] else 0
  {
    if s == [] then []
    else
      assert s == [s[0]] + s[1..];
      (if p(s[0]) then [s[0]] else []) + Filter(s[1..], p)
  }

  /** Filtering commutes with concatenation, so the kept elements keep their relative order. */
  lemma {:induction false} FilterConcat<T(!new)>(a: seq<T>, b: seq<T>, p: T -> bool)
    ensures Filter(a + b, p) == Filter(a, p) + Filter(b, p)
    decreases |a|
  {
    if a == [] {
      assert a + b == b;
    } else {
      assert (a + b)[0] == a[0];
      assert (a + b)[1..] == a[1..] + b;
      FilterConcat(a[1..], b, p);
    }
  }

  /** Filtering keeps everything exactly when every element satisfies the predicate. */
  lemma {:induction false} FilterKeepsAll<T(!new)>(s: seq<T>, p: T -> bool)
    ensures Filter(s, p) == s <==> forall i :: 0 <= i < |s| ==> p(s[i])
  {
    if s != [] {
      FilterKeepsAll(s[1..], p);
      if !p(s[0]) {
        assert |Filter(s, p)| < |s|;
      }
    }
  }

  /** `s.findIndex(p)`: the first index whose element satisfies `p`, or -1. */
  function FindIndex<T>(s: seq<T>, p: T -> bool): (r: int)
    ensures -1 <= r < |s|
    ensures r == -1 <==> forall i :: 0 <= i < |s| ==> !p(s[i])
    ensures 0 <= r ==> p(s[r]) && forall j :: 0 <= j < r ==> !p(s[j])
  {
    if s == [] then -1
    else if p(s[0]) then 0
    else
      var k := FindIndex(s[1..], p);
      if k == -1 then -1 else k + 1
  }

  /** `s.some(p)`: whether some element satisfies `p`. */
  function AnyMatch<T>(s: seq<T>, p: T -> bool): (r: bool)
    ensures r <==> exists i :: 0 <= i < |s| && p(s[i])
  {
    s != [] && (p(s[0]) || AnyMatch(s[1..], p))
  }

  // ---------------------------------------------------------------------------------------
  // Records

  /** The object literal `{ id, title, author, available }`. */
  function MakeBook(id: int, title: string, author: string, available: bool): Value {
    Obj(map["id" := Num(id), "title" := Str(title), "author" := Str(author), "available" := Bool(available)])
  }

  /** The two records written when the data file does not exist. */
  function Seed(): seq<Value> {
    [ MakeBook(1, "Atomic Habits", "James Clear", true),
      MakeBook(2, "Deep Work", "Cal Newport", false) ]
  }

  /** `b && b.id === id`. */
  predicate HasId(b: Value, id: int) {
    Truthy(b) && Get(b, "id") == Some(Num(id))
  }

  /** The callback `(b) => b && b.id === id` that `findIndex` and `some` are given. */
  function WithId(id: int): Value -> bool {
    b => HasId(b, id)
  }

  /** The callback `(b) => b && b.id !== id` of the delete filter. */
  function WithoutId(id: int): Value -> bool {
    b => KeptByDelete(b, id)
  }

  /** `b && b.available === true`. */
  predicate IsAvailable(b: Value) {
    Truthy(b) && Get(b, "available") == Some(Bool(true))
  }

  /** `b && b.id !== id`: what the delete filter keeps. */
  predicate KeptByDelete(b: Value, id: int) {
    Truthy(b) && Get(b, "id") != Some(Num(id))
  }

  /** Only an object can carry an id, so the `b &&` guard matters only for falsy entries. */
  lemma HasIdIsObjectWithId(b: Value, id: int)
    ensures HasId(b, id) <==> b.Obj? && "id" in b.fields && b.fields["id"] == Num(id)
  {
  }

  /**
    * The delete filter keeps exactly the truthy entries that the `findIndex`/`some` callback
    * rejects: a truthy non-object and an object without a numeric `id` equal to `id` survive.
    */
  lemma KeptByDeleteIsTruthyWithoutId(b: Value, id: int)
    ensures KeptByDelete(b, id) <==> Truthy(b) && !HasId(b, id)
    ensures KeptByDelete(b, id) <==> Truthy(b) && !(b.Obj? && "id" in b.fields && b.fields["id"] == Num(id))
  {
  }

  // ---------------------------------------------------------------------------------------
  // GET /books/available

  /** `books.filter((b) => b && b.available === true)`. */
  function Available(books: seq<Value>): (r: seq<Value>)
    ensures forall i :: 0 <= i < |r| ==>
      r[i].Obj? && "available" in r[i].fields && r[i].fields["available"] == Bool(true)
    ensures forall x :: multiset(r)[x] == (if x.Obj? && "available" in x.fields && x.fields["available"] == Bool(true) then multiset(books)[x] else 0)
  {
    Filter(books, IsAvailable)
  }

  /** On the seed data only "Atomic Habits" is available. */
  lemma SeedAvailable()
    ensures Available(Seed()) == [Seed()[0]]
  {
    var s := Seed();
    assert IsAvailable(s[0]) by {
      assert Get(s[0], "available") == Some(Bool(true));
    }
    assert !IsAvailable(s[1]) by {
      assert Get(s[1], "available") == Some(Bool(false));
    }
    assert s[1..][1..] == [];
  }

  // ---------------------------------------------------------------------------------------
  // POST /books: the next id

  /** `typeof b.id === 'number'`, with the number. */
  function NumericId(b: Value): Option<int> {
    NumberField(b, "id")
  }

  /**
    * `books.reduce((max, b) => (typeof b.id === 'number' && b.id > max ? b.id : max), acc)`,
    * or None when the callback throws because an element is null.
    */
  function ReduceMaxId(books: seq<Value>, acc: int): (r: Option<int>)
    ensures r.Some? <==> Null !in books
    ensures r.Some? ==> acc <= r.value
    ensures r.Some? ==> forall i :: 0 <= i < |books| && NumericId(books[i]).Some? ==>
      NumericId(books[i]).value <= r.value
    ensures r.Some? ==> r.value == acc || exists i :: 0 <= i < |books| && NumericId(books[i]) == Some(r.value)
  {
    if books == [] then Some(acc)
    else if books[0] == Null then None
    else
      var acc' := match NumericId(books[0]) case Some(n) => if n > acc then n else acc case None => acc;
      var r := ReduceMaxId(books[1..], acc');
      assert books == [books[0]] + books[1..];
      assert r.Some? ==> r.value == acc' || exists i :: 1 <= i < |books| && NumericId(books[i]) == Some(r.value) by {
        if r.Some? && r.value != acc' {
          var j :| 0 <= j < |books[1..]| && NumericId(books[1..][j]) == Some(r.value);
          assert NumericId(books[j + 1]) == Some(r.value);
        }
      }
      r
  }

  /**
    * `maxId + 1` with the maximum taken from 0: None when a null entry makes the reduce throw;
    * otherwise 1 more than the largest numeric id (1 when there is none), larger than every one.
    */
  function NextId(books: seq<Value>): (r: Option<int>)
    ensures r.Some? <==> Null !in books
    ensures books == [] ==> r == Some(1)
    ensures r.Some? ==> 1 <= r.value
    ensures r.Some? ==> forall i :: 0 <= i < |books| && NumericId(books[i]).Some? ==>
      NumericId(books[i]).value < r.value
    ensures r.Some? ==> forall i :: 0 <= i < |books| ==> !HasId(books[i], r.value)
    ensures r.Some? ==> r.value == 1 || exists i :: 0 <= i < |books| && NumericId(books[i]) == Some(r.value - 1)
  {
    match ReduceMaxId(books, 0)
    case None => None
    case Some(m) => Some(m + 1)
  }

  /** The seed collection's next id is 3. */
  lemma SeedNextId()
    ensures NextId(Seed()) == Some(3)
  {
    var s := Seed();
    assert NumericId(s[0]) == Some(1);
    assert NumericId(s[1]) == Some(2);
    assert s[1..][1..] == [];
  }

  // ---------------------------------------------------------------------------------------
  // PUT /books/:id: the partial update

  /** The correctly typed fields of an update body. */
  datatype Patch = Patch(title: Option<string>, author: Option<string>, available: Option<bool>)
  {
    /** At least one field is present with the right type. */
    predicate HasAny() {
      title.Some? || author.Some? || available.Some?
    }

    /** The keys the patch assigns. */
    function Keys(): set<string> {
      (if title.Some? then {"title"} else {}) + (if author.Some? then {"author"} else {})
      + (if available.Some? then {"available"} else {})
    }
  }

  /**
    * `const updated = { ...b }` followed by the three guarded assignments: the supplied fields
    * are overwritten, every other field (the id included) is copied.
    */
  function ApplyPatch(b: Value, p: Patch): (r: Value)
    requires b.Obj?
    ensures r.Obj?
    ensures r.fields.Keys == b.fields.Keys + p.Keys()
    ensures forall k :: k in b.fields && k !in p.Keys() ==> r.fields[k] == b.fields[k]
    ensures p.title.Some? ==> r.fields["title"] == Str(p.title.value)
    ensures p.author.Some? ==> r.fields["author"] == Str(p.author.value)
    ensures p.available.Some? ==> r.fields["available"] == Bool(p.available.value)
    ensures Get(r, "id") == Get(b, "id")
  {
    var f0 := b.fields;
    var f1 := if p.title.Some? then f0["title" := Str(p.title.value)] else f0;
    var f2 := if p.author.Some? then f1["author" := Str(p.author.value)] else f1;
    var f3 := if p.available.Some? then f2["available" := Bool(p.available.value)] else f2;
    Obj(f3)
  }

  /**
    * The collection saved by an update: the first record with the id replaced by its patched
    * copy, or None when no record has the id.
    */
  function Updated(books: seq<Value>, id: int, p: Patch): (r: Option<(seq<Value>, Value)>)
    ensures r.None? <==> forall i :: 0 <= i < |books| ==> !HasId(books[i], id)
    ensures r.Some? ==> exists k :: (0 <= k < |books| && HasId(books[k], id)
      && (forall j :: 0 <= j < k ==> !HasId(books[j], id))
      && r.value.1 == ApplyPatch(books[k], p)
      && r.value.0 == books[k := r.value.1])
    ensures r.Some? ==> HasId(r.value.1, id)
  {
    var idx := FindIndex(books, WithId(id));
    if idx == -1 then None
    else
      var updated := ApplyPatch(books[idx], p);
      Some((books[idx := updated], updated))
  }

  // ---------------------------------------------------------------------------------------
  // DELETE /books/:id

  /** `books.filter((b) => b && b.id !== id)`. */
  function Deleted(books: seq<Value>, id: int): (r: seq<Value>)
    ensures forall i :: 0 <= i < |r| ==> !HasId(r[i], id) && Truthy(r[i])
    ensures forall x :: multiset(r)[x] == if Truthy(x) && !HasId(x, id) then multiset(books)[x] else 0
    ensures !AnyMatch(r, WithId(id))
  {
    Filter(books, WithoutId(id))
  }

  /** Deleting removes exactly the records with the id and the falsy entries, nothing else. */
  lemma {:induction false} DeletedLength(books: seq<Value>, id: int)
    ensures |Deleted(books, id)| + |Filter(books, b => !KeptByDelete(b, id))| == |books|
    decreases |books|
  {
    if books != [] {
      DeletedLength(books[1..], id);
    }
  }
  // ---------------------------------------------------------------------------------------
  // Unique ids

  /** No two entries carry the same numeric id. */
  predicate UniqueIds(books: seq<Value>) {
    forall i, j :: 0 <= i < j < |books| && NumericId(books[i]).Some? ==> NumericId(books[i]) != NumericId(books[j])
  }

  lemma SeedUniqueIds()
    ensures UniqueIds(Seed())
  {
    var s := Seed();
    assert NumericId(s[0]) == Some(1) && NumericId(s[1]) == Some(2);
  }

  /** Appending a record with the next id keeps the ids unique. */
  lemma CreateKeepsIdsUnique(books: seq<Value>, title: string, author: string, available: bool)
    requires UniqueIds(books) && Null !in books
    ensures UniqueIds(books + [MakeBook(NextId(books).value, title, author, available)])
  {
    var next := NextId(books).value;
    var after := books + [MakeBook(next, title, author, available)];
    assert NumericId(after[|books|]) == Some(next);
    forall i | 0 <= i < |books| && NumericId(books[i]).Some?
      ensures NumericId(after[i]) != NumericId(after[|books|])
    {
      assert after[i] == books[i];
    }
  }

  /** An update keeps every id where it was, so unique ids stay unique. */
  lemma UpdateKeepsIdsUnique(books: seq<Value>, id: int, p: Patch)
    requires UniqueIds(books) && Updated(books, id, p).Some?
    ensures UniqueIds(Updated(books, id, p).value.0)
  {
    var r := Updated(books, id, p).value;
    var k :| 0 <= k < |books| && HasId(books[k], id) && r.1 == ApplyPatch(books[k], p) && r.0 == books[k := r.1];
    assert forall i :: 0 <= i < |books| ==> NumericId(r.0[i]) == NumericId(books[i]);
  }

  lemma ConsKeepsIdsUnique(x: Value, t: seq<Value>)
    requires UniqueIds(t)
    requires NumericId(x).Some? ==> forall j :: 0 <= j < |t| ==> NumericId(x) != NumericId(t[j])
    ensures UniqueIds([x] + t)
  {
    var s := [x] + t;
    forall i, j | 0 <= i < j < |s| && NumericId(s[i]).Some? ensures NumericId(s[i]) != NumericId(s[j]) {
      assert s[j] == t[j - 1];
      if i > 0 {
        assert s[i] == t[i - 1];
      }
    }
  }

  /** The first entry's id differs from the id of every entry the filter keeps from the rest. */
  lemma DeletedFromTail(books: seq<Value>, id: int)
    requires books != [] && UniqueIds(books)
    ensures NumericId(books[0]).Some? ==>
      forall j :: 0 <= j < |Deleted(books[1..], id)| ==> NumericId(books[0]) != NumericId(Deleted(books[1..], id)[j])
  {
    var rest := books[1..];
    var tail := Deleted(rest, id);
    forall j | 0 <= j < |tail| && NumericId(books[0]).Some? ensures NumericId(books[0]) != NumericId(tail[j]) {
      assert multiset(tail)[tail[j]] > 0;
      assert tail[j] in rest;
      var m :| 0 <= m < |rest| && rest[m] == tail[j];
      assert books[m + 1] == tail[j];
    }
  }

  /** Deleting keeps the survivors' ids, so unique ids stay unique. */
  lemma {:induction false} DeleteKeepsIdsUnique(books: seq<Value>, id: int)
    requires UniqueIds(books)
    ensures UniqueIds(Deleted(books, id))
    decreases |books|
  {
    if books != [] {
      var rest := books[1..];
      assert UniqueIds(rest) by {
        forall i, j | 0 <= i < j < |rest| && NumericId(rest[i]).Some?
          ensures NumericId(rest[i]) != NumericId(rest[j])
        {
          assert rest[i] == books[i + 1] && rest[j] == books[j + 1];
        }
      }
      DeleteKeepsIdsUnique(rest, id);
      var tail := Deleted(rest, id);
      assert Deleted(books, id) == (if KeptByDelete(books[0], id) then [books[0]] else []) + tail;
      if KeptByDelete(books[0], id) {
        DeletedFromTail(books, id);
        ConsKeepsIdsUnique(books[0], tail);
      } else {
        assert [] + tail == tail;
      }
    }
  }
}
