/**
  * The data file behind the service: how `readBooks` turns what is on disk into a collection
  * (with its fall-backs to the empty collection), `writeBooks`, and the seeding done at start-up.
  */
module Persistence {
  import opened JsValues
  import opened Numbers
  import Collection

  /** What `JSON.parse` makes of a text: a value, or a thrown SyntaxError. */
  datatype JsonParse = Parsed(v: Value) | SyntaxError

  /**
    * The data file as `fs.readFile` sees it: absent (ENOENT), failing with another error,
    * holding some text (with what `JSON.parse` makes of it), or holding the text a
    * successful `writeBooks(books)` produced.
    */
  datatype FileState =
    | Missing
    | Unreadable
    | Contents(text: string, parsed: JsonParse)
    | Written(books: seq<Value>)

  /** The settled `readBooks()` promise: a collection, or a rejection (the 500 path). */
  datatype LoadResult = Loaded(books: seq<Value>) | LoadFailed

  /** How a `fs.writeFile` call ends; a failed write leaves the file in some state. */
  datatype WriteResult = WriteOk | WriteFailed(left: FileState)

  /** The decision `readBooks` makes about what it read. */
  function ReadResult(f: FileState): (r: LoadResult)
    ensures r.LoadFailed? <==> f.Unreadable?
    ensures r.Loaded? && r.books != [] ==> f.Written? || (f.Contents? && f.parsed == Parsed(Arr(r.books)))
  {
    match f
    case Missing => Loaded([])
    case Unreadable => LoadFailed
    case Contents(text, parsed) =>
      if Trim(text) == [] then Loaded([])
      else if parsed.SyntaxError? then Loaded([])
      else if !parsed.v.Arr? then Loaded([])
      else Loaded(parsed.v.elems)
    case Written(books) =>
      // JSON.parse(JSON.stringify(books, null, 2) + '\n') rebuilds books
      Loaded(books)
  }

  /**
    * Loading never fails on the file's content: a missing file, white-space-only text, text
    * that does not parse and text that parses to a non-array all give the empty collection;
    * only another read error fails; a parsed array comes back unchanged.
    */
  lemma LoadRules(f: FileState)
    ensures ReadResult(f).LoadFailed? <==> f.Unreadable?
    ensures f.Missing? ==> ReadResult(f) == Loaded([])
    ensures f.Contents? && AllWhite(f.text) ==> ReadResult(f) == Loaded([])
    ensures f.Contents? && f.parsed.SyntaxError? ==> ReadResult(f) == Loaded([])
    ensures f.Contents? && f.parsed.Parsed? && !f.parsed.v.Arr? ==> ReadResult(f) == Loaded([])
    ensures f.Contents? && !AllWhite(f.text) && f.parsed.Parsed? && f.parsed.v.Arr? ==>
      ReadResult(f) == Loaded(f.parsed.v.elems)
    ensures f.Written? ==> ReadResult(f) == Loaded(f.books)
  {
    if f.Contents? {
      TrimEmptyIffAllWhite(f.text);
    }
  }

  /** A non-empty collection is only ever loaded from a saved collection or a parsed array. */
  lemma LoadedFromArray(f: FileState)
    requires ReadResult(f).Loaded? && ReadResult(f).books != []
    ensures f.Written? || (f.Contents? && !AllWhite(f.text) && f.parsed == Parsed(Arr(ReadResult(f).books)))
  {
    LoadRules(f);
  }

  /** The file `DATA_FILE` names. */
  class DataFile {
    var state: FileState

    constructor (initial: FileState)
      ensures state == initial
    {
      state := initial;
    }

    /** `readBooks()`. */
    method ReadBooks() returns (r: LoadResult)
      ensures r == ReadResult(state)
    {
      r := ReadResult(state);
    }

    /** `writeBooks(books)`: `ok` is whether the promise resolves. */
    method WriteBooks(books: seq<Value>, w: WriteResult) returns (ok: bool)
      modifies this
      ensures ok == w.WriteOk?
      ensures state == if ok then Written(books) else w.left
      ensures ok ==> ReadResult(state) == Loaded(books)
    {
      if w.WriteOk? {
        state := Written(books);
        ok := true;
      } else {
        state := w.left;
        ok := false;
      }
    }

    /**
      * `ensureDataFile()`: when no file exists, write the seed collection, ignoring a write
      * error; an existing file is left alone.
      */
    method EnsureDataFile(w: WriteResult)
      modifies this
      ensures old(state) != Missing ==> state == old(state)
      ensures old(state) == Missing ==> state == if w.WriteOk? then Written(Collection.Seed()) else w.left
      ensures old(state) == Missing && w.WriteOk? ==> ReadResult(state) == Loaded(Collection.Seed())
    {
      if state == Missing {
        var _ := WriteBooks(Collection.Seed(), w);
      }
    }
  }
}
