/**
 * The Author/Book data-access layer. The two store collections, `authors` and
 * `books`, are sequences of decoded records in the store's iteration order;
 * `DB` holds them and its methods are the repository operations. A Book
 * record stores its author's id as the external string, and every read that
 * returns a Book resolves that string with an author point read.
 *
 * `log.Fatal` after a malformed id is the `InvalidObjectId` failure. A
 * decode error after a point read that found nothing is ignored by the
 * source, so such a read yields the zero-valued record.
 */
module Database {
  import opened Wrappers
  import opened ObjectIds
  import Dates
  import opened Model

  /** `AuthorDB`: a decoded author document. */
  datatype AuthorDB = AuthorDB(id: string, name: string, birthdate: Dates.Date)

  /** `BookDB`: a decoded book document; `idAuth` is the author id as the caller gave it. */
  datatype BookDB = BookDB(id: string, idAuth: string, title: string)

  /** The one failure a request can end in: the process-ending `log.Fatal` on a malformed id. */
  datatype DbError = InvalidObjectId(id: string)

  /** `AuthorDB{}` and `BookDB{}`, what an ignored decode error leaves behind. */
  const ZeroAuthorDB := AuthorDB("", "", Dates.UnixEpoch)
  const ZeroBookDB := BookDB("", "", "")

  function AuthorKey(a: AuthorDB): string { a.id }

  function BookKey(b: BookDB): string { b.id }

  /** No two documents of a collection share an `_id`. */
  predicate UniqueIds<D>(docs: seq<D>, idOf: D -> string) {
    forall i, j :: 0 <= i < j < |docs| ==> idOf(docs[i]) != idOf(docs[j])
  }

  /** What every stored author satisfies: a unique store-assigned id and a writable birthdate. */
  predicate ValidAuthors(authors: seq<AuthorDB>) {
    && UniqueIds(authors, AuthorKey)
    && forall a :: a in authors ==> IsCanonicalHex(a.id) && Dates.IsValid(a.birthdate)
  }

  /** What every stored book satisfies: a unique store-assigned id and a well-formed author id. */
  predicate ValidBooks(books: seq<BookDB>) {
    && UniqueIds(books, BookKey)
    && forall b :: b in books ==> IsCanonicalHex(b.id) && IsObjectIdHex(b.idAuth)
  }

  /** `collection.FindOne(ctx, bson.M{"_id": objId})`: the document whose id is `key`, if any. */
  function FindOne<D>(docs: seq<D>, idOf: D -> string, key: string): (r: Option<D>)
    ensures r.None? <==> forall i :: 0 <= i < |docs| ==> idOf(docs[i]) != key
    ensures r.Some? ==> r.value in docs && idOf(r.value) == key
  {
    if docs == [] then None
    else if idOf(docs[0]) == key then Some(docs[0])
    else
      var r := FindOne(docs[1..], idOf, key);
      assert forall i :: 1 <= i < |docs| ==> docs[i] == docs[1..][i - 1];
      r
  }

  /** With unique ids, the point read finds the one document carrying the key. */
  lemma FindOneUnique<D>(docs: seq<D>, idOf: D -> string, key: string)
    requires UniqueIds(docs, idOf)
    ensures forall x :: x in docs && idOf(x) == key ==> FindOne(docs, idOf, key) == Some(x)
  {
  }

  /** `convertAuthorType`: the stored birthdate is written back in the DD-MM-YYYY layout. */
  function ConvertAuthorType(a: AuthorDB): (r: Author)
    requires Dates.IsValid(a.birthdate)
    ensures r.id == a.id && r.name == a.name
    ensures |r.birthdate| == 10 && Dates.Parse(r.birthdate) == Some(a.birthdate)
  {
    Dates.ParseFormat(a.birthdate);
    Author(a.id, a.name, Dates.Format(a.birthdate))
  }

  /** `convertBookType`: the record's id and title with the given author attached. */
  function ConvertBookType(b: BookDB, author: Author): Book {
    Book(b.id, b.title, author)
  }

  /** The Author a lookup of a missing id produces: `convertAuthorType(&AuthorDB{})`. */
  const ZeroAuthor: Author := ConvertAuthorType(ZeroAuthorDB)

  /** The document `AddAuthor` inserts, under the id the store assigns. */
  function AuthorRecord(input: AuthorInput, newId: ObjectId): AuthorDB {
    AuthorDB(Hex(newId), input.name, Dates.ParseOrZero(input.birthdate))
  }

  /** The document `AddBook` inserts, under the id the store assigns. */
  function BookRecord(input: BookInput, idAuthor: string, newId: ObjectId): BookDB {
    BookDB(Hex(newId), idAuthor, input.title)
  }

  /**
   * The outcome of `FindAuthorByID(id)` against `authors`: a failure exactly
   * when the id is malformed, the converted record when an author carries the
   * id, and the zero-valued Author when none does.
   */
  function LookupAuthor(authors: seq<AuthorDB>, id: string): (r: Result<Author, DbError>)
    requires ValidAuthors(authors)
    ensures r.Failure? <==> !IsObjectIdHex(id)
    ensures r.Failure? ==> r.error == InvalidObjectId(id)
    ensures r.Success? ==>
      forall a :: a in authors && a.id == CanonicalHex(id) ==> r.value == ConvertAuthorType(a)
    ensures r.Success? && (forall a :: a in authors ==> a.id != CanonicalHex(id)) ==>
      r.value == ZeroAuthor
  {
    match FromHex(id)
    case Failure(_) => Failure(InvalidObjectId(id))
    case Success(objId) =>
      var found := FindOne(authors, AuthorKey, Hex(objId));
      FindOneUnique(authors, AuthorKey, Hex(objId));
      var authorDB := if found.Some? then found.value else ZeroAuthorDB;
      Success(ConvertAuthorType(authorDB))
  }

  /**
   * The outcome of `FindBookByID(id)`: a malformed id fails with that id; a
   * well-formed id naming no book reads the zero BookDB, whose empty author id
   * then fails; a stored book comes back with its author resolved.
   */
  function LookupBook(authors: seq<AuthorDB>, books: seq<BookDB>, id: string): (r: Result<Book, DbError>)
    requires ValidAuthors(authors) && ValidBooks(books)
    ensures r.Failure? <==> !IsObjectIdHex(id) || forall b :: b in books ==> b.id != CanonicalHex(id)
    ensures !IsObjectIdHex(id) ==> r == Failure(InvalidObjectId(id))
    ensures IsObjectIdHex(id) && r.Failure? ==> r.error == InvalidObjectId("")
    ensures r.Success? ==>
      forall b :: b in books && b.id == CanonicalHex(id) ==>
        r.value == ConvertBookType(b, LookupAuthor(authors, b.idAuth).value)
  {
    match FromHex(id)
    case Failure(_) => Failure(InvalidObjectId(id))
    case Success(objId) =>
      var found := FindOne(books, BookKey, Hex(objId));
      FindOneUnique(books, BookKey, Hex(objId));
      var bookDB := if found.Some? then found.value else ZeroBookDB;
      match LookupAuthor(authors, bookDB.idAuth)
      case Failure(e) => Failure(e)
      case Success(author) => Success(ConvertBookType(bookDB, author))
  }

  /** A stored book with its author resolved through the author id it stores. */
  function ResolvedBook(authors: seq<AuthorDB>, b: BookDB): Book
    requires ValidAuthors(authors) && IsObjectIdHex(b.idAuth)
  {
    ConvertBookType(b, LookupAuthor(authors, b.idAuth).value)
  }

  /** Every stored book with its author resolved, in store order: what `AllBooks` returns. */
  function ResolvedBooks(authors: seq<AuthorDB>, books: seq<BookDB>): seq<Book>
    requires ValidAuthors(authors) && ValidBooks(books)
  {
    seq(|books|, i requires 0 <= i < |books| => ResolvedBook(authors, books[i]))
  }

  /** The books whose resolved author id is `id`, in their original order. */
  function FilterByAuthor(bs: seq<Book>, id: string): (r: seq<Book>)
    ensures |r| <= |bs|
    ensures forall b :: b in r ==> b in bs && b.author.id == id
  {
    if bs == [] then []
    else
      var last := bs[|bs| - 1];
      FilterByAuthor(bs[..|bs| - 1], id) + (if last.author.id == id then [last] else [])
  }

  /** `r` is `s` with some elements dropped and the rest kept in order. */
  predicate IsSubsequence<T(==)>(r: seq<T>, s: seq<T>) {
    if r == [] then true
    else if s == [] then false
    else if r[|r| - 1] == s[|s| - 1] then IsSubsequence(r[..|r| - 1], s[..|s| - 1])
    else IsSubsequence(r, s[..|s| - 1])
  }

  /** The filter keeps every matching book. */
  lemma {:induction false} FilterComplete(bs: seq<Book>, id: string)
    ensures forall b :: b in bs && b.author.id == id ==> b in FilterByAuthor(bs, id)
  {
    if bs != [] {
      var init := bs[..|bs| - 1];
      FilterComplete(init, id);
      assert bs == init + [bs[|bs| - 1]];
    }
  }

  /** The filter keeps the order of the books it keeps. */
  lemma {:induction false} FilterIsSubsequence(bs: seq<Book>, id: string)
    ensures IsSubsequence(FilterByAuthor(bs, id), bs)
  {
    if bs != [] {
      var init := bs[..|bs| - 1];
      var last := bs[|bs| - 1];
      FilterIsSubsequence(init, id);
      var r := FilterByAuthor(bs, id);
      if last.author.id == id {
        assert r[..|r| - 1] == FilterByAuthor(init, id);
      } else {
        assert r == FilterByAuthor(init, id);
        if r != [] {
          assert r[|r| - 1] in r;
        }
      }
    }
  }

  /**
   * The filter is exactly the order-preserving selection of the matching
   * books, and empty when none matches.
   */
  lemma FilterSpec(bs: seq<Book>, id: string)
    ensures forall b :: b in FilterByAuthor(bs, id) <==> b in bs && b.author.id == id
    ensures IsSubsequence(FilterByAuthor(bs, id), bs)
    ensures (forall b :: b in bs ==> b.author.id != id) ==> FilterByAuthor(bs, id) == []
  {
    FilterComplete(bs, id);
    FilterIsSubsequence(bs, id);
    var r := FilterByAuthor(bs, id);
    if r != [] {
      assert r[0] in r;
    }
  }

  /** Inserting a record under a fresh id keeps the author collection valid. */
  lemma AppendAuthorValid(authors: seq<AuthorDB>, a: AuthorDB)
    requires ValidAuthors(authors)
    requires IsCanonicalHex(a.id) && Dates.IsValid(a.birthdate)
    requires forall x :: x in authors ==> x.id != a.id
    ensures ValidAuthors(authors + [a])
  {
  }

  /** Inserting a record under a fresh id keeps the book collection valid. */
  lemma AppendBookValid(books: seq<BookDB>, b: BookDB)
    requires ValidBooks(books)
    requires IsCanonicalHex(b.id) && IsObjectIdHex(b.idAuth)
    requires forall x :: x in books ==> x.id != b.id
    ensures ValidBooks(books + [b])
  {
  }

  /** The connection handle `DB`, here holding the two collections it reaches. */
  class DB {
    var authors: seq<AuthorDB>
    var books: seq<BookDB>

    ghost predicate Valid()
      reads this
    {
      ValidAuthors(authors) && ValidBooks(books)
    }

    /** An empty library database. */
    constructor ()
      ensures Valid() && authors == [] && books == []
    {
      authors := [];
      books := [];
    }

    /**
     * Parses the birthdate (a failure leaves the zero time), inserts one
     * author under the store-assigned `newId`, and echoes the input strings
     * back with the new id.
     */
    method AddAuthor(input: AuthorInput, newId: ObjectId) returns (r: Author)
      requires Valid()
      requires forall a :: a in authors ==> a.id != Hex(newId)
      modifies this
      ensures Valid()
      ensures authors == old(authors) + [AuthorRecord(input, newId)]
      ensures books == old(books)
      ensures r.id == authors[|authors| - 1].id
      ensures r.name == input.name && r.birthdate == input.birthdate
    {
      var toInsert := AuthorRecord(input, newId);
      AppendAuthorValid(authors, toInsert);
      authors := authors + [toInsert];
      r := Author(Hex(newId), input.name, input.birthdate);
    }

    /** Point read of an author; the store is only read. */
    method FindAuthorByID(id: string) returns (r: Result<Author, DbError>)
      requires Valid()
      ensures r == LookupAuthor(authors, id)
      ensures r.Failure? <==> !IsObjectIdHex(id)
      ensures r.Success? ==>
        forall a :: a in authors && a.id == CanonicalHex(id) ==> r.value == ConvertAuthorType(a)
      ensures r.Success? && (forall a :: a in authors ==> a.id != CanonicalHex(id)) ==>
        r.value == ZeroAuthor
    {
      var objId := FromHex(id);
      if objId.Failure? {
        return Failure(InvalidObjectId(id));
      }
      var res := FindOne(authors, AuthorKey, Hex(objId.value));
      var authorDB := ZeroAuthorDB;
      if res.Some? {
        authorDB := res.value;
      }
      r := Success(ConvertAuthorType(authorDB));
    }

    /** Every stored author, converted, in store order. */
    method AllAuthors() returns (r: seq<Author>)
      requires Valid()
      ensures |r| == |authors|
      ensures forall i :: 0 <= i < |authors| ==> r[i] == ConvertAuthorType(authors[i])
    {
      r := [];
      var i := 0;
      while i < |authors|
        invariant 0 <= i <= |authors|
        invariant |r| == i
        invariant forall k :: 0 <= k < i ==> r[k] == ConvertAuthorType(authors[k])
      {
        r := r + [ConvertAuthorType(authors[i])];
        i := i + 1;
      }
    }

    /**
     * Looks the author up first (a malformed id ends the request before any
     * write), then inserts one book that stores `idAuthor` verbatim, with no
     * check that the author exists, and returns it with the looked-up author.
     */
    method AddBook(input: BookInput, idAuthor: string, newId: ObjectId) returns (r: Result<Book, DbError>)
      requires Valid()
      requires forall b :: b in books ==> b.id != Hex(newId)
      modifies this
      ensures Valid()
      ensures authors == old(authors)
      ensures r.Failure? <==> !IsObjectIdHex(idAuthor)
      ensures r.Failure? ==> books == old(books) && r.error == InvalidObjectId(idAuthor)
      ensures r.Success? ==> books == old(books) + [BookRecord(input, idAuthor, newId)]
      ensures r.Success? ==>
        r.value == Book(books[|books| - 1].id, input.title, LookupAuthor(authors, idAuthor).value)
      ensures r.Success? && (forall a :: a in authors ==> a.id != CanonicalHex(idAuthor)) ==>
        r.value.author == ZeroAuthor
    {
      var author := FindAuthorByID(idAuthor);
      if author.Failure? {
        return Failure(author.error);
      }
      var toInsert := BookRecord(input, idAuthor, newId);
      AppendBookValid(books, toInsert);
      books := books + [toInsert];
      r := Success(Book(Hex(newId), input.title, author.value));
    }

    /** Point read of a book, then of its author through the stored author id. */
    method FindBookByID(id: string) returns (r: Result<Book, DbError>)
      requires Valid()
      ensures r == LookupBook(authors, books, id)
      ensures r.Failure? <==> !IsObjectIdHex(id) || forall b :: b in books ==> b.id != CanonicalHex(id)
      ensures r.Success? ==>
        forall b :: b in books && b.id == CanonicalHex(id) ==>
          r.value == ConvertBookType(b, LookupAuthor(authors, b.idAuth).value)
    {
      var objId := FromHex(id);
      if objId.Failure? {
        return Failure(InvalidObjectId(id));
      }
      var res := FindOne(books, BookKey, Hex(objId.value));
      var bookDB := ZeroBookDB;
      if res.Some? {
        bookDB := res.value;
      }
      var author := FindAuthorByID(bookDB.idAuth);
      if author.Failure? {
        return Failure(author.error);
      }
      r := Success(ConvertBookType(bookDB, author.value));
    }

    /** Every stored book in store order, each with its author resolved by a point read. */
    method AllBooks() returns (r: seq<Book>)
      requires Valid()
      ensures |r| == |books|
      ensures r == ResolvedBooks(authors, books)
    {
      r := [];
      var i := 0;
      while i < |books|
        invariant 0 <= i <= |books|
        invariant |r| == i
        invariant forall k :: 0 <= k < i ==> r[k] == ResolvedBook(authors, books[k])
      {
        assert books[i] in books;
        var author := FindAuthorByID(books[i].idAuth);
        r := r + [ConvertBookType(books[i], author.value)];
        i := i + 1;
      }
    }

    /** `AllBooks()` filtered on the resolved author's id, order kept. */
    method AllBooksByAuthor(id: string) returns (r: seq<Book>)
      requires Valid()
      ensures r == FilterByAuthor(ResolvedBooks(authors, books), id)
      ensures forall b :: b in r <==> b in ResolvedBooks(authors, books) && b.author.id == id
      ensures IsSubsequence(r, ResolvedBooks(authors, books))
      ensures |r| <= |books|
      ensures (forall b :: b in ResolvedBooks(authors, books) ==> b.author.id != id) ==> r == []
    {
      var all := AllBooks();
      r := [];
      var i := 0;
      while i < |all|
        invariant 0 <= i <= |all|
        invariant r == FilterByAuthor(all[..i], id)
      {
        ghost var prefix := all[..i + 1];
        assert prefix[..i] == all[..i] && prefix[i] == all[i];
        assert FilterByAuthor(prefix, id)
          == FilterByAuthor(all[..i], id) + (if all[i].author.id == id then [all[i]] else []);
        if all[i].author.id == id {
          r := r + [all[i]];
        }
        i := i + 1;
      }
      assert all[..i] == all;
      FilterSpec(all, id);
    }
  }
}
