/**
 * Properties that relate several operations of the data-access layer: what a
 * read returns after an insert, what an insert leaves alone, and how the
 * scans agree with the point reads.
 */
module DatabaseProperties {
  import opened Wrappers
  import opened ObjectIds
  import Dates
  import opened Model
  import opened Database

  /**
   * Fetching a just-created author by the id `AddAuthor` returned yields the
   * input name, and the input birthdate exactly when that birthdate was a
   * valid DD-MM-YYYY date; otherwise the zero time is read back.
   */
  lemma FindAfterAddAuthor(authors: seq<AuthorDB>, input: AuthorInput, newId: ObjectId)
    requires ValidAuthors(authors)
    requires forall a :: a in authors ==> a.id != Hex(newId)
    ensures ValidAuthors(authors + [AuthorRecord(input, newId)])
    ensures LookupAuthor(authors + [AuthorRecord(input, newId)], Hex(newId))
      == Success(Author(Hex(newId), input.name, Dates.Format(Dates.ParseOrZero(input.birthdate))))
    ensures (LookupAuthor(authors + [AuthorRecord(input, newId)], Hex(newId)).value.birthdate == input.birthdate)
      <==> Dates.Parse(input.birthdate).Some?
  {
    var rec := AuthorRecord(input, newId);
    AppendAuthorValid(authors, rec);
    CanonicalHexOfCanonical(Hex(newId));
    Dates.FormatParseOrZero(input.birthdate);
    assert rec in authors + [rec];
  }

  /** Inserting an author changes no lookup of any other id. */
  lemma AddAuthorKeepsOtherLookups(authors: seq<AuthorDB>, rec: AuthorDB, id: string)
    requires ValidAuthors(authors) && ValidAuthors(authors + [rec])
    requires IsObjectIdHex(id) ==> CanonicalHex(id) != rec.id
    ensures LookupAuthor(authors + [rec], id) == LookupAuthor(authors, id)
  {
  }

  /**
   * Fetching a just-created book yields its title and the author that
   * `AddBook` attached; that author carries the requested author id exactly
   * when such an author was stored.
   */
  lemma FindAfterAddBook(authors: seq<AuthorDB>, books: seq<BookDB>, input: BookInput, idAuthor: string, newId: ObjectId)
    requires ValidAuthors(authors) && ValidBooks(books)
    requires IsObjectIdHex(idAuthor)
    requires forall b :: b in books ==> b.id != Hex(newId)
    ensures ValidBooks(books + [BookRecord(input, idAuthor, newId)])
    ensures LookupBook(authors, books + [BookRecord(input, idAuthor, newId)], Hex(newId))
      == Success(Book(Hex(newId), input.title, LookupAuthor(authors, idAuthor).value))
    ensures (LookupAuthor(authors, idAuthor).value.id == CanonicalHex(idAuthor))
      <==> (exists a :: a in authors && a.id == CanonicalHex(idAuthor))
  {
    var rec := BookRecord(input, idAuthor, newId);
    AppendBookValid(books, rec);
    CanonicalHexOfCanonical(Hex(newId));
    assert rec in books + [rec];
    var key := CanonicalHex(idAuthor);
    if a :| a in authors && a.id == key {
    } else {
      assert ZeroAuthor.id == "";
    }
  }

  /**
   * After a book is inserted, the list for any author id is the old list,
   * followed by the new book exactly when its resolved author has that id.
   * A book whose author is missing resolves to the zero Author, so it is
   * listed only under the empty id.
   */
  lemma ListAfterAddBook(authors: seq<AuthorDB>, books: seq<BookDB>, rec: BookDB, id: string)
    requires ValidAuthors(authors) && ValidBooks(books) && ValidBooks(books + [rec])
    ensures ResolvedBooks(authors, books + [rec])
      == ResolvedBooks(authors, books) + [ResolvedBook(authors, rec)]
    ensures FilterByAuthor(ResolvedBooks(authors, books + [rec]), id)
      == FilterByAuthor(ResolvedBooks(authors, books), id)
         + (if ResolvedBook(authors, rec).author.id == id then [ResolvedBook(authors, rec)] else [])
    ensures (forall a :: a in authors ==> a.id != CanonicalHex(rec.idAuth)) ==>
      ResolvedBook(authors, rec).author.id == ""
  {
    var s := books + [rec];
    assert rec in s;
    var before := ResolvedBooks(authors, books);
    var after := ResolvedBooks(authors, s);
    assert |after| == |before| + 1;
    forall i | 0 <= i < |before| ensures after[i] == before[i] {
      assert s[i] == books[i];
    }
    assert after == before + [ResolvedBook(authors, rec)];
    assert after[..|after| - 1] == before;
  }

  /** `AllAuthors` and `FindAuthorByID` agree: each listed author is what its id looks up. */
  lemma ScanAgreesWithFindAuthor(authors: seq<AuthorDB>, i: nat)
    requires ValidAuthors(authors) && i < |authors|
    ensures LookupAuthor(authors, authors[i].id) == Success(ConvertAuthorType(authors[i]))
  {
    assert authors[i] in authors;
    CanonicalHexOfCanonical(authors[i].id);
  }

  /**
   * `AllBooks` and `FindBookByID` agree: the i-th listed book is what the
   * i-th record's id looks up, and it carries that record's id and title.
   */
  lemma ScanAgreesWithFindBook(authors: seq<AuthorDB>, books: seq<BookDB>, i: nat)
    requires ValidAuthors(authors) && ValidBooks(books) && i < |books|
    ensures |ResolvedBooks(authors, books)| == |books|
    ensures LookupBook(authors, books, books[i].id) == Success(ResolvedBooks(authors, books)[i])
    ensures ResolvedBooks(authors, books)[i].id == books[i].id
    ensures ResolvedBooks(authors, books)[i].title == books[i].title
  {
    assert books[i] in books;
    CanonicalHexOfCanonical(books[i].id);
  }

  /**
   * A session against an empty library: an author is created, a book is
   * created for it, and a malformed id is looked up.
   */
  method ExampleSession(authorId: ObjectId, bookId: ObjectId)
  {
    var db := new DB();
    var jane := db.AddAuthor(AuthorInput("Jane Doe", "15-03-1990"), authorId);
    assert jane.id == Hex(authorId) && jane.id != "" && jane.birthdate == "15-03-1990";
    CanonicalHexOfCanonical(jane.id);
    assert db.authors[0].id == jane.id;
    var book := db.AddBook(BookInput("Go Deep"), jane.id, bookId);
    assert book.Success?;
    assert book.value.author.name == "Jane Doe";
    var missing := db.FindAuthorByID("not-a-valid-id");
    assert missing == Failure(InvalidObjectId("not-a-valid-id"));
  }
}
