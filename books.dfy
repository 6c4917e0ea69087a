/** `BookServiceImpl`, in both of its packages: `service/impl` and
    `serviceImpl` differ in the message of a refused update and in whether the
    search filter checks for absent fields before reading them. */
module BookServices {
  import opened Outcomes
  import opened Entities
  import opened Text
  import opened Store
  import opened ServiceSteps
  import opened BookSearch
  import opened BookSort
  import opened AuthorReport
  import opened ExceptionHandler

  /** The package a service bean comes from: `service.impl` or `serviceImpl`. */
  datatype Package = ServiceDotImpl | ServiceImpl

  const TitleRequired := InvalidData("Book title is required")

  const EmptyTerm := InvalidData("Search term cannot be empty")

  const CreateConflict := DataIntegrity("Book with this title already exists")

  const DeleteConflict := DataIntegrity("Cannot delete book because it is associated with other records")

  function NotFoundError(id: int): ServiceError
  {
    ResourceNotFound("Book not found with id " + IntToString(id))
  }

  /** The exception a refused update is translated into. */
  function UpdateConflict(p: Package): ServiceError
  {
    match p
    case ServiceDotImpl => DataIntegrity("Book with this title already exists")
    case ServiceImpl => DataIntegrity("A book with this title already exists")
  }

  /** `createBook`: a missing or empty title is refused before the store is
      called; otherwise the book is saved. */
  function CreateBookStep(t: Table<BookData>, e: Book, v: Verdict): (s: Step<Book, BookData>)
    ensures MissingText(e.fields.title) ==> s == Step(Err(TitleRequired), t)
    ensures !MissingText(e.fields.title) && v.Rejects? ==> s == Step(Err(CreateConflict), t)
    ensures !MissingText(e.fields.title) && v.Accepts? ==> s == Step(Ok(Saved(t, e)), AfterSave(t, e))
  {
    if MissingText(e.fields.title) then Step(Err(TitleRequired), t)
    else SaveStep(t, e, v, CreateConflict)
  }

  /** `updateBook`: the title check comes before the lookup, so a missing
      title is reported even for an id the store does not hold; the found book
      then takes all four fields of `details`. */
  function UpdateBookStep(p: Package, t: Table<BookData>, id: int, details: Book, v: Verdict): (s: Step<Book, BookData>)
    ensures MissingText(details.fields.title) ==> s == Step(Err(TitleRequired), t)
    ensures !MissingText(details.fields.title) && id !in t.rows ==> s == Step(Err(NotFoundError(id)), t)
    ensures !MissingText(details.fields.title) && id in t.rows && v.Rejects? ==>
      s == Step(Err(UpdateConflict(p)), t)
    ensures !MissingText(details.fields.title) && id in t.rows && v.Accepts? ==>
      s.result == Ok(Entity(Some(id), details.fields))
      && s.table == t.(rows := t.rows[id := details.fields])
  {
    if MissingText(details.fields.title) then Step(Err(TitleRequired), t)
    else UpdateStep(t, id, details.fields, v, NotFoundError(id), UpdateConflict(p))
  }

  /** `deleteBook`: a refused delete is translated into a conflict. */
  function DeleteBookStep(t: Table<BookData>, id: int, v: Verdict): (s: Step<(), BookData>)
    ensures id !in t.rows ==> s == Step(Err(NotFoundError(id)), t)
    ensures id in t.rows && v.Rejects? ==> s == Step(Err(DeleteConflict), t)
    ensures id in t.rows && v.Accepts? ==> s == Step(Ok(()), AfterDelete(t, id))
  {
    DeleteStep(t, id, v, NotFoundError(id), Translate(DeleteConflict))
  }

  /** The unguarded filter of `serviceImpl` reads no absent field of `books`. */
  predicate SearchDefined(p: Package, books: seq<Book>, term: Option<string>)
  {
    p.ServiceImpl? && !MissingText(term) ==>
      forall i :: 0 <= i < |books| ==> UnguardedDefined(books[i], term.value)
  }

  /** `searchBooks` over the listed books: a missing or empty term is refused;
      otherwise the books whose title, author name or publisher name contains
      the term, ignoring case, in listed order. */
  function SearchResult(p: Package, books: seq<Book>, term: Option<string>): (r: Result<seq<Book>>)
    requires SearchDefined(p, books, term)
    ensures r.Err? <==> MissingText(term)
    ensures r.Err? ==> r.error == EmptyTerm
    ensures r.Ok? ==> forall b :: b in r.value <==> b in books && Matches(b, term.value)
    ensures r.Ok? ==> r.value == Search(books, term.value)
  {
    if MissingText(term) then Err(EmptyTerm)
    else
      match p
      case ServiceDotImpl => Ok(Search(books, term.value))
      case ServiceImpl =>
        UnguardedSearchAgrees(books, term.value);
        Ok(SearchUnguarded(books, term.value))
  }

  /** Create-then-get for books: a created book is found under its new id. */
  lemma CreateBookThenGet(t: Table<BookData>, e: Book)
    requires WellFormed(t) && !MissingText(e.fields.title)
    ensures var s := CreateBookStep(t, e, Accepts);
      && s.result.Ok? && s.result.value.id.Some?
      && GetStep(s.table, s.result.value.id.value, NotFoundError(s.result.value.id.value)) == s.result
      && s.result.value in Listing(s.table)
  {
    CreateThenGet(t, e, CreateConflict, NotFoundError(Saved(t, e).id.value));
  }

  /** The two packages change the store alike, and answer alike except in the
      message of a refused update. */
  lemma PackagesAgree(t: Table<BookData>, id: int, details: Book, v: Verdict, books: seq<Book>, term: Option<string>)
    requires SearchDefined(ServiceImpl, books, term)
    ensures UpdateBookStep(ServiceDotImpl, t, id, details, v).table == UpdateBookStep(ServiceImpl, t, id, details, v).table
    ensures var r1, r2 := UpdateBookStep(ServiceDotImpl, t, id, details, v).result, UpdateBookStep(ServiceImpl, t, id, details, v).result;
      r1 == r2 || (r1.Err? && r2.Err? && r1.error.DataIntegrity? && r2.error.DataIntegrity?)
    ensures SearchResult(ServiceDotImpl, books, term) == SearchResult(ServiceImpl, books, term)
  {
  }

  /** The errors of the book service reach the client as 400, 404 and 409. */
  lemma BookErrorResponses(t: Table<BookData>, id: int, e: Book, v: Verdict)
    ensures MissingText(e.fields.title) ==>
      Handle(CreateBookStep(t, e, v).result.error) == Response(BadRequest, "Book title is required")
    ensures id !in t.rows ==>
      Handle(DeleteBookStep(t, id, v).result.error) == Response(NotFound, "Book not found with id " + IntToString(id))
    ensures id in t.rows && v.Rejects? ==>
      Handle(DeleteBookStep(t, id, v).result.error)
        == Response(Conflict, "Cannot delete book because it is associated with other records")
  {
  }

  /** The books of the search test that expects one title match for "java":
      neither has an author or a publisher. */
  const JavaBook := Entity(None, BookData(Some("Java Programming"), None, None, None))
  const SpringBook := Entity(None, BookData(Some("Spring Boot Guide"), None, None, None))

  /** The unguarded filter of `serviceImpl` dereferences the absent author of
      the second book, whose title does not contain "java". */
  lemma UnguardedSearchThrows()
    ensures !UnguardedDefined(SpringBook, "java")
  {
    MissingFirstChar(Lower("Spring Boot Guide"), Lower("java"));
  }

  /** The guarded filter of `service.impl` answers that test as it expects. */
  lemma GuardedSearchFindsTitle()
    ensures SearchResult(ServiceDotImpl, [JavaBook, SpringBook], Some("java")) == Ok([JavaBook])
  {
    var term := Lower("java");
    assert Lower("Java Programming")[0..4] == term;
    assert OccursAt(Lower("Java Programming"), term, 0);
    assert Matches(JavaBook, "java");
    MissingFirstChar(Lower("Spring Boot Guide"), term);
    assert !Matches(SpringBook, "java");
    var books := [JavaBook, SpringBook];
    assert books[1..] == [SpringBook];
    assert [SpringBook][1..] == [];
    assert Search([SpringBook], "java") == [];
    assert Search(books, "java") == [JavaBook];
  }

  /** A book service bean. */
  class BookService {
    const package: Package
    const repo: Repository<BookData>

    constructor (package: Package, repo: Repository<BookData>)
      ensures this.package == package && this.repo == repo
    {
      this.package := package;
      this.repo := repo;
    }

    /** `createBook`. */
    method CreateBook(e: Book, v: Verdict) returns (r: Result<Book>)
      requires repo.Valid()
      modifies repo
      ensures repo.Valid()
      ensures repo.calls == old(repo.calls) + (if MissingText(e.fields.title) then [] else [SaveCall(e)])
      ensures Step(r, repo.Snapshot()) == CreateBookStep(old(repo.Snapshot()), e, v)
    {
      if MissingText(e.fields.title) {
        r := Err(TitleRequired);
        return;
      }
      var w := repo.Save(e, v);
      match w
      case Written(saved) => r := Ok(saved);
      case IntegrityViolation(_) => r := Err(CreateConflict);
    }

    /** `getAllBooks`. */
    method GetAllBooks() returns (r: seq<Book>)
      requires repo.Valid()
      modifies repo`calls
      ensures repo.Valid()
      ensures repo.calls == old(repo.calls) + [FindAllCall]
      ensures r == Listing(repo.Snapshot())
    {
      r := repo.FindAll();
    }

    /** `getBookById`. */
    method GetBookById(id: int) returns (r: Result<Book>)
      modifies repo`calls
      ensures repo.calls == old(repo.calls) + [FindByIdCall(id)]
      ensures r == GetStep(repo.Snapshot(), id, NotFoundError(id))
    {
      var found := repo.FindById(id);
      match found
      case None => r := Err(NotFoundError(id));
      case Some(b) => r := Ok(b);
    }

    /** `updateBook`. */
    method UpdateBook(id: int, details: Book, v: Verdict) returns (r: Result<Book>)
      requires repo.Valid()
      modifies repo
      ensures repo.Valid()
      ensures repo.calls == old(repo.calls)
        + (if MissingText(details.fields.title) then [] else [FindByIdCall(id)])
        + (if MissingText(details.fields.title) || id !in old(repo.rows) then []
           else [SaveCall(Entity(Some(id), details.fields))])
      ensures Step(r, repo.Snapshot()) == UpdateBookStep(package, old(repo.Snapshot()), id, details, v)
    {
      if MissingText(details.fields.title) {
        r := Err(TitleRequired);
        return;
      }
      var found := repo.FindById(id);
      if found.None? {
        r := Err(NotFoundError(id));
        return;
      }
      var b := found.value.(fields := details.fields);
      var w := repo.Save(b, v);
      match w
      case Written(saved) => r := Ok(saved);
      case IntegrityViolation(_) => r := Err(UpdateConflict(package));
    }

    /** `deleteBook`. */
    method DeleteBook(id: int, v: Verdict) returns (r: Result<()>)
      requires repo.Valid()
      modifies repo
      ensures repo.Valid()
      ensures repo.calls == old(repo.calls) + [FindByIdCall(id)]
        + (if id in old(repo.rows) then [DeleteByIdCall(id)] else [])
      ensures Step(r, repo.Snapshot()) == DeleteBookStep(old(repo.Snapshot()), id, v)
    {
      var found := repo.FindById(id);
      if found.None? {
        r := Err(NotFoundError(id));
        return;
      }
      var w := repo.DeleteById(id, v);
      match w
      case Written(_) => r := Ok(());
      case IntegrityViolation(_) => r := Err(DeleteConflict);
    }

    /** `searchBooks`; the store is not called for a missing term. */
    method SearchBooks(term: Option<string>) returns (r: Result<seq<Book>>)
      requires repo.Valid()
      requires SearchDefined(package, Listing(repo.Snapshot()), term)
      modifies repo`calls
      ensures repo.Valid()
      ensures repo.calls == old(repo.calls) + (if MissingText(term) then [] else [FindAllCall])
      ensures r == SearchResult(package, Listing(repo.Snapshot()), term)
    {
      if MissingText(term) {
        r := Err(EmptyTerm);
        return;
      }
      var books := repo.FindAll();
      r := SearchResult(package, books, term);
    }

    /** `sortBooksByTitle` and `sortBooksByPublicationDate`. */
    method SortBooks(key: SortKey) returns (r: seq<Book>)
      requires repo.Valid()
      requires Sortable(key, Listing(repo.Snapshot()))
      modifies repo`calls
      ensures repo.Valid()
      ensures repo.calls == old(repo.calls) + [FindAllCall]
      ensures r == Sort(key, Listing(repo.Snapshot()))
    {
      var books := repo.FindAll();
      r := Sort(key, books);
    }

    /** `generateAuthorReport`. */
    method GenerateAuthorReport() returns (r: seq<string>)
      requires repo.Valid()
      requires Authored(Listing(repo.Snapshot()))
      modifies repo`calls
      ensures repo.Valid()
      ensures repo.calls == old(repo.calls) + [FindAllCall]
      ensures r == Report(Listing(repo.Snapshot()))
    {
      var books := repo.FindAll();
      r := Report(books);
    }
  }
}
