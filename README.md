# Online library service layer, in Dafny

This project models the service layer of a Spring library backend: the book,
author and publisher services, in both of the packages that hold them
(`service.impl` and `serviceImpl`), and the global exception handler that turns
their exceptions into HTTP responses. The services run against an abstract
in-memory store. The store is a table from id to record, with an identity
counter; the model lists it in insertion order (a choice of the model, see
"Left out"). Every write takes a verdict input, and a
verdict can make the store refuse the write with an integrity violation.

Layout, one module per file:

- `outcomes.dfy` (`Outcomes`): `Option` stands for Java's `null`. It also holds
  the four exception kinds that reach the handler, and `Result`.
- `entities.dfy` (`Entities`): books, authors and publishers. Each is an
  optional id plus its fields. A publication date is a millisecond count.
- `text.dfy` (`Text`): ASCII `toLowerCase` and `contains`. It also holds
  `String.compareTo`, and the decimal rendering of `long` and its inverse.
- `sequences.dfy` (`Sequences`): distinctness and subsequences.
- `store.dfy` (`Store`): the table transitions of `findAll`, `findById`,
  `existsById`, `save` and `deleteById`, as pure functions with lemmas. Also
  the `Repository` class that a service holds. It keeps a log of the calls
  made on it, which is what the unit tests check with their mocks.
- `steps.dfy` (`ServiceSteps`): the create, get, update and delete pattern every
  service follows. Each is a pure step from the table before the call to the
  answer and the table after it. The module also holds the lemmas relating the
  steps: create-then-get, update-then-get, delete-then-get, and others.
- `named.dfy` (`NamedServices`): `AuthorServiceImpl` and `PublisherServiceImpl`.
  The two packages hold the same code for each of them, differing only in how
  the repository is injected. So one class `NamedService` models all four
  files, and a `Kind` chooses the messages.
- `search.dfy`, `sorting.dfy`, `report.dfy` (`BookSearch`, `BookSort`,
  `AuthorReport`): the three queries over `findAll`. These are the search
  filter, the stable sort by title or by publication date, and the report
  grouped by author.
- `books.dfy` (`BookServices`): `BookServiceImpl`. A `Package` value chooses
  between the two copies. They differ in the message of a refused update and
  in whether the search filter checks for null fields.
- `handler.dfy` (`ExceptionHandler`): `GlobalExceptionHandler`.

Every service method is a method of a class that holds its repository. Its
postcondition ties the answer and the new table to the pure step of its
operation. It also states the exact calls made on the repository, for example
that a missing title never reaches `save`. The properties are then proved
about the steps.

Where the code and a plain reading of the services disagree, the model follows
the code.
- `deleteAuthor` and `deletePublisher` catch nothing. An integrity violation
  from `deleteById` therefore leaves them as an untranslated exception, which
  the handler answers with 500. It is not a 409.
- `createAuthor` and `updateAuthor` do translate a refused `save` into a
  conflict.

## Model

| member | source | states |
|---|---|---|
| `ExceptionHandler.Handle` | src/main/java/com/example/onlinelibrary/exception/GlobalExceptionHandler.java:13-31 | Every exception gets one of 404, 400, 409, 500, and 500 exactly for the untranslated kind |
| `ExceptionHandler.HandleTranslated` | src/main/java/com/example/onlinelibrary/exception/GlobalExceptionHandler.java:13-31 | Not-found answers 404, invalid data 400 and integrity 409, each with the message as the whole body; any other exception answers with "An internal error occurred: " followed by its message |
| `ExceptionHandler.RecoverHandle` | src/main/java/com/example/onlinelibrary/exception/GlobalExceptionHandler.java:13-31 | The response can be read back into the exception that produced it, kind and message |
| `ExceptionHandler.HandleInjective` | src/main/java/com/example/onlinelibrary/exception/GlobalExceptionHandler.java:13-31 | Different exceptions never give the same response |
| `Text.ContainsLower` | src/main/java/com/example/onlinelibrary/service/impl/BookServiceImpl.java:98-100 | A text that contains a term still contains it once both are lower-cased |
| `Text.CompareToAntisymmetric` | src/main/java/com/example/onlinelibrary/service/impl/BookServiceImpl.java:107 | Swapping the operands of `compareTo` negates its result |
| `Text.CompareToZero` | src/main/java/com/example/onlinelibrary/service/impl/BookServiceImpl.java:107 | `compareTo` is zero exactly on equal strings |
| `Text.CompareToTransitive` | src/main/java/com/example/onlinelibrary/service/impl/BookServiceImpl.java:107 | "Not after" under `compareTo` is transitive |
| `Text.ParseNatToString` | src/main/java/com/example/onlinelibrary/service/impl/BookServiceImpl.java:123 | Reading the decimal digits of a count back gives the count |
| `Text.IntToStringInjective` | src/main/java/com/example/onlinelibrary/service/impl/BookServiceImpl.java:52 | Different ids give different decimal renderings, so a not-found message names its id |
| `Store.ListingIsLookup` | src/main/java/com/example/onlinelibrary/service/impl/AuthorServiceImpl.java:37-39 | `findAll` lists exactly what `findById` finds, each stored id once, one entry per stored row |
| `Store.SaveWellFormed` | src/main/java/com/example/onlinelibrary/service/impl/AuthorServiceImpl.java:30 | `save` keeps the table consistent: listed ids distinct and stored, ids below the counter |
| `Store.SaveThenLookup` | src/main/java/com/example/onlinelibrary/service/impl/AuthorServiceImpl.java:30 | The id `save` returns finds what `save` returned; every other id is unaffected |
| `Store.SaveIdentity` | src/main/java/com/example/onlinelibrary/service/impl/AuthorServiceImpl.java:30 | Saving a stored entity updates it in place; saving any other assigns a fresh id and adds one row |
| `Store.SaveListing` | src/main/java/com/example/onlinelibrary/service/impl/AuthorServiceImpl.java:55 | After `save`, `findAll` shows an update in place and an insert appended at the end |
| `Store.DeleteWellFormed` | src/main/java/com/example/onlinelibrary/service/impl/AuthorServiceImpl.java:67 | `deleteById` keeps the table consistent |
| `Store.DeleteThenLookup` | src/main/java/com/example/onlinelibrary/service/impl/AuthorServiceImpl.java:67 | After `deleteById` the id finds nothing, others are unaffected, and one listed entry goes |
| `Store.Repository.constructor` | src/main/java/com/example/onlinelibrary/service/impl/AuthorServiceImpl.java:22-24 | A fresh repository is empty and consistent and has logged no calls |
| `Store.Repository.FindAll` | src/main/java/com/example/onlinelibrary/service/impl/AuthorServiceImpl.java:38 | Returns the listing of the table and logs one call |
| `Store.Repository.FindById` | src/main/java/com/example/onlinelibrary/service/impl/AuthorServiceImpl.java:43-44 | Returns the lookup of the id and logs one call |
| `Store.Repository.ExistsById` | src/main/java/com/example/onlinelibrary/service/impl/AuthorServiceImpl.java:64 | True exactly when the id is stored; logs one call |
| `Store.Repository.Save` | src/main/java/com/example/onlinelibrary/service/impl/AuthorServiceImpl.java:29-33 | A refused save changes nothing and reports the violation; otherwise the table becomes the saved table and the saved entity is returned |
| `Store.Repository.DeleteById` | src/main/java/com/example/onlinelibrary/service/impl/AuthorServiceImpl.java:67 | A refused delete changes nothing; otherwise the row and its listed id go |
| `ServiceSteps.SaveStep` | src/main/java/com/example/onlinelibrary/service/impl/AuthorServiceImpl.java:28-34 | A refusal, and only a refusal, gives the conflict error, and then the table is unchanged |
| `ServiceSteps.GetStep` | src/main/java/com/example/onlinelibrary/service/impl/AuthorServiceImpl.java:42-45 | Succeeds exactly for a stored id, with the stored record under that id; else the not-found error |
| `ServiceSteps.UpdateStep` | src/main/java/com/example/onlinelibrary/service/impl/AuthorServiceImpl.java:49-59 | Unknown id: not found, and `save` is never reached. Refused save: conflict. Otherwise the stored entity keeps its id and takes the new fields. Any error leaves the table unchanged |
| `ServiceSteps.DeleteStep` | src/main/java/com/example/onlinelibrary/service/impl/AuthorServiceImpl.java:63-68 | Unknown id: not found. Refused delete: the store's own exception, or the translated error. Otherwise removes the id. Any error leaves the table unchanged |
| `ServiceSteps.StepsWellFormed` | src/main/java/com/example/onlinelibrary/service/impl/AuthorServiceImpl.java:28-68 | Every create, update and delete keeps the table consistent |
| `ServiceSteps.CreateThenGet` | src/main/java/com/example/onlinelibrary/service/impl/AuthorServiceImpl.java:28-45 | A created entity carries the given fields, is found by get under its returned id, is listed, and a new one is appended to `findAll` |
| `ServiceSteps.UpdateThenGet` | src/main/java/com/example/onlinelibrary/service/impl/AuthorServiceImpl.java:42-59 | After an update, get finds the new fields under the same id, every other id is unaffected, and the listing keeps its length and id order |
| `ServiceSteps.DeleteThenGet` | src/main/java/com/example/onlinelibrary/service/impl/AuthorServiceImpl.java:42-68 | After a delete, get of that id fails not-found, other ids are unaffected, and the listing loses exactly that entity |
| `ServiceSteps.DeleteTwice` | src/main/java/com/example/onlinelibrary/service/impl/AuthorServiceImpl.java:63-68 | A second delete of the same id fails not-found and changes nothing |
| `ServiceSteps.UpdateIdempotent` | src/main/java/com/example/onlinelibrary/service/impl/AuthorServiceImpl.java:49-59 | Updating with the fields already stored leaves the table as it was |
| `NamedServices.NotFoundIdentifies` | src/main/java/com/example/onlinelibrary/service/impl/PublisherServiceImpl.java:45 | A not-found message determines the entity kind and the id |
| `NamedServices.ErrorResponses` | src/main/java/com/example/onlinelibrary/service/impl/PublisherServiceImpl.java:43-58 | A missing id answers 404 "<Kind> not found with id <id>"; a refused create answers 409 "<Kind> with this name already exists" |
| `NamedServices.NamedService.constructor` | src/main/java/com/example/onlinelibrary/service/impl/PublisherServiceImpl.java:23-25 | The bean holds the given repository |
| `NamedServices.NamedService.Create` | src/main/java/com/example/onlinelibrary/service/impl/PublisherServiceImpl.java:29-35 | Calls `save` once; answers and changes the store as the save step says (same for `serviceImpl`, lines 23-29, and both author copies) |
| `NamedServices.NamedService.GetAll` | src/main/java/com/example/onlinelibrary/service/impl/PublisherServiceImpl.java:38-40 | Returns the stored list unchanged; calls `findAll` once |
| `NamedServices.NamedService.GetById` | src/main/java/com/example/onlinelibrary/service/impl/PublisherServiceImpl.java:43-46 | The stored entity, or not found with "<Kind> not found with id <id>"; calls `findById` once |
| `NamedServices.NamedService.Update` | src/main/java/com/example/onlinelibrary/service/impl/PublisherServiceImpl.java:50-60 | Calls `findById`, and `save` only when the id exists; overwrites only the name; a refusal becomes "<Kind> with this name already exists" |
| `NamedServices.NamedService.Delete` | src/main/java/com/example/onlinelibrary/serviceImpl/PublisherServiceImpl.java:58-63 | Calls `existsById`, and `deleteById` only when it answered true; otherwise not found |
| `BookSearch.Search` | src/main/java/com/example/onlinelibrary/service/impl/BookServiceImpl.java:97-101 | A book is in the result exactly when it is listed and its title, author name or publisher name contains the term, ignoring case; absent fields never match |
| `BookSearch.SearchIsSubsequence` | src/main/java/com/example/onlinelibrary/service/impl/BookServiceImpl.java:97-101 | The search keeps the books in `findAll` order |
| `BookSearch.SearchMultiplicity` | src/main/java/com/example/onlinelibrary/service/impl/BookServiceImpl.java:97-101 | A matching book occurs as often as it is listed; a non-matching one never occurs |
| `BookSearch.SearchCaseInsensitive` | src/main/java/com/example/onlinelibrary/service/impl/BookServiceImpl.java:98-100 | Terms equal up to case find the same books |
| `BookSearch.ExactOccurrenceMatches` | src/main/java/com/example/onlinelibrary/service/impl/BookServiceImpl.java:98-100 | A field containing the term as written is found |
| `BookSearch.UnguardedSearchAgrees` | src/main/java/com/example/onlinelibrary/serviceImpl/BookServiceImpl.java:91-95 | Where the unguarded filter reads no null field, it finds what the guarded one finds |
| `BookSort.CompareAntisymmetric` | src/main/java/com/example/onlinelibrary/service/impl/BookServiceImpl.java:105-116 | Both comparators are antisymmetric and zero exactly on equal keys |
| `BookSort.CompareTransitive` | src/main/java/com/example/onlinelibrary/service/impl/BookServiceImpl.java:105-116 | Both comparators' "not after" is transitive |
| `BookSort.Insert` | src/main/java/com/example/onlinelibrary/service/impl/BookServiceImpl.java:105-116 | Inserting adds exactly the one book: the multiset grows by it |
| `BookSort.Sort` | src/main/java/com/example/onlinelibrary/service/impl/BookServiceImpl.java:105-116 | The sorted list is a permutation of `findAll` |
| `BookSort.InsertSorted` | src/main/java/com/example/onlinelibrary/service/impl/BookServiceImpl.java:105-116 | Inserting into an ordered list keeps it ordered |
| `BookSort.SortSorted` | src/main/java/com/example/onlinelibrary/service/impl/BookServiceImpl.java:105-116 | The result is non-decreasing by title `compareTo` or by date |
| `BookSort.InsertTies` | src/main/java/com/example/onlinelibrary/service/impl/BookServiceImpl.java:105-116 | Inserting a book places it before every book with an equal key already in the list |
| `BookSort.SortStable` | src/main/java/com/example/onlinelibrary/service/impl/BookServiceImpl.java:105-116 | The sort is stable: books with equal keys keep their `findAll` order |
| `AuthorReport.AuthorNames` | src/main/java/com/example/onlinelibrary/service/impl/BookServiceImpl.java:121 | One classifier value per book: its author's name |
| `AuthorReport.CountByMultiplicity` | src/main/java/com/example/onlinelibrary/service/impl/BookServiceImpl.java:121 | The count of a group is the number of books whose author has that name |
| `AuthorReport.Keys` | src/main/java/com/example/onlinelibrary/service/impl/BookServiceImpl.java:121-122 | The groups are exactly the distinct author names, each once |
| `AuthorReport.Lines` | src/main/java/com/example/onlinelibrary/service/impl/BookServiceImpl.java:122-123 | One line per group, "<name>: <count> books" |
| `AuthorReport.DigitsStart` | src/main/java/com/example/onlinelibrary/service/impl/BookServiceImpl.java:123 | Finds where the trailing digits of a line begin |
| `AuthorReport.ParseLineRoundTrip` | src/main/java/com/example/onlinelibrary/service/impl/BookServiceImpl.java:123 | A report line can be read back into its name and count |
| `AuthorReport.LineInjective` | src/main/java/com/example/onlinelibrary/service/impl/BookServiceImpl.java:123 | Different names or counts never give the same line |
| `AuthorReport.ReportLines` | src/main/java/com/example/onlinelibrary/service/impl/BookServiceImpl.java:119-125 | A line is in the report exactly when its name is an author's name and its count is that author's number of books |
| `AuthorReport.ReportDistinct` | src/main/java/com/example/onlinelibrary/service/impl/BookServiceImpl.java:119-125 | There are no repeated lines, and there is one line per distinct author name |
| `AuthorReport.TotalAddOne` | src/main/java/com/example/onlinelibrary/service/impl/BookServiceImpl.java:121 | One more book by an author raises that group's count by one |
| `AuthorReport.KeysTotal` | src/main/java/com/example/onlinelibrary/service/impl/BookServiceImpl.java:121 | Grouping counts every value exactly once |
| `AuthorReport.ReadTotalLines` | src/main/java/com/example/onlinelibrary/service/impl/BookServiceImpl.java:123 | The counts read back from the formatted lines are the group counts they were made from |
| `AuthorReport.ReportTotal` | src/main/java/com/example/onlinelibrary/service/impl/BookServiceImpl.java:119-125 | The counts written in the report's lines, read back with `ParseLine`, add up to the number of books |
| `BookServices.CreateBookStep` | src/main/java/com/example/onlinelibrary/service/impl/BookServiceImpl.java:32-41 | A missing or empty title fails "Book title is required" with the store untouched; a refused save fails "Book with this title already exists"; otherwise what `save` returns |
| `BookServices.UpdateBookStep` | src/main/java/com/example/onlinelibrary/service/impl/BookServiceImpl.java:59-76 | The title is checked before the id; an unknown id fails "Book not found with id <id>"; a refusal fails with the package's conflict message; otherwise all four fields are replaced under the same id |
| `BookServices.DeleteBookStep` | src/main/java/com/example/onlinelibrary/service/impl/BookServiceImpl.java:80-90 | Unknown id: not found. Refused delete: "Cannot delete book because it is associated with other records". Otherwise the book is removed. Each error leaves the store as it was |
| `BookServices.SearchResult` | src/main/java/com/example/onlinelibrary/service/impl/BookServiceImpl.java:93-102 | Fails "Search term cannot be empty" exactly for a null or empty term; otherwise the books matching the term (same for `serviceImpl`, lines 87-96, where it does not throw) |
| `BookServices.CreateBookThenGet` | src/main/java/com/example/onlinelibrary/service/impl/BookServiceImpl.java:32-55 | A created book is found by `getBookById` under its new id and is listed |
| `BookServices.PackagesAgree` | src/main/java/com/example/onlinelibrary/serviceImpl/BookServiceImpl.java:53-95 | The two packages change the store alike and answer alike, except in the wording of a refused update |
| `BookServices.BookErrorResponses` | src/main/java/com/example/onlinelibrary/service/impl/BookServiceImpl.java:32-90 | A missing title answers 400, an unknown id on delete 404, a refused delete 409, each with its message as body |
| `BookServices.UnguardedSearchThrows` | src/main/java/com/example/onlinelibrary/serviceImpl/BookServiceImpl.java:92-93 | For the test's books and the term "java", the unguarded filter reaches the absent author of "Spring Boot Guide" |
| `BookServices.GuardedSearchFindsTitle` | src/test/java/com/example/onlinelibrary/serviceImpl/BookServiceImplTest.java:408-428 | The guarded search answers that test with exactly "Java Programming" |
| `BookServices.BookService.constructor` | src/main/java/com/example/onlinelibrary/service/impl/BookServiceImpl.java:26-28 | The bean holds the given package and repository |
| `BookServices.BookService.CreateBook` | src/main/java/com/example/onlinelibrary/service/impl/BookServiceImpl.java:32-41 | `save` is never called for a missing title; answers and changes the store as the create step says (`serviceImpl`: lines 26-35) |
| `BookServices.BookService.GetAllBooks` | src/main/java/com/example/onlinelibrary/service/impl/BookServiceImpl.java:44-46 | The stored list, via one `findAll` |
| `BookServices.BookService.GetBookById` | src/main/java/com/example/onlinelibrary/service/impl/BookServiceImpl.java:49-55 | The stored book or "Book not found with id <id>" |
| `BookServices.BookService.UpdateBook` | src/main/java/com/example/onlinelibrary/serviceImpl/BookServiceImpl.java:53-70 | No store call for a missing title, and no `save` for an unknown id; answers and changes the store as the update step says for this bean's package |
| `BookServices.BookService.DeleteBook` | src/main/java/com/example/onlinelibrary/service/impl/BookServiceImpl.java:80-90 | `deleteById` only for a found id; as the delete step says |
| `BookServices.BookService.SearchBooks` | src/main/java/com/example/onlinelibrary/serviceImpl/BookServiceImpl.java:87-96 | No `findAll` for an empty term; otherwise the search result over `findAll` |
| `BookServices.BookService.SortBooks` | src/main/java/com/example/onlinelibrary/serviceImpl/BookServiceImpl.java:99-110 | The stable sort of `findAll` by title or by date |
| `BookServices.BookService.GenerateAuthorReport` | src/main/java/com/example/onlinelibrary/serviceImpl/BookServiceImpl.java:113-119 | The report over `findAll` |

## Left out

- Dependency injection, the controllers, and `@Transactional` are left out. A
  refused write is modelled as leaving the table exactly as it was.
- The repository implementation is not modelled. It is replaced by the
  in-memory table.
- Integrity rules are not modelled. Whether the store refuses a write is a
  verdict input: no uniqueness of names or titles is assumed.
- The entities' back-reference `books` collections are left out. So an author
  or publisher is a `NameData` record holding only its name, and overwriting
  the name replaces all of its modelled fields.
- A book's author and publisher are not references into the author and
  publisher tables. The book table keeps copies of them, taken when the book
  was saved. It never sees a rename or a delete made through the author and
  publisher services, so after such a rename the search and the report still
  read the old name, where the source reads the current row.
- The order of `findAll` is a choice of the model. The source's `findAll` has
  no ORDER BY and promises no order. The model lists rows in insertion order,
  so "appended at the end" in `Store.SaveListing` and
  `ServiceSteps.CreateThenGet`, and "in listed order" for the search and the
  stable sort, are relative to that chosen order.
- Ids are unbounded integers, not 64-bit `Long`s. The identity counter starts
  at 1 and grows by one per insert.
- `toLowerCase` is ASCII-only and locale-free. `compareTo` compares Dafny
  characters (Unicode scalar values), not UTF-16 code units.
- HashMap order is not modelled. The source's report comes in hash-map order.
  The model lists its groups in first-occurrence order, and every property
  stated about the report is independent of order: membership, distinctness,
  counts, total.
- `BookServices.BookService.SortBooks` requires every listed book to have the
  compared field when there are two or more books. The source throws a
  `NullPointerException` instead.
- `BookServices.BookService.GenerateAuthorReport` requires every listed book
  to have an author with a name. The source throws a `NullPointerException`
  instead.
- `BookServices.BookService.SearchBooks` requires, for the `serviceImpl`
  package, that the unguarded filter reaches no null field. The source throws
  a `NullPointerException` instead. That case is the finding below.
- Flush timing is not modelled, for `deleteById` and for `save` of an already
  stored row (every update). The model reports a refusal from the call
  itself, which is what the mocked tests see. Under `@Transactional` a real
  store may delay the UPDATE or DELETE until commit, past the service's catch
  block, so the translated conflict would then not be raised there.

## Findings

| source | as written | input that shows it | evidently intended | confidence | as-written member | corrected member |
|---|---|---|---|---|---|---|
| src/main/java/com/example/onlinelibrary/serviceImpl/BookServiceImpl.java:92-94 | The search filter calls `getAuthor().getName()` and `getPublisher().getName()` without null checks | books "Java Programming" and "Spring Boot Guide" without author or publisher, term "java" (the test at src/test/java/com/example/onlinelibrary/serviceImpl/BookServiceImplTest.java:408-428): the second book's title does not match, so its null author is dereferenced | absent fields are skipped, as in src/main/java/com/example/onlinelibrary/service/impl/BookServiceImpl.java:98-100, giving the one title match | high (not executed) | `BookServices.UnguardedSearchThrows` | `BookServices.GuardedSearchFindsTitle` |
