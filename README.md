# books-api: the CRUD core in Dafny

This project models the behaviour of a small REST service that manages
authors and books. The service has three layers:

- Two keyed tables. Authors are keyed by a numeric id, books by their isbn.
  Saving is an upsert by primary key. Deleting an absent key does nothing.
  The author table also answers one derived query, "authors younger than n".
- The services. `saveBook` forces the path isbn onto the entity before it is
  stored. The partial updates do a field-level null-coalescing merge: a
  non-null patch field overwrites the stored one, and a null one keeps it.
  A partial update of a missing key fails with "Author does not exist." or
  "Book does not exist.".
- The controllers. Each HTTP handler is a method that answers a status code
  (200, 201, 204 or 404) and an optional body. The 404 pre-checks come before
  any update. The book PUT answers 201 or 200 depending on whether the isbn
  was stored before the save. Delete always answers 204.

Modules, one per file:

- `Wrappers` (wrappers.dfy): `Option` stands for Java's nullable values.
  `Result` stands for a call that may throw.
- `Entities` (entities.dfy): the `Author` and `Book` records, and
  `PatchAuthor`/`PatchBook`, the merge a partial update stores, with lemmas
  about that merge. The mapper between wire shapes and stored shapes copies
  field by field, so one record type stands for both.
- `Repositories` (repositories.dfy): the `AuthorRepository` and
  `BookRepository` classes. Each holds a `map` field that its methods
  reassign. `AuthorsYoungerThan` is the `ageLessThan` query, written as a
  pure function over the author map.
- `Services` (services.dfy): the `AuthorService` and `BookService` classes.
  Each has a `const` reference to its repository.
- `Controllers` (controllers.dfy): the `AuthorController` and
  `BookController` classes, and the `Response` record.
- `Scenarios` (scenarios.dfy): client methods that replay what the
  integration tests check, generalised to all inputs where the tests use
  one fixed value.

Every record is filed under its own key. That is the `Valid()` invariant of
each repository, and every state-changing method keeps it. Every
state-changing method also says what the whole table is afterwards, in terms
of the table before the call, so "nothing else in the table changes" is part
of each contract.

## Model

| member | source | states |
|---|---|---|
| `Entities.Coalesce` | src/main/java/com/example/books_api/services/impl/AuthorServiceImpl.java:55 | The `Optional.ofNullable(x).ifPresent(setter)` step: a given value wins, a null one keeps the current value, and the result is null only when both are |
| `Entities.PatchAuthor` | src/main/java/com/example/books_api/services/impl/AuthorServiceImpl.java:55-56 | The author record a partial update stores: it keeps the id, and it equals the stored record exactly when every given field already had the given value |
| `Entities.PatchBook` | src/main/java/com/example/books_api/services/impl/BookServiceImpl.java:54-55 | The book record a partial update stores: it keeps the isbn, and it equals the stored record exactly when every given field already had the given value |
| `Entities.PatchAuthorFields` | src/main/java/com/example/books_api/services/impl/AuthorServiceImpl.java:55-56 | A non-null patch name or age overwrites the stored one; a null one keeps it; the id never changes |
| `Entities.PatchBookFields` | src/main/java/com/example/books_api/services/impl/BookServiceImpl.java:54-55 | A non-null patch title or author overwrites the stored one; a null one keeps it; the isbn never changes |
| `Entities.PatchAuthorIdempotent` | src/main/java/com/example/books_api/services/impl/AuthorServiceImpl.java:54-57 | Applying the same author patch twice stores the same record as applying it once |
| `Entities.PatchBookIdempotent` | src/main/java/com/example/books_api/services/impl/BookServiceImpl.java:53-57 | Applying the same book patch twice stores the same record as applying it once |
| `Entities.EmptyPatchAuthorKeeps` | src/main/java/com/example/books_api/services/impl/AuthorServiceImpl.java:55-56 | An author patch whose name and age are null leaves the record unchanged |
| `Entities.EmptyPatchBookKeeps` | src/main/java/com/example/books_api/services/impl/BookServiceImpl.java:54-55 | A book patch whose title and author are null leaves the record unchanged |
| `Entities.FullPatchAuthorReplaces` | src/main/java/com/example/books_api/services/impl/AuthorServiceImpl.java:55-56 | A patch giving both name and age stores what a full update with that body under the existing id stores |
| `Entities.FullPatchBookReplaces` | src/main/java/com/example/books_api/services/impl/BookServiceImpl.java:54-55 | A patch giving both title and author stores the body under the existing isbn |
| `Entities.PatchAuthorSequential` | src/main/java/com/example/books_api/services/impl/AuthorServiceImpl.java:54-57 | Two author patches in a row equal one patch in which the later patch's non-null fields win |
| `Repositories.AuthorsYoungerThan` | src/main/java/com/example/books_api/repositories/AuthorRepository.java:11 | The `ageLessThan` query over an author table, as a set: only stored authors, each with a known age below n |
| `Repositories.AuthorRepository.AgeLessThan` | src/main/java/com/example/books_api/repositories/AuthorRepository.java:11 | An author is in the answer exactly when it is stored and its age is known and strictly below n |
| `Entities.PatchBookSequential` | src/main/java/com/example/books_api/services/impl/BookServiceImpl.java:53-57 | Two book patches in a row equal one patch in which the later patch's non-null fields win |
| `Repositories.AuthorsYoungerThanExactly` | src/main/java/com/example/books_api/repositories/AuthorRepository.java:11 | `ageLessThan(n)` answers exactly the stored authors whose age is known and strictly below n, stated both by key and by stored value |
| `Repositories.AuthorsYoungerThanMonotone` | src/main/java/com/example/books_api/repositories/AuthorRepository.java:11 | Raising the bound never removes an author from the answer |
| `Repositories.AuthorsYoungerThanSkipsUnknownAge` | src/main/java/com/example/books_api/repositories/AuthorRepository.java:11 | An author whose age is null is not in the answer, whatever the bound |
| `Repositories.AuthorRepository.Save` | src/test/java/com/example/books_api/repositories/AuthorEntityRepositoryIntegrationTests.java:47-59 | Upsert: the record is stored under its id, replacing any record there, and returned; a record without an id gets one not in use; every other id keeps its record |
| `Repositories.AuthorRepository.FindById` | src/test/java/com/example/books_api/repositories/AuthorEntityRepositoryIntegrationTests.java:26-34 | Finds a record exactly when the id is stored, and it is the stored record |
| `Repositories.AuthorRepository.ExistsById` | src/main/java/com/example/books_api/services/impl/AuthorServiceImpl.java:45-48 | True exactly when the id is stored |
| `Repositories.AuthorRepository.DeleteById` | src/test/java/com/example/books_api/repositories/AuthorEntityRepositoryIntegrationTests.java:61-71 | Removes that id and nothing else; an absent id leaves the table as it was |
| `Repositories.AuthorRepository.FindAll` | src/test/java/com/example/books_api/repositories/AuthorEntityRepositoryIntegrationTests.java:36-45 | Lists every stored author, each exactly once, and nothing else |
| `Repositories.BookRepository.Save` | src/test/java/com/example/books_api/repositories/BookEntityRepositoryIntegrationTests.java:50-64 | Upsert by isbn: the record is stored under its isbn, replacing any record there; other isbns keep theirs |
| `Repositories.BookRepository.FindById` | src/test/java/com/example/books_api/repositories/BookEntityRepositoryIntegrationTests.java:26-36 | Finds a record exactly when the isbn is stored, and it is the stored record |
| `Repositories.BookRepository.ExistsById` | src/main/java/com/example/books_api/services/impl/BookServiceImpl.java:43-46 | True exactly when the isbn is stored |
| `Repositories.BookRepository.DeleteById` | src/test/java/com/example/books_api/repositories/BookEntityRepositoryIntegrationTests.java:66-77 | Removes that isbn and nothing else; an absent isbn is a no-op |
| `Repositories.BookRepository.FindAll` | src/test/java/com/example/books_api/repositories/BookEntityRepositoryIntegrationTests.java:38-48 | Lists every stored book, each exactly once, and nothing else |
| `Services.AuthorService.SaveAuthor` | src/main/java/com/example/books_api/services/impl/AuthorServiceImpl.java:22-25 | Upserts the author and returns the stored record; other ids are untouched |
| `Services.AuthorService.FindAll` | src/main/java/com/example/books_api/services/impl/AuthorServiceImpl.java:27-33 | Returns every stored author exactly once |
| `Services.AuthorService.FindOne` | src/main/java/com/example/books_api/services/impl/AuthorServiceImpl.java:40-43 | Some(stored record) when the id is stored, None otherwise |
| `Services.AuthorService.IsPresent` | src/main/java/com/example/books_api/services/impl/AuthorServiceImpl.java:45-48 | True exactly when the id is stored, that is, exactly when FindOne finds a record |
| `Services.AuthorService.PartialUpdateAuthor` | src/main/java/com/example/books_api/services/impl/AuthorServiceImpl.java:50-63 | Succeeds exactly when the id is stored; then stores and returns the merged record, which keeps the id, and no other id changes; otherwise fails with "Author does not exist." and the table is unchanged |
| `Services.AuthorService.Delete` | src/main/java/com/example/books_api/services/impl/AuthorServiceImpl.java:65-68 | Removes the id if stored; an absent id is a no-op without error |
| `Services.BookService.SaveBook` | src/main/java/com/example/books_api/services/impl/BookServiceImpl.java:22-26 | Stores the book under the given isbn, overriding the isbn it carried, and returns it with that isbn; other isbns are untouched |
| `Services.BookService.FindAll` | src/main/java/com/example/books_api/services/impl/BookServiceImpl.java:28-31 | Returns every stored book exactly once |
| `Services.BookService.FindOne` | src/main/java/com/example/books_api/services/impl/BookServiceImpl.java:38-41 | Some(stored record) when the isbn is stored, None otherwise |
| `Services.BookService.IsPresent` | src/main/java/com/example/books_api/services/impl/BookServiceImpl.java:43-46 | True exactly when the isbn is stored, that is, exactly when FindOne finds a record |
| `Services.BookService.PartialUpdate` | src/main/java/com/example/books_api/services/impl/BookServiceImpl.java:48-63 | Succeeds exactly when the isbn is stored; then stores and returns the merged book, which keeps the isbn, and no other isbn changes; otherwise fails with "Book does not exist." and the table is unchanged |
| `Services.BookService.Delete` | src/main/java/com/example/books_api/services/impl/BookServiceImpl.java:65-68 | Removes only that isbn; an absent isbn is a no-op |
| `Controllers.AuthorController.CreateAuthor` | src/main/java/com/example/books_api/controllers/AuthorController.java:25-30 | Always 201, with the stored author as body: it has an id and the posted name and age |
| `Controllers.AuthorController.GetAuthor` | src/main/java/com/example/books_api/controllers/AuthorController.java:38-47 | 200 with the stored author when the id is stored, 404 with no body otherwise |
| `Controllers.AuthorController.FullUpdateAuthor` | src/main/java/com/example/books_api/controllers/AuthorController.java:49-59 | 404 with the table unchanged when the id is absent; otherwise the body with the path id replaces the stored record, and the answer is 200 with it |
| `Controllers.AuthorController.PartialUpdateAuthor` | src/main/java/com/example/books_api/controllers/AuthorController.java:61-71 | 404 with the table unchanged when the id is absent, so the service never fails from here; otherwise 200 with the merged author, which is stored |
| `Controllers.AuthorController.DeleteAuthor` | src/main/java/com/example/books_api/controllers/AuthorController.java:73-77 | Always 204 without a body, whether or not the id was stored; the id is gone afterwards |
| `Controllers.BookController.CreateUpdateBook` | src/main/java/com/example/books_api/controllers/BookController.java:25-36 | 200 when the isbn was stored before the call, 201 when it was not; in both cases the body, carrying the path isbn, is stored under that isbn and answered |
| `Controllers.BookController.GetBook` | src/main/java/com/example/books_api/controllers/BookController.java:44-51 | 200 with the stored book when the isbn is stored, 404 with no body otherwise |
| `Controllers.BookController.PartialUpdateBook` | src/main/java/com/example/books_api/controllers/BookController.java:53-62 | 404 with the table unchanged when the isbn is absent; otherwise 200 with the merged book, which keeps its isbn and is stored |
| `Controllers.BookController.DeleteBook` | src/main/java/com/example/books_api/controllers/BookController.java:64-69 | Always 204 without a body; the isbn is gone afterwards |
| `Scenarios.ListSavedAuthors` | src/test/java/com/example/books_api/repositories/AuthorEntityRepositoryIntegrationTests.java:36-45 | Authors with distinct ids saved into an empty table are listed back exactly, in some order (a permutation) |
| `Scenarios.AgeLessThanScenario` | src/test/java/com/example/books_api/repositories/AuthorEntityRepositoryIntegrationTests.java:73-81 | With ages 49, 28 and 54 stored, the query with bound 50 answers the first two authors and not the third |
| `Scenarios.SaveThenFindAuthor` | src/test/java/com/example/books_api/repositories/AuthorEntityRepositoryIntegrationTests.java:26-34 | After a save, the lookup by the saved id finds the record (the same record when it carried an id) |
| `Scenarios.UpdateThenFindAuthor` | src/test/java/com/example/books_api/repositories/AuthorEntityRepositoryIntegrationTests.java:47-59 | Saving again under a stored id replaces the record: the lookup sees the new name |
| `Scenarios.DeleteThenFindAuthor` | src/test/java/com/example/books_api/repositories/AuthorEntityRepositoryIntegrationTests.java:61-71 | After a delete, the lookup finds nothing |
| `Scenarios.SaveThenFindBook` | src/test/java/com/example/books_api/repositories/BookEntityRepositoryIntegrationTests.java:26-36 | After saving a book, the lookup by its isbn finds it |
| `Scenarios.CreateThenGetAuthor` | src/test/java/com/example/books_api/controllers/AuthorControllerIntegrationTest.java:52-69 | POST answers 201 with an id and the posted fields; GET by that id answers 200 with the same record |
| `Scenarios.PatchNameKeepsAge` | src/main/java/com/example/books_api/controllers/AuthorController.java:61-71 | A PATCH with only a name answers 200 with the new name and the stored id and age |
| `Scenarios.MissingAuthor` | src/test/java/com/example/books_api/controllers/AuthorControllerIntegrationTest.java:111-119 | On an empty table GET, PUT and PATCH answer 404 and DELETE answers 204; these are the GET test at lines 111-119, the PUT test at 154-166, the PATCH test at 204-216 and the DELETE test at 251-259 of the same file |
| `Scenarios.PutBookTwice` | src/test/java/com/example/books_api/controllers/BookControllerIntegrationTest.java:149-165 | PUT on a fresh isbn answers 201, PUT again with a new title answers 200, and GET answers the new title under the path isbn |
| `Scenarios.DeleteBookThenGet` | src/test/java/com/example/books_api/controllers/BookControllerIntegrationTest.java:216-227 | Deleting a stored book answers 204, and a later GET answers 404 |

## Left out

- HTTP routing, annotations, `ResponseEntity` and JSON are framework plumbing. A handler is a method that answers a `Response(status, body)`.
- The mapper between wire shapes and stored shapes is a reflective library (config/MapperConfig.java). The model treats it as the identity on one record type.
- Pagination is done by the framework. So `findAll(pageable)`, `listAuthors` and `listBooks` are not modelled. Only the unpaged `findAll` is.
- The order in which `findAll` and `ageLessThan` return rows is decided by the store. `FindAll` promises no order. `AuthorsYoungerThan` answers a set.
- The book repository's interface and the entity classes are not part of this model. Their behaviour is taken from the repository tests, and the fields from the services and the tests.
- The store's id generator is modelled as a counter, `nextId`, kept past every id in use. An author saved without an id gets the counter's value. An author saved with an id is upserted under that id.
- `Repositories.BookRepository.Save` requires an isbn, because the isbn is not generated. Its only callers set one first.
- The foreign key and any cascade from a book to its author belong to the database. A book's author is a plain value in the model.
- The check-then-act race in `createUpdateBook` is concurrency. The model is sequential.
- Java `Long` and `Integer` overflow are not modelled. Ids and ages are unbounded integers.
- A thrown `RuntimeException` is modelled as a `Failure` carrying its message.
- `saveBook` sets the isbn on the caller's entity object in place. `CreateUpdateBook` models this by updating its own local record after the call. Aliasing of entity objects is not modelled otherwise: records are values.
